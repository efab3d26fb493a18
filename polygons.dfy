/** The polygon outline shared by `polygon` and `paint_filled_polygon`, the
    bounding box of the rounded corners, and the even-odd scanline fill over
    the rasterized border, with the scanning loops as a method. */
module Polygons {
  import opened Basics
  import opened Lines

  // ---------------------------------------------------------------- outline

  /** The lines between consecutive points of `ws`, concatenated in order
      (`windows(2).flat_map(line)`). */
  function Edges(ws: seq<Point>): seq<Point>
  {
    if |ws| < 2 then [] else LinePoints(ws[0], ws[1]) + Edges(ws[1..])
  }

  /** The outline of a polygon: a single vertex is its own outline; otherwise
      the first vertex is appended to close the polygon and every edge is
      rasterized. An empty vertex list makes the source panic on `points[0]`. */
  function Outline(vs: seq<Point>): seq<Point>
    requires |vs| >= 1
  {
    if |vs| == 1 then [vs[0]] else Edges(vs + [vs[0]])
  }

  lemma {:induction false} EdgesSnoc(ws: seq<Point>, p: Point)
    requires |ws| >= 1
    ensures Edges(ws + [p]) == Edges(ws) + LinePoints(ws[|ws| - 1], p)
    decreases |ws|
  {
    if |ws| == 1 {
      assert (ws + [p])[1..] == [p];
    } else {
      assert (ws + [p])[1..] == ws[1..] + [p];
      EdgesSnoc(ws[1..], p);
    }
  }

  /** For two or more vertices, the outline is the open chain of edges
      `line(v[i], v[i+1])` followed by the closing edge `line(v[n-1], v[0])`. */
  lemma OutlineComposition(vs: seq<Point>)
    requires |vs| >= 2
    ensures Outline(vs) == Edges(vs) + LinePoints(vs[|vs| - 1], vs[0])
  {
    EdgesSnoc(vs, vs[0]);
  }

  /** Two grid points at most one step apart on each axis (possibly equal). */
  predicate Touching(a: Point, b: Point)
  {
    Abs(b.x - a.x) <= 1 && Abs(b.y - a.y) <= 1
  }

  lemma {:induction false} EdgesShape(ws: seq<Point>)
    requires |ws| >= 2
    ensures var e := Edges(ws);
      |e| >= 1 && e[0] == ws[0] && e[|e| - 1] == ws[|ws| - 1] &&
      (forall k :: 0 <= k < |e| - 1 ==> Touching(e[k], e[k + 1])) &&
      (forall k :: 0 <= k < |ws| ==> ws[k] in e)
    decreases |ws|
  {
    var l := LinePoints(ws[0], ws[1]);
    LineEndpoints(ws[0], ws[1]);
    LineSteps(ws[0], ws[1]);
    var e := Edges(ws);
    assert e == l + Edges(ws[1..]);
    if |ws| == 2 {
      assert Edges(ws[1..]) == [];
      assert e == l;
      assert ws[1] == l[|l| - 1];
    } else {
      var rest := Edges(ws[1..]);
      EdgesShape(ws[1..]);
      assert e == l + rest;
      forall k | 0 <= k < |e| - 1
        ensures Touching(e[k], e[k + 1])
      {
        if k < |l| - 1 {
          assert StepsToward(ws[1], l[k], l[k + 1]);
        } else if k == |l| - 1 {
          assert e[k] == ws[1] && e[k + 1] == rest[0] == ws[1];
        } else {
          assert e[k] == rest[k - |l|] && e[k + 1] == rest[k - |l| + 1];
        }
      }
      forall k | 0 <= k < |ws|
        ensures ws[k] in e
      {
        if k == 0 {
          assert e[0] == ws[0];
        } else {
          assert ws[k] == ws[1..][k - 1];
          assert ws[k] in rest;
        }
      }
    }
  }

  /** The outline is closed and 8-connected: it starts and ends at the first
      vertex, passes through every vertex, and consecutive outline points are
      at most one step apart on each axis. */
  lemma OutlineShape(vs: seq<Point>)
    requires |vs| >= 1
    ensures var o := Outline(vs);
      |o| >= 1 && o[0] == vs[0] && o[|o| - 1] == vs[0] &&
      (|vs| == 1 ==> o == [vs[0]]) &&
      (forall k :: 0 <= k < |o| - 1 ==> Touching(o[k], o[k + 1])) &&
      (forall k :: 0 <= k < |vs| ==> vs[k] in o)
  {
    if |vs| >= 2 {
      var ws := vs + [vs[0]];
      EdgesShape(ws);
      forall k | 0 <= k < |vs|
        ensures vs[k] in Outline(vs)
      {
        assert vs[k] == ws[k];
      }
    }
  }

  /** Every point of the chain lies on the line of one of its edges. */
  lemma {:induction false} EdgesMembers(ws: seq<Point>, q: Point)
    requires q in Edges(ws)
    ensures exists i :: 0 <= i < |ws| - 1 && q in LinePoints(ws[i], ws[i + 1])
    decreases |ws|
  {
    if q !in LinePoints(ws[0], ws[1]) {
      EdgesMembers(ws[1..], q);
      var i :| 0 <= i < |ws| - 2 && q in LinePoints(ws[1..][i], ws[1..][i + 1]);
      assert ws[1..][i] == ws[i + 1] && ws[1..][i + 1] == ws[i + 2];
    }
  }

  /** The end of edge `i` of a closed polygon: the next vertex, or the first
      one for the closing edge. */
  function EdgeEnd(vs: seq<Point>, i: nat): Point
    requires i < |vs|
  {
    if i + 1 < |vs| then vs[i + 1] else vs[0]
  }

  /** Every outline point lies on the line of one of the polygon's edges,
      the closing edge from the last vertex back to the first included. */
  lemma OutlineOnEdges(vs: seq<Point>, q: Point)
    requires |vs| >= 2 && q in Outline(vs)
    ensures exists i: nat :: i < |vs| && q in LinePoints(vs[i], EdgeEnd(vs, i))
  {
    var ws := vs + [vs[0]];
    EdgesMembers(ws, q);
    var i :| 0 <= i < |ws| - 1 && q in LinePoints(ws[i], ws[i + 1]);
    assert ws[i] == vs[i] && ws[i + 1] == EdgeEnd(vs, i);
    assert q in LinePoints(vs[i], EdgeEnd(vs, i));
  }

  // ----------------------------------------------------------- bounding box

  /** Each point converted to `(x as u32, y as u32)`, as the source does with
      the corners and with the rasterized border before filling. */
  function Rounded(ps: seq<Point>): (r: seq<Point>)
    ensures |r| == |ps|
  {
    seq(|ps|, k requires 0 <= k < |ps| => Point(AsU32(ps[k].x), AsU32(ps[k].y)))
  }

  function Xs(ps: seq<Point>): (r: seq<int>)
    ensures |r| == |ps| && forall k :: 0 <= k < |ps| ==> r[k] == ps[k].x
  {
    seq(|ps|, k requires 0 <= k < |ps| => ps[k].x)
  }

  function Ys(ps: seq<Point>): (r: seq<int>)
    ensures |r| == |ps| && forall k :: 0 <= k < |ps| ==> r[k] == ps[k].y
  {
    seq(|ps|, k requires 0 <= k < |ps| => ps[k].y)
  }

  /** The smallest element (`min().unwrap()`; the source panics on an empty list). */
  function MinOf(s: seq<int>): (m: int)
    requires |s| >= 1
    ensures m in s && forall k :: 0 <= k < |s| ==> m <= s[k]
  {
    if |s| == 1 then s[0]
    else
      var rest := MinOf(s[1..]);
      if s[0] <= rest then s[0] else rest
  }

  /** The largest element (`max().unwrap()`). */
  function MaxOf(s: seq<int>): (m: int)
    requires |s| >= 1
    ensures m in s && forall k :: 0 <= k < |s| ==> s[k] <= m
  {
    if |s| == 1 then s[0]
    else
      var rest := MaxOf(s[1..]);
      if s[0] >= rest then s[0] else rest
  }

  datatype Box = Box(top: nat, bottom: nat, left: nat, right: nat)

  /** The bounding box of the rounded corners: the least box holding every
      rounded vertex, each side touching at least one of them. */
  function BoundingBox(vs: seq<Point>): (b: Box)
    requires |vs| >= 1
    ensures forall k :: 0 <= k < |vs| ==>
      b.left <= AsU32(vs[k].x) <= b.right && b.top <= AsU32(vs[k].y) <= b.bottom
    ensures exists k :: 0 <= k < |vs| && AsU32(vs[k].y) == b.top
    ensures exists k :: 0 <= k < |vs| && AsU32(vs[k].y) == b.bottom
    ensures exists k :: 0 <= k < |vs| && AsU32(vs[k].x) == b.left
    ensures exists k :: 0 <= k < |vs| && AsU32(vs[k].x) == b.right
  {
    var corners := Rounded(vs);
    var ys, xs := Ys(corners), Xs(corners);
    var top, bottom, left, right := MinOf(ys), MaxOf(ys), MinOf(xs), MaxOf(xs);
    assert forall k :: 0 <= k < |vs| ==> corners[k] == Point(AsU32(vs[k].x), AsU32(vs[k].y));
    assert top >= 0 && left >= 0;
    Box(top, bottom, left, right)
  }

  // ------------------------------------------------------------ scanline fill

  predicate IsBorder(border: seq<Point>, c: int, r: int)
  {
    Point(c, r) in border
  }

  /** Column `c` of row `r` starts a maximal run of border pixels as the scan
      sees it: the scan starts at `left + 1` with no border pixel before it. */
  predicate RunStart(border: seq<Point>, r: int, left: int, c: int)
  {
    IsBorder(border, c, r) && (c == left + 1 || !IsBorder(border, c - 1, r))
  }

  /** The number of border crossings on row `r` in the columns `left + 1 .. c`:
      each maximal horizontal run of border pixels counts once. */
  function Crossings(border: seq<Point>, r: int, left: int, c: int): nat
    decreases c - left
  {
    if c <= left then 0
    else Crossings(border, r, left, c - 1) + (if RunStart(border, r, left, c) then 1 else 0)
  }

  /** The fill points the inner loop pushes for row `r` from column `c` up to
      (not including) `right`, given the current `should_paint` (`inside`) and
      `previous_is_border` (`prev`) flags. */
  function RowScan(border: seq<Point>, r: int, c: int, right: int, inside: bool, prev: bool): seq<Point>
    decreases right - c
  {
    if c >= right then []
    else
      var isBorder := IsBorder(border, c, r);
      var inside' := if isBorder && !prev then !inside else inside;
      (if inside' then [Point(c, r)] else []) + RowScan(border, r, c + 1, right, inside', isBorder)
  }

  /** The fill points of the rows `r .. bottom - 1`, in scan order. */
  function FillRows(border: seq<Point>, r: int, bottom: int, left: int, right: int): seq<Point>
    decreases bottom - r
  {
    if r >= bottom then []
    else RowScan(border, r, left + 1, right, false, false) + FillRows(border, r + 1, bottom, left, right)
  }

  /** The fill points of the open box `(left, right) x (top, bottom)`. */
  function Fill(border: seq<Point>, b: Box): seq<Point>
  {
    FillRows(border, b.top + 1, b.bottom, b.left, b.right)
  }

  lemma {:induction false} RowScanMembers(border: seq<Point>, r: int, left: int, c: int, right: int, inside: bool, prev: bool)
    requires left < c
    requires inside == (Crossings(border, r, left, c - 1) % 2 == 1)
    requires prev == (c > left + 1 && IsBorder(border, c - 1, r))
    ensures forall q :: q in RowScan(border, r, c, right, inside, prev) <==>
      q.y == r && c <= q.x < right && Crossings(border, r, left, q.x) % 2 == 1
    decreases right - c
  {
    if c < right {
      var isBorder := IsBorder(border, c, r);
      var inside' := if isBorder && !prev then !inside else inside;
      assert inside' == (Crossings(border, r, left, c) % 2 == 1);
      RowScanMembers(border, r, left, c + 1, right, inside', isBorder);
    }
  }

  lemma {:induction false} FillRowsMembers(border: seq<Point>, r: int, bottom: int, left: int, right: int)
    ensures forall q :: q in FillRows(border, r, bottom, left, right) <==>
      r <= q.y < bottom && left < q.x < right && Crossings(border, q.y, left, q.x) % 2 == 1
    decreases bottom - r
  {
    if r < bottom {
      RowScanMembers(border, r, left, left + 1, right, false, false);
      FillRowsMembers(border, r + 1, bottom, left, right);
    }
  }

  /** The even-odd rule: a point is filled exactly when it lies strictly inside
      the bounding box and the scan of its row has crossed the border an odd
      number of times up to and including its column, where a horizontal run
      of border pixels is a single crossing. In particular every fill point
      satisfies `top < r < bottom` and `left < c < right`. */
  lemma FillParity(border: seq<Point>, b: Box)
    ensures forall q :: q in Fill(border, b) <==>
      b.top < q.y < b.bottom && b.left < q.x < b.right &&
      Crossings(border, q.y, b.left, q.x) % 2 == 1
  {
    FillRowsMembers(border, b.top + 1, b.bottom, b.left, b.right);
  }

  /** The inner loop of the scan in `paint_filled_polygon`: one row `r`, from
      column `left + 1` up to `right`, toggling `should_paint` at the first
      pixel of every run of border pixels and pushing a point while it is set. */
  method ScanRow(border: seq<Point>, r: int, left: int, right: int) returns (row: seq<Point>)
    ensures row == RowScan(border, r, left + 1, right, false, false)
  {
    var shouldPaint := false;
    var previousIsBorder := false;
    row := [];
    var c := left + 1;
    while c < right
      invariant row + RowScan(border, r, c, right, shouldPaint, previousIsBorder)
             == RowScan(border, r, left + 1, right, false, false)
      decreases right - c
    {
      ghost var rest := RowScan(border, r, c, right, shouldPaint, previousIsBorder);
      if Point(c, r) in border {
        if !previousIsBorder {
          shouldPaint := !shouldPaint;
        }
        previousIsBorder := true;
      } else {
        previousIsBorder := false;
      }
      ghost var pushed := if shouldPaint then [Point(c, r)] else [];
      assert rest == pushed + RowScan(border, r, c + 1, right, shouldPaint, previousIsBorder);
      ghost var rowBefore := row;
      if shouldPaint {
        row := row + [Point(c, r)];
      }
      assert row + RowScan(border, r, c + 1, right, shouldPaint, previousIsBorder)
          == rowBefore + rest;
      c := c + 1;
    }
  }

  /** The nested loops of `paint_filled_polygon` that collect the fill points:
      every row strictly between `top` and `bottom`, top to bottom. */
  method ScanlineFill(border: seq<Point>, b: Box) returns (fill: seq<Point>)
    ensures fill == Fill(border, b)
  {
    fill := [];
    var r := b.top + 1;
    while r < b.bottom
      invariant fill + FillRows(border, r, b.bottom, b.left, b.right) == Fill(border, b)
      decreases b.bottom - r
    {
      var row := ScanRow(border, r, b.left, b.right);
      assert FillRows(border, r, b.bottom, b.left, b.right)
          == row + FillRows(border, r + 1, b.bottom, b.left, b.right);
      fill := fill + row;
      r := r + 1;
    }
  }

  // ---------------------------------------------------------------- example

  lemma {:induction false} RowScanEmpty(border: seq<Point>, r: int, c: int, right: int, prev: bool)
    requires forall c' :: c <= c' < right ==> !IsBorder(border, c', r)
    ensures RowScan(border, r, c, right, false, prev) == []
    decreases right - c
  {
    if c < right {
      RowScanEmpty(border, r, c + 1, right, false);
    }
  }

  lemma {:induction false} FillRowsEmpty(border: seq<Point>, r: int, bottom: int, left: int, right: int)
    requires forall q :: q in border && r <= q.y < bottom ==> q.x <= left || right <= q.x
    ensures FillRows(border, r, bottom, left, right) == []
    decreases bottom - r
  {
    if r < bottom {
      forall c | left + 1 <= c < right
        ensures !IsBorder(border, c, r)
      {
      }
      RowScanEmpty(border, r, left + 1, right, false);
      FillRowsEmpty(border, r + 1, bottom, left, right);
    }
  }

  /** When no border pixel lies strictly between the columns `left` and
      `right` on any scanned row, the scan never crosses the border and the
      fill is empty. */
  lemma FillEmptyWhenInteriorClear(border: seq<Point>, b: Box)
    requires forall q :: q in border && b.top < q.y < b.bottom ==> q.x <= b.left || b.right <= q.x
    ensures Fill(border, b) == []
  {
    FillRowsEmpty(border, b.top + 1, b.bottom, b.left, b.right);
  }

  function Rectangle(left: nat, top: nat, right: nat, bottom: nat): seq<Point>
  {
    [Point(left, top), Point(left, bottom), Point(right, bottom), Point(right, top)]
  }

  lemma RectangleBox(left: nat, top: nat, right: nat, bottom: nat)
    requires left <= right <= U32_MAX && top <= bottom <= U32_MAX
    ensures BoundingBox(Rectangle(left, top, right, bottom)) == Box(top, bottom, left, right)
  {
    var vs := Rectangle(left, top, right, bottom);
    forall k | 0 <= k < |vs|
      ensures AsU32(vs[k].x) == vs[k].x && AsU32(vs[k].y) == vs[k].y
      ensures left <= vs[k].x <= right && top <= vs[k].y <= bottom
    {
      assert k == 0 || k == 1 || k == 2 || k == 3;
    }
    var b := BoundingBox(vs);
    assert b.left <= vs[0].x && b.top <= vs[0].y && vs[2].x <= b.right && vs[2].y <= b.bottom;
    var kt :| 0 <= kt < |vs| && AsU32(vs[kt].y) == b.top;
    var kb :| 0 <= kb < |vs| && AsU32(vs[kb].y) == b.bottom;
    var kl :| 0 <= kl < |vs| && AsU32(vs[kl].x) == b.left;
    var kr :| 0 <= kr < |vs| && AsU32(vs[kr].x) == b.right;
  }

  lemma RectangleOutlineOnSides(left: nat, top: nat, right: nat, bottom: nat, q: Point)
    requires q in Outline(Rectangle(left, top, right, bottom))
    ensures q.x == left || q.x == right || q.y == top || q.y == bottom
  {
    var vs := Rectangle(left, top, right, bottom);
    OutlineOnEdges(vs, q);
    var i: nat :| i < |vs| && q in LinePoints(vs[i], EdgeEnd(vs, i));
    LineWithinBox(vs[i], EdgeEnd(vs, i));
  }

  lemma RectangleBorderClear(left: nat, top: nat, right: nat, bottom: nat)
    requires left <= right <= U32_MAX && top <= bottom <= U32_MAX
    ensures forall q :: q in Rounded(Outline(Rectangle(left, top, right, bottom))) && top < q.y < bottom ==>
      q.x <= left || right <= q.x
  {
    var outline := Outline(Rectangle(left, top, right, bottom));
    var border := Rounded(outline);
    forall q | q in border && top < q.y < bottom
      ensures q.x <= left || right <= q.x
    {
      var j :| 0 <= j < |border| && border[j] == q;
      assert border[j] == Point(AsU32(outline[j].x), AsU32(outline[j].y));
      RectangleOutlineOnSides(left, top, right, bottom, outline[j]);
    }
  }

  /** An axis-aligned rectangle fills nothing: its vertical edges lie on the
      columns `left` and `right`, which the scan skips, so no row ever sees a
      crossing. With corners (1,1), (1,3), (3,3), (3,1) this means the pixel
      (2,2) keeps its colour and only the outline is painted. */
  lemma RectangleFillsNothing(left: nat, top: nat, right: nat, bottom: nat)
    requires left <= right <= U32_MAX && top <= bottom <= U32_MAX
    ensures var vs := Rectangle(left, top, right, bottom);
      BoundingBox(vs) == Box(top, bottom, left, right) && Fill(Rounded(Outline(vs)), BoundingBox(vs)) == []
  {
    RectangleBox(left, top, right, bottom);
    RectangleBorderClear(left, top, right, bottom);
    FillEmptyWhenInteriorClear(Rounded(Outline(Rectangle(left, top, right, bottom))), Box(top, bottom, left, right));
  }
}
