/** The pixel buffer as a value: bounds checks with their error precedence,
    the single-cell write of `paint_point`, the in-order commit of a canvas
    that stops at the first failure, and the read of `get_color`. The
    inclusive upper bounds of the source are kept exactly, together with the
    consequences they have for the row-major index `y * width + x`. */
module Pixels {
  import opened Basics

  datatype PaintPointError = XTooLarge | XTooSmall | YTooLarge | YTooSmall

  datatype GetColorError = XTooLarge | YTooLarge

  /** `create_filled_buffer`: a buffer of `width * height` cells, all `color`. */
  function FilledBuffer(width: nat, height: nat, color: u32): (r: seq<u32>)
    ensures |r| == width * height
    ensures forall k :: 0 <= k < |r| ==> r[k] == color
  {
    seq(width * height, _ => color)
  }

  /** The validation of `paint_point`: negative coordinates are reported
      first, x before y; then the inclusive upper bounds, x before y. */
  function CheckPoint(width: nat, height: nat, p: Point): (r: Option<PaintPointError>)
    ensures r == Some(PaintPointError.XTooSmall) <==> p.x < 0
    ensures r == Some(PaintPointError.YTooSmall) <==> 0 <= p.x && p.y < 0
    ensures r == Some(PaintPointError.XTooLarge) <==> 0 <= p.x && 0 <= p.y && p.x > width
    ensures r == Some(PaintPointError.YTooLarge) <==> 0 <= p.x <= width && 0 <= p.y && p.y > height
    ensures r == None <==> 0 <= p.x <= width && 0 <= p.y <= height
  {
    if p.x < 0 then Some(PaintPointError.XTooSmall)
    else if p.y < 0 then Some(PaintPointError.YTooSmall)
    else if !(p.x <= width) then Some(PaintPointError.XTooLarge)
    else if !(p.y <= height) then Some(PaintPointError.YTooLarge)
    else None
  }

  /** The row-major index the source writes to and reads from. */
  function CellIndex(width: nat, p: Point): int
  {
    p.y * width + p.x
  }

  /** `paint_point` on a buffer value: after a successful check the cell at
      `y * width + x` is overwritten, or the program panics when that index is
      past the end of the buffer. */
  function PaintPointEffect(buf: seq<u32>, width: nat, height: nat, color: u32, p: Point)
    : (r: (seq<u32>, Outcome<(), PaintPointError>))
    ensures |r.0| == |buf|
    ensures r.1 == Ok(()) <==> CheckPoint(width, height, p) == None && CellIndex(width, p) < |buf|
    ensures r.1 == Panic <==> CheckPoint(width, height, p) == None && CellIndex(width, p) >= |buf|
    ensures r.1.Err? <==> CheckPoint(width, height, p).Some?
    ensures r.1.Err? ==> r.1.error == CheckPoint(width, height, p).value
    ensures r.1 == Ok(()) ==> 0 <= CellIndex(width, p) && r.0[CellIndex(width, p)] == color
    ensures r.1 == Ok(()) ==> forall k :: 0 <= k < |buf| && k != CellIndex(width, p) ==> r.0[k] == buf[k]
    ensures r.1 != Ok(()) ==> r.0 == buf
  {
    match CheckPoint(width, height, p)
    case Some(e) => (buf, Err(e))
    case None =>
      var i := CellIndex(width, p);
      assert i >= 0;
      if i < |buf| then (buf[i := color], Ok(())) else (buf, Panic)
  }

  /** `Canvas::paint` on a buffer value: the points are painted in order and
      the first failure ends the commit, keeping the writes before it. */
  function PaintAll(buf: seq<u32>, width: nat, height: nat, color: u32, pts: seq<Point>)
    : (r: (seq<u32>, Outcome<(), PaintPointError>))
    ensures |r.0| == |buf|
    decreases |pts|
  {
    if pts == [] then (buf, Ok(()))
    else
      var first := PaintPointEffect(buf, width, height, color, pts[0]);
      if first.1 != Ok(()) then first
      else PaintAll(first.0, width, height, color, pts[1..])
  }

  /** Committing `a + b` is committing `a`, then `b` only if `a` succeeded. */
  lemma {:induction false} PaintAllAppend(buf: seq<u32>, width: nat, height: nat, color: u32, a: seq<Point>, b: seq<Point>)
    ensures PaintAll(buf, width, height, color, a + b) ==
      var ra := PaintAll(buf, width, height, color, a);
      if ra.1 != Ok(()) then ra else PaintAll(ra.0, width, height, color, b)
    decreases |a|
  {
    if a != [] {
      assert (a + b)[0] == a[0] && (a + b)[1..] == a[1..] + b;
      var first := PaintPointEffect(buf, width, height, color, a[0]);
      if first.1 == Ok(()) {
        PaintAllAppend(first.0, width, height, color, a[1..], b);
      }
    } else {
      assert a + b == b;
    }
  }

  /** A successful commit passed every point's checks, wrote `color` to every
      point's cell, and left every other cell as it was. */
  lemma {:induction false} PaintAllSucceeded(buf: seq<u32>, width: nat, height: nat, color: u32, pts: seq<Point>)
    requires PaintAll(buf, width, height, color, pts).1 == Ok(())
    ensures var out := PaintAll(buf, width, height, color, pts).0;
      (forall q :: q in pts ==>
        CheckPoint(width, height, q) == None && 0 <= CellIndex(width, q) < |buf| &&
        out[CellIndex(width, q)] == color) &&
      (forall k :: 0 <= k < |buf| && !Written(width, pts, k) ==> out[k] == buf[k])
    decreases |pts|
  {
    if pts != [] {
      var first := PaintPointEffect(buf, width, height, color, pts[0]);
      PaintAllSucceeded(first.0, width, height, color, pts[1..]);
      var out := PaintAll(buf, width, height, color, pts).0;
      assert out == PaintAll(first.0, width, height, color, pts[1..]).0;
      forall q | q in pts
        ensures CheckPoint(width, height, q) == None && 0 <= CellIndex(width, q) < |buf|
        ensures out[CellIndex(width, q)] == color
      {
        if q != pts[0] {
          assert q in pts[1..];
        } else if !Written(width, pts[1..], CellIndex(width, q)) {
          assert out[CellIndex(width, q)] == first.0[CellIndex(width, q)];
        } else {
          var q' :| q' in pts[1..] && CellIndex(width, q') == CellIndex(width, q);
        }
      }
      forall k | 0 <= k < |buf| && !Written(width, pts, k)
        ensures out[k] == buf[k]
      {
        assert !Written(width, pts[1..], k) by {
          forall q | q in pts[1..] ensures CellIndex(width, q) != k {
            assert q in pts;
          }
        }
        assert CellIndex(width, pts[0]) != k;
      }
    }
  }

  /** Some point of `pts` has its cell at index `k`. */
  predicate Written(width: nat, pts: seq<Point>, k: int)
  {
    exists q :: q in pts && CellIndex(width, q) == k
  }

  /** A failed commit stops at the first point that fails: every point before
      it was painted and kept (there is no rollback), and the failing point
      leaves the buffer as it was and gives the commit's outcome. */
  lemma {:induction false} PaintAllFailed(buf: seq<u32>, width: nat, height: nat, color: u32, pts: seq<Point>)
    requires PaintAll(buf, width, height, color, pts).1 != Ok(())
    ensures var r := PaintAll(buf, width, height, color, pts);
      exists k :: 0 <= k < |pts| &&
        PaintAll(buf, width, height, color, pts[..k]) == (r.0, Ok(())) &&
        PaintPointEffect(r.0, width, height, color, pts[k]) == r
    decreases |pts|
  {
    var r := PaintAll(buf, width, height, color, pts);
    var first := PaintPointEffect(buf, width, height, color, pts[0]);
    if first.1 != Ok(()) {
      assert pts[..0] == [];
      assert PaintAll(buf, width, height, color, pts[..0]) == (r.0, Ok(()));
    } else {
      PaintAllFailed(first.0, width, height, color, pts[1..]);
      var k :| 0 <= k < |pts[1..]| &&
        PaintAll(first.0, width, height, color, pts[1..][..k]) == (r.0, Ok(())) &&
        PaintPointEffect(r.0, width, height, color, pts[1..][k]) == r;
      assert pts[..k + 1] == [pts[0]] + pts[1..][..k];
      PaintAllAppend(buf, width, height, color, [pts[0]], pts[1..][..k]);
      assert PaintAll(buf, width, height, color, [pts[0]]) == (first.0, Ok(()));
      assert pts[k + 1] == pts[1..][k];
    }
  }

  /** `get_color`: the y bound is checked before the x bound (the reverse of
      `paint_point`); both are inclusive; an index past the end panics. */
  function ReadCell(buf: seq<u32>, width: nat, height: nat, x: nat, y: nat): (r: Outcome<u32, GetColorError>)
    ensures y > height ==> r == Err(GetColorError.YTooLarge)
    ensures y <= height && x > width ==> r == Err(GetColorError.XTooLarge)
    ensures r.Ok? <==> x <= width && y <= height && y * width + x < |buf|
    ensures r.Ok? ==> r.value == buf[y * width + x]
    ensures r == Panic <==> x <= width && y <= height && y * width + x >= |buf|
  {
    if !(y <= height) then Err(GetColorError.YTooLarge)
    else if !(x <= width) then Err(GetColorError.XTooLarge)
    else if y * width + x < |buf| then Ok(buf[y * width + x])
    else Panic
  }

  /** A point painted successfully reads back as the colour it was painted with. */
  lemma PaintThenRead(buf: seq<u32>, width: nat, height: nat, color: u32, x: nat, y: nat)
    requires PaintPointEffect(buf, width, height, color, Point(x, y)).1 == Ok(())
    ensures ReadCell(PaintPointEffect(buf, width, height, color, Point(x, y)).0, width, height, x, y) == Ok(color)
  {
  }

  /** The inclusive x bound: painting column `width` of row `y` is accepted and
      writes the cell of column 0 of row `y + 1`. */
  lemma WidthColumnWrapsToNextRow(buf: seq<u32>, width: nat, height: nat, color: u32, y: nat)
    requires y < height
    ensures PaintPointEffect(buf, width, height, color, Point(width, y))
         == PaintPointEffect(buf, width, height, color, Point(0, y + 1))
  {
    assert CellIndex(width, Point(width, y)) == CellIndex(width, Point(0, y + 1)) by {
      assert (y + 1) * width == y * width + width;
    }
  }

  /** The inclusive y bound: on a buffer of `width * height` cells every point
      of row `height` passes the checks, and the write or read of its cell
      indexes past the end of the buffer. */
  lemma HeightRowPanics(buf: seq<u32>, width: nat, height: nat, color: u32, x: nat)
    requires |buf| == width * height && x <= width
    ensures PaintPointEffect(buf, width, height, color, Point(x, height)).1 == Panic
    ensures ReadCell(buf, width, height, x, height) == Panic
  {
    assert height * width == width * height;
  }

  /** Before the first `clear` the buffer has no cells, so every point that
      passes the checks panics instead of being painted. */
  lemma BeforeClearEveryWritePanics(width: nat, height: nat, color: u32, p: Point)
    requires 0 <= p.x <= width && 0 <= p.y <= height
    ensures PaintPointEffect([], width, height, color, p) == ([], Panic)
  {
  }
}
