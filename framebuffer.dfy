/** The `Framebuffer` drawing surface: a pixel buffer updated in place, the
    background and current colours, and the precomputed `empty_buffer` that
    `clear` copies. A canvas (the points an algorithm computed, still
    unpainted) is a `seq<Point>` committed by `Paint`. */
module Rasterizer {
  import opened Basics
  import opened Lines
  import opened Polygons
  import opened Pixels

  const BLACK: u32 := 0x000000
  const WHITE: u32 := 0xFFFFFF

  /** What `paint_filled_polygon` does to a buffer: rasterize the outline,
      fill the inside of the bounding box of the rounded corners by the
      even-odd scan of the rounded outline, commit the fill with `fill`, and
      only if that succeeded set the current colour to `border` and commit the
      outline on top. The third component is the current colour afterwards. */
  function FilledPolygonEffect(buf: seq<u32>, width: nat, height: nat, current: u32,
                               vs: seq<Point>, fill: u32, border: u32)
    : (seq<u32>, Outcome<(), PaintPointError>, u32)
  {
    if |vs| == 0 then (buf, Panic, current)
    else
      var outline := Outline(vs);
      var fillPoints := Fill(Rounded(outline), BoundingBox(vs));
      var afterFill := PaintAll(buf, width, height, fill, fillPoints);
      if afterFill.1 != Ok(()) then (afterFill.0, afterFill.1, fill)
      else
        var afterBorder := PaintAll(afterFill.0, width, height, border, outline);
        (afterBorder.0, afterBorder.1, border)
  }

  /** After a successful `paint_filled_polygon` the current colour is the
      border colour, every outline point's cell holds the border colour, every
      fill point whose cell no outline point overwrites holds the fill colour,
      every fill point lies strictly inside the bounding box of the rounded corners,
      and a cell written by neither pass is unchanged. */
  lemma FilledPolygonSucceeded(buf: seq<u32>, width: nat, height: nat, current: u32,
                               vs: seq<Point>, fill: u32, border: u32)
    requires FilledPolygonEffect(buf, width, height, current, vs, fill, border).1 == Ok(())
    ensures |vs| >= 1
    ensures var r := FilledPolygonEffect(buf, width, height, current, vs, fill, border);
      var fillPoints := Fill(Rounded(Outline(vs)), BoundingBox(vs));
      var b := BoundingBox(vs);
      r.2 == border &&
      (forall q :: q in Outline(vs) ==> 0 <= CellIndex(width, q) < |buf| && r.0[CellIndex(width, q)] == border) &&
      (forall q :: q in fillPoints && !Written(width, Outline(vs), CellIndex(width, q)) ==>
        0 <= CellIndex(width, q) < |buf| && r.0[CellIndex(width, q)] == fill) &&
      (forall q :: q in fillPoints ==> b.top < q.y < b.bottom && b.left < q.x < b.right) &&
      (forall k :: 0 <= k < |buf| && !Written(width, fillPoints, k) && !Written(width, Outline(vs), k) ==>
        r.0[k] == buf[k])
  {
    var outline := Outline(vs);
    var fillPoints := Fill(Rounded(outline), BoundingBox(vs));
    var afterFill := PaintAll(buf, width, height, fill, fillPoints);
    PaintAllSucceeded(buf, width, height, fill, fillPoints);
    PaintAllSucceeded(afterFill.0, width, height, border, outline);
    FillParity(Rounded(outline), BoundingBox(vs));
  }

  /** A failed `paint_filled_polygon` keeps what it painted before the first
      failing point: either the fill pass stopped after a prefix of the fill
      points (the border pass never ran and the current colour is the fill
      colour), or the fill pass completed and the border pass stopped after a
      prefix of the outline. The point after the prefix is the failing one: it
      gives the outcome and leaves the buffer as the prefix left it. An empty
      vertex list panics before painting. */
  lemma FilledPolygonFailed(buf: seq<u32>, width: nat, height: nat, current: u32,
                            vs: seq<Point>, fill: u32, border: u32)
    requires FilledPolygonEffect(buf, width, height, current, vs, fill, border).1 != Ok(())
    ensures var r := FilledPolygonEffect(buf, width, height, current, vs, fill, border);
      |vs| == 0 ==> r == (buf, Panic, current)
    ensures var r := FilledPolygonEffect(buf, width, height, current, vs, fill, border);
      |vs| >= 1 ==>
        var fillPoints := Fill(Rounded(Outline(vs)), BoundingBox(vs));
        var afterFill := PaintAll(buf, width, height, fill, fillPoints);
        (afterFill.1 != Ok(()) && r.2 == fill &&
          exists k :: 0 <= k < |fillPoints| &&
            PaintAll(buf, width, height, fill, fillPoints[..k]) == (r.0, Ok(())) &&
            PaintPointEffect(r.0, width, height, fill, fillPoints[k]) == (r.0, r.1)) ||
        (afterFill.1 == Ok(()) && r.2 == border &&
          exists k :: 0 <= k < |Outline(vs)| &&
            PaintAll(afterFill.0, width, height, border, Outline(vs)[..k]) == (r.0, Ok(())) &&
            PaintPointEffect(r.0, width, height, border, Outline(vs)[k]) == (r.0, r.1))
  {
    if |vs| >= 1 {
      var fillPoints := Fill(Rounded(Outline(vs)), BoundingBox(vs));
      var afterFill := PaintAll(buf, width, height, fill, fillPoints);
      if afterFill.1 != Ok(()) {
        PaintAllFailed(buf, width, height, fill, fillPoints);
      } else {
        PaintAllFailed(afterFill.0, width, height, border, Outline(vs));
      }
    }
  }

  class Framebuffer {
    const width: nat
    const height: nat
    var buffer: array<u32>
    var backgroundColor: u32
    var currentColor: u32
    var emptyBuffer: seq<u32>

    /** `empty_buffer` always reflects the current background colour; the
        buffer is empty until the first `clear` and has `width * height`
        cells after it. */
    ghost predicate Valid()
      reads this
    {
      emptyBuffer == FilledBuffer(width, height, backgroundColor) &&
      (buffer.Length == 0 || buffer.Length == width * height)
    }

    /** `Framebuffer::new`: black background, white current colour, an empty
        buffer and an `empty_buffer` filled with black. */
    constructor (width: nat, height: nat)
      ensures Valid()
      ensures this.width == width && this.height == height
      ensures buffer.Length == 0
      ensures backgroundColor == BLACK && currentColor == WHITE
      ensures emptyBuffer == FilledBuffer(width, height, BLACK)
    {
      this.width := width;
      this.height := height;
      buffer := new u32[0];
      backgroundColor := BLACK;
      currentColor := WHITE;
      emptyBuffer := FilledBuffer(width, height, BLACK);
    }

    /** `clear`: the buffer becomes a copy of `empty_buffer`, which is not modified. */
    method Clear()
      requires Valid()
      modifies this
      ensures Valid() && fresh(buffer)
      ensures buffer[..] == emptyBuffer
      ensures forall k :: 0 <= k < buffer.Length ==> buffer[k] == backgroundColor
      ensures emptyBuffer == old(emptyBuffer)
      ensures backgroundColor == old(backgroundColor) && currentColor == old(currentColor)
    {
      var empty := emptyBuffer;
      buffer := new u32[|empty|](k requires 0 <= k < |empty| => empty[k]);
      assert buffer[..] == empty;
    }

    /** `paint_point`: checks the point, then writes `current_color` to the
        one cell `y * width + x`; nothing else of the framebuffer changes. */
    method PaintPoint(p: Point) returns (r: Outcome<(), PaintPointError>)
      requires Valid()
      modifies buffer
      ensures Valid()
      ensures (buffer[..], r) == PaintPointEffect(old(buffer[..]), width, height, currentColor, p)
    {
      if p.x < 0 {
        return Err(PaintPointError.XTooSmall);
      }
      if p.y < 0 {
        return Err(PaintPointError.YTooSmall);
      }
      if !(p.x <= width) {
        return Err(PaintPointError.XTooLarge);
      } else if !(p.y <= height) {
        return Err(PaintPointError.YTooLarge);
      }
      var i := p.y * width + p.x;
      if i < buffer.Length {
        buffer[i] := currentColor;
        r := Ok(());
      } else {
        r := Panic;
      }
    }

    /** `Canvas::paint`: `paint_point` on every point in order, stopping at
        the first failure without undoing the writes before it. */
    method Paint(points: seq<Point>) returns (r: Outcome<(), PaintPointError>)
      requires Valid()
      modifies buffer
      ensures Valid()
      ensures (buffer[..], r) == PaintAll(old(buffer[..]), width, height, currentColor, points)
    {
      var k := 0;
      while k < |points|
        invariant 0 <= k <= |points|
        invariant Valid()
        invariant PaintAll(old(buffer[..]), width, height, currentColor, points)
               == PaintAll(buffer[..], width, height, currentColor, points[k..])
      {
        assert points[k..][0] == points[k] && points[k..][1..] == points[k + 1..];
        r := PaintPoint(points[k]);
        if r != Ok(()) {
          return;
        }
        k := k + 1;
      }
      r := Ok(());
    }

    /** `line`: the Bresenham-style walk from `p1` to `p2`, returned unpainted. */
    method Line(p1: Point, p2: Point) returns (points: seq<Point>)
      ensures points == LinePoints(p1, p2)
    {
      var deltaX: int, deltaY: int := Abs(p2.x - p1.x), Abs(p2.y - p1.y);
      var dirX := if p1.x < p2.x then 1 else -1;
      var dirY := if p1.y < p2.y then 1 else -1;
      var err := deltaX - deltaY;
      var currentX, currentY := p1.x, p1.y;
      points := [];
      InitialState(p1, p2);
      while true
        invariant WalkInv(p1, p2, Point(currentX, currentY), err)
        invariant points + Walk(p1, p2, Point(currentX, currentY), err) == LinePoints(p1, p2)
        decreases Dist(p2, Point(currentX, currentY))
      {
        ghost var cur, errBefore := Point(currentX, currentY), err;
        points := points + [Point(currentX, currentY)];
        if currentX == p2.x && currentY == p2.y {
          break;
        }
        StepLemma(p1, p2, cur, err);
        var e2 := 2 * err;
        if e2 > -deltaY {
          err := err - deltaY;
          currentX := currentX + dirX;
        }
        if e2 < deltaX {
          err := err + deltaX;
          currentY := currentY + dirY;
        }
        assert (Point(currentX, currentY), err) == Step(p1, p2, cur, errBefore);
      }
    }

    /** `polygon`: the outline of the vertices, returned unpainted. The source
        indexes the first vertex, so an empty list panics there. */
    method Polygon(vs: seq<Point>) returns (r: Outcome<seq<Point>, ()>)
      ensures |vs| == 0 ==> r == Panic
      ensures |vs| >= 1 ==> r == Ok(Outline(vs))
    {
      if |vs| == 0 {
        return Panic;
      }
      r := Ok(Outline(vs));
    }

    /** `paint_filled_polygon`: the fill pass with `fill`, then, if it
        succeeded, the border pass with `border`; the first failure is returned
        and the cells painted before it stay painted. */
    method PaintFilledPolygon(vs: seq<Point>, fill: u32, border: u32) returns (r: Outcome<(), PaintPointError>)
      requires Valid()
      modifies this, buffer
      ensures Valid() && buffer == old(buffer)
      ensures backgroundColor == old(backgroundColor) && emptyBuffer == old(emptyBuffer)
      ensures (buffer[..], r, currentColor)
           == FilledPolygonEffect(old(buffer[..]), width, height, old(currentColor), vs, fill, border)
    {
      if |vs| == 0 {
        // `min().unwrap()` on the empty list of corners
        return Panic;
      }
      var box := BoundingBox(vs);
      var outline := Outline(vs);
      var fillPoints := ScanlineFill(Rounded(outline), box);
      SetCurrentColor(fill);
      r := Paint(fillPoints);
      if r != Ok(()) {
        return;
      }
      SetCurrentColor(border);
      r := Paint(outline);
    }

    /** `get_color`: the colour at `(x, y)`, with the same inclusive bounds as
        `paint_point` but the y bound checked first. */
    method GetColor(x: nat, y: nat) returns (r: Outcome<u32, GetColorError>)
      ensures r == ReadCell(buffer[..], width, height, x, y)
    {
      if !(y <= height) {
        return Err(GetColorError.YTooLarge);
      } else if !(x <= width) {
        return Err(GetColorError.XTooLarge);
      }
      var i := y * width + x;
      if i < buffer.Length {
        r := Ok(buffer[i]);
      } else {
        r := Panic;
      }
    }

    /** `set_background_color`: records the colour and recomputes every cell
        of `empty_buffer`; the buffer itself is not touched. */
    method SetBackgroundColor(color: u32)
      requires Valid()
      modifies this
      ensures Valid()
      ensures backgroundColor == color && emptyBuffer == FilledBuffer(width, height, color)
      ensures buffer == old(buffer) && currentColor == old(currentColor)
    {
      backgroundColor := color;
      emptyBuffer := FilledBuffer(width, height, backgroundColor);
    }

    /** `set_current_color`. */
    method SetCurrentColor(color: u32)
      requires Valid()
      modifies this`currentColor
      ensures Valid()
      ensures currentColor == color
    {
      currentColor := color;
    }
  }
}
