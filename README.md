# A verified model of the FillingPolygon rasterizer

This project models the rasterizer in `src/framebuffer.rs` of FillingPolygon, a
small 2D software renderer. It has three parts:

- a `Framebuffer` that owns a row-major pixel buffer and updates it in place;
- a Bresenham-style line walk;
- a polygon outline builder followed by an even-odd scanline fill.

The model is written in Dafny and every proof is checked by the verifier.

Modules, one per component:

- `Basics` (`basics.dfy`) holds the shared values:
  - packed `u32` colours;
  - integer grid points;
  - `Outcome<T, E> = Ok | Err | Panic`.

  `Panic` stands for a point where the Rust program would abort: a buffer index
  past the end (`paint_point`, `get_color`), `points[0]` of an empty vertex list
  (`polygon`), or `min().unwrap()` over no corners (`paint_filled_polygon`).
- `Lines` (`lines.dfy`) holds the loop of `line` as a specification function
  over its state (`Walk`, `LinePoints`). It proves the facts the walk
  guarantees: endpoints, single point, step shape, bounding box, length bounds
  and termination. The proof rests on the invariant that ties the error term to
  the steps taken along each axis.
- `Polygons` (`polygons.dfy`) holds:
  - the outline, shared by `polygon` and `paint_filled_polygon` (`Outline`);
  - the bounding box of the rounded corners;
  - the scanline fill as specification functions (`RowScan`, `FillRows`, `Fill`);
  - the fill's nested loops as methods (`ScanRow`, `ScanlineFill`);
  - the even-odd characterisation of the fill (`FillParity`).
- `Pixels` (`pixels.dfy`) treats the buffer as a value. It covers:
  - the bounds checks and their error precedence;
  - the single-cell write of `paint_point`;
  - the in-order commit of a canvas that stops at the first failure (`PaintAll`);
  - the read of `get_color`;
  - the consequences of the inclusive upper bounds.
- `Rasterizer` (`framebuffer.dfy`) holds the `Framebuffer` class. Its fields
  are `width` and `height` (constants), `buffer` (an `array<u32>`),
  `backgroundColor`, `currentColor` and `emptyBuffer`. Every method's
  postcondition ties the new state to the specification functions above. A
  canvas is the `seq<Point>` an algorithm returns, and it is committed by
  `Framebuffer.Paint`.

Coordinates are integers. All callers of the source pass integer-valued
points, so `round()` is the identity and the epsilon comparison in `line` is
exact equality. The `as u32` casts of `paint_filled_polygon` are kept as
saturating conversions (`AsU32`). Colours are the packed `u32` words the buffer
stores. The z component is ignored.

Edge cases of the code that the model keeps:

- `clear` replaces the buffer with a copy of `empty_buffer` whatever the
  buffer's current length. `clone_from` cannot fail, so neither can `clear`.
- A new framebuffer has an empty buffer until its first `clear`. Until then,
  every point that passes the bounds checks panics (`BeforeClearEveryWritePanics`).
- The upper bounds are inclusive, so two edge cases follow:
  - painting column `width` of row `y` writes column 0 of row `y + 1`
    (`WidthColumnWrapsToNextRow`);
  - every point of row `height` panics, for `paint_point` and `get_color`
    alike (`HeightRowPanics`).
- The fill scans only the open intervals between the extreme rounded corners,
  so the columns `left` and `right` are never looked at. Because of this, an
  axis-aligned rectangle fills nothing. The square with corners
  (1,1), (1,3), (3,3), (3,1) leaves (2,2) unpainted; only its outline is drawn
  (`RectangleFillsNothing`).

## Model

| member | source | states |
|---|---|---|
| Pixels.FilledBuffer | src/framebuffer.rs:19-23 | the buffer has `width * height` cells and every one holds the given colour |
| Pixels.CheckPoint | src/framebuffer.rs:96-109 | `XTooSmall` exactly when x < 0, whatever y is; `YTooSmall` exactly when x >= 0 and y < 0; then `XTooLarge` before `YTooLarge`, so both too large gives `XTooLarge`; the upper bounds `x <= width` and `y <= height` are inclusive |
| Pixels.PaintPointEffect | src/framebuffer.rs:85-115 | a successful paint passed the checks and had an index `y*width+x` inside the buffer; it writes the colour to that one cell and leaves every other cell unchanged; an error or panic leaves the buffer as it was and carries the check's error; the index past the end panics |
| Pixels.PaintAll | src/framebuffer.rs:50-54 | committing a canvas keeps the buffer length |
| Pixels.PaintAllAppend | src/framebuffer.rs:50-54 | committing `a + b` commits `a`, then commits `b` only if `a` succeeded (in order, first failure wins) |
| Pixels.PaintAllSucceeded | src/framebuffer.rs:50-54 | after a successful commit every point passed its checks and its cell holds the colour; every cell no point maps to is unchanged |
| Pixels.PaintAllFailed | src/framebuffer.rs:50-54 | a failed commit equals the successful commit of a prefix followed by the failing point, which gives the outcome and changes nothing (no rollback) |
| Pixels.ReadCell | src/framebuffer.rs:266-279 | `YTooLarge` is checked before `XTooLarge` (both too large gives `YTooLarge`); bounds are inclusive; success returns the cell `y*width+x`; an index past the end panics |
| Pixels.PaintThenRead | src/framebuffer.rs:110-113 | after a successful `paint_point` at (x, y), `get_color(x, y)` returns the colour painted |
| Pixels.WidthColumnWrapsToNextRow | src/framebuffer.rs:107-111 | painting (width, y) for y < height is the same operation as painting (0, y + 1) |
| Pixels.HeightRowPanics | src/framebuffer.rs:107-111 | on a `width*height` buffer, painting or reading any point of row `height` with x <= width panics |
| Pixels.BeforeClearEveryWritePanics | src/framebuffer.rs:65 | on the empty buffer a new framebuffer starts with, every in-bounds paint panics |
| Lines.ErrorTermStep | src/framebuffer.rs:150-160 | with the error term equal to `dx - dy + j*dx - i*dy`, a step moves along at least one axis, never along an axis already complete, and keeps that equation for the new step counts |
| Lines.StepLemma | src/framebuffer.rs:140-161 | one loop iteration keeps the invariant, moves each coordinate by at most one, never away from the target, and strictly shortens the remaining distance (termination) |
| Lines.WalkEnds | src/framebuffer.rs:140-148 | the walk from a loop state starts at the current point and ends at the target |
| Lines.WalkSteps | src/framebuffer.rs:140-161 | consecutive points of the walk from any loop state are distinct, adjacent and no farther from the target |
| Lines.WalkWithin | src/framebuffer.rs:140-161 | every point of the walk lies in the box spanned by the endpoints |
| Lines.WalkLength | src/framebuffer.rs:140-161 | the walk has between max(remaining dx, dy) + 1 and remaining dx + dy + 1 points |
| Lines.LineEndpoints | src/framebuffer.rs:120-167 | `line(p1, p2)` emits p1 first and p2 last |
| Lines.LineSinglePoint | src/framebuffer.rs:140-148 | `line(p1, p2)` emits exactly one point if and only if p1 == p2 |
| Lines.LineSteps | src/framebuffer.rs:140-161 | between consecutive points each coordinate moves by at most 1, towards p2 or not at all, and the point always changes (8-connected, no backtracking) |
| Lines.LineWithinBox | src/framebuffer.rs:120-167 | every emitted point lies between p1 and p2 on both axes |
| Lines.LineLength | src/framebuffer.rs:140-161 | the loop terminates after between max(dx, dy) + 1 and dx + dy + 1 points |
| Rasterizer.Framebuffer.Line | src/framebuffer.rs:120-167 | the loop computes exactly `LinePoints(p1, p2)`, with the running error term |
| Polygons.EdgesSnoc | src/framebuffer.rs:177-180 | rasterizing the windows of `ws + [p]` is rasterizing those of `ws` followed by `line(last(ws), p)` |
| Polygons.OutlineComposition | src/framebuffer.rs:170-182 | for n >= 2 vertices the outline is the chain `line(v[i], v[i+1])` for i < n-1, followed by the closing edge `line(v[n-1], v[0])` |
| Polygons.EdgesShape | src/framebuffer.rs:177-180 | the chain of edges starts at the first point, ends at the last, is 8-connected and passes through every point |
| Polygons.OutlineShape | src/framebuffer.rs:170-182 | a one-vertex outline is that vertex; any outline starts and ends at the first vertex, passes through every vertex, and consecutive points are at most one step apart |
| Polygons.EdgesMembers | src/framebuffer.rs:177-180 | every point of the chain lies on the line of one of its edges |
| Polygons.OutlineOnEdges | src/framebuffer.rs:170-182 | every outline point lies on the line of one polygon edge, the closing edge included |
| Rasterizer.Framebuffer.Polygon | src/framebuffer.rs:170-188 | an empty vertex list panics (`points[0]`); otherwise the result is the shared outline |
| Polygons.Rounded | src/framebuffer.rs:221-224 | the rounded border has one point per outline point |
| Polygons.MinOf | src/framebuffer.rs:202 | the result is an element and no element is smaller |
| Polygons.MaxOf | src/framebuffer.rs:203 | the result is an element and no element is larger |
| Polygons.BoundingBox | src/framebuffer.rs:199-206 | every rounded corner lies in the box and each side is attained by some rounded corner |
| Polygons.RowScanMembers | src/framebuffer.rs:231-245 | a point is pushed by the inner loop from column c on exactly when the crossing count up to its column is odd |
| Polygons.FillRowsMembers | src/framebuffer.rs:227-246 | a point is pushed for rows r to bottom-1 exactly when it lies in those rows, strictly between left and right, with an odd crossing count |
| Polygons.FillParity | src/framebuffer.rs:226-246 | (c, r) is a fill point if and only if top < r < bottom, left < c < right and the row has an odd number of border crossings up to c; a crossing is the first pixel of each maximal horizontal run of border pixels |
| Polygons.ScanRow | src/framebuffer.rs:228-245 | the inner loop with `should_paint` and `previous_is_border` computes exactly the row's fill points |
| Polygons.ScanlineFill | src/framebuffer.rs:226-246 | the nested loops compute exactly the fill points |
| Polygons.RowScanEmpty | src/framebuffer.rs:231-245 | a row with no border pixel in the scanned columns gets no fill point |
| Polygons.FillRowsEmpty | src/framebuffer.rs:227-246 | rows whose border pixels all lie outside the open column range get no fill points |
| Polygons.FillEmptyWhenInteriorClear | src/framebuffer.rs:226-246 | if no border pixel lies strictly inside the columns of a scanned row, the fill is empty |
| Polygons.RectangleBox | src/framebuffer.rs:199-206 | the bounding box of an axis-aligned rectangle is its own corners |
| Polygons.RectangleOutlineOnSides | src/framebuffer.rs:208-219 | every outline point of an axis-aligned rectangle lies on one of its four sides |
| Polygons.RectangleBorderClear | src/framebuffer.rs:221-224 | no rounded border point of an axis-aligned rectangle lies strictly between its left and right columns on an interior row |
| Polygons.RectangleFillsNothing | src/framebuffer.rs:199-246 | an axis-aligned rectangle gets no fill point, because its vertical edges lie on the skipped columns `left` and `right` |
| Rasterizer.FilledPolygonSucceeded | src/framebuffer.rs:193-263 | on success the current colour is the border colour, every outline point's cell holds the border colour, every fill point whose cell no outline point overwrites holds the fill colour, every fill point lies strictly inside the bounding box, and cells written by neither pass are unchanged |
| Rasterizer.FilledPolygonFailed | src/framebuffer.rs:248-262 | on failure the buffer is the fill pass stopped after a prefix (current colour = fill colour), or the complete fill pass followed by the border pass stopped after a prefix (current colour = border colour); in both cases the next point is the failing one, which gives the outcome and leaves the buffer as the prefix left it; an empty vertex list panics with nothing painted |
| Rasterizer.Framebuffer.constructor | src/framebuffer.rs:58-70 | a new framebuffer has the given size, an empty buffer, black background, white current colour, and an `empty_buffer` of `width*height` black cells |
| Rasterizer.Framebuffer.Clear | src/framebuffer.rs:75-77 | the buffer becomes a copy of `empty_buffer`, every cell the background colour; `empty_buffer` and both colours are unchanged |
| Rasterizer.Framebuffer.PaintPoint | src/framebuffer.rs:85-115 | the buffer and outcome are those of `PaintPointEffect` with the current colour; only the buffer's cells may change |
| Rasterizer.Framebuffer.Paint | src/framebuffer.rs:50-54 | the buffer and outcome are those of `PaintAll` over the canvas points with the current colour |
| Rasterizer.Framebuffer.PaintFilledPolygon | src/framebuffer.rs:193-263 | the buffer, outcome and current colour are those of `FilledPolygonEffect`: fill pass with the fill colour, then the border pass with the border colour only if the fill succeeded |
| Rasterizer.Framebuffer.GetColor | src/framebuffer.rs:266-279 | the result is `ReadCell` of the current buffer |
| Rasterizer.Framebuffer.SetBackgroundColor | src/framebuffer.rs:285-296 | the background colour is set and `empty_buffer` is recomputed as `width*height` cells of it; the buffer and current colour are unchanged |
| Rasterizer.Framebuffer.SetCurrentColor | src/framebuffer.rs:301-303 | the current colour is set; nothing else changes |

## Left out

- `save` and `write_bmp_file` are left out. They are file I/O, and the bitmap encoder is not part of this model.
- Colour conversions (`into()`, `Color::black`, `Color::white`) are left out because `color.rs` is not part of this model. Colours are packed `u32` words. Black is taken as `0x000000` and white as `0xFFFFFF`.
- Floating point is left out. This covers `round()` of non-integer coordinates, the `f32::EPSILON` comparison in `line`, and the loss of precision when large `u32` fill coordinates become `f32`. Coordinates are integers throughout.
- Saturation of `x.round() as usize` in `paint_point` is not modelled. A coordinate beyond `usize` is treated as its exact value, which is rejected as too large anyway.
- `usize` overflow of `width * height` in `create_filled_buffer` and of the index `y * width + x` in `paint_point` and `get_color` is not modelled. Rust panics there in a debug build and wraps in a release build. The model's integers are unbounded.
- Arithmetic overflow of `top_row + 1` or `left_col + 1` when a rounded corner is `u32::MAX` is not modelled. Rust would panic there in a debug build.
- The lifetime and exclusive borrow of `Canvas` are left out. A canvas is the point sequence, committed by `Framebuffer.Paint` on the object that produced it.
- The `Display` and `Error` implementations of the error enum are left out; they only format text.
- Rasterizer.Framebuffer.Clear: `clone_from` may reuse the buffer's allocation; the model always allocates a fresh array with the same contents.
- Polygons.ScanlineFill: the source nests the column loop inside the row loop in one function; the model moves the inner loop into `Polygons.ScanRow`, which the outer loop calls, and the points pushed are the same.
