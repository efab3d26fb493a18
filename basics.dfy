/** Values shared by the rasterizer: packed colours, integer grid points and
    the outcome of an operation that may fail or panic. */
module Basics {

  /** A packed colour, stored in the pixel buffer as an unsigned 32-bit word. */
  newtype u32 = x: int | 0 <= x < 0x1_0000_0000

  const U32_MAX: int := 0xFFFF_FFFF

  /** A point of the integer grid; the origin is the top-left corner, y grows downwards. */
  datatype Point = Point(x: int, y: int)

  /** The result of an operation: a value, a reported error, or a panic where
      the program would abort: a buffer index past the end, `points[0]` of an
      empty vertex list, or `min().unwrap()` over no corners. */
  datatype Outcome<+T, +E> = Ok(value: T) | Err(error: E) | Panic

  datatype Option<+T> = None | Some(value: T)

  function Abs(n: int): nat
  {
    if n < 0 then -n else n
  }

  /** The saturating conversion of an integer-valued coordinate to `u32`:
      negative values become 0 and values above the range become its maximum. */
  function AsU32(v: int): nat
  {
    if v < 0 then 0 else if v > U32_MAX then U32_MAX else v
  }
}
