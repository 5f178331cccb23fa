/** The in-memory picture every codec reads and writes: a grid of colours,
    row 0 at the top, whose dimensions are C++ `int`s. */
module ImgLib {
  import opened LittleEndian

  /** A result that may be missing: a failed load, an unknown format. */
  datatype Option<+T> = None | Some(value: T)

  /** One pixel: red, green, blue and alpha channels of one byte each. */
  datatype Color = Color(r: Byte, g: Byte, b: Byte, a: Byte)

  /** `rows[y][x]` is the pixel in column x of row y. */
  datatype Image = Image(width: int, height: int, rows: seq<seq<Color>>)

  const MaxInt: int := 0x7FFF_FFFF

  /** The shape every image has: non-negative `int` dimensions and
      `height` rows of `width` pixels each. */
  predicate WellFormed(image: Image) {
    && 0 <= image.width <= MaxInt
    && 0 <= image.height <= MaxInt
    && |image.rows| == image.height
    && forall y :: 0 <= y < |image.rows| ==> |image.rows[y]| == image.width
  }

  /** The colour channels agree; alpha is not compared. */
  predicate SameRgb(c: Color, d: Color) {
    c.r == d.r && c.g == d.g && c.b == d.b
  }
}
