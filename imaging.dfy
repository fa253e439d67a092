/**
 * Colours and images as the renderers see them: the source image answers
 * At(x, y) with a colour whose RGBA() channels are 16-bit, and a frame is an
 * image.RGBA buffer of 8-bit pixels.
 */
module Imaging {

  /** A 16-bit channel value, as returned by color.Color.RGBA(). */
  type Word = x: int | 0 <= x < 0x1_0000

  /** An 8-bit channel value, as stored in an image.RGBA buffer. */
  type Byte = x: int | 0 <= x < 0x100

  /** A colour as its RGBA() method reports it (alpha-premultiplied, 16 bits per channel). */
  datatype Color = Color(r: Word, g: Word, b: Word, a: Word)

  /** One pixel of an image.RGBA buffer (a color.RGBA value). */
  datatype Rgba8 = Rgba8(r: Byte, g: Byte, b: Byte, a: Byte)

  /**
   * The colour an image.RGBA buffer stores when Set is given `c`: the high
   * byte of each 16-bit channel (color.RGBAModel).
   */
  function ToRgba8(c: Color): (p: Rgba8)
    ensures p.r * 256 <= c.r < (p.r + 1) * 256 && p.g * 256 <= c.g < (p.g + 1) * 256
    ensures p.b * 256 <= c.b < (p.b + 1) * 256 && p.a * 256 <= c.a < (p.a + 1) * 256
  {
    Rgba8(c.r / 256, c.g / 256, c.b / 256, c.a / 256)
  }

  /**
   * A decoded source image: the corner (minX, minY) of its bounds, its size
   * dx by dy, and its colour at every location (image.Image.At).
   */
  datatype Picture = Picture(minX: int, minY: int, dx: nat, dy: nat, at: (int, int) -> Color)
  {
    /** The colour of grid pixel (x, y), counted from the image's own corner. */
    function AtOffset(x: int, y: int): Color
    {
      at(x + minX, y + minY)
    }
  }
}
