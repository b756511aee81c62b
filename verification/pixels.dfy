/** Pixel and image values shared by the rasteriser and the frame extractor. */
module Pixels {

  /** An unsigned 8-bit channel value (`u8`). */
  type Byte = b: int | 0 <= b < 0x100

  /** One RGB24 pixel (`image::Rgb<u8>`). */
  datatype Rgb = Rgb(r: Byte, g: Byte, b: Byte)

  /** The value every pixel of a freshly created `ImageBuffer` holds. */
  const Black: Rgb := Rgb(0, 0, 0)

  /** A row-major RGB image: `pixels[y][x]` is the pixel in column `x` of row `y`. */
  datatype Image = Image(width: nat, height: nat, pixels: seq<seq<Rgb>>) {

    /** The grid has exactly `height` rows of exactly `width` pixels. */
    predicate Valid() {
      && |pixels| == height
      && forall y :: 0 <= y < |pixels| ==> |pixels[y]| == width
    }

    /** `get_pixel(x, y)`. */
    function Pixel(x: nat, y: nat): Rgb
      requires Valid() && x < width && y < height
    {
      pixels[y][x]
    }
  }

  /**
   * Where block `k` starts in a buffer cut into blocks of `step` elements:
   * `k * step`, counted block by block.
   */
  function Offset(step: nat, k: nat): nat
  {
    if k == 0 then 0 else step + Offset(step, k - 1)
  }

  lemma {:induction false} OffsetProduct(step: nat, k: nat)
    ensures Offset(step, k) == k * step
  {
    if k > 0 {
      OffsetProduct(step, k - 1);
    }
  }

  /** A `width` x `height` image in which every pixel is black. */
  function BlankImage(width: nat, height: nat): (img: Image)
    ensures img.Valid() && img.width == width && img.height == height
    ensures forall y, x :: 0 <= y < height && 0 <= x < width ==> img.pixels[y][x] == Black
  {
    Image(width, height, seq(height, _ => seq(width, _ => Black)))
  }
}
