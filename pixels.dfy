/** RGB rasters as the conversion pipeline sees them after loading and
    converting a file to three-channel RGB. */
module Pixels {

  /** One 8-bit colour channel. */
  type Channel = c: int | 0 <= c <= 255

  /** The colour of one pixel. */
  datatype Rgb = Rgb(r: Channel, g: Channel, b: Channel)

  const Black := Rgb(0, 0, 0)
  const White := Rgb(255, 255, 255)

  /** A loaded source image: its size and its pixels, row by row
      (`pixels[y][x]` is the pixel at column x of row y). */
  datatype Image = Image(width: nat, height: nat, pixels: seq<seq<Rgb>>) {

    /** Every image has exactly `height` rows of exactly `width` pixels. */
    predicate Valid() {
      |pixels| == height && forall y :: 0 <= y < |pixels| ==> |pixels[y]| == width
    }

    /** The pixel at column x, row y (the image library's pixel accessor). */
    function At(x: nat, y: nat): Rgb
      requires Valid() && x < width && y < height
    {
      pixels[y][x]
    }
  }
}
