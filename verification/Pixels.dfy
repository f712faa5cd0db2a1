/** Pixels and pictures, as every engine of the program sees them. */
module Pixels {

  type Byte = b: int | 0 <= b < 256

  datatype Channel = Blue | Green | Red

  /** One pixel; the fields stand in the order of the packed three-byte struct. */
  datatype Pixel = Pixel(blue: Byte, green: Byte, red: Byte) {
    function Get(c: Channel): Byte {
      match c
      case Blue => blue
      case Green => green
      case Red => red
    }
  }

  type Grid = seq<seq<Pixel>>

  predicate Shaped(g: Grid, width: nat, height: nat) {
    |g| == height && forall y :: 0 <= y < height ==> |g[y]| == width
  }

  /** The engines keep dimensions in 16-bit fields (`struct img_dim`). */
  const UINT16_MAX := 0xFFFF
  const UINT16_SPAN := 0x1_0000

  datatype Raster = Raster(width: nat, height: nat, pixels: Grid) {
    predicate Valid() {
      0 < width <= UINT16_MAX && 0 < height <= UINT16_MAX && Shaped(pixels, width, height)
    }

    predicate Has(y: int, x: int) {
      0 <= y < height && 0 <= x < width
    }

    function At(y: int, x: int): Pixel
      requires Valid() && Has(y, x)
    {
      pixels[y][x]
    }
  }

  /** A picture of positive size. */
  type Picture = r: Raster | r.Valid() witness Raster(1, 1, [[Pixel(0, 0, 0)]])

  /** The picture of the given size whose pixel at (y, x) is f(y, x). */
  function Tabulate(width: nat, height: nat, f: (int, int) -> Pixel): (p: Picture)
    requires 0 < width <= UINT16_MAX && 0 < height <= UINT16_MAX
    ensures p.width == width && p.height == height
    ensures forall y, x :: p.Has(y, x) ==> p.At(y, x) == f(y, x)
  {
    Raster(width, height, seq(height, y => seq(width, x => f(y, x))))
  }

  /** Pictures of the same size with the same pixels are equal. */
  lemma SamePixels(p: Picture, q: Picture)
    requires p.width == q.width && p.height == q.height
    requires forall y, x :: p.Has(y, x) ==> p.At(y, x) == q.At(y, x)
    ensures p == q
  {
    forall y | 0 <= y < p.height
      ensures p.pixels[y] == q.pixels[y]
    {
      forall x | 0 <= x < p.width
        ensures p.pixels[y][x] == q.pixels[y][x]
      {
        assert p.At(y, x) == q.At(y, x);
      }
    }
  }

  /** The pixels an output buffer holds at the moment. */
  ghost predicate Holds(buffer: array2<Pixel>, p: Picture)
    reads buffer
  {
    buffer.Length0 == p.height && buffer.Length1 == p.width
    && forall y, x :: p.Has(y, x) ==> buffer[y, x] == p.At(y, x)
  }

  /** The value of an output buffer, read row by row. */
  function Contents(buffer: array2<Pixel>): (p: Picture)
    requires 0 < buffer.Length1 <= UINT16_MAX && 0 < buffer.Length0 <= UINT16_MAX
    reads buffer
    ensures Holds(buffer, p)
  {
    Raster(buffer.Length1, buffer.Length0,
           seq(buffer.Length0, y requires 0 <= y < buffer.Length0 reads buffer =>
               seq(buffer.Length1, x requires 0 <= x < buffer.Length1 && 0 <= y < buffer.Length0 reads buffer => buffer[y, x])))
  }

  lemma HeldPicture(buffer: array2<Pixel>, p: Picture)
    requires Holds(buffer, p)
    ensures Contents(buffer) == p
  {
    var q := Contents(buffer);
    forall y, x | p.Has(y, x)
      ensures p.At(y, x) == q.At(y, x)
    {
      assert buffer[y, x] == p.At(y, x) && q.Has(y, x) && buffer[y, x] == q.At(y, x);
    }
    SamePixels(q, p);
  }
}
