/** The filters of the program as one notion: what a filter makes of each pixel, and the serial engine. */
module Filtering {
  import opened Options
  import opened Pixels
  import opened Kernels
  import opened Convolution
  import opened Median

  /** The window size of the "mm" filter. */
  const MEDIAN_SIZE := 15

  /** What the chosen filter computes: a linear kernel, or the median over the fixed window. */
  datatype Filter = Linear(kernel: Kernel) | MedianWindow {

    /** The median filter indexes outside the picture unless each axis is long enough or a single element. */
    predicate Applies(p: Picture) {
      Linear? || ((p.width == 1 || MEDIAN_SIZE / 2 <= p.width) && (p.height == 1 || MEDIAN_SIZE / 2 <= p.height))
    }

    function PixelAt(p: Picture, y: int, x: int): Pixel {
      match this
      case Linear(k) => ConvAt(p, k, y, x)
      case MedianWindow => MedianAt(p, MEDIAN_SIZE / 2, y, x)
    }

    /** The whole picture, filtered: the result every engine is compared with. */
    function Result(p: Picture): (q: Picture)
      ensures q.width == p.width && q.height == p.height
      ensures forall y, x :: p.Has(y, x) ==> q.At(y, x) == PixelAt(p, y, x)
    {
      Tabulate(p.width, p.height, (y, x) => PixelAt(p, y, x))
    }
  }

  /** A linear filter's result is the convolution. */
  lemma LinearResult(p: Picture, k: Kernel)
    ensures Linear(k).Result(p) == Conv(p, k)
  {
    SamePixels(Linear(k).Result(p), Conv(p, k));
  }

  /** The filter behind a command-line name. */
  function FilterOf(name: string): Option<Filter> {
    if name == "mm" then Some(MedianWindow)
    else
      var k := FilterByName(name);
      if k.Some? then
        ShippedKernels(name);
        Some(Linear(k.value))
      else None
  }

  /** Which names there are, and which one is the median filter. */
  lemma FilterNames(name: string)
    ensures FilterOf(name).Some? <==> name in {"mb", "bb", "gb", "co", "sh", "em", "mm", "gg", "mg", "bo"}
    ensures FilterOf(name) == Some(MedianWindow) <==> name == "mm"
  {
  }

  /** The sample at a position of the 15 by 15 neighbourhood, row by row from its corner, wrapped around the picture. */
  function Neighbourhood(p: Picture, y: int, x: int, c: Channel, n: nat): Byte {
    p.pixels[(y + n / 15 - 7) % p.height][(x + n % 15 - 7) % p.width].Get(c)
  }

  lemma NeighbourhoodIsWindow(p: Picture, y: int, x: int, c: Channel, n: nat)
    requires n < 225
    ensures |Window(p, y, x, MEDIAN_SIZE / 2, c)| == 225
    ensures Window(p, y, x, MEDIAN_SIZE / 2, c)[n] == Neighbourhood(p, y, x, c, n)
  {
    WindowAt(p, y, x, 7, c, n / 15, n % 15);
  }

  /** Of the 225 samples at least 113 are at most the pixel "mm" writes, and at least 113 are at least it, in every channel. */
  lemma MedianOfNeighbourhood(p: Picture, y: int, x: int, c: Channel)
    ensures var m := MedianWindow.PixelAt(p, y, x).Get(c);
            && 113 <= |set n: nat | n < 225 && Neighbourhood(p, y, x, c, n) <= m|
            && 113 <= |set n: nat | n < 225 && m <= Neighbourhood(p, y, x, c, n)|
  {
    var w, m := Window(p, y, x, MEDIAN_SIZE / 2, c), MedianWindow.PixelAt(p, y, x).Get(c);
    NeighbourhoodIsWindow(p, y, x, c, 0);
    MedianAtHalves(p, MEDIAN_SIZE / 2, y, x, c);
    CountIsPositionsAtMost(w, m);
    CountIsPositionsAtLeast(w, m);
    forall n: nat | n < 225
      ensures w[n] == Neighbourhood(p, y, x, c, n)
    {
      NeighbourhoodIsWindow(p, y, x, c, n);
    }
    assert (set n: nat | n < 225 && Neighbourhood(p, y, x, c, n) <= m) == PositionsAtMost(w, m);
    assert (set n: nat | n < 225 && m <= Neighbourhood(p, y, x, c, n)) == PositionsAtLeast(w, m);
  }

  /** `filter_part_computation`: applies the filter to one region of the output, in place. */
  method FilterPart(region: Region, filter: Filter, input: Picture, output: array2<Pixel>)
    requires output.Length0 == input.height && output.Length1 == input.width
    requires region.Within(input.width, input.height) && filter.Applies(input)
    modifies output
    ensures forall y, x :: input.Has(y, x) ==>
      output[y, x] == if region.Covers(y, x) then filter.PixelAt(input, y, x) else old(output[y, x])
  {
    match filter
    case Linear(k) =>
      ApplyFilter(region, k, input, output);
    case MedianWindow =>
      ApplyMedianFilter(region, MEDIAN_SIZE, input, output);
  }

  /** `execute_st_computation`: one thread takes the whole picture as its region. */
  method ExecuteSerial(filter: Filter, input: Picture, output: array2<Pixel>)
    requires output.Length0 == input.height && output.Length1 == input.width
    requires filter.Applies(input)
    modifies output
    ensures Contents(output) == filter.Result(input)
    ensures filter.Linear? ==> Contents(output) == Conv(input, filter.kernel)
  {
    FilterPart(Region(0, input.height, 0, input.width), filter, input, output);
    HeldPicture(output, filter.Result(input));
    if filter.Linear? {
      LinearResult(input, filter.kernel);
    }
  }
}
