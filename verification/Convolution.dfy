/**
 * The one specification every engine is meant to compute: convolution of a whole picture, with
 * coordinates outside it clamped to its border.
 */
module Convolution {
  import opened Arithmetic
  import opened Pixels
  import opened Kernels

  /** The clamped coordinate along an axis of the given length. */
  function Clamp(i: int, length: nat): (r: nat)
    requires 0 < length
    ensures r < length
    ensures 0 <= i < length ==> r == i
    ensures i < 0 ==> r == 0
    ensures length <= i ==> r == length - 1
  {
    if i < 0 then 0 else if length <= i then length - 1 else i
  }

  /** The input pixel under one weight when the window stands at (y, x). */
  function Neighbour(p: Picture, k: Kernel, y: int, x: int, filterY: nat, filterX: nat): Pixel {
    p.At(Clamp(y + filterY - k.Padding(), p.height), Clamp(x + filterX - k.Padding(), p.width))
  }

  /** The clamped coordinate is the position of the axis nearest to the one asked for. */
  lemma ClampIsNearest(i: int, length: nat, j: nat)
    requires j < length
    ensures Abs(Clamp(i, length) - i) <= Abs(j - i)
  {
  }

  /**
   * Which pixel lies under the weight in row i and column j of the table when its centre stands at (y, x):
   * the one at that distance, or the nearest one on the border.
   */
  lemma NeighbourIs(p: Picture, k: Kernel, y: int, x: int, i: nat, j: nat)
    requires i < k.size && j < k.size
    ensures var r, c := y + i - k.size / 2, x + j - k.size / 2;
            var row := if r < 0 then 0 else if r >= p.height then p.height - 1 else r;
            var column := if c < 0 then 0 else if c >= p.width then p.width - 1 else c;
            Neighbour(p, k, y, x, i, j) == p.pixels[row][column]
  {
  }

  /** One summand: the clamped neighbour times its weight. */
  function Tap(p: Picture, k: Kernel, y: int, x: int, filterY: nat, filterX: nat, c: Channel): int
    requires filterY < k.size && filterX < k.size
  {
    Neighbour(p, k, y, x, filterY, filterX).Get(c) * k.Weight(filterY, filterX)
  }

  /** The first n summands of one kernel row. */
  function RowSum(p: Picture, k: Kernel, y: int, x: int, filterY: nat, n: nat, c: Channel): int
    requires filterY < k.size && n <= k.size
  {
    if n == 0 then 0 else RowSum(p, k, y, x, filterY, n - 1, c) + Tap(p, k, y, x, filterY, n - 1, c)
  }

  /** The first n summands of each of the first m kernel rows. */
  function WindowSum(p: Picture, k: Kernel, y: int, x: int, m: nat, n: nat, c: Channel): int
    requires m <= k.size && n <= k.size
  {
    if m == 0 then 0 else WindowSum(p, k, y, x, m - 1, n, c) + RowSum(p, k, y, x, m - 1, n, c)
  }

  function ConvChannel(p: Picture, k: Kernel, y: int, x: int, c: Channel): Byte {
    Quantise(k, WindowSum(p, k, y, x, k.size, k.size, c))
  }

  function ConvAt(p: Picture, k: Kernel, y: int, x: int): Pixel {
    Pixel(ConvChannel(p, k, y, x, Blue), ConvChannel(p, k, y, x, Green), ConvChannel(p, k, y, x, Red))
  }

  /** The convolution of the whole picture. */
  function Conv(p: Picture, k: Kernel): (q: Picture)
    ensures q.width == p.width && q.height == p.height
    ensures forall y, x :: p.Has(y, x) ==> q.At(y, x) == ConvAt(p, k, y, x)
  {
    Tabulate(p.width, p.height, (y, x) => ConvAt(p, k, y, x))
  }

  /** A dark picture with one bright sample in its interior, at (r, s). */
  predicate OneBright(p: Picture, c: Channel, r: nat, s: nat, v: Byte) {
    0 < r < p.height - 1 && 0 < s < p.width - 1
    && forall y, x :: 0 <= y < p.height && 0 <= x < p.width ==> p.pixels[y][x].Get(c) == if y == r && x == s then v else 0
  }

  lemma BrightNeighbour(p: Picture, k: Kernel, y: int, x: int, i: nat, j: nat, c: Channel, r: nat, s: nat, v: Byte)
    requires OneBright(p, c, r, s, v) && i < k.size && j < k.size
    ensures Neighbour(p, k, y, x, i, j).Get(c) == if y + i - k.size / 2 == r && x + j - k.size / 2 == s then v else 0
  {
    NeighbourIs(p, k, y, x, i, j);
  }

  lemma {:induction false} BrightRow(p: Picture, k: Kernel, y: int, x: int, i: nat, n: nat, c: Channel, r: nat, s: nat, v: Byte)
    requires OneBright(p, c, r, s, v) && i < k.size && n <= k.size
    ensures var j := s - x + k.size / 2;
            RowSum(p, k, y, x, i, n, c) == if y + i - k.size / 2 == r && 0 <= j < n then v * k.table[i][j] else 0
  {
    if n > 0 {
      BrightRow(p, k, y, x, i, n - 1, c, r, s, v);
      BrightNeighbour(p, k, y, x, i, n - 1, c, r, s, v);
    }
  }

  lemma {:induction false} BrightWindow(p: Picture, k: Kernel, y: int, x: int, m: nat, c: Channel, r: nat, s: nat, v: Byte)
    requires OneBright(p, c, r, s, v) && m <= k.size
    ensures var i, j := r - y + k.size / 2, s - x + k.size / 2;
            WindowSum(p, k, y, x, m, k.size, c) == if 0 <= i < m && 0 <= j < k.size then v * k.table[i][j] else 0
  {
    if m > 0 {
      BrightWindow(p, k, y, x, m - 1, c, r, s, v);
      BrightRow(p, k, y, x, m - 1, k.size, c, r, s, v);
    }
  }

  /**
   * What a single bright sample does to the pixels around it: each sees it under the weight at their
   * distance, with the table as it is written and not turned round.
   */
  lemma BrightResponse(p: Picture, k: Kernel, y: int, x: int, c: Channel, r: nat, s: nat, v: Byte)
    requires OneBright(p, c, r, s, v)
    ensures var i, j := r - y + k.size / 2, s - x + k.size / 2;
            ConvChannel(p, k, y, x, c) == Quantise(k, if 0 <= i < k.size && 0 <= j < k.size then v * k.table[i][j] else 0)
  {
    BrightWindow(p, k, y, x, k.size, c, r, s, v);
  }

  // ---- the nested loops of apply_filter -------------------------------------------------------

  /** A half-open rectangle of pixels, as the fields of `struct thread_spec` delimit it. */
  datatype Region = Region(startRow: nat, endRow: nat, startColumn: nat, endColumn: nat) {
    predicate Covers(y: int, x: int) {
      startRow <= y < endRow && startColumn <= x < endColumn
    }

    predicate Within(width: nat, height: nat) {
      endRow <= height && endColumn <= width
    }
  }

  /** The accumulators of one output pixel after the two kernel loops. */
  method Accumulate(input: Picture, k: Kernel, y: nat, x: nat) returns (blueAcc: int, greenAcc: int, redAcc: int)
    requires input.Has(y, x)
    ensures blueAcc == WindowSum(input, k, y, x, k.size, k.size, Blue)
    ensures greenAcc == WindowSum(input, k, y, x, k.size, k.size, Green)
    ensures redAcc == WindowSum(input, k, y, x, k.size, k.size, Red)
  {
    redAcc, greenAcc, blueAcc := 0, 0, 0;
    var padding := k.size / 2;
    for filterY := 0 to k.size
      invariant blueAcc == WindowSum(input, k, y, x, filterY, k.size, Blue)
      invariant greenAcc == WindowSum(input, k, y, x, filterY, k.size, Green)
      invariant redAcc == WindowSum(input, k, y, x, filterY, k.size, Red)
    {
      for filterX := 0 to k.size
        invariant blueAcc == WindowSum(input, k, y, x, filterY, k.size, Blue) + RowSum(input, k, y, x, filterY, filterX, Blue)
        invariant greenAcc == WindowSum(input, k, y, x, filterY, k.size, Green) + RowSum(input, k, y, x, filterY, filterX, Green)
        invariant redAcc == WindowSum(input, k, y, x, filterY, k.size, Red) + RowSum(input, k, y, x, filterY, filterX, Red)
      {
        var imageX := x + filterX - padding;
        if imageX < 0 {
          imageX := 0;
        } else if imageX >= input.width {
          imageX := input.width - 1;
        }
        var imageY := y + filterY - padding;
        if imageY < 0 {
          imageY := 0;
        } else if imageY >= input.height {
          imageY := input.height - 1;
        }
        assert imageY == Clamp(y + filterY - padding, input.height) && imageX == Clamp(x + filterX - padding, input.width);
        var original := input.At(imageY, imageX);
        var weight := k.Weight(filterY, filterX);
        redAcc := redAcc + original.red * weight;
        greenAcc := greenAcc + original.green * weight;
        blueAcc := blueAcc + original.blue * weight;
      }
    }
  }

  /** `apply_filter`: filters one region in place in the output buffer and leaves every other pixel of it alone. */
  method ApplyFilter(region: Region, k: Kernel, input: Picture, output: array2<Pixel>)
    requires output.Length0 == input.height && output.Length1 == input.width
    requires region.Within(input.width, input.height)
    modifies output
    ensures forall y, x :: input.Has(y, x) ==>
      output[y, x] == if region.Covers(y, x) then ConvAt(input, k, y, x) else old(output[y, x])
  {
    var y := region.startRow;
    while y < region.endRow
      invariant region.startRow <= y
      invariant forall i, j :: input.Has(i, j) ==>
        output[i, j] == if region.Covers(i, j) && i < y then ConvAt(input, k, i, j) else old(output[i, j])
    {
      var x := region.startColumn;
      while x < region.endColumn
        invariant region.startColumn <= x
        invariant forall i, j :: input.Has(i, j) ==>
          output[i, j] == if region.Covers(i, j) && (i < y || (i == y && j < x)) then ConvAt(input, k, i, j) else old(output[i, j])
      {
        var blueAcc, greenAcc, redAcc := Accumulate(input, k, y, x);
        output[y, x] := Pixel(Quantise(k, blueAcc), Quantise(k, greenAcc), Quantise(k, redAcc));
        x := x + 1;
      }
      y := y + 1;
    }
  }

  // ---- transposition --------------------------------------------------------------------------

  function Transpose(p: Picture): (t: Picture)
    ensures t.width == p.height && t.height == p.width
    ensures forall y, x :: t.Has(y, x) ==> t.At(y, x) == p.At(x, y)
  {
    Tabulate(p.height, p.width, (y, x) => if p.Has(x, y) then p.At(x, y) else Pixel(0, 0, 0))
  }

  lemma TransposeTwice(p: Picture)
    ensures Transpose(Transpose(p)) == p
  {
    var t := Transpose(p);
    var q := Transpose(t);
    forall y, x | p.Has(y, x)
      ensures q.At(y, x) == p.At(y, x)
    {
      assert q.Has(y, x) && t.Has(x, y);
    }
    SamePixels(q, p);
  }

  /** `transpose_matrix`: a new buffer with rows and columns exchanged. */
  method TransposeMatrix(pixels: Picture) returns (transposed: array2<Pixel>)
    ensures fresh(transposed) && Holds(transposed, Transpose(pixels))
  {
    transposed := new Pixel[pixels.width, pixels.height];
    for y := 0 to pixels.height
      invariant forall i, j :: 0 <= i < pixels.width && 0 <= j < y ==> transposed[i, j] == pixels.At(j, i)
    {
      for x := 0 to pixels.width
        invariant forall i, j :: 0 <= i < pixels.width && 0 <= j < y ==> transposed[i, j] == pixels.At(j, i)
        invariant forall i :: 0 <= i < x ==> transposed[i, y] == pixels.At(y, i)
      {
        transposed[x, y] := pixels.At(y, x);
      }
    }
  }

  /** The summands down one kernel column. */
  function ColumnSum(p: Picture, k: Kernel, y: int, x: int, m: nat, filterX: nat, c: Channel): int
    requires m <= k.size && filterX < k.size
  {
    if m == 0 then 0 else ColumnSum(p, k, y, x, m - 1, filterX, c) + Tap(p, k, y, x, m - 1, filterX, c)
  }

  lemma {:induction false} PeelColumn(p: Picture, k: Kernel, y: int, x: int, m: nat, n: nat, c: Channel)
    requires m <= k.size && n < k.size
    ensures WindowSum(p, k, y, x, m, n + 1, c) == WindowSum(p, k, y, x, m, n, c) + ColumnSum(p, k, y, x, m, n, c)
  {
    if m > 0 {
      PeelColumn(p, k, y, x, m - 1, n, c);
    }
  }

  lemma TapTransposed(p: Picture, k: Kernel, y: int, x: int, filterY: nat, filterX: nat, c: Channel)
    requires filterY < k.size && filterX < k.size
    ensures Tap(Transpose(p), k, x, y, filterX, filterY, c) == Tap(p, Transposed(k), y, x, filterY, filterX, c)
  {
    assert Transpose(p).Has(Clamp(x + filterX - k.Padding(), p.width), Clamp(y + filterY - k.Padding(), p.height));
    assert Transposed(k).Weight(filterY, filterX) == k.Weight(filterX, filterY);
  }

  lemma {:induction false} ColumnTransposed(p: Picture, k: Kernel, y: int, x: int, n: nat, filterY: nat, c: Channel)
    requires n <= k.size && filterY < k.size
    ensures ColumnSum(Transpose(p), k, x, y, n, filterY, c) == RowSum(p, Transposed(k), y, x, filterY, n, c)
  {
    if n > 0 {
      ColumnTransposed(p, k, y, x, n - 1, filterY, c);
      TapTransposed(p, k, y, x, filterY, n - 1, c);
    }
  }

  lemma {:induction false} EmptyWindow(p: Picture, k: Kernel, y: int, x: int, m: nat, c: Channel)
    requires m <= k.size
    ensures WindowSum(p, k, y, x, m, 0, c) == 0
  {
    if m > 0 {
      EmptyWindow(p, k, y, x, m - 1, c);
    }
  }

  /** The order of the two kernel loops does not matter, so transposing the picture transposes the kernel. */
  lemma {:induction false} WindowTransposed(p: Picture, k: Kernel, y: int, x: int, m: nat, n: nat, c: Channel)
    requires m <= k.size && n <= k.size
    ensures WindowSum(Transpose(p), k, x, y, n, m, c) == WindowSum(p, Transposed(k), y, x, m, n, c)
  {
    if m == 0 {
      EmptyWindow(Transpose(p), k, x, y, n, c);
    } else {
      WindowTransposed(p, k, y, x, m - 1, n, c);
      NextRowTransposed(p, k, y, x, m - 1, n, c);
    }
  }

  lemma NextRowTransposed(p: Picture, k: Kernel, y: int, x: int, m: nat, n: nat, c: Channel)
    requires m < k.size && n <= k.size
    ensures WindowSum(Transpose(p), k, x, y, n, m + 1, c)
         == WindowSum(Transpose(p), k, x, y, n, m, c) + RowSum(p, Transposed(k), y, x, m, n, c)
  {
    PeelColumn(Transpose(p), k, x, y, n, m, c);
    ColumnTransposed(p, k, y, x, n, m, c);
  }

  lemma ConvAtTransposed(p: Picture, k: Kernel, y: int, x: int)
    ensures ConvAt(Transpose(p), k, x, y) == ConvAt(p, Transposed(k), y, x)
  {
    WindowTransposed(p, k, y, x, k.size, k.size, Blue);
    WindowTransposed(p, k, y, x, k.size, k.size, Green);
    WindowTransposed(p, k, y, x, k.size, k.size, Red);
  }

  /** Convolving the transposed picture and transposing back convolves with the transposed kernel. */
  lemma ConvTransposed(p: Picture, k: Kernel)
    ensures Transpose(Conv(Transpose(p), k)) == Conv(p, Transposed(k))
  {
    var c := Conv(Transpose(p), k);
    var left := Transpose(c);
    var right := Conv(p, Transposed(k));
    forall y, x | p.Has(y, x)
      ensures left.At(y, x) == right.At(y, x)
    {
      assert left.Has(y, x) && c.Has(x, y);
      ConvAtTransposed(p, k, y, x);
    }
    SamePixels(left, right);
  }

  // ---- when the transposed kernel gives the same sums -----------------------------------------

  /** Both kernels leave the same accumulators, at every pixel of every picture. */
  ghost predicate SameSums(k: Kernel, l: Kernel) {
    forall p: Picture, y, x, c: Channel :: p.Has(y, x) ==>
      WindowSum(p, k, y, x, k.size, k.size, c) == WindowSum(p, l, y, x, l.size, l.size, c)
  }

  /** At (y, x) the window meets a value other than zero, a one, only under the weight (i, j). */
  ghost predicate MeetsOnly(p: Picture, k: Kernel, y: int, x: int, i: nat, j: nat) {
    i < k.size && j < k.size
    && forall fy: nat, fx: nat :: fy < k.size && fx < k.size ==>
      Neighbour(p, k, y, x, fy, fx).blue == if fy == i && fx == j then 1 else 0
  }

  lemma {:induction false} LoneRow(p: Picture, k: Kernel, y: int, x: int, i: nat, j: nat, filterY: nat, n: nat)
    requires MeetsOnly(p, k, y, x, i, j) && filterY < k.size && n <= k.size
    ensures RowSum(p, k, y, x, filterY, n, Blue) == if filterY == i && j < n then k.Weight(i, j) else 0
  {
    if n > 0 {
      LoneRow(p, k, y, x, i, j, filterY, n - 1);
      assert Neighbour(p, k, y, x, filterY, n - 1).blue == if filterY == i && n - 1 == j then 1 else 0;
    }
  }

  lemma {:induction false} LoneWindow(p: Picture, k: Kernel, y: int, x: int, i: nat, j: nat, m: nat)
    requires MeetsOnly(p, k, y, x, i, j) && m <= k.size
    ensures WindowSum(p, k, y, x, m, k.size, Blue) == if i < m then k.Weight(i, j) else 0
  {
    if m > 0 {
      LoneWindow(p, k, y, x, i, j, m - 1);
      LoneRow(p, k, y, x, i, j, m - 1, k.size);
    }
  }

  /** A dark picture with a single bright pixel at (size, size). */
  function BrightDot(size: nat): (p: Picture)
    requires 0 < size && 2 * size < UINT16_MAX
  {
    Tabulate(2 * size + 1, 2 * size + 1, (y, x) => if y == size && x == size then Pixel(1, 1, 1) else Pixel(0, 0, 0))
  }

  /** Where the window stands when the weight (i, j) lies on the bright pixel. */
  lemma DotUnderWeight(k: Kernel, i: nat, j: nat)
    requires i < k.size && j < k.size && 2 * k.size < UINT16_MAX
    ensures var y, x := k.size - i + k.Padding(), k.size - j + k.Padding();
            BrightDot(k.size).Has(y, x) && MeetsOnly(BrightDot(k.size), k, y, x, i, j)
  {
    var p, y, x := BrightDot(k.size), k.size - i + k.Padding(), k.size - j + k.Padding();
    forall fy: nat, fx: nat | fy < k.size && fx < k.size
      ensures Neighbour(p, k, y, x, fy, fx).blue == if fy == i && fx == j then 1 else 0
    {
      assert p.Has(Clamp(y + fy - k.Padding(), p.height), Clamp(x + fx - k.Padding(), p.width));
    }
  }

  lemma DotSum(k: Kernel, i: nat, j: nat, y: int, x: int)
    requires i < k.size && j < k.size && 2 * k.size < UINT16_MAX
    requires y == k.size - i + k.Padding() && x == k.size - j + k.Padding()
    ensures BrightDot(k.size).Has(y, x)
    ensures WindowSum(BrightDot(k.size), k, y, x, k.size, k.size, Blue) == k.Weight(i, j)
  {
    DotUnderWeight(k, i, j);
    LoneWindow(BrightDot(k.size), k, y, x, i, j, k.size);
  }

  lemma SameSumsAtWeight(k: Kernel, l: Kernel, i: nat, j: nat)
    requires SameSums(k, l) && k.size == l.size && i < k.size && j < k.size && 2 * k.size < UINT16_MAX
    ensures k.Weight(i, j) == l.Weight(i, j)
  {
    var y, x := k.size - i + k.Padding(), k.size - j + k.Padding();
    DotSum(k, i, j, y, x);
    DotSum(l, i, j, y, x);
  }

  /** The transposed kernel leaves the same accumulators everywhere if and only if the table is symmetric. */
  lemma SameSumsIff(k: Kernel)
    requires 2 * k.size < UINT16_MAX
    ensures SameSums(k, Transposed(k)) <==> Mirrored(k.table)
  {
    TransposedIsSame(k);
    if SameSums(k, Transposed(k)) {
      forall i, j | 0 <= i < k.size && 0 <= j < k.size
        ensures k.table[i][j] == k.table[j][i]
      {
        SameSumsAtWeight(k, Transposed(k), i, j);
      }
    }
  }

  // ---- averaging ------------------------------------------------------------------------------

  predicate NonNegative(t: seq<seq<int>>) {
    forall i, j :: 0 <= i < |t| && 0 <= j < |t[i]| ==> 0 <= t[i][j]
  }

  /** Weights that average: none negative, summing to the divisor, and no bias. */
  predicate Averaging(k: Kernel) {
    k.bias == 0 && WeightSum(k, k.size) == k.divisor && NonNegative(k.table)
  }

  /** Every clamped neighbour of (y, x) under the window has its channel between lo and hi. */
  predicate NeighboursBetween(p: Picture, k: Kernel, y: int, x: int, c: Channel, lo: int, hi: int) {
    forall i: nat, j: nat :: i < k.size && j < k.size ==> lo <= Neighbour(p, k, y, x, i, j).Get(c) <= hi
  }

  lemma ScaledBetween(lo: int, v: int, hi: int, weight: int, rest: int)
    requires lo <= v <= hi && 0 <= weight
    ensures lo * (rest + weight) <= lo * rest + v * weight && hi * rest + v * weight <= hi * (rest + weight)
  {
    Distribute(weight, lo, v - lo);
    Distribute(weight, v, hi - v);
    Distribute(lo, rest, weight);
    Distribute(hi, rest, weight);
    assert 0 <= weight * (v - lo) && 0 <= weight * (hi - v);
  }

  lemma {:induction false} RowSumBetween(p: Picture, k: Kernel, y: int, x: int, filterY: nat, n: nat, c: Channel, lo: int, hi: int)
    requires filterY < k.size && n <= k.size && NeighboursBetween(p, k, y, x, c, lo, hi)
    requires NonNegative(k.table)
    ensures lo * RowWeight(k, filterY, n) <= RowSum(p, k, y, x, filterY, n, c) <= hi * RowWeight(k, filterY, n)
  {
    if n > 0 {
      RowSumBetween(p, k, y, x, filterY, n - 1, c, lo, hi);
      ScaledBetween(lo, Neighbour(p, k, y, x, filterY, n - 1).Get(c), hi, k.Weight(filterY, n - 1), RowWeight(k, filterY, n - 1));
    }
  }

  lemma {:induction false} WindowSumBetween(p: Picture, k: Kernel, y: int, x: int, m: nat, c: Channel, lo: int, hi: int)
    requires m <= k.size && NeighboursBetween(p, k, y, x, c, lo, hi)
    requires NonNegative(k.table)
    ensures lo * WeightSum(k, m) <= WindowSum(p, k, y, x, m, k.size, c) <= hi * WeightSum(k, m)
  {
    if m > 0 {
      WindowSumBetween(p, k, y, x, m - 1, c, lo, hi);
      RowSumBetween(p, k, y, x, m - 1, k.size, c, lo, hi);
      Distribute(lo, WeightSum(k, m - 1), RowWeight(k, m - 1, k.size));
      Distribute(hi, WeightSum(k, m - 1), RowWeight(k, m - 1, k.size));
    }
  }

  /** An averaging kernel never leaves the range of the clamped neighbourhood. */
  lemma AveragingBound(p: Picture, k: Kernel, y: int, x: int, c: Channel, lo: Byte, hi: Byte)
    requires Averaging(k) && NeighboursBetween(p, k, y, x, c, lo, hi)
    ensures lo <= ConvChannel(p, k, y, x, c) <= hi
  {
    WindowSumBetween(p, k, y, x, k.size, c, lo, hi);
    RoundBetween(WindowSum(p, k, y, x, k.size, k.size, c), k.divisor, lo, hi);
  }

  /** At every pixel of every picture each channel stays within any bounds on its clamped neighbourhood. */
  ghost predicate StaysInRange(k: Kernel) {
    forall p: Picture, y, x, c: Channel, lo: Byte, hi: Byte ::
      p.Has(y, x) && NeighboursBetween(p, k, y, x, c, lo, hi) ==> lo <= ConvChannel(p, k, y, x, c) <= hi
  }

  lemma AveragingStaysInRange(k: Kernel)
    requires Averaging(k)
    ensures StaysInRange(k)
  {
    forall p: Picture, y, x, c: Channel, lo: Byte, hi: Byte | p.Has(y, x) && NeighboursBetween(p, k, y, x, c, lo, hi)
      ensures lo <= ConvChannel(p, k, y, x, c) <= hi
    {
      AveragingBound(p, k, y, x, c, lo, hi);
    }
  }

  // ---- constant pictures ----------------------------------------------------------------------

  ghost predicate Constant(p: Picture, v: Pixel) {
    forall y, x :: p.Has(y, x) ==> p.At(y, x) == v
  }

  lemma {:induction false} ConstantRow(p: Picture, k: Kernel, v: Pixel, y: int, x: int, filterY: nat, n: nat, c: Channel)
    requires filterY < k.size && n <= k.size && Constant(p, v)
    ensures RowSum(p, k, y, x, filterY, n, c) == v.Get(c) * RowWeight(k, filterY, n)
  {
    if n > 0 {
      ConstantRow(p, k, v, y, x, filterY, n - 1, c);
      assert Neighbour(p, k, y, x, filterY, n - 1) == v by {
        assert p.Has(Clamp(y + filterY - k.Padding(), p.height), Clamp(x + (n - 1) - k.Padding(), p.width));
      }
      Distribute(v.Get(c), RowWeight(k, filterY, n - 1), k.Weight(filterY, n - 1));
    }
  }

  lemma {:induction false} ConstantWindow(p: Picture, k: Kernel, v: Pixel, y: int, x: int, m: nat, c: Channel)
    requires m <= k.size && Constant(p, v)
    ensures WindowSum(p, k, y, x, m, k.size, c) == v.Get(c) * WeightSum(k, m)
  {
    if m > 0 {
      ConstantWindow(p, k, v, y, x, m - 1, c);
      ConstantRow(p, k, v, y, x, m - 1, k.size, c);
      Distribute(v.Get(c), WeightSum(k, m - 1), RowWeight(k, m - 1, k.size));
    }
  }

  /** Every constant picture of any size is left as it is. */
  ghost predicate FixesConstants(k: Kernel) {
    forall p: Picture, v: Pixel :: Constant(p, v) ==> Conv(p, k) == p
  }

  /** What the kernel makes of a picture of one colour channel value. */
  function OnConstant(k: Kernel, v: Byte): Byte {
    Quantise(k, v * WeightSum(k, k.size))
  }

  lemma FixesValue(k: Kernel, v: Byte)
    requires FixesConstants(k)
    ensures OnConstant(k, v) == v
  {
    var p: Picture := Raster(1, 1, [[Pixel(v, v, v)]]);
    assert Constant(p, Pixel(v, v, v));
    ConstantWindow(p, k, Pixel(v, v, v), 0, 0, k.size, Blue);
    assert p.Has(0, 0) && Conv(p, k).At(0, 0) == p.At(0, 0);
  }

  lemma ConstantPixel(p: Picture, k: Kernel, v: Pixel, y: int, x: int)
    requires Constant(p, v)
    ensures ConvAt(p, k, y, x) == Pixel(OnConstant(k, v.blue), OnConstant(k, v.green), OnConstant(k, v.red))
  {
    ConstantWindow(p, k, v, y, x, k.size, Blue);
    ConstantWindow(p, k, v, y, x, k.size, Green);
    ConstantWindow(p, k, v, y, x, k.size, Red);
  }

  /** Constant pictures are fixed points exactly when every single channel value is. */
  lemma FixesConstantsIff(k: Kernel)
    ensures FixesConstants(k) <==> forall v: Byte :: OnConstant(k, v) == v
  {
    if FixesConstants(k) {
      forall v: Byte
        ensures OnConstant(k, v) == v
      {
        FixesValue(k, v);
      }
    }
    if forall v: Byte :: OnConstant(k, v) == v {
      forall p: Picture, v: Pixel | Constant(p, v)
        ensures Conv(p, k) == p
      {
        forall y, x | p.Has(y, x)
          ensures Conv(p, k).At(y, x) == p.At(y, x)
        {
          ConstantPixel(p, k, v, y, x);
        }
        SamePixels(Conv(p, k), p);
      }
    }
  }

  // ---- the shipped kernels --------------------------------------------------------------------

  lemma NonNegativeTables()
    ensures NonNegative(MOTION_BLUR) && NonNegative(BLUR) && NonNegative(GAUS_BLUR) && NonNegative(IDENTITY)
  {
  }

  lemma NonNegativeGaussians()
    ensures NonNegative(MED_GAUS) && NonNegative(BOX_BLUR)
  {
  }

  predicate NonNegativeRow(row: seq<int>) {
    forall j :: 0 <= j < |row| ==> 0 <= row[j]
  }

  lemma NonNegativeRows(t: seq<seq<int>>)
    requires |t| == 15 && forall i :: 0 <= i <= 7 ==> t[14 - i] == t[i] && NonNegativeRow(t[i])
    ensures NonNegative(t)
  {
    forall i | 0 <= i < 15
      ensures NonNegativeRow(t[i])
    {
      if i > 7 {
        assert t[14 - (14 - i)] == t[14 - i];
      }
    }
  }

  lemma NonNegativeBigGaussian()
    ensures NonNegative(BIG_GAUS)
  {
    BigGausTable();
    var t := BIG_GAUS;
    assert NonNegativeRow(t[0]) && NonNegativeRow(t[1]) && NonNegativeRow(t[2]) && NonNegativeRow(t[3]);
    assert NonNegativeRow(t[4]) && NonNegativeRow(t[5]) && NonNegativeRow(t[6]) && NonNegativeRow(t[7]);
    NonNegativeRows(t);
  }

  lemma NonNegativeWeights(name: string)
    requires name in {"mb", "bb", "gb", "co", "gg", "mg", "bo"}
    ensures FilterByName(name).Some? && NonNegative(FilterByName(name).value.table)
  {
    NonNegativeTables();
    NonNegativeGaussians();
    NonNegativeBigGaussian();
  }

  /** Exactly these five shipped kernels average; "gg" and "mg" are not normalised by their divisor. */
  lemma ShippedAveraging(name: string)
    requires FilterByName(name).Some?
    ensures FilterByName(name).value.Valid()
    ensures Averaging(FilterByName(name).value) <==> name in {"mb", "bb", "gb", "co", "bo"}
  {
    ShippedKernels(name);
    ShippedWeightSums(name);
    if name in {"mb", "bb", "gb", "co", "gg", "mg", "bo"} {
      NonNegativeWeights(name);
    } else {
      assert FilterByName(name).value.table[0][0] == -1;
    }
  }

  lemma ScaledFixed(k: Kernel)
    requires k.bias == 0 && WeightSum(k, k.size) == k.divisor
    ensures FixesConstants(k)
  {
    forall v: Byte
      ensures OnConstant(k, v) == v
    {
      ScaledValue(k, v);
    }
    FixesConstantsIff(k);
  }

  lemma BrightensGrey(k: Kernel)
    requires 101 * k.divisor <= 100 * WeightSum(k, k.size) + k.bias * k.divisor <= 300 * k.divisor
    ensures !FixesConstants(k)
  {
    RoundBetween(100 * WeightSum(k, k.size) + k.bias * k.divisor, k.divisor, 101, 300);
    assert OnConstant(k, 100) != 100;
    FixesConstantsIff(k);
  }

  /** Exactly the shipped kernels whose weights sum to their divisor leave constant pictures alone. */
  lemma ShippedFixesConstants(name: string)
    requires FilterByName(name).Some?
    ensures FilterByName(name).value.Valid()
    ensures FixesConstants(FilterByName(name).value) <==> name in {"mb", "bb", "gb", "co", "bo", "sh"}
  {
    ShippedKernels(name);
    ShippedWeightSums(name);
    var k: Kernel := FilterByName(name).value;
    if name in {"mb", "bb", "gb", "co", "bo", "sh"} {
      ScaledFixed(k);
    } else {
      BrightensGrey(k);
    }
  }

  lemma ConstantNeighbours(p: Picture, k: Kernel, v: Pixel, y: int, x: int, c: Channel)
    requires Constant(p, v)
    ensures NeighboursBetween(p, k, y, x, c, v.Get(c), v.Get(c))
  {
    forall i: nat, j: nat | i < k.size && j < k.size
      ensures Neighbour(p, k, y, x, i, j) == v
    {
      assert p.Has(Clamp(y + i - k.Padding(), p.height), Clamp(x + j - k.Padding(), p.width));
    }
  }

  /** A kernel that stays in range cannot change a constant picture. */
  lemma StaysInRangeFixes(k: Kernel)
    requires StaysInRange(k)
    ensures FixesConstants(k)
  {
    forall p: Picture, v: Pixel | Constant(p, v)
      ensures Conv(p, k) == p
    {
      forall y, x | p.Has(y, x)
        ensures Conv(p, k).At(y, x) == p.At(y, x)
      {
        forall c: Channel
          ensures ConvChannel(p, k, y, x, c) == v.Get(c)
        {
          ConstantNeighbours(p, k, v, y, x, c);
        }
        assert ConvAt(p, k, y, x) == Pixel(v.Get(Blue), v.Get(Green), v.Get(Red)) == v;
      }
      SamePixels(Conv(p, k), p);
    }
  }

  /** A weight larger than the divisor makes a lone bright pixel brighter than anything in its window. */
  lemma HeavyWeightLeavesRange(k: Kernel, i: nat, j: nat)
    requires i < k.size && j < k.size && 2 * k.size < UINT16_MAX && k.bias == 0
    requires 2 * k.divisor <= k.Weight(i, j) <= 255 * k.divisor
    ensures !StaysInRange(k)
  {
    var p, y, x := BrightDot(k.size), k.size - i + k.Padding(), k.size - j + k.Padding();
    DotUnderWeight(k, i, j);
    DotSum(k, i, j, y, x);
    RoundBetween(k.Weight(i, j), k.divisor, 2, 255);
    assert NeighboursBetween(p, k, y, x, Blue, 0, 1);
    assert ConvChannel(p, k, y, x, Blue) >= 2;
  }

  /** Exactly the five averaging kernels never leave the range of the neighbourhood. */
  lemma ShippedStayInRange(name: string)
    requires FilterByName(name).Some?
    ensures FilterByName(name).value.Valid()
    ensures StaysInRange(FilterByName(name).value) <==> name in {"mb", "bb", "gb", "co", "bo"}
  {
    ShippedAveraging(name);
    var k: Kernel := FilterByName(name).value;
    if name in {"mb", "bb", "gb", "co", "bo"} {
      AveragingStaysInRange(k);
    } else if name == "sh" {
      HeavyWeightLeavesRange(k, 1, 1);
    } else {
      ShippedFixesConstants(name);
      if StaysInRange(k) {
        StaysInRangeFixes(k);
      }
    }
  }

  // ---- what the shipped kernels do ------------------------------------------------------------

  lemma {:induction false} WeightlessRow(p: Picture, k: Kernel, y: int, x: int, filterY: nat, n: nat, c: Channel)
    requires filterY < k.size && n <= k.size && forall j :: 0 <= j < k.size ==> k.Weight(filterY, j) == 0
    ensures RowSum(p, k, y, x, filterY, n, c) == 0
  {
    if n > 0 {
      WeightlessRow(p, k, y, x, filterY, n - 1, c);
    }
  }

  /** The sum of the identity kernel is the pixel in the centre. */
  lemma IdentitySum(p: Picture, k: Kernel, y: int, x: int, c: Channel)
    requires k == KernelData(3, 1, 0, IDENTITY) && p.Has(y, x)
    ensures WindowSum(p, k, y, x, 3, 3, c) == p.At(y, x).Get(c)
  {
    assert forall j :: 0 <= j < 3 ==> k.Weight(0, j) == 0 && k.Weight(2, j) == 0;
    WeightlessRow(p, k, y, x, 0, 3, c);
    WeightlessRow(p, k, y, x, 2, 3, c);
    assert k.Weight(1, 0) == 0 && k.Weight(1, 1) == 1 && k.Weight(1, 2) == 0;
    assert Neighbour(p, k, y, x, 1, 1) == p.At(y, x);
    assert RowSum(p, k, y, x, 1, 1, c) == 0;
    assert RowSum(p, k, y, x, 1, 2, c) == p.At(y, x).Get(c);
    assert RowSum(p, k, y, x, 1, 3, c) == p.At(y, x).Get(c);
    assert WindowSum(p, k, y, x, 1, 3, c) == 0;
    assert WindowSum(p, k, y, x, 2, 3, c) == p.At(y, x).Get(c);
  }

  /** "co" leaves every picture as it is. */
  lemma IdentityFilter(p: Picture)
    ensures FilterByName("co").Some? && FilterByName("co").value.Valid()
    ensures Conv(p, FilterByName("co").value) == p
  {
    ShippedKernels("co");
    var k: Kernel := FilterByName("co").value;
    forall y, x | p.Has(y, x)
      ensures Conv(p, k).At(y, x) == p.At(y, x)
    {
      forall c: Channel
        ensures ConvChannel(p, k, y, x, c) == p.At(y, x).Get(c)
      {
        IdentitySum(p, k, y, x, c);
        NearestUnique(p.At(y, x).Get(c), 1, p.At(y, x).Get(c));
      }
      assert ConvAt(p, k, y, x) == p.At(y, x);
    }
    SamePixels(Conv(p, k), p);
  }

  lemma UnbiasedValue(k: Kernel, weight: int, v: Byte)
    requires k.bias == 0 && WeightSum(k, k.size) == weight
    ensures OnConstant(k, v) == Saturate(RoundQuotient(weight * v, k.divisor))
  {
  }

  lemma BiasedValue(k: Kernel, v: Byte)
    requires k.bias == 128 && k.divisor == 1 && WeightSum(k, k.size) == 0
    ensures OnConstant(k, v) == 128
  {
    NearestUnique(128, 1, 128);
  }

  lemma ScaledValue(k: Kernel, v: Byte)
    requires k.bias == 0 && WeightSum(k, k.size) == k.divisor
    ensures OnConstant(k, v) == v
  {
    RoundBetween(v * k.divisor, k.divisor, v, v);
  }

  /** "em" makes the grey 128 of every picture of one colour. */
  lemma EmbossOnConstant(v: Byte)
    ensures FilterByName("em").Some? && FilterByName("em").value.Valid() && OnConstant(FilterByName("em").value, v) == 128
  {
    ShippedKernels("em");
    ShippedWeightSums("em");
    BiasedValue(FilterByName("em").value, v);
  }

  /** "gg" and "mg" brighten it by the ratio of their weight sum to their divisor. */
  lemma BigGausOnConstant(v: Byte)
    ensures FilterByName("gg").Some? && FilterByName("gg").value.Valid()
            && OnConstant(FilterByName("gg").value, v) == Saturate(RoundQuotient(1349 * v, 771))
  {
    ShippedKernels("gg");
    ShippedWeightSums("gg");
    UnbiasedValue(FilterByName("gg").value, 1349, v);
  }

  lemma MedGausOnConstant(v: Byte)
    ensures FilterByName("mg").Some? && FilterByName("mg").value.Valid()
            && OnConstant(FilterByName("mg").value, v) == Saturate(RoundQuotient(227 * v, 213))
  {
    ShippedKernels("mg");
    ShippedWeightSums("mg");
    UnbiasedValue(FilterByName("mg").value, 227, v);
  }
}
