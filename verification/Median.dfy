/** The median filter: wrapped neighbourhoods, gathered into reused scratch arrays and selected in place. */
module Median {
  import opened Arithmetic
  import opened Pixels
  import opened Convolution
  import opened Selection

  /** C's `%` for a positive divisor: the remainder takes the sign of the dividend. */
  function CRem(a: int, b: nat): int
    requires 0 < b
  {
    if 0 <= a then a % b else -((-a) % b)
  }

  /** The index expression of the median filter, for position v and offset d along an axis. */
  function WrapIndex(v: int, d: int, length: nat): int
    requires 0 < length
  {
    CRem(v + d + length, length)
  }

  // ---- when the wrapped index stays inside the picture ----------------------------------------

  /** The index expression of the median filter stays inside an axis for every position and offset. */
  ghost predicate WrapStaysInside(half: nat, length: nat)
    requires 0 < length
  {
    forall v, d :: 0 <= v < length && -(half as int) <= d <= half ==> 0 <= WrapIndex(v, d, length) < length
  }

  /** It does exactly when the axis is at least half a window long, or has a single element. */
  lemma WrapStaysInsideIff(half: nat, length: nat)
    requires 0 < length
    ensures WrapStaysInside(half, length) <==> length == 1 || half <= length
  {
    if length != 1 && length < half {
      var d := -(length as int) - 1;
      assert WrapIndex(0, d, length) == -1;
    }
  }

  lemma WrapIsModulo(half: nat, length: nat, v: int, d: int)
    requires 0 <= v < length && -(half as int) <= d <= half && (length == 1 || half <= length)
    ensures WrapIndex(v, d, length) == (v + d) % length
  {
    if length == 1 {
      ModuloOne(v + d);
      ModuloOne(v + d + length);
      ModuloOne(-(v + d + length));
    } else {
      ModuloShift(v + d, length);
    }
  }

  // ---- the neighbourhood and its median -------------------------------------------------------

  function Sample(p: Picture, y: int, x: int, dy: int, dx: int, c: Channel): Byte {
    p.At((y + dy) % p.height, (x + dx) % p.width).Get(c)
  }

  /** The first n samples of one row of the window, left to right. */
  function WindowRow(p: Picture, y: int, x: int, dy: int, half: nat, n: nat, c: Channel): (s: seq<Byte>)
    ensures |s| == n
  {
    if n == 0 then [] else WindowRow(p, y, x, dy, half, n - 1, c) + [Sample(p, y, x, dy, n - 1 - half, c)]
  }

  /** The number of samples in m rows of the window. */
  function RowsLength(half: nat, m: nat): nat {
    if m == 0 then 0 else RowsLength(half, m - 1) + (2 * half + 1)
  }

  function Area(half: nat): nat {
    RowsLength(half, 2 * half + 1)
  }

  lemma {:induction false} RowsLengthIsProduct(half: nat, m: nat)
    ensures RowsLength(half, m) == m * (2 * half + 1)
  {
    if m > 0 {
      RowsLengthIsProduct(half, m - 1);
      Distribute(2 * half + 1, m - 1, 1);
    }
  }

  lemma {:induction false} RowsLengthGrows(half: nat, m: nat, n: nat)
    requires m <= n
    ensures RowsLength(half, m) <= RowsLength(half, n)
  {
    if m < n {
      RowsLengthGrows(half, m, n - 1);
    }
  }

  /** The first m rows of the window, top to bottom. */
  function WindowRows(p: Picture, y: int, x: int, half: nat, m: nat, c: Channel): (s: seq<Byte>)
    ensures |s| == RowsLength(half, m)
  {
    if m == 0 then []
    else WindowRows(p, y, x, half, m - 1, c) + WindowRow(p, y, x, m - 1 - half, half, 2 * half + 1, c)
  }

  function Window(p: Picture, y: int, x: int, half: nat, c: Channel): (s: seq<Byte>)
    ensures |s| == Area(half)
  {
    WindowRows(p, y, x, half, 2 * half + 1, c)
  }

  lemma {:induction false} WindowRowAt(p: Picture, y: int, x: int, dy: int, half: nat, n: nat, c: Channel, j: nat)
    requires j < n
    ensures WindowRow(p, y, x, dy, half, n, c)[j] == Sample(p, y, x, dy, j - half, c)
  {
    if j < n - 1 {
      WindowRowAt(p, y, x, dy, half, n - 1, c, j);
    }
  }

  lemma SlicesOfSum(a: seq<Byte>, b: seq<Byte>, i: nat, j: nat)
    requires i <= j <= |a|
    ensures (a + b)[i..j] == a[i..j] && (a + b)[|a|..|a| + |b|] == b
  {
  }

  /** The samples of a row of the window stand behind those of the rows before it. */
  lemma {:induction false} WindowRowStands(p: Picture, y: int, x: int, half: nat, m: nat, c: Channel, i: nat, length: nat)
    requires i < m && length == 2 * half + 1
    ensures RowsLength(half, i) + length <= RowsLength(half, m)
    ensures WindowRows(p, y, x, half, m, c)[RowsLength(half, i)..RowsLength(half, i) + length]
         == WindowRow(p, y, x, i - half, half, length, c)
  {
    var before, last := WindowRows(p, y, x, half, m - 1, c), WindowRow(p, y, x, m - 1 - half, half, length, c);
    if i < m - 1 {
      WindowRowStands(p, y, x, half, m - 1, c, i, length);
      SlicesOfSum(before, last, RowsLength(half, i), RowsLength(half, i) + length);
    } else {
      SlicesOfSum(before, last, 0, 0);
    }
  }

  /** What is in the window: the pixel of row i and column j, counted from the corner, wrapped around the picture. */
  lemma WindowAt(p: Picture, y: int, x: int, half: nat, c: Channel, i: nat, j: nat)
    requires i < 2 * half + 1 && j < 2 * half + 1
    ensures |Window(p, y, x, half, c)| == (2 * half + 1) * (2 * half + 1)
    ensures 0 <= i * (2 * half + 1) + j < |Window(p, y, x, half, c)|
    ensures Window(p, y, x, half, c)[i * (2 * half + 1) + j]
         == p.pixels[(y + i - half) % p.height][(x + j - half) % p.width].Get(c)
  {
    AreaIsSquare(half);
    RowsLengthIsProduct(half, i);
    WindowRowStands(p, y, x, half, 2 * half + 1, c, i, 2 * half + 1);
    WindowRowAt(p, y, x, i - half, half, 2 * half + 1, c, j);
    var at, row := RowsLength(half, i), WindowRow(p, y, x, i - half, half, 2 * half + 1, c);
    assert Window(p, y, x, half, c)[at..at + (2 * half + 1)][j] == row[j];
  }

  lemma SortOfBytes(s: seq<Byte>, k: nat)
    requires k < |s|
    ensures 0 <= Sort(s)[k] < 256
  {
    var j := SortedFrom(s, k);
  }

  /** The middle element of the sorted samples. */
  function MedianOf(s: seq<Byte>): Byte
    requires |s| > 0
  {
    SortOfBytes(s, |s| / 2);
    Sort(s)[|s| / 2]
  }

  lemma AreaIsSquare(half: nat)
    ensures Area(half) == (2 * half + 1) * (2 * half + 1) && 0 < Area(half)
  {
    RowsLengthIsProduct(half, 2 * half + 1);
  }

  lemma {:induction false} OddProduct(a: nat, m: nat)
    requires a % 2 == 1
    ensures RowsLength(a / 2, m) % 2 == m % 2
  {
    if m > 0 {
      OddProduct(a, m - 1);
    }
  }

  lemma AreaPositive(half: nat)
    ensures 0 < Area(half) && Area(half) % 2 == 1
  {
    OddProduct(2 * half + 1, 2 * half + 1);
  }

  function MedianAt(p: Picture, half: nat, y: int, x: int): Pixel {
    AreaPositive(half);
    Pixel(MedianOf(Window(p, y, x, half, Blue)), MedianOf(Window(p, y, x, half, Green)), MedianOf(Window(p, y, x, half, Red)))
  }

  // ---- what a median means --------------------------------------------------------------------

  function CountAtMost(s: seq<int>, v: int): nat {
    if s == [] then 0 else (if s[0] <= v then 1 else 0) + CountAtMost(s[1..], v)
  }

  function CountAtLeast(s: seq<int>, v: int): nat {
    if s == [] then 0 else (if v <= s[0] then 1 else 0) + CountAtLeast(s[1..], v)
  }

  lemma {:induction false} CountInsert(x: int, s: seq<int>, v: int)
    ensures CountAtMost(Insert(x, s), v) == (if x <= v then 1 else 0) + CountAtMost(s, v)
    ensures CountAtLeast(Insert(x, s), v) == (if v <= x then 1 else 0) + CountAtLeast(s, v)
  {
    if s != [] && x > s[0] {
      CountInsert(x, s[1..], v);
      assert Insert(x, s)[1..] == Insert(x, s[1..]);
    } else {
      assert Insert(x, s)[1..] == s;
    }
  }

  lemma {:induction false} CountSort(s: seq<int>, v: int)
    ensures CountAtMost(Sort(s), v) == CountAtMost(s, v) && CountAtLeast(Sort(s), v) == CountAtLeast(s, v)
  {
    if s != [] {
      CountSort(s[1..], v);
      CountInsert(s[0], Sort(s[1..]), v);
    }
  }

  lemma {:induction false} CountSorted(s: seq<int>, k: nat)
    requires Sorted(s) && k < |s|
    ensures k < CountAtMost(s, s[k]) && |s| - k <= CountAtLeast(s, s[k])
  {
    if k > 0 {
      CountSorted(s[1..], k - 1);
    } else {
      AllAtLeast(s, s[0]);
    }
  }

  lemma {:induction false} AllAtLeast(s: seq<int>, v: int)
    requires forall i :: 0 <= i < |s| ==> v <= s[i]
    ensures CountAtLeast(s, v) == |s|
  {
    if s != [] {
      AllAtLeast(s[1..], v);
    }
  }

  /** More than half the samples are at most the median, and more than half are at least it. */
  lemma MedianHalves(s: seq<Byte>)
    requires |s| % 2 == 1
    ensures |s| < 2 * CountAtMost(s, MedianOf(s)) && |s| < 2 * CountAtLeast(s, MedianOf(s))
  {
    SortSorts(s);
    CountSorted(Sort(s), |s| / 2);
    CountSort(s, MedianOf(s));
  }

  /** `apply_median_filter` writes true medians of the wrapped neighbourhood, in every channel. */
  lemma MedianAtHalves(p: Picture, half: nat, y: int, x: int, c: Channel)
    ensures Area(half) < 2 * CountAtMost(Window(p, y, x, half, c), MedianAt(p, half, y, x).Get(c))
    ensures Area(half) < 2 * CountAtLeast(Window(p, y, x, half, c), MedianAt(p, half, y, x).Get(c))
  {
    AreaPositive(half);
    MedianHalves(Window(p, y, x, half, c));
  }

  function PositionsAtMost(s: seq<int>, v: int): set<nat> {
    set n: nat | n < |s| && s[n] <= v
  }

  function PositionsAtLeast(s: seq<int>, v: int): set<nat> {
    set n: nat | n < |s| && v <= s[n]
  }

  /** The counts are numbers of positions. */
  lemma {:induction false} CountIsPositionsAtMost(s: seq<int>, v: int)
    ensures CountAtMost(s, v) == |PositionsAtMost(s, v)|
  {
    if s == [] {
      assert PositionsAtMost(s, v) == {};
    } else {
      var m := |s| - 1;
      var front := s[..m];
      CountIsPositionsAtMost(front, v);
      CountsOfLast(front, s[m], v);
      assert s == front + [s[m]];
      assert PositionsAtMost(s, v) == PositionsAtMost(front, v) + if s[m] <= v then {m} else {};
    }
  }

  lemma {:induction false} CountIsPositionsAtLeast(s: seq<int>, v: int)
    ensures CountAtLeast(s, v) == |PositionsAtLeast(s, v)|
  {
    if s == [] {
      assert PositionsAtLeast(s, v) == {};
    } else {
      var m := |s| - 1;
      var front := s[..m];
      CountIsPositionsAtLeast(front, v);
      CountsOfLast(front, s[m], v);
      assert s == front + [s[m]];
      assert PositionsAtLeast(s, v) == PositionsAtLeast(front, v) + if v <= s[m] then {m} else {};
    }
  }

  lemma {:induction false} CountsOfLast(s: seq<int>, a: int, v: int)
    ensures CountAtMost(s + [a], v) == CountAtMost(s, v) + if a <= v then 1 else 0
    ensures CountAtLeast(s + [a], v) == CountAtLeast(s, v) + if v <= a then 1 else 0
  {
    if s == [] {
      assert s + [a] == [a];
    } else {
      CountsOfLast(s[1..], a, v);
      assert (s + [a])[1..] == s[1..] + [a];
    }
  }

  // ---- the loops ------------------------------------------------------------------------------

  /** Reads the pixel under one offset of the window. */
  method ReadWrapped(input: Picture, y: nat, x: nat, filterY: int, filterX: int, half: nat) returns (original: Pixel)
    requires input.Has(y, x) && -(half as int) <= filterY <= half && -(half as int) <= filterX <= half
    requires input.width == 1 || half <= input.width
    requires input.height == 1 || half <= input.height
    ensures forall c: Channel :: original.Get(c) == Sample(input, y, x, filterY, filterX, c)
  {
    WrapIsModulo(half, input.width, x, filterX);
    WrapIsModulo(half, input.height, y, filterY);
    var imageX := WrapIndex(x, filterX, input.width);
    var imageY := WrapIndex(y, filterY, input.height);
    original := input.At(imageY, imageX);
  }

  /** Appends one row of the window to each scratch array, from position n on. */
  method StoreSample(original: Pixel, n: nat, red: array<int>, green: array<int>, blue: array<int>)
    requires n < red.Length && red.Length == green.Length == blue.Length
    requires red != green && green != blue && red != blue
    modifies red, green, blue
    ensures red[..n + 1] == old(red[..n]) + [original.red]
    ensures green[..n + 1] == old(green[..n]) + [original.green]
    ensures blue[..n + 1] == old(blue[..n]) + [original.blue]
  {
    red[n], green[n], blue[n] := original.red, original.green, original.blue;
  }

  /** Behind what stood there before, the three sequences are the first n samples of a row of the window. */
  predicate HoldSamples(red: seq<int>, green: seq<int>, blue: seq<int>, red0: seq<int>, green0: seq<int>, blue0: seq<int>,
                        p: Picture, y: nat, x: nat, filterY: int, half: nat, n: nat) {
    && red == red0 + WindowRow(p, y, x, filterY, half, n, Red)
    && green == green0 + WindowRow(p, y, x, filterY, half, n, Green)
    && blue == blue0 + WindowRow(p, y, x, filterY, half, n, Blue)
  }

  /** Collects one more sample. */
  method CollectSample(input: Picture, y: nat, x: nat, filterY: int, filterX: int, half: nat, n: nat, red: array<int>, green: array<int>, blue: array<int>,
                       ghost red0: seq<int>, ghost green0: seq<int>, ghost blue0: seq<int>)
    requires input.Has(y, x) && -(half as int) <= filterY <= half && -(half as int) <= filterX <= half
    requires input.width == 1 || half <= input.width
    requires input.height == 1 || half <= input.height
    requires n < red.Length && red.Length == green.Length == blue.Length
    requires red != green && green != blue && red != blue
    requires HoldSamples(red[..n], green[..n], blue[..n], red0, green0, blue0, input, y, x, filterY, half, filterX + half)
    modifies red, green, blue
    ensures HoldSamples(red[..n + 1], green[..n + 1], blue[..n + 1], red0, green0, blue0, input, y, x, filterY, half, filterX + half + 1)
  {
    var original := ReadWrapped(input, y, x, filterY, filterX, half);
    StoreSample(original, n, red, green, blue);
  }

  method CollectRow(input: Picture, y: nat, x: nat, filterY: int, half: nat, start: nat, red: array<int>, green: array<int>, blue: array<int>)
    requires input.Has(y, x) && -(half as int) <= filterY <= half
    requires input.width == 1 || half <= input.width
    requires input.height == 1 || half <= input.height
    requires start + 2 * half + 1 <= red.Length && red.Length == green.Length == blue.Length
    requires red != green && green != blue && red != blue
    modifies red, green, blue
    ensures HoldSamples(red[..start + 2 * half + 1], green[..start + 2 * half + 1], blue[..start + 2 * half + 1],
                        old(red[..start]), old(green[..start]), old(blue[..start]), input, y, x, filterY, half, 2 * half + 1)
  {
    ghost var red0, green0, blue0 := red[..start], green[..start], blue[..start];
    var n := start;
    for filterX := -(half as int) to half + 1
      invariant n == start + filterX + half
      invariant HoldSamples(red[..n], green[..n], blue[..n], red0, green0, blue0, input, y, x, filterY, half, filterX + half)
    {
      CollectSample(input, y, x, filterY, filterX, half, n, red, green, blue, red0, green0, blue0);
      n := n + 1;
    }
  }

  /** The three sequences are the first m rows of the window, channel by channel. */
  predicate HoldRows(red: seq<int>, green: seq<int>, blue: seq<int>, p: Picture, y: nat, x: nat, half: nat, m: nat) {
    red == WindowRows(p, y, x, half, m, Red) && green == WindowRows(p, y, x, half, m, Green) && blue == WindowRows(p, y, x, half, m, Blue)
  }

  /** Collects one more row. */
  method CollectNext(input: Picture, y: nat, x: nat, half: nat, m: nat, n: nat, red: array<int>, green: array<int>, blue: array<int>)
    requires input.Has(y, x) && m < 2 * half + 1
    requires input.width == 1 || half <= input.width
    requires input.height == 1 || half <= input.height
    requires red.Length == green.Length == blue.Length == Area(half) && n == RowsLength(half, m) <= Area(half)
    requires red != green && green != blue && red != blue
    requires HoldRows(red[..n], green[..n], blue[..n], input, y, x, half, m)
    modifies red, green, blue
    ensures var e := n + (2 * half + 1);
            e == RowsLength(half, m + 1) <= Area(half) && HoldRows(red[..e], green[..e], blue[..e], input, y, x, half, m + 1)
  {
    RowsLengthGrows(half, m + 1, 2 * half + 1);
    CollectRow(input, y, x, m - half, half, n, red, green, blue);
  }

  /** Collects the neighbourhood of one pixel into the scratch arrays, whatever they held before. */
  method Collect(input: Picture, y: nat, x: nat, half: nat, red: array<int>, green: array<int>, blue: array<int>)
    requires input.Has(y, x)
    requires input.width == 1 || half <= input.width
    requires input.height == 1 || half <= input.height
    requires red.Length == green.Length == blue.Length == Area(half)
    requires red != green && green != blue && red != blue
    modifies red, green, blue
    ensures red[..] == Window(input, y, x, half, Red)
    ensures green[..] == Window(input, y, x, half, Green)
    ensures blue[..] == Window(input, y, x, half, Blue)
  {
    var n := 0;
    for filterY := -(half as int) to half + 1
      invariant n == RowsLength(half, filterY + half) <= red.Length
      invariant HoldRows(red[..n], green[..n], blue[..n], input, y, x, half, filterY + half)
    {
      CollectNext(input, y, x, half, filterY + half, n, red, green, blue);
      n := n + (2 * half + 1);
    }
    WholeWindow(red[..n], green[..n], blue[..n], input, y, x, half);
    assert red[..] == red[..n] && green[..] == green[..n] && blue[..] == blue[..n];
  }

  lemma WholeWindow(red: seq<int>, green: seq<int>, blue: seq<int>, p: Picture, y: nat, x: nat, half: nat)
    requires HoldRows(red, green, blue, p, y, x, half, 2 * half + 1)
    ensures red == Window(p, y, x, half, Red) && green == Window(p, y, x, half, Green) && blue == Window(p, y, x, half, Blue)
  {
  }

  /** Selects the middle element of one scratch array, which it reorders. */
  method SelectMiddle(data: array<int>, ghost s: seq<Byte>) returns (m: int)
    requires data[..] == s && |s| > 0
    modifies data
    ensures m == MedianOf(s)
  {
    assert data[0..data.Length] == s;
    m := SelectKth(data, 0, data.Length, data.Length / 2);
  }

  /** One output pixel: gathers the three channels and selects their middle elements in place. */
  method MedianPixel(input: Picture, y: nat, x: nat, half: nat, red: array<int>, green: array<int>, blue: array<int>) returns (v: Pixel)
    requires input.Has(y, x)
    requires input.width == 1 || half <= input.width
    requires input.height == 1 || half <= input.height
    requires red.Length == green.Length == blue.Length == Area(half)
    requires red != green && green != blue && red != blue
    modifies red, green, blue
    ensures v == MedianAt(input, half, y, x)
  {
    AreaPositive(half);
    Collect(input, y, x, half, red, green, blue);
    var r := SelectMiddle(red, Window(input, y, x, half, Red));
    var g := SelectMiddle(green, Window(input, y, x, half, Green));
    var b := SelectMiddle(blue, Window(input, y, x, half, Blue));
    v := Pixel(b, g, r);
  }

  /** Writes one output pixel. */
  method WriteMedian(half: nat, input: Picture, output: array2<Pixel>, y: nat, x: nat, red: array<int>, green: array<int>, blue: array<int>)
    requires output.Length0 == input.height && output.Length1 == input.width && input.Has(y, x)
    requires input.width == 1 || half <= input.width
    requires input.height == 1 || half <= input.height
    requires red.Length == green.Length == blue.Length == Area(half)
    requires red != green && green != blue && red != blue
    modifies output, red, green, blue
    ensures forall i, j :: input.Has(i, j) ==> output[i, j] == if i == y && j == x then MedianAt(input, half, i, j) else old(output[i, j])
  {
    var median := MedianPixel(input, y, x, half, red, green, blue);
    output[y, x] := median;
  }

  /** One row of the region, with the scratch arrays reused from pixel to pixel. */
  method MedianRow(region: Region, half: nat, input: Picture, output: array2<Pixel>, y: nat, red: array<int>, green: array<int>, blue: array<int>)
    requires output.Length0 == input.height && output.Length1 == input.width
    requires region.Within(input.width, input.height) && y < region.endRow
    requires input.width == 1 || half <= input.width
    requires input.height == 1 || half <= input.height
    requires red.Length == green.Length == blue.Length == Area(half)
    requires red != green && green != blue && red != blue
    modifies output, red, green, blue
    ensures forall i, j :: input.Has(i, j) ==>
      output[i, j] == if i == y && region.startColumn <= j < region.endColumn then MedianAt(input, half, i, j) else old(output[i, j])
  {
    var x := region.startColumn;
    while x < region.endColumn
      invariant region.startColumn <= x
      invariant forall i, j :: input.Has(i, j) ==>
        output[i, j] == if i == y && region.startColumn <= j < x && j < region.endColumn then MedianAt(input, half, i, j) else old(output[i, j])
    {
      WriteMedian(half, input, output, y, x, red, green, blue);
      x := x + 1;
    }
  }

  /** The rows of the region. */
  method MedianRegion(region: Region, half: nat, input: Picture, output: array2<Pixel>, red: array<int>, green: array<int>, blue: array<int>)
    requires output.Length0 == input.height && output.Length1 == input.width
    requires region.Within(input.width, input.height)
    requires input.width == 1 || half <= input.width
    requires input.height == 1 || half <= input.height
    requires red.Length == green.Length == blue.Length == Area(half)
    requires red != green && green != blue && red != blue
    modifies output, red, green, blue
    ensures forall y, x :: input.Has(y, x) ==>
      output[y, x] == if region.Covers(y, x) then MedianAt(input, half, y, x) else old(output[y, x])
  {
    var y := region.startRow;
    while y < region.endRow
      invariant region.startRow <= y
      invariant forall i, j :: input.Has(i, j) ==>
        output[i, j] == if region.Covers(i, j) && i < y then MedianAt(input, half, i, j) else old(output[i, j])
    {
      MedianRow(region, half, input, output, y, red, green, blue);
      y := y + 1;
    }
  }

  /** `apply_median_filter`: an even size leaves the output alone, an odd one writes medians over the region. */
  method ApplyMedianFilter(region: Region, filterSize: nat, input: Picture, output: array2<Pixel>)
    requires output.Length0 == input.height && output.Length1 == input.width
    requires region.Within(input.width, input.height)
    requires filterSize % 2 == 1 ==> input.width == 1 || filterSize / 2 <= input.width
    requires filterSize % 2 == 1 ==> input.height == 1 || filterSize / 2 <= input.height
    modifies output
    ensures forall y, x :: input.Has(y, x) ==>
      output[y, x] == if filterSize % 2 == 1 && region.Covers(y, x) then MedianAt(input, filterSize / 2, y, x) else old(output[y, x])
  {
    if filterSize % 2 == 0 || filterSize < 1 {
      return;
    }
    var half := filterSize / 2;
    AreaIsSquare(half);
    var filterArea := filterSize * filterSize;
    var red, green, blue := new int[filterArea], new int[filterArea], new int[filterArea];
    MedianRegion(region, half, input, output, red, green, blue);
  }
}
