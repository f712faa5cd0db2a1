/** The convolution kernels the program ships and the arithmetic of one output channel. */
module Kernels {
  import opened Arithmetic
  import opened Options
  import opened Pixels

  /** A square integer table with the integer whose reciprocal is the scale factor, and a bias. */
  datatype KernelData = KernelData(size: nat, divisor: nat, bias: int, table: seq<seq<int>>) {
    predicate Valid() {
      0 < size && 0 < divisor && |table| == size && forall i :: 0 <= i < size ==> |table[i]| == size
    }

    function Weight(filterY: int, filterX: int): int
      requires Valid() && 0 <= filterY < size && 0 <= filterX < size
    {
      table[filterY][filterX]
    }

    /** `cfilter.size / 2`: how far the window reaches above and to the left of its pixel. */
    function Padding(): nat {
      size / 2
    }
  }

  type Kernel = k: KernelData | k.Valid() witness KernelData(1, 1, 0, [[1]])

  // ---- one output channel -------------------------------------------------------------------

  /** C's `round`: the nearest integer to n / d, halves away from zero. */
  function RoundQuotient(n: int, d: nat): (r: int)
    requires 0 < d
    ensures -(d as int) <= 2 * (n - r * d) <= d
    ensures 2 * (n - r * d) == d ==> r < 0
    ensures 2 * (n - r * d) == -(d as int) ==> 0 < r
  {
    if 0 <= n then (2 * n + d) / (2 * d) else -((d - 2 * n) / (2 * d))
  }

  /** `fmin(fmax(v, 0.0), 255.0)`. */
  function Saturate(v: int): (b: Byte)
    ensures b == v || (v < 0 && b == 0) || (255 < v && b == 255)
  {
    if v < 0 then 0 else if 255 < v then 255 else v
  }

  /** The byte written for an accumulated weighted sum. */
  function Quantise(k: Kernel, acc: int): Byte {
    Saturate(RoundQuotient(acc + k.bias * k.divisor, k.divisor))
  }

  /** Rounding is monotone, so a quotient between two integers rounds to something between them. */
  lemma RoundBetween(n: int, d: nat, lo: int, hi: int)
    requires 0 < d && lo * d <= n <= hi * d
    ensures lo <= RoundQuotient(n, d) <= hi
  {
    var r := RoundQuotient(n, d);
    if r < lo {
      FactorGap(d, r, lo);
      assert false;
    }
    if hi < r {
      FactorGap(d, hi, r);
      assert false;
    }
  }

  /** Strictly less than half a unit away from the quotient there is one integer only. */
  lemma NearestUnique(n: int, d: nat, r: int)
    requires -(d as int) < 2 * (n - r * d) < d
    ensures RoundQuotient(n, d) == r
  {
    var q := RoundQuotient(n, d);
    if q < r {
      FactorGap(d, q, r);
      assert false;
    }
    if r < q {
      FactorGap(d, r, q);
      assert false;
    }
  }

  /** With an odd divisor the exact quotient is never half-way between two integers. */
  lemma OddDivisorMeetsNoHalf(n: int, d: nat, m: int)
    requires d % 2 == 1
    ensures 2 * n != (2 * m + 1) * d
  {
    Distribute(d, 2 * m, 1);
    assert (2 * m + 1) * d == 2 * (m * d) + d;
  }

  // ---- the shipped tables ---------------------------------------------------------------------

  const MOTION_BLUR: seq<seq<int>> := [
    [1, 0, 0, 0, 0, 0, 0, 0, 0],
    [0, 1, 0, 0, 0, 0, 0, 0, 0],
    [0, 0, 1, 0, 0, 0, 0, 0, 0],
    [0, 0, 0, 1, 0, 0, 0, 0, 0],
    [0, 0, 0, 0, 1, 0, 0, 0, 0],
    [0, 0, 0, 0, 0, 1, 0, 0, 0],
    [0, 0, 0, 0, 0, 0, 1, 0, 0],
    [0, 0, 0, 0, 0, 0, 0, 1, 0],
    [0, 0, 0, 0, 0, 0, 0, 0, 1]]

  const BLUR: seq<seq<int>> := [
    [0, 0, 1, 0, 0],
    [0, 1, 1, 1, 0],
    [1, 1, 1, 1, 1],
    [0, 1, 1, 1, 0],
    [0, 0, 1, 0, 0]]

  const GAUS_BLUR: seq<seq<int>> := [
    [1, 4, 6, 4, 1],
    [4, 16, 24, 16, 4],
    [6, 24, 36, 24, 6],
    [4, 16, 24, 16, 4],
    [1, 4, 6, 4, 1]]

  const IDENTITY: seq<seq<int>> := [
    [0, 0, 0],
    [0, 1, 0],
    [0, 0, 0]]

  const SHARPEN: seq<seq<int>> := [
    [-1, -1, -1],
    [-1, 9, -1],
    [-1, -1, -1]]

  const EMBOSS: seq<seq<int>> := [
    [-1, -1, -1, -1, 0],
    [-1, -1, -1, 0, 1],
    [-1, -1, 0, 1, 1],
    [-1, 0, 1, 1, 1],
    [0, 1, 1, 1, 1]]

  const BIG_GAUS: seq<seq<int>> := [
    [2, 2, 3, 3, 4, 4, 5, 5, 5, 4, 4, 3, 3, 2, 2],
    [2, 3, 3, 4, 4, 5, 5, 6, 5, 5, 4, 4, 3, 3, 2],
    [3, 3, 4, 5, 5, 6, 6, 7, 6, 6, 5, 5, 4, 3, 3],
    [3, 4, 5, 6, 7, 7, 8, 8, 8, 7, 7, 6, 5, 4, 3],
    [4, 4, 5, 7, 8, 9, 9, 10, 9, 9, 8, 7, 5, 4, 4],
    [4, 5, 6, 7, 9, 10, 11, 11, 11, 10, 9, 7, 6, 5, 4],
    [5, 5, 6, 8, 9, 11, 12, 12, 12, 11, 9, 8, 6, 5, 5],
    [5, 6, 7, 8, 10, 11, 12, 13, 12, 11, 10, 8, 7, 6, 5],
    [5, 5, 6, 8, 9, 11, 12, 12, 12, 11, 9, 8, 6, 5, 5],
    [4, 5, 6, 7, 9, 10, 11, 11, 11, 10, 9, 7, 6, 5, 4],
    [4, 4, 5, 7, 8, 9, 9, 10, 9, 9, 8, 7, 5, 4, 4],
    [3, 4, 5, 6, 7, 7, 8, 8, 8, 7, 7, 6, 5, 4, 3],
    [3, 3, 4, 5, 5, 6, 6, 7, 6, 6, 5, 5, 4, 3, 3],
    [2, 3, 3, 4, 4, 5, 5, 6, 5, 5, 4, 4, 3, 3, 2],
    [2, 2, 3, 3, 4, 4, 5, 5, 5, 4, 4, 3, 3, 2, 2]]

  const MED_GAUS: seq<seq<int>> := [
    [1, 1, 2, 2, 2, 2, 2, 1, 1],
    [1, 2, 2, 3, 3, 3, 2, 2, 1],
    [2, 2, 3, 4, 5, 4, 3, 2, 2],
    [2, 3, 4, 5, 6, 5, 4, 3, 2],
    [2, 3, 5, 6, 7, 6, 5, 3, 2],
    [2, 3, 4, 5, 6, 5, 4, 3, 2],
    [2, 2, 3, 4, 5, 4, 3, 2, 2],
    [1, 2, 2, 3, 3, 3, 2, 2, 1],
    [1, 1, 2, 2, 2, 2, 2, 1, 1]]

  const BOX_BLUR: seq<seq<int>> := [
    [1, 1, 1, 1, 1, 1, 1, 1, 1, 1, 1, 1, 1, 1, 1],
    [1, 1, 1, 1, 1, 1, 1, 1, 1, 1, 1, 1, 1, 1, 1],
    [1, 1, 1, 1, 1, 1, 1, 1, 1, 1, 1, 1, 1, 1, 1],
    [1, 1, 1, 1, 1, 1, 1, 1, 1, 1, 1, 1, 1, 1, 1],
    [1, 1, 1, 1, 1, 1, 1, 1, 1, 1, 1, 1, 1, 1, 1],
    [1, 1, 1, 1, 1, 1, 1, 1, 1, 1, 1, 1, 1, 1, 1],
    [1, 1, 1, 1, 1, 1, 1, 1, 1, 1, 1, 1, 1, 1, 1],
    [1, 1, 1, 1, 1, 1, 1, 1, 1, 1, 1, 1, 1, 1, 1],
    [1, 1, 1, 1, 1, 1, 1, 1, 1, 1, 1, 1, 1, 1, 1],
    [1, 1, 1, 1, 1, 1, 1, 1, 1, 1, 1, 1, 1, 1, 1],
    [1, 1, 1, 1, 1, 1, 1, 1, 1, 1, 1, 1, 1, 1, 1],
    [1, 1, 1, 1, 1, 1, 1, 1, 1, 1, 1, 1, 1, 1, 1],
    [1, 1, 1, 1, 1, 1, 1, 1, 1, 1, 1, 1, 1, 1, 1],
    [1, 1, 1, 1, 1, 1, 1, 1, 1, 1, 1, 1, 1, 1, 1],
    [1, 1, 1, 1, 1, 1, 1, 1, 1, 1, 1, 1, 1, 1, 1]]

  /** The linear filter behind a command-line name; "mm" is the median filter and has no kernel. */
  function FilterByName(name: string): Option<KernelData> {
    if name == "mb" then Some(KernelData(9, 9, 0, MOTION_BLUR))
    else if name == "bb" then Some(KernelData(5, 13, 0, BLUR))
    else if name == "gb" then Some(KernelData(5, 256, 0, GAUS_BLUR))
    else if name == "co" then Some(KernelData(3, 1, 0, IDENTITY))
    else if name == "sh" then Some(KernelData(3, 1, 0, SHARPEN))
    else if name == "em" then Some(KernelData(5, 1, 128, EMBOSS))
    else if name == "gg" then Some(KernelData(15, 771, 0, BIG_GAUS))
    else if name == "mg" then Some(KernelData(9, 213, 0, MED_GAUS))
    else if name == "bo" then Some(KernelData(15, 225, 0, BOX_BLUR))
    else None
  }

  lemma ShippedKernels(name: string)
    requires FilterByName(name).Some?
    ensures FilterByName(name).value.Valid()
    ensures FilterByName(name).value.size % 2 == 1 && FilterByName(name).value.size <= 15
  {
  }

  /** Every shipped divisor is odd or the power of two 256, by which doubles are scaled exactly. */
  lemma ShippedDivisors(name: string, acc: int, m: int)
    requires FilterByName(name).Some?
    ensures var k := FilterByName(name).value;
            k.divisor == 256 || (k.divisor % 2 == 1 && 2 * (acc + k.bias * k.divisor) != (2 * m + 1) * k.divisor)
  {
    var k := FilterByName(name).value;
    if k.divisor != 256 {
      OddDivisorMeetsNoHalf(acc + k.bias * k.divisor, k.divisor, m);
    }
  }

  // ---- what the tables are --------------------------------------------------------------------

  /** "mb": the main diagonal. */
  lemma MotionBlurTable(i: nat, j: nat)
    requires i < 9 && j < 9
    ensures |MOTION_BLUR| == 9 && |MOTION_BLUR[i]| == 9
    ensures MOTION_BLUR[i][j] == if i == j then 1 else 0
  {
  }

  /** "bb": a diamond of radius two around the centre. */
  lemma BlurTable(i: nat, j: nat)
    requires i < 5 && j < 5
    ensures |BLUR| == 5 && |BLUR[i]| == 5
    ensures BLUR[i][j] == if (if i < 2 then 2 - i else i - 2) + (if j < 2 then 2 - j else j - 2) <= 2 then 1 else 0
  {
  }

  /** A row of Pascal's triangle. */
  function Binomial(i: nat): int
    requires i < 5
  {
    if i == 0 || i == 4 then 1 else if i == 1 || i == 3 then 4 else 6
  }

  /** "gb": the product of two rows of Pascal's triangle. */
  lemma GausBlurTable(i: nat, j: nat)
    requires i < 5 && j < 5
    ensures |GAUS_BLUR| == 5 && |GAUS_BLUR[i]| == 5
    ensures GAUS_BLUR[i][j] == Binomial(i) * Binomial(j)
  {
  }

  /** "co": one in the centre. */
  lemma IdentityTable(i: nat, j: nat)
    requires i < 3 && j < 3
    ensures |IDENTITY| == 3 && |IDENTITY[i]| == 3
    ensures IDENTITY[i][j] == if i == 1 && j == 1 then 1 else 0
  {
  }

  /** "sh": nine in the centre of minus ones. */
  lemma SharpenTable(i: nat, j: nat)
    requires i < 3 && j < 3
    ensures |SHARPEN| == 3 && |SHARPEN[i]| == 3
    ensures SHARPEN[i][j] == if i == 1 && j == 1 then 9 else -1
  {
  }

  /** "em": minus one above the other diagonal, zero on it, one below. */
  lemma EmbossTable(i: nat, j: nat)
    requires i < 5 && j < 5
    ensures |EMBOSS| == 5 && |EMBOSS[i]| == 5
    ensures EMBOSS[i][j] == if i + j < 4 then -1 else if i + j == 4 then 0 else 1
  {
  }

  /** "bo": ones. */
  lemma BoxBlurTable(i: nat, j: nat)
    requires i < 15 && j < 15
    ensures |BOX_BLUR| == 15 && |BOX_BLUR[i]| == 15
    ensures BOX_BLUR[i][j] == 1
  {
  }

  /** "mg", row by row from both ends. */
  lemma MedGausTable()
    ensures |MED_GAUS| == 9
    ensures MED_GAUS[0] == MED_GAUS[8] == [1, 1, 2, 2, 2, 2, 2, 1, 1]
    ensures MED_GAUS[1] == MED_GAUS[7] == [1, 2, 2, 3, 3, 3, 2, 2, 1]
    ensures MED_GAUS[2] == MED_GAUS[6] == [2, 2, 3, 4, 5, 4, 3, 2, 2]
    ensures MED_GAUS[3] == MED_GAUS[5] == [2, 3, 4, 5, 6, 5, 4, 3, 2]
    ensures MED_GAUS[4] == [2, 3, 5, 6, 7, 6, 5, 3, 2]
  {
  }

  /** "gg", row by row from both ends. */
  lemma BigGausTable()
    ensures |BIG_GAUS| == 15
    ensures BIG_GAUS[0] == BIG_GAUS[14] == [2, 2, 3, 3, 4, 4, 5, 5, 5, 4, 4, 3, 3, 2, 2]
    ensures BIG_GAUS[1] == BIG_GAUS[13] == [2, 3, 3, 4, 4, 5, 5, 6, 5, 5, 4, 4, 3, 3, 2]
    ensures BIG_GAUS[2] == BIG_GAUS[12] == [3, 3, 4, 5, 5, 6, 6, 7, 6, 6, 5, 5, 4, 3, 3]
    ensures BIG_GAUS[3] == BIG_GAUS[11] == [3, 4, 5, 6, 7, 7, 8, 8, 8, 7, 7, 6, 5, 4, 3]
    ensures BIG_GAUS[4] == BIG_GAUS[10] == [4, 4, 5, 7, 8, 9, 9, 10, 9, 9, 8, 7, 5, 4, 4]
    ensures BIG_GAUS[5] == BIG_GAUS[9] == [4, 5, 6, 7, 9, 10, 11, 11, 11, 10, 9, 7, 6, 5, 4]
    ensures BIG_GAUS[6] == BIG_GAUS[8] == [5, 5, 6, 8, 9, 11, 12, 12, 12, 11, 9, 8, 6, 5, 5]
    ensures BIG_GAUS[7] == [5, 6, 7, 8, 10, 11, 12, 13, 12, 11, 10, 8, 7, 6, 5]
  {
  }

  // ---- transposition --------------------------------------------------------------------------

  function Transposed(k: Kernel): (t: Kernel)
    ensures t.size == k.size && t.divisor == k.divisor && t.bias == k.bias
    ensures forall i, j :: 0 <= i < k.size && 0 <= j < k.size ==> t.Weight(i, j) == k.Weight(j, i)
  {
    KernelData(k.size, k.divisor, k.bias,
               seq(k.size, i requires 0 <= i < k.size => seq(k.size, j requires 0 <= j < k.size => k.Weight(j, i))))
  }

  predicate Mirrored(t: seq<seq<int>>) {
    forall i, j :: 0 <= i < |t| && 0 <= j < |t| ==> j < |t[i]| && i < |t[j]| && t[i][j] == t[j][i]
  }

  /** A kernel is its own transpose exactly when its table is symmetric. */
  lemma TransposedIsSame(k: Kernel)
    ensures Mirrored(k.table) <==> Transposed(k) == k
  {
    var t := Transposed(k);
    assert forall i, j :: 0 <= i < k.size && 0 <= j < k.size ==> t.table[i][j] == t.Weight(i, j) == k.Weight(j, i) == k.table[j][i];
    if Mirrored(k.table) {
      forall i | 0 <= i < k.size
        ensures t.table[i] == k.table[i]
      {
      }
    }
  }

  lemma MotionBlurMirrored()
    ensures Mirrored(MOTION_BLUR)
  {
  }

  lemma MedGausMirrored()
    ensures Mirrored(MED_GAUS)
  {
  }

  lemma BoxBlurMirrored()
    ensures Mirrored(BOX_BLUR)
  {
  }

  lemma BigGausUpperRows(i: nat, j: nat)
    requires i < 8 && j < 15
    ensures BIG_GAUS[i][j] == BIG_GAUS[j][i]
  {
  }

  lemma BigGausLowerRows(i: nat, j: nat)
    requires 8 <= i < 15 && 8 <= j < 15
    ensures BIG_GAUS[i][j] == BIG_GAUS[j][i]
  {
  }

  lemma BigGausShape(i: nat)
    requires i < 15
    ensures |BIG_GAUS| == 15 && |BIG_GAUS[i]| == 15
  {
  }

  lemma SquareMirrored(t: seq<seq<int>>, half: nat)
    requires half <= |t| && forall i :: 0 <= i < |t| ==> |t[i]| == |t|
    requires forall i, j :: 0 <= i < half && 0 <= j < |t| ==> t[i][j] == t[j][i]
    requires forall i, j :: half <= i < |t| && half <= j < |t| ==> t[i][j] == t[j][i]
    ensures Mirrored(t)
  {
  }

  lemma BigGausMirrored(t: seq<seq<int>>)
    requires t == BIG_GAUS
    ensures Mirrored(t)
  {
    forall i: nat | i < |t|
      ensures |t[i]| == |t|
    {
      BigGausShape(i);
    }
    forall i: nat, j: nat | i < 8 && j < |t|
      ensures t[i][j] == t[j][i]
    {
      BigGausUpperRows(i, j);
    }
    forall i: nat, j: nat | 8 <= i < |t| && 8 <= j < |t|
      ensures t[i][j] == t[j][i]
    {
      BigGausLowerRows(i, j);
    }
    SquareMirrored(t, 8);
  }

  /** Every shipped table equals its transpose. */
  lemma ShippedSymmetric(name: string)
    requires FilterByName(name).Some?
    ensures FilterByName(name).value.Valid() && Mirrored(FilterByName(name).value.table)
  {
    ShippedKernels(name);
    MotionBlurMirrored();
    MedGausMirrored();
    BoxBlurMirrored();
    BigGausMirrored(BIG_GAUS);
  }

  // ---- weight sums ----------------------------------------------------------------------------

  /** The sum of the first n weights of one row. */
  function RowWeight(k: Kernel, filterY: nat, n: nat): int
    requires filterY < k.size && n <= k.size
    decreases n
  {
    if n == 0 then 0 else RowWeight(k, filterY, n - 1) + k.Weight(filterY, n - 1)
  }

  /** The sum of the weights of the first m rows. */
  function WeightSum(k: Kernel, m: nat): int
    requires m <= k.size
    decreases m
  {
    if m == 0 then 0 else WeightSum(k, m - 1) + RowWeight(k, m - 1, k.size)
  }

  /** The weight sum from the running totals of the rows. */
  lemma {:induction false} RunningTotal(k: Kernel, totals: seq<int>, m: nat)
    requires m <= k.size && m < |totals| && totals[0] == 0
    requires forall i :: 0 <= i < m ==> totals[i + 1] == totals[i] + RowWeight(k, i, k.size)
    ensures WeightSum(k, m) == totals[m]
  {
    if m > 0 {
      RunningTotal(k, totals, m - 1);
    }
  }

  lemma MotionBlurWeightSum(k: Kernel)
    requires k.table == MOTION_BLUR
    ensures WeightSum(k, k.size) == 9
  {
    assert RowWeight(k, 0, 9) == 1;
    assert RowWeight(k, 1, 9) == 1;
    assert RowWeight(k, 2, 9) == 1;
    assert RowWeight(k, 3, 9) == 1;
    assert RowWeight(k, 4, 9) == 1;
    assert RowWeight(k, 5, 9) == 1;
    assert RowWeight(k, 6, 9) == 1;
    assert RowWeight(k, 7, 9) == 1;
    assert RowWeight(k, 8, 9) == 1;
    RunningTotal(k, [0, 1, 2, 3, 4, 5, 6, 7, 8, 9], 9);
  }

  lemma BlurWeightSum(k: Kernel)
    requires k.table == BLUR
    ensures WeightSum(k, k.size) == 13
  {
    assert RowWeight(k, 0, 5) == 1;
    assert RowWeight(k, 1, 5) == 3;
    assert RowWeight(k, 2, 5) == 5;
    assert RowWeight(k, 3, 5) == 3;
    assert RowWeight(k, 4, 5) == 1;
    RunningTotal(k, [0, 1, 4, 9, 12, 13], 5);
  }

  lemma GausBlurWeightSum(k: Kernel)
    requires k.table == GAUS_BLUR
    ensures WeightSum(k, k.size) == 256
  {
    assert RowWeight(k, 0, 5) == 16;
    assert RowWeight(k, 1, 5) == 64;
    assert RowWeight(k, 2, 5) == 96;
    assert RowWeight(k, 3, 5) == 64;
    assert RowWeight(k, 4, 5) == 16;
    RunningTotal(k, [0, 16, 80, 176, 240, 256], 5);
  }

  lemma IdentityWeightSum(k: Kernel)
    requires k.table == IDENTITY
    ensures WeightSum(k, k.size) == 1
  {
    assert RowWeight(k, 0, 3) == 0;
    assert RowWeight(k, 1, 3) == 1;
    assert RowWeight(k, 2, 3) == 0;
    RunningTotal(k, [0, 0, 1, 1], 3);
  }

  lemma SharpenWeightSum(k: Kernel)
    requires k.table == SHARPEN
    ensures WeightSum(k, k.size) == 1
  {
    assert RowWeight(k, 0, 3) == -3;
    assert RowWeight(k, 1, 3) == 7;
    assert RowWeight(k, 2, 3) == -3;
    RunningTotal(k, [0, -3, 4, 1], 3);
  }

  lemma EmbossWeightSum(k: Kernel)
    requires k.table == EMBOSS
    ensures WeightSum(k, k.size) == 0
  {
    assert RowWeight(k, 0, 5) == -4;
    assert RowWeight(k, 1, 5) == -2;
    assert RowWeight(k, 2, 5) == 0;
    assert RowWeight(k, 3, 5) == 2;
    assert RowWeight(k, 4, 5) == 4;
    RunningTotal(k, [0, -4, -6, -6, -4, 0], 5);
  }

  lemma MedGausWeightSum(k: Kernel)
    requires k.table == MED_GAUS
    ensures WeightSum(k, k.size) == 227
  {
    assert RowWeight(k, 0, 9) == 14;
    assert RowWeight(k, 1, 9) == 19;
    assert RowWeight(k, 2, 9) == 27;
    assert RowWeight(k, 3, 9) == 34;
    assert RowWeight(k, 4, 9) == 39;
    assert RowWeight(k, 5, 9) == 34;
    assert RowWeight(k, 6, 9) == 27;
    assert RowWeight(k, 7, 9) == 19;
    assert RowWeight(k, 8, 9) == 14;
    RunningTotal(k, [0, 14, 33, 60, 94, 133, 167, 194, 213, 227], 9);
  }

  lemma BigGausUpperSums(k: Kernel)
    requires k.table == BIG_GAUS
    ensures RowWeight(k, 0, 15) == 51
    ensures RowWeight(k, 1, 15) == 58
    ensures RowWeight(k, 2, 15) == 71
    ensures RowWeight(k, 3, 15) == 88
    ensures RowWeight(k, 4, 15) == 102
  {
    assert RowWeight(k, 0, 8) == 28;
    assert RowWeight(k, 1, 8) == 32;
    assert RowWeight(k, 2, 8) == 39;
    assert RowWeight(k, 3, 8) == 48;
    assert RowWeight(k, 4, 8) == 56;
  }

  lemma BigGausMiddleSums(k: Kernel)
    requires k.table == BIG_GAUS
    ensures RowWeight(k, 5, 15) == 115
    ensures RowWeight(k, 6, 15) == 124
    ensures RowWeight(k, 7, 15) == 131
    ensures RowWeight(k, 8, 15) == 124
    ensures RowWeight(k, 9, 15) == 115
  {
    assert RowWeight(k, 5, 8) == 63;
    assert RowWeight(k, 6, 8) == 68;
    assert RowWeight(k, 7, 8) == 72;
    assert RowWeight(k, 8, 8) == 68;
    assert RowWeight(k, 9, 8) == 63;
  }

  lemma BigGausLowerSums(k: Kernel)
    requires k.table == BIG_GAUS
    ensures RowWeight(k, 10, 15) == 102
    ensures RowWeight(k, 11, 15) == 88
    ensures RowWeight(k, 12, 15) == 71
    ensures RowWeight(k, 13, 15) == 58
    ensures RowWeight(k, 14, 15) == 51
  {
    assert RowWeight(k, 10, 8) == 56;
    assert RowWeight(k, 11, 8) == 48;
    assert RowWeight(k, 12, 8) == 39;
    assert RowWeight(k, 13, 8) == 32;
    assert RowWeight(k, 14, 8) == 28;
  }

  lemma BigGausWeightSum(k: Kernel)
    requires k.table == BIG_GAUS
    ensures WeightSum(k, k.size) == 1349
  {
    BigGausUpperSums(k);
    BigGausMiddleSums(k);
    BigGausLowerSums(k);
    RunningTotal(k, [0, 51, 109, 180, 268, 370, 485, 609, 740, 864, 979, 1081, 1169, 1240, 1298, 1349], 15);
  }

  lemma {:induction false} UniformRow(k: Kernel, i: nat, n: nat, weight: int)
    requires i < k.size && n <= k.size && forall j :: 0 <= j < k.size ==> k.Weight(i, j) == weight
    ensures RowWeight(k, i, n) == weight * n
  {
    if n > 0 {
      UniformRow(k, i, n - 1, weight);
    }
  }

  lemma {:induction false} UniformRows(k: Kernel, m: nat, weight: int)
    requires m <= k.size && forall i, j :: 0 <= i < k.size && 0 <= j < k.size ==> k.Weight(i, j) == weight
    ensures WeightSum(k, m) == weight * k.size * m
  {
    if m > 0 {
      UniformRows(k, m - 1, weight);
      UniformRow(k, m - 1, k.size, weight);
      Distribute(weight * k.size, m - 1, 1);
    }
  }

  lemma BoxBlurWeightSum(k: Kernel)
    requires k.table == BOX_BLUR
    ensures WeightSum(k, k.size) == 225
  {
    UniformRows(k, 15, 1);
  }

  /** The weight sum of every shipped table, beside the divisor it is scaled by. */
  lemma ShippedWeightSums(name: string)
    requires FilterByName(name).Some? && FilterByName(name).value.Valid()
    ensures WeightSum(FilterByName(name).value, FilterByName(name).value.size) ==
      if name == "mb" then 9 else if name == "bb" then 13 else if name == "gb" then 256
      else if name == "co" || name == "sh" then 1 else if name == "em" then 0
      else if name == "gg" then 1349 else if name == "mg" then 227 else 225
  {
    var k: Kernel := FilterByName(name).value;
    if name == "mb" { MotionBlurWeightSum(k); }
    else if name == "bb" { BlurWeightSum(k); }
    else if name == "gb" { GausBlurWeightSum(k); }
    else if name == "co" { IdentityWeightSum(k); }
    else if name == "sh" { SharpenWeightSum(k); }
    else if name == "em" { EmbossWeightSum(k); }
    else if name == "gg" { BigGausWeightSum(k); }
    else if name == "mg" { MedGausWeightSum(k); }
    else { BoxBlurWeightSum(k); }
  }
}
