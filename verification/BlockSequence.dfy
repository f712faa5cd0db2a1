/**
 * The sequence of claims from the first one on: which pixels it hands out, when it hands one out twice,
 * and when it ends.
 */
module BlockSequence {
  import opened Arithmetic
  import opened Pixels
  import opened Convolution
  import opened BlockClaims

  /** What a claim loop works with. */
  datatype Plan = Plan(mode: Mode, width: nat, height: nat, block: nat) {
    predicate Valid() {
      0 < width <= UINT16_MAX && 0 < height <= UINT16_MAX && 0 < block <= UINT16_MAX
    }

    /** The block size in force. */
    function Stride(): nat {
      BlockOf(mode, block)
    }

    function Next(n: Counters): Claim {
      ClaimNext(mode, width, height, block, n)
    }
  }

  /** The counters before the i-th claim; a refused claim leaves them alone. */
  function CountersAt(p: Plan, i: nat): Counters {
    if i == 0 then Counters(0, 0)
    else
      match p.Next(CountersAt(p, i - 1))
      case Refused => CountersAt(p, i - 1)
      case Granted(_, counters) => counters
  }

  function ClaimAt(p: Plan, i: nat): Claim {
    p.Next(CountersAt(p, i))
  }

  /** The i-th claim hands out the pixel. */
  predicate HandsOut(p: Plan, i: nat, y: int, x: int) {
    ClaimAt(p, i).Granted? && ClaimAt(p, i).region.Covers(y, x)
  }

  ghost predicate HandedOutBefore(p: Plan, n: nat, y: int, x: int) {
    exists i: nat :: i < n && HandsOut(p, i, y, x)
  }

  ghost predicate NoPixelTwice(p: Plan) {
    forall i: nat, j: nat, y, x :: i < j && HandsOut(p, i, y, x) ==> !HandsOut(p, j, y, x)
  }

  /** Some claim is refused. */
  ghost predicate Ends(p: Plan) {
    exists n: nat :: ClaimAt(p, n).Refused?
  }

  // ---- one counter ----------------------------------------------------------------------------

  /** A 16-bit counter after n additions. */
  function AxisAt(block: nat, n: nat): (r: nat)
    ensures r <= UINT16_MAX
  {
    n * block % UINT16_SPAN
  }

  lemma AxisStart(block: nat)
    ensures AxisAt(block, 0) == 0
  {
  }

  lemma AxisNext(block: nat, n: nat)
    ensures Advance(AxisAt(block, n), block) == AxisAt(block, n + 1)
  {
    SumModulo(n * block, block, UINT16_SPAN);
    Distribute(block, n, 1);
  }

  lemma AxisUnwrapped(block: nat, n: nat)
    requires n * block <= UINT16_MAX
    ensures AxisAt(block, n) == n * block
  {
    DivModUnique(n * block, UINT16_SPAN, 0, n * block);
  }

  /** The counter stays inside the axis for the first n values. */
  ghost predicate Below(block: nat, length: nat, n: nat) {
    forall i: nat :: i < n ==> AxisAt(block, i) < length
  }

  lemma BelowAt(block: nat, length: nat, n: nat, i: nat)
    requires Below(block, length, n) && i < n
    ensures AxisAt(block, i) < length && Below(block, length, i + 1)
  {
  }

  /** Its n-th value is the first one at or past the end of the axis. */
  ghost predicate LeavesAt(block: nat, length: nat, n: nat) {
    Below(block, length, n) && AxisAt(block, n) >= length
  }

  lemma {:induction false} FirstLeaving(block: nat, length: nat, n: nat) returns (m: nat)
    requires AxisAt(block, n) >= length
    ensures m <= n && LeavesAt(block, length, m)
    decreases n
  {
    if i: nat :| i < n && AxisAt(block, i) >= length {
      m := FirstLeaving(block, length, i);
    } else {
      m := n;
    }
  }

  /** The block of a position inside the axis is reached before any wrap. */
  lemma BlockOfPosition(block: nat, length: nat, v: nat) returns (n: nat)
    requires 0 < block && v < length <= UINT16_MAX
    ensures Below(block, length, n + 1)
    ensures AxisAt(block, n) == n * block <= v < AxisAt(block, n) + block
  {
    n := v / block;
    forall i: nat | i <= n
      ensures AxisAt(block, i) == i * block <= v
    {
      FactorOrder(block, i, v / block);
      AxisUnwrapped(block, i);
    }
  }

  // ---- when a counter leaves the axis ---------------------------------------------------------

  /** Exactly then: the multiples of the greatest common divisor are the values a counter can take. */
  predicate AxisEnds(length: nat, block: nat) {
    length + Gcd(block, UINT16_SPAN) <= UINT16_SPAN
  }

  lemma MultiplesRemain(g: int, n: int, s: int, t: int, q: int, r: int)
    requires r == n * (g * s) - g * t * q
    ensures r == g * (n * s - t * q)
  {
    Distribute(g, n * s, -(t * q));
  }

  lemma AxisIsMultiple(block: nat, n: nat)
    ensures AxisAt(block, n) + Gcd(block, UINT16_SPAN) <= UINT16_SPAN
  {
    var g, q, r := Gcd(block, UINT16_SPAN), n * block / UINT16_SPAN, AxisAt(block, n);
    var s, t := GcdDivides(block, UINT16_SPAN);
    MultiplesRemain(g, n, s, t, q, r);
    FactorBelow(g, n * s - t * q, t);
  }

  lemma ReachingFactor(block: int, x: int, y: int, g: int, n: int, q: int)
    requires block * x + UINT16_SPAN * y == g && n == -x - UINT16_SPAN * q
    ensures n * block == UINT16_SPAN * (y - 1 - q * block) + (UINT16_SPAN - g)
  {
    Distribute(block, x, UINT16_SPAN * q);
  }

  lemma AxisReaches(block: nat) returns (n: nat)
    ensures AxisAt(block, n) + Gcd(block, UINT16_SPAN) == UINT16_SPAN
  {
    var g := Gcd(block, UINT16_SPAN);
    AxisIsMultiple(block, 0);
    var s, t := GcdDivides(block, UINT16_SPAN);
    var x, y := Bezout(block, UINT16_SPAN);
    n := (-x) % UINT16_SPAN;
    var q := (-x) / UINT16_SPAN;
    ReachingFactor(block, x, y, g, n, q);
    DivModUnique(n * block, UINT16_SPAN, y - 1 - q * block, UINT16_SPAN - g);
  }

  lemma AxisEndsIff(length: nat, block: nat) returns (n: nat)
    ensures AxisEnds(length, block) ==> LeavesAt(block, length, n)
    ensures !AxisEnds(length, block) ==> forall i: nat :: AxisAt(block, i) < length
  {
    n := AxisReaches(block);
    if AxisEnds(length, block) {
      n := FirstLeaving(block, length, n);
    }
    forall i: nat
      ensures !AxisEnds(length, block) ==> AxisAt(block, i) < length
    {
      AxisIsMultiple(block, i);
    }
  }

  // ---- the counters before each claim ---------------------------------------------------------

  lemma {:induction false} RowCounters(p: Plan, i: nat)
    requires p.mode.ByRow? && Below(p.block, p.height, i)
    ensures CountersAt(p, i) == Counters(AxisAt(p.block, i), 0)
  {
    AxisStart(p.block);
    if i > 0 {
      RowCounters(p, i - 1);
      AxisNext(p.block, i - 1);
    }
  }

  lemma {:induction false} ColumnCounters(p: Plan, i: nat)
    requires p.mode.ByColumn? && Below(p.block, p.width, i)
    ensures CountersAt(p, i) == Counters(0, AxisAt(p.block, i))
  {
    AxisStart(p.block);
    if i > 0 {
      ColumnCounters(p, i - 1);
      AxisNext(p.block, i - 1);
    }
  }

  /** Grid and pixel mode go through bands of cells. */
  predicate Banded(p: Plan) {
    p.mode.ByGrid? || p.mode.ByPixel?
  }

  /** The values a counter takes, one after the other. */
  ghost predicate Counts(block: nat, values: nat -> nat, n: nat) {
    values(0) == 0 && forall c: nat :: c < n ==> values(c + 1) == Advance(values(c), block)
  }

  lemma AxisCounts(block: nat, n: nat)
    ensures Counts(block, (c: nat) => AxisAt(block, c), n)
  {
    AxisStart(block);
    forall c: nat | c < n
      ensures AxisAt(block, c + 1) == Advance(AxisAt(block, c), block)
    {
      AxisNext(block, c);
    }
  }

  /** As long as the column counter stays inside, only it moves. */
  lemma {:induction false} WithinBand(p: Plan, i: nat, j: nat, row: nat, columns: nat -> nat)
    requires Banded(p) && row < p.height && CountersAt(p, i) == Counters(row, 0) && Counts(p.Stride(), columns, j)
    requires forall c: nat :: c <= j ==> columns(c) < p.width
    ensures CountersAt(p, i + j) == Counters(row, columns(j))
  {
    if j > 0 {
      WithinBand(p, i, j - 1, row, columns);
      assert columns(j - 1 + 1) == Advance(columns(j - 1), p.Stride());
      assert CountersAt(p, i + j) == p.Next(CountersAt(p, i + j - 1)).counters;
    }
  }

  /** When it leaves the axis, the next band begins. */
  lemma BandEnd(p: Plan, i: nat, m: nat, row: nat, columns: nat -> nat)
    requires Banded(p) && row < p.height && CountersAt(p, i) == Counters(row, 0) && Counts(p.Stride(), columns, m) && 0 < m
    requires (forall c: nat :: c < m ==> columns(c) < p.width) && columns(m) >= p.width
    ensures CountersAt(p, i + m) == Counters(Advance(row, p.Stride()), 0)
  {
    WithinBand(p, i, m - 1, row, columns);
    assert columns(m - 1 + 1) == Advance(columns(m - 1), p.Stride());
    assert CountersAt(p, i + m) == p.Next(CountersAt(p, i + m - 1)).counters;
  }

  /** Inside one band only the column counter moves. */
  lemma BandCounters(p: Plan, i: nat, j: nat, row: nat)
    requires Banded(p) && p.Valid() && row < p.height && Below(p.Stride(), p.width, j + 1)
    requires CountersAt(p, i) == Counters(row, 0)
    ensures CountersAt(p, i + j) == Counters(row, AxisAt(p.Stride(), j))
  {
    AxisCounts(p.Stride(), j);
    WithinBand(p, i, j, row, (c: nat) => AxisAt(p.Stride(), c));
  }

  /** A band of m claims leads to the next one. */
  lemma NextBand(p: Plan, i: nat, m: nat, row: nat)
    requires Banded(p) && p.Valid() && row < p.height && LeavesAt(p.Stride(), p.width, m)
    requires CountersAt(p, i) == Counters(row, 0)
    ensures 0 < m && CountersAt(p, i + m) == Counters(Advance(row, p.Stride()), 0)
  {
    AxisStart(p.Stride());
    AxisCounts(p.Stride(), m);
    BandEnd(p, i, m, row, (c: nat) => AxisAt(p.Stride(), c));
  }

  /** The first claim of the k-th band, if a band takes m claims. */
  function BandStart(m: nat, k: nat): nat {
    if k == 0 then 0 else BandStart(m, k - 1) + m
  }

  lemma {:induction false} Locate(m: nat, i: nat) returns (k: nat, j: nat)
    requires 0 < m
    ensures i == BandStart(m, k) + j && j < m
  {
    if i == 0 {
      k, j := 0, 0;
    } else {
      k, j := Locate(m, i - 1);
      if j + 1 < m {
        j := j + 1;
      } else {
        k, j := k + 1, 0;
      }
    }
  }

  lemma {:induction false} BandStartsGrow(m: nat, k: nat, l: nat)
    requires k <= l
    ensures BandStart(m, k) <= BandStart(m, l)
    decreases l
  {
    if k < l {
      BandStartsGrow(m, k, l - 1);
    }
  }

  lemma {:induction false} GridRows(p: Plan, m: nat, k: nat)
    requires Banded(p) && p.Valid() && LeavesAt(p.Stride(), p.width, m) && Below(p.Stride(), p.height, k)
    ensures CountersAt(p, BandStart(m, k)) == Counters(AxisAt(p.Stride(), k), 0)
  {
    AxisStart(p.Stride());
    if k > 0 {
      GridRows(p, m, k - 1);
      var row := AxisAt(p.Stride(), k - 1);
      assert row < p.height;
      NextBand(p, BandStart(m, k - 1), m, row);
      AxisNext(p.Stride(), k - 1);
    }
  }

  lemma GridCounters(p: Plan, m: nat, k: nat, j: nat)
    requires Banded(p) && p.Valid() && LeavesAt(p.Stride(), p.width, m) && Below(p.Stride(), p.height, k + 1) && j < m
    ensures CountersAt(p, BandStart(m, k) + j) == Counters(AxisAt(p.Stride(), k), AxisAt(p.Stride(), j))
    ensures AxisAt(p.Stride(), k) < p.height && AxisAt(p.Stride(), j) < p.width
  {
    var row := AxisAt(p.Stride(), k);
    BelowAt(p.Stride(), p.height, k + 1, k);
    BelowAt(p.Stride(), p.width, m, j);
    GridRows(p, m, k);
    BandCounters(p, BandStart(m, k), j, row);
  }

  // ---- which block is which -------------------------------------------------------------------

  lemma UnwrappedBelow(block: nat, length: nat, n: nat)
    requires n * block < length <= UINT16_MAX
    ensures Below(block, length, n + 1) && AxisAt(block, n) == n * block
  {
    forall i: nat | i <= n
      ensures AxisAt(block, i) == i * block < length
    {
      FactorOrder(block, i, n);
      AxisUnwrapped(block, i);
    }
  }

  /** The i-th claim of the row mode is the i-th group of rows, of the whole width. */
  lemma NthRows(p: Plan, i: nat)
    requires p.Valid() && p.mode.ByRow? && i * p.block < p.height
    ensures var from := i * p.block;
            ClaimAt(p, i).Granted?
            && ClaimAt(p, i).region == Region(from, if from + p.block < p.height then from + p.block else p.height, 0, p.width)
  {
    UnwrappedBelow(p.block, p.height, i);
    RowCounters(p, i);
  }

  /** The i-th claim of the column mode is the i-th group of columns, of the whole height. */
  lemma NthColumns(p: Plan, i: nat)
    requires p.Valid() && p.mode.ByColumn? && i * p.block < p.width
    ensures var from := i * p.block;
            ClaimAt(p, i).Granted?
            && ClaimAt(p, i).region == Region(0, p.height, from, if from + p.block < p.width then from + p.block else p.width)
  {
    UnwrappedBelow(p.block, p.width, i);
    ColumnCounters(p, i);
  }

  lemma {:induction false} BandStartIs(m: nat, k: nat)
    ensures BandStart(m, k) == m * k
  {
    if k > 0 {
      BandStartIs(m, k - 1);
      Distribute(m, k - 1, 1);
    }
  }

  lemma CellsInBand(block: nat, length: nat, m: nat)
    requires 0 < m && (m - 1) * block < length <= m * block <= UINT16_MAX
    ensures LeavesAt(block, length, m)
  {
    UnwrappedBelow(block, length, m - 1);
    AxisUnwrapped(block, m);
  }

  /** The cells of the grid and pixel modes are claimed row of cells after row of cells, each from left to right. */
  lemma NthCell(p: Plan, b: nat, m: nat, k: nat, j: nat)
    requires p.Valid() && (if p.mode.ByPixel? then b == 1 else p.mode.ByGrid? && b == p.block)
    requires j < m && (m - 1) * b < p.width <= m * b <= UINT16_MAX && k * b < p.height
    ensures var top, left, i := k * b, j * b, m * k + j;
            ClaimAt(p, i).Granted?
            && ClaimAt(p, i).region == Region(top, if top + b < p.height then top + b else p.height,
                                              left, if left + b < p.width then left + b else p.width)
  {
    CellsInBand(b, p.width, m);
    UnwrappedBelow(b, p.height, k);
    FactorOrder(b, j, m - 1);
    UnwrappedBelow(b, p.width, j);
    BandStartIs(m, k);
    GridCounters(p, m, k, j);
  }

  // ---- when the sequence ends -----------------------------------------------------------------

  /** Every counter that the mode moves leaves its axis. */
  predicate AxesEnd(p: Plan) {
    (p.mode.ByColumn? || AxisEnds(p.height, p.Stride())) && (p.mode.ByRow? || AxisEnds(p.width, p.Stride()))
  }

  lemma RowEndsIff(p: Plan)
    requires p.mode.ByRow?
    ensures Ends(p) <==> AxesEnd(p)
  {
    var n := AxisEndsIff(p.height, p.block);
    if AxesEnd(p) {
      RowCounters(p, n);
      assert ClaimAt(p, n).Refused?;
    } else {
      forall i: nat
        ensures ClaimAt(p, i).Granted?
      {
        RowCounters(p, i);
      }
    }
  }

  lemma ColumnEndsIff(p: Plan)
    requires p.mode.ByColumn?
    ensures Ends(p) <==> AxesEnd(p)
  {
    var n := AxisEndsIff(p.width, p.block);
    if AxesEnd(p) {
      ColumnCounters(p, n);
      assert ClaimAt(p, n).Refused?;
    } else {
      forall i: nat
        ensures ClaimAt(p, i).Granted?
      {
        ColumnCounters(p, i);
      }
    }
  }

  /** The first band never ends. */
  lemma EndlessBand(p: Plan, i: nat)
    requires Banded(p) && p.Valid() && forall j: nat :: AxisAt(p.Stride(), j) < p.width
    ensures ClaimAt(p, i).Granted?
  {
    BandCounters(p, 0, i, 0);
  }

  /** Bands end, but the rows never do. */
  lemma EndlessBands(p: Plan, m: nat, i: nat)
    requires Banded(p) && p.Valid() && LeavesAt(p.Stride(), p.width, m)
    requires forall j: nat :: AxisAt(p.Stride(), j) < p.height
    ensures ClaimAt(p, i).Granted?
  {
    AxisStart(p.Stride());
    var k, j := Locate(m, i);
    GridCounters(p, m, k, j);
  }

  lemma GridEndsIff(p: Plan)
    requires Banded(p) && p.Valid()
    ensures Ends(p) <==> AxesEnd(p)
  {
    var m := AxisEndsIff(p.width, p.Stride());
    var k := AxisEndsIff(p.height, p.Stride());
    if AxesEnd(p) {
      GridRows(p, m, k);
      assert ClaimAt(p, BandStart(m, k)).Refused?;
    } else {
      forall i: nat
        ensures ClaimAt(p, i).Granted?
      {
        if AxisEnds(p.width, p.Stride()) {
          EndlessBands(p, m, i);
        } else {
          EndlessBand(p, i);
        }
      }
    }
  }

  /**
   * The claims end if and only if every axis the mode moves along is at most 65536 less the greatest
   * common divisor of the block size and 65536.
   */
  lemma EndsIff(p: Plan)
    requires p.Valid()
    ensures Ends(p) <==> AxesEnd(p)
  {
    match p.mode
    case ByRow => RowEndsIff(p);
    case ByColumn => ColumnEndsIff(p);
    case _ => GridEndsIff(p);
  }

  // ---- what has been handed out when it ends --------------------------------------------------

  lemma RowGoesOn(p: Plan, n: nat)
    requires p.mode.ByRow? && Below(p.block, p.height, n + 1)
    ensures ClaimAt(p, n).Granted?
  {
    RowCounters(p, n);
    assert AxisAt(p.block, n) < p.height;
  }

  lemma ColumnGoesOn(p: Plan, n: nat)
    requires p.mode.ByColumn? && Below(p.block, p.width, n + 1)
    ensures ClaimAt(p, n).Granted?
  {
    ColumnCounters(p, n);
    assert AxisAt(p.block, n) < p.width;
  }

  lemma RowCovers(p: Plan, n: nat, y: nat, x: nat) returns (i: nat)
    requires p.mode.ByRow? && p.Valid() && ClaimAt(p, n).Refused? && y < p.height && x < p.width
    ensures i < n && HandsOut(p, i, y, x)
  {
    i := BlockOfPosition(p.block, p.height, y);
    RowCounters(p, i);
    if n <= i {
      RowGoesOn(p, n);
    }
  }

  lemma ColumnCovers(p: Plan, n: nat, y: nat, x: nat) returns (i: nat)
    requires p.mode.ByColumn? && p.Valid() && ClaimAt(p, n).Refused? && y < p.height && x < p.width
    ensures i < n && HandsOut(p, i, y, x)
  {
    i := BlockOfPosition(p.block, p.width, x);
    ColumnCounters(p, i);
    if n <= i {
      ColumnGoesOn(p, n);
    }
  }

  /** The cell of a pixel, and no refusal up to it. */
  lemma CellOf(p: Plan, m: nat, y: nat, x: nat) returns (k: nat, j: nat)
    requires Banded(p) && p.Valid() && LeavesAt(p.Stride(), p.width, m) && y < p.height && x < p.width
    ensures j < m && Below(p.Stride(), p.height, k + 1) && HandsOut(p, BandStart(m, k) + j, y, x)
  {
    var b := p.Stride();
    k := BlockOfPosition(b, p.height, y);
    j := BlockOfPosition(b, p.width, x);
    LeavesLater(b, p.width, j, m);
    GridCounters(p, m, k, j);
    CellCovers(p, AxisAt(b, k), AxisAt(b, j), y, x);
  }

  lemma LeavesLater(block: nat, length: nat, j: nat, m: nat)
    requires Below(block, length, j + 1) && LeavesAt(block, length, m)
    ensures j < m
  {
    assert m <= j ==> AxisAt(block, m) < length;
  }

  lemma CellCovers(p: Plan, row: nat, column: nat, y: nat, x: nat)
    requires Banded(p) && row <= y < row + p.Stride() && column <= x < column + p.Stride() && y < p.height && x < p.width
    ensures p.Next(Counters(row, column)).Granted? && p.Next(Counters(row, column)).region.Covers(y, x)
  {
  }

  lemma GridCovers(p: Plan, n: nat, y: nat, x: nat) returns (i: nat)
    requires Banded(p) && p.Valid() && ClaimAt(p, n).Refused? && y < p.height && x < p.width
    ensures i < n && HandsOut(p, i, y, x)
  {
    var m := AxisEndsIff(p.width, p.Stride());
    if !AxisEnds(p.width, p.Stride()) {
      EndlessBand(p, n);
    }
    var k, j := CellOf(p, m, y, x);
    i := BandStart(m, k) + j;
    if n <= i {
      var l, c := Locate(m, n);
      if k < l {
        BandStartsGrow(m, k + 1, l);
      }
      GridCounters(p, m, l, c);
    }
  }

  /** When a claim is refused every pixel has been handed out, wrapped counters or not. */
  lemma RefusalCovers(p: Plan, n: nat, y: nat, x: nat) returns (i: nat)
    requires p.Valid() && ClaimAt(p, n).Refused? && y < p.height && x < p.width
    ensures i < n && HandsOut(p, i, y, x)
  {
    match p.mode
    case ByRow => i := RowCovers(p, n, y, x);
    case ByColumn => i := ColumnCovers(p, n, y, x);
    case _ => i := GridCovers(p, n, y, x);
  }

  lemma AllHandedOut(p: Plan, n: nat)
    requires p.Valid() && ClaimAt(p, n).Refused?
    ensures forall y, x :: 0 <= y < p.height && 0 <= x < p.width ==> HandedOutBefore(p, n, y, x)
  {
    forall y, x | 0 <= y < p.height && 0 <= x < p.width
      ensures HandedOutBefore(p, n, y, x)
    {
      var i := RefusalCovers(p, n, y, x);
    }
  }

  /** One more claim. */
  lemma HandedOutNext(p: Plan, n: nat, y: int, x: int)
    ensures HandedOutBefore(p, n + 1, y, x) <==> HandedOutBefore(p, n, y, x) || HandsOut(p, n, y, x)
  {
    if HandedOutBefore(p, n + 1, y, x) && !HandsOut(p, n, y, x) {
      var i: nat :| i < n + 1 && HandsOut(p, i, y, x);
      assert i < n;
    }
  }

  // ---- when no pixel is handed out twice ------------------------------------------------------

  lemma {:induction false} CountersOnBoundary(p: Plan, i: nat)
    requires p.Valid() && NeverWraps(p.mode, p.width, p.height, p.block)
    ensures OnBoundary(p.mode, p.width, p.block, CountersAt(p, i))
  {
    ZeroOnBoundary(p.Stride());
    if i > 0 {
      CountersOnBoundary(p, i - 1);
      if ClaimAt(p, i - 1).Granted? {
        ClaimMovesCounters(p.mode, p.width, p.height, p.block, CountersAt(p, i - 1));
      }
    }
  }

  lemma OneClaim(p: Plan, i: nat, y: nat, x: nat)
    requires p.Valid() && NeverWraps(p.mode, p.width, p.height, p.block) && y < p.height && x < p.width
    ensures Claimed(p.mode, p.block, CountersAt(p, i + 1), y, x)
       <==> Claimed(p.mode, p.block, CountersAt(p, i), y, x) || HandsOut(p, i, y, x)
    ensures HandsOut(p, i, y, x) ==> !Claimed(p.mode, p.block, CountersAt(p, i), y, x)
  {
    CountersOnBoundary(p, i);
    if ClaimAt(p, i).Granted? {
      ClaimHandsOut(p.mode, p.width, p.height, p.block, CountersAt(p, i));
    }
  }

  /** Without a wrap, what the counters call claimed is what has been handed out. */
  lemma {:induction false} ClaimedIsHandedOut(p: Plan, n: nat, y: nat, x: nat)
    requires p.Valid() && NeverWraps(p.mode, p.width, p.height, p.block) && y < p.height && x < p.width
    ensures Claimed(p.mode, p.block, CountersAt(p, n), y, x) <==> HandedOutBefore(p, n, y, x)
  {
    NothingClaimedFirst(p.mode, p.block, y, x);
    if n > 0 {
      ClaimedIsHandedOut(p, n - 1, y, x);
      OneClaim(p, n - 1, y, x);
      HandedOutNext(p, n - 1, y, x);
    }
  }

  lemma HandedOutInside(p: Plan, i: nat, y: int, x: int)
    requires HandsOut(p, i, y, x)
    ensures 0 <= y < p.height && 0 <= x < p.width
  {
  }

  lemma NoWrapNoRepeat(p: Plan)
    requires p.Valid() && NeverWraps(p.mode, p.width, p.height, p.block)
    ensures NoPixelTwice(p)
  {
    forall i: nat, j: nat, y, x | i < j && HandsOut(p, i, y, x)
      ensures !HandsOut(p, j, y, x)
    {
      HandedOutInside(p, i, y, x);
      ClaimedIsHandedOut(p, j, y, x);
      OneClaim(p, j, y, x);
    }
  }

  /** A counter that wraps comes back into its first block. */
  lemma WrapsIntoFirstBlock(length: nat, block: nat) returns (n: nat)
    requires 0 < length <= UINT16_MAX && 0 < block <= UINT16_MAX && RoundUp(length, block) > UINT16_MAX
    ensures 0 < n && Below(block, length, n + 1) && AxisAt(block, n) < block
  {
    var q := BlockOfPosition(block, length, length - 1);
    n := q + 1;
    RoundUpBounds(length, block);
    LastBlock(length, block, q);
    DivModUnique(n * block, UINT16_SPAN, 1, n * block - UINT16_SPAN);
  }

  lemma LastBlock(length: nat, block: nat, q: nat)
    requires 0 < length && 0 < block && q * block <= length - 1 < q * block + block
    ensures RoundUp(length, block) == (q + 1) * block
  {
    Distribute(block, q, 1);
    DivModUnique(length + block - 1, block, q + 1, length - 1 - q * block);
  }

  lemma FirstClaim(p: Plan, y: nat, x: nat)
    requires p.Valid() && y < p.height && x < p.width
    requires (p.mode.ByColumn? || y < p.Stride()) && (p.mode.ByRow? || x < p.Stride())
    ensures HandsOut(p, 0, y, x)
  {
  }

  lemma RowRepeats(p: Plan)
    requires p.mode.ByRow? && p.Valid() && RoundUp(p.height, p.block) > UINT16_MAX
    ensures !NoPixelTwice(p)
  {
    var n := WrapsIntoFirstBlock(p.height, p.block);
    var y := AxisAt(p.block, n);
    RowCounters(p, n);
    FirstClaim(p, y, 0);
    assert HandsOut(p, n, y, 0);
  }

  lemma ColumnRepeats(p: Plan)
    requires p.mode.ByColumn? && p.Valid() && RoundUp(p.width, p.block) > UINT16_MAX
    ensures !NoPixelTwice(p)
  {
    var n := WrapsIntoFirstBlock(p.width, p.block);
    var x := AxisAt(p.block, n);
    ColumnCounters(p, n);
    FirstClaim(p, 0, x);
    assert HandsOut(p, n, 0, x);
  }

  /** The column counter wraps inside the first band. */
  lemma BandRepeats(p: Plan)
    requires Banded(p) && p.Valid() && RoundUp(p.width, p.Stride()) > UINT16_MAX
    ensures !NoPixelTwice(p)
  {
    var n := WrapsIntoFirstBlock(p.width, p.Stride());
    var x := AxisAt(p.Stride(), n);
    BandCounters(p, 0, n, 0);
    FirstClaim(p, 0, x);
    assert HandsOut(p, n, 0, x);
  }

  lemma LeavesUnwrapped(length: nat, block: nat) returns (m: nat)
    requires 0 < length && 0 < block && RoundUp(length, block) <= UINT16_MAX
    ensures 0 < m && LeavesAt(block, length, m)
  {
    RoundUpBounds(length, block);
    var q := BlockOfPosition(block, length, length - 1);
    LastBlock(length, block, q);
    AxisUnwrapped(block, q + 1);
    AxisStart(block);
    m := FirstLeaving(block, length, q + 1);
  }

  /** The first cell of a band begins at the row counter. */
  lemma BandBegins(p: Plan, m: nat, n: nat)
    requires Banded(p) && p.Valid() && LeavesAt(p.Stride(), p.width, m) && 0 < m && Below(p.Stride(), p.height, n + 1)
    ensures HandsOut(p, BandStart(m, n), AxisAt(p.Stride(), n), 0)
  {
    var row := AxisAt(p.Stride(), n);
    GridRows(p, m, n);
    CellCovers(p, row, 0, row, 0);
  }

  /** Every band ends, and the row counter wraps. */
  lemma BandsRepeat(p: Plan)
    requires Banded(p) && p.Valid() && RoundUp(p.width, p.Stride()) <= UINT16_MAX && RoundUp(p.height, p.Stride()) > UINT16_MAX
    ensures !NoPixelTwice(p)
  {
    var m := LeavesUnwrapped(p.width, p.Stride());
    var n := WrapsIntoFirstBlock(p.height, p.Stride());
    BandBegins(p, m, n);
    BandStartsGrow(m, 1, n);
    assert BandStart(m, 1) == BandStart(m, 0) + m;
    FirstClaim(p, AxisAt(p.Stride(), n), 0);
  }

  /** In all four modes: no pixel is handed out twice if and only if no counter wraps. */
  lemma NoPixelTwiceIff(p: Plan)
    requires p.Valid()
    ensures NoPixelTwice(p) <==> NeverWraps(p.mode, p.width, p.height, p.block)
  {
    if NeverWraps(p.mode, p.width, p.height, p.block) {
      NoWrapNoRepeat(p);
    } else if p.mode.ByRow? {
      RowRepeats(p);
    } else if p.mode.ByColumn? {
      ColumnRepeats(p);
    } else if RoundUp(p.width, p.Stride()) > UINT16_MAX {
      BandRepeats(p);
    } else {
      BandsRepeat(p);
    }
  }

  // ---- the work the claims hand out -----------------------------------------------------------

  /** A granted region is not empty and lies in the picture, wrapped counters or not. */
  lemma GrantedRegion(p: Plan, n: Counters)
    requires p.Valid() && p.Next(n).Granted?
    ensures var r := p.Next(n).region;
            r.Within(p.width, p.height) && r.startRow < r.endRow && r.startColumn < r.endColumn
  {
  }

  /** The pixels of the claims from n up to `end`, and two for each claim. */
  function Cost(p: Plan, n: nat, end: nat): nat
    requires p.Valid()
    decreases end - n
  {
    if end <= n || ClaimAt(p, n).Refused? then 0
    else
      GrantedRegion(p, CountersAt(p, n));
      AreaOf(ClaimAt(p, n).region) + 2 + Cost(p, n + 1, end)
  }

  lemma {:induction false} StaysRefused(p: Plan, end: nat, n: nat)
    requires end <= n && ClaimAt(p, end).Refused?
    ensures CountersAt(p, n) == CountersAt(p, end)
    decreases n
  {
    if end < n {
      StaysRefused(p, end, n - 1);
    }
  }

  lemma ClaimCosts(p: Plan, n: nat, end: nat)
    requires p.Valid() && ClaimAt(p, end).Refused? && ClaimAt(p, n).Granted?
    ensures var r := ClaimAt(p, n).region;
            r.startRow < r.endRow && r.startColumn < r.endColumn && Cost(p, n, end) == AreaOf(r) + 2 + Cost(p, n + 1, end)
  {
    GrantedRegion(p, CountersAt(p, n));
    if end <= n {
      StaysRefused(p, end, n);
    }
  }

  /** If no counter wraps, every pixel not yet handed out costs at most three. */
  lemma {:induction false} CostUnwrapped(p: Plan, n: nat, end: nat)
    requires p.Valid() && NeverWraps(p.mode, p.width, p.height, p.block)
    ensures Cost(p, n, end) <= 3 * Unclaimed(p.mode, p.width, p.height, p.block, CountersAt(p, n))
    decreases end - n
  {
    if n < end && ClaimAt(p, n).Granted? {
      CountersOnBoundary(p, n);
      ClaimReducesUnclaimed(p.mode, p.width, p.height, p.block, CountersAt(p, n));
      CostUnwrapped(p, n + 1, end);
    }
  }

  lemma UnclaimedAtFirst(p: Plan)
    requires p.Valid()
    ensures Unclaimed(p.mode, p.width, p.height, p.block, Counters(0, 0)) == p.width * p.height
  {
    Commute(p.width, p.height);
    if Banded(p) {
      SplitRows(p.width, p.height, 0, p.Stride());
    }
  }

  lemma UnwrappedAxisEnds(length: nat, block: nat)
    requires 0 < length && 0 < block && RoundUp(length, block) <= UINT16_MAX
    ensures AxisEnds(length, block)
  {
    var m := LeavesUnwrapped(length, block);
    AxisIsMultiple(block, m);
  }

  /** Counters that never wrap end the claims. */
  lemma NeverWrapsEnds(p: Plan)
    requires p.Valid() && NeverWraps(p.mode, p.width, p.height, p.block)
    ensures AxesEnd(p)
  {
    if !p.mode.ByColumn? {
      UnwrappedAxisEnds(p.height, p.Stride());
    }
    if !p.mode.ByRow? {
      UnwrappedAxisEnds(p.width, p.Stride());
    }
  }

  /** Claims by sevens wrap over 65535 rows and still end; claims by fours over 65534 rows never do. */
  lemma WrappingClaims()
    ensures Ends(Plan(ByRow, 1, 65535, 7)) && !NoPixelTwice(Plan(ByRow, 1, 65535, 7))
    ensures !Ends(Plan(ByRow, 1, 65534, 4))
  {
    var sevens, fours := Plan(ByRow, 1, 65535, 7), Plan(ByRow, 1, 65534, 4);
    assert Gcd(7, UINT16_SPAN) == 1 && Gcd(4, UINT16_SPAN) == 4;
    EndsIff(sevens);
    NoPixelTwiceIff(sevens);
    EndsIff(fours);
  }
}
