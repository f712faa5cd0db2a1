/**
 * The four ways of cutting a picture into blocks, and the claim of the next block from the shared
 * 16-bit counters.
 */
module BlockClaims {
  import opened Arithmetic
  import opened Pixels
  import opened Convolution

  datatype Mode = ByRow | ByColumn | ByGrid | ByPixel

  /** `next_x_block` counts rows and `next_y_block` counts columns; both wrap at 16 bits. */
  datatype Counters = Counters(nextRow: nat, nextColumn: nat)

  /** `*next += block_size` on a `uint16_t`. */
  function Advance(next: nat, block: nat): (r: nat)
    ensures r < 0x1_0000 && (next + block - r) % 0x1_0000 == 0
  {
    (next + block) % UINT16_SPAN
  }

  /** The block size in force: pixel mode is grid mode with blocks of one. */
  function BlockOf(mode: Mode, block: nat): nat {
    if mode.ByPixel? then 1 else block
  }

  function Min(a: nat, b: nat): nat {
    if a < b then a else b
  }

  /** A claim either refuses or hands out a region and moves the counters. */
  datatype Claim = Refused | Granted(region: Region, counters: Counters)

  /** One critical section of `process_by_row`, `process_by_column`, `process_by_grid` or `process_by_pixel`. */
  function ClaimNext(mode: Mode, width: nat, height: nat, block: nat, n: Counters): Claim {
    match mode
    case ByRow =>
      if n.nextRow >= height then Refused
      else Granted(Region(n.nextRow, Min(n.nextRow + block, height), 0, width),
                   n.(nextRow := Advance(n.nextRow, block)))
    case ByColumn =>
      if n.nextColumn >= width then Refused
      else Granted(Region(0, height, n.nextColumn, Min(n.nextColumn + block, width)),
                   n.(nextColumn := Advance(n.nextColumn, block)))
    case _ =>
      var b := BlockOf(mode, block);
      if n.nextRow >= height || n.nextColumn >= width then Refused
      else
        var column := Advance(n.nextColumn, b);
        Granted(Region(n.nextRow, Min(n.nextRow + b, height), n.nextColumn, Min(n.nextColumn + b, width)),
                if column >= width then Counters(Advance(n.nextRow, b), 0) else n.(nextColumn := column))
  }

  // ---- when the counters never wrap -----------------------------------------------------------

  /** The first multiple of the block size at or above the length. */
  function RoundUp(length: nat, block: nat): nat
    requires 0 < block
  {
    (length + block - 1) / block * block
  }

  lemma RoundUpBounds(length: nat, block: nat)
    requires 0 < block
    ensures length <= RoundUp(length, block) < length + block
    ensures RoundUp(length, block) % block == 0
    ensures 0 < length ==> block <= RoundUp(length, block)
  {
    var q := (length + block - 1) / block;
    assert block * q == RoundUp(length, block);
    if 0 < length {
      FactorOrder(block, 1, q);
    }
    DivModUnique(RoundUp(length, block), block, q, 0);
  }

  lemma AdvanceCases(next: nat, block: nat)
    requires next + block < 0x2_0000
    ensures Advance(next, block) == if next + block <= UINT16_MAX then next + block else next + block - UINT16_SPAN
  {
  }

  /** A counter at a block boundary inside the axis steps to the next boundary, which RoundUp bounds. */
  lemma NextBoundary(next: nat, length: nat, block: nat)
    requires 0 < block && next % block == 0 && next < length
    ensures next + block <= RoundUp(length, block) && (next + block) % block == 0
  {
    RoundUpBounds(length, block);
    var q, p := next / block, RoundUp(length, block) / block;
    assert next == block * q && RoundUp(length, block) == block * p;
    if p <= q {
      FactorOrder(block, p, q);
      assert false;
    }
    FactorOrder(block, q + 1, p);
    Distribute(block, q, 1);
    ModuloShift(next, block);
  }

  /** Such a counter advances without a wrap when the rounded-up length fits 16 bits. */
  lemma AdvanceToBoundary(next: nat, length: nat, block: nat)
    requires 0 < block && next % block == 0 && next < length && RoundUp(length, block) <= UINT16_MAX
    ensures Advance(next, block) == next + block && (next + block) % block == 0
  {
    NextBoundary(next, length, block);
    AdvanceCases(next, block);
  }

  /** Neither counter of this mode ever wraps. */
  predicate NeverWraps(mode: Mode, width: nat, height: nat, block: nat) {
    0 < BlockOf(mode, block)
    && (mode.ByColumn? || RoundUp(height, BlockOf(mode, block)) <= UINT16_MAX)
    && (mode.ByRow? || RoundUp(width, BlockOf(mode, block)) <= UINT16_MAX)
  }

  /** The bound users can check at once is enough. */
  lemma SmallBlocksNeverWrap(mode: Mode, width: nat, height: nat, block: nat)
    requires 0 < block && height - 1 + block <= UINT16_MAX && width - 1 + block <= UINT16_MAX
    ensures NeverWraps(mode, width, height, block)
  {
    RoundUpBounds(height, BlockOf(mode, block));
    RoundUpBounds(width, BlockOf(mode, block));
  }

  // ---- what has been handed out ---------------------------------------------------------------

  /** The pixels handed out so far, as the counters tell them. */
  predicate Claimed(mode: Mode, block: nat, n: Counters, y: int, x: int) {
    match mode
    case ByRow => y < n.nextRow
    case ByColumn => x < n.nextColumn
    case _ => y < n.nextRow || (y < n.nextRow + BlockOf(mode, block) && x < n.nextColumn)
  }

  /** The counters stand on block boundaries. */
  predicate OnBoundary(mode: Mode, width: nat, block: nat, n: Counters)
    requires 0 < BlockOf(mode, block)
  {
    n.nextRow % BlockOf(mode, block) == 0 && n.nextColumn % BlockOf(mode, block) == 0
    && (mode.ByGrid? || mode.ByPixel? ==> n.nextColumn < width)
  }

  lemma ZeroOnBoundary(block: nat)
    requires 0 < block
    ensures 0 % block == 0
  {
  }

  /** Where a granted claim leaves the counters: no wrap, and on block boundaries again. */
  lemma ClaimMovesCounters(mode: Mode, width: nat, height: nat, block: nat, n: Counters)
    requires 0 < width && NeverWraps(mode, width, height, block) && OnBoundary(mode, width, block, n)
    requires ClaimNext(mode, width, height, block, n).Granted?
    ensures OnBoundary(mode, width, block, ClaimNext(mode, width, height, block, n).counters)
    ensures ClaimNext(mode, width, height, block, n).counters ==
      match mode
      case ByRow => n.(nextRow := n.nextRow + block)
      case ByColumn => n.(nextColumn := n.nextColumn + block)
      case _ =>
        if n.nextColumn + BlockOf(mode, block) >= width then Counters(n.nextRow + BlockOf(mode, block), 0)
        else n.(nextColumn := n.nextColumn + BlockOf(mode, block))
  {
    var b := BlockOf(mode, block);
    if !mode.ByColumn? {
      AdvanceToBoundary(n.nextRow, height, b);
    }
    if !mode.ByRow? {
      AdvanceToBoundary(n.nextColumn, width, b);
    }
    ZeroOnBoundary(b);
  }

  /** A granted region is non-empty, lies in the picture and consists of exactly the pixels that become claimed. */
  lemma ClaimHandsOut(mode: Mode, width: nat, height: nat, block: nat, n: Counters)
    requires 0 < width && 0 < height && NeverWraps(mode, width, height, block) && OnBoundary(mode, width, block, n)
    requires ClaimNext(mode, width, height, block, n).Granted?
    ensures var r := ClaimNext(mode, width, height, block, n).region;
            r.Within(width, height) && r.startRow < r.endRow && r.startColumn < r.endColumn
    ensures var g := ClaimNext(mode, width, height, block, n);
            forall y, x :: 0 <= y < height && 0 <= x < width ==>
              (Claimed(mode, block, g.counters, y, x) <==> Claimed(mode, block, n, y, x) || g.region.Covers(y, x))
    ensures var g := ClaimNext(mode, width, height, block, n);
            forall y, x :: 0 <= y < height && 0 <= x < width ==> !(Claimed(mode, block, n, y, x) && g.region.Covers(y, x))
  {
    ClaimMovesCounters(mode, width, height, block, n);
  }

  lemma NothingClaimedFirst(mode: Mode, block: nat, y: nat, x: nat)
    ensures !Claimed(mode, block, Counters(0, 0), y, x)
  {
  }

  // ---- how much is left -----------------------------------------------------------------------

  /** The pixels of rows `row` and below. */
  function RowsLeft(width: nat, height: nat, row: nat): nat {
    if row < height then (height - row) * width else 0
  }

  /** The pixels left when the band of rows starting at `row` is done up to `column`. */
  function BandLeft(width: nat, height: nat, block: nat, row: nat, column: nat): nat {
    if row < height && column < width then
      (Min(row + block, height) - row) * (width - column) + RowsLeft(width, height, row + block)
    else 0
  }

  /** The number of pixels not yet handed out. */
  function Unclaimed(mode: Mode, width: nat, height: nat, block: nat, n: Counters): nat {
    match mode
    case ByRow => RowsLeft(width, height, n.nextRow)
    case ByColumn => RowsLeft(height, width, n.nextColumn)
    case _ => BandLeft(width, height, BlockOf(mode, block), n.nextRow, n.nextColumn)
  }

  function AreaOf(r: Region): nat
    requires r.startRow <= r.endRow && r.startColumn <= r.endColumn
  {
    (r.endRow - r.startRow) * (r.endColumn - r.startColumn)
  }

  lemma SplitRows(width: nat, height: nat, row: nat, block: nat)
    requires row < height
    ensures RowsLeft(width, height, row) == (Min(row + block, height) - row) * width + RowsLeft(width, height, row + block)
  {
    if row + block < height {
      Distribute(width, block, height - row - block);
    }
  }

  /** The next block of a band, whether or not it is the last one, is what the band loses. */
  lemma SplitBand(width: nat, height: nat, block: nat, row: nat, column: nat)
    requires row < height && column < width && 0 < block
    ensures BandLeft(width, height, block, row, column)
         == (Min(row + block, height) - row) * (Min(column + block, width) - column)
          + if column + block >= width then BandLeft(width, height, block, row + block, 0)
            else BandLeft(width, height, block, row, column + block)
  {
    if column + block >= width {
      if row + block < height {
        SplitRows(width, height, row + block, block);
      }
    } else {
      Distribute(Min(row + block, height) - row, block, width - column - block);
    }
  }

  lemma ProductPositive(a: nat, b: nat)
    requires 0 < a && 0 < b
    ensures 0 < a * b
  {
  }

  /** A claim moves exactly the area of its region out of what is left. */
  lemma ClaimReducesUnclaimed(mode: Mode, width: nat, height: nat, block: nat, n: Counters)
    requires 0 < width && 0 < height && NeverWraps(mode, width, height, block) && OnBoundary(mode, width, block, n)
    requires ClaimNext(mode, width, height, block, n).Granted?
    ensures var r := ClaimNext(mode, width, height, block, n).region;
            r.startRow < r.endRow && r.startColumn < r.endColumn && 0 < AreaOf(r)
    ensures Unclaimed(mode, width, height, block, n)
         == AreaOf(ClaimNext(mode, width, height, block, n).region)
          + Unclaimed(mode, width, height, block, ClaimNext(mode, width, height, block, n).counters)
  {
    var r := ClaimNext(mode, width, height, block, n).region;
    assert r.startRow < r.endRow && r.startColumn < r.endColumn by {
      ClaimHandsOut(mode, width, height, block, n);
    }
    ProductPositive(r.endRow - r.startRow, r.endColumn - r.startColumn);
    ClaimMovesCounters(mode, width, height, block, n);
    if mode.ByRow? {
      SplitRows(width, height, n.nextRow, block);
    } else if mode.ByColumn? {
      SplitRows(height, width, n.nextColumn, block);
      Commute(height, r.endColumn - r.startColumn);
    } else {
      SplitBand(width, height, BlockOf(mode, block), n.nextRow, n.nextColumn);
    }
  }
}
