/** The block claims as the code performs them, in place, and the loop that filters one picture block by block. */
module BlockLoops {
  import opened Pixels
  import opened Convolution
  import opened Filtering
  import opened BlockClaims
  import opened BlockSequence

  /** `struct thread_spec`: the region a thread is working on. */
  class ThreadSpec {
    var startRow: nat
    var endRow: nat
    var startColumn: nat
    var endColumn: nat

    constructor ()
      ensures Bounds() == Region(0, 0, 0, 0)
    {
      startRow, endRow, startColumn, endColumn := 0, 0, 0, 0;
    }

    function Bounds(): Region
      reads this
    {
      Region(startRow, endRow, startColumn, endColumn)
    }
  }

  /** The pair of `uint16_t` block counters. */
  class BlockCounters {
    var nextRow: nat
    var nextColumn: nat

    constructor ()
      ensures Value() == Counters(0, 0)
    {
      nextRow, nextColumn := 0, 0;
    }

    function Value(): Counters
      reads this
    {
      Counters(nextRow, nextColumn)
    }
  }

  method ProcessByRow(spec: ThreadSpec, next: BlockCounters, width: nat, height: nat, block: nat) returns (status: nat)
    modifies spec, next
    ensures match ClaimNext(ByRow, width, height, block, old(next.Value()))
            case Refused =>
              status == 1 && next.Value() == old(next.Value())
              && spec.Bounds() == old(spec.Bounds()).(startRow := 0, endRow := 0)
            case Granted(region, counters) =>
              status == 0 && next.Value() == counters && spec.Bounds() == region
  {
    if next.nextRow >= height {
      spec.endRow := 0;
      spec.startRow := 0;
      return 1;
    }
    spec.startRow := next.nextRow;
    next.nextRow := Advance(next.nextRow, block);

    spec.startColumn := 0;
    spec.endRow := Min(spec.startRow + block, height);
    spec.endColumn := width;
    return 0;
  }

  method ProcessByColumn(spec: ThreadSpec, next: BlockCounters, width: nat, height: nat, block: nat) returns (status: nat)
    modifies spec, next
    ensures match ClaimNext(ByColumn, width, height, block, old(next.Value()))
            case Refused =>
              status == 1 && next.Value() == old(next.Value())
              && spec.Bounds() == old(spec.Bounds()).(startColumn := 0, endColumn := 0)
            case Granted(region, counters) =>
              status == 0 && next.Value() == counters && spec.Bounds() == region
  {
    if next.nextColumn >= width {
      spec.endColumn := 0;
      spec.startColumn := 0;
      return 1;
    }
    spec.startColumn := next.nextColumn;
    next.nextColumn := Advance(next.nextColumn, block);

    spec.startRow := 0;
    spec.endRow := height;
    spec.endColumn := Min(spec.startColumn + block, width);
    return 0;
  }

  method ProcessByGrid(spec: ThreadSpec, next: BlockCounters, width: nat, height: nat, block: nat) returns (status: nat)
    modifies spec, next
    ensures match ClaimNext(ByGrid, width, height, block, old(next.Value()))
            case Refused =>
              status == 1 && next.Value() == old(next.Value()) && spec.Bounds() == Region(0, 0, 0, 0)
            case Granted(region, counters) =>
              status == 0 && next.Value() == counters && spec.Bounds() == region
  {
    if next.nextRow >= height || next.nextColumn >= width {
      spec.endRow := 0;
      spec.startRow := 0;
      spec.endColumn := 0;
      spec.startColumn := 0;
      return 1;
    }
    spec.startRow := next.nextRow;
    spec.startColumn := next.nextColumn;
    next.nextColumn := Advance(next.nextColumn, block);
    if next.nextColumn >= width {
      next.nextColumn := 0;
      next.nextRow := Advance(next.nextRow, block);
    }

    spec.endRow := Min(spec.startRow + block, height);
    spec.endColumn := Min(spec.startColumn + block, width);
    return 0;
  }

  method ProcessByPixel(spec: ThreadSpec, next: BlockCounters, width: nat, height: nat) returns (status: nat)
    modifies spec, next
    ensures match ClaimNext(ByPixel, width, height, 1, old(next.Value()))
            case Refused =>
              status == 1 && next.Value() == old(next.Value()) && spec.Bounds() == Region(0, 0, 0, 0)
            case Granted(region, counters) =>
              status == 0 && next.Value() == counters && spec.Bounds() == region
  {
    status := ProcessByGrid(spec, next, width, height, 1);
  }

  /** The switch over the compute modes that both thread loops share. */
  method ProcessNext(mode: Mode, spec: ThreadSpec, next: BlockCounters, width: nat, height: nat, block: nat) returns (status: nat)
    modifies spec, next
    ensures match ClaimNext(mode, width, height, block, old(next.Value()))
            case Refused =>
              status == 1 && next.Value() == old(next.Value())
            case Granted(region, counters) =>
              status == 0 && next.Value() == counters && spec.Bounds() == region
  {
    match mode
    case ByRow => status := ProcessByRow(spec, next, width, height, block);
    case ByColumn => status := ProcessByColumn(spec, next, width, height, block);
    case ByPixel => status := ProcessByPixel(spec, next, width, height);
    case ByGrid => status := ProcessByGrid(spec, next, width, height, block);
  }

  /** Every pixel handed out before the n-th claim has been filtered. */
  ghost predicate FilteredBefore(p: Plan, n: nat, filter: Filter, input: Picture, output: array2<Pixel>)
    reads output
  {
    && output.Length0 == input.height == p.height && output.Length1 == input.width == p.width
    && forall y, x :: input.Has(y, x) && HandedOutBefore(p, n, y, x) ==> output[y, x] == filter.PixelAt(input, y, x)
  }

  /** One round of the loop: claims a block and filters it, or finds that there is none. */
  method ProcessBlock(plan: Plan, ghost n: nat, spec: ThreadSpec, next: BlockCounters, filter: Filter, input: Picture, output: array2<Pixel>)
    returns (more: bool)
    requires filter.Applies(input) && next.Value() == CountersAt(plan, n) && FilteredBefore(plan, n, filter, input, output)
    modifies spec, next, output
    ensures more == ClaimAt(plan, n).Granted?
    ensures more ==> next.Value() == CountersAt(plan, n + 1) && FilteredBefore(plan, n + 1, filter, input, output)
    ensures !more ==> next.Value() == CountersAt(plan, n) && FilteredBefore(plan, n, filter, input, output)
  {
    var status := ProcessNext(plan.mode, spec, next, plan.width, plan.height, plan.block);
    more := status == 0;
    if more {
      FilterPart(spec.Bounds(), filter, input, output);
      forall y, x | input.Has(y, x) && HandedOutBefore(plan, n + 1, y, x)
        ensures output[y, x] == filter.PixelAt(input, y, x)
      {
        HandedOutNext(plan, n, y, x);
      }
    }
  }

  lemma AllFiltered(p: Plan, n: nat, filter: Filter, input: Picture, output: array2<Pixel>)
    requires p.Valid() && ClaimAt(p, n).Refused? && FilteredBefore(p, n, filter, input, output)
    ensures Holds(output, filter.Result(input))
  {
    AllHandedOut(p, n);
  }

  /**
   * `worker_process_image`: claims and filters blocks until a claim is refused, which happens whenever the
   * claims end at all; the whole output is then the filter's result, even if blocks were claimed twice.
   */
  method WorkerProcessImage(mode: Mode, block: nat, filter: Filter, input: Picture, output: array2<Pixel>)
    requires output.Length0 == input.height && output.Length1 == input.width
    requires filter.Applies(input) && 0 < block <= UINT16_MAX && AxesEnd(Plan(mode, input.width, input.height, block))
    modifies output
    ensures Contents(output) == filter.Result(input)
  {
    var plan := Plan(mode, input.width, input.height, block);
    EndsIff(plan);
    ghost var end: nat :| ClaimAt(plan, end).Refused?;
    ghost var n: nat := 0;
    var next := new BlockCounters();
    var spec := new ThreadSpec();
    var more := true;
    while more
      invariant fresh(next) && fresh(spec)
      invariant n <= end && next.Value() == CountersAt(plan, n) && FilteredBefore(plan, n, filter, input, output)
      invariant !more ==> ClaimAt(plan, n).Refused?
      decreases more, end - n
    {
      more := ProcessBlock(plan, n, spec, next, filter, input, output);
      if more {
        n := n + 1;
      }
    }
    AllFiltered(plan, n, filter, input, output);
    HeldPicture(output, filter.Result(input));
  }
}
