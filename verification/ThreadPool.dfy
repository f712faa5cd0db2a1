/**
 * The multi-threaded engine as a step relation: any number of threads claim blocks from the shared
 * counters and write the shared output one pixel at a time, in every possible interleaving.
 */
module ThreadPool {
  import opened Arithmetic
  import opened Pixels
  import opened Convolution
  import opened Filtering
  import opened BlockClaims
  import opened BlockSequence

  /** What stays fixed during a run; the input is here because no step can write it. */
  datatype Job = Job(mode: Mode, block: nat, filter: Filter, input: Picture) {
    predicate Ok() {
      filter.Applies(input) && 0 < block <= UINT16_MAX
    }

    function Claims(): Plan {
      Plan(mode, input.width, input.height, block)
    }

    predicate Unwrapped() {
      NeverWraps(mode, input.width, input.height, block)
    }
  }

  /** Where a thread of `sthread_function` stands; a working thread is about to write pixel (y, x) of its region. */
  datatype Thread = Claiming | Working(region: Region, y: nat, x: nat) | Exited

  datatype Pool = Pool(counters: Counters, threads: seq<Thread>, output: Picture)

  datatype Step = ClaimBlock(t: nat) | WritePixel(t: nat) | FinishBlock(t: nat)

  function Put(p: Picture, y: nat, x: nat, v: Pixel): (q: Picture)
    requires p.Has(y, x)
    ensures q.width == p.width && q.height == p.height
    ensures forall i, j :: p.Has(i, j) ==> q.At(i, j) == if i == y && j == x then v else p.At(i, j)
  {
    Raster(p.width, p.height, p.pixels[y := p.pixels[y][x := v]])
  }

  predicate Enabled(job: Job, s: Pool, step: Step) {
    step.t < |s.threads|
    && match step
       case ClaimBlock(t) => s.threads[t].Claiming?
       case WritePixel(t) => s.threads[t].Working? && s.threads[t].y < s.threads[t].region.endRow && s.output.Has(s.threads[t].y, s.threads[t].x)
       case FinishBlock(t) => s.threads[t].Working? && s.threads[t].y >= s.threads[t].region.endRow
  }

  /** The two pixel loops, one iteration further. */
  function NextPixel(w: Thread): Thread
    requires w.Working?
  {
    if w.x + 1 < w.region.endColumn then w.(x := w.x + 1) else w.(y := w.y + 1, x := w.region.startColumn)
  }

  function Apply(job: Job, s: Pool, step: Step): Pool
    requires Enabled(job, s, step)
  {
    var t := step.t;
    match step
    case ClaimBlock(_) =>
      (match job.Claims().Next(s.counters)
       case Refused => s.(threads := s.threads[t := Exited])
       case Granted(region, counters) =>
         s.(counters := counters, threads := s.threads[t := Working(region, region.startRow, region.startColumn)]))
    case WritePixel(_) =>
      var w := s.threads[t];
      s.(output := Put(s.output, w.y, w.x, job.filter.PixelAt(job.input, w.y, w.x)),
         threads := s.threads[t := NextPixel(w)])
    case FinishBlock(_) =>
      s.(threads := s.threads[t := Claiming])
  }

  /** All threads about to make their first claim, over an output of any content. */
  predicate Initial(job: Job, s: Pool) {
    s.counters == Counters(0, 0)
    && 0 < |s.threads| && (forall t :: 0 <= t < |s.threads| ==> s.threads[t].Claiming?)
    && s.output.width == job.input.width && s.output.height == job.input.height
  }

  // ---- the invariant --------------------------------------------------------------------------

  predicate WellPlaced(job: Job, w: Thread) {
    w.Working? ==>
      && w.region.Within(job.input.width, job.input.height)
      && w.region.startRow <= w.y <= w.region.endRow
      && w.region.startColumn <= w.x < w.region.endColumn
      && (w.y == w.region.endRow ==> w.x == w.region.startColumn)
  }

  predicate HoldsPixel(w: Thread, y: int, x: int) {
    w.Working? && w.region.Covers(y, x)
  }

  /** The pixel is in the part of the region still to be written. */
  predicate Pending(w: Thread, y: int, x: int) {
    HoldsPixel(w, y, x) && (w.y < y || (w.y == y && w.x <= x))
  }

  predicate Done(job: Job, output: Picture, y: int, x: int)
    requires output.Has(y, x)
  {
    output.At(y, x) == job.filter.PixelAt(job.input, y, x)
  }

  ghost predicate DoneOrPending(job: Job, s: Pool, y: int, x: int)
    requires s.output.Has(y, x)
  {
    Done(job, s.output, y, x) || exists t :: 0 <= t < |s.threads| && Pending(s.threads[t], y, x)
  }

  /** What holds after n granted claims, whether or not the counters have wrapped. */
  ghost predicate Inv(job: Job, s: Pool, n: nat) {
    && s.output.width == job.input.width && s.output.height == job.input.height
    && s.counters == CountersAt(job.Claims(), n)
    && (forall t :: 0 <= t < |s.threads| ==> WellPlaced(job, s.threads[t]))
    && (forall y, x :: job.input.Has(y, x) && HandedOutBefore(job.Claims(), n, y, x) ==> DoneOrPending(job, s, y, x))
    && (forall t :: 0 <= t < |s.threads| && s.threads[t].Exited? ==> ClaimAt(job.Claims(), n).Refused?)
  }

  /** The number of granted claims after a step. */
  function ClaimsAfter(job: Job, s: Pool, n: nat, step: Step): nat {
    if step.ClaimBlock? && job.Claims().Next(s.counters).Granted? then n + 1 else n
  }

  lemma InitialInv(job: Job, s: Pool)
    requires job.Ok() && Initial(job, s)
    ensures Inv(job, s, 0)
  {
  }

  lemma StillPending(job: Job, s: Pool, s': Pool, t: nat, y: int, x: int)
    requires t < |s.threads| == |s'.threads| && s.output.Has(y, x) && s'.output.Has(y, x)
    requires forall u :: 0 <= u < |s.threads| && u != t ==> s'.threads[u] == s.threads[u]
    requires DoneOrPending(job, s, y, x)
    requires Done(job, s.output, y, x) ==> Done(job, s'.output, y, x)
    requires Pending(s.threads[t], y, x) ==> Done(job, s'.output, y, x) || Pending(s'.threads[t], y, x)
    ensures DoneOrPending(job, s', y, x)
  {
    if !Done(job, s.output, y, x) {
      var u :| 0 <= u < |s.threads| && Pending(s.threads[u], y, x);
      assert u != t ==> Pending(s'.threads[u], y, x);
    }
  }

  lemma RefusalKeepsInv(job: Job, s: Pool, n: nat, t: nat)
    requires job.Ok() && Inv(job, s, n) && Enabled(job, s, ClaimBlock(t)) && job.Claims().Next(s.counters).Refused?
    ensures Inv(job, Apply(job, s, ClaimBlock(t)), n)
  {
    var s' := Apply(job, s, ClaimBlock(t));
    forall y, x | job.input.Has(y, x) && HandedOutBefore(job.Claims(), n, y, x)
      ensures DoneOrPending(job, s', y, x)
    {
      StillPending(job, s, s', t, y, x);
    }
  }

  lemma GrantKeepsInv(job: Job, s: Pool, n: nat, t: nat)
    requires job.Ok() && Inv(job, s, n) && Enabled(job, s, ClaimBlock(t)) && job.Claims().Next(s.counters).Granted?
    ensures Inv(job, Apply(job, s, ClaimBlock(t)), n + 1)
  {
    var s' := Apply(job, s, ClaimBlock(t));
    var region := job.Claims().Next(s.counters).region;
    GrantedRegion(job.Claims(), s.counters);
    forall y, x | job.input.Has(y, x) && HandedOutBefore(job.Claims(), n + 1, y, x)
      ensures DoneOrPending(job, s', y, x)
    {
      HandedOutNext(job.Claims(), n, y, x);
      if region.Covers(y, x) {
        assert Pending(s'.threads[t], y, x);
      } else {
        StillPending(job, s, s', t, y, x);
      }
    }
  }

  lemma WriteKeepsInv(job: Job, s: Pool, n: nat, t: nat)
    requires job.Ok() && Inv(job, s, n) && Enabled(job, s, WritePixel(t))
    ensures Inv(job, Apply(job, s, WritePixel(t)), n)
  {
    var s' := Apply(job, s, WritePixel(t));
    forall y, x | job.input.Has(y, x) && HandedOutBefore(job.Claims(), n, y, x)
      ensures DoneOrPending(job, s', y, x)
    {
      StillPending(job, s, s', t, y, x);
    }
  }

  lemma FinishKeepsInv(job: Job, s: Pool, n: nat, t: nat)
    requires job.Ok() && Inv(job, s, n) && Enabled(job, s, FinishBlock(t))
    ensures Inv(job, Apply(job, s, FinishBlock(t)), n)
  {
    var s' := Apply(job, s, FinishBlock(t));
    forall y, x | job.input.Has(y, x) && HandedOutBefore(job.Claims(), n, y, x)
      ensures DoneOrPending(job, s', y, x)
    {
      StillPending(job, s, s', t, y, x);
    }
  }

  lemma StepKeepsInv(job: Job, s: Pool, n: nat, step: Step)
    requires job.Ok() && Inv(job, s, n) && Enabled(job, s, step)
    ensures Inv(job, Apply(job, s, step), ClaimsAfter(job, s, n, step))
  {
    match step
    case ClaimBlock(t) =>
      if job.Claims().Next(s.counters).Granted? {
        GrantKeepsInv(job, s, n, t);
      } else {
        RefusalKeepsInv(job, s, n, t);
      }
    case WritePixel(t) => WriteKeepsInv(job, s, n, t);
    case FinishBlock(t) => FinishKeepsInv(job, s, n, t);
  }

  // ---- regions that do not overlap ------------------------------------------------------------

  ghost predicate Disjoint(v: Thread, w: Thread) {
    forall y, x :: !(HoldsPixel(v, y, x) && HoldsPixel(w, y, x))
  }

  /** As long as no counter wraps: what threads hold is claimed, and no two of them hold the same pixel. */
  ghost predicate Apart(job: Job, s: Pool) {
    && (forall t, y, x :: 0 <= t < |s.threads| && HoldsPixel(s.threads[t], y, x) ==> Claimed(job.mode, job.block, s.counters, y, x))
    && (forall t, u :: 0 <= t < u < |s.threads| ==> Disjoint(s.threads[t], s.threads[u]))
  }

  lemma GrantKeepsApart(job: Job, s: Pool, n: nat, t: nat)
    requires job.Ok() && job.Unwrapped() && Inv(job, s, n) && Apart(job, s)
    requires Enabled(job, s, ClaimBlock(t)) && job.Claims().Next(s.counters).Granted?
    ensures Apart(job, Apply(job, s, ClaimBlock(t)))
  {
    var w, h := job.input.width, job.input.height;
    var s' := Apply(job, s, ClaimBlock(t));
    var region := job.Claims().Next(s.counters).region;
    CountersOnBoundary(job.Claims(), n);
    ClaimHandsOut(job.mode, w, h, job.block, s.counters);
    forall u, y, x | 0 <= u < |s'.threads| && HoldsPixel(s'.threads[u], y, x)
      ensures Claimed(job.mode, job.block, s'.counters, y, x)
      ensures u != t ==> !region.Covers(y, x)
    {
      if u != t {
        assert HoldsPixel(s.threads[u], y, x) && WellPlaced(job, s.threads[u]);
      }
      assert job.input.Has(y, x);
    }
  }

  /** The other steps take no pixel. */
  lemma OthersKeepApart(job: Job, s: Pool, step: Step)
    requires job.Ok() && Apart(job, s) && Enabled(job, s, step)
    requires step.ClaimBlock? ==> job.Claims().Next(s.counters).Refused?
    ensures Apart(job, Apply(job, s, step))
  {
    var s' := Apply(job, s, step);
    forall u, y, x | 0 <= u < |s'.threads| && HoldsPixel(s'.threads[u], y, x)
      ensures HoldsPixel(s.threads[u], y, x)
    {
    }
  }

  lemma StepKeepsApart(job: Job, s: Pool, n: nat, step: Step)
    requires job.Ok() && job.Unwrapped() && Inv(job, s, n) && Apart(job, s) && Enabled(job, s, step)
    ensures Apart(job, Apply(job, s, step))
  {
    if step.ClaimBlock? && job.Claims().Next(s.counters).Granted? {
      GrantKeepsApart(job, s, n, step.t);
    } else {
      OthersKeepApart(job, s, step);
    }
  }

  // ---- the measure ----------------------------------------------------------------------------

  /** Pixels a working thread has still to write. */
  function Remaining(w: Thread): nat
    requires w.Working?
  {
    if w.y < w.region.endRow && w.region.startColumn <= w.x < w.region.endColumn then
      var rows: nat := w.region.endRow - w.y - 1;
      var columns: nat := w.region.endColumn - w.region.startColumn;
      rows * columns + (w.region.endColumn - w.x)
    else 0
  }

  function Work(w: Thread): nat {
    match w
    case Exited => 0
    case Claiming => 1
    case Working(_, _, _) => 2 + Remaining(w)
  }

  function TotalWork(ts: seq<Thread>): nat {
    if ts == [] then 0 else Work(ts[0]) + TotalWork(ts[1..])
  }

  lemma {:induction false} TotalWorkUpdate(ts: seq<Thread>, t: nat, w: Thread)
    requires t < |ts|
    ensures TotalWork(ts[t := w]) + Work(ts[t]) == TotalWork(ts) + Work(w)
  {
    if t > 0 {
      TotalWorkUpdate(ts[1..], t - 1, w);
      assert ts[t := w][1..] == ts[1..][t - 1 := w];
    } else {
      assert ts[t := w][1..] == ts[1..];
    }
  }

  /** What is still to be done after n claims, if the claim numbered `end` is refused. */
  function Measure(job: Job, s: Pool, n: nat, end: nat): nat
    requires job.Ok()
  {
    Cost(job.Claims(), n, end) + TotalWork(s.threads)
  }

  lemma FreshRegionRemaining(r: Region)
    requires r.startRow < r.endRow && r.startColumn < r.endColumn
    ensures Remaining(Working(r, r.startRow, r.startColumn)) == AreaOf(r)
  {
    var width := r.endColumn - r.startColumn;
    Distribute(width, r.endRow - r.startRow - 1, 1);
  }

  lemma NextPixelRemaining(job: Job, w: Thread)
    requires w.Working? && WellPlaced(job, w) && w.y < w.region.endRow
    ensures Remaining(NextPixel(w)) + 1 == Remaining(w)
  {
    var width := w.region.endColumn - w.region.startColumn;
    if w.x + 1 >= w.region.endColumn && w.y + 1 < w.region.endRow {
      Distribute(width, w.region.endRow - w.y - 2, 1);
    }
  }

  /** Every step, whichever thread takes it, lowers the measure. */
  lemma StepLowersMeasure(job: Job, s: Pool, n: nat, step: Step, end: nat)
    requires job.Ok() && Inv(job, s, n) && Enabled(job, s, step) && ClaimAt(job.Claims(), end).Refused?
    ensures Measure(job, Apply(job, s, step), ClaimsAfter(job, s, n, step), end) < Measure(job, s, n, end)
  {
    var t := step.t;
    var s' := Apply(job, s, step);
    TotalWorkUpdate(s.threads, t, s'.threads[t]);
    assert s'.threads == s.threads[t := s'.threads[t]];
    match step
    case ClaimBlock(_) =>
      if job.Claims().Next(s.counters).Granted? {
        ClaimCosts(job.Claims(), n, end);
        FreshRegionRemaining(job.Claims().Next(s.counters).region);
      }
    case WritePixel(_) =>
      NextPixelRemaining(job, s.threads[t]);
    case FinishBlock(_) =>
  }

  // ---- whole runs -----------------------------------------------------------------------------

  predicate ValidRun(job: Job, s: Pool, steps: seq<Step>)
    decreases |steps|
  {
    steps == [] || (Enabled(job, s, steps[0]) && ValidRun(job, Apply(job, s, steps[0]), steps[1..]))
  }

  function After(job: Job, s: Pool, steps: seq<Step>): Pool
    requires ValidRun(job, s, steps)
    decreases |steps|
  {
    if steps == [] then s else After(job, Apply(job, s, steps[0]), steps[1..])
  }

  /** The state a run reaches, with its invariant. */
  lemma {:induction false} RunKeepsInv(job: Job, s: Pool, n: nat, steps: seq<Step>) returns (m: nat)
    requires job.Ok() && Inv(job, s, n) && ValidRun(job, s, steps)
    ensures Inv(job, After(job, s, steps), m)
    decreases |steps|
  {
    m := n;
    if steps != [] {
      StepKeepsInv(job, s, n, steps[0]);
      m := RunKeepsInv(job, Apply(job, s, steps[0]), ClaimsAfter(job, s, n, steps[0]), steps[1..]);
    }
  }

  lemma {:induction false} RunKeepsApart(job: Job, s: Pool, n: nat, steps: seq<Step>)
    requires job.Ok() && job.Unwrapped() && Inv(job, s, n) && Apart(job, s) && ValidRun(job, s, steps)
    ensures Apart(job, After(job, s, steps))
    decreases |steps|
  {
    if steps != [] {
      StepKeepsInv(job, s, n, steps[0]);
      StepKeepsApart(job, s, n, steps[0]);
      RunKeepsApart(job, Apply(job, s, steps[0]), ClaimsAfter(job, s, n, steps[0]), steps[1..]);
    }
  }

  lemma {:induction false} RunLowersMeasure(job: Job, s: Pool, n: nat, steps: seq<Step>, end: nat)
    requires job.Ok() && Inv(job, s, n) && ValidRun(job, s, steps) && ClaimAt(job.Claims(), end).Refused?
    ensures |steps| <= Measure(job, s, n, end)
    decreases |steps|
  {
    if steps != [] {
      StepKeepsInv(job, s, n, steps[0]);
      StepLowersMeasure(job, s, n, steps[0], end);
      RunLowersMeasure(job, Apply(job, s, steps[0]), ClaimsAfter(job, s, n, steps[0]), steps[1..], end);
    }
  }

  /** As long as no counter wraps, no two threads ever hold the same pixel and no region leaves the picture. */
  lemma RegionsNeverOverlap(job: Job, s: Pool, steps: seq<Step>, t: nat, u: nat, y: int, x: int)
    requires job.Ok() && job.Unwrapped() && Initial(job, s) && ValidRun(job, s, steps)
    requires t < u < |After(job, s, steps).threads|
    requires HoldsPixel(After(job, s, steps).threads[t], y, x)
    ensures job.input.Has(y, x) && !HoldsPixel(After(job, s, steps).threads[u], y, x)
  {
    InitialInv(job, s);
    RunKeepsApart(job, s, 0, steps);
    var n := RunKeepsInv(job, s, 0, steps);
    var e := After(job, s, steps);
    assert Disjoint(e.threads[t], e.threads[u]) && WellPlaced(job, e.threads[t]);
  }

  lemma {:induction false} AllClaimingWork(ts: seq<Thread>)
    requires forall t :: 0 <= t < |ts| ==> ts[t].Claiming?
    ensures TotalWork(ts) == |ts|
  {
    if ts != [] {
      AllClaimingWork(ts[1..]);
    }
  }

  /**
   * If the claims end, every schedule does: it takes no more steps than the pixels of all claims, two for
   * each claim and one for each thread.
   */
  lemma RunsEnd(job: Job, s: Pool, steps: seq<Step>, end: nat)
    requires job.Ok() && Initial(job, s) && ValidRun(job, s, steps) && ClaimAt(job.Claims(), end).Refused?
    ensures |steps| <= Cost(job.Claims(), 0, end) + |s.threads|
  {
    InitialInv(job, s);
    RunLowersMeasure(job, s, 0, steps, end);
    AllClaimingWork(s.threads);
  }

  /** As long as no counter wraps, no schedule takes more than three steps a pixel and one a thread. */
  lemma RunsAreBounded(job: Job, s: Pool, steps: seq<Step>)
    requires job.Ok() && job.Unwrapped() && Initial(job, s) && ValidRun(job, s, steps)
    ensures |steps| <= 3 * (job.input.width * job.input.height) + |s.threads|
  {
    NeverWrapsEnds(job.Claims());
    EndsIff(job.Claims());
    var end: nat :| ClaimAt(job.Claims(), end).Refused?;
    RunsEnd(job, s, steps, end);
    CostUnwrapped(job.Claims(), 0, end);
    UnclaimedAtFirst(job.Claims());
  }

  /** A thread exits only if the claims end: otherwise no schedule ever does. */
  lemma ExitMeansEnd(job: Job, s: Pool, steps: seq<Step>, t: nat)
    requires job.Ok() && Initial(job, s) && ValidRun(job, s, steps)
    requires t < |After(job, s, steps).threads| && After(job, s, steps).threads[t].Exited?
    ensures AxesEnd(job.Claims())
  {
    InitialInv(job, s);
    var n := RunKeepsInv(job, s, 0, steps);
    EndsIff(job.Claims());
  }

  /** A reachable state in which no step is enabled is one in which every thread has exited. */
  lemma StuckMeansExited(job: Job, s: Pool, steps: seq<Step>)
    requires job.Ok() && Initial(job, s) && ValidRun(job, s, steps)
    requires forall step: Step :: !Enabled(job, After(job, s, steps), step)
    ensures forall t :: 0 <= t < |After(job, s, steps).threads| ==> After(job, s, steps).threads[t].Exited?
  {
    InitialInv(job, s);
    var n := RunKeepsInv(job, s, 0, steps);
    var e := After(job, s, steps);
    forall t | 0 <= t < |e.threads|
      ensures e.threads[t].Exited?
    {
      assert !Enabled(job, e, ClaimBlock(t)) && !Enabled(job, e, WritePixel(t)) && !Enabled(job, e, FinishBlock(t));
      assert WellPlaced(job, e.threads[t]);
    }
  }

  lemma {:induction false} RunKeepsThreads(job: Job, s: Pool, steps: seq<Step>)
    requires ValidRun(job, s, steps)
    ensures |After(job, s, steps).threads| == |s.threads|
    decreases |steps|
  {
    if steps != [] {
      RunKeepsThreads(job, Apply(job, s, steps[0]), steps[1..]);
    }
  }

  /**
   * Once all threads have exited, whatever the schedule and the block size, the output is the serial
   * filter's result: if counters wrap, threads may write a pixel twice, but never two different values.
   */
  lemma ScheduleIndependence(job: Job, s: Pool, steps: seq<Step>)
    requires job.Ok() && Initial(job, s) && ValidRun(job, s, steps)
    requires forall t :: 0 <= t < |After(job, s, steps).threads| ==> After(job, s, steps).threads[t].Exited?
    ensures After(job, s, steps).output == job.filter.Result(job.input)
  {
    InitialInv(job, s);
    var n := RunKeepsInv(job, s, 0, steps);
    RunKeepsThreads(job, s, steps);
    var e := After(job, s, steps);
    assert e.threads[0].Exited?;
    AllHandedOut(job.Claims(), n);
    forall y, x | e.output.Has(y, x)
      ensures e.output.At(y, x) == job.filter.Result(job.input).At(y, x)
    {
      assert job.input.Has(y, x) && HandedOutBefore(job.Claims(), n, y, x);
      assert DoneOrPending(job, e, y, x);
    }
    SamePixels(e.output, job.filter.Result(job.input));
  }
}
