/** When two threads of the multi-threaded engine can hold the same pixel at one moment. */
module ThreadOverlaps {
  import opened BlockClaims
  import opened BlockSequence
  import opened ThreadPool

  /** In every state of every interleaving no two threads hold the same pixel. */
  ghost predicate NeverOverlap(job: Job, s: Pool) {
    forall steps: seq<Step>, t: nat, u: nat, y, x ::
      ValidRun(job, s, steps) && t < u < |After(job, s, steps).threads| && HoldsPixel(After(job, s, steps).threads[t], y, x)
      ==> !HoldsPixel(After(job, s, steps).threads[u], y, x)
  }

  // ---- runs put together ----------------------------------------------------------------------

  /** The steps lead from one state to the other. */
  ghost predicate Leads(job: Job, s: Pool, steps: seq<Step>, e: Pool) {
    ValidRun(job, s, steps) && After(job, s, steps) == e
  }

  ghost predicate Takes(job: Job, s: Pool, step: Step, next: Pool) {
    Enabled(job, s, step) && next == Apply(job, s, step)
  }

  lemma OneStep(job: Job, s: Pool, step: Step, next: Pool, rest: seq<Step>, e: Pool)
    requires Takes(job, s, step, next) && Leads(job, next, rest, e)
    ensures Leads(job, s, [step] + rest, e)
  {
    assert ([step] + rest)[0] == step && ([step] + rest)[1..] == rest;
  }

  lemma FirstStep(job: Job, s: Pool, steps: seq<Step>, e: Pool) returns (next: Pool)
    requires steps != [] && Leads(job, s, steps, e)
    ensures Takes(job, s, steps[0], next) && Leads(job, next, steps[1..], e)
  {
    next := Apply(job, s, steps[0]);
  }

  lemma {:induction false} Together(job: Job, s: Pool, first: seq<Step>, m: Pool, second: seq<Step>, e: Pool)
    requires Leads(job, s, first, m) && Leads(job, m, second, e)
    ensures Leads(job, s, first + second, e)
    decreases |first|
  {
    if first == [] {
      assert first + second == second;
    } else {
      var next := FirstStep(job, s, first, m);
      Together(job, next, first[1..], m, second, e);
      OneStep(job, s, first[0], next, first[1..] + second, e);
      assert first + second == [first[0]] + (first[1..] + second);
    }
  }

  // ---- one thread on its own ------------------------------------------------------------------

  predicate Sized(job: Job, s: Pool) {
    s.output.width == job.input.width && s.output.height == job.input.height
  }

  /** The states differ in the output only, which keeps its size. */
  predicate SameBut(job: Job, e: Pool, counters: Counters, threads: seq<Thread>) {
    e.counters == counters && e.threads == threads && Sized(job, e)
  }

  /** Left alone, a working thread finishes its region. */
  lemma {:induction false} FinishRegion(job: Job, s: Pool, t: nat) returns (steps: seq<Step>, e: Pool)
    requires Sized(job, s) && t < |s.threads| && s.threads[t].Working? && WellPlaced(job, s.threads[t])
    ensures Leads(job, s, steps, e) && SameBut(job, e, s.counters, s.threads[t := Claiming])
    decreases Remaining(s.threads[t])
  {
    var w := s.threads[t];
    if w.y < w.region.endRow {
      var next := Apply(job, s, WritePixel(t));
      NextPixelRemaining(job, w);
      var rest;
      rest, e := FinishRegion(job, next, t);
      OneStep(job, s, WritePixel(t), next, rest, e);
      steps := [WritePixel(t)] + rest;
      assert next.threads[t := Claiming] == s.threads[t := Claiming];
    } else {
      e := Apply(job, s, FinishBlock(t));
      steps := [FinishBlock(t)];
      OneStep(job, s, FinishBlock(t), e, [], e);
    }
  }

  /** The state after a granted claim. */
  function Claimant(job: Job, s: Pool, t: nat): Pool
    requires job.Claims().Next(s.counters).Granted? && t < |s.threads|
  {
    var g := job.Claims().Next(s.counters);
    s.(counters := g.counters, threads := s.threads[t := Working(g.region, g.region.startRow, g.region.startColumn)])
  }

  lemma TakeClaim(job: Job, s: Pool, t: nat, n: nat) returns (steps: seq<Step>)
    requires job.Ok() && Sized(job, s) && t < |s.threads| && s.threads[t].Claiming?
    requires s.counters == CountersAt(job.Claims(), n) && ClaimAt(job.Claims(), n).Granted?
    ensures Leads(job, s, steps, Claimant(job, s, t)) && Claimant(job, s, t).counters == CountersAt(job.Claims(), n + 1)
    ensures Sized(job, Claimant(job, s, t)) && WellPlaced(job, Claimant(job, s, t).threads[t])
    ensures forall y, x :: HandsOut(job.Claims(), n, y, x) ==> HoldsPixel(Claimant(job, s, t).threads[t], y, x)
  {
    GrantedRegion(job.Claims(), s.counters);
    OneStep(job, s, ClaimBlock(t), Claimant(job, s, t), [], Claimant(job, s, t));
    steps := [ClaimBlock(t)] + [];
  }

  /** A thread takes and finishes the claims from n up to m. */
  lemma {:induction false} WorkThrough(job: Job, s: Pool, t: nat, n: nat, m: nat) returns (steps: seq<Step>, e: Pool)
    requires job.Ok() && Sized(job, s) && t < |s.threads| && s.threads[t].Claiming? && n <= m
    requires s.counters == CountersAt(job.Claims(), n) && forall i: nat :: n <= i < m ==> ClaimAt(job.Claims(), i).Granted?
    ensures Leads(job, s, steps, e) && SameBut(job, e, CountersAt(job.Claims(), m), s.threads)
    decreases m - n
  {
    if n == m {
      steps, e := [], s;
    } else {
      assert ClaimAt(job.Claims(), n).Granted?;
      var taken := Claimant(job, s, t);
      var first := TakeClaim(job, s, t, n);
      var second, done := FinishRegion(job, taken, t);
      assert done.threads == s.threads;
      var rest;
      rest, e := WorkThrough(job, done, t, n + 1, m);
      Together(job, taken, second, done, rest, e);
      Together(job, s, first, taken, second + rest, e);
      steps := first + (second + rest);
    }
  }

  // ---- two threads ----------------------------------------------------------------------------

  /** Nothing is refused before a granted claim. */
  lemma GrantedBefore(p: Plan, i: nat, j: nat)
    requires i <= j && ClaimAt(p, j).Granted?
    ensures ClaimAt(p, i).Granted?
  {
    if ClaimAt(p, i).Refused? {
      StaysRefused(p, i, j);
    }
  }

  /** Thread 0 works up to claim n and takes it. */
  lemma FirstHolds(job: Job, s: Pool, n: nat) returns (steps: seq<Step>, e: Pool)
    requires job.Ok() && Initial(job, s) && 2 <= |s.threads| && ClaimAt(job.Claims(), n).Granted?
    ensures Leads(job, s, steps, e) && Sized(job, e) && e.counters == CountersAt(job.Claims(), n + 1)
    ensures |e.threads| == |s.threads| && e.threads[1].Claiming?
    ensures forall y, x :: HandsOut(job.Claims(), n, y, x) ==> HoldsPixel(e.threads[0], y, x)
  {
    forall i: nat | i < n
      ensures ClaimAt(job.Claims(), i).Granted?
    {
      GrantedBefore(job.Claims(), i, n);
    }
    var first, m := WorkThrough(job, s, 0, 0, n);
    var second := TakeClaim(job, m, 0, n);
    e := Claimant(job, m, 0);
    Together(job, s, first, m, second, e);
    steps := first + second;
  }

  /** While thread 0 holds what it has, thread 1 works up to claim m and takes that. */
  lemma SecondHolds(job: Job, s: Pool, n: nat, m: nat) returns (steps: seq<Step>, e: Pool)
    requires job.Ok() && Sized(job, s) && 2 <= |s.threads| && s.threads[1].Claiming?
    requires n <= m && s.counters == CountersAt(job.Claims(), n) && ClaimAt(job.Claims(), m).Granted?
    ensures Leads(job, s, steps, e) && |e.threads| == |s.threads| && e.threads[0] == s.threads[0]
    ensures forall y, x :: HandsOut(job.Claims(), m, y, x) ==> HoldsPixel(e.threads[1], y, x)
  {
    forall i: nat | n <= i < m
      ensures ClaimAt(job.Claims(), i).Granted?
    {
      GrantedBefore(job.Claims(), i, m);
    }
    var first, w := WorkThrough(job, s, 1, n, m);
    var second := TakeClaim(job, w, 1, m);
    e := Claimant(job, w, 1);
    Together(job, s, first, w, second, e);
    steps := first + second;
  }

  /** If a counter wraps, some run has two threads hold the same pixel. */
  lemma WrapOverlaps(job: Job, s: Pool) returns (steps: seq<Step>, y: int, x: int)
    requires job.Ok() && !job.Unwrapped() && Initial(job, s) && 2 <= |s.threads|
    ensures ValidRun(job, s, steps) && |After(job, s, steps).threads| == |s.threads|
    ensures HoldsPixel(After(job, s, steps).threads[0], y, x) && HoldsPixel(After(job, s, steps).threads[1], y, x)
  {
    NoPixelTwiceIff(job.Claims());
    var i: nat, j: nat, b, a :| i < j && HandsOut(job.Claims(), i, b, a) && HandsOut(job.Claims(), j, b, a);
    y, x := b, a;
    var first, m := FirstHolds(job, s, i);
    var second, e := SecondHolds(job, m, i + 1, j);
    Together(job, s, first, m, second, e);
    steps := first + second;
  }

  /** Of two or more threads no two ever hold the same pixel if and only if no counter wraps. */
  lemma NeverOverlapIff(job: Job, s: Pool)
    requires job.Ok() && Initial(job, s) && 2 <= |s.threads|
    ensures NeverOverlap(job, s) <==> job.Unwrapped()
  {
    if job.Unwrapped() {
      forall steps: seq<Step>, t: nat, u: nat, y, x |
        ValidRun(job, s, steps) && t < u < |After(job, s, steps).threads| && HoldsPixel(After(job, s, steps).threads[t], y, x)
        ensures !HoldsPixel(After(job, s, steps).threads[u], y, x)
      {
        RegionsNeverOverlap(job, s, steps, t, u, y, x);
      }
    } else {
      var steps, y, x := WrapOverlaps(job, s);
    }
  }
}
