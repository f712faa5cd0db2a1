/** What the readers' barrier is for: no termination image is sent before every file is past the readers. */
module PipelineBarrier {
  import opened Pipeline
  import opened PipelineSafety
  import opened PipelineProgress

  // ---- every reader has arrived ---------------------------------------------------------------

  /** The thread is at the barrier, sending termination images, or at its end. */
  predicate DoneReading(t: Thread) {
    t.pc.AtBarrier? || t.pc.Sentinels? || t.pc.Finished?
  }

  /**
   * As soon as one reader is past the barrier, in any run, every reader has left its read loop, and none
   * of them will ever touch a file again.
   */
  lemma BarrierHolds(b: Batch, s: State, steps: seq<Step>, t: nat, u: nat)
    requires b.Ok() && Initial(b, s) && ValidRun(b, s, steps) && t < b.readers && u < b.readers
    requires t < |After(b, s, steps).threads| && u < |After(b, s, steps).threads|
    requires var pc := After(b, s, steps).threads[t].pc; pc.Sentinels? || pc.Finished?
    ensures DoneReading(After(b, s, steps).threads[u])
  {
    var e := ReachedState(b, s, steps);
    assert e.threads[t].role == b.RoleAt(t) && e.threads[u].role == b.RoleAt(u);
    assert PassedBarrier(e.threads[t]);
  }

  /** The file has been handed to the workers: queued, with a worker or writer, or written. */
  predicate PastTheReaders(s: State, f: nat) {
    || (exists i :: 0 <= i < |s.input.entries| && s.input.entries[i].file == f)
    || (exists t :: 0 <= t < |s.threads| && !s.threads[t].role.Reader? && HoldsFile(s.threads[t], f))
    || (exists i :: 0 <= i < |s.output.entries| && s.output.entries[i].file == f)
    || (exists i :: 0 <= i < |s.disk| && s.disk[i].file == f)
  }

  lemma WhereFileIs(b: Batch, e: State, f: nat)
    requires PlacesOf(b, e, f) == 1 && Claims(e) == b.FileCount() && f < b.FileCount()
    requires AllArrived(e.threads)
    ensures PastTheReaders(e, f)
  {
    if 0 < Total(Holders(f), e.threads) {
      var t := TotalWitness(Holders(f), e.threads);
      assert HoldsFile(e.threads[t], f) && !e.threads[t].role.Reader?;
    } else if 0 < Occurrences(e.input.entries, f) {
      var i := OccurrenceWitness(e.input.entries, f);
    } else if 0 < Occurrences(e.output.entries, f) {
      var i := OccurrenceWitness(e.output.entries, f);
    } else {
      var i := OccurrenceWitness(e.disk, f);
    }
  }

  /** Before the first termination image every file of the batch has been pushed. */
  lemma SentinelsComeLast(b: Batch, s: State, steps: seq<Step>, t: nat, f: nat)
    requires b.Ok() && Initial(b, s) && ValidRun(b, s, steps) && f < b.FileCount()
    requires t < b.readers && t < |After(b, s, steps).threads|
    requires var pc := After(b, s, steps).threads[t].pc; pc.Sentinels? || pc.Finished?
    ensures PastTheReaders(After(b, s, steps), f)
  {
    var e := ReachedState(b, s, steps);
    assert e.threads[t].role == b.RoleAt(t);
    assert PassedBarrier(e.threads[t]) && LeftReadLoop(e.threads[t]);
    EachFileInOnePlace(b, s, steps, f);
    WhereFileIs(b, e, f);
  }

  // ---- how many are sent ----------------------------------------------------------------------

  /** Turns of the termination loop that a reader has behind it; the last one only leaves the loop. */
  function TurnsDone(workers: nat, t: Thread): nat {
    match t.pc
    case Sentinels(sent) => sent
    case Finished => if t.role.Reader? then workers + 1 else 0
    case _ => 0
  }

  function TurnsOf(t: nat, steps: seq<Step>): nat {
    if steps == [] then 0 else (if steps[0] == PushSentinel(t) then 1 else 0) + TurnsOf(t, steps[1..])
  }

  lemma MovedTurns(b: Batch, s: State, step: Step)
    requires Enabled(b, s, step) && RoleFits(b, s.threads[step.t]) && s.threads[step.t].role.Reader?
    ensures TurnsDone(b.workers, Moved(b, s, step))
         == TurnsDone(b.workers, s.threads[step.t]) + if step.PushSentinel? then 1 else 0
  {
  }

  lemma StepTurns(b: Batch, s: State, step: Step, t: nat)
    requires RolesFit(b, s) && Enabled(b, s, step) && t < |s.threads| && s.threads[t].role.Reader?
    ensures TurnsDone(b.workers, Apply(b, s, step).threads[t])
         == TurnsDone(b.workers, s.threads[t]) + if step == PushSentinel(t) then 1 else 0
  {
    assert RoleFits(b, s.threads[step.t]);
    if step.t == t {
      MovedTurns(b, s, step);
    }
    if Woke(step).Some? {
      WokenIsAnother(b, s, step);
    }
  }

  lemma {:induction false} RunTurns(b: Batch, s: State, steps: seq<Step>, t: nat)
    requires b.Ok() && Inv(b, s) && ValidRun(b, s, steps) && t < b.readers
    ensures t < |s.threads| && t < |After(b, s, steps).threads|
    ensures TurnsDone(b.workers, After(b, s, steps).threads[t]) == TurnsDone(b.workers, s.threads[t]) + TurnsOf(t, steps)
    decreases |steps|
  {
    assert s.threads[t].role == b.RoleAt(t);
    if steps != [] {
      StepTurns(b, s, steps[0], t);
      StepKeepsInv(b, s, steps[0]);
      RunTurns(b, Apply(b, s, steps[0]), steps[1..], t);
    }
  }

  /**
   * In any run a reader is in its k-th turn exactly after k turns, and at its end exactly after one turn for
   * each worker and the one that leaves the loop.
   */
  lemma SentinelsSent(b: Batch, s: State, steps: seq<Step>, t: nat)
    requires b.Ok() && Initial(b, s) && ValidRun(b, s, steps) && t < b.readers
    ensures t < |After(b, s, steps).threads|
    ensures var pc := After(b, s, steps).threads[t].pc;
            && (pc.Sentinels? ==> pc.sent == TurnsOf(t, steps) <= b.workers)
            && (pc.Finished? <==> TurnsOf(t, steps) == b.workers + 1)
            && (TurnsOf(t, steps) > 0 ==> pc.Sentinels? || pc.Finished?)
  {
    InitialInv(b, s);
    RunTurns(b, s, steps, t);
    var e := ReachedState(b, s, steps);
    assert s.threads[t].role == b.RoleAt(t) && e.threads[t].role == b.RoleAt(t) && RoleFits(b, e.threads[t]);
  }
}
