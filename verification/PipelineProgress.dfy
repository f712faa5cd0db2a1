/** Deadlock freedom of the pipeline, the measure every productive step lowers, and how runs end. */
module PipelineProgress {
  import opened Arithmetic
  import opened Options
  import opened Pixels
  import opened BitmapFile
  import opened ImageQueue
  import opened Pipeline
  import opened PipelineSafety

  // ---- somebody can always move ---------------------------------------------------------------

  lemma ChooseSignal(s: State, side: Side, poppers: bool) returns (wakes: Option<nat>)
    ensures SignalChoice(s, wakes, side, poppers)
  {
    if u: nat :| u < |s.threads| && (if poppers then WaitsToPop(s.threads[u], side) else WaitsToPush(s.threads[u], side)) {
      wakes := Some(u);
    } else {
      wakes := None;
    }
  }

  /** The thread has what its next step needs. */
  predicate Equipped(b: Batch, s: State, t: Thread) {
    match t.pc
    case Loading(file) => file < |b.inputs| && Usable(b.inputs[file])
    case Computing(e) => Usable(e.image)
    case Undoing => 0 < s.readFiles
    case _ => true
  }

  lemma ThreadsAreEquipped(b: Batch, s: State, t: nat)
    requires b.Ok() && Inv(b, s) && t < |s.threads|
    ensures Equipped(b, s, s.threads[t])
  {
    assert Carries(b, Expected(b), s.threads[t]);
    if s.threads[t].pc.Undoing? {
      TotalAtLeast(Undoers, s.threads, t);
    }
  }

  lemma EquippedThreadMoves(b: Batch, s: State, t: nat) returns (step: Step)
    requires t < |s.threads| && Equipped(b, s, s.threads[t])
    requires !Sleeping(s.threads[t]) && !s.threads[t].pc.AtBarrier? && !s.threads[t].pc.Finished?
    ensures Enabled(b, s, step) && step.t == t && !Idle(step)
  {
    var v := s.threads[t];
    match v.pc
    case Claiming => step := ClaimFile(t);
    case Loading(_) => step := Load(t);
    case Pushing(_, _) =>
      var wakes := None;
      if PushSucceeds(b, s, v) {
        wakes := ChooseSignal(s, PushSide(v.role), true);
      }
      step := Push(t, wakes);
    case Undoing => step := UndoClaim(t);
    case Sentinels(_) => step := PushSentinel(t);
    case Popping(_) =>
      var wakes := None;
      if Decision(b, s, v).Taken? {
        wakes := ChooseSignal(s, PopSide(v.role), false);
      }
      step := Pop(t, wakes);
    case Computing(_) => step := Compute(t);
    case Checking => step := Check(t);
    case Saving(_) => step := Save(t);
    case Counting(_) => step := Count(t);
  }

  /** A thread that is neither asleep nor at the barrier nor finished has a step to take. */
  lemma AwakeThreadMoves(b: Batch, s: State, t: nat) returns (step: Step)
    requires b.Ok() && Inv(b, s) && t < |s.threads|
    requires !Sleeping(s.threads[t]) && !s.threads[t].pc.AtBarrier? && !s.threads[t].pc.Finished?
    ensures Enabled(b, s, step) && step.t == t && !Idle(step)
  {
    ThreadsAreEquipped(b, s, t);
    step := EquippedThreadMoves(b, s, t);
  }

  /** Every thread is asleep, at the barrier, or finished. */
  predicate AllResting(s: State) {
    forall t :: 0 <= t < |s.threads| ==> Sleeping(s.threads[t]) || s.threads[t].pc.AtBarrier? || s.threads[t].pc.Finished?
  }

  lemma RestingGauges(s: State, side: Side)
    requires AllResting(s)
    ensures Total(WokenPushers(side), s.threads) == 0 && Total(AwakePoppers(side), s.threads) == 0
    ensures Total(Uncounted, s.threads) == 0 && Total(Undoers, s.threads) == 0
  {
    TotalZero(WokenPushers(side), s.threads);
    TotalZero(AwakePoppers(side), s.threads);
    TotalZero(Uncounted, s.threads);
    TotalZero(Undoers, s.threads);
  }

  /** While everybody rests, a sleeping popper means an empty queue, and an empty queue no sleeping pusher. */
  lemma RestingSide(b: Batch, s: State, side: Side, popper: nat)
    requires AllResting(s) && PushersNotForgotten(s, side) && PoppersNotForgotten(s, side)
    requires popper < |s.threads| && WaitsToPop(s.threads[popper], side)
    ensures s.QueueOf(side).entries == []
    ensures forall t :: 0 <= t < |s.threads| ==> !WaitsToPush(s.threads[t], side)
  {
    RestingGauges(s, side);
    TotalAtLeast(WaitingPoppers(side), s.threads, popper);
    forall t | 0 <= t < |s.threads|
      ensures !WaitsToPush(s.threads[t], side)
    {
      TotalAtLeast(WaitingPushers(side), s.threads, t);
    }
  }

  /** If everybody rests before the last file is counted, all readers have passed their last claim. */
  lemma RestingEarly(b: Batch, s: State)
    requires b.Ok() && Inv(b, s) && AllResting(s) && s.writtenFiles < b.FileCount()
    ensures s.input.entries == [] && s.output.entries == []
    ensures forall t :: 0 <= t < |s.threads| ==> !s.threads[t].pc.Pushing?
    ensures forall t :: 0 <= t < |s.threads| && s.threads[t].role.Reader? ==> LeftReadLoop(s.threads[t])
  {
    var writer := b.readers + b.workers;
    assert s.threads[writer].role.Writer? && RoleFits(b, s.threads[writer]);
    RestingSide(b, s, Output, writer);
    var worker := b.readers;
    assert s.threads[worker].role.Worker? && RoleFits(b, s.threads[worker]);
    assert !WaitsToPush(s.threads[worker], Output);
    RestingSide(b, s, Input, worker);
    forall t | 0 <= t < |s.threads|
      ensures !s.threads[t].pc.Pushing?
      ensures s.threads[t].role.Reader? ==> LeftReadLoop(s.threads[t])
    {
      assert RoleFits(b, s.threads[t]);
      assert !WaitsToPush(s.threads[t], Input) && !WaitsToPush(s.threads[t], Output);
    }
  }

  lemma NobodyRestsEarly(b: Batch, s: State)
    requires b.Ok() && Inv(b, s) && s.writtenFiles < b.FileCount()
    ensures !AllResting(s)
  {
    if AllResting(s) {
      RestingEarly(b, s);
      RestingGauges(s, Input);
      TotalZero(AnyHolders, s.threads);
      assert false;
    }
  }

  /**
   * Deadlock freedom: while some file is not yet counted as written, some thread can take a step that
   * is neither the timeout of a pop nor a spurious wakeup, although a pop signals a single pusher and
   * pushers wait for different amounts of room.
   */
  lemma SomebodyMoves(b: Batch, s: State) returns (step: Step)
    requires b.Ok() && Inv(b, s) && s.writtenFiles < b.FileCount()
    ensures Enabled(b, s, step) && !Idle(step)
  {
    NobodyRestsEarly(b, s);
    var t :| 0 <= t < |s.threads| && !Sleeping(s.threads[t]) && !s.threads[t].pc.AtBarrier? && !s.threads[t].pc.Finished?;
    step := AwakeThreadMoves(b, s, t);
  }

  // ---- productive steps are bounded -----------------------------------------------------------

  /** How far all files together are from being counted. */
  function FileStages(b: Batch, s: State): int {
    9 * (b.FileCount() - Claims(s)) + 6 * |s.input.entries| + 3 * |s.output.entries| + Total(Stages, s.threads)
  }

  /** A step that moves a file on by one stage. */
  predicate MovesFile(b: Batch, s: State, step: Step)
    requires Enabled(b, s, step)
  {
    match step
    case ClaimFile(_) => s.readFiles < b.FileCount()
    case Push(t, _) => PushSucceeds(b, s, s.threads[t])
    case Pop(t, _) => Decision(b, s, s.threads[t]).Taken?
    case _ => step.Load? || step.Compute? || step.Save? || step.Count?
  }

  /** The rank that productive steps lower: file stages first, then the activity of the threads. */
  function Rank(b: Batch, s: State): int {
    (b.workers + 7) * FileStages(b, s) + Total(Activity(b.workers), s.threads)
  }

  lemma MovedStages(b: Batch, s: State, step: Step)
    requires Enabled(b, s, step) && RoleFits(b, s.threads[step.t]) && TakenIsKept(b, s, step)
    ensures Weigh(Stages, Moved(b, s, step)) - Weigh(Stages, s.threads[step.t])
          + 6 * (|QueueAfter(b, s, step, Input).entries| - |s.input.entries|)
          + 3 * (|QueueAfter(b, s, step, Output).entries| - |s.output.entries|)
         == if !MovesFile(b, s, step) then 0 else if step.ClaimFile? then 8 else -1
  {
  }

  lemma FileStagesAfter(b: Batch, s: State, step: Step)
    requires RolesFit(b, s) && CountersExact(b, s) && Enabled(b, s, step) && TakenIsKept(b, s, step)
    ensures FileStages(b, Apply(b, s, step)) == FileStages(b, s) - if MovesFile(b, s, step) then 1 else 0
  {
    ClaimsAfter(b, s, step);
    SignalsKeepFiles(Stages, b, s, step);
    assert RoleFits(b, s.threads[step.t]);
    MovedStages(b, s, step);
  }

  lemma MovedActivity(b: Batch, s: State, step: Step)
    requires Enabled(b, s, step) && RoleFits(b, s.threads[step.t]) && TakenIsKept(b, s, step)
    ensures var g := Activity(b.workers);
            var gain := Weigh(g, Moved(b, s, step)) - Weigh(g, s.threads[step.t]) + WakeGain(g, s, step);
            if MovesFile(b, s, step) then gain <= b.workers + 6 else if Idle(step) then gain == 1 else gain <= -1
  {
    if Woke(step).Some? {
      WokenIsAnother(b, s, step);
    }
  }

  lemma RankArithmetic(weight: nat, stages: int)
    ensures weight * (stages - 1) == weight * stages - weight
  {
  }

  lemma ActivityAfter(b: Batch, s: State, step: Step)
    requires RolesFit(b, s) && Enabled(b, s, step) && TakenIsKept(b, s, step)
    ensures var gain := Total(Activity(b.workers), Apply(b, s, step).threads) - Total(Activity(b.workers), s.threads);
            if MovesFile(b, s, step) then gain <= b.workers + 6 else if Idle(step) then gain == 1 else gain <= -1
  {
    TotalAfter(Activity(b.workers), b, s, step);
    assert RoleFits(b, s.threads[step.t]);
    MovedActivity(b, s, step);
  }

  /** Every productive step lowers the rank; a timeout or a spurious wakeup raises it by one. */
  lemma StepLowersRank(b: Batch, s: State, step: Step)
    requires RolesFit(b, s) && CountersExact(b, s) && Enabled(b, s, step) && TakenIsKept(b, s, step)
    ensures if Idle(step) then Rank(b, Apply(b, s, step)) == Rank(b, s) + 1 else Rank(b, Apply(b, s, step)) < Rank(b, s)
  {
    FileStagesAfter(b, s, step);
    ActivityAfter(b, s, step);
    var weight: nat, stages := b.workers + 7, FileStages(b, s);
    RankArithmetic(weight, stages);
  }

  lemma RankNotNegative(b: Batch, s: State)
    requires CountersExact(b, s)
    ensures 0 <= Rank(b, s)
  {
    assert 0 <= (b.workers + 7) * FileStages(b, s);
  }

  function IdleSteps(steps: seq<Step>): nat {
    if steps == [] then 0 else (if Idle(steps[0]) then 1 else 0) + IdleSteps(steps[1..])
  }

  lemma {:induction false} RunLowersRank(b: Batch, s: State, steps: seq<Step>)
    requires b.Ok() && Inv(b, s) && ValidRun(b, s, steps)
    ensures |steps| + Rank(b, After(b, s, steps)) <= Rank(b, s) + 2 * IdleSteps(steps)
    decreases |steps|
  {
    if steps != [] {
      BatchIsPositive(b);
      GenuineIsKept(b, Expected(b), s, steps[0]);
      StepLowersRank(b, s, steps[0]);
      StepKeepsInv(b, s, steps[0]);
      RunLowersRank(b, Apply(b, s, steps[0]), steps[1..]);
    }
  }

  lemma {:induction false} TotalAtMost(g: Gauge, ts: seq<Thread>, bound: nat)
    requires forall t :: 0 <= t < |ts| ==> Weigh(g, ts[t]) <= bound
    ensures Total(g, ts) <= bound * |ts|
  {
    if ts != [] {
      TotalAtMost(g, ts[1..], bound);
      Distribute(bound, |ts| - 1, 1);
    }
  }

  /** The bound below depends on the size of the batch only. */
  function StepBound(b: Batch): nat {
    (b.workers + 7) * (9 * b.FileCount()) + (b.workers + 5) * (b.readers + b.workers + b.writers)
  }

  lemma InitialRank(b: Batch, s: State)
    requires b.Ok() && Initial(b, s)
    ensures Rank(b, s) <= StepBound(b)
  {
    TotalZero(Undoers, s.threads);
    TotalZero(Stages, s.threads);
    TotalAtMost(Activity(b.workers), s.threads, b.workers + 5);
    assert FileStages(b, s) == 9 * b.FileCount();
  }

  /** However the threads interleave, productive steps exceed idle ones by no more than a bound of the batch. */
  lemma ProductiveStepsAreBounded(b: Batch, s: State, steps: seq<Step>)
    requires b.Ok() && Initial(b, s) && ValidRun(b, s, steps)
    ensures |steps| - IdleSteps(steps) <= StepBound(b) + IdleSteps(steps)
  {
    InitialInv(b, s);
    var e := After(b, s, steps);
    assert Inv(b, e) by {
      RunKeepsInv(b, s, steps);
    }
    RunLowersRank(b, s, steps);
    RankNotNegative(b, e);
    InitialRank(b, s);
  }

  /** In every reachable state with a file still uncounted, somebody moves. */
  lemma NoDeadlock(b: Batch, s: State, steps: seq<Step>) returns (step: Step)
    requires b.Ok() && Initial(b, s) && ValidRun(b, s, steps) && After(b, s, steps).writtenFiles < b.FileCount()
    ensures Enabled(b, After(b, s, steps), step) && !Idle(step)
  {
    var e := ReachedState(b, s, steps);
    step := SomebodyMoves(b, e);
  }

  // ---- after the last file --------------------------------------------------------------------

  /** Every file is counted as written. */
  predicate AllCounted(b: Batch, s: State) {
    s.writtenFiles >= b.FileCount()
  }

  lemma AllCountedIsSeen(b: Batch, s: State)
    requires b.Ok() && Inv(b, s) && AllCounted(b, s)
    ensures s.writtenFiles == b.FileCount() && SeesAllWritten(s.writtenFiles, b.FileCount())
    ensures s.input.entries == [] && s.output.entries == [] && Total(AnyHolders, s.threads) == 0
    ensures Total(Uncounted, s.threads) == 0
  {
    assert s.writtenFiles <= |s.disk| <= b.FileCount();
    assert s.writtenFiles % 256 == s.writtenFiles;
    AllWrittenEmptiesQueues(b, s);
  }

  lemma NothingHeld(s: State, t: nat)
    requires Total(AnyHolders, s.threads) == 0 && Total(Uncounted, s.threads) == 0 && t < |s.threads|
    ensures var pc := s.threads[t].pc;
            !pc.Loading? && !pc.Pushing? && !pc.Computing? && !pc.Saving? && !pc.Counting?
  {
    TotalAtLeast(AnyHolders, s.threads, t);
    TotalAtLeast(Uncounted, s.threads, t);
  }

  lemma MovedCloses(b: Batch, s: State, step: Step)
    requires Enabled(b, s, step) && RoleFits(b, s.threads[step.t])
    requires var pc := s.threads[step.t].pc;
             !pc.Loading? && !pc.Pushing? && !pc.Computing? && !pc.Saving? && !pc.Counting?
    requires AllCounted(b, s) && SeesAllWritten(s.writtenFiles, b.FileCount()) && s.input.entries == [] && s.output.entries == []
    requires s.readFiles >= b.FileCount()
    ensures Weigh(Closing(b.workers), Moved(b, s, step)) < Weigh(Closing(b.workers), s.threads[step.t])
    ensures Woke(step).None?
  {
  }

  /** Once every file is counted, every step brings some thread closer to its end, idle steps included. */
  lemma CountedStepsClose(b: Batch, s: State, step: Step)
    requires b.Ok() && Inv(b, s) && AllCounted(b, s) && Enabled(b, s, step)
    ensures Total(Closing(b.workers), Apply(b, s, step).threads) < Total(Closing(b.workers), s.threads)
    ensures AllCounted(b, Apply(b, s, step))
  {
    AllCountedIsSeen(b, s);
    AllWrittenEmptiesQueues(b, s);
    NothingHeld(s, step.t);
    assert RoleFits(b, s.threads[step.t]);
    MovedCloses(b, s, step);
    TotalAfter(Closing(b.workers), b, s, step);
  }

  lemma {:induction false} CountedRunsAreBounded(b: Batch, s: State, steps: seq<Step>)
    requires b.Ok() && Inv(b, s) && AllCounted(b, s) && ValidRun(b, s, steps)
    ensures |steps| + Total(Closing(b.workers), After(b, s, steps).threads) <= Total(Closing(b.workers), s.threads)
    ensures AllCounted(b, After(b, s, steps))
    decreases |steps|
  {
    if steps != [] {
      CountedStepsClose(b, s, steps[0]);
      StepKeepsInv(b, s, steps[0]);
      CountedRunsAreBounded(b, Apply(b, s, steps[0]), steps[1..]);
    }
  }

  /** Once every file is counted, any thread that has not finished lets some step happen. */
  lemma CountedThreadsExit(b: Batch, s: State, t: nat) returns (step: Step)
    requires b.Ok() && Inv(b, s) && AllCounted(b, s) && t < |s.threads| && !s.threads[t].pc.Finished?
    ensures Enabled(b, s, step)
  {
    AllCountedIsSeen(b, s);
    NothingHeld(s, t);
    if s.threads[t].pc.AtBarrier? {
      if u: nat :| u < |s.threads| && s.threads[u].role.Reader? && !Arrived(s.threads[u]) {
        NothingHeld(s, u);
        assert RoleFits(b, s.threads[u]);
        step := AwakeThreadMoves(b, s, u);
      } else {
        step := PassBarrier(t);
      }
    } else if Sleeping(s.threads[t]) {
      step := TimeOut(t);
    } else {
      step := AwakeThreadMoves(b, s, t);
    }
  }

  predicate AllFinished(s: State) {
    forall t :: 0 <= t < |s.threads| ==> s.threads[t].pc.Finished?
  }

  lemma StuckStateFinished(b: Batch, e: State)
    requires b.Ok() && Inv(b, e) && forall step: Step :: !Enabled(b, e, step)
    ensures AllFinished(e)
  {
    if !AllCounted(b, e) {
      var step := SomebodyMoves(b, e);
      assert false;
    }
    if !AllFinished(e) {
      var t :| 0 <= t < |e.threads| && !e.threads[t].pc.Finished?;
      var step := CountedThreadsExit(b, e, t);
      assert false;
    }
  }

  lemma FinishedStateStuck(b: Batch, e: State, step: Step)
    requires AllFinished(e)
    ensures !Enabled(b, e, step)
  {
  }

  /** The only reachable states without a further step are those in which every thread has finished. */
  lemma StuckIffFinished(b: Batch, s: State, steps: seq<Step>)
    requires b.Ok() && Initial(b, s) && ValidRun(b, s, steps)
    ensures (forall step: Step :: !Enabled(b, After(b, s, steps), step)) <==> AllFinished(After(b, s, steps))
  {
    var e := ReachedState(b, s, steps);
    if forall step: Step :: !Enabled(b, e, step) {
      StuckStateFinished(b, e);
    }
    if AllFinished(e) {
      forall step: Step
        ensures !Enabled(b, e, step)
      {
        FinishedStateStuck(b, e, step);
      }
    }
  }

  /** The state a run reaches, with its invariant. */
  lemma ReachedState(b: Batch, s: State, steps: seq<Step>) returns (e: State)
    requires b.Ok() && Initial(b, s) && ValidRun(b, s, steps)
    ensures e == After(b, s, steps) && Inv(b, e)
  {
    InitialInv(b, s);
    RunKeepsInv(b, s, steps);
    e := After(b, s, steps);
  }

  /** A step towards the end from any state that keeps the invariant, lowering the measure of its phase. */
  lemma StepTowardsEnd(b: Batch, s: State) returns (step: Step)
    requires b.Ok() && Inv(b, s) && !AllFinished(s)
    ensures Enabled(b, s, step) && Inv(b, Apply(b, s, step))
    ensures AllCounted(b, s) ==> AllCounted(b, Apply(b, s, step))
                                 && Total(Closing(b.workers), Apply(b, s, step).threads) < Total(Closing(b.workers), s.threads)
    ensures !AllCounted(b, s) ==> 0 <= Rank(b, Apply(b, s, step)) < Rank(b, s)
  {
    if AllCounted(b, s) {
      var t :| 0 <= t < |s.threads| && !s.threads[t].pc.Finished?;
      step := CountedThreadsExit(b, s, t);
      CountedStepsClose(b, s, step);
      StepKeepsInv(b, s, step);
    } else {
      step := SomebodyMoves(b, s);
      StepKeepsInv(b, s, step);
      BatchIsPositive(b);
      GenuineIsKept(b, Expected(b), s, step);
      StepLowersRank(b, s, step);
      RankNotNegative(b, Apply(b, s, step));
    }
  }

  lemma {:induction false} FinishFrom(b: Batch, s: State) returns (steps: seq<Step>)
    requires b.Ok() && Inv(b, s)
    ensures ValidRun(b, s, steps) && AllFinished(After(b, s, steps))
    decreases !AllCounted(b, s), if AllCounted(b, s) then Total(Closing(b.workers), s.threads) else Rank(b, s)
  {
    steps := [];
    if !AllFinished(s) {
      var step := StepTowardsEnd(b, s);
      var rest := FinishFrom(b, Apply(b, s, step));
      steps := [step] + rest;
      assert steps[0] == step && steps[1..] == rest;
    }
  }

  /** No schedule leads to a dead end: every run can be continued until every thread has finished. */
  lemma EveryRunCanFinish(b: Batch, s: State, steps: seq<Step>) returns (rest: seq<Step>)
    requires b.Ok() && Initial(b, s) && ValidRun(b, s, steps)
    ensures ValidRun(b, After(b, s, steps), rest) && AllFinished(After(b, After(b, s, steps), rest))
  {
    var e := ReachedState(b, s, steps);
    rest := FinishFrom(b, e);
  }

  // ---- the theorems about whole runs ----------------------------------------------------------

  /** In every reachable state each file is in exactly one place, and no other file is anywhere. */
  lemma EachFileInOnePlace(b: Batch, s: State, steps: seq<Step>, f: nat)
    requires b.Ok() && Initial(b, s) && ValidRun(b, s, steps)
    ensures PlacesOf(b, After(b, s, steps), f) == if f < b.FileCount() then 1 else 0
  {
    var e := ReachedState(b, s, steps);
  }

  lemma {:induction false} TwoHolders(f: nat, ts: seq<Thread>, t: nat, u: nat)
    requires t < u < |ts|
    ensures Weigh(Holders(f), ts[t]) + Weigh(Holders(f), ts[u]) <= Total(Holders(f), ts)
  {
    if t == 0 {
      TotalAtLeast(Holders(f), ts[1..], u - 1);
    } else {
      TwoHolders(f, ts[1..], t - 1, u - 1);
    }
  }

  lemma HoldersAreExclusive(b: Batch, e: State, t: nat, u: nat, f: nat)
    requires PlacesOf(b, e, f) == if f < b.FileCount() then 1 else 0
    requires t < |e.threads| && u < |e.threads| && t != u && HoldsFile(e.threads[t], f)
    ensures f < b.FileCount() && !HoldsFile(e.threads[u], f)
  {
    TotalAtLeast(Holders(f), e.threads, t);
    TwoHolders(f, e.threads, if t < u then t else u, if t < u then u else t);
  }

  /** Two threads never hold the same file, whether claimed, loaded, computed or being saved. */
  lemma ClaimsAreExclusive(b: Batch, s: State, steps: seq<Step>, t: nat, u: nat, f: nat)
    requires b.Ok() && Initial(b, s) && ValidRun(b, s, steps)
    requires var ts := After(b, s, steps).threads; t < |ts| && u < |ts| && t != u && HoldsFile(ts[t], f)
    ensures f < b.FileCount() && !HoldsFile(After(b, s, steps).threads[u], f)
  {
    EachFileInOnePlace(b, s, steps, f);
    HoldersAreExclusive(b, After(b, s, steps), t, u, f);
  }

  /** Each entry on disk is the filtered image of its file, and the counter misses only those just written. */
  ghost predicate DiskIsFiltered(b: Batch, e: State)
    requires b.Ok()
  {
    e.writtenFiles + Total(Uncounted, e.threads) == |e.disk| <= b.FileCount() && AllCooked(Expected(b), e.disk)
  }

  /** What has been written in a reachable state is the filtered image of each file under its own name. */
  lemma WrittenFilesAreFiltered(b: Batch, s: State, steps: seq<Step>)
    requires b.Ok() && Initial(b, s) && ValidRun(b, s, steps)
    ensures DiskIsFiltered(b, After(b, s, steps))
  {
    var e := ReachedState(b, s, steps);
  }

  /** Both queues stay within their limits, whatever the images. */
  lemma QueuesStayBounded(b: Batch, s: State, steps: seq<Step>, side: Side)
    requires b.Ok() && Initial(b, s) && ValidRun(b, s, steps)
    ensures var q := After(b, s, steps).QueueOf(side);
            && q.memory == TotalMemory(q.entries) && |q.entries| <= b.limits.capacity
            && (q.memory <= b.limits.maxMemory || |q.entries| <= 1)
            && (|q.entries| <= 1 || 2 * |q.entries| <= b.limits.maxMemory)
  {
    var e := ReachedState(b, s, steps);
    MemoryBoundsLength(b.limits, e.QueueOf(side));
  }

  lemma LeaverSawAll(b: Batch, e: State, t: nat)
    requires b.Ok() && Inv(b, e) && b.readers <= t < |e.threads| && e.threads[t].pc.Finished?
    ensures AllCounted(b, e) && e.writtenFiles == b.FileCount()
  {
    assert e.threads[t].role == b.RoleAt(t);
    AllCountedIsSeen(b, e);
  }

  /** A worker or writer that has finished did so after the last file was counted. */
  lemma NobodyLeavesEarly(b: Batch, s: State, steps: seq<Step>, t: nat)
    requires b.Ok() && Initial(b, s) && ValidRun(b, s, steps)
    requires b.readers <= t < |After(b, s, steps).threads| && After(b, s, steps).threads[t].pc.Finished?
    ensures After(b, s, steps).writtenFiles == b.FileCount()
  {
    var e := ReachedState(b, s, steps);
    LeaverSawAll(b, e, t);
  }

  /** The file is in no thread's hands, in no queue and not on disk. */
  predicate Unread(s: State, f: nat) {
    && (forall t :: 0 <= t < |s.threads| ==> !HoldsFile(s.threads[t], f))
    && (forall i :: 0 <= i < |s.input.entries| ==> s.input.entries[i].file != f)
    && (forall i :: 0 <= i < |s.output.entries| ==> s.output.entries[i].file != f)
    && (forall i :: 0 <= i < |s.disk| ==> s.disk[i].file != f)
  }

  lemma {:induction false} OccursNot(entries: seq<Queueable>, f: nat)
    ensures Occurrences(entries, f) == 0 <==> forall i :: 0 <= i < |entries| ==> entries[i].file != f
  {
    if entries != [] {
      OccursNot(entries[1..], f);
      assert forall i :: 1 <= i < |entries| ==> entries[i] == entries[1..][i - 1];
    }
  }

  lemma HeldByNobody(ts: seq<Thread>, f: nat)
    ensures Total(Holders(f), ts) == 0 <==> forall t :: 0 <= t < |ts| ==> !HoldsFile(ts[t], f)
  {
    if Total(Holders(f), ts) == 0 {
      forall t | 0 <= t < |ts|
        ensures !HoldsFile(ts[t], f)
      {
        TotalAtLeast(Holders(f), ts, t);
      }
    } else {
      var t := TotalWitness(Holders(f), ts);
    }
  }

  lemma UnreadPlaces(b: Batch, e: State, f: nat)
    requires PlacesOf(b, e, f) == 1 && f < b.FileCount()
    ensures Unread(e, f) <==> Claims(e) <= f
  {
    HeldByNobody(e.threads, f);
    OccursNot(e.input.entries, f);
    OccursNot(e.output.entries, f);
    OccursNot(e.disk, f);
  }

  /**
   * In every reachable state the files not yet taken are exactly those from the reader counter less its
   * pending subtractions on.
   */
  lemma UnreadIff(b: Batch, s: State, steps: seq<Step>, f: nat)
    requires b.Ok() && Initial(b, s) && ValidRun(b, s, steps) && f < b.FileCount()
    ensures var e := After(b, s, steps);
            Unread(e, f) <==> e.readFiles - Total(Undoers, e.threads) <= f
  {
    var e := ReachedState(b, s, steps);
    EachFileInOnePlace(b, s, steps, f);
    UnreadPlaces(b, e, f);
  }

  predicate PictureIs(img: Bitmap, p: Picture) {
    Usable(img) && PictureOf(img) == p
  }

  lemma {:induction false} OccurrenceWitness(entries: seq<Queueable>, f: nat) returns (i: nat)
    requires 0 < Occurrences(entries, f)
    ensures i < |entries| && entries[i].file == f
  {
    if entries[0].file == f {
      i := 0;
    } else {
      i := OccurrenceWitness(entries[1..], f);
      i := i + 1;
    }
  }

  lemma NowhereButOnDisk(b: Batch, e: State, f: nat)
    requires PlacesOf(b, e, f) == 1 && Claims(e) == b.FileCount() && e.input.entries == [] && e.output.entries == []
    requires AllFinished(e) && f < b.FileCount()
    ensures Occurrences(e.disk, f) == 1
  {
    TotalZero(Holders(f), e.threads);
  }

  lemma FinishedState(b: Batch, e: State, f: nat)
    requires b.Ok() && Inv(b, e) && AllFinished(e) && f < b.FileCount()
    ensures e.writtenFiles == b.FileCount() == |e.disk| && e.input.entries == [] && e.output.entries == []
    ensures Occurrences(e.disk, f) == 1
  {
    LeaverSawAll(b, e, b.readers + b.workers);
    AllCountedIsSeen(b, e);
    AllWrittenEmptiesQueues(b, e);
    assert PlacesOf(b, e, f) == 1;
    NowhereButOnDisk(b, e, f);
  }

  /** Whatever file a run has written, reading it back gives the filtered picture of the input of that name. */
  lemma OutputReadsBack(b: Batch, s: State, steps: seq<Step>, i: nat)
    requires b.Ok() && Initial(b, s) && ValidRun(b, s, steps) && i < |After(b, s, steps).disk|
    ensures var e := After(b, s, steps).disk[i];
            && e.file < b.FileCount() && Usable(b.inputs[e.file])
            && Decode(Encode(e.image)).Ok?
            && PictureIs(Decode(Encode(e.image)).bitmap, b.filter.Result(PictureOf(b.inputs[e.file])))
  {
    var s' := ReachedState(b, s, steps);
    var e := s'.disk[i];
    assert Cooked(Expected(b), e);
    assert e.image == Processed(b.filter, b.inputs[e.file]);
    DecodeEncode(e.image);
  }

  /**
   * How every run ends: all files counted, both queues empty, and each file written exactly once, with
   * the bytes of the image expected of it.
   */
  lemma FinishedRuns(b: Batch, s: State, steps: seq<Step>, f: nat) returns (i: nat)
    requires b.Ok() && Initial(b, s) && ValidRun(b, s, steps) && AllFinished(After(b, s, steps)) && f < b.FileCount()
    ensures var e := After(b, s, steps);
            && e.writtenFiles == b.FileCount() == |e.disk| && e.input.entries == [] && e.output.entries == []
            && Occurrences(e.disk, f) == 1
            && i < |e.disk| && e.disk[i].file == f && e.disk[i].image == Expected(b)[f]
  {
    var e := ReachedState(b, s, steps);
    FinishedState(b, e, f);
    i := OccurrenceWitness(e.disk, f);
    assert Cooked(Expected(b), e.disk[i]);
  }
}
