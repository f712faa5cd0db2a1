/**
 * Runs in which no thread is passed over for ever: each of them ends, and ends with all threads finished
 * and every file written.
 */
module PipelineFairness {
  import opened Arithmetic
  import opened Options
  import opened ImageQueue
  import opened Pipeline
  import opened PipelineSafety
  import opened PipelineProgress

  // ---- runs of any length ---------------------------------------------------------------------

  /** A thread that waits for nobody. */
  predicate Awake(t: Thread) {
    !Sleeping(t) && !t.pc.AtBarrier? && !t.pc.Finished?
  }

  ghost predicate Follows(b: Batch, states: nat -> State, picks: nat -> Step, i: nat) {
    Enabled(b, states(i), picks(i)) && states(i + 1) == Apply(b, states(i), picks(i))
  }

  /** The first n steps of a run. */
  ghost predicate Run(b: Batch, states: nat -> State, picks: nat -> Step, n: nat) {
    Initial(b, states(0)) && forall i: nat :: i < n ==> Follows(b, states, picks, i)
  }

  ghost predicate EndlessRun(b: Batch, states: nat -> State, picks: nat -> Step) {
    forall n: nat :: Run(b, states, picks, n)
  }

  /** The thread takes the i-th step, or is not awake at that moment. */
  predicate Served(states: nat -> State, picks: nat -> Step, i: nat, t: nat) {
    picks(i).t == t || t >= |states(i).threads| || !Awake(states(i).threads[t])
  }

  ghost predicate ServedFrom(states: nat -> State, picks: nat -> Step, i: nat, t: nat) {
    exists j: nat :: i <= j && Served(states, picks, j, t)
  }

  /** Weak fairness: no thread stays awake from some moment on without ever taking a step. */
  ghost predicate WeaklyFair(states: nat -> State, picks: nat -> Step) {
    forall i: nat, t: nat :: ServedFrom(states, picks, i, t)
  }

  ghost predicate ServedWithin(states: nat -> State, picks: nat -> Step, i: nat, window: nat, t: nat) {
    exists j: nat :: i <= j < i + window && Served(states, picks, j, t)
  }

  /** The same with a bound: in every window of this many steps of the first n every thread is served. */
  ghost predicate FairWithin(states: nat -> State, picks: nat -> Step, n: nat, window: nat) {
    forall i: nat, t: nat :: i + window <= n ==> ServedWithin(states, picks, i, window, t)
  }

  lemma {:induction false} RunInv(b: Batch, states: nat -> State, picks: nat -> Step, n: nat)
    requires b.Ok() && Run(b, states, picks, n)
    ensures Inv(b, states(n))
  {
    if n == 0 {
      InitialInv(b, states(0));
    } else {
      RunInv(b, states, picks, n - 1);
      assert Follows(b, states, picks, n - 1);
      StepKeepsInv(b, states(n - 1), picks(n - 1));
    }
  }

  /** The steps of such a run are a run as in `Pipeline`. */
  lemma {:induction false} RunAsSteps(b: Batch, states: nat -> State, picks: nat -> Step, n: nat, i: nat) returns (steps: seq<Step>)
    requires Run(b, states, picks, n) && i <= n
    ensures |steps| == n - i && ValidRun(b, states(i), steps) && After(b, states(i), steps) == states(n)
    decreases n - i
  {
    steps := [];
    if i < n {
      assert Follows(b, states, picks, i);
      var rest := RunAsSteps(b, states, picks, n, i + 1);
      steps := [picks(i)] + rest;
      assert steps[0] == picks(i) && steps[1..] == rest;
    }
  }

  // ---- a thread on which progress depends -----------------------------------------------------

  /** The thread's next step moves a file, or takes a writer to a pop that will. */
  predicate Urgent(b: Batch, s: State, t: Thread) {
    match t.pc
    case Claiming => s.readFiles < b.FileCount()
    case Loading(_) => true
    case Pushing(_, wake) => !wake.Waiting? && PushSucceeds(b, s, t)
    case Popping(wake) => !wake.Waiting? && Decision(b, s, t).Taken?
    case Computing(_) => true
    case Checking => s.writtenFiles < b.FileCount() && s.output.entries != []
    case Saving(_) => true
    case Counting(_) => true
    case _ => false
  }

  predicate NobodyUrgent(b: Batch, s: State) {
    forall t :: 0 <= t < |s.threads| ==> !Urgent(b, s, s.threads[t])
  }

  lemma NotAllSeen(b: Batch, s: State)
    requires b.Ok() && s.writtenFiles < b.FileCount()
    ensures !SeesAllWritten(s.writtenFiles, b.FileCount())
  {
  }

  /** If nobody is urgent, a thread that pops finds its queue empty. */
  lemma PopperSeesEmpty(b: Batch, s: State, side: Side, popper: nat)
    requires b.Ok() && s.writtenFiles < b.FileCount() && NobodyUrgent(b, s) && PoppersNotForgotten(s, side)
    requires popper < |s.threads| && s.threads[popper].pc.Popping? && PopSide(s.threads[popper].role) == side
    ensures s.QueueOf(side).entries == []
  {
    NotAllSeen(b, s);
    if s.QueueOf(side).entries != [] {
      assert WaitsToPop(s.threads[popper], side);
      TotalAtLeast(WaitingPoppers(side), s.threads, popper);
      TotalZero(AwakePoppers(side), s.threads);
    }
  }

  /** If nobody is urgent, no thread is inside a push to an empty queue. */
  lemma EmptyHasNoPusher(b: Batch, s: State, side: Side, t: nat)
    requires b.Ok() && NobodyUrgent(b, s) && PushersNotForgotten(s, side) && s.QueueOf(side).entries == []
    requires t < |s.threads| && PushSide(s.threads[t].role) == side
    ensures !s.threads[t].pc.Pushing?
  {
    TotalZero(WokenPushers(side), s.threads);
    if s.threads[t].pc.Pushing? {
      assert WaitsToPush(s.threads[t], side);
      TotalAtLeast(WaitingPushers(side), s.threads, t);
    }
  }

  lemma WritersSeeEmpty(b: Batch, s: State)
    requires b.Ok() && Inv(b, s) && s.writtenFiles < b.FileCount() && NobodyUrgent(b, s)
    ensures s.output.entries == []
  {
    var writer := b.readers + b.workers;
    assert s.threads[writer].role.Writer? && RoleFits(b, s.threads[writer]) && !Urgent(b, s, s.threads[writer]);
    if s.output.entries != [] {
      PopperSeesEmpty(b, s, Output, writer);
    }
  }

  lemma WorkersSeeEmpty(b: Batch, s: State)
    requires b.Ok() && Inv(b, s) && s.writtenFiles < b.FileCount() && NobodyUrgent(b, s) && s.output.entries == []
    ensures s.input.entries == []
  {
    var worker := b.readers;
    assert s.threads[worker].role.Worker? && RoleFits(b, s.threads[worker]) && !Urgent(b, s, s.threads[worker]);
    EmptyHasNoPusher(b, s, Output, worker);
    PopperSeesEmpty(b, s, Input, worker);
  }

  /** Nobody holds a file. */
  lemma NobodyHolds(b: Batch, s: State)
    requires b.Ok() && Inv(b, s) && NobodyUrgent(b, s) && s.input.entries == [] && s.output.entries == []
    ensures Total(AnyHolders, s.threads) == 0 && Total(Uncounted, s.threads) == 0
  {
    forall t | 0 <= t < |s.threads|
      ensures Weigh(AnyHolders, s.threads[t]) == 0 && Weigh(Uncounted, s.threads[t]) == 0
    {
      assert !Urgent(b, s, s.threads[t]);
      EmptyHasNoPusher(b, s, PushSide(s.threads[t].role), t);
    }
    TotalZero(AnyHolders, s.threads);
    TotalZero(Uncounted, s.threads);
  }

  /** All files are claimed. */
  lemma ReadersAreDone(b: Batch, s: State)
    requires b.Ok() && Inv(b, s) && NobodyUrgent(b, s) && s.input.entries == []
    ensures Claims(s) == b.FileCount()
  {
    assert s.threads[0].role.Reader? && RoleFits(b, s.threads[0]) && !Urgent(b, s, s.threads[0]);
    EmptyHasNoPusher(b, s, Input, 0);
    if s.threads[0].pc.Claiming? {
      PendingUndoMeansAllClaimed(b, s);
    } else {
      assert LeftReadLoop(s.threads[0]);
    }
  }

  /** While a file is uncounted, some thread is urgent. */
  lemma SomebodyUrgent(b: Batch, s: State) returns (t: nat)
    requires b.Ok() && Inv(b, s) && s.writtenFiles < b.FileCount()
    ensures t < |s.threads| && Urgent(b, s, s.threads[t])
  {
    if NobodyUrgent(b, s) {
      WritersSeeEmpty(b, s);
      WorkersSeeEmpty(b, s);
      NobodyHolds(b, s);
      ReadersAreDone(b, s);
      assert false;
    }
    t :| 0 <= t < |s.threads| && Urgent(b, s, s.threads[t]);
  }

  // ---- it stays urgent until it moves ---------------------------------------------------------

  /** A step that moves no file leaves other urgent threads as they are. */
  lemma StaysUrgent(b: Batch, s: State, step: Step, t: nat)
    requires Enabled(b, s, step) && !MovesFile(b, s, step) && t < |s.threads| && t != step.t && Urgent(b, s, s.threads[t])
    ensures var s' := Apply(b, s, step);
            t < |s'.threads| && s'.threads[t] == s.threads[t] && Urgent(b, s', s'.threads[t])
  {
  }

  /** Its own step moves a file, or takes a writer to a pop that will. */
  lemma UrgentStep(b: Batch, s: State, step: Step)
    requires Enabled(b, s, step) && RoleFits(b, s.threads[step.t]) && Urgent(b, s, s.threads[step.t]) && !MovesFile(b, s, step)
    ensures s.threads[step.t].pc.Checking?
    ensures var s' := Apply(b, s, step);
            step.t < |s'.threads| && s'.threads[step.t].pc == Popping(Ready) && Urgent(b, s', s'.threads[step.t])
  {
  }

  /** The i-th step moves a file. */
  predicate Moves(b: Batch, states: nat -> State, picks: nat -> Step, i: nat) {
    Enabled(b, states(i), picks(i)) && MovesFile(b, states(i), picks(i))
  }

  predicate UrgentAt(b: Batch, states: nat -> State, i: nat, t: nat) {
    t < |states(i).threads| && Urgent(b, states(i), states(i).threads[t])
  }

  lemma OneStep(b: Batch, states: nat -> State, picks: nat -> Step, n: nat, i: nat, t: nat)
    requires b.Ok() && Run(b, states, picks, n) && i < n && UrgentAt(b, states, i, t) && !Moves(b, states, picks, i)
    ensures UrgentAt(b, states, i + 1, t)
    ensures picks(i).t != t ==> states(i + 1).threads[t] == states(i).threads[t]
    ensures picks(i).t == t ==> states(i).threads[t].pc.Checking? && states(i + 1).threads[t].pc == Popping(Ready)
  {
    RunInv(b, states, picks, i);
    assert Follows(b, states, picks, i);
    if picks(i).t == t {
      assert RoleFits(b, states(i).threads[t]);
      UrgentStep(b, states(i), picks(i));
    } else {
      StaysUrgent(b, states(i), picks(i), t);
    }
  }

  /** Between an urgent thread's moment and its next service, a file moves, or the writer starts to pop. */
  lemma {:induction false} UntilServed(b: Batch, states: nat -> State, picks: nat -> Step, n: nat, i: nat, j: nat, t: nat)
    returns (m: nat)
    requires b.Ok() && Run(b, states, picks, n) && i <= j < n && UrgentAt(b, states, i, t) && Served(states, picks, j, t)
    ensures i <= m <= j
    ensures Moves(b, states, picks, m)
            || (states(i).threads[t].pc.Checking? && UrgentAt(b, states, m + 1, t) && states(m + 1).threads[t].pc == Popping(Ready))
    decreases j - i
  {
    m := i;
    if !Moves(b, states, picks, i) {
      OneStep(b, states, picks, n, i, t);
      if picks(i).t != t {
        m := UntilServed(b, states, picks, n, i + 1, j, t);
      }
    }
  }

  lemma UrgentSince(b: Batch, states: nat -> State, picks: nat -> Step, i: nat) returns (t: nat)
    requires b.Ok() && Run(b, states, picks, i) && states(i).writtenFiles < b.FileCount()
    ensures UrgentAt(b, states, i, t)
  {
    RunInv(b, states, picks, i);
    t := SomebodyUrgent(b, states(i));
  }

  /** A writer that is urgent no longer because of its check. */
  predicate AboutToPop(b: Batch, states: nat -> State, i: nat, t: nat) {
    UrgentAt(b, states, i, t) && states(i).threads[t].pc == Popping(Ready)
  }

  lemma InOneWindow(b: Batch, states: nat -> State, picks: nat -> Step, n: nat, window: nat, i: nat, t: nat) returns (m: nat)
    requires b.Ok() && Run(b, states, picks, n) && FairWithin(states, picks, n, window) && i + window <= n && UrgentAt(b, states, i, t)
    ensures i <= m < i + window
    ensures Moves(b, states, picks, m) || (AboutToPop(b, states, m + 1, t) && !AboutToPop(b, states, i, t))
  {
    assert ServedWithin(states, picks, i, window, t);
    var j: nat :| i <= j < i + window && Served(states, picks, j, t);
    m := UntilServed(b, states, picks, n, i, j, t);
  }

  /** While a file is uncounted, two windows of a fair run move one. */
  lemma NextMove(b: Batch, states: nat -> State, picks: nat -> Step, n: nat, window: nat, i: nat) returns (m: nat)
    requires b.Ok() && Run(b, states, picks, n) && FairWithin(states, picks, n, window) && i + 2 * window <= n
    requires states(i).writtenFiles < b.FileCount()
    ensures i <= m < i + 2 * window && Moves(b, states, picks, m)
  {
    var t := UrgentSince(b, states, picks, i);
    m := InOneWindow(b, states, picks, n, window, i, t);
    if !Moves(b, states, picks, m) {
      m := InOneWindow(b, states, picks, n, window, m + 1, t);
    }
  }

  lemma AtSomeTime(b: Batch, states: nat -> State, picks: nat -> Step, i: nat, t: nat) returns (m: nat)
    requires b.Ok() && EndlessRun(b, states, picks) && WeaklyFair(states, picks) && UrgentAt(b, states, i, t)
    ensures i <= m
    ensures Moves(b, states, picks, m) || (AboutToPop(b, states, m + 1, t) && !AboutToPop(b, states, i, t))
  {
    assert ServedFrom(states, picks, i, t);
    var j: nat :| i <= j && Served(states, picks, j, t);
    m := UntilServed(b, states, picks, j + 1, i, j, t);
  }

  /** Without a bound on the windows: some later step moves a file. */
  lemma SomeMove(b: Batch, states: nat -> State, picks: nat -> Step, i: nat) returns (m: nat)
    requires b.Ok() && EndlessRun(b, states, picks) && WeaklyFair(states, picks)
    requires states(i).writtenFiles < b.FileCount()
    ensures i <= m && Moves(b, states, picks, m)
  {
    var t := UrgentSince(b, states, picks, i);
    m := AtSomeTime(b, states, picks, i, t);
    if !Moves(b, states, picks, m) {
      m := AtSomeTime(b, states, picks, m + 1, t);
    }
  }

  // ---- files move only so often ---------------------------------------------------------------

  lemma StageStep(b: Batch, states: nat -> State, picks: nat -> Step, n: nat, i: nat)
    requires b.Ok() && Run(b, states, picks, n) && i < n
    ensures FileStages(b, states(i + 1)) == FileStages(b, states(i)) - if Moves(b, states, picks, i) then 1 else 0
    ensures states(i).writtenFiles <= states(i + 1).writtenFiles
  {
    RunInv(b, states, picks, i);
    assert Follows(b, states, picks, i);
    BatchIsPositive(b);
    GenuineIsKept(b, Expected(b), states(i), picks(i));
    FileStagesAfter(b, states(i), picks(i));
  }

  lemma {:induction false} StagesFall(b: Batch, states: nat -> State, picks: nat -> Step, n: nat, i: nat, j: nat)
    requires b.Ok() && Run(b, states, picks, n) && i <= j <= n
    ensures FileStages(b, states(j)) <= FileStages(b, states(i)) && states(i).writtenFiles <= states(j).writtenFiles
    decreases j
  {
    if i < j {
      StagesFall(b, states, picks, n, i, j - 1);
      StageStep(b, states, picks, n, j - 1);
    }
  }

  lemma MoveLowersStages(b: Batch, states: nat -> State, picks: nat -> Step, n: nat, i: nat, m: nat, j: nat)
    requires b.Ok() && Run(b, states, picks, n) && i <= m < j <= n && Moves(b, states, picks, m)
    ensures FileStages(b, states(j)) < FileStages(b, states(i))
  {
    StagesFall(b, states, picks, n, i, m);
    StageStep(b, states, picks, n, m);
    StagesFall(b, states, picks, n, m + 1, j);
  }

  lemma StagesNotNegative(b: Batch, s: State)
    requires CountersExact(b, s)
    ensures 0 <= FileStages(b, s)
  {
  }

  lemma StagesAfterMove(b: Batch, states: nat -> State, picks: nat -> Step, i: nat, m: nat)
    requires b.Ok() && Run(b, states, picks, m + 1) && i <= m && Moves(b, states, picks, m)
    ensures 0 <= FileStages(b, states(m + 1)) < FileStages(b, states(i))
  {
    MoveLowersStages(b, states, picks, m + 1, i, m, m + 1);
    RunInv(b, states, picks, m + 1);
    StagesNotNegative(b, states(m + 1));
  }

  lemma FirstStages(b: Batch, s: State)
    requires b.Ok() && Initial(b, s)
    ensures FileStages(b, s) == 9 * b.FileCount()
  {
    TotalZero(Undoers, s.threads);
    TotalZero(Stages, s.threads);
  }

  // ---- the end of fair runs -------------------------------------------------------------------

  /** The steps of k pairs of windows. */
  function Windows(window: nat, k: nat): nat {
    if k == 0 then 0 else Windows(window, k - 1) + 2 * window
  }

  lemma {:induction false} WindowsProduct(window: nat, k: nat)
    ensures Windows(window, k) == 2 * window * k
  {
    if k > 0 {
      WindowsProduct(window, k - 1);
      Distribute(2 * window, k - 1, 1);
    }
  }

  /** After 2 * window * k steps either every file is counted or at least k stages are done. */
  lemma {:induction false} StagesAfterWindows(b: Batch, states: nat -> State, picks: nat -> Step, n: nat, window: nat, k: nat, i: nat)
    requires b.Ok() && Run(b, states, picks, n) && FairWithin(states, picks, n, window) && i == Windows(window, k) <= n
    ensures AllCounted(b, states(i)) || FileStages(b, states(i)) <= 9 * b.FileCount() - k
  {
    if k == 0 {
      FirstStages(b, states(0));
    } else {
      var before := Windows(window, k - 1);
      StagesAfterWindows(b, states, picks, n, window, k - 1, before);
      StagesFall(b, states, picks, n, before, i);
      if !AllCounted(b, states(before)) {
        var m := NextMove(b, states, picks, n, window, before);
        MoveLowersStages(b, states, picks, n, before, m, i);
      }
    }
  }

  /** A fair run has counted every file after two windows for each of its at most nine stages a file, and one more pair. */
  lemma FairRunsCount(b: Batch, states: nat -> State, picks: nat -> Step, n: nat, window: nat)
    requires b.Ok() && Run(b, states, picks, n) && FairWithin(states, picks, n, window)
    requires n == 2 * window * (9 * b.FileCount() + 1)
    ensures AllCounted(b, states(n))
  {
    var k := 9 * b.FileCount() + 1;
    WindowsProduct(window, k);
    StagesAfterWindows(b, states, picks, n, window, k, n);
    RunInv(b, states, picks, n);
    StagesNotNegative(b, states(n));
  }

  lemma CountedStep(b: Batch, states: nat -> State, picks: nat -> Step, n: nat, i: nat)
    requires b.Ok() && Run(b, states, picks, n) && i < n && AllCounted(b, states(i))
    ensures AllCounted(b, states(i + 1))
    ensures Total(Closing(b.workers), states(i + 1).threads) < Total(Closing(b.workers), states(i).threads)
  {
    RunInv(b, states, picks, i);
    assert Follows(b, states, picks, i);
    CountedStepsClose(b, states(i), picks(i));
  }

  lemma {:induction false} CountedStepsRemaining(b: Batch, states: nat -> State, picks: nat -> Step, n: nat, i: nat)
    requires b.Ok() && Run(b, states, picks, n) && i <= n && AllCounted(b, states(i))
    ensures n - i <= Total(Closing(b.workers), states(i).threads)
    decreases n - i
  {
    if i < n {
      CountedStep(b, states, picks, n, i);
      CountedStepsRemaining(b, states, picks, n, i + 1);
    }
  }

  lemma ClosingWeight(b: Batch, t: Thread)
    requires RoleFits(b, t)
    ensures Weigh(Closing(b.workers), t) <= b.workers + 5
  {
  }

  lemma ClosingBound(b: Batch, s: State)
    requires RolesFit(b, s)
    ensures Total(Closing(b.workers), s.threads) <= (b.workers + 5) * (b.readers + b.workers + b.writers)
  {
    forall t | 0 <= t < |s.threads|
      ensures Weigh(Closing(b.workers), s.threads[t]) <= b.workers + 5
    {
      ClosingWeight(b, s.threads[t]);
    }
    TotalAtMost(Closing(b.workers), s.threads, b.workers + 5);
  }

  /**
   * If every thread that is awake gets a step in every window of a given length, the run is over after a
   * number of steps fixed by the batch and that length.
   */
  lemma FairRunsAreBounded(b: Batch, states: nat -> State, picks: nat -> Step, n: nat, window: nat)
    requires b.Ok() && Run(b, states, picks, n) && FairWithin(states, picks, n, window)
    ensures n <= 2 * window * (9 * b.FileCount() + 1) + (b.workers + 5) * (b.readers + b.workers + b.writers)
  {
    var first := 2 * window * (9 * b.FileCount() + 1);
    if first <= n {
      FairRunsCount(b, states, picks, first, window);
      CountedStepsRemaining(b, states, picks, n, first);
      RunInv(b, states, picks, first);
      ClosingBound(b, states(first));
    }
  }

  /**
   * A run that cannot go on has ended with all threads finished, every file counted, both queues empty,
   * and each file written exactly once, filtered, under its own name.
   */
  lemma StoppedRunsAreFinished(b: Batch, states: nat -> State, picks: nat -> Step, n: nat, f: nat)
    requires b.Ok() && Run(b, states, picks, n) && (forall step: Step :: !Enabled(b, states(n), step)) && f < b.FileCount()
    ensures var e := states(n);
            && AllFinished(e) && e.writtenFiles == b.FileCount() == |e.disk| && e.input.entries == [] && e.output.entries == []
            && Occurrences(e.disk, f) == 1 && DiskIsFiltered(b, e)
  {
    RunInv(b, states, picks, n);
    StuckStateFinished(b, states(n));
    FinishedState(b, states(n), f);
  }

  /** In an endless weakly fair run every file would be counted at some time. */
  lemma {:induction false} EventuallyCounted(b: Batch, states: nat -> State, picks: nat -> Step, i: nat) returns (j: nat)
    requires b.Ok() && EndlessRun(b, states, picks) && WeaklyFair(states, picks)
    ensures AllCounted(b, states(j))
    decreases FileStages(b, states(i))
  {
    j := i;
    if !AllCounted(b, states(i)) {
      var m := SomeMove(b, states, picks, i);
      StagesAfterMove(b, states, picks, i, m);
      j := EventuallyCounted(b, states, picks, m + 1);
    }
  }

  /** No endless run is weakly fair: every weakly fair run ends. */
  lemma NoEndlessFairRun(b: Batch, states: nat -> State, picks: nat -> Step)
    requires b.Ok() && EndlessRun(b, states, picks)
    ensures !WeaklyFair(states, picks)
  {
    if WeaklyFair(states, picks) {
      var i := EventuallyCounted(b, states, picks, 0);
      var n := i + Total(Closing(b.workers), states(i).threads) + 1;
      CountedStepsRemaining(b, states, picks, n, i);
      assert false;
    }
  }

  // ---- fairness is needed ---------------------------------------------------------------------

  /** The first worker does nothing but time out and look again. */
  function Idling(b: Batch, s: State, i: nat): State
    requires b.readers < |s.threads|
  {
    if i == 0 then s
    else s.(threads := s.threads[b.readers := Thread(Worker, Popping(if i % 2 == 1 then Waiting else TimedOut))])
  }

  function IdlingPick(b: Batch, i: nat): Step {
    if i % 2 == 0 then Pop(b.readers, None) else TimeOut(b.readers)
  }

  lemma IdlingFollows(b: Batch, s: State, i: nat)
    requires b.Ok() && Initial(b, s) && 0 < b.FileCount()
    ensures Enabled(b, Idling(b, s, i), IdlingPick(b, i))
    ensures Idling(b, s, i + 1) == Apply(b, Idling(b, s, i), IdlingPick(b, i))
  {
    assert s.threads[b.readers] == Thread(Worker, Popping(Ready));
    assert Idling(b, s, i + 1).threads == Apply(b, Idling(b, s, i), IdlingPick(b, i)).threads;
  }

  /** As soon as there is a file, some runs never end: fairness cannot be dropped above. */
  lemma UnfairRunsExist(b: Batch, s: State) returns (states: nat -> State, picks: nat -> Step)
    requires b.Ok() && Initial(b, s) && 0 < b.FileCount()
    ensures EndlessRun(b, states, picks) && !WeaklyFair(states, picks)
  {
    states := (i: nat) => if b.readers < |s.threads| then Idling(b, s, i) else s;
    picks := (i: nat) => IdlingPick(b, i);
    forall n: nat
      ensures Run(b, states, picks, n)
    {
      forall i: nat | i < n
        ensures Follows(b, states, picks, i)
      {
        IdlingFollows(b, s, i);
      }
    }
    NoEndlessFairRun(b, states, picks);
  }
}
