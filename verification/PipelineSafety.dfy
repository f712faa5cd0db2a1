/** What every reachable state of the pipeline satisfies, and what that says about the files. */
module PipelineSafety {
  import opened Options
  import opened BitmapFile
  import opened ImageQueue
  import opened Pipeline

  // ---- each thread and each entry on its own --------------------------------------------------

  /** An image as it was read from its file. */
  predicate Raw(b: Batch, e: Queueable) {
    e.file < |b.inputs| && e.image == b.inputs[e.file]
  }

  /** The image that each file is to become. */
  function Expected(b: Batch): (outs: seq<Bitmap>)
    requires b.Ok()
    ensures |outs| == |b.inputs| && forall f :: 0 <= f < |outs| ==> outs[f] == Processed(b.filter, b.inputs[f])
  {
    seq(|b.inputs|, f requires 0 <= f < |b.inputs| && b.Ok() => Processed(b.filter, b.inputs[f]))
  }

  /** The filtered image of a file. */
  predicate Cooked(outs: seq<Bitmap>, e: Queueable) {
    e.file < |outs| && e.image == outs[e.file]
  }

  /** Which role a thread must have to stand where it stands. */
  predicate RoleFits(b: Batch, t: Thread) {
    match t.pc
    case Claiming => t.role.Reader?
    case Loading(_) => t.role.Reader?
    case Pushing(_, wake) => !t.role.Writer? && !wake.TimedOut?
    case Undoing => t.role.Reader?
    case AtBarrier => t.role.Reader?
    case Sentinels(sent) => t.role.Reader? && sent <= b.workers
    case Popping(_) => !t.role.Reader?
    case Computing(_) => t.role.Worker?
    case Checking => t.role.Writer?
    case Saving(_) => t.role.Writer?
    case Counting(_) => t.role.Writer?
    case Finished => true
  }

  /** The image a thread carries is the one its stage should carry. */
  predicate Carries(b: Batch, outs: seq<Bitmap>, t: Thread) {
    match t.pc
    case Loading(file) => file < |b.inputs|
    case Pushing(e, _) => if t.role.Reader? then Raw(b, e) else Cooked(outs, e)
    case Computing(e) => Raw(b, e)
    case Saving(e) => Cooked(outs, e)
    case Counting(e) => Cooked(outs, e)
    case _ => true
  }

  predicate RolesFit(b: Batch, s: State) {
    && |s.threads| == b.readers + b.workers + b.writers
    && forall t :: 0 <= t < |s.threads| ==> s.threads[t].role == b.RoleAt(t) && RoleFits(b, s.threads[t])
  }

  predicate AllCarry(b: Batch, outs: seq<Bitmap>, ts: seq<Thread>) {
    forall t :: 0 <= t < |ts| ==> Carries(b, outs, ts[t])
  }

  predicate AllRaw(b: Batch, entries: seq<Queueable>) {
    forall i :: 0 <= i < |entries| ==> Raw(b, entries[i])
  }

  predicate AllCooked(outs: seq<Bitmap>, entries: seq<Queueable>) {
    forall i :: 0 <= i < |entries| ==> Cooked(outs, entries[i])
  }

  predicate ImagesGenuine(b: Batch, outs: seq<Bitmap>, s: State) {
    AllCarry(b, outs, s.threads) && AllRaw(b, s.input.entries) && AllCooked(outs, s.output.entries) && AllCooked(outs, s.disk)
  }

  /** A popped image is never mistaken for a termination signal. */
  predicate TakenIsKept(b: Batch, s: State, step: Step)
    requires Enabled(b, s, step)
  {
    var t := s.threads[step.t];
    step.Pop? && Decision(b, s, t).Taken? ==>
      Moved(b, s, step) == t.(pc := if t.role.Worker? then Computing(Decision(b, s, t).entry) else Saving(Decision(b, s, t).entry))
  }

  predicate AllPositive(images: seq<Bitmap>) {
    forall f :: 0 <= f < |images| ==> 0 < images[f].header.biWidth && 0 < images[f].header.biHeight
  }

  lemma BatchIsPositive(b: Batch)
    requires b.Ok()
    ensures AllPositive(b.inputs) && AllPositive(Expected(b))
  {
    forall f | 0 <= f < |b.inputs|
      ensures 0 < Expected(b)[f].header.biWidth && 0 < Expected(b)[f].header.biHeight
    {
      assert Usable(b.inputs[f]);
    }
  }

  lemma GenuineIsKept(b: Batch, outs: seq<Bitmap>, s: State, step: Step)
    requires AllPositive(b.inputs) && AllPositive(outs) && RolesFit(b, s) && ImagesGenuine(b, outs, s) && Enabled(b, s, step)
    ensures TakenIsKept(b, s, step)
  {
    var t := s.threads[step.t];
    if step.Pop? && Decision(b, s, t).Taken? {
      assert RoleFits(b, t);
      assert PopSide(t.role).Input? ==> Raw(b, s.input.entries[0]);
      assert PopSide(t.role).Output? ==> Cooked(outs, s.output.entries[0]);
    }
  }

  lemma MovedFits(b: Batch, s: State, step: Step)
    requires Enabled(b, s, step) && RoleFits(b, s.threads[step.t]) && TakenIsKept(b, s, step)
    ensures Moved(b, s, step).role == s.threads[step.t].role && RoleFits(b, Moved(b, s, step))
  {
  }

  lemma StepKeepsRoles(b: Batch, s: State, step: Step)
    requires RolesFit(b, s) && Enabled(b, s, step) && TakenIsKept(b, s, step)
    ensures RolesFit(b, Apply(b, s, step))
  {
    assert RoleFits(b, s.threads[step.t]);
    MovedFits(b, s, step);
    if Woke(step).Some? {
      WokenIsAnother(b, s, step);
      assert RoleFits(b, s.threads[Woke(step).value]);
    }
  }

  /** The step relates a computed image to the file it came from. */
  predicate ComputesRightly(b: Batch, outs: seq<Bitmap>, s: State, step: Step)
    requires Enabled(b, s, step)
  {
    step.Compute? ==> Carries(b, outs, Moved(b, s, step))
  }

  lemma ComputeIsRight(b: Batch, s: State, step: Step)
    requires b.Ok() && Enabled(b, s, step) && RoleFits(b, s.threads[step.t]) && Carries(b, Expected(b), s.threads[step.t])
    ensures ComputesRightly(b, Expected(b), s, step)
  {
  }

  lemma MovedCarries(b: Batch, outs: seq<Bitmap>, s: State, step: Step)
    requires RolesFit(b, s) && ImagesGenuine(b, outs, s) && Enabled(b, s, step) && TakenIsKept(b, s, step)
    requires ComputesRightly(b, outs, s, step)
    ensures Carries(b, outs, Moved(b, s, step))
  {
    var t := s.threads[step.t];
    assert RoleFits(b, t) && Carries(b, outs, t);
    if step.Pop? && Decision(b, s, t).Taken? {
      assert PopSide(t.role).Input? ==> Raw(b, s.input.entries[0]);
      assert PopSide(t.role).Output? ==> Cooked(outs, s.output.entries[0]);
    }
  }

  lemma QueueKeepsGenuine(b: Batch, outs: seq<Bitmap>, s: State, step: Step)
    requires RolesFit(b, s) && ImagesGenuine(b, outs, s) && Enabled(b, s, step)
    ensures AllRaw(b, QueueAfter(b, s, step, Input).entries) && AllCooked(outs, QueueAfter(b, s, step, Output).entries)
  {
    assert RoleFits(b, s.threads[step.t]) && Carries(b, outs, s.threads[step.t]);
  }

  lemma AwakenedCarries(b: Batch, outs: seq<Bitmap>, t: Thread)
    requires Sleeping(t) && Carries(b, outs, t)
    ensures Carries(b, outs, Awakened(t))
  {
  }

  lemma ThreadsKeepCarrying(b: Batch, outs: seq<Bitmap>, s: State, step: Step)
    requires Enabled(b, s, step) && Carries(b, outs, Moved(b, s, step))
    requires AllCarry(b, outs, s.threads)
    ensures AllCarry(b, outs, ThreadsAfter(b, s, step))
  {
    if Woke(step).Some? {
      WokenIsAnother(b, s, step);
      AwakenedCarries(b, outs, s.threads[Woke(step).value]);
    }
  }

  lemma StepKeepsGenuine(b: Batch, outs: seq<Bitmap>, s: State, step: Step)
    requires RolesFit(b, s) && ImagesGenuine(b, outs, s) && Enabled(b, s, step) && TakenIsKept(b, s, step)
    requires ComputesRightly(b, outs, s, step)
    ensures ImagesGenuine(b, outs, Apply(b, s, step))
  {
    MovedCarries(b, outs, s, step);
    ThreadsKeepCarrying(b, outs, s, step);
    QueueKeepsGenuine(b, outs, s, step);
    DiskKeepsGenuine(b, outs, s, step);
  }

  lemma DiskKeepsGenuine(b: Batch, outs: seq<Bitmap>, s: State, step: Step)
    requires RolesFit(b, s) && ImagesGenuine(b, outs, s) && Enabled(b, s, step)
    ensures AllCooked(outs, Apply(b, s, step).disk)
  {
    assert Carries(b, outs, s.threads[step.t]);
  }

  // ---- the queues -----------------------------------------------------------------------------

  predicate QueuesWithinLimits(b: Batch, s: State) {
    WithinLimits(b.limits, s.input) && WithinLimits(b.limits, s.output)
  }

  lemma StepKeepsLimits(b: Batch, s: State, step: Step)
    requires QueuesWithinLimits(b, s) && Enabled(b, s, step)
    ensures QueuesWithinLimits(b, Apply(b, s, step))
  {
    var t := s.threads[step.t];
    if step.Push? && PushSucceeds(b, s, t) {
      PushKeepsLimits(b.limits, s.QueueOf(PushSide(t.role)), t.pc.entry);
    }
    if step.Pop? && Decision(b, s, t).Taken? {
      PopKeepsLimits(b.limits, s.QueueOf(PopSide(t.role)));
    }
  }

  // ---- the counters ---------------------------------------------------------------------------

  /** Claims of files, as opposed to claims beyond the last file that are still to be taken back. */
  function Claims(s: State): int {
    s.readFiles - Total(Undoers, s.threads)
  }

  predicate LeftReadLoop(t: Thread) {
    t.role.Reader? && (t.pc.Undoing? || t.pc.AtBarrier? || t.pc.Sentinels? || t.pc.Finished?)
  }

  predicate CountersExact(b: Batch, s: State) {
    && 0 <= Claims(s) <= b.FileCount()
    && s.writtenFiles + Total(Uncounted, s.threads) == |s.disk|
    && (forall t :: 0 <= t < |s.threads| && LeftReadLoop(s.threads[t]) ==> Claims(s) == b.FileCount())
  }

  /** A reader that claims beyond the last file does so only when every file is claimed. */
  lemma PendingUndoMeansAllClaimed(b: Batch, s: State)
    requires RolesFit(b, s) && CountersExact(b, s)
    ensures s.readFiles < b.FileCount() ==> Total(Undoers, s.threads) == 0
    ensures s.readFiles >= b.FileCount() ==> Claims(s) == b.FileCount()
  {
    if 0 < Total(Undoers, s.threads) {
      var t := TotalWitness(Undoers, s.threads);
      assert RoleFits(b, s.threads[t]);
      assert LeftReadLoop(s.threads[t]);
    }
  }

  /** Signals move no file and finish no claim. */
  lemma SignalsKeepFiles(g: Gauge, b: Batch, s: State, step: Step)
    requires Enabled(b, s, step) && (g.Undoers? || g.Uncounted? || g.Holders? || g.AnyHolders? || g.Stages?)
    ensures Total(g, ThreadsAfter(b, s, step)) == Total(g, s.threads) - Weigh(g, s.threads[step.t]) + Weigh(g, Moved(b, s, step))
  {
    TotalAfter(g, b, s, step);
  }

  lemma MovedUndoers(b: Batch, s: State, step: Step)
    requires Enabled(b, s, step)
    ensures Weigh(Undoers, Moved(b, s, step)) - Weigh(Undoers, s.threads[step.t])
         == if step.ClaimFile? && s.readFiles >= b.FileCount() then 1 else if step.UndoClaim? then -1 else 0
  {
  }

  /** How a step moves the number of claimed files. */
  lemma ClaimsAfter(b: Batch, s: State, step: Step)
    requires RolesFit(b, s) && CountersExact(b, s) && Enabled(b, s, step)
    ensures Claims(Apply(b, s, step)) == Claims(s) + if step.ClaimFile? && s.readFiles < b.FileCount() then 1 else 0
    ensures step.ClaimFile? && s.readFiles < b.FileCount() ==> Claims(s) == s.readFiles
  {
    SignalsKeepFiles(Undoers, b, s, step);
    MovedUndoers(b, s, step);
    PendingUndoMeansAllClaimed(b, s);
  }

  lemma MovedUncounted(b: Batch, s: State, step: Step)
    requires Enabled(b, s, step)
    ensures Weigh(Uncounted, Moved(b, s, step)) - Weigh(Uncounted, s.threads[step.t])
         == if step.Save? then 1 else if step.Count? then -1 else 0
  {
  }

  lemma MovedLeftReadLoop(b: Batch, s: State, step: Step)
    requires Enabled(b, s, step) && RoleFits(b, s.threads[step.t]) && LeftReadLoop(Moved(b, s, step))
    ensures LeftReadLoop(s.threads[step.t]) || (step.ClaimFile? && s.readFiles >= b.FileCount())
  {
  }

  lemma LeaversSawAllClaimed(b: Batch, s: State, step: Step, t: nat)
    requires RolesFit(b, s) && CountersExact(b, s) && Enabled(b, s, step)
    requires t < |Apply(b, s, step).threads| && LeftReadLoop(Apply(b, s, step).threads[t])
    ensures Claims(s) == b.FileCount()
  {
    PendingUndoMeansAllClaimed(b, s);
    if t == step.t {
      assert RoleFits(b, s.threads[t]);
      MovedLeftReadLoop(b, s, step);
    } else {
      assert LeftReadLoop(s.threads[t]);
    }
  }

  lemma StepKeepsCounters(b: Batch, s: State, step: Step)
    requires RolesFit(b, s) && CountersExact(b, s) && Enabled(b, s, step)
    ensures CountersExact(b, Apply(b, s, step))
  {
    ClaimsAfter(b, s, step);
    SignalsKeepFiles(Uncounted, b, s, step);
    MovedUncounted(b, s, step);
    var s' := Apply(b, s, step);
    forall t | 0 <= t < |s'.threads| && LeftReadLoop(s'.threads[t])
      ensures Claims(s') == b.FileCount()
    {
      LeaversSawAllClaimed(b, s, step, t);
    }
  }

  // ---- each file in one place -----------------------------------------------------------------

  function Occurrences(entries: seq<Queueable>, f: nat): nat {
    if entries == [] then 0 else (if entries[0].file == f then 1 else 0) + Occurrences(entries[1..], f)
  }

  lemma {:induction false} OccurrencesAppend(entries: seq<Queueable>, e: Queueable, f: nat)
    ensures Occurrences(entries + [e], f) == Occurrences(entries, f) + if e.file == f then 1 else 0
  {
    if entries != [] {
      OccurrencesAppend(entries[1..], e, f);
      assert (entries + [e])[1..] == entries[1..] + [e];
    }
  }

  /** The number of places in which a file is: unread, held by a thread, in a queue, or on disk. */
  function PlacesOf(b: Batch, s: State, f: nat): int {
    (if Claims(s) <= f < b.FileCount() then 1 else 0)
    + Total(Holders(f), s.threads)
    + Occurrences(s.input.entries, f) + Occurrences(s.output.entries, f) + Occurrences(s.disk, f)
  }

  lemma QueueOccurrencesAfter(b: Batch, s: State, step: Step, f: nat)
    requires Enabled(b, s, step)
    ensures Occurrences(QueueAfter(b, s, step, Input).entries, f) + Occurrences(QueueAfter(b, s, step, Output).entries, f)
         == Occurrences(s.input.entries, f) + Occurrences(s.output.entries, f)
          + (if step.Push? && PushSucceeds(b, s, s.threads[step.t]) && s.threads[step.t].pc.entry.file == f then 1 else 0)
          - (if step.Pop? && Decision(b, s, s.threads[step.t]).Taken? && Decision(b, s, s.threads[step.t]).entry.file == f then 1 else 0)
  {
    var t := s.threads[step.t];
    if step.Push? && PushSucceeds(b, s, t) {
      OccurrencesAppend(s.QueueOf(PushSide(t.role)).entries, t.pc.entry, f);
    }
  }

  lemma MovedHolders(b: Batch, s: State, step: Step, f: nat)
    requires Enabled(b, s, step) && RoleFits(b, s.threads[step.t]) && TakenIsKept(b, s, step)
    ensures Weigh(Holders(f), Moved(b, s, step)) - Weigh(Holders(f), s.threads[step.t])
         == (if step.ClaimFile? && s.readFiles < b.FileCount() && s.readFiles == f then 1 else 0)
          - (if step.Push? && PushSucceeds(b, s, s.threads[step.t]) && s.threads[step.t].pc.entry.file == f then 1 else 0)
          + (if step.Pop? && Decision(b, s, s.threads[step.t]).Taken? && Decision(b, s, s.threads[step.t]).entry.file == f then 1 else 0)
          - (if step.Save? && s.threads[step.t].pc.entry.file == f then 1 else 0)
  {
  }

  /** Every step moves a file from one place to the next, or leaves it where it is. */
  lemma StepKeepsPlaces(b: Batch, s: State, step: Step, f: nat)
    requires RolesFit(b, s) && CountersExact(b, s) && Enabled(b, s, step) && TakenIsKept(b, s, step)
    ensures PlacesOf(b, Apply(b, s, step), f) == PlacesOf(b, s, f)
  {
    ClaimsAfter(b, s, step);
    SignalsKeepFiles(Holders(f), b, s, step);
    assert RoleFits(b, s.threads[step.t]);
    MovedHolders(b, s, step, f);
    QueueOccurrencesAfter(b, s, step, f);
    if step.Save? {
      OccurrencesAppend(s.disk, s.threads[step.t].pc.entry, f);
    }
  }

  /** All the files there are, counted by where they are. */
  function FilesSomewhere(b: Batch, s: State): int {
    (b.FileCount() - Claims(s)) + Total(AnyHolders, s.threads) + |s.input.entries| + |s.output.entries| + |s.disk|
  }

  lemma MovedAnyHolders(b: Batch, s: State, step: Step)
    requires Enabled(b, s, step) && RoleFits(b, s.threads[step.t]) && TakenIsKept(b, s, step)
    ensures Weigh(AnyHolders, Moved(b, s, step)) - Weigh(AnyHolders, s.threads[step.t])
         == (if step.ClaimFile? && s.readFiles < b.FileCount() then 1 else 0)
          - (if step.Push? && PushSucceeds(b, s, s.threads[step.t]) then 1 else 0)
          + (if step.Pop? && Decision(b, s, s.threads[step.t]).Taken? then 1 else 0)
          - (if step.Save? then 1 else 0)
  {
  }

  lemma QueueLengthsAfter(b: Batch, s: State, step: Step)
    requires Enabled(b, s, step)
    ensures |QueueAfter(b, s, step, Input).entries| + |QueueAfter(b, s, step, Output).entries|
         == |s.input.entries| + |s.output.entries|
          + (if step.Push? && PushSucceeds(b, s, s.threads[step.t]) then 1 else 0)
          - (if step.Pop? && Decision(b, s, s.threads[step.t]).Taken? then 1 else 0)
  {
  }

  lemma StepKeepsFiles(b: Batch, s: State, step: Step)
    requires RolesFit(b, s) && CountersExact(b, s) && Enabled(b, s, step) && TakenIsKept(b, s, step)
    ensures FilesSomewhere(b, Apply(b, s, step)) == FilesSomewhere(b, s)
  {
    ClaimsAfter(b, s, step);
    SignalsKeepFiles(AnyHolders, b, s, step);
    assert RoleFits(b, s.threads[step.t]);
    MovedAnyHolders(b, s, step);
    QueueLengthsAfter(b, s, step);
  }

  // ---- exits ----------------------------------------------------------------------------------

  /** No worker or writer has exited before every file was counted. */
  predicate NoEarlyExit(b: Batch, s: State) {
    forall t :: 0 <= t < |s.threads| && !s.threads[t].role.Reader? && s.threads[t].pc.Finished? ==> s.writtenFiles >= b.FileCount()
  }

  lemma StepKeepsNoEarlyExit(b: Batch, s: State, step: Step)
    requires RolesFit(b, s) && CountersExact(b, s) && FilesSomewhere(b, s) == b.FileCount() && NoEarlyExit(b, s)
    requires Enabled(b, s, step) && TakenIsKept(b, s, step)
    ensures NoEarlyExit(b, Apply(b, s, step))
  {
    var s' := Apply(b, s, step);
    assert RoleFits(b, s.threads[step.t]);
    forall t | 0 <= t < |s'.threads| && !s'.threads[t].role.Reader? && s'.threads[t].pc.Finished?
      ensures s'.writtenFiles >= b.FileCount()
    {
      if t != step.t {
        assert s.threads[t].pc.Finished?;
      }
    }
  }

  // ---- the reader barrier ---------------------------------------------------------------------

  predicate PassedBarrier(t: Thread) {
    t.role.Reader? && (t.pc.Sentinels? || t.pc.Finished?)
  }

  predicate AllArrived(ts: seq<Thread>) {
    forall u :: 0 <= u < |ts| && ts[u].role.Reader? ==> Arrived(ts[u])
  }

  /** No reader is past the barrier before the last one has come to it. */
  predicate BarrierKept(s: State) {
    forall t :: 0 <= t < |s.threads| && PassedBarrier(s.threads[t]) ==> AllArrived(s.threads)
  }

  lemma MovedArrives(b: Batch, s: State, step: Step)
    requires Enabled(b, s, step) && RoleFits(b, s.threads[step.t]) && s.threads[step.t].role.Reader?
    ensures Arrived(s.threads[step.t]) ==> Arrived(Moved(b, s, step))
    ensures PassedBarrier(Moved(b, s, step)) ==> PassedBarrier(s.threads[step.t]) || step.PassBarrier?
  {
  }

  lemma ArrivedStay(b: Batch, s: State, step: Step)
    requires RolesFit(b, s) && Enabled(b, s, step) && TakenIsKept(b, s, step) && AllArrived(s.threads)
    ensures AllArrived(ThreadsAfter(b, s, step))
  {
    assert RoleFits(b, s.threads[step.t]);
    MovedFits(b, s, step);
    if s.threads[step.t].role.Reader? {
      MovedArrives(b, s, step);
    }
    if Woke(step).Some? {
      WokenIsAnother(b, s, step);
    }
  }

  lemma NoneGetsPast(b: Batch, s: State, step: Step)
    requires RolesFit(b, s) && Enabled(b, s, step) && TakenIsKept(b, s, step) && !AllArrived(s.threads)
    requires forall t :: 0 <= t < |s.threads| ==> !PassedBarrier(s.threads[t])
    ensures forall t :: 0 <= t < |s.threads| ==> !PassedBarrier(ThreadsAfter(b, s, step)[t])
  {
    assert RoleFits(b, s.threads[step.t]);
    MovedFits(b, s, step);
    if s.threads[step.t].role.Reader? {
      MovedArrives(b, s, step);
    }
    if Woke(step).Some? {
      WokenIsAnother(b, s, step);
    }
  }

  lemma StepKeepsBarrier(b: Batch, s: State, step: Step)
    requires RolesFit(b, s) && Enabled(b, s, step) && TakenIsKept(b, s, step) && BarrierKept(s)
    ensures BarrierKept(Apply(b, s, step))
  {
    if AllArrived(s.threads) {
      ArrivedStay(b, s, step);
    } else {
      NoneGetsPast(b, s, step);
    }
  }

  // ---- the two condition variables ------------------------------------------------------------

  /** A pusher nobody has woken sleeps beside a non-empty queue or a woken pusher yet to look again. */
  predicate PushersNotForgotten(s: State, side: Side) {
    0 < Total(WaitingPushers(side), s.threads) ==> s.QueueOf(side).entries != [] || 0 < Total(WokenPushers(side), s.threads)
  }

  /** While a popper sleeps unwoken there are no more images than awake poppers to take them. */
  predicate PoppersNotForgotten(s: State, side: Side) {
    0 < Total(WaitingPoppers(side), s.threads) ==> |s.QueueOf(side).entries| <= Total(AwakePoppers(side), s.threads)
  }

  lemma NobodyWaitsToPush(s: State, side: Side)
    requires SignalChoice(s, None, side, false)
    ensures Total(WaitingPushers(side), s.threads) == 0
  {
    TotalZero(WaitingPushers(side), s.threads);
  }

  lemma NobodyWaitsToPop(s: State, side: Side)
    requires SignalChoice(s, None, side, true)
    ensures Total(WaitingPoppers(side), s.threads) == 0
  {
    TotalZero(WaitingPoppers(side), s.threads);
  }

  lemma MovedPushers(b: Batch, s: State, step: Step, side: Side)
    requires Enabled(b, s, step) && RoleFits(b, s.threads[step.t]) && TakenIsKept(b, s, step)
    ensures 0 < Weigh(WaitingPushers(side), Moved(b, s, step)) ==> QueueAfter(b, s, step, side).entries != [] || b.limits.capacity == 0
    ensures Weigh(WaitingPushers(side), Moved(b, s, step)) + Weigh(WokenPushers(side), Moved(b, s, step))
         >= Weigh(WaitingPushers(side), s.threads[step.t])
    ensures Weigh(WokenPushers(side), Moved(b, s, step)) < Weigh(WokenPushers(side), s.threads[step.t])
         ==> QueueAfter(b, s, step, side).entries != [] || b.limits.capacity == 0
  {
    var t := s.threads[step.t];
    if step.Push? && !PushSucceeds(b, s, t) && 0 < b.limits.capacity {
      EmptyBlocksNobody(b.limits, s.QueueOf(PushSide(t.role)), t.pc.entry);
    }
  }

  /** A pop that finds sleeping pushers signals one of them. */
  lemma PopWakesPusher(b: Batch, s: State, step: Step, side: Side)
    requires Enabled(b, s, step)
    ensures QueueAfter(b, s, step, side).entries == [] && s.QueueOf(side).entries != [] ==>
      if Woke(step).Some? then WakeGain(WokenPushers(side), s, step) == 1 else Total(WaitingPushers(side), s.threads) == 0
    ensures WakeGain(WokenPushers(side), s, step) >= 0
    ensures WakeGain(WaitingPushers(side), s, step) == -WakeGain(WokenPushers(side), s, step)
  {
    var t := s.threads[step.t];
    if step.Pop? && PopSide(t.role) == side && Decision(b, s, t).Taken? && Woke(step).None? {
      NobodyWaitsToPush(s, side);
    }
  }

  lemma StepKeepsPushers(b: Batch, s: State, step: Step, side: Side)
    requires RolesFit(b, s) && PushersNotForgotten(s, side) && 0 < b.limits.capacity
    requires Enabled(b, s, step) && TakenIsKept(b, s, step)
    ensures PushersNotForgotten(Apply(b, s, step), side)
  {
    TotalAfter(WaitingPushers(side), b, s, step);
    TotalAfter(WokenPushers(side), b, s, step);
    assert RoleFits(b, s.threads[step.t]);
    MovedPushers(b, s, step, side);
    PopWakesPusher(b, s, step, side);
    TotalAtLeast(WokenPushers(side), s.threads, step.t);
    TotalAtLeast(WaitingPushers(side), s.threads, step.t);
    assert Apply(b, s, step).QueueOf(side) == QueueAfter(b, s, step, side);
  }

  lemma MovedPoppers(b: Batch, s: State, step: Step, side: Side)
    requires Enabled(b, s, step) && RoleFits(b, s.threads[step.t]) && TakenIsKept(b, s, step)
    ensures Weigh(WaitingPoppers(side), s.threads[step.t]) < Weigh(WaitingPoppers(side), Moved(b, s, step)) ==>
      QueueAfter(b, s, step, side).entries == []
    ensures Weigh(AwakePoppers(side), Moved(b, s, step)) < Weigh(AwakePoppers(side), s.threads[step.t]) ==>
      || QueueAfter(b, s, step, side).entries == []
      || (step.Pop? && |QueueAfter(b, s, step, side).entries| + 1 == |s.QueueOf(side).entries|)
      || SeesAllWritten(s.writtenFiles, b.FileCount())
  {
  }

  /** A push that finds sleeping poppers signals one of them. */
  lemma PushWakesPopper(b: Batch, s: State, step: Step, side: Side)
    requires Enabled(b, s, step)
    ensures |QueueAfter(b, s, step, side).entries| <= |s.QueueOf(side).entries| + 1
    ensures |QueueAfter(b, s, step, side).entries| > |s.QueueOf(side).entries| ==>
      Weigh(AwakePoppers(side), s.threads[step.t]) == 0
      && if Woke(step).Some? then WakeGain(AwakePoppers(side), s, step) == 1 else Total(WaitingPoppers(side), s.threads) == 0
    ensures WakeGain(AwakePoppers(side), s, step) >= 0
    ensures WakeGain(WaitingPoppers(side), s, step) == -WakeGain(AwakePoppers(side), s, step)
  {
    var t := s.threads[step.t];
    if step.Push? && PushSide(t.role) == side && PushSucceeds(b, s, t) && Woke(step).None? {
      NobodyWaitsToPop(s, side);
    }
  }

  /** Once every file is counted nothing is left in either queue. */
  lemma AllWrittenEmptiesQueues(b: Batch, s: State)
    requires CountersExact(b, s) && FilesSomewhere(b, s) == b.FileCount() && SeesAllWritten(s.writtenFiles, b.FileCount())
    ensures s.input.entries == [] && s.output.entries == [] && |s.disk| == s.writtenFiles == b.FileCount()
    ensures Total(AnyHolders, s.threads) == 0 && Claims(s) == b.FileCount()
  {
  }

  lemma StepKeepsPoppers(b: Batch, s: State, step: Step, side: Side)
    requires RolesFit(b, s) && CountersExact(b, s) && FilesSomewhere(b, s) == b.FileCount()
    requires PoppersNotForgotten(s, side) && Enabled(b, s, step) && TakenIsKept(b, s, step)
    ensures PoppersNotForgotten(Apply(b, s, step), side)
  {
    TotalAfter(WaitingPoppers(side), b, s, step);
    TotalAfter(AwakePoppers(side), b, s, step);
    assert RoleFits(b, s.threads[step.t]);
    MovedPoppers(b, s, step, side);
    PushWakesPopper(b, s, step, side);
    TotalAtLeast(AwakePoppers(side), s.threads, step.t);
    assert Apply(b, s, step).QueueOf(side) == QueueAfter(b, s, step, side);
    if SeesAllWritten(s.writtenFiles, b.FileCount()) {
      AllWrittenEmptiesQueues(b, s);
    }
  }

  // ---- the invariant --------------------------------------------------------------------------

  ghost predicate Inv(b: Batch, s: State)
    requires b.Ok()
  {
    && RolesFit(b, s) && ImagesGenuine(b, Expected(b), s) && QueuesWithinLimits(b, s) && CountersExact(b, s) && NoEarlyExit(b, s)
    && BarrierKept(s)
    && (forall f: nat :: PlacesOf(b, s, f) == if f < b.FileCount() then 1 else 0)
    && FilesSomewhere(b, s) == b.FileCount()
    && PushersNotForgotten(s, Input) && PushersNotForgotten(s, Output)
    && PoppersNotForgotten(s, Input) && PoppersNotForgotten(s, Output)
  }

  lemma InitialThreads(b: Batch, s: State)
    requires b.Ok() && Initial(b, s)
    ensures RolesFit(b, s) && ImagesGenuine(b, Expected(b), s) && QueuesWithinLimits(b, s) && NoEarlyExit(b, s)
    ensures BarrierKept(s)
  {
  }

  lemma InitialCounters(b: Batch, s: State)
    requires b.Ok() && Initial(b, s)
    ensures CountersExact(b, s) && FilesSomewhere(b, s) == b.FileCount()
  {
    TotalZero(Undoers, s.threads);
    TotalZero(Uncounted, s.threads);
    TotalZero(AnyHolders, s.threads);
  }

  lemma InitialWaiters(b: Batch, s: State, side: Side)
    requires b.Ok() && Initial(b, s)
    ensures PushersNotForgotten(s, side) && PoppersNotForgotten(s, side)
  {
    TotalZero(WaitingPushers(side), s.threads);
    TotalZero(WaitingPoppers(side), s.threads);
  }

  lemma InitialInv(b: Batch, s: State)
    requires b.Ok() && Initial(b, s)
    ensures Inv(b, s)
  {
    InitialThreads(b, s);
    InitialCounters(b, s);
    InitialWaiters(b, s, Input);
    InitialWaiters(b, s, Output);
    forall f: nat
      ensures PlacesOf(b, s, f) == if f < b.FileCount() then 1 else 0
    {
      InitialPlaces(b, s, f);
    }
  }

  lemma InitialPlaces(b: Batch, s: State, f: nat)
    requires b.Ok() && Initial(b, s)
    ensures PlacesOf(b, s, f) == if f < b.FileCount() then 1 else 0
  {
    TotalZero(Undoers, s.threads);
    TotalZero(Holders(f), s.threads);
  }

  lemma StepKeepsInv(b: Batch, s: State, step: Step)
    requires b.Ok() && Inv(b, s) && Enabled(b, s, step)
    ensures Inv(b, Apply(b, s, step))
  {
    BatchIsPositive(b);
    GenuineIsKept(b, Expected(b), s, step);
    StepKeepsRoles(b, s, step);
    ComputeIsRight(b, s, step);
    StepKeepsGenuine(b, Expected(b), s, step);
    StepKeepsLimits(b, s, step);
    StepKeepsCounters(b, s, step);
    StepKeepsNoEarlyExit(b, s, step);
    StepKeepsBarrier(b, s, step);
    StepKeepsFiles(b, s, step);
    StepKeepsPushers(b, s, step, Input);
    StepKeepsPushers(b, s, step, Output);
    StepKeepsPoppers(b, s, step, Input);
    StepKeepsPoppers(b, s, step, Output);
    forall f: nat
      ensures PlacesOf(b, Apply(b, s, step), f) == if f < b.FileCount() then 1 else 0
    {
      StepKeepsPlaces(b, s, step, f);
    }
  }

  lemma {:induction false} RunKeepsInv(b: Batch, s: State, steps: seq<Step>)
    requires b.Ok() && Inv(b, s) && ValidRun(b, s, steps)
    ensures Inv(b, After(b, s, steps))
    decreases |steps|
  {
    if steps != [] {
      StepKeepsInv(b, s, steps[0]);
      RunKeepsInv(b, Apply(b, s, steps[0]), steps[1..]);
    }
  }
}
