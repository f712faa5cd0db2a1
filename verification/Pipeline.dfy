/**
 * Queue mode as a step relation: any number of reader, worker and writer threads, joined by two
 * bounded queues with condition variables. A step is what one thread does between two moments at which
 * others may run; a critical section is one step.
 */
module Pipeline {
  import opened Options
  import opened Pixels
  import opened Filtering
  import opened BlockClaims
  import opened BlockSequence
  import opened BitmapFile
  import opened ImageQueue

  // ---- the batch ------------------------------------------------------------------------------

  /** The picture of a bitmap the engines can work on. */
  predicate Usable(img: Bitmap) {
    0 < img.header.biWidth <= UINT16_MAX && 0 < img.header.biHeight <= UINT16_MAX && img.Consistent()
  }

  function PictureOf(img: Bitmap): Picture
    requires Usable(img)
  {
    Raster(img.header.biWidth, img.header.biHeight, img.pixels)
  }

  datatype Batch = Batch(inputs: seq<Bitmap>, filter: Filter, mode: Mode, block: nat,
                         readers: nat, workers: nat, writers: nat, limits: Limits) {
    function FileCount(): nat {
      |inputs|
    }

    /** Files of positive size that the chosen filter and blocks can handle, one thread of each role, room in the queues. */
    predicate Ok() {
      && |inputs| <= 255 && 0 < block <= UINT16_MAX
      && 0 < readers && 0 < workers && 0 < writers && 0 < limits.capacity
      && forall f :: 0 <= f < |inputs| ==>
        && Usable(inputs[f]) && filter.Applies(PictureOf(inputs[f]))
        && AxesEnd(Plan(mode, inputs[f].header.biWidth, inputs[f].header.biHeight, block))
    }

    function RoleAt(t: nat): Role {
      if t < readers then Reader else if t < readers + workers then Worker else Writer
    }
  }

  /** What a worker hands on: a fresh default header over the filtered pixels. */
  function Processed(filter: Filter, img: Bitmap): (r: Bitmap)
    requires Usable(img)
    ensures Usable(r) && PictureOf(r) == filter.Result(PictureOf(img))
  {
    Bitmap(DefaultHeader(img.header.biWidth, img.header.biHeight), filter.Result(PictureOf(img)).pixels)
  }

  // ---- threads --------------------------------------------------------------------------------

  datatype Role = Reader | Worker | Writer
  datatype Side = Input | Output

  /** Ready and Woken threads are about to take the mutex; Waiting ones sleep on a condition variable. */
  datatype Wake = Ready | Waiting | Woken | TimedOut

  datatype Pc =
    | Claiming                                     // reader: about to fetch-and-add `read_files`
    | Loading(file: nat)                           // reader: about to read its file
    | Pushing(entry: Queueable, wake: Wake)        // reader or worker: inside `queue_push`
    | Undoing                                      // reader: about to take back a claim beyond the last file
    | AtBarrier                                    // reader: in `pthread_barrier_wait`
    | Sentinels(sent: nat)                         // reader: sending termination images
    | Popping(wake: Wake)                          // worker or writer: inside `queue_pop`
    | Computing(entry: Queueable)                  // worker: filtering
    | Checking                                     // writer: about to look at `written_files`
    | Saving(entry: Queueable)                     // writer: about to write the output file
    | Counting(entry: Queueable)                   // writer: file written, about to add to `written_files`
    | Finished

  datatype Thread = Thread(role: Role, pc: Pc)

  function PushSide(r: Role): Side {
    if r.Reader? then Input else Output
  }

  function PopSide(r: Role): Side {
    if r.Worker? then Input else Output
  }

  datatype State = State(threads: seq<Thread>, readFiles: nat, writtenFiles: nat,
                         input: Queue, output: Queue, disk: seq<Queueable>) {
    function QueueOf(side: Side): Queue {
      match side
      case Input => input
      case Output => output
    }
  }

  predicate WaitsToPush(t: Thread, side: Side) {
    t.pc.Pushing? && t.pc.wake.Waiting? && PushSide(t.role) == side
  }

  predicate WaitsToPop(t: Thread, side: Side) {
    t.pc.Popping? && t.pc.wake.Waiting? && PopSide(t.role) == side
  }

  predicate Sleeping(t: Thread) {
    (t.pc.Pushing? || t.pc.Popping?) && t.pc.wake.Waiting?
  }

  function Awakened(t: Thread): Thread
    requires Sleeping(t)
  {
    t.(pc := t.pc.(wake := Woken))
  }

  // ---- steps ----------------------------------------------------------------------------------

  /** `wakes` is the thread that the signal of a push or pop unblocks. */
  datatype Step =
    | ClaimFile(t: nat)
    | Load(t: nat)
    | Push(t: nat, wakes: Option<nat>)
    | UndoClaim(t: nat)
    | PassBarrier(t: nat)
    | PushSentinel(t: nat)
    | Pop(t: nat, wakes: Option<nat>)
    | Compute(t: nat)
    | Check(t: nat)
    | Save(t: nat)
    | Count(t: nat)
    | TimeOut(t: nat)
    | WakeSpuriously(t: nat)

  /** Steps of a thread that nothing woke: the timeout of a pop, and a spurious wakeup. */
  predicate Idle(step: Step) {
    step.TimeOut? || step.WakeSpuriously?
  }

  function Woke(step: Step): Option<nat> {
    match step
    case Push(_, wakes) => wakes
    case Pop(_, wakes) => wakes
    case _ => None
  }

  /** `pthread_cond_signal`: unblocks a thread waiting on the condition, if there is one. */
  predicate SignalChoice(s: State, wakes: Option<nat>, side: Side, poppers: bool) {
    match wakes
    case Some(u) => u < |s.threads| && (if poppers then WaitsToPop(s.threads[u], side) else WaitsToPush(s.threads[u], side))
    case None => forall u :: 0 <= u < |s.threads| ==> !(if poppers then WaitsToPop(s.threads[u], side) else WaitsToPush(s.threads[u], side))
  }

  predicate PushSucceeds(b: Batch, s: State, t: Thread)
    requires t.pc.Pushing?
  {
    !Blocked(b.limits, s.QueueOf(PushSide(t.role)), t.pc.entry)
  }

  function Decision(b: Batch, s: State, t: Thread): PopResult
    requires t.pc.Popping?
  {
    PopDecision(s.QueueOf(PopSide(t.role)), s.writtenFiles, b.FileCount(), t.pc.wake.TimedOut?)
  }

  predicate Arrived(t: Thread) {
    t.pc.AtBarrier? || t.pc.Sentinels? || t.pc.Finished?
  }

  predicate Enabled(b: Batch, s: State, step: Step) {
    step.t < |s.threads|
    && var t := s.threads[step.t];
       match step
       case ClaimFile(_) => t.pc.Claiming?
       case Load(_) => t.pc.Loading? && t.pc.file < |b.inputs| && Usable(b.inputs[t.pc.file])
       case Push(_, wakes) =>
         t.pc.Pushing? && !t.pc.wake.Waiting?
         && (if PushSucceeds(b, s, t) then SignalChoice(s, wakes, PushSide(t.role), true) else wakes.None?)
       case UndoClaim(_) => t.pc.Undoing? && 0 < s.readFiles
       case PassBarrier(_) =>
         t.pc.AtBarrier? && forall u :: 0 <= u < |s.threads| && s.threads[u].role.Reader? ==> Arrived(s.threads[u])
       case PushSentinel(_) => t.pc.Sentinels?
       case Pop(_, wakes) =>
         t.pc.Popping? && !t.pc.wake.Waiting?
         && (if Decision(b, s, t).Taken? then SignalChoice(s, wakes, PopSide(t.role), false) else wakes.None?)
       case Compute(_) => t.pc.Computing? && Usable(t.pc.entry.image)
       case Check(_) => t.pc.Checking?
       case Save(_) => t.pc.Saving?
       case Count(_) => t.pc.Counting?
       case TimeOut(_) => t.pc.Popping? && t.pc.wake.Waiting?
       case WakeSpuriously(_) => Sleeping(t)
  }

  /** A thread that popped an image; one of size zero is taken for a termination signal. */
  function AfterPop(role: Role, e: Queueable): Pc {
    var empty := e.image.header.biWidth == 0 && e.image.header.biHeight == 0;
    if role.Worker? then (if empty then Finished else Computing(e)) else (if empty then Checking else Saving(e))
  }

  /** Where the step leaves the thread that takes it. */
  function Moved(b: Batch, s: State, step: Step): Thread
    requires Enabled(b, s, step)
  {
    var t := s.threads[step.t];
    match step
    case ClaimFile(_) => t.(pc := if s.readFiles < b.FileCount() then Loading(s.readFiles) else Undoing)
    case Load(_) => t.(pc := Pushing(Entry(t.pc.file, b.inputs[t.pc.file]), Ready))
    case Push(_, _) =>
      if !PushSucceeds(b, s, t) then t.(pc := t.pc.(wake := Waiting))
      else t.(pc := if t.role.Reader? then Claiming else Popping(Ready))
    case UndoClaim(_) => t.(pc := AtBarrier)
    case PassBarrier(_) => t.(pc := Sentinels(0))
    case PushSentinel(_) => t.(pc := if t.pc.sent < b.workers then Sentinels(t.pc.sent + 1) else Finished)
    case Pop(_, _) =>
      (match Decision(b, s, t)
       case Ended => t.(pc := Finished)
       case MustWait => t.(pc := Popping(Waiting))
       case Taken(e) => t.(pc := AfterPop(t.role, e)))
    case Compute(_) => t.(pc := Pushing(Entry(t.pc.entry.file, Processed(b.filter, t.pc.entry.image)), Ready))
    case Check(_) => t.(pc := if s.writtenFiles >= b.FileCount() then Finished else Popping(Ready))
    case Save(_) => t.(pc := Counting(t.pc.entry))
    case Count(_) => t.(pc := if s.writtenFiles + 1 >= b.FileCount() then Finished else Checking)
    case TimeOut(_) => t.(pc := Popping(TimedOut))
    case WakeSpuriously(_) => Awakened(t)
  }

  /** What the step makes of one of the queues; a termination image has no name and never reaches one. */
  function QueueAfter(b: Batch, s: State, step: Step, side: Side): Queue
    requires Enabled(b, s, step)
  {
    var t := s.threads[step.t];
    var q := s.QueueOf(side);
    if step.Push? && PushSide(t.role) == side && PushSucceeds(b, s, t) then Pushed(q, t.pc.entry)
    else if step.Pop? && PopSide(t.role) == side && Decision(b, s, t).Taken? then Popped(q)
    else q
  }

  function ThreadsAfter(b: Batch, s: State, step: Step): seq<Thread>
    requires Enabled(b, s, step)
  {
    var moved := s.threads[step.t := Moved(b, s, step)];
    match Woke(step)
    case None => moved
    case Some(u) => moved[u := Awakened(s.threads[u])]
  }

  function Apply(b: Batch, s: State, step: Step): State
    requires Enabled(b, s, step)
  {
    State(ThreadsAfter(b, s, step),
          if step.ClaimFile? then s.readFiles + 1 else if step.UndoClaim? then s.readFiles - 1 else s.readFiles,
          if step.Count? then s.writtenFiles + 1 else s.writtenFiles,
          QueueAfter(b, s, step, Input),
          QueueAfter(b, s, step, Output),
          if step.Save? then s.disk + [s.threads[step.t].pc.entry] else s.disk)
  }

  /** All threads at the start of their loops, both queues and the disk empty. */
  predicate Initial(b: Batch, s: State) {
    && s.readFiles == 0 && s.writtenFiles == 0 && s.input == EmptyQueue && s.output == EmptyQueue && s.disk == []
    && |s.threads| == b.readers + b.workers + b.writers
    && forall t :: 0 <= t < |s.threads| ==>
      s.threads[t] == match b.RoleAt(t)
                      case Reader => Thread(Reader, Claiming)
                      case Worker => Thread(Worker, Popping(Ready))
                      case Writer => Thread(Writer, Checking)
  }

  // ---- runs -----------------------------------------------------------------------------------

  predicate ValidRun(b: Batch, s: State, steps: seq<Step>)
    decreases |steps|
  {
    steps == [] || (Enabled(b, s, steps[0]) && ValidRun(b, Apply(b, s, steps[0]), steps[1..]))
  }

  function After(b: Batch, s: State, steps: seq<Step>): State
    requires ValidRun(b, s, steps)
    decreases |steps|
  {
    if steps == [] then s else After(b, Apply(b, s, steps[0]), steps[1..])
  }

  // ---- counting threads -----------------------------------------------------------------------

  /** The quantities that the invariants and measures add up over all threads. */
  datatype Gauge =
    | WaitingPushers(side: Side)
    | WokenPushers(side: Side)
    | WaitingPoppers(side: Side)
    | AwakePoppers(side: Side)
    | Undoers
    | Uncounted
    | Holders(file: nat)
    | AnyHolders
    | Stages
    | Activity(workers: nat)
    | Closing(workers: nat)

  /** How far the file a thread holds is from being counted. */
  function StageOf(t: Thread): nat {
    match t.pc
    case Loading(_) => 8
    case Pushing(_, _) => if t.role.Reader? then 7 else 4
    case Computing(_) => 5
    case Saving(_) => 2
    case Counting(_) => 1
    case _ => 0
  }

  /** The file a thread has taken and not yet passed on. */
  predicate HoldsFile(t: Thread, f: nat) {
    match t.pc
    case Loading(file) => file == f
    case Pushing(e, _) => e.file == f
    case Computing(e) => e.file == f
    case Saving(e) => e.file == f
    case _ => false
  }

  /** Steps a reader has left between its last claim and its end. */
  function ReaderTail(workers: nat, pc: Pc): nat {
    match pc
    case Claiming => workers + 5
    case Undoing => workers + 4
    case AtBarrier => workers + 3
    case Sentinels(sent) => if sent <= workers then workers - sent + 1 else 1
    case _ => 0
  }

  function Weigh(g: Gauge, t: Thread): nat {
    match g
    case WaitingPushers(side) => if WaitsToPush(t, side) then 1 else 0
    case WokenPushers(side) => if t.pc.Pushing? && t.pc.wake.Woken? && PushSide(t.role) == side then 1 else 0
    case WaitingPoppers(side) => if WaitsToPop(t, side) then 1 else 0
    case AwakePoppers(side) => if t.pc.Popping? && (t.pc.wake.Woken? || t.pc.wake.TimedOut?) && PopSide(t.role) == side then 1 else 0
    case Undoers => if t.pc.Undoing? then 1 else 0
    case Uncounted => if t.pc.Counting? then 1 else 0
    case Holders(f) => if HoldsFile(t, f) then 1 else 0
    case AnyHolders => if t.pc.Loading? || t.pc.Pushing? || t.pc.Computing? || t.pc.Saving? then 1 else 0
    case Stages => StageOf(t)
    case Activity(workers) =>
      (match t.pc
       case Pushing(_, wake) => if wake.Ready? then 2 else if wake.Waiting? then 0 else 1
       case Popping(wake) => if wake.Ready? then 2 else if wake.Waiting? then 0 else 1
       case Checking => 3
       case pc => ReaderTail(workers, pc))
    case Closing(workers) =>
      (match t.pc
       case Popping(wake) => if wake.Waiting? then 2 else 1
       case Checking => 1
       case pc => ReaderTail(workers, pc))
  }

  function Total(g: Gauge, ts: seq<Thread>): nat {
    if ts == [] then 0 else Weigh(g, ts[0]) + Total(g, ts[1..])
  }

  lemma {:induction false} TotalUpdate(g: Gauge, ts: seq<Thread>, t: nat, v: Thread)
    requires t < |ts|
    ensures Total(g, ts[t := v]) + Weigh(g, ts[t]) == Total(g, ts) + Weigh(g, v)
  {
    if t > 0 {
      TotalUpdate(g, ts[1..], t - 1, v);
      assert ts[t := v][1..] == ts[1..][t - 1 := v];
    } else {
      assert ts[t := v][1..] == ts[1..];
    }
  }

  lemma {:induction false} TotalAtLeast(g: Gauge, ts: seq<Thread>, t: nat)
    requires t < |ts|
    ensures Weigh(g, ts[t]) <= Total(g, ts)
  {
    if t > 0 {
      TotalAtLeast(g, ts[1..], t - 1);
    }
  }

  lemma {:induction false} TotalZero(g: Gauge, ts: seq<Thread>)
    requires forall t :: 0 <= t < |ts| ==> Weigh(g, ts[t]) == 0
    ensures Total(g, ts) == 0
  {
    if ts != [] {
      TotalZero(g, ts[1..]);
    }
  }

  lemma {:induction false} TotalWitness(g: Gauge, ts: seq<Thread>) returns (t: nat)
    requires 0 < Total(g, ts)
    ensures t < |ts| && 0 < Weigh(g, ts[t])
  {
    if 0 < Weigh(g, ts[0]) {
      t := 0;
    } else {
      t := TotalWitness(g, ts[1..]);
      t := t + 1;
    }
  }

  /** What the signal of a step adds to a gauge. */
  function WakeGain(g: Gauge, s: State, step: Step): int
    requires Woke(step).Some? ==> Woke(step).value < |s.threads| && Sleeping(s.threads[Woke(step).value])
  {
    match Woke(step)
    case None => 0
    case Some(u) => Weigh(g, Awakened(s.threads[u])) - Weigh(g, s.threads[u])
  }

  lemma WokenIsAnother(b: Batch, s: State, step: Step)
    requires Enabled(b, s, step) && Woke(step).Some?
    ensures Woke(step).value < |s.threads| && Woke(step).value != step.t && Sleeping(s.threads[Woke(step).value])
  {
  }

  /** How one step changes a gauge. */
  lemma TotalAfter(g: Gauge, b: Batch, s: State, step: Step)
    requires Enabled(b, s, step)
    ensures Woke(step).Some? ==> Woke(step).value < |s.threads| && Sleeping(s.threads[Woke(step).value])
    ensures Total(g, ThreadsAfter(b, s, step))
         == Total(g, s.threads) - Weigh(g, s.threads[step.t]) + Weigh(g, Moved(b, s, step)) + WakeGain(g, s, step)
  {
    TotalUpdate(g, s.threads, step.t, Moved(b, s, step));
    if Woke(step).Some? {
      WokenIsAnother(b, s, step);
      TotalUpdate(g, s.threads[step.t := Moved(b, s, step)], Woke(step).value, Awakened(s.threads[Woke(step).value]));
    }
  }
}
