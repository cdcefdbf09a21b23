/**
 * The start/stop/shutdown protocol and the session table of
 * src/net/NetSocketServer.cpp: one controller thread and one worker thread
 * talking through four manual-reset events and a guarded status, with any
 * number of responders, over all interleavings.  Waits do not fail.
 */
module SocketServer {

  datatype Control = Start | Stop | Shutdown
  datatype Status = Initted | Stopped | Started | ShutDown | Error | StopPending

  /** Where the controller is inside `control`. */
  datatype Controller =
    | Idle
    | Decide(ctl: Control, seen: Status)       // status read
    | StartReset | StartSignal | StartWait
    | StopReset(ctl: Control) | StopResetTrigger(ctl: Control) | StopSetPending(ctl: Control)
    | StopClose(ctl: Control) | StopWait(ctl: Control)
    | ShutFlag | ShutReset | ShutResetTrigger | ShutSignal | ShutWait | ShutAbort

  /** Where the worker is inside `myWorkerFunction` or `processRequest`. */
  datatype Worker =
    | Top | SignalStopped | TriggerWait | CheckShutdown | Listen
    | SetStarted | SignalStarted
    | SetError | SignalFailed
    | Accept | NullCheck | Reading | TakeId | AddPost(id: nat) | Queue(id: nat)
    | SetShutdown | SignalShutdown | Done

  datatype State = State(
    ctl: Controller,
    worker: Worker,
    status: Status,
    shuttingDown: bool,
    trigger: bool, started: bool, stopped: bool, shutdown: bool,  // the four events
    listening: bool,
    table: Sessions)

  datatype Sessions = Sessions(
    nextId: nat,                // the session counter, shared by all servers of the process
    pending: set<nat>,          // sessions in the pending table
    added: set<nat>,            // history: sessions ever added,
    queued: set<nat>,           //   ids passed to queueMessage,
    responded: multiset<nat>,   //   claims by sendResponse,
    aborted: multiset<nat>)     //   claims by abortAllPosts
  {
    function Take(): Sessions { this.(nextId := nextId + 1) }

    function Add(id: nat): Sessions { this.(pending := pending + {id}, added := added + {id}) }

    function Queue(id: nat): Sessions { this.(queued := queued + {id}) }

    /** sendResponse claims a pending session, and does nothing for any other id. */
    function Respond(id: nat): Sessions {
      if id in pending then this.(pending := pending - {id}, responded := responded + multiset{id}) else this
    }

    /** abortAllPosts claims every pending session in one locked step. */
    function AbortAll(): Sessions { this.(pending := {}, aborted := aborted + multiset(pending)) }
  }

  datatype Action =
    | Call(c: Control)      // the controller calls control
    | Advance               // the controller's next step
    | Work(ok: bool)        // the worker's next step; `ok` resolves what the network decides
    | VainRead              // a read brings nothing, or text that ends no header, and the worker reads again
    | Respond(id: nat)      // some thread answers a message it was given
    | OtherServer           // another server takes a session id

  predicate Init(s: State) {
    && s.ctl == Idle && s.worker == Top && s.status == Initted && !s.shuttingDown
    && !s.trigger && !s.started && !s.stopped && !s.shutdown && !s.listening
    && s.table.pending == {} && s.table.added == {} && s.table.queued == {}
    && s.table.responded == multiset{} && s.table.aborted == multiset{}
  }

  /** setStatus: a shut-down server stays shut down. */
  function SetStatus(s: State, st: Status): State {
    s.(status := if s.status == ShutDown then ShutDown else st)
  }

  /** The branch `control` takes once it has read the status. */
  function Branch(ctl: Control, seen: Status): Controller {
    if seen == ShutDown || seen == Error then Idle
    else match ctl
      case Start => if seen != Started then StartReset else Idle
      case Stop => if seen == Started then StopReset(Stop) else Idle
      case Shutdown => if seen == Started then StopReset(Shutdown) else ShutFlag
  }

  /** The controller is inside `control`, and not waiting for an unsignalled event. */
  predicate CanAdvance(s: State) {
    match s.ctl
    case Idle => false
    case StartWait => s.started
    case StopWait(_) => s.stopped
    case ShutWait => s.shutdown
    case _ => true
  }

  predicate InStart(c: Controller) { c.StartReset? || c.StartSignal? || c.StartWait? }

  predicate InStop(c: Controller) {
    c.StopReset? || c.StopResetTrigger? || c.StopSetPending? || c.StopClose? || c.StopWait?
  }

  predicate InShutdown(c: Controller) {
    c.ShutFlag? || c.ShutReset? || c.ShutResetTrigger? || c.ShutSignal? || c.ShutWait? || c.ShutAbort?
  }

  function StartingUp(s: State): (r: State)
    requires InStart(s.ctl)
    ensures r.worker == s.worker && r.table == s.table && r.status == s.status
  {
    match s.ctl
    case StartReset => s.(ctl := StartSignal, started := false)
    case StartSignal => s.(ctl := StartWait, trigger := true)
    case StartWait => s.(ctl := Idle)
  }

  function StoppingDown(s: State): (r: State)
    requires InStop(s.ctl)
    ensures r.worker == s.worker && r.table == s.table && (s.status == ShutDown ==> r.status == ShutDown)
  {
    match s.ctl
    case StopReset(c) => s.(ctl := StopResetTrigger(c), stopped := false)
    case StopResetTrigger(c) => s.(ctl := StopSetPending(c), trigger := false)
    case StopSetPending(c) => SetStatus(s, StopPending).(ctl := StopClose(c))
    case StopClose(c) => s.(ctl := StopWait(c), listening := false)
    case StopWait(c) => s.(ctl := if c == Stop then Idle else ShutFlag)
  }

  function ShuttingDown(s: State): (r: State)
    requires InShutdown(s.ctl)
    ensures r.worker == s.worker && r.status == s.status
    ensures r.table == if s.ctl == ShutAbort then s.table.AbortAll() else s.table
  {
    match s.ctl
    case ShutFlag => s.(ctl := ShutReset, shuttingDown := true)
    case ShutReset => s.(ctl := ShutResetTrigger, shutdown := false)
    case ShutResetTrigger => s.(ctl := ShutSignal, trigger := false)
    case ShutSignal => s.(ctl := ShutWait, trigger := true)
    case ShutWait => s.(ctl := ShutAbort)
    case ShutAbort => s.(ctl := Idle, table := s.table.AbortAll())
  }

  /** The controller's next step. */
  function Advanced(s: State): (r: State)
    requires CanAdvance(s)
    ensures r.worker == s.worker && (s.status == ShutDown ==> r.status == ShutDown)
    ensures r.table == if s.ctl == ShutAbort then s.table.AbortAll() else s.table
  {
    if s.ctl.Decide? then s.(ctl := Branch(s.ctl.ctl, s.ctl.seen))
    else if InStart(s.ctl) then StartingUp(s)
    else if InStop(s.ctl) then StoppingDown(s)
    else ShuttingDown(s)
  }

  /** The worker is running, and not waiting for an unsignalled trigger. */
  predicate CanWork(s: State) {
    s.worker != Done && (s.worker == TriggerWait ==> s.trigger)
  }

  predicate Serving(w: Worker) {
    w == Accept || w == NullCheck || w == Reading || w == TakeId || w.AddPost? || w.Queue?
  }

  /** processRequest. */
  function Served(s: State, ok: bool): (r: State)
    requires Serving(s.worker)
    ensures r == s.(worker := r.worker, table := r.table)
  {
    match s.worker
    // a closed listener gives no connection; an open one may give one, fail, or block
    case Accept => s.(worker := if ok && s.listening then Reading else NullCheck)
    case NullCheck => s.(worker := if s.status == StopPending then Top else Accept)
    case Reading => s.(worker := if ok then TakeId else Accept)
    case TakeId => s.(worker := AddPost(s.table.nextId), table := s.table.Take())
    case AddPost(id) => s.(worker := Queue(id), table := s.table.Add(id))
    case Queue(id) => s.(worker := Accept, table := s.table.Queue(id))
  }

  /** The worker has not yet been asked to serve. */
  predicate Resting(w: Worker) {
    w == Top || w == SignalStopped || w == TriggerWait || w == CheckShutdown
  }

  /** myWorkerFunction from the top of its loop to the shutdown check. */
  function Rested(s: State): (r: State)
    requires Resting(s.worker)
    ensures r.ctl == s.ctl && r.table == s.table && (s.status == ShutDown ==> r.status == ShutDown)
    ensures !r.worker.AddPost? && !r.worker.Queue? && r.worker != TakeId
  {
    match s.worker
    case Top => SetStatus(s, Stopped).(worker := SignalStopped)
    case SignalStopped => s.(worker := TriggerWait, stopped := true)
    case TriggerWait => s.(worker := CheckShutdown)
    case CheckShutdown => s.(worker := if s.shuttingDown then SetShutdown else Listen)
  }

  /** myWorkerFunction on its way to serve, or out. */
  function Launched(s: State, ok: bool): (r: State)
    requires !Resting(s.worker) && !Serving(s.worker) && s.worker != Done
    ensures r.ctl == s.ctl && r.table == s.table && (s.status == ShutDown ==> r.status == ShutDown)
    ensures !r.worker.AddPost? && !r.worker.Queue? && r.worker != TakeId
  {
    match s.worker
    case Listen => s.(worker := if ok then SetStarted else SetError, listening := ok)
    case SetStarted => SetStatus(s, Started).(worker := SignalStarted)
    case SignalStarted => s.(worker := Accept, started := true)
    case SetError => SetStatus(s, Error).(worker := SignalFailed)
    case SignalFailed => s.(worker := SetShutdown, started := true)
    case SetShutdown => SetStatus(s, ShutDown).(worker := SignalShutdown)
    case SignalShutdown => s.(worker := Done, shutdown := true)
  }

  /** myWorkerFunction outside processRequest. */
  function Cycled(s: State, ok: bool): (r: State)
    requires !Serving(s.worker) && s.worker != Done
    ensures r.ctl == s.ctl && r.table == s.table && (s.status == ShutDown ==> r.status == ShutDown)
    ensures !r.worker.AddPost? && !r.worker.Queue? && r.worker != TakeId
  {
    if Resting(s.worker) then Rested(s) else Launched(s, ok)
  }

  /** The worker's next step; `ok` resolves what the network decides. */
  function Worked(s: State, ok: bool): (r: State)
    requires CanWork(s)
    ensures r.ctl == s.ctl && (s.status == ShutDown ==> r.status == ShutDown)
  {
    if Serving(s.worker) then Served(s, ok) else Cycled(s, ok)
  }

  predicate Step(s: State, a: Action, s': State) {
    match a
    case Call(c) => s.ctl == Idle && s' == s.(ctl := Decide(c, s.status))
    case Advance => CanAdvance(s) && s' == Advanced(s)
    case Work(ok) => CanWork(s) && s' == Worked(s, ok)
    case VainRead => s.worker == Reading && s' == s
    case Respond(id) => id in s.table.queued && s' == s.(table := s.table.Respond(id))
    case OtherServer => s' == s.(table := s.table.Take())
  }

  ghost predicate StepAt(states: seq<State>, actions: seq<Action>, i: nat)
    requires i < |actions| < |states|
  {
    Step(states[i], actions[i], states[i + 1])
  }

  ghost predicate Run(states: seq<State>, actions: seq<Action>) {
    && |states| == |actions| + 1
    && Init(states[0])
    && forall i | 0 <= i < |actions| :: StepAt(states, actions, i)
  }

  // ---------------------------------------------------------------- protocol invariant

  /** Not started: the worker is on its way to the unsignalled trigger, or waits there. */
  predicate Parked(s: State) {
    && !s.trigger && !s.shuttingDown
    && match s.worker
       case Top => s.status == Initted || s.status == Stopped
       case SignalStopped => s.status == Stopped
       case TriggerWait => s.status == Stopped
       case _ => false
  }

  predicate Running(s: State) {
    s.trigger && !s.shuttingDown && s.listening && s.status == Started && Serving(s.worker)
  }

  /** Listening failed: the worker is leaving for good. */
  predicate Failed(s: State) {
    match s.worker
    case SetShutdown => s.status == Error
    case SignalShutdown => s.status == ShutDown
    case Done => s.status == ShutDown
    case _ => false
  }

  /** The worker was triggered, or is about to see that it was, and has not yet reported. */
  predicate Launching(s: State) {
    && s.trigger && !s.shuttingDown
    && match s.worker
       case Top => s.status == Initted || s.status == Stopped
       case SignalStopped => s.status == Stopped
       case TriggerWait => s.status == Stopped
       case CheckShutdown => s.status == Stopped
       case Listen => s.status == Stopped
       case SetStarted => s.listening && s.status == Stopped
       case SignalStarted => s.listening && s.status == Started
       case SetError => s.status == Stopped
       case SignalFailed => s.status == Error
       case _ => false
  }

  /** The worker was told to stop serving and has not yet reported. */
  predicate Stopping(s: State) {
    && !s.trigger && !s.shuttingDown && !s.stopped
    && match s.worker
       case Top => s.status == StopPending
       case SignalStopped => s.status == Stopped
       case w => Serving(w) && s.status == StopPending
  }

  /** The worker waits at the trigger, having reported that it stopped. */
  predicate Halted(s: State) {
    !s.trigger && !s.shuttingDown && s.worker == TriggerWait && s.status == Stopped
  }

  /** The shutdown flag is up, the worker has not yet reported. */
  predicate Closing(s: State) {
    && s.shuttingDown
    && match s.worker
       case Top => s.status == Initted || s.status == Stopped
       case SignalStopped => s.status == Stopped
       case TriggerWait => s.status == Stopped
       case CheckShutdown => s.trigger && s.status == Stopped
       case SetShutdown => s.trigger && s.status == Stopped
       case SignalShutdown => s.trigger && s.status == ShutDown
       case _ => false
  }

  predicate Gone(s: State) {
    s.worker == Done && s.status == ShutDown
  }

  predicate Inv(s: State) {
    match s.ctl
    case Idle => Parked(s) || Running(s) || Failed(s) || Gone(s)
    case Decide(_, seen) =>
      || (Parked(s) && (seen == Initted || seen == Stopped))
      || (Running(s) && seen == Started)
      || ((Failed(s) || Gone(s)) && (seen == Error || seen == ShutDown))
    case StartReset => Parked(s)
    case StartSignal => Parked(s) && !s.started
    case StartWait => if s.started then Running(s) || Failed(s) else Launching(s)
    case StopReset(_) => Running(s)
    case StopResetTrigger(_) => Running(s) && !s.stopped
    case StopSetPending(_) => Running(s.(trigger := true)) && !s.trigger && !s.stopped
    case StopClose(_) => Stopping(s) || (Halted(s) && s.stopped)
    case StopWait(_) => !s.listening && (Stopping(s) || (Halted(s) && s.stopped))
    case ShutFlag => Parked(s)
    case ShutReset => Closing(s) && !s.trigger
    case ShutResetTrigger => Closing(s) && !s.trigger && !s.shutdown
    case ShutSignal => Closing(s) && !s.trigger && !s.shutdown
    case ShutWait => if s.shutdown then Gone(s) else Closing(s) && s.trigger
    case ShutAbort => Gone(s)
  }

  /** Bounds the worker steps left before it signals whatever the controller waits for. */
  function Rank(w: Worker): nat {
    match w
    case Reading => 13
    case TakeId => 12
    case AddPost(_) => 11
    case Queue(_) => 10
    case Accept => 9
    case NullCheck => 8
    case Top => 7
    case SignalStopped => 6
    case TriggerWait => 5
    case CheckShutdown => 4
    case Listen => 3
    case SetStarted => 2
    case SetError => 2
    case SetShutdown => 2
    case SignalStarted => 1
    case SignalFailed => 1
    case SignalShutdown => 1
    case Done => 0
  }

  /** Outside processRequest a worker step is one of myWorkerFunction. */
  lemma WorkedOutside(s: State, ok: bool)
    requires CanWork(s) && !Serving(s.worker)
    ensures Worked(s, ok) == Cycled(s, ok)
  {
  }

  lemma WorkerWhenParked(s: State, ok: bool)
    requires CanWork(s) && Parked(s)
    ensures var s' := Worked(s, ok);
      Parked(s') && s' == s.(worker := s'.worker, status := s'.status, stopped := s'.stopped)
  {
    hide Worked;
    WorkedOutside(s, ok);
  }

  lemma WorkerWhenServing(s: State, ok: bool)
    requires CanWork(s) && Serving(s.worker) && s.status == Started
    ensures var s' := Worked(s, ok);
      Serving(s'.worker) && s' == s.(worker := s'.worker, table := s'.table)
  {
  }

  lemma WorkerWhenFailed(s: State, ok: bool)
    requires CanWork(s) && Failed(s)
    ensures Failed(Worked(s, ok)) && Worked(s, ok).started == s.started
  {
    hide Worked;
    WorkedOutside(s, ok);
  }

  lemma WorkerWhenLaunching(s: State, ok: bool)
    requires CanWork(s) && Launching(s) && !s.started
    ensures var s' := Worked(s, ok);
      if s'.started then Running(s') || Failed(s') else Launching(s')
  {
    hide Worked;
    WorkedOutside(s, ok);
  }

  lemma LaunchProgress(s: State, ok: bool)
    requires CanWork(s) && Launching(s)
    ensures Worked(s, ok).started || Rank(Worked(s, ok).worker) < Rank(s.worker)
  {
    hide Worked;
    WorkedOutside(s, ok);
  }

  lemma WorkerWhenStopping(s: State, ok: bool)
    requires CanWork(s) && Stopping(s)
    ensures var s' := Worked(s, ok);
      s'.listening == s.listening && (Stopping(s') || (Halted(s') && s'.stopped))
  {
  }

  lemma StopProgress(s: State, ok: bool)
    requires CanWork(s) && Stopping(s) && !s.listening
    ensures Worked(s, ok).stopped || Rank(Worked(s, ok).worker) < Rank(s.worker)
  {
  }

  lemma WorkerBeforeTrigger(s: State, ok: bool)
    requires CanWork(s) && Closing(s) && !s.trigger
    ensures Closing(Worked(s, ok)) && !Worked(s, ok).trigger && Worked(s, ok).shutdown == s.shutdown
  {
    hide Worked;
    WorkedOutside(s, ok);
  }

  lemma WorkerWhenClosing(s: State, ok: bool)
    requires CanWork(s) && Closing(s) && s.trigger && !s.shutdown
    ensures Worked(s, ok).trigger
    ensures if Worked(s, ok).shutdown then Gone(Worked(s, ok)) else Closing(Worked(s, ok))
  {
    hide Worked;
    WorkedOutside(s, ok);
  }

  lemma CloseProgress(s: State, ok: bool)
    requires CanWork(s) && Closing(s)
    ensures Worked(s, ok).shutdown || Rank(Worked(s, ok).worker) < Rank(s.worker)
  {
    hide Worked;
    WorkedOutside(s, ok);
  }

  /** The worker's part, while the controller waits for nothing. */
  lemma WorkerInvUnwatched(s: State, ok: bool)
    requires Inv(s) && CanWork(s) && !s.ctl.StartWait? && !s.ctl.StopClose? && !s.ctl.StopWait?
    requires !s.ctl.ShutReset? && !s.ctl.ShutResetTrigger? && !s.ctl.ShutSignal? && !s.ctl.ShutWait?
    ensures Inv(Worked(s, ok))
  {
    if Parked(s) { WorkerWhenParked(s, ok); }
    if Serving(s.worker) && s.status == Started { WorkerWhenServing(s, ok); }
    if Failed(s) { WorkerWhenFailed(s, ok); }
  }

  lemma WorkerInvStarting(s: State, ok: bool)
    requires Inv(s) && CanWork(s) && s.ctl.StartWait?
    ensures Inv(Worked(s, ok))
  {
    if !s.started {
      WorkerWhenLaunching(s, ok);
    } else if Failed(s) {
      WorkerWhenFailed(s, ok);
    } else {
      WorkerWhenServing(s, ok);
    }
  }

  lemma WorkerInvStopping(s: State, ok: bool)
    requires Inv(s) && CanWork(s) && (s.ctl.StopClose? || s.ctl.StopWait?)
    ensures Inv(Worked(s, ok))
  {
    WorkerWhenStopping(s, ok);
  }

  lemma WorkerInvClosing(s: State, ok: bool)
    requires Inv(s) && CanWork(s)
    requires s.ctl.ShutReset? || s.ctl.ShutResetTrigger? || s.ctl.ShutSignal? || s.ctl.ShutWait?
    ensures Inv(Worked(s, ok))
  {
    if s.trigger {
      WorkerWhenClosing(s, ok);
    } else {
      WorkerBeforeTrigger(s, ok);
    }
  }

  lemma WorkerInv(s: State, ok: bool)
    requires Inv(s) && CanWork(s)
    ensures Inv(Worked(s, ok))
  {
    if s.ctl.StartWait? {
      WorkerInvStarting(s, ok);
    } else if s.ctl.StopClose? || s.ctl.StopWait? {
      WorkerInvStopping(s, ok);
    } else if s.ctl.ShutReset? || s.ctl.ShutResetTrigger? || s.ctl.ShutSignal? || s.ctl.ShutWait? {
      WorkerInvClosing(s, ok);
    } else {
      WorkerInvUnwatched(s, ok);
    }
  }

  lemma StartInv(s: State)
    requires Inv(s) && CanAdvance(s)
    requires s.ctl.Decide? || InStart(s.ctl)
    ensures Inv(Advanced(s))
  {
    hide StoppingDown, ShuttingDown, Closing, Stopping, Halted;
  }

  lemma StopInv(s: State)
    requires Inv(s) && CanAdvance(s)
    requires InStop(s.ctl)
    ensures Inv(Advanced(s))
  {
    hide StartingUp, ShuttingDown, Worked, Served, Cycled, Launching, Closing, Failed, Gone;
  }

  lemma ShutInv(s: State)
    requires Inv(s) && CanAdvance(s)
    requires InShutdown(s.ctl) && !s.ctl.ShutWait? && !s.ctl.ShutAbort?
    ensures Inv(Advanced(s))
  {
    hide StartingUp, StoppingDown, Running, Launching, Stopping, Halted, Failed;
  }

  lemma ControllerInv(s: State)
    requires Inv(s) && CanAdvance(s)
    ensures Inv(Advanced(s))
  {
    if s.ctl.Decide? || InStart(s.ctl) {
      StartInv(s);
    } else if InStop(s.ctl) {
      StopInv(s);
    } else if !s.ctl.ShutWait? && !s.ctl.ShutAbort? {
      ShutInv(s);
    }
  }

  lemma CallInv(s: State, c: Control)
    requires Inv(s) && s.ctl == Idle
    ensures Inv(s.(ctl := Decide(c, s.status)))
  {
  }

  /** The sessions play no part in the protocol. */
  lemma TableInv(s: State, t: Sessions)
    requires Inv(s)
    ensures Inv(s.(table := t))
  {
  }

  lemma StepInv(s: State, a: Action, s': State)
    requires Inv(s) && Step(s, a, s')
    ensures Inv(s')
  {
    hide Inv;
    match a
    case Advance => { ControllerInv(s); }
    case Work(ok) => { WorkerInv(s, ok); }
    case Call(c) => { CallInv(s, c); }
    case _ => { TableInv(s, s'.table); }
  }

  lemma {:induction false} RunInv(states: seq<State>, actions: seq<Action>, i: nat)
    requires Run(states, actions) && i < |states|
    ensures Inv(states[i])
  {
    if i > 0 {
      RunInv(states, actions, i - 1);
      assert StepAt(states, actions, i - 1);
      StepInv(states[i - 1], actions[i - 1], states[i]);
    }
  }

  /** The event the controller is waiting for is not signalled. */
  predicate ControllerBlocked(s: State) {
    match s.ctl
    case StartWait => !s.started
    case StopWait(_) => !s.stopped
    case ShutWait => !s.shutdown
    case _ => false
  }

  /** No deadlock: while the controller waits in vain, the worker is neither gone nor at an unsignalled trigger. */
  lemma NoDeadlock(s: State)
    requires Inv(s) && ControllerBlocked(s)
    ensures s.worker != Done && (s.worker == TriggerWait ==> s.trigger)
  {
  }

  /** Each worker step other than a vain read signals the awaited event or lowers the rank. */
  lemma WorkerProgress(s: State, ok: bool)
    requires Inv(s) && ControllerBlocked(s) && CanWork(s)
    ensures !ControllerBlocked(Worked(s, ok)) || Rank(Worked(s, ok).worker) < Rank(s.worker)
  {
    if s.ctl.StartWait? {
      LaunchProgress(s, ok);
    } else if s.ctl.StopWait? {
      StopProgress(s, ok);
    } else {
      CloseProgress(s, ok);
    }
  }

  function WorkSteps(actions: seq<Action>): nat {
    if actions == [] then 0
    else WorkSteps(actions[..|actions| - 1]) + if actions[|actions| - 1].Work? then 1 else 0
  }

  lemma WorkStepsSnoc(actions: seq<Action>, i: nat, j: nat)
    requires i < j <= |actions|
    ensures WorkSteps(actions[i..j]) == WorkSteps(actions[i..j - 1]) + if actions[j - 1].Work? then 1 else 0
  {
    assert actions[i..j][..j - i - 1] == actions[i..j - 1];
  }

  lemma BlockedStep(s: State, a: Action, s': State)
    requires Inv(s) && ControllerBlocked(s) && Step(s, a, s') && ControllerBlocked(s')
    ensures Rank(s'.worker) + (if a.Work? then 1 else 0) <= Rank(s.worker)
  {
    if a.Work? {
      WorkerProgress(s, a.ok);
    }
  }

  /**
   * In any run, through any stretch in which the controller waits in vain the
   * worker takes at most 13 steps other than vain header reads.
   */
  lemma {:induction false} WaitsEnd(states: seq<State>, actions: seq<Action>, i: nat, j: nat)
    requires Run(states, actions) && i <= j < |states|
    requires forall k | i <= k <= j :: ControllerBlocked(states[k])
    ensures WorkSteps(actions[i..j]) + Rank(states[j].worker) <= Rank(states[i].worker) <= 13
  {
    if i < j {
      WaitsEnd(states, actions, i, j - 1);
      RunInv(states, actions, j - 1);
      assert StepAt(states, actions, j - 1);
      BlockedStep(states[j - 1], actions[j - 1], states[j]);
      WorkStepsSnoc(actions, i, j);
    }
  }

  // ---------------------------------------------------------------- waits that never end

  ghost predicate StepFor(states: nat -> State, actions: nat -> Action, i: nat) {
    Step(states(i), actions(i), states(i + 1))
  }

  /** A run that goes on for ever. */
  ghost predicate EndlessRun(states: nat -> State, actions: nat -> Action) {
    Init(states(0)) && forall i: nat :: StepFor(states, actions, i)
  }

  predicate WorkerMoves(a: Action) { a.Work? || a.VainRead? }

  ghost predicate WorkerMovesAfter(actions: nat -> Action, i: nat) {
    exists j: nat :: i <= j && WorkerMoves(actions(j))
  }

  /** The worker thread gets to run again and again. */
  ghost predicate WorkerRuns(actions: nat -> Action) {
    forall i: nat :: WorkerMovesAfter(actions, i)
  }

  ghost predicate BlockedFrom(states: nat -> State, i: nat) {
    forall j: nat | i <= j :: ControllerBlocked(states(j))
  }

  /** In a stop, or the stop a shutdown begins with, the worker reads a header in vain. */
  ghost predicate ReadsInVain(s: State, a: Action) {
    s.ctl.StopWait? && s.worker == Reading && !a.Work?
  }

  /** The controller has been waiting since `i`; from `k` on the worker does nothing but read in vain. */
  ghost predicate StuckReading(states: nat -> State, actions: nat -> Action, i: nat, k: nat) {
    && i <= k && (forall j: nat | i <= j <= k :: ControllerBlocked(states(j)))
    && (forall j: nat | k <= j :: ReadsInVain(states(j), actions(j)))
  }

  lemma {:induction false} EndlessInv(states: nat -> State, actions: nat -> Action, i: nat)
    requires EndlessRun(states, actions)
    ensures Inv(states(i))
  {
    if i > 0 {
      EndlessInv(states, actions, i - 1);
      assert StepFor(states, actions, i - 1);
      StepInv(states(i - 1), actions(i - 1), states(i));
    }
  }

  /** After some point of a wait without end the worker takes no step but empty reads. */
  lemma {:induction false} WorkDriesUp(states: nat -> State, actions: nat -> Action, i: nat) returns (k: nat)
    requires EndlessRun(states, actions) && BlockedFrom(states, i)
    ensures i <= k && forall j: nat | k <= j :: !actions(j).Work?
    decreases Rank(states(i).worker)
  {
    if j: nat :| i <= j && actions(j).Work? {
      RankFalls(states, actions, i, j);
      EndlessInv(states, actions, j);
      assert StepFor(states, actions, j);
      assert ControllerBlocked(states(j)) && ControllerBlocked(states(j + 1));
      BlockedStep(states(j), actions(j), states(j + 1));
      k := WorkDriesUp(states, actions, j + 1);
    } else {
      k := i;
    }
  }

  lemma {:induction false} RankFalls(states: nat -> State, actions: nat -> Action, i: nat, j: nat)
    requires EndlessRun(states, actions) && BlockedFrom(states, i) && i <= j
    ensures Rank(states(j).worker) <= Rank(states(i).worker)
    decreases j - i
  {
    if i < j {
      EndlessInv(states, actions, i);
      assert StepFor(states, actions, i);
      assert ControllerBlocked(states(i)) && ControllerBlocked(states(i + 1));
      BlockedStep(states(i), actions(i), states(i + 1));
      RankFalls(states, actions, i + 1, j);
    }
  }

  lemma IdleWorkerStays(s: State, a: Action, s': State)
    requires Step(s, a, s') && !a.Work?
    ensures s'.worker == s.worker
  {
  }

  lemma {:induction false} WorkerStays(states: nat -> State, actions: nat -> Action, k: nat, j: nat)
    requires EndlessRun(states, actions) && k <= j && forall x: nat | k <= x :: !actions(x).Work?
    ensures states(j).worker == states(k).worker
    decreases j - k
  {
    if k < j {
      assert StepFor(states, actions, k);
      IdleWorkerStays(states(k), actions(k), states(k + 1));
      WorkerStays(states, actions, k + 1, j);
    }
  }

  lemma ReadingKeepsBlocked(s: State, a: Action, s': State)
    requires Inv(s) && Step(s, a, s') && ControllerBlocked(s) && !a.Work?
    ensures ControllerBlocked(s')
  {
  }

  lemma {:induction false} StuckStaysBlocked(states: nat -> State, actions: nat -> Action, k: nat, j: nat)
    requires EndlessRun(states, actions) && ControllerBlocked(states(k)) && k <= j
    requires forall x: nat | k <= x :: !actions(x).Work?
    ensures ControllerBlocked(states(j))
    decreases j - k
  {
    if k < j {
      EndlessInv(states, actions, k);
      assert StepFor(states, actions, k);
      ReadingKeepsBlocked(states(k), actions(k), states(k + 1));
      StuckStaysBlocked(states, actions, k + 1, j);
    }
  }

  lemma ReadingInStop(s: State)
    requires Inv(s) && ControllerBlocked(s) && s.worker == Reading
    ensures s.ctl.StopWait?
  {
  }

  /**
   * While the worker thread keeps running, a wait of the controller never ends
   * exactly when the worker gets stuck reading a header that never comes, and
   * then it is the wait of a stop, or of the stop that a shutdown begins with.
   */
  lemma WaitsForeverExactly(states: nat -> State, actions: nat -> Action, i: nat)
    requires EndlessRun(states, actions) && WorkerRuns(actions)
    ensures BlockedFrom(states, i) <==> exists k: nat :: StuckReading(states, actions, i, k)
  {
    if BlockedFrom(states, i) {
      var dry := WorkDriesUp(states, actions, i);
      assert WorkerMovesAfter(actions, dry);
      var k: nat :| dry <= k && WorkerMoves(actions(k));
      assert StepFor(states, actions, k);
      forall j: nat | k <= j
        ensures ReadsInVain(states(j), actions(j))
      {
        WorkerStays(states, actions, k, j);
        EndlessInv(states, actions, j);
        assert ControllerBlocked(states(j));
        ReadingInStop(states(j));
      }
      assert StuckReading(states, actions, i, k);
    }
    if k: nat :| StuckReading(states, actions, i, k) {
      forall j: nat | k <= j
        ensures !actions(j).Work?
      {
        assert ReadsInVain(states(j), actions(j));
      }
      forall j: nat | i <= j
        ensures ControllerBlocked(states(j))
      {
        if k < j {
          StuckStaysBlocked(states, actions, k, j);
        }
      }
    }
  }

  lemma BlockedKeepsPlace(s: State, a: Action, s': State)
    requires Step(s, a, s') && ControllerBlocked(s)
    ensures s'.ctl == s.ctl
  {
  }

  lemma {:induction false} WaitKeepsPlace(states: nat -> State, actions: nat -> Action, i: nat, j: nat)
    requires EndlessRun(states, actions) && BlockedFrom(states, i) && i <= j
    ensures states(j).ctl == states(i).ctl
    decreases j - i
  {
    if i < j {
      assert StepFor(states, actions, i);
      assert ControllerBlocked(states(i));
      BlockedKeepsPlace(states(i), actions(i), states(i + 1));
      WaitKeepsPlace(states, actions, i + 1, j);
    }
  }

  /** Only the wait of a stop can go on for ever while the worker thread keeps running. */
  lemma EndlessWaitIsStop(states: nat -> State, actions: nat -> Action, i: nat)
    requires EndlessRun(states, actions) && WorkerRuns(actions) && BlockedFrom(states, i)
    ensures states(i).ctl.StopWait?
  {
    WaitsForeverExactly(states, actions, i);
    var k: nat :| StuckReading(states, actions, i, k);
    assert ReadsInVain(states(k), actions(k));
    WaitKeepsPlace(states, actions, i, k);
  }

  /** So the waits for the start event and for the shutdown event always end. */
  lemma OtherWaitsEnd(states: nat -> State, actions: nat -> Action, i: nat)
    requires EndlessRun(states, actions) && WorkerRuns(actions)
    requires states(i).ctl.StartWait? || states(i).ctl.ShutWait?
    ensures exists j: nat :: i <= j && !ControllerBlocked(states(j))
  {
    if BlockedFrom(states, i) {
      EndlessWaitIsStop(states, actions, i);
    }
  }

  /** A state of a server that has seen no session. */
  function Plain(ctl: Controller, worker: Worker, status: Status, trigger: bool, started: bool, stopped: bool,
    listening: bool): State
  {
    State(ctl, worker, status, false, trigger, started, stopped, false, listening,
          Sessions(0, {}, {}, {}, multiset{}, multiset{}))
  }

  /** The server is started, a client connects and sends nothing, and then a stop is asked for. */
  function SilentClient(k: nat): State {
    if k == 0 then Plain(Idle, Top, Initted, false, false, false, false)
    else if k == 1 then Plain(Decide(Start, Initted), Top, Initted, false, false, false, false)
    else if k == 2 then Plain(StartReset, Top, Initted, false, false, false, false)
    else if k == 3 then Plain(StartSignal, Top, Initted, false, false, false, false)
    else if k == 4 then Plain(StartWait, Top, Initted, true, false, false, false)
    else if k == 5 then Plain(StartWait, SignalStopped, Stopped, true, false, false, false)
    else if k == 6 then Plain(StartWait, TriggerWait, Stopped, true, false, true, false)
    else if k == 7 then Plain(StartWait, CheckShutdown, Stopped, true, false, true, false)
    else if k == 8 then Plain(StartWait, Listen, Stopped, true, false, true, false)
    else if k == 9 then Plain(StartWait, SetStarted, Stopped, true, false, true, true)
    else if k == 10 then Plain(StartWait, SignalStarted, Started, true, false, true, true)
    else if k == 11 then Plain(StartWait, Accept, Started, true, true, true, true)
    else if k == 12 then Plain(Idle, Accept, Started, true, true, true, true)
    else if k == 13 then Plain(Idle, Reading, Started, true, true, true, true)
    else if k == 14 then Plain(Decide(Stop, Started), Reading, Started, true, true, true, true)
    else if k == 15 then Plain(StopReset(Stop), Reading, Started, true, true, true, true)
    else if k == 16 then Plain(StopResetTrigger(Stop), Reading, Started, true, true, false, true)
    else if k == 17 then Plain(StopSetPending(Stop), Reading, Started, false, true, false, true)
    else if k == 18 then Plain(StopClose(Stop), Reading, StopPending, false, true, false, true)
    else Plain(StopWait(Stop), Reading, StopPending, false, true, false, false)
  }

  const STOP_WAITS := 19

  function SilentAction(k: nat): Action {
    if k == 0 then Call(Start)
    else if k == 13 then Call(Stop)
    else if 4 <= k <= 10 || k == 12 then Work(true)
    else if k < STOP_WAITS then Advance
    else VainRead
  }

  lemma SilentControl(k: nat)
    requires k < 4 || k == 11
    ensures Step(SilentClient(k), SilentAction(k), SilentClient(k + 1))
  {
    hide StoppingDown, ShuttingDown, Worked;
  }

  lemma SilentWork(k: nat)
    requires 4 <= k < 11
    ensures Step(SilentClient(k), SilentAction(k), SilentClient(k + 1))
  {
    hide Advanced, Served;
  }

  lemma SilentStop(k: nat)
    requires k >= 12
    ensures Step(SilentClient(k), SilentAction(k), SilentClient(k + 1))
  {
    hide StartingUp, ShuttingDown, Cycled;
  }

  lemma SilentStep(k: nat)
    ensures Step(SilentClient(k), SilentAction(k), SilentClient(k + 1))
  {
    hide Step, SilentClient, SilentAction;
    if 4 <= k < 11 {
      SilentWork(k);
    } else if k < 12 {
      SilentControl(k);
    } else {
      SilentStop(k);
    }
  }

  /** A stop waits through any number of empty reads of a client that sends nothing. */
  lemma StopWaitsOut(n: nat)
    ensures exists states: seq<State>, actions: seq<Action> ::
      && Run(states, actions) && |actions| == STOP_WAITS + n
      && (forall k | STOP_WAITS <= k <= STOP_WAITS + n :: states[k].ctl == StopWait(Stop) && !states[k].stopped)
      && (forall k | STOP_WAITS <= k < STOP_WAITS + n :: actions[k] == VainRead)
  {
    var states := seq(STOP_WAITS + n + 1, (k: nat) => SilentClient(k));
    var actions := seq(STOP_WAITS + n, (k: nat) => SilentAction(k));
    forall i | 0 <= i < |actions|
      ensures StepAt(states, actions, i)
    {
      SilentStep(i);
    }
    assert states[0] == SilentClient(0);
    assert Run(states, actions);
  }

  /** ... and, since the client may stay silent, for ever. */
  lemma StopMayWaitForever()
    ensures exists states: nat -> State, actions: nat -> Action ::
      EndlessRun(states, actions) && WorkerRuns(actions) &&
      states(STOP_WAITS).ctl == StopWait(Stop) && BlockedFrom(states, STOP_WAITS)
  {
    forall i: nat
      ensures StepFor(SilentClient, SilentAction, i)
    {
      SilentStep(i);
    }
    forall i: nat
      ensures WorkerMovesAfter(SilentAction, i)
    {
      assert WorkerMoves(SilentAction(i + STOP_WAITS));
    }
    assert EndlessRun(SilentClient, SilentAction) && BlockedFrom(SilentClient, STOP_WAITS);
  }

  // ---------------------------------------------------------------- what control promises

  /** A stop that finds the server started and returns leaves the worker out of processRequest, status Stopped. */
  lemma StopReturns(s: State)
    requires Inv(s) && s.ctl == StopWait(Stop) && CanAdvance(s)
    ensures Advanced(s).ctl == Idle && Halted(Advanced(s))
  {
  }

  /** ... and it stays that way until the next control, whatever else happens. */
  lemma {:induction false} StopLasts(states: seq<State>, actions: seq<Action>, i: nat, j: nat)
    requires Run(states, actions) && i < j < |states|
    requires states[i].ctl == StopWait(Stop) && actions[i] == Advance
    requires forall k | i < k < j :: !actions[k].Call?
    ensures states[j].ctl == Idle && Halted(states[j])
  {
    if j == i + 1 {
      RunInv(states, actions, i);
      assert StepAt(states, actions, i);
      StopReturns(states[i]);
    } else {
      StopLasts(states, actions, i, j - 1);
      assert StepAt(states, actions, j - 1);
    }
  }

  /** A start that returns leaves the server serving, or, when listening failed, on its way out. */
  lemma StartReturns(s: State)
    requires Inv(s) && s.ctl == StartWait && CanAdvance(s)
    ensures Running(Advanced(s)) <==> Advanced(s).status == Started
    ensures Failed(Advanced(s)) <==> Advanced(s).status == Error || Advanced(s).status == ShutDown
    ensures Running(Advanced(s)) || Failed(Advanced(s))
  {
  }

  lemma {:induction false} ShutdownAbsorbs(states: seq<State>, actions: seq<Action>, i: nat, j: nat)
    requires Run(states, actions) && i <= j < |states| && states[i].status == ShutDown
    ensures states[j].status == ShutDown
  {
    if i < j {
      ShutdownAbsorbs(states, actions, i, j - 1);
      assert StepAt(states, actions, j - 1);
    }
  }

  // ---------------------------------------------------------------- sessions

  ghost function Claims(t: Sessions, id: nat): nat {
    t.responded[id] + t.aborted[id]
  }

  /** Every added session is pending, or claimed exactly once; nothing else is either. */
  ghost predicate Accounted(t: Sessions) {
    && (forall id | id in t.added :: id < t.nextId)
    && t.queued <= t.added && t.pending <= t.added
    && (forall id :: Claims(t, id) == if id in t.added && id !in t.pending then 1 else 0)
    && (forall id | id in t.responded :: id in t.queued)
  }

  ghost predicate SessionInv(s: State) {
    && Accounted(s.table)
    && (s.worker.AddPost? ==> s.worker.id < s.table.nextId && s.worker.id !in s.table.added)
    && (s.worker.Queue? ==> s.worker.id in s.table.pending && s.worker.id !in s.table.queued)
    && (s.worker != Done ==> s.table.aborted == multiset{})
  }

  lemma TakeAccounted(t: Sessions)
    requires Accounted(t)
    ensures Accounted(t.Take())
  {
    assert forall x :: Claims(t.Take(), x) == Claims(t, x);
  }

  lemma AddAccounted(t: Sessions, id: nat)
    requires Accounted(t) && id < t.nextId && id !in t.added
    ensures Accounted(t.Add(id))
  {
    assert forall x :: Claims(t.Add(id), x) == Claims(t, x);
  }

  lemma QueueAccounted(t: Sessions, id: nat)
    requires Accounted(t) && id in t.added
    ensures Accounted(t.Queue(id))
  {
    assert forall x :: Claims(t.Queue(id), x) == Claims(t, x);
  }

  lemma RespondAccounted(t: Sessions, id: nat)
    requires Accounted(t) && id in t.queued
    ensures Accounted(t.Respond(id)) && id !in t.Respond(id).pending && Claims(t.Respond(id), id) == 1
    ensures t.Respond(id).aborted == t.aborted
  {
    assert forall x :: Claims(t.Respond(id), x) == Claims(t, x) + if x == id && id in t.pending then 1 else 0;
  }

  lemma AbortAccounted(t: Sessions)
    requires Accounted(t)
    ensures Accounted(t.AbortAll())
  {
    assert forall x :: Claims(t.AbortAll(), x) == Claims(t, x) + if x in t.pending then 1 else 0;
  }

  lemma ServedTouches(s: State, ok: bool)
    requires Serving(s.worker)
    ensures var s' := Served(s, ok);
      && (s.worker == TakeId ==> s'.worker == AddPost(s.table.nextId) && s'.table == s.table.Take())
      && (s.worker.AddPost? ==> s'.worker == Queue(s.worker.id) && s'.table == s.table.Add(s.worker.id))
      && (s.worker.Queue? ==> s'.worker == Accept && s'.table == s.table.Queue(s.worker.id))
      && (s.worker != TakeId && !s.worker.AddPost? && !s.worker.Queue? ==>
          s'.table == s.table && !s'.worker.AddPost? && !s'.worker.Queue?)
  {
    hide Sessions.Take, Sessions.Add, Sessions.Queue;
  }

  lemma WorkTouches(s: State, ok: bool)
    requires CanWork(s)
    ensures var s' := Worked(s, ok);
      && s.worker != Done
      && (s.worker == TakeId ==> s'.worker == AddPost(s.table.nextId) && s'.table == s.table.Take())
      && (s.worker.AddPost? ==> s'.worker == Queue(s.worker.id) && s'.table == s.table.Add(s.worker.id))
      && (s.worker.Queue? ==> s'.worker == Accept && s'.table == s.table.Queue(s.worker.id))
      && (s.worker != TakeId && !s.worker.AddPost? && !s.worker.Queue? ==>
          s'.table == s.table && !s'.worker.AddPost? && !s'.worker.Queue?)
  {
    hide Served, Cycled, Sessions.Take, Sessions.Add, Sessions.Queue;
    if Serving(s.worker) {
      ServedTouches(s, ok);
    }
  }

  lemma WorkSessions(s: State, ok: bool)
    requires SessionInv(s) && CanWork(s)
    ensures SessionInv(Worked(s, ok))
  {
    WorkTouches(s, ok);
    match s.worker
    case TakeId => { TakeAccounted(s.table); }
    case AddPost(id) => { AddAccounted(s.table, id); }
    case Queue(id) => { QueueAccounted(s.table, id); }
    case _ => {}
  }

  lemma AdvanceSessions(s: State)
    requires Inv(s) && SessionInv(s) && CanAdvance(s)
    ensures SessionInv(Advanced(s))
  {
    AbortAccounted(s.table);
  }

  lemma StepSessions(s: State, a: Action, s': State)
    requires Inv(s) && SessionInv(s) && Step(s, a, s')
    ensures SessionInv(s')
  {
    hide Inv, Accounted, Advanced, Worked;
    match a
    case Advance => { AdvanceSessions(s); }
    case Respond(id) => { RespondAccounted(s.table, id); }
    case Work(ok) => { WorkSessions(s, ok); }
    case OtherServer => { TakeAccounted(s.table); }
    case Call(_) => {}
    case VainRead => {}
  }

  lemma {:induction false} RunSessions(states: seq<State>, actions: seq<Action>, i: nat)
    requires Run(states, actions) && i < |states|
    ensures SessionInv(states[i])
  {
    if i > 0 {
      RunSessions(states, actions, i - 1);
      RunInv(states, actions, i - 1);
      assert StepAt(states, actions, i - 1);
      StepSessions(states[i - 1], actions[i - 1], states[i]);
    }
  }

  /** An id handed to queueMessage is pending at that moment, and was handed over before to nobody. */
  lemma QueuedIsPending(states: seq<State>, actions: seq<Action>, i: nat)
    requires Run(states, actions) && i < |states| && states[i].worker.Queue?
    ensures states[i].worker.id in states[i].table.pending && states[i].worker.id !in states[i].table.queued
  {
    RunSessions(states, actions, i);
  }

  /** No session is ever claimed twice, by responders or by shutdown, and none that was never added. */
  lemma ClaimedAtMostOnce(states: seq<State>, actions: seq<Action>, i: nat, id: nat)
    requires Run(states, actions) && i < |states|
    ensures var t := states[i].table;
      Claims(t, id) + (if id in t.pending then 1 else 0) == if id in t.added then 1 else 0
  {
    RunSessions(states, actions, i);
    assert Claims(states[i].table, id) <= 1;
  }

  // ---------------------------------------------------------------- a whole control

  /** Where a control that found the status `seen` may be until it returns. */
  predicate InCall(c: Control, seen: Status, at: Controller) {
    || at == Decide(c, seen)
    || (seen != ShutDown && seen != Error &&
        match c
        case Start => seen != Started && InStart(at)
        case Stop => seen == Started && InStop(at) && at.ctl == Stop
        case Shutdown => (seen == Started && InStop(at) && at.ctl == Shutdown) || InShutdown(at))
  }

  /** The worker is gone and nothing is pending. */
  predicate Settled(s: State) {
    s.worker == Done && s.table.pending == {}
  }

  /** What a control has brought about when it returns. */
  predicate Achieved(c: Control, seen: Status, s: State) {
    if seen == ShutDown || seen == Error then s.status == ShutDown || s.status == Error
    else match c
      case Start => Running(s) || Failed(s)
      case Stop => if seen == Started then Halted(s) else Parked(s)
      case Shutdown => Settled(s) && s.status == ShutDown
  }

  /** The next step of a control keeps it on its way, or ends it with its work done. */
  predicate GoesOn(c: Control, seen: Status, s: State) {
    if s.ctl == Idle then Achieved(c, seen, s) else InCall(c, seen, s.ctl)
  }

  lemma DecideGoesOn(s: State)
    requires Inv(s) && s.ctl.Decide?
    ensures GoesOn(s.ctl.ctl, s.ctl.seen, Advanced(s))
  {
    hide Halted, Serving, StartingUp, StoppingDown, ShuttingDown;
  }

  lemma StartGoesOn(s: State, seen: Status)
    requires Inv(s) && CanAdvance(s) && InStart(s.ctl) && seen != ShutDown && seen != Error && seen != Started
    ensures GoesOn(Start, seen, Advanced(s))
  {
    hide Parked, Launching, Closing, Stopping, Halted, Serving, StoppingDown, ShuttingDown;
    if s.ctl.StartWait? {
      StartReturns(s);
    }
  }

  lemma StopGoesOn(s: State, c: Control)
    requires Inv(s) && CanAdvance(s) && InStop(s.ctl) && s.ctl.ctl == c && c != Start
    ensures GoesOn(c, Started, Advanced(s))
  {
    hide Inv, Parked, Launching, Closing, Stopping, Serving, StartingUp, ShuttingDown;
    if s.ctl == StopWait(Stop) {
      StopReturns(s);
    }
  }

  lemma ShutGoesOn(s: State, seen: Status)
    requires Inv(s) && CanAdvance(s) && InShutdown(s.ctl) && seen != ShutDown && seen != Error
    ensures GoesOn(Shutdown, seen, Advanced(s))
  {
    hide Inv, Advanced, CanAdvance, Running, Failed, Parked, Halted, InStop, InStart;
    ShutAdvances(s);
    if s.ctl.ShutAbort? {
      AbortFindsGone(s);
    }
  }

  lemma ShutAdvances(s: State)
    requires CanAdvance(s) && InShutdown(s.ctl)
    ensures var s' := Advanced(s);
      if s.ctl.ShutAbort? then s'.ctl == Idle && s'.status == s.status && s'.table.pending == {} else InShutdown(s'.ctl)
  {
    hide StartingUp, StoppingDown;
  }

  lemma AbortFindsGone(s: State)
    requires Inv(s) && s.ctl.ShutAbort?
    ensures Gone(s)
  {
  }

  lemma AdvanceInCall(s: State, c: Control, seen: Status)
    requires Inv(s) && CanAdvance(s) && InCall(c, seen, s.ctl)
    ensures GoesOn(c, seen, Advanced(s))
  {
    hide Inv, GoesOn, Advanced, CanAdvance;
    if s.ctl.Decide? {
      DecideGoesOn(s);
    } else if InStart(s.ctl) {
      StartGoesOn(s, seen);
    } else if InStop(s.ctl) {
      StopGoesOn(s, c);
    } else {
      ShutGoesOn(s, seen);
    }
  }

  /** The control called at step `i` returns at `j`. */
  ghost predicate Returns(states: seq<State>, actions: seq<Action>, i: nat, j: nat, c: Control) {
    && Run(states, actions) && i + 1 < j < |states| && actions[i] == Call(c)
    && (forall k | i < k < j :: states[k].ctl != Idle) && states[j].ctl == Idle
  }

  lemma {:induction false} StaysInCall(states: seq<State>, actions: seq<Action>, i: nat, k: nat, c: Control)
    requires Run(states, actions) && i < k < |states| && actions[i] == Call(c)
    requires forall l | i < l <= k :: states[l].ctl != Idle
    ensures InCall(c, states[i].status, states[k].ctl)
  {
    assert StepAt(states, actions, k - 1);
    if k > i + 1 {
      StaysInCall(states, actions, i, k - 1, c);
      RunInv(states, actions, k - 1);
      NextInCall(states[k - 1], actions[k - 1], states[k], c, states[i].status);
    }
  }

  lemma NextInCall(s: State, a: Action, s': State, c: Control, seen: Status)
    requires Inv(s) && Step(s, a, s') && s.ctl != Idle && InCall(c, seen, s.ctl)
    ensures GoesOn(c, seen, s')
  {
    hide Inv, InCall, Achieved, Advanced;
    if a.Advance? {
      AdvanceInCall(s, c, seen);
    }
  }

  /**
   * Every control that returns has done its work, whatever worker, responders
   * and clients did meanwhile: a start has the worker serving or on its way
   * out, a stop of a started server has it at the trigger, and a shutdown has
   * it gone with nothing pending.
   */
  lemma ControlAchieves(states: seq<State>, actions: seq<Action>, i: nat, j: nat, c: Control)
    requires Returns(states, actions, i, j, c)
    ensures Achieved(c, states[i].status, states[j])
  {
    hide Achieved, InCall, Inv;
    StaysInCall(states, actions, i, j - 1, c);
    RunInv(states, actions, j - 1);
    assert StepAt(states, actions, j - 1);
    NextInCall(states[j - 1], actions[j - 1], states[j], c, states[i].status);
  }

  lemma SettledStep(s: State, a: Action, s': State)
    requires Step(s, a, s') && Settled(s)
    ensures Settled(s')
  {
  }

  lemma {:induction false} StaysSettled(states: seq<State>, actions: seq<Action>, i: nat, j: nat)
    requires Run(states, actions) && i <= j < |states| && Settled(states[i])
    ensures Settled(states[j])
  {
    if i < j {
      StaysSettled(states, actions, i, j - 1);
      assert StepAt(states, actions, j - 1);
      SettledStep(states[j - 1], actions[j - 1], states[j]);
    }
  }

  /**
   * A shutdown that found the server neither shut down nor in error leaves it,
   * once it returns and for good, shut down, its worker gone, the table empty
   * and every session ever added claimed exactly once.
   */
  lemma ShutdownSettles(states: seq<State>, actions: seq<Action>, i: nat, j: nat, k: nat, id: nat)
    requires Returns(states, actions, i, j, Shutdown) && j <= k < |states|
    requires states[i].status != ShutDown && states[i].status != Error
    ensures states[k].worker == Done && states[k].status == ShutDown && states[k].table.pending == {}
    ensures Claims(states[k].table, id) == if id in states[k].table.added then 1 else 0
  {
    ControlAchieves(states, actions, i, j, Shutdown);
    StaysSettled(states, actions, j, k);
    ShutdownAbsorbs(states, actions, j, k);
    ClaimedAtMostOnce(states, actions, k, id);
  }

  // ---------------------------------------------------------------- a whole request

  /** A request being taken in: what has been done for it since `start`, when its header was read. */
  predicate TakingIn(start: Sessions, s: State) {
    match s.worker
    case TakeId => s.table.added == start.added && s.table.queued == start.queued
    case AddPost(id) => id !in start.added && s.table.added == start.added && s.table.queued == start.queued
    case Queue(id) => id !in start.added && s.table.added == start.added + {id} && s.table.queued == start.queued
    case _ => false
  }

  /** One new session has been added and handed to a responder. */
  ghost predicate TakenIn(start: Sessions, s: State) {
    exists id :: id !in start.added && s.table.added == start.added + {id} && s.table.queued == start.queued + {id}
  }

  lemma StepTakesIn(start: Sessions, s: State, a: Action, s': State)
    requires Step(s, a, s') && TakingIn(start, s) && SessionInv(s)
    ensures TakingIn(start, s') || (s'.worker == Accept && TakenIn(start, s'))
  {
    hide Accounted, Worked, Advanced;
    NextIsFresh(s.table);
    if a.Work? {
      WorkTouches(s, a.ok);
      if s.worker.Queue? {
        assert s.worker.id !in start.added;
      }
    }
  }

  lemma NextIsFresh(t: Sessions)
    requires Accounted(t)
    ensures t.nextId !in t.added
  {
  }

  /** A header read at `i` has, when the worker accepts again, become one new session that a responder was given. */
  lemma {:induction false} ReadIsQueued(states: seq<State>, actions: seq<Action>, i: nat, j: nat)
    requires Run(states, actions) && i < j < |states| && states[i].worker == Reading && actions[i] == Work(true)
    requires forall k | i < k < j :: states[k].worker != Accept
    ensures var start := states[i].table;
      if states[j].worker == Accept then TakenIn(start, states[j]) else TakingIn(start, states[j])
  {
    assert StepAt(states, actions, j - 1);
    if j > i + 1 {
      ReadIsQueued(states, actions, i, j - 1);
      RunSessions(states, actions, j - 1);
      StepTakesIn(states[i].table, states[j - 1], actions[j - 1], states[j]);
    }
  }

  function Count(b: bool): nat { if b then 1 else 0 }

  /** How many of the first `i` steps read a request's header. */
  function HeadersRead(states: seq<State>, actions: seq<Action>, i: nat): nat
    requires i <= |actions| && |states| == |actions| + 1
  {
    if i == 0 then 0
    else HeadersRead(states, actions, i - 1) + Count(states[i - 1].worker == Reading && actions[i - 1] == Work(true))
  }

  /** Read, and not yet in the table. */
  predicate NotYetAdded(w: Worker) { w == TakeId || w.AddPost? }

  lemma ReadingGoesOn(s: State, ok: bool)
    requires CanWork(s)
    ensures Worked(s, ok).worker == TakeId <==> s.worker == Reading && ok
  {
    hide Cycled;
  }

  lemma StepAddsRead(s: State, a: Action, s': State)
    requires Step(s, a, s') && SessionInv(s)
    ensures |s'.table.added| + Count(NotYetAdded(s'.worker))
      == |s.table.added| + Count(NotYetAdded(s.worker)) + Count(s.worker == Reading && a == Work(true))
    ensures |s'.table.queued| + Count(s'.worker.Queue?) + |s.table.added|
      == |s.table.queued| + Count(s.worker.Queue?) + |s'.table.added|
  {
    hide Accounted, Worked, Advanced;
    if a.Work? {
      WorkTouches(s, a.ok);
      ReadingGoesOn(s, a.ok);
    }
  }

  /** Every header read, and nothing else, becomes a session of its own, and every session is given to a responder. */
  lemma {:induction false} RunAddsRead(states: seq<State>, actions: seq<Action>, i: nat)
    requires Run(states, actions) && i < |states|
    ensures var s := states[i];
      && |s.table.added| + Count(NotYetAdded(s.worker)) == HeadersRead(states, actions, i)
      && |s.table.queued| + Count(s.worker.Queue?) == |s.table.added|
  {
    hide SessionInv, Step;
    if i > 0 {
      hide NotYetAdded, Init;
      RunAddsRead(states, actions, i - 1);
      RunSessions(states, actions, i - 1);
      assert StepAt(states, actions, i - 1);
      StepAddsRead(states[i - 1], actions[i - 1], states[i]);
    }
  }
}
