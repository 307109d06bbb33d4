/**
 The local PTY worker: a caller, a worker and a reader thread that share a bounded
 command queue, a coalesced resize slot, a shutdown flag and a bounded event channel.
 Every step below is one access to that shared state.
 */
module LocalPty {
  import opened Common

  const COMMAND_CAPACITY: nat := 32
  const EVENT_CAPACITY: nat := 32

  datatype Size = Size(columns: nat, rows: nat, pixelWidth: nat, pixelHeight: nat)

  datatype Command = Send(data: seq<byte>) | Wake | ReaderClosed

  datatype Event =
    | Started
    | Resized(columns: nat, rows: nat)
    | Output(data: seq<byte>)
    | Exited(status: string)
    | Failed(message: string)
  {
    predicate IsTerminal() {
      Exited? || Failed?
    }
  }

  /** A resize call holds the lock on `requested` from its first step to its last. */
  datatype Caller = Idle | Asked(size: Size) | Posted

  /** How the worker loop ended. */
  datatype Outcome = ChildEnded(status: string) | Stopped | Broken(message: string)

  /** Where the worker is. `checked`: the flag was seen down, the channel is tried next. */
  datatype Worker =
    | Launching
    | Starting(checked: bool)
    | LoopTop
    | Taking
    | Resizing(size: Size)
    | Reporting(size: Size, checked: bool)
    | Polling
    | Receiving
    | Writing(data: seq<byte>)
    | Joining(outcome: Outcome)
    | Ending(event: Event, checked: bool)
    | Gone
  {
    /** In the loop, past the point where the flag was seen down. */
    predicate PastFlag() {
      Taking? || PastTake()
    }

    /** In the loop, past the point where the pending size was taken. */
    predicate PastTake() {
      Resizing? || Reporting? || Polling? || Receiving?
    }

    predicate InLoop() {
      LoopTop? || PastFlag() || Writing?
    }

    predicate IsSending() {
      Starting? || Reporting? || Ending?
    }

    function Event(): Event
      requires IsSending()
    {
      match this
      case Starting(_) => Started
      case Reporting(size, _) => Resized(size.columns, size.rows)
      case Ending(event, _) => event
    }

    /** Where a send leads, done or cancelled: only the first one has to get through. */
    function After(sent: bool): Worker
      requires IsSending()
    {
      match this
      case Starting(_) => if sent then LoopTop else Joining(Broken("local shell event receiver closed during startup"))
      case Reporting(_, _) => Polling
      case Ending(_, _) => Gone
    }
  }

  datatype Reader =
    | NotStarted
    | Reading
    | Forwarding(data: seq<byte>, checked: bool)
    | Complaining(message: string, checked: bool)
    | Raising
    | Waking
    | Left(panicked: bool)
  {
    predicate IsSending() {
      Forwarding? || Complaining?
    }

    function Event(): Event
      requires IsSending()
    {
      if Forwarding? then Output(data) else Failed(message)
    }

    /** Output that cannot be sent ends the reader; a failure goes on to raise the flag. */
    function After(sent: bool): Reader
      requires IsSending()
    {
      if Complaining? then Raising else if sent then Reading else Left(false)
    }
  }

  datatype Thread = ByWorker | ByReader

  /** `delivered`: every event sent so far; `senders`: the thread that sent each; `taken`: how many were received. */
  datatype State = State(
    caller: Caller, requested: Size, pending: Option<Size>, commands: seq<Command>,
    shutdown: bool, wakesOwed: nat, handleDropped: bool,
    worker: Worker, applied: Size, reader: Reader,
    delivered: seq<Event>, senders: seq<Thread>, taken: nat, closed: bool)

  function Initial(size: Size): State {
    State(Idle, size, None, [], false, 0, false, Launching, size, NotStarted, [], [], 0, false)
  }

  // ----- Shared primitives -----

  /** Queue a command unless the queue is full or its receiver is gone; then it is dropped. */
  function TryQueue(s: State, c: Command): State {
    if s.worker == Gone || |s.commands| >= COMMAND_CAPACITY then s else s.(commands := s.commands + [c])
  }

  datatype Attempt = Cancelled | FlagDown | Full | Delivered

  /** One half-round of a cancellable send: look at the flag, or try the channel. */
  function TryDeliver(s: State, checked: bool): Attempt {
    if !checked then (if s.shutdown then Cancelled else FlagDown)
    else if s.closed then Cancelled
    else if |s.delivered| - s.taken >= EVENT_CAPACITY then Full
    else Delivered
  }

  // ----- The worker -----

  /** What the operating system answers the worker. */
  datatype Answer = Fine | Fault(message: string) | ChildExit(status: string) | TimedOut

  predicate WorkerCanStep(s: State, a: Answer) {
    match s.worker
    case Receiving => s.commands != [] || a == TimedOut || (s.handleDropped && s.reader.Left?)
    case Joining(_) => s.reader.Left?
    case Gone => false
    case _ => true
  }

  function WorkerStep(s: State, a: Answer): State
    requires WorkerCanStep(s, a)
  {
    if s.worker.IsSending() then WorkerSends(s) else WorkerMoves(s, a)
  }

  function WorkerSends(s: State): State
    requires s.worker.IsSending()
  {
    match TryDeliver(s, s.worker.checked)
    case Cancelled => s.(worker := s.worker.After(false))
    case FlagDown => s.(worker := s.worker.(checked := true))
    case Full => s.(worker := s.worker.(checked := false))
    case Delivered =>
      s.(delivered := s.delivered + [s.worker.Event()], senders := s.senders + [ByWorker],
         worker := s.worker.After(true))
  }

  function WorkerMoves(s: State, a: Answer): State
    requires WorkerCanStep(s, a) && !s.worker.IsSending()
  {
    match s.worker
    case Launching =>
      if a.Fault? then s.(worker := Ending(Failed(a.message), false))
      else s.(worker := Starting(false), reader := Reading)
    case LoopTop => s.(worker := if s.shutdown then Joining(Stopped) else Taking)
    case Taking =>
      s.(pending := None,
         worker := if s.pending.None? || s.pending.value == s.applied then Polling else Resizing(s.pending.value))
    case Resizing(size) =>
      if a.Fault? then s.(worker := Joining(Broken(a.message)))
      else s.(worker := Reporting(size, false), applied := size)
    case Polling =>
      s.(worker := match a
                   case Fault(m) => Joining(Broken(m))
                   case ChildExit(status) => Joining(ChildEnded(status))
                   case _ => Receiving)
    case Receiving =>
      if s.commands != [] then
        s.(commands := s.commands[1..], worker := if s.commands[0].Send? then Writing(s.commands[0].data) else LoopTop)
      else if a == TimedOut then s.(worker := LoopTop)
      else s.(shutdown := true, worker := LoopTop)
    case Writing(_) => s.(worker := if a.Fault? then Joining(Broken(a.message)) else LoopTop)
    case Joining(outcome) =>
      s.(worker := if s.reader.panicked then Ending(Failed("local PTY reader panicked"), false)
                   else match outcome
                     case Broken(m) => Ending(Failed(m), false)
                     case ChildEnded(status) => Ending(Exited(status), false)
                     case Stopped => Gone)
  }

  // ----- The reader -----

  datatype ReadResult = Data(data: seq<byte>) | Eof | Interrupted | ReadFault(message: string) | Panic

  predicate ReaderCanStep(s: State) {
    !s.reader.NotStarted? && !s.reader.Left?
  }

  function ReaderStep(s: State, r: ReadResult): State
    requires ReaderCanStep(s)
  {
    if s.reader.IsSending() then ReaderSends(s) else ReaderMoves(s, r)
  }

  function ReaderSends(s: State): State
    requires s.reader.IsSending()
  {
    match TryDeliver(s, s.reader.checked)
    case Cancelled => s.(reader := s.reader.After(false))
    case FlagDown => s.(reader := s.reader.(checked := true))
    case Full => s.(reader := s.reader.(checked := false))
    case Delivered =>
      s.(delivered := s.delivered + [s.reader.Event()], senders := s.senders + [ByReader],
         reader := s.reader.After(true))
  }

  function ReaderMoves(s: State, r: ReadResult): State
    requires ReaderCanStep(s) && !s.reader.IsSending()
  {
    match s.reader
    case Reading =>
      (match r
       case Data(data) => s.(reader := Forwarding(data, false))
       case Eof => TryQueue(s, ReaderClosed).(reader := Left(false))
       case Interrupted => s
       case ReadFault(m) => s.(reader := if s.shutdown then Left(false) else Complaining(m, false))
       case Panic => s.(reader := Left(true)))
    case Raising => s.(shutdown := true, reader := Waking)
    case Waking => TryQueue(s, Wake).(reader := Left(false))
  }

  // ----- All steps -----

  datatype Action =
    | CallResize(size: Size)
    | ResizeStep
    | RequestSend(data: seq<byte>)
    | RaiseShutdown(dropping: bool)
    | ShutdownWake
    | TakeEvent
    | CloseEvents
    | WorkerTurn(answer: Answer)
    | ReaderTurn(read: ReadResult)

  predicate Enabled(s: State, a: Action) {
    match a
    case CallResize(_) => s.caller == Idle && !s.handleDropped
    case ResizeStep => s.caller != Idle
    case RequestSend(_) => !s.handleDropped
    case RaiseShutdown(dropping) => !s.handleDropped && (dropping ==> s.caller == Idle)
    case ShutdownWake => s.wakesOwed > 0
    case TakeEvent => s.taken < |s.delivered| && !s.closed
    case CloseEvents => true
    case WorkerTurn(answer) => WorkerCanStep(s, answer)
    case ReaderTurn(_) => ReaderCanStep(s)
  }

  function Next(s: State, a: Action): State
    requires Enabled(s, a)
  {
    match a
    case CallResize(size) => if s.requested == size then s else s.(requested := size, caller := Asked(size))
    case ResizeStep =>
      if s.caller.Asked? then s.(pending := Some(s.caller.size), caller := Posted)
      else TryQueue(s, Wake).(caller := Idle)
    case RequestSend(data) => TryQueue(s, Send(data))
    case RaiseShutdown(dropping) => s.(shutdown := true, wakesOwed := s.wakesOwed + 1, handleDropped := dropping)
    case ShutdownWake => TryQueue(s, Wake).(wakesOwed := s.wakesOwed - 1)
    case TakeEvent => s.(taken := s.taken + 1)
    case CloseEvents => s.(closed := true)
    case WorkerTurn(answer) => WorkerStep(s, answer)
    case ReaderTurn(read) => ReaderStep(s, read)
  }

  /** `s` is reached from `from` by the actions of `run`. */
  predicate Reaches(from: State, run: seq<Action>, s: State)
    decreases |run|
  {
    if run == [] then s == from
    else Enabled(from, run[0]) && Reaches(Next(from, run[0]), run[1..], s)
  }

  // ----- No lost wake-up -----

  /** The size that will be in force once everything under way is done. */
  function Newest(s: State): Size {
    if s.caller.Asked? then s.caller.size
    else if s.pending.Some? then s.pending.value
    else if s.worker.Resizing? then s.worker.size
    else s.applied
  }

  predicate Alive(w: Worker) {
    w == Launching || w.Starting? || w.InLoop()
  }

  /** A posted size, and a raised flag, keep the worker from waiting even if their own wake was dropped. */
  predicate WakeDue(s: State) {
    && |s.commands| <= COMMAND_CAPACITY
    && (s.worker.PastTake() && s.pending.Some? && s.caller != Posted ==> s.commands != [])
    && (s.worker.PastFlag() && s.shutdown && s.wakesOwed == 0 && s.reader != Waking ==> s.commands != [])
  }

  predicate WakeInv(s: State) {
    (Alive(s.worker) ==> s.requested == Newest(s)) && WakeDue(s)
  }

  predicate LeadsTo(w: Worker, next: Worker) {
    && !next.Resizing? && !next.Launching? && (Alive(next) ==> Alive(w))
    && (next.PastTake() ==> w.PastTake()) && (next.PastFlag() ==> w.PastFlag())
  }

  lemma WorkerSendsTouch(s: State)
    requires s.worker.IsSending()
    ensures var t := WorkerSends(s);
      t == s.(delivered := t.delivered, senders := t.senders, worker := t.worker) && LeadsTo(s.worker, t.worker)
  {
    hide TryDeliver, LeadsTo, Worker.After, Worker.Event;
    SendLeads(s.worker, s.worker.After(true));
    SendLeads(s.worker, s.worker.After(false));
    SendLeads(s.worker, s.worker.(checked := true));
    SendLeads(s.worker, s.worker.(checked := false));
  }

  lemma SendLeads(w: Worker, next: Worker)
    requires w.IsSending()
    requires || next == w.After(true) || next == w.After(false)
             || next == w.(checked := true) || next == w.(checked := false)
    ensures LeadsTo(w, next)
  {
  }

  lemma WorkerSendsKeepWakeInv(s: State)
    requires WakeInv(s) && s.worker.IsSending()
    ensures WakeInv(WorkerSends(s))
  {
    hide WorkerSends, Alive, Worker.PastTake, Worker.PastFlag;
    WorkerSendsTouch(s);
  }

  lemma WorkerMovesKeepWakeDue(s: State, a: Answer)
    requires WakeDue(s) && WorkerCanStep(s, a) && !s.worker.IsSending()
    ensures WakeDue(WorkerMoves(s, a))
  {
  }

  lemma WorkerMovesKeepSize(s: State, a: Answer)
    requires Alive(s.worker) && s.requested == Newest(s) && WorkerCanStep(s, a) && !s.worker.IsSending()
    ensures var t := WorkerMoves(s, a); Alive(t.worker) ==> t.requested == Newest(t)
  {
  }

  lemma DeadStaysDead(s: State, a: Answer)
    requires !Alive(s.worker) && WorkerCanStep(s, a) && !s.worker.IsSending()
    ensures !Alive(WorkerMoves(s, a).worker)
  {
  }

  lemma WorkerKeepsWakeInv(s: State, a: Answer)
    requires WakeInv(s) && WorkerCanStep(s, a)
    ensures WakeInv(WorkerStep(s, a))
  {
    hide WorkerMoves, WorkerSends, WakeDue, Alive, Newest;
    if s.worker.IsSending() {
      WorkerSendsKeepWakeInv(s);
    } else {
      WorkerMovesKeepWakeDue(s, a);
      if Alive(s.worker) {
        WorkerMovesKeepSize(s, a);
      } else {
        DeadStaysDead(s, a);
      }
    }
  }

  /** What a reader step can change, and when it leaves a command behind. */
  predicate ReaderTouches(s: State, t: State) {
    && t == s.(commands := t.commands, shutdown := t.shutdown, delivered := t.delivered,
               senders := t.senders, reader := t.reader)
    && (|s.commands| <= COMMAND_CAPACITY ==> |t.commands| <= COMMAND_CAPACITY)
    && (s.commands != [] ==> t.commands != [])
    && (s.reader == Waking && s.worker != Gone ==> t.commands != [])
    && (t.reader != Waking ==> t.shutdown == s.shutdown)
  }

  lemma ReaderSendsTouch(s: State)
    requires s.reader.IsSending()
    ensures ReaderTouches(s, ReaderSends(s))
  {
    hide TryDeliver;
  }

  lemma ReaderMovesTouch(s: State, r: ReadResult)
    requires ReaderCanStep(s) && !s.reader.IsSending()
    ensures ReaderTouches(s, ReaderMoves(s, r))
  {
  }

  lemma TouchKeepsWakeInv(s: State, t: State)
    requires WakeInv(s) && ReaderTouches(s, t)
    ensures WakeInv(t)
  {
    hide Alive;
  }

  lemma ReaderKeepsWakeInv(s: State, r: ReadResult)
    requires WakeInv(s) && ReaderCanStep(s)
    ensures WakeInv(ReaderStep(s, r))
  {
    hide WakeInv, ReaderTouches, ReaderMoves, ReaderSends;
    if s.reader.IsSending() {
      ReaderSendsTouch(s);
      TouchKeepsWakeInv(s, ReaderSends(s));
    } else {
      ReaderMovesTouch(s, r);
      TouchKeepsWakeInv(s, ReaderMoves(s, r));
    }
  }

  lemma NextKeepsWakeInv(s: State, a: Action)
    requires WakeInv(s) && Enabled(s, a)
    ensures WakeInv(Next(s, a))
  {
    hide WorkerStep, ReaderStep;
    if a.WorkerTurn? {
      WorkerKeepsWakeInv(s, a.answer);
    } else if a.ReaderTurn? {
      ReaderKeepsWakeInv(s, a.read);
    }
  }

  /** The size of the last resize call of a run. */
  function LastAsked(initial: Size, run: seq<Action>): Size {
    if run == [] then initial
    else match run[|run| - 1]
      case CallResize(size) => size
      case _ => LastAsked(initial, run[..|run| - 1])
  }

  lemma {:induction false} LastAskedStep(initial: Size, a: Action, rest: seq<Action>)
    ensures LastAsked(initial, [a] + rest) == LastAsked(if a.CallResize? then a.size else initial, rest)
    decreases |rest|
  {
    if rest == [] {
      assert ([a] + rest)[..0] == [];
    } else {
      assert ([a] + rest)[..|rest|] == [a] + rest[..|rest| - 1];
      LastAskedStep(initial, a, rest[..|rest| - 1]);
    }
  }

  lemma NextAsks(s: State, a: Action)
    requires Enabled(s, a)
    ensures Next(s, a).requested == if a.CallResize? then a.size else s.requested
  {
    hide TryDeliver;
  }

  lemma {:induction false} RunKeepsWakeInv(from: State, run: seq<Action>, s: State)
    requires WakeInv(from) && Reaches(from, run, s)
    ensures WakeInv(s) && s.requested == LastAsked(from.requested, run)
    decreases |run|
  {
    hide WakeInv, Enabled, Next;
    if run != [] {
      NextKeepsWakeInv(from, run[0]);
      NextAsks(from, run[0]);
      RunKeepsWakeInv(Next(from, run[0]), run[1..], s);
      assert run == [run[0]] + run[1..];
      LastAskedStep(from.requested, run[0], run[1..]);
    }
  }

  /**
   No resize is lost: in every interleaving, when no resize call is in progress and the
   worker waits on an empty queue, the PTY has the size asked for last, whatever wakes
   the full queue dropped.
   */
  lemma NoLostResize(size: Size, run: seq<Action>, s: State)
    requires Reaches(Initial(size), run, s)
    requires s.caller == Idle && s.worker == Receiving && s.commands == []
    ensures s.applied == LastAsked(size, run) && s.pending == None
  {
    RunKeepsWakeInv(Initial(size), run, s);
  }

  /** Nor is a shutdown: a worker waiting on an empty queue has not missed one. */
  lemma NoLostShutdown(size: Size, run: seq<Action>, s: State)
    requires Reaches(Initial(size), run, s)
    requires s.worker == Receiving && s.commands == [] && s.wakesOwed == 0 && s.reader != Waking
    ensures !s.shutdown
  {
    RunKeepsWakeInv(Initial(size), run, s);
  }

  // ----- One ending -----

  predicate HasTerminal(events: seq<Event>) {
    exists i :: 0 <= i < |events| && events[i].IsTerminal()
  }

  predicate AtMostOneTerminal(events: seq<Event>) {
    forall i, j :: 0 <= i < j < |events| ==> !events[i].IsTerminal() || !events[j].IsTerminal()
  }

  predicate HasExit(events: seq<Event>) {
    exists i :: 0 <= i < |events| && events[i].Exited?
  }

  predicate ExitIsLast(events: seq<Event>) {
    forall i :: 0 <= i < |events| && events[i].Exited? ==> i == |events| - 1
  }

  predicate TellsStart(events: seq<Event>) {
    Started in events
  }

  predicate TellsStartOnce(events: seq<Event>) {
    forall i, j :: 0 <= i < j < |events| ==> events[i] != Started || events[j] != Started
  }

  lemma OneMoreEvent(events: seq<Event>, e: Event)
    ensures HasTerminal(events + [e]) <==> HasTerminal(events) || e.IsTerminal()
    ensures AtMostOneTerminal(events) && !(HasTerminal(events) && e.IsTerminal()) ==> AtMostOneTerminal(events + [e])
    ensures HasExit(events + [e]) <==> HasExit(events) || e.Exited?
    ensures !HasExit(events) ==> ExitIsLast(events + [e])
    ensures TellsStart(events + [e]) <==> TellsStart(events) || e == Started
    ensures TellsStartOnce(events) && !(TellsStart(events) && e == Started) ==> TellsStartOnce(events + [e])
  {
    var more := events + [e];
    assert more[|events|] == e;
    assert forall i :: 0 <= i < |events| ==> more[i] == events[i];
  }

  /** The worker has told that the shell started, on its way to an exit report. */
  predicate HasStarted(w: Worker) {
    w.InLoop() || (w.Joining? && w.outcome.ChildEnded?) || (w.Ending? && w.event.Exited?)
  }

  ghost predicate Inv(s: State) {
    && AtMostOneTerminal(s.delivered)
    // A terminal event of the reader keeps the flag up from before it is joined.
    && (HasTerminal(s.delivered) && s.worker != Gone ==>
         s.reader == Raising || ((s.reader == Waking || s.reader.Left?) && s.shutdown))
    && (s.worker.Ending? ==> s.worker.event.IsTerminal() && (s.worker.checked ==> !HasTerminal(s.delivered)))
    && (s.worker.Ending? || s.worker == Gone ==> s.reader == NotStarted || s.reader.Left?)
    && (s.worker == Launching ==> s.reader == NotStarted && !HasTerminal(s.delivered))
    && ExitIsLast(s.delivered)
    && (HasExit(s.delivered) ==> s.worker == Gone && TellsStart(s.delivered))
    && (s.worker == Launching || s.worker.Starting? ==> !TellsStart(s.delivered))
    && (HasStarted(s.worker) ==> TellsStart(s.delivered))
    && TellsStartOnce(s.delivered)
    && s.taken <= |s.delivered| <= s.taken + EVENT_CAPACITY
    && (s.handleDropped ==> s.shutdown)
  }

  lemma WorkerSendsKeepInv(s: State)
    requires Inv(s) && s.worker.IsSending()
    ensures Inv(WorkerSends(s))
  {
    hide HasTerminal, AtMostOneTerminal, HasExit, ExitIsLast, TellsStart, TellsStartOnce;
    OneMoreEvent(s.delivered, s.worker.Event());
  }

  lemma WorkerMovesKeepInv(s: State, a: Answer)
    requires Inv(s) && WorkerCanStep(s, a) && !s.worker.IsSending()
    ensures Inv(WorkerMoves(s, a))
  {
    hide HasTerminal, AtMostOneTerminal, HasExit, ExitIsLast, TellsStart, TellsStartOnce;
  }

  lemma WorkerKeepsInv(s: State, a: Answer)
    requires Inv(s) && WorkerCanStep(s, a)
    ensures Inv(WorkerStep(s, a))
  {
    hide Inv, WorkerSends, WorkerMoves;
    if s.worker.IsSending() {
      WorkerSendsKeepInv(s);
    } else {
      WorkerMovesKeepInv(s, a);
    }
  }

  lemma ReaderKeepsInv(s: State, r: ReadResult)
    requires Inv(s) && ReaderCanStep(s)
    ensures Inv(ReaderStep(s, r))
  {
    hide HasTerminal, AtMostOneTerminal, HasExit, ExitIsLast, TellsStart, TellsStartOnce;
    if s.reader.IsSending() {
      OneMoreEvent(s.delivered, s.reader.Event());
    }
  }

  lemma NextKeepsInv(s: State, a: Action)
    requires Inv(s) && Enabled(s, a)
    ensures Inv(Next(s, a))
  {
    hide HasTerminal, AtMostOneTerminal, HasExit, ExitIsLast, TellsStart, TellsStartOnce, WorkerStep, ReaderStep;
    match a {
      case WorkerTurn(answer) => WorkerKeepsInv(s, answer);
      case ReaderTurn(read) => ReaderKeepsInv(s, read);
      case _ =>
    }
  }

  lemma {:induction false} RunKeepsInv(from: State, run: seq<Action>, s: State)
    requires Inv(from) && Reaches(from, run, s)
    ensures Inv(s)
    decreases |run|
  {
    hide Inv, Next, Enabled;
    if run != [] {
      NextKeepsInv(from, run[0]);
      RunKeepsInv(Next(from, run[0]), run[1..], s);
    }
  }

  lemma Reached(size: Size, run: seq<Action>, s: State)
    requires Reaches(Initial(size), run, s)
    ensures Inv(s)
  {
    RunKeepsInv(Initial(size), run, s);
  }

  /**
   In every interleaving at most one of `Exited` and `Failed` is delivered, `Exited` is
   the last event of all, so no output follows it, and a start was reported before it.
   */
  lemma OneEnding(size: Size, run: seq<Action>, s: State, i: nat, j: nat)
    requires Reaches(Initial(size), run, s) && i < |s.delivered| && j < |s.delivered|
    ensures s.delivered[i].IsTerminal() && s.delivered[j].IsTerminal() ==> i == j
    ensures s.delivered[i].Exited? ==> j <= i && Started in s.delivered[..i]
    ensures s.delivered[i] == s.delivered[j] == Started ==> i == j
    ensures |s.delivered| - s.taken <= EVENT_CAPACITY
  {
    RunKeepsInv(Initial(size), run, s);
    if s.delivered[i].Exited? {
      var k :| 0 <= k < |s.delivered| && s.delivered[k] == Started;
      assert s.delivered[..i][k] == Started;
    }
  }

  // ----- Cancellation -----

  /** Sends that have already seen the flag down. */
  function Committed(w: Worker, r: Reader): nat {
    (if w.IsSending() && w.checked then 1 else 0) + (if r.IsSending() && r.checked then 1 else 0)
  }

  lemma SendCommittedFalls(s: State)
    requires s.shutdown && s.worker.IsSending()
    ensures var t := WorkerSends(s);
      t.shutdown && |t.delivered| + Committed(t.worker, t.reader) <= |s.delivered| + Committed(s.worker, s.reader)
  {
  }

  lemma WorkerCommittedFalls(s: State, a: Answer)
    requires s.shutdown && WorkerCanStep(s, a)
    ensures var t := WorkerStep(s, a);
      t.shutdown && |t.delivered| + Committed(t.worker, t.reader) <= |s.delivered| + Committed(s.worker, s.reader)
  {
    hide WorkerSends;
    if s.worker.IsSending() {
      SendCommittedFalls(s);
    }
  }

  lemma CommittedFalls(s: State, a: Action)
    requires s.shutdown && Enabled(s, a)
    ensures var t := Next(s, a);
      t.shutdown && |t.delivered| + Committed(t.worker, t.reader) <= |s.delivered| + Committed(s.worker, s.reader)
  {
    hide WorkerStep;
    if a.WorkerTurn? {
      WorkerCommittedFalls(s, a.answer);
    }
  }

  /** Once the flag is up, only sends that had already passed it are delivered: two at most, however long the run. */
  lemma {:induction false} ShutdownCancelsSends(from: State, run: seq<Action>, s: State)
    requires from.shutdown && Reaches(from, run, s)
    ensures |s.delivered| + Committed(s.worker, s.reader) <= |from.delivered| + Committed(from.worker, from.reader)
    ensures |from.delivered| + Committed(from.worker, from.reader) <= |from.delivered| + 2
    decreases |run|
  {
    if run != [] {
      CommittedFalls(from, run[0]);
      ShutdownCancelsSends(Next(from, run[0]), run[1..], s);
    }
  }

  // ----- The order of events -----

  /** The reader sends output and at most a failure; the worker everything else. */
  predicate SendersFit(events: seq<Event>, senders: seq<Thread>) {
    && |events| == |senders|
    && forall i :: 0 <= i < |events| ==> match events[i]
         case Output(_) => senders[i] == ByReader
         case Failed(_) => true
         case _ => senders[i] == ByWorker
  }

  /** After a failure only the worker sends, and only that the shell started or was resized. */
  predicate OnlyWorkerAfterFailed(events: seq<Event>, senders: seq<Thread>)
    requires |events| == |senders|
  {
    forall i, j :: 0 <= i < j < |events| && events[i].Failed? ==>
      senders[i] == ByReader && senders[j] == ByWorker && (events[j] == Started || events[j].Resized?)
  }

  /** The worker has told of the start by the time it has sent anything. */
  predicate StartComesFirst(events: seq<Event>, senders: seq<Thread>)
    requires |events| == |senders|
  {
    forall i :: 0 <= i < |events| && senders[i] == ByWorker ==> Started in events[..i + 1]
  }

  predicate FailedBy(events: seq<Event>, senders: seq<Thread>, who: Thread)
    requires |events| == |senders|
  {
    exists i :: 0 <= i < |events| && events[i].Failed? && senders[i] == who
  }

  predicate OnlyFailures(events: seq<Event>) {
    forall i :: 0 <= i < |events| ==> events[i].Failed?
  }

  lemma OneMoreSent(events: seq<Event>, senders: seq<Thread>, e: Event, who: Thread)
    requires SendersFit(events, senders)
    requires match e case Output(_) => who == ByReader case Failed(_) => true case _ => who == ByWorker
    ensures SendersFit(events + [e], senders + [who])
    ensures FailedBy(events + [e], senders + [who], ByWorker) <==>
            FailedBy(events, senders, ByWorker) || (e.Failed? && who == ByWorker)
    ensures FailedBy(events + [e], senders + [who], ByReader) <==>
            FailedBy(events, senders, ByReader) || (e.Failed? && who == ByReader)
    ensures FailedBy(events, senders, ByReader) || FailedBy(events, senders, ByWorker) ==> HasTerminal(events)
    ensures OnlyFailures(events) && e.Failed? ==> OnlyFailures(events + [e])
  {
    var events', senders' := events + [e], senders + [who];
    assert events'[|events|] == e && senders'[|events|] == who;
    assert forall i :: 0 <= i < |events| ==> events'[i] == events[i] && senders'[i] == senders[i];
  }

  lemma OneMoreInOrder(events: seq<Event>, senders: seq<Thread>, e: Event, who: Thread)
    requires |events| == |senders| && OnlyWorkerAfterFailed(events, senders)
    requires !FailedBy(events, senders, ByWorker)
    requires FailedBy(events, senders, ByReader) ==> who == ByWorker && (e == Started || e.Resized?)
    ensures OnlyWorkerAfterFailed(events + [e], senders + [who])
  {
    var events', senders' := events + [e], senders + [who];
    assert forall i :: 0 <= i < |events| && events[i].Failed? ==> senders[i] != ByWorker;
    forall i, j | 0 <= i < j < |events'| && events'[i].Failed?
      ensures senders'[i] == ByReader && senders'[j] == ByWorker && (events'[j] == Started || events'[j].Resized?)
    {
      assert events[i].Failed? && senders'[i] == senders[i];
    }
  }

  lemma OneMoreAfterStart(events: seq<Event>, senders: seq<Thread>, e: Event, who: Thread)
    requires |events| == |senders| && StartComesFirst(events, senders)
    requires who == ByWorker ==> e == Started || TellsStart(events)
    ensures StartComesFirst(events + [e], senders + [who])
  {
    var events', senders' := events + [e], senders + [who];
    forall i | 0 <= i < |events'| && senders'[i] == ByWorker ensures Started in events'[..i + 1] {
      if i < |events| {
        assert events'[..i + 1] == events[..i + 1];
      } else {
        assert events'[..i + 1] == events';
      }
    }
  }

  ghost predicate OrderInv(s: State) {
    && SendersFit(s.delivered, s.senders)
    && OnlyWorkerAfterFailed(s.delivered, s.senders)
    && (FailedBy(s.delivered, s.senders, ByWorker) ==> s.worker == Gone)
    && (FailedBy(s.delivered, s.senders, ByReader) ==> s.reader == Raising || s.reader == Waking || s.reader.Left?)
    && (s.worker == Launching ==> s.delivered == [])
    && (s.reader != NotStarted ==> StartComesFirst(s.delivered, s.senders))
    && (s.reader == NotStarted ==> s.worker == Launching || s.worker.Ending? || s.worker == Gone)
    && (s.reader == NotStarted ==> !TellsStart(s.delivered) && OnlyFailures(s.delivered))
    // A start that could not be sent stays unsent, and so does everything the worker would send after it.
    && (s.reader != NotStarted && (s.worker.Joining? || s.worker.Ending?) && !TellsStart(s.delivered) ==>
         if s.worker.Ending? && s.worker.checked then s.closed else s.shutdown || s.closed)
  }

  lemma WorkerSendsKeepOrder(s: State)
    requires Inv(s) && OrderInv(s) && s.worker.IsSending()
    ensures OrderInv(WorkerSends(s))
  {
    hide HasTerminal, AtMostOneTerminal, HasExit, ExitIsLast, TellsStartOnce, TellsStart;
    hide SendersFit, OnlyWorkerAfterFailed, OnlyFailures, StartComesFirst, FailedBy;
    var e := s.worker.Event();
    if TryDeliver(s, s.worker.checked) == Delivered {
      OneMoreEvent(s.delivered, e);
      OneMoreSent(s.delivered, s.senders, e, ByWorker);
      OneMoreInOrder(s.delivered, s.senders, e, ByWorker);
      if s.reader != NotStarted {
        OneMoreAfterStart(s.delivered, s.senders, e, ByWorker);
      }
    }
  }

  lemma WorkerMovesKeepOrder(s: State, a: Answer)
    requires Inv(s) && OrderInv(s) && WorkerCanStep(s, a) && !s.worker.IsSending()
    ensures OrderInv(WorkerMoves(s, a))
  {
    hide HasTerminal, AtMostOneTerminal, HasExit, ExitIsLast, TellsStartOnce, TellsStart;
    hide SendersFit, OnlyWorkerAfterFailed, OnlyFailures, FailedBy;
  }

  lemma ReaderKeepsOrder(s: State, r: ReadResult)
    requires Inv(s) && OrderInv(s) && ReaderCanStep(s)
    ensures OrderInv(ReaderStep(s, r))
  {
    hide HasTerminal, AtMostOneTerminal, HasExit, ExitIsLast, TellsStartOnce, TellsStart;
    hide SendersFit, OnlyWorkerAfterFailed, OnlyFailures, StartComesFirst, FailedBy;
    if s.reader.IsSending() {
      var e := s.reader.Event();
      OneMoreEvent(s.delivered, e);
      OneMoreSent(s.delivered, s.senders, e, ByReader);
      OneMoreInOrder(s.delivered, s.senders, e, ByReader);
      OneMoreAfterStart(s.delivered, s.senders, e, ByReader);
    }
  }

  lemma WorkerKeepsOrder(s: State, a: Answer)
    requires Inv(s) && OrderInv(s) && WorkerCanStep(s, a)
    ensures OrderInv(WorkerStep(s, a))
  {
    hide Inv, OrderInv, WorkerSends, WorkerMoves;
    if s.worker.IsSending() {
      WorkerSendsKeepOrder(s);
    } else {
      WorkerMovesKeepOrder(s, a);
    }
  }

  /** What a step outside the worker and the reader can change. */
  predicate LeavesThreads(s: State, t: State) {
    && t == s.(caller := t.caller, requested := t.requested, pending := t.pending, commands := t.commands,
               shutdown := t.shutdown, wakesOwed := t.wakesOwed, handleDropped := t.handleDropped,
               taken := t.taken, closed := t.closed)
    && (s.shutdown ==> t.shutdown) && (s.closed ==> t.closed)
  }

  lemma OthersLeaveThreads(s: State, a: Action)
    requires Enabled(s, a) && !a.WorkerTurn? && !a.ReaderTurn?
    ensures LeavesThreads(s, Next(s, a))
  {
  }

  lemma OthersKeepOrder(s: State, t: State)
    requires OrderInv(s) && LeavesThreads(s, t)
    ensures OrderInv(t)
  {
    hide SendersFit, OnlyWorkerAfterFailed, OnlyFailures, StartComesFirst, FailedBy, TellsStart;
  }

  lemma NextKeepsOrder(s: State, a: Action)
    requires Inv(s) && OrderInv(s) && Enabled(s, a)
    ensures OrderInv(Next(s, a))
  {
    hide OrderInv, LeavesThreads, WorkerStep, ReaderStep, Inv;
    match a {
      case WorkerTurn(answer) => WorkerKeepsOrder(s, answer);
      case ReaderTurn(read) => ReaderKeepsOrder(s, read);
      case _ =>
        OthersLeaveThreads(s, a);
        OthersKeepOrder(s, Next(s, a));
    }
  }

  lemma {:induction false} RunKeepsOrder(from: State, run: seq<Action>, s: State)
    requires Inv(from) && OrderInv(from) && Reaches(from, run, s)
    ensures OrderInv(s)
    decreases |run|
  {
    hide Inv, OrderInv, Next, Enabled;
    if run != [] {
      NextKeepsInv(from, run[0]);
      NextKeepsOrder(from, run[0]);
      RunKeepsOrder(Next(from, run[0]), run[1..], s);
    }
  }

  lemma InOrder(size: Size, run: seq<Action>, s: State)
    requires Reaches(Initial(size), run, s)
    ensures OrderInv(s)
  {
    RunKeepsOrder(Initial(size), run, s);
  }

  /** The first action of a run that delivers an event. */
  function FirstDelivery(from: State, run: seq<Action>): Option<Action>
    decreases |run|
  {
    if run == [] || !Enabled(from, run[0]) then None
    else if |Next(from, run[0]).delivered| > |from.delivered| then Some(run[0])
    else FirstDelivery(Next(from, run[0]), run[1..])
  }

  /** What the operating system answers the worker's first turn, which launches the shell. */
  function LaunchAnswer(run: seq<Action>): Option<Answer> {
    if run == [] then None
    else if run[0].WorkerTurn? then Some(run[0].answer)
    else LaunchAnswer(run[1..])
  }

  predicate LaunchWorked(run: seq<Action>) {
    LaunchAnswer(run).Some? && !LaunchAnswer(run).value.Fault?
  }

  predicate AddsSender(s: State, t: State, who: Thread) {
    if |t.delivered| > |s.delivered| then t.senders == s.senders + [who]
    else t.senders == s.senders && t.delivered == s.delivered
  }

  lemma WorkerAddsSender(s: State, a: Answer)
    requires WorkerCanStep(s, a)
    ensures AddsSender(s, WorkerStep(s, a), ByWorker)
  {
    hide TryDeliver, Worker.After;
  }

  lemma ReaderAddsSender(s: State, r: ReadResult)
    requires ReaderCanStep(s)
    ensures AddsSender(s, ReaderStep(s, r), ByReader)
  {
    hide TryDeliver, Reader.After;
  }

  lemma NextAddsSender(s: State, a: Action)
    requires Enabled(s, a)
    ensures AddsSender(s, Next(s, a), if a.WorkerTurn? then ByWorker else ByReader)
    ensures |Next(s, a).delivered| > |s.delivered| ==> a.WorkerTurn? || a.ReaderTurn?
  {
    hide WorkerStep, ReaderStep;
    if a.WorkerTurn? {
      WorkerAddsSender(s, a.answer);
    } else if a.ReaderTurn? {
      ReaderAddsSender(s, a.read);
    }
  }

  lemma {:induction false} SendersStay(from: State, run: seq<Action>, s: State)
    requires Reaches(from, run, s)
    ensures from.senders <= s.senders
    decreases |run|
  {
    hide Next, Enabled;
    if run != [] {
      NextAddsSender(from, run[0]);
      SendersStay(Next(from, run[0]), run[1..], s);
    }
  }

  lemma {:induction false} FirstSender(from: State, run: seq<Action>, s: State)
    requires from.senders == [] && Reaches(from, run, s)
    ensures s.senders == [] || (FirstDelivery(from, run).Some? &&
              (s.senders[0] == ByWorker <==> FirstDelivery(from, run).value.WorkerTurn?))
    decreases |run|
  {
    hide Next, Enabled;
    if run != [] {
      var next := Next(from, run[0]);
      NextAddsSender(from, run[0]);
      if |next.delivered| > |from.delivered| {
        SendersStay(next, run[1..], s);
      } else {
        FirstSender(next, run[1..], s);
      }
    }
  }

  lemma WorkerLaunchesOnce(s: State, a: Answer)
    requires WorkerCanStep(s, a)
    ensures WorkerStep(s, a).worker != Launching
    ensures WorkerStep(s, a).reader == if s.worker == Launching && !a.Fault? then Reading else s.reader
  {
    hide WorkerSends;
    if s.worker.IsSending() {
      WorkerSendsTouch(s);
    }
  }

  lemma ReaderStaysStarted(s: State, r: ReadResult)
    requires ReaderCanStep(s)
    ensures ReaderStep(s, r).reader != NotStarted && ReaderStep(s, r).worker == s.worker
  {
    hide ReaderSends;
    if s.reader.IsSending() {
      SendingReaderStaysStarted(s);
    }
  }

  lemma SendingReaderStaysStarted(s: State)
    requires s.reader.IsSending()
    ensures ReaderSends(s).reader != NotStarted && ReaderSends(s).worker == s.worker
  {
    hide TryDeliver;
  }

  /** Only the worker's first turn can start the reader. */
  lemma NextKeepsLaunch(s: State, a: Action)
    requires Enabled(s, a)
    ensures Next(s, a).worker == Launching <==> s.worker == Launching && !a.WorkerTurn?
    ensures Next(s, a).reader == NotStarted <==>
            s.reader == NotStarted && !(s.worker == Launching && a.WorkerTurn? && !a.answer.Fault?)
  {
    hide WorkerStep, ReaderStep;
    if a.WorkerTurn? {
      WorkerLaunchesOnce(s, a.answer);
    } else if a.ReaderTurn? {
      ReaderStaysStarted(s, a.read);
    }
  }

  lemma {:induction false} LaunchDecidesReader(from: State, run: seq<Action>, s: State)
    requires Reaches(from, run, s)
    ensures from.worker != Launching ==> (s.reader == NotStarted <==> from.reader == NotStarted)
    ensures from.worker == Launching && from.reader == NotStarted ==> (s.reader != NotStarted <==> LaunchWorked(run))
    decreases |run|
  {
    hide Next, Enabled;
    if run != [] {
      NextKeepsLaunch(from, run[0]);
      LaunchDecidesReader(Next(from, run[0]), run[1..], s);
    }
  }

  /**
   The first event is `Started` exactly when the first action that delivers one is a
   turn of the worker and the launch worked; otherwise it is output or a failure.
   */
  lemma StartedIsFirstIff(size: Size, run: seq<Action>, s: State)
    requires Reaches(Initial(size), run, s) && s.delivered != []
    ensures FirstDelivery(Initial(size), run).Some?
    ensures s.delivered[0] == Started <==>
            FirstDelivery(Initial(size), run).value.WorkerTurn? && LaunchWorked(run)
    ensures s.delivered[0] == Started || s.delivered[0].Output? || s.delivered[0].Failed?
  {
    hide Reaches, Next, Enabled, OrderInv, FirstDelivery, LaunchWorked;
    InOrder(size, run, s);
    FirstEvent(s);
    FirstSender(Initial(size), run, s);
    LaunchDecidesReader(Initial(size), run, s);
  }

  lemma FirstEvent(s: State)
    requires OrderInv(s) && s.delivered != []
    ensures |s.senders| == |s.delivered|
    ensures s.delivered[0] == Started <==> s.senders[0] == ByWorker && s.reader != NotStarted
    ensures s.delivered[0] == Started || s.delivered[0].Output? || s.delivered[0].Failed?
  {
    hide FailedBy, OnlyWorkerAfterFailed;
    if s.senders[0] == ByWorker && s.reader != NotStarted {
      assert s.delivered[..1] == [s.delivered[0]];
    }
  }

  // ----- What can follow a failure -----

  /** Only the reader's `Failed` is ever followed: by the worker, with `Started` or `Resized`. */
  lemma WhatFollowsFailed(size: Size, run: seq<Action>, s: State, i: nat, j: nat)
    requires Reaches(Initial(size), run, s) && i < j < |s.delivered| && s.delivered[i].Failed?
    ensures |s.senders| == |s.delivered| && s.senders[i] == ByReader && s.senders[j] == ByWorker
    ensures s.delivered[j] == Started || s.delivered[j].Resized?
  {
    hide Reaches, Next, Enabled, FailedBy, SendersFit, StartComesFirst, OnlyFailures, TellsStart, OnlyWorkerAfterFailed;
    InOrder(size, run, s);
    SendersMatch(s);
    OnlyWorkerFollows(s.delivered, s.senders, i, j);
  }

  lemma OnlyWorkerFollows(events: seq<Event>, senders: seq<Thread>, i: nat, j: nat)
    requires |events| == |senders| && OnlyWorkerAfterFailed(events, senders)
    requires i < j < |events| && events[i].Failed?
    ensures senders[i] == ByReader && senders[j] == ByWorker && (events[j] == Started || events[j].Resized?)
  {
  }

  lemma SendersMatch(s: State)
    requires OrderInv(s)
    ensures |s.senders| == |s.delivered|
  {
  }

  /** Some continuation delivers another event. */
  ghost predicate CanDeliverMore(s: State) {
    exists run, t :: Reaches(s, run, t) && |t.delivered| > |s.delivered|
  }

  /**
   The channel is open, and the worker has passed the flag on its way to a send or,
   while the flag is down, can still get to one.
   */
  predicate StillSends(s: State) {
    && !s.closed
    && if s.shutdown then s.worker.IsSending() && s.worker.checked else s.worker.Starting? || s.worker.InLoop()
  }

  /** No thread will send again. */
  predicate Spent(s: State) {
    || s.closed
    || (s.shutdown && Committed(s.worker, s.reader) == 0)
    || (s.worker.Joining? && s.reader == Raising)
    || (s.worker == Gone && !ReaderCanStep(s))
  }

  lemma SendKeepsSpent(s: State)
    requires Spent(s) && s.worker.IsSending()
    ensures Spent(WorkerSends(s)) && WorkerSends(s).delivered == s.delivered
  {
  }

  lemma WorkerKeepsSpent(s: State, a: Answer)
    requires Spent(s) && WorkerCanStep(s, a)
    ensures Spent(WorkerStep(s, a)) && WorkerStep(s, a).delivered == s.delivered
  {
    hide WorkerSends;
    if s.worker.IsSending() {
      SendKeepsSpent(s);
    }
  }

  lemma NextKeepsSpent(s: State, a: Action)
    requires Spent(s) && Enabled(s, a)
    ensures Spent(Next(s, a)) && Next(s, a).delivered == s.delivered
  {
    hide WorkerStep;
    if a.WorkerTurn? {
      WorkerKeepsSpent(s, a.answer);
    }
  }

  lemma {:induction false} SpentDeliversNothing(from: State, run: seq<Action>, s: State)
    requires Spent(from) && Reaches(from, run, s)
    ensures s.delivered == from.delivered
    decreases |run|
  {
    hide Spent, Next, Enabled;
    if run != [] {
      NextKeepsSpent(from, run[0]);
      SpentDeliversNothing(Next(from, run[0]), run[1..], s);
    }
  }

  lemma FailedThenSpent(s: State)
    requires Inv(s) && HasTerminal(s.delivered) && !StillSends(s)
    ensures Spent(s)
  {
    hide HasTerminal, AtMostOneTerminal, HasExit, ExitIsLast, TellsStart, TellsStartOnce;
  }

  lemma FirstStep(from: State, a: Action, rest: seq<Action>, s: State)
    requires Enabled(from, a) && Reaches(Next(from, a), rest, s)
    ensures Reaches(from, [a] + rest, s)
  {
    assert ([a] + rest)[1..] == rest;
  }

  /** A step that delivers nothing can be put before a run that delivers. */
  lemma MoreAfter(s: State, a: Action)
    requires Enabled(s, a) && |Next(s, a).delivered| == |s.delivered| && CanDeliverMore(Next(s, a))
    ensures CanDeliverMore(s)
  {
    hide Next, Enabled;
    var rest, t :| Reaches(Next(s, a), rest, t) && |t.delivered| > |Next(s, a).delivered|;
    FirstStep(s, a, rest, t);
  }

  lemma MoreNow(s: State, a: Action)
    requires Enabled(s, a) && |Next(s, a).delivered| > |s.delivered|
    ensures CanDeliverMore(s)
  {
    hide Next, Enabled;
    FirstStep(s, a, [], Next(s, a));
  }

  /** What a send needs of the channel, and a resize call of the handle. */
  predicate Open(s: State) {
    !s.closed && s.taken <= |s.delivered| <= s.taken + EVENT_CAPACITY && (s.handleDropped ==> s.shutdown)
  }

  lemma SendsSoon(s: State)
    requires Open(s) && s.worker.IsSending() && (s.worker.checked || !s.shutdown)
    ensures CanDeliverMore(s)
    decreases |s.delivered| == s.taken + EVENT_CAPACITY, !s.worker.checked
  {
    hide CanDeliverMore;
    if |s.delivered| == s.taken + EVENT_CAPACITY {
      SendsSoon(Next(s, TakeEvent));
      MoreAfter(s, TakeEvent);
    } else if s.worker.checked {
      MoreNow(s, WorkerTurn(Fine));
    } else {
      SendsSoon(Next(s, WorkerTurn(Fine)));
      MoreAfter(s, WorkerTurn(Fine));
    }
  }

  /** A size being set is reported next. */
  lemma ReportsSoon(s: State, size: Size)
    requires Open(s) && !s.shutdown && s.worker == Resizing(size)
    ensures CanDeliverMore(s)
  {
    hide CanDeliverMore;
    SendsSoon(Next(s, WorkerTurn(Fine)));
    MoreAfter(s, WorkerTurn(Fine));
  }

  /** A size that was posted is taken and reported. */
  lemma TakesSoon(s: State, size: Size)
    requires Open(s) && !s.shutdown && s.worker == LoopTop && s.pending == Some(size) && size != s.applied
    ensures CanDeliverMore(s)
  {
    hide CanDeliverMore;
    var s1 := Next(s, WorkerTurn(Fine));
    ReportsSoon(Next(s1, WorkerTurn(Fine)), size);
    MoreAfter(s1, WorkerTurn(Fine));
    MoreAfter(s, WorkerTurn(Fine));
  }

  function Fresh(a: Size, b: Size): (size: Size)
    ensures size != a && size != b
  {
    Size(a.columns + b.columns + 1, 0, 0, 0)
  }

  /** At the top of the loop a new resize call gets through, once the one in progress is done. */
  lemma AsksSoon(s: State)
    requires Open(s) && !s.shutdown && s.worker == LoopTop
    ensures CanDeliverMore(s)
    decreases if s.caller.Asked? then 2 else if s.caller.Posted? then 1 else 0
  {
    hide CanDeliverMore;
    if s.caller != Idle {
      AsksSoon(Next(s, ResizeStep));
      MoreAfter(s, ResizeStep);
    } else {
      var size := Fresh(s.requested, s.applied);
      var s1 := Next(s, CallResize(size));
      TakesSoon(Next(s1, ResizeStep), size);
      MoreAfter(s1, ResizeStep);
      MoreAfter(s, CallResize(size));
    }
  }

  function ToTop(w: Worker): nat {
    if w.Taking? then 4 else if w.Polling? then 3 else if w.Receiving? then 2 else if w.Writing? then 1 else 0
  }

  /** While the flag is down every place in the loop leads to a send or to its top. */
  lemma LoopSendsSoon(s: State)
    requires Open(s) && !s.shutdown && s.worker.InLoop()
    ensures CanDeliverMore(s)
    decreases ToTop(s.worker)
  {
    hide CanDeliverMore;
    if s.worker.Reporting? {
      SendsSoon(s);
    } else if s.worker.Resizing? {
      ReportsSoon(s, s.worker.size);
    } else if s.worker.LoopTop? {
      AsksSoon(s);
    } else {
      var turn := WorkerTurn(if s.worker.Receiving? then TimedOut else Fine);
      LoopSendsSoon(Next(s, turn));
      MoreAfter(s, turn);
    }
  }

  /**
   After a `Failed` another event can be delivered exactly when `StillSends`: before the
   reader raises the flag, while the worker is still in its loop or about to report the
   start; afterwards only if its send had passed the flag, and then that is all.
   */
  lemma FailedIsLastIff(size: Size, run: seq<Action>, s: State, i: nat)
    requires Reaches(Initial(size), run, s) && i < |s.delivered| && s.delivered[i].Failed?
    ensures CanDeliverMore(s) <==> StillSends(s)
    ensures s.shutdown ==> forall rest, t :: Reaches(s, rest, t) ==> |t.delivered| <= |s.delivered| + 1
  {
    hide Reaches, Next, Enabled, Inv, CanDeliverMore, StillSends;
    Reached(size, run, s);
    assert HasTerminal(s.delivered) by {
      assert s.delivered[i].IsTerminal();
    }
    if StillSends(s) {
      StillSendsDelivers(s);
    } else {
      NothingMore(s);
    }
    if s.shutdown {
      LastCommitted(s);
    }
  }

  lemma StillSendsDelivers(s: State)
    requires Inv(s) && StillSends(s)
    ensures CanDeliverMore(s)
  {
    hide CanDeliverMore, HasTerminal, AtMostOneTerminal, HasExit, ExitIsLast, TellsStart, TellsStartOnce;
    if s.worker.InLoop() && !s.shutdown {
      LoopSendsSoon(s);
    } else {
      SendsSoon(s);
    }
  }

  lemma NothingMore(s: State)
    requires Inv(s) && HasTerminal(s.delivered) && !StillSends(s)
    ensures !CanDeliverMore(s)
  {
    hide Reaches, Inv, HasTerminal, StillSends, Spent;
    FailedThenSpent(s);
    forall run, t | Reaches(s, run, t) ensures t.delivered == s.delivered {
      SpentDeliversNothing(s, run, t);
    }
  }

  lemma LastCommitted(s: State)
    requires Inv(s) && HasTerminal(s.delivered) && s.shutdown
    ensures forall rest, t :: Reaches(s, rest, t) ==> |t.delivered| <= |s.delivered| + 1
  {
    hide Reaches, HasTerminal, AtMostOneTerminal, HasExit, ExitIsLast, TellsStart, TellsStartOnce;
    assert Committed(s.worker, s.reader) <= 1;
    forall rest, t | Reaches(s, rest, t) ensures |t.delivered| <= |s.delivered| + 1 {
      ShutdownCancelsSends(s, rest, t);
    }
  }

  /** The reader is started before the start is reported and may deliver first. */
  lemma ReaderFirst(size: Size, read: ReadResult) returns (run: seq<Action>, s: State)
    requires read.Data? || read.ReadFault?
    ensures Reaches(Initial(size), run, s)
    ensures s.delivered == [if read.Data? then Output(read.data) else Failed(read.message), Started]
  {
    var work, turn := WorkerTurn(Fine), ReaderTurn(read);
    var s1 := Next(Initial(size), work);
    var s2 := Next(s1, turn);
    var s3 := Next(s2, turn);
    var s4 := Next(s3, turn);
    var s5 := Next(s4, work);
    s := Next(s5, work);
    FirstStep(s5, work, [], s);
    FirstStep(s4, work, [work], s);
    FirstStep(s3, turn, [work] + [work], s);
    FirstStep(s2, turn, [turn] + ([work] + [work]), s);
    FirstStep(s1, turn, [turn] + ([turn] + ([work] + [work])), s);
    run := [work] + ([turn] + ([turn] + ([turn] + ([work] + [work]))));
    FirstStep(Initial(size), work, [turn] + ([turn] + ([turn] + ([work] + [work]))), s);
  }

  /** Output can come before `Started`. */
  lemma OutputMayPrecedeStarted(size: Size, data: seq<byte>) returns (run: seq<Action>, s: State)
    ensures Reaches(Initial(size), run, s) && s.delivered == [Output(data), Started]
  {
    run, s := ReaderFirst(size, Data(data));
  }

  /** A failed reader raises the flag only after reporting, so `Failed` need not be last. */
  lemma FailedNeedNotBeLast(size: Size, message: string) returns (run: seq<Action>, s: State)
    ensures Reaches(Initial(size), run, s) && s.delivered == [Failed(message), Started]
  {
    run, s := ReaderFirst(size, ReadFault(message));
  }
}
