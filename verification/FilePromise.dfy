/**
 The life of a native file promise on macOS: drags live on the main thread, the
 transfer registry is shared with the monitors, and monitors reach the main thread
 only through closures posted to its event loop. All of it is one step relation;
 what a callback does while it holds the main thread is split where a monitor can
 get in between.
 */
module FilePromise {
  import opened Common

  type DragId = nat
  type TransferId = nat
  type HandlerId = nat

  /** One connection attempt of one tab. */
  datatype Owner = Owner(tab: nat, attempt: nat)

  /** An active drag: its promise's owner, transfer and held completion handler. */
  datatype Drag = Drag(owner: Owner, transfer: Option<TransferId>, completion: Option<HandlerId>)

  datatype Closure = CompleteDrag(drag: DragId, succeeded: bool) | CancelOwner(owner: Owner)

  /** Where the main thread is inside `queue_drag_download`. */
  datatype Main = Idle | Registering(drag: DragId) | Queueing(drag: DragId)

  /** What has happened so far, for stating properties only. */
  datatype History = History(
    given: map<HandlerId, DragId>,        // the drag each Finder handler was passed for
    calls: map<HandlerId, seq<bool>>,     // how each handler was called
    owners: map<DragId, Owner>,
    transfers: map<DragId, TransferId>,
    succeeded: set<TransferId>)           // transfers a monitor reported as successful

  datatype State = State(
    drags: map<DragId, Drag>,
    registry: map<TransferId, (DragId, Owner)>,
    main: Main,
    toPost: seq<Closure>,                 // monitors between leaving the registry and posting
    posted: seq<Closure>,
    history: History)

  const INITIAL: State := State(map[], map[], Idle, [], [], History(map[], map[], map[], map[], {}))

  // ----- What the callbacks do -----

  function Call(h: History, handler: HandlerId, succeeded: bool): History {
    h.(calls := h.calls[handler := (if handler in h.calls then h.calls[handler] else []) + [succeeded]])
  }

  /** Remove a drag and its registry entry and run the handler it holds. */
  function Complete(s: State, drag: DragId, succeeded: bool): State {
    if drag !in s.drags then s
    else
      var d := s.drags[drag];
      var history := if d.completion.Some? then Call(s.history, d.completion.value, succeeded) else s.history;
      var registry := if d.transfer.Some? then s.registry - {d.transfer.value} else s.registry;
      s.(drags := s.drags - {drag}, registry := registry, history := history)
  }

  function CompleteAll(s: State, drags: seq<DragId>): State
    decreases |drags|
  {
    if drags == [] then s else CompleteAll(Complete(s, drags[0], false), drags[1..])
  }

  function Begin(s: State, drag: DragId, owner: Owner): State {
    s.(drags := s.drags[drag := Drag(owner, None, None)],
       history := s.history.(owners := s.history.owners[drag := owner]))
  }

  predicate CanStart(s: State, drag: DragId) {
    drag in s.drags && s.drags[drag].transfer.None?
  }

  /** `PromiseRequest::start`: take the transfer and the handler, if one came along. */
  function Start(s: State, drag: DragId, transfer: TransferId, handler: Option<HandlerId>): State
    requires CanStart(s, drag)
  {
    s.(drags := s.drags[drag := s.drags[drag].(transfer := Some(transfer), completion := handler)],
       main := Registering(drag),
       history := s.history.(transfers := s.history.transfers[drag := transfer]))
  }

  /** Finder asks for the file. A request that cannot start answers its own handler. */
  function Fulfil(s: State, drag: DragId, targetOk: bool, handler: HandlerId, transfer: TransferId): State {
    var t := s.(history := s.history.(given := s.history.given[handler := drag]));
    if targetOk && CanStart(t, drag) then Start(t, drag, transfer, Some(handler))
    else
      var refused := t.(history := Call(t.history, handler, false));
      if CanStart(refused, drag) then Complete(refused, drag, false) else refused
  }

  function Register(s: State, drag: DragId, poisoned: bool): State {
    if poisoned || drag !in s.drags || s.drags[drag].transfer.None? then Complete(s, drag, false).(main := Idle)
    else s.(registry := s.registry[s.drags[drag].transfer.value := (drag, s.drags[drag].owner)], main := Queueing(drag))
  }

  function Queue(s: State, drag: DragId, queued: bool): State {
    (if queued then s else Complete(s, drag, false)).(main := Idle)
  }

  // ----- What the monitors do -----

  function RemoveAttempt(registry: map<TransferId, (DragId, Owner)>, owner: Owner): map<TransferId, (DragId, Owner)> {
    map t | t in registry && registry[t].1 != owner :: registry[t]
  }

  /** A transfer ended; consumed only if it is a registered promise. */
  function MonitorComplete(s: State, transfer: TransferId, succeeded: bool): State {
    var t := if succeeded then s.(history := s.history.(succeeded := s.history.succeeded + {transfer})) else s;
    if transfer in t.registry
    then t.(registry := t.registry - {transfer}, toPost := t.toPost + [CompleteDrag(t.registry[transfer].0, succeeded)])
    else t
  }

  function CancelAttempt(s: State, owner: Owner): State {
    s.(registry := RemoveAttempt(s.registry, owner), toPost := s.toPost + [CancelOwner(owner)])
  }

  function WithoutAt(cs: seq<Closure>, i: nat): seq<Closure>
    requires i < |cs|
  {
    cs[..i] + cs[i + 1..]
  }

  // ----- Steps and runs -----

  datatype Action =
    | BeginDrag(drag: DragId, owner: Owner)
    | PerformDrop(drag: DragId, transfer: TransferId)
    | FulfilPromise(drag: DragId, targetOk: bool, handler: HandlerId, transfer: TransferId)
    | RegisterStep(poisoned: bool)
    | QueueStep(queued: bool)
    | DragEnded(drag: DragId)
    | RunPosted(order: seq<DragId>)
    | TransferEnded(transfer: TransferId, succeeded: bool)
    | AttemptCancelled(owner: Owner)
    | Post(i: nat, loopGone: bool)

  ghost predicate FreshTransfer(s: State, t: TransferId) {
    && t !in s.registry && t !in s.history.succeeded
    && forall d :: d in s.history.transfers ==> s.history.transfers[d] != t
  }

  /** `order` lists the drags of `owner`, each once. */
  ghost predicate ListsDragsOf(s: State, owner: Owner, order: seq<DragId>) {
    && (forall d :: d in order ==> d in s.drags && s.drags[d].owner == owner)
    && (forall d :: d in s.drags && s.drags[d].owner == owner ==> d in order)
    && (forall i, j :: 0 <= i < j < |order| ==> order[i] != order[j])
  }

  ghost predicate Enabled(s: State, a: Action) {
    match a
    case BeginDrag(drag, _) => s.main == Idle && drag !in s.history.owners
    case PerformDrop(drag, transfer) => s.main == Idle && FreshTransfer(s, transfer)
    case FulfilPromise(_, _, handler, transfer) =>
      s.main == Idle && handler !in s.history.given && FreshTransfer(s, transfer)
    case RegisterStep(_) => s.main.Registering?
    case QueueStep(_) => s.main.Queueing?
    case DragEnded(_) => s.main == Idle
    case RunPosted(order) =>
      && s.main == Idle && s.posted != []
      && (s.posted[0].CancelOwner? ==> ListsDragsOf(s, s.posted[0].owner, order))
    case TransferEnded(transfer, succeeded) => true
    case AttemptCancelled(_) => true
    case Post(i, _) => i < |s.toPost|
  }

  function RunFirst(s: State, order: seq<DragId>): State
    requires s.posted != []
  {
    var t := s.(posted := s.posted[1..]);
    match s.posted[0]
    case CompleteDrag(drag, succeeded) => Complete(t, drag, succeeded)
    case CancelOwner(_) => CompleteAll(t, order)
  }

  ghost function Next(s: State, a: Action): State
    requires Enabled(s, a)
  {
    match a
    case BeginDrag(drag, owner) => Begin(s, drag, owner)
    case PerformDrop(drag, transfer) => if CanStart(s, drag) then Start(s, drag, transfer, None) else s
    case FulfilPromise(drag, targetOk, handler, transfer) => Fulfil(s, drag, targetOk, handler, transfer)
    case RegisterStep(poisoned) => Register(s, s.main.drag, poisoned)
    case QueueStep(queued) => Queue(s, s.main.drag, queued)
    case DragEnded(drag) => Complete(s, drag, false)
    case RunPosted(order) => RunFirst(s, order)
    case TransferEnded(transfer, succeeded) => MonitorComplete(s, transfer, succeeded)
    case AttemptCancelled(owner) => CancelAttempt(s, owner)
    case Post(i, loopGone) =>
      var closure := s.toPost[i];
      s.(toPost := WithoutAt(s.toPost, i), posted := if loopGone then s.posted else s.posted + [closure])
  }

  ghost predicate Reaches(from: State, run: seq<Action>, s: State)
    decreases |run|
  {
    if run == [] then s == from
    else Enabled(from, run[0]) && Reaches(Next(from, run[0]), run[1..], s)
  }

  // ----- The invariant -----

  ghost predicate Held(s: State, h: HandlerId)
    requires h in s.history.given
  {
    var d := s.history.given[h];
    d in s.drags && s.drags[d].completion == Some(h)
  }

  /** A handler is either held by its drag and uncalled, or called exactly once. */
  ghost predicate HandlersOk(s: State) {
    && (forall h :: h in s.history.calls ==> h in s.history.given)
    && (forall h :: h in s.history.given ==>
         if Held(s, h) then h !in s.history.calls
         else h in s.history.calls && |s.history.calls[h]| == 1)
  }

  ghost predicate DragsOk(s: State) {
    forall d :: d in s.drags ==>
      && d in s.history.owners && s.history.owners[d] == s.drags[d].owner
      && (match s.drags[d].transfer
          case None => d !in s.history.transfers && s.drags[d].completion == None
          case Some(t) => d in s.history.transfers && s.history.transfers[d] == t)
      && (s.drags[d].completion.Some? ==>
           s.drags[d].completion.value in s.history.given && s.history.given[s.drags[d].completion.value] == d)
  }

  ghost predicate TransfersOk(s: State) {
    && (forall d :: d in s.history.transfers ==> d in s.history.owners)
    && (forall d, e ::
          d in s.history.transfers && e in s.history.transfers && s.history.transfers[d] == s.history.transfers[e] ==>
          d == e)
  }

  ghost predicate RegistryOk(s: State) {
    forall t :: t in s.registry ==>
      && s.registry[t].0 in s.drags
      && s.drags[s.registry[t].0].transfer == Some(t) && s.drags[s.registry[t].0].owner == s.registry[t].1
  }

  ghost predicate TransferSucceeded(h: History, d: DragId) {
    d in h.transfers && h.transfers[d] in h.succeeded
  }

  ghost predicate ClosuresOk(cs: seq<Closure>, h: History) {
    forall i :: 0 <= i < |cs| && cs[i].CompleteDrag? && cs[i].succeeded ==> TransferSucceeded(h, cs[i].drag)
  }

  ghost predicate SuccessesOk(s: State) {
    forall h :: h in s.history.calls && true in s.history.calls[h] ==>
      h in s.history.given && TransferSucceeded(s.history, s.history.given[h])
  }

  ghost predicate MainOk(s: State) {
    s.main != Idle ==> s.main.drag in s.drags && s.drags[s.main.drag].transfer.Some?
  }

  ghost predicate Inv(s: State) {
    && HandlersOk(s) && DragsOk(s) && TransfersOk(s) && RegistryOk(s)
    && ClosuresOk(s.toPost, s.history) && ClosuresOk(s.posted, s.history)
    && SuccessesOk(s) && MainOk(s)
  }

  lemma CompleteKeepsHandlers(s: State, drag: DragId, succeeded: bool)
    requires Inv(s)
    requires succeeded && drag in s.drags ==> TransferSucceeded(s.history, drag)
    ensures HandlersOk(Complete(s, drag, succeeded)) && SuccessesOk(Complete(s, drag, succeeded))
  {
    hide RegistryOk, ClosuresOk, TransfersOk;
  }

  lemma CompleteKeepsTables(s: State, drag: DragId, succeeded: bool)
    requires Inv(s)
    ensures DragsOk(Complete(s, drag, succeeded)) && RegistryOk(Complete(s, drag, succeeded))
  {
    hide HandlersOk, SuccessesOk, ClosuresOk;
  }

  lemma CompleteKeepsInv(s: State, drag: DragId, succeeded: bool)
    requires Inv(s) && s.main in [Idle, Registering(drag), Queueing(drag)]
    requires succeeded && drag in s.drags ==> TransferSucceeded(s.history, drag)
    ensures Inv(Complete(s, drag, succeeded).(main := Idle))
  {
    CompleteKeepsHandlers(s, drag, succeeded);
    CompleteKeepsTables(s, drag, succeeded);
    hide HandlersOk, SuccessesOk, DragsOk, RegistryOk;
  }

  lemma {:induction false} CompleteAllKeepsInv(s: State, drags: seq<DragId>)
    requires Inv(s) && s.main == Idle
    ensures Inv(CompleteAll(s, drags)) && CompleteAll(s, drags).main == Idle
    decreases |drags|
  {
    if drags != [] {
      CompleteKeepsInv(s, drags[0], false);
      CompleteAllKeepsInv(Complete(s, drags[0], false), drags[1..]);
    }
  }

  lemma BeginKeepsInv(s: State, drag: DragId, owner: Owner)
    requires Inv(s) && Enabled(s, BeginDrag(drag, owner))
    ensures Inv(Begin(s, drag, owner))
  {
  }

  /** Starting a drag with a handler that was just passed for it, or with none. */
  lemma StartKeepsInv(s: State, drag: DragId, transfer: TransferId, handler: Option<HandlerId>)
    requires Inv(s) && s.main == Idle && FreshTransfer(s, transfer) && CanStart(s, drag)
    requires handler.Some? ==> handler.value !in s.history.given
    ensures var t := if handler.None? then s
            else s.(history := s.history.(given := s.history.given[handler.value := drag]));
      Inv(Start(t, drag, transfer, handler))
  {
    StartKeepsHandlers(s, drag, transfer, handler);
    StartKeepsTables(s, drag, transfer, handler);
    StartKeepsRegistry(s, drag, transfer, handler);
    hide HandlersOk, SuccessesOk, DragsOk, RegistryOk, TransfersOk, ClosuresOk;
  }

  lemma StartKeepsHandlers(s: State, drag: DragId, transfer: TransferId, handler: Option<HandlerId>)
    requires Inv(s) && CanStart(s, drag)
    requires handler.Some? ==> handler.value !in s.history.given
    ensures var t := if handler.None? then s
            else s.(history := s.history.(given := s.history.given[handler.value := drag]));
      HandlersOk(Start(t, drag, transfer, handler)) && SuccessesOk(Start(t, drag, transfer, handler))
  {
    hide RegistryOk, TransfersOk, ClosuresOk;
  }

  lemma StartKeepsTables(s: State, drag: DragId, transfer: TransferId, handler: Option<HandlerId>)
    requires Inv(s) && s.main == Idle && FreshTransfer(s, transfer) && CanStart(s, drag)
    requires handler.Some? ==> handler.value !in s.history.given
    ensures var t := if handler.None? then s
            else s.(history := s.history.(given := s.history.given[handler.value := drag]));
      var u := Start(t, drag, transfer, handler);
      DragsOk(u) && TransfersOk(u)
  {
    hide HandlersOk, SuccessesOk, RegistryOk, ClosuresOk;
  }

  lemma StartKeepsRegistry(s: State, drag: DragId, transfer: TransferId, handler: Option<HandlerId>)
    requires Inv(s) && FreshTransfer(s, transfer) && CanStart(s, drag)
    requires handler.Some? ==> handler.value !in s.history.given
    ensures var t := if handler.None? then s
            else s.(history := s.history.(given := s.history.given[handler.value := drag]));
      var u := Start(t, drag, transfer, handler);
      RegistryOk(u) && ClosuresOk(u.toPost, u.history) && ClosuresOk(u.posted, u.history)
  {
    hide HandlersOk, SuccessesOk, TransfersOk;
  }

  /** A handler refused on the spot is called once and belongs to no drag. */
  lemma RefusalKeepsInv(s: State, drag: DragId, handler: HandlerId)
    requires Inv(s) && s.main == Idle && handler !in s.history.given
    ensures Inv(s.(history := Call(s.history.(given := s.history.given[handler := drag]), handler, false)))
  {
    var t := s.(history := Call(s.history.(given := s.history.given[handler := drag]), handler, false));
    assert HandlersOk(t);
    hide HandlersOk;
  }

  lemma MonitorKeepsInv(s: State, transfer: TransferId, succeeded: bool)
    requires Inv(s)
    ensures Inv(MonitorComplete(s, transfer, succeeded))
  {
    hide HandlersOk;
    var t := MonitorComplete(s, transfer, succeeded);
    assert HandlersOk(t) by { SameHandlers(s, t); }
  }

  lemma SameHandlers(s: State, t: State)
    requires HandlersOk(s) && t.drags == s.drags && t.history.given == s.history.given
             && t.history.calls == s.history.calls
    ensures HandlersOk(t)
  {
  }

  lemma CancelKeepsInv(s: State, owner: Owner)
    requires Inv(s)
    ensures Inv(CancelAttempt(s, owner))
  {
    hide HandlersOk;
    SameHandlers(s, CancelAttempt(s, owner));
  }

  lemma PostKeepsInv(s: State, a: Action)
    requires Inv(s) && a.Post? && Enabled(s, a)
    ensures Inv(Next(s, a))
  {
    hide HandlersOk;
    SameHandlers(s, Next(s, a));
  }

  /** Registering a started transfer, or queueing its job. */
  lemma LaunchKeepsInv(s: State, a: Action)
    requires Inv(s) && (a.RegisterStep? || a.QueueStep?) && Enabled(s, a)
    ensures Inv(Next(s, a))
  {
    hide Complete, HandlersOk;
    CompleteKeepsInv(s, s.main.drag, false);
    var t := Next(s, a);
    if t.drags == s.drags && t.history == s.history {
      SameHandlers(s, t);
    }
  }

  lemma DropKeepsInv(s: State, drag: DragId, transfer: TransferId)
    requires Inv(s) && Enabled(s, PerformDrop(drag, transfer))
    ensures Inv(Next(s, PerformDrop(drag, transfer)))
  {
    hide HandlersOk, SuccessesOk, RegistryOk, TransfersOk, ClosuresOk;
    if CanStart(s, drag) {
      StartKeepsInv(s, drag, transfer, None);
    }
  }

  lemma NextKeepsInv(s: State, a: Action)
    requires Inv(s) && Enabled(s, a)
    ensures Inv(Next(s, a))
  {
    hide Inv;
    match a
    case BeginDrag(drag, owner) => BeginKeepsInv(s, drag, owner);
    case PerformDrop(drag, transfer) => DropKeepsInv(s, drag, transfer);
    case FulfilPromise(drag, targetOk, handler, transfer) => FulfilKeepsInv(s, drag, targetOk, handler, transfer);
    case RegisterStep(_) => LaunchKeepsInv(s, a);
    case QueueStep(_) => LaunchKeepsInv(s, a);
    case DragEnded(drag) =>
      CompleteKeepsInv(s, drag, false);
      assert Complete(s, drag, false).(main := Idle) == Complete(s, drag, false);
    case RunPosted(order) => RunFirstKeepsInv(s, order);
    case TransferEnded(transfer, succeeded) => MonitorKeepsInv(s, transfer, succeeded);
    case AttemptCancelled(owner) => CancelKeepsInv(s, owner);
    case Post(_, _) => PostKeepsInv(s, a);
  }

  lemma FulfilKeepsInv(s: State, drag: DragId, targetOk: bool, handler: HandlerId, transfer: TransferId)
    requires Inv(s) && Enabled(s, FulfilPromise(drag, targetOk, handler, transfer))
    ensures Inv(Fulfil(s, drag, targetOk, handler, transfer))
  {
    if targetOk && CanStart(s, drag) {
      StartKeepsInv(s, drag, transfer, Some(handler));
    } else {
      RefusalKeepsInv(s, drag, handler);
      var refused := s.(history := Call(s.history.(given := s.history.given[handler := drag]), handler, false));
      CompleteKeepsInv(refused, drag, false);
      assert Complete(refused, drag, false).(main := Idle) == Complete(refused, drag, false);
    }
  }

  lemma RunFirstKeepsInv(s: State, order: seq<DragId>)
    requires Inv(s) && s.main == Idle && s.posted != []
    ensures Inv(RunFirst(s, order))
  {
    var t := s.(posted := s.posted[1..]);
    SameHandlers(s, t);
    assert Inv(t);
    if s.posted[0].CompleteDrag? {
      CompleteKeepsInv(t, s.posted[0].drag, s.posted[0].succeeded);
      assert Complete(t, s.posted[0].drag, s.posted[0].succeeded).(main := Idle) ==
             Complete(t, s.posted[0].drag, s.posted[0].succeeded);
    } else {
      CompleteAllKeepsInv(t, order);
    }
  }

  lemma {:induction false} RunKeepsInv(from: State, run: seq<Action>, s: State)
    requires Inv(from) && Reaches(from, run, s)
    ensures Inv(s)
    decreases |run|
  {
    if run != [] {
      NextKeepsInv(from, run[0]);
      RunKeepsInv(Next(from, run[0]), run[1..], s);
    }
  }

  /**
   In every interleaving: a Finder handler runs at most once; once its drag is gone it
   has run exactly once; it reports success only if that drag's own transfer succeeded.
   */
  lemma HandlersRunExactlyOnce(run: seq<Action>, s: State, h: HandlerId)
    requires Reaches(INITIAL, run, s) && h in s.history.given
    ensures h in s.history.calls ==> |s.history.calls[h]| == 1
    ensures s.history.given[h] !in s.drags ==> h in s.history.calls
    ensures h in s.history.calls && s.history.calls[h] == [true] ==>
      var d := s.history.given[h]; d in s.history.transfers && s.history.transfers[d] in s.history.succeeded
  {
    RunKeepsInv(INITIAL, run, s);
    assert Held(s, h) || !Held(s, h);
  }

  // ----- One attempt's cancellation leaves the others alone -----

  /** `t` differs from `s` only in drags of `owner` and what belongs to them. */
  ghost predicate OnlyTouches(s: State, t: State, owner: Owner) {
    && t.history.given == s.history.given && t.history.owners == s.history.owners
    && (forall d :: d in t.drags ==> d in s.drags && t.drags[d] == s.drags[d])
    && (forall d :: d in s.drags && s.drags[d].owner != owner ==> d in t.drags)
    && (forall x :: x in t.registry ==> x in s.registry && t.registry[x] == s.registry[x])
    && (forall x :: x in s.registry && s.registry[x].1 != owner ==> x in t.registry)
    && (forall h :: h in s.history.given && !BelongsTo(s, h, owner) ==>
         (h in t.history.calls <==> h in s.history.calls)
         && (h in s.history.calls ==> t.history.calls[h] == s.history.calls[h]))
  }

  ghost predicate BelongsTo(s: State, h: HandlerId, owner: Owner)
    requires h in s.history.given
  {
    var d := s.history.given[h];
    d in s.history.owners && s.history.owners[d] == owner
  }

  lemma CompleteOnlyTouches(s: State, drag: DragId, owner: Owner)
    requires Inv(s) && drag in s.drags && s.drags[drag].owner == owner
    ensures OnlyTouches(s, Complete(s, drag, false), owner)
  {
    hide HandlersOk, SuccessesOk, ClosuresOk;
  }

  lemma OnlyTouchesOnward(s: State, t: State, u: State, owner: Owner)
    requires OnlyTouches(s, t, owner) && OnlyTouches(t, u, owner)
    ensures OnlyTouches(s, u, owner)
  {
    assert forall h :: h in s.history.given ==> (BelongsTo(s, h, owner) <==> BelongsTo(t, h, owner));
  }

  lemma {:induction false} CompleteAllOnlyTouches(s: State, drags: seq<DragId>, owner: Owner)
    requires Inv(s) && s.main == Idle
    requires forall d :: d in drags ==> d in s.drags && s.drags[d].owner == owner
    requires forall i, j :: 0 <= i < j < |drags| ==> drags[i] != drags[j]
    ensures OnlyTouches(s, CompleteAll(s, drags), owner)
    ensures forall d :: d in drags ==> d !in CompleteAll(s, drags).drags
    decreases |drags|
  {
    if drags != [] {
      var t := Complete(s, drags[0], false);
      CompleteKeepsInv(s, drags[0], false);
      CompleteOnlyTouches(s, drags[0], owner);
      forall d | d in drags[1..] ensures d in t.drags && t.drags[d].owner == owner {
        assert d in drags;
      }
      assert forall i, j :: 0 <= i < j < |drags[1..]| ==> drags[1..][i] != drags[1..][j];
      CompleteAllOnlyTouches(t, drags[1..], owner);
      OnlyTouchesOnward(s, t, CompleteAll(t, drags[1..]), owner);
      forall d | d in drags ensures d !in CompleteAll(s, drags).drags {
        assert d == drags[0] || d in drags[1..];
      }
    }
  }

  /**
   Cancelling an attempt, in both halves, leaves every other attempt's drags, registry
   entries and handlers as they were; its closure leaves none of its own drags active.
   */
  lemma CancellationIsIsolated(run: seq<Action>, s: State, owner: Owner, order: seq<DragId>)
    requires Reaches(INITIAL, run, s)
    ensures OnlyTouches(s, CancelAttempt(s, owner), owner) && CancelAttempt(s, owner).drags == s.drags
    ensures Enabled(s, RunPosted(order)) && s.posted[0] == CancelOwner(owner) ==>
      && OnlyTouches(s, RunFirst(s, order), owner)
      && forall d :: d in RunFirst(s, order).drags ==> RunFirst(s, order).drags[d].owner != owner
  {
    RunKeepsInv(INITIAL, run, s);
    CancelOnlyTouches(s, owner);
    if Enabled(s, RunPosted(order)) && s.posted[0] == CancelOwner(owner) {
      CancelClosureOnlyTouches(s, owner, order);
    }
  }

  lemma CancelOnlyTouches(s: State, owner: Owner)
    requires Inv(s)
    ensures OnlyTouches(s, CancelAttempt(s, owner), owner)
  {
  }

  lemma CancelClosureOnlyTouches(s: State, owner: Owner, order: seq<DragId>)
    requires Inv(s) && Enabled(s, RunPosted(order)) && s.posted[0] == CancelOwner(owner)
    ensures OnlyTouches(s, RunFirst(s, order), owner)
    ensures forall d :: d in RunFirst(s, order).drags ==> RunFirst(s, order).drags[d].owner != owner
  {
    var t := s.(posted := s.posted[1..]);
    SameHandlers(s, t);
    hide HandlersOk, SuccessesOk, DragsOk, RegistryOk, TransfersOk;
    CompleteAllOnlyTouches(t, order, owner);
    var u := CompleteAll(t, order);
    SameTables(s, t, u, owner);
    forall d | d in u.drags ensures u.drags[d].owner != owner {
      assert d in t.drags && u.drags[d] == t.drags[d];
    }
  }

  lemma SameTables(s: State, t: State, u: State, owner: Owner)
    requires t == s.(posted := t.posted) && OnlyTouches(t, u, owner)
    ensures OnlyTouches(s, u, owner)
  {
    assert forall h :: h in s.history.given ==> (BelongsTo(s, h, owner) <==> BelongsTo(t, h, owner));
  }
}
