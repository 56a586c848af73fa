/**
 The fan-out protocol of the audio router as a step relation: any number of
 producers dispatching frames under the read lock, one drainer per route, and
 any mix of RemoveRoute, RemoveAllRoutes, Close and panicking drainers tearing
 routes down.

 A run is a sequence of atomic actions. Each write-locked section of the source
 is one action, enabled only while no dispatcher holds the read lock; every
 other access to shared state (an atomic counter, a channel operation, a
 channel close) is an action of its own, so all interleavings are covered.
 */
module RouterProtocol {
  import opened Runs
  import opened Sequences

  // Bounded channel between Dispatch and a drainer.
  const INBOX_CAPACITY: nat := 64

  type FrameId = nat
  type RouteId = nat
  type RemoverId = nat

  /** Where the producer of a frame is. */
  datatype DispatchPc =
    | Created                                        // reference created, Dispatch not entered
    | Looping(todo: set<RouteId>)                    // read lock held, routes still to offer to
    | Retained(route: RouteId, todo: set<RouteId>)   // Retain done, send not tried yet
    | Full(route: RouteId, todo: set<RouteId>)       // inbox was full, retain not undone yet
    | Dispatched                                     // read lock released, producer's own reference left
    | Finished                                       // producer has released its reference
  {
    predicate Reading() {
      Looping? || Retained? || Full?
    }

    function Pending(): set<RouteId> {
      if Looping? then todo
      else if Retained? || Full? then {route} + todo
      else {}
    }

    function Unsent(): nat {
      if Retained? || Full? then 1 else 0
    }

    function ProducerHolds(): nat {
      if Finished? then 0 else 1
    }
  }

  /** A frame with its reference counter; `fired` counts runs of the release closure. */
  datatype Frame = Frame(src: string, pc: DispatchPc, remaining: int, fired: nat, offered: set<RouteId>)
  {
    function Retain(): Frame {
      this.(remaining := remaining + 1)
    }

    function Release(): Frame {
      this.(remaining := remaining - 1, fired := if remaining == 1 then fired + 1 else fired)
    }
  }

  /** Where the drainer goroutine of a route is. */
  datatype DrainerPc =
    | Selecting                                 // at the select statement
    | Handling(frame: FrameId)                  // in handleRouteFrame, deferred Release not run yet
    | Panicked                                  // unwinding, about to take the write lock
    | Draining(removed: bool)                   // in drainInboxRefs
    | Releasing(frame: FrameId, removed: bool)  // popped by drainInboxRefs, not released yet
    | Disposing                                 // panic path that owns the route: closes its resources
    | Exiting                                   // about to close `stopped`
    | Exited                                    // `stopped` is closed
  {
    predicate Holds(f: FrameId) {
      (Handling? || Releasing?) && frame == f
    }

    predicate LeftLoop() {
      Draining? || Releasing? || Disposing? || Exiting? || Exited?
    }

    predicate Drained() {
      Disposing? || Exiting? || Exited?
    }

    predicate OwnsRoute() {
      (Draining? && removed) || (Releasing? && removed) || Disposing?
    }
  }

  /** History variable: which party is entitled to tear the route down. No guard reads it. */
  datatype Owner = InTable | Removing(t: RemoverId) | SelfRemoved | Retired

  datatype Route = Route(
    src: string,
    consumer: string,
    late: bool,               // history: linked by an AddRoute that overlapped Close
    inbox: seq<FrameId>,
    pc: DrainerPc,
    owner: Owner,
    doneClosed: nat,          // how often the done channel was closed; twice would panic
    disposed: nat,            // how often the resampler and consumer were closed
    timedOut: bool,           // history: the wait for its drainer was given up
    sent: seq<FrameId>,       // history: successful sends, in order
    dropped: seq<FrameId>,    // history: sends refused by a full inbox
    handled: seq<FrameId>,    // history: frames that reached handleRouteFrame, in order
    discarded: seq<FrameId>)  // history: frames popped by drainInboxRefs, in order

  datatype RemoverPc = CancelNext | SignalNext | Waiting | DisposeNext

  /** A caller of stopRoute, with the routes it unlinked and has not stopped yet. */
  datatype Remover = Remover(todo: seq<RouteId>, pc: RemoverPc)

  datatype State = State(
    frames: seq<Frame>,
    routes: seq<Route>,
    removers: seq<Remover>,
    table: set<RouteId>,     // the routes map
    readers: set<FrameId>,   // holders of the read lock
    cleared: bool,           // history: Close has swapped the map
    cancelled: bool,         // the router context
    adders: nat)             // AddRoute calls past the closed check, not at the lock yet

  function Init(): State {
    State([], [], [], {}, {}, false, false, 0)
  }

  /** Producers and Dispatch. */
  datatype DispatchAction =
    | NewFrame(src: string)
    | Enter(f: FrameId)
    | RetainFor(f: FrameId, r: RouteId)
    | Send(f: FrameId)
    | TakeDefault(f: FrameId)
    | UndoRetain(f: FrameId)
    | Leave(f: FrameId)
    | ProducerRelease(f: FrameId)

  /** AddRoute, and the unlinking halves of RemoveRoute, RemoveAllRoutes and Close. */
  datatype TableAction =
    | AddCheck
    | AddLink(newSrc: string, newConsumer: string)
    | AddFail
    | RemoveRoute(r: RouteId)
    | RemoveAllRoutes(source: string, order: seq<RouteId>)
    | Close(order: seq<RouteId>)

  /** Close's cancel call, and stopRoute. */
  datatype StopAction =
    | Cancel(t: RemoverId)
    | Signal(t: RemoverId)
    | SeeStopped(t: RemoverId)
    | Timeout(t: RemoverId)
    | Dispose(t: RemoverId)

  datatype DrainAction =
    | Receive(r: RouteId)
    | HandleReturn(r: RouteId)
    | HandlePanic(r: RouteId)
    | PanicUnlink(r: RouteId)
    | SeeDone(r: RouteId)
    | SeeCancelled(r: RouteId)
    | Pop(r: RouteId)
    | ReleasePopped(r: RouteId)
    | InboxEmpty(r: RouteId)
    | SelfDispose(r: RouteId)
    | CloseStopped(r: RouteId)

  datatype Action =
    | OnDispatch(dispatch: DispatchAction)
    | OnTable(table: TableAction)
    | OnStop(stop: StopAction)
    | OnDrain(drain: DrainAction)

  /** The routes of the table for one source. */
  function RoutesOf(s: State, src: string): set<RouteId> {
    set r | r in s.table && r < |s.routes| && s.routes[r].src == src
  }

  predicate Enumerates(order: seq<RouteId>, rs: set<RouteId>) {
    && NoDuplicates(order)
    && (forall r :: r in order ==> r in rs)
    && (forall r :: r in rs ==> r in order)
  }

  predicate FrameAt(s: State, f: FrameId) { f < |s.frames| }
  predicate DrainerAt(s: State, r: RouteId) { r < |s.routes| }
  predicate StopperAt(s: State, t: RemoverId) {
    t < |s.removers| && s.removers[t].todo != [] && s.removers[t].todo[0] < |s.routes|
  }

  /** Go takes the default arm of a select exactly when no send is possible, that is when the channel is full. */
  predicate DispatchEnabled(s: State, a: DispatchAction) {
    match a
    case NewFrame(_) => true
    case Enter(f) => FrameAt(s, f) && s.frames[f].pc.Created?
    case RetainFor(f, r) => FrameAt(s, f) && s.frames[f].pc.Looping? && r in s.frames[f].pc.todo
    case Send(f) =>
      FrameAt(s, f) && s.frames[f].pc.Retained? && DrainerAt(s, s.frames[f].pc.route)
      && |s.routes[s.frames[f].pc.route].inbox| < INBOX_CAPACITY
    case TakeDefault(f) =>
      FrameAt(s, f) && s.frames[f].pc.Retained? && DrainerAt(s, s.frames[f].pc.route)
      && |s.routes[s.frames[f].pc.route].inbox| == INBOX_CAPACITY
    case UndoRetain(f) => FrameAt(s, f) && s.frames[f].pc.Full? && DrainerAt(s, s.frames[f].pc.route)
    case Leave(f) => FrameAt(s, f) && s.frames[f].pc.Looping? && s.frames[f].pc.todo == {}
    case ProducerRelease(f) => FrameAt(s, f) && s.frames[f].pc.Dispatched?
  }

  predicate TableEnabled(s: State, a: TableAction) {
    match a
    case AddCheck => !s.cancelled
    case AddLink(src, consumer) =>
      s.adders > 0 && s.readers == {}
      && forall r :: r in RoutesOf(s, src) ==> s.routes[r].consumer != consumer
    case AddFail => s.adders > 0
    case RemoveRoute(r) => DrainerAt(s, r) && r in s.table && s.readers == {}
    case RemoveAllRoutes(src, order) => s.readers == {} && Enumerates(order, RoutesOf(s, src))
    case Close(order) => s.readers == {} && Enumerates(order, s.table)
  }

  predicate StopEnabled(s: State, a: StopAction) {
    match a
    case Cancel(t) => t < |s.removers| && s.removers[t].pc.CancelNext?
    case Signal(t) => StopperAt(s, t) && s.removers[t].pc.SignalNext?
    case SeeStopped(t) =>
      StopperAt(s, t) && s.removers[t].pc.Waiting? && s.routes[s.removers[t].todo[0]].pc.Exited?
    case Timeout(t) => StopperAt(s, t) && s.removers[t].pc.Waiting?
    case Dispose(t) => StopperAt(s, t) && s.removers[t].pc.DisposeNext?
  }

  predicate DrainEnabled(s: State, a: DrainAction) {
    match a
    case Receive(r) => DrainerAt(s, r) && s.routes[r].pc.Selecting? && s.routes[r].inbox != []
    case HandleReturn(r) => DrainerAt(s, r) && s.routes[r].pc.Handling? && FrameAt(s, s.routes[r].pc.frame)
    case HandlePanic(r) => DrainerAt(s, r) && s.routes[r].pc.Handling? && FrameAt(s, s.routes[r].pc.frame)
    case PanicUnlink(r) => DrainerAt(s, r) && s.routes[r].pc.Panicked? && s.readers == {}
    case SeeDone(r) => DrainerAt(s, r) && s.routes[r].pc.Selecting? && s.routes[r].doneClosed > 0
    case SeeCancelled(r) => DrainerAt(s, r) && s.routes[r].pc.Selecting? && s.cancelled
    case Pop(r) => DrainerAt(s, r) && s.routes[r].pc.Draining? && s.routes[r].inbox != []
    case ReleasePopped(r) => DrainerAt(s, r) && s.routes[r].pc.Releasing? && FrameAt(s, s.routes[r].pc.frame)
    case InboxEmpty(r) => DrainerAt(s, r) && s.routes[r].pc.Draining? && s.routes[r].inbox == []
    case SelfDispose(r) => DrainerAt(s, r) && s.routes[r].pc.Disposing?
    case CloseStopped(r) => DrainerAt(s, r) && s.routes[r].pc.Exiting?
  }

  predicate Enabled(s: State, a: Action) {
    match a
    case OnDispatch(d) => DispatchEnabled(s, d)
    case OnTable(m) => TableEnabled(s, m)
    case OnStop(p) => StopEnabled(s, p)
    case OnDrain(e) => DrainEnabled(s, e)
  }

  // Small updates the actions are built from.

  function SetFrame(s: State, f: FrameId, fr: Frame): State
    requires FrameAt(s, f)
  {
    s.(frames := s.frames[f := fr])
  }

  function SetRoute(s: State, r: RouteId, rt: Route): State
    requires DrainerAt(s, r)
  {
    s.(routes := s.routes[r := rt])
  }

  function SetPc(s: State, r: RouteId, pc: DrainerPc): State
    requires DrainerAt(s, r)
  {
    SetRoute(s, r, s.routes[r].(pc := pc))
  }

  function SetRemover(s: State, t: RemoverId, rm: Remover): State
    requires t < |s.removers|
  {
    s.(removers := s.removers[t := rm])
  }

  /** Hands every route of `gone` to remover `t`. */
  function Take(routes: seq<Route>, gone: set<RouteId>, t: RemoverId): (out: seq<Route>)
    ensures |out| == |routes|
    ensures forall i :: 0 <= i < |out| ==>
      out[i] == if i in gone then routes[i].(owner := Removing(t)) else routes[i]
  {
    seq(|routes|, i requires 0 <= i < |routes| => if i in gone then routes[i].(owner := Removing(t)) else routes[i])
  }

  /** A write-locked section that unlinks `gone` and starts a remover that will stop `order`. */
  function Unlink(s: State, gone: set<RouteId>, order: seq<RouteId>, pc: RemoverPc): State {
    s.(table := s.table - gone,
       routes := Take(s.routes, gone, |s.removers|),
       removers := s.removers + [Remover(order, pc)])
  }

  /** The head of remover t's list is done with, one way or the other. */
  function NextRoute(s: State, t: RemoverId, rt: Route): State
    requires StopperAt(s, t)
  {
    var r := s.removers[t].todo[0];
    var s1 := SetRoute(s, r, rt.(owner := Retired));
    SetRemover(s1, t, Remover(s.removers[t].todo[1..], SignalNext))
  }

  function DispatchStep(s: State, a: DispatchAction): State
    requires DispatchEnabled(s, a)
  {
    match a
    case NewFrame(src) => s.(frames := s.frames + [Frame(src, Created, 1, 0, {})])
    case Enter(f) =>
      var todo := RoutesOf(s, s.frames[f].src);
      SetFrame(s, f, s.frames[f].(pc := Looping(todo), offered := todo)).(readers := s.readers + {f})
    case RetainFor(f, r) =>
      SetFrame(s, f, s.frames[f].Retain().(pc := Retained(r, s.frames[f].pc.todo - {r})))
    case Send(f) =>
      var r := s.frames[f].pc.route;
      var s1 := SetFrame(s, f, s.frames[f].(pc := Looping(s.frames[f].pc.todo)));
      SetRoute(s1, r, s.routes[r].(inbox := s.routes[r].inbox + [f], sent := s.routes[r].sent + [f]))
    case TakeDefault(f) =>
      SetFrame(s, f, s.frames[f].(pc := Full(s.frames[f].pc.route, s.frames[f].pc.todo)))
    case UndoRetain(f) =>
      var r := s.frames[f].pc.route;
      var s1 := SetFrame(s, f, s.frames[f].Release().(pc := Looping(s.frames[f].pc.todo)));
      SetRoute(s1, r, s.routes[r].(dropped := s.routes[r].dropped + [f]))
    case Leave(f) => SetFrame(s, f, s.frames[f].(pc := Dispatched)).(readers := s.readers - {f})
    case ProducerRelease(f) => SetFrame(s, f, s.frames[f].Release().(pc := Finished))
  }

  function TableStep(s: State, a: TableAction): State
    requires TableEnabled(s, a)
  {
    match a
    case AddCheck => s.(adders := s.adders + 1)
    case AddLink(src, consumer) =>
      s.(adders := s.adders - 1,
         table := s.table + {|s.routes|},
         routes := s.routes + [Route(src, consumer, s.cleared, [], Selecting, InTable, 0, 0, false, [], [], [], [])])
    case AddFail => s.(adders := s.adders - 1)
    case RemoveRoute(r) => Unlink(s, {r}, [r], SignalNext)
    case RemoveAllRoutes(src, order) => Unlink(s, RoutesOf(s, src), order, SignalNext)
    case Close(order) => Unlink(s, s.table, order, CancelNext).(cleared := true)
  }

  function StopStep(s: State, a: StopAction): State
    requires StopEnabled(s, a)
  {
    match a
    case Cancel(t) => SetRemover(s, t, s.removers[t].(pc := SignalNext)).(cancelled := true)
    case Signal(t) =>
      var r := s.removers[t].todo[0];
      var s1 := SetRoute(s, r, s.routes[r].(doneClosed := s.routes[r].doneClosed + 1));
      SetRemover(s1, t, s.removers[t].(pc := Waiting))
    case SeeStopped(t) => SetRemover(s, t, s.removers[t].(pc := DisposeNext))
    case Timeout(t) => NextRoute(s, t, s.routes[s.removers[t].todo[0]].(timedOut := true))
    case Dispose(t) =>
      var rt := s.routes[s.removers[t].todo[0]];
      NextRoute(s, t, rt.(disposed := rt.disposed + 1))
  }

  function DrainStep(s: State, a: DrainAction): State
    requires DrainEnabled(s, a)
  {
    match a
    case Receive(r) =>
      var rt := s.routes[r];
      SetRoute(s, r, rt.(inbox := rt.inbox[1..], pc := Handling(rt.inbox[0]), handled := rt.handled + [rt.inbox[0]]))
    case HandleReturn(r) =>
      var f := s.routes[r].pc.frame;
      SetPc(SetFrame(s, f, s.frames[f].Release()), r, Selecting)
    case HandlePanic(r) =>
      var f := s.routes[r].pc.frame;
      SetPc(SetFrame(s, f, s.frames[f].Release()), r, Panicked)
    case PanicUnlink(r) =>
      var own := r in s.table;
      var rt := s.routes[r].(pc := Draining(own));
      SetRoute(s, r, if own then rt.(owner := SelfRemoved) else rt).(table := s.table - {r})
    case SeeDone(r) => SetPc(s, r, Draining(false))
    case SeeCancelled(r) => SetPc(s, r, Draining(false))
    case Pop(r) =>
      var rt := s.routes[r];
      SetRoute(s, r, rt.(inbox := rt.inbox[1..], pc := Releasing(rt.inbox[0], rt.pc.removed),
                         discarded := rt.discarded + [rt.inbox[0]]))
    case ReleasePopped(r) =>
      var f := s.routes[r].pc.frame;
      SetPc(SetFrame(s, f, s.frames[f].Release()), r, Draining(s.routes[r].pc.removed))
    case InboxEmpty(r) => SetPc(s, r, if s.routes[r].pc.removed then Disposing else Exiting)
    case SelfDispose(r) =>
      SetRoute(s, r, s.routes[r].(pc := Exiting, owner := Retired, disposed := s.routes[r].disposed + 1))
    case CloseStopped(r) => SetPc(s, r, Exited)
  }

  function Apply(s: State, a: Action): State
    requires Enabled(s, a)
  {
    match a
    case OnDispatch(d) => DispatchStep(s, d)
    case OnTable(m) => TableStep(s, m)
    case OnStop(p) => StopStep(s, p)
    case OnDrain(e) => DrainStep(s, e)
  }

  /** The state a run of actions from `s` ends in, if every action is enabled in turn. */
  function Run(s: State, run: seq<Action>): Outcome<State>
    decreases |run|
  {
    if run == [] then Reached(s)
    else if Enabled(s, run[0]) then Run(Apply(s, run[0]), run[1..])
    else Stuck
  }

  ghost predicate Reachable(s: State) {
    exists run :: Run(Init(), run) == Reached(s)
  }
}
