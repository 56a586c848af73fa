/**
 Sound-level registration: registrars, the drain-and-rebuild path of a settings
 reload and source removal share a tracking map under one mutex, but call the
 router outside it. A sound-level consumer id is a function of the source id,
 so the router holds at most one such route per source; `routes` is the set of
 sources that have one.
 */
module SoundLevelProtocol {
  import opened Runs
  import opened Wrappers

  type Source(==,!new) = string
  type ThreadId = nat

  datatype Thread =
    | Registering(todo: seq<Source>)                // loop head of registerSoundLevelConsumers
    | Checked(sid: Source, todo: seq<Source>)       // was not tracked; building processor and consumer
    | Added(sid: Source, todo: seq<Source>)         // AddRoute succeeded, mutex not taken yet
    | Locked(sid: Source, todo: seq<Source>)        // mutex held, settings flag not re-read yet
    | Confirmed(sid: Source, todo: seq<Source>)     // mutex held, flag was on
    | Retracting(sid: Source, todo: seq<Source>)    // flag was off, mutex released, RemoveRoute pending
    | Draining(rebuild: bool, next: seq<Source>)    // removeAllSoundLevelConsumers, before the mutex
    | Removing(gone: set<Source>, rebuild: bool, next: seq<Source>)  // map taken, RemoveRoute calls pending
    | Detaching(sid: Source)                        // entry untracked, the engine's route removal pending
    | Detached(sid: Source)                         // routes removed by the engine, untracking pending
    | Clearing(left: set<Source>)                   // removeAllSources: sources to remove before the map is cleared
    | Finished
  {
    predicate HoldsMutex() {
      Locked? || Confirmed?
    }

    /** This thread is bound to track or remove a route of the source that it finds. */
    predicate Obliged(s: Source) {
      match this
      case Added(sid, _) => sid == s
      case Locked(sid, _) => sid == s
      case Confirmed(sid, _) => sid == s
      case Retracting(sid, _) => sid == s
      case Removing(gone, _, _) => s in gone
      case Detaching(sid) => sid == s
      case _ => false
    }
  }

  datatype State = State(
    enabled: bool,          // Realtime.Audio.SoundLevel.Enabled
    routes: set<Source>,    // sources with a sound-level route on the router
    tracked: set<Source>,   // keys of the tracking map
    threads: seq<Thread>,
    drained: bool)          // history: a drain took the map since the flag last went off

  function Init(): State {
    State(false, {}, {}, [], false)
  }

  ghost predicate MutexFree(s: State) {
    forall t :: 0 <= t < |s.threads| ==> !s.threads[t].HoldsMutex()
  }

  datatype Action =
    | SetEnabled(on: bool)
    | CallRegister(sids: seq<Source>)
    | CallReconfigure(sids: seq<Source>)
    | UntrackFirst(sid: Source)        // source removal that untracks before it removes routes
    | RemoveFirst(sid: Source)         // source removal that removes routes before it untracks
    | CallRemoveAll(all: set<Source>) // removal of all sources: every route first, then the whole map
    | SkipTracked(t: ThreadId)
    | CheckUntracked(t: ThreadId)
    | GiveUp(t: ThreadId)              // construction failed, or AddRoute returned an error
    | AddRoute(t: ThreadId)
    | Lock(t: ThreadId)
    | ReadFlag(t: ThreadId)
    | Track(t: ThreadId)
    | Retract(t: ThreadId)
    | TakeMap(t: ThreadId)
    | RemoveOne(t: ThreadId, sid: Source)
    | AllRemoved(t: ThreadId)
    | RemoveRoutes(t: ThreadId)
    | Untrack(t: ThreadId)
    | RemoveSource(t: ThreadId, sid: Source)
    | UntrackAll(t: ThreadId)
    | Return(t: ThreadId)

  predicate At(s: State, t: ThreadId) { t < |s.threads| }

  ghost predicate Enabled(s: State, a: Action) {
    match a
    case SetEnabled(_) => true
    case CallRegister(_) => s.enabled
    case CallReconfigure(_) => true
    case UntrackFirst(_) => MutexFree(s)
    case RemoveFirst(_) => true
    case CallRemoveAll(_) => true
    case SkipTracked(t) =>
      && At(s, t) && s.threads[t].Registering? && s.threads[t].todo != []
      && s.threads[t].todo[0] in s.tracked && MutexFree(s)
    case CheckUntracked(t) =>
      && At(s, t) && s.threads[t].Registering? && s.threads[t].todo != []
      && s.threads[t].todo[0] !in s.tracked && MutexFree(s)
    case GiveUp(t) => At(s, t) && s.threads[t].Checked?
    case AddRoute(t) => At(s, t) && s.threads[t].Checked? && s.threads[t].sid !in s.routes
    case Lock(t) => At(s, t) && s.threads[t].Added? && MutexFree(s)
    case ReadFlag(t) => At(s, t) && s.threads[t].Locked?
    case Track(t) => At(s, t) && s.threads[t].Confirmed?
    case Retract(t) => At(s, t) && s.threads[t].Retracting?
    case TakeMap(t) => At(s, t) && s.threads[t].Draining? && MutexFree(s)
    case RemoveOne(t, sid) => At(s, t) && s.threads[t].Removing? && sid in s.threads[t].gone
    case AllRemoved(t) => At(s, t) && s.threads[t].Removing? && s.threads[t].gone == {}
    case RemoveRoutes(t) => At(s, t) && s.threads[t].Detaching?
    case Untrack(t) => At(s, t) && s.threads[t].Detached? && MutexFree(s)
    case RemoveSource(t, sid) => At(s, t) && s.threads[t].Clearing? && sid in s.threads[t].left
    case UntrackAll(t) => At(s, t) && s.threads[t].Clearing? && s.threads[t].left == {} && MutexFree(s)
    case Return(t) => At(s, t) && s.threads[t].Registering? && s.threads[t].todo == []
  }

  function Spawn(s: State, th: Thread): State {
    s.(threads := s.threads + [th])
  }

  function Move(s: State, t: ThreadId, th: Thread): State
    requires At(s, t)
  {
    s.(threads := s.threads[t := th])
  }

  ghost function Apply(s: State, a: Action): State
    requires Enabled(s, a)
  {
    match a
    case SetEnabled(on) => s.(enabled := on, drained := s.drained && !on)
    case CallRegister(sids) => Spawn(s, Registering(sids))
    case CallReconfigure(sids) => Spawn(s, Draining(s.enabled, sids))
    case UntrackFirst(sid) => Spawn(s, Detaching(sid)).(tracked := s.tracked - {sid})
    case RemoveFirst(sid) => Spawn(s, Detached(sid)).(routes := s.routes - {sid})
    case CallRemoveAll(all) => Spawn(s, Clearing(all))
    case SkipTracked(t) => Move(s, t, Registering(s.threads[t].todo[1..]))
    case CheckUntracked(t) => Move(s, t, Checked(s.threads[t].todo[0], s.threads[t].todo[1..]))
    case GiveUp(t) => Move(s, t, Registering(s.threads[t].todo))
    case AddRoute(t) => Move(s, t, Added(s.threads[t].sid, s.threads[t].todo)).(routes := s.routes + {s.threads[t].sid})
    case Lock(t) => Move(s, t, Locked(s.threads[t].sid, s.threads[t].todo))
    case ReadFlag(t) =>
      var th := s.threads[t];
      Move(s, t, if s.enabled then Confirmed(th.sid, th.todo) else Retracting(th.sid, th.todo))
    // An entry that is already there (the raced branch) is left as it is, and so is the route.
    case Track(t) => Move(s, t, Registering(s.threads[t].todo)).(tracked := s.tracked + {s.threads[t].sid})
    case Retract(t) => Move(s, t, Registering(s.threads[t].todo)).(routes := s.routes - {s.threads[t].sid})
    case TakeMap(t) =>
      var th := s.threads[t];
      Move(s, t, Removing(s.tracked, th.rebuild, th.next)).(tracked := {}, drained := s.drained || !s.enabled)
    case RemoveOne(t, sid) =>
      Move(s, t, s.threads[t].(gone := s.threads[t].gone - {sid})).(routes := s.routes - {sid})
    case AllRemoved(t) =>
      var th := s.threads[t];
      Move(s, t, if th.rebuild && s.enabled then Registering(th.next) else Finished)
    case RemoveRoutes(t) => Move(s, t, Finished).(routes := s.routes - {s.threads[t].sid})
    case Untrack(t) => Move(s, t, Finished).(tracked := s.tracked - {s.threads[t].sid})
    case RemoveSource(t, sid) => Move(s, t, Clearing(s.threads[t].left - {sid})).(routes := s.routes - {sid})
    case UntrackAll(t) => Move(s, t, Finished).(tracked := {})
    case Return(t) => Move(s, t, Finished)
  }

  // ----- Invariant -----

  ghost predicate SomeoneObliged(s: State, sid: Source) {
    exists t :: 0 <= t < |s.threads| && s.threads[t].Obliged(sid)
  }

  /** No route is orphaned: it is tracked, or some thread is bound to track or remove it. */
  ghost predicate NoOrphan(s: State) {
    forall sid :: sid in s.routes ==> sid in s.tracked || SomeoneObliged(s, sid)
  }

  ghost predicate OneMutexHolder(s: State) {
    forall t, u :: 0 <= t < |s.threads| && 0 <= u < |s.threads| ==>
      s.threads[t].HoldsMutex() && s.threads[u].HoldsMutex() ==> t == u
  }

  /** After a drain with the flag off, nothing is tracked and nobody can still be about to track. */
  ghost predicate DrainHolds(s: State) {
    s.drained ==>
      !s.enabled && s.tracked == {} && forall t :: 0 <= t < |s.threads| ==> !s.threads[t].Confirmed?
  }

  ghost predicate Inv(s: State) {
    NoOrphan(s) && OneMutexHolder(s) && DrainHolds(s)
  }

  /** A live route no thread answers for: only its entry accounts for it. */
  ghost predicate OnlyTracked(s: State, sid: Source) {
    sid in s.routes && !SomeoneObliged(s, sid)
  }

  /**
   A delayed untrack deletes the entry of a route that was added meanwhile: the
   removal saw the old route, another registrar's skipped route is the new one.
   */
  ghost predicate Orphans(s: State, a: Action) {
    || (a.Untrack? && At(s, a.t) && s.threads[a.t].Detached? && OnlyTracked(s, s.threads[a.t].sid))
    || (a.UntrackAll? && exists sid :: OnlyTracked(s, sid))
  }

  /** An obligation survives the action, or is discharged. */
  lemma ObligationKept(s: State, s': State, sid: Source)
    requires SomeoneObliged(s, sid)
    requires |s.threads| <= |s'.threads|
    requires forall t :: 0 <= t < |s.threads| && s.threads[t].Obliged(sid) ==> s'.threads[t].Obliged(sid)
    ensures SomeoneObliged(s', sid)
  {
    var t :| 0 <= t < |s.threads| && s.threads[t].Obliged(sid);
    assert s'.threads[t].Obliged(sid);
  }

  lemma StepNoOrphan(s: State, a: Action)
    requires Inv(s) && Enabled(s, a) && !Orphans(s, a)
    ensures NoOrphan(Apply(s, a))
  {
    var s' := Apply(s, a);
    forall sid | sid in s'.routes && sid !in s'.tracked ensures SomeoneObliged(s', sid) {
      if sid !in s.routes {
        assert a.AddRoute? && s'.threads[a.t].Obliged(sid);
      } else if sid in s.tracked {
        if a.UntrackFirst? {
          assert s'.threads[|s.threads|].Obliged(sid);
        } else if a.TakeMap? {
          assert s'.threads[a.t].Obliged(sid);
        } else {
          assert a.Untrack? || a.UntrackAll?;
          assert SomeoneObliged(s, sid) || OnlyTracked(s, sid);
          ObligationKept(s, s', sid);
        }
      } else {
        ObligationKept(s, s', sid);
      }
    }
  }

  lemma StepMutexAndDrain(s: State, a: Action)
    requires Inv(s) && Enabled(s, a)
    ensures OneMutexHolder(Apply(s, a)) && DrainHolds(Apply(s, a))
  {
  }

  lemma OrphanLeft(s: State, a: Action)
    requires Enabled(s, a) && Orphans(s, a)
    ensures !NoOrphan(Apply(s, a))
  {
    var s' := Apply(s, a);
    var sid: Source :| OnlyTracked(s, sid) && (a.Untrack? ==> sid == s.threads[a.t].sid);
    assert forall t :: 0 <= t < |s.threads| ==> !s'.threads[t].Obliged(sid);
    assert sid in s'.routes && sid !in s'.tracked && !SomeoneObliged(s', sid);
  }

  /**
   Exactly when does an action keep every route accounted for? Always, except
   for an untrack that runs after its own route removal and finds a fresh route
   nobody else answers for.
   */
  lemma StepKeepsInvIff(s: State, a: Action)
    requires Inv(s) && Enabled(s, a)
    ensures Inv(Apply(s, a)) <==> !Orphans(s, a)
  {
    StepMutexAndDrain(s, a);
    if Orphans(s, a) {
      OrphanLeft(s, a);
    } else {
      StepNoOrphan(s, a);
    }
  }

  // ----- Runs -----

  ghost function Run(s: State, run: seq<Action>): Outcome<State>
    decreases |run|
  {
    if run == [] then Reached(s)
    else if Enabled(s, run[0]) then Run(Apply(s, run[0]), run[1..])
    else Stuck
  }

  /** No untrack of the run deletes the entry of a live route that nobody else answers for. */
  ghost predicate OrphanFree(s: State, run: seq<Action>)
    decreases |run|
  {
    run == [] || (Enabled(s, run[0]) && !Orphans(s, run[0]) && OrphanFree(Apply(s, run[0]), run[1..]))
  }

  lemma {:induction false} RunInv(s: State, run: seq<Action>)
    requires Inv(s) && Run(s, run).Reached? && OrphanFree(s, run)
    ensures Inv(Run(s, run).state)
    decreases |run|
  {
    if run != [] {
      StepKeepsInvIff(s, run[0]);
      RunInv(Apply(s, run[0]), run[1..]);
    }
  }

  /** A run whose source removals all untrack before removing routes is orphan-free. */
  ghost predicate UntracksFirst(run: seq<Action>) {
    forall i :: 0 <= i < |run| ==> !run[i].RemoveFirst? && !run[i].CallRemoveAll?
  }

  lemma {:induction false} UntrackFirstIsSafe(s: State, run: seq<Action>)
    requires UntracksFirst(run) && Run(s, run).Reached?
    requires forall t :: 0 <= t < |s.threads| ==> !s.threads[t].Detached? && !s.threads[t].Clearing?
    ensures OrphanFree(s, run)
    decreases |run|
  {
    if run != [] {
      assert !run[0].RemoveFirst? && !run[0].CallRemoveAll?;
      var s' := Apply(s, run[0]);
      assert forall t :: 0 <= t < |s'.threads| ==> !s'.threads[t].Detached? && !s'.threads[t].Clearing?;
      UntrackFirstIsSafe(s', run[1..]);
    }
  }

  ghost predicate Quiescent(s: State) {
    forall t :: 0 <= t < |s.threads| ==> s.threads[t].Finished?
  }

  /**
   Whatever the interleaving, as long as no untrack deletes the entry of a live
   route that nobody else answers for: once all calls have returned every route is
   tracked; and if the flag is off and a drain has run since it went off, no
   sound-level route and no entry are left.
   */
  lemma QuiescentRoutesTracked(run: seq<Action>)
    requires Run(Init(), run).Reached? && OrphanFree(Init(), run)
    requires Quiescent(Run(Init(), run).state)
    ensures var s := Run(Init(), run).state;
            s.routes <= s.tracked && (s.drained ==> s.routes == {} && s.tracked == {} && !s.enabled)
  {
    RunInv(Init(), run);
    var s := Run(Init(), run).state;
    assert forall sid :: !SomeoneObliged(s, sid);
  }

  /** In particular when every source removal untracks before it removes routes. */
  lemma UntrackFirstRoutesTracked(run: seq<Action>)
    requires UntracksFirst(run) && Run(Init(), run).Reached?
    requires Quiescent(Run(Init(), run).state)
    ensures var s := Run(Init(), run).state;
            s.routes <= s.tracked && (s.drained ==> s.routes == {} && s.tracked == {} && !s.enabled)
  {
    UntrackFirstIsSafe(Init(), run);
    QuiescentRoutesTracked(run);
  }

  // ----- Nobody gets stuck -----

  /** The thread that an action moves, unless it is a call. */
  function Mover(a: Action): Option<ThreadId> {
    match a
    case SetEnabled(_) => None
    case CallRegister(_) => None
    case CallReconfigure(_) => None
    case UntrackFirst(_) => None
    case RemoveFirst(_) => None
    case CallRemoveAll(_) => None
    case _ => Some(a.t)
  }

  /** What a thread can do next; `sid` is the source it picks where it goes through a set. */
  function NextStep(s: State, t: ThreadId, sid: Source): Action
    requires At(s, t)
  {
    match s.threads[t]
    case Registering(todo) =>
      if todo == [] then Return(t) else if todo[0] in s.tracked then SkipTracked(t) else CheckUntracked(t)
    case Checked(x, _) => if x in s.routes then GiveUp(t) else AddRoute(t)
    case Added(_, _) => Lock(t)
    case Locked(_, _) => ReadFlag(t)
    case Confirmed(_, _) => Track(t)
    case Retracting(_, _) => Retract(t)
    case Draining(_, _) => TakeMap(t)
    case Removing(gone, _, _) => if gone == {} then AllRemoved(t) else RemoveOne(t, sid)
    case Detaching(_) => RemoveRoutes(t)
    case Detached(_) => Untrack(t)
    case Clearing(left) => if left == {} then UntrackAll(t) else RemoveSource(t, sid)
    case Finished => Return(t)
  }

  /** The sources a thread goes through in any order. */
  function Choices(th: Thread): set<Source> {
    match th
    case Removing(gone, _, _) => gone
    case Clearing(left) => left
    case _ => {}
  }

  /** Whoever holds the mutex can go on, and everybody can while nobody holds it. */
  lemma NoThreadStuck(s: State, t: ThreadId, sid: Source)
    requires At(s, t) && !s.threads[t].Finished? && (s.threads[t].HoldsMutex() || MutexFree(s))
    requires Choices(s.threads[t]) != {} ==> sid in Choices(s.threads[t])
    ensures Enabled(s, NextStep(s, t, sid)) && Mover(NextStep(s, t, sid)) == Some(t)
  {
  }

  /** A processor is only built for a source that is not tracked. */
  lemma OnlyUntrackedAreBuilt(s: State, a: Action, t: ThreadId)
    requires Enabled(s, a) && At(Apply(s, a), t) && Apply(s, a).threads[t].Checked?
    requires At(s, t) ==> !s.threads[t].Checked?
    ensures Apply(s, a).threads[t].sid !in s.tracked
  {
  }

  /** A registration passes over a listed source only when it is tracked already. */
  lemma OnlyTrackedAreSkipped(s: State, a: Action, t: ThreadId)
    requires Enabled(s, a) && At(s, t) && s.threads[t].Registering?
    requires Apply(s, a).threads[t].Registering? && Apply(s, a).threads[t] != s.threads[t]
    ensures var todo := s.threads[t].todo;
            todo != [] && todo[0] in s.tracked && Apply(s, a).threads[t].todo == todo[1..]
  {
  }

  /** Calls are always possible: a registration while the feature is on, an untrack while the mutex is free. */
  lemma CallsPossible(s: State, sid: Source, sids: seq<Source>, all: set<Source>, on: bool)
    ensures Enabled(s, SetEnabled(on)) && Enabled(s, CallReconfigure(sids))
    ensures Enabled(s, RemoveFirst(sid)) && Enabled(s, CallRemoveAll(all))
    ensures Enabled(s, CallRegister(sids)) <==> s.enabled
    ensures Enabled(s, UntrackFirst(sid)) <==> MutexFree(s)
  {
  }

  /** Whether the map is still to be taken: how much there is to remove is not known before. */
  function Phase(th: Thread): nat {
    if th.Draining? then 1 else 0
  }

  function StepsLeft(th: Thread): nat {
    match th
    case Registering(todo) => 6 * |todo| + 1
    case Checked(_, todo) => 6 * |todo| + 6
    case Added(_, todo) => 6 * |todo| + 5
    case Locked(_, todo) => 6 * |todo| + 4
    case Confirmed(_, todo) => 6 * |todo| + 3
    case Retracting(_, todo) => 6 * |todo| + 3
    case Draining(_, _) => 0
    case Removing(gone, _, next) => |gone| + 6 * |next| + 2
    case Detaching(_) => 1
    case Detached(_) => 1
    case Clearing(left) => |left| + 1
    case Finished => 0
  }

  /** Every step of a thread brings the end of its call closer, whatever the others do in between. */
  lemma OwnStepCounts(s: State, a: Action, t: ThreadId)
    requires Enabled(s, a) && Mover(a) == Some(t)
    ensures At(s, t) && At(Apply(s, a), t)
    ensures var th, th' := s.threads[t], Apply(s, a).threads[t];
            Phase(th') < Phase(th) || (Phase(th') == Phase(th) && StepsLeft(th') < StepsLeft(th))
  {
    if a.RemoveOne? {
      assert |s.threads[t].gone - {a.sid}| == |s.threads[t].gone| - 1;
    } else if a.RemoveSource? {
      assert |s.threads[t].left - {a.sid}| == |s.threads[t].left| - 1;
    }
  }

  lemma OthersWait(s: State, a: Action, t: ThreadId)
    requires Enabled(s, a) && At(s, t) && Mover(a) != Some(t)
    ensures At(Apply(s, a), t) && Apply(s, a).threads[t] == s.threads[t]
  {
  }

  /** A reload called while the feature was off. */
  predicate OnlyDrains(th: Thread) {
    match th
    case Draining(rebuild, _) => !rebuild
    case Removing(_, rebuild, _) => !rebuild
    case _ => th.Finished?
  }

  /** It never registers anything, even if the feature comes back on. */
  lemma {:induction false} DisablingReloadOnlyDrains(s: State, run: seq<Action>, t: ThreadId)
    requires At(s, t) && OnlyDrains(s.threads[t]) && Run(s, run).Reached?
    ensures At(Run(s, run).state, t) && OnlyDrains(Run(s, run).state.threads[t])
    decreases |run|
  {
    if run != [] {
      DrainsOn(s, run[0], t);
      DisablingReloadOnlyDrains(Apply(s, run[0]), run[1..], t);
    }
  }

  lemma DrainsOn(s: State, a: Action, t: ThreadId)
    requires Enabled(s, a) && At(s, t) && OnlyDrains(s.threads[t])
    ensures At(Apply(s, a), t) && OnlyDrains(Apply(s, a).threads[t])
  {
    if Mover(a) != Some(t) {
      OthersWait(s, a, t);
    }
  }

  // ----- The order the service's locks impose -----

  /**
   The service runs its source removals and the registrations that go with them
   under one lock, sourcesMu, and its hot reloads one after another on the control
   monitor's goroutine. A hot reload does not take sourcesMu. The two fields
   remember the latest thread of each kind. The removal of all sources goes through
   the registry, which lists every source that has a route.
   */
  datatype Service = Service(state: State, sourcesMu: Option<ThreadId>, reload: Option<ThreadId>)

  function ServiceInit(): Service {
    Service(Init(), None, None)
  }

  predicate UnderSourcesMu(a: Action) {
    a.CallRegister? || a.UntrackFirst? || a.RemoveFirst? || a.CallRemoveAll?
  }

  predicate Over(s: State, holder: Option<ThreadId>) {
    holder.Some? ==> At(s, holder.value) && s.threads[holder.value].Finished?
  }

  ghost predicate Permitted(x: Service, a: Action) {
    && Enabled(x.state, a)
    && (UnderSourcesMu(a) ==> Over(x.state, x.sourcesMu))
    && (a.CallReconfigure? ==> Over(x.state, x.reload))
    && (a.CallRemoveAll? ==> x.state.routes <= a.all)
  }

  ghost function Serve(x: Service, a: Action): Service
    requires Permitted(x, a)
  {
    var started := Some(|x.state.threads|);
    Service(Apply(x.state, a),
            if UnderSourcesMu(a) then started else x.sourcesMu,
            if a.CallReconfigure? then started else x.reload)
  }

  /** A run that the service's locks allow. */
  ghost function ServiceRun(x: Service, run: seq<Action>): Outcome<Service>
    decreases |run|
  {
    if run == [] then Reached(x)
    else if Permitted(x, run[0]) then ServiceRun(Serve(x, run[0]), run[1..])
    else Stuck
  }

  lemma {:induction false} ServiceRunIsRun(x: Service, run: seq<Action>)
    requires ServiceRun(x, run).Reached?
    ensures Run(x.state, run) == Reached(ServiceRun(x, run).state.state)
    decreases |run|
  {
    if run != [] {
      ServiceRunIsRun(Serve(x, run[0]), run[1..]);
    }
  }

  /** Without a hot reload one thread at a time is at work, and what a removal has taken away stays away. */
  ghost predicate OneAtWork(x: Service) {
    && (forall t :: 0 <= t < |x.state.threads| && !x.state.threads[t].Finished? ==> x.sourcesMu == Some(t))
    && (forall t :: 0 <= t < |x.state.threads| && x.state.threads[t].Detached? ==>
          x.state.threads[t].sid !in x.state.routes)
    && (forall t :: 0 <= t < |x.state.threads| && x.state.threads[t].Clearing? ==>
          x.state.routes <= x.state.threads[t].left)
  }

  lemma OneAtWorkOrphansNothing(x: Service, a: Action)
    requires OneAtWork(x) && Permitted(x, a)
    ensures !Orphans(x.state, a)
  {
  }

  lemma OneAtWorkKept(x: Service, a: Action)
    requires OneAtWork(x) && Permitted(x, a) && !a.CallReconfigure?
    ensures OneAtWork(Serve(x, a))
  {
    var s, y := x.state, Serve(x, a);
    forall t | 0 <= t < |y.state.threads| && !y.state.threads[t].Finished?
      ensures y.sourcesMu == Some(t)
    {
    }
    forall t | 0 <= t < |y.state.threads| && y.state.threads[t].Detached?
      ensures y.state.threads[t].sid !in y.state.routes
    {
    }
    forall t | 0 <= t < |y.state.threads| && y.state.threads[t].Clearing?
      ensures y.state.routes <= y.state.threads[t].left
    {
    }
  }

  ghost predicate NoReload(run: seq<Action>) {
    forall i :: 0 <= i < |run| ==> !run[i].CallReconfigure?
  }

  /**
   Under the service's locks an orphaned route takes a hot reload: without one,
   removals in either order keep every route accounted for.
   */
  lemma {:induction false} OrphanNeedsReload(x: Service, run: seq<Action>)
    requires OneAtWork(x) && NoReload(run) && ServiceRun(x, run).Reached?
    ensures OrphanFree(x.state, run)
    decreases |run|
  {
    if run != [] {
      assert !run[0].CallReconfigure?;
      OneAtWorkOrphansNothing(x, run[0]);
      OneAtWorkKept(x, run[0]);
      OrphanNeedsReload(Serve(x, run[0]), run[1..]);
    }
  }

  lemma WithoutReloadRoutesTracked(run: seq<Action>)
    requires NoReload(run) && ServiceRun(ServiceInit(), run).Reached?
    requires Quiescent(ServiceRun(ServiceInit(), run).state.state)
    ensures var s := ServiceRun(ServiceInit(), run).state.state; s.routes <= s.tracked
  {
    OrphanNeedsReload(ServiceInit(), run);
    ServiceRunIsRun(ServiceInit(), run);
    QuiescentRoutesTracked(run);
  }

  lemma ServiceRunCons(x: Service, a: Action, run: seq<Action>)
    requires Permitted(x, a)
    ensures ServiceRun(x, [a] + run) == ServiceRun(Serve(x, a), run)
  {
    assert ([a] + run)[1..] == run;
  }

  lemma {:induction false} ServiceRunSnoc(x: Service, run: seq<Action>, a: Action)
    requires ServiceRun(x, run).Reached? && Permitted(ServiceRun(x, run).state, a)
    ensures ServiceRun(x, run + [a]) == Reached(Serve(ServiceRun(x, run).state, a))
    decreases |run|
  {
    if run == [] {
      assert run + [a] == [a];
      ServiceRunCons(x, a, []);
    } else {
      assert (run + [a])[0] == run[0] && (run + [a])[1..] == run[1..] + [a];
      ServiceRunSnoc(Serve(x, run[0]), run[1..], a);
    }
  }

  ghost predicate Leads(run: seq<Action>, x: Service) {
    ServiceRun(ServiceInit(), run) == Reached(x)
  }

  lemma Step(run: seq<Action>, x: Service, a: Action) returns (run': seq<Action>, x': Service)
    requires Leads(run, x) && Permitted(x, a)
    ensures Leads(run', x') && x' == Serve(x, a)
  {
    ServiceRunSnoc(ServiceInit(), run, a);
    run', x' := run + [a], Serve(x, a);
  }

  /** A registrar that found its source untracked adds the route and leaves an entry, its own or the one it finds. */
  lemma RegisterThrough(run0: seq<Action>, x0: Service, t: ThreadId) returns (run: seq<Action>, x: Service)
    requires Leads(run0, x0) && At(x0.state, t) && x0.state.threads[t].Checked? && x0.state.enabled
    requires x0.state.threads[t].sid !in x0.state.routes && MutexFree(x0.state)
    ensures Leads(run, x)
    ensures var th := x0.state.threads[t];
            x == x0.(state := x0.state.(routes := x0.state.routes + {th.sid}, tracked := x0.state.tracked + {th.sid},
                                        threads := x0.state.threads[t := Registering(th.todo)]))
  {
    hide ServiceRun;
    run, x := Step(run0, x0, AddRoute(t));
    run, x := Step(run, x, Lock(t));
    run, x := Step(run, x, ReadFlag(t));
    run, x := Step(run, x, Track(t));
  }

  /**
   With remove-first removal the promise fails, in a run the service's locks allow.
   A hot reload (thread 0) takes the map and finds the source untracked. A restart
   of the source untracks it, removes its routes (thread 1) and registers it again
   (thread 2). A restart of all capture removes the routes (thread 3); the hot
   reload adds its route and, finding thread 2's entry, skips tracking it; the
   restart then clears the map, and its own registration (thread 4) is refused
   by the router because the route exists. A later disable (thread 5) finds nothing
   to remove: all calls have returned, the flag is off, the map was drained, the
   route lives.
   */
  lemma RemoveFirstOrphans() returns (run: seq<Action>, x: Service)
    ensures ServiceRun(ServiceInit(), run) == Reached(x) && Quiescent(x.state)
    ensures Run(Init(), run) == Reached(x.state)
    ensures !x.state.enabled && x.state.drained && x.state.tracked == {} && x.state.routes == {"mic"}
  {
    run, x := ReloadChecks();
    run, x := SourceRemoved(run, x);
    run, x := SourceRegistered(run, x);
    run, x := CaptureRestarts(run, x);
    run, x := RegistrationRefused(run, x);
    run, x := DisableFindsNothing(run, x);
    ServiceRunIsRun(ServiceInit(), run);
  }

  const MIC: seq<Source> := ["mic"]

  lemma ReloadStarts() returns (run: seq<Action>, x: Service)
    ensures Leads(run, x)
    ensures x == Service(State(true, {}, {}, [Draining(true, MIC)], false), None, Some(0))
  {
    run, x := [], ServiceInit();
    run, x := Step(run, x, SetEnabled(true));
    run, x := Step(run, x, CallReconfigure(MIC));
  }

  lemma MapTaken(run0: seq<Action>, x0: Service) returns (run: seq<Action>, x: Service)
    requires Leads(run0, x0)
    requires x0 == Service(State(true, {}, {}, [Draining(true, MIC)], false), None, Some(0))
    ensures Leads(run, x)
    ensures x == Service(State(true, {}, {}, [Registering(MIC)], false), None, Some(0))
  {
    hide ServiceRun;
    run, x := Step(run0, x0, TakeMap(0));
    run, x := Step(run, x, AllRemoved(0));
  }

  lemma ReloadChecks() returns (run: seq<Action>, x: Service)
    ensures Leads(run, x)
    ensures x == Service(State(true, {}, {}, [Checked("mic", [])], false), None, Some(0))
  {
    run, x := ReloadStarts();
    run, x := MapTaken(run, x);
    run, x := Step(run, x, CheckUntracked(0));
    assert MIC[1..] == [];
  }

  lemma SourceRemoved(run0: seq<Action>, x0: Service) returns (run: seq<Action>, x: Service)
    requires Leads(run0, x0)
    requires x0 == Service(State(true, {}, {}, [Checked("mic", [])], false), None, Some(0))
    ensures Leads(run, x)
    ensures x == Service(State(true, {}, {}, [Checked("mic", []), Finished], false), Some(1), Some(0))
  {
    hide ServiceRun;
    run, x := Step(run0, x0, UntrackFirst("mic"));
    run, x := Step(run, x, RemoveRoutes(1));
  }

  lemma SourceRegistered(run0: seq<Action>, x0: Service) returns (run: seq<Action>, x: Service)
    requires Leads(run0, x0)
    requires x0 == Service(State(true, {}, {}, [Checked("mic", []), Finished], false), Some(1), Some(0))
    ensures Leads(run, x)
    ensures x == Service(State(true, {"mic"}, {"mic"}, [Checked("mic", []), Finished, Finished], false),
                         Some(2), Some(0))
  {
    hide ServiceRun;
    run, x := Step(run0, x0, CallRegister(MIC));
    run, x := Step(run, x, CheckUntracked(2));
    assert MIC[1..] == [];
    run, x := RegisterThrough(run, x, 2);
    run, x := Step(run, x, Return(2));
  }

  lemma RoutesRemoved(run0: seq<Action>, x0: Service) returns (run: seq<Action>, x: Service)
    requires Leads(run0, x0)
    requires x0 == Service(State(true, {"mic"}, {"mic"}, [Checked("mic", []), Finished, Finished], false),
                           Some(2), Some(0))
    ensures Leads(run, x)
    ensures x == Service(State(true, {}, {"mic"}, [Checked("mic", []), Finished, Finished, Clearing({})], false),
                         Some(3), Some(0))
  {
    hide ServiceRun;
    run, x := Step(run0, x0, CallRemoveAll({"mic"}));
    run, x := Step(run, x, RemoveSource(3, "mic"));
    assert {"mic"} - {"mic"} == {};
  }

  lemma CaptureRestarts(run0: seq<Action>, x0: Service) returns (run: seq<Action>, x: Service)
    requires Leads(run0, x0)
    requires x0 == Service(State(true, {"mic"}, {"mic"}, [Checked("mic", []), Finished, Finished], false),
                           Some(2), Some(0))
    ensures Leads(run, x)
    ensures x == Service(State(true, {"mic"}, {}, [Finished, Finished, Finished, Finished], false), Some(3), Some(0))
  {
    hide ServiceRun;
    run, x := RoutesRemoved(run0, x0);
    run, x := RegisterThrough(run, x, 0);
    run, x := Step(run, x, UntrackAll(3));
    run, x := Step(run, x, Return(0));
  }

  lemma RegistrationRefused(run0: seq<Action>, x0: Service) returns (run: seq<Action>, x: Service)
    requires Leads(run0, x0)
    requires x0 == Service(State(true, {"mic"}, {}, [Finished, Finished, Finished, Finished], false), Some(3), Some(0))
    ensures Leads(run, x)
    ensures x == Service(State(true, {"mic"}, {}, [Finished, Finished, Finished, Finished, Finished], false),
                         Some(4), Some(0))
  {
    hide ServiceRun;
    run, x := Step(run0, x0, CallRegister(MIC));
    run, x := Step(run, x, CheckUntracked(4));
    assert MIC[1..] == [];
    run, x := Step(run, x, GiveUp(4));
    run, x := Step(run, x, Return(4));
  }

  lemma DisableFindsNothing(run0: seq<Action>, x0: Service) returns (run: seq<Action>, x: Service)
    requires Leads(run0, x0)
    requires x0 == Service(State(true, {"mic"}, {}, [Finished, Finished, Finished, Finished, Finished], false),
                           Some(4), Some(0))
    ensures Leads(run, x) && Quiescent(x.state)
    ensures !x.state.enabled && x.state.drained && x.state.tracked == {} && x.state.routes == {"mic"}
  {
    hide ServiceRun;
    run, x := Step(run0, x0, SetEnabled(false));
    run, x := Step(run, x, CallReconfigure([]));
    run, x := Step(run, x, TakeMap(5));
    run, x := Step(run, x, AllRemoved(5));
  }
}
