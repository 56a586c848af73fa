/** What the router promises, for every interleaving of producers, drainers and removers. */
module RouterTheorems {
  import opened RouterProtocol
  import opened Runs
  import opened Sequences
  import opened RouterInvariant

  // ----- Runs, one action at a time -----

  lemma RunCons(s: State, a: Action, run: seq<Action>)
    requires Enabled(s, a)
    ensures Run(s, [a] + run) == Run(Apply(s, a), run)
  {
    assert ([a] + run)[1..] == run;
  }

  lemma {:induction false} RunSnoc(s: State, run: seq<Action>, a: Action)
    requires Run(s, run).Reached? && Enabled(Run(s, run).state, a)
    ensures Run(s, run + [a]) == Reached(Apply(Run(s, run).state, a))
    decreases |run|
  {
    if run == [] {
      assert run + [a] == [a];
      RunCons(s, a, []);
    } else {
      assert (run + [a])[0] == run[0] && (run + [a])[1..] == run[1..] + [a];
      RunSnoc(Apply(s, run[0]), run[1..], a);
    }
  }

  lemma ReachableStep(s: State, a: Action)
    requires Reachable(s) && Enabled(s, a)
    ensures Reachable(Apply(s, a))
  {
    var run :| Run(Init(), run) == Reached(s);
    RunSnoc(Init(), run, a);
    assert Run(Init(), run + [a]) == Reached(Apply(s, a));
  }

  lemma InitReachable()
    ensures Reachable(Init())
  {
    assert Run(Init(), []) == Reached(Init());
  }

  // ----- What one action can change -----

  /** How an action may change a route that already exists. */
  ghost predicate RouteShape(s: State, s': State, a: Action, r: RouteId)
    requires r < |s.routes|
  {
    && r < |s'.routes|
    && var rt, rt' := s.routes[r], s'.routes[r];
    && rt'.late == rt.late
    && (r in s'.table ==> r in s.table)
    && (rt'.pc == rt.pc || (a.OnDrain? && a.drain.r == r))
    && (rt.pc.LeftLoop() ==> rt'.pc.LeftLoop())
    && (rt.pc.Drained() ==> rt'.pc.Drained())
    && (rt.pc.Exited? ==> rt'.pc.Exited?)
    && (|| rt'.inbox == rt.inbox
        || (a.OnDispatch? && a.dispatch.Send? && a.dispatch.f < |s.frames| && s.frames[a.dispatch.f].pc.Retained?
            && s.frames[a.dispatch.f].pc.route == r && rt'.inbox == rt.inbox + [a.dispatch.f])
        || (a.OnDrain? && a.drain.r == r && rt.inbox != [] && rt'.inbox == rt.inbox[1..] && !rt.pc.Exited?))
  }

  /** How an action may change a frame that already exists. */
  ghost predicate FrameShape(s: State, s': State, f: FrameId)
    requires f < |s.frames|
  {
    && f < |s'.frames|
    && s'.frames[f].fired >= s.frames[f].fired
    && (!s.frames[f].pc.Created? ==> !s'.frames[f].pc.Created? && s'.frames[f].offered == s.frames[f].offered)
  }

  lemma DispatchShape(s: State, d: DispatchAction)
    requires DispatchEnabled(s, d)
    ensures forall r :: 0 <= r < |s.routes| ==> RouteShape(s, DispatchStep(s, d), OnDispatch(d), r)
    ensures forall f :: 0 <= f < |s.frames| ==> FrameShape(s, DispatchStep(s, d), f)
  {
  }

  lemma TableShape(s: State, m: TableAction)
    requires TableEnabled(s, m)
    ensures forall r :: 0 <= r < |s.routes| ==> RouteShape(s, TableStep(s, m), OnTable(m), r)
    ensures forall f :: 0 <= f < |s.frames| ==> FrameShape(s, TableStep(s, m), f)
  {
  }

  lemma StopShape(s: State, p: StopAction)
    requires StopEnabled(s, p)
    ensures forall r :: 0 <= r < |s.routes| ==> RouteShape(s, StopStep(s, p), OnStop(p), r)
    ensures forall f :: 0 <= f < |s.frames| ==> FrameShape(s, StopStep(s, p), f)
  {
  }

  lemma DrainRouteShape(s: State, e: DrainAction)
    requires DrainEnabled(s, e)
    ensures forall r :: 0 <= r < |s.routes| ==> RouteShape(s, DrainStep(s, e), OnDrain(e), r)
  {
    forall r | 0 <= r < |s.routes| ensures RouteShape(s, DrainStep(s, e), OnDrain(e), r) {
      if r != e.r {
        assert DrainStep(s, e).routes[r] == s.routes[r];
      }
    }
  }

  lemma DrainFrameShape(s: State, e: DrainAction)
    requires DrainEnabled(s, e)
    ensures forall f :: 0 <= f < |s.frames| ==> FrameShape(s, DrainStep(s, e), f)
  {
  }

  lemma StepShape(s: State, a: Action)
    requires Enabled(s, a)
    ensures forall r :: 0 <= r < |s.routes| ==> RouteShape(s, Apply(s, a), a, r)
    ensures forall f :: 0 <= f < |s.frames| ==> FrameShape(s, Apply(s, a), f)
  {
    match a
    case OnDispatch(d) => DispatchShape(s, d);
    case OnTable(m) => TableShape(s, m);
    case OnStop(p) => StopShape(s, p);
    case OnDrain(e) => DrainRouteShape(s, e); DrainFrameShape(s, e);
  }

  // ----- Reference counting -----

  /** The closure has run exactly when nobody refers to the frame any more, and never twice. */
  lemma ReleasedExactlyWhenUnreferenced(s: State, f: FrameId)
    requires Reachable(s) && f < |s.frames|
    ensures var fr := s.frames[f];
            && fr.remaining == fr.pc.ProducerHolds() + fr.pc.Unsent() + TotalCopies(s.routes, f)
            && fr.fired <= 1
            && (fr.fired == 1 <==> fr.pc.Finished? && forall r :: 0 <= r < |s.routes| ==> Copies(s.routes[r], f) == 0)
  {
    ReachableInv(s);
    assert FrameInv(s, f);
    var fr := s.frames[f];
    if fr.fired == 1 {
      forall r | 0 <= r < |s.routes| ensures Copies(s.routes[r], f) == 0 { TotalAtLeast(s.routes, r, f); }
    }
    if forall r :: 0 <= r < |s.routes| ==> Copies(s.routes[r], f) == 0 {
      TotalZero(s.routes, f);
    }
  }

  /** A buffer is not recycled while it is queued, being written, retained or owned by its producer. */
  lemma NotReleasedWhileInUse(s: State, f: FrameId, r: RouteId)
    requires Reachable(s) && f < |s.frames| && r < |s.routes|
    requires f in s.routes[r].inbox || s.routes[r].pc.Holds(f) || !s.frames[f].pc.Finished?
    ensures s.frames[f].fired == 0 && s.frames[f].remaining > 0
  {
    ReachableInv(s);
    assert FrameInv(s, f);
    TotalAtLeast(s.routes, r, f);
  }

  /** Once the closure has run, no later action of any run queues, holds or releases the frame again. */
  lemma {:induction false} ReleasedForGood(s: State, run: seq<Action>, f: FrameId)
    requires Inv(s) && f < |s.frames| && s.frames[f].fired == 1
    requires Run(s, run).Reached?
    ensures var s' := Run(s, run).state;
            && f < |s'.frames| && s'.frames[f].fired == 1
            && (forall r :: 0 <= r < |s'.routes| ==> f !in s'.routes[r].inbox && !s'.routes[r].pc.Holds(f))
    decreases |run|
  {
    if run == [] {
      forall r | 0 <= r < |s.routes| ensures f !in s.routes[r].inbox && !s.routes[r].pc.Holds(f) {
        assert FrameInv(s, f);
        TotalAtLeast(s.routes, r, f);
      }
    } else {
      var s1 := Apply(s, run[0]);
      StepShape(s, run[0]);
      assert FrameShape(s, s1, f);
      StepInv(s, run[0]);
      assert FrameInv(s1, f);
      ReleasedForGood(s1, run[1..], f);
    }
  }

  // ----- Fan-out, order and accounting -----

  lemma {:induction false} OfferedKeptRun(s: State, run: seq<Action>, f: FrameId)
    requires Inv(s) && f < |s.frames| && !s.frames[f].pc.Created? && Run(s, run).Reached?
    ensures var s' := Run(s, run).state;
            && f < |s'.frames| && !s'.frames[f].pc.Created? && s'.frames[f].offered == s.frames[f].offered
    decreases |run|
  {
    if run != [] {
      StepShape(s, run[0]);
      assert FrameShape(s, Apply(s, run[0]), f);
      StepInv(s, run[0]);
      OfferedKeptRun(Apply(s, run[0]), run[1..], f);
    }
  }

  /**
   A Dispatch that has returned has offered its frame once to every route that
   was linked for the source when it took the read lock, and to no other: each
   of those routes accepted it or counted one drop.
   */
  lemma DispatchOffersOnce(s: State, f: FrameId, run: seq<Action>, r: RouteId)
    requires Reachable(s) && DispatchEnabled(s, Enter(f))
    requires var o := Run(DispatchStep(s, Enter(f)), run);
             o.Reached? && f < |o.state.frames| && r < |o.state.routes|
             && (o.state.frames[f].pc.Dispatched? || o.state.frames[f].pc.Finished?)
    ensures var rt := Run(DispatchStep(s, Enter(f)), run).state.routes[r];
            multiset(rt.sent)[f] + multiset(rt.dropped)[f]
            == if r < |s.routes| && r in s.table && s.routes[r].src == s.frames[f].src then 1 else 0
  {
    ReachableInv(s);
    StepEnter(s, f);
    var s1 := DispatchStep(s, Enter(f));
    OfferedKeptRun(s1, run, f);
    RunInv(s1, run);
    assert Accounted(Run(s1, run).state, f, r);
  }

  /**
   Frames reach the consumer in the order they were accepted, with none skipped
   before the drainer leaves its loop; every accepted frame was handled, was
   discarded at exit, or is still queued.
   */
  lemma HandledInOrder(s: State, r: RouteId)
    requires Reachable(s) && r < |s.routes|
    ensures var rt := s.routes[r];
            && rt.sent == rt.handled + rt.discarded + rt.inbox
            && rt.handled <= rt.sent
            && |rt.inbox| <= 64
            && (!rt.pc.LeftLoop() ==> rt.sent == rt.handled + rt.inbox)
  {
    ReachableInv(s);
    assert RouteInv(s, r);
    var rt := s.routes[r];
    assert rt.sent == rt.handled + (rt.discarded + rt.inbox);
    if !rt.pc.LeftLoop() {
      assert rt.handled + rt.discarded == rt.handled;
    }
  }

  /** A frame is given up for a route only when 64 frames already wait there, and then it is never sent. */
  lemma DropsOnlyWhenFull(s: State, f: FrameId, a: Action)
    requires Reachable(s) && FrameAt(s, f) && s.frames[f].pc.Retained? && Enabled(s, a)
    requires FrameAt(Apply(s, a), f) && Apply(s, a).frames[f].pc != s.frames[f].pc
    ensures var r := s.frames[f].pc.route;
            && r < |s.routes| && r < |Apply(s, a).routes|
            && (Apply(s, a).frames[f].pc.Full? <==> |s.routes[r].inbox| == 64)
            && (!Apply(s, a).frames[f].pc.Full? ==> Apply(s, a).routes[r].inbox == s.routes[r].inbox + [f])
  {
    hide Reachable, TableStep, StopStep, DrainStep;
    var r := s.frames[f].pc.route;
    assert r < |s.routes| && |s.routes[r].inbox| <= 64 by { RetainedRoute(s, f); }
    OnlyItsDispatch(s, f, a);
  }

  lemma RetainedRoute(s: State, f: FrameId)
    requires Reachable(s) && FrameAt(s, f) && s.frames[f].pc.Retained?
    ensures s.frames[f].pc.route < |s.routes| && |s.routes[s.frames[f].pc.route].inbox| <= 64
  {
    ReachableInv(s);
    assert FrameInv(s, f);
    HandledInOrder(s, s.frames[f].pc.route);
  }

  lemma OnlyItsDispatch(s: State, f: FrameId, a: Action)
    requires FrameAt(s, f) && s.frames[f].pc.Retained? && Enabled(s, a)
    ensures FrameAt(Apply(s, a), f)
    ensures a == OnDispatch(Send(f)) || a == OnDispatch(TakeDefault(f)) || Apply(s, a).frames[f].pc == s.frames[f].pc
  {
    hide TableStep, StopStep, DrainStep;
    match a
    case OnDispatch(_) =>
    case _ => OthersKeepPc(s, f, a);
  }

  /** Table sections, removers and drainers leave every dispatch where it is. */
  lemma OthersKeepPc(s: State, f: FrameId, a: Action)
    requires FrameAt(s, f) && Enabled(s, a) && !a.OnDispatch?
    ensures FrameAt(Apply(s, a), f) && Apply(s, a).frames[f].pc == s.frames[f].pc
  {
  }

  // ----- Linking and unlinking -----

  /** The removal that the newest remover starts: the routes are unlinked, and it is to stop each of them once. */
  ghost predicate StartsRemoval(s: State, s': State, gone: set<RouteId>) {
    && s'.table == s.table - gone
    && |s'.removers| == |s.removers| + 1 && s'.removers[..|s.removers|] == s.removers
    && var todo := s'.removers[|s.removers|].todo;
       (forall r :: r in todo <==> r in gone) && forall i, j :: 0 <= i < j < |todo| ==> todo[i] != todo[j]
  }

  /**
   What the sections under the write lock do: AddRoute links one new, running
   route; RemoveRoute, RemoveAllRoutes and Close unlink the route, the routes of
   the source, and all routes, and start stopping exactly those.
   */
  lemma SectionsLinkAndUnlink(s: State, m: TableAction)
    requires Reachable(s) && TableEnabled(s, m)
    ensures var s' := TableStep(s, m);
            && s'.adders == s.adders + (if m.AddCheck? then 1 else if m.AddLink? || m.AddFail? then -1 else 0)
            && match m
            case AddLink(src, consumer) =>
              && |s'.routes| == |s.routes| + 1 && s'.routes[..|s.routes|] == s.routes
              && s'.table == s.table + {|s.routes|}
              && var rt := s'.routes[|s.routes|];
                 rt.src == src && rt.consumer == consumer && rt.inbox == [] && rt.pc == Selecting && rt.sent == []
            case RemoveRoute(r) => StartsRemoval(s, s', {r})
            case RemoveAllRoutes(source, _) =>
              StartsRemoval(s, s', set r | r in s.table && r < |s.routes| && s.routes[r].src == source)
            case Close(_) => StartsRemoval(s, s', s.table) && s'.table == {}
            case _ => s'.routes == s.routes && s'.table == s.table && s'.removers == s.removers
  {
    ReachableInv(s);
    assert RoutesOf(s, if m.RemoveAllRoutes? then m.source else "") <= s.table;
  }

  /** The drainer has been told to stop: its done channel is closed or the router is cancelled. */
  predicate ToldToStop(s: State, r: RouteId)
    requires r < |s.routes|
  {
    s.routes[r].doneClosed > 0 || s.cancelled
  }

  /** Close's cancel reaches every drainer, also the late ones, and is never taken back. */
  lemma {:induction false} CancelReachesAll(s: State, t: RemoverId, run: seq<Action>, r: RouteId)
    requires StopEnabled(s, Cancel(t)) && Run(StopStep(s, Cancel(t)), run).Reached?
    requires r < |Run(StopStep(s, Cancel(t)), run).state.routes|
    ensures ToldToStop(Run(StopStep(s, Cancel(t)), run).state, r)
  {
    CancelledKept(StopStep(s, Cancel(t)), run);
  }

  lemma {:induction false} CancelledKept(s: State, run: seq<Action>)
    requires s.cancelled && Run(s, run).Reached?
    ensures Run(s, run).state.cancelled
    decreases |run|
  {
    if run != [] {
      CancelledKept(Apply(s, run[0]), run[1..]);
    }
  }

  /** Close cancels the router before it stops the first route. */
  lemma {:induction false} CloseCancelsFirst(s: State, order: seq<RouteId>, run: seq<Action>)
    requires TableEnabled(s, Close(order)) && Run(TableStep(s, Close(order)), run).Reached?
    ensures var s', t := Run(TableStep(s, Close(order)), run).state, |s.removers|;
            t < |s'.removers| && (s'.cancelled || s'.removers[t] == Remover(order, CancelNext))
  {
    CancelComesFirst(TableStep(s, Close(order)), |s.removers|, order, run);
  }

  lemma {:induction false} CancelComesFirst(s: State, t: RemoverId, order: seq<RouteId>, run: seq<Action>)
    requires t < |s.removers| && (s.cancelled || s.removers[t] == Remover(order, CancelNext))
    requires Run(s, run).Reached?
    ensures var s' := Run(s, run).state;
            t < |s'.removers| && (s'.cancelled || s'.removers[t] == Remover(order, CancelNext))
    decreases |run|
  {
    hide Apply, Enabled;
    if run != [] {
      CancelIsNext(s, t, order, run[0]);
      CancelComesFirst(Apply(s, run[0]), t, order, run[1..]);
    }
  }

  lemma CancelIsNext(s: State, t: RemoverId, order: seq<RouteId>, a: Action)
    requires t < |s.removers| && (s.cancelled || s.removers[t] == Remover(order, CancelNext)) && Enabled(s, a)
    ensures var s' := Apply(s, a);
            t < |s'.removers| && (s'.cancelled || s'.removers[t] == Remover(order, CancelNext))
  {
    hide DispatchStep, DrainStep;
    if a.OnDispatch? || a.OnDrain? {
      FramesLeaveControl(s, a);
    }
  }

  /** The state that links routes and stops them; no dispatch and no drainer changes it, save to unlink a route. */
  predicate ControlKept(s: State, s': State) {
    && s'.removers == s.removers && s'.cancelled == s.cancelled && s'.adders == s.adders
    && |s'.routes| == |s.routes| && s'.table <= s.table
  }

  lemma FramesLeaveControl(s: State, a: Action)
    requires Enabled(s, a) && (a.OnDispatch? || a.OnDrain?)
    ensures ControlKept(s, Apply(s, a))
  {
    hide DispatchStep, DrainStep;
    match a
    case OnDispatch(d) => DispatchLeavesControl(s, d);
    case OnDrain(e) => DrainLeavesControl(s, e);
  }

  lemma DispatchLeavesControl(s: State, d: DispatchAction)
    requires DispatchEnabled(s, d)
    ensures ControlKept(s, DispatchStep(s, d))
  {
  }

  lemma DrainLeavesControl(s: State, e: DrainAction)
    requires DrainEnabled(s, e)
    ensures ControlKept(s, DrainStep(s, e))
  {
  }

  /** With the router cancelled and no AddRoute past its closed check, no route is ever linked again. */
  lemma {:induction false} ClosedForGood(s: State, run: seq<Action>)
    requires s.cancelled && s.adders == 0 && Run(s, run).Reached?
    ensures var s' := Run(s, run).state; |s'.routes| == |s.routes| && s'.table <= s.table
    decreases |run|
  {
    hide Apply, Enabled;
    if run != [] {
      NoNewRoute(s, run[0]);
      ClosedForGood(Apply(s, run[0]), run[1..]);
    }
  }

  lemma NoNewRoute(s: State, a: Action)
    requires s.cancelled && s.adders == 0 && Enabled(s, a)
    ensures var s' := Apply(s, a);
            s'.cancelled && s'.adders == 0 && |s'.routes| == |s.routes| && s'.table <= s.table
  {
    hide DispatchStep, DrainStep;
    if a.OnDispatch? || a.OnDrain? {
      FramesLeaveControl(s, a);
    }
  }

  predicate IsClose(a: Action) {
    a.OnTable? && a.table.Close?
  }

  predicate IsLink(a: Action) {
    a.OnTable? && a.table.AddLink?
  }

  predicate IsLate(s: State, r: RouteId) {
    r < |s.routes| && s.routes[r].late
  }

  /** The routes that some leak-freedom statements leave out are those of an AddRoute that links after a Close. */
  lemma {:induction false} LateNeedsClose(run: seq<Action>, r: RouteId)
    requires Run(Init(), run).Reached? && IsLate(Run(Init(), run).state, r)
    ensures exists i, j :: 0 <= i < j < |run| && IsClose(run[i]) && IsLink(run[j])
  {
    var i, j := LateLinks(Init(), run, r);
  }

  lemma {:induction false} LateLinks(s: State, run: seq<Action>, r: RouteId) returns (i: int, j: nat)
    requires Run(s, run).Reached? && !IsLate(s, r) && IsLate(Run(s, run).state, r)
    ensures -1 <= i < j < |run| && IsLink(run[j])
    ensures if i >= 0 then IsClose(run[i]) else s.cleared
    decreases |run|
  {
    hide Apply, Enabled, IsLate, IsLink, IsClose;
    var s' := Apply(s, run[0]);
    LateStep(s, run[0], r);
    if IsLate(s', r) {
      i, j := -1, 0;
    } else {
      i, j := LateLinks(s', run[1..], r);
      i, j := if i >= 0 then i + 1 else if s.cleared then -1 else 0, j + 1;
    }
  }

  lemma LateStep(s: State, a: Action, r: RouteId)
    requires Enabled(s, a)
    ensures IsLate(Apply(s, a), r) && !IsLate(s, r) ==> IsLink(a) && s.cleared
    ensures Apply(s, a).cleared && !s.cleared ==> IsClose(a)
  {
    hide DispatchStep, DrainStep;
    match a
    case OnDispatch(d) => DispatchKeepsLate(s, d, r);
    case OnDrain(e) => DrainKeepsLate(s, e, r);
    case _ =>
  }

  lemma DispatchKeepsLate(s: State, d: DispatchAction, r: RouteId)
    requires DispatchEnabled(s, d)
    ensures (IsLate(DispatchStep(s, d), r) <==> IsLate(s, r)) && DispatchStep(s, d).cleared == s.cleared
  {
  }

  lemma DrainKeepsLate(s: State, e: DrainAction, r: RouteId)
    requires DrainEnabled(s, e)
    ensures (IsLate(DrainStep(s, e), r) <==> IsLate(s, r)) && DrainStep(s, e).cleared == s.cleared
  {
  }

  /** No source ever has two linked routes to one consumer. */
  lemma OneRoutePerPair(s: State, r: RouteId, q: RouteId)
    requires Reachable(s) && r in s.table && q in s.table && r < |s.routes| && q < |s.routes|
    requires s.routes[r].src == s.routes[q].src && s.routes[r].consumer == s.routes[q].consumer
    ensures r == q
  {
    ReachableInv(s);
  }

  // ----- Teardown -----

  /** At most one party is entitled to stop a route, and only a party that unlinked it. */
  lemma SingleTeardownOwner(s: State, r: RouteId, t: RemoverId, u: RemoverId)
    requires Reachable(s) && r < |s.routes| && t < |s.removers| && u < |s.removers|
    requires r in s.removers[t].todo
    ensures r in s.removers[u].todo ==> u == t
    ensures r !in s.table && !s.routes[r].pc.OwnsRoute()
    ensures s.routes[r].disposed == 0
  {
    ReachableInv(s);
    assert RouteInv(s, r) && RemoverInv(s, t) && RemoverInv(s, u);
    var i :| 0 <= i < |s.removers[t].todo| && s.removers[t].todo[i] == r;
    if r in s.removers[u].todo {
      var j :| 0 <= j < |s.removers[u].todo| && s.removers[u].todo[j] == r;
    }
  }

  /**
   The done channel is never closed twice, the consumer and resampler are closed
   at most once, and only after the drainer has made its last use of them: it has
   announced `stopped`, or it is the panicking drainer itself, past its loop.
   */
  lemma ClosedOnceAfterLastUse(s: State, r: RouteId)
    requires Reachable(s) && r < |s.routes|
    ensures var rt := s.routes[r];
            && rt.doneClosed <= 1 && rt.disposed <= 1
            && (rt.disposed == 1 ==> (rt.pc.Exiting? || rt.pc.Exited?) && r !in s.table)
            && (rt.pc.Selecting? || rt.pc.Handling? ==> rt.disposed == 0)
    ensures forall t :: 0 <= t < |s.removers| && StopEnabled(s, Dispose(t)) && s.removers[t].todo[0] == r ==>
              s.routes[r].pc.Exited? && s.routes[r].disposed == 0 && s.routes[r].doneClosed == 1
    ensures forall t :: 0 <= t < |s.removers| && StopEnabled(s, Signal(t)) && s.removers[t].todo[0] == r ==>
              s.routes[r].doneClosed == 0
    ensures forall t :: 0 <= t < |s.removers| && StopEnabled(s, Timeout(t)) && s.removers[t].todo[0] == r ==>
              s.routes[r].doneClosed == 1
  {
    ReachableInv(s);
    assert RouteInv(s, r);
    forall t | 0 <= t < |s.removers| && StopperAt(s, t) && s.removers[t].todo[0] == r ensures RemoverInv(s, t) { }
  }

  /** The action gives up the wait for route r's drainer. */
  predicate GivesUp(s: State, a: Action, r: RouteId) {
    a.OnStop? && a.stop.Timeout? && StopperAt(s, a.stop.t) && s.removers[a.stop.t].todo[0] == r
  }

  /** Somewhere in the run the wait for route r's drainer is given up. */
  predicate GivenUp(s: State, run: seq<Action>, r: RouteId)
    decreases |run|
  {
    run != [] && Enabled(s, run[0]) && (GivesUp(s, run[0], r) || GivenUp(Apply(s, run[0]), run[1..], r))
  }

  predicate GaveUp(s: State, r: RouteId) {
    r < |s.routes| && s.routes[r].timedOut
  }

  lemma GaveUpStep(s: State, a: Action, r: RouteId)
    requires Enabled(s, a)
    ensures GaveUp(Apply(s, a), r) <==> GaveUp(s, r) || GivesUp(s, a, r)
  {
    match a
    case OnDispatch(d) => GaveUpDispatch(s, d, r);
    case OnTable(m) => GaveUpTable(s, m, r);
    case OnStop(p) =>
    case OnDrain(e) => GaveUpDrain(s, e, r);
  }

  lemma GaveUpDispatch(s: State, d: DispatchAction, r: RouteId)
    requires DispatchEnabled(s, d)
    ensures GaveUp(DispatchStep(s, d), r) <==> GaveUp(s, r)
  {
  }

  lemma GaveUpTable(s: State, m: TableAction, r: RouteId)
    requires TableEnabled(s, m)
    ensures GaveUp(TableStep(s, m), r) <==> GaveUp(s, r)
  {
  }

  lemma GaveUpDrain(s: State, e: DrainAction, r: RouteId)
    requires DrainEnabled(s, e)
    ensures GaveUp(DrainStep(s, e), r) <==> GaveUp(s, r)
  {
  }

  lemma {:induction false} GaveUpIff(s: State, run: seq<Action>, r: RouteId)
    requires Run(s, run).Reached?
    ensures GaveUp(Run(s, run).state, r) <==> GaveUp(s, r) || GivenUp(s, run, r)
    decreases |run|
  {
    hide Enabled, Apply, GaveUp, GivesUp;
    if run != [] {
      GaveUpStep(s, run[0], r);
      GaveUpIff(Apply(s, run[0]), run[1..], r);
    }
  }

  /** Nobody is left who would still tear the route down: it is unlinked, on no list, and not its drainer's to close. */
  predicate TornDown(s: State, r: RouteId) {
    && r < |s.routes| && r !in s.table && !s.routes[r].pc.OwnsRoute()
    && forall t :: 0 <= t < |s.removers| ==> r !in s.removers[t].todo
  }

  /**
   Tearing a route down closes its consumer and resampler: once every party that
   could do so is done with it, by a removal, by Close or by a panic, they have been
   closed exactly once, unless some wait for its drainer was given up, and then not
   at all.
   */
  lemma {:induction false} ClosedUnlessGivenUp(run: seq<Action>, r: RouteId)
    requires Run(Init(), run).Reached? && TornDown(Run(Init(), run).state, r)
    ensures Run(Init(), run).state.routes[r].disposed == if GivenUp(Init(), run, r) then 0 else 1
  {
    var s := Run(Init(), run).state;
    GaveUpIff(Init(), run, r);
    ReachableInv(s);
    assert RouteInv(s, r);
  }

  // ----- Leak-freedom -----

  /** After a drainer has emptied its inbox on the way out, the inbox stays empty in every run. */
  lemma {:induction false} DrainedStaysEmpty(s: State, run: seq<Action>, r: RouteId)
    requires Inv(s) && r < |s.routes| && s.routes[r].pc.Drained() && !s.routes[r].late
    requires Run(s, run).Reached?
    ensures var s' := Run(s, run).state;
            r < |s'.routes| && s'.routes[r].inbox == [] && r !in s'.table && s'.routes[r].pc.Drained()
    decreases |run|
  {
    assert RouteInv(s, r);
    if run != [] {
      StepShape(s, run[0]);
      assert RouteShape(s, Apply(s, run[0]), run[0], r);
      StepInv(s, run[0]);
      DrainedStaysEmpty(Apply(s, run[0]), run[1..], r);
    }
  }

  /**
   No frame leaks: once its producer has released it and every route that accepted
   it has either handled it or shut down (by removal, by Close or by a panic), its
   closure has run, exactly once. Routes linked by an AddRoute that overlapped Close
   are the one exception; see StrandingNeedsLinkedRoute.
   */
  lemma NoFrameLeaks(s: State, f: FrameId)
    requires Reachable(s) && f < |s.frames| && s.frames[f].pc.Finished?
    requires forall r :: 0 <= r < |s.routes| && Copies(s.routes[r], f) > 0 ==>
              s.routes[r].pc.Drained() && !s.routes[r].late
    ensures s.frames[f].remaining == 0 && s.frames[f].fired == 1
  {
    ReachableInv(s);
    forall r | 0 <= r < |s.routes| ensures Copies(s.routes[r], f) == 0 {
      assert RouteInv(s, r);
    }
    TotalZero(s.routes, f);
    assert FrameInv(s, f);
  }

  // ----- Shutdown makes progress -----

  /** At most how many own steps a drainer that gets no more frames still has to take, wherever it is. */
  function StepsToExit(rt: Route): nat {
    match rt.pc
    case Handling(_) => 2 * |rt.inbox| + 5
    case Selecting => 2 * |rt.inbox| + 4
    case Panicked => 2 * |rt.inbox| + 4
    case Draining(_) => 2 * |rt.inbox| + 3
    case Releasing(_, _) => 2 * |rt.inbox| + 4
    case Disposing => 2
    case Exiting => 1
    case Exited => 0
  }

  /** A step the drainer can take next; with the stop signal up, `SeeDone` or `SeeCancelled` is always among them. */
  function NextOwn(s: State, r: RouteId): DrainAction
    requires r < |s.routes| && !s.routes[r].pc.Exited?
  {
    match s.routes[r].pc
    case Selecting => if s.routes[r].doneClosed > 0 then SeeDone(r) else SeeCancelled(r)
    case Handling(_) => HandleReturn(r)
    case Panicked => PanicUnlink(r)
    case Draining(_) => if s.routes[r].inbox == [] then InboxEmpty(r) else Pop(r)
    case Releasing(_, _) => ReleasePopped(r)
    case Disposing => SelfDispose(r)
    case Exiting => CloseStopped(r)
  }

  lemma OthersAddNothing(s: State, r: RouteId, a: Action)
    requires Inv(s) && r < |s.routes| && r !in s.table && Enabled(s, a)
    ensures var s' := Apply(s, a);
            r < |s'.routes| && (s.routes[r].pc.LeftLoop() ==> s'.routes[r].pc.LeftLoop())
            && (!(a.OnDrain? && a.drain.r == r) ==>
                  s'.routes[r].pc == s.routes[r].pc && s'.routes[r].inbox == s.routes[r].inbox && r !in s'.table)
  {
    StepShape(s, a);
    assert RouteShape(s, Apply(s, a), a, r);
    if a.OnDispatch? && a.dispatch.Send? {
      assert FrameInv(s, a.dispatch.f);
    }
  }

  lemma OwnStepCounts(s: State, e: DrainAction)
    requires DrainEnabled(s, e)
    ensures var s' := DrainStep(s, e);
            && e.r < |s'.routes| && StepsToExit(s'.routes[e.r]) < StepsToExit(s.routes[e.r])
            && (s.routes[e.r].pc.LeftLoop() ==> s'.routes[e.r].pc.LeftLoop())
  {
  }

  /** What a drainer holds, its route was sent, so the frame exists. */
  lemma HeldFrameExists(s: State, r: RouteId)
    requires Inv(s) && r < |s.routes| && (s.routes[r].pc.Handling? || s.routes[r].pc.Releasing?)
    ensures FrameAt(s, s.routes[r].pc.frame)
  {
    assert RouteInv(s, r);
    SentCovers(s, s.routes[r]);
    assert Copies(s.routes[r], s.routes[r].pc.frame) > 0;
  }

  /**
   The wait of stopRoute is finite: from the moment a route is unlinked, wherever
   its drainer is, every step of the drainer counts down and no other party's step
   adds to what is left. Once told to stop, the drainer always has a next step; only
   a panicked one may first have to wait for the dispatchers to leave the read lock.
   */
  lemma {:induction false} ShutdownProgress(s: State, r: RouteId, a: Action)
    requires Reachable(s) && r < |s.routes| && Enabled(s, a)
    requires r !in s.table
    ensures !s.routes[r].pc.Exited? && (s.routes[r].pc.Selecting? ==> ToldToStop(s, r))
            && (s.routes[r].pc.Panicked? ==> s.readers == {}) ==>
              DrainEnabled(s, NextOwn(s, r))
    ensures var s' := Apply(s, a);
            && r < |s'.routes| && r !in s'.table
            && (s.routes[r].pc.LeftLoop() ==> s'.routes[r].pc.LeftLoop())
            && StepsToExit(s'.routes[r]) <= StepsToExit(s.routes[r])
            && (a.OnDrain? && a.drain.r == r ==> StepsToExit(s'.routes[r]) < StepsToExit(s.routes[r]))
  {
    ReachableInv(s);
    if s.routes[r].pc.Handling? || s.routes[r].pc.Releasing? {
      HeldFrameExists(s, r);
    }
    OthersAddNothing(s, r, a);
    if a.OnDrain? && a.drain.r == r {
      OwnStepCounts(s, a.drain);
      StaysUnlinked(s, r, a);
    }
  }

  lemma StaysUnlinked(s: State, r: RouteId, a: Action)
    requires r < |s.routes| && r !in s.table && Enabled(s, a)
    ensures r !in Apply(s, a).table
  {
    StepShape(s, a);
    assert RouteShape(s, Apply(s, a), a, r);
  }

  /** How many steps of the run route r's drainer takes. */
  function OwnSteps(run: seq<Action>, r: RouteId): nat
    decreases |run|
  {
    if run == [] then 0 else (if run[0].OnDrain? && run[0].drain.r == r then 1 else 0) + OwnSteps(run[1..], r)
  }

  /** However the other parties interleave, the drainer of an unlinked route takes only so many more steps. */
  lemma {:induction false} ShutdownBound(s: State, run: seq<Action>, r: RouteId)
    requires Reachable(s) && r < |s.routes| && r !in s.table && Run(s, run).Reached?
    ensures var s' := Run(s, run).state;
            && r < |s'.routes| && r !in s'.table
            && OwnSteps(run, r) + StepsToExit(s'.routes[r]) <= StepsToExit(s.routes[r])
    decreases |run|
  {
    hide Enabled, Apply, StepsToExit;
    if run != [] {
      ShutdownProgress(s, r, run[0]);
      ReachableStep(s, run[0]);
      ShutdownBound(Apply(s, run[0]), run[1..], r);
    }
  }

  // ----- Nobody waits for a drainer -----

  /** What a producer does next with its frame; `r` is the route it picks while it goes through them. */
  function NextDispatch(s: State, f: FrameId, r: RouteId): DispatchAction
    requires FrameAt(s, f)
  {
    match s.frames[f].pc
    case Created => Enter(f)
    case Looping(todo) => if todo == {} then Leave(f) else RetainFor(f, r)
    case Retained(route, _) =>
      if DrainerAt(s, route) && |s.routes[route].inbox| < INBOX_CAPACITY then Send(f) else TakeDefault(f)
    case Full(_, _) => UndoRetain(f)
    case Dispatched => ProducerRelease(f)
    case Finished => ProducerRelease(f)
  }

  /** Steps a dispatch has left: none depends on how full the inboxes are. */
  function DispatchSteps(pc: DispatchPc): nat {
    match pc
    case Created => 0
    case Looping(todo) => 3 * |todo| + 2
    case Retained(_, todo) => 3 * |todo| + 4
    case Full(_, todo) => 3 * |todo| + 3
    case Dispatched => 1
    case Finished => 0
  }

  /**
   Dispatch never blocks: at every point the producer's next step is possible,
   whatever the drainers do, and once it is under way each step brings its end closer.
   */
  lemma DispatchNeverBlocks(s: State, f: FrameId, r: RouteId)
    requires Reachable(s) && FrameAt(s, f) && !s.frames[f].pc.Finished?
    requires s.frames[f].pc.Looping? && s.frames[f].pc.todo != {} ==> r in s.frames[f].pc.todo
    ensures DispatchEnabled(s, NextDispatch(s, f, r))
    ensures var s' := DispatchStep(s, NextDispatch(s, f, r));
            && FrameAt(s', f)
            && (!s.frames[f].pc.Created? ==> DispatchSteps(s'.frames[f].pc) < DispatchSteps(s.frames[f].pc))
  {
    ReachableInv(s);
    NextDispatchPossible(s, f, r);
    DispatchCounts(s, f, r);
  }

  lemma NextDispatchPossible(s: State, f: FrameId, r: RouteId)
    requires Inv(s) && FrameAt(s, f) && !s.frames[f].pc.Finished?
    requires s.frames[f].pc.Looping? && s.frames[f].pc.todo != {} ==> r in s.frames[f].pc.todo
    ensures DispatchEnabled(s, NextDispatch(s, f, r))
  {
    assert FrameInv(s, f);
    var pc := s.frames[f].pc;
    if pc.Retained? || pc.Full? {
      assert pc.route in s.table;
      assert RouteInv(s, pc.route);
    }
  }

  lemma DispatchCounts(s: State, f: FrameId, r: RouteId)
    requires FrameAt(s, f) && !s.frames[f].pc.Finished? && DispatchEnabled(s, NextDispatch(s, f, r))
    ensures var s' := DispatchStep(s, NextDispatch(s, f, r));
            && FrameAt(s', f)
            && (!s.frames[f].pc.Created? ==> DispatchSteps(s'.frames[f].pc) < DispatchSteps(s.frames[f].pc))
  {
    var pc := s.frames[f].pc;
    if pc.Looping? && pc.todo != {} {
      assert |pc.todo - {r}| == |pc.todo| - 1;
    }
  }

  /** What a remover does next; it may also find that the drainer has stopped. */
  function NextStop(rm: Remover, t: RemoverId): StopAction {
    match rm.pc
    case CancelNext => Cancel(t)
    case SignalNext => Signal(t)
    case Waiting => Timeout(t)
    case DisposeNext => Dispose(t)
  }

  function StopSteps(rm: Remover): nat {
    4 * |rm.todo| + match rm.pc
                    case CancelNext => 3
                    case SignalNext => 2
                    case Waiting => 1
                    case DisposeNext => 0
  }

  /** A removal never hangs: its next step is possible until every route on its list is done with, and brings that
    * closer; where the drainer has stopped in time, the remover can always see it.
    */
  lemma RemoverNeverHangs(s: State, t: RemoverId)
    requires Reachable(s) && t < |s.removers| && (s.removers[t].todo != [] || s.removers[t].pc.CancelNext?)
    ensures StopEnabled(s, NextStop(s.removers[t], t))
    ensures StopSteps(StopStep(s, NextStop(s.removers[t], t)).removers[t]) < StopSteps(s.removers[t])
    ensures s.removers[t].pc.Waiting? && s.routes[s.removers[t].todo[0]].pc.Exited? ==>
              && StopEnabled(s, SeeStopped(t))
              && StopSteps(StopStep(s, SeeStopped(t)).removers[t]) < StopSteps(s.removers[t])
  {
    ReachableInv(s);
    assert RemoverInv(s, t);
  }

  // ----- AddRoute overlapping Close -----

  /** A dead drainer's inbox can still grow in some run from s. */
  ghost predicate CanStrand(s: State, r: RouteId) {
    exists run :: Strands(s, run, r)
  }

  ghost predicate Strands(s: State, run: seq<Action>, r: RouteId) {
    var o := Run(s, run);
    r < |s.routes| && o.Reached? && r < |o.state.routes| && |o.state.routes[r].inbox| > |s.routes[r].inbox|
  }

  lemma {:induction false} UnlinkedInboxFixedRun(s: State, run: seq<Action>, r: RouteId)
    requires Inv(s) && r < |s.routes| && s.routes[r].pc.Exited? && r !in s.table && Run(s, run).Reached?
    ensures var s' := Run(s, run).state; r < |s'.routes| && s'.routes[r].inbox == s.routes[r].inbox
    decreases |run|
  {
    if run != [] {
      StepShape(s, run[0]);
      assert RouteShape(s, Apply(s, run[0]), run[0], r);
      OthersAddNothing(s, r, run[0]);
      StepInv(s, run[0]);
      UnlinkedInboxFixedRun(Apply(s, run[0]), run[1..], r);
    }
  }

  /** The run that strands a frame on a linked route with a dead drainer. */
  function StrandingRun(s: State, r: RouteId): seq<Action>
    requires r < |s.routes|
  {
    var f := |s.frames|;
    [OnDispatch(NewFrame(s.routes[r].src)), OnDispatch(Enter(f)), OnDispatch(RetainFor(f, r)), OnDispatch(Send(f))]
  }

  lemma LinkedRouteStrands(s: State, r: RouteId)
    requires Inv(s) && r < |s.routes| && r in s.table && |s.routes[r].inbox| < INBOX_CAPACITY
    ensures Strands(s, StrandingRun(s, r), r)
  {
    var f := |s.frames|;
    var a1, a2 := OnDispatch(NewFrame(s.routes[r].src)), OnDispatch(Enter(f));
    var a3, a4 := OnDispatch(RetainFor(f, r)), OnDispatch(Send(f));
    var s1 := Apply(s, a1);
    var s2 := Apply(s1, a2);
    assert r in RoutesOf(s1, s.routes[r].src);
    var s3 := Apply(s2, a3);
    var s4 := Apply(s3, a4);
    RunCons(s3, a4, []);
    RunCons(s2, a3, [a4]);
    RunCons(s1, a2, [a3] + [a4]);
    RunCons(s, a1, [a2] + ([a3] + [a4]));
    assert [a1] + ([a2] + ([a3] + [a4])) == StrandingRun(s, r);
    assert s4.routes[r].inbox == s.routes[r].inbox + [f];
  }

  /**
   Exactly when does the protocol leak? A route whose drainer is gone can be fed
   again if and only if it is still linked, and a route in that position was
   linked by an AddRoute whose closed check came before Close and whose insertion
   came after it.
   */
  lemma StrandingNeedsLinkedRoute(s: State, r: RouteId)
    requires Reachable(s) && r < |s.routes| && s.routes[r].pc.Exited? && |s.routes[r].inbox| < INBOX_CAPACITY
    ensures CanStrand(s, r) <==> r in s.table
    ensures r in s.table ==> s.routes[r].late
  {
    ReachableInv(s);
    assert RouteInv(s, r);
    if r in s.table {
      LinkedRouteStrands(s, r);
    } else {
      forall run ensures !Strands(s, run, r) {
        if Run(s, run).Reached? { UnlinkedInboxFixedRun(s, run, r); }
      }
    }
  }

  /** A frame on a dead drainer's inbox is never released, whatever happens next. */
  lemma {:induction false} StrandedForever(s: State, run: seq<Action>, r: RouteId, f: FrameId)
    requires Inv(s) && r < |s.routes| && f < |s.frames| && s.routes[r].pc.Exited? && f in s.routes[r].inbox
    requires Run(s, run).Reached?
    ensures var s' := Run(s, run).state;
            f < |s'.frames| && s'.frames[f].fired == 0 && r < |s'.routes| && f in s'.routes[r].inbox
    decreases |run|
  {
    if run == [] {
      assert FrameInv(s, f);
      TotalAtLeast(s.routes, r, f);
    } else {
      StrandedStep(s, run[0], r, f);
      StepInv(s, run[0]);
      StrandedForever(Apply(s, run[0]), run[1..], r, f);
    }
  }

  lemma StrandedStep(s: State, a: Action, r: RouteId, f: FrameId)
    requires Enabled(s, a)
    requires r < |s.routes| && f < |s.frames| && s.routes[r].pc.Exited? && f in s.routes[r].inbox
    ensures var s' := Apply(s, a);
            f < |s'.frames| && r < |s'.routes| && s'.routes[r].pc.Exited? && f in s'.routes[r].inbox
  {
    StepShape(s, a);
    assert RouteShape(s, Apply(s, a), a, r) && FrameShape(s, Apply(s, a), f);
  }

  /** The overlap is possible: a reachable state with a linked route whose drainer has exited. */
  lemma OverlapReachable() returns (s: State)
    ensures Reachable(s) && 0 in s.table && |s.routes| == 1 && s.routes[0].pc.Exited? && s.routes[0].late
    ensures CanStrand(s, 0)
  {
    hide Run, Reachable;
    InitReachable();
    s := TakeStep(Init(), OnTable(AddCheck));
    s := TakeStep(s, OnTable(Close([])));
    s := TakeStep(s, OnStop(Cancel(0)));
    s := TakeStep(s, OnTable(AddLink("mic", "buffer")));
    s := TakeStep(s, OnDrain(SeeCancelled(0)));
    s := TakeStep(s, OnDrain(InboxEmpty(0)));
    s := TakeStep(s, OnDrain(CloseStopped(0)));
    ReachableInv(s);
    LinkedRouteStrands(s, 0);
  }

  lemma TakeStep(s: State, a: Action) returns (s': State)
    requires Reachable(s) && Enabled(s, a)
    ensures s' == Apply(s, a) && Reachable(s')
  {
    ReachableStep(s, a);
    s' := Apply(s, a);
  }
}
