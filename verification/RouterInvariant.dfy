/** The inductive invariant of the router protocol and its preservation by every action. */
module RouterInvariant {
  import opened RouterProtocol
  import opened Runs
  import opened Sequences

  // ----- Counting the references a frame has inside routes -----

  /** References to frame f held by one route: queued copies plus the one its drainer works on. */
  function Copies(rt: Route, f: FrameId): nat {
    multiset(rt.inbox)[f] + if rt.pc.Holds(f) then 1 else 0
  }

  function TotalCopies(routes: seq<Route>, f: FrameId): nat {
    if routes == [] then 0
    else TotalCopies(routes[..|routes| - 1], f) + Copies(routes[|routes| - 1], f)
  }

  lemma {:induction false} TotalUpdate(routes: seq<Route>, r: RouteId, rt: Route, f: FrameId)
    requires r < |routes|
    ensures TotalCopies(routes[r := rt], f) == TotalCopies(routes, f) - Copies(routes[r], f) + Copies(rt, f)
  {
    var n := |routes| - 1;
    if r == n {
      assert routes[r := rt][..n] == routes[..n];
    } else {
      assert routes[r := rt][..n] == routes[..n][r := rt];
      TotalUpdate(routes[..n], r, rt, f);
    }
  }

  lemma {:induction false} TotalSame(xs: seq<Route>, ys: seq<Route>, f: FrameId)
    requires |xs| == |ys|
    requires forall i :: 0 <= i < |xs| ==> Copies(xs[i], f) == Copies(ys[i], f)
    ensures TotalCopies(xs, f) == TotalCopies(ys, f)
  {
    if xs != [] {
      var n := |xs| - 1;
      TotalSame(xs[..n], ys[..n], f);
    }
  }

  lemma {:induction false} TotalAtLeast(routes: seq<Route>, r: RouteId, f: FrameId)
    requires r < |routes|
    ensures TotalCopies(routes, f) >= Copies(routes[r], f)
  {
    var n := |routes| - 1;
    if r < n {
      TotalAtLeast(routes[..n], r, f);
    }
  }

  lemma {:induction false} TotalZero(routes: seq<Route>, f: FrameId)
    requires forall i :: 0 <= i < |routes| ==> Copies(routes[i], f) == 0
    ensures TotalCopies(routes, f) == 0
  {
    if routes != [] {
      TotalZero(routes[..|routes| - 1], f);
    }
  }

  lemma TotalAppend(routes: seq<Route>, rt: Route, f: FrameId)
    ensures TotalCopies(routes + [rt], f) == TotalCopies(routes, f) + Copies(rt, f)
  {
    assert (routes + [rt])[..|routes|] == routes;
  }

  // ----- The invariant -----

  /** The counter of a frame is exactly the number of parties that still refer to it. */
  ghost predicate FrameInv(s: State, f: FrameId)
    requires f < |s.frames|
  {
    var fr := s.frames[f];
    && fr.remaining == fr.pc.ProducerHolds() + fr.pc.Unsent() + TotalCopies(s.routes, f)
    && fr.fired == (if fr.remaining == 0 then 1 else 0)
    && (f in s.readers <==> fr.pc.Reading())
    && fr.pc.Pending() <= s.table
    && fr.pc.Pending() <= fr.offered
    && ((fr.pc.Retained? || fr.pc.Full?) ==> fr.pc.route !in fr.pc.todo)
    && (fr.pc.Created? ==> fr.offered == {})
    && (forall r :: r in fr.offered ==> r < |s.routes|)
  }

  /** Every route a dispatch was offered to got the frame or dropped it, exactly once. */
  ghost predicate Accounted(s: State, f: FrameId, r: RouteId)
    requires f < |s.frames| && r < |s.routes|
  {
    var fr := s.frames[f];
    multiset(s.routes[r].sent)[f] + multiset(s.routes[r].dropped)[f]
    == if r in fr.offered && r !in fr.pc.Pending() then 1 else 0
  }

  /** Order, accounting and drainer position of one route. */
  ghost predicate QueueInv(s: State, rt: Route) {
    && rt.sent == rt.handled + rt.discarded + rt.inbox
    && |rt.inbox| <= INBOX_CAPACITY
    && (!rt.pc.LeftLoop() ==> rt.discarded == [])
    && (rt.pc.Handling? ==> rt.handled != [] && rt.handled[|rt.handled| - 1] == rt.pc.frame)
    && (rt.pc.Releasing? ==> rt.discarded != [] && rt.discarded[|rt.discarded| - 1] == rt.pc.frame)
    && (forall f :: f in rt.sent ==> f < |s.frames|)
    && (forall f :: f in rt.dropped ==> f < |s.frames|)
  }

  /** Who may still tear the route down, and how far that has got. */
  ghost predicate OwnerInv(s: State, r: RouteId, rt: Route) {
    && (r in s.table <==> rt.owner == InTable)
    && (rt.owner == InTable ==> rt.doneClosed == 0)
    && (rt.pc.OwnsRoute() <==> rt.owner == SelfRemoved)
    && (rt.owner == SelfRemoved ==> rt.doneClosed == 0)
    && (rt.owner.Removing? ==> rt.owner.t < |s.removers| && r in s.removers[rt.owner.t].todo)
    && rt.doneClosed <= 1
    && rt.disposed == (if rt.owner == Retired && !rt.timedOut then 1 else 0)
    && (rt.timedOut ==> rt.owner == Retired)
    && (rt.disposed == 1 ==> rt.pc.Exiting? || rt.pc.Exited?)
    && (rt.pc.LeftLoop() && !rt.late ==> r !in s.table)
    && (rt.pc.Drained() && !rt.late ==> rt.inbox == [])
  }

  ghost predicate RouteInv(s: State, r: RouteId)
    requires r < |s.routes|
  {
    QueueInv(s, s.routes[r]) && OwnerInv(s, r, s.routes[r])
  }

  ghost predicate RemoverInv(s: State, t: RemoverId)
    requires t < |s.removers|
  {
    var rm := s.removers[t];
    && NoDuplicates(rm.todo)
    && (forall i :: 0 <= i < |rm.todo| ==>
          && rm.todo[i] < |s.routes|
          && s.routes[rm.todo[i]].owner == Removing(t)
          && s.routes[rm.todo[i]].doneClosed == if i == 0 && (rm.pc.Waiting? || rm.pc.DisposeNext?) then 1 else 0)
    && (rm.pc.Waiting? || rm.pc.DisposeNext? ==> rm.todo != [])
    && (rm.pc.DisposeNext? ==> s.routes[rm.todo[0]].pc.Exited?)
    && (rm.pc.CancelNext? ==> s.cleared)
  }

  ghost predicate TableInv(s: State) {
    && (forall r :: r in s.table ==> r < |s.routes|)
    && (forall f :: f in s.readers ==> f < |s.frames|)
    && (s.cancelled ==> s.cleared)
    && (forall r :: r in s.table && r < |s.routes| && s.cleared ==> s.routes[r].late)
    && (forall r, q :: r in s.table && q in s.table && r < |s.routes| && q < |s.routes| && r != q ==>
          s.routes[r].src != s.routes[q].src || s.routes[r].consumer != s.routes[q].consumer)
  }

  ghost predicate FramesInv(s: State) { forall f :: 0 <= f < |s.frames| ==> FrameInv(s, f) }
  ghost predicate AccountsInv(s: State) {
    forall f, r :: 0 <= f < |s.frames| && 0 <= r < |s.routes| ==> Accounted(s, f, r)
  }
  ghost predicate RoutesInv(s: State) { forall r :: 0 <= r < |s.routes| ==> RouteInv(s, r) }
  ghost predicate RemoversInv(s: State) { forall t :: 0 <= t < |s.removers| ==> RemoverInv(s, t) }

  ghost predicate Inv(s: State) {
    TableInv(s) && FramesInv(s) && AccountsInv(s) && RoutesInv(s) && RemoversInv(s)
  }

  // ----- Producer and Dispatch -----

  lemma StepNewFrame(s: State, src: string)
    requires Inv(s)
    ensures Inv(DispatchStep(s, NewFrame(src)))
  {
    var s' := DispatchStep(s, NewFrame(src));
    var n := |s.frames|;
    forall r | 0 <= r < |s'.routes| ensures RouteInv(s', r) { assert RouteInv(s, r); }
    forall t | 0 <= t < |s'.removers| ensures RemoverInv(s', t) { assert RemoverInv(s, t); }
    forall f | 0 <= f < |s'.frames| ensures FrameInv(s', f) {
      if f < n {
        assert FrameInv(s, f);
      } else {
        forall i | 0 <= i < |s.routes| ensures Copies(s.routes[i], f) == 0 { NotSentYet(s, i, f); }
        TotalZero(s.routes, f);
      }
    }
    forall f, r | 0 <= f < |s'.frames| && 0 <= r < |s'.routes| ensures Accounted(s', f, r) {
      if f < n { assert Accounted(s, f, r); } else { NotSentYet(s, r, f); }
    }
  }

  /** Whatever a route holds was sent to it. */
  lemma SentCovers(s: State, rt: Route)
    requires QueueInv(s, rt)
    ensures forall f :: Copies(rt, f) > 0 ==> f in rt.sent
  {
    forall f | Copies(rt, f) > 0 ensures f in rt.sent {
      if f in rt.inbox {
        var i :| 0 <= i < |rt.inbox| && rt.inbox[i] == f;
        assert rt.sent[|rt.handled| + |rt.discarded| + i] == f;
      } else if rt.pc.Handling? {
        assert rt.sent[|rt.handled| - 1] == f;
      } else {
        assert rt.sent[|rt.handled| + |rt.discarded| - 1] == f;
      }
    }
  }

  /** No route knows a frame that was not created. */
  lemma NotSentYet(s: State, r: RouteId, f: FrameId)
    requires Inv(s) && r < |s.routes| && f >= |s.frames|
    ensures Copies(s.routes[r], f) == 0
    ensures f !in s.routes[r].sent && f !in s.routes[r].dropped
  {
    assert RouteInv(s, r);
    var rt := s.routes[r];
    SentCovers(s, rt);
  }

  /** Replacing one frame, with everything a route or remover looks at unchanged. */
  lemma OtherPartsKept(s: State, s': State)
    requires Inv(s)
    requires |s'.frames| >= |s.frames| && s'.routes == s.routes && s'.removers == s.removers
    requires s'.table == s.table && s'.cleared == s.cleared
    ensures RoutesInv(s') && RemoversInv(s')
  {
    forall r | 0 <= r < |s'.routes| ensures RouteInv(s', r) { assert RouteInv(s, r); }
    forall t | 0 <= t < |s'.removers| ensures RemoverInv(s', t) { assert RemoverInv(s, t); }
  }

  lemma StepEnter(s: State, f: FrameId)
    requires Inv(s) && DispatchEnabled(s, Enter(f))
    ensures Inv(DispatchStep(s, Enter(f)))
  {
    var s' := DispatchStep(s, Enter(f));
    OtherPartsKept(s, s');
    forall g | 0 <= g < |s'.frames| ensures FrameInv(s', g) { assert FrameInv(s, g); }
    forall g, r | 0 <= g < |s'.frames| && 0 <= r < |s'.routes| ensures Accounted(s', g, r) {
      assert Accounted(s, g, r) && FrameInv(s, g);
    }
  }

  lemma StepRetainFor(s: State, f: FrameId, r: RouteId)
    requires Inv(s) && DispatchEnabled(s, RetainFor(f, r))
    ensures Inv(DispatchStep(s, RetainFor(f, r)))
  {
    var s' := DispatchStep(s, RetainFor(f, r));
    OtherPartsKept(s, s');
    forall g | 0 <= g < |s'.frames| ensures FrameInv(s', g) { assert FrameInv(s, g); }
    assert s'.frames[f].pc.Pending() == s.frames[f].pc.Pending();
    forall g, q | 0 <= g < |s'.frames| && 0 <= q < |s'.routes| ensures Accounted(s', g, q) {
      assert Accounted(s, g, q);
    }
  }

  lemma StepTakeDefault(s: State, f: FrameId)
    requires Inv(s) && DispatchEnabled(s, TakeDefault(f))
    ensures Inv(DispatchStep(s, TakeDefault(f)))
  {
    var s' := DispatchStep(s, TakeDefault(f));
    OtherPartsKept(s, s');
    forall g | 0 <= g < |s'.frames| ensures FrameInv(s', g) { assert FrameInv(s, g); }
    forall g, q | 0 <= g < |s'.frames| && 0 <= q < |s'.routes| ensures Accounted(s', g, q) {
      assert Accounted(s, g, q);
    }
  }

  lemma StepLeave(s: State, f: FrameId)
    requires Inv(s) && DispatchEnabled(s, Leave(f))
    ensures Inv(DispatchStep(s, Leave(f)))
  {
    var s' := DispatchStep(s, Leave(f));
    OtherPartsKept(s, s');
    forall g | 0 <= g < |s'.frames| ensures FrameInv(s', g) { assert FrameInv(s, g); }
    forall g, q | 0 <= g < |s'.frames| && 0 <= q < |s'.routes| ensures Accounted(s', g, q) {
      assert Accounted(s, g, q);
    }
  }

  lemma StepProducerRelease(s: State, f: FrameId)
    requires Inv(s) && DispatchEnabled(s, ProducerRelease(f))
    ensures Inv(DispatchStep(s, ProducerRelease(f)))
  {
    var s' := DispatchStep(s, ProducerRelease(f));
    OtherPartsKept(s, s');
    forall g | 0 <= g < |s'.frames| ensures FrameInv(s', g) { assert FrameInv(s, g); }
    forall g, q | 0 <= g < |s'.frames| && 0 <= q < |s'.routes| ensures Accounted(s', g, q) {
      assert Accounted(s, g, q);
    }
  }

  /** Route r changes in its queue or drainer only; nothing removers or the table look at changes. */
  lemma OneRouteKept(s: State, s': State, r: RouteId)
    requires Inv(s) && r < |s.routes|
    requires |s'.frames| == |s.frames| && s'.removers == s.removers
    requires |s'.routes| == |s.routes| && s'.routes == s.routes[r := s'.routes[r]]
    requires s'.table == s.table && s'.cleared == s.cleared && s'.readers == s.readers && s'.cancelled == s.cancelled
    requires var a, b := s.routes[r], s'.routes[r];
             && b.src == a.src && b.consumer == a.consumer && b.late == a.late
             && b.owner == a.owner && b.doneClosed == a.doneClosed
             && (a.pc.Exited? ==> b.pc.Exited?)
    requires RouteInv(s', r)
    ensures RoutesInv(s') && RemoversInv(s') && TableInv(s')
  {
    forall q | 0 <= q < |s'.routes| ensures RouteInv(s', q) { assert RouteInv(s, q); }
    forall t | 0 <= t < |s'.removers| ensures RemoverInv(s', t) { assert RemoverInv(s, t); }
  }

  lemma SendRoute(s: State, f: FrameId)
    requires Inv(s) && DispatchEnabled(s, Send(f))
    ensures var s' := DispatchStep(s, Send(f)); RoutesInv(s') && RemoversInv(s') && TableInv(s')
  {
    var s' := DispatchStep(s, Send(f));
    var r := s.frames[f].pc.route;
    assert FrameInv(s, f) && RouteInv(s, r);
    var rt, rt' := s.routes[r], s'.routes[r];
    assert rt'.sent == rt'.handled + rt'.discarded + rt'.inbox;
    assert RouteInv(s', r);
    OneRouteKept(s, s', r);
  }

  lemma StepSend(s: State, f: FrameId)
    requires Inv(s) && DispatchEnabled(s, Send(f))
    ensures Inv(DispatchStep(s, Send(f)))
  {
    var s' := DispatchStep(s, Send(f));
    var r := s.frames[f].pc.route;
    SendRoute(s, f);
    forall g | 0 <= g < |s'.frames| ensures FrameInv(s', g) {
      assert FrameInv(s, g);
      TotalUpdate(s.routes, r, s'.routes[r], g);
    }
    forall g, q | 0 <= g < |s'.frames| && 0 <= q < |s'.routes| ensures Accounted(s', g, q) {
      assert Accounted(s, g, q) && FrameInv(s, g);
    }
  }

  lemma UndoRetainRoute(s: State, f: FrameId)
    requires Inv(s) && DispatchEnabled(s, UndoRetain(f))
    ensures var s' := DispatchStep(s, UndoRetain(f)); RoutesInv(s') && RemoversInv(s') && TableInv(s')
  {
    var r := s.frames[f].pc.route;
    assert FrameInv(s, f) && RouteInv(s, r);
    OneRouteKept(s, DispatchStep(s, UndoRetain(f)), r);
  }

  lemma StepUndoRetain(s: State, f: FrameId)
    requires Inv(s) && DispatchEnabled(s, UndoRetain(f))
    ensures Inv(DispatchStep(s, UndoRetain(f)))
  {
    var s' := DispatchStep(s, UndoRetain(f));
    var r := s.frames[f].pc.route;
    UndoRetainRoute(s, f);
    forall g | 0 <= g < |s'.frames| ensures FrameInv(s', g) {
      assert FrameInv(s, g);
      TotalUpdate(s.routes, r, s'.routes[r], g);
    }
    forall g, q | 0 <= g < |s'.frames| && 0 <= q < |s'.routes| ensures Accounted(s', g, q) {
      assert Accounted(s, g, q) && FrameInv(s, g);
    }
  }

  // ----- AddRoute -----

  lemma StepAddLink(s: State, src: string, consumer: string)
    requires Inv(s) && TableEnabled(s, AddLink(src, consumer))
    ensures Inv(TableStep(s, AddLink(src, consumer)))
  {
    var s' := TableStep(s, AddLink(src, consumer));
    var n := |s.routes|;
    forall r | 0 <= r < |s'.routes| ensures RouteInv(s', r) {
      if r < n { assert RouteInv(s, r); }
    }
    forall t | 0 <= t < |s'.removers| ensures RemoverInv(s', t) { assert RemoverInv(s, t); }
    forall f | 0 <= f < |s'.frames| ensures FrameInv(s', f) {
      assert FrameInv(s, f);
      TotalAppend(s.routes, s'.routes[n], f);
    }
    forall f, r | 0 <= f < |s'.frames| && 0 <= r < |s'.routes| ensures Accounted(s', f, r) {
      assert FrameInv(s, f);
      if r < n { assert Accounted(s, f, r); }
    }
    assert forall r :: r in s.table && s.routes[r].src == src ==> r in RoutesOf(s, src);
  }

  // ----- Parties that unlink routes -----

  /** Nothing queued, held or counted changes; only who owns a route. */
  lemma FramesKept(s: State, s': State)
    requires FramesInv(s) && AccountsInv(s)
    requires s'.frames == s.frames && |s'.routes| == |s.routes| && s'.readers == s.readers
    requires s.readers == {} || s'.table == s.table
    requires forall i :: 0 <= i < |s.routes| ==>
               && s'.routes[i].sent == s.routes[i].sent && s'.routes[i].dropped == s.routes[i].dropped
               && forall f :: Copies(s'.routes[i], f) == Copies(s.routes[i], f)
    ensures FramesInv(s') && AccountsInv(s')
  {
    forall f | 0 <= f < |s'.frames| ensures FrameInv(s', f) {
      assert FrameInv(s, f);
      TotalSame(s.routes, s'.routes, f);
    }
    forall f, r | 0 <= f < |s'.frames| && 0 <= r < |s'.routes| ensures Accounted(s', f, r) {
      assert Accounted(s, f, r);
    }
  }

  lemma StepUnlink(s: State, gone: set<RouteId>, order: seq<RouteId>, pc: RemoverPc)
    requires Inv(s) && s.readers == {}
    requires gone <= s.table && Enumerates(order, gone)
    requires pc == SignalNext
    ensures Inv(Unlink(s, gone, order, pc))
  {
    var s' := Unlink(s, gone, order, pc);
    FramesKept(s, s');
    UnlinkParties(s, gone, order, pc);
  }

  /** Route r after a section that handed `gone` to the newest remover. */
  lemma UnlinkOneRoute(s: State, s': State, gone: set<RouteId>, r: RouteId)
    requires r < |s.routes| == |s'.routes| && RouteInv(s, r) && gone <= s.table
    requires s'.frames == s.frames && s'.table == s.table - gone
    requires |s'.removers| == |s.removers| + 1 && s'.removers[..|s.removers|] == s.removers
    requires s'.routes[r] == if r in gone then s.routes[r].(owner := Removing(|s.removers|)) else s.routes[r]
    requires r in gone ==> r in s'.removers[|s.removers|].todo
    ensures RouteInv(s', r)
  {
    var rt := s.routes[r];
    assert QueueInv(s', s'.routes[r]);
    if r !in gone && rt.owner.Removing? {
      assert s'.removers[rt.owner.t] == s'.removers[..|s.removers|][rt.owner.t];
    }
  }

  lemma UnlinkParties(s: State, gone: set<RouteId>, order: seq<RouteId>, pc: RemoverPc)
    requires Inv(s) && gone <= s.table && Enumerates(order, gone)
    requires pc == SignalNext || pc == CancelNext
    ensures var s' := Unlink(s, gone, order, pc);
            && RoutesInv(s') && TableInv(s')
            && (forall t :: 0 <= t < |s.removers| ==> RemoverInv(s', t))
            && (pc == SignalNext ==> RemoverInv(s', |s.removers|))
  {
    var s' := Unlink(s, gone, order, pc);
    forall r | 0 <= r < |s'.routes| ensures RouteInv(s', r) { UnlinkOneRoute(s, s', gone, r); }
    forall t | 0 <= t < |s.removers| ensures RemoverInv(s', t) {
      assert RemoverInv(s, t);
      forall i | 0 <= i < |s.removers[t].todo| ensures s.removers[t].todo[i] !in gone {
        assert RouteInv(s, s.removers[t].todo[i]);
      }
    }
    forall i | 0 <= i < |order| ensures order[i] in gone && RouteInv(s, order[i]) { }
  }

  lemma StepClose(s: State, order: seq<RouteId>)
    requires Inv(s) && TableEnabled(s, Close(order))
    ensures Inv(TableStep(s, Close(order)))
  {
    var s' := TableStep(s, Close(order));
    var s1 := s.(cleared := true);
    FramesKept(s, s');
    UnlinkParties(s, s.table, order, CancelNext);
    var u := Unlink(s, s.table, order, CancelNext);
    forall r | 0 <= r < |s'.routes| ensures RouteInv(s', r) { assert RouteInv(u, r); }
    forall t | 0 <= t < |s'.removers| ensures RemoverInv(s', t) {
      if t < |s.removers| {
        assert RemoverInv(u, t);
      } else {
        forall i | 0 <= i < |order| ensures order[i] in s.table && RouteInv(s, order[i]) { }
      }
    }
  }

  // ----- stopRoute -----

  /** One remover moves and at most one route changes, in the fields only its owner may touch. */
  lemma OthersKept(s: State, s': State, t: RemoverId, r: RouteId)
    requires Inv(s) && t < |s.removers| && r < |s.routes|
    requires s'.frames == s.frames && s'.table == s.table && s'.readers == s.readers && s'.cleared == s.cleared
    requires |s'.routes| == |s.routes| && |s'.removers| == |s.removers|
    requires s'.routes == s.routes[r := s'.routes[r]] && s'.removers == s.removers[t := s'.removers[t]]
    requires s.routes[r].owner == Removing(t)
    requires s'.routes[r] == s.routes[r].(owner := s'.routes[r].owner, doneClosed := s'.routes[r].doneClosed,
                                          disposed := s'.routes[r].disposed, timedOut := s'.routes[r].timedOut)
    requires forall q :: q in s.removers[t].todo && q != r ==> q in s'.removers[t].todo
    requires RouteInv(s', r) && RemoverInv(s', t)
    requires s'.cancelled ==> s'.cleared
    ensures Inv(s')
  {
    FramesKept(s, s');
    forall q | 0 <= q < |s'.routes| ensures RouteInv(s', q) { assert RouteInv(s, q); }
    forall u | 0 <= u < |s'.removers| ensures RemoverInv(s', u) { assert RemoverInv(s, u); }
  }

  lemma StepCancel(s: State, t: RemoverId)
    requires Inv(s) && StopEnabled(s, Cancel(t))
    ensures Inv(StopStep(s, Cancel(t)))
  {
    var s' := StopStep(s, Cancel(t));
    assert RemoverInv(s, t);
    FramesKept(s, s');
    forall q | 0 <= q < |s'.routes| ensures RouteInv(s', q) { assert RouteInv(s, q); }
    forall u | 0 <= u < |s'.removers| ensures RemoverInv(s', u) { assert RemoverInv(s, u); }
  }

  lemma StepSignal(s: State, t: RemoverId)
    requires Inv(s) && StopEnabled(s, Signal(t))
    ensures Inv(StopStep(s, Signal(t)))
  {
    var s' := StopStep(s, Signal(t));
    var r := s.removers[t].todo[0];
    assert RemoverInv(s, t) && RouteInv(s, r);
    OthersKept(s, s', t, r);
  }

  lemma StepSeeStopped(s: State, t: RemoverId)
    requires Inv(s) && StopEnabled(s, SeeStopped(t))
    ensures Inv(StopStep(s, SeeStopped(t)))
  {
    var s' := StopStep(s, SeeStopped(t));
    var r := s.removers[t].todo[0];
    assert RemoverInv(s, t) && RouteInv(s, r);
    OthersKept(s, s', t, r);
  }

  lemma StepNextRoute(s: State, t: RemoverId, rt: Route)
    requires Inv(s) && StopperAt(s, t)
    requires s.removers[t].pc.Waiting? || s.removers[t].pc.DisposeNext?
    requires var before := s.routes[s.removers[t].todo[0]];
             rt == if s.removers[t].pc.Waiting? then before.(timedOut := true)
                   else before.(disposed := before.disposed + 1)
    ensures Inv(NextRoute(s, t, rt))
  {
    var s' := NextRoute(s, t, rt);
    var r := s.removers[t].todo[0];
    assert RemoverInv(s, t) && RouteInv(s, r);
    var todo := s.removers[t].todo;
    assert forall i :: 0 < i < |todo| ==> todo[i] != r && todo[1..][i - 1] == todo[i];
    OthersKept(s, s', t, r);
  }

  // ----- Drainer -----

  /** The drainer of r moves; what is queued or held keeps its total. */
  lemma DrainerKept(s: State, s': State, r: RouteId)
    requires Inv(s) && r < |s.routes|
    requires s'.frames == s.frames && s'.removers == s.removers
    requires |s'.routes| == |s.routes| && s'.routes == s.routes[r := s'.routes[r]]
    requires s'.table == s.table && s'.cleared == s.cleared && s'.readers == s.readers && s'.cancelled == s.cancelled
    requires var a, b := s.routes[r], s'.routes[r];
             && b.src == a.src && b.consumer == a.consumer && b.late == a.late && b.owner == a.owner
             && b.doneClosed == a.doneClosed && b.sent == a.sent && b.dropped == a.dropped
             && !a.pc.Exited?
    requires forall f :: Copies(s'.routes[r], f) == Copies(s.routes[r], f)
    requires RouteInv(s', r)
    ensures Inv(s')
  {
    OneRouteKept(s, s', r);
    FramesKept(s, s');
  }

  /** The drainer of r releases the frame it holds. */
  lemma ReleaseKept(s: State, s': State, r: RouteId, f: FrameId)
    requires Inv(s) && r < |s.routes| && f < |s.frames| && s.routes[r].pc.Holds(f)
    requires |s'.routes| == |s.routes|
    requires s' == SetPc(SetFrame(s, f, s.frames[f].Release()), r, s'.routes[r].pc)
    requires forall g :: !s'.routes[r].pc.Holds(g)
    requires RouteInv(s', r)
    ensures Inv(s')
  {
    OneRouteKept(s, s', r);
    forall g | 0 <= g < |s'.frames| ensures FrameInv(s', g) {
      assert FrameInv(s, g);
      TotalUpdate(s.routes, r, s'.routes[r], g);
      TotalAtLeast(s.routes, r, g);
    }
    forall g, q | 0 <= g < |s'.frames| && 0 <= q < |s'.routes| ensures Accounted(s', g, q) {
      assert Accounted(s, g, q);
    }
  }

  lemma PopCopies(q: seq<FrameId>)
    requires q != []
    ensures multiset(q) == multiset{q[0]} + multiset(q[1..])
  {
    assert q == [q[0]] + q[1..];
  }

  lemma StepReceive(s: State, r: RouteId)
    requires Inv(s) && DrainEnabled(s, Receive(r))
    ensures Inv(DrainStep(s, Receive(r)))
  {
    var s' := DrainStep(s, Receive(r));
    assert RouteInv(s, r);
    var rt, rt' := s.routes[r], s'.routes[r];
    PopCopies(rt.inbox);
    assert rt'.sent == rt'.handled + rt'.discarded + rt'.inbox;
    DrainerKept(s, s', r);
  }

  lemma StepPop(s: State, r: RouteId)
    requires Inv(s) && DrainEnabled(s, Pop(r))
    ensures Inv(DrainStep(s, Pop(r)))
  {
    var s' := DrainStep(s, Pop(r));
    assert RouteInv(s, r);
    var rt, rt' := s.routes[r], s'.routes[r];
    PopCopies(rt.inbox);
    assert rt'.sent == rt'.handled + rt'.discarded + rt'.inbox;
    DrainerKept(s, s', r);
  }

  lemma StepRelease(s: State, a: DrainAction)
    requires Inv(s) && DrainEnabled(s, a)
    requires a.HandleReturn? || a.HandlePanic? || a.ReleasePopped?
    ensures Inv(DrainStep(s, a))
  {
    assert RouteInv(s, a.r);
    ReleaseKept(s, DrainStep(s, a), a.r, s.routes[a.r].pc.frame);
  }

  /** The drainer of r changes its own route, which no remover has; at most it unlinks it. */
  lemma OwnRouteKept(s: State, s': State, r: RouteId)
    requires Inv(s) && r < |s.routes|
    requires |s'.frames| == |s.frames| && s'.removers == s.removers
    requires |s'.routes| == |s.routes| && s'.routes == s.routes[r := s'.routes[r]]
    requires s'.table == s.table || s'.table == s.table - {r}
    requires s'.cleared == s.cleared && s'.readers == s.readers && s'.cancelled == s.cancelled
    requires var a, b := s.routes[r], s'.routes[r];
             && b.src == a.src && b.consumer == a.consumer && b.late == a.late && b.doneClosed == a.doneClosed
             && (a.owner.Removing? ==> b.owner == a.owner)
             && !a.pc.Exited?
    requires RouteInv(s', r)
    ensures RoutesInv(s') && RemoversInv(s') && TableInv(s')
  {
    forall q | 0 <= q < |s'.routes| ensures RouteInv(s', q) { assert RouteInv(s, q); }
    forall u | 0 <= u < |s'.removers| ensures RemoverInv(s', u) { assert RemoverInv(s, u); }
  }

  lemma StepPanicUnlink(s: State, r: RouteId)
    requires Inv(s) && DrainEnabled(s, PanicUnlink(r))
    ensures Inv(DrainStep(s, PanicUnlink(r)))
  {
    var s' := DrainStep(s, PanicUnlink(r));
    assert RouteInv(s, r);
    FramesKept(s, s');
    OwnRouteKept(s, s', r);
  }

  lemma StepLeaveLoop(s: State, a: DrainAction)
    requires Inv(s) && DrainEnabled(s, a)
    requires a.SeeDone? || a.SeeCancelled?
    ensures Inv(DrainStep(s, a))
  {
    assert RouteInv(s, a.r);
    DrainerKept(s, DrainStep(s, a), a.r);
  }

  lemma StepInboxEmpty(s: State, r: RouteId)
    requires Inv(s) && DrainEnabled(s, InboxEmpty(r))
    ensures Inv(DrainStep(s, InboxEmpty(r)))
  {
    assert RouteInv(s, r);
    DrainerKept(s, DrainStep(s, InboxEmpty(r)), r);
  }

  lemma StepCloseStopped(s: State, r: RouteId)
    requires Inv(s) && DrainEnabled(s, CloseStopped(r))
    ensures Inv(DrainStep(s, CloseStopped(r)))
  {
    assert RouteInv(s, r);
    DrainerKept(s, DrainStep(s, CloseStopped(r)), r);
  }

  lemma StepSelfDispose(s: State, r: RouteId)
    requires Inv(s) && DrainEnabled(s, SelfDispose(r))
    ensures Inv(DrainStep(s, SelfDispose(r)))
  {
    var s' := DrainStep(s, SelfDispose(r));
    assert RouteInv(s, r);
    FramesKept(s, s');
    OwnRouteKept(s, s', r);
  }

  // ----- Every action, every run -----

  lemma InitInv()
    ensures Inv(Init())
  {
  }

  lemma DispatchStepInv(s: State, a: DispatchAction)
    requires Inv(s) && DispatchEnabled(s, a)
    ensures Inv(DispatchStep(s, a))
  {
    match a
    case NewFrame(src) => StepNewFrame(s, src);
    case Enter(f) => StepEnter(s, f);
    case RetainFor(f, r) => StepRetainFor(s, f, r);
    case Send(f) => StepSend(s, f);
    case TakeDefault(f) => StepTakeDefault(s, f);
    case UndoRetain(f) => StepUndoRetain(s, f);
    case Leave(f) => StepLeave(s, f);
    case ProducerRelease(f) => StepProducerRelease(s, f);
  }

  lemma TableStepInv(s: State, a: TableAction)
    requires Inv(s) && TableEnabled(s, a)
    ensures Inv(TableStep(s, a))
  {
    match a
    case AddCheck => OnlyAdders(s, TableStep(s, a));
    case AddLink(src, consumer) => StepAddLink(s, src, consumer);
    case AddFail => OnlyAdders(s, TableStep(s, a));
    case RemoveRoute(r) => StepUnlink(s, {r}, [r], SignalNext);
    case RemoveAllRoutes(src, order) => StepUnlink(s, RoutesOf(s, src), order, SignalNext);
    case Close(order) => StepClose(s, order);
  }

  lemma StopStepInv(s: State, a: StopAction)
    requires Inv(s) && StopEnabled(s, a)
    ensures Inv(StopStep(s, a))
  {
    match a
    case Cancel(t) => StepCancel(s, t);
    case Signal(t) => StepSignal(s, t);
    case SeeStopped(t) => StepSeeStopped(s, t);
    case Timeout(t) => StepNextRoute(s, t, s.routes[s.removers[t].todo[0]].(timedOut := true));
    case Dispose(t) =>
      var rt := s.routes[s.removers[t].todo[0]];
      StepNextRoute(s, t, rt.(disposed := rt.disposed + 1));
  }

  lemma DrainStepInv(s: State, a: DrainAction)
    requires Inv(s) && DrainEnabled(s, a)
    ensures Inv(DrainStep(s, a))
  {
    match a
    case Receive(r) => StepReceive(s, r);
    case HandleReturn(_) => StepRelease(s, a);
    case HandlePanic(_) => StepRelease(s, a);
    case PanicUnlink(r) => StepPanicUnlink(s, r);
    case SeeDone(_) => StepLeaveLoop(s, a);
    case SeeCancelled(_) => StepLeaveLoop(s, a);
    case Pop(r) => StepPop(s, r);
    case ReleasePopped(_) => StepRelease(s, a);
    case InboxEmpty(r) => StepInboxEmpty(s, r);
    case SelfDispose(r) => StepSelfDispose(s, r);
    case CloseStopped(r) => StepCloseStopped(s, r);
  }

  /** Every action of every party keeps the invariant. */
  lemma StepInv(s: State, a: Action)
    requires Inv(s) && Enabled(s, a)
    ensures Inv(Apply(s, a))
  {
    match a
    case OnDispatch(d) => DispatchStepInv(s, d);
    case OnTable(m) => TableStepInv(s, m);
    case OnStop(p) => StopStepInv(s, p);
    case OnDrain(e) => DrainStepInv(s, e);
  }

  lemma OnlyAdders(s: State, s': State)
    requires Inv(s) && s' == s.(adders := s'.adders)
    ensures Inv(s')
  {
    OtherPartsKept(s, s');
    FramesKept(s, s');
  }

  lemma {:induction false} RunInv(s: State, run: seq<Action>)
    requires Inv(s) && Run(s, run).Reached?
    ensures Inv(Run(s, run).state)
    decreases |run|
  {
    if run != [] {
      StepInv(s, run[0]);
      RunInv(Apply(s, run[0]), run[1..]);
    }
  }

  /** The invariant holds in every state of every interleaving. */
  lemma ReachableInv(s: State)
    requires Reachable(s)
    ensures Inv(s)
  {
    var run :| Run(Init(), run) == Reached(s);
    InitInv();
    RunInv(Init(), run);
  }
}
