/**
 The router's mutable objects, one goroutine at a time: the reference counter,
 the bounded inbox of a route, and the table of per-source slices with
 swap-removal. The table refines a set of (source, consumer) pairs.
 */
module Router {
  import RouterProtocol

  const INBOX_CAPACITY: nat := RouterProtocol.INBOX_CAPACITY

  datatype AddError = RouterClosed | RouteExists | InvalidGain | ResamplerFailed
  datatype AddResult = Added(route: Route) | Rejected(error: AddError)

  /** Shared by all holders of one pooled buffer; `fired` counts runs of the release closure. */
  class FrameRef {
    var remaining: int
    var fired: nat

    constructor ()
      ensures remaining == 1 && fired == 0
    {
      remaining, fired := 1, 0;
    }

    method Retain()
      modifies this
      ensures remaining == old(remaining) + 1 && fired == old(fired)
    {
      remaining := remaining + 1;
    }

    /** Fires the closure on the transition to zero, and on no other. */
    method Release()
      modifies this
      ensures remaining == old(remaining) - 1
      ensures fired == old(fired) + (if remaining == 0 then 1 else 0)
    {
      remaining := remaining - 1;
      if remaining == 0 {
        fired := fired + 1;
      }
    }
  }

  datatype AudioFrame = AudioFrame(sourceId: string, ref: FrameRef)

  class Route {
    const sourceId: string
    const consumerId: string
    var inbox: seq<AudioFrame>
    var drops: nat

    constructor (sourceId: string, consumerId: string)
      ensures this.sourceId == sourceId && this.consumerId == consumerId
      ensures inbox == [] && drops == 0
    {
      this.sourceId, this.consumerId := sourceId, consumerId;
      inbox, drops := [], 0;
    }

    /** The non-blocking send. */
    method TrySend(frame: AudioFrame) returns (sent: bool)
      modifies this`inbox
      ensures sent <==> |old(inbox)| < 64
      ensures inbox == if sent then old(inbox) + [frame] else old(inbox)
    {
      sent := |inbox| < INBOX_CAPACITY;
      if sent {
        inbox := inbox + [frame];
      }
    }

    method CountDrop()
      modifies this`drops
      ensures drops == old(drops) + 1
    {
      drops := drops + 1;
    }

    /** drainInboxRefs: every queued frame gives back the retain Dispatch made for it. */
    method DrainInboxRefs()
      modifies this`inbox, set f | f in inbox :: f.ref
      ensures inbox == []
      ensures forall f :: f in old(inbox) ==> f.ref.remaining == old(f.ref.remaining) - Occurrences(old(inbox), f.ref)
      ensures forall f :: f in old(inbox) ==>
                f.ref.fired == old(f.ref.fired) + if f.ref.remaining <= 0 < old(f.ref.remaining) then 1 else 0
    {
      ghost var all := inbox;
      ghost var refs := set f | f in inbox :: f.ref;
      ghost var i := 0;
      while inbox != []
        invariant 0 <= i <= |all| && inbox == all[i..]
        invariant forall ref :: ref in refs ==> ref.remaining == old(ref.remaining) - Occurrences(all[..i], ref)
        invariant forall ref :: ref in refs ==>
                    ref.fired == old(ref.fired) + if ref.remaining <= 0 < old(ref.remaining) then 1 else 0
        decreases |inbox|
      {
        var f := inbox[0];
        assert f == all[i] && f in all && f.ref in refs;
        inbox := inbox[1..];
        OccurrencesAppend(all[..i], f);
        assert all[..i + 1] == all[..i] + [f];
        f.ref.Release();
        i := i + 1;
      }
      assert all[..i] == all;
    }
  }

  /** How many queued frames share a counter. */
  ghost function Occurrences(q: seq<AudioFrame>, ref: FrameRef): nat {
    if q == [] then 0 else Occurrences(q[1..], ref) + if q[0].ref == ref then 1 else 0
  }

  lemma {:induction false} OccurrencesAppend(q: seq<AudioFrame>, f: AudioFrame)
    ensures forall ref :: Occurrences(q + [f], ref) == Occurrences(q, ref) + if f.ref == ref then 1 else 0
  {
    if q == [] {
      assert [f][1..] == [];
      forall ref ensures Occurrences([f], ref) == if f.ref == ref then 1 else 0 { assert Occurrences([], ref) == 0; }
      assert q + [f] == [f];
    } else {
      assert (q + [f])[1..] == q[1..] + [f];
      OccurrencesAppend(q[1..], f);
    }
  }

  /** Removal that does not keep the order: the last element takes the freed place. */
  function SwapRemove<T>(xs: seq<T>, i: nat): seq<T>
    requires i < |xs|
  {
    xs[i := xs[|xs| - 1]][..|xs| - 1]
  }

  /** Swap-removal loses exactly the removed element. */
  lemma SwapRemoveContents<T>(xs: seq<T>, i: nat)
    requires i < |xs|
    ensures multiset(SwapRemove(xs, i)) == multiset(xs) - multiset{xs[i]}
  {
    var n := |xs| - 1;
    var out := SwapRemove(xs, i);
    if i == n {
      assert xs == out + [xs[i]];
    } else {
      assert xs == xs[..i] + [xs[i]] + (xs[i + 1..n] + [xs[n]]);
      assert out == xs[..i] + [xs[n]] + xs[i + 1..n];
    }
  }

  ghost predicate DistinctIds(rs: seq<Route>) {
    forall i, j :: 0 <= i < j < |rs| ==> rs[i].consumerId != rs[j].consumerId
  }

  lemma SwapRemoveDistinct(rs: seq<Route>, i: nat)
    requires i < |rs| && DistinctIds(rs)
    ensures DistinctIds(SwapRemove(rs, i))
    ensures forall rt :: rt in SwapRemove(rs, i) <==> rt in rs && rt != rs[i]
  {
    var out := SwapRemove(rs, i);
    forall rt | rt in rs && rt != rs[i] ensures rt in out {
      var j :| 0 <= j < |rs| && rs[j] == rt;
      assert rt == if j < |rs| - 1 then out[j] else out[i];
    }
  }

  /** Number of routes with room in their inbox. */
  ghost function Room(rs: seq<Route>): nat
    reads rs
  {
    if rs == [] then 0
    else Room(rs[..|rs| - 1]) + if |rs[|rs| - 1].inbox| < INBOX_CAPACITY then 1 else 0
  }

  class AudioRouter {
    var routes: map<string, seq<Route>>
    var cancelled: bool

    /** No empty slice is kept, routes sit under their own source, ids are unique per source. */
    ghost predicate Valid()
      reads this
    {
      forall src :: src in routes ==>
        && routes[src] != []
        && DistinctIds(routes[src])
        && forall rt :: rt in routes[src] ==> rt.sourceId == src
    }

    /** What the table means: the subscribed (source, consumer) pairs. */
    ghost predicate Linked(src: string, consumer: string)
      reads this
    {
      src in routes && exists rt :: rt in routes[src] && rt.consumerId == consumer
    }

    constructor ()
      ensures Valid() && !cancelled && routes == map[]
    {
      routes, cancelled := map[], false;
    }

    /** The routes slice of a source; absent sources read as an empty slice. */
    function Slice(src: string): (rs: seq<Route>)
      reads this
      ensures rs != [] ==> src in routes
    {
      if src in routes then routes[src] else []
    }

    /** Index of the route with this consumer id, or the length of the slice. */
    method FindConsumer(rs: seq<Route>, consumer: string) returns (i: nat)
      ensures i <= |rs|
      ensures i < |rs| ==> rs[i].consumerId == consumer
      ensures i == |rs| ==> forall rt :: rt in rs ==> rt.consumerId != consumer
    {
      i := 0;
      while i < |rs|
        invariant i <= |rs|
        invariant forall j :: 0 <= j < i ==> rs[j].consumerId != consumer
      {
        if rs[i].consumerId == consumer {
          return;
        }
        i := i + 1;
      }
    }

    /** Accepts a subscription exactly when the router is open, the pair is new and the route can be built. */
    method AddRoute(src: string, consumer: string, gainFinite: bool, resamplerOk: bool) returns (res: AddResult)
      requires Valid()
      modifies this
      ensures Valid() && cancelled == old(cancelled)
      ensures res.Added? <==> !old(cancelled) && !old(Linked(src, consumer)) && gainFinite && resamplerOk
      ensures res.Added? ==> fresh(res.route) && res.route.inbox == []
      ensures forall s, c :: Linked(s, c) <==> old(Linked(s, c)) || (res.Added? && s == src && c == consumer)
      ensures res.Rejected? ==> routes == old(routes)
      ensures res.Rejected? && res.error == RouteExists <==> !old(cancelled) && old(Linked(src, consumer))
      ensures res.Rejected? && res.error == RouterClosed <==> old(cancelled)
      ensures res.Rejected? && res.error == InvalidGain
              <==> !old(cancelled) && !old(Linked(src, consumer)) && !gainFinite
      ensures res.Rejected? && res.error == ResamplerFailed <==>
                !old(cancelled) && !old(Linked(src, consumer)) && gainFinite && !resamplerOk
    {
      if cancelled {
        return Rejected(RouterClosed);
      }
      var rs := Slice(src);
      var i := FindConsumer(rs, consumer);
      if i < |rs| {
        assert rs[i] in routes[src];
        return Rejected(RouteExists);
      }
      if !gainFinite {
        return Rejected(InvalidGain);
      }
      if !resamplerOk {
        return Rejected(ResamplerFailed);
      }
      var route := new Route(src, consumer);
      var rs' := rs + [route];
      routes := routes[src := rs'];
      assert forall rt :: rt in rs' <==> rt in rs || rt == route;
      assert route in routes[src];
      return Added(route);
    }

    /** Cuts the route at index i out of a slice, and the slice out of the map when it was the last. */
    method CutAt(src: string, i: nat) returns (gone: Route)
      requires Valid() && src in routes && i < |routes[src]|
      modifies this`routes
      ensures Valid() && gone == old(routes[src][i])
      ensures forall s :: s in routes <==> s in old(routes) && !(s == src && |old(routes[src])| == 1)
      ensures forall s :: s in routes && s != src ==> routes[s] == old(routes[s])
      ensures src in routes ==> multiset(routes[src]) == old(multiset(routes[src])) - multiset{gone}
      ensures forall s, c :: Linked(s, c) <==> old(Linked(s, c)) && !(s == src && c == gone.consumerId)
    {
      var rs := routes[src];
      gone := rs[i];
      SwapRemoveDistinct(rs, i);
      SwapRemoveContents(rs, i);
      var rs' := SwapRemove(rs, i);
      assert forall rt :: rt in rs && rt.consumerId == gone.consumerId ==> rt == gone;
      if |rs'| == 0 {
        routes := map s | s in routes && s != src :: routes[s];
        assert forall rt :: rt in rs ==> rt == gone by { assert |rs| == 1; }
      } else {
        routes := routes[src := rs'];
        assert rs'[0] in routes[src];
      }
    }

    /** Unlinks exactly the named pair; without it, a no-op. */
    method RemoveRoute(src: string, consumer: string) returns (removed: Route?)
      requires Valid()
      modifies this`routes
      ensures Valid()
      ensures removed != null <==> old(Linked(src, consumer))
      ensures removed != null ==> removed.sourceId == src && removed.consumerId == consumer
      ensures removed != null ==> src in old(routes) && removed in old(routes[src])
      ensures removed == null ==> routes == old(routes)
      ensures forall s, c :: Linked(s, c) <==> old(Linked(s, c)) && !(s == src && c == consumer)
      ensures forall s :: s in routes ==> routes[s] != []
    {
      var rs := Slice(src);
      var i := FindConsumer(rs, consumer);
      if i == |rs| {
        return null;
      }
      assert rs[i] in routes[src];
      removed := CutAt(src, i);
    }

    /** The panicking drainer's lookup: it takes its own route out, found by identity. */
    method RemoveDead(route: Route) returns (removed: bool)
      requires Valid()
      modifies this`routes
      ensures Valid()
      ensures removed <==> route in old(Slice(route.sourceId))
      ensures !removed ==> routes == old(routes)
      ensures forall s, c :: Linked(s, c) <==>
                old(Linked(s, c)) && !(removed && s == route.sourceId && c == route.consumerId)
      ensures forall s :: s in routes ==> routes[s] != []
    {
      var rs := Slice(route.sourceId);
      var i := 0;
      while i < |rs| && rs[i] != route
        invariant 0 <= i <= |rs|
        invariant route !in rs[..i]
      {
        i := i + 1;
      }
      removed := i < |rs|;
      if removed {
        var gone := CutAt(route.sourceId, i);
      } else {
        assert rs[..i] == rs;
      }
    }

    method RemoveAllRoutes(src: string) returns (gone: seq<Route>)
      requires Valid()
      modifies this`routes
      ensures Valid() && gone == old(Slice(src))
      ensures forall s, c :: Linked(s, c) <==> old(Linked(s, c)) && s != src
    {
      gone := Slice(src);
      routes := map s | s in routes && s != src :: routes[s];
    }

    /** Swaps in an empty table, then cancels; a second Close finds nothing to stop. */
    method Close() returns (all: map<string, seq<Route>>)
      requires Valid()
      modifies this
      ensures Valid() && cancelled && routes == map[] && all == old(routes)
    {
      all := routes;
      routes := map[];
      cancelled := true;
    }

    /**
     Offers the frame to every route of its source. Each route with room queues
     it, each full one counts a drop, and the counter ends up higher by exactly
     the number of accepted copies, so it cannot have touched zero on the way.
     */
    method Dispatch(frame: AudioFrame)
      requires Valid() && frame.ref.remaining > 0
      modifies frame.ref, set rt | rt in Slice(frame.sourceId)
      ensures Valid() && routes == old(routes)
      ensures frame.ref.remaining == old(frame.ref.remaining) + old(Room(Slice(frame.sourceId)))
      ensures frame.ref.fired == old(frame.ref.fired)
      ensures forall rt :: rt in Slice(frame.sourceId) ==>
                if old(|rt.inbox|) < 64
                then rt.inbox == old(rt.inbox) + [frame] && rt.drops == old(rt.drops)
                else rt.inbox == old(rt.inbox) && rt.drops == old(rt.drops) + 1
    {
      var rs := Slice(frame.sourceId);
      var i := 0;
      while i < |rs|
        invariant 0 <= i <= |rs|
        invariant frame.ref.remaining == old(frame.ref.remaining) + old(Room(rs[..i]))
        invariant frame.ref.fired == old(frame.ref.fired)
        invariant forall j :: i <= j < |rs| ==> rs[j].inbox == old(rs[j].inbox) && rs[j].drops == old(rs[j].drops)
        invariant forall j :: 0 <= j < i ==>
                    if old(|rs[j].inbox|) < INBOX_CAPACITY
                    then rs[j].inbox == old(rs[j].inbox) + [frame] && rs[j].drops == old(rs[j].drops)
                    else rs[j].inbox == old(rs[j].inbox) && rs[j].drops == old(rs[j].drops) + 1
      {
        var rt := rs[i];
        assert rs[..i + 1][..i] == rs[..i];
        frame.ref.Retain();
        var sent := rt.TrySend(frame);
        if !sent {
          frame.ref.Release();
          rt.CountDrop();
        }
        i := i + 1;
      }
      assert rs[..i] == rs;
    }
  }
}
