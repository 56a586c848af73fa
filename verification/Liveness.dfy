/** The liveness watchdog: a timed recovery state machine per audio source. Times are nanoseconds. */
module Liveness {
  import opened Sequences
  import opened Wrappers

  datatype LivenessState = Healthy | Alarmed | Recovering | Escalated | Failed

  datatype Config = Config(
    checkInterval: int,
    silenceThreshold: int,
    maxRetries: int,
    retryBackoff: int,
    cooldownAfterRecov: int,
    escalationTimeout: int)

  datatype Health = Health(
    state: LivenessState,
    retries: int,
    lastRestart: Option<int>,
    stateEntered: int,
    cooldownEnd: Option<int>,
    wasQuietHours: bool)

  datatype Kind = Notify(state: LivenessState) | Restart | Escalate

  datatype Action = Action(sourceId: string, kind: Kind)

  function Fresh(now: int): Health {
    Health(Healthy, 0, None, now, None, false)
  }

  function CollectRestart(h: Health, now: int): Health {
    h.(retries := h.retries + 1, lastRestart := Some(now))
  }

  function CollectRecover(cfg: Config, h: Health, now: int): Health {
    h.(state := Healthy, stateEntered := now, cooldownEnd := Some(now + cfg.cooldownAfterRecov), retries := 0)
  }

  predicate FramesFlowing(cfg: Config, now: int, last: int) {
    now - last < cfg.silenceThreshold
  }

  /** One evaluation of a source; `last` is its last dispatch time, None while it has never dispatched. */
  function CheckSource(cfg: Config, h: Health, now: int, last: Option<int>): (Health, seq<Kind>) {
    if last.None? then (h, [])
    else
      var flowing := FramesFlowing(cfg, now, last.value);
      match h.state
      case Healthy =>
        if flowing || (h.cooldownEnd.Some? && now < h.cooldownEnd.value) then (h, [])
        else (h.(state := Alarmed, stateEntered := now, retries := 0), [Notify(Alarmed)])
      case Alarmed =>
        if flowing then (CollectRecover(cfg, h, now), [Notify(Healthy)])
        else (CollectRestart(h.(state := Recovering, stateEntered := now), now), [Restart])
      case Recovering =>
        if flowing then (CollectRecover(cfg, h, now), [Notify(Healthy)])
        else if h.retries >= cfg.maxRetries then
          (h.(state := Escalated, stateEntered := now), [Escalate, Notify(Escalated)])
        else if h.lastRestart.Some? && now - h.lastRestart.value < cfg.retryBackoff then (h, [])
        else (CollectRestart(h, now), [Restart])
      case Escalated =>
        if flowing then (CollectRecover(cfg, h, now), [Notify(Healthy)])
        else if now - h.stateEntered >= cfg.escalationTimeout then
          (h.(state := Failed, stateEntered := now), [Notify(Failed)])
        else (h, [])
      case Failed =>
        if flowing then (CollectRecover(cfg, h, now), [Notify(Healthy)]) else (h, [])
  }

  /** Quiet hours have just ended: the machine restarts and the dispatch time is reset. */
  predicate QuietEnds(h: Health, quiet: bool) {
    h.wasQuietHours && !quiet
  }

  /** One tick for one source, quiet hours included. */
  function Tick(cfg: Config, h: Health, now: int, last: Option<int>, quiet: bool): (Health, seq<Kind>) {
    var h1 := if QuietEnds(h, quiet) then h.(state := Healthy, retries := 0, stateEntered := now) else h;
    var h2 := h1.(wasQuietHours := quiet);
    if quiet then (h2, [])
    else CheckSource(cfg, h2, now, if QuietEnds(h, quiet) then Some(now) else last)
  }

  function Tagged(id: string, kinds: seq<Kind>): seq<Action> {
    seq(|kinds|, i requires 0 <= i < |kinds| => Action(id, kinds[i]))
  }

  /** The first i active sources have been ticked, the others not yet. */
  ghost predicate SourcesAt(sources: map<string, Health>, active: seq<string>, i: nat,
                            entries: map<string, Health>, results: map<string, (Health, seq<Kind>)>)
  {
    && i <= |active| && entries.Keys == results.Keys == (set id | id in active)
    && (forall id :: id in sources <==> id in active)
    && (forall id :: id in active ==> sources[id] == if id in active[..i] then results[id].0 else entries[id])
  }

  lemma SourcesStep(sources: map<string, Health>, active: seq<string>, i: nat,
                    entries: map<string, Health>, results: map<string, (Health, seq<Kind>)>)
    requires NoDuplicates(active) && i < |active| && SourcesAt(sources, active, i, entries, results)
    ensures active[i] in sources && sources[active[i]] == entries[active[i]]
    ensures SourcesAt(sources[active[i] := results[active[i]].0], active, i + 1, entries, results)
  {
    TakeSucc(active, i);
    assert active[i] !in active[..i];
  }

  ghost predicate TimesAt(lastDispatch: map<string, int>, active: seq<string>, i: nat, entries: map<string, Health>,
                          quiet: set<string>, now: int, times: map<string, int>)
  {
    i <= |active| && (forall id :: id in active ==> id in entries) &&
    forall id :: Get(lastDispatch, id) ==
      if id in active[..i] && QuietEnds(entries[id], id in quiet) then Some(now) else Get(times, id)
  }

  lemma TimesStep(lastDispatch: map<string, int>, active: seq<string>, i: nat, entries: map<string, Health>,
                  quiet: set<string>, now: int, times: map<string, int>)
    requires NoDuplicates(active) && i < |active| && TimesAt(lastDispatch, active, i, entries, quiet, now, times)
    ensures Get(lastDispatch, active[i]) == Get(times, active[i])
    ensures var ends := QuietEnds(entries[active[i]], active[i] in quiet);
            var next := if ends then lastDispatch[active[i] := now] else lastDispatch;
            TimesAt(next, active, i + 1, entries, quiet, now, times)
  {
    TakeSucc(active, i);
    assert active[i] !in active[..i];
  }

  /** The actions of a tick, source by source in the order given. */
  function ActionsOf(active: seq<string>, results: map<string, (Health, seq<Kind>)>): seq<Action>
    requires forall id :: id in active ==> id in results
  {
    if active == [] then []
    else
      var n := |active| - 1;
      assert forall id :: id in active[..n] ==> id in active;
      ActionsOf(active[..n], results) + Tagged(active[n], results[active[n]].1)
  }

  lemma ActionsSucc(active: seq<string>, i: nat, results: map<string, (Health, seq<Kind>)>)
    requires i < |active| && (forall id :: id in active ==> id in results)
    ensures ActionsOf(active[..i + 1], results)
            == ActionsOf(active[..i], results) + Tagged(active[i], results[active[i]].1)
  {
    TakeSucc(active, i);
  }

  class LivenessWatchdog {
    const cfg: Config
    var sources: map<string, Health>
    var lastDispatch: map<string, int>    // the router's per-source dispatch times

    constructor (cfg: Config)
      ensures this.cfg == cfg && sources == map[]
    {
      this.cfg := cfg;
      sources, lastDispatch := map[], map[];
    }

    /** The entry a source has at this tick: its own, or a fresh one when it just became active. */
    function Entry(id: string, now: int): Health
      reads this
    {
      if id in sources then sources[id] else Fresh(now)
    }

    /** What this tick makes of one source. */
    function TickOf(id: string, now: int, quiet: set<string>): (Health, seq<Kind>)
      reads this
    {
      Tick(cfg, Entry(id, now), now, Get(lastDispatch, id), id in quiet)
    }

    ghost function Results(active: seq<string>, now: int, quiet: set<string>): map<string, (Health, seq<Kind>)>
      reads this
    {
      map id | id in active :: TickOf(id, now, quiet)
    }

    /** checkSource, in place. */
    method CheckSourceById(id: string, now: int, actions: seq<Action>) returns (out: seq<Action>)
      requires id in sources
      modifies this`sources
      ensures var (h, kinds) := CheckSource(cfg, old(sources[id]), now, Get(lastDispatch, id));
              sources == old(sources)[id := h] && out == actions + Tagged(id, kinds)
    {
      var h := sources[id];
      var last := Get(lastDispatch, id);
      var kinds: seq<Kind> := [];
      if last.Some? {
        var flowing := FramesFlowing(cfg, now, last.value);
        if h.state != Healthy && flowing {
          h := CollectRecover(cfg, h, now);
          kinds := [Notify(Healthy)];
        } else if h.state == Healthy && !flowing && !(h.cooldownEnd.Some? && now < h.cooldownEnd.value) {
          h := h.(state := Alarmed, stateEntered := now, retries := 0);
          kinds := [Notify(Alarmed)];
        } else if h.state == Alarmed {
          h := CollectRestart(h.(state := Recovering, stateEntered := now), now);
          kinds := [Restart];
        } else if h.state == Recovering {
          if h.retries >= cfg.maxRetries {
            h := h.(state := Escalated, stateEntered := now);
            kinds := [Escalate, Notify(Escalated)];
          } else if h.lastRestart.None? || now - h.lastRestart.value >= cfg.retryBackoff {
            h := CollectRestart(h, now);
            kinds := [Restart];
          }
        } else if h.state == Escalated && now - h.stateEntered >= cfg.escalationTimeout {
          h := h.(state := Failed, stateEntered := now);
          kinds := [Notify(Failed)];
        }
      }
      sources := sources[id := h];
      out := actions + Tagged(id, kinds);
    }

    /** Starts tracking newly active sources and forgets the others. */
    method TrackActive(active: seq<string>, now: int)
      modifies this`sources
      ensures forall id :: id in sources <==> id in active
      ensures forall id :: id in active ==> sources[id] == old(Entry(id, now))
    {
      ghost var before := sources;
      var i := 0;
      while i < |active|
        invariant 0 <= i <= |active|
        invariant forall id :: id in sources <==> id in before || id in active[..i]
        invariant forall id :: id in sources ==> sources[id] == old(Entry(id, now))
      {
        assert active[..i + 1] == active[..i] + [active[i]];
        if active[i] !in sources {
          sources := sources[active[i] := Fresh(now)];
        }
        i := i + 1;
      }
      assert active[..i] == active;
      sources := map id | id in sources && id in active :: sources[id];
    }

    /** The body of checkAll's last loop: quiet hours, then the state machine, for one source. */
    method TickSource(id: string, now: int, quietNow: bool, actions: seq<Action>) returns (out: seq<Action>)
      requires id in sources
      modifies this
      ensures var (h, kinds) := Tick(cfg, old(sources[id]), now, old(Get(lastDispatch, id)), quietNow);
              sources == old(sources)[id := h] && out == actions + Tagged(id, kinds)
      ensures lastDispatch
              == if QuietEnds(old(sources[id]), quietNow) then old(lastDispatch)[id := now] else old(lastDispatch)
    {
      var h := sources[id];
      if QuietEnds(h, quietNow) {
        lastDispatch := lastDispatch[id := now];
        h := h.(state := Healthy, retries := 0, stateEntered := now);
      }
      h := h.(wasQuietHours := quietNow);
      sources := sources[id := h];
      out := actions;
      if quietNow {
        assert actions + Tagged(id, []) == actions;
      } else {
        out := CheckSourceById(id, now, actions);
      }
    }

    /**
     One tick over all sources. Active sources, and only they, are tracked
     afterwards; each moves by its own Tick, whatever the others do; the actions
     come out source by source.
     */
    method CheckAll(active: seq<string>, now: int, quiet: set<string>) returns (actions: seq<Action>)
      requires NoDuplicates(active)
      modifies this
      ensures var results := old(Results(active, now, quiet));
              && (forall id :: id in sources <==> id in active)
              && (forall id :: id in active ==> sources[id] == results[id].0)
              && actions == ActionsOf(active, results)
      ensures forall id :: Get(lastDispatch, id) ==
                if id in active && QuietEnds(old(Entry(id, now)), id in quiet) then Some(now)
                else old(Get(lastDispatch, id))
    {
      ghost var results := Results(active, now, quiet);
      ghost var entries := map id | id in active :: Entry(id, now);
      ghost var times := lastDispatch;
      assert forall id :: id in active ==>
               results[id] == Tick(cfg, entries[id], now, Get(times, id), id in quiet);
      TrackActive(active, now);
      actions := [];
      var i := 0;
      while i < |active|
        invariant SourcesAt(sources, active, i, entries, results)
        invariant TimesAt(lastDispatch, active, i, entries, quiet, now, times)
        invariant actions == ActionsOf(active[..i], results)
      {
        var id := active[i];
        ActionsSucc(active, i, results);
        SourcesStep(sources, active, i, entries, results);
        TimesStep(lastDispatch, active, i, entries, quiet, now, times);
        actions := TickSource(id, now, id in quiet, actions);
        i := i + 1;
      }
      TakeAll(active);
    }
  }
}
