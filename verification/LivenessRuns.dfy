/** The watchdog over whole runs of ticks of one source: what it never does, and what it must reach. */
module LivenessRuns {
  import opened Division
  import opened Liveness
  import opened Wrappers

  /** What the environment supplies at one tick. */
  datatype TickInput = TickInput(now: int, last: Option<int>, quiet: bool)

  datatype Event = Event(at: int, kind: Kind)

  function EventsAt(now: int, kinds: seq<Kind>): seq<Event> {
    seq(|kinds|, i requires 0 <= i < |kinds| => Event(now, kinds[i]))
  }

  /** Health and event trace after the ticks, for a source that stays active throughout. */
  function Run(cfg: Config, h: Health, trace: seq<Event>, ticks: seq<TickInput>): (Health, seq<Event>)
    decreases |ticks|
  {
    if ticks == [] then (h, trace)
    else
      var (h', kinds) := Tick(cfg, h, ticks[0].now, ticks[0].last, ticks[0].quiet);
      Run(cfg, h', trace + EventsAt(ticks[0].now, kinds), ticks[1..])
  }

  /** The clock does not run backwards. */
  ghost predicate ClockFrom(start: int, ticks: seq<TickInput>) {
    && (forall i :: 0 <= i < |ticks| ==> start <= ticks[i].now)
    && (forall i, j :: 0 <= i < j < |ticks| ==> ticks[i].now <= ticks[j].now)
  }

  // ----- Safety -----

  /** Restarts every escalation must be preceded by. */
  function RetryLimit(cfg: Config): int {
    if cfg.maxRetries > 1 then cfg.maxRetries else 1
  }

  /** Restarts since the last alarm, which starts an episode. */
  function RestartsInEpisode(trace: seq<Event>): nat {
    if trace == [] then 0
    else
      var n := |trace| - 1;
      match trace[n].kind
      case Notify(Alarmed) => 0
      case Restart => RestartsInEpisode(trace[..n]) + 1
      case _ => RestartsInEpisode(trace[..n])
  }

  /** Time of the last restart of the trace. */
  function LastRestartAt(trace: seq<Event>): Option<int> {
    if trace == [] then None
    else if trace[|trace| - 1].kind.Restart? then Some(trace[|trace| - 1].at)
    else LastRestartAt(trace[..|trace| - 1])
  }

  /** Time of the last escalation of the trace. */
  function LastEscalateAt(trace: seq<Event>): Option<int> {
    if trace == [] then None
    else if trace[|trace| - 1].kind.Escalate? then Some(trace[|trace| - 1].at)
    else LastEscalateAt(trace[..|trace| - 1])
  }

  /** The state the events speak of: what was last announced or attempted. */
  function StateTold(trace: seq<Event>): LivenessState {
    if trace == [] then Healthy
    else
      match trace[|trace| - 1].kind
      case Notify(state) => state
      case Restart => Recovering
      case Escalate => StateTold(trace[..|trace| - 1])
  }

  ghost predicate RecoveriesEndBy(cfg: Config, trace: seq<Event>, limit: int) {
    forall i :: 0 <= i < |trace| && trace[i].kind == Notify(Healthy) ==> trace[i].at + cfg.cooldownAfterRecov <= limit
  }

  /** What an event may look like after the events before it. */
  ghost predicate EventAllowed(cfg: Config, before: seq<Event>, e: Event) {
    match e.kind
    case Restart =>
      && (StateTold(before).Alarmed? || StateTold(before).Recovering?)
      && RestartsInEpisode(before) < RetryLimit(cfg)
      && (StateTold(before).Recovering? ==>
            LastRestartAt(before).Some? && e.at - LastRestartAt(before).value >= cfg.retryBackoff)
    case Escalate => StateTold(before).Recovering? && RestartsInEpisode(before) == RetryLimit(cfg)
    case Notify(Alarmed) => RecoveriesEndBy(cfg, before, e.at)
    case Notify(Escalated) => before != [] && before[|before| - 1] == Event(e.at, Escalate)
    case Notify(Failed) =>
      && StateTold(before).Escalated?
      && LastEscalateAt(before).Some? && e.at - LastEscalateAt(before).value >= cfg.escalationTimeout
    case Notify(Healthy) => !StateTold(before).Healthy?
    case Notify(Recovering) => false
  }

  ghost predicate TraceAllowed(cfg: Config, trace: seq<Event>) {
    forall i :: 0 <= i < |trace| ==> EventAllowed(cfg, trace[..i], trace[i])
  }

  ghost predicate CooldownInv(cfg: Config, h: Health, trace: seq<Event>) {
    && (h.cooldownEnd.None? ==> forall i :: 0 <= i < |trace| ==> trace[i].kind != Notify(Healthy))
    && (h.cooldownEnd.Some? ==> RecoveriesEndBy(cfg, trace, h.cooldownEnd.value))
  }

  /** The health record summarises the trace. */
  ghost predicate HealthInv(cfg: Config, h: Health, trace: seq<Event>) {
    && TraceAllowed(cfg, trace)
    && (h.state.Healthy? || h.state.Alarmed? ==> h.retries == 0)
    && (h.state.Recovering? ==> 1 <= h.retries <= RetryLimit(cfg))
    && (h.state.Escalated? || h.state.Failed? ==> h.retries == RetryLimit(cfg))
    && (!h.state.Healthy? ==> RestartsInEpisode(trace) == h.retries && StateTold(trace) == h.state)
    && (h.retries > 0 ==> h.lastRestart.Some? && LastRestartAt(trace) == h.lastRestart)
    && (h.state.Escalated? ==> LastEscalateAt(trace) == Some(h.stateEntered))
    && CooldownInv(cfg, h, trace)
  }

  lemma SnocAllowed(cfg: Config, trace: seq<Event>, e: Event)
    requires TraceAllowed(cfg, trace) && EventAllowed(cfg, trace, e)
    ensures TraceAllowed(cfg, trace + [e])
    ensures RestartsInEpisode(trace + [e]) ==
              match e.kind
              case Notify(Alarmed) => 0
              case Restart => RestartsInEpisode(trace) + 1
              case _ => RestartsInEpisode(trace)
    ensures LastRestartAt(trace + [e]) == if e.kind.Restart? then Some(e.at) else LastRestartAt(trace)
    ensures LastEscalateAt(trace + [e]) == if e.kind.Escalate? then Some(e.at) else LastEscalateAt(trace)
  {
    var t := trace + [e];
    assert t[..|trace|] == trace;
    forall i | 0 <= i < |t| ensures EventAllowed(cfg, t[..i], t[i]) {
      if i < |trace| {
        assert t[..i] == trace[..i];
      }
    }
  }

  /** No time in the record lies in the future, cooldown apart. */
  ghost predicate TimesBy(cfg: Config, h: Health, now: int) {
    && h.stateEntered <= now
    && (h.lastRestart.Some? ==> h.lastRestart.value <= now)
    && (h.cooldownEnd.Some? ==> h.cooldownEnd.value <= now + cfg.cooldownAfterRecov)
  }

  lemma RecoverInv(cfg: Config, h: Health, trace: seq<Event>, now: int)
    requires HealthInv(cfg, h, trace) && TimesBy(cfg, h, now) && !h.state.Healthy?
    ensures var h' := CollectRecover(cfg, h, now);
            HealthInv(cfg, h', trace + [Event(now, Notify(Healthy))]) && TimesBy(cfg, h', now)
  {
    var e := Event(now, Notify(Healthy));
    SnocAllowed(cfg, trace, e);
    var t := trace + [e];
    assert h.cooldownEnd.Some? ==> h.cooldownEnd.value <= now + cfg.cooldownAfterRecov;
    forall i | 0 <= i < |t| && t[i].kind == Notify(Healthy)
      ensures t[i].at + cfg.cooldownAfterRecov <= now + cfg.cooldownAfterRecov
    {
      if i < |trace| { assert t[i] == trace[i]; }
    }
  }

  /** An event that is not a recovery leaves the cooldown part of the record valid. */
  lemma CooldownKept(cfg: Config, h: Health, trace: seq<Event>, e: Event)
    requires CooldownInv(cfg, h, trace) && e.kind != Notify(Healthy)
    ensures CooldownInv(cfg, h, trace + [e])
  {
  }

  lemma RestartInv(cfg: Config, h: Health, trace: seq<Event>, now: int, h1: Health)
    requires HealthInv(cfg, h, trace) && TimesBy(cfg, h, now)
    requires h1 == h.(state := Recovering, stateEntered := h1.stateEntered) && h1.stateEntered <= now
    requires h.state.Alarmed? || (h.state.Recovering? && h.retries < cfg.maxRetries
                                  && h.lastRestart.Some? && now - h.lastRestart.value >= cfg.retryBackoff)
    ensures var h' := CollectRestart(h1, now);
            HealthInv(cfg, h', trace + [Event(now, Restart)]) && TimesBy(cfg, h', now)
  {
    var e := Event(now, Restart);
    assert EventAllowed(cfg, trace, e);
    SnocAllowed(cfg, trace, e);
    CooldownKept(cfg, h, trace, e);
  }

  lemma AlarmInv(cfg: Config, h: Health, trace: seq<Event>, now: int)
    requires HealthInv(cfg, h, trace) && TimesBy(cfg, h, now) && h.state.Healthy?
    requires h.cooldownEnd.Some? ==> h.cooldownEnd.value <= now
    ensures var h' := h.(state := Alarmed, stateEntered := now, retries := 0);
            HealthInv(cfg, h', trace + [Event(now, Notify(Alarmed))]) && TimesBy(cfg, h', now)
  {
    var e := Event(now, Notify(Alarmed));
    assert EventAllowed(cfg, trace, e);
    SnocAllowed(cfg, trace, e);
    CooldownKept(cfg, h, trace, e);
  }

  lemma EscalateInv(cfg: Config, h: Health, trace: seq<Event>, now: int)
    requires HealthInv(cfg, h, trace) && TimesBy(cfg, h, now) && h.state.Recovering? && h.retries >= cfg.maxRetries
    ensures var h' := h.(state := Escalated, stateEntered := now);
            && HealthInv(cfg, h', trace + [Event(now, Escalate)] + [Event(now, Notify(Escalated))])
            && TimesBy(cfg, h', now)
  {
    var e, n := Event(now, Escalate), Event(now, Notify(Escalated));
    var h' := h.(state := Escalated, stateEntered := now);
    SnocAllowed(cfg, trace, e);
    CooldownKept(cfg, h, trace, e);
    SnocAllowed(cfg, trace + [e], n);
    CooldownKept(cfg, h, trace + [e], n);
  }

  lemma FailInv(cfg: Config, h: Health, trace: seq<Event>, now: int)
    requires HealthInv(cfg, h, trace) && TimesBy(cfg, h, now) && h.state.Escalated?
    requires now - h.stateEntered >= cfg.escalationTimeout
    ensures var h' := h.(state := Failed, stateEntered := now);
            HealthInv(cfg, h', trace + [Event(now, Notify(Failed))]) && TimesBy(cfg, h', now)
  {
    var e := Event(now, Notify(Failed));
    SnocAllowed(cfg, trace, e);
    CooldownKept(cfg, h, trace, e);
  }

  lemma EventsOne(now: int, k: Kind)
    ensures EventsAt(now, [k]) == [Event(now, k)]
  {
  }

  lemma CheckInv(cfg: Config, h: Health, trace: seq<Event>, now: int, last: Option<int>)
    requires HealthInv(cfg, h, trace) && TimesBy(cfg, h, now)
    ensures var (h', kinds) := CheckSource(cfg, h, now, last);
            HealthInv(cfg, h', trace + EventsAt(now, kinds)) && TimesBy(cfg, h', now)
  {
    var (h', kinds) := CheckSource(cfg, h, now, last);
    if kinds == [] {
      assert trace + EventsAt(now, kinds) == trace;
    } else if FramesFlowing(cfg, now, last.value) {
      RecoverInv(cfg, h, trace, now);
      EventsOne(now, Notify(Healthy));
    } else {
      match h.state
      case Healthy =>
        AlarmInv(cfg, h, trace, now);
        EventsOne(now, Notify(Alarmed));
      case Alarmed =>
        RestartInv(cfg, h, trace, now, h.(state := Recovering, stateEntered := now));
        EventsOne(now, Restart);
      case Recovering =>
        if h.retries >= cfg.maxRetries {
          EscalateInv(cfg, h, trace, now);
          assert EventsAt(now, kinds) == [Event(now, Escalate)] + [Event(now, Notify(Escalated))];
          assert trace + ([Event(now, Escalate)] + [Event(now, Notify(Escalated))])
              == trace + [Event(now, Escalate)] + [Event(now, Notify(Escalated))];
        } else {
          RestartInv(cfg, h, trace, now, h);
          EventsOne(now, Restart);
        }
      case Escalated =>
        FailInv(cfg, h, trace, now);
        EventsOne(now, Notify(Failed));
    }
  }

  /** One tick extends the trace by allowed events and keeps the record in step with it. */
  lemma TickInv(cfg: Config, h: Health, trace: seq<Event>, tick: TickInput, before: int)
    requires HealthInv(cfg, h, trace)
    requires before <= tick.now && TimesBy(cfg, h, before)
    ensures var (h', kinds) := Tick(cfg, h, tick.now, tick.last, tick.quiet);
            HealthInv(cfg, h', trace + EventsAt(tick.now, kinds)) && TimesBy(cfg, h', tick.now)
  {
    var now := tick.now;
    var h1 := if QuietEnds(h, tick.quiet) then h.(state := Healthy, retries := 0, stateEntered := now) else h;
    var h2 := h1.(wasQuietHours := tick.quiet);
    assert HealthInv(cfg, h2, trace) && TimesBy(cfg, h2, now);
    if tick.quiet {
      assert trace + EventsAt(now, []) == trace;
    } else {
      CheckInv(cfg, h2, trace, now, if QuietEnds(h, tick.quiet) then Some(now) else tick.last);
    }
  }

  lemma {:induction false} RunInv(cfg: Config, h: Health, trace: seq<Event>, ticks: seq<TickInput>, before: int)
    requires HealthInv(cfg, h, trace) && TimesBy(cfg, h, before) && ClockFrom(before, ticks)
    ensures var (h', trace') := Run(cfg, h, trace, ticks); HealthInv(cfg, h', trace')
    decreases |ticks|
  {
    if ticks != [] {
      TickInv(cfg, h, trace, ticks[0], before);
      var (h', kinds) := Tick(cfg, h, ticks[0].now, ticks[0].last, ticks[0].quiet);
      RunInv(cfg, h', trace + EventsAt(ticks[0].now, kinds), ticks[1..], ticks[0].now);
    }
  }

  /**
   Over any run of any source from the tick that starts tracking it: each alarm
   waits out the cooldown of every earlier recovery; restarts within an episode
   keep the backoff and never exceed max(1, MaxRetries); an escalation comes after
   exactly that many; a failure comes a full escalation timeout after it; and none of
   these skips the stage before it or tells a recovery twice. Nothing is
   left unsaid: a source that is not healthy is in the state its events last told.
   */
  lemma WatchdogSafety(cfg: Config, start: int, ticks: seq<TickInput>)
    requires ClockFrom(start, ticks)
    ensures var (h, trace) := Run(cfg, Fresh(start), [], ticks);
            && TraceAllowed(cfg, trace)
            && 0 <= h.retries <= RetryLimit(cfg)
            && (h.state.Healthy? || h.state.Alarmed? ==> h.retries == 0)
            && (!h.state.Healthy? ==> RestartsInEpisode(trace) == h.retries && StateTold(trace) == h.state)
  {
    RunInv(cfg, Fresh(start), [], ticks, start);
    var (h, trace) := Run(cfg, Fresh(start), [], ticks);
    assert HealthInv(cfg, h, trace);
    assert h.state.Healthy? || h.state.Alarmed? || h.state.Recovering? || h.state.Escalated? || h.state.Failed?;
  }

  /** A tick outside quiet hours at which the last dispatch is younger than the threshold. */
  predicate FlowingTick(cfg: Config, tick: TickInput) {
    !tick.quiet && tick.last.Some? && tick.now - tick.last.value < cfg.silenceThreshold
  }

  predicate Explains(cfg: Config, tick: TickInput, e: Event) {
    && tick.now == e.at && !tick.quiet
    && (e.kind == Notify(Healthy) ==> FlowingTick(cfg, tick))
    && (e.kind != Notify(Healthy) && cfg.silenceThreshold > 0 ==>
          tick.last.Some? && tick.now - tick.last.value >= cfg.silenceThreshold)
  }

  /**
   Every event of a run happens at a tick outside quiet hours, a recovery at one with
   frames, and any other (with a positive threshold) at one without.
   */
  lemma {:induction false} NoActionInQuietHours(cfg: Config, h: Health, trace: seq<Event>, ticks: seq<TickInput>,
      e: Event)
    requires e in Run(cfg, h, trace, ticks).1 && e !in trace
    ensures exists i :: 0 <= i < |ticks| && Explains(cfg, ticks[i], e)
    decreases |ticks|
  {
    var (h', kinds) := Tick(cfg, h, ticks[0].now, ticks[0].last, ticks[0].quiet);
    var trace' := trace + EventsAt(ticks[0].now, kinds);
    if e !in trace' {
      NoActionInQuietHours(cfg, h', trace', ticks[1..], e);
      var i :| 0 <= i < |ticks[1..]| && Explains(cfg, ticks[1..][i], e);
      assert ticks[i + 1] == ticks[1..][i];
    }
  }

  // ----- Recovery -----

  lemma {:induction false} RunSnoc(cfg: Config, h: Health, trace: seq<Event>, ticks: seq<TickInput>, tick: TickInput)
    ensures var (h1, trace1) := Run(cfg, h, trace, ticks);
            var (h2, kinds) := Tick(cfg, h1, tick.now, tick.last, tick.quiet);
            Run(cfg, h, trace, ticks + [tick]) == (h2, trace1 + EventsAt(tick.now, kinds))
    decreases |ticks|
  {
    if ticks == [] {
      assert ticks + [tick] == [tick] && [tick][1..] == [];
    } else {
      var (h', kinds) := Tick(cfg, h, ticks[0].now, ticks[0].last, ticks[0].quiet);
      assert (ticks + [tick])[0] == ticks[0] && (ticks + [tick])[1..] == ticks[1..] + [tick];
      RunSnoc(cfg, h', trace + EventsAt(ticks[0].now, kinds), ticks[1..], tick);
    }
  }

  /**
   Whatever a source has been through, frames bring it back at once: a tick with a
   fresh dispatch ends HEALTHY with no retries. If it was not HEALTHY exactly one
   recovery is announced and the cooldown starts there; if it was, nothing happens.
   A source that comes out of quiet hours starts over without a word.
   */
  lemma {:induction false} FramesRecover(cfg: Config, start: int, past: seq<TickInput>, tick: TickInput)
    requires ClockFrom(start, past) && FlowingTick(cfg, tick)
    requires Run(cfg, Fresh(start), [], past).0.wasQuietHours ==> cfg.silenceThreshold > 0
    ensures var (h, trace) := Run(cfg, Fresh(start), [], past);
            var (h', trace') := Run(cfg, Fresh(start), [], past + [tick]);
            && h'.state == Healthy && h'.retries == 0
            && (h.state == Healthy && !h.wasQuietHours ==> h' == h)
            && (h.state == Healthy || h.wasQuietHours ==> trace' == trace)
            && (h.state != Healthy && !h.wasQuietHours ==>
                  && trace' == trace + [Event(tick.now, Notify(Healthy))]
                  && h'.stateEntered == tick.now && h'.cooldownEnd == Some(tick.now + cfg.cooldownAfterRecov))
  {
    var (h, trace) := Run(cfg, Fresh(start), [], past);
    WatchdogSafety(cfg, start, past);
    RunSnoc(cfg, Fresh(start), [], past, tick);
    EventsOne(tick.now, Notify(Healthy));
    assert trace + EventsAt(tick.now, []) == trace;
  }

  /** Quiet hours keep everything as it is; their end makes a source healthy without a word. */
  lemma QuietHoursKeepSilent(cfg: Config, h: Health, tick: TickInput)
    ensures tick.quiet ==> Tick(cfg, h, tick.now, tick.last, tick.quiet) == (h.(wasQuietHours := true), [])
    ensures h.wasQuietHours && !tick.quiet && cfg.silenceThreshold > 0 ==>
              Tick(cfg, h, tick.now, tick.last, tick.quiet)
              == (h.(wasQuietHours := false, state := Healthy, retries := 0, stateEntered := tick.now), [])
  {
  }

  /** A source that has just become active is healthy: silence at its first tick raises an alarm and nothing more. */
  lemma NewSourceAlarms(cfg: Config, start: int, tick: TickInput)
    requires !tick.quiet && tick.last.Some? && tick.now - tick.last.value >= cfg.silenceThreshold
    ensures var (h, trace) := Run(cfg, Fresh(start), [], [tick]);
            && h.state == Alarmed && h.stateEntered == tick.now && h.retries == 0
            && trace == [Event(tick.now, Notify(Alarmed))]
  {
    RunSnoc(cfg, Fresh(start), [], [], tick);
    EventsOne(tick.now, Notify(Alarmed));
    assert [] + [tick] == [tick] && [] + [Event(tick.now, Notify(Alarmed))] == [Event(tick.now, Notify(Alarmed))];
  }

  /** A source that has never dispatched is still starting up and left alone. */
  lemma StartingSourceLeftAlone(cfg: Config, h: Health, tick: TickInput)
    requires tick.last.None? && !tick.quiet && !h.wasQuietHours
    ensures Tick(cfg, h, tick.now, tick.last, tick.quiet) == (h, [])
  {
  }

  // ----- Progress -----

  /** Ticks, at least `ci` apart, until a wait of x is over. */
  function Ticks(x: int, ci: int): nat
    requires ci > 0
  {
    if x <= 0 then 0 else (x + ci - 1) / ci
  }

  lemma TicksCountDown(x: int, d: int, ci: int)
    requires ci > 0 && d >= ci && x > 0
    ensures Ticks(x - d, ci) + 1 <= Ticks(x, ci)
  {
    if x - d > 0 {
      DivisionOfMultiple(1, x - 1, ci);
      QuotientGrows(x - d + ci - 1, x - 1, ci);
    } else {
      QuotientGrows(ci, x + ci - 1, ci);
    }
  }

  /** A wait always takes at least the next tick. */
  function AtLeastOne(n: nat): nat {
    if n == 0 then 1 else n
  }

  /** Ticks from a restart with this many already made to the escalation. */
  function TicksToEscalation(cfg: Config, retries: int): nat
    requires cfg.checkInterval > 0
    decreases cfg.maxRetries - retries
  {
    if retries >= cfg.maxRetries then 1
    else AtLeastOne(Ticks(cfg.retryBackoff, cfg.checkInterval)) + TicksToEscalation(cfg, retries + 1)
  }

  function TicksToFailure(cfg: Config): nat
    requires cfg.checkInterval > 0
  {
    AtLeastOne(Ticks(cfg.escalationTimeout, cfg.checkInterval))
  }

  /** Ticks left until FAILED while the silence lasts, seen right after the tick at `now`. */
  function Measure(cfg: Config, h: Health, now: int): nat
    requires cfg.checkInterval > 0
  {
    match h.state
    case Failed => 0
    case Escalated => AtLeastOne(Ticks(cfg.escalationTimeout - (now - h.stateEntered), cfg.checkInterval))
    case Recovering =>
      if h.retries >= cfg.maxRetries || h.lastRestart.None? then
        TicksToEscalation(cfg, h.retries) + TicksToFailure(cfg)
      else
        AtLeastOne(Ticks(cfg.retryBackoff - (now - h.lastRestart.value), cfg.checkInterval))
        + TicksToEscalation(cfg, h.retries + 1) + TicksToFailure(cfg)
    case Alarmed => 1 + TicksToEscalation(cfg, 1) + TicksToFailure(cfg)
    case Healthy =>
      AtLeastOne(if h.cooldownEnd.Some? then Ticks(h.cooldownEnd.value - now, cfg.checkInterval) else 0)
      + 1 + TicksToEscalation(cfg, 1) + TicksToFailure(cfg)
  }

  /** A tick at which the source is still silent, a full interval after the one before. */
  predicate SilentTick(cfg: Config, tick: TickInput, before: int) {
    && !tick.quiet && tick.last.Some? && tick.now - tick.last.value >= cfg.silenceThreshold
    && tick.now >= before + cfg.checkInterval
  }

  ghost predicate Silent(cfg: Config, ticks: seq<TickInput>, before: int)
    decreases |ticks|
  {
    ticks == [] || (SilentTick(cfg, ticks[0], before) && Silent(cfg, ticks[1..], ticks[0].now))
  }

  ghost predicate RetriesFit(h: Health) {
    (h.state.Alarmed? ==> h.retries == 0) && (h.state.Recovering? ==> h.retries >= 1)
  }

  /** Every tick of silence brings FAILED at least one tick closer, and FAILED is kept. */
  lemma {:induction false} SilentTickProgress(cfg: Config, h: Health, tick: TickInput, before: int)
    requires cfg.checkInterval > 0 && !h.wasQuietHours && SilentTick(cfg, tick, before)
    requires RetriesFit(h)
    ensures var h' := Tick(cfg, h, tick.now, tick.last, tick.quiet).0;
            && !h'.wasQuietHours && RetriesFit(h')
            && if h.state.Failed? then h'.state.Failed? else Measure(cfg, h', tick.now) < Measure(cfg, h, before)
  {
    var d := tick.now - before;
    match h.state {
      case Failed =>
      case Escalated =>
        var x := cfg.escalationTimeout - (before - h.stateEntered);
        if x > 0 { TicksCountDown(x, d, cfg.checkInterval); }
      case Recovering =>
        if h.retries < cfg.maxRetries && h.lastRestart.Some? {
          var x := cfg.retryBackoff - (before - h.lastRestart.value);
          if x > 0 { TicksCountDown(x, d, cfg.checkInterval); }
        }
      case Alarmed =>
      case Healthy =>
        if h.cooldownEnd.Some? {
          var x := h.cooldownEnd.value - before;
          if x > 0 { TicksCountDown(x, d, cfg.checkInterval); }
        }
    }
  }

  /**
   Watchdog progress: from any state, silence that lasts Measure ticks outside
   quiet hours ends in FAILED, however long the ticks are apart beyond the check
   interval.
   */
  lemma {:induction false} SilenceReachesFailed(cfg: Config, h: Health, trace: seq<Event>, ticks: seq<TickInput>,
      before: int)
    requires cfg.checkInterval > 0 && !h.wasQuietHours && Silent(cfg, ticks, before)
    requires RetriesFit(h)
    requires |ticks| >= Measure(cfg, h, before)
    ensures Run(cfg, h, trace, ticks).0.state.Failed?
    decreases |ticks|
  {
    if ticks != [] {
      SilentTickProgress(cfg, h, ticks[0], before);
      var (h', kinds) := Tick(cfg, h, ticks[0].now, ticks[0].last, ticks[0].quiet);
      SilenceReachesFailed(cfg, h', trace + EventsAt(ticks[0].now, kinds), ticks[1..], ticks[0].now);
    }
  }

  /** The tick bound of the configuration alone. */
  function Bound(cfg: Config): nat
    requires cfg.checkInterval > 0
  {
    AtLeastOne(Ticks(cfg.cooldownAfterRecov, cfg.checkInterval)) + 1
    + (RetryLimit(cfg) - 1) * AtLeastOne(Ticks(cfg.retryBackoff, cfg.checkInterval)) + 1
    + AtLeastOne(Ticks(cfg.escalationTimeout, cfg.checkInterval))
  }

  lemma TicksMonotone(x: int, y: int, ci: int)
    requires ci > 0 && x <= y
    ensures Ticks(x, ci) <= Ticks(y, ci)
  {
    if x > 0 { QuotientGrows(x + ci - 1, y + ci - 1, ci); }
  }

  lemma {:induction false} EscalationClosedForm(cfg: Config, retries: int)
    requires cfg.checkInterval > 0 && 1 <= retries <= RetryLimit(cfg)
    ensures TicksToEscalation(cfg, retries) ==
              (RetryLimit(cfg) - retries) * AtLeastOne(Ticks(cfg.retryBackoff, cfg.checkInterval)) + 1
    decreases cfg.maxRetries - retries
  {
    var k := AtLeastOne(Ticks(cfg.retryBackoff, cfg.checkInterval));
    if retries < cfg.maxRetries {
      EscalationClosedForm(cfg, retries + 1);
      assert (RetryLimit(cfg) - retries) * k == (RetryLimit(cfg) - (retries + 1)) * k + k;
    }
  }

  lemma MeasureWithinBound(cfg: Config, h: Health, now: int)
    requires cfg.checkInterval > 0 && TimesBy(cfg, h, now)
    requires h.state.Recovering? ==> 1 <= h.retries <= RetryLimit(cfg) && h.lastRestart.Some?
    ensures Measure(cfg, h, now) <= Bound(cfg)
  {
    var ci, k := cfg.checkInterval, AtLeastOne(Ticks(cfg.retryBackoff, cfg.checkInterval));
    EscalationClosedForm(cfg, 1);
    Monotone(0, RetryLimit(cfg) - 1, k);
    match h.state
    case Healthy =>
      if h.cooldownEnd.Some? {
        TicksMonotone(h.cooldownEnd.value - now, cfg.cooldownAfterRecov, ci);
      }
    case Alarmed =>
    case Recovering => RecoveringWithinBound(cfg, h, now);
    case Escalated => TicksMonotone(cfg.escalationTimeout - (now - h.stateEntered), cfg.escalationTimeout, ci);
    case Failed =>
  }

  lemma RecoveringWithinBound(cfg: Config, h: Health, now: int)
    requires cfg.checkInterval > 0 && TimesBy(cfg, h, now)
    requires h.state.Recovering? && 1 <= h.retries <= RetryLimit(cfg) && h.lastRestart.Some?
    ensures Measure(cfg, h, now) <= Bound(cfg)
  {
    var k := AtLeastOne(Ticks(cfg.retryBackoff, cfg.checkInterval));
    var left, all := RetryLimit(cfg) - h.retries, RetryLimit(cfg) - 1;
    TicksMonotone(cfg.retryBackoff - (now - h.lastRestart.value), cfg.retryBackoff, cfg.checkInterval);
    EscalationClosedForm(cfg, h.retries);
    ProductsOrdered(left, all, k);
    var p, q := left * k, all * k;
    assert TicksToEscalation(cfg, h.retries) == p + 1 && p <= q;
    assert Measure(cfg, h, now) <= TicksToEscalation(cfg, h.retries) + TicksToFailure(cfg);
  }

  lemma ProductsOrdered(x: int, y: int, c: int)
    requires 0 <= x <= y && c >= 0
    ensures 0 <= x * c <= y * c
  {
  }

  /**
   Whatever a source has been through, once it goes silent for good it is FAILED
   within Bound(cfg) further ticks, a number fixed by the configuration.
   */
  lemma {:induction false} FailedWithinBound(cfg: Config, start: int, past: seq<TickInput>, silence: seq<TickInput>,
      now: int)
    requires cfg.checkInterval > 0 && ClockFrom(start, past)
    requires now == if past == [] then start else past[|past| - 1].now
    requires var h := Run(cfg, Fresh(start), [], past).0; !h.wasQuietHours
    requires Silent(cfg, silence, now) && |silence| >= Bound(cfg)
    ensures var (h, trace) := Run(cfg, Fresh(start), [], past); Run(cfg, h, trace, silence).0.state.Failed?
  {
    var (h, trace) := Run(cfg, Fresh(start), [], past);
    RunTimes(cfg, Fresh(start), [], past, start);
    MeasureWithinBound(cfg, h, now);
    SilenceReachesFailed(cfg, h, trace, silence, now);
  }

  lemma {:induction false} RunTimes(cfg: Config, h: Health, trace: seq<Event>, ticks: seq<TickInput>, before: int)
    requires HealthInv(cfg, h, trace) && TimesBy(cfg, h, before) && ClockFrom(before, ticks)
    ensures var (h', trace') := Run(cfg, h, trace, ticks);
            HealthInv(cfg, h', trace') && TimesBy(cfg, h', if ticks == [] then before else ticks[|ticks| - 1].now)
    decreases |ticks|
  {
    if ticks != [] {
      TickInv(cfg, h, trace, ticks[0], before);
      var (h', kinds) := Tick(cfg, h, ticks[0].now, ticks[0].last, ticks[0].quiet);
      RunTimes(cfg, h', trace + EventsAt(ticks[0].now, kinds), ticks[1..], ticks[0].now);
    }
  }
}
