/** The alert engine itself: an object whose methods update the cooldown and escalation tables. */
module AlertEngine {
  import opened AlertKeys
  import opened AlertSections
  import opened Wrappers

  /** The clock readings taken while one rule is handled. */
  datatype Readings = Readings(asked: int, stamped: int)
  type Clock = r: Readings | r.asked <= r.stamped witness Readings(0, 0)

  /** A rule that fired, with the ladder step attached to the event's properties, if any. */
  datatype Firing = Firing(rule: Rule, step: Option<real>)

  /** The memory a whole run leaves behind. */
  function After(ss: seq<Section>): Memory {
    At(ss, |ss|)
  }

  /** Whether an event makes a rule fire, judged against one memory. */
  predicate Fires(m: Memory, r: Rule, e: Event, c: Clock) {
    && Matches(r, e)
    && if ClimbsDetection(r, e) then Admits(m, DetectionStep(r, e, c.asked))
       else (ClimbsMetric(r) ==> Admits(m, MetricStep(r, e))) && Admits(m, Acquire(r, e, c.asked, c.stamped))
  }

  function AttachedStep(r: Rule, e: Event): Option<real> {
    if ClimbsMetric(r) && e.value.Some? then Highest(r.steps, e.value.value)
    else if ClimbsDetection(r, e) && e.confidence.Some? then Highest(r.steps, e.confidence.value)
    else None
  }

  function Verdict(m: Memory, r: Rule, e: Event, c: Clock): seq<Firing> {
    if Fires(m, r, e, c) then [Firing(r, AttachedStep(r, e))] else []
  }

  /** The sections entered for one rule once recoveries have been cleared. */
  function Visit(m: Memory, r: Rule, e: Event, c: Clock): seq<Section> {
    if !Matches(r, e) then []
    else if ClimbsDetection(r, e) then [DetectionStep(r, e, c.asked)]
    else if ClimbsMetric(r) then
      if Admits(m, MetricStep(r, e)) then [MetricStep(r, e), Acquire(r, e, c.asked, c.stamped)] else [MetricStep(r, e)]
    else [Acquire(r, e, c.asked, c.stamped)]
  }

  /** The metric has dropped below the lowest step of a rule that climbs it. */
  predicate Recovers(r: Rule, e: Event) {
    Reached(Recover(r, e)) && e.value.Some? && e.value.value < MinStep(r.steps)
  }

  /** The run `ss` continued by the recovery phase for the first `k` rules. */
  function Cleared(ss: seq<Section>, rules: seq<Rule>, e: Event, k: nat): seq<Section>
    requires k <= |rules|
  {
    if k == 0 then ss
    else Cleared(ss, rules, e, k - 1) + if Recovers(rules[k - 1], e) then [Recover(rules[k - 1], e)] else []
  }

  /** The run `ss` continued by the evaluation of the first `k` rules. */
  function Evaluated(ss: seq<Section>, rules: seq<Rule>, e: Event, clocks: seq<Clock>, k: nat): seq<Section>
    requires k <= |rules| == |clocks|
  {
    if k == 0 then ss
    else
      var before := Evaluated(ss, rules, e, clocks, k - 1);
      before + Visit(After(before), rules[k - 1], e, clocks[k - 1])
  }

  /** The firings of the first `k` rules, every one judged against the same memory. */
  function Fired(m: Memory, rules: seq<Rule>, e: Event, clocks: seq<Clock>, k: nat): seq<Firing>
    requires k <= |rules| == |clocks|
  {
    if k == 0 then []
    else Fired(m, rules, e, clocks, k - 1) + Verdict(m, rules[k - 1], e, clocks[k - 1])
  }

  predicate DistinctRuleIds(rules: seq<Rule>) {
    forall i, j :: 0 <= i < j < |rules| ==> rules[i].id != rules[j].id
  }

  predicate AllReached(ss: seq<Section>) {
    forall i :: 0 <= i < |ss| ==> Reached(ss[i])
  }

  lemma {:induction false} AtAppend(ss: seq<Section>, s: Section, k: nat)
    requires k <= |ss|
    ensures At(ss + [s], k) == At(ss, k)
  {
    if k > 0 {
      AtAppend(ss, s, k - 1);
    }
  }

  lemma AfterAppend(ss: seq<Section>, s: Section)
    ensures After(ss + [s]) == Enter(After(ss), s)
  {
    AtAppend(ss, s, |ss|);
  }

  lemma SameViewReflexive(m: Memory, id: nat)
    ensures SameView(m, m, id)
  {
  }

  lemma SameViewTransitive(a: Memory, b: Memory, c: Memory, id: nat)
    requires SameView(a, b, id) && SameView(b, c, id)
    ensures SameView(a, c, id)
  {
  }

  /** Continuing a run with another rule's section does not change this rule's view. */
  lemma ViewKept(m: Memory, ss: seq<Section>, s: Section, id: nat)
    requires SameView(m, After(ss), id) && s.rule.id != id
    ensures SameView(m, After(ss + [s]), id)
  {
    AfterAppend(ss, s);
    OtherRulesUnaffected(After(ss), s, id);
    SameViewTransitive(m, After(ss), After(ss + [s]), id);
  }

  lemma VisitKeepsView(m: Memory, ss: seq<Section>, r: Rule, e: Event, c: Clock, id: nat)
    requires SameView(m, After(ss), id) && r.id != id
    ensures SameView(m, After(ss + Visit(After(ss), r, e, c)), id)
  {
    var visit := Visit(After(ss), r, e, c);
    if |visit| == 0 {
      assert ss + visit == ss;
    } else {
      ViewKept(m, ss, visit[0], id);
      if |visit| == 1 {
        assert ss + visit == ss + [visit[0]];
      } else {
        ViewKept(m, ss + [visit[0]], visit[1], id);
        assert ss + visit == ss + [visit[0]] + [visit[1]];
      }
    }
  }

  /** The evaluation of other rules does not change this rule's view. */
  lemma {:induction false} EvaluationKeepsView(ss: seq<Section>, rules: seq<Rule>, e: Event, clocks: seq<Clock>,
      k: nat, id: nat)
    requires k <= |rules| == |clocks|
    requires forall i :: 0 <= i < k ==> rules[i].id != id
    ensures SameView(After(ss), After(Evaluated(ss, rules, e, clocks, k)), id)
  {
    hide SameView, After, Visit;
    SameViewReflexive(After(ss), id);
    if k > 0 {
      EvaluationKeepsView(ss, rules, e, clocks, k - 1, id);
      VisitKeepsView(After(ss), Evaluated(ss, rules, e, clocks, k - 1), rules[k - 1], e, clocks[k - 1], id);
    }
  }

  lemma {:induction false} ClearingKeepsView(ss: seq<Section>, rules: seq<Rule>, e: Event, k: nat, id: nat)
    requires k <= |rules|
    requires forall i :: 0 <= i < k && Recovers(rules[i], e) ==> rules[i].id != id
    ensures SameView(After(ss), After(Cleared(ss, rules, e, k)), id)
  {
    if k > 0 {
      ClearingKeepsView(ss, rules, e, k - 1, id);
      var before := Cleared(ss, rules, e, k - 1);
      if Recovers(rules[k - 1], e) {
        ViewKept(After(ss), before, Recover(rules[k - 1], e), id);
      } else {
        assert Cleared(ss, rules, e, k) == before;
      }
    }
  }

  /** A rule's verdict depends only on its own view of the memory. */
  lemma SameViewFires(m: Memory, m': Memory, r: Rule, e: Event, c: Clock)
    requires SameView(m, m', r.id)
    ensures Verdict(m, r, e, c) == Verdict(m', r, e, c)
  {
    ViewDecides(m, m', DetectionStep(r, e, c.asked));
    ViewDecides(m, m', MetricStep(r, e));
    ViewDecides(m, m', Acquire(r, e, c.asked, c.stamped));
  }

  /** The verdict on each rule can be read off the memory before any rule was evaluated. */
  lemma VerdictUnaffected(ss: seq<Section>, rules: seq<Rule>, e: Event, clocks: seq<Clock>, k: nat)
    requires k < |rules| == |clocks| && DistinctRuleIds(rules)
    ensures Verdict(After(Evaluated(ss, rules, e, clocks, k)), rules[k], e, clocks[k])
            == Verdict(After(ss), rules[k], e, clocks[k])
  {
    EvaluationKeepsView(ss, rules, e, clocks, k, rules[k].id);
    SameViewFires(After(ss), After(Evaluated(ss, rules, e, clocks, k)), rules[k], e, clocks[k]);
  }

  lemma RoundNext(ss: seq<Section>, rules: seq<Rule>, e: Event, clocks: seq<Clock>, k: nat)
    requires k < |rules| == |clocks| && DistinctRuleIds(rules)
    ensures var before := Evaluated(ss, rules, e, clocks, k);
            && Evaluated(ss, rules, e, clocks, k + 1) == before + Visit(After(before), rules[k], e, clocks[k])
            && Fired(After(ss), rules, e, clocks, k + 1)
               == Fired(After(ss), rules, e, clocks, k) + Verdict(After(before), rules[k], e, clocks[k])
  {
    VerdictUnaffected(ss, rules, e, clocks, k);
  }

  lemma RecoveredIsSilent(m: Memory, r: Rule, e: Event, c: Clock)
    requires Recovers(r, e)
    ensures Verdict(m, r, e, c) == []
  {
    assert Highest(r.steps, e.value.value).None?;
  }

  /** Clearing recovered ladders first does not change any verdict: a rule whose ladder is cleared
    * is below its lowest step and cannot fire.
    */
  lemma ClearingDoesNotFire(ss: seq<Section>, rules: seq<Rule>, e: Event, k: nat, c: Clock)
    requires k < |rules| && DistinctRuleIds(rules)
    ensures Verdict(After(Cleared(ss, rules, e, |rules|)), rules[k], e, c) == Verdict(After(ss), rules[k], e, c)
  {
    var after := After(Cleared(ss, rules, e, |rules|));
    if Recovers(rules[k], e) {
      RecoveredIsSilent(After(ss), rules[k], e, c);
      RecoveredIsSilent(after, rules[k], e, c);
    } else {
      ClearingKeepsView(ss, rules, e, |rules|, rules[k].id);
      SameViewFires(After(ss), after, rules[k], e, c);
    }
  }

  lemma {:induction false} FiredAfterClearing(ss: seq<Section>, rules: seq<Rule>, e: Event, clocks: seq<Clock>, k: nat)
    requires k <= |rules| == |clocks| && DistinctRuleIds(rules)
    ensures Fired(After(Cleared(ss, rules, e, |rules|)), rules, e, clocks, k) == Fired(After(ss), rules, e, clocks, k)
  {
    hide After, Verdict, Cleared;
    if k > 0 {
      FiredAfterClearing(ss, rules, e, clocks, k - 1);
      ClearingDoesNotFire(ss, rules, e, k - 1, clocks[k - 1]);
    }
  }

  lemma {:induction false} NothingRecovers(ss: seq<Section>, rules: seq<Rule>, e: Event, k: nat)
    requires k <= |rules| && (e.metricName == "" || e.value.None?)
    ensures Cleared(ss, rules, e, k) == ss
  {
    if k > 0 {
      NothingRecovers(ss, rules, e, k - 1);
    }
  }

  /** Storing a step leaves the cooldown question as it was. */
  lemma AcquireIgnoresStep(m: Memory, r: Rule, e: Event, c: Clock)
    ensures var acquire := Acquire(r, e, c.asked, c.stamped);
            Admits(Enter(m, MetricStep(r, e)), acquire) == Admits(m, acquire)
  {
  }

  /** A ladder step is taken before the cooldown is asked for, so a refused cooldown consumes the step:
    * measuring the same value again does not fire even when the cooldown is over.
    */
  lemma RefusedCooldownConsumesStep(ss: seq<Section>, r: Rule, e: Event, c: Clock, later: Clock)
    requires Matches(r, e) && ClimbsMetric(r) && e.value.Some? && !Fires(After(ss), r, e, c)
    ensures !Fires(After(ss + Visit(After(ss), r, e, c)), r, e, later)
  {
    var step, acquire := MetricStep(r, e), Acquire(r, e, c.asked, c.stamped);
    AfterAppend(ss, step);
    if Admits(After(ss), step) {
      AfterAppend(ss + [step], acquire);
      assert ss + [step, acquire] == ss + [step] + [acquire];
    }
  }

  class Engine {
    var rules: seq<Rule>
    var cooldowns: map<string, int>
    var escalations: map<string, real>

    /** Every section entered since the engine started. */
    ghost var history: seq<Section>

    ghost function State(): Memory
      reads this
    {
      Memory(cooldowns, escalations)
    }

    /** The tables are what the history of sections makes of them. */
    ghost predicate Valid()
      reads this
    {
      State() == After(history) && AllReached(history)
    }

    constructor (initial: seq<Rule>)
      ensures Valid() && rules == initial && history == []
    {
      rules, cooldowns, escalations, history := initial, map[], map[], [];
    }

    static method HighestStepExceeded(steps: seq<real>, value: real) returns (step: real, found: bool)
      ensures found <==> exists s :: s in steps && s <= value
      ensures found ==> step in steps && step <= value && forall s :: s in steps && s <= value ==> s <= step
      ensures Highest(steps, value) == if found then Some(step) else None
    {
      step, found := 0.0, false;
      var i := 0;
      while i < |steps|
        invariant 0 <= i <= |steps|
        invariant Highest(steps[..i], value) == if found then Some(step) else None
      {
        var s := steps[i];
        assert steps[..i + 1][..i] == steps[..i];
        if value >= s && (!found || s > step) {
          step, found := s, true;
        }
        i := i + 1;
      }
      assert steps[..i] == steps;
    }

    /** One rule's turn in the recovery phase. */
    method ClearIfBelow(rule: Rule, event: Event)
      requires Valid() && Reached(Recover(rule, event))
      modifies this`escalations, this`history
      ensures Valid()
      ensures history == old(history) + if Recovers(rule, event) then [Recover(rule, event)] else []
    {
      var baseStep := MinStep(rule.steps);
      if event.value.value < baseStep {
        ghost var section := Recover(rule, event);
        AfterAppend(history, section);
        escalations := escalations - {EscalationKey(rule.id, event.metricName, event.path)};
        history := history + [section];
      }
    }

    method ClearEscalationIfRecovered(event: Event)
      requires Valid()
      modifies this`escalations, this`history
      ensures Valid()
      ensures history == Cleared(old(history), rules, event, |rules|)
    {
      if event.metricName == "" || event.value.None? {
        NothingRecovers(history, rules, event, |rules|);
        return;
      }
      var i := 0;
      while i < |rules|
        invariant 0 <= i <= |rules|
        invariant Valid() && history == Cleared(old(history), rules, event, i)
      {
        var rule := rules[i];
        i := i + 1;
        if rule.trigger != OnMetric || rule.metricName != event.metricName {
          continue;
        }
        if rule.objectType != event.objectType {
          continue;
        }
        if rule.steps == [] {
          continue;
        }
        ClearIfBelow(rule, event);
      }
    }

    method ShouldSuppressEscalation(rule: Rule, event: Event) returns (suppress: bool, step: Option<real>)
      requires Valid() && Matches(rule, event) && rule.trigger == OnMetric
      modifies this`cooldowns, this`escalations, this`history
      ensures Valid() && cooldowns == old(cooldowns)
      ensures rule.steps == [] ==> !suppress && step == None && history == old(history)
      ensures rule.steps != [] ==> history == old(history) + [MetricStep(rule, event)]
      ensures rule.steps != [] ==> State() == Enter(old(State()), MetricStep(rule, event))
      ensures rule.steps != [] ==> suppress == !Admits(old(State()), MetricStep(rule, event))
      ensures !suppress ==> step == AttachedStep(rule, event)
    {
      if rule.steps == [] {
        return false, None;
      }
      ghost var section := MetricStep(rule, event);
      AfterAppend(history, section);
      history := history + [section];
      if event.value.None? {
        return false, None;
      }
      var currentStep, stepFound := HighestStepExceeded(rule.steps, event.value.value);
      if !stepFound {
        return true, None;
      }
      var key := EscalationKey(rule.id, event.metricName, event.path);
      if key in escalations && escalations[key] >= currentStep {
        return true, None;
      }
      escalations := escalations[key := currentStep];
      return false, Some(currentStep);
    }

    method PruneDetectionEscalations(ruleId: nat, species: string, currentKey: string)
      modifies this`escalations
      ensures escalations == Pruned(old(escalations), DetectionKeyPrefix(ruleId, species), currentKey)
    {
      var prefix := DetectionKeyPrefix(ruleId, species);
      var keys := escalations.Keys;
      while keys != {}
        invariant keys <= old(escalations).Keys
        invariant escalations ==
                  map key | key in old(escalations) && (key in keys || key == currentKey || !(prefix <= key))
                  :: old(escalations)[key]
        decreases keys
      {
        var key :| key in keys;
        keys := keys - {key};
        if key != currentKey && prefix <= key {
          escalations := escalations - {key};
        }
      }
    }

    method ShouldSuppressDetectionEscalation(rule: Rule, event: Event, cdKey: string, now: int)
      returns (suppress: bool, step: Option<real>)
      requires Valid() && Matches(rule, event) && rule.trigger == OnEvent && IsDetection(event.eventName)
      requires event.species != UNKNOWN_SPECIES && cdKey == CooldownKey(rule, event)
      modifies this`cooldowns, this`escalations, this`history
      ensures Valid()
      ensures rule.steps == [] ==> !suppress && step == None && history == old(history)
      ensures rule.steps != [] ==> history == old(history) + [DetectionStep(rule, event, now)]
      ensures rule.steps != [] ==> State() == Enter(old(State()), DetectionStep(rule, event, now))
      ensures rule.steps != [] ==> suppress == !Admits(old(State()), DetectionStep(rule, event, now))
      ensures !suppress ==> step == AttachedStep(rule, event)
    {
      if rule.steps == [] {
        return false, None;
      }
      ghost var section := DetectionStep(rule, event, now);
      AfterAppend(history, section);
      history := history + [section];
      if event.confidence.None? {
        return true, None;
      }
      var currentStep, stepFound := HighestStepExceeded(rule.steps, event.confidence.value);
      if !stepFound {
        return true, None;
      }
      var key := DetectionKey(rule.id, event.species, event.episode);
      var cooldownExpired := CooldownOver(Memory(cooldowns, escalations), cdKey, rule.cooldownSec, now);
      if key in escalations && escalations[key] >= currentStep && !cooldownExpired {
        return true, None;
      }
      PruneDetectionEscalations(rule.id, event.species, key);
      escalations := escalations[key := currentStep];
      if rule.cooldownSec > 0 {
        cooldowns := cooldowns[cdKey := now];
      }
      return false, Some(currentStep);
    }

    method TryAcquireCooldown(key: string, cooldownSec: int, clock: Clock, ghost rule: Rule, ghost event: Event)
      returns (acquired: bool)
      requires Valid() && Reached(Acquire(rule, event, clock.asked, clock.stamped))
      requires key == CooldownKey(rule, event) && cooldownSec == rule.cooldownSec
      modifies this`cooldowns, this`escalations, this`history
      ensures Valid() && escalations == old(escalations)
      ensures history == old(history) + [Acquire(rule, event, clock.asked, clock.stamped)]
      ensures State() == Enter(old(State()), Acquire(rule, event, clock.asked, clock.stamped))
      ensures acquired == Admits(old(State()), Acquire(rule, event, clock.asked, clock.stamped))
    {
      ghost var section := Acquire(rule, event, clock.asked, clock.stamped);
      AfterAppend(history, section);
      history := history + [section];
      if cooldownSec <= 0 {
        return true;
      }
      if key in cooldowns && clock.asked - cooldowns[key] < cooldownSec * SECOND {
        return false;
      }
      cooldowns := cooldowns[key := clock.stamped];
      return true;
    }

    /** The second phase for one rule. */
    method HandleRule(rule: Rule, event: Event, clock: Clock) returns (fired: seq<Firing>)
      requires Valid()
      modifies this`cooldowns, this`escalations, this`history
      ensures Valid()
      ensures history == old(history) + Visit(old(State()), rule, event, clock)
      ensures fired == Verdict(old(State()), rule, event, clock)
    {
      fired := [];
      if !Matches(rule, event) {
        return;
      }
      var cdKey := CooldownKey(rule, event);
      if rule.trigger == OnMetric && rule.steps != [] {
        AcquireIgnoresStep(State(), rule, event, clock);
        var suppress, step := ShouldSuppressEscalation(rule, event);
        if suppress {
          return;
        }
        var acquired := TryAcquireCooldown(cdKey, rule.cooldownSec, clock, rule, event);
        if !acquired {
          return;
        }
        return [Firing(rule, step)];
      }
      if rule.trigger == OnEvent && IsDetection(event.eventName) && rule.steps != [] {
        if event.species != UNKNOWN_SPECIES {
          var suppress, step := ShouldSuppressDetectionEscalation(rule, event, cdKey, clock.asked);
          if suppress {
            return;
          }
          return [Firing(rule, step)];
        }
      }
      var acquired := TryAcquireCooldown(cdKey, rule.cooldownSec, clock, rule, event);
      if acquired {
        return [Firing(rule, None)];
      }
    }

    /** The second phase over all rules. */
    method EvaluateRules(event: Event, clocks: seq<Clock>) returns (fired: seq<Firing>)
      requires Valid() && DistinctRuleIds(rules) && |clocks| == |rules|
      modifies this`cooldowns, this`escalations, this`history
      ensures Valid()
      ensures fired == Fired(After(old(history)), rules, event, clocks, |rules|)
      ensures history == Evaluated(old(history), rules, event, clocks, |rules|)
    {
      hide At;
      ghost var start := history;
      fired := [];
      var i := 0;
      while i < |rules|
        invariant 0 <= i <= |rules|
        invariant Valid()
        invariant history == Evaluated(start, rules, event, clocks, i)
        invariant fired == Fired(After(start), rules, event, clocks, i)
      {
        RoundNext(start, rules, event, clocks, i);
        var verdict := HandleRule(rules[i], event, clocks[i]);
        fired := fired + verdict;
        i := i + 1;
      }
    }

    /** Every rule is judged as if it were the only one: the firings depend on the tables before the event alone. */
    method HandleEvent(event: Event, clocks: seq<Clock>) returns (fired: seq<Firing>)
      requires Valid() && DistinctRuleIds(rules) && |clocks| == |rules|
      modifies this`cooldowns, this`escalations, this`history
      ensures Valid()
      ensures fired == Fired(old(State()), rules, event, clocks, |rules|)
      ensures history == Evaluated(Cleared(old(history), rules, event, |rules|), rules, event, clocks, |rules|)
    {
      FiredAfterClearing(history, rules, event, clocks, |rules|);
      ClearEscalationIfRecovered(event);
      fired := EvaluateRules(event, clocks);
    }
  }
}
