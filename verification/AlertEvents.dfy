/** Whole sequences of events: when a rule fires, told from the events before and nothing else. */
module AlertEvents {
  import opened AlertEngine
  import opened AlertLadders
  import opened AlertRuns
  import opened AlertSections
  import opened Wrappers

  /** An event as the engine handles it, with the clock readings taken for each rule. */
  datatype Occurrence = Occurrence(event: Event, clocks: seq<Clock>)

  predicate ForRules(rules: seq<Rule>, os: seq<Occurrence>) {
    forall i :: 0 <= i < |os| ==> |os[i].clocks| == |rules|
  }

  /** The sections entered for the events, one after another. */
  function HistoryOf(rules: seq<Rule>, os: seq<Occurrence>): seq<Section>
    requires ForRules(rules, os)
  {
    if os == [] then []
    else
      var n := |os| - 1;
      var o := os[n];
      Evaluated(Cleared(HistoryOf(rules, os[..n]), rules, o.event, |rules|), rules, o.event, o.clocks, |rules|)
  }

  /** Rule `k` fires at event `j`. */
  predicate FiresAt(rules: seq<Rule>, os: seq<Occurrence>, j: nat, k: nat)
    requires ForRules(rules, os) && j < |os| && k < |rules|
  {
    Fires(After(HistoryOf(rules, os[..j])), rules[k], os[j].event, os[j].clocks[k])
  }

  /** The event measures the instance for the rule. */
  predicate Measures(r: Rule, e: Event, path: string) {
    Applies(r, e) && e.path == path && e.value.Some?
  }

  /** The instance's value is below every step of the rule. */
  predicate DropsBelow(r: Rule, e: Event, path: string) {
    && e.metricName != "" && r.metricName == e.metricName && r.objectType == e.objectType && e.path == path
    && e.value.Some? && forall s :: s in r.steps ==> e.value.value < s
  }

  /** After event `i` the instance has not dropped below all steps. */
  predicate NoDropAfter(os: seq<Occurrence>, i: nat, r: Rule, path: string) {
    forall m :: i < m < |os| ==> !DropsBelow(r, os[m].event, path)
  }

  /** No event since the instance last dropped below all steps has measured the step. */
  predicate NewSinceDrop(os: seq<Occurrence>, r: Rule, path: string, step: real) {
    forall i :: 0 <= i < |os| && Measures(r, os[i].event, path) && NoDropAfter(os, i, r, path)
                ==> os[i].event.value.value < step
  }

  /** Every earlier firing of rule `k` in the event's scope is at least the cooldown ago. */
  predicate RestedSince(rules: seq<Rule>, os: seq<Occurrence>, k: nat, e: Event, now: int)
    requires ForRules(rules, os) && k < |rules|
  {
    var r := rules[k];
    r.cooldownSec <= 0
    || forall i :: 0 <= i < |os| && FiresAt(rules, os, i, k) && SameScope(r, os[i].event, e)
                   ==> now - os[i].clocks[k].stamped >= r.cooldownSec * 1_000_000_000
  }

  // ---- One section more ----

  /** Every measurement of the instance since its last recovery is below the step. */
  predicate Open(ss: seq<Section>, r: Rule, path: string, step: real) {
    forall i :: 0 <= i < |ss| && SeenSinceRecovery(ss, i, |ss|, r, path) ==> ss[i].event.value.value < step
  }

  lemma {:induction false} OpenAppend(ss: seq<Section>, s: Section, r: Rule, path: string, step: real)
    ensures Open(ss + [s], r, path, step)
            <==> Clears(s, r, path) || (Open(ss, r, path, step) && (Climbs(s, r, path) ==> s.event.value.value < step))
  {
    var t, n := ss + [s], |ss|;
    forall i | 0 <= i < n
      ensures SeenSinceRecovery(t, i, n + 1, r, path) <==> SeenSinceRecovery(ss, i, n, r, path) && !Clears(s, r, path)
    {
      assert t[i] == ss[i] && t[n] == s && forall j :: i < j < n ==> t[j] == ss[j];
    }
    assert SeenSinceRecovery(t, n, n + 1, r, path) <==> Climbs(s, r, path);
    if Open(t, r, path, step) && !Clears(s, r, path) {
      forall i | 0 <= i < n && SeenSinceRecovery(ss, i, n, r, path)
        ensures ss[i].event.value.value < step
      {
        assert SeenSinceRecovery(t, i, n + 1, r, path) && t[i] == ss[i];
      }
    }
  }

  lemma {:induction false} RestedAppend(ss: seq<Section>, s: Section, r: Rule, e: Event, now: int)
    ensures Rested(ss + [s], r, e, now)
            <==> Rested(ss, r, e, now)
                 && ((s.Acquire? || s.DetectionStep?) && Admits(After(ss), s) && s.rule.cooldownSec > 0
                     && s.rule.id == r.id && SameScope(r, s.event, e) && r.cooldownSec > 0
                     ==> now - StampTime(s) >= r.cooldownSec * SECOND)
  {
    hide SameScope, Admits;
    var t, n := ss + [s], |ss|;
    forall i | 0 <= i < n
      ensures t[i] == ss[i] && (Started(t, i) <==> Started(ss, i))
    {
      AtAppend(ss, s, i);
    }
    AtAppend(ss, s, n);
    assert t[n] == s;
  }

  // ---- Sections of other rules ----

  predicate OfOthers(t: seq<Section>, id: nat) {
    forall i :: 0 <= i < |t| ==> t[i].rule.id != id
  }

  lemma {:induction false} OthersNeutral(ss: seq<Section>, t: seq<Section>, r: Rule, path: string, step: real, e: Event,
      now: int)
    requires OfOthers(t, r.id)
    ensures Open(ss + t, r, path, step) <==> Open(ss, r, path, step)
    ensures Rested(ss + t, r, e, now) <==> Rested(ss, r, e, now)
  {
    hide Open, Rested;
    if t == [] {
      assert ss + t == ss;
    } else {
      var n := |t| - 1;
      OthersNeutral(ss, t[..n], r, path, step, e, now);
      assert ss + t == ss + t[..n] + [t[n]];
      OpenAppend(ss + t[..n], t[n], r, path, step);
      RestedAppend(ss + t[..n], t[n], r, e, now);
    }
  }

  // ---- What one event adds ----

  lemma {:induction false} ClearedParts(ss: seq<Section>, rules: seq<Rule>, e: Event, n: nat, k: nat)
    returns (before: seq<Section>, rest: seq<Section>)
    requires k < |rules| && n <= |rules| && DistinctRuleIds(rules)
    ensures OfOthers(before, rules[k].id) && OfOthers(rest, rules[k].id)
    ensures Cleared(ss, rules, e, n)
            == ss + before + (if k < n && Recovers(rules[k], e) then [Recover(rules[k], e)] else []) + rest
  {
    if n == 0 {
      before, rest := [], [];
      assert ss + [] + [] + [] == ss;
    } else {
      before, rest := ClearedParts(ss, rules, e, n - 1, k);
      var own := if k < n - 1 && Recovers(rules[k], e) then [Recover(rules[k], e)] else [];
      var more := if Recovers(rules[n - 1], e) then [Recover(rules[n - 1], e)] else [];
      if n - 1 == k {
        before, rest := before + rest, [];
        assert ss + before + more + rest == Cleared(ss, rules, e, n - 1) + more;
      } else {
        assert ss + before + own + rest + more == ss + before + own + (rest + more);
        rest := rest + more;
      }
    }
  }

  lemma {:induction false} VisitIsOwn(m: Memory, r: Rule, e: Event, c: Clock)
    ensures forall i :: 0 <= i < |Visit(m, r, e, c)| ==> Visit(m, r, e, c)[i].rule == r
  {
  }

  lemma {:induction false} EvaluatedParts(ss: seq<Section>, rules: seq<Rule>, e: Event, clocks: seq<Clock>, n: nat,
      k: nat)
    returns (before: seq<Section>, rest: seq<Section>)
    requires k < |rules| == |clocks| && n <= |rules| && DistinctRuleIds(rules)
    ensures OfOthers(before, rules[k].id) && OfOthers(rest, rules[k].id)
    ensures var visit := Visit(After(Evaluated(ss, rules, e, clocks, k)), rules[k], e, clocks[k]);
            Evaluated(ss, rules, e, clocks, n) == ss + before + (if k < n then visit else []) + rest
    ensures k < n ==> Evaluated(ss, rules, e, clocks, k) == ss + before
  {
    hide After, Visit;
    if n == 0 {
      before, rest := [], [];
      assert ss + [] + [] + [] == ss;
    } else {
      before, rest := EvaluatedParts(ss, rules, e, clocks, n - 1, k);
      var past := Evaluated(ss, rules, e, clocks, n - 1);
      var visit := Visit(After(Evaluated(ss, rules, e, clocks, k)), rules[k], e, clocks[k]);
      var more := Visit(After(past), rules[n - 1], e, clocks[n - 1]);
      VisitIsOwn(After(past), rules[n - 1], e, clocks[n - 1]);
      if n - 1 == k {
        before, rest := before + rest, [];
        assert past == ss + before;
        assert ss + before + more + rest == past + more;
      } else {
        var own := if k < n - 1 then visit else [];
        assert ss + before + own + rest + more == ss + before + own + (rest + more);
        rest := rest + more;
      }
    }
  }

  lemma {:induction false} DropIff(r: Rule, e: Event, path: string)
    requires ClimbsMetric(r)
    ensures Recovers(r, e) && e.path == path <==> DropsBelow(r, e, path)
    ensures Recovers(r, e) ==> (Clears(Recover(r, e), r, path) <==> e.path == path)
  {
  }

  /** The visit of a metric rule adds its measurement and, if it fires, a firing. */
  lemma {:induction false} VisitAdds(ss: seq<Section>, r: Rule, o: Event, c: Clock, path: string, step: real,
      e: Event, now: int)
    requires !HasDetectionLadder(r)
    ensures var t := ss + Visit(After(ss), r, o, c);
            ClimbsMetric(r) ==>
              (Open(t, r, path, step) <==> Open(ss, r, path, step) && (Measures(r, o, path) ==> o.value.value < step))
    ensures var t := ss + Visit(After(ss), r, o, c);
            var fired := Fires(After(ss), r, o, c) && SameScope(r, o, e) && r.cooldownSec > 0;
            Rested(t, r, e, now) <==> Rested(ss, r, e, now) && (fired ==> now - c.stamped >= r.cooldownSec * SECOND)
  {
    hide Open, Rested, After, SameScope;
    var visit := Visit(After(ss), r, o, c);
    var acquire, climb := Acquire(r, o, c.asked, c.stamped), MetricStep(r, o);
    AppliesIff(r, o);
    if |visit| == 0 {
      assert ss + visit == ss;
    } else {
      OpenAppend(ss, visit[0], r, path, step);
      RestedAppend(ss, visit[0], r, e, now);
      if |visit| == 1 {
        assert ss + visit == ss + [visit[0]];
      } else {
        assert visit == [climb, acquire] && ss + visit == ss + [climb] + [acquire];
        OpenAppend(ss + [climb], acquire, r, path, step);
        RestedAppend(ss + [climb], acquire, r, e, now);
        AfterAppend(ss, climb);
        AcquireIgnoresStep(After(ss), r, o, c);
      }
    }
  }

  lemma {:induction false} FiresUnaffected(ss: seq<Section>, rules: seq<Rule>, e: Event, clocks: seq<Clock>, k: nat)
    requires k < |rules| == |clocks| && DistinctRuleIds(rules)
    ensures var mid := Cleared(ss, rules, e, |rules|);
            Fires(After(Evaluated(mid, rules, e, clocks, k)), rules[k], e, clocks[k])
            <==> Fires(After(ss), rules[k], e, clocks[k])
  {
    hide Fires, After, Cleared, Evaluated;
    VerdictUnaffected(Cleared(ss, rules, e, |rules|), rules, e, clocks, k);
    ClearingDoesNotFire(ss, rules, e, k, clocks[k]);
  }

  /** What the recovery phase adds for one rule. */
  lemma {:induction false} ClearingAdds(ss: seq<Section>, rules: seq<Rule>, o: Event, k: nat, path: string,
      step: real, e: Event, now: int)
    requires k < |rules| && DistinctRuleIds(rules) && !HasDetectionLadder(rules[k])
    ensures var mid := Cleared(ss, rules, o, |rules|);
            var open := DropsBelow(rules[k], o, path) || Open(ss, rules[k], path, step);
            && (ClimbsMetric(rules[k]) ==> (Open(mid, rules[k], path, step) <==> open))
            && (Rested(mid, rules[k], e, now) <==> Rested(ss, rules[k], e, now))
  {
    hide Open, Rested, After, DropsBelow;
    var r := rules[k];
    var before, rest := ClearedParts(ss, rules, o, |rules|, k);
    var own := if Recovers(r, o) then [Recover(r, o)] else [];
    OthersNeutral(ss, before, r, path, step, e, now);
    OthersNeutral(ss + before + own, rest, r, path, step, e, now);
    if ClimbsMetric(r) {
      DropIff(r, o, path);
    }
    if Recovers(r, o) {
      OpenAppend(ss + before, Recover(r, o), r, path, step);
      RestedAppend(ss + before, Recover(r, o), r, e, now);
    } else {
      assert ss + before + own == ss + before;
    }
  }

  /** What a whole event adds for one rule. */
  lemma {:induction false} EventAdds(ss: seq<Section>, rules: seq<Rule>, o: Occurrence, k: nat, path: string,
      step: real, e: Event, now: int)
    requires k < |rules| == |o.clocks| && DistinctRuleIds(rules) && !HasDetectionLadder(rules[k])
    ensures var r := rules[k];
            var t := Evaluated(Cleared(ss, rules, o.event, |rules|), rules, o.event, o.clocks, |rules|);
            var open := DropsBelow(r, o.event, path) || Open(ss, r, path, step);
            var below := Measures(r, o.event, path) ==> o.event.value.value < step;
            var fired := Fires(After(ss), r, o.event, o.clocks[k]) && SameScope(r, o.event, e) && r.cooldownSec > 0;
            var rested := fired ==> now - o.clocks[k].stamped >= r.cooldownSec * SECOND;
            && (ClimbsMetric(r) ==> (Open(t, r, path, step) <==> open && below))
            && (Rested(t, r, e, now) <==> Rested(ss, r, e, now) && rested)
  {
    hide Open, Rested, After, Fires, Cleared, Evaluated, Visit, SameScope, DropsBelow, Measures;
    var r, c := rules[k], o.clocks[k];
    var mid := Cleared(ss, rules, o.event, |rules|);
    var before, rest := EvaluatedParts(mid, rules, o.event, o.clocks, |rules|, k);
    var at := mid + before;
    var visit := Visit(After(at), r, o.event, c);
    ClearingAdds(ss, rules, o.event, k, path, step, e, now);
    OthersNeutral(mid, before, r, path, step, e, now);
    VisitAdds(at, r, o.event, c, path, step, e, now);
    OthersNeutral(at + visit, rest, r, path, step, e, now);
    FiresUnaffected(ss, rules, o.event, o.clocks, k);
  }

  // ---- The same, event by event ----

  lemma {:induction false} NewNext(os: seq<Occurrence>, r: Rule, path: string, step: real)
    requires os != [] && step in r.steps
    ensures var init, last := os[..|os| - 1], os[|os| - 1].event;
            NewSinceDrop(os, r, path, step)
            <==> (DropsBelow(r, last, path) || NewSinceDrop(init, r, path, step))
                 && (Measures(r, last, path) ==> last.value.value < step)
  {
    hide DropsBelow, Measures, NoDropAfter;
    var n := |os| - 1;
    var init := os[..n];
    forall i | 0 <= i < n
      ensures NoDropAfter(os, i, r, path) <==> NoDropAfter(init, i, r, path) && !DropsBelow(r, os[n].event, path)
      ensures init[i] == os[i]
    {
      NoDropNext(os, i, r, path);
    }
    NoDropAtEnd(os, r, path);
  }

  lemma {:induction false} NoDropNext(os: seq<Occurrence>, i: nat, r: Rule, path: string)
    requires os != [] && i < |os| - 1
    ensures NoDropAfter(os, i, r, path)
            <==> NoDropAfter(os[..|os| - 1], i, r, path) && !DropsBelow(r, os[|os| - 1].event, path)
  {
    hide DropsBelow;
    var init := os[..|os| - 1];
    assert forall m :: i < m < |init| ==> init[m] == os[m];
  }

  lemma {:induction false} NoDropAtEnd(os: seq<Occurrence>, r: Rule, path: string)
    requires os != []
    ensures NoDropAfter(os, |os| - 1, r, path)
    ensures forall s :: s in r.steps && DropsBelow(r, os[|os| - 1].event, path) ==> os[|os| - 1].event.value.value < s
  {
  }

  lemma {:induction false} OpenIffNew(rules: seq<Rule>, os: seq<Occurrence>, k: nat, path: string, step: real)
    requires ForRules(rules, os) && k < |rules| && DistinctRuleIds(rules)
    requires ClimbsMetric(rules[k]) && step in rules[k].steps
    ensures Open(HistoryOf(rules, os), rules[k], path, step) <==> NewSinceDrop(os, rules[k], path, step)
    decreases |os|
  {
    hide NewSinceDrop, DropsBelow, Measures, Cleared, Evaluated;
    if os == [] {
      NothingYet(rules[k], path, step);
    } else {
      var n := |os| - 1;
      OpenIffNew(rules, os[..n], k, path, step);
      NewNext(os, rules[k], path, step);
      EventAdds(HistoryOf(rules, os[..n]), rules, os[n], k, path, step, os[n].event, 0);
    }
  }

  lemma {:induction false} NothingYet(r: Rule, path: string, step: real)
    ensures NewSinceDrop([], r, path, step)
  {
  }

  /** Whether a rule fired at an event does not depend on later ones. */
  lemma {:induction false} FiresAtPrefix(rules: seq<Rule>, os: seq<Occurrence>, i: nat, k: nat)
    requires ForRules(rules, os) && k < |rules| && i < |os| - 1
    ensures FiresAt(rules, os[..|os| - 1], i, k) <==> FiresAt(rules, os, i, k)
  {
    hide Fires, HistoryOf;
    assert os[..|os| - 1][..i] == os[..i];
  }

  lemma {:induction false} RestedNext(rules: seq<Rule>, os: seq<Occurrence>, k: nat, e: Event, now: int)
    requires ForRules(rules, os) && k < |rules| && os != []
    ensures var n, r := |os| - 1, rules[k];
            RestedSince(rules, os, k, e, now)
            <==> RestedSince(rules, os[..n], k, e, now)
                 && (FiresAt(rules, os, n, k) && SameScope(r, os[n].event, e) && r.cooldownSec > 0
                     ==> now - os[n].clocks[k].stamped >= r.cooldownSec * SECOND)
  {
    hide FiresAt, SameScope;
    var n, r := |os| - 1, rules[k];
    var init := os[..n];
    forall i | 0 <= i < n
      ensures init[i] == os[i]
      ensures FiresAt(rules, init, i, k) <==> FiresAt(rules, os, i, k)
    {
      FiresAtPrefix(rules, os, i, k);
    }
    if r.cooldownSec > 0 && RestedSince(rules, os, k, e, now) {
      forall i | 0 <= i < n && FiresAt(rules, init, i, k) && SameScope(r, init[i].event, e)
        ensures now - init[i].clocks[k].stamped >= r.cooldownSec * SECOND
      {
        assert FiresAt(rules, os, i, k);
      }
    }
  }

  lemma {:induction false} RestedIffSince(rules: seq<Rule>, os: seq<Occurrence>, k: nat, e: Event, now: int)
    requires ForRules(rules, os) && k < |rules| && DistinctRuleIds(rules) && !HasDetectionLadder(rules[k])
    ensures Rested(HistoryOf(rules, os), rules[k], e, now) <==> RestedSince(rules, os, k, e, now)
    decreases |os|
  {
    hide RestedSince, Cleared, Evaluated, SameScope, Fires;
    if os == [] {
      NobodyFired(rules, k, e, now);
    } else {
      var n := |os| - 1;
      RestedIffSince(rules, os[..n], k, e, now);
      RestedNext(rules, os, k, e, now);
      EventAdds(HistoryOf(rules, os[..n]), rules, os[n], k, "", 0.0, e, now);
    }
  }

  lemma {:induction false} NobodyFired(rules: seq<Rule>, k: nat, e: Event, now: int)
    requires k < |rules|
    ensures RestedSince(rules, [], k, e, now)
  {
  }

  // ---- The engine only enters sections it may enter ----

  lemma {:induction false} ClearedKnown(ss: seq<Section>, rules: seq<Rule>, e: Event, n: nat, r: Rule)
    requires n <= |rules| && DistinctRuleIds(rules) && r in rules && Known(ss, r)
    ensures Known(Cleared(ss, rules, e, n), r)
  {
    if n > 0 {
      ClearedKnown(ss, rules, e, n - 1, r);
      if rules[n - 1].id == r.id {
        SameIdSameRule(rules, rules[n - 1], r);
      }
    }
  }

  lemma {:induction false} SameIdSameRule(rules: seq<Rule>, r: Rule, r': Rule)
    requires DistinctRuleIds(rules) && r in rules && r' in rules && r.id == r'.id
    ensures r == r'
  {
  }

  lemma {:induction false} VisitReached(m: Memory, r: Rule, e: Event, c: Clock)
    ensures forall i :: 0 <= i < |Visit(m, r, e, c)| ==> Reached(Visit(m, r, e, c)[i])
  {
  }

  lemma {:induction false} EvaluatedKnown(ss: seq<Section>, rules: seq<Rule>, e: Event, clocks: seq<Clock>, n: nat,
      r: Rule)
    requires n <= |rules| == |clocks| && DistinctRuleIds(rules) && r in rules && Known(ss, r)
    ensures Known(Evaluated(ss, rules, e, clocks, n), r)
  {
    hide After, Visit, Reached;
    if n > 0 {
      EvaluatedKnown(ss, rules, e, clocks, n - 1, r);
      var past := Evaluated(ss, rules, e, clocks, n - 1);
      VisitIsOwn(After(past), rules[n - 1], e, clocks[n - 1]);
      VisitReached(After(past), rules[n - 1], e, clocks[n - 1]);
      if rules[n - 1].id == r.id {
        SameIdSameRule(rules, rules[n - 1], r);
      }
    }
  }

  lemma {:induction false} HistoryKnown(rules: seq<Rule>, os: seq<Occurrence>, r: Rule)
    requires ForRules(rules, os) && DistinctRuleIds(rules) && r in rules
    ensures Known(HistoryOf(rules, os), r)
    decreases |os|
  {
    hide Known, Cleared, Evaluated;
    if os == [] {
      NothingKnown(r);
    } else {
      var n := |os| - 1;
      var o := os[n];
      HistoryKnown(rules, os[..n], r);
      ClearedKnown(HistoryOf(rules, os[..n]), rules, o.event, |rules|, r);
      EvaluatedKnown(Cleared(HistoryOf(rules, os[..n]), rules, o.event, |rules|), rules, o.event, o.clocks, |rules|, r);
    }
  }

  lemma {:induction false} NothingKnown(r: Rule)
    ensures Known([], r)
  {
  }

  // ---- When a rule fires ----

  /**
   After any sequence of events, a rule without steps fires exactly when it applies
   and every earlier event in its scope at which it fired is a cooldown ago.
   */
  lemma {:induction false} PlainRuleOverEvents(rules: seq<Rule>, os: seq<Occurrence>, o: Occurrence, k: nat)
    requires ForRules(rules, os) && k < |rules| == |o.clocks| && DistinctRuleIds(rules)
    requires ClockAdvances(HistoryOf(rules, os)) && rules[k].steps == []
    ensures var r, e, c := rules[k], o.event, o.clocks[k];
            Fires(After(HistoryOf(rules, os)), r, e, c) <==> Applies(r, e) && RestedSince(rules, os, k, e, c.asked)
  {
    hide Rested, RestedSince, Fires, After, Known, ClockAdvances;
    var r, e, c := rules[k], o.event, o.clocks[k];
    HistoryKnown(rules, os, r);
    RestedIffSince(rules, os, k, e, c.asked);
    PlainRuleFiresIff(HistoryOf(rules, os), r, e, c);
  }

  /**
   After any sequence of events, a metric rule with steps fires exactly when it
   applies, the value reaches a step that no event has measured since the instance
   last dropped below all of them, and every earlier event of the instance at which
   it fired is a cooldown ago. Other rules, other instances and everything the
   engine stores play no part.
   */
  lemma {:induction false} MetricRuleOverEvents(rules: seq<Rule>, os: seq<Occurrence>, o: Occurrence, k: nat)
    requires ForRules(rules, os) && k < |rules| == |o.clocks| && DistinctRuleIds(rules)
    requires ClockAdvances(HistoryOf(rules, os)) && HasMetricLadder(rules[k]) && o.event.value.Some?
    ensures var r, e, c := rules[k], o.event, o.clocks[k];
            Fires(After(HistoryOf(rules, os)), r, e, c) <==>
            && Applies(r, e)
            && (exists step :: step in r.steps && step <= e.value.value && NewSinceDrop(os, r, e.path, step))
            && RestedSince(rules, os, k, e, c.asked)
  {
    hide NewSinceDrop, Rested, RestedSince, Fires, After, Known, ClockAdvances;
    var r, e, c := rules[k], o.event, o.clocks[k];
    var ss := HistoryOf(rules, os);
    HistoryKnown(rules, os, r);
    RestedIffSince(rules, os, k, e, c.asked);
    MetricRuleFiresIff(ss, r, e, c);
    forall step | step in r.steps
      ensures Open(ss, r, e.path, step) <==> NewSinceDrop(os, r, e.path, step)
    {
      OpenIffNew(rules, os, k, e.path, step);
    }
  }
}
