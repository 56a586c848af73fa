/** Detection rules with steps over whole sequences of events: when they notify, told from the events alone. */
module AlertDetections {
  import opened AlertEngine
  import opened AlertEvents
  import opened AlertKeys
  import opened AlertLadders
  import opened AlertRuns
  import opened AlertSections
  import opened Wrappers

  /** Rule `k` fires at event `j`, for the species. */
  predicate NotifiesAt(rules: seq<Rule>, os: seq<Occurrence>, j: nat, k: nat, species: string)
    requires ForRules(rules, os) && j < |os| && k < |rules|
  {
    FiresAt(rules, os, j, k) && os[j].event.species == species
  }

  /** Event `j` is the latest at which rule `k` fired for the species. */
  predicate LatestAt(rules: seq<Rule>, os: seq<Occurrence>, j: nat, k: nat, species: string)
    requires ForRules(rules, os) && k < |rules|
  {
    && j < |os| && NotifiesAt(rules, os, j, k, species)
    && forall i :: j < i < |os| ==> !NotifiesAt(rules, os, i, k, species)
  }

  // ---- One section more ----

  /** The section that last notified the species for the rule. */
  function LatestNotice(ss: seq<Section>, r: Rule, species: string): Option<Section> {
    var last := LastNotified(ss, |ss|, r, species);
    if last.Some? then Some(ss[last.value]) else None
  }

  lemma {:induction false} NotifiedPrefix(ss: seq<Section>, s: Section, k: nat, r: Rule, species: string)
    requires k <= |ss|
    ensures LastNotified(ss + [s], k, r, species) == LastNotified(ss, k, r, species)
  {
    if k > 0 {
      AtAppend(ss, s, k - 1);
      NotifiedPrefix(ss, s, k - 1, r, species);
    }
  }

  predicate Announces(m: Memory, s: Section, r: Rule, species: string) {
    s.DetectionStep? && s.rule.id == r.id && s.event.species == species && Admits(m, s)
  }

  lemma {:induction false} NoticeAppend(ss: seq<Section>, s: Section, r: Rule, species: string)
    ensures LatestNotice(ss + [s], r, species)
            == if Announces(After(ss), s, r, species) then Some(s) else LatestNotice(ss, r, species)
  {
    AtAppend(ss, s, |ss|);
    NotifiedPrefix(ss, s, |ss|, r, species);
  }

  lemma {:induction false} OthersSilent(ss: seq<Section>, t: seq<Section>, r: Rule, species: string)
    requires OfOthers(t, r.id)
    ensures LatestNotice(ss + t, r, species) == LatestNotice(ss, r, species)
  {
    hide LatestNotice;
    if t == [] {
      assert ss + t == ss;
    } else {
      var n := |t| - 1;
      OthersSilent(ss, t[..n], r, species);
      assert ss + t == ss + t[..n] + [t[n]];
      NoticeAppend(ss + t[..n], t[n], r, species);
    }
  }

  // ---- One event more ----

  lemma {:induction false} VisitNotifies(ss: seq<Section>, r: Rule, o: Event, c: Clock, species: string)
    requires HasDetectionLadder(r) && species != "unknown"
    ensures LatestNotice(ss + Visit(After(ss), r, o, c), r, species)
            == if Fires(After(ss), r, o, c) && o.species == species then Some(DetectionStep(r, o, c.asked))
               else LatestNotice(ss, r, species)
  {
    hide LatestNotice, After, Admits;
    var visit := Visit(After(ss), r, o, c);
    if |visit| == 0 {
      assert ss + visit == ss;
    } else {
      assert |visit| == 1 && ss + visit == ss + [visit[0]];
      NoticeAppend(ss, visit[0], r, species);
    }
  }

  lemma {:induction false} EventNotifies(ss: seq<Section>, rules: seq<Rule>, o: Occurrence, k: nat, species: string)
    requires k < |rules| == |o.clocks| && DistinctRuleIds(rules)
    requires HasDetectionLadder(rules[k]) && species != "unknown"
    ensures var r, c := rules[k], o.clocks[k];
            LatestNotice(Evaluated(Cleared(ss, rules, o.event, |rules|), rules, o.event, o.clocks, |rules|), r, species)
            == if Fires(After(ss), r, o.event, c) && o.event.species == species
               then Some(DetectionStep(r, o.event, c.asked))
               else LatestNotice(ss, r, species)
  {
    hide LatestNotice, After, Fires, Cleared, Evaluated, Visit;
    var r, c := rules[k], o.clocks[k];
    var mid := Cleared(ss, rules, o.event, |rules|);
    var before, rest := ClearedParts(ss, rules, o.event, |rules|, k);
    assert mid == ss + before + rest;
    OthersSilent(ss, before, r, species);
    OthersSilent(ss + before, rest, r, species);
    before, rest := EvaluatedParts(mid, rules, o.event, o.clocks, |rules|, k);
    OthersSilent(mid, before, r, species);
    VisitNotifies(mid + before, r, o.event, c, species);
    OthersSilent(mid + before + Visit(After(mid + before), r, o.event, c), rest, r, species);
    FiresUnaffected(ss, rules, o.event, o.clocks, k);
  }

  // ---- All events ----

  lemma {:induction false} LatestNext(rules: seq<Rule>, os: seq<Occurrence>, j: nat, k: nat, species: string)
    requires ForRules(rules, os) && k < |rules| && os != []
    ensures var n := |os| - 1;
            LatestAt(rules, os, j, k, species)
            <==> if NotifiesAt(rules, os, n, k, species) then j == n else LatestAt(rules, os[..n], j, k, species)
  {
    hide FiresAt;
    var n := |os| - 1;
    var init := os[..n];
    forall i | 0 <= i < n
      ensures init[i] == os[i]
      ensures NotifiesAt(rules, init, i, k, species) <==> NotifiesAt(rules, os, i, k, species)
    {
      FiresAtPrefix(rules, os, i, k);
    }
    if j < n && LatestAt(rules, os, j, k, species) {
      assert !NotifiesAt(rules, os, n, k, species);
    }
    if j < n && LatestAt(rules, init, j, k, species) && !NotifiesAt(rules, os, n, k, species) {
      forall i | j < i < |os| ensures !NotifiesAt(rules, os, i, k, species) {
        assert i < n ==> !NotifiesAt(rules, init, i, k, species);
      }
    }
  }

  /** The latest notice in the history is the latest event at which the rule fired for the species. */
  lemma {:induction false} NoticeIsFiring(rules: seq<Rule>, os: seq<Occurrence>, k: nat, species: string)
    requires ForRules(rules, os) && k < |rules| && DistinctRuleIds(rules)
    requires HasDetectionLadder(rules[k]) && species != "unknown"
    ensures var notice := LatestNotice(HistoryOf(rules, os), rules[k], species);
            && (forall j: nat :: LatestAt(rules, os, j, k, species) ==>
                  notice == Some(DetectionStep(rules[k], os[j].event, os[j].clocks[k].asked)))
            && (notice.Some? ==> exists j: nat :: LatestAt(rules, os, j, k, species))
    decreases |os|
  {
    hide LatestNotice, LatestAt, Cleared, Evaluated, Fires;
    if os == [] {
      NoNotice(rules, k, species);
    } else {
      var n := |os| - 1;
      var o := os[n];
      NoticeIsFiring(rules, os[..n], k, species);
      EventNotifies(HistoryOf(rules, os[..n]), rules, o, k, species);
      forall j: nat
        ensures LatestAt(rules, os, j, k, species)
                <==> if NotifiesAt(rules, os, n, k, species) then j == n else LatestAt(rules, os[..n], j, k, species)
        ensures LatestAt(rules, os[..n], j, k, species) ==> j < n && os[..n][j] == os[j]
      {
        LatestNext(rules, os, j, k, species);
        LatestInside(rules, os[..n], j, k, species);
      }
    }
  }

  lemma {:induction false} LatestInside(rules: seq<Rule>, os: seq<Occurrence>, j: nat, k: nat, species: string)
    requires ForRules(rules, os) && k < |rules|
    ensures LatestAt(rules, os, j, k, species) ==> j < |os|
  {
  }

  lemma {:induction false} NoNotice(rules: seq<Rule>, k: nat, species: string)
    requires k < |rules|
    ensures LatestNotice([], rules[k], species) == None
    ensures forall j: nat :: !LatestAt(rules, [], j, k, species)
  {
  }

  // ---- Species names without separator ----

  predicate Separated(ss: seq<Section>) {
    forall i :: 0 <= i < |ss| ==> SepFree(ss[i].event.species)
  }

  lemma {:induction false} EventSeparated(ss: seq<Section>, rules: seq<Rule>, e: Event, clocks: seq<Clock>, k: nat)
    requires k <= |rules| == |clocks| && Separated(ss) && SepFree(e.species)
    ensures Separated(Cleared(ss, rules, e, k)) && Separated(Evaluated(ss, rules, e, clocks, k))
  {
    hide After, Admits, Recovers;
    if k > 0 {
      EventSeparated(ss, rules, e, clocks, k - 1);
    }
  }

  lemma {:induction false} HistorySeparated(rules: seq<Rule>, os: seq<Occurrence>)
    requires ForRules(rules, os) && forall i :: 0 <= i < |os| ==> SepFree(os[i].event.species)
    ensures Separated(HistoryOf(rules, os))
    decreases |os|
  {
    hide Cleared, Evaluated;
    if os != [] {
      var n := |os| - 1;
      var ss, e := HistoryOf(rules, os[..n]), os[n].event;
      HistorySeparated(rules, os[..n]);
      EventSeparated(ss, rules, e, os[n].clocks, |rules|);
      EventSeparated(Cleared(ss, rules, e, |rules|), rules, e, os[n].clocks, |rules|);
    }
  }

  // ---- When a detection rule fires ----

  /** The value `b` reaches a step that `a` does not. */
  predicate ReachesHigher(steps: seq<real>, a: real, b: real) {
    exists step :: step in steps && a < step <= b
  }

  lemma {:induction false} HigherStepIff(steps: seq<real>, a: real, b: real)
    requires Highest(steps, a).Some? && Highest(steps, b).Some?
    ensures ReachesHigher(steps, a, b) <==> Highest(steps, a).value < Highest(steps, b).value
  {
  }

  /** After a notification for one event, another may be notified. */
  predicate MayFollow(r: Rule, first: Event, at: int, e: Event, now: int) {
    || first.episode != e.episode
    || (first.confidence.Some? && e.confidence.Some?
        && ReachesHigher(r.steps, first.confidence.value, e.confidence.value))
    || r.cooldownSec <= 0
    || now - at >= r.cooldownSec * 1_000_000_000
  }

  /**
   After any sequence of events, a detection rule with steps fires for a known
   species exactly when it applies, the confidence reaches a step, and the latest
   event at which it fired for the species, if there is one, was of another episode,
   with a confidence that a step lies above and this one reaches, or a cooldown ago.
   */
  lemma {:induction false} DetectionRuleOverEvents(rules: seq<Rule>, os: seq<Occurrence>, o: Occurrence, k: nat)
    requires ForRules(rules, os) && k < |rules| == |o.clocks| && DistinctRuleIds(rules)
    requires HasDetectionLadder(rules[k]) && o.event.species != "unknown" && SepFree(o.event.species)
    requires forall i :: 0 <= i < |os| ==> SepFree(os[i].event.species)
    ensures var r, e, c := rules[k], o.event, o.clocks[k];
            Fires(After(HistoryOf(rules, os)), r, e, c) <==>
            && Applies(r, e)
            && e.confidence.Some? && (exists step :: step in r.steps && step <= e.confidence.value)
            && forall j: nat :: LatestAt(rules, os, j, k, e.species) ==>
                 MayFollow(r, os[j].event, os[j].clocks[k].asked, e, c.asked)
  {
    hide LatestAt, Fires, After, Known, Separated, MayFollow, HistoryOf;
    var r, e, c := rules[k], o.event, o.clocks[k];
    var ss := HistoryOf(rules, os);
    HistoryKnown(rules, os, r);
    HistorySeparated(rules, os);
    SeparatedIsClean(ss, r);
    NoticeIsFiring(rules, os, k, e.species);
    FiresByNotice(ss, r, e, c);
    forall j: nat ensures LatestAt(rules, os, j, k, e.species) ==> j < |os| {
      LatestInside(rules, os, j, k, e.species);
    }
  }

  lemma {:induction false} SeparatedIsClean(ss: seq<Section>, r: Rule)
    requires Separated(ss)
    ensures SpeciesClean(ss, r)
  {
  }

  lemma {:induction false} FiresByNotice(ss: seq<Section>, r: Rule, e: Event, c: Clock)
    requires Known(ss, r) && SpeciesClean(ss, r) && SepFree(e.species)
    requires HasDetectionLadder(r) && e.species != "unknown"
    ensures var notice := LatestNotice(ss, r, e.species);
            Fires(After(ss), r, e, c) <==>
            && Applies(r, e)
            && e.confidence.Some? && (exists step :: step in r.steps && step <= e.confidence.value)
            && (notice.Some? ==> notice.value.DetectionStep?
                                 && MayFollow(r, notice.value.event, notice.value.now, e, c.asked))
  {
    hide Fires, After, Passed, SpeciesClean, ReachesHigher;
    DetectionRuleFiresIff(ss, r, e, c);
    var last := LastNotified(ss, |ss|, r, e.species);
    if Applies(r, e) && AttachedStep(r, e).Some? && last.Some? {
      var prev := ss[last.value];
      PassedHasStep(ss, last.value);
      HigherStepIff(r.steps, prev.event.confidence.value, e.confidence.value);
    }
  }
}
