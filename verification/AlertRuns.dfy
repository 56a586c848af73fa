/** When a rule fires, told from what happened before rather than from the engine's tables. */
module AlertRuns {
  import opened AlertKeys
  import opened AlertSections
  import opened Wrappers
  import opened AlertLadders
  import opened AlertEngine

  /** Every earlier firing under the key is at least the cooldown ago. */
  predicate QuietFor(ss: seq<Section>, key: string, cooldownSec: int, now: int) {
    cooldownSec <= 0
    || forall i :: 0 <= i < |ss| && Stamps(ss, i, key) ==> now - StampTime(ss[i]) >= cooldownSec * SECOND
  }

  /** The value reaches a configured step that no measurement of the instance since its last recovery had reached. */
  predicate ReachesNewStep(ss: seq<Section>, r: Rule, path: string, v: real) {
    exists step :: step in r.steps && step <= v
                   && forall i :: 0 <= i < |ss| && SeenSinceRecovery(ss, i, |ss|, r, path) ==>
                       ss[i].event.value.value < step
  }

  // ---- Which firings share a cooldown ----

  /** The rule's conditions are met by an event of its own kind. */
  predicate Applies(r: Rule, e: Event) {
    && r.objectType == e.objectType && r.id in e.met
    && if r.trigger == OnMetric then r.metricName == e.metricName
       else r.trigger == OnEvent && r.eventName == e.eventName
  }

  lemma AppliesIff(r: Rule, e: Event)
    ensures Matches(r, e) <==> Applies(r, e)
  {
  }

  /** The rule has confidence steps that detections of a known species climb. */
  predicate HasDetectionLadder(r: Rule) {
    r.trigger == OnEvent && r.eventName in {"detection.new_species", "detection.occurred"} && r.steps != []
  }

  /** The rule has steps that the values of a metric climb. */
  predicate HasMetricLadder(r: Rule) {
    r.trigger == OnMetric && r.steps != []
  }

  /** Two events of one rule wait for each other: of a metric rule those of the same instance, of a detection rule with
    * a ladder or a novelty condition those of the same species, of any other rule all.
    */
  predicate SameScope(r: Rule, e: Event, e': Event) {
    if r.trigger == OnMetric then e.path == e'.path
    else if r.eventName in {"detection.new_species", "detection.occurred"} && (r.steps != [] || r.novelty)
            && r.trigger == OnEvent then
      e.species == e'.species
    else true
  }

  lemma CooldownSharedIff(r: Rule, e: Event, e': Event)
    requires r.trigger == OnEvent ==> e.eventName == r.eventName == e'.eventName
    ensures CooldownKey(r, e) == CooldownKey(r, e') <==> SameScope(r, e, e')
  {
    if r.trigger == OnMetric {
      SameMetricKeys(r, e.path, e'.path);
    } else if SpeciesScoped(r, e) && SpeciesScoped(r, e') {
      OwnersDiffer(r.id, e.species, r.id, e'.species);
    } else {
      BareKeyDiffers(r.id, r.id, e.species);
      BareKeyDiffers(r.id, r.id, e'.species);
    }
  }

  /** Different rules never do. */
  lemma CooldownsApart(r: Rule, r': Rule, e: Event, e': Event)
    requires r.id != r'.id
    ensures CooldownKey(r, e) != CooldownKey(r', e')
  {
    KeysOfOthers(r', e', r.id, "");
    OwnKeys(r, e);
    if CooldownKey(r, e) != Digits(r.id) {
      var x :| CooldownKey(r, e) == Owned(r.id, x);
      KeysOfOthers(r', e', r.id, x);
    }
  }

  /** Section `i` fired and started a cooldown. */
  predicate Started(ss: seq<Section>, i: nat)
    requires i < |ss|
  {
    (ss[i].Acquire? || ss[i].DetectionStep?) && Passed(ss, i) && ss[i].rule.cooldownSec > 0
  }

  /** Every earlier firing of the rule in the event's scope is at least the cooldown ago. */
  predicate Rested(ss: seq<Section>, r: Rule, e: Event, now: int) {
    r.cooldownSec <= 0
    || forall i :: 0 <= i < |ss| && Started(ss, i) && ss[i].rule.id == r.id && SameScope(r, ss[i].event, e)
                   ==> now - StampTime(ss[i]) >= r.cooldownSec * SECOND
  }

  lemma StampsInScope(ss: seq<Section>, r: Rule, e: Event, i: nat)
    requires Known(ss, r) && Matches(r, e) && i < |ss|
    ensures Stamps(ss, i, CooldownKey(r, e))
            <==> Started(ss, i) && ss[i].rule.id == r.id && SameScope(r, ss[i].event, e)
  {
    if ss[i].Acquire? || ss[i].DetectionStep? {
      if ss[i].rule.id == r.id {
        CooldownSharedIff(r, ss[i].event, e);
      } else {
        CooldownsApart(r, ss[i].rule, e, ss[i].event);
      }
    }
  }

  lemma RestedIff(ss: seq<Section>, r: Rule, e: Event, now: int)
    requires Known(ss, r) && Matches(r, e)
    ensures QuietFor(ss, CooldownKey(r, e), r.cooldownSec, now) <==> Rested(ss, r, e, now)
  {
    hide Stamps, Started, SameScope;
    forall i | 0 <= i < |ss|
      ensures Stamps(ss, i, CooldownKey(r, e))
              <==> Started(ss, i) && ss[i].rule.id == r.id && SameScope(r, ss[i].event, e)
    {
      StampsInScope(ss, r, e, i);
    }
  }

  // ---- When a rule fires ----

  lemma CooldownOverIff(ss: seq<Section>, key: string, cooldownSec: int, now: int)
    requires ClockAdvances(ss)
    ensures CooldownOver(After(ss), key, cooldownSec, now) <==> QuietFor(ss, key, cooldownSec, now)
  {
    CooldownIsLatestFiring(ss, |ss|, key);
  }

  lemma LadderOpenIff(ss: seq<Section>, r: Rule, e: Event)
    requires Known(ss, r) && ClimbsMetric(r) && Matches(r, e) && e.value.Some?
    ensures Admits(After(ss), MetricStep(r, e)) <==> ReachesNewStep(ss, r, e.path, e.value.value)
  {
    var k, v := |ss|, e.value.value;
    var st, h := StoredStep(ss, k, r, e.path), Highest(r.steps, v);
    if Admits(After(ss), MetricStep(r, e)) {
      forall i | 0 <= i < k && SeenSinceRecovery(ss, i, k, r, e.path)
        ensures ss[i].event.value.value < h.value
      {
        StoredStepDominates(ss, i, k, r, e.path);
      }
    } else if st.Some? {
      var i := StoredStepWasReached(ss, k, r, e.path);
    }
  }

  /** A metric rule with steps fires exactly when its conditions hold, the value reaches a step that is new since
    * the instance last recovered, and the instance's cooldown has passed.
    */
  lemma MetricRuleFiresIff(ss: seq<Section>, r: Rule, e: Event, c: Clock)
    requires Known(ss, r) && ClockAdvances(ss) && HasMetricLadder(r) && e.value.Some?
    ensures Fires(After(ss), r, e, c) <==>
            && Applies(r, e) && ReachesNewStep(ss, r, e.path, e.value.value) && Rested(ss, r, e, c.asked)
  {
    CooldownOverIff(ss, CooldownKey(r, e), r.cooldownSec, c.asked);
    AppliesIff(r, e);
    if Matches(r, e) {
      LadderOpenIff(ss, r, e);
      RestedIff(ss, r, e, c.asked);
    }
  }

  /** A rule without a ladder fires exactly when its conditions hold and its cooldown has passed. */
  lemma PlainRuleFiresIff(ss: seq<Section>, r: Rule, e: Event, c: Clock)
    requires Known(ss, r) && ClockAdvances(ss)
    requires !HasMetricLadder(r) && !(HasDetectionLadder(r) && e.species != "unknown")
    ensures Fires(After(ss), r, e, c) <==> Applies(r, e) && Rested(ss, r, e, c.asked)
  {
    AppliesIff(r, e);
    if Matches(r, e) {
      PlainRuleFiresByKey(ss, r, e, c);
      RestedIff(ss, r, e, c.asked);
    }
  }

  /** The same whatever other rules share the id. */
  lemma PlainRuleFiresByKey(ss: seq<Section>, r: Rule, e: Event, c: Clock)
    requires ClockAdvances(ss) && !ClimbsMetric(r) && !ClimbsDetection(r, e)
    ensures Fires(After(ss), r, e, c) <==> Matches(r, e) && QuietFor(ss, CooldownKey(r, e), r.cooldownSec, c.asked)
  {
    CooldownOverIff(ss, CooldownKey(r, e), r.cooldownSec, c.asked);
  }

  /** A detection rule with steps fires exactly when its conditions hold, the confidence reaches a step, and the
    * rule's latest notification for the species was none, for another episode, at a lower step, or a cooldown ago.
    */
  lemma {:induction false} DetectionRuleFiresIff(ss: seq<Section>, r: Rule, e: Event, c: Clock)
    requires Known(ss, r) && SpeciesClean(ss, r) && SepFree(e.species)
    requires HasDetectionLadder(r) && e.species != "unknown"
    ensures Fires(After(ss), r, e, c) <==>
            && Applies(r, e)
            && AttachedStep(r, e).Some?
            && var last := LastNotified(ss, |ss|, r, e.species);
               last.Some? ==>
                 var prev := ss[last.value];
                 || prev.event.episode != e.episode
                 || StepOf(prev).None? || StepOf(prev).value < AttachedStep(r, e).value
                 || r.cooldownSec <= 0
                 || c.asked - prev.now >= r.cooldownSec * SECOND
  {
    AppliesIff(r, e);
    if Matches(r, e) {
      MemoryIsLastNotification(ss, |ss|, r, e.species, e.episode);
    }
  }

  /** The greatest of the steps that the value reaches. */
  predicate GreatestReached(step: Option<real>, steps: seq<real>, v: real) {
    && step.Some? && step.value in steps && step.value <= v
    && forall s :: s in steps && s <= v ==> s <= step.value
  }

  /** What a firing carries: the rule, and the step that was reached by the value or the confidence of the event. */
  lemma FiringCarriesStep(m: Memory, r: Rule, e: Event, c: Clock)
    ensures Verdict(m, r, e, c) != [] <==> Fires(m, r, e, c)
    ensures forall f :: f in Verdict(m, r, e, c) ==>
              && f.rule == r
              && (if r.trigger == OnMetric && r.steps != [] && e.value.Some? then
                    GreatestReached(f.step, r.steps, e.value.value)
                  else if HasDetectionLadder(r) && e.species != "unknown" then
                    e.confidence.Some? && GreatestReached(f.step, r.steps, e.confidence.value)
                  else f.step.None?)
  {
  }
}
