/** What the suppression memory guarantees over whole runs of the alert engine.
  * A run is any sequence of critical sections, so every statement covers concurrent events as well.
  */
module AlertLadders {
  import opened AlertKeys
  import opened AlertSections
  import opened Wrappers

  // ---- Cooldowns ----

  /** Section `i` fired under the cooldown key and left its time there. */
  predicate Stamps(ss: seq<Section>, i: nat, key: string)
    requires i < |ss|
  {
    && (ss[i].Acquire? || ss[i].DetectionStep?)
    && Passed(ss, i)
    && ss[i].rule.cooldownSec > 0
    && CooldownKey(ss[i].rule, ss[i].event) == key
  }

  function StampTime(s: Section): int {
    match s
    case Acquire(_, _, _, stamped) => stamped
    case DetectionStep(_, _, now) => now
    case _ => 0
  }

  /** Times stored in the cooldown table never go backwards. */
  ghost predicate ClockAdvances(ss: seq<Section>) {
    forall i, j :: 0 <= i < j < |ss| && (ss[i].Acquire? || ss[i].DetectionStep?)
                   && (ss[j].Acquire? || ss[j].DetectionStep?)
                   ==> StampTime(ss[i]) <= StampTime(ss[j])
  }

  lemma CooldownNext(ss: seq<Section>, k: nat, key: string)
    requires k < |ss|
    ensures Get(At(ss, k + 1).cooldowns, key)
            == if Stamps(ss, k, key) then Some(StampTime(ss[k])) else Get(At(ss, k).cooldowns, key)
  {
    var s, m := ss[k], At(ss, k);
    assert At(ss, k + 1) == Enter(m, s);
  }

  lemma NothingAtStart(ss: seq<Section>)
    ensures At(ss, 0) == EMPTY_MEMORY
  {
  }

  /** The table holds exactly the time of the latest firing under each key. */
  lemma {:induction false} CooldownIsLatestFiring(ss: seq<Section>, k: nat, key: string)
    requires k <= |ss| && ClockAdvances(ss)
    ensures forall i :: 0 <= i < k && Stamps(ss, i, key)
                        ==> key in At(ss, k).cooldowns && StampTime(ss[i]) <= At(ss, k).cooldowns[key]
    ensures key in At(ss, k).cooldowns
            ==> exists i :: 0 <= i < k && Stamps(ss, i, key) && StampTime(ss[i]) == At(ss, k).cooldowns[key]
  {
    hide At, Passed;
    NothingAtStart(ss);
    if k > 0 {
      CooldownIsLatestFiring(ss, k - 1, key);
      CooldownNext(ss, k - 1, key);
      var before, after := Get(At(ss, k - 1).cooldowns, key), Get(At(ss, k).cooldowns, key);
      if Stamps(ss, k - 1, key) {
        assert after == Some(StampTime(ss[k - 1]));
      } else {
        assert after == before;
      }
    }
  }

  /** A cooldown is granted exactly when every earlier firing under the key is at least the cooldown ago. */
  lemma CooldownGrantedIff(ss: seq<Section>, k: nat)
    requires k < |ss| && ss[k].Acquire? && ClockAdvances(ss)
    ensures Passed(ss, k) <==>
            forall i :: 0 <= i < k && Stamps(ss, i, CooldownKey(ss[k].rule, ss[k].event))
                        ==> ss[k].asked - StampTime(ss[i]) >= ss[k].rule.cooldownSec * SECOND
                            || ss[k].rule.cooldownSec <= 0
  {
    CooldownIsLatestFiring(ss, k, CooldownKey(ss[k].rule, ss[k].event));
  }

  /** A firing granted by the cooldown keeps it from every earlier stamp in the same scope, however far back. */
  lemma FiringsKeepCooldown(ss: seq<Section>, i: nat, k: nat, key: string)
    requires i < k < |ss| && ClockAdvances(ss)
    requires ss[k].Acquire? && Reached(ss[k]) && Stamps(ss, i, key) && Stamps(ss, k, key)
    ensures ss[k].stamped - StampTime(ss[i]) >= ss[k].rule.cooldownSec * SECOND
  {
    CooldownGrantedIff(ss, k);
  }

  // ---- Metric ladder ----

  predicate Climbs(s: Section, r: Rule, path: string) {
    s.MetricStep? && s.rule.id == r.id && s.event.path == path && s.event.value.Some?
  }

  predicate Clears(s: Section, r: Rule, path: string) {
    s.Recover? && s.rule.id == r.id && s.event.path == path
    && s.event.value.Some? && Highest(r.steps, s.event.value.value).None?
  }

  /** Section `i` measured the instance and no recovery of the instance followed before `k`. */
  predicate SeenSinceRecovery(ss: seq<Section>, i: nat, k: nat, r: Rule, path: string)
    requires k <= |ss|
  {
    i < k && Climbs(ss[i], r, path) && forall j :: i < j < k ==> !Clears(ss[j], r, path)
  }

  function StoredStep(ss: seq<Section>, k: nat, r: Rule, path: string): Option<real>
    requires k <= |ss|
  {
    Get(At(ss, k).escalations, EscalationKey(r.id, r.metricName, path))
  }

  lemma SameMetricKeys(r: Rule, path: string, path': string)
    ensures EscalationKey(r.id, r.metricName, path) == EscalationKey(r.id, r.metricName, path') <==> path == path'
  {
    var k, k' := MetricBufferKey(r.metricName, path), MetricBufferKey(r.metricName, path');
    OwnersDiffer(r.id, k, r.id, k');
    assert path != "" ==> k[|r.metricName| + 1..] == path;
    assert path' != "" ==> k'[|r.metricName| + 1..] == path';
  }

  /** Other rules, other paths and other sections leave the stored step alone. */
  lemma StepFrame(ss: seq<Section>, k: nat, r: Rule, path: string)
    requires k < |ss| && Known(ss, r) && ClimbsMetric(r)
    requires !Climbs(ss[k], r, path) && !Clears(ss[k], r, path)
    ensures StoredStep(ss, k + 1, r, path) == StoredStep(ss, k, r, path)
  {
    var s, m := ss[k], At(ss, k);
    if s.rule.id != r.id {
      OtherRulesUnaffected(m, s, r.id);
      assert EscalationKey(r.id, r.metricName, path) == Owned(r.id, MetricBufferKey(r.metricName, path));
    } else {
      SameMetricKeys(r, path, s.event.path);
    }
  }

  /** One section's effect on the stored step: a recovery forgets it, a passing measurement replaces it. */
  lemma StepNext(ss: seq<Section>, k: nat, r: Rule, path: string)
    requires k < |ss| && Known(ss, r) && ClimbsMetric(r)
    ensures StoredStep(ss, k + 1, r, path) ==
            if Clears(ss[k], r, path) then None
            else if Climbs(ss[k], r, path) && Passed(ss, k) then Highest(r.steps, ss[k].event.value.value)
            else StoredStep(ss, k, r, path)
  {
    if !Climbs(ss[k], r, path) && !Clears(ss[k], r, path) {
      StepFrame(ss, k, r, path);
    }
  }

  lemma SeenNext(ss: seq<Section>, i: nat, k: nat, r: Rule, path: string)
    requires i < k < |ss|
    ensures SeenSinceRecovery(ss, i, k + 1, r, path)
            <==> SeenSinceRecovery(ss, i, k, r, path) && !Clears(ss[k], r, path)
  {
  }

  /** The stored step dominates a measurement seen since the last recovery. */
  lemma {:induction false} StoredStepDominates(ss: seq<Section>, i: nat, k: nat, r: Rule, path: string)
    requires i < k <= |ss| && Known(ss, r) && ClimbsMetric(r)
    requires SeenSinceRecovery(ss, i, k, r, path)
    ensures var h, st := Highest(r.steps, ss[i].event.value.value), StoredStep(ss, k, r, path);
            h.Some? ==> st.Some? && h.value <= st.value
  {
    StepNext(ss, k - 1, r, path);
    if i < k - 1 {
      SeenNext(ss, i, k - 1, r, path);
      StoredStepDominates(ss, i, k - 1, r, path);
    }
  }

  /** The stored step was reached by a measurement seen since the last recovery. */
  lemma {:induction false} StoredStepWasReached(ss: seq<Section>, k: nat, r: Rule, path: string) returns (i: nat)
    requires k <= |ss| && Known(ss, r) && ClimbsMetric(r)
    requires StoredStep(ss, k, r, path).Some?
    ensures i < k && SeenSinceRecovery(ss, i, k, r, path)
    ensures Highest(r.steps, ss[i].event.value.value) == StoredStep(ss, k, r, path)
  {
    hide At, Passed, Known;
    NothingAtStart(ss);
    StepNext(ss, k - 1, r, path);
    if Climbs(ss[k - 1], r, path) && Passed(ss, k - 1) {
      i := k - 1;
      assert SeenSinceRecovery(ss, i, k, r, path);
    } else {
      assert StoredStep(ss, k - 1, r, path) == StoredStep(ss, k, r, path) && !Clears(ss[k - 1], r, path);
      i := StoredStepWasReached(ss, k - 1, r, path);
      SeenNext(ss, i, k - 1, r, path);
    }
  }

  /** Between two recoveries the steps that get through strictly increase. */
  lemma StepsStrictlyIncrease(ss: seq<Section>, i: nat, k: nat, r: Rule, path: string)
    requires i < k < |ss| && Known(ss, r)
    requires SeenSinceRecovery(ss, i, k, r, path) && Passed(ss, i)
    requires Climbs(ss[k], r, path) && Passed(ss, k)
    ensures var a, b := Highest(r.steps, ss[i].event.value.value), Highest(r.steps, ss[k].event.value.value);
            a.Some? && b.Some? && a.value < b.value
  {
    StoredStepDominates(ss, i, k, r, path);
  }

  // ---- Detection ladder ----

  predicate Notifies(ss: seq<Section>, i: nat, r: Rule, species: string)
    requires i < |ss|
  {
    ss[i].DetectionStep? && ss[i].rule.id == r.id && ss[i].event.species == species && Passed(ss, i)
  }

  /** The latest notification for the rule and species among the first `k` sections. */
  function LastNotified(ss: seq<Section>, k: nat, r: Rule, species: string): (last: Option<nat>)
    requires k <= |ss|
    ensures last.Some? ==> last.value < k && Notifies(ss, last.value, r, species)
    ensures forall i :: 0 <= i < k && Notifies(ss, i, r, species) ==> last.Some? && i <= last.value
  {
    if k == 0 then None
    else if Notifies(ss, k - 1, r, species) then Some(k - 1)
    else LastNotified(ss, k - 1, r, species)
  }

  predicate SpeciesClean(ss: seq<Section>, r: Rule) {
    forall i :: 0 <= i < |ss| && ss[i].DetectionStep? && ss[i].rule.id == r.id ==> SepFree(ss[i].event.species)
  }

  function StepOf(s: Section): Option<real> {
    if s.DetectionStep? && s.event.confidence.Some? then Highest(s.rule.steps, s.event.confidence.value) else None
  }

  predicate LaddersDetections(r: Rule) {
    r.trigger == OnEvent && IsDetection(r.eventName) && r.steps != []
  }

  /** What one section does to the entries of a rule and species it does not notify. */
  lemma SpeciesFrame(ss: seq<Section>, k: nat, r: Rule, species: string, episode: string)
    requires k < |ss| && Known(ss, r) && SpeciesClean(ss, r) && SepFree(species)
    requires LaddersDetections(r) && species != UNKNOWN_SPECIES
    requires !Notifies(ss, k, r, species)
    ensures var m, m' := At(ss, k), At(ss, k + 1);
            var key, cd := DetectionKey(r.id, species, episode), SpeciesCooldownKey(r.id, species);
            Get(m.escalations, key) == Get(m'.escalations, key) && Get(m.cooldowns, cd) == Get(m'.cooldowns, cd)
  {
    var s, m := ss[k], At(ss, k);
    if s.rule.id != r.id {
      OtherRulesUnaffected(m, s, r.id);
      assert DetectionKey(r.id, species, episode) == Owned(r.id, species + [SEPARATOR] + episode);
    } else if s.Acquire? {
      assert CooldownKey(r, s.event) == Digits(r.id);
      BareKeyDiffers(r.id, r.id, species);
    } else if s.DetectionStep? && Passed(ss, k) {
      var other := s.event.species;
      DetectionKeyInjective(r.id, species, episode, r.id, other, s.event.episode);
      PrefixExact(r.id, other, r.id, species, episode);
      OwnersDiffer(r.id, species, r.id, other);
    }
  }

  /** What a notification leaves behind: its own episode's step, its time, and no other episode. */
  lemma NotifyEffect(ss: seq<Section>, k: nat, r: Rule, species: string, episode: string)
    requires k < |ss| && Known(ss, r) && SpeciesClean(ss, r)
    requires Notifies(ss, k, r, species)
    ensures var m' := At(ss, k + 1);
            var key, cd := DetectionKey(r.id, species, episode), SpeciesCooldownKey(r.id, species);
            && Get(m'.escalations, key) == (if ss[k].event.episode == episode then StepOf(ss[k]) else None)
            && (r.cooldownSec > 0 ==> Get(m'.cooldowns, cd) == Some(ss[k].now))
  {
    DetectionKeyInjective(r.id, species, episode, r.id, species, ss[k].event.episode);
    PrefixExact(r.id, species, r.id, species, episode);
  }

  /** The memory of a rule and species is exactly its latest notification;
    * in particular at most one episode is remembered.
    */
  lemma {:induction false} MemoryIsLastNotification(ss: seq<Section>, k: nat, r: Rule, species: string, episode: string)
    requires k <= |ss| && Known(ss, r) && SpeciesClean(ss, r) && SepFree(species)
    requires LaddersDetections(r) && species != UNKNOWN_SPECIES
    ensures var m, last := At(ss, k), LastNotified(ss, k, r, species);
            && Get(m.escalations, DetectionKey(r.id, species, episode))
               == (if last.Some? && ss[last.value].event.episode == episode then StepOf(ss[last.value]) else None)
            && (r.cooldownSec > 0 ==> Get(m.cooldowns, SpeciesCooldownKey(r.id, species))
                                      == if last.Some? then Some(ss[last.value].now) else None)
  {
    hide At, Passed, Known, SpeciesClean, StepOf;
    NothingAtStart(ss);
    if k > 0 {
      if Notifies(ss, k - 1, r, species) {
        NotifyEffect(ss, k - 1, r, species, episode);
        assert LastNotified(ss, k, r, species) == Some(k - 1);
      } else {
        SpeciesFrame(ss, k - 1, r, species, episode);
        MemoryIsLastNotification(ss, k - 1, r, species, episode);
        assert LastNotified(ss, k, r, species) == LastNotified(ss, k - 1, r, species);
      }
    }
  }

  predicate Detects(ss: seq<Section>, k: nat, r: Rule) {
    && k < |ss| && Known(ss, r) && SpeciesClean(ss, r)
    && ss[k].DetectionStep? && ss[k].rule == r
  }

  /** A detection notifies exactly when its confidence reaches a step and the latest notification for the rule and
    * species, if there is one, was for another episode, at a lower step, or at least the cooldown ago.
    */
  lemma DetectionNotifiesIff(ss: seq<Section>, k: nat, r: Rule)
    requires Detects(ss, k, r)
    ensures Passed(ss, k) <==>
            && StepOf(ss[k]).Some?
            && var last := LastNotified(ss, k, r, ss[k].event.species);
               last.Some? ==>
                 var prev := ss[last.value];
                 || prev.event.episode != ss[k].event.episode
                 || StepOf(prev).None? || StepOf(prev).value < StepOf(ss[k]).value
                 || r.cooldownSec <= 0
                 || ss[k].now - prev.now >= r.cooldownSec * SECOND
  {
    MemoryIsLastNotification(ss, k, r, ss[k].event.species, ss[k].event.episode);
  }

  lemma PassedHasStep(ss: seq<Section>, i: nat)
    requires i < |ss| && ss[i].DetectionStep? && Passed(ss, i)
    ensures StepOf(ss[i]).Some?
  {
  }

  /** Consecutive notifications of one episode are a cooldown apart or climb a step. */
  lemma {:induction false} ConsecutiveNotifications(ss: seq<Section>, i: nat, k: nat, r: Rule)
    requires Detects(ss, k, r) && i < k
    requires Passed(ss, k) && LastNotified(ss, k, r, ss[k].event.species) == Some(i)
    requires ss[i].event.episode == ss[k].event.episode
    ensures StepOf(ss[i]).Some? && StepOf(ss[k]).Some?
    ensures StepOf(ss[i]).value < StepOf(ss[k]).value || r.cooldownSec <= 0
            || ss[k].now - ss[i].now >= r.cooldownSec * SECOND
  {
    DetectionNotifiesIff(ss, k, r);
    assert Notifies(ss, i, r, ss[k].event.species);
    PassedHasStep(ss, i);
  }

  /** The notifications of the rule and species from `i` up to `k` all belong to one episode and
    * come less than a cooldown after `start`.
    */
  predicate SameEpisodeWindow(ss: seq<Section>, i: nat, k: nat, r: Rule, species: string, episode: string, start: int)
    requires k <= |ss|
  {
    forall j :: i <= j < k && Notifies(ss, j, r, species) ==>
      ss[j].event.episode == episode && start <= ss[j].now < start + r.cooldownSec * SECOND
  }

  /** Two notifications next to each other in such a window climb a step. */
  lemma NextNotificationClimbs(ss: seq<Section>, i: nat, k: nat, r: Rule, species: string, episode: string, start: int)
    requires i < k < |ss| && Known(ss, r) && SpeciesClean(ss, r)
    requires Notifies(ss, i, r, species) && Notifies(ss, k, r, species)
    requires LastNotified(ss, k, r, species) == Some(i)
    requires SameEpisodeWindow(ss, i, k + 1, r, species, episode, start)
    ensures ss[k].rule == r && StepOf(ss[i]).Some? && StepOf(ss[k]).Some? && StepOf(ss[i]).value < StepOf(ss[k]).value
  {
    assert Detects(ss, k, r);
    ConsecutiveNotifications(ss, i, k, r);
  }

  /** Within one episode and one cooldown every notification is at a higher step than all before it. */
  lemma {:induction false} WindowClimbs(ss: seq<Section>, i: nat, k: nat, r: Rule, species: string, episode: string,
      start: int)
    requires i < k < |ss| && Known(ss, r) && SpeciesClean(ss, r)
    requires Notifies(ss, i, r, species) && Notifies(ss, k, r, species)
    requires SameEpisodeWindow(ss, i, k + 1, r, species, episode, start)
    ensures StepOf(ss[i]).Some? && StepOf(ss[k]).Some? && StepOf(ss[i]).value < StepOf(ss[k]).value
  {
    hide Passed, StepOf, Known, SpeciesClean;
    var last := LastNotified(ss, k, r, species).value;
    NextNotificationClimbs(ss, last, k, r, species, episode, start);
    if i < last {
      WindowClimbs(ss, i, last, r, species, episode, start);
    }
  }

  /** The step of each notification of the rule and species between `i` and `k`. */
  function FiredSteps(ss: seq<Section>, i: nat, k: nat, r: Rule, species: string): map<nat, real>
    requires k <= |ss|
  {
    map j | i <= j < k && Notifies(ss, j, r, species) :: StepOf(ss[j]).GetOr(0.0)
  }

  predicate Climbing(fired: map<nat, real>, steps: set<real>) {
    && (forall p :: p in fired ==> fired[p] in steps)
    && (forall p, q :: p in fired && q in fired && p < q ==> fired[p] < fired[q])
  }

  lemma {:induction false} ClimbingIsShort(fired: map<nat, real>, steps: set<real>)
    requires Climbing(fired, steps)
    ensures |fired| <= |steps|
  {
    if fired != map[] {
      var p :| p in fired;
      ClimbingIsShort(fired - {p}, steps - {fired[p]});
      assert fired.Keys == (fired - {p}).Keys + {p};
    }
  }

  lemma StepIsConfigured(ss: seq<Section>, i: nat, r: Rule)
    requires i < |ss| && ss[i].DetectionStep? && ss[i].rule.id == r.id && Known(ss, r) && Passed(ss, i)
    ensures StepOf(ss[i]).Some? && StepOf(ss[i]).value in r.steps
  {
  }

  lemma WindowShrinks(ss: seq<Section>, i: nat, k: nat, r: Rule, species: string, episode: string, start: int,
      p: nat, q: nat)
    requires i <= p <= q <= k <= |ss| && SameEpisodeWindow(ss, i, k, r, species, episode, start)
    ensures SameEpisodeWindow(ss, p, q, r, species, episode, start)
  {
  }

  lemma PairClimbs(ss: seq<Section>, i: nat, k: nat, r: Rule, species: string, episode: string, start: int, p: nat,
      q: nat)
    requires i <= p < q < k <= |ss| && Known(ss, r) && SpeciesClean(ss, r)
    requires SameEpisodeWindow(ss, i, k, r, species, episode, start)
    requires Notifies(ss, p, r, species) && Notifies(ss, q, r, species)
    ensures StepOf(ss[p]).Some? && StepOf(ss[q]).Some? && StepOf(ss[p]).value < StepOf(ss[q]).value
  {
    WindowShrinks(ss, i, k, r, species, episode, start, p, q + 1);
    WindowClimbs(ss, p, q, r, species, episode, start);
  }

  /** So a window shorter than the cooldown sees at most one notification for each distinct step. */
  lemma {:induction false} WindowBound(ss: seq<Section>, i: nat, k: nat, r: Rule, species: string, episode: string,
      start: int)
    requires i <= k <= |ss| && Known(ss, r) && SpeciesClean(ss, r)
    requires SameEpisodeWindow(ss, i, k, r, species, episode, start)
    ensures |FiredSteps(ss, i, k, r, species)| <= |set s | s in r.steps|
  {
    var fired, steps := FiredSteps(ss, i, k, r, species), set s | s in r.steps;
    forall p | p in fired
      ensures fired[p] in steps
    {
      StepIsConfigured(ss, p, r);
    }
    forall p, q | p in fired && q in fired && p < q
      ensures fired[p] < fired[q]
    {
      PairClimbs(ss, i, k, r, species, episode, start, p, q);
    }
    ClimbingIsShort(fired, steps);
  }

  /** The spacing is lost as soon as episodes interleave: alternating between two episodes notifies every time,
    * at the same step and inside the cooldown.
    */
  lemma InterleavedEpisodesEscape() returns (r: Rule, a: Event, b: Event)
    ensures r.cooldownSec == 3600 && r.steps == [0.8] && a.confidence == b.confidence == Some(0.9)
    ensures a.species == b.species && a.episode != b.episode
    ensures var ss := [DetectionStep(r, a, 0), DetectionStep(r, b, 1), DetectionStep(r, a, 2)];
            Known(ss, r) && Passed(ss, 0) && Passed(ss, 1) && Passed(ss, 2)
  {
    r := Rule(1, "detection", OnEvent, DETECTION_OCCURRED, "", 3600, [0.8], false);
    a := Event("detection", DETECTION_OCCURRED, "", None, "", "parus major", Some(0.9), "a", {1});
    b := a.(episode := "b");
    var ss := [DetectionStep(r, a, 0), DetectionStep(r, b, 1), DetectionStep(r, a, 2)];
    assert forall s :: s in r.steps ==> s == 0.8;
    assert 0.8 in r.steps;
    assert Highest(r.steps, 0.9) == Some(0.8);
    assert SepFree("parus major");
    assert Passed(ss, 0);
    assert LastNotified(ss, 1, r, "parus major") == Some(0);
    DetectionNotifiesIff(ss, 1, r);
    assert LastNotified(ss, 2, r, "parus major") == Some(1);
    DetectionNotifiesIff(ss, 2, r);
  }
}
