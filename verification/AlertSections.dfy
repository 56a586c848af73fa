/** What the alert engine remembers, and the critical sections in which it reads and updates that memory.
  * Each section is one stretch of code under the engine's mutexes, so a run of the engine, whether its
  * events are handled one after another or concurrently, is some sequence of sections.
  */
module AlertSections {
  import opened AlertKeys
  import opened Wrappers

  const SECOND: int := 1_000_000_000
  const UNKNOWN_SPECIES := "unknown"
  const DETECTION_NEW_SPECIES := "detection.new_species"
  const DETECTION_OCCURRED := "detection.occurred"

  datatype Trigger = OnEvent | OnMetric | OtherTrigger

  datatype Rule = Rule(
    id: nat,
    objectType: string,
    trigger: Trigger,
    eventName: string,
    metricName: string,
    cooldownSec: int,
    steps: seq<real>,
    novelty: bool)

  /** `met` holds the ids of the rules whose conditions the event satisfies. */
  datatype Event = Event(
    objectType: string,
    eventName: string,
    metricName: string,
    value: Option<real>,
    path: string,
    species: string,
    confidence: Option<real>,
    episode: string,
    met: set<nat>)

  datatype Memory = Memory(cooldowns: map<string, int>, escalations: map<string, real>)

  const EMPTY_MEMORY := Memory(map[], map[])

  datatype Section =
    | Recover(rule: Rule, event: Event)
    | MetricStep(rule: Rule, event: Event)
    | DetectionStep(rule: Rule, event: Event, now: int)
    | Acquire(rule: Rule, event: Event, asked: int, stamped: int)

  predicate IsDetection(eventName: string) {
    eventName == DETECTION_NEW_SPECIES || eventName == DETECTION_OCCURRED
  }

  predicate SpeciesScoped(r: Rule, e: Event) {
    && r.trigger == OnEvent && IsDetection(e.eventName)
    && e.species != UNKNOWN_SPECIES
    && (r.steps != [] || r.novelty)
  }

  function CooldownKey(r: Rule, e: Event): string {
    if r.trigger == OnMetric then EscalationKey(r.id, r.metricName, e.path)
    else if SpeciesScoped(r, e) then SpeciesCooldownKey(r.id, e.species)
    else Digits(r.id)
  }

  predicate Matches(r: Rule, e: Event) {
    && r.objectType == e.objectType
    && ((r.trigger == OnEvent && r.eventName == e.eventName) || (r.trigger == OnMetric && r.metricName == e.metricName))
    && r.id in e.met
  }

  predicate ClimbsMetric(r: Rule) {
    r.trigger == OnMetric && r.steps != []
  }

  predicate ClimbsDetection(r: Rule, e: Event) {
    r.trigger == OnEvent && IsDetection(e.eventName) && r.steps != [] && e.species != UNKNOWN_SPECIES
  }

  /** The greatest configured step that the value reaches, whatever the order or sign of the steps. */
  function Highest(steps: seq<real>, v: real): (r: Option<real>)
    ensures r.None? <==> forall s :: s in steps ==> v < s
    ensures r.Some? ==> r.value in steps && r.value <= v && forall s :: s in steps && s <= v ==> s <= r.value
  {
    if steps == [] then None
    else
      var init, last := steps[..|steps| - 1], steps[|steps| - 1];
      var best := Highest(init, v);
      assert forall s :: s in steps <==> s in init || s == last by { assert steps == init + [last]; }
      assert last in steps;
      if last <= v && (best.None? || best.value < last) then Some(last) else best
  }

  function MinStep(steps: seq<real>): (r: real)
    requires steps != []
    ensures r in steps && forall s :: s in steps ==> r <= s
  {
    var init, last := steps[..|steps| - 1], steps[|steps| - 1];
    assert forall s :: s in steps <==> s in init || s == last by { assert steps == init + [last]; }
    if |steps| == 1 then last
    else
      var best := MinStep(init);
      if last < best then last else best
  }

  predicate CooldownOver(m: Memory, key: string, cooldownSec: int, now: int) {
    cooldownSec <= 0 || key !in m.cooldowns || now - m.cooldowns[key] >= cooldownSec * SECOND
  }

  function Pruned(escalations: map<string, real>, prefix: string, current: string): map<string, real> {
    map key | key in escalations && (key == current || !(prefix <= key)) :: escalations[key]
  }

  /** The situations in which the engine enters each section. */
  predicate Reached(s: Section) {
    match s
    case Recover(r, e) =>
      ClimbsMetric(r) && e.metricName != "" && r.metricName == e.metricName && r.objectType == e.objectType
      && e.value.Some?
    case MetricStep(r, e) => Matches(r, e) && ClimbsMetric(r)
    case DetectionStep(r, e, _) => Matches(r, e) && ClimbsDetection(r, e)
    case Acquire(r, e, asked, stamped) => Matches(r, e) && !ClimbsDetection(r, e) && asked <= stamped
  }

  /** Whether the section lets the alert through. */
  predicate Admits(m: Memory, s: Section) {
    match s
    case Recover(_, _) => true
    case MetricStep(r, e) =>
      e.value.Some? ==>
        var step := Highest(r.steps, e.value.value);
        var key := EscalationKey(r.id, e.metricName, e.path);
        step.Some? && !(key in m.escalations && m.escalations[key] >= step.value)
    case DetectionStep(r, e, now) =>
      && e.confidence.Some?
      && var step := Highest(r.steps, e.confidence.value);
         var key := DetectionKey(r.id, e.species, e.episode);
         step.Some?
         && !(key in m.escalations && m.escalations[key] >= step.value
              && !CooldownOver(m, CooldownKey(r, e), r.cooldownSec, now))
    case Acquire(r, e, asked, _) => CooldownOver(m, CooldownKey(r, e), r.cooldownSec, asked)
  }

  function Stamp(m: Memory, r: Rule, e: Event, now: int): Memory {
    if r.cooldownSec > 0 then m.(cooldowns := m.cooldowns[CooldownKey(r, e) := now]) else m
  }

  /** The memory after the section. */
  function Enter(m: Memory, s: Section): Memory {
    if !Admits(m, s) then m else
    match s
    case Recover(r, e) =>
      if e.value.Some? && r.steps != [] && e.value.value < MinStep(r.steps)
      then m.(escalations := m.escalations - {EscalationKey(r.id, e.metricName, e.path)}) else m
    case MetricStep(r, e) =>
      if e.value.None? then m else
      var key := EscalationKey(r.id, e.metricName, e.path);
      m.(escalations := m.escalations[key := Highest(r.steps, e.value.value).value])
    case DetectionStep(r, e, now) =>
      var key := DetectionKey(r.id, e.species, e.episode);
      var kept := Pruned(m.escalations, DetectionKeyPrefix(r.id, e.species), key);
      Stamp(m.(escalations := kept[key := Highest(r.steps, e.confidence.value).value]), r, e, now)
    case Acquire(r, e, _, stamped) => Stamp(m, r, e, stamped)
  }

  /** The memory after the first `k` sections of a run that starts with nothing remembered. */
  function At(ss: seq<Section>, k: nat): Memory
    requires k <= |ss|
  {
    if k == 0 then EMPTY_MEMORY else Enter(At(ss, k - 1), ss[k - 1])
  }

  predicate Passed(ss: seq<Section>, k: nat)
    requires k < |ss|
  {
    Admits(At(ss, k), ss[k])
  }

  /** Every section is one the engine reaches, and the id of `r` means `r` throughout the run. */
  predicate Known(ss: seq<Section>, r: Rule) {
    forall i :: 0 <= i < |ss| ==> Reached(ss[i]) && (ss[i].rule.id == r.id ==> ss[i].rule == r)
  }

  /** Two memories look alike to the rule with the given id. */
  ghost predicate SameView(m: Memory, m': Memory, id: nat) {
    && Get(m.cooldowns, Digits(id)) == Get(m'.cooldowns, Digits(id))
    && (forall x :: Get(m.cooldowns, Owned(id, x)) == Get(m'.cooldowns, Owned(id, x)))
    && (forall x :: Get(m.escalations, Owned(id, x)) == Get(m'.escalations, Owned(id, x)))
  }

  lemma OwnKeys(r: Rule, e: Event)
    ensures CooldownKey(r, e) == Digits(r.id) || exists x :: CooldownKey(r, e) == Owned(r.id, x)
  {
    if r.trigger == OnMetric {
      assert CooldownKey(r, e) == Owned(r.id, MetricBufferKey(r.metricName, e.path));
    } else if SpeciesScoped(r, e) {
      assert CooldownKey(r, e) == Owned(r.id, e.species);
    }
  }

  lemma KeysOfOthers(r: Rule, e: Event, id: nat, x: string)
    requires r.id != id
    ensures CooldownKey(r, e) != Owned(id, x) && CooldownKey(r, e) != Digits(id)
  {
    OwnKeys(r, e);
    BareKeyDiffers(r.id, id, x);
    if CooldownKey(r, e) == Digits(r.id) {
      if Digits(r.id) == Digits(id) {
        DigitsInjective(r.id, id);
      }
    } else {
      var y :| CooldownKey(r, e) == Owned(r.id, y);
      OwnersDiffer(r.id, y, id, x);
      BareKeyDiffers(id, r.id, y);
    }
  }

  /** A section entered for one rule changes nothing that any other rule looks at. */
  lemma OtherRulesUnaffected(m: Memory, s: Section, id: nat)
    requires s.rule.id != id
    ensures SameView(m, Enter(m, s), id)
  {
    var m' := Enter(m, s);
    KeysOfOthers(s.rule, s.event, id, "");
    forall x
      ensures Get(m.cooldowns, Owned(id, x)) == Get(m'.cooldowns, Owned(id, x))
      ensures Get(m.escalations, Owned(id, x)) == Get(m'.escalations, Owned(id, x))
    {
      var r, e := s.rule, s.event;
      KeysOfOthers(r, e, id, x);
      OwnersDiffer(r.id, MetricBufferKey(e.metricName, e.path), id, x);
      OwnersDiffer(r.id, e.species + [SEPARATOR] + e.episode, id, x);
      PrefixOwner(r.id, e.species + [SEPARATOR], id, x);
    }
  }

  /** A section's verdict depends only on what its own rule looks at. */
  lemma ViewDecides(m: Memory, m': Memory, s: Section)
    requires SameView(m, m', s.rule.id)
    ensures Admits(m, s) == Admits(m', s)
  {
    var r, e := s.rule, s.event;
    OwnKeys(r, e);
    var ck := CooldownKey(r, e);
    assert Get(m.cooldowns, ck) == Get(m'.cooldowns, ck);
    var mk := Owned(r.id, MetricBufferKey(e.metricName, e.path));
    assert Get(m.escalations, mk) == Get(m'.escalations, mk);
    var dk := Owned(r.id, e.species + [SEPARATOR] + e.episode);
    assert Get(m.escalations, dk) == Get(m'.escalations, dk);
  }
}
