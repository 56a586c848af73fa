/** Metric rules with durations: the engine's condition check on the tracker's buffers, and when such a rule fires, told
  * from everything ever measured.
  */
module SustainedAlerts {
  import opened AlertEngine
  import opened AlertKeys
  import opened AlertLadders
  import opened AlertRuns
  import opened AlertSections
  import opened MetricTracker
  import opened Sequences
  import opened Wrappers

  /** `threshold` is the parsed comparison value. A condition without a duration is checked on the event itself; whether
    * it holds there is `holdsNow`.
    */
  datatype Condition = Condition(op: Operator, threshold: Option<real>, durationSec: nat, holdsNow: bool) {
    function Duration(): nat {
      durationSec * SECOND
    }
  }

  ghost predicate ConditionHolds(buffer: seq<Sample>, cond: Condition, now: int) {
    if cond.durationSec > 0 then
      cond.threshold.Some? && Sustained(buffer, cond.op, cond.threshold.value, cond.Duration(), now)
    else cond.holdsNow
  }

  ghost predicate ConditionsHold(buffer: seq<Sample>, conds: seq<Condition>, now: int) {
    forall i :: 0 <= i < |conds| ==> ConditionHolds(buffer, conds[i], now)
  }

  method EvaluateMetricConditions(tracker: Tracker, key: string, conds: seq<Condition>, now: int) returns (r: bool)
    ensures r <==> ConditionsHold(tracker.Buffer(key), conds, now)
  {
    var i := 0;
    while i < |conds|
      invariant 0 <= i <= |conds|
      invariant forall j :: 0 <= j < i ==> ConditionHolds(tracker.Buffer(key), conds[j], now)
    {
      var cond := conds[i];
      if cond.durationSec > 0 {
        var sustained := tracker.IsSustained(key, cond.op, cond.threshold, cond.Duration(), now);
        if !sustained {
          return false;
        }
      } else if !cond.holdsNow {
        return false;
      }
      i := i + 1;
    }
    return true;
  }

  // ---- The buffers of all metric instances ----

  datatype Record = Record(key: string, sample: Sample)

  /** The tracker's buffers after a run of records. */
  function Buffers(records: seq<Record>): map<string, seq<Sample>> {
    if records == [] then map[]
    else
      var past, last := Buffers(records[..|records| - 1]), records[|records| - 1];
      past[last.key := Recorded(Get(past, last.key).GetOr([]), last.sample)]
  }

  function BufferOf(records: seq<Record>, key: string): seq<Sample> {
    Get(Buffers(records), key).GetOr([])
  }

  /** Everything ever recorded under the key. */
  function History(records: seq<Record>, key: string): seq<Sample> {
    if records == [] then []
    else
      var last := records[|records| - 1];
      History(records[..|records| - 1], key) + if last.key == key then [last.sample] else []
  }

  /** A buffer depends on the records under its own key only. */
  lemma {:induction false} BufferReplaysHistory(records: seq<Record>, key: string)
    ensures BufferOf(records, key) == Replay(History(records, key))
  {
    if records != [] {
      var past, last := records[..|records| - 1], records[|records| - 1];
      BufferReplaysHistory(past, key);
      var h := History(past, key);
      if last.key == key {
        assert (h + [last.sample])[..|h|] == h;
      } else {
        assert History(records, key) == h;
      }
    }
  }

  // ---- When a metric rule fires ----

  /** The engine records the event's value before it looks at any rule. */
  function RecordEvent(records: seq<Record>, e: Event, at: int): seq<Record> {
    if e.metricName != "" && e.value.Some? then
      records + [Record(MetricBufferKey(e.metricName, e.path), Sample(e.value.value, at))]
    else records
  }

  /** The condition, told from everything measured: what the limits left of the window reaches back into the grace
    * period and meets the threshold throughout.
    */
  ghost predicate HeldInHistory(h: seq<Sample>, cond: Condition)
    requires h != []
  {
    if cond.durationSec > 0 then
      && cond.threshold.Some?
      && HeldThroughout(h[KeptFrom(h, cond.Duration())..], cond.op, cond.threshold.value, GraceEnd(h, cond.Duration()))
    else cond.holdsNow
  }

  lemma HeldInHistoryIff(h: seq<Sample>, cond: Condition)
    requires Sorted(h) && h != []
    ensures ConditionHolds(Replay(h), cond, h[|h| - 1].at) <==> HeldInHistory(h, cond)
  {
    hide Sustained, HeldThroughout, Sorted, Start, StaleCount, Replay;
    if cond.durationSec > 0 && cond.threshold.Some? {
      var k := AnswerSuffix(h, cond.op, cond.threshold.value, cond.Duration());
    }
  }

  lemma EventIsNewest(records: seq<Record>, e: Event, at: int)
    requires e.metricName != "" && e.value.Some?
    ensures var h := History(RecordEvent(records, e, at), MetricBufferKey(e.metricName, e.path));
            h != [] && h[|h| - 1] == Sample(e.value.value, at)
  {
    var r := Record(MetricBufferKey(e.metricName, e.path), Sample(e.value.value, at));
    assert (records + [r])[..|records|] == records;
  }

  lemma ConditionsHoldIff(records: seq<Record>, e: Event, at: int, conds: seq<Condition>)
    requires e.metricName != "" && e.value.Some?
    requires Sorted(History(RecordEvent(records, e, at), MetricBufferKey(e.metricName, e.path)))
    ensures var after, key := RecordEvent(records, e, at), MetricBufferKey(e.metricName, e.path);
            && History(after, key) != []
            && (ConditionsHold(BufferOf(after, key), conds, at)
                <==> forall i :: 0 <= i < |conds| ==> HeldInHistory(History(after, key), conds[i]))
  {
    var after, key := RecordEvent(records, e, at), MetricBufferKey(e.metricName, e.path);
    EventIsNewest(records, e, at);
    BufferReplaysHistory(after, key);
    forall i | 0 <= i < |conds|
      ensures ConditionHolds(BufferOf(after, key), conds[i], at) <==> HeldInHistory(History(after, key), conds[i])
    {
      HeldInHistoryIff(History(after, key), conds[i]);
    }
  }

  /** The event reports the rule as met exactly when its conditions hold on the buffers. */
  ghost predicate Reports(e: Event, r: Rule, conds: seq<Condition>, records: seq<Record>, at: int) {
    var buffer := BufferOf(RecordEvent(records, e, at), MetricBufferKey(r.metricName, e.path));
    r.id in e.met <==> ConditionsHold(buffer, conds, at)
  }

  /** A metric rule fires exactly when every condition is held in what was ever measured of the instance, the value
    * reaches a step that is new since the instance last recovered (if the rule has steps), and the cooldown has passed.
    */
  lemma {:induction false} SustainedRuleFiresIff(
    ss: seq<Section>, r: Rule, conds: seq<Condition>, e: Event, c: Clock, records: seq<Record>, at: int)
    requires Known(ss, r) && ClockAdvances(ss) && r.trigger == OnMetric
    requires e.metricName != "" && e.value.Some? && Reports(e, r, conds, records, at)
    requires Sorted(History(RecordEvent(records, e, at), MetricBufferKey(e.metricName, e.path)))
    ensures var h := History(RecordEvent(records, e, at), MetricBufferKey(e.metricName, e.path));
            && h != []
            && (Fires(After(ss), r, e, c) <==>
                && r.objectType == e.objectType && r.metricName == e.metricName
                && (forall i :: 0 <= i < |conds| ==> HeldInHistory(h, conds[i]))
                && (r.steps != [] ==> ReachesNewStep(ss, r, e.path, e.value.value))
                && Rested(ss, r, e, c.asked))
  {
    ConditionsHoldIff(records, e, at, conds);
    if r.steps != [] {
      MetricRuleFiresIff(ss, r, e, c);
    } else {
      PlainRuleFiresIff(ss, r, e, c);
    }
  }

  /** So a rule with a duration beyond the age limit never fires, whatever is measured. */
  lemma {:induction false} LongRuleNeverFires(
    ss: seq<Section>, r: Rule, conds: seq<Condition>, e: Event, c: Clock, records: seq<Record>, at: int, i: nat)
    requires r.trigger == OnMetric && e.metricName != "" && e.value.Some? && Reports(e, r, conds, records, at)
    requires Sorted(History(RecordEvent(records, e, at), MetricBufferKey(e.metricName, e.path)))
    requires i < |conds| && conds[i].Duration() - conds[i].Duration() / 5 > MAX_AGE
    ensures !Fires(After(ss), r, e, c)
  {
    if Matches(r, e) {
      var after, key := RecordEvent(records, e, at), MetricBufferKey(e.metricName, e.path);
      EventIsNewest(records, e, at);
      BufferReplaysHistory(after, key);
      assert ConditionHolds(BufferOf(after, key), conds[i], at);
      LongDurationNeverSustained(History(after, key), conds[i].op, conds[i].threshold.value, conds[i].Duration());
    }
  }
}
