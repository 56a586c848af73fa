/**
 Sustained metric thresholds over a capped sample buffer, and what the buffer's
 answer says about the full sample history. Times are nanoseconds.
 */
module MetricTracker {
  import opened Sequences
  import opened Wrappers

  const MAX_SAMPLES: nat := 120
  const MAX_AGE: int := 30 * 60 * 1_000_000_000

  datatype Sample = Sample(value: real, at: int)

  datatype Operator = GreaterThan | LessThan | GreaterOrEqual | LessOrEqual | OtherOperator

  predicate Compare(value: real, op: Operator, threshold: real) {
    match op
    case GreaterThan => value > threshold
    case LessThan => value < threshold
    case GreaterOrEqual => value >= threshold
    case LessOrEqual => value <= threshold
    case OtherOperator => false
  }

  /** The samples left when the leading stale ones are dropped. */
  function DropStale(s: seq<Sample>, cutoff: int): seq<Sample> {
    if s != [] && s[0].at < cutoff then DropStale(s[1..], cutoff) else s
  }

  function Capped(s: seq<Sample>): seq<Sample> {
    if |s| > MAX_SAMPLES then s[|s| - MAX_SAMPLES..] else s
  }

  /** The buffer after recording x. */
  function Recorded(buffer: seq<Sample>, x: Sample): seq<Sample> {
    Capped(DropStale(buffer + [x], x.at - MAX_AGE))
  }

  /** The samples with from <= at <= to, in order. */
  function InWindow(s: seq<Sample>, from: int, to: int): seq<Sample> {
    if s == [] then []
    else
      var last := s[|s| - 1];
      InWindow(s[..|s| - 1], from, to) + if from <= last.at <= to then [last] else []
  }

  ghost predicate AllMeet(w: seq<Sample>, op: Operator, threshold: real) {
    forall i :: 0 <= i < |w| ==> Compare(w[i].value, op, threshold)
  }

  /** Held throughout the window: some sample near its start, and every sample of it meets the condition. */
  ghost predicate Sustained(s: seq<Sample>, op: Operator, threshold: real, duration: nat, now: int) {
    HeldThroughout(InWindow(s, now - duration, now), op, threshold, now - duration + duration / 5)
  }

  ghost predicate HeldThroughout(w: seq<Sample>, op: Operator, threshold: real, graceEnd: int) {
    w != [] && w[0].at <= graceEnd && AllMeet(w, op, threshold)
  }

  class Tracker {
    var buffers: map<string, seq<Sample>>

    constructor ()
      ensures buffers == map[]
    {
      buffers := map[];
    }

    function Buffer(metric: string): seq<Sample>
      reads this
    {
      if metric in buffers then buffers[metric] else []
    }

    method Record(metric: string, value: real, at: int)
      modifies this
      ensures buffers == old(buffers)[metric := Recorded(old(Buffer(metric)), Sample(value, at))]
    {
      var samples := Buffer(metric) + [Sample(value, at)];
      var cutoff := at - MAX_AGE;
      var start := 0;
      while start < |samples| && samples[start].at < cutoff
        invariant 0 <= start <= |samples|
        invariant DropStale(samples, cutoff) == DropStale(samples[start..], cutoff)
      {
        assert samples[start..][1..] == samples[start + 1..];
        start := start + 1;
      }
      assert DropStale(samples[start..], cutoff) == samples[start..];
      samples := samples[start..];
      if |samples| > MAX_SAMPLES {
        samples := samples[|samples| - MAX_SAMPLES..];
      }
      buffers := buffers[metric := samples];
    }

    /** `threshold` is the parsed comparison value, None when it does not parse. */
    method IsSustained(metric: string, op: Operator, threshold: Option<real>, duration: nat, now: int) returns (r: bool)
      ensures r <==> threshold.Some? && Sustained(Buffer(metric), op, threshold.value, duration, now)
    {
      var samples := Buffer(metric);
      if |samples| == 0 || threshold.None? {
        return false;
      }
      var windowStart := now - duration;
      var inWindow: seq<Sample> := [];
      var i := 0;
      while i < |samples|
        invariant 0 <= i <= |samples|
        invariant inWindow == InWindow(samples[..i], windowStart, now)
      {
        assert samples[..i + 1][..i] == samples[..i];
        if windowStart <= samples[i].at && samples[i].at <= now {
          inWindow := inWindow + [samples[i]];
        }
        i := i + 1;
      }
      assert samples[..i] == samples;
      if |inWindow| == 0 {
        return false;
      }
      if inWindow[0].at > windowStart + duration / 5 {
        return false;
      }
      i := 0;
      while i < |inWindow|
        invariant 0 <= i <= |inWindow|
        invariant forall j :: 0 <= j < i ==> Compare(inWindow[j].value, op, threshold.value)
      {
        if !Compare(inWindow[i].value, op, threshold.value) {
          return false;
        }
        i := i + 1;
      }
      return true;
    }
  }

  /** What a sustained answer means, operator by operator; the boundary is in with the inclusive ones only. */
  lemma SustainedMeans(s: seq<Sample>, op: Operator, threshold: real, duration: nat, now: int)
    ensures var w := InWindow(s, now - duration, now);
            var covered := w != [] && w[0].at <= now - duration + duration / 5;
            && (op == GreaterThan ==> (Sustained(s, op, threshold, duration, now)
                                       <==> covered && forall x :: x in w ==> x.value > threshold))
            && (op == LessThan ==> (Sustained(s, op, threshold, duration, now)
                                    <==> covered && forall x :: x in w ==> x.value < threshold))
            && (op == GreaterOrEqual ==> (Sustained(s, op, threshold, duration, now)
                                          <==> covered && forall x :: x in w ==> x.value >= threshold))
            && (op == LessOrEqual ==> (Sustained(s, op, threshold, duration, now)
                                       <==> covered && forall x :: x in w ==> x.value <= threshold))
            && (op == OtherOperator ==> !Sustained(s, op, threshold, duration, now))
  {
    var w := InWindow(s, now - duration, now);
    AllMeetIn(w, op, threshold);
    if op == OtherOperator && w != [] {
      assert !Compare(w[0].value, op, threshold);
    }
  }

  lemma AllMeetIn(w: seq<Sample>, op: Operator, threshold: real)
    ensures AllMeet(w, op, threshold) <==> forall x :: x in w ==> Compare(x.value, op, threshold)
  {
  }

  /** The window is made of exactly the samples that lie in it. */
  lemma {:induction false} WindowHolds(s: seq<Sample>, from: int, to: int)
    ensures forall x :: x in InWindow(s, from, to) <==> x in s && from <= x.at <= to
  {
    if s != [] {
      WindowHolds(s[..|s| - 1], from, to);
      assert s == s[..|s| - 1] + [s[|s| - 1]];
    }
  }

  // ----- The buffer against the history it was built from -----

  /** The buffer after recording a whole history, one sample at a time. */
  function Replay(h: seq<Sample>): seq<Sample> {
    if h == [] then [] else Recorded(Replay(h[..|h| - 1]), h[|h| - 1])
  }

  ghost predicate NotLater(h: seq<Sample>, i: int, j: int)
    requires 0 <= i < |h| && 0 <= j < |h|
  {
    h[i].at <= h[j].at
  }

  /** The clock the samples were taken by does not run backwards. */
  ghost predicate Sorted(h: seq<Sample>) {
    forall i, j :: 0 <= i <= j < |h| ==> NotLater(h, i, j)
  }

  lemma SliceSorted(h: seq<Sample>, a: nat, b: nat)
    requires Sorted(h) && a <= b <= |h|
    ensures Sorted(h[a..b])
  {
    forall i, j | 0 <= i <= j < b - a ensures NotLater(h[a..b], i, j) { assert NotLater(h, a + i, a + j); }
  }

  /** Number of leading samples older than the cutoff. */
  function StaleCount(h: seq<Sample>, cutoff: int): (k: nat)
    ensures k <= |h|
  {
    if h != [] && h[0].at < cutoff then StaleCount(h[1..], cutoff) + 1 else 0
  }

  lemma {:induction false} DropStaleCuts(h: seq<Sample>, cutoff: int)
    ensures DropStale(h, cutoff) == h[StaleCount(h, cutoff)..]
  {
    if h != [] && h[0].at < cutoff {
      DropStaleCuts(h[1..], cutoff);
    }
  }

  lemma {:induction false} StaleIff(h: seq<Sample>, cutoff: int, i: nat)
    requires Sorted(h) && i < |h|
    ensures i < StaleCount(h, cutoff) <==> h[i].at < cutoff
  {
    assert NotLater(h, 0, i);
    if h[0].at < cutoff && i > 0 {
      SliceSorted(h, 1, |h|);
      assert h[1..|h|] == h[1..];
      StaleIff(h[1..], cutoff, i - 1);
    }
  }

  lemma SliceStale(h: seq<Sample>, a: nat, b: nat, cutoff: int)
    requires Sorted(h) && a <= b <= |h|
    ensures var f := StaleCount(h, cutoff);
            StaleCount(h[a..b], cutoff) == if f <= a then 0 else if f >= b then b - a else f - a
  {
    SliceSorted(h, a, b);
    var f, k := StaleCount(h, cutoff), StaleCount(h[a..b], cutoff);
    if k < b - a {
      StaleIff(h[a..b], cutoff, k);
      StaleIff(h, cutoff, a + k);
    }
    if k > 0 {
      StaleIff(h[a..b], cutoff, k - 1);
      StaleIff(h, cutoff, a + k - 1);
    }
  }

  function CutIndex(len: nat, young: nat): nat {
    if len > young + MAX_SAMPLES then len - MAX_SAMPLES else young
  }

  /** Where the buffer starts within the history: past the stale samples and past all but the last 120. */
  function Start(h: seq<Sample>): (k: nat)
    ensures k <= |h|
  {
    if h == [] then 0
    else
      CutIndex(|h|, StaleCount(h, h[|h| - 1].at - MAX_AGE))
  }

  lemma CappedSuffix(h: seq<Sample>, k: nat)
    requires k <= |h|
    ensures CutIndex(|h|, k) <= |h| && Capped(h[k..]) == h[CutIndex(|h|, k)..]
  {
  }

  /** The count of stale samples only grows with the cutoff. */
  lemma StaleMonotone(h: seq<Sample>, c: int, d: int)
    requires Sorted(h) && c <= d
    ensures StaleCount(h, c) <= StaleCount(h, d)
  {
    var k := StaleCount(h, c);
    if k > 0 {
      StaleIff(h, c, k - 1);
      StaleIff(h, d, k - 1);
    }
  }

  lemma TailOfInit<T>(h: seq<T>, a: nat)
    requires a < |h|
    ensures h[..|h| - 1][a..] + [h[|h| - 1]] == h[a..]
  {
  }

  lemma CutShift(len: nat, a: nat, f: nat, k: nat)
    requires a <= len && f <= len && k == (if f <= a then 0 else f - a)
    ensures a + CutIndex(len - a, k) == CutIndex(len, if f <= a then a else f)
  {
  }

  lemma CutTwice(n: nat, y0: nat, y: nat)
    requires y0 <= n && y0 <= y <= n + 1
    ensures var a := CutIndex(n, y0); CutIndex(n + 1, if y <= a then a else y) == CutIndex(n + 1, y)
  {
  }

  /** Cutting twice lands where cutting once from the whole history would. */
  lemma StartStep(h: seq<Sample>)
    requires Sorted(h) && h != []
    ensures var a, f := Start(h[..|h| - 1]), StaleCount(h, h[|h| - 1].at - MAX_AGE);
            Start(h) == CutIndex(|h|, if f <= a then a else f)
  {
    hide StaleCount;
    var n := |h| - 1;
    var f := StaleCount(h, h[n].at - MAX_AGE);
    assert Start(h) == CutIndex(n + 1, f);
    if n > 0 {
      var p := h[..n];
      var c := h[n - 1].at - MAX_AGE;
      assert NotLater(h, n - 1, n);
      StaleMonotone(h, c, h[n].at - MAX_AGE);
      SliceStale(h, 0, n, c);
      assert h[0..n] == p && p[|p| - 1] == h[n - 1];
      var y0 := StaleCount(p, c);
      assert Start(p) == CutIndex(n, y0);
      CutTwice(n, y0, f);
    }
  }

  /** Dropping stale samples and capping keeps a suffix. */
  lemma TrimmedSuffix(g: seq<Sample>, cutoff: int)
    ensures var cut := CutIndex(|g|, StaleCount(g, cutoff));
            cut <= |g| && Capped(DropStale(g, cutoff)) == g[cut..]
  {
    DropStaleCuts(g, cutoff);
    CappedSuffix(g, StaleCount(g, cutoff));
  }

  /** Where trimming a suffix of a sorted history cuts, seen from the whole history. */
  lemma TrimmedFrom(h: seq<Sample>, a: nat, cutoff: int)
    requires Sorted(h) && a <= |h|
    ensures var f := StaleCount(h, cutoff);
            a + CutIndex(|h| - a, StaleCount(h[a..], cutoff)) == CutIndex(|h|, if f <= a then a else f)
  {
    assert h[a..|h|] == h[a..];
    SliceStale(h, a, |h|, cutoff);
    CutShift(|h|, a, StaleCount(h, cutoff), StaleCount(h[a..], cutoff));
  }

  /** Trimming a suffix of a sorted history leaves a suffix of it. */
  lemma TrimmedTwice(h: seq<Sample>, a: nat, cutoff: int)
    requires Sorted(h) && a <= |h|
    ensures var f := StaleCount(h, cutoff);
            Capped(DropStale(h[a..], cutoff)) == h[CutIndex(|h|, if f <= a then a else f)..]
  {
    var cut := CutIndex(|h[a..]|, StaleCount(h[a..], cutoff));
    TrimmedSuffix(h[a..], cutoff);
    TrimmedFrom(h, a, cutoff);
    DropDrop(h, a, cut);
  }

  lemma RecordedSuffix(h: seq<Sample>)
    requires Sorted(h) && h != []
    ensures Recorded(h[..|h| - 1][Start(h[..|h| - 1])..], h[|h| - 1]) == h[Start(h)..]
  {
    var x, a := h[|h| - 1], Start(h[..|h| - 1]);
    TailOfInit(h, a);
    TrimmedTwice(h, a, x.at - MAX_AGE);
    StartStep(h);
  }

  lemma KeptIff(h: seq<Sample>)
    requires Sorted(h) && h != []
    ensures forall i :: 0 <= i < |h| ==>
              (i >= Start(h) <==> i >= |h| - 120 && h[i].at >= h[|h| - 1].at - 1_800_000_000_000)
  {
    forall i | 0 <= i < |h|
      ensures i >= Start(h) <==> i >= |h| - 120 && h[i].at >= h[|h| - 1].at - 1_800_000_000_000
    {
      StaleIff(h, h[|h| - 1].at - MAX_AGE, i);
    }
  }

  /**
   With a clock that does not run backwards the buffer is exactly the suffix of
   the history that is at most 30 minutes old and at most 120 samples long.
   Evicting early never loses a sample a later eviction would have kept.
   */
  lemma {:induction false} BufferIsSuffix(h: seq<Sample>)
    requires Sorted(h)
    ensures Replay(h) == h[Start(h)..]
    ensures forall i :: 0 <= i < |h| ==>
              (i >= Start(h) <==> i >= |h| - 120 && h[i].at >= h[|h| - 1].at - 1_800_000_000_000)
  {
    if h != [] {
      KeptIff(h);
      var n := |h| - 1;
      SliceSorted(h, 0, n);
      assert h[0..n] == h[..n];
      BufferIsSuffix(h[..n]);
      RecordedSuffix(h);
    }
  }

  /** In a sorted sequence with no sample after `to`, the window is a suffix. */
  lemma {:induction false} WindowIsSuffix(h: seq<Sample>, from: int, to: int)
    requires Sorted(h) && (h != [] ==> h[|h| - 1].at <= to)
    ensures InWindow(h, from, to) == h[StaleCount(h, from)..]
  {
    if h != [] {
      var n := |h| - 1;
      SliceSorted(h, 0, n);
      assert h[0..n] == h[..n];
      if n > 0 { assert NotLater(h, n - 1, n); }
      WindowIsSuffix(h[..n], from, to);
      SliceStale(h, 0, n, from);
      StaleIff(h, from, n);
    }
  }

  function Max(a: nat, b: nat): nat {
    if a > b then a else b
  }

  /** The window of the buffer, as a suffix of the history. */
  lemma BufferWindow(h: seq<Sample>, from: int)
    requires Sorted(h) && h != []
    ensures InWindow(Replay(h), from, h[|h| - 1].at) == h[Max(StaleCount(h, from), Start(h))..]
  {
    BufferIsSuffix(h);
    var a := Start(h);
    SliceSorted(h, a, |h|);
    assert h[a..|h|] == h[a..];
    WindowIsSuffix(h[a..], from, h[|h| - 1].at);
    SliceStale(h, a, |h|, from);
  }

  /**
   A positive answer speaks for the whole history: every sample ever recorded
   that lies later than the grace period into the window meets the condition.
   */
  lemma {:induction false} PositiveAnswerCoversHistory(h: seq<Sample>, op: Operator, threshold: real, duration: nat,
      i: nat)
    requires Sorted(h) && h != [] && i < |h|
    requires var now := h[|h| - 1].at;
             Sustained(Replay(h), op, threshold, duration, now) && h[i].at > now - duration + duration / 5
    ensures Compare(h[i].value, op, threshold)
  {
    var now := h[|h| - 1].at;
    var k := AnswerSuffix(h, op, threshold, duration);
    SuffixHeld(h, k, i, op, threshold, now - duration + duration / 5);
  }

  /** What the buffer's answer depends on: a suffix of the history. */
  lemma AnswerSuffix(h: seq<Sample>, op: Operator, threshold: real, duration: nat) returns (k: nat)
    requires Sorted(h) && h != []
    ensures var now := h[|h| - 1].at;
            && k == Max(StaleCount(h, now - duration), Start(h)) && k <= |h|
            && (Sustained(Replay(h), op, threshold, duration, now)
                <==> HeldThroughout(h[k..], op, threshold, now - duration + duration / 5))
  {
    var now := h[|h| - 1].at;
    BufferWindow(h, now - duration);
    k := Max(StaleCount(h, now - duration), Start(h));
  }

  lemma SuffixHeld(h: seq<Sample>, k: nat, i: nat, op: Operator, threshold: real, graceEnd: int)
    requires Sorted(h) && k <= |h| && i < |h| && HeldThroughout(h[k..], op, threshold, graceEnd)
    requires h[i].at > graceEnd
    ensures Compare(h[i].value, op, threshold)
  {
    assert h[k..][0] == h[k];
    var j := if i < k then i else k;
    assert NotLater(h, j, k);
    assert i >= k && h[k..][i - k] == h[i];
  }

  lemma FullWindow(h: seq<Sample>, duration: nat)
    requires Sorted(h) && h != []
    ensures var now := h[|h| - 1].at; InWindow(h, now - duration, now) == h[StaleCount(h, now - duration)..]
  {
    WindowIsSuffix(h, h[|h| - 1].at - duration, h[|h| - 1].at);
  }

  /** The full history's own answer, read off its window. */
  lemma FullAnswer(h: seq<Sample>, op: Operator, threshold: real, duration: nat)
    requires Sorted(h) && h != []
    ensures var now := h[|h| - 1].at;
            Sustained(h, op, threshold, duration, now)
            <==> HeldThroughout(h[StaleCount(h, now - duration)..], op, threshold, now - duration + duration / 5)
  {
    FullWindow(h, duration);
  }

  /** The buffer reaches back to any point that is young enough and followed by few enough samples. */
  lemma StartWithin(h: seq<Sample>, from: int)
    requires Sorted(h) && h != [] && from >= h[|h| - 1].at - MAX_AGE
    requires |h| - StaleCount(h, from) <= MAX_SAMPLES
    ensures Start(h) <= StaleCount(h, from)
  {
    StaleMonotone(h, h[|h| - 1].at - MAX_AGE, from);
  }

  /** Nothing in the buffer is older than 30 minutes. */
  lemma BufferYoung(h: seq<Sample>, k: nat)
    requires Sorted(h) && Start(h) <= k < |h|
    ensures h[k].at >= h[|h| - 1].at - MAX_AGE
  {
    StaleIff(h, h[|h| - 1].at - MAX_AGE, k);
  }

  /** Where the buffer's part of the window starts within the history. */
  function KeptFrom(h: seq<Sample>, duration: nat): (k: nat)
    requires h != []
    ensures WindowFrom(h, duration) <= k <= |h|
  {
    Max(WindowFrom(h, duration), Start(h))
  }

  /** Where the window starts within the history. */
  function WindowFrom(h: seq<Sample>, duration: nat): (a: nat)
    requires h != []
    ensures a <= |h|
  {
    StaleCount(h, h[|h| - 1].at - duration)
  }

  function GraceEnd(h: seq<Sample>, duration: nat): int
    requires h != []
  {
    h[|h| - 1].at - duration + duration / 5
  }

  /** The newest sample is never evicted. */
  lemma NewestKept(h: seq<Sample>, duration: nat)
    requires Sorted(h) && h != []
    ensures KeptFrom(h, duration) < |h|
  {
    StaleIff(h, h[|h| - 1].at - duration, |h| - 1);
    StaleIff(h, h[|h| - 1].at - MAX_AGE, |h| - 1);
  }

  lemma HeldSlice(h: seq<Sample>, k: nat, op: Operator, threshold: real, graceEnd: int)
    requires k < |h|
    ensures HeldThroughout(h[k..], op, threshold, graceEnd) <==> h[k].at <= graceEnd && AllMeet(h[k..], op, threshold)
  {
    assert h[k..][0] == h[k];
  }

  lemma AllMeetSplit(h: seq<Sample>, a: nat, k: nat, op: Operator, threshold: real)
    requires a <= k <= |h|
    ensures AllMeet(h[a..], op, threshold) <==> AllMeet(h[a..k], op, threshold) && AllMeet(h[k..], op, threshold)
  {
    var w, x, y := h[a..], h[a..k], h[k..];
    assert w == x + y;
    if AllMeet(w, op, threshold) {
      forall i | 0 <= i < |x| ensures Compare(x[i].value, op, threshold) { assert x[i] == w[i]; }
      forall i | 0 <= i < |y| ensures Compare(y[i].value, op, threshold) { assert y[i] == w[|x| + i]; }
    }
  }

  /**
   Exactly when the capped buffer and the full history disagree, for any duration
   and any number of samples. The buffer wrongly says yes when what it kept of the
   window meets the condition from within the grace period and something it evicted
   from the window does not; it wrongly says no when the whole window meets the
   condition and only the eviction pushed its start past the grace period.
   */
  lemma {:induction false} AnswersDifferIff(h: seq<Sample>, op: Operator, threshold: real, duration: nat)
    requires Sorted(h) && h != []
    ensures var now, a, k, g := h[|h| - 1].at, WindowFrom(h, duration), KeptFrom(h, duration), GraceEnd(h, duration);
            && k < |h|
            && (Sustained(Replay(h), op, threshold, duration, now) && !Sustained(h, op, threshold, duration, now)
                <==> h[k].at <= g && AllMeet(h[k..], op, threshold) && !AllMeet(h[a..k], op, threshold))
            && (!Sustained(Replay(h), op, threshold, duration, now) && Sustained(h, op, threshold, duration, now)
                <==> h[a].at <= g < h[k].at && AllMeet(h[a..], op, threshold))
  {
    var a, k, g := WindowFrom(h, duration), KeptFrom(h, duration), GraceEnd(h, duration);
    NewestKept(h, duration);
    var k' := AnswerSuffix(h, op, threshold, duration);
    FullAnswer(h, op, threshold, duration);
    HeldSlice(h, k, op, threshold, g);
    HeldSlice(h, a, op, threshold, g);
    AllMeetSplit(h, a, k, op, threshold);
    assert NotLater(h, a, k);
  }

  /**
   For windows of at most 30 minutes that hold at most 120 samples the capped
   buffer answers exactly like the full history.
   */
  lemma {:induction false} SameAnswerAsHistory(h: seq<Sample>, op: Operator, threshold: real, duration: nat)
    requires Sorted(h) && h != [] && duration <= 1_800_000_000_000
    requires |InWindow(h, h[|h| - 1].at - duration, h[|h| - 1].at)| <= 120
    ensures var now := h[|h| - 1].at;
            Sustained(Replay(h), op, threshold, duration, now) <==> Sustained(h, op, threshold, duration, now)
  {
    hide Sorted, Replay, InWindow, HeldThroughout, StaleCount, Sustained, Start;
    var now := h[|h| - 1].at;
    var k := AnswerSuffix(h, op, threshold, duration);
    FullWindow(h, duration);
    StartWithin(h, now - duration);
    assert k == StaleCount(h, now - duration);
    FullAnswer(h, op, threshold, duration);
  }

  function CapHistory(): seq<Sample> {
    seq(121, i => Sample(if i == 0 then 0.0 else 1.0, i))
  }

  lemma CapHistoryTail()
    ensures HeldThroughout(CapHistory()[1..], GreaterThan, 0.5, 24)
  {
    var h := CapHistory();
    forall i | 0 <= i < |h[1..]|
      ensures h[1..][i] == Sample(1.0, i + 1)
    {
      assert h[1..][i] == h[i + 1];
    }
  }

  /** The sample cap is a real limit: 121 samples in the window, the only violation evicted, a wrong answer. */
  lemma CapHidesViolation()
    ensures var h := CapHistory();
            && Sorted(h) && h[|h| - 1].at == 120
            && Sustained(Replay(h), GreaterThan, 0.5, 120, 120)
            && !Sustained(h, GreaterThan, 0.5, 120, 120)
  {
    var h := CapHistory();
    CapHistoryTail();
    BufferWindow(h, 0);
    WindowIsSuffix(h, 0, 120);
    assert StaleCount(h, 0) == 0 && StaleCount(h, 120 - MAX_AGE) == 0 && Start(h) == 1;
    assert h[0..][0] == h[0];
  }

  lemma LongDurationNeverSustained(h: seq<Sample>, op: Operator, threshold: real, duration: nat)
    requires Sorted(h) && h != [] && duration - duration / 5 > MAX_AGE
    ensures !Sustained(Replay(h), op, threshold, duration, h[|h| - 1].at)
  {
    var k := AnswerSuffix(h, op, threshold, duration);
    if k < |h| {
      assert h[k..][0] == h[k];
      BufferYoung(h, k);
    }
  }

  /** Two samples that meet `> 0.5`, as far apart as the window minus its grace. */
  function TwoSamples(duration: nat): seq<Sample> {
    [Sample(1.0, 0), Sample(1.0, duration - duration / 5)]
  }

  lemma TwoSamplesSustained(duration: nat)
    requires duration - duration / 5 <= MAX_AGE
    ensures var h := TwoSamples(duration);
            Sorted(h) && Sustained(Replay(h), GreaterThan, 0.5, duration, h[1].at)
  {
    var h := TwoSamples(duration);
    var k := AnswerSuffix(h, GreaterThan, 0.5, duration);
    assert StaleCount(h, h[1].at - duration) == 0 && StaleCount(h, h[1].at - MAX_AGE) == 0;
    assert k == 0 && h[0..] == h;
  }

  ghost predicate SaysYes(h: seq<Sample>, op: Operator, threshold: real, duration: nat) {
    Sorted(h) && h != [] && Sustained(Replay(h), op, threshold, duration, h[|h| - 1].at)
  }

  /** Some history makes the sustained check say yes. */
  ghost predicate CanBeSustained(duration: nat) {
    exists h: seq<Sample>, op: Operator, threshold: real :: SaysYes(h, op, threshold, duration)
  }

  /**
   The age limit caps durations: the check can ever say yes exactly when the window
   minus its grace fits in 30 minutes, that is for durations up to 37.5 minutes.
   */
  lemma {:induction false} CanBeSustainedIff(duration: nat)
    ensures CanBeSustained(duration) <==> duration - duration / 5 <= MAX_AGE
    ensures CanBeSustained(duration) <==> duration <= 2_250_000_000_000
  {
    if duration - duration / 5 <= MAX_AGE {
      TwoSamplesSustained(duration);
      assert SaysYes(TwoSamples(duration), GreaterThan, 0.5, duration);
    } else {
      forall h: seq<Sample>, op: Operator, threshold: real
        ensures !SaysYes(h, op, threshold, duration)
      {
        if Sorted(h) && h != [] {
          LongDurationNeverSustained(h, op, threshold, duration);
        }
      }
    }
  }
}
