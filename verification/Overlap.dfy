/** Scaling the user's overlap to a model's clip length in 64-bit arithmetic. */
module Overlap {
  import opened Division

  const INT64_LIMIT: int := 0x8000_0000_0000_0000
  const NANOS_PER_SECOND: int := 1_000_000_000

  predicate Fits(x: int) {
    -INT64_LIMIT <= x < INT64_LIMIT
  }

  /** Two's complement wrap-around. */
  function Wrap(x: int): (r: int)
    ensures Fits(r)
    ensures Fits(x) ==> r == x
  {
    (x + INT64_LIMIT) % (2 * INT64_LIMIT) - INT64_LIMIT
  }

  /** Division that truncates towards zero. */
  function TruncDiv(a: int, b: int): int
    requires b != 0
  {
    var q := (if a < 0 then -a else a) / (if b < 0 then -b else b);
    if (a < 0) == (b < 0) then q else -q
  }

  function TruncMod(a: int, b: int): int
    requires b != 0
  {
    a - b * TruncDiv(a, b)
  }

  /** All times in nanoseconds. */
  function EffectiveOverlap(userOverlap: int, baseClip: int, modelClip: int): int {
    if baseClip == 0 then 0
    else
      var q := Wrap(TruncDiv(modelClip, baseClip));
      var r := Wrap(TruncMod(modelClip, baseClip));
      Wrap(Wrap(userOverlap * q) + Wrap(TruncDiv(Wrap(userOverlap * r), baseClip)))
  }

  function OverlapBytes(overlap: int, sampleRate: int, bytesPerSample: int): int {
    if overlap <= 0 || sampleRate <= 0 || bytesPerSample <= 0 then 0
    else
      var samples := TruncDiv(Wrap(overlap * sampleRate), NANOS_PER_SECOND);
      Wrap(samples * bytesPerSample)
  }

  /** Splitting off the quotient loses nothing: the split form is the floor of the exact product ratio. */
  lemma {:induction false} SplitIsExact(u: int, b: int, m: int)
    requires b > 0
    ensures u * (m / b) + u * (m % b) / b == u * m / b
  {
    var q, r := m / b, m % b;
    assert u * m == (u * q) * b + u * r by {
      assert m == q * b + r;
      assert u * (q * b + r) == u * (q * b) + u * r;
      assert u * (q * b) == (u * q) * b;
    }
    DivisionOfMultiple(u * q, u * r, b);
  }

  lemma TruncIsFloor(a: int, b: int)
    requires a >= 0 && b > 0
    ensures TruncDiv(a, b) == a / b && TruncMod(a, b) == a % b
  {
  }

  /** A product that leaves 64 bits wraps to something whose quotient is smaller. */
  lemma WrappedQuotient(p: int, b: int)
    requires INT64_LIMIT <= p && 0 < b < INT64_LIMIT
    ensures TruncDiv(Wrap(p), b) < p / b
    ensures TruncDiv(Wrap(p), b) >= -INT64_LIMIT
  {
    var w := Wrap(p);
    WrapShift(p);
    assert p / b >= 1 by { QuotientGrows(b, p, b); DivisionOfMultiple(1, 0, b); }
    if w >= 0 {
      QuotientGrows(w + b, p, b);
      DivisionOfMultiple(1, w, b);
    } else {
      QuotientBounds(-w, b);
    }
  }

  /** Wrapping takes off a positive multiple of 2^64. */
  lemma WrapShift(p: int)
    requires p >= INT64_LIMIT
    ensures p - Wrap(p) >= 2 * INT64_LIMIT
  {
    var k := (p + INT64_LIMIT) / (2 * INT64_LIMIT);
    assert p - Wrap(p) == k * (2 * INT64_LIMIT) && k >= 1;
  }

  /** The bounds behind the exactness: what is added is never more than the result. */
  lemma PartsWithinResult(u: int, b: int, m: int)
    requires 0 <= u && 0 < b && 0 <= m
    ensures 0 <= u * (m / b) && 0 <= u * (m % b) && 0 <= u * (m % b) / b
    ensures u * (m / b) <= u * m / b
  {
    QuotientBounds(m, b);
    Monotone(0, u, m / b);
    Monotone(0, u, m % b);
    QuotientBounds(u * (m % b), b);
    SplitIsExact(u, b, m);
  }

  /** The scaled overlap is the exact ratio, rounded down, precisely when the overlap times the remainder of the model
    * clip and the exact result fit in 64 bits.
    */
  lemma EffectiveOverlapExactIff(u: int, b: int, m: int)
    requires 0 <= u < INT64_LIMIT && 0 < b < INT64_LIMIT && 0 <= m < INT64_LIMIT
    ensures EffectiveOverlap(u, b, m) == u * m / b <==> u * (m % b) < INT64_LIMIT && u * m / b < INT64_LIMIT
  {
    PartsWithinResult(u, b, m);
    SplitIsExact(u, b, m);
    TruncIsFloor(m, b);
    QuotientBounds(m, b);
    var p := u * (m % b);
    if p < INT64_LIMIT {
      TruncIsFloor(p, b);
      QuotientBounds(p, b);
    } else {
      WrappedQuotient(p, b);
    }
  }

  /** An overlap no longer than the base clip scales to no more than the model clip. */
  lemma ScaledWithinModel(u: int, b: int, m: int)
    requires 0 <= u <= b && 0 < b && 0 <= m
    ensures 0 <= u * m / b <= m
  {
    Monotone(u, b, m);
    Monotone(0, u, m);
    QuotientBound(u * m, m, b);
  }

  /** With an overlap no longer than the base clip, and a base clip whose square fits, nothing overflows. */
  lemma NothingOverflows(u: int, b: int, m: int)
    requires 0 <= u <= b && 0 < b && b * b < INT64_LIMIT && 0 <= m < INT64_LIMIT
    ensures 0 <= u * (m / b) <= m
    ensures 0 <= u * (m % b) < INT64_LIMIT
    ensures 0 <= u * m / b <= m
  {
    PartsWithinResult(u, b, m);
    ScaledWithinModel(u, b, m);
    Monotone(u, b, m % b);
    Monotone(m % b, b, b);
  }

  /** So for base clips up to about three seconds the scaled overlap is always exact and at most the model's clip. */
  lemma EffectiveOverlapExact(u: int, b: int, m: int)
    requires 0 <= u <= b && 0 < b && b * b < INT64_LIMIT && 0 <= m < INT64_LIMIT
    ensures EffectiveOverlap(u, b, m) == u * m / b
    ensures 0 <= EffectiveOverlap(u, b, m) <= m
  {
    NothingOverflows(u, b, m);
    BelowItsSquare(b);
    EffectiveOverlapExactIff(u, b, m);
  }

  lemma BelowItsSquare(b: int)
    requires 0 < b
    ensures b <= b * b
  {
    Monotone(1, b, b);
  }

  /** A five-second base clip is too long for some overlaps: four seconds of it overflow for a four-second model. */
  lemma FiveSecondBaseOverflows()
    ensures var u, b, m := 4 * NANOS_PER_SECOND, 5 * NANOS_PER_SECOND, 4 * NANOS_PER_SECOND;
            && u <= b && u * (m % b) >= INT64_LIMIT
            && EffectiveOverlap(u, b, m) < 0 < u * m / b
  {
  }

  /** Multiplying first would not do: the naive product can leave 64 bits where the split form stays exact. */
  lemma {:induction false} NaiveProductOverflows()
    ensures var u, b, m := 3_000_000_000, 3_000_000_000, 5_000_000_000;
            && u <= b && b * b < INT64_LIMIT
            && TruncDiv(Wrap(u * m), b) != u * m / b
            && EffectiveOverlap(u, b, m) == u * m / b == m
  {
    EffectiveOverlapExact(3_000_000_000, 3_000_000_000, 5_000_000_000);
  }

  function Samples(overlap: int, sampleRate: int): int {
    overlap * sampleRate / NANOS_PER_SECOND
  }

  /** The sample count is the exact one, rounded down, precisely when the product fits in 64 bits. */
  lemma {:induction false} SampleCountExactIff(overlap: int, sampleRate: int)
    requires 0 < overlap && 0 < sampleRate
    ensures TruncDiv(Wrap(overlap * sampleRate), NANOS_PER_SECOND) == Samples(overlap, sampleRate)
            <==> overlap * sampleRate < INT64_LIMIT
  {
    Monotone(0, overlap, sampleRate);
    var p := overlap * sampleRate;
    if p >= INT64_LIMIT {
      WrappedQuotient(p, NANOS_PER_SECOND);
    }
  }

  /** Numbers less than 2^64 apart do not wrap to each other. */
  lemma WrapDistinct(x: int, y: int)
    requires Fits(x) && 0 < x - y < 2 * INT64_LIMIT
    ensures Wrap(y) != x
  {
    var k := (y + INT64_LIMIT) / (2 * INT64_LIMIT);
    assert y - Wrap(y) == k * (2 * INT64_LIMIT);
  }

  lemma WrappedCount(p: int)
    requires p >= INT64_LIMIT
    ensures var exact, got := p / NANOS_PER_SECOND, TruncDiv(Wrap(p), NANOS_PER_SECOND);
            got < exact && -exact <= got
  {
    WrappedQuotient(p, NANOS_PER_SECOND);
  }

  /** Neither does a wrong count turn into the right bytes. */
  lemma WrongCountWrongBytes(exact: int, got: int, bytesPerSample: int)
    requires 0 < bytesPerSample && got < exact && -exact <= got && exact * bytesPerSample < INT64_LIMIT
    ensures Wrap(got * bytesPerSample) != exact * bytesPerSample
  {
    Monotone(got + 1, exact, bytesPerSample);
    Monotone(-exact, got, bytesPerSample);
    WrapDistinct(exact * bytesPerSample, got * bytesPerSample);
  }

  /** The byte count is the exact one precisely when both products fit in 64 bits. */
  lemma ByteCountExactIff(overlap: int, sampleRate: int, bytesPerSample: int)
    requires 0 < overlap && 0 < sampleRate && 0 < bytesPerSample
    ensures OverlapBytes(overlap, sampleRate, bytesPerSample) == Samples(overlap, sampleRate) * bytesPerSample
            <==> overlap * sampleRate < INT64_LIMIT && Samples(overlap, sampleRate) * bytesPerSample < INT64_LIMIT
  {
    Monotone(0, overlap, sampleRate);
    var p, exact := overlap * sampleRate, Samples(overlap, sampleRate);
    Monotone(0, exact, bytesPerSample);
    SampleCountExactIff(overlap, sampleRate);
    if p >= INT64_LIMIT && exact * bytesPerSample < INT64_LIMIT {
      WrappedCount(p);
      WrongCountWrongBytes(exact, TruncDiv(Wrap(p), NANOS_PER_SECOND), bytesPerSample);
    }
  }

  /** The byte count is whole samples, and an overlap no longer than the clip takes no more bytes than the clip. */
  lemma {:induction false} OverlapBytesWithinClip(overlap: int, clip: int, sampleRate: int, bytesPerSample: int)
    requires 0 <= overlap <= clip && 0 < sampleRate && 0 < bytesPerSample
    requires clip * sampleRate < INT64_LIMIT && Samples(clip, sampleRate) * bytesPerSample < INT64_LIMIT
    ensures OverlapBytes(overlap, sampleRate, bytesPerSample) == Samples(overlap, sampleRate) * bytesPerSample
    ensures OverlapBytes(overlap, sampleRate, bytesPerSample) % bytesPerSample == 0
    ensures OverlapBytes(overlap, sampleRate, bytesPerSample) <= OverlapBytes(clip, sampleRate, bytesPerSample)
  {
    Monotone(overlap, clip, sampleRate);
    Monotone(0, overlap, sampleRate);
    Monotone(0, clip, sampleRate);
    var s, c := Samples(overlap, sampleRate), Samples(clip, sampleRate);
    assert 0 <= s <= c;
    Monotone(s, c, bytesPerSample);
    Monotone(0, s, bytesPerSample);
    Monotone(0, c, bytesPerSample);
    assert overlap > 0 ==> OverlapBytes(overlap, sampleRate, bytesPerSample) == s * bytesPerSample;
    assert overlap == 0 ==> s == 0;
    assert clip > 0 ==> OverlapBytes(clip, sampleRate, bytesPerSample) == c * bytesPerSample;
    MultipleAligned(s, bytesPerSample);
  }
}
