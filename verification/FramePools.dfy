/**
 Pool discipline while a drainer handles one frame: which pooled buffers are
 taken for resampling and processing, and when each goes back. Resampling, EQ,
 gain and conversion are environment choices; only their success matters here.
 */
module FramePools {
  import opened Wrappers

  type PoolId = nat

  datatype Kind = Bytes | Floats

  /** One buffer on loan: where it came from, its length there, and its identity. */
  datatype Lease = Lease(kind: Kind, pool: PoolId, size: int, buf: nat)

  /** A slice handed to a consumer or back to a pool: the first `len` of the `cap` bytes (or floats) of a buffer, pooled
    * or not.
    */
  datatype Slice = Slice(lease: Option<Lease>, len: int, cap: int) {
    predicate Fits() {
      0 <= len <= cap && (lease.Some? ==> cap == lease.value.size)
    }
  }

  datatype Event =
    | Got(lease: Lease)
    | PutBack(pool: PoolId, slice: Slice)
    | Wrote(data: Slice)

  /**
   The accounting a pool user must satisfy, as an automaton over its events: a
   buffer goes back to the pool it came from, once, at full length (a pool drops
   any other length), and a slice is only read while its buffer is on loan and
   within its bounds.
   None means the discipline was broken.
   */
  function Audit(t: seq<Event>, held: set<Lease>): Option<set<Lease>>
    decreases |t|
  {
    if t == [] then Some(held)
    else
      match t[0]
      case Got(l) => if l in held then None else Audit(t[1..], held + {l})
      case PutBack(pool, s) =>
        if s.lease.Some? && s.lease.value in held && s.lease.value.pool == pool && s.len == s.lease.value.size
        then Audit(t[1..], held - {s.lease.value})
        else None
      case Wrote(s) =>
        if !s.Fits() || (s.lease.Some? && s.lease.value !in held) then None else Audit(t[1..], held)
  }

  lemma {:induction false} AuditAppend(t: seq<Event>, held: set<Lease>, e: Event)
    requires Audit(t, held).Some?
    ensures Audit(t + [e], held) == Audit([e], Audit(t, held).value)
    decreases |t|
  {
    if t == [] {
      assert t + [e] == [e];
    } else {
      assert (t + [e])[1..] == t[1..] + [e];
      var next := match t[0]
        case Got(l) => held + {l}
        case PutBack(_, s) => held - {s.lease.value}
        case Wrote(_) => held;
      AuditAppend(t[1..], next, e);
    }
  }

  /** How often a buffer was lent out, and how often it went back to its pool, in a log. */
  function TimesGot(t: seq<Event>, l: Lease): nat
    decreases |t|
  {
    if t == [] then 0 else TimesGot(t[1..], l) + if t[0] == Got(l) then 1 else 0
  }

  function TimesReturned(t: seq<Event>, l: Lease): nat
    decreases |t|
  {
    if t == [] then 0
    else TimesReturned(t[1..], l) + if t[0].PutBack? && t[0].slice.lease == Some(l) then 1 else 0
  }

  /** What a passed audit means: every buffer lent out went back exactly as often. */
  lemma {:induction false} AuditBalances(t: seq<Event>, held: set<Lease>, l: Lease)
    requires Audit(t, held).Some?
    ensures TimesGot(t, l) + (if l in held then 1 else 0)
         == TimesReturned(t, l) + (if l in Audit(t, held).value then 1 else 0)
    decreases |t|
  {
    if t != [] {
      var next := match t[0]
        case Got(x) => held + {x}
        case PutBack(_, s) => held - {s.lease.value}
        case Wrote(_) => held;
      AuditBalances(t[1..], next, l);
    }
  }

  /** What it means for the single events: what goes back goes to its own pool at full length and was on loan, and so
    * was what is read.
    */
  lemma {:induction false} AuditedEvents(t: seq<Event>, held: set<Lease>, i: nat)
    requires Audit(t, held).Some? && i < |t|
    ensures Audit(t[..i], held).Some?
    ensures var onLoan := Audit(t[..i], held).value;
            match t[i]
            case Got(l) => l !in onLoan
            case PutBack(pool, s) =>
              s.lease.Some? && s.lease.value in onLoan && pool == s.lease.value.pool && s.len == s.lease.value.size
            case Wrote(s) => s.Fits() && (s.lease.Some? ==> s.lease.value in onLoan)
    decreases |t|
  {
    if i > 0 {
      var next := match t[0]
        case Got(l) => held + {l}
        case PutBack(_, s) => held - {s.lease.value}
        case Wrote(_) => held;
      AuditedEvents(t[1..], next, i - 1);
      assert t[..i][0] == t[0] && t[..i][1..] == t[1..][..i - 1];
    }
  }

  ghost function Of(o: Option<Lease>): set<Lease> {
    if o.Some? then {o.value} else {}
  }

  /** The manager's lazily filled table of pools, one per size. */
  class PoolTable {
    var pools: map<int, PoolId>
    var next: PoolId

    ghost predicate Valid()
      reads this
    {
      && (forall n :: n in pools ==> n > 0 && pools[n] < next)
      && (forall m, n :: m in pools && n in pools && m != n ==> pools[m] != pools[n])
    }

    constructor ()
      ensures Valid() && pools == map[]
    {
      pools, next := map[], 0;
    }

    method PoolFor(size: int) returns (p: Option<PoolId>)
      requires Valid()
      modifies this
      ensures Valid()
      ensures size <= 0 ==> p == None && pools == old(pools)
      ensures size > 0 ==> size in pools && p == Some(pools[size])
      ensures forall n :: n in pools && n != size ==> p != Some(pools[n])
      ensures forall n :: n in old(pools) ==> n in pools && pools[n] == old(pools[n])
    {
      if size <= 0 {
        return None;
      }
      if size !in pools {
        pools := pools[size := next];
        next := next + 1;
      }
      p := Some(pools[size]);
    }
  }

  /** A pool pointer and the size it was looked up for, set on the first frame. */
  datatype PoolCache = PoolCache(pool: Option<PoolId>, len: int)
  {
    ghost predicate Agrees(pools: map<int, PoolId>) {
      pool.Some? ==> len in pools && pools[len] == pool.value
    }
  }

  /**
   The cached lookup always returns what the per-size lookup would; another
   route's cache of the same table stays right, because pools are never dropped.
   */
  method CachedPool(table: PoolTable?, cache: PoolCache, size: int) returns (p: Option<PoolId>, cache': PoolCache)
    requires table != null ==> table.Valid() && cache.Agrees(table.pools)
    modifies table
    ensures table != null ==> table.Valid() && cache'.Agrees(table.pools)
    ensures table == null || size <= 0 ==> p == None
    ensures table != null && size > 0 ==> size in table.pools && p == Some(table.pools[size])
    ensures table != null && size > 0 ==> cache' == PoolCache(p, size)
    ensures table != null && cache.pool.Some? && cache.len == size ==> table.pools == old(table.pools)
    ensures table != null ==> forall c: PoolCache :: c.Agrees(old(table.pools)) ==> c.Agrees(table.pools)
  {
    if table == null || size <= 0 {
      return None, cache;
    }
    if cache.pool.Some? && cache.len == size {
      return cache.pool, cache;
    }
    p := table.PoolFor(size);
    cache' := if p.Some? then PoolCache(p, size) else cache;
  }

  /** What the environment decides for one frame. */
  datatype FrameWork = FrameWork(
    dataLen: nat,               // bytes in the frame
    resampleTo: Option<nat>,    // the route has a resampler: its estimate of the output size
    resampled: Option<nat>,     // bytes it produced, or None on error
    processed: bool,            // 16-bit data and an EQ chain or a gain
    converted: bool)            // the conversion back to PCM succeeds
  {
    predicate Valid() {
      resampleTo.Some? && resampled.Some? ==> resampled.value <= resampleTo.value
    }

    /** Resampling and conversion both succeed, as far as they are needed. */
    predicate Succeeds() {
      (resampleTo.Some? ==> resampled.Some?) && (processed ==> converted)
    }

    /** Bytes the consumer receives: processing rounds an odd length down to whole samples. */
    function OutputLen(): nat
      requires Succeeds()
    {
      var n := if resampleTo.Some? then resampled.value else dataLen;
      if processed then n - n % 2 else n
    }
  }

  /** The slice is a whole pooled buffer of this pool. */
  ghost predicate Returnable(s: Slice, pool: PoolId) {
    s.lease.Some? && s.lease.value.pool == pool && s.lease.value.size == s.len == s.cap
  }

  datatype ProcessingResult = Failed | Processed(floats: Option<Lease>, out: Slice, outPool: Option<PoolId>)
  {
    /** Its two buffers are distinct, not among `rest`, and can go back as they are. */
    ghost predicate OwnedApartFrom(rest: set<Lease>)
      requires Processed?
    {
      && (floats.Some? ==> floats.value !in rest && floats.value.kind == Floats)
      && (out.lease.Some? <==> outPool.Some?)
      && (outPool.Some? ==>
            Returnable(out, outPool.value) && out.lease.value !in rest && out.lease.value.kind == Bytes)
    }
  }

  class RouteDrainer {
    const bytePools: PoolTable?
    const floatPools: PoolTable?
    var resampleCache: PoolCache
    var floatCache: PoolCache
    var outCache: PoolCache
    var nextBuf: nat
    var log: seq<Event>
    var received: seq<nat>    // byte counts of the frames the consumer was given

    constructor (bytePools: PoolTable?, floatPools: PoolTable?)
      requires bytePools != null ==> bytePools.Valid()
      requires floatPools != null ==> floatPools.Valid() && floatPools != bytePools
      ensures Valid() && log == [] && received == []
    {
      this.bytePools, this.floatPools := bytePools, floatPools;
      resampleCache, floatCache, outCache := PoolCache(None, 0), PoolCache(None, 0), PoolCache(None, 0);
      nextBuf, log, received := 0, [], [];
    }

    ghost predicate Valid()
      reads this, bytePools, floatPools
    {
      && (floatPools != null ==> floatPools != bytePools)
      && (bytePools != null ==>
            bytePools.Valid() && resampleCache.Agrees(bytePools.pools) && outCache.Agrees(bytePools.pools))
      && (floatPools != null ==> floatPools.Valid() && floatCache.Agrees(floatPools.pools))
    }

    /** Every lease in the set was made before now. */
    ghost predicate Past(held: set<Lease>)
      reads this
    {
      forall l :: l in held ==> l.buf < nextBuf
    }

    method Append(e: Event, ghost start: nat, ghost held: set<Lease>)
      requires start <= |log| && Audit(log[start..], {}) == Some(held)
      modifies this`log
      ensures log == old(log) + [e]
      ensures Audit(log[start..], {}) == Audit([e], held)
    {
      AuditAppend(log[start..], {}, e);
      log := log + [e];
      assert log[start..] == old(log)[start..] + [e];
    }

    /** pool.Get when there is a pool, a plain allocation otherwise. */
    method Obtain(kind: Kind, pool: Option<PoolId>, size: nat, ghost start: nat, ghost held: set<Lease>)
      returns (s: Slice)
      requires start <= |log| && Audit(log[start..], {}) == Some(held) && Past(held)
      modifies this`log, this`nextBuf
      ensures s.len == s.cap == size && (s.lease.Some? <==> pool.Some?)
      ensures s.lease.Some? ==>
                && s.lease.value.kind == kind && s.lease.value.pool == pool.value && s.lease.value.size == size
                && s.lease.value !in held
      ensures start <= |log| && nextBuf > old(nextBuf)
      ensures var now := held + (if s.lease.Some? then {s.lease.value} else {});
              Audit(log[start..], {}) == Some(now) && Past(now)
    {
      if pool.Some? {
        var l := Lease(kind, pool.value, size, nextBuf);
        Append(Got(l), start, held);
        assert [Got(l)][1..] == [];
        nextBuf := nextBuf + 1;
        s := Slice(Some(l), size, size);
      } else {
        nextBuf := nextBuf + 1;
        s := Slice(None, size, size);
        assert held + {} == held;
      }
    }

    method PutTo(pool: PoolId, s: Slice, ghost start: nat, ghost held: set<Lease>)
      requires start <= |log| && Audit(log[start..], {}) == Some(held) && Past(held)
      requires Returnable(s, pool) && s.lease.value in held
      modifies this`log
      ensures start <= |log| && Audit(log[start..], {}) == Some(held - {s.lease.value}) && Past(held - {s.lease.value})
    {
      Append(PutBack(pool, s), start, held);
      assert [PutBack(pool, s)][1..] == [];
    }

    /**
     Takes a float scratch buffer and an output buffer. On a conversion error both
     are back in their pools when it returns; on success the caller owns them.
     */
    method ApplyProcessing(dataLen: nat, converted: bool, ghost start: nat, ghost held: set<Lease>)
      returns (res: ProcessingResult)
      requires Valid() && start <= |log| && Audit(log[start..], {}) == Some(held) && Past(held)
      modifies this`log, this`nextBuf, this`floatCache, this`outCache, bytePools, floatPools
      ensures Valid() && start <= |log|
      ensures res.Failed? <==> !converted
      ensures res.Processed? ==> res.out.Fits() && res.out.len == dataLen - dataLen % 2
      ensures res.Processed? && res.floats.Some? ==> 2 * res.floats.value.size == res.out.len
      ensures res.Processed? ==> (res.floats.Some? <==> floatPools != null && dataLen >= 2)
      ensures res.Processed? ==> (res.out.lease.Some? <==> bytePools != null && dataLen >= 2)
      ensures res.Failed? ==> Audit(log[start..], {}) == Some(held) && Past(held)
      ensures res.Processed? ==>
                var now := held + Of(res.floats) + Of(res.out.lease);
                && Audit(log[start..], {}) == Some(now) && Past(now)
                && res.OwnedApartFrom(held)
    {
      var sampleCount := dataLen / 2;
      var floatPool, outPool: Option<PoolId>;
      floatPool, floatCache := CachedPool(floatPools, floatCache, sampleCount);
      var outLen := sampleCount * 2;
      var floats := Obtain(Floats, floatPool, sampleCount, start, held);
      ghost var held1 := held + Of(floats.lease);
      outPool, outCache := CachedPool(bytePools, outCache, outLen);
      var out := Obtain(Bytes, outPool, outLen, start, held1);
      ghost var held2 := held1 + Of(out.lease);
      if converted {
        return Processed(floats.lease, out, outPool);
      }
      if floatPool.Some? {
        PutTo(floatPool.value, floats, start, held2);
        held2 := held2 - {floats.lease.value};
      }
      if outPool.Some? {
        PutTo(outPool.value, out, start, held2);
        held2 := held2 - {out.lease.value};
      }
      assert held2 == held;
      return Failed;
    }

    /** Takes the resample buffer; on a resampler error it is back before the frame is given up. */
    method Resample(outSize: nat, resampled: Option<nat>, ghost start: nat)
      returns (pool: Option<PoolId>, buf: Slice)
      requires Valid() && start <= |log| && Audit(log[start..], {}) == Some({})
      modifies this`log, this`nextBuf, this`resampleCache, bytePools
      ensures Valid() && start <= |log|
      ensures var held := if resampled.Some? then Of(buf.lease) else {};
              Audit(log[start..], {}) == Some(held) && Past(held)
      ensures (buf.lease.Some? <==> pool.Some?) && (pool.Some? ==> Returnable(buf, pool.value))
      ensures pool.Some? <==> bytePools != null && outSize > 0
      ensures buf.len == buf.cap == outSize
    {
      pool, resampleCache := CachedPool(bytePools, resampleCache, outSize);
      buf := Obtain(Bytes, pool, outSize, start, {});
      assert {} + Of(buf.lease) == Of(buf.lease);
      if resampled.None? && pool.Some? {
        PutTo(pool.value, buf, start, Of(buf.lease));
        assert Of(buf.lease) - {buf.lease.value} == {};
      }
    }

    /** processingResult.release: both buffers back to their pools. */
    method ReleaseProcessing(res: ProcessingResult, ghost start: nat, ghost rest: set<Lease>)
      requires res.Processed? && res.OwnedApartFrom(rest)
      requires var held := rest + Of(res.floats) + Of(res.out.lease);
               start <= |log| && Audit(log[start..], {}) == Some(held) && Past(held)
      modifies this`log
      ensures start <= |log| && Audit(log[start..], {}) == Some(rest)
    {
      ghost var held := rest + Of(res.floats) + Of(res.out.lease);
      if res.floats.Some? {
        PutTo(res.floats.value.pool, Slice(res.floats, res.floats.value.size, res.floats.value.size), start, held);
        held := held - {res.floats.value};
      }
      if res.outPool.Some? {
        PutTo(res.outPool.value, res.out, start, held);
        held := held - {res.out.lease.value};
      }
      assert held == rest;
    }

    method Write(data: Slice, ghost start: nat, ghost held: set<Lease>)
      requires start <= |log| && Audit(log[start..], {}) == Some(held) && Past(held)
      requires data.lease.Some? ==> data.lease.value in held
      requires data.Fits()
      modifies this`log, this`received
      ensures start <= |log| && Audit(log[start..], {}) == Some(held) && Past(held)
      ensures received == old(received) + [data.len]
    {
      received := received + [data.len];
      Append(Wrote(data), start, held);
      assert [Wrote(data)][1..] == [];
    }

    /**
     On every path, error or not, each pooled buffer taken for this frame goes
     back to its own pool exactly once, at full length, and the slice the consumer
     reads is still on loan when Write runs. The consumer is reached exactly when
     neither resampling nor conversion failed.
     */
    method HandleRouteFrame(w: FrameWork) returns (written: bool)
      requires Valid() && w.Valid()
      modifies this`log, this`received, this`nextBuf
      modifies this`resampleCache, this`floatCache, this`outCache, bytePools, floatPools
      ensures Valid()
      ensures |old(log)| <= |log| && Audit(log[|old(log)|..], {}) == Some({})
      ensures written <==> w.Succeeds()
      ensures received == old(received) + if written then [w.OutputLen()] else []
    {
      ghost var start := |log|;
      ghost var held: set<Lease> := {};
      var resamplePool: Option<PoolId> := None;
      var resampleBuf := Slice(None, 0, 0);
      var data := Slice(None, w.dataLen, w.dataLen);

      if w.resampleTo.Some? {
        resamplePool, resampleBuf := Resample(w.resampleTo.value, w.resampled, start);
        if w.resampled.None? {
          return false;
        }
        held := Of(resampleBuf.lease);
        data := resampleBuf.(len := w.resampled.value);
      }

      var result := Failed;
      if w.processed {
        result := ApplyProcessing(data.len, w.converted, start, held);
        if result.Processed? {
          held := held + Of(result.floats) + Of(result.out.lease);
        }
        if resamplePool.Some? {
          PutTo(resamplePool.value, resampleBuf, start, held);
          held := held - {resampleBuf.lease.value};
          resamplePool := None;
        }
        if result.Failed? {
          assert held == {};
          return false;
        }
        assert held == {} + Of(result.floats) + Of(result.out.lease);
        data := result.out;
      }

      Write(data, start, held);

      if result.Processed? {
        ReleaseProcessing(result, start, {});
        held := {};
      }
      if resamplePool.Some? {
        PutTo(resamplePool.value, resampleBuf, start, held);
        held := held - {resampleBuf.lease.value};
      }
      assert held == {};
      return true;
    }
  }
}
