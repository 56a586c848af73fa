/**
 The sound-level part of the audio pipeline service as one goroutine runs it:
 the tracking map and the router table it mirrors. SoundLevelProtocol covers the
 interleavings.
 */
module SoundLevelService {
  import opened Router

  const CONSUMER_PREFIX: string := "soundlevel_"

  function ConsumerId(sid: string): string {
    CONSUMER_PREFIX + sid
  }

  /** Sources never share a sound-level consumer, as the router asks of consumer ids. */
  lemma ConsumerIdsDiffer(sid: string, sid': string)
    requires sid != sid'
    ensures ConsumerId(sid) != ConsumerId(sid')
  {
    assert ConsumerId(sid)[|CONSUMER_PREFIX|..] == sid && ConsumerId(sid')[|CONSUMER_PREFIX|..] == sid';
  }

  class AudioPipelineService {
    const router: AudioRouter
    var enabled: bool
    var soundLevelConsumers: map<string, string>

    constructor (router: AudioRouter)
      ensures this.router == router && !enabled && soundLevelConsumers == map[]
    {
      this.router := router;
      enabled, soundLevelConsumers := false, map[];
    }

    /** The map and the router agree on which sources have a sound-level consumer. */
    ghost predicate Synced()
      reads this, router
    {
      && router.Valid()
      && (forall sid :: sid in soundLevelConsumers <==> router.Linked(sid, ConsumerId(sid)))
      && (forall sid :: sid in soundLevelConsumers ==> soundLevelConsumers[sid] == ConsumerId(sid))
    }

    /** Subscriptions other than sound-level ones. */
    ghost predicate OtherLinked(sid: string, consumer: string)
      reads this, router
    {
      consumer != ConsumerId(sid) && router.Linked(sid, consumer)
    }

    /**
     A no-op while the feature is off. Otherwise every listed source that is not
     tracked yet and whose processor can be built gets one route and one entry;
     listing a source twice, or one that is tracked, changes nothing for it.
     */
    method RegisterSoundLevelConsumers(sids: seq<string>, buildable: set<string>)
      requires Synced()
      modifies this`soundLevelConsumers, router
      ensures Synced() && router.cancelled == old(router.cancelled)
      ensures forall sid :: sid in soundLevelConsumers <==>
                sid in old(soundLevelConsumers)
                || (enabled && !old(router.cancelled) && sid in sids && sid in buildable)
      ensures forall sid, c :: OtherLinked(sid, c) <==> old(OtherLinked(sid, c))
    {
      if !enabled {
        return;
      }
      var i := 0;
      while i < |sids|
        invariant 0 <= i <= |sids|
        invariant Synced() && router.cancelled == old(router.cancelled)
        invariant forall sid :: sid in soundLevelConsumers <==>
                    sid in old(soundLevelConsumers)
                    || (!old(router.cancelled) && sid in sids[..i] && sid in buildable)
        invariant forall sid, c :: OtherLinked(sid, c) <==> old(OtherLinked(sid, c))
      {
        var sid := sids[i];
        assert sids[..i + 1] == sids[..i] + [sid];
        if sid !in soundLevelConsumers && sid in buildable {
          var res := router.AddRoute(sid, ConsumerId(sid), true, true);
          if res.Added? {
            soundLevelConsumers := soundLevelConsumers[sid := ConsumerId(sid)];
          }
        }
        i := i + 1;
      }
      assert sids[..i] == sids;
    }

    /** Takes the map and removes the route of every entry it held; other subscriptions stay. */
    method RemoveAllSoundLevelConsumers()
      requires Synced()
      modifies this`soundLevelConsumers, router`routes
      ensures Synced() && soundLevelConsumers == map[]
      ensures forall sid :: !router.Linked(sid, ConsumerId(sid))
      ensures forall sid, c :: OtherLinked(sid, c) <==> old(OtherLinked(sid, c))
    {
      var toRemove := soundLevelConsumers;
      soundLevelConsumers := map[];
      var left := toRemove.Keys;
      while left != {}
        invariant left <= toRemove.Keys
        invariant router.Valid() && soundLevelConsumers == map[]
        invariant forall sid :: router.Linked(sid, ConsumerId(sid)) <==> sid in left
        invariant forall sid, c :: OtherLinked(sid, c) <==> old(OtherLinked(sid, c))
        decreases |left|
      {
        var sid :| sid in left;
        var removed := router.RemoveRoute(sid, toRemove[sid]);
        left := left - {sid};
      }
      assert forall sid :: !router.Linked(sid, ConsumerId(sid));
    }

    /** The caller has removed the source's routes already, so dropping the entry restores agreement. */
    method UntrackSoundLevelConsumer(sid: string)
      requires router.Valid() && !router.Linked(sid, ConsumerId(sid))
      requires forall x :: x != sid ==> (x in soundLevelConsumers <==> router.Linked(x, ConsumerId(x)))
      requires forall x :: x in soundLevelConsumers ==> soundLevelConsumers[x] == ConsumerId(x)
      modifies this`soundLevelConsumers
      ensures Synced() && soundLevelConsumers == old(soundLevelConsumers) - {sid}
    {
      soundLevelConsumers := soundLevelConsumers - {sid};
    }

    /** Hot reload: afterwards exactly the active buildable sources are metered, or none when switched off. */
    method ReconfigureSoundLevel(active: seq<string>, buildable: set<string>)
      requires Synced()
      modifies this`soundLevelConsumers, router
      ensures Synced()
      ensures forall sid :: router.Linked(sid, ConsumerId(sid)) <==>
                enabled && !old(router.cancelled) && sid in active && sid in buildable
      ensures forall sid, c :: OtherLinked(sid, c) <==> old(OtherLinked(sid, c))
    {
      RemoveAllSoundLevelConsumers();
      if enabled {
        RegisterSoundLevelConsumers(active, buildable);
      }
    }
  }
}
