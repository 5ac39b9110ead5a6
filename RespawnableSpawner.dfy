/**
 * Respawnable spawners (RespawnableSpawnerSystem.cs). A spawner spawns one of
 * its prototypes at map init. When an entity it spawned terminates, the
 * spawner records a respawn time for it. Each tick makes one spawn attempt
 * per recorded time that has passed, then drops those entries, whether the
 * spawn worked or not.
 *
 * Spawning is the host's: an attempt is recorded as its outcome, and whether
 * the host's spawn throws is a parameter.
 */
module RespawnableSpawner {
  import opened Wrappers
  import HostRandom

  type EntityId = int

  /** A spawned entity and the `SpawnedByComponent.Spawner` it is tagged with. */
  datatype SpawnedEntity = SpawnedEntity(prototype: string, spawner: EntityId)

  /** One spawn attempt of `Update` for a respawn entry; `spawned` is None when it threw. */
  datatype Attempt = Attempt(entity: EntityId, spawned: Option<SpawnedEntity>)

  /**
   * The attempt for `entity`, with the prototype index drawn for it and
   * whether the host's spawn throws. An index out of range (no prototypes)
   * throws as well.
   */
  function AttemptFor(entity: EntityId, prototypes: seq<string>, spawner: EntityId,
                      pick: EntityId -> int, fails: EntityId -> bool): (a: Attempt)
    ensures a.entity == entity
    ensures a.spawned.Some? <==> 0 <= pick(entity) < |prototypes| && !fails(entity)
    ensures a.spawned.Some? ==> a.spawned.value == SpawnedEntity(prototypes[pick(entity)], spawner)
  {
    if 0 <= pick(entity) < |prototypes| && !fails(entity) then
      Attempt(entity, Some(SpawnedEntity(prototypes[pick(entity)], spawner)))
    else
      Attempt(entity, None)
  }

  function AttemptsFor(entities: seq<EntityId>, prototypes: seq<string>, spawner: EntityId,
                       pick: EntityId -> int, fails: EntityId -> bool): (r: seq<Attempt>)
    ensures |r| == |entities|
    ensures forall i :: 0 <= i < |entities| ==> r[i] == AttemptFor(entities[i], prototypes, spawner, pick, fails)
  {
    seq(|entities|, i requires 0 <= i < |entities| => AttemptFor(entities[i], prototypes, spawner, pick, fails))
  }

  /** The entries of `timers` met, in enumeration order `order`, whose time has come. */
  function Expired(order: seq<EntityId>, timers: map<EntityId, real>, now: real): seq<EntityId>
  {
    if |order| == 0 then []
    else
      var e := order[|order| - 1];
      Expired(order[..|order| - 1], timers, now) + (if e in timers && now >= timers[e] then [e] else [])
  }

  /** The timers still waiting at `now`. */
  function Pending(timers: map<EntityId, real>, now: real): map<EntityId, real>
  {
    map e | e in timers && timers[e] > now :: timers[e]
  }

  /** `order` lists each key of `timers` once: how a dictionary enumerates. */
  ghost predicate Enumerates(order: seq<EntityId>, timers: map<EntityId, real>)
  {
    && (forall e :: e in timers <==> e in order)
    && (forall i, j :: 0 <= i < j < |order| ==> order[i] != order[j])
  }

  /** An entity is in `Expired` once if its entry is listed and due, and not at all otherwise. */
  lemma {:induction false} ExpiredOnce(order: seq<EntityId>, timers: map<EntityId, real>, now: real, e: EntityId)
    requires forall i, j :: 0 <= i < j < |order| ==> order[i] != order[j]
    ensures multiset(Expired(order, timers, now))[e] ==
            if e in order && e in timers && now >= timers[e] then 1 else 0
  {
    if |order| > 0 {
      var front := order[..|order| - 1];
      ExpiredOnce(front, timers, now, e);
      assert order == front + [order[|order| - 1]];
      assert e in order <==> e in front || e == order[|order| - 1];
      if e == order[|order| - 1] {
        assert e !in front;
      }
    }
  }

  /**
   * Over a full enumeration, `Update` attempts every due entry exactly once,
   * attempts nothing else, and exactly the attempted entries leave the table.
   */
  lemma ExpiredAreRemoved(order: seq<EntityId>, timers: map<EntityId, real>, now: real)
    requires Enumerates(order, timers)
    ensures forall e :: multiset(Expired(order, timers, now))[e] == if e in timers && now >= timers[e] then 1 else 0
    ensures forall e :: e in timers && e !in Pending(timers, now) <==> e in Expired(order, timers, now)
    ensures forall e :: e in Pending(timers, now) ==> e in timers && Pending(timers, now)[e] == timers[e]
    ensures Pending(timers, now) == map e | e in timers && e !in Expired(order, timers, now) :: timers[e]
  {
    ExpiredCounts(order, timers, now);
    PendingAreKept(timers, now, Expired(order, timers, now));
  }

  /** Each due entry is in `Expired` once, and nothing else is in it. */
  lemma ExpiredCounts(order: seq<EntityId>, timers: map<EntityId, real>, now: real)
    requires Enumerates(order, timers)
    ensures forall e :: multiset(Expired(order, timers, now))[e] == if e in timers && now >= timers[e] then 1 else 0
    ensures forall e :: e in Expired(order, timers, now) <==> e in timers && now >= timers[e]
  {
    var expired := Expired(order, timers, now);
    forall e
      ensures multiset(expired)[e] == if e in timers && now >= timers[e] then 1 else 0
      ensures e in expired <==> e in timers && now >= timers[e]
    {
      ExpiredOnce(order, timers, now, e);
      assert e in expired <==> e in multiset(expired);
    }
  }

  /** Removing exactly the due entries leaves the pending ones. */
  lemma PendingAreKept(timers: map<EntityId, real>, now: real, expired: seq<EntityId>)
    requires forall e :: e in expired <==> e in timers && now >= timers[e]
    ensures forall e :: e in timers && e !in Pending(timers, now) <==> e in expired
    ensures forall e :: e in Pending(timers, now) ==> e in timers && Pending(timers, now)[e] == timers[e]
    ensures Pending(timers, now) == map e | e in timers && e !in expired :: timers[e]
  {
    var kept := map e | e in timers && e !in expired :: timers[e];
    assert forall e :: e in Pending(timers, now) <==> e in kept;
  }

  /** The delay drawn for a respawn lies between MinDelay and MaxDelay. */
  lemma RespawnDelayBounds(minDelay: real, maxDelay: real, u: real)
    requires HostRandom.IsUnitDraw(u) && minDelay <= maxDelay
    ensures minDelay <= HostRandom.NextFloat(minDelay, maxDelay, u) <= maxDelay
    ensures minDelay < maxDelay ==> HostRandom.NextFloat(minDelay, maxDelay, u) < maxDelay
  {
    var d := maxDelay - minDelay;
    assert HostRandom.NextFloat(minDelay, maxDelay, u) == minDelay + d * u;
    assert d * u >= 0.0;
    assert d - d * u == d * (1.0 - u);
    if d > 0.0 {
      assert d * (1.0 - u) > 0.0;
    } else {
      assert d * (1.0 - u) == 0.0;
    }
  }

  class Spawner {
    const uid: EntityId
    var prototypes: seq<string>
    var minDelay: real
    var maxDelay: real
    var respawnTimers: map<EntityId, real>

    constructor (uid: EntityId, prototypes: seq<string>, minDelay: real, maxDelay: real)
      ensures this.uid == uid && this.prototypes == prototypes
      ensures this.minDelay == minDelay && this.maxDelay == maxDelay
      ensures respawnTimers == map[]
    {
      this.uid := uid;
      this.prototypes := prototypes;
      this.minDelay := minDelay;
      this.maxDelay := maxDelay;
      respawnTimers := map[];
    }

    /** `OnMapInit`: one entity of the drawn prototype, tagged with this spawner, unless there are no prototypes. */
    method OnMapInit(pick: int) returns (spawned: Option<SpawnedEntity>)
      requires HostRandom.IsNextDraw(0, |prototypes|, pick)
      ensures spawned.Some? <==> |prototypes| > 0
      ensures spawned.Some? ==> spawned.value.spawner == uid && spawned.value.prototype in prototypes
      ensures spawned.Some? ==> spawned.value.prototype == prototypes[pick]
    {
      spawned := None;
      if |prototypes| > 0 {
        spawned := Some(SpawnedEntity(prototypes[pick], uid));
      }
    }

    /** A spawned entity terminated at `now`: its respawn time is now plus a delay drawn in [MinDelay, MaxDelay]. */
    method RecordTermination(entity: EntityId, now: real, u: real)
      requires HostRandom.IsUnitDraw(u)
      modifies this
      ensures respawnTimers == old(respawnTimers)[entity := now + HostRandom.NextFloat(minDelay, maxDelay, u)]
      ensures prototypes == old(prototypes) && minDelay == old(minDelay) && maxDelay == old(maxDelay)
    {
      var delay := HostRandom.NextFloat(minDelay, maxDelay, u);
      var respawnTime := now + delay;
      respawnTimers := respawnTimers[entity := respawnTime];
    }

    /**
     * `Update` for this spawner at time `now`, enumerating its timers in
     * `order`, with the prototype index drawn for each attempt and whether
     * the host's spawn throws.
     */
    method Update(now: real, order: seq<EntityId>, pick: EntityId -> int, fails: EntityId -> bool)
      returns (attempts: seq<Attempt>)
      requires Enumerates(order, respawnTimers)
      requires forall e :: HostRandom.IsNextDraw(0, |prototypes|, pick(e))
      modifies this
      ensures respawnTimers == Pending(old(respawnTimers), now)
      ensures attempts == AttemptsFor(Expired(order, old(respawnTimers), now), prototypes, uid, pick, fails)
      ensures prototypes == old(prototypes) && minDelay == old(minDelay) && maxDelay == old(maxDelay)
    {
      var toRemove;
      toRemove, attempts := AttemptDue(now, order, pick, fails);
      ExpiredAreRemoved(order, respawnTimers, now);
      RemoveAll(toRemove);
    }

    /** The enumeration of `Update`: one attempt per due entry, collecting those entries to remove. */
    method AttemptDue(now: real, order: seq<EntityId>, pick: EntityId -> int, fails: EntityId -> bool)
      returns (toRemove: seq<EntityId>, attempts: seq<Attempt>)
      requires forall e :: e in order ==> e in respawnTimers
      ensures toRemove == Expired(order, respawnTimers, now)
      ensures attempts == AttemptsFor(toRemove, prototypes, uid, pick, fails)
    {
      toRemove, attempts := [], [];
      var i := 0;
      while i < |order|
        invariant 0 <= i <= |order|
        invariant toRemove == Expired(order[..i], respawnTimers, now)
        invariant attempts == AttemptsFor(toRemove, prototypes, uid, pick, fails)
      {
        var entity := order[i];
        var respawnTime := respawnTimers[entity];
        if now >= respawnTime {
          attempts := attempts + [AttemptFor(entity, prototypes, uid, pick, fails)];
          toRemove := toRemove + [entity];
        }
        assert order[..i + 1][..i] == order[..i];
        i := i + 1;
      }
      assert order[..|order|] == order;
    }

    /** The removal loop of `Update`. */
    method RemoveAll(toRemove: seq<EntityId>)
      modifies this
      ensures respawnTimers == map e | e in old(respawnTimers) && e !in toRemove :: old(respawnTimers)[e]
      ensures prototypes == old(prototypes) && minDelay == old(minDelay) && maxDelay == old(maxDelay)
    {
      var j := 0;
      while j < |toRemove|
        invariant 0 <= j <= |toRemove|
        invariant respawnTimers == map e | e in old(respawnTimers) && e !in toRemove[..j] :: old(respawnTimers)[e]
        invariant prototypes == old(prototypes) && minDelay == old(minDelay) && maxDelay == old(maxDelay)
      {
        assert forall e :: e in toRemove[..j + 1] <==> e in toRemove[..j] || e == toRemove[j];
        respawnTimers := respawnTimers - {toRemove[j]};
        j := j + 1;
      }
      assert toRemove[..|toRemove|] == toRemove;
    }
  }

  /**
   * `OnEntityTerminating` for an entity tagged with a spawner: `found` is the
   * spawner's component if the tagged entity still has one. Without it only a
   * warning is logged.
   */
  method OnEntityTerminating(found: Option<Spawner>, entity: EntityId, now: real, u: real) returns (warned: bool)
    requires HostRandom.IsUnitDraw(u)
    modifies if found.Some? then {found.value} else {}
    ensures warned <==> found.None?
    ensures found.Some? ==>
      found.value.respawnTimers == old(found.value.respawnTimers)[entity := now + HostRandom.NextFloat(found.value.minDelay, found.value.maxDelay, u)]
  {
    if found.Some? {
      found.value.RecordTermination(entity, now, u);
      warned := false;
    } else {
      warned := true;
    }
  }
}
