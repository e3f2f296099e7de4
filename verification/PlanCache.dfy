/** The plan cache: a bounded map from query keys to plans with an age limit, an
    idle limit, periodic cleanup and eviction of the least recently used entry.
    Time is a whole number of seconds passed to each operation; the ghost fields
    record what the whole run has done. */
module PlanCache {
  import opened Values

  datatype CachedPlan<P> = CachedPlan(plan: P, createdAt: int, usageCount: nat, lastUsed: int, cost: real)

  datatype Config = Config(maxSize: nat, maxAge: int, maxUnused: int, cleanupInterval: nat)

  datatype Stats = Stats(size: nat, maxSize: nat, totalUsage: nat, hits: nat, misses: nat, evictions: nat, expirations: nat)

  type Entries<P> = map<string, CachedPlan<P>>

  predicate IsExpired<P>(e: CachedPlan<P>, maxAge: int, now: int) {
    now - e.createdAt > maxAge
  }

  predicate IsStale<P>(e: CachedPlan<P>, maxUnused: int, now: int) {
    now - e.lastUsed > maxUnused
  }

  predicate Doomed<P>(e: CachedPlan<P>, c: Config, now: int) {
    IsExpired(e, c.maxAge, now) || IsStale(e, c.maxUnused, now)
  }

  function Max(a: int, b: int): int {
    if a < b then b else a
  }

  // ----- facts about maps -----

  lemma {:induction false} SizeAfterRemoval<P>(m: Entries<P>, k: string)
    ensures |m - {k}| == if k in m then |m| - 1 else |m|
  {
    assert (m - {k}).Keys == m.Keys - {k};
  }

  lemma {:induction false} SizeAfterInsert<P>(m: Entries<P>, k: string, e: CachedPlan<P>)
    ensures |m[k := e]| == if k in m then |m| else |m| + 1
  {
    assert m[k := e].Keys == m.Keys + {k};
  }

  /** Some entry is least recently used, unless the cache is empty. */
  ghost predicate LeastRecentlyUsed<P>(m: Entries<P>, k: string) {
    k in m && forall j | j in m :: m[k].lastUsed <= m[j].lastUsed
  }

  method FindLru<P>(m: Entries<P>) returns (k: Option<string>)
    ensures k.None? <==> m == map[]
    ensures k.Some? ==> LeastRecentlyUsed(m, k.value)
  {
    k := None;
    var left := m.Keys;
    while left != {}
      invariant left <= m.Keys
      invariant k.None? <==> left == m.Keys
      invariant k.Some? ==> k.value in m && forall j | j in m && j !in left :: m[k.value].lastUsed <= m[j].lastUsed
    {
      var j :| j in left;
      left := left - {j};
      if k.None? || m[j].lastUsed < m[k.value].lastUsed { k := Some(j); }
    }
  }

  /** The expired and the stale keys, in whatever order the map yields them. */
  method CollectDoomed<P>(m: Entries<P>, c: Config, now: int) returns (doomed: seq<string>)
    ensures forall k :: k in doomed <==> k in m && Doomed(m[k], c, now)
    ensures NoRepeats(doomed)
  {
    doomed := [];
    var left := m.Keys;
    while left != {}
      invariant left <= m.Keys
      invariant forall k :: k in doomed <==> k in m && k !in left && Doomed(m[k], c, now)
      invariant NoRepeats(doomed)
    {
      var k :| k in left;
      left := left - {k};
      if Doomed(m[k], c, now) { doomed := doomed + [k]; }
    }
  }

  predicate NoRepeats(keys: seq<string>) {
    forall i, j | 0 <= i < j < |keys| :: keys[i] != keys[j]
  }

  /** `rest` is `m` without `keys`. */
  ghost predicate Without<P>(m: Entries<P>, keys: seq<string>, rest: Entries<P>) {
    rest == m - (set k | k in keys) && |rest| == |m| - |keys|
  }

  lemma {:induction false} WithoutNone<P>(m: Entries<P>)
    ensures Without(m, [], m)
  {
    var none: seq<string> := [];
    assert (set k | k in none) == {};
    assert m - {} == m;
  }

  lemma {:induction false} WithoutOneMore<P>(m: Entries<P>, keys: seq<string>, k: string, rest: Entries<P>)
    requires Without(m, keys, rest) && k in m && k !in keys
    ensures Without(m, keys + [k], rest - {k})
  {
    SizeAfterRemoval(rest, k);
    assert (set j | j in keys + [k]) == (set j | j in keys) + {k};
    assert m - ((set j | j in keys) + {k}) == rest - {k};
  }

  lemma {:induction false} NextKey(keys: seq<string>, i: nat)
    requires NoRepeats(keys) && i < |keys|
    ensures keys[i] in keys && keys[i] !in keys[..i] && keys[..i + 1] == keys[..i] + [keys[i]]
  {
  }

  method RemoveAll<P>(m: Entries<P>, keys: seq<string>) returns (m': Entries<P>)
    requires NoRepeats(keys) && forall k | k in keys :: k in m
    ensures m' == m - (set k | k in keys) && |m'| == |m| - |keys|
  {
    m' := m;
    WithoutNone(m);
    for i := 0 to |keys|
      invariant Without(m, keys[..i], m')
    {
      NextKey(keys, i);
      WithoutOneMore(m, keys[..i], keys[i], m');
      m' := m' - {keys[i]};
    }
    assert keys[..|keys|] == keys;
  }

  // ----- the invariant of a run -----

  /** Every entry holds the last plan put under its key. */
  ghost predicate HoldsLastPut<P(!new)>(m: Entries<P>, lastPut: map<string, P>) {
    forall k | k in m :: k in lastPut && m[k].plan == lastPut[k]
  }

  /** At the last cleanup no entry was older or longer idle than allowed. */
  ghost predicate WithinLimits<P(!new)>(m: Entries<P>, lastCleanup: int, ageCap: int, idleCap: int, clock: int) {
    forall k | k in m ::
      && lastCleanup - m[k].createdAt <= ageCap && m[k].createdAt <= clock
      && lastCleanup - m[k].lastUsed <= idleCap && m[k].createdAt <= m[k].lastUsed <= clock
  }

  ghost function Surviving<P(!new)>(m: Entries<P>, c: Config, now: int): Entries<P> {
    map k | k in m && !Doomed(m[k], c, now) :: m[k]
  }

  /** What a lookup or insertion at time `now` finds in the cache. */
  ghost function Cleaned<P(!new)>(m: Entries<P>, lastCleanup: int, c: Config, now: int): Entries<P> {
    if now - lastCleanup >= c.cleanupInterval then Surviving(m, c, now) else m
  }

  /** A cleanup that is due keeps exactly the entries neither older nor longer idle
      than allowed, unchanged; one that is not due keeps all. */
  lemma {:induction false} CleanedMeans<P(!new)>(m: Entries<P>, lastCleanup: int, c: Config, now: int, k: string)
    ensures k in Cleaned(m, lastCleanup, c, now) <==>
      k in m && (now - lastCleanup >= c.cleanupInterval ==> now - m[k].createdAt <= c.maxAge && now - m[k].lastUsed <= c.maxUnused)
    ensures k in Cleaned(m, lastCleanup, c, now) ==> Cleaned(m, lastCleanup, c, now)[k] == m[k]
  {
  }

  method Expire<P(!new)>(m: Entries<P>, c: Config, now: int) returns (rest: Entries<P>, count: nat)
    ensures rest == Surviving(m, c, now) && |rest| == |m| - count
    ensures forall k :: k in rest <==> k in m && now - m[k].createdAt <= c.maxAge && now - m[k].lastUsed <= c.maxUnused
    ensures forall k | k in rest :: rest[k] == m[k]
  {
    var doomed := CollectDoomed(m, c, now);
    rest := RemoveAll(m, doomed);
    count := |doomed|;
  }

  lemma {:induction false} AfterCleanup<P(!new)>(m: Entries<P>, c: Config, now: int, lastPut: map<string, P>,
      lastCleanup: int, ageCap: int, idleCap: int, clock: int)
    requires HoldsLastPut(m, lastPut) && c.maxAge <= ageCap && c.maxUnused <= idleCap
    requires WithinLimits(m, lastCleanup, ageCap, idleCap, clock) && clock <= now
    ensures HoldsLastPut(Surviving(m, c, now), lastPut)
    ensures WithinLimits(Surviving(m, c, now), now, ageCap, idleCap, now)
  {
  }

  lemma {:induction false} LaterClock<P(!new)>(m: Entries<P>, lastCleanup: int, ageCap: int, idleCap: int, clock: int, now: int)
    requires WithinLimits(m, lastCleanup, ageCap, idleCap, clock) && clock <= now
    ensures WithinLimits(m, lastCleanup, ageCap, idleCap, now)
  {
  }

  lemma {:induction false} WiderLimits<P(!new)>(m: Entries<P>, lastCleanup: int, ageCap: int, idleCap: int, clock: int, ageCap': int, idleCap': int)
    requires WithinLimits(m, lastCleanup, ageCap, idleCap, clock) && ageCap <= ageCap' && idleCap <= idleCap'
    ensures WithinLimits(m, lastCleanup, ageCap', idleCap', clock)
  {
  }

  lemma {:induction false} AfterStore<P(!new)>(m: Entries<P>, k: string, e: CachedPlan<P>, lastCleanup: int, ageCap: int, idleCap: int, clock: int)
    requires WithinLimits(m, lastCleanup, ageCap, idleCap, clock)
    requires lastCleanup - e.createdAt <= ageCap && lastCleanup - e.lastUsed <= idleCap && e.createdAt <= e.lastUsed <= clock
    ensures WithinLimits(m[k := e], lastCleanup, ageCap, idleCap, clock)
    ensures |m[k := e]| == if k in m then |m| else |m| + 1
  {
    SizeAfterInsert(m, k, e);
  }

  /** `after` is `before` less some entries, none used later than one that stays. */
  ghost predicate Shrunk<P(!new)>(before: Entries<P>, after: Entries<P>) {
    && after.Keys <= before.Keys && (forall k | k in after :: after[k] == before[k])
    && forall k, j | k in after && j in before && j !in after :: before[j].lastUsed <= after[k].lastUsed
  }

  lemma {:induction false} ShrunkByOne<P(!new)>(before: Entries<P>, m: Entries<P>, k: string)
    requires Shrunk(before, m) && LeastRecentlyUsed(m, k)
    ensures Shrunk(before, m - {k})
  {
  }

  /** `kept` is `m`, less one least recently used entry if `m` was full. */
  ghost predicate RoomMade<P(!new)>(m: Entries<P>, maxSize: nat, kept: Entries<P>) {
    if |m| < maxSize then kept == m else exists k :: LeastRecentlyUsed(m, k) && kept == m - {k}
  }

  /** Room is made in `m`, then the entry goes in, replacing the one under its key. */
  ghost predicate Stored<P(!new)>(m: Entries<P>, maxSize: nat, key: string, e: CachedPlan<P>, after: Entries<P>, replaced: Option<P>) {
    exists kept: Entries<P> ::
      && RoomMade(m, maxSize, kept) && after == kept[key := e]
      && replaced == if key in kept then Some(kept[key].plan) else None
  }

  lemma {:induction false} AfterPut<P(!new)>(m: Entries<P>, lastCleanup: int, c: Config, now: int, key: string, e: CachedPlan<P>,
      after: Entries<P>, replaced: Option<P>)
    requires Stored(Cleaned(m, lastCleanup, c, now), c.maxSize, key, e, after, replaced)
    ensures key in after && forall k | k in after && k != key ::
      && k in m && after[k] == m[k]
      && (now - lastCleanup >= c.cleanupInterval ==> now - after[k].createdAt <= c.maxAge && now - after[k].lastUsed <= c.maxUnused)
  {
    forall k | k in after && k != key ensures k in Cleaned(m, lastCleanup, c, now) && after[k] == Cleaned(m, lastCleanup, c, now)[k] {}
  }

  /** The statistics add up. */
  ghost predicate Tallied(stats: Stats, size: nat, maxSize: nat, inserted: nat, removed: nat, lookups: nat) {
    && stats.size == size && stats.maxSize == maxSize
    && inserted == size + stats.evictions + stats.expirations + removed
    && stats.hits + stats.misses == lookups && stats.totalUsage == stats.hits
  }

  /** The evictions that making room in `size` entries takes. */
  ghost function Evictions(size: nat, maxSize: nat): nat {
    if 0 < maxSize <= size then 1 else 0
  }

  ghost predicate Capped(config: Config, ageCap: int, idleCap: int) {
    0 <= ageCap && 0 <= idleCap && config.maxAge <= ageCap && config.maxUnused <= idleCap
  }

  class PlanCache<P(!new)> {
    var cache: Entries<P>
    var config: Config
    var stats: Stats
    var lastCleanup: int

    ghost var clock: int                    // the latest time seen
    ghost var lastPut: map<string, P>       // the last plan put under each key
    ghost var inserted: nat                 // insertions under a key that was absent
    ghost var removed: nat                  // entries taken out by remove and clear
    ghost var lookups: nat                  // calls of get
    ghost var ageCap: int                   // largest age limit configured so far, at least 0
    ghost var idleCap: int                  // largest idle limit configured so far, at least 0

    /** Sizes add up and limits were met at the last cleanup. */
    ghost predicate Bookkept()
      reads this
    {
      && Tallied(stats, |cache|, config.maxSize, inserted, removed, lookups)
      && lastCleanup <= clock && Capped(config, ageCap, idleCap)
      && WithinLimits(cache, lastCleanup, ageCap, idleCap, clock)
    }

    ghost predicate Valid()
      reads this
    {
      Bookkept() && |cache| <= config.maxSize && HoldsLastPut(cache, lastPut)
    }

    constructor (config: Config, now: int)
      ensures Valid() && this.config == config && cache == map[] && inserted == removed == lookups == 0
      ensures clock == lastCleanup == now && ageCap == Max(0, config.maxAge) && idleCap == Max(0, config.maxUnused)
    {
      cache, this.config, lastCleanup := map[], config, now;
      stats := Stats(0, config.maxSize, 0, 0, 0, 0, 0);
      clock, lastPut, inserted, removed, lookups := now, map[], 0, 0, 0;
      ageCap, idleCap := Max(0, config.maxAge), Max(0, config.maxUnused);
    }

    method MaybeCleanup(now: int)
      requires Valid() && clock <= now
      modifies this`cache, this`stats, this`lastCleanup, this`clock
      ensures Valid() && clock == now && now - lastCleanup <= config.cleanupInterval && |cache| <= |old(cache)|
      ensures stats == old(stats).(size := stats.size, expirations := stats.expirations)
      ensures cache == Cleaned(old(cache), old(lastCleanup), config, now)
      ensures stats.expirations - old(stats).expirations == |old(cache)| - |cache|
      ensures lastCleanup == if now - old(lastCleanup) >= config.cleanupInterval then now else old(lastCleanup)
    {
      if now - lastCleanup >= config.cleanupInterval {
        Cleanup(now);
      } else {
        LaterClock(cache, lastCleanup, ageCap, idleCap, clock, now);
        clock := now;
      }
    }

    method Cleanup(now: int)
      requires Valid() && clock <= now
      modifies this`cache, this`stats, this`lastCleanup, this`clock
      ensures Valid() && clock == lastCleanup == now && cache == Surviving(old(cache), config, now) && |cache| <= |old(cache)|
      ensures stats == old(stats).(size := stats.size, expirations := stats.expirations)
      ensures stats.expirations - old(stats).expirations == |old(cache)| - |cache|
    {
      var rest, count := Expire(cache, config, now);
      AfterCleanup(cache, config, now, lastPut, lastCleanup, ageCap, idleCap, clock);
      Replace(rest, count, now);
    }

    method Replace(rest: Entries<P>, count: nat, now: int)
      requires Tallied(stats, |cache|, config.maxSize, inserted, removed, lookups) && Capped(config, ageCap, idleCap)
      requires |cache| <= config.maxSize && |rest| == |cache| - count
      requires HoldsLastPut(rest, lastPut) && WithinLimits(rest, now, ageCap, idleCap, now)
      modifies this`cache, this`stats, this`lastCleanup, this`clock
      ensures Valid() && clock == lastCleanup == now && cache == rest
      ensures stats == old(stats).(size := |rest|, expirations := old(stats).expirations + count)
    {
      cache, lastCleanup, clock := rest, now, now;
      stats := stats.(expirations := stats.expirations + count, size := |rest|);
    }

    /** A hit returns the last plan put under the key, marks it used, and its age
        is within the age limit plus one cleanup interval. */
    method Get(key: string, now: int) returns (found: Option<CachedPlan<P>>)
      requires Valid() && clock <= now
      modifies this`cache, this`stats, this`lastCleanup, this`clock, this`lookups
      ensures Valid() && clock == now && lookups == old(lookups) + 1
      ensures found.Some? <==>
        && key in old(cache)
        && (now - old(lastCleanup) >= config.cleanupInterval ==>
            now - old(cache)[key].createdAt <= config.maxAge && now - old(cache)[key].lastUsed <= config.maxUnused)
      ensures found.Some? ==>
        && cache == Cleaned(old(cache), old(lastCleanup), config, now)[key := found.value] && key in lastPut && found.value.plan == lastPut[key]
        && found.value.lastUsed == now
        && now - found.value.createdAt <= ageCap + config.cleanupInterval
        && key in old(cache) && found.value.usageCount == old(cache)[key].usageCount + 1
        && now - old(cache)[key].lastUsed <= idleCap + config.cleanupInterval
      ensures found.None? ==> cache == Cleaned(old(cache), old(lastCleanup), config, now)
      ensures stats.expirations - old(stats).expirations == |old(cache)| - |cache|
      ensures var hit, miss := if found.Some? then 1 else 0, if found.Some? then 0 else 1;
        stats == old(stats).(size := |cache|, expirations := stats.expirations,
          hits := old(stats).hits + hit, misses := old(stats).misses + miss, totalUsage := old(stats).totalUsage + hit)
    {
      CleanedMeans(cache, lastCleanup, config, now, key);
      MaybeCleanup(now);
      if key in cache {
        var used := MarkUsed(key, now);
        found := Some(used);
      } else {
        lookups, stats := lookups + 1, stats.(misses := stats.misses + 1);
        found := None;
      }
    }

    method MarkUsed(key: string, now: int) returns (used: CachedPlan<P>)
      requires Valid() && clock == now && key in cache
      modifies this`cache, this`stats, this`lookups
      ensures Valid() && lookups == old(lookups) + 1 && cache == old(cache)[key := used]
      ensures used == old(cache)[key].(usageCount := old(cache)[key].usageCount + 1, lastUsed := now)
      ensures stats == old(stats).(hits := old(stats).hits + 1, totalUsage := old(stats).totalUsage + 1)
    {
      used := cache[key].(usageCount := cache[key].usageCount + 1, lastUsed := now);
      AfterStore(cache, key, used, lastCleanup, ageCap, idleCap, clock);
      cache, lookups := cache[key := used], lookups + 1;
      stats := stats.(hits := stats.hits + 1, totalUsage := stats.totalUsage + 1);
    }

    /** Makes room by evicting a least recently used entry, even when the key is
        already present. With capacity zero nothing is stored. */
    method Put(key: string, plan: P, cost: real, now: int) returns (replaced: Option<P>)
      requires Valid() && clock <= now
      modifies this`cache, this`stats, this`lastCleanup, this`clock, this`lastPut, this`inserted
      ensures Valid() && clock == now && lastPut == old(lastPut)[key := plan]
      ensures config.maxSize == 0 ==> cache == map[] && replaced == None
      ensures config.maxSize > 0 ==>
        Stored(Cleaned(old(cache), old(lastCleanup), config, now), config.maxSize, key, CachedPlan(plan, now, 0, now, cost), cache, replaced)
      ensures config.maxSize > 0 ==> key in cache && forall k | k in cache && k != key ::
        && k in old(cache) && cache[k] == old(cache)[k]
        && (now - old(lastCleanup) >= config.cleanupInterval ==>
            now - cache[k].createdAt <= config.maxAge && now - cache[k].lastUsed <= config.maxUnused)
      ensures inserted == old(inserted) + if config.maxSize == 0 || replaced.Some? then 0 else 1
      ensures var found := Cleaned(old(cache), old(lastCleanup), config, now);
        && stats.expirations - old(stats).expirations == |old(cache)| - |found|
        && stats == old(stats).(size := |cache|, expirations := stats.expirations,
             evictions := old(stats).evictions + Evictions(|found|, config.maxSize))
    {
      MaybeCleanup(now);
      replaced := Insert(key, CachedPlan(plan, now, 0, now, cost));
      if config.maxSize > 0 {
        AfterPut(old(cache), old(lastCleanup), config, now, key, CachedPlan(plan, now, 0, now, cost), cache, replaced);
      }
    }

    method Insert(key: string, e: CachedPlan<P>) returns (replaced: Option<P>)
      requires Valid() && e.createdAt == e.lastUsed == clock
      modifies this`cache, this`stats, this`lastPut, this`inserted
      ensures Valid() && lastPut == old(lastPut)[key := e.plan]
      ensures config.maxSize == 0 ==> cache == map[] && replaced == None
      ensures config.maxSize > 0 ==> Stored(old(cache), config.maxSize, key, e, cache, replaced)
      ensures inserted == old(inserted) + if config.maxSize == 0 || replaced.Some? then 0 else 1
      ensures stats == old(stats).(size := |cache|, evictions := old(stats).evictions + Evictions(|old(cache)|, config.maxSize))
    {
      var room := MakeRoom();
      if !room {
        lastPut := lastPut[key := e.plan];
        return None;
      }
      replaced := if key in cache then Some(cache[key].plan) else None;
      Store(key, e);
    }

    method MakeRoom() returns (room: bool)
      requires Valid()
      modifies this`cache, this`stats
      ensures Valid()
      ensures room <==> config.maxSize > 0
      ensures room ==> |cache| < config.maxSize && RoomMade(old(cache), config.maxSize, cache)
      ensures !room ==> cache == map[]
      ensures stats == old(stats).(size := |cache|, evictions := old(stats).evictions + Evictions(|old(cache)|, config.maxSize))
    {
      room := true;
      if |cache| >= config.maxSize { room := EvictLru(); }
    }

    method Store(key: string, e: CachedPlan<P>)
      requires Valid() && |cache| < config.maxSize && e.createdAt == e.lastUsed == clock
      modifies this`cache, this`stats, this`lastPut, this`inserted
      ensures Valid() && cache == old(cache)[key := e] && lastPut == old(lastPut)[key := e.plan]
      ensures stats == old(stats).(size := |cache|)
      ensures inserted == old(inserted) + if key in old(cache) then 0 else 1
    {
      AfterStore(cache, key, e, lastCleanup, ageCap, idleCap, clock);
      if key !in cache { inserted := inserted + 1; }
      cache := cache[key := e];
      stats := stats.(size := |cache|);
      lastPut := lastPut[key := e.plan];
    }

    method EvictLru() returns (evicted: bool)
      requires Bookkept()
      modifies this`cache, this`stats
      ensures Bookkept()
      ensures evicted <==> old(cache) != map[]
      ensures !evicted ==> cache == old(cache) && stats == old(stats)
      ensures evicted ==> exists k :: LeastRecentlyUsed(old(cache), k) && cache == old(cache) - {k}
      ensures evicted ==> |cache| == |old(cache)| - 1
      ensures evicted ==> stats == old(stats).(size := |cache|, evictions := old(stats).evictions + 1)
    {
      var k := FindLru(cache);
      if k.None? { return false; }
      SizeAfterRemoval(cache, k.value);
      cache := cache - {k.value};
      stats := stats.(evictions := stats.evictions + 1, size := |cache|);
      return true;
    }

    method Remove(key: string) returns (plan: Option<P>)
      requires Valid()
      modifies this`cache, this`stats, this`removed
      ensures Valid() && cache == old(cache) - {key}
      ensures plan == if key in old(cache) then Some(old(cache)[key].plan) else None
      ensures removed == old(removed) + if key in old(cache) then 1 else 0
      ensures stats == old(stats).(size := |cache|)
    {
      SizeAfterRemoval(cache, key);
      if key in cache {
        plan := Some(cache[key].plan);
        cache := cache - {key};
        stats := stats.(size := |cache|);
        removed := removed + 1;
      } else {
        plan := None;
        assert cache - {key} == cache;
      }
    }

    method Clear()
      requires Valid()
      modifies this`cache, this`stats, this`removed
      ensures Valid() && cache == map[] && removed == old(removed) + |old(cache)|
      ensures stats == old(stats).(size := 0)
    {
      removed := removed + |cache|;
      cache := map[];
      stats := stats.(size := 0);
    }

    /** Shrinking the capacity evicts least recently used entries until the cache
        fits; nothing else is dropped, and each eviction is counted. */
    method UpdateConfig(updated: Config)
      requires Valid()
      modifies this`cache, this`stats, this`config, this`ageCap, this`idleCap
      ensures Valid() && config == updated
      ensures ageCap == Max(old(ageCap), updated.maxAge) && idleCap == Max(old(idleCap), updated.maxUnused)
      ensures |cache| == if |old(cache)| <= updated.maxSize then |old(cache)| else updated.maxSize
      ensures Shrunk(old(cache), cache)
      ensures stats == old(stats).(size := |cache|, maxSize := updated.maxSize,
                evictions := old(stats).evictions + |old(cache)| - |cache|)
    {
      WiderLimits(cache, lastCleanup, ageCap, idleCap, clock, Max(ageCap, updated.maxAge), Max(idleCap, updated.maxUnused));
      config := updated;
      ageCap, idleCap := Max(ageCap, updated.maxAge), Max(idleCap, updated.maxUnused);
      stats := stats.(maxSize := updated.maxSize);
      ShrinkToFit();
    }

    method ShrinkToFit()
      requires Bookkept() && HoldsLastPut(cache, lastPut)
      modifies this`cache, this`stats
      ensures Valid() && Shrunk(old(cache), cache)
      ensures |cache| == if |old(cache)| <= config.maxSize then |old(cache)| else config.maxSize
      ensures stats == old(stats).(size := |cache|, evictions := old(stats).evictions + |old(cache)| - |cache|)
    {
      while |cache| > config.maxSize
        invariant Bookkept() && HoldsLastPut(cache, lastPut) && Shrunk(old(cache), cache)
        invariant if |old(cache)| <= config.maxSize then |cache| == |old(cache)| else config.maxSize <= |cache| <= |old(cache)|
        invariant stats == old(stats).(size := |cache|, evictions := old(stats).evictions + |old(cache)| - |cache|)
        decreases |cache|
      {
        EvictOne(old(cache));
      }
    }

    /** One eviction of a cache that is not empty. */
    method EvictOne(ghost before: Entries<P>)
      requires Bookkept() && HoldsLastPut(cache, lastPut) && cache != map[] && Shrunk(before, cache)
      modifies this`cache, this`stats
      ensures Bookkept() && HoldsLastPut(cache, lastPut) && |cache| == |old(cache)| - 1 && Shrunk(before, cache)
      ensures stats == old(stats).(size := |cache|, evictions := old(stats).evictions + 1)
    {
      var evicted := EvictLru();
      ghost var k :| LeastRecentlyUsed(old(cache), k) && cache == old(cache) - {k};
      ShrunkByOne(before, old(cache), k);
    }
  }
}
