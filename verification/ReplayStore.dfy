/** The map-backed replay store: recorded pairs with an expiry instant, swept in
    place. Instants are nanoseconds. The store key is the (key id, signature)
    pair; the hash replayKey takes of it is read as injective. */
module ReplayStore {

  /** Recorded and unexpired at `now`. */
  predicate Live<K>(seen: map<K, int>, k: K, now: int) { k in seen && seen[k] > now }

  function Sweep<K>(seen: map<K, int>, now: int): map<K, int> {
    map k | k in seen && seen[k] > now :: seen[k]
  }

  /** The map after SeenOrAdd. */
  function AfterAdd<K>(seen: map<K, int>, k: K, now: int, ttl: int): map<K, int> {
    if Live(seen, k, now) then seen else Sweep(seen[k := now + ttl], now)
  }

  /** What SeenOrAdd does to every later observation: a first sighting is seen
      from now until ttl later and never at or after that; nothing else changes,
      although expired entries are swept. */
  lemma AddObserved<K>(seen: map<K, int>, k: K, now: int, ttl: int, q: K, at: int)
    requires at >= now
    ensures Live(AfterAdd(seen, k, now, ttl), q, at) ==
            if q == k && !Live(seen, k, now) then at < now + ttl else Live(seen, q, at)
  {
  }

  class MemoryReplayStore<K(==)> {
    var seen: map<K, int>

    constructor ()
      ensures seen == map[]
    {
      seen := map[];
    }

    method SeenOrAdd(k: K, now: int, ttl: int) returns (dup: bool)
      modifies this
      ensures dup == Live(old(seen), k, now)
      ensures seen == AfterAdd(old(seen), k, now, ttl)
    {
      if k in seen && seen[k] > now {
        return true;
      }
      seen := seen[k := now + ttl];
      SweepLocked(now);
      return false;
    }

    method Seen(k: K, now: int) returns (dup: bool)
      ensures dup == Live(seen, k, now)
    {
      dup := k in seen && seen[k] > now;
    }

    method SweepLocked(now: int)
      modifies this
      ensures seen == Sweep(old(seen), now)
    {
      var todo := seen.Keys;
      while todo != {}
        invariant todo <= seen.Keys <= old(seen).Keys
        invariant forall k | k in seen :: seen[k] == old(seen)[k]
        invariant forall k | k in old(seen) && k !in todo :: k in seen <==> old(seen)[k] > now
        decreases todo
      {
        var k :| k in todo;
        todo := todo - {k};
        if seen[k] <= now {
          seen := seen - {k};
        }
      }
    }
  }
}
