/**
 The in-memory cache of the router: entries are stamped when written and an expired
 entry is deleted only when it is asked for.
 */
module SimpleCache {
  import opened Store

  datatype Entry = Entry(at: int, value: string)

  type Cache = map<string, Entry>

  predicate Expired(e: Entry, ttl: int, now: int) {
    ttl > 0 && now - e.at > ttl
  }

  function GetResult(cache: Cache, ttl: int, key: string, now: int): Option<string> {
    if key in cache && !Expired(cache[key], ttl, now) then Some(cache[key].value) else None
  }

  function AfterGet(cache: Cache, ttl: int, key: string, now: int): Cache {
    if key in cache && Expired(cache[key], ttl, now) then cache - {key} else cache
  }

  function AfterUpdate(cache: Cache, key: string, value: string, now: int): Cache {
    cache[key := Entry(now, value)]
  }

  class InMemorySimpleCache {
    var cache: Cache
    const expiryInterval: int

    constructor (expiryInterval: int)
      ensures cache == map[] && this.expiryInterval == expiryInterval
    {
      this.cache := map[];
      this.expiryInterval := expiryInterval;
    }

    method Get(key: string, now: int) returns (value: string, found: bool)
      modifies this
      ensures cache == AfterGet(old(cache), expiryInterval, key, now)
      ensures (if found then Some(value) else None) == GetResult(old(cache), expiryInterval, key, now)
      ensures found <==> key in old(cache) && (expiryInterval <= 0 || now - old(cache)[key].at <= expiryInterval)
      ensures found ==> value == old(cache)[key].value && cache == old(cache)
      ensures !found ==> cache == old(cache) - {key}
      ensures !found ==> value == ""
    {
      if key !in cache {
        return "", false;
      }
      var entry := cache[key];
      if expiryInterval > 0 && now - entry.at > expiryInterval {
        cache := cache - {key};
        return "", false;
      }
      return entry.value, true;
    }

    method Update(key: string, value: string, now: int)
      modifies this
      ensures cache == AfterUpdate(old(cache), key, value, now)
      ensures cache == old(cache)[key := Entry(now, value)]
    {
      cache := cache[key := Entry(now, value)];
    }
  }

  // ----- Histories -----

  datatype Op = Get(key: string, at: int) | Update(key: string, value: string, at: int)

  /** The cache a history of operations leaves, from an empty one. */
  function After(ops: seq<Op>, ttl: int): Cache {
    if ops == [] then
      map[]
    else
      var before := After(ops[..|ops| - 1], ttl);
      match ops[|ops| - 1]
      case Get(key, at) => AfterGet(before, ttl, key, at)
      case Update(key, value, at) => AfterUpdate(before, key, value, at)
  }

  ghost predicate Monotone(ops: seq<Op>, now: int) {
    && (forall i, j | 0 <= i < j < |ops| :: ops[i].at <= ops[j].at)
    && (forall i | 0 <= i < |ops| :: ops[i].at <= now)
  }

  /** Operation i is the latest Update of the key. */
  ghost predicate IsLatest(ops: seq<Op>, key: string, i: int) {
    && 0 <= i < |ops| && ops[i].Update? && ops[i].key == key
    && forall k | i < k < |ops| :: !(ops[k].Update? && ops[k].key == key)
  }

  /** An entry is the latest Update; a missing one was never written or has expired by now. */
  ghost predicate Agrees(cache: Cache, ops: seq<Op>, ttl: int, now: int, key: string) {
    && (key in cache ==> exists i :: IsLatest(ops, key, i) && cache[key] == Entry(ops[i].at, ops[i].value))
    && (key !in cache ==> forall i | IsLatest(ops, key, i) :: Expired(Entry(ops[i].at, ops[i].value), ttl, now))
  }

  lemma {:induction false} CacheAgrees(ops: seq<Op>, ttl: int, now: int, key: string)
    requires Monotone(ops, now)
    ensures Agrees(After(ops, ttl), ops, ttl, now, key)
    decreases |ops|
  {
    if ops != [] {
      var last := |ops| - 1;
      var before := ops[..last];
      var op := ops[last];
      CacheAgrees(before, ttl, op.at, key);
      assert ops == before + [op];
      if op.Update? && op.key == key {
        assert IsLatest(ops, key, last);
      } else {
        LatestUnaffected(before, op, key);
      }
    }
  }

  lemma {:induction false} LatestUnaffected(ops: seq<Op>, op: Op, key: string)
    requires !(op.Update? && op.key == key)
    ensures forall i :: IsLatest(ops + [op], key, i) <==> IsLatest(ops, key, i)
  {
    var all := ops + [op];
    forall i | IsLatest(all, key, i) ensures IsLatest(ops, key, i) {
      assert all[i] == ops[i];
      assert forall k | i < k < |ops| :: all[k] == ops[k];
    }
    forall i | IsLatest(ops, key, i) ensures IsLatest(all, key, i) {
      assert all[i] == ops[i];
    }
  }

  /**
   Lazy deletion is unobservable: after any history with a monotone clock, a Get finds a
   value exactly when the latest Update of the key wrote it and has not outlived the interval.
   */
  lemma {:induction false} LazyDeletionIsUnobservable(ops: seq<Op>, ttl: int, now: int, key: string, value: string)
    requires Monotone(ops, now)
    ensures GetResult(After(ops, ttl), ttl, key, now) == Some(value) <==>
            exists i :: IsLatest(ops, key, i) && ops[i].value == value && (ttl <= 0 || now - ops[i].at <= ttl)
  {
    CacheAgrees(ops, ttl, now, key);
    var cache := After(ops, ttl);
    if i :| IsLatest(ops, key, i) {
      forall k | IsLatest(ops, key, k) ensures k == i {
      }
      if key !in cache {
        assert Expired(Entry(ops[i].at, ops[i].value), ttl, now);
      }
    }
  }
}
