/**
 * The expirable LRU cache of lru-expiration.go: the LRU cache of lru.go
 * whose entries also carry an expiration time `now + ttl`. An expired entry
 * is removed lazily by `Get` and eagerly by `purgeExpired`, which `Add`
 * runs after every insertion. An entry is expired once its expiration is
 * strictly before `now`.
 */
module ExpirableLru {
  import opened Wrappers
  import opened RecencyList
  import opened Lru

  /** A cached value and the time after which it is expired. */
  datatype Entry<V> = Entry(value: V, expiration: int)

  /** The result of `Get`: the cache afterwards and the value found, if any. */
  datatype Fetch<K, V> = Fetch(next: Cache<K, Entry<V>>, value: Option<V>)

  /** Why construction panics. */
  datatype ConfigError = NonPositiveCapacity | NonPositiveTtl

  /** `expiration.Before(now)`. */
  predicate Expired<V>(e: Entry<V>, now: int)
  {
    e.expiration < now
  }

  /** `NewExpirableLRUCache`: the capacity is checked first, then the ttl; a valid pair gives an empty cache. */
  function NewCache<K, V>(capacity: int, ttl: int): (r: Result<Cache<K, Entry<V>>, ConfigError>)
    ensures r.Ok? <==> capacity > 0 && ttl > 0
    ensures r.Ok? ==> r.value == Cache(map[], [])
    ensures r.Err? ==> r.error == if capacity <= 0 then NonPositiveCapacity else NonPositiveTtl
  {
    if capacity <= 0 then Err(NonPositiveCapacity)
    else if ttl <= 0 then Err(NonPositiveTtl)
    else Ok(Cache(map[], []))
  }

  /** The entries that are not expired at `now`. */
  function Unexpired<K(!new), V>(entries: map<K, Entry<V>>, now: int): map<K, Entry<V>>
  {
    map k | k in entries && !Expired(entries[k], now) :: entries[k]
  }

  /** The entries a purge has not deleted while the keys in `pending` are still to be visited. */
  function Survivors<K(!new), V>(entries: map<K, Entry<V>>, pending: set<K>, now: int): map<K, Entry<V>>
  {
    map k | k in entries && (k in pending || !Expired(entries[k], now)) :: entries[k]
  }

  /** Visiting one more key deletes it exactly when it is expired. */
  lemma SurvivorsStep<K(!new), V>(entries: map<K, Entry<V>>, pending: set<K>, k: K, now: int)
    requires k in pending && pending <= entries.Keys
    ensures var live := Survivors(entries, pending, now);
      && k in live && live[k] == entries[k]
      && Survivors(entries, pending - {k}, now) == if Expired(entries[k], now) then live - {k} else live
  {
  }

  /** `purgeExpired`: delete every expired entry from the map and from the list. */
  function Purge<K(!new), V>(c: Cache<K, Entry<V>>, now: int): (p: Cache<K, Entry<V>>)
    ensures forall k :: k in p.entries <==> k in c.entries && !Expired(c.entries[k], now)
    ensures forall k :: k in p.entries ==> p.entries[k] == c.entries[k]
  {
    var live := Unexpired(c.entries, now);
    Cache(live, Keep(c.order, live.Keys))
  }

  /**
   * `Get`: an expired hit is deleted and reported as a miss; a live hit
   * moves to the front and returns its value; a miss changes nothing.
   */
  function GetAt<K(!new), V>(c: Cache<K, Entry<V>>, key: K, now: int): (r: Fetch<K, V>)
    ensures r.value.Some? <==> key in c.entries && !Expired(c.entries[key], now)
    ensures r.value.Some? ==> r.value.value == c.entries[key].value
    ensures key in r.next.entries <==> r.value.Some?
    ensures forall k :: k != key ==> (k in r.next.entries <==> k in c.entries)
  {
    if key !in c.entries then Fetch(c, None)
    else if Expired(c.entries[key], now) then Fetch(Cache(c.entries - {key}, Without(c.order, key)), None)
    else Fetch(Cache(c.entries, MoveToFront(c.order, key)), Some(c.entries[key].value))
  }

  /**
   * `Add`: the LRU `Put` of the value stamped with `now + ttl`, then
   * `purgeExpired`, which reads the clock again, at `purgeNow`.
   */
  function AddAt<K(!new), V>(c: Cache<K, Entry<V>>, capacity: int, ttl: int, key: K, value: V, now: int, purgeNow: int): (r: Cache<K, Entry<V>>)
    ensures forall k :: k in r.entries ==> k in c.entries || k == key
    ensures key in r.entries ==> r.entries[key] == Entry(value, now + ttl)
    ensures forall k :: k in r.entries && k != key ==> r.entries[k] == c.entries[k]
  {
    Purge(PutStep(c, capacity, key, Entry(value, now + ttl)), purgeNow)
  }

  /**
   * After a purge the map holds exactly the entries of the old map that are
   * not expired, unchanged, the list holds exactly their keys in their old
   * relative order, and the cache stays consistent.
   */
  lemma PurgeOutcomes<K(!new), V>(c: Cache<K, Entry<V>>, capacity: int, now: int)
    requires Consistent(c, capacity)
    ensures var p := Purge(c, now);
      && (forall k :: k in p.entries <==> k in c.entries && !Expired(c.entries[k], now))
      && (forall k :: k in p.entries ==> p.entries[k] == c.entries[k])
      && p.order == Keep(c.order, p.entries.Keys)
      && Consistent(p, capacity)
  {
  }

  /** Purging twice at the same time is purging once. */
  lemma PurgeIdempotent<K(!new), V>(c: Cache<K, Entry<V>>, now: int)
    ensures Purge(Purge(c, now), now) == Purge(c, now)
  {
    var p := Purge(c, now);
    assert Unexpired(p.entries, now) == p.entries;
    KeepTwice(c.order, p.entries.Keys, p.entries.Keys);
    assert p.entries.Keys * p.entries.Keys == p.entries.Keys;
  }

  /**
   * `Get` of an expired entry deletes it from the map and the list and
   * misses; of a live entry returns its value and makes it most recent
   * without touching its expiration; of an absent key misses and changes nothing.
   */
  lemma GetAtOutcomes<K(!new), V>(c: Cache<K, Entry<V>>, capacity: int, key: K, now: int)
    requires Consistent(c, capacity)
    ensures var r := GetAt(c, key, now);
      && Consistent(r.next, capacity)
      && (key !in c.entries ==> r == Fetch(c, None))
      && (key in c.entries && Expired(c.entries[key], now) ==>
            r.value == None && key !in r.next.entries && key !in r.next.order
            && r.next.entries == c.entries - {key})
      && (key in c.entries && !Expired(c.entries[key], now) ==>
            r.value == Some(c.entries[key].value) && r.next.entries == c.entries && r.next.order[0] == key)
  {
    if key in c.entries && Expired(c.entries[key], now) {
      var r := GetAt(c, key, now);
      DistinctCount(c.order, c.entries.Keys);
      assert |r.next.order| <= |c.order|;
    }
  }

  /** `Add` keeps the cache consistent, so `Len() <= capacity` afterwards. */
  lemma AddKeepsConsistent<K(!new), V>(c: Cache<K, Entry<V>>, capacity: int, ttl: int, key: K, value: V, now: int, purgeNow: int)
    requires Consistent(c, capacity)
    ensures Consistent(AddAt(c, capacity, ttl, key, value, now, purgeNow), capacity)
  {
    PutKeepsConsistent(c, capacity, key, Entry(value, now + ttl));
  }

  /** After `Add`, no remaining entry is expired at the time of its purge. */
  lemma AddLeavesNothingExpired<K(!new), V>(c: Cache<K, Entry<V>>, capacity: int, ttl: int, key: K, value: V, now: int, purgeNow: int)
    ensures var a := AddAt(c, capacity, ttl, key, value, now, purgeNow);
      forall k :: k in a.entries ==> !Expired(a.entries[k], purgeNow)
  {
  }

  /**
   * With `capacity >= 1`, and a purge no later than `now + ttl`, `Add`
   * stores the value stamped with `now + ttl` at the front of the list,
   * whether the key is new or not, and a `Get` at any time up to `now + ttl`
   * finds it.
   */
  lemma AddThenGet<K(!new), V>(c: Cache<K, Entry<V>>, capacity: int, ttl: int, key: K, value: V, now: int, purgeNow: int, later: int)
    requires capacity >= 1 && Consistent(c, capacity)
    requires purgeNow <= now + ttl && later <= now + ttl
    ensures var a := AddAt(c, capacity, ttl, key, value, now, purgeNow);
      && key in a.entries && a.entries[key] == Entry(value, now + ttl) && a.order[0] == key
      && GetAt(a, key, later).value == Some(value)
  {
    GetAfterPut(c, capacity, key, Entry(value, now + ttl));
    var put := PutStep(c, capacity, key, Entry(value, now + ttl));
    PutKeepsConsistent(c, capacity, key, Entry(value, now + ttl));
    assert put.order[0] == key;
  }

  /**
   * `Add` on a present key evicts nothing: with a purge no later than
   * `now + ttl`, the keys afterwards are the old keys that are live at the
   * purge, plus the key itself.
   */
  lemma AddExistingKey<K(!new), V>(c: Cache<K, Entry<V>>, capacity: int, ttl: int, key: K, value: V, now: int, purgeNow: int)
    requires purgeNow <= now + ttl && Consistent(c, capacity) && key in c.entries
    ensures var a := AddAt(c, capacity, ttl, key, value, now, purgeNow);
      forall k :: k in a.entries <==> k == key || (k in c.entries && !Expired(c.entries[k], purgeNow))
  {
  }

  /**
   * `Add` of a new key into a full cache evicts the least recently used
   * entry before purging, even when that entry is live and another is
   * expired: here a live `2` is evicted, the expired `1` is purged, and only
   * the new key is left in a cache of capacity 2.
   */
  lemma EvictsBeforePurging()
    ensures var c := Cache(map[1 := Entry(10, 0), 2 := Entry(20, 100)], [1, 2]);
      AddAt(c, 2, 50, 3, 30, 5, 5).entries == map[3 := Entry(30, 55)]
  {
    var c := Cache(map[1 := Entry(10, 0), 2 := Entry(20, 100)], [1, 2]);
    var put := PutStep(c, 2, 3, Entry(30, 55));
    assert |c.entries[3 := Entry(30, 55)]| == 3;
    assert put.entries == map[1 := Entry(10, 0), 3 := Entry(30, 55)];
  }

  /** The cache object of lru-expiration.go: capacity and ttl are fixed; the map and the list change. */
  class ExpirableLruCache<K(==,!new), V> {
    const capacity: int
    const ttl: int
    var entries: map<K, Entry<V>>
    var order: seq<K>

    ghost predicate Valid()
      reads this
    {
      capacity > 0 && ttl > 0 && Consistent(Cache(entries, order), capacity)
    }

    constructor (capacity: int, ttl: int)
      requires capacity > 0 && ttl > 0
      ensures this.capacity == capacity && this.ttl == ttl && entries == map[] && order == []
      ensures Valid()
    {
      this.capacity := capacity;
      this.ttl := ttl;
      entries := map[];
      order := [];
    }

    /** `NewExpirableLRUCache`: the panics on a non-positive capacity or ttl become errors. */
    static method New(capacity: int, ttl: int) returns (r: Result<ExpirableLruCache<K, V>, ConfigError>)
      ensures r.Ok? <==> NewCache<K, V>(capacity, ttl).Ok?
      ensures r.Err? ==> r.error == NewCache<K, V>(capacity, ttl).error
      ensures r.Ok? ==> fresh(r.value) && r.value.Valid() && r.value.entries == map[] && r.value.order == []
    {
      if capacity <= 0 {
        return Err(NonPositiveCapacity);
      }
      if ttl <= 0 {
        return Err(NonPositiveTtl);
      }
      var cache := new ExpirableLruCache(capacity, ttl);
      return Ok(cache);
    }

    /** `Len`: the number of entries, at most `capacity`. */
    function Len(): (n: int)
      reads this
      requires Valid()
      ensures n == |order| && n <= capacity
    {
      SizeMatchesOrder(Cache(entries, order), capacity);
      |entries|
    }

    /** `purgeExpired`: the loop over the map that deletes every expired entry. */
    method PurgeExpired(now: int)
      requires Valid()
      modifies this
      ensures Valid()
      ensures Cache(entries, order) == Purge(old(Cache(entries, order)), now)
    {
      ghost var before := Cache(entries, order);
      var live, keys := entries, order;
      KeepAll(keys, live.Keys);
      var pending := live.Keys;
      while pending != {}
        invariant pending <= before.entries.Keys
        invariant live == Survivors(before.entries, pending, now)
        invariant keys == Keep(before.order, live.Keys)
        decreases pending
      {
        var k :| k in pending;
        SurvivorsStep(before.entries, pending, k, now);
        if live[k].expiration < now {
          KeepWithout(before.order, live.Keys, k);
          live := live - {k};
          keys := Without(keys, k);
        }
        pending := pending - {k};
      }
      assert live == Unexpired(before.entries, now);
      entries, order := live, keys;
      PurgeOutcomes(before, capacity, now);
    }

    method Get(key: K, now: int) returns (r: Option<V>)
      requires Valid()
      modifies this
      ensures Valid()
      ensures Fetch(Cache(entries, order), r) == GetAt(old(Cache(entries, order)), key, now)
    {
      GetAtOutcomes(Cache(entries, order), capacity, key, now);
      if key in entries {
        if entries[key].expiration < now {
          entries := entries - {key};
          order := Without(order, key);
          return None;
        } else {
          order := MoveToFront(order, key);
          return Some(entries[key].value);
        }
      }
      return None;
    }

    /**
     * `Add`: insert or refresh the entry with expiration `now + ttl`, then
     * purge everything expired at `purgeNow`, the clock reading taken inside
     * `purgeExpired`.
     */
    method Add(key: K, value: V, now: int, purgeNow: int)
      requires Valid()
      modifies this
      ensures Valid()
      ensures Cache(entries, order) == AddAt(old(Cache(entries, order)), capacity, ttl, key, value, now, purgeNow)
    {
      var expiration := now + ttl;
      Insert(key, Entry(value, expiration));
      PurgeExpired(purgeNow);
    }

    /** The first part of `Add`: refresh and move to the front, or push to the front and evict the back when over capacity. */
    method Insert(key: K, entry: Entry<V>)
      requires Valid()
      modifies this
      ensures Valid()
      ensures Cache(entries, order) == PutStep(old(Cache(entries, order)), capacity, key, entry)
    {
      ghost var start := Cache(entries, order);
      PutKeepsConsistent(start, capacity, key, entry);
      if key in entries {
        entries := entries[key := entry];
        order := MoveToFront(order, key);
      } else {
        entries := entries[key := entry];
        order := [key] + order;
        if |entries| > capacity {
          var back := order[|order| - 1];
          entries := entries - {back};
          order := order[..|order| - 1];
        }
      }
      assert Cache(entries, order) == PutStep(start, capacity, key, entry);
    }
  }
}
