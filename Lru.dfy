/**
 * The LRU cache of lru.go: a map from keys to values plus a recency list
 * (front = most recently used). `Put` of a new key that takes the map over
 * `capacity` evicts the key at the back of the list.
 */
module Lru {
  import opened Wrappers
  import opened RecencyList

  /** The map and the recency list of an `lruCache`. */
  datatype Cache<K, V> = Cache(entries: map<K, V>, order: seq<K>)

  /** How many entries a cache of this capacity can keep: none when the capacity is not positive. */
  function MaxSize(capacity: int): nat
  {
    if capacity < 0 then 0 else capacity
  }

  /** The map's keys are the list's keys, no key is listed twice, and there are at most `MaxSize(capacity)` of them. */
  ghost predicate Consistent<K(!new), V>(c: Cache<K, V>, capacity: int)
  {
    && NoDup(c.order)
    && (forall k :: k in c.entries <==> k in c.order)
    && |c.order| <= MaxSize(capacity)
  }

  /** The result of `Get`: the cache afterwards and the value found, if any. */
  datatype Lookup<K, V> = Lookup(next: Cache<K, V>, value: Option<V>)

  /** `Get`: a hit moves the key to the front and returns its value; a miss changes nothing. */
  function GetStep<K(!new), V>(c: Cache<K, V>, key: K): (r: Lookup<K, V>)
    ensures r.value.Some? <==> key in c.entries
    ensures key in c.entries ==> r.value.value == c.entries[key]
    ensures r.next.entries == c.entries
    ensures NoDup(c.order) ==> NoDup(r.next.order)
  {
    if key in c.entries then Lookup(Cache(c.entries, MoveToFront(c.order, key)), Some(c.entries[key]))
    else Lookup(c, None)
  }

  /**
   * `Put`: an existing key gets the new value and moves to the front; a new
   * key is pushed at the front and, if the map then holds more than
   * `capacity` entries, the key at the back is evicted.
   */
  function PutStep<K(!new), V>(c: Cache<K, V>, capacity: int, key: K, value: V): (n: Cache<K, V>)
    ensures forall k :: k in n.entries ==> k in c.entries || k == key
    ensures key in n.entries ==> n.entries[key] == value
    ensures forall k :: k in n.entries && k != key ==> n.entries[k] == c.entries[k]
  {
    if key in c.entries then Cache(c.entries[key := value], MoveToFront(c.order, key))
    else
      var entries := c.entries[key := value];
      var order := [key] + c.order;
      if |entries| > capacity then
        var back := order[|order| - 1];
        Cache(entries - {back}, order[..|order| - 1])
      else Cache(entries, order)
  }

  /** A consistent cache has as many entries as listed keys, and so at most `MaxSize(capacity)`. */
  lemma SizeMatchesOrder<K(!new), V>(c: Cache<K, V>, capacity: int)
    requires Consistent(c, capacity)
    ensures |c.entries| == |c.order| <= MaxSize(capacity)
  {
    DistinctCount(c.order, c.entries.Keys);
  }

  /**
   * A hit returns the stored value and makes the key most recent, the other
   * keys keeping their order; a miss returns nothing and changes nothing.
   */
  lemma GetOutcomes<K(!new), V>(c: Cache<K, V>, capacity: int, key: K)
    requires Consistent(c, capacity)
    ensures var r := GetStep(c, key);
      && (key !in c.entries ==> r.value == None && r.next == c)
      && (key in c.entries ==> r.value == Some(c.entries[key]) && r.next.entries == c.entries
                               && r.next.order[0] == key && Consistent(r.next, capacity))
      && forall p :: 0 <= p < |c.order| && c.order[p] == key ==>
           r.next.order == [key] + c.order[..p] + c.order[p + 1..]
  {
    forall p | 0 <= p < |c.order| && c.order[p] == key {
      MoveToFrontAt(c.order, p);
    }
  }

  /** `Put` keeps the cache consistent, so `Len() <= capacity` after every `Put` (and 0 for a capacity below 1). */
  lemma PutKeepsConsistent<K(!new), V>(c: Cache<K, V>, capacity: int, key: K, value: V)
    requires Consistent(c, capacity)
    ensures Consistent(PutStep(c, capacity, key, value), capacity)
  {
    SizeMatchesOrder(c, capacity);
    if key !in c.entries {
      var order := [key] + c.order;
      var entries := c.entries[key := value];
      assert |entries| == |c.entries| + 1;
      if |entries| > capacity {
        var back := order[|order| - 1];
        var kept := order[..|order| - 1];
        assert order == kept + [back];
        assert NoDup(order);
        assert back !in kept;
        assert forall k :: k in kept <==> k in order && k != back;
      }
    }
  }

  /**
   * `Put` on a present key replaces its value and moves it to the front, the
   * other keys keeping their order; no key is added or evicted.
   */
  lemma PutExistingKey<K(!new), V>(c: Cache<K, V>, capacity: int, key: K, value: V)
    requires Consistent(c, capacity) && key in c.entries
    ensures var n := PutStep(c, capacity, key, value);
      && n.entries.Keys == c.entries.Keys && |n.entries| == |c.entries|
      && n.entries[key] == value && n.order[0] == key
      && (forall k :: k in c.entries && k != key ==> n.entries[k] == c.entries[k])
      && forall p :: 0 <= p < |c.order| && c.order[p] == key ==>
           n.order == [key] + c.order[..p] + c.order[p + 1..]
  {
    assert c.entries[key := value].Keys == c.entries.Keys;
    forall p | 0 <= p < |c.order| && c.order[p] == key {
      MoveToFrontAt(c.order, p);
    }
  }

  /**
   * `Put` of a new key into a full cache evicts exactly the least recently
   * used key (the back of the list, or the new key itself when the capacity
   * is zero) and keeps every other entry, the new key going to the front of
   * the list and the others keeping their order behind it; into a cache with
   * room it evicts nothing.
   */
  lemma PutNewKey<K(!new), V>(c: Cache<K, V>, capacity: int, key: K, value: V)
    requires capacity >= 0 && Consistent(c, capacity) && key !in c.entries
    ensures var n := PutStep(c, capacity, key, value);
      var victim := if c.order == [] then key else c.order[|c.order| - 1];
      && (|c.order| < capacity ==> n == Cache(c.entries[key := value], [key] + c.order))
      && (|c.order| == capacity ==> n.entries == c.entries[key := value] - {victim})
      && (|c.order| == capacity ==> n.order == ([key] + c.order)[..capacity])
  {
    SizeMatchesOrder(c, capacity);
  }

  /** With `capacity >= 1`, a `Get` right after `Put(key, value)` returns `value`. */
  lemma GetAfterPut<K(!new), V>(c: Cache<K, V>, capacity: int, key: K, value: V)
    requires capacity >= 1 && Consistent(c, capacity)
    ensures GetStep(PutStep(c, capacity, key, value), key).value == Some(value)
  {
    SizeMatchesOrder(c, capacity);
    if key !in c.entries && |c.order| + 1 > capacity {
      var order := [key] + c.order;
      assert order[|order| - 1] == c.order[|c.order| - 1];
    }
  }

  /** A cache whose capacity is not positive evicts every key it is given: it stays empty. */
  lemma NoCapacityStaysEmpty<K(!new), V>(c: Cache<K, V>, capacity: int, key: K, value: V)
    requires capacity <= 0 && Consistent(c, capacity)
    ensures PutStep(c, capacity, key, value) == Cache(map[], [])
  {
    assert c.order == [];
    assert c.entries == map[];
  }

  /** The cache object of lru.go: the capacity is fixed; the map and the list change. */
  class LruCache<K(==,!new), V> {
    const capacity: int
    var entries: map<K, V>
    var order: seq<K>

    ghost predicate Valid()
      reads this
    {
      Consistent(Cache(entries, order), capacity)
    }

    /** `NewLRUCache`: an empty map and an empty list. */
    constructor (capacity: int)
      ensures this.capacity == capacity && entries == map[] && order == []
      ensures Valid()
    {
      this.capacity := capacity;
      entries := map[];
      order := [];
    }

    method Get(key: K) returns (r: Option<V>)
      requires Valid()
      modifies this
      ensures Valid()
      ensures Lookup(Cache(entries, order), r) == GetStep(old(Cache(entries, order)), key)
    {
      if key in entries {
        order := MoveToFront(order, key);
        return Some(entries[key]);
      }
      return None;
    }

    method Put(key: K, value: V)
      requires Valid()
      modifies this
      ensures Valid()
      ensures Cache(entries, order) == PutStep(old(Cache(entries, order)), capacity, key, value)
    {
      ghost var start := Cache(entries, order);
      PutKeepsConsistent(start, capacity, key, value);
      if key in entries {
        entries := entries[key := value];
        order := MoveToFront(order, key);
      } else {
        entries := entries[key := value];
        order := [key] + order;
        if |entries| > capacity {
          var back := order[|order| - 1];
          entries := entries - {back};
          order := order[..|order| - 1];
        }
      }
      assert Cache(entries, order) == PutStep(start, capacity, key, value);
    }

    /** `Len`: the number of entries, which is the length of the recency list and at most `capacity` (0 if that is negative). */
    function Len(): (n: int)
      reads this
      requires Valid()
      ensures n == |order| && n <= MaxSize(capacity)
    {
      SizeMatchesOrder(Cache(entries, order), capacity);
      |entries|
    }
  }
}
