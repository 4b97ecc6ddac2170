/**
 * The recency order that both LRU caches keep in a `container/list`,
 * modelled as a sequence of keys whose front (index 0) is the most
 * recently used key and whose back is the least recently used one.
 */
module RecencyList {

  /** No key occurs twice in the list. */
  predicate NoDup<K(==,!new)>(s: seq<K>)
  {
    forall i, j :: 0 <= i < j < |s| ==> s[i] != s[j]
  }

  /** The list after `Remove` of the element that holds `k`. */
  function Without<K(==,!new)>(s: seq<K>, k: K): (r: seq<K>)
    ensures forall x :: x in r <==> x in s && x != k
    ensures |r| <= |s|
    ensures NoDup(s) ==> NoDup(r)
    ensures NoDup(s) && k in s ==> |r| == |s| - 1
    ensures k !in s ==> r == s
  {
    if s == [] then []
    else if s[0] == k then
      assert NoDup(s) ==> k !in s[1..];
      Without(s[1..], k)
    else
      var rest := Without(s[1..], k);
      assert NoDup(s) ==> s[0] !in s[1..];
      [s[0]] + rest
  }

  /** Removing the element at position `p` of a duplicate-free list keeps the others in their order. */
  lemma {:induction false} WithoutAt<K(!new)>(s: seq<K>, p: int)
    requires NoDup(s) && 0 <= p < |s|
    ensures Without(s, s[p]) == s[..p] + s[p + 1..]
  {
    if p == 0 {
      assert s[0] !in s[1..];
    } else {
      assert s[0] != s[p];
      var tail := s[1..];
      assert NoDup(tail);
      assert tail[p - 1] == s[p];
      WithoutAt(tail, p - 1);
      assert s[..p] == [s[0]] + tail[..p - 1];
      assert s[p + 1..] == tail[p..];
    }
  }

  /** `MoveToFront` (or `PushFront` of a key that is not in the list). */
  function MoveToFront<K(==,!new)>(s: seq<K>, k: K): (r: seq<K>)
    ensures |r| > 0 && r[0] == k
    ensures forall x :: x in r <==> x in s || x == k
    ensures NoDup(s) ==> NoDup(r)
    ensures NoDup(s) ==> |r| == if k in s then |s| else |s| + 1
  {
    [k] + Without(s, k)
  }

  /** Moving the key at position `p` to the front keeps the other keys in their order behind it. */
  lemma MoveToFrontAt<K(!new)>(s: seq<K>, p: int)
    requires NoDup(s) && 0 <= p < |s|
    ensures MoveToFront(s, s[p]) == [s[p]] + s[..p] + s[p + 1..]
  {
    WithoutAt(s, p);
  }

  /** The list after removing every element whose key is not in `keys`. */
  function Keep<K(==,!new)>(s: seq<K>, keys: set<K>): (r: seq<K>)
    ensures forall x :: x in r <==> x in s && x in keys
    ensures NoDup(s) ==> NoDup(r)
    ensures |r| <= |s|
  {
    if s == [] then []
    else
      var rest := Keep(s[1..], keys);
      assert NoDup(s) ==> s[0] !in s[1..];
      if s[0] in keys then [s[0]] + rest else rest
  }

  /**
   * `Keep` is an order-preserving filter: an element appended to the list
   * is appended to the result exactly when its key is kept.
   */
  lemma {:induction false} KeepAppend<K(!new)>(s: seq<K>, x: K, keys: set<K>)
    ensures Keep(s + [x], keys) == Keep(s, keys) + if x in keys then [x] else []
    decreases |s|
  {
    if s == [] {
      assert [x][1..] == [];
    } else {
      assert (s + [x])[1..] == s[1..] + [x];
      KeepAppend(s[1..], x, keys);
    }
  }

  /** Removing one more key after a `Keep` is a `Keep` of the smaller key set. */
  lemma {:induction false} KeepWithout<K(!new)>(s: seq<K>, keys: set<K>, k: K)
    ensures Without(Keep(s, keys), k) == Keep(s, keys - {k})
  {
    if s != [] {
      KeepWithout(s[1..], keys, k);
    }
  }

  /** A duplicate-free list has exactly as many elements as the key set it spells. */
  lemma {:induction false} DistinctCount<K(!new)>(s: seq<K>, keys: set<K>)
    requires NoDup(s)
    requires forall x :: x in keys <==> x in s
    ensures |keys| == |s|
  {
    if s != [] {
      assert s[0] !in s[1..];
      DistinctCount(s[1..], keys - {s[0]});
    } else {
      assert keys == {};
    }
  }

  /** Keeping every listed key leaves the list as it is. */
  lemma {:induction false} KeepAll<K(!new)>(s: seq<K>, keys: set<K>)
    requires forall x :: x in s ==> x in keys
    ensures Keep(s, keys) == s
  {
    if s != [] {
      KeepAll(s[1..], keys);
    }
  }

  /** Keeping by `a` and then by `b` keeps by both. */
  lemma {:induction false} KeepTwice<K(!new)>(s: seq<K>, a: set<K>, b: set<K>)
    ensures Keep(Keep(s, a), b) == Keep(s, a * b)
  {
    if s != [] {
      KeepTwice(s[1..], a, b);
    }
  }
}
