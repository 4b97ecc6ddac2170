/**
 * The snapshot array of snapshot-array/snapshot-array.go.
 *
 * Every index has a current value and a history of versions, one per
 * snapshot id in which it was set, with strictly increasing ids. `Snap`
 * hands out ids 0, 1, 2, ...; `Get` at the current id reads the current
 * value (0 if never set), and at any other id binary-searches the history
 * for the last version at or before that id (-1 if there is none).
 */
module SnapshotArray {

  /** A history entry: the value an index had in snapshot `snapId` (the source's `Entry`). */
  datatype Version = Version(value: int, snapId: int)

  /** The fields `current`, `snapshotId` and `snapshots`. */
  datatype Snapshots = Snapshots(current: map<int, int>, snapId: int, history: map<int, seq<Version>>)

  /** A history's ids are strictly increasing. */
  predicate Increasing(h: seq<Version>)
  {
    forall i, j :: 0 <= i < j < |h| ==> h[i].snapId < h[j].snapId
  }

  /** The history of `index`, empty if it was never set (Go's zero slice). */
  function HistoryOf(s: Snapshots, index: int): seq<Version>
  {
    if index in s.history then s.history[index] else []
  }

  /**
   * The invariant: the ids handed out are nonnegative; an index has a
   * current value exactly when it has a history; every history is nonempty
   * with strictly increasing ids in `[0, snapId]`, and its last version holds
   * the current value.
   */
  ghost predicate Consistent(s: Snapshots)
  {
    && s.snapId >= 0
    && (forall i :: i in s.current <==> i in s.history)
    && forall i :: i in s.history ==> Tracks(s.history[i], s.snapId, s.current[i])
  }

  /** A nonempty history with strictly increasing ids in `[0, snapId]` whose last version holds `value`. */
  predicate Tracks(h: seq<Version>, snapId: int, value: int)
  {
    && |h| > 0 && Increasing(h)
    && (forall k :: 0 <= k < |h| ==> 0 <= h[k].snapId <= snapId)
    && h[|h| - 1].value == value
  }

  /** `Set`: record the value as current; overwrite the last version if it belongs to the current snapshot, else append one. */
  function SetAt(s: Snapshots, index: int, value: int): (n: Snapshots)
    ensures n.snapId == s.snapId
    ensures var h := HistoryOf(n, index); |h| > 0 && h[|h| - 1] == Version(value, s.snapId)
    ensures forall j :: j != index ==> HistoryOf(n, j) == HistoryOf(s, j)
  {
    var h := HistoryOf(s, index);
    var h' := if |h| > 0 && h[|h| - 1].snapId == s.snapId then h[|h| - 1 := Version(value, s.snapId)]
              else h + [Version(value, s.snapId)];
    Snapshots(s.current[index := value], s.snapId, s.history[index := h'])
  }

  /** The result of `Snap`: the arrays afterwards and the id handed out. */
  datatype Snapped = Snapped(next: Snapshots, id: int)

  /** `Snap`: hand out the current id and move on to the next. */
  function TakeSnap(s: Snapshots): (r: Snapped)
    ensures r.id == s.snapId && r.next.snapId == r.id + 1
    ensures Consistent(s) ==> Consistent(r.next)
  {
    Snapped(Snapshots(s.current, s.snapId + 1, s.history), s.snapId)
  }

  /** Reference definition: the value of the last version at or before `id`, scanning from the end; -1 if none. */
  function Lookup(h: seq<Version>, id: int): (r: int)
    ensures (forall k :: 0 <= k < |h| ==> h[k].snapId > id) ==> r == -1
    ensures forall k :: 0 <= k < |h| && h[k].snapId <= id && (forall j :: k < j < |h| ==> h[j].snapId > id) ==>
              r == h[k].value
    decreases |h|
  {
    if h == [] then -1
    else if h[|h| - 1].snapId <= id then h[|h| - 1].value
    else
      var init := h[..|h| - 1];
      assert forall k :: 0 <= k < |init| ==> init[k] == h[k];
      Lookup(init, id)
  }

  /** `Get`: the current value at the current id, the history lookup at any other id. */
  function ValueAt(s: Snapshots, id: int, index: int): (r: int)
    ensures id == s.snapId && index !in s.current ==> r == 0
    ensures id != s.snapId && index !in s.history ==> r == -1
    ensures Consistent(s) && index in s.current ==> r == Lookup(s.history[index], id)
  {
    if id == s.snapId then (if index in s.current then s.current[index] else 0)
    else Lookup(HistoryOf(s, index), id)
  }

  /** `Set` keeps the arrays consistent. */
  lemma SetKeepsConsistent(s: Snapshots, index: int, value: int)
    requires Consistent(s)
    ensures Consistent(SetAt(s, index, value))
  {
    var n := SetAt(s, index, value);
    SetKeepsHistoryTracked(HistoryOf(s, index), s.snapId, value);
    forall i | i in n.history ensures Tracks(n.history[i], n.snapId, n.current[i]) {
      if i != index {
        assert n.history[i] == s.history[i] && n.current[i] == s.current[i];
      }
    }
  }

  /** The history `Set` leaves at its index tracks the new value. */
  lemma SetKeepsHistoryTracked(h: seq<Version>, snapId: int, value: int)
    requires snapId >= 0
    requires h == [] || Tracks(h, snapId, h[|h| - 1].value)
    ensures var v := Version(value, snapId);
      Tracks(if |h| > 0 && h[|h| - 1].snapId == snapId then h[|h| - 1 := v] else h + [v], snapId, value)
  {
    var v := Version(value, snapId);
    if !(|h| > 0 && h[|h| - 1].snapId == snapId) {
      var h' := h + [v];
      forall i, j | 0 <= i < j < |h'| ensures h'[i].snapId < h'[j].snapId {
        if j == |h| {
          assert h[i].snapId <= h[|h| - 1].snapId < snapId;
        }
      }
    }
  }

  /**
   * `Set` makes the value current at its index and leaves every other
   * index's current value and history as they were.
   */
  lemma SetOutcomes(s: Snapshots, index: int, value: int)
    ensures var n := SetAt(s, index, value);
      && n.snapId == s.snapId
      && index in n.current && n.current[index] == value
      && ValueAt(n, s.snapId, index) == value
      && forall j :: j != index ==>
           && HistoryOf(n, j) == HistoryOf(s, j)
           && (j in n.current <==> j in s.current)
           && (j in s.current ==> n.current[j] == s.current[j])
  {
  }

  /** Successive `Snap` calls hand out consecutive ids and change no value or history. */
  lemma SnapOutcomes(s: Snapshots)
    requires Consistent(s)
    ensures var r := TakeSnap(s);
      var r2 := TakeSnap(r.next);
      && r.id == s.snapId && r2.id == s.snapId + 1
      && r.next.current == s.current && r.next.history == s.history
      && Consistent(r.next)
  {
  }

  /** The last version of a consistent history is the one `Lookup` finds at the current id. */
  lemma CurrentAgreesWithHistory(s: Snapshots, index: int)
    requires Consistent(s) && index in s.current
    ensures Lookup(HistoryOf(s, index), s.snapId) == s.current[index]
    ensures ValueAt(s, s.snapId, index) == Lookup(HistoryOf(s, index), s.snapId)
  {
  }

  /**
   * An index that was never set reads 0 at the current id but -1 at every
   * other id, including the current one once it has been snapped.
   */
  lemma NeverSetReadsDiffer(s: Snapshots, index: int, id: int)
    requires Consistent(s) && index !in s.current && id != s.snapId
    ensures ValueAt(s, s.snapId, index) == 0
    ensures ValueAt(s, id, index) == -1
    ensures ValueAt(TakeSnap(s).next, s.snapId, index) == -1
  {
    assert index !in s.history;
    assert index !in TakeSnap(s).next.history;
  }

  /** Appending a version newer than `id` does not change the lookup at `id`. */
  lemma LookupIgnoresNewer(h: seq<Version>, e: Version, id: int)
    requires e.snapId > id
    ensures Lookup(h + [e], id) == Lookup(h, id)
  {
    assert (h + [e])[..|h|] == h;
  }

  /** Snapshots already taken are frozen: a later `Set` changes no value read at an older id. */
  lemma SetKeepsPastSnapshots(s: Snapshots, index: int, value: int, id: int, j: int)
    requires Consistent(s) && id < s.snapId
    ensures ValueAt(SetAt(s, index, value), id, j) == ValueAt(s, id, j)
  {
    if j == index {
      var h := HistoryOf(s, index);
      var v := Version(value, s.snapId);
      if |h| > 0 && h[|h| - 1].snapId == s.snapId {
        var init := h[..|h| - 1];
        assert h == init + [h[|h| - 1]];
        assert h[|h| - 1 := v] == init + [v];
        LookupIgnoresNewer(init, h[|h| - 1], id);
        LookupIgnoresNewer(init, v, id);
      } else {
        LookupIgnoresNewer(h, v, id);
      }
    }
  }

  /** What `sort.Search` returns: the number of leading versions at or before `id`. */
  predicate SplitsAt(h: seq<Version>, id: int, i: int)
  {
    && 0 <= i <= |h|
    && (forall k :: 0 <= k < i ==> h[k].snapId <= id)
    && (forall k :: i <= k < |h| ==> h[k].snapId > id)
  }

  /** Where the history splits, the version just before the split is the one the linear scan finds. */
  lemma LookupAtSplit(h: seq<Version>, id: int, i: int)
    requires SplitsAt(h, id, i)
    ensures Lookup(h, id) == if i == 0 then -1 else h[i - 1].value
  {
  }

  /** `sort.Search` over the history: the first position whose id is after `id`, found by bisection. */
  method SearchAfter(h: seq<Version>, id: int) returns (i: int)
    requires Increasing(h)
    ensures SplitsAt(h, id, i)
  {
    var lo, hi := 0, |h|;
    while lo < hi
      invariant 0 <= lo <= hi <= |h|
      invariant forall k :: 0 <= k < lo ==> h[k].snapId <= id
      invariant forall k :: hi <= k < |h| ==> h[k].snapId > id
      decreases hi - lo
    {
      var mid := (lo + hi) / 2;
      if !(h[mid].snapId > id) {
        lo := mid + 1;
      } else {
        hi := mid;
      }
    }
    return lo;
  }

  /** The object: the map of current values, the snapshot counter and the per-index histories. */
  class SnapshotArray {
    const size: int
    var current: map<int, int>
    var snapshotId: int
    var snapshots: map<int, seq<Version>>

    ghost function State(): Snapshots
      reads this
    {
      Snapshots(current, snapshotId, snapshots)
    }

    ghost predicate Valid()
      reads this
    {
      Consistent(State())
    }

    /** `NewSnapshotArray`: no value set and snapshot id 0; `size` is stored but never checked. */
    constructor (size: int)
      ensures this.size == size && current == map[] && snapshotId == 0 && snapshots == map[]
      ensures Valid()
    {
      this.size := size;
      current := map[];
      snapshotId := 0;
      snapshots := map[];
    }

    method Set(index: int, value: int)
      requires Valid()
      modifies this
      ensures Valid()
      ensures State() == SetAt(old(State()), index, value)
    {
      SetKeepsConsistent(State(), index, value);
      current := current[index := value];
      var snapshot := if index in snapshots then snapshots[index] else [];
      if |snapshot| > 0 && snapshot[|snapshot| - 1].snapId == snapshotId {
        snapshots := snapshots[index := snapshot[|snapshot| - 1 := Version(value, snapshotId)]];
      } else {
        snapshots := snapshots[index := snapshot + [Version(value, snapshotId)]];
      }
    }

    method Snap() returns (id: int)
      requires Valid()
      modifies this
      ensures Valid()
      ensures Snapped(State(), id) == TakeSnap(old(State()))
    {
      snapshotId := snapshotId + 1;
      return snapshotId - 1;
    }

    /** `Get`, with the history lookup done by binary search; it agrees with the linear scan. */
    method Get(id: int, index: int) returns (v: int)
      requires Valid()
      ensures v == ValueAt(State(), id, index)
      ensures id != snapshotId ==> v == Lookup(HistoryOf(State(), index), id)
    {
      if id == snapshotId {
        return if index in current then current[index] else 0;
      }
      var snapshot := if index in snapshots then snapshots[index] else [];
      var largestIndex := SearchAfter(snapshot, id);
      LookupAtSplit(snapshot, id, largestIndex);
      if largestIndex == 0 {
        return -1;
      }
      return snapshot[largestIndex - 1].value;
    }
  }
}
