// The snapshot tracker both snapshot implementations share
// (libafl/syx-snapshot/syx-snapshot.c and libafl_extras/syx-snapshot/syx-snapshot.c
// contain the same code): a growable array of the snapshots whose dirty
// lists follow every dirty page.
module SyxTracker {

  /** SYX_SNAPSHOT_LIST_INIT_SIZE and SYX_SNAPSHOT_LIST_GROW_FACTOR. */
  const SYX_SNAPSHOT_LIST_INIT_SIZE: nat := 4096
  const SYX_SNAPSHOT_LIST_GROW_FACTOR: nat := 2

  /** The sequence without its element at index `i`. */
  function RemoveAt<T>(s: seq<T>, i: nat): (r: seq<T>)
    requires i < |s|
    ensures |r| == |s| - 1
    ensures forall k :: 0 <= k < i ==> r[k] == s[k]
    ensures forall k :: i <= k < |r| ==> r[k] == s[k + 1]
  {
    s[..i] + s[i + 1..]
  }

  /**
   * The index the removal loop of `stop_track` actually drops when the
   * snapshot sits at index `i` of `len` entries: its shift starts at
   * `j = i + i`, so it drops index `2i - 1` (or the last entry when the
   * shift is empty); only for `i == 0`, `i == 1` and the last entry is that
   * `i` itself.
   */
  function RemovedIndexAsWritten(i: nat, len: nat): (k: nat)
    requires i < len
    ensures k < len
    ensures k == i <==> i <= 1 || i == len - 1
  {
    if i + i >= len then len - 1 else if i == 0 then 0 else i + i - 1
  }

  /** `struct SyxSnapshotTracker`: `tracked` holds the first `length` slots of an array of `capacity`. */
  class Tracker<T(==)> {
    var tracked: seq<T>
    var capacity: nat

    ghost predicate Valid()
      reads this
    {
      |tracked| <= capacity && capacity >= SYX_SNAPSHOT_LIST_INIT_SIZE
    }

    /** `syx_snapshot_tracker_init`: empty, with room for SYX_SNAPSHOT_LIST_INIT_SIZE snapshots. */
    constructor ()
      ensures Valid() && tracked == [] && capacity == SYX_SNAPSHOT_LIST_INIT_SIZE
    {
      tracked := [];
      capacity := SYX_SNAPSHOT_LIST_INIT_SIZE;
    }

    /** `syx_snapshot_track`: append, doubling the capacity first when the array is full. */
    method Track(s: T)
      requires Valid()
      modifies this
      ensures Valid()
      ensures tracked == old(tracked) + [s]
      ensures capacity == if |old(tracked)| == old(capacity)
                          then old(capacity) * SYX_SNAPSHOT_LIST_GROW_FACTOR else old(capacity)
      ensures |tracked| <= capacity
    {
      if |tracked| == capacity {
        capacity := capacity * SYX_SNAPSHOT_LIST_GROW_FACTOR;
      }
      tracked := tracked + [s];
    }

    /** The index of the first entry equal to `s`, as the search loop of `stop_track` finds it. */
    method Find(s: T) returns (found: bool, i: nat)
      ensures found <==> s in tracked
      ensures found ==> i < |tracked| && tracked[i] == s && s !in tracked[..i]
    {
      i := 0;
      while i < |tracked|
        invariant i <= |tracked| && s !in tracked[..i]
      {
        if tracked[i] == s {
          return true, i;
        }
        i := i + 1;
      }
      assert tracked[..i] == tracked;
      return false, 0;
    }

    /**
     * `syx_snapshot_stop_track` as written. An untracked snapshot aborts
     * the process (`found` is false, nothing changes). Otherwise the
     * entries from index `i + i` on move down by one and the length drops
     * by one; for `i == 0` the first move targets index -1, outside the
     * array (`strayWrite`), and is not performed here.
     */
    method StopTrack(s: T) returns (found: bool, strayWrite: bool)
      requires Valid()
      modifies this
      ensures Valid() && capacity == old(capacity)
      ensures found <==> s in old(tracked)
      ensures !found ==> tracked == old(tracked) && !strayWrite
      ensures found ==> exists i :: 0 <= i < |old(tracked)| && old(tracked)[i] == s && s !in old(tracked)[..i]
                                  && tracked == RemoveAt(old(tracked), RemovedIndexAsWritten(i, |old(tracked)|)) && (strayWrite <==> i == 0)
    {
      var i;
      found, i := Find(s);
      strayWrite := false;
      if !found {
        return;
      }
      var s0 := tracked;
      var len := |tracked|;
      var list := tracked;
      var j := i + i;
      var lo := if j == 0 then 0 else j - 1;
      while j < len
        invariant |list| == len && (j <= len || j == i + i)
        invariant i + i <= j
        invariant strayWrite <==> i == 0 && j > 0
        invariant forall k :: 0 <= k < len && !(lo <= k && k + 1 < j) ==> list[k] == s0[k]
        invariant forall k :: lo <= k && k + 1 < j ==> list[k] == s0[k + 1]
      {
        if j == 0 {
          strayWrite := true;
        } else {
          list := list[j - 1 := list[j]];
        }
        j := j + 1;
      }
      tracked := list[..len - 1];
      assert tracked == RemoveAt(s0, RemovedIndexAsWritten(i, len));
    }

    /** `syx_snapshot_stop_track` with the shift starting at `j = i + 1`: the snapshot found is the one removed. */
    method StopTrackCorrected(s: T) returns (found: bool)
      requires Valid()
      modifies this
      ensures Valid() && capacity == old(capacity)
      ensures found <==> s in old(tracked)
      ensures !found ==> tracked == old(tracked)
      ensures found ==> exists i :: 0 <= i < |old(tracked)| && old(tracked)[i] == s && s !in old(tracked)[..i]
                                  && tracked == RemoveAt(old(tracked), i)
    {
      var i;
      found, i := Find(s);
      if !found {
        return;
      }
      var s0 := tracked;
      var len := |tracked|;
      var list := tracked;
      var j := i + 1;
      while j < len
        invariant |list| == len && i + 1 <= j <= len
        invariant forall k :: 0 <= k < len && !(i <= k && k + 1 < j) ==> list[k] == s0[k]
        invariant forall k :: i <= k && k + 1 < j ==> list[k] == s0[k + 1]
      {
        list := list[j - 1 := list[j]];
        j := j + 1;
      }
      tracked := list[..len - 1];
      assert tracked == RemoveAt(s0, i);
    }
  }

  /**
   * Removing the third of five tracked snapshots with the shift as written
   * keeps it and drops the fourth instead.
   */
  lemma StopTrackKeepsThird()
    ensures RemovedIndexAsWritten(2, 5) == 3
    ensures RemoveAt(['a', 'b', 'c', 'd', 'e'], RemovedIndexAsWritten(2, 5)) == ['a', 'b', 'c', 'e']
  {
  }

  /** The corrected removal drops exactly one occurrence of the snapshot. */
  lemma RemoveAtMultiset<T>(s: seq<T>, i: nat)
    requires i < |s|
    ensures multiset(RemoveAt(s, i)) + multiset{s[i]} == multiset(s)
  {
    assert s == s[..i] + [s[i]] + s[i + 1..];
  }
}
