/** Properties that relate several operations of the region index, and the scenarios
    the index is meant to handle, stated over all inputs or over small concrete indexes. */
module SortedRegionsProperties {
  import opened Bytes
  import opened Regions
  import opened Wrappers
  import opened SortedRegions

  // ---------------------------------------------------------------------------
  // ReplaceOrInsert behaves as a map update
  // ---------------------------------------------------------------------------

  /** Seen as a map from start key to region, `ReplaceOrInsert(s, r)` is the update
      m[r.startKey := r], and it reports what m held at r.startKey before. */
  lemma {:induction false} ReplaceOrInsertIsMapUpdate(s: seq<Region>, r: Region)
    requires Sorted(s)
    ensures var (t, prev) := ReplaceOrInsert(s, r);
      && prev == EntryAt(s, r.startKey)
      && EntryAt(t, r.startKey) == Some(r)
      && forall k :: k != r.startKey ==> EntryAt(t, k) == EntryAt(s, k)
  {
    var (t, prev) := ReplaceOrInsert(s, r);
    EntryAtSpec(s, r.startKey);
    EntryAtSpec(t, r.startKey);
    forall k | k != r.startKey
      ensures EntryAt(t, k) == EntryAt(s, k)
    {
      EntryAtSpec(s, k);
      EntryAtSpec(t, k);
    }
  }

  /** Once `r` is stored, a point lookup of its own start key finds it (when its range
      is not empty, so that it contains that key). */
  lemma {:induction false} SearchFindsInserted(s: seq<Region>, r: Region)
    requires Sorted(s) && r.NonEmptyRange()
    ensures SearchByKey(ReplaceOrInsert(s, r).0, r.startKey, false) == Some(r)
  {
    var t := ReplaceOrInsert(s, r).0;
    var i :| 0 <= i < |t| && t[i] == r;
    SeekAtEntry(t, i);
  }

  /** Once `r` is stored and alive, a scan from its start key that `endKey` does not cut
      off begins with `r`. */
  lemma {:induction false} AscendFindsInserted(s: seq<Region>, r: Region, endKey: Key, limit: int, now: int, alive: Liveness)
    requires Sorted(s) && r.NonEmptyRange() && alive(r, now)
    requires |endKey| == 0 || Less(r.startKey, endKey)
    ensures var run := AscendGreaterOrEqual(ReplaceOrInsert(s, r).0, r.startKey, endKey, limit, now, alive);
      |run| > 0 && run[0] == r
  {
    var t := ReplaceOrInsert(s, r).0;
    var i :| 0 <= i < |t| && t[i] == r;
    SeekAtEntry(t, i);
    assert Admits(t[i], r.startKey, endKey, now, alive);
  }

  // ---------------------------------------------------------------------------
  // SearchByKey at region boundaries
  // ---------------------------------------------------------------------------

  /** For stored neighbours A = [a, b) and B = [b, c), probing `b` as a point finds B,
      probing `b` as an end key finds A. */
  lemma {:induction false} BoundaryDisambiguation(s: seq<Region>, i: int)
    requires Sorted(s) && 0 <= i && i + 1 < |s|
    requires s[i].endKey == s[i + 1].startKey
    requires s[i].NonEmptyRange() && s[i + 1].NonEmptyRange()
    ensures SearchByKey(s, s[i + 1].startKey, false) == Some(s[i + 1])
    ensures SearchByKey(s, s[i + 1].startKey, true) == Some(s[i])
  {
    SeekAtEntry(s, i + 1);
  }

  /** The stored regions are pairwise disjoint: each one ends (with a non-empty end key)
      no later than the next one starts. */
  predicate Disjoint(s: seq<Region>) {
    && Sorted(s)
    && forall i, j :: 0 <= i < j < |s| ==> |s[i].endKey| > 0 && LessEq(s[i].endKey, s[j].startKey)
  }

  /** Looking only at the nearest candidate loses nothing when the regions are disjoint:
      a point lookup misses exactly when no stored region holds the key. */
  lemma {:induction false} SearchByKeyCompleteWhenDisjoint(s: seq<Region>, key: Key)
    requires Disjoint(s)
    ensures SearchByKey(s, key, false).None? <==> forall x :: x in s ==> !x.Contains(key)
  {
    var n: int := SeekAfter(s, key);
    AboveSeekAfter(s, key);
    forall i | 0 <= i < |s| && s[i].Contains(key)
      ensures i == n - 1
    {
      NotLessIsGreaterEq(key, s[i].startKey);
      if i < n - 1 {
        LessEqTransitive(s[i].endKey, s[n - 1].startKey, key);
        NotLessIsGreaterEq(key, s[i].endKey);
      }
    }
  }

  /** Likewise an end-key lookup misses exactly when no stored region can be closed by
      the key. */
  lemma {:induction false} EndKeySearchCompleteWhenDisjoint(s: seq<Region>, key: Key)
    requires Disjoint(s)
    ensures SearchByKey(s, key, true).None? <==> forall x :: x in s ==> !x.ContainsByEnd(key)
  {
    var m: int := SeekGE(s, key);
    AtOrAboveSeek(s, key);
    forall i | 0 <= i < |s| && s[i].ContainsByEnd(key)
      ensures i == m - 1
    {
      NotLessIsGreaterEq(s[i].startKey, key);
      NotLessIsGreaterEq(s[i].endKey, key);
      if i < m - 1 {
        LessEqLessTransitive(s[i].endKey, s[m - 1].startKey, key);
      }
    }
  }

  // ---------------------------------------------------------------------------
  // removeIntersecting followed by ReplaceOrInsert
  // ---------------------------------------------------------------------------

  /** The region stored at `r.startKey` is itself removed when it is no newer than `r`:
      the code deletes it along with the rest of the range. */
  lemma {:induction false} RemoveIntersectingRemovesSameStart(s: seq<Region>, r: Region, verID: RegionVerID)
    requires Sorted(s) && r.NonEmptyRange()
    ensures var res := RemoveIntersecting(s, r, verID);
      !res.stale ==>
        && EntryAt(res.index, r.startKey) == None
        && (EntryAt(s, r.startKey).Some? ==> EntryAt(s, r.startKey).value in res.deleted)
  {
    var res := RemoveIntersecting(s, r, verID);
    EntryAtSpec(s, r.startKey);
    EntryAtSpec(res.index, r.startKey);
  }

  /** Installing a region after a successful removal, as the region cache does, always
      inserts afresh: nothing is displaced, the index grows by exactly one entry, and it
      then holds exactly `r` and the old entries that start outside `r`'s range. */
  lemma {:induction false} RemoveThenInsertIsFresh(s: seq<Region>, r: Region, verID: RegionVerID)
    requires Sorted(s) && r.NonEmptyRange()
    ensures var res := RemoveIntersecting(s, r, verID);
      !res.stale ==>
        var (t, prev) := ReplaceOrInsert(res.index, r);
        && prev == None
        && |t| == |res.index| + 1
        && Sorted(t)
        && forall x :: x in t <==> x == r || (x in s && !r.Contains(x.startKey))
  {
  }

  // ---------------------------------------------------------------------------
  // Clear
  // ---------------------------------------------------------------------------

  /** After `Clear` nothing is counted, found or scanned. */
  lemma ClearForgetsEverything(key: Key, isEndKey: bool, endKey: Key, limit: int, ts: int, alive: Liveness)
    ensures ValidRegionsInBtree(Clear(), ts, alive) == 0
    ensures SearchByKey(Clear(), key, isEndKey) == None
    ensures AscendGreaterOrEqual(Clear(), key, endKey, limit, ts, alive) == []
  {
  }

  // ---------------------------------------------------------------------------
  // Scenarios over a small index
  // ---------------------------------------------------------------------------

  function Epoch(version: uint64): RegionEpoch {
    RegionEpoch(1, version)
  }

  /** A = [1, 2), B = [2, 3), D = [4, 5): a hole between 3 and 4. */
  function RegionA(): Region { Region(1, [1], [2], Epoch(5)) }
  function RegionB(): Region { Region(2, [2], [3], Epoch(3)) }
  function RegionD(): Region { Region(4, [4], [5], Epoch(1)) }

  /** A scan from 1 stops at the hole after B and never reaches D. */
  lemma ScanStopsAtHole(now: int, alive: Liveness)
    requires alive(RegionA(), now) && alive(RegionB(), now) && alive(RegionD(), now)
    ensures AscendGreaterOrEqual([RegionA(), RegionB(), RegionD()], [1], [], 10, now, alive)
      == [RegionA(), RegionB()]
  {
    var s := [RegionA(), RegionB(), RegionD()];
    assert Sorted(s);
    assert SeekGE(s, [1]) == 0;
    assert !RegionD().Contains([3]);
    assert Admits(s[0], [1], [], now, alive);
    assert Admits(s[1], s[0].endKey, [], now, alive);
  }

  /** An expired region ends the scan: with B expired only A is returned. */
  lemma ScanStopsAtExpired(now: int, alive: Liveness)
    requires alive(RegionA(), now) && !alive(RegionB(), now)
    ensures AscendGreaterOrEqual([RegionA(), RegionB(), RegionD()], [1], [], 10, now, alive)
      == [RegionA()]
  {
    var s := [RegionA(), RegionB(), RegionD()];
    assert Sorted(s);
    assert SeekGE(s, [1]) == 0;
    assert Admits(s[0], [1], [], now, alive);
  }

  /** With limit 1 the scan returns A alone. */
  lemma ScanStopsAtLimit(now: int, alive: Liveness)
    requires alive(RegionA(), now) && alive(RegionB(), now)
    ensures AscendGreaterOrEqual([RegionA(), RegionB(), RegionD()], [1], [], 1, now, alive)
      == [RegionA()]
  {
    var s := [RegionA(), RegionB(), RegionD()];
    assert Sorted(s);
    assert SeekGE(s, [1]) == 0;
    assert Admits(s[0], [1], [], now, alive);
  }

  /** The staleness veto is all-or-nothing: installing [1, 3) at version 4 over A
      (version 5) and B (version 3) is refused as a whole, and B, though older, stays. */
  lemma StalenessVetoIsGlobal()
    ensures var res := RemoveIntersecting([RegionA(), RegionB()], Region(7, [1], [3], Epoch(4)), RegionVerID(7, 1, 4));
      res.stale && res.index == [RegionA(), RegionB()] && res.deleted == []
  {
    var r := Region(7, [1], [3], Epoch(4));
    assert r.Contains(RegionA().startKey);
  }

  /** An entry that starts below the incoming region is never removed, even when its
      range reaches into the incoming one: only entries starting inside the new range are
      deleted, stale or not. Storing the new region afterwards can therefore leave two
      overlapping regions in the index. */
  lemma {:induction false} RemovalKeepsLowerOverlap(s: seq<Region>, r: Region, verID: RegionVerID, i: int)
    requires Sorted(s) && 0 <= i < |s| && Less(s[i].startKey, r.startKey)
    ensures s[i] in RemoveIntersecting(s, r, verID).index
    ensures s[i] !in RemoveIntersecting(s, r, verID).deleted
  {
    LessAsymmetric(s[i].startKey, r.startKey);
    LessIrreflexive(r.startKey);
    assert !r.Contains(s[i].startKey);
  }

  /** The concrete case: removing for [2, 4) keeps the stored [1, 3). */
  lemma RemovalKeepsLowerOverlapExample()
    ensures var r := Region(9, [2], [4], Epoch(9));
      var s := [Region(8, [1], [3], Epoch(1))];
      var res := RemoveIntersecting(s, r, RegionVerID(9, 1, 9));
      !res.stale && res.index == s && res.deleted == []
  {
    var r := Region(9, [2], [4], Epoch(9));
    var s := [Region(8, [1], [3], Epoch(1))];
    var res := RemoveIntersecting(s, r, RegionVerID(9, 1, 9));
    assert !r.Contains(s[0].startKey);
    assert forall x :: x in res.index <==> x == s[0];
  }
}
