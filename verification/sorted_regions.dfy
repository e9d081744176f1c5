/** The region index of `SortedRegionsV2`: an ordered map from a region's start key to
    the cached region. The B-tree is modelled by the sequence of its items in order,
    each operation returns the new sequence, and the B-tree's ordering invariant is the
    predicate `Sorted`, which every operation preserves. */
module SortedRegions {
  import opened Bytes
  import opened Regions
  import opened Wrappers

  /** Start keys strictly increase along the sequence, so no two entries share one. */
  predicate Sorted(s: seq<Region>) {
    forall i, j :: 0 <= i < j < |s| ==> Less(s[i].startKey, s[j].startKey)
  }

  /** The entry stored under start key `k`, if any: the index seen as a map. */
  function EntryAt(s: seq<Region>, k: Key): Option<Region> {
    EntryFrom(s, 0, k)
  }

  /** The first entry at or after position i stored under start key `k`, if any. */
  function EntryFrom(s: seq<Region>, i: nat, k: Key): Option<Region>
    decreases |s| - i
  {
    if i >= |s| then None
    else if s[i].startKey == k then Some(s[i])
    else EntryFrom(s, i + 1, k)
  }

  // ---------------------------------------------------------------------------
  // Facts about sorted sequences
  // ---------------------------------------------------------------------------

  lemma UniqueStartKeys(s: seq<Region>, i: int, j: int)
    requires Sorted(s) && 0 <= i < |s| && 0 <= j < |s|
    requires s[i].startKey == s[j].startKey
    ensures i == j
  {
    if i != j {
      LessIrreflexive(s[i].startKey);
    }
  }

  /** A stretch of consecutive entries of a sorted sequence is sorted. */
  lemma {:induction false} SortedStretch(s: seq<Region>, lo: int, d: seq<Region>)
    requires Sorted(s) && 0 <= lo && lo + |d| <= |s| && d == s[lo..lo + |d|]
    ensures Sorted(d)
  {
    forall i, j | 0 <= i < j < |d|
      ensures Less(d[i].startKey, d[j].startKey)
    {
      assert d[i] == s[lo + i] && d[j] == s[lo + j];
    }
  }

  /** Putting a region in front of a sorted sequence of strictly larger keys keeps it sorted. */
  lemma {:induction false} SortedPrepend(x: Region, s: seq<Region>)
    requires Sorted(s)
    requires forall y :: y in s ==> Less(x.startKey, y.startKey)
    ensures Sorted([x] + s)
  {
    forall i, j | 0 <= i < j < |[x] + s|
      ensures Less(([x] + s)[i].startKey, ([x] + s)[j].startKey)
    {
      assert ([x] + s)[j] == s[j - 1];
      if i > 0 {
        assert ([x] + s)[i] == s[i - 1];
      }
    }
  }

  /** A key below the first start key of a sorted sequence is below all of them. */
  lemma BelowFirst(k: Key, s: seq<Region>)
    requires Sorted(s) && |s| > 0 && Less(k, s[0].startKey)
    ensures forall y :: y in s ==> Less(k, y.startKey)
  {
    forall y | y in s
      ensures Less(k, y.startKey)
    {
      var j :| 0 <= j < |s| && s[j] == y;
      if j > 0 {
        LessTransitive(k, s[0].startKey, y.startKey);
      }
    }
  }

  /** In a sorted sequence, once a start key is not below `key`, no later one is. */
  lemma NotBelowFromHere(s: seq<Region>, i: int, key: Key)
    requires Sorted(s) && 0 <= i < |s| && !Less(s[i].startKey, key)
    ensures forall j :: i <= j < |s| ==> LessEq(key, s[j].startKey)
  {
    NotLessIsGreaterEq(s[i].startKey, key);
    forall j | i < j < |s|
      ensures LessEq(key, s[j].startKey)
    {
      LessEqLessTransitive(key, s[i].startKey, s[j].startKey);
    }
  }

  /** For sorted sequences `EntryAt` finds exactly the member carrying the key. */
  lemma {:induction false} EntryAtSpec(s: seq<Region>, k: Key)
    requires Sorted(s)
    ensures EntryAt(s, k).Some? ==> EntryAt(s, k).value in s && EntryAt(s, k).value.startKey == k
    ensures forall x :: x in s && x.startKey == k ==> EntryAt(s, k) == Some(x)
  {
    EntryFromSpec(s, 0, k);
  }

  /** Searching from position i finds the entry at or after i carrying `k`, and only it. */
  lemma {:induction false} EntryFromSpec(s: seq<Region>, i: nat, k: Key)
    requires Sorted(s) && i <= |s|
    ensures EntryFrom(s, i, k).Some? ==>
      exists j :: i <= j < |s| && EntryFrom(s, i, k) == Some(s[j]) && s[j].startKey == k
    ensures forall j :: i <= j < |s| && s[j].startKey == k ==> EntryFrom(s, i, k) == Some(s[j])
    decreases |s| - i
  {
    if i < |s| {
      if s[i].startKey == k {
        forall j | i <= j < |s| && s[j].startKey == k
          ensures s[j] == s[i]
        {
          UniqueStartKeys(s, i, j);
        }
      } else {
        EntryFromSpec(s, i + 1, k);
      }
    }
  }

  // ---------------------------------------------------------------------------
  // B-tree positioning: where Ascend(pivot) and Descend(pivot) start
  // ---------------------------------------------------------------------------

  /** Position of the first entry whose start key is not below `key`: `Ascend(pivot)`
      visits the entries from here on, in increasing order. */
  function SeekGE(s: seq<Region>, key: Key): (m: nat)
    ensures m <= |s|
    ensures forall i :: 0 <= i < m ==> Less(s[i].startKey, key)
    ensures m < |s| ==> !Less(s[m].startKey, key)
  {
    if |s| == 0 || !Less(s[0].startKey, key) then 0 else 1 + SeekGE(s[1..], key)
  }

  /** Number of leading entries whose start key is at most `key`: `Descend(pivot)`
      visits the entries before this position, in decreasing order. */
  function SeekAfter(s: seq<Region>, key: Key): (n: nat)
    ensures n <= |s|
    ensures forall i :: 0 <= i < n ==> LessEq(s[i].startKey, key)
    ensures n < |s| ==> Less(key, s[n].startKey)
  {
    if |s| == 0 then 0
    else if Less(key, s[0].startKey) then 0
    else
      NotLessIsGreaterEq(key, s[0].startKey);
      1 + SeekAfter(s[1..], key)
  }

  /** `SeekGE` is the only position with its two ensures. */
  lemma {:induction false} SeekGEUnique(s: seq<Region>, key: Key, m: nat)
    requires m <= |s|
    requires forall i :: 0 <= i < m ==> Less(s[i].startKey, key)
    requires m < |s| ==> !Less(s[m].startKey, key)
    ensures SeekGE(s, key) == m
  {
    if m > 0 {
      assert Less(s[0].startKey, key);
      SeekGEUnique(s[1..], key, m - 1);
    }
  }

  /** `SeekAfter` is the only position with its two ensures. */
  lemma {:induction false} SeekAfterUnique(s: seq<Region>, key: Key, n: nat)
    requires n <= |s|
    requires forall i :: 0 <= i < n ==> LessEq(s[i].startKey, key)
    requires n < |s| ==> Less(key, s[n].startKey)
    ensures SeekAfter(s, key) == n
  {
    if n > 0 {
      NotLessIsGreaterEq(key, s[0].startKey);
      SeekAfterUnique(s[1..], key, n - 1);
    }
  }

  /** Seeking a stored start key lands on its entry. */
  lemma {:induction false} SeekAtEntry(s: seq<Region>, i: int)
    requires Sorted(s) && 0 <= i < |s|
    ensures SeekGE(s, s[i].startKey) == i
    ensures SeekAfter(s, s[i].startKey) == i + 1
  {
    var k := s[i].startKey;
    LessIrreflexive(k);
    assert forall j :: 0 <= j < i ==> Less(s[j].startKey, k);
    SeekGEUnique(s, k, i);
    assert forall j :: 0 <= j < i + 1 ==> LessEq(s[j].startKey, k);
    assert i + 1 < |s| ==> Less(k, s[i + 1].startKey);
    SeekAfterUnique(s, k, i + 1);
  }

  /** The first entry not below `key` sits right after the entries at most `key`,
      except that an entry whose start key equals `key` belongs to both. */
  lemma SeekGEFromSeekAfter(s: seq<Region>, key: Key)
    requires Sorted(s)
    ensures var n := SeekAfter(s, key);
      SeekGE(s, key) == if n > 0 && s[n - 1].startKey == key then n - 1 else n
  {
    var n := SeekAfter(s, key);
    var m := if n > 0 && s[n - 1].startKey == key then n - 1 else n;
    forall i | 0 <= i < m
      ensures Less(s[i].startKey, key)
    {
      if s[i].startKey == key {
        assert i < n - 1;
        LessLessEqTransitive(key, s[n - 1].startKey, key);
        LessIrreflexive(key);
      }
    }
    if m < |s| {
      if m == n - 1 {
        LessIrreflexive(key);
      } else {
        LessAsymmetric(key, s[n].startKey);
      }
    }
    SeekGEUnique(s, key, m);
  }

  // ---------------------------------------------------------------------------
  // ReplaceOrInsert (sorted_btreev2.go:40-46)
  // ---------------------------------------------------------------------------

  /** `b.Set(item)`: store `r` under its start key. The second component is the region
      it displaced, or None when the key was new. */
  function ReplaceOrInsert(s: seq<Region>, r: Region): (res: (seq<Region>, Option<Region>))
    requires Sorted(s)
    ensures Sorted(res.0)
    ensures forall x :: x in res.0 <==> x == r || (x in s && x.startKey != r.startKey)
    ensures res.1.Some? ==> res.1.value in s && res.1.value.startKey == r.startKey
    ensures res.1.None? ==> forall x :: x in s ==> x.startKey != r.startKey
    ensures |res.0| == if res.1.None? then |s| + 1 else |s|
    decreases |s|
  {
    if |s| == 0 then ([r], None)
    else if Less(r.startKey, s[0].startKey) then
      BelowFirst(r.startKey, s);
      LessIrreflexive(r.startKey);
      SortedPrepend(r, s);
      ([r] + s, None)
    else if r.startKey == s[0].startKey then
      ReplaceHead(s, r);
      ([r] + s[1..], Some(s[0]))
    else
      var rest := ReplaceOrInsert(s[1..], r);
      LessTotal(r.startKey, s[0].startKey);
      InsertAfterHead(s, r, rest.0, rest.1);
      ([s[0]] + rest.0, rest.1)
  }

  /** The case of `ReplaceOrInsert` where the first entry carries `r`'s start key. */
  lemma ReplaceHead(s: seq<Region>, r: Region)
    requires Sorted(s) && |s| > 0 && r.startKey == s[0].startKey
    ensures Sorted([r] + s[1..])
    ensures forall x :: x in [r] + s[1..] <==> x == r || (x in s && x.startKey != r.startKey)
  {
    assert forall y :: y in s[1..] ==> Less(r.startKey, y.startKey);
    SortedPrepend(r, s[1..]);
    LessIrreflexive(r.startKey);
    forall x | x in s && x.startKey == r.startKey
      ensures x == s[0]
    {
      var j :| 0 <= j < |s| && s[j] == x;
      UniqueStartKeys(s, 0, j);
    }
  }

  /** The case of `ReplaceOrInsert` where `r` belongs after the first entry: the result
      for the rest, with the first entry put back in front. */
  lemma InsertAfterHead(s: seq<Region>, r: Region, t: seq<Region>, prev: Option<Region>)
    requires Sorted(s) && |s| > 0 && Less(s[0].startKey, r.startKey)
    requires Sorted(t)
    requires forall x :: x in t <==> x == r || (x in s[1..] && x.startKey != r.startKey)
    requires prev.Some? ==> prev.value in s[1..] && prev.value.startKey == r.startKey
    requires prev.None? ==> forall x :: x in s[1..] ==> x.startKey != r.startKey
    ensures Sorted([s[0]] + t)
    ensures forall x :: x in [s[0]] + t <==> x == r || (x in s && x.startKey != r.startKey)
    ensures prev.Some? ==> prev.value in s && prev.value.startKey == r.startKey
    ensures prev.None? ==> forall x :: x in s ==> x.startKey != r.startKey
  {
    LessIrreflexive(r.startKey);
    assert forall y :: y in s[1..] ==> Less(s[0].startKey, y.startKey);
    SortedPrepend(s[0], t);
    assert s == [s[0]] + s[1..];
  }

  // ---------------------------------------------------------------------------
  // SearchByKey (sorted_btreev2.go:50-61)
  // ---------------------------------------------------------------------------

  /** The `Descend` callback of `SearchByKey`, run over the entries s[..n] from the top:
      an end-key probe passes over an entry starting exactly at `key`; the first entry
      not passed over decides the answer and ends the traversal. */
  function Descend(s: seq<Region>, n: nat, key: Key, isEndKey: bool): (r: Option<Region>)
    requires n <= |s|
    ensures r.Some? ==> r.value in s[..n]
    ensures r.Some? && !isEndKey ==> r.value.Contains(key)
    ensures r.Some? && isEndKey ==> r.value.ContainsByEnd(key) && r.value.startKey != key
    ensures !isEndKey ==> r == if n > 0 && s[n - 1].Contains(key) then Some(s[n - 1]) else None
  {
    if n == 0 then None
    else
      var region := s[n - 1];
      if isEndKey && region.startKey == key then Descend(s, n - 1, key, isEndKey)
      else if (!isEndKey && region.Contains(key)) || (isEndKey && region.ContainsByEnd(key)) then Some(region)
      else None
  }

  /** The region holding `key`; for an end-key probe, the region `key` can close. Only
      the nearest candidate below is inspected: the last entry starting at or below `key`
      for a point probe, the last one starting strictly below `key` for an end-key probe.
      Liveness is not checked. */
  function SearchByKey(s: seq<Region>, key: Key, isEndKey: bool): (r: Option<Region>)
    requires Sorted(s)
    ensures r.Some? ==> r.value in s
    ensures r.Some? && !isEndKey ==> r.value.Contains(key)
    ensures r.Some? && isEndKey ==> r.value.ContainsByEnd(key) && r.value.startKey != key
    ensures !isEndKey ==>
      var n := SeekAfter(s, key);
      r == if n > 0 && s[n - 1].Contains(key) then Some(s[n - 1]) else None
    ensures isEndKey ==>
      var m := SeekGE(s, key);
      r == if m > 0 && s[m - 1].ContainsByEnd(key) then Some(s[m - 1]) else None
  {
    DescendFindsNearest(s, key, isEndKey);
    LessIrreflexive(key);
    Descend(s, SeekAfter(s, key), key, isEndKey)
  }

  /** The descending traversal stops at the nearest candidate: at most one entry, the one
      starting exactly at `key`, is passed over, and only by an end-key probe. */
  lemma DescendFindsNearest(s: seq<Region>, key: Key, isEndKey: bool)
    requires Sorted(s)
    ensures !isEndKey ==>
      var n := SeekAfter(s, key);
      Descend(s, n, key, isEndKey) == if n > 0 && s[n - 1].Contains(key) then Some(s[n - 1]) else None
    ensures isEndKey ==>
      var m := SeekGE(s, key);
      Descend(s, SeekAfter(s, key), key, isEndKey)
        == if m > 0 && s[m - 1].ContainsByEnd(key) then Some(s[m - 1]) else None
  {
    var n := SeekAfter(s, key);
    SeekGEFromSeekAfter(s, key);
    if isEndKey && n > 1 && s[n - 1].startKey == key {
      assert Less(s[n - 2].startKey, s[n - 1].startKey);
      LessIrreflexive(key);
      assert s[n - 2].startKey != key;
    }
  }

  // ---------------------------------------------------------------------------
  // AscendGreaterOrEqual (sorted_btreev2.go:66-86)
  // ---------------------------------------------------------------------------

  /** Whether the scan takes region `x` when the previous region ended at `expected`
      (or the scan started there). The scan stops at the first region that fails one of
      three checks: it starts at or past a non-empty `endKey`, it has expired at `now`,
      or it leaves an uncached hole because it does not contain `expected`. The checks
      are pure, so their order does not matter. */
  predicate Admits(x: Region, expected: Key, endKey: Key, now: int, alive: Liveness) {
    (|endKey| == 0 || Less(x.startKey, endKey)) && alive(x, now) && x.Contains(expected)
  }

  /** The callback's three early returns as written, in the code's order: `bytes.Compare`
      of the start key with a non-empty `endKey` at least 0, the TTL check, the hole check. */
  function AscendCallback(region: Region, lastStartKey: Key, endKey: Key, now: int, alive: Liveness): (takes: bool) {
    if |endKey| > 0 && LessEq(endKey, region.startKey) then false
    else if !alive(region, now) then false
    else if !region.Contains(lastStartKey) then false
    else true
  }

  /** `Admits` takes a region exactly when the callback does not return early on it, so
      the order of the three checks is immaterial. */
  lemma AdmitsIsAscendCallback(x: Region, expected: Key, endKey: Key, now: int, alive: Liveness)
    ensures Admits(x, expected, endKey, now, alive) <==> AscendCallback(x, expected, endKey, now, alive)
  {
    NotLessIsGreaterEq(x.startKey, endKey);
  }

  /** The key the next region of a scan must contain (`lastStartKey` in the Go code). */
  function NextExpected(run: seq<Region>, startKey: Key): Key {
    if |run| == 0 then startKey else run[|run| - 1].endKey
  }

  /** The `Ascend` callback of `AscendGreaterOrEqual`, run over s[i..]; `budget` is
      `limit` minus the number of regions already taken. What is taken is a stretch of
      consecutive entries from position i, and no more than the budget (at least one
      region is always taken when the first candidate qualifies). */
  function Collect(s: seq<Region>, i: nat, expected: Key, endKey: Key, budget: int, now: int, alive: Liveness)
    : (run: seq<Region>)
    requires i <= |s|
    ensures i + |run| <= |s|
    ensures |run| <= if budget < 1 then 1 else budget
    decreases |s| - i
  {
    if i == |s| || !Admits(s[i], expected, endKey, now, alive) then []
    else if budget <= 1 then [s[i]]
    else [s[i]] + Collect(s, i + 1, s[i].endKey, endKey, budget - 1, now, alive)
  }

  /** A stretch starting at i is its first entry followed by the stretch starting at i + 1. */
  lemma SliceCons(s: seq<Region>, i: nat, d: seq<Region>)
    requires i + 1 + |d| <= |s| && d == s[i + 1..i + 1 + |d|]
    ensures [s[i]] + d == s[i..i + 1 + |d|]
  {
  }

  /** What `Collect` takes is the stretch of consecutive entries s[i..i + |run|]. */
  lemma {:induction false} CollectIsSlice(s: seq<Region>, i: nat, expected: Key, endKey: Key, budget: int, now: int, alive: Liveness)
    requires i <= |s|
    ensures var run := Collect(s, i, expected, endKey, budget, now, alive);
      run == s[i..i + |run|]
    decreases |s| - i
  {
    if i < |s| && Admits(s[i], expected, endKey, now, alive) && budget > 1 {
      var rest := Collect(s, i + 1, s[i].endKey, endKey, budget - 1, now, alive);
      CollectIsSlice(s, i + 1, s[i].endKey, endKey, budget - 1, now, alive);
      SliceCons(s, i, rest);
    }
  }

  /** Every region `Collect` takes qualifies against the end key of the one before it,
      the first against `expected`. */
  lemma {:induction false} CollectChain(s: seq<Region>, i: nat, expected: Key, endKey: Key, budget: int, now: int, alive: Liveness)
    requires i <= |s|
    ensures var run := Collect(s, i, expected, endKey, budget, now, alive);
      |run| > 0 ==> Admits(run[0], expected, endKey, now, alive)
    ensures var run := Collect(s, i, expected, endKey, budget, now, alive);
      forall j :: 0 < j < |run| ==> Admits(run[j], run[j - 1].endKey, endKey, now, alive)
    decreases |s| - i
  {
    if i < |s| && Admits(s[i], expected, endKey, now, alive) && budget > 1 {
      var rest := Collect(s, i + 1, s[i].endKey, endKey, budget - 1, now, alive);
      assert Collect(s, i, expected, endKey, budget, now, alive) == [s[i]] + rest;
      CollectChain(s, i + 1, s[i].endKey, endKey, budget - 1, now, alive);
      ChainPrepend(s[i], rest, endKey, now, alive);
    }
  }

  /** `Collect` stops before the budget runs out only at a region that does not qualify:
      one past `endKey`, expired, or not containing the previous end key. */
  lemma {:induction false} CollectMaximal(s: seq<Region>, i: nat, expected: Key, endKey: Key, budget: int, now: int, alive: Liveness,
                                          run: seq<Region>)
    requires i <= |s|
    requires run == Collect(s, i, expected, endKey, budget, now, alive)
    ensures i + |run| < |s| && (|run| == 0 || |run| < budget) ==>
      !Admits(s[i + |run|], NextExpected(run, expected), endKey, now, alive)
    decreases |s| - i
  {
    if i == |s| || !Admits(s[i], expected, endKey, now, alive) {
      assert run == [];
    } else if budget <= 1 {
      assert |run| == 1;
    } else {
      var rest := Collect(s, i + 1, s[i].endKey, endKey, budget - 1, now, alive);
      assert run == [s[i]] + rest;
      CollectMaximal(s, i + 1, s[i].endKey, endKey, budget - 1, now, alive, rest);
      var k := i + |run|;
      assert k == (i + 1) + |rest|;
      if k < |s| && |run| < budget {
        assert |rest| == 0 || |rest| < budget - 1;
        assert NextExpected(run, expected) == NextExpected(rest, s[i].endKey);
        assert !Admits(s[(i + 1) + |rest|], NextExpected(rest, s[i].endKey), endKey, now, alive);
      }
    }
  }

  /** Putting a region in front of a chain that starts with a region containing its end
      key gives a chain. */
  lemma ChainPrepend(region: Region, rest: seq<Region>, endKey: Key, now: int, alive: Liveness)
    requires |rest| > 0 ==> Admits(rest[0], region.endKey, endKey, now, alive)
    requires forall j :: 0 < j < |rest| ==> Admits(rest[j], rest[j - 1].endKey, endKey, now, alive)
    ensures forall j :: 0 < j < |[region] + rest| ==>
      Admits(([region] + rest)[j], ([region] + rest)[j - 1].endKey, endKey, now, alive)
  {
    forall j | 0 < j < |[region] + rest|
      ensures Admits(([region] + rest)[j], ([region] + rest)[j - 1].endKey, endKey, now, alive)
    {
      assert ([region] + rest)[j] == rest[j - 1];
      if j > 1 {
        assert ([region] + rest)[j - 1] == rest[j - 2];
      }
    }
  }

  /** The longest run of consecutive entries from `startKey` on that are live at `now`,
      start below a non-empty `endKey`, and each contain the previous one's end key (the
      first contains `startKey`), cut off after `limit` regions (after one region when
      `limit` is below one). */
  function AscendGreaterOrEqual(s: seq<Region>, startKey: Key, endKey: Key, limit: int, now: int, alive: Liveness)
    : (run: seq<Region>)
    requires Sorted(s)
    ensures Sorted(run)
    ensures var m := SeekGE(s, startKey); m + |run| <= |s| && run == s[m..m + |run|]
    ensures |run| > 0 ==> run[0].startKey == startKey && run[0].Contains(startKey)
    ensures forall j :: 0 < j < |run| ==> run[j].Contains(run[j - 1].endKey)
    ensures forall x :: x in run ==> alive(x, now)
    ensures forall x :: x in run ==> |endKey| == 0 || Less(x.startKey, endKey)
    ensures |run| <= if limit < 1 then 1 else limit
    ensures (forall x :: x in s ==> x.startKey != startKey) ==> run == []
  {
    var m := SeekGE(s, startKey);
    var run := Collect(s, m, startKey, endKey, limit, now, alive);
    CollectIsSlice(s, m, startKey, endKey, limit, now, alive);
    AscendSpec(s, startKey, endKey, limit, now, alive, m, run);
    run
  }

  /** `AscendGreaterOrEqual` stops early only at a region that fails one of the three
      checks: when the run ends before the limit is reached and before the last entry,
      the next entry is past `endKey`, expired, or leaves a hole. */
  lemma AscendStopsAtFirstMisfit(s: seq<Region>, startKey: Key, endKey: Key, limit: int, now: int, alive: Liveness)
    requires Sorted(s)
    ensures var m := SeekGE(s, startKey);
      var run := AscendGreaterOrEqual(s, startKey, endKey, limit, now, alive);
      m + |run| < |s| && (|run| == 0 || |run| < limit) ==>
        !Admits(s[m + |run|], NextExpected(run, startKey), endKey, now, alive)
  {
    var m := SeekGE(s, startKey);
    var run := AscendGreaterOrEqual(s, startKey, endKey, limit, now, alive);
    CollectMaximal(s, m, startKey, endKey, limit, now, alive, run);
  }

  lemma AscendSpec(s: seq<Region>, startKey: Key, endKey: Key, limit: int, now: int, alive: Liveness,
                   m: nat, run: seq<Region>)
    requires Sorted(s)
    requires m == SeekGE(s, startKey)
    requires run == Collect(s, m, startKey, endKey, limit, now, alive)
    ensures Sorted(run)
    ensures |run| > 0 ==> run[0].startKey == startKey && run[0].Contains(startKey)
    ensures forall j :: 0 < j < |run| ==> run[j].Contains(run[j - 1].endKey)
    ensures forall x :: x in run ==> alive(x, now)
    ensures forall x :: x in run ==> |endKey| == 0 || Less(x.startKey, endKey)
    ensures (forall x :: x in s ==> x.startKey != startKey) ==> run == []
  {
    CollectChain(s, m, startKey, endKey, limit, now, alive);
    CollectIsSlice(s, m, startKey, endKey, limit, now, alive);
    SortedStretch(s, m, run);
    AdmittedRunFacts(run, startKey, endKey, now, alive);
    if |run| > 0 {
      assert run[0] == s[m];
    }
  }

  /** What the chain condition says of each region of a run, one fact at a time. */
  lemma AdmittedRunFacts(run: seq<Region>, startKey: Key, endKey: Key, now: int, alive: Liveness)
    requires |run| > 0 ==> Admits(run[0], startKey, endKey, now, alive)
    requires forall j :: 0 < j < |run| ==> Admits(run[j], run[j - 1].endKey, endKey, now, alive)
    ensures |run| > 0 ==> run[0].Contains(startKey)
    ensures forall j :: 0 < j < |run| ==> run[j].Contains(run[j - 1].endKey)
    ensures forall x :: x in run ==> alive(x, now)
    ensures forall x :: x in run ==> |endKey| == 0 || Less(x.startKey, endKey)
  {
    forall x | x in run
      ensures alive(x, now) && (|endKey| == 0 || Less(x.startKey, endKey))
    {
      var j :| 0 <= j < |run| && run[j] == x;
      if j > 0 {
        assert Admits(run[j], run[j - 1].endKey, endKey, now, alive);
      }
    }
  }

  // ---------------------------------------------------------------------------
  // removeIntersecting (sorted_btreev2.go:90-115)
  // ---------------------------------------------------------------------------

  /** The index after `removeIntersecting`, the removed entries, and the stale flag. */
  datatype RemoveResult = RemoveResult(index: seq<Region>, deleted: seq<Region>, stale: bool)

  /** The `Ascend` callback of `removeIntersecting`, run over s[i..]: collects entries
      until one starts at or past a non-empty `r.endKey`, and reports stale at the first
      entry whose epoch version is newer than `ver`. */
  function ScanIntersecting(s: seq<Region>, i: nat, r: Region, ver: uint64): (res: (seq<Region>, bool))
    requires Sorted(s) && i <= |s|
    requires forall j :: i <= j < |s| ==> LessEq(r.startKey, s[j].startKey)
    ensures i + |res.0| <= |s|
    ensures forall x :: x in res.0 ==> x.epoch.version <= ver
    ensures forall j :: i <= j < i + |res.0| ==> r.Contains(s[j].startKey)
    ensures !res.1 ==> forall j :: i + |res.0| <= j < |s| ==> !r.Contains(s[j].startKey)
    ensures res.1 <==> exists j :: i <= j < |s| && r.Contains(s[j].startKey) && s[j].epoch.version > ver
    decreases |s| - i
  {
    if i == |s| then ([], false)
    else if |r.endKey| > 0 && !Less(s[i].startKey, r.endKey) then
      NotBelowFromHere(s, i, r.endKey);
      NotLessIsGreaterEq(s[i].startKey, r.endKey);
      assert forall j :: i <= j < |s| ==> !Less(s[j].startKey, r.endKey) by {
        forall j | i <= j < |s|
          ensures !Less(s[j].startKey, r.endKey)
        {
          NotLessIsGreaterEq(s[j].startKey, r.endKey);
        }
      }
      ([], false)
    else if s[i].epoch.version > ver then ([], true)
    else
      var (d, stale) := ScanIntersecting(s, i + 1, r, ver);
      ([s[i]] + d, stale)
  }

  /** What `ScanIntersecting` collects is the stretch of consecutive entries s[i..i + |d|]. */
  lemma {:induction false} ScanIsSlice(s: seq<Region>, i: nat, r: Region, ver: uint64)
    requires Sorted(s) && i <= |s|
    requires forall j :: i <= j < |s| ==> LessEq(r.startKey, s[j].startKey)
    ensures var d := ScanIntersecting(s, i, r, ver).0;
      d == s[i..i + |d|]
    decreases |s| - i
  {
    if i < |s| && !(|r.endKey| > 0 && !Less(s[i].startKey, r.endKey)) && s[i].epoch.version <= ver {
      var d := ScanIntersecting(s, i + 1, r, ver).0;
      assert ScanIntersecting(s, i, r, ver).0 == [s[i]] + d;
      ScanIsSlice(s, i + 1, r, ver);
      SliceCons(s, i, d);
    }
  }

  /** `b.Delete(item)`: remove the entry stored under start key `k`, if any. */
  function Delete(s: seq<Region>, k: Key): (t: seq<Region>)
    requires Sorted(s)
    ensures Sorted(t)
    ensures forall x :: x in t <==> x in s && x.startKey != k
  {
    if |s| == 0 then []
    else if s[0].startKey == k then
      assert forall x :: x in s && x.startKey != k ==> x in s[1..];
      assert forall y :: y in s[1..] ==> Less(k, y.startKey);
      LessIrreflexive(k);
      assert Sorted(s[1..]) by { SortedStretch(s, 1, s[1..]); }
      s[1..]
    else
      var t := Delete(s[1..], k);
      assert forall y :: y in s[1..] ==> Less(s[0].startKey, y.startKey);
      SortedPrepend(s[0], t);
      assert s == [s[0]] + s[1..];
      [s[0]] + t
  }

  /** The deletion loop: `Delete` each of `ds` in turn, by its start key. */
  function DeleteAll(s: seq<Region>, ds: seq<Region>): (t: seq<Region>)
    requires Sorted(s)
    ensures Sorted(t)
    ensures forall x :: x in t <==> x in s && forall d :: d in ds ==> d.startKey != x.startKey
    decreases |ds|
  {
    if |ds| == 0 then s
    else
      var t := DeleteAll(Delete(s, ds[0].startKey), ds[1..]);
      assert forall d :: d in ds ==> d == ds[0] || d in ds[1..];
      t
  }

  /** Make room for `r`: if some stored entry whose start key lies in [r.startKey, r.endKey)
      has an epoch version newer than `verID.ver`, report stale and change nothing;
      otherwise remove all those entries and return them in increasing order. Entries
      starting below `r.startKey` stay, even when their range overlaps `r`. */
  function RemoveIntersecting(s: seq<Region>, r: Region, verID: RegionVerID): (res: RemoveResult)
    requires Sorted(s)
    ensures res.stale <==> exists x :: x in s && r.Contains(x.startKey) && x.epoch.version > verID.ver
    ensures res.stale ==> res.index == s && res.deleted == []
    ensures Sorted(res.index) && Sorted(res.deleted)
    ensures forall x :: x in res.deleted ==> x.epoch.version <= verID.ver
    ensures !res.stale ==> forall x :: x in res.deleted <==> x in s && r.Contains(x.startKey)
    ensures !res.stale ==> forall x :: x in res.index <==> x in s && !r.Contains(x.startKey)
  {
    var m := SeekGE(s, r.startKey);
    AtOrAboveSeek(s, r.startKey);
    var scan := ScanIntersecting(s, m, r, verID.ver);
    ScanCoversRange(s, r, verID.ver);
    if scan.1 then RemoveResult(s, [], true)
    else
      var index := DeleteAll(s, scan.0);
      RemainingOutsideRange(s, r, scan.0, index);
      RemoveResult(index, scan.0, false)
  }

  /** Deleting by start key every in-range entry leaves exactly the out-of-range ones. */
  lemma RemainingOutsideRange(s: seq<Region>, r: Region, deleted: seq<Region>, t: seq<Region>)
    requires forall x :: x in deleted <==> x in s && r.Contains(x.startKey)
    requires forall x :: x in t <==> x in s && forall d :: d in deleted ==> d.startKey != x.startKey
    ensures forall x :: x in t <==> x in s && !r.Contains(x.startKey)
  {
    forall x | x in s && r.Contains(x.startKey)
      ensures x !in t
    {
      assert x in deleted;
    }
  }

  /** Scanning from the seek position of `r.startKey` meets every entry in `r`'s range:
      the stale flag speaks of all of them, and otherwise the scan collects exactly them. */
  lemma ScanCoversRange(s: seq<Region>, r: Region, ver: uint64)
    requires Sorted(s)
    requires forall j :: SeekGE(s, r.startKey) <= j < |s| ==> LessEq(r.startKey, s[j].startKey)
    ensures var res := ScanIntersecting(s, SeekGE(s, r.startKey), r, ver);
      && (res.1 <==> exists x :: x in s && r.Contains(x.startKey) && x.epoch.version > ver)
      && (!res.1 ==> forall x :: x in res.0 <==> x in s && r.Contains(x.startKey))
      && Sorted(res.0)
  {
    var m := SeekGE(s, r.startKey);
    BelowSeekNotContained(s, r);
    var res := ScanIntersecting(s, m, r, ver);
    ScanIsSlice(s, m, r, ver);
    RangeSliceFacts(s, r, ver, m, res.0, res.1);
    SortedStretch(s, m, res.0);
  }

  /** A slice s[m..m+|d|] that holds exactly the in-range entries at or after m, when
      none before m are in range, holds exactly the in-range entries of s. */
  lemma RangeSliceFacts(s: seq<Region>, r: Region, ver: uint64, m: int, d: seq<Region>, stale: bool)
    requires 0 <= m && m + |d| <= |s| && d == s[m..m + |d|]
    requires forall j :: 0 <= j < m ==> !r.Contains(s[j].startKey)
    requires forall j :: m <= j < m + |d| ==> r.Contains(s[j].startKey)
    requires !stale ==> forall j :: m + |d| <= j < |s| ==> !r.Contains(s[j].startKey)
    requires stale <==> exists j :: m <= j < |s| && r.Contains(s[j].startKey) && s[j].epoch.version > ver
    ensures stale <==> exists x :: x in s && r.Contains(x.startKey) && x.epoch.version > ver
    ensures !stale ==> forall x :: x in d <==> x in s && r.Contains(x.startKey)
  {
    if exists x :: x in s && r.Contains(x.startKey) && x.epoch.version > ver {
      var x :| x in s && r.Contains(x.startKey) && x.epoch.version > ver;
      var j :| 0 <= j < |s| && s[j] == x;
      assert m <= j;
    }
    if stale {
      var j :| m <= j < |s| && r.Contains(s[j].startKey) && s[j].epoch.version > ver;
      assert s[j] in s;
    }
    if !stale {
      forall x | x in s && r.Contains(x.startKey)
        ensures x in d
      {
        var j :| 0 <= j < |s| && s[j] == x;
        assert m <= j < m + |d|;
        assert d[j - m] == x;
      }
      forall x | x in d
        ensures x in s && r.Contains(x.startKey)
      {
        var j :| 0 <= j < |d| && d[j] == x;
        assert x == s[m + j];
      }
    }
  }

  /** In a sorted sequence every entry from the seek position of `key` on starts at or above it. */
  lemma AtOrAboveSeek(s: seq<Region>, key: Key)
    requires Sorted(s)
    ensures forall j :: SeekGE(s, key) <= j < |s| ==> LessEq(key, s[j].startKey)
  {
    if SeekGE(s, key) < |s| {
      NotBelowFromHere(s, SeekGE(s, key), key);
    }
  }

  /** In a sorted sequence every entry from `SeekAfter(s, key)` on starts above `key`. */
  lemma AboveSeekAfter(s: seq<Region>, key: Key)
    requires Sorted(s)
    ensures forall j :: SeekAfter(s, key) <= j < |s| ==> Less(key, s[j].startKey)
  {
    var n := SeekAfter(s, key);
    forall j | n < j < |s|
      ensures Less(key, s[j].startKey)
    {
      LessTransitive(key, s[n].startKey, s[j].startKey);
    }
  }

  /** Entries before the seek position of `r.startKey` are not in `r`'s range. */
  lemma BelowSeekNotContained(s: seq<Region>, r: Region)
    ensures forall j :: 0 <= j < SeekGE(s, r.startKey) ==> !r.Contains(s[j].startKey)
  {
    forall j | 0 <= j < SeekGE(s, r.startKey)
      ensures !r.Contains(s[j].startKey)
    {
      NotLessIsGreaterEq(s[j].startKey, r.startKey);
    }
  }

  // ---------------------------------------------------------------------------
  // Clear and ValidRegionsInBtree (sorted_btreev2.go:118-133)
  // ---------------------------------------------------------------------------

  /** `b.Clear()`: the empty index. */
  function Clear(): (s: seq<Region>)
    ensures Sorted(s)
    ensures forall k :: EntryAt(s, k) == None
  {
    []
  }

  /** Number of entries alive at `ts`, counted from the last entry down as `Reverse` does. */
  function ValidRegionsInBtree(s: seq<Region>, ts: int, alive: Liveness): (n: nat)
    ensures n <= |s|
    ensures n == |s| <==> forall x :: x in s ==> alive(x, ts)
    ensures n == 0 <==> forall x :: x in s ==> !alive(x, ts)
  {
    if |s| == 0 then 0
    else
      var init := s[..|s| - 1];
      var last := s[|s| - 1];
      assert s == init + [last];
      (if alive(last, ts) then 1 else 0) + ValidRegionsInBtree(init, ts, alive)
  }

  /** The entries alive at `ts`, in index order: the reference the count is measured against. */
  function AliveEntries(s: seq<Region>, ts: int, alive: Liveness): (live: seq<Region>)
    ensures forall x :: x in live <==> x in s && alive(x, ts)
  {
    if |s| == 0 then []
    else
      assert forall x :: x in s <==> x == s[0] || x in s[1..];
      (if alive(s[0], ts) then [s[0]] else []) + AliveEntries(s[1..], ts, alive)
  }

  /** Counting from the back, as `ValidRegionsInBtree` does, adds the first entry last. */
  lemma {:induction false} ValidRegionsCons(x: Region, s: seq<Region>, ts: int, alive: Liveness)
    ensures ValidRegionsInBtree([x] + s, ts, alive) == (if alive(x, ts) then 1 else 0) + ValidRegionsInBtree(s, ts, alive)
    decreases |s|
  {
    if |s| > 0 {
      var init := s[..|s| - 1];
      assert ([x] + s)[..|[x] + s| - 1] == [x] + init;
      assert ([x] + s)[|[x] + s| - 1] == s[|s| - 1];
      ValidRegionsCons(x, init, ts, alive);
    }
  }

  /** `ValidRegionsInBtree` counts exactly the entries alive at `ts`. */
  lemma {:induction false} ValidRegionsCountsAliveEntries(s: seq<Region>, ts: int, alive: Liveness)
    ensures ValidRegionsInBtree(s, ts, alive) == |AliveEntries(s, ts, alive)|
    decreases |s|
  {
    if |s| > 0 {
      assert s == [s[0]] + s[1..];
      ValidRegionsCons(s[0], s[1..], ts, alive);
      ValidRegionsCountsAliveEntries(s[1..], ts, alive);
    }
  }
}
