# Region index of the TiKV Go client (`SortedRegionsV2`)

The region cache of the TiKV Go client keeps its cached regions in `SortedRegionsV2`,
an ordered map from a region's start key to the region. A B-tree backs it. This
project models that index and proves properties of the model. The index supports six
operations:

- `ReplaceOrInsert` stores a region under its start key and returns the region it
  displaced.
- `SearchByKey` finds the region that holds a key. Used as an end-key probe, it finds
  the region that the key can close.
- `AscendGreaterOrEqual` lists a run of contiguous, live regions starting at a start
  key. It stops at the first hole, expired region, end key or limit.
- `removeIntersecting` makes room for a freshly fetched region. Either it removes every
  entry starting inside the new region's range, or it refuses as a whole because one of
  them is newer.
- `Clear` empties the index.
- `ValidRegionsInBtree` counts the regions that are still alive.

The B-tree is modelled by the sequence of its items in key order. The tree's ordering
invariant becomes the predicate `SortedRegions.Sorted`: start keys strictly increase
under `bytes.Compare`. Every operation is a pure function:

- the mutating ones return the new sequence. `ReplaceOrInsert` returns it with the
  displaced region, `removeIntersecting` with the removed regions and the stale flag,
  and `Clear` returns only the new sequence. Each preserves `Sorted`.
- the read-only ones (`SearchByKey`, `AscendGreaterOrEqual`, `ValidRegionsInBtree`)
  return only their Go result.

Two B-tree traversals are modelled by positions in the sequence:

- `Ascend(pivot)` starts at `SortedRegions.SeekGE`.
- `Descend(pivot)` starts just below `SortedRegions.SeekAfter`.

Files:

- `wrappers.dfy`: `Option`, the model of a Go result that may be nil.
- `bytes.dfy`: byte-string keys and `bytes.Compare` as the strict total order `Less`.
- `regions.dfy`: the cached region as the index sees it: id, key range, epoch. It also
  holds its two range predicates and the liveness parameter type.
- `sorted_regions.dfy`: the index and its six operations, each with the lemmas its
  contract rests on.
- `properties.dfy`: properties that relate several operations, and small concrete
  scenarios: a hole in coverage, an expired region, a limit, the staleness veto, an
  overlap that is kept.

The TTL check `checkRegionCacheTTL` is defined outside this file. It is modelled as an
arbitrary pure predicate `alive(region, ts)` that the caller passes in. The clock read
by `AscendGreaterOrEqual` becomes its `now` parameter.

## Model

| member | source | states |
|---|---|---|
| Bytes.LessTransitive | internal/locate/sorted_btreev2.go:35 | the key order the tree is built with is transitive |
| Bytes.LessTotal | internal/locate/sorted_btreev2.go:35 | any two distinct keys are ordered one way or the other, so the tree's order is total |
| Bytes.NotLessIsGreaterEq | internal/locate/sorted_btreev2.go:72 | `bytes.Compare(a, b) >= 0`, the stop test, is exactly "b <= a" |
| SortedRegions.SeekGE | internal/locate/sorted_btreev2.go:70 | the position where `Ascend(pivot)` starts: every earlier entry starts below the key, and the entry there (if any) does not |
| SortedRegions.SeekAfter | internal/locate/sorted_btreev2.go:51 | the position just above where `Descend(pivot)` starts: every earlier entry starts at or below the key, and the entry there (if any) starts above it |
| SortedRegions.SeekAtEntry | internal/locate/sorted_btreev2.go:51 | seeking a stored start key lands exactly on its entry, from either side |
| SortedRegions.SeekGEFromSeekAfter | internal/locate/sorted_btreev2.go:53-54 | the two seek positions differ by one exactly when an entry starts at the key itself, which is the entry an end-key probe passes over |
| SortedRegions.EntryFromSpec | internal/locate/sorted_btreev2.go:41 | a search of the map view from any position finds the entry at or after it that carries the start key, and only that entry |
| SortedRegions.EntryAtSpec | internal/locate/sorted_btreev2.go:41 | in a sorted index, the map view returns the unique entry carrying a start key, and nothing else |
| SortedRegions.ReplaceOrInsert | internal/locate/sorted_btreev2.go:40-47 | the result stays sorted and holds `r` plus exactly the old entries with other start keys. It returns the displaced entry, which is stored and has `r`'s start key, or None when no entry had that key. The size grows by one exactly when None is returned |
| SortedRegionsProperties.ReplaceOrInsertIsMapUpdate | internal/locate/sorted_btreev2.go:40-47 | seen as a map from start key to region, the operation is the update `m[r.startKey := r]`. It returns the previous value at that key, and no other key changes |
| SortedRegions.SearchByKey | internal/locate/sorted_btreev2.go:50-62 | the answer is a stored region that contains the key, or that closes it for an end-key probe without starting at it. A point probe looks at the last entry starting at or below the key and nothing else. An end-key probe looks only at the last entry starting strictly below the key |
| SortedRegions.Descend | internal/locate/sorted_btreev2.go:51-60 | the `Descend` callback answers with an entry below its start position, or nil. The entry contains the key for a point probe. For an end-key probe it can be closed by the key and does not start at it. A point probe decides on the first entry it visits |
| SortedRegions.DescendFindsNearest | internal/locate/sorted_btreev2.go:51-60 | the descending traversal decides on its first candidate. An end-key probe skips at most one entry, the one starting exactly at the key |
| SortedRegionsProperties.BoundaryDisambiguation | internal/locate/sorted_btreev2.go:53-57 | for adjacent stored regions [a, b) and [b, c), probing b as a point finds [b, c), and probing b as an end key finds [a, b) |
| SortedRegionsProperties.SearchFindsInserted | internal/locate/sorted_btreev2.go:50-58 | after a region with a non-empty range is stored, a point probe of its start key returns it |
| SortedRegionsProperties.SearchByKeyCompleteWhenDisjoint | internal/locate/sorted_btreev2.go:51-59 | when stored regions do not overlap, looking only at the nearest candidate loses nothing: a point probe returns nil exactly when no stored region contains the key |
| SortedRegionsProperties.EndKeySearchCompleteWhenDisjoint | internal/locate/sorted_btreev2.go:53-59 | likewise, an end-key probe returns nil exactly when no stored region can be closed by the key |
| SortedRegions.AdmitsIsAscendCallback | internal/locate/sorted_btreev2.go:72-80 | `Admits`, the conjunction of the three checks, holds exactly when the callback as written (`bytes.Compare(start, endKey) >= 0` with a non-empty end key, then the TTL check, then the hole check) does not return early |
| SortedRegions.Collect | internal/locate/sorted_btreev2.go:70-84 | the callback takes entries from its start position onwards, never past the end of the index. It takes at most as many as the limit allows, and at most one when the limit is below one, because the limit test comes after the append |
| SortedRegions.CollectIsSlice | internal/locate/sorted_btreev2.go:70-82 | what the callback takes is a stretch of consecutive entries from the start position |
| SortedRegions.CollectChain | internal/locate/sorted_btreev2.go:72-81 | each region taken is below the end key and alive. It also contains the previous region's end key, or the start key for the first region |
| SortedRegions.CollectMaximal | internal/locate/sorted_btreev2.go:72-83 | if the callback stops before the limit and before the last entry, the next entry fails one of the three checks |
| SortedRegions.AscendGreaterOrEqual | internal/locate/sorted_btreev2.go:64-86 | the result is the stretch of stored entries from the first start key at or above `startKey`, in strictly increasing order. The first region starts at `startKey`, and each later region contains the previous one's end key. Every region is alive at `now` and starts below a non-empty `endKey`. There are at most `limit` regions (at most one when `limit` < 1). The result is empty when `startKey` is not a stored start key |
| SortedRegions.AscendStopsAtFirstMisfit | internal/locate/sorted_btreev2.go:70-84 | the scan is maximal: when it ends early, the next entry is past `endKey`, expired, or leaves an uncached hole |
| SortedRegionsProperties.AscendFindsInserted | internal/locate/sorted_btreev2.go:66-83 | after a live region is stored, a scan from its start key that `endKey` does not cut off begins with that region |
| SortedRegionsProperties.ScanStopsAtHole | internal/locate/sorted_btreev2.go:78-80 | with live [1,2), [2,3), [4,5) stored, a scan from 1 returns the first two regions and never the one after the hole |
| SortedRegionsProperties.ScanStopsAtExpired | internal/locate/sorted_btreev2.go:75-77 | with [2,3) expired, the same scan returns [1,2) alone |
| SortedRegionsProperties.ScanStopsAtLimit | internal/locate/sorted_btreev2.go:83 | with limit 1, the same scan returns [1,2) alone |
| SortedRegions.ScanIntersecting | internal/locate/sorted_btreev2.go:94-107 | the callback collects only in-range entries, and only ones no newer than `ver`. It reports stale exactly when some entry from its start position on is in range and newer. When it does not report stale, every entry after what it collected is out of range |
| SortedRegions.ScanIsSlice | internal/locate/sorted_btreev2.go:94-107 | what the callback collects is a stretch of consecutive entries |
| SortedRegions.ScanCoversRange | internal/locate/sorted_btreev2.go:94-110 | started at the seek position of `r`'s start key, the callback meets every entry in `r`'s range. Its stale flag speaks of all of them, and otherwise it collects exactly them, in order |
| SortedRegions.Delete | internal/locate/sorted_btreev2.go:112 | `Delete` removes exactly the entry with the given start key and keeps the index sorted |
| SortedRegions.DeleteAll | internal/locate/sorted_btreev2.go:111-113 | the deletion loop leaves exactly the entries whose start key is not that of a deleted item |
| SortedRegions.RemoveIntersecting | internal/locate/sorted_btreev2.go:90-115 | the result is stale exactly when some stored entry starts in [r.startKey, r.endKey) with a version newer than `verID.ver`. Then the index is unchanged and nothing is returned. Otherwise exactly the in-range entries are removed and returned, sorted and no newer than `verID.ver`, and exactly the out-of-range entries remain, sorted |
| SortedRegionsProperties.RemoveIntersectingRemovesSameStart | internal/locate/sorted_btreev2.go:94-105 | an entry stored at `r`'s own start key is removed and returned too, unless the call is stale |
| SortedRegionsProperties.RemoveThenInsertIsFresh | internal/locate/sorted_btreev2.go:108-114 | after a removal that is not stale, storing `r` displaces nothing and grows the index by one. The index stays sorted and holds exactly `r` and the old entries starting outside `r`'s range |
| SortedRegionsProperties.StalenessVetoIsGlobal | internal/locate/sorted_btreev2.go:98-110 | with [1,2) at version 5 and [2,3) at version 3 stored, removing for [1,3) at version 4 is refused whole. Both entries stay, including the older one |
| SortedRegionsProperties.RemovalKeepsLowerOverlap | internal/locate/sorted_btreev2.go:94-97 | in any sorted index, an entry starting below `r.startKey` is kept and not reported as removed, whether or not its range reaches into `r` and whether or not the call is stale |
| SortedRegionsProperties.RemovalKeepsLowerOverlapExample | internal/locate/sorted_btreev2.go:94-97 | in the scenario with stored [1, 3) and a removal for [2, 4) at version 9, the call is not stale, removes nothing and keeps [1, 3) |
| SortedRegions.Clear | internal/locate/sorted_btreev2.go:118-120 | after `Clear` no start key maps to any region |
| SortedRegionsProperties.ClearForgetsEverything | internal/locate/sorted_btreev2.go:117-133 | after `Clear`, the count is 0, every probe returns nil and every scan is empty |
| SortedRegions.ValidRegionsInBtree | internal/locate/sorted_btreev2.go:123-133 | the count is at most the index size. It equals the size exactly when every entry is alive at `ts`, and is 0 exactly when none is |
| SortedRegions.AliveEntries | internal/locate/sorted_btreev2.go:126-129 | the reference for the count: the entries alive at `ts`, and no others |
| SortedRegions.ValidRegionsCountsAliveEntries | internal/locate/sorted_btreev2.go:123-133 | the backward count equals the number of entries alive at `ts` |

## Left out

- The B-tree itself is not modelled: nodes, balancing, and the degree argument of
  `NewSortedRegionsV2`, which the code ignores. Its in-order item sequence stands in
  for it. `NewSortedRegionsV2` corresponds to the empty sequence, the same value
  `Clear` returns.
- `btreeItem.Less` and `newBtreeSearchItem` are not part of this model. Items are
  taken to be ordered by `bytes.Compare` on their start keys.
- The Go definitions of `Region.Contains` and `Region.ContainsByEnd` lie outside the
  modelled file. `regions.dfy` states the half-open semantics the index assumes for
  them: [startKey, endKey) for a point key and (startKey, endKey] for an end key,
  where an empty end key is unbounded.
- `checkRegionCacheTTL` is an arbitrary pure predicate passed in as `alive`. Its real
  implementation, including any side effect on the region's TTL, is not modelled.
- `time.Now().Unix()` is the `now` parameter of `AscendGreaterOrEqual`.
- The debug log of a stale region (lines 99-101) has no effect on the result and is
  not modelled.
- Concurrency is not modelled. The index does no locking of its own and relies on its
  caller's lock, so each operation is modelled as one atomic step.
- `removeIntersecting` returns its deleted B-tree items as the regions they carry. An
  item is just a region keyed by its start key, so nothing is lost.
- The epoch's conf version is carried but never compared, as in the code: only the
  version decides staleness.
- The hole check is the code's `!region.Contains(lastStartKey)` (line 78). It is not
  the stricter "the start key equals the previous end key". A region that starts
  below the previous end key but still contains it is taken.
- The doc comment of `removeIntersecting` (line 89) says a region already in the cache
  is not removed. The code removes an entry at the same start key like any other
  in-range entry, and the model follows the code
  (`SortedRegionsProperties.RemoveIntersectingRemovesSameStart`).
