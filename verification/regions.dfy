/** The cached region record the index stores. Its own construction, refresh and
    TTL bookkeeping live outside the index; only what the index reads is kept. */
module Regions {
  import opened Bytes

  type uint64 = x: int | 0 <= x < 0x1_0000_0000_0000_0000

  /** The region epoch: `version` grows on split/merge, `confVer` on membership change. */
  datatype RegionEpoch = RegionEpoch(confVer: uint64, version: uint64)

  /** The identity a freshly fetched region is installed under. */
  datatype RegionVerID = RegionVerID(id: uint64, confVer: uint64, ver: uint64)

  /** A region covers the half-open key range [startKey, endKey); an empty end key
      means the range is unbounded above. */
  datatype Region = Region(id: uint64, startKey: Key, endKey: Key, epoch: RegionEpoch)
  {
    /** Point membership: startKey <= key and (endKey is empty or key < endKey). */
    predicate Contains(key: Key) {
      LessEq(startKey, key) && (|endKey| == 0 || Less(key, endKey))
    }

    /** Membership of `key` used as an exclusive range end: startKey < key and
        (endKey is empty or key <= endKey). */
    predicate ContainsByEnd(key: Key) {
      Less(startKey, key) && (|endKey| == 0 || LessEq(key, endKey))
    }

    /** The region's own key range is not empty. */
    predicate NonEmptyRange() {
      |endKey| == 0 || Less(startKey, endKey)
    }
  }

  /** The cache-TTL check `checkRegionCacheTTL(ts)`: whether a region may still be used
      at Unix time `ts`. Its implementation is outside the index, so every operation
      that needs it takes it as a parameter. */
  type Liveness = (Region, int) -> bool
}
