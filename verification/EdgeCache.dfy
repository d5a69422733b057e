/**
 The edge cache as the object the runtime updates in place.
 */
module EdgeCacheObject {
  import opened Wire
  import opened CacheModel

  class EdgeCache {
    var cache: map<Key, Entry>
    var maxSizeBytes: SizeT
    var currentSizeBytes: SizeT

    function State(): Cache
      reads this
    {
      Cache(cache, maxSizeBytes, currentSizeBytes)
    }

    /** Without timestamps below `UINT64_MAX` the scan for a victim could find none, and the
        eviction loop would not end. */
    predicate Valid()
      reads this
    {
      WellKept(cache)
    }

    constructor ()
      ensures Valid() && State() == FRESH
    {
      cache, maxSizeBytes, currentSizeBytes := map[], DEFAULT_MAX_SIZE, 0;
    }

    /** Sets the limit and zeroes the counter, but keeps the entries. */
    method Initialize(maxSize: SizeT)
      requires Valid()
      modifies this
      ensures Valid() && State() == Step(old(State()), CacheModel.Initialize(maxSize))
      ensures maxSizeBytes == maxSize && currentSizeBytes == 0 && cache == old(cache)
    {
      maxSizeBytes := maxSize;
      currentSizeBytes := 0;
    }

    method Shutdown()
      requires Valid()
      modifies this
      ensures Valid() && State() == Step(old(State()), CacheModel.Shutdown)
    {
      Clear();
    }

    /** Makes room first and stores afterwards, so that one entry can reach over the limit. */
    method Put(key: Key, data: Bytes)
      requires Valid()
      modifies this
      ensures Valid() && State() == Step(old(State()), CacheModel.Put(key, data))
    {
      EvictIfNeeded();
      if key in cache {
        currentSizeBytes := Minus(currentSizeBytes, |cache[key].data|);
      }
      var entry := Entry(key, data, 0, 0);
      cache := cache[key := entry];
      currentSizeBytes := Plus(currentSizeBytes, |data|);
    }

    /** On a hit hands out the data and counts the access; on a miss leaves `data` alone. */
    method Get(key: Key, data: Bytes) returns (found: bool, out: Bytes)
      requires Valid()
      modifies this
      ensures Valid() && State() == Step(old(State()), CacheModel.Get(key))
      ensures found <==> Lookup(old(State()), key).Some?
      ensures out == if found then Lookup(old(State()), key).value else data
    {
      if key !in cache {
        return false, data;
      }
      var entry := cache[key];
      cache := cache[key := entry.(accessCount := Plus(entry.accessCount, 1), timestamp := 0)];
      return true, entry.data;
    }

    method Remove(key: Key) returns (removed: bool)
      requires Valid()
      modifies this
      ensures Valid() && State() == Step(old(State()), CacheModel.Remove(key))
      ensures removed <==> key in old(cache)
    {
      if key !in cache {
        return false;
      }
      currentSizeBytes := Minus(currentSizeBytes, |cache[key].data|);
      cache := cache - {key};
      return true;
    }

    method Clear()
      requires Valid()
      modifies this
      ensures Valid() && State() == Step(old(State()), CacheModel.Clear)
    {
      cache, currentSizeBytes := map[], 0;
    }

    method Size() returns (n: nat)
      ensures n == |State().entries|
    {
      n := |cache|;
    }

    method GetMaxSize() returns (n: SizeT)
      ensures n == State().maxSize
    {
      n := maxSizeBytes;
    }

    method IsFull() returns (full: bool)
      ensures full <==> State().currentSize >= State().maxSize
    {
      full := currentSizeBytes >= maxSizeBytes;
    }

    method SetMaxSize(maxSize: SizeT)
      requires Valid()
      modifies this
      ensures Valid() && State() == Step(old(State()), CacheModel.SetMaxSize(maxSize))
      ensures maxSizeBytes == maxSize
    {
      maxSizeBytes := maxSize;
      EvictIfNeeded();
    }

    /** While the budget is used up, scans for the entry with the smallest timestamp, the first
        of them in key order, and removes it. As all timestamps are equal that is the least key. */
    method EvictIfNeeded()
      requires Valid()
      modifies this
      ensures Valid() && State() == Evict(old(State()))
    {
      while currentSizeBytes >= maxSizeBytes && cache != map[]
        invariant Valid() && Evict(State()) == Evict(old(State()))
        decreases |cache|
      {
        var victim := FindOldest();
        var _ := Remove(victim);
      }
    }

    /** The scan over the map in key order. */
    method FindOldest() returns (oldestKey: Key)
      requires Valid() && cache != map[]
      ensures oldestKey == LeastKey(cache.Keys)
    {
      oldestKey := 0;
      var oldestTime: UInt64 := UINT64_MAX;
      var keys := Ascending(cache.Keys);
      AscendingKeys(cache.Keys);
      var i := 0;
      while i < |keys|
        invariant i <= |keys|
        invariant i == 0 ==> oldestTime == UINT64_MAX
        invariant i > 0 ==> oldestTime == 0 && oldestKey == keys[0]
      {
        assert keys[i] in cache;
        if cache[keys[i]].timestamp < oldestTime {
          oldestTime := cache[keys[i]].timestamp;
          oldestKey := keys[i];
        }
        i := i + 1;
      }
    }
  }
}
