/** SetEntry as the code runs it: cache, policy index and directory changed together. */
module CacheManager {
  import opened Basics
  import opened NamedContentCache
  import opened NameTables
  import P = CacheProperties

  type Directory = multiset<(Name, Address)>

  /** The directory after a SetEntry at `router` with result `r`. */
  function DirectoryAfter(d: Directory, router: Address, name: Name, r: P.SetResult): Directory {
    var kept := if r.removed.Some? then d - multiset{(r.removed.value, router)} else d;
    if r.added then kept + multiset{(name, router)} else kept
  }

  class CacheManager {
    const cache: NamedContentCache
    const tables: NameTables
    const routerAddress: Address

    constructor (cache: NamedContentCache, tables: NameTables, routerAddress: Address)
      ensures this.cache == cache && this.tables == tables && this.routerAddress == routerAddress
    {
      this.cache, this.tables, this.routerAddress := cache, tables, routerAddress;
    }

    method SetEntry(packet: Bytes, name: Name, ttl: uint8, now: uint64) returns (cached: bool)
      requires cache.Valid() && cache.cache_size >= 1
      modifies cache`cache, cache`policyindex, tables`cachedRouterTable
      ensures cache.Valid()
      ensures var r := P.SetEntry(old(cache.State()), name, packet, ttl, now);
              && cache.State() == r.state && cached == r.cached
              && multiset(tables.cachedRouterTable) ==
                 DirectoryAfter(multiset(old(tables.cachedRouterTable)), routerAddress, name, r)
    {
      ghost var s, r := cache.State(), P.SetEntry(cache.State(), name, packet, ttl, now);
      P.SetConsistent(s, name, packet, ttl, now);
      P.RowsCountEntries(s);
      var entry := cache.CreateEntry(packet, ttl, now);
      var index := cache.CreateIndex(entry);
      var unique := cache.IsUnique(name);
      if unique {
        var full := cache.IsFull();
        if full {
          var evictable := cache.IsEvictable(index, now);
          if evictable {
            ghost var (t, gone) := Evicted(s, now);
            assert r == P.SetResult(Inserted(t, name, entry, index), true, Some(gone), true);
            var victim := cache.EvictEntry(now);
            tables.EvictCachedRouterEntry(routerAddress, victim);
            cache.Insert(name, entry, index);
            tables.SetCachedRouterEntry(routerAddress, name);
            assert cache.State() == r.state;
            return true;
          } else {
            return false;
          }
        } else {
          cache.Insert(name, entry, index);
          tables.SetCachedRouterEntry(routerAddress, name);
          assert cache.State() == r.state;
          return true;
        }
      } else {
        cache.EvictEntryNamed(name);
        cache.Insert(name, entry, index);
        assert cache.State() == r.state;
        return true;
      }
    }
  }
}
