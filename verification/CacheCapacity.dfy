/** How large a cache gets, and what may leave it. */
module CacheCapacity {
  import opened Basics
  import opened NamedContentCache
  import opened CacheProperties
  import opened CacheRuns

  /** The entry is younger than the freshness time, in milliseconds; seen from before its timestamp, its age
      has wrapped in 64 bits. */
  predicate Young(e: Entry, now: uint64, freshness: uint64) {
    if e.timestamp <= now then now - e.timestamp < freshness
    else now + 0x1_0000_0000_0000_0000 - e.timestamp < freshness
  }

  /** Every entry whose row has the least index is younger than the freshness time. */
  ghost predicate MinimumIsFresh(s: CacheState, now: uint64) {
    forall i: nat | i < |s.rows| && s.rows[i].index == s.rows[0].index ::
      s.rows[i].name in s.cache && Young(s.cache[s.rows[i].name], now, s.freshness)
  }

  ghost function IndexOfNew(s: CacheState, data: Bytes, ttl: uint8, now: uint64): uint32 {
    IndexOf(s.policy, NewEntry(s.policy, data, ttl, now), s.cache)
  }

  lemma NothingStale(s: CacheState, now: uint64)
    requires Consistent(s)
    ensures FirstStale(s, now) == |s.rows| <==> MinimumIsFresh(s, now)
  {
    RowsHaveEntries(s);
    if FirstStale(s, now) == |s.rows| {
      forall i: nat | i < |s.rows| && s.rows[i].index == s.rows[0].index
        ensures Young(s.cache[s.rows[i].name], now, s.freshness)
      {
        assert !StaleMinimum(s, i, now);
      }
    }
  }

  lemma InsertedSize(s: CacheState, name: Name, e: Entry, index: uint32)
    requires name !in s.cache
    ensures |Inserted(s, name, e, index).cache| == |s.cache| + 1
    ensures Inserted(s, name, e, index).cache.Keys == s.cache.Keys + {name}
  {}

  /** On a full cache of a selective policy, SetEntry grows the cache by one exactly when the name is
      new, its index reaches the least index, and no entry with the least index is stale; the
      capacity is then exceeded. It refuses exactly when the index falls short as well. */
  lemma GrowsWhenFullExactly(s: CacheState, name: Name, data: Bytes, ttl: uint8, now: uint64)
    requires Consistent(s) && 1 <= s.capacity <= |s.cache| && s.policy.Selective()
    ensures s.rows != []
    ensures var r, reaches := SetEntry(s, name, data, ttl, now), IndexOfNew(s, data, ttl, now) >= s.rows[0].index;
            && (|r.state.cache| == |s.cache| + 1 <==> name !in s.cache && reaches && MinimumIsFresh(s, now))
            && (!r.cached <==> name !in s.cache && !reaches && MinimumIsFresh(s, now))
            && |s.cache| <= |r.state.cache| <= |s.cache| + 1
  {
    RowsCountEntries(s);
    NothingStale(s, now);
    var e, index := NewEntry(s.policy, data, ttl, now), IndexOfNew(s, data, ttl, now);
    if name in s.cache {
      RefreshSize(s, name, e, index);
    } else if FirstStale(s, now) < |s.rows| {
      EvictedSize(s, now);
      InsertedSize(Evicted(s, now).0, name, e, index);
    } else {
      InsertedSize(s, name, e, index);
    }
  }

  /** The growth is reached: two contents stored at the same time end up together in an LFU cache of
      size 1 with any positive freshness time. */
  lemma LfuOutgrowsItsSize(freshness: uint64, a: Name, b: Name, data: Bytes, ttl: uint8, at: uint64)
    requires freshness > 0 && a != b
    ensures var ops := [Store(a, data, ttl, at), Store(b, data, ttl, at)];
            && Legal(Empty(Lfu, 1, freshness), ops)
            && Run(Empty(Lfu, 1, freshness), ops).cache.Keys == {a, b}
  {
    var s0, e := Empty(Lfu, 1, freshness), NewEntry(Lfu, data, ttl, at);
    var ops := [Store(a, data, ttl, at), Store(b, data, ttl, at)];
    assert ops[..1] == [ops[0]] && ops[..1][..0] == [] && ops[..0] == [];
    var s := s0.(cache := map[a := e], rows := [Row(1, a)]);
    assert Run(s0, ops[..1]) == s by {
      assert InsertRow([], Row(1, a)) == [Row(1, a)];
    }
    SecondIsAdded(s, a, b, data, ttl, at);
    assert Run(s0, ops) == SetEntry(s, b, data, ttl, at).state;
  }

  lemma SecondIsAdded(s: CacheState, a: Name, b: Name, data: Bytes, ttl: uint8, at: uint64)
    requires s.policy == Lfu && s.freshness > 0 && s.capacity == 1 && a != b
    requires s.cache == map[a := NewEntry(Lfu, data, ttl, at)] && s.rows == [Row(1, a)]
    ensures SetEntry(s, b, data, ttl, at).state.cache.Keys == {a, b}
  {
    assert !StaleMinimum(s, 0, at);
    assert FirstStale(s, at) == 1;
    InsertedSize(s, b, NewEntry(Lfu, data, ttl, at), 1);
  }

  lemma RefreshSize(s: CacheState, name: Name, e: Entry, index: uint32)
    requires Consistent(s) && name in s.cache
    ensures |Inserted(RemoveName(s, name), name, e, index).cache| == |s.cache|
    ensures Inserted(RemoveName(s, name), name, e, index).cache.Keys == s.cache.Keys
  {}

  lemma EvictedSize(s: CacheState, now: uint64)
    requires Consistent(s) && Victim(s, now) < |s.rows|
    ensures |Evicted(s, now).0.cache| == |s.cache| - 1
    ensures Evicted(s, now).0.cache.Keys == s.cache.Keys - {Evicted(s, now).1}
    ensures Evicted(s, now).1 in s.cache
  {}

  /** What SetEntry removes from a cache: nothing, unless the name is new and the cache is full; then
      one entry at most: the first row for FIFO and LRU, for LFU and Universal a row with the least
      index whose entry is at least as old as the freshness time. */
  lemma LeavesOnlyAsVictim(s: CacheState, name: Name, data: Bytes, ttl: uint8, now: uint64, gone: Name)
    returns (i: nat)
    requires Consistent(s) && s.capacity >= 1
    ensures var after := SetEntry(s, name, data, ttl, now);
            gone in s.cache && gone !in after.state.cache ==>
              && name !in s.cache && |s.cache| >= s.capacity
              && i < |s.rows| && s.rows[i].name == gone
              && (if s.policy.Selective()
                  then s.rows[i].index == s.rows[0].index && !Young(s.cache[gone], now, s.freshness)
                  else i == 0)
              && after.state.cache.Keys == s.cache.Keys - {gone} + {name}
              && after.removed == Some(gone)
  {
    var e, index := NewEntry(s.policy, data, ttl, now), IndexOfNew(s, data, ttl, now);
    i := Victim(s, now);
    if name in s.cache {
      RefreshSize(s, name, e, index);
    } else if |s.cache| < s.capacity {
      InsertedSize(s, name, e, index);
    } else if i < |s.rows| {
      VictimLeaves(s, name, e, index, now, i);
    } else {
      InsertedSize(s, name, e, index);
    }
  }

  lemma VictimLeaves(s: CacheState, name: Name, e: Entry, index: uint32, now: uint64, i: nat)
    requires Consistent(s) && name !in s.cache && i == Victim(s, now) < |s.rows|
    ensures Inserted(Evicted(s, now).0, name, e, index).cache.Keys == s.cache.Keys - {s.rows[i].name} + {name}
    ensures Evicted(s, now).1 == s.rows[i].name
    ensures if s.policy.Selective()
            then s.rows[i].index == s.rows[0].index && s.rows[i].name in s.cache &&
                 !Young(s.cache[s.rows[i].name], now, s.freshness)
            else i == 0
  {
    EvictedSize(s, now);
    InsertedSize(Evicted(s, now).0, name, e, index);
    if s.policy.Selective() {
      assert StaleMinimum(s, i, now);
    }
  }

  /** `name` is next to go: the first row for FIFO and LRU; for LFU and Universal the first of the rows
      with the least index whose entry is at least as old as the freshness time. */
  ghost predicate NextOut(s: CacheState, name: Name, now: uint64) {
    if s.policy.Selective() then exists i: nat :: NextOutAt(s, i, name, now)
    else s.rows != [] && s.rows[0].name == name
  }

  ghost predicate NextOutAt(s: CacheState, i: nat, name: Name, now: uint64) {
    && i < |s.rows| && s.rows[i].name == name && s.rows[i].index == s.rows[0].index
    && name in s.cache && !Young(s.cache[name], now, s.freshness)
    && forall j | 0 <= j < i :: s.rows[j].name in s.cache && Young(s.cache[s.rows[j].name], now, s.freshness)
  }

  lemma VictimIsNextOut(s: CacheState, name: Name, now: uint64)
    requires Consistent(s) && s.rows != []
    ensures NextOut(s, name, now) <==> Victim(s, now) < |s.rows| && s.rows[Victim(s, now)].name == name
  {
    if s.policy.Selective() {
      RowsHaveEntries(s);
      var v := FirstStale(s, now);
      if v < |s.rows| && s.rows[v].name == name {
        forall j | 0 <= j < v
          ensures Young(s.cache[s.rows[j].name], now, s.freshness)
        {
          assert s.rows[0].index <= s.rows[j].index <= s.rows[v].index;
          assert !StaleMinimum(s, j, now);
        }
        assert NextOutAt(s, v, name, now);
      }
      if i: nat :| NextOutAt(s, i, name, now) {
        assert StaleMinimum(s, i, now);
        assert v <= i;
        assert StaleMinimum(s, v, now);
      }
    }
  }

  /** Exactly when SetEntry takes a name out of a cache, in terms of the cache before: another, new name
      comes to a full cache, and this one is next to go. */
  lemma LeavesExactly(s: CacheState, name: Name, data: Bytes, ttl: uint8, now: uint64, gone: Name)
    requires Consistent(s) && s.capacity >= 1 && gone in s.cache
    ensures gone !in SetEntry(s, name, data, ttl, now).state.cache
       <==> name !in s.cache && |s.cache| >= s.capacity && NextOut(s, gone, now)
  {
    RowsCountEntries(s);
    VictimIsNextOut(s, gone, now);
    var e, index := NewEntry(s.policy, data, ttl, now), IndexOfNew(s, data, ttl, now);
    if name in s.cache {
      RefreshSize(s, name, e, index);
      assert gone in s.cache.Keys;
    } else if |s.cache| < s.capacity {
      InsertedSize(s, name, e, index);
    } else if Victim(s, now) < |s.rows| {
      EvictedSize(s, now);
      InsertedSize(Evicted(s, now).0, name, e, index);
    } else {
      InsertedSize(s, name, e, index);
    }
  }

  /** Whether SetEntry caches, for every policy and fill level: unless the name is new, the cache is full,
      and the policy selects and finds nothing stale with the least index and the new index below that. */
  ghost predicate Takes(s: CacheState, name: Name, data: Bytes, ttl: uint8, now: uint64) {
    || name in s.cache
    || |s.cache| < s.capacity
    || !s.policy.Selective()
    || s.rows == [] || IndexOfNew(s, data, ttl, now) >= s.rows[0].index || !MinimumIsFresh(s, now)
  }

  /** Which names a cache holds after SetEntry, and whether it has cached: the new one exactly if it takes
      it, and every other one it held, except the one next to go if it takes a new name when full. */
  lemma HoldsExactly(s: CacheState, name: Name, data: Bytes, ttl: uint8, now: uint64)
    requires Consistent(s) && s.capacity >= 1
    ensures var r := SetEntry(s, name, data, ttl, now);
            && (r.cached <==> Takes(s, name, data, ttl, now))
            && (name in r.state.cache <==> Takes(s, name, data, ttl, now))
            && forall n | n != name ::
                 n in r.state.cache <==>
                 n in s.cache && !(name !in s.cache && |s.cache| >= s.capacity && NextOut(s, n, now))
  {
    var r := SetEntry(s, name, data, ttl, now);
    TakesExactly(s, name, data, ttl, now);
    forall n | n != name
      ensures n in r.state.cache <==>
              n in s.cache && !(name !in s.cache && |s.cache| >= s.capacity && NextOut(s, n, now))
    {
      SetEntries(s, name, data, ttl, now);
      if n in s.cache {
        LeavesExactly(s, name, data, ttl, now, n);
      }
    }
  }

  lemma TakesExactly(s: CacheState, name: Name, data: Bytes, ttl: uint8, now: uint64)
    requires Consistent(s) && s.capacity >= 1
    ensures var r := SetEntry(s, name, data, ttl, now);
            && (r.cached <==> Takes(s, name, data, ttl, now))
            && (name in r.state.cache <==> r.cached)
  {
    RowsCountEntries(s);
    var e, index := NewEntry(s.policy, data, ttl, now), IndexOfNew(s, data, ttl, now);
    if name in s.cache {
      RefreshSize(s, name, e, index);
    } else if |s.cache| < s.capacity {
      InsertedSize(s, name, e, index);
    } else {
      NothingStale(s, now);
      InsertedSize(Evicted(s, now).0, name, e, index);
    }
  }

  /** The size after SetEntry where an eviction always finds a victim. */
  lemma SetKeepsCapacity(s: CacheState, name: Name, data: Bytes, ttl: uint8, now: uint64)
    requires Consistent(s) && |s.cache| <= s.capacity && s.capacity >= 1
    requires s.policy.Selective() ==> s.freshness == 0
    ensures |SetEntry(s, name, data, ttl, now).state.cache| <= s.capacity
  {
    var e, index := NewEntry(s.policy, data, ttl, now), IndexOfNew(s, data, ttl, now);
    RowsCountEntries(s);
    NothingStale(s, now);
    if name in s.cache {
      RefreshSize(s, name, e, index);
    } else if |s.cache| < s.capacity {
      InsertedSize(s, name, e, index);
    } else {
      assert s.freshness == 0 ==> !MinimumIsFresh(s, now);
      EvictedSize(s, now);
      InsertedSize(Evicted(s, now).0, name, e, index);
    }
  }

  lemma TouchedKeepsSize(s: CacheState, name: Name, now: uint64)
    requires Consistent(s) && name in s.cache
    ensures |Touched(s, name, now).cache| == |s.cache|
  {}

  /** FIFO and LRU never exceed the cache size, and neither do LFU and Universal with freshness 0. */
  lemma {:induction false} CapacityKept(policy: Policy, capacity: uint32, freshness: uint64, ops: seq<Op>)
    requires capacity >= 1 && (policy.Selective() ==> freshness == 0)
    ensures var s := Run(Empty(policy, capacity, freshness), ops);
            && s.policy == policy && s.capacity == capacity && s.freshness == freshness
            && |s.cache| <= capacity
  {
    if ops != [] {
      var front, last := ops[..|ops| - 1], ops[|ops| - 1];
      CapacityKept(policy, capacity, freshness, front);
      RunReaches(policy, capacity, freshness, front);
      var s := Run(Empty(policy, capacity, freshness), front);
      if last.Store? {
        SetEntries(s, last.name, last.data, last.ttl, last.at);
        SetKeepsCapacity(s, last.name, last.data, last.ttl, last.at);
      } else if last.name in s.cache {
        TouchedKeepsSize(s, last.name, last.at);
      }
    }
  }

  /** The freshness guarantee over runs: whatever a SetEntry evicts from an LFU or Universal cache was
      stored (Universal: stored or looked up) at least the freshness time before. */
  lemma EvictedWasOldEnough(policy: Policy, capacity: uint32, freshness: uint64, ops: seq<Op>, gone: Name)
    requires policy.Selective() && capacity >= 1 && ops != [] && Legal(Empty(policy, capacity, freshness), ops)
    ensures var s0, front := Empty(policy, capacity, freshness), ops[..|ops| - 1];
            gone in Run(s0, front).cache && gone !in Run(s0, ops).cache ==>
              && LastStore(front, gone).Some? && LastStore(front, gone).value.Store? && LastTime(front, gone).Some?
              && var stored, touched := LastStore(front, gone).value.at, LastTime(front, gone).value;
                 ops[|ops| - 1].at - (if policy == Universal then touched else stored) >= freshness
  {
    var s0 := Empty(policy, capacity, freshness);
    var front, last := ops[..|ops| - 1], ops[|ops| - 1];
    var s := Run(s0, front);
    if gone in s.cache && gone !in Run(s0, ops).cache {
      RunReaches(policy, capacity, freshness, front);
      SettingsKept(policy, capacity, freshness, front);
      assert LastEntry(policy, front, gone) == Some(s.cache[gone]);
      EntryNotFromFuture(s0, policy, front, gone);
      EntryFromHistory(policy, front, gone);
      LeftByStore(s, last, gone);
    }
  }

  /** Only a store of another name removes one, and then an old one. */
  lemma LeftByStore(s: CacheState, op: Op, gone: Name)
    requires Consistent(s) && s.capacity >= 1 && s.policy.Selective()
    requires gone in s.cache && gone !in Apply(s, op).cache && s.cache[gone].timestamp <= op.at
    ensures op.at - s.cache[gone].timestamp >= s.freshness
  {
    if op.Store? {
      var i := LeavesOnlyAsVictim(s, op.name, op.data, op.ttl, op.at, gone);
    } else if op.name in s.cache {
      assert gone in s.cache.Keys;
      TouchedKeepsNames(s, op.name, op.at);
    }
  }

  lemma {:induction false} SettingsKept(policy: Policy, capacity: uint32, freshness: uint64, ops: seq<Op>)
    ensures var s := Run(Empty(policy, capacity, freshness), ops);
            s.policy == policy && s.capacity == capacity && s.freshness == freshness
  {
    if ops != [] {
      var front, last := ops[..|ops| - 1], ops[|ops| - 1];
      SettingsKept(policy, capacity, freshness, front);
      RunReaches(policy, capacity, freshness, front);
      if last.Store? {
        SetEntries(Run(Empty(policy, capacity, freshness), front), last.name, last.data, last.ttl, last.at);
      }
    }
  }

  lemma TouchedKeepsNames(s: CacheState, name: Name, now: uint64)
    requires Consistent(s) && name in s.cache
    ensures Touched(s, name, now).cache.Keys == s.cache.Keys
  {}

  // ----- Over runs, in plain time differences -----

  /** At the least index all entries were stored (Universal: stored or looked up) less than the freshness time
      before `now`. */
  ghost predicate AllRecent(s: CacheState, now: uint64) {
    forall i: nat | i < |s.rows| && s.rows[i].index == s.rows[0].index ::
      s.rows[i].name in s.cache && now - s.cache[s.rows[i].name].timestamp < s.freshness
  }

  /** Row `i` names `name`, is the first with the least index to have come at least the freshness time before
      `now`. */
  ghost predicate FirstOld(s: CacheState, i: nat, name: Name, now: uint64) {
    && i < |s.rows| && s.rows[i].name == name && s.rows[i].index == s.rows[0].index
    && name in s.cache && now - s.cache[name].timestamp >= s.freshness
    && forall j | 0 <= j < i :: s.rows[j].name in s.cache && now - s.cache[s.rows[j].name].timestamp < s.freshness
  }

  lemma NotAhead(policy: Policy, capacity: uint32, freshness: uint64, ops: seq<Op>)
    requires ops != [] && Legal(Empty(policy, capacity, freshness), ops)
    ensures var s := Run(Empty(policy, capacity, freshness), ops[..|ops| - 1]);
            && Consistent(s) && s.policy == policy && s.capacity == capacity && s.freshness == freshness
            && forall n | n in s.cache :: s.cache[n].timestamp <= ops[|ops| - 1].at
  {
    var s0, front := Empty(policy, capacity, freshness), ops[..|ops| - 1];
    var s := Run(s0, front);
    RunReaches(policy, capacity, freshness, front);
    SettingsKept(policy, capacity, freshness, front);
    forall n | n in s.cache
      ensures s.cache[n].timestamp <= ops[|ops| - 1].at
    {
      assert LastEntry(policy, front, n) == Some(s.cache[n]);
      EntryNotFromFuture(s0, policy, front, n);
    }
  }

  /** When a store evicts in a run of an LFU or Universal cache, what it evicts, and when the cache grows beyond
      its size or refuses: all in terms of the times in the run. */
  lemma StoreInRunExactly(policy: Policy, capacity: uint32, freshness: uint64, ops: seq<Op>, gone: Name)
    requires policy.Selective() && capacity >= 1
    requires ops != [] && ops[|ops| - 1].Store? && Legal(Empty(policy, capacity, freshness), ops)
    ensures var s0, last := Empty(policy, capacity, freshness), ops[|ops| - 1];
            var s, t := Run(s0, ops[..|ops| - 1]), Run(s0, ops);
            var full := last.name !in s.cache && |s.cache| >= capacity;
            && (gone in s.cache && gone !in t.cache <==>
                full && gone in s.cache && exists i: nat :: FirstOld(s, i, gone, last.at))
            && (last.name !in t.cache <==>
                full && AllRecent(s, last.at) && s.rows != [] &&
                IndexOfNew(s, last.data, last.ttl, last.at) < s.rows[0].index)
            && (|t.cache| > |s.cache| && full <==>
                full && AllRecent(s, last.at) && s.rows != [] &&
                IndexOfNew(s, last.data, last.ttl, last.at) >= s.rows[0].index)
  {
    var s0, last := Empty(policy, capacity, freshness), ops[|ops| - 1];
    var s := Run(s0, ops[..|ops| - 1]);
    NotAhead(policy, capacity, freshness, ops);
    RecentIsFresh(s, last.at);
    HoldsExactly(s, last.name, last.data, last.ttl, last.at);
    if gone in s.cache {
      OldIsNextOut(s, gone, last.at);
    }
    RowsCountEntries(s);
    if last.name !in s.cache && |s.cache| >= capacity {
      GrowsWhenFullExactly(s, last.name, last.data, last.ttl, last.at);
    }
  }

  lemma RecentIsFresh(s: CacheState, now: uint64)
    requires forall n | n in s.cache :: s.cache[n].timestamp <= now
    ensures AllRecent(s, now) <==> MinimumIsFresh(s, now)
  {}

  lemma OldIsNextOut(s: CacheState, name: Name, now: uint64)
    requires s.policy.Selective() && forall n | n in s.cache :: s.cache[n].timestamp <= now
    ensures NextOut(s, name, now) <==> exists i: nat :: FirstOld(s, i, name, now)
  {
    if i: nat :| NextOutAt(s, i, name, now) {
      assert FirstOld(s, i, name, now);
    }
    if i: nat :| FirstOld(s, i, name, now) {
      assert NextOutAt(s, i, name, now);
    }
  }

  // ----- Within the freshness time -----

  /** No operation comes later than the freshness time after `since`. */
  ghost predicate WithinFreshness(ops: seq<Op>, since: uint64, freshness: uint64) {
    forall i | 0 <= i < |ops| :: ops[i].at < since + freshness
  }

  /** An LFU or Universal cache keeps what it has for the freshness time, whatever the traffic. */
  lemma {:induction false} KeptWhileFresh(policy: Policy, capacity: uint32, freshness: uint64, before: seq<Op>,
                                          after: seq<Op>, name: Name)
    requires policy.Selective() && capacity >= 1
    requires Legal(Empty(policy, capacity, freshness), before + after)
    requires name in Run(Empty(policy, capacity, freshness), before).cache
    requires WithinFreshness(after, Run(Empty(policy, capacity, freshness), before).cache[name].timestamp, freshness)
    ensures var s0 := Empty(policy, capacity, freshness);
            var s, t := Run(s0, before), Run(s0, before + after);
            name in t.cache && s.cache[name].timestamp <= t.cache[name].timestamp
  {
    var s0 := Empty(policy, capacity, freshness);
    if after == [] {
      assert before + after == before;
    } else {
      var front, last := after[..|after| - 1], after[|after| - 1];
      var ops := before + front;
      assert before + after == ops + [last];
      assert (ops + [last])[..|ops|] == ops;
      assert last == after[|front|];
      KeptWhileFresh(policy, capacity, freshness, before, front, name);
      StepKeepsFresh(policy, capacity, freshness, ops, last, name);
    }
  }

  lemma StepKeepsFresh(policy: Policy, capacity: uint32, freshness: uint64, ops: seq<Op>, last: Op, name: Name)
    requires policy.Selective() && capacity >= 1
    requires Legal(Empty(policy, capacity, freshness), ops + [last])
    requires name in Run(Empty(policy, capacity, freshness), ops).cache
    requires last.at < Run(Empty(policy, capacity, freshness), ops).cache[name].timestamp + freshness
    ensures var s0 := Empty(policy, capacity, freshness);
            var s, t := Run(s0, ops), Run(s0, ops + [last]);
            name in t.cache && s.cache[name].timestamp <= t.cache[name].timestamp
  {
    var s0 := Empty(policy, capacity, freshness);
    var s := Run(s0, ops);
    assert (ops + [last])[..|ops|] == ops;
    RunReaches(policy, capacity, freshness, ops);
    SettingsKept(policy, capacity, freshness, ops);
    assert LastEntry(policy, ops, name) == Some(s.cache[name]);
    EntryNotFromFuture(s0, policy, ops, name);
    ApplyEntries(s, last);
    if last.Store? {
      var i := LeavesOnlyAsVictim(s, last.name, last.data, last.ttl, last.at, name);
    } else {
      TouchedKeepsNames(s, last.name, last.at);
    }
  }
}
