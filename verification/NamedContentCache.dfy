/** A router's cache: a map from names to entries and a policy index, the list of (index, name) rows
    ordered by index, equal indexes in order of insertion. The four eviction policies differ in how
    an entry is indexed, what a hit changes and what may be evicted. */
module NamedContentCache {
  import opened Basics
  import opened FloatStamp
  import W = Wire

  type Name = Bytes

  datatype Policy = Fifo | Lru | Lfu | Universal {
    /** The policies that evict by index and age rather than blindly. */
    predicate Selective() {
      Lfu? || Universal?
    }
  }

  datatype Entry = Entry(data: Bytes, ttl: uint8, timestamp: uint64, frequency: uint32)

  datatype Row = Row(index: uint32, name: Name)

  datatype CacheState = CacheState(policy: Policy, capacity: uint32, freshness: uint64,
                                   cache: map<Name, Entry>, rows: seq<Row>)

  // ----- The policy index as a value -----

  function Names(rows: seq<Row>): (names: seq<Name>)
    ensures |names| == |rows|
    ensures forall i | 0 <= i < |rows| :: names[i] == rows[i].name
  {
    seq(|rows|, i requires 0 <= i < |rows| => rows[i].name)
  }

  function FirstAbove(rows: seq<Row>, index: uint32): (i: nat)
    ensures i <= |rows|
    ensures forall j | 0 <= j < i :: rows[j].index <= index
    ensures i < |rows| ==> rows[i].index > index
  {
    if rows == [] || rows[0].index > index then 0 else 1 + FirstAbove(rows[1..], index)
  }

  /** A name already present keeps its row. */
  function InsertRow(rows: seq<Row>, row: Row): seq<Row> {
    var i := FirstAbove(rows, row.index);
    if row.name in Names(rows) then rows else rows[..i] + [row] + rows[i..]
  }

  function EraseName(rows: seq<Row>, name: Name): seq<Row> {
    if rows == [] then []
    else
      var rest := EraseName(rows[1..], name);
      if rows[0].name == name then rest else [rows[0]] + rest
  }

  function InsertEntry(cache: map<Name, Entry>, name: Name, e: Entry): map<Name, Entry> {
    if name in cache then cache else cache[name := e]
  }

  /** Rows and cache hold the same names, each once, and the rows are ordered by index. */
  ghost predicate Consistent(s: CacheState) {
    && (forall n :: n in s.cache <==> n in Names(s.rows))
    && Distinct(Names(s.rows))
    && Ordered(s.rows)
  }

  ghost predicate Distinct(names: seq<Name>) {
    forall i, j | 0 <= i < j < |names| :: names[i] != names[j]
  }

  ghost predicate Ordered(rows: seq<Row>) {
    forall i, j | 0 <= i < j < |rows| :: rows[i].index <= rows[j].index
  }

  // ----- Entries and indexes -----

  /** The data is kept as a C string: up to its first NUL. */
  function NewEntry(policy: Policy, data: Bytes, ttl: uint8, now: uint64): Entry {
    Entry(W.CString(data), if policy.Selective() then ttl else 0, now, 1)
  }

  /** What a hit does to an entry. */
  function Bumped(policy: Policy, e: Entry, now: uint64): Entry {
    match policy
    case Fifo => e
    case Lru => e.(timestamp := now)
    case Lfu => e.(frequency := Low32(1 + e.frequency))
    case Universal => e.(timestamp := now, frequency := Low32(1 + e.frequency))
  }

  ghost function MaxFrequency(cache: map<Name, Entry>, f: uint32): (m: uint32)
    ensures f <= m && forall n | n in cache :: cache[n].frequency <= m
    ensures m == f || exists n :: n in cache && m == cache[n].frequency
    decreases |cache|
  {
    if cache == map[] then f
    else
      var n :| n in cache;
      var rest := cache - {n};
      assert |rest.Keys| < |cache.Keys|;
      var m := MaxFrequency(rest, f);
      assert forall k | k in cache :: k == n || k in rest;
      if m < cache[n].frequency then cache[n].frequency else m
  }

  /** Integer division of C++, which truncates toward zero. */
  function Truncated(a: int, b: int): int
    requires b > 0
  {
    if a >= 0 then a / b else -((-a) / b)
  }

  function HopTerm(ttl: uint8): int {
    Truncated((64 - ttl) * 20000, 64)
  }

  /** Ten thousandths of the highest frequency, the product taken in 32 bits. */
  function Share(frequency: uint32, maxFrequency: uint32): uint32
    requires maxFrequency > 0
  {
    Low32(frequency * 10000) / maxFrequency
  }

  /** The index of the universal policy, given the highest frequency around. C++ leaves a division
      by zero undefined; the model gives 0, and NoDivisionByZero in UniversalPolicy says when that is. */
  function UniversalIndex(e: Entry, maxFrequency: uint32): uint32 {
    if maxFrequency == 0 then 0
    else Low32(Share(e.frequency, maxFrequency) + HopTerm(e.ttl))
  }

  ghost function IndexOf(policy: Policy, e: Entry, cache: map<Name, Entry>): uint32 {
    match policy
    case Fifo => Stamp(e.timestamp)
    case Lru => Stamp(e.timestamp)
    case Lfu => e.frequency
    case Universal =>
      if cache == map[] then Low32(10000 + HopTerm(e.ttl))
      else UniversalIndex(e, MaxFrequency(cache, e.frequency))
  }

  // ----- Eviction -----

  /** Age in unsigned 64-bit arithmetic. */
  function Age(e: Entry, now: uint64): uint64 {
    if e.timestamp <= now then now - e.timestamp else now - e.timestamp + 0x1_0000_0000_0000_0000
  }

  predicate IsStale(s: CacheState, i: nat, now: uint64)
    requires i < |s.rows|
  {
    s.rows[i].name in s.cache && Age(s.cache[s.rows[i].name], now) >= s.freshness
  }

  /** Row `i` has the least index and its entry is stale. */
  predicate StaleMinimum(s: CacheState, i: nat, now: uint64)
    requires i < |s.rows|
  {
    s.rows[i].index == s.rows[0].index && IsStale(s, i, now)
  }

  /** The first row with the least index whose entry is stale; the number of rows if there is none. */
  function FirstStale(s: CacheState, now: uint64, from: nat := 0): (i: nat)
    requires from <= |s.rows|
    ensures from <= i <= |s.rows|
    ensures forall j | from <= j < i :: !StaleMinimum(s, j, now)
    ensures i < |s.rows| ==> StaleMinimum(s, i, now)
    decreases |s.rows| - from
  {
    if from == |s.rows| || StaleMinimum(s, from, now) then from else FirstStale(s, now, from + 1)
  }

  /** Where in the rows the victim is; the number of rows if nothing may be evicted. */
  function Victim(s: CacheState, now: uint64): nat
  {
    if s.policy.Selective() then FirstStale(s, now) else 0
  }

  predicate Evictable(s: CacheState, index: uint32, now: uint64)
    requires s.rows != []
  {
    !s.policy.Selective() || index >= s.rows[0].index || FirstStale(s, now) < |s.rows|
  }

  function RemoveAt(s: CacheState, i: nat): CacheState
    requires i < |s.rows|
  {
    s.(cache := s.cache - {s.rows[i].name}, rows := s.rows[..i] + s.rows[i + 1..])
  }

  /** The state after an eviction and the name evicted, the empty name if nothing may be evicted. */
  function Evicted(s: CacheState, now: uint64): (CacheState, Name) {
    var v := Victim(s, now);
    if v < |s.rows| then (RemoveAt(s, v), s.rows[v].name) else (s, [])
  }

  function RemoveName(s: CacheState, name: Name): CacheState {
    s.(cache := s.cache - {name}, rows := EraseName(s.rows, name))
  }

  function Inserted(s: CacheState, name: Name, e: Entry, index: uint32): CacheState {
    s.(cache := InsertEntry(s.cache, name, e), rows := InsertRow(s.rows, Row(index, name)))
  }

  /** The state after a hit on `name`. */
  ghost function Touched(s: CacheState, name: Name, now: uint64): CacheState
    requires name in s.cache
  {
    if s.policy.Fifo? then s
    else
      var e := Bumped(s.policy, s.cache[name], now);
      var without := RemoveName(s, name);
      Inserted(without, name, e, IndexOf(s.policy, e, without.cache))
  }

  // ----- The cache as the code keeps it -----

  class NamedContentCache {
    const policy: Policy
    var cache_size: uint32
    var freshness_time: uint64
    var cache: map<Name, Entry>
    var policyindex: seq<Row>

    ghost function State(): CacheState
      reads this
    {
      CacheState(policy, cache_size, freshness_time, cache, policyindex)
    }

    ghost predicate Valid()
      reads this
    {
      Consistent(State())
    }

    constructor (p: Policy, size: uint32, freshness: uint64)
      ensures State() == CacheState(p, size, freshness, map[], []) && Valid()
    {
      policy, cache_size, freshness_time, cache, policyindex := p, size, freshness, map[], [];
    }

    method CreateEntry(data: Bytes, ttl: uint8, now: uint64) returns (entry: Entry)
      ensures entry == NewEntry(policy, data, ttl, now)
    {
      entry := Entry(W.CString(data), 0, now, 1);
      if policy.Lfu? || policy.Universal? {
        entry := entry.(ttl := ttl);
      }
    }

    method CreateIndex(entry: Entry) returns (index: uint32)
      ensures index == IndexOf(policy, entry, cache)
    {
      match policy
      case Fifo => index := Stamp(entry.timestamp);
      case Lru => index := Stamp(entry.timestamp);
      case Lfu => index := entry.frequency;
      case Universal =>
        var freq_max := entry.frequency;
        if |cache| == 0 {
          return Low32(10000 + HopTerm(entry.ttl));
        }
        var left := cache.Keys;
        while left != {}
          invariant left <= cache.Keys
          invariant entry.frequency <= freq_max
          invariant forall n | n in cache && n !in left :: cache[n].frequency <= freq_max
          invariant freq_max == entry.frequency || exists n :: n in cache && freq_max == cache[n].frequency
          decreases |left|
        {
          var n :| n in left;
          if freq_max <= cache[n].frequency {
            freq_max := cache[n].frequency;
          }
          left := left - {n};
        }
        assert freq_max == MaxFrequency(cache, entry.frequency);
        index := UniversalIndex(entry, freq_max);
    }

    method IsEvictable(index: uint32, now: uint64) returns (evictable: bool)
      requires Valid() && policyindex != []
      ensures evictable <==> Evictable(State(), index, now)
    {
      if policy.Fifo? || policy.Lru? {
        return true;
      }
      if index >= policyindex[0].index {
        return true;
      }
      var i := 0;
      ghost var s := State();
      RowsHaveEntries(s);
      while i < |policyindex| && policyindex[i].index == policyindex[0].index
        invariant 0 <= i <= FirstStale(s, now)
      {
        if Age(cache[policyindex[i].name], now) >= freshness_time {
          assert StaleMinimum(s, i, now);
          return true;
        }
        i := i + 1;
      }
      NoLaterMinimum(s, i, now);
      return false;
    }

    /** Returns the name evicted, or the empty name if nothing was. */
    method EvictEntry(now: uint64) returns (name: Name)
      requires Valid() && policyindex != []
      modifies `cache, `policyindex
      ensures (State(), name) == Evicted(old(State()), now)
    {
      ghost var s := State();
      RowsHaveEntries(s);
      if policy.Fifo? || policy.Lru? {
        EvictsFront(s, now);
        name := policyindex[0].name;
        policyindex := policyindex[1..];
        cache := cache - {name};
        return;
      }
      name := [];
      var i := 0;
      while i < |policyindex| && policyindex[i].index == policyindex[0].index
        invariant 0 <= i <= FirstStale(s, now)
      {
        if Age(cache[policyindex[i].name], now) >= freshness_time {
          EvictsStale(s, i, now);
          name := policyindex[i].name;
          cache := cache - {name};
          policyindex := policyindex[..i] + policyindex[i + 1..];
          return;
        }
        i := i + 1;
      }
      NoLaterMinimum(s, i, now);
    }

    method EvictEntryNamed(name: Name)
      modifies `cache, `policyindex
      ensures State() == RemoveName(old(State()), name)
    {
      cache := cache - {name};
      policyindex := EraseName(policyindex, name);
    }

    method UpdateIndex(name: Name, now: uint64)
      requires name in cache
      modifies `cache, `policyindex
      ensures State() == Touched(old(State()), name, now)
    {
      if policy.Fifo? {
        return;
      }
      policyindex := EraseName(policyindex, name);
      var temp := cache[name];
      cache := cache - {name};
      if policy.Lru? || policy.Universal? {
        temp := temp.(timestamp := now);
      }
      if policy.Lfu? || policy.Universal? {
        temp := temp.(frequency := Low32(1 + temp.frequency));
      }
      var index := CreateIndex(temp);
      Insert(name, temp, index);
    }

    method InsertToCache(name: Name, entry: Entry)
      modifies `cache
      ensures cache == InsertEntry(old(cache), name, entry)
    {
      if name !in cache {
        cache := cache[name := entry];
      }
    }

    method InsertToPolicyIndex(index: uint32, name: Name)
      modifies `policyindex
      ensures policyindex == InsertRow(old(policyindex), Row(index, name))
    {
      policyindex := InsertRow(policyindex, Row(index, name));
    }

    /** Both inserts, which the source always makes together. */
    method Insert(name: Name, entry: Entry, index: uint32)
      modifies `cache, `policyindex
      ensures State() == Inserted(old(State()), name, entry, index)
    {
      InsertToCache(name, entry);
      InsertToPolicyIndex(index, name);
    }

    method IsFull() returns (full: bool)
      ensures full <==> |cache| >= cache_size
    {
      full := !(|cache| < cache_size);
    }

    method IsUnique(name: Name) returns (unique: bool)
      ensures unique <==> name !in cache
    {
      var left := cache.Keys;
      while left != {}
        invariant left <= cache.Keys
        invariant name in cache ==> name in left
        decreases |left|
      {
        var n :| n in left;
        if n == name {
          return false;
        }
        left := left - {n};
      }
      return true;
    }

    /** The source looks the name up without a check: it has to be cached. */
    method Find(name: Name, now: uint64) returns (data: Bytes)
      requires name in cache
      modifies `cache, `policyindex
      ensures data == old(cache[name].data)
      ensures State() == Touched(old(State()), name, now)
    {
      data := cache[name].data;
      UpdateIndex(name, now);
    }
  }

  lemma RowsHaveEntries(s: CacheState)
    requires Consistent(s)
    ensures forall j | 0 <= j < |s.rows| :: s.rows[j].name in s.cache
  {}

  lemma EvictsFront(s: CacheState, now: uint64)
    requires !s.policy.Selective() && s.rows != []
    ensures Evicted(s, now) == (s.(cache := s.cache - {s.rows[0].name}, rows := s.rows[1..]), s.rows[0].name)
  {
    assert s.rows[..0] + s.rows[1..] == s.rows[1..];
  }

  lemma EvictsStale(s: CacheState, i: nat, now: uint64)
    requires s.policy.Selective() && i < |s.rows| && i <= FirstStale(s, now) && StaleMinimum(s, i, now)
    ensures FirstStale(s, now) == i
    ensures Evicted(s, now) ==
            (s.(cache := s.cache - {s.rows[i].name}, rows := s.rows[..i] + s.rows[i + 1..]), s.rows[i].name)
  {}

  /** Past the rows with the least index there is no stale minimum. */
  lemma NoLaterMinimum(s: CacheState, i: nat, now: uint64)
    requires Consistent(s) && s.rows != []
    requires i <= FirstStale(s, now)
    requires i == |s.rows| || s.rows[i].index != s.rows[0].index
    ensures FirstStale(s, now) == |s.rows|
  {}
}
