/** Whole runs of one cache: what its entries, its rows and its size are after any sequence of
    SetEntry and Find calls, said in terms of that sequence alone. */
module CacheRuns {
  import opened Basics
  import opened FloatStamp
  import opened NamedContentCache
  import opened CacheProperties
  import W = Wire

  datatype Op =
    | Store(name: Name, data: Bytes, ttl: uint8, at: uint64)
    | Hit(name: Name, at: uint64)

  ghost function Apply(s: CacheState, op: Op): CacheState {
    match op
    case Store(name, data, ttl, at) => SetEntry(s, name, data, ttl, at).state
    case Hit(name, at) => if name in s.cache then Touched(s, name, at) else s
  }

  ghost function Run(s: CacheState, ops: seq<Op>): CacheState {
    if ops == [] then s else Apply(Run(s, ops[..|ops| - 1]), ops[|ops| - 1])
  }

  /** The clock never goes back, and only cached names are looked up. */
  ghost predicate Legal(s: CacheState, ops: seq<Op>) {
    ops != [] ==>
      var front, last := ops[..|ops| - 1], ops[|ops| - 1];
      && Legal(s, front)
      && (front != [] ==> front[|front| - 1].at <= last.at)
      && (last.Hit? ==> last.name in Run(s, front).cache)
  }

  function Empty(policy: Policy, capacity: uint32, freshness: uint64): CacheState {
    CacheState(policy, capacity, freshness, map[], [])
  }

  ghost predicate Reached(s: CacheState, policy: Policy, ops: seq<Op>) {
    && s.policy == policy
    && Consistent(s)
    && (forall n | n in s.cache :: LastEntry(policy, ops, n) == Some(s.cache[n]))
    && (!policy.Universal? ==> IndexesAgree(s))
  }

  // ----- Entries: the history of a name alone decides its entry -----

  /** What the operations on `n` make its entry, had nothing ever been evicted. */
  function LastEntry(policy: Policy, ops: seq<Op>, n: Name): Option<Entry> {
    if ops == [] then None
    else
      var before, last := LastEntry(policy, ops[..|ops| - 1], n), ops[|ops| - 1];
      if last.name != n then before
      else
        match last
        case Store(_, data, ttl, at) => Some(NewEntry(policy, data, ttl, at))
        case Hit(_, at) => if before.Some? then Some(Bumped(policy, before.value, at)) else None
  }

  /** The last store of `n` in a run, and the time of the last operation on it. */
  function LastStore(ops: seq<Op>, n: Name): Option<Op> {
    if ops == [] then None
    else
      var last := ops[|ops| - 1];
      if last.name == n && last.Store? then Some(last) else LastStore(ops[..|ops| - 1], n)
  }

  function LastTime(ops: seq<Op>, n: Name): Option<uint64> {
    if ops == [] then None
    else
      var last := ops[|ops| - 1];
      if last.name == n then Some(last.at) else LastTime(ops[..|ops| - 1], n)
  }

  /** An entry holds the data of the last store of its name, up to the first NUL, and for LFU and Universal its
      TTL; its timestamp is the time of that store, for LRU and Universal that of the last store or hit. */
  lemma {:induction false} EntryFromHistory(policy: Policy, ops: seq<Op>, n: Name)
    requires LastEntry(policy, ops, n).Some?
    ensures LastStore(ops, n).Some? && LastStore(ops, n).value.Store? && LastTime(ops, n).Some?
    ensures var e, stored := LastEntry(policy, ops, n).value, LastStore(ops, n).value;
            && e.data == W.CString(stored.data)
            && e.ttl == (if policy == Lfu || policy == Universal then stored.ttl else 0)
            && e.timestamp == if policy == Lru || policy == Universal then LastTime(ops, n).value else stored.at
  {
    var front, last := ops[..|ops| - 1], ops[|ops| - 1];
    if last.name != n || last.Hit? {
      EntryFromHistory(policy, front, n);
    }
  }

  function OwnIndex(policy: Policy, e: Entry): uint32 {
    if policy.Lfu? then e.frequency else Stamp(e.timestamp)
  }

  /** Row `i` carries the index of its own entry. */
  ghost predicate AgreesAt(s: CacheState, i: nat) {
    i < |s.rows| && s.rows[i].name in s.cache && s.rows[i].index == OwnIndex(s.policy, s.cache[s.rows[i].name])
  }

  ghost predicate IndexesAgree(s: CacheState) {
    forall i: nat {:trigger AgreesAt(s, i)} | i < |s.rows| :: AgreesAt(s, i)
  }

  lemma RemoveAtAgrees(s: CacheState, i: nat)
    requires Consistent(s) && IndexesAgree(s) && i < |s.rows|
    ensures IndexesAgree(RemoveAt(s, i))
  {
    var t := RemoveAt(s, i);
    RemoveAtConsistent(s, i);
    RowsHaveEntries(t);
    forall k: nat | k < |t.rows|
      ensures AgreesAt(t, k)
    {
      CutAt(s.rows, i, k);
      assert AgreesAt(s, if k < i then k else k + 1);
    }
  }

  lemma InsertedAgrees(s: CacheState, name: Name, e: Entry, index: uint32)
    requires Consistent(s) && IndexesAgree(s) && name !in s.cache && index == OwnIndex(s.policy, e)
    ensures IndexesAgree(Inserted(s, name, e, index))
  {
    InsertedConsistent(s, name, e, index);
    RowsHaveEntries(s);
    var t, i := Inserted(s, name, e, index), FirstAbove(s.rows, index);
    forall k: nat | k < |t.rows|
      ensures AgreesAt(t, k)
    {
      PutAt(s.rows, i, Row(index, name), k);
      if k != i {
        assert AgreesAt(s, if k < i then k else k - 1);
      }
    }
  }

  lemma EvictedAgrees(s: CacheState, now: uint64)
    requires Consistent(s) && IndexesAgree(s)
    ensures IndexesAgree(Evicted(s, now).0)
  {
    if Victim(s, now) < |s.rows| {
      RemoveAtAgrees(s, Victim(s, now));
    }
  }

  lemma ReplacedAgrees(s: CacheState, name: Name, e: Entry)
    requires Consistent(s) && IndexesAgree(s) && name in s.cache
    ensures IndexesAgree(Inserted(RemoveName(s, name), name, e, OwnIndex(s.policy, e)))
  {
    var i := RowOf(s, name);
    RemoveAtConsistent(s, i);
    RemoveAtAgrees(s, i);
    InsertedAgrees(RemoveAt(s, i), name, e, OwnIndex(s.policy, e));
  }

  lemma SetAgrees(s: CacheState, name: Name, data: Bytes, ttl: uint8, now: uint64)
    requires Consistent(s) && IndexesAgree(s) && !s.policy.Universal?
    ensures IndexesAgree(SetEntry(s, name, data, ttl, now).state)
  {
    var e := NewEntry(s.policy, data, ttl, now);
    if name in s.cache {
      ReplacedAgrees(s, name, e);
    } else if |s.cache| < s.capacity {
      InsertedAgrees(s, name, e, OwnIndex(s.policy, e));
    } else {
      EvictedConsistent(s, now);
      EvictedAgrees(s, now);
      InsertedAgrees(Evicted(s, now).0, name, e, OwnIndex(s.policy, e));
    }
  }

  lemma TouchedAgrees(s: CacheState, name: Name, now: uint64)
    requires Consistent(s) && IndexesAgree(s) && !s.policy.Universal? && name in s.cache
    ensures IndexesAgree(Touched(s, name, now))
  {
    if !s.policy.Fifo? {
      ReplacedAgrees(s, name, Bumped(s.policy, s.cache[name], now));
    }
  }

  /** At most one entry is set, to `e`, and others at most removed. */
  ghost predicate SetsOnly(s: CacheState, t: CacheState, name: Name, e: Entry) {
    && t.policy == s.policy && t.capacity == s.capacity && t.freshness == s.freshness
    && (forall n | n in t.cache && n != name :: n in s.cache && t.cache[n] == s.cache[n])
    && (name in t.cache ==> t.cache[name] == e)
  }

  /** What SetEntry does to the entries: it sets at most its own, and removes others at most. */
  lemma SetEntries(s: CacheState, name: Name, data: Bytes, ttl: uint8, now: uint64)
    requires Consistent(s)
    ensures SetsOnly(s, SetEntry(s, name, data, ttl, now).state, name, NewEntry(s.policy, data, ttl, now))
  {}

  lemma ApplyEntries(s: CacheState, op: Op)
    requires Consistent(s)
    ensures Apply(s, op).policy == s.policy && Consistent(Apply(s, op))
    ensures var t := Apply(s, op);
            && (forall n | n in t.cache && n != op.name :: n in s.cache && t.cache[n] == s.cache[n])
            && (op.name in t.cache ==>
                 if op.Store? then t.cache[op.name] == NewEntry(s.policy, op.data, op.ttl, op.at)
                 else op.name in s.cache && t.cache[op.name] == Bumped(s.policy, s.cache[op.name], op.at))
  {
    if op.Store? {
      SetConsistent(s, op.name, op.data, op.ttl, op.at);
      SetEntries(s, op.name, op.data, op.ttl, op.at);
    } else if op.name in s.cache {
      TouchedConsistent(s, op.name, op.at);
    }
  }

  /** In every reachable state of every policy, rows and cache hold the same names, each entry is
      what the history of its name says, and each stored index is the one its entry calls for. */
  lemma {:induction false} RunReaches(policy: Policy, capacity: uint32, freshness: uint64, ops: seq<Op>)
    ensures Reached(Run(Empty(policy, capacity, freshness), ops), policy, ops)
  {
    var s0 := Empty(policy, capacity, freshness);
    if ops != [] {
      var front, last := ops[..|ops| - 1], ops[|ops| - 1];
      RunReaches(policy, capacity, freshness, front);
      var s := Run(s0, front);
      ApplyEntries(s, last);
      if !policy.Universal? {
        if last.Store? {
          SetAgrees(s, last.name, last.data, last.ttl, last.at);
        } else if last.name in s.cache {
          TouchedAgrees(s, last.name, last.at);
        }
      }
    }
  }

  /** Hits on `n` since its content was last stored. */
  function HitsSince(ops: seq<Op>, n: Name): nat {
    if ops == [] then 0
    else
      var before, last := HitsSince(ops[..|ops| - 1], n), ops[|ops| - 1];
      if last.name != n then before else if last.Store? then 0 else before + 1
  }

  /** The frequency of an entry is one more than the hits since it was stored, in 32 bits. */
  lemma {:induction false} FrequencyCountsHits(policy: Policy, ops: seq<Op>, n: Name)
    requires policy.Selective() && LastEntry(policy, ops, n).Some?
    ensures LastEntry(policy, ops, n).value.frequency == Low32(1 + HitsSince(ops, n))
  {
    var front, last := ops[..|ops| - 1], ops[|ops| - 1];
    if last.name != n || last.Hit? {
      FrequencyCountsHits(policy, front, n);
    }
  }

  /** The LFU index of every cached name, after any run. */
  lemma LfuIndexCountsHits(capacity: uint32, freshness: uint64, ops: seq<Op>, i: nat)
    requires i < |Run(Empty(Lfu, capacity, freshness), ops).rows|
    ensures var row := Run(Empty(Lfu, capacity, freshness), ops).rows[i];
            row.index == Low32(1 + HitsSince(ops, row.name))
  {
    RunReaches(Lfu, capacity, freshness, ops);
    LfuIndexOf(Run(Empty(Lfu, capacity, freshness), ops), ops, i);
  }

  lemma LfuIndexOf(s: CacheState, ops: seq<Op>, i: nat)
    requires Reached(s, Lfu, ops) && i < |s.rows|
    ensures s.rows[i].index == Low32(1 + HitsSince(ops, s.rows[i].name))
  {
    LfuRow(s, ops, i);
    FrequencyCountsHits(Lfu, ops, s.rows[i].name);
  }

  lemma LfuRow(s: CacheState, ops: seq<Op>, i: nat)
    requires Reached(s, Lfu, ops) && i < |s.rows|
    ensures LastEntry(Lfu, ops, s.rows[i].name).Some?
    ensures s.rows[i].index == LastEntry(Lfu, ops, s.rows[i].name).value.frequency
  {
    assert AgreesAt(s, i);
  }

  /** No entry carries a time ahead of the clock. */
  lemma {:induction false} EntryNotFromFuture(s: CacheState, policy: Policy, ops: seq<Op>, n: Name)
    requires Legal(s, ops) && LastEntry(policy, ops, n).Some?
    ensures LastEntry(policy, ops, n).value.timestamp <= ops[|ops| - 1].at
  {
    var front, last := ops[..|ops| - 1], ops[|ops| - 1];
    if LastEntry(policy, front, n).Some? {
      EntryNotFromFuture(s, policy, front, n);
    }
  }
}
