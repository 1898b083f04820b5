/** The index of the universal policy: how it depends on popularity and distance, and its bound. */
module UniversalPolicy {
  import opened Basics
  import opened NamedContentCache
  import opened CacheProperties
  import opened CacheRuns

  // The least number of hits for which 10000 times the frequency no longer fits in 32 bits.
  const MANY_HITS := 429496

  // ----- Hops -----

  /** The TTL a forwarding router sends on: one less in 8 bits, or dropped at zero. */
  function Forwarded(ttl: uint8): Option<uint8> {
    var left := if ttl == 0 then 255 else ttl - 1;
    if left == 0 then None else Some(left)
  }

  /** The TTL after `hops` routers; None if the packet has been dropped on the way. */
  function AfterHops(ttl: uint8, hops: nat): Option<uint8> {
    if hops == 0 then Some(ttl)
    else
      match AfterHops(ttl, hops - 1)
      case None => None
      case Some(t) => Forwarded(t)
  }

  /** A packet sent with a TTL of 1 to 64 is seen with the hops taken off, and never with 0. */
  lemma {:induction false} TtlCountsHops(ttl: uint8, hops: nat)
    requires 1 <= ttl
    ensures AfterHops(ttl, hops) == if hops < ttl then Some(ttl - hops) else None
  {
    if hops > 0 {
      TtlCountsHops(ttl, hops - 1);
    }
  }

  // ----- The index -----

  lemma HopTermBounds(ttl: uint8)
    requires ttl <= 64
    ensures 0 <= HopTerm(ttl) <= 20000
  {}

  lemma HopTermAntitone(near: uint8, far: uint8)
    requires far <= near <= 64
    ensures HopTerm(near) <= HopTerm(far)
  {}

  /** With the maximum within bounds the product does not wrap, and the share is a fraction. */
  lemma ShareOfMaximum(f: uint32, m: uint32)
    requires f <= m <= MANY_HITS && 1 <= m
    ensures Share(f, m) == f * 10000 / m <= 10000
    ensures f == m ==> Share(f, m) == 10000
  {
    assert Low32(f * 10000) == f * 10000;
    var q, r := f * 10000 / m, f * 10000 % m;
    assert f * 10000 == q * m + r;
    if q > 10000 {
      Product(10001, q, m);
    }
    if f == m && q < 10000 {
      Product(q + 1, 10000, m);
    }
  }

  lemma Product(a: int, b: int, m: nat)
    requires a <= b
    ensures a * m <= b * m
    ensures (a + 1) * m == a * m + m
  {}

  lemma ShareMonotone(f: uint32, g: uint32, m: uint32)
    requires f <= g <= m <= MANY_HITS && 1 <= m
    ensures Share(f, m) <= Share(g, m)
  {
    ShareOfMaximum(f, m);
    ShareOfMaximum(g, m);
    var p, q := f * 10000 / m, g * 10000 / m;
    assert f * 10000 == p * m + f * 10000 % m && g * 10000 == q * m + g * 10000 % m;
    if q < p {
      Product(q + 1, p, m);
      Product(q, q + 1, m);
    }
  }

  /** The hop term is 312.5 for each hop a content has come of 64, rounded down; a TTL beyond 64 makes it
      negative, rounded up. */
  lemma HopTermExactly(ttl: uint8)
    ensures ttl <= 64 ==> 64 * HopTerm(ttl) <= (64 - ttl) * 20000 < 64 * (HopTerm(ttl) + 1)
    ensures ttl > 64 ==> 64 * (HopTerm(ttl) - 1) < (64 - ttl) * 20000 <= 64 * HopTerm(ttl)
  {}

  lemma HopSteps(near: uint8, far: uint8)
    requires far <= near <= 64
    ensures 312 * (near - far) <= HopTerm(far) - HopTerm(near) <= 313 * (near - far)
  {
    HopTermExactly(near);
    HopTermExactly(far);
  }

  /** The index is the entry's share of the highest frequency, in ten thousandths rounded down, plus 312.5 for
      each hop, rounded down. */
  lemma IndexExactly(e: Entry, m: uint32) returns (share: nat, hops: nat)
    requires e.frequency <= m <= MANY_HITS && 1 <= m && e.ttl <= 64
    ensures UniversalIndex(e, m) == share + hops
    ensures share * m <= e.frequency * 10000 < (share + 1) * m
    ensures 64 * hops <= (64 - e.ttl) * 20000 < 64 * (hops + 1)
  {
    IndexWithoutWrap(e, m);
    ShareOfMaximum(e.frequency, m);
    HopTermBounds(e.ttl);
    HopTermExactly(e.ttl);
    share, hops := Share(e.frequency, m), HopTerm(e.ttl);
    assert e.frequency * 10000 == share * m + e.frequency * 10000 % m;
    Product(share, share + 1, m);
  }

  /** A content from farther away that is at least as popular gets a higher index, by 312 or 313 for each hop
      if it is just as popular. */
  lemma FartherIsHigher(e: Entry, d: Entry, m: uint32)
    requires 1 <= e.frequency <= d.frequency <= m <= MANY_HITS && d.ttl < e.ttl <= 64
    ensures UniversalIndex(e, m) + 312 * (e.ttl - d.ttl) <= UniversalIndex(d, m)
    ensures e.frequency == d.frequency ==> UniversalIndex(d, m) <= UniversalIndex(e, m) + 313 * (e.ttl - d.ttl)
  {
    IndexWithoutWrap(e, m);
    IndexWithoutWrap(d, m);
    ShareMonotone(e.frequency, d.frequency, m);
    HopSteps(e.ttl, d.ttl);
  }

  /** In an empty cache the entry is compared with itself. */
  lemma EmptyIndexExactly(e: Entry)
    requires 1 <= e.frequency <= MANY_HITS && e.ttl <= 64
    ensures IndexOf(Universal, e, map[]) == UniversalIndex(e, e.frequency)
  {
    IndexWithoutWrap(e, e.frequency);
    ShareOfMaximum(e.frequency, e.frequency);
    HopTermBounds(e.ttl);
  }

  /** `m` is the highest frequency of `e` and all entries of the cache. */
  ghost predicate IsHighest(m: uint32, e: Entry, cache: map<Name, Entry>) {
    && e.frequency <= m && (forall n | n in cache :: cache[n].frequency <= m)
    && (e.frequency == m || exists n :: n in cache && cache[n].frequency == m)
  }

  /** In any cache the entry is compared with the highest frequency there is, its own included. */
  lemma IndexAmong(e: Entry, cache: map<Name, Entry>, m: uint32)
    requires IsHighest(m, e, cache) && 1 <= e.frequency && m <= MANY_HITS && e.ttl <= 64
    ensures IndexOf(Universal, e, cache) == UniversalIndex(e, m)
  {
    if cache == map[] {
      EmptyIndexExactly(e);
    } else {
      var highest := MaxFrequency(cache, e.frequency);
      assert highest == m;
    }
  }

  /** Beyond the bounds the index wraps: one hit more makes the most popular content the least, and a TTL
      beyond 64 makes a near one the farthest. */
  lemma IndexWraps(data: Bytes, at: uint64)
    ensures UniversalIndex(Entry(data, 64, at, MANY_HITS), MANY_HITS) == 10000
    ensures UniversalIndex(Entry(data, 64, at, MANY_HITS + 1), MANY_HITS + 1) == 0
    ensures UniversalIndex(Entry(data, 255, at, 1), 1) == 0x1_0000_0000 - 49687
  {
    assert HopTerm(64) == 0 && HopTerm(255) == -59687;
    assert Share(MANY_HITS + 1, MANY_HITS + 1) == 2704 / (MANY_HITS + 1) == 0;
  }

  /** Within the bounds the index is the sum of share and hop term, and at most 30000. */
  lemma IndexWithoutWrap(e: Entry, m: uint32)
    requires e.frequency <= m <= MANY_HITS && 1 <= m && e.ttl <= 64
    ensures UniversalIndex(e, m) == Share(e.frequency, m) + HopTerm(e.ttl) <= 30000
  {
    HopTermBounds(e.ttl);
    ShareOfMaximum(e.frequency, m);
    var share, hops := Share(e.frequency, m), HopTerm(e.ttl);
    assert Low32(share + hops) == share + hops;
  }

  /** The more popular of two contents and the one from farther away get the higher index. */
  lemma IndexMonotone(e: Entry, d: Entry, m: uint32)
    requires 1 <= e.frequency <= d.frequency <= m <= MANY_HITS
    requires d.ttl <= e.ttl <= 64
    ensures UniversalIndex(e, m) <= UniversalIndex(d, m)
  {
    IndexWithoutWrap(e, m);
    IndexWithoutWrap(d, m);
    ShareMonotone(e.frequency, d.frequency, m);
    HopTermAntitone(e.ttl, d.ttl);
  }

  /** Against the same other entries, a higher frequency of its own cannot lower the index, although
      it may raise the maximum it is compared with. */
  lemma IndexMonotoneInFrequency(e: Entry, d: Entry, cache: map<Name, Entry>)
    requires d == e.(frequency := d.frequency) && e.ttl <= 64
    requires 1 <= e.frequency <= d.frequency <= MANY_HITS
    requires forall n | n in cache :: cache[n].frequency <= MANY_HITS
    ensures IndexOf(Universal, e, cache) <= IndexOf(Universal, d, cache)
  {
    if cache != map[] {
      var l, m := MaxFrequency(cache, e.frequency), MaxFrequency(cache, d.frequency);
      IndexWithoutWrap(e, l);
      IndexWithoutWrap(d, m);
      ShareOfMaximum(e.frequency, l);
      if m == l {
        ShareMonotone(e.frequency, d.frequency, m);
      } else {
        assert m == d.frequency;
        ShareOfMaximum(d.frequency, m);
      }
    }
  }

  // ----- Bounds over runs -----

  ghost predicate Bounded(s: CacheState, hits: nat) {
    && s.policy == Universal
    && Consistent(s)
    && (forall n | n in s.cache :: 1 <= s.cache[n].frequency <= 1 + hits && s.cache[n].ttl <= 64)
    && forall i | 0 <= i < |s.rows| :: s.rows[i].index <= 30000
  }

  lemma IndexBounded(e: Entry, cache: map<Name, Entry>)
    requires 1 <= e.frequency <= MANY_HITS && e.ttl <= 64
    requires forall n | n in cache :: cache[n].frequency <= MANY_HITS
    ensures IndexOf(Universal, e, cache) <= 30000
    ensures MaxFrequency(cache, e.frequency) != 0
  {
    HopTermBounds(e.ttl);
    IndexWithoutWrap(e, MaxFrequency(cache, e.frequency));
  }

  lemma RemoveAtBounded(s: CacheState, i: nat, hits: nat)
    requires Bounded(s, hits) && i < |s.rows|
    ensures Bounded(RemoveAt(s, i), hits)
  {
    RemoveAtConsistent(s, i);
  }

  lemma EvictedBounded(s: CacheState, now: uint64, hits: nat)
    requires Bounded(s, hits)
    ensures Bounded(Evicted(s, now).0, hits)
    ensures forall n | n in Evicted(s, now).0.cache :: n in s.cache
  {
    EvictedConsistent(s, now);
    if Victim(s, now) < |s.rows| {
      RemoveAtBounded(s, Victim(s, now), hits);
    }
  }

  lemma InsertedBounded(s: CacheState, name: Name, e: Entry, index: uint32, hits: nat)
    requires Bounded(s, hits) && name !in s.cache
    requires 1 <= e.frequency <= 1 + hits && e.ttl <= 64 && index <= 30000
    ensures Bounded(Inserted(s, name, e, index), hits)
  {
    InsertedConsistent(s, name, e, index);
    var i, row := FirstAbove(s.rows, index), Row(index, name);
    forall k | 0 <= k < |Put(s.rows, i, row)|
      ensures Put(s.rows, i, row)[k].index <= 30000
    {
      PutAt(s.rows, i, row, k);
    }
  }

  lemma SetBounded(s: CacheState, name: Name, data: Bytes, ttl: uint8, now: uint64, hits: nat)
    requires Bounded(s, hits) && hits < MANY_HITS && ttl <= 64
    ensures Bounded(SetEntry(s, name, data, ttl, now).state, hits)
  {
    var e := NewEntry(s.policy, data, ttl, now);
    var index := IndexOf(s.policy, e, s.cache);
    IndexBounded(e, s.cache);
    BaseBounded(s, name, now, hits);
    InsertedBounded(Base(s, name, now), name, e, index, hits);
    SetIsInsertion(s, name, data, ttl, now);
  }

  lemma BaseBounded(s: CacheState, name: Name, now: uint64, hits: nat)
    requires Bounded(s, hits)
    ensures Bounded(Base(s, name, now), hits) && name !in Base(s, name, now).cache
  {
    if name in s.cache {
      var i := RowOf(s, name);
      RemoveAtBounded(s, i, hits);
    } else {
      EvictedBounded(s, now, hits);
    }
  }

  lemma TouchedBounded(s: CacheState, name: Name, now: uint64, hits: nat)
    requires Bounded(s, hits) && hits < MANY_HITS && name in s.cache && s.cache[name].frequency <= hits
    ensures Bounded(Touched(s, name, now), hits)
  {
    var e := Bumped(s.policy, s.cache[name], now);
    var i := RowOf(s, name);
    var t := RemoveAt(s, i);
    RemoveAtBounded(s, i, hits);
    IndexBounded(e, t.cache);
    InsertedBounded(t, name, e, IndexOf(Universal, e, t.cache), hits);
  }

  /** At no time has a name been hit 429496 times since it was last stored. */
  ghost predicate SeldomHit(ops: seq<Op>) {
    ops != [] ==> SeldomHit(ops[..|ops| - 1]) && HitsSince(ops, ops[|ops| - 1].name) < MANY_HITS
  }

  ghost predicate SeldomHitAt(ops: seq<Op>, k: nat) {
    k <= |ops| ==> forall n :: HitsSince(ops[..k], n) < MANY_HITS
  }

  /** Said of every name at every time. */
  lemma {:induction false} SeldomHitAlways(ops: seq<Op>)
    ensures SeldomHit(ops) <==> forall k :: SeldomHitAt(ops, k)
  {
    if ops != [] {
      var front, last := ops[..|ops| - 1], ops[|ops| - 1];
      SeldomHitAlways(front);
      forall k: nat | k < |ops|
        ensures SeldomHitAt(ops, k) == SeldomHitAt(front, k)
      {
        assert front[..k] == ops[..k];
      }
      assert ops[..|ops|] == ops && front[..|front|] == front;
      if SeldomHit(ops) {
        forall k
          ensures SeldomHitAt(ops, k)
        {
          assert SeldomHitAt(front, k) && SeldomHitAt(front, |front|);
        }
      }
      if forall k :: SeldomHitAt(ops, k) {
        assert SeldomHitAt(ops, |ops|);
        forall k
          ensures SeldomHitAt(front, k)
        {
          assert SeldomHitAt(ops, k);
        }
      }
    }
  }

  /** What is about to be hit has not been hit too often before. */
  lemma FrequencyLeavesRoom(capacity: uint32, freshness: uint64, front: seq<Op>, n: Name)
    requires HitsSince(front, n) + 1 < MANY_HITS && n in Run(Empty(Universal, capacity, freshness), front).cache
    ensures Run(Empty(Universal, capacity, freshness), front).cache[n].frequency < MANY_HITS
  {
    EntryIsLast(capacity, freshness, front, n);
    FewHits(front, n);
  }

  lemma FewHits(ops: seq<Op>, n: Name)
    requires HitsSince(ops, n) + 1 < MANY_HITS && LastEntry(Universal, ops, n).Some?
    ensures LastEntry(Universal, ops, n).value.frequency < MANY_HITS
  {
    FrequencyCountsHits(Universal, ops, n);
  }

  lemma EntryIsLast(capacity: uint32, freshness: uint64, ops: seq<Op>, n: Name)
    requires n in Run(Empty(Universal, capacity, freshness), ops).cache
    ensures LastEntry(Universal, ops, n) == Some(Run(Empty(Universal, capacity, freshness), ops).cache[n])
  {
    RunReaches(Universal, capacity, freshness, ops);
  }

  /** However long the run: while no name is hit that often and TTLs are as received from routers,
      every index ever stored is at most 30000 and no division by zero occurs in computing it. */
  lemma {:induction false} StoredIndexesBounded(capacity: uint32, freshness: uint64, ops: seq<Op>)
    requires SeldomHit(ops)
    requires forall i | 0 <= i < |ops| && ops[i].Store? :: 1 <= ops[i].ttl <= 64
    ensures Bounded(Run(Empty(Universal, capacity, freshness), ops), MANY_HITS - 1)
  {
    if ops != [] {
      var front, last := ops[..|ops| - 1], ops[|ops| - 1];
      StoredIndexesBounded(capacity, freshness, front);
      var s := Run(Empty(Universal, capacity, freshness), front);
      if last.Store? {
        SetBounded(s, last.name, last.data, last.ttl, last.at, MANY_HITS - 1);
      } else if last.name in s.cache {
        FrequencyLeavesRoom(capacity, freshness, front, last.name);
        TouchedBounded(s, last.name, last.at, MANY_HITS - 1);
      }
    }
  }

  /** The divisor is positive wherever frequencies have not wrapped to zero. */
  lemma NoDivisionByZero(e: Entry, cache: map<Name, Entry>)
    ensures MaxFrequency(cache, e.frequency) == 0
       <==> e.frequency == 0 && forall n | n in cache :: cache[n].frequency == 0
  {}
}
