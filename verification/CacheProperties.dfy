/** What every cache operation keeps, one operation at a time. */
module CacheProperties {
  import opened Basics
  import opened NamedContentCache

  // ----- SetEntry as a step on the cache -----

  /** The new state, whether the content was cached, the name handed to the directory for removal
      (if an eviction was attempted; the empty name if it found nothing), and whether the name is
      new to the directory. */
  datatype SetResult = SetResult(state: CacheState, cached: bool, removed: Option<Name>, added: bool)

  ghost function SetEntry(s: CacheState, name: Name, data: Bytes, ttl: uint8, now: uint64): SetResult {
    var e := NewEntry(s.policy, data, ttl, now);
    var index := IndexOf(s.policy, e, s.cache);
    if name in s.cache then
      SetResult(Inserted(RemoveName(s, name), name, e, index), true, None, false)
    else if |s.cache| < s.capacity then
      SetResult(Inserted(s, name, e, index), true, None, true)
    else if s.rows != [] && Evictable(s, index, now) then
      var (t, victim) := Evicted(s, now);
      SetResult(Inserted(t, name, e, index), true, Some(victim), true)
    else
      SetResult(s, false, None, false)
  }

  /** The cache into which SetEntry inserts, if it does. */
  function Base(s: CacheState, name: Name, now: uint64): CacheState {
    if name in s.cache then RemoveName(s, name)
    else if |s.cache| < s.capacity then s
    else Evicted(s, now).0
  }

  lemma SetIsInsertion(s: CacheState, name: Name, data: Bytes, ttl: uint8, now: uint64)
    ensures var e, r := NewEntry(s.policy, data, ttl, now), SetEntry(s, name, data, ttl, now);
            r.state == if r.cached then Inserted(Base(s, name, now), name, e, IndexOf(s.policy, e, s.cache)) else s
  {}

  // ----- Rows -----

  function Cut<T>(l: seq<T>, i: nat): seq<T>
    requires i < |l|
  {
    l[..i] + l[i + 1..]
  }

  function Put<T>(l: seq<T>, i: nat, x: T): seq<T>
    requires i <= |l|
  {
    l[..i] + [x] + l[i..]
  }

  lemma {:induction false} EraseIsCut(rows: seq<Row>, i: nat)
    requires Distinct(Names(rows)) && i < |rows|
    ensures EraseName(rows, rows[i].name) == Cut(rows, i)
  {
    var rest := rows[1..];
    DistinctTail(rows);
    if i == 0 {
      EraseAbsent(rest, rows[0].name);
    } else {
      assert Names(rows)[0] != Names(rows)[i];
      EraseIsCut(rest, i - 1);
    }
  }

  lemma DistinctTail(rows: seq<Row>)
    requires Distinct(Names(rows)) && rows != []
    ensures Distinct(Names(rows[1..])) && rows[0].name !in Names(rows[1..])
  {}

  lemma {:induction false} EraseAbsent(rows: seq<Row>, name: Name)
    requires name !in Names(rows)
    ensures EraseName(rows, name) == rows
  {
    if rows != [] {
      assert Names(rows)[0] == rows[0].name;
      forall n | n in Names(rows[1..])
        ensures n in Names(rows)
      {
        var i :| 0 <= i < |rows[1..]| && Names(rows[1..])[i] == n;
        assert Names(rows)[i + 1] == n;
      }
      EraseAbsent(rows[1..], name);
    }
  }

  lemma NamesOfCut(rows: seq<Row>, i: nat)
    requires i < |rows|
    ensures Names(Cut(rows, i)) == Cut(Names(rows), i)
  {}

  lemma NamesOfPut(rows: seq<Row>, i: nat, row: Row)
    requires i <= |rows|
    ensures Names(Put(rows, i, row)) == Put(Names(rows), i, row.name)
  {}

  lemma CutAt<T>(l: seq<T>, i: nat, k: nat)
    requires i < |l| && k + 1 < |l|
    ensures Cut(l, i)[k] == if k < i then l[k] else l[k + 1]
  {}

  lemma PutAt<T>(l: seq<T>, i: nat, x: T, k: nat)
    requires i <= |l| && k <= |l|
    ensures Put(l, i, x)[k] == if k < i then l[k] else if k == i then x else l[k - 1]
  {}

  lemma CutContents(names: seq<Name>, i: nat)
    requires Distinct(names) && i < |names|
    ensures Distinct(Cut(names, i))
    ensures forall n :: n in Cut(names, i) <==> n in names && n != names[i]
  {
    var cut := Cut(names, i);
    forall a, b | 0 <= a < b < |cut|
      ensures cut[a] != cut[b]
    {
      CutAt(names, i, a);
      CutAt(names, i, b);
    }
    forall n | n in names && n != names[i]
      ensures n in cut
    {
      var j :| 0 <= j < |names| && names[j] == n;
      CutAt(names, i, if j < i then j else j - 1);
    }
    forall n | n in cut
      ensures n in names && n != names[i]
    {
      var k :| 0 <= k < |cut| && cut[k] == n;
      CutAt(names, i, k);
    }
  }

  lemma PutContents(names: seq<Name>, i: nat, name: Name)
    requires Distinct(names) && i <= |names| && name !in names
    ensures Distinct(Put(names, i, name))
    ensures forall n :: n in Put(names, i, name) <==> n in names || n == name
  {
    var put := Put(names, i, name);
    forall a, b | 0 <= a < b < |put|
      ensures put[a] != put[b]
    {
      PutAt(names, i, name, a);
      PutAt(names, i, name, b);
    }
    assert names == names[..i] + names[i..];
  }

  // ----- Consistency -----

  lemma RemoveAtConsistent(s: CacheState, i: nat)
    requires Consistent(s) && i < |s.rows|
    ensures Consistent(RemoveAt(s, i))
  {
    NamesOfCut(s.rows, i);
    CutContents(Names(s.rows), i);
    var rows := Cut(s.rows, i);
    forall a, b | 0 <= a < b < |rows|
      ensures rows[a].index <= rows[b].index
    {
      CutAt(s.rows, i, a);
      CutAt(s.rows, i, b);
    }
  }

  lemma RowOf(s: CacheState, name: Name) returns (i: nat)
    requires Consistent(s) && name in s.cache
    ensures i < |s.rows| && s.rows[i].name == name
    ensures RemoveName(s, name) == RemoveAt(s, i)
  {
    i :| 0 <= i < |Names(s.rows)| && Names(s.rows)[i] == name;
    EraseIsCut(s.rows, i);
  }

  lemma RemoveNameConsistent(s: CacheState, name: Name)
    requires Consistent(s) && name in s.cache
    ensures Consistent(RemoveName(s, name))
  {
    var i := RowOf(s, name);
    RemoveAtConsistent(s, i);
  }

  lemma InsertedConsistent(s: CacheState, name: Name, e: Entry, index: uint32)
    requires Consistent(s) && name !in s.cache
    ensures Consistent(Inserted(s, name, e, index))
    ensures Inserted(s, name, e, index) ==
            s.(cache := s.cache[name := e], rows := Put(s.rows, FirstAbove(s.rows, index), Row(index, name)))
  {
    var i, row := FirstAbove(s.rows, index), Row(index, name);
    NamesOfPut(s.rows, i, row);
    PutContents(Names(s.rows), i, name);
    var rows := Put(s.rows, i, row);
    forall a, b | 0 <= a < b < |rows|
      ensures rows[a].index <= rows[b].index
    {
      PutAt(s.rows, i, row, a);
      PutAt(s.rows, i, row, b);
    }
  }

  lemma EvictedConsistent(s: CacheState, now: uint64)
    requires Consistent(s)
    ensures Consistent(Evicted(s, now).0)
    ensures forall n | n in Evicted(s, now).0.cache :: n in s.cache
  {
    if Victim(s, now) < |s.rows| {
      RemoveAtConsistent(s, Victim(s, now));
    }
  }

  /** Rows and cache agree after every hit. */
  lemma TouchedConsistent(s: CacheState, name: Name, now: uint64)
    requires Consistent(s) && name in s.cache
    ensures Consistent(Touched(s, name, now))
  {
    if !s.policy.Fifo? {
      RemoveNameConsistent(s, name);
      var without := RemoveName(s, name);
      var e := Bumped(s.policy, s.cache[name], now);
      InsertedConsistent(without, name, e, IndexOf(s.policy, e, without.cache));
    }
  }

  /** Rows and cache agree after every SetEntry. */
  lemma SetConsistent(s: CacheState, name: Name, data: Bytes, ttl: uint8, now: uint64)
    requires Consistent(s)
    ensures Consistent(SetEntry(s, name, data, ttl, now).state)
  {
    var e := NewEntry(s.policy, data, ttl, now);
    var index := IndexOf(s.policy, e, s.cache);
    if name in s.cache {
      RemoveNameConsistent(s, name);
      InsertedConsistent(RemoveName(s, name), name, e, index);
    } else if |s.cache| < s.capacity {
      InsertedConsistent(s, name, e, index);
    } else {
      EvictedConsistent(s, now);
      InsertedConsistent(Evicted(s, now).0, name, e, index);
    }
  }

  /** The row SetEntry gives a name carries the index of its entry among all entries cached before, the one it
      replaces and the one it evicts included; every other row is one from before. */
  lemma SetRows(s: CacheState, name: Name, data: Bytes, ttl: uint8, now: uint64)
    requires Consistent(s)
    ensures var r := SetEntry(s, name, data, ttl, now);
            forall row | row in r.state.rows ::
              if r.cached && row.name == name
              then row.index == IndexOf(s.policy, NewEntry(s.policy, data, ttl, now), s.cache)
              else row in s.rows
  {
    var e := NewEntry(s.policy, data, ttl, now);
    var index := IndexOf(s.policy, e, s.cache);
    if name in s.cache {
      RemoveNameConsistent(s, name);
      var i := RowOf(s, name);
      InsertedRows(RemoveName(s, name), name, e, index);
    } else if |s.cache| < s.capacity {
      InsertedRows(s, name, e, index);
    } else {
      EvictedConsistent(s, now);
      InsertedRows(Evicted(s, now).0, name, e, index);
    }
  }

  lemma InsertedRows(s: CacheState, name: Name, e: Entry, index: uint32)
    requires Consistent(s) && name !in s.cache
    ensures forall row | row in Inserted(s, name, e, index).rows ::
              if row.name == name then row.index == index else row in s.rows
  {
    InsertedConsistent(s, name, e, index);
    RowsHaveEntries(s);
    forall row | row in Inserted(s, name, e, index).rows
      ensures if row.name == name then row.index == index else row in s.rows
    {
      var rows, i := Put(s.rows, FirstAbove(s.rows, index), Row(index, name)), FirstAbove(s.rows, index);
      var k :| 0 <= k < |rows| && rows[k] == row;
      PutAt(s.rows, i, Row(index, name), k);
    }
  }

  /** A hit gives the name a row with the index of its bumped entry among the other entries. */
  lemma TouchedRows(s: CacheState, name: Name, now: uint64)
    requires Consistent(s) && name in s.cache && !s.policy.Fifo?
    ensures forall row | row in Touched(s, name, now).rows ::
              if row.name == name
              then row.index == IndexOf(s.policy, Bumped(s.policy, s.cache[name], now), s.cache - {name})
              else row in s.rows
  {
    RemoveNameConsistent(s, name);
    var i := RowOf(s, name);
    var e := Bumped(s.policy, s.cache[name], now);
    InsertedRows(RemoveName(s, name), name, e, IndexOf(s.policy, e, s.cache - {name}));
  }

  /** As many rows as entries. */
  lemma RowsCountEntries(s: CacheState)
    requires Consistent(s)
    ensures |s.rows| == |s.cache|
  {
    DistinctCount(Names(s.rows), s.cache.Keys);
  }

  lemma {:induction false} DistinctCount(names: seq<Name>, keys: set<Name>)
    requires Distinct(names) && forall n :: n in keys <==> n in names
    ensures |names| == |keys|
  {
    if names != [] {
      var last, front := names[|names| - 1], names[..|names| - 1];
      forall n
        ensures n in keys - {last} <==> n in front
      {
        if n in front {
          var i :| 0 <= i < |front| && front[i] == n;
          assert names[i] == n;
        }
      }
      DistinctCount(front, keys - {last});
    }
  }
}
