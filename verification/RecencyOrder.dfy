/** LRU and FIFO keep a recency list: after any run the rows name exactly the last distinct names
    that were touched, oldest first, as many as the cache holds. */
module RecencyOrder {
  import opened Basics
  import opened FloatStamp
  import opened NamedContentCache
  import opened CacheProperties
  import opened CacheRuns

  // ----- The reference: distinct names by last touch -----

  function Minus(l: seq<Name>, x: Name): seq<Name> {
    if l == [] then []
    else
      var front, last := l[..|l| - 1], l[|l| - 1];
      if last == x then Minus(front, x) else Minus(front, x) + [last]
  }

  /** The names of a trace, each once, in order of their last occurrence. */
  function Recency(trace: seq<Name>): seq<Name> {
    if trace == [] then []
    else
      var front, last := trace[..|trace| - 1], trace[|trace| - 1];
      Minus(Recency(front), last) + [last]
  }

  function LastN<T>(l: seq<T>, n: nat): seq<T> {
    if |l| <= n then l else l[|l| - n..]
  }

  /** What counts as a touch: storing a name, and for LRU looking it up as well. */
  function Touches(policy: Policy, ops: seq<Op>): seq<Name> {
    if ops == [] then []
    else
      var before, last := Touches(policy, ops[..|ops| - 1]), ops[|ops| - 1];
      if last.Store? || policy.Lru? then before + [last.name] else before
  }

  /** Position of the last occurrence of `x` in a trace. */
  function LastAt(trace: seq<Name>, x: Name): (k: nat)
    requires x in trace
    ensures k < |trace| && trace[k] == x && x !in trace[k + 1..]
  {
    var n := |trace| - 1;
    if trace[n] == x then n else assert x in trace[..n]; LastAt(trace[..n], x)
  }

  lemma {:induction false} MinusContents(l: seq<Name>, x: Name)
    ensures forall y :: y in Minus(l, x) <==> y in l && y != x
  {
    if l != [] {
      var front := l[..|l| - 1];
      MinusContents(front, x);
      assert l == front + [l[|l| - 1]];
    }
  }

  lemma {:induction false} MinusAbsent(l: seq<Name>, x: Name)
    requires x !in l
    ensures Minus(l, x) == l
  {
    if l != [] {
      MinusAbsent(l[..|l| - 1], x);
    }
  }

  lemma {:induction false} MinusIsCut(l: seq<Name>, i: nat)
    requires Distinct(l) && i < |l|
    ensures Minus(l, l[i]) == Cut(l, i)
  {
    var front := l[..|l| - 1];
    if i < |front| {
      MinusIsCut(front, i);
    } else {
      MinusAbsent(front, l[i]);
    }
  }

  lemma {:induction false} RecencyContents(trace: seq<Name>)
    ensures Distinct(Recency(trace))
    ensures forall x :: x in Recency(trace) <==> x in trace
  {
    if trace != [] {
      var front, last := trace[..|trace| - 1], trace[|trace| - 1];
      RecencyContents(front);
      MinusContents(Recency(front), last);
      DistinctMinus(Recency(front), last);
      assert trace == front + [last];
    }
  }

  lemma DistinctMinus(l: seq<Name>, x: Name)
    requires Distinct(l)
    ensures Distinct(Minus(l, x) + [x])
  {
    if x in l {
      var i :| 0 <= i < |l| && l[i] == x;
      MinusIsCut(l, i);
      CutContents(l, i);
    } else {
      MinusAbsent(l, x);
    }
  }

  /** The reference list is ordered by last occurrence. */
  lemma {:induction false} RecencyByLastTouch(trace: seq<Name>, i: nat, j: nat)
    requires i < j < |Recency(trace)|
    ensures Recency(trace)[i] in trace && Recency(trace)[j] in trace
    ensures LastAt(trace, Recency(trace)[i]) < LastAt(trace, Recency(trace)[j])
  {
    RecencyContents(trace);
    var r := Recency(trace);
    assert r[i] in r && r[j] in r;
    var front, last := trace[..|trace| - 1], trace[|trace| - 1];
    RecencyContents(front);
    var before := Recency(front);
    MinusContents(before, last);
    if j < |r| - 1 {
      var a, b := OlderPositions(before, last, i, j);
      RecencyByLastTouch(front, a, b);
    }
  }

  lemma OlderPositions(l: seq<Name>, x: Name, i: nat, j: nat) returns (a: nat, b: nat)
    requires Distinct(l) && i < j < |Minus(l, x)|
    ensures a < b < |l| && l[a] == Minus(l, x)[i] && l[b] == Minus(l, x)[j] && l[a] != x && l[b] != x
  {
    MinusContents(l, x);
    assert Minus(l, x)[i] in Minus(l, x) && Minus(l, x)[j] in Minus(l, x);
    if x in l {
      var k :| 0 <= k < |l| && l[k] == x;
      MinusIsCut(l, k);
      CutAt(l, k, i);
      CutAt(l, k, j);
      a, b := if i < k then i else i + 1, if j < k then j else j + 1;
    } else {
      MinusAbsent(l, x);
      a, b := i, j;
    }
  }

  /** A bounded list with its oldest name dropped when full. */
  function Push(l: seq<Name>, x: Name, capacity: nat): seq<Name>
    requires capacity >= 1
  {
    if x in l then Minus(l, x) + [x]
    else if |l| < capacity then l + [x]
    else if l == [] then [x] else l[1..] + [x]
  }

  /** Keeping only the newest names loses nothing that is needed to go on. */
  lemma BoundedRecency(l: seq<Name>, x: Name, capacity: nat)
    requires Distinct(l) && capacity >= 1
    ensures LastN(Minus(l, x) + [x], capacity) == Push(LastN(l, capacity), x, capacity)
  {
    if x in l {
      var i :| 0 <= i < |l| && l[i] == x;
      MinusIsCut(l, i);
      BoundedMove(l, i, capacity);
    } else {
      MinusAbsent(l, x);
      BoundedAppend(l, x, capacity);
    }
  }

  lemma BoundedAppend(l: seq<Name>, x: Name, capacity: nat)
    requires x !in l && capacity >= 1
    ensures LastN(l + [x], capacity) == Push(LastN(l, capacity), x, capacity)
  {
    var bounded := LastN(l, capacity);
    assert x !in bounded;
    if |l| >= capacity {
      assert (l + [x])[|l| + 1 - capacity..] == bounded[1..] + [x];
    }
  }

  lemma BoundedMove(l: seq<Name>, i: nat, capacity: nat)
    requires Distinct(l) && i < |l| && capacity >= 1
    ensures LastN(Cut(l, i) + [l[i]], capacity) == Push(LastN(l, capacity), l[i], capacity)
  {
    var drop := if |l| <= capacity then 0 else |l| - capacity;
    if drop <= i {
      MoveWithin(l, i, drop);
    } else {
      MoveBefore(l, i, drop);
    }
  }

  lemma MoveWithin(l: seq<Name>, i: nat, drop: nat)
    requires Distinct(l) && drop <= i < |l|
    ensures l[i] in l[drop..]
    ensures (Cut(l, i) + [l[i]])[drop..] == Minus(l[drop..], l[i]) + [l[i]]
  {
    assert l[drop..][i - drop] == l[i];
    DistinctSuffix(l, drop);
    MinusIsCut(l[drop..], i - drop);
    assert Cut(l, i)[drop..] == Cut(l[drop..], i - drop);
  }

  lemma MoveBefore(l: seq<Name>, i: nat, drop: nat)
    requires Distinct(l) && i < drop < |l|
    ensures l[i] !in l[drop..]
    ensures (Cut(l, i) + [l[i]])[drop..] == l[drop..][1..] + [l[i]]
  {}

  lemma DistinctSuffix(l: seq<Name>, n: nat)
    requires Distinct(l) && n <= |l|
    ensures Distinct(l[n..])
  {}

  // ----- The cache follows the reference -----

  /** No row is indexed beyond `top`. */
  ghost predicate UpTo(rows: seq<Row>, top: uint32) {
    forall i | 0 <= i < |rows| :: rows[i].index <= top
  }

  lemma UpToCut(rows: seq<Row>, i: nat, top: uint32)
    requires UpTo(rows, top) && i < |rows|
    ensures UpTo(Cut(rows, i), top)
  {}

  /** With the clock as index a new row goes to the end, even if its index ties with others. */
  lemma AppendsName(s: CacheState, name: Name, e: Entry, top: uint32)
    requires Consistent(s) && name !in s.cache && UpTo(s.rows, top)
    ensures Names(Inserted(s, name, e, top).rows) == Names(s.rows) + [name]
  {}

  lemma CutAppendsName(s: CacheState, i: nat, name: Name, e: Entry, top: uint32)
    requires Consistent(s) && i < |s.rows| && UpTo(s.rows, top)
    requires name in s.cache ==> name == s.rows[i].name
    ensures Names(Inserted(RemoveAt(s, i), name, e, top).rows) == Cut(Names(s.rows), i) + [name]
  {
    RemoveAtConsistent(s, i);
    UpToCut(s.rows, i, top);
    AppendsName(RemoveAt(s, i), name, e, top);
    NamesOfCut(s.rows, i);
  }

  lemma MovesName(s: CacheState, name: Name, e: Entry, top: uint32)
    requires Consistent(s) && name in s.cache && UpTo(s.rows, top)
    ensures Names(Inserted(RemoveName(s, name), name, e, top).rows) == Minus(Names(s.rows), name) + [name]
  {
    var i := RowOf(s, name);
    CutAppendsName(s, i, name, e, top);
    MinusIsCut(Names(s.rows), i);
  }

  lemma ReplacesFront(s: CacheState, name: Name, e: Entry, top: uint32)
    requires Consistent(s) && name !in s.cache && s.rows != [] && UpTo(s.rows, top)
    ensures Names(Inserted(RemoveAt(s, 0), name, e, top).rows) == Names(s.rows)[1..] + [name]
  {
    CutAppendsName(s, 0, name, e, top);
    assert Cut(Names(s.rows), 0) == Names(s.rows)[1..];
  }

  /** The three ways a recency cache takes a name in. */
  lemma SetForms(s: CacheState, name: Name, data: Bytes, ttl: uint8, now: uint64)
    requires !s.policy.Selective() && (|s.cache| >= s.capacity ==> s.rows != [])
    ensures var e, t := NewEntry(s.policy, data, ttl, now), SetEntry(s, name, data, ttl, now).state;
            if name in s.cache then t == Inserted(RemoveName(s, name), name, e, Stamp(now))
            else if |s.cache| < s.capacity then t == Inserted(s, name, e, Stamp(now))
            else t == Inserted(RemoveAt(s, 0), name, e, Stamp(now))
  {}

  lemma Pushes(s: CacheState, name: Name, e: Entry, top: uint32)
    requires Consistent(s) && s.capacity >= 1 && UpTo(s.rows, top)
    ensures |s.rows| == |s.cache|
    ensures var t := if name in s.cache then Inserted(RemoveName(s, name), name, e, top)
                     else if |s.cache| < s.capacity then Inserted(s, name, e, top)
                     else Inserted(RemoveAt(s, 0), name, e, top);
            Names(t.rows) == Push(Names(s.rows), name, s.capacity)
  {
    RowsCountEntries(s);
    if name in s.cache {
      MovesName(s, name, e, top);
    } else if |s.cache| < s.capacity {
      AppendsName(s, name, e, top);
    } else {
      ReplacesFront(s, name, e, top);
    }
  }

  /** SetEntry on a recency cache: a known name moves to the end, a new one goes there, and if the
      cache is full the front leaves. */
  lemma SetPushes(s: CacheState, name: Name, data: Bytes, ttl: uint8, now: uint64)
    requires Consistent(s) && s.capacity >= 1 && !s.policy.Selective() && UpTo(s.rows, Stamp(now))
    ensures Names(SetEntry(s, name, data, ttl, now).state.rows) == Push(Names(s.rows), name, s.capacity)
  {
    Pushes(s, name, NewEntry(s.policy, data, ttl, now), Stamp(now));
    SetForms(s, name, data, ttl, now);
  }

  /** Find on a recency cache: a hit moves the name to the end for LRU, and nothing for FIFO. */
  lemma TouchMoves(s: CacheState, name: Name, now: uint64)
    requires Consistent(s) && name in s.cache && !s.policy.Selective() && UpTo(s.rows, Stamp(now))
    ensures Names(Touched(s, name, now).rows) ==
            if s.policy.Fifo? then Names(s.rows) else Minus(Names(s.rows), name) + [name]
  {
    if s.policy.Lru? {
      MovesName(s, name, Bumped(s.policy, s.cache[name], now), Stamp(now));
    }
  }

  lemma RowsNotAhead(policy: Policy, capacity: uint32, freshness: uint64, ops: seq<Op>, now: uint64)
    requires !policy.Selective() && Legal(Empty(policy, capacity, freshness), ops)
    requires ops != [] ==> ops[|ops| - 1].at <= now
    ensures UpTo(Run(Empty(policy, capacity, freshness), ops).rows, Stamp(now))
  {
    var s0 := Empty(policy, capacity, freshness);
    var s := Run(s0, ops);
    RunReaches(policy, capacity, freshness, ops);
    forall i | 0 <= i < |s.rows|
      ensures s.rows[i].index <= Stamp(now)
    {
      assert AgreesAt(s, i);
      var n := s.rows[i].name;
      assert LastEntry(policy, ops, n) == Some(s.cache[n]);
      EntryNotFromFuture(s0, policy, ops, n);
      StampMonotone(s.cache[n].timestamp, now);
    }
  }

  /** After any legal run the rows of an LRU cache name the last `capacity` distinct names stored or
      looked up, those of a FIFO cache the last ones stored; the oldest is first and goes next. */
  lemma {:induction false} RowsAreRecency(policy: Policy, capacity: uint32, freshness: uint64, ops: seq<Op>)
    requires !policy.Selective() && capacity >= 1
    requires Legal(Empty(policy, capacity, freshness), ops)
    ensures var s := Run(Empty(policy, capacity, freshness), ops);
            && s.policy == policy && s.capacity == capacity
            && Names(s.rows) == LastN(Recency(Touches(policy, ops)), capacity)
  {
    if ops != [] {
      var front, last := ops[..|ops| - 1], ops[|ops| - 1];
      RowsAreRecency(policy, capacity, freshness, front);
      NextRecency(policy, capacity, freshness, ops);
    }
  }

  lemma RecencyStep(trace: seq<Name>, x: Name)
    ensures Recency(trace + [x]) == Minus(Recency(trace), x) + [x]
  {}

  lemma NextRecency(policy: Policy, capacity: uint32, freshness: uint64, ops: seq<Op>)
    requires !policy.Selective() && capacity >= 1 && ops != []
    requires Legal(Empty(policy, capacity, freshness), ops)
    requires var s := Run(Empty(policy, capacity, freshness), ops[..|ops| - 1]);
             && s.policy == policy && s.capacity == capacity
             && Names(s.rows) == LastN(Recency(Touches(policy, ops[..|ops| - 1])), capacity)
    ensures var s := Run(Empty(policy, capacity, freshness), ops);
            && s.policy == policy && s.capacity == capacity
            && Names(s.rows) == LastN(Recency(Touches(policy, ops)), capacity)
  {
    var front, last := ops[..|ops| - 1], ops[|ops| - 1];
    var s := Run(Empty(policy, capacity, freshness), front);
    RunReaches(policy, capacity, freshness, front);
    RowsNotAhead(policy, capacity, freshness, front, last.at);
    ApplyPushes(s, last);
    var trace := Touches(policy, front);
    RecencyContents(trace);
    RecencyStep(trace, last.name);
    BoundedRecency(Recency(trace), last.name, capacity);
  }

  lemma ApplyPushes(s: CacheState, op: Op)
    requires Consistent(s) && s.capacity >= 1 && !s.policy.Selective() && UpTo(s.rows, Stamp(op.at))
    requires op.Hit? ==> op.name in s.cache
    ensures Apply(s, op).policy == s.policy && Apply(s, op).capacity == s.capacity
    ensures Names(Apply(s, op).rows) ==
            if op.Store? || s.policy.Lru? then Push(Names(s.rows), op.name, s.capacity) else Names(s.rows)
  {
    if op.Store? {
      SetEntries(s, op.name, op.data, op.ttl, op.at);
      SetPushes(s, op.name, op.data, op.ttl, op.at);
    } else {
      TouchMoves(s, op.name, op.at);
    }
  }

  lemma InLastN(l: seq<Name>, n: nat, x: Name)
    ensures x in LastN(l, n) <==> exists i :: 0 <= i < |l| && l[i] == x && |l| - i <= n
  {
    var kept := LastN(l, n);
    if x in kept {
      var k :| 0 <= k < |kept| && kept[k] == x;
      assert l[|l| - |kept| + k] == x;
    }
    if i :| 0 <= i < |l| && l[i] == x && |l| - i <= n {
      assert kept[|kept| - |l| + i] == x;
    }
  }

  // ----- How long a name stays -----

  /** The names touched after the last touch of `x`. */
  function TouchedSince(trace: seq<Name>, x: Name): set<Name>
    requires x in trace
  {
    set k | LastAt(trace, x) < k < |trace| :: trace[k]
  }

  lemma LastAtIsLast(trace: seq<Name>, x: Name, k: nat)
    requires x in trace && LastAt(trace, x) < k < |trace|
    ensures trace[k] != x
  {
    assert trace[LastAt(trace, x) + 1..][k - LastAt(trace, x) - 1] == trace[k];
  }

  /** The names behind a name in the reference list are those touched since. */
  lemma BehindIsSince(trace: seq<Name>, i: nat)
    requires i < |Recency(trace)|
    ensures Recency(trace)[i] in trace
    ensures |TouchedSince(trace, Recency(trace)[i])| == |Recency(trace)| - i - 1
  {
    RecencyContents(trace);
    var r, x := Recency(trace), Recency(trace)[i];
    assert x in r;
    var since, behind := TouchedSince(trace, x), r[i + 1..];
    DistinctSuffix(r, i + 1);
    forall y
      ensures y in since <==> y in behind
    {
      if y in since {
        var k :| LastAt(trace, x) < k < |trace| && trace[k] == y;
        SinceIsBehind(trace, i, k);
      }
      if y in behind {
        var j :| 0 <= j < |behind| && behind[j] == y;
        RecencyByLastTouch(trace, i, i + 1 + j);
      }
    }
    DistinctCount(behind, since);
  }

  lemma SinceIsBehind(trace: seq<Name>, i: nat, k: nat)
    requires i < |Recency(trace)| && Recency(trace)[i] in trace && LastAt(trace, Recency(trace)[i]) < k < |trace|
    ensures trace[k] in Recency(trace)[i + 1..]
  {
    var r, x, y := Recency(trace), Recency(trace)[i], trace[k];
    RecencyContents(trace);
    LastAtIsLast(trace, x, k);
    assert y in r;
    var j :| 0 <= j < |r| && r[j] == y;
    if j < i {
      RecencyByLastTouch(trace, j, i);
      LastAtIsLast(trace, y, k);
    }
    assert r[i + 1..][j - i - 1] == y;
  }

  lemma KeptByCount(trace: seq<Name>, n: nat, x: Name)
    ensures x in LastN(Recency(trace), n) <==> x in trace && |TouchedSince(trace, x)| < n
  {
    var r := Recency(trace);
    RecencyContents(trace);
    InLastN(r, n, x);
    if x in r {
      var i :| 0 <= i < |r| && r[i] == x;
      BehindIsSince(trace, i);
      assert forall j | 0 <= j < |r| && r[j] == x :: j == i;
    }
  }

  /** A name is in an LRU or FIFO cache exactly when it has been touched (stored, or for LRU looked up)
      and fewer than `capacity` other names have been touched since. */
  lemma CachedExactly(policy: Policy, capacity: uint32, freshness: uint64, ops: seq<Op>, name: Name)
    requires !policy.Selective() && capacity >= 1 && Legal(Empty(policy, capacity, freshness), ops)
    ensures name in Run(Empty(policy, capacity, freshness), ops).cache <==>
            name in Touches(policy, ops) && |TouchedSince(Touches(policy, ops), name)| < capacity
  {
    var s := Run(Empty(policy, capacity, freshness), ops);
    RowsAreRecency(policy, capacity, freshness, ops);
    assert name in s.cache <==> name in Names(s.rows) by {
      RunReaches(policy, capacity, freshness, ops);
    }
    KeptByCount(Touches(policy, ops), capacity, name);
  }
}
