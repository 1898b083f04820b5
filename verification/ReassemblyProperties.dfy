/** What the reassembly buffer yields when its fragments are true slices of one datagram, whatever
    their order, overlaps and duplicates. */
module ReassemblyProperties {
  import opened Basics
  import opened Ipv4Reassembly

  // ----- Vocabulary -----

  function End(p: Piece): nat {
    p.offset + |p.data|
  }

  /** `p` carries bytes of `d`, and has MF clear exactly when it carries the last one. */
  ghost predicate IsSliceOf(p: Piece, d: Bytes) {
    && End(p) <= |d|
    && p.data == d[p.offset..End(p)]
    && (p.more <==> End(p) < |d|)
  }

  ghost predicate TrueSlices(list: seq<Piece>, d: Bytes) {
    && |d| < 0x1_0000
    && forall i {:trigger IsSliceOf(list[i], d)} | 0 <= i < |list| :: IsSliceOf(list[i], d)
  }

  ghost predicate Sorted(list: seq<Piece>) {
    forall i, j | 0 <= i < j < |list| :: list[i].offset <= list[j].offset
  }

  /** Some stored fragment holds byte `k`. */
  ghost predicate Covered(list: seq<Piece>, k: nat) {
    exists i :: 0 <= i < |list| && list[i].offset <= k < End(list[i])
  }

  // ----- Insertion -----

  lemma InsertAt(list: seq<Piece>, p: Piece, k: nat)
    requires k <= |list|
    ensures var i := UpperBound(list, p.offset);
            |Insert(list, p)| == |list| + 1
            && Insert(list, p)[k] == if k < i then list[k] else if k == i then p else list[k - 1]
  {}

  lemma InsertSorted(list: seq<Piece>, p: Piece)
    requires Sorted(list)
    ensures Sorted(Insert(list, p))
  {
    forall i, j | 0 <= i < j < |Insert(list, p)|
      ensures Insert(list, p)[i].offset <= Insert(list, p)[j].offset
    {
      InsertAt(list, p, i);
      InsertAt(list, p, j);
    }
  }

  lemma InsertContents(list: seq<Piece>, p: Piece)
    ensures multiset(Insert(list, p)) == multiset(list) + multiset{p}
  {
    var i := UpperBound(list, p.offset);
    assert list == list[..i] + list[i..];
  }

  /** The last fragment in list order: the newest of those with the highest offset. */
  lemma InsertLast(list: seq<Piece>, p: Piece)
    requires Sorted(list)
    ensures Insert(list, p)[|list|] ==
            if list == [] || list[|list| - 1].offset <= p.offset then p else list[|list| - 1]
  {
    InsertAt(list, p, |list|);
  }

  // ----- The running maximum of the ends -----

  lemma {:induction false} MaxEndBounds(list: seq<Piece>, d: Bytes, i: nat)
    requires TrueSlices(list, d) && i < |list|
    ensures End(list[i]) <= MaxEnd(list)
  {
    var front := list[..|list| - 1];
    assert IsSliceOf(list[i], d);
    if i < |front| {
      FrontSlices(list, d);
      MaxEndBounds(front, d, i);
    }
  }

  lemma {:induction false} MaxEndWithin(list: seq<Piece>, d: Bytes)
    requires TrueSlices(list, d)
    ensures MaxEnd(list) <= |d|
  {
    if list != [] {
      FrontSlices(list, d);
      MaxEndWithin(list[..|list| - 1], d);
    }
  }

  lemma FrontSlices(list: seq<Piece>, d: Bytes)
    requires TrueSlices(list, d) && list != []
    ensures TrueSlices(list[..|list| - 1], d)
    ensures IsSliceOf(list[|list| - 1], d)
    ensures End16(list[|list| - 1]) == End(list[|list| - 1])
  {
    var front := list[..|list| - 1];
    forall i | 0 <= i < |front|
      ensures IsSliceOf(front[i], d)
    {
      assert IsSliceOf(list[i], d);
    }
    assert IsSliceOf(list[|list| - 1], d);
  }

  lemma FrontNoGap(list: seq<Piece>)
    requires NoGap(list) && list != []
    ensures NoGap(list[..|list| - 1])
    ensures list[|list| - 1].offset <= MaxEnd(list[..|list| - 1])
  {
    var front := list[..|list| - 1];
    forall i | 0 <= i < |front|
      ensures front[i].offset <= MaxEnd(front[..i])
    {
      assert front[..i] == list[..i];
    }
  }

  lemma {:induction false} CoveredBelowMaxEnd(list: seq<Piece>, d: Bytes, k: nat)
    requires TrueSlices(list, d) && NoGap(list) && k < MaxEnd(list)
    ensures Covered(list, k)
  {
    var front, last := list[..|list| - 1], list[|list| - 1];
    FrontSlices(list, d);
    FrontNoGap(list);
    if k < MaxEnd(front) {
      CoveredBelowMaxEnd(front, d, k);
      var i :| 0 <= i < |front| && front[i].offset <= k < End(front[i]);
      assert list[i] == front[i];
    } else {
      assert last.offset <= k < End(last);
    }
  }

  // ----- Completion and its soundness -----

  lemma {:induction false} AssemblesPrefix(list: seq<Piece>, d: Bytes)
    requires TrueSlices(list, d) && NoGap(list)
    ensures MaxEnd(list) <= |d| && Assemble(list) == d[..MaxEnd(list)]
  {
    MaxEndWithin(list, d);
    if list != [] {
      var front, last := list[..|list| - 1], list[|list| - 1];
      FrontSlices(list, d);
      FrontNoGap(list);
      AssemblesPrefix(front, d);
      MaxEndWithin(front, d);
      AppendSlice(d, MaxEnd(front), last);
    }
  }

  /** Appending a slice that starts inside or right after a prefix extends the prefix. */
  lemma AppendSlice(d: Bytes, n: nat, p: Piece)
    requires n <= |d| < 0x1_0000 && IsSliceOf(p, d) && p.offset <= n
    ensures Append(d[..n], p.offset, p.data) == d[..Max(n, End(p))]
  {
    if n < End(p) {
      assert p.data[n - p.offset..] == d[n..End(p)];
      assert d[..n] + d[n..End(p)] == d[..End(p)];
    }
  }

  /** A buffer that says it is complete rebuilds the datagram, whatever overlaps it holds. */
  lemma EntireRebuilds(list: seq<Piece>, d: Bytes)
    requires TrueSlices(list, d) && Entire(list)
    ensures Assemble(list) == d
  {
    AssemblesPrefix(list, d);
    FrontSlices(list, d);
    MaxEndBounds(list, d, |list| - 1);
    MaxEndWithin(list, d);
  }

  /** When a sorted buffer says it is complete: every byte has arrived and the fragment last in
      list order reaches the end. */
  lemma EntireExactly(list: seq<Piece>, d: Bytes)
    requires TrueSlices(list, d) && Sorted(list)
    ensures Entire(list) <==> && list != [] && End(list[|list| - 1]) == |d|
                              && forall k | 0 <= k < |d| :: Covered(list, k)
  {
    if list != [] {
      FrontSlices(list, d);
      if Entire(list) {
        MaxEndBounds(list, d, |list| - 1);
        forall k | 0 <= k < |d|
          ensures Covered(list, k)
        {
          CoveredBelowMaxEnd(list, d, k);
        }
      } else if forall k | 0 <= k < |d| :: Covered(list, k) {
        if End(list[|list| - 1]) == |d| {
          CoveredHasNoGap(list, d);
        }
      }
    }
  }

  lemma CoveredHasNoGap(list: seq<Piece>, d: Bytes)
    requires TrueSlices(list, d) && Sorted(list)
    requires forall k | 0 <= k < |d| :: Covered(list, k)
    ensures NoGap(list)
  {
    forall i | 0 <= i < |list|
      ensures list[i].offset <= MaxEnd(list[..i])
    {
      var k := MaxEnd(list[..i]);
      if k < list[i].offset {
        assert IsSliceOf(list[i], d);
        assert Covered(list, k);
        var j :| 0 <= j < |list| && list[j].offset <= k < End(list[j]);
        PrefixSlices(list, d, i);
        MaxEndBounds(list[..i], d, j);
      }
    }
  }

  lemma PrefixSlices(list: seq<Piece>, d: Bytes, n: nat)
    requires TrueSlices(list, d) && n <= |list|
    ensures TrueSlices(list[..n], d)
  {
    forall i | 0 <= i < n
      ensures IsSliceOf(list[..n][i], d)
    {
      assert IsSliceOf(list[i], d);
    }
  }

  // ----- The partial packet -----

  /** How far the fragments reach from byte 0 without a gap. */
  function Reach(list: seq<Piece>): nat {
    if list == [] then 0
    else
      var r, last := Reach(list[..|list| - 1]), list[|list| - 1];
      if last.offset <= r then Max(r, End(last)) else r
  }

  /** Some fragment before the first gap ends before an earlier one does. */
  ghost predicate EndsEarly(list: seq<Piece>) {
    exists i :: 0 <= i < |list| && list[i].offset <= Reach(list[..i]) && End(list[i]) < Reach(list[..i])
  }

  lemma {:induction false} ReachWithin(list: seq<Piece>, d: Bytes)
    requires TrueSlices(list, d)
    ensures Reach(list) <= |d|
  {
    if list != [] {
      FrontSlices(list, d);
      ReachWithin(list[..|list| - 1], d);
    }
  }

  lemma FrontEndsEarly(list: seq<Piece>)
    requires list != []
    ensures var front, last := list[..|list| - 1], list[|list| - 1];
            EndsEarly(list) <==> EndsEarly(front) || (last.offset <= Reach(front) && End(last) < Reach(front))
  {
    var front := list[..|list| - 1];
    if EndsEarly(front) {
      var i :| 0 <= i < |front| && front[i].offset <= Reach(front[..i]) && End(front[i]) < Reach(front[..i]);
      assert list[..i] == front[..i] && list[i] == front[i];
    }
    if EndsEarly(list) {
      var i :| 0 <= i < |list| && list[i].offset <= Reach(list[..i]) && End(list[i]) < Reach(list[..i]);
      if i < |front| {
        assert list[..i] == front[..i] && list[i] == front[i];
      }
    }
  }

  /** The partial packet is well defined exactly when no fragment before the first gap ends early,
      and then it is what has arrived up to the first gap. */
  lemma {:induction false} PartialExactly(list: seq<Piece>, d: Bytes)
    requires TrueSlices(list, d)
    ensures Reach(list) <= |d|
    ensures Partial(list) == if EndsEarly(list) then None else Some(d[..Reach(list)])
  {
    ReachWithin(list, d);
    if list != [] {
      var front, last := list[..|list| - 1], list[|list| - 1];
      FrontSlices(list, d);
      PartialExactly(front, d);
      FrontEndsEarly(list);
      AppendPartialSlice(d, Reach(front), last);
    }
  }

  lemma AppendPartialSlice(d: Bytes, n: nat, p: Piece)
    requires n <= |d| < 0x1_0000 && IsSliceOf(p, d)
    ensures AppendPartial(d[..n], p.offset, p.data) ==
            if p.offset > n then Some(d[..n]) else if End(p) < n then None else Some(d[..End(p)])
  {
    if p.offset <= n <= End(p) {
      assert p.data[n - p.offset..] == d[n..End(p)];
      assert d[..n] + d[n..End(p)] == d[..End(p)];
    }
  }

  lemma {:induction false} CoveredBelowReach(list: seq<Piece>, k: nat)
    requires k < Reach(list)
    ensures Covered(list, k)
  {
    var front, last := list[..|list| - 1], list[|list| - 1];
    if k < Reach(front) {
      CoveredBelowReach(front, k);
      var i :| 0 <= i < |front| && front[i].offset <= k < End(front[i]);
      assert list[i] == front[i];
    } else {
      assert last.offset <= k < End(last);
    }
  }

  lemma {:induction false} UncoveredAtReach(list: seq<Piece>, i: nat)
    requires Sorted(list) && i < |list|
    ensures End(list[i]) <= Reach(list) || Reach(list) < list[i].offset
  {
    var front, last := list[..|list| - 1], list[|list| - 1];
    if i < |front| {
      UncoveredAtReach(front, i);
      assert front[i] == list[i];
    }
  }

  /** It can wrap: here a fragment has arrived that lies well inside an earlier one. */
  lemma PartialCanWrap(d: Bytes)
    requires |d| == 32
    ensures var first, inner := Piece(0, d[..24], true), Piece(8, d[8..16], true);
            && Insert(Insert([], first), inner) == [first, inner]
            && TrueSlices([first, inner], d)
            && Partial([first, inner]) == None
  {
    var first, inner := Piece(0, d[..24], true), Piece(8, d[8..16], true);
    assert UpperBound([], 0) == 0 && UpperBound([first], 8) == 1;
    assert Insert([], first) == [first];
    assert [first, inner][..1] == [first] && [first][..0] == [];
    assert Partial([]) == Some([]) && [] + d[..24] == d[..24];
    assert Partial([first]) == Some(d[..24]);
  }

  /** The timeout path: what `GetPartialPacket` gives for a sorted buffer is the longest prefix of
      the datagram that has arrived completely, and all of it when the buffer is complete. */
  lemma PartialIsLongestPrefix(list: seq<Piece>, d: Bytes)
    requires TrueSlices(list, d) && Sorted(list) && list != []
    ensures Reach(list) <= |d|
    ensures (if list[0].offset > 0 then Some([]) else Partial(list)) ==
            if EndsEarly(list) then None else Some(d[..Reach(list)])
    ensures forall k | 0 <= k < Reach(list) :: Covered(list, k)
    ensures !Covered(list, Reach(list))
    ensures Entire(list) ==> Reach(list) == |d|
  {
    PartialExactly(list, d);
    ReachWithin(list, d);
    forall k | 0 <= k < Reach(list)
      ensures Covered(list, k)
    {
      CoveredBelowReach(list, k);
    }
    if Covered(list, Reach(list)) {
      var i :| 0 <= i < |list| && list[i].offset <= Reach(list) < End(list[i]);
      UncoveredAtReach(list, i);
    }
    if list[0].offset > 0 {
      ReachNothing(list);
    }
    EntireExactly(list, d);
  }

  lemma {:induction false} ReachNothing(list: seq<Piece>)
    requires Sorted(list) && list != [] && list[0].offset > 0
    ensures Reach(list) == 0 && !EndsEarly(list)
  {
    FrontEndsEarly(list);
    if |list| > 1 {
      ReachNothing(list[..|list| - 1]);
    }
  }

  /** Ends that never decrease in list order are enough. */
  lemma {:induction false} MonotoneEndsAreEnough(list: seq<Piece>)
    requires forall i, j | 0 <= i < j < |list| :: End(list[i]) <= End(list[j])
    ensures !EndsEarly(list)
    ensures list != [] ==> Reach(list) <= End(list[|list| - 1])
  {
    if list != [] {
      FrontEndsEarly(list);
      MonotoneEndsAreEnough(list[..|list| - 1]);
    }
  }
}
