/** The per-datagram reassembly buffer: an offset-sorted list of fragments. */
module Ipv4Reassembly {
  import opened Basics

  /** A received fragment: its offset, its bytes and its MF flag. */
  datatype Piece = Piece(offset: uint16, data: Bytes, more: bool)

  // ----- The buffer as a value -----

  /** Position of the first stored fragment that starts after `offset`. */
  function UpperBound(list: seq<Piece>, offset: uint16): (i: nat)
    ensures i <= |list|
    ensures forall j | 0 <= j < i :: list[j].offset <= offset
    ensures i < |list| ==> list[i].offset > offset
  {
    if list == [] || list[0].offset > offset then 0 else 1 + UpperBound(list[1..], offset)
  }

  function Insert(list: seq<Piece>, p: Piece): seq<Piece> {
    var i := UpperBound(list, p.offset);
    list[..i] + [p] + list[i..]
  }

  /** Where a fragment ends, in the 16 bits the code keeps of it. */
  function End16(p: Piece): uint16 {
    Low16(|p.data| + p.offset)
  }

  function MaxEnd(list: seq<Piece>): uint16 {
    if list == [] then 0 else Max(MaxEnd(list[..|list| - 1]), End16(list[|list| - 1]))
  }

  ghost predicate NoGap(list: seq<Piece>) {
    forall i | 0 <= i < |list| :: list[i].offset <= MaxEnd(list[..i])
  }

  ghost predicate Entire(list: seq<Piece>) {
    list != [] && !list[|list| - 1].more && NoGap(list)
  }

  /** The bytes `data` of a fragment at `offset` adds to the `p` assembled so far. */
  function Append(p: Bytes, offset: uint16, data: Bytes): Bytes {
    var lastEnd := Low16(|p|);
    if lastEnd > offset then
      var newStart := lastEnd - offset;
      if |data| > newStart then p + data[newStart..] else p
    else p + data
  }

  function Assemble(list: seq<Piece>): Bytes {
    if list == [] then []
    else
      var last := list[|list| - 1];
      Append(Assemble(list[..|list| - 1]), last.offset, last.data)
  }

  /** Like `Append`, but a gap is skipped, and the unguarded subtraction can wrap (None). */
  function AppendPartial(p: Bytes, offset: uint16, data: Bytes): Option<Bytes> {
    var lastEnd := Low16(|p|);
    if lastEnd > offset then
      var newStart := lastEnd - offset;
      if |data| < newStart then None else Some(p + data[newStart..])
    else if lastEnd == offset then Some(p + data)
    else Some(p)
  }

  function Partial(list: seq<Piece>): Option<Bytes> {
    if list == [] then Some([])
    else
      match Partial(list[..|list| - 1])
      case None => None
      case Some(p) => AppendPartial(p, list[|list| - 1].offset, list[|list| - 1].data)
  }

  lemma PrefixGrows(list: seq<Piece>, n: nat)
    requires n < |list| && NoGap(list[..n])
    ensures MaxEnd(list[..n + 1]) == Max(MaxEnd(list[..n]), End16(list[n]))
    ensures list[n].offset <= MaxEnd(list[..n]) ==> NoGap(list[..n + 1])
    ensures list[n].offset > MaxEnd(list[..n]) ==> !NoGap(list)
  {
    var longer := list[..n + 1];
    assert longer[..n] == list[..n];
    forall i | 0 <= i < n
      ensures longer[..i] == list[..n][..i] && longer[i] == list[..n][i]
    {
    }
  }

  // ----- The buffer as the code keeps it -----

  ghost predicate Stored(pieces: seq<Piece>, fragments: seq<(Bytes, uint16)>) {
    && |pieces| == |fragments|
    && forall i | 0 <= i < |pieces| :: fragments[i] == (pieces[i].data, pieces[i].offset)
  }

  lemma Inserted(pieces: seq<Piece>, fragments: seq<(Bytes, uint16)>, i: nat, p: Piece)
    requires Stored(pieces, fragments) && i == UpperBound(pieces, p.offset)
    ensures Stored(Insert(pieces, p), fragments[..i] + [(p.data, p.offset)] + fragments[i..])
    ensures Insert(pieces, p)[|pieces|] == if i == |pieces| then p else pieces[|pieces| - 1]
  {}

  class Fragments {
    var moreFragment: bool
    var fragments: seq<(Bytes, uint16)>
    ghost var pieces: seq<Piece>

    ghost predicate Valid()
      reads this
    {
      && Stored(pieces, fragments)
      && (pieces != [] ==> moreFragment == pieces[|pieces| - 1].more)
      && (pieces == [] ==> !moreFragment)
    }

    constructor ()
      ensures Valid() && pieces == []
    {
      moreFragment := false;
      fragments := [];
      pieces := [];
    }

    method AddFragment(fragment: Bytes, fragmentOffset: uint16, more: bool)
      requires Valid()
      modifies this
      ensures Valid() && pieces == Insert(old(pieces), Piece(fragmentOffset, fragment, more))
    {
      var it := 0;
      while it < |fragments|
        invariant 0 <= it <= |fragments|
        invariant forall j | 0 <= j < it :: pieces[j].offset <= fragmentOffset
      {
        if fragments[it].1 > fragmentOffset {
          break;
        }
        it := it + 1;
      }
      if it == |fragments| {
        moreFragment := more;
      }
      ghost var p := Piece(fragmentOffset, fragment, more);
      assert it == UpperBound(pieces, fragmentOffset);
      Inserted(pieces, fragments, it, p);
      fragments := fragments[..it] + [(fragment, fragmentOffset)] + fragments[it..];
      pieces := Insert(pieces, p);
    }

    method IsEntire() returns (ret: bool)
      requires Valid()
      ensures ret <==> Entire(pieces)
    {
      ret := !moreFragment && |fragments| > 0;
      if ret {
        var lastEndOffset: uint16 := 0;
        var it := 0;
        while it < |fragments|
          invariant 0 <= it <= |fragments|
          invariant lastEndOffset == MaxEnd(pieces[..it])
          invariant NoGap(pieces[..it])
        {
          var (data, offset) := fragments[it];
          PrefixGrows(pieces, it);
          if lastEndOffset < offset {
            return false;
          }
          var fragmentEnd: uint16 := Low16(|data| + offset);
          assert fragmentEnd == End16(pieces[it]);
          lastEndOffset := Max(lastEndOffset, fragmentEnd);
          it := it + 1;
        }
        assert pieces[..it] == pieces;
      }
    }

    method GetPacket() returns (p: Bytes)
      requires Valid() && pieces != []
      ensures p == Assemble(pieces)
    {
      p := fragments[0].0;
      var lastEndOffset: uint16 := Low16(|p|);
      var it := 1;
      assert pieces[..1][..0] == [];
      while it < |fragments|
        invariant 1 <= it <= |fragments|
        invariant lastEndOffset == Low16(|p|)
        invariant p == Assemble(pieces[..it])
      {
        var (data, offset) := fragments[it];
        if lastEndOffset > offset {
          var newStart := lastEndOffset - offset;
          if |data| > newStart {
            p := p + data[newStart..];
          }
        } else {
          p := p + data;
        }
        lastEndOffset := Low16(|p|);
        assert pieces[..it + 1][..it] == pieces[..it];
        it := it + 1;
      }
      assert pieces[..it] == pieces;
    }

    /** None stands for the wrapped size: the part asked for is then longer than the fragment. */
    method GetPartialPacket() returns (r: Option<Bytes>)
      requires Valid() && pieces != []
      ensures r == if pieces[0].offset > 0 then Some([]) else Partial(pieces)
    {
      var p := [];
      var lastEndOffset: uint16 := 0;
      if fragments[0].1 > 0 {
        return Some(p);
      }
      var it := 0;
      while it < |fragments|
        invariant 0 <= it <= |fragments|
        invariant lastEndOffset == Low16(|p|)
        invariant Partial(pieces[..it]) == Some(p)
      {
        var (data, offset) := fragments[it];
        assert pieces[..it + 1][..it] == pieces[..it];
        if lastEndOffset > offset {
          var newStart := lastEndOffset - offset;
          if |data| < newStart {
            PartialStaysNone(pieces, it + 1);
            return None;
          }
          p := p + data[newStart..];
        } else if lastEndOffset == offset {
          p := p + data;
        }
        lastEndOffset := Low16(|p|);
        it := it + 1;
      }
      assert pieces[..it] == pieces;
      return Some(p);
    }
  }

  lemma {:induction false} PartialStaysNone(list: seq<Piece>, n: nat)
    requires n <= |list| && Partial(list[..n]) == None
    ensures Partial(list) == None
    decreases |list|
  {
    if n < |list| {
      var front := list[..|list| - 1];
      assert front[..n] == list[..n];
      PartialStaysNone(front, n);
    } else {
      assert list[..n] == list;
    }
  }
}
