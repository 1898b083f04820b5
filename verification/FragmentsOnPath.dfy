/** The fragments of a datagram over one link after another, each router splitting whatever does not
    fit the link it sends on. */
module FragmentsOnPath {
  import opened Basics
  import opened Ipv4Fragmentation

  predicate Fits(p: Packet, mtu: uint32) {
    HEADER_SIZE + |p.payload| <= mtu
  }

  /** What a router puts on a link for one packet: the packet itself if it fits, else its fragments. */
  function Transmitted(p: Packet, mtu: uint32): seq<Packet>
    requires mtu >= 28 && OriginalOffset(p.header) + |p.payload| < 0x1_0000
  {
    if Fits(p, mtu) then [p] else Split(p, FragmentSize(mtu), 0)
  }

  predicate Within(fs: seq<Packet>, size: nat) {
    forall i | 0 <= i < |fs| :: End(fs[i]) <= size
  }

  ghost predicate FitFrom(fs: seq<Packet>, mtu: uint32, n: nat) {
    forall i | n <= i < |fs| :: Fits(fs[i], mtu)
  }

  /** What the fragments from `n` on become on a link. */
  function Tail(fs: seq<Packet>, mtu: uint32, n: nat): seq<Packet>
    requires mtu >= 28 && n <= |fs| && Within(fs, 0xFFFF)
    decreases |fs| - n
  {
    if n == |fs| then [] else Transmitted(fs[n], mtu) + Tail(fs, mtu, n + 1)
  }

  /** The list when the fragments from `n` on have crossed a link. */
  function CrossedFrom(fs: seq<Packet>, mtu: uint32, n: nat): seq<Packet>
    requires mtu >= 28 && n <= |fs| && Within(fs, 0xFFFF)
  {
    fs[..n] + Tail(fs, mtu, n)
  }

  /** The fragments behind a link. */
  function Crossed(fs: seq<Packet>, mtu: uint32): seq<Packet>
    requires mtu >= 28 && Within(fs, 0xFFFF)
  {
    CrossedFrom(fs, mtu, 0)
  }

  /** The fragment last in the list keeps its place in the datagram: it need not be split, or is not
      the end of the datagram, or starts it. */
  predicate LastSurvives(fs: seq<Packet>, mtu: uint32) {
    fs != [] ==> var f := fs[|fs| - 1]; Fits(f, mtu) || f.header.more || f.header.offset == 0
  }

  lemma TransmittedPieces(p: Packet, mtu: uint32)
    requires mtu >= 28 && OriginalOffset(p.header) + |p.payload| < 0x1_0000
    ensures Fits(p, mtu) ==> Transmitted(p, mtu) == [p]
    ensures !Fits(p, mtu) ==> IsFragmentation(Transmitted(p, mtu), p, mtu)
  {
    if !Fits(p, mtu) {
      FragmentSizeFits(mtu);
      SplitMeetsContract(p, mtu);
    }
  }

  lemma TransmittedFits(p: Packet, mtu: uint32)
    requires mtu >= 28 && OriginalOffset(p.header) + |p.payload| < 0x1_0000
    ensures FitFrom(Transmitted(p, mtu), mtu, 0)
    ensures Within(Transmitted(p, mtu), if Fits(p, mtu) then End(p) else OriginalOffset(p.header) + |p.payload|)
    ensures Within(Transmitted(p, mtu), End(p))
  {
    TransmittedPieces(p, mtu);
    var sub := Transmitted(p, mtu);
    if !Fits(p, mtu) {
      FragmentsFitMtu(sub, p, mtu);
      forall i | 0 <= i < |sub|
        ensures End(sub[i]) <= OriginalOffset(p.header) + |p.payload| && Fits(sub[i], mtu)
      {
        assert IsPiece(sub[i], p.header, OriginalOffset(p.header), p.payload);
        assert sub[i] in sub;
      }
    }
  }

  lemma ReplacedByItself(fs: seq<Packet>, i: nat)
    requires i < |fs|
    ensures Replaced(fs, i, [fs[i]]) == fs
  {}

  // ----- One link -----

  /** One more fragment crosses. */
  lemma CrossedStep(fs: seq<Packet>, mtu: uint32, n: nat)
    requires mtu >= 28 && n < |fs| && Within(fs, 0xFFFF)
    ensures n < |CrossedFrom(fs, mtu, n + 1)| && CrossedFrom(fs, mtu, n + 1)[n] == fs[n]
    ensures CrossedFrom(fs, mtu, n) == Replaced(CrossedFrom(fs, mtu, n + 1), n, Transmitted(fs[n], mtu))
  {
    var rest := CrossedFrom(fs, mtu, n + 1);
    assert rest[..n] == fs[..n] && rest[n + 1..] == Tail(fs, mtu, n + 1);
  }

  lemma CrossedNotEmpty(fs: seq<Packet>, mtu: uint32)
    requires mtu >= 28 && Within(fs, 0xFFFF) && fs != []
    ensures Crossed(fs, mtu) != []
  {
    TransmittedPieces(fs[0], mtu);
  }

  lemma {:induction false} CrossedTiles(fs: seq<Packet>, mtu: uint32, n: nat, h: Header, base: nat, payload: Bytes,
                                        lastMore: bool)
    requires mtu >= 28 && n <= |fs| && Within(fs, 0xFFFF)
    requires Tiles(fs, h, base, payload, lastMore) && LastSurvives(fs, mtu)
    ensures Tiles(CrossedFrom(fs, mtu, n), h, base, payload, lastMore)
    decreases |fs| - n
  {
    if n == |fs| {
      assert CrossedFrom(fs, mtu, n) == fs;
    } else {
      CrossedTiles(fs, mtu, n + 1, h, base, payload, lastMore);
      CrossedStep(fs, mtu, n);
      var rest, sub := CrossedFrom(fs, mtu, n + 1), Transmitted(fs[n], mtu);
      TransmittedPieces(fs[n], mtu);
      if Fits(fs[n], mtu) {
        ReplacedByItself(rest, n);
      } else {
        Refragmented(rest, h, base, payload, lastMore, n, sub, mtu);
      }
    }
  }

  lemma {:induction false} CrossedAligned(fs: seq<Packet>, mtu: uint32, n: nat)
    requires mtu >= 28 && n <= |fs| && Within(fs, 0xFFFF) && Aligned(fs)
    ensures Aligned(CrossedFrom(fs, mtu, n))
    decreases |fs| - n
  {
    if n == |fs| {
      assert CrossedFrom(fs, mtu, n) == fs;
    } else {
      CrossedAligned(fs, mtu, n + 1);
      CrossedStep(fs, mtu, n);
      var rest, sub := CrossedFrom(fs, mtu, n + 1), Transmitted(fs[n], mtu);
      TransmittedPieces(fs[n], mtu);
      if Fits(fs[n], mtu) {
        ReplacedByItself(rest, n);
      } else {
        ReplacedAligned(rest, n, sub, mtu);
      }
    }
  }

  ghost predicate WithinFrom(fs: seq<Packet>, size: nat, n: nat) {
    forall i | n <= i < |fs| :: End(fs[i]) <= size
  }

  lemma {:induction false} CrossedWithin(fs: seq<Packet>, mtu: uint32, n: nat, size: nat)
    requires mtu >= 28 && n <= |fs| && Within(fs, 0xFFFF)
    requires forall i | n <= i < |fs| :: Within(Transmitted(fs[i], mtu), size)
    ensures FitFrom(CrossedFrom(fs, mtu, n), mtu, n)
    ensures WithinFrom(CrossedFrom(fs, mtu, n), size, n)
    decreases |fs| - n
  {
    if n < |fs| {
      CrossedWithin(fs, mtu, n + 1, size);
      CrossedStep(fs, mtu, n);
      TransmittedFits(fs[n], mtu);
      var rest, sub := CrossedFrom(fs, mtu, n + 1), Transmitted(fs[n], mtu);
      var all := Replaced(rest, n, sub);
      forall k | n <= k < |all|
        ensures End(all[k]) <= size && Fits(all[k], mtu)
      {
        ReplacedAt(rest, n, sub, k);
      }
    }
  }

  /** Behind the link all fits it, and nothing reaches further than before. */
  lemma CrossedFits(fs: seq<Packet>, mtu: uint32, size: nat)
    requires mtu >= 28 && Within(fs, size) && size < 0x1_0000
    ensures FitFrom(Crossed(fs, mtu), mtu, 0)
    ensures Within(Crossed(fs, mtu), size)
  {
    forall i | 0 <= i < |fs|
      ensures Within(Transmitted(fs[i], mtu), size)
    {
      TransmittedFits(fs[i], mtu);
    }
    CrossedWithin(fs, mtu, 0, size);
  }

  /** If the last fragment does not survive, nothing reaches the end any more. */
  lemma BrokenWithin(fs: seq<Packet>, mtu: uint32, h: Header, d: Bytes)
    requires mtu >= 28 && |d| < 0x1_0000 && Tiles(fs, h, 0, d, false) && Within(fs, 0xFFFF)
    requires !LastSurvives(fs, mtu)
    ensures d != [] && Within(Crossed(fs, mtu), |d| - 1)
  {
    var last := fs[|fs| - 1];
    assert IsPiece(last, h, 0, d);
    forall i | 0 <= i < |fs|
      ensures Within(Transmitted(fs[i], mtu), |d| - 1)
    {
      TransmittedFits(fs[i], mtu);
      if i < |fs| - 1 {
        TileOrder(fs, i, |fs| - 1);
      }
    }
    CrossedWithin(fs, mtu, 0, |d| - 1);
  }

  /** A link keeps the datagram complete exactly if its last fragment survives. */
  lemma CrossedExactly(fs: seq<Packet>, mtu: uint32, h: Header, d: Bytes)
    requires mtu >= 28 && |d| < 0x1_0000 && Within(fs, |d|) && Tiles(fs, h, 0, d, false)
    ensures Tiles(Crossed(fs, mtu), h, 0, d, false) <==> LastSurvives(fs, mtu)
  {
    if LastSurvives(fs, mtu) {
      CrossedTiles(fs, mtu, 0, h, 0, d, false);
    } else {
      BrokenWithin(fs, mtu, h, d);
      ShortDoesNotTile(Crossed(fs, mtu), h, d);
    }
  }

  // ----- Any number of links -----

  ghost predicate Links(mtus: seq<uint32>) {
    forall i | 0 <= i < |mtus| :: mtus[i] >= 28
  }

  /** The fragments behind a row of links. */
  ghost function Behind(fs: seq<Packet>, mtus: seq<uint32>): (gs: seq<Packet>)
    requires Links(mtus) && Within(fs, 0xFFFF)
    ensures Within(gs, 0xFFFF)
  {
    if mtus == [] then fs
    else
      var before, mtu := Behind(fs, mtus[..|mtus| - 1]), mtus[|mtus| - 1];
      CrossedFits(before, mtu, 0xFFFF);
      Crossed(before, mtu)
  }

  /** At every link the fragment that ends the datagram survives. */
  ghost predicate Intact(fs: seq<Packet>, mtus: seq<uint32>)
    requires Links(mtus) && Within(fs, 0xFFFF)
  {
    mtus != [] ==>
      var front := mtus[..|mtus| - 1];
      Intact(fs, front) && LastSurvives(Behind(fs, front), mtus[|mtus| - 1])
  }

  lemma TilesWithin(fs: seq<Packet>, h: Header, d: Bytes)
    requires Tiles(fs, h, 0, d, false)
    ensures Within(fs, |d|)
  {
    forall i | 0 <= i < |fs|
      ensures End(fs[i]) <= |d|
    {
      assert IsPiece(fs[i], h, 0, d);
    }
  }

  /** Behind any row of links the fragments start on 8-byte boundaries and fit the last link. They carry the
      datagram completely if its last fragment survived every link, and else none reaches its end. */
  lemma {:induction false} BehindExactly(fs: seq<Packet>, mtus: seq<uint32>, h: Header, d: Bytes)
    requires Links(mtus) && |d| < 0x1_0000 && Within(fs, |d|)
    requires Tiles(fs, h, 0, d, false) && Aligned(fs)
    ensures var gs := Behind(fs, mtus);
            && Aligned(gs) && Within(gs, |d|) && gs != []
            && (mtus != [] ==> FitFrom(gs, mtus[|mtus| - 1], 0))
            && (Tiles(gs, h, 0, d, false) <==> Intact(fs, mtus))
            && (!Intact(fs, mtus) ==> d != [] && Within(gs, |d| - 1))
  {
    if mtus != [] {
      var front, mtu := mtus[..|mtus| - 1], mtus[|mtus| - 1];
      BehindExactly(fs, front, h, d);
      var gs := Behind(fs, front);
      CrossedAligned(gs, mtu, 0);
      CrossedFits(gs, mtu, |d|);
      BehindOneMore(gs, mtu, h, d, Intact(fs, front));
    }
  }

  lemma BehindOneMore(gs: seq<Packet>, mtu: uint32, h: Header, d: Bytes, intact: bool)
    requires mtu >= 28 && |d| < 0x1_0000 && Within(gs, |d|) && gs != []
    requires Tiles(gs, h, 0, d, false) <==> intact
    requires !intact ==> d != [] && Within(gs, |d| - 1)
    ensures var all := Crossed(gs, mtu);
            && all != []
            && (Tiles(all, h, 0, d, false) <==> intact && LastSurvives(gs, mtu))
            && (!(intact && LastSurvives(gs, mtu)) ==> d != [] && Within(all, |d| - 1))
  {
    CrossedNotEmpty(gs, mtu);
    if intact {
      CrossedExactly(gs, mtu, h, d);
      if !LastSurvives(gs, mtu) {
        BrokenWithin(gs, mtu, h, d);
      }
    } else {
      CrossedFits(gs, mtu, |d| - 1);
      ShortDoesNotTile(Crossed(gs, mtu), h, d);
    }
  }

  lemma ShortDoesNotTile(fs: seq<Packet>, h: Header, d: Bytes)
    requires d != [] && Within(fs, |d| - 1)
    ensures !Tiles(fs, h, 0, d, false)
  {}

  lemma SentIsAligned(sent: seq<Packet>, original: Packet, mtu: uint32)
    requires !original.header.more && IsFragmentation(sent, original, mtu)
    ensures Aligned(sent) && Within(sent, |original.payload|)
  {
    forall i | 0 <= i < |sent|
      ensures sent[i].header.offset % 8 == 0
    {
      FragmentsAligned(sent, original, mtu, i);
    }
    TilesWithin(sent, original.header, original.payload);
  }
}
