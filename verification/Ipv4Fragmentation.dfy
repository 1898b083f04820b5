/** The splitter of the router's IPv4 layer and what splitting a fragment again does. */
module Ipv4Fragmentation {
  import opened Basics

  /** The header fields the fragmentation code reads, copies or rewrites. */
  datatype Header = Header(id: DatagramId, ttl: uint8, offset: uint16, more: bool, payloadSize: uint16)

  /** The fields that tell whose fragment a fragment is (section 3.2 of RFC 791). */
  datatype DatagramId = DatagramId(source: uint32, destination: uint32, protocol: uint8, identification: uint16)

  datatype Packet = Packet(header: Header, payload: Bytes)

  const HEADER_SIZE := 20

  /** Room for payload in one fragment: unsigned 32-bit subtraction, rounded down to 8 bytes. */
  function FragmentSize(mtu: uint32): uint32 {
    var room := Low32(mtu - HEADER_SIZE);
    room - room % 8
  }

  /** The offset carried over from the packet being split: remembered only when MF is set. */
  function OriginalOffset(h: Header): nat {
    if h.more then h.offset else 0
  }

  /** One turn of the splitting loop: the size of the next part and whether another follows. */
  function NextPart(size: nat, offset: nat, fragmentSize: nat): (int, bool) {
    if size > offset + fragmentSize then (fragmentSize, true) else (size - offset, false)
  }

  method DoFragmentation(packet: Packet, mtu: uint32) returns (listFragments: seq<Packet>)
    requires OriginalOffset(packet.header) + |packet.payload| < 0x1_0000
    requires packet.payload == [] || FragmentSize(mtu) > 0
    ensures IsFragmentation(listFragments, packet, mtu)
  {
    var h := packet.header;
    var p := packet.payload;
    var offset: uint16 := 0;
    var moreFragment := true;
    var originalOffset: uint16 := 0;
    var alreadyFragmented := false;
    if h.more {
      alreadyFragmented := true;
      originalOffset := h.offset;
    }
    var fragmentSize := FragmentSize(mtu);
    listFragments := [];
    while moreFragment
      invariant offset <= |p|
      invariant moreFragment ==>
                  listFragments + Split(packet, fragmentSize, offset) == Split(packet, fragmentSize, 0)
      invariant !moreFragment ==> listFragments == Split(packet, fragmentSize, 0)
      decreases moreFragment, |p| - offset
    {
      SplitStep(packet, fragmentSize, offset, listFragments);
      var part := NextPart(|p|, offset, fragmentSize);
      var fragment := MakeFragment(h, p, offset, part, originalOffset, alreadyFragmented);
      listFragments := listFragments + [fragment];
      moreFragment := part.1;
      offset := Low16(offset + part.0);
    }
    SplitMeetsContract(packet, mtu);
  }

  /** What one turn of the loop takes from the list still to come. */
  lemma SplitStep(packet: Packet, size: nat, offset: uint16, done: seq<Packet>)
    requires OriginalOffset(packet.header) + |packet.payload| < 0x1_0000
    requires offset <= |packet.payload|
    requires packet.payload == [] || size > 0
    ensures var h := packet.header;
            var part := NextPart(|packet.payload|, offset, size);
            var f := MakeFragment(h, packet.payload, offset, part, OriginalOffset(h), h.more);
            && 0 <= part.0 < 0x1_0000 && offset + part.0 <= |packet.payload| && (part.1 ==> part.0 > 0)
            && Low16(offset + part.0) == offset + part.0
            && done + Split(packet, size, offset) ==
               if part.1 then (done + [f]) + Split(packet, size, offset + part.0) else done + [f]
  {}

  /** The fragment built in one turn of the loop. */
  function MakeFragment(h: Header, p: Bytes, offset: uint16, part: (int, bool),
                        originalOffset: uint16, alreadyFragmented: bool): (f: Packet)
    requires 0 <= part.0 < 0x1_0000 && offset + part.0 <= |p|
  {
    Packet(h.(more := part.1 || alreadyFragmented,
              offset := Low16(offset + originalOffset),
              payloadSize := part.0),
           p[offset..offset + part.0])
  }

  /** The fragments of the bytes from `offset` on, front to back. */
  function Split(packet: Packet, size: nat, offset: uint16): seq<Packet>
    requires OriginalOffset(packet.header) + |packet.payload| < 0x1_0000
    requires offset <= |packet.payload|
    requires packet.payload == [] || size > 0
    decreases |packet.payload| - offset
  {
    var h := packet.header;
    var part := NextPart(|packet.payload|, offset, size);
    var f := MakeFragment(h, packet.payload, offset, part, OriginalOffset(h), h.more);
    if part.1 then [f] + Split(packet, size, offset + size) else [f]
  }

  // ----- What a splitting is -----

  function End(f: Packet): nat {
    f.header.offset + |f.payload|
  }

  /** `f` carries bytes of a datagram (or part of one) that starts at byte `base`. */
  ghost predicate IsSlice(f: Packet, base: nat, payload: Bytes) {
    && base <= f.header.offset
    && End(f) <= base + |payload|
    && f.payload == payload[f.header.offset - base..End(f) - base]
    && f.header.payloadSize == |f.payload|
  }

  /** Everything but offset, MF and size is copied from the packet that was split. */
  ghost predicate SameDatagram(g: Header, h: Header) {
    g.id == h.id && g.ttl == h.ttl
  }

  /** A fragment of the datagram with header `h`, empty only if there is nothing to carry. */
  ghost predicate IsPiece(f: Packet, h: Header, base: nat, payload: Bytes) {
    IsSlice(f, base, payload) && SameDatagram(f.header, h) && (payload == [] || f.payload != [])
  }

  /** Each fragment starts where the one before it ends. */
  ghost predicate Joined(fs: seq<Packet>) {
    forall i, j | 0 <= i && j == i + 1 && j < |fs| :: fs[j].header.offset == End(fs[i])
  }

  /** MF is set on all but the last, and on the last exactly when `lastMore`. */
  ghost predicate MarksLast(fs: seq<Packet>, lastMore: bool) {
    forall i | 0 <= i < |fs| :: fs[i].header.more <==> i < |fs| - 1 || lastMore
  }

  ghost predicate ArePieces(fs: seq<Packet>, h: Header, base: nat, payload: Bytes) {
    && (forall i {:trigger IsPiece(fs[i], h, base, payload)} | 0 <= i < |fs| :: IsPiece(fs[i], h, base, payload))
    && (payload == [] ==> |fs| == 1)
  }

  /** The fragments lie end to end from byte `at` of `payload` to its last byte. */
  ghost predicate TilesFrom(fs: seq<Packet>, h: Header, base: nat, payload: Bytes, at: nat, lastMore: bool) {
    && |fs| > 0
    && fs[0].header.offset == base + at
    && End(fs[|fs| - 1]) == base + |payload|
    && Joined(fs)
    && MarksLast(fs, lastMore)
    && ArePieces(fs, h, base, payload)
  }

  /** The fragments carry `payload`, which starts at byte `base` of its datagram, completely. */
  ghost predicate Tiles(fs: seq<Packet>, h: Header, base: nat, payload: Bytes, lastMore: bool) {
    TilesFrom(fs, h, base, payload, 0, lastMore)
  }

  /** Every fragment is full, except that the last may be shorter. */
  ghost predicate Fills(fs: seq<Packet>, size: nat) {
    && (forall i | 0 <= i < |fs| :: |fs[i].payload| <= size)
    && (forall i | 0 <= i < |fs| - 1 :: |fs[i].payload| == size)
  }

  ghost predicate IsFragmentation(fs: seq<Packet>, packet: Packet, mtu: uint32) {
    && Tiles(fs, packet.header, OriginalOffset(packet.header), packet.payload, packet.header.more)
    && Fills(fs, FragmentSize(mtu))
  }

  lemma SplitMeetsContract(packet: Packet, mtu: uint32)
    requires OriginalOffset(packet.header) + |packet.payload| < 0x1_0000
    requires packet.payload == [] || FragmentSize(mtu) > 0
    ensures IsFragmentation(Split(packet, FragmentSize(mtu), 0), packet, mtu)
  {
    SplitTiles(packet, FragmentSize(mtu), 0);
    SplitFills(packet, FragmentSize(mtu), 0);
  }

  lemma {:induction false} SplitTiles(packet: Packet, size: nat, offset: uint16)
    requires OriginalOffset(packet.header) + |packet.payload| < 0x1_0000
    requires if packet.payload == [] then offset == 0 else size > 0 && offset < |packet.payload|
    ensures TilesFrom(Split(packet, size, offset), packet.header, OriginalOffset(packet.header),
                      packet.payload, offset, packet.header.more)
    decreases |packet.payload| - offset
  {
    var f := Split(packet, size, offset)[0];
    FirstPart(packet, size, offset);
    var h, base := packet.header, OriginalOffset(packet.header);
    if f.payload != [] && offset + |f.payload| < |packet.payload| {
      SplitTiles(packet, size, offset + size);
      TilePrepended(f, Split(packet, size, offset + size), h, base, packet.payload, offset, offset + size, h.more);
    } else {
      SingleTile(f, h, base, packet.payload, offset, h.more);
    }
  }

  /** What one turn of the loop appends, seen from the packet being split. */
  lemma FirstPart(packet: Packet, size: nat, offset: uint16)
    requires OriginalOffset(packet.header) + |packet.payload| < 0x1_0000
    requires if packet.payload == [] then offset == 0 else size > 0 && offset < |packet.payload|
    ensures var fs, base := Split(packet, size, offset), OriginalOffset(packet.header);
            var rest := offset + |fs[0].payload| < |packet.payload|;
            && IsSlice(fs[0], base, packet.payload) && fs[0].header.offset == base + offset
            && SameDatagram(fs[0].header, packet.header)
            && fs[0].header.more == (rest || packet.header.more)
            && |fs[0].payload| <= size && (packet.payload != [] ==> fs[0].payload != [])
            && (if rest then |fs[0].payload| == size && fs == [fs[0]] + Split(packet, size, offset + size)
                else fs == [fs[0]])
  {}

  lemma {:induction false} SplitFills(packet: Packet, size: nat, offset: uint16)
    requires OriginalOffset(packet.header) + |packet.payload| < 0x1_0000
    requires if packet.payload == [] then offset == 0 else size > 0 && offset < |packet.payload|
    ensures Fills(Split(packet, size, offset), size)
    decreases |packet.payload| - offset
  {
    var f := Split(packet, size, offset)[0];
    FirstPart(packet, size, offset);
    if offset + |f.payload| < |packet.payload| {
      SplitFills(packet, size, offset + size);
      FillsPrepended(f, Split(packet, size, offset + size), size);
    }
  }

  lemma FillsPrepended(f: Packet, rest: seq<Packet>, size: nat)
    requires |f.payload| == size && Fills(rest, size)
    ensures Fills([f] + rest, size)
  {}

  lemma SingleTile(f: Packet, h: Header, base: nat, payload: Bytes, at: nat, lastMore: bool)
    requires payload == [] || f.payload != []
    requires IsSlice(f, base, payload) && f.header.offset == base + at && End(f) == base + |payload|
    requires f.header.more == lastMore && SameDatagram(f.header, h)
    ensures TilesFrom([f], h, base, payload, at, lastMore)
  {}

  lemma TilePrepended(f: Packet, rest: seq<Packet>, h: Header, base: nat, payload: Bytes, at: nat, next: nat,
                      lastMore: bool)
    requires next == at + |f.payload|
    requires f.payload != [] && IsSlice(f, base, payload) && f.header.offset == base + at
    requires f.header.more && SameDatagram(f.header, h)
    requires TilesFrom(rest, h, base, payload, next, lastMore)
    ensures TilesFrom([f] + rest, h, base, payload, at, lastMore)
  {}

  lemma {:induction false} TileOrder(fs: seq<Packet>, i: nat, j: nat)
    requires Joined(fs) && i < j < |fs|
    ensures End(fs[i]) <= fs[j].header.offset
  {
    var m := j - 1;
    assert fs[j].header.offset == End(fs[m]);
    if i < m {
      TileOrder(fs, i, m);
    }
  }

  lemma FragmentSizeFits(mtu: uint32)
    ensures FragmentSize(mtu) % 8 == 0
    ensures FragmentSize(mtu) == 0 <==> 20 <= mtu < 28
    ensures mtu >= 20 ==> HEADER_SIZE + FragmentSize(mtu) <= mtu
    ensures mtu < 20 ==> FragmentSize(mtu) >= 0x1_0000
  {}

  /** All fragments start on an 8-byte boundary of the packet that was split. */
  lemma {:induction false} FragmentsAligned(fs: seq<Packet>, packet: Packet, mtu: uint32, i: nat)
    requires IsFragmentation(fs, packet, mtu) && i < |fs|
    ensures (fs[i].header.offset - OriginalOffset(packet.header)) % 8 == 0
  {
    if i > 0 {
      FragmentsAligned(fs, packet, mtu, i - 1);
      FragmentSizeFits(mtu);
      assert fs[i].header.offset == End(fs[i - 1]);
    }
  }

  /** Every packet put on the link fits it. */
  lemma FragmentsFitMtu(fs: seq<Packet>, packet: Packet, mtu: uint32)
    requires IsFragmentation(fs, packet, mtu) && mtu >= 20
    ensures forall f | f in fs :: HEADER_SIZE + |f.payload| <= mtu
  {}

  lemma SplitTail(p: Packet, size: nat, offset: uint16, k: nat)
    requires OriginalOffset(p.header) + |p.payload| < 0x1_0000 && size > 0 && offset + size < |p.payload|
    requires 0 < k <= |Split(p, size, offset + size)|
    ensures |Split(p, size, offset)| == |Split(p, size, offset + size)| + 1
    ensures Split(p, size, offset)[k] == Split(p, size, offset + size)[k - 1]
  {}

  lemma SplitInTwo(h: Header, d: Bytes, size: nat)
    requires !h.more && 0 < size < |d| <= 2 * size && |d| < 0x1_0000
    ensures Split(Packet(h, d), size, 0) ==
            [Packet(h.(more := true, offset := 0, payloadSize := size), d[..size]),
             Packet(h.(offset := size, payloadSize := |d| - size), d[size..])]
  {
    var p := Packet(h, d);
    assert d[size..size + (|d| - size)] == d[size..];
    assert Split(p, size, size) == [MakeFragment(h, d, size, (|d| - size, false), 0, false)];
    assert Split(p, size, 0) == [MakeFragment(h, d, 0, (size, true), 0, false)] + Split(p, size, size);
  }

  /** The room is the largest multiple of 8 that fits. */
  lemma FragmentSizeLargest(mtu: uint32, n: nat)
    requires n % 8 == 0 && HEADER_SIZE + n <= mtu
    ensures n <= FragmentSize(mtu)
  {
    assert FragmentSize(mtu) == mtu - HEADER_SIZE - (mtu - HEADER_SIZE) % 8;
  }

  /** Every fragment but the last is as large as the link allows: 8 bytes more would not fit. */
  lemma FragmentsAreLarge(fs: seq<Packet>, packet: Packet, mtu: uint32, i: nat)
    requires IsFragmentation(fs, packet, mtu) && i + 1 < |fs|
    ensures mtu < HEADER_SIZE + |fs[i].payload| + 8
  {
    FragmentSizeFits(mtu);
  }

  // ----- When the loop ends -----

  /** The loop's state after `n` turns. */
  function AfterTurns(size: uint16, fragmentSize: nat, n: nat): (nat, bool) {
    if n == 0 then (0, true)
    else
      var (offset, more) := AfterTurns(size, fragmentSize, n - 1);
      if more && offset <= size then
        var part := NextPart(size, offset, fragmentSize);
        (offset + part.0, part.1)
      else (offset, more)
  }

  /** The splitter comes to an end exactly when the payload is empty or a fragment has room for
      8 bytes; with an MTU of 20 to 27 it would append empty fragments for ever. */
  lemma SplittingEnds(size: uint16, mtu: uint32)
    ensures (exists n :: !AfterTurns(size, FragmentSize(mtu), n).1) <==> size == 0 || !(20 <= mtu < 28)
  {
    FragmentSizeFits(mtu);
    if size == 0 {
      assert !AfterTurns(size, FragmentSize(mtu), 1).1;
    } else if 20 <= mtu < 28 {
      forall n
        ensures AfterTurns(size, FragmentSize(mtu), n).1
      {
        StuckAtZero(size, n);
      }
    } else {
      RunsOut(size, FragmentSize(mtu), size);
      assert !AfterTurns(size, FragmentSize(mtu), size).1;
    }
  }

  lemma {:induction false} StuckAtZero(size: uint16, n: nat)
    requires size > 0
    ensures AfterTurns(size, 0, n) == (0, true)
  {
    if n > 0 {
      StuckAtZero(size, n - 1);
    }
  }

  lemma {:induction false} RunsOut(size: uint16, fragmentSize: nat, n: nat)
    requires size > 0 && fragmentSize > 0
    ensures var (offset, more) := AfterTurns(size, fragmentSize, n);
            offset <= size && (more ==> n <= offset < size)
  {
    if n > 0 {
      RunsOut(size, fragmentSize, n - 1);
    }
  }

  // ----- The contract leaves no choice -----

  lemma {:induction false} SameStarts(fs: seq<Packet>, gs: seq<Packet>, packet: Packet, mtu: uint32, i: nat)
    requires IsFragmentation(fs, packet, mtu) && IsFragmentation(gs, packet, mtu)
    requires i < |fs| && i < |gs|
    ensures fs[i].header.offset == gs[i].header.offset
  {
    if i > 0 {
      SameStarts(fs, gs, packet, mtu, i - 1);
      assert fs[i].header.offset == End(fs[i - 1]) && gs[i].header.offset == End(gs[i - 1]);
    }
  }

  lemma StartsBelowEnd(fs: seq<Packet>, packet: Packet, mtu: uint32, i: nat)
    requires IsFragmentation(fs, packet, mtu) && i < |fs| && packet.payload != []
    ensures fs[i].header.offset < OriginalOffset(packet.header) + |packet.payload|
  {
    assert IsPiece(fs[i], packet.header, OriginalOffset(packet.header), packet.payload);
  }

  lemma NextStart(fs: seq<Packet>, packet: Packet, mtu: uint32, i: nat)
    requires IsFragmentation(fs, packet, mtu) && i + 1 < |fs|
    ensures fs[i + 1].header.offset == fs[i].header.offset + FragmentSize(mtu)
  {}

  lemma NotLonger(fs: seq<Packet>, gs: seq<Packet>, packet: Packet, mtu: uint32)
    requires IsFragmentation(fs, packet, mtu) && IsFragmentation(gs, packet, mtu)
    ensures |fs| >= |gs|
  {
    if packet.payload != [] && |fs| < |gs| {
      StartsBelowEnd(gs, packet, mtu, |fs|);
      SameStarts(fs, gs, packet, mtu, |fs| - 1);
      NextStart(gs, packet, mtu, |fs| - 1);
    }
  }

  /** Two outputs of the splitter for the same packet and MTU are the same list. */
  lemma FragmentationUnique(fs: seq<Packet>, gs: seq<Packet>, packet: Packet, mtu: uint32)
    requires IsFragmentation(fs, packet, mtu) && IsFragmentation(gs, packet, mtu)
    ensures fs == gs
  {
    NotLonger(fs, gs, packet, mtu);
    NotLonger(gs, fs, packet, mtu);
    forall i | 0 <= i < |fs|
      ensures fs[i] == gs[i]
    {
      SameStarts(fs, gs, packet, mtu, i);
      if i + 1 < |fs| {
        SameStarts(fs, gs, packet, mtu, i + 1);
      }
      SameStretch(fs[i], gs[i], OriginalOffset(packet.header), packet.payload, packet.header);
    }
  }

  lemma SameStretch(f: Packet, g: Packet, base: nat, payload: Bytes, h: Header)
    requires IsPiece(f, h, base, payload) && IsPiece(g, h, base, payload)
    requires f.header.offset == g.header.offset && End(f) == End(g) && f.header.more == g.header.more
    ensures f == g
  {
    SameSlice(f, g, base, payload);
    SamePacket(f, g);
  }

  lemma SameSlice(f: Packet, g: Packet, base: nat, payload: Bytes)
    requires IsSlice(f, base, payload) && IsSlice(g, base, payload)
    requires f.header.offset == g.header.offset && End(f) == End(g)
    ensures f.payload == g.payload && f.header.payloadSize == g.header.payloadSize
  {
    var x, y := f.header.offset - base, End(f) - base;
    assert f.payload == payload[x..y];
    assert g.payload == payload[x..y];
  }

  lemma SamePacket(f: Packet, g: Packet)
    requires SameDatagram(f.header, g.header) && f.payload == g.payload
    requires f.header.offset == g.header.offset && f.header.more == g.header.more
    requires f.header.payloadSize == g.header.payloadSize
    ensures f == g
  {
    assert f.header == g.header;
  }

  // ----- Splitting a fragment again -----

  lemma SliceOfSlice(s: Bytes, a: nat, b: nat, c: nat, d: nat)
    requires a <= b <= |s| && c <= d <= b - a
    ensures s[a..b][c..d] == s[a + c..a + d]
  {
    var inner, outer := s[a..b][c..d], s[a + c..a + d];
    assert |inner| == |outer|;
    assert forall k | 0 <= k < |inner| :: inner[k] == outer[k];
  }

  lemma PieceOfPiece(g: Packet, f: Packet, h: Header, base: nat, payload: Bytes)
    requires IsPiece(g, f.header, f.header.offset, f.payload) && IsPiece(f, h, base, payload)
    ensures IsPiece(g, h, base, payload)
  {
    SliceOfSlice(payload, f.header.offset - base, End(f) - base,
                 g.header.offset - f.header.offset, End(g) - f.header.offset);
  }

  /** The list in which fragment `i` has been replaced by the fragments it was split into. */
  function Replaced(fs: seq<Packet>, i: nat, sub: seq<Packet>): seq<Packet>
    requires i < |fs|
  {
    fs[..i] + sub + fs[i + 1..]
  }

  /** A router that splits fragment `i` again keeps the datagram intact exactly when that fragment
      has MF set or starts at offset 0: otherwise its offset is lost. */
  lemma Refragmented(fs: seq<Packet>, h: Header, base: nat, payload: Bytes, lastMore: bool,
                     i: nat, sub: seq<Packet>, mtu: uint32)
    requires Tiles(fs, h, base, payload, lastMore) && i < |fs|
    requires IsFragmentation(sub, fs[i], mtu)
    ensures Tiles(Replaced(fs, i, sub), h, base, payload, lastMore)
       <==> fs[i].header.more || fs[i].header.offset == 0
  {
    var f := fs[i];
    if f.header.more || f.header.offset == 0 {
      RefragmentedTiles(fs, h, base, payload, lastMore, i, sub, mtu);
    } else {
      var all := Replaced(fs, i, sub);
      assert all[i] == sub[0] && sub[0].header.offset == 0;
      if i > 0 {
        assert all[i - 1] == fs[i - 1] && f.header.offset == End(fs[i - 1]);
      }
    }
  }

  lemma RefragmentedTiles(fs: seq<Packet>, h: Header, base: nat, payload: Bytes, lastMore: bool,
                          i: nat, sub: seq<Packet>, mtu: uint32)
    requires Tiles(fs, h, base, payload, lastMore) && i < |fs|
    requires IsFragmentation(sub, fs[i], mtu)
    requires fs[i].header.more || fs[i].header.offset == 0
    ensures Tiles(Replaced(fs, i, sub), h, base, payload, lastMore)
  {
    ReplacedAt(fs, i, sub, 0);
    ReplacedAt(fs, i, sub, |Replaced(fs, i, sub)| - 1);
    ReplacedPieces(fs, h, base, payload, i, sub);
    ReplacedJoined(fs, i, sub);
    ReplacedMarks(fs, lastMore, i, sub);
  }

  lemma ReplacedAt(fs: seq<Packet>, i: nat, sub: seq<Packet>, k: nat)
    requires i < |fs| && k < |Replaced(fs, i, sub)|
    ensures Replaced(fs, i, sub)[k] ==
            if k < i then fs[k] else if k < i + |sub| then sub[k - i] else fs[k - |sub| + 1]
  {}

  lemma ReplacedPieces(fs: seq<Packet>, h: Header, base: nat, payload: Bytes, i: nat, sub: seq<Packet>)
    requires i < |fs| && ArePieces(fs, h, base, payload)
    requires ArePieces(sub, fs[i].header, fs[i].header.offset, fs[i].payload)
    ensures ArePieces(Replaced(fs, i, sub), h, base, payload)
  {
    assert IsPiece(fs[i], h, base, payload);
    var all := Replaced(fs, i, sub);
    forall k | 0 <= k < |all|
      ensures IsPiece(all[k], h, base, payload)
    {
      ReplacedPiece(fs, h, base, payload, i, sub, k);
    }
  }

  lemma ReplacedPiece(fs: seq<Packet>, h: Header, base: nat, payload: Bytes, i: nat, sub: seq<Packet>, k: nat)
    requires i < |fs| && ArePieces(fs, h, base, payload)
    requires ArePieces(sub, fs[i].header, fs[i].header.offset, fs[i].payload)
    requires k < |Replaced(fs, i, sub)|
    ensures IsPiece(Replaced(fs, i, sub)[k], h, base, payload)
  {
    ReplacedAt(fs, i, sub, k);
    if i <= k < i + |sub| {
      PieceOfPiece(sub[k - i], fs[i], h, base, payload);
    } else {
      var j := if k < i then k else k - |sub| + 1;
      assert IsPiece(fs[j], h, base, payload);
    }
  }

  lemma ReplacedJoined(fs: seq<Packet>, i: nat, sub: seq<Packet>)
    requires i < |fs| && Joined(fs) && Joined(sub)
    requires |sub| > 0 && sub[0].header.offset == fs[i].header.offset && End(sub[|sub| - 1]) == End(fs[i])
    ensures Joined(Replaced(fs, i, sub))
  {
    var all := Replaced(fs, i, sub);
    forall k, l | 0 <= k && l == k + 1 && l < |all|
      ensures all[l].header.offset == End(all[k])
    {
      ReplacedAt(fs, i, sub, k);
      ReplacedAt(fs, i, sub, l);
      if k < i || i + |sub| <= l {
        var m := if k < i then k else k - |sub| + 1;
        var n := m + 1;
        assert fs[n].header.offset == End(fs[m]);
      }
    }
  }

  lemma ReplacedMarks(fs: seq<Packet>, lastMore: bool, i: nat, sub: seq<Packet>)
    requires i < |fs| && |sub| > 0 && MarksLast(fs, lastMore) && MarksLast(sub, fs[i].header.more)
    ensures MarksLast(Replaced(fs, i, sub), lastMore)
  {
    var all := Replaced(fs, i, sub);
    forall k | 0 <= k < |all|
      ensures all[k].header.more <==> k < |all| - 1 || lastMore
    {
      ReplacedAt(fs, i, sub, k);
    }
  }

  /** One router on the way splits one of the fragments again, keeping the datagram intact. */
  ghost predicate SplitsOne(fs: seq<Packet>, gs: seq<Packet>) {
    exists i: nat, sub, mtu: uint32 :: SplitsAt(fs, gs, i, sub, mtu)
  }

  ghost predicate SplitsAt(fs: seq<Packet>, gs: seq<Packet>, i: nat, sub: seq<Packet>, mtu: uint32) {
    && i < |fs|
    && (fs[i].header.more || fs[i].header.offset == 0)
    && IsFragmentation(sub, fs[i], mtu)
    && gs == Replaced(fs, i, sub)
  }

  /** Every fragment starts on an 8-byte boundary, as the offset field of the wire format needs it. */
  ghost predicate Aligned(fs: seq<Packet>) {
    forall i | 0 <= i < |fs| :: fs[i].header.offset % 8 == 0
  }

  lemma AlignedSum(a: int, b: int)
    requires (a - b) % 8 == 0 && b % 8 == 0
    ensures a % 8 == 0
  {}

  lemma SubAligned(f: Packet, sub: seq<Packet>, mtu: uint32, k: nat)
    requires f.header.offset % 8 == 0 && IsFragmentation(sub, f, mtu) && k < |sub|
    ensures sub[k].header.offset % 8 == 0
  {
    FragmentsAligned(sub, f, mtu, k);
    AlignedSum(sub[k].header.offset, OriginalOffset(f.header));
  }

  lemma ReplacedAligned(fs: seq<Packet>, i: nat, sub: seq<Packet>, mtu: uint32)
    requires i < |fs| && Aligned(fs) && IsFragmentation(sub, fs[i], mtu)
    ensures Aligned(Replaced(fs, i, sub))
  {
    var all := Replaced(fs, i, sub);
    forall k | 0 <= k < |all|
      ensures all[k].header.offset % 8 == 0
    {
      ReplacedAt(fs, i, sub, k);
      if i <= k < i + |sub| {
        SubAligned(fs[i], sub, mtu, k - i);
      }
    }
  }

  /** However many routers split fragments again, each for an MTU of its own, the fragments in
      flight still carry the datagram completely, and start on 8-byte boundaries. */
  lemma {:induction false} RefragmentedOnPath(path: seq<seq<Packet>>, h: Header, base: nat, payload: Bytes,
                                              lastMore: bool)
    requires |path| > 0 && Tiles(path[0], h, base, payload, lastMore) && Aligned(path[0])
    requires forall k, l | 0 <= k && l == k + 1 && l < |path| :: SplitsOne(path[k], path[l])
    ensures Tiles(path[|path| - 1], h, base, payload, lastMore) && Aligned(path[|path| - 1])
  {
    if |path| > 1 {
      var front := path[..|path| - 1];
      RefragmentedOnPath(front, h, base, payload, lastMore);
      var fs, gs := path[|path| - 2], path[|path| - 1];
      assert SplitsOne(fs, gs);
      var i: nat, sub, mtu: uint32 :| SplitsAt(fs, gs, i, sub, mtu);
      Refragmented(fs, h, base, payload, lastMore, i, sub, mtu);
      ReplacedAligned(fs, i, sub, mtu);
    }
  }
}
