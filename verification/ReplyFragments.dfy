/** Replies that are split on their way. The check every router makes comes before reassembly and looks
    neither at the offset nor at MF, so a first fragment that holds the headers is taken for a whole,
    shorter reply. */
module ReplyFragments {
  import opened Basics
  import opened Ipv4Fragmentation
  import opened FragmentsOnPath
  import opened SublayerProtocol
  import M = Messages
  import O = OicnHeader
  import W = Wire

  /** UDP header, first word and name. */
  function HeaderSize(name: Bytes): nat {
    UDP_SIZE + 4 + |name|
  }

  /** At most the first `n` bytes. */
  function Cut(text: Bytes, n: nat): (c: Bytes)
    ensures c <= text
  {
    if n < |text| then text[..n] else text
  }

  /** What a cache keeps of the first `n` bytes of a content. */
  lemma TextOfPrefix(d: Bytes, n: nat)
    requires n <= |d|
    ensures W.CString(d[..n]) == Cut(W.CString(d), n)
  {
    W.FirstNul(d[..n], Cut(W.CString(d), n));
  }

  lemma TextOfText(d: Bytes, n: nat)
    ensures W.CString(Cut(W.CString(d), n)) == Cut(W.CString(d), n)
  {
    W.CStringExactly(Cut(W.CString(d), n));
  }

  // ----- Parts that read as replies -----

  /** No part of `b` that can be the payload of a fragment reads as a cachable reply, where `b` starts
      `from` bytes after an 8-byte boundary. */
  ghost predicate NoReplyIn(b: Bytes, from: nat) {
    forall i, j | 0 <= i <= j <= |b| && (from + i) % 8 == 0 :: ReadReply(b[i..j], UDP) == None
  }

  /** Only what starts with the two bytes of the source port reads as a reply. */
  lemma TextHasNoReply(b: Bytes, from: nat)
    requires forall i | 0 <= i < |b| - 1 :: !(b[i] == 0 && b[i + 1] == SOURCE_PORT)
    ensures NoReplyIn(b, from)
  {
    forall i, j | 0 <= i <= j <= |b| && (from + i) % 8 == 0
      ensures ReadReply(b[i..j], UDP) == None
    {
      if j - i >= 2 {
        assert b[i..j][0] == b[i] && b[i..j][1] == b[i + 1];
      }
    }
  }

  /** What a server copies into a packet for a content has no such part: text, and zeros behind it. */
  lemma CopyHasNoReply(s: Bytes, from: nat)
    ensures NoReplyIn(W.CopyOf(s), from)
  {
    var b, n := W.CopyOf(s), |W.CString(s)|;
    forall i | 0 <= i < |b| - 1
      ensures !(b[i] == 0 && b[i + 1] == SOURCE_PORT)
    {
      if i < n {
        assert b[i] == W.CString(s)[i];
        assert W.CString(s)[i] in W.CString(s);
      } else {
        assert b[i + 1] == 0;
      }
    }
    TextHasNoReply(b, from);
  }

  /** The end of the longest fragment that can start at byte `x`: none but the first is longer than what
      lies before it. */
  function Reach(b: Bytes, x: nat): nat {
    if 2 * x < |b| then 2 * x else |b|
  }

  /** A fragment that starts at byte `x` can read as a reply. */
  predicate ReadsAt(b: Bytes, x: nat) {
    0 < x < |b| && x % 8 == 0 && ReadReply(b[x..Reach(b, x)], UDP).Some?
  }

  /** Neither the payload nor any later fragment of it reads as a reply. */
  ghost predicate Harmless(b: Bytes) {
    ReadReply(b, UDP) == None && forall x: nat :: !ReadsAt(b, x)
  }

  /** What reads as a reply still does with more behind it. */
  lemma ReadsLonger(b: Bytes, x: nat, y: nat, z: nat)
    requires x <= y <= z <= |b| && ReadReply(b[x..y], UDP).Some?
    ensures ReadReply(b[x..z], UDP).Some?
  {
    var short, long := b[x..y], b[x..z];
    assert long[..|short|] == short;
    assert W.ReadU16(long, 0) == W.ReadU16(short, 0);
    assert W.ReadU32(long[UDP_SIZE..], 0) == W.ReadU32(short[UDP_SIZE..], 0);
  }

  lemma PartReads(b: Bytes, x: nat, y: nat)
    requires x <= y <= |b| && x % 8 == 0 && y - x <= x && ReadReply(b[x..y], UDP).Some?
    ensures ReadsAt(b, x)
  {
    ReadsLonger(b, x, y, Reach(b, x));
  }

  lemma PartReadsAt(b: Bytes, x: nat, y: nat, i: nat)
    requires x <= y <= |b| && x % 8 == 0 && ReadsAt(b[x..y], i)
    ensures ReadsAt(b, x + i)
  {
    var j := Reach(b[x..y], i);
    assert b[x..y][i..j] == b[x + i..x + j] by {
      SliceOfSlice(b, x, y, i, j);
    }
    ReadsLonger(b, x + i, x + j, Reach(b, x + i));
    assert (x + i) % 8 == 0 by {
      Multiples(x, i);
    }
  }

  /** A fragment is harmless if what it comes from is, be it the first or one no longer than what lies
      before it. */
  lemma HarmlessPart(b: Bytes, x: nat, y: nat)
    requires Harmless(b) && x <= y <= |b| && x % 8 == 0 && (x == 0 || y - x <= x)
    ensures Harmless(b[x..y])
  {
    if ReadReply(b[x..y], UDP).Some? {
      if x > 0 {
        PartReads(b, x, y);
      } else {
        ReadsLonger(b, 0, y, |b|);
      }
    }
    forall i: nat
      ensures !ReadsAt(b[x..y], i)
    {
      if ReadsAt(b[x..y], i) {
        PartReadsAt(b, x, y, i);
      }
    }
  }

  lemma NoReplyIsHarmless(b: Bytes)
    requires NoReplyIn(b, 0)
    ensures Harmless(b)
  {
    assert b[0..|b|] == b;
    forall x: nat
      ensures !ReadsAt(b, x)
    {
      if 0 < x < |b| && x % 8 == 0 {
        assert (0 + x) % 8 == 0;
      }
    }
  }

  lemma PartHasNoReply(b: Bytes, from: nat, x: nat, y: nat)
    requires NoReplyIn(b, from) && x <= y <= |b|
    ensures NoReplyIn(b[x..y], from + x)
  {
    forall i, j | 0 <= i <= j <= y - x && (from + x + i) % 8 == 0
      ensures ReadReply(b[x..y][i..j], UDP) == None
    {
      SliceOfSlice(b, x, y, i, j);
      assert ReadReply(b[x + i..x + j], UDP) == None;
    }
  }

  /** A fragment of a reply other than the first, or a first one without all of the headers, does not
      read as a reply. */
  lemma LaterPart(udp: Bytes, name: Bytes, k: O.Kind, d: Bytes, i: nat, j: nat)
    requires FromSource(udp) && M.Sendable(name) && NoReplyIn(d, HeaderSize(name))
    requires i <= j <= |Reply(udp, name, k, d)| && i % 8 == 0 && (i > 0 || j < HeaderSize(name))
    ensures ReadReply(Reply(udp, name, k, d)[i..j], UDP) == None
  {
    ReplyLayout(udp, name, k, d);
    var packet := Reply(udp, name, k, d);
    var part := packet[i..j];
    if i == 0 {
      ShortPart(udp, name, k, d, j);
    } else if |part| >= UDP_SIZE {
      if i < HeaderSize(name) {
        assert part[0] == packet[i] != 0;
      } else {
        assert part == d[i - HeaderSize(name)..j - HeaderSize(name)];
      }
    }
  }

  lemma ReplyLayout(udp: Bytes, name: Bytes, k: O.Kind, d: Bytes)
    requires FromSource(udp) && M.Sendable(name)
    ensures var packet := Reply(udp, name, k, d);
            && |packet| == HeaderSize(name) + |d|
            && packet[..UDP_SIZE] == udp && packet[HeaderSize(name)..] == d
            && packet[UDP_SIZE] != 0
            && (forall i | UDP_SIZE + 4 <= i < HeaderSize(name) :: packet[i] != 0)
            && packet[UDP_SIZE..UDP_SIZE + 4] == W.WriteU32(O.FirstWord(k, |name| + 4))
  {
    O.WrittenNamed(name, k);
    W.CStringExactly(name);
    var packet := Reply(udp, name, k, d);
    assert packet == udp + W.WriteU32(O.FirstWord(k, |name| + 4)) + name + d;
    forall i | UDP_SIZE + 4 <= i < HeaderSize(name)
      ensures packet[i] != 0
    {
      assert packet[i] == name[i - UDP_SIZE - 4] && name[i - UDP_SIZE - 4] in name;
    }
    FirstByte(k, |name| + 4);
  }

  lemma FirstByte(k: O.Kind, n: uint32)
    requires n < 0x1000_0000
    ensures W.WriteU32(O.FirstWord(k, n))[0] != 0
  {}

  lemma ShortPart(udp: Bytes, name: Bytes, k: O.Kind, d: Bytes, j: nat)
    requires FromSource(udp) && M.Sendable(name) && j < HeaderSize(name)
    ensures j <= |Reply(udp, name, k, d)| && ReadReply(Reply(udp, name, k, d)[..j], UDP) == None
  {
    ReplyLayout(udp, name, k, d);
    var packet := Reply(udp, name, k, d);
    var part := packet[..j];
    if j >= UDP_SIZE + 4 {
      var b := part[UDP_SIZE..];
      assert b[..4] == packet[UDP_SIZE..UDP_SIZE + 4];
      WordBack(O.FirstWord(k, |name| + 4), b);
      O.KindAndLengthExactly(k, |name| + 4);
    }
  }

  lemma WordBack(n: uint32, b: Bytes)
    requires |b| >= 4 && b[..4] == W.WriteU32(n)
    ensures W.ReadU32(b, 0) == n
  {
    W.U32Front(n, [], b[4..]);
    assert b == W.WriteU32(n) + [] + b[4..];
  }

  /** The first fragment of a reply, if it holds the headers, is the reply of a shorter content. */
  lemma FirstPartIsReply(udp: Bytes, name: Bytes, k: O.Kind, d: Bytes, n: nat)
    requires FromSource(udp) && M.Sendable(name) && HeaderSize(name) <= n <= HeaderSize(name) + |d|
    ensures |Reply(udp, name, k, d)| == HeaderSize(name) + |d|
    ensures Reply(udp, name, k, d)[..n] == Reply(udp, name, k, d[..n - HeaderSize(name)])
  {
    ReplyLayout(udp, name, k, d);
    var m := n - HeaderSize(name);
    var headers := udp + O.Write(O.Named(name, k));
    assert Reply(udp, name, k, d) == headers + d;
    assert Reply(udp, name, k, d[..m]) == headers + d[..m];
    assert (headers + d)[..n] == headers + d[..m];
  }

  // ----- Packets with their history -----

  /** The contents servers hold. */
  type Contents = map<Bytes, Bytes>

  /** Where a packet comes from: whether it starts a reply for a name, and then the MTUs of the links its
      content has crossed from the server, those on the way of the cached copies it was taken from
      included, and the least room for payload they have cut it to. */
  datatype Origin = Elsewhere | ReplyFor(name: Bytes, links: seq<uint32>, room: nat)

  datatype Parcel = Parcel(packet: Packet, origin: Origin)

  // The room where nothing has been cut.
  const UNCUT: nat := 0xFFFF

  predicate CanSend(p: Packet, mtu: uint32) {
    mtu >= 28 && OriginalOffset(p.header) + |p.payload| < 0x1_0000
  }

  /** The origin of the `i`th packet that a link makes of one that comes from `o`. */
  function OriginOf(o: Origin, fits: bool, i: nat, mtu: uint32): Origin {
    match o
    case Elsewhere => Elsewhere
    case ReplyFor(name, links, room) =>
      var size := FragmentSize(mtu);
      if fits then ReplyFor(name, links + [mtu], room)
      else if i == 0 && HeaderSize(name) <= size then
        ReplyFor(name, links + [mtu], if size < room then size else room)
      else Elsewhere
  }

  /** What goes out on a link for a packet: the packet or its fragments. */
  function Sent(p: Parcel, mtu: uint32): set<Parcel> {
    if !CanSend(p.packet, mtu) then {}
    else
      var fs := Transmitted(p.packet, mtu);
      set i | 0 <= i < |fs| :: Parcel(fs[i], OriginOf(p.origin, Fits(p.packet, mtu), i, mtu))
  }

  /** A content that fits in one datagram. */
  ghost predicate Servable(contents: Contents, name: Bytes) {
    && name in contents && M.Sendable(name) && name != []
    && WholeSize(contents, name) <= 0xFFFF
  }

  /** The size of the IP packet with the whole reply. */
  function WholeSize(contents: Contents, name: Bytes): nat
    requires name in contents
  {
    HEADER_SIZE + HeaderSize(name) + |contents[name]|
  }

  ghost predicate AllFit(contents: Contents, name: Bytes, links: seq<uint32>)
    requires name in contents
  {
    forall i | 0 <= i < |links| :: WholeSize(contents, name) <= links[i]
  }

  /** The headers fit in the room, and the content does exactly if it has not been cut; one without NUL
      has not been cut exactly if the whole reply fits all links on the way. */
  ghost predicate WayTrue(contents: Contents, o: Origin) {
    && o.ReplyFor? && Servable(contents, o.name) && HeaderSize(o.name) <= o.room
    && (o.room == UNCUT || o.room < HeaderSize(o.name) + |contents[o.name]|)
    && (0 !in contents[o.name] ==> (o.room == UNCUT <==> AllFit(contents, o.name, o.links)))
  }

  /** What a cache keeps of the content of `name` after `room` has cut it. */
  function Kept(contents: Contents, name: Bytes, room: nat): Bytes
    requires name in contents && HeaderSize(name) <= room
  {
    Cut(W.CString(contents[name]), room - HeaderSize(name))
  }

  /** `d` is a front part of what a server sends for a content, as much of it as the way has left. */
  ghost predicate PartOf(d: Bytes, contents: Contents, o: Origin) {
    && WayTrue(contents, o)
    && d <= W.CopyOf(contents[o.name]) && W.CString(d) == Kept(contents, o.name, o.room)
  }

  ghost predicate Carries(p: Parcel, contents: Contents, udp: Bytes, k: O.Kind, d: Bytes) {
    && p.origin.ReplyFor? && M.Sendable(p.origin.name) && FromSource(udp)
    && p.packet.header.id.protocol == UDP && p.packet.header.offset == 0
    && p.packet.payload == Reply(udp, p.origin.name, k, d)
    && PartOf(d, contents, p.origin)
  }

  /** A packet is as its origin says: a reply with as much of the server's content as its way has left,
      or something that neither reads as a reply nor has a fragment that does. */
  ghost predicate Honest(p: Parcel, contents: Contents) {
    if p.origin.ReplyFor? then exists udp, k, d :: Carries(p, contents, udp, k, d)
    else p.packet.header.id.protocol == UDP ==> Harmless(p.packet.payload)
  }

  lemma PartHasNone(d: Bytes, contents: Contents, o: Origin)
    requires PartOf(d, contents, o)
    ensures NoReplyIn(d, HeaderSize(o.name))
  {
    var c := W.CopyOf(contents[o.name]);
    CopyHasNoReply(contents[o.name], HeaderSize(o.name));
    PartHasNoReply(c, HeaderSize(o.name), 0, |d|);
    assert c[0..|d|] == d;
  }

  /** Of a content without NUL an uncut part is all of it. */
  lemma UncutIsWhole(d: Bytes, contents: Contents, o: Origin)
    requires PartOf(d, contents, o) && 0 !in contents[o.name] && o.room == UNCUT
    ensures d == contents[o.name]
  {
    W.CStringExactly(contents[o.name]);
    W.CStringExactly(d);
  }

  lemma FitsAppends(contents: Contents, name: Bytes, links: seq<uint32>, mtu: uint32)
    requires name in contents
    ensures AllFit(contents, name, links + [mtu]) <==> AllFit(contents, name, links) && WholeSize(contents, name) <= mtu
  {
    var all := links + [mtu];
    assert all[|links|] == mtu;
    assert forall i | 0 <= i < |links| :: all[i] == links[i];
  }

  /** Over a link that fits a reply its way stays true. */
  lemma WayOverFit(d: Bytes, contents: Contents, o: Origin, mtu: uint32)
    requires PartOf(d, contents, o) && HEADER_SIZE + HeaderSize(o.name) + |d| <= mtu
    ensures PartOf(d, contents, OriginOf(o, true, 0, mtu))
  {
    FitsAppends(contents, o.name, o.links, mtu);
    if 0 !in contents[o.name] && o.room == UNCUT {
      UncutIsWhole(d, contents, o);
    }
  }

  /** Over one that does not, the first fragment holds less, and its way is true as well. */
  lemma WayOverCut(d: Bytes, contents: Contents, o: Origin, mtu: uint32)
    requires mtu >= 28 && PartOf(d, contents, o) && HEADER_SIZE + HeaderSize(o.name) + |d| > mtu
    requires HeaderSize(o.name) <= FragmentSize(mtu)
    ensures FragmentSize(mtu) < HeaderSize(o.name) + |d|
    ensures PartOf(d[..FragmentSize(mtu) - HeaderSize(o.name)], contents, OriginOf(o, false, 0, mtu))
  {
    FragmentSizeFits(mtu);
    FitsAppends(contents, o.name, o.links, mtu);
    TextOfPrefix(d, FragmentSize(mtu) - HeaderSize(o.name));
  }

  /** `f` is a fragment of `p`, starting on an 8-byte boundary of it. */
  ghost predicate IsPart(f: Packet, p: Packet) {
    var base := OriginalOffset(p.header);
    && f.header.id == p.header.id
    && base <= f.header.offset && (f.header.offset - base) % 8 == 0 && End(f) <= base + |p.payload|
    && f.payload == p.payload[f.header.offset - base..End(f) - base]
  }

  /** What splitting makes of a packet. */
  lemma PieceIsPart(p: Packet, mtu: uint32, i: nat)
    requires CanSend(p, mtu) && !Fits(p, mtu) && i < |Transmitted(p, mtu)|
    ensures IsPart(Transmitted(p, mtu)[i], p)
  {
    TransmittedAligned(p, mtu, i);
    TransmittedSlice(p, mtu, i);
  }

  lemma TransmittedAligned(p: Packet, mtu: uint32, i: nat)
    requires CanSend(p, mtu) && !Fits(p, mtu) && i < |Transmitted(p, mtu)|
    ensures (Transmitted(p, mtu)[i].header.offset - OriginalOffset(p.header)) % 8 == 0
  {
    TransmittedPieces(p, mtu);
    FragmentsAligned(Transmitted(p, mtu), p, mtu, i);
  }

  lemma TransmittedSlice(p: Packet, mtu: uint32, i: nat)
    requires CanSend(p, mtu) && !Fits(p, mtu) && i < |Transmitted(p, mtu)|
    ensures IsSlice(Transmitted(p, mtu)[i], OriginalOffset(p.header), p.payload)
    ensures SameDatagram(Transmitted(p, mtu)[i].header, p.header)
  {
    TransmittedPieces(p, mtu);
    var f := Transmitted(p, mtu)[i];
    assert IsPiece(f, p.header, OriginalOffset(p.header), p.payload);
  }

  lemma FirstIsFull(p: Packet, mtu: uint32)
    requires CanSend(p, mtu) && !Fits(p, mtu)
    ensures 0 < FragmentSize(mtu) < |p.payload|
    ensures |Transmitted(p, mtu)| > 0
    ensures var f := Transmitted(p, mtu)[0];
            f.header.offset == OriginalOffset(p.header) && |f.payload| == FragmentSize(mtu)
  {
    FragmentSizeFits(mtu);
    FirstPart(p, FragmentSize(mtu), 0);
  }

  /** A later one is no longer than what lies before it. */
  lemma LaterIsShort(p: Packet, mtu: uint32, i: nat)
    requires CanSend(p, mtu) && !Fits(p, mtu) && 0 < i < |Transmitted(p, mtu)|
    ensures var f := Transmitted(p, mtu)[i]; 0 < |f.payload| <= f.header.offset - OriginalOffset(p.header)
  {
    FirstIsFull(p, mtu);
    TransmittedPieces(p, mtu);
    var fs := Transmitted(p, mtu);
    assert IsPiece(fs[i], p.header, OriginalOffset(p.header), p.payload);
    LaterStarts(fs, i);
  }

  lemma {:induction false} LaterStarts(fs: seq<Packet>, i: nat)
    requires Joined(fs) && 0 < i < |fs|
    ensures fs[i].header.offset >= End(fs[0])
  {
    assert fs[i].header.offset == End(fs[i - 1]);
    if i > 1 {
      LaterStarts(fs, i - 1);
    }
  }

  lemma StartOf(p: Packet, mtu: uint32, i: nat) returns (x: nat)
    requires CanSend(p, mtu) && i < |Transmitted(p, mtu)| && !Fits(p, mtu)
    ensures var f := Transmitted(p, mtu)[i];
            && f.header.id == p.header.id
            && x % 8 == 0 && (if i == 0 then x == 0 else |f.payload| <= x) && x + |f.payload| <= |p.payload|
            && f.payload == p.payload[x..x + |f.payload|]
  {
    PieceIsPart(p, mtu, i);
    x := Transmitted(p, mtu)[i].header.offset - OriginalOffset(p.header);
    if i == 0 {
      FirstIsFull(p, mtu);
    } else {
      LaterIsShort(p, mtu, i);
    }
  }

  /** What goes out on a link is honest if what is sent is. */
  lemma SentHonest(p: Parcel, contents: Contents, mtu: uint32, q: Parcel)
    requires Honest(p, contents) && q in Sent(p, mtu)
    ensures Honest(q, contents)
  {
    var fs := Transmitted(p.packet, mtu);
    var i :| 0 <= i < |fs| && q == Parcel(fs[i], OriginOf(p.origin, Fits(p.packet, mtu), i, mtu));
    if p.origin.Elsewhere? {
      PlainSent(p.packet, mtu, i);
    } else {
      var udp, k, d :| Carries(p, contents, udp, k, d);
      ReplyLayout(udp, p.origin.name, k, d);
      if Fits(p.packet, mtu) {
        WayOverFit(d, contents, p.origin, mtu);
        assert Carries(q, contents, udp, k, d);
      } else {
        PieceIsPart(p.packet, mtu, i);
        FirstIsFull(p.packet, mtu);
        if i == 0 && HeaderSize(p.origin.name) <= FragmentSize(mtu) {
          FrontPiece(p, contents, mtu, fs[i], udp, k, d);
        } else {
          if i > 0 {
            LaterIsShort(p.packet, mtu, i);
          }
          LaterPiece(p, contents, fs[i], udp, k, d);
        }
      }
    }
  }

  lemma PlainSent(p: Packet, mtu: uint32, i: nat)
    requires CanSend(p, mtu) && i < |Transmitted(p, mtu)|
    requires p.header.id.protocol == UDP ==> Harmless(p.payload)
    ensures var f := Transmitted(p, mtu)[i]; f.header.id.protocol == UDP ==> Harmless(f.payload)
  {
    if !Fits(p, mtu) {
      var f := Transmitted(p, mtu)[i];
      var x := StartOf(p, mtu, i);
      if p.header.id.protocol == UDP {
        SlicedHarmless(p.payload, x, f.payload);
      }
    }
  }

  lemma SlicedHarmless(b: Bytes, x: nat, part: Bytes)
    requires Harmless(b) && x % 8 == 0 && (x == 0 || |part| <= x)
    requires x + |part| <= |b| && part == b[x..x + |part|]
    ensures Harmless(part)
  {
    HarmlessPart(b, x, x + |part|);
  }

  lemma FrontPiece(p: Parcel, contents: Contents, mtu: uint32, f: Packet, udp: Bytes, k: O.Kind, d: Bytes)
    requires Carries(p, contents, udp, k, d) && IsPart(f, p.packet)
    requires mtu >= 28 && !Fits(p.packet, mtu) && HeaderSize(p.origin.name) <= FragmentSize(mtu)
    requires f.header.offset == 0 && |f.payload| == FragmentSize(mtu)
    ensures Honest(Parcel(f, OriginOf(p.origin, false, 0, mtu)), contents)
  {
    var name, n := p.origin.name, |f.payload|;
    ReplyLayout(udp, name, k, d);
    WayOverCut(d, contents, p.origin, mtu);
    FirstPartIsReply(udp, name, k, d, n);
    assert Carries(Parcel(f, OriginOf(p.origin, false, 0, mtu)), contents, udp, k, d[..n - HeaderSize(name)]);
  }

  lemma LaterPiece(p: Parcel, contents: Contents, f: Packet, udp: Bytes, k: O.Kind, d: Bytes)
    requires Carries(p, contents, udp, k, d) && IsPart(f, p.packet)
    requires f.header.offset > 0 || |f.payload| < HeaderSize(p.origin.name)
    ensures Honest(Parcel(f, Elsewhere), contents)
  {
    PartHasNone(d, contents, p.origin);
    NoReplyInPiece(udp, p.origin.name, k, d, f.header.offset, End(f));
    NoReplyIsHarmless(f.payload);
  }

  lemma NoReplyInPiece(udp: Bytes, name: Bytes, k: O.Kind, d: Bytes, x: nat, y: nat)
    requires FromSource(udp) && M.Sendable(name) && NoReplyIn(d, HeaderSize(name))
    requires x <= y <= |Reply(udp, name, k, d)| && x % 8 == 0 && (x > 0 || y < HeaderSize(name))
    ensures NoReplyIn(Reply(udp, name, k, d)[x..y], 0)
  {
    var packet := Reply(udp, name, k, d);
    forall i, j | 0 <= i <= j <= y - x && (0 + i) % 8 == 0
      ensures ReadReply(packet[x..y][i..j], UDP) == None
    {
      PartOfPiece(udp, name, k, d, x, y, i, j);
    }
  }

  lemma PartOfPiece(udp: Bytes, name: Bytes, k: O.Kind, d: Bytes, x: nat, y: nat, i: nat, j: nat)
    requires FromSource(udp) && M.Sendable(name) && NoReplyIn(d, HeaderSize(name))
    requires x <= y <= |Reply(udp, name, k, d)| && x % 8 == 0 && (x > 0 || y < HeaderSize(name))
    requires i <= j <= y - x && i % 8 == 0
    ensures ReadReply(Reply(udp, name, k, d)[x..y][i..j], UDP) == None
  {
    SliceOfSlice(Reply(udp, name, k, d), x, y, i, j);
    Multiples(x, i);
    LaterPart(udp, name, k, d, x + i, x + j);
  }

  lemma Multiples(x: nat, i: nat)
    requires x % 8 == 0
    ensures (0 + (x + i)) % 8 == (0 + i) % 8
  {}

  // ----- Which packets are harmless -----

  /** Fragment `i`, a later one, of `p` on a link reads as a reply. */
  ghost predicate ReadsLater(p: Packet, mtu: uint32, i: nat) {
    CanSend(p, mtu) && 0 < i < |Transmitted(p, mtu)| && ReadReply(Transmitted(p, mtu)[i].payload, UDP).Some?
  }

  /** Some link makes of a packet a later fragment that reads as a reply if and only if the packet reads as
      one from some 8-byte boundary on, within twice the distance from its start. */
  lemma LaterFragmentExactly(p: Packet)
    requires OriginalOffset(p.header) + |p.payload| < 0x1_0000
    ensures (exists mtu: uint32, i: nat :: ReadsLater(p, mtu, i)) <==> exists x: nat :: ReadsAt(p.payload, x)
  {
    if mtu: uint32, i: nat :| ReadsLater(p, mtu, i) {
      LaterReadsAt(p, mtu, i);
    }
    if x: nat :| ReadsAt(p.payload, x) {
      SecondFragment(p, x);
      assert ReadsLater(p, HEADER_SIZE + x, 1);
    }
  }

  lemma LaterReadsAt(p: Packet, mtu: uint32, i: nat)
    requires ReadsLater(p, mtu, i)
    ensures exists x: nat :: ReadsAt(p.payload, x)
  {
    var f := Transmitted(p, mtu)[i];
    var x := StartOf(p, mtu, i);
    assert f.payload == p.payload[x..x + |f.payload|];
    PartReads(p.payload, x, x + |f.payload|);
  }

  lemma SecondFragment(p: Packet, x: nat)
    requires OriginalOffset(p.header) + |p.payload| < 0x1_0000 && 0 < x < |p.payload| && x % 8 == 0
    ensures CanSend(p, HEADER_SIZE + x) && |Transmitted(p, HEADER_SIZE + x)| > 1
    ensures Transmitted(p, HEADER_SIZE + x)[1].payload == p.payload[x..Reach(p.payload, x)]
  {
    var mtu: uint32, h := HEADER_SIZE + x, p.header;
    assert FragmentSize(mtu) == x;
    var part := NextPart(|p.payload|, x, x);
    assert Split(p, x, 0) == [MakeFragment(h, p.payload, 0, (x, true), OriginalOffset(h), h.more)] + Split(p, x, x);
    assert Split(p, x, x)[0] == MakeFragment(h, p.payload, x, part, OriginalOffset(h), h.more);
  }

  /** A payload is harmless if and only if no link makes anything of it that reads as a reply. */
  lemma HarmlessExactly(p: Packet)
    requires OriginalOffset(p.header) + |p.payload| < 0x1_0000
    ensures Harmless(p.payload) <==>
            forall mtu: uint32, i: nat | CanSend(p, mtu) && i < |Transmitted(p, mtu)| ::
              ReadReply(Transmitted(p, mtu)[i].payload, UDP) == None
  {
    LaterFragmentExactly(p);
    if Harmless(p.payload) {
      forall mtu: uint32, i: nat | CanSend(p, mtu) && i < |Transmitted(p, mtu)|
        ensures ReadReply(Transmitted(p, mtu)[i].payload, UDP) == None
      {
        if i == 0 && !Fits(p, mtu) {
          var x := StartOf(p, mtu, 0);
          SlicedHarmless(p.payload, x, Transmitted(p, mtu)[0].payload);
        } else {
          assert !ReadsLater(p, mtu, i);
        }
      }
    } else if x: nat :| ReadsAt(p.payload, x) {
      var mtu: uint32, i: nat :| ReadsLater(p, mtu, i);
      assert ReadReply(Transmitted(p, mtu)[i].payload, UDP).Some?;
    } else {
      assert CanSend(p, 0x1_0014) && Transmitted(p, 0x1_0014)[0] == p;
    }
  }
}
