/** The check a router makes of every packet it receives: replies of a content source are cached, and
    sent on with the same or with another kind in the sublayer header. */
module SublayerProtocol {
  import opened Basics
  import opened NamedContentCache
  import C = CacheManager
  import D = DnsPlusHeader
  import M = Messages
  import O = OicnHeader
  import P = CacheProperties
  import S = DnsPlusSections
  import W = Wire

  const UDP := 17
  const UDP_SIZE := 8
  const SOURCE_PORT := 89

  /** The sublayer header of a packet above IP if it is a cachable reply, and the data behind it.
      A UDP header is 8 bytes that start with the source port and are put back as they were. */
  function ReadReply(packet: Bytes, protocol: uint8): Option<(O.Oicn, Bytes)> {
    if protocol != UDP || |packet| < UDP_SIZE || W.ReadU16(packet, 0) != SOURCE_PORT then None
    else
      match O.Read(packet[UDP_SIZE..])
      case None => None
      case Some((h, data)) => if Low32(h.word - h.length) == O.CACHABLE_START then Some((h, data)) else None
  }

  function KindSet(nonCachable: bool): O.Kind {
    if nonCachable then O.NonCachable else O.Cachable
  }

  /** What SetEntry does for a packet, if it is a reply. */
  ghost function Caching(s: CacheState, packet: Bytes, protocol: uint8, ttl: uint8, now: uint64): Option<P.SetResult> {
    match ReadReply(packet, protocol)
    case None => None
    case Some((h, data)) => Some(P.SetEntry(s, h.name, data, ttl, now))
  }

  /** The packet sent on. */
  ghost function SentOn(s: CacheState, nonCachable: bool, packet: Bytes, protocol: uint8, ttl: uint8,
                        now: uint64): Bytes
  {
    match ReadReply(packet, protocol)
    case None => packet
    case Some((h, data)) =>
      if P.SetEntry(s, h.name, data, ttl, now).cached && |h.name| + 4 <= h.length then
        packet[..UDP_SIZE] + (O.Write(h.(word := O.FirstWord(KindSet(nonCachable), h.length))) + data)
      else packet
  }

  class SublayerProtocol {
    var udp_header: Bytes
    var oicn_header: O.OicnHeader
    var m_set_non_cachable: bool
    const cachemanager: C.CacheManager

    constructor (manager: C.CacheManager, nonCachable: bool)
      ensures cachemanager == manager && m_set_non_cachable == nonCachable && fresh(oicn_header)
    {
      cachemanager, udp_header, m_set_non_cachable := manager, [], nonCachable;
      oicn_header := new O.OicnHeader();
    }

    method OICNSublayerCheck(packet: Bytes, protocol: uint8, ttl: uint8, now: uint64) returns (out: Bytes)
      requires cachemanager.cache.Valid() && cachemanager.cache.cache_size >= 1
      modifies `udp_header, `oicn_header
      modifies cachemanager.cache`cache, cachemanager.cache`policyindex, cachemanager.tables`cachedRouterTable
      ensures cachemanager.cache.Valid()
      ensures out == SentOn(old(cachemanager.cache.State()), m_set_non_cachable, packet, protocol, ttl, now)
      ensures match Caching(old(cachemanager.cache.State()), packet, protocol, ttl, now)
              case None => cachemanager.cache.State() == old(cachemanager.cache.State()) &&
                           cachemanager.tables.cachedRouterTable == old(cachemanager.tables.cachedRouterTable)
              case Some(r) => cachemanager.cache.State() == r.state &&
                              multiset(cachemanager.tables.cachedRouterTable) ==
                              C.DirectoryAfter(multiset(old(cachemanager.tables.cachedRouterTable)),
                                               cachemanager.routerAddress,
                                               ReadReply(packet, protocol).value.0.name, r)
    {
      var has, data := HasSublayer(packet, protocol);
      if !has {
        return packet;
      }
      var cached := cachemanager.SetEntry(data, oicn_header.m_name, ttl, now);
      if !cached {
        return packet;
      }
      if m_set_non_cachable {
        oicn_header.SetNonCachable();
      } else {
        oicn_header.SetCachable();
      }
      out := oicn_header.AddTo(data);
      out := udp_header + out;
    }

    /** Strips the UDP and sublayer headers and keeps them if the packet is a cachable reply. */
    method HasSublayer(packet: Bytes, protocol: uint8) returns (has: bool, data: Bytes)
      modifies `udp_header, `oicn_header
      ensures has <==> ReadReply(packet, protocol).Some?
      ensures has ==> && fresh(oicn_header) && (oicn_header.Value(), data) == ReadReply(packet, protocol).value
                      && |oicn_header.m_name| + 4 <= oicn_header.header_length
                      && udp_header == packet[..UDP_SIZE]
    {
      data := packet;
      if protocol != UDP || |packet| < UDP_SIZE {
        return false, packet;
      }
      if W.ReadU16(packet, 0) != SOURCE_PORT {
        return false, packet;
      }
      var oicnheader := new O.OicnHeader();
      var ok, rest := oicnheader.RemoveFrom(packet[UDP_SIZE..]);
      if !ok {
        return false, packet;
      }
      var first4Bytes := Low32(oicnheader.first4bytes - oicnheader.header_length);
      if first4Bytes == 4026531840 {
        udp_header, oicn_header := packet[..UDP_SIZE], oicnheader;
        return true, rest;
      }
      return false, packet;
    }
  }

  // ----- Replies -----

  /** A reply of a source: UDP header from the source port, sublayer header, data. */
  function Reply(udp: Bytes, name: Bytes, k: O.Kind, data: Bytes): Bytes
    requires M.Sendable(name)
  {
    udp + (O.Write(O.Named(name, k)) + data)
  }

  /** A UDP header from port 89. */
  predicate FromSource(udp: Bytes) {
    |udp| == 8 && udp[0] == 0 && udp[1] == 89
  }

  lemma ReplyBack(udp: Bytes, name: Bytes, k: O.Kind, data: Bytes)
    requires FromSource(udp) && M.Sendable(name)
    ensures ReadReply(Reply(udp, name, k, data), UDP) ==
            if k == O.Cachable then Some((O.Named(name, k), data)) else None
    ensures O.Named(name, k).length == |name| + 4
  {
    var packet := Reply(udp, name, k, data);
    assert packet[UDP_SIZE..] == O.Write(O.Named(name, k)) + data;
    assert W.ReadU16(packet, 0) == W.ReadU16(udp, 0);
    O.KindAndLengthExactly(k, |name| + 4);
    O.ReadWritten(name, k, data);
  }

  /** What the check makes of a reply: a cachable one is sent on byte for byte, unless the router
      caches it and is set to mark what it cached, which changes the kind only. */
  lemma ReplySentOn(s: CacheState, nonCachable: bool, udp: Bytes, name: Bytes, k: O.Kind, data: Bytes,
                    ttl: uint8, now: uint64)
    requires FromSource(udp) && M.Sendable(name)
    ensures var packet := Reply(udp, name, k, data);
            var cached := k == O.Cachable && P.SetEntry(s, name, data, ttl, now).cached;
            && SentOn(s, nonCachable, packet, UDP, ttl, now) ==
               Reply(udp, name, if cached then KindSet(nonCachable) else k, data)
            && Caching(s, packet, UDP, ttl, now) ==
               if k == O.Cachable then Some(P.SetEntry(s, name, data, ttl, now)) else None
  {
    ReplyBack(udp, name, k, data);
    assert Reply(udp, name, k, data)[..UDP_SIZE] == udp;
    assert O.Named(name, O.Cachable).(word := O.FirstWord(KindSet(nonCachable), |name| + 4)) ==
           O.Named(name, KindSet(nonCachable));
  }

  /** Behind the name and its NUL the name field of a reply holds zeros only. */
  predicate ZeroPadded(packet: Bytes, h: O.Oicn)
    requires |h.name| + 4 <= h.length && UDP_SIZE + h.length <= |packet|
  {
    forall i | UDP_SIZE + 4 + |h.name| <= i < UDP_SIZE + h.length :: packet[i] == 0
  }

  lemma ReadParts(packet: Bytes, protocol: uint8)
    requires ReadReply(packet, protocol).Some?
    ensures var (h, data) := ReadReply(packet, protocol).value;
            && 4 <= h.length && UDP_SIZE + h.length <= |packet|
            && h.word == O.FirstWord(O.Cachable, h.length) == W.ReadU32(packet[UDP_SIZE..], 0)
            && h.name == W.CString(packet[UDP_SIZE..][4..h.length])
            && 0 !in h.name && |h.name| + 4 <= h.length
            && data == packet[UDP_SIZE..][h.length..]
  {}

  /** With marking off the check returns every packet as it came, except a reply it caches whose name
      field has something other than zeros behind the name. */
  lemma UnmarkedUnchangedExactly(s: CacheState, packet: Bytes, protocol: uint8, ttl: uint8, now: uint64)
    ensures var read := ReadReply(packet, protocol);
            read.Some? ==> && |read.value.0.name| + 4 <= read.value.0.length
                           && UDP_SIZE + read.value.0.length <= |packet|
    ensures var read, caching := ReadReply(packet, protocol), Caching(s, packet, protocol, ttl, now);
            SentOn(s, false, packet, protocol, ttl, now) == packet <==>
            caching.Some? && caching.value.cached ==> ZeroPadded(packet, read.value.0)
  {
    var read := ReadReply(packet, protocol);
    if read.Some? {
      ReadParts(packet, protocol);
      var (h, data) := read.value;
      Rewritten(packet, h, data);
    }
  }

  lemma Rewritten(packet: Bytes, h: O.Oicn, data: Bytes)
    requires 4 <= h.length && UDP_SIZE + h.length <= |packet|
    requires h.word == W.ReadU32(packet[UDP_SIZE..], 0) && h.name == W.CString(packet[UDP_SIZE..][4..h.length])
    requires |h.name| + 4 <= h.length && data == packet[UDP_SIZE..][h.length..]
    ensures packet[..UDP_SIZE] + (O.Write(h) + data) == packet <==> ZeroPadded(packet, h)
  {
    var b, start := packet[UDP_SIZE..], 4 + |h.name|;
    WrittenParts(b, h);
    Padded(b, start, h.length, W.Zeros(h.length - start));
    CancelFront(packet, UDP_SIZE, O.Write(h) + data);
    ZerosBehind(packet, UDP_SIZE, start, h.length);
  }

  lemma WrittenParts(b: Bytes, h: O.Oicn)
    requires 4 <= h.length <= |b| && |h.name| + 4 <= h.length
    requires h.word == W.ReadU32(b, 0) && h.name == W.CString(b[4..h.length])
    ensures O.Write(h) + b[h.length..] ==
            b[..4 + |h.name|] + W.Zeros(h.length - (4 + |h.name|)) + b[h.length..]
  {
    W.CStringExactly(h.name);
    WordWritten(b);
    assert b[..4] + h.name == b[..4 + |h.name|];
  }

  lemma CancelFront(packet: Bytes, n: nat, out: Bytes)
    requires n <= |packet|
    ensures packet[..n] + out == packet <==> out == packet[n..]
  {
    assert (packet[..n] + out)[n..] == out;
  }

  lemma ZerosBehind(packet: Bytes, n: nat, from: nat, to: nat)
    requires n + to <= |packet|
    ensures (forall i | n + from <= i < n + to :: packet[i] == 0) <==>
            forall i | from <= i < to :: packet[n..][i] == 0
  {
    assert forall i | from <= i < to :: packet[n..][i] == packet[n + i];
    assert forall i | n + from <= i < n + to :: packet[i] == packet[n..][i - n];
  }

  lemma Padded(b: Bytes, from: nat, to: nat, zeros: Bytes)
    requires from <= to <= |b| && |zeros| == to - from && forall i | 0 <= i < |zeros| :: zeros[i] == 0
    ensures b[..from] + zeros + b[to..] == b <==> forall i | from <= i < to :: b[i] == 0
  {
    var out := b[..from] + zeros + b[to..];
    assert forall i | from <= i < to :: out[i] == 0;
  }

  lemma WordWritten(b: Bytes)
    requires |b| >= 4
    ensures W.WriteU32(W.ReadU32(b, 0)) == b[..4]
  {
    var n: int, high: int, low: int := W.ReadU32(b, 0), W.ReadU16(b, 0), W.ReadU16(b, 2);
    assert n == high * 0x1_0000 + low;
    assert n / 0x1_0000 == high && n % 0x1_0000 == low;
    HalfWritten(b, 0);
    HalfWritten(b, 2);
  }

  lemma HalfWritten(b: Bytes, at: nat)
    requires at + 2 <= |b|
    ensures W.WriteU16(W.ReadU16(b, at)) == [b[at], b[at + 1]]
  {
    var n: int, high: int, low: int := W.ReadU16(b, at), b[at], b[at + 1];
    assert n == high * 0x100 + low;
  }

  /** Marking a reply changes one byte, from 0xF_ to 0xB_: the four bits in front of the length. */
  lemma MarkChangesPrefixOnly(udp: Bytes, name: Bytes, data: Bytes)
    requires FromSource(udp) && M.Sendable(name)
    ensures var a, b := Reply(udp, name, O.Cachable, data), Reply(udp, name, O.NonCachable, data);
            && |a| == |b| > UDP_SIZE
            && a[UDP_SIZE] / 16 == 0xF && b[UDP_SIZE] / 16 == 0xB && a[UDP_SIZE] % 16 == b[UDP_SIZE] % 16
            && forall i | 0 <= i < |a| && i != UDP_SIZE :: a[i] == b[i]
  {
    var n: uint32 := |name| + 4;
    var v, w := O.FirstWord(O.Cachable, n), O.FirstWord(O.NonCachable, n);
    WordBytes(n);
    O.WrittenNamed(name, O.Cachable);
    O.WrittenNamed(name, O.NonCachable);
    var a, b := Reply(udp, name, O.Cachable, data), Reply(udp, name, O.NonCachable, data);
    assert a == udp + W.WriteU32(v) + (W.CopyOf(name) + data);
    assert b == udp + W.WriteU32(w) + (W.CopyOf(name) + data);
  }

  lemma WordBytes(n: uint32)
    requires n < 0x1000_0000
    ensures var v, w := W.WriteU32(O.FirstWord(O.Cachable, n)), W.WriteU32(O.FirstWord(O.NonCachable, n));
            && v[0] / 16 == 0xF && w[0] / 16 == 0xB && v[0] % 16 == w[0] % 16
            && v[1] == w[1] && v[2] == w[2] && v[3] == w[3]
  {}

  // ----- The other messages on their path -----

  /** No message with a non-cachable sublayer header is taken for a reply, whatever port it comes from: a
      router sends it on as it is and caches nothing. */
  lemma MessagePasses(udp: Bytes, name: Bytes, m: M.Envelope, body: Bytes, s: CacheState, nonCachable: bool,
                      ttl: uint8, now: uint64)
    requires |udp| == UDP_SIZE && M.Sendable(name) && m.oicn == O.Named(name, O.NonCachable)
    ensures |m.oicn.name| + 4 <= m.oicn.length
    ensures var packet := udp + M.WriteMessage(m, body);
            && Caching(s, packet, UDP, ttl, now) == None
            && SentOn(s, nonCachable, packet, UDP, ttl, now) == packet
  {
    var packet := udp + M.WriteMessage(m, body);
    if FromSource(udp) {
      ReplyBack(udp, name, O.NonCachable, D.Write(m.id, m.flags, m.counts) + body);
    } else {
      assert W.ReadU16(packet, 0) == W.ReadU16(udp, 0) != SOURCE_PORT;
    }
  }

  /** A router passes a packet: it is not taken for a reply. */
  ghost predicate Passes(packet: Bytes, s: CacheState, nonCachable: bool, ttl: uint8, now: uint64) {
    && ReadReply(packet, UDP) == None
    && Caching(s, packet, UDP, ttl, now) == None
    && SentOn(s, nonCachable, packet, UDP, ttl, now) == packet
  }

  /** So every message of a resolution reaches its receiver as it was sent, through any router: the client's
      query, the manager's acknowledgement and redirect, and the source's acknowledgement of that, although the
      source sends it from the port of replies. */
  lemma ResolutionPasses(udp: Bytes, name: Bytes, client: uint32, found: bool, s: CacheState, nonCachable: bool,
                         ttl: uint8, now: uint64)
    requires |udp| == UDP_SIZE && M.Sendable(name)
    ensures var m, q := M.QueryEnvelope(name), M.QuestionFor(name);
            && M.Writable(m, q)
            && Passes(udp + M.Query(name), s, nonCachable, ttl, now)
            && Passes(udp + M.Ack(m, q, found), s, nonCachable, ttl, now)
            && Passes(udp + M.Redirect(m, q, client), s, nonCachable, ttl, now)
            && var redirect := M.ReadMessage(M.Redirect(m, q, client));
               && redirect.Some? && M.Writable(redirect.value.0, q)
               && Passes(udp + M.SourceAck(redirect.value.0, q), s, nonCachable, ttl, now)
  {
    var m, q := M.QueryEnvelope(name), M.QuestionFor(name);
    M.QueryBack(name);
    M.SourceAckBack(name, client);
    M.RedirectBack(name, client);
    AllPass(udp, name, m, q, client, found, s, nonCachable, ttl, now);
    AllPass(udp, name, M.ReadMessage(M.Redirect(m, q, client)).value.0, q, client, found, s, nonCachable, ttl, now);
    MessagePasses(udp, name, m, S.WriteQuestion(q), s, nonCachable, ttl, now);
  }

  lemma AllPass(udp: Bytes, name: Bytes, m: M.Envelope, q: S.Question, client: uint32, found: bool, s: CacheState,
                nonCachable: bool, ttl: uint8, now: uint64)
    requires |udp| == UDP_SIZE && M.Sendable(name) && m.oicn == O.Named(name, O.NonCachable) && M.Writable(m, q)
    ensures Passes(udp + M.Ack(m, q, found), s, nonCachable, ttl, now)
    ensures Passes(udp + M.Redirect(m, q, client), s, nonCachable, ttl, now)
    ensures Passes(udp + M.SourceAck(m, q), s, nonCachable, ttl, now)
  {
    var question := S.WriteQuestion(q);
    MessagePasses(udp, name, M.Envelope(m.oicn, 0, Low16(D.Sum(M.AckCalls(m.flags, found))), m.counts), question,
                  s, nonCachable, ttl, now);
    MessagePasses(udp, name, M.Envelope(m.oicn, 0, Low16(D.Sum(M.RedirectCalls(m.flags))), m.counts.(an := 1)),
                  question + S.WriteAnswer(M.AnswerFor(q, client)), s, nonCachable, ttl, now);
    MessagePasses(udp, name, M.Envelope(m.oicn, 0, Low16(D.Sum(M.SourceAckCalls(m.flags))),
                                        D.Counts(m.counts.qd, 0, 0, 0)),
                  question, s, nonCachable, ttl, now);
  }

  // ----- A reply on its path -----

  /** A router on the path: its cache when the packet arrives, its setting, and the TTL and time of
      the arrival. */
  datatype Hop = Hop(cache: CacheState, nonCachable: bool, ttl: uint8, now: uint64)

  /** Whether the router at a hop would cache the reply if it saw it as cachable. */
  ghost predicate Accepts(hop: Hop, name: Bytes, data: Bytes) {
    P.SetEntry(hop.cache, name, data, hop.ttl, hop.now).cached
  }

  /** The packet after a path, each router sending on what its check returned. */
  ghost function PacketAfter(packet: Bytes, path: seq<Hop>): Bytes {
    if path == [] then packet
    else
      var hop := path[|path| - 1];
      SentOn(hop.cache, hop.nonCachable, PacketAfter(packet, path[..|path| - 1]), UDP, hop.ttl, hop.now)
  }

  /** Router `i` on the path caches the packet that reaches it. */
  ghost predicate CachedAt(path: seq<Hop>, packet: Bytes, i: nat)
    requires i < |path|
  {
    var hop := path[i];
    var caching := Caching(hop.cache, PacketAfter(packet, path[..i]), UDP, hop.ttl, hop.now);
    caching.Some? && caching.value.cached
  }

  /** The kind of a reply after a path. */
  ghost function KindAfter(path: seq<Hop>, name: Bytes, data: Bytes): O.Kind {
    if path == [] then O.Cachable
    else
      var k, hop := KindAfter(path[..|path| - 1], name, data), path[|path| - 1];
      if k == O.Cachable && Accepts(hop, name, data) then KindSet(hop.nonCachable) else k
  }

  /** Router `i` caches the packet and marks it. */
  ghost predicate MarkedAt(path: seq<Hop>, packet: Bytes, i: nat) {
    i < |path| && path[i].nonCachable && CachedAt(path, packet, i)
  }

  /** Along a path of any length and any mix of settings a reply keeps everything but its kind. */
  lemma {:induction false} ReplyAlong(udp: Bytes, name: Bytes, data: Bytes, path: seq<Hop>)
    requires FromSource(udp) && M.Sendable(name)
    ensures PacketAfter(Reply(udp, name, O.Cachable, data), path) == Reply(udp, name, KindAfter(path, name, data), data)
  {
    if path != [] {
      var front, hop := path[..|path| - 1], path[|path| - 1];
      ReplyAlong(udp, name, data, front);
      ReplySentOn(hop.cache, hop.nonCachable, udp, name, KindAfter(front, name, data), data, hop.ttl, hop.now);
    }
  }

  /** A router caches a reply exactly if it arrives cachable and the cache accepts it. */
  lemma CachedIfCachable(udp: Bytes, name: Bytes, data: Bytes, path: seq<Hop>, i: nat)
    requires FromSource(udp) && M.Sendable(name) && i < |path|
    ensures CachedAt(path, Reply(udp, name, O.Cachable, data), i)
       <==> KindAfter(path[..i], name, data) == O.Cachable && Accepts(path[i], name, data)
  {
    var hop := path[i];
    ReplyAlong(udp, name, data, path[..i]);
    ReplySentOn(hop.cache, hop.nonCachable, udp, name, KindAfter(path[..i], name, data), data, hop.ttl, hop.now);
  }

  ghost predicate NoneMarked(path: seq<Hop>, packet: Bytes, n: nat) {
    forall i: nat {:trigger MarkedAt(path, packet, i)} | i < n :: !MarkedAt(path, packet, i)
  }

  lemma NoneMarkedStep(path: seq<Hop>, packet: Bytes, n: nat)
    ensures NoneMarked(path, packet, n + 1) <==> NoneMarked(path, packet, n) && !MarkedAt(path, packet, n)
  {}

  /** A reply is still cachable exactly if no router that marks has cached it. */
  lemma {:induction false} CachableUntilMarked(udp: Bytes, name: Bytes, data: Bytes, path: seq<Hop>, n: nat)
    requires FromSource(udp) && M.Sendable(name) && n <= |path|
    ensures var k := KindAfter(path[..n], name, data);
            && (k == O.Cachable <==> NoneMarked(path, Reply(udp, name, O.Cachable, data), n))
            && (k == O.Cachable || k == O.NonCachable)
  {
    if n > 0 {
      var packet, before, hop := Reply(udp, name, O.Cachable, data), KindAfter(path[..n - 1], name, data), path[n - 1];
      CachableUntilMarked(udp, name, data, path, n - 1);
      NoneMarkedStep(path, packet, n - 1);
      assert MarkedAt(path, packet, n - 1) <==>
             hop.nonCachable && before == O.Cachable && Accepts(hop, name, data) by {
        CachedIfCachable(udp, name, data, path, n - 1);
      }
      KindStep(path, n, name, data);
    }
  }

  lemma KindStep(path: seq<Hop>, n: nat, name: Bytes, data: Bytes)
    requires 0 < n <= |path|
    ensures KindAfter(path[..n], name, data) ==
            var k, hop := KindAfter(path[..n - 1], name, data), path[n - 1];
            if k == O.Cachable && Accepts(hop, name, data) then KindSet(hop.nonCachable) else k
  {
    assert path[..n][..n - 1] == path[..n - 1];
  }

  /** Which routers cache a reply: those that accept it and have no router before them that has cached
      and marked it. */
  lemma CachedExactly(udp: Bytes, name: Bytes, data: Bytes, path: seq<Hop>, j: nat)
    requires FromSource(udp) && M.Sendable(name) && j < |path|
    ensures var packet := Reply(udp, name, O.Cachable, data);
            CachedAt(path, packet, j) <==>
            Accepts(path[j], name, data) && NoneMarked(path, packet, j)
  {
    CachedIfCachable(udp, name, data, path, j);
    CachableUntilMarked(udp, name, data, path, j);
  }

  /** If the routers on a path mark what they cache, no two of them cache the same reply, and it
      arrives marked exactly if one did. */
  lemma MarkingCachesOnce(udp: Bytes, name: Bytes, data: Bytes, path: seq<Hop>)
    requires FromSource(udp) && M.Sendable(name)
    requires forall i | 0 <= i < |path| :: path[i].nonCachable
    ensures var packet := Reply(udp, name, O.Cachable, data);
            && (forall i, j | 0 <= i < j < |path| :: !(CachedAt(path, packet, i) && CachedAt(path, packet, j)))
            && PacketAfter(packet, path) ==
               if exists i :: 0 <= i < |path| && CachedAt(path, packet, i) then Reply(udp, name, O.NonCachable, data)
               else packet
  {
    var packet := Reply(udp, name, O.Cachable, data);
    forall i, j | 0 <= i < j < |path|
      ensures !(CachedAt(path, packet, i) && CachedAt(path, packet, j))
    {
      CachedExactly(udp, name, data, path, j);
      assert CachedAt(path, packet, i) ==> MarkedAt(path, packet, i);
    }
    ReplyAlong(udp, name, data, path);
    CachableUntilMarked(udp, name, data, path, |path|);
    assert path[..|path|] == path;
    assert forall i: nat | i < |path| :: MarkedAt(path, packet, i) <==> CachedAt(path, packet, i);
  }

  /** If none marks, every router that accepts the reply caches it, and it arrives byte for byte. */
  lemma UnmarkedPath(udp: Bytes, name: Bytes, data: Bytes, path: seq<Hop>)
    requires FromSource(udp) && M.Sendable(name)
    requires forall i | 0 <= i < |path| :: !path[i].nonCachable
    ensures var packet := Reply(udp, name, O.Cachable, data);
            && (forall j | 0 <= j < |path| :: CachedAt(path, packet, j) <==> Accepts(path[j], name, data))
            && PacketAfter(packet, path) == packet
  {
    var packet := Reply(udp, name, O.Cachable, data);
    forall j | 0 <= j < |path|
      ensures CachedAt(path, packet, j) <==> Accepts(path[j], name, data)
    {
      CachedExactly(udp, name, data, path, j);
    }
    ReplyAlong(udp, name, data, path);
    CachableUntilMarked(udp, name, data, path, |path|);
    assert path[..|path|] == path;
  }
}
