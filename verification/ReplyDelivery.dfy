/** A reply from its source to the client: split, checked by every router on the way, split again, and put
    together at the end. */
module ReplyDelivery {
  import opened Basics
  import opened FragmentsOnPath
  import opened Ipv4Fragmentation
  import opened Ipv4Router
  import opened ReplyFragments
  import opened SublayerProtocol
  import D = DatagramDelivery
  import M = Messages
  import O = OicnHeader
  import W = Wire

  /** A router on the way and the link it sends on. Only the first fragment of a reply can be cached there:
      `hop` is the router as that fragment finds it. */
  datatype Stop = Stop(hop: Hop, mtu: uint32)

  /** A packet as the check returns it. */
  ghost function Returned(f: Packet, hop: Hop): Packet {
    Packet(f.header, SentOn(hop.cache, hop.nonCachable, f.payload, f.header.id.protocol, hop.ttl, hop.now))
  }

  /** The fragments as the check returns them. */
  ghost function AllReturned(fs: seq<Packet>, hop: Hop): (gs: seq<Packet>)
    ensures |gs| == |fs| && forall i | 0 <= i < |fs| :: gs[i] == Returned(fs[i], hop)
  {
    seq(|fs|, i requires 0 <= i < |fs| => Returned(fs[i], hop))
  }

  lemma ReturnedSize(f: Packet, hop: Hop)
    ensures |Returned(f, hop).payload| == |f.payload|
  {
    if ReadReply(f.payload, f.header.id.protocol).Some? {
      ReadParts(f.payload, f.header.id.protocol);
    }
  }

  lemma ReturnedWithin(fs: seq<Packet>, hop: Hop, size: nat)
    requires Within(fs, size)
    ensures Within(AllReturned(fs, hop), size)
  {
    forall i | 0 <= i < |fs|
      ensures End(AllReturned(fs, hop)[i]) <= size
    {
      ReturnedSize(fs[i], hop);
    }
  }

  // ----- One router -----

  /** What becomes of the kind of a reply at a router whose first fragment has `n` bytes. */
  ghost function KindReturned(name: Bytes, k: O.Kind, d: Bytes, n: nat, hop: Hop): O.Kind {
    if k == O.Cachable && HeaderSize(name) <= n <= HeaderSize(name) + |d|
       && Accepts(hop, name, d[..n - HeaderSize(name)])
    then KindSet(hop.nonCachable) else k
  }

  /** The first fragment returned is the first one of the reply of another kind, or of the same. */
  lemma FirstReturned(f: Packet, hop: Hop, h: Header, udp: Bytes, name: Bytes, k: O.Kind, d: Bytes)
    requires FromSource(udp) && M.Sendable(name) && NoReplyIn(d, HeaderSize(name)) && h.id.protocol == UDP
    requires IsPiece(f, h, 0, Reply(udp, name, k, d)) && f.header.offset == 0
    ensures var n := |f.payload|;
            var j := KindReturned(name, k, d, n, hop);
            n <= |Reply(udp, name, j, d)| && Returned(f, hop).payload == Reply(udp, name, j, d)[..n]
  {
    var n, packet := |f.payload|, Reply(udp, name, k, d);
    ReplyLayout(udp, name, k, d);
    ReplyLayout(udp, name, KindReturned(name, k, d, n, hop), d);
    assert f.payload == packet[0..n];
    if n < HeaderSize(name) {
      LaterPart(udp, name, k, d, 0, n);
    } else {
      assert packet[0..n] == packet[..n];
      FrontReturned(f, hop, udp, name, k, d, n);
    }
  }

  lemma FrontReturned(f: Packet, hop: Hop, udp: Bytes, name: Bytes, k: O.Kind, d: Bytes, n: nat)
    requires FromSource(udp) && M.Sendable(name) && f.header.id.protocol == UDP
    requires HeaderSize(name) <= n <= HeaderSize(name) + |d|
    requires n <= |Reply(udp, name, k, d)| && f.payload == Reply(udp, name, k, d)[..n]
    ensures var j := KindReturned(name, k, d, n, hop);
            n <= |Reply(udp, name, j, d)| && Returned(f, hop).payload == Reply(udp, name, j, d)[..n]
  {
    var front, j := d[..n - HeaderSize(name)], KindReturned(name, k, d, n, hop);
    FirstPartIsReply(udp, name, k, d, n);
    FirstPartIsReply(udp, name, j, d, n);
    ReplySentOn(hop.cache, hop.nonCachable, udp, name, k, front, hop.ttl, hop.now);
  }

  /** A later fragment is returned as it came, and is one of the reply of the other kind as well. */
  lemma LaterReturned(f: Packet, hop: Hop, h: Header, udp: Bytes, name: Bytes, j: O.Kind, k: O.Kind, d: Bytes, n: nat)
    requires FromSource(udp) && M.Sendable(name) && NoReplyIn(d, HeaderSize(name)) && h.id.protocol == UDP
    requires IsPiece(f, h, 0, Reply(udp, name, k, d)) && f.header.offset % 8 == 0 && f.header.offset > 0
    requires n <= f.header.offset && (n < HeaderSize(name) ==> j == k)
    ensures Returned(f, hop) == f && IsPiece(f, h, 0, Reply(udp, name, j, d))
  {
    var x, y := f.header.offset, End(f);
    ReplyLayout(udp, name, k, d);
    ReplyLayout(udp, name, j, d);
    LaterPart(udp, name, k, d, x, y);
    if n >= HeaderSize(name) {
      BehindHeaders(udp, name, j, d, x, y);
      BehindHeaders(udp, name, k, d, x, y);
    }
  }

  lemma BehindHeaders(udp: Bytes, name: Bytes, k: O.Kind, d: Bytes, x: nat, y: nat)
    requires FromSource(udp) && M.Sendable(name) && HeaderSize(name) <= x <= y <= HeaderSize(name) + |d|
    ensures |Reply(udp, name, k, d)| == HeaderSize(name) + |d|
    ensures Reply(udp, name, k, d)[x..y] == d[x - HeaderSize(name)..y - HeaderSize(name)]
  {
    ReplyLayout(udp, name, k, d);
    var packet, n := Reply(udp, name, k, d), HeaderSize(name);
    assert packet[n..][x - n..y - n] == packet[x..y];
  }

  /** A router leaves the fragments of a reply the fragments of that reply, with its kind as the router sets
      it. */
  lemma ReturnedTiles(fs: seq<Packet>, hop: Hop, h: Header, udp: Bytes, name: Bytes, k: O.Kind, d: Bytes)
    requires FromSource(udp) && M.Sendable(name) && NoReplyIn(d, HeaderSize(name)) && h.id.protocol == UDP
    requires Tiles(fs, h, 0, Reply(udp, name, k, d), false) && Aligned(fs)
    ensures var j := KindReturned(name, k, d, |fs[0].payload|, hop);
            Tiles(AllReturned(fs, hop), h, 0, Reply(udp, name, j, d), false)
    ensures Aligned(AllReturned(fs, hop))
  {
    var gs, n := AllReturned(fs, hop), |fs[0].payload|;
    var j := KindReturned(name, k, d, n, hop);
    ReplyLayout(udp, name, k, d);
    ReplyLayout(udp, name, j, d);
    forall i | 0 <= i < |fs|
      ensures IsPiece(gs[i], h, 0, Reply(udp, name, j, d)) && End(gs[i]) == End(fs[i])
    {
      assert IsPiece(fs[i], h, 0, Reply(udp, name, k, d));
      if i == 0 {
        FirstReturned(fs[0], hop, h, udp, name, k, d);
        assert Reply(udp, name, j, d)[0..n] == Reply(udp, name, j, d)[..n];
      } else {
        TileOrder(fs, 0, i);
        assert IsPiece(fs[0], h, 0, Reply(udp, name, k, d));
        LaterReturned(fs[i], hop, h, udp, name, j, k, d, n);
      }
    }
    forall i, l | 0 <= i && l == i + 1 && l < |gs|
      ensures gs[l].header.offset == End(gs[i])
    {
      assert fs[l].header.offset == End(fs[i]);
    }
  }

  // ----- All routers -----

  ghost predicate Way(stops: seq<Stop>) {
    forall i | 0 <= i < |stops| :: stops[i].mtu >= 28
  }

  /** The fragments that reach the client. */
  ghost function Through(fs: seq<Packet>, stops: seq<Stop>): (gs: seq<Packet>)
    requires Way(stops) && Within(fs, 0xFFFF)
    ensures Within(gs, 0xFFFF)
  {
    if stops == [] then fs
    else
      var stop := stops[|stops| - 1];
      var here := AllReturned(Through(fs, stops[..|stops| - 1]), stop.hop);
      ReturnedWithin(Through(fs, stops[..|stops| - 1]), stop.hop, 0xFFFF);
      CrossedFits(here, stop.mtu, 0xFFFF);
      Crossed(here, stop.mtu)
  }

  /** At every link the fragment that ends the reply survives. */
  ghost predicate Survives(fs: seq<Packet>, stops: seq<Stop>)
    requires Way(stops) && Within(fs, 0xFFFF)
  {
    stops != [] ==>
      var front := stops[..|stops| - 1];
      Survives(fs, front) && LastSurvives(Through(fs, front), stops[|stops| - 1].mtu)
  }

  /** What reaches the client: the whole reply, of some kind, or nothing of its end. */
  ghost predicate Arrived(gs: seq<Packet>, whole: bool, h: Header, udp: Bytes, name: Bytes, d: Bytes)
    requires M.Sendable(name)
  {
    && gs != [] && Aligned(gs) && Within(gs, 0xFFFF)
    && if whole then exists k :: Tiles(gs, h, 0, Reply(udp, name, k, d), false)
       else Within(gs, HeaderSize(name) + |d| - 1)
  }

  lemma ReturnedLast(fs: seq<Packet>, hop: Hop, mtu: uint32)
    ensures LastSurvives(AllReturned(fs, hop), mtu) == LastSurvives(fs, mtu)
  {
    if fs != [] {
      ReturnedSize(fs[|fs| - 1], hop);
    }
  }

  lemma NextStop(gs: seq<Packet>, whole: bool, stop: Stop, h: Header, udp: Bytes, name: Bytes, d: Bytes)
    requires FromSource(udp) && M.Sendable(name) && NoReplyIn(d, HeaderSize(name)) && h.id.protocol == UDP
    requires HeaderSize(name) + |d| < 0x1_0000 && stop.mtu >= 28
    requires Arrived(gs, whole, h, udp, name, d)
    ensures Within(AllReturned(gs, stop.hop), 0xFFFF)
    ensures Arrived(Crossed(AllReturned(gs, stop.hop), stop.mtu), whole && LastSurvives(gs, stop.mtu), h, udp, name, d)
  {
    var here := AllReturned(gs, stop.hop);
    ReturnedWithin(gs, stop.hop, 0xFFFF);
    ReturnedLast(gs, stop.hop, stop.mtu);
    CrossedFits(here, stop.mtu, 0xFFFF);
    assert Aligned(here);
    CrossedAligned(here, stop.mtu, 0);
    CrossedNotEmpty(here, stop.mtu);
    if whole {
      var k :| Tiles(gs, h, 0, Reply(udp, name, k, d), false);
      WholeStop(gs, stop, h, udp, name, k, d);
    } else {
      ReturnedWithin(gs, stop.hop, HeaderSize(name) + |d| - 1);
      CrossedFits(here, stop.mtu, HeaderSize(name) + |d| - 1);
    }
  }

  lemma WholeStop(gs: seq<Packet>, stop: Stop, h: Header, udp: Bytes, name: Bytes, k: O.Kind, d: Bytes)
    requires FromSource(udp) && M.Sendable(name) && NoReplyIn(d, HeaderSize(name)) && h.id.protocol == UDP
    requires HeaderSize(name) + |d| < 0x1_0000 && stop.mtu >= 28
    requires Tiles(gs, h, 0, Reply(udp, name, k, d), false) && Aligned(gs) && Within(AllReturned(gs, stop.hop), 0xFFFF)
    ensures var all := Crossed(AllReturned(gs, stop.hop), stop.mtu);
            if LastSurvives(AllReturned(gs, stop.hop), stop.mtu) then
              exists j :: Tiles(all, h, 0, Reply(udp, name, j, d), false)
            else Within(all, HeaderSize(name) + |d| - 1)
  {
    var here, j := AllReturned(gs, stop.hop), KindReturned(name, k, d, |gs[0].payload|, stop.hop);
    ReturnedTiles(gs, stop.hop, h, udp, name, k, d);
    ReplyLayout(udp, name, j, d);
    if LastSurvives(here, stop.mtu) {
      CrossedTiles(here, stop.mtu, 0, h, 0, Reply(udp, name, j, d), false);
    } else {
      BrokenWithin(here, stop.mtu, h, Reply(udp, name, j, d));
    }
  }

  lemma {:induction false} ThroughAll(fs: seq<Packet>, stops: seq<Stop>, h: Header, udp: Bytes, name: Bytes, d: Bytes)
    requires FromSource(udp) && M.Sendable(name) && NoReplyIn(d, HeaderSize(name)) && h.id.protocol == UDP
    requires HeaderSize(name) + |d| < 0x1_0000 && Way(stops)
    requires Arrived(fs, true, h, udp, name, d)
    ensures Arrived(Through(fs, stops), Survives(fs, stops), h, udp, name, d)
  {
    if stops != [] {
      var front, stop := stops[..|stops| - 1], stops[|stops| - 1];
      ThroughAll(fs, front, h, udp, name, d);
      NextStop(Through(fs, front), Survives(fs, front), stop, h, udp, name, d);
    }
  }

  // ----- The client -----

  /** Every fragment is delivered, the last missing one last. */
  ghost predicate Completes(gs: seq<Packet>, order: seq<nat>) {
    order != [] && D.InRange(order, |gs|) && D.All(order, |gs|) && !D.All(order[..|order| - 1], |gs|)
  }

  /** Reassembly has returned the reply, of some kind. */
  ghost predicate Received(results: seq<Option<Bytes>>, udp: Bytes, name: Bytes, d: Bytes)
    requires M.Sendable(name)
  {
    exists k :: Some(Reply(udp, name, k, d)) in results
  }

  /** It has done so with the last of `n` arrivals, and returned nothing before. */
  ghost predicate ReceivedLast(results: seq<Option<Bytes>>, n: nat, udp: Bytes, name: Bytes, d: Bytes)
    requires M.Sendable(name)
  {
    n > 0 && exists k :: results == D.Nothing(n - 1) + [Some(Reply(udp, name, k, d))]
  }

  lemma WholeArrives(b: Buffers, events: seq<D.Event>, gs: seq<Packet>, h: Header, udp: Bytes, name: Bytes, d: Bytes,
                     order: seq<nat>)
    requires M.Sendable(name) && FromSource(udp) && HeaderSize(name) + |d| < 0x1_0000
    requires Arrived(gs, true, h, udp, name, d) && KeyOf(h.id) !in b
    requires Completes(gs, order) && D.Only(events, h.id) == D.Deliveries(gs, order)
    ensures ReceivedLast(D.Results(b, events, h.id), |order|, udp, name, d)
    ensures Received(D.Results(b, events, h.id), udp, name, d)
  {
    var k :| Tiles(gs, h, 0, Reply(udp, name, k, d), false);
    ReplyLayout(udp, name, k, d);
    D.Reassembles(b, events, gs, h, Reply(udp, name, k, d), order);
    LastIn(D.Nothing(|order| - 1), Some(Reply(udp, name, k, d)));
  }

  lemma LastIn<T>(l: seq<T>, x: T)
    ensures x in l + [x]
  {
    assert (l + [x])[|l|] == x;
  }

  lemma EndNeverArrives(b: Buffers, events: seq<D.Event>, gs: seq<Packet>, h: Header, udp: Bytes, name: Bytes, d: Bytes,
                        order: seq<nat>)
    requires M.Sendable(name) && FromSource(udp) && HeaderSize(name) + |d| < 0x1_0000
    requires Arrived(gs, false, h, udp, name, d) && KeyOf(h.id) !in b
    requires D.InRange(order, |gs|) && D.Only(events, h.id) == D.Deliveries(gs, order)
    ensures !Received(D.Results(b, events, h.id), udp, name, d)
  {
    var m := HeaderSize(name) + |d| - 1;
    forall i | 0 <= i < |events| && events[i].Arrival? && events[i].Id() == h.id
      ensures End(events[i].fragment) <= m
    {
      D.OnlyHolds(events, h.id, i);
      var j :| 0 <= j < |order| && D.Deliveries(gs, order)[j] == events[i];
      assert events[i].fragment == gs[order[j]];
    }
    D.ResultsShort(b, events, h.id, m);
    forall k
      ensures Some(Reply(udp, name, k, d)) !in D.Results(b, events, h.id)
    {
      ReplyLayout(udp, name, k, d);
    }
  }

  lemma SentArrives(sent: seq<Packet>, stops: seq<Stop>, h: Header, udp: Bytes, name: Bytes, d: Bytes, mtu: uint32)
    requires FromSource(udp) && M.Sendable(name) && NoReplyIn(d, HeaderSize(name)) && h.id.protocol == UDP
    requires HeaderSize(name) + |d| < 0x1_0000 && Way(stops) && !h.more && Within(sent, 0xFFFF)
    requires IsFragmentation(sent, Packet(h, Reply(udp, name, O.Cachable, d)), mtu)
    ensures Arrived(Through(sent, stops), Survives(sent, stops), h, udp, name, d)
  {
    SentIsAligned(sent, Packet(h, Reply(udp, name, O.Cachable, d)), mtu);
    assert Arrived(sent, true, h, udp, name, d);
    ThroughAll(sent, stops, h, udp, name, d);
  }

  /** A reply as its source makes it is split there and goes through any row of routers, each with its own
      cache, setting and link. When all that is left of it has arrived, in any order with any duplicates among
      any other traffic, the client has the reply, whole and of some kind, if and only if its last fragment
      survived every link. */
  lemma ClientGetsReply(b: Buffers, events: seq<D.Event>, h: Header, udp: Bytes, name: Bytes, content: Bytes,
                        mtu: uint32, sent: seq<Packet>, stops: seq<Stop>, order: seq<nat>)
    requires FromSource(udp) && M.Sendable(name) && h.id.protocol == UDP && !h.more
    requires HeaderSize(name) + |content| < 0x1_0000 && Way(stops) && Within(sent, 0xFFFF)
    requires IsFragmentation(sent, Packet(h, Reply(udp, name, O.Cachable, W.CopyOf(content))), mtu)
    requires KeyOf(h.id) !in b && Completes(Through(sent, stops), order)
    requires D.Only(events, h.id) == D.Deliveries(Through(sent, stops), order)
    ensures var results := D.Results(b, events, h.id);
            && (Survives(sent, stops) <==> Received(results, udp, name, W.CopyOf(content)))
            && (Survives(sent, stops) ==> ReceivedLast(results, |order|, udp, name, W.CopyOf(content)))
  {
    CopyHasNoReply(content, HeaderSize(name));
    SentArrives(sent, stops, h, udp, name, W.CopyOf(content), mtu);
    if Survives(sent, stops) {
      WholeArrives(b, events, Through(sent, stops), h, udp, name, W.CopyOf(content), order);
    } else {
      EndNeverArrives(b, events, Through(sent, stops), h, udp, name, W.CopyOf(content), order);
    }
  }
}
