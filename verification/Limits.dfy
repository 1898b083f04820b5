/** Runs of the network that go wrong: the conditions of the theorems about copies and redirects are
    needed. */
module Limits {
  import opened Basics
  import opened FragmentsOnPath
  import opened Ipv4Fragmentation
  import opened NamedContentCache
  import opened NameTables
  import opened Network
  import opened Redirects
  import opened ReplyFragments
  import opened SublayerProtocol
  import CD = ContentDelivery
  import K = CacheCapacity
  import M = Messages
  import O = OicnHeader
  import P = CacheProperties
  import R = IcnRouter
  import RO = RecencyOrder
  import Runs = CacheRuns
  import W = Wire

  // ----- A first fragment is cached as the content -----

  /** A server's reply is split, and its first fragment reaches a router: the router caches as much of the
      content as came with it, and the directory lists the router for the name. */
  lemma FirstFragmentIsCached(w: World, contents: Contents, name: Name, a: Address, udp: Bytes, header: Header,
                              mtu: uint32, now: uint64)
    requires Initial(w) && ContentsSound(contents) && a in w.routers && name in contents
    requires FromSource(udp) && StartsDatagram(header)
    requires mtu >= 28 && HeaderSize(name) <= FragmentSize(mtu) && WholeSize(contents, name) > mtu
    ensures M.Sendable(name) && CanSend(ServerParcel(contents, name, udp, header).packet, mtu)
    ensures var p := ServerParcel(contents, name, udp, header).packet;
            && Transmitted(p, mtu) != []
            && var first := Parcel(Transmitted(p, mtu)[0], ReplyFor(name, [mtu], FragmentSize(mtu)));
               var v := Run(w, contents, [Publish(name, udp, header, mtu), Arrive(a, first, mtu, now)]);
               && Caches(v, name, a) && v.directory[(name, a)] == 1
               && v.routers[a].cache.cache[name].data == Kept(contents, name, FragmentSize(mtu))
               && v.routers[a].cache.cache[name].data != contents[name]
  {
    var c, size := W.CopyOf(contents[name]), FragmentSize(mtu);
    var parcel := ServerParcel(contents, name, udp, header);
    ReplyLayout(udp, name, O.Cachable, c);
    TransmittedPieces(parcel.packet, mtu);
    FragmentSizeFits(mtu);
    PieceIsPart(parcel.packet, mtu, 0);
    FirstIsFull(parcel.packet, mtu);
    var first := Parcel(Transmitted(parcel.packet, mtu)[0], ReplyFor(name, [mtu], size));
    assert [] + [mtu] == [mtu] && size < UNCUT;
    assert first == Parcel(Transmitted(parcel.packet, mtu)[0], OriginOf(parcel.origin, false, 0, mtu));
    FirstPartIsReply(udp, name, O.Cachable, c, size);
    ReplyBack(udp, name, O.Cachable, c[..size - HeaderSize(name)]);
    ArrivesFirst(w, contents, Publish(name, udp, header, mtu), a, first, mtu, now, name, c[..size - HeaderSize(name)]);
    var events := [Publish(name, udp, header, mtu), Arrive(a, first, mtu, now)];
    CD.CopyIsContentExactly(w, contents, events, name, a);
    RunKeeps(w, contents, events);
    assert CopyTrue(Run(w, contents, events), contents, name, a);
  }

  /** The first reply to reach a router is cached. */
  lemma ArrivesFirst(w: World, contents: Contents, sending: Event, a: Address, parcel: Parcel, mtu: uint32, now: uint64,
                     name: Name, d: Bytes)
    requires Initial(w) && a in w.routers && mtu >= 28
    requires sending.Publish? && Enabled(w, contents, sending) && parcel in Step(w, contents, sending).packets
    requires ReadReply(parcel.packet.payload, parcel.packet.header.id.protocol) == Some((O.Named(name, O.Cachable), d))
    ensures var v := Run(w, contents, [sending, Arrive(a, parcel, mtu, now)]);
            Caches(v, name, a) && (a, name) in v.origins && v.origins[(a, name)] == parcel.origin
            && v.directory[(name, a)] == 1
  {
    var events := [sending, Arrive(a, parcel, mtu, now)];
    assert events[..1] == [sending] && events[..1][..0] == [];
    var u := Step(w, contents, sending);
    assert Run(w, contents, [sending]) == u;
    var v := Run(w, contents, events);
    FirstIsStored(w.routers[a].cache, name, d, parcel.packet.header.ttl, now);
    assert v.routers[a].cache == P.SetEntry(w.routers[a].cache, name, d, parcel.packet.header.ttl, now).state;
  }

  lemma FirstIsStored(s: CacheState, name: Name, d: Bytes, ttl: uint8, now: uint64)
    requires s.cache == map[] && s.capacity >= 1
    ensures var r := P.SetEntry(s, name, d, ttl, now);
            r.cached && r.added && r.removed == None && name in r.state.cache
  {
    K.InsertedSize(s, name, NewEntry(s.policy, d, ttl, now), K.IndexOfNew(s, d, ttl, now));
  }

  // ----- A redirect that comes too late -----

  /** A whole reply for `name` from its server over wide links to router `a`. */
  function Delivery(contents: Contents, name: Name, a: Address, udp: Bytes, header: Header, mtu: uint32,
                    now: uint64): seq<Event>
    requires name in contents && M.Sendable(name)
  {
    var parcel := ServerParcel(contents, name, udp, header);
    [Publish(name, udp, header, mtu), Arrive(a, parcel.(origin := ReplyFor(name, [mtu], UNCUT)), mtu, now)]
  }

  /** It is one store in the router's cache. */
  lemma DeliveryStores(w: World, contents: Contents, events: seq<Event>, name: Name, a: Address, udp: Bytes,
                       header: Header, mtu: uint32, now: uint64)
    requires a in w.routers && name in contents && Servable(contents, name)
    requires FromSource(udp) && StartsDatagram(header) && mtu >= 28
    requires WholeSize(contents, name) <= mtu
    ensures OpsAt(w, contents, events + Delivery(contents, name, a, udp, header, mtu, now), a) ==
            OpsAt(w, contents, events, a) + [Runs.Store(name, W.CopyOf(contents[name]), header.ttl, now)]
  {
    var parcel := ServerParcel(contents, name, udp, header);
    var two := Delivery(contents, name, a, udp, header, mtu, now);
    var one := events + [two[0]];
    assert events + two == one + [two[1]];
    assert one[..|events|] == events && (one + [two[1]])[..|one|] == one;
    ReplyLayout(udp, name, O.Cachable, W.CopyOf(contents[name]));
    TransmittedPieces(parcel.packet, mtu);
    assert Transmitted(parcel.packet, mtu)[0] == parcel.packet;
    assert OriginOf(parcel.origin, true, 0, mtu) == ReplyFor(name, [mtu], UNCUT);
    assert two[1].parcel in Sent(parcel, mtu);
    var u := Run(w, contents, events);
    assert Run(w, contents, one) == Step(u, contents, two[0]);
    RouterRuns(w, contents, one, a);
    ReplyBack(udp, name, O.Cachable, W.CopyOf(contents[name]));
    assert OpsAt(w, contents, one, a) == OpsAt(w, contents, events, a);
  }

  /** In an LRU cache of size 1 one other reply displaces what is there. */
  lemma OtherDisplaces(w: World, contents: Contents, name: Name, other: Name, a: Address, udp: Bytes, header: Header,
                       mtu: uint32, early: uint64, late: uint64)
    requires Initial(w) && ContentsSound(contents) && name in contents && other in contents && name != other
    requires a in w.routers && w.routers[a].cache.policy == Lru && w.routers[a].cache.capacity == 1
    requires FromSource(udp) && StartsDatagram(header) && mtu >= 28 && early <= late
    requires WholeSize(contents, name) <= mtu
    requires WholeSize(contents, other) <= mtu
    ensures var before := Delivery(contents, name, a, udp, header, mtu, early);
            && Caches(Run(w, contents, before), name, a)
            && !Caches(Run(w, contents, before + Delivery(contents, other, a, udp, header, mtu, late)), name, a)
  {
    var before, more := Delivery(contents, name, a, udp, header, mtu, early),
                        Delivery(contents, other, a, udp, header, mtu, late);
    DeliveryStores(w, contents, [], name, a, udp, header, mtu, early);
    DeliveryStores(w, contents, before, other, a, udp, header, mtu, late);
    assert [] + before == before;
    var one, two := OpsAt(w, contents, before, a), OpsAt(w, contents, before + more, a);
    TwoStores(one, two, name, other);
    RecencyDecides(w, contents, before, name, a);
    RecencyDecides(w, contents, before + more, name, a);
  }

  lemma TwoStores(one: seq<Runs.Op>, two: seq<Runs.Op>, name: Name, other: Name)
    requires |one| == 1 && |two| == 2 && two[0] == one[0] && one[0].Store? && two[1].Store?
    requires one[0].name == name != two[1].name == other && two[0].at <= two[1].at
    ensures InTime(one) && InTime(two)
    ensures RO.Touches(Lru, one) == [name] && RO.Touches(Lru, two) == [name, other]
    ensures RO.TouchedSince([name], name) == {} && RO.TouchedSince([name, other], name) == {other}
  {
    assert two[..1] == one && one[..0] == [];
    assert RO.Touches(Lru, []) == [];
    TouchedOnce(name, other);
  }

  lemma TouchedOnce(name: Name, other: Name)
    requires name != other
    ensures RO.TouchedSince([name], name) == {} && RO.TouchedSince([name, other], name) == {other}
  {
    var trace := [name, other];
    assert trace[..1] == [name];
    assert RO.LastAt(trace, name) == 0;
    assert trace[1] in RO.TouchedSince(trace, name);
  }

  /** Router `a` has an LRU cache of size 1 and caches `name`, so that the manager redirects a query for it
      there. Before the redirect arrives, one other reply does: the redirect finds nothing. */
  lemma RedirectComesTooLate(w: World, contents: Contents, name: Name, other: Name, a: Address, udp: Bytes,
                             header: Header, mtu: uint32, early: uint64, late: uint64, client: Address,
                             after: CacheState, sender: uint32, senderPort: uint16, now: uint64, served: R.Served)
    requires Initial(w) && ContentsSound(contents) && name in contents && other in contents && name != other
    requires a in w.routers && w.routers[a].cache.policy == Lru && w.routers[a].cache.capacity == 1
    requires FromSource(udp) && StartsDatagram(header) && mtu >= 28 && early <= late
    requires WholeSize(contents, name) <= mtu
    requires WholeSize(contents, other) <= mtu
    ensures M.Writable(M.QueryEnvelope(name), M.QuestionFor(name))
    ensures var before := Delivery(contents, name, a, udp, header, mtu, early);
            var u, v := Run(w, contents, before),
                        Run(w, contents, before + Delivery(contents, other, a, udp, header, mtu, late));
            && Caches(u, name, a) && u.directory[(name, a)] == 1
            && a in v.routers
            && (R.HandledRedirect(v.routers[a].cache, after,
                                  M.Redirect(M.QueryEnvelope(name), M.QuestionFor(name), client),
                                  sender, senderPort, now, served)
                ==> served.Missing?)
  {
    M.QueryBack(name);
    var before, more := Delivery(contents, name, a, udp, header, mtu, early),
                        Delivery(contents, other, a, udp, header, mtu, late);
    OtherDisplaces(w, contents, name, other, a, udp, header, mtu, early, late);
    RunKeeps(w, contents, before);
    RouterRuns(w, contents, before + more, a);
    var s := Run(w, contents, before + more).routers[a].cache;
    if R.HandledRedirect(s, after, M.Redirect(M.QueryEnvelope(name), M.QuestionFor(name), client),
                         sender, senderPort, now, served) {
      R.RedirectHandled(name, client, s, after, sender, senderPort, now, served);
    }
  }

  // ----- A later fragment is taken for a reply -----

  /** A datagram of another application that holds the bytes of a reply on an 8-byte boundary, with at least
      as much before them: it is not taken for a reply itself, but its second fragment is, and is cached as
      the content of a name that no server has sent. */
  lemma LaterFragmentIsCached(p: Packet, front: Bytes, udp: Bytes, inner: Name, d: Bytes, s: CacheState, now: uint64)
    requires M.Sendable(inner) && FromSource(udp) && p.payload == front + Reply(udp, inner, O.Cachable, d)
    requires |front| % 8 == 0 && HeaderSize(inner) + |d| <= |front| && W.ReadU16(front, 0) != SOURCE_PORT
    requires OriginalOffset(p.header) + |p.payload| < 0x1_0000
    ensures ReadReply(p.payload, UDP) == None
    ensures var mtu: uint32 := HEADER_SIZE + |front|;
            && CanSend(p, mtu) && |Transmitted(p, mtu)| > 1
            && Caching(s, Transmitted(p, mtu)[1].payload, UDP, p.header.ttl, now) ==
               Some(P.SetEntry(s, inner, d, p.header.ttl, now))
  {
    ReplyLayout(udp, inner, O.Cachable, d);
    SecondFragment(p, |front|);
    assert p.payload[|front|..Reach(p.payload, |front|)] == Reply(udp, inner, O.Cachable, d);
    ReplyBack(udp, inner, O.Cachable, d);
    assert W.ReadU16(p.payload, 0) == W.ReadU16(front, 0);
  }
}
