/** TTLs in the network, and what they mean for the routers that value contents by distance. */
module HopLimits {
  import opened Basics
  import opened FragmentsOnPath
  import opened Ipv4Fragmentation
  import opened NamedContentCache
  import opened NameTables
  import opened Network
  import opened Redirects
  import opened ReplyFragments
  import Runs = CacheRuns
  import U = UniversalPolicy

  predicate Usual(h: Header) {
    1 <= h.ttl <= 64
  }

  /** Every packet somebody makes is sent with a TTL of 1 to 64. */
  ghost predicate UsualTtls(events: seq<Event>) {
    forall i | 0 <= i < |events| :: SentUsual(events[i])
  }

  predicate SentUsual(e: Event) {
    match e
    case Arrive(_, _, _, _) => true
    case Serve(_, _, _, header, _, _) => Usual(header)
    case Publish(_, _, header, _) => Usual(header)
    case Other(packet, _) => Usual(packet.header)
  }

  ghost predicate AllUsual(w: World) {
    forall p | p in w.packets :: Usual(p.packet.header)
  }

  /** Fragments take over the TTL. */
  lemma FragmentTtl(p: Parcel, mtu: uint32, q: Parcel)
    requires q in Sent(p, mtu)
    ensures q.packet.header.ttl == p.packet.header.ttl
  {
    var fs := Transmitted(p.packet, mtu);
    var i :| 0 <= i < |fs| && q == Parcel(fs[i], OriginOf(p.origin, Fits(p.packet, mtu), i, mtu));
    if !Fits(p.packet, mtu) {
      TransmittedPieces(p.packet, mtu);
      assert IsPiece(fs[i], p.packet.header, OriginalOffset(p.packet.header), p.packet.payload);
    }
  }

  lemma OutgoingUsual(w: World, contents: Contents, e: Event)
    requires Enabled(w, contents, e) && AllUsual(w) && SentUsual(e)
    ensures var out := Outgoing(w, contents, e); out.Some? ==> Usual(out.value.packet.header)
  {
    if e.Arrive? {
      var ttl := e.parcel.packet.header.ttl;
      U.TtlCountsHops(ttl, 1);
      assert U.AfterHops(ttl, 0) == Some(ttl);
    }
  }

  /** A router forwards every packet but those on their last hop, with one hop less and otherwise the header it
      came with. */
  lemma ForwardedOneLess(w: World, contents: Contents, e: Event)
    requires e.Arrive? && Enabled(w, contents, e) && e.parcel.packet.header.ttl > 0
    ensures var out, h := Outgoing(w, contents, e), e.parcel.packet.header;
            && (out.Some? <==> h.ttl > 1)
            && (out.Some? ==> out.value.packet.header == h.(ttl := h.ttl - 1) && out.value.origin == e.parcel.origin)
  {
    var ttl := e.parcel.packet.header.ttl;
    U.TtlCountsHops(ttl, 1);
    assert U.AfterHops(ttl, 0) == Some(ttl);
  }

  /** In every run in which packets are made with a TTL of 1 to 64, all packets have one. */
  lemma {:induction false} TtlsStayUsual(w: World, contents: Contents, events: seq<Event>)
    requires Initial(w) && UsualTtls(events)
    ensures AllUsual(Run(w, contents, events))
  {
    if events != [] {
      var front, last := events[..|events| - 1], events[|events| - 1];
      TtlsStayUsual(w, contents, front);
      var before := Run(w, contents, front);
      if Enabled(before, contents, last) {
        assert SentUsual(last);
        OutgoingUsual(before, contents, last);
        var out := Outgoing(before, contents, last);
        forall q | q in Step(before, contents, last).packets
          ensures Usual(q.packet.header)
        {
          if q !in before.packets {
            FragmentTtl(out.value, last.mtu, q);
          }
        }
      }
    }
  }

  ghost predicate StoresUsual(ops: seq<Runs.Op>) {
    forall i | 0 <= i < |ops| && ops[i].Store? :: 1 <= ops[i].ttl <= 64
  }

  lemma {:induction false} OpsUsual(w: World, contents: Contents, events: seq<Event>, a: Address)
    requires Initial(w) && UsualTtls(events)
    ensures StoresUsual(OpsAt(w, contents, events, a))
  {
    if events != [] {
      var front, last := events[..|events| - 1], events[|events| - 1];
      OpsUsual(w, contents, front, a);
      TtlsStayUsual(w, contents, front);
      var before := Run(w, contents, front);
      if Enabled(before, contents, last) && last.Arrive? {
        assert Usual(last.parcel.packet.header);
      }
    }
  }

  /** So in every such run, however many hops the replies have come, a Universal router whose contents are
      hit seldom enough keeps every index at most 30000 and never divides by zero. */
  lemma IndexesBoundedInNetwork(w: World, contents: Contents, events: seq<Event>, a: Address)
    requires Initial(w) && UsualTtls(events)
    requires a in w.routers && w.routers[a].cache.policy == Universal
    requires U.SeldomHit(OpsAt(w, contents, events, a))
    ensures a in Run(w, contents, events).routers
    ensures U.Bounded(Run(w, contents, events).routers[a].cache, U.MANY_HITS - 1)
  {
    var s := w.routers[a].cache;
    StartsEmpty(w, a);
    RouterRuns(w, contents, events, a);
    OpsUsual(w, contents, events, a);
    U.StoredIndexesBounded(s.capacity, s.freshness, OpsAt(w, contents, events, a));
  }
}
