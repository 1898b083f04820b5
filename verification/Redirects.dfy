/** Redirects: what a query leads to, how long the router redirected to keeps the content, and when the
    redirect comes too late. */
module Redirects {
  import opened Basics
  import opened NamedContentCache
  import opened NameTables
  import opened Network
  import opened ReplyFragments
  import opened SublayerProtocol
  import CD = ContentDelivery
  import D = DnsPlusHeader
  import I = IcnManager
  import K = CacheCapacity
  import M = Messages
  import O = OicnHeader
  import P = CacheProperties
  import R = IcnRouter
  import RO = RecencyOrder
  import Runs = CacheRuns
  import S = DnsPlusSections

  // ----- From the query to the content -----

  /** A router the manager picks for a name holds it, with as much of the server's content as has been
      left of it: in any reachable state, for any order of the directory's pairs. */
  lemma RedirectFindsContent(w: World, contents: Contents, events: seq<Event>, routers: seq<(Name, Address)>,
                             servers: seq<(Name, Address)>, name: Name, a: Address)
    requires Initial(w) && ContentsSound(contents)
    requires multiset(routers) == Run(w, contents, events).directory
    requires Lists(routers, name) && I.IsSource(routers, servers, name, a)
    ensures var v := Run(w, contents, events);
            && Caches(v, name, a) && Servable(contents, name)
            && CopyTrue(v, contents, name, a)
  {
    RunKeeps(w, contents, events);
    var v := Run(w, contents, events);
    assert (name, a) in multiset(routers);
    assert v.directory[(name, a)] == if Caches(v, name, a) then 1 else 0;
  }

  /** The client is told RCODE 6 about its own question, and a redirect for it goes to `a`, port 89. */
  ghost predicate Redirected(name: Name, client: Address, clientPort: uint16, sent: seq<I.Sent>, a: Address)
    requires M.Sendable(name) && M.Writable(M.QueryEnvelope(name), M.QuestionFor(name))
  {
    && |sent| == 2 && Told(name, client, clientPort, sent[0], 0x6006)
    && sent[1] == I.Sent(a, 89, M.Redirect(M.QueryEnvelope(name), M.QuestionFor(name), client))
  }

  /** The client is told RCODE 7. */
  ghost predicate Unresolved(name: Name, client: Address, clientPort: uint16, sent: seq<I.Sent>)
    requires M.Sendable(name)
  {
    |sent| == 1 && Told(name, client, clientPort, sent[0], 0x6007)
  }

  /** An acknowledgement of the client's question with flag word `flags`. */
  ghost predicate Told(name: Name, client: Address, clientPort: uint16, ack: I.Sent, flags: uint16)
    requires M.Sendable(name)
  {
    var read := M.ReadMessage(ack.payload);
    && ack.address == client && ack.port == clientPort
    && read.Some? && read.value.0 == M.Envelope(M.QueryOicn(name), 0, flags, D.Counts(1, 0, 0, 0))
    && S.ReadQuestion(read.value.1) == Some((S.Question(2, name, |name|, 1, 1), []))
  }

  /** What the manager does with a client's query in any reachable state: it redirects it to a router that
      caches the name if there is one, else to a server the name is registered for if there is one, and else
      tells the client that there is none. */
  lemma QueryOutcome(w: World, contents: Contents, events: seq<Event>, routers: seq<(Name, Address)>,
                     servers: seq<(Name, Address)>, name: Name, client: Address, clientPort: uint16,
                     sent: seq<I.Sent>)
    requires Initial(w) && ContentsSound(contents) && M.Sendable(name) && name != []
    requires multiset(routers) == Run(w, contents, events).directory
    ensures M.Writable(M.QueryEnvelope(name), M.QuestionFor(name))
    ensures I.HandledQuery(routers, servers, M.Query(name), client, clientPort, sent) ==>
              var v := Run(w, contents, events);
              if exists a :: Caches(v, name, a) then
                exists a :: Caches(v, name, a) && Redirected(name, client, clientPort, sent, a)
              else if exists a :: (name, a) in servers then
                exists a :: (name, a) in servers && Redirected(name, client, clientPort, sent, a)
              else Unresolved(name, client, clientPort, sent)
  {
    I.QueryHandled(name, routers, servers, client, clientPort, sent);
    ListedIfCached(w, contents, events, routers, name);
    if I.HandledQuery(routers, servers, M.Query(name), client, clientPort, sent) {
      if Lists(routers, name) {
        var a := AnsweredIsRedirected(routers, servers, name, client, clientPort, sent);
        RedirectFindsContent(w, contents, events, routers, servers, name, a);
      } else if Lists(servers, name) {
        var a := AnsweredIsRedirected(routers, servers, name, client, clientPort, sent);
      } else {
        assert forall a :: (name, a) !in servers;
        M.AckBack(name, false);
      }
    }
  }

  lemma ListedIfCached(w: World, contents: Contents, events: seq<Event>, routers: seq<(Name, Address)>, name: Name)
    requires Initial(w) && ContentsSound(contents) && multiset(routers) == Run(w, contents, events).directory
    ensures Lists(routers, name) <==> exists a :: Caches(Run(w, contents, events), name, a)
  {
    RunKeeps(w, contents, events);
    var v := Run(w, contents, events);
    if Lists(routers, name) {
      var i :| 0 <= i < |routers| && routers[i].0 == name;
      assert routers[i] in multiset(routers) && routers[i] == (name, routers[i].1);
      assert v.directory[(name, routers[i].1)] == if Caches(v, name, routers[i].1) then 1 else 0;
    }
    if a: Address :| Caches(v, name, a) {
      assert v.directory[(name, a)] == 1;
      assert (name, a) in multiset(routers);
      var i :| 0 <= i < |routers| && routers[i] == (name, a);
    }
  }

  lemma AnsweredIsRedirected(routers: seq<(Name, Address)>, servers: seq<(Name, Address)>, name: Name, client: Address,
                             clientPort: uint16, sent: seq<I.Sent>) returns (a: Address)
    requires M.Sendable(name) && M.Writable(M.QueryEnvelope(name), M.QuestionFor(name))
    requires Lists(routers, name) || Lists(servers, name)
    requires I.Answered(routers, servers, M.QueryEnvelope(name), M.QuestionFor(name), client, clientPort, sent)
    ensures I.IsSource(routers, servers, name, a) && Redirected(name, client, clientPort, sent, a)
  {
    var m, q := M.QueryEnvelope(name), M.QuestionFor(name);
    a :| I.IsSource(routers, servers, name, a) &&
         sent == [I.Sent(client, clientPort, M.Ack(m, q, true)), I.Sent(a, I.SOURCE_PORT, M.Redirect(m, q, client))];
    M.AckBack(name, true);
  }

  /** What the router does with that redirect in any reachable state in which it still caches the name:
      it sends the client the content, as much of it as has been left. This is the network's Serve event:
      the cache is touched, and the packet behind the UDP header is the reply. */
  lemma RedirectIsServed(w: World, contents: Contents, events: seq<Event>, name: Name, a: Address, client: Address,
                         after: CacheState, sender: uint32, senderPort: uint16, now: uint64, served: R.Served)
    requires Initial(w) && ContentsSound(contents) && Caches(Run(w, contents, events), name, a)
    ensures M.Sendable(name) && M.Writable(M.QueryEnvelope(name), M.QuestionFor(name))
    ensures var v := Run(w, contents, events);
            && CopyTrue(v, contents, name, a)
            && (R.HandledRedirect(v.routers[a].cache, after,
                                  M.Redirect(M.QueryEnvelope(name), M.QuestionFor(name), client),
                                  sender, senderPort, now, served) ==>
                  && R.Serves(v.routers[a].cache, after, name, client, sender, senderPort, now, served)
                  && served.sent[1].payload == R.Content(name, Kept(contents, name, v.origins[(a, name)].room))
                  && (served.sent[1].payload == R.Content(name, contents[name])
                      <==> 0 !in contents[name] && AllFit(contents, name, v.origins[(a, name)].links))
                  && after == Touched(v.routers[a].cache, name, now)
                  && forall udp :: udp + served.sent[1].payload ==
                                   Reply(udp, name, O.Cachable, v.routers[a].cache.cache[name].data))
  {
    RunKeeps(w, contents, events);
    var v := Run(w, contents, events);
    assert CopyTrue(v, contents, name, a);
    R.RedirectHandled(name, client, v.routers[a].cache, after, sender, senderPort, now, served);
    CD.KeptExactly(contents, v.origins[(a, name)]);
    ContentSplits(name, Kept(contents, name, v.origins[(a, name)].room), contents[name]);
  }

  lemma ContentSplits(name: Name, c: Bytes, d: Bytes)
    requires |name| + 4 < 0x1_0000_0000
    ensures R.Content(name, c) == R.Content(name, d) <==> c == d
  {
    var header := O.Write(O.Named(name, O.Cachable));
    assert (header + c)[|header|..] == c && (header + d)[|header|..] == d;
  }

  // ----- One router's run -----

  /** What an event does to the cache of router `a`. */
  ghost function OpsOf(w: World, contents: Contents, e: Event, a: Address): seq<Runs.Op>
    requires Enabled(w, contents, e)
  {
    match e
    case Arrive(at, parcel, _, now) =>
      (match ReadReply(parcel.packet.payload, parcel.packet.header.id.protocol)
       case None => []
       case Some((h, data)) => if at == a then [Runs.Store(h.name, data, parcel.packet.header.ttl, now)] else [])
    case Serve(at, name, _, _, _, now) => if at == a then [Runs.Hit(name, now)] else []
    case Publish(_, _, _, _) => []
    case Other(_, _) => []
  }

  /** The operations of a run on the cache of router `a`. */
  ghost function OpsAt(w: World, contents: Contents, events: seq<Event>, a: Address): seq<Runs.Op> {
    if events == [] then []
    else
      var front, last := events[..|events| - 1], events[|events| - 1];
      var before := Run(w, contents, front);
      OpsAt(w, contents, front, a) + if Enabled(before, contents, last) then OpsOf(before, contents, last, a) else []
  }

  lemma StepApplies(w: World, contents: Contents, e: Event, a: Address)
    requires Enabled(w, contents, e) && a in w.routers
    ensures a in Step(w, contents, e).routers
    ensures Step(w, contents, e).routers[a].cache == Runs.Run(w.routers[a].cache, OpsOf(w, contents, e, a))
  {
    var s, ops := w.routers[a].cache, OpsOf(w, contents, e, a);
    if ops != [] {
      assert ops[..0] == [];
      assert Runs.Run(s, ops) == Runs.Apply(s, ops[0]);
    }
  }

  lemma {:induction false} RunAppends(s: CacheState, a: seq<Runs.Op>, b: seq<Runs.Op>)
    ensures Runs.Run(s, a + b) == Runs.Run(Runs.Run(s, a), b)
  {
    if b == [] {
      assert a + b == a;
    } else {
      assert (a + b)[..|a + b| - 1] == a + b[..|b| - 1];
      RunAppends(s, a, b[..|b| - 1]);
    }
  }

  /** In the network each router's cache goes through a run of its own, so that all that holds of runs of a
      cache holds of it. */
  lemma {:induction false} RouterRuns(w: World, contents: Contents, events: seq<Event>, a: Address)
    requires a in w.routers
    ensures a in Run(w, contents, events).routers
    ensures Run(w, contents, events).routers[a].cache == Runs.Run(w.routers[a].cache, OpsAt(w, contents, events, a))
  {
    if events != [] {
      var front, last := events[..|events| - 1], events[|events| - 1];
      RouterRuns(w, contents, front, a);
      var before := Run(w, contents, front);
      if Enabled(before, contents, last) {
        StepApplies(before, contents, last, a);
        RunAppends(w.routers[a].cache, OpsAt(w, contents, front, a), OpsOf(before, contents, last, a));
      } else {
        assert OpsAt(w, contents, front, a) + [] == OpsAt(w, contents, front, a);
      }
    }
  }

  /** The clock of a router never goes back. */
  ghost predicate InTime(ops: seq<Runs.Op>) {
    forall i, j | 0 <= i < j < |ops| :: ops[i].at <= ops[j].at
  }

  lemma InTimeFront(ops: seq<Runs.Op>, op: Runs.Op)
    requires InTime(ops + [op])
    ensures InTime(ops) && (ops != [] ==> ops[|ops| - 1].at <= op.at)
  {
    var all := ops + [op];
    assert forall i | 0 <= i < |ops| :: all[i] == ops[i];
    assert all[|ops|] == op;
  }

  lemma LegalAppends(s: CacheState, ops: seq<Runs.Op>, op: Runs.Op)
    requires Runs.Legal(s, ops) && InTime(ops + [op])
    requires op.Hit? ==> op.name in Runs.Run(s, ops).cache
    ensures Runs.Legal(s, ops + [op])
  {
    InTimeFront(ops, op);
    assert (ops + [op])[..|ops|] == ops;
  }

  /** A router is only made to look up names it caches. */
  lemma {:induction false} OpsLegal(w: World, contents: Contents, events: seq<Event>, a: Address)
    requires a in w.routers && InTime(OpsAt(w, contents, events, a))
    ensures Runs.Legal(w.routers[a].cache, OpsAt(w, contents, events, a))
  {
    if events != [] {
      var front, last := events[..|events| - 1], events[|events| - 1];
      var ops, before := OpsAt(w, contents, front, a), Run(w, contents, front);
      var more := if Enabled(before, contents, last) then OpsOf(before, contents, last, a) else [];
      assert OpsAt(w, contents, events, a) == ops + more;
      RouterRuns(w, contents, front, a);
      if more == [] {
        assert ops + more == ops;
        OpsLegal(w, contents, front, a);
      } else {
        assert more == [more[0]];
        InTimeFront(ops, more[0]);
        OpsLegal(w, contents, front, a);
        LegalAppends(w.routers[a].cache, ops, more[0]);
      }
    }
  }

  lemma StartsEmpty(w: World, a: Address)
    requires Initial(w) && a in w.routers
    ensures var s := w.routers[a].cache; s == Runs.Empty(s.policy, s.capacity, s.freshness)
  {}

  // ----- How long the content stays -----

  /** The event takes `name` out of the cache of router `a`: a cachable reply for another, new name comes
      to the full cache, and `name` is next to go. */
  ghost predicate Displaces(w: World, e: Event, name: Name, a: Address)
    requires Caches(w, name, a)
  {
    && e.Arrive? && e.at == a
    && var read, s := ReadReply(e.parcel.packet.payload, e.parcel.packet.header.id.protocol), w.routers[a].cache;
       && read.Some? && read.value.0.name !in s.cache && |s.cache| >= s.capacity && K.NextOut(s, name, e.now)
  }

  lemma ServedStays(w: World, contents: Contents, e: Event, name: Name, a: Address)
    requires e.Serve? && Enabled(w, contents, e) && CachesSound(w) && Caches(w, name, a)
    ensures Caches(Step(w, contents, e), name, a)
  {
    if e.at == a {
      TouchKeepsNames(w.routers[a].cache, e.name, e.now);
      assert name in Touched(w.routers[a].cache, e.name, e.now).cache.Keys;
    }
  }

  lemma DisplacedOnArrival(w: World, contents: Contents, e: Event, name: Name, a: Address)
    requires e.Arrive? && Enabled(w, contents, e) && CachesSound(w) && Caches(w, name, a)
    ensures Caches(Step(w, contents, e), name, a) <==> !Displaces(w, e, name, a)
  {
    var p := e.parcel.packet;
    var read := ReadReply(p.payload, p.header.id.protocol);
    if e.at == a && read.Some? {
      var r := P.SetEntry(w.routers[a].cache, read.value.0.name, read.value.1, p.header.ttl, e.now);
      K.LeavesExactly(w.routers[a].cache, read.value.0.name, read.value.1, p.header.ttl, e.now, name);
      assert Step(w, contents, e).routers[a].cache == r.state;
    }
  }

  /** Exactly when a cached name is gone after an event. */
  lemma LeavesOnlyDisplaced(w: World, contents: Contents, e: Event, name: Name, a: Address)
    requires Enabled(w, contents, e) && CachesSound(w) && Caches(w, name, a)
    ensures Caches(Step(w, contents, e), name, a) <==> !Displaces(w, e, name, a)
  {
    if e.Arrive? {
      DisplacedOnArrival(w, contents, e, name, a);
    } else if e.Serve? {
      ServedStays(w, contents, e, name, a);
    }
  }

  /** A redirect to an LRU or FIFO router finds its content exactly if the name has been stored there (or,
      for LRU, served) and fewer than `capacity` other names have been since. */
  lemma RecencyDecides(w: World, contents: Contents, events: seq<Event>, name: Name, a: Address)
    requires Initial(w) && a in w.routers && !w.routers[a].cache.policy.Selective()
    requires InTime(OpsAt(w, contents, events, a))
    ensures var trace := RO.Touches(w.routers[a].cache.policy, OpsAt(w, contents, events, a));
            Caches(Run(w, contents, events), name, a) <==>
            name in trace && |RO.TouchedSince(trace, name)| < w.routers[a].cache.capacity
  {
    var s, ops := w.routers[a].cache, OpsAt(w, contents, events, a);
    StartsEmpty(w, a);
    RouterRuns(w, contents, events, a);
    OpsLegal(w, contents, events, a);
    RO.CachedExactly(s.policy, s.capacity, s.freshness, ops, name);
  }

  lemma {:induction false} OpsExtend(w: World, contents: Contents, before: seq<Event>, after: seq<Event>, a: Address)
    ensures OpsAt(w, contents, before, a) <= OpsAt(w, contents, before + after, a)
  {
    if after == [] {
      assert before + after == before;
    } else {
      var all := before + after;
      assert all[..|all| - 1] == before + after[..|after| - 1];
      OpsExtend(w, contents, before, after[..|after| - 1], a);
    }
  }

  /** A redirect to an LFU or Universal router finds its content, whatever the traffic, if it comes within
      the freshness time of the copy's timestamp when the redirect was issued. */
  lemma FreshnessProtects(w: World, contents: Contents, before: seq<Event>, after: seq<Event>, name: Name, a: Address)
    requires Initial(w) && Caches(Run(w, contents, before), name, a)
    requires a in w.routers && w.routers[a].cache.policy.Selective()
    requires InTime(OpsAt(w, contents, before + after, a))
    requires var ops := OpsAt(w, contents, before + after, a);
             var copy := Run(w, contents, before).routers[a].cache.cache[name];
             forall i | |OpsAt(w, contents, before, a)| <= i < |ops| ::
               ops[i].at < copy.timestamp + w.routers[a].cache.freshness
    ensures Caches(Run(w, contents, before + after), name, a)
  {
    var s := w.routers[a].cache;
    var early, ops := OpsAt(w, contents, before, a), OpsAt(w, contents, before + after, a);
    OpsExtend(w, contents, before, after, a);
    var late := ops[|early|..];
    assert ops == early + late;
    StartsEmpty(w, a);
    RouterRuns(w, contents, before, a);
    RouterRuns(w, contents, before + after, a);
    OpsLegal(w, contents, before + after, a);
    K.KeptWhileFresh(s.policy, s.capacity, s.freshness, early, late, name);
  }
}
