/** What the network delivers: which cached copies and which replies are the server's content, and what
    becomes of a query. */
module ContentDelivery {
  import opened Basics
  import opened FragmentsOnPath
  import opened Ipv4Fragmentation
  import opened NamedContentCache
  import opened NameTables
  import opened Network
  import opened ReplyFragments
  import opened SublayerProtocol
  import M = Messages
  import O = OicnHeader
  import P = CacheProperties
  import Runs = CacheRuns
  import W = Wire

  // ----- Which copies and replies are complete -----

  /** What has been kept is the content, as far as a cache can hold it, exactly if the room was large
      enough, and all of it exactly if the content has no NUL and its whole reply fits every link on the
      way. */
  lemma KeptExactly(contents: Contents, o: Origin)
    requires WayTrue(contents, o)
    ensures Kept(contents, o.name, o.room) == W.CString(contents[o.name])
       <==> HeaderSize(o.name) + |W.CString(contents[o.name])| <= o.room
    ensures Kept(contents, o.name, o.room) == contents[o.name]
       <==> 0 !in contents[o.name] && AllFit(contents, o.name, o.links)
  {
    var c := contents[o.name];
    W.CStringExactly(c);
    if Kept(contents, o.name, o.room) == c {
      assert |c| <= |W.CString(c)|;
      assert W.CString(c) == c;
    }
  }

  /** In every reachable state, a cached copy is the server's content exactly if the content has no NUL and
      the whole reply fits every link its content has crossed, from the server and by way of other
      copies. */
  lemma CopyIsContentExactly(w: World, contents: Contents, events: seq<Event>, name: Name, a: Address)
    requires Initial(w) && ContentsSound(contents)
    requires Caches(Run(w, contents, events), name, a)
    ensures var v := Run(w, contents, events);
            && name in contents && (a, name) in v.origins && v.origins[(a, name)].ReplyFor?
            && (v.routers[a].cache.cache[name].data == contents[name]
                <==> 0 !in contents[name] && AllFit(contents, name, v.origins[(a, name)].links))
            && (v.routers[a].cache.cache[name].data == W.CString(contents[name])
                <==> HeaderSize(name) + |W.CString(contents[name])| <= v.origins[(a, name)].room)
  {
    RunKeeps(w, contents, events);
    var v := Run(w, contents, events);
    assert CopyTrue(v, contents, name, a);
    KeptExactly(contents, v.origins[(a, name)]);
  }

  /** Whatever starts a reply on the network is a reply with a front part of what the server sends, marked
      or not; it holds all of a content without NUL exactly if the whole reply fits every link on its
      way. */
  lemma ReplyIsContentExactly(w: World, contents: Contents, events: seq<Event>, p: Parcel)
    requires Initial(w) && ContentsSound(contents)
    requires p in Run(w, contents, events).packets && p.origin.ReplyFor?
    ensures var name := p.origin.name;
            && name in contents && M.Sendable(name)
            && (exists udp, k, d ::
                  FromSource(udp) && d <= W.CopyOf(contents[name]) && p.packet.payload == Reply(udp, name, k, d))
            && (0 !in contents[name] ==>
                  (AllFit(contents, name, p.origin.links) <==>
                   exists udp, k :: FromSource(udp) && p.packet.payload == Reply(udp, name, k, contents[name])))
  {
    RunKeeps(w, contents, events);
    assert Honest(p, contents);
    var udp, k, d :| Carries(p, contents, udp, k, d);
    var name := p.origin.name;
    if 0 !in contents[name] {
      ReplyLayout(udp, name, k, d);
      if AllFit(contents, name, p.origin.links) {
        UncutIsWhole(d, contents, p.origin);
        assert p.packet.payload == Reply(udp, name, k, contents[name]);
      }
      if other, j :| FromSource(other) && p.packet.payload == Reply(other, name, j, contents[name]) {
        ReplyLayout(other, name, j, contents[name]);
        W.CStringExactly(contents[name]);
        assert d == contents[name];
        KeptExactly(contents, p.origin);
      }
    }
  }

  // ----- Which runs cut nothing -----

  /** The event puts a packet that starts a reply for `name` on a link that it does not fit, and whose
      fragments have room for the headers. */
  ghost predicate Cuts(w: World, contents: Contents, e: Event, name: Name) {
    Enabled(w, contents, e) &&
    var out := Outgoing(w, contents, e);
    && out.Some? && ComesFrom(out.value, name)
    && !Fits(out.value.packet, e.mtu) && HeaderSize(name) <= FragmentSize(e.mtu)
  }

  predicate ComesFrom(p: Parcel, name: Name) {
    p.origin.ReplyFor? && p.origin.name == name
  }

  /** No event of a run does. */
  ghost predicate NeverCut(w: World, contents: Contents, events: seq<Event>, name: Name) {
    events != [] ==>
      var front := events[..|events| - 1];
      NeverCut(w, contents, front, name) && !Cuts(Run(w, contents, front), contents, events[|events| - 1], name)
  }

  ghost predicate RepliesUncut(w: World, name: Name) {
    forall p | p in w.packets && ComesFrom(p, name) :: p.origin.room == UNCUT
  }

  ghost predicate CopiesUncut(w: World, name: Name) {
    forall a: Address | Caches(w, name, a) ::
      (a, name) in w.origins && w.origins[(a, name)].ReplyFor? && w.origins[(a, name)].room == UNCUT
  }

  lemma SentRoom(p: Parcel, mtu: uint32, name: Name, q: Parcel)
    requires CanSend(p.packet, mtu) && ComesFrom(q, name) && q in Sent(p, mtu)
    ensures ComesFrom(p, name)
    ensures !(Fits(p.packet, mtu) || FragmentSize(mtu) < HeaderSize(name)) ==> q.origin.room < UNCUT
    ensures Fits(p.packet, mtu) ==> q.origin.room == p.origin.room
    ensures !Fits(p.packet, mtu) ==> HeaderSize(name) <= FragmentSize(mtu)
  {
    var fs := Transmitted(p.packet, mtu);
    var i :| 0 <= i < |fs| && q == Parcel(fs[i], OriginOf(p.origin, Fits(p.packet, mtu), i, mtu));
    if !Fits(p.packet, mtu) {
      FirstIsFull(p.packet, mtu);
    }
  }

  lemma CutIsSent(p: Parcel, mtu: uint32, name: Name) returns (q: Parcel)
    requires CanSend(p.packet, mtu) && ComesFrom(p, name)
    requires !Fits(p.packet, mtu) && HeaderSize(name) <= FragmentSize(mtu)
    ensures q in Sent(p, mtu) && ComesFrom(q, name) && q.origin.room < UNCUT
  {
    TransmittedPieces(p.packet, mtu);
    FirstIsFull(p.packet, mtu);
    q := Parcel(Transmitted(p.packet, mtu)[0], OriginOf(p.origin, false, 0, mtu));
  }

  /** What is sent for a name is as uncut as what is there for it. */
  lemma OutgoingUncut(w: World, contents: Contents, e: Event, name: Name)
    requires Enabled(w, contents, e) && Inv(w, contents) && RepliesUncut(w, name) && CopiesUncut(w, name)
    ensures var out := Outgoing(w, contents, e);
            out.Some? && ComesFrom(out.value, name) ==> out.value.origin.room == UNCUT
  {
    if e.Serve? {
      assert CopyTrue(w, contents, e.name, e.at);
    }
  }

  lemma ReplyCanSend(p: Parcel, contents: Contents, mtu: uint32)
    requires Honest(p, contents) && p.origin.ReplyFor? && mtu >= 28
    ensures CanSend(p.packet, mtu)
  {
    var udp, k, d :| Carries(p, contents, udp, k, d);
    ReplyLayout(udp, p.origin.name, k, d);
  }

  lemma RepliesStep(w: World, contents: Contents, e: Event, name: Name)
    requires Enabled(w, contents, e) && Inv(w, contents) && ContentsSound(contents)
    requires RepliesUncut(w, name) && CopiesUncut(w, name)
    ensures RepliesUncut(Step(w, contents, e), name) <==> !Cuts(w, contents, e, name)
  {
    var out, v := Outgoing(w, contents, e), Step(w, contents, e);
    OutgoingUncut(w, contents, e, name);
    OutgoingHonest(w, contents, e);
    if Cuts(w, contents, e, name) {
      ReplyCanSend(out.value, contents, e.mtu);
      var q := CutIsSent(out.value, e.mtu, name);
      assert q in v.packets;
    } else {
      forall q | q in v.packets && ComesFrom(q, name)
        ensures q.origin.room == UNCUT
      {
        if q !in w.packets {
          SentRoom(out.value, e.mtu, name, q);
        }
      }
    }
  }

  lemma CopiesStep(w: World, contents: Contents, e: Event, name: Name)
    requires Enabled(w, contents, e) && Inv(w, contents)
    requires RepliesUncut(w, name) && CopiesUncut(w, name)
    ensures CopiesUncut(Step(w, contents, e), name)
  {
    var u, v := TablesAfter(w, contents, e), Step(w, contents, e);
    if e.Arrive? {
      CheckedUncut(w, contents, e.at, e.parcel, e.now, name);
    } else if e.Serve? {
      ServedUncut(w, e.name, e.at, e.now, name);
    }
    forall a: Address | Caches(v, name, a)
      ensures (a, name) in v.origins && v.origins[(a, name)].ReplyFor? && v.origins[(a, name)].room == UNCUT
    {
      assert Caches(u, name, a);
    }
  }

  lemma ServedUncut(w: World, served: Name, a: Address, now: uint64, name: Name)
    requires CachesSound(w) && Caches(w, served, a) && CopiesUncut(w, name)
    ensures CopiesUncut(w.(routers := w.routers[a := w.routers[a].(cache := Touched(w.routers[a].cache, served, now))]),
                        name)
  {
    var t := Touched(w.routers[a].cache, served, now);
    TouchKeepsNames(w.routers[a].cache, served, now);
    assert name in t.cache <==> name in t.cache.Keys;
    var v := w.(routers := w.routers[a := w.routers[a].(cache := t)]);
    assert forall b: Address :: Caches(v, name, b) ==> Caches(w, name, b);
  }

  lemma CheckedUncut(w: World, contents: Contents, a: Address, parcel: Parcel, now: uint64, name: Name)
    requires a in w.routers && parcel in w.packets && Inv(w, contents) && RepliesUncut(w, name) && CopiesUncut(w, name)
    ensures CopiesUncut(Checked(w, a, parcel, now), name)
  {
    assert Honest(parcel, contents);
    if parcel.origin.Elsewhere? {
      OtherArrives(w.routers[a], parcel, contents, 0, now);
    } else {
      var udp, k, d :| Carries(parcel, contents, udp, k, d);
      FrontArrives(w.routers[a], parcel, contents, 0, now, udp, k, d);
      if k == O.Cachable {
        StoredUncut(w, a, d, parcel.packet.header.ttl, now, parcel.origin, name);
      }
    }
  }

  lemma StoredUncut(w: World, a: Address, d: Bytes, ttl: uint8, now: uint64, o: Origin, name: Name)
    requires a in w.routers && CachesSound(w) && CopiesUncut(w, name)
    requires o.ReplyFor? && (o.name == name ==> o.room == UNCUT)
    ensures CopiesUncut(Stored(w, a, o.name, P.SetEntry(w.routers[a].cache, o.name, d, ttl, now), o), name)
  {
    var s := w.routers[a].cache;
    Runs.SetEntries(s, o.name, d, ttl, now);
    RefusedUnchanged(s, o.name, d, ttl, now);
    var v := Stored(w, a, o.name, P.SetEntry(s, o.name, d, ttl, now), o);
    forall b: Address | Caches(v, name, b)
      ensures (b, name) in v.origins && v.origins[(b, name)].ReplyFor? && v.origins[(b, name)].room == UNCUT
    {
      if b != a || o.name != name {
        assert Caches(w, name, b);
      }
    }
  }

  /** No packet of a run that starts a reply for a name has been cut if and only if no event has put such a
      packet on a link that it does not fit, unless its fragments have no room for the headers; and then no
      copy has been cut either. */
  lemma {:induction false} NothingCutExactly(w: World, contents: Contents, events: seq<Event>, name: Name)
    requires Initial(w) && ContentsSound(contents)
    ensures RepliesUncut(Run(w, contents, events), name) <==> NeverCut(w, contents, events, name)
    ensures NeverCut(w, contents, events, name) ==> CopiesUncut(Run(w, contents, events), name)
  {
    if events != [] {
      var front, last := events[..|events| - 1], events[|events| - 1];
      NothingCutExactly(w, contents, front, name);
      RunKeeps(w, contents, front);
      var before := Run(w, contents, front);
      if Enabled(before, contents, last) {
        if NeverCut(w, contents, front, name) {
          RepliesStep(before, contents, last, name);
          CopiesStep(before, contents, last, name);
        } else {
          assert before.packets <= Step(before, contents, last).packets;
        }
      }
    }
  }
}
