/** All routers, the directory and the packets on the network together: what every reachable state
    keeps, whatever the number of routers, their policies, the links and the interleaving of events. */
module Network {
  import opened Basics
  import opened Ipv4Fragmentation
  import opened NamedContentCache
  import opened NameTables
  import opened ReplyFragments
  import opened SublayerProtocol
  import C = CacheManager
  import K = CacheCapacity
  import M = Messages
  import O = OicnHeader
  import P = CacheProperties
  import Runs = CacheRuns
  import U = UniversalPolicy
  import W = Wire

  datatype Router = Router(cache: CacheState, nonCachable: bool)

  /** `packets` have been sent; any of them may arrive anywhere, any number of times or never. `origins`
      records for each cached copy the origin of the packet it was stored from. */
  datatype World = World(routers: map<Address, Router>, directory: C.Directory, packets: set<Parcel>,
                         origins: map<(Address, Name), Origin>)

  /** Whatever is sent goes over a link with MTU `mtu`, in fragments if it does not fit. */
  datatype Event =
    // Router `at` receives a packet or fragment, checks it and forwards it.
    | Arrive(at: Address, parcel: Parcel, mtu: uint32, now: uint64)
    // Router `at` is redirected to and serves a content it holds.
    | Serve(at: Address, name: Name, udp: Bytes, header: Header, mtu: uint32, now: uint64)
    // A server sends its content.
    | Publish(name: Name, udp: Bytes, header: Header, mtu: uint32)
    // Somebody sends a packet or fragment that neither reads as a cachable reply nor has a fragment that does.
    | Other(packet: Packet, mtu: uint32)

  /** The IP header of a new UDP datagram. */
  predicate StartsDatagram(h: Header) {
    h.offset == 0 && !h.more && h.id.protocol == 17
  }

  /** Which events can happen. With an MTU below 28 the splitter may never end. */
  ghost predicate Enabled(w: World, contents: Contents, e: Event) {
    && e.mtu >= 28
    && match e
       case Arrive(at, parcel, _, _) => at in w.routers && parcel in w.packets
       case Serve(at, name, udp, header, _, _) =>
         Caches(w, name, at) && FromSource(udp) && M.Sendable(name) && StartsDatagram(header)
       case Publish(name, udp, header, _) =>
         name in contents && FromSource(udp) && M.Sendable(name) && StartsDatagram(header)
       case Other(packet, _) => Honest(Parcel(packet, Elsewhere), map[])
  }

  predicate Caches(w: World, name: Name, a: Address) {
    a in w.routers && name in w.routers[a].cache.cache
  }

  /** What the check does to the tables when router `a` receives a packet. */
  ghost function Checked(w: World, a: Address, parcel: Parcel, now: uint64): World
    requires a in w.routers
  {
    var router, h := w.routers[a], parcel.packet.header;
    match ReadReply(parcel.packet.payload, h.id.protocol)
    case None => w
    case Some((oicn, data)) => Stored(w, a, oicn.name, P.SetEntry(router.cache, oicn.name, data, h.ttl, now),
                                      parcel.origin)
  }

  ghost function Stored(w: World, a: Address, name: Name, r: P.SetResult, origin: Origin): World
    requires a in w.routers
  {
    w.(routers := w.routers[a := w.routers[a].(cache := r.state)],
       directory := C.DirectoryAfter(w.directory, a, name, r),
       origins := if r.cached then w.origins[(a, name) := origin] else w.origins)
  }

  /** What the check returned, with `ttl` hops to live. */
  ghost function Returned(router: Router, parcel: Parcel, ttl: uint8, now: uint64): Parcel {
    var p := parcel.packet;
    var out := SentOn(router.cache, router.nonCachable, p.payload, p.header.id.protocol, p.header.ttl, now);
    Parcel(Packet(p.header.(ttl := ttl), out), parcel.origin)
  }

  function ReplyParcel(name: Name, udp: Bytes, header: Header, data: Bytes, origin: Origin): Parcel
    requires M.Sendable(name)
  {
    Parcel(Packet(header, Reply(udp, name, O.Cachable, data)), origin)
  }

  /** The reply as it leaves the server: the content copied as a string into a zeroed buffer. */
  function ServerParcel(contents: Contents, name: Name, udp: Bytes, header: Header): Parcel
    requires name in contents && M.Sendable(name)
  {
    ReplyParcel(name, udp, header, W.CopyOf(contents[name]), ReplyFor(name, [], UNCUT))
  }

  /** What an event does to the tables. */
  ghost function TablesAfter(w: World, contents: Contents, e: Event): World
    requires Enabled(w, contents, e)
  {
    match e
    case Arrive(at, parcel, _, now) => Checked(w, at, parcel, now)
    case Serve(at, name, _, _, _, now) =>
      var router := w.routers[at];
      w.(routers := w.routers[at := router.(cache := Touched(router.cache, name, now))])
    case Publish(_, _, _, _) => w
    case Other(_, _) => w
  }

  /** The packet an event puts on a link, if any: a forwarding router drops what has no hops left. */
  ghost function Outgoing(w: World, contents: Contents, e: Event): Option<Parcel>
    requires Enabled(w, contents, e)
  {
    match e
    case Arrive(at, parcel, _, now) =>
      (match U.Forwarded(parcel.packet.header.ttl)
       case None => None
       case Some(ttl) => Some(Returned(w.routers[at], parcel, ttl, now)))
    case Serve(at, name, udp, header, _, _) =>
      var origin := if (at, name) in w.origins then w.origins[(at, name)] else Elsewhere;
      Some(ReplyParcel(name, udp, header, w.routers[at].cache.cache[name].data, origin))
    case Publish(name, udp, header, _) => Some(ServerParcel(contents, name, udp, header))
    case Other(packet, _) => Some(Parcel(packet, Elsewhere))
  }

  ghost function Step(w: World, contents: Contents, e: Event): World
    requires Enabled(w, contents, e)
  {
    var out := Outgoing(w, contents, e);
    TablesAfter(w, contents, e).(packets := w.packets + if out.Some? then Sent(out.value, e.mtu) else {})
  }

  /** The state after a run; an event that cannot happen changes nothing. */
  ghost function Run(w: World, contents: Contents, events: seq<Event>): World {
    if events == [] then w
    else
      var before, last := Run(w, contents, events[..|events| - 1]), events[|events| - 1];
      if Enabled(before, contents, last) then Step(before, contents, last) else before
  }

  // ----- Invariants -----

  /** Every router's cache is consistent, can hold something, and holds no empty name. */
  ghost predicate CachesSound(w: World) {
    forall a | a in w.routers ::
      Consistent(w.routers[a].cache) && w.routers[a].cache.capacity >= 1 && [] !in w.routers[a].cache.cache
  }

  /** The directory lists a router for a name once if that router caches the name, and not at all
      otherwise. */
  ghost predicate DirectoryExact(w: World) {
    forall name, a :: w.directory[(name, a)] == if Caches(w, name, a) then 1 else 0
  }

  /** A cached copy is what its way has left of the server's content. */
  ghost predicate CopyTrue(w: World, contents: Contents, name: Name, a: Address)
    requires Caches(w, name, a)
  {
    && (a, name) in w.origins
    && var o := w.origins[(a, name)];
       && WayTrue(contents, o) && o.name == name
       && w.routers[a].cache.cache[name].data == Kept(contents, name, o.room)
  }

  ghost predicate CopiesTrue(w: World, contents: Contents) {
    forall a, n | Caches(w, n, a) :: CopyTrue(w, contents, n, a)
  }

  ghost predicate PacketsHonest(w: World, contents: Contents) {
    forall p | p in w.packets :: Honest(p, contents)
  }

  ghost predicate Inv(w: World, contents: Contents) {
    CachesSound(w) && DirectoryExact(w) && CopiesTrue(w, contents) && PacketsHonest(w, contents)
  }

  /** Routers of any policies, sizes and settings, all empty, and nothing sent yet. */
  ghost predicate Initial(w: World) {
    && (forall a | a in w.routers :: w.routers[a].cache.cache == map[] && w.routers[a].cache.rows == []
                                     && w.routers[a].cache.capacity >= 1)
    && w.directory == multiset{} && w.packets == {}
  }

  // ----- The directory -----

  /** How a result of SetEntry relates the names cached before and after to what it tells the
      directory: the removed name leaves the cache (the empty name stands for none). */
  ghost predicate TellsDirectory(s: CacheState, name: Name, r: P.SetResult) {
    && (r.added <==> name !in s.cache && r.cached)
    && (r.removed.Some? ==> r.removed.value != name && (r.removed.value in s.cache || r.removed.value == []))
    && r.state.cache.Keys ==
       s.cache.Keys - (if r.removed.Some? then {r.removed.value} else {}) + (if r.cached then {name} else {})
    && r.state.capacity == s.capacity
  }

  lemma SetTellsDirectory(s: CacheState, name: Name, data: Bytes, ttl: uint8, now: uint64)
    requires Consistent(s) && s.capacity >= 1 && [] !in s.cache && name != []
    ensures TellsDirectory(s, name, P.SetEntry(s, name, data, ttl, now))
  {
    P.RowsCountEntries(s);
    var e, index := NewEntry(s.policy, data, ttl, now), K.IndexOfNew(s, data, ttl, now);
    if name in s.cache {
      RefreshTellsDirectory(s, name, e, index);
    } else if |s.cache| < s.capacity {
      InsertionTellsDirectory(s, name, e, index);
    } else if Evictable(s, index, now) {
      EvictionTellsDirectory(s, name, e, index, now);
    }
  }

  lemma RefreshTellsDirectory(s: CacheState, name: Name, e: Entry, index: uint32)
    requires Consistent(s) && name in s.cache
    ensures TellsDirectory(s, name, P.SetResult(Inserted(RemoveName(s, name), name, e, index), true, None, false))
  {}

  lemma InsertionTellsDirectory(s: CacheState, name: Name, e: Entry, index: uint32)
    requires name !in s.cache
    ensures TellsDirectory(s, name, P.SetResult(Inserted(s, name, e, index), true, None, true))
  {}

  lemma EvictionTellsDirectory(s: CacheState, name: Name, e: Entry, index: uint32, now: uint64)
    requires Consistent(s) && [] !in s.cache && name !in s.cache && name != []
    ensures var (t, victim) := Evicted(s, now);
            TellsDirectory(s, name, P.SetResult(Inserted(t, name, e, index), true, Some(victim), true))
  {}

  /** The three tables stay in step over one SetEntry, on all its paths. */
  lemma SetKeepsDirectory(w: World, a: Address, name: Name, data: Bytes, ttl: uint8, now: uint64)
    requires a in w.routers && CachesSound(w) && DirectoryExact(w) && name != []
    ensures var r := P.SetEntry(w.routers[a].cache, name, data, ttl, now);
            var v := w.(routers := w.routers[a := w.routers[a].(cache := r.state)],
                        directory := C.DirectoryAfter(w.directory, a, name, r));
            CachesSound(v) && DirectoryExact(v)
  {
    var s := w.routers[a].cache;
    var r := P.SetEntry(s, name, data, ttl, now);
    SetTellsDirectory(s, name, data, ttl, now);
    P.SetConsistent(s, name, data, ttl, now);
    DirectoryFollows(w, a, name, r);
    CachesStaySound(w, a, name, r);
  }

  lemma CachesStaySound(w: World, a: Address, name: Name, r: P.SetResult)
    requires a in w.routers && CachesSound(w) && name != []
    requires TellsDirectory(w.routers[a].cache, name, r) && Consistent(r.state)
    ensures CachesSound(w.(routers := w.routers[a := w.routers[a].(cache := r.state)],
                           directory := C.DirectoryAfter(w.directory, a, name, r)))
  {}

  lemma DirectoryFollows(w: World, a: Address, name: Name, r: P.SetResult)
    requires a in w.routers && CachesSound(w) && DirectoryExact(w)
    requires TellsDirectory(w.routers[a].cache, name, r)
    ensures DirectoryExact(w.(routers := w.routers[a := w.routers[a].(cache := r.state)],
                              directory := C.DirectoryAfter(w.directory, a, name, r)))
  {
    var v := w.(routers := w.routers[a := w.routers[a].(cache := r.state)],
                directory := C.DirectoryAfter(w.directory, a, name, r));
    forall n, b
      ensures v.directory[(n, b)] == if Caches(v, n, b) then 1 else 0
    {
      DirectoryCell(w, a, name, r, n, b);
    }
  }

  lemma DirectoryCell(w: World, a: Address, name: Name, r: P.SetResult, n: Name, b: Address)
    requires a in w.routers && CachesSound(w) && DirectoryExact(w)
    requires TellsDirectory(w.routers[a].cache, name, r)
    ensures C.DirectoryAfter(w.directory, a, name, r)[(n, b)] ==
            if (if b == a then n in r.state.cache else Caches(w, n, b)) then 1 else 0
  {}

  lemma TouchKeepsNames(s: CacheState, name: Name, now: uint64)
    requires Consistent(s) && name in s.cache
    ensures Touched(s, name, now).cache.Keys == s.cache.Keys
    ensures Touched(s, name, now).capacity == s.capacity
    ensures forall n | n in s.cache :: Touched(s, name, now).cache[n].data == s.cache[n].data
  {
    var e := Bumped(s.policy, s.cache[name], now);
    K.RefreshSize(s, name, e, IndexOf(s.policy, e, RemoveName(s, name).cache));
  }

  // ----- Content -----

  /** Every content a server holds can be served. */
  ghost predicate ContentsSound(contents: Contents) {
    forall n | n in contents :: Servable(contents, n)
  }

  /** Storing a front part of a content leaves every copy true to its way. */
  lemma StoredTrue(w: World, contents: Contents, a: Address, d: Bytes, ttl: uint8, now: uint64, o: Origin)
    requires a in w.routers && CachesSound(w) && CopiesTrue(w, contents) && PartOf(d, contents, o)
    ensures CopiesTrue(Stored(w, a, o.name, P.SetEntry(w.routers[a].cache, o.name, d, ttl, now), o), contents)
  {
    var s, name := w.routers[a].cache, o.name;
    Runs.SetEntries(s, name, d, ttl, now);
    var r := P.SetEntry(s, name, d, ttl, now);
    var v := Stored(w, a, name, r, o);
    forall b, n | Caches(v, n, b)
      ensures CopyTrue(v, contents, n, b)
    {
      if b != a || n != name {
        assert Caches(w, n, b);
      } else {
        RefusedUnchanged(s, name, d, ttl, now);
      }
    }
  }

  lemma RefusedUnchanged(s: CacheState, name: Name, d: Bytes, ttl: uint8, now: uint64)
    ensures !P.SetEntry(s, name, d, ttl, now).cached ==> name !in P.SetEntry(s, name, d, ttl, now).state.cache
  {}

  /** What the check makes of a packet that starts a reply. */
  lemma FrontArrives(router: Router, parcel: Parcel, contents: Contents, ttl: uint8, now: uint64,
                     udp: Bytes, k: O.Kind, d: Bytes)
    requires Carries(parcel, contents, udp, k, d)
    ensures ReadReply(parcel.packet.payload, parcel.packet.header.id.protocol) ==
            if k == O.Cachable then Some((O.Named(parcel.origin.name, k), d)) else None
    ensures Honest(Returned(router, parcel, ttl, now), contents)
  {
    var name, h := parcel.origin.name, parcel.packet.header;
    ReplyBack(udp, name, k, d);
    ReplySentOn(router.cache, router.nonCachable, udp, name, k, d, h.ttl, now);
    var cached := k == O.Cachable && P.SetEntry(router.cache, name, d, h.ttl, now).cached;
    var j := if cached then KindSet(router.nonCachable) else k;
    assert Carries(Returned(router, parcel, ttl, now), contents, udp, j, d);
  }

  lemma OtherArrives(router: Router, parcel: Parcel, contents: Contents, ttl: uint8, now: uint64)
    requires Honest(parcel, contents) && parcel.origin.Elsewhere?
    ensures ReadReply(parcel.packet.payload, parcel.packet.header.id.protocol) == None
    ensures Honest(Returned(router, parcel, ttl, now), contents)
  {}

  lemma ReturnedHonest(router: Router, parcel: Parcel, contents: Contents, ttl: uint8, now: uint64)
    requires Honest(parcel, contents)
    ensures Honest(Returned(router, parcel, ttl, now), contents)
  {
    if parcel.origin.Elsewhere? {
      OtherArrives(router, parcel, contents, ttl, now);
    } else {
      var udp, k, d :| Carries(parcel, contents, udp, k, d);
      FrontArrives(router, parcel, contents, ttl, now, udp, k, d);
    }
  }

  lemma AllSentHonest(p: Parcel, contents: Contents, mtu: uint32)
    requires Honest(p, contents)
    ensures forall q | q in Sent(p, mtu) :: Honest(q, contents)
  {
    forall q | q in Sent(p, mtu)
      ensures Honest(q, contents)
    {
      SentHonest(p, contents, mtu, q);
    }
  }

  // ----- All steps -----

  ghost predicate TablesSound(w: World, contents: Contents) {
    CachesSound(w) && DirectoryExact(w) && CopiesTrue(w, contents)
  }

  /** Packets do not matter to the tables. */
  lemma SameTables(u: World, v: World, contents: Contents)
    requires u.routers == v.routers && u.directory == v.directory && u.origins == v.origins
    requires TablesSound(u, contents)
    ensures TablesSound(v, contents)
  {
    forall n, a
      ensures v.directory[(n, a)] == if Caches(v, n, a) then 1 else 0
    {
      assert u.directory[(n, a)] == if Caches(u, n, a) then 1 else 0;
    }
    forall a, n | Caches(v, n, a)
      ensures CopyTrue(v, contents, n, a)
    {
      assert Caches(u, n, a) && CopyTrue(u, contents, n, a);
    }
  }

  lemma CheckedSound(w: World, contents: Contents, a: Address, parcel: Parcel, now: uint64)
    requires a in w.routers && TablesSound(w, contents) && Honest(parcel, contents)
    ensures TablesSound(Checked(w, a, parcel, now), contents)
  {
    if parcel.origin.Elsewhere? {
      OtherArrives(w.routers[a], parcel, contents, 0, now);
    } else {
      var udp, k, d :| Carries(parcel, contents, udp, k, d);
      FrontArrives(w.routers[a], parcel, contents, 0, now, udp, k, d);
      if k == O.Cachable {
        StoredSound(w, contents, a, d, parcel.packet.header.ttl, now, parcel.origin);
      }
    }
  }

  lemma StoredSound(w: World, contents: Contents, a: Address, d: Bytes, ttl: uint8, now: uint64, o: Origin)
    requires a in w.routers && TablesSound(w, contents) && PartOf(d, contents, o)
    ensures TablesSound(Stored(w, a, o.name, P.SetEntry(w.routers[a].cache, o.name, d, ttl, now), o), contents)
  {
    var r := P.SetEntry(w.routers[a].cache, o.name, d, ttl, now);
    var u := w.(routers := w.routers[a := w.routers[a].(cache := r.state)],
                directory := C.DirectoryAfter(w.directory, a, o.name, r));
    var v := Stored(w, a, o.name, r, o);
    SetKeepsDirectory(w, a, o.name, d, ttl, now);
    StoredTrue(w, contents, a, d, ttl, now, o);
    forall n, b
      ensures v.directory[(n, b)] == if Caches(v, n, b) then 1 else 0
    {
      assert u.directory[(n, b)] == if Caches(u, n, b) then 1 else 0;
    }
  }

  lemma ServedSound(w: World, contents: Contents, a: Address, name: Name, now: uint64)
    requires Caches(w, name, a) && TablesSound(w, contents)
    ensures TablesSound(w.(routers := w.routers[a := w.routers[a].(cache := Touched(w.routers[a].cache, name, now))]),
                        contents)
  {
    var s := w.routers[a].cache;
    var t := Touched(s, name, now);
    var v := w.(routers := w.routers[a := w.routers[a].(cache := t)]);
    TouchKeepsNames(s, name, now);
    P.TouchedConsistent(s, name, now);
    assert forall n :: n in t.cache <==> n in t.cache.Keys;
    forall n, b
      ensures Caches(v, n, b) <==> Caches(w, n, b)
      ensures v.directory[(n, b)] == if Caches(v, n, b) then 1 else 0
    {
      assert w.directory[(n, b)] == if Caches(w, n, b) then 1 else 0;
    }
    forall b, n | Caches(v, n, b)
      ensures CopyTrue(v, contents, n, b)
    {
      assert Caches(w, n, b) && CopyTrue(w, contents, n, b);
    }
  }

  /** A copy that is served is a front part of what the server sends, and so is all of that. */
  lemma CopyIsPart(contents: Contents, o: Origin)
    requires WayTrue(contents, o)
    ensures PartOf(Kept(contents, o.name, o.room), contents, o)
  {
    TextOfText(contents[o.name], o.room - HeaderSize(o.name));
  }

  lemma WholeIsPart(contents: Contents, name: Name)
    requires Servable(contents, name)
    ensures PartOf(W.CopyOf(contents[name]), contents, ReplyFor(name, [], UNCUT))
  {
    W.CStringExactly(contents[name]);
  }

  lemma ReplyHonest(contents: Contents, udp: Bytes, header: Header, d: Bytes, o: Origin)
    requires FromSource(udp) && StartsDatagram(header) && PartOf(d, contents, o)
    ensures Honest(ReplyParcel(o.name, udp, header, d, o), contents)
  {
    assert Carries(ReplyParcel(o.name, udp, header, d, o), contents, udp, O.Cachable, d);
  }

  /** What an event puts on a link is honest. */
  lemma OutgoingHonest(w: World, contents: Contents, e: Event)
    requires Enabled(w, contents, e) && Inv(w, contents) && ContentsSound(contents)
    ensures var out := Outgoing(w, contents, e); out.Some? ==> Honest(out.value, contents)
  {
    match e
    case Arrive(at, parcel, _, now) =>
      var left := U.Forwarded(parcel.packet.header.ttl);
      if left.Some? {
        assert Honest(parcel, contents);
        ReturnedHonest(w.routers[at], parcel, contents, left.value, now);
      }
    case Serve(at, name, udp, header, _, _) =>
      assert CopyTrue(w, contents, name, at);
      CopyIsPart(contents, w.origins[(at, name)]);
      ReplyHonest(contents, udp, header, w.routers[at].cache.cache[name].data, w.origins[(at, name)]);
    case Publish(name, udp, header, _) =>
      WholeIsPart(contents, name);
      ReplyHonest(contents, udp, header, W.CopyOf(contents[name]), ReplyFor(name, [], UNCUT));
    case Other(_, _) =>
  }

  lemma StepKeeps(w: World, contents: Contents, e: Event)
    requires Enabled(w, contents, e) && Inv(w, contents) && ContentsSound(contents)
    ensures Inv(Step(w, contents, e), contents)
  {
    var out := Outgoing(w, contents, e);
    OutgoingHonest(w, contents, e);
    if out.Some? {
      AllSentHonest(out.value, contents, e.mtu);
    }
    if e.Arrive? {
      assert Honest(e.parcel, contents);
      CheckedSound(w, contents, e.at, e.parcel, e.now);
    } else if e.Serve? {
      ServedSound(w, contents, e.at, e.name, e.now);
    }
    SameTables(TablesAfter(w, contents, e), Step(w, contents, e), contents);
  }

  lemma InitialInv(w: World, contents: Contents)
    requires Initial(w)
    ensures Inv(w, contents)
  {}

  /** In every run of any number of routers with any mix of policies, sizes, settings and links: the
      directory lists exactly what the routers cache, each pair once; every cached copy is as much of
      the server's content as its way has left; and every packet that starts a reply, marked or not,
      is a reply with as much of the content as its own way has left. */
  lemma {:induction false} RunKeeps(w: World, contents: Contents, events: seq<Event>)
    requires Initial(w) && ContentsSound(contents)
    ensures Inv(Run(w, contents, events), contents)
  {
    if events == [] {
      InitialInv(w, contents);
    } else {
      var front, last := events[..|events| - 1], events[|events| - 1];
      RunKeeps(w, contents, front);
      var before := Run(w, contents, front);
      if Enabled(before, contents, last) {
        StepKeeps(before, contents, last);
      }
    }
  }
}
