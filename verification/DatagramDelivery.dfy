/** Whole runs of the reassembly table: datagrams do not disturb each other, and what the splitter
    made of a datagram comes back as that datagram. */
module DatagramDelivery {
  import opened Basics
  import opened Ipv4Fragmentation
  import opened Ipv4Reassembly
  import opened Ipv4Router
  import L = FragmentsOnPath
  import R = ReassemblyProperties

  datatype Event = Arrival(fragment: Packet) | Timeout(datagram: DatagramId) {
    function Id(): DatagramId {
      if Arrival? then fragment.header.id else datagram
    }
  }

  ghost function Step(b: Buffers, e: Event): Buffers {
    match e
    case Arrival(f) => AfterArrival(b, f)
    case Timeout(id) => b - {KeyOf(id)}
  }

  ghost function Run(b: Buffers, events: seq<Event>): Buffers {
    if events == [] then b else Step(Run(b, events[..|events| - 1]), events[|events| - 1])
  }

  /** What each arrival for datagram `id` returned, in order: nothing, or the whole datagram. */
  ghost function Results(b: Buffers, events: seq<Event>, id: DatagramId): seq<Option<Bytes>> {
    if events == [] then []
    else
      var front, last := events[..|events| - 1], events[|events| - 1];
      var earlier := Results(b, front, id);
      if last.Arrival? && last.Id() == id then earlier + [Completed(Run(b, front), last.fragment)] else earlier
  }

  /** The events that concern datagram `id`. */
  function Only(events: seq<Event>, id: DatagramId): seq<Event> {
    if events == [] then []
    else
      var front, last := events[..|events| - 1], events[|events| - 1];
      if last.Id() == id then Only(front, id) + [last] else Only(front, id)
  }

  // ----- Datagrams do not disturb each other -----

  /** The packed keys tell all datagrams apart. */
  lemma KeysDistinct(a: DatagramId, b: DatagramId)
    ensures KeyOf(a) == KeyOf(b) <==> a == b
  {}

  ghost predicate Agree(b: Buffers, c: Buffers, key: Key) {
    if key in b then key in c && b[key] == c[key] else key !in c
  }

  lemma StepElsewhere(b: Buffers, e: Event, id: DatagramId)
    requires e.Id() != id
    ensures Agree(Step(b, e), b, KeyOf(id))
  {
    KeysDistinct(e.Id(), id);
  }

  lemma StepAlike(b: Buffers, c: Buffers, e: Event)
    requires Agree(b, c, KeyOf(e.Id()))
    ensures e.Arrival? ==> Completed(b, e.fragment) == Completed(c, e.fragment)
    ensures Agree(Step(b, e), Step(c, e), KeyOf(e.Id()))
  {
    if e.Arrival? {
      assert BufferAfter(b, e.fragment) == BufferAfter(c, e.fragment);
    }
  }

  /** One more event: the run, the results and the projection grow by it. */
  lemma Extend(b: Buffers, front: seq<Event>, e: Event, id: DatagramId)
    ensures Run(b, front + [e]) == Step(Run(b, front), e)
    ensures Results(b, front + [e], id) ==
            if e.Arrival? && e.Id() == id then Results(b, front, id) + [Completed(Run(b, front), e.fragment)]
            else Results(b, front, id)
    ensures Only(front + [e], id) == if e.Id() == id then Only(front, id) + [e] else Only(front, id)
  {
    var all := front + [e];
    assert all[..|all| - 1] == front && all[|all| - 1] == e;
  }

  /** In any interleaving of fragments and timeouts of many datagrams, each datagram sees exactly
      what it would see alone. */
  lemma {:induction false} NonInterference(b: Buffers, c: Buffers, events: seq<Event>, id: DatagramId)
    requires Agree(b, c, KeyOf(id))
    ensures Results(b, events, id) == Results(c, Only(events, id), id)
    ensures Agree(Run(b, events), Run(c, Only(events, id)), KeyOf(id))
  {
    if events != [] {
      var front, e := events[..|events| - 1], events[|events| - 1];
      NonInterference(b, c, front, id);
      if e.Id() == id {
        OwnEvent(b, c, events, Only(front, id));
      } else {
        StepElsewhere(Run(b, front), e, id);
      }
    }
  }

  lemma OwnEvent(b: Buffers, c: Buffers, events: seq<Event>, own: seq<Event>)
    requires events != []
    requires var front, id := events[..|events| - 1], events[|events| - 1].Id();
             && Results(b, front, id) == Results(c, own, id)
             && Agree(Run(b, front), Run(c, own), KeyOf(id))
    ensures var e := events[|events| - 1];
            && Results(b, events, e.Id()) == Results(c, own + [e], e.Id())
            && Agree(Run(b, events), Run(c, own + [e]), KeyOf(e.Id()))
  {
    var front, e := events[..|events| - 1], events[|events| - 1];
    Extend(c, own, e, e.Id());
    StepAlike(Run(b, front), Run(c, own), e);
  }

  // ----- The pieces of one datagram -----

  lemma {:induction false} TileHolding(fs: seq<Packet>, k: nat, n: nat) returns (i: nat)
    requires Joined(fs) && 0 < n <= |fs| && fs[0].header.offset == 0 && k < End(fs[n - 1])
    ensures i < n && fs[i].header.offset <= k < End(fs[i])
  {
    i := n - 1;
    if k < fs[i].header.offset {
      assert fs[i].header.offset == End(fs[n - 2]);
      i := TileHolding(fs, k, n - 1);
    }
  }

  lemma TileSlice(fs: seq<Packet>, h: Header, d: Bytes, i: nat)
    requires Tiles(fs, h, 0, d, false) && i < |fs| && |d| < 0x1_0000
    ensures R.IsSliceOf(PieceOf(fs[i]), d)
    ensures End(fs[i]) == R.End(PieceOf(fs[i]))
    ensures d != [] ==> fs[i].header.offset < End(fs[i])
  {
    assert IsPiece(fs[i], h, 0, d);
    if i < |fs| - 1 {
      TileOrder(fs, i, |fs| - 1);
      assert IsPiece(fs[|fs| - 1], h, 0, d);
    }
  }

  /** The buffer holds pieces of the tiling, all those delivered and no others. */
  ghost predicate Tracks(list: seq<Piece>, fs: seq<Packet>, order: seq<nat>) {
    && R.Sorted(list)
    && (forall p | p in list :: exists i :: i in order && i < |fs| && p == PieceOf(fs[i]))
    && (forall i | i in order :: i < |fs| && PieceOf(fs[i]) in list)
  }

  ghost predicate All(order: seq<nat>, n: nat) {
    forall i: nat | i < n :: i in order
  }

  lemma TracksInsert(list: seq<Piece>, fs: seq<Packet>, order: seq<nat>, i: nat)
    requires Tracks(list, fs, order) && i < |fs|
    ensures Tracks(Insert(list, PieceOf(fs[i])), fs, order + [i])
  {
    var p := PieceOf(fs[i]);
    R.InsertSorted(list, p);
    R.InsertContents(list, p);
    var more := Insert(list, p);
    forall q | q in more
      ensures exists j :: j in order + [i] && j < |fs| && q == PieceOf(fs[j])
    {
      assert q in multiset(more);
      if q in list {
        var j :| j in order && j < |fs| && q == PieceOf(fs[j]);
        assert j in order + [i];
      } else {
        assert i in order + [i];
      }
    }
    forall j | j in order + [i]
      ensures j < |fs| && PieceOf(fs[j]) in more
    {
      assert PieceOf(fs[j]) in multiset(more);
    }
  }

  lemma TracksSlices(list: seq<Piece>, fs: seq<Packet>, h: Header, d: Bytes, order: seq<nat>)
    requires Tiles(fs, h, 0, d, false) && |d| < 0x1_0000 && Tracks(list, fs, order)
    ensures R.TrueSlices(list, d)
  {
    forall k | 0 <= k < |list|
      ensures R.IsSliceOf(list[k], d)
    {
      assert list[k] in list;
      var i :| i in order && i < |fs| && list[k] == PieceOf(fs[i]);
      TileSlice(fs, h, d, i);
    }
  }

  /** The buffer is complete exactly when every piece has been delivered. */
  lemma EntireWhenAll(list: seq<Piece>, fs: seq<Packet>, h: Header, d: Bytes, order: seq<nat>)
    requires Tiles(fs, h, 0, d, false) && |d| < 0x1_0000
    requires Tracks(list, fs, order) && order != []
    ensures Entire(list) <==> All(order, |fs|)
    ensures Entire(list) ==> Assemble(list) == d
  {
    TracksSlices(list, fs, h, d, order);
    R.EntireExactly(list, d);
    assert order[0] in order;
    if Entire(list) {
      R.EntireRebuilds(list, d);
      forall i: nat | i < |fs|
        ensures i in order
      {
        DeliveredIfCovered(list, fs, h, d, order, i);
      }
    }
    if All(order, |fs|) {
      AllCovers(list, fs, h, d, order);
      AllReachesEnd(list, fs, h, d, order);
    }
  }

  lemma DeliveredIfCovered(list: seq<Piece>, fs: seq<Packet>, h: Header, d: Bytes, order: seq<nat>, i: nat)
    requires Tiles(fs, h, 0, d, false) && |d| < 0x1_0000
    requires Tracks(list, fs, order) && order != [] && i < |fs|
    requires forall k | 0 <= k < |d| :: R.Covered(list, k)
    ensures i in order
  {
    if d == [] {
      assert order[0] in order;
    } else {
      TileSlice(fs, h, d, i);
      var k := fs[i].header.offset;
      assert R.Covered(list, k);
      var a :| 0 <= a < |list| && list[a].offset <= k < R.End(list[a]);
      assert list[a] in list;
      var j :| j in order && j < |fs| && list[a] == PieceOf(fs[j]);
      if i < j {
        TileOrder(fs, i, j);
      } else if j < i {
        TileOrder(fs, j, i);
      }
    }
  }

  lemma AllCovers(list: seq<Piece>, fs: seq<Packet>, h: Header, d: Bytes, order: seq<nat>)
    requires Tiles(fs, h, 0, d, false)
    requires Tracks(list, fs, order) && All(order, |fs|)
    ensures forall k | 0 <= k < |d| :: R.Covered(list, k)
  {
    forall k | 0 <= k < |d|
      ensures R.Covered(list, k)
    {
      var i := TileHolding(fs, k, |fs|);
      assert i in order;
      var a :| 0 <= a < |list| && list[a] == PieceOf(fs[i]);
      assert list[a].offset <= k < R.End(list[a]);
    }
  }

  lemma AllReachesEnd(list: seq<Piece>, fs: seq<Packet>, h: Header, d: Bytes, order: seq<nat>)
    requires Tiles(fs, h, 0, d, false) && |d| < 0x1_0000
    requires Tracks(list, fs, order) && All(order, |fs|)
    ensures list != [] && R.End(list[|list| - 1]) == |d|
  {
    var n := |fs| - 1;
    assert n in order;
    var a :| 0 <= a < |list| && list[a] == PieceOf(fs[n]);
    var last := list[|list| - 1];
    assert last in list;
    var i :| i in order && i < |fs| && last == PieceOf(fs[i]);
    assert list[a].offset <= last.offset;
    assert d == [] ==> n == 0;
    if i < n {
      TileOrder(fs, i, n);
      TileSlice(fs, h, d, i);
    }
  }

  // ----- Delivery -----

  ghost predicate InRange(order: seq<nat>, n: nat) {
    forall j | 0 <= j < |order| :: order[j] < n
  }

  function Deliveries(fs: seq<Packet>, order: seq<nat>): (events: seq<Event>)
    requires InRange(order, |fs|)
  {
    seq(|order|, j requires 0 <= j < |order| => Arrival(fs[order[j]]))
  }

  lemma DeliveriesGrow(fs: seq<Packet>, front: seq<nat>, i: nat)
    requires InRange(front, |fs|) && i < |fs|
    ensures InRange(front + [i], |fs|)
    ensures Deliveries(fs, front + [i]) == Deliveries(fs, front) + [Arrival(fs[i])]
  {}

  function Nothing(n: nat): seq<Option<Bytes>> {
    if n == 0 then [] else Nothing(n - 1) + [None]
  }

  /** The table has a buffer for `key` exactly if something was delivered, holding just that. */
  ghost predicate Waiting(t: Buffers, key: Key, fs: seq<Packet>, order: seq<nat>) {
    if order == [] then key !in t else key in t && Tracks(t[key], fs, order)
  }

  /** As long as a fragment is missing, arrivals return nothing and the buffer keeps them all. */
  lemma {:induction false} DeliveryIncomplete(b: Buffers, fs: seq<Packet>, h: Header, d: Bytes, order: seq<nat>)
    requires Tiles(fs, h, 0, d, false) && |d| < 0x1_0000
    requires KeyOf(h.id) !in b
    requires InRange(order, |fs|) && !All(order, |fs|)
    ensures Results(b, Deliveries(fs, order), h.id) == Nothing(|order|)
    ensures Waiting(Run(b, Deliveries(fs, order)), KeyOf(h.id), fs, order)
  {
    if order != [] {
      var front, i := order[..|order| - 1], order[|order| - 1];
      assert order == front + [i];
      MissingBefore(front, i, |fs|);
      DeliveryIncomplete(b, fs, h, d, front);
      NextDelivery(b, fs, h, d, front, i);
    }
  }

  lemma MissingBefore(front: seq<nat>, i: nat, n: nat)
    requires InRange(front + [i], n) && !All(front + [i], n)
    ensures InRange(front, n) && i < n && !All(front, n)
  {
    forall j | 0 <= j < |front|
      ensures front[j] < n
    {
      assert front[j] == (front + [i])[j];
    }
    assert (front + [i])[|front|] == i;
    var k: nat :| k < n && k !in front + [i];
  }

  /** One more delivery: the result and the buffer that follow from what was delivered before. */
  lemma NextDelivery(b: Buffers, fs: seq<Packet>, h: Header, d: Bytes, front: seq<nat>, i: nat)
    requires Tiles(fs, h, 0, d, false) && |d| < 0x1_0000
    requires InRange(front, |fs|) && i < |fs|
    requires Waiting(Run(b, Deliveries(fs, front)), KeyOf(h.id), fs, front)
    ensures InRange(front + [i], |fs|)
    ensures var all := All(front + [i], |fs|);
            Results(b, Deliveries(fs, front + [i]), h.id) ==
            Results(b, Deliveries(fs, front), h.id) + [if all then Some(d) else None]
    ensures var t := Run(b, Deliveries(fs, front + [i]));
            if All(front + [i], |fs|) then t == Run(b, Deliveries(fs, front)) - {KeyOf(h.id)}
            else Waiting(t, KeyOf(h.id), fs, front + [i])
  {
    var t, key := Run(b, Deliveries(fs, front)), KeyOf(h.id);
    assert IsPiece(fs[i], h, 0, d);
    var list := if key in t then t[key] else [];
    TracksInsert(list, fs, front, i);
    EntireWhenAll(Insert(list, PieceOf(fs[i])), fs, h, d, front + [i]);
    DeliveriesGrow(fs, front, i);
    Extend(b, Deliveries(fs, front), Arrival(fs[i]), h.id);
  }

  lemma DeliveryCompletes(b: Buffers, fs: seq<Packet>, h: Header, d: Bytes, order: seq<nat>)
    requires Tiles(fs, h, 0, d, false) && |d| < 0x1_0000
    requires KeyOf(h.id) !in b
    requires order != [] && InRange(order, |fs|)
    requires All(order, |fs|) && !All(order[..|order| - 1], |fs|)
    ensures Results(b, Deliveries(fs, order), h.id) == Nothing(|order| - 1) + [Some(d)]
    ensures KeyOf(h.id) !in Run(b, Deliveries(fs, order))
  {
    var front, i := order[..|order| - 1], order[|order| - 1];
    assert order == front + [i];
    DeliveryIncomplete(b, fs, h, d, front);
    NextDelivery(b, fs, h, d, front, i);
  }

  /** The fragments of a datagram, delivered in any order with any duplicates among any other
      traffic, return nothing until the last missing one arrives, which returns the datagram. */
  lemma Reassembles(b: Buffers, events: seq<Event>, fs: seq<Packet>, h: Header, d: Bytes, order: seq<nat>)
    requires Tiles(fs, h, 0, d, false) && |d| < 0x1_0000
    requires KeyOf(h.id) !in b
    requires order != [] && InRange(order, |fs|)
    requires All(order, |fs|) && !All(order[..|order| - 1], |fs|)
    requires Only(events, h.id) == Deliveries(fs, order)
    ensures Results(b, events, h.id) == Nothing(|order| - 1) + [Some(d)]
    ensures KeyOf(h.id) !in Run(b, events)
  {
    NonInterference(b, b, events, h.id);
    DeliveryCompletes(b, fs, h, d, order);
  }

  /** From the splitter to the reassembled packet. */
  lemma SplitAndReassemble(b: Buffers, events: seq<Event>, original: Packet, mtu: uint32,
                           fs: seq<Packet>, order: seq<nat>)
    requires !original.header.more && |original.payload| < 0x1_0000
    requires IsFragmentation(fs, original, mtu)
    requires KeyOf(original.header.id) !in b
    requires order != [] && InRange(order, |fs|)
    requires All(order, |fs|) && !All(order[..|order| - 1], |fs|)
    requires Only(events, original.header.id) == Deliveries(fs, order)
    ensures Results(b, events, original.header.id) == Nothing(|order| - 1) + [Some(original.payload)]
    ensures KeyOf(original.header.id) !in Run(b, events)
  {
    Reassembles(b, events, fs, original.header, original.payload, order);
  }

  /** From the splitter over any row of links, with whatever the routers before them split again: when all
      that is left of the datagram has arrived, it has come back if and only if its last fragment survived
      every link. */
  lemma ReassembledBehindLinks(b: Buffers, events: seq<Event>, original: Packet, mtu: uint32, sent: seq<Packet>,
                               mtus: seq<uint32>, order: seq<nat>)
    requires !original.header.more && |original.payload| < 0x1_0000
    requires IsFragmentation(sent, original, mtu) && L.Within(sent, 0xFFFF) && L.Links(mtus)
    requires KeyOf(original.header.id) !in b
    requires var fs := L.Behind(sent, mtus);
             && order != [] && InRange(order, |fs|)
             && All(order, |fs|) && !All(order[..|order| - 1], |fs|)
             && Only(events, original.header.id) == Deliveries(fs, order)
    ensures Some(original.payload) in Results(b, events, original.header.id) <==> L.Intact(sent, mtus)
    ensures L.Intact(sent, mtus) ==>
              && Results(b, events, original.header.id) == Nothing(|order| - 1) + [Some(original.payload)]
              && KeyOf(original.header.id) !in Run(b, events)
  {
    var fs := L.Behind(sent, mtus);
    if L.Intact(sent, mtus) {
      L.SentIsAligned(sent, original, mtu);
      L.BehindExactly(sent, mtus, original.header, original.payload);
      Reassembles(b, events, fs, original.header, original.payload, order);
    } else {
      forall i | 0 <= i < |events| && events[i].Arrival? && events[i].Id() == original.header.id
        ensures events[i].fragment in fs
      {
        OnlyHolds(events, original.header.id, i);
        var j :| 0 <= j < |order| && Deliveries(fs, order)[j] == events[i];
      }
      NeverReassembled(b, events, original, mtu, sent, mtus);
    }
  }

  lemma {:induction false} OnlyHolds(events: seq<Event>, id: DatagramId, i: nat)
    requires i < |events| && events[i].Id() == id
    ensures events[i] in Only(events, id)
  {
    var front := events[..|events| - 1];
    if i < |front| {
      OnlyHolds(front, id, i);
    }
  }

  /** If its last fragment does not survive, a datagram does not come back, in whatever order, how often and
      among what else its fragments arrive, and whatever times out. */
  lemma NeverReassembled(b: Buffers, events: seq<Event>, original: Packet, mtu: uint32, sent: seq<Packet>,
                         mtus: seq<uint32>)
    requires !original.header.more && |original.payload| < 0x1_0000
    requires IsFragmentation(sent, original, mtu) && L.Within(sent, 0xFFFF) && L.Links(mtus)
    requires !L.Intact(sent, mtus)
    requires KeyOf(original.header.id) !in b
    requires forall i | 0 <= i < |events| && events[i].Arrival? && events[i].Id() == original.header.id ::
               events[i].fragment in L.Behind(sent, mtus)
    ensures Some(original.payload) !in Results(b, events, original.header.id)
  {
    var fs, m := L.Behind(sent, mtus), |original.payload| - 1;
    L.SentIsAligned(sent, original, mtu);
    L.BehindExactly(sent, mtus, original.header, original.payload);
    forall i | 0 <= i < |events| && events[i].Arrival? && events[i].Id() == original.header.id
      ensures End(events[i].fragment) <= m
    {
      var j :| 0 <= j < |fs| && fs[j] == events[i].fragment;
    }
    ResultsShort(b, events, original.header.id, m);
  }

  ghost predicate ShortPieces(list: seq<Piece>, m: nat) {
    forall i | 0 <= i < |list| :: R.End(list[i]) <= m
  }

  lemma {:induction false} AssembleShort(list: seq<Piece>, m: nat)
    requires ShortPieces(list, m) && m < 0x1_0000
    ensures |Assemble(list)| <= m
  {
    if list != [] {
      AssembleShort(list[..|list| - 1], m);
    }
  }

  lemma InsertShort(list: seq<Piece>, p: Piece, m: nat)
    requires ShortPieces(list, m) && R.End(p) <= m
    ensures ShortPieces(Insert(list, p), m)
  {
    forall k | 0 <= k < |Insert(list, p)|
      ensures R.End(Insert(list, p)[k]) <= m
    {
      R.InsertAt(list, p, k);
    }
  }

  ghost predicate ShortFor(b: Buffers, id: DatagramId, m: nat) {
    KeyOf(id) in b ==> ShortPieces(b[KeyOf(id)], m)
  }

  /** Fragments that end by byte `m` never make up more than that. */
  lemma {:induction false} ResultsShort(b: Buffers, events: seq<Event>, id: DatagramId, m: nat)
    requires ShortFor(b, id, m) && m < 0x1_0000
    requires forall i | 0 <= i < |events| && events[i].Arrival? && events[i].Id() == id :: End(events[i].fragment) <= m
    ensures forall r | r in Results(b, events, id) :: r == None || |r.value| <= m
    ensures ShortFor(Run(b, events), id, m)
  {
    if events != [] {
      var front, e := events[..|events| - 1], events[|events| - 1];
      assert forall i | 0 <= i < |front| :: front[i] == events[i];
      ResultsShort(b, front, id, m);
      if e.Id() != id {
        StepElsewhere(Run(b, front), e, id);
      } else if e.Arrival? {
        ShortArrives(Run(b, front), e.fragment, m);
      }
    }
  }

  lemma ShortArrives(b: Buffers, f: Packet, m: nat)
    requires ShortFor(b, f.header.id, m) && m < 0x1_0000 && End(f) <= m
    ensures Completed(b, f) == None || |Completed(b, f).value| <= m
    ensures ShortFor(AfterArrival(b, f), f.header.id, m)
  {
    var key := KeyOf(f.header.id);
    var list := if key in b then b[key] else [];
    InsertShort(list, PieceOf(f), m);
    AssembleShort(Insert(list, PieceOf(f)), m);
  }

  /** Why the last fragment matters: here one of two fragments, the last, is split again in two. All
      three then arrive, and the receiver takes the first half of the datagram for the whole. */
  lemma LastSplitAgainTruncates(h: Header, d: Bytes)
    requires |d| == 32 && h.offset == 0 && !h.more
    ensures var fs := Split(Packet(h, d), FragmentSize(36), 0);
            && |fs| == 2 && |fs[1].payload| == 16 && !fs[1].header.more
            && var sub := Split(fs[1], FragmentSize(28), 0);
               && |sub| == 2
               && Results(map[], [Arrival(fs[0]), Arrival(sub[0]), Arrival(sub[1])], h.id) ==
                  [None, None, Some(d[..16])]
  {
    SplitInTwo(h, d, 16);
    var fs := Split(Packet(h, d), FragmentSize(36), 0);
    SplitInTwo(fs[1].header, fs[1].payload, 8);
    var sub := Split(fs[1], FragmentSize(28), 0);
    assert d[16..][..8] == d[16..24] && d[16..][8..] == d[24..];
    TruncatedDelivery(d, fs[0], sub[0], sub[1]);
  }

  lemma TruncatedDelivery(d: Bytes, f: Packet, g: Packet, l: Packet)
    requires |d| == 32 && f.header.id == g.header.id == l.header.id
    requires PieceOf(f) == Piece(0, d[..16], true)
    requires PieceOf(g) == Piece(0, d[16..24], true) && PieceOf(l) == Piece(8, d[24..], false)
    ensures Results(map[], [Arrival(f), Arrival(g), Arrival(l)], f.header.id) == [None, None, Some(d[..16])]
  {
    ThreeArrivals(d, PieceOf(f), PieceOf(g), PieceOf(l));
    var key := KeyOf(f.header.id);
    FirstBuffer(f);
    NextBuffer(g, [PieceOf(f)]);
    NextBuffer(l, [PieceOf(f), PieceOf(g)]);
    var b, c := map[key := [PieceOf(f)]], map[key := [PieceOf(f), PieceOf(g)]];
    var two := TwoSteps(f, g, None, None, b, c);
    OneMore(two, l, [None] + [None], c, Some(d[..16]), AfterArrival(c, l));
    assert two + [Arrival(l)] == [Arrival(f), Arrival(g), Arrival(l)];
  }

  lemma FirstBuffer(f: Packet)
    ensures !Entire(Insert([], PieceOf(f))) ==>
              && Completed(map[], f) == None
              && AfterArrival(map[], f) == map[KeyOf(f.header.id) := Insert([], PieceOf(f))]
  {}

  lemma NextBuffer(f: Packet, list: seq<Piece>)
    ensures var key, more := KeyOf(f.header.id), Insert(list, PieceOf(f));
            if Entire(more) then Completed(map[key := list], f) == Some(Assemble(more))
            else Completed(map[key := list], f) == None && AfterArrival(map[key := list], f) == map[key := more]
  {
    var key, more := KeyOf(f.header.id), Insert(list, PieceOf(f));
    assert map[key := list][key := more] == map[key := more];
  }

  /** One more arrival, from table `b` to table `c` with result `r`. */
  lemma OneMore(front: seq<Event>, f: Packet, rs: seq<Option<Bytes>>, b: Buffers, r: Option<Bytes>, c: Buffers)
    requires Run(map[], front) == b && Results(map[], front, f.header.id) == rs
    requires r == Completed(b, f) && c == AfterArrival(b, f)
    ensures Run(map[], front + [Arrival(f)]) == c
    ensures Results(map[], front + [Arrival(f)], f.header.id) == rs + [r]
  {
    Extend(map[], front, Arrival(f), f.header.id);
  }

  /** Two fragments of one datagram arrive one after the other. */
  lemma TwoSteps(f: Packet, g: Packet, r: Option<Bytes>, s: Option<Bytes>, b: Buffers, c: Buffers)
    returns (events: seq<Event>)
    requires f.header.id == g.header.id
    requires r == Completed(map[], f) && b == AfterArrival(map[], f)
    requires s == Completed(b, g) && c == AfterArrival(b, g)
    ensures events == [Arrival(f)] + [Arrival(g)]
    ensures Run(map[], events) == c && Results(map[], events, f.header.id) == [r] + [s]
  {
    events := FirstStep(f, r, b);
    OneMore(events, g, [r], b, s, c);
    events := events + [Arrival(g)];
  }

  lemma FirstStep(f: Packet, r: Option<Bytes>, b: Buffers) returns (events: seq<Event>)
    requires r == Completed(map[], f) && b == AfterArrival(map[], f)
    ensures events == [Arrival(f)]
    ensures Run(map[], events) == b && Results(map[], events, f.header.id) == [r]
  {
    events := [] + [Arrival(f)];
    OneMore([], f, [], map[], r, b);
    assert [] + [r] == [r];
  }

  lemma ThreeArrivals(d: Bytes, a: Piece, b: Piece, c: Piece)
    requires |d| == 32
    requires a == Piece(0, d[..16], true) && b == Piece(0, d[16..24], true) && c == Piece(8, d[24..], false)
    ensures Insert([], a) == [a] && Insert([a], b) == [a, b] && Insert([a, b], c) == [a, b, c]
    ensures !Entire([a]) && !Entire([a, b])
    ensures Entire([a, b, c]) && Assemble([a, b, c]) == d[..16]
  {
    assert UpperBound([], 0) == 0 && UpperBound([a], 0) == 1;
    assert UpperBound([a, b], 8) == 2;
    var all := [a, b, c];
    assert all[..0] == [] && all[..1] == [a] && all[..2] == [a, b] && [a, b][..1] == [a] && [a][..0] == [];
    assert MaxEnd([]) == 0 && MaxEnd([a]) == 16 && MaxEnd([a, b]) == 16;
    assert Assemble([]) == [] && [] + d[..16] == d[..16];
    assert Assemble([a]) == d[..16];
    assert Assemble([a, b]) == d[..16];
  }

  // ----- Overlapping fragments -----

  ghost predicate Genuine(b: Buffers, id: DatagramId, d: Bytes) {
    KeyOf(id) in b ==> R.Sorted(b[KeyOf(id)]) && R.TrueSlices(b[KeyOf(id)], d)
  }

  /** However the datagram was cut up, and whatever overlaps, duplicates and timeouts occur: if all
      fragments that arrive for it are true slices of it, what reassembly returns is the datagram. */
  lemma {:induction false} OverlapsAreSound(b: Buffers, events: seq<Event>, id: DatagramId, d: Bytes)
    requires |d| < 0x1_0000 && Genuine(b, id, d)
    requires forall i | 0 <= i < |events| && events[i].Arrival? && events[i].Id() == id ::
               R.IsSliceOf(PieceOf(events[i].fragment), d)
    ensures forall r | r in Results(b, events, id) :: r == None || r == Some(d)
    ensures Genuine(Run(b, events), id, d)
  {
    if events != [] {
      var front, e := events[..|events| - 1], events[|events| - 1];
      assert forall i | 0 <= i < |front| :: front[i] == events[i];
      OverlapsAreSound(b, front, id, d);
      if e.Id() != id {
        StepElsewhere(Run(b, front), e, id);
      } else if e.Arrival? {
        SliceArrives(Run(b, front), e.fragment, d);
      }
    }
  }

  lemma SliceArrives(b: Buffers, f: Packet, d: Bytes)
    requires |d| < 0x1_0000 && Genuine(b, f.header.id, d) && R.IsSliceOf(PieceOf(f), d)
    ensures Completed(b, f) == None || Completed(b, f) == Some(d)
    ensures Genuine(AfterArrival(b, f), f.header.id, d)
  {
    var key, p := KeyOf(f.header.id), PieceOf(f);
    var list := if key in b then b[key] else [];
    R.InsertSorted(list, p);
    forall k | 0 <= k < |Insert(list, p)|
      ensures R.IsSliceOf(Insert(list, p)[k], d)
    {
      R.InsertAt(list, p, k);
      var i := UpperBound(list, p.offset);
      assert k < i ==> R.IsSliceOf(list[k], d);
      assert k > i ==> R.IsSliceOf(list[k - 1], d);
    }
    if Entire(Insert(list, p)) {
      R.EntireRebuilds(Insert(list, p), d);
    }
  }

  /** Why the fragment last in the list matters for completion: a datagram reaches the receiver in pieces of
      24 bytes and, by another way, of 8. One of the small ones, then both large ones arrive; every byte is
      there, and the receiver goes on waiting. */
  lemma OverlapHidesCompletion(h: Header, d: Bytes)
    requires |d| == 48 && h.offset == 0 && !h.more
    ensures var large, small := Split(Packet(h, d), FragmentSize(44), 0), Split(Packet(h, d), FragmentSize(28), 0);
            && |large| == 2 && |small| > 4
            && var events := [Arrival(small[4]), Arrival(large[1]), Arrival(large[0])];
               && Results(map[], events, h.id) == [None, None, None]
               && KeyOf(h.id) in Run(map[], events)
               && forall k | 0 <= k < |d| :: R.Covered(Run(map[], events)[KeyOf(h.id)], k)
  {
    var large, small := Split(Packet(h, d), FragmentSize(44), 0), Split(Packet(h, d), FragmentSize(28), 0);
    SplitInTwo(h, d, 24);
    FifthOfEight(h, d);
    HiddenDelivery(d, small[4], large[1], large[0]);
  }

  lemma FifthOfEight(h: Header, d: Bytes)
    requires |d| == 48 && !h.more
    ensures var small := Split(Packet(h, d), 8, 0);
            |small| > 4 && small[4] == Packet(h.(more := true, offset := 32, payloadSize := 8), d[32..40])
  {
    var p := Packet(h, d);
    var last := Split(p, 8, 32);
    assert last[0] == Packet(h.(more := true, offset := 32, payloadSize := 8), d[32..40]);
    SplitTail(p, 8, 24, 1);
    SplitTail(p, 8, 16, 2);
    SplitTail(p, 8, 8, 3);
    SplitTail(p, 8, 0, 4);
  }

  lemma HiddenDelivery(d: Bytes, x: Packet, l: Packet, a: Packet)
    requires |d| == 48 && x.header.id == l.header.id == a.header.id
    requires PieceOf(x) == Piece(32, d[32..40], true)
    requires PieceOf(l) == Piece(24, d[24..], false) && PieceOf(a) == Piece(0, d[..24], true)
    ensures var events := [Arrival(x), Arrival(l), Arrival(a)];
            && Results(map[], events, x.header.id) == [None, None, None]
            && KeyOf(x.header.id) in Run(map[], events)
            && Run(map[], events)[KeyOf(x.header.id)] == [PieceOf(a), PieceOf(l), PieceOf(x)]
            && forall k | 0 <= k < |d| :: R.Covered(Run(map[], events)[KeyOf(x.header.id)], k)
  {
    HiddenPieces(PieceOf(x), PieceOf(l), PieceOf(a));
    var key := KeyOf(x.header.id);
    FirstBuffer(x);
    NextBuffer(l, [PieceOf(x)]);
    NextBuffer(a, [PieceOf(l), PieceOf(x)]);
    var b, c := map[key := [PieceOf(x)]], map[key := [PieceOf(l), PieceOf(x)]];
    var two := TwoSteps(x, l, None, None, b, c);
    OneMore(two, a, [None] + [None], c, None, map[key := [PieceOf(a), PieceOf(l), PieceOf(x)]]);
    assert two + [Arrival(a)] == [Arrival(x), Arrival(l), Arrival(a)];
    var list := [PieceOf(a), PieceOf(l), PieceOf(x)];
    forall k | 0 <= k < |d|
      ensures R.Covered(list, k)
    {
      assert list[if k < 24 then 0 else 1].offset <= k < R.End(list[if k < 24 then 0 else 1]);
    }
  }

  lemma HiddenPieces(x: Piece, l: Piece, a: Piece)
    requires x.offset == 32 && x.more && l.offset == 24 && a.offset == 0
    ensures Insert([], x) == [x] && Insert([x], l) == [l, x] && Insert([l, x], a) == [a, l, x]
    ensures !Entire([x]) && !Entire([l, x]) && !Entire([a, l, x])
  {
    assert UpperBound([], 32) == 0 && UpperBound([x], 24) == 0 && UpperBound([l, x], 0) == 0;
  }
}
