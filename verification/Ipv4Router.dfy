/** The router's table of reassembly buffers, its expiration timers and its identification counters. */
module Ipv4Router {
  import opened Basics
  import opened Ipv4Fragmentation
  import opened Ipv4Reassembly

  /** Addresses packed into 64 bits, identification and protocol into 32. */
  type Key = (uint64, uint32)

  function KeyOf(id: DatagramId): Key {
    (id.source * 0x1_0000_0000 + id.destination, id.identification * 0x1_0000 + id.protocol)
  }

  function PieceOf(f: Packet): Piece {
    Piece(f.header.offset, f.payload, f.header.more)
  }

  // ----- The table as a value -----

  type Buffers = map<Key, seq<Piece>>

  function BufferAfter(b: Buffers, f: Packet): seq<Piece> {
    var key := KeyOf(f.header.id);
    Insert(if key in b then b[key] else [], PieceOf(f))
  }

  /** The datagram completed by fragment `f`, if it completes one. */
  ghost function Completed(b: Buffers, f: Packet): Option<Bytes> {
    if Entire(BufferAfter(b, f)) then Some(Assemble(BufferAfter(b, f))) else None
  }

  ghost function AfterArrival(b: Buffers, f: Packet): Buffers {
    var key := KeyOf(f.header.id);
    if Entire(BufferAfter(b, f)) then b - {key} else b[key := BufferAfter(b, f)]
  }

  /** The table along the steps of one arrival: a missing buffer is opened empty, the fragment goes
      in, and a complete buffer goes. */
  lemma ArrivalSteps(b: Buffers, f: Packet)
    ensures var key := KeyOf(f.header.id);
            var started := if key in b then b else b[key := []];
            var filled := started[key := Insert(started[key], PieceOf(f))];
            && filled == b[key := BufferAfter(b, f)]
            && filled.Keys == started.Keys
            && BufferAfter(b, f) != []
            && filled - {key} == b - {key}
            && (filled - {key}).Keys == started.Keys - {key}
            && ((forall k | k in b :: b[k] != []) ==>
                 (forall k | k in filled :: filled[k] != []) && (forall k | k in b - {key} :: (b - {key})[k] != []))
  {}

  /** What the expiration of a buffer leads to: an ICMP time-exceeded message for the header kept
      with the timer if more than 8 bytes had arrived in one run, silence otherwise. Wrapped means
      that the size of the partial packet was computed by a subtraction below zero. */
  datatype Expiry = Wrapped | Silent(partial: Bytes) | TimeExceeded(header: Header, partial: Bytes)

  function ExpiryOf(list: seq<Piece>, h: Header): Expiry
    requires list != []
  {
    match if list[0].offset > 0 then Some([]) else Partial(list)
    case None => Wrapped
    case Some(p) => if |p| > 8 then TimeExceeded(h, p) else Silent(p)
  }

  // ----- The timers -----

  datatype Expiration = Expiration(key: Key, header: Header)

  /** The event each buffer's timer is, and the simulator's pending expirations of this router. */
  datatype Timers = Timers(events: map<Key, nat>, pending: map<nat, Expiration>, next: nat) {

    function Schedule(key: Key, h: Header): Timers {
      Timers(events[key := next], pending[next := Expiration(key, h)], next + 1)
    }

    /** Cancels the timer of `key` if it is still running, and forgets it. */
    function Cancel(key: Key): Timers
      requires key in events
    {
      Timers(events - {key}, pending - {events[key]}, next)
    }

    /** The header that will be reported if the timer of `k` expires. */
    function Kept(k: Key): Option<Header> {
      if k in events && events[k] in pending then Some(pending[events[k]].header) else None
    }

    ghost predicate HasEvent(k: Key)
      requires k in events
    {
      events[k] in pending && pending[events[k]].key == k
    }

    ghost predicate HasTimer(e: nat)
      requires e in pending
    {
      e < next && pending[e].key in events && events[pending[e].key] == e
    }

    /** Every timer is pending, and every pending expiration is somebody's timer. */
    ghost predicate Paired() {
      && (forall k {:trigger HasEvent(k)} | k in events :: HasEvent(k))
      && (forall e {:trigger HasTimer(e)} | e in pending :: HasTimer(e))
    }
  }

  lemma ScheduleKeepsPaired(t: Timers, key: Key, h: Header)
    requires t.Paired() && key !in t.events
    ensures t.Schedule(key, h).Paired()
  {
    var t' := t.Schedule(key, h);
    forall k | k in t'.events
      ensures t'.HasEvent(k)
    {
      if k != key {
        assert t.HasEvent(k) && t.HasTimer(t.events[k]);
      }
    }
    forall e | e in t'.pending
      ensures t'.HasTimer(e)
    {
      if e != t.next {
        assert t.HasTimer(e);
      }
    }
  }

  /** A new timer keeps the header it was started with, and the others keep theirs. */
  lemma ScheduleKeepsOthers(t: Timers, key: Key, h: Header)
    requires t.Paired() && key !in t.events
    ensures forall k | k in t.events || k == key ::
              t.Schedule(key, h).Kept(k) == if k == key then Some(h) else t.Kept(k)
  {
    forall k | k in t.events
      ensures t.Schedule(key, h).Kept(k) == t.Kept(k)
    {
      assert t.HasEvent(k) && t.HasTimer(t.events[k]);
    }
  }

  lemma CancelKeepsOthers(t: Timers, key: Key)
    requires t.Paired() && key in t.events
    ensures forall k | k in t.events && k != key :: t.Cancel(key).Kept(k) == t.Kept(k)
  {
    forall k | k in t.events && k != key
      ensures t.Cancel(key).Kept(k) == t.Kept(k)
    {
      assert t.HasEvent(k) && t.HasEvent(key);
    }
  }

  lemma CancelKeepsPaired(t: Timers, key: Key)
    requires t.Paired() && key in t.events
    ensures t.HasEvent(key) && t.Cancel(key).Paired()
  {
    assert t.HasEvent(key);
    var t' := t.Cancel(key);
    forall k | k in t'.events
      ensures t'.HasEvent(k)
    {
      assert t.HasEvent(k);
    }
    forall e | e in t'.pending
      ensures t'.HasTimer(e)
    {
      assert t.HasTimer(e);
    }
  }

  // ----- The table as the code keeps it -----

  class Ipv4RouterL3Protocol {
    var fragments: map<Key, Fragments>
    var timers: Timers
    var identification: map<(uint64, uint8), uint16>
    // What the buffers hold, by key, and the buffer objects in use.
    ghost var view: Buffers
    ghost var repr: set<Fragments>

    /** The buffer of key `k` holds what `view` says, and is not shared. */
    ghost predicate Holds(k: Key)
      requires k in fragments && k in view
      reads `fragments, `view, `repr, repr, fragments[k]
    {
      fragments[k] in repr && fragments[k].Valid() && fragments[k].pieces == view[k]
    }

    ghost predicate Apart(k: Key, l: Key)
      requires k in fragments && l in fragments
      reads `fragments
    {
      k != l ==> fragments[k] != fragments[l]
    }

    ghost predicate BuffersValid()
      reads `fragments, `view, `repr, repr, set k | k in fragments :: fragments[k]
    {
      && view.Keys == fragments.Keys
      && (forall k {:trigger Holds(k)} | k in fragments :: Holds(k))
      && (forall k, l {:trigger Apart(k, l)} | k in fragments && l in fragments :: Apart(k, l))
    }

    /** No buffer is empty, and buffers and timers are in step. */
    ghost predicate Valid()
      reads this, repr, set k | k in fragments :: fragments[k]
    {
      && BuffersValid()
      && (forall k | k in view :: view[k] != [])
      && timers.events.Keys == view.Keys
      && timers.Paired()
    }

    constructor ()
      ensures Valid() && view == map[] && identification == map[]
    {
      fragments := map[];
      timers := Timers(map[], map[], 0);
      identification := map[];
      view := map[];
      repr := {};
    }

    method ProcessFragment(packet: Packet) returns (ret: bool, whole: Bytes)
      requires Valid()
      modifies `fragments, `timers, `view, `repr, repr
      ensures Valid() && fresh(repr - old(repr))
      ensures view == AfterArrival(old(view), packet)
      ensures Completed(old(view), packet) == if ret then Some(whole) else None
      ensures !ret ==> whole == packet.payload
      ensures forall k | k in view ::
                timers.Kept(k) == if k in old(view) then old(timers).Kept(k) else Some(packet.header)
    {
      var key := KeyOf(packet.header.id);
      ret, whole := false, packet.payload;
      Store(key, packet);
      var entire := Check(key);
      if entire {
        assert view - {key} == old(view) - {key};
        whole := Finish(key);
        ret := true;
      }
    }

    /** A complete datagram leaves with its timer. */
    method Finish(key: Key) returns (whole: Bytes)
      requires Valid() && key in view
      modifies `fragments, `timers, `view
      ensures Valid()
      ensures whole == Assemble(old(view)[key]) && view == old(view) - {key}
      ensures forall k | k in view :: timers.Kept(k) == old(timers).Kept(k)
    {
      whole := Close(key);
      CancelKeepsOthers(timers, key);
      CancelKeepsPaired(timers, key);
      timers := timers.Cancel(key);
    }

    /** Finds or opens the buffer of `key` and adds the fragment to it. */
    method Store(key: Key, packet: Packet)
      requires Valid() && key == KeyOf(packet.header.id)
      modifies `fragments, `timers, `view, `repr, repr
      ensures Valid() && fresh(repr - old(repr))
      ensures key in view && view == old(view)[key := BufferAfter(old(view), packet)]
      ensures forall k | k in view ::
                timers.Kept(k) == if k in old(view) then old(timers).Kept(k) else Some(packet.header)
    {
      ArrivalSteps(view, packet);
      if key !in fragments {
        ScheduleKeepsOthers(timers, key, packet.header);
        ScheduleKeepsPaired(timers, key, packet.header);
        timers := timers.Schedule(key, packet.header);
        Open(key);
      }
      Add(key, packet);
    }

    method Open(key: Key)
      requires BuffersValid() && key !in fragments
      modifies `fragments, `view, `repr
      ensures BuffersValid() && fresh(repr - old(repr))
      ensures view == old(view)[key := []]
    {
      var buffer := new Fragments();
      forall k | k in fragments
        ensures fragments[k] != buffer
      {
        assert Holds(k);
      }
      repr, view, fragments := repr + {buffer}, view[key := []], fragments[key := buffer];
      forall k | k in fragments
        ensures Holds(k)
      {
        assert k != key ==> old(Holds(k));
      }
      forall k, l | k in fragments && l in fragments
        ensures Apart(k, l)
      {
        assert k != key && l != key ==> old(Apart(k, l));
      }
    }

    method Add(key: Key, packet: Packet)
      requires BuffersValid() && key in fragments
      modifies `view, repr
      ensures BuffersValid()
      ensures view == old(view)[key := Insert(old(view)[key], PieceOf(packet))]
    {
      assert Holds(key);
      var buffer := fragments[key];
      buffer.AddFragment(packet.payload, packet.header.offset, packet.header.more);
      view := view[key := buffer.pieces];
      forall k | k in fragments
        ensures Holds(k)
      {
        assert old(Holds(k)) && Apart(k, key);
      }
    }

    method Check(key: Key) returns (entire: bool)
      requires BuffersValid() && key in fragments
      ensures entire <==> Entire(view[key])
    {
      assert Holds(key);
      entire := fragments[key].IsEntire();
    }

    method Close(key: Key) returns (whole: Bytes)
      requires BuffersValid() && key in fragments && view[key] != []
      modifies `fragments, `view
      ensures BuffersValid()
      ensures whole == Assemble(old(view)[key]) && view == old(view) - {key}
    {
      assert Holds(key);
      whole := fragments[key].GetPacket();
      view := view - {key};
      fragments := fragments - {key};
      forall k | k in fragments
        ensures Holds(k)
      {
        assert old(Holds(k));
      }
      forall k, l | k in fragments && l in fragments
        ensures Apart(k, l)
      {
        assert old(Apart(k, l));
      }
    }

    /** The source looks its buffer up without a check: the buffer has to be there. */
    method HandleFragmentsTimeout(key: Key, h: Header) returns (outcome: Expiry)
      requires BuffersValid() && key in view && view[key] != [] && key in timers.events
      modifies `fragments, `timers, `view
      ensures BuffersValid()
      ensures outcome == ExpiryOf(old(view)[key], h)
      ensures view == old(view) - {key} && timers == old(timers).Cancel(key)
    {
      assert Holds(key);
      var partial := fragments[key].GetPartialPacket();
      outcome := match partial
        case None => Wrapped
        case Some(p) => if |p| > 8 then TimeExceeded(h, p) else Silent(p);
      view := view - {key};
      fragments := fragments - {key};
      timers := timers.Cancel(key);
      forall k | k in fragments
        ensures Holds(k)
      {
        assert old(Holds(k));
      }
      forall k, l | k in fragments && l in fragments
        ensures Apart(k, l)
      {
        assert old(Apart(k, l));
      }
    }

    /** The simulator runs a pending expiration: its buffer is always there to be found. */
    method Expire(event: nat) returns (outcome: Expiry)
      requires Valid() && event in timers.pending
      modifies `fragments, `timers, `view
      ensures Valid()
      ensures var e := old(timers.pending[event]);
              && e.key in old(view)
              && outcome == ExpiryOf(old(view)[e.key], e.header)
              && view == old(view) - {e.key}
              && timers == old(timers).Cancel(e.key)
              && event !in timers.pending
    {
      var expiration := timers.pending[event];
      assert timers.HasTimer(event);
      CancelKeepsPaired(timers, expiration.key);
      outcome := HandleFragmentsTimeout(expiration.key, expiration.header);
    }

    method BuildHeader(source: uint32, destination: uint32, protocol: uint8, payloadSize: uint16, ttl: uint8)
      returns (h: Header)
      modifies `identification
      ensures var t := (source * 0x1_0000_0000 + destination, protocol);
              && h == Header(DatagramId(source, destination, protocol, CounterOf(old(identification), t)),
                             ttl, 0, false, payloadSize)
              && identification == Counted(old(identification), t)
    {
      var t := (source * 0x1_0000_0000 + destination, protocol);
      if t !in identification {
        identification := identification[t := 0];
      }
      h := Header(DatagramId(source, destination, protocol, identification[t]), ttl, 0, false, payloadSize);
      var current: int := identification[t];
      identification := identification[t := Low16(current + 1)];
    }
  }

  // ----- The identification counters as values -----

  type Counters = map<(uint64, uint8), uint16>

  function CounterOf(c: Counters, t: (uint64, uint8)): uint16 {
    if t in c then c[t] else 0
  }

  function Counted(c: Counters, t: (uint64, uint8)): Counters {
    c[t := Low16(CounterOf(c, t) + 1)]
  }
}
