/** The identification counters over whole runs (section 4.3 of RFC 6864). */
module Identification {
  import opened Basics
  import opened Ipv4Fragmentation
  import opened Ipv4Router

  /** What a counter is kept for. */
  datatype Flow = Flow(source: uint32, destination: uint32, protocol: uint8) {
    function Slot(): (uint64, uint8) {
      (source * 0x1_0000_0000 + destination, protocol)
    }
  }

  /** The counters after headers have been built for `flows`, in this order. */
  function CountersAfter(c: Counters, flows: seq<Flow>): Counters {
    if flows == [] then c
    else Counted(CountersAfter(c, flows[..|flows| - 1]), flows[|flows| - 1].Slot())
  }

  /** The header fields the `i`-th datagram is told apart by. */
  function Built(c: Counters, flows: seq<Flow>, i: nat): DatagramId
    requires i < |flows|
  {
    var f := flows[i];
    DatagramId(f.source, f.destination, f.protocol, CounterOf(CountersAfter(c, flows[..i]), f.Slot()))
  }

  function Count(flows: seq<Flow>, f: Flow): nat {
    if flows == [] then 0
    else Count(flows[..|flows| - 1], f) + if flows[|flows| - 1] == f then 1 else 0
  }

  lemma SlotsDistinct(f: Flow, g: Flow)
    ensures f.Slot() == g.Slot() <==> f == g
  {}

  lemma {:induction false} CounterIsCount(c: Counters, flows: seq<Flow>, f: Flow)
    ensures CounterOf(CountersAfter(c, flows), f.Slot()) == Low16(CounterOf(c, f.Slot()) + Count(flows, f))
  {
    if flows != [] {
      var front, last := flows[..|flows| - 1], flows[|flows| - 1];
      CounterIsCount(c, front, f);
      SlotsDistinct(last, f);
      if last == f {
        Next(CounterOf(c, f.Slot()) + Count(front, f));
      }
    }
  }

  /** From the start, a datagram's identification is the number of datagrams of its flow built before it,
      modulo 65536. */
  lemma IdentificationFromStart(flows: seq<Flow>, i: nat)
    requires i < |flows|
    ensures var f := flows[i];
            Built(map[], flows, i) == DatagramId(f.source, f.destination, f.protocol, Count(flows[..i], f) % 0x1_0000)
  {
    CounterIsCount(map[], flows[..i], flows[i]);
  }

  lemma Next(n: nat)
    ensures Low16(Low16(n) + 1) == Low16(n + 1)
  {}

  lemma {:induction false} CountSplits(flows: seq<Flow>, i: nat, f: Flow)
    requires i <= |flows|
    ensures Count(flows, f) == Count(flows[..i], f) + Count(flows[i..], f)
  {
    if i < |flows| {
      var front := flows[..|flows| - 1];
      CountSplits(front, i, f);
      assert front[..i] == flows[..i];
      assert flows[i..][..|flows| - i - 1] == front[i..];
    } else {
      assert flows[..i] == flows && flows[i..] == [];
    }
  }

  /** Two datagrams of one router share a reassembly key exactly when they belong to the same flow
      and the datagrams of that flow from the one up to the other are a multiple of 65536,
      whatever is sent to other flows in between. */
  lemma KeySharedExactly(c: Counters, flows: seq<Flow>, i: nat, j: nat)
    requires i < j < |flows|
    ensures KeyOf(Built(c, flows, i)) == KeyOf(Built(c, flows, j))
       <==> flows[i] == flows[j] && Count(flows[i..j], flows[i]) % 0x1_0000 == 0
  {
    var f := flows[i];
    if f == flows[j] {
      CountBetween(flows, i, j, f);
      CounterIsCount(c, flows[..i], f);
      CounterIsCount(c, flows[..j], f);
      Multiples(CounterOf(c, f.Slot()) + Count(flows[..i], f), Count(flows[i..j], f));
    }
  }

  lemma CountBetween(flows: seq<Flow>, i: nat, j: nat, f: Flow)
    requires i < j < |flows|
    ensures Count(flows[..j], f) == Count(flows[..i], f) + Count(flows[i..j], f)
  {
    CountSplits(flows[..j], i, f);
    assert flows[..j][..i] == flows[..i] && flows[..j][i..] == flows[i..j];
  }

  lemma Multiples(a: nat, n: nat)
    ensures Low16(a) == Low16(a + n) <==> n % 0x1_0000 == 0
  {}

  /** So any two of 65536 consecutive datagrams of a flow are told apart. */
  lemma ConsecutiveDistinct(c: Counters, flows: seq<Flow>, i: nat, j: nat)
    requires i < j < |flows| && Count(flows[i..j], flows[i]) < 0x1_0000
    ensures KeyOf(Built(c, flows, i)) != KeyOf(Built(c, flows, j))
  {
    KeySharedExactly(c, flows, i, j);
    var own := flows[i..j];
    CountSplits(own, 1, flows[i]);
    assert own[..1][..0] == [] && own[..1][0] == flows[i];
  }
}
