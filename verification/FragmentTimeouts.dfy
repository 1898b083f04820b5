/** What a router reports when the timer of an incomplete datagram expires. */
module FragmentTimeouts {
  import opened Basics
  import opened DatagramDelivery
  import opened Ipv4Fragmentation
  import opened Ipv4Reassembly
  import opened Ipv4Router
  import R = ReassemblyProperties

  /** The expiration of a buffer of true slices: its size wraps exactly if a fragment before the first gap
      ends early; otherwise the first nine bytes decide whether what has arrived up to the first gap is
      reported, with the header kept with the timer, or dropped. */
  lemma ExpiryExactly(list: seq<Piece>, d: Bytes, h: Header)
    requires R.TrueSlices(list, d) && R.Sorted(list) && list != []
    ensures R.Reach(list) <= |d|
    ensures ExpiryOf(list, h) ==
            if R.EndsEarly(list) then Wrapped
            else if forall k | 0 <= k <= 8 :: R.Covered(list, k) then TimeExceeded(h, d[..R.Reach(list)])
            else Silent(d[..R.Reach(list)])
  {
    R.PartialIsLongestPrefix(list, d);
    if R.Reach(list) <= 8 {
      assert !R.Covered(list, R.Reach(list));
    }
  }

  // ----- The fragments of a splitter -----

  /** Where in the datagram the first missing fragment starts. */
  ghost predicate FirstMissing(order: seq<nat>, m: nat) {
    m !in order && forall i: nat | i < m :: i in order
  }

  lemma FirstMissingExists(order: seq<nat>, n: nat) returns (m: nat)
    requires !All(order, n)
    ensures m < n && FirstMissing(order, m)
  {
    m := 0;
    while m in order
      invariant m <= n && forall i: nat | i < m :: i in order
      invariant m == n ==> All(order, n)
      decreases n - m
    {
      m := m + 1;
    }
  }

  /** Pieces of one tiling do not end early, however often they have arrived. */
  lemma TracksEndMonotone(list: seq<Piece>, fs: seq<Packet>, h: Header, d: Bytes, order: seq<nat>)
    requires Tiles(fs, h, 0, d, false) && |d| < 0x1_0000 && Tracks(list, fs, order)
    ensures forall a, b | 0 <= a < b < |list| :: R.End(list[a]) <= R.End(list[b])
  {
    forall a, b | 0 <= a < b < |list|
      ensures R.End(list[a]) <= R.End(list[b])
    {
      assert list[a] in list && list[b] in list;
      var i :| i in order && i < |fs| && list[a] == PieceOf(fs[i]);
      var j :| j in order && j < |fs| && list[b] == PieceOf(fs[j]);
      TileSlice(fs, h, d, i);
      TileSlice(fs, h, d, j);
      if i < j {
        TileOrder(fs, i, j);
      } else if j < i {
        TileOrder(fs, j, i);
      }
    }
  }

  /** What has arrived covers a byte exactly if the fragment that holds it has been delivered. */
  lemma TracksCover(list: seq<Piece>, fs: seq<Packet>, h: Header, d: Bytes, order: seq<nat>, m: nat, k: nat)
    requires Tiles(fs, h, 0, d, false) && |d| < 0x1_0000 && Tracks(list, fs, order)
    requires m < |fs| && FirstMissing(order, m)
    ensures k < fs[m].header.offset ==> R.Covered(list, k)
    ensures k == fs[m].header.offset ==> !R.Covered(list, k)
  {
    TileSlice(fs, h, d, m);
    if k < fs[m].header.offset {
      assert m > 0;
      assert fs[m].header.offset == End(fs[m - 1]);
      var i := TileHolding(fs, k, m);
      assert PieceOf(fs[i]) in list;
      var a :| 0 <= a < |list| && list[a] == PieceOf(fs[i]);
      TileSlice(fs, h, d, i);
      assert list[a].offset <= k < R.End(list[a]);
    }
    if k == fs[m].header.offset && R.Covered(list, k) {
      var a :| 0 <= a < |list| && list[a].offset <= k < R.End(list[a]);
      assert list[a] in list;
      var i :| i in order && i < |fs| && list[a] == PieceOf(fs[i]);
      TileSlice(fs, h, d, i);
      if i < m {
        TileOrder(fs, i, m);
      } else if m < i {
        TileOrder(fs, m, i);
      }
    }
  }

  lemma ReachIsFirstMissing(list: seq<Piece>, fs: seq<Packet>, h: Header, d: Bytes, order: seq<nat>, m: nat)
    requires Tiles(fs, h, 0, d, false) && |d| < 0x1_0000 && Tracks(list, fs, order) && list != []
    requires m < |fs| && FirstMissing(order, m)
    ensures R.TrueSlices(list, d)
    ensures R.Reach(list) == fs[m].header.offset && !R.EndsEarly(list)
  {
    TracksSlices(list, fs, h, d, order);
    TracksEndMonotone(list, fs, h, d, order);
    R.MonotoneEndsAreEnough(list);
    R.PartialIsLongestPrefix(list, d);
    TracksCover(list, fs, h, d, order, m, fs[m].header.offset);
    TracksCover(list, fs, h, d, order, m, R.Reach(list));
  }

  /** Some fragments of a datagram have arrived, in any order with any duplicates, the rest is lost, and the
      timer expires: what lies before the first missing fragment goes into the report if it is more than 8
      bytes, and is dropped silently otherwise. */
  lemma LostFragmentsReported(b: Buffers, fs: seq<Packet>, h: Header, d: Bytes, order: seq<nat>, kept: Header)
    returns (m: nat)
    requires Tiles(fs, h, 0, d, false) && |d| < 0x1_0000 && KeyOf(h.id) !in b
    requires order != [] && InRange(order, |fs|) && !All(order, |fs|)
    ensures m < |fs| && FirstMissing(order, m) && fs[m].header.offset <= |d|
    ensures var t, n := Run(b, Deliveries(fs, order)), fs[m].header.offset;
            && KeyOf(h.id) in t && t[KeyOf(h.id)] != []
            && ExpiryOf(t[KeyOf(h.id)], kept) == if n > 8 then TimeExceeded(kept, d[..n]) else Silent(d[..n])
  {
    m := FirstMissingExists(order, |fs|);
    DeliveryIncomplete(b, fs, h, d, order);
    TileSlice(fs, h, d, m);
    var list := Run(b, Deliveries(fs, order))[KeyOf(h.id)];
    assert order[0] in order;
    assert PieceOf(fs[order[0]]) in list;
    ReachIsFirstMissing(list, fs, h, d, order, m);
    ExpiryExactly(list, d, kept);
    forall k | 0 <= k <= 8
      ensures fs[m].header.offset > 8 ==> R.Covered(list, k)
    {
      TracksCover(list, fs, h, d, order, m, k);
    }
    TracksCover(list, fs, h, d, order, m, fs[m].header.offset);
  }
}
