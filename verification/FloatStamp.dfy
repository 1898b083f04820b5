/** The `(float)` cast through which the FIFO and LRU caches turn a time into an index: rounding to
    the nearest value with a 24-bit significand, ties to even. */
module FloatStamp {
  import opened Basics

  const SIGNIFICANDS := 0x100_0000

  /** The distance between neighbouring floats around `t`: the least power of two `u` with
      t < 2^24 * u. */
  function Spacing(t: nat): (u: nat)
    ensures u >= 1
  {
    if t < SIGNIFICANDS then 1 else 2 * Spacing(t / 2)
  }

  lemma {:induction false} SpacingIsLeast(t: nat)
    ensures t < SIGNIFICANDS * Spacing(t)
    ensures t >= SIGNIFICANDS ==> SIGNIFICANDS * Spacing(t) <= 2 * t
  {
    if t >= SIGNIFICANDS {
      var h, w := t / 2, Spacing(t / 2);
      SpacingIsLeast(h);
      assert t == 2 * h || t == 2 * h + 1;
      assert Spacing(t) == 2 * w;
    }
  }

  function RoundTo(t: nat, u: nat): nat
    requires u > 0
  {
    var q, r := t / u, t % u;
    if 2 * r < u || (2 * r == u && q % 2 == 0) then q * u else (q + 1) * u
  }

  function Float(t: nat): nat {
    RoundTo(t, Spacing(t))
  }

  /** The index: the float converted back to 32 bits. C++ leaves a value out of range undefined
      (times beyond 49 days in milliseconds); here it saturates. */
  function Stamp(t: nat): uint32 {
    if Float(t) < 0x1_0000_0000 then Float(t) else 0xFFFF_FFFF
  }

  /** Rounding keeps the order of times, though not their distinctness. */
  lemma StampMonotone(s: nat, t: nat)
    requires s <= t
    ensures Stamp(s) <= Stamp(t)
  {
    FloatMonotone(s, t);
  }

  lemma FloatMonotone(s: nat, t: nat)
    requires s <= t
    ensures Float(s) <= Float(t)
  {
    SpacingMonotone(s, t);
    var u, v := Spacing(s), Spacing(t);
    if u == v {
      RoundMonotone(s, t, u);
    } else {
      SpacingDoubles(s, t);
      SpacingIsLeast(s);
      SpacingIsLeast(t);
      assert t >= SIGNIFICANDS;
      RoundWithin(s, u, SIGNIFICANDS);
      RoundAbove(t, v, SIGNIFICANDS / 2);
    }
  }

  lemma {:induction false} SpacingMonotone(s: nat, t: nat)
    requires s <= t
    ensures Spacing(s) <= Spacing(t)
    decreases t
  {
    if s >= SIGNIFICANDS {
      SpacingMonotone(s / 2, t / 2);
    }
  }

  lemma {:induction false} SpacingDoubles(s: nat, t: nat)
    requires s <= t && Spacing(s) != Spacing(t)
    ensures 2 * Spacing(s) <= Spacing(t)
    decreases t
  {
    SpacingMonotone(s, t);
    if s >= SIGNIFICANDS {
      SpacingDoubles(s / 2, t / 2);
    }
  }

  lemma RoundMonotone(s: nat, t: nat, u: nat)
    requires s <= t && u > 0
    ensures RoundTo(s, u) <= RoundTo(t, u)
  {
    var q, p := s / u, t / u;
    DivMonotone(s, t, u);
    RoundsToNeighbour(s, u);
    RoundsToNeighbour(t, u);
    if q < p {
      TimesMonotone(q + 1, p, u);
    } else {
      TimesMonotone(q, q + 1, u);
    }
  }

  /** Up or down to a multiple of `u`, up exactly from the middle on (even neighbour on a tie). */
  lemma RoundsToNeighbour(t: nat, u: nat)
    requires u > 0
    ensures var q := t / u;
            && q * u <= t < q * u + u
            && RoundTo(t, u) == if 2 * (t - q * u) < u || (2 * (t - q * u) == u && q % 2 == 0) then q * u
                                else q * u + u
  {}

  /** A number below n * u does not round above it. */
  lemma RoundWithin(t: nat, u: nat, n: nat)
    requires u > 0 && t < n * u
    ensures RoundTo(t, u) <= n * u
  {
    var q := t / u;
    assert t == q * u + t % u;
    if q >= n {
      TimesMonotone(n, q, u);
    }
    TimesMonotone(q + 1, n, u);
    TimesMonotone(q, q + 1, u);
  }

  lemma RoundAbove(t: nat, u: nat, n: nat)
    requires u > 0 && n * u <= t
    ensures n * u <= RoundTo(t, u)
  {
    var q := t / u;
    assert t == q * u + t % u;
    if q < n {
      TimesMonotone(q + 1, n, u);
    }
    TimesMonotone(n, q, u);
    TimesMonotone(q, q + 1, u);
  }

  lemma DivMonotone(s: nat, t: nat, u: nat)
    requires s <= t && u > 0
    ensures s / u <= t / u
  {
    var q, p := s / u, t / u;
    assert s == q * u + s % u && t == p * u + t % u;
    if p < q {
      TimesMonotone(p + 1, q, u);
    }
  }

  lemma TimesMonotone(a: int, b: int, u: nat)
    requires a <= b
    ensures a * u <= b * u
    ensures (a + 1) * u == a * u + u
  {}

  /** The index is the time itself while that has at most 24 bits. */
  lemma SmallStampsExact(t: nat)
    requires t <= SIGNIFICANDS
    ensures Stamp(t) == t
  {
    if t == SIGNIFICANDS {
      assert Spacing(t) == 2;
    }
  }

  /** Later it is a multiple of the spacing of floats there, and none is nearer to the time. */
  lemma StampIsNearest(t: nat, n: nat) returns (q: nat)
    requires Float(t) < 0x1_0000_0000
    ensures Stamp(t) == q * Spacing(t)
    ensures Distance(Stamp(t), t) <= Distance(n * Spacing(t), t)
    ensures 2 * Distance(Stamp(t), t) <= Spacing(t)
  {
    var u := Spacing(t);
    var low := t / u;
    RoundsToNeighbour(t, u);
    TimesMonotone(low, low + 1, u);
    q := if RoundTo(t, u) == low * u then low else low + 1;
    MultiplesApart(low, n, u);
    NoneNearer(low * u, u, n * u, t, RoundTo(t, u));
  }

  lemma MultiplesApart(q: nat, n: nat, u: nat)
    ensures n * u <= q * u || q * u + u <= n * u
  {
    TimesMonotone(q, q + 1, u);
    if n <= q {
      TimesMonotone(n, q, u);
    } else {
      TimesMonotone(q + 1, n, u);
    }
  }

  lemma NoneNearer(a: nat, u: nat, c: nat, t: nat, r: nat)
    requires a <= t < a + u && (c <= a || a + u <= c)
    requires (r == a && 2 * (t - a) <= u) || (r == a + u && 2 * (t - a) >= u)
    ensures Distance(r, t) <= Distance(c, t) && 2 * Distance(r, t) <= u
  {}

  function Distance(a: nat, b: nat): nat {
    if a <= b then b - a else a - b
  }

  /** Two different times can get the same index: order among equal indexes is what counts. */
  lemma StampsTie()
    ensures Stamp(0x100_0000) == Stamp(0x100_0001)
  {}
}
