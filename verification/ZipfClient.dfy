/** The client's choice of the next content: cumulative weights, normalised in place and searched. */
module ZipfClient {
  import opened Basics

  /** The sum of the first `n` weights. */
  function PrefixSum(weights: seq<real>, n: nat): real
    requires n <= |weights|
  {
    if n == 0 then 0.0 else PrefixSum(weights, n - 1) + weights[n - 1]
  }

  ghost predicate Positive(weights: seq<real>) {
    forall i | 0 <= i < |weights| :: weights[i] > 0.0
  }

  function Share(a: real, total: real): real
    requires total != 0.0
  {
    a / total
  }

  /** The distribution function of the weights at `i`. */
  function Cumulative(weights: seq<real>, i: nat): real
    requires i <= |weights|
  {
    var total := PrefixSum(weights, |weights|);
    if total == 0.0 then 0.0 else Share(PrefixSum(weights, i), total)
  }

  lemma {:induction false} SumsIncrease(weights: seq<real>, i: nat, j: nat)
    requires Positive(weights) && i <= j <= |weights|
    ensures PrefixSum(weights, i) <= PrefixSum(weights, j)
    ensures i < j ==> PrefixSum(weights, i) < PrefixSum(weights, j)
  {
    if i < j {
      SumsIncrease(weights, i, j - 1);
    }
  }

  lemma DivideSum(a: real, b: real, t: real)
    requires t > 0.0
    ensures Share(a + b, t) == Share(a, t) + Share(b, t)
    ensures b > 0.0 ==> Share(b, t) > 0.0
    ensures Share(t, t) == 1.0 && Share(0.0, t) == 0.0
    ensures Share(b, t) * t == b
  {}

  /** For any positive weights the normalised sums rise strictly from 0 to exactly 1, by the share
      of each weight. */
  lemma CumulativeIsDistribution(weights: seq<real>, i: nat, j: nat)
    requires Positive(weights) && weights != [] && i < j <= |weights|
    ensures PrefixSum(weights, |weights|) > 0.0
    ensures Cumulative(weights, 0) == 0.0 && Cumulative(weights, |weights|) == 1.0
    ensures Cumulative(weights, i) < Cumulative(weights, j)
    ensures (Cumulative(weights, j) - Cumulative(weights, j - 1)) * PrefixSum(weights, |weights|) == weights[j - 1]
  {
    var total := PrefixSum(weights, |weights|);
    SumsIncrease(weights, 0, |weights|);
    SumsIncrease(weights, i, j);
    DivideSum(PrefixSum(weights, i), PrefixSum(weights, j) - PrefixSum(weights, i), total);
    DivideSum(PrefixSum(weights, j - 1), weights[j - 1], total);
    assert PrefixSum(weights, j) == PrefixSum(weights, j - 1) + weights[j - 1];
  }

  /** At most one step of the distribution function contains a given value. */
  lemma StepUnique(weights: seq<real>, p: real, j: nat, k: nat)
    requires Positive(weights) && 1 <= j <= |weights| && 1 <= k <= |weights|
    requires Cumulative(weights, j - 1) < p <= Cumulative(weights, j)
    requires Cumulative(weights, k - 1) < p <= Cumulative(weights, k)
    ensures j == k
  {
    if j < k - 1 {
      CumulativeIsDistribution(weights, j, k - 1);
    } else if k < j - 1 {
      CumulativeIsDistribution(weights, k, j - 1);
    }
  }

  lemma StartsAtZero(weights: seq<real>)
    requires Positive(weights)
    ensures Cumulative(weights, 0) == PrefixSum(weights, 0) == 0.0
  {}

  lemma DividesTo(weights: seq<real>, i: nat)
    requires Positive(weights) && weights != [] && i <= |weights|
    ensures PrefixSum(weights, |weights|) != 0.0
    ensures Cumulative(weights, i) == Share(PrefixSum(weights, i), PrefixSum(weights, |weights|))
  {
    SumsIncrease(weights, 0, |weights|);
  }

  class OICNZipfClient {
    var m_range: (uint32, uint32)
    var m_N: uint32
    var m_Pcum: array<real>
    // The weights the distribution was set up for.
    ghost var weights: seq<real>

    ghost predicate Valid()
      reads this, m_Pcum
    {
      && m_N == |weights| && m_range.1 == m_range.0 + m_N && Positive(weights)
      && m_Pcum.Length == |weights| + 1
      && forall i | 0 <= i <= |weights| :: m_Pcum[i] == Cumulative(weights, i)
    }

    /** `w[i - 1]` is the weight of the i-th content, any positive number. */
    constructor SetZipf(range: (uint32, uint32), w: seq<real>)
      requires range.0 <= range.1 && |w| == range.1 - range.0 && Positive(w)
      ensures Valid() && m_range == range && weights == w && fresh(m_Pcum)
    {
      m_range := range;
      m_N := range.1 - range.0;
      weights := w;
      var cum := new real[|w| + 1];
      m_Pcum := cum;
      new;
      Accumulate(cum, w);
      Normalise(cum, w);
    }

    static method Accumulate(cum: array<real>, w: seq<real>)
      requires cum.Length == |w| + 1
      modifies cum
      ensures forall i | 0 <= i <= |w| :: cum[i] == PrefixSum(w, i)
    {
      cum[0] := 0.0;
      var i := 1;
      while i <= |w|
        invariant 1 <= i <= |w| + 1
        invariant forall j | 0 <= j < i :: cum[j] == PrefixSum(w, j)
      {
        cum[i] := cum[i - 1] + w[i - 1];
        i := i + 1;
      }
    }

    /** Divides in place; the divisor is itself the last to be divided. */
    static method Normalise(cum: array<real>, w: seq<real>)
      requires cum.Length == |w| + 1 && Positive(w)
      requires forall i | 0 <= i <= |w| :: cum[i] == PrefixSum(w, i)
      modifies cum
      ensures forall i | 0 <= i <= |w| :: cum[i] == Cumulative(w, i)
    {
      ghost var sums := cum[..];
      ghost var target := seq(|w| + 1, j requires 0 <= j <= |w| => Cumulative(w, j));
      StartsAtZero(w);
      var i := 1;
      while i <= |w|
        invariant 1 <= i <= |w| + 1
        invariant cum[..i] == target[..i]
        invariant cum[i..] == sums[i..]
      {
        assert cum[i] == sums[i] && cum[|w|] == sums[|w|];
        DividesTo(w, i);
        cum[i] := Share(cum[i], cum[|w|]);
        i := i + 1;
      }
      assert cum[..] == target;
    }

    /** The content for a random number: the one whose step of the distribution contains it. */
    method GetNextContentIndex(p_random: real) returns (content_index: uint32)
      requires Valid() && 0.0 < p_random <= 1.0
      ensures m_N == 0 ==> content_index == m_range.0
      ensures m_N > 0 ==>
                && m_range.0 < content_index <= m_range.1
                && var k := content_index - m_range.0;
                   Cumulative(weights, k - 1) < p_random <= Cumulative(weights, k)
    {
      content_index := m_range.0;
      if m_N > 0 {
        CumulativeIsDistribution(weights, 0, |weights|);
      }
      var j: nat := 0;
      var i: int := m_range.0;
      while i <= m_range.1
        invariant i == m_range.0 + j && j <= m_N + 1
        invariant forall l | 0 <= l < j :: m_Pcum[l] < p_random
        invariant content_index == m_range.0
      {
        var p_sum := m_Pcum[j];
        j := j + 1;
        if p_random <= p_sum {
          return i;
        }
        i := i + 1;
      }
    }
  }
}
