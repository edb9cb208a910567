/** Sums of integer sequences and histograms ("tallies") built by
    incrementing one bucket per value, as both simulations do with their
    occupancy and realm counts. */
module Counting {

  /** `np.sum` of a one-dimensional integer array. */
  function Sum(v: seq<int>): (s: int)
  {
    if v == [] then 0 else Sum(v[..|v| - 1]) + v[|v| - 1]
  }

  /** Adding `d` to one entry adds `d` to the sum. */
  lemma {:induction false} SumUpdate(h: seq<int>, j: int, d: int)
    requires 0 <= j < |h|
    ensures Sum(h[j := h[j] + d]) == Sum(h) + d
    decreases |h|
  {
    var h' := h[j := h[j] + d];
    var n := |h| - 1;
    if j == n {
      assert h'[..n] == h[..n];
    } else {
      assert h'[..n] == h[..n][j := h[j] + d];
      SumUpdate(h[..n], j, d);
    }
  }

  /** A row of `n` zeros, as `np.zeros` allocates it. */
  function Zeros(n: nat): (z: seq<int>)
    ensures |z| == n
    ensures forall k :: 0 <= k < n ==> z[k] == 0
  {
    seq(n, _ => 0)
  }

  lemma {:induction false} SumZeros(n: nat)
    ensures Sum(Zeros(n)) == 0
  {
    if n > 0 {
      assert Zeros(n)[..n - 1] == Zeros(n - 1);
      SumZeros(n - 1);
    }
  }

  /** Every value is a valid bucket index in `[0, buckets)`. */
  predicate InRange(xs: seq<int>, buckets: nat)
  {
    forall i :: 0 <= i < |xs| ==> 0 <= xs[i] < buckets
  }

  /** The histogram obtained by starting from `buckets` zeros and doing
      `h[x] += 1` for each value `x` of `xs` in order. Bucket `k` holds the
      number of occurrences of `k` in `xs`. */
  function Tally(xs: seq<int>, buckets: nat): (h: seq<int>)
    requires InRange(xs, buckets)
    ensures |h| == buckets
    ensures forall k :: 0 <= k < buckets ==> h[k] == multiset(xs)[k]
    decreases |xs|
  {
    if xs == [] then Zeros(buckets)
    else
      var prefix := xs[..|xs| - 1];
      var x := xs[|xs| - 1];
      assert xs == prefix + [x];
      var h := Tally(prefix, buckets);
      h[x := h[x] + 1]
  }

  /** Every value lands in exactly one bucket, so the buckets add up to the
      number of values. */
  lemma {:induction false} TallyTotal(xs: seq<int>, buckets: nat)
    requires InRange(xs, buckets)
    ensures Sum(Tally(xs, buckets)) == |xs|
    decreases |xs|
  {
    if xs == [] {
      SumZeros(buckets);
    } else {
      var prefix := xs[..|xs| - 1];
      var x := xs[|xs| - 1];
      TallyTotal(prefix, buckets);
      SumUpdate(Tally(prefix, buckets), x, 1);
    }
  }
}
