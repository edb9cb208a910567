/** Agent states: vertices of the D-dimensional hypercube, written as integer
    vectors whose entries are 0 or 1, and the operations both simulations
    apply to them. */
module Hypercube {
  import opened Counting

  predicate IsBit(x: int)
  {
    x == 0 || x == 1
  }

  predicate IsBinary(v: seq<int>)
  {
    forall i :: 0 <= i < |v| ==> IsBit(v[i])
  }

  /** A vertex of the `dim`-dimensional hypercube. */
  predicate IsState(v: seq<int>, dim: nat)
  {
    |v| == dim && IsBinary(v)
  }

  /** A population: every agent is a vertex of the `dim`-dimensional
      hypercube. */
  predicate IsPopulation(pop: seq<seq<int>>, dim: nat)
  {
    forall i :: 0 <= i < |pop| ==> IsState(pop[i], dim)
  }

  /** Element-wise `(v + code) % 2`. Python's `%` by a positive divisor agrees
      with Dafny's, so this holds for any integer entries; on bits it is XOR. */
  function AddMod2(v: seq<int>, code: seq<int>): (r: seq<int>)
    requires |v| == |code|
    ensures |r| == |v|
    ensures IsBinary(r)
    ensures IsBinary(v) && IsBinary(code) ==>
      forall i :: 0 <= i < |r| ==> (r[i] == 1 <==> v[i] != code[i])
  {
    seq(|v|, i requires 0 <= i < |v| => (v[i] + code[i]) % 2)
  }

  lemma AddTwiceMod2(x: int, c: int)
    requires IsBit(x)
    ensures ((x + c) % 2 + c) % 2 == x
  {
    var q := c / 2;
    assert c == 2 * q + c % 2;
    if c % 2 == 0 {
      assert (x + c) % 2 == x;
      assert (x + c) % 2 + c == x + 2 * q;
    } else {
      assert (x + c) % 2 == 1 - x;
      assert (x + c) % 2 + c == 2 * (q + 1) - x;
    }
  }

  /** Adding the same codeword twice is the identity on binary states: the
      transformation is an involution. The codeword may hold any integers. */
  lemma AddMod2Involution(v: seq<int>, code: seq<int>)
    requires |v| == |code| && IsBinary(v)
    ensures AddMod2(AddMod2(v, code), code) == v
  {
    var w := AddMod2(AddMod2(v, code), code);
    forall i | 0 <= i < |v|
      ensures w[i] == v[i]
    {
      AddTwiceMod2(v[i], code[i]);
    }
  }

  /** Python's `x ^ 1` on an integer: flips the lowest bit of its
      two's-complement form, for negative values too. */
  function XorOne(x: int): (y: int)
    ensures y != x
    ensures y % 2 != x % 2
    ensures IsBit(x) ==> y == 1 - x
  {
    if x % 2 == 0 then x + 1 else x - 1
  }

  lemma XorOneInvolution(x: int)
    ensures XorOne(XorOne(x)) == x
  {
  }

  /** `v[j] ^= 1`: toggles exactly entry `j`. */
  function Toggle(v: seq<int>, j: int): (r: seq<int>)
    requires 0 <= j < |v|
    ensures |r| == |v|
    ensures r[j] != v[j]
    ensures forall i :: 0 <= i < |v| && i != j ==> r[i] == v[i]
    ensures IsBinary(v) ==> IsBinary(r)
  {
    v[j := XorOne(v[j])]
  }

  /** Flipping one bit of a binary vector moves its Hamming weight by
      exactly one: up when the bit was 0, down when it was 1. */
  lemma ToggleWeight(v: seq<int>, j: int)
    requires IsBinary(v) && 0 <= j < |v|
    ensures HammingWeight(Toggle(v, j)) == HammingWeight(v) + (if v[j] == 0 then 1 else -1)
  {
    var delta := if v[j] == 0 then 1 else -1;
    assert Toggle(v, j) == v[j := v[j] + delta];
    SumUpdate(v, j, delta);
  }

  /** Hamming distance: the number of positions at which `a` and `b` differ. */
  function Distance(a: seq<int>, b: seq<int>): (d: nat)
    requires |a| == |b|
    ensures d <= |a|
    ensures d == 0 <==> a == b
    decreases |a|
  {
    if a == [] then 0
    else
      var n := |a| - 1;
      assert a == a[..n] + [a[n]] && b == b[..n] + [b[n]];
      Distance(a[..n], b[..n]) + (if a[n] == b[n] then 0 else 1)
  }

  /** Two vectors that differ at exactly one position are at distance 1. */
  lemma {:induction false} DistanceSingleDifference(a: seq<int>, b: seq<int>, j: int)
    requires |a| == |b| && 0 <= j < |a|
    requires a[j] != b[j]
    requires forall i :: 0 <= i < |a| && i != j ==> a[i] == b[i]
    ensures Distance(a, b) == 1
    decreases |a|
  {
    var n := |a| - 1;
    if j == n {
      assert a[..n] == b[..n];
    } else {
      DistanceSingleDifference(a[..n], b[..n], j);
    }
  }

  lemma ToggleDistance(v: seq<int>, j: int)
    requires 0 <= j < |v|
    ensures Distance(v, Toggle(v, j)) == 1
  {
    DistanceSingleDifference(v, Toggle(v, j), j);
  }

  /** `np.sum` of a binary vector counts its 1 entries. */
  lemma {:induction false} SumCountsOnes(v: seq<int>)
    requires IsBinary(v)
    ensures Sum(v) == multiset(v)[1]
    ensures 0 <= Sum(v) <= |v|
    decreases |v|
  {
    if v != [] {
      var n := |v| - 1;
      assert v == v[..n] + [v[n]];
      SumCountsOnes(v[..n]);
    }
  }

  /** Hamming weight of a state, computed as the source does with `np.sum`. */
  function HammingWeight(v: seq<int>): (w: nat)
    requires IsBinary(v)
    ensures w <= |v|
    ensures w == multiset(v)[1]
  {
    SumCountsOnes(v);
    Sum(v)
  }

  /** The Hamming weight changes by at most the Hamming distance: one bit
      flip moves an agent to an adjacent weight plane. */
  lemma {:induction false} WeightLipschitz(a: seq<int>, b: seq<int>)
    requires |a| == |b| && IsBinary(a) && IsBinary(b)
    ensures HammingWeight(b) - Distance(a, b) <= HammingWeight(a) <= HammingWeight(b) + Distance(a, b)
    decreases |a|
  {
    if a != [] {
      var n := |a| - 1;
      assert a == a[..n] + [a[n]] && b == b[..n] + [b[n]];
      WeightLipschitz(a[..n], b[..n]);
      SumCountsOnes(a[..n]);
      SumCountsOnes(b[..n]);
    }
  }
}
