/** The second, simpler simulation: every tick applies one fixed adinkra
    codeword to every agent, an L-system rewrite branches a list of strings,
    and agents are finally classified into nine realms by their bit sum
    modulo 9. */
module Adinkra {
  import opened Counting
  import opened Hypercube

  const DIM: nat := 9

  /** The hard-coded parity-flip codeword. */
  const CODE: seq<int> := [1, 1, 0, 0, 1, 0, 1, 0, 1]

  /** `(state + code) % 2`: a binary state of the same length, flipped exactly
      where the codeword has a 1. */
  function AdinkraTransform(state: seq<int>): (r: seq<int>)
    requires |state| == DIM
    ensures IsState(r, DIM)
    ensures IsBinary(state) ==>
      forall i :: 0 <= i < DIM ==> (r[i] == 1 <==> state[i] != CODE[i])
  {
    AddMod2(state, CODE)
  }

  /** Applying the transform twice yields the original state. */
  lemma AdinkraInvolution(state: seq<int>)
    requires IsState(state, DIM)
    ensures AdinkraTransform(AdinkraTransform(state)) == state
  {
    AddMod2Involution(state, CODE);
  }

  /** The transform applied `k` times in a row. */
  function Iterate(state: seq<int>, k: nat): (r: seq<int>)
    requires IsState(state, DIM)
    ensures IsState(r, DIM)
    decreases k
  {
    if k == 0 then state else AdinkraTransform(Iterate(state, k - 1))
  }

  /** After an even number of applications a state is back where it started;
      after an odd number it is the transformed state. */
  lemma {:induction false} IterateParity(state: seq<int>, k: nat)
    requires IsState(state, DIM)
    ensures Iterate(state, k) == if k % 2 == 0 then state else AdinkraTransform(state)
    decreases k
  {
    if k > 0 {
      IterateParity(state, k - 1);
      if k % 2 == 0 {
        AdinkraInvolution(state);
      }
    }
  }

  /** The tick loop: for `ticks` ticks, `agents[i] = adinkra_transform(agents[i])`
      for every agent in turn. With the source's 1000 ticks, an even number,
      every agent ends in its initial state. */
  method RunTransforms(agents: seq<seq<int>>, ticks: nat) returns (result: seq<seq<int>>)
    requires IsPopulation(agents, DIM)
    ensures |result| == |agents|
    ensures forall i :: 0 <= i < |agents| ==> result[i] == Iterate(agents[i], ticks)
    ensures ticks % 2 == 0 ==> result == agents
    ensures ticks % 2 == 1 ==>
      forall i :: 0 <= i < |agents| ==> result[i] == AdinkraTransform(agents[i])
  {
    result := agents;
    var t := 0;
    while t < ticks
      invariant t <= ticks
      invariant |result| == |agents|
      invariant forall i :: 0 <= i < |agents| ==> result[i] == Iterate(agents[i], t)
    {
      var i := 0;
      while i < |result|
        invariant i <= |result| == |agents|
        invariant forall j :: 0 <= j < i ==> result[j] == Iterate(agents[j], t + 1)
        invariant forall j :: i <= j < |result| ==> result[j] == Iterate(agents[j], t)
      {
        result := result[i := AdinkraTransform(result[i])];
        i := i + 1;
      }
      t := t + 1;
    }
    forall i | 0 <= i < |agents|
      ensures result[i] == if ticks % 2 == 0 then agents[i] else AdinkraTransform(agents[i])
    {
      IterateParity(agents[i], ticks);
    }
  }

  // ---------------------------------------------------------------- branching

  /** L-system rewrite: every branch `b` becomes `b`, `b + "+"`, `b + "-"`,
      in that order. */
  function LSystemBranch(branches: seq<string>): (r: seq<string>)
    ensures |r| == 3 * |branches|
    ensures forall i :: 0 <= i < |branches| ==>
      r[3 * i] == branches[i] &&
      r[3 * i + 1] == branches[i] + "+" &&
      r[3 * i + 2] == branches[i] + "-"
    decreases |branches|
  {
    if branches == [] then []
    else
      var n := |branches| - 1;
      LSystemBranch(branches[..n]) + [branches[n], branches[n] + "+", branches[n] + "-"]
  }

  /** The branching of the axiom `["F"]` that every hundredth tick reports. */
  lemma AxiomBranches()
    ensures LSystemBranch(["F"]) == ["F", "F+", "F-"]
    ensures |LSystemBranch(["F"])| == 3
  {
    var r := LSystemBranch(["F"]);
    assert r[0] == "F" && r[1] == "F+" && r[2] == "F-";
  }

  // ------------------------------------------------------------------- realms

  /** `np.sum(agent) % 9`; numpy's `%` by a positive divisor agrees with
      Dafny's, so every realm lies in `[0, 8]`. */
  function Realm(agent: seq<int>): (r: int)
    ensures 0 <= r < 9
  {
    Sum(agent) % 9
  }

  /** For a state of the nine-dimensional hypercube the realm is its Hamming
      weight, except that weight 9 joins weight 0 in realm 0. */
  lemma RealmOfState(agent: seq<int>)
    requires IsState(agent, DIM)
    ensures Realm(agent) == if HammingWeight(agent) == 9 then 0 else HammingWeight(agent)
  {
  }

  function Realms(agents: seq<seq<int>>): (rs: seq<int>)
    ensures |rs| == |agents|
    ensures InRange(rs, 9)
  {
    seq(|agents|, i requires 0 <= i < |agents| => Realm(agents[i]))
  }

  /** The realm distribution: bucket `k` counts the agents in realm `k`, and
      the counts add up to the number of agents. */
  function RealmCounts(agents: seq<seq<int>>): (h: seq<int>)
    ensures |h| == 9
    ensures forall k :: 0 <= k < 9 ==> h[k] == multiset(Realms(agents))[k]
    ensures Sum(h) == |agents|
  {
    TallyTotal(Realms(agents), 9);
    Tally(Realms(agents), 9)
  }
}
