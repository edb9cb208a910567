/** The hypercube agent simulation: each tick one codeword from a fixed table
    is added modulo 2 to every agent, each agent may then have one bit
    toggled as noise, and the number of agents on every Hamming-weight plane
    is recorded as one row of the occupancy history.

    Randomness is supplied explicitly: a `TickDraw` per tick holds the index
    of the chosen codeword and, per agent, whether noise fired and which bit
    it toggles. */
module Simulation {
  import opened Counting
  import opened Hypercube

  const DIM: nat := 9

  /** The six adinkra-inspired codewords. */
  const CODEWORDS: seq<seq<int>> := [
    [1, 1, 1, 1, 0, 0, 0, 0, 0],
    [1, 1, 0, 0, 1, 1, 0, 0, 0],
    [1, 0, 1, 0, 1, 0, 1, 0, 0],
    [1, 0, 0, 1, 1, 0, 0, 1, 0],
    [0, 1, 0, 1, 0, 1, 0, 1, 1],
    [0, 0, 1, 1, 0, 0, 1, 1, 1]
  ]

  /** Every codeword of the table is a binary vector of length `DIM`. */
  lemma CodewordsWellFormed()
    ensures |CODEWORDS| == 6
    ensures forall k :: 0 <= k < |CODEWORDS| ==> IsState(CODEWORDS[k], DIM)
  {
  }

  // ---------------------------------------------------------------- transform

  /** `(agents + code) % 2` on the agent matrix: every agent sees the same
      codeword. */
  function Transform(pop: seq<seq<int>>, code: seq<int>): (r: seq<seq<int>>)
    requires forall i :: 0 <= i < |pop| ==> |pop[i]| == |code|
    ensures |r| == |pop|
    ensures IsPopulation(r, |code|)
    ensures IsPopulation(pop, |code|) && IsBinary(code) ==>
      forall i, j :: 0 <= i < |r| && 0 <= j < |code| ==> (r[i][j] == 1 <==> pop[i][j] != code[j])
  {
    seq(|pop|, i requires 0 <= i < |pop| => AddMod2(pop[i], code))
  }

  /** Applying the same codeword twice returns the population bit for bit. */
  lemma TransformInvolution(pop: seq<seq<int>>, code: seq<int>)
    requires IsPopulation(pop, |code|)
    ensures Transform(Transform(pop, code), code) == pop
  {
    var r := Transform(Transform(pop, code), code);
    forall i | 0 <= i < |pop|
      ensures r[i] == pop[i]
    {
      AddMod2Involution(pop[i], code);
    }
  }

  /** Every agent moves by exactly the weight of the codeword. */
  lemma {:induction false} TransformDistance(v: seq<int>, code: seq<int>)
    requires |v| == |code| && IsBinary(v) && IsBinary(code)
    ensures Distance(v, AddMod2(v, code)) == HammingWeight(code)
    decreases |v|
  {
    if v != [] {
      var n := |v| - 1;
      var r := AddMod2(v, code);
      assert r[..n] == AddMod2(v[..n], code[..n]);
      assert code == code[..n] + [code[n]];
      TransformDistance(v[..n], code[..n]);
      SumCountsOnes(code[..n]);
      SumCountsOnes(code);
    }
  }

  // -------------------------------------------------------------------- noise

  /** One agent's noise draw: `np.random.rand() < NOISE_PROB` failed, or it
      succeeded and `np.random.randint(DIM)` chose `bit`. */
  datatype Draw = Quiet | Flip(bit: int)

  /** One draw per agent, each bit index inside the agent's vector. */
  predicate ValidNoise(noise: seq<Draw>, pop: seq<seq<int>>)
  {
    |noise| == |pop| &&
    forall i :: 0 <= i < |noise| ==> noise[i].Flip? ==> 0 <= noise[i].bit < |pop[i]|
  }

  /** The noise step for one agent: `agents[i, flip_bit] ^= 1` if it fired. */
  function NoiseAgent(v: seq<int>, d: Draw): (r: seq<int>)
    requires d.Flip? ==> 0 <= d.bit < |v|
    ensures |r| == |v|
    ensures IsBinary(v) ==> IsBinary(r)
    ensures d.Quiet? ==> r == v
    ensures d.Flip? ==>
      (r[d.bit] != v[d.bit] && forall j :: 0 <= j < |v| && j != d.bit ==> r[j] == v[j])
    ensures Distance(v, r) == if d.Flip? then 1 else 0
  {
    match d
    case Quiet => v
    case Flip(j) => ToggleDistance(v, j); Toggle(v, j)
  }

  /** The noise loop over all agents. Agent `i`'s outcome depends only on its
      own state and its own draw. */
  function Noise(pop: seq<seq<int>>, noise: seq<Draw>): (r: seq<seq<int>>)
    requires ValidNoise(noise, pop)
    ensures |r| == |pop|
    ensures forall i :: 0 <= i < |r| ==> |r[i]| == |pop[i]|
    ensures forall i :: 0 <= i < |r| ==> Distance(pop[i], r[i]) <= 1
    ensures forall i :: 0 <= i < |r| ==> (r[i] == pop[i] <==> noise[i].Quiet?)
    ensures forall dim: nat :: IsPopulation(pop, dim) ==> IsPopulation(r, dim)
  {
    seq(|pop|, i requires 0 <= i < |pop| => NoiseAgent(pop[i], noise[i]))
  }

  /** The noise step of one agent does not read any other agent or draw. */
  lemma NoiseIsLocal(pop: seq<seq<int>>, noise: seq<Draw>,
                     pop': seq<seq<int>>, noise': seq<Draw>, i: int)
    requires ValidNoise(noise, pop) && ValidNoise(noise', pop')
    requires 0 <= i < |pop| && 0 <= i < |pop'|
    requires pop[i] == pop'[i] && noise[i] == noise'[i]
    ensures Noise(pop, noise)[i] == Noise(pop', noise')[i]
  {
  }

  // ---------------------------------------------------------------- occupancy

  /** `np.sum(agents, axis=1)`: the Hamming weight of every agent. */
  function Weights(pop: seq<seq<int>>, dim: nat): (ws: seq<int>)
    requires IsPopulation(pop, dim)
    ensures |ws| == |pop|
    ensures InRange(ws, dim + 1)
  {
    seq(|pop|, i requires 0 <= i < |pop| => HammingWeight(pop[i]))
  }

  /** One occupancy row: `occupancy_history[t, w] += 1` for every agent's
      weight `w`. Every index lies in `[0, dim]`, bucket `k` counts the agents
      of weight `k`, and the row sums to the number of agents. */
  function Occupancy(pop: seq<seq<int>>, dim: nat): (h: seq<int>)
    requires IsPopulation(pop, dim)
    ensures |h| == dim + 1
    ensures forall k :: 0 <= k <= dim ==> h[k] == multiset(Weights(pop, dim))[k]
    ensures Sum(h) == |pop|
  {
    TallyTotal(Weights(pop, dim), dim + 1);
    Tally(Weights(pop, dim), dim + 1)
  }

  // --------------------------------------------------------------------- tick

  /** The random choices of one tick: `np.random.randint(len(CODEWORDS))` and
      one noise draw per agent. */
  datatype TickDraw = TickDraw(code: int, noise: seq<Draw>)

  predicate ValidTick(d: TickDraw, pop: seq<seq<int>>)
  {
    0 <= d.code < |CODEWORDS| && ValidNoise(d.noise, pop)
  }

  /** The draws of a whole run over a population of `n` agents of length `DIM`. */
  predicate ValidDraws(draws: seq<TickDraw>, n: nat)
  {
    forall t :: 0 <= t < |draws| ==>
      0 <= draws[t].code < |CODEWORDS| && |draws[t].noise| == n &&
      forall i :: 0 <= i < n ==> draws[t].noise[i].Flip? ==> 0 <= draws[t].noise[i].bit < DIM
  }

  /** One tick: transform with the chosen codeword, then noise. The
      population stays on the hypercube and keeps its size, and every agent
      ends within one bit of its transformed state. */
  function Tick(pop: seq<seq<int>>, d: TickDraw): (r: seq<seq<int>>)
    requires IsPopulation(pop, DIM) && ValidTick(d, pop)
    ensures |r| == |pop|
    ensures IsPopulation(r, DIM)
    ensures forall i :: 0 <= i < |r| ==>
      Distance(AddMod2(pop[i], CODEWORDS[d.code]), r[i]) <= 1
  {
    CodewordsWellFormed();
    Noise(Transform(pop, CODEWORDS[d.code]), d.noise)
  }

  /** The population left after applying every draw of `draws` in order,
      one tick per draw, starting from `init`. */
  function Run(init: seq<seq<int>>, draws: seq<TickDraw>): (p: seq<seq<int>>)
    requires IsPopulation(init, DIM) && ValidDraws(draws, |init|)
    ensures |p| == |init|
    ensures IsPopulation(p, DIM)
    decreases |draws|
  {
    if draws == [] then init
    else
      var n := |draws| - 1;
      var prev := Run(init, draws[..n]);
      assert ValidTick(draws[n], prev);
      Tick(prev, draws[n])
  }

  /** Tick `t + 1` acts on the population left by tick `t`, never on an
      older or a later one. */
  lemma RunStep(init: seq<seq<int>>, draws: seq<TickDraw>, t: nat)
    requires IsPopulation(init, DIM) && ValidDraws(draws, |init|) && t < |draws|
    ensures ValidTick(draws[t], Run(init, draws[..t]))
    ensures Run(init, draws[..t + 1]) == Tick(Run(init, draws[..t]), draws[t])
  {
    assert draws[..t + 1][..t] == draws[..t];
  }

  /** Row `t` of the occupancy history: the occupancy of the population left
      by the first `t` ticks. It has one bucket per weight plane `0..DIM` and
      sums to the number of agents. */
  function HistoryRow(init: seq<seq<int>>, draws: seq<TickDraw>, t: nat): (h: seq<int>)
    requires IsPopulation(init, DIM) && ValidDraws(draws, |init|) && t <= |draws|
    ensures |h| == DIM + 1 && Sum(h) == |init|
  {
    Occupancy(Run(init, draws[..t]), DIM)
  }

  /** Row `t` depends only on the first `t` draws: extending a run by later
      ticks never changes a row recorded earlier. */
  lemma HistoryRowPrefix(init: seq<seq<int>>, draws: seq<TickDraw>, k: nat, t: nat)
    requires IsPopulation(init, DIM) && ValidDraws(draws, |init|)
    requires t <= k <= |draws|
    ensures HistoryRow(init, draws[..k], t) == HistoryRow(init, draws, t)
  {
    assert draws[..k][..t] == draws[..t];
  }

  /** The whole simulation loop. `history` starts as a zero matrix of
      `|draws| + 1` rows and `DIM + 1` columns; row 0 records the initial
      population, tick `t` writes row `t` only and leaves the rows after it
      zero until their tick comes. */
  method Simulate(init: seq<seq<int>>, draws: seq<TickDraw>)
    returns (agents: seq<seq<int>>, history: seq<seq<int>>)
    requires IsPopulation(init, DIM) && ValidDraws(draws, |init|)
    ensures agents == Run(init, draws)
    ensures |history| == |draws| + 1 &&
      forall t :: 0 <= t <= |draws| ==> history[t] == HistoryRow(init, draws, t)
    ensures forall t :: 0 <= t < |history| ==> |history[t]| == DIM + 1 && Sum(history[t]) == |init|
  {
    history := seq(|draws| + 1, _ => Zeros(DIM + 1));
    agents := init;
    assert draws[..0] == [];
    history := history[0 := Occupancy(agents, DIM)];
    var t: nat := 0;
    while t < |draws|
      invariant t <= |draws|
      invariant |history| == |draws| + 1
      invariant agents == Run(init, draws[..t])
      invariant forall s :: 0 <= s <= t ==> history[s] == HistoryRow(init, draws, s)
      invariant forall s :: t < s < |history| ==> history[s] == Zeros(DIM + 1)
    {
      RunStep(init, draws, t);
      agents := Tick(agents, draws[t]);
      t := t + 1;
      history := history[t := Occupancy(agents, DIM)];
    }
    assert draws[..t] == draws;
  }

  // ---------------------------------------------------------- noise extremes

  function AllQuiet(n: nat): (noise: seq<Draw>)
    ensures |noise| == n && forall i :: 0 <= i < n ==> noise[i].Quiet?
  {
    seq(n, _ => Quiet)
  }

  /** With noise probability 0 a tick is the transform alone. */
  lemma QuietTickIsTransform(pop: seq<seq<int>>, code: int)
    requires IsPopulation(pop, DIM) && 0 <= code < |CODEWORDS|
    ensures Tick(pop, TickDraw(code, AllQuiet(|pop|))) == Transform(pop, CODEWORDS[code])
  {
    CodewordsWellFormed();
  }

  /** Two quiet ticks with the same codeword return every agent to its state. */
  lemma QuietTicksCancel(pop: seq<seq<int>>, code: int)
    requires IsPopulation(pop, DIM) && 0 <= code < |CODEWORDS|
    ensures Tick(Tick(pop, TickDraw(code, AllQuiet(|pop|))), TickDraw(code, AllQuiet(|pop|))) == pop
  {
    CodewordsWellFormed();
    QuietTickIsTransform(pop, code);
    QuietTickIsTransform(Transform(pop, CODEWORDS[code]), code);
    TransformInvolution(pop, CODEWORDS[code]);
  }

  /** With noise probability 1 every agent has exactly one bit flipped. */
  lemma FiringTickFlipsOneBit(pop: seq<seq<int>>, d: TickDraw, i: int)
    requires IsPopulation(pop, DIM) && ValidTick(d, pop)
    requires forall k :: 0 <= k < |pop| ==> d.noise[k].Flip?
    requires 0 <= i < |pop|
    ensures Distance(AddMod2(pop[i], CODEWORDS[d.code]), Tick(pop, d)[i]) == 1
  {
    CodewordsWellFormed();
  }

  /** A concrete three-dimensional tick: four agents, codeword `[1, 1, 0]`,
      no noise. */
  lemma ThreeDimensionalTransform()
    ensures Transform([[0, 0, 0], [1, 1, 1], [1, 0, 0], [0, 1, 1]], [1, 1, 0])
         == [[1, 1, 0], [0, 0, 1], [0, 1, 0], [1, 0, 1]]
  {
    var r := Transform([[0, 0, 0], [1, 1, 1], [1, 0, 0], [0, 1, 1]], [1, 1, 0]);
    assert r[0] == [1, 1, 0];
    assert r[1] == [0, 0, 1];
    assert r[2] == [0, 1, 0];
    assert r[3] == [1, 0, 1];
  }

  lemma ThreeDimensionalWeights()
    ensures Weights([[1, 1, 0], [0, 0, 1], [0, 1, 0], [1, 0, 1]], 3) == [2, 1, 1, 2]
  {
    assert HammingWeight([1, 1, 0]) == 2 by { assert multiset([1, 1, 0])[1] == 2; }
    assert HammingWeight([0, 0, 1]) == 1 by { assert multiset([0, 0, 1])[1] == 1; }
    assert HammingWeight([0, 1, 0]) == 1 by { assert multiset([0, 1, 0])[1] == 1; }
    assert HammingWeight([1, 0, 1]) == 2 by { assert multiset([1, 0, 1])[1] == 2; }
  }

  /** A population whose weights are `[2, 1, 1, 2]` has two agents on each
      of planes 1 and 2 and none on planes 0 and 3. */
  lemma OccupancyOfWeights(pop: seq<seq<int>>)
    requires IsPopulation(pop, 3) && Weights(pop, 3) == [2, 1, 1, 2]
    ensures Occupancy(pop, 3) == [0, 2, 2, 0]
  {
    var h := Occupancy(pop, 3);
    assert multiset([2, 1, 1, 2]) == multiset{1, 1, 2, 2};
    assert h[0] == 0 && h[1] == 2 && h[2] == 2 && h[3] == 0;
  }

  /** The occupancy after that tick: two agents on plane 1, two on plane 2. */
  lemma ThreeDimensionalOccupancy()
    ensures Occupancy([[1, 1, 0], [0, 0, 1], [0, 1, 0], [1, 0, 1]], 3) == [0, 2, 2, 0]
  {
    ThreeDimensionalWeights();
    OccupancyOfWeights([[1, 1, 0], [0, 0, 1], [0, 1, 0], [1, 0, 1]]);
  }
}
