# ASH model in Dafny

This project models the three scripts of the Adinkra-Stabilized Hypercube
(ASH) model and proves properties about them.

- **The hypercube agent simulation** (`simulation.py`). A population of
  agents, each a 0/1 vector of length `DIM = 9`. Each tick one of six fixed
  codewords is added modulo 2 to every agent. Each agent may then have one
  bit toggled as noise. The number of agents on every Hamming-weight plane
  `0..DIM` is recorded as row `t` of an occupancy history. Row 0 holds the
  initial population.
- **The fixed-code simulation** (`src/simulate.py`). Every tick applies one
  hard-coded 9-bit codeword to every agent. An L-system rewrite triples a
  list of branch strings. Agents are finally grouped into nine "realms" by
  their bit sum modulo 9.
- **Facts about 9** (`src/derive-9-properties.py`). These cover the divisor
  count `tau`, refactorability over 3, 5, 7 and 9, the smallest odd
  composite of that list, the digital root of multiples of 9, and the root
  of `(3/2)·D − 15 = 0`.

Randomness becomes explicit input. A `Simulation.TickDraw` holds the index
of the chosen codeword and one `Draw` per agent. A `Draw` is `Quiet` (the
noise draw did not fire) or `Flip(bit)` (it fired, and `bit` is the chosen
index). The initial population is an input as well. With these inputs the
whole run is a deterministic function.

Files:

- `counting.dfy` (`Counting`): `Sum` models `np.sum`. `Tally` builds a
  histogram by doing `h[x] += 1` once per value.
- `hypercube.dfy` (`Hypercube`): binary states and populations, addition
  modulo 2, Python's `x ^ 1`, single-bit toggles, Hamming distance and
  Hamming weight.
- `simulation.dfy` (`Simulation`): the codeword table, transform, noise,
  occupancy, tick, and the loop that builds the history.
- `adinkra.dfy` (`Adinkra`): `adinkra_transform`, the repeated-transform
  loop, `lsystem_branch`, and the realm counts.
- `nine.dfy` (`NineProperties`): divisors, `tau`, refactorability,
  primality, the smallest composite, digital roots, and the linear equation.

Arithmetic follows the source exactly:

- `(a + c) % 2` and `sum % 9` are modelled on all integers. Python's and
  numpy's `%` with a positive divisor agree with Dafny's.
- `x ^= 1` is modelled as Python's XOR with 1 on any integer. On a bit it is
  `1 - x`.

Observations the proofs make precise:

- In `src/simulate.py`, `TICKS = 1000` is even. The loop therefore returns
  every agent to its random initial state (`Adinkra.RunTransforms`), so the
  printed realm distribution is that of the initial population.
- On the 9-dimensional hypercube, weight 9 falls into realm 0 together with
  weight 0 (`Adinkra.RealmOfState`).
- `digital_root(0)` is 9. The script only calls it on positive numbers.

## Model

| member | source | states |
|---|---|---|
| Counting.Tally | ASH-Model-main/simulation.py:44-46 | Incrementing one bucket per value, starting from zeros, leaves in bucket `k` exactly the number of occurrences of `k` among the values. |
| Counting.TallyTotal | ASH-Model-main/simulation.py:63-65 | The buckets of a tally add up to the number of values tallied. |
| Counting.SumUpdate | ASH-Model-main/simulation.py:65 | Adding `d` to one entry of a row adds `d` to the row's sum. |
| Hypercube.AddMod2 | ASH-Model-main/simulation.py:54 | `(v + code) % 2` has the input's length and is binary for any integer inputs. On binary inputs, entry `i` is 1 exactly when `v[i]` and `code[i]` differ, which is XOR. |
| Hypercube.AddMod2Involution | ASH-Model-main/simulation.py:54 | Adding the same codeword twice returns a binary state bit for bit, whatever integers the codeword holds. |
| Hypercube.XorOne | ASH-Model-main/simulation.py:60 | `x ^ 1` always changes `x` and its parity. On a bit it gives `1 - x`. |
| Hypercube.XorOneInvolution | ASH-Model-main/simulation.py:60 | `x ^ 1` applied twice gives back `x` on every integer, so a bit toggled twice is restored. |
| Hypercube.Toggle | ASH-Model-main/simulation.py:60 | `v[j] ^= 1` changes entry `j`, leaves every other entry and the length unchanged, and keeps a binary vector binary. |
| Hypercube.Distance | ASH-Model-main/simulation.py:57-60 | Hamming distance is at most the length, and it is 0 exactly when the two vectors are equal. |
| Hypercube.ToggleDistance | ASH-Model-main/simulation.py:60 | A single toggle moves a vector by Hamming distance exactly 1. |
| Hypercube.SumCountsOnes | ASH-Model-main/simulation.py:33-35 | `np.sum` of a binary vector is its number of 1 entries, and lies in `[0, len]`. |
| Hypercube.HammingWeight | ASH-Model-main/simulation.py:33-35 | `hamming_weight` of a binary vector is its count of 1 entries and is at most its length. |
| Hypercube.WeightLipschitz | ASH-Model-main/simulation.py:57-65 | Hamming weights of two states differ by at most their Hamming distance, so a whole tick's noise leaves an agent at most one plane from where the transform put it. |
| Hypercube.ToggleWeight | ASH-Model-main/simulation.py:60 | A noise flip moves an agent to an adjacent plane: up by one when the flipped bit was 0, down by one when it was 1. |
| Simulation.CodewordsWellFormed | ASH-Model-main/simulation.py:24-31 | The table holds six codewords, each a binary vector of length `DIM`. |
| Simulation.Transform | ASH-Model-main/simulation.py:54 | `(agents + code) % 2` keeps the population size. Every agent stays a binary vector of the codeword's length. Bit `j` of agent `i` is 1 exactly when it differed from the codeword's bit `j`. |
| Simulation.TransformInvolution | ASH-Model-main/simulation.py:54 | Applying the same codeword twice returns the whole population bit for bit. |
| Simulation.TransformDistance | ASH-Model-main/simulation.py:54 | The transform moves every agent by a Hamming distance equal to the codeword's weight. |
| Simulation.NoiseAgent | ASH-Model-main/simulation.py:58-60 | An agent whose draw does not fire is unchanged. An agent whose draw fires changes at the drawn bit only. The distance moved is 1 or 0 accordingly. |
| Simulation.Noise | ASH-Model-main/simulation.py:57-60 | Noise keeps the population size and every vector length. Every agent moves by at most one bit. An agent is unchanged exactly when its draw does not fire. Binary populations stay binary. |
| Simulation.NoiseIsLocal | ASH-Model-main/simulation.py:57-60 | Agent `i`'s noise outcome depends only on its own state and its own draw, never on another agent's. |
| Simulation.Weights | ASH-Model-main/simulation.py:63 | Every agent's weight lies in `[0, dim]`, so `occupancy_history[t, w]` is always in bounds. |
| Simulation.Occupancy | ASH-Model-main/simulation.py:63-65 | An occupancy row has `dim + 1` buckets. Bucket `k` counts the agents of weight `k`, and the row sums to the number of agents. |
| Simulation.Tick | ASH-Model-main/simulation.py:51-60 | A tick keeps the population's size and keeps it on the hypercube. Every agent ends within one bit of its transformed state. |
| Simulation.Run | ASH-Model-main/simulation.py:49-60 | Running any sequence of ticks keeps the initial population size and keeps every agent on the hypercube. |
| Simulation.RunStep | ASH-Model-main/simulation.py:49-60 | The draw of tick `t + 1` is valid for the population tick `t` left, and tick `t + 1` is applied to exactly that population. |
| Simulation.HistoryRow | ASH-Model-main/simulation.py:63-65 | Every history row has `DIM + 1` buckets and sums to the number of agents. |
| Simulation.HistoryRowPrefix | ASH-Model-main/simulation.py:49-65 | Row `t` depends only on the first `t` draws. No tick reads ahead, so extending a run never changes an earlier row. |
| Simulation.Simulate | ASH-Model-main/simulation.py:38-65 | The history has `T + 1` rows. Row 0 is the initial occupancy, and row `t` is the occupancy of the population the first `t` ticks left. Every row sums to the number of agents. The final population is the result of all `T` ticks. |
| Simulation.QuietTickIsTransform | ASH-Model-main/simulation.py:57-60 | A tick in which no noise draw fires equals the transform alone. |
| Simulation.QuietTicksCancel | ASH-Model-main/simulation.py:54 | Two noise-free ticks with the same codeword return the population to its state. |
| Simulation.FiringTickFlipsOneBit | ASH-Model-main/simulation.py:57-60 | When every noise draw fires, every agent ends exactly one bit away from its transformed state. |
| Simulation.ThreeDimensionalTransform | ASH-Model-main/simulation.py:54 | Codeword `[1,1,0]` maps `[0,0,0]`, `[1,1,1]`, `[1,0,0]`, `[0,1,1]` to `[1,1,0]`, `[0,0,1]`, `[0,1,0]`, `[1,0,1]`. |
| Simulation.ThreeDimensionalWeights | ASH-Model-main/simulation.py:63 | Those four states have weights 2, 1, 1, 2. |
| Simulation.OccupancyOfWeights | ASH-Model-main/simulation.py:63-65 | A population with weights 2, 1, 1, 2 has the three-dimensional occupancy row `[0, 2, 2, 0]`. |
| Simulation.ThreeDimensionalOccupancy | ASH-Model-main/simulation.py:63-65 | The occupancy after that tick is `[0, 2, 2, 0]`. |
| Adinkra.AdinkraTransform | ASH-Model-main/src/simulate.py:8-11 | The result is a binary vector of length 9. On a binary input it flips exactly the positions where the code has a 1. |
| Adinkra.AdinkraInvolution | ASH-Model-main/src/simulate.py:8-11 | Applying the transform twice yields the original state. |
| Adinkra.Iterate | ASH-Model-main/src/simulate.py:26-29 | Any number of repeated transforms keeps a state on the 9-dimensional hypercube. |
| Adinkra.IterateParity | ASH-Model-main/src/simulate.py:26-29 | After an even number of transforms a state equals its start. After an odd number it equals its start XOR the code. |
| Adinkra.RunTransforms | ASH-Model-main/src/simulate.py:26-29 | The tick loop leaves every agent at its start after an even number of ticks and at its start XOR the code after an odd number. With `TICKS = 1000` every agent is back at its start. |
| Adinkra.LSystemBranch | ASH-Model-main/src/simulate.py:13-20 | The result has exactly three times as many branches. Positions `3i`, `3i+1`, `3i+2` hold `b`, `b + "+"`, `b + "-"` for the `i`-th input branch `b`. |
| Adinkra.AxiomBranches | ASH-Model-main/src/simulate.py:33-34 | Branching `["F"]` gives `["F", "F+", "F-"]`, three branches. |
| Adinkra.Realm | ASH-Model-main/src/simulate.py:37 | Every realm `sum(agent) % 9` lies in `[0, 8]`. |
| Adinkra.RealmOfState | ASH-Model-main/src/simulate.py:37 | On the 9-dimensional hypercube the realm is the Hamming weight, except that weight 9 lands in realm 0. |
| Adinkra.Realms | ASH-Model-main/src/simulate.py:37 | There is one realm per agent, each in `[0, 8]`. |
| Adinkra.RealmCounts | ASH-Model-main/src/simulate.py:37-38 | Bucket `k` counts the agents in realm `k`, and the nine counts sum to the number of agents. |
| NineProperties.DivisorsUpTo | ASH-Model-main/src/derive-9-properties.py:4-6 | The list holds, in strictly increasing order, exactly the positive divisors of `n` up to `k`. Its length equals the size of that set. |
| NineProperties.Divisors | ASH-Model-main/src/derive-9-properties.py:11 | `divisors(n)` is the strictly increasing list of exactly the `d` in `[1, n]` dividing `n`. |
| NineProperties.Tau | ASH-Model-main/src/derive-9-properties.py:4-6 | `tau(n)` is the number of `d` in `[1, n]` dividing `n`, and is at least 1. |
| NineProperties.TauValues | ASH-Model-main/src/derive-9-properties.py:9 | `tau(9) = 3` and `tau(3) = tau(5) = tau(7) = 2`. |
| NineProperties.RefactorableChecks | ASH-Model-main/src/derive-9-properties.py:18-19 | Check `i` is true exactly when `m_i` is divisible by the number of its positive divisors, counted as the size of the set of `d` in `[1, m_i]` dividing `m_i`. That set always contains 1, so the count is never 0. |
| NineProperties.OnlyNineRefactorable | ASH-Model-main/src/derive-9-properties.py:10 | 9 is refactorable, and the checks over `[3, 5, 7, 9]` are `[false, false, false, true]`. |
| NineProperties.Composites | ASH-Model-main/src/derive-9-properties.py:25 | The filtered list holds only non-primes of the input, and holds every non-prime of the input. Each non-prime occurs as often as in the input and no prime occurs at all. |
| NineProperties.Minimum | ASH-Model-main/src/derive-9-properties.py:26 | The result is `None` exactly for the empty list. Otherwise it is a member of the list no larger than any member. |
| NineProperties.SmallestOddComposite | ASH-Model-main/src/derive-9-properties.py:24-26 | The non-primes of `[3, 5, 7, 9]` are `[9]`, so the smallest odd composite is 9. |
| NineProperties.DigitSumMod9 | ASH-Model-main/src/derive-9-properties.py:32 | The decimal digit sum of `m` is congruent to `m` modulo 9. |
| NineProperties.DigitalRoot | ASH-Model-main/src/derive-9-properties.py:30-33 | Negative input is an error. Otherwise the result lies in `[1, 9]` and is congruent to `m` modulo 9, so it is 9 exactly for multiples of 9. |
| NineProperties.MultipleOfNineRoot | ASH-Model-main/src/derive-9-properties.py:32-33 | Every multiple of 9 has digital root 9. |
| NineProperties.DigitalRootsOfMultiples | ASH-Model-main/src/derive-9-properties.py:35-36 | The digital roots of 9, 18, 27 and 36 are all 9. |
| NineProperties.IteratedDigitSum | ASH-Model-main/src/derive-9-properties.py:31 | Repeated digit summing ends in a single digit. |
| NineProperties.DigitalRootIsIterated | ASH-Model-main/src/derive-9-properties.py:30-33 | For every positive `m`, one digit-sum pass with the 0-to-9 adjustment equals repeated digit summing. |
| NineProperties.SolveLinear | ASH-Model-main/src/derive-9-properties.py:41-43 | `(p/q)·D + c = 0` has a root exactly when `p != 0`, and the returned rational satisfies the equation. |
| NineProperties.SolveLinearUnique | ASH-Model-main/src/derive-9-properties.py:41-43 | Every rational root of the equation equals the returned one. |
| NineProperties.CriticalDimension | ASH-Model-main/src/derive-9-properties.py:41-45 | `(3/2)·D − 15 = 0` gives `D = 10`, and `D − 1 = 9`. |

## Left out

- Plotting and saving the histogram figure (`simulation.py` lines 67-80) are user interface and file output.
- All console output is left out: the final occupancy report with its floating-point percentages, the per-tick branch counts, the realm listing and every print of the number-theory script.
- The CSV export with `np.savetxt` (`src/simulate.py` line 44) is file output.
- The random number generator is replaced by explicit draws, so probabilities are not modelled. The initial population, each tick's codeword index, and each agent's noise draw are inputs. The float comparison `np.random.rand() < NOISE_PROB` becomes the `Quiet`/`Flip` choice, and `NOISE_PROB` itself does not appear.
- The claim that occupancy converges to a bell curve is statistical and floating-point, so it is not stated.
- Simulation.Simulate: the run length and population size are inputs (`|draws|` and `|init|`). The source's 2000 ticks over 2000 agents are one instance, and no lemma fixes the inputs to those values.
- Adinkra.RunTransforms: the tick count is an input. The source's 1000 ticks are covered by the even-count clause, and no lemma instantiates it at 1000.
- Adinkra.RealmCounts: keeps all nine buckets, including empty ones. `np.unique` reports only the realms that occur, and the report prints only those.
- NineProperties.Tau: defined for `n >= 1` only. The script calls `tau` only on 3, 5, 7 and 9. How sympy's `divisors` treats 0 and negative numbers is not modelled.
- NineProperties.Composites: states which values the filtered list holds and how often, but not that they keep the input's order. Only `min` reads the list, and it does not depend on order.
- NineProperties.SolveLinear: models only the linear equation the script solves, `(p/q)·D + c = 0`, not sympy's general solver. When `p = 0` it returns no root. It does not distinguish sympy's results for the degenerate equations.
- numpy's broadcasting of a codeword whose length differs from the agents' is not modelled. The transform requires equal lengths, which the codeword table satisfies (`Simulation.CodewordsWellFormed`).
- numpy's 64-bit integer width is not modelled. No sum in these scripts comes near it.
