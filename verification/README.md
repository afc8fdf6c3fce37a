# SIS epidemic simulation, modelled and verified in Dafny

This project models the Susceptible-Infected-Susceptible (SIS) simulator of
netrd, `SISModel.simulate` in `netrd/dynamics/SIS.py`. The simulator takes a
contact network, a time-series length `L`, a number of initially infected
nodes (`num_seeds`) and two rates, `beta` and `mu`. It returns an N x L 0/1
matrix `TS`. Row i, column t of `TS` records whether node i is infected at
time t.

The simulation works like this:

- **Seeding.** A random permutation of `num_seeds` ones followed by zeros
  becomes column 0 and the nodes' `infected` flags.
- **Time loop.** At each step t = 1 .. L-1 the loop stops if column t-1
  sums to less than one. Otherwise it visits every node once, in a random
  order. An infected node marks each neighbour it infects (probability
  `beta`) in a staging buffer, `next_infected`. It then either recovers
  (probability `mu`), which clears its own `infected` flag, or marks itself
  in the buffer as still infected.
- **End of a step.** The buffer is committed to `infected` and reset to
  zero, and the new state is written as column t.

The model keeps this imperative shape. `SISSimulation.Simulate` allocates
an `array2<int>` for `TS` and two `array<bool>` buffers, `infected` and
`nextInfected`. Methods visit one node, visit all nodes, commit and reset,
record a column and sum a column. Each method is proved against a pure
specification in module `SISSpec`:

- `Step` is the synchronous transition. Node j is infected at step t
  exactly when it was infected and did not recover, or when some infected
  node that has j as a neighbour transmitted to it.
- `Next` adds the stop at extinction.
- `State` is column t of the time series.

Randomness is an input to the model:

- `seedPerm` is the permutation applied to the seed vector.
- `visitOrders[t-1]` is the visiting order at step t.
- `Draws` gives the uniform numbers drawn at each step. `transmit(t, i, j)`
  is compared with `beta` and `cure(t, i)` with `mu`.

So the model is deterministic for fixed inputs: the same draws and
permutations always give the same matrix.

The main results:

- `Simulate` returns an N x L matrix whose every entry is 0 or 1.
  Column t is `State(t)`, whatever the visiting orders. This holds also
  when the epidemic dies out early.
- Column 0 of the returned matrix holds exactly `num_seeds` ones (`SeedCount`, carried to the matrix by `Simulate`).
- Extinction is absorbing (`ExtinctionAbsorbing`). Stopping at extinction
  changes no column (`BreakChangesNothing`). So the zero columns after an
  early stop are the ones the full dynamics would produce.
- If no transmission succeeds, the infected count never rises. If nothing
  succeeds at all, the state never changes.
- With beta = mu = 1 each step infects exactly the neighbours of the
  infected nodes. On a complete graph with one seed the infection therefore
  spreads beyond the seed.

Nodes are the indices 0 .. N-1. The graph is an adjacency list
`seq<seq<nat>>` over those indices, in the same index order that
`index_to_node` and the column writes use.

A node cured during the visiting pass clears its own `infected` flag at
once. That flag is read and written only while the node itself is visited
(SIS.py:82, 90), and every node is visited exactly once per step. So every
read sees the previous column, and a step does not depend on the visiting
order; `VisitNodes` proves this for every permutation. The code does not
check that explicit rates lie in [0, 1], and the model does not either.

## Model

| member | source | states |
|---|---|---|
| `SISSimulation.Simulate` | netrd/dynamics/SIS.py:51-113 | For every L >= 1 and 0 <= num_seeds <= N (and, as the default `mu = 1 / N` demands, N >= 1 unless a non-zero `mu` is given), the result is an N x L matrix of 0/1 entries. Column u is `State(u)`, computed with the resolved rates from the permuted seed vector. Column 0 sums to `num_seeds`. The sum of the whole matrix is `TotalInfected`. The final `infected` flags are the last column. |
| `SISSimulation.Seed` | netrd/dynamics/SIS.py:63-69 | The permuted vector of `num_seeds` ones and zeros becomes both the `infected` flags and column 0. No other column changes. |
| `SISSimulation.RunSteps` | netrd/dynamics/SIS.py:72-103 | The loop computes a trajectory: each column follows from the previous one by `Next`. The columns after an early stop stay zero, and an early stop happens only after a column that sums to zero. |
| `SISSimulation.ColumnSum` | netrd/dynamics/SIS.py:74 | The sum of a recorded column is the number of infected nodes in it. |
| `SISSimulation.Advance` | netrd/dynamics/SIS.py:77-103 | One step: the new `infected` flags are `Step` of the old ones, the staging buffer is all zero, and column t records the new flags. |
| `SISSimulation.VisitNodes` | netrd/dynamics/SIS.py:77-94 | For any visiting permutation, the staging buffer ends equal to `Step` of the previous state. Each node's own flag is cleared exactly when it was infected and recovered. |
| `SISSimulation.VisitNode` | netrd/dynamics/SIS.py:82-94 | An infected node marks every neighbour whose draw is below beta. It then clears its own flag if its cure draw is below mu, and otherwise marks itself. A susceptible node changes nothing. |
| `SISSimulation.Commit` | netrd/dynamics/SIS.py:95-99 | The staged values become the `infected` flags, and the staging buffer is all zero afterwards. |
| `SISSimulation.RecordColumn` | netrd/dynamics/SIS.py:101-103 | Column t receives the 0/1 value of each node's flag, by node index. Every other column is unchanged. |
| `SISSimulation.MarkedExtend` | netrd/dynamics/SIS.py:79-94 | Visiting one more node adds exactly that node's transmission marks and its own mark to the staging buffer. |
| `SISSpec.ResolveRate` | netrd/dynamics/SIS.py:56-61 | A rate that is omitted or explicitly zero is replaced by the default. Any other explicit rate is kept. |
| `SISSpec.Step` | netrd/dynamics/SIS.py:78-97 | The reference transition, defined without any visiting order. The next state has one entry per node. |
| `SISSpec.Seeds` | netrd/dynamics/SIS.py:63-65 | One entry per node; entry k is infected exactly when `perm[k] < num_seeds`, i.e. it takes position `perm[k]` of the vector of `num_seeds` ones followed by zeros. |
| `SISSpec.Next` | netrd/dynamics/SIS.py:74-97 | After a column that sums to less than one comes the all-zero column (the loop stops and the allocated zeros remain); otherwise the next column is `Step`. |
| `SISSpec.State` | netrd/dynamics/SIS.py:66-103 | Every column of the trajectory has exactly one entry per node. |
| `SISSpec.TotalInfected` | tests/test_dynamics.py:53 | The sum of the first L columns is at most L * N. |
| `SISSimulation.ColumnTotalIsCount` | netrd/dynamics/SIS.py:74 | A recorded column's entries sum to the number of infected nodes in the state it records. |
| `SISSimulation.SeriesTotalIsTotalInfected` | tests/test_dynamics.py:53 | A matrix whose columns record the trajectory sums to `TotalInfected`, the number of infections over all its columns. |
| `SISSimulation.SmallSeedSeriesSpreads` | tests/test_dynamics.py:38-53 | On a complete graph of at least two nodes, the matrix recorded from one seed with explicit beta = mu = 1 and L >= 2 sums to more than 1. |
| `Counting.PermutationCovers` | netrd/dynamics/SIS.py:78-79 | A permutation of 0 .. N-1 contains every node, so every node is visited in each step. |
| `SISProperties.SeedCount` | netrd/dynamics/SIS.py:63-66 | Column 0 holds exactly `num_seeds` infected nodes. |
| `SISProperties.StepOfExtinct` | netrd/dynamics/SIS.py:74-75 | A step from a state with no infected node gives the all-zero state. |
| `SISProperties.ExtinctionAbsorbing` | netrd/dynamics/SIS.py:72-75 | Once a column sums to zero, every later column is all zero. |
| `SISProperties.ExtinctForever` | netrd/dynamics/SIS.py:72-75 | The same, for all later columns at once. |
| `SISProperties.BreakChangesNothing` | netrd/dynamics/SIS.py:72-75 | The trajectory with the stop at extinction equals the one that takes every step. |
| `SISProperties.TrajectoryIsState` | netrd/dynamics/SIS.py:72-103 | Columns built one step at a time from the seeds are exactly `State(0)`, `State(1)`, and so on. |
| `SISProperties.TrajectoryExtend` | netrd/dynamics/SIS.py:95-103 | Appending the next computed column to a trajectory gives a trajectory. |
| `SISProperties.NoTransmissionNoIncrease` | netrd/dynamics/SIS.py:82-94 | If no transmission draw succeeds at step t, every node infected at t was infected at t-1. So the count does not rise. |
| `SISProperties.NoDrawSucceeds` | netrd/dynamics/SIS.py:82-94 | If no transmission and no cure draw succeeds at step t, the state is unchanged. |
| `SISProperties.CureAllWithoutSpread` | netrd/dynamics/SIS.py:82-94 | If no transmission succeeds and every cure succeeds at step t, nobody is infected after the step. |
| `SISProperties.NeverTransmitBounded` | netrd/dynamics/SIS.py:72-103 | If no transmission ever succeeds, no column has more infected nodes than column 0. |
| `SISProperties.NeverDrawPersists` | netrd/dynamics/SIS.py:72-103 | If no transmission and no cure ever succeeds, every column equals column 0. |
| `SISProperties.CertainRatesStep` | netrd/dynamics/SIS.py:84-94 | With beta = mu = 1 and draws below 1, node j is infected after a step if and only if it is a neighbour of a previously infected node. |
| `SISProperties.TotalInfectedMono` | netrd/dynamics/SIS.py:72-103 | A longer time series never has a smaller total. |
| `SISProperties.CompleteGraphSpreads` | tests/test_dynamics.py:38-53 | On a complete graph of at least two nodes, with one seed, explicit rates beta = mu = 1 and L >= 2, the time series sums to more than 1. |

## Left out

- The networkx graph copy, node labels and the `index_to_node` dictionary. Nodes are the indices 0 .. N-1, and the per-node `infected` and `next_infected` attributes are two boolean arrays. The source keeps the simulated graph as `self.results['ground_truth']`; `Simulate`'s second result `final` stands for the `infected` attributes of that graph, and nothing else of it is modelled.
- The random number generator. The seed permutation, the per-step visiting orders and the uniform draws are inputs. The draws are indexed by step and node(s), not by their position in one random stream. Statistical claims about beta and mu are out of scope.
- The default rates `1 / avg_k` and `1 / N`. They are floating-point computations, so they are abstract parameters (`betaDefault`, `muDefault`). With no edges, `1 / avg_k` gives an infinite or undefined float in numpy rather than an error; that value is not modelled. Rates and draws are mathematical reals, not IEEE floats.
- The storage type of `TS`: numpy stores 0.0 and 1.0 as floats, and the model stores the integers 0 and 1.
- The padding branch at SIS.py:106-107. It cannot run, because `TS` is allocated with L columns. `Simulate` proves the N x L shape instead.
- The `self.results` bookkeeping (SIS.py:109-111) and the `BaseDynamics` base class. BaseDynamics is not part of this model.
- The errors raised for `num_seeds` outside [0, N] or `L < 1`, and the `ZeroDivisionError` of the default `mu = 1 / N` on a graph with no nodes (SIS.py:60-61). These are preconditions of `Simulate`, because the source raises in those cases rather than handling them.
- `SISSimulation.VisitNode`: draws are indexed by (step, node, neighbour). A neighbour listed twice therefore shares one draw, where the source would draw twice. A networkx simple graph never lists a neighbour twice.
