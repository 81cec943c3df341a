# Recombination step of a microbial genetic algorithm, in Dafny

This project models the recombination step of the steady-state "microbial"
tournament genetic algorithm in `genalgs/Recombination.py`. Two population
slots compete. The winner is chosen on fitness, using the comparison exactly as
the source writes it. One of three crossovers (uniform, single-point or
two-point) infects the loser with the winner's genes. The infected loser
overwrites the loser's slot, which is flagged in `replaced`, stored in
`loser_index` and returned.

Files:

- `outcomes.dfy` (module `Outcomes`): the exceptions the step can raise, and a
  `Result` type.
- `crossover.dfy` (module `Crossover`): the three crossovers as pure functions.
  Each has a twin method that mirrors the source's loop. There is also the
  dispatch on `crossover_method`.
- `recombination.dfy` (module `Recombination`): the engine state and
  `reproduce`, with lemmas about it. It also holds the corrected comparison
  described under Findings.

Genes are only copied, never computed, so a genotype is a `seq<T>` for any gene
type `T`. Every crossover equals `Crossover.Infect` for a mask of positions
that its random draws determine. These masks are the reference definitions
that the crossovers are proved against.

The source's random draws are parameters, each restricted to the values the
Python call can return:

- `rd.randint(0, L - 1)` gives a point `p` with `0 <= p <= L - 1`.
- `rd.sample(range(0, L), 2)` gives two distinct indices in `[0, L)`. The code
  then sorts them.
- `np.random.uniform(0, 1)` gives one value in `[0, 1)` per position.

Python's exceptions are modelled as `Err` results:

- an index outside `[-n, n)` raises IndexError;
- `randint` on an empty genotype raises ValueError;
- sampling two positions from fewer than two raises ValueError.

Negative indices denote slots counted from the end, as in Python. The index
`reproduce` returns is the raw argument.

The engine's shape is a precondition (`Recombination.Valid`). Under it,
`fitness` and `replaced` are parallel to `population` and all genotypes share
one length. The constructor of the base class sets this up, and that
constructor is not part of this model.

## Model

| member | source | states |
|---|---|---|
| `Crossover.PointCrossover` | genalgs/Recombination.py:16-38 | Length is kept. Positions before the point keep the loser's genes and positions from the point on take the winner's. So the last gene always comes from the winner. Equal to `Infect` with the single-point mask. |
| `Crossover.PointCrossoverLoop` | genalgs/Recombination.py:33-38 | The in-place loop over `range(point, len(winner))` computes exactly `PointCrossover`. |
| `Crossover.SortPair` | genalgs/Recombination.py:58 | `sorted` of two distinct draws gives a strictly increasing pair holding the same two values. |
| `Crossover.TwoPointCrossover` | genalgs/Recombination.py:41-63 | Length is kept. With the draws sorted into lo < hi, the result takes the winner's genes exactly on the inclusive span [lo, hi] and the loser's genes elsewhere. Equal to `Infect` with the span mask. |
| `Crossover.TwoPointCrossoverLoop` | genalgs/Recombination.py:58-63 | The in-place loop over `range(points[0], points[1] + 1)` computes exactly `TwoPointCrossover`. |
| `Crossover.TwoPointCopiesAtLeastTwo` | genalgs/Recombination.py:58-61 | For any winner and loser, two-point crossover takes the winner's gene on every position of its span mask, and that span holds exactly hi - lo + 1 positions, so at least two genes are copied. |
| `Crossover.PointIsTwoPointToEnd` | genalgs/Recombination.py:33-61 | Single-point crossover at p is two-point crossover with the points p and the last position, in either draw order. |
| `Crossover.UniformCrossover` | genalgs/Recombination.py:111-134 | Length is kept. Position i takes the winner's gene iff its draw is at most `prob_reproduction`. With probability at least 1 the result is the winner; with probability below 0 it is the loser. |
| `Crossover.UniformCrossoverLoop` | genalgs/Recombination.py:128-134 | The loop with one draw per position computes exactly `UniformCrossover`. |
| `Crossover.UniformCoversPoint` | genalgs/Recombination.py:128-134 | Uniform crossover whose draws fall at or below the probability exactly from p on equals single-point crossover at p. |
| `Crossover.UniformCoversTwoPoint` | genalgs/Recombination.py:128-134 | Uniform crossover whose draws fall at or below the probability exactly on [lo, hi] equals two-point crossover with those points. |
| `Crossover.Cross` | genalgs/Recombination.py:178-184 | Method 0 is uniform, 1 is single-point and any other value is two-point. The step fails exactly when that crossover's draw raises: EmptyRange for single-point on an empty genotype, SampleLargerThanPopulation for two-point on fewer than two genes. Otherwise the result is the loser infected through that crossover's mask. |
| `Crossover.CrossOnlyCopies` | genalgs/Recombination.py:35-36 | Every crossover keeps the loser's length and takes each gene from the winner or the loser at the same position; the same holds of the assignments at genalgs/Recombination.py:60-61 and :131-132. That the winner's slot is left unchanged is stated by `Recombination.Replaces` in the contract of `Recombination.Reproduce`. |
| `Crossover.CrossSelf` | genalgs/Recombination.py:178-184 | Crossing a genotype with itself yields it unchanged. This is the case where both indices denote one slot, so winner and loser are the same list. |
| `Crossover.CrossIdempotent` | genalgs/Recombination.py:178-184 | Crossing the crossed loser again with the same winner and draw changes nothing. |
| `Recombination.FirstWins` | genalgs/Recombination.py:159 | When minimising, the guard holds iff `fitness[index1] < fitness[index2]`. When maximising, both sides are 0 and the guard never holds. |
| `Recombination.Contest` | genalgs/Recombination.py:160-193 | The loser is `index2` when the guard held and `index1` otherwise. The step fails exactly when the crossover's draw raises. On success only the loser's slot changes: it holds the crossed loser, its `replaced` flag is 1 and `loser_index` is the loser. |
| `Recombination.Reproduce` | genalgs/Recombination.py:136-193 | IndexError iff an index is out of range. With both indices in range, it fails iff the crossover's draw raises, with EmptyRange for single-point and SampleLargerThanPopulation for two-point. The returned index is `index1` or `index2`. When minimising it is `index2` exactly when `fitness[index1] < fitness[index2]`, so ties replace `index1`. When maximising it is always `index1`. The returned slot alone is overwritten with the crossed loser and flagged. `loser_index` is the returned index. Every other slot, including the winner's, every other flag, the fitness and the settings are unchanged. |
| `Recombination.ContestKeepsValid` | genalgs/Recombination.py:189-190 | A successful contest keeps the population size, the parallel lengths and the common genotype length. It does so for either outcome of the comparison, so for the step as written and for the corrected one. |
| `Recombination.ContestIdempotent` | genalgs/Recombination.py:160-193 | With the same comparison outcome, indices and draw, a second contest returns the same index and leaves the engine as the first left it. |
| `Recombination.ReproduceKeepsValid` | genalgs/Recombination.py:189-190 | A step keeps the population size, the parallel lengths of `fitness` and `replaced`, and the common genotype length. |
| `Recombination.ReplacedIsCumulative` | genalgs/Recombination.py:190 | The returned slot's flag is set and no flag that was 1 is cleared. |
| `Recombination.ReproduceIdempotent` | genalgs/Recombination.py:159-193 | Fitness is not refreshed between steps. So repeating a step with the same indices and draws returns the same index and leaves the engine as the first step left it. |
| `Recombination.ReproduceEach` | genalgs/Recombination.py:136-193 | Over any sequence of steps, the engine keeps its shape, population size and genotype length. Fitness and settings are never touched. |
| `Recombination.MaximiseReplacesFitter` | genalgs/Recombination.py:159-172 | Maximising with fitness 2.0 at index 0 and 1.0 at index 1, the step as written overwrites slot 0, the fitter one. |
| `Recombination.FirstWinsCorrected` | genalgs/Recombination.py:159 | The signed comparison lets the first competitor win iff its fitness is strictly better in the configured direction. |
| `Recombination.ReproduceCorrected` | genalgs/Recombination.py:158-193 | It has the same error cases and kinds as `Reproduce`. With the corrected comparison it replaces `index2` exactly when `index1` is strictly fitter in the configured direction, so ties replace `index1`. The replaced competitor is never strictly fitter than the survivor. It has the same slot bookkeeping as `Reproduce`. |
| `Recombination.CorrectedAgreesWhenMinimising` | genalgs/Recombination.py:159 | When minimising, the corrected step and the step as written agree on every input. |

## Left out

- The base classes `Microbial` and `GeneticAlgorithm` are not part of this model. That leaves out `cycle`, deme and tournament selection, `getMostFit`, `setFitness`, and the construction of `population`, `fitness`, `replaced` and `loser_index`. Their shape is the precondition `Valid`, and `reproduce`'s arguments are taken as given.
- Mutation is left out. The class documentation mentions it, but `reproduce` never mutates.
- The distributions of `rd.randint`, `rd.sample` and `np.random.uniform` are not modelled, so neither is convergence of the uniform copy rate to `prob_reproduction`. Each draw is a parameter restricted to its range.
- The verbosity-2 printing is console output only.
- The trial drivers, plotting and CSV scripts are I/O around the engine.
- Distinct slots that hold one shared list object are not modelled. Slots are values, so writing one slot never changes another.
- Fitness values are reals. Unset (`None`) entries, NaN and infinities are not modelled, and neither is `False * inf` giving NaN.
- `crossover_method` is an integer. Python's `==` would also accept values such as `0.0` or `True`.
- The crossovers require winner and loser of equal length, which the engine shape guarantees. The source with a shorter loser, or with a longer loser's unreached tail, is not modelled.
- Python's in-place update of `loser`, which is the same list as `population[replace]`, is modelled as a functional update of that slot.

## Findings

| source | as written | input that shows it | evidently intended | confidence | as-written member | corrected member |
|---|---|---|---|---|---|---|
| genalgs/Recombination.py:159 | Each fitness is multiplied by the boolean `minimise` before the comparison. When maximising, both sides are 0, the guard is false, and `index1` is always replaced. | `minimise = False`, fitness 2.0 at index 0 and 1.0 at index 1, `reproduce(0, 1)`: slot 0, the fitter one, is overwritten. | A signed comparison under which the higher fitness wins when maximising. | high that the behaviour follows from the code, not executed | `Recombination.MaximiseReplacesFitter` | `Recombination.ReproduceCorrected` |

`Recombination.Reproduce` stays as written because it is the model of the
source. `Recombination.ReproduceCorrected` differs from it only in the
comparison. Both share `Recombination.Contest`, which holds the crossover
dispatch and the slot bookkeeping. The trial drivers call the engine with
`minimise=False`, so the defect applies on their path.
