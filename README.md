# N-queens local search, modelled in Dafny

A Dafny model of a small N-queens toolkit. It has three local searches that share one objective.

A state is a sequence whose c-th element is the row of the queen in column c. Rows and columns are numbered from 0. The objective `h` is the number of pairs of queens that attack each other along a row or a diagonal.

- `board.dfy` (module `Board`, from `utils.py`) holds the parts shared by all three searches:
  - `conflict` is a predicate;
  - `h` is a recursive specification function;
  - the nested loop that computes `h` is a method proved equal to it.

  The lemmas prove these facts about `h`:
  - it counts every attacking unordered pair exactly once;
  - it is zero exactly on solutions;
  - it is bounded by N(N-1)/2.
- `hill_climbing.dfy` (module `HillClimbing`) covers steepest-ascent hill climbing:
  - the exhaustive scan of single-queen moves, which keeps the first move with strictly lowest `h`;
  - the climb, which repeats that move until it no longer improves.

  The climb is proved to terminate at a local minimum. Each step of its path is the steepest move, the first in enumeration order among those of lowest `h`, so `h` strictly decreases along the path.
- `simulated_annealing.dfy` (module `SimulatedAnnealing`) covers:
  - the random successor with its rejection loop;
  - the linear schedule max(1 - t/100, 0), computed in exact rationals;
  - the annealing loop over t = 1 .. 100, specified by a recursive function `Run` that follows the loop step by step, with `Walk` listing the states it adopts. The schedule enters the loop as the table of its values at t = 1 .. 100.
- `genetic.dfy` (module `Genetic`) covers:
  - fitness (N(N-1)/2 - h);
  - single-point crossover;
  - point mutation, which updates a list in place and is modelled as an `array` update;
  - one generation of fitness-weighted breeding;
  - the generation loop, which tracks `min_h` and returns the fittest state of the last population.

Every random draw is an explicit input, constrained to its documented range:
- in simulated annealing: the column, the successive row draws of the rejection loop, and the outcome of the acceptance test;
- in the genetic algorithm: the parent pair, the crossover point, and each mutation's coin, column and row.

The searches return ghost traces that the contracts speak about:
- the path of the climb;
- the accepted states of the annealing run;
- the populations of the genetic run.

Errors are modelled as results. In `genetic_algorithm` these are the exceptions the code raises:
- an empty initial population (`population[0]`);
- zero total fitness (`f / total_fitness`);
- a probability list whose length differs from the number of indices;
- fewer than two states with nonzero weight for a draw of two parents without replacement;
- `min()` of an empty new population when P = 1.

`Genetic.GenerationError` names the error one pass of the loop raises, checking the cases in the order the loop body meets them. Every failure of the loop is that error on the last population.

Odd population sizes follow the code, not a silent shrinking of the population. The code reads `population_size` once, before the loop (genetic.py:107). So an odd P gives P - 1 children in the first generation. The second generation then asks for a weighted draw over `range(P)` with only P - 1 weights, which raises. `Genetic.GeneticAlgorithm` states that every run with odd P and enough generations (P = 1 with at least one, otherwise at least two) ends in an error.

## Model

| member | source | states |
|---|---|---|
| `Board.Conflict` | utils.py:1-8 | Two queens conflict exactly when they share a row, or their row distance equals their column distance (a shared diagonal). Columns are not compared |
| `Board.ConflictSymmetric` | utils.py:1-8 | Swapping the two queens does not change whether they conflict |
| `Board.SameColumnNoConflict` | utils.py:3-8 | Columns are never compared: two different rows of one column are not a row or diagonal conflict |
| `Board.CountConflicts` | utils.py:11-21 | The nested loop over c1 < c2 returns exactly h of the state, and at most N(N-1)/2 |
| `Board.HCountsConflictPairs` | utils.py:16-21 | h equals the number of unordered column pairs c1 < c2 whose queens attack each other, so each pair is counted once |
| `Board.HZeroIffNoConflicts` | utils.py:18-21 | h is 0 exactly when no two queens attack each other |
| `Board.HBounds` | utils.py:16-21 | h(state) <= N(N-1)/2 |
| `Board.HSmall` | utils.py:16-21 | A state of zero or one queens has h = 0 |
| `Board.HOfFourQueensSolution` | utils.py:11-21 | h([1, 3, 0, 2]) = 0 |
| `Board.HOfFourQueensExample` | utils.py:30 | h([3, 1, 3, 1]) = 2 |
| `Board.MoveIsNeighbour` | hill_climbing.py:20-21 | Setting one column to another row in [0, N) yields a neighbour (exactly one column differs) and keeps every row in [0, N) |
| `HillClimbing.GetBestSuccessor` | hill_climbing.py:6-26 | best_h = h(best) <= h(current), and best_h <= h of every single-queen move. If best_h < h(current), best is one move current[col := row] with row in [0, N) and different from current[col], and every move enumerated before it (column, then row) is strictly worse. Otherwise best is the input. Length and row range are kept |
| `HillClimbing.SteepestStepUnique` | hill_climbing.py:6-26 | At most one state is the steepest step from a given state, so the climb is deterministic |
| `HillClimbing.HillClimbing` | hill_climbing.py:29-41 | final_h = h(final) <= h(initial), and no single-queen move lowers h(final). The path from initial to final goes through neighbours. Each step is the steepest move: h strictly drops, no move from the previous state leads lower, and every move enumerated before it is strictly worse. So the path has at most h(initial) <= N(N-1)/2 moves. Length and row range are kept |
| `SimulatedAnnealing.FirstOtherIndexIsFirst` | simulated_annealing.py:31-33 | The index where the redraw loop stops is the first draw different from the current row, or the number of draws when every draw repeats it |
| `SimulatedAnnealing.GenerateRandomSuccessor` | simulated_annealing.py:14-35 | The result equals `RandomSuccessor`. It is absent exactly when every row draw repeats state[col]. Otherwise it is state[col := r], where r is the first draw different from state[col]. It has the same length and equals the input at every other column |
| `SimulatedAnnealing.SingleQueenExhaustsDraws` | simulated_annealing.py:31-33 | With N = 1, every in-range row draw repeats the current row, so the rejection loop cannot finish |
| `SimulatedAnnealing.Schedule` | simulated_annealing.py:38-52 | The temperature is >= 0 and at most 1 for t >= 0. It is 0 exactly when t >= 100 |
| `SimulatedAnnealing.ScheduleNonIncreasing` | simulated_annealing.py:52 | The temperature never rises as t grows |
| `SimulatedAnnealing.ScheduleStopsAtHundred` | simulated_annealing.py:52 | The temperature is nonzero for t = 1 .. 99 and zero at t = 100 |
| `SimulatedAnnealing.ScheduleRunsNinetyNineSteps` | simulated_annealing.py:75-77 | Under this schedule, a run that completes makes exactly 99 successor steps |
| `SimulatedAnnealing.StepOf` | simulated_annealing.py:78-82 | A proposed successor has length N and next_h = h(next) |
| `SimulatedAnnealing.AnnealStep` | simulated_annealing.py:78-82 | The step equals `StepOf`. It is stuck exactly when every row draw repeats the current row. Otherwise it proposes a neighbour and next_h = h(next). The proposal is accepted exactly when next_h <= current_h, T < 0, or the acceptance coin is true. A strict improvement is always accepted |
| `SimulatedAnnealing.Run` | simulated_annealing.py:75-84 | A run stuck in the redraw loop reports a step between its start and 100. A finished run keeps the length of the state, and its min_h is at most the minimum carried in |
| `SimulatedAnnealing.Walk` | simulated_annealing.py:78-83 | The adopted states start with the current state |
| `SimulatedAnnealing.RunStops` | simulated_annealing.py:75-77 | At a zero temperature, or after t = 100, the run returns the current state and min_h, and adopts nothing more |
| `SimulatedAnnealing.RunSteps` | simulated_annealing.py:78-83 | An accepted proposal continues the run from the successor with min(min_h, next_h) and adds it to the walk. A rejected one continues from the same state and min_h |
| `SimulatedAnnealing.WalkIsNeighbourChain` | simulated_annealing.py:78-82 | Consecutive adopted states differ by one queen moved to another row |
| `SimulatedAnnealing.RunEndsOnWalk` | simulated_annealing.py:82-84 | A finished run returns the last adopted state |
| `SimulatedAnnealing.RunMinBelowWalk` | simulated_annealing.py:82-83 | The min_h of a finished run is at most the h of every adopted state |
| `SimulatedAnnealing.RunMinOnWalk` | simulated_annealing.py:82-83 | The min_h of a finished run is the minimum carried in, or the h of an adopted state |
| `SimulatedAnnealing.RunFromInitial` | simulated_annealing.py:73-84 | A finished run from the initial state walks by single-queen moves from it to the returned state. Its min_h is the smallest h along that walk |
| `SimulatedAnnealing.AnnealIteration` | simulated_annealing.py:76-83 | One pass of the loop body at a nonzero temperature either gets stuck in the redraw loop, and the whole run is then stuck at that step, or keeps the loop invariant: what remains of `Run` and `Walk` continues from the new state |
| `SimulatedAnnealing.SimulatedAnnealing` | simulated_annealing.py:55-84 | The result is `Run` from the initial state with min_h = h(initial), and the visited states are its `Walk`. A completed run returns the last accepted state. The visited states start at the initial state and move through neighbours. min_h is the smallest h over the initial and all accepted states. Every executed step had a nonzero temperature, and the loop stops at the first zero or after t = 100. Length and row range are kept. A run whose row draws run out reports the step at which that happened |
| `Genetic.Fitness` | genetic.py:14-31 | 0 <= fitness <= N(N-1)/2 |
| `Genetic.FitnessMaximalIffSolution` | genetic.py:28-31 | Fitness is N(N-1)/2 exactly on solutions |
| `Genetic.FitnessOrdersInverseToH` | genetic.py:28-31 | For states of equal length, higher fitness means lower h, in both directions |
| `Genetic.Reproduce` | genetic.py:34-56 | Both children have length N. child1 takes parent1 before the point and parent2 from it on; child2 does the opposite |
| `Genetic.ReproduceKeepsGenes` | genetic.py:54-55 | At every column, the children's two rows are the parents' two rows. Together the children hold the parents' rows as a multiset, and valid parents give valid children |
| `Genetic.ReproduceSwapsChildren` | genetic.py:54-55 | Swapping the parents swaps the children |
| `Genetic.Mutated` | genetic.py:75-81 | Length is kept and only the drawn column can change. With the coin, that column gets the drawn row, which may equal the old one. A valid state stays valid |
| `Genetic.Mutate` | genetic.py:59-81 | The list is updated in place to the mutated state |
| `Genetic.MutateChild` | genetic.py:123-124 | A child handed to mutate comes back as the mutated child |
| `Genetic.NextGeneration` | genetic.py:115-125 | The new population has two states per pairing |
| `Genetic.NextGenerationKeepsShape` | genetic.py:115-125 | Every new state has width N, and valid parents give a valid population |
| `Genetic.NextGenerationOffspring` | genetic.py:115-125 | Pairing m contributes exactly states 2m and 2m + 1: its two mutated children, in order |
| `Genetic.Breed` | genetic.py:115-125 | The inner loop builds exactly the specified new population |
| `Genetic.MinConflictsIsMinimum` | genetic.py:108 | The minimum h of a population is at most the h of every state and is attained by one of them |
| `Genetic.TotalFitnessZeroIff` | genetic.py:111-113 | The total fitness is zero exactly when every state has fitness zero |
| `Genetic.PositiveCountZeroIff` | genetic.py:117-119 | No state has nonzero weight exactly when the total fitness is zero |
| `Genetic.FittestIndexIsFirstMaximum` | genetic.py:131 | The chosen state has maximal fitness, and every earlier state has strictly lower fitness |
| `Genetic.PositiveTotalNeedsTwoQueens` | genetic.py:111-113 | A positive total fitness implies N >= 2, so the crossover range [1, N - 1] is not empty |
| `Genetic.LineageSizes` | genetic.py:115-127 | Every bred generation has 2 * (P // 2) states: P when P is even, P - 1 when P is odd |
| `Genetic.RunMinIsMinimum` | genetic.py:108-129 | min_h is at most the h of every state of every generation, and one of them attains it |
| `Genetic.RunMinNeverIncreases` | genetic.py:129 | min_h never increases from one generation to the next |
| `Genetic.GenerationProceedsIff` | genetic.py:111-125 | A pass of the loop raises nothing exactly when at least two states have nonzero fitness, P >= 2 and the population still has P states |
| `Genetic.Generation` | genetic.py:111-127 | One generation raises each error exactly in its own case: total fitness 0; the weighted draw is over P indices with a different number of weights; fewer than 2 states have nonzero weight; or an empty new population when P = 1. The error raised is `GenerationError` of the population, and it raises nothing exactly when that is none. Otherwise it breeds 2 * (P // 2) > 0 states of width N from the pairings, keeping row validity |
| `Genetic.Advance` | genetic.py:110-129 | One pass of the loop fails exactly with `GenerationError` of the current population. Otherwise it extends the lineage and updates min_h. It always raises when P = 1, or when P >= 2 and the population no longer has P states |
| `Genetic.Evolve` | genetic.py:106-129 | The loop stops at the first error, which is `GenerationError` of the last population, within max_iter generations; otherwise it runs max_iter generations. Each generation was bred from the previous one, on which the loop body raised nothing. min_h is the running minimum. With odd P and enough generations it always ends in an error |
| `Genetic.GeneticAlgorithm` | genetic.py:84-132 | An empty population fails exactly with the population[0] error. Any other failure is `GenerationError` of the last population, and odd P with enough generations always fails. A successful run has max_iter + 1 generations, later ones of size 2 * (P // 2), each bred from the one before on which the loop body raised nothing. min_h is the running minimum, and best is the first fittest state of the last population (of the initial one when max_iter = 0), of width N and valid when the input is |

## Left out

- Console output, the experiment drivers and their statistics are not modelled: `print`, `tqdm`, `run_experiments`, `np.mean` and the `__main__` blocks.
- Seeding and the random generators are left out. Each draw is an input constrained to its documented range. No claim is made about how draws are distributed.
- The floating-point acceptance test `random() < exp(delta_e / T)` is not modelled. It becomes a boolean coin, read only when delta_e < 0 and T > 0. Temperatures are exact rationals.
- SimulatedAnnealing.AnnealStep: the coin is free wherever it is read, but in floating point `np.exp` underflows to 0.0 once delta_e / T falls below about -745, and then the code always rejects. For example, N >= 9 at t = 99 (T = 0.01) with delta_e <= -8. In that range the model also admits runs that accept, so it promises nothing about rejection there.
- SimulatedAnnealing.SimulatedAnnealing: the schedule, any callable in the code, enters as the table of its values at t = 1 .. 100, the only steps the loop asks for. `Schedule` is the linear schedule of the code, with its own lemmas.
- Genetic.Mutated: `mutation_rate` is not a parameter; the coin is the outcome of `random() < mutation_rate`.
- Genetic.GeneticAlgorithm: fitness-proportional sampling is constrained only to two distinct indices in [0, P). The model does not capture that zero-fitness states are never drawn, nor numpy's checks on the float probabilities.
- Genetic.GeneticAlgorithm: the population must be made of states of one width N. The crossover point and mutation draws are constrained only when N >= 2. With N < 2 the run fails on zero total fitness before any of them is used.
- Genetic.Reproduce: the parents must have equal length and 1 <= point < N. The numpy error for N < 2 (`randint(1, N)` with an empty range) is not modelled, because `genetic_algorithm` never reaches crossover with N < 2.
- SimulatedAnnealing.SimulatedAnnealing: every draw must be in range for N, which excludes N = 0. With N = 0 the code would raise at the first step, unless the schedule is already 0 at t = 1.
- SimulatedAnnealing.GenerateRandomSuccessor: the unbounded redraws of the rejection loop are a finite sequence of draws. When every draw repeats the current row, the model reports that instead of drawing forever (for N = 1 the code never ends).
- Genetic.Mutate: the in-place update is modelled on a fresh array that holds the child. The code's children are fresh lists, so no aliasing arises, and a mutate on a list shared with another holder is not modelled.
- States are values, so `h`, `get_best_successor`, `generate_random_successor` and `reproduce` leaving their inputs unchanged holds by construction. It is not stated separately.
- The end-to-end result of the hill-climbing driver on [3, 1, 3, 1] (hill_climbing.py:44-48) is not stated. Only the general climbing contract is.
