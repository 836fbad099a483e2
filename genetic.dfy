/** The genetic algorithm for N queens (genetic.py): fitness, single-point
    crossover, point mutation and the generation loop. Every random draw is an
    input: the parent pair, the crossover point and each mutation's coin, column
    and row. */
module Genetic {
  import opened Board

  /** The draws of one call of mutate: `coin` is the outcome of
      random() < mutation_rate; col and row are only drawn when it holds. */
  datatype Mutation = Mutation(coin: bool, col: int, row: int)

  /** The draws for one pair of children: two parent indices, the crossover
      point and the two mutations. */
  datatype Pairing = Pairing(parent1: int, parent2: int, point: int, mutation1: Mutation, mutation2: Mutation)

  /** The exceptions the generation loop can raise. */
  datatype GaError =
    | EmptyPopulation     // population[0] of an empty list
    | ZeroTotalFitness    // f / total_fitness with total_fitness == 0
    | SampleSizeMismatch  // choice over range(P) with a probability list of another length
    | TooFewParents       // choice of 2 without replacement with fewer than 2 nonzero weights
    | EmptyGeneration     // min() of an empty new population

  datatype GaResult = Found(best: seq<int>, minH: nat) | Failed(error: GaError)

  /** Number of queens of a population: the length of its first state. */
  function Width(population: seq<seq<int>>): nat
  {
    if |population| == 0 then 0 else |population[0]|
  }

  predicate Uniform(population: seq<seq<int>>, n: nat)
  {
    forall i :: 0 <= i < |population| ==> |population[i]| == n
  }

  predicate AllValid(population: seq<seq<int>>)
  {
    forall i :: 0 <= i < |population| ==> Valid(population[i])
  }

  /** Fitness: the number of non-attacking pairs of queens. */
  function Fitness(state: seq<int>): (f: int)
    ensures 0 <= f <= TotalPairs(|state|)
  {
    HBounds(state);
    var n := |state|;
    n * (n - 1) / 2 - H(state)
  }

  /** The largest fitness, N * (N - 1) / 2, is reached exactly by the solutions. */
  lemma FitnessMaximalIffSolution(state: seq<int>)
    ensures Fitness(state) == TotalPairs(|state|) <==> NoConflicts(state)
  {
    HZeroIffNoConflicts(state);
  }

  /** Fitness is the complement of h: lower h means higher fitness. */
  lemma FitnessOrdersInverseToH(s: seq<int>, t: seq<int>)
    requires |s| == |t|
    ensures Fitness(s) <= Fitness(t) <==> H(t) <= H(s)
  {
  }

  /** Single-point crossover at `point`, drawn from [1, N - 1]. */
  function Reproduce(parent1: seq<int>, parent2: seq<int>, point: int): (children: (seq<int>, seq<int>))
    requires |parent2| == |parent1| && 1 <= point < |parent1|
    ensures |children.0| == |parent1| && |children.1| == |parent1|
    ensures forall i :: 0 <= i < point ==> children.0[i] == parent1[i] && children.1[i] == parent2[i]
    ensures forall i :: point <= i < |parent1| ==> children.0[i] == parent2[i] && children.1[i] == parent1[i]
  {
    (parent1[..point] + parent2[point..], parent2[..point] + parent1[point..])
  }

  /** Crossover only redistributes genes: column by column the two children
      hold the two parents' rows, and together they hold the parents' rows. */
  lemma ReproduceKeepsGenes(parent1: seq<int>, parent2: seq<int>, point: int)
    requires |parent2| == |parent1| && 1 <= point < |parent1|
    ensures var (child1, child2) := Reproduce(parent1, parent2, point);
      && (forall i :: 0 <= i < |parent1| ==> {child1[i], child2[i]} == {parent1[i], parent2[i]})
      && multiset(child1) + multiset(child2) == multiset(parent1) + multiset(parent2)
      && (Valid(parent1) && Valid(parent2) ==> Valid(child1) && Valid(child2))
  {
    assert parent1 == parent1[..point] + parent1[point..];
    assert parent2 == parent2[..point] + parent2[point..];
  }

  /** Swapping the parents swaps the children. */
  lemma ReproduceSwapsChildren(parent1: seq<int>, parent2: seq<int>, point: int)
    requires |parent2| == |parent1| && 1 <= point < |parent1|
    ensures Reproduce(parent2, parent1, point) == (Reproduce(parent1, parent2, point).1, Reproduce(parent1, parent2, point).0)
  {
  }

  /** The documented ranges of a mutation's draws for an N-queens state. */
  predicate ValidMutation(m: Mutation, n: nat)
  {
    m.coin ==> 0 <= m.col < n && 0 <= m.row < n
  }

  /** The state after mutate: unchanged, or one column set to a row of the board
      (which may be the row it already had). */
  function Mutated(state: seq<int>, m: Mutation): (r: seq<int>)
    requires ValidMutation(m, |state|)
    ensures |r| == |state|
    ensures forall c :: 0 <= c < |state| && (!m.coin || c != m.col) ==> r[c] == state[c]
    ensures m.coin ==> r[m.col] == m.row
    ensures Valid(state) ==> Valid(r)
  {
    if m.coin then state[m.col := m.row] else state
  }

  /** mutate updates the list it is given in place. */
  method Mutate(state: array<int>, m: Mutation)
    requires ValidMutation(m, state.Length)
    modifies state
    ensures state[..] == Mutated(old(state[..]), m)
  {
    if m.coin {
      state[m.col] := m.row;
    }
  }

  /** Copies a child into a fresh list and lets mutate change that list in place. */
  method MutateChild(child: seq<int>, m: Mutation) returns (mutated: seq<int>)
    requires ValidMutation(m, |child|)
    ensures mutated == Mutated(child, m)
  {
    var list := new int[|child|](i requires 0 <= i < |child| => child[i]);
    assert list[..] == child;
    Mutate(list, m);
    mutated := list[..];
  }

  /** A pairing whose indices and draws can be used on a population of `size`
      states of n queens. */
  predicate Breedable(p: Pairing, size: nat, n: nat)
  {
    0 <= p.parent1 < size && 0 <= p.parent2 < size && 1 <= p.point < n
    && ValidMutation(p.mutation1, n) && ValidMutation(p.mutation2, n)
  }

  /** The two mutated children one pairing contributes to the new population. */
  function Offspring(population: seq<seq<int>>, p: Pairing, n: nat): seq<seq<int>>
    requires Uniform(population, n) && Breedable(p, |population|, n)
  {
    var children := Reproduce(population[p.parent1], population[p.parent2], p.point);
    [Mutated(children.0, p.mutation1), Mutated(children.1, p.mutation2)]
  }

  /** The new population: the offspring of the pairings, in order. */
  function NextGeneration(population: seq<seq<int>>, pairings: seq<Pairing>, n: nat): (next: seq<seq<int>>)
    requires Uniform(population, n)
    requires forall m :: 0 <= m < |pairings| ==> Breedable(pairings[m], |population|, n)
    ensures |next| == 2 * |pairings|
  {
    if pairings == [] then []
    else
      var last := pairings[|pairings| - 1];
      assert Breedable(last, |population|, n);
      NextGeneration(population, pairings[..|pairings| - 1], n) + Offspring(population, last, n)
  }

  /** The new population keeps the width of the states and the validity of the rows. */
  lemma {:induction false} NextGenerationKeepsShape(population: seq<seq<int>>, pairings: seq<Pairing>, n: nat)
    requires Uniform(population, n)
    requires forall m :: 0 <= m < |pairings| ==> Breedable(pairings[m], |population|, n)
    ensures Uniform(NextGeneration(population, pairings, n), n)
    ensures AllValid(population) ==> AllValid(NextGeneration(population, pairings, n))
  {
    if pairings != [] {
      var prefix, last := pairings[..|pairings| - 1], pairings[|pairings| - 1];
      assert Breedable(last, |population|, n);
      NextGenerationKeepsShape(population, prefix, n);
      ReproduceKeepsGenes(population[last.parent1], population[last.parent2], last.point);
    }
  }

  /** Appending two elements to a sequence of k pairs keeps the k pairs and adds one. */
  lemma AppendKeepsPairs<T>(pairs: seq<T>, extra: seq<T>, k: nat)
    requires |pairs| == 2 * k && |extra| == 2
    ensures forall m :: 0 <= m < k ==> (pairs + extra)[2 * m..2 * m + 2] == pairs[2 * m..2 * m + 2]
    ensures (pairs + extra)[2 * k..2 * k + 2] == extra
  {
  }

  /** Pairing m contributes states 2m and 2m + 1 of the new population. */
  lemma {:induction false} NextGenerationOffspring(population: seq<seq<int>>, pairings: seq<Pairing>, n: nat)
    requires Uniform(population, n)
    requires forall m :: 0 <= m < |pairings| ==> Breedable(pairings[m], |population|, n)
    ensures forall m :: 0 <= m < |pairings| ==>
              NextGeneration(population, pairings, n)[2 * m..2 * m + 2] == Offspring(population, pairings[m], n)
  {
    if pairings != [] {
      var prefix, last := pairings[..|pairings| - 1], pairings[|pairings| - 1];
      assert Breedable(last, |population|, n);
      NextGenerationOffspring(population, prefix, n);
      var earlier := NextGeneration(population, prefix, n);
      var offspring := Offspring(population, last, n);
      assert NextGeneration(population, pairings, n) == earlier + offspring;
      AppendKeepsPairs(earlier, offspring, |prefix|);
      assert forall m :: 0 <= m < |prefix| ==> pairings[m] == prefix[m];
    }
  }

  /** `next` is the population bred from `population` with `pairings`. */
  ghost predicate Bred(population: seq<seq<int>>, pairings: seq<Pairing>, n: nat, next: seq<seq<int>>)
  {
    Uniform(population, n)
    && (forall m :: 0 <= m < |pairings| ==> Breedable(pairings[m], |population|, n))
    && next == NextGeneration(population, pairings, n)
  }

  /** The inner loop of a generation: reproduce, mutate both children, extend. */
  method Breed(population: seq<seq<int>>, pairings: seq<Pairing>, ghost n: nat) returns (newPopulation: seq<seq<int>>)
    requires Uniform(population, n)
    requires forall m :: 0 <= m < |pairings| ==> Breedable(pairings[m], |population|, n)
    ensures newPopulation == NextGeneration(population, pairings, n)
  {
    newPopulation := [];
    var m := 0;
    while m < |pairings|
      invariant 0 <= m <= |pairings|
      invariant newPopulation == NextGeneration(population, pairings[..m], n)
    {
      var p := pairings[m];
      assert Breedable(p, |population|, n);
      var children := Reproduce(population[p.parent1], population[p.parent2], p.point);
      var child1 := MutateChild(children.0, p.mutation1);
      var child2 := MutateChild(children.1, p.mutation2);
      newPopulation := newPopulation + [child1, child2];
      assert pairings[..m + 1][..m] == pairings[..m];
      m := m + 1;
    }
    assert pairings[..m] == pairings;
  }

  /** min(h(state) for state in population). */
  function MinConflicts(population: seq<seq<int>>): nat
    requires |population| > 0
  {
    if |population| == 1 then H(population[0])
    else
      var rest := MinConflicts(population[1..]);
      if H(population[0]) <= rest then H(population[0]) else rest
  }

  /** MinConflicts is the smallest h of the population, attained by one of its states. */
  lemma {:induction false} MinConflictsIsMinimum(population: seq<seq<int>>)
    requires |population| > 0
    ensures forall i :: 0 <= i < |population| ==> MinConflicts(population) <= H(population[i])
    ensures exists i :: 0 <= i < |population| && MinConflicts(population) == H(population[i])
  {
    if |population| == 1 || H(population[0]) <= MinConflicts(population[1..]) {
      assert MinConflicts(population) == H(population[0]);
    }
    if |population| > 1 {
      var rest := population[1..];
      MinConflictsIsMinimum(rest);
      forall i | 1 <= i < |population|
        ensures MinConflicts(population) <= H(population[i])
      {
        assert population[i] == rest[i - 1];
      }
      if H(population[0]) > MinConflicts(rest) {
        var j :| 0 <= j < |rest| && MinConflicts(rest) == H(rest[j]);
        assert MinConflicts(population) == H(population[j + 1]);
      }
    }
  }

  /** sum(fitness(state) for state in population). */
  function TotalFitness(population: seq<seq<int>>): (total: int)
    ensures total >= 0
  {
    if population == [] then 0 else Fitness(population[0]) + TotalFitness(population[1..])
  }

  /** The total fitness is zero exactly when every state has fitness zero. */
  lemma {:induction false} TotalFitnessZeroIff(population: seq<seq<int>>)
    ensures TotalFitness(population) == 0 <==> forall i :: 0 <= i < |population| ==> Fitness(population[i]) == 0
  {
    if population != [] {
      var rest := population[1..];
      TotalFitnessZeroIff(rest);
      assert forall i :: 1 <= i < |population| ==> population[i] == rest[i - 1];
    }
  }

  /** The number of states with nonzero fitness, that is with nonzero selection weight. */
  function PositiveCount(population: seq<seq<int>>): (count: nat)
    ensures count <= |population|
  {
    if population == [] then 0
    else (if Fitness(population[0]) > 0 then 1 else 0) + PositiveCount(population[1..])
  }

  /** No state has a nonzero weight exactly when the weights sum to zero. */
  lemma {:induction false} PositiveCountZeroIff(population: seq<seq<int>>)
    ensures PositiveCount(population) == 0 <==> TotalFitness(population) == 0
  {
    if population != [] {
      PositiveCountZeroIff(population[1..]);
    }
  }

  /** max(population, key=fitness): the first state of maximal fitness. */
  function FittestIndex(population: seq<seq<int>>): (k: nat)
    requires |population| > 0
    ensures k < |population|
  {
    if |population| == 1 then 0
    else
      var k := FittestIndex(population[..|population| - 1]);
      if Fitness(population[|population| - 1]) > Fitness(population[k]) then |population| - 1 else k
  }

  /** FittestIndex is the first index of maximal fitness, as max() returns the
      first maximal element. */
  lemma {:induction false} FittestIndexIsFirstMaximum(population: seq<seq<int>>)
    requires |population| > 0
    ensures forall j :: 0 <= j < |population| ==> Fitness(population[j]) <= Fitness(population[FittestIndex(population)])
    ensures forall j :: 0 <= j < FittestIndex(population) ==> Fitness(population[j]) < Fitness(population[FittestIndex(population)])
  {
    if |population| > 1 {
      var prefix := population[..|population| - 1];
      FittestIndexIsFirstMaximum(prefix);
      var k := FittestIndex(prefix);
      assert forall j :: 0 <= j < |prefix| ==> population[j] == prefix[j];
    }
  }

  /** A state with positive fitness has at least two queens. */
  lemma PositiveTotalNeedsTwoQueens(population: seq<seq<int>>, n: nat)
    requires Uniform(population, n) && TotalFitness(population) > 0
    ensures n >= 2
  {
    TotalFitnessZeroIff(population);
    var i :| 0 <= i < |population| && Fitness(population[i]) != 0;
    assert TotalPairs(n) > 0;
  }

  /** The draws of one pairing lie in their documented ranges: two distinct
      parent indices from range(size); when N >= 2, a crossover point in
      [1, N - 1] and mutation draws in [0, N). */
  predicate ValidPairing(p: Pairing, size: nat, n: nat)
  {
    0 <= p.parent1 < size && 0 <= p.parent2 < size && p.parent1 != p.parent2
    && (n >= 2 ==> 1 <= p.point < n && ValidMutation(p.mutation1, n) && ValidMutation(p.mutation2, n))
  }

  /** The exception one pass of the generation loop raises on `current`, in
      the order the loop body meets them, or None when it breeds a non-empty
      new population. populationSize is the size captured before the loop. */
  function GenerationError(current: seq<seq<int>>, populationSize: nat): Option<GaError>
  {
    if TotalFitness(current) == 0 then Some(ZeroTotalFitness)
    else if populationSize / 2 >= 1 && |current| != populationSize then Some(SampleSizeMismatch)
    else if populationSize / 2 >= 1 && PositiveCount(current) < 2 then Some(TooFewParents)
    else if populationSize / 2 == 0 then Some(EmptyGeneration)
    else None
  }

  /** A pass of the generation loop goes through exactly when some state has
      nonzero fitness, the population still has the captured size of at least
      two, and at least two states have nonzero selection weight. */
  lemma GenerationProceedsIff(current: seq<seq<int>>, populationSize: nat)
    ensures GenerationError(current, populationSize) == None <==>
      && PositiveCount(current) >= 2 && populationSize >= 2 && |current| == populationSize
  {
    PositiveCountZeroIff(current);
  }

  /** Each population after the first was bred, with the draws of its
      generation, from the one before it, on which the loop body raised nothing. */
  ghost predicate Lineage(generations: seq<seq<seq<int>>>, oracle: seq<seq<Pairing>>, n: nat, populationSize: nat)
    requires |generations| <= |oracle| + 1
  {
    forall k :: 0 <= k < |generations| - 1 ==>
      GenerationError(generations[k], populationSize) == None && Bred(generations[k], oracle[k], n, generations[k + 1])
  }

  lemma ExtendLineage(previous: seq<seq<seq<int>>>, next: seq<seq<int>>, oracle: seq<seq<Pairing>>, n: nat, populationSize: nat)
    requires 1 <= |previous| <= |oracle| && Lineage(previous, oracle, n, populationSize)
    requires GenerationError(previous[|previous| - 1], populationSize) == None
    requires Bred(previous[|previous| - 1], oracle[|previous| - 1], n, next)
    ensures Lineage(previous + [next], oracle, n, populationSize)
  {
    var generations := previous + [next];
    forall k | 0 <= k < |generations| - 1
      ensures GenerationError(generations[k], populationSize) == None && Bred(generations[k], oracle[k], n, generations[k + 1])
    {
      if k < |previous| - 1 {
        assert generations[k] == previous[k] && generations[k + 1] == previous[k + 1];
      } else {
        assert generations[k] == previous[|previous| - 1] && generations[k + 1] == next;
      }
    }
  }

  /** Every generation bred with P / 2 pairings has 2 * (P / 2) states: P when P
      is even, P - 1 when P is odd. */
  lemma LineageSizes(generations: seq<seq<seq<int>>>, oracle: seq<seq<Pairing>>, n: nat, populationSize: nat)
    requires |generations| <= |oracle| + 1 && Lineage(generations, oracle, n, populationSize)
    requires forall g :: 0 <= g < |oracle| ==> |oracle[g]| == populationSize / 2
    ensures forall g :: 1 <= g < |generations| ==> |generations[g]| == 2 * (populationSize / 2)
    ensures populationSize % 2 == 0 ==> 2 * (populationSize / 2) == populationSize
    ensures populationSize % 2 == 1 ==> 2 * (populationSize / 2) == populationSize - 1
  {
    forall g | 1 <= g < |generations|
      ensures |generations[g]| == 2 * (populationSize / 2)
    {
      assert Bred(generations[g - 1], oracle[g - 1], n, generations[g]);
    }
  }

  predicate NonEmpty(generations: seq<seq<seq<int>>>)
  {
    forall k :: 0 <= k < |generations| ==> |generations[k]| > 0
  }

  /** min_h as the loop keeps it: the smallest h of each population in turn. */
  ghost function RunMin(generations: seq<seq<seq<int>>>): nat
    requires |generations| > 0 && NonEmpty(generations)
  {
    if |generations| == 1 then MinConflicts(generations[0])
    else
      var earlier := RunMin(generations[..|generations| - 1]);
      var latest := MinConflicts(generations[|generations| - 1]);
      if latest < earlier then latest else earlier
  }

  /** The running minimum is the smallest h of any state of any population. */
  lemma {:induction false} RunMinIsMinimum(generations: seq<seq<seq<int>>>)
    requires |generations| > 0 && NonEmpty(generations)
    ensures forall k, i :: 0 <= k < |generations| && 0 <= i < |generations[k]| ==>
              RunMin(generations) <= H(generations[k][i])
    ensures exists k, i :: 0 <= k < |generations| && 0 <= i < |generations[k]| &&
              RunMin(generations) == H(generations[k][i])
  {
    var last := generations[|generations| - 1];
    MinConflictsIsMinimum(last);
    if |generations| == 1 {
      var i :| 0 <= i < |last| && MinConflicts(last) == H(last[i]);
      assert RunMin(generations) == H(generations[0][i]);
    } else {
      var prefix := generations[..|generations| - 1];
      RunMinIsMinimum(prefix);
      forall k, i | 0 <= k < |generations| && 0 <= i < |generations[k]|
        ensures RunMin(generations) <= H(generations[k][i])
      {
        if k < |prefix| {
          assert generations[k] == prefix[k];
        }
      }
      if MinConflicts(last) < RunMin(prefix) {
        var i :| 0 <= i < |last| && MinConflicts(last) == H(last[i]);
        assert RunMin(generations) == H(generations[|generations| - 1][i]);
      } else {
        var k, i :| 0 <= k < |prefix| && 0 <= i < |prefix[k]| && RunMin(prefix) == H(prefix[k][i]);
        assert generations[k] == prefix[k];
        assert RunMin(generations) == H(generations[k][i]);
      }
    }
  }

  /** min_h never increases: the running minimum over all generations is at
      most the running minimum over the first k of them. */
  lemma {:induction false} RunMinNeverIncreases(generations: seq<seq<seq<int>>>, k: nat)
    requires 1 <= k <= |generations| && NonEmpty(generations)
    ensures NonEmpty(generations[..k]) && RunMin(generations) <= RunMin(generations[..k])
    decreases |generations|
  {
    if k < |generations| {
      var prefix := generations[..|generations| - 1];
      RunMinNeverIncreases(prefix, k);
      assert prefix[..k] == generations[..k];
    } else {
      assert generations[..k] == generations;
    }
  }

  /** Appending a bred, non-empty population extends the lineage and updates
      the running minimum with the smallest h of the new population. */
  lemma ExtendRun(previous: seq<seq<seq<int>>>, next: seq<seq<int>>, oracle: seq<seq<Pairing>>, n: nat, populationSize: nat)
    requires 1 <= |previous| <= |oracle| && Lineage(previous, oracle, n, populationSize) && NonEmpty(previous)
    requires GenerationError(previous[|previous| - 1], populationSize) == None
    requires Bred(previous[|previous| - 1], oracle[|previous| - 1], n, next) && |next| > 0
    ensures var generations := previous + [next];
      && Lineage(generations, oracle, n, populationSize) && NonEmpty(generations)
      && generations[0] == previous[0] && generations[|previous|] == next
      && RunMin(generations) == if MinConflicts(next) < RunMin(previous) then MinConflicts(next) else RunMin(previous)
  {
    ExtendLineage(previous, next, oracle, n, populationSize);
    var generations := previous + [next];
    assert generations[..|generations| - 1] == previous;
  }

  /** How one generation ends: with the new population, or with an exception. */
  datatype GenerationStep = Continue(next: seq<seq<int>>) | Stop(error: GaError)

  /** One pass of the generation loop: weigh the population by fitness, then
      breed populationSize / 2 pairs. populationSize is the size of the input
      population, captured once before the loop. */
  method Generation(current: seq<seq<int>>, populationSize: nat, pairings: seq<Pairing>, ghost n: nat)
    returns (step: GenerationStep)
    requires |current| > 0 && Uniform(current, n) && populationSize >= 1
    requires |pairings| == populationSize / 2
    requires forall m :: 0 <= m < |pairings| ==> ValidPairing(pairings[m], populationSize, n)
    ensures step == Stop(ZeroTotalFitness) <==> TotalFitness(current) == 0
    ensures step == Stop(SampleSizeMismatch) <==>
              TotalFitness(current) > 0 && populationSize >= 2 && |current| != populationSize
    ensures step == Stop(TooFewParents) <==>
              TotalFitness(current) > 0 && populationSize >= 2 && |current| == populationSize && PositiveCount(current) < 2
    ensures step == Stop(EmptyGeneration) <==> TotalFitness(current) > 0 && populationSize < 2
    ensures step.Stop? ==> GenerationError(current, populationSize) == Some(step.error)
    ensures step.Continue? ==> GenerationError(current, populationSize) == None
    ensures step.Continue? ==> Bred(current, pairings, n, step.next) && |step.next| == 2 * (populationSize / 2) > 0
    ensures step.Continue? ==> Uniform(step.next, n)
    ensures step.Continue? && AllValid(current) ==> AllValid(step.next)
  {
    if TotalFitness(current) == 0 {
      return Stop(ZeroTotalFitness);
    }
    PositiveTotalNeedsTwoQueens(current, n);
    if populationSize / 2 >= 1 {
      if |current| != populationSize {
        return Stop(SampleSizeMismatch);
      }
      if PositiveCount(current) < 2 {
        return Stop(TooFewParents);
      }
    }
    var next := Breed(current, pairings, n);
    NextGenerationKeepsShape(current, pairings, n);
    if |next| == 0 {
      return Stop(EmptyGeneration);
    }
    step := Continue(next);
  }

  /** The draws for a run on populations of `populationSize` states of n queens:
      populationSize / 2 pairings per generation, each in its documented ranges. */
  predicate ValidOracle(oracle: seq<seq<Pairing>>, populationSize: nat, n: nat)
  {
    (forall g :: 0 <= g < |oracle| ==> |oracle[g]| == populationSize / 2)
    && forall g, m :: 0 <= g < |oracle| && 0 <= m < |oracle[g]| ==> ValidPairing(oracle[g][m], populationSize, n)
  }

  /** The state of the generation loop after g passes without an exception:
      `generations` lists the g + 1 populations so far, `current` is the last
      one and minH is the smallest h seen. */
  ghost predicate Evolving(population: seq<seq<int>>, oracle: seq<seq<Pairing>>, n: nat, g: nat,
                           generations: seq<seq<seq<int>>>, current: seq<seq<int>>, minH: nat)
  {
    g <= |oracle| && |generations| == g + 1 && generations[0] == population && generations[g] == current
    && Lineage(generations, oracle, n, |population|) && NonEmpty(generations) && minH == RunMin(generations)
    && Uniform(current, n) && (g >= 1 ==> |current| == 2 * (|population| / 2))
    && (AllValid(population) ==> AllValid(current))
  }

  /** One pass of the loop: run generation g on `current` and record the result. */
  method Advance(population: seq<seq<int>>, oracle: seq<seq<Pairing>>, ghost n: nat, g: nat,
                 ghost generations: seq<seq<seq<int>>>, current: seq<seq<int>>, minH: nat)
    returns (failure: Option<GaError>, next: seq<seq<int>>, nextMinH: nat, ghost nextGenerations: seq<seq<seq<int>>>)
    requires |population| > 0 && g < |oracle| && ValidOracle(oracle, |population|, n)
    requires Evolving(population, oracle, n, g, generations, current, minH)
    ensures failure == GenerationError(current, |population|)
    ensures failure.None? ==> Evolving(population, oracle, n, g + 1, nextGenerations, next, nextMinH)
    ensures |population| >= 2 && |current| != |population| ==> failure.Some?
    ensures |population| == 1 ==> failure.Some?
  {
    var step := Generation(current, |population|, oracle[g], n);
    if step.Stop? {
      return Some(step.error), current, minH, generations;
    }
    next := step.next;
    ExtendRun(generations, next, oracle, n, |population|);
    nextGenerations := generations + [next];
    var latest := MinConflicts(next);
    nextMinH := if latest < minH then latest else minH;
    failure := None;
  }

  /** The loop over max_iter generations, from a non-empty population. It stops
      at the first exception; the ghost output lists the populations produced. */
  method Evolve(population: seq<seq<int>>, maxIter: nat, oracle: seq<seq<Pairing>>, ghost n: nat)
    returns (current: seq<seq<int>>, minH: nat, failure: Option<GaError>, ghost generations: seq<seq<seq<int>>>)
    requires |population| > 0 && Uniform(population, n)
    requires |oracle| >= maxIter && ValidOracle(oracle, |population|, n)
    ensures 1 <= |generations| <= maxIter + 1 && generations[0] == population
    ensures current == generations[|generations| - 1] && Uniform(current, n)
    ensures Lineage(generations, oracle, n, |population|) && NonEmpty(generations)
    ensures minH == RunMin(generations)
    ensures failure.Some? ==> failure == GenerationError(current, |population|) && |generations| <= maxIter
    ensures failure.None? ==> |generations| == maxIter + 1
    ensures |population| % 2 == 1 && maxIter >= 1 && (|population| == 1 || maxIter >= 2) ==> failure.Some?
    ensures AllValid(population) ==> AllValid(current)
  {
    minH := MinConflicts(population);
    current := population;
    failure := None;
    generations := [population];
    var g := 0;
    while g < maxIter
      invariant 0 <= g <= maxIter
      invariant failure == None
      invariant Evolving(population, oracle, n, g, generations, current, minH)
      invariant |population| % 2 == 1 ==> g <= 1
      invariant |population| == 1 ==> g == 0
    {
      var next, nextMinH;
      ghost var nextGenerations;
      failure, next, nextMinH, nextGenerations := Advance(population, oracle, n, g, generations, current, minH);
      if failure.Some? {
        break;
      }
      current, minH, generations := next, nextMinH, nextGenerations;
      g := g + 1;
    }
  }

  /** genetic_algorithm: evolve max_iter generations, then return the fittest
      state of the last population and the smallest h seen. oracle[g] holds the
      draws of generation g; the ghost output lists the populations in order. */
  method GeneticAlgorithm(population: seq<seq<int>>, maxIter: nat, oracle: seq<seq<Pairing>>)
    returns (r: GaResult, ghost generations: seq<seq<seq<int>>>)
    requires Uniform(population, Width(population))
    requires |oracle| >= maxIter && ValidOracle(oracle, |population|, Width(population))
    ensures |population| == 0 <==> r == Failed(EmptyPopulation)
    ensures 1 <= |generations| <= maxIter + 1 && generations[0] == population
    ensures Lineage(generations, oracle, Width(population), |population|)
    ensures r.Failed? && |population| > 0 ==>
      Some(r.error) == GenerationError(generations[|generations| - 1], |population|) && |generations| <= maxIter
    ensures |population| % 2 == 1 && maxIter >= 1 && (|population| == 1 || maxIter >= 2) ==> r.Failed?
    ensures r.Found? ==> |generations| == maxIter + 1 && NonEmpty(generations)
    ensures r.Found? ==> forall g :: 1 <= g <= maxIter ==> |generations[g]| == 2 * (|population| / 2)
    ensures r.Found? ==> r.minH == RunMin(generations)
    ensures r.Found? ==> r.best == generations[maxIter][FittestIndex(generations[maxIter])]
    ensures r.Found? ==> |r.best| == Width(population) && (AllValid(population) ==> Valid(r.best))
  {
    if |population| == 0 {
      return Failed(EmptyPopulation), [population];
    }
    var current, minH, failure;
    current, minH, failure, generations := Evolve(population, maxIter, oracle, |population[0]|);
    if failure.Some? {
      return Failed(failure.value), generations;
    }
    LineageSizes(generations, oracle, |population[0]|, |population|);
    var k := FittestIndex(current);
    r := Found(current[k], minH);
  }
}
