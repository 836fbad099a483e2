/** Simulated annealing with single-queen moves (simulated_annealing.py).
    Every random draw is an input: the column, the row draws of the
    rejection loop, and the outcome of the probabilistic acceptance test. */
module SimulatedAnnealing {
  import opened Board

  /** The draws one annealing step makes: the column, the successive row
      draws of the rejection loop, and `coin`, the outcome of the test
      random() < exp(delta_e / T) with random() in [0, 1). The coin is read
      only when delta_e < 0 and T > 0: for delta_e > 0 the test is not
      evaluated, and for delta_e == 0 or T < 0 the bound exp(delta_e / T) is
      at least 1. The coin is free in every case it reads, including those
      where the floating-point exp underflows to 0 and the test must fail. */
  datatype Draw = Draw(col: int, rows: seq<int>, coin: bool)

  /** What one step does: either the rejection loop is still drawing when the
      supplied row draws run out, or a successor is proposed and accepted or not. */
  datatype StepOutcome =
    | Stuck
    | Proposed(next: seq<int>, nextH: nat, accepted: bool)

  /** Result of a run: the final state and the smallest h observed, or the step
      at which the supplied row draws ran out inside the rejection loop. */
  datatype AnnealResult =
    | Done(state: seq<int>, minH: nat)
    | StuckAt(t: int)

  /** The documented ranges of the draws for an N-queens board. */
  predicate ValidDraw(d: Draw, n: nat)
  {
    0 <= d.col < n && forall j :: 0 <= j < |d.rows| ==> 0 <= d.rows[j] < n
  }

  /** The inputs of a run on an N-queens board: temperatures[t - 1] is
      schedule(t) for the steps t = 1 .. 100, and draws[t - 1] the draws of step t. */
  predicate RunInputs(temperatures: seq<real>, draws: seq<Draw>, n: nat)
  {
    |temperatures| >= 100 && |draws| >= 100 && forall u :: 0 <= u < |draws| ==> ValidDraw(draws[u], n)
  }

  /** Consecutive states of `walk` differ by one queen moved to another row. */
  ghost predicate NeighbourChain(walk: seq<seq<int>>)
  {
    |walk| <= 1 || (IsNeighbour(walk[0], walk[1]) && NeighbourChain(walk[1..]))
  }

  /** The rejection loop stops at draw j: j is the first draw unequal to `previous`. */
  predicate FirstOther(rows: seq<int>, previous: int, j: int)
  {
    0 <= j < |rows| && rows[j] != previous && forall i :: 0 <= i < j ==> rows[i] == previous
  }

  /** Every supplied row draw repeats the current row of the drawn column, so
      the rejection loop of the source would still be drawing. */
  predicate RowDrawsExhausted(d: Draw, s: seq<int>)
  {
    0 <= d.col < |s| && forall j :: 0 <= j < |d.rows| ==> d.rows[j] == s[d.col]
  }

  /** With a single queen no other row exists: every in-range draw repeats the
      current row, so the rejection loop can only finish when N >= 2. */
  lemma SingleQueenExhaustsDraws(s: seq<int>, d: Draw)
    requires |s| == 1 && Valid(s) && ValidDraw(d, 1)
    ensures RowDrawsExhausted(d, s)
  {
  }

  /** Temperature T(t) = max(1 - t / 100, 0), in exact rational arithmetic. */
  function Schedule(t: int): (temp: real)
    ensures 0.0 <= temp
    ensures temp == 0.0 <==> t >= 100
    ensures 0 <= t ==> temp <= 1.0
  {
    var linear := 1.0 - t as real / 100.0;
    if linear > 0.0 then linear else 0.0
  }

  /** The temperature never rises. */
  lemma ScheduleNonIncreasing(t1: int, t2: int)
    requires t1 <= t2
    ensures Schedule(t2) <= Schedule(t1)
  {
  }

  /** With Schedule, t = 1 .. 99 are the steps that run and t = 100 stops the loop. */
  lemma ScheduleStopsAtHundred()
    ensures forall t :: 1 <= t < 100 ==> Schedule(t) != 0.0
    ensures Schedule(100) == 0.0
  {
  }

  /** A run under Schedule that reaches the end of the loop, that is whose
      steps all had a nonzero temperature and which stopped at the first zero
      or after t = 100, made exactly 99 successor steps. */
  lemma ScheduleRunsNinetyNineSteps(steps: nat)
    requires steps <= 100
    requires forall t :: 1 <= t <= steps ==> Schedule(t) != 0.0
    requires steps < 100 ==> Schedule(steps + 1) == 0.0
    ensures steps == 99
  {
    ScheduleStopsAtHundred();
  }

  /** Index of the first row draw unequal to `previous`, or |rows| when every
      draw repeats it. */
  function FirstOtherIndex(rows: seq<int>, previous: int): (j: nat)
    ensures j <= |rows|
  {
    if rows == [] then 0
    else if rows[0] != previous then 0
    else 1 + FirstOtherIndex(rows[1..], previous)
  }

  /** FirstOtherIndex finds where the rejection loop stops, or says it does not. */
  lemma {:induction false} FirstOtherIndexIsFirst(rows: seq<int>, previous: int)
    ensures var j := FirstOtherIndex(rows, previous);
      && (j < |rows| ==> FirstOther(rows, previous, j))
      && (j == |rows| ==> forall i :: 0 <= i < |rows| ==> rows[i] == previous)
  {
    if rows != [] && rows[0] == previous {
      FirstOtherIndexIsFirst(rows[1..], previous);
      assert forall i :: 1 <= i < |rows| ==> rows[i] == rows[1..][i - 1];
    }
  }

  /** The successor the rejection loop settles on: column col set to the first
      row draw that differs from its current row, or none when the draws run out. */
  function RandomSuccessor(state: seq<int>, col: int, rows: seq<int>): Option<seq<int>>
    requires 0 <= col < |state|
  {
    var j := FirstOtherIndex(rows, state[col]);
    if j == |rows| then None else Some(state[col := rows[j]])
  }

  /** Copies the state, then redraws the row of column col until it differs
      from the current one. */
  method GenerateRandomSuccessor(state: seq<int>, col: int, rows: seq<int>) returns (next: Option<seq<int>>)
    requires 0 <= col < |state|
    ensures next == RandomSuccessor(state, col, rows)
    ensures next.None? <==> forall j :: 0 <= j < |rows| ==> rows[j] == state[col]
    ensures next.Some? ==> exists j :: FirstOther(rows, state[col], j) && next.value == state[col := rows[j]]
    ensures next.Some? ==> |next.value| == |state| && next.value[col] != state[col]
    ensures next.Some? ==> forall c :: 0 <= c < |state| && c != col ==> next.value[c] == state[c]
  {
    var newState := state;
    var j := 0;
    while j < |rows| && rows[j] == state[col]
      invariant 0 <= j <= |rows|
      invariant forall i :: 0 <= i < j ==> rows[i] == state[col]
    {
      j := j + 1;
    }
    FirstOtherIndexIsFirst(rows, state[col]);
    if j == |rows| {
      return None;
    }
    newState := newState[col := rows[j]];
    next := Some(newState);
  }

  /** One step of the loop body at temperature T: the proposed successor, its
      h, and whether it is adopted. */
  function StepOf(current: seq<int>, temperature: real, d: Draw): (r: StepOutcome)
    requires ValidDraw(d, |current|)
    ensures r.Proposed? ==> |r.next| == |current| && r.nextH == H(r.next)
  {
    match RandomSuccessor(current, d.col, d.rows)
    case None => Stuck
    case Some(next) =>
      var nextH := H(next);
      Proposed(next, nextH, H(current) - nextH >= 0 || temperature < 0.0 || d.coin)
  }

  /** One iteration of the annealing loop body at a nonzero temperature. */
  method AnnealStep(current: seq<int>, currentH: nat, temperature: real, d: Draw) returns (r: StepOutcome)
    requires currentH == H(current) && temperature != 0.0
    requires ValidDraw(d, |current|)
    ensures r == StepOf(current, temperature, d)
    ensures r.Stuck? <==> RowDrawsExhausted(d, current)
    ensures r.Proposed? ==> r.nextH == H(r.next) && IsNeighbour(current, r.next)
    ensures r.Proposed? ==> exists j :: FirstOther(d.rows, current[d.col], j) && r.next == current[d.col := d.rows[j]]
    ensures r.Proposed? ==> (r.accepted <==> r.nextH <= currentH || temperature < 0.0 || d.coin)
    ensures r.Proposed? && !r.accepted ==> temperature > 0.0 && r.nextH > currentH
  {
    var next := GenerateRandomSuccessor(current, d.col, d.rows);
    if next.None? {
      return Stuck;
    }
    var nextState := next.value;
    ghost var j :| FirstOther(d.rows, current[d.col], j) && nextState == current[d.col := d.rows[j]];
    MoveIsNeighbour(current, d.col, d.rows[j]);
    var nextH := CountConflicts(nextState);
    var deltaE := currentH - nextH;
    // random() < exp(delta_e / T) holds whatever random() returns when the bound is at least 1
    var accepted := deltaE > 0 || deltaE == 0 || temperature < 0.0 || d.coin;
    r := Proposed(nextState, nextH, accepted);
  }

  /** The annealing loop from step t on (simulated_annealing.py:75-84), with
      `current` the state and `minH` the smallest h adopted so far. */
  function Run(current: seq<int>, minH: nat, t: int, temperatures: seq<real>, draws: seq<Draw>): (r: AnnealResult)
    requires 1 <= t <= 101 && RunInputs(temperatures, draws, |current|)
    ensures r.StuckAt? ==> t <= r.t <= 100
    ensures r.Done? ==> |r.state| == |current| && r.minH <= minH
    decreases 101 - t
  {
    if t > 100 || temperatures[t - 1] == 0.0 then Done(current, minH)
    else
      match StepOf(current, temperatures[t - 1], draws[t - 1])
      case Stuck => StuckAt(t)
      case Proposed(next, nextH, accepted) =>
        if accepted then Run(next, if nextH < minH then nextH else minH, t + 1, temperatures, draws)
        else Run(current, minH, t + 1, temperatures, draws)
  }

  /** The states the loop adopts from step t on, starting with `current`. */
  function Walk(current: seq<int>, t: int, temperatures: seq<real>, draws: seq<Draw>): (walk: seq<seq<int>>)
    requires 1 <= t <= 101 && RunInputs(temperatures, draws, |current|)
    ensures |walk| >= 1 && walk[0] == current
    decreases 101 - t
  {
    if t > 100 || temperatures[t - 1] == 0.0 then [current]
    else
      match StepOf(current, temperatures[t - 1], draws[t - 1])
      case Stuck => [current]
      case Proposed(next, _, accepted) =>
        if accepted then [current] + Walk(next, t + 1, temperatures, draws)
        else Walk(current, t + 1, temperatures, draws)
  }

  /** When the loop stops at step t, the run returns the current state and the
      walk ends there. */
  lemma RunStops(current: seq<int>, minH: nat, t: int, temperatures: seq<real>, draws: seq<Draw>)
    requires 1 <= t <= 101 && RunInputs(temperatures, draws, |current|)
    requires t > 100 || temperatures[t - 1] == 0.0
    ensures Run(current, minH, t, temperatures, draws) == Done(current, minH)
    ensures Walk(current, t, temperatures, draws) == [current]
  {
  }

  /** One proposed step of the loop: the run and the walk continue from the
      adopted state, or from the same state when the proposal is rejected. */
  lemma RunSteps(current: seq<int>, minH: nat, t: int, temperatures: seq<real>, draws: seq<Draw>)
    requires 1 <= t <= 100 && RunInputs(temperatures, draws, |current|)
    requires temperatures[t - 1] != 0.0 && StepOf(current, temperatures[t - 1], draws[t - 1]).Proposed?
    ensures var step := StepOf(current, temperatures[t - 1], draws[t - 1]);
      && (step.accepted ==>
           && Run(current, minH, t, temperatures, draws)
              == Run(step.next, if step.nextH < minH then step.nextH else minH, t + 1, temperatures, draws)
           && Walk(current, t, temperatures, draws) == [current] + Walk(step.next, t + 1, temperatures, draws))
      && (!step.accepted ==>
           && Run(current, minH, t, temperatures, draws) == Run(current, minH, t + 1, temperatures, draws)
           && Walk(current, t, temperatures, draws) == Walk(current, t + 1, temperatures, draws))
  {
  }

  /** The adopted states form a walk of single-queen moves. */
  lemma {:induction false} WalkIsNeighbourChain(current: seq<int>, t: int, temperatures: seq<real>, draws: seq<Draw>)
    requires 1 <= t <= 101 && RunInputs(temperatures, draws, |current|)
    ensures NeighbourChain(Walk(current, t, temperatures, draws))
    decreases 101 - t
  {
    if t <= 100 && temperatures[t - 1] != 0.0 {
      var d := draws[t - 1];
      var step := StepOf(current, temperatures[t - 1], d);
      if step.Proposed? {
        if step.accepted {
          var j := FirstOtherIndex(d.rows, current[d.col]);
          FirstOtherIndexIsFirst(d.rows, current[d.col]);
          MoveIsNeighbour(current, d.col, d.rows[j]);
          WalkIsNeighbourChain(step.next, t + 1, temperatures, draws);
          var rest := Walk(step.next, t + 1, temperatures, draws);
          assert ([current] + rest)[1..] == rest;
        } else {
          WalkIsNeighbourChain(current, t + 1, temperatures, draws);
        }
      }
    }
  }

  /** A finished run returns the last adopted state. */
  lemma {:induction false} RunEndsOnWalk(current: seq<int>, minH: nat, t: int, temperatures: seq<real>, draws: seq<Draw>)
    requires 1 <= t <= 101 && RunInputs(temperatures, draws, |current|)
    ensures var walk, r := Walk(current, t, temperatures, draws), Run(current, minH, t, temperatures, draws);
      r.Done? ==> r.state == walk[|walk| - 1]
    decreases 101 - t
  {
    if t <= 100 && temperatures[t - 1] != 0.0 {
      var step := StepOf(current, temperatures[t - 1], draws[t - 1]);
      if step.Proposed? {
        RunSteps(current, minH, t, temperatures, draws);
        if step.accepted {
          var nextMin := if step.nextH < minH then step.nextH else minH;
          RunEndsOnWalk(step.next, nextMin, t + 1, temperatures, draws);
        } else {
          RunEndsOnWalk(current, minH, t + 1, temperatures, draws);
        }
      }
    }
  }

  /** The minH of a finished run is at most the minimum carried in and the h
      of every adopted state. */
  lemma {:induction false} RunMinBelowWalk(current: seq<int>, minH: nat, t: int, temperatures: seq<real>, draws: seq<Draw>)
    requires 1 <= t <= 101 && RunInputs(temperatures, draws, |current|)
    requires minH <= H(current)
    ensures var walk, r := Walk(current, t, temperatures, draws), Run(current, minH, t, temperatures, draws);
      r.Done? ==> forall i :: 0 <= i < |walk| ==> r.minH <= H(walk[i])
    decreases 101 - t
  {
    if t <= 100 && temperatures[t - 1] != 0.0 {
      var step := StepOf(current, temperatures[t - 1], draws[t - 1]);
      if step.Proposed? {
        RunSteps(current, minH, t, temperatures, draws);
        if step.accepted {
          var nextMin := if step.nextH < minH then step.nextH else minH;
          RunMinBelowWalk(step.next, nextMin, t + 1, temperatures, draws);
          var rest := Walk(step.next, t + 1, temperatures, draws);
          assert forall i :: 1 <= i < |rest| + 1 ==> ([current] + rest)[i] == rest[i - 1];
          assert Run(step.next, nextMin, t + 1, temperatures, draws).Done? ==>
            Run(step.next, nextMin, t + 1, temperatures, draws).minH <= H(current);
        } else {
          RunMinBelowWalk(current, minH, t + 1, temperatures, draws);
        }
      }
    }
  }

  /** The minH of a finished run is the minimum carried in or the h of one of
      the adopted states. */
  lemma {:induction false} RunMinOnWalk(current: seq<int>, minH: nat, t: int, temperatures: seq<real>, draws: seq<Draw>)
    requires 1 <= t <= 101 && RunInputs(temperatures, draws, |current|)
    ensures var walk, r := Walk(current, t, temperatures, draws), Run(current, minH, t, temperatures, draws);
      r.Done? ==> r.minH == minH || exists i :: 0 <= i < |walk| && r.minH == H(walk[i])
    decreases 101 - t
  {
    if t <= 100 && temperatures[t - 1] != 0.0 {
      var step := StepOf(current, temperatures[t - 1], draws[t - 1]);
      if step.Proposed? {
        RunSteps(current, minH, t, temperatures, draws);
        if step.accepted {
          var nextMin := if step.nextH < minH then step.nextH else minH;
          RunMinOnWalk(step.next, nextMin, t + 1, temperatures, draws);
          var rest := Walk(step.next, t + 1, temperatures, draws);
          var r := Run(step.next, nextMin, t + 1, temperatures, draws);
          if r.Done? && r.minH != minH {
            if r.minH == nextMin {
              assert r.minH == H(([current] + rest)[1]);
            } else {
              var i :| 0 <= i < |rest| && r.minH == H(rest[i]);
              assert r.minH == H(([current] + rest)[i + 1]);
            }
          }
        } else {
          RunMinOnWalk(current, minH, t + 1, temperatures, draws);
        }
      }
    }
  }

  /** The state of the annealing loop before step t: `current` and `minH` are
      where the run stands, `visited` lists the states adopted so far, and what
      is left of the run and of its walk continues from `current`. */
  ghost predicate Annealing(initial: seq<int>, temperatures: seq<real>, draws: seq<Draw>, t: int,
                            current: seq<int>, currentH: nat, minH: nat, visited: seq<seq<int>>)
    requires RunInputs(temperatures, draws, |initial|)
  {
    && 1 <= t <= 101 && |current| == |initial| && currentH == H(current)
    && (Valid(initial) ==> Valid(current))
    && |visited| >= 1 && visited[0] == initial && visited[|visited| - 1] == current && |visited| <= t
    && Run(initial, H(initial), 1, temperatures, draws) == Run(current, minH, t, temperatures, draws)
    && Walk(initial, 1, temperatures, draws) == visited[..|visited| - 1] + Walk(current, t, temperatures, draws)
    && forall u :: 0 <= u < t - 1 ==> temperatures[u] != 0.0
  }

  /** Moving the last element of s from the front of `rest` back onto s, and
      appending x to s. */
  lemma AppendToWalk<T>(s: seq<T>, x: T, rest: seq<T>)
    requires |s| >= 1
    ensures s[..|s| - 1] + ([s[|s| - 1]] + rest) == s + rest
    ensures s[..|s| - 1] + [s[|s| - 1]] == s
    ensures (s + [x])[..|s|] == s && (s + [x])[|s|] == x
  {
    assert s == s[..|s| - 1] + [s[|s| - 1]];
  }

  /** An accepted proposal at step t moves the loop state to step t + 1 from
      the proposed state. */
  lemma AnnealingAccepts(initial: seq<int>, temperatures: seq<real>, draws: seq<Draw>, t: int,
                         current: seq<int>, minH: nat, visited: seq<seq<int>>)
    requires RunInputs(temperatures, draws, |initial|) && 1 <= t <= 100 && temperatures[t - 1] != 0.0
    requires Annealing(initial, temperatures, draws, t, current, H(current), minH, visited)
    requires StepOf(current, temperatures[t - 1], draws[t - 1]).Proposed?
    requires StepOf(current, temperatures[t - 1], draws[t - 1]).accepted
    ensures var step := StepOf(current, temperatures[t - 1], draws[t - 1]);
      Annealing(initial, temperatures, draws, t + 1, step.next, step.nextH,
                if step.nextH < minH then step.nextH else minH, visited + [step.next])
  {
    var d := draws[t - 1];
    var step := StepOf(current, temperatures[t - 1], d);
    RunSteps(current, minH, t, temperatures, draws);
    FirstOtherIndexIsFirst(d.rows, current[d.col]);
    AppendToWalk(visited, step.next, Walk(step.next, t + 1, temperatures, draws));
  }

  /** A rejected proposal at step t keeps the loop state for step t + 1. */
  lemma AnnealingRejects(initial: seq<int>, temperatures: seq<real>, draws: seq<Draw>, t: int,
                         current: seq<int>, minH: nat, visited: seq<seq<int>>)
    requires RunInputs(temperatures, draws, |initial|) && 1 <= t <= 100 && temperatures[t - 1] != 0.0
    requires Annealing(initial, temperatures, draws, t, current, H(current), minH, visited)
    requires StepOf(current, temperatures[t - 1], draws[t - 1]).Proposed?
    requires !StepOf(current, temperatures[t - 1], draws[t - 1]).accepted
    ensures Annealing(initial, temperatures, draws, t + 1, current, H(current), minH, visited)
  {
    RunSteps(current, minH, t, temperatures, draws);
  }

  /** Step t of the loop body at a nonzero temperature: propose a successor and
      adopt it or not, or report that the row draws ran out. */
  method AnnealIteration(initial: seq<int>, temperatures: seq<real>, draws: seq<Draw>, t: int,
                         current: seq<int>, currentH: nat, minH: nat, ghost visited: seq<seq<int>>)
    returns (stuck: bool, next: seq<int>, nextH: nat, nextMinH: nat, ghost nextVisited: seq<seq<int>>)
    requires RunInputs(temperatures, draws, |initial|) && 1 <= t <= 100 && temperatures[t - 1] != 0.0
    requires Annealing(initial, temperatures, draws, t, current, currentH, minH, visited)
    ensures stuck ==> RowDrawsExhausted(draws[t - 1], current) && next == current && nextVisited == visited
                      && Run(initial, H(initial), 1, temperatures, draws) == StuckAt(t)
    ensures !stuck ==> Annealing(initial, temperatures, draws, t + 1, next, nextH, nextMinH, nextVisited)
  {
    var r := AnnealStep(current, currentH, temperatures[t - 1], draws[t - 1]);
    if r.Stuck? {
      return true, current, currentH, minH, visited;
    }
    stuck := false;
    if r.accepted {
      AnnealingAccepts(initial, temperatures, draws, t, current, minH, visited);
      next, nextH := r.next, r.nextH;
      nextVisited := visited + [next];
      nextMinH := if nextH < minH then nextH else minH;
    } else {
      AnnealingRejects(initial, temperatures, draws, t, current, minH, visited);
      next, nextH, nextMinH, nextVisited := current, currentH, minH, visited;
    }
  }

  /** When the loop ends at step t, the run is done and `visited` is its walk. */
  lemma AnnealingFinished(initial: seq<int>, temperatures: seq<real>, draws: seq<Draw>, t: int,
                          current: seq<int>, currentH: nat, minH: nat, visited: seq<seq<int>>)
    requires RunInputs(temperatures, draws, |initial|)
    requires Annealing(initial, temperatures, draws, t, current, currentH, minH, visited)
    requires t > 100 || temperatures[t - 1] == 0.0
    ensures Run(initial, H(initial), 1, temperatures, draws) == Done(current, minH)
    ensures visited == Walk(initial, 1, temperatures, draws)
    ensures |visited| - 1 <= t - 1 <= 100
    ensures forall u :: 0 <= u < t - 1 ==> temperatures[u] != 0.0
    ensures t - 1 < 100 ==> temperatures[t - 1] == 0.0
  {
    RunStops(current, minH, t, temperatures, draws);
    AppendToWalk(visited, current, []);
  }

  /** `walk` goes from `initial` to `state` by single-queen moves, and minH is
      the smallest h along it. */
  ghost predicate WalkSummary(initial: seq<int>, state: seq<int>, minH: nat, walk: seq<seq<int>>)
  {
    && |walk| >= 1 && walk[0] == initial && walk[|walk| - 1] == state
    && NeighbourChain(walk)
    && (forall i :: 0 <= i < |walk| ==> minH <= H(walk[i]))
    && (exists i :: 0 <= i < |walk| && minH == H(walk[i]))
  }

  /** A finished run from `initial` ends on the last state of its walk, and its
      minH is the smallest h of the states it adopted. */
  lemma RunFromInitial(initial: seq<int>, temperatures: seq<real>, draws: seq<Draw>)
    requires RunInputs(temperatures, draws, |initial|)
    ensures var r := Run(initial, H(initial), 1, temperatures, draws);
      r.Done? ==> WalkSummary(initial, r.state, r.minH, Walk(initial, 1, temperatures, draws))
  {
    var walk, r := Walk(initial, 1, temperatures, draws), Run(initial, H(initial), 1, temperatures, draws);
    WalkIsNeighbourChain(initial, 1, temperatures, draws);
    RunEndsOnWalk(initial, H(initial), 1, temperatures, draws);
    RunMinBelowWalk(initial, H(initial), 1, temperatures, draws);
    RunMinOnWalk(initial, H(initial), 1, temperatures, draws);
    if r.Done? && r.minH == H(initial) {
      assert r.minH == H(walk[0]);
    }
  }

  /** The annealing loop for t = 1 .. 100, stopping when the temperature is 0.
      Ghost outputs: the adopted states in order (starting with the initial
      state) and the number of steps that generated a successor. */
  method SimulatedAnnealing(initial: seq<int>, temperatures: seq<real>, draws: seq<Draw>)
    returns (result: AnnealResult, ghost visited: seq<seq<int>>, ghost steps: nat)
    requires RunInputs(temperatures, draws, |initial|)
    ensures result == Run(initial, H(initial), 1, temperatures, draws)
    ensures result.StuckAt? ==>
      1 <= result.t <= 100 && |visited| >= 1 && RowDrawsExhausted(draws[result.t - 1], visited[|visited| - 1])
    ensures result.Done? ==> visited == Walk(initial, 1, temperatures, draws)
    ensures result.Done? ==> WalkSummary(initial, result.state, result.minH, visited)
    ensures result.Done? ==> |result.state| == |initial| && (Valid(initial) ==> Valid(result.state))
    ensures result.Done? ==> |visited| - 1 <= steps <= 100
    ensures result.Done? ==> forall u :: 0 <= u < steps ==> temperatures[u] != 0.0
    ensures result.Done? && steps < 100 ==> temperatures[steps] == 0.0
  {
    var current := initial;
    var currentH := CountConflicts(current);
    var minH := currentH;
    visited := [initial];
    var t := 1;
    while t <= 100
      invariant Annealing(initial, temperatures, draws, t, current, currentH, minH, visited)
    {
      if temperatures[t - 1] == 0.0 {
        break;
      }
      var stuck;
      stuck, current, currentH, minH, visited := AnnealIteration(initial, temperatures, draws, t, current, currentH, minH, visited);
      if stuck {
        return StuckAt(t), visited, t - 1;
      }
      t := t + 1;
    }
    AnnealingFinished(initial, temperatures, draws, t, current, currentH, minH, visited);
    result, steps := Done(current, minH), t - 1;
    RunFromInitial(initial, temperatures, draws);
  }
}
