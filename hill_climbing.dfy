/** Steepest-ascent hill climbing over single-queen moves (hill_climbing.py). */
module HillClimbing {
  import opened Board

  /** Moving the queen of column col to row is one of the N * (N - 1) candidate moves. */
  predicate IsMove(s: seq<int>, col: int, row: int)
  {
    0 <= col < |s| && 0 <= row < |s| && row != s[col]
  }

  /** Candidate (c1, r1) is enumerated before (c2, r2): column first, then row. */
  predicate Before(c1: int, r1: int, c2: int, r2: int)
  {
    c1 < c2 || (c1 == c2 && r1 < r2)
  }

  /** Every move enumerated before (col, row) leads to a state worse than bound. */
  ghost predicate NoEarlierAsGood(s: seq<int>, col: int, row: int, bound: int)
  {
    forall c, r :: IsMove(s, c, r) && Before(c, r, col, row) ==> H(s[c := r]) > bound
  }

  /** No single-queen move lowers h. */
  ghost predicate LocalMinimum(s: seq<int>)
  {
    forall c, r :: IsMove(s, c, r) ==> H(s) <= H(s[c := r])
  }

  /** t is the successor the climb adopts from s: a move that strictly lowers h,
      no move leads lower, and no move enumerated before it is as good. */
  ghost predicate SteepestStep(s: seq<int>, t: seq<int>)
  {
    && H(t) < H(s)
    && (forall c, r :: IsMove(s, c, r) ==> H(t) <= H(s[c := r]))
    && exists col, row :: IsMove(s, col, row) && t == s[col := row] && NoEarlierAsGood(s, col, row, H(t))
  }

  /** The steepest step from a state is unique: the climb is deterministic. */
  lemma SteepestStepUnique(s: seq<int>, t1: seq<int>, t2: seq<int>)
    requires SteepestStep(s, t1) && SteepestStep(s, t2)
    ensures t1 == t2
  {
  }

  /** Scans every move in enumeration order and keeps the first one with the
      strictly lowest h; without an improving move, returns the input itself. */
  method GetBestSuccessor(current: seq<int>) returns (best: seq<int>, bestH: nat)
    ensures bestH == H(best) && bestH <= H(current)
    ensures |best| == |current|
    ensures Valid(current) ==> Valid(best)
    ensures forall c, r :: IsMove(current, c, r) ==> bestH <= H(current[c := r])
    ensures bestH == H(current) ==> best == current
    ensures bestH < H(current) ==>
      exists col, row :: IsMove(current, col, row) && best == current[col := row]
                         && NoEarlierAsGood(current, col, row, bestH)
  {
    var n := |current|;
    var currentH := CountConflicts(current);
    best, bestH := current, currentH;
    ghost var bestCol, bestRow := 0, 0;
    var col := 0;
    while col < n
      invariant 0 <= col <= n
      invariant bestH == H(best) && bestH <= currentH == H(current)
      invariant |best| == n && (Valid(current) ==> Valid(best))
      invariant forall c, r :: IsMove(current, c, r) && c < col ==> bestH <= H(current[c := r])
      invariant bestH == currentH ==> best == current
      invariant bestH < currentH ==>
        IsMove(current, bestCol, bestRow) && best == current[bestCol := bestRow]
        && NoEarlierAsGood(current, bestCol, bestRow, bestH) && bestCol < col
    {
      var row := 0;
      while row < n
        invariant 0 <= row <= n
        invariant bestH == H(best) && bestH <= currentH == H(current)
        invariant |best| == n && (Valid(current) ==> Valid(best))
        invariant forall c, r :: IsMove(current, c, r) && Before(c, r, col, row) ==> bestH <= H(current[c := r])
        invariant bestH == currentH ==> best == current
        invariant bestH < currentH ==>
          IsMove(current, bestCol, bestRow) && best == current[bestCol := bestRow]
          && NoEarlierAsGood(current, bestCol, bestRow, bestH) && Before(bestCol, bestRow, col, row)
      {
        if current[col] != row {
          var newState := current[col := row];
          var newH := CountConflicts(newState);
          if newH < bestH {
            best, bestH := newState, newH;
            bestCol, bestRow := col, row;
          }
        }
        row := row + 1;
      }
      col := col + 1;
    }
  }

  /** Repeats the best single-queen move while it strictly lowers h. The ghost
      path records every adopted state, each the steepest step from the one
      before; its length is bounded by h of the input. */
  method HillClimbing(initial: seq<int>) returns (final: seq<int>, finalH: nat, ghost path: seq<seq<int>>)
    ensures finalH == H(final) && finalH <= H(initial)
    ensures |final| == |initial|
    ensures Valid(initial) ==> Valid(final)
    ensures LocalMinimum(final)
    ensures |path| >= 1 && path[0] == initial && path[|path| - 1] == final
    ensures forall i :: 0 <= i < |path| - 1 ==> IsNeighbour(path[i], path[i + 1]) && SteepestStep(path[i], path[i + 1])
    ensures |path| - 1 <= H(initial) - finalH <= TotalPairs(|initial|)
  {
    final := initial;
    finalH := CountConflicts(initial);
    path := [initial];
    while true
      invariant finalH == H(final) && finalH <= H(initial)
      invariant |final| == |initial|
      invariant Valid(initial) ==> Valid(final)
      invariant |path| >= 1 && path[0] == initial && path[|path| - 1] == final
      invariant forall i :: 0 <= i < |path| - 1 ==> IsNeighbour(path[i], path[i + 1]) && SteepestStep(path[i], path[i + 1])
      invariant |path| - 1 <= H(initial) - finalH
      decreases finalH
    {
      var next, nextH := GetBestSuccessor(final);
      if nextH >= finalH {
        break;
      }
      ghost var col, row :| IsMove(final, col, row) && next == final[col := row]
                            && NoEarlierAsGood(final, col, row, nextH);
      MoveIsNeighbour(final, col, row);
      assert SteepestStep(final, next);
      path := path + [next];
      final, finalH := next, nextH;
    }
    HBounds(initial);
  }
}
