/** The board representation shared by the three searches and the conflict
    heuristic h (utils.py). A state is a sequence whose c-th element is the
    row of the queen in column c; rows and columns are numbered from 0. */
module Board {

  datatype Option<T> = None | Some(value: T)

  /** A well-formed state of N queens: every row lies in [0, N). */
  predicate Valid(s: seq<int>)
  {
    forall c :: 0 <= c < |s| ==> 0 <= s[c] < |s|
  }

  /** How far apart two rows, or two columns, are. */
  function Distance(x: int, y: int): nat
  {
    if x >= y then x - y else y - x
  }

  /** Two queens attack each other along a row or one of the two diagonals.
      Columns are never compared: a state has one queen per column. */
  predicate Conflict(row1: int, col1: int, row2: int, col2: int): (attack: bool)
    ensures attack <==> row1 == row2 || Distance(row1, row2) == Distance(col1, col2)
  {
    row1 == row2 || row1 - col1 == row2 - col2 || row1 + col1 == row2 + col2
  }

  /** Number of unordered column pairs of n columns: n * (n - 1) / 2. */
  function TotalPairs(n: nat): nat
  {
    if n == 0 then 0 else n * (n - 1) / 2
  }

  /** Number of columns c2 in [from, |s|) whose queen attacks the queen of column c1. */
  function RowConflicts(s: seq<int>, c1: nat, from: nat): nat
    requires c1 < |s|
    decreases |s| - from
  {
    if from >= |s| then 0
    else (if Conflict(s[c1], c1, s[from], from) then 1 else 0) + RowConflicts(s, c1, from + 1)
  }

  /** Conflicting pairs (a, b) with c1 <= a < b, summed column by column. */
  function ConflictsFrom(s: seq<int>, c1: nat): nat
    decreases |s| - c1
  {
    if c1 >= |s| then 0 else RowConflicts(s, c1, c1 + 1) + ConflictsFrom(s, c1 + 1)
  }

  /** The heuristic h: the number of attacking pairs of queens. */
  function H(s: seq<int>): nat
  {
    ConflictsFrom(s, 0)
  }

  /** No two queens of s attack each other: s solves the N-queens problem. */
  predicate NoConflicts(s: seq<int>)
  {
    forall c1, c2 :: 0 <= c1 < c2 < |s| ==> !Conflict(s[c1], c1, s[c2], c2)
  }

  /** The attacking pairs (c1, c2), c1 < c2, of columns at or after `from`. */
  ghost function ConflictPairsFrom(s: seq<int>, from: nat): set<(int, int)>
  {
    set c1, c2 | from <= c1 < c2 < |s| && Conflict(s[c1], c1, s[c2], c2) :: (c1, c2)
  }

  /** The attacking pairs of one column c1 against the columns in [from, |s|). */
  ghost function RowPairs(s: seq<int>, c1: nat, from: nat): set<(int, int)>
    requires c1 < |s|
  {
    set c2 | from <= c2 < |s| && Conflict(s[c1], c1, s[c2], c2) :: (c1, c2)
  }

  /** t is s with exactly one queen moved to a different row of the board. */
  predicate IsNeighbour(s: seq<int>, t: seq<int>)
  {
    exists col :: 0 <= col < |s| && |t| == |s| && 0 <= t[col] < |s| && t[col] != s[col] && t == s[col := t[col]]
  }

  lemma ConflictSymmetric(row1: int, col1: int, row2: int, col2: int)
    ensures Conflict(row1, col1, row2, col2) == Conflict(row2, col2, row1, col1)
  {
  }

  /** Two distinct queens of one column would never count as a conflict. */
  lemma SameColumnNoConflict(row1: int, row2: int, col: int)
    requires row1 != row2
    ensures !Conflict(row1, col, row2, col)
  {
  }

  lemma {:induction false} RowConflictsCountsPairs(s: seq<int>, c1: nat, from: nat)
    requires c1 < |s|
    ensures RowConflicts(s, c1, from) == |RowPairs(s, c1, from)|
    decreases |s| - from
  {
    if from >= |s| {
      assert RowPairs(s, c1, from) == {};
    } else {
      RowConflictsCountsPairs(s, c1, from + 1);
      var rest := RowPairs(s, c1, from + 1);
      assert (c1, from) !in rest;
      if Conflict(s[c1], c1, s[from], from) {
        assert RowPairs(s, c1, from) == rest + {(c1, from)};
      } else {
        assert RowPairs(s, c1, from) == rest;
      }
    }
  }

  lemma {:induction false} ConflictsFromCountsPairs(s: seq<int>, c1: nat)
    ensures ConflictsFrom(s, c1) == |ConflictPairsFrom(s, c1)|
    decreases |s| - c1
  {
    if c1 >= |s| {
      assert ConflictPairsFrom(s, c1) == {};
    } else {
      ConflictsFromCountsPairs(s, c1 + 1);
      RowConflictsCountsPairs(s, c1, c1 + 1);
      var row, rest := RowPairs(s, c1, c1 + 1), ConflictPairsFrom(s, c1 + 1);
      assert ConflictPairsFrom(s, c1) == row + rest;
      assert row * rest == {};
    }
  }

  /** h counts every attacking unordered pair of columns exactly once. */
  lemma HCountsConflictPairs(s: seq<int>)
    ensures H(s) == |ConflictPairsFrom(s, 0)|
  {
    ConflictsFromCountsPairs(s, 0);
  }

  /** h is zero exactly on the solutions. */
  lemma HZeroIffNoConflicts(s: seq<int>)
    ensures H(s) == 0 <==> NoConflicts(s)
  {
    HCountsConflictPairs(s);
    if !NoConflicts(s) {
      var c1, c2 :| 0 <= c1 < c2 < |s| && Conflict(s[c1], c1, s[c2], c2);
      assert (c1, c2) in ConflictPairsFrom(s, 0);
    } else {
      assert ConflictPairsFrom(s, 0) == {};
    }
  }

  lemma TotalPairsStep(m: nat)
    requires m >= 1
    ensures TotalPairs(m) == (m - 1) + TotalPairs(m - 1)
  {
    assert m * (m - 1) == (m - 1) * (m - 2) + 2 * (m - 1);
  }

  lemma {:induction false} RowConflictsBound(s: seq<int>, c1: nat, from: nat)
    requires c1 < |s|
    ensures RowConflicts(s, c1, from) <= if from <= |s| then |s| - from else 0
    decreases |s| - from
  {
    if from < |s| {
      RowConflictsBound(s, c1, from + 1);
    }
  }

  lemma {:induction false} ConflictsFromBound(s: seq<int>, c1: nat)
    requires c1 <= |s|
    ensures ConflictsFrom(s, c1) <= TotalPairs(|s| - c1)
    decreases |s| - c1
  {
    if c1 < |s| {
      ConflictsFromBound(s, c1 + 1);
      RowConflictsBound(s, c1, c1 + 1);
      TotalPairsStep(|s| - c1);
    }
  }

  /** 0 <= h(s) <= N * (N - 1) / 2. */
  lemma HBounds(s: seq<int>)
    ensures H(s) <= TotalPairs(|s|)
  {
    ConflictsFromBound(s, 0);
  }

  /** A board of zero or one queens has no conflicts. */
  lemma HSmall(s: seq<int>)
    requires |s| <= 1
    ensures H(s) == 0
  {
    HBounds(s);
  }

  /** The 4-queens solution [1, 3, 0, 2] has no conflicts. */
  lemma HOfFourQueensSolution()
    ensures H([1, 3, 0, 2]) == 0
  {
    HZeroIffNoConflicts([1, 3, 0, 2]);
  }

  /** [3, 1, 3, 1]: columns 0 and 2 share row 3, columns 1 and 3 share row 1. */
  lemma HOfFourQueensExample()
    ensures H([3, 1, 3, 1]) == 2
  {
    var s := [3, 1, 3, 1];
    assert RowConflicts(s, 0, 1) == 1;
    assert RowConflicts(s, 1, 2) == 1;
    assert RowConflicts(s, 2, 3) == 0;
  }

  /** A single-queen move to another row of the board yields a neighbour. */
  lemma MoveIsNeighbour(s: seq<int>, col: int, row: int)
    requires 0 <= col < |s| && 0 <= row < |s| && row != s[col]
    ensures IsNeighbour(s, s[col := row])
    ensures Valid(s) ==> Valid(s[col := row])
  {
    var t := s[col := row];
    assert t[col] == row;
    assert t == s[col := t[col]];
  }

  /** The nested loop of h: for every c1, for every c2 > c1, add one per conflict. */
  method CountConflicts(state: seq<int>) returns (numConflicts: nat)
    ensures numConflicts == H(state)
    ensures numConflicts <= TotalPairs(|state|)
  {
    var n := |state|;
    numConflicts := 0;
    var c1 := 0;
    while c1 < n
      invariant 0 <= c1 <= n
      invariant numConflicts + ConflictsFrom(state, c1) == H(state)
    {
      var c2 := c1 + 1;
      while c2 < n
        invariant c1 + 1 <= c2 <= n
        invariant numConflicts + RowConflicts(state, c1, c2) + ConflictsFrom(state, c1 + 1) == H(state)
      {
        if Conflict(state[c1], c1, state[c2], c2) {
          numConflicts := numConflicts + 1;
        }
        c2 := c2 + 1;
      }
      c1 := c1 + 1;
    }
    HBounds(state);
  }
}
