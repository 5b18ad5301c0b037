/**
 * The four backtracking searches of back_tracking/n-queens.js. Each places
 * one piece per row, trying columns left to right, and tests the whole
 * board with the active conflict check after every placement.
 *
 * The closures' shared state becomes explicit: the find searches pass the
 * board along and report whether a column loop stopped early; the count
 * searches thread a CountState holding the board, `solutionCount` and `flag`.
 */
module Search {
  import opened Chess
  import opened Placements

  // ----- sum2DArr -----

  /** `row.reduce((acc, col) => acc + col, 0)`. */
  function RowSum(row: seq<int>): (sum: int)
  {
    if |row| == 0 then 0 else RowSum(row[..|row| - 1]) + row[|row| - 1]
  }

  /** `sum2DArr`: the number of pieces on a 0/1 grid. */
  function Sum2D(g: seq<seq<int>>): (sum: int)
  {
    if |g| == 0 then 0 else Sum2D(g[..|g| - 1]) + RowSum(g[|g| - 1])
  }

  lemma {:induction false} RowSumOneHot(row: seq<int>, c: int, k: nat)
    requires k <= |row|
    requires forall j :: 0 <= j < |row| ==> row[j] == (if j == c then 1 else 0)
    ensures RowSum(row[..k]) == if 0 <= c < k then 1 else 0
  {
    if k > 0 {
      assert row[..k][..k - 1] == row[..k - 1];
      RowSumOneHot(row, c, k - 1);
    }
  }

  lemma {:induction false} SumPlacePrefix(n: nat, p: seq<int>, m: nat)
    requires |p| <= n && InRange(p, n) && m <= n
    ensures Sum2D(Place(n, p).grid[..m]) == if m < |p| then m else |p|
  {
    if m > 0 {
      var g := Place(n, p).grid;
      assert g[..m][..m - 1] == g[..m - 1];
      SumPlacePrefix(n, p, m - 1);
      RowSumOneHot(g[m - 1], if m - 1 < |p| then p[m - 1] else -1, n);
      assert g[m - 1][..n] == g[m - 1];
    }
  }

  /** `sum2DArr` counts the pieces of a placement. */
  lemma SumPlace(n: nat, p: seq<int>)
    requires |p| <= n && InRange(p, n)
    ensures Sum2D(Place(n, p).grid) == |p|
  {
    SumPlacePrefix(n, p, n);
    assert Place(n, p).grid[..n] == Place(n, p).grid;
  }

  // ----- findNRooksSolution / findNQueensSolution -----

  /**
   * `recursion(row, col)` of the find searches. It returns the board unchanged
   * when row is past the last row; otherwise it places (row, col) and, when no
   * conflict arises, tries the next row. It keeps the piece only when the
   * board it hands back is complete (sum2DArr equals n).
   */
  function FindRecursion(kind: Piece, b: Board, row: nat, col: int): (b': Board)
    requires Valid(b) && row <= b.n && 0 <= col < b.n
    ensures Valid(b') && b'.n == b.n
    ensures b' == b || Sum2D(b'.grid) == b.n
    decreases b.n - row, 0
  {
    if row == b.n then b
    else
      var placed := Toggle(b, row, col);
      if !AnyConflicts(kind, placed) then
        var (after, stopped) := FindColumns(kind, placed, row + 1, 0);
        if stopped then after
        else
          ToggleTwice(b, row, col);
          Toggle(after, row, col)
      else
        ToggleTwice(b, row, col);
        Toggle(placed, row, col)
  }

  /**
   * The column loop of the find searches: it calls `recursion(row, i)` for each
   * column i from `from` to the last, and returns as soon as the board holds n
   * pieces. The flag reports whether it stopped early on a complete board; when it
   * did not, every call restored the board.
   */
  function FindColumns(kind: Piece, b: Board, row: nat, from: nat): (r: (Board, bool))
    requires Valid(b) && row <= b.n && from <= b.n
    ensures Valid(r.0) && r.0.n == b.n
    ensures r.1 ==> Sum2D(r.0.grid) == b.n
    ensures !r.1 ==> r.0 == b
    decreases b.n - row, b.n - from + 1
  {
    if from == b.n then (b, false)
    else
      var b' := FindRecursion(kind, b, row, from);
      if Sum2D(b'.grid) == b.n then (b', true)
      else FindColumns(kind, b', row, from + 1)
  }

  /** What a find search returns: the grid of the first solution, or the empty board when there is none. */
  ghost predicate ReturnsFirstSolution(kind: Piece, n: nat, g: seq<seq<int>>)
  {
    || (exists s :: IsFirstSolution(kind, n, s) && g == Place(n, s).grid)
    || (Solutions(kind, n) == {} && g == MakeChessBoard(n).grid)
  }

  /**
   * What a column loop over the candidates of q from `from` on must return:
   * stopped on the board of the first candidate, or not stopped when there is none.
   */
  ghost predicate LoopOutcome(kind: Piece, n: nat, q: seq<int>, from: int, r: (Board, bool))
  {
    || (r.1 && exists s :: IsFirstCandidate(kind, n, q, from, s) && r.0 == Place(n, s))
    || (!r.1 && forall t :: !Candidate(kind, n, q, from, t))
  }

  /**
   * On the placement q, the column loop for row |q| stops exactly when some
   * candidate exists, and then leaves the board of the first one.
   */
  lemma FindColumnsSpec(kind: Piece, n: nat, q: seq<int>, from: nat)
    requires |q| <= n && InRange(q, n) && Compatible(kind, q) && from <= n
    requires |q| < n || from < n
    ensures LoopOutcome(kind, n, q, from, FindColumns(kind, Place(n, q), |q|, from))
    decreases n - |q|, n - from + 1, 1
  {
    if from == n {
      NoCandidatePastEnd(kind, n, q, from);
    } else if |q| == n {
      SumPlace(n, q);
      FullCandidates(kind, n, q, from);
    } else {
      FindColumnsStep(kind, n, q, from);
    }
  }

  /** One pass of the column loop: stop on the first solution through `from`, or go on to the next column. */
  lemma FindColumnsStep(kind: Piece, n: nat, q: seq<int>, from: nat)
    requires |q| < n && InRange(q, n) && Compatible(kind, q) && from < n
    ensures LoopOutcome(kind, n, q, from, FindColumns(kind, Place(n, q), |q|, from))
    decreases n - |q|, n - from + 1, 0
  {
    FindRecursionSpec(kind, n, q, from);
    FindColumnsNext(kind, Place(n, q), |q|, from);
    var b' := FindRecursion(kind, Place(n, q), |q|, from);
    if Sum2D(b'.grid) == n {
      var s :| IsFirstCandidate(kind, n, q + [from], 0, s) && b' == Place(n, s);
      FirstOfSplit(kind, n, q, from, s);
    } else {
      FindColumnsSpec(kind, n, q, from + 1);
      SkipEmptyColumn(kind, n, q, from);
    }
  }

  /** A column with no candidate through it can be skipped. */
  lemma SkipEmptyColumn(kind: Piece, n: nat, q: seq<int>, from: int)
    requires |q| < n && forall t :: !Candidate(kind, n, q + [from], 0, t)
    ensures forall t :: Candidate(kind, n, q, from, t) <==> Candidate(kind, n, q, from + 1, t)
    ensures forall s :: IsFirstCandidate(kind, n, q, from + 1, s) ==> IsFirstCandidate(kind, n, q, from, s)
  {
    forall t
      ensures Candidate(kind, n, q, from, t) <==> Candidate(kind, n, q, from + 1, t)
    {
      CandidateSplit(kind, n, q, from, t);
    }
  }

  /** The column loop stops at the first complete board; otherwise the board is unchanged and it goes on. */
  lemma FindColumnsNext(kind: Piece, b: Board, row: nat, from: nat)
    requires Valid(b) && row <= b.n && from < b.n
    ensures var b' := FindRecursion(kind, b, row, from);
            && (Sum2D(b'.grid) == b.n ==> FindColumns(kind, b, row, from) == (b', true))
            && (Sum2D(b'.grid) != b.n ==> b' == b && FindColumns(kind, b, row, from) == FindColumns(kind, b, row, from + 1))
  {
  }

  /** The first candidate through column `from` is the first candidate from `from` on. */
  lemma FirstOfSplit(kind: Piece, n: nat, q: seq<int>, from: int, s: seq<int>)
    requires |q| < n
    requires IsFirstCandidate(kind, n, q + [from], 0, s)
    ensures IsFirstCandidate(kind, n, q, from, s)
  {
    CandidateSplit(kind, n, q, from, s);
    forall t | Candidate(kind, n, q, from, t)
      ensures LexLe(s, t)
    {
      CandidateSplit(kind, n, q, from, t);
      if !Candidate(kind, n, q + [from], 0, t) {
        assert s[..|q| + 1] == q + [from];
        assert s[..|q|] == q == t[..|q|];
        assert s[|q|] == from < t[|q|];
      }
    }
  }

  /**
   * On the placement p, `recursion(|p|, col)` either leaves the board of the
   * first solution through p + [col], or restores the board when there is none.
   */
  lemma FindRecursionSpec(kind: Piece, n: nat, p: seq<int>, col: int)
    requires |p| < n && InRange(p, n) && Compatible(kind, p) && 0 <= col < n
    ensures var b' := FindRecursion(kind, Place(n, p), |p|, col);
            || (Sum2D(b'.grid) == n && exists s :: IsFirstCandidate(kind, n, p + [col], 0, s) && b' == Place(n, s))
            || (Sum2D(b'.grid) != n && b' == Place(n, p) && forall t :: !Candidate(kind, n, p + [col], 0, t))
    decreases n - |p|, 0, 0
  {
    var q := p + [col];
    PlaceNext(n, p, col);
    PlaceConflictIff(kind, n, q);
    SumPlace(n, p);
    if Compatible(kind, q) {
      FindColumnsSpec(kind, n, q, 0);
    } else {
      NoCandidateOfConflict(kind, n, q, 0);
    }
  }

  /** The top-level loop of a find search, run on a fresh board, returns the first solution or the empty board. */
  lemma FindTopSpec(kind: Piece, n: nat)
    ensures ReturnsFirstSolution(kind, n, FindColumns(kind, MakeChessBoard(n), 0, 0).0.grid)
  {
    EmptyPlacement(n);
    if n == 0 {
      SolutionsOfZero(kind);
      assert IsFirstSolution(kind, 0, []);
    } else {
      FindColumnsSpec(kind, n, [], 0);
      CandidatesOfEmpty(kind, n);
    }
  }

  /** `findNRooksSolution(n)`. */
  function FindNRooksSolution(n: nat): (g: seq<seq<int>>)
    ensures ReturnsFirstSolution(Rook, n, g)
  {
    FindTopSpec(Rook, n);
    FindColumns(Rook, MakeChessBoard(n), 0, 0).0.grid
  }

  /** `findNQueensSolution(n)`, with its special cases for n = 0 and n = 1. */
  function FindNQueensSolution(n: nat): (g: seq<seq<int>>)
    ensures ReturnsFirstSolution(Queen, n, g)
  {
    if n == 0 then
      SolutionsOfZero(Queen);
      assert IsFirstSolution(Queen, 0, []) && Place(0, []).grid == [];
      []
    else if n == 1 then
      SolutionsOfOne(Queen);
      assert IsFirstSolution(Queen, 1, [0]);
      assert Place(1, [0]).grid[0][0] == 1;
      assert Place(1, [0]).grid[0] == [1];
      [[1]]
    else
      FindTopSpec(Queen, n);
      FindColumns(Queen, MakeChessBoard(n), 0, 0).0.grid
  }

  // ----- countNRooksSolutions / countNQueensSolutions -----

  /** The state the count searches' closures share: the board, `solutionCount` and `flag`. */
  datatype CountState = CountState(board: Board, count: nat, flag: bool)

  /**
   * `recursion(row, col)` of the count searches. Past the last row it counts
   * one solution and raises the flag. Otherwise it places (row, col) and, when
   * no conflict arises, runs the column loop of the next row. It never removes
   * its own piece: its caller does.
   */
  function CountRecursion(kind: Piece, s: CountState, row: nat, col: int): (s': CountState)
    requires Valid(s.board) && row <= s.board.n && 0 <= col < s.board.n
    ensures Valid(s'.board) && s'.board.n == s.board.n
    ensures row == s.board.n ==> s' == CountState(s.board, s.count + 1, true)
    ensures row < s.board.n ==> s'.board == Toggle(s.board, row, col)
    ensures row < s.board.n && !s.flag ==> !s'.flag
    decreases s.board.n - row, 0
  {
    if row == s.board.n then CountState(s.board, s.count + 1, true)
    else
      var placed := Toggle(s.board, row, col);
      if !AnyConflicts(kind, placed) then CountColumns(kind, s.(board := placed), row + 1, 0)
      else s.(board := placed)
  }

  /**
   * The column loop of the count searches for the children in row `row`:
   * `recursion(row, i)`, then the parent removes the child's piece when row < n,
   * then a raised flag is lowered and ends the loop.
   */
  function CountColumns(kind: Piece, s: CountState, row: nat, from: nat): (s': CountState)
    requires Valid(s.board) && row <= s.board.n && from <= s.board.n
    ensures Valid(s'.board) && s'.board == s.board
    ensures !s.flag ==> !s'.flag
    decreases s.board.n - row, s.board.n - from + 1
  {
    if from == s.board.n then s
    else
      var child := CountRecursion(kind, s, row, from);
      var b := if row < s.board.n then ToggleTwice(s.board, row, from); Toggle(child.board, row, from) else child.board;
      if child.flag then CountState(b, child.count, false)
      else CountColumns(kind, CountState(b, child.count, child.flag), row, from + 1)
  }

  /**
   * The top-level loop of the count searches: for each column i of row 0 from
   * `from` on, it calls `recursion(0, i)` and then toggles (0, i) back off.
   */
  function CountTop(kind: Piece, s: CountState, from: nat): (s': CountState)
    requires Valid(s.board) && 0 < s.board.n && from <= s.board.n
    ensures Valid(s'.board) && s'.board == s.board
    ensures !s.flag ==> !s'.flag
    decreases s.board.n - from
  {
    if from == s.board.n then s
    else
      var child := CountRecursion(kind, s, 0, from);
      ToggleTwice(s.board, 0, from);
      CountTop(kind, child.(board := Toggle(child.board, 0, from)), from + 1)
  }

  /** On the placement p, `recursion(|p|, col)` adds the number of solutions through p + [col]. */
  lemma CountRecursionSpec(kind: Piece, n: nat, p: seq<int>, col: int, count: nat)
    requires |p| < n && InRange(p, n) && Compatible(kind, p) && 0 <= col < n
    ensures CountRecursion(kind, CountState(Place(n, p), count, false), |p|, col).count
            == count + |Candidates(kind, n, p + [col], 0)|
    decreases n - |p|, 0, 0
  {
    var q := p + [col];
    PlaceNext(n, p, col);
    PlaceConflictIff(kind, n, q);
    if Compatible(kind, q) {
      CountColumnsSpec(kind, n, q, 0, count);
    } else {
      NoCandidateOfConflict(kind, n, q, 0);
    }
  }

  /** On the placement q, the column loop for row |q| from `from` on adds the number of candidates. */
  lemma CountColumnsSpec(kind: Piece, n: nat, q: seq<int>, from: nat, count: nat)
    requires |q| <= n && InRange(q, n) && Compatible(kind, q) && from <= n
    requires |q| < n || from < n
    ensures CountColumns(kind, CountState(Place(n, q), count, false), |q|, from).count
            == count + |Candidates(kind, n, q, from)|
    decreases n - |q|, n - from + 1, 1
  {
    if from == n {
      NoCandidatePastEnd(kind, n, q, from);
    } else if |q| == n {
      FullCandidates(kind, n, q, from);
      assert CountColumns(kind, CountState(Place(n, q), count, false), |q|, from)
          == CountState(Place(n, q), count + 1, false);
    } else {
      CountColumnsStep(kind, n, q, from, count);
    }
  }

  /** One pass of the column loop: the child adds its solutions and the parent's toggle restores the board. */
  lemma CountColumnsStep(kind: Piece, n: nat, q: seq<int>, from: nat, count: nat)
    requires |q| < n && InRange(q, n) && Compatible(kind, q) && from < n
    ensures CountColumns(kind, CountState(Place(n, q), count, false), |q|, from).count
            == count + |Candidates(kind, n, q, from)|
    decreases n - |q|, n - from + 1, 0
  {
    var s := CountState(Place(n, q), count, false);
    CountRecursionSpec(kind, n, q, from, count);
    var child := CountRecursion(kind, s, |q|, from);
    CountColumnsNext(kind, s, |q|, from);
    CountColumnsSpec(kind, n, q, from + 1, child.count);
    CandidatesCountSplit(kind, n, q, from);
  }

  /** When the child leaves the flag down, the column loop goes on to the next column on the restored board. */
  lemma CountColumnsNext(kind: Piece, s: CountState, row: nat, from: nat)
    requires Valid(s.board) && row < s.board.n && from < s.board.n && !s.flag
    ensures CountColumns(kind, s, row, from)
            == CountColumns(kind, CountState(s.board, CountRecursion(kind, s, row, from).count, false), row, from + 1)
  {
    ToggleTwice(s.board, row, from);
  }

  /**
   * The top-level loop behaves as the column loop of row 0: a child of row 0
   * never raises the flag, so skipping the flag test changes nothing.
   */
  lemma {:induction false} CountTopIsColumns(kind: Piece, s: CountState, from: nat)
    requires Valid(s.board) && 0 < s.board.n && from <= s.board.n && !s.flag
    ensures CountTop(kind, s, from) == CountColumns(kind, s, 0, from)
    decreases s.board.n - from
  {
    if from < s.board.n {
      var child := CountRecursion(kind, s, 0, from);
      CountTopNext(kind, s, from);
      CountColumnsNext(kind, s, 0, from);
      CountTopIsColumns(kind, CountState(s.board, child.count, false), from + 1);
    }
  }

  /** Each pass of the top-level loop hands the next pass the restored board and the child's count. */
  lemma CountTopNext(kind: Piece, s: CountState, from: nat)
    requires Valid(s.board) && from < s.board.n && !s.flag
    ensures CountTop(kind, s, from)
            == CountTop(kind, CountState(s.board, CountRecursion(kind, s, 0, from).count, false), from + 1)
  {
    ToggleTwice(s.board, 0, from);
  }

  /** The count search's result is the number of solutions. */
  lemma CountSearchSpec(kind: Piece, n: nat)
    requires 1 < n
    ensures CountTop(kind, CountState(MakeChessBoard(n), 0, false), 0).count == |Solutions(kind, n)|
  {
    EmptyPlacement(n);
    CountTopIsColumns(kind, CountState(Place(n, []), 0, false), 0);
    CountColumnsSpec(kind, n, [], 0, 0);
    CandidatesOfEmpty(kind, n);
  }

  /** `countNRooksSolutions(n)`. */
  function CountNRooksSolutions(n: nat): (count: nat)
    ensures count == |Solutions(Rook, n)|
  {
    if n == 0 || n == 1 then
      SolutionsOfZero(Rook);
      SolutionsOfOne(Rook);
      1
    else
      CountSearchSpec(Rook, n);
      CountTop(Rook, CountState(MakeChessBoard(n), 0, false), 0).count
  }

  /** `countNQueensSolutions(n)`. */
  function CountNQueensSolutions(n: nat): (count: nat)
    ensures count == |Solutions(Queen, n)|
  {
    if n == 0 || n == 1 then
      SolutionsOfZero(Queen);
      SolutionsOfOne(Queen);
      1
    else
      CountSearchSpec(Queen, n);
      CountTop(Queen, CountState(MakeChessBoard(n), 0, false), 0).count
  }

  /** The empty placement is the one solution for n = 0. */
  lemma SolutionsOfZero(kind: Piece)
    ensures Solutions(kind, 0) == {[]}
  {
    assert IsSolution(kind, 0, []);
  }

  /** A single piece in the single cell is the one solution for n = 1. */
  lemma SolutionsOfOne(kind: Piece)
    ensures Solutions(kind, 1) == {[0]}
  {
    forall t
      ensures t in Solutions(kind, 1) <==> t == [0]
    {
      SolutionOfOne(kind, t);
    }
  }

  lemma SolutionOfOne(kind: Piece, t: seq<int>)
    ensures IsSolution(kind, 1, t) <==> t == [0]
  {
    if IsSolution(kind, 1, t) {
      assert t == [t[0]] && t[0] == 0;
    }
  }
}
