/**
 * What the searches return for particular sides: the rooks' first solution is
 * the diagonal, the rooks have n! solutions, and the queens have none for
 * sides 2 and 3 and exactly two for side 4.
 */
module Results {
  import opened Chess
  import opened Placements
  import opened Search

  /** A find search that returns the first solution, when one is known, returns its board. */
  lemma FirstSolutionBoard(kind: Piece, n: nat, g: seq<seq<int>>, s: seq<int>)
    requires ReturnsFirstSolution(kind, n, g) && IsFirstSolution(kind, n, s)
    ensures g == Place(n, s).grid
  {
    assert s in Solutions(kind, n);
    var s' :| IsFirstSolution(kind, n, s') && g == Place(n, s').grid;
    LexAntisymmetric(s, s');
  }

  // ----- Rooks -----

  /** The placement of piece r in column r. */
  function Identity(n: nat): (p: seq<int>)
    ensures |p| == n && InRange(p, n)
  {
    seq(n, i => i)
  }

  /** The n x n grid with ones exactly on the main diagonal. */
  function IdentityGrid(n: nat): (g: seq<seq<int>>)
  {
    seq(n, i => seq(n, j => if i == j then 1 else 0))
  }

  /** A rook placement uses every column at most once. */
  lemma RookColumnsDistinct(p: seq<int>, i: int, j: int)
    requires Compatible(Rook, p) && 0 <= i < |p| && 0 <= j < |p| && i != j
    ensures p[i] != p[j]
  {
    if i < j {
      assert !Attacks(Rook, (i, p[i]), (j, p[j]));
    } else {
      assert !Attacks(Rook, (j, p[j]), (i, p[i]));
    }
  }

  /** The diagonal comes first among all rook solutions in dictionary order. */
  lemma IdentityIsFirstRookSolution(n: nat)
    ensures IsFirstSolution(Rook, n, Identity(n))
  {
    var id := Identity(n);
    assert IsSolution(Rook, n, id);
    forall t | IsSolution(Rook, n, t)
      ensures LexLe(id, t)
    {
      if t != id {
        IdentityBeforeOther(n, t);
      }
    }
  }

  /**
   * A rook solution t other than the diagonal agrees with it up to some row k
   * and puts row k's piece further right: columns 0..k-1 are taken by rows
   * 0..k-1, and column k is not t[k].
   */
  lemma IdentityBeforeOther(n: nat, t: seq<int>)
    requires IsSolution(Rook, n, t) && t != Identity(n)
    ensures LexLess(Identity(n), t)
  {
    var id := Identity(n);
    var j :| 0 <= j < n && t[j] != id[j];
    var k := 0;
    while t[k] == k
      invariant 0 <= k <= j
      invariant forall i :: 0 <= i < k ==> t[i] == i
      decreases j - k
    {
      k := k + 1;
    }
    assert t[..k] == id[..k];
    if t[k] < k {
      RookColumnsDistinct(t, t[k], k);
    }
    assert id[k] < t[k];
  }

  /** `findNRooksSolution(n)` returns the identity matrix. */
  lemma FindRooksIsIdentity(n: nat)
    ensures FindNRooksSolution(n) == IdentityGrid(n)
  {
    IdentityIsFirstRookSolution(n);
    FirstSolutionBoard(Rook, n, FindNRooksSolution(n), Identity(n));
    PlaceIdentity(n);
  }

  /** The board of the diagonal placement is the identity matrix. */
  lemma PlaceIdentity(n: nat)
    ensures Place(n, Identity(n)).grid == IdentityGrid(n)
  {
    var g, h := Place(n, Identity(n)).grid, IdentityGrid(n);
    forall i | 0 <= i < n
      ensures g[i] == h[i]
    {
      forall j | 0 <= j < n
        ensures g[i][j] == h[i][j]
      {
        assert Occupied(Place(n, Identity(n)), (i, j)) <==> i == j;
      }
    }
  }

  function Factorial(n: nat): (f: nat)
    ensures 1 <= f
  {
    if n == 0 then 1 else n * Factorial(n - 1)
  }

  /** How many columns in from..n-1 the placement q leaves free. */
  function FreeColumns(q: seq<int>, from: int, n: nat): (k: nat)
    ensures k <= if from < n then n - from else 0
    decreases n - from
  {
    if n <= from then 0
    else (if from in q then 0 else 1) + FreeColumns(q, from + 1, n)
  }

  /** Adding a fresh column c to the placement frees one column fewer when c lies in from..n-1. */
  lemma {:induction false} FreeColumnsAppend(q: seq<int>, c: int, from: int, n: nat)
    requires c !in q
    ensures FreeColumns(q + [c], from, n) == FreeColumns(q, from, n) - (if from <= c < n then 1 else 0)
    decreases n - from
  {
    if from < n {
      assert from in q + [c] <==> from in q || from == c;
      FreeColumnsAppend(q, c, from + 1, n);
    }
  }

  /** A placement of distinct columns in 0..n-1 leaves n - |q| columns free. */
  lemma {:induction false} FreeColumnsCount(q: seq<int>, n: nat)
    requires |q| <= n && InRange(q, n) && Compatible(Rook, q)
    ensures FreeColumns(q, 0, n) == n - |q|
  {
    if q == [] {
      FreeColumnsEmpty(0, n);
    } else {
      var init, c := q[..|q| - 1], q[|q| - 1];
      assert q == init + [c];
      PrefixCompatible(Rook, init, q);
      assert c !in init by {
        forall i | 0 <= i < |init|
          ensures init[i] != c
        {
          RookColumnsDistinct(q, i, |q| - 1);
        }
      }
      FreeColumnsCount(init, n);
      FreeColumnsAppend(init, c, 0, n);
    }
  }

  lemma {:induction false} FreeColumnsEmpty(from: nat, n: nat)
    ensures FreeColumns([], from, n) == if from < n then n - from else 0
    decreases n - from
  {
    if from < n {
      FreeColumnsEmpty(from + 1, n);
    }
  }

  /** A rook can join a compatible rook placement exactly in a column it leaves free. */
  lemma RookExtension(q: seq<int>, c: int)
    requires Compatible(Rook, q)
    ensures Compatible(Rook, q + [c]) <==> c !in q
  {
    var p := q + [c];
    if c in q {
      var i :| 0 <= i < |q| && q[i] == c;
      assert Attacks(Rook, (i, p[i]), (|q|, p[|q|]));
    } else {
      forall i, j | 0 <= i < j < |p|
        ensures !Attacks(Rook, (i, p[i]), (j, p[j]))
      {
        if j < |q| {
          assert p[i] == q[i] && p[j] == q[j];
        } else {
          assert p[i] == q[i] && p[i] in q;
        }
      }
    }
  }

  /** `f` for each column in from..n-1 that q leaves free. */
  function PerFreeColumn(q: seq<int>, from: int, n: nat, f: nat): (total: nat)
    decreases n - from
  {
    if n <= from then 0
    else (if from in q then 0 else f) + PerFreeColumn(q, from + 1, n, f)
  }

  lemma {:induction false} PerFreeColumnIsProduct(q: seq<int>, from: int, n: nat, f: nat)
    ensures PerFreeColumn(q, from, n, f) == FreeColumns(q, from, n) * f
    decreases n - from
  {
    if from < n {
      PerFreeColumnIsProduct(q, from + 1, n, f);
      var later := FreeColumns(q, from + 1, n);
      assert (1 + later) * f == f + later * f;
    }
  }

  /**
   * The rook candidates through a compatible placement q with next column at
   * least `from`: for each free column there, the ways to fill the remaining rows.
   */
  lemma {:induction false} RookCandidatesCount(n: nat, q: seq<int>, from: nat)
    requires |q| <= n && InRange(q, n) && Compatible(Rook, q)
    ensures |Candidates(Rook, n, q, from)|
            == if |q| == n then 1 else PerFreeColumn(q, from, n, Factorial(n - |q| - 1))
    decreases n - |q|, n - from + 1, 1
  {
    if |q| == n {
      FullCandidates(Rook, n, q, from);
    } else if n <= from {
      NoCandidatePastEnd(Rook, n, q, from);
    } else {
      RookCandidatesStep(n, q, from);
    }
  }

  /** Column `from` adds the completions through it when it is free, and nothing when it is taken. */
  lemma {:induction false} RookCandidatesStep(n: nat, q: seq<int>, from: nat)
    requires |q| < n && InRange(q, n) && Compatible(Rook, q) && from < n
    ensures |Candidates(Rook, n, q, from)| == PerFreeColumn(q, from, n, Factorial(n - |q| - 1))
    decreases n - |q|, n - from + 1, 0
  {
    CandidatesCountSplit(Rook, n, q, from);
    RookCandidatesCount(n, q, from + 1);
    RookColumnCount(n, q, from);
  }

  /** A free column leads to the completions of one row fewer; a taken one leads nowhere. */
  lemma {:induction false} RookColumnCount(n: nat, q: seq<int>, from: nat)
    requires |q| < n && InRange(q, n) && Compatible(Rook, q) && from < n
    ensures |Candidates(Rook, n, q + [from], 0)| == if from in q then 0 else Factorial(n - |q| - 1)
    decreases n - |q|, 0, 0
  {
    RookExtension(q, from);
    if from in q {
      NoCandidateOfConflict(Rook, n, q + [from], 0);
    } else {
      RookCandidatesCount(n, q + [from], 0);
      if |q| + 1 < n {
        FreeColumnsCount(q + [from], n);
        PerFreeColumnIsProduct(q + [from], 0, n, Factorial(n - |q| - 2));
      }
    }
  }

  /** The rooks have n! solutions. */
  lemma RookSolutionsCount(n: nat)
    ensures |Solutions(Rook, n)| == Factorial(n)
  {
    if n == 0 {
      SolutionsOfZero(Rook);
    } else {
      RookPlacementsCount(n);
      CandidatesOfEmpty(Rook, n);
    }
  }

  /** From the empty board, each of the n first columns leads to (n-1)! completions. */
  lemma RookPlacementsCount(n: nat)
    requires 0 < n
    ensures |Candidates(Rook, n, [], 0)| == Factorial(n)
  {
    RookFirstRowSplit(n);
    FirstRowFactorial(n);
  }

  lemma RookFirstRowSplit(n: nat)
    requires 0 < n
    ensures |Candidates(Rook, n, [], 0)| == PerFreeColumn([], 0, n, Factorial(n - 1))
  {
    RookCandidatesCount(n, [], 0);
  }

  /** n free columns, each worth (n-1)!, make n!. */
  lemma FirstRowFactorial(n: nat)
    requires 0 < n
    ensures PerFreeColumn([], 0, n, Factorial(n - 1)) == Factorial(n)
  {
    FreeColumnsEmpty(0, n);
    PerFreeColumnIsProduct([], 0, n, Factorial(n - 1));
  }

  /** `countNRooksSolutions(n)` is n!. */
  lemma CountRooksIsFactorial(n: nat)
    ensures CountNRooksSolutions(n) == Factorial(n)
  {
    RookSolutionsCount(n);
  }

  // ----- Queens -----

  /** The two solutions for side 4, first the one that comes first in dictionary order. */
  const FourA: seq<int> := [1, 3, 0, 2]
  const FourB: seq<int> := [2, 0, 3, 1]

  /** The attack constraints between the first four rows of a placement. */
  lemma QueensOfFourRows(t: seq<int>)
    requires 4 <= |t| && Compatible(Queen, t)
    ensures !Attacks(Queen, (0, t[0]), (1, t[1])) && !Attacks(Queen, (0, t[0]), (2, t[2]))
    ensures !Attacks(Queen, (0, t[0]), (3, t[3])) && !Attacks(Queen, (1, t[1]), (2, t[2]))
    ensures !Attacks(Queen, (1, t[1]), (3, t[3])) && !Attacks(Queen, (2, t[2]), (3, t[3]))
  {
  }

  /** The queens solutions of side 4 are exactly FourA and FourB. */
  lemma QueenSolutionOfFour(t: seq<int>)
    ensures IsSolution(Queen, 4, t) <==> t == FourA || t == FourB
  {
    if IsSolution(Queen, 4, t) {
      QueensOfFourRows(t);
      assert t == [t[0], t[1], t[2], t[3]];
    }
    if t == FourA || t == FourB {
      FourSolutionsCompatible(t);
    }
  }

  lemma FourSolutionsCompatible(t: seq<int>)
    requires t == FourA || t == FourB
    ensures Compatible(Queen, t)
  {
    forall i, j | 0 <= i < j < 4
      ensures !Attacks(Queen, (i, t[i]), (j, t[j]))
    {
    }
  }

  lemma QueenSolutionsOfFour(n: nat)
    requires n == 4
    ensures Solutions(Queen, n) == {FourA, FourB}
  {
    forall t
      ensures t in Solutions(Queen, n) <==> t == FourA || t == FourB
    {
      QueenSolutionOfFour(t);
    }
  }

  /** On side 2 some two queens always attack each other. */
  lemma NoQueenSolutionOfTwo(t: seq<int>)
    requires |t| == 2 && InRange(t, 2)
    ensures !Compatible(Queen, t)
  {
    assert Attacks(Queen, (0, t[0]), (1, t[1]));
  }

  /** On side 3 some two queens always attack each other. */
  lemma NoQueenSolutionOfThree(t: seq<int>)
    requires |t| == 3 && InRange(t, 3)
    ensures !Compatible(Queen, t)
  {
    assert || Attacks(Queen, (0, t[0]), (1, t[1]))
           || Attacks(Queen, (1, t[1]), (2, t[2]))
           || Attacks(Queen, (0, t[0]), (2, t[2]));
  }

  /** Sides 2 and 3 have no queens solution. */
  lemma NoQueenSolutions(n: nat)
    requires n == 2 || n == 3
    ensures Solutions(Queen, n) == {}
  {
    forall t | IsSolution(Queen, n, t)
      ensures false
    {
      if n == 2 {
        NoQueenSolutionOfTwo(t);
      } else {
        NoQueenSolutionOfThree(t);
      }
    }
  }

  /** The queens counts of the sides 0 to 4. */
  const SmallQueenCounts: seq<nat> := [1, 1, 0, 0, 2]

  /** `countNQueensSolutions(n)` for the sides 0 to 4. */
  lemma CountQueensSmall(n: nat)
    requires n < |SmallQueenCounts|
    ensures CountNQueensSolutions(n) == SmallQueenCounts[n]
  {
    if n == 0 {
      SolutionsOfZero(Queen);
    } else if n == 1 {
      SolutionsOfOne(Queen);
    } else if n < 4 {
      NoQueenSolutions(n);
    } else {
      TwoQueenSolutionsOfFour(n);
    }
  }

  lemma TwoQueenSolutionsOfFour(n: nat)
    requires n == 4
    ensures |Solutions(Queen, n)| == 2
  {
    QueenSolutionsOfFour(n);
    assert FourA != FourB;
  }

  /** The queens find results of the sides 0 to 4. */
  const SmallQueenBoards: seq<seq<seq<int>>> := [
    [],
    [[1]],
    [[0, 0], [0, 0]],
    [[0, 0, 0], [0, 0, 0], [0, 0, 0]],
    [[0, 1, 0, 0], [0, 0, 0, 1], [1, 0, 0, 0], [0, 0, 1, 0]]
  ]

  /** `findNQueensSolution(n)` for the sides 0 to 4: no solution for sides 2 and 3 leaves the empty board. */
  lemma FindQueensSmall(n: nat)
    requires n < |SmallQueenBoards|
    ensures FindNQueensSolution(n) == SmallQueenBoards[n]
  {
    if n == 2 || n == 3 {
      NoQueenSolutions(n);
      EmptyBoards();
    } else if n == 4 {
      FindQueensOfFour(n);
      PlaceFourA();
    }
  }

  lemma EmptyBoards()
    ensures MakeChessBoard(2).grid == SmallQueenBoards[2]
    ensures MakeChessBoard(3).grid == SmallQueenBoards[3]
  {
    var z2, z3 := MakeChessBoard(2).grid, MakeChessBoard(3).grid;
    assert z2[0] == [0, 0] && z2[1] == [0, 0];
    assert z3[0] == [0, 0, 0] && z3[1] == [0, 0, 0] && z3[2] == [0, 0, 0];
  }

  /** On side 4 the search returns the board of FourA, the first of the two solutions. */
  lemma FindQueensOfFour(n: nat)
    requires n == 4
    ensures FindNQueensSolution(n) == Place(4, FourA).grid
  {
    FourAIsFirst(n);
    FirstSolutionBoard(Queen, n, FindNQueensSolution(n), FourA);
  }

  /** FourA comes before FourB in dictionary order, so it is the first solution of side 4. */
  lemma FourAIsFirst(n: nat)
    requires n == 4
    ensures IsFirstSolution(Queen, n, FourA)
  {
    assert LexLess(FourA, FourB) by {
      assert FourA[..0] == FourB[..0];
    }
    forall t | IsSolution(Queen, n, t)
      ensures LexLe(FourA, t)
    {
      QueenSolutionOfFour(t);
    }
    QueenSolutionOfFour(FourA);
  }

  lemma PlaceFourA()
    ensures Place(4, FourA).grid == SmallQueenBoards[4]
  {
    var g := Place(4, FourA).grid;
    assert g[0] == [0, 1, 0, 0];
    assert g[1] == [0, 0, 0, 1];
    assert g[2] == [1, 0, 0, 0];
    assert g[3] == [0, 0, 1, 0];
  }
}
