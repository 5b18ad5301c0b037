/**
 * Boards as the searches build them: one piece in each of the first k rows,
 * recorded as the sequence of their columns. A full placement is a solution
 * when no two of its pieces attack each other; the solutions of a side n form
 * a finite set, ordered lexicographically by their column sequences.
 */
module Placements {
  import opened Chess

  /** Every column in 0..n-1. */
  predicate InRange(p: seq<int>, n: nat)
  {
    forall k :: 0 <= k < |p| ==> 0 <= p[k] < n
  }

  /** The n x n board holding one piece in each row r < |p|, in column p[r], and nothing else. */
  function Place(n: nat, p: seq<int>): (b: Board)
    requires |p| <= n && InRange(p, n)
    ensures Valid(b) && b.n == n
    ensures forall q :: Occupied(b, q) <==> 0 <= q.0 < |p| && q.1 == p[q.0]
  {
    Board(n, seq(n, r => seq(n, c => if 0 <= r < |p| && p[r] == c then 1 else 0)))
  }

  /** A fresh board is the placement of no pieces. */
  lemma EmptyPlacement(n: nat)
    ensures MakeChessBoard(n) == Place(n, [])
  {
    SameOccupancy(MakeChessBoard(n), Place(n, []));
  }

  /** Toggling the first free row's cell in column c places the next piece; toggling it again removes it. */
  lemma PlaceNext(n: nat, p: seq<int>, c: int)
    requires |p| < n && InRange(p, n) && 0 <= c < n
    ensures Toggle(Place(n, p), |p|, c) == Place(n, p + [c])
    ensures Toggle(Place(n, p + [c]), |p|, c) == Place(n, p)
  {
    SameOccupancy(Toggle(Place(n, p), |p|, c), Place(n, p + [c]));
    SameOccupancy(Toggle(Place(n, p + [c]), |p|, c), Place(n, p));
  }

  /** No two pieces of the placement attack each other. */
  predicate Compatible(kind: Piece, p: seq<int>)
  {
    forall i, j :: 0 <= i < j < |p| ==> !Attacks(kind, (i, p[i]), (j, p[j]))
  }

  /** On a placement the search's conflict check fails exactly when the placement is compatible. */
  lemma PlaceConflictIff(kind: Piece, n: nat, p: seq<int>)
    requires |p| <= n && InRange(p, n)
    ensures AnyConflicts(kind, Place(n, p)) <==> !Compatible(kind, p)
  {
    ConflictsIffAttackingPair(kind, Place(n, p));
    if HasAttackingPair(kind, Place(n, p)) {
      AttackingPairOfPlace(kind, n, p);
    }
    if !Compatible(kind, p) {
      var i, j :| 0 <= i < j < |p| && Attacks(kind, (i, p[i]), (j, p[j]));
      assert Occupied(Place(n, p), (i, p[i])) && Occupied(Place(n, p), (j, p[j]));
    }
  }

  /** Two attacking pieces of a placement stand in two of its rows. */
  lemma AttackingPairOfPlace(kind: Piece, n: nat, p: seq<int>)
    requires |p| <= n && InRange(p, n) && HasAttackingPair(kind, Place(n, p))
    ensures !Compatible(kind, p)
  {
    var b := Place(n, p);
    var x, y :| x != y && Occupied(b, x) && Occupied(b, y) && Attacks(kind, x, y);
    if x.0 < y.0 {
      assert Attacks(kind, (x.0, p[x.0]), (y.0, p[y.0]));
    } else {
      assert Attacks(kind, (y.0, p[y.0]), (x.0, p[x.0]));
    }
  }

  /** All sequences of length `len` with entries in 0..m-1. */
  ghost function AllSeqs(len: nat, m: nat): (all: set<seq<int>>)
    ensures forall s :: s in all <==> |s| == len && InRange(s, m)
  {
    if len == 0 then {[]}
    else
      var shorter := AllSeqs(len - 1, m);
      var all := set s, c | s in shorter && 0 <= c < m :: s + [c];
      assert forall s :: |s| == len && InRange(s, m) ==> s[..len - 1] in shorter && s == s[..len - 1] + [s[len - 1]];
      all
  }

  /** A full placement of n pieces on the n x n board, no two attacking each other. */
  ghost predicate IsSolution(kind: Piece, n: nat, s: seq<int>)
  {
    |s| == n && InRange(s, n) && Compatible(kind, s)
  }

  /** All solutions for side n. */
  ghost function Solutions(kind: Piece, n: nat): (sols: set<seq<int>>)
    ensures forall s :: s in sols <==> IsSolution(kind, n, s)
  {
    set s | s in AllSeqs(n, n) && Compatible(kind, s)
  }

  /**
   * A solution that starts with the columns q and, when q does not yet fill
   * the board, puts its next piece in a column no smaller than `from`.
   */
  ghost predicate Candidate(kind: Piece, n: nat, q: seq<int>, from: int, t: seq<int>)
  {
    IsSolution(kind, n, t) && q <= t && (|q| < n ==> from <= t[|q|])
  }

  ghost function Candidates(kind: Piece, n: nat, q: seq<int>, from: int): (cands: set<seq<int>>)
  {
    set t | t in Solutions(kind, n) && Candidate(kind, n, q, from, t)
  }

  /** `s` comes strictly before `t` in dictionary order of columns. */
  predicate LexLess(s: seq<int>, t: seq<int>)
  {
    exists k :: 0 <= k < |s| && k < |t| && s[..k] == t[..k] && s[k] < t[k]
  }

  predicate LexLe(s: seq<int>, t: seq<int>)
  {
    s == t || LexLess(s, t)
  }

  /** The candidate a leftmost-first search meets first. */
  ghost predicate IsFirstCandidate(kind: Piece, n: nat, q: seq<int>, from: int, s: seq<int>)
  {
    Candidate(kind, n, q, from, s) && forall t :: Candidate(kind, n, q, from, t) ==> LexLe(s, t)
  }

  /** The lexicographically least solution. */
  ghost predicate IsFirstSolution(kind: Piece, n: nat, s: seq<int>)
  {
    IsSolution(kind, n, s) && forall t :: IsSolution(kind, n, t) ==> LexLe(s, t)
  }

  /** Dictionary order is antisymmetric, so the least solution is unique. */
  lemma LexAntisymmetric(s: seq<int>, t: seq<int>)
    requires LexLe(s, t) && LexLe(t, s)
    ensures s == t
  {
  }

  /** Removing the last piece of a compatible placement leaves a compatible placement. */
  lemma PrefixCompatible(kind: Piece, q: seq<int>, t: seq<int>)
    requires Compatible(kind, t) && q <= t
    ensures Compatible(kind, q)
  {
    forall i, j | 0 <= i < j < |q|
      ensures !Attacks(kind, (i, q[i]), (j, q[j]))
    {
      assert q[i] == t[i] && q[j] == t[j];
    }
  }

  /** A candidate extending q by column `from` is one of the candidates of q from `from`, and conversely. */
  lemma CandidateSplit(kind: Piece, n: nat, q: seq<int>, from: int, t: seq<int>)
    requires |q| < n
    ensures Candidate(kind, n, q, from, t) <==>
            Candidate(kind, n, q + [from], 0, t) || Candidate(kind, n, q, from + 1, t)
  {
    if Candidate(kind, n, q, from, t) && t[|q|] == from {
      assert t[..|q| + 1] == q + [from];
    }
    if Candidate(kind, n, q + [from], 0, t) {
      assert q <= t by {
        assert t[..|q|] == (q + [from])[..|q|];
      }
      assert t[|q|] == (q + [from])[|q|];
    }
  }

  /** The candidate sets split into disjoint parts by the next column. */
  lemma CandidatesSplit(kind: Piece, n: nat, q: seq<int>, from: int)
    requires |q| < n
    ensures Candidates(kind, n, q, from) == Candidates(kind, n, q + [from], 0) + Candidates(kind, n, q, from + 1)
    ensures Candidates(kind, n, q + [from], 0) * Candidates(kind, n, q, from + 1) == {}
  {
    var whole, left, right := Candidates(kind, n, q, from), Candidates(kind, n, q + [from], 0), Candidates(kind, n, q, from + 1);
    forall t
      ensures t in whole <==> t in left || t in right
    {
      CandidateSplit(kind, n, q, from, t);
    }
    assert whole == left + right;
    forall t | t in left
      ensures t !in right
    {
      assert t[|q|] == (q + [from])[|q|];
    }
    assert left * right == {};
  }

  /** The number of candidates is the sum over the next column's two cases. */
  lemma CandidatesCountSplit(kind: Piece, n: nat, q: seq<int>, from: int)
    requires |q| < n
    ensures |Candidates(kind, n, q, from)| == |Candidates(kind, n, q + [from], 0)| + |Candidates(kind, n, q, from + 1)|
  {
    CandidatesSplit(kind, n, q, from);
  }

  /** From the empty placement and column 0 on, the candidates are all the solutions. */
  lemma CandidatesOfEmpty(kind: Piece, n: nat)
    ensures forall t :: Candidate(kind, n, [], 0, t) <==> IsSolution(kind, n, t)
    ensures Candidates(kind, n, [], 0) == Solutions(kind, n)
  {
    forall t
      ensures Candidate(kind, n, [], 0, t) <==> IsSolution(kind, n, t)
    {
    }
  }

  /** No candidate puts its next piece beyond the last column. */
  lemma NoCandidatePastEnd(kind: Piece, n: nat, q: seq<int>, from: int)
    requires |q| < n && n <= from
    ensures forall t :: !Candidate(kind, n, q, from, t)
    ensures Candidates(kind, n, q, from) == {}
  {
  }

  /** No candidate extends an incompatible placement. */
  lemma NoCandidateOfConflict(kind: Piece, n: nat, q: seq<int>, from: int)
    requires !Compatible(kind, q)
    ensures forall t :: !Candidate(kind, n, q, from, t)
    ensures Candidates(kind, n, q, from) == {}
  {
    forall t | Candidate(kind, n, q, from, t)
      ensures false
    {
      PrefixCompatible(kind, q, t);
    }
  }

  /** A complete compatible placement is its own only candidate. */
  lemma FullCandidates(kind: Piece, n: nat, q: seq<int>, from: int)
    requires |q| == n && InRange(q, n) && Compatible(kind, q)
    ensures Candidates(kind, n, q, from) == {q}
    ensures IsFirstCandidate(kind, n, q, from, q)
  {
    assert Candidate(kind, n, q, from, q);
    forall t | Candidate(kind, n, q, from, t)
      ensures t == q
    {
    }
  }
}
