/**
 * The chess board of back_tracking/n-queens.js: an n x n grid of 0/1 cells
 * with a toggle and the family of duplicate-in-a-line conflict checks along
 * rows, columns, rising (/) diagonals and falling (\) diagonals.
 */
module Chess {
  import opened Lines

  /** A cell as (row, column). */
  type Pos = (int, int)

  /** The two pieces the searches place: rooks attack along rows and columns,
      queens also along both diagonals. */
  datatype Piece = Rook | Queen

  /** The board keeps its side `n` next to the rows, as the class does. */
  datatype Board = Board(n: nat, grid: seq<seq<int>>)

  /** n rows of n cells, each cell empty (0) or occupied (1). */
  predicate Valid(b: Board)
  {
    && |b.grid| == b.n
    && (forall r :: 0 <= r < b.n ==> |b.grid[r]| == b.n)
    && (forall r, c :: 0 <= r < b.n && 0 <= c < b.n ==> b.grid[r][c] == 0 || b.grid[r][c] == 1)
  }

  /** `isInBounds`. */
  predicate InBounds(b: Board, r: int, c: int)
  {
    0 <= r < b.n && 0 <= c < b.n
  }

  predicate Occupied(b: Board, p: Pos)
    requires Valid(b)
  {
    InBounds(b, p.0, p.1) && b.grid[p.0][p.1] == 1
  }

  /** Two boards of the same side with the same occupied cells are the same board. */
  lemma SameOccupancy(b1: Board, b2: Board)
    requires Valid(b1) && Valid(b2) && b1.n == b2.n
    requires forall p :: Occupied(b1, p) <==> Occupied(b2, p)
    ensures b1 == b2
  {
    forall r | 0 <= r < b1.n
      ensures b1.grid[r] == b2.grid[r]
    {
      forall c | 0 <= c < b1.n
        ensures b1.grid[r][c] == b2.grid[r][c]
      {
        assert Occupied(b1, (r, c)) <==> Occupied(b2, (r, c));
      }
    }
  }

  /** `makeChessBoard(n)` (the constructor): n rows of n zeros. */
  function MakeChessBoard(n: nat): (b: Board)
    ensures Valid(b) && b.n == n
    ensures |b.grid| == n && forall r :: 0 <= r < n ==> |b.grid[r]| == n
    ensures forall p :: !Occupied(b, p)
  {
    Board(n, seq(n, _ => seq(n, _ => 0)))
  }

  /** `togglePiece(row, col)`: a set cell is cleared, a clear cell is set. */
  function Toggle(b: Board, r: int, c: int): (b': Board)
    requires Valid(b) && InBounds(b, r, c)
    ensures Valid(b') && b'.n == b.n
    ensures Occupied(b', (r, c)) <==> !Occupied(b, (r, c))
    ensures forall p :: p != (r, c) ==> (Occupied(b', p) <==> Occupied(b, p))
  {
    var v := if b.grid[r][c] != 0 then 0 else 1;
    Board(b.n, b.grid[r := b.grid[r][c := v]])
  }

  /** Toggling the same cell twice gives back the board. */
  lemma ToggleTwice(b: Board, r: int, c: int)
    requires Valid(b) && InBounds(b, r, c)
    ensures Toggle(Toggle(b, r, c), r, c) == b
  {
    SameOccupancy(Toggle(Toggle(b, r, c), r, c), b);
  }

  /** `getFirstRowColumnIndexForSlashOn`: the rising diagonal through a cell. */
  function SlashIndex(r: int, c: int): (d: int)
  {
    c + r
  }

  /** `getFirstRowColumnIndexForBackSlashOn`: the falling diagonal through a cell. */
  function BackSlashIndex(r: int, c: int): (d: int)
  {
    c - r
  }

  /** The values found at a list of in-bounds cells. */
  function Values(b: Board, cells: seq<Pos>): (line: seq<int>)
    requires Valid(b)
    requires forall k :: 0 <= k < |cells| ==> InBounds(b, cells[k].0, cells[k].1)
  {
    seq(|cells|, k requires 0 <= k < |cells| =>
      var p := cells[k];
      assert InBounds(b, p.0, p.1);
      b.grid[p.0][p.1])
  }

  /** Column `c` read top to bottom, as `hasColConflictAt` collects it. */
  function Column(b: Board, c: int): (line: seq<int>)
    requires Valid(b) && 0 <= c < b.n
  {
    seq(b.n, i requires 0 <= i < b.n => b.grid[i][c])
  }

  /**
   * The cells `hasSlashConflictAt` visits from row `i` on, when its running
   * column index is `col` at row `i`: each row lowers the column by one, and
   * only in-bounds cells are kept.
   */
  function SlashCells(b: Board, i: nat, col: int): (cells: seq<Pos>)
    requires i <= b.n
    ensures forall p :: p in cells <==> i <= p.0 && InBounds(b, p.0, p.1) && p.0 + p.1 == i + col
    ensures forall j, k :: 0 <= j < k < |cells| ==> cells[j].0 < cells[k].0
    decreases b.n - i
  {
    if i == b.n then []
    else
      var rest := SlashCells(b, i + 1, col - 1);
      assert forall k :: 0 <= k < |rest| ==> rest[k] in rest;
      (if InBounds(b, i, col) then [(i, col)] else []) + rest
  }

  /** The cells `hasBackSlashConflictAt` visits from row `i` on: each row raises the column by one. */
  function BackSlashCells(b: Board, i: nat, col: int): (cells: seq<Pos>)
    requires i <= b.n
    ensures forall p :: p in cells <==> i <= p.0 && InBounds(b, p.0, p.1) && p.1 - p.0 == col - i
    ensures forall j, k :: 0 <= j < k < |cells| ==> cells[j].0 < cells[k].0
    decreases b.n - i
  {
    if i == b.n then []
    else
      var rest := BackSlashCells(b, i + 1, col + 1);
      assert forall k :: 0 <= k < |rest| ==> rest[k] in rest;
      (if InBounds(b, i, col) then [(i, col)] else []) + rest
  }

  /** `isInBounds` holds exactly when the cell exists in the grid, so a guarded read never falls off the board. */
  lemma InBoundsIffCell(b: Board, r: int, c: int)
    requires Valid(b)
    ensures InBounds(b, r, c) <==> 0 <= r < |b.grid| && 0 <= c < |b.grid[r]|
  {
  }

  /**
   * The rising-diagonal index of a cell is one of the 2n-1 indices the
   * aggregate scans, and the scan started at that index visits the cell.
   */
  lemma SlashIndexOnScan(b: Board, r: int, c: int)
    requires InBounds(b, r, c)
    ensures 0 <= SlashIndex(r, c) < 2 * b.n - 1
    ensures (r, c) in SlashCells(b, 0, SlashIndex(r, c))
  {
  }

  /**
   * The falling-diagonal index of a cell is one of the 2n-1 indices from
   * -(n-1) on, and the scan started at that index visits the cell.
   */
  lemma BackSlashIndexOnScan(b: Board, r: int, c: int)
    requires InBounds(b, r, c)
    ensures -(b.n - 1) <= BackSlashIndex(r, c) < b.n
    ensures (r, c) in BackSlashCells(b, 0, BackSlashIndex(r, c))
  {
  }

  /** `hasRowConflictAt`. */
  predicate RowConflictAt(b: Board, r: int)
    requires Valid(b) && 0 <= r < b.n
  {
    LineConflict(b.grid[r])
  }

  /** `hasColConflictAt`. */
  predicate ColConflictAt(b: Board, c: int)
    requires Valid(b) && 0 <= c < b.n
  {
    LineConflict(Column(b, c))
  }

  /** `hasSlashConflictAt(d)`: the scan starts at row 0, column d. */
  predicate SlashConflictAt(b: Board, d: int)
    requires Valid(b)
  {
    LineConflict(Values(b, SlashCells(b, 0, d)))
  }

  /** `hasBackSlashConflictAt(d)`: the scan starts at row 0, column d. */
  predicate BackSlashConflictAt(b: Board, d: int)
    requires Valid(b)
  {
    LineConflict(Values(b, BackSlashCells(b, 0, d)))
  }

  /** `hasAnyRowConflicts`: some row index in 0..n-1 has a conflict. */
  predicate AnyRowConflicts(b: Board)
    requires Valid(b)
  {
    exists r :: 0 <= r < b.n && RowConflictAt(b, r)
  }

  /** `hasAnyColConflicts`. */
  predicate AnyColConflicts(b: Board)
    requires Valid(b)
  {
    exists c :: 0 <= c < b.n && ColConflictAt(b, c)
  }

  /** `hasAnySlashConflicts`: the 2n-1 indices 0, 1, ..., 2n-2. */
  predicate AnySlashConflicts(b: Board)
    requires Valid(b)
  {
    exists d :: 0 <= d < 2 * b.n - 1 && SlashConflictAt(b, d)
  }

  /** `hasAnyBackSlashConflicts`: the 2n-1 indices starting at -(n-1). */
  predicate AnyBackSlashConflicts(b: Board)
    requires Valid(b)
  {
    exists d :: -(b.n - 1) <= d < -(b.n - 1) + (2 * b.n - 1) && BackSlashConflictAt(b, d)
  }

  /** `hasAnyRooksConflicts`. */
  predicate AnyRooksConflicts(b: Board)
    requires Valid(b)
  {
    AnyRowConflicts(b) || AnyColConflicts(b)
  }

  /** `hasAnyQueensConflicts`. */
  predicate AnyQueensConflicts(b: Board)
    requires Valid(b)
  {
    AnyRooksConflicts(b) || AnySlashConflicts(b) || AnyBackSlashConflicts(b)
  }

  /** The conflict check a search runs after each placement. */
  predicate AnyConflicts(kind: Piece, b: Board)
    requires Valid(b)
  {
    match kind
    case Rook => AnyRooksConflicts(b)
    case Queen => AnyQueensConflicts(b)
  }

  /** `hasAnyRooksConflictsOn(row, col)`: the row and the column through the cell. */
  function RooksConflictsOn(b: Board, r: int, c: int): (conflict: bool)
    requires Valid(b) && InBounds(b, r, c)
    ensures conflict ==> AnyRooksConflicts(b)
  {
    RowConflictAt(b, r) || ColConflictAt(b, c)
  }

  /** `hasAnyQueenConflictsOn(row, col)`: the four lines through the cell. */
  function QueenConflictsOn(b: Board, r: int, c: int): (conflict: bool)
    requires Valid(b) && InBounds(b, r, c)
    ensures conflict ==> AnyQueensConflicts(b)
  {
    RowConflictAt(b, r)
    || ColConflictAt(b, c)
    || SlashConflictAt(b, SlashIndex(r, c))
    || BackSlashConflictAt(b, BackSlashIndex(r, c))
  }

  // ----- The conflict checks in terms of occupied cells -----

  /** Whether a piece of the given kind on `p` attacks `q`. */
  predicate Attacks(kind: Piece, p: Pos, q: Pos)
  {
    || p.0 == q.0
    || p.1 == q.1
    || (kind == Queen && (p.0 + p.1 == q.0 + q.1 || p.1 - p.0 == q.1 - q.0))
  }

  /** A row, a column, a rising diagonal (row + col constant) or a falling one (col - row constant). */
  datatype Line = RowLine(r: int) | ColLine(c: int) | SlashLine(d: int) | BackSlashLine(d: int)

  predicate OnLine(line: Line, p: Pos)
  {
    match line
    case RowLine(r) => p.0 == r
    case ColLine(c) => p.1 == c
    case SlashLine(d) => p.0 + p.1 == d
    case BackSlashLine(d) => p.1 - p.0 == d
  }

  /** Two distinct occupied cells on the same line. */
  ghost predicate TwoOn(b: Board, line: Line)
    requires Valid(b)
  {
    exists p, q :: p != q && Occupied(b, p) && Occupied(b, q) && OnLine(line, p) && OnLine(line, q)
  }

  /** Some two distinct pieces on the board attack each other. */
  ghost predicate HasAttackingPair(kind: Piece, b: Board)
    requires Valid(b)
  {
    exists p, q :: p != q && Occupied(b, p) && Occupied(b, q) && Attacks(kind, p, q)
  }

  /** A line read from in-bounds cells has a conflict iff two of its cells are occupied. */
  lemma ConflictOnCells(b: Board, cells: seq<Pos>)
    requires Valid(b)
    requires forall k :: 0 <= k < |cells| ==> InBounds(b, cells[k].0, cells[k].1)
    ensures LineConflict(Values(b, cells)) <==>
            exists j, k :: 0 <= j < k < |cells| && Occupied(b, cells[j]) && Occupied(b, cells[k])
  {
    var line := Values(b, cells);
    forall k | 0 <= k < |cells|
      ensures line[k] == 1 <==> Occupied(b, cells[k])
    {
    }
    LineConflictIffPair(line);
  }

  /** `hasRowConflictAt(r)` holds iff two pieces stand in row r. */
  lemma RowConflictIff(b: Board, r: int)
    requires Valid(b) && 0 <= r < b.n
    ensures RowConflictAt(b, r) <==> TwoOn(b, RowLine(r))
  {
    var line := b.grid[r];
    LineConflictIffPair(line);
    if RowConflictAt(b, r) {
      var j, k :| 0 <= j < k < |line| && line[j] == 1 && line[k] == 1;
      assert Occupied(b, (r, j)) && Occupied(b, (r, k));
    }
    if TwoOn(b, RowLine(r)) {
      var p, q :| p != q && Occupied(b, p) && Occupied(b, q) && p.0 == r && q.0 == r;
      assert line[p.1] == 1 && line[q.1] == 1 && p.1 != q.1;
      OrderedPair(line, p.1, q.1);
    }
  }

  /** `hasColConflictAt(c)` holds iff two pieces stand in column c. */
  lemma ColConflictIff(b: Board, c: int)
    requires Valid(b) && 0 <= c < b.n
    ensures ColConflictAt(b, c) <==> TwoOn(b, ColLine(c))
  {
    var line := Column(b, c);
    LineConflictIffPair(line);
    if ColConflictAt(b, c) {
      var j, k :| 0 <= j < k < |line| && line[j] == 1 && line[k] == 1;
      assert Occupied(b, (j, c)) && Occupied(b, (k, c));
    }
    if TwoOn(b, ColLine(c)) {
      var p, q :| p != q && Occupied(b, p) && Occupied(b, q) && p.1 == c && q.1 == c;
      assert line[p.0] == 1 && line[q.0] == 1 && p.0 != q.0;
      OrderedPair(line, p.0, q.0);
    }
  }

  /** Two distinct positions holding 1, in either order, make a line with two 1s. */
  lemma OrderedPair(line: seq<int>, x: int, y: int)
    requires 0 <= x < |line| && 0 <= y < |line| && x != y && line[x] == 1 && line[y] == 1
    ensures HasTwoOnes(line)
  {
    if x < y {
      assert 0 <= x < y < |line| && line[x] == 1 && line[y] == 1;
    } else {
      assert 0 <= y < x < |line| && line[y] == 1 && line[x] == 1;
    }
  }

  /**
   * A scan over distinct in-bounds cells of one line that visits every occupied
   * cell of that line reports a conflict iff two pieces stand on the line.
   */
  lemma ScanConflictIff(b: Board, cells: seq<Pos>, line: Line)
    requires Valid(b)
    requires forall k :: 0 <= k < |cells| ==> InBounds(b, cells[k].0, cells[k].1) && OnLine(line, cells[k])
    requires forall j, k :: 0 <= j < k < |cells| ==> cells[j] != cells[k]
    requires forall p :: Occupied(b, p) && OnLine(line, p) ==> p in cells
    ensures LineConflict(Values(b, cells)) <==> TwoOn(b, line)
  {
    ConflictOnCells(b, cells);
    if LineConflict(Values(b, cells)) {
      var j, k :| 0 <= j < k < |cells| && Occupied(b, cells[j]) && Occupied(b, cells[k]);
      assert cells[j] != cells[k] && OnLine(line, cells[j]) && OnLine(line, cells[k]);
    }
    if TwoOn(b, line) {
      var p, q :| p != q && Occupied(b, p) && Occupied(b, q) && OnLine(line, p) && OnLine(line, q);
      assert p in cells && q in cells;
      var j :| 0 <= j < |cells| && cells[j] == p;
      var k :| 0 <= k < |cells| && cells[k] == q;
      if j < k {
        assert Occupied(b, cells[j]) && Occupied(b, cells[k]);
      } else {
        assert Occupied(b, cells[k]) && Occupied(b, cells[j]);
      }
    }
  }

  /** `hasSlashConflictAt(d)` holds iff two pieces stand on the rising diagonal row + col = d. */
  lemma SlashConflictIff(b: Board, d: int)
    requires Valid(b)
    ensures SlashConflictAt(b, d) <==> TwoOn(b, SlashLine(d))
  {
    var cells := SlashCells(b, 0, d);
    forall k | 0 <= k < |cells|
      ensures InBounds(b, cells[k].0, cells[k].1) && OnLine(SlashLine(d), cells[k])
    {
      assert cells[k] in cells;
    }
    ScanConflictIff(b, cells, SlashLine(d));
  }

  /** `hasBackSlashConflictAt(d)` holds iff two pieces stand on the falling diagonal col - row = d. */
  lemma BackSlashConflictIff(b: Board, d: int)
    requires Valid(b)
    ensures BackSlashConflictAt(b, d) <==> TwoOn(b, BackSlashLine(d))
  {
    var cells := BackSlashCells(b, 0, d);
    forall k | 0 <= k < |cells|
      ensures InBounds(b, cells[k].0, cells[k].1) && OnLine(BackSlashLine(d), cells[k])
    {
      assert cells[k] in cells;
    }
    ScanConflictIff(b, cells, BackSlashLine(d));
  }

  // ----- Whole-board aggregates -----

  /** `hasAnyRowConflicts` holds iff two distinct pieces share a row. */
  lemma AnyRowConflictsIff(b: Board)
    requires Valid(b)
    ensures AnyRowConflicts(b) <==>
            exists p, q :: p != q && Occupied(b, p) && Occupied(b, q) && p.0 == q.0
  {
    if AnyRowConflicts(b) {
      var x :| 0 <= x < b.n && RowConflictAt(b, x);
      RowConflictIff(b, x);
      var p, q :| p != q && Occupied(b, p) && Occupied(b, q) && OnLine(RowLine(x), p) && OnLine(RowLine(x), q);
      assert p.0 == q.0;
    }
    if exists p, q :: p != q && Occupied(b, p) && Occupied(b, q) && p.0 == q.0 {
      var p, q :| p != q && Occupied(b, p) && Occupied(b, q) && p.0 == q.0;
      var x := p.0;
      RowConflictIff(b, x);
      assert OnLine(RowLine(x), p) && OnLine(RowLine(x), q);
      assert 0 <= x < b.n && RowConflictAt(b, x);
    }
  }

  /** `hasAnyColConflicts` holds iff two distinct pieces share a column. */
  lemma AnyColConflictsIff(b: Board)
    requires Valid(b)
    ensures AnyColConflicts(b) <==>
            exists p, q :: p != q && Occupied(b, p) && Occupied(b, q) && p.1 == q.1
  {
    if AnyColConflicts(b) {
      var x :| 0 <= x < b.n && ColConflictAt(b, x);
      ColConflictIff(b, x);
      var p, q :| p != q && Occupied(b, p) && Occupied(b, q) && OnLine(ColLine(x), p) && OnLine(ColLine(x), q);
      assert p.1 == q.1;
    }
    if exists p, q :: p != q && Occupied(b, p) && Occupied(b, q) && p.1 == q.1 {
      var p, q :| p != q && Occupied(b, p) && Occupied(b, q) && p.1 == q.1;
      var x := p.1;
      ColConflictIff(b, x);
      assert OnLine(ColLine(x), p) && OnLine(ColLine(x), q);
      assert 0 <= x < b.n && ColConflictAt(b, x);
    }
  }

  /** `hasAnySlashConflicts` holds iff two distinct pieces share a rising diagonal. */
  lemma AnySlashConflictsIff(b: Board)
    requires Valid(b)
    ensures AnySlashConflicts(b) <==>
            exists p, q :: p != q && Occupied(b, p) && Occupied(b, q) && SlashIndex(p.0, p.1) == SlashIndex(q.0, q.1)
  {
    if AnySlashConflicts(b) {
      var x :| 0 <= x < 2 * b.n - 1 && SlashConflictAt(b, x);
      SlashConflictGivesPair(b, x);
    }
    if exists p, q :: p != q && Occupied(b, p) && Occupied(b, q) && SlashIndex(p.0, p.1) == SlashIndex(q.0, q.1) {
      var p, q :| p != q && Occupied(b, p) && Occupied(b, q) && SlashIndex(p.0, p.1) == SlashIndex(q.0, q.1);
      SlashPairGivesConflict(b, p, q);
    }
  }

  /** A conflict on one rising diagonal is a pair of pieces sharing its index. */
  lemma SlashConflictGivesPair(b: Board, x: int)
    requires Valid(b) && SlashConflictAt(b, x)
    ensures exists p, q :: p != q && Occupied(b, p) && Occupied(b, q) && SlashIndex(p.0, p.1) == SlashIndex(q.0, q.1)
  {
    SlashConflictIff(b, x);
    var p, q :| p != q && Occupied(b, p) && Occupied(b, q) && OnLine(SlashLine(x), p) && OnLine(SlashLine(x), q);
    assert SlashIndex(p.0, p.1) == SlashIndex(q.0, q.1);
  }

  /** Two pieces on one rising diagonal make the scan of that diagonal's index report a conflict. */
  lemma SlashPairGivesConflict(b: Board, p: Pos, q: Pos)
    requires Valid(b) && p != q && Occupied(b, p) && Occupied(b, q) && SlashIndex(p.0, p.1) == SlashIndex(q.0, q.1)
    ensures AnySlashConflicts(b)
  {
    var x := SlashIndex(p.0, p.1);
    SlashConflictIff(b, x);
    assert OnLine(SlashLine(x), p) && OnLine(SlashLine(x), q);
    assert 0 <= x < 2 * b.n - 1 && SlashConflictAt(b, x);
  }

  /** `hasAnyBackSlashConflicts` holds iff two distinct pieces share a falling diagonal. */
  lemma AnyBackSlashConflictsIff(b: Board)
    requires Valid(b)
    ensures AnyBackSlashConflicts(b) <==>
            exists p, q :: p != q && Occupied(b, p) && Occupied(b, q) && BackSlashIndex(p.0, p.1) == BackSlashIndex(q.0, q.1)
  {
    if AnyBackSlashConflicts(b) {
      var x :| -(b.n - 1) <= x < -(b.n - 1) + (2 * b.n - 1) && BackSlashConflictAt(b, x);
      BackSlashConflictGivesPair(b, x);
    }
    if exists p, q :: p != q && Occupied(b, p) && Occupied(b, q) && BackSlashIndex(p.0, p.1) == BackSlashIndex(q.0, q.1) {
      var p, q :| p != q && Occupied(b, p) && Occupied(b, q) && BackSlashIndex(p.0, p.1) == BackSlashIndex(q.0, q.1);
      BackSlashPairGivesConflict(b, p, q);
    }
  }

  /** A conflict on one falling diagonal is a pair of pieces sharing its index. */
  lemma BackSlashConflictGivesPair(b: Board, x: int)
    requires Valid(b) && BackSlashConflictAt(b, x)
    ensures exists p, q :: p != q && Occupied(b, p) && Occupied(b, q) && BackSlashIndex(p.0, p.1) == BackSlashIndex(q.0, q.1)
  {
    BackSlashConflictIff(b, x);
    var p, q :| p != q && Occupied(b, p) && Occupied(b, q) && OnLine(BackSlashLine(x), p) && OnLine(BackSlashLine(x), q);
    assert BackSlashIndex(p.0, p.1) == BackSlashIndex(q.0, q.1);
  }

  /** Two pieces on one falling diagonal make the scan of that diagonal's index report a conflict. */
  lemma BackSlashPairGivesConflict(b: Board, p: Pos, q: Pos)
    requires Valid(b) && p != q && Occupied(b, p) && Occupied(b, q) && BackSlashIndex(p.0, p.1) == BackSlashIndex(q.0, q.1)
    ensures AnyBackSlashConflicts(b)
  {
    var x := BackSlashIndex(p.0, p.1);
    BackSlashConflictIff(b, x);
    assert OnLine(BackSlashLine(x), p) && OnLine(BackSlashLine(x), q);
    assert -(b.n - 1) <= x < -(b.n - 1) + (2 * b.n - 1) && BackSlashConflictAt(b, x);
  }

  /** `hasAnyRooksConflicts()` holds iff two pieces attack each other as rooks. */
  lemma RooksConflictsIff(b: Board)
    requires Valid(b)
    ensures AnyRooksConflicts(b) <==> HasAttackingPair(Rook, b)
  {
    AnyRowConflictsIff(b);
    AnyColConflictsIff(b);
    if HasAttackingPair(Rook, b) {
      var p, q :| p != q && Occupied(b, p) && Occupied(b, q) && Attacks(Rook, p, q);
      assert p.0 == q.0 || p.1 == q.1;
    }
  }

  /** `hasAnyQueensConflicts()` holds iff two pieces attack each other as queens. */
  lemma QueensConflictsIff(b: Board)
    requires Valid(b)
    ensures AnyQueensConflicts(b) <==> HasAttackingPair(Queen, b)
  {
    if AnyQueensConflicts(b) {
      QueensConflictGivesPair(b);
    }
    if HasAttackingPair(Queen, b) {
      var p, q :| p != q && Occupied(b, p) && Occupied(b, q) && Attacks(Queen, p, q);
      QueensPairGivesConflict(b, p, q);
    }
  }

  lemma QueensPairGivesConflict(b: Board, p: Pos, q: Pos)
    requires Valid(b) && p != q && Occupied(b, p) && Occupied(b, q) && Attacks(Queen, p, q)
    ensures AnyQueensConflicts(b)
  {
    if p.0 == q.0 || p.1 == q.1 {
      RooksConflictsIff(b);
      assert Attacks(Rook, p, q);
    } else if p.0 + p.1 == q.0 + q.1 {
      SlashPairGivesConflict(b, p, q);
    } else {
      BackSlashPairGivesConflict(b, p, q);
    }
  }

  lemma QueensConflictGivesPair(b: Board)
    requires Valid(b) && AnyQueensConflicts(b)
    ensures HasAttackingPair(Queen, b)
  {
    RooksConflictsIff(b);
    AnySlashConflictsIff(b);
    AnyBackSlashConflictsIff(b);
    if AnyRooksConflicts(b) {
      var p, q :| p != q && Occupied(b, p) && Occupied(b, q) && Attacks(Rook, p, q);
      assert Attacks(Queen, p, q);
    } else if AnySlashConflicts(b) {
      var p, q :| p != q && Occupied(b, p) && Occupied(b, q) && SlashIndex(p.0, p.1) == SlashIndex(q.0, q.1);
      assert Attacks(Queen, p, q);
    } else {
      var p, q :| p != q && Occupied(b, p) && Occupied(b, q) && BackSlashIndex(p.0, p.1) == BackSlashIndex(q.0, q.1);
      assert Attacks(Queen, p, q);
    }
  }

  /** The search's conflict check is false exactly when no two pieces attack each other. */
  lemma ConflictsIffAttackingPair(kind: Piece, b: Board)
    requires Valid(b)
    ensures AnyConflicts(kind, b) <==> HasAttackingPair(kind, b)
  {
    match kind
    case Rook => RooksConflictsIff(b);
    case Queen => QueensConflictsIff(b);
  }

  /** `hasAnyQueenConflictsOn(r, c)` holds iff two pieces share one of the four lines through (r, c). */
  lemma QueenConflictsOnIff(b: Board, r: int, c: int)
    requires Valid(b) && InBounds(b, r, c)
    ensures QueenConflictsOn(b, r, c) <==>
            || TwoOn(b, RowLine(r))
            || TwoOn(b, ColLine(c))
            || TwoOn(b, SlashLine(SlashIndex(r, c)))
            || TwoOn(b, BackSlashLine(BackSlashIndex(r, c)))
  {
    RowConflictIff(b, r);
    ColConflictIff(b, c);
    SlashConflictIff(b, SlashIndex(r, c));
    BackSlashConflictIff(b, BackSlashIndex(r, c));
  }

  /** `hasAnyRooksConflictsOn(r, c)` holds iff two pieces share the row or the column through (r, c). */
  lemma RooksConflictsOnIff(b: Board, r: int, c: int)
    requires Valid(b) && InBounds(b, r, c)
    ensures RooksConflictsOn(b, r, c) <==> TwoOn(b, RowLine(r)) || TwoOn(b, ColLine(c))
  {
    RowConflictIff(b, r);
    ColConflictIff(b, c);
  }
}
