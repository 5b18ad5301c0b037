# N-Rooks and N-Queens backtracking, in Dafny

This project models `back_tracking/n-queens.js`: the `Board` class (an n x n
grid of 0/1 cells with a toggle and a family of "duplicate in a line"
conflict checks) and the four backtracking searches built on it —
`findNRooksSolution`, `countNRooksSolutions`, `findNQueensSolution` and
`countNQueensSolutions`.

- `lines.dfy` (module `Lines`) holds `Array.prototype.indexOf` / `lastIndexOf`
  and the test every conflict check reduces to: a line conflicts when the
  first and last positions of a 1 differ.
- `board.dfy` (module `Chess`) holds the board as an immutable value
  `Board(n, grid)`, `makeChessBoard`, `togglePiece` and the diagonal index
  getters. It has every `has*ConflictAt`, `hasAny*Conflicts` and `*ConflictsOn`
  check, and the diagonal scans written as the cell lists the JavaScript loops
  visit. It also proves each check equal to a statement about attacking pieces.
- `placements.dfy` (module `Placements`) describes the boards the searches
  build: a column per filled row (`Place(n, p)`). A solution is a full
  placement with no two attacking pieces. Solutions are ordered
  lexicographically, which is the order a leftmost-first search meets them in.
- `search.dfy` (module `Search`) holds the four searches. The closure-captured
  `solution`, `solutionCount` and `flag` become explicit values. The find
  recursion `FindRecursion` returns the board it leaves; the find column loop
  `FindColumns` returns that board together with whether it stopped early on a
  complete board. The count recursion threads a `CountState`. The lemmas show that:
  - a find search returns the board of the lexicographically first solution,
    or the all-zero board when there is none;
  - a count search returns the number of solutions.
- `results.dfy` (module `Results`) derives the concrete outcomes:
  - the rooks' find returns the identity matrix;
  - the rooks' count is n!;
  - the queens' find and count for sides 0 to 4, including the grid
    `[[0,1,0,0],[0,0,0,1],[1,0,0,0],[0,0,1,0]]` for side 4.

Two behaviours of the code worth knowing:

- The find search for queens on sides 2 and 3 returns the all-zero board,
  not a board with one piece per row and column
  (`back_tracking/n-queens.js:331-340`). This is proved as `Results.FindQueensSmall`.
- In the count searches a child `recursion(row, col)` never removes its own
  piece. Its caller removes it right after the call, whether or not the child
  found a conflict (`back_tracking/n-queens.js:260-262` and `357-359`). This
  retraction is exact: `Search.CountColumns` returns the board it was given,
  and the counts equal the number of solutions.

## Model

| member | source | states |
|---|---|---|
| Lines.IndexOf | back_tracking/n-queens.js:90 | `indexOf(1)` is -1 exactly when the line holds no 1, and otherwise is a position holding 1 with no 1 before it |
| Lines.LastIndexOf | back_tracking/n-queens.js:90 | `lastIndexOf(1)` is -1 exactly when the line holds no 1, and otherwise is a position holding 1 with no 1 after it |
| Lines.LineConflictIffPair | back_tracking/n-queens.js:90 | the test `indexOf(1) !== lastIndexOf(1)` holds exactly when two distinct positions of the line hold a 1 |
| Lines.LineConflictIffTwoOnes | back_tracking/n-queens.js:90 | the same test holds exactly when the line contains at least two 1s (multiset count), in both directions |
| Chess.MakeChessBoard | back_tracking/n-queens.js:8-18 | a new board has n rows of n cells and no occupied cell; side 0 gives the empty grid |
| Chess.Toggle | back_tracking/n-queens.js:24-31 | `togglePiece` flips the occupancy of the one cell and leaves every other cell as it was |
| Chess.ToggleTwice | back_tracking/n-queens.js:24-31 | toggling the same cell twice gives back the original board |
| Chess.InBoundsIffCell | back_tracking/n-queens.js:76-83 | `isInBounds(r, c)` holds exactly when row r and column c exist in the grid, so the scans it guards never read past the board |
| Chess.SlashIndexOnScan | back_tracking/n-queens.js:33-35 | the rising-diagonal index `col + row` of any cell lies in 0..2n-2, the range `hasAnySlashConflicts` scans, and the scan started at that index visits the cell |
| Chess.BackSlashIndexOnScan | back_tracking/n-queens.js:45-47 | the falling-diagonal index `col - row` of any cell lies in -(n-1)..n-1, the range `hasAnyBackSlashConflicts` scans, and the scan started at that index visits the cell (e.g. row 1, column 0 gives -1) |
| Chess.SlashCells | back_tracking/n-queens.js:136-146 | the `/` scan visits exactly the in-bounds cells with row + col equal to its start index, each once, top to bottom |
| Chess.BackSlashCells | back_tracking/n-queens.js:169-179 | the `\` scan visits exactly the in-bounds cells with col - row equal to its start index, each once, top to bottom |
| Chess.RowConflictIff | back_tracking/n-queens.js:86-95 | `hasRowConflictAt(r)` holds iff two distinct pieces stand in row r |
| Chess.ColConflictIff | back_tracking/n-queens.js:109-122 | `hasColConflictAt(c)` holds iff two distinct pieces stand in column c |
| Chess.SlashConflictIff | back_tracking/n-queens.js:136-152 | `hasSlashConflictAt(d)` holds iff two distinct pieces stand on the rising diagonal row + col = d |
| Chess.BackSlashConflictIff | back_tracking/n-queens.js:169-185 | `hasBackSlashConflictAt(d)` holds iff two distinct pieces stand on the falling diagonal col - row = d |
| Chess.AnyRowConflictsIff | back_tracking/n-queens.js:98-106 | `hasAnyRowConflicts` holds iff some two distinct pieces share a row |
| Chess.AnyColConflictsIff | back_tracking/n-queens.js:125-133 | `hasAnyColConflicts` holds iff some two distinct pieces share a column |
| Chess.AnySlashConflictsIff | back_tracking/n-queens.js:155-166 | scanning the 2n-1 indices 0..2n-2 finds a conflict iff some two distinct pieces share a rising diagonal, so no diagonal is missed |
| Chess.AnyBackSlashConflictsIff | back_tracking/n-queens.js:188-199 | scanning the 2n-1 indices from -(n-1) finds a conflict iff some two distinct pieces share a falling diagonal |
| Chess.RooksConflictsIff | back_tracking/n-queens.js:50-52 | `hasAnyRooksConflicts` holds iff two pieces on the board attack each other as rooks |
| Chess.QueensConflictsIff | back_tracking/n-queens.js:60-62 | `hasAnyQueensConflicts` holds iff two pieces on the board attack each other as queens |
| Chess.ConflictsIffAttackingPair | back_tracking/n-queens.js:217 | the check a search runs after each placement is false exactly when no two pieces attack each other |
| Chess.RooksConflictsOn | back_tracking/n-queens.js:55-57 | a conflict through one cell (its row or column) implies a conflict on the whole board |
| Chess.RooksConflictsOnIff | back_tracking/n-queens.js:55-57 | the point-wise rooks check holds iff two pieces share the row or the column through the cell |
| Chess.QueenConflictsOn | back_tracking/n-queens.js:66-73 | a conflict on one of the four lines through a cell implies a queens conflict on the whole board |
| Chess.QueenConflictsOnIff | back_tracking/n-queens.js:66-73 | the point-wise queens check holds iff two pieces share the row, the column or one of the two diagonals through the cell |
| Placements.PlaceNext | back_tracking/n-queens.js:215-227 | on a board holding one piece per filled row, toggling the next row's cell places the next piece, and toggling it again retracts it |
| Placements.PlaceConflictIff | back_tracking/n-queens.js:217 | on such a board the conflict check fails exactly when no two of its pieces attack each other |
| Search.SumPlace | back_tracking/n-queens.js:203-209 | `sum2DArr` of a board with one piece in each of k rows is k, so "sum equals n" means every row is filled |
| Search.FindRecursion | back_tracking/n-queens.js:211-230 | each `recursion(row, col)` call of a find search either restores the board it was given or leaves a board holding n pieces |
| Search.FindColumns | back_tracking/n-queens.js:218-223 | the column loop stops early only on a board holding n pieces, and otherwise leaves the board unchanged |
| Search.FindRecursionSpec | back_tracking/n-queens.js:211-230 | on a conflict-free partial placement, `recursion(row, col)` leaves the board of the first solution extending it by column col, or restores the board when no such solution exists |
| Search.FindColumnsSpec | back_tracking/n-queens.js:218-223 | the column loop stops exactly when some solution extends the placement with a next column no smaller than its start, and then leaves the first such solution's board |
| Search.FindTopSpec | back_tracking/n-queens.js:232-238 | the top-level loop on a fresh board yields the lexicographically first solution, or the all-zero board when no solution exists |
| Search.FindNRooksSolution | back_tracking/n-queens.js:202-241 | `findNRooksSolution(n)` returns the grid of the first rooks solution in leftmost-first order |
| Search.FindNQueensSolution | back_tracking/n-queens.js:288-341 | `findNQueensSolution(n)` returns the grid of the first queens solution, or the all-zero grid when there is none; sides 0 and 1 give `[]` and `[[1]]` |
| Search.CountRecursion | back_tracking/n-queens.js:249-270 | past the last row a call counts one solution and raises the flag; otherwise it leaves exactly its own piece added for the caller to remove, and never raises the flag itself |
| Search.CountColumns | back_tracking/n-queens.js:258-267 | after each child call the parent's toggle restores the board, so the column loop returns the board it was given and a lowered flag stays lowered |
| Search.CountTop | back_tracking/n-queens.js:276-280 | the top-level loop's toggle after each `recursion(0, i)` restores the fresh board |
| Search.CountRecursionSpec | back_tracking/n-queens.js:249-270 | on a conflict-free partial placement, `recursion(row, col)` adds the number of solutions extending it by column col |
| Search.CountColumnsSpec | back_tracking/n-queens.js:258-267 | the column loop adds the number of solutions extending the placement with a next column no smaller than its start; the flag makes a complete board count once |
| Search.CountTopIsColumns | back_tracking/n-queens.js:276-280 | the top-level loop, which has no flag test, computes the same state as the row-0 column loop, because no child of row 0 raises the flag |
| Search.CountSearchSpec | back_tracking/n-queens.js:276-283 | for n of at least 2 the count search from a fresh board returns the number of solutions |
| Search.CountNRooksSolutions | back_tracking/n-queens.js:245-284 | `countNRooksSolutions(n)` equals the number of rooks solutions; sides 0 and 1 return 1 |
| Search.CountNQueensSolutions | back_tracking/n-queens.js:345-384 | `countNQueensSolutions(n)` equals the number of queens solutions; sides 0 and 1 return 1 |
| Search.SolutionsOfZero | back_tracking/n-queens.js:272-274 | side 0 has exactly one solution, the empty placement, so its hard-coded count of 1 is the true count |
| Search.SolutionsOfOne | back_tracking/n-queens.js:272-274 | side 1 has exactly one solution, the single cell, so its hard-coded count of 1 is the true count |
| Results.IdentityIsFirstRookSolution | back_tracking/n-queens.js:211-238 | the diagonal placement is a rooks solution that comes before every other one in dictionary order |
| Results.FindRooksIsIdentity | back_tracking/n-queens.js:202-241 | `findNRooksSolution(n)` returns the n x n identity matrix for every n |
| Results.RookSolutionsCount | back_tracking/n-queens.js:245-284 | there are exactly n! rooks solutions of side n |
| Results.CountRooksIsFactorial | back_tracking/n-queens.js:245-284 | `countNRooksSolutions(n)` returns n! |
| Results.QueenSolutionOfFour | back_tracking/n-queens.js:345-384 | a placement is a queens solution of side 4 iff it is [1,3,0,2] or [2,0,3,1] |
| Results.NoQueenSolutions | back_tracking/n-queens.js:331-340 | sides 2 and 3 have no queens solution, so the find search returns the all-zero board there |
| Results.CountQueensSmall | back_tracking/n-queens.js:345-384 | `countNQueensSolutions` returns 1, 1, 0, 0, 2 for sides 0 to 4 |
| Results.FindQueensSmall | back_tracking/n-queens.js:288-341 | `findNQueensSolution` returns `[]`, `[[1]]`, the zero 2x2 and 3x3 grids, and `[[0,1,0,0],[0,0,0,1],[1,0,0,0],[0,0,1,0]]` for sides 0 to 4 |

## Left out

- `console.log` diagnostics (`back_tracking/n-queens.js:239`, `282`, `339`, `382`): output side effects with nothing to state.
- The demo calls at the end of the file (`back_tracking/n-queens.js:386-389`): their results are stated by the `Results` lemmas instead.
- `rows()` (`back_tracking/n-queens.js:20-22`): it copies the outer array and shares the inner rows. The board is an immutable value here, so there is no aliasing to model and `rows()` is the grid itself.
- JavaScript looseness:
  - the truthiness test in `togglePiece` is read on cells that are exactly 0 or 1;
  - reads past the board's edge that yield `undefined` become preconditions (`InBounds`), since the searches never make them;
  - negative n cannot be written, because sides are `nat`.
- The browser rendering code that calls `hasAnyQueenConflictsOn` is not part of this model.
- Mutation: the shared `solution` board, `solutionCount` and `flag` are threaded as values. A call's effect is the value it returns.
- Performance: whole-board rescans after every placement and the search's running time are not modelled.
- Queen counts beyond side 4 (10 for side 5, 92 for side 8) are not derived. The contract gives them as the size of the solution set, but the model does not enumerate those sets.
