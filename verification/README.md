# Sudoku candidate propagation, modelled in Dafny

This project models the solving engine of `SudokuSolverApp`, a small Java Sudoku solver. The
solver keeps a grid of candidate lists, one list per cell (`solutionGrid`). It changes the grid in
place in three stages:

1. **Seeding** (`populateSolutionGridWithStartingPosition`). The starting `int[][]` grid becomes
   nine appended rows of cells. A positive digit becomes a one-candidate cell. Any other value
   becomes an empty cell.
2. **Phase 1 of `solve`, the square fill.** The squares are visited in row-major order. Each square
   computes the digits missing from its one-candidate cells. Every empty cell of the square then
   receives those digits, less the single values of its row and less those of its column. The row's
   single values are a snapshot taken once, before any cell of that row is filled. The column's
   single values are read again for every cell.
3. **Phase 2 of `solve`, elimination.** A pass visits the cells column by column, top to bottom.
   Every cell with more than one candidate loses the single values of its row, its column and its
   square. A visit sees the effect of earlier visits. A further pass follows exactly when the scan
   of column 0 in this pass removed a candidate.

Model layout:

- `Candidates` (`candidates.dfy`) defines the cell and grid types and the single-value queries.
  It also has the square index and the missing-digits set.
- `BoxFill` (`box_fill.dfy`) holds pure functions that follow the phase-1 loops step by step, with
  the lemmas about them.
- `Elimination` (`elimination.dfy`) does the same for phase 2. It adds the candidate count that
  bounds the number of passes.
- `Solver` (`solver.dfy`) holds the class `SudokuSolver`. Its `solution` field is reassigned the
  way the Java methods update `solutionGrid`. Each method has loops that mirror the Java and is
  proved equal to the pure function it implements. The inner column loop of
  `updateValuesInSquare` is its own method, `UpdateValuesInSquareRow`, so that each of the two
  loops is proved on its own; `UpdateValuesInSquare` calls it once per row, right after taking the
  row's snapshot of single values.
- `Sample` (`sample.dfy`) checks the single values that the test suite expects for its sample
  puzzle.

The Javadoc of `solve` says the second stage iterates row by row until no value can be removed.
The code does something else, and the model follows the code:
- it scans column-major (column outer, row inner);
- it stops after the first pass whose column-0 scan removed nothing, because the exit flag is
  tested inside the column loop and `replacedOnLastIteration` is never reset within a pass.

## Model

| member | source | states |
|---|---|---|
| Solver.SudokuSolver.Populate | src/main/java/kh/sudokusolver/SudokuSolverApp.java:155-173 | nine rows are appended and earlier rows are kept; cell (r, c) of the new rows is `{start[r][c]}` when that digit is positive and empty otherwise; the starting grid is a constant that is never written |
| Solver.SeededSingles | src/main/java/kh/sudokusolver/SudokuSolverApp.java:155-173 | in a freshly seeded grid, a value is held alone in a region iff it is a positive starting digit somewhere in that region |
| Solver.SudokuSolver.SingleValuesInColumn | src/main/java/kh/sudokusolver/SudokuSolverApp.java:255-265 | the loop over rows 0..8 returns exactly the single values of the column, and changes nothing |
| Solver.SudokuSolver.SingleValuesInRow | src/main/java/kh/sudokusolver/SudokuSolverApp.java:274-284 | the loop over columns 0..8 returns exactly the single values of the row |
| Solver.SudokuSolver.SingleValuesInSquare | src/main/java/kh/sudokusolver/SudokuSolverApp.java:298-317 | the nested loop over rows 3sr..3sr+2 and columns 3sc..3sc+2 returns exactly the single values of that square |
| Solver.SudokuSolver.SingleValuesInSquareOf | src/main/java/kh/sudokusolver/SudokuSolverApp.java:370-375 | returns the single values of the square that `row / 3`, `col / 3` select, and that square contains (row, col) |
| Candidates.SinglesMember | src/main/java/kh/sudokusolver/SudokuSolverApp.java:255-317 | a value is a single of a row, column or square iff some cell of it holds exactly that value; cells with zero or several candidates contribute nothing |
| Candidates.SquareIndex | src/main/java/kh/sudokusolver/SudokuSolverApp.java:378-387 | Java's truncating `i / 3`: for i in 0..8 the result q is in 0..2 with 3q <= i < 3q+3 (and the mirrored bound for negative i) |
| Candidates.SquareOfCell | src/main/java/kh/sudokusolver/SudokuSolverApp.java:370-387 | for r, c in 0..8 the square indices lie in 0..2 and the square they select contains (r, c) |
| Candidates.MissingValues | src/main/java/kh/sudokusolver/SudokuSolverApp.java:436-441 | the result is a subset of 1..9, disjoint from the given set, and together with it covers 1..9 |
| Solver.SudokuSolver.UpdateValuesInSquare | src/main/java/kh/sudokusolver/SudokuSolverApp.java:330-367 | the new grid is `FillSquare` of the old one, and the result is true iff the square had an empty cell on entry |
| Solver.SudokuSolver.UpdateValuesInSquareRow | src/main/java/kh/sudokusolver/SudokuSolverApp.java:343-364 | the loop over the three cells of one row of the square leaves `FillRowPrefix` of the grid over those cells, with the row snapshot it is given, and the result is true iff one of those cells was empty on entry |
| BoxFill.FillSquareEffect | src/main/java/kh/sudokusolver/SudokuSolverApp.java:335-365 | filling a square leaves every cell outside it, and every non-empty cell in it, unchanged; an empty cell (i, j) becomes the missing digits less row i's singles from before the fill (stale snapshot) less column j's singles when (i, j) is reached (filled cells above row i, original cells from row i down) |
| BoxFill.FillSquarePrefixCell | src/main/java/kh/sudokusolver/SudokuSolverApp.java:340-360 | the same value formula for an empty cell after the first n rows of the square have been filled |
| BoxFill.FillSquarePrefixFrame | src/main/java/kh/sudokusolver/SudokuSolverApp.java:335-365 | filling the first n rows of a square changes only the empty cells of those rows |
| BoxFill.FillRowPrefixFrame | src/main/java/kh/sudokusolver/SudokuSolverApp.java:343-364 | visiting cells of one row of a square changes only those of its cells that were empty; other rows, other columns and non-empty cells are unchanged |
| BoxFill.FillRowPrefixFilled | src/main/java/kh/sudokusolver/SudokuSolverApp.java:343-364 | within one row, each filled cell loses the column singles of the grid as it was when the row started, because filling a cell changes no other column |
| BoxFill.FillSquareCell | src/main/java/kh/sudokusolver/SudokuSolverApp.java:345-363 | after a square fill, a non-empty cell is unchanged and an empty cell holds a subset of the missing digits |
| BoxFill.EmptyInRowsMeans | src/main/java/kh/sudokusolver/SudokuSolverApp.java:349-362 | the flag the fill sets is true iff some cell of the visited rows and columns was empty |
| BoxFill.FillSquaresStep | src/main/java/kh/sudokusolver/SudokuSolverApp.java:187-199 | square (sr, sc) is step 3sr+sc+1 of phase 1, filled with the digits missing from it at that moment |
| Solver.SudokuSolver.FillEmptyCells | src/main/java/kh/sudokusolver/SudokuSolverApp.java:187-199 | the nested loop over the squares in row-major order leaves `FillSquares` of the old grid |
| BoxFill.FillSquaresPrefixCell | src/main/java/kh/sudokusolver/SudokuSolverApp.java:187-199 | after the first k squares are filled, a non-empty cell is unchanged and an empty cell holds a subset of 1..9 |
| Solver.SudokuSolver.RemoveSingleValues | src/main/java/kh/sudokusolver/SudokuSolverApp.java:226-247 | the new grid is `Eliminate` of the old one, and the result is true iff cell (row, col) changed |
| Elimination.EliminateEffect | src/main/java/kh/sudokusolver/SudokuSolverApp.java:226-247 | one visit changes only cell (r, c), never adds a candidate, leaves a cell with at most one candidate untouched, and lowers the candidate count iff the cell changed |
| Elimination.EliminateKeeps | src/main/java/kh/sudokusolver/SudokuSolverApp.java:229-237 | in a visited cell with several candidates, v survives iff it was there and no cell of the same row, column or square holds exactly `{v}` |
| Elimination.RemoveInTurn | src/main/java/kh/sudokusolver/SudokuSolverApp.java:235-239 | the three `removeAll` calls report a change (their results or-ed together) iff removing all three sets changes the cell |
| Elimination.ShrinkCell | src/main/java/kh/sudokusolver/SudokuSolverApp.java:240-244 | writing a subset of a cell's candidates back into the grid changes no other cell and lowers the count iff the cell changed |
| Elimination.ScanColumnPrefixEffect | src/main/java/kh/sudokusolver/SudokuSolverApp.java:208-213 | scanning part of a column never grows a cell, keeps cells with at most one candidate, and never raises the count |
| Elimination.PassPrefixEffect | src/main/java/kh/sudokusolver/SudokuSolverApp.java:207-217 | the same for the first n columns of a pass |
| Elimination.PassAfterColumn0 | src/main/java/kh/sudokusolver/SudokuSolverApp.java:207-216 | after column 0, the rest of a pass can only lower the count further |
| Elimination.PassProgress | src/main/java/kh/sudokusolver/SudokuSolverApp.java:204-221 | a pass whose column-0 scan removed a candidate, which is exactly when another pass follows, lowers the total count |
| Elimination.PropagateShrinks | src/main/java/kh/sudokusolver/SudokuSolverApp.java:204-221 | phase 2 never grows a cell, and every cell with at most one candidate when it starts (every given digit in particular) ends with exactly that content |
| Elimination.PassesBound | src/main/java/kh/sudokusolver/SudokuSolverApp.java:204-221 | phase 2 makes at least one pass and at most one more pass than there are candidates when it starts |
| Solver.SudokuSolver.EliminateUntilStable | src/main/java/kh/sudokusolver/SudokuSolverApp.java:204-221 | the while loop with its flags leaves `Propagate` of the old grid, returns `Passes` of it, and terminates because the count drops on every pass that continues |
| Solver.SudokuSolver.Solve | src/main/java/kh/sudokusolver/SudokuSolverApp.java:181-223 | the grid becomes phase 2 applied to phase 1; a one-candidate cell keeps its value, and every cell ends with a subset of what it had, or of 1..9 if it was empty |
| Solver.SolveKeeps | src/main/java/kh/sudokusolver/SudokuSolverApp.java:181-223 | the same statement for the two phases as pure functions, on any grid |
| Sample.SampleRow0 | src/test/java/kh/sudokusolver/SudokuSolverAppTest.java:103-120 | after seeding the sample puzzle, the single values of row 0 are exactly {1, 6, 7, 8} |
| Sample.SampleRow8 | src/test/java/kh/sudokusolver/SudokuSolverAppTest.java:122-138 | those of row 8 are exactly {3, 4, 6, 9} |
| Sample.SampleColumn0 | src/test/java/kh/sudokusolver/SudokuSolverAppTest.java:65-82 | those of column 0 are exactly {1, 4, 6, 9} |
| Sample.SampleColumn8 | src/test/java/kh/sudokusolver/SudokuSolverAppTest.java:84-101 | those of column 8 are exactly {3, 4, 7, 8} |
| Sample.SampleSquare00 | src/test/java/kh/sudokusolver/SudokuSolverAppTest.java:31-39 | square (0, 0) holds at least 6 and 7 alone |
| Sample.SampleSquare10 | src/test/java/kh/sudokusolver/SudokuSolverAppTest.java:41-50 | square (1, 0) holds at least 1, 4 and 6 alone |
| Sample.SampleSquare01 | src/test/java/kh/sudokusolver/SudokuSolverAppTest.java:52-63 | square (0, 1) holds at least 1, 4, 5, 8 and 9 alone |

## Left out

- Console output and logging are not modelled: `printValuesSet`, `printGridWithBorders`, `printSolutionGrid`, the prints inside `solve`, the logger set-up in the constructor, and `main`. `EliminateUntilStable` returns the pass count that `solve` prints.
- `getValuesInRowAsSet` and `getValuesInColumnAsSet` are not modelled. `solve` never calls them.
- The validity stubs `isValueInCellValid` and `isGuessForCellValid`, which always return true, are not modelled.
- The accessors `getSudokuGrid` and `setSudokuGrid` are not modelled. The starting grid is given to the constructor and kept in the constant field `start`.
- `getValueInCell` and `getValuesInRow` are plain indexing of the `solution` field. In-place updates of the aliased row and cell lists are modelled as value updates of that field, which have the same effect on the grid.
- A cell is a set, not a list. The order of candidates inside a cell, which comes from `HashSet` iteration, is not modelled. Cells never hold duplicates, so `removeAll` is set difference.
- Candidate values are unbounded integers. The code does no arithmetic on them, so Java's 32-bit `int` changes nothing.
- Solver.SudokuSolver.Populate: requires nine rows of at least nine digits (`StartShape`). A smaller grid makes the Java code throw an index exception, which is not modelled.
- Solver.SudokuSolver.UpdateValuesInSquare: like every query and phase, requires a seeded grid (`Ready`: at least nine rows of nine cells). On an unseeded grid the Java code throws an index exception, which is not modelled.
- The test suite calls `getValuesInSquare`, `getValuesInColumn` and `getValuesInRow` with `Set` results, which the solver class does not declare. Their expected values are checked against the single-value queries instead.
