/** The solver object: a starting grid of digits and the grid of candidate cells it works on in
    place. */
module Solver {
  import opened Candidates
  import opened BoxFill
  import opened Elimination

  /** A starting grid the solver can read: nine rows of at least nine digits (0 or less = blank). */
  predicate StartShape(start: seq<seq<int>>) {
    |start| >= 9 && forall r :: 0 <= r < 9 ==> |start[r]| >= 9
  }

  /** The cell a starting digit seeds: just that digit when it is positive, no candidate otherwise. */
  function SeedCell(value: int): Cell {
    if value > 0 then {value} else {}
  }

  /** The nine rows that seeding appends to the solution grid. */
  function Seeded(start: seq<seq<int>>): Board
    requires StartShape(start)
  {
    seq(9, r requires 0 <= r < 9 => seq(9, c requires 0 <= c < 9 => SeedCell(start[r][c])))
  }

  /** In a freshly seeded grid, a value is held alone somewhere in a region exactly when it is a
      positive starting digit somewhere in that region. */
  lemma SeededSingles(start: seq<seq<int>>, region: set<Pos>, v: int)
    requires StartShape(start) && InBounds(region)
    ensures IsGrid(Seeded(start))
    ensures v in Singles(Seeded(start), region) <==> v > 0 && exists p :: p in region && start[p.0][p.1] == v
  {
    var b := Seeded(start);
    SinglesMember(b, region, v);
    if v > 0 && exists p :: p in region && start[p.0][p.1] == v {
      var p :| p in region && start[p.0][p.1] == v;
      assert b[p.0][p.1] == {v};
    }
    if exists p :: p in region && b[p.0][p.1] == {v} {
      var p :| p in region && b[p.0][p.1] == {v};
      assert v in b[p.0][p.1];
    }
  }

  class SudokuSolver {
    /** The starting grid; the solver never changes it. */
    const start: seq<seq<int>>
    /** The candidate grid, one list of cells per row. */
    var solution: Board

    ghost predicate Valid()
      reads this
    {
      StartShape(start) && forall r :: 0 <= r < |solution| ==> |solution[r]| == 9
    }

    /** Seeded at least once, so rows 0..8 exist. */
    ghost predicate Ready()
      reads this
    {
      Valid() && IsGrid(solution)
    }

    constructor (start: seq<seq<int>>)
      requires StartShape(start)
      ensures Valid()
      ensures this.start == start && solution == []
    {
      this.start := start;
      solution := [];
    }

    /** Seeding: appends nine rows in which a positive starting digit becomes a one-candidate cell
        and any other value an empty cell. */
    method Populate()
      requires Valid()
      modifies this
      ensures Ready()
      ensures |solution| == |old(solution)| + 9 && solution[..|old(solution)|] == old(solution)
      ensures forall r, c :: 0 <= r < 9 && 0 <= c < 9 ==>
        solution[|old(solution)| + r][c] == if start[r][c] > 0 then {start[r][c]} else {}
      ensures solution == old(solution) + Seeded(start)
    {
      for row := 0 to 9
        invariant Valid()
        invariant solution == old(solution) + Seeded(start)[..row]
      {
        var currentRow: seq<Cell> := [];
        for col := 0 to 9
          invariant currentRow == Seeded(start)[row][..col]
        {
          var cell: Cell := {};
          var value := start[row][col];
          if value > 0 {
            cell := {value};
          }
          currentRow := currentRow + [cell];
        }
        assert currentRow == Seeded(start)[row];
        assert Seeded(start)[..row + 1] == Seeded(start)[..row] + [currentRow];
        solution := solution + [currentRow];
      }
    }

    /** The values held alone by a cell of column `col`. */
    method SingleValuesInColumn(col: int) returns (singles: set<int>)
      requires Ready() && 0 <= col < 9
      ensures singles == ColumnSingles(solution, col)
    {
      singles := {};
      for row := 0 to 9
        invariant singles == Singles(solution, Block(0, row, col, col + 1))
      {
        var cell := solution[row][col];
        if |cell| == 1 {
          singles := singles + cell;
        }
        BlockBounds(0, row, col, col + 1);
        SplitRows(0, row, row + 1, col, col + 1);
        OneCell(row, col);
        SinglesAdd(solution, Block(0, row, col, col + 1), (row, col));
      }
    }

    /** The values held alone by a cell of row `row`. */
    method SingleValuesInRow(row: int) returns (singles: set<int>)
      requires Ready() && 0 <= row < 9
      ensures singles == RowSingles(solution, row)
    {
      singles := {};
      var cells := solution[row];
      for col := 0 to 9
        invariant singles == Singles(solution, Block(row, row + 1, 0, col))
      {
        var cell := cells[col];
        if |cell| == 1 {
          singles := singles + cell;
        }
        BlockBounds(row, row + 1, 0, col);
        SplitColumns(row, row + 1, 0, col, col + 1);
        OneCell(row, col);
        SinglesAdd(solution, Block(row, row + 1, 0, col), (row, col));
      }
    }

    /** The values held alone by a cell of square (squareRow, squareCol). */
    method SingleValuesInSquare(squareRow: int, squareCol: int) returns (singles: set<int>)
      requires Ready() && 0 <= squareRow < 3 && 0 <= squareCol < 3
      ensures singles == SquareSingles(solution, squareRow, squareCol)
    {
      singles := {};
      var r0, c0 := 3 * squareRow, 3 * squareCol;
      for row := r0 to r0 + 3
        invariant singles == Singles(solution, Block(r0, row, c0, c0 + 3))
      {
        var cells := solution[row];
        for col := c0 to c0 + 3
          invariant singles == Singles(solution, Block(r0, row, c0, c0 + 3) + Block(row, row + 1, c0, col))
        {
          var cell := cells[col];
          if |cell| == 1 {
            singles := singles + cell;
          }
          SquareScanStep(solution, r0, c0, row, col);
        }
        SquareScanRow(r0, c0, row);
      }
    }

    /** The values held alone by a cell of the square that holds (row, col). */
    method SingleValuesInSquareOf(row: int, col: int) returns (singles: set<int>)
      requires Ready() && 0 <= row < 9 && 0 <= col < 9
      ensures (row, col) in Square(SquareIndex(row), SquareIndex(col))
      ensures singles == SquareSingles(solution, SquareIndex(row), SquareIndex(col))
    {
      SquareOfCell(row, col);
      var squareRow := SquareIndex(row);
      var squareCol := SquareIndex(col);
      singles := SingleValuesInSquare(squareRow, squareCol);
    }

    /** Visits the cells of square (squareRow, squareCol) row by row. Each row first takes a snapshot
        of its single values; every empty cell then receives `missing` less that snapshot and less
        the current single values of its column. Reports whether any empty cell was found. */
    method UpdateValuesInSquare(squareRow: int, squareCol: int, missing: set<int>) returns (replaced: bool)
      requires Ready() && 0 <= squareRow < 3 && 0 <= squareCol < 3
      modifies this
      ensures Ready()
      ensures solution == FillSquare(old(solution), squareRow, squareCol, missing)
      ensures replaced <==>
        exists i, j :: 3 * squareRow <= i < 3 * squareRow + 3 && 3 * squareCol <= j < 3 * squareCol + 3 && old(solution)[i][j] == {}
    {
      replaced := false;
      var r0, c0 := 3 * squareRow, 3 * squareCol;
      for row := r0 to r0 + 3
        invariant Ready()
        invariant solution == FillSquarePrefix(old(solution), squareRow, squareCol, row - r0, missing)
        invariant replaced <==> EmptyInRows(old(solution), r0, row, c0, c0 + 3)
      {
        ghost var rowStart := solution;
        FillRowNotYetVisited(old(solution), squareRow, squareCol, row, row - r0, missing, rowStart);
        var singleValuesInSameRow := SingleValuesInRow(row);
        var replacedInRow := UpdateValuesInSquareRow(row, squareCol, singleValuesInSameRow, missing);
        if replacedInRow {
          replaced := true;
        }
        FillSquareNext(old(solution), squareRow, squareCol, row, row - r0, row + 1 - r0, missing,
                       rowStart, singleValuesInSameRow, SquareSize, solution);
      }
      EmptyInRowsMeans(old(solution), r0, r0 + 3, c0, c0 + 3);
    }

    /** The inner loop of UpdateValuesInSquare: the three cells of row `row` inside square column
        `squareCol`, left to right, with the row snapshot `singleValuesInSameRow`. */
    method UpdateValuesInSquareRow(row: int, squareCol: int, singleValuesInSameRow: set<int>, missing: set<int>)
      returns (replaced: bool)
      requires Ready() && 0 <= row < 9 && 0 <= squareCol < 3
      modifies this
      ensures Ready()
      ensures solution == FillRowPrefix(old(solution), row, squareCol, SquareSize, singleValuesInSameRow, missing)
      ensures replaced <==> EmptyInRow(old(solution)[row], 3 * squareCol, 3 * squareCol + 3)
    {
      replaced := false;
      var c0 := 3 * squareCol;
      ghost var visited := 0;
      for col := c0 to c0 + 3
        invariant visited == col - c0
        invariant Ready()
        invariant solution == FillRowPrefix(old(solution), row, squareCol, visited, singleValuesInSameRow, missing)
        invariant replaced <==> EmptyInRow(old(solution)[row], c0, col)
      {
        FillNotYetVisited(old(solution), row, squareCol, col, visited, singleValuesInSameRow, missing, solution);
        ghost var replacedBefore := replaced;
        if |solution[row][col]| == 0 {
          var guesses := missing - singleValuesInSameRow;
          var singleValuesInSameColumn := SingleValuesInColumn(col);
          guesses := guesses - singleValuesInSameColumn;
          FillRowEmpty(old(solution), row, squareCol, col, visited, visited + 1, singleValuesInSameRow, missing, solution,
                       singleValuesInSameColumn, guesses);
          solution := solution[row := solution[row][col := guesses]];
          replaced := true;
        } else {
          FillRowKept(old(solution), row, squareCol, col, visited, visited + 1, singleValuesInSameRow, missing, solution);
        }
        EmptyInRowStep(old(solution)[row], c0, col, col + 1, replacedBefore, replaced);
        visited := visited + 1;
      }
    }

    /** The single-cell elimination at (row, col): a cell with more than one candidate loses the
        single values of its row, its column and its square. Reports whether anything was removed. */
    method RemoveSingleValues(row: int, col: int) returns (replaced: bool)
      requires Ready() && 0 <= row < 9 && 0 <= col < 9
      modifies this
      ensures Ready()
      ensures solution == Eliminate(old(solution), row, col)
      ensures replaced <==> solution[row][col] != old(solution)[row][col]
    {
      var singleValuesInRow := SingleValuesInRow(row);
      var singleValuesInCol := SingleValuesInColumn(col);
      var singleValuesInSquare := SingleValuesInSquareOf(row, col);
      EliminateWith(solution, row, col, singleValuesInRow, singleValuesInCol, singleValuesInSquare);
      var valuesInCell := solution[row][col];
      replaced := false;
      if |valuesInCell| > 1 {
        var afterRow := valuesInCell - singleValuesInRow;
        var afterCol := afterRow - singleValuesInCol;
        var afterSquare := afterCol - singleValuesInSquare;
        replaced := afterRow != valuesInCell || afterCol != afterRow || afterSquare != afterCol;
        RemoveInTurn(valuesInCell, singleValuesInRow, singleValuesInCol, singleValuesInSquare);
        if replaced {
          solution := solution[row := solution[row][col := afterSquare]];
        }
      }
    }

    /** Phase 1: squares in row-major order, each filled with the values it is missing. */
    method FillEmptyCells()
      requires Ready()
      modifies this
      ensures Ready()
      ensures solution == FillSquares(old(solution))
    {
      ghost var filled := 0;
      for rowSquare := 0 to 3
        invariant filled == 3 * rowSquare
        invariant Ready()
        invariant solution == FillSquaresPrefix(old(solution), filled)
      {
        for colSquare := 0 to 3
          invariant filled == 3 * rowSquare + colSquare
          invariant Ready()
          invariant solution == FillSquaresPrefix(old(solution), filled)
        {
          var singleValuesInSquare := SingleValuesInSquare(rowSquare, colSquare);
          var missingValues := MissingValues(singleValuesInSquare);
          FillSquaresStep(old(solution), rowSquare, colSquare, filled, filled + 1);
          var _ := UpdateValuesInSquare(rowSquare, colSquare, missingValues);
          filled := filled + 1;
        }
      }
    }

    /** Phase 2: passes over the grid, column by column and top to bottom within a column. A pass
        is followed by another exactly when its scan of column 0 removed a candidate. Returns the
        number of passes made. */
    method EliminateUntilStable() returns (passes: nat)
      requires Ready()
      modifies this
      ensures Ready()
      ensures solution == Propagate(old(solution))
      ensures passes == Passes(old(solution))
    {
      passes := 0;
      var solvedValuesOnAtLeastOnePass := true;
      while solvedValuesOnAtLeastOnePass
        invariant Ready()
        invariant solvedValuesOnAtLeastOnePass ==>
          Propagate(solution) == Propagate(old(solution)) && passes + Passes(solution) == Passes(old(solution))
        invariant !solvedValuesOnAtLeastOnePass ==>
          solution == Propagate(old(solution)) && passes == Passes(old(solution))
        decreases if solvedValuesOnAtLeastOnePass then Count(solution) + 1 else 0
      {
        ghost var passStart := solution;
        var replacedOnLastIteration := false;
        for col := 0 to 9
          invariant Ready()
          invariant solution == PassPrefix(passStart, col)
          invariant Count(solution) <= Count(passStart)
          invariant replacedOnLastIteration <==> Count(solution) < Count(passStart)
          invariant col == 0 ==> solvedValuesOnAtLeastOnePass
          invariant col >= 1 ==> (solvedValuesOnAtLeastOnePass <==> Column0Removes(passStart))
          invariant col >= 1 && solvedValuesOnAtLeastOnePass ==> replacedOnLastIteration
        {
          ghost var columnStart := solution;
          for row := 0 to 9
            invariant Ready()
            invariant solution == ScanColumnPrefix(columnStart, col, row)
            invariant Count(solution) <= Count(columnStart)
            invariant replacedOnLastIteration <==> Count(solution) < Count(passStart)
          {
            EliminateCount(solution, row, col);
            var solvedValuesThisPass := RemoveSingleValues(row, col);
            if solvedValuesThisPass {
              replacedOnLastIteration := solvedValuesThisPass;
            }
            ScanColumnStep(columnStart, col, row, row + 1);
          }
          PassStep(passStart, col, col + 1, Size);
          if !replacedOnLastIteration {
            solvedValuesOnAtLeastOnePass := false;
          }
        }
        PassProgress(passStart);
        passes := passes + 1;
      }
    }

    /** The whole solve: phase 1, then phase 2. Every cell with exactly one candidate beforehand
        keeps it; every other cell ends with a subset of what it had, or of 1..9 if it was empty. */
    method Solve()
      requires Ready()
      modifies this
      ensures Ready()
      ensures solution == Propagate(FillSquares(old(solution)))
      ensures |solution| == |old(solution)|
      ensures forall i, j :: 0 <= i < |solution| && 0 <= j < 9 ==>
        (|old(solution)[i][j]| == 1 ==> solution[i][j] == old(solution)[i][j]) &&
        solution[i][j] <= if old(solution)[i][j] == {} then Digits else old(solution)[i][j]
    {
      FillEmptyCells();
      var _ := EliminateUntilStable();
      SolveKeeps(old(solution));
    }
  }

  /** Phase 1 then phase 2, on any grid: a cell with exactly one candidate keeps it, and no cell ends
      with a candidate it did not have, except that an empty cell may gain digits 1..9. */
  lemma SolveKeeps(b: Board)
    requires IsGrid(b)
    ensures var res := Propagate(FillSquares(b));
      IsGrid(res) && |res| == |b| &&
      forall i, j :: 0 <= i < |b| && 0 <= j < 9 ==>
        (|b[i][j]| == 1 ==> res[i][j] == b[i][j]) &&
        res[i][j] <= if b[i][j] == {} then Digits else b[i][j]
  {
    forall i, j | 0 <= i < |b| && 0 <= j < 9
      ensures b[i][j] != {} ==> FillSquares(b)[i][j] == b[i][j]
      ensures b[i][j] == {} ==> FillSquares(b)[i][j] <= Digits
    {
      FillSquaresPrefixCell(b, Size, i, j);
    }
    PropagateShrinks(FillSquares(b));
  }
}
