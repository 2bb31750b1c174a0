/** The sample puzzle the solver ships with, and the single values its queries report once that
    puzzle has been seeded. */
module Sample {
  import opened Candidates
  import opened Solver

  /** The starting grid of the solver and of its test suite; 0 marks a blank cell. */
  const SampleGrid: seq<seq<int>> := [
    [0, 0, 0, 8, 1, 0, 6, 7, 0],
    [0, 0, 7, 4, 9, 0, 2, 0, 8],
    [0, 6, 0, 0, 5, 0, 1, 0, 4],
    [1, 0, 0, 0, 0, 3, 9, 0, 0],
    [4, 0, 0, 0, 8, 0, 0, 0, 7],
    [0, 0, 6, 9, 0, 0, 0, 0, 3],
    [9, 0, 2, 0, 3, 0, 0, 6, 0],
    [6, 0, 1, 0, 7, 4, 3, 0, 0],
    [0, 3, 4, 0, 6, 9, 0, 0, 0]
  ]

  /** The single values of cells 0 .. n-1 of a row, collected left to right. */
  function RowScan(cells: seq<Cell>, n: int): set<int>
    requires 0 <= n <= |cells|
  {
    if n == 0 then {} else RowScan(cells, n - 1) + SingleOf(cells[n - 1])
  }

  /** The cells of column c, top to bottom. */
  function ColumnCells(b: Board, c: int): (cells: seq<Cell>)
    requires IsGrid(b) && 0 <= c < 9
    ensures |cells| == 9
  {
    seq(9, i requires 0 <= i < 9 => b[i][c])
  }

  /** Scanning the first n cells of a row cell by cell finds the singles of that part of the row. */
  lemma {:induction false} RowScanIs(b: Board, r: int, n: int)
    requires IsGrid(b) && 0 <= r < 9 && 0 <= n <= 9
    ensures InBounds(Block(r, r + 1, 0, n))
    ensures Singles(b, Block(r, r + 1, 0, n)) == RowScan(b[r], n)
  {
    BlockBounds(r, r + 1, 0, n);
    if n > 0 {
      RowScanIs(b, r, n - 1);
      SplitColumns(r, r + 1, 0, n - 1, n);
      OneCell(r, n - 1);
      SinglesAdd(b, Block(r, r + 1, 0, n - 1), (r, n - 1));
    }
  }

  /** Scanning the first n cells of a column cell by cell finds the singles of that part of the
      column. */
  lemma {:induction false} ColumnScanIs(b: Board, c: int, n: int)
    requires IsGrid(b) && 0 <= c < 9 && 0 <= n <= 9
    ensures InBounds(Block(0, n, c, c + 1))
    ensures Singles(b, Block(0, n, c, c + 1)) == RowScan(ColumnCells(b, c), n)
  {
    BlockBounds(0, n, c, c + 1);
    if n > 0 {
      ColumnScanIs(b, c, n - 1);
      assert ColumnCells(b, c)[n - 1] == b[n - 1][c];
      SplitRows(0, n - 1, n, c, c + 1);
      OneCell(n - 1, c);
      SinglesAdd(b, Block(0, n - 1, c, c + 1), (n - 1, c));
    }
  }

  /** The seeded sample, row by row and column by column, as the test suite reads it. */
  lemma SampleRows()
    ensures Seeded(SampleGrid)[0] == [{}, {}, {}, {8}, {1}, {}, {6}, {7}, {}]
    ensures Seeded(SampleGrid)[8] == [{}, {3}, {4}, {}, {6}, {9}, {}, {}, {}]
  {
  }

  lemma SampleColumns()
    ensures ColumnCells(Seeded(SampleGrid), 0) == [{}, {}, {}, {1}, {4}, {}, {9}, {6}, {}]
    ensures ColumnCells(Seeded(SampleGrid), 8) == [{}, {8}, {4}, {}, {7}, {3}, {}, {}, {}]
  {
  }

  lemma ScanRow0()
    ensures RowScan([{}, {}, {}, {8}, {1}, {}, {6}, {7}, {}], 9) == {1, 6, 7, 8}
  {
  }

  lemma ScanRow8()
    ensures RowScan([{}, {3}, {4}, {}, {6}, {9}, {}, {}, {}], 9) == {3, 4, 6, 9}
  {
  }

  lemma ScanColumn0()
    ensures RowScan([{}, {}, {}, {1}, {4}, {}, {9}, {6}, {}], 9) == {1, 4, 6, 9}
  {
  }

  lemma ScanColumn8()
    ensures RowScan([{}, {8}, {4}, {}, {7}, {3}, {}, {}, {}], 9) == {3, 4, 7, 8}
  {
  }

  /** After seeding the sample, row 0 holds 1, 6, 7 and 8 alone and no other value alone. */
  lemma SampleRow0()
    ensures RowSingles(Seeded(SampleGrid), 0) == {1, 6, 7, 8}
  {
    RowScanIs(Seeded(SampleGrid), 0, 9);
    SampleRows();
    ScanRow0();
  }

  /** Row 8 holds 3, 4, 6 and 9 alone. */
  lemma SampleRow8()
    ensures RowSingles(Seeded(SampleGrid), 8) == {3, 4, 6, 9}
  {
    RowScanIs(Seeded(SampleGrid), 8, 9);
    SampleRows();
    ScanRow8();
  }

  /** Column 0 holds 1, 4, 6 and 9 alone. */
  lemma SampleColumn0()
    ensures ColumnSingles(Seeded(SampleGrid), 0) == {1, 4, 6, 9}
  {
    ColumnScanIs(Seeded(SampleGrid), 0, 9);
    SampleColumns();
    ScanColumn0();
  }

  /** Column 8 holds 3, 4, 7 and 8 alone. */
  lemma SampleColumn8()
    ensures ColumnSingles(Seeded(SampleGrid), 8) == {3, 4, 7, 8}
  {
    ColumnScanIs(Seeded(SampleGrid), 8, 9);
    SampleColumns();
    ScanColumn8();
  }

  /** Square (0, 0) holds at least 6 and 7 alone. */
  lemma SampleSquare00()
    ensures {6, 7} <= SquareSingles(Seeded(SampleGrid), 0, 0)
  {
    var b := Seeded(SampleGrid);
    SquareHolds(b, 0, 0, 2, 1, 6);
    SquareHolds(b, 0, 0, 1, 2, 7);
  }

  /** Square (1, 0) holds at least 1, 4 and 6 alone. */
  lemma SampleSquare10()
    ensures {1, 4, 6} <= SquareSingles(Seeded(SampleGrid), 1, 0)
  {
    var b := Seeded(SampleGrid);
    SquareHolds(b, 1, 0, 3, 0, 1);
    SquareHolds(b, 1, 0, 4, 0, 4);
    SquareHolds(b, 1, 0, 5, 2, 6);
  }

  /** Square (0, 1) holds at least 1, 4, 5, 8 and 9 alone. */
  lemma SampleSquare01()
    ensures {1, 4, 5, 8, 9} <= SquareSingles(Seeded(SampleGrid), 0, 1)
  {
    var b := Seeded(SampleGrid);
    SquareHolds(b, 0, 1, 0, 4, 1);
    SquareHolds(b, 0, 1, 1, 3, 4);
    SquareHolds(b, 0, 1, 2, 4, 5);
    SquareHolds(b, 0, 1, 0, 3, 8);
    SquareHolds(b, 0, 1, 1, 4, 9);
  }

  /** A cell of a square that holds v alone makes v a single of the square. */
  lemma SquareHolds(b: Board, sr: int, sc: int, r: int, c: int, v: int)
    requires IsGrid(b) && 0 <= sr < 3 && 0 <= sc < 3
    requires 3 * sr <= r < 3 * sr + 3 && 3 * sc <= c < 3 * sc + 3 && b[r][c] == {v}
    ensures v in SquareSingles(b, sr, sc)
  {
    BlockBounds(3 * sr, 3 * sr + 3, 3 * sc, 3 * sc + 3);
    SinglesMember(b, Square(sr, sc), v);
    assert (r, c) in Square(sr, sc);
  }
}
