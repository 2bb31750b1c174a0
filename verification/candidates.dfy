/** Candidate grids and the read-only queries the solver asks of them. */
module Candidates {

  /** The candidate values still possible for one cell. */
  type Cell = set<int>

  /** The solution grid: a list of rows of cells. Only rows 0..8 and columns 0..8 take part in solving. */
  type Board = seq<seq<Cell>>

  /** A (row, column) coordinate. */
  type Pos = (int, int)

  /** The number of rows, of columns, and of cells in a row or column. */
  const Size: int := 9

  /** The number of rows, and of columns, of a square. */
  const SquareSize: int := 3

  /** The values a cell may hold in a solved puzzle. */
  const Digits: set<int> := set v | 1 <= v <= 9

  /** At least nine rows, and every row has nine cells. */
  predicate IsGrid(b: Board) {
    |b| >= 9 && forall r :: 0 <= r < |b| ==> |b[r]| == 9
  }

  predicate InGrid(p: Pos) {
    0 <= p.0 < 9 && 0 <= p.1 < 9
  }

  predicate InBounds(region: set<Pos>) {
    forall p :: p in region ==> InGrid(p)
  }

  /** The cells of rows r0 .. r1-1 and columns c0 .. c1-1. */
  function Block(r0: int, r1: int, c0: int, c1: int): set<Pos> {
    set r, c | r0 <= r < r1 && c0 <= c < c1 :: (r, c)
  }

  function Row(r: int): set<Pos> {
    Block(r, r + 1, 0, 9)
  }

  function Column(c: int): set<Pos> {
    Block(0, 9, c, c + 1)
  }

  /** The 3x3 square (sr, sc): rows 3*sr .. 3*sr+2, columns 3*sc .. 3*sc+2. */
  function Square(sr: int, sc: int): set<Pos> {
    Block(3 * sr, 3 * sr + 3, 3 * sc, 3 * sc + 3)
  }

  /** What one cell contributes to a scan for single values: its value if it holds exactly one. */
  function SingleOf(cell: Cell): set<int> {
    if |cell| == 1 then cell else {}
  }

  /** The values of the cells in `region` that hold exactly one candidate. */
  function Singles(b: Board, region: set<Pos>): set<int>
    requires IsGrid(b) && InBounds(region)
  {
    set p, v | p in region && |b[p.0][p.1]| == 1 && v in b[p.0][p.1] :: v
  }

  function RowSingles(b: Board, r: int): set<int>
    requires IsGrid(b) && 0 <= r < 9
  {
    Singles(b, Row(r))
  }

  function ColumnSingles(b: Board, c: int): set<int>
    requires IsGrid(b) && 0 <= c < 9
  {
    Singles(b, Column(c))
  }

  function SquareSingles(b: Board, sr: int, sc: int): set<int>
    requires IsGrid(b) && 0 <= sr < 3 && 0 <= sc < 3
  {
    Singles(b, Square(sr, sc))
  }

  /** Index of the square row (or column) that row (or column) `i` falls in: Java's `i / 3`,
      which truncates toward zero. */
  function SquareIndex(i: int): (q: int)
    ensures i >= 0 ==> 3 * q <= i < 3 * q + 3
    ensures i < 0 ==> 3 * q - 3 < i <= 3 * q
    ensures 0 <= i < 9 ==> 0 <= q < 3
  {
    if i >= 0 then i / 3 else -((-i) / 3)
  }

  /** The digits 1..9 that do not occur in `present`. */
  function MissingValues(present: set<int>): (m: set<int>)
    ensures m <= Digits
    ensures m !! present
    ensures Digits <= m + present
  {
    Digits - present
  }

  // ---------------------------------------------------------------------------------------------
  // Facts about regions and single values

  lemma BlockBounds(r0: int, r1: int, c0: int, c1: int)
    requires 0 <= r0 && r1 <= 9 && 0 <= c0 && c1 <= 9
    ensures InBounds(Block(r0, r1, c0, c1))
  {
  }

  /** The square chosen for a cell by SquareIndex holds that cell. */
  lemma SquareOfCell(r: int, c: int)
    requires 0 <= r < 9 && 0 <= c < 9
    ensures 0 <= SquareIndex(r) < 3 && 0 <= SquareIndex(c) < 3
    ensures (r, c) in Square(SquareIndex(r), SquareIndex(c))
  {
  }

  /** A value is a single of a region exactly when some cell of the region holds just that value;
      cells with no candidate or with several contribute nothing. */
  lemma SinglesMember(b: Board, region: set<Pos>, v: int)
    requires IsGrid(b) && InBounds(region)
    ensures v in Singles(b, region) <==> exists p :: p in region && b[p.0][p.1] == {v}
  {
    if v in Singles(b, region) {
      var p :| p in region && |b[p.0][p.1]| == 1 && v in b[p.0][p.1];
      SingletonIs(b[p.0][p.1], v);
    }
    if exists p :: p in region && b[p.0][p.1] == {v} {
      var p :| p in region && b[p.0][p.1] == {v};
      assert |b[p.0][p.1]| == 1 && v in b[p.0][p.1];
    }
  }

  lemma SingletonIs(s: set<int>, v: int)
    requires |s| == 1 && v in s
    ensures s == {v}
  {
    assert |s - {v}| == 0;
  }

  lemma SinglesOfCell(b: Board, p: Pos)
    requires IsGrid(b) && InGrid(p)
    ensures Singles(b, {p}) == SingleOf(b[p.0][p.1])
  {
    forall v | v in SingleOf(b[p.0][p.1]) ensures v in Singles(b, {p}) {
      assert p in {p};
    }
  }

  lemma SinglesUnion(b: Board, a: set<Pos>, c: set<Pos>)
    requires IsGrid(b) && InBounds(a) && InBounds(c)
    ensures Singles(b, a + c) == Singles(b, a) + Singles(b, c)
  {
  }

  /** Adding one cell to a region adds what that cell contributes. */
  lemma SinglesAdd(b: Board, a: set<Pos>, p: Pos)
    requires IsGrid(b) && InBounds(a) && InGrid(p)
    ensures Singles(b, a + {p}) == Singles(b, a) + SingleOf(b[p.0][p.1])
  {
    SinglesUnion(b, a, {p});
    SinglesOfCell(b, p);
  }

  /** Singles depend only on the cells of the region. */
  lemma SinglesFrame(b: Board, b': Board, region: set<Pos>)
    requires IsGrid(b) && IsGrid(b') && InBounds(region)
    requires forall p :: p in region ==> b[p.0][p.1] == b'[p.0][p.1]
    ensures Singles(b, region) == Singles(b', region)
  {
  }

  lemma SplitRows(r0: int, r1: int, r2: int, c0: int, c1: int)
    requires r0 <= r1 <= r2
    ensures Block(r0, r2, c0, c1) == Block(r0, r1, c0, c1) + Block(r1, r2, c0, c1)
  {
  }

  lemma SplitColumns(r0: int, r1: int, c0: int, c1: int, c2: int)
    requires c0 <= c1 <= c2
    ensures Block(r0, r1, c0, c2) == Block(r0, r1, c0, c1) + Block(r0, r1, c1, c2)
  {
  }

  /** One more cell of a square scanned row by row: the rows above in full, then the current row up
      to column `col`. */
  lemma SquareScanStep(b: Board, r0: int, c0: int, row: int, col: int)
    requires IsGrid(b) && 0 <= r0 <= row < r0 + 3 <= 9 && 0 <= c0 <= col < c0 + 3 <= 9
    ensures InBounds(Block(r0, row, c0, c0 + 3) + Block(row, row + 1, c0, col))
    ensures InBounds(Block(r0, row, c0, c0 + 3) + Block(row, row + 1, c0, col + 1))
    ensures Singles(b, Block(r0, row, c0, c0 + 3) + Block(row, row + 1, c0, col + 1)) ==
      Singles(b, Block(r0, row, c0, c0 + 3) + Block(row, row + 1, c0, col)) + SingleOf(b[row][col])
  {
    var above := Block(r0, row, c0, c0 + 3);
    BlockBounds(r0, row, c0, c0 + 3);
    BlockBounds(row, row + 1, c0, col + 1);
    SplitColumns(row, row + 1, c0, col, col + 1);
    OneCell(row, col);
    assert above + Block(row, row + 1, c0, col + 1) == (above + Block(row, row + 1, c0, col)) + {(row, col)};
    SinglesAdd(b, above + Block(row, row + 1, c0, col), (row, col));
  }

  /** The end of a row of a square scan is the start of the next. */
  lemma SquareScanRow(r0: int, c0: int, row: int)
    requires r0 <= row
    ensures Block(r0, row, c0, c0 + 3) + Block(row, row + 1, c0, c0 + 3) == Block(r0, row + 1, c0, c0 + 3)
    ensures Block(r0, row + 1, c0, c0 + 3) + Block(row + 1, row + 2, c0, c0) == Block(r0, row + 1, c0, c0 + 3)
  {
    SplitRows(r0, row, row + 1, c0, c0 + 3);
  }

  lemma OneCell(r: int, c: int)
    ensures Block(r, r + 1, c, c + 1) == {(r, c)}
  {
  }
}
