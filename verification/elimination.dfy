/** Phase 2 of the solve: passes that strip from every multi-candidate cell the single values of
    its row, column and square, repeated while the pass's column-0 scan removed something. */
module Elimination {
  import opened Candidates

  /** The row, column and square that cell (r, c) shares constraints with. */
  function Peers(r: int, c: int): set<Pos> {
    Row(r) + Column(c) + Square(SquareIndex(r), SquareIndex(c))
  }

  /** One visit of cell (r, c): a cell with more than one candidate loses the single values of its
      row, its column and its square; any other cell is left alone. */
  function Eliminate(b: Board, r: int, c: int): (res: Board)
    requires IsGrid(b) && 0 <= r < 9 && 0 <= c < 9
    ensures IsGrid(res) && |res| == |b|
  {
    if |b[r][c]| > 1 then
      b[r := b[r][c := b[r][c] - RowSingles(b, r) - ColumnSingles(b, c) - SquareSingles(b, SquareIndex(r), SquareIndex(c))]]
    else b
  }

  /** The board after rows 0 .. n-1 of column c have been visited, top to bottom. */
  function ScanColumnPrefix(b: Board, c: int, n: int): (res: Board)
    requires IsGrid(b) && 0 <= c < 9 && 0 <= n <= 9
    ensures IsGrid(res) && |res| == |b|
  {
    if n == 0 then b else Eliminate(ScanColumnPrefix(b, c, n - 1), n - 1, c)
  }

  function ScanColumn(b: Board, c: int): Board
    requires IsGrid(b) && 0 <= c < 9
  {
    ScanColumnPrefix(b, c, Size)
  }

  /** The board after columns 0 .. n-1 have been scanned, left to right. */
  function PassPrefix(b: Board, n: int): (res: Board)
    requires IsGrid(b) && 0 <= n <= 9
    ensures IsGrid(res) && |res| == |b|
  {
    if n == 0 then b else ScanColumn(PassPrefix(b, n - 1), n - 1)
  }

  /** Visiting row n of column c after rows 0 .. n-1; n1 names n + 1. */
  lemma ScanColumnStep(b: Board, c: int, n: int, n1: int)
    requires IsGrid(b) && 0 <= c < 9 && 0 <= n < 9 && n1 == n + 1
    ensures ScanColumnPrefix(b, c, n1) == Eliminate(ScanColumnPrefix(b, c, n), n, c)
  {
  }

  /** Scanning column n after columns 0 .. n-1; n1 names n + 1. */
  lemma PassStep(b: Board, n: int, n1: int, k: int)
    requires IsGrid(b) && 0 <= n < 9 && n1 == n + 1 && k == Size
    ensures PassPrefix(b, n1) == ScanColumnPrefix(PassPrefix(b, n), n, k)
  {
  }

  /** One pass over the grid, column by column. Each visit sees the effect of earlier visits. */
  function Pass(b: Board): (res: Board)
    requires IsGrid(b)
    ensures IsGrid(res) && |res| == |b|
  {
    PassPrefix(b, Size)
  }

  // ---------------------------------------------------------------------------------------------
  // Counting candidates

  /** Total number of candidates in a list of cells. */
  function CellsCount(cells: seq<Cell>): nat {
    if |cells| == 0 then 0 else CellsCount(cells[..|cells| - 1]) + |cells[|cells| - 1]|
  }

  /** Total number of candidates in rows 0 .. n-1. */
  function RowsCount(b: Board, n: int): nat
    requires 0 <= n <= |b|
  {
    if n == 0 then 0 else RowsCount(b, n - 1) + CellsCount(b[n - 1])
  }

  /** Total number of candidates in the 9x9 grid. */
  function Count(b: Board): nat
    requires |b| >= 9
  {
    RowsCount(b, Size)
  }

  /** Does the column-0 scan at the start of a pass remove any candidate? This alone decides whether
      another pass follows. */
  predicate Column0Removes(b: Board)
    requires IsGrid(b)
  {
    Count(ScanColumn(b, 0)) < Count(b)
  }

  /** Phase 2: a pass, then another one exactly when that pass's column-0 scan removed something. */
  function Propagate(b: Board): (res: Board)
    requires IsGrid(b)
    ensures IsGrid(res) && |res| == |b|
    decreases Count(b)
  {
    if Column0Removes(b) then
      PassProgress(b);
      Propagate(Pass(b))
    else
      Pass(b)
  }

  /** The number of passes phase 2 makes. */
  function Passes(b: Board): nat
    requires IsGrid(b)
    decreases Count(b)
  {
    if Column0Removes(b) then
      PassProgress(b);
      1 + Passes(Pass(b))
    else
      1
  }

  // ---------------------------------------------------------------------------------------------
  // Shrinking

  /** `b'` is `b` with some candidates removed from cells that held more than one: no cell grows, a
      cell with at most one candidate keeps exactly what it had, and the rows beyond the 9x9 grid are
      untouched. */
  predicate Shrinks(b: Board, b': Board) {
    IsGrid(b) && IsGrid(b') && |b'| == |b| &&
    (forall i, j :: 0 <= i < |b| && 0 <= j < 9 ==>
      b'[i][j] <= b[i][j] && (|b[i][j]| <= 1 ==> b'[i][j] == b[i][j])) &&
    (forall i :: 9 <= i < |b| ==> b'[i] == b[i])
  }

  lemma ShrinksTrans(b: Board, b': Board, b'': Board)
    requires Shrinks(b, b') && Shrinks(b', b'')
    ensures Shrinks(b, b'')
  {
    forall i, j | 0 <= i < |b| && 0 <= j < 9 && |b[i][j]| <= 1
      ensures b''[i][j] == b[i][j]
    {
      assert b'[i][j] == b[i][j];
    }
  }

  lemma {:induction false} CellsCountUpdate(cells: seq<Cell>, c: int, x: Cell)
    requires 0 <= c < |cells|
    ensures CellsCount(cells[c := x]) + |cells[c]| == CellsCount(cells) + |x|
  {
    var n := |cells|;
    if c == n - 1 {
      assert cells[c := x][..n - 1] == cells[..n - 1];
    } else {
      assert cells[c := x][..n - 1] == cells[..n - 1][c := x];
      CellsCountUpdate(cells[..n - 1], c, x);
    }
  }

  lemma {:induction false} RowsCountUpdate(b: Board, n: int, r: int, c: int, x: Cell)
    requires 0 <= n <= |b| && 0 <= r < |b| && 0 <= c < |b[r]|
    ensures var b' := b[r := b[r][c := x]];
      RowsCount(b', n) + (if r < n then |b[r][c]| else 0) == RowsCount(b, n) + (if r < n then |x| else 0)
  {
    if n > 0 {
      RowsCountUpdate(b, n - 1, r, c, x);
      if r == n - 1 {
        CellsCountUpdate(b[r], c, x);
      }
    }
  }

  /** Replacing one cell of the grid changes the count by the difference in sizes. */
  lemma CountUpdate(b: Board, r: int, c: int, x: Cell)
    requires IsGrid(b) && 0 <= r < 9 && 0 <= c < 9
    ensures Count(b[r := b[r][c := x]]) + |b[r][c]| == Count(b) + |x|
  {
    RowsCountUpdate(b, Size, r, c, x);
  }

  lemma SubsetSize(x: set<int>, y: set<int>)
    requires x <= y
    ensures |x| <= |y|
    ensures |x| == |y| ==> x == y
  {
    assert y == x + (y - x);
    assert |y| == |x| + |y - x|;
  }

  /** Writing into a grid cell a subset of what it held, and the same content if it held at most
      one candidate, keeps the keep-or-shrink relation, touches no other cell, never adds to the
      count, and lowers it exactly when the content changes. */
  lemma ShrinkCell(b: Board, r: int, c: int, x: Cell)
    requires IsGrid(b) && 0 <= r < 9 && 0 <= c < 9
    requires x <= b[r][c] && (|b[r][c]| <= 1 ==> x == b[r][c])
    ensures var res := b[r := b[r][c := x]];
      Shrinks(b, res) &&
      (forall i, j :: 0 <= i < |b| && 0 <= j < 9 && (i, j) != (r, c) ==> res[i][j] == b[i][j]) &&
      Count(res) <= Count(b) &&
      (Count(res) < Count(b) <==> x != b[r][c])
  {
    CountUpdate(b, r, c, x);
    SubsetSize(x, b[r][c]);
  }

  /** Writing back what a cell already holds leaves the grid as it was. */
  lemma WriteSame(b: Board, r: int, c: int)
    requires 0 <= r < |b| && 0 <= c < |b[r]|
    ensures b[r := b[r][c := b[r][c]]] == b
  {
    assert b[r][c := b[r][c]] == b[r];
  }

  /** One visit keeps the keep-or-shrink relation, touches only cell (r, c), never adds to the
      count, and lowers it exactly when it changes the cell. */
  lemma EliminateEffect(b: Board, r: int, c: int)
    requires IsGrid(b) && 0 <= r < 9 && 0 <= c < 9
    ensures var res := Eliminate(b, r, c);
      Shrinks(b, res) &&
      (forall i, j :: 0 <= i < |b| && 0 <= j < 9 && (i, j) != (r, c) ==> res[i][j] == b[i][j]) &&
      Count(res) <= Count(b) &&
      (Count(res) < Count(b) <==> res[r][c] != b[r][c])
  {
    if |b[r][c]| > 1 {
      var x := b[r][c] - RowSingles(b, r) - ColumnSingles(b, c) - SquareSingles(b, SquareIndex(r), SquareIndex(c));
      ShrinkCell(b, r, c, x);
    } else {
      WriteSame(b, r, c);
      ShrinkCell(b, r, c, b[r][c]);
    }
  }

  /** Removing three sets one after the other changes a set exactly when one of the removals does. */
  lemma RemoveInTurn(cell: set<int>, a: set<int>, b: set<int>, c: set<int>)
    ensures (cell - a != cell || cell - a - b != cell - a || cell - a - b - c != cell - a - b) <==> cell - a - b - c != cell
  {
    var x, y, z := cell - a, cell - a - b, cell - a - b - c;
    assert z <= y <= x <= cell;
    if z == cell {
      assert cell <= z;
      assert x == cell && y == x && z == y;
    }
  }

  /** Eliminate given the three single-value sets: the board is written only when the cell loses a value. */
  lemma EliminateWith(b: Board, r: int, c: int, rs: set<int>, cs: set<int>, ss: set<int>)
    requires IsGrid(b) && 0 <= r < 9 && 0 <= c < 9
    requires rs == RowSingles(b, r) && cs == ColumnSingles(b, c)
    requires ss == SquareSingles(b, SquareIndex(r), SquareIndex(c))
    ensures |b[r][c]| > 1 && b[r][c] - rs - cs - ss != b[r][c] ==> Eliminate(b, r, c) == b[r := b[r][c := b[r][c] - rs - cs - ss]]
    ensures !(|b[r][c]| > 1 && b[r][c] - rs - cs - ss != b[r][c]) ==> Eliminate(b, r, c) == b
  {
    if |b[r][c]| > 1 && b[r][c] - rs - cs - ss == b[r][c] {
      WriteSame(b, r, c);
    }
  }

  /** The counting half of EliminateEffect. */
  lemma EliminateCount(b: Board, r: int, c: int)
    requires IsGrid(b) && 0 <= r < 9 && 0 <= c < 9
    ensures Count(Eliminate(b, r, c)) <= Count(b)
    ensures Count(Eliminate(b, r, c)) < Count(b) <==> Eliminate(b, r, c)[r][c] != b[r][c]
  {
    EliminateEffect(b, r, c);
  }

  /** The single values of a cell's row, column and square are the single values of its peers. */
  lemma PeerSingles(b: Board, r: int, c: int)
    requires IsGrid(b) && 0 <= r < 9 && 0 <= c < 9
    ensures InBounds(Peers(r, c))
    ensures RowSingles(b, r) + ColumnSingles(b, c) + SquareSingles(b, SquareIndex(r), SquareIndex(c)) == Singles(b, Peers(r, c))
  {
    SquareOfCell(r, c);
    var sr, sc := SquareIndex(r), SquareIndex(c);
    BlockBounds(r, r + 1, 0, 9);
    BlockBounds(0, 9, c, c + 1);
    BlockBounds(3 * sr, 3 * sr + 3, 3 * sc, 3 * sc + 3);
    SinglesUnion(b, Row(r), Column(c));
    SinglesUnion(b, Row(r) + Column(c), Square(sr, sc));
  }

  /** A value stays in a visited multi-candidate cell exactly when it was there and no cell of the
      same row, column or square holds that value alone. */
  lemma EliminateKeeps(b: Board, r: int, c: int, v: int)
    requires IsGrid(b) && 0 <= r < 9 && 0 <= c < 9 && |b[r][c]| > 1
    ensures v in Eliminate(b, r, c)[r][c] <==> v in b[r][c] && !exists p :: p in Peers(r, c) && b[p.0][p.1] == {v}
  {
    PeerSingles(b, r, c);
    SinglesMember(b, Peers(r, c), v);
  }

  lemma {:induction false} ScanColumnPrefixEffect(b: Board, c: int, n: int)
    requires IsGrid(b) && 0 <= c < 9 && 0 <= n <= 9
    ensures var res := ScanColumnPrefix(b, c, n);
      Shrinks(b, res) && Count(res) <= Count(b)
  {
    if n > 0 {
      ScanColumnPrefixEffect(b, c, n - 1);
      var prev := ScanColumnPrefix(b, c, n - 1);
      EliminateEffect(prev, n - 1, c);
      ShrinksTrans(b, prev, ScanColumnPrefix(b, c, n));
    }
  }

  lemma {:induction false} PassPrefixEffect(b: Board, n: int)
    requires IsGrid(b) && 0 <= n <= 9
    ensures var res := PassPrefix(b, n);
      Shrinks(b, res) && Count(res) <= Count(b)
  {
    if n > 0 {
      PassPrefixEffect(b, n - 1);
      var prev := PassPrefix(b, n - 1);
      ScanColumnPrefixEffect(prev, n - 1, Size);
      ShrinksTrans(b, prev, PassPrefix(b, n));
    }
  }

  /** Once column 0 has been scanned, the rest of the pass can only lower the count further. */
  lemma {:induction false} PassAfterColumn0(b: Board, n: int)
    requires IsGrid(b) && 1 <= n <= 9
    ensures Count(PassPrefix(b, n)) <= Count(ScanColumn(b, 0))
  {
    if n > 1 {
      PassAfterColumn0(b, n - 1);
      ScanColumnPrefixEffect(PassPrefix(b, n - 1), n - 1, 9);
    }
  }

  /** A pass that is followed by another one removes at least one candidate. */
  lemma PassProgress(b: Board)
    requires IsGrid(b)
    ensures Column0Removes(b) ==> Count(Pass(b)) < Count(b)
  {
    PassAfterColumn0(b, Size);
  }

  /** Phase 2 only removes candidates: no cell grows, and every cell with at most one candidate when
      the phase starts (in particular every given digit) ends with exactly that content. */
  lemma {:induction false} PropagateShrinks(b: Board)
    requires IsGrid(b)
    ensures Shrinks(b, Propagate(b))
    decreases Count(b)
  {
    PassPrefixEffect(b, Size);
    if Column0Removes(b) {
      PassProgress(b);
      PropagateShrinks(Pass(b));
      ShrinksTrans(b, Pass(b), Propagate(Pass(b)));
    }
  }

  /** Every pass but the last removes a candidate, so phase 2 makes at most one pass more than
      there are candidates when it starts. */
  lemma {:induction false} PassesBound(b: Board)
    requires IsGrid(b)
    ensures 1 <= Passes(b) <= Count(b) + 1
    decreases Count(b)
  {
    if Column0Removes(b) {
      PassProgress(b);
      PassesBound(Pass(b));
    }
  }
}
