/** Phase 1 of the solve: every empty cell receives the values its square is still missing,
    less the single values already in its row and column. */
module BoxFill {
  import opened Candidates

  /** Visit cell (r, c): if it is empty, it becomes `missing` less the row snapshot `rowSingles`
      and less the single values its column holds now. */
  function FillCell(b: Board, r: int, c: int, rowSingles: set<int>, missing: set<int>): (res: Board)
    requires IsGrid(b) && 0 <= r < 9 && 0 <= c < 9
    ensures IsGrid(res) && |res| == |b|
  {
    if |b[r][c]| == 0 then b[r := b[r][c := missing - rowSingles - ColumnSingles(b, c)]] else b
  }

  /** The board once the first n cells of row r inside square column sc have been visited. */
  function FillRowPrefix(b: Board, r: int, sc: int, n: int, rowSingles: set<int>, missing: set<int>): (res: Board)
    requires IsGrid(b) && 0 <= r < 9 && 0 <= sc < 3 && 0 <= n <= 3
    ensures IsGrid(res) && |res| == |b|
  {
    if n == 0 then b
    else FillCell(FillRowPrefix(b, r, sc, n - 1, rowSingles, missing), r, 3 * sc + n - 1, rowSingles, missing)
  }

  /** Visiting cell c of row r after k0 cells of that row; k1 names k0 + 1. */
  lemma FillRowStep(b: Board, r: int, sc: int, c: int, k0: int, k1: int, rowSingles: set<int>, missing: set<int>)
    requires IsGrid(b) && 0 <= r < 9 && 0 <= sc < 3 && 0 <= k0 < 3 && c == 3 * sc + k0 && k1 == k0 + 1
    ensures FillRowPrefix(b, r, sc, k1, rowSingles, missing) ==
      FillCell(FillRowPrefix(b, r, sc, k0, rowSingles, missing), r, c, rowSingles, missing)
  {
  }

  /** Visiting cell (r, c), the next cell of a row of a square, after k0 cells of that row, when
      it is empty: it receives `missing` less the row snapshot and less the single values its column
      holds now. */
  lemma FillRowEmpty(b: Board, r: int, sc: int, c: int, k0: int, k1: int, rowSingles: set<int>, missing: set<int>,
                     cur: Board, columnSingles: set<int>, guesses: set<int>)
    requires IsGrid(b) && 0 <= r < 9 && 0 <= sc < 3 && 0 <= k0 < 3 && c == 3 * sc + k0 && k1 == k0 + 1
    requires cur == FillRowPrefix(b, r, sc, k0, rowSingles, missing)
    requires columnSingles == ColumnSingles(cur, c)
    requires |cur[r][c]| == 0 && guesses == missing - rowSingles - columnSingles
    ensures cur[r := cur[r][c := guesses]] == FillRowPrefix(b, r, sc, k1, rowSingles, missing)
  {
  }

  /** Visiting a cell that is not empty leaves the board as it is. */
  lemma FillRowKept(b: Board, r: int, sc: int, c: int, k0: int, k1: int, rowSingles: set<int>, missing: set<int>,
                    cur: Board)
    requires IsGrid(b) && 0 <= r < 9 && 0 <= sc < 3 && 0 <= k0 < 3 && c == 3 * sc + k0 && k1 == k0 + 1
    requires cur == FillRowPrefix(b, r, sc, k0, rowSingles, missing)
    requires |cur[r][c]| != 0
    ensures cur == FillRowPrefix(b, r, sc, k1, rowSingles, missing)
  {
  }

  /** The board once the first n rows of square (sr, sc) have been visited. Each row takes its
      snapshot of row singles before any of its cells is filled. */
  function FillSquarePrefix(b: Board, sr: int, sc: int, n: int, missing: set<int>): (res: Board)
    requires IsGrid(b) && 0 <= sr < 3 && 0 <= sc < 3 && 0 <= n <= 3
    ensures IsGrid(res) && |res| == |b|
  {
    if n == 0 then b
    else
      var prev := FillSquarePrefix(b, sr, sc, n - 1, missing);
      var r := 3 * sr + n - 1;
      FillRowPrefix(prev, r, sc, SquareSize, RowSingles(prev, r), missing)
  }

  /** Filling row r, one more row of a square after n0 rows: the row's single values are read
      once, before any of its cells is filled. */
  lemma FillSquareNext(b: Board, sr: int, sc: int, r: int, n0: int, n1: int, missing: set<int>,
                       rowStart: Board, rowSingles: set<int>, k: int, rowEnd: Board)
    requires IsGrid(b) && 0 <= sr < 3 && 0 <= sc < 3 && 0 <= n0 < 3 && r == 3 * sr + n0 && n1 == n0 + 1
    requires rowStart == FillSquarePrefix(b, sr, sc, n0, missing)
    requires rowSingles == RowSingles(rowStart, r) && k == SquareSize
    requires rowEnd == FillRowPrefix(rowStart, r, sc, k, rowSingles, missing)
    ensures rowEnd == FillSquarePrefix(b, sr, sc, n1, missing)
  {
  }

  function FillSquare(b: Board, sr: int, sc: int, missing: set<int>): Board
    requires IsGrid(b) && 0 <= sr < 3 && 0 <= sc < 3
  {
    FillSquarePrefix(b, sr, sc, SquareSize, missing)
  }

  /** The board once the first k squares, in row-major square order, have been filled with the
      values each is missing at the moment it is reached. */
  function FillSquaresPrefix(b: Board, k: int): (res: Board)
    requires IsGrid(b) && 0 <= k <= 9
    ensures IsGrid(res) && |res| == |b|
  {
    if k == 0 then b
    else
      var prev := FillSquaresPrefix(b, k - 1);
      var sr, sc := (k - 1) / 3, (k - 1) % 3;
      FillSquarePrefix(prev, sr, sc, SquareSize, MissingValues(SquareSingles(prev, sr, sc)))
  }

  /** Whether one of the cells c0 .. c1-1 of a row has no candidate. */
  predicate EmptyInRow(cells: seq<Cell>, c0: int, c1: int)
    requires 0 <= c0 <= c1 <= |cells|
    decreases c1 - c0
  {
    c0 < c1 && (|cells[c1 - 1]| == 0 || EmptyInRow(cells, c0, c1 - 1))
  }

  /** A flag that records whether cells c0 .. c-1 of a row were empty, updated for cell c, records
      whether cells c0 .. c were; c1 names c + 1. */
  lemma EmptyInRowStep(cells: seq<Cell>, c0: int, c: int, c1: int, before: bool, after: bool)
    requires 0 <= c0 <= c < |cells| && c1 == c + 1
    requires before <==> EmptyInRow(cells, c0, c)
    requires after <==> before || |cells[c]| == 0
    ensures after <==> EmptyInRow(cells, c0, c1)
  {
  }

  /** Whether a cell of rows r0 .. r1-1, columns c0 .. c1-1, has no candidate. */
  predicate EmptyInRows(b: Board, r0: int, r1: int, c0: int, c1: int)
    requires IsGrid(b) && 0 <= r0 <= r1 <= 9 && 0 <= c0 <= c1 <= 9
    decreases r1 - r0
  {
    r0 < r1 && (EmptyInRow(b[r1 - 1], c0, c1) || EmptyInRows(b, r0, r1 - 1, c0, c1))
  }

  lemma {:induction false} EmptyInRowMeans(cells: seq<Cell>, c0: int, c1: int)
    requires 0 <= c0 <= c1 <= |cells|
    ensures EmptyInRow(cells, c0, c1) <==> exists j :: c0 <= j < c1 && cells[j] == {}
    decreases c1 - c0
  {
    if c0 < c1 {
      EmptyInRowMeans(cells, c0, c1 - 1);
      if cells[c1 - 1] != {} {
        assert (exists j :: c0 <= j < c1 && cells[j] == {}) ==> exists j :: c0 <= j < c1 - 1 && cells[j] == {};
      }
    }
  }

  lemma {:induction false} EmptyInRowsMeans(b: Board, r0: int, r1: int, c0: int, c1: int)
    requires IsGrid(b) && 0 <= r0 <= r1 <= 9 && 0 <= c0 <= c1 <= 9
    ensures EmptyInRows(b, r0, r1, c0, c1) <==> exists i, j :: r0 <= i < r1 && c0 <= j < c1 && b[i][j] == {}
    decreases r1 - r0
  {
    if r0 < r1 {
      EmptyInRowsMeans(b, r0, r1 - 1, c0, c1);
      EmptyInRowMeans(b[r1 - 1], c0, c1);
      if exists i, j :: r0 <= i < r1 && c0 <= j < c1 && b[i][j] == {} {
        var i, j :| r0 <= i < r1 && c0 <= j < c1 && b[i][j] == {};
        if i < r1 - 1 {
          assert r0 <= i < r1 - 1 && c0 <= j < c1 && b[i][j] == {};
        } else {
          assert c0 <= j < c1 && b[r1 - 1][j] == {};
        }
      }
    }
  }

  /** Filling square (sr, sc) is step k1 = 3*sr+sc+1 of phase 1, after k0 = 3*sr+sc squares. */
  lemma FillSquaresStep(b: Board, sr: int, sc: int, k0: int, k1: int)
    requires IsGrid(b) && 0 <= sr < 3 && 0 <= sc < 3 && k0 == 3 * sr + sc && k1 == k0 + 1
    ensures FillSquaresPrefix(b, k1) ==
      FillSquare(FillSquaresPrefix(b, k0), sr, sc, MissingValues(SquareSingles(FillSquaresPrefix(b, k0), sr, sc)))
  {
    assert k0 / 3 == sr && k0 % 3 == sc;
  }

  /** The whole of phase 1. */
  function FillSquares(b: Board): (res: Board)
    requires IsGrid(b)
    ensures IsGrid(res) && |res| == |b|
  {
    FillSquaresPrefix(b, Size)
  }

  // ---------------------------------------------------------------------------------------------

  /** Visiting cells of one row of a square changes only those of its cells that were empty. */
  lemma {:induction false} FillRowPrefixFrame(b: Board, r: int, sc: int, n: int, rowSingles: set<int>, missing: set<int>)
    requires IsGrid(b) && 0 <= r < 9 && 0 <= sc < 3 && 0 <= n <= 3
    ensures var res := FillRowPrefix(b, r, sc, n, rowSingles, missing);
      forall i, j :: 0 <= i < |b| && 0 <= j < 9 && (i != r || !(3 * sc <= j < 3 * sc + n) || b[i][j] != {}) ==>
        res[i][j] == b[i][j]
    ensures var res := FillRowPrefix(b, r, sc, n, rowSingles, missing);
      forall i, j :: 0 <= i < |b| && 0 <= j < 9 && i != r ==> res[i][j] == b[i][j]
  {
    if n > 0 {
      var prev := FillRowPrefix(b, r, sc, n - 1, rowSingles, missing);
      FillRowPrefixFrame(b, r, sc, n - 1, rowSingles, missing);
      var c := 3 * sc + n - 1;
      FillRowStep(b, r, sc, c, n - 1, n, rowSingles, missing);
      if |prev[r][c]| == 0 {
        SetCell(prev, r, c, missing - rowSingles - ColumnSingles(prev, c));
      }
    }
  }

  /** Within one row of a square, the column singles each filled cell loses are those of the board
      as it was when the row started: filling a cell changes no other column. */
  lemma {:induction false} FillRowPrefixFilled(b: Board, r: int, sc: int, n: int, rowSingles: set<int>, missing: set<int>)
    requires IsGrid(b) && 0 <= r < 9 && 0 <= sc < 3 && 0 <= n <= 3
    ensures var res := FillRowPrefix(b, r, sc, n, rowSingles, missing);
      forall j :: 3 * sc <= j < 3 * sc + n && b[r][j] == {} ==>
        res[r][j] == missing - rowSingles - ColumnSingles(b, j)
  {
    if n > 0 {
      var prev := FillRowPrefix(b, r, sc, n - 1, rowSingles, missing);
      FillRowPrefixFilled(b, r, sc, n - 1, rowSingles, missing);
      FillRowPrefixFrame(b, r, sc, n - 1, rowSingles, missing);
      var c := 3 * sc + n - 1;
      FillRowStep(b, r, sc, c, n - 1, n, rowSingles, missing);
      var res := FillRowPrefix(b, r, sc, n, rowSingles, missing);
      if |prev[r][c]| == 0 {
        SetCell(prev, r, c, missing - rowSingles - ColumnSingles(prev, c));
        BlockBounds(0, 9, c, c + 1);
        forall p | p in Column(c) ensures prev[p.0][p.1] == b[p.0][p.1] {
          assert p.1 == c;
        }
        SinglesFrame(prev, b, Column(c));
      }
      forall j | 3 * sc <= j < 3 * sc + n && b[r][j] == {}
        ensures res[r][j] == missing - rowSingles - ColumnSingles(b, j)
      {
        if j < c {
          assert res[r][j] == prev[r][j];
        }
      }
    }
  }

  /** Both of the above. */
  lemma FillRowPrefixEffect(b: Board, r: int, sc: int, n: int, rowSingles: set<int>, missing: set<int>)
    requires IsGrid(b) && 0 <= r < 9 && 0 <= sc < 3 && 0 <= n <= 3
    ensures var res := FillRowPrefix(b, r, sc, n, rowSingles, missing);
      forall i, j :: 0 <= i < |b| && 0 <= j < 9 && (i != r || !(3 * sc <= j < 3 * sc + n) || b[i][j] != {}) ==>
        res[i][j] == b[i][j]
    ensures var res := FillRowPrefix(b, r, sc, n, rowSingles, missing);
      forall i, j :: 0 <= i < |b| && 0 <= j < 9 && i != r ==> res[i][j] == b[i][j]
    ensures var res := FillRowPrefix(b, r, sc, n, rowSingles, missing);
      forall j :: 3 * sc <= j < 3 * sc + n && b[r][j] == {} ==>
        res[r][j] == missing - rowSingles - ColumnSingles(b, j)
  {
    FillRowPrefixFrame(b, r, sc, n, rowSingles, missing);
    FillRowPrefixFilled(b, r, sc, n, rowSingles, missing);
  }

  /** Writing x into cell (r, c) changes that cell and nothing else. */
  lemma SetCell(b: Board, r: int, c: int, x: Cell)
    requires IsGrid(b) && 0 <= r < 9 && 0 <= c < 9
    ensures var res := b[r := b[r][c := x]];
      res[r][c] == x && forall i, j :: 0 <= i < |b| && 0 <= j < 9 && (i != r || j != c) ==> res[i][j] == b[i][j]
  {
  }

  /** Filling square (sr, sc) row by row changes only its cells that were empty. */
  lemma {:induction false} FillSquarePrefixFrame(b: Board, sr: int, sc: int, n: int, missing: set<int>)
    requires IsGrid(b) && 0 <= sr < 3 && 0 <= sc < 3 && 0 <= n <= 3
    ensures var res := FillSquarePrefix(b, sr, sc, n, missing);
      forall i, j :: 0 <= i < |b| && 0 <= j < 9 && (!(3 * sr <= i < 3 * sr + n) || !(3 * sc <= j < 3 * sc + 3) || b[i][j] != {}) ==>
        res[i][j] == b[i][j]
    ensures var res := FillSquarePrefix(b, sr, sc, n, missing);
      forall i, j :: 0 <= i < |b| && 0 <= j < 9 && i >= 3 * sr + n ==> res[i][j] == b[i][j]
  {
    if n > 0 {
      var prev := FillSquarePrefix(b, sr, sc, n - 1, missing);
      FillSquarePrefixFrame(b, sr, sc, n - 1, missing);
      var r := 3 * sr + n - 1;
      var res := FillRowPrefix(prev, r, sc, SquareSize, RowSingles(prev, r), missing);
      FillSquareNext(b, sr, sc, r, n - 1, n, missing, prev, RowSingles(prev, r), SquareSize, res);
      FillRowPrefixFrame(prev, r, sc, SquareSize, RowSingles(prev, r), missing);
    }
  }

  /** What filling square (sr, sc) does to a cell (i, j) of it that was empty: it becomes
      `missing` less the single values row i had before the fill started (the snapshot cannot see
      cells of row i filled earlier in the same row), less the single values of column j as they
      stand when (i, j) is reached: filled values in the rows above i, original values from row i
      down. */
  lemma {:induction false} FillSquarePrefixCell(b: Board, sr: int, sc: int, n: int, missing: set<int>, i: int, j: int)
    requires IsGrid(b) && 0 <= sr < 3 && 0 <= sc < 3 && 0 <= n <= 3
    requires 3 * sr <= i < 3 * sr + n && 3 * sc <= j < 3 * sc + 3 && b[i][j] == {}
    ensures var res := FillSquarePrefix(b, sr, sc, n, missing);
      res[i][j] == missing - RowSingles(b, i) - (Singles(res, Block(0, i, j, j + 1)) + Singles(b, Block(i, 9, j, j + 1)))
  {
    var prev := FillSquarePrefix(b, sr, sc, n - 1, missing);
    FillSquarePrefixFrame(b, sr, sc, n - 1, missing);
    var r := 3 * sr + n - 1;
    var res := FillRowPrefix(prev, r, sc, SquareSize, RowSingles(prev, r), missing);
    FillSquareNext(b, sr, sc, r, n - 1, n, missing, prev, RowSingles(prev, r), SquareSize, res);
    FillRowPrefixEffect(prev, r, sc, SquareSize, RowSingles(prev, r), missing);
    if i < r {
      FillSquarePrefixCell(b, sr, sc, n - 1, missing, i, j);
      EarlierRowCell(prev, res, r, i, j);
    } else {
      CurrentRowCell(b, prev, res, r, j, missing);
    }
  }

  /** A row of the square that the fill has not reached yet still holds its original content. */
  lemma FillRowNotYetVisited(b: Board, sr: int, sc: int, r: int, n: int, missing: set<int>, rowStart: Board)
    requires IsGrid(b) && 0 <= sr < 3 && 0 <= sc < 3 && 0 <= n < 3 && r == 3 * sr + n
    requires rowStart == FillSquarePrefix(b, sr, sc, n, missing)
    ensures rowStart[r] == b[r]
  {
    FillSquarePrefixFrame(b, sr, sc, n, missing);
    assert rowStart[r] == b[r];
  }

  /** Cell (r, c) is still as it was until the visit of row r reaches it. */
  lemma FillNotYetVisited(b: Board, r: int, sc: int, c: int, k: int, rowSingles: set<int>, missing: set<int>, cur: Board)
    requires IsGrid(b) && 0 <= r < 9 && 0 <= sc < 3 && 0 <= k < 3 && c == 3 * sc + k
    requires cur == FillRowPrefix(b, r, sc, k, rowSingles, missing)
    ensures cur[r][c] == b[r][c]
  {
    FillRowPrefixFrame(b, r, sc, k, rowSingles, missing);
  }

  /** Filling row r leaves the column singles above row i < r as they were. */
  lemma EarlierRowCell(prev: Board, res: Board, r: int, i: int, j: int)
    requires IsGrid(prev) && IsGrid(res) && |res| == |prev| && 0 <= i < r < 9 && 0 <= j < 9
    requires forall i', j' :: 0 <= i' < |prev| && 0 <= j' < 9 && i' != r ==> res[i'][j'] == prev[i'][j']
    ensures res[i][j] == prev[i][j]
    ensures Singles(res, Block(0, i, j, j + 1)) == Singles(prev, Block(0, i, j, j + 1))
  {
    BlockBounds(0, i, j, j + 1);
    SinglesFrame(prev, res, Block(0, i, j, j + 1));
  }

  /** The cell (r, j) filled while row r is visited: its row snapshot is row r as it was before
      the square was started, and its column reads as the rows above r already filled and the rows
      from r down as they were before the square was started. */
  lemma CurrentRowCell(b: Board, prev: Board, res: Board, r: int, j: int, missing: set<int>)
    requires IsGrid(b) && IsGrid(prev) && IsGrid(res) && |prev| == |b| && |res| == |b|
    requires 0 <= r < 9 && 0 <= j < 9
    requires res[r][j] == missing - RowSingles(prev, r) - ColumnSingles(prev, j)
    requires forall i', j' :: 0 <= i' < |prev| && 0 <= j' < 9 && i' != r ==> res[i'][j'] == prev[i'][j']
    requires forall i', j' :: 0 <= i' < |prev| && 0 <= j' < 9 && i' >= r ==> prev[i'][j'] == b[i'][j']
    ensures res[r][j] == missing - RowSingles(b, r) - (Singles(res, Block(0, r, j, j + 1)) + Singles(b, Block(r, 9, j, j + 1)))
  {
    BlockBounds(r, r + 1, 0, 9);
    SinglesFrame(prev, b, Row(r));
    BlockBounds(0, r, j, j + 1);
    BlockBounds(r, 9, j, j + 1);
    SplitRows(0, r, 9, j, j + 1);
    SinglesUnion(prev, Block(0, r, j, j + 1), Block(r, 9, j, j + 1));
    SinglesFrame(prev, res, Block(0, r, j, j + 1));
    SinglesFrame(prev, b, Block(r, 9, j, j + 1));
  }

  /** Filling square (sr, sc) with `missing`: every cell outside the square, and every cell of it
      that was not empty, is left as it was; a cell (i, j) of the square that was empty becomes
      `missing` less the single values of row i as they were before the fill (a stale snapshot)
      less the single values of column j when (i, j) is reached (filled values above row i,
      original values from row i down). */
  lemma FillSquareEffect(b: Board, sr: int, sc: int, missing: set<int>)
    requires IsGrid(b) && 0 <= sr < 3 && 0 <= sc < 3
    ensures var res := FillSquare(b, sr, sc, missing);
      forall i, j :: 0 <= i < |b| && 0 <= j < 9 && ((i, j) !in Square(sr, sc) || b[i][j] != {}) ==>
        res[i][j] == b[i][j]
    ensures var res := FillSquare(b, sr, sc, missing);
      forall i, j :: (i, j) in Square(sr, sc) && b[i][j] == {} ==>
        res[i][j] == missing - RowSingles(b, i) - (Singles(res, Block(0, i, j, j + 1)) + Singles(b, Block(i, 9, j, j + 1)))
  {
    FillSquarePrefixFrame(b, sr, sc, SquareSize, missing);
    forall i, j | (i, j) in Square(sr, sc) && b[i][j] == {}
      ensures var res := FillSquare(b, sr, sc, missing);
        res[i][j] == missing - RowSingles(b, i) - (Singles(res, Block(0, i, j, j + 1)) + Singles(b, Block(i, 9, j, j + 1)))
    {
      FillSquarePrefixCell(b, sr, sc, SquareSize, missing, i, j);
    }
  }

  /** Filling a square leaves a non-empty cell as it was and gives an empty one a subset of `missing`. */
  lemma FillSquareCell(b: Board, sr: int, sc: int, missing: set<int>, i: int, j: int)
    requires IsGrid(b) && 0 <= sr < 3 && 0 <= sc < 3 && 0 <= i < |b| && 0 <= j < 9
    ensures b[i][j] != {} ==> FillSquare(b, sr, sc, missing)[i][j] == b[i][j]
    ensures b[i][j] == {} ==> FillSquare(b, sr, sc, missing)[i][j] <= missing
  {
    FillSquarePrefixFrame(b, sr, sc, SquareSize, missing);
    if (i, j) in Square(sr, sc) && b[i][j] == {} {
      FillSquarePrefixCell(b, sr, sc, SquareSize, missing, i, j);
    }
  }

  /** Phase 1 leaves every non-empty cell as it was and gives every empty cell a subset of 1..9. */
  lemma {:induction false} FillSquaresPrefixCell(b: Board, k: int, i: int, j: int)
    requires IsGrid(b) && 0 <= k <= 9 && 0 <= i < |b| && 0 <= j < 9
    ensures b[i][j] != {} ==> FillSquaresPrefix(b, k)[i][j] == b[i][j]
    ensures b[i][j] == {} ==> FillSquaresPrefix(b, k)[i][j] <= Digits
  {
    if k > 0 {
      FillSquaresPrefixCell(b, k - 1, i, j);
      var prev := FillSquaresPrefix(b, k - 1);
      var sr := if k - 1 < 3 then 0 else if k - 1 < 6 then 1 else 2;
      var sc := k - 1 - 3 * sr;
      var missing := MissingValues(SquareSingles(prev, sr, sc));
      FillSquaresStep(b, sr, sc, k - 1, k);
      FillSquareCell(prev, sr, sc, missing, i, j);
      var cell := FillSquare(prev, sr, sc, missing)[i][j];
      assert FillSquaresPrefix(b, k)[i][j] == cell;
      if b[i][j] != {} {
        assert cell == prev[i][j] == b[i][j];
      } else if prev[i][j] == {} {
        assert cell <= missing <= Digits;
      } else {
        assert cell == prev[i][j] <= Digits;
      }
    }
  }
}
