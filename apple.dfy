/**
 * Apple placement. A cell is a candidate for the apple when its column is
 * used by no body segment OR its row is used by no body segment; candidates
 * are listed column by column, each column from the bottom row up, and the
 * random draw picks one of them by index.
 */
module Apple {
  import opened Grid

  /** Where the first apple goes; the random source is not consulted. */
  function NewApple(): (r: Cell)
    ensures InGrid(r)
    ensures r.col * CellWidth == 200 && r.row * CellHeight == 200
  {
    Cell(10, 10)
  }

  /** Columns (rows) that some body segment occupies. */
  function UsedCols(body: seq<Cell>): set<int> {
    set c | c in body :: c.col
  }

  function UsedRows(body: seq<Cell>): set<int> {
    set c | c in body :: c.row
  }

  /** The test a candidate cell must pass: its column or its row is used
      by no segment. */
  predicate PassesFilter(cols: set<int>, rows: set<int>, c: Cell) {
    c.col !in cols || c.row !in rows
  }

  /** Candidates in column i among rows 0 .. j-1, in row order. */
  function ColumnScan(cols: set<int>, rows: set<int>, i: int, j: nat): seq<Cell> {
    if j == 0 then []
    else ColumnScan(cols, rows, i, j - 1)
         + (if PassesFilter(cols, rows, Cell(i, j - 1)) then [Cell(i, j - 1)] else [])
  }

  /** Candidates in columns 0 .. i-1 of a grid h rows high, column by
      column. */
  function GridScan(cols: set<int>, rows: set<int>, i: nat, h: nat): seq<Cell> {
    if i == 0 then []
    else GridScan(cols, rows, i - 1, h) + ColumnScan(cols, rows, i - 1, h)
  }

  /** The list of candidate apple cells for a snake body. */
  function ValidPositions(body: seq<Cell>): seq<Cell> {
    GridScan(UsedCols(body), UsedRows(body), GridWidth, GridHeight)
  }

  predicate Ordered(s: seq<Cell>) {
    forall a, b :: 0 <= a < b < |s| ==> ColumnMajorBefore(s[a], s[b])
  }

  lemma OrderedConcat(s: seq<Cell>, t: seq<Cell>)
    requires Ordered(s) && Ordered(t)
    requires forall x, y :: x in s && y in t ==> ColumnMajorBefore(x, y)
    ensures Ordered(s + t)
  {
  }

  /** A column scan holds exactly the cells of its column below row j that
      pass the filter, in increasing row order, at most j of them. */
  lemma {:induction false} ColumnScanSpec(cols: set<int>, rows: set<int>, i: int, j: nat)
    ensures forall c :: c in ColumnScan(cols, rows, i, j) <==>
      c.col == i && 0 <= c.row < j && PassesFilter(cols, rows, c)
    ensures Ordered(ColumnScan(cols, rows, i, j))
    ensures |ColumnScan(cols, rows, i, j)| <= j
  {
    if j > 0 {
      ColumnScanSpec(cols, rows, i, j - 1);
      var prev := ColumnScan(cols, rows, i, j - 1);
      var last := if PassesFilter(cols, rows, Cell(i, j - 1)) then [Cell(i, j - 1)] else [];
      OrderedConcat(prev, last);
    }
  }

  /** A grid scan holds exactly the cells of the first i columns that pass
      the filter. */
  lemma {:induction false} GridScanMembers(cols: set<int>, rows: set<int>, i: nat, h: nat)
    ensures forall c :: c in GridScan(cols, rows, i, h) <==>
      0 <= c.col < i && 0 <= c.row < h && PassesFilter(cols, rows, c)
  {
    if i > 0 {
      var prev := GridScan(cols, rows, i - 1, h);
      var column := ColumnScan(cols, rows, i - 1, h);
      GridScanMembers(cols, rows, i - 1, h);
      ColumnScanSpec(cols, rows, i - 1, h);
      forall c: Cell ensures c in prev + column <==> 0 <= c.col < i && 0 <= c.row < h && PassesFilter(cols, rows, c) {
        InConcat(prev, column, c);
      }
    }
  }

  /** Membership in a concatenation. */
  lemma InConcat(s: seq<Cell>, t: seq<Cell>, c: Cell)
    ensures c in s + t <==> c in s || c in t
  {
  }

  /** A grid scan lists its cells in column-major order. */
  lemma {:induction false} GridScanOrdered(cols: set<int>, rows: set<int>, i: nat, h: nat)
    ensures Ordered(GridScan(cols, rows, i, h))
  {
    if i > 0 {
      var prev := GridScan(cols, rows, i - 1, h);
      var column := ColumnScan(cols, rows, i - 1, h);
      GridScanOrdered(cols, rows, i - 1, h);
      GridScanMembers(cols, rows, i - 1, h);
      ColumnScanSpec(cols, rows, i - 1, h);
      forall x, y | x in prev && y in column ensures ColumnMajorBefore(x, y) {
        assert x.col < i - 1;
        assert y.col == i - 1;
      }
      OrderedConcat(prev, column);
    }
  }

  /** A grid scan holds at most h cells per column. */
  lemma {:induction false} GridScanLength(cols: set<int>, rows: set<int>, i: nat, h: nat)
    ensures |GridScan(cols, rows, i, h)| <= h * i
  {
    if i > 0 {
      GridScanLength(cols, rows, i - 1, h);
      ColumnScanSpec(cols, rows, i - 1, h);
      assert h * i == h * (i - 1) + h;
    }
  }

  /** A cell is a candidate exactly when it is on the board and its column
      or its row is clear of the snake. */
  lemma ValidPositionsMembers(body: seq<Cell>, c: Cell)
    ensures c in ValidPositions(body) <==>
      InGrid(c) && (c.col !in UsedCols(body) || c.row !in UsedRows(body))
  {
    GridScanMembers(UsedCols(body), UsedRows(body), GridWidth, GridHeight);
  }

  /** No candidate lies on the snake. */
  lemma ValidPositionsAvoidSnake(body: seq<Cell>, c: Cell)
    requires c in ValidPositions(body)
    ensures c !in body && InGrid(c)
  {
    ValidPositionsMembers(body, c);
  }

  /** Candidates are listed once each, in column-major order, and there are
      at most as many as cells on the board. */
  lemma ValidPositionsOrdered(body: seq<Cell>)
    ensures forall a, b :: 0 <= a < b < |ValidPositions(body)| ==>
      ColumnMajorBefore(ValidPositions(body)[a], ValidPositions(body)[b])
    ensures forall a, b :: 0 <= a < b < |ValidPositions(body)| ==>
      ValidPositions(body)[a] != ValidPositions(body)[b]
    ensures |ValidPositions(body)| <= GridWidth * GridHeight
  {
    GridScanOrdered(UsedCols(body), UsedRows(body), GridWidth, GridHeight);
    GridScanLength(UsedCols(body), UsedRows(body), GridWidth, GridHeight);
  }

  /** The filter also rejects cells that no segment occupies: with segments at (0,0)
      and (1,1), the empty cell (0,1) is not a candidate. */
  lemma ValidPositionsMissUnoccupiedCell(body: seq<Cell>)
    requires body == [Cell(0, 0), Cell(1, 1)]
    ensures Cell(0, 1) !in body && InGrid(Cell(0, 1))
    ensures Cell(0, 1) !in ValidPositions(body)
  {
    ValidPositionsMembers(body, Cell(0, 1));
    assert Cell(0, 0) in body && Cell(1, 1) in body;
  }

  /** A diagonal of 40 cells touches every column and every row, so there is
      no candidate at all although 1560 cells are unoccupied. */
  lemma DiagonalLeavesNoCandidate(body: seq<Cell>)
    requires body == seq(GridWidth, i => Cell(i, i))
    ensures ValidPositions(body) == []
    ensures Cell(0, 1) !in body
  {
    forall x | 0 <= x < GridWidth ensures x in UsedCols(body) && x in UsedRows(body) {
      assert body[x] in body && body[x] == Cell(x, x);
    }
    var v := ValidPositions(body);
    if v != [] {
      ValidPositionsMembers(body, v[0]);
      assert false;
    }
  }

  /** Recording one more segment adds its column and its row. */
  lemma UsedSnoc(s: seq<Cell>, c: Cell)
    ensures UsedCols(s + [c]) == UsedCols(s) + {c.col}
    ensures UsedRows(s + [c]) == UsedRows(s) + {c.row}
  {
  }

  /** The first half of the relocation: marks every column and every row
      that a body segment uses. */
  method MarkUsed(body: seq<Cell>) returns (invalidX: map<int, bool>, invalidY: map<int, bool>)
    ensures forall x :: (x in invalidX && invalidX[x]) <==> x in UsedCols(body)
    ensures forall y :: (y in invalidY && invalidY[y]) <==> y in UsedRows(body)
  {
    invalidX, invalidY := map[], map[];
    var n := 0;
    while n < |body|
      invariant 0 <= n <= |body|
      invariant invalidX.Keys == UsedCols(body[..n])
      invariant invalidY.Keys == UsedRows(body[..n])
      invariant forall x :: x in invalidX ==> invalidX[x]
      invariant forall y :: y in invalidY ==> invalidY[y]
    {
      assert body[..n + 1] == body[..n] + [body[n]];
      UsedSnoc(body[..n], body[n]);
      invalidX := invalidX[body[n].col := true];
      invalidY := invalidY[body[n].row := true];
      n := n + 1;
    }
    assert body[..n] == body;
  }

  /** Relocates the apple: marks the used columns and rows, lists the
      candidate cells and picks the one at index k. */
  method MoveApple(body: seq<Cell>, k: nat) returns (apple: Cell)
    requires k < |ValidPositions(body)|
    ensures apple == ValidPositions(body)[k]
    ensures apple !in body && InGrid(apple)
    ensures apple.col !in UsedCols(body) || apple.row !in UsedRows(body)
  {
    var invalidX, invalidY := MarkUsed(body);
    ghost var cols, rows := UsedCols(body), UsedRows(body);
    var validPositions: seq<Cell> := [];
    var i := 0;
    while i < GridWidth
      invariant 0 <= i <= GridWidth
      invariant validPositions == GridScan(cols, rows, i, GridHeight)
    {
      var j := 0;
      while j < GridHeight
        invariant 0 <= j <= GridHeight
        invariant validPositions == GridScan(cols, rows, i, GridHeight) + ColumnScan(cols, rows, i, j)
      {
        var xUsed := i in invalidX && invalidX[i];
        var yUsed := j in invalidY && invalidY[j];
        assert (!xUsed || !yUsed) == PassesFilter(cols, rows, Cell(i, j));
        if !xUsed || !yUsed {
          validPositions := validPositions + [Cell(i, j)];
        }
        j := j + 1;
      }
      assert GridScan(cols, rows, i + 1, GridHeight)
          == GridScan(cols, rows, i, GridHeight) + ColumnScan(cols, rows, i, GridHeight);
      i := i + 1;
    }
    assert validPositions == ValidPositions(body);
    apple := validPositions[k];
    ValidPositionsAvoidSnake(body, apple);
    ValidPositionsMembers(body, apple);
  }
}
