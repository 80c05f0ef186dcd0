/** The board record of py2048/classes.py (GameBoard): construction, cell
    access and the direction-aligned view of the grid used by every move. */
module Grids {
  import opened Wrappers
  import opened Directions
  import opened Rows

  /** grid[y][x] is the cell in row y, column x. */
  type Grid = seq<Row>

  predicate Shaped(g: Grid, width: nat, height: nat) {
    |g| == height && forall y :: 0 <= y < |g| ==> |g[y]| == width
  }

  /** A game board: the live grid, the snapshot kept for a one-step undo,
      the score, and the dimensions fixed at construction. */
  datatype Board = Board(grid: Grid, lastGrid: Option<Grid>, score: int, width: nat, height: nat)

  predicate WellFormed(b: Board) {
    && Shaped(b.grid, b.width, b.height)
    && (b.lastGrid.Some? ==> Shaped(b.lastGrid.value, b.width, b.height))
  }

  /** Moves and validity checks are only meaningful on square boards: the
      source takes the number of aligned rows from the other axis. */
  predicate Square(b: Board) {
    WellFormed(b) && b.width == b.height
  }

  /** GameBoard(x, y): every cell empty, no snapshot, score zero. */
  function NewBoard(width: nat, height: nat): (b: Board)
    ensures WellFormed(b)
    ensures b.width == width && b.height == height
    ensures b.score == 0 && b.lastGrid == None
    ensures forall y, x :: 0 <= y < height && 0 <= x < width ==> b.grid[y][x] == None
  {
    Board(seq(height, _ => seq(width, _ => None)), None, 0, width, height)
  }

  /** get_cell: the cell at column x, row y, or `None` when either coordinate
      falls outside the board. */
  function GetCell(b: Board, x: int, y: int): (r: Option<Cell>)
    requires WellFormed(b)
    ensures r.None? <==> !(0 <= x < b.width && 0 <= y < b.height)
    ensures r.Some? ==> 0 <= y < |b.grid| && 0 <= x < |b.grid[y]| && r.value == b.grid[y][x]
  {
    if x + 1 > b.width || x < 0 then None
    else if y + 1 > b.height || y < 0 then None
    else Some(b.grid[y][x])
  }

  /** set_cell: overwrite the value of one cell. The source indexes the grid
      without a bounds check, so a negative coordinate counts from the far
      edge as a Python list index does; anything further out is an error. */
  function SetCell(b: Board, x: int, y: int, value: Cell): (r: Board)
    requires WellFormed(b)
    requires 0 <= x + b.width && x < b.width
    requires 0 <= y + b.height && y < b.height
    ensures WellFormed(r)
    ensures r.width == b.width && r.height == b.height
    ensures r.score == b.score && r.lastGrid == b.lastGrid
    ensures r.grid[PyIndex(y, b.height)][PyIndex(x, b.width)] == value
    ensures forall j, i ::
      0 <= j < b.height && 0 <= i < b.width && (i, j) != (PyIndex(x, b.width), PyIndex(y, b.height))
      ==> r.grid[j][i] == b.grid[j][i]
  {
    var cx := PyIndex(x, b.width);
    var cy := PyIndex(y, b.height);
    b.(grid := b.grid[cy := b.grid[cy][cx := value]])
  }

  /** Reading back a cell just written gives the written value. */
  lemma GetAfterSet(b: Board, x: int, y: int, value: Cell)
    requires WellFormed(b)
    requires 0 <= x < b.width && 0 <= y < b.height
    ensures GetCell(SetCell(b, x, y, value), x, y) == Some(value)
  {
  }

  // ---------------------------------------------------------------------
  // Alignment (get_row)
  // ---------------------------------------------------------------------

  /** The grid coordinates (x, y) of position j of aligned row i for
      direction d on an n-by-n grid. Position n-1 is the edge the move
      pushes tiles against. */
  function Coord(d: Direction, n: nat, i: nat, j: nat): (p: (nat, nat))
    requires i < n && j < n
    ensures p.0 < n && p.1 < n
  {
    match d
    case Right => (j, i)
    case Left => (n - 1 - j, i)
    case Up => (i, n - 1 - j)
    case Down => (i, j)
  }

  /** Which aligned row, and which position in it, the cell (x, y) occupies
      for direction d. */
  function Locate(d: Direction, n: nat, x: nat, y: nat): (ij: (nat, nat))
    requires x < n && y < n
    ensures ij.0 < n && ij.1 < n
    ensures Coord(d, n, ij.0, ij.1) == (x, y)
  {
    match d
    case Right => (y, x)
    case Left => (y, n - 1 - x)
    case Up => (x, n - 1 - y)
    case Down => (x, y)
  }

  /** Every cell lies on exactly one aligned row, at exactly one position. */
  lemma LocateCoord(d: Direction, n: nat, i: nat, j: nat)
    requires i < n && j < n
    ensures Locate(d, n, Coord(d, n, i, j).0, Coord(d, n, i, j).1) == (i, j)
  {
  }

  /** get_row: aligned row i for direction d. Position j holds the cell at
      Coord(d, n, i, j), so RIGHT reads grid row i as it is, LEFT reads it
      reversed, UP reads column i from the bottom row up and DOWN reads
      column i from the top row down. */
  function GetRow(g: Grid, n: nat, i: nat, d: Direction): (row: Row)
    requires Shaped(g, n, n) && i < n
    ensures |row| == n
  {
    seq(n, j requires 0 <= j < n => g[Coord(d, n, i, j).1][Coord(d, n, i, j).0])
  }

  /** The four readings of get_row, one per direction: RIGHT reads grid row
      i left to right, LEFT reads it right to left, UP reads column i from
      the bottom row up and DOWN reads it from the top row down. */
  lemma GetRowDirections(g: Grid, n: nat, i: nat)
    requires Shaped(g, n, n) && i < n
    ensures forall j :: 0 <= j < n ==> GetRow(g, n, i, Right)[j] == g[i][j]
    ensures forall j :: 0 <= j < n ==> GetRow(g, n, i, Left)[j] == g[i][n - 1 - j]
    ensures forall j :: 0 <= j < n ==> GetRow(g, n, i, Up)[j] == g[n - 1 - j][i]
    ensures forall j :: 0 <= j < n ==> GetRow(g, n, i, Down)[j] == g[j][i]
  {
  }

  /** Position j of aligned row i is the grid cell at Coord(d, n, i, j). */
  lemma GetRowCells(g: Grid, n: nat, i: nat, d: Direction)
    requires Shaped(g, n, n) && i < n
    ensures forall j :: 0 <= j < n ==> GetRow(g, n, i, d)[j] == g[Coord(d, n, i, j).1][Coord(d, n, i, j).0]
  {
  }

  /** For RIGHT, aligned row i is grid row i itself. */
  lemma RightRowIsGridRow(g: Grid, n: nat, i: nat)
    requires Shaped(g, n, n) && i < n
    ensures GetRow(g, n, i, Right) == g[i]
  {
  }

  /** Writing a row back through the aligned view: the cells of aligned row
      i take the values of `row`, every other cell keeps its value. */
  function WriteAligned(g: Grid, n: nat, d: Direction, i: nat, row: Row): (h: Grid)
    requires Shaped(g, n, n) && i < n && |row| == n
    ensures Shaped(h, n, n)
  {
    seq(n, y requires 0 <= y < n =>
      seq(n, x requires 0 <= x < n =>
        var p := Locate(d, n, x, y);
        if p.0 == i then row[p.1] else g[y][x]))
  }

  /** After writing aligned row i, reading aligned row r gives the written
      row when r is i and the old row otherwise. */
  lemma WriteAlignedRows(g: Grid, n: nat, d: Direction, i: nat, row: Row, r: nat)
    requires Shaped(g, n, n) && i < n && |row| == n && r < n
    ensures GetRow(WriteAligned(g, n, d, i, row), n, r, d) == if r == i then row else GetRow(g, n, r, d)
  {
    var h := WriteAligned(g, n, d, i, row);
    var got := GetRow(h, n, r, d);
    var want := if r == i then row else GetRow(g, n, r, d);
    GetRowCells(h, n, r, d);
    GetRowCells(g, n, r, d);
    forall j | 0 <= j < n
      ensures got[j] == want[j]
    {
      var p := Coord(d, n, r, j);
      LocateCoord(d, n, r, j);
      assert h[p.1][p.0] == if r == i then row[j] else g[p.1][p.0];
    }
  }

  /** A square grid is determined by its aligned rows in any one direction. */
  lemma {:induction false} RowsDetermineGrid(g: Grid, h: Grid, n: nat, d: Direction)
    requires Shaped(g, n, n) && Shaped(h, n, n)
    requires forall r :: 0 <= r < n ==> GetRow(g, n, r, d) == GetRow(h, n, r, d)
    ensures g == h
  {
    forall y | 0 <= y < n
      ensures g[y] == h[y]
    {
      forall x | 0 <= x < n
        ensures g[y][x] == h[y][x]
      {
        var p := Locate(d, n, x, y);
        GetRowCells(g, n, p.0, d);
        GetRowCells(h, n, p.0, d);
        assert GetRow(g, n, p.0, d)[p.1] == GetRow(h, n, p.0, d)[p.1];
      }
    }
  }

  /** A cell that is empty leaves its aligned row with an empty cell, in
      every direction. */
  lemma EmptyCellOnRow(g: Grid, n: nat, d: Direction, x: nat, y: nat)
    requires Shaped(g, n, n) && x < n && y < n && g[y][x].None?
    ensures HasEmpty(GetRow(g, n, Locate(d, n, x, y).0, d))
  {
    var p := Locate(d, n, x, y);
    GetRowCells(g, n, p.0, d);
    assert GetRow(g, n, p.0, d)[p.1].None?;
  }
}
