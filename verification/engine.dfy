/** The state transitions of GameBoard (py2048/classes.py): move_pieces,
    check_valid_move, check_game_over, undo and generate_tile. */
module Engine {
  import opened Wrappers
  import opened Directions
  import opened Rows
  import opened Grids

  /** A board after an operation, with the operation's boolean result. */
  datatype Attempt = Attempt(board: Board, success: bool)

  // ---------------------------------------------------------------------
  // Validity and game over
  // ---------------------------------------------------------------------

  /** The row loop of check_valid_move from aligned row i on: it answers
      true at the first row whose test succeeds. */
  function ValidFrom(g: Grid, n: nat, d: Direction, end: bool, i: nat): (valid: bool)
    requires Shaped(g, n, n) && i <= n
    ensures valid <==> exists k :: i <= k < n && RowMovable(GetRow(g, n, k, d), end)
    decreases n - i
  {
    i < n && (RowMovable(GetRow(g, n, i, d), end) || ValidFrom(g, n, d, end, i + 1))
  }

  /** check_valid_move(direction, end): whether some aligned row can change.
      With `end` (the game-over test) any empty cell counts as a move. */
  function CheckValidMove(b: Board, d: Direction, end: bool): (valid: bool)
    requires Square(b)
    ensures valid <==> exists i :: 0 <= i < b.width && RowMovable(GetRow(b.grid, b.width, i, d), end)
  {
    var rowsLen := if Horizontal(d) then b.width else b.height;
    ValidFrom(b.grid, rowsLen, d, end, 0)
  }

  /** The strict test, stated without scans: some aligned row has a tile
      below an empty cell or two equal neighbouring tiles. */
  lemma ValidMoveIff(b: Board, d: Direction)
    requires Square(b)
    ensures CheckValidMove(b, d, false) <==>
      exists i :: 0 <= i < b.width &&
        (CanSlide(GetRow(b.grid, b.width, i, d)) || CanMerge(GetRow(b.grid, b.width, i, d)))
  {
    var n := b.width;
    if CheckValidMove(b, d, false) {
      var i :| 0 <= i < n && RowMovable(GetRow(b.grid, n, i, d), false);
      RowMovableIff(GetRow(b.grid, n, i, d), false);
    }
    if exists i :: 0 <= i < n && (CanSlide(GetRow(b.grid, n, i, d)) || CanMerge(GetRow(b.grid, n, i, d))) {
      var i :| 0 <= i < n && (CanSlide(GetRow(b.grid, n, i, d)) || CanMerge(GetRow(b.grid, n, i, d)));
      RowMovableIff(GetRow(b.grid, n, i, d), false);
    }
  }

  /** With `end`, a single empty cell anywhere makes every direction valid. */
  lemma EmptyCellValidAtEnd(b: Board, d: Direction, x: nat, y: nat)
    requires Square(b) && x < b.width && y < b.height && b.grid[y][x].None?
    ensures CheckValidMove(b, d, true)
  {
    var n := b.width;
    var p := Locate(d, n, x, y);
    EmptyCellOnRow(b.grid, n, d, x, y);
    RowMovableIff(GetRow(b.grid, n, p.0, d), true);
  }

  /** The direction loop of check_game_over over the directions `ds`. */
  function NoDirectionValid(b: Board, ds: seq<Direction>): (none: bool)
    requires Square(b)
    ensures none <==> forall k :: 0 <= k < |ds| ==> !CheckValidMove(b, ds[k], true)
  {
    |ds| == 0 || (!CheckValidMove(b, ds[0], true) && NoDirectionValid(b, ds[1..]))
  }

  /** check_game_over: no direction passes the relaxed validity test. */
  function CheckGameOver(b: Board): (over: bool)
    requires Square(b)
    ensures over <==> forall d :: !CheckValidMove(b, d, true)
  {
    EveryDirectionListed(b);
    NoDirectionValid(b, AllDirections)
  }

  lemma EveryDirectionListed(b: Board)
    requires Square(b)
    ensures NoDirectionValid(b, AllDirections) ==> forall d :: !CheckValidMove(b, d, true)
  {
    if NoDirectionValid(b, AllDirections) {
      forall d ensures !CheckValidMove(b, d, true) {
        match d
        case Up => assert AllDirections[0] == d;
        case Down => assert AllDirections[1] == d;
        case Left => assert AllDirections[2] == d;
        case Right => assert AllDirections[3] == d;
      }
    }
  }

  /** The game is over exactly when the board is full and no aligned row, in
      any direction, has two equal neighbouring tiles. */
  lemma GameOverIff(b: Board)
    requires Square(b)
    ensures CheckGameOver(b) <==>
      (forall y, x :: 0 <= y < b.height && 0 <= x < b.width ==> b.grid[y][x].Some?) &&
      (forall d, i :: 0 <= i < b.width ==> !CanMerge(GetRow(b.grid, b.width, i, d)))
  {
    var n := b.width;
    if CheckGameOver(b) {
      forall y, x | 0 <= y < n && 0 <= x < n
        ensures b.grid[y][x].Some?
      {
        if b.grid[y][x].None? {
          EmptyCellValidAtEnd(b, Up, x, y);
        }
      }
      forall d, i | 0 <= i < n
        ensures !CanMerge(GetRow(b.grid, n, i, d))
      {
        assert !CheckValidMove(b, d, true);
        assert !RowMovable(GetRow(b.grid, n, i, d), true);
        RowMovableIff(GetRow(b.grid, n, i, d), true);
      }
    } else {
      var d :| CheckValidMove(b, d, true);
      var i :| 0 <= i < n && RowMovable(GetRow(b.grid, n, i, d), true);
      var row := GetRow(b.grid, n, i, d);
      RowMovableIff(row, true);
      if HasEmpty(row) {
        var j :| 0 <= j < n && row[j].None?;
        var p := Coord(d, n, i, j);
        GetRowCells(b.grid, n, i, d);
        assert b.grid[p.1][p.0].None?;
      }
    }
  }

  /** A board with an empty cell is never over. */
  lemma NotOverWithEmptyCell(b: Board, x: nat, y: nat)
    requires Square(b) && x < b.width && y < b.height && b.grid[y][x].None?
    ensures !CheckGameOver(b)
  {
    EmptyCellValidAtEnd(b, Up, x, y);
  }

  /** A full board of 2s with at least two cells per row is not over: every
      aligned row has equal neighbours. */
  lemma FullBoardOfTwosNotOver(b: Board)
    requires Square(b) && b.width >= 2
    requires forall y, x :: 0 <= y < b.height && 0 <= x < b.width ==> b.grid[y][x] == Some(2)
    ensures !CheckGameOver(b)
  {
    var row := GetRow(b.grid, b.width, 0, Up);
    GetRowCells(b.grid, b.width, 0, Up);
    assert row[0] == Some(2) && row[1] == Some(2);
    assert CanMerge(row);
    RowMovableIff(row, true);
  }

  // ---------------------------------------------------------------------
  // Moving
  // ---------------------------------------------------------------------

  /** The row loop of move_pieces from aligned row i on: each aligned row is
      read from the grid as it now stands, transformed by `slide` (the
      gravity, condense and write-back steps), and written back. */
  function MoveRows(g: Grid, n: nat, d: Direction, slide: Row -> Row, i: nat): (h: Grid)
    requires Shaped(g, n, n) && i <= n
    requires forall row :: |slide(row)| == |row|
    ensures Shaped(h, n, n)
    decreases n - i
  {
    if i == n then g
    else MoveRows(MoveStep(g, n, d, slide, i), n, d, slide, i + 1)
  }

  /** One iteration of the row loop: aligned row i is read, transformed and
      written back. */
  function MoveStep(g: Grid, n: nat, d: Direction, slide: Row -> Row, i: nat): (h: Grid)
    requires Shaped(g, n, n) && i < n
    requires forall row :: |slide(row)| == |row|
    ensures Shaped(h, n, n)
    ensures GetRow(h, n, i, d) == slide(GetRow(g, n, i, d))
    ensures forall r :: 0 <= r < n && r != i ==> GetRow(h, n, r, d) == GetRow(g, n, r, d)
  {
    var row := slide(GetRow(g, n, i, d));
    forall r | 0 <= r < n
      ensures GetRow(WriteAligned(g, n, d, i, row), n, r, d) == if r == i then row else GetRow(g, n, r, d)
    {
      WriteAlignedRows(g, n, d, i, row, r);
    }
    WriteAligned(g, n, d, i, row)
  }

  /** Rows the loop has already passed are not touched again. */
  lemma {:induction false} MoveRowsKeepsDone(g: Grid, n: nat, d: Direction, slide: Row -> Row, i: nat, r: nat)
    requires Shaped(g, n, n) && r < i <= n
    requires forall row :: |slide(row)| == |row|
    ensures GetRow(MoveRows(g, n, d, slide, i), n, r, d) == GetRow(g, n, r, d)
    decreases n - i
  {
    if i < n {
      MoveRowsKeepsDone(MoveStep(g, n, d, slide, i), n, d, slide, i + 1, r);
    }
  }

  /** Every row from i on ends up transformed from the contents it had when
      the loop reached i: earlier iterations wrote only other rows. */
  lemma {:induction false} MoveRowsSlides(g: Grid, n: nat, d: Direction, slide: Row -> Row, i: nat, r: nat)
    requires Shaped(g, n, n) && i <= r < n
    requires forall row :: |slide(row)| == |row|
    ensures GetRow(MoveRows(g, n, d, slide, i), n, r, d) == slide(GetRow(g, n, r, d))
    decreases n - i
  {
    var h := MoveStep(g, n, d, slide, i);
    if r == i {
      MoveRowsKeepsDone(h, n, d, slide, i + 1, r);
    } else {
      MoveRowsSlides(h, n, d, slide, i + 1, r);
    }
  }

  /** move_pieces: a move that fails the strict validity test is refused and
      changes nothing; otherwise the grid is snapshotted and every aligned
      row is slid. */
  function MovePieces(b: Board, d: Direction): (r: Attempt)
    requires Square(b)
    ensures Square(r.board)
    ensures r.success == CheckValidMove(b, d, false)
    ensures !r.success ==> r.board == b
    ensures r.success ==>
      && r.board.lastGrid == Some(b.grid)
      && r.board.score == b.score
      && r.board.width == b.width && r.board.height == b.height
  {
    if !CheckValidMove(b, d, false) then Attempt(b, false)
    else
      var limit := if Horizontal(d) then b.width else b.height;
      Attempt(b.(grid := MoveRows(b.grid, limit, d, Slide, 0), lastGrid := Some(b.grid)), true)
  }

  /** After a successful move every aligned row is the slide of the aligned
      row before it: empties first, then the condensed values in reverse
      order; its tile total is kept and its tile count does not grow. No
      other grid has these rows. */
  lemma MovePiecesRows(b: Board, d: Direction)
    requires Square(b)
    requires MovePieces(b, d).success
    ensures var g' := MovePieces(b, d).board.grid; var n := b.width;
      forall i :: 0 <= i < n ==>
        && GetRow(g', n, i, d) == Slide(GetRow(b.grid, n, i, d))
        && TileSum(GetRow(g', n, i, d)) == TileSum(GetRow(b.grid, n, i, d))
        && TileCount(GetRow(g', n, i, d)) <= TileCount(GetRow(b.grid, n, i, d))
  {
    var n := b.width;
    var g' := MovePieces(b, d).board.grid;
    forall i | 0 <= i < n
      ensures GetRow(g', n, i, d) == Slide(GetRow(b.grid, n, i, d))
      ensures TileSum(GetRow(g', n, i, d)) == TileSum(GetRow(b.grid, n, i, d))
      ensures TileCount(GetRow(g', n, i, d)) <= TileCount(GetRow(b.grid, n, i, d))
    {
      MoveRowsSlides(b.grid, n, d, Slide, 0, i);
      SlideShape(GetRow(b.grid, n, i, d));
    }
  }

  /** Any square grid whose aligned rows are the slides of the old ones is
      the grid the move produces. */
  lemma MovePiecesUnique(b: Board, d: Direction, h: Grid)
    requires Square(b) && MovePieces(b, d).success && Shaped(h, b.width, b.width)
    requires forall i :: 0 <= i < b.width ==> GetRow(h, b.width, i, d) == Slide(GetRow(b.grid, b.width, i, d))
    ensures h == MovePieces(b, d).board.grid
  {
    MovePiecesRows(b, d);
    RowsDetermineGrid(h, MovePieces(b, d).board.grid, b.width, d);
  }

  /** A move is reported successful only when it really changes the grid. */
  lemma MoveChangesGrid(b: Board, d: Direction)
    requires Square(b) && MovePieces(b, d).success
    ensures MovePieces(b, d).board.grid != b.grid
  {
    var n := b.width;
    var i :| 0 <= i < n && RowMovable(GetRow(b.grid, n, i, d), false);
    MovableRowChanges(GetRow(b.grid, n, i, d));
    MovePiecesRows(b, d);
  }

  // ---------------------------------------------------------------------
  // Undo
  // ---------------------------------------------------------------------

  /** undo: restore the snapshot and drop it; without a snapshot, nothing
      happens. The score is not part of the snapshot. */
  function Undo(b: Board): (r: Board)
    ensures r.lastGrid == None
    ensures r.score == b.score && r.width == b.width && r.height == b.height
    ensures r.grid == if b.lastGrid.Some? then b.lastGrid.value else b.grid
    ensures WellFormed(b) ==> WellFormed(r)
  {
    if b.lastGrid.None? then b
    else b.(grid := b.lastGrid.value, lastGrid := None)
  }

  /** Undoing a successful move gives back exactly the board before it,
      except that the snapshot is gone; a refused move leaves nothing to
      undo beyond what was there. */
  lemma UndoAfterMove(b: Board, d: Direction)
    requires Square(b)
    ensures MovePieces(b, d).success ==> Undo(MovePieces(b, d).board) == b.(lastGrid := None)
    ensures !MovePieces(b, d).success ==> Undo(MovePieces(b, d).board) == Undo(b)
  {
  }

  /** Only one level of undo: a second undo in a row does nothing, and so
      does an undo with no snapshot. */
  lemma UndoOnce(b: Board)
    ensures Undo(Undo(b)) == Undo(b)
    ensures b.lastGrid.None? ==> Undo(b) == b
  {
  }

  // ---------------------------------------------------------------------
  // Spawning
  // ---------------------------------------------------------------------

  /** `p` comes strictly before `q` when the grid is read row by row. */
  predicate RowMajorBefore(p: (nat, nat), q: (nat, nat)) {
    p.1 < q.1 || (p.1 == q.1 && p.0 < q.0)
  }

  /** The empty cells (x, y) of row y among its first x columns, left to right. */
  function RowEmpties(row: Row, y: nat, x: nat): (cells: seq<(nat, nat)>)
    requires x <= |row|
    ensures forall p :: p in cells <==> p.1 == y && p.0 < x && row[p.0].None?
    ensures forall k :: 0 <= k < |cells| ==> cells[k].1 == y && cells[k].0 < x
    ensures forall a, c :: 0 <= a < c < |cells| ==> cells[a].0 < cells[c].0
  {
    if x == 0 then []
    else RowEmpties(row, y, x - 1) + (if row[x - 1].None? then [(x - 1, y)] else [])
  }

  /** The empty cells of the first y rows, in row-major order. */
  function EmptyCellsUpTo(g: Grid, y: nat): (cells: seq<(nat, nat)>)
    requires y <= |g|
    ensures forall p :: p in cells <==> p.1 < y && p.0 < |g[p.1]| && g[p.1][p.0].None?
    ensures forall k :: 0 <= k < |cells| ==> cells[k].1 < y
    ensures forall a, c :: 0 <= a < c < |cells| ==> RowMajorBefore(cells[a], cells[c])
  {
    if y == 0 then []
    else
      var front := EmptyCellsUpTo(g, y - 1);
      var last := RowEmpties(g[y - 1], y - 1, |g[y - 1]|);
      assert forall a, c :: 0 <= a < |front| <= c < |front + last| ==>
        RowMajorBefore((front + last)[a], (front + last)[c]);
      front + last
  }

  /** generate_tile's list of empty cells: every empty cell of the grid, each
      once, in row-major order. */
  function EmptyCells(g: Grid): seq<(nat, nat)> {
    EmptyCellsUpTo(g, |g|)
  }

  /** The list holds exactly the empty cells of the board. */
  lemma EmptyCellsOfBoard(b: Board)
    requires WellFormed(b)
    ensures forall p :: p in EmptyCells(b.grid) ==> p.0 < b.width && p.1 < b.height && b.grid[p.1][p.0].None?
    ensures forall y, x :: 0 <= y < b.height && 0 <= x < b.width && b.grid[y][x].None? ==> (x, y) in EmptyCells(b.grid)
  {
  }

  /** The value to place: the caller's value if given, otherwise 4 when the
      roll of a ten-sided die shows 10 and 2 on any other roll. */
  function TileValue(value: Option<int>, roll: int): (v: int)
    requires 1 <= roll <= 10
    ensures value.Some? ==> v == value.value
    ensures value.None? ==> (v == 4 <==> roll == 10) && (v == 2 <==> roll != 10)
  {
    if value.Some? then value.value
    else if roll == 10 then 4 else 2
  }

  /** generate_tile: the score grows by the tile's value whether or not a
      cell is free; then, if the grid has empty cells, the random draw k in
      [0, n] picks entry k - 1 of the row-major list of empties (Python
      indexing, so k = 0 picks the last) and that cell receives the value. */
  function GenerateTile(b: Board, value: Option<int>, roll: int, k: int): (r: Attempt)
    requires WellFormed(b)
    requires 1 <= roll <= 10
    requires 0 <= k <= |EmptyCells(b.grid)|
    ensures WellFormed(r.board)
    ensures r.board.score == b.score + TileValue(value, roll)
    ensures r.board.lastGrid == b.lastGrid
    ensures r.board.width == b.width && r.board.height == b.height
    ensures r.success <==> |EmptyCells(b.grid)| > 0
    ensures r.success <==> exists y, x :: 0 <= y < b.height && 0 <= x < b.width && b.grid[y][x].None?
    ensures !r.success ==> r.board.grid == b.grid
    ensures r.success ==>
      var p := EmptyCells(b.grid)[PyIndex(k - 1, |EmptyCells(b.grid)|)];
      && p.0 < b.width && p.1 < b.height
      && b.grid[p.1][p.0] == None
      && r.board.grid[p.1][p.0] == Some(TileValue(value, roll))
      && forall y, x ::
           0 <= y < b.height && 0 <= x < b.width && (x, y) != p ==> r.board.grid[y][x] == b.grid[y][x]
  {
    var v := TileValue(value, roll);
    var scored := b.(score := b.score + v);
    var empties := EmptyCells(b.grid);
    EmptyCellsOfBoard(b);
    if |empties| > 0 then
      var p := empties[PyIndex(k - 1, |empties|)];
      assert p in empties;
      Attempt(SetCell(scored, p.0, p.1, Some(v)), true)
    else
      Attempt(scored, false)
  }

  /** An aligned row that passes the strict test starts with an empty cell
      after the move. */
  lemma MovedRowStartsEmpty(b: Board, d: Direction, i: nat)
    requires Square(b) && MovePieces(b, d).success && i < b.width
    requires RowMovable(GetRow(b.grid, b.width, i, d), false)
    ensures var p := Coord(d, b.width, i, 0); MovePieces(b, d).board.grid[p.1][p.0].None?
  {
    var n := b.width;
    var g' := MovePieces(b, d).board.grid;
    MovePiecesRows(b, d);
    MovableRowLeavesRoom(GetRow(b.grid, n, i, d));
    GetRowCells(g', n, i, d);
  }

  /** A successful move always leaves at least one empty cell, so the tile
      spawned after it always finds a place. */
  lemma MoveLeavesRoom(b: Board, d: Direction)
    requires Square(b) && MovePieces(b, d).success
    ensures |EmptyCells(MovePieces(b, d).board.grid)| > 0
  {
    var n := b.width;
    var g' := MovePieces(b, d).board.grid;
    var i :| 0 <= i < n && RowMovable(GetRow(b.grid, n, i, d), false);
    MovedRowStartsEmpty(b, d, i);
    var p := Coord(d, n, i, 0);
    EmptyCellsOfBoard(MovePieces(b, d).board);
    assert p in EmptyCells(g');
  }

  /** On a grid with n empty cells the draws k = 0 and k = n land on the same
      cell (the last empty one), so of the n + 1 outcomes of the draw, two
      place the tile there. */
  lemma SpawnDrawsZeroAndNCoincide(b: Board, value: Option<int>, roll: int)
    requires WellFormed(b) && 1 <= roll <= 10
    requires |EmptyCells(b.grid)| > 0
    ensures GenerateTile(b, value, roll, 0) == GenerateTile(b, value, roll, |EmptyCells(b.grid)|)
  {
  }
}
