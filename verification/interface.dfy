/** The game loop of py2048/interface.py, one event at a time: the starting
    board, quitting, undo on the Z key, and an arrow key that moves, spawns
    a tile and checks for the end of the game. Drawing is not modelled; the
    random choices of the spawn are parameters. */
module Interface {
  import opened Wrappers
  import opened Directions
  import opened Rows
  import opened Grids
  import opened Engine

  datatype Key = KeyZ | Arrow(direction: Direction) | OtherKey

  datatype Event = Quit | KeyDown(key: Key) | OtherEvent

  /** The board and the loop's `running` flag. */
  datatype Turn = Turn(board: Board, running: bool)

  /** The board the interface starts with: a 4 x 4 board whose top row holds
      2, 2, 2, 4 (set cell by cell), everything else empty. */
  function InitialBoard(): (b: Board)
    ensures Square(b) && b.width == 4 && b.height == 4
    ensures b.score == 0 && b.lastGrid == None
    ensures b.grid[0] == [Some(2), Some(2), Some(2), Some(4)]
    ensures forall y, x :: 1 <= y < 4 && 0 <= x < 4 ==> b.grid[y][x] == None
  {
    var b0 := NewBoard(4, 4);
    var b1 := SetCell(b0, 0, 0, Some(2));
    var b2 := SetCell(b1, 1, 0, Some(2));
    var b3 := SetCell(b2, 2, 0, Some(2));
    var b4 := SetCell(b3, 3, 0, Some(4));
    assert b4.grid[0] == [Some(2), Some(2), Some(2), Some(4)];
    b4
  }

  /** The tile spawned after a successful move: generate_tile with no value,
      the ten-sided die showing `roll` and the draw over [0, n] taken as
      `slot` modulo n + 1 for the n empty cells of the moved grid. */
  function Spawn(moved: Board, roll: int, slot: nat): (r: Attempt)
    requires WellFormed(moved) && 1 <= roll <= 10
    ensures WellFormed(r.board)
    ensures r.board.width == moved.width && r.board.height == moved.height
    ensures r.board.lastGrid == moved.lastGrid
    ensures r.board.score == moved.score + TileValue(None, roll)
    ensures r.success <==> |EmptyCells(moved.grid)| > 0
  {
    GenerateTile(moved, None, roll, slot % (|EmptyCells(moved.grid)| + 1))
  }

  /** One event of the loop. Quit clears `running`; Z undoes; an arrow key
      whose move is refused changes nothing, otherwise a tile is spawned and
      `running` is cleared if the game is over. The loop still handles the
      remaining events of the batch after `running` is cleared. */
  function HandleEvent(t: Turn, e: Event, roll: int, slot: nat): (r: Turn)
    requires Square(t.board) && 1 <= roll <= 10
    ensures Square(r.board)
    ensures !t.running ==> !r.running
    ensures e == Quit ==> r == Turn(t.board, false)
    ensures e == OtherEvent || e == KeyDown(OtherKey) ==> r == t
    ensures e == KeyDown(KeyZ) ==> r == Turn(Undo(t.board), t.running)
    ensures e.KeyDown? && e.key.Arrow? && !CheckValidMove(t.board, e.key.direction, false) ==> r == t
    ensures e.KeyDown? && e.key.Arrow? && CheckValidMove(t.board, e.key.direction, false) ==>
      && r.board.score == t.board.score + TileValue(None, roll)
      && r.board.lastGrid == Some(t.board.grid)
      && r.running == (t.running && !CheckGameOver(r.board))
  {
    match e
    case Quit => Turn(t.board, false)
    case OtherEvent => t
    case KeyDown(key) =>
      match key
      case OtherKey => t
      case KeyZ => Turn(Undo(t.board), t.running)
      case Arrow(d) =>
        var moved := MovePieces(t.board, d);
        if !moved.success then t
        else
          var spawned := Spawn(moved.board, roll, slot).board;
          Turn(spawned, t.running && !CheckGameOver(spawned))
  }

  /** `after` is `before` with a tile of value v put on the empty cell
      (x, y) and nothing else changed. */
  ghost predicate SpawnedAt(before: Grid, after: Grid, w: nat, h: nat, x: nat, y: nat, v: int)
    requires Shaped(before, w, h) && Shaped(after, w, h) && x < w && y < h
  {
    && before[y][x] == None && after[y][x] == Some(v)
    && forall y', x' :: 0 <= y' < h && 0 <= x' < w && (x', y') != (x, y) ==>
         after[y'][x'] == before[y'][x']
  }

  /** When the moved grid has an empty cell, the spawn puts one tile of
      value 2 or 4 on one of them and changes no other cell. */
  lemma SpawnLands(moved: Board, roll: int, slot: nat)
    requires WellFormed(moved) && 1 <= roll <= 10
    requires |EmptyCells(moved.grid)| > 0
    ensures var after := Spawn(moved, roll, slot).board.grid;
      var v := TileValue(None, roll);
      && (v == 2 || v == 4)
      && exists x: nat, y: nat :: x < moved.width && y < moved.height &&
           SpawnedAt(moved.grid, after, moved.width, moved.height, x, y, v)
  {
    var n := |EmptyCells(moved.grid)|;
    var k := slot % (n + 1);
    var p := EmptyCells(moved.grid)[PyIndex(k - 1, n)];
    var after := Spawn(moved, roll, slot).board.grid;
    assert SpawnedAt(moved.grid, after, moved.width, moved.height, p.0, p.1, TileValue(None, roll));
  }

  /** The board after a successful arrow key is the spawn on the moved
      board. */
  lemma ArrowTurnBoard(t: Turn, d: Direction, roll: int, slot: nat)
    requires Square(t.board) && 1 <= roll <= 10
    requires MovePieces(t.board, d).success
    ensures HandleEvent(t, KeyDown(Arrow(d)), roll, slot).board == Spawn(MovePieces(t.board, d).board, roll, slot).board
  {
    var moved := MovePieces(t.board, d);
    var spawned := Spawn(moved.board, roll, slot).board;
    assert HandleEvent(t, KeyDown(Arrow(d)), roll, slot) == Turn(spawned, t.running && !CheckGameOver(spawned));
  }

  /** After a successful arrow key exactly one tile appears, on a cell the
      move left empty, holding 2 or 4; every other cell is as the move left
      it. */
  lemma ArrowSpawnsOnce(t: Turn, d: Direction, roll: int, slot: nat)
    requires Square(t.board) && 1 <= roll <= 10
    requires MovePieces(t.board, d).success
    ensures var moved := MovePieces(t.board, d).board.grid;
      var after := HandleEvent(t, KeyDown(Arrow(d)), roll, slot).board.grid;
      var v := TileValue(None, roll);
      var n := t.board.width;
      && (v == 2 || v == 4)
      && exists x: nat, y: nat :: x < n && y < n && SpawnedAt(moved, after, n, n, x, y, v)
  {
    MoveLeavesRoom(t.board, d);
    ArrowTurnBoard(t, d, roll, slot);
    SpawnLands(MovePieces(t.board, d).board, roll, slot);
  }

  /** Undo straight after a successful arrow key restores the grid the key
      was pressed on, but the score keeps the spawned tile's value. */
  lemma UndoAfterTurn(t: Turn, d: Direction, roll: int, slot: nat)
    requires Square(t.board) && 1 <= roll <= 10
    requires MovePieces(t.board, d).success
    ensures var after := HandleEvent(t, KeyDown(Arrow(d)), roll, slot);
      var undone := HandleEvent(after, KeyDown(KeyZ), roll, slot);
      && undone.board.grid == t.board.grid
      && undone.board.lastGrid == None
      && undone.board.score == t.board.score + TileValue(None, roll)
  {
  }

  /** Pressing Z twice is the same as pressing it once. */
  lemma UndoTwiceIsUndoOnce(t: Turn, roll: int, slot: nat)
    requires Square(t.board) && 1 <= roll <= 10
    ensures var once := HandleEvent(t, KeyDown(KeyZ), roll, slot);
      HandleEvent(once, KeyDown(KeyZ), roll, slot) == once
  {
    UndoOnce(t.board);
  }

  /** The first RIGHT press on the starting board merges the two leftmost
      2s and writes the condensed values back reversed: the top row becomes
      _, 4, 2, 4. */
  lemma FirstRightMove()
    ensures var b := InitialBoard(); var r := MovePieces(b, Right);
      && r.success
      && r.board.grid[0] == [None, Some(4), Some(2), Some(4)]
  {
    var b := InitialBoard();
    var row := b.grid[0];
    RightRowIsGridRow(b.grid, 4, 0);
    assert RowMovable(row, false) by {
      RowMovableIff(row, false);
      assert row[0].Some? && row[0] == row[1];
    }
    assert CheckValidMove(b, Right, false);
    var g' := MovePieces(b, Right).board.grid;
    MovePiecesRows(b, Right);
    RightRowIsGridRow(g', 4, 0);
    SlideExample();
  }
}
