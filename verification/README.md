# py2048 board engine in Dafny

This project models the 2048 board engine of py2048. It also models two
pieces of the interface that drive the engine: the hex-colour parser and the
per-key turn step.

## What is modelled

The board is an immutable `Board` record (`grid.dfy`). It holds:

- the grid, a sequence of rows of `Option<int>` cells indexed `grid[y][x]`;
- the one-step undo snapshot, `lastGrid`;
- the score;
- the two dimensions.

Every operation is a pure function over that record:

- **`direction.dfy`** holds the four directions, their `(dx, dy)` values and their inverses.
- **`row.dfy`** holds one aligned row of a move:
  - dropping the empty cells;
  - the single forward condensing pass, both as a recursive reference (`Condense`) and as the in-place loop of the source (`CondenseInPlace`);
  - the reversed write-back (`WriteBack`), so that `[2, 2, 2, 4]` moved RIGHT becomes `[_, 4, 2, 4]`;
  - the two scans of the validity test.
- **`grid.dfy`** holds the board, `get_cell` and `set_cell` (Python negative indexing included), and the aligned rows `get_row` reads for each direction.
  - Position `j` of aligned row `i` is the grid cell `Coord(d, n, i, j)`.
  - Tiles pile at position `n - 1`.
- **`engine.dfy`** holds `check_valid_move`, `check_game_over`, `move_pieces`, `undo` and `generate_tile`.
- **`colour.dfy`** holds `hex_to_rgb`. It includes a model of Python's `int(text, 16)` on the two-character slices it is given, and the interface's colour table.
- **`interface.dfy`** holds the starting board and one event of the game loop.
  - Quit ends the loop and the Z key undoes.
  - An arrow key moves. When the move succeeds, it spawns a tile and then ends the loop if the game is over.

The moves, the validity test and the turn step require a square board. The
source counts aligned rows with the width for a horizontal direction and the
height for a vertical one (classes.py lines 149 and 235), while `get_row`
reads grid rows for a horizontal direction and columns for a vertical one
(classes.py lines 90-93). On a board that is not square, one of the two axes
therefore visits fewer aligned rows than there are and skips the rest, and the
other asks `get_row` for an index past the grid and raises IndexError. The
model covers neither case. The interface only builds 4 x 4 boards.

Randomness becomes parameters:

- The spawn's value is the caller's value when one is given. Otherwise a ten-sided die `roll` in `[1, 10]` picks it.
- The spawn's draw `k` lies in `[0, n]` for `n` empty cells. It selects entry `k - 1` of the row-major list of empty cells, with Python indexing, so `k = 0` also selects the last entry.
- The turn step takes that draw as `slot` modulo `n + 1`.

## Model

| member | source | states |
|---|---|---|
| `Directions.Delta` | py2048/classes.py:10-14 | each direction's value moves along exactly one axis, by one step |
| `Directions.Inverse` | py2048/classes.py:16-24 | the inverse direction's value is the componentwise negation of the direction's value |
| `Directions.InverseInvolution` | py2048/classes.py:16-24 | inverting twice gives the direction back; no direction is its own inverse; inversion keeps the axis |
| `Directions.DeltaInjective` | py2048/classes.py:10-14 | different directions have different values |
| `Directions.AllDirectionsComplete` | py2048/classes.py:270 | the enumeration the game-over loop walks lists every direction exactly once |
| `Wrappers.PyIndex` | py2048/classes.py:204-205 | Python list indexing: any index in [-n, n) names the unique position in [0, n) that is congruent to it modulo n |
| `Rows.Tiles` | py2048/classes.py:154-157 | the non-empty values of a row; there are as many as the row has tiles, and their total is the row's tile total |
| `Rows.TilesInOrder` | py2048/classes.py:154-157 | the tiles keep their row order: the tile at position j is the entry right after the tiles before j, so with the count every entry is fixed |
| `Rows.Condense` | py2048/classes.py:159-163 | condensing keeps the total; the result is no longer than its input and at least half as long |
| `Rows.CondenseMergesPairsOnly` | py2048/classes.py:159-163 | the input splits into consecutive singles and equal pairs, and each output value is a single or a pair's sum, in order; a merged tile never merges again |
| `Rows.CondenseShrinks` | py2048/classes.py:159-163 | condensing shortens the list exactly when two neighbouring values are equal |
| `Rows.CondenseExamples` | py2048/classes.py:159-163 | [2,2,2,2] becomes [4,4]; [2,2,4] becomes [4,4]; [4,2,2] becomes [4,4] |
| `Rows.CondenseInPlace` | py2048/classes.py:159-163 | the enumerate-and-pop loop computes the same list as the pairwise reference definition |
| `Rows.WriteBack` | py2048/classes.py:166-170 | after walking the row backwards, position n-1-m holds the m-th condensed value and every other position is empty |
| `Rows.WriteBackTiles` | py2048/classes.py:166-170 | the written row holds exactly the condensed values: same count, same total |
| `Rows.SlideShape` | py2048/classes.py:151-170 | a moved row is empties followed by c[k-1], ..., c[0]; its tile total is kept and its tile count does not grow |
| `Rows.SlideExample` | py2048/classes.py:151-170 | [2,2,2,4] moved toward its end becomes [_,4,2,4] |
| `Rows.RowValues` | py2048/classes.py:276-288 | when not condensed, the values are the row itself; when condensed, only truthy values remain and there are exactly as many as the row has truthy cells |
| `Rows.RowValuesInOrder` | py2048/classes.py:276-288 | when condensed, every truthy cell is kept, in row order: the cell at position j is the entry right after the values kept before j |
| `Rows.RowValuesAreTiles` | py2048/classes.py:276-288 | without zero tiles, the condensed values are exactly the row's tiles in order |
| `Rows.SlideScanFinds` | py2048/classes.py:247-252 | the reversed scan succeeds exactly when a tile sits before an empty cell |
| `Rows.MergeScanFinds` | py2048/classes.py:254-262 | the enumerate scan succeeds exactly when two neighbouring tiles are equal |
| `Rows.RowMovableIff` | py2048/classes.py:239-262 | one row passes the validity test iff (at the end, it has an empty cell) or a tile can slide or two tiles can merge |
| `Rows.RowMovableAtEnd` | py2048/classes.py:242-262 | at the end, a row passes iff it has an empty cell or a mergeable pair |
| `Rows.TilesKeepPair` | py2048/classes.py:154-163 | two equal neighbouring tiles stay neighbours once the empties are dropped |
| `Rows.MovableRowChanges` | py2048/classes.py:229-262 | a row that passes the strict test really changes when it is moved |
| `Rows.MovableRowLeavesRoom` | py2048/classes.py:151-170 | a row that passes the strict test has an empty first position after the move |
| `Grids.NewBoard` | py2048/classes.py:41-46 | a new board has the given dimensions, all cells empty, score 0 and no snapshot |
| `Grids.GetCell` | py2048/classes.py:121-129 | nothing exactly when x is outside [0, width) or y is outside [0, height); otherwise grid[y][x] |
| `Grids.SetCell` | py2048/classes.py:131-137 | only the addressed cell changes, with Python negative indices; score, snapshot and dimensions are kept |
| `Grids.GetAfterSet` | py2048/classes.py:121-137 | reading a cell just set gives the value set |
| `Grids.Locate` | py2048/classes.py:84-95 | every grid cell lies on some aligned row of each direction |
| `Grids.LocateCoord` | py2048/classes.py:84-95 | locating the cell of an aligned position gives that position back |
| `Grids.GetRowDirections` | py2048/classes.py:89-95 | RIGHT reads grid row i left to right, LEFT reads it right to left, UP reads column i from the bottom row up, DOWN reads it from the top row down |
| `Grids.RightRowIsGridRow` | py2048/classes.py:90 | for RIGHT, aligned row i is grid row i itself |
| `Grids.WriteAligned` | py2048/classes.py:166-170 | writing an aligned row keeps the grid's shape |
| `Grids.WriteAlignedRows` | py2048/classes.py:151-170 | writing aligned row i changes that aligned row to the new one and leaves the other aligned rows alone |
| `Grids.RowsDetermineGrid` | py2048/classes.py:84-95 | two grids with the same aligned rows in one direction are equal |
| `Grids.EmptyCellOnRow` | py2048/classes.py:84-95 | an empty grid cell shows up as an empty cell of its aligned row |
| `Engine.ValidFrom` | py2048/classes.py:237-264 | the row loop returns true iff some remaining aligned row passes the row test |
| `Engine.CheckValidMove` | py2048/classes.py:229-264 | a direction is valid iff some aligned row passes the row test |
| `Engine.ValidMoveIff` | py2048/classes.py:237-264 | the strict test holds iff some aligned row has a tile before an empty cell or two equal neighbouring tiles |
| `Engine.EmptyCellValidAtEnd` | py2048/classes.py:242-244 | at the end, any empty cell makes every direction valid |
| `Engine.NoDirectionValid` | py2048/classes.py:270-273 | the direction loop finds no valid direction iff none of the listed directions is valid at the end |
| `Engine.CheckGameOver` | py2048/classes.py:266-273 | the game is over iff no direction is valid at the end |
| `Engine.GameOverIff` | py2048/classes.py:266-273 | the game is over iff the board is full and no aligned row of any direction has two equal neighbouring tiles |
| `Engine.NotOverWithEmptyCell` | py2048/classes.py:242-273 | a board with an empty cell is not over |
| `Engine.FullBoardOfTwosNotOver` | py2048/classes.py:254-273 | a full board of 2s at least two wide is not over |
| `Engine.MoveRows` | py2048/classes.py:151-170 | the row loop keeps the board square |
| `Engine.MoveStep` | py2048/classes.py:152-170 | one iteration turns aligned row i into the transform of its contents and leaves every other aligned row alone |
| `Engine.MoveRowsKeepsDone` | py2048/classes.py:151-170 | the rest of the row loop leaves the aligned rows already handled alone |
| `Engine.MoveRowsSlides` | py2048/classes.py:151-170 | every aligned row not yet handled ends up as the slide of its original |
| `Engine.MovePieces` | py2048/classes.py:139-171 | a move fails iff the strict test fails, and then the board is unchanged; a successful move snapshots the old grid and keeps score and dimensions |
| `Engine.MovePiecesRows` | py2048/classes.py:151-170 | after a move every aligned row is the slide of the old one; its total is kept and its tile count does not grow |
| `Engine.MovePiecesUnique` | py2048/classes.py:151-170 | any square grid whose aligned rows are the slides of the old ones is the moved grid |
| `Engine.MoveChangesGrid` | py2048/classes.py:139-171 | a successful move changes the grid |
| `Engine.Undo` | py2048/classes.py:173-181 | undo puts the snapshot back if there is one, always clears it, and keeps score and dimensions |
| `Engine.UndoAfterMove` | py2048/classes.py:144-181 | undo after a successful move restores the board before it, without its snapshot; after a failed move it is a plain undo |
| `Engine.UndoOnce` | py2048/classes.py:173-181 | a second undo is a no-op, and so is an undo without a snapshot |
| `Engine.RowEmpties` | py2048/classes.py:196-201 | the empty cells of one row, each once, in increasing x |
| `Engine.EmptyCellsUpTo` | py2048/classes.py:193-201 | the empty cells of the first rows, each once, in row-major order |
| `Engine.EmptyCellsOfBoard` | py2048/classes.py:193-201 | the list holds every empty cell of the board and nothing else |
| `Engine.TileValue` | py2048/classes.py:188-189 | the given value if any; otherwise 4 on a roll of 10 and 2 on any other roll |
| `Engine.GenerateTile` | py2048/classes.py:183-209 | the score grows by the value even when nothing is placed; it succeeds iff an empty cell exists; the chosen empty cell gets the value and no other cell changes |
| `Engine.MovedRowStartsEmpty` | py2048/classes.py:151-170 | an aligned row that passes the strict test has an empty cell at its first position after the move |
| `Engine.MoveLeavesRoom` | py2048/interface.py:61-65 | after a successful move the grid has an empty cell, so the spawn that follows always places its tile |
| `Engine.SpawnDrawsZeroAndNCoincide` | py2048/classes.py:203-206 | the draws 0 and n land on the same cell, the last empty one |
| `Colours.LStrip` | py2048/interface.py:24 | every leading '#' is removed and nothing else |
| `Colours.Slice` | py2048/interface.py:25 | a Python slice gives the characters that exist at positions i .. j-1 |
| `Colours.HexDigit` | py2048/interface.py:25 | exactly the 22 hexadecimal digit characters have a value, in [0, 16) |
| `Colours.HexValue` | py2048/interface.py:25 | the value of n hexadecimal digits is below 16^n |
| `Colours.TwoDigitValue` | py2048/interface.py:25 | two hexadecimal digits denote 16 times the first plus the second |
| `Colours.LeadingSpace` | py2048/interface.py:25 | the count of leading characters int() skips: all of them are whitespace and the next one is not |
| `Colours.TrailingSpace` | py2048/interface.py:25 | where the trailing whitespace int() skips begins: everything from there on is whitespace and the character before is not |
| `Colours.StripSpace` | py2048/interface.py:25 | the result is a slice of the text, everything outside it is whitespace int() skips, and the slice neither starts nor ends with such whitespace |
| `Colours.ParseSigned` | py2048/interface.py:25 | an empty literal is refused; up to two characters give a value in [-15, 255]; two digits give their value |
| `Colours.ParseHex` | py2048/interface.py:25 | int(text, 16) refuses empty text, gives a value in [-15, 255] on up to two characters, and parses two digits exactly |
| `Colours.ParseHexSkipsSpace` | py2048/interface.py:25 | int(" f", 16) and int("f\t", 16) are both 15: a space or tab around the digits is skipped |
| `Colours.SeparatorKept` | py2048/interface.py:25 | two characters that are not int() whitespace, the first not a sign, and not both hex digits are refused |
| `Colours.ParseHexKeepsSeparators` | py2048/interface.py:25 | the ASCII separators U+001C and U+001F next to a digit are not skipped, so the literal is refused |
| `Colours.PairParses` | py2048/interface.py:25 | each pair of digits parses to its component |
| `Colours.PairsParse` | py2048/interface.py:25 | with six digits, the three pairs parse to their components |
| `Colours.ParsePairs` | py2048/interface.py:25 | the three components lie in [-15, 255]; four or fewer characters fail; six digits give the three pair values |
| `Colours.HexToRgb` | py2048/interface.py:20-25 | the same after the hashes are stripped: components in [-15, 255], failure on four or fewer characters, the pair values on six digits |
| `Colours.HashesIgnored` | py2048/interface.py:24 | "#" + s, "##" + s and s give the same result |
| `Colours.SameStripSameColour` | py2048/interface.py:24-25 | two inputs that lstrip('#') turns into the same text give the same result |
| `Colours.HashStripped` | py2048/interface.py:24 | one more leading '#' is stripped away as well |
| `Colours.LStripAppend` | py2048/interface.py:24 | appending after a non-hash character does not change what is stripped |
| `Colours.PairsOfPrefix` | py2048/interface.py:25 | characters after the sixth do not change the parsed pairs |
| `Colours.TailIgnored` | py2048/interface.py:24-25 | characters after the sixth non-hash character are ignored |
| `Colours.HexChar` | py2048/interface.py:5-18 | the digit written for v reads back as v |
| `Colours.FormatRoundTrip` | py2048/interface.py:20-25 | a colour written as '#' and three two-digit pairs parses back to itself |
| `Colours.CodeParses` | py2048/interface.py:5-18 | a '#' and six hexadecimal digits parse to components in [0, 255] |
| `Colours.ColourTableParses` | py2048/interface.py:5-30 | every entry of the colour table parses, with components in [0, 255] |
| `Interface.InitialBoard` | py2048/interface.py:34-38 | the starting board is 4 x 4 with top row 2, 2, 2, 4, everything else empty, score 0 and no snapshot |
| `Interface.Spawn` | py2048/interface.py:65 | the spawn adds the spawned value to the score and succeeds iff the moved grid has an empty cell |
| `Interface.HandleEvent` | py2048/interface.py:50-68 | quit stops the loop; Z only undoes; other keys and a refused arrow change nothing; a successful arrow spawns once and stops the loop if the game is over; a stopped loop stays stopped |
| `Interface.SpawnLands` | py2048/interface.py:65 | the spawned tile is 2 or 4 and lands on one empty cell; no other cell changes |
| `Interface.ArrowTurnBoard` | py2048/interface.py:63-65 | a successful arrow turn's board is the spawn on the moved board |
| `Interface.ArrowSpawnsOnce` | py2048/interface.py:61-65 | a successful arrow adds exactly one tile, of 2 or 4, on a cell the move left empty |
| `Interface.UndoAfterTurn` | py2048/interface.py:59-65 | Z straight after a successful arrow restores the grid but keeps the spawned score |
| `Interface.UndoTwiceIsUndoOnce` | py2048/interface.py:59-60 | pressing Z twice is the same as pressing it once |
| `Interface.FirstRightMove` | py2048/classes.py:151-170 | on the starting board, RIGHT succeeds and turns the top row into _, 4, 2, 4 |

## Left out

- The pygame window, fonts, drawing and event polling (py2048/interface.py:33-91) are I/O. Only the effect of one event on the board and the `running` flag is modelled.
- `randint` in `generate_tile` is replaced by the parameters `roll` and `k`. No probability distribution is modelled, so the bias toward the last empty cell is stated only as `Engine.SpawnDrawsZeroAndNCoincide`.
- `fill_grid`, `print_board`, `get_max_value` and `get_rotated_board` are console and testing helpers the engine does not use.
- `GameCell`'s `x` and `y` fields and its `__repr__`/`__str__` are left out. Only a cell's value is ever changed, so a cell's position is its index in the grid.
- py2048/main.py and setup.py are not part of this model.
- Engine.MovePieces: requires a square board. The source's row count swaps the axes on a non-square board (classes.py line 149), and then it reads outside the grid or skips rows.
- Engine.CheckValidMove: requires a square board, for the same reason (classes.py line 235).
- Engine.CheckGameOver: requires a square board, because it calls the validity test.
- Interface.HandleEvent: requires a square board, since it moves and tests for game over.
- Grids.SetCell: an index outside [-n, n), on which Python raises IndexError, is excluded by the precondition. It is not modelled as an error result.
- Colours.ParseHex: int(text, 16) also accepts non-ASCII Unicode decimal digits, and this model refuses them. A literal that uses the "0x" prefix or an underscore needs at least three characters, and on the two-character slices hex_to_rgb passes, int() and the model both refuse such text.
