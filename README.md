# Falling-block puzzle engine, modelled in Dafny

This project models the board and piece engine of a small Tetris clone
(`123.py`). The board is 20 rows of 10 cells, where 0 is empty and 1 is occupied.
A piece is a 0/1 matrix from a catalog of seven tetrominoes. One tick of the game
loop does three things in order:
- it handles the queued events (arrow keys move or rotate the piece, QUIT ends
  the game);
- gravity moves the piece down one row;
- if the piece cannot move down, it locks into the board, full rows are cleared,
  and the next shape spawns at column 5, row 0. If that shape does not fit
  there, the game is over.

Modules, one per component:

- `Grids` (`grids.dfy`): the cell grid type, the `Offset` position (column, row),
  rectangularity, the set of occupied cells, and the `Board` object whose row list
  is updated in place.
- `Shapes` (`shapes.dfy`): the seven catalog shapes and clockwise rotation,
  written as `zip(*shape)` followed by reversing each tuple.
- `Placement` (`placement.dfy`): `valid_move` as the method `ValidMove`, a nested
  scan with early return that is proved equal to the predicate `Fits`.
  `place_shape` as `PlaceShape`, which writes 1 into the board in place and is
  proved equal to the function `Stamp`.
- `Lines` (`lines.dfy`): `clear_lines` as `ClearLines`, the index loop that pops
  each full row and inserts an empty row at the top. It is proved equal to
  `Cleared`, which is k empty rows followed by the rows that were not full, in
  order.
- `Tetris` (`game.dfy`): the game state, one tick as the function `Step`, and the
  `Game` class. The class holds the loop's variables, and its `Tick` and `Play`
  methods are proved to follow `Step` and `Run`.

Random choices and the event queue are inputs to the model. Each tick takes the
list of events polled in that tick and the shape that `random.choice` would
return at the next spawn.

Points where the code behaves differently from what one might expect, all followed by the model:

- Once `game_over` is set, the loop ends; the game does not go on polling for a
  quit request. `Game.Tick` requires a running game and `Play` stops at game over.
- `clear_lines` does not re-examine a row. After popping row `y` and inserting an
  empty row at the top, index `y` holds the old row `y - 1`, which was already
  examined, and the scan goes on at the old row `y + 1`. The loop invariant of
  `ClearLines` (`Scan`) shows that the in-place loop equals the one-pass rebuild
  `Cleared` for any number of full rows.
- Locked cells always hold the marker 1, never a colour index.
- Four rotations give back any non-empty rectangular shape, not only square ones.
- The first piece is placed without a `valid_move` check. `InitialStateValid`
  proves that every catalog shape fits there on the empty board.

## Model

| member | source | states |
|---|---|---|
| `Grids.Width` | 123.py:59 | the board width as the game reads it, `len(board[0])`; `ValidMove` and `ClearLines` require a rectangular board, where this is every row's width |
| `Grids.EmptyRow` | 123.py:41 | `[0] * w`, a row of `w` zeros; `ClearLines` inserts the same kind of row (123.py:80), so `ClearedKeepsBinary` and `ClearedHasNoFullRow` hold |
| `Grids.EmptyGrid` | 123.py:41 | `h` rows of `[0] * w`; `InitGame` states its dimensions and that no cell is occupied |
| `Shapes.Catalog` | 123.py:29-37 | the seven shapes I, O, T, S, Z, L, J exactly as listed; `CatalogWellFormed` and `InitialStateValid` prove their properties |
| `Shapes.MinWidth` | 123.py:51 | the number of tuples `zip(*shape)` yields is at most every row's length and equal to some row's length (0 for no rows) |
| `Shapes.Column` | 123.py:51 | the `i`-th tuple of `zip(*shape)`: cell `i` of every row, top to bottom |
| `Shapes.Zip` | 123.py:51 | `zip(*shape)`: one column per index below `MinWidth`, so ragged rows are cut to the shortest; `Rotate`'s ensures give its cells |
| `Shapes.Reverse` | 123.py:51 | `reversed` keeps the length and puts element `k` at position `len - 1 - k` |
| `Shapes.Rotate` | 123.py:50-51 | the result has one row per column that zip keeps, each row has one cell per input row, and `result[i][j] == shape[R-1-j][i]` |
| `Shapes.MinWidthRectangular` | 123.py:51 | on a rectangular shape zip keeps every column |
| `Shapes.RotateDimensions` | 123.py:50-51 | rotating a non-empty rectangular R x C shape gives a rectangular C x R shape |
| `Shapes.RotateTwice` | 123.py:50-51 | two rotations map cell (i, j) to (R-1-i, C-1-j) |
| `Shapes.RotateFourTimes` | 123.py:50-51 | four rotations give back the original non-empty rectangular shape |
| `Shapes.RotateOccupied` | 123.py:50-51 | the occupied cells of the rotated shape are the images of the original ones under (y, x) to (x, R-1-y) |
| `Shapes.RotateKeepsCellCount` | 123.py:50-51 | rotation keeps the number of occupied cells |
| `Shapes.CatalogWellFormed` | 123.py:29-37 | every catalog shape is a non-empty rectangle of 0/1 cells |
| `Placement.CellFits` | 123.py:59-62 | one occupied cell may sit at (row, column): the column is within the width, the row is above the bottom, and if the row is 0 or more the board cell is empty |
| `Placement.Fits` | 123.py:56-62 | every occupied shape cell satisfies `CellFits` at its board position; `ValidMove` is proved equal to it, and `OutOfBoundsRejected` and `AboveTopAccepted` state its edge cases |
| `Placement.ValidMove` | 123.py:54-63 | returns true exactly when every occupied cell is within the columns and above the bottom, and lands on an empty cell if its row is 0 or more |
| `Placement.OutOfBoundsRejected` | 123.py:59-60 | an occupied cell at a column below 0, a column at or past the width, or a row at or past the height makes the move invalid |
| `Placement.AboveTopAccepted` | 123.py:59-62 | cells above the top row are never rejected for that, and the board is not read for them: such a piece within the columns is valid whatever the board holds |
| `Placement.FitsLands` | 123.py:59-62 | a valid piece whose corner is on or below the top row lands entirely on board cells, so `place_shape` indexes only real cells |
| `Placement.Stamp` | 123.py:66-72 | the board with 1 in every cell under an occupied shape cell and every other cell kept; `PlaceShape` is proved equal to it, and `StampOccupied` and `StampAddsPieceCells` give its effect on the occupied cells |
| `Placement.PlaceShape` | 123.py:66-72 | the new board is the old one with 1 written under every occupied shape cell; no other cell changes |
| `Placement.StampKeepsDimensions` | 123.py:66-72 | placing keeps the number of rows and each row's width |
| `Placement.StampKeepsBinary` | 123.py:71 | placing writes only 1, so a 0/1 board stays 0/1 |
| `Placement.StampOccupied` | 123.py:68-71 | the occupied cells afterwards are the old ones plus the translated occupied shape cells |
| `Placement.StampAddsPieceCells` | 123.py:66-72 | placing a valid piece raises the occupied-cell count by exactly the piece's cell count |
| `Lines.IsFull` | 123.py:78 | `all(row)`: every cell is non-zero, which an empty row satisfies |
| `Lines.FullCount` | 123.py:76-81 | the number of full rows, counted in order; `FullCountCountsFullRows` proves it equals the size of the set of full-row indices |
| `Lines.Cleared` | 123.py:75-82 | one empty row per full row, then the non-full rows in order; `ClearLines` is proved equal to it, and `ClearedHasNoFullRow`, `ClearedIdempotent`, `NoFullRowUnchanged` and `OneFullRow` state its properties |
| `Lines.NonFull` | 123.py:77-81 | the rows kept number the rows minus the full rows |
| `Lines.ClearLines` | 123.py:75-82 | returns the number of full rows, and the board becomes that many empty rows followed by the non-full rows in their original order |
| `Lines.Pop` | 123.py:79 | `pop` removes exactly one row |
| `Lines.ScanPop` | 123.py:78-81 | popping a full row and inserting an empty row of the first remaining row's width moves the scan one row on with one more row cleared |
| `Lines.NonFullRows` | 123.py:77-81 | the kept rows are exactly the rows that are not full |
| `Lines.FullCountCountsFullRows` | 123.py:76-81 | the counter equals the number of indices of full rows |
| `Lines.ClearedDimensions` | 123.py:75-82 | clearing keeps the row count and every row's width |
| `Lines.ClearedHasNoFullRow` | 123.py:77-81 | on a board of non-zero width no full row remains |
| `Lines.NoFullRowUnchanged` | 123.py:77-82 | a board without full rows is unchanged and 0 is returned |
| `Lines.ClearedIdempotent` | 123.py:75-82 | clearing an already cleared board changes nothing |
| `Lines.OneFullRow` | 123.py:78-81 | with exactly row k full, the result is one empty row, then the rows above k, then the rows below k, and the count is 1 |
| `Lines.ClearedKeepsBinary` | 123.py:80 | clearing inserts only zero rows, so a 0/1 board stays 0/1 |
| `Tetris.InitGame` | 123.py:40-42 | the initial board has 20 rows of 10 cells, all 0 |
| `Tetris.Proposed` | 123.py:111-124 | the state an arrow key asks for: Left, Right and Down shift the position by one, Up rotates the shape, other keys ask for nothing; see `KeyOutcome` |
| `Tetris.HandleEvent` | 123.py:107-126 | one event: QUIT sets `game_over`, an arrow key takes its `Proposed` state only when it fits; `HandleEventKeeps` proves the board is untouched and the invariant kept |
| `Tetris.HandleEvents` | 123.py:107 | all of a tick's events applied in order, none skipped after a QUIT; `HandleEventsKeeps` proves `game_over` is set exactly when a QUIT is among them |
| `Tetris.Lock` | 123.py:133-139 | place the piece, clear lines, put `next` at column 5, row 0, and set `game_over` when it does not fit there; see `LockAddsPieceCells` and `LockKeepsInv` |
| `Tetris.Fall` | 123.py:129-139 | one row down when the piece fits there, otherwise `Lock`; see `StepKeepsInv` |
| `Tetris.Step` | 123.py:103-139 | one loop iteration: the events in order, then gravity unless `game_over`; see `StepKeepsInv` and `GameOverCause` |
| `Tetris.Run` | 123.py:103 | `while not game_over`: ticks until the game is over or the inputs run out; see `RunKeepsInv` |
| `Tetris.SpawnFitsOnEmptyBoard` | 123.py:100 | a shape at most 5 cells wide and 20 tall fits at column 5, row 0 of the empty board |
| `Tetris.InitialStateValid` | 123.py:97-102 | the starting state, with any catalog shape, satisfies the game invariant |
| `Tetris.KeyOutcome` | 123.py:111-126 | an arrow or rotation whose target fails `valid_move` leaves the state unchanged; an accepted arrow changes only the position, and an accepted Up changes only the shape, to its rotation |
| `Tetris.HandleEventKeeps` | 123.py:107-126 | an event never changes the board, sets `game_over` only on QUIT, and keeps the invariant |
| `Tetris.HandleEventsKeeps` | 123.py:107-126 | a tick's events leave the board alone, end the game exactly when one of them is QUIT, and keep the invariant |
| `Tetris.LockAddsPieceCells` | 123.py:133-134 | locking raises the occupied-cell count by exactly the piece's cell count, before lines are cleared |
| `Tetris.LockKeepsInv` | 123.py:133-139 | after lock, clear and spawn the board is still 20 x 10 and 0/1, and the new piece is valid unless the game is over |
| `Tetris.StepKeepsInv` | 123.py:103-139 | while the game is running, one tick keeps the piece at a valid position and the board 20 x 10 with 0/1 cells |
| `Tetris.GameOverCause` | 123.py:107-139 | a tick ends the game exactly when a QUIT arrives, or when the piece locks and the next shape fails at the spawn position |
| `Tetris.RunKeepsInv` | 123.py:102-139 | any number of ticks keeps the invariant |
| `Tetris.Game.constructor` | 123.py:97-102 | the loop starts from the empty board with the first shape at the spawn position, and the invariant holds |
| `Tetris.Game.Tick` | 123.py:103-139 | one loop iteration changes the state exactly as `Step` says and keeps the invariant |
| `Tetris.Game.ApplyEvent` | 123.py:107-126 | handling one event changes the state exactly as `HandleEvent` says: QUIT sets `game_over`, an arrow or rotation is applied only when `valid_move` accepts it |
| `Tetris.Game.TryPlace` | 123.py:112-126 | the new shape and position are taken exactly when `valid_move` accepts them; otherwise nothing changes |
| `Tetris.Game.Gravity` | 123.py:129-139 | the piece moves down one row when it fits there, otherwise it locks, as `Fall` says |
| `Tetris.Game.LockPiece` | 123.py:133-139 | placing, clearing and spawning give the state `Lock` describes; `game_over` is set exactly when the new shape fails at column 5, row 0 |
| `Tetris.Game.Play` | 123.py:102-139 | the loop runs ticks until `game_over` or until the inputs run out, as `Run` says, keeping the invariant |

## Left out

- Drawing is left out: the window, `draw_board`, drawing the falling piece, `display_text` and the "Game Over!" text, display updates, and the 10-per-second clock. None of them changes the game state.
- `random.choice` is replaced by parameters. The first shape is a constructor argument, and each tick's next shape is an argument of `Tick`. The falling piece's colour is not modelled, because it only affects drawing.
- `pygame.event.get` is replaced by a parameter. Each tick takes the list of events polled in that tick. Key codes other than the four arrows, and event types other than QUIT and KEYDOWN, become `OtherKey` and `OtherEvent`.
- `pygame.quit` and `sys.exit` are left out. They only end the process.
- Placement.ValidMove: requires at least one board row and equal row lengths. The code reads the width from `board[0]`, and the board is always 20 x 10.
- Placement.PlaceShape: requires every occupied cell to land on the board with a row of 0 or more. Python's negative indices would write into the bottom row or the last columns instead. The game never does this, because the row starts at 0 and only grows.
- Lines.ClearLines: requires equal row lengths, and excludes a one-row board whose row is full. In that case the code fails reading `board[0]` after the pop.
- `rotate` on rows of different lengths is modelled: zip truncates to the shortest row. The four-rotation and cell-count lemmas are stated only for non-empty rectangular shapes.
