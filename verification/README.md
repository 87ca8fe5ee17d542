# Falling-block rule engine, in Dafny

A model of the rules of a small falling-block puzzle game (a Tetris clone
written in Python with pygame, `main/main.py`). It covers a 10 x 20 board
derived from a 300 x 600 window with 30-pixel cells. A falling piece has an
origin, a list of rotation states and a colour. Locked cells are a map from
coordinates to colours. Every frame rebuilds a grid snapshot from that map.
A collision oracle accepts or rejects piece positions against the snapshot.
The model then covers the gravity tick, the four arrow-key intents (each a
move with an undo on rejection), locking and the hand-over to the next
piece, the bottom-up line clearer, score / level / speed, and the
row-below-1 loss check.

Modules, in dependency order:

- `Geometry` (`geometry.dfy`): board constants, colours and cells.
- `Pieces` (`pieces.dfy`): `Piece`, `image`, `rotate`, `convert_shape_format` and `get_shape`.
- `Board` (`board.dfy`): `create_grid`, the per-frame painting of the piece, locking, `valid_space` and `check_lost`.
- `LineClear` (`line_clear.dfy`): `clear_rows`.
- `Game` (`game.dfy`): one frame of `main`, the session state and any number of frames.

The reachable-state invariant `Game.Inv` holds after `Game.Start` and is
preserved by `Game.Step`. It says that:

- every locked cell is on the board;
- the falling piece has an in-range rotation index and lies on the board;
- the next piece sits at the spawn point;
- score, level and speed agree with each other;
- the session runs exactly while no locked cell is on row 0 or above.

`create_grid` and the painting of the falling piece index the grid directly.
The invariant is what guarantees that those indices exist.

Three behaviours of the program are easy to miss, and the model keeps them:

- **Two or more full rows.** The program reads fullness from the snapshot
  taken before any clearing and never refreshes it. After the first clear,
  the next full index holds the row that has just slid down, and that row
  is what gets deleted. `LineClear.ClearAdjacentRows` shows the result for
  the two bottom rows: the count is 2, but the bottom row holds the old
  upper full row again. `LineClear.ClearAdjacentRowsLosesRowAbove` shows
  where the loss falls instead: the entries of row Rows - 3 are gone.
- **Level.** The program adds at most one level per lock, and only when
  `score // 500 >= level`, however many multiples of 500 the score has
  passed. `Game.Advance` states this rule.
- **Loss check.** The program checks for loss at the end of the frame,
  after clearing, so a row-0 cell that a clear shifts down to row 1 does not
  end the game. `Game.Land` states that a lock touching row 0 or above that
  clears nothing ends the game.

## Model

| member | source | states |
|---|---|---|
| Pieces.ImageIsActiveState | main/main.py:44-45 | `image` (Pieces.Image) selects the state the index names when it is in range; an in-range index plus a whole turn selects the same state; after a rotation it selects the state one index further on |
| Pieces.Rotate | main/main.py:47-48 | after a rotation the index is in [0, number of states), whatever it was before; position, shape and colour are unchanged |
| Pieces.UnrotateUndoesRotate | main/main.py:199-202 | the key handler's undo `(rotation - 1) % len(shape)` after a rotation gives back exactly the piece it started from, for every in-range index (including the wrap from the last state to 0) |
| Pieces.RotateNIndex | main/main.py:47-48 | up to a full cycle, k rotations advance the index by k and wrap at most once; position, shape and colour are unchanged |
| Pieces.RotateCycle | main/main.py:44-48 | as many rotations as the shape has states return the piece to where it started |
| Pieces.RowCells | main/main.py:64-66 | a cell is in the list of one matrix row laid at (x, y) exactly when it is (x + j, y) for an entry j equal to 1; the list is in strictly increasing column order, one cell per such entry |
| Pieces.MatrixCells | main/main.py:59-67 | a cell is listed exactly when it is (x + j, y + i) for an entry m[i][j] equal to 1 (both directions); the list is row-major without repeats, as many cells as the matrix has 1 entries |
| Pieces.CellsBelowOrigin | main/main.py:59-67 | no covered cell lies above the piece's origin row |
| Pieces.CellCountIgnoresPosition | main/main.py:59-67 | the number of covered cells is the number of 1 entries of the active state, wherever the piece stands |
| Pieces.Cells | main/main.py:59-67 | `convert_shape_format`: a cell is covered exactly when it lies under a 1 entry of the active state laid with its top-left at the piece's origin |
| Pieces.TranslateCells | main/main.py:59-67 | moving a piece's origin by (dx, dy) (Pieces.Shift) moves every covered cell by (dx, dy) and covers nothing else (Pieces.Translated) |
| Pieces.SpawnInBounds | main/main.py:88-89 | a piece spawned at (COLS // 2 - 2, 0) in state 0 whose first state fits there covers only board cells |
| Pieces.SpawnCells | main/main.py:88-89 | `get_shape` (Pieces.Spawn): the spawned piece covers exactly the cells under the 1 entries of the shape's first state, laid from column COLS // 2 - 2 of row 0 |
| Board.CreateGrid | main/main.py:51-56 | the snapshot is 20 rows of 10 cells; a board cell is Black exactly when no locked entry names it; every locked entry on a visible row shows its colour at grid[row][col] |
| Board.PaintCells | main/main.py:204-207 | after painting, every cell in the list shows the piece colour and every other board cell is as before; cells above the board are skipped |
| Board.LockCells | main/main.py:209-211 | the locked keys become the old keys plus the listed cells, whatever their row; each listed cell gets the colour; every other entry keeps its own |
| Board.Lock | main/main.py:204-211 | locking a piece adds exactly its covered cells in its colour and leaves every other locked entry unchanged |
| Board.ValidExactly | main/main.py:70-78 | `valid_space` (Board.Valid) on any 20 x 10 grid: a piece is accepted exactly when each of its cells on a visible row is on the board and Black in the grid; cells on negative rows are never checked |
| Board.ValidOnSnapshot | main/main.py:70-78 | on a snapshot of the locked cells, a piece is accepted exactly when each of its cells on a visible row is on the board and not locked; cells on negative rows never cause a rejection |
| Board.ValidInBounds | main/main.py:70-78 | every visible cell of an accepted piece is on the board |
| Board.SnapshotAfterLock | main/main.py:204-215 | the snapshot handed to clear_rows (the frame's grid with the piece painted over) equals the grid of the locked map after the lock |
| Board.CheckLost | main/main.py:81-85 | the scan that stops at the first position on row 0 or above returns true exactly when some position has a row below 1 |
| Board.CheckLostDecides | main/main.py:81-85 | scanning the locked keys in any order that lists exactly them returns true exactly when some locked cell is on row 0 or above (Board.Lost) |
| LineClear.ShiftAbove | main/main.py:102-105 | after the shift for row i, every entry above row i sits one row lower with its colour, and every entry below row i is untouched; every resulting entry is one of these or the original entry at its own cell |
| LineClear.ShiftAboveInPlace | main/main.py:102-105 | the pop-and-reinsert loop, visiting the keys in descending row order, produces exactly the map ShiftAbove describes: no moved entry is overwritten before it is moved |
| LineClear.DeleteColsFrom | main/main.py:97-101 | once the delete loop has visited columns j .. COLS - 1 of row i, removing each locked (column, i) and skipping the missing ones, exactly those entries are gone and every other entry keeps its colour |
| LineClear.DeleteColsIsDeleteRow | main/main.py:97-101 | the whole delete loop (LineClear.DeleteCols) removes exactly the row-i entries on board columns (LineClear.DeleteRow) and nothing else |
| LineClear.ClearFrom | main/main.py:94-105 | the scan from row i up to row 0 counts exactly the full snapshot rows among 0..i |
| LineClear.ClearRows | main/main.py:92-106 | the returned count is the number of snapshot rows with no Black cell |
| LineClear.NothingClearedNothingChanged | main/main.py:92-106 | a clear that reports 0 rows leaves the locked map unchanged |
| LineClear.ClearFromNoneFull | main/main.py:94-96 | a scan over rows none of which is full changes nothing and counts 0 |
| LineClear.ClearFromSingle | main/main.py:94-105 | a scan whose only full row is i performs exactly one delete-and-shift, at row i |
| LineClear.ClearOneFullRowMap | main/main.py:92-106 | with exactly one full snapshot row i, clear_rows reports 1 and leaves the map after one delete-and-shift at row i |
| LineClear.RowClearKeys | main/main.py:97-105 | after clearing row i (with its entries on board columns), the keys are those below row i plus those above it moved one row down |
| LineClear.RowClearSize | main/main.py:97-105 | clearing row i shrinks the map by exactly the number of entries on row i: nothing is lost or duplicated by the shift |
| LineClear.RowClearEffect | main/main.py:97-105 | clearing row i removes its entries, moves every entry above it down one row with its colour, keeps every entry below it, adds nothing else, and shrinks the map by the entries of row i |
| LineClear.ClearOneFullRow | main/main.py:92-106 | with exactly one full snapshot row, clear_rows reports 1 and leaves the map RowClearEffect describes |
| LineClear.ClearAdjacentRows | main/main.py:94-105 | with the two bottom rows full and the upper one fully locked, clear_rows reports 2, yet the bottom row afterwards holds every entry of the old upper full row |
| LineClear.ClearBottomPair | main/main.py:92-106 | with exactly the two bottom snapshot rows full, clear_rows reports 2 and leaves the map after a delete-and-shift at the bottom row followed by a delete-and-shift at the row above it |
| LineClear.RowSlidDown | main/main.py:97-105 | after the bottom row is cleared, the row above it holds exactly as many entries as old row Rows - 3 had, all on board columns |
| LineClear.ClearAdjacentRowsLosesRowAbove | main/main.py:94-105 | with exactly the two bottom snapshot rows full, clear_rows removes as many entries as the bottom row and row Rows - 3 held together: the second pass deletes the row that slid down, not the upper full row |
| LineClear.ClearFromInBounds | main/main.py:92-106 | clearing keeps every locked entry on the board |
| Game.Gravity | main/main.py:173-178 | below the fall speed nothing changes; at the speed the timer resets, the piece moves one row down when accepted there, and otherwise a lock is requested exactly when the new origin row is positive, with the piece put back |
| Game.GravityKeepsPieceInv | main/main.py:173-178 | from a reachable piece, a tick leaves the piece in place or moves it one row down to an accepted position, so it stays on the board |
| Game.AttemptMoves | main/main.py:186-202 | what each key's optimistic move (Game.Attempt) does to the covered cells: for Left, Right and Down the piece covers exactly its old cells moved by (-1, 0), (1, 0) and (0, 1); for Up (with an in-range index) it covers exactly the cells under the next rotation state, the first after the last, laid at the same origin |
| Game.RevertUndoesAttempt | main/main.py:186-202 | each key's undo (Game.Revert) after its move (Game.Attempt) puts the piece back at its position; for an in-range rotation index it restores the piece exactly |
| Game.ApplyKey | main/main.py:186-202 | a key's move is kept exactly when the oracle accepts the moved piece; otherwise the piece is back where it was (and, for an in-range index, exactly as it was) |
| Game.KeyKeepsPieceInv | main/main.py:186-202 | after a key, a reachable piece is either the accepted moved piece or unchanged, and stays on the board |
| Game.ApplyKeys | main/main.py:180-202 | the keys of a frame never change the shape or colour, and a reachable piece stays reachable |
| Game.Advance | main/main.py:215-220 | score rises by 100 per cleared row; the level rises by one exactly when rows were cleared and score // 500 has reached the current level, and otherwise stays; the speed never slows and never passes 100 ms |
| Game.AdvanceKeepsProgressInv | main/main.py:215-220 | score non-negative, 1 <= level <= 1 + score // 500 and speed equal to the one reached at that level hold again after an update |
| Game.Start | main/main.py:150-163 | a fresh session (no locked cells, two spawned pieces, score 0, level 1, 500 ms) is reachable and running |
| Game.LockAndClear | main/main.py:204-215 | the lock followed by clear_rows on the painted snapshot counts exactly the full rows of the grid of the locked map after the lock; with none, the map is the lock alone |
| Game.LockAndClearInBounds | main/main.py:209-215 | locking an on-board piece and clearing keeps every locked entry on the board |
| Game.Land | main/main.py:209-227 | on a lock the locked map becomes the lock followed by clear_rows, the next piece becomes current, a new piece is spawned, the fall timer is the reset one, score grows by 100 per full row of the locked board, the session runs exactly while no locked cell of that map is on row 0 or above, and a piece touching row 0 or above that clears nothing ends the game |
| Game.LandLockedInBounds | main/main.py:209-215 | after landing every locked entry is on the board |
| Game.LandProgressInv | main/main.py:215-220 | after landing score, level and speed still agree |
| Game.LandKeepsInv | main/main.py:209-227 | landing a reachable piece from a reachable session gives a reachable session |
| Game.Step | main/main.py:168-227 | one frame keeps the session reachable; an ended session stays as it is; score never decreases, the level rises by at most one, and the speed never slows and never passes 100 ms |
| Game.Run | main/main.py:168-227 | over any sequence of frames the session stays reachable, score and level never decrease, the speed never slows, and an ended session stays as it is |

## Left out

- Rendering is not modelled: `draw_grid`, `draw_next_shape`, `draw_window`, fonts, the window and the display update. The RGB values are replaced by an enumerated palette, since the rules only compare colours with Black.
- Event polling and the QUIT event are not modelled. A frame receives its arrow keys as a sequence, and any other key has no effect.
- The clock is not modelled. A frame receives the milliseconds elapsed since the previous frame.
- Randomness is not modelled. The shape and colour of a newly spawned piece are frame inputs, and `Game.Start` takes the first two.
- Floating-point speed is replaced by whole milliseconds: 500, minus 50 per level, floored at 100. Float rounding in `speed - 0.05` and in `fall_time / 1000 >= speed` is not modelled.
- The concrete shape catalog is not modelled; a shape is any non-empty list of 0/1 matrices whose first state fits at the spawn point. As written, `SHAPES` holds single matrices while `Piece.image` and `Piece.rotate` index a list of rotation states. With that catalog `image()` would return one matrix row and `convert_shape_format` would iterate over an integer and fail. The model follows the reading `Piece` assumes.
- The `pip install pygame` line at the top of the file is a shell command, not Python, and is ignored.
- Board.CreateGrid: requires every locked entry on a visible row to be on the board. For an entry off the board, the program would raise an IndexError or, for a negative column, wrap around to the other side. `Game.Inv` rules such entries out in every reachable state.
- Board.PaintCells: requires every painted cell on a visible row to be on the board, for the same reason. The gravity and key rules only keep a piece the oracle accepts, so reachable pieces satisfy this.
- LineClear.ShiftAboveInPlace: takes the visiting order as an input, namely any row-descending listing of the keys without repeats. The program obtains such an order from Python's sort by row followed by reversal, and the exact tie order among keys on one row does not change the result.
- LineClear.RowClearEffect: stated only when every entry on the cleared row lies on a board column. An off-board entry on that row would survive the delete loop, and reachable states have none.
- LineClear.ClearOneFullRow: stated under the same on-board condition as RowClearEffect.
- Game.ApplyKey: when a rotation from an index outside [0, number of states) is rejected, the index comes back reduced modulo the number of states, not equal to the original. For that case the contract states only that position, shape and colour are restored. Reachable pieces always have an in-range index.
- Game.Step: requires the reachable-state invariant. Sessions that `Game.Start` and `Game.Step` cannot produce are not modelled.
- Game.Advance: the speed bound is stated only for a speed already at or above 100 ms, which every reachable speed is.
- A new piece that spawns overlapping locked cells does not end the game. The program has the same behaviour: only `check_lost` ends a session.
