# Falling-block game engine in Dafny

This project models the game-state engine of a browser falling-block puzzle
(a Tetris clone) and proves properties of the model. The engine has three
parts:

- the falling piece (`src/game/Tetromino.js`): where a piece spawns, how its
  square shape matrix turns, when it collides with the playfield, and the
  "ghost" search for the row it is shown landing on;
- the playfield (`src/game/Board.js`): a height × width grid of empty cells
  and locked blocks, with reset, the full-row test, bottom-up line clearing
  and merging a piece into the grid;
- the controller (`src/game/GameController.js`): score, level and line
  counters, the 7-piece bag, the current, ghost and held pieces, the pause
  and game-over flags, the gravity clock, the pending lock, and the key
  handler's dispatch.

Files:

- `cells.dfy` (module `Cells`): piece kinds, cells, rows, grids and shape
  matrices.
- `pieces.dfy` (module `Pieces`): the spawn rule, the rotation functions, the
  collision predicate, the landing and ghost-row searches, and the
  `Tetromino` class.
- `playfield.dfy` (module `Playfield`): the row, count and merge functions
  that specify the board, and the `Board` class.
- `engine.dfy` (module `Engine`): the configuration record, the bag, scoring
  and gravity definitions, and the `Game` class.

The objects that the source updates in place are classes:

- `Tetromino` has the fields `shape`, `x`, `y` and `rotation`.
- `Board` has the field `grid`, a sequence of rows that its methods reassign.
- `Game` has the controller's fields.

Every method is proved against a specification function or predicate. The
playfield's line clearing is specified by `FullCount` and `AfterClear`. The
merge is specified by `Stamp`. The collision test is specified by `Collides`.
A hard drop's landing row is specified by `Landing`. The ghost search is
specified by `IsGhostRow` and `GhostRow`. The lemmas beside them state what
those functions mean.

The configuration module (`constants.js`) is not part of this model. Its
values are the parameter `Constants`:

- the playfield size;
- a shape per kind (TETROMINOS), which must be square with at least one
  block;
- the scoring table (SCORING);
- the gravity interval per level (LEVEL_SPEEDS).

`ValidConstants` also asks that every kind's spawn position lies inside the
playfield.

Behaviour of the source that the model keeps as written:

- The ghost search (`src/game/Tetromino.js:36-42`) passes its absolute
  candidate row as an offset to the collision test, which adds the piece's
  own row. Candidate `v` therefore tests row `y + v + 1`. For a piece on
  row 0 the search result is the landing row (`GhostAtTopIsLanding`). In
  general it is not: it is `Landing` started from row `2y`, minus `y`
  (`GhostRow`, `GhostRowIsSearch`). When the piece has at least `y` rows to
  fall, the ghost is shown exactly `y` rows above the row the piece lands on
  (`GhostAboveLanding`). For example, a single block on row 1 of an empty
  field four rows high lands on row 3, but its ghost is on row 2
  (`GhostMissesLanding`). The two rows can also agree elsewhere: a single
  block resting on the floor of an empty field gets its own row as ghost.
  A description of the ghost as "the lowest non-colliding row" does not
  match this code; the model follows the code.
- `LEVEL_SPEEDS[level]` is read without clamping
  (`src/game/GameController.js:178`). Past the end of the table the lookup
  yields `undefined` and the comparison with it is false, so gravity stops
  (`GravityDue`). It does not reuse the last entry.
- The controller's field `holdPiece` hides its method of the same name, so the
  hold keys (Shift, C) end in a call that throws. `HandleKey` reports
  `HoldThrows` and changes nothing. The method body itself is modelled as
  `Game.Hold`.
- The key handler returns at once while paused, so Escape and F1 cannot
  unpause.
- The soft drop (ArrowDown) scores even when the piece cannot move down.
- Only a successful gravity step cancels a pending lock. Moves, turns and
  hard drops do not. The lock callback runs whatever the pause and game-over
  flags say.
- Hold makes no game-over check on the piece it brings in.

## Model

| member | source | states |
|---|---|---|
| Pieces.SpawnX | src/game/Tetromino.js:8-10 | the spawn column is the floor of (10 − matrix width)/2 for I and O and one less for the other kinds, stated as bounds without division |
| Pieces.TurnMovesCells | src/game/Tetromino.js:19-31 | a clockwise turn moves cell (y, x) to (x, N−1−y); a counter-clockwise turn moves it to (N−1−x, y) |
| Pieces.FourTurnsIdentity | src/game/Tetromino.js:15-34 | four clockwise turns give back the original shape |
| Pieces.TurnsCancel | src/game/Tetromino.js:15-34 | a clockwise turn then a counter-clockwise one, or the reverse, give back the original shape |
| Pieces.OccupiedAfterCW | src/game/Tetromino.js:19-24 | the blocks of the clockwise-turned shape are exactly the images of the original blocks under (y, x) ↦ (x, N−1−y) |
| Pieces.TurnsKeepCellCount | src/game/Tetromino.js:15-34 | turning either way keeps the number of blocks |
| Pieces.TurnsKeepShape | src/game/Tetromino.js:15-34 | a turned shape is again square, of the same size, with at least one block |
| Pieces.AboveFieldOnlyWalls | src/game/Tetromino.js:55-59 | a piece lying wholly above row 0 collides exactly when a block is outside the side walls; the grid contents play no part |
| Pieces.FreeIsInBounds | src/game/Tetromino.js:55-59 | at a position that does not collide, every block on row 0 or below lies inside the grid |
| Pieces.FreeIsAboveFloor | src/game/Tetromino.js:55-59 | a free position of a shape with a block has its top row above the floor, which is why the drop searches end |
| Pieces.LandingIsRest | src/game/GameController.js:111-114 | the landing row's next row down collides, and every row between the start and the landing row is free |
| Pieces.LandingFromPassedRow | src/game/GameController.js:112-114 | dropping from any row the piece passes through on its way down ends on the same landing row |
| Pieces.GhostRowIsSearch | src/game/Tetromino.js:36-42 | the ghost search has exactly one result, `Landing` from row 2y minus y |
| Pieces.GhostAtTopIsLanding | src/game/Tetromino.js:36-42 | for a piece on row 0 the ghost search result is the landing row |
| Pieces.GhostAboveLanding | src/game/Tetromino.js:36-42 | when a piece on row y ≥ 0 has at least y rows to fall, the ghost search result is y rows above its landing row |
| Pieces.GhostMissesLanding | src/game/Tetromino.js:36-42 | an instance where the ghost row differs from the landing row: one block on row 1 of an empty 4 × 1 field lands on row 3, and the ghost search gives row 2 |
| Pieces.Tetromino.constructor | src/game/Tetromino.js:4-13 | a new piece has its kind's configured shape, the spawn column, row 21 for I and 22 otherwise, and rotation 0 |
| Pieces.Tetromino.Rotate | src/game/Tetromino.js:15-34 | the shape becomes its clockwise turn for direction 1 and its counter-clockwise turn otherwise; kind, x and y are unchanged |
| Pieces.Tetromino.CheckCollision | src/game/Tetromino.js:44-67 | true iff some block at offset (dx, dy) lands left or right of the walls, on or below the floor, or on a filled cell of row 0 or below; nothing is modified |
| Pieces.Tetromino.GhostPosition | src/game/Tetromino.js:36-42 | the result r is at least y, its probe (row y + r + 1) collides and every earlier candidate's probe does not; nothing is modified |
| Playfield.AllFilledIff | src/game/Board.js:18-20 | a row counts as full iff every cell in it is filled |
| Playfield.NoFullRows | src/game/Board.js:22-36 | no full row is found iff no row in the range is full |
| Playfield.KeptRows | src/game/Board.js:25-33 | every row kept by a clear is a non-full row of the original grid |
| Playfield.KeptAll | src/game/Board.js:25-33 | with no full rows, every row is kept in order |
| Playfield.ClearedShape | src/game/Board.js:22-36 | after clearing, the grid keeps its height and width and has no full row |
| Playfield.ClearWithoutFullRows | src/game/Board.js:22-36 | clearing a grid with no full rows changes nothing |
| Playfield.StampCells | src/game/Board.js:38-50 | a merge writes the kind into the cell under every block that lies inside the grid and leaves every other cell as it was |
| Playfield.ScanFullRow | src/game/Board.js:26-31 | removing a full row and adding an empty row at the top turns the scan state into the state with one more cleared row, and the index is re-checked |
| Playfield.ScanKeptRow | src/game/Board.js:25-33 | passing over a non-full row moves the scan on without changing the grid or the count |
| Playfield.Board.constructor | src/game/Board.js:4-8 | a new board is height × width with every cell empty |
| Playfield.Board.Reset | src/game/Board.js:10-16 | after reset the grid is height × width with every cell empty |
| Playfield.Board.IsLineFull | src/game/Board.js:18-20 | true iff every cell of row y is filled |
| Playfield.Board.ClearLines | src/game/Board.js:22-36 | returns the number of rows that were full; the grid becomes that many empty rows followed by the non-full rows in their original order |
| Playfield.Board.AddPiece | src/game/Board.js:38-50 | the grid becomes the merge of the piece's shape at (x, y) with its kind; blocks above row 0 are dropped |
| Engine.KindListIsRefill | src/game/GameController.js:35 | the listed seven kinds form a refill: seven entries with every kind among them |
| Engine.ShuffleIsRefill | src/game/GameController.js:36 | any reordering of the kind list is a refill |
| Engine.RefillIsShuffle | src/game/GameController.js:35-36 | every refill is a reordering of the kind list, so a refill holds each kind exactly once |
| Engine.LineScore | src/game/GameController.js:149-163 | no points unless one to four rows are cleared; never negative at a non-negative level; one row at level 1 scores SINGLE |
| Engine.LineScoreScales | src/game/GameController.js:149-163 | line-clear points are the level-1 points times the level |
| Engine.DropPointsIsProduct | src/game/GameController.js:112-114 | adding the hard-drop points once per row fallen totals rows × points |
| Engine.Game.constructor | src/game/GameController.js:6-31 | a new game has an empty board, score 0, level 1, 0 lines, no hold, hold allowed, not paused or over, no pending lock, a fresh spawned piece, and the ghost copy computed; the first piece's kind followed by the 13 kinds left in the bag are two refills of seven |
| Engine.Game.FillBag | src/game/GameController.js:33-39 | the earlier bag entries are kept in order; a refill of the seven kinds is appended iff at most seven entries were left |
| Engine.Game.GetNextPiece | src/game/GameController.js:41-44 | the bag is refilled if needed, its first kind is removed and a fresh piece of it spawned, and the bag length stays in 7..13 |
| Engine.Game.UpdateGhostPiece | src/game/GameController.js:46-50 | the ghost copy gets the current piece's kind, shape and column and the ghost search's row; with no current piece nothing changes |
| Engine.Game.MovePiece | src/game/GameController.js:90-98 | moves iff the shifted position does not collide; x and y then shift by (dx, dy) and the ghost is recomputed; otherwise nothing changes |
| Engine.Game.RotatePiece | src/game/GameController.js:100-109 | x and y never change; the shape is the turned one unless that collides in place, when it reverts to the original; the ghost is recomputed only after a kept turn |
| Engine.Game.TurnOrRevert | src/game/GameController.js:101-106 | the piece keeps the turned shape iff it does not collide in place, and takes its original shape back otherwise; the position is unchanged |
| Engine.Game.HardDrop | src/game/GameController.js:111-116 | the piece is locked on its landing row after HARD_DROP points for each row it fell, and the ghost copy shows the new piece |
| Engine.Game.DropToLanding | src/game/GameController.js:112-114 | the drop loop stops on the landing row and scores HARD_DROP points per row fallen |
| Engine.Game.StepDown | src/game/GameController.js:112 | one drop step moves the piece one row down iff that row is free |
| Engine.Game.Hold | src/game/GameController.js:118-132 | no-op when the hold is used; otherwise the hold slot takes the current kind, the new piece is the next bag piece (empty slot) or a fresh piece of the held kind (swap), and the hold is used up |
| Engine.Game.LockPiece | src/game/GameController.js:134-147 | the piece is merged, full rows cleared and scored, the next piece drawn, the hold reset, and the game over iff it was over or the new piece collides at its spawn position |
| Engine.Game.SettlePiece | src/game/GameController.js:135-137 | the grid is the merge followed by the clear, and the score, lines and level are updated by the number of rows that were full |
| Engine.Game.SpawnNext | src/game/GameController.js:139-146 | the next piece is drawn from the bag, the hold is allowed again, and the game is over iff it was or the new piece collides where it spawned |
| Engine.Game.UpdateScore | src/game/GameController.js:149-167 | the score gains the line points at the level before the update, the lines grow by the count, and the level is lines/10 + 1 |
| Engine.Game.TogglePause | src/game/GameController.js:169-171 | the pause flag flips; nothing else may change |
| Engine.Game.Update | src/game/GameController.js:173-194 | nothing changes when over, paused or before the gravity interval; otherwise the piece moves one row down if free, the lock is pending iff the step was blocked, the ghost copy is recomputed after a move and kept after a blocked step, and the move time is the timestamp |
| Engine.Game.FireLockTimer | src/game/GameController.js:181-184 | with a lock pending the piece is locked, the lock disarmed and the ghost copy shows the new piece; otherwise nothing changes |
| Engine.Game.HandleKey | src/game/GameController.js:52-88 | ignores every key while over or paused; otherwise each key has its command's effect, including on the ghost copy (recomputed after a move, a kept turn or a hard drop, kept by a blocked move or turn and by the pause keys), the hold keys throw and change nothing, and unbound keys change nothing |

## Left out

- Rendering (`src/game/Renderer.js`), the page script (`src/main.js`), colours and the `renderer` field are not part of this model.
- `startGameLoop` and the animation-frame loop (`src/game/GameController.js:196-203`) are left out, and so is the registration of the key listener. The switch inside the listener is modelled as `HandleKey` over an enumeration of key codes.
- Engine.Game.FireLockTimer: the lock timer is a `lockPending` flag plus this method, which runs the callback body. Scheduling, the LOCK_DELAY interval and the asynchrony of the timer are not modelled.
- Engine.Game.FillBag: the shuffle is any reordering of the seven kinds, chosen by the model. Its fairness and distribution are not modelled.
- Engine.IsKindPermutation: a refill is stated as seven entries with every kind present. `RefillIsShuffle` and `ShuffleIsRefill` prove that this is the same as a reordering of the kind list.
- Engine.Game.Valid: it keeps the bag length in 7..13. It does not keep the claim that each block of seven draws aligned with the refills holds every kind once; each draw is related to the bag before it by `Drew`.
- Engine.Game.Valid: the ghost copy is not part of the invariant. `GhostCurrent` states it after each public operation that recomputes it, and each public operation that keeps it says so. The two steps inside a hard drop, `StepDown` and `DropToLanding`, say nothing about it (see below).
- Engine.Game.Update: timestamps and LEVEL_SPEEDS entries are integers, not floating-point numbers.
- Engine.PieceView: the ghost copy keeps the kind, shape, column and row. It does not keep the copied piece's rotation.
- Playfield.Board.ClearLines: requires a width of at least 1. With width 0 every row is full and the source loop never ends. The scan works on a local copy of the grid and stores it at the end; the source edits the grid array in place.
- Playfield.Board.AddPiece: requires every block on row 0 or below to be inside the grid. The source does no bounds check there. The controller keeps its current piece in bounds (`Engine.Game.Valid`) but not always at a free position: a lock timer armed before a hard drop can merge a next piece that collided where it spawned, over filled cells.
- Pieces.Tetromino.Rotate: a `direction` other than 1 turns counter-clockwise, as the source's `else` branch does.
- Engine.Game.StepDown: does not state the ghost copy it recomputes after a step down. Its only caller is the hard drop, whose lock recomputes the ghost copy again; `Dropped` states that final ghost copy.
- Engine.Game.DropToLanding: does not state the ghost copy after the drop loop. The lock that follows in `HardDrop` recomputes it for the next piece, and `Dropped` states that.
- Engine.Game.TurnOrRevert, Engine.Game.StepDown, Engine.Game.DropToLanding, Engine.Game.SettlePiece and Engine.Game.SpawnNext are parts of `rotatePiece`, `hardDrop` and `lockPiece` given their own contracts; the source has no separate functions for them.
- Engine.Game.HandleKey: the thrown TypeError of the hold keys is the outcome `HoldThrows`. Its propagation out of the listener is not modelled.
