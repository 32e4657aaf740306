# A verified model of the Tetris engine in `TetrisGame.tsx`

The game keeps everything on one flat array of cell values: 10 columns by
24 rows (20 visible rows under a 4-row buffer). The falling piece has no
separate layer. `place` stamps its cells with its own value and `clear`
writes them back to EMPTY. Every collision query clears the piece, tests
the cells it would move to, and places it again. A piece is a 4x4 boolean
mask, a value (its kind) and a flat anchor index. Moving a piece changes
the anchor; rotating it replaces the mask. The game also keeps a queue of
five upcoming pieces and a hold slot that can be used once per piece.
Each frame it reads the keys, lets gravity act and clears full rows.

The model is split into modules that follow the program's structure:

- `masks.dfy` (module `Masks`): the 4x4 rotations `lRotate4x4`,
  `rRotate4x4` and `rotateMatrix`. Each is a method with a loop, proved
  equal to a specification function. The lemmas prove that the two
  quarter turns undo each other and that four turns give back the mask.
  They also prove that every rotation keeps the tile count of the masks the
  game uses. `rotateMatrix` is not a permutation of all 16 cells: input
  cell 12 is written to index -1 and lost, and output cell 15 is always
  false. On a mask inside rows and columns 0..2, which every piece but I
  has, it permutes that 3x3 block.
- `playfield.dfy` (module `Playfield`): the `Grid` class over an
  `array<GridValue>`. It also holds the specification of `clearLine`,
  `clearLines` and `reset` on the array's contents.
- `pieces.dfy` (module `Pieces`): the seven masks, the piece record,
  `randomTetromino`, and the `TetrominoQueue` class.
- `placement.dfy` (module `Placement`): how a piece sits on the grid.
  - `mapTileToGrid`, and the effect of `place` and `clear`.
  - The five collision tests, each as a predicate on the grid with the piece cleared.
  - The moves and rotations as functions of the piece.
  - Where a hard drop stops.
  - Which moves can overwrite a locked cell.
- `rules.dfy` (module `Rules`): a step of the game on whole states.
  - `handleInput`, key by key, in the source's priority order.
  - `autoMoveDown`.
  - One pass of the update loop.
  - The invariants these steps keep.
- `engine.dfy` (module `Engine`): the `Game` class. Each method changes
  the grid, the queue and the game's fields in place. Each is proved to
  do exactly what the matching function of `Placement` or `Rules` says.

The model keeps these behaviours of the code as written:

- `rotateLeft` and `rotateRight` have the same body, so both keys turn the
  same way.
- For the I piece, both rotation checks test the counter-clockwise mask
  (`lRotate4x4`), while both rotations apply the clockwise one
  (`rRotate4x4`). A rotation the check allowed can therefore land on a
  locked cell and destroy it (`StraightRotationOverwrites`). It can also
  put a tile outside the array (`StraightLeftRotationEscapes`).
- The rotation checks rotate the O piece, even though the rotations leave
  it alone.
- `isCollidingRightRotation` tests its bound on the anchor, not on each
  tile.
- The floor has no explicit test: a read past the array's end gives
  `undefined`, which counts as filled. The top row and the array's start
  work the same way.
- `clearLine(r)` with r > 0 leaves row 0 as it was. Row 0 then appears
  twice, in rows 0 and 1.
- `autoMoveDown` wipes the grid when the grounded piece's anchor index is
  less than 24. That compares a flat index with a row count. The next piece is
  taken from the queue but not placed.

For every kind but I, a move or rotation its check allowed, and a hard
drop, never changes a locked cell (`InputStepKeepsLocked`). This covers
only cells that are locked while the piece is on the grid. When a piece
locks, the next piece is taken from the queue at anchor 0 but not placed.
Its cells may lie on locked cells. The next query clears the piece's
cells, so it erases any locked cell under them. `Locked` of that state
already leaves those cells out, and nothing in the model proves the spawn
window free of locked cells, so this loss is not covered by the lemma.

## Model

Paths are relative to the repository root.

| member | source | states |
|---|---|---|
| Masks.LRotate4x4 | app/modules/TetrisGame.tsx:323-333 | the result is the counter-clockwise quarter turn: its tile (r, c) is the input's tile (c, 3 - r) |
| Masks.RRotate4x4 | app/modules/TetrisGame.tsx:335-345 | the result is the clockwise quarter turn: its tile (r, c) is the input's tile (3 - c, r) |
| Masks.ClockwiseInverse | app/modules/TetrisGame.tsx:323-345 | lRotate4x4 and rRotate4x4 undo each other, in either order |
| Masks.ClockwiseTwice | app/modules/TetrisGame.tsx:335-345 | two clockwise turns send cell k to cell 15 - k |
| Masks.ClockwiseFourTimes | app/modules/TetrisGame.tsx:335-345 | four clockwise turns give back the mask |
| Masks.ClockwiseCountOne | app/modules/TetrisGame.tsx:335-345 | rRotate4x4 keeps the number of tiles |
| Masks.ClockwiseCount | app/modules/TetrisGame.tsx:323-345 | both quarter turns keep the number of tiles |
| Masks.TargetSource | app/modules/TetrisGame.tsx:347-361 | the pivot formula sends every input cell to an index from -1 to 15, and sends input cell i to output cell k exactly when k reads from i |
| Masks.RotateMatrix | app/modules/TetrisGame.tsx:347-361 | each output cell holds the input cell the pivot formula sends there; cell 15, which nothing reaches, reads false; the write to -1 is lost |
| Masks.PivotRotationCells | app/modules/TetrisGame.tsx:347-361 | the output of rotateMatrix cell by cell, as a table of input cells |
| Masks.PivotRotationConfined | app/modules/TetrisGame.tsx:347-361 | a mask inside rows and columns 0..2 stays inside them, and tile (r, c) moves to (c, 2 - r) |
| Masks.PivotRotationCount | app/modules/TetrisGame.tsx:347-361 | on such a mask rotateMatrix keeps the number of tiles |
| Masks.PivotRotationFourTimes | app/modules/TetrisGame.tsx:347-361 | on such a mask four rotateMatrix turns give back the mask |
| Playfield.Get | app/modules/TetrisGame.tsx:800-802 | getValue gives a cell value exactly when 0 <= index < size, and undefined elsewhere |
| Playfield.Put | app/modules/TetrisGame.tsx:804-806 | setValue changes the indexed cell and no other |
| Playfield.PutCell | app/modules/TetrisGame.tsx:804-806 | a write at row * width + col changes that row and column only |
| Playfield.Grid.constructor | app/modules/TetrisGame.tsx:789-798 | a fresh array of 240 cells, every one EMPTY (initializeGrid) |
| Playfield.Grid.GetValue | app/modules/TetrisGame.tsx:800-802 | the array's value at the index, or undefined outside it |
| Playfield.Grid.SetValue | app/modules/TetrisGame.tsx:804-806 | the array afterwards is the old contents with the one cell written |
| Playfield.ClearedLineRows | app/modules/TetrisGame.tsx:597-609 | after clearLine(r), rows below r are unchanged, row i holds old row i - 1 for 1 <= i <= r, and row 0 is emptied if r = 0 and kept otherwise |
| Playfield.ClearedLineDuplicatesTopRow | app/modules/TetrisGame.tsx:597-609 | for r > 0, rows 0 and 1 both hold the old row 0 |
| Playfield.ClearedLineKeepsPrefixNotFull | app/modules/TetrisGame.tsx:597-620 | if no row above r is full, no row from 0 to r is full after clearLine(r) |
| Playfield.ClearedLineKeepsPrefixEmpty | app/modules/TetrisGame.tsx:597-609 | if every row above r is empty, rows 0 to r are empty after clearLine(r) |
| Playfield.ClearedLinesNoFullRow | app/modules/TetrisGame.tsx:622-630 | after the clearLines scan, no row is full |
| Pieces.CatalogShapes | app/modules/TetrisGame.tsx:20-151 | every mask has four tiles, and every mask but I's lies in rows and columns 0..2 |
| Pieces.RandomPiece | app/modules/TetrisGame.tsx:913-945 | a new piece has anchor 0, the value with enum number draw + 2 (always one of STRAIGHT to Z) and that value's mask |
| Pieces.RandomPieceWellFormed | app/modules/TetrisGame.tsx:913-945 | every drawn piece has four tiles, a 3x3 mask unless it is I, and an anchor inside the array |
| Pieces.RandomPieceKinds | app/modules/TetrisGame.tsx:913-945 | each of the seven kinds is drawn by exactly one value of the random draw |
| Pieces.ShiftedWellFormed | app/modules/TetrisGame.tsx:905-911 | shifting the front off a queue of well-formed pieces and pushing a new one keeps every piece well formed |
| Pieces.PieceQueue.constructor | app/modules/TetrisGame.tsx:969-974 | the queue holds one random piece per draw, in order |
| Pieces.PieceQueue.Next | app/modules/TetrisGame.tsx:905-911 | returns the old front (undefined if empty); the rest move up one place and a new piece goes on the tail, so a non-empty queue keeps its length |
| Placement.JsRem | app/modules/TetrisGame.tsx:478-497 | JavaScript `%`: the remainder lies strictly between -n and n; for a non-negative dividend it is the usual remainder; for a negative dividend it is at most 0 and is minus the remainder of the dividend's absolute value |
| Placement.JsRemSmall | app/modules/TetrisGame.tsx:478-497 | a dividend strictly between -n and n is left unchanged |
| Placement.TileCellWindow | app/modules/TetrisGame.tsx:363-368 | mapTileToGrid sends the 16 tiles to 16 distinct cells of a 4x4 window, and the tile can be read back from its cell |
| Placement.WindowTileCell | app/modules/TetrisGame.tsx:363-368 | every cell of the window is the cell of exactly one tile |
| Placement.CoversTile | app/modules/TetrisGame.tsx:363-381 | the piece covers the cell of tile i exactly when its mask has tile i |
| Placement.StampHolds | app/modules/TetrisGame.tsx:370-381 | after place, the piece's cells inside the array hold its value and no other cell changed |
| Placement.BracketRestores | app/modules/TetrisGame.tsx:209-321 | clear then place leaves the grid unchanged when the piece's cells already held its value |
| Placement.EraseStamp | app/modules/TetrisGame.tsx:370-391 | clear after place (or after clear) is the same as clear |
| Placement.BracketedKeepsTest | app/modules/TetrisGame.tsx:209-321 | after a query the piece's cells hold its value, and a second query sees the same cleared grid |
| Placement.MovesWellFormed | app/modules/TetrisGame.tsx:478-497 | the three moves keep a piece well formed |
| Placement.RotatedWellFormed | app/modules/TetrisGame.tsx:514-542 | rotations keep four tiles, the 3x3 block for every kind but I, and the anchor and value |
| Placement.RotatedFourTimes | app/modules/TetrisGame.tsx:514-542 | four rotations in a row give back the piece |
| Placement.BottomRowBlocksDown | app/modules/TetrisGame.tsx:268-284 | a tile whose cell below lies at or past the array's end blocks a move down |
| Placement.EdgeColumnsBlock | app/modules/TetrisGame.tsx:286-321 | a tile in column 0 blocks a move left, and one in the last column blocks a move right |
| Placement.FallStaysInside | app/modules/TetrisGame.tsx:268-284 | when the down check passes, the move raises the anchor by exactly one row with no wrap |
| Placement.LeftStaysInside | app/modules/TetrisGame.tsx:286-302 | when the left check passes, moveLeft lowers the anchor by exactly one with no wrap |
| Placement.RightStaysInside | app/modules/TetrisGame.tsx:304-321 | when the right check passes, moveRight raises the anchor by exactly one with no wrap |
| Placement.Fall | app/modules/TetrisGame.tsx:572-577 | a hard drop stops a whole number of rows below the start, with the same mask and value, where the down check fails |
| Placement.FallIsFirst | app/modules/TetrisGame.tsx:572-577 | the landing position is the first blocked one: every position a whole number of rows below the start and above it passes the down check, so the loop would have moved on from it |
| Placement.FallKeepsClear | app/modules/TetrisGame.tsx:572-577 | one allowed step down keeps the cleared grid the same |
| Placement.FallKeepsLocked | app/modules/TetrisGame.tsx:572-577 | a hard drop never changes a locked cell |
| Placement.LeftKeepsLocked | app/modules/TetrisGame.tsx:286-302 | a move left its check allowed never changes a locked cell |
| Placement.RightKeepsLocked | app/modules/TetrisGame.tsx:304-321 | a move right its check allowed never changes a locked cell |
| Placement.RotationKeepsLocked | app/modules/TetrisGame.tsx:209-266 | for every kind but I, a rotation either check allowed never changes a locked cell |
| Placement.StraightRotationOverwrites | app/modules/TetrisGame.tsx:214-215 | for I at anchor 100, next to a locked block at 102, both checks pass, yet the applied rotation covers 102 and clearing it loses the block |
| Placement.StraightLeftRotationEscapes | app/modules/TetrisGame.tsx:514-518 | for I at anchor 208 the check passes on an empty grid, but the applied mask puts a tile on index 240, past the array |
| Rules.QueryKeeps | app/modules/TetrisGame.tsx:209-321 | a query keeps the locked cells, a second query changes nothing more, and a move after a query is the same as the move alone |
| Rules.Held | app/modules/TetrisGame.tsx:550-564 | the hold block: the current piece goes to the slot; the held piece, or the queue's front if the slot was empty, becomes current at anchor 0 and is placed; swapped becomes true |
| Rules.HeldConsistent | app/modules/TetrisGame.tsx:550-564 | the hold block keeps every piece well formed and the queue at five |
| Rules.HeldTwice | app/modules/TetrisGame.tsx:550-564 | the swap branch of the hold block: when the slot holds the piece an earlier hold put there, holding again gives that piece back at anchor 0, holds the piece that replaced it, and leaves the queue alone |
| Rules.MoveKeys | app/modules/TetrisGame.tsx:565-593 | the keys after hold give back the old tick, the limit or 2.5 times it, and never touch the queue, the hold slot or the swapped flag |
| Rules.DropKey | app/modules/TetrisGame.tsx:572-577 | likewise, from the space bar on |
| Rules.DownKey | app/modules/TetrisGame.tsx:578-581 | from ArrowDown on: the result is the old tick or the limit, and the queue and hold slot are kept |
| Rules.LeftKey | app/modules/TetrisGame.tsx:582-585 | from ArrowLeft on: likewise |
| Rules.RightKey | app/modules/TetrisGame.tsx:586-592 | ArrowRight: likewise |
| Rules.InputStep | app/modules/TetrisGame.tsx:544-595 | handleInput changes nothing while the tick is positive, and returns the old tick, the limit or 2.5 times it; while swapped is set the hold key leaves the slot and the queue alone and swapped stays set; otherwise, with the tick run out and no left rotation taken, the hold key puts the current piece in the slot and sets swapped |
| Rules.AutoStep | app/modules/TetrisGame.tsx:499-512 | autoMoveDown returns the limit exactly when the tick has run out and the piece can fall, and the old tick otherwise; a grounded piece is replaced by the queue's front, the queue shifts and takes a new draw, and hold is allowed again; the hold slot is kept; a grounded piece whose anchor index is below 24 wipes the grid, and otherwise it stays on the grid with the locked cells unchanged; a piece that can fall moves one row down, and with the tick still running the state is only queried |
| Rules.AutoStepFalls | app/modules/TetrisGame.tsx:499-502 | when gravity moves the piece, it falls exactly one row, no locked cell changes, and its cells hold its value |
| Rules.MoveToConsistent | app/modules/TetrisGame.tsx:478-542 | moves and rotations keep every piece well formed |
| Rules.RightKeyKeeps | app/modules/TetrisGame.tsx:586-592 | ArrowRight keeps the pieces well formed and never changes a locked cell |
| Rules.LeftKeyKeeps | app/modules/TetrisGame.tsx:582-592 | the same from ArrowLeft on |
| Rules.DownKeyKeeps | app/modules/TetrisGame.tsx:578-592 | the same from ArrowDown on |
| Rules.DropKeyKeeps | app/modules/TetrisGame.tsx:572-592 | the same from the space bar on, hard drop included |
| Rules.MoveKeysKeeps | app/modules/TetrisGame.tsx:565-593 | the same from ArrowUp on, for every kind but I |
| Rules.InputStepConsistent | app/modules/TetrisGame.tsx:544-595 | handleInput keeps every piece well formed and the queue at five |
| Rules.InputStepKeepsLocked | app/modules/TetrisGame.tsx:544-595 | without the hold key, handleInput never changes a locked cell when the piece is not I |
| Rules.AutoStepConsistent | app/modules/TetrisGame.tsx:499-512 | autoMoveDown keeps every piece well formed and the queue at five |
| Rules.FrameConsistent | app/modules/TetrisGame.tsx:638-668 | after one pass of the update loop, every piece is well formed, the queue holds five and no row is full |
| Engine.Game.constructor | app/modules/TetrisGame.tsx:170-192 | an empty grid; the first of five drawn pieces becomes current; the queue holds the other four plus a new draw; the hold slot is empty |
| Engine.Game.StampTiles | app/modules/TetrisGame.tsx:370-391 | writes the value at every tile cell of the piece inside the array, and nowhere else |
| Engine.Game.Place | app/modules/TetrisGame.tsx:370-381 | place stamps the piece's value, and the piece's cells then hold it |
| Engine.Game.Clear | app/modules/TetrisGame.tsx:383-391 | clear writes EMPTY at the piece's cells |
| Engine.Game.Setup | app/modules/TetrisGame.tsx:466-476 | setup places the first piece |
| Engine.Game.IsCollidingMoveDown | app/modules/TetrisGame.tsx:268-284 | the answer is the down test on the cleared grid; the grid is left with the piece placed |
| Engine.Game.IsCollidingMoveLeft | app/modules/TetrisGame.tsx:286-302 | the answer is the left test on the cleared grid; likewise |
| Engine.Game.IsCollidingMoveRight | app/modules/TetrisGame.tsx:304-321 | the answer is the right test on the cleared grid; likewise |
| Engine.Game.Probe | app/modules/TetrisGame.tsx:211-219 | the mask the rotation checks test: lRotate4x4 for I, rotateMatrix otherwise |
| Engine.Game.IsCollidingLeftRotation | app/modules/TetrisGame.tsx:209-234 | the answer is the left-rotation test on the cleared grid; likewise |
| Engine.Game.IsCollidingRightRotation | app/modules/TetrisGame.tsx:236-266 | the answer is the right-rotation test, anchor bound included; likewise |
| Engine.Game.MoveDown | app/modules/TetrisGame.tsx:478-483 | the anchor moves down one row modulo size, and the piece is re-stamped on the locked cells |
| Engine.Game.MoveLeft | app/modules/TetrisGame.tsx:485-490 | the anchor moves left one (JavaScript `%` by size), and the piece is re-stamped |
| Engine.Game.MoveRight | app/modules/TetrisGame.tsx:492-497 | the anchor moves right one, and the piece is re-stamped |
| Engine.Game.RotateLeft | app/modules/TetrisGame.tsx:514-527 | the mask is turned by rRotate4x4 (I), rotateMatrix (others) or kept (O), and re-stamped |
| Engine.Game.RotateRight | app/modules/TetrisGame.tsx:529-542 | the same rotation as RotateLeft |
| Engine.Game.Hold | app/modules/TetrisGame.tsx:550-564 | the state afterwards is the one the hold block (Held) gives, and the game stays valid |
| Engine.Game.HardDrop | app/modules/TetrisGame.tsx:572-577 | the loop ends with the piece where Fall puts it, stamped on the grid it started from with the piece cleared |
| Engine.Game.HandleMoveKeys | app/modules/TetrisGame.tsx:565-593 | the state and tick follow MoveKeys |
| Engine.Game.HandleDropKey | app/modules/TetrisGame.tsx:572-593 | the state and tick follow DropKey |
| Engine.Game.HandleDownKey | app/modules/TetrisGame.tsx:578-593 | the state and tick follow DownKey |
| Engine.Game.HandleLeftKey | app/modules/TetrisGame.tsx:582-593 | the state and tick follow LeftKey |
| Engine.Game.HandleRightKey | app/modules/TetrisGame.tsx:586-592 | the state and tick follow RightKey |
| Engine.Game.HandleInput | app/modules/TetrisGame.tsx:544-595 | the state and the returned tick follow InputStep |
| Engine.Game.AutoMoveDown | app/modules/TetrisGame.tsx:499-512 | the state and the returned tick follow AutoStep |
| Engine.Game.ClearLine | app/modules/TetrisGame.tsx:597-609 | the grid afterwards is ClearedLine of the old grid |
| Engine.Game.IsFullRow | app/modules/TetrisGame.tsx:611-620 | true exactly when no cell of the row is EMPTY |
| Engine.Game.ClearLines | app/modules/TetrisGame.tsx:622-630 | the grid follows the top-to-bottom scan, and afterwards no row is full |
| Engine.Game.Reset | app/modules/TetrisGame.tsx:632-636 | every cell is EMPTY afterwards |
| Engine.Game.Loop | app/modules/TetrisGame.tsx:651-664 | one pass counts both ticks down, then handles input with limit 5, gravity with limit 50 and line clears; afterwards no row is full |

## Left out

- Drawing: `draw`, `drawValues`, `GridBackground`, the `draw` methods of `Grid`, `Tetromino` and the queue, `getColor`, and the grid's pixel position and tile size. They only paint the canvas.
- `getEmptyIndex` returns 0 for every value, and nothing in the engine calls it.
- The `fillText` debug call inside `isCollidingRightRotation` only paints.
- The key listeners in `setup` are replaced by a `Keys` record of the seven keys the game reads. A key that was never pressed reads as not held.
- `update` schedules `loop` with `requestAnimationFrame` without end. `Game.Loop` models one pass, with the two ticks as parameters and results. `start` only calls `setup` and `update`.
- `Math.random` becomes a draw `k` in 0..6 passed by the caller; randomTetromino's value is `k + 2`. A step that can take a piece from the queue takes one draw.
- Ticks are `real`, because `handleInput` returns `limit * 2.5`.
- Playfield.Put: a JavaScript write outside the array would add a property or grow the array. The model drops it. Only an I rotation that its check did not test can reach such an index: index 240 (`StraightLeftRotationEscapes`), or a negative index such as -1. In JavaScript the written value then stays at that index. After `clear` it reads EMPTY, so at that index the edge no longer acts as a filled cell. The model keeps every such index reading undefined, that is, filled.
- A piece is a value (`Piece`), not an object. The source never shares one piece object between the current slot, the hold slot and the queue, so updating it in place and replacing the value have the same effect.
- The tiles arrays of new pieces are shared with the constant masks. No code writes into a tiles array (rotations build new ones), so this sharing is not modelled.
- `clearLines` counts the cleared lines in a local variable and never uses it. The count is not modelled.
- Masks.RotateMatrix: the source takes the pivot and the matrix size as arguments. The model fixes them at 5 and 16, the only values the game passes.
