# Tetris game engine in Dafny

A model of the game engine of a single-file Swing Tetris (`Tetris.java`), with proofs about it.

The engine covers the following:
- **Piece catalogue:** seven tetrominoes, each given by four 4x4 character templates.
- **Playfield:** a 20 x 10 wall, row 0 at the top, where a cell is empty or holds a block in a variant's colour.
- **Active piece:** its anchor row and column and its rotation index.
- **Session:** score, level, cleared lines, drop interval, paused and game-over flags.
- **Commands:** move, rotate with an ordered wall-kick search, soft drop (which is also what a tick of the drop clock does), hard drop, pause and restart.
- **Locking pipeline:** a lock writes the piece into the wall, detects a top-out, clears full rows bottom to top, scores the clear, raises the level and speed, and spawns the next piece.

The project is split into six modules, one per file:

- `tetromino.dfy` (`Tetromino`)
  - The template strings of the `enum Tetromino`, and `Template`, the rotation index taken modulo the rotation count.
  - `CellsFrom` and `FirstFilledRow` decode the templates the way `getBlocks` and `getTopEmptyRows` do.
  - `Blocks` and `TopEmptyRows` give the same answers as a 28-entry table. Lemmas prove the table equal to the decoding: exactly the `'#'` positions, in template order, and the first template row holding a `'#'`.
- `playfield.dfy` (`Playfield`)
  - The wall as a value (`seq<seq<Option<Variant>>>`).
  - The collision rule (`Fits`/`Free`).
  - Writing a piece (`Put`, `Stamp`, `FirstAbove`).
  - What clearing leaves behind (`Kept`, `FullCount`, `Cleared`).
- `motion.dfy` (`Motion`)
  - The position check, the landing row of a drop, and the kick search `FirstKick`/`Rotated` with the kick order 0, -1, +1, -2, +2.
  - The spawn pose.
- `scoring.dfy` (`Scoring`): the points table, the level rule and the drop-interval rule.
- `engine.dfy` (`Engine`)
  - The game as a state machine on values: a `GameState` datatype and one function per command.
  - The invariant `Inv`, which every command keeps: while the game is live the active piece fits and no row is full.
- `game.dfy` (`Game`): class `GamePanel`.
  - The wall is an `array2<Cell>` that the methods update in place, mirrored by a ghost value `grid`.
  - Each command is a method with the Java method's branches and loops. Its contract says the new state is exactly the one the matching `Engine` function gives.
  - The Engine lemmas then carry the properties over.

The random draws are parameters:
- `drawn` for the piece drawn on a spawn;
- `first` and `second` for the two draws of a new game.

## Model

| member | source | states |
|---|---|---|
| Tetromino.Rotations | Tetris.java:759-898 | definition: the rotation templates of each variant, the 28 strings of the enum in their order |
| Tetromino.RotationCount | Tetris.java:905-907 | the rotation count is the number of templates, and every variant has exactly four |
| Tetromino.Template | Tetris.java:914 | definition: the template at the rotation index modulo the rotation count; proved to have 16 characters |
| Tetromino.CellsFrom | Tetris.java:916-922 | every decoded offset lies in the 4x4 box and marks a `'#'` at or after the start position; the offsets come in strictly increasing template position |
| Tetromino.CellsFromComplete | Tetris.java:916-922 | every `'#'` at or after the start position is decoded |
| Tetromino.CellsFromCount | Tetris.java:916-922 | decoding yields exactly one offset per `'#'` |
| Tetromino.HashCount | Tetris.java:759-890 | each of the 28 templates holds exactly four `'#'` |
| Tetromino.Blocks | Tetris.java:913-924 | for every variant and rotation index there are exactly 4 offsets, pairwise distinct (strictly ascending template position) and inside the 4x4 box |
| Tetromino.BlocksDecodeTemplate | Tetris.java:913-924 | the cells are exactly what decoding the template gives, in the same order |
| Tetromino.BlocksAreTemplateCells | Tetris.java:913-924 | an offset is a cell of the rotation if and only if it lies in the box and the template has a `'#'` there |
| Tetromino.FirstFilledRow | Tetris.java:928-935 | the result is the first template row at or after the start that holds a `'#'`: no earlier row holds one; it is 4 when none does |
| Tetromino.TopEmptyRows | Tetris.java:926-936 | the number of leading empty template rows is below 4 |
| Tetromino.TopEmptyRowsScansTemplate | Tetris.java:926-936 | the count equals the template scan for the first row holding a `'#'` |
| Tetromino.TopEmptyRowsIsTopCell | Tetris.java:926-936 | no cell of the rotation lies above that row and some cell lies on it |
| Playfield.EmptyRows | Tetris.java:194-196 | n rows, every cell empty |
| Playfield.EmptyGrid | Tetris.java:194-196 | a new wall is ROWS x COLS |
| Playfield.FitsEvery | Tetris.java:311-320 | a piece fits exactly when every cell is inside the columns, above the floor, and above the field or on an empty cell |
| Playfield.Put | Tetris.java:326-327 | writing a cell keeps the wall's shape |
| Playfield.PutCell | Tetris.java:326-327 | a write changes only the target cell, and only when that cell is on the field |
| Playfield.Stamp | Tetris.java:323-327 | writing a piece keeps the wall's shape |
| Playfield.StampCells | Tetris.java:323-327 | after writing, a field cell holds the piece's colour exactly when some cell of the piece lands on it; every other cell is unchanged |
| Playfield.FirstAbove | Tetris.java:323-335 | the index of the first cell above the field: every earlier cell is at row 0 or below, and the one at the index is above |
| Playfield.Kept | Tetris.java:436-480 | the rows that survive clearing are not full and come from the wall |
| Playfield.KeptPlusFull | Tetris.java:436-480 | each row is either kept or counted as full |
| Playfield.KeptIndex | Tetris.java:436-480 | a row that is not full keeps its relative order among the kept rows |
| Playfield.ClearedShape | Tetris.java:472-475 | clearing keeps the wall ROWS x COLS |
| Playfield.ClearedNoFullRow | Tetris.java:436-480 | after clearing no row is full and the top `cleared` rows are empty |
| Playfield.ClearedMovesRow | Tetris.java:436-480 | a row that is not full moves down by exactly the number of full rows below it |
| Motion.FitsAboveFloor | Tetris.java:316 | a valid anchor row lies above the floor |
| Motion.LandingRow | Tetris.java:277-279 | every row from the start to the landing row fits, and the row below the landing row does not |
| Motion.LandingRowUnique | Tetris.java:533-534 | any row reachable by fitting +1 steps and blocked below is the landing row, so the ghost and the hard drop agree |
| Motion.FirstKick | Tetris.java:296-303 | the chosen kick fits and no kick earlier in the order does; with no choice, no kick fits |
| Motion.RotatedFitsOrUnchanged | Tetris.java:292-309 | a rotation either leaves the pose unchanged or lands on the new rotation at a position where it fits |
| Motion.RotatedTakesFirstKick | Tetris.java:296-302 | when some kick fits, the first fitting one in the order 0, -1, +1, -2, +2 is taken, at the same row |
| Motion.RotatedTriesRowAbove | Tetris.java:304-308 | only when no kick fits is the row above tried; when it does not fit either, the pose is unchanged |
| Motion.SpawnPose | Tetris.java:223-225 | definition: rotation 0, column COLS / 2 - 2, and row minus the number of leading empty rows of the first template |
| Motion.SpawnRowScansTemplate | Tetris.java:224 | the spawn row is minus the first row of the rotation-0 template that holds a `'#'`, as `getTopEmptyRows` scans it |
| Motion.SpawnTopAtRowZero | Tetris.java:224 | at spawn no cell is above the field and the topmost cells are on row 0 |
| Motion.SpawnFitsEmptyGrid | Tetris.java:220-226 | on an empty wall every piece spawns at a valid position |
| Scoring.LevelFor | Tetris.java:349 | the level is at least 1, and the line total lies in that level's band of 10 lines |
| Scoring.DelayFor | Tetris.java:352 | the interval is never below 80 ms and never above 600 ms from level 1 on |
| Scoring.PointsIncrease | Tetris.java:340-346 | clearing more rows at once is worth strictly more, and never more than 300 points per row |
| Scoring.LevelMonotone | Tetris.java:349 | the level never drops as lines accumulate |
| Scoring.DelayMonotone | Tetris.java:352 | the interval never rises with the level, and is at its floor from level 14 on |
| Playfield.Free | Tetris.java:313-317 | definition: a block may occupy a cell inside the columns, above the floor, and either above the field or on an empty wall cell |
| Playfield.Fits | Tetris.java:311-320 | definition: every cell of the piece, anchored at (r, c), is free |
| Motion.ValidPosition | Tetris.java:311-320 | definition: the collision rule for a variant in a rotation, Fits of its cells |
| Playfield.Full | Tetris.java:439-448 | definition: a row is full when every one of its cells holds a block |
| Playfield.FullCount | Tetris.java:436-480 | definition: the number of full rows, which clearLines returns |
| Playfield.Cleared | Tetris.java:436-480 | definition: the wall after clearing, as many empty rows on top as rows were full, then the rows that were not full in their order |
| Motion.Rotated | Tetris.java:294-308 | definition: the pose a rotation picks, in the new rotation at the first fitting kick of KICKS (0, -1, +1, -2, +2) on the same row, else one row up at the same column, else the old pose unchanged |
| Scoring.Points | Tetris.java:340-346 | definition: the points table, 40, 100, 300 and 1200 for one to four rows and 300 per row otherwise |
| Engine.Spawned | Tetris.java:220-233 | definition: the next piece becomes active at its spawn pose, the draw becomes next, and the game ends when that pose is invalid |
| Engine.Started | Tetris.java:198-207 | definition: an empty wall, score 0, level 1, no lines, interval 600, unpaused, the first draw active at its spawn pose and the second next, over only when that pose is invalid |
| Engine.TogglePaused | Tetris.java:256-260 | definition: the pause flag flips unless the game is over |
| Engine.Restarted | Tetris.java:253 | definition: a new game when the game is over, otherwise no change |
| Engine.Moved | Tetris.java:262-268 | definition: unless paused or over, the column changes by dx when the piece fits there, and nothing else changes |
| Engine.SoftDropped | Tetris.java:270-273 | definition: unless paused or over, a one-row drop |
| Engine.DroppedOne | Tetris.java:283-290 | definition: one row down when the piece fits there, otherwise a lock |
| Engine.HardDropped | Tetris.java:275-281 | definition: unless paused or over, the piece moves to its landing row and locks |
| Engine.RotationPose | Tetris.java:292-309 | definition: the pose Rotated picks for the next rotation index, the current one plus one modulo the rotation count |
| Engine.Rotation | Tetris.java:292-309 | definition: unless paused or over, the piece takes the rotation pose |
| Engine.Scored | Tetris.java:337-355 | definition: with rows cleared, the score gains points times the current level, the lines are added, and the level and interval change only when the new level is higher |
| Engine.Locked | Tetris.java:322-357 | definition: the cells are written in order; the first one above the field ends the game; otherwise full rows are cleared, the clear is scored and the next piece spawns |
| Game.GamePanel.SetCell | Tetris.java:327 | one wall cell is written, both in the array and in its mirror, and nothing else changes |
| Engine.StartedIsNewGame | Tetris.java:198-207 | a new game is live and unpaused, with an empty wall, score 0, level 1, no lines, interval 600, the first piece active at its spawn pose and the second next; it satisfies the invariant |
| Engine.StartedForgetsHistory | Tetris.java:198-207 | starting a game gives the same state whatever the previous state was |
| Engine.ScoredKeepsSound | Tetris.java:337-355 | scoring keeps the level and interval matched to the lines, adds the cleared rows to the total, keeps the wall, and never lowers score or level or raises the interval |
| Engine.StampFullCount | Tetris.java:323-327 | writing k cells into a wall without full rows makes at most k rows full |
| Engine.LockClearsAtMostFour | Tetris.java:337-346 | a lock during live play clears at most four rows, so only the four table entries of the points rule are reachable |
| Engine.LockedKeepsInv | Tetris.java:322-357 | after locking, the game is over or live with a fitting piece and no full row; score, lines and level never drop and the interval never rises; a top-out leaves the session unchanged |
| Engine.TopOutWritesEarlierCells | Tetris.java:322-335 | a top-out ends the game with exactly the cells before the first one above the field written (for the catalogue's shapes there are none, see TopOutWritesNothing), and nothing cleared, scored or spawned |
| Engine.TopOutWritesNothing | Tetris.java:322-335 | the cells come row by row, so the first cell above the field, if any, is the first cell: a lock writes either no cell or all of them |
| Engine.TopOutKeepsWall | Tetris.java:322-335 | a top-out ends the game and leaves the wall exactly as it was |
| Engine.MovedKeepsInv | Tetris.java:262-268 | a move keeps the invariant, the wall, the score, the row and the rotation |
| Engine.RotationKeepsInv | Tetris.java:292-309 | a rotation keeps the invariant (the piece still fits), the wall and the score |
| Engine.DroppedOneKeepsInv | Tetris.java:270-290 | a one-row drop and a soft drop keep the invariant and never lower the score |
| Engine.HardDroppedKeepsInv | Tetris.java:275-281 | a hard drop keeps the invariant and never lowers the score |
| Engine.PauseRestartKeepInv | Tetris.java:253-260 | pausing and restarting keep the invariant |
| Engine.FrozenIgnoresCommands | Tetris.java:256-293 | while paused or over, move, rotate, soft drop and hard drop change nothing; once over, pause changes nothing; before that, restart changes nothing and pausing twice is the identity |
| Game.GamePanel.constructor | Tetris.java:41-51 | a new panel has a started game: fresh empty wall, live and unpaused, score 0, level 1, interval 600, the first piece at its spawn pose, the invariant established |
| Game.GamePanel.IsValidPosition | Tetris.java:311-320 | the early-return scan answers exactly the collision rule on the current wall |
| Game.GamePanel.GhostRow | Tetris.java:533-534 | the ghost loop stops at the landing row of the active piece |
| Game.GamePanel.RowIsFull | Tetris.java:439-448 | the scan of one row answers whether every cell of it is filled |
| Game.GamePanel.CopyRow | Tetris.java:473 | the destination row becomes a copy of the source row and no other row changes |
| Game.GamePanel.ClearRow | Tetris.java:475 | row r becomes empty and no other row changes |
| Game.GamePanel.ShiftDown | Tetris.java:472-475 | row r is removed, the rows above move down one and row 0 is empty |
| Game.GamePanel.RemoveFullRow | Tetris.java:450-476 | removing the lowest unscanned full row adds one row to the cleared count and one empty row on top |
| Game.GamePanel.ClearLines | Tetris.java:436-480 | the in-place bottom-up scan, re-checking a row after each shift, leaves exactly the cleared wall and returns the number of full rows |
| Game.GamePanel.StartGame | Tetris.java:198-207 | the new state is a started game, with a fresh wall array |
| Game.GamePanel.SpawnPiece | Tetris.java:220-233 | the next piece becomes active at its spawn pose, the draw becomes next, and the game ends exactly when the spawn pose is invalid; the wall is untouched |
| Game.GamePanel.TogglePause | Tetris.java:256-260 | the pause flag flips unless the game is over; the invariant is kept |
| Game.GamePanel.Restart | Tetris.java:253 | a new game starts exactly when the game is over; the invariant is kept |
| Game.GamePanel.Move | Tetris.java:262-268 | the column changes by dx exactly when the target is valid and the game is live and unpaused; nothing else changes; the invariant is kept |
| Game.GamePanel.SoftDrop | Tetris.java:270-273 | a one-row drop unless paused or over; the invariant is kept |
| Game.GamePanel.DropOneRow | Tetris.java:283-290 | one row down when valid, otherwise a lock; the invariant is kept |
| Game.GamePanel.HardDrop | Tetris.java:275-281 | the loop descends to the landing row and then locks; the invariant is kept |
| Game.GamePanel.FirstFittingKick | Tetris.java:295-303 | the loop returns the index of the first fitting kick, or the number of kicks when none fits |
| Game.GamePanel.RotationTarget | Tetris.java:294-308 | the pose the kick search picks: first fitting kick, else one row up, else unchanged |
| Game.GamePanel.Rotate | Tetris.java:292-309 | a rotation with the kick search unless paused or over; the invariant is kept |
| Game.GamePanel.AddScore | Tetris.java:338-355 | the session after a clear: score plus points times the current level, lines added, level and interval raised only on an actual level-up |
| Game.GamePanel.WriteCells | Tetris.java:323-335 | the cells are written in order until the first one above the field; its index is returned and the wall holds exactly the earlier cells |
| Game.GamePanel.LockPiece | Tetris.java:322-357 | the new state is the lock of the old: a top-out ends the game with the earlier cells written; otherwise clear, score and spawn |
| Game.GamePanel.Settle | Tetris.java:337-356 | after all cells are written: full rows cleared, the clear scored, the next piece spawned |

## Left out

- Rendering, the Swing frame, themes, window resizing and key bindings are left out. They draw and wire inputs and hold no game state; each key's command is a method here.
- Highscore persistence, the SQLite database and the name dialog of `handleGameOver` are left out. They are I/O outside the engine.
- The drop timer (`javax.swing.Timer`) is left out. Only `dropDelay` is kept as a number, and a tick is `SoftDrop`, which is the timer's body.
- Randomness (`Tetromino.random`) is left out. Each draw is a method parameter.
- The `next != null` fallback in `spawnPiece` is left out. The panel is constructed with its game started, as the frame does, so `next` is always set.
- The visual effects are left out: the line and score-popup effects in `clearLines` and `VisualEffects.java`. They do not affect the game state.
- Colours are not modelled. A cell holds the variant, which stands for its colour, since each variant has its own colour.
- The repaint calls are left out.
- Game.GamePanel.AddScore: score and totalLines are unbounded integers. Java's 32-bit `int` would wrap only after more than 2^31 points, which is not modelled.
- Game.GamePanel.RotationTarget: the Java loop over the kicks with an early return is split in two. The loop is FirstFittingKick, and RotationTarget computes the resulting pose before Rotate assigns it.
- Game.GamePanel.WriteCells: Java sets the game-over flag inside the write loop. Here the loop returns the index of the first cell above the field and LockPiece sets the flag; the state reached is the same.
- Game.GamePanel.LockPiece: it ensures the mirror of the wall and the exact new state, not the invariant. The invariant follows from Engine.LockedKeepsInv, which the drop methods apply.
- Game.GamePanel.StartGame: it ensures the mirror of the wall and the exact new state, not the invariant. The invariant follows from Engine.StartedIsNewGame, which the constructor and Restart apply.
- Tetromino.Blocks and Tetromino.TopEmptyRows: they are given as a table. It is proved equal to decoding and scanning the template strings (BlocksDecodeTemplate, TopEmptyRowsScansTemplate), so no property of the Java decoding is lost.
- Rotation indices are natural numbers, so Java's `%` on a negative rotation never arises; the code only ever increments them from 0.

## Notes on the code's behaviour

- Spawn failure does not skip the spawn. `spawnPiece` makes the next piece active, draws a new next piece and sets the spawn pose, and only then sets the game-over flag when that pose is invalid (Tetris.java:220-227). Engine.Spawned does the same.
- Restart acts only once the game is over. The restart key starts a new game only when the game-over flag is set (Tetris.java:253); otherwise it changes nothing (Engine.Restarted, Engine.FrozenIgnoresCommands).
- Rotation indices are reduced modulo the template count (Tetris.java:914, Tetris.java:927). Tetromino.RotationCount computes that count and proves it is 4 for every variant.
