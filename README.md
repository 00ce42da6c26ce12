# Tetris engine in Dafny

This project models the `Tetris` class of `src/App.tsx`, the falling-block engine behind the game. The engine holds:

- a `height` × `width` grid whose cells are empty or hold the kind of a settled piece;
- the falling piece and the next piece, each a kind, a shape matrix and a position;
- the score, the speed level and the game-over flag.

Its operations create pieces, rotate them, test whether a piece may stand somewhere, move the falling piece, lock it into the grid, remove full rows and score them, spawn the next piece, advance the game by one tick and drop the piece to the floor.

The model has four modules, one file each:

- `Pieces` (`pieces.dfy`) holds the seven kinds, their shapes, piece generation and clockwise rotation. `RotateShape` is the nested loop that fills the turned matrix, proved equal to the function `Rotated`.
- `Board` (`board.dfy`) holds the cells and the grid. It defines collision (`Fits`, the nested `every` of `isValidMove`), locking a piece into the grid (`Merged`) and removing full rows. Row removal is the function `Cleared` plus `RemoveFullRows`, the bottom-up splice/unshift loop of `clearLines`, proved to compute `Cleared`.
- `Game` (`game.dfy`) holds the engine's fields as a value (`State`). It has one function per operation giving the state that operation leaves behind, and the invariant every reachable state keeps. It also states the lemmas about single operations and about whole sequences of commands.
- `Engine` (`engine.dfy`) holds `class Tetris` with the source's fields, updated in place by its methods. Each method ensures that the object's new fields, read as a `State`, are the corresponding `Game` function of the old ones. `MovePiece`, `RotateCurrent`, `Tick` and `HardDrop`, the commands a driver issues, also keep the invariant `Valid()`.

## Model

| member | source | states |
|---|---|---|
| Pieces.BaseShape | src/App.tsx:25-33 | every kind's shape is rectangular, at most 4 by 4, and has a block |
| Pieces.Generate | src/App.tsx:49-59 | a new piece has the kind chosen, that kind's shape and row 0, and is centred horizontally, rounding to the left: `0 <= width - cols - 2x <= 1` |
| Pieces.Rotated | src/App.tsx:61-69 | turning an R×C shape gives a C×R rectangular shape whose cell `[x][R-1-y]` is the old cell `[y][x]` |
| Pieces.RotateShape | src/App.tsx:62-69 | the nested loop that fills `newShape` produces exactly the clockwise turn `Rotated` |
| Pieces.RotatedWellFormed | src/App.tsx:61-79 | a turned well-formed shape is still well formed |
| Pieces.RotatedTwice | src/App.tsx:61-69 | two turns give the shape turned by 180 degrees |
| Pieces.RotatedFourTimes | src/App.tsx:61-69 | four turns give back the original shape |
| Pieces.RotatedSquare | src/App.tsx:61-69 | turning the O shape leaves it as it was |
| Board.EmptyRows | src/App.tsx:19 | `n` rows of `width` empty cells |
| Board.Fits | src/App.tsx:81-91 | `isValidMove`: every row of the shape, and every cell of each row, passes the test, as the two nested `every` calls; a 1-cell passes when its column is in `[0, width)`, its row is below `height`, and the grid cell is not filled where that row and column exist |
| Board.RowFitsIff | src/App.tsx:83-89 | the inner `every` over one shape row holds iff every block of that row lands on an open cell |
| Board.ShapeFitsIff | src/App.tsx:82-90 | the outer `every` holds iff every block of the shape lands on an open cell |
| Board.FitsIff | src/App.tsx:81-91 | `isValidMove` holds iff, for every block, its column is in `[0, width)`, its row is below `height`, and its grid cell is empty when the row is on the board; rows above the board and empty shape cells impose nothing |
| Board.FitsAboveFloor | src/App.tsx:81-91 | a valid piece with a block has its top row above the floor |
| Board.FitsLockable | src/App.tsx:108-118 | a valid piece has every block that lands in a board row inside a board column, so `mergePiece` writes only existing cells |
| Board.Merged | src/App.tsx:111-121 | the grid after `mergePiece`'s writes: a cell under a block of the piece holds the piece's kind, every other cell is as before; rows outside the board are never written |
| Board.MergedWritesPiece | src/App.tsx:108-121 | locking keeps the grid's shape, writes the piece's kind under each of its blocks in a board row, and changes no other cell |
| Board.Cleared | src/App.tsx:125-134 | clearing keeps the grid's dimensions, leaves no full row (for `width > 0`), and the top n rows are empty, where n is the number of rows removed |
| Board.RemoveFullRows | src/App.tsx:125-134 | the bottom-up loop with its re-examine step returns exactly `Cleared` of the grid and the number of full rows |
| Board.ClearedDropsRows | src/App.tsx:125-134 | each row that is not full ends up lower by exactly the number of full rows beneath it |
| Board.ClearedKeepsOrder | src/App.tsx:125-134 | of two rows that are not full, the upper one appears in the cleared grid above the lower one: surviving rows keep their relative order |
| Board.ClearedNothingFull | src/App.tsx:125-134 | clearing a grid with no full row changes nothing and counts 0 rows |
| Board.LinePoints | src/App.tsx:136 | the points table `[0, 100, 300, 500, 800]` indexed by the number of rows removed |
| Board.MergeFillsAtMostFour | src/App.tsx:136-137 | locking a piece into a grid with no full row leaves at most 4 full rows, so `linePoints[linesCleared]` is always defined |
| Game.Initial | src/App.tsx:16-47 | the constructor's state: an empty `height` × `width` board, score 0, level 1, no falling piece, not over, and the invariant holds |
| Game.CanMove | src/App.tsx:93-106 | `movePiece` succeeds exactly when there is a falling piece and its translated copy is valid |
| Game.Moved | src/App.tsx:93-106 | after `movePiece`: the falling piece is the translated copy if that is valid, and the state is unchanged otherwise or with no falling piece |
| Game.Locked | src/App.tsx:108-123 | after `mergePiece`: with a falling piece the grid is `Merged` and the score rises by 10; with none nothing changes |
| Game.ClearedRows | src/App.tsx:125-143 | after `clearLines`: the grid is `Cleared`; when n > 0 rows went, the score gains `LinePoints(n)` and the level rises by one if `floor(score / 300) > speedLevel - 1` with the new score |
| Game.Spawned | src/App.tsx:145-152 | after `spawnPiece`: the next piece becomes the falling piece, a new next piece of the chosen kind is generated, and `gameOver` is set if the new falling piece is not valid (and never cleared) |
| Game.Ticked | src/App.tsx:154-167 | after `tick`: nothing changes when the game is over; with no falling piece it spawns; otherwise the piece moves down one row, or, when it cannot, it is locked, rows are cleared and the next piece spawns |
| Game.HardDropped | src/App.tsx:169-172 | after `hardDrop`: the state the drop loop leaves, then one tick |
| Game.Turned | src/App.tsx:350-355 | the driver's rotate command: with a falling piece, it becomes `rotate`'s result, the turned piece if that is valid and the piece unchanged otherwise |
| Game.Dropped | src/App.tsx:170 | the `while (movePiece(0, 1))` loop ends. Only the falling piece changes, it moves straight down, it can move down no further, and the invariant holds |
| Game.MovedKeepsInv | src/App.tsx:93-106 | a move keeps the invariant |
| Game.MovedBack | src/App.tsx:93-106 | a successful move by `(dx, dy)` followed by a move by `(-dx, -dy)` restores the state: moves are all-or-nothing translations |
| Game.SpawnedKeepsInv | src/App.tsx:145-152 | spawning re-establishes the invariant: after a spawn the game runs only if the new falling piece fits |
| Game.TickedKeepsInv | src/App.tsx:154-167 | a tick keeps the invariant: the board keeps its shape and has no full row, the level stays within what the score allows, and while the game runs the falling piece fits |
| Game.TurnedKeepsInv | src/App.tsx:350-355 | the driver's rotate command, which assigns `rotate`'s result to the falling piece, keeps the invariant |
| Game.HardDroppedKeepsInv | src/App.tsx:169-172 | a hard drop keeps the invariant |
| Game.ClearedRowsScore | src/App.tsx:135-142 | with n rows removed, the score rises by `[0,100,300,500,800][n]`, score and level change only when n > 0, the level rises by at most one, and it rises iff n > 0 and `floor(score / 300) > speedLevel - 1` |
| Game.HardDropLocks | src/App.tsx:169-172 | on a running game the piece left by the drop loop cannot move down, and the following tick locks it, clears rows and spawns |
| Game.DroppedOnEmptyBoard | src/App.tsx:170 | on an empty board a piece whose bottom row has a block drops until that row is the floor row |
| Game.Step | src/App.tsx:93-172 | every command (move, rotate, tick, hard drop) keeps the invariant |
| Game.Run | src/App.tsx:93-172 | every sequence of move, rotate, tick and hard-drop commands keeps the invariant |
| Game.StepScoreGrows | src/App.tsx:122-141 | no command lowers the score or the level |
| Game.ScoreNeverDecreases | src/App.tsx:122-141 | score and level never decrease over any sequence of commands |
| Game.GameOverIsFinal | src/App.tsx:145-155 | once the game is over it stays over, and no command changes the board, the score, the level or the next piece |
| Engine.Tetris.constructor | src/App.tsx:16-47 | the new object's fields are `Initial` and satisfy the invariant |
| Engine.Tetris.Rotate | src/App.tsx:61-79 | returns the piece with its shape turned clockwise, same kind and position, if that fits; otherwise the piece as given |
| Engine.Tetris.MovePiece | src/App.tsx:93-106 | returns whether the translated piece fits (false with no piece), and changes only the falling piece, exactly as `Moved`; a valid engine stays valid |
| Engine.Tetris.RotateCurrent | src/App.tsx:350-355 | the falling piece becomes the result of `Rotate` on it, as `Turned` says, and a valid engine stays valid |
| Engine.Tetris.MergePiece | src/App.tsx:108-123 | the grid becomes `Merged` and the score rises by exactly 10; nothing else changes, and nothing at all without a falling piece |
| Engine.Tetris.ClearLines | src/App.tsx:125-143 | the grid becomes `Cleared` and score and level change as `ClearedRows` says |
| Engine.Tetris.SpawnPiece | src/App.tsx:145-152 | the next piece becomes the falling piece, a new next piece is generated, and `gameOver` is set if the new falling piece does not fit |
| Engine.Tetris.Tick | src/App.tsx:154-167 | the fields change as `Ticked` says and the invariant is kept |
| Engine.Tetris.HardDrop | src/App.tsx:169-172 | the drop loop ends, the fields change as `HardDropped` says, and the invariant is kept |

## Left out

- The `App` component is not part of this model: canvas drawing, the score display, the animation loop, key bindings and their shuffling, and the end-of-game overlay.
- The `colors` table is display-only, and the tick cadence derived from `speedLevel` is floating-point timing owned by the driver.
- `Math.random` in `generatePiece` becomes an explicit `Kind` parameter, on `Generate`, `SpawnPiece`, `Tick`, `HardDrop` and the constructor.
- The `JSON.parse(JSON.stringify(...))` deep copy of a shape is value semantics: shapes are immutable sequences.
- Shapes hold `bool` where the source's matrices hold 0/1, and a cell is `Empty` or `Filled(kind)` where the source holds `0` or the kind's letter.
- Engine.Tetris.constructor: the default arguments 10 and 20 are not modelled; the caller gives both dimensions.
- Engine.Tetris.constructor requires `width > 0`. With width 0 every row is "full", since `every` over an empty row is true. The re-examine step of `clearLines` would then loop forever if it were called. The engine never calls it at width 0: no block fits in zero columns, so the first `spawnPiece` sets `gameOver` and `tick` returns before any piece is locked. The only construction in the code, `new Tetris()`, uses width 10.
- `nextPiece` is never null, because `generatePiece` always returns a piece. The `!this.currentPiece` test in `spawnPiece` therefore never fires and is not modelled.
- Engine.Tetris.Rotate and Engine.Tetris.RotateCurrent require a rectangular shape, which every piece the engine holds has. The source's `piece.x || 0` and `piece.y || 0` defaults are not modelled: a piece always has numeric coordinates.
- Engine.Tetris.MergePiece requires each block in a board row to lie in a board column. The source does not check columns: a write at a column `x >= width` would lengthen the JavaScript row to `x + 1` cells, and one at a negative column would add a non-index property to it. `tick` only locks pieces that fit, and `Board.FitsLockable` proves such pieces meet the requirement.
- Engine.Tetris.ClearLines requires at most 4 full rows. With more, `linePoints[linesCleared]` is undefined and the score would become `NaN`. `Board.MergeFillsAtMostFour` proves the engine never reaches that case.
- Engine.Tetris.ClearLines builds the new rows in a local sequence and writes them back once, instead of splicing `this.grid` row by row. The rows written and their order are the same.
- Engine.Tetris.Tick and Engine.Tetris.HardDrop require the invariant `Valid()`. The constructor establishes it, and every command a driver issues (`MovePiece`, `RotateCurrent`, `Tick`, `HardDrop`) keeps it, so only unreachable states are excluded. `MergePiece`, `ClearLines` and `SpawnPiece` are steps inside `Tick` and do not keep it on their own: locking a piece may leave a full row until `ClearLines` removes it.
- `movePiece` and `hardDrop` are not guarded by `gameOver` in the code. After game over they still move the falling piece, and only `tick` does nothing. The model follows the code, and `Game.GameOverIsFinal` states what stays fixed.
- Integer widths are not modelled: JavaScript numbers are IEEE-754 doubles, exact for integers up to 2^53. Every score and level the engine reaches is an integer that grows by at most 810 points per tick, so it stays exact far below that bound.
