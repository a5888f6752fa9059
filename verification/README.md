# Falling-block game engine, modelled in Dafny

This project models the game engine of a small browser Tetris game (`tetris.js`).
The board is a 20 by 10 grid of 0/1 cells. The falling piece is a rectangular 0/1
mask plus a column `x` and a row `y`. Score and level are integers. Every engine
operation is a pure function from one state record to the next:

- the validity check (`isValidMove`);
- locking a piece into the board (`mergePiece`);
- the line-clearing pass with its score and level rule (`clearLines`);
- the four moves (`moveDown`, `moveLeft`, `moveRight`, `rotate`);
- spawning (`newPiece`) and the state reset of `startGame`.

The random shape choice of `newPiece` is a parameter `k` in `[0, 7)`. The timer
effects of game over (stop the tick timer) and of a level-up (restart it at a
faster period) are not state; they are returned as flags. A level-up also raises
`level` by one, and the model does that in the state.

Modules, one per component:

- `Grid` (`grid.dfy`): board dimensions, rows, full rows, empty rows.
- `Tetromino` (`tetromino.dfy`): the seven-shape catalog and the quarter turn.
- `Collision` (`collision.dfy`): the validity check and the lock.
- `Lines` (`lines.dfy`): the clearing pass, plus a reference reading of it in terms of the original rows.
- `Scoring` (`scoring.dfy`): the score and level rule.
- `Engine` (`engine.dfy`): the game state and its transitions.

Cells and mask entries are integers and count as occupied when non-zero, as the
game's truthiness tests do. The engine only ever stores 0 and 1, and
`Engine.WellFormed` keeps the board that way.

**Line clearing as written.** A player would expect one call to clear every
full row. The code does not: after `splice(y, 1)` and `unshift`,
the loop still decrements `y`, so the row that slid into index `y` is never
examined (tetris.js:92-97). The model follows the code. `Lines.ClearFrom`
mirrors the loop. `Lines.Survey` describes the same behaviour in terms of the
original rows: a full row is dropped and the row directly above it is kept
without being examined. `Lines.ClearFromMatchesSurvey` proves the two agree.
`Lines.AdjacentFullRowSurvives` shows two full bottom rows losing only one of
them. `Lines.IsolatedFullRowsAllCleared` shows that when no two full rows are
adjacent, every full row is cleared, as a player would expect.

The validity check has no upper bound, so a negative row index would be read
from the board. The model requires `y >= 0`. That always holds in the game: `y`
starts at 0 and only ever increases (tetris.js:60, tetris.js:113).

## Model

| member | source | states |
|---|---|---|
| `Grid.EmptyRow` | tetris.js:95 | the inserted row has 10 cells, all zero, and is not full |
| `Grid.EmptyBoard` | tetris.js:150 | the reset board is 20 by 10, 0/1, and every cell is zero |
| `Tetromino.CatalogShapes` | tetris.js:16-24 | each of the seven shapes is a rectangular 0/1 mask of exactly four set cells, at most 2 rows by 2-4 columns, with a set cell in the middle column of its top row |
| `Tetromino.RotateMask` | tetris.js:134-136 | the rotated mask has as many rows as the original had columns and vice versa; cell (c, k) of the result is cell (rows-1-k, c) of the original, i.e. a clockwise quarter turn |
| `Tetromino.HalfTurn` | tetris.js:134-136 | two quarter turns read the mask backwards in both directions, dimensions unchanged |
| `Tetromino.RotatePeriodFour` | tetris.js:134-136 | four quarter turns give back the original mask |
| `Tetromino.RotateKeepsBinary` | tetris.js:134-136 | a quarter turn of a 0/1 mask is a 0/1 mask |
| `Collision.IsValidMove` | tetris.js:67-78 | the cell-by-cell scan with early exit returns true exactly when every set mask cell (i, j) has y+i < 20, 0 <= x+j < 10 and an empty board cell beneath it, and false when some set cell fails one of these |
| `Collision.FitsInBounds` | tetris.js:67-78 | an accepted placement puts every set cell on a board coordinate |
| `Collision.MergeRow` | tetris.js:82-86 | one mask row writes 1 under each of its set cells from column j on; every other cell is unchanged and the board stays 20 by 10 |
| `Collision.MergeRows` | tetris.js:81-87 | mask rows i and below write 1 under each of their set cells; every other cell is unchanged |
| `Collision.Merge` | tetris.js:80-88 | every board cell under a set mask cell at (x+j, y+i) becomes 1, every other cell keeps its value, the board stays 20 by 10 and stays 0/1 |
| `Collision.MergeOccupies` | tetris.js:80-88 | after locking a piece with a set cell, the same placement is no longer accepted |
| `Lines.ClearFrom` | tetris.js:92-98 | the bottom-up pass keeps the number of rows and clears at most one row per position examined |
| `Lines.EmptyWindow` | tetris.js:92-97 | the pass over empty rows clears nothing and changes nothing |
| `Lines.ClearFromMatchesSurvey` | tetris.js:92-98 | the pass equals the reference reading: the survivors under one empty row per dropped row, where each dropped row was full and the row right above it is kept unexamined |
| `Lines.SurveyDropsOnlyFull` | tetris.js:92-97 | survivors plus dropped rows number the original rows; survivors are the original rows minus some full rows, in their original order |
| `Lines.SurveyCount` | tetris.js:92-97 | the number dropped is at most the number of full rows, it is zero exactly when no row is full, and dropping nothing keeps the board |
| `Lines.SurveyKeepsRows` | tetris.js:92-97 | every surviving row is a row of the original board |
| `Lines.IsolatedFullRowsAllCleared` | tetris.js:92-97 | when no two vertically adjacent rows are both full, every full row is dropped and no survivor is full |
| `Lines.ClearLines` | tetris.js:90-98 | the result is 20 by 10 (0/1 when the input was), its top `lines` rows are empty, the rest is the input with only full rows removed in order, `lines` is zero exactly when no row is full, and then the board is unchanged |
| `Lines.AdjacentFullRowSurvives` | tetris.js:92-97 | when both bottom rows are full, the new bottom row is the old second-to-bottom row and is still full |
| `Lines.OneFullRowClearsOne` | tetris.js:92-97 | a board with exactly one full row has exactly one line cleared |
| `Scoring.AddScore` | tetris.js:99-104 | the score grows by exactly lines * 100 * level and is unchanged exactly when no line was cleared; the level rises by at most 1, and rises exactly when lines were cleared and the new score reaches level * 1000 |
| `Scoring.AddScorePreservesConsistent` | tetris.js:99-104 | from a consistent score and level, the score stays a non-negative multiple of 100 and level L never occurs with a score below 1000 * (L - 1) |
| `Engine.NewPiece` | tetris.js:57-65 | the spawned piece is catalog shape k at row 0, column 5 - floor(width/2), entirely on the board; the spawn signals game over exactly when the validity check rejects it |
| `Engine.SpawnInBounds` | tetris.js:57-61 | every catalog shape at its spawn position lies entirely on the board |
| `Engine.BlockedSpawnEndsGame` | tetris.js:57-64 | if the top row is occupied at column 5, every spawn signals game over |
| `Engine.SpawnOnEmptyBoardFits` | tetris.js:150-155 | a spawn onto the reset board never signals game over |
| `Engine.StartGame` | tetris.js:148-155 | a new game has the empty board, score 0, level 1 and a freshly spawned piece that the validity check accepts, and is well formed |
| `Engine.MoveLeft` | tetris.js:121-125 | x decreases by exactly 1 when the shifted piece is accepted, otherwise nothing changes; y, shape, board, score and level never change, and an accepted position stays accepted |
| `Engine.MoveRight` | tetris.js:127-131 | x increases by exactly 1 when the shifted piece is accepted, otherwise nothing changes; y, shape, board, score and level never change, and an accepted position stays accepted |
| `Engine.LeftRightInverse` | tetris.js:121-131 | from an accepted position, a successful move left is undone by a move right and vice versa |
| `Engine.Rotate` | tetris.js:133-140 | the shape becomes its quarter turn when that is accepted at the same x and y, otherwise nothing changes; position, board, score and level never change, and an accepted position stays accepted |
| `Engine.FourRotationsReturn` | tetris.js:133-140 | when every quarter turn fits in place, four rotations restore the state |
| `Engine.MoveDown` | tetris.js:111-119 | the piece locks exactly when it cannot move one row lower. If it does not lock, only y changes, by +1. If it locks, the board becomes the cleared merge, the score grows by lines * 100 * level, the level rises by at most one with the level-up signal, and the piece is a fresh spawn. The result is well formed, the piece is accepted exactly when no game over was signalled, and score/level consistency is kept |
| `Engine.LockFillingOneRow` | tetris.js:111-119 | a lock leaving exactly one full row clears one line and adds exactly 100 * level to the score |
| `Engine.MovesPreserveWellFormed` | tetris.js:121-140 | sideways moves and rotation keep the state well formed |

## Left out

- Canvas drawing (`drawBoard`, `drawPiece`, tetris.js:32-55) is pure output and is not modelled.
- DOM lookups, the score and level text updates, `alert`, `console.log`, the key and page-load listeners and the host "ready" handshake (tetris.js:1-5, 101, 104, 162, 165-188) are I/O. The key dispatch only calls the modelled moves.
- Timer management (`setInterval`, `clearInterval` and the `1000 / level` period, tetris.js:105-106, 156-157, 161) is not modelled. The level-up and game-over flags returned by `Engine.MoveDown` and `Engine.NewPiece` are the signals the game acts on. The period is a floating-point quotient.
- `gameOver` (tetris.js:160-163) only stops the timer and shows an alert. It is the `gameOver` flag, not a state: the game keeps accepting moves afterwards, and the model allows that.
- `Math.random` (tetris.js:58) is the parameter `k`, an arbitrary index in `[0, 7)`.
- The validity check is modelled only for `y >= 0`. With a negative row, the game would index the board out of range.
- Masks with rows of different lengths are not modelled for rotation. Every mask the game produces is rectangular.
- Calling a move before the first `startGame` dereferences a null shape in the game. The model has no such state.
