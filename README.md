# Tetris game state, modelled in Dafny

This project models the game-state logic of the browser Tetris in
`Tetris/script.js`. The state is a 20 × 10 grid whose cells are empty or hold a
colour, one falling piece (a 0/1 shape matrix, a colour and the grid position of
its top-left corner) and a game-over flag. The operations are the collision test,
the left, right and down moves (each reverted when it collides), the quarter-turn
rotation (also reverted when it collides), spawning a piece from the seven-entry
catalog, and row clearing.

Modules follow the parts of the program:

- `Board` (Board.dfy): the grid dimensions, cells, colours, the all-empty grid,
  and full rows.
- `Pieces` (Pieces.dfy): shapes, the tetromino catalog, spawning (`NewPiece`) and
  the rotation transform.
- `Collision` (Collision.dfy): the collision predicate `Collides`, used as the
  specification of the game's collision test.
- `LineClear` (LineClear.dfy): row clearing as the game performs it. It also
  holds the corrected clearing, proved equal to the intended compaction.
- `Game` (Game.dfy): class `Tetris` with fields `grid`, `currentPiece` and
  `gameOver`. Its methods update these fields in place as the game's methods do.
  Each method is proved against the functions above.

The random choice of catalog entry is a parameter `k < |Catalog|` of the
constructor and of `MoveDown`.

The piece is a datatype value held in the `currentPiece` field, and each in-place
`x--`, `y++` or `shape =` becomes a reassignment of that field. Nothing else
holds a reference to the piece object: every call of `createNewPiece` returns a
new object literal. The piece's shape array is shared with the catalog entry it
came from (`shape: randomTetromino.shape`), but no code changes a shape array in
place: `rotate` builds a new array and assigns it to the piece. So value
semantics describe the piece and its shape exactly.

Two behaviours of the code are worth stating up front:

- `moveDown` never writes the settled piece into the grid and never calls
  `clearLines`. There is no score, level or speed anywhere in the file.
- With two or more full rows, `clearLines` removes stale indices, so it does
  not compact the grid correctly (see Findings). With exactly one full row it
  is correct.

## Model

| member | source | states |
|---|---|---|
| `Pieces.CatalogWellFormed` | Tetris/script.js:7-15 | every catalog shape is a non-empty rectangular matrix no taller than the grid and no wider than it |
| `Pieces.NewPiece` | Tetris/script.js:28-36 | a spawned piece has the catalog entry's shape and colour, y = 0, and is horizontally centred: x ≥ 0 and the right margin exceeds the left margin by 0 or 1 |
| `Collision.FitsEmptyGrid` | Tetris/script.js:103-117 | a well-formed piece whose bounding box lies inside the grid does not collide with an all-empty grid |
| `Collision.NewPieceFitsEmptyGrid` | Tetris/script.js:23-24 | for every catalog entry, the spawned piece does not collide with the all-empty grid the constructor builds |
| `Game.Tetris.HasCollision` | Tetris/script.js:103-117 | the nested scan with early return answers exactly `Collides`: some occupied cell is left or right of the grid, below the bottom, or on a non-empty cell at a row ≥ 0; rows above the top are checked against the side walls only |
| `Game.Tetris.constructor` | Tetris/script.js:22-26 | a new game has the all-empty ROWS × COLS grid, the spawned piece and gameOver false, and the piece does not collide |
| `Game.Tetris.MoveLeft` | Tetris/script.js:89-94 | the piece is either moved one column left where that does not collide, or left unchanged when it would; y, shape, colour, grid and gameOver never change; "not over ⇒ no collision" is preserved |
| `Game.Tetris.MoveRight` | Tetris/script.js:96-101 | the same as MoveLeft, one column to the right |
| `Game.Tetris.MoveDown` | Tetris/script.js:78-87 | if one row lower does not collide, the piece moves down and gameOver is unchanged. Otherwise the grid is untouched, the piece is replaced by the spawned one, and gameOver becomes true exactly when that piece collides. gameOver never goes from true to false, and afterwards "not over ⇒ no collision" always holds |
| `Pieces.RotationShape` | Tetris/script.js:144-151 | the rotated matrix has shape[0].length rows and shape.length columns, entry [i][k] is shape[shape.length-1-k][i], and it is rectangular and non-empty again |
| `Pieces.HalfTurn` | Tetris/script.js:144-151 | two quarter turns give the shape turned upside down and mirrored, with the original dimensions |
| `Pieces.RotationFourTimes` | Tetris/script.js:144-151 | four quarter turns give back the original shape |
| `Game.Tetris.Rotate` | Tetris/script.js:143-159 | the nested push loops build exactly the quarter turn. It is installed when the turned piece does not collide; otherwise the original shape is restored. x, y, colour, grid and gameOver never change, and "not over ⇒ no collision" is preserved |
| `LineClear.LinesToClear` | Tetris/script.js:125-130 | every collected index is a row of the grid at or below the starting row |
| `LineClear.LinesToClearExact` | Tetris/script.js:125-130 | the collected list holds exactly the full rows, each once, in strictly decreasing (bottom-up) order |
| `LineClear.LinesClearedCount` | Tetris/script.js:121-140 | the number of collected rows, which clearLines returns, equals the number of rows that are full on entry |
| `LineClear.LinesToClearSkip` | Tetris/script.js:125-130 | rows that are not full add nothing to the collected list |
| `LineClear.ApplyClears` | Tetris/script.js:134-137 | each splice-then-unshift step keeps the number of rows |
| `LineClear.ApplyClearsWellFormed` | Tetris/script.js:134-137 | splice-then-unshift steps keep every row COLS wide |
| `LineClear.ClearLinesKeepsShape` | Tetris/script.js:120-141 | after clearing, the grid still has ROWS rows of COLS cells |
| `LineClear.ClearLinesNoFullRow` | Tetris/script.js:132-140 | with no full row nothing is collected and the grid is unchanged |
| `LineClear.ClearLinesOneFullRow` | Tetris/script.js:120-141 | with exactly one full row, the grid becomes one empty row followed by all other rows in their original order |
| `Game.Tetris.ClearLines` | Tetris/script.js:120-141 | the two loops compute exactly the collected list and the as-written clearing; the count returned is the number of full rows; grid shape, piece and gameOver are kept |
| `LineClear.AsWrittenTwoBottomRows` | Tetris/script.js:125-137 | with exactly the two bottom rows full, the row above them is lost, a full row stays at the bottom, and the result differs from the intended clearing |
| `LineClear.ClearedIntendedPrefix` | Tetris/script.js:134-137 | processed top-down, the removals leave the cleared rows as empty rows on top, then the kept rows in order, then the untouched rows |
| `LineClear.ScanReversed` | Tetris/script.js:125-130 | the game's bottom-up list of full rows, reversed, is the top-down list of the same rows, which the corrected clearing processes |
| `LineClear.KeptNotFull` | Tetris/script.js:126 | no row kept by the compaction is full |
| `LineClear.ClearedIntendedCompacts` | Tetris/script.js:134-137 | the corrected clearing gives as many empty rows as were full, then every non-full row in its original order; the grid keeps its shape and no full row remains |

## Findings

| source | as written | input that shows it | evidently intended | confidence | as-written member | corrected member |
|---|---|---|---|---|---|---|
| Tetris/script.js:125-137 | The full-row indices are collected bottom-up from the grid on entry. Each is then spliced from the current grid, after earlier `unshift`s have moved every row above a removed row down by one | A grid whose rows 18 and 19 are full and whose other rows are not. clearLines returns 2 but removes rows 19 and 17: full row 18 stays at the bottom, and non-full row 17 is lost | remove exactly the full rows, putting as many empty rows on top and keeping the other rows in order; processing the game's own collected list in reverse (top-down) does this | high (proved; not executed) | `LineClear.AsWrittenTwoBottomRows` | `LineClear.ClearedIntendedCompacts` |

`Game.Tetris.ClearLines` keeps the code as written. Nothing else in the game calls
`clearLines`, so no other member depends on which version is used.

## Left out

- Rendering (`draw`, `drawGrid`, `drawPiece`, the canvas, its context and
  `BLOCK_SIZE`): these are drawing calls into the browser.
- The keyboard handler, which returns early once the game is over, and the
  `setTimeout` game loop. They are event and timer plumbing outside the class. So
  the class's own methods still act after game over, as the model shows.
- `Math.random` in `createNewPiece`: it is replaced by the catalog index
  parameter `k`.
- Colours are a seven-value datatype, not strings. An empty cell is `Empty`, not
  the number 0.
- Shapes that are not rectangular matrices: the class invariant `Valid` requires
  a rectangular shape. Every catalog shape is one, and rotation keeps it one.
  The source would read `undefined` from a jagged shape.
- `LineClear.ClearStep` requires an index inside the grid. JavaScript's
  `splice` would remove nothing for an index past the end, but every
  collected index is a row of the grid, and clearing keeps the number of rows.
- Scoring, levels, speed, audio and locking a piece into the grid: the file
  contains none of these.
