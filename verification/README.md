# Falling-block game engine in Dafny

This project models the rules engine of a browser Tetris game. It also models the
reducer-style transitions of the game hook that drive it. It does not model
rendering, input, audio, persistence or timing.

- `types.dfy` (module `Types`) holds the data model of `src/types/tetris.ts`.
  A position has signed integer coordinates. A shape is a `seq<seq<bool>>`,
  because the source uses 0/1 entries only for their truthiness. A board cell is
  `Option<Color>`: `None` plays the role of `null`.
- `tetrominoes.dfy` (module `Tetrominoes`) holds the table of the seven shapes
  I, O, T, S, Z, J and L, and the spawn function. The spawn function takes the
  piece index that the source draws with `Math.random`.
- `game_logic.dfy` (module `GameLogic`) holds the rules on the 10-by-20 board:
  - board creation;
  - the move validator, a scan with early exit that is proved equal to a
    quantified reference predicate `Fits`;
  - clockwise rotation;
  - locking a piece, which writes cell by cell as the source's loops do;
  - line clearing, the source's bottom-up splice-and-recheck scan, proved equal
    to "empty rows on top, then the rows that were not full, in order";
  - the score, level and drop-interval formulas;
  - a fresh game.
- `use_tetris.dfy` (module `UseTetris`) holds each `setGameState(prev => …)` body
  as a pure function. Each one returns the next snapshot and the sounds the hook
  asks for (`Step`). The random draws a transition may make are index
  parameters. Move-down and hard-drop share the landing sequence `Lock`.
- `invariants.dfy` (module `Invariants`) defines the game invariant. It proves
  that every command keeps the invariant and that play never lowers score or
  lines. The invariant says:
  - the board is 20 by 10 and has no full row;
  - level equals lines divided by ten;
  - a game that is over is not playing;
  - the held pieces are square, at most 4 wide and non-empty;
  - while playing, the current piece is valid where it stands.

Behaviour of the code worth noting:

- Pausing flips `isPaused` even when no game is running
  (`src/hooks/useTetris.ts:227-232`, `PauseGame`).
- A hard drop that cannot move the piece at all returns the previous state
  unchanged and does not lock the piece (`src/hooks/useTetris.ts:170,216`,
  `HardDrop`).
- Reset gives a fresh game that is not playing, while start gives one that is
  (`src/hooks/useTetris.ts:220-236`, `ResetGame`, `StartGame`).
- The drop interval reaches its 50 ms floor at level 19 and stays there
  (`src/utils/gameLogic.ts:86-88`, `CalculateDropTime`).

## Model

| member | source | states |
|---|---|---|
| `GameLogic.CreateEmptyBoard` | src/utils/gameLogic.ts:4-9 | the new board has 20 rows of 10 cells and every cell is empty |
| `GameLogic.Allowed` | src/utils/gameLogic.ts:18-22 | one shape cell is rejected when it is left of column 0, right of column 9, below row 19, or on a truthy (non-null, non-empty-string) cell of a visible row; above row 0 only the side walls apply |
| `GameLogic.IsValidMove` | src/utils/gameLogic.ts:11-30 | a move is valid exactly when every filled shape cell lands within columns 0..9, above row 20, and on an unoccupied cell or above row 0 (the reference predicate `Fits`) |
| `GameLogic.RowsValid` | src/utils/gameLogic.ts:12-29 | the outer row loop with early exit accepts exactly when every filled cell from that row down is allowed |
| `GameLogic.CellsValid` | src/utils/gameLogic.ts:13-27 | the inner column loop accepts exactly when every filled cell of the row from that column on is allowed |
| `GameLogic.FitsIsAboveFloor` | src/utils/gameLogic.ts:21 | a valid position of a shape with a filled cell is above the floor, which is what ends the hard-drop probe |
| `GameLogic.Column` | src/utils/gameLogic.ts:34 | `shape.map(row => row[i])` has one entry per shape row, entry j being row j's i-th entry, or empty past that row's end |
| `GameLogic.RotatePiece` | src/utils/gameLogic.ts:32-41 | rotated[i][j] = shape[n-1-j][i]; row and column counts swap; colour and position are kept |
| `GameLogic.Reverse` | src/utils/gameLogic.ts:34 | reversing a column puts entry k at position n-1-k |
| `GameLogic.RotateRect` | src/utils/gameLogic.ts:32-41 | a rows-by-cols shape rotates to a cols-by-rows shape whose cell (i, j) is the original cell (rows-1-j, i) |
| `GameLogic.RotateTwice` | src/utils/gameLogic.ts:32-41 | two rotations of a rectangular shape turn it upside down and mirror it |
| `GameLogic.RotateFourTimes` | src/utils/gameLogic.ts:32-41 | four rotations of any non-empty rectangular piece give the original piece back |
| `GameLogic.RotateKeepsWellShaped` | src/utils/gameLogic.ts:32-41 | rotating a square shape of size 1..4 with a filled cell keeps it square, of the same size, with a filled cell |
| `GameLogic.Write` | src/utils/gameLogic.ts:52 | the assignment colours exactly cell (y, x) and leaves every other cell and the board's dimensions unchanged |
| `GameLogic.PlaceRow` | src/utils/gameLogic.ts:47-55 | the inner placement loop colours exactly the visible cells under the row's filled entries from that column on |
| `GameLogic.PlaceRows` | src/utils/gameLogic.ts:46-56 | the outer placement loop colours exactly the visible cells under filled entries of the remaining rows |
| `GameLogic.PlacePiece` | src/utils/gameLogic.ts:43-59 | the board keeps its dimensions; every visible covered cell gets the piece's colour; every other cell is unchanged; cells above row 0 are dropped |
| `GameLogic.PlaceKeepsOtherRows` | src/utils/gameLogic.ts:43-59 | rows that the piece's shape does not span come out unchanged |
| `GameLogic.FullCountCons` | src/utils/gameLogic.ts:66-68 | putting a row on top adds one to the full-row count exactly when that row is full, and the filter of non-full rows keeps it exactly when it is not full |
| `GameLogic.SpliceFullRow` | src/utils/gameLogic.ts:66-70 | splicing out a full row and putting an empty row on top leaves one full row fewer above the scan point and the same compacted result |
| `GameLogic.SkipRow` | src/utils/gameLogic.ts:65-66 | passing over a row that is not full leaves the compacted result unchanged |
| `GameLogic.Scan` | src/utils/gameLogic.ts:65-72 | the bottom-up scan that re-checks a row after a splice returns the compacted rows and adds the number of full rows to the count |
| `GameLogic.EveryCellSet` | src/utils/gameLogic.ts:66 | the short-circuit `every(cell => cell !== null)` scan is true exactly when every remaining cell of the row holds a colour (the reference predicate `Full`), an empty-string colour included |
| `GameLogic.NonFullFromInput` | src/utils/gameLogic.ts:61-75 | every row the non-full filter keeps is a row of the input board, so the rows under the inserted empty rows come from the input |
| `GameLogic.EmptyRow` | src/utils/gameLogic.ts:68 | the row put on top after a splice has 10 cells, all empty, so it is never full |
| `GameLogic.ClearLines` | src/utils/gameLogic.ts:61-75 | the count is the number of full input rows; the board is that many empty rows followed by the non-full input rows in their original order; it is 20 by 10 and has no full row |
| `GameLogic.NoFullRowsCompact` | src/utils/gameLogic.ts:61-75 | a sequence of rows with no full row has a full count of zero and filters to itself |
| `GameLogic.ClearLinesIdempotent` | src/utils/gameLogic.ts:61-75 | clearing an already cleared board clears nothing and returns it unchanged |
| `GameLogic.FullCountWithin` | src/utils/gameLogic.ts:61-75 | if every full row lies in a range, the full-row count is at most that range's size |
| `GameLogic.LockClearsAtMostFour` | src/utils/gameLogic.ts:77-80 | locking a piece of at most 4 rows into a board without full rows completes at most 4 rows, so the 5-entry score table is never overrun |
| `GameLogic.CalculateScore` | src/utils/gameLogic.ts:77-80 | for 0..4 lines the score is never negative at a level of 0 or more; no lines score 0; at a level of 0 or more the score is 0 exactly when no lines clear; at a level L of 0 or more, any clear is worth at least 40·(L+1) |
| `GameLogic.ScoreMonotone` | src/utils/gameLogic.ts:77-80 | more lines, or a higher level, never score less |
| `GameLogic.ScoreExamples` | src/utils/gameLogic.ts:77-80 | one line at level 0 scores 40, four lines at level 0 score 1200, two lines at level 2 score 300 |
| `GameLogic.CalculateLevel` | src/utils/gameLogic.ts:82-84 | the level is the floor of lines/10: 10·level <= lines < 10·level + 10 |
| `GameLogic.LevelMonotone` | src/utils/gameLogic.ts:82-84 | the level never decreases as lines grow |
| `GameLogic.CalculateDropTime` | src/utils/gameLogic.ts:86-88 | the interval is the larger of 50 and 1000 − 50·level, so it is never below 50 |
| `GameLogic.DropTimeNonIncreasing` | src/utils/gameLogic.ts:86-88 | a higher level never has a longer interval |
| `GameLogic.InitializeGame` | src/utils/gameLogic.ts:90-102 | empty board; score, level and lines 0; all three flags false; current and next piece are the two drawn templates |
| `GameLogic.SpawnFitsEmptyBoard` | src/utils/tetrominoes.ts:64-74 | every freshly spawned piece is valid at its spawn position on the empty board |
| `Tetrominoes.NamesAreTheKeys` | src/utils/tetrominoes.ts:62 | the name list has 7 distinct entries, I, O, T, S, Z, J, L in that order, and they are exactly the table's keys |
| `Tetrominoes.TemplateAt` | src/utils/tetrominoes.ts:66-67 | the index-th name is a key of the table and the result is the template stored under it |
| `Tetrominoes.TemplatesDistinct` | src/utils/tetrominoes.ts:3-62 | different indices select different templates: their colours differ |
| `Tetrominoes.TemplatesAreTetrominoes` | src/utils/tetrominoes.ts:3-60 | I is 4×4, O is 2×2 and the rest are 3×3; each template has exactly 4 filled cells, one of them at (1,1) |
| `Tetrominoes.SpawnedPiecesAreWellShaped` | src/utils/tetrominoes.ts:3-60 | every spawned shape is square, at most 4 rows, with a filled cell, so it spans at most 4 rows |
| `Tetrominoes.GetTetromino` | src/utils/tetrominoes.ts:64-74 | draw i yields template i's shape and colour at position (3,0) |
| `UseTetris.Active` | src/hooks/useTetris.ts:23-25 | the guard shared by moveDown, moveLeft, moveRight, rotate and hardDrop: a current piece, playing and not paused; otherwise the callback returns the previous state |
| `UseTetris.MoveLeft` | src/hooks/useTetris.ts:84-108 | only the current piece may change; the state changes exactly when the game is active and the position one column left is valid; then only x decreases by 1 and a move sound plays; otherwise no sound |
| `UseTetris.MoveRight` | src/hooks/useTetris.ts:110-134 | as for moving left, one column right |
| `UseTetris.Rotate` | src/hooks/useTetris.ts:136-154 | only the current piece's shape may change, to its clockwise rotation, and only when that fits at the same position; a colliding rotation is rejected with no offset retry |
| `UseTetris.NextPiece` | src/hooks/useTetris.ts:55 | the piece after a lock is the queued one, or a fresh draw when none is queued |
| `UseTetris.Lock` | src/hooks/useTetris.ts:41-79 | new board = clearLines(placePiece(board, piece)) with at most 4 lines; score adds the line score at the old level plus the bonus; lines add the count; level is recomputed; line or drop sound; game over, with pieces kept and playing stopped, exactly when the next piece does not fit; otherwise the next piece becomes current and a new one is queued |
| `UseTetris.MoveDown` | src/hooks/useTetris.ts:21-82 | inactive: unchanged; one row down when valid, silently; otherwise the landing sequence with no bonus |
| `UseTetris.DropDistance` | src/hooks/useTetris.ts:162-168 | every row from 1 to d below is valid and row d+1 is not: the lowest position reachable straight down |
| `UseTetris.LandedInFrame` | src/hooks/useTetris.ts:162-172 | the landing row of a drop of at least one row is a valid position, inside the side walls and above the floor, so the piece can be locked there |
| `UseTetris.HardDrop` | src/hooks/useTetris.ts:156-218 | inactive or zero distance: unchanged; otherwise the piece lands d rows down, at a valid position, and locks with a bonus of 2·d |
| `UseTetris.StartGame` | src/hooks/useTetris.ts:220-225 | whatever the previous state: empty board, zeros, two drawn pieces, playing, not paused, not over |
| `UseTetris.PauseGame` | src/hooks/useTetris.ts:227-232 | flips isPaused and changes nothing else, even when not playing |
| `UseTetris.PauseTwice` | src/hooks/useTetris.ts:227-232 | pausing twice restores the snapshot |
| `UseTetris.ResetGame` | src/hooks/useTetris.ts:234-236 | a fresh game that is not playing |
| `Invariants.InvEnables` | src/hooks/useTetris.ts:21-218 | the invariant meets every transition's precondition: board shape, non-empty shape with a filled cell, at most 4 rows, no full row, piece in frame |
| `Invariants.FreshGameInv` | src/utils/gameLogic.ts:90-102 | a fresh game, reset or started, satisfies the invariant, including a valid current piece when playing |
| `Invariants.LockPreservesInv` | src/hooks/useTetris.ts:41-79 | the landing sequence keeps the invariant and never lowers score or lines |
| `Invariants.StepPreservesInv` | src/hooks/useTetris.ts:21-236 | every command keeps the invariant: board shape and no full rows, level = lines/10, game over ⇒ not playing, valid current piece while playing; all but start and reset never lower score or lines |
| `Invariants.GameOverIsFinal` | src/hooks/useTetris.ts:23-25 | once the game is over, moves, rotation and drops leave the state unchanged and play no sound |

## Left out

- The animation-frame game loop (`src/hooks/useTetris.ts:239-261`) is left out. It is scheduling driven by wall-clock timestamps, not a rule. `CalculateDropTime` gives the interval it uses.
- The sound manager's Web Audio output is left out. Each `soundManager.play` call becomes a `Sound` value in the transition's `Step`.
- Keyboard and touch decoding, rendering, the theme and the stored high score are left out. They only call into or observe the engine.
- Random piece choice is not modelled. Every `getRandomTetromino()` call becomes an index parameter below 7.
- React state and callback mechanics are left out. Each callback body is a function from the previous state.
- Copy-on-spawn has no member of its own. Shapes are immutable values here, so changing a spawned piece can never change the table.
- Boards of other dimensions are not modelled. `IsValidMove`, `PlacePiece` and `ClearLines` require a 20-by-10 board, which is the only kind the source builds. For a shorter board the source would read rows that do not exist.
- GameLogic.PlacePiece: requires each filled cell that lands on row 0 or below to lie in columns 0..9 and above row 20 (`InFrame`). Cells above row 0 are unconstrained, because the source skips them without looking at their column. The source would fail on a row past the bottom and would write outside the JavaScript row for other columns. The game places only pieces that the validator accepted.
- GameLogic.CalculateScore: requires 0 to 4 lines, the extent of its table. The source would compute NaN beyond that.
- UseTetris.MoveDown: requires, when it locks, a board without full rows and a shape of at most 4 rows, so that at most 4 lines clear. The invariant provides both.
- UseTetris.HardDrop: requires a shape with a filled cell, because the source's probe loop never ends for an empty shape. It also requires, for a drop of at least one row, the same lock conditions as MoveDown.
- GameLogic.RotatePiece: requires a non-empty shape, because the source reads the width from the first row. A row shorter than the first reads as empty entries, like `undefined`.
- Colours follow the source's two tests: the validator treats a cell as occupied only when its colour is truthy (`Occupied`), while clearing counts any non-null colour (`Full`). Every colour in the table is non-empty, so the two agree in play.
- Score, lines and level are unbounded integers. The source's doubles are exact far beyond any reachable score.
