# Falling blocks and snake: a verified model of the two browser games

This project models the game logic of two small browser games in Dafny and
proves properties of it.

- `tetris.js` is a falling-block game: a 20 by 10 board, seven piece types,
  turning with a wall-kick search, soft and hard drops, row removal, levels and
  scores.
- `snake.js` is a snake on a square grid that grows when it eats food.

Canvas drawing and the page elements are not modelled. The model covers the
state that the handlers and the frame loops update, and the rules they follow.

## Layout

- `tetris_board.dfy` (module `TetrisBoard`)
  - The board is a sequence of rows of cell tags: 0 is empty, 1..7 is a
    settled piece of that type.
  - The collision scan (`collide`), the merge of a piece (`merge`), the row
    scan that removes full rows, and the scoring of `clearLines`.
  - The in-place loops are methods. Each is proved equal to a function that
    states the result: `Merged`, `Cleared`, `FullCount`, `AfterClear`.
- `tetris_pieces.dfy` (module `TetrisPieces`)
  - The seven templates and the spawn position.
  - The in-place quarter turn `rotate`, proved equal to `Rotated`
    (a transpose followed by a reversal).
  - The offsets 1, -2, 3, -4, ... of the wall-kick search.
- `tetris_game.dfy` (module `TetrisGame`)
  - The controller is a class `Tetris` whose fields are the script's
    variables: the board, the current and next pieces, the ghost, score,
    level, lines, drop interval, drop counter and the two flags.
  - The script's template array is the field `shapes`. Every live piece holds
    its type's template by reference, so turning a piece rewrites the shared
    entry. The model therefore keeps the table and gives a piece only its type
    and position.
  - The ghost piece copies its matrix, so it is a value.
  - The player actions, the lock (merge, hand-over to the next piece, row
    removal), the frame update and the keyboard and button handlers are
    methods. Their contracts give the new state in terms of the old one.
  - The value `Snapshot` holds every field but the started flag. The step
    predicates (`MoveStep`, `Turned`, `DropStep`, `HardDropped`,
    `LockedAfter`, `ActionStep`) state the whole new state of an action as an
    update of the snapshot before it, so the handlers, which raise the flag
    first, state the full effect of the action they perform.
  - The drop counter and the elapsed time are real numbers of milliseconds:
    the frame time stamps of the script are fractional.
- `snake.dfy` (module `SnakeGame`)
  - The direction guard `Steer`, and a class `Snake` with the segments,
    velocity, food, score and flags.
  - The frame `gameLoop`, the key handler and the buttons.

## Behaviour of the code that the model keeps

Where the code and its evident design differ, the model follows the code.

**Board edges and spawning (tetris.js)**
- A part in a row above the top collides, like one beside a wall or below the
  floor. The board lookup yields `undefined` for row -1.
- A new piece always starts at column 3 (`boardWidth / 2 - 2`) and row 0,
  whatever the width of its matrix.

**Scoring and the lock (tetris.js)**
- Removed rows are scored with the level as raised by that same removal.
- The lock calls `resetPiece` before `clearLines`. The new piece and its ghost
  are therefore judged against the board before the full rows are removed.
  - The game-over test can fire on rows that are about to disappear.
  - The ghost can be stale after a removal.
  - The new piece can overlap settled cells once the rows above have moved
    down.
- A hard drop of a piece that already overlaps settled cells locks it one row
  higher. That row can stick out above the top. `merge` then fails on its
  board lookup, and whatever follows it in that handler does not run.
  - The model returns this as `fault`, and proves that the failing lookup
    comes before any write (`OffRowsAreAboveTop`).

**Turning, input and reset (tetris.js)**
- The wall-kick search compares only the positive offsets with the matrix
  width. It tests the shifts 0, +1 (2 wide) or 0, +1, -1, +2 (3 and 4 wide),
  as `TetrisPieces.KickShiftsBySize` shows.
- A turn rewrites the shared template, so it also turns the next piece when
  that piece is of the same type.
- Of the keys, only the arrows and the space bar start a game.
- A reset keeps the turned templates and the drop counter.

**Snake (snake.js)**
- The key handler steers even when the game is not running.
- The direction guard looks only at the current velocity. Two presses within
  one frame can therefore reverse the snake (`SnakeGame.TwoPressesReverse`).
- The frame loop stops for good at game over, and a reset does not restart
  it. The model keeps this as the field `looping`.

## Model

| member | source | states |
|---|---|---|
| TetrisBoard.EmptyBoard | tetris.js:97-99 | a board of 20 rows of 10 cells, every cell empty |
| TetrisBoard.Collide | tetris.js:119-134 | the scan answers true exactly when some part of the matrix lands on a row or column off the board or on a settled cell |
| TetrisBoard.FreeIsOnBoard | tetris.js:119-134 | a piece that does not collide lies within the board's rows and columns |
| TetrisBoard.OffRowsAreAboveTop | tetris.js:137-145 | for a piece above the floor, a part outside the rows sticks out above the top, in a matrix row before every part on the board, so the merge fails before it writes |
| TetrisBoard.Merge | tetris.js:137-145 | writing the parts cell by cell gives `Merged`: each part's tag at its cell, every other cell as before |
| TetrisBoard.MergedOccupancy | tetris.js:137-145 | merging a free piece occupies exactly the old occupied cells plus the piece's cells and overwrites no settled cell |
| TetrisBoard.MergedInRange | tetris.js:137-145 | merging keeps every cell an empty or piece tag |
| TetrisBoard.RowFull | tetris.js:273-277 | the cell scan of a row answers true exactly when no cell is empty |
| TetrisBoard.ClearFullRows | tetris.js:270-285 | the bottom-up scan that re-examines a row after a removal gives `Cleared` (empty rows on top of the non-full rows in order) and counts the full rows |
| TetrisBoard.KeptRows | tetris.js:270-285 | the kept rows are rows of the input, none full, and kept plus removed rows are all the rows |
| TetrisBoard.ClearedIsBoard | tetris.js:270-285 | after a removal the board keeps its shape and tags and has no full row, including runs of adjacent full rows |
| TetrisBoard.AfterClear | tetris.js:287-304 | k removed rows add k lines; no removal changes nothing; the level only rises; the interval changes only with the level |
| TetrisBoard.AfterClearConsistent | tetris.js:287-304 | after a removal the level is lines / 10 + 1 and the interval is that of the level and positive |
| TetrisBoard.AfterClearScore | tetris.js:292-302 | each removed row is worth 100 times the raised level, so the score never falls |
| TetrisBoard.IntervalMonotone | tetris.js:298 | the interval never grows with the level and never drops below 100 ms |
| TetrisBoard.ScoringExamples | tetris.js:287-304 | one row from a fresh game gives 100, four rows 400, the tenth row gives level 2, 900 ms and 200 points |
| TetrisPieces.Template | tetris.js:50-94 | every template is square, 2 to 4 wide, tagged with its type and has a part; I is 4 wide, O 2, the others 3 |
| TetrisPieces.SpawnOnBoard | tetris.js:102-109 | at column 3, row 0, any fit shape lies on the board and is free on an empty board |
| TetrisPieces.Rotate | tetris.js:148-168 | the in-place transpose by swaps, then the row or rows reversal, gives `Rotated` |
| TetrisPieces.RotatedCells | tetris.js:148-168 | the turn is a quarter turn: clockwise for dir > 0, counter-clockwise otherwise |
| TetrisPieces.RotateBack | tetris.js:183 | turning back in the other direction restores the matrix |
| TetrisPieces.HalfTurn | tetris.js:148-168 | two turns in one direction are a half turn |
| TetrisPieces.FourTurns | tetris.js:148-168 | four turns in one direction restore the matrix |
| TetrisPieces.RotatedWellShaped | tetris.js:148-168 | a turn keeps a shape square, of the same size and tags, with a part |
| TetrisPieces.KickStep | tetris.js:180-181 | each kick adds the offset and negates it grown by one, so the shifts run 0, +1, -1, +2, ... |
| TetrisPieces.KickAbort | tetris.js:182 | the next offset exceeds the width n exactly after KickLimit(n) shifts |
| TetrisPieces.KickShiftsBySize | tetris.js:176-187 | the shifts tested are 0, +1 for a 2 wide matrix and 0, +1, -1, +2 for 3 and 4 wide ones |
| TetrisGame.Spawn | tetris.js:102-109 | a new piece has the requested type and starts in column boardWidth / 2 - 2 = 3, row 0, which leaves room for a 4 wide matrix |
| TetrisGame.LandingUnique | tetris.js:223-226 | a drop has one resting row |
| TetrisGame.LandingFromLower | tetris.js:208 | a piece moved down one free row still comes to rest on the same row |
| TetrisGame.Fall | tetris.js:223-226 | moving down while free and back up one row ends on the resting row, or one row above a start that collides; a piece above the floor stays above |
| TetrisGame.KickSearch | tetris.js:175-187 | the search finds the first free shift among those it may test, or reports that all of them collide |
| TetrisGame.TurnAndKick | tetris.js:174-187 | a turn is kept at the first free shift, or undone with the column restored when every tested shift collides |
| TetrisGame.Tetris.constructor | tetris.js:21-35 | the initial figures followed by `resetGame`: untouched templates, empty board, score 0, level 1, 1000 ms |
| TetrisGame.Tetris.ResetGame | tetris.js:381-399 | empty board, initial figures, flags down, a fresh current and next pair with its ghost; templates and drop counter kept |
| TetrisGame.Tetris.ResetPiece | tetris.js:252-267 | the next piece, or a first draw, becomes current at the spawn and a new next is drawn; over exactly when the new piece collides, otherwise a fresh ghost |
| TetrisGame.Tetris.UpdateGhost | tetris.js:235-249 | the ghost is a copy of the current piece at its resting row |
| TetrisGame.Tetris.PlayerMove | tetris.js:193-202 | a running game moves the piece one column when it is free there, with a fresh ghost and nothing else changed; otherwise the whole state is left as it was |
| TetrisGame.Tetris.PlayerRotate | tetris.js:171-190 | in a running game an accepted turn rewrites the type's template and moves the piece to the first free shift, after every earlier shift collided, with a fresh ghost; a rejected one leaves the whole state as it was, every tested shift colliding; a game not running is left as it was |
| TetrisGame.Tetris.Accept | tetris.js:176-189 | a free shift found by the search is below its limit and after colliding shifts only, and the turn is put in place there |
| TetrisGame.Tetris.Install | tetris.js:176-189 | the new state is the old one with the turned matrix in the type's table entry, the found column in the piece and a fresh ghost, nothing else changed |
| TetrisGame.Tetris.Lock | tetris.js:209-214 | a piece on the board is merged and settled; a part above the top is a fault that changes nothing |
| TetrisGame.Tetris.Settle | tetris.js:212-213 | `resetPiece` judged on the merged board, then the full rows removed and scored |
| TetrisGame.Tetris.ClearLines | tetris.js:270-305 | the board becomes `Cleared` and the figures `AfterClear` with the number of full rows |
| TetrisGame.Tetris.PlayerDrop | tetris.js:205-217 | in a running game the piece falls a row when it can, nothing else changing but the counter, else it locks; the drop counter is reset unless the lock faulted; the ghost stays fresh after a fall |
| TetrisGame.Tetris.StepDown | tetris.js:208-216 | a fall moves the piece one row down and resets the counter, nothing else changed, and keeps a fresh ghost fresh |
| TetrisGame.Tetris.LockAndRestart | tetris.js:209-216 | the lock of a drop, then the counter reset to 0 unless the lock faulted |
| TetrisGame.Tetris.PlayerHardDrop | tetris.js:220-232 | the piece locks at its resting row, which is where a fresh ghost shows, or one row above a start that collides |
| TetrisGame.Tetris.OnTick | tetris.js:402-421 | a running game adds the elapsed milliseconds, fractions included, to the counter and soft-drops exactly when the counter is then strictly above the interval; otherwise only the counter changes; a game not running is left as it was |
| TetrisGame.Tetris.Perform | tetris.js:435-451 | each action takes its full step: a move, a soft drop, a right turn or a hard drop stated over the whole state, with the started flag kept |
| TetrisGame.Tetris.HandleKey | tetris.js:424-452 | nothing once over or for another key; an arrow or the space bar starts the game and then takes the full step of its action (left, right, soft drop, right turn, hard drop) |
| TetrisGame.Tetris.HandleButton | tetris.js:455-497 | Start only raises the started flag of a game not over and leaves every other field as it was; Reset starts a new session; every other button starts such a game and then takes the full step of its action; the reset keeps the shape table and the drop counter |
| SnakeGame.Steer | snake.js:195-220 | the velocity takes the direction unless that is the exact reverse of the current motion |
| SnakeGame.SteerKeepsUnit | snake.js:195-220 | steering keeps the velocity still or one cell along an axis |
| SnakeGame.SteerNeverReverses | snake.js:194-220 | one press never turns a moving snake straight back |
| SnakeGame.TwoPressesReverse | snake.js:195-220 | moving right, Up then Left in one frame leaves the snake moving left |
| SnakeGame.Snake.constructor | snake.js:12-28 | the initial state after `resetGame`, with the frame loop running |
| SnakeGame.Snake.GenerateFood | snake.js:108-128 | the food lands on a grid cell that no segment covers |
| SnakeGame.Snake.ResetGame | snake.js:175-186 | flags down, score 0, the snake at (10, 10) standing still, food off it |
| SnakeGame.Snake.UpdateSnake | snake.js:69-84 | the head moves by the velocity; on the food the snake grows by one and scores, otherwise it keeps its length and food |
| SnakeGame.Snake.CheckCollision | snake.js:141-155 | true exactly when the head is off the grid or on another segment |
| SnakeGame.Snake.CheckFoodCollision | snake.js:131-138 | a head on the food scores a point and moves the food off the snake |
| SnakeGame.Snake.HeadOffFood | snake.js:53 | between frames the head is never on the food, so the second food test never fires |
| SnakeGame.Snake.Tick | snake.js:31-60 | a stopped loop does nothing and stays stopped; a game that is over stops it; a waiting game keeps it running; a running frame puts the new head in front, keeps the tail only on the food, scores exactly then, keeps the food otherwise, and ends the game and the loop exactly on a collision |
| SnakeGame.Snake.KeyPress | snake.js:189-221 | an arrow starts a game that is neither running nor over, and every arrow steers |
| SnakeGame.Snake.Turn | snake.js:196-219 | the guarded update of the velocity fields is `Steer` and keeps a velocity the game can have |
| SnakeGame.Snake.Press | snake.js:224-271 | Start only starts, Reset starts a new session, each arrow button steers and then starts; no button but Reset moves the snake, the food or the score |

## Left out

**Both games**
- Drawing, canvas sizes, colours and the text of the score, level and lines
  elements are output only and are not modelled.
- `requestAnimationFrame` and `setTimeout` scheduling are not modelled. One
  frame is one call of `OnTick` or `Tick`.
- `Math.random` draws are parameters (`first`, `second`, `draw`), or a choice
  among free cells for the snake's food.

**tetris.js**
- `lastTime` and the time stamps of the frame update: the elapsed time is the
  parameter `delta`, a real number of milliseconds.
- `ghostPiece` is declared with `let` after the first `resetGame` call
  (tetris.js:500-503). In a browser, assigning it before that declaration
  throws. The model treats it as an ordinary variable declared with the
  others, which is what the layout of the script evidently intends.
- A `merge` whose board lookup fails throws and ends the running handler or
  frame. The model returns `fault` and skips the rest of that handler. It does
  not model the loss of the frame loop on such a throw.
- The `ghost` flag and the colour of a piece are used only for drawing.
- TetrisBoard.Merge: requires the piece on the board. A row off the board is
  the fault that Lock handles before merging. Columns are always on the board,
  by the invariant `Valid`.
- TetrisGame.Tetris.PlayerRotate: the direction is 1 or -1. The handlers only
  ever pass 1.

**snake.js**
- The grid side `tileCount` is a parameter. The script computes it as the
  canvas width over 20.
- generateFood's retry loop, a random draw until a free cell, is replaced by a
  choice of a free cell. SnakeGame.Snake.GenerateFood and SnakeGame.Snake.Tick
  require a free cell to exist when food is eaten, because the script never
  ends otherwise.
- The first food is drawn at snake.js:27-28 and replaced by `resetGame` at
  snake.js:274. Its value is not modelled.
