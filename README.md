# Arcade mini app: game engines and score ledger

This project models the logic of `src/App.jsx`, a Telegram mini app that hosts two
games and keeps a per-player record plus a shared leaderboard:

- **Snake** (`snake.dfy`, module `Snake`).
  - A 15×15 field and a body held head first.
  - The arrow-button steering rule.
  - Food placement that retries at most 100 times.
  - The one-tick move: crash, grow or slide.
  - The component (`class SnakeGame`) with its state hooks and the `gameEndedRef` ref.
- **Falling blocks** (`tetris.dfy`).
  - Module `Tetris` holds the pure parts:
    - the seven piece templates and the 20×10 board;
    - `checkCollision`;
    - the quarter-turn rotation;
    - locking: merge, clear full rows, pad to 20 rows, score and level;
    - the game state `State` and its invariant `Playable`.
  - Module `TetrisComponent` holds `class TetrisGame`.
    - Its fields are the hooks and refs.
    - `MergePiece`, `MoveDown` and `Rotate` are proved against `Merged`, `Dropped` and `Turned`; `MoveHorizontal` states the new position directly.
- **Score ledger** (`ledger.dfy`, module `Ledger`).
  - The stats update of `handleGameEnd`.
  - The leaderboard update of `updateLeaderboard`: upsert by `userId`, stable sort by score descending, keep 100.
  - `getUserRank`.
- **End-of-game hand-off** (`host.dfy`, module `Host`).
  - The `gameOver` / `gameEndedRef` flags that both components keep.
  - The effect that would call `onGameEnd`.
  - The flags as the code writes them, and as they were evidently meant to be written (see Findings).

Inputs from outside the program become parameters:

- `Math.random` is an oracle `rnd: nat -> Unit`.
  - A `Unit` is an exact fraction in [0, 1).
  - Food attempt `k` draws `rnd(2k)` for x and `rnd(2k+1)` for y.
- The random tetromino is the parameter `next` (or `first`).
- `Date.now()` is the parameter `now`.
- The leaderboard read from storage is the parameter `stored`. It is empty when the key is missing or the read fails.

React's batched `setX` calls within one handler are applied together at the end of the handler. This holds because every value the source reads after a setter is a closure value, not the new state.

Where the code departs from what it evidently intends, the model follows the code:

- Food can lie in the snake's body. The model proves that new food avoids only the body as it was before the move, so it can land on the new head (`FoodCanLandOnNewHead`). The 100-attempt cap can also end on the body.
- A finished game is never recorded (Findings, row 1).
- The initial food is `(15, 15)`, off the field (Findings, row 2).
- "At most one entry per player" on the leaderboard holds only if the stored list already has it (`UpdatedFrom`).

## Model

| member | source | states |
|---|---|---|
| Snake.StepBack | src/App.jsx:55-60 | a head step in the opposite direction undoes a step, and no step stays in place |
| Snake.AcceptTurn | src/App.jsx:165-189 | a requested direction replaces the buffered one exactly when it is not the reverse of the applied direction; a buffer that is not a reversal stays not a reversal |
| Snake.Scale | src/App.jsx:35-36 | floor(random × 15) is a coordinate in 0..14 for every random value in [0, 1) |
| Snake.Sample | src/App.jsx:34-37 | every drawn cell is on the field |
| Snake.Attempts | src/App.jsx:33-42 | the number of draws is between 1 and 100; every draw but the last hit the body, and the last misses it unless it was the 100th |
| Snake.FoodFor | src/App.jsx:30-44 | the chosen food is on the field, and off the body whenever fewer than 100 draws were needed |
| Snake.GenerateFood | src/App.jsx:30-44 | the do-while loop returns FoodFor: on the field, off the body unless all 100 draws hit it |
| Snake.FoodCanLandOnNewHead | src/App.jsx:81-85 | for a concrete random source, the new food is the cell the head just moved into, because only the pre-move body is excluded |
| Snake.MovedBodyValid | src/App.jsx:81-90 | prepending a fresh in-field head, with or without dropping the tail, keeps the body on the field and free of repeats |
| Snake.MoveSnake | src/App.jsx:49-92 | a crash (head off the field or on any segment, tail included) returns everything unchanged; otherwise the head is prepended, length is +1 and score +50 iff the head is on the food, else the tail is dropped; an in-field, repeat-free body stays so |
| Snake.FirstFood | src/App.jsx:30-44 | the corrected first food: drawn like every later one, on the field and off the starting cell unless all draws hit it |
| Snake.InitialFoodUnreachable | src/App.jsx:22 | no non-crashing move reaches the initial food (15, 15) |
| Snake.SnakeGame.constructor | src/App.jsx:21-28 | the mounted state: body [(10, 10)], food (15, 15), heading right, score 0, not over, and the invariant holds |
| Snake.SnakeGame.Start | src/App.jsx:21-28 | the corrected mount: same state but food drawn on the field, off the snake unless all draws hit it |
| Snake.SnakeGame.Restart | src/App.jsx:107-116 | handleRestart puts back the mounted state |
| Snake.SnakeGame.Turn | src/App.jsx:165-189 | an arrow button updates the buffered direction by AcceptTurn, so the buffer is never the reverse of the applied direction |
| Snake.SnakeGame.Tick | src/App.jsx:46-96 | a finished game does not move; otherwise the buffered direction is applied and the body, score and food change as MoveSnake says, a crash setting gameOver and the ref; the invariant (on field, no repeats, score = 50 × (length − 1), buffer not a reversal) is kept |
| Snake.SnakeGame.EndEffect | src/App.jsx:98-105 | the end-of-game effect reports nothing in any reachable state |
| Tetris.EmptyBoard | src/App.jsx:232 | the initial board is 20 rows of 10 cells with no full row |
| Tetris.Template | src/App.jsx:211-219 | each of the seven templates is a rectangle of at most 2 rows and 4 columns |
| Tetris.TemplateShape | src/App.jsx:211-219 | every template has exactly four cells |
| Tetris.CheckCollision | src/App.jsx:250-263 | true iff some occupied shape cell lands at row ≥ 20, column < 0 or ≥ 10, or on a block at row ≥ 0; rows above the top never collide |
| Tetris.SpawnFitsEmptyBoard | src/App.jsx:305-307 | every template fits at (4, 0) on the empty board |
| Tetris.Rotated | src/App.jsx:353-355 | the turned shape has swapped dimensions and rotated[i][j] = piece[h−1−j][i] |
| Tetris.RotatedN | src/App.jsx:353-355 | n turns keep a rectangle, with dimensions swapped for odd n |
| Tetris.HalfTurn | src/App.jsx:353-355 | two turns flip the shape upside down and mirror it |
| Tetris.FourTurns | src/App.jsx:353-355 | four turns give back the shape |
| Tetris.NextTurn | src/App.jsx:350-360 | one more turn of the t-th turn is turn t+1 counted modulo 4 |
| Tetris.Place | src/App.jsx:268-275 | the merged board is again 20 × 10 |
| Tetris.PlaceKeepsBlocks | src/App.jsx:268-275 | a non-colliding piece lies inside the board below the top and over empty cells; merging sets exactly the covered cells to the piece's kind and keeps every other cell |
| Tetris.Merge | src/App.jsx:268-275 | the copy-and-write loops produce Place |
| Tetris.CountFull | src/App.jsx:277-284 | at most as many full rows as rows |
| Tetris.KeepRows | src/App.jsx:277-284 | the kept rows are rows of the board, their number is the rows minus the full ones, and none is full |
| Tetris.KeptRow | src/App.jsx:277-284 | every row that is not full is kept, at its index less the number of full rows above it; with the count this fixes the kept rows exactly, in order |
| Tetris.CountFullAppend | src/App.jsx:277-284 | the full rows of two stacked boards are those of each |
| Tetris.ClearedRow | src/App.jsx:277-288 | after clearing, a row that is not full sits unchanged, lower by the number of full rows below it |
| Tetris.ClearRows | src/App.jsx:277-288 | linesCleared is the number of full rows, and the result is that many empty rows on top of the kept rows: 20 × 10 with no full row |
| Tetris.LinesPerLock | src/App.jsx:268-284 | one lock into a board without full rows fills at most as many rows as the piece has |
| Tetris.LinePoints | src/App.jsx:291 | 0 rows earn 0, and n > 0 rows earn at least 100 n before the level factor |
| Tetris.LinePointsIncrease | src/App.jsx:291 | clearing more rows at once earns strictly more |
| Tetris.DropInterval | src/App.jsx:325 | the interval is between 100 and 800 ms for every level ≥ 1 |
| Tetris.DropIntervalMonotone | src/App.jsx:325 | a higher level never falls more slowly |
| Tetris.NextLevel | src/App.jsx:292-298 | the level rises by one exactly when rows were cleared and the new total reaches ten per current level, and otherwise stays |
| Tetris.LevelTracksLines | src/App.jsx:293-297 | since at most 4 rows clear per lock, the level stays (lines / 10) + 1 and rises by at most one |
| Tetris.Locking | src/App.jsx:265-302 | after a lock the board is 20 × 10 with no full row, lines grow by at most the piece height, and score does not drop |
| Tetris.ClearedBoard | src/App.jsx:277-288 | removing the full rows and padding gives a board without full rows |
| Tetris.LockingKeepsLevel | src/App.jsx:290-299 | a lock keeps level = lines / 10 + 1 |
| Tetris.Lock | src/App.jsx:268-302 | merge, clear, then score by the pre-lock level and bump the level when lines reach level × 10: exactly Locking |
| Tetris.Initial | src/App.jsx:232-243 | the start state: empty board, the first piece's template at (4, 0), score and lines 0, level 1 |
| Tetris.InitialPlayable | src/App.jsx:362-367 | the start state satisfies the invariant |
| Tetris.Merged | src/App.jsx:265-318 | locking gives a board without full rows; the game ends iff the next template collides at (4, 0); otherwise that template spawns there, and on game over the old piece stays |
| Tetris.MergeStep | src/App.jsx:302-317 | the fields mergePiece writes are Merged and satisfy the invariant |
| Tetris.MergedPlayable | src/App.jsx:265-318 | mergePiece keeps the invariant |
| Tetris.Dropped | src/App.jsx:330-337 | if the row below is free the piece moves there and nothing else changes; otherwise the piece locks as Merged says |
| Tetris.DroppedPlayable | src/App.jsx:330-337 | a gravity step keeps the invariant |
| Tetris.Turned | src/App.jsx:350-360 | the piece becomes its quarter turn |
| Tetris.TurnedPlayable | src/App.jsx:350-360 | a committed rotation keeps the piece equal to its template turned by the counted turns, so the invariant holds |
| TetrisComponent.TetrisGame.constructor | src/App.jsx:232-243 | the mounted state is Initial and satisfies the invariant |
| TetrisComponent.TetrisGame.Restart | src/App.jsx:388-400 | handleRestart gives Initial with the clock reset to now |
| TetrisComponent.TetrisGame.SetBoard | src/App.jsx:290-302 | setScore, setLines, setLevel and setBoard write exactly those four fields |
| TetrisComponent.TetrisGame.SetPiece | src/App.jsx:315-317 | setCurrentPiece, setCurrentType and setCurrentPos write exactly the piece, its kind and position (and the ghost turn count) |
| TetrisComponent.TetrisGame.MergePiece | src/App.jsx:265-318 | a game that has ended is left unchanged; otherwise the new state is Merged, the invariant holds and the clock is untouched |
| TetrisComponent.TetrisGame.MoveDown | src/App.jsx:320-339 | nothing changes when the game is over or the level's interval has not passed; otherwise the clock becomes now and the state is Dropped |
| TetrisComponent.TetrisGame.Fall | src/App.jsx:333-338 | the piece falls one row into a free position, or locks through MergePiece when that row collides; the new state is Dropped, the invariant holds and the clock is untouched |
| TetrisComponent.TetrisGame.MoveHorizontal | src/App.jsx:341-348 | the piece moves by dx columns iff that does not collide; over games do not move |
| TetrisComponent.TetrisGame.Rotate | src/App.jsx:350-360 | the piece turns iff the turned shape does not collide where it is (no wall kick); over games do not turn |
| TetrisComponent.TetrisGame.EndEffect | src/App.jsx:379-386 | the end-of-game effect reports nothing in any reachable state |
| Host.Lose | src/App.jsx:63-66 | a loss sets the ref together with gameOver unless the ref was already set |
| Host.EndEffect | src/App.jsx:98-105 | the effect reports the score iff gameOver is set and the ref is not, and then sets the ref |
| Host.NeverReported | src/App.jsx:98-105 | as written, from any state with gameOver = ref, no run of losses, effects and restarts reports anything |
| Host.LossNotReported | src/App.jsx:63-66 | as written, a lost game followed by its effect reports nothing |
| Host.FixedLose | src/App.jsx:63-66 | the corrected loss sets gameOver and leaves the ref alone |
| Host.FixedLossReported | src/App.jsx:98-105 | corrected, the effect after a loss not yet reported reports its score |
| Host.FixedLossReportedOnce | src/App.jsx:98-105 | corrected, a lost game followed by two effect runs is reported exactly once |
| Host.FixedReportsOncePerGame | src/App.jsx:98-116 | corrected, a run reports at most one result per game: one for the game in progress plus one per restart |
| Ledger.Recorded | src/App.jsx:601-617 | totalScore grows by the score and gamesPlayed by one; for 'snake' or 'tetris' that game's count grows by one and its high score becomes the max of old and new; any other type changes only the two totals |
| Ledger.UpdateStats | src/App.jsx:601-617 | the field-by-field update of the copied stats is Recorded |
| Ledger.PlayedTotals | src/App.jsx:601-617 | over any run of games the total is the sum of scores, the counts add up, and each tracked high score is the maximum of its old value and that game type's scores |
| Ledger.IndexOf | src/App.jsx:583 | findIndex returns the first position with the id, or −1 iff there is none |
| Ledger.Rank | src/App.jsx:627-630 | the rank is the 1-based position of the player's first entry, and none iff the player has no entry |
| Ledger.RankOfUnique | src/App.jsx:627-630 | on a board with one entry per player, the rank of the player at position k is k + 1 |
| Ledger.Upserted | src/App.jsx:583-589 | the list holds the new entry; if the player was present, the first entry with their id (the one findIndex finds) becomes the new entry and the length is unchanged, otherwise it is appended; every other entry keeps its place; nothing else is added |
| Ledger.UpsertedUnique | src/App.jsx:583-589 | the upsert keeps one entry per player, and the player's only entry is the new one |
| Ledger.InsertDescending | src/App.jsx:591 | insertion into a descending list keeps it descending |
| Ledger.InsertUnique | src/App.jsx:591 | inserting an absent player's entry keeps one entry per player |
| Ledger.SortedByScore | src/App.jsx:591 | the sort gives a non-increasing permutation, with one entry per player if the input had it |
| Ledger.SortStable | src/App.jsx:591 | the sort is stable: the entries with any one score keep their order |
| Ledger.TopOrdered | src/App.jsx:592 | slice(0, m) of a descending list is descending, drawn from it, one per player if it was |
| Ledger.TopKeepsBest | src/App.jsx:592 | no entry cut by the slice scores more than one kept |
| Ledger.TopMissing | src/App.jsx:592 | an entry cut by the slice means the slice is shorter than the list and all kept entries score at least as much |
| Ledger.UpdateLeaderboard | src/App.jsx:571-599 | the result is descending, has min(100, n) entries from the upserted list (all of them when there is room), drops none better than one kept, adds no duplicate; the player's rank finds their new entry, or is none only when 100 entries all score at least as much; and it is exactly the first min(100, n) entries of the stable sort, so equal scores keep their stored order |
| Ledger.TieRanksAfterStored | src/App.jsx:591-592 | by the stable sort, a new player tying the one stored entry is placed after it and ranks second |
| Ledger.UpdateMeetsSpec | src/App.jsx:583-592 | sorting the upserted list and keeping its first 100 meets that description |
| Ledger.RankAfterUpdate | src/App.jsx:583-592 | on the best entries of the upserted list, the player's rank is as that description says |
| Ledger.HandleGameEnd | src/App.jsx:601-621 | handleGameEnd records the game in the stats and puts the new totalScore (not the game score) on the leaderboard as UpdateLeaderboard describes, the first min(100, n) of the stable sort |
| Ledger.OnlyEntry | src/App.jsx:591-592 | sorting and slicing a one-entry list keeps exactly that entry |
| Ledger.FirstGameOnEmptyStore | src/App.jsx:601-621 | a first snake game of score s on an empty store gives stats (s, 1, 1, 0, s, 0) and the leaderboard [(id, name, s)] |

## Left out

- `server.js` and `bot.js`: an HTTP static-file server and a bot launcher, with no game or ledger logic. They are not part of this model.
- Telegram WebApp start-up (`initTelegramUser`) and the app's load of user data and leaderboard: foreign browser API and storage I/O.
- `window.storage` reads and writes, JSON encoding, the try/catch blocks and `async` ordering of `saveUserData` and `updateLeaderboard`: persistence I/O.
  - The stored leaderboard is a parameter.
  - The outcome of a failed write (`setLeaderboard` not reached) is not modelled.
- The interval timers (150 ms snake tick, 50 ms block poll, the 100 ms `setTimeout` before `onGameEnd`) and all rendering: timer and UI plumbing. Each handler is a method that the caller invokes.
- Math.random and Date.now: modelled as parameters (see above), not computed.
  - Math.random's double is an exact fraction, so rounding is not modelled.
  - `getRandomPiece`'s choice among the seven types is the parameter itself.
- TetrisComponent.TetrisGame.constructor: the source mounts with `currentPiece = null` and sets the first piece in a mount effect; handlers ignore a null piece. The model starts after that effect.
- Snake.SnakeGame.Tick: React may invoke the `setSnake` updater (which also calls `setScore` and `setFood`) more than once in development mode; the model applies it once.
- Tetris.NextLevel: the `setLines` updater in mergePiece calls `setLevel`, so a second development-mode invocation would raise the level twice; the model applies it once.
- Ledger.UpdateLeaderboard: the comparator `b.score - a.score` is modelled on unbounded integers. Floating-point subtraction of huge scores is not modelled.
- Integers are unbounded throughout. Scores and coordinates stay far below JavaScript's exact-integer range.
- `getUserRank` when no user is signed in (`user?.id` undefined): the app shows an error screen instead. The model takes the id as a parameter.

## Findings

| source | as written | input that shows it | evidently intended | confidence | as-written member | corrected member |
|---|---|---|---|---|---|---|
| src/App.jsx:63-66, 98-105 (and 307-311, 379-386) | every loss sets `gameEndedRef` together with `gameOver`, and the end-of-game effect runs only when `gameOver` is set and the ref is not, so `onGameEnd` is never called and no game is ever recorded | any game: crash the snake into a wall, then let the effect run | the loss sets `gameOver` only; the effect sets the ref and reports the score once per game | high, not executed | Host.NeverReported | Host.FixedReportsOncePerGame |
| src/App.jsx:22, 109 | the snake starts and restarts with food at (15, 15), outside the 0..14 field, and food changes only when eaten, so the snake can never eat or score | any game from the mounted or restarted state | the first food is drawn on the field the way later food is | high, not executed | Snake.InitialFoodUnreachable | Snake.SnakeGame.Start |
