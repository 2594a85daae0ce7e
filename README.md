# Snake game engine, modelled in Dafny

This project models the snake game engine of `logic.js`. The engine does not depend on any framework. A game state is a record of the grid size (`rows`, `cols`), the snake (a list of cells from tail to head), the current `direction`, the queued `nextDirection`, the `food` cell, the `score` and the `status` (running, paused or over). The engine offers these operations on it:

- `createGameState` seeds a three-cell snake centred on the grid, facing right, and places food.
- `queueDirection` records one pending turn. It ignores unknown labels, input while the game is not running, and direct reversals.
- `togglePause` swaps running and paused. An ended game stays as it is.
- `nextState` is one tick. It checks for a wall collision, then for a collision with the whole body before the move (the tail cell included). Then it moves or eats, and commits the direction.
- `placeFood` turns a random draw into an index k and picks the k-th free cell in row-major order. It computes `emptyCount` as rows * cols minus the number of distinct snake cells; if that is 0, it ends the game. With the snake inside the grid this means no cell is free (`GridFull`). A snake that sticks out of the grid can make `emptyCount` 0 while cells are still free (`NarrowGridOver`).
- `restartState` and `coordsEqual` are small helpers.

Files:

- `row_major.dfy` (module `RowMajor`): cells and the row-major list of the grid's free cells, with its counting lemmas.
- `snake_logic.dfy` (module `SnakeLogic`): the state record and every operation. The two operations the engine writes imperatively are methods, and each is proved equal to a specification function:
  - `PlaceFood` scans the grid with nested loops that count down a target index. It is proved equal to `Placed`.
  - `NextState` builds the new body and then trims it. It is proved equal to `Tick`.
- `snake_invariants.dfy` (module `SnakeInvariants`): the invariant of a game, proofs that every operation preserves it, and the theorem that every reachable state satisfies it.
- `snake_scenarios.dfy` (module `SnakeScenarios`): the scenarios of `tests/snakeLogic.test.mjs`, stated as lemmas.

Outside input is handled as follows:

- The random source is passed in as an explicit `Draw`: a real number `r` with `0 <= r < 1`. The target index is `Floor(r * emptyCount)`, taken over the exact real product.
- Cells are integer pairs. The string keys `"r,c"` that the source uses for its sets become sets of pairs.
- Direction labels are strings, looked up among the four names.

Two behaviours of the code worth knowing:

- When a tick brings `emptyCount` to 0 (for a snake inside the grid: fills the grid), the code keeps the old food value (the cell just eaten) and sets the status to over. `Tick` and `Placed` do the same.
- The code accepts any grid size. The invariant needs only `rows >= 1` and `cols >= 3` (`CreateValid`).

## Model

| member | source | states |
|---|---|---|
| `SnakeLogic.ParseDirection` | logic.js:2-7 | a label names a direction exactly when it is that direction's name; any other label is rejected |
| `SnakeLogic.OppositeUndoesStep` | logic.js:2-14 | each direction's opposite differs from it and is its inverse; a step followed by a step in the opposite direction returns to the start, and no other direction does |
| `SnakeLogic.CoordsEqual` | logic.js:122-124 | true exactly when the two cells are equal |
| `SnakeLogic.TargetIndex` | logic.js:104 | for n > 0 the drawn index lies in [0, n); for n = 1 every draw gives 0 |
| `SnakeLogic.Placed` | logic.js:96-116 | with emptyCount 0 only the status changes, to over; otherwise only the food changes, and it is always present |
| `SnakeLogic.PlaceFood` | logic.js:96-116 | the nested row/column scan that counts down the target index returns exactly the row-major specification `Placed`, including the full-grid case and the fallback |
| `SnakeLogic.CreateGameState` | logic.js:16-37 | same grid; snake `[(mr,mc-1),(mr,mc),(mr,mc+1)]` with mr = rows/2 and mc = cols/2; direction and queued direction right; score 0; over exactly when rows * cols == 3, where emptyCount is 0, and running otherwise; food present when running |
| `SnakeLogic.RestartState` | logic.js:118-120 | a fresh game on the same rows and cols: three-cell snake, score 0, nothing else of the old state kept |
| `SnakeLogic.QueueDirection` | logic.js:39-45 | only nextDirection can change; an unknown label, a status other than running, or the opposite of the current direction leaves the state unchanged; otherwise nextDirection becomes the requested direction |
| `SnakeLogic.QueueLastWins` | logic.js:44 | of two turns queued before a tick, an accepted second one overwrites the first |
| `SnakeLogic.TogglePause` | logic.js:47-51 | over is a fixed point; running becomes paused and paused becomes running, with every other field untouched |
| `SnakeLogic.Tick` | logic.js:53-94 | not running: unchanged; wall or self collision (any current cell, tail included): only status becomes over; plain move: snake `old[1..] + [head]`, same length, score and food kept, direction and nextDirection both the effective direction; eating: snake `old + [head]`, one longer, score + 10, over exactly when emptyCount of the new state is 0, and otherwise running with food placed |
| `SnakeLogic.NextState` | logic.js:53-94 | the tick as written (build `snake + [head]`, drop the tail unless eating, add 10 when eating, then place food) equals `Tick` |
| `RowMajor.GridCellsSpec` | logic.js:105-106 | the row-major scan order visits rows * cols cells, each in-bounds cell exactly once |
| `RowMajor.FreeGridCount` | logic.js:97-98 | when every occupied cell is in the grid, the free cells number rows * cols minus the number of distinct occupied cells, which is emptyCount |
| `RowMajor.FreeAt` | logic.js:105-111 | when the scan reaches a free cell, the number of free cells already passed is that cell's index in the row-major list of free cells |
| `RowMajor.DistinctCellCount` | logic.js:97 | a snake without repeated cells fills as many set entries as it has cells |
| `SnakeInvariants.FreeCellsCount` | logic.js:97-98 | with the snake inside the grid, emptyCount is the length of the row-major list of free cells |
| `SnakeInvariants.GridFull` | logic.js:98-101 | with the snake inside the grid, emptyCount is non-negative, and it is 0 exactly when the snake covers every grid cell |
| `SnakeInvariants.PlacedFood` | logic.js:104-115 | with the snake in bounds and a cell free, the drawn index always names a free cell, so the fallback at line 115 is never reached; the food is that row-major free cell, inside the grid and off the snake |
| `SnakeInvariants.PlacedOnlyFreeCell` | logic.js:104-113 | with exactly one free cell, every draw puts the food on it |
| `SnakeInvariants.NoReversal` | logic.js:41-43 | in a valid running game the next head never lands on the cell behind the head |
| `SnakeInvariants.TickPreservesValid` | logic.js:53-94 | a tick keeps the snake non-empty, in bounds and distinct; keeps the food in bounds and off the snake while not over; keeps the score a non-negative multiple of 10; never leaves a reversal queued; keeps the head one step ahead of the neck |
| `SnakeInvariants.QueuePreservesValid` | logic.js:39-45 | queueing a direction keeps the invariant |
| `SnakeInvariants.TogglePreservesValid` | logic.js:47-51 | pausing and resuming keep the invariant |
| `SnakeInvariants.CreateValid` | logic.js:16-37 | a fresh game on at least 1 x 3 cells satisfies the invariant, and its score is 10 times the food eaten (0) |
| `SnakeInvariants.ApplyPreservesLineage` | logic.js:39-120 | each input (tick, turn, pause, restart) keeps the invariant, the grid size, and score = 10 * (length - 3) |
| `SnakeInvariants.OverIsTerminal` | logic.js:40-54 | an ended game is unchanged by ticks, turns and pauses; only a restart leaves it |
| `SnakeInvariants.Run` | logic.js:39-120 | every state along any sequence of inputs keeps the invariant and the grid size |
| `SnakeInvariants.ReachableValid` | logic.js:16-120 | every state reachable from a fresh game satisfies the invariant |
| `SnakeScenarios.MoveForward` | tests/snakeLogic.test.mjs:27-43 | a plain move on a 6 x 6 grid advances the head and drops the tail |
| `SnakeScenarios.EatFood` | tests/snakeLogic.test.mjs:45-60 | eating gives score 10 and length 4; with draw 0 the new food is (0, 0) |
| `SnakeScenarios.HitWall` | tests/snakeLogic.test.mjs:62-74 | moving up from row 0 ends the game |
| `SnakeScenarios.HitSelf` | tests/snakeLogic.test.mjs:76-91 | turning into the body ends the game |
| `SnakeScenarios.ChaseTail` | logic.js:71-74 | moving into the cell the tail is about to leave ends the game |
| `SnakeScenarios.ReverseIgnored` | tests/snakeLogic.test.mjs:93-98 | queueing left while moving right leaves nextDirection as it was |
| `SnakeScenarios.LastFreeCell` | tests/snakeLogic.test.mjs:100-113 | on a 3 x 3 grid with only (2, 1) free, food goes to (2, 1) for every draw |
| `SnakeScenarios.NarrowGridOver` | logic.js:98-101 | on a 3 x 1 grid the seed snake sticks out at both ends, emptyCount is 0, and the fresh game is over although (0, 0) and (2, 0) are inside the grid and off the snake |

## Left out

- The random source: the model is given the drawn value instead of calling a generator. The default arguments are not modelled: the `Math.random` defaults (logic.js:16, 53, 96, 118) and the `rows = 20, cols = 20` defaults of `createGameState` (logic.js:16). Also not modelled is the rule that the source is called at most once per decision.
- TargetIndex: floors the exact product `r * emptyCount`, whereas logic.js:104 floors the product after it has been rounded to a double. On rare draws just below a multiple of `1 / emptyCount`, the two indices differ by one. The bound `0 <= k < emptyCount` holds in both.
- Grid dimensions are natural numbers. Negative or fractional JavaScript numbers for `rows` and `cols` are not modelled.
- Direction labels that are keys inherited by every JavaScript object are not modelled. `DIRECTIONS["toString"]`, for example, is a truthy lookup. The model accepts exactly the four direction names.
- `NextState` and `Tick` require a non-empty snake when the game is running, because the source has no head to read in that case and throws. A game that is not ticking may have any snake.
- Object identity: the no-op cases return an equal value. The model cannot say whether it is the same reference.
- `game.js` is not part of this model. It holds DOM event wiring, animation timing, vibration, tilt and glitter arithmetic, and the persisted dark-mode preference.
