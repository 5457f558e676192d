# Snake engine model

A Dafny model of the game engine inside the `GameBoard` component of a browser Snake game. The
engine is a small state machine on a fixed 31 x 21 toroidal grid. Its state is the snake
(a sequence of cells, head first), the direction of travel, one food cell, the score and two
phase flags, `gameOver` and `gameStarted`. It has four handlers: the timer tick (`moveSnake`),
the key handler (`handleKeyPress`), and `startGame` and `resetGame`, which the key handler
dispatches to.

Layout:

- `options.dfy` (`Options`): an `Option` datatype.
- `grid.dfy` (`Grid`): cells and directions, the grid constants, JavaScript's truncating `%`
  (`JsRem`), the wrapped step (`Wrap`, `NextHead`) and a pigeonhole argument about snakes on a
  grid with 651 cells.
- `keys.dfy` (`Keys`): the steering-key table, the start keys and the U-turn test.
- `food.dfy` (`Food`): `generateFood` as rejection sampling over a stream of random draws.
- `transitions.dfy` (`Transitions`): the state as a value, one step function per handler, and
  lemmas about each transition.
- `invariants.dfy` (`Invariants`): the invariant kept by every reachable state, and runs of
  handler calls starting from the mount state.
- `board.dfy` (`Board`): the component as a class `GameBoard`. Its fields are the six state
  variables. Its methods `Tick`, `KeyPress`, `Start` and `Reset` update them in place and are
  proved to perform the step functions while keeping the invariant.

Randomness is a parameter. Each method takes the cell that `generateFood` would return
(`foodChoice`), with the precondition that the cell is on the grid and off the snake that
`generateFood` closes over. That closure sees the snake as it was before the move when eating,
and the previous game's snake when starting. So the food may land on the new head after eating,
or on the initial snake after a start, and the model claims neither. `GenerateFood` models the
retry loop itself over a finite stream of draws.

Three behaviours of the code that a reader might not expect:

- Food avoids the snake as `generateFood` captured it, not the snake at the moment the food is
  placed.
- Moving onto the tail cell that would be vacated on the same tick is a collision
  (`TailChaseCollides`).
- The U-turn test compares against the most recently accepted direction. Two presses between
  ticks can therefore reverse the snake (`TwoPressesReverse`).

## Model

| member | source | states |
|---|---|---|
| `Grid.JsRem` | src/GameBoard.jsx:51-52 | the remainder takes the dividend's sign; it agrees with the mathematical residue for non-negative dividends; for negative ones it lies in (-n, 0] and is congruent to the dividend modulo n (JsRem(-1, 31) = -1) |
| `Grid.Wrap` | src/GameBoard.jsx:51-52 | `(v + dv + size) % size` is the residue of `v + dv`, in 0..size-1, whenever `v + dv >= -size`; below that it lies in (-size, 0] |
| `Grid.NextHeadInGrid` | src/GameBoard.jsx:50-53 | from an in-grid head and a unit direction, the new head is in the grid, is `(head + dir) mod (31, 21)`, and differs from the old head |
| `Grid.NextHead` | src/GameBoard.jsx:50-53 | each coordinate of the new head is the residue of head + direction modulo 31 (x) and 21 (y), in range, whenever the sum is at least minus the grid size |
| `Grid.WrapAtEdges` | src/GameBoard.jsx:51-52 | leaving at any edge re-enters at the opposite one, e.g. x = 30 moving right gives x = 0 |
| `Grid.SnakeFitsGrid` | src/GameBoard.jsx:3 | a snake of pairwise distinct in-grid cells has at most 31 * 21 = 651 segments |
| `Grid.FreeCellExists` | src/GameBoard.jsx:21-28 | such a snake leaves a free grid cell if and only if it is shorter than 651 segments |
| `Keys.KeyToDirection` | src/GameBoard.jsx:84-95 | ArrowUp/8 give up, ArrowDown/2 down, ArrowLeft/4 left, ArrowRight/6 right (each iff); every result is a unit vector; Enter and 5 give nothing |
| `Keys.IsStartKey` | src/GameBoard.jsx:75-80 | Enter and 5 are the start/restart keys; neither is one of the steering keys |
| `Keys.IsOpposite` | src/GameBoard.jsx:98-101 | for unit vectors the axis-wise test holds exactly when the request is the reverse of the current direction |
| `Food.GenerateFood` | src/GameBoard.jsx:21-30 | a result is on the grid and off the snake, and is the first such draw of the stream; there is no result iff every draw lies on the snake |
| `Food.GenerateFoodFindsFreeDraw` | src/GameBoard.jsx:26-28 | once the stream contains a free cell, sampling returns a cell |
| `Transitions.TickStep` | src/GameBoard.jsx:46-70 | a tick keeps direction and the started flag; it sets game over exactly on a collision while running; eating adds one segment, ScoreStep points and the drawn food; any move puts the new head in front of the old body with the last cell vacated unless eating; otherwise the snake is unchanged |
| `Transitions.StartStep` | src/GameBoard.jsx:32-39 | a start runs the game with the 3-segment snake headed at (8, 8), direction up, score 0 and the drawn food |
| `Transitions.ResetStep` | src/GameBoard.jsx:41-44 | a reset returns to the title screen and keeps snake, score, food and direction |
| `Transitions.KeyStep` | src/GameBoard.jsx:73-106 | Enter/5 moves from game over to the title screen and from the title screen to running, and is ignored while running; any other key changes at most the direction, and only while running |
| `Transitions.GeneratedFoodAdmissible` | src/GameBoard.jsx:21-30 | a cell `GenerateFood` returns for the snake a handler sees meets the food requirement of the tick and of a key press |
| `Transitions.TickIdle` | src/GameBoard.jsx:47 | a tick while over or not started changes nothing |
| `Transitions.TickCollision` | src/GameBoard.jsx:55-58 | if the new head hits any segment, the game is over and snake, score, food and direction are unchanged |
| `Transitions.TailChaseCollides` | src/GameBoard.jsx:55-58 | moving onto the current tail cell is a collision that ends the game |
| `Transitions.TickMove` | src/GameBoard.jsx:60-69 | a non-colliding, non-eating tick changes only the snake, to `[newHead] + snake` without its last cell; direction, score, food and flags are unchanged, length stays and the game keeps running |
| `Transitions.TickEat` | src/GameBoard.jsx:60-64 | an eating tick changes exactly three fields: snake to `[newHead] + snake` (length + 1), score + 10, food to the drawn cell, which is in the grid and off the pre-move snake; direction and flags are unchanged |
| `Transitions.KeyStartsGame` | src/GameBoard.jsx:32-39 | Enter/5 on the title screen sets the initial snake, direction up, score 0 and the drawn food, and the game runs |
| `Transitions.KeyRestarts` | src/GameBoard.jsx:41-44 | Enter/5 after game over clears both flags and keeps snake, score, food and direction |
| `Transitions.KeyIgnoredUnlessRunning` | src/GameBoard.jsx:74-82 | when the game is not running, every key other than Enter/5 leaves the state unchanged |
| `Transitions.KeySteers` | src/GameBoard.jsx:95-105 | while running a key changes at most the direction; a steering key is taken unless it is the exact reverse; other keys change nothing |
| `Transitions.NoReversalInOnePress` | src/GameBoard.jsx:97-104 | one key press never yields the reverse of the current direction, and the direction stays a unit vector |
| `Transitions.TwoPressesReverse` | src/GameBoard.jsx:98-103 | from "up", pressing left then down yields "down": presses chain into a reversal |
| `Transitions.FirstTickAfterStart` | src/GameBoard.jsx:5-10 | the first tick after a start moves the head from (8, 8) to (8, 7), drops the tail and keeps 3 segments and score 0 |
| `Transitions.RestartThenStart` | src/GameBoard.jsx:74-81 | from game over, "5" then "5" gives a running game with the initial snake, score 0 and the second drawn food |
| `Invariants.Inv` | src/GameBoard.jsx:5-19 | the invariant (distinct in-grid segments, at least 3 of them, in-grid food, unit direction, score = 10 * (length - 3), game over only once started) implies a non-empty snake and a non-negative score |
| `Invariants.MountInv` | src/GameBoard.jsx:14-19 | the mount state (`Mount`: initial snake, direction up, food at (5, 5), score 0, both flags clear) satisfies the invariant and is on the title screen |
| `Invariants.TickPreservesInv` | src/GameBoard.jsx:46-70 | a tick keeps the segments distinct and in the grid, the food in the grid, and the score at 10 * (length - 3) |
| `Invariants.KeyPreservesInv` | src/GameBoard.jsx:73-106 | a key press, including the start and restart it dispatches to, keeps the invariant |
| `Invariants.TickFoodAvailable` | src/GameBoard.jsx:62-64 | some food cell always meets the tick's requirement: the eaten cell itself is off the pre-move snake |
| `Invariants.StartFoodAvailable` | src/GameBoard.jsx:36 | a start can place food iff the previous snake is shorter than 651 segments |
| `Invariants.Run` | src/GameBoard.jsx:108-109 | applying any admissible sequence of handler calls to a state with the invariant yields a state with the invariant |
| `Invariants.ReachableInv` | src/GameBoard.jsx:5-9 | every state reachable from mount keeps the invariant, holds at most 651 segments and has a score between 0 and 6480 |
| `Board.GameBoard.constructor` | src/GameBoard.jsx:14-19 | the fields start as the mount state and satisfy the invariant |
| `Board.GameBoard.Tick` | src/GameBoard.jsx:46-70 | updates the fields exactly as `TickStep` and keeps the invariant |
| `Board.GameBoard.Start` | src/GameBoard.jsx:32-39 | updates the fields exactly as `StartStep` and keeps the invariant |
| `Board.GameBoard.Reset` | src/GameBoard.jsx:41-44 | updates the fields exactly as `ResetStep` and keeps the invariant |
| `Board.GameBoard.KeyPress` | src/GameBoard.jsx:73-106 | updates the fields exactly as `KeyStep` and keeps the invariant |

## Left out

- Rendering: the pixel-font glyphs and `renderPixelText`, cell positioning by `CELL_SIZE`, the zero-padded score readout and the game-over overlay. They are presentation only.
- `src/App.jsx`: static layout and an image, with no logic.
- Registering and removing the interval timer and the key listener. Each handler call is modelled as one atomic transition. The 150 ms period is not modelled, and neither is the restart of the interval whenever the handlers are re-created.
- `Math.random` and `Math.floor`: a draw is given as an in-grid cell. The methods take the chosen food cell as a parameter with a precondition.
- `Board.GameBoard.Start`: requires a free cell. When the previous game's snake covers all 651 cells, the source's `generateFood` recurses without end. The model has no state for that case; `StartFoodAvailable` shows it is the only case without a valid food cell.
- React's batching of state updates and stale closures beyond the captured snake in `generateFood`. Each handler sees the state left by the previous one.
- `keyDirections[e.key]` is a plain-object lookup. It would also find inherited names such as `constructor`. No keyboard key value is such a name, so the lookup is modelled as a map with the eight keys.
- Empty snakes: `TickStep` requires a non-empty snake. The source would fail on `newSnake[0]` for an empty one, and the invariant rules that case out.
