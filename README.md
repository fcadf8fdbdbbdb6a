# Snake game core, modelled in Dafny

This project models the game logic of a browser Snake game (the `App`
component of `src/App.tsx`). The board is 15×15, with rows and columns
numbered 1 to 15. The snake is a list of segments, head first. A segment
flagged `hasFood` carries a food that is still being digested. Each timer
tick runs `walk`:

1. The pending direction becomes the applied one.
2. In Normal mode, stepping off the board kills the snake.
3. Otherwise the new head is the step wrapped around the board, and it eats
   when it lands on the food. Eating draws new food and adds one to the score.
4. The body drops its tail, unless the tail carries food; then the tail is
   kept with its flag cleared.
5. Running into that body kills the snake.
6. Otherwise the snake becomes the new head followed by that body.

Arrow keys set the pending direction while the game runs. A key is ignored
when it reverses the direction last applied. The level is `score / 5 + 1`,
and the tick delay is 250 ms divided by the level, rounded half up.

Modules, one per component:

- `Wrappers` (grid.dfy): `Option`, for the nullable `dir` field.
- `Grid` (grid.dfy): cells and directions. It has JavaScript's truncating
  `%`, the wrap `((v - 1 + size) % size) + 1`, the lodash `inRange` bounds
  test and the next-head computation.
- `Body` (body.dfy): segments and the initial snake. It has the `reduce`
  that builds the new body, written as a fold with the same callback, and
  its shape lemmas.
- `Tick` (tick.dfy): the pure tick transition `Step` and what is proved
  about it: wall death, eating, self-collision, length and growth, staying
  on the board, no overlaps, and the first tick from the initial state.
- `Speed` (speed.dfy): level and delay as functions of the score, with
  monotonicity.
- `Controls` (controls.dfy): key codes and the `changeDir` rule, with the
  no-reversal lemmas.
- `Game` (game.dfy): the class `SnakeGame`, which holds the component's
  state fields. Its methods are `walk`, `changeDir`, `start`, `pause`,
  `die`, `reset` and the mode buttons. `randFood` is specified by its
  postcondition. `Walked` and `ValidView` relate states as values.

React applies a handler's state updates after the handler returns. So every
read inside `walk` sees the state before the tick, and all writes happen
together. The methods read the old fields and write the new ones in one go.
`Walk`'s contract ties the new state to the pure `Step` of the old one.
A tick is a call to `Tick`, which runs `Walk` only while `isRunning` holds.
That is the `useInterval(walk, isRunning ? delay : null)` guard.

Points of the code's behaviour that the model keeps as they are:

- `dir` starts as `null` (`src/App.tsx:126`). `reset` sets it to LEFT, and
  every tick sets it to the pending direction. The model has `dir == None`
  after the constructor, so before the first tick no arrow key is refused.
- Growth is delayed. Eating flags the new head, and each tick moves every
  flag one segment back. The snake grows by one cell on the tick that
  starts with a flagged tail, not on the tick it eats (`Tick.MovedLength`).
  What grows by exactly one on an eating tick is length plus pending flags
  (`Tick.GrowthBudget`).
- New food is drawn off the snake as it was before the tick, so it may land
  under the new head (`Game.EatenCellStaysEligible`). For this reason "food
  never on the snake" is not part of the invariant.
- `reset` draws food off the snake it replaces, not off the initial snake.
  So the food may lie on the initial snake (`Game.ResetFoodMayCoverInitialSnake`).
- The score and food are updated before the self-collision check. A tick
  that eats and then collides still adds one to the score and moves the
  food (`Game.Walked`).
- `start` and `reset` are unconditional. Only their buttons are disabled
  (while running or dead, and while stopped and alive). The model's `Start`
  and `Reset` are the functions, not the buttons.

## Model

| member | source | states |
|---|---|---|
| Grid.Direction.Reverse | src/App.tsx:85-90 | the reverse direction is the component-wise negation of the step and differs from the direction |
| Grid.JsRem | src/App.tsx:180-181 | JavaScript `%`: a equals b times the truncated quotient plus the remainder, and the remainder lies strictly between -b and b with the sign of the dividend |
| Grid.Direction.DRow | src/App.tsx:85-90 | the row step of each direction constant; `Grid.UnitStep` states that DRow and DCol form a unit step along one axis |
| Grid.Direction.DCol | src/App.tsx:85-90 | the column step of each direction constant; its meaning is stated by `Grid.UnitStep` |
| Grid.UnitStep | src/App.tsx:85-90 | every direction is a step of length one along exactly one axis |
| Grid.InRange | src/App.tsx:172-173 | lodash `inRange(n, lo, hi)` as `lo <= n < hi`; with 1 and size+1 it is the closed range [1,Size] (`Grid.HitsWallOffBoard`) |
| Grid.HitsWall | src/App.tsx:169-175 | the Normal-mode wall test; `Grid.HitsWallOffBoard` states it is "the plain step leaves the board" |
| Grid.HitsWallOffBoard | src/App.tsx:169-175 | the wall test holds iff head plus step is not a board cell |
| Grid.Wrap | src/App.tsx:180-181 | the wrap lands in [1,Size] for every input above -Size, is congruent to its input modulo Size, and is the identity on [1,Size] |
| Grid.WrapLeavesBoardFarBelow | src/App.tsx:180-181 | with the truncating `%`, an input of -Size wraps to 0, off the board |
| Grid.NextHead | src/App.tsx:180-181 | from a board cell the next head is a board cell, equals head plus step when that stays on the board, and re-enters at the opposite edge when it does not (UP from row 1 gives row Size, RIGHT from col Size gives col 1, and so on) |
| Body.InitialSnake | src/App.tsx:92-97 | the initial snake; `Body.InitialSnakeShape` states its cells and flags |
| Body.InitialSnakeShape | src/App.tsx:92-97 | the initial snake has four segments at row 10, columns 10 to 13, no food flags, on the board and without overlaps |
| Body.Occupied | src/App.tsx:139 | the `.some` coordinate test; `Body.OccupiedAppend` and `Body.OccupiedNewBody` state how it splits over the body |
| Body.OccupiedAppend | src/App.tsx:204 | a cell is covered by a concatenation iff either part covers it |
| Body.KeepSegment | src/App.tsx:194-201 | the `reduce` callback; its effect over the whole fold is stated by `Body.FoldBodyFrom` |
| Body.FoldBody | src/App.tsx:194-201 | the `reduce` loop from an index with an accumulator; its closed form is `Body.FoldBodyFrom` |
| Body.NewBody | src/App.tsx:194-201 | the `reduce` from index 0 and an empty accumulator; its closed form is `Body.NewBodyShape` |
| Body.KeptTail | src/App.tsx:197-200 | what stands in for the tail: the tail with its flag cleared when it carries food, else nothing; used by `Body.NewBodyShape` |
| Body.FoldBodyFrom | src/App.tsx:194-201 | the `reduce` from any index appends the remaining non-tail segments and then the kept tail to its accumulator |
| Body.NewBodyShape | src/App.tsx:194-201 | the new body is the snake without its last segment, plus that segment with its food flag cleared when it carries food; empty for an empty snake |
| Body.OccupiedNewBody | src/App.tsx:194-204 | a cell is covered by the new body iff a non-tail segment covers it, or the tail covers it and carries food |
| Body.NewBodyPending | src/App.tsx:194-201 | the new body carries the snake's food flags less the tail's |
| Tick.Step | src/App.tsx:166-211 | the pure tick of `walk`; its meaning is stated by `Tick.WallDeath`, `Tick.Eating`, `Tick.SelfCollision`, `Tick.MovedShape`, `Tick.MovedLength`, `Tick.GrowthBudget`, `Tick.MovedInGrid` and `Tick.MovedDistinct` |
| Tick.WallDeath | src/App.tsx:167-178 | a tick hits the wall iff the mode is Normal and head plus step leaves [1,Size] in row or column |
| Tick.Eating | src/App.tsx:180-188 | when not hitting a wall, the tick eats iff the wrapped new head equals the food, and a moving eating tick puts a food-flagged segment on the food cell at the head |
| Tick.SelfCollision | src/App.tsx:194-209 | a tick dies of self-collision iff it does not hit a wall and the new head meets a non-tail segment, or the tail when the tail carries food |
| Tick.VacatedTailIsSafe | src/App.tsx:194-209 | on a snake without overlaps, stepping into the cell of a tail without food is no collision: the snake moves |
| Tick.MovedShape | src/App.tsx:184-210 | a moving tick commits the new head, flagged iff it eats, then the snake without its tail, then the tail with flag cleared iff it carried food; every segment moves one place back |
| Tick.MovedLength | src/App.tsx:194-210 | a moving tick keeps the length, or adds one exactly when the tail carries food |
| Tick.GrowthBudget | src/App.tsx:182-210 | length plus food flags grows by exactly one on an eating tick and is unchanged on every other moving tick |
| Tick.MovedInGrid | src/App.tsx:180-210 | a moving tick keeps every cell of the snake on the board |
| Tick.MovedDistinct | src/App.tsx:194-210 | a moving tick keeps the snake free of overlaps |
| Tick.FirstTick | src/App.tsx:166-211 | from the initial snake heading LEFT in Normal mode, with food elsewhere, one tick gives (10,9),(10,10),(10,11),(10,12) with no flags |
| Speed.Level | src/App.tsx:236-239 | the level is at least 1, and level l covers exactly the scores 5(l-1) to 5l-1 |
| Speed.Delay | src/App.tsx:241-244 | the delay is `Math.round(250/level)`: the integer d with d - 1/2 <= 250/level < d + 1/2 |
| Speed.LevelMonotone | src/App.tsx:238 | the level is non-decreasing in the score |
| Speed.DelayAntitone | src/App.tsx:243 | the delay is non-increasing in the level |
| Speed.StartingSpeed | src/App.tsx:236-244 | score 0 gives level 1 and a 250 ms delay |
| Speed.ScoreDelayAntitone | src/App.tsx:236-244 | a higher score gives a level at least as high and a delay at most as long |
| Controls.KeyDirection | src/App.tsx:213-230 | a key code names a direction iff it is one of 37 to 40 |
| Controls.KeyCode | src/App.tsx:216-226 | each direction's key code maps back to that direction |
| Controls.KeyCodeRoundTrip | src/App.tsx:216-226 | every arrow key code is the key code of the direction it names |
| Controls.Steer | src/App.tsx:215-230 | the result is the old pending direction or the direction of the key, and a change never picks the reverse of the applied direction; the exact rule is stated by `Controls.SteerAcceptsUnlessReverse` and `Controls.SteerIgnoresOtherKeys` |
| Controls.SteerIgnoresOtherKeys | src/App.tsx:228-231 | a key other than 37 to 40 leaves the pending direction unchanged |
| Controls.SteerAcceptsUnlessReverse | src/App.tsx:216-227 | an arrow sets the pending direction iff it is not the reverse of the applied direction (or is already pending); the reverse leaves it unchanged |
| Controls.SteerNeverReverses | src/App.tsx:213-232 | if the pending direction is not the reverse of the applied one, it still is not after any key press |
| Controls.SteerChecksAppliedDirection | src/App.tsx:216-227 | the test is against the applied direction: applied LEFT with UP pending refuses RIGHT and accepts DOWN |
| Game.ValidView | src/App.tsx:119-211 | the invariant of the component's state; kept by every tick (`Game.WalkKeepsValid`) and by every method of `Game.SnakeGame` |
| Game.Walked | src/App.tsx:166-211 | one `walk` between two states, in terms of `Tick.Step`; `Game.WalkKeepsValid`, `Game.WallHitKeepsBoard` and `Game.WalkNeverSlowsDown` are stated about it |
| Game.WalkKeepsValid | src/App.tsx:166-211 | a tick keeps the snake non-empty, on the board and without overlaps, the food on the board, and the pending direction not the reverse of the applied one |
| Game.WallHitKeepsBoard | src/App.tsx:166-178 | in Normal mode a wall hit sets dead, clears isRunning, applies the pending direction and leaves snake, food and score unchanged |
| Game.WalkNeverSlowsDown | src/App.tsx:189-192 | a tick never lowers the score or the level and never lengthens the delay |
| Game.EatenCellStaysEligible | src/App.tsx:189-190 | when a tick eats food lying off the snake, the eaten cell is free in the pre-tick snake yet lies under the new head, so the new food may be placed under the head |
| Game.ResetFoodMayCoverInitialSnake | src/App.tsx:151-159 | for a valid four-segment snake along row 1, the initial head (10,10) is free in it, so reset may put the food on the initial snake |
| Game.RandFood | src/App.tsx:134-142 | the drawn food is a board cell not covered by the given snake |
| Game.InitialSnakeLeavesRoom | src/App.tsx:92-97 | the initial snake leaves a free cell, so the first food can be drawn |
| Game.SnakeGame.constructor | src/App.tsx:119-143 | Normal mode, alive, score 0, initial snake, no applied direction, LEFT pending, stopped, food off the initial snake |
| Game.SnakeGame.Start | src/App.tsx:145-147 | sets isRunning and changes nothing else |
| Game.SnakeGame.Pause | src/App.tsx:148-150 | clears isRunning and changes nothing else |
| Game.SnakeGame.Die | src/App.tsx:161-164 | sets dead, clears isRunning and changes nothing else |
| Game.SnakeGame.SetMode | src/App.tsx:261-269 | changes the mode only while the game is stopped |
| Game.SnakeGame.Reset | src/App.tsx:151-159 | restores the initial snake, LEFT applied and pending, score 0, alive and stopped, keeps the mode, and draws food off the replaced snake |
| Game.SnakeGame.Walk | src/App.tsx:166-211 | the new state is the `Walked` successor of the old one (see `Tick` and `Game` lemmas), and the invariant holds |
| Game.SnakeGame.Tick | src/App.tsx:234 | runs one `Walk` while running and changes nothing while stopped |
| Game.SnakeGame.ChangeDir | src/App.tsx:213-232 | ignored while stopped; otherwise the pending direction becomes `Steer` of the applied direction, the pending one and the key; nothing else changes and the no-reversal invariant holds |
| Game.SnakeGame.Level | src/App.tsx:236-239 | the displayed level is at least 1 |
| Game.SnakeGame.Delay | src/App.tsx:241-244 | the tick interval is non-negative |

## Left out

- Rendering and styling (styled components, JSX, the CSS grid). These are presentation only.
- The `useInterval` hook and its `setInterval`/`clearInterval` timer. `Tick` stands for one timer firing, and time is not modelled.
- The random source `_.random` and the retry loop of `randFood`. `RandFood` returns an arbitrary free cell. It requires that one exists, since on a full board the loop never ends. For the same reason `Walk`, when it eats, and `Reset` require a free cell. `useState(randFood())` (`src/App.tsx:143`) also runs `randFood` on every render, with the current snake, and discards the result after the first render. A board the snake covers entirely would hang that render even on a tick that does not eat. The model does not have these render-time calls, and neither `Walk` nor the other methods require a free cell for them.
- Keyboard event wiring (`onKeyDown`, `e.keyCode`). `ChangeDir` takes the key code as an argument.
- React's deferred and batched updates. They are modelled as "every read sees the old state, and all writes commit together".
- The stored `level` and `delay` state. They are modelled as functions of the score, which is what their effects compute. Before the first effects run, the stored level is 0, which makes the effect briefly compute an infinite delay. No timer runs then, so the model does not have this moment.
- The buttons' `disabled` guards on Start (running or dead) and Reset (stopped and alive). The model's `Start` and `Reset` are the unconditional handlers, so `Start` can resume a dead game, as the function itself would.
- lodash `inRange` swapping its bounds when start exceeds end. The code always passes 1 and size+1.
- JavaScript numbers are doubles. Score and coordinates are modelled as unbounded integers, since they stay far below 2^53.
- Growth uses only the tail-flag rule, and the level is only `score/5 + 1`; the code has no other growth or scoring rule.
- Game.SnakeGame.Delay: its contract only says the interval is non-negative. Its meaning (rounded 250/level, non-increasing in the score) is stated on `Speed.Delay` and `Speed.ScoreDelayAntitone`.
