# Catch-the-balls game logic in Dafny

A model of the game logic of `simple_game.py`, a tkinter arcade game. A
paddle at the bottom of a 500 x 400 play area moves left or right while an
arrow key is held. Balls spawn at random x positions just above the top
edge and fall 4 pixels per frame. A ball whose bottom edge reaches the
paddle row while its centre is over the paddle is caught (+1 score). A
ball whose top edge passes below the play area is missed (-1 life). The
game ends on the miss that leaves lives at or below 0, and the `r` key
then restarts it.

The model keeps only the game logic, with no drawing. The state is an
immutable `GameState` record: paddle centre, the two movement flags,
score, lives, the ball list as a `seq<Ball>`, and the game-over flag. The
operations are pure functions:

- `SetMove` handles key events.
- `Spawn` adds a ball.
- `Update` runs one frame. Its ball loop is the fold `Balls.Sweep`.
- `Reset` and `Restart` restart the game.

Files:

- `config.dfy` holds the constants.
- `paddle.dfy` holds the paddle step and its clamp.
- `balls.dfy` holds ball geometry, the per-ball classification, the outcome counts and the fold.
- `game.dfy` holds the state and its operations.
- `invariants.dfy` holds the reachable-state invariant and event runs, including restart-key binding and game-over terminality.
- `scenarios.dfy` holds concrete single-tick scenarios.

All quantities are `int`. The source uses floats, but every value they
take is a whole number: `WIDTH / 2 = 250`, `PADDLE_WIDTH / 2 = 50`, and a
ball centre is the midpoint of a box whose corner sum is even. The paddle
is represented by its centre `paddleX`; its canvas edges are
`paddleX ± 50`, the coordinates the catch test reads. A ball is `(x, y, r)`
with the centre that `Ball.pos` computes from the oval's bounding box.

Behaviours of the code that the model keeps:

- Lives have no floor at 0. A tick with several misses can take them below 0.
- The ball loop does not stop when the game ends mid-tick. Later balls in the same tick are still caught or missed.
- Balls form an ordered list. The survivors keep their order. The totals (score, lives, game over) and the multiset of survivors do not depend on that order.
- A restart resets the state and then runs one `update` at once (line 203). So after a restart the paddle is at 250 moved one step in the held direction, not always at 250. `Reset` is the bare reset, where the paddle is at exactly 250.
- The restart key is first bound at the first game over (line 183). Every later call of `end_game` binds it again, and nothing removes the binding. From then on, a restart works from any state.
- The paddle is clamped only in a tick where it moves (`dx != 0`).

## Model

| member | source | states |
|---|---|---|
| Paddle.Step | simple_game.py:111-131 | with no key held the paddle stays put; after a move it lies inside [0, 500] and is the admissible centre nearest to the unclamped position, i.e. the correction is the minimal shift; a paddle in bounds stays in bounds |
| Paddle.StepKeepsGrid | simple_game.py:111-131 | a paddle on the grid 250 + 8k stays on it after a step of -8, 0 or 8, clamped positions included |
| Balls.FallMatchesCanvas | simple_game.py:28-42 | moving a ball's oval down by the fall speed and reading its centre back gives the centre of the fallen ball record |
| Balls.CatchBeforeMiss | simple_game.py:139-151 | a ball meeting both the catch and the miss condition is counted as caught |
| Balls.PassingThePaddleIsNotAMiss | simple_game.py:139-151 | a ball at or below the paddle row but outside the paddle span, whose top edge is not below the floor, is retained |
| Balls.Classify | simple_game.py:139-159 | a fallen ball is caught exactly when its bottom edge is at or below the paddle's top edge (y + r >= 358) and its centre x lies within the paddle's edges; missed exactly when it is not caught and its top edge is below the floor (y - r > 400); otherwise it stays in play |
| Balls.Visit | simple_game.py:136-159 | one loop iteration adds 1 to the score for a caught ball, takes 1 life for a missed ball, appends the fallen ball to the kept list when it stays in play, and sets game over exactly when it was already set or this miss left lives at or below 0 |
| Balls.Survivors | simple_game.py:133-159 | every ball kept by a tick is classified as still falling, every fallen ball that stays in play is kept, and their number is the count of such balls |
| Balls.SurvivorsKeepOrder | simple_game.py:133-159 | the kept balls are the fallen still-falling balls in their original order and multiplicity: a strictly increasing index list maps each survivor to the ball it came from and contains every position whose ball stays in play |
| Balls.OutcomesPartition | simple_game.py:133-159 | every ball is caught, missed or kept: the three counts sum to the number of balls |
| Balls.Sweep | simple_game.py:133-159 | the ball loop raises the score by the number of caught balls, lowers lives by the number of missed balls, and keeps the survivors appended in order |
| Balls.SweepEndsGame | simple_game.py:151-159 | the loop sets game over exactly when it was already set or some ball was missed and lives end at or below 0 |
| Balls.CountOrderIndependent | simple_game.py:133-159 | the number of caught, missed and kept balls is the same for any permutation of the ball list |
| Balls.SurvivorsOrderIndependent | simple_game.py:133-159 | any permutation of the ball list keeps the same multiset of balls |
| Game.DeltaX | simple_game.py:112-117 | the paddle moves -8 exactly when the left flag is set, +8 exactly when only the right flag is set, 0 when neither is set: left takes precedence |
| Game.SetMove | simple_game.py:86-97 | afterwards the two flags are never both set; -1 gives left, 1 gives right, any other value stops; nothing else in the state changes |
| Game.Direction | simple_game.py:74-77 | pressing an arrow selects its direction, releasing either arrow stops |
| Game.LastKeyWins | simple_game.py:86-97 | after any non-empty sequence of key events only the last one decides the intent, the flags are exclusive and nothing else changes |
| Game.Spawn | simple_game.py:99-105 | when the game is over nothing changes; otherwise exactly one ball is appended at (x, -12) with radius 12, wholly inside the play area horizontally, the existing balls and all other fields unchanged |
| Game.Update | simple_game.py:107-159 | once the game is over the state is unchanged; otherwise the paddle steps, score rises by the caught count, lives fall by the missed count, the survivors in order are the new ball list, game over is set exactly when a miss left lives at or below 0, and the flags are untouched |
| Game.UpdateAccounting | simple_game.py:133-159 | a running tick never lowers the score nor raises the lives, and score gained + lives lost + balls kept equals the balls before |
| Game.UpdateOrderIndependent | simple_game.py:133-159 | reordering the balls leaves the tick's paddle, score, lives, game-over flag and multiset of survivors unchanged |
| Game.Reset | simple_game.py:185-201 | from any state: paddle at 250, score 0, lives 3, no balls, not game over, key flags kept |
| Game.Restart | simple_game.py:185-203 | from any state: score 0, lives 3, no balls, not game over, key flags kept, and the paddle one step from 250 in the held direction |
| Game.FirstTickIsIdle | simple_game.py:56-84 | the update run by the constructor leaves the initial state unchanged |
| Invariants.InitialInv | simple_game.py:56-80 | the initial state satisfies the game invariant |
| Invariants.SetMoveInv | simple_game.py:86-97 | key input preserves the invariant |
| Invariants.SpawnInv | simple_game.py:99-105 | spawning at a position randint can return preserves the invariant |
| Invariants.SurvivorsWellFormed | simple_game.py:133-159 | balls kept by a tick keep radius 12, x in [12, 488], y on the fall-speed grid, and top edge not below the floor |
| Invariants.UpdateInv | simple_game.py:107-159 | a tick preserves the invariant: paddle in bounds and on its grid, score non-negative, lives at most 3, game over exactly when lives are at or below 0, balls well formed |
| Invariants.RestartInv | simple_game.py:185-203 | a restart preserves the invariant |
| Invariants.Apply | simple_game.py:74-203 | key events change only the two movement flags; only a tick can end the game; the restart key does nothing until it is bound, and once bound it resets score, lives and game over; the binding is created exactly by a tick that ends the game, and nothing removes it |
| Invariants.ApplyInv | simple_game.py:74-203 | each event the game reacts to preserves the invariant, and a game that is over always has the restart key bound |
| Invariants.RunInv | simple_game.py:74-203 | every sequence of events preserves the session invariant |
| Invariants.Reachable | simple_game.py:48-203 | in every reachable state the paddle centre is in [50, 450], the score is non-negative, lives are at most 3, game over holds exactly when lives are at or below 0, and a game that is over can be restarted |
| Invariants.GameOverIsTerminal | simple_game.py:99-109 | once the game is over, ticks, spawns and key events leave paddle, score, lives, balls and game-over flag unchanged, and the restart key stays bound |
| Scenarios.CatchNextTick | simple_game.py:135-149 | a ball 1 pixel above touching the paddle, over its centre, is caught the next tick: score +1, ball removed, lives unchanged |
| Scenarios.MissOnlyBelowFloor | simple_game.py:139-159 | a ball beside the paddle past the paddle row is kept until its top edge is below the floor, then missed: lives -1, score unchanged |
| Scenarios.LastLifeTick | simple_game.py:151-159 | with one life left, a miss ends the game in that tick, yet a later ball in the same tick is still caught and a later miss takes lives to -1 |

## Left out

- Drawing is not modelled, because it does not affect the game state. This covers canvas creation, ovals, rectangles, score and lives text, the game-over overlay, `canvas.move`, `itemconfigure` and `delete`.
- Timers are not modelled: `root.after`, `SPAWN_INTERVAL` (1200 ms), `UPDATE_DELAY` (20 ms) and `mainloop`. One `Update` is one frame and one `Spawn` is one spawn event. A run is any interleaving of these with key events. The model does not cover the extra update and spawn loops that pressing `r` during a running game, or within one spawn interval of a game over, would start. Those loops change how often ticks and spawns happen, and each tick is modelled on its own.
- `random.randint` is not modelled. The spawn position is a parameter restricted to the range randint draws from, [12, 488].
- Floating point is not modelled: every value involved is a whole number, as explained above.
- Object identity is represented by list position. `self.balls.remove(ball)` removes that exact object. The model's filter removes the element at that position, which is the same even when two balls have equal coordinates.
- `main()` and the window title are not modelled, because they are set-up only.
