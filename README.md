# Snake game state, in Dafny

A model of the game core of the Beepy snake game (`src/bin/snake.rs`): the
`SnakeGame` state (a body kept as a double-ended queue with the head at the
front, a heading, an apple, a score and a tick interval in milliseconds), its
operations `new`, `turn`, `set_dir` and `tick`, the range of `random_point`,
the key handling of the `'game` loop in `main`, and the `handle_input` event
filter.

Modules:

- `Directions` (directions.dfy): the four headings and the relative-turn
  lookup table of `turn`, checked against quarter-turn arithmetic.
- `Grid` (grid.dfy): the 20×11 playfield (rows 1..11; row 0 is the status
  bar), `random_point` as a function of its two draws, and the wrap-around of
  the head, checked against modular arithmetic.
- `SnakeState` (snake_state.dfy): the state as a value, `Game`, with `new`,
  `turn`, `set_dir` and `tick` as the functions `Initial`, `Steer`,
  `SetDirection` and `Advance`, the invariant `Inv` every reachable state
  keeps, and the lemmas about them.
- `Engine` (engine.dfy): the class `SnakeGame`, whose methods update its
  fields in place as the Rust methods do (the queue is a `seq` field:
  `push_front` prepends, `pop_back` drops the last element). Each method is
  proved to leave exactly the state the `SnakeState` function gives.
- `Input` (input.dfy): key codes, `handle_input`, and the order in which the
  reader thread sends the kept keys.
- `GameLoop` (game_loop.dfy): the key dispatch, one loop iteration, a run of
  iterations, and `RunGame`, the loop as a method over a `SnakeGame` object.

Oracles stand in for what the model cannot see. Each call of `random_point`
is a point of the playfield given as a parameter (`draw`). Each loop iteration
is a `Round`: what `try_recv` returned (a key, empty, or disconnected) and
the point `random_point` would return if that iteration's tick eats.

The invariant `Inv` holds from `new` onwards:
- the body has `3 + score` cells, all distinct and all in the playfield;
- the apple is in the playfield;
- the interval is `max(600 - 25 * score, 90)`.

From it follow three facts. The `front().unwrap()` of `tick` is safe. The
unsigned `tick - 25` never underflows. And the score can never pass
20 × 11 − 3 = 217, so the `usize` score cannot overflow.

Two quirks of the source are kept as written. Eating is tested on the head
*before* the move (`SnakeState.EatIsDetectedOneTickLate`). The collision test
covers the whole body, including the tail cell the same tick would vacate
(`SnakeState.TailCellCounts`).

## Model

| member | source | states |
|---|---|---|
| `Directions.Turned` | src/bin/snake.rs:49-61 | An Up or Down argument leaves the heading as it is; a Left or Right turn gives a heading that is neither the old one nor its reverse. |
| `Directions.TurnedIsQuarterRotation` | src/bin/snake.rs:49-61 | The lookup table is rotation by quarter-turns: a Right turn is one quarter clockwise, a Left turn one quarter counter-clockwise, from every heading. |
| `Directions.TurnsUndoEachOther` | src/bin/snake.rs:49-61 | A Left turn followed by a Right turn, and a Right turn followed by a Left turn, give back the starting heading. |
| `Directions.FourTurnsReturn` | src/bin/snake.rs:49-61 | Four turns with the same argument return to the starting heading. |
| `Grid.RandomPoint` | src/bin/snake.rs:107-112 | Any two draws in `0..WIDTH` and `0..HEIGHT`, shifted down one row, give a playfield cell. |
| `Grid.RandomPointRange` | src/bin/snake.rs:107-112 | A point is a possible result of `random_point` exactly when it lies in the playfield (x in 0..19, y in 1..11). |
| `Grid.Wrap` | src/bin/snake.rs:73-83 | The wrapped head always lies in the playfield, and a coordinate that is already in range is left alone. |
| `Grid.NextHead` | src/bin/snake.rs:65-83 | The cell the head moves into is always in the playfield. |
| `Grid.NextHeadIsModular` | src/bin/snake.rs:66-83 | From a playfield cell, the move is the step taken modulo 20 on x and modulo 11 on the band of rows 1..11. |
| `Grid.WrapsAtEdges` | src/bin/snake.rs:73-83 | x=19 moving Right gives x=0, x=0 moving Left gives x=19, y=11 moving Down gives y=1, y=1 moving Up gives y=11; the other coordinate stays. |
| `Grid.NextHeadMoves` | src/bin/snake.rs:66-83 | The new head is never the old head's cell. |
| `SnakeState.Interval` | src/bin/snake.rs:92 | The interval after n apples lies between 90 and 600 ms and is 600 ms before the first apple. |
| `SnakeState.Initial` | src/bin/snake.rs:32-47 | `new` gives the body (10,5),(9,5),(8,5), heading Right, score 0, interval 600 and the drawn apple, and this state satisfies the invariant. |
| `SnakeState.Steer` | src/bin/snake.rs:49-61 | Turning keeps the invariant, in both directions, and leaves body, apple, score and interval as they were. |
| `SnakeState.SetDirection` | src/bin/snake.rs:102-104 | Setting the heading keeps the invariant, in both directions, and leaves body, apple, score and interval as they were. |
| `SnakeState.Advance` | src/bin/snake.rs:63-99 | `tick` returns false exactly when the new head is anywhere in the body, and then the state is unchanged; otherwise the new head is in front; without eating the length, apple, score and interval are kept and the old tail is gone; when the head before the move is on the apple the body grows by one, the score by exactly one, the interval becomes max(interval - 25, 90) and the apple the drawn point. The subtraction is only required not to underflow on the eating path. |
| `SnakeState.InvBounds` | src/bin/snake.rs:63-99 | Under the invariant the body has at least 3 cells, the interval lies in [90, 600] so `tick - 25` cannot underflow, and the score is at most 217. |
| `SnakeState.BodyFitsGrid` | src/bin/snake.rs:85-97 | A body of distinct playfield cells has at most 220 cells. |
| `SnakeState.CollisionChangesNothing` | src/bin/snake.rs:85-87 | `tick` returns false exactly when the new head is anywhere in the body, and then body, heading, apple, score and interval are all unchanged. |
| `SnakeState.ShiftKeepsLength` | src/bin/snake.rs:89-97 | Without eating, `tick` returns true and the body becomes the new head followed by the old body without its last cell; length, apple, score and interval are unchanged. |
| `SnakeState.EatingGrowsByOne` | src/bin/snake.rs:89-97 | When the head before the move is on the apple, `tick` returns true, the body becomes the new head followed by the whole old body, the score goes up by exactly one, the interval becomes max(interval - 25, 90) and the apple becomes the drawn point. |
| `SnakeState.AdvancePreservesInv` | src/bin/snake.rs:63-99 | Every tick keeps the invariant (length 3 + score, distinct cells, all in the playfield, interval tied to the score), never raises the interval and never lowers the score. |
| `SnakeState.EatIsDetectedOneTickLate` | src/bin/snake.rs:89 | With the apple one cell ahead of the starting head, the first tick moves onto it without eating and the second eats: score 1, four cells, interval 575. |
| `SnakeState.TailCellCounts` | src/bin/snake.rs:85-94 | A four-cell snake in a square, moving onto its own tail cell, dies, although the shift would have vacated that cell. |
| `Engine.SnakeGame.constructor` | src/bin/snake.rs:32-47 | The new object holds the initial state, built by pushing three cells to the front, and satisfies the invariant. |
| `Engine.SnakeGame.Turn` | src/bin/snake.rs:49-61 | Only the heading field changes, to the lookup-table result; the object satisfies the invariant afterwards exactly when it did before. |
| `Engine.SnakeGame.SetDir` | src/bin/snake.rs:102-104 | Only the heading field changes, to the given heading; the object satisfies the invariant afterwards exactly when it did before. |
| `Engine.SnakeGame.Tick` | src/bin/snake.rs:63-100 | The returned flag and the new fields are those `Advance` gives; on false no field changes; the invariant is kept; the interval never rises and the score never falls. |
| `Input.HandleInput` | src/bin/snake.rs:218-223 | Never yields more keys than events, and yields nothing when no event is a key press. |
| `Input.HandleInputAppend` | src/bin/snake.rs:218-223 | Filtering two event runs one after the other gives the two key lists one after the other, so event order is kept. |
| `Input.HandleInputMembers` | src/bin/snake.rs:218-223 | A key is in the result exactly when some event is a Key event for it with value 1; releases (0) and repeats (2) never contribute. |
| `Input.HandleInputKeepsPresses` | src/bin/snake.rs:218-223 | When every event is a key press, the result lists every event's key, in order. |
| `Input.Sent` | src/bin/snake.rs:121-126 | The reader thread sends no more keys than it fetched events. |
| `Input.SentIsFilterOfAllEvents` | src/bin/snake.rs:121-126 | The keys sent over the channel, batch after batch, are the key presses of all fetched events, in fetch order. |
| `GameLoop.Dispatch` | src/bin/snake.rs:139-145 | A key maps to Quit exactly when it is Escape; the only turns it produces are Left and Right. |
| `GameLoop.TickStep` | src/bin/snake.rs:154-157 | The tick at the end of an iteration keeps the invariant. |
| `GameLoop.Iteration` | src/bin/snake.rs:136-157 | One iteration (a single poll result, dispatched, then at most one tick) keeps the invariant, never raises the interval and never lowers the score. |
| `GameLoop.QuitEndsWithoutTick` | src/bin/snake.rs:143-149 | Escape or a disconnected channel ends the game with the state untouched: there is no tick in that iteration. |
| `GameLoop.TurnPrecedesTick` | src/bin/snake.rs:138-157 | D or Left turns left, and J or Right turns right, before that iteration's tick; an empty poll or any other key just ticks. |
| `GameLoop.IterationEndsIff` | src/bin/snake.rs:136-157 | An iteration ends the game exactly when the channel is disconnected, the key is Escape, or the head, moved along the possibly turned heading, hits the body. |
| `GameLoop.Rounds` | src/bin/snake.rs:136-164 | A run of iterations keeps the invariant, never raises the interval and never lowers the score. |
| `GameLoop.RoundsAppend` | src/bin/snake.rs:136-164 | Game over is final: later iterations change nothing after it, and otherwise they continue from the state the earlier ones left. |
| `GameLoop.RunGame` | src/bin/snake.rs:118-168 | The loop, run on a `SnakeGame` object, exits in the state `Rounds` gives from the initial state; that state, whose score is the one printed, satisfies the invariant. |

## Left out

- `draw` (src/bin/snake.rs:174-216): presentation only (pixel scaling, the bitmap apple, the framebuffer flush); it reads the state and changes nothing.
- Opening the keyboard and the framebuffer, `fetch_events`, `bind_console` and `unbind_console`, and the `println!` output: foreign I/O.
- The reader thread and the `mpsc` channel (src/bin/snake.rs:120-130): concurrency. The loop sees each `try_recv` result as an input (`Round.poll`), and `Input.Sent` gives the order of sends. Nothing ties the keys the loop receives to the keys sent. The reader's `tx.send(k).unwrap()` would panic once the receiver is gone; that is not modelled.
- `thread::sleep` pacing and wall-clock time (src/bin/snake.rs:128, 163): only the interval value is modelled.
- The random number generator (`thread_rng`): each `random_point` result is a parameter constrained to the playfield. In the loop, every iteration carries a drawn point, and only an eating tick uses it.
- Only one key is taken from the channel per iteration, as the source does; keys still queued wait for later iterations.
- `GameLoop.RunGame`: the source loop runs until the game ends; the model runs for the finite number of rounds it is given, and returns `Running` if they run out first.
- Integer widths: `score` (`usize`) and `tick` (`u64`) are unbounded naturals. `SnakeState.InvBounds` shows that neither the `tick - 25` subtraction nor the score increment leaves the Rust range in a reachable state.
