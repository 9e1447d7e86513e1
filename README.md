# Snake game logic, modelled in Dafny

This project models the game logic of a terminal Snake game written in Rust, without its terminal I/O. It has three parts:

- `snake.dfy` (module `Snakes`, from `src/snake.rs`): the snake is a class. It holds a non-empty body of `u16` cells, head first, and a direction. `UpdateSnake` is the in-place "follow the leader" shift, written as a loop over the body. Each trailing segment takes the cell its predecessor held before the move, and growth appends the cell the old tail vacated. The four moves compute the new head. Left and Up stay put at coordinate 0. Right and Down require room below 65535.
- `scene.dfy` (module `Scenes`, from `src/scene.rs`): the board is a value with a width, a height and a border width. `Scene::new` stores the three values without validation, and `width()`/`height()` return them (src/scene.rs:20-35). In the model these are the constructor and the fields of the datatype `Scenes.Scene`. The module also has the out-of-bounds test on the head and the duplicate-cell scan behind self-collision. `find_duplicate_tuples` is a method with a loop over a growing `seen` list. It is proved equal to the function `FindDuplicate`, and lemmas characterise that function.
- `game.dfy` (module `Game`, from `src/main.rs`): one pass of the loop in `main`. `Step` is a pure function of four things: the state, the events read during the tick, the terminal size a restart would read, and whether the snake ate food after its move. `Session.Tick` is the same pass written as a loop over the events and a `Snake` object, and it is proved to agree with `Step`.
- `wrappers.dfy`: the `Option` type.

Two behaviours of the code are worth knowing:
- `Scene::new` validates nothing. The test `x <= border_width` holds at `x = 0` for every border width, so a head stalled at coordinate 0 is always out of bounds (`EdgeIsOutOfBound`).
- A restart on Enter resets neither the growth flag nor a direction accepted earlier in the same batch. `Restart` keeps the growth flag, and `EnterRestarts` shows it applied to the first move. `HandleEvent` leaves the kept direction alone on Enter, and `DirectionSurvivesRestart` shows the fresh snake, spawned heading Down, turning Up in the same tick.

## Model

| member | source | states |
|---|---|---|
| `Snakes.Snake.constructor` | src/snake.rs:16-21 | the body is exactly the one cell `(start_x, start_y)` and the direction is the one given |
| `Snakes.Snake.Body` | src/snake.rs:23-25 | returns a copy equal to the body and changes nothing |
| `Snakes.Snake.CurrentDirection` | src/snake.rs:27-29 | returns the stored direction |
| `Snakes.Snake.UpdateSnake` | src/snake.rs:31-46 | the head becomes `new_head`; each `body[i]` (i ≥ 1) becomes the old `body[i-1]`; the length is kept, or grows by one with the old last cell appended; the body stays non-empty; the direction is kept |
| `Snakes.Shifted` | src/snake.rs:31-45 | the body a move leaves, index by index: new head, predecessor's old cell for every trailing segment, old tail appended on growth, length +0 or +1 |
| `Snakes.ShiftedOccupancy` | src/snake.rs:31-45 | as a multiset of cells, a move adds the new head and drops the old tail's cell, unless the snake grows, when nothing is dropped |
| `Snakes.Snake.UpdateDirection` | src/snake.rs:48-50 | overwrites the direction unconditionally and leaves the body alone |
| `Snakes.Snake.MoveRight` | src/snake.rs:52-56 | the head moves to x+1 with y unchanged (requires x < 65535) and the body follows |
| `Snakes.Snake.MoveLeft` | src/snake.rs:58-67 | the head moves to x−1 when x > 0 and stays put when x = 0; the body follows |
| `Snakes.Snake.MoveUp` | src/snake.rs:69-78 | the head moves to y−1 when y > 0 and stays put when y = 0; the body follows |
| `Snakes.Snake.MoveDown` | src/snake.rs:80-84 | the head moves to y+1 with x unchanged (requires y < 65535) and the body follows |
| `Snakes.NextHead` | src/snake.rs:52-93 | the head `move_snake` computes is the old head or one of its four neighbours, and it is the old head exactly when moving Left at x = 0 or Up at y = 0 |
| `Snakes.NextHeadIsUnitStep` | src/snake.rs:52-84 | away from coordinate 0 the new head is the old head plus the unit vector of the direction; at 0, Left and Up leave it where it was |
| `Snakes.Snake.MoveSnake` | src/snake.rs:86-93 | moves in the current direction and does not change the direction |
| `Snakes.Snake.AddSegmentBody` | src/snake.rs:95-97 | appends the given cell at the tail |
| `Scenes.IsSnakeOutOfBound` | src/scene.rs:93-101 | true iff the head is not strictly inside the border band: `x ≤ bw`, `x ≥ width−bw`, `y ≤ bw` or `y ≥ height−bw` (requires `bw ≤ width, height`) |
| `Scenes.OutOfBoundOnlyHead` | src/scene.rs:94-95 | bodies with the same head get the same answer |
| `Scenes.EdgeIsOutOfBound` | src/scene.rs:96-97 | a head on column 0 or row 0 is out of bounds for every border width, 0 included |
| `Scenes.Scan` | src/scene.rs:103-112 | the loop's scan from a `seen` list: a cell it returns occurs in the input and was either already seen or occurs there at least twice; when it returns nothing, no input cell was in `seen` |
| `Scenes.FindDuplicate` | src/scene.rs:103-112 | a cell it returns occurs at least twice in the input |
| `Scenes.ScanFromNone` | src/scene.rs:103-112 | scanning from index k with `v[..k]` seen finds nothing iff no later cell repeats an earlier one |
| `Scenes.ScanFromSome` | src/scene.rs:103-112 | when the scan from index k finds a cell, it is the first cell from k on that repeats an earlier one |
| `Scenes.FindDuplicateNoneIff` | src/scene.rs:103-112 | `None` iff the cells are pairwise distinct |
| `Scenes.FindDuplicateIsFirstRepeat` | src/scene.rs:103-112 | `Some(t)`: `t` is `v[j]` for the smallest `j` with `v[j] = v[i]` for some `i < j` |
| `Scenes.FindDuplicateTuples` | src/scene.rs:103-112 | the loop, with invariant `seen = v[..k]`, returns exactly what the scan specifies; `None` iff the cells are distinct |
| `Scenes.IsSnakeTouchHimself` | src/scene.rs:114-119 | true iff the body holds a repeated cell; never for a one-cell body |
| `Scenes.DistinctIffAllCellsDifferent` | src/scene.rs:114-119 | a body is free of repeats iff its set of cells is as large as its length, and the set is never larger |
| `Game.StartWorld` | src/main.rs:23-28 | the board is `min(150, term_width)` by `min(40, term_height)` with border 1; a one-cell snake sits at `(width/2, height/2)` heading Down; the game is not lost and no growth is pending |
| `Game.InitGame` | src/main.rs:23-30 | `init_game` builds a fresh snake and a scene that together are the start state |
| `Game.StartCollidesIff` | src/main.rs:23-28 | a fresh game is not lost at once iff the terminal is at least 4 by 4 |
| `Game.Restart` | src/main.rs:106-115 | the restarted state is a one-cell snake at the centre of the fresh board, heading Down, not lost, with the growth flag kept from before |
| `Game.Collides` | src/main.rs:125 | true iff the head is outside the open interior or the body holds a repeated cell |
| `Game.Accept` | src/main.rs:94-105 | an arrow key is kept iff the direction it names is not the reverse of the heading, and then that direction is kept |
| `Game.HandleEvent` | src/main.rs:90-121 | one event: it quits iff it is Esc outside a pause; it changes the state only when it is Enter on a lost game, and then it restarts it; a direction it newly keeps is never the reverse of the current heading (a direction kept before a restart stays, and may be the reverse of the fresh heading) |
| `Game.DrainEvents` | src/main.rs:86-123 | the drain either quits, and then Esc was among the events, or leaves the state valid; the state is unchanged unless the game was lost, Enter was among the events, and the state is the restarted one |
| `Game.Step` | src/main.rs:85-152 | one tick gives a valid state, and the game exits only if Esc was read |
| `Game.ReverseNeverAccepted` | src/main.rs:94-105 | an arrow key for the reverse of the heading is never kept |
| `Game.DrainKeepsWorld` | src/main.rs:86-123 | without a restart the drain keeps the state, and the direction it keeps is never the reverse of the heading at tick start |
| `Game.DrainKeepsLastAccepted` | src/main.rs:86-123 | with no pause and no restart, the drain quits iff Esc was read, and otherwise keeps the last accepted direction; every key is judged against the heading at tick start |
| `Game.NoReversal` | src/main.rs:94-135 | in a running game, the heading after a tick is never the reverse of the heading before it |
| `Game.CollisionFreezes` | src/main.rs:125-130 | on a collision the game becomes lost and the snake neither turns nor moves; a lost game without Enter stays exactly as it is |
| `Game.MoveInPlay` | src/main.rs:133-149 | without a collision the head takes one true unit step in the new heading and the body follows; the length grows by the previous tick's food flag; the flag becomes this tick's food result |
| `Game.StartIsConsistent` | src/main.rs:73-82 | the start state satisfies `Consistent`, the invariant that `StepKeepsConsistent` preserves: a non-empty body, and not lost |
| `Game.StepKeepsConsistent` | src/main.rs:85-152 | every tick preserves `Consistent`: the body stays non-empty and the game is marked lost only when its snake collides |
| `Game.EnterRestarts` | src/main.rs:106-115 | on a terminal at least 4 by 4 (so the fresh snake does not collide at once), Enter on a lost game restarts it at the centre heading Down and moves one cell down in the same tick; the old growth flag still applies |
| `Game.DirectionSurvivesRestart` | src/main.rs:86-135 | on a terminal at least 4 by 4, a lost game whose heading is not Down (so Up is accepted against it), Up then Enter in one batch restarts it and the fresh snake, spawned heading Down, turns Up and moves up in the same tick, because the kept direction is not reset |
| `Game.ThreeTicksDown` | src/main.rs:125-149 | on a 10×10 board with border 1, a snake at (5,5) heading Down is at (5,8) after three ticks with no input, still in play |
| `Game.Session.constructor` | src/main.rs:73-82 | the session starts in the start state |
| `Game.Session.Tick` | src/main.rs:85-152 | one pass of the loop of `main` (drain, collision test, turn, move, food flag) returns quit or the new state exactly as `Step` gives them |

## Left out

- Terminal I/O is not modelled: raw mode, the alternate screen, the cursor, `clear`, `exit_game`, the LOST and pause messages, and every drawing method of the scene (`clear_snake`, `draw_border`, `draw_snake`). The scene's output handle is not part of the model.
- Food (`add_fruit`, `draw_fruit`, `snake_ate_food`) is not defined in the scene file shown. Whether the snake ate after its move is a boolean parameter of `Step` and `Tick`, and placing food is not modelled.
- The terminal size that `init_game` reads is a parameter. `Step` and `Tick` require it to be at least 1 by 1, so that `width − border_width` and `height − border_width` cannot underflow.
- Pause (`pause_game`) blocks until Space. In the model, a `paused` flag in the drain swallows every event until the next Space, Esc included. A batch that ends while paused is treated as if the Space came after it.
- The 100 ms sleep and the blocking reads are wall-clock behaviour and are not modelled.
- Snakes.Snake.MoveRight: the `u16` overflow panic at x = 65535 is excluded by a precondition. In play it cannot happen, because a head inside the border has x < width ≤ 65535.
- Snakes.Snake.MoveDown: the same precondition, for y = 65535.
- Scenes.IsSnakeOutOfBound: requires `bw ≤ width` and `bw ≤ height` outright. The source's short-circuit `||` skips some of the subtractions, and the model does not capture that.
- Game.DrainKeepsLastAccepted: stated only for batches with no Space and no restart, because a pause or a restart changes which keys are judged and against which heading.
