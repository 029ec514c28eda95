# Snake game model

A Dafny model of the simulation core of a single-player snake game. A snake moves on a 50 x 50 toroidal grid. It grows when its head reaches the food, and the game ends when the head runs into the rest of the body.

The model has four modules:

- `Grid` (grid.dfy) holds the playfield constants: `MapSize` = 50 and `GameSpeed` = 5. It also holds the `Direction` enum and the `Cell` coordinate pair. Its pure functions are the reverse-direction relation (`Opposite`), the update-time direction arbitration (`Arbitrate`), the per-axis wraparound (`Wrap`) and one step of the head (`Step`).
- `SnakeModel` (snake.dfy) holds the value-level body edits: `Advance` pushes the stepped head and pops the tail, and `Grown` duplicates the tail. It also holds the self-collision query (`SelfCollision`, built on `OccursFrom`). The class `Snake` has the fields `body`, `direction` and `nextDirection`. Its methods `Update` and `Grow` change those fields in place. Their contracts tie the new state to the value functions.
- `FoodModel` (food.dfy) holds the class `Food`. Its position is chosen nondeterministically (`:|`) in `[0, 49]` on each axis.
- `GameLoop` (game.dfy) holds the update half of one frame of the main loop. `Game.PollKeys` is the input guard. `Game.Frame` runs the input guard, then the tick-gated update, then the self-collision check, then food consumption, and finally increments the frame counter. `Game.Valid` is the invariant every frame keeps:
  - the body has at least three cells;
  - every cell of the body and the food are on the grid;
  - the buffered heading never reverses the committed one.

  Because of that last clause, the second reverse-direction guard inside `Snake::update` always commits the buffered heading during a game. `Frame` proves this: after every movement frame, `direction == nextDirection`.

Coordinates are integers. The program stores them as `f32`, but they only ever hold integral values in `[0, 50)`. The pressed arrow keys of a frame are an input parameter (`Keys`).

The self-collision check and the food check run on every frame, not only on movement frames (src/main.rs:178-185). So on a frame without movement the food check can fire again if the food respawned under the head. `Frame` also proves that a frame without movement cannot create a collision.

## Model

| member | source | states |
|---|---|---|
| Grid.Arbitrate | src/main.rs:44-60 | the buffered heading is committed exactly when it is not the reverse of the current heading; otherwise the heading is unchanged |
| Grid.ArbitrateNeverReverses | src/main.rs:44-60 | arbitration never yields the reverse of the current heading |
| Grid.OppositeInvolution | src/main.rs:46-57 | the reverse relation pairs RIGHT/LEFT and DOWN/UP: it is its own inverse and has no fixed point |
| Grid.Wrap | src/main.rs:71-82 | a wrapped coordinate always lies in [0, 50); an in-range value is kept; for values in [-1, 50] it equals the value modulo 50 |
| Grid.Step | src/main.rs:62-82 | the new head is always on the grid; from a cell on the grid it is the neighbour in the heading modulo 50 on both axes, and differs from the old head |
| Grid.StepUndo | src/main.rs:62-82 | from any cell on the grid, a step followed by a step in the opposite heading returns to the start cell |
| Grid.StepAtEdges | src/main.rs:71-82 | RIGHT from x=49 gives x=0, LEFT from x=0 gives x=49, DOWN from y=49 gives y=0, UP from y=0 gives y=49, with the other axis unchanged |
| SnakeModel.Advance | src/main.rs:62-85 | the body after an update keeps its length; cell 0 is the stepped head; cell i is the old cell i-1; a body on the grid stays on the grid |
| SnakeModel.Grown | src/main.rs:88-91 | a grown body is one cell longer; its last cell equals the old last cell; all earlier cells are unchanged |
| SnakeModel.OccursFrom | src/main.rs:178 | the `skip(i).any(== c)` query is true exactly when some index j >= i holds c |
| SnakeModel.SelfCollision | src/main.rs:178 | collision holds exactly when some index i >= 1 has body[i] == body[0] |
| SnakeModel.InitialBodyFacts | src/main.rs:30-41 | the initial body has three cells, all on the grid, and does not collide |
| SnakeModel.DistinctNoCollision | src/main.rs:178 | a body with pairwise distinct cells reports no collision |
| SnakeModel.GrowThenAdvance | src/main.rs:84-91 | a grow followed by an update equals the new head pushed before the whole old body; the length is the old length + 1 |
| SnakeModel.GrowKeepsNoCollision | src/main.rs:88-91 | growing a collision-free body of two or more cells keeps it collision-free |
| SnakeModel.InitialAdvance | src/main.rs:30-85 | the initial snake heading RIGHT moves from [(4,25),(3,25),(2,25)] to [(5,25),(4,25),(3,25)] |
| SnakeModel.WrapScenario | src/main.rs:71-73 | a head at (49,25) heading RIGHT moves to (0,25) |
| SnakeModel.Snake.constructor | src/main.rs:30-41 | a new snake has body [(4,25),(3,25),(2,25)] and direction == next_direction == RIGHT |
| SnakeModel.Snake.Update | src/main.rs:43-86 | the heading becomes the arbitrated heading; next_direction is unchanged; the body becomes the advanced body in that heading |
| SnakeModel.Snake.Grow | src/main.rs:88-91 | the body becomes the grown body; both headings are unchanged |
| FoodModel.Food.constructor | src/main.rs:114-121 | new food lies on the grid |
| FoodModel.Food.Respawn | src/main.rs:135-140 | respawned food lies on the grid (any cell, including the old one or one under the snake) |
| GameLoop.BufferInput | src/main.rs:161-172 | with no accepted key the buffer is unchanged; otherwise the buffer is the accepted key polled last (order right, down, left, up); a key is accepted when it does not reverse the committed heading; a non-reversing buffer stays non-reversing |
| GameLoop.ArbitrateAcceptsBuffered | src/main.rs:161-175 | when the buffer held no reversal, the update-time guard commits whatever the input guard buffered |
| GameLoop.EatFrameLength | src/main.rs:174-185 | for any body, heading and frame number, a frame whose moved head is on the food ends with one cell more than the frame started with |
| GameLoop.Game.constructor | src/main.rs:155-157 | the game starts valid: initial snake, food on the grid, frame 0, no collision |
| GameLoop.Game.PollKeys | src/main.rs:161-172 | next_direction becomes the buffered heading for the pressed keys; body and direction are unchanged |
| GameLoop.Game.Frame | src/main.rs:161-194 | input buffered; update exactly when frame_count % 5 == 0; collision reported on the moved body; food eaten means respawn on the grid and grow by one (length old + 1), otherwise food and body as moved; frame counter + 1 unless collided; invariant kept (details below) |

`GameLoop.Game.Frame` states the following:

- `Valid` is preserved.
- `next_direction` is the buffered input.
- The snake turns and moves exactly when `frame_count % 5 == 0`, and then `direction == next_direction`.
- The return value reports a self-collision of the moved body. On a collision, body, food and frame counter stay as they are.
- If the head is on the food, the body is the moved body grown by one cell, so its length is the old length + 1, and the food is on the grid.
- Otherwise the body is the moved body and the food is unchanged.
- The frame counter increases by 1 on every frame without a collision.
- The body never shrinks.
- A frame without movement cannot start a collision.

## Left out

- Rendering (`Snake::draw`, `Food::draw`, `begin_drawing`, `clear_background`, src/main.rs:93-106, 123-133, 188-192): these calls only draw through the graphics library and change no game state.
- Window creation, vsync, the target FPS, the `window_should_close` check and icon loading with its fatal `expect` (src/main.rs:144-153, 159): these are I/O handled by the external library. The loop is modelled as repeated calls of `Game.Frame`.
- Keyboard polling (`is_key_pressed`): each frame's pressed keys are the `Keys` parameter of `Game.Frame`.
- The random number generator `get_random_value`: each coordinate is an arbitrary choice in `[0, MapSize - 1]`. No distribution is modelled.
- Floating-point coordinates and screen-size constants: all values are integral, so they are modelled as `int`. `TILE_SIZE` appears only in drawing and in the screen size; the screen size appears only in window creation (src/main.rs:145).
- GameLoop.Game.Frame: `frame_count` is a `u32` in the program, but the model uses an unbounded `nat`. After 2^32 frames the program would panic (debug build) or wrap (release build). At 60 frames per second that is more than two years of play.
- GameLoop.Game.Frame: the method requires `Valid()`. The source has no such precondition; `Valid()` is the loop invariant that the constructor establishes and every frame keeps.
