/**
 * The update half of one frame of the game loop: buffer the pressed arrow
 * keys, advance the snake on every GameSpeed-th frame, end the game on a
 * self-collision, and on reaching the food respawn it and grow the snake.
 */
module GameLoop {
  import opened Grid
  import opened SnakeModel
  import opened FoodModel

  /** The arrow keys pressed during one frame. */
  datatype Keys = Keys(right: bool, down: bool, left: bool, up: bool)

  /** Whether the arrow key for heading d was pressed. */
  predicate Pressed(keys: Keys, d: Direction) {
    match d
    case Right => keys.right
    case Down => keys.down
    case Left => keys.left
    case Up => keys.up
  }

  /** Position of d in the order the keys are polled: right, down, left, up. */
  function PollRank(d: Direction): nat {
    match d
    case Right => 0
    case Down => 1
    case Left => 2
    case Up => 3
  }

  /** A pressed key is accepted when its heading does not reverse the committed one. */
  predicate Accepted(keys: Keys, direction: Direction, d: Direction) {
    Pressed(keys, d) && d != Opposite(direction)
  }

  /**
   * The buffered heading after polling: the accepted key polled last wins;
   * with no accepted key the buffer keeps its old value.
   */
  function BufferInput(direction: Direction, next: Direction, keys: Keys): (r: Direction)
    ensures (forall d :: !Accepted(keys, direction, d)) ==> r == next
    ensures (exists d :: Accepted(keys, direction, d)) ==>
      Accepted(keys, direction, r) &&
      forall d :: Accepted(keys, direction, d) ==> PollRank(d) <= PollRank(r)
    ensures next != Opposite(direction) ==> r != Opposite(direction)
  {
    if Accepted(keys, direction, Up) then Up
    else if Accepted(keys, direction, Left) then Left
    else if Accepted(keys, direction, Down) then Down
    else if Accepted(keys, direction, Right) then Right
    else next
  }

  /**
   * Within the game the buffer never holds a reversal of the committed
   * heading, so the update-time guard always commits the buffered heading.
   */
  lemma ArbitrateAcceptsBuffered(direction: Direction, next: Direction, keys: Keys)
    requires next != Opposite(direction)
    ensures Arbitrate(direction, BufferInput(direction, next, keys)) == BufferInput(direction, next, keys)
  {
  }

  /**
   * The body after the tick-gated movement of a frame numbered frame
   * (src/main.rs:174-176): advanced on every GameSpeed-th frame, else as it was.
   */
  function Moved(body: seq<Cell>, heading: Direction, frame: nat): seq<Cell>
    requires |body| > 0
  {
    if frame % GameSpeed == 0 then Advance(body, heading) else body
  }

  /**
   * A frame in which the snake eats ends with the body one cell longer than
   * at the start of the frame, whether or not the snake moved.
   */
  lemma EatFrameLength(body: seq<Cell>, heading: Direction, frame: nat)
    requires |body| > 0
    ensures |Grown(Moved(body, heading, frame))| == |body| + 1
  {
  }

  class Game {
    var snake: Snake
    var food: Food
    var frameCount: nat

    /**
     * The state every frame keeps: at least three cells, all on the grid, the
     * food on the grid, and a buffered heading that does not reverse the
     * committed one.
     */
    ghost predicate Valid()
      reads this, snake, food
    {
      |snake.body| >= 3 &&
      AllInGrid(snake.body) &&
      InGrid(food.position) &&
      snake.nextDirection != Opposite(snake.direction)
    }

    /** The start of a game: a new snake, food somewhere, frame 0. */
    constructor ()
      ensures Valid() && fresh(snake) && fresh(food)
      ensures snake.body == InitialBody()
      ensures snake.direction == Right && snake.nextDirection == Right
      ensures !SelfCollision(snake.body)
      ensures frameCount == 0
    {
      snake := new Snake();
      food := new Food();
      frameCount := 0;
      InitialBodyFacts();
    }

    /**
     * The input guard: each pressed arrow key, polled in the order right,
     * down, left, up, overwrites the buffered heading unless it reverses the
     * committed heading.
     */
    method PollKeys(keys: Keys)
      modifies snake
      ensures snake.nextDirection == BufferInput(old(snake.direction), old(snake.nextDirection), keys)
      ensures snake.body == old(snake.body) && snake.direction == old(snake.direction)
    {
      if keys.right && snake.direction != Left {
        snake.nextDirection := Right;
      }
      if keys.down && snake.direction != Up {
        snake.nextDirection := Down;
      }
      if keys.left && snake.direction != Right {
        snake.nextDirection := Left;
      }
      if keys.up && snake.direction != Down {
        snake.nextDirection := Up;
      }
    }

    /**
     * One frame. Returns whether the snake ran into itself, which ends the
     * game; in that case the frame counter is not advanced.
     */
    method Frame(keys: Keys) returns (collided: bool)
      requires Valid()
      modifies snake, food, this
      ensures Valid()
      ensures snake == old(snake) && food == old(food)
      // input guard
      ensures snake.nextDirection == BufferInput(old(snake.direction), old(snake.nextDirection), keys)
      // tick gating: the snake turns and moves exactly on every GameSpeed-th frame
      ensures snake.direction ==
        if old(frameCount) % GameSpeed == 0 then Arbitrate(old(snake.direction), snake.nextDirection)
        else old(snake.direction)
      ensures old(frameCount) % GameSpeed == 0 ==> snake.direction == snake.nextDirection
      // collision, food and frame counter
      ensures var moved := Moved(old(snake.body), snake.direction, old(frameCount));
        && collided == SelfCollision(moved)
        && (collided ==>
              snake.body == moved && food.position == old(food.position) &&
              frameCount == old(frameCount))
        && (!collided && moved[0] == old(food.position) ==>
              snake.body == Grown(moved) && frameCount == old(frameCount) + 1)
        && (!collided && moved[0] != old(food.position) ==>
              snake.body == moved && food.position == old(food.position) &&
              frameCount == old(frameCount) + 1)
      ensures |snake.body| >= old(|snake.body|)
      ensures !collided && Moved(old(snake.body), snake.direction, old(frameCount))[0] == old(food.position) ==>
        |snake.body| == old(|snake.body|) + 1
      // a frame without movement cannot start a collision
      ensures old(frameCount) % GameSpeed != 0 && !old(SelfCollision(snake.body)) ==> !collided
    {
      ghost var body0, next0 := snake.body, snake.nextDirection;
      PollKeys(keys);

      if frameCount % GameSpeed == 0 {
        ArbitrateAcceptsBuffered(snake.direction, next0, keys);
        snake.Update();
      }
      ghost var moved := snake.body;
      assert moved == Moved(body0, snake.direction, frameCount);

      collided := SelfCollision(snake.body);
      if collided {
        return;
      }

      if snake.body[0] == food.position {
        food.Respawn();
        snake.Grow();
        GrowKeepsNoCollision(moved);
        EatFrameLength(body0, snake.direction, frameCount);
      }

      frameCount := frameCount + 1;
    }
  }
}
