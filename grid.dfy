/**
 * The playfield of the snake game: a square torus of MapSize x MapSize cells,
 * the four headings, the reverse-direction relation and one step of the head
 * with wraparound at the edges.
 */
module Grid {
  /** Side of the square playfield, in cells (MAP_SIZE). */
  const MapSize: int := 50

  /** Number of frames per movement tick (GAME_SPEED). */
  const GameSpeed: nat := 5

  datatype Direction = Right | Down | Left | Up

  /** A grid cell. The coordinates are floats in the program, but they only ever hold integers. */
  datatype Cell = Cell(x: int, y: int)

  predicate InGrid(c: Cell) {
    0 <= c.x < MapSize && 0 <= c.y < MapSize
  }

  /** The heading that points back the way d came. */
  function Opposite(d: Direction): Direction {
    match d
    case Right => Left
    case Down => Up
    case Left => Right
    case Up => Down
  }

  /**
   * Direction arbitration at the start of an update: the buffered heading
   * `next` is committed unless it would reverse the snake into its own neck.
   */
  function Arbitrate(direction: Direction, next: Direction): (r: Direction)
    ensures next == Opposite(direction) ==> r == direction
    ensures next != Opposite(direction) ==> r == next
  {
    if direction != next then
      match direction
      case Right => if next != Left then next else direction
      case Down => if next != Up then next else direction
      case Left => if next != Right then next else direction
      case Up => if next != Down then next else direction
    else
      direction
  }

  /**
   * Wraparound of one coordinate after a unit step: at or past the high edge
   * it becomes 0, below the low edge it becomes MapSize - 1.
   */
  function Wrap(v: int): (r: int)
    ensures 0 <= r < MapSize
    ensures 0 <= v < MapSize ==> r == v
    ensures -1 <= v <= MapSize ==> r == v % MapSize
  {
    var v' := if v >= MapSize then 0 else v;
    if v' < 0 then MapSize - 1 else v'
  }

  /** Horizontal offset of one step in direction d. */
  function Dx(d: Direction): int {
    match d
    case Right => 1
    case Left => -1
    case _ => 0
  }

  /** Vertical offset of one step in direction d (y grows downwards). */
  function Dy(d: Direction): int {
    match d
    case Down => 1
    case Up => -1
    case _ => 0
  }

  /**
   * The cell one step from c in direction d, wrapped onto the torus. The
   * result is always on the grid, and for a cell on the grid it is the
   * neighbour modulo MapSize in both axes.
   */
  function Step(c: Cell, d: Direction): (r: Cell)
    ensures InGrid(r)
    ensures InGrid(c) ==> r == Cell((c.x + Dx(d)) % MapSize, (c.y + Dy(d)) % MapSize)
    ensures InGrid(c) ==> r != c
  {
    var moved := match d
      case Right => c.(x := c.x + 1)
      case Down => c.(y := c.y + 1)
      case Left => c.(x := c.x - 1)
      case Up => c.(y := c.y - 1);
    Cell(Wrap(moved.x), Wrap(moved.y))
  }

  /** Reversal is a symmetric relation without fixed points. */
  lemma OppositeInvolution(d: Direction)
    ensures Opposite(Opposite(d)) == d
    ensures Opposite(d) != d
  {
  }

  /** A committed heading never reverses the current one. */
  lemma ArbitrateNeverReverses(direction: Direction, next: Direction)
    ensures Arbitrate(direction, next) != Opposite(direction)
  {
  }

  /** Stepping back the opposite way returns to the start cell. */
  lemma StepUndo(c: Cell, d: Direction)
    requires InGrid(c)
    ensures Step(Step(c, d), Opposite(d)) == c
  {
  }

  /** The four edge crossings: each lands on the opposite edge, the other axis kept. */
  lemma StepAtEdges(k: int)
    requires 0 <= k < MapSize
    ensures Step(Cell(MapSize - 1, k), Right) == Cell(0, k)
    ensures Step(Cell(0, k), Left) == Cell(MapSize - 1, k)
    ensures Step(Cell(k, MapSize - 1), Down) == Cell(k, 0)
    ensures Step(Cell(k, 0), Up) == Cell(k, MapSize - 1)
  {
  }
}
