/**
 * The snake: a double-ended body of cells (head at the front), a committed
 * heading and a buffered heading. The body edits of an update (push the new
 * head, pop the tail) and of a grow (duplicate the tail) are specified by the
 * value functions Advance and Grown; the class Snake performs them in place.
 */
module SnakeModel {
  import opened Grid

  /** Every cell of the body lies on the playfield. */
  predicate AllInGrid(body: seq<Cell>) {
    forall i :: 0 <= i < |body| ==> InGrid(body[i])
  }

  /** The body a new snake starts with: three cells in a row on the middle line, head rightmost. */
  function InitialBody(): seq<Cell> {
    [Cell(4, MapSize / 2), Cell(3, MapSize / 2), Cell(2, MapSize / 2)]
  }

  /**
   * The body after one movement step in heading d: the stepped head is new
   * at the front, every old cell moves one place back and the last one is
   * dropped, so the length does not change.
   */
  function Advance(body: seq<Cell>, d: Direction): (r: seq<Cell>)
    requires |body| > 0
    ensures |r| == |body|
    ensures r[0] == Step(body[0], d)
    ensures forall i :: 1 <= i < |r| ==> r[i] == body[i - 1]
    ensures AllInGrid(body) ==> AllInGrid(r)
  {
    [Step(body[0], d)] + body[..|body| - 1]
  }

  /** The body after a grow: one more cell, a copy of the tail, at the back; all earlier cells as before. */
  function Grown(body: seq<Cell>): (r: seq<Cell>)
    requires |body| > 0
    ensures |r| == |body| + 1
    ensures forall i :: 0 <= i < |body| ==> r[i] == body[i]
    ensures r[|body|] == body[|body| - 1]
    ensures AllInGrid(body) ==> AllInGrid(r)
  {
    body + [body[|body| - 1]]
  }

  /** Whether c occurs in s at some index from i on (the `iter().skip(i).any(== c)` query). */
  function OccursFrom(s: seq<Cell>, c: Cell, i: nat): (r: bool)
    requires i <= |s|
    ensures r <==> exists j :: i <= j < |s| && s[j] == c
    decreases |s| - i
  {
    if i == |s| then false else s[i] == c || OccursFrom(s, c, i + 1)
  }

  /** The self-collision query: some cell other than the head equals the head. */
  function SelfCollision(body: seq<Cell>): (r: bool)
    requires |body| > 0
    ensures r <==> exists i :: 1 <= i < |body| && body[i] == body[0]
  {
    OccursFrom(body, body[0], 1)
  }

  /** A new snake has three cells on the grid and does not collide with itself. */
  lemma InitialBodyFacts()
    ensures |InitialBody()| == 3
    ensures AllInGrid(InitialBody())
    ensures !SelfCollision(InitialBody())
  {
  }

  /** A body whose cells are pairwise distinct never reports a collision. */
  lemma DistinctNoCollision(body: seq<Cell>)
    requires |body| > 0
    requires forall i, j :: 0 <= i < j < |body| ==> body[i] != body[j]
    ensures !SelfCollision(body)
  {
  }

  /**
   * A grow followed by an update pops only the duplicated tail: the net effect
   * is the new head pushed in front of the whole old body, one cell longer.
   */
  lemma GrowThenAdvance(body: seq<Cell>, d: Direction)
    requires |body| > 0
    ensures Advance(Grown(body), d) == [Step(body[0], d)] + body
    ensures |Advance(Grown(body), d)| == |body| + 1
  {
  }

  /**
   * Growing a snake of at least two cells that does not collide keeps it
   * collision-free: the copied tail is not the head.
   */
  lemma GrowKeepsNoCollision(body: seq<Cell>)
    requires |body| >= 2
    requires !SelfCollision(body)
    ensures !SelfCollision(Grown(body))
  {
  }

  /** One step of the new snake heading right: [(4,25),(3,25),(2,25)] becomes [(5,25),(4,25),(3,25)]. */
  lemma InitialAdvance()
    ensures Advance(InitialBody(), Right) == [Cell(5, 25), Cell(4, 25), Cell(3, 25)]
  {
  }

  /** A head at (49,25) heading right reappears at (0,25). */
  lemma WrapScenario(body: seq<Cell>)
    requires |body| > 0 && body[0] == Cell(49, 25)
    ensures Advance(body, Right)[0] == Cell(0, 25)
  {
  }

  class Snake {
    var body: seq<Cell>
    var direction: Direction
    var nextDirection: Direction

    /** A new snake: the initial body, heading right with nothing else buffered. */
    constructor ()
      ensures body == InitialBody()
      ensures direction == Right && nextDirection == Right
    {
      body := [];
      direction := Right;
      nextDirection := Right;
      body := body + [Cell(4, MapSize / 2)];
      body := body + [Cell(3, MapSize / 2)];
      body := body + [Cell(2, MapSize / 2)];
    }

    /**
     * One movement tick: commit the buffered heading unless it reverses the
     * current one, then push the stepped head to the front and pop the tail.
     * The buffered heading is left as it was.
     */
    method Update()
      requires |body| > 0
      modifies this
      ensures direction == Arbitrate(old(direction), old(nextDirection))
      ensures nextDirection == old(nextDirection)
      ensures body == Advance(old(body), direction)
    {
      direction := Arbitrate(direction, nextDirection);

      var newHead := Step(body[0], direction);
      body := [newHead] + body;
      body := body[..|body| - 1];
    }

    /** Duplicate the tail cell at the back of the body. */
    method Grow()
      requires |body| > 0
      modifies this
      ensures body == Grown(old(body))
      ensures direction == old(direction) && nextDirection == old(nextDirection)
    {
      var tail := body[|body| - 1];
      body := body + [tail];
    }
  }
}
