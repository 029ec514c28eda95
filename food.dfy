/**
 * The food: one cell of the playfield, placed at random. The random number
 * generator is modelled as an arbitrary choice of each coordinate in
 * [0, MapSize - 1]; no distribution is specified, and the choice may fall on
 * a cell the snake occupies or on the old position.
 */
module FoodModel {
  import opened Grid

  class Food {
    var position: Cell

    /** New food somewhere on the grid. */
    constructor ()
      ensures InGrid(position)
    {
      var x :| 0 <= x <= MapSize - 1;
      var y :| 0 <= y <= MapSize - 1;
      position := Cell(x, y);
    }

    /** Move the food to some cell of the grid. */
    method Respawn()
      modifies this
      ensures InGrid(position)
    {
      var x :| 0 <= x <= MapSize - 1;
      var y :| 0 <= y <= MapSize - 1;
      position := Cell(x, y);
    }
  }
}
