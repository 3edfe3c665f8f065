/** Placing the apple on a free cell of the field. */
module Food {
  import opened Wrappers
  import opened Grid

  /** The distinct cells of a body, as a set. */
  function CellsOf(cells: seq<Cell>): (s: set<Cell>)
    ensures forall c :: c in s <==> c in cells
  {
    set c | c in cells
  }

  /** A sequence never has more distinct elements than entries. */
  lemma {:induction false} CellsOfSize(cells: seq<Cell>)
    ensures |CellsOf(cells)| <= |cells|
  {
    if cells != [] {
      CellsOfSize(cells[1..]);
      assert CellsOf(cells) == CellsOf(cells[1..]) + {cells[0]};
    }
  }

  /** The cells of the field that the given body does not cover. */
  function FreeCells(occupied: seq<Cell>): (free: set<Cell>)
    ensures forall c :: c in free <==> OnBoard(c) && c !in occupied
  {
    AllCellsAreOnBoard();
    AllCells() - CellsOf(occupied)
  }

  /** A body with fewer entries than the field has cells leaves a cell free. */
  lemma FreeCellExists(occupied: seq<Cell>)
    requires |occupied| < FIELD_WIDTH * FIELD_HEIGHT
    ensures FreeCells(occupied) != {}
  {
    var all, taken := AllCells(), CellsOf(occupied);
    AllCellsSize();
    CellsOfSize(occupied);
    assert all == (all - taken) + (all * taken);
    assert taken == (all * taken) + (taken - all);
    assert |all - taken| > 0;
  }

  class Apple {
    var position: Cell
    var occupiedPositions: seq<Cell>

    ghost predicate Valid()
      reads this
    {
      OnBoard(position)
    }

    /** A new apple, placed off the given body whenever a cell is free. */
    constructor (occupied: seq<Cell>)
      ensures Valid()
      ensures occupiedPositions == occupied
      ensures FreeCells(occupied) != {} ==> position !in occupied
    {
      position := CENTER_POSITION;
      occupiedPositions := occupied;
      new;
      RandomizePosition(None);
    }

    /**
     * Moves the apple to a cell chosen freely among the cells the occupied
     * list leaves free, or among all cells when none is free. The choice
     * stands for the random pick; its distribution is not modelled.
     */
    method RandomizePosition(occupied: Option<seq<Cell>>)
      modifies this
      ensures occupiedPositions == if occupied.Some? then occupied.value else old(occupiedPositions)
      ensures Valid() && position in AllCells()
      ensures FreeCells(occupiedPositions) != {} ==> position in FreeCells(occupiedPositions)
    {
      if occupied.Some? {
        occupiedPositions := occupied.value;
      }
      AllCellsAreOnBoard();
      var free := FreeCells(occupiedPositions);
      if free != {} {
        var p :| p in free;
        position := p;
      } else {
        CenterOnBoard();
        var p :| p in AllCells();
        position := p;
      }
    }
  }
}
