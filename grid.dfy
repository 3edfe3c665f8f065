/**
 * The playing field of the snake game: a toroidal grid of square cells,
 * addressed by the pixel coordinates of their top-left corner.
 */
module Grid {

  // The playing field.
  const CELL_SIZE: int := 20
  const FIELD_WIDTH: int := 32
  const FIELD_HEIGHT: int := 24
  const SCREEN_WIDTH: int := FIELD_WIDTH * CELL_SIZE    // 640
  const SCREEN_HEIGHT: int := FIELD_HEIGHT * CELL_SIZE  // 480

  /** A cell, as the pixel pair (x, y) of its top-left corner. */
  datatype Cell = Cell(x: int, y: int)

  /** The four headings; their pixel vectors are given by Dx and Dy. */
  datatype Direction = Up | Down | Left | Right

  function Dx(d: Direction): int
  {
    match d
    case Up => 0
    case Down => 0
    case Left => -CELL_SIZE
    case Right => CELL_SIZE
  }

  function Dy(d: Direction): int
  {
    match d
    case Up => -CELL_SIZE
    case Down => CELL_SIZE
    case Left => 0
    case Right => 0
  }

  /** A direction is fully determined by its pixel vector. */
  lemma VectorDeterminesDirection(d: Direction, e: Direction)
    requires Dx(d) == Dx(e) && Dy(d) == Dy(e)
    ensures d == e
  {
  }

  /** The table of opposite headings used to refuse a reversal. */
  function Opposite(d: Direction): (o: Direction)
    ensures Dx(o) == -Dx(d) && Dy(o) == -Dy(d)
    ensures o != d
  {
    match d
    case Up => Down
    case Down => Up
    case Left => Right
    case Right => Left
  }

  /** A cell of the field: inside the screen and aligned to the cell size. */
  predicate OnBoard(c: Cell)
  {
    0 <= c.x < SCREEN_WIDTH && 0 <= c.y < SCREEN_HEIGHT &&
    c.x % CELL_SIZE == 0 && c.y % CELL_SIZE == 0
  }

  predicate AllOnBoard(cells: seq<Cell>)
  {
    forall i :: 0 <= i < |cells| ==> OnBoard(cells[i])
  }

  /** The centre of the screen, where the snake starts. */
  const CENTER_POSITION: Cell := Cell(SCREEN_WIDTH / 2, SCREEN_HEIGHT / 2)

  lemma CenterOnBoard()
    ensures OnBoard(CENTER_POSITION)
  {
  }

  /** Every cell of the field, column index times row index. */
  function AllCells(): set<Cell>
  {
    set i, j | 0 <= i < FIELD_WIDTH && 0 <= j < FIELD_HEIGHT :: Cell(i * CELL_SIZE, j * CELL_SIZE)
  }

  /** The set of all cells holds exactly the cells of the field. */
  lemma AllCellsAreOnBoard()
    ensures forall c :: c in AllCells() <==> OnBoard(c)
  {
    forall c | OnBoard(c)
      ensures c in AllCells()
    {
      var i, j := c.x / CELL_SIZE, c.y / CELL_SIZE;
      assert Cell(i * CELL_SIZE, j * CELL_SIZE) == c;
    }
  }

  /** The first `m` cells of column `i`. */
  ghost function ColumnPart(i: int, m: int): set<Cell>
  {
    set j | 0 <= j < m :: Cell(i * CELL_SIZE, j * CELL_SIZE)
  }

  lemma {:induction false} ColumnPartSize(i: int, m: nat)
    ensures |ColumnPart(i, m)| == m
  {
    if m > 0 {
      var last := Cell(i * CELL_SIZE, (m - 1) * CELL_SIZE);
      ColumnPartSize(i, m - 1);
      assert ColumnPart(i, m) == ColumnPart(i, m - 1) + {last};
      assert last !in ColumnPart(i, m - 1);
    }
  }

  /** The cells of the first `n` columns. */
  ghost function FirstColumns(n: int): set<Cell>
  {
    set i, j | 0 <= i < n && 0 <= j < FIELD_HEIGHT :: Cell(i * CELL_SIZE, j * CELL_SIZE)
  }

  lemma {:induction false} FirstColumnsSize(n: nat)
    ensures |FirstColumns(n)| == n * FIELD_HEIGHT
  {
    if n > 0 {
      var column := ColumnPart(n - 1, FIELD_HEIGHT);
      FirstColumnsSize(n - 1);
      ColumnPartSize(n - 1, FIELD_HEIGHT);
      assert FirstColumns(n) == FirstColumns(n - 1) + column;
      assert FirstColumns(n - 1) * column == {};
    }
  }

  /** The field has FIELD_WIDTH times FIELD_HEIGHT cells. */
  lemma AllCellsSize()
    ensures |AllCells()| == FIELD_WIDTH * FIELD_HEIGHT
  {
    FirstColumnsSize(FIELD_WIDTH);
    assert AllCells() == FirstColumns(FIELD_WIDTH);
  }

  /**
   * One step from `c` in direction `d`, wrapping around at the edges.
   * Python's `%` with a positive divisor never yields a negative result,
   * and neither does Dafny's.
   */
  function Advance(c: Cell, d: Direction): (n: Cell)
    ensures 0 <= n.x < SCREEN_WIDTH && 0 <= n.y < SCREEN_HEIGHT
    ensures OnBoard(c) ==> OnBoard(n)
  {
    Cell((c.x + Dx(d)) % SCREEN_WIDTH, (c.y + Dy(d)) % SCREEN_HEIGHT)
  }

  /**
   * The wrap without the modulo: inside the screen a step adds the vector;
   * leaving one edge re-enters at the opposite edge at the same offset.
   */
  lemma AdvanceWraps(c: Cell, d: Direction)
    requires 0 <= c.x < SCREEN_WIDTH && 0 <= c.y < SCREEN_HEIGHT
    ensures var x, y := c.x + Dx(d), c.y + Dy(d);
            Advance(c, d) ==
              Cell(if x < 0 then x + SCREEN_WIDTH else if x >= SCREEN_WIDTH then x - SCREEN_WIDTH else x,
                   if y < 0 then y + SCREEN_HEIGHT else if y >= SCREEN_HEIGHT then y - SCREEN_HEIGHT else y)
  {
  }

  /** A step and a step back in the opposite direction return to the start. */
  lemma AdvanceRoundTrip(c: Cell, d: Direction)
    requires 0 <= c.x < SCREEN_WIDTH && 0 <= c.y < SCREEN_HEIGHT
    ensures Advance(Advance(c, d), Opposite(d)) == c
  {
    AdvanceWraps(c, d);
    AdvanceWraps(Advance(c, d), Opposite(d));
  }

  /** A step always leaves the cell it starts from. */
  lemma AdvanceMoves(c: Cell, d: Direction)
    requires 0 <= c.x < SCREEN_WIDTH && 0 <= c.y < SCREEN_HEIGHT
    ensures Advance(c, d) != c
  {
    AdvanceWraps(c, d);
  }

  /** From a given cell, different headings lead to different cells. */
  lemma AdvanceInjective(c: Cell, d: Direction, e: Direction)
    requires 0 <= c.x < SCREEN_WIDTH && 0 <= c.y < SCREEN_HEIGHT
    requires Advance(c, d) == Advance(c, e)
    ensures d == e
  {
    AdvanceWraps(c, d);
    AdvanceWraps(c, e);
  }
}
