/** The snake: its body, its heading and the heading waiting to be applied. */
module Snakes {
  import opened Wrappers
  import opened Grid

  /**
   * The heading after a pending change is resolved: the pending heading
   * is taken unless it is the reversal of the current one.
   */
  function Resolved(current: Direction, pending: Option<Direction>): (r: Direction)
    ensures r != Opposite(current)
    ensures r == current || pending == Some(r)
    ensures pending.Some? && pending.value != Opposite(current) ==> r == pending.value
  {
    if pending.Some? && pending.value != Opposite(current) then pending.value else current
  }

  /** A pending reversal is dropped and the heading kept. */
  lemma ReversalRefused(current: Direction)
    ensures Resolved(current, Some(Opposite(current))) == current
  {
  }

  /**
   * The body after one move: the next head is pushed at the front and,
   * unless the snake grows, the last segment is popped.
   */
  function Moved(body: seq<Cell>, d: Direction, grow: bool): (r: seq<Cell>)
    requires body != []
    ensures |r| == if grow then |body| + 1 else |body|
    ensures r[0] == Advance(body[0], d)
    ensures r[1..] == if grow then body else body[..|body| - 1]
    ensures AllOnBoard(body) ==> AllOnBoard(r)
  {
    var inserted := [Advance(body[0], d)] + body;
    if grow then inserted else inserted[..|inserted| - 1]
  }

  /**
   * The self-collision test: never for a snake shorter than four;
   * otherwise whenever the head recurs further down the body.
   */
  function Collides(body: seq<Cell>, length: int): (r: bool)
    requires length < 4 || body != []
    ensures length < 4 ==> !r
    ensures length >= 4 ==> (r <==> exists i :: 1 <= i < |body| && body[i] == body[0])
  {
    if length < 4 then false else body[0] in body[1..]
  }

  /** No two segments of the body share a cell. */
  ghost predicate Distinct(body: seq<Cell>)
  {
    forall i, j :: 0 <= i < j < |body| ==> body[i] != body[j]
  }

  /** A body whose segments are all distinct never collides with itself. */
  lemma DistinctBodyNeverCollides(body: seq<Cell>, length: int)
    requires body != [] && Distinct(body)
    ensures !Collides(body, length)
  {
  }

  /**
   * The shape a body keeps from tick to tick: no cell is covered twice, and
   * the head lies one step from the second segment in the current heading.
   */
  ghost predicate Shaped(body: seq<Cell>, heading: Direction)
  {
    Distinct(body) && (|body| >= 2 ==> body[0] == Advance(body[1], heading))
  }

  /**
   * Why the collision test may skip snakes shorter than four: moving a
   * shaped body in any heading but the reversal of the last one never
   * makes a body of fewer than four segments cover a cell twice.
   */
  lemma ShortMoveHasNoRepeat(body: seq<Cell>, last: Direction, d: Direction, grow: bool)
    requires body != [] && AllOnBoard(body) && Shaped(body, last)
    requires d != Opposite(last)
    requires |Moved(body, d, grow)| < 4
    ensures Distinct(Moved(body, d, grow))
  {
    var moved := Moved(body, d, grow);
    var head := moved[0];
    AdvanceMoves(body[0], d);
    if |body| >= 2 {
      AdvanceRoundTrip(body[1], last);
      if head == body[1] {
        AdvanceInjective(body[0], d, Opposite(last));
        assert false;
      }
    }
    forall i, j | 0 <= i < j < |moved|
      ensures moved[i] != moved[j]
    {
      if i > 0 {
        assert moved[i] == body[i - 1] && moved[j] == body[j - 1];
      } else {
        assert moved[j] == body[j - 1];
      }
    }
  }

  /**
   * One move of a shaped body in a heading that is not the reversal of the
   * last one, with the collision cut-back, keeps the body shaped in the
   * new heading: without a collision the head is new, and after one only
   * the head is left.
   */
  lemma MoveKeepsShape(body: seq<Cell>, length: int, last: Direction, d: Direction, grow: bool)
    requires body != [] && AllOnBoard(body) && Shaped(body, last)
    requires d != Opposite(last)
    requires length == |Moved(body, d, grow)|
    ensures var moved := Moved(body, d, grow);
            Shaped(if Collides(moved, length) then [moved[0]] else moved, d)
  {
    var moved := Moved(body, d, grow);
    if length < 4 {
      ShortMoveHasNoRepeat(body, last, d, grow);
    } else if !Collides(moved, length) {
      forall i, j | 0 <= i < j < |moved|
        ensures moved[i] != moved[j]
      {
        if i > 0 {
          assert moved[i] == body[i - 1] && moved[j] == body[j - 1];
        } else {
          assert moved[j] == moved[1..][j - 1];
        }
      }
    }
  }

  class Snake {
    var position: Cell
    var length: int
    var positions: seq<Cell>
    var direction: Direction
    var nextDirection: Option<Direction>

    /** The recorded length is the number of segments, and every segment is a cell of the field. */
    ghost predicate Valid()
      reads this
    {
      length == |positions| >= 1 && AllOnBoard(positions)
    }

    /** A one-segment snake at the centre, heading right. */
    constructor ()
      ensures Valid()
      ensures positions == [CENTER_POSITION] && length == 1 && position == CENTER_POSITION
      ensures direction == Right && nextDirection == None
      ensures Shaped(positions, direction)
    {
      position := CENTER_POSITION;
      length := 1;
      positions := [CENTER_POSITION];
      direction := Right;
      nextDirection := None;
    }

    /** Applies the pending heading unless it reverses the snake, then clears it. */
    method UpdateDirection()
      modifies this`direction, this`nextDirection
      ensures nextDirection == None
      ensures direction == Resolved(old(direction), old(nextDirection))
    {
      if nextDirection.Some? {
        if nextDirection.value != Opposite(direction) {
          direction := nextDirection.value;
        }
        nextDirection := None;
      }
    }

    /** The head segment. */
    function HeadPosition(): (c: Cell)
      reads this
      requires positions != []
      ensures Valid() ==> OnBoard(c)
    {
      positions[0]
    }

    /**
     * One step forward: pushes the next head, then pops the tail unless the
     * snake grows, in which case the length is brought up to date.
     */
    method Move(grow: bool)
      requires Valid()
      modifies this`positions, this`length
      ensures Valid()
      ensures positions == Moved(old(positions), direction, grow)
      ensures length == if grow then old(length) + 1 else old(length)
    {
      var head := HeadPosition();
      var newHead := Advance(head, direction);
      positions := [newHead] + positions;
      if !grow {
        positions := positions[..|positions| - 1];
      } else {
        length := |positions|;
      }
    }

    /** Puts the snake back to its starting state. */
    method Reset()
      modifies this
      ensures Valid()
      ensures positions == [CENTER_POSITION] && length == 1 && position == CENTER_POSITION
      ensures direction == Right && nextDirection == None
      ensures Shaped(positions, direction)
    {
      length := 1;
      positions := [CENTER_POSITION];
      direction := Right;
      nextDirection := None;
      position := CENTER_POSITION;
    }
  }
}
