/** Keyboard steering and the per-tick step of the main loop. */
module Game {
  import opened Wrappers
  import opened Grid
  import opened Food
  import opened Snakes

  /** The keys the game reacts to; every other key is `OtherKey`. */
  datatype Key = KeyUp | KeyDown | KeyLeft | KeyRight | KeyEscape | OtherKey

  /** The heading an arrow key asks for. */
  function ArrowHeading(key: Key): Option<Direction>
  {
    match key
    case KeyUp => Some(Up)
    case KeyDown => Some(Down)
    case KeyLeft => Some(Left)
    case KeyRight => Some(Right)
    case _ => None
  }

  /** Two headings at right angles: their pixel vectors are orthogonal. */
  predicate Perpendicular(a: Direction, b: Direction)
  {
    Dx(a) * Dx(b) + Dy(a) * Dy(b) == 0
  }

  /**
   * The steering table, keyed by the pressed key and the current heading:
   * an arrow key turns the snake only at a right angle.
   */
  function KeyDirection(key: Key, current: Direction): (r: Option<Direction>)
    ensures r.Some? <==> ArrowHeading(key).Some? && Perpendicular(ArrowHeading(key).value, current)
    ensures r.Some? ==> r == ArrowHeading(key)
    ensures r.Some? ==> r.value != current && r.value != Opposite(current)
  {
    match (key, current)
    case (KeyUp, Right) => Some(Up)
    case (KeyUp, Left) => Some(Up)
    case (KeyDown, Right) => Some(Down)
    case (KeyDown, Left) => Some(Down)
    case (KeyLeft, Up) => Some(Left)
    case (KeyLeft, Down) => Some(Left)
    case (KeyRight, Up) => Some(Right)
    case (KeyRight, Down) => Some(Right)
    case _ => None
  }

  /** A turn requested by the steering table is never refused as a reversal. */
  lemma SteeredTurnIsTaken(key: Key, current: Direction)
    requires KeyDirection(key, current).Some?
    ensures Resolved(current, KeyDirection(key, current)) == KeyDirection(key, current).value
  {
  }

  /**
   * A key press: Escape asks to quit; a key found in the steering table
   * becomes the pending heading; any other key changes nothing.
   */
  method HandleKey(key: Key, snake: Snake) returns (quit: bool)
    modifies snake`nextDirection
    ensures quit <==> key == KeyEscape
    ensures snake.nextDirection ==
              if !quit && KeyDirection(key, snake.direction).Some?
              then KeyDirection(key, snake.direction) else old(snake.nextDirection)
  {
    if key == KeyEscape {
      return true;
    }
    var newDirection := KeyDirection(key, snake.direction);
    if newDirection.Some? {
      snake.nextDirection := newDirection;
    }
    return false;
  }

  /** What one tick does to the body, and the tail cell the renderer must erase. */
  datatype TickResult = TickResult(positions: seq<Cell>, length: int, grew: bool, lastTail: Option<Cell>)

  /**
   * One tick on values, for a body moving in the already resolved heading
   * `d` towards an apple at `apple`.
   */
  function Tick(body: seq<Cell>, length: int, d: Direction, apple: Cell): (t: TickResult)
    requires body != []
    ensures t.grew <==> Advance(body[0], d) == apple
    ensures t.positions != [] && t.positions[0] == Advance(body[0], d)
    ensures length == |body| ==> t.length == |t.positions|
    ensures AllOnBoard(body) ==> AllOnBoard(t.positions)
    ensures t.lastTail.Some? ==> !t.grew && t.lastTail.value == body[|body| - 1]
    ensures (t.length == 1 && t.positions == [Advance(body[0], d)] && t.lastTail.None?)
         || t.positions == Moved(body, d, t.grew)
  {
    var tail := body[|body| - 1];
    var grew := Advance(body[0], d) == apple;
    var moved := Moved(body, d, grew);
    var len := if grew then |moved| else length;
    if Collides(moved, len) then TickResult([moved[0]], 1, grew, None)
    else TickResult(moved, len, grew, if grew then None else Some(tail))
  }

  /**
   * Without a collision, a tick that does not grow hands the old tail to
   * the renderer, and one that grows hands nothing.
   */
  lemma TickWithoutCollision(body: seq<Cell>, length: int, d: Direction, apple: Cell)
    requires body != []
    requires var grew := Advance(body[0], d) == apple;
             !Collides(Moved(body, d, grew), if grew then |body| + 1 else length)
    ensures var t := Tick(body, length, d, apple);
            t.positions == Moved(body, d, t.grew) &&
            t.length == (if t.grew then |body| + 1 else length) &&
            t.lastTail == (if t.grew then None else Some(body[|body| - 1]))
  {
  }

  /**
   * After a collision only the head is left, the length drops to one and
   * there is no tail to erase.
   */
  lemma TickWithCollision(body: seq<Cell>, length: int, d: Direction, apple: Cell)
    requires body != []
    requires var grew := Advance(body[0], d) == apple;
             Collides(Moved(body, d, grew), if grew then |body| + 1 else length)
    ensures var t := Tick(body, length, d, apple);
            t.positions == [Advance(body[0], d)] && t.length == 1 && t.lastTail == None
  {
  }

  /**
   * While the apple lies off the body, eating it never ends in a collision
   * in the same tick: the snake is one segment longer afterwards.
   */
  lemma GrowthNeverCollides(body: seq<Cell>, d: Direction, apple: Cell)
    requires body != [] && apple !in body
    requires Advance(body[0], d) == apple
    ensures var t := Tick(body, |body|, d, apple);
            t.grew && t.positions == [apple] + body && t.length == |body| + 1
  {
  }

  /**
   * A tick that does not reach the apple leaves the apple off the body.
   */
  lemma MissKeepsAppleClear(body: seq<Cell>, length: int, d: Direction, apple: Cell)
    requires body != [] && apple !in body
    requires Advance(body[0], d) != apple
    ensures apple !in Tick(body, length, d, apple).positions
  {
  }

  /** The start of a game: a fresh snake and an apple placed off it. */
  method NewGame() returns (snake: Snake, apple: Apple)
    ensures fresh(snake) && fresh(apple)
    ensures snake.Valid() && apple.Valid()
    ensures snake.positions == [CENTER_POSITION] && snake.direction == Right
    ensures snake.nextDirection == None
    ensures apple.position !in snake.positions
    ensures Shaped(snake.positions, snake.direction)
  {
    snake := new Snake();
    assert Cell(0, 0) in FreeCells(snake.positions);
    apple := new Apple(snake.positions);
  }

  /**
   * One tick of the main loop: resolve the heading, note the tail, look one
   * cell ahead, move (growing onto the apple), re-place an eaten apple,
   * and on a self-collision cut the body back to its head. Returns the
   * tail cell the renderer must erase, if any.
   */
  method Step(snake: Snake, apple: Apple) returns (lastTail: Option<Cell>)
    requires snake.Valid() && apple.Valid()
    modifies snake, apple
    ensures snake.Valid() && apple.Valid()
    ensures snake.nextDirection == None
    ensures snake.direction == Resolved(old(snake.direction), old(snake.nextDirection))
    ensures snake.position == old(snake.position)
    ensures var t := Tick(old(snake.positions), old(snake.length), snake.direction, old(apple.position));
            snake.positions == t.positions && snake.length == t.length && lastTail == t.lastTail
    ensures var grew := Advance(old(snake.positions)[0], snake.direction) == old(apple.position);
            if grew then
              apple.occupiedPositions == Moved(old(snake.positions), snake.direction, true) &&
              (FreeCells(apple.occupiedPositions) != {} ==> apple.position !in apple.occupiedPositions)
            else
              apple.position == old(apple.position) && apple.occupiedPositions == old(apple.occupiedPositions)
    ensures old(apple.position !in snake.positions) && old(snake.length) + 1 < FIELD_WIDTH * FIELD_HEIGHT
            ==> apple.position !in snake.positions
    ensures old(Shaped(snake.positions, snake.direction)) ==> Shaped(snake.positions, snake.direction)
  {
    ghost var body, length, applePos := snake.positions, snake.length, apple.position;
    ghost var lastHeading := snake.direction;
    snake.UpdateDirection();

    lastTail := None;
    if snake.positions != [] {
      lastTail := Some(snake.positions[|snake.positions| - 1]);
    }

    var head := snake.HeadPosition();
    var nextHead := Advance(head, snake.direction);
    var willGrow := nextHead == apple.position;

    if willGrow {
      snake.Move(true);
      apple.RandomizePosition(Some(snake.positions));
      lastTail := None;
    } else {
      snake.Move(false);
    }

    if Collides(snake.positions, snake.length) {
      var headPos := snake.HeadPosition();
      snake.positions := [headPos];
      snake.length := 1;
      lastTail := None;
    }

    if Shaped(body, lastHeading) {
      MoveKeepsShape(body, |Moved(body, snake.direction, willGrow)|, lastHeading, snake.direction, willGrow);
    }
    if applePos !in body {
      if willGrow {
        GrowthNeverCollides(body, snake.direction, applePos);
        if length + 1 < FIELD_WIDTH * FIELD_HEIGHT {
          FreeCellExists(apple.occupiedPositions);
        }
      } else {
        MissKeepsAppleClear(body, length, snake.direction, applePos);
      }
    }
  }
}
