# Snake game logic in Dafny

A model of the game logic of `snake_game.py`, a pygame snake game, with the
pygame shell removed. The snake moves one cell per tick on a 32 × 24 field of
20-pixel cells that wraps around at every edge. It eats an apple to grow,
and when its head runs into its own body it is cut back to the head alone.

Modules:

- `Wrappers` (`wrappers.dfy`): `Option`, standing for Python's `None` next to a value.
- `Grid` (`grid.dfy`): the field constants, cells as pixel pairs, the four
  headings as pixel vectors, the table of opposite headings, the set
  `ALL_CELLS`, and the wrapping step `Advance`.
- `Food` (`food.dfy`): the free cells of the field and the `Apple` class,
  whose `RandomizePosition` picks a free cell. The random pick is a
  nondeterministic choice (`:|`).
- `Snakes` (`snake.dfy`): the pure pieces of the snake (heading
  resolution, the body after a move, the self-collision test) and the
  `Snake` class. The class keeps the body as a `seq` field that its methods
  reassign. Its invariant `Valid()` says that `length` equals the number of
  segments, that there is at least one segment, and that every segment is
  a cell of the field. Between ticks the body is also `Shaped`: no cell is
  covered twice, and the head lies one step from the second segment in the
  current heading. This is what makes the collision test's length
  threshold of four safe.
- `Game` (`game.dfy`): the key-to-heading table, key handling, and the
  per-tick step of the main loop. `Tick` states the step on values. The
  method `Step` performs it on a `Snake` and an `Apple`, in the order the
  main loop uses, and is proved equal to `Tick`.

The collision cut-back inside `Step` (keep only the head, set the length
to 1, keep the heading) is separate from `Snake.Reset`. `Reset` puts the
snake back at the centre heading right, and the main loop never calls it.

## Model

| member | source | states |
|---|---|---|
| `Grid.VectorDeterminesDirection` | snake_game.py:25-28 | the four heading vectors are pairwise distinct, so a vector names one heading |
| `Grid.Opposite` | snake_game.py:141-146 | the opposite of a heading is its negated vector, and never the heading itself |
| `Grid.CenterOnBoard` | snake_game.py:36 | the centre position is a cell of the field |
| `Grid.AllCellsAreOnBoard` | snake_game.py:31-33 | `ALL_CELLS` holds exactly the in-screen, cell-aligned pixel pairs |
| `Grid.AllCellsSize` | snake_game.py:31-33 | `ALL_CELLS` has FIELD_WIDTH × FIELD_HEIGHT members |
| `Grid.Advance` | snake_game.py:160-164 | a wrapped step always lands inside the screen, and from a cell of the field it lands on a cell of the field |
| `Grid.AdvanceWraps` | snake_game.py:162-163 | the modular step equals a plain vector step inside the screen, and a re-entry at the opposite edge at the same offset otherwise |
| `Grid.AdvanceRoundTrip` | snake_game.py:162-163 | a step followed by a step in the opposite heading returns to the starting cell |
| `Grid.AdvanceMoves` | snake_game.py:162-163 | a step never leaves the head where it was |
| `Food.CellsOfSize` | snake_game.py:104 | a body's set of cells has no more members than the body has entries |
| `Food.FreeCells` | snake_game.py:103-105 | the free cells are exactly the cells of the field not in the occupied list |
| `Food.FreeCellExists` | snake_game.py:103-111 | an occupied list shorter than the cell count leaves some cell free |
| `Food.Apple.constructor` | snake_game.py:79-90 | a new apple records the occupied list and sits on a cell of the field, off that list whenever a cell is free |
| `Food.Apple.RandomizePosition` | snake_game.py:92-111 | replaces the occupied list when one is given; the new position is in `ALL_CELLS`, and it is a free cell whenever one exists |
| `Snakes.Resolved` | snake_game.py:137-149 | the resolved heading is never the reversal of the current one; it is the current or the pending heading, and the pending heading wins whenever it is not a reversal |
| `Snakes.ReversalRefused` | snake_game.py:141-149 | a pending reversal leaves the heading unchanged |
| `Snakes.Moved` | snake_game.py:151-173 | after a move the head is the wrapped step from the old head, followed by the whole old body when growing or the old body without its tail otherwise; the count grows by one exactly when growing; cells of the field stay cells of the field |
| `Snakes.Collides` | snake_game.py:184-197 | never a collision for a length below 4; otherwise a collision exactly when the head recurs at some later index |
| `Snakes.DistinctBodyNeverCollides` | snake_game.py:184-197 | a body without repeated cells never reports a collision |
| `Snakes.ShortMoveHasNoRepeat` | snake_game.py:191-193 | a snake shorter than four cannot bite itself: moving a shaped body (distinct cells, head one step from the second segment) in any heading but the reversal of the last one leaves a body of fewer than four segments with no repeated cell, so the threshold never hides an overlap |
| `Snakes.MoveKeepsShape` | snake_game.py:151-173 | a move in a heading that is not the reversal of the last one, followed by the collision cut-back, keeps the body shaped in the new heading: no cell covered twice, head one step ahead of the second segment |
| `Snakes.Snake.constructor` | snake_game.py:126-135 | a one-segment snake at the centre heading right with no pending heading, satisfying the invariant and shaped |
| `Snakes.Snake.UpdateDirection` | snake_game.py:137-149 | the heading becomes the resolved heading and the pending heading is cleared; nothing else changes |
| `Snakes.Snake.HeadPosition` | snake_game.py:175-182 | the head of a valid snake is a cell of the field |
| `Snakes.Snake.Move` | snake_game.py:151-173 | the body becomes the moved body; the length grows by one when growing and is kept otherwise; the invariant is preserved |
| `Snakes.Snake.Reset` | snake_game.py:199-206 | back to one segment at the centre heading right with no pending heading, satisfying the invariant and shaped |
| `Game.KeyDirection` | snake_game.py:240-249 | an arrow key yields its heading exactly when that heading is at a right angle to the current one (orthogonal vectors), and never the current heading or its reversal |
| `Game.SteeredTurnIsTaken` | snake_game.py:240-258 | a heading queued by the key table is always accepted when resolved |
| `Game.HandleKey` | snake_game.py:251-260 | Escape reports quit; a key in the table sets the pending heading; other keys change nothing |
| `Game.Tick` | snake_game.py:289-324 | growth happens exactly when the next head is the apple; the new head is always that next head; the length keeps matching the body; cells stay on the field; a tail handed back is the old tail and only when not growing; the body is the moved body or, after a collision, the head alone with length 1 and no tail |
| `Game.TickWithoutCollision` | snake_game.py:304-316 | without a collision the body is the moved body, the length is one more when growing and unchanged otherwise, and the old tail is handed back exactly when not growing |
| `Game.TickWithCollision` | snake_game.py:318-324 | after a collision only the head remains, the length is 1 and no tail is handed back |
| `Game.GrowthNeverCollides` | snake_game.py:301-324 | while the apple is off the body, eating it always ends with the apple cell prepended to the whole body and no collision in the same tick |
| `Game.MissKeepsAppleClear` | snake_game.py:301-316 | a tick that misses the apple keeps the apple off the body |
| `Game.NewGame` | snake_game.py:272-273 | the game starts with a valid, shaped snake and an apple placed off it |
| `Game.Step` | snake_game.py:288-324 | one tick equals `Tick` with the resolved heading; the heading is resolved and never reset by a collision; an eaten apple is re-placed off the grown body when a cell is free, and an uneaten one stays put; the apple stays off the body while the snake, grown by one, would still be shorter than the field; a shaped snake stays shaped, so its cells stay distinct after every tick |

## Left out

- Drawing (`draw_cell`, both `draw` methods, `screen.fill`, `display.update`) and the colours: pygame calls with no game logic.
- The event loop, `QUIT` handling, `pygame.init`/`quit`, the window caption and `clock.tick(20)`: input, output and timing.
- `HandleKey`: the check that the event is a key press is left out; the model only sees key presses, as an abstract `Key`.
- The best-length record and its caption: display only.
- `Food.Apple.RandomizePosition`: the uniform distribution of `random.choice` is not modelled, only which cells it may pick.
- `Food.Apple.RandomizePosition`: in the source the apple's occupied list is the snake's own list object, so it changes as the snake moves; the model copies the value. The main loop passes the snake's list on every call, so placement does not depend on this.
- `Game.Step`: in the source `last_tail_position` carries over from the previous tick when the body is empty; the body is never empty, so the model starts each tick from none.
- The `GameObject` base class is not modelled; the snake's inherited `position` is a field of `Snake`.
