# Snake grid simulation

A model of the game logic of `the_snake.py`, a Snake game on a 40 × 30 grid
(an 800 × 600 screen in 20-pixel squares). The snake is an ordered list of
cells with the head first and a direction that is one of the four unit
vectors. Each pass of the main loop moves it one cell. If the unclamped head
then sits on the apple, the apple is re-rolled to a random cell and the snake
moves a second time, growing. Only the head is then clamped back onto the
grid (below 0 goes to the last column or row, at or past the edge goes to 0).
If the head lands on another cell of the body, the snake is reset to one cell
at the centre with a random direction.

The model follows the code as written. Points where this game departs from the
usual Snake rules:
- the wrap is written as a branch clamp; every head a tick produces is at most one cell off the grid, where the clamp equals a modulo (`Game.StepHeadIsModulo`);
- eating is tested before the clamp and moves the head two cells;
- the new apple may land on the snake;
- a collision resets the snake inside the tick and reports no outcome;
- the reset snake has one cell, and the apple stays where it is.

Files:
- `grid.dfy` (module `Grid`): screen and grid constants, cells, the four
  directions, and the edge clamp `Wrap`.
- `pieces.dfy` (module `Pieces`): the `Apple` and `Snake` classes with their
  methods. Also the pure functions `Advance` (what `move` does to a body) and
  `Steer` (the reversal guard), with lemmas about them.
- `game.dfy` (module `Game`): a snapshot `World`, the tick as a function
  `Step` and as a method `Tick` on the two objects, the start of `main`,
  `Run` (successive passes of the loop), and what every tick preserves.

The random draws (`choice` of a direction, `randint` of the apple's cell) are
parameters of the methods and functions. Their `requires` clauses give the
ranges those calls can return.

## Model

| member | source | states |
|---|---|---|
| `Grid.Wrap` | the_snake.py:167-175 | the clamped coordinate is always in `[0, size)`; it equals `c % size` for any `c` in `[-1, size]`, and is `c` itself when `c` is already on the grid |
| `Grid.WrapCell` | the_snake.py:167-176 | the clamped head is on the grid, an on-grid head is unchanged, and a head at most one cell off the grid is reduced modulo the grid size on both axes |
| `Grid.WrapIsNotModuloFarOut` | the_snake.py:170-171 | the clamp is not a modulo two cells past the edge: it gives column 0 where a modulo gives 1; no tick produces such a head |
| `Grid.Opposite` | the_snake.py:110 | the componentwise negation used by the reversal test maps each of the four directions to a different one of the four |
| `Grid.OppositeInvolutive` | the_snake.py:110 | negating a direction twice gives it back, so the reversal test is symmetric between current direction and request |
| `Grid.GridDimensions` | the_snake.py:115-119 | the grid is 40 by 30 cells and the start cell (20, 15) is on it |
| `Pieces.Advance` | the_snake.py:80-95 | a move changes the length by +1 for a cardinal direction and by -1 unless growing |
| `Pieces.AdvanceStraight` | the_snake.py:84-95 | a plain move with a cardinal direction gives `[head + d] + old[..n-1]`: same length, old cells shifted one place back in order |
| `Pieces.AdvanceGrowing` | the_snake.py:84-94 | a growing move gives `[head + d] + old`: one longer, every old cell kept in order |
| `Pieces.AdvanceOffCardinal` | the_snake.py:85-95 | with a non-cardinal direction nothing is inserted, so a plain move only drops the tail and a growing move changes nothing |
| `Pieces.Steer` | the_snake.py:108-111 | the direction stays the same when the request is the componentwise negation of it, and becomes the request otherwise |
| `Pieces.SteerKeepsCardinal` | the_snake.py:110-111 | with a cardinal current direction and request, the result is cardinal and never the reverse of the current direction |
| `Pieces.SteerAll` | the_snake.py:104-111 | after several requests in order the direction is cardinal if all inputs were, and is either the starting direction or one of the requests |
| `Pieces.TwoRequestsReverse` | the_snake.py:104-111 | two requests between ticks (up, then left while moving right) reverse the direction, since each is checked only against the one before |
| `Pieces.Apple.constructor` | the_snake.py:34-39 | a new apple is at the given cell |
| `Pieces.Apple.RandomizePosition` | the_snake.py:41-46 | the apple moves to the drawn cell, which lies in `0..width-1` × `0..height-1`; only the position changes |
| `Pieces.Snake.constructor` | the_snake.py:55-62 | a new snake is the one cell given, facing the drawn cardinal direction |
| `Pieces.Snake.Move` | the_snake.py:80-95 | the body becomes `Advance` of the old body; the direction is untouched; a valid snake moved along a cardinal direction stays valid |
| `Pieces.Snake.Reset` | the_snake.py:97-102 | the body collapses to the given cell and the direction is the drawn cardinal one |
| `Pieces.Snake.UpdateDirection` | the_snake.py:104-111 | the new direction is `Steer` of the old one and the request, so it stays cardinal when both are, and a valid snake stays valid |
| `Game.FirstHead` | the_snake.py:161 | the head after the first move of a tick is the head of the body that `move` produces |
| `Game.Moved` | the_snake.py:161-176 | the body before the collision test is one longer after eating and the same length otherwise, and its head is on the grid |
| `Game.Step` | the_snake.py:161-179 | after a tick the head is never among the other cells, the body is not empty, the apple is the roll exactly when the snake ate and unchanged otherwise, and the direction is cardinal |
| `Game.Tick` | the_snake.py:161-179 | the snake and apple objects end in the state `Step` gives for their old state; the snake stays valid |
| `Game.Start` | the_snake.py:154-156 | the snake starts as the centre cell with the drawn direction, the apple at a cell drawn from `0..width-2` × `0..height-2`, and the world is playable |
| `Game.Run` | the_snake.py:158-179 | any number of passes of the loop leaves a snake with a head and a cardinal direction |
| `Game.StepLength` | the_snake.py:161-179 | a tick leaves length 1 after a collision, one more after eating, and the same length otherwise |
| `Game.StepFeeding` | the_snake.py:161-176 | an eating tick without collision puts the head two cells ahead (clamped), the apple's old cell behind it, drops the old tail, and moves the apple to the roll |
| `Game.StepPlain` | the_snake.py:161-176 | a plain tick without collision gives `[clamped head + d] + old[..n-1]` and leaves apple and direction unchanged |
| `Game.StepCollision` | the_snake.py:178-179 | a collision resets the body to the centre cell and the direction to the drawn one |
| `Game.StepHeadIsModulo` | the_snake.py:161-176 | from a playable world the new head is the unclamped head taken modulo the grid size on each axis |
| `Game.StepKeepsPlayable` | the_snake.py:161-179 | if the body and the apple are on the grid before a tick, they are on it after, and the direction stays cardinal |
| `Game.RunKeepsPlayable` | the_snake.py:158-179 | every prefix of the game keeps body and apple on the grid, and after at least one tick the head is not among the other cells |
| `Game.FeedingExample` | the_snake.py:161-164 | from `[(2,2),(1,2),(0,2)]` facing right with the apple at (3,2), one tick gives `[(4,2),(3,2),(2,2),(1,2)]` |
| `Game.OffGridHeadNeverFeeds` | the_snake.py:161-163 | in a playable world, a first move that leaves the grid never eats, because the test at line 162 sees the unclamped head and the apple is on the grid |
| `Game.EdgeAppleIsMissed` | the_snake.py:162-176 | a snake leaving the right edge onto an apple in column 0 is clamped onto it without eating it |
| `Game.AppleCanLandOnBody` | the_snake.py:41-46 | the re-rolled apple can land on the snake's body |
| `Game.DoubleRequestResets` | the_snake.py:104-111 | moving right with "up" then "left" pressed before a tick turns the snake onto its neck, and the tick resets it |

## Left out

- Drawing: `GameObject.draw`, `Snake.draw`, colours, screen fill and display update. These are rendering, not game logic.
- The `GameObject` base class and `body_color`. Only the positions are modelled.
- Key polling in `handle_keys`, and quitting. A turn of `Game.Run` carries the decoded requests, which are applied in order as `update_direction` would apply them.
- Window and clock set-up and the 10-ticks-per-second pacing. The endless `while True` loop is modelled by `Game.Run` over any finite list of turns.
- Randomness. `choice` and `randint` are replaced by values the caller passes in, restricted to the ranges those calls return.
- Pieces.Snake.Move: requires a non-empty body, where Python would raise `IndexError` on an empty one; no reachable state has an empty body.
- Game.Step: requires a cardinal direction. With any other direction `move` inserts nothing, and a one-cell snake would become empty and fail on the next head lookup.
