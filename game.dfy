/**
 * One pass of the game loop (moving, eating, clamping the head to the grid,
 * resetting on self-collision), both as an operation on the snake and apple
 * objects and as a function on a snapshot of the world, together with what
 * the loop keeps true from tick to tick.
 */
module Game {
  import opened Grid
  import opened Pieces

  /** A snapshot of everything a tick reads or writes. */
  datatype World = World(positions: seq<Cell>, direction: Vec, apple: Cell)

  /** The snake has a head and a direction that `move` acts on. */
  predicate Movable(w: World) {
    |w.positions| > 0 && IsCardinal(w.direction)
  }

  /** Movable, and the whole body and the apple lie on the grid. */
  predicate Playable(w: World) {
    Movable(w) && AllInGrid(w.positions) && InGrid(w.apple)
  }

  /** The head after the first move of a tick, before any clamping. */
  function FirstHead(w: World): (h: Cell)
    requires Movable(w)
    ensures h == Advance(w.positions, w.direction, false)[0]
  {
    Shift(w.positions[0], w.direction)
  }

  /** The snake eats when the unclamped head after the first move is on the apple. */
  predicate Feeds(w: World)
    requires Movable(w)
  {
    FirstHead(w) == w.apple
  }

  /** The body after the moves of a tick and the head clamp, before the collision test. */
  function Moved(w: World): (body: seq<Cell>)
    requires Movable(w)
    ensures |body| == |w.positions| + (if Feeds(w) then 1 else 0)
    ensures InGrid(body[0])
  {
    var once := Advance(w.positions, w.direction, false);
    var body := if Feeds(w) then Advance(once, w.direction, true) else once;
    body[0 := WrapCell(body[0])]
  }

  /** The clamped head lands on another cell of the body. */
  predicate Collides(w: World)
    requires Movable(w)
  {
    Moved(w)[0] in Moved(w)[1..]
  }

  /**
   * One tick: move, eat (re-rolling the apple to `roll` and moving again,
   * growing), clamp the head, and on a collision reset the snake to the
   * centre with the direction `respawn`. The apple is left where it is by
   * a reset.
   */
  function Step(w: World, roll: Cell, respawn: Vec): (r: World)
    requires Movable(w)
    ensures |r.positions| > 0 && r.positions[0] !in r.positions[1..]
    ensures r.apple == (if Feeds(w) then roll else w.apple)
    ensures IsCardinal(respawn) ==> Movable(r)
  {
    var apple := if Feeds(w) then roll else w.apple;
    if Collides(w) then World([Center], respawn, apple)
    else World(Moved(w), w.direction, apple)
  }

  /**
   * The body of the game loop after the key handling: `roll` is the cell
   * the two `randint` calls of the apple would draw, `respawn` the
   * direction `choice` would draw on a reset.
   */
  method Tick(snake: Snake, apple: Apple, roll: Cell, respawn: Vec)
    requires snake.Valid()
    requires InGrid(roll) && IsCardinal(respawn)
    modifies snake, apple
    ensures snake.Valid()
    ensures World(snake.positions, snake.direction, apple.position)
            == Step(old(World(snake.positions, snake.direction, apple.position)), roll, respawn)
  {
    ghost var w := World(snake.positions, snake.direction, apple.position);
    snake.Move(snake.direction, false);
    ghost var once := snake.positions;
    assert once[0] == FirstHead(w);
    assert snake.HeadPosition() == apple.position <==> Feeds(w);
    if snake.HeadPosition() == apple.position {
      apple.RandomizePosition(GridWidth, GridHeight, roll.0, roll.1);
      snake.Move(snake.direction, true);
    }
    ghost var body := snake.positions;
    assert body == if Feeds(w) then Advance(once, w.direction, true) else once;
    assert apple.position == if Feeds(w) then roll else w.apple;
    var (headX, headY) := snake.HeadPosition();
    if headX < 0 {
      headX := GridWidth - 1;
    } else if headX >= GridWidth {
      headX := 0;
    }
    assert headX == Wrap(body[0].0, GridWidth);
    if headY < 0 {
      headY := GridHeight - 1;
    } else if headY >= GridHeight {
      headY := 0;
    }
    assert headY == Wrap(body[0].1, GridHeight);
    snake.positions := snake.positions[0 := (headX, headY)];
    assert snake.positions == Moved(w);
    if snake.HeadPosition() in snake.positions[1..] {
      snake.Reset(Center, respawn);
    }
  }

  /**
   * The set-up at the start of `main`: a one-cell snake at the centre
   * facing the direction `choice` drew, and an apple drawn by
   * `randint(0, size - 2)`, so never in the last column or row.
   */
  method Start(initialDirection: Vec, appleX: int, appleY: int) returns (snake: Snake, apple: Apple)
    requires IsCardinal(initialDirection)
    requires 0 <= appleX <= GridWidth - 2 && 0 <= appleY <= GridHeight - 2
    ensures fresh(snake) && fresh(apple)
    ensures snake.Valid()
    ensures snake.positions == [Center] && snake.direction == initialDirection
    ensures apple.position == (appleX, appleY)
    ensures Playable(World(snake.positions, snake.direction, apple.position))
  {
    snake := new Snake(Center, initialDirection);
    apple := new Apple((appleX, appleY));
  }

  /** What happens between two ticks and what the random draws of a tick produce. */
  datatype Turn = Turn(requests: seq<Vec>, roll: Cell, respawn: Vec)

  /** Key requests are cardinal, the apple roll is on the grid, the respawn direction cardinal. */
  predicate ValidTurn(t: Turn) {
    (forall i :: 0 <= i < |t.requests| ==> IsCardinal(t.requests[i]))
    && InGrid(t.roll) && IsCardinal(t.respawn)
  }

  /** Successive passes of the game loop: steer by the turn's requests, then tick. */
  function Run(w: World, turns: seq<Turn>): (r: World)
    requires Movable(w)
    requires forall k :: 0 <= k < |turns| ==> ValidTurn(turns[k])
    ensures Movable(r)
    decreases |turns|
  {
    if turns == [] then w
    else
      var t := turns[0];
      assert ValidTurn(t);
      var steered := w.(direction := SteerAll(w.direction, t.requests));
      Run(Step(steered, t.roll, t.respawn), turns[1..])
  }

  /** Length after a tick: one after a reset, one more after eating, unchanged otherwise. */
  lemma StepLength(w: World, roll: Cell, respawn: Vec)
    requires Movable(w)
    ensures |Step(w, roll, respawn).positions|
            == if Collides(w) then 1 else if Feeds(w) then |w.positions| + 1 else |w.positions|
  {
  }

  /**
   * An eating tick without collision: the head has advanced two cells
   * (then been clamped), the apple's old cell follows it, the old tail is
   * gone, and the apple is at the new roll.
   */
  lemma StepFeeding(w: World, roll: Cell, respawn: Vec)
    requires Movable(w) && Feeds(w) && !Collides(w)
    ensures var r := Step(w, roll, respawn);
            r.positions == [WrapCell(Shift(FirstHead(w), w.direction)), w.apple]
                           + w.positions[..|w.positions| - 1]
            && r.direction == w.direction && r.apple == roll
  {
    var once := Advance(w.positions, w.direction, false);
    AdvanceStraight(w.positions, w.direction);
    AdvanceGrowing(once, w.direction);
  }

  /** A plain tick: clamped new head in front, tail dropped, apple and direction unchanged. */
  lemma StepPlain(w: World, roll: Cell, respawn: Vec)
    requires Movable(w) && !Feeds(w) && !Collides(w)
    ensures var r := Step(w, roll, respawn);
            r.positions == [WrapCell(FirstHead(w))] + w.positions[..|w.positions| - 1]
            && r.direction == w.direction && r.apple == w.apple
  {
    AdvanceStraight(w.positions, w.direction);
  }

  /** A collision throws the body away: one cell at the centre, the drawn direction. */
  lemma StepCollision(w: World, roll: Cell, respawn: Vec)
    requires Movable(w) && Collides(w)
    ensures Step(w, roll, respawn).positions == [Center]
    ensures Step(w, roll, respawn).direction == respawn
  {
  }

  /**
   * From a playable world the unclamped head is at most one cell off the
   * grid (the second move of an eating tick starts from the apple, which is
   * on the grid), so the branch clamp agrees with a true modulo there.
   */
  lemma StepHeadIsModulo(w: World, roll: Cell, respawn: Vec)
    requires Playable(w) && !Collides(w)
    ensures var h := if Feeds(w) then Shift(FirstHead(w), w.direction) else FirstHead(w);
            Step(w, roll, respawn).positions[0] == (h.0 % GridWidth, h.1 % GridHeight)
  {
    assert InGrid(w.positions[0]);
    if Feeds(w) {
      StepFeeding(w, roll, respawn);
    } else {
      StepPlain(w, roll, respawn);
    }
  }

  /** A tick keeps the body and the apple on the grid and the direction cardinal. */
  lemma StepKeepsPlayable(w: World, roll: Cell, respawn: Vec)
    requires Playable(w) && InGrid(roll) && IsCardinal(respawn)
    ensures Playable(Step(w, roll, respawn))
  {
    var r := Step(w, roll, respawn);
    if !Collides(w) {
      var n := |w.positions|;
      var rest := if Feeds(w) then [w.apple] + w.positions[..n - 1] else w.positions[..n - 1];
      if Feeds(w) {
        StepFeeding(w, roll, respawn);
      } else {
        StepPlain(w, roll, respawn);
      }
      assert r.positions == [r.positions[0]] + rest;
      forall i | 0 <= i < |r.positions|
        ensures InGrid(r.positions[i])
      {
        if i > 0 {
          assert r.positions[i] == rest[i - 1];
        }
      }
    }
  }

  /**
   * Every prefix of the game keeps the world playable, and after at least
   * one tick the head is never among the other cells of the body.
   */
  lemma {:induction false} RunKeepsPlayable(w: World, turns: seq<Turn>)
    requires Playable(w)
    requires forall k :: 0 <= k < |turns| ==> ValidTurn(turns[k])
    ensures Playable(Run(w, turns))
    ensures turns != [] ==> Run(w, turns).positions[0] !in Run(w, turns).positions[1..]
    decreases |turns|
  {
    if turns != [] {
      var t := turns[0];
      var steered := w.(direction := SteerAll(w.direction, t.requests));
      StepKeepsPlayable(steered, t.roll, t.respawn);
      var next := Step(steered, t.roll, t.respawn);
      RunKeepsPlayable(next, turns[1..]);
      assert Run(w, turns) == Run(next, turns[1..]);
    }
  }

  /** An eating tick from (2, 2) facing right puts the head on (4, 2). */
  lemma FeedingExample()
    ensures var w := World([(2, 2), (1, 2), (0, 2)], Right, (3, 2));
            Feeds(w) && !Collides(w)
            && Step(w, (7, 7), Up) == World([(4, 2), (3, 2), (2, 2), (1, 2)], Right, (7, 7))
  {
  }

  /**
   * Eating is decided on the unclamped head, and the apple is always on
   * the grid, so a first move that leaves the grid never eats.
   */
  lemma OffGridHeadNeverFeeds(w: World)
    requires Playable(w) && !InGrid(FirstHead(w))
    ensures !Feeds(w)
  {
  }

  /**
   * For example, a snake leaving the right edge
   * onto an apple in column 0 lands on it without eating it.
   */
  lemma EdgeAppleIsMissed()
    ensures var w := World([(39, 5)], Right, (0, 5));
            !Feeds(w) && Step(w, (7, 7), Up) == World([(0, 5)], Right, (0, 5))
  {
  }

  /** The new apple is not kept off the body: here it is re-rolled onto the snake. */
  lemma AppleCanLandOnBody()
    ensures var w := World([(5, 5), (4, 5)], Right, (6, 5));
            Feeds(w) && Step(w, (5, 5), Up).apple in Step(w, (5, 5), Up).positions
  {
    var w := World([(5, 5), (4, 5)], Right, (6, 5));
    assert Advance(w.positions, Right, false) == [(6, 5), (5, 5)];
    assert Moved(w) == [(7, 5), (6, 5), (5, 5)];
    assert Step(w, (5, 5), Up).positions[2] == (5, 5);
  }

  /**
   * The reversal guard sees only the previous request: moving right with
   * "up" then "left" pressed before one tick turns the snake back onto its
   * neck, and the tick resets it.
   */
  lemma DoubleRequestResets()
    ensures var w := World([(5, 5), (4, 5), (3, 5)], Right, (30, 20));
            Run(w, [Turn([Up, Left], (7, 7), Down)]) == World([Center], Down, (30, 20))
  {
    var w := World([(5, 5), (4, 5), (3, 5)], Right, (30, 20));
    var turns := [Turn([Up, Left], (7, 7), Down)];
    var steered := w.(direction := Left);
    assert SteerAll(Right, [Up, Left]) == Left by { TwoRequestsReverse(); }
    assert Moved(steered) == [(4, 5), (5, 5), (4, 5)];
    assert Collides(steered);
    assert Run(w, turns) == Run(Step(steered, (7, 7), Down), turns[1..]);
  }
}
