/**
 * The two game objects: the apple, a single cell that can be moved to a
 * random place, and the snake, an ordered body of cells (head first) with a
 * current direction. Drawing and colours are not modelled.
 */
module Pieces {
  import opened Grid

  /**
   * What `move` does to a body: insert the neighbour of the head along `d`
   * in front (only for one of the four cardinal directions, there is no
   * other branch), then drop the last cell unless the snake grows.
   */
  function Advance(body: seq<Cell>, d: Vec, grow: bool): (r: seq<Cell>)
    requires |body| > 0
    ensures |r| == |body| + (if IsCardinal(d) then 1 else 0) - (if grow then 0 else 1)
  {
    var inserted := if IsCardinal(d) then [Shift(body[0], d)] + body else body;
    if grow then inserted else inserted[..|inserted| - 1]
  }

  /** A plain move adds the new head and loses the tail; everything else keeps its order. */
  lemma AdvanceStraight(body: seq<Cell>, d: Vec)
    requires |body| > 0 && IsCardinal(d)
    ensures Advance(body, d, false) == [Shift(body[0], d)] + body[..|body| - 1]
    ensures |Advance(body, d, false)| == |body|
    ensures forall i :: 1 <= i < |body| ==> Advance(body, d, false)[i] == body[i - 1]
  {
  }

  /** A growing move adds the new head and keeps every old cell in order. */
  lemma AdvanceGrowing(body: seq<Cell>, d: Vec)
    requires |body| > 0 && IsCardinal(d)
    ensures Advance(body, d, true) == [Shift(body[0], d)] + body
    ensures |Advance(body, d, true)| == |body| + 1
    ensures Advance(body, d, true)[1..] == body
  {
  }

  /** With a non-cardinal direction a plain move only drops the tail. */
  lemma AdvanceOffCardinal(body: seq<Cell>, d: Vec)
    requires |body| > 0 && !IsCardinal(d)
    ensures Advance(body, d, false) == body[..|body| - 1]
    ensures Advance(body, d, true) == body
  {
  }

  /**
   * The reversal guard of `update_direction`: the request is adopted
   * unless it is the componentwise negation of the current direction.
   */
  function Steer(current: Vec, request: Vec): (r: Vec)
    ensures request == Opposite(current) ==> r == current
    ensures request != Opposite(current) ==> r == request
  {
    if request.0 * -1 != current.0 || request.1 * -1 != current.1 then request else current
  }

  /** With cardinal inputs the direction stays cardinal and never turns straight back. */
  lemma SteerKeepsCardinal(current: Vec, request: Vec)
    requires IsCardinal(current) && IsCardinal(request)
    ensures IsCardinal(Steer(current, request))
    ensures Steer(current, request) != Opposite(current)
  {
  }

  /** Several requests in order, as when more than one key is pressed between two ticks. */
  function SteerAll(current: Vec, requests: seq<Vec>): (r: Vec)
    ensures (IsCardinal(current) && forall i :: 0 <= i < |requests| ==> IsCardinal(requests[i]))
            ==> IsCardinal(r)
    ensures r == current || r in requests
    decreases |requests|
  {
    if requests == [] then current
    else SteerAll(Steer(current, requests[0]), requests[1..])
  }

  /**
   * Each request is checked only against the direction left by the one
   * before it, so two requests between ticks can reverse the snake:
   * moving right, "up" then "left" ends up facing left.
   */
  lemma TwoRequestsReverse()
    ensures SteerAll(Right, [Up, Left]) == Left == Opposite(Right)
  {
  }

  class Apple {
    var position: Cell

    constructor (position: Cell)
      ensures this.position == position
    {
      this.position := position;
    }

    /**
     * `randomize_position`: the apple moves to the cell drawn by the two
     * `randint(0, size - 1)` calls, passed in as `x` and `y`. The draw
     * knows nothing about the snake, so the apple may land on its body.
     */
    method RandomizePosition(gridWidth: int, gridHeight: int, x: int, y: int)
      requires 0 <= x <= gridWidth - 1 && 0 <= y <= gridHeight - 1
      modifies this`position
      ensures position == (x, y)
      ensures 0 <= position.0 < gridWidth && 0 <= position.1 < gridHeight
    {
      position := (x, y);
    }
  }

  class Snake {
    /** The body, head at index 0. */
    var positions: seq<Cell>
    var direction: Vec

    /** A body to take the head of, and a direction `choice` could have produced. */
    ghost predicate Valid()
      reads this
    {
      |positions| > 0 && IsCardinal(direction)
    }

    /** A one-cell snake at `position`, facing the direction drawn by `choice`. */
    constructor (position: Cell, initialDirection: Vec)
      requires IsCardinal(initialDirection)
      ensures Valid()
      ensures positions == [position] && direction == initialDirection
    {
      positions := [position];
      direction := initialDirection;
    }

    /** `get_head_position`: the first cell; there is none to take of an empty body. */
    function HeadPosition(): Cell
      reads this
      requires |positions| > 0
    {
      positions[0]
    }

    /** `move`: insert the neighbour of the head in front, then pop the tail unless growing. */
    method Move(d: Vec, grow: bool)
      requires |positions| > 0
      modifies this`positions
      ensures positions == Advance(old(positions), d, grow)
      ensures old(Valid()) && IsCardinal(d) ==> Valid()
    {
      var (x, y) := HeadPosition();
      if d == Up {
        positions := [(x, y - 1)] + positions;
      } else if d == Down {
        positions := [(x, y + 1)] + positions;
      } else if d == Left {
        positions := [(x - 1, y)] + positions;
      } else if d == Right {
        positions := [(x + 1, y)] + positions;
      }
      if !grow {
        positions := positions[..|positions| - 1];
      }
    }

    /** `reset`: one cell at `position`, direction redrawn by `choice` (passed in). */
    method Reset(position: Cell, newDirection: Vec)
      requires IsCardinal(newDirection)
      modifies this
      ensures Valid()
      ensures positions == [position] && direction == newDirection
    {
      positions := [position];
      direction := newDirection;
    }

    /** `update_direction`: adopt the request unless it reverses the current direction. */
    method UpdateDirection(newDirection: Vec)
      modifies this`direction
      ensures direction == Steer(old(direction), newDirection)
      ensures IsCardinal(old(direction)) && IsCardinal(newDirection) ==> IsCardinal(direction)
      ensures old(Valid()) && IsCardinal(newDirection) ==> Valid()
    {
      var slf := direction;
      if newDirection.0 * -1 != slf.0 || newDirection.1 * -1 != slf.1 {
        direction := newDirection;
      }
    }
  }
}
