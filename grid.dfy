/**
 * The playing field of the snake game: screen and grid constants, cells,
 * direction vectors, and the edge clamp that the game loop applies to the
 * snake's head.
 */
module Grid {

  /** Screen size in pixels and the side of one grid square. */
  const ScreenWidth: int := 800
  const ScreenHeight: int := 600
  const GridSize: int := 20

  /** Grid dimensions in cells (floor division of the screen by the square). */
  const GridWidth: int := ScreenWidth / GridSize
  const GridHeight: int := ScreenHeight / GridSize

  /** A grid cell (x, y); x grows rightwards and y grows downwards. */
  type Cell = (int, int)

  /** A direction of motion, as the offset it adds to a cell. */
  type Vec = (int, int)

  const Up: Vec := (0, -1)
  const Down: Vec := (0, 1)
  const Left: Vec := (-1, 0)
  const Right: Vec := (1, 0)

  /** The cell where a new or reset snake starts. */
  const Center: Cell := (GridWidth / 2, GridHeight / 2)

  predicate IsCardinal(d: Vec) {
    d == Up || d == Down || d == Left || d == Right
  }

  /** The componentwise negation of a vector. */
  function Opposite(d: Vec): (r: Vec)
    ensures IsCardinal(d) ==> IsCardinal(r) && r != d
  {
    (-d.0, -d.1)
  }

  /** Negating twice gives the vector back. */
  lemma OppositeInvolutive(d: Vec)
    ensures Opposite(Opposite(d)) == d
  {
  }

  /** The cell one step from `c` along `d`. */
  function Shift(c: Cell, d: Vec): Cell
  {
    (c.0 + d.0, c.1 + d.1)
  }

  predicate InGrid(c: Cell) {
    0 <= c.0 < GridWidth && 0 <= c.1 < GridHeight
  }

  predicate AllInGrid(cells: seq<Cell>) {
    forall i :: 0 <= i < |cells| ==> InGrid(cells[i])
  }

  /**
   * The edge clamp on one coordinate: below the grid goes to the last
   * column (row), at or beyond the size goes to 0, anything else stays.
   * The result always lies in the grid, and for a coordinate at most one
   * step outside it is the true (floored) remainder modulo the size.
   */
  function Wrap(c: int, size: int): (r: int)
    requires size >= 1
    ensures 0 <= r < size
    ensures -1 <= c <= size ==> r == c % size
    ensures 0 <= c < size ==> r == c
  {
    if c < 0 then size - 1
    else if c >= size then 0
    else c
  }

  /** The edge clamp applied to both coordinates of a cell. */
  function WrapCell(c: Cell): (r: Cell)
    ensures InGrid(r)
    ensures InGrid(c) ==> r == c
    ensures -1 <= c.0 <= GridWidth && -1 <= c.1 <= GridHeight ==>
              r == (c.0 % GridWidth, c.1 % GridHeight)
  {
    (Wrap(c.0, GridWidth), Wrap(c.1, GridHeight))
  }

  /**
   * A clamp is not a modulo: two columns past the right edge lands on
   * column 0, not 1. No tick reaches such an input, since every head a tick
   * produces is at most one cell off the grid, where the two agree.
   */
  lemma WrapIsNotModuloFarOut()
    ensures Wrap(GridWidth + 1, GridWidth) == 0 != (GridWidth + 1) % GridWidth
  {
  }

  /** The grid is 40 by 30 cells and the snake starts at (20, 15). */
  lemma GridDimensions()
    ensures GridWidth == 40 && GridHeight == 30
    ensures Center == (20, 15) && InGrid(Center)
  {
  }
}
