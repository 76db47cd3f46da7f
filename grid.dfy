/** Static geometry of the playing field: window and cell sizes, the grid they
    give, the four headings and the cell arithmetic the rules use. */
module GridModel {

  const WindowWidth: int := 600
  const WindowHeight: int := 400
  const GridSize: int := 20
  // The source uses Python's floor division; both operands are positive, so
  // Dafny's Euclidean division gives the same value.
  const GridWidth: int := WindowWidth / GridSize
  const GridHeight: int := WindowHeight / GridSize

  /** A grid cell (x, y); also used for a heading, as a unit vector. */
  type Cell = (int, int)

  const Up: Cell := (0, -1)
  const Down: Cell := (0, 1)
  const Left: Cell := (-1, 0)
  const Right: Cell := (1, 0)

  predicate IsDirection(d: Cell) {
    d == Up || d == Down || d == Left || d == Right
  }

  /** The cell one step from `c` along `d`; no wrapping and no clamping. */
  function Add(c: Cell, d: Cell): Cell {
    (c.0 + d.0, c.1 + d.1)
  }

  /** The reverse heading, computed componentwise as the source does. */
  function Opposite(d: Cell): Cell {
    (d.0 * -1, d.1 * -1)
  }

  predicate InBounds(c: Cell) {
    0 <= c.0 < GridWidth && 0 <= c.1 < GridHeight
  }

  /** Two cells that share an edge. */
  predicate Adjacent(a: Cell, b: Cell) {
    (a.0 == b.0 && (a.1 - b.1 == 1 || b.1 - a.1 == 1)) ||
    (a.1 == b.1 && (a.0 - b.0 == 1 || b.0 - a.0 == 1))
  }
}
