/**
 * Grid geometry of the snake game: the window is an 800x800 pixel square
 * cut into a 40x40 grid of 20x20 pixel cells. Every rectangle the game keeps
 * has its minimum corner on a multiple of 20 and its maximum corner 20 pixels
 * further, and every equality test compares minimum corners only, so a cell
 * is identified by its (column, row) pair.
 */
module Grid {
  const WindowWidth: int := 800
  const WindowHeight: int := 800
  const GridWidth: int := 40
  const GridHeight: int := 40
  /** Pixel size of one cell (the width and height intervals). */
  const CellWidth: int := WindowWidth / GridWidth
  const CellHeight: int := WindowHeight / GridHeight

  /** A grid cell; the pixel rectangle it stands for has its minimum corner at
      (col * CellWidth, row * CellHeight). Rows grow upwards. */
  datatype Cell = Cell(col: int, row: int)

  /** The four headings, in the order of the source's enumeration. */
  datatype Direction = Up | Left | Down | Right

  predicate InGrid(c: Cell) {
    0 <= c.col < GridWidth && 0 <= c.row < GridHeight
  }

  /** The window test of the source, on the pixel rectangle of a cell. */
  function InWindow(c: Cell): (r: bool)
    ensures r <==> InGrid(c)
  {
    assert CellWidth == 20 && CellHeight == 20;
    var minX, minY := c.col * CellWidth, c.row * CellHeight;
    minX >= 0 && minY >= 0 && minX + CellWidth <= WindowWidth && minY + CellHeight <= WindowHeight
  }

  /** The cell one step away in direction d. */
  function Step(c: Cell, d: Direction): Cell {
    match d
    case Up => Cell(c.col, c.row + 1)
    case Left => Cell(c.col - 1, c.row)
    case Down => Cell(c.col, c.row - 1)
    case Right => Cell(c.col + 1, c.row)
  }

  function Opposite(d: Direction): Direction {
    match d
    case Up => Down
    case Left => Right
    case Down => Up
    case Right => Left
  }

  /** Stepping back the opposite way returns to the start, and a step always
      leaves the cell. */
  lemma StepOpposite(c: Cell, d: Direction)
    ensures Step(Step(c, d), Opposite(d)) == c
    ensures Step(c, d) != c
  {
  }

  /** Column-major order: columns first, then rows. */
  predicate ColumnMajorBefore(a: Cell, b: Cell) {
    a.col < b.col || (a.col == b.col && a.row < b.row)
  }
}
