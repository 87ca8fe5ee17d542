/** Board dimensions, the colour palette and grid coordinates shared by
    every other module of the falling-block rule engine. */
module Geometry {

  /** The board is derived from the window size and the cell size:
      300 / 30 = 10 columns and 600 / 30 = 20 rows. */
  const WindowWidth: int := 300
  const WindowHeight: int := 600
  const GridSize: int := 30
  const Cols: int := WindowWidth / GridSize
  const Rows: int := WindowHeight / GridSize

  /** Black is the empty-cell background; the other seven are the palette a
      spawned piece draws its colour from (the RGB values are irrelevant to
      the rules, only equality and "is not Black" are). */
  datatype Color = Black | Cyan | Yellow | Purple | Orange | Blue | Green | Red

  /** A colour a piece can carry: anything but the background. */
  type PieceColor = c: Color | c != Black witness Cyan

  /** A grid coordinate (column, row). Rows may be negative while a piece
      sits above the visible area; columns may be anything in a proposed move. */
  type Cell = (int, int)

  predicate InBounds(c: Cell) {
    0 <= c.0 < Cols && 0 <= c.1 < Rows
  }
}
