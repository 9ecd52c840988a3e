/** The value held by one square of the board.
    A cell is an immutable box around a string; the game only ever creates
    cells holding "1" (green) or "0" (red), but nothing stops a caller from
    boxing any other string, so the box keeps the string itself. */
module Cells {

  /** The string the game uses for a green cell. */
  const Green: string := "1"

  /** The string the game uses for a red cell. */
  const Red: string := "0"

  /** A cell: its value is fixed when the cell is built and never changes. */
  datatype Cell = Cell(value: string)

  const GreenCell: Cell := Cell(Green)
  const RedCell: Cell := Cell(Red)

  /** The test the neighbour count and the query use: the value is "1". */
  predicate IsGreen(c: Cell) {
    c.value == Green
  }

  /** The test the rule uses for the cell itself: the value is "0". */
  predicate IsRed(c: Cell) {
    c.value == Red
  }
}
