/** A grid of cells stored as a jagged array: an outer array of row slots,
    each slot either unset (null) or an array of cells. */
module Grids {
  import opened Cells
  import opened Rules

  class Grid {
    /** The rows; the reference is fixed at construction, the arrays are filled in place. */
    const Cells: array<array?<Cell>>

    /** A grid with exactly `width` row slots, all unset. */
    constructor (width: nat)
      ensures fresh(Cells)
      ensures Cells.Length == width
      ensures forall i :: 0 <= i < width ==> Cells[i] == null
    {
      Cells := new array?<Cell>[width](_ => null);
    }

    /** The template for a new generation. The outer array gets gridHeight slots
        (not gridWidth); rows 0..gridWidth-1 get gridHeight fresh cells each and
        the slots from gridWidth on stay unset. A row index at or past gridHeight
        would not exist, hence gridWidth <= gridHeight. The cells of the new
        rows are placeholders until the caller writes them. */
    static method GenerateEmptyGrid(gridWidth: nat, gridHeight: nat) returns (grid: Grid)
      requires gridWidth <= gridHeight
      ensures fresh(grid) && fresh(grid.Cells)
      ensures grid.Cells.Length == gridHeight
      ensures forall i :: 0 <= i < gridWidth ==>
                grid.Cells[i] != null && fresh(grid.Cells[i]) && grid.Cells[i].Length == gridHeight
      ensures forall i :: gridWidth <= i < gridHeight ==> grid.Cells[i] == null
      ensures forall i, j :: 0 <= i < j < gridWidth ==> grid.Cells[i] != grid.Cells[j]
      ensures WellFormed(grid, gridWidth, gridHeight)
    {
      grid := new Grid(gridHeight);
      for i := 0 to gridWidth
        invariant forall k :: 0 <= k < i ==>
                    grid.Cells[k] != null && fresh(grid.Cells[k]) && grid.Cells[k].Length == gridHeight
        invariant forall k :: i <= k < gridHeight ==> grid.Cells[k] == null
        invariant forall k, l :: 0 <= k < l < i ==> grid.Cells[k] != grid.Cells[l]
      {
        grid.Cells[i] := new Cell[gridHeight];
      }
    }
  }

  /** Rows 0..w-1 are set and hold at least h cells each. Cells from column h on
      are never read by the game, so longer rows are accepted. */
  ghost predicate WellFormed(g: Grid, w: nat, h: nat)
    reads g.Cells
  {
    w <= g.Cells.Length && forall r :: 0 <= r < w ==> g.Cells[r] != null && g.Cells[r].Length >= h
  }

  /** The row arrays 0..w-1 of g. */
  ghost function Rows(g: Grid, w: nat): set<object>
    requires w <= g.Cells.Length
    reads g.Cells
  {
    set r | 0 <= r < w && g.Cells[r] != null :: g.Cells[r] as object
  }

  /** The board a well-formed grid currently holds: columns 0..h-1 of rows 0..w-1. */
  ghost function GridValue(g: Grid, w: nat, h: nat): (v: Board)
    requires WellFormed(g, w, h)
    reads g.Cells, Rows(g, w)
    ensures IsBoard(v, w, h)
    ensures forall r :: 0 <= r < w ==> v[r] == g.Cells[r][..h]
    decreases w
  {
    if w == 0 then [] else GridValue(g, w - 1, h) + [g.Cells[w - 1][..h]]
  }
}
