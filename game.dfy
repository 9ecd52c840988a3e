/** The simulation: the grid dimensions, the number of generations to compute,
    and the list of generation grids, generation 0 first. */
module Games {
  import opened Cells
  import opened Rules
  import opened Grids

  /** The failure the coordinate check raises. */
  datatype Error = IndexOutOfRange(message: string)

  const OutOfRangeMessage: string := "The entered coordinates are out of range."

  /** A value, or the error that stopped the computation of it. */
  datatype Result<T> = Success(value: T) | Failure(error: Error) {
    predicate IsFailure() { Failure? }

    function PropagateFailure<U>(): Result<U>
      requires Failure?
    {
      Failure(error)
    }

    function Extract(): T
      requires Success?
    {
      value
    }
  }

  class Game {
    const GridWidth: nat
    const GridHeight: nat
    const NumberOfGenerations: int

    /** The stored generation grids. */
    var Generations: seq<Grid>

    /** The boards the stored grids hold, generation by generation. */
    ghost var History: seq<Board>

    /** Every array of every stored grid. */
    ghost var Repr: set<object>

    ghost predicate Valid()
      reads this, Repr
    {
      |Generations| == |History| && |Generations| >= 1 &&
      (forall k :: 0 <= k < |Generations| ==>
        Generations[k].Cells in Repr && WellFormed(Generations[k], GridWidth, GridHeight) &&
        IsBoard(History[k], GridWidth, GridHeight)) &&
      (forall k, r :: 0 <= k < |Generations| && 0 <= r < GridWidth ==> Generations[k].Cells[r] in Repr) &&
      (forall k, r, c :: 0 <= k < |Generations| && 0 <= r < GridWidth && 0 <= c < GridHeight ==>
        Generations[k].Cells[r][c] == History[k][r][c])
    }

    /** A game whose only generation is initialGrid. */
    constructor (gridWidth: nat, gridHeight: nat, numberOfGenerations: int, initialGrid: Grid)
      requires WellFormed(initialGrid, gridWidth, gridHeight)
      ensures Valid()
      ensures GridWidth == gridWidth && GridHeight == gridHeight
      ensures NumberOfGenerations == numberOfGenerations
      ensures Generations == [initialGrid]
      ensures History == [GridValue(initialGrid, gridWidth, gridHeight)]
    {
      GridWidth := gridWidth;
      GridHeight := gridHeight;
      NumberOfGenerations := numberOfGenerations;
      Generations := [initialGrid];
      History := [GridValue(initialGrid, gridWidth, gridHeight)];
      Repr := {initialGrid.Cells} + Rows(initialGrid, gridWidth);
    }

    /** Computes generations 1..NumberOfGenerations, each from the one before,
        starting again from Generations[0], and appends them. The template for each
        generation has GridHeight row slots, so with GridWidth > GridHeight only
        NumberOfGenerations <= 0 avoids indexing past it. */
    method Start()
      requires Valid()
      requires NumberOfGenerations <= 0 || GridWidth <= GridHeight
      modifies this
      ensures Valid() && fresh(Repr - old(Repr))
      ensures |Generations| == old(|Generations|) + Max(NumberOfGenerations, 0)
      ensures Generations[..old(|Generations|)] == old(Generations)
      ensures History == old(History) + Evolution(old(History)[0], GridWidth, GridHeight, NumberOfGenerations)[1..]
    {
      ghost var first, stored, boards := History[0], Generations, History;
      ghost var gridIndex := 0;
      var grid := Generations[0];
      var i := 1;
      while i <= NumberOfGenerations
        invariant 1 <= i && (NumberOfGenerations <= 0 ==> i == 1)
        invariant NumberOfGenerations > 0 ==> i <= NumberOfGenerations + 1
        invariant Valid() && fresh(Repr - old(Repr))
        invariant stored <= Generations
        invariant History == boards + Evolution(first, GridWidth, GridHeight, i - 1)[1..]
        invariant 0 <= gridIndex < |Generations| && grid == Generations[gridIndex]
        invariant History[gridIndex] == Evolution(first, GridWidth, GridHeight, i - 1)[i - 1]
      {
        ghost var previous := History[gridIndex];
        var newGeneration := NextGeneration(grid, previous);
        ghost var next := Step(previous, GridWidth, GridHeight);
        EvolutionNext(first, GridWidth, GridHeight, i);
        grid := newGeneration;
        gridIndex := |Generations|;
        AddGeneration(grid, next);
        i := i + 1;
      }
    }

    /** One generation: a fresh template from GenerateEmptyGrid, then the row and
        column loops that write the next value of every cell (row, col), row < GridWidth,
        col < GridHeight, reading only grid, whose board is previous. */
    method NextGeneration(grid: Grid, ghost previous: Board) returns (newGeneration: Grid)
      requires GridWidth <= GridHeight
      requires WellFormed(grid, GridWidth, GridHeight) && IsBoard(previous, GridWidth, GridHeight)
      requires forall r, c :: 0 <= r < GridWidth && 0 <= c < GridHeight ==> grid.Cells[r][c] == previous[r][c]
      ensures fresh(newGeneration.Cells) && WellFormed(newGeneration, GridWidth, GridHeight)
      ensures forall r :: 0 <= r < GridWidth ==> fresh(newGeneration.Cells[r])
      ensures newGeneration.Cells.Length == GridHeight
      ensures forall r :: 0 <= r < GridWidth ==> newGeneration.Cells[r].Length == GridHeight
      ensures forall r :: GridWidth <= r < GridHeight ==> newGeneration.Cells[r] == null
      ensures forall r, c :: 0 <= r < GridWidth && 0 <= c < GridHeight ==>
                newGeneration.Cells[r][c] == Step(previous, GridWidth, GridHeight)[r][c]
    {
      newGeneration := Grid.GenerateEmptyGrid(GridWidth, GridHeight);
      for rowIndex := 0 to GridWidth
        invariant WellFormed(newGeneration, GridWidth, GridHeight)
        invariant forall r :: 0 <= r < GridWidth ==> newGeneration.Cells[r].Length == GridHeight
        invariant forall r :: GridWidth <= r < GridHeight ==> newGeneration.Cells[r] == null
        invariant forall r :: 0 <= r < GridWidth ==> fresh(newGeneration.Cells[r])
        invariant forall r, s :: 0 <= r < s < GridWidth ==> newGeneration.Cells[r] != newGeneration.Cells[s]
        invariant forall r, c :: 0 <= r < GridWidth && 0 <= c < GridHeight ==> grid.Cells[r][c] == previous[r][c]
        invariant forall r, c :: 0 <= r < rowIndex && 0 <= c < GridHeight ==>
                    newGeneration.Cells[r][c] == NextCell(previous, GridWidth, GridHeight, r, c)
      {
        for colIndex := 0 to GridHeight
          invariant WellFormed(newGeneration, GridWidth, GridHeight)
          invariant forall r :: 0 <= r < GridWidth ==> newGeneration.Cells[r].Length == GridHeight
          invariant forall r :: GridWidth <= r < GridHeight ==> newGeneration.Cells[r] == null
          invariant forall r :: 0 <= r < GridWidth ==> fresh(newGeneration.Cells[r])
          invariant forall r, s :: 0 <= r < s < GridWidth ==> newGeneration.Cells[r] != newGeneration.Cells[s]
          invariant forall r, c :: 0 <= r < GridWidth && 0 <= c < GridHeight ==> grid.Cells[r][c] == previous[r][c]
          invariant forall r, c :: 0 <= r < rowIndex && 0 <= c < GridHeight ==>
                      newGeneration.Cells[r][c] == NextCell(previous, GridWidth, GridHeight, r, c)
          invariant forall c :: 0 <= c < colIndex ==>
                      newGeneration.Cells[rowIndex][c] == NextCell(previous, GridWidth, GridHeight, rowIndex, c)
        {
          GetNextGenerationValueForCell(rowIndex, colIndex, grid, newGeneration, previous);
        }
        forall r, c | 0 <= r < rowIndex + 1 && 0 <= c < GridHeight
          ensures newGeneration.Cells[r][c] == NextCell(previous, GridWidth, GridHeight, r, c)
        {
          // Row rowIndex is covered by the inner loop's last invariant, earlier rows by the outer one.
          if r == rowIndex {
          }
        }
      }
    }

    /** Appends a filled grid whose board is b; its arrays must be new to the game. */
    method AddGeneration(grid: Grid, ghost b: Board)
      requires Valid()
      requires WellFormed(grid, GridWidth, GridHeight) && IsBoard(b, GridWidth, GridHeight)
      requires forall r, c :: 0 <= r < GridWidth && 0 <= c < GridHeight ==> grid.Cells[r][c] == b[r][c]
      requires grid.Cells !in Repr
      requires forall r :: 0 <= r < GridWidth ==> grid.Cells[r] !in Repr
      modifies this
      ensures Valid()
      ensures Generations == old(Generations) + [grid] && History == old(History) + [b]
      ensures Repr == old(Repr) + {grid.Cells} + (set r | 0 <= r < GridWidth :: grid.Cells[r] as object)
    {
      Generations := Generations + [grid];
      History := History + [b];
      Repr := Repr + {grid.Cells} + (set r | 0 <= r < GridWidth :: grid.Cells[r] as object);
    }

    /** Writes the next value of (row, col) into newGeneration; reads only grid,
        whose board is b. */
    method GetNextGenerationValueForCell(row: nat, col: nat, grid: Grid, newGeneration: Grid, ghost b: Board)
      requires row < GridWidth && col < GridHeight
      requires WellFormed(grid, GridWidth, GridHeight) && IsBoard(b, GridWidth, GridHeight)
      requires forall r, c :: 0 <= r < GridWidth && 0 <= c < GridHeight ==> grid.Cells[r][c] == b[r][c]
      requires row < newGeneration.Cells.Length && newGeneration.Cells[row] != null
      requires newGeneration.Cells[row].Length == GridHeight
      requires forall r :: 0 <= r < GridWidth ==> grid.Cells[r] != newGeneration.Cells[row]
      modifies newGeneration.Cells[row]
      ensures newGeneration.Cells[row][col] == NextCell(b, GridWidth, GridHeight, row, col)
      ensures forall c :: 0 <= c < GridHeight && c != col ==>
                newGeneration.Cells[row][c] == old(newGeneration.Cells[row][c])
    {
      var left := Max(row - 1, 0);
      var right := Min(row + 1, GridWidth - 1);
      var top := Max(col - 1, 0);
      var bottom := Min(col + 1, GridHeight - 1);

      var greenCellsCount := 0;
      for colIndex := top to bottom + 1
        modifies {}
        invariant greenCellsCount == WindowCount(b, top, colIndex, left, right + 1, row, col)
      {
        for rowIndex := left to right + 1
          modifies {}
          invariant greenCellsCount == WindowCount(b, top, colIndex, left, right + 1, row, col)
                                       + SliceCount(b, colIndex, left, rowIndex, row, col)
        {
          if !(colIndex == col && rowIndex == row) && grid.Cells[rowIndex][colIndex].value == Green {
            greenCellsCount := greenCellsCount + 1;
          }
        }
      }
      assert greenCellsCount == NeighbourCount(b, GridWidth, GridHeight, row, col);

      var isCellRed := grid.Cells[row][col].value == Red;
      var isGreenCountEqualTo;
      if isCellRed {
        isGreenCountEqualTo := greenCellsCount == 3 || greenCellsCount == 6;
        newGeneration.Cells[row][col] := if isGreenCountEqualTo then Cell(Green) else Cell(Red);
      } else {
        isGreenCountEqualTo := greenCellsCount == 2 || greenCellsCount == 3 || greenCellsCount == 6;
        newGeneration.Cells[row][col] := if isGreenCountEqualTo then Cell(Green) else Cell(Red);
      }
    }

    /** The coordinate check: x is the inner (column) index, y the outer (row) index.
        It either succeeds with true or fails with the out-of-range error. */
    function AreCoordinatesValid(coordinateX: int, coordinateY: int): (r: Result<bool>)
      ensures r.Success? ==> r.value
      ensures r.Success? <==> 0 <= coordinateY < GridWidth && 0 <= coordinateX < GridHeight
      ensures r.Failure? ==> r.error == IndexOutOfRange(OutOfRangeMessage)
    {
      if coordinateY < 0 || coordinateY >= GridWidth || coordinateX < 0 || coordinateX >= GridHeight then
        Failure(IndexOutOfRange(OutOfRangeMessage))
      else
        Success(true)
    }

    /** In how many stored generations cell [coordinateY][coordinateX] is green,
        or the out-of-range error for coordinates outside the grid. */
    method CalculateGreenCellsInAllGenerations(coordinateX: int, coordinateY: int) returns (r: Result<nat>)
      requires Valid()
      ensures r.Failure? <==> !(0 <= coordinateY < GridWidth && 0 <= coordinateX < GridHeight)
      ensures r.Failure? ==> r.error == IndexOutOfRange(OutOfRangeMessage)
      ensures r.Success? ==> r.value == |GreenGenerations(History, coordinateY, coordinateX)|
      ensures r.Success? ==> r.value <= |Generations|
    {
      var count := 0;
      var validCoordinates :- AreCoordinatesValid(coordinateX, coordinateY);
      if validCoordinates {
        for g := 0 to |Generations|
          invariant count == |GreenGenerations(History[..g], coordinateY, coordinateX)|
        {
          GreenGenerationsSnoc(History[..g], History[g], coordinateY, coordinateX);
          assert History[..g + 1] == History[..g] + [History[g]];
          if Generations[g].Cells[coordinateY][coordinateX].value == Green {
            count := count + 1;
          }
        }
      }
      assert History[..|Generations|] == History;
      GreenGenerationsBound(History, coordinateY, coordinateX);
      return Success(count);
    }
  }
}
