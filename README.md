# Green versus Red, modelled in Dafny

Green versus Red is a two-colour cellular automaton on a rectangular grid. A cell
holds the string `"1"` (green) or `"0"` (red). One generation step rewrites every cell
from the number of green cells in its clamped 3x3 window, the cell itself left out:

- a cell holding `"0"` turns green on 3 or 6 green neighbours;
- any other cell is green afterwards on 2, 3 or 6 green neighbours;
- otherwise the cell becomes red.

A game stores generation 0 (the initial grid). `Start` appends generations
1..NumberOfGenerations, each computed from the one before it. The query counts the
stored generations in which one cell is green. If the coordinates lie outside the
grid, it fails with the error "The entered coordinates are out of range.".

The grid keeps the program's asymmetric indexing. The outer index `row` ranges over
`[0, GridWidth)` and the inner index `col` over `[0, GridHeight)`. The query's `x` is
the inner index and its `y` the outer one.

The project has four modules:

- `Cells` (`cell.dfy`): the cell (src/GreenVersusRed/Models/Cell.cs:11 and 25-28), an immutable box around any string.
  - `IsGreen` is the `"1"` test the neighbour count and the query use (src/GreenVersusRed/Models/Game.cs:94, 126).
  - `IsRed` is the `"0"` test the rule applies to the cell itself (src/GreenVersusRed/Models/Game.cs:133).
- `Rules` (`rules.dfy`): the rule on board values (`seq<seq<Cell>>`).
  - The neighbour count mirrors the two counting loops (`SliceCount`, `WindowCount`).
  - It is proved equal to the size of an independently defined set of green neighbours.
  - `Step` advances a board by one generation; `Evolution` lists generations 0..n.
  - `GreenGenerations` is the set of generations in which one cell is green.
- `Grids` (`grid.dfy`): the jagged array `Cells` and the template factory, imperative as in the source.
- `Games` (`game.dfy`): the game as a class over a sequence of grids.
  - `Start`, the per-cell update and the query are methods with loops.
  - Each is proved against the `Rules` functions.
  - The ghost field `History` holds the board each stored grid contains.

`GenerateEmptyGrid(w, h)` allocates `h` row slots, not `w`. It fills rows `0..w-1` with
`h` cells each and leaves the remaining slots unset. The model therefore requires
`w <= h` there, the guard the program's console front end applies before any simulation.

## Model

| member | source | states |
|---|---|---|
| Grids.Grid.constructor | src/GreenVersusRed/Models/Grid.cs:17-20 | a new outer array of exactly `width` row slots, all unset |
| Grids.Grid.GenerateEmptyGrid | src/GreenVersusRed/Models/Grid.cs:30-40 | requires `w <= h`. The outer array has `h` slots (not `w`). Rows `0..w-1` are fresh, pairwise distinct and hold `h` cells each. Slots `w..h-1` stay unset |
| Rules.NeighbourCountIsGreenNeighbours | src/GreenVersusRed/Models/Game.cs:113-131 | the count the loops accumulate equals the number of green cells in the clamped window `max(row-1,0)..min(row+1,W-1)` x `max(col-1,0)..min(col+1,H-1)`, the cell itself excluded |
| Rules.WindowSetIsGreenNeighbours | src/GreenVersusRed/Models/Game.cs:121-131 | the cells the two loops visit and count (column by column, the cell itself skipped) are exactly the green neighbours in the clamped window |
| Rules.SliceCountIsSize | src/GreenVersusRed/Models/Game.cs:123-130 | the inner loop's count over one column is the size of the set of green cells it visits |
| Rules.WindowCountIsSize | src/GreenVersusRed/Models/Game.cs:121-131 | the outer loop's count over several columns is the size of the set of green cells it visits |
| Rules.NeighbourCountBounds | src/GreenVersusRed/Models/Game.cs:113-131 | at most 8 green neighbours; at most 5 on an edge; at most 3 in a corner |
| Rules.NextCellRule | src/GreenVersusRed/Models/Game.cs:133-151 | a `"0"` cell becomes green iff the count is 3 or 6; any other cell iff it is 2, 3 or 6; the result is always the green or the red cell |
| Rules.NextCellLocal | src/GreenVersusRed/Models/Game.cs:111-151 | boards that agree inside the clamped window of a cell give it the same count and the same next value |
| Rules.Step | src/GreenVersusRed/Models/Game.cs:64-70 | the next board has the same shape, and every cell of it is `"1"` or `"0"` |
| Rules.AllRedIsFixed | src/GreenVersusRed/Models/Game.cs:137-142 | an all-red board is unchanged by a step, since a red cell needs 3 or 6 green neighbours |
| Rules.Evolution | src/GreenVersusRed/Models/Game.cs:56-76 | generations 0..n of a board: `n + 1` boards (one when `n <= 0`), the first being the board itself, all of the same shape |
| Rules.EvolutionChain | src/GreenVersusRed/Models/Game.cs:72-74 | every generation after the first is the step of the one before it |
| Rules.EvolutionNext | src/GreenVersusRed/Models/Game.cs:72-74 | generation n is the step of generation n-1, and the list for n extends the list for n-1 by exactly that board |
| Rules.EvolutionPrefix | src/GreenVersusRed/Models/Game.cs:60-75 | running fewer generations yields a prefix of running more |
| Rules.GreenGenerationsSnoc | src/GreenVersusRed/Models/Game.cs:92-98 | one more generation adds its own index to the set of green generations exactly when the cell is green in it |
| Rules.GreenGenerationsBound | src/GreenVersusRed/Models/Game.cs:84-102 | the count of green generations never exceeds the number of generations |
| Rules.AllRedNeverGreen | src/GreenVersusRed/Models/Game.cs:84-102 | starting from an all-red board, no cell is green in any generation |
| Rules.OtherValueAsymmetry | src/GreenVersusRed/Models/Game.cs:126-151 | the own-cell test is `== "0"` but the neighbour test is `== "1"`. So a cell holding `"2"` between two green cells survives on 2 neighbours, while a red one dies. The `"2"` cell is not a green neighbour of its neighbours |
| Rules.PlusCentre | src/GreenVersusRed/Models/Game.cs:111-151 | in the plus `"010"`, `"111"`, `"010"` the centre has 4 green neighbours. It turns red, so over one generation it is green only in generation 0 |
| Games.Game.constructor | src/GreenVersusRed/Models/Game.cs:45-51 | the width, height and generation count are stored unchanged; `Generations == [initialGrid]` |
| Games.Game.Start | src/GreenVersusRed/Models/Game.cs:56-76 | appends exactly `max(NumberOfGenerations, 0)` grids and leaves the stored ones untouched. The appended boards are generations 1..n evolved from `Generations[0]`, not from the last stored grid. The game invariant is kept |
| Games.Game.NextGeneration | src/GreenVersusRed/Models/Game.cs:62-70 | a fresh template with the factory's shape: `H` row slots, rows `0..W-1` of `H` cells, slots `W..H-1` unset. Every cell `(row, col)`, `row < W`, `col < H`, holds the step of the current grid |
| Games.Game.AddGeneration | src/GreenVersusRed/Models/Game.cs:72-74 | the new grid is appended at the end of `Generations`, and the game invariant is kept |
| Games.Game.GetNextGenerationValueForCell | src/GreenVersusRed/Models/Game.cs:111-151 | writes the rule's value into `newGeneration.Cells[row][col]` and changes no other cell; it reads only `grid` |
| Games.Game.AreCoordinatesValid | src/GreenVersusRed/Models/Game.cs:161-168 | succeeds, and then always with `true`, exactly when `0 <= y < GridWidth` and `0 <= x < GridHeight`; otherwise fails with the out-of-range error and its message |
| Games.Game.CalculateGreenCellsInAllGenerations | src/GreenVersusRed/Models/Game.cs:84-102 | fails with the out-of-range error exactly for coordinates outside the grid. Otherwise it returns the number of stored generations in which `[y][x]` is green, at most `Generations.Count`. It changes nothing |

## Left out

- The console front end (src/GreenVersusRed/Engine.cs) is not part of this model: input reading, comma splitting, integer parsing and printing. Its guard `gridWidth <= gridHeight` appears only as a precondition of `GenerateEmptyGrid`, `NextGeneration` and `Start` (the latter only when generations are computed). Its bound `gridHeight <= 1000` plays no part in the core and is left out.
- Games.Game.Start: with `GridWidth > GridHeight` and at least one generation the program fails with an index-out-of-range fault while filling the template. The model excludes that call by the precondition rather than modelling the fault.
- Games.Game.constructor: requires rows `0..W-1` of the initial grid to be present with at least `H` cells each. Longer rows are accepted and their extra cells are never read, as in the program. A missing row or a row shorter than `H` is excluded. The program faults on such a grid in `Start` whenever it computes a generation, because the rule reads every cell (src/GreenVersusRed/Models/Game.cs:133). It faults in the query only if the query reads the missing cell. With `NumberOfGenerations <= 0` and a query elsewhere the program runs normally; the model excludes that input.
- Null as a runtime state. The parameterless `Cell()` constructor, which leaves `Value` null, is not modelled. A freshly allocated row holds default cells (`Cell("")`) instead of null references. Only unset row slots are modelled, as null entries of the outer array. Every cell read is one written before.
- Cells hold any string, as in the program; the game itself only writes `"1"` and `"0"`. No other validation exists, so none is modelled.
- Integer widths. Sizes and counts are unbounded `nat`s. Negative sizes, which the program would reject at array allocation, are excluded by the types. No count in the core can approach 32-bit limits.
- Aliasing of the initial grid. `Generations[0]` is the caller's grid. The game invariant assumes no one else writes its arrays after construction. Writes by other code are not modelled.
- Exceptions are values. The out-of-range exception is the `Failure` of a `Result`; propagation to the console message is front-end behaviour.
- The row and column loops of one generation sit in `NextGeneration`, and the list append in `AddGeneration`, as separate methods called from `Start`. The computation is unchanged.
