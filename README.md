# Maze generation core, modelled in Dafny

This project models the core of a Kotlin maze generator. A maze is a fixed set of cells on a
tiling. A generator turns it into a perfect maze: a spanning tree over the cells' neighbour graph,
carved by removing walls. The model covers:

- the side rules of the triangular (delta) cell: side bits, offsets, opposites and the
  parity-dependent base neighbour (`delta_cell.dfy`);
- the grid indexing of the hexagon-tiled (sigma) maze in its four arrangements, and of the
  square-and-octagon (upsilon) maze (`sigma_maze.dfy`, `upsilon_maze.dfy`). This covers
  construction, bounds-checked lookup, the cell count, column-major enumeration, the per-cell
  visitor, random cells and opening resolution;
- two spanning-tree generators, growing tree and hunt-and-kill (`growing_tree.dfy`,
  `hunt_kill.dfy`). Both run over an abstract maze (`maze_graph.dfy`):
  - cells are numbered `0 .. n-1`, and each has a list of sides that face a neighbour or the
    boundary;
  - a `visited` array and a wall-bitmask array (bit `k` set = wall on side `k` present)
    are updated in place;
  - a ghost log records every `connectWith`.

Main results:

- Each generator leaves the visited cells forming a tree grown leaf by leaf from one root, so
  there is exactly one connection fewer than visited cells. Every connection joins two
  neighbours, and every visited cell is reached from the root through removed walls.
- The walls are present exactly on the sides no connection went through, and no wall bit is set
  beyond a cell's own sides.
- No visited cell is left with an unvisited neighbour (for the growing tree, when its weights sum
  to a positive value). So on a connected neighbour graph every
  cell ends up visited.
- The grid lookups are exact inverses of the storage layout.
- The sigma cell counts have closed forms: `w*h`, `w(w+1)/2` and `3w^2-3w+1`.

`basics.dfy` holds the `Option`/`Result` wrappers, the error kinds and the side bitmasks shared
by the delta cell and the generators' maze. `geometry.dfy` holds
positions, symbolic opening axes and the column-major enumeration (`Flatten`, `Fold`).

## Model

| member | source | states |
|---|---|---|
| DeltaCell.Side.Value | src/main/kotlin/com/maltaisn/mazegen/maze/DeltaCell.kt:52-58 | each side's value is a single bit within the all-sides value 7 |
| DeltaCell.ValuesDistinct | src/main/kotlin/com/maltaisn/mazegen/maze/DeltaCell.kt:56-58 | the bits of two different sides are different and do not overlap |
| DeltaCell.AllValueIsUnion | src/main/kotlin/com/maltaisn/mazegen/maze/DeltaCell.kt:67-69 | 7 is the bitwise OR of BASE=1, EAST=2 and WEST=4, the mask of all three sides |
| DeltaCell.AllSidesComplete | src/main/kotlin/com/maltaisn/mazegen/maze/DeltaCell.kt:45-69 | the side list holds each of the three sides exactly once |
| DeltaCell.Side.RelativePos | src/main/kotlin/com/maltaisn/mazegen/maze/DeltaCell.kt:52-58 | only BASE has no fixed offset; EAST and WEST step one column on the same row |
| DeltaCell.Side.Opposite | src/main/kotlin/com/maltaisn/mazegen/maze/DeltaCell.kt:60-65 | BASE is its own opposite and is the only such side |
| DeltaCell.OppositeInvolution | src/main/kotlin/com/maltaisn/mazegen/maze/DeltaCell.kt:60-65 | opposite is an involution, and swaps EAST and WEST |
| DeltaCell.OppositeOffsetNegated | src/main/kotlin/com/maltaisn/mazegen/maze/DeltaCell.kt:56-65 | a side's offset and its opposite's offset cancel out |
| DeltaCell.BaseTarget | src/main/kotlin/com/maltaisn/mazegen/maze/DeltaCell.kt:37-40 | the base neighbour is on the same column, one row up exactly when `(x+y) % 2 == 0`, else one row down, and has the other parity |
| DeltaCell.BaseTargetSymmetric | src/main/kotlin/com/maltaisn/mazegen/maze/DeltaCell.kt:37-40 | the base neighbour's base neighbour is the cell itself |
| DeltaCell.SideTarget | src/main/kotlin/com/maltaisn/mazegen/maze/DeltaCell.kt:36-43 | the looked-up position is never the cell itself; EAST/WEST add the side's offset |
| DeltaCell.CellOnSide | src/main/kotlin/com/maltaisn/mazegen/maze/DeltaCell.kt:36-43 | the neighbour on a side is a cell of the maze other than this one, and is present exactly when the maze has a cell at the looked-up position |
| DeltaCell.CellOnSideSymmetric | src/main/kotlin/com/maltaisn/mazegen/maze/DeltaCell.kt:36-65 | if B is on side s of A, then A is on the opposite side of B |
| DeltaCell.SidesLeadApart | src/main/kotlin/com/maltaisn/mazegen/maze/DeltaCell.kt:36-43 | two different sides of a cell never lead to the same neighbour |
| Geometry.Resolve | src/main/kotlin/com/maltaisn/maze/maze/UpsilonMaze.kt:93-106 | START is 0, END is size-1, CENTER is size/2 (inside the axis when size >= 1), and an explicit index is kept as is |
| Geometry.Column | src/main/kotlin/com/maltaisn/maze/maze/SigmaMaze.kt:97-101 | a column holds `rows` cells; cell `j` is at row `j + offset` |
| Geometry.FlattenLength | src/main/kotlin/com/maltaisn/maze/maze/SigmaMaze.kt:130-146 | the enumeration is as long as all columns together |
| Geometry.FlattenMembership | src/main/kotlin/com/maltaisn/maze/maze/SigmaMaze.kt:138-146 | a cell is enumerated exactly when it belongs to some column |
| Geometry.FlattenStep | src/main/kotlin/com/maltaisn/maze/maze/SigmaMaze.kt:139-145 | enumerating one column more appends that column |
| Geometry.FoldStep | src/main/kotlin/com/maltaisn/maze/maze/SigmaMaze.kt:148-154 | visiting one element more applies the visitor once more |
| Geometry.FoldConcat | src/main/kotlin/com/maltaisn/maze/maze/SigmaMaze.kt:148-154 | visiting two runs of cells is visiting the first run, then the second from the state reached |
| Geometry.VisitColumn | src/main/kotlin/com/maltaisn/maze/maze/SigmaMaze.kt:150-152 | visiting a column's cells in row order yields the fold of the visitor over that column |
| Geometry.AppendColumn | src/main/kotlin/com/maltaisn/maze/maze/SigmaMaze.kt:141-143 | appending a column's cells in row order extends the list by exactly that column |
| SigmaMaze.NewLayout | src/main/kotlin/com/maltaisn/maze/maze/SigmaMaze.kt:64-73 | width or height below 1 fails; triangle and hexagon take the width as height; rectangle and rhombus keep the height |
| SigmaMaze.Layout.Columns | src/main/kotlin/com/maltaisn/maze/maze/SigmaMaze.kt:74-83 | there are at least `width` columns (`2*width-1` for a hexagon) |
| SigmaMaze.Layout.Rows | src/main/kotlin/com/maltaisn/maze/maze/SigmaMaze.kt:77-95 | every column holds at least one cell; hexagon columns hold between `width` and `2*width-1` cells |
| SigmaMaze.Layout.Offset | src/main/kotlin/com/maltaisn/maze/maze/SigmaMaze.kt:77-95 | a column's first row is between 0 and the column index |
| SigmaMaze.Layout.Cells | src/main/kotlin/com/maltaisn/maze/maze/SigmaMaze.kt:96-101 | the cell positions are, per column, `(x, y + offset(x))` for each stored row `y` |
| SigmaMaze.CellsMembership | src/main/kotlin/com/maltaisn/maze/maze/SigmaMaze.kt:97-123 | a position is enumerated exactly when the layout contains it |
| SigmaMaze.RowsUpToIsTotal | src/main/kotlin/com/maltaisn/maze/maze/SigmaMaze.kt:130-136 | the running column-length sum equals the length of the first `k` columns |
| SigmaMaze.RowsUpToConstant | src/main/kotlin/com/maltaisn/maze/maze/SigmaMaze.kt:78-93 | rectangle and rhombus columns add up to `k*height` |
| SigmaMaze.RowsUpToTriangle | src/main/kotlin/com/maltaisn/maze/maze/SigmaMaze.kt:87-89 | triangle columns add up to `k(k+1)/2` |
| SigmaMaze.RowsUpToHexagonLeft | src/main/kotlin/com/maltaisn/maze/maze/SigmaMaze.kt:82-86 | the widening half of a hexagon adds up to `k*width + k(k-1)/2` |
| SigmaMaze.RowsUpToHexagonRight | src/main/kotlin/com/maltaisn/maze/maze/SigmaMaze.kt:82-86 | the narrowing half of a hexagon continues that sum, one cell fewer per column |
| SigmaMaze.RowsClosedForm | src/main/kotlin/com/maltaisn/maze/maze/SigmaMaze.kt:74-95 | the column lengths add up to `w*h`, `w(w+1)/2` or `3w^2-3w+1` by arrangement |
| SigmaMaze.CellCountClosedForm | src/main/kotlin/com/maltaisn/maze/maze/SigmaMaze.kt:74-101 | the enumeration of all cells has the closed-form length |
| SigmaMaze.SigmaMaze.constructor | src/main/kotlin/com/maltaisn/maze/maze/SigmaMaze.kt:96-101 | fills the offsets and the columns so that `grid[x][y]` is the cell at `(x, y + rowOffsets[x])` |
| SigmaMaze.SigmaMaze.New | src/main/kotlin/com/maltaisn/maze/maze/SigmaMaze.kt:63-73 | construction fails exactly when a dimension is below 1, and otherwise builds the validated layout |
| SigmaMaze.SigmaMaze.CellAt | src/main/kotlin/com/maltaisn/maze/maze/SigmaMaze.kt:118-123 | returns a cell exactly when the layout contains `(x, y)`, and that cell is at `(x, y)` |
| SigmaMaze.SigmaMaze.CellAtRoundTrip | src/main/kotlin/com/maltaisn/maze/maze/SigmaMaze.kt:97-123 | looking up the position of `grid[x][y]` returns `grid[x][y]` |
| SigmaMaze.SigmaMaze.GetRandomCell | src/main/kotlin/com/maltaisn/maze/maze/SigmaMaze.kt:125-128 | the random cell is a cell of the maze |
| SigmaMaze.SigmaMaze.GetCellCount | src/main/kotlin/com/maltaisn/maze/maze/SigmaMaze.kt:130-136 | the column-by-column count equals the closed form and the length of the enumeration |
| SigmaMaze.SigmaMaze.GetAllCells | src/main/kotlin/com/maltaisn/maze/maze/SigmaMaze.kt:138-146 | the list is every cell, column by column, rows in order within each column |
| SigmaMaze.SigmaMaze.ForEachCell | src/main/kotlin/com/maltaisn/maze/maze/SigmaMaze.kt:148-154 | the visitor sees every cell in the order of GetAllCells |
| SigmaMaze.SigmaMaze.GetOpeningCell | src/main/kotlin/com/maltaisn/maze/maze/SigmaMaze.kt:156-170 | x resolves against the columns and y against the rows of column x, shifted by its offset; an explicit x outside the columns fails; a cell found is in the maze |
| SigmaMaze.SigmaMaze.SymbolicOpeningHits | src/main/kotlin/com/maltaisn/maze/maze/SigmaMaze.kt:156-170 | an opening with symbolic places on both axes always designates a cell |
| UpsilonMaze.GridCells | src/main/kotlin/com/maltaisn/maze/maze/UpsilonMaze.kt:51-55 | the grid has `width` columns of `height` cells, at `(x, y)` |
| UpsilonMaze.GridStep | src/main/kotlin/com/maltaisn/maze/maze/UpsilonMaze.kt:75-83 | the enumeration of a grid is that of the grid one column narrower, then the last column |
| UpsilonMaze.GridLength | src/main/kotlin/com/maltaisn/maze/maze/UpsilonMaze.kt:73-83 | the enumeration has `width*height` cells |
| UpsilonMaze.GridIndexAt | src/main/kotlin/com/maltaisn/maze/maze/UpsilonMaze.kt:77-81 | the cell at `(x, y)` comes at index `x*height + y` |
| UpsilonMaze.GridIndex | src/main/kotlin/com/maltaisn/maze/maze/UpsilonMaze.kt:73-81 | both facts, for every cell |
| UpsilonMaze.UpsilonMaze.constructor | src/main/kotlin/com/maltaisn/maze/maze/UpsilonMaze.kt:51-55 | `grid[x][y]` is the cell at `(x, y)` |
| UpsilonMaze.UpsilonMaze.New | src/main/kotlin/com/maltaisn/maze/maze/UpsilonMaze.kt:47-56 | construction fails exactly when a dimension is below 1 |
| UpsilonMaze.UpsilonMaze.CellAt | src/main/kotlin/com/maltaisn/maze/maze/UpsilonMaze.kt:64-67 | returns a cell exactly when `(x, y)` is inside the grid, and that cell is at `(x, y)` |
| UpsilonMaze.UpsilonMaze.CellAtRoundTrip | src/main/kotlin/com/maltaisn/maze/maze/UpsilonMaze.kt:51-67 | looking up the position of `grid[x][y]` returns `grid[x][y]` |
| UpsilonMaze.UpsilonMaze.GetRandomCell | src/main/kotlin/com/maltaisn/maze/maze/UpsilonMaze.kt:69-71 | the random cell is a cell of the grid |
| UpsilonMaze.UpsilonMaze.GetCellCount | src/main/kotlin/com/maltaisn/maze/maze/UpsilonMaze.kt:73 | the count is positive and equals the length of the enumeration |
| UpsilonMaze.UpsilonMaze.GetAllCells | src/main/kotlin/com/maltaisn/maze/maze/UpsilonMaze.kt:75-83 | the list is every cell, column-major, with `(x, y)` at index `x*height + y` and as many cells as GetCellCount |
| UpsilonMaze.UpsilonMaze.ForEachCell | src/main/kotlin/com/maltaisn/maze/maze/UpsilonMaze.kt:85-91 | the visitor sees every cell in the order of GetAllCells |
| UpsilonMaze.UpsilonMaze.GetOpeningCell | src/main/kotlin/com/maltaisn/maze/maze/UpsilonMaze.kt:93-107 | each axis resolves on its own; a cell is designated exactly when both resolved coordinates are inside the grid, and it is the cell at those coordinates |
| UpsilonMaze.UpsilonMaze.SymbolicOpeningHits | src/main/kotlin/com/maltaisn/maze/maze/UpsilonMaze.kt:93-107 | an opening with symbolic places on both axes always designates a cell |
| Basics.FullMask | src/main/kotlin/com/maltaisn/mazegen/maze/DeltaCell.kt:47-69 | the full side mask of a `d`-sided cell has exactly the walls `0 .. d-1` |
| Basics.OpenSide | src/main/kotlin/com/maltaisn/maze/generator/GrowingTreeGenerator.kt:79 | opening a side clears that wall and keeps every other one |
| Basics.WithinFullMask | src/main/kotlin/com/maltaisn/mazegen/maze/DeltaCell.kt:47-69 | a mask with no wall beyond its first `d` sides has no bit outside the full mask of `d` sides |
| MazeGraph.ReachedAppend | src/main/kotlin/com/maltaisn/maze/generator/GrowingTreeGenerator.kt:79-84 | one more connection adds its new cell to the reached cells |
| MazeGraph.GrowsTreeExtend | src/main/kotlin/com/maltaisn/maze/generator/GrowingTreeGenerator.kt:79-84 | connecting a reached cell to an unreached one keeps the connections a tree grown leaf by leaf |
| MazeGraph.TreeSize | src/main/kotlin/com/maltaisn/maze/generator/GrowingTreeGenerator.kt:76-85 | a tree grown leaf by leaf reaches one cell more than it has connections |
| MazeGraph.GrowsTreePrefix | src/main/kotlin/com/maltaisn/maze/generator/GrowingTreeGenerator.kt:76-85 | every prefix of a log grown leaf by leaf is itself grown leaf by leaf |
| MazeGraph.LinkWalkAppend | src/main/kotlin/com/maltaisn/maze/generator/GrowingTreeGenerator.kt:79-84 | a walk along logged connections extends by one more logged step |
| MazeGraph.LinkWalkTo | src/main/kotlin/com/maltaisn/maze/generator/GrowingTreeGenerator.kt:76-85 | every cell a tree reaches has a walk along logged connections from the root to it |
| MazeGraph.WalkStaysInside | src/main/kotlin/com/maltaisn/mazegen/generator/HuntKillGenerator.kt:104-107 | a walk through neighbours that starts in a set closed under neighbours stays in it |
| MazeGraph.ClosedSetCoversConnected | src/main/kotlin/com/maltaisn/mazegen/generator/HuntKillGenerator.kt:104-107 | on a connected graph, a closed set holding one cell holds every cell |
| MazeGraph.RemoveAtDistinct | src/main/kotlin/com/maltaisn/mazegen/generator/HuntKillGenerator.kt:101 | removing position `i` from a list without repeats drops exactly `list[i]` and keeps it without repeats |
| MazeGraph.Maze.VisitedIsReached | src/main/kotlin/com/maltaisn/maze/generator/GrowingTreeGenerator.kt:79-84 | the cells whose `visited` flag is set are exactly the cells the tree reaches |
| MazeGraph.Maze.LinkedIsOpen | src/main/kotlin/com/maltaisn/maze/generator/GrowingTreeGenerator.kt:79 | two cells joined by a logged connection are neighbours with no wall between them |
| MazeGraph.Maze.CarvedFromRoot | src/main/kotlin/com/maltaisn/maze/generator/GrowingTreeGenerator.kt:76-85 | every visited cell is reached from the root by a walk through removed walls |
| MazeGraph.Maze.TreeSummary | src/main/kotlin/com/maltaisn/maze/generator/GrowingTreeGenerator.kt:76-85 | a tree grown from the root has one connection fewer than visited cells, and every visited cell is joined to the root through removed walls |
| MazeGraph.Maze.WallsWithinSides | src/main/kotlin/com/maltaisn/maze/generator/GrowingTreeGenerator.kt:79 | while the walls match the connections, no cell has a wall bit set beyond its own sides |
| MazeGraph.Maze.CarvingDrop | src/main/kotlin/com/maltaisn/mazegen/generator/HuntKillGenerator.kt:98-101 | a listed cell with no unvisited neighbour can leave the list and the carving invariant still holds |
| MazeGraph.Maze.FinishedMeansAllVisited | src/main/kotlin/com/maltaisn/mazegen/generator/HuntKillGenerator.kt:104-107 | if no visited cell has an unvisited neighbour and the graph is connected, every cell is visited |
| MazeGraph.Maze.Reset | src/main/kotlin/com/maltaisn/maze/generator/GrowingTreeGenerator.kt:66 | every wall back, every `visited` flag cleared, no connection |
| MazeGraph.Maze.FillAll | src/main/kotlin/com/maltaisn/mazegen/generator/HuntKillGenerator.kt:60 | every wall back; the `visited` flags are not touched |
| MazeGraph.Maze.SideToward | src/main/kotlin/com/maltaisn/maze/generator/GrowingTreeGenerator.kt:79 | finds the side of `a` that faces `b` |
| MazeGraph.Maze.UnvisitedNeighbour | src/main/kotlin/com/maltaisn/maze/generator/GrowingTreeGenerator.kt:76-87 | returns an unvisited neighbour, and returns none exactly when the cell has no unvisited neighbour |
| MazeGraph.Maze.ConnectWith | src/main/kotlin/com/maltaisn/maze/generator/GrowingTreeGenerator.kt:79 | removes the wall between `a` and `b` on both cells, changes no other wall, logs the connection, and keeps the walls matching the connections |
| MazeGraph.Maze.ConnectAndVisit | src/main/kotlin/com/maltaisn/maze/generator/GrowingTreeGenerator.kt:79-84 | the tree grows by the leaf `b`, only `b` becomes visited, and a cell that had no unvisited neighbour still has none |
| GrowingTree.Choose | src/main/kotlin/com/maltaisn/maze/generator/GrowingTreeGenerator.kt:101-111 | a weight sum of 0 or less throws; otherwise the chosen cell is a member of the list |
| GrowingTree.NewestOnlyChoosesLast | src/main/kotlin/com/maltaisn/maze/generator/GrowingTreeGenerator.kt:105-108 | with only the newest weight, the last cell is chosen |
| GrowingTree.RandomOnlyChoosesPick | src/main/kotlin/com/maltaisn/maze/generator/GrowingTreeGenerator.kt:105-106 | with only the random weight, the uniformly picked cell is chosen |
| GrowingTree.OldestOnlyChoosesFirst | src/main/kotlin/com/maltaisn/maze/generator/GrowingTreeGenerator.kt:105-108 | with only the oldest weight, the first cell is chosen |
| GrowingTree.DefaultChoosesPickOrLast | src/main/kotlin/com/maltaisn/maze/generator/GrowingTreeGenerator.kt:61-107 | the default weights (1, 1, 0) choose the picked cell or the last cell |
| GrowingTree.RemoveFirst | src/main/kotlin/com/maltaisn/maze/generator/GrowingTreeGenerator.kt:90 | removing a cell that is absent changes nothing; removing one that is present shortens the list by one |
| GrowingTree.RemoveFirstAt | src/main/kotlin/com/maltaisn/maze/generator/GrowingTreeGenerator.kt:90 | when the first occurrence is at `i`, removal drops position `i` and keeps the order |
| GrowingTree.GrowingTreeGenerator.constructor | src/main/kotlin/com/maltaisn/maze/generator/GrowingTreeGenerator.kt:61-63 | a new generator uses the weights (1, 1, 0) |
| GrowingTree.GrowingTreeGenerator.SetChooseByWeight | src/main/kotlin/com/maltaisn/maze/generator/GrowingTreeGenerator.kt:101-111 | sets the three weights |
| GrowingTree.GrowingTreeGenerator.GrowOrDrop | src/main/kotlin/com/maltaisn/maze/generator/GrowingTreeGenerator.kt:73-91 | when the chosen cell has an unvisited neighbour `b`, the log gains exactly `(current, b)` and the list gains `b` at its end; otherwise the chosen cell is removed from the list and the log, the `visited` flags and the walls are unchanged; in both cases every listed cell stays visited and listed once, and the tree and walls stay consistent |
| GrowingTree.GrowingTreeGenerator.Generate | src/main/kotlin/com/maltaisn/maze/generator/GrowingTreeGenerator.kt:65-93 | succeeds exactly when the weight sum is positive; every logged connection joins two neighbours and the log grows a tree from the root over exactly the visited cells, with connections = visited cells - 1 and walls matching the connections; every visited cell is joined to the root through removed walls; on success no visited cell has an unvisited neighbour, and a connected maze ends fully visited |
| HuntKill.Steps | src/main/kotlin/com/maltaisn/mazegen/generator/HuntKillGenerator.kt:71-86 | the steps of a walk are its consecutive pairs, one fewer than its cells |
| HuntKill.StepsAppend | src/main/kotlin/com/maltaisn/mazegen/generator/HuntKillGenerator.kt:73-81 | one more cell on the walk adds one step, from the walk's former last cell |
| HuntKill.Advance | src/main/kotlin/com/maltaisn/mazegen/generator/HuntKillGenerator.kt:73-81 | the neighbour joins the tree by the single connection `(last, cell)`, becomes visited and is appended to the list |
| HuntKill.Kill | src/main/kotlin/com/maltaisn/mazegen/generator/HuntKillGenerator.kt:71-86 | the list of cells only grows at its end, by the cells walked; the log only grows, by exactly the steps of the walk from `current` through those cells, so each new connection runs from one walked cell to the next; the walk ends at a cell without an unvisited neighbour; only sets cells visited; visits at least one cell when the start had an unvisited neighbour |
| HuntKill.Hunt | src/main/kotlin/com/maltaisn/mazegen/generator/HuntKillGenerator.kt:89-103 | changes nothing in the maze; keeps only listed cells; a cell found has an unvisited neighbour; not finding one empties the list |
| HuntKill.Generate | src/main/kotlin/com/maltaisn/mazegen/generator/HuntKillGenerator.kt:57-109 | every logged connection joins two neighbours and the log grows a tree from the root over exactly the visited cells, with connections = visited cells - 1 and walls matching the connections; every visited cell is joined to the root through removed walls; no visited cell has an unvisited neighbour, and a connected maze ends fully visited |

## Left out

- Drawing (`drawTo`), `toString`, the configuration parser and the orthogonal maze are not part of
  this model.
- `Cell`, `Maze`, `connectWith`, `getNeighbors`, `reset` and `fillAll` are not part of the
  sources modelled. They are modelled by `MazeGraph.Maze`:
  - `reset(false)` puts every wall back, clears every `visited` flag and empties the log;
  - `fillAll` puts every wall back and leaves `visited` alone.
- Cells are modelled by their positions in the grid mazes, and by numbers in the generators'
  abstract maze. Nothing ties a concrete tiling's neighbour lists to the abstract maze.
- Randomness is not modelled. `getRandomCell`, `Random.nextInt`, `list.random()` and the
  weighted draw are nondeterministic choices within their ranges. The shuffled neighbour scan is
  "some unvisited neighbour". Neither uniformity nor the non-uniformity of the sigma random cell
  (column first) is modelled.
- GrowingTree.GrowingTreeGenerator: a custom `cellChooser` assigned directly is not modelled. Only
  the chooser built from the three weights is.
- HuntKill.Generate requires every cell to be unvisited on entry, as on a newly built maze. The
  generator itself never clears the flags.
- Geometry.AxisPos: symbolic and explicit axis positions are separate cases. An explicit index equal
  to the integer code of a symbolic position would be read symbolically by the source; the codes'
  values are not part of this model.
- SigmaMaze.SigmaMaze.GetOpeningCell: an explicit x outside the columns makes the source index an
  array out of bounds. This is modelled as a `Failure`, while the upsilon maze returns no cell for
  any out-of-range opening.
- Kotlin's 32-bit `Int` overflow in index arithmetic and cell counts is not modelled: integers are
  unbounded.
- The sigma constructor taking a single size is `NewLayout(size, size, arrangement)` and is not
  given its own member.
- MazeGraph.Maze.constructor stands for the construction of a maze whose tiling code is not part
  of this model; it takes the side lists and starts every cell unvisited, with every wall present
  and an empty log.
- SigmaMaze.SigmaMaze.ForEachCell and UpsilonMaze.UpsilonMaze.ForEachCell: the visitor's side
  effects are modelled as a pure fold threading a state; only the visiting order and count are
  captured.
- Side symbols (`"B"`, `"E"`, `"W"`) are display text and are left out.
- Boundary openings (`createOpening`) are not part of this model: the walls are related to the connections only.
