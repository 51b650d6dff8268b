# MazeGenerate in Dafny

MazeGenerate builds a perfect maze on an n×n grid of cells. It lists every
internal wall, then draws walls at random and takes one down whenever its two
cells are not yet connected, using a union-find forest. It stops once all
cells form one tree. The removed walls are recorded as positions in a text
grid of n+1 rows and 2n+1 columns, and that grid is drawn with `_`, `|` and
blanks, leaving the entrance at (1, 0) and the exit at (n, 2n) open.

The project has five modules:

- `UnionFind` (forest.dfy): the parent array as a sequence. `Root` is what `find` computes and `Link` is what `union` writes. Every link points to a strictly larger cell, and the lemmas prove what that gives: `find` terminates, a root is the maximum of its class, and exactly one cell is absorbed per successful union.
- `Walls` (walls.dfy): the wall list `getAllWalls` produces, given as a recursive function. It covers exactly the right and bottom walls, has 2·n·(n−1) elements, is ordered and has no duplicates. The module also has the text-grid position the `Wall` constructor computes, which is injective and never hits the entrance or exit.
- `Generation` (generation.dfy): one run of the `generateMaze` loop as a sequence of states driven by a finite list of random draws. The loop invariant is proved to hold at every step. A run never calls `nextInt(0)`. When it finishes it has removed exactly n²−1 walls, and any two cells are joined by a path through removed walls, so the removed walls form a spanning tree of the grid.
- `Maze` (maze.dfy): the class `MazeGenerate`, whose fields are the parent array and `allCell`. `Find`, `Union`, `GetAllWalls`, `IsContinue`, `GenerateMaze` and `GetDeletedWalls` are imperative methods proved against the functions of the modules above.
- `Render` (render.dfy): the glyph rule of `getToPrintStr` and the two nested loops of `printMaze`/`saveToText`, which collect rows instead of writing them. The lemmas tie the drawing to a run: the border stays closed except at the entrance and exit, and an internal wall is drawn blank exactly when the run removed it.

Random numbers come from a parameter `draws: seq<nat>`. Iteration t uses `data[draws[t] % |data|]`. A run ends as `Done` when `isContinue()` turns false and as `OutOfDraws` when the draws are used up first. A third outcome, `Stuck`, would mean `nextInt(0)` on an empty list, and it is proved impossible.

The code and the doc comment at MazeGenerate.java:14-16 agree that exactly n²−1 walls are removed. That holds for the first `generateMaze` on a fresh object, but not for a second call on the same object (see Findings). The class model follows the corrected behaviour and clears `allCell` before the loop.

## Model

| member | source | states |
|---|---|---|
| UnionFind.Root | MazeGenerate.java:45-51 | the cell `find(i)` returns is a root (parent -1) and is at least i, so following links terminates on an ordered forest |
| UnionFind.RootIsClassMax | MazeGenerate.java:39-51 | `find(i)` returns the largest cell of i's class, and that root is its own root |
| UnionFind.Absorbed | MazeGenerate.java:65-72 | `union` records a cell exactly when i and j have different roots; the recorded cell was a root and is linked afterwards |
| UnionFind.Link | MazeGenerate.java:59-73 | `union` keeps the array's length and keeps every link pointing to a strictly larger cell |
| UnionFind.LinkRoots | MazeGenerate.java:59-73 | after `union(i, j)` every cell of i's or j's class has root max(r1, r2), and every other cell keeps its root |
| UnionFind.LinkJoins | MazeGenerate.java:59-73 | with equal roots nothing changes and nothing is added to allCell; otherwise only slot min(r1, r2) changes, it becomes max(r1, r2), i and j then share that root, and cells that shared a root still do |
| UnionFind.LinkNonRoots | MazeGenerate.java:65-72 | a successful union adds exactly min(r1, r2) to allCell; that cell was a root, not yet recorded, and the absorbed count grows by one |
| UnionFind.LastIsRoot | MazeGenerate.java:156-160 | the last cell is always a root, so `find(0) == size - 1` means cell 0 is in the last cell's class |
| UnionFind.OneTree | MazeGenerate.java:156-164 | every cell has root size-1 if and only if at least size-1 cells are absorbed, and then the absorbed cells are exactly 0..size-2 |
| Walls.Coordinate | MazeGenerate.java:255-269 | the position a `Wall` gets lies below row 0 and in a column left of the right border 2n |
| Walls.CellWalls | MazeGenerate.java:84-103 | one loop iteration appends one or two walls, each from cell i to cell i+1 or cell i+n |
| Walls.WallsBefore | MazeGenerate.java:82-105 | the walls listed for cells below m have a first cell below m and a second cell above it and inside the grid |
| Walls.Grid | MazeGenerate.java:78-107 | every wall `getAllWalls` returns joins two cells of the grid, the first smaller than the second |
| Walls.WallsBeforeNext | MazeGenerate.java:82-105 | one iteration of the `getAllWalls` loop appends, branch by branch, the bottom wall only, the right wall only, or the right wall then the bottom wall |
| Walls.CellWallsMembers | MazeGenerate.java:84-103 | one loop iteration appends exactly cell i's right wall (unless i ends its row) and its bottom wall (unless i is in the last row) |
| Walls.WallsBeforeMembers | MazeGenerate.java:82-105 | after handling cells 0..m-1 the list holds exactly the right and bottom walls of those cells |
| Walls.GridMembers | MazeGenerate.java:78-107 | a wall is in `getAllWalls()` if and only if it is (i, i+1) with (i+1) % n != 0 or (i, i+n) with i+n < n·n |
| Walls.WallsBeforeSize | MazeGenerate.java:82-105 | the length of the list after m cells, counting the walls skipped at row ends and in the last row |
| Walls.GridSize | MazeGenerate.java:78-107 | `getAllWalls()` returns 2·n·(n−1) walls, none for n = 1 |
| Walls.WallsBeforeSorted | MazeGenerate.java:82-105 | the partial list is strictly increasing by first cell, then second cell |
| Walls.GridSorted | MazeGenerate.java:78-107 | the whole list is strictly increasing by first cell and then second cell, and has no duplicates |
| Walls.CoordinateOfWall | MazeGenerate.java:255-269 | a right wall (i, i+1) is at (i/n+1, 2(i%n)+2), a bottom wall (i, i+n) at (i/n+1, 2(i%n)+1); every position is inside the text grid, and a bottom wall is above its last row |
| Walls.CoordinateInjective | MazeGenerate.java:255-269 | distinct walls get distinct positions, and no wall's position is the entrance (1, 0) or the exit (n, 2n) opened at lines 120-121 |
| Generation.Fixed | MazeGenerate.java:118-121 | the two positions opened before the loop are distinct and lie on the side borders, columns 0 and 2n |
| Generation.Continue | MazeGenerate.java:156-164 | `isContinue()`: cell 0's root is not the last cell, or fewer than size-1 cells are in allCell; its meaning is stated by `ContinueMeans` |
| Generation.ContinueMeans | MazeGenerate.java:156-164 | while allCell is the set of absorbed cells, `isContinue()` holds exactly while some cell's root is not the last cell |
| Generation.SwapPop | MazeGenerate.java:138-140 | overwriting data[k] with the last element and dropping the last element shortens the list by one and removes exactly one copy of data[k] |
| Generation.SwapPopMembers | MazeGenerate.java:138-140 | on a list without duplicates swap-and-pop removes exactly the drawn wall and keeps the list free of duplicates |
| Generation.Step | MazeGenerate.java:131-146 | one iteration keeps the forest ordered and every remaining wall inside the grid |
| Generation.RemovedCoordsGrow | MazeGenerate.java:138-145 | removing a wall adds exactly its position to the removed positions, and that position was neither removed before nor fixed |
| Generation.StepEffect | MazeGenerate.java:131-146 | a wall within one class leaves the whole state unchanged; otherwise the multiset of walls loses exactly that wall, allCell grows by one, toDelWalls gains its new position, and the two cells then share a root |
| Generation.StepKeepsJoined | MazeGenerate.java:136-143 | every wall taken out of the list still joins two cells of one class after the iteration |
| Generation.StepInv | MazeGenerate.java:128-147 | one iteration keeps the loop invariant |
| Generation.JoinInv | MazeGenerate.java:136-145 | an iteration that unites two classes keeps allCell equal to the absorbed cells, the count of absorbed cells equal to the walls removed, and toDelWalls equal to the fixed positions plus one new position per wall removed |
| Generation.GridConnected | MazeGenerate.java:78-107 | if every grid wall joins two cells of one class, every cell is in cell 0's class |
| Generation.Progress | MazeGenerate.java:128-147 | while `isContinue()` holds the list still has a wall between two classes, so `nextInt(data.size())` is never called with 0 |
| Generation.AllJoinedStops | MazeGenerate.java:128-164 | once every wall left in the list joins two cells of one class, `isContinue()` is false |
| Generation.AllUnderLast | MazeGenerate.java:45-51 | when every wall of the grid joins two cells of one class, `find` of every cell gives the last cell |
| Generation.Run | MazeGenerate.java:128-147 | the loop's state stays well formed however many iterations run |
| Generation.RunInv | MazeGenerate.java:128-147 | a run from an invariant state never gets stuck, keeps the invariant, and ends as Done exactly when `isContinue()` is false |
| Generation.Start | MazeGenerate.java:115-126 | the state before the loop is well formed |
| Generation.StartInv | MazeGenerate.java:115-126 | every cell is its own root, nothing is absorbed, and only the entrance and exit are open, which satisfies the invariant |
| Generation.DoneSpansGrid | MazeGenerate.java:156-164 | when `isContinue()` is false every cell's root is size-1, allCell is 0..size-2, n²−1 walls were removed and toDelWalls holds n²+1 positions including the entrance and exit |
| Generation.StartSpans | MazeGenerate.java:123-126 | before the loop every cell is its own root and so reaches it through no wall |
| Generation.LinkSpans | MazeGenerate.java:59-73 | if a and b are joined through removed walls and every cell reaches its root, then after `union(a, b)` every cell still reaches its new root |
| Generation.StepSpans | MazeGenerate.java:136-145 | one iteration keeps every cell joined to its root through removed walls, because the wall it takes down joins the two classes it unites |
| Generation.RunSpans | MazeGenerate.java:128-147 | every state of a run keeps every cell joined to its root through removed walls |
| Generation.DoneConnected | MazeGenerate.java:156-164 | once every cell's root is the last cell, any two cells are joined through removed walls |
| Generation.Generate | MazeGenerate.java:115-150 | a whole run never calls `nextInt(0)` and toDelWalls is always the entrance, the exit and the positions of the removed walls; if it finishes, the forest is one tree, exactly n²−1 walls were removed, toDelWalls has n²+1 elements, and any two cells are joined by a path through removed walls, so the removed walls form a spanning tree |
| Generation.SingleCell | MazeGenerate.java:115-164 | for n = 1 there are no walls, the loop body never runs and only (1,0) and (1,2) are open |
| Generation.Grid2 | MazeGenerate.java:78-107 | the 2×2 wall list is (0,1), (0,2), (1,3), (2,3) |
| Generation.StartAsWritten | MazeGenerate.java:27 | the state before a later run on the same object keeps the allCell left by the earlier run |
| Generation.RerunStart | MazeGenerate.java:115-126 | the 2×2 state before a second run has every cell a root but allCell = {0, 1, 2} |
| Generation.RerunFirstDraw | MazeGenerate.java:131-146 | the first draw, 1, removes wall (0,2) and records position (1,1) |
| Generation.RerunGoesOn | MazeGenerate.java:156-164 | `isContinue()` holds before each of the two draws |
| Generation.RerunSecondDraw | MazeGenerate.java:131-146 | the second draw, 1, removes wall (2,3) and records position (2,2) |
| Generation.RerunStops | MazeGenerate.java:156-164 | after the second draw `isContinue()` is false although cell 1 is still its own root, with 4 positions opened |
| Generation.RerunRunFirst | MazeGenerate.java:128-147 | the first loop iteration of the second run takes the state before it to the state after the first draw |
| Generation.RerunRunSecond | MazeGenerate.java:128-147 | the second loop iteration ends the second run in the state after the second draw |
| Generation.RerunFromStale | MazeGenerate.java:128-147 | the second run with the draws [1, 1] finishes in that state |
| Generation.RerunStopsEarly | MazeGenerate.java:286-305 | after any finished first run on a 2×2 object, a second run with the draws [1, 1] finishes with cell 1 walled in and only 2 walls removed |
| Maze.MazeGenerate.constructor | MazeGenerate.java:33-37 | size = n·n, sqrt = n, and the array holds n·n zeros |
| Maze.MazeGenerate.Find | MazeGenerate.java:45-51 | the while loop returns `Root` of the current array |
| Maze.MazeGenerate.Union | MazeGenerate.java:59-73 | the array becomes `Link` of the old array, allCell gains `Absorbed`, and the forest stays ordered |
| Maze.MazeGenerate.GetAllWalls | MazeGenerate.java:78-107 | the for loop builds exactly `Grid(n)`, which has 2·n·(n−1) walls |
| Maze.MazeGenerate.IsContinue | MazeGenerate.java:156-164 | the result is true exactly when `find(0)` is not size-1 or fewer than size-1 cells are in allCell |
| Maze.MazeGenerate.TryRemove | MazeGenerate.java:131-146 | one loop body changes the array, allCell, the wall list and toDelWalls exactly as `Step` does |
| Maze.MazeGenerate.GenerateMaze | MazeGenerate.java:115-150 | the method ends in the state `Run` describes, returns the wall list as the run leaves it, and never draws from an empty list; toDelWalls is the entrance, the exit and the positions of the removed walls; if it finishes, every cell's root is size-1, n²−1 walls were removed, and any two cells are joined through removed walls |
| Maze.MazeGenerate.GetDeletedWalls | MazeGenerate.java:311-324 | building the wall list and running `generateMaze` on it ends in the state `Run` describes; the returned positions are those of the run's removed walls plus the entrance and exit, and if the run finishes those walls join any two cells |
| Render.DefaultGlyph | MazeGenerate.java:214-236 | the glyph is "_" on odd columns, " " on even columns of row 0, and a vertical bar on every other even column |
| Render.GetToPrintStr | MazeGenerate.java:213-242 | an open position is drawn " " and its key is removed from the set; any other position gets its default glyph; no other key changes |
| Render.BuildGrid | MazeGenerate.java:170-178 | n+1 rows of 2n+1 glyphs, each " " where the position is open and the default glyph elsewhere; afterwards only the keys outside the grid remain in the set |
| Render.WallGlyph | MazeGenerate.java:213-269 | a right wall's position shows a vertical bar and a bottom wall's position shows "_" |
| Render.WallsInside | MazeGenerate.java:255-269 | no internal wall lies on the border of the text grid |
| Render.EnclosedMaze | MazeGenerate.java:115-150 | during and after a run, no border position other than the entrance and exit is open, so the border is drawn as "_" on odd columns and a vertical bar on even columns below row 0 |
| Render.OpenedWall | MazeGenerate.java:120-145 | a wall's position is among the open positions exactly when the run took that wall out of the list |
| Render.WallNotBlank | MazeGenerate.java:213-236 | an internal wall's default glyph is never blank |
| Render.DrawnWall | MazeGenerate.java:213-242 | in the drawing of a run's toDelWalls, a wall's position is blank exactly when the run removed that wall |

## Left out

- `printMaze`, `saveToText` (both overloads), `printToConsole` and `main`: console and file output, the CRLF line ends and the swallowed exceptions are not modelled. Their shared grid loops are `Render.BuildGrid`, which returns the rows.
- `java.util.Random`: draws are a parameter, and the t-th draw is reduced modulo the list length. The loop terminates only with probability 1, so a run that uses up its draws ends as `OutOfDraws`. Termination is not claimed.
- `Math.sqrt(size)` in `getAllWalls` is replaced by the field `sqrt`. For a perfect square `size` the two are equal.
- The coordinate keys `"x,y"` are the datatype `Coord(row, col)`. The `HashSet`s are Dafny `set`s.
- Maze.MazeGenerate.constructor: requires n ≥ 1. For n = 0 the source's `find(0)` indexes an empty array and throws. A negative n is not modelled either: the source then has size = n·n > 0 and `Math.sqrt(size)` = |n| in `getAllWalls`, but `sqrt` = n in the `Wall` constructor and the entrance and exit, so positions and columns go negative and `printMaze` draws no rows.
- 32-bit overflow of `size * size` and of the cell numbers, for n > 46340, is not modelled. Integers are unbounded.
- Maze.MazeGenerate.GenerateMaze: the source shrinks the caller's list in place. The model takes the list as a value and returns the shrunk list as `remaining`, so aliasing of the caller's list is not modelled.
- Render.GetToPrintStr: the source removes the key from the caller's set in place. The model returns the new set.
- Maze.MazeGenerate.GenerateMaze: clears `allCell` before the loop, which the source does not do (see Findings). The as-written start is `Generation.StartAsWritten`.
- Generation.Generate: proves that the removed walls connect every cell and that there are n²−1 of them. That they contain no cycle follows from those two facts for a graph of n² cells, and it is not stated as a separate lemma.

## Findings

| source | as written | input that shows it | evidently intended | confidence | as-written member | corrected member |
|---|---|---|---|---|---|---|
| MazeGenerate.java:27, 123-126, 156-164 | `generateMaze` resets `array` but never clears the field `allCell`. A second `getDeletedWalls` on the same object starts with size-1 cells already counted, so `isContinue()` stops as soon as cell 0 reaches the last cell's class | n = 2: `printToConsole()` then `saveToText(path)` on one object, with the second run's `nextInt` calls returning 1 and 1. Only walls (0,2) and (2,3) are removed and cell 1 stays walled in | every run removes n²−1 walls and connects every cell, as the class comment at lines 14-16 says | not executed | Generation.StartAsWritten, Generation.RerunStopsEarly | Maze.MazeGenerate.GenerateMaze, Generation.Generate |
