# maze-solver in Dafny

A model of the maze engine of `maze.py`. The model has three parts.

- **The grid.** It has `num_cols x num_rows` cells, indexed `[col][row]`. Each cell has four wall flags and a `visited` flag.
- **The recursive-backtracker carver.** The constructor uses it to turn a fully walled grid into a perfect maze.
- **The four solvers: DFS, BFS, Dijkstra and A\*.** Each walks the open-passage graph from `(0, 0)` towards the exit `(num_cols - 1, num_rows - 1)`, records a `came_from` map and marks the path it found.

Modules, one per file:

- `results.dfy` (`Results`): `Option` and `Result`.
- `grid.dfy` (`Grid`): cells, positions, the grid value, and `_create_cells`, `_reset_cells_visted` and `_get_neighbors`.
- `paths.dfy` (`Paths`): walks through open passages and reachability.
- `edges.dfy` (`Edges`): interior wall pairs, and counting the open ones.
- `generator.dfy` (`Generator`): the constructor, `_break_entrance_and_exit` and `_break_walls_r`. `random.randrange` is replaced by an oracle `o(k, n)`, the index returned by the k-th draw among `n` choices. Every property holds for every oracle whose answers are in range, so in particular for every seed.
- `parents.dfy` (`ParentMaps`): `came_from` maps, their parent chains, and `_draw_path`.
- `search.dfy` (`Search`): `_solve_dfs` and `_solve_bfs`, up to the point where they hand `came_from` to the drawing.
- `bestfirst.dfy` (`BestFirst`): `_solve_dijkstra`, `_solve_astar` and `_heuristic`. The two solvers share one loop and differ only in the priority of a queue entry. `PriorityQueue` is modelled as a sequence of `(priority, cell)` entries, from which `get` removes the least entry in Python's tuple order.
- `solve.dfy` (`Solver`): the ending the solvers share (lines 139-143 and the same lines in each), and `solve`.

What is proved, in short:

- Every constructed maze is a spanning tree of open wall pairs. The walls come in matched pairs, the entrance and exit are open, and nothing is left visited.
- The carver's choices are exactly the in-grid unvisited neighbours.
- Each solver answers `True` exactly when the exit is reachable from `(0, 0)` through open passages. It always leaves a `came_from` map whose parent chains are open walks that end at `(0, 0)`.
- Breadth-first search finds a shortest path: the chain `_draw_path` follows from the exit is no longer than any open walk from `(0, 0)` to the exit.
- `_draw_path` marks exactly the cells of the chain from the exit back to, but not including, `(0, 0)`.
- `solve` returns the four answers in the order DFS, BFS, Dijkstra, A\*, and all four are the same.
- Dijkstra and A\* terminate, even though a cell may be queued several times. The measure is the set of unrecorded cells, then the sum of recorded costs, then the queue length.

## Model

| member | source | states |
|---|---|---|
| Grid.Fresh | maze.py:35-40 | the new grid has the requested size, is a valid rectangle exactly when both sizes are at least one, and every cell has all four walls and is unvisited |
| Grid.ResetVisited | maze.py:117-120 | every cell keeps its four walls and ends up unvisited |
| Grid.ResetVisitedIdempotent | maze.py:117-120 | resetting twice gives the same grid as resetting once |
| Grid.Neighbors | maze.py:228-240 | `q` is listed exactly when it is inside the grid, orthogonally adjacent, and the wall of `p` facing it is open; the list follows the order left, right, up, down; so an open entrance or exit never yields an outside cell |
| Grid.NeighborsOnlyWalls | maze.py:228-240 | the neighbour list depends only on walls, never on `visited` flags, so flags left by an earlier solver cannot change a later solver's graph |
| Grid.MirroredPassageSymmetric | maze.py:228-240 | when walls come in matched pairs, `q` is a neighbour of `p` exactly when `p` is a neighbour of `q`: the passage graph is undirected |
| Grid.CellSetSize | maze.py:36-40 | the grid holds exactly `cols * rows` positions |
| Paths.ClosedContainsReachable | maze.py:127-140 | a set holding the start and closed under open neighbours holds every cell reachable from the start; this is why an exhausted search proves the exit unreachable |
| Paths.ReachableSameWalls | maze.py:264-267 | reachability depends on walls only, so clearing `visited` before a solver changes no answer |
| Generator.BreakEntranceAndExit | maze.py:61-65 | the top wall of `(0, 0)` and the bottom wall of the exit are open; every other flag is as before and no wall is added |
| Generator.EntranceExitOnBorder | maze.py:61-65 | opening the entrance and the exit changes no wall between two grid cells |
| Generator.DoorsMirrored | maze.py:61-65 | a fully walled grid with its entrance and exit opened still has its walls in matched pairs |
| Generator.UnvisitedNeighbors | maze.py:70-84 | the candidates are exactly the in-grid, orthogonally adjacent, unvisited cells, in the order left, right, up, down |
| Generator.KnockOut | maze.py:96-112 | the four tests, applied to an adjacent target, amount to clearing the one wall pair on the shared edge from both sides |
| Generator.KnockOutFacing | maze.py:96-112 | after a knock-out the wall of `x` facing `y` is open when `{x, y}` is the carved pair, and otherwise unchanged |
| Generator.KnockOutMirrored | maze.py:96-112 | a knock-out keeps every wall pair matched: right with left, bottom with top |
| Generator.KnockOutEdges | maze.py:96-112 | a knock-out adds exactly the edge between the two cells to the set of open interior wall pairs |
| Generator.BreakWalls | maze.py:67-115 | the call marks its cell visited; it only removes walls, never unmarks a cell, and keeps wall pairs matched |
| Generator.Explore | maze.py:69-115 | the loop ends with its cell exhausted (no unvisited neighbour); it only removes walls, never unmarks a cell, and keeps wall pairs matched |
| Generator.SweepVisited | maze.py:86-90 | once the start is visited and no visited cell has an unvisited neighbour, every cell is visited |
| Generator.BreakWallsTree | maze.py:67-115 | one recursive call opens exactly one edge per newly visited cell but the first, keeps open edges among visited cells, leaves each visited cell connected to `(0, 0)`, and leaves each newly visited cell exhausted |
| Generator.ExploreTree | maze.py:69-115 | the same accounting for the carving loop at an already visited cell |
| Generator.CarveSpansGrid | maze.py:30-32 | carving from `(0, 0)` visits every cell, opens exactly `cols * rows - 1` interior wall pairs, and connects every cell to `(0, 0)`: the open passages form a spanning tree |
| Generator.NewMaze | maze.py:8-33 | construction fails for a dimension below one; otherwise the maze has the requested size, open entrance and exit, matched wall pairs, and no visited cell |
| Generator.NewMazeIsPerfect | maze.py:30-33 | every constructed maze has `cols * rows - 1` open interior wall pairs and every cell reachable from `(0, 0)` |
| ParentMaps.Trace | maze.py:245-253 | the chain from a cell lists recorded cells only and never `(0, 0)` |
| ParentMaps.TraceFuel | maze.py:247-253 | once a chain reaches `(0, 0)`, allowing more steps does not change it |
| ParentMaps.RankedTraces | maze.py:247-253 | if every parent ranks strictly below its child, the loop of `_draw_path` reaches `(0, 0)` from every recorded cell |
| ParentMaps.TraceSteps | maze.py:245-253 | read backwards, the chain from a cell is a walk through open passages from `(0, 0)` |
| ParentMaps.MarkAllFacts | maze.py:247-249 | marking a list of cells changes no wall and sets `visited` on exactly those cells |
| ParentMaps.DrawPath | maze.py:245-253 | walls are untouched, and a cell ends up visited exactly when it was before or lies on the chain from the exit, `(0, 0)` excluded |
| Search.Discover | maze.py:134-137 | every listed neighbour not yet in `came_from` is recorded with the expanded cell as parent and queued once, in the order of the neighbour list (the queued cells are the list with the recorded ones left out); a cell already recorded keeps its first parent |
| Search.DiscoverOrdered | maze.py:134-137 | an expansion queues its new neighbours in the order left, right, up, down, as `_get_neighbors` lists them |
| Search.ExpandGrows | maze.py:134-137 | an expansion either records a new grid cell or leaves `came_from` as it was, so the loop cannot run forever |
| Search.Conclude | maze.py:139-143 | a stop with the exit recorded, or an exhausted frontier, leaves a well-formed tree that records the exit exactly when it is reachable |
| Search.SearchDfs | maze.py:122-143 | `came_from` is a tree of open passages rooted at `(0, 0)` whose chains all end there; every key is reachable; the exit is a key exactly when it is reachable |
| Search.SearchBfs | maze.py:145-167 | the same guarantees with the FIFO queue, and when the exit is recorded, no open walk from `(0, 0)` reaches it in fewer moves than the chain from the exit has cells: the path drawn is a shortest one |
| Search.LayeredStep | maze.py:151-161 | one round of the BFS loop keeps the queue sorted by depth with at most one level between its ends, keeps every recorded cell at most one level below the head, and keeps each expanded cell's neighbours at most one level below it |
| Search.WalkDepth | maze.py:151-161 | under those levels, an open walk from `(0, 0)` either ends at a recorded cell whose depth is at most the walk's length, or is at least as long as the depth of the queue's head |
| Search.TraceDepth | maze.py:245-253 | the chain from a recorded cell has exactly as many cells as the cell's depth |
| Search.BfsShortest | maze.py:151-167 | when BFS stops with the exit recorded, every open walk from `(0, 0)` to the exit is at least as long as the chain `_draw_path` follows |
| BestFirst.Heuristic | maze.py:242-243 | the Manhattan distance to the exit is zero exactly at the exit |
| BestFirst.HeuristicConsistent | maze.py:242-243 | one move changes the heuristic by at most one |
| BestFirst.HeuristicAdmissible | maze.py:242-243 | every walk through open passages to the exit has at least as many moves as the heuristic at its first cell |
| BestFirst.PriorityAdmissible | maze.py:215-219 | neither priority overestimates: a cell queued at cost `c` with an open walk to the exit gets a priority between `c` and `c` plus the walk's length, and the exit is queued at its cost |
| BestFirst.PopMin | maze.py:177-178 | `get` removes one entry, keeps all the others, and the removed one is least in the `(priority, col, row)` order |
| BestFirst.PopMinUnique | maze.py:177-178 | two entries that are each least in the queue are equal, so the entry `get` returns is determined by the queue's contents |
| BestFirst.Relax | maze.py:184-189 | every cell either keeps its cost and parent, or is a neighbour whose cost was missing or higher than `cost_so_far[current] + 1`; such a cell now has that cost, parent `current`, and a queue entry at the matching priority; the entries follow the neighbour list's order, one per lowered neighbour; every neighbour ends with cost at most `cost_so_far[current] + 1`, so a dearer one is always lowered |
| BestFirst.RelaxedFacts | maze.py:214-220 | after the inner loop every neighbour has a cost of at most `cost_so_far[current] + 1`, only neighbours are new, the current cell's cost is unchanged, and no cost goes up |
| BestFirst.GridStrict | maze.py:186-187 | lowering one in-grid cost strictly lowers the sum of all recorded costs, the measure that bounds repeated queueing |
| BestFirst.SearchBestFirst | maze.py:169-226 | for either priority, `came_from` is a tree of open passages rooted at `(0, 0)`; every key is reachable; the exit is a key exactly when it is reachable |
| Solver.Finish | maze.py:139-143 | the answer is whether the exit was recorded; on `False` the maze is unchanged; on `True` the marked cells are exactly the chain, which starts at the exit and read backwards is an open walk from `(0, 0)` |
| Solver.Run | maze.py:267 | a solver answers `True` exactly when the exit is reachable from `(0, 0)`; it keeps all walls, marks only reachable cells, and marks the exit on success unless the exit is the start |
| Solver.RunClean | maze.py:264-269 | one round of `solve` (clear flags, then run) answers whether the exit is reachable in the original maze and marks only reachable cells |
| Solver.Solve | maze.py:255-271 | four results, named DFS, BFS, Dijkstra and A\* in that order, each `True` exactly when the exit is reachable; walls are kept and only reachable cells remain marked |
| Solver.GeneratedSolvable | maze.py:8-33 | the exit of every constructed maze is reachable, so `solve` reports it solved by all four solvers |

## Left out

- Rendering: `_draw_cell`, `_animate`, the `draw_move` call in `_draw_path`, the window, and the pixel layout fields `x1`, `y1` and cell sizes. None of them affect walls, flags or answers. `graphics.py` is not part of this model.
- Timing in `solve`: the elapsed times are floating-point wall-clock readings. A result is `(name, solved)`.
- The random generator and its seeding, including a seed of 0 counting as no seed. They are replaced by the oracle parameter.
- The thread safety of `Queue` and `PriorityQueue`. Both are plain sequences here.
- The `color` argument of each solver, which only reaches the drawing.
- The start cell is fixed at `(0, 0)`, the only start `solve` uses.
- In A\*, `came_from[next_cell] = (i, j)` is modelled as `current`; `i, j = current` just before makes the two equal.
- `Cell` comes from `cell.py`, which is not part of this model. It is modelled as four wall flags plus `visited`, created with every wall present and unvisited.
- Invalid dimensions: for sizes below one, Python fails with an `IndexError` when it opens the entrance. The model returns `Failure(InvalidDimensions)` instead.
- Generator.NewMaze: the model has no recursion depth limit. Python raises `RecursionError` once the carve path of `_break_walls_r` is about 1000 cells deep, for example in a 1-row grid of 1200 columns. The model returns a maze there. Interpreter stack limits are outside the model.
- Search.SearchDfs: the top of the stack is compared with the exit before it is popped rather than after. After the `break` the stack is never read again, so the outcome is the same.
- Search.SearchBfs: likewise, the head of the queue is compared with the exit before it is taken off rather than after. After the `break` the queue is never read again, so the outcome is the same.
- BestFirst.Relax: it returns the entries to be queued, and the caller appends them to the queue. The queue is a multiset as far as `get` is concerned, so this changes nothing.
- BestFirst.SearchBestFirst: it does not state that the path found by Dijkstra or A\* is a shortest one. The source never relies on that, and the contract covers only the answer and the tree.
