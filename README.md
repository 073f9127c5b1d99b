# Perfect-maze validator, modelled and verified in Dafny

This project models `is_perfect_maze` from the PerfectMaze package. The
function takes a rectangular grid of integers. In the grid, `0` marks a path
cell and any other value marks a wall. It answers whether the path cells,
under 4-connectivity, form a *perfect maze*: a spanning tree in which every
path cell can be reached from every other and there is no cycle.

The source works in three steps, and the model follows them:

1. It lists the path cells in row-major order. `ScanPathCells` does this
   with two nested loops, as `numpy.argwhere` does. With no path cell the
   answer is `false`; with exactly one it is `true`.
2. It runs a breadth-first search from the first path cell, using a FIFO
   queue and a visited set. For each dequeued cell it tries the four
   directions in the order up, right, down, left. When a direction leads to
   an in-bounds cell holding 0:
   - it counts the edge if the current cell is the lexicographically smaller
     end;
   - it visits and enqueues the neighbour if it is new.

   In the model:
   - `TryDirection` is one direction;
   - `ScanNeighbours` is the loop over the four directions;
   - `VisitNext` is one pass of the `while queue:` loop;
   - `Traverse` is the whole search.
3. It accepts when the search visited every path cell and counted exactly
   one edge fewer than there are path cells (`IsPerfectMaze`).

The modules are:

- `Grids`: the grid, path cells (`IsPath`, `PathCells`), Python's tuple
  order `<` (`Less`), 4-adjacency, the four direction steps in the source's
  order (`Directions`, and `Neighbour` for the cell one step away), and the
  edge set `Edges` (each undirected adjacency stored once, with its smaller
  end first).
- `Graphs`: walks, reachability and connectivity over a vertex set and an
  edge set.
  - Acyclicity, which is "no cycle" (`HasCycle`), proved equivalent to "every
    edge is a bridge" (`Acyclic`).
  - The spanning-tree theorem behind the final check: a connected,
    non-empty graph has `|V| - 1` edges exactly when it is acyclic.
- `MazeValidator`: the definition of a perfect maze, `IsPerfect` (at least
  one path cell, connected, no cycle), which the validator's contract is
  stated against; the scan; the search with its invariant; the validator;
  and the docstring examples.

The search invariant (`SearchInv`) states what holds between two rounds:

- the queue holds, once each, the visited cells that are not yet done;
- every visited cell is reachable from the start (so it is a path cell);
- every path cell adjacent to a done cell has been visited;
- the edge count equals the number of edges whose smaller end is done.

When the queue is empty, the visited cells are closed under adjacency, so
they are exactly the cells reachable from the start. The count is then the
number of edges between them, each counted exactly once.

A numpy array is always rectangular; the model states this as the
precondition `Rectangular(g)`.

## Model

| member | source | states |
|---|---|---|
| Grids.PathCells | src/PerfectMaze/utils.py:96-97 | a cell is a path cell exactly when it is inside the grid and holds 0 |
| Grids.Edges | src/PerfectMaze/utils.py:126-129 | the edges are exactly the pairs of adjacent path cells, stored with the lexicographically smaller end first |
| Grids.AdjacentIffNeighbour | src/PerfectMaze/utils.py:112 | two cells are 4-adjacent exactly when one of the four direction steps leads from one to the other |
| Grids.NeighboursDistinct | src/PerfectMaze/utils.py:112 | each direction step leads to an adjacent cell, and different directions lead to different cells |
| Grids.IsPathInShape | src/PerfectMaze/utils.py:122-126 | in a rectangular grid, the bounds check against `rows` and `cols` followed by the read of 0 is exactly the path-cell test |
| Graphs.ClosedContainsReachable | src/PerfectMaze/utils.py:114-134 | a vertex set closed under the edges that holds the start holds every vertex reachable from it |
| Graphs.ConnectedEdgeLowerBound | src/PerfectMaze/utils.py:137 | a connected graph on n vertices has at least n - 1 edges |
| Graphs.TreeIffEdgeCount | src/PerfectMaze/utils.py:76-78 | a connected, non-empty graph has exactly n - 1 edges if and only if every edge is a bridge |
| Graphs.ExtraEdgeBreaksTree | src/PerfectMaze/utils.py:76-78 | adding any new edge between vertices of a connected graph in which every edge is a bridge leaves some edge that is not a bridge |
| Graphs.ExtraEdgeClosesCycle | src/PerfectMaze/utils.py:76-78 | when the enlarged edge set has no loop and no doubled edge, that extra edge closes a cycle |
| Graphs.AcyclicIffNoCycle | src/PerfectMaze/utils.py:76-78 | in a graph without loops or doubled edges, every edge is a bridge if and only if there is no cycle |
| MazeValidator.EdgesSimple | src/PerfectMaze/utils.py:128-129 | ordering the ends of each edge stores every adjacency once: no loop, never both orientations |
| MazeValidator.LinkedIffAdjacentPaths | src/PerfectMaze/utils.py:123-129 | two cells are joined by an edge if and only if both are path cells and they are adjacent |
| MazeValidator.PerfectIffTreeEdgeCount | src/PerfectMaze/utils.py:76-78 | connected and cycle-free is equivalent to connected with exactly n - 1 edges, as the docstring says |
| MazeValidator.SinglePathCell | src/PerfectMaze/utils.py:102-104 | a grid with one path cell is a perfect maze |
| MazeValidator.DistinctCard | src/PerfectMaze/utils.py:100 | a list without repetitions has as many distinct cells as entries |
| MazeValidator.ScanPathCells | src/PerfectMaze/utils.py:97-100 | the row-major scan lists exactly the path cells, strictly increasing, so its length is the number of path cells |
| MazeValidator.VisitStep | src/PerfectMaze/utils.py:132-133 | trying one more direction adds to the visited set exactly the path cell it leads to |
| MazeValidator.EnqueueStep | src/PerfectMaze/utils.py:132-134 | trying one more direction appends to the queue the path cell it leads to exactly when no earlier step has visited it |
| MazeValidator.CountStep | src/PerfectMaze/utils.py:128-129 | trying one more direction adds one edge exactly when the neighbour is a path cell larger than the current cell, and never an edge already counted |
| MazeValidator.NewTargetsFacts | src/PerfectMaze/utils.py:132-134 | the cells a round enqueues have no repetitions and are exactly its unvisited path neighbours |
| MazeValidator.StepEdgesComplete | src/PerfectMaze/utils.py:126-129 | scanning a cell's four directions counts exactly the edges whose smaller end is that cell, none already counted |
| MazeValidator.SearchInit | src/PerfectMaze/utils.py:107-111 | the initial state (start visited and queued, nothing done, count 0) satisfies the search invariant |
| MazeValidator.QueueHead | src/PerfectMaze/utils.py:114-115 | the cell dequeued is a visited path cell that has not been dequeued before |
| MazeValidator.QueueAfterRound | src/PerfectMaze/utils.py:115-134 | after a round the queue still holds, once each, the visited cells not yet done |
| MazeValidator.ExploredAfterRound | src/PerfectMaze/utils.py:118-134 | after a round every visited cell is still reachable from the start, and every neighbour of a done cell is visited |
| MazeValidator.RoundEffect | src/PerfectMaze/utils.py:114-134 | one round from the head of the queue preserves the search invariant |
| MazeValidator.RoundProgress | src/PerfectMaze/utils.py:132-134 | a round removes from the unvisited path cells exactly the cells it enqueues, so their number drops by the number enqueued and the loop terminates |
| MazeValidator.SearchEnd | src/PerfectMaze/utils.py:114-137 | with the queue empty, the visited cells are exactly those reachable from the start and the count is the number of edges between them |
| MazeValidator.TryDirection | src/PerfectMaze/utils.py:119-134 | one direction step: a path neighbour is visited, enqueued only when new, and its edge is counted only from the smaller end, whether or not it was visited |
| MazeValidator.ScanNeighbours | src/PerfectMaze/utils.py:118-134 | the four direction steps visit every path neighbour, enqueue the new ones in direction order, and count the edges to larger cells |
| MazeValidator.VisitNext | src/PerfectMaze/utils.py:114-134 | one pass of the loop preserves the search invariant and strictly decreases the termination measure |
| MazeValidator.Traverse | src/PerfectMaze/utils.py:106-134 | the search visits only path cells (at most their number), visits exactly the cells reachable from the start, and counts each edge among them exactly once |
| MazeValidator.IsPerfectMaze | src/PerfectMaze/utils.py:72-137 | the answer is true if and only if the path cells are non-empty, connected and cycle-free, equivalently connected with n - 1 edges; false with no path cell, true with one |
| MazeValidator.RepeatedCallsAgree | src/PerfectMaze/utils.py:94-137 | the validator only reads its input: two calls on the same grid give the same answer |
| MazeValidator.DoctestTree | src/PerfectMaze/utils.py:89-90 | `[[0, 1], [0, 0]]` is a perfect maze |
| MazeValidator.DoctestCycle | src/PerfectMaze/utils.py:91-92 | `[[0, 0], [0, 0]]` contains a cycle, so it is not a perfect maze |
| MazeValidator.AllWallsGrid | src/PerfectMaze/utils.py:97-99 | an all-wall grid has no path cell |
| MazeValidator.Doctests | src/PerfectMaze/utils.py:88-99 | the validator returns true for the first docstring example (a tree), false for the second (a 2x2 block with a cycle), and false for an all-wall grid, which takes the no-path-cell branch |

## Left out

- `_curve_print` (src/PerfectMaze/utils.py:5-69) prints a curve to standard output. It is presentation only.
- `src/PerfectMaze/__init__.py` contains only lazy imports and package-metadata lookup. It is packaging plumbing.
- The Hilbert-curve maze generator that the package re-exports is not part of this model. It only produces grids.
- numpy specifics are left out:
  - the array is a `seq<seq<int>>` with the precondition `Rectangular`;
  - `maze.shape` is read from the sequence;
  - `np.argwhere` is a row-major scan;
  - the element type is unbounded `int`, not a fixed-width numpy dtype.
- Arrays that are not two-dimensional are left out. There, `maze.shape` would fail to unpack, and the model's grid is two-dimensional by type.
- The model does not reproduce `deque`, `set` and tuple objects. The queue is a `seq` that is sliced and appended to, the visited set is a `set`, and cells are integer pairs. A Python set's hashing and iteration order play no part in the result.
- The start cell is the first path cell in row-major order, as in the source. `IsPerfectMaze` states its result as a property of the whole grid, so the answer does not depend on that choice.
- "No cycles" is formalised by the predicate `HasCycle`: a closed walk of length at least three edges with no repeated vertex. It is proved equivalent to "every edge is a bridge" (`Graphs.AcyclicIffNoCycle`), and that second form is what the edge-count theorem is proved for.
