# A* grid pathfinder

This is a Dafny model of the A* search in `DSA/Java/AStarAlgorithm.java`, with proofs about it.

The grid is a matrix of integers, and 0 marks an open cell. The search:

- keeps an open set of nodes ordered by fCost = gCost + hCost;
- keeps a closed set of positions;
- polls a node of least fCost and stops at once if it stands at the goal;
- otherwise closes it and tries the eight unit-cost moves (four straight, four diagonal).

A move builds a new node whenever its target is in bounds and open, and queues it only when that position is neither closed nor already queued. The result is the chain of parent links from the polled goal back to the start, reversed, or the empty list when the open set runs out.

Files and modules:

- `Node.dfy` (module `Nodes`): the `Cell` datatype and the `Node` class.
  - `Cell` is a grid position, and it is what node equality compares.
  - In `Node`, `row` and `col` are fixed at construction. The search writes `gCost`, `hCost` and `parent`.
- `Grid.dfy` (module `Grid`): the grid itself.
  - The move table, the bounds test, the heuristic, and the set of grid cells and its size.
  - Walks and reachability over open cells.
  - The fact that no walk leaves a region closed under moves.
- `AStar.dfy` (module `AStar`): the search.
  - The open-set operations and the relaxation of one move.
  - Path reconstruction.
  - The search state and the lemmas that keep it.
  - `FindPath`.

The main result is `AStar.FindPath`. Its path is empty exactly when the goal's position cannot be reached from the start by the eight moves over open cells. A path it returns:

- starts at `start` and ends at the goal's position;
- is linked by `parent`, and each step is one move onto an open, in-bounds cell;
- has gCost 0, 1, 2, … along it and the heuristic as each node's hCost;
- never repeats a position.

The loop runs at most rows × cols + 1 times.

Some behaviour of the code is modelled as written, not as it may have been meant:

- **The heuristic.** It is |(r₁ + c₁) − (r₂ + c₂)|, not the Manhattan distance. It can exceed the number of moves left (`Grid.HeuristicCanOverestimate`), so nothing here claims shortest paths.
- **The cost comparison.** It looks at a freshly built neighbour, whose gCost is 0, so a queued node is never updated. `AStar.Relax` changes no existing node: it has no `modifies` clause, and it states that every queued node is unchanged.
- **The start.** It is queued with no bounds or open check.
- **The poll.** It returns some node of least fCost. Which of several equal ones comes out is left open.

Ghost state records every node ever queued (`all`), with the index of its parent (`pidx`). This record gives the termination measure of path reconstruction and the search-tree facts the path lemmas use.

## Model

| member | source | states |
|---|---|---|
| `Nodes.Node.constructor` | DSA/Java/AStarAlgorithm.java:8-11 | a new node has the given coordinates, zero costs and no parent |
| `Nodes.Node.FCost` | DSA/Java/AStarAlgorithm.java:13-15 | the priority of a node is its gCost plus its hCost; no contract beyond its one-expression definition, and `AStar.Poll` states the order it induces |
| `Nodes.Node.Equals` | DSA/Java/AStarAlgorithm.java:22-29 | two nodes are equal exactly when their positions agree, whatever their costs and parents |
| `Nodes.EqualsIsSamePosition` | DSA/Java/AStarAlgorithm.java:22-29 | node equality holds exactly when row and col agree, ignoring costs and parent; it is symmetric |
| `Grid.AdjacentIsKingMove` | DSA/Java/AStarAlgorithm.java:38-41 | the eight moves reach exactly the cells that differ by at most 1 in each coordinate, other than the cell itself |
| `Grid.InBounds` | DSA/Java/AStarAlgorithm.java:84-86 | the bounds test accepts exactly the cells with 0 <= row < grid.length and 0 <= col < grid[0].length, and an empty grid none |
| `Grid.Move` | DSA/Java/AStarAlgorithm.java:60-61 | the target of a move is the cell one offset away: stepping back by the offset returns to the current cell, and only the zero offset stays in place |
| `Grid.IsOpen` | DSA/Java/AStarAlgorithm.java:63 | a cell the search may step onto is a cell of the grid (and holds 0) |
| `Grid.GridCellsCount` | DSA/Java/AStarAlgorithm.java:84-86 | the in-bounds cells of a rows-by-cols grid number rows * cols |
| `Grid.Heuristic` | DSA/Java/AStarAlgorithm.java:88-90 | the heuristic is a natural number; it is 0 exactly when the coordinate sums agree, so it is 0 for equal cells |
| `Grid.HeuristicSymmetric` | DSA/Java/AStarAlgorithm.java:88-90 | the heuristic is symmetric |
| `Grid.HeuristicBelowManhattan` | DSA/Java/AStarAlgorithm.java:88-90 | the heuristic never exceeds the Manhattan distance |
| `Grid.HeuristicCanOverestimate` | DSA/Java/AStarAlgorithm.java:88-90 | (0,0) and (1,1) are one move apart, yet their heuristic is 2, so it can overestimate |
| `Grid.CoverStep` | DSA/Java/AStarAlgorithm.java:59-79 | after one more move, every open target of the moves tried so far lies in the grown region |
| `Grid.RegionBlocksWalks` | DSA/Java/AStarAlgorithm.java:50-81 | no walk over open cells leaves a region that holds every open neighbour of its cells |
| `AStar.Contains` | DSA/Java/AStarAlgorithm.java:69-74 | the open-set membership test by node equality holds exactly when some queued node has the node's position |
| `AStar.MinimalExists` | DSA/Java/AStarAlgorithm.java:17-20 | a non-empty open set has a node whose fCost no other queued node undercuts |
| `AStar.Poll` | DSA/Java/AStarAlgorithm.java:50-51 | poll removes exactly one queued node, and no queued node has a smaller fCost |
| `AStar.Relax` | DSA/Java/AStarAlgorithm.java:59-77 | a new node is queued exactly when the target is open, not closed and not queued; it is one move away with parent current, gCost one more and the heuristic as hCost; otherwise the open set is unchanged; no queued node changes |
| `AStar.Reverse` | DSA/Java/AStarAlgorithm.java:98 | the reversal keeps the length and puts element i at position |s| - 1 - i |
| `AStar.ReconstructPath` | DSA/Java/AStarAlgorithm.java:92-100 | the result is the tree path from the root to the node: it starts at a node with no parent, ends at the node, and each node's parent is the one before it |
| `AStar.TreePathLinks` | DSA/Java/AStarAlgorithm.java:92-100 | a tree path runs from the first node ever queued to the chosen one, linked by parent |
| `AStar.TreePathFacts` | DSA/Java/AStarAlgorithm.java:64-75 | along a tree path the gCost of node i is i, each hCost is the heuristic, and each node was discovered from the one before |
| `AStar.TreePathIsWalk` | DSA/Java/AStarAlgorithm.java:59-64 | a tree path is a walk of moves onto open in-bounds cells, so its end is reachable from the start |
| `AStar.TreePathIsSimple` | DSA/Java/AStarAlgorithm.java:65-76 | a tree path repeats no position |
| `AStar.OpenPositionsDistinct` | DSA/Java/AStarAlgorithm.java:69-76 | the open set never holds two nodes with the same position |
| `AStar.Initial` | DSA/Java/AStarAlgorithm.java:44-48 | the start, with gCost 0 and its heuristic, alone in the open set with nothing closed, satisfies the loop invariant |
| `AStar.CloseKeepsState` | DSA/Java/AStarAlgorithm.java:57 | closing a polled non-goal node keeps open and closed positions disjoint and adds exactly one closed position |
| `AStar.Queued` | DSA/Java/AStarAlgorithm.java:70-76 | queueing a discovered neighbour keeps every queued position unique, unclosed and in the grid or at the start |
| `AStar.ExpandNeighbours` | DSA/Java/AStarAlgorithm.java:59-79 | after the eight moves from the closed node, every open neighbour of a closed position is closed or queued; every node queued before stays queued, and every node added was discovered from the closed node (one move away, parent the closed node, gCost one more) |
| `AStar.CloseAndExpand` | DSA/Java/AStarAlgorithm.java:57-79 | one round keeps the loop invariant and grows the closed set by exactly the polled position; the remaining queued nodes stay queued, and every node added was discovered from the polled node |
| `AStar.Bound` | DSA/Java/AStarAlgorithm.java:50-57 | at most rows * cols + 1 positions can ever be closed, which bounds the polls |
| `AStar.Found` | DSA/Java/AStarAlgorithm.java:53-55 | when the goal is polled, the path reconstructed from it meets every promise of the search |
| `AStar.Exhausted` | DSA/Java/AStarAlgorithm.java:81 | when the open set runs out, the goal is unreachable from the start and differs from it |
| `AStar.FindPath` | DSA/Java/AStarAlgorithm.java:43-82 | the path is empty exactly when the goal is unreachable; a path starts at start, ends at the goal's position, is a parent-linked walk of moves onto open cells with gCost i at index i, and repeats no position; equal start and goal give [start]; at most rows * cols + 1 polls |

## Left out

- `main` builds a demo grid and prints the result; that is console I/O.
- `Node.hashCode` is not modelled. Hash sets are modelled as sets of positions, which is what `equals` together with `hashCode` makes them.
- `Node.compareTo` becomes the fCost comparison inside `AStar.Poll`. The internals of `java.util.PriorityQueue` are not modelled, and neither is its order among equal fCosts: any least node may be polled.
- `Nodes.EqualsIsSamePosition`: `equals(Object)` is modelled for two nodes only. Its `false` answer for objects of other classes has no counterpart.
- `AStar.FindPath` does not claim the path is shortest. The heuristic can overestimate and closed nodes are never reopened, so the code does not promise it.
- Java `int` overflow in costs and in the heuristic is not modelled: integers are unbounded.
- `Grid.ValidGrid`: in a ragged grid whose later rows are shorter than row 0, the Java code reads past a row's end when it probes a missing cell of a short row. The model requires every row to be at least as long as row 0. That requirement also excludes ragged grids on which the search never probes a missing cell, such as `[[0,0,0],[1,1,1],[0]]` from (0,0) to (0,2). An empty grid is allowed.
- `AStar.FindPath` requires `start.parent == null`. The code never resets it, and a caller is expected to pass a fresh node.
- `Nodes.Node`: `row` and `col` are constants. The code only writes them in the constructor.
- `AStar.ReconstructPath` builds the list and then reverses it with a function on sequences (`AStar.Reverse`). The in-place `Collections.reverse` is not modelled as an array operation.
- The ghost record of queued nodes (`all`, `pidx`) and the counter `polls` exist only for the proofs.
