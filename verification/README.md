# A* grid pathfinder in Dafny

This project models the A* shortest-path engine of a small Java pathfinder
and proves properties of the model. The engine searches a rectangular grid of
integers. One integer value marks an obstacle. Moves go one cell up, down,
left or right at unit cost, and the Manhattan distance is the heuristic.

The model has four modules, one file each, plus a module of concrete grids:

- `Wrappers` (`wrappers.dfy`): `Option` stands for a Java reference that may
  be `null`. `Result` stands for a constructor that returns or throws.
- `Nodes` (`node.dfy`): the search node of `Node.java`, written as
  `Node(row, col, g, h, parent: Option<Node>)`. The Java constructor and
  getters are the datatype constructor and its fields. It also has
  `compareTo` (by f = g + h only), `equals` (by coordinate only) and
  `hashCode`.
- `Grid` (`grid.dfy`): the `AStarPathfinder` constructor and its validation,
  and `isValid`, which is true when a cell is OUT of bounds and is modelled
  as `OutOfBounds`. It also has `isObstacle`, which requires an in-bounds
  cell, the Manhattan `heuristic`, the `DIRECTIONS` table, and walks. A walk
  is a sequence of free cells, each one move from the one before.
- `Search` (`search.dfy`): `reconstructPath` and `findShortestPath`. The
  frontier is a sequence of nodes and may hold several entries for one cell.
  Each round polls some entry of least f, where `compareTo` is the order. The
  closed set is a set of coordinates: `equals` and `hashCode` look only at
  the coordinate, so a `HashSet<Node>` behaves as one. The Java method prints
  a reason next to its empty list. That reason is returned here as a `Status`.
- `Scenarios` (`scenarios.dfy`): whole searches on particular grids.

The main results, all in `Search.FindShortestPath`:

- An endpoint outside the grid or on an obstacle gives an empty path.
- Otherwise the search succeeds exactly when some walk joins start and target.
- A returned path is a walk from start to target. Its g values are
  0, 1, 2, … and each node's parent is the node before it.
- A returned path is no longer than any walk between the same cells. So
  its final g is the shortest 4-directional hop count.
- When start equals target, the result is the single node with g = 0.

The loop terminates because each expansion closes a new grid cell and each
stale pop shrinks the frontier. Optimality rests on the invariant
`SearchInv`. Every closed cell was expanded with its least walk cost. Every
free, unclosed neighbour of a closed cell has a frontier entry that costs at
most one more. The start is closed or on the frontier.

The model takes the grid as an immutable value, so a search only reads it.

## Model

| member | source | states |
|---|---|---|
| Nodes.CompareTo | src/main/java/org/example/Node.java:44-54 | the sign of the comparison is the sign of f(a) − f(b), with f = g + h; the result is −1, 0 or 1 |
| Nodes.CompareToOnlyByF | src/main/java/org/example/Node.java:52-54 | nodes with equal f compare alike whatever their g, h and parent; the comparison is antisymmetric |
| Nodes.Equals | src/main/java/org/example/Node.java:60-65 | equality holds exactly for a non-null node at the same row and column |
| Nodes.EqualsIsCoordinateEquivalence | src/main/java/org/example/Node.java:60-65 | equality is reflexive, symmetric and transitive, and ignores g, h and parent |
| Nodes.HashConsistentWithEquals | src/main/java/org/example/Node.java:71-73 | equal nodes have equal hash codes |
| Grid.Create | src/main/java/org/example/AStarPathfinder.java:23-37 | construction fails with the empty-grid error for a null grid, zero rows or an empty first row, and with the rectangularity error when some row's length differs from the first; otherwise it succeeds, storing the grid with height = row count and width = first row's length |
| Grid.OutOfBounds | src/main/java/org/example/AStarPathfinder.java:110-112 | `isValid` is true exactly when indexing the grid at the coordinate would fail |
| Grid.IsObstacle | src/main/java/org/example/AStarPathfinder.java:117-119 | only an in-bounds cell may be asked about, and the answer is whether that grid cell holds the obstacle marker |
| Grid.ObstacleNeverOnWalk | src/main/java/org/example/AStarPathfinder.java:84-86 | a cell holding the obstacle marker never appears on a walk, so the search never steps onto one |
| Grid.Heuristic | src/main/java/org/example/AStarPathfinder.java:130-132 | the heuristic is non-negative and zero exactly when the two cells coincide |
| Grid.HeuristicSymmetric | src/main/java/org/example/AStarPathfinder.java:130-132 | the heuristic is symmetric in its two cells |
| Grid.HeuristicConsistent | src/main/java/org/example/AStarPathfinder.java:130-132 | one move changes the estimate to any target by exactly one |
| Grid.AdjacentIffUnitDistance | src/main/java/org/example/AStarPathfinder.java:10 | the four directions reach exactly the cells at Manhattan distance one, so adjacency is symmetric |
| Grid.WalkAdmissible | src/main/java/org/example/AStarPathfinder.java:130-132 | a walk of n moves joins cells at most n apart, so the heuristic never overestimates |
| Search.ReconstructPath | src/main/java/org/example/AStarPathfinder.java:140-148 | the result is non-empty, ends with the given node, starts with a node that has no parent, and each node's parent is the node before it |
| Search.ChainGivesPath | src/main/java/org/example/AStarPathfinder.java:94-97 | reconstructing a node built by the search gives a walk of free cells from the start whose i-th node has g = i |
| Search.InitialInv | src/main/java/org/example/AStarPathfinder.java:60-66 | the frontier holding only the start node with g = 0, and an empty closed set, satisfy the search invariant |
| Search.MinExists | src/main/java/org/example/AStarPathfinder.java:68-69 | a non-empty frontier has an entry that no other entry precedes under `compareTo` |
| Search.PopIsOptimal | src/main/java/org/example/AStarPathfinder.java:68-78 | a least-f entry whose cell is not closed costs no more than any walk from the start to its cell |
| Search.PoppedTargetIsShortest | src/main/java/org/example/AStarPathfinder.java:69-73 | when the polled entry is the target, its reconstructed path is a walk from start to target no longer than any other |
| Search.StalePopKeepsInv | src/main/java/org/example/AStarPathfinder.java:75-77 | discarding a polled entry whose cell is already closed keeps the search invariant |
| Search.ClosingShrinks | src/main/java/org/example/AStarPathfinder.java:75-78 | closing a not-yet-closed free cell strictly shrinks the set of grid cells left to close, so each cell is expanded at most once |
| Search.QualifyingSteps | src/main/java/org/example/AStarPathfinder.java:80-92 | an expansion over the first k directions pushes at most k neighbours |
| Search.QualifyingStepsMembers | src/main/java/org/example/AStarPathfinder.java:80-92 | a cell is among the neighbours an expansion pushes exactly when it is one of the direction steps, free and not closed |
| Search.ExpandNeighbors | src/main/java/org/example/AStarPathfinder.java:80-100 | expansion keeps the old frontier as a prefix and appends, in `DIRECTIONS` order, one new node for every free, unclosed neighbour, even one that already has an entry. Each new node has g one more than the expanded node, h its estimate to the target, and the expanded node as parent |
| Search.PushedEntriesCover | src/main/java/org/example/AStarPathfinder.java:80-99 | after expansion every free, unclosed neighbour has a frontier entry costing one more than the expanded node |
| Search.ExpandKeepsInv | src/main/java/org/example/AStarPathfinder.java:78-100 | closing the polled cell with its g and pushing its neighbours keeps the search invariant |
| Search.ExhaustedMeansUnreachable | src/main/java/org/example/AStarPathfinder.java:68-104 | an exhausted frontier means no walk joins start and target |
| Search.Search | src/main/java/org/example/AStarPathfinder.java:60-104 | the loop either finds a shortest path from start to target or reports that none exists |
| Search.ShortestPathLengthDeterminate | src/main/java/org/example/AStarPathfinder.java:40-47 | any two shortest paths between the same cells have the same length, and the last g is that length minus one |
| Search.FindShortestPath | src/main/java/org/example/AStarPathfinder.java:49-105 | out-of-bounds endpoints, then obstacle endpoints, give an empty result. Otherwise the result is non-empty exactly when a walk exists, and is then a shortest path of parent-linked nodes with g rising by one. start = target gives the single node with g = 0 |
| Scenarios.OpenGridPathLength | src/main/java/org/example/AStarPathfinder.java:40-47 | on a grid without obstacles a walk joins any two in-bounds cells, and a shortest path has Manhattan distance + 1 nodes |
| Scenarios.DetourIsForced | src/main/java/org/example/AStarPathfinder.java:80-99 | on the 2 × 2 grid blocked at its lower-left corner, the only shortest route between opposite corners goes right, then down |
| Scenarios.DetourScenario | src/main/java/org/example/AStarPathfinder.java:49-105 | searching that grid from (0,0) to (1,1) finds (0,0), (0,1), (1,1) with final g = 2 |
| Scenarios.CornerIsIsolated | src/main/java/org/example/AStarPathfinder.java:84 | on the 2 × 2 grid blocked on its anti-diagonal, no walk leaves the top-left corner |
| Scenarios.BlockedScenario | src/main/java/org/example/AStarPathfinder.java:68-104 | searching that grid between opposite corners exhausts the frontier and returns the empty path |

## Left out

- `main` of `AStarPathfinder` is left out: it is a hard-coded demo grid, console output and `nanoTime` timing.
- `AStarVisualizer.java` is left out: it is Swing painting, mouse handling and an animation thread. AStarVisualizer.java is not part of this model.
- `toString` is left out: it is formatting only.
- The console messages of `findShortestPath` are left out. The `Status` result carries the same distinction.
- The heap layout and tie-breaking of `java.util.PriorityQueue` are not modelled. Any entry of least f may be polled, so the model proves no particular path shape among equal-cost routes.
- Search.FindShortestPath: repeated calls are only shown to agree on path length (`ShortestPathLengthDeterminate`), not on the cells visited, because tie-breaking is left open.
- Nodes.CompareTo: f = g + h is computed over unbounded integers. The source's `int` addition could wrap, but g and h are bounded by the grid size.
- Grid.Heuristic: computed over unbounded integers. The source's 32-bit subtraction and `Math.abs` could overflow only for coordinates far outside any grid, and those are rejected before the heuristic is called.
- Grid.Create: a `null` row inside the grid, which makes the Java constructor throw `NullPointerException`, cannot be expressed because rows are sequences.
- Nodes.Equals: comparison with objects of other classes is not modelled. The argument is a node or `null`.
- The grid is held by reference in Java and a caller could change it between searches. Here the engine holds an immutable snapshot.
