# Maze solver: a verified model

This project models `Maze`, a class that solves a rectangular grid maze by
breadth-first search. A maze has:

- a map of `lines` by `cols` cells;
- a start cell and an objective cell;
- optional obstacle cells.

Moves go one cell up, left, down or right, in that fixed order. A move may
not leave the map or land on an obstacle.

A search does the following:

- It queues a start node of cost 0 in the `edge` queue.
- It then takes nodes from the front of the queue. A node whose cell is
  already in the `core` record is skipped.
- If the node is on the objective, the search reports its cost and its
  path. The path is retraced through the parent links, from the objective
  back to the start.
- Otherwise the node is recorded in `core`. Each child is then queued unless
  its cell is already recorded or queued.
- An empty queue means there is no solution.

The model has four modules:

- `Grid` (grid.dfy): the grid as a value.
  - The cell flags, the moves and where they lead.
  - The legal moves, in test order.
  - Walks through the grid (`Trace`, `Reachable`).
- `Search` (search.dfy): value-level search structures.
  - Search nodes, retracing, and the children appended by one expansion.
  - The breadth-first invariant, with the lemmas that keep it.
  - The specification `Solution` every outcome meets:
    - a found path is a walk from the objective back to the start;
    - its length is one more than the cost;
    - no walk to the objective is shorter;
    - "no solution" means no walk reaches the objective.
- `Mazes` (maze.dfy): the class `Maze`.
  - It holds the map as a 2-D array of flag cells, `core` as a 2-D array of
    optional nodes, and `edge` as a sequence.
  - Its methods update these in place, as the source's methods do.
  - `Valid` and `Records` tie the arrays to a `Board` value and to a ghost
    map of recorded nodes.
  - `Solve` is proved against `Solution`. When there is no solution, it is
    also proved that `core` then marks exactly the reachable cells.
- `Scenarios` (scenarios.dfy): small mazes built and solved through the
  class, each proved to produce a fixed outcome.

The search prints its result; the model returns it as an `Outcome` value
instead. `Found(cost, path)` stands for printing a cost and a path.
`NoPath` stands for printing the no-solution message.

Path order follows the code. `retrace` puts the node's own cell first and
then follows the parent links, so a path lists the objective first and the
start last. The model keeps that order.

The code never pushes a duplicate to the queue: a child is pushed only when
its cell is neither recorded nor already queued. Stale duplicates can
therefore never occur. The model proves this: the queue's cells are pairwise
different (`Search.Queued`, kept by `Search.BfsStep`).

## Model

| member | source | states |
|---|---|---|
| Grid.Target | maze.ts:73-85 | the cell each move leads to is one orthogonal step from the node's cell |
| Grid.TargetInjective | maze.ts:73-85 | different moves from one cell lead to different cells |
| Grid.Direction | maze.ts:73-85 | every neighbour of a cell is reached from it by some move |
| Grid.AllCells | maze.ts:21 | the cells of the map are exactly the in-bounds coordinates |
| Grid.Keep | maze.ts:37-50 | the moves kept from a candidate list are exactly the legal candidates, and they stay ascending when the candidates are |
| Grid.Moves | maze.ts:37-50 | the legal moves are exactly those landing on an open cell inside the map, listed in the order UP, LEFT, DOWN, RIGHT |
| Grid.AllowedTests | maze.ts:40-47 | from a cell inside the map, each move is legal exactly when the source's bounds test and obstacle test for it pass |
| Grid.MovesTests | maze.ts:38-49 | the legal moves are the moves whose test passes, appended in the order the four tests run |
| Grid.TraceLength | maze.ts:52-100 | no walk is shorter than the Manhattan distance it covers |
| Grid.StraightTrace | maze.ts:52-100 | on a map without obstacles, a walk as short as the Manhattan distance joins any two cells |
| Search.Retrace | maze.ts:106-110 | the retraced path is non-empty and starts at the node's own cell |
| Search.RetraceChain | maze.ts:106-110 | retracing a well-formed node gives a walk back to the start, one cell longer than the node's cost |
| Search.ChildAt | maze.ts:70-87 | the child for the i-th legal move is built from that move, with one child per legal move, and lands on an open cell |
| Search.ChildrenDistinct | maze.ts:70-87 | the children of one node lie on pairwise different cells |
| Search.ChildrenFacts | maze.ts:70-87 | every child costs one more than its parent, lies on an open cell other than its parent's, and links back to the start; there is a child for every legal move |
| Search.Unseen | maze.ts:89-94 | a child is among the appended nodes exactly when its cell is neither recorded nor queued (membership both ways); the order, that of the children, comes from its definition and is not stated in its contract |
| Search.UnseenDistinct | maze.ts:93-94 | appending only unseen children keeps their cells pairwise different |
| Search.UnseenPrefix | maze.ts:70-94 | taking one more child into account appends it exactly when its cell is neither recorded nor queued |
| Search.NotYetAdded | maze.ts:93-94 | while the move loop runs, looking a child up in the grown queue gives the same answer as looking it up in the queue the loop started from |
| Search.QueueGrows | maze.ts:93-94 | one round of the move loop keeps the queue equal to the old queue followed by the unseen children handled so far |
| Search.AddedExtends | maze.ts:68-95 | the nodes one expansion appends cost one more than the expanded node, are new, well-formed and pairwise distinct, and together with the record and the queue they cover every legal move |
| Search.StepInv | maze.ts:61-95 | recording the front node and appending such nodes keeps every part of the search invariant |
| Search.BfsInit | maze.ts:53-54 | the queue holding only the start node at cost 0 satisfies the invariant |
| Search.BfsFront | maze.ts:61-62 | the node taken from the front of the queue lies inside the map and its cell is not recorded |
| Search.BfsStep | maze.ts:61-95 | expanding a front node that is not the objective keeps the invariant, and no recorded node costs more than it |
| Search.RecordShrinks | maze.ts:56-68 | each expansion records a new cell, so the loop ends |
| Search.BfsFound | maze.ts:62-65 | when the objective is at the front, its cost and retraced path form a solution |
| Search.ClosedReach | maze.ts:56-97 | when the queue is empty, every walk from the start ends in a recorded cell |
| Search.BfsExhausted | maze.ts:56-99 | when the queue is empty, there is no solution and the recorded cells are exactly the reachable ones |
| Search.SolutionBound | maze.ts:52-100 | whenever some walk reaches the objective, a path is found, and it costs no more than that walk |
| Search.SolutionAtStart | maze.ts:53-65 | when the start is the objective, the only solution is cost 0 along the one-cell path |
| Search.SolutionCostUnique | maze.ts:52-100 | any two solutions agree on whether a path exists and on its cost |
| Search.SolutionOpenGrid | maze.ts:52-100 | on a map without obstacles the objective is found at its Manhattan distance from the start |
| Search.WalledUnreachable | maze.ts:52-100 | no walk reaches an objective, other than the start, whose neighbours are all blocked and none of which is the start |
| Search.SolutionWalled | maze.ts:52-100 | for an objective other than the start whose neighbours are all blocked and none of which is the start, "no solution" is the only solution |
| Mazes.RowObstacles | maze.ts:154-156 | the obstacles drawn for one line are exactly its cells that are neither the start nor the objective and whose draw succeeded |
| Mazes.DrawnObstacles | maze.ts:154-156 | the generated obstacles are exactly the map's cells, other than the start and the objective, whose draw succeeded |
| Mazes.Maze.constructor | maze.ts:20-31 | the map has the given size, flags the objective, the start and exactly the listed obstacles, and starts with an empty queue and an empty record |
| Mazes.Maze.Generate | maze.ts:153-159 | the generated maze is the constructed maze whose obstacles are the drawn ones |
| Mazes.Maze.Solves | maze.ts:33-35 | a cell solves the maze exactly when it is the objective |
| Mazes.Maze.Blocked | maze.ts:40-47 | a cell's obstacle flag is set exactly when it is an obstacle |
| Mazes.Maze.Actions | maze.ts:37-50 | the moves returned are exactly the legal moves, in the order UP, LEFT, DOWN, RIGHT |
| Mazes.Maze.InEdge | maze.ts:102-104 | the test holds exactly when some queued node sits at the cell |
| Mazes.Maze.Record | maze.ts:68 | after the write, `core` records the node at its cell and keeps every other cell |
| Mazes.Maze.Visit | maze.ts:89-94 | the child is appended exactly when its cell is neither recorded nor queued; `core` keeps its contents |
| Mazes.Maze.Expand | maze.ts:70-95 | the queue becomes the old queue followed by the unseen children in move order; `core` keeps its contents |
| Mazes.Maze.Solve | maze.ts:52-100 | the outcome is a solution: a shortest walk from the objective back to the start, or "no solution" exactly when no walk reaches the objective; with no solution, the queue is empty and `core` marks exactly the reachable cells |
| Scenarios.SolveCorridor | maze.ts:52-100 | in a 1-by-5 corridor: cost 4, path through columns 4, 3, 2, 1, 0 |
| Scenarios.TwoMoveSolution | maze.ts:52-100 | when the objective is two moves away and exactly one open cell joins it to the start, the solution is the path through that cell |
| Scenarios.SolveAroundObstacle | maze.ts:52-100 | in a 2-by-2 maze with the top-right cell blocked: cost 2, path (1,1), (1,0), (0,0) |
| Scenarios.SolveColumn | maze.ts:52-100 | in a 3-by-3 maze with (1,1) and (0,1) blocked: cost 2, path (2,0), (1,0), (0,0) |
| Scenarios.SolveWalledCorner | maze.ts:52-100 | in a 3-by-3 maze whose objective corner is walled in: no solution |
| Scenarios.SolveAtStart | maze.ts:52-100 | a maze whose start is its objective is solved at cost 0, along the one-cell path |

## Left out

- Printing is left out: `print` and `writeCell` (maze.ts:112-151), and the
  printing calls inside `solve`. The outcome is returned as an `Outcome`
  value instead.
- The visualisation option of `solve` (maze.ts:57-60) is left out. It waits
  on a timer and prints, and changes no state of the search.
- Asynchrony is not modelled. `solve` is a plain method here.
- `Math.random()` in `generate` becomes a parameter: a grid of boolean
  draws, with `true` standing for `Math.random() < odds`. The odds
  themselves are not modelled. The source's `&&` stops before
  `Math.random()` for the start and the objective cell, so no draw is
  taken there; the model takes a draw for every cell but ignores the
  draws of those two cells.
- `inEdge` compares JSON texts. For pairs of integers, finding one pair's
  text inside the text of the list of queued pairs is exact membership, so
  it is modelled as membership.
- The source's numbers are JavaScript doubles; the model's are unbounded
  integers. The model takes the dimensions and coordinates to be integers;
  the source does not check this.
- Mazes.Maze.constructor: requires the start, the objective and every
  obstacle to lie inside the map. The source throws a TypeError when the
  start, the objective or an obstacle lies outside the map; the requires
  excludes these inputs.
- Mazes.Maze.constructor: a missing obstacle list is modelled as an empty
  list.
- Mazes.Maze.Solve: requires a freshly built maze, with an empty queue and
  an empty record. A second call on the same maze would start from the
  `core` and `edge` left by the first call. That second call, and any
  idempotence of solving twice, are not modelled.
  `Search.SolutionCostUnique` instead shows that every run's cost and
  existence of a path are determined.
- Mazes.Maze.Visit: models the overwrite (maze.ts:89-91) as one store,
  either of the child when it is cheaper or of the node already there. The
  source stores only in the first case; the contents of `core` come out
  the same. The model then proves that no recorded node ever costs more
  than a child, so the store always writes back the node already in
  `core`.
- Mazes.Maze.Solve: `Solution` fixes whether a path exists and its cost,
  but not which of several shortest walks is returned. The source's
  tie-break, by the order UP, LEFT, DOWN, RIGHT in which children are
  queued, is stated only in the contract of `Mazes.Maze.Expand`.
