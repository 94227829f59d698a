/** The maze object: its map of cells, the `core` of expanded nodes and the
    `edge` queue, all updated in place while the breadth-first search runs.
    The map is tied to a `Board` value by `Valid`, the `core` record to a
    ghost map by `Records`, and the search loop keeps the invariant of
    search.dfy, so its outcome meets `Solution`. */
module Mazes {
  import opened Grid
  import opened Search

  /** The cells of line `l` with column below `n`, in column order, that are
      neither the start nor the objective and whose random draw came out
      below the obstacle odds. */
  function RowObstacles(l: int, n: nat, start: Coords, objective: Coords, draws: seq<bool>): (r: seq<Coords>)
    requires n <= |draws|
    ensures forall x :: x in r <==> x.l == l && 0 <= x.c < n && x != start && x != objective && draws[x.c]
  {
    if n == 0 then []
    else
      var x := Coords(l, n - 1);
      RowObstacles(l, n - 1, start, objective, draws)
        + if x != start && x != objective && draws[n - 1] then [x] else []
  }

  /** The obstacles a randomly generated maze receives from the lines below
      `n`, in line-major order, for the draws of `Math.random() < odds`
      given cell by cell. */
  function DrawnObstacles(n: nat, cols: nat, start: Coords, objective: Coords, draws: seq<seq<bool>>): (r: seq<Coords>)
    requires n <= |draws| && forall l | 0 <= l < |draws| :: |draws[l]| == cols
    ensures forall x :: x in r <==>
      0 <= x.l < n && 0 <= x.c < cols && x != start && x != objective && draws[x.l][x.c]
  {
    if n == 0 then []
    else DrawnObstacles(n - 1, cols, start, objective, draws) + RowObstacles(n - 1, cols, start, objective, draws[n - 1])
  }

  class Maze {
    const lines: nat
    const cols: nat
    const start: Coords
    /** The objective and the obstacles exist only as flags of the map. */
    ghost const objective: Coords
    ghost const obstacles: set<Coords>
    /** The map of cells (`map` in the source). */
    const grid: array2<Cell>
    /** The expanded node of every cell, if any. */
    const core: array2<Option<Node>>
    /** The search queue. */
    var edge: seq<Node>

    /** The map has the maze's dimensions and each cell carries exactly the
        flags the constructor set. */
    ghost predicate Valid()
      reads grid
    {
      && grid.Length0 == lines && grid.Length1 == cols
      && core.Length0 == lines && core.Length1 == cols
      && InBounds(Board(), start) && InBounds(Board(), objective)
      && (forall x | x in obstacles :: InBounds(Board(), x))
      && forall i, j | 0 <= i < lines && 0 <= j < cols ::
           grid[i, j] == Cell(Coords(i, j) in obstacles, Coords(i, j) == objective, Coords(i, j) == start)
    }

    ghost function Board(): Grid.Board
    {
      Grid.Board(lines, cols, obstacles)
    }

    /** `core` holds exactly the nodes recorded in `m`, each at its own cell. */
    ghost predicate Records(m: map<Coords, Node>)
      reads core
    {
      && (forall x | x in m :: 0 <= x.l < core.Length0 && 0 <= x.c < core.Length1)
      && forall i, j | 0 <= i < core.Length0 && 0 <= j < core.Length1 ::
           core[i, j] == if Coords(i, j) in m then Some(m[Coords(i, j)]) else None
    }

    /** Builds a `lines` by `cols` map with the objective, the start and the
        listed obstacles flagged, an empty record and an empty queue. All
        listed cells must lie inside the map, as the source indexes the map
        with them. */
    constructor(lines: nat, cols: nat, start: Coords, objective: Coords, obstacles: seq<Coords>)
      requires 0 <= start.l < lines && 0 <= start.c < cols
      requires 0 <= objective.l < lines && 0 <= objective.c < cols
      requires forall k | 0 <= k < |obstacles| :: 0 <= obstacles[k].l < lines && 0 <= obstacles[k].c < cols
      ensures Valid()
      ensures this.lines == lines && this.cols == cols && this.start == start
      ensures this.objective == objective && this.obstacles == set x | x in obstacles
      ensures edge == [] && Records(map[])
      ensures fresh(grid) && fresh(core)
    {
      var g := new Cell[lines, cols]((i, j) => Cell(false, false, false));
      g[objective.l, objective.c] := g[objective.l, objective.c].(objective := true);
      g[start.l, start.c] := g[start.l, start.c].(start := true);
      for k := 0 to |obstacles|
        invariant forall i, j | 0 <= i < lines && 0 <= j < cols ::
          g[i, j] == Cell(Coords(i, j) in obstacles[..k], Coords(i, j) == objective, Coords(i, j) == start)
      {
        var o := obstacles[k];
        assert obstacles[..k + 1] == obstacles[..k] + [o];
        g[o.l, o.c] := g[o.l, o.c].(obstacle := true);
      }
      assert obstacles[..|obstacles|] == obstacles;
      this.lines := lines;
      this.cols := cols;
      this.start := start;
      this.objective := objective;
      this.obstacles := set x | x in obstacles;
      grid := g;
      core := new Option<Node>[lines, cols]((i, j) => None);
      edge := [];
    }

    /** A maze whose obstacles are drawn at random, one draw per cell; the
        start and the objective are never obstacles. */
    static method Generate(lines: nat, cols: nat, start: Coords, objective: Coords, draws: seq<seq<bool>>)
      returns (maze: Maze)
      requires 0 <= start.l < lines && 0 <= start.c < cols
      requires 0 <= objective.l < lines && 0 <= objective.c < cols
      requires |draws| == lines && forall l | 0 <= l < lines :: |draws[l]| == cols
      ensures fresh(maze) && fresh(maze.grid) && fresh(maze.core) && maze.Valid()
      ensures maze.lines == lines && maze.cols == cols && maze.start == start && maze.objective == objective
      ensures maze.obstacles == set x | x in DrawnObstacles(lines, cols, start, objective, draws)
      ensures maze.edge == [] && maze.Records(map[])
    {
      var obstacles := DrawnObstacles(lines, cols, start, objective, draws);
      maze := new Maze(lines, cols, start, objective, obstacles);
    }

    /** Whether `x` is the objective, read from its flag. */
    function Solves(x: Coords): (r: bool)
      requires Valid() && InBounds(Board(), x)
      reads grid
      ensures r <==> x == objective
    {
      grid[x.l, x.c].objective
    }

    /** Whether cell (`i`, `j`) is an obstacle, read from its flag. */
    function Blocked(i: int, j: int): (r: bool)
      requires Valid() && 0 <= i < lines && 0 <= j < cols
      reads grid
      ensures r <==> Coords(i, j) in obstacles
    {
      grid[i, j].obstacle
    }

    /** The legal moves from `x`, checked against the map in the order UP,
        LEFT, DOWN, RIGHT. */
    method Actions(x: Coords) returns (acts: seq<Action>)
      requires Valid() && InBounds(Board(), x)
      ensures acts == Moves(Board(), x)
    {
      MovesTests(Board(), x);
      ghost var up, left, down, right: seq<Action> := [], [], [], [];
      acts := [];
      if x.l > 0 && !Blocked(x.l - 1, x.c) {
        acts, up := acts + [Up], [Up];
      }
      assert acts == up;
      if x.c > 0 && !Blocked(x.l, x.c - 1) {
        acts, left := acts + [Left], [Left];
      }
      assert acts == up + left;
      if x.l < grid.Length0 - 1 && !Blocked(x.l + 1, x.c) {
        acts, down := acts + [Down], [Down];
      }
      assert acts == up + left + down;
      if x.c < grid.Length1 - 1 && !Blocked(x.l, x.c + 1) {
        acts, right := acts + [Right], [Right];
      }
      assert acts == up + left + down + right;
      AppendFour(up, left, down, right);
    }

    /** Whether some queued node sits at `x`. */
    function InEdge(x: Coords): (r: bool)
      reads this
      ensures r <==> exists i | 0 <= i < |edge| :: edge[i].state == x
    {
      InCoordinatesAt(edge, x);
      x in Coordinates(edge)
    }

    /** Records `node` at its cell of `core`. */
    method Record(node: Node, ghost m: map<Coords, Node>)
      requires Records(m) && 0 <= node.state.l < core.Length0 && 0 <= node.state.c < core.Length1
      modifies core
      ensures Records(m[node.state := node])
    {
      core[node.state.l, node.state.c] := Some(node);
    }

    /** The body of the loop over moves once the child is built: look its
        cell up in `core` and queue the child when its cell is neither
        recorded nor queued. Nothing recorded costs as much as the child, so
        the overwrite of a recorded node by a cheaper child writes back the
        node that was there. */
    method Visit(child: Node, ghost m: map<Coords, Node>)
      requires Records(m) && 0 <= child.state.l < core.Length0 && 0 <= child.state.c < core.Length1
      requires forall x | x in m :: m[x].cost < child.cost
      modifies this, core
      ensures Records(m)
      ensures edge == old(edge) + if child.state !in m && child.state !in Coordinates(old(edge)) then [child] else []
    {
      var existing := core[child.state.l, child.state.c];
      core[child.state.l, child.state.c] := if existing.Some? && child.cost < existing.value.cost then Some(child) else existing;
      InCoordinatesAt(edge, child.state);
      if existing.None? && !InEdge(child.state) {
        edge := edge + [child];
      }
    }

    /** The loop over the moves out of the recorded node `node`: each child
        that is neither recorded nor queued is appended to the queue, in move
        order, and `core` keeps its contents. */
    method Expand(node: Node, ghost m: map<Coords, Node>)
      requires Valid() && Records(m) && InBounds(Board(), node.state)
      requires forall x | x in m :: m[x].cost <= node.cost
      modifies this, core
      ensures edge == old(edge) + Unseen(Children(Board(), node), m, old(edge))
      ensures Records(m)
    {
      var acts := Actions(node.state);
      ghost var kids := Children(Board(), node);
      ChildrenDistinct(Board(), node);
      for i := 0 to |acts|
        invariant Records(m)
        invariant edge == old(edge) + Unseen(kids[..i], m, old(edge))
      {
        var newcoords := Target(node.state, acts[i]);
        ChildAt(Board(), node, i);
        var child := Node(newcoords, node.cost + 1, Some(node));
        assert child == kids[i];
        QueueGrows(kids, i, m, old(edge), edge);
        Visit(child, m);
      }
      assert kids[..|acts|] == kids;
    }

    /** Breadth-first search from the start. Each node taken from the front
        of the queue whose cell is not yet in `core` is either the
        objective, and the search reports its cost and retraced path, or it
        is recorded and its unseen children are queued. An empty queue
        means there is no solution; `core` then marks exactly the cells a
        walk from the start reaches. */
    method Solve() returns (r: Outcome)
      requires Valid() && edge == [] && Records(map[])
      modifies this, core
      ensures Solution(Board(), start, objective, r)
      ensures r == NoPath ==> edge == []
      ensures r == NoPath ==> forall i, j | 0 <= i < lines && 0 <= j < cols ::
        core[i, j].Some? <==> Reachable(Board(), start, Coords(i, j))
    {
      edge := edge + [Node(start, 0, None)];
      assert edge == [Node(start, 0, None)];
      ghost var m: map<Coords, Node> := map[];
      BfsInit(Board(), start, objective);
      while |edge| > 0
        invariant Records(m)
        invariant BfsInv(Board(), start, objective, m, edge)
        decreases AllCells(Board()) - m.Keys, |edge|
      {
        ghost var queue := edge;
        var node := edge[0];
        edge := edge[1..];
        BfsFront(Board(), start, objective, m, queue);
        assert core[node.state.l, node.state.c].None?;
        if core[node.state.l, node.state.c].None? {
          if Solves(node.state) {
            r := Found(node.cost, Retrace(node));
            BfsFound(Board(), start, objective, m, queue);
            return;
          }
          BfsStep(Board(), start, objective, m, queue);
          RecordShrinks(Board(), m, node);
          Record(node, m);
          m := m[node.state := node];
          Expand(node, m);
        }
      }
      r := NoPath;
      BfsExhausted(Board(), start, objective, m);
    }
  }
}
