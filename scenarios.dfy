/** Small concrete mazes, built and solved through the class, with the
    outcome each must produce. */
module Scenarios {
  import opened Grid
  import opened Search
  import opened Mazes

  /** In a single line every walk of `n + 1` cells from column `n` back to
      column 0 visits each column once, in decreasing order. */
  lemma {:induction false} CorridorWalk(t: seq<Coords>, n: nat)
    requires |t| == n + 1 && Connected(t) && t[0] == Coords(0, n) && t[n] == Coords(0, 0)
    requires forall i | 0 <= i < |t| :: t[i].l == 0
    ensures forall i | 0 <= i <= n :: t[i] == Coords(0, n - i)
  {
    forall i | 0 <= i <= n
      ensures t[i] == Coords(0, n - i)
    {
      StepsApart(t, 0, i);
      StepsApart(t, i, n);
    }
  }

  /** A 1-by-5 corridor from the left end to the right end: four moves,
      and the path lists the columns from the objective back to the
      start. */
  method SolveCorridor() returns (r: Outcome)
    ensures r == Found(4, [Coords(0, 4), Coords(0, 3), Coords(0, 2), Coords(0, 1), Coords(0, 0)])
  {
    var maze := new Maze(1, 5, Coords(0, 0), Coords(0, 4), []);
    r := maze.Solve();
    var b := maze.Board();
    assert b.obstacles == {};
    SolutionOpenGrid(b, Coords(0, 0), Coords(0, 4), r);
    var p := r.path;
    assert forall i | 0 <= i < |p| :: p[i].l == 0 by {
      forall i | 0 <= i < |p|
        ensures p[i].l == 0
      {
        if i < |p| - 1 {
          assert Open(b, p[i]);
        }
      }
    }
    CorridorWalk(p, 4);
    assert p == [Coords(0, 4), Coords(0, 3), Coords(0, 2), Coords(0, 1), Coords(0, 0)];
  }

  /** Three cells, each next to the following one, the first two open and
      the last the start, form a walk. */
  lemma Walk3(b: Board, t: seq<Coords>, start: Coords)
    requires |t| == 3 && Adjacent(t[0], t[1]) && Adjacent(t[1], t[2]) && t[2] == start
    requires Open(b, t[0]) && Open(b, t[1])
    ensures Trace(b, t, start)
  {
  }

  /** A sequence of three elements is the display of them. */
  lemma Elements3<T>(s: seq<T>)
    requires |s| == 3
    ensures s == [s[0], s[1], s[2]]
  {
  }

  /** An objective two moves from the start, with `mid` the only open cell
      next to both: the one solution is the walk through `mid`. */
  lemma TwoMoveSolution(b: Board, start: Coords, mid: Coords, objective: Coords, r: Outcome)
    requires Manhattan(objective, start) == 2
    requires Adjacent(objective, mid) && Adjacent(mid, start) && Open(b, objective) && Open(b, mid)
    requires forall x | Adjacent(objective, x) && Adjacent(x, start) && Open(b, x) :: x == mid
    requires Solution(b, start, objective, r)
    ensures r == Found(2, [objective, mid, start])
  {
    var t := [objective, mid, start];
    Walk3(b, t, start);
    SolutionBound(b, start, objective, r, t);
    var p := r.path;
    TraceLength(b, p, start);
    assert Adjacent(p[0], p[1]) && Adjacent(p[1], p[2]) && Open(b, p[1]);
    Elements3(p);
  }

  /** In a grid in which the bottom-left cell of the top-left 2-by-2 square
      is open and the top-right one blocked, the bottom-left cell is the
      only open cell next to both the top-left and the bottom-right corner
      of that square. */
  lemma AroundObstacleCell(b: Board, x: Coords)
    requires Coords(0, 1) in b.obstacles
    requires Adjacent(Coords(1, 1), x) && Adjacent(x, Coords(0, 0)) && Open(b, x)
    ensures x == Coords(1, 0)
  {
  }

  /** With the top-right cell of a 2-by-2 grid blocked, the one solution
      from the top-left to the bottom-right corner passes the bottom-left
      cell. */
  lemma AroundObstacleSolution(b: Board, r: Outcome)
    requires b == Board(2, 2, {Coords(0, 1)})
    requires Solution(b, Coords(0, 0), Coords(1, 1), r)
    ensures r == Found(2, [Coords(1, 1), Coords(1, 0), Coords(0, 0)])
  {
    forall x | Adjacent(Coords(1, 1), x) && Adjacent(x, Coords(0, 0)) && Open(b, x)
      ensures x == Coords(1, 0)
    {
      AroundObstacleCell(b, x);
    }
    TwoMoveSolution(b, Coords(0, 0), Coords(1, 0), Coords(1, 1), r);
  }

  /** A 2-by-2 maze whose top-right cell is blocked: the objective in the
      bottom-right corner is reached through the bottom-left cell. */
  method SolveAroundObstacle() returns (r: Outcome)
    ensures r == Found(2, [Coords(1, 1), Coords(1, 0), Coords(0, 0)])
  {
    var maze := new Maze(2, 2, Coords(0, 0), Coords(1, 1), [Coords(0, 1)]);
    r := maze.Solve();
    assert maze.Board() == Board(2, 2, {Coords(0, 1)});
    AroundObstacleSolution(maze.Board(), r);
  }

  /** The only cell next to both (2, 0) and (0, 0) is (1, 0). */
  lemma ColumnCell(x: Coords)
    requires Adjacent(Coords(2, 0), x) && Adjacent(x, Coords(0, 0))
    ensures x == Coords(1, 0)
  {
  }

  /** With (1, 1) and (0, 1) blocked in a 3-by-3 grid, the one solution
      from (0, 0) to (2, 0) goes straight down the first column. */
  lemma ColumnSolution(b: Board, r: Outcome)
    requires b == Board(3, 3, {Coords(1, 1), Coords(0, 1)})
    requires Solution(b, Coords(0, 0), Coords(2, 0), r)
    ensures r == Found(2, [Coords(2, 0), Coords(1, 0), Coords(0, 0)])
  {
    forall x | Adjacent(Coords(2, 0), x) && Adjacent(x, Coords(0, 0)) && Open(b, x)
      ensures x == Coords(1, 0)
    {
      ColumnCell(x);
    }
    TwoMoveSolution(b, Coords(0, 0), Coords(1, 0), Coords(2, 0), r);
  }

  /** A 3-by-3 maze with (1, 1) and (0, 1) blocked: the objective two cells
      below the start is reached straight down the first column. */
  method SolveColumn() returns (r: Outcome)
    ensures r == Found(2, [Coords(2, 0), Coords(1, 0), Coords(0, 0)])
  {
    var maze := new Maze(3, 3, Coords(0, 0), Coords(2, 0), [Coords(1, 1), Coords(0, 1)]);
    r := maze.Solve();
    assert maze.Board() == Board(3, 3, {Coords(1, 1), Coords(0, 1)});
    ColumnSolution(maze.Board(), r);
  }

  /** The objective in a corner whose two neighbours are blocked cannot be
      reached. */
  method SolveWalledCorner() returns (r: Outcome)
    ensures r == NoPath
  {
    var maze := new Maze(3, 3, Coords(0, 0), Coords(2, 2), [Coords(1, 2), Coords(2, 1)]);
    r := maze.Solve();
    var b := maze.Board();
    assert b.obstacles == {Coords(1, 2), Coords(2, 1)};
    forall y | Adjacent(y, Coords(2, 2))
      ensures y != Coords(0, 0) && !Open(b, y)
    {
      assert Manhattan(Coords(2, 2), y) == 1;
      var a := Direction(Coords(2, 2), y);
      assert y == Target(Coords(2, 2), a);
    }
    SolutionWalled(b, Coords(0, 0), Coords(2, 2), r);
  }

  /** A maze whose start is its objective is solved at once, at cost 0. */
  method SolveAtStart() returns (r: Outcome)
    ensures r == Found(0, [Coords(1, 1)])
  {
    var maze := new Maze(3, 3, Coords(1, 1), Coords(1, 1), [Coords(0, 1), Coords(1, 0)]);
    r := maze.Solve();
    SolutionAtStart(maze.Board(), Coords(1, 1), r);
  }
}
