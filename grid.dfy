/** The grid of a maze as a value: its dimensions, its blocked cells, the four
    orthogonal moves (in the fixed order UP, LEFT, DOWN, RIGHT) and the walks
    through it. The class in maze.dfy stores the same grid in a 2-D array; its
    invariant ties that array to a `Board` value, so everything proved here
    applies to it. */
module Grid {

  /** A cell position: line (row) first, then column. */
  datatype Coords = Coords(l: int, c: int)

  /** The three independent flags a cell of the map carries. */
  datatype Cell = Cell(obstacle: bool, objective: bool, start: bool)

  /** The four moves, declared in the order in which they are tried. */
  datatype Action = Up | Left | Down | Right

  /** A grid of `lines` by `cols` cells, some of them blocked. */
  datatype Board = Board(lines: int, cols: int, obstacles: set<Coords>)

  function Rank(a: Action): nat
  {
    match a
    case Up => 0
    case Left => 1
    case Down => 2
    case Right => 3
  }

  predicate InBounds(b: Board, x: Coords)
  {
    0 <= x.l < b.lines && 0 <= x.c < b.cols
  }

  /** A cell a move may land on: inside the grid and not an obstacle. */
  predicate Open(b: Board, x: Coords)
  {
    InBounds(b, x) && x !in b.obstacles
  }

  /** Every cell of the grid, as a finite set. */
  function AllCells(b: Board): (cells: set<Coords>)
    ensures forall x :: x in cells <==> InBounds(b, x)
  {
    var cells := set i, j | 0 <= i < b.lines && 0 <= j < b.cols :: Coords(i, j);
    assert forall x :: InBounds(b, x) ==> x == Coords(x.l, x.c);
    cells
  }

  function Abs(n: int): nat
  {
    if n < 0 then -n else n
  }

  function Manhattan(x: Coords, y: Coords): nat
  {
    Abs(x.l - y.l) + Abs(x.c - y.c)
  }

  /** One orthogonal step apart. */
  predicate Adjacent(x: Coords, y: Coords)
  {
    Manhattan(x, y) == 1
  }

  /** The cell a move leads to (the `switch` that builds `newcoords`). */
  function Target(x: Coords, a: Action): (y: Coords)
    ensures Adjacent(x, y)
  {
    match a
    case Up => Coords(x.l - 1, x.c)
    case Left => Coords(x.l, x.c - 1)
    case Down => Coords(x.l + 1, x.c)
    case Right => Coords(x.l, x.c + 1)
  }

  /** Different moves from one cell lead to different cells. */
  lemma TargetInjective(x: Coords, a: Action, a': Action)
    requires a != a'
    ensures Target(x, a) != Target(x, a')
  {
  }

  /** The move that goes from `x` to its neighbour `y`. */
  function Direction(x: Coords, y: Coords): (a: Action)
    requires Adjacent(x, y)
    ensures Target(x, a) == y
  {
    if y.l < x.l then Up
    else if y.c < x.c then Left
    else if y.l > x.l then Down
    else Right
  }

  /** A move is legal when it lands on an open cell. */
  predicate Allowed(b: Board, x: Coords, a: Action)
  {
    Open(b, Target(x, a))
  }

  /** Listed in strictly increasing rank. */
  predicate Ascending(acts: seq<Action>)
  {
    forall i, j | 0 <= i < j < |acts| :: Rank(acts[i]) < Rank(acts[j])
  }

  /** Putting the first candidate in front of moves kept from the later
      candidates keeps an ascending candidate list ascending. */
  lemma AscendingCons(cands: seq<Action>, rest: seq<Action>)
    requires |cands| > 0 && forall a | a in rest :: a in cands[1..]
    requires Ascending(cands[1..]) ==> Ascending(rest)
    ensures Ascending(cands) ==> Ascending([cands[0]] + rest)
  {
    if Ascending(cands) {
      var r := [cands[0]] + rest;
      forall i, j | 0 <= i < j < |r|
        ensures Rank(r[i]) < Rank(r[j])
      {
        assert r[j] == rest[j - 1] && r[j] in cands[1..];
        if i > 0 {
          assert r[i] == rest[i - 1];
        }
      }
    }
  }

  /** The legal moves among `cands`, in their order. */
  function Keep(b: Board, x: Coords, cands: seq<Action>): (acts: seq<Action>)
    ensures forall a :: a in acts <==> a in cands && Allowed(b, x, a)
    ensures Ascending(cands) ==> Ascending(acts)
  {
    if cands == [] then []
    else
      var rest := Keep(b, x, cands[1..]);
      if Allowed(b, x, cands[0]) then
        AscendingCons(cands, rest);
        [cands[0]] + rest
      else
        rest
  }

  /** The legal moves from `x`, in the order UP, LEFT, DOWN, RIGHT in which
      the source tests them. */
  function Moves(b: Board, x: Coords): (acts: seq<Action>)
    ensures forall a :: a in acts <==> Allowed(b, x, a)
    ensures Ascending(acts)
  {
    Keep(b, x, [Up, Left, Down, Right])
  }

  /** Inside the grid, each move is legal exactly when the bounds test and
      the obstacle test of the source pass. */
  lemma AllowedTests(b: Board, x: Coords)
    requires InBounds(b, x)
    ensures Allowed(b, x, Up) <==> x.l > 0 && Coords(x.l - 1, x.c) !in b.obstacles
    ensures Allowed(b, x, Left) <==> x.c > 0 && Coords(x.l, x.c - 1) !in b.obstacles
    ensures Allowed(b, x, Down) <==> x.l < b.lines - 1 && Coords(x.l + 1, x.c) !in b.obstacles
    ensures Allowed(b, x, Right) <==> x.c < b.cols - 1 && Coords(x.l, x.c + 1) !in b.obstacles
  {
  }

  /** Keeping moves from a list with a first element: that element, when
      legal, in front of what is kept from the others. */
  lemma KeepCons(b: Board, x: Coords, a: Action, cands: seq<Action>)
    ensures Keep(b, x, [a] + cands) == (if Allowed(b, x, a) then [a] else []) + Keep(b, x, cands)
  {
    assert ([a] + cands)[1..] == cands;
  }

  /** The legal moves from `x` are those whose test passes, in the order
      UP, LEFT, DOWN, RIGHT: the form in which the source lists them. */
  lemma MovesTests(b: Board, x: Coords)
    requires InBounds(b, x)
    ensures Moves(b, x)
         == (if x.l > 0 && Coords(x.l - 1, x.c) !in b.obstacles then [Up] else [])
          + ((if x.c > 0 && Coords(x.l, x.c - 1) !in b.obstacles then [Left] else [])
          + ((if x.l < b.lines - 1 && Coords(x.l + 1, x.c) !in b.obstacles then [Down] else [])
          + (if x.c < b.cols - 1 && Coords(x.l, x.c + 1) !in b.obstacles then [Right] else [])))
  {
    AllowedTests(b, x);
    assert [Up, Left, Down, Right] == [Up] + [Left, Down, Right];
    assert [Left, Down, Right] == [Left] + [Down, Right];
    assert [Down, Right] == [Down] + [Right];
    assert [Right] == [Right] + [];
    KeepCons(b, x, Up, [Left, Down, Right]);
    KeepCons(b, x, Left, [Down, Right]);
    KeepCons(b, x, Down, [Right]);
    KeepCons(b, x, Right, []);
  }

  /** Four lists appended one after another are the first in front of the
      other three. */
  lemma AppendFour(p: seq<Action>, q: seq<Action>, r: seq<Action>, s: seq<Action>)
    ensures p + q + r + s == p + (q + (r + s))
  {
  }

  /** Consecutive cells of `t` are one step apart. */
  predicate Connected(t: seq<Coords>)
  {
    forall i | 0 <= i < |t| - 1 :: Adjacent(t[i], t[i + 1])
  }

  /** A walk written backwards, as parent links are followed: it ends at
      `start`, every other cell on it is open, and each cell is one step
      from the next. The start cell itself need not be open. */
  ghost predicate Trace(b: Board, t: seq<Coords>, start: Coords)
  {
    && |t| >= 1
    && t[|t| - 1] == start
    && Connected(t)
    && forall i | 0 <= i < |t| - 1 :: Open(b, t[i])
  }

  /** There is a walk from `start` to `x`. */
  ghost predicate Reachable(b: Board, start: Coords, x: Coords)
  {
    exists t :: Trace(b, t, start) && t[0] == x
  }

  /** Dropping the first cell of a trace leaves a trace. */
  lemma TraceTail(b: Board, t: seq<Coords>, start: Coords)
    requires Trace(b, t, start) && |t| >= 2
    ensures Trace(b, t[1..], start)
  {
    var t' := t[1..];
    forall i | 0 <= i < |t'| - 1
      ensures Adjacent(t'[i], t'[i + 1]) && Open(b, t'[i])
    {
      assert t'[i] == t[i + 1] && t'[i + 1] == t[i + 2];
    }
  }

  /** Extending a trace by an open neighbour of its first cell. */
  lemma TraceCons(b: Board, x: Coords, t: seq<Coords>, start: Coords)
    requires Trace(b, t, start) && Adjacent(x, t[0]) && Open(b, x)
    ensures Trace(b, [x] + t, start)
  {
    var t' := [x] + t;
    forall i | 0 <= i < |t'| - 1
      ensures Adjacent(t'[i], t'[i + 1]) && Open(b, t'[i])
    {
      if i > 0 {
        assert t'[i] == t[i - 1] && t'[i + 1] == t[i];
      }
    }
  }

  /** Positions `i` and `j` of a connected walk are at most `j - i` steps
      apart. */
  lemma {:induction false} StepsApart(t: seq<Coords>, i: nat, j: nat)
    requires Connected(t) && i <= j < |t|
    ensures Manhattan(t[i], t[j]) <= j - i
    decreases j - i
  {
    if i < j {
      StepsApart(t, i + 1, j);
      assert Adjacent(t[i], t[i + 1]);
    }
  }

  /** No walk is shorter than the Manhattan distance it covers. */
  lemma TraceLength(b: Board, t: seq<Coords>, start: Coords)
    requires Trace(b, t, start)
    ensures |t| - 1 >= Manhattan(t[0], start)
  {
    StepsApart(t, 0, |t| - 1);
  }

  /** On a grid without obstacles there is a walk as short as the Manhattan
      distance between any two cells. */
  lemma {:induction false} StraightTrace(b: Board, x: Coords, start: Coords)
    returns (t: seq<Coords>)
    requires b.obstacles == {} && InBounds(b, x) && InBounds(b, start)
    ensures Trace(b, t, start) && t[0] == x && |t| - 1 == Manhattan(x, start)
    decreases Manhattan(x, start)
  {
    if x == start {
      t := [x];
    } else {
      var y := if x.l < start.l then Coords(x.l + 1, x.c)
               else if x.l > start.l then Coords(x.l - 1, x.c)
               else if x.c < start.c then Coords(x.l, x.c + 1)
               else Coords(x.l, x.c - 1);
      var rest := StraightTrace(b, y, start);
      TraceCons(b, x, rest, start);
      t := [x] + rest;
    }
  }
}
