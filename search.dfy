/** Search nodes, path reconstruction and the breadth-first search invariant.
    Everything here is a value-level statement about a `Board`; the class in
    maze.dfy runs the search on its fields and calls these lemmas to keep the
    invariant. */
module Search {
  import opened Grid

  datatype Option<T> = None | Some(value: T)

  /** A search node: a cell, the number of moves from the start, and the
      node it was reached from (none for the start node). */
  datatype Node = Node(state: Coords, cost: nat, parent: Option<Node>)

  /** What a search reports: the cost and path of the objective, or that
      there is no solution. */
  datatype Outcome = Found(cost: nat, path: seq<Coords>) | NoPath

  /** A well-formed node: its parent links lead back to a start node of cost
      0, each link is one move onto an open cell and adds 1 to the cost. */
  ghost predicate Chain(b: Board, start: Coords, n: Node)
  {
    match n.parent
    case None => n.state == start && n.cost == 0
    case Some(p) =>
      && n.cost == p.cost + 1
      && Adjacent(n.state, p.state)
      && Open(b, n.state)
      && Chain(b, start, p)
  }

  /** The cells along the parent links, from the node itself back to the
      start node. */
  function Retrace(n: Node): (p: seq<Coords>)
    ensures |p| >= 1 && p[0] == n.state
  {
    match n.parent
    case None => [n.state]
    case Some(q) => [n.state] + Retrace(q)
  }

  /** Retracing a well-formed node yields a walk back to the start, one cell
      longer than the node's cost. */
  lemma {:induction false} RetraceChain(b: Board, start: Coords, n: Node)
    requires Chain(b, start, n)
    ensures |Retrace(n)| == n.cost + 1 && Trace(b, Retrace(n), start)
  {
    match n.parent
    case None =>
    case Some(q) =>
      RetraceChain(b, start, q);
      TraceCons(b, n.state, Retrace(q), start);
  }

  /** The cells of a list of nodes, in order. */
  function Coordinates(nodes: seq<Node>): seq<Coords>
  {
    seq(|nodes|, i requires 0 <= i < |nodes| => nodes[i].state)
  }

  lemma CoordinatesAppend(a: seq<Node>, b: seq<Node>)
    ensures Coordinates(a + b) == Coordinates(a) + Coordinates(b)
  {
  }

  lemma InCoordinates(nodes: seq<Node>, k: Node)
    requires k in nodes
    ensures k.state in Coordinates(nodes)
  {
    var i :| 0 <= i < |nodes| && nodes[i] == k;
    assert Coordinates(nodes)[i] == k.state;
  }

  lemma AppendOne(a: seq<Node>, b: seq<Node>, n: Node)
    ensures (a + b) + [n] == a + (b + [n])
  {
  }

  lemma InCoordinatesAt(nodes: seq<Node>, x: Coords)
    ensures x in Coordinates(nodes) <==> exists i | 0 <= i < |nodes| :: nodes[i].state == x
  {
    assert forall i | 0 <= i < |nodes| :: Coordinates(nodes)[i] == nodes[i].state;
  }

  predicate Distinct(s: seq<Coords>)
  {
    forall i, j | 0 <= i < j < |s| :: s[i] != s[j]
  }

  /** The node a move from `u` creates. */
  function Child(u: Node, a: Action): Node
  {
    Node(Target(u.state, a), u.cost + 1, Some(u))
  }

  /** The nodes built from `u`, one per legal move, in move order. */
  function Children(b: Board, u: Node): seq<Node>
    requires InBounds(b, u.state)
  {
    var acts := Moves(b, u.state);
    seq(|acts|, i requires 0 <= i < |acts| => Child(u, acts[i]))
  }

  /** The child for the `i`-th legal move lands on an open cell. */
  lemma ChildAt(b: Board, u: Node, i: nat)
    requires InBounds(b, u.state) && i < |Moves(b, u.state)|
    ensures |Children(b, u)| == |Moves(b, u.state)|
    ensures Children(b, u)[i] == Child(u, Moves(b, u.state)[i])
    ensures Open(b, Children(b, u)[i].state)
  {
    assert Moves(b, u.state)[i] in Moves(b, u.state);
  }

  /** Different moves lead to different cells. */
  lemma {:induction false} ChildrenDistinct(b: Board, u: Node)
    requires InBounds(b, u.state)
    ensures Distinct(Coordinates(Children(b, u)))
  {
    var acts := Moves(b, u.state);
    var kids := Children(b, u);
    forall i, j | 0 <= i < j < |kids|
      ensures Coordinates(kids)[i] != Coordinates(kids)[j]
    {
      TargetInjective(u.state, acts[i], acts[j]);
    }
  }

  /** The children of a well-formed node are well-formed, one move further,
      on pairwise different open cells, and cover every legal move. */
  lemma {:induction false} ChildrenFacts(b: Board, start: Coords, u: Node)
    requires InBounds(b, u.state) && Chain(b, start, u)
    ensures forall i | 0 <= i < |Children(b, u)| ::
      var k := Children(b, u)[i];
      k.cost == u.cost + 1 && Open(b, k.state) && k.state != u.state && Chain(b, start, k)
    ensures Distinct(Coordinates(Children(b, u)))
    ensures forall a | Allowed(b, u.state, a) :: Child(u, a) in Children(b, u)
  {
    var acts := Moves(b, u.state);
    var kids := Children(b, u);
    ChildrenDistinct(b, u);
    forall i | 0 <= i < |kids|
      ensures kids[i].cost == u.cost + 1 && Open(b, kids[i].state) && kids[i].state != u.state
      ensures Chain(b, start, kids[i])
    {
      ChildAt(b, u, i);
      assert Adjacent(kids[i].state, u.state);
    }
    forall a | Allowed(b, u.state, a)
      ensures Child(u, a) in kids
    {
      assert a in acts;
      var i :| 0 <= i < |acts| && acts[i] == a;
      assert kids[i] == Child(u, a);
    }
  }

  /** The nodes of `kids`, in order, whose cell is neither recorded in `m`
      nor queued in `edge`: what the expansion of one node appends to the
      queue. */
  function Unseen(kids: seq<Node>, m: map<Coords, Node>, edge: seq<Node>): (r: seq<Node>)
    ensures forall j | 0 <= j < |r| :: r[j] in kids && r[j].state !in m && r[j].state !in Coordinates(edge)
    ensures forall k | k in kids && k.state !in m && k.state !in Coordinates(edge) :: k in r
  {
    if kids == [] then []
    else
      var init := Unseen(kids[..|kids| - 1], m, edge);
      var k := kids[|kids| - 1];
      assert kids == kids[..|kids| - 1] + [k];
      if k.state !in m && k.state !in Coordinates(edge) then init + [k] else init
  }

  /** Filtering keeps cells pairwise different. */
  lemma {:induction false} UnseenDistinct(kids: seq<Node>, m: map<Coords, Node>, edge: seq<Node>)
    requires Distinct(Coordinates(kids))
    ensures Distinct(Coordinates(Unseen(kids, m, edge)))
  {
    if kids != [] {
      var pre := kids[..|kids| - 1];
      var k := kids[|kids| - 1];
      assert forall i | 0 <= i < |pre| :: Coordinates(pre)[i] == Coordinates(kids)[i];
      UnseenDistinct(pre, m, edge);
      var init := Unseen(pre, m, edge);
      if k.state !in m && k.state !in Coordinates(edge) {
        var r := init + [k];
        assert Unseen(kids, m, edge) == r;
        forall i, j | 0 <= i < j < |r|
          ensures Coordinates(r)[i] != Coordinates(r)[j]
        {
          assert r[i] == init[i] && Coordinates(r)[i] == Coordinates(init)[i];
          if j < |init| {
            assert r[j] == init[j] && Coordinates(r)[j] == Coordinates(init)[j];
          } else {
            assert init[i] in pre;
            var i' :| 0 <= i' < |pre| && pre[i'] == init[i];
            assert Coordinates(kids)[i'] != Coordinates(kids)[|kids| - 1];
          }
        }
      }
    }
  }

  /** Taking one more node of `kids` into account: the step the expansion
      loop takes per move. */
  lemma {:induction false} UnseenPrefix(kids: seq<Node>, i: nat, m: map<Coords, Node>, edge: seq<Node>)
    requires i < |kids|
    ensures Unseen(kids[..i + 1], m, edge)
         == Unseen(kids[..i], m, edge)
            + (if kids[i].state !in m && kids[i].state !in Coordinates(edge) then [kids[i]] else [])
  {
    assert kids[..i + 1][..i] == kids[..i];
  }

  /** While the expansion loop is at move `i`, the nodes it has appended so
      far are on other cells than child `i`, so looking child `i` up in the
      grown queue is looking it up in the queue the loop started from. */
  lemma {:induction false} NotYetAdded(kids: seq<Node>, m: map<Coords, Node>, edge: seq<Node>, i: nat)
    requires Distinct(Coordinates(kids)) && i < |kids|
    ensures kids[i].state in Coordinates(edge + Unseen(kids[..i], m, edge)) <==> kids[i].state in Coordinates(edge)
  {
    var added := Unseen(kids[..i], m, edge);
    CoordinatesAppend(edge, added);
    forall j | 0 <= j < |added|
      ensures Coordinates(added)[j] != kids[i].state
    {
      assert added[j] in kids[..i];
      var i' :| 0 <= i' < i && kids[..i][i'] == added[j];
      assert Coordinates(kids)[i'] != Coordinates(kids)[i];
    }
  }

  /** One round of the expansion loop: when `queue` is `edge` followed by the
      unseen nodes among the first `i` children, appending child `i` exactly
      when the grown queue and `m` do not hold its cell gives `edge`
      followed by the unseen nodes among the first `i + 1` children. */
  lemma {:induction false} QueueGrows(kids: seq<Node>, i: nat, m: map<Coords, Node>, edge: seq<Node>, queue: seq<Node>)
    requires Distinct(Coordinates(kids)) && i < |kids|
    requires queue == edge + Unseen(kids[..i], m, edge)
    ensures queue + (if kids[i].state !in m && kids[i].state !in Coordinates(queue) then [kids[i]] else [])
         == edge + Unseen(kids[..i + 1], m, edge)
  {
    NotYetAdded(kids, m, edge, i);
    UnseenPrefix(kids, i, m, edge);
    AppendOne(edge, Unseen(kids[..i], m, edge), kids[i]);
  }

  // The invariant of the search loop, in parts. `m` is the visited record
  // (the cells whose node has been taken from the queue and expanded) and
  // `edge` the queue.

  /** Every recorded node sits at its own cell inside the grid and is
      well-formed. */
  ghost predicate Recorded(b: Board, start: Coords, m: map<Coords, Node>)
  {
    forall x | x in m :: InBounds(b, x) && m[x].state == x && Chain(b, start, m[x])
  }

  /** Queue entries are well-formed, inside the grid, at pairwise different
      cells, and none of them is recorded. */
  ghost predicate Queued(b: Board, start: Coords, m: map<Coords, Node>, edge: seq<Node>)
  {
    && Distinct(Coordinates(edge))
    && forall i | 0 <= i < |edge| ::
      InBounds(b, edge[i].state) && edge[i].state !in m && Chain(b, start, edge[i])
  }

  /** Costs along the queue never decrease and span at most one, and no
      recorded node costs more than the front of the queue. */
  ghost predicate Levelled(m: map<Coords, Node>, edge: seq<Node>)
  {
    edge != [] ==>
      && (forall i, j | 0 <= i <= j < |edge| :: edge[i].cost <= edge[j].cost)
      && edge[|edge| - 1].cost <= edge[0].cost + 1
      && forall x | x in m :: m[x].cost <= edge[0].cost
  }

  /** Every legal move out of a recorded cell leads to a recorded or a
      queued cell. */
  ghost predicate Closed(b: Board, m: map<Coords, Node>, edge: seq<Node>)
  {
    forall x, a | x in m && Allowed(b, x, a) :: Target(x, a) in m || Target(x, a) in Coordinates(edge)
  }

  /** No walk to a queued cell is shorter than that entry's cost. */
  ghost predicate Optimal(b: Board, start: Coords, edge: seq<Node>)
  {
    forall t, i | Trace(b, t, start) && 0 <= i < |edge| && t[0] == edge[i].state ::
      edge[i].cost <= |t| - 1
  }

  /** Every walk to a cell that is neither recorded nor queued is longer
      than the cost at the front of the queue. */
  ghost predicate Beyond(b: Board, start: Coords, m: map<Coords, Node>, edge: seq<Node>)
  {
    edge != [] ==>
      forall t | Trace(b, t, start) && t[0] !in m && t[0] !in Coordinates(edge) ::
        |t| - 1 > edge[0].cost
  }

  ghost predicate BfsInv(b: Board, start: Coords, objective: Coords, m: map<Coords, Node>, edge: seq<Node>)
  {
    && InBounds(b, start)
    && Recorded(b, start, m)
    && Queued(b, start, m, edge)
    && Levelled(m, edge)
    && Closed(b, m, edge)
    && Optimal(b, start, edge)
    && Beyond(b, start, m, edge)
    && (start in m || start in Coordinates(edge))
    && objective !in m
  }

  /** The nodes appended to the queue when the front node `u` has been
      recorded and expanded, with `rest` the remainder of the queue. */
  function Added(b: Board, u: Node, m: map<Coords, Node>, rest: seq<Node>): seq<Node>
    requires InBounds(b, u.state)
  {
    Unseen(Children(b, u), m[u.state := u], rest)
  }

  /** The search starts with the start node alone in the queue. */
  lemma {:induction false} BfsInit(b: Board, start: Coords, objective: Coords)
    requires InBounds(b, start)
    ensures BfsInv(b, start, objective, map[], [Node(start, 0, None)])
  {
    var edge := [Node(start, 0, None)];
    assert Coordinates(edge) == [start];
  }

  /** An appended node is one move further than `u`, well-formed, and on an
      open cell that was neither recorded nor queued. */
  lemma {:induction false} AddedAt(b: Board, start: Coords, u: Node, m: map<Coords, Node>, rest: seq<Node>, j: nat)
    requires InBounds(b, u.state) && Chain(b, start, u) && j < |Added(b, u, m, rest)|
    ensures var k := Added(b, u, m, rest)[j];
      && k.cost == u.cost + 1 && Open(b, k.state) && Chain(b, start, k)
      && k.state !in m && k.state != u.state && k.state !in Coordinates(rest)
  {
    var kids := Children(b, u);
    var k := Added(b, u, m, rest)[j];
    assert k in kids;
    var i :| 0 <= i < |kids| && kids[i] == k;
    ChildrenFacts(b, start, u);
  }

  /** The appended nodes are on pairwise different cells. */
  lemma {:induction false} AddedDistinct(b: Board, start: Coords, u: Node, m: map<Coords, Node>, rest: seq<Node>)
    requires InBounds(b, u.state) && Chain(b, start, u)
    ensures Distinct(Coordinates(Added(b, u, m, rest)))
  {
    ChildrenFacts(b, start, u);
    UnseenDistinct(Children(b, u), m[u.state := u], rest);
  }

  /** Every legal move out of `u` leads to a recorded cell, a cell still in
      the queue, or an appended node. */
  lemma {:induction false} AddedCovers(b: Board, start: Coords, u: Node, m: map<Coords, Node>, rest: seq<Node>, a: Action)
    requires InBounds(b, u.state) && Chain(b, start, u) && Allowed(b, u.state, a)
    ensures Target(u.state, a) in m || Target(u.state, a) == u.state
         || Target(u.state, a) in Coordinates(rest) || Target(u.state, a) in Coordinates(Added(b, u, m, rest))
  {
    ChildrenFacts(b, start, u);
    var k := Child(u, a);
    if k.state !in m[u.state := u] && k.state !in Coordinates(rest) {
      InCoordinates(Added(b, u, m, rest), k);
    }
  }

  /** What the step lemmas need to know about the nodes `added` to the queue
      when the front node `u` is expanded: they are on pairwise different
      open cells, one move further than `u`, well-formed, neither recorded
      nor queued, and every legal move out of `u` is accounted for. */
  ghost predicate Extends(b: Board, start: Coords, u: Node, m: map<Coords, Node>, rest: seq<Node>, added: seq<Node>)
  {
    && Distinct(Coordinates(added))
    && (forall j | 0 <= j < |added| ::
         && added[j].cost == u.cost + 1 && Open(b, added[j].state) && Chain(b, start, added[j])
         && added[j].state !in m && added[j].state != u.state && added[j].state !in Coordinates(rest))
    && forall a | Allowed(b, u.state, a) ::
         || Target(u.state, a) in m || Target(u.state, a) == u.state
         || Target(u.state, a) in Coordinates(rest) || Target(u.state, a) in Coordinates(added)
  }

  lemma {:induction false} AddedExtends(b: Board, start: Coords, u: Node, m: map<Coords, Node>, rest: seq<Node>)
    requires InBounds(b, u.state) && Chain(b, start, u)
    ensures Extends(b, start, u, m, rest, Added(b, u, m, rest))
  {
    var added := Added(b, u, m, rest);
    AddedDistinct(b, start, u, m, rest);
    forall j | 0 <= j < |added|
      ensures && added[j].cost == u.cost + 1 && Open(b, added[j].state) && Chain(b, start, added[j])
              && added[j].state !in m && added[j].state != u.state && added[j].state !in Coordinates(rest)
    {
      AddedAt(b, start, u, m, rest, j);
    }
    forall a | Allowed(b, u.state, a)
      ensures || Target(u.state, a) in m || Target(u.state, a) == u.state
              || Target(u.state, a) in Coordinates(rest) || Target(u.state, a) in Coordinates(added)
    {
      AddedCovers(b, start, u, m, rest, a);
    }
  }

  lemma {:induction false} StepQueuedEntries(b: Board, start: Coords, m: map<Coords, Node>, u: Node, rest: seq<Node>,
                                              added: seq<Node>)
    requires Extends(b, start, u, m, rest, added)
    requires Queued(b, start, m, [u] + rest)
    ensures forall i | 0 <= i < |rest + added| ::
      var n := (rest + added)[i];
      InBounds(b, n.state) && n.state !in m[u.state := u] && Chain(b, start, n)
  {
    var edge := [u] + rest;
    var e' := rest + added;
    forall i | 0 <= i < |e'|
      ensures InBounds(b, e'[i].state) && e'[i].state !in m[u.state := u] && Chain(b, start, e'[i])
    {
      if i < |rest| {
        assert e'[i] == edge[i + 1];
        assert Coordinates(edge)[0] != Coordinates(edge)[i + 1];
      } else {
        assert e'[i] == added[i - |rest|];
      }
    }
  }

  /** Two lists without repeats and without a common element append into a
      list without repeats. */
  lemma DistinctAppend(s: seq<Coords>, t: seq<Coords>)
    requires Distinct(s) && Distinct(t)
    requires forall j | 0 <= j < |t| :: t[j] !in s
    ensures Distinct(s + t)
  {
    forall i, j | 0 <= i < j < |s + t|
      ensures (s + t)[i] != (s + t)[j]
    {
      if j >= |s| && i < |s| {
        assert (s + t)[j] == t[j - |s|];
      }
    }
  }

  lemma DistinctTail(s: seq<Coords>)
    requires Distinct(s) && |s| > 0
    ensures Distinct(s[1..])
  {
    forall i, j | 0 <= i < j < |s| - 1
      ensures s[1..][i] != s[1..][j]
    {
      assert s[1..][i] == s[i + 1] && s[1..][j] == s[j + 1];
    }
  }

  lemma {:induction false} StepQueuedDistinct(b: Board, start: Coords, m: map<Coords, Node>, u: Node, rest: seq<Node>,
                                               added: seq<Node>)
    requires Extends(b, start, u, m, rest, added)
    requires Distinct(Coordinates([u] + rest))
    ensures Distinct(Coordinates(rest + added))
  {
    CoordinatesAppend([u], rest);
    CoordinatesAppend(rest, added);
    assert Coordinates([u] + rest)[1..] == Coordinates(rest);
    DistinctTail(Coordinates([u] + rest));
    forall j | 0 <= j < |Coordinates(added)|
      ensures Coordinates(added)[j] !in Coordinates(rest)
    {
      assert Coordinates(added)[j] == added[j].state;
    }
    DistinctAppend(Coordinates(rest), Coordinates(added));
  }

  lemma {:induction false} StepQueued(b: Board, start: Coords, m: map<Coords, Node>, u: Node, rest: seq<Node>,
                                       added: seq<Node>)
    requires Extends(b, start, u, m, rest, added)
    requires Queued(b, start, m, [u] + rest)
    ensures Queued(b, start, m[u.state := u], rest + added)
  {
    StepQueuedEntries(b, start, m, u, rest, added);
    StepQueuedDistinct(b, start, m, u, rest, added);
  }

  lemma {:induction false} StepLevelled(b: Board, start: Coords, m: map<Coords, Node>, u: Node, rest: seq<Node>,
                                         added: seq<Node>)
    requires Extends(b, start, u, m, rest, added)
    requires Levelled(m, [u] + rest)
    ensures Levelled(m[u.state := u], rest + added)
  {
    var edge := [u] + rest;
    var e' := rest + added;
    forall i, j | 0 <= i <= j < |e'|
      ensures e'[i].cost <= e'[j].cost
    {
      if j < |rest| {
        assert e'[i] == edge[i + 1] && e'[j] == edge[j + 1];
      } else if i < |rest| {
        assert e'[i] == edge[i + 1] && e'[j] == added[j - |rest|];
        assert edge[0].cost <= edge[i + 1].cost <= edge[|edge| - 1].cost;
      } else {
        assert e'[i] == added[i - |rest|] && e'[j] == added[j - |rest|];
      }
    }
    if e' != [] {
      var z := |e'| - 1;
      if z < |rest| {
        assert e'[z] == edge[z + 1] && e'[0] == edge[1];
      } else {
        assert e'[z] == added[z - |rest|];
        if rest != [] {
          assert e'[0] == edge[1];
        } else {
          assert e'[0] == added[0];
        }
      }
    }
  }

  lemma {:induction false} StepClosed(b: Board, start: Coords, m: map<Coords, Node>, u: Node, rest: seq<Node>,
                                       added: seq<Node>)
    requires Extends(b, start, u, m, rest, added)
    requires Closed(b, m, [u] + rest)
    ensures Closed(b, m[u.state := u], rest + added)
  {
    var m' := m[u.state := u];
    CoordinatesAppend(rest, added);
    CoordinatesAppend([u], rest);
    forall x, a | x in m' && Allowed(b, x, a)
      ensures Target(x, a) in m' || Target(x, a) in Coordinates(rest + added)
    {
    }
  }

  /** An appended node is no more expensive than any walk to its cell: the
      cell was unknown, so such a walk is longer than `u.cost`. */
  lemma {:induction false} OptimalAdded(b: Board, start: Coords, m: map<Coords, Node>, u: Node, rest: seq<Node>,
                                         k: Node, t: seq<Coords>)
    requires Beyond(b, start, m, [u] + rest) && Trace(b, t, start) && t[0] == k.state
    requires k.cost == u.cost + 1 && k.state !in m && k.state != u.state && k.state !in Coordinates(rest)
    ensures k.cost <= |t| - 1
  {
    assert ([u] + rest)[0] == u;
    CoordinatesAppend([u], rest);
  }

  /** A queue entry behind the front keeps its bound on walks to its cell. */
  lemma {:induction false} OptimalRest(b: Board, start: Coords, u: Node, rest: seq<Node>, added: seq<Node>,
                                        t: seq<Coords>, i: nat)
    requires Optimal(b, start, [u] + rest) && i < |rest|
    requires Trace(b, t, start) && t[0] == (rest + added)[i].state
    ensures (rest + added)[i].cost <= |t| - 1
  {
    assert (rest + added)[i] == ([u] + rest)[i + 1];
  }

  lemma {:induction false} StepOptimal(b: Board, start: Coords, m: map<Coords, Node>, u: Node, rest: seq<Node>,
                                        added: seq<Node>)
    requires Extends(b, start, u, m, rest, added)
    requires Optimal(b, start, [u] + rest) && Beyond(b, start, m, [u] + rest)
    ensures Optimal(b, start, rest + added)
  {
    var e' := rest + added;
    forall t, i | Trace(b, t, start) && 0 <= i < |e'| && t[0] == e'[i].state
      ensures e'[i].cost <= |t| - 1
    {
      if i < |rest| {
        OptimalRest(b, start, u, rest, added, t, i);
      } else {
        assert e'[i] == added[i - |rest|];
        OptimalAdded(b, start, m, u, rest, e'[i], t);
      }
    }
  }

  /** The heart of the level argument: once the front of the queue has moved
      on to cost `u.cost + 1`, a walk to a cell that is still unknown after
      expanding `u` has more than `u.cost + 1` moves, because its
      second-to-last cell is neither recorded nor `u`, so it is either
      queued behind `u` (at cost `u.cost + 1`) or unknown. */
  lemma {:induction false} BeyondWalk(b: Board, start: Coords, m: map<Coords, Node>, u: Node, rest: seq<Node>,
                                       added: seq<Node>, t: seq<Coords>)
    requires Extends(b, start, u, m, rest, added)
    requires Levelled(m, [u] + rest) && Closed(b, m, [u] + rest)
    requires Optimal(b, start, [u] + rest) && Beyond(b, start, m, [u] + rest)
    requires rest != [] ==> rest[0].cost == u.cost + 1
    requires Trace(b, t, start) && t[0] !in m && t[0] != u.state
    requires t[0] !in Coordinates(rest) && t[0] !in Coordinates(added)
    ensures |t| - 1 > u.cost + 1
  {
    var edge := [u] + rest;
    assert edge[0] == u;
    assert Coordinates(edge) == [u.state] + Coordinates(rest) by { CoordinatesAppend([u], rest); }
    assert |t| - 1 > u.cost;
    TraceTail(b, t, start);
    var t1 := t[1..];
    var y := t[1];
    assert t1[0] == y;
    var a := Direction(y, t[0]);
    assert Allowed(b, y, a);
    assert y !in m;
    assert y != u.state;
    if y in Coordinates(rest) {
      var i :| 0 <= i < |rest| && Coordinates(rest)[i] == y;
      assert edge[i + 1] == rest[i] && edge[1] == rest[0];
      assert rest[i].cost <= |t1| - 1;
    }
  }

  lemma {:induction false} StepBeyond(b: Board, start: Coords, m: map<Coords, Node>, u: Node, rest: seq<Node>,
                                       added: seq<Node>)
    requires Extends(b, start, u, m, rest, added)
    requires Levelled(m, [u] + rest) && Closed(b, m, [u] + rest)
    requires Optimal(b, start, [u] + rest) && Beyond(b, start, m, [u] + rest)
    ensures Beyond(b, start, m[u.state := u], rest + added)
  {
    var edge := [u] + rest;
    var m' := m[u.state := u];
    var e' := rest + added;
    assert edge[0] == u;
    if e' != [] {
      if rest == [] {
        assert e'[0] == added[0];
      } else {
        assert e'[0] == rest[0] && edge[1] == rest[0];
      }
      CoordinatesAppend(rest, added);
      CoordinatesAppend([u], rest);
      var level := e'[0].cost == u.cost;
      assert !level ==> e'[0].cost == u.cost + 1 && (rest != [] ==> rest[0].cost == u.cost + 1);
      forall t | Trace(b, t, start) && t[0] !in m' && t[0] !in Coordinates(e')
        ensures |t| - 1 > e'[0].cost
      {
        if !level {
          BeyondWalk(b, start, m, u, rest, added, t);
        }
      }
    }
  }

  lemma {:induction false} StepRecorded(b: Board, start: Coords, m: map<Coords, Node>, u: Node)
    requires InBounds(b, u.state) && Chain(b, start, u) && Recorded(b, start, m)
    ensures Recorded(b, start, m[u.state := u])
  {
  }

  lemma {:induction false} StepStart(b: Board, start: Coords, m: map<Coords, Node>, u: Node, rest: seq<Node>,
                                      added: seq<Node>)
    requires start in m || start in Coordinates([u] + rest)
    ensures start in m[u.state := u] || start in Coordinates(rest + added)
  {
    CoordinatesAppend(rest, added);
    CoordinatesAppend([u], rest);
  }

  /** The invariant step for any `added` nodes that extend the queue as the
      expansion of the front node does. */
  lemma {:induction false} StepInv(b: Board, start: Coords, objective: Coords, m: map<Coords, Node>, edge: seq<Node>,
                                    added: seq<Node>)
    requires BfsInv(b, start, objective, m, edge) && edge != [] && edge[0].state != objective
    requires Extends(b, start, edge[0], m, edge[1..], added)
    ensures BfsInv(b, start, objective, m[edge[0].state := edge[0]], edge[1..] + added)
  {
    var u, rest := edge[0], edge[1..];
    assert edge == [u] + rest;
    StepRecorded(b, start, m, u);
    StepQueued(b, start, m, u, rest, added);
    StepLevelled(b, start, m, u, rest, added);
    StepClosed(b, start, m, u, rest, added);
    StepOptimal(b, start, m, u, rest, added);
    StepBeyond(b, start, m, u, rest, added);
    StepStart(b, start, m, u, rest, added);
  }

  /** The front of the queue lies inside the grid and is not recorded yet. */
  lemma {:induction false} BfsFront(b: Board, start: Coords, objective: Coords, m: map<Coords, Node>, edge: seq<Node>)
    requires BfsInv(b, start, objective, m, edge) && edge != []
    ensures InBounds(b, edge[0].state) && edge[0].state !in m
  {
  }

  /** Recording a new cell leaves fewer cells unrecorded: the measure by
      which the search terminates. */
  lemma {:induction false} RecordShrinks(b: Board, m: map<Coords, Node>, u: Node)
    requires InBounds(b, u.state) && u.state !in m
    ensures AllCells(b) - m[u.state := u].Keys < AllCells(b) - m.Keys
  {
    assert u.state in AllCells(b) - m.Keys;
  }

  /** One iteration of the search loop, when the front node is not the
      objective, keeps the invariant: the front node is recorded and its
      unseen children are queued behind the rest of the queue. No recorded
      node then costs more than the front node, so no child (one move
      further) is ever cheaper than a recorded node. */
  lemma {:induction false} BfsStep(b: Board, start: Coords, objective: Coords, m: map<Coords, Node>, edge: seq<Node>)
    requires BfsInv(b, start, objective, m, edge) && edge != [] && edge[0].state != objective
    ensures InBounds(b, edge[0].state)
    ensures var m' := m[edge[0].state := edge[0]];
      && (forall x | x in m' :: m'[x].cost <= edge[0].cost)
      && BfsInv(b, start, objective, m', edge[1..] + Unseen(Children(b, edge[0]), m', edge[1..]))
  {
    AddedExtends(b, start, edge[0], m, edge[1..]);
    StepInv(b, start, objective, m, edge, Added(b, edge[0], m, edge[1..]));
  }

  /** What the search promises: a found path runs from the objective back to
      the start, is one cell longer than the cost, and no walk to the
      objective is shorter; no solution means no walk reaches the
      objective. */
  ghost predicate Solution(b: Board, start: Coords, objective: Coords, r: Outcome)
  {
    match r
    case Found(cost, path) =>
      && Trace(b, path, start)
      && |path| == cost + 1
      && path[0] == objective
      && forall t | Trace(b, t, start) && t[0] == objective :: cost <= |t| - 1
    case NoPath =>
      forall t | Trace(b, t, start) :: t[0] != objective
  }

  /** Taking the objective from the front of the queue: its retraced path is
      a solution. */
  lemma {:induction false} BfsFound(b: Board, start: Coords, objective: Coords, m: map<Coords, Node>, edge: seq<Node>)
    requires BfsInv(b, start, objective, m, edge) && edge != [] && edge[0].state == objective
    ensures Solution(b, start, objective, Found(edge[0].cost, Retrace(edge[0])))
  {
    RetraceChain(b, start, edge[0]);
  }

  /** With a closed record containing the start, every walk ends in it. */
  lemma {:induction false} ClosedReach(b: Board, start: Coords, m: map<Coords, Node>, t: seq<Coords>)
    requires Closed(b, m, []) && start in m && Trace(b, t, start)
    ensures t[0] in m
    decreases |t|
  {
    if |t| > 1 {
      TraceTail(b, t, start);
      ClosedReach(b, start, m, t[1..]);
      var a := Direction(t[1], t[0]);
      assert Allowed(b, t[1], a);
    }
  }

  /** An empty queue: the record holds exactly the reachable cells, and the
      objective is not among them. */
  lemma {:induction false} BfsExhausted(b: Board, start: Coords, objective: Coords, m: map<Coords, Node>)
    requires BfsInv(b, start, objective, m, [])
    ensures Solution(b, start, objective, NoPath)
    ensures forall x :: x in m <==> Reachable(b, start, x)
  {
    forall t | Trace(b, t, start)
      ensures t[0] in m
    {
      ClosedReach(b, start, m, t);
    }
    forall x | x in m
      ensures Reachable(b, start, x)
    {
      RetraceChain(b, start, m[x]);
      assert Trace(b, Retrace(m[x]), start) && Retrace(m[x])[0] == x;
    }
  }

  // Consequences of the specification alone, whatever search produced the
  // outcome.

  /** A walk to the objective means a solution is found: a walk to the
      objective one cell longer than its cost, which is no more than that
      of the given walk. */
  lemma {:induction false} SolutionBound(b: Board, start: Coords, objective: Coords, r: Outcome, t: seq<Coords>)
    requires Solution(b, start, objective, r)
    requires Trace(b, t, start) && t[0] == objective
    ensures r.Found? && r.cost <= |t| - 1
    ensures Trace(b, r.path, start) && r.path[0] == objective && |r.path| == r.cost + 1
  {
  }

  /** When the start is the objective, the only solution is cost 0 along
      the one-cell path. */
  lemma {:induction false} SolutionAtStart(b: Board, start: Coords, r: Outcome)
    ensures Solution(b, start, start, r) <==> r == Found(0, [start])
  {
    assert Trace(b, [start], start);
    if r.Found? && Solution(b, start, start, r) {
      assert r.path == [start];
    }
  }

  /** The specification leaves no choice about whether a path exists nor
      about the cost: any two solutions agree on both. */
  lemma {:induction false} SolutionCostUnique(b: Board, start: Coords, objective: Coords, r1: Outcome, r2: Outcome)
    requires Solution(b, start, objective, r1) && Solution(b, start, objective, r2)
    ensures r1.Found? <==> r2.Found?
    ensures r1.Found? ==> r1.cost == r2.cost
  {
    if r1.Found? {
      assert Trace(b, r1.path, start) && r1.path[0] == objective;
    }
    if r2.Found? {
      assert Trace(b, r2.path, start) && r2.path[0] == objective;
    }
  }

  /** On a grid without obstacles every cell is reached, at the Manhattan
      distance. */
  lemma {:induction false} SolutionOpenGrid(b: Board, start: Coords, objective: Coords, r: Outcome)
    requires b.obstacles == {} && InBounds(b, start) && InBounds(b, objective)
    requires Solution(b, start, objective, r)
    ensures r.Found? && r.cost == Manhattan(objective, start)
  {
    var t := StraightTrace(b, objective, start);
    if r.Found? {
      TraceLength(b, r.path, start);
    }
  }

  /** An objective other than the start whose neighbours are all blocked,
      none of them being the start, is the first cell of no walk. */
  lemma {:induction false} WalledUnreachable(b: Board, start: Coords, objective: Coords, t: seq<Coords>)
    requires start != objective
    requires forall y | Adjacent(y, objective) :: y != start && !Open(b, y)
    requires Trace(b, t, start)
    ensures t[0] != objective
  {
    if |t| >= 2 {
      assert Adjacent(t[0], t[1]);
      assert Manhattan(t[1], t[0]) == Manhattan(t[0], t[1]);
    }
  }

  /** So for such an objective "no solution" is the only solution. */
  lemma {:induction false} SolutionWalled(b: Board, start: Coords, objective: Coords, r: Outcome)
    requires start != objective
    requires forall y | Adjacent(y, objective) :: y != start && !Open(b, y)
    ensures Solution(b, start, objective, r) <==> r == NoPath
  {
    forall t | Trace(b, t, start)
      ensures t[0] != objective
    {
      WalledUnreachable(b, start, objective, t);
    }
  }
}
