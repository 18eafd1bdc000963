/**
  Maze generation: the constructor of Maze (maze.py:8-33), which builds a
  fully walled grid, opens the entrance and the exit, carves a spanning tree
  with a randomised recursive backtracker and clears the `visited` flags.
 */
module Generator {
  import opened Results
  import opened Grid
  import opened Paths
  import opened Edges

  /**
    Stands in for `random.randrange` (maze.py:93): `o(k, n)` is the index
    returned by the k-th draw among `n` choices. Every property below holds
    for every oracle that stays in range, so in particular for every seed.
   */
  type Oracle = (nat, nat) -> nat

  ghost predicate InRange(o: Oracle) {
    forall k: nat, n: nat :: 0 < n ==> o(k, n) < n
  }

  /** The only way construction fails: Python raises IndexError at maze.py:62
      when either dimension is below one. */
  datatype Error = InvalidDimensions

  /** The carved grid together with the number of draws consumed so far. */
  datatype Carving = Carving(maze: Maze, draws: nat)

  /** Model of `_break_entrance_and_exit` (maze.py:61-65). */
  function BreakEntranceAndExit(m: Maze): (r: Maze)
    requires m.Valid()
    ensures Opens(m, r) && SameVisited(m, r)
    ensures !r.At(Origin).hasTop && !r.At(m.Goal()).hasBottom
    ensures forall x :: m.InBounds(x) ==>
      && r.At(x).hasLeft == m.At(x).hasLeft && r.At(x).hasRight == m.At(x).hasRight
      && (x != Origin ==> r.At(x).hasTop == m.At(x).hasTop)
      && (x != m.Goal() ==> r.At(x).hasBottom == m.At(x).hasBottom)
  {
    var m1 := m.With(Origin, m.At(Origin).(hasTop := false));
    var m2 := m1.With(m.Goal(), m1.At(m.Goal()).(hasBottom := false));
    DoorsOpened(m, m1, m2);
    m2
  }

  /** Clearing the top of the origin, then the bottom of the exit. */
  lemma DoorsOpened(m: Maze, m1: Maze, m2: Maze)
    requires m.Valid() && m1.Valid() && m2.Valid()
    requires m1.cols == m.cols && m1.rows == m.rows && m2.cols == m.cols && m2.rows == m.rows
    requires m1.At(Origin) == m.At(Origin).(hasTop := false)
    requires forall x :: m.InBounds(x) && x != Origin ==> m1.At(x) == m.At(x)
    requires m2.At(m.Goal()) == m1.At(m.Goal()).(hasBottom := false)
    requires forall x :: m.InBounds(x) && x != m.Goal() ==> m2.At(x) == m1.At(x)
    ensures Opens(m, m2) && SameVisited(m, m2)
    ensures !m2.At(Origin).hasTop && !m2.At(m.Goal()).hasBottom
    ensures forall x :: m.InBounds(x) ==>
      && m2.At(x).hasLeft == m.At(x).hasLeft && m2.At(x).hasRight == m.At(x).hasRight
      && (x != Origin ==> m2.At(x).hasTop == m.At(x).hasTop)
      && (x != m.Goal() ==> m2.At(x).hasBottom == m.At(x).hasBottom)
  {
    forall x | m.InBounds(x)
      ensures OnlyRemoves(m.At(x), m2.At(x)) && m2.At(x).visited == m.At(x).visited
      ensures m2.At(x).hasLeft == m.At(x).hasLeft && m2.At(x).hasRight == m.At(x).hasRight
      ensures x != Origin ==> m2.At(x).hasTop == m.At(x).hasTop
      ensures x != m.Goal() ==> m2.At(x).hasBottom == m.At(x).hasBottom
    {
    }
    if m.Goal() == Origin {
      assert m2.At(Origin) == m.At(Origin).(hasTop := false, hasBottom := false);
    }
  }

  /** The entrance and the exit lie on the outer border: opening them leaves
      every wall between two grid cells as it was. */
  lemma EntranceExitOnBorder(m: Maze)
    requires m.Valid()
    ensures var r := BreakEntranceAndExit(m);
      forall p, q :: m.InBounds(p) && m.InBounds(q) && Adjacent(p, q) ==>
        Facing(r.At(p), p, q) == Facing(m.At(p), p, q)
  {
    var r := BreakEntranceAndExit(m);
    forall p, q | m.InBounds(p) && m.InBounds(q) && Adjacent(p, q)
      ensures Facing(r.At(p), p, q) == Facing(m.At(p), p, q)
    {
      AdjacentCases(p, q);
    }
  }

  /**
    Model of the candidate list built at maze.py:70-84: the in-grid
    orthogonal neighbours of `p` that are not yet visited, in the order
    left, right, up, down.
   */
  function UnvisitedNeighbors(m: Maze, p: Pos): (ns: seq<Pos>)
    requires m.Valid() && m.InBounds(p)
    ensures forall q :: q in ns <==> m.InBounds(q) && Adjacent(p, q) && !m.At(q).visited
    ensures Ordered(p, ns)
  {
    var l := if p.col > 0 && !m.At(p.Left()).visited then [p.Left()] else [];
    var r := if p.col < m.cols - 1 && !m.At(p.Right()).visited then [p.Right()] else [];
    var u := if p.row > 0 && !m.At(p.Up()).visited then [p.Up()] else [];
    var d := if p.row < m.rows - 1 && !m.At(p.Down()).visited then [p.Down()] else [];
    Pieces(p, l, r, u, d);
    Around(p);
    l + r + u + d
  }

  /** The carver has nowhere left to go from `p` (maze.py:88). */
  predicate Exhausted(m: Maze, p: Pos)
    requires m.Valid() && m.InBounds(p)
  {
    |UnvisitedNeighbors(m, p)| == 0
  }

  /** The maze with the edge between `p` and `q` opened from both sides. */
  function OpenBetween(m: Maze, p: Pos, q: Pos): Maze
    requires m.Valid() && m.InBounds(p) && m.InBounds(q) && Adjacent(p, q)
  {
    m.With(p, Opened(m.At(p), p, q)).With(q, Opened(m.At(q), q, p))
  }

  /**
    Model of the wall knock-out at maze.py:96-112: four independent tests on
    the chosen coordinate, each clearing one matched pair of flags. For an
    adjacent target exactly one test fires, so the effect is to open the one
    edge shared by `p` and `q` from both sides.
   */
  function KnockOut(m: Maze, p: Pos, q: Pos): (r: Maze)
    requires m.Valid() && m.InBounds(p) && m.InBounds(q) && Adjacent(p, q)
    ensures r == OpenBetween(m, p, q)
  {
    var m1 := if q.col == p.col + 1 then
      var a := m.With(p, m.At(p).(hasRight := false)); a.With(q, a.At(q).(hasLeft := false))
    else m;
    var m2 := if q.col == p.col - 1 then
      var a := m1.With(p, m1.At(p).(hasLeft := false)); a.With(q, a.At(q).(hasRight := false))
    else m1;
    var m3 := if q.row == p.row + 1 then
      var a := m2.With(p, m2.At(p).(hasBottom := false)); a.With(q, a.At(q).(hasTop := false))
    else m2;
    var m4 := if q.row == p.row - 1 then
      var a := m3.With(p, m3.At(p).(hasTop := false)); a.With(q, a.At(q).(hasBottom := false))
    else m3;
    m4
  }

  /** A knock-out clears the two flags on the shared edge and no other wall. */
  lemma KnockOutFacing(m: Maze, p: Pos, q: Pos, x: Pos, y: Pos)
    requires m.Valid() && m.InBounds(p) && m.InBounds(q) && Adjacent(p, q)
    requires m.InBounds(x) && Adjacent(x, y)
    ensures Facing(OpenBetween(m, p, q).At(x), x, y) ==
      if (x == p && y == q) || (x == q && y == p) then false else Facing(m.At(x), x, y)
  {
    var m1 := m.With(p, Opened(m.At(p), p, q));
    var r := m1.With(q, Opened(m1.At(q), q, p));
    AdjacentCases(p, q);
    assert m1.At(q) == m.At(q);
    if x == p {
      assert r.At(x) == Opened(m.At(p), p, q);
    } else if x == q {
      assert r.At(x) == Opened(m.At(q), q, p);
    } else {
      assert r.At(x) == m.At(x);
    }
  }

  /** What a knock-out changes: the two facing flags, nothing else. */
  lemma KnockOutFacts(m: Maze, p: Pos, q: Pos)
    requires m.Valid() && m.InBounds(p) && m.InBounds(q) && Adjacent(p, q)
    ensures var r := OpenBetween(m, p, q);
      && Opens(m, r) && SameVisited(m, r)
      && Passage(r, p, q) && Passage(r, q, p)
  {
    AdjacentCases(p, q);
    var c := Opened(m.At(p), p, q);
    var m1 := m.With(p, c);
    WithFacts(m, p, c);
    assert m1.At(q) == m.At(q);
    var d := Opened(m1.At(q), q, p);
    var r := m1.With(q, d);
    WithFacts(m1, q, d);
    OpensTrans(m, m1, r);
    SameVisitedTrans(m, m1, r);
    assert r.At(p) == c;
  }

  /**
    `r` differs from `m` in the walls between adjacent cells only by the
    edge between `p` and `q`, which is open from both sides.
   */
  ghost predicate OpensOnly(m: Maze, r: Maze, p: Pos, q: Pos)
    requires m.Valid() && r.Valid() && r.cols == m.cols && r.rows == m.rows
  {
    forall x, y :: m.InBounds(x) && Adjacent(x, y) ==>
      Facing(r.At(x), x, y) == if (x == p && y == q) || (x == q && y == p) then false else Facing(m.At(x), x, y)
  }

  lemma KnockOutOpensOnly(m: Maze, p: Pos, q: Pos)
    requires m.Valid() && m.InBounds(p) && m.InBounds(q) && Adjacent(p, q)
    ensures var r := OpenBetween(m, p, q);
      r.Valid() && r.cols == m.cols && r.rows == m.rows && OpensOnly(m, r, p, q)
  {
    forall x, y | m.InBounds(x) && Adjacent(x, y)
      ensures Facing(OpenBetween(m, p, q).At(x), x, y) ==
        if (x == p && y == q) || (x == q && y == p) then false else Facing(m.At(x), x, y)
    {
      KnockOutFacing(m, p, q, x, y);
    }
  }

  /** A knock-out keeps walls matched in pairs. */
  lemma KnockOutMirrored(m: Maze, p: Pos, q: Pos)
    requires m.Valid() && m.InBounds(p) && m.InBounds(q) && Adjacent(p, q)
    ensures Mirrored(m) ==> Mirrored(OpenBetween(m, p, q))
  {
    if Mirrored(m) {
      KnockOutOpensOnly(m, p, q);
      OpensOnlyMirrored(m, OpenBetween(m, p, q), p, q);
    }
  }

  lemma OpensOnlyMirrored(m: Maze, r: Maze, p: Pos, q: Pos)
    requires m.Valid() && r.Valid() && r.cols == m.cols && r.rows == m.rows
    requires OpensOnly(m, r, p, q) && Mirrored(m)
    ensures Mirrored(r)
  {
    forall x | r.InBounds(x) && r.InBounds(x.Right())
      ensures r.At(x).hasRight == r.At(x.Right()).hasLeft
    {
      var y := x.Right();
      assert y.Left() == x;
      OpensOnlyPair(m, r, p, q, x, y);
    }
    forall x | r.InBounds(x) && r.InBounds(x.Down())
      ensures r.At(x).hasBottom == r.At(x.Down()).hasTop
    {
      var y := x.Down();
      assert y.Up() == x;
      OpensOnlyPair(m, r, p, q, x, y);
    }
  }

  /** The two flags on one edge agree in `r` if they agreed in `m`. */
  lemma OpensOnlyPair(m: Maze, r: Maze, p: Pos, q: Pos, x: Pos, y: Pos)
    requires m.Valid() && r.Valid() && r.cols == m.cols && r.rows == m.rows
    requires OpensOnly(m, r, p, q)
    requires m.InBounds(x) && m.InBounds(y) && Adjacent(x, y) && Adjacent(y, x)
    requires Facing(m.At(x), x, y) == Facing(m.At(y), y, x)
    ensures Facing(r.At(x), x, y) == Facing(r.At(y), y, x)
  {
  }

  /** A knock-out adds exactly the edge between `p` and `q` to the open edges. */
  lemma KnockOutEdges(m: Maze, p: Pos, q: Pos)
    requires m.Valid() && m.InBounds(p) && m.InBounds(q) && Adjacent(p, q)
    ensures OpenEdges(OpenBetween(m, p, q)) == OpenEdges(m) + {EdgeOf(p, q)}
  {
    KnockOutOpensOnly(m, p, q);
    OpensOnlyEdges(m, OpenBetween(m, p, q), p, q);
  }

  lemma OpensOnlyEdges(m: Maze, r: Maze, p: Pos, q: Pos)
    requires m.Valid() && r.Valid() && r.cols == m.cols && r.rows == m.rows
    requires m.InBounds(p) && m.InBounds(q) && Adjacent(p, q)
    requires OpensOnly(m, r, p, q)
    ensures OpenEdges(r) == OpenEdges(m) + {EdgeOf(p, q)}
  {
    var e0 := EdgeOf(p, q);
    InteriorEdgesMembers(m);
    forall e | e in InteriorEdges(m.cols, m.rows)
      ensures EdgeOpen(r, e) <==> EdgeOpen(m, e) || e == e0
    {
      AdjacentCases(e.a, e.b);
      assert Adjacent(e.b, e.a);
    }
    assert e0 in InteriorEdges(m.cols, m.rows);
  }

  /**
    Model of `_break_walls_r` (maze.py:67-115), first statement: mark `p`
    visited, then run the carving loop from it. Draw `k` is the next one
    taken from the oracle.
   */
  function BreakWalls(m: Maze, p: Pos, o: Oracle, k: nat): (r: Carving)
    requires m.Valid() && m.InBounds(p) && !m.At(p).visited && InRange(o)
    ensures Opens(m, r.maze) && VisitedGrows(m, r.maze)
    ensures r.maze.At(p).visited
    ensures k <= r.draws
    ensures Mirrored(m) ==> Mirrored(r.maze)
    decreases Unvisited(m), 0
  {
    var m1 := m.Mark(p);
    UnvisitedShrinks(m, m1, p);
    var c := Explore(m1, p, o, k);
    MarkFacts(m, p);
    SameWallsMirrored(m, m1);
    OpensTrans(m, m1, c.maze);
    GrowsTrans(m, m1, c.maze);
    c
  }

  /**
    The `while True` loop of `_break_walls_r` (maze.py:69-115) at the
    visited cell `p`: while `p` has an unvisited neighbour, draw one, knock
    out the shared wall and recurse into it.
   */
  function Explore(m: Maze, p: Pos, o: Oracle, k: nat): (r: Carving)
    requires m.Valid() && m.InBounds(p) && m.At(p).visited && InRange(o)
    ensures Opens(m, r.maze) && VisitedGrows(m, r.maze)
    ensures Exhausted(r.maze, p)
    ensures k <= r.draws
    ensures Mirrored(m) ==> Mirrored(r.maze)
    decreases Unvisited(m), 1
  {
    var ns := UnvisitedNeighbors(m, p);
    if |ns| == 0 then Carving(m, k)
    else
      var q := ns[o(k, |ns|)];
      var m1 := KnockOut(m, p, q);
      KnockOutFacts(m, p, q);
      UnvisitedSame(m, m1);
      var c := BreakWalls(m1, q, o, k + 1);
      UnvisitedShrinks(m1, c.maze, q);
      var c' := Explore(c.maze, p, o, c.draws);
      SameVisitedGrows(m, m1);
      OpensTrans(m, m1, c.maze);
      OpensTrans(m, c.maze, c'.maze);
      GrowsTrans(m, m1, c.maze);
      GrowsTrans(m, c.maze, c'.maze);
      KnockOutMirrored(m, p, q);
      c'
  }

  /** Once exhausted, a cell stays exhausted as more cells get visited. */
  lemma ExhaustedGrows(m: Maze, m': Maze, x: Pos)
    requires VisitedGrows(m, m') && m.InBounds(x) && Exhausted(m, x)
    ensures Exhausted(m', x)
  {
  }

  /** Every visited cell is reachable from the origin. */
  ghost predicate AllReachable(m: Maze, s: set<Pos>)
    requires m.Valid()
  {
    forall x :: x in s ==> Reachable(m, Origin, x)
  }

  lemma AllReachableOpens(m: Maze, m': Maze, s: set<Pos>)
    requires Opens(m, m') && AllReachable(m, s)
    ensures AllReachable(m', s)
  {
    forall x | x in s ensures Reachable(m', Origin, x) {
      ReachableOpens(m, m', Origin, x);
    }
  }

  /**
    The spanning-tree invariant of one `_break_walls_r(p)` call: open edges
    stay among visited cells, every visited cell is connected to the origin,
    exactly one edge is opened per newly visited cell but the first, and
    every newly visited cell is left with no unvisited neighbour.
   */
  lemma {:induction false} BreakWallsTree(m: Maze, p: Pos, o: Oracle, k: nat)
    requires m.Valid() && m.InBounds(p) && !m.At(p).visited && InRange(o)
    requires EdgesWithin(m, VisitedSet(m) + {p})
    requires AllReachable(m, VisitedSet(m)) && Reachable(m, Origin, p)
    ensures var r := BreakWalls(m, p, o, k).maze;
      && EdgesWithin(r, VisitedSet(r))
      && AllReachable(r, VisitedSet(r))
      && |OpenEdges(r)| + |VisitedSet(m)| + 1 == |OpenEdges(m)| + |VisitedSet(r)|
      && forall x :: x in VisitedSet(r) && x !in VisitedSet(m) ==> Exhausted(r, x)
    decreases Unvisited(m), 0
  {
    var m1 := m.Mark(p);
    MarkTreeStep(m, p);
    ExploreTree(m1, p, o, k);
    var r := Explore(m1, p, o, k).maze;
    assert BreakWalls(m, p, o, k).maze == r;
  }

  /** Marking the cell the carver enters sets up the carving loop there. */
  lemma MarkTreeStep(m: Maze, p: Pos)
    requires m.Valid() && m.InBounds(p) && !m.At(p).visited
    requires EdgesWithin(m, VisitedSet(m) + {p})
    requires AllReachable(m, VisitedSet(m)) && Reachable(m, Origin, p)
    ensures var m1 := m.Mark(p);
      && m1.Valid() && m1.InBounds(p) && m1.At(p).visited
      && Unvisited(m1) < Unvisited(m)
      && VisitedSet(m1) == VisitedSet(m) + {p}
      && OpenEdges(m1) == OpenEdges(m)
      && EdgesWithin(m1, VisitedSet(m1)) && AllReachable(m1, VisitedSet(m1))
  {
    var m1 := m.Mark(p);
    MarkFacts(m, p);
    UnvisitedShrinks(m, m1, p);
    VisitedSetMembers(m);
    VisitedSetMembers(m1);
    assert VisitedSet(m1) == VisitedSet(m) + {p};
    OpenEdgesSameWalls(m, m1);
    SameWallsOpens(m, m1);
    AllReachableOpens(m, m1, VisitedSet(m));
    ReachableOpens(m, m1, Origin, p);
  }

  /** One knock-out towards an unvisited neighbour opens one new edge. */
  lemma KnockOutCount(m: Maze, p: Pos, q: Pos)
    requires m.Valid() && m.InBounds(p) && m.At(p).visited
    requires m.InBounds(q) && Adjacent(p, q) && !m.At(q).visited
    requires EdgesWithin(m, VisitedSet(m))
    ensures var m1 := OpenBetween(m, p, q);
      && |OpenEdges(m1)| == |OpenEdges(m)| + 1
      && EdgesWithin(m1, VisitedSet(m) + {q})
  {
    KnockOutEdges(m, p, q);
    assert p in VisitedSet(m) && q !in VisitedSet(m) by {
      VisitedSetMembers(m);
    }
    AddEdge(OpenEdges(m), OpenEdges(OpenBetween(m, p, q)), EdgeOf(p, q), VisitedSet(m), p, q);
  }

  /** Adding an edge from the set `s` to the outside `q` to edges within `s`. */
  lemma AddEdge(a: set<Edge>, b: set<Edge>, e0: Edge, s: set<Pos>, p: Pos, q: Pos)
    requires b == a + {e0} && forall e :: e in a ==> e.a in s && e.b in s
    requires (e0.a == p && e0.b == q) || (e0.a == q && e0.b == p)
    requires p in s && q !in s
    ensures |b| == |a| + 1
    ensures forall e :: e in b ==> e.a in s + {q} && e.b in s + {q}
  {
    assert e0 !in a;
  }

  /** One knock-out towards an unvisited neighbour sets up the recursive call. */
  lemma KnockOutTreeStep(m: Maze, p: Pos, q: Pos)
    requires m.Valid() && m.InBounds(p) && m.At(p).visited
    requires m.InBounds(q) && Adjacent(p, q) && !m.At(q).visited
    requires EdgesWithin(m, VisitedSet(m)) && AllReachable(m, VisitedSet(m))
    ensures var m1 := OpenBetween(m, p, q);
      && SameVisited(m, m1) && Opens(m, m1)
      && VisitedSet(m1) == VisitedSet(m) && Unvisited(m1) == Unvisited(m)
      && |OpenEdges(m1)| == |OpenEdges(m)| + 1
      && EdgesWithin(m1, VisitedSet(m1) + {q})
      && AllReachable(m1, VisitedSet(m1)) && Reachable(m1, Origin, q)
  {
    var m1 := OpenBetween(m, p, q);
    KnockOutFacts(m, p, q);
    UnvisitedSame(m, m1);
    KnockOutCount(m, p, q);
    AllReachableOpens(m, m1, VisitedSet(m));
    VisitedSetMembers(m);
    assert p in VisitedSet(m);
    ReachableOpens(m, m1, Origin, p);
    assert Step(m1, p, q);
    ReachableStep(m1, Origin, p, q);
  }

  /** The invariant of BreakWallsTree for the carving loop at a visited cell. */
  lemma {:induction false} ExploreTree(m: Maze, p: Pos, o: Oracle, k: nat)
    requires m.Valid() && m.InBounds(p) && m.At(p).visited && InRange(o)
    requires EdgesWithin(m, VisitedSet(m)) && AllReachable(m, VisitedSet(m))
    ensures var r := Explore(m, p, o, k).maze;
      && EdgesWithin(r, VisitedSet(r))
      && AllReachable(r, VisitedSet(r))
      && |OpenEdges(r)| + |VisitedSet(m)| == |OpenEdges(m)| + |VisitedSet(r)|
      && forall x :: x in VisitedSet(r) && x !in VisitedSet(m) ==> Exhausted(r, x)
    decreases Unvisited(m), 1
  {
    var ns := UnvisitedNeighbors(m, p);
    if |ns| != 0 {
      var q := ns[o(k, |ns|)];
      var m1 := KnockOut(m, p, q);
      KnockOutTreeStep(m, p, q);
      BreakWallsTree(m1, q, o, k + 1);
      var c := BreakWalls(m1, q, o, k + 1);
      UnvisitedShrinks(m1, c.maze, q);
      ExploreTree(c.maze, p, o, c.draws);
      var r := Explore(c.maze, p, o, c.draws).maze;
      assert Explore(m, p, o, k).maze == r;
      ExploreCompose(m, m1, c.maze, r);
    }
  }

  /** The counts and the exhausted cells of one carving step, put together. */
  lemma ExploreCompose(m: Maze, m1: Maze, c: Maze, r: Maze)
    requires SameVisited(m, m1) && VisitedGrows(m1, c) && VisitedGrows(c, r)
    requires VisitedSet(m1) == VisitedSet(m) && |OpenEdges(m1)| == |OpenEdges(m)| + 1
    requires |OpenEdges(c)| + |VisitedSet(m1)| + 1 == |OpenEdges(m1)| + |VisitedSet(c)|
    requires |OpenEdges(r)| + |VisitedSet(c)| == |OpenEdges(c)| + |VisitedSet(r)|
    requires forall x :: x in VisitedSet(c) && x !in VisitedSet(m1) ==> Exhausted(c, x)
    requires forall x :: x in VisitedSet(r) && x !in VisitedSet(c) ==> Exhausted(r, x)
    ensures |OpenEdges(r)| + |VisitedSet(m)| == |OpenEdges(m)| + |VisitedSet(r)|
    ensures forall x :: x in VisitedSet(r) && x !in VisitedSet(m) ==> Exhausted(r, x)
  {
    SameVisitedGrows(m, m1);
    GrowsTrans(m, m1, c);
    NewlyVisitedExhausted(m, c, r);
  }

  /** Splitting the newly visited cells between two consecutive phases. */
  lemma NewlyVisitedExhausted(m: Maze, c: Maze, r: Maze)
    requires VisitedGrows(m, c) && VisitedGrows(c, r)
    requires forall x :: x in VisitedSet(c) && x !in VisitedSet(m) ==> Exhausted(c, x)
    requires forall x :: x in VisitedSet(r) && x !in VisitedSet(c) ==> Exhausted(r, x)
    ensures forall x :: x in VisitedSet(r) && x !in VisitedSet(m) ==> Exhausted(r, x)
  {
    VisitedSetMembers(c);
    VisitedSetMembers(r);
    forall x | x in VisitedSet(r) && x !in VisitedSet(m) ensures Exhausted(r, x) {
      if x in VisitedSet(c) {
        ExhaustedGrows(c, r, x);
      }
    }
  }

  /** If the origin is visited and no visited cell has an unvisited
      neighbour, then every cell is visited. */
  lemma SweepVisited(m: Maze)
    requires m.Valid() && m.At(Origin).visited
    requires forall x :: m.InBounds(x) && m.At(x).visited ==> Exhausted(m, x)
    ensures forall x :: m.InBounds(x) ==> m.At(x).visited
  {
    forall x | m.InBounds(x) ensures m.At(x).visited {
      SweepTo(m, x);
    }
  }

  /** Walk right along row 0, then down column `x.col`, each step onto a visited cell. */
  lemma SweepTo(m: Maze, x: Pos)
    requires m.Valid() && m.At(Origin).visited && m.InBounds(x)
    requires forall x :: m.InBounds(x) && m.At(x).visited ==> Exhausted(m, x)
    ensures m.At(x).visited
  {
    SweepRight(m, x.col);
    SweepDown(m, x.col, x.row);
  }

  lemma SweepRight(m: Maze, col: int)
    requires m.Valid() && m.At(Origin).visited && 0 <= col < m.cols
    requires forall x :: m.InBounds(x) && m.At(x).visited ==> Exhausted(m, x)
    ensures m.At(Pos(col, 0)).visited
  {
    var c := 0;
    while c < col
      invariant 0 <= c <= col
      invariant m.At(Pos(c, 0)).visited
    {
      SweepStep(m, Pos(c, 0), Pos(c + 1, 0));
      c := c + 1;
    }
  }

  lemma SweepDown(m: Maze, col: int, row: int)
    requires m.Valid() && 0 <= col < m.cols && 0 <= row < m.rows && m.At(Pos(col, 0)).visited
    requires forall x :: m.InBounds(x) && m.At(x).visited ==> Exhausted(m, x)
    ensures m.At(Pos(col, row)).visited
  {
    var j := 0;
    while j < row
      invariant 0 <= j <= row
      invariant m.At(Pos(col, j)).visited
    {
      SweepStep(m, Pos(col, j), Pos(col, j + 1));
      j := j + 1;
    }
  }

  /** An exhausted cell's in-grid neighbours are visited. */
  lemma SweepStep(m: Maze, p: Pos, q: Pos)
    requires m.Valid() && m.InBounds(p) && m.InBounds(q) && Adjacent(p, q)
    requires Exhausted(m, p)
    ensures m.At(q).visited
  {
    assert q !in UnvisitedNeighbors(m, p);
  }

  /**
    Carving a fully walled grid from the origin (maze.py:30-32) visits every
    cell, opens exactly `cols * rows - 1` interior wall pairs, and connects
    every cell to the origin: the open passages form a spanning tree.
   */
  lemma CarveSpansGrid(cols: int, rows: int, o: Oracle)
    requires 1 <= cols && 1 <= rows && InRange(o)
    ensures var m0 := BreakEntranceAndExit(Fresh(cols, rows));
      var r := BreakWalls(m0, Origin, o, 0).maze;
      && (forall x :: r.InBounds(x) ==> r.At(x).visited)
      && |OpenEdges(r)| == cols * rows - 1
      && forall x :: r.InBounds(x) ==> Reachable(r, Origin, x)
  {
    var f := Fresh(cols, rows);
    var m0 := BreakEntranceAndExit(f);
    EntranceExitOnBorder(f);
    DoorsClosedInside(f, m0);
    CarveFrom(m0, o);
  }

  /** Before carving nothing is visited and every interior wall is standing. */
  lemma DoorsClosedInside(f: Maze, m0: Maze)
    requires f.Valid() && forall p :: f.InBounds(p) ==> f.At(p) == Walled
    requires SameVisited(f, m0)
    requires forall p, q :: f.InBounds(p) && f.InBounds(q) && Adjacent(p, q) ==>
      Facing(m0.At(p), p, q) == Facing(f.At(p), p, q)
    ensures VisitedSet(m0) == {} && OpenEdges(m0) == {}
  {
    VisitedSetMembers(m0);
    InteriorEdgesMembers(m0);
    forall e | e in InteriorEdges(m0.cols, m0.rows) ensures !EdgeOpen(m0, e) {
      assert f.At(e.a) == Walled;
      AdjacentCases(e.a, e.b);
    }
  }

  /** Carving from the origin of a grid with nothing visited and no edge open. */
  lemma CarveFrom(m0: Maze, o: Oracle)
    requires m0.Valid() && InRange(o) && VisitedSet(m0) == {} && OpenEdges(m0) == {}
    ensures !m0.At(Origin).visited
    ensures var r := BreakWalls(m0, Origin, o, 0).maze;
      && (forall x :: r.InBounds(x) ==> r.At(x).visited)
      && |OpenEdges(r)| == m0.cols * m0.rows - 1
      && forall x :: r.InBounds(x) ==> Reachable(r, Origin, x)
  {
    VisitedSetMembers(m0);
    ReachableRefl(m0, Origin);
    BreakWallsTree(m0, Origin, o, 0);
    var r := BreakWalls(m0, Origin, o, 0).maze;
    SpanFacts(r, m0.cols, m0.rows);
  }

  /** A carving that visited the origin and left every visited cell exhausted covers the grid. */
  lemma SpanFacts(r: Maze, cols: int, rows: int)
    requires r.Valid() && r.cols == cols && r.rows == rows && r.At(Origin).visited
    requires forall x :: x in VisitedSet(r) ==> Exhausted(r, x)
    requires AllReachable(r, VisitedSet(r)) && |OpenEdges(r)| + 1 == |VisitedSet(r)|
    ensures forall x :: r.InBounds(x) ==> r.At(x).visited
    ensures |OpenEdges(r)| == cols * rows - 1
    ensures forall x :: r.InBounds(x) ==> Reachable(r, Origin, x)
  {
    VisitedSetMembers(r);
    SweepVisited(r);
    CellSetMembers(r);
    assert VisitedSet(r) == CellSet(cols, rows);
    CellSetSize(cols, rows);
  }

  /** The entrance and exit flags are on the border, so opening them keeps a
      fully walled grid mirrored. */
  lemma DoorsMirrored(m: Maze, r: Maze)
    requires m.Valid() && forall p :: m.InBounds(p) ==> m.At(p) == Walled
    requires Opens(m, r)
    requires forall x :: m.InBounds(x) ==>
      && r.At(x).hasLeft == m.At(x).hasLeft && r.At(x).hasRight == m.At(x).hasRight
      && (x != Origin ==> r.At(x).hasTop == m.At(x).hasTop)
      && (x != m.Goal() ==> r.At(x).hasBottom == m.At(x).hasBottom)
    ensures Mirrored(r)
  {
    forall x | r.InBounds(x) && r.InBounds(x.Right())
      ensures r.At(x).hasRight && r.At(x.Right()).hasLeft
    {
      assert m.At(x) == Walled && m.At(x.Right()) == Walled;
    }
    forall x | r.InBounds(x) && r.InBounds(x.Down())
      ensures r.At(x).hasBottom && r.At(x.Down()).hasTop
    {
      assert x != m.Goal() && x.Down() != Origin;
      assert m.At(x) == Walled && m.At(x.Down()) == Walled;
    }
  }

  /**
    Model of the constructor (maze.py:8-33) without its drawing calls and
    pixel layout: build, open entrance and exit, carve from `(0, 0)`, reset.
    The dimensions come columns first, `cols` for `num_cols` and `rows` for
    `num_rows`, whereas the constructor takes `num_rows` before `num_cols`.
   */
  function NewMaze(cols: int, rows: int, o: Oracle): (r: Result<Maze, Error>)
    requires InRange(o)
    ensures r.Failure? <==> cols < 1 || rows < 1
    ensures r.Success? ==> Built(r.value, cols, rows)
  {
    var m0 := Fresh(cols, rows);
    if !m0.Valid() then Failure(InvalidDimensions)
    else
      var m1 := BreakEntranceAndExit(m0);
      CarveBuilds(m0, o);
      Success(ResetVisited(BreakWalls(m1, Origin, o, 0).maze))
  }

  /** What the constructor promises of the maze it builds: the requested
      size, entrance and exit open, walls in matched pairs, nothing visited. */
  ghost predicate Built(m: Maze, cols: int, rows: int) {
    && m.Valid() && m.cols == cols && m.rows == rows
    && !m.At(Origin).hasTop
    && !m.At(m.Goal()).hasBottom
    && Mirrored(m)
    && forall p :: m.InBounds(p) ==> !m.At(p).visited
  }

  /** The steps of the constructor after the walled grid is built. */
  lemma CarveBuilds(m0: Maze, o: Oracle)
    requires m0.Valid() && InRange(o) && forall p :: m0.InBounds(p) ==> m0.At(p) == Walled
    ensures var m1 := BreakEntranceAndExit(m0);
      && m1.InBounds(Origin) && !m1.At(Origin).visited
      && Built(ResetVisited(BreakWalls(m1, Origin, o, 0).maze), m0.cols, m0.rows)
  {
    var m1 := BreakEntranceAndExit(m0);
    DoorsMirrored(m0, m1);
    CarveBuildsFrom(m1, o);
  }

  lemma CarveBuildsFrom(m1: Maze, o: Oracle)
    requires m1.Valid() && InRange(o) && Mirrored(m1) && !m1.At(Origin).visited
    requires !m1.At(Origin).hasTop && !m1.At(m1.Goal()).hasBottom
    ensures Built(ResetVisited(BreakWalls(m1, Origin, o, 0).maze), m1.cols, m1.rows)
  {
    var c := BreakWalls(m1, Origin, o, 0).maze;
    ResetKeepsDoors(m1, c, ResetVisited(c));
  }

  /** Clearing `visited` after carving keeps the doors open and the walls mirrored. */
  lemma ResetKeepsDoors(m1: Maze, c: Maze, m2: Maze)
    requires Opens(m1, c) && Mirrored(c) && SameWalls(c, m2)
    requires !m1.At(Origin).hasTop && !m1.At(m1.Goal()).hasBottom
    requires forall p :: m2.InBounds(p) ==> !m2.At(p).visited
    ensures Built(m2, m1.cols, m1.rows)
  {
    SameWallsMirrored(c, m2);
    assert Walls(m2.At(Origin)) == Walls(c.At(Origin));
    assert Walls(m2.At(m1.Goal())) == Walls(c.At(m1.Goal()));
    assert OnlyRemoves(m1.At(Origin), c.At(Origin));
    assert OnlyRemoves(m1.At(m1.Goal()), c.At(m1.Goal()));
  }

  /**
    Every maze the constructor returns is perfect: `cols * rows - 1` open
    interior wall pairs and every cell reachable from `(0, 0)`, hence in
    particular the exit.
   */
  lemma NewMazeIsPerfect(cols: int, rows: int, o: Oracle)
    requires InRange(o) && 1 <= cols && 1 <= rows
    ensures NewMaze(cols, rows, o).Success?
    ensures var m := NewMaze(cols, rows, o).value;
      && |OpenEdges(m)| == cols * rows - 1
      && forall x :: m.InBounds(x) ==> Reachable(m, Origin, x)
  {
    var m1 := BreakEntranceAndExit(Fresh(cols, rows));
    var c := BreakWalls(m1, Origin, o, 0).maze;
    var m := ResetVisited(c);
    assert NewMaze(cols, rows, o) == Success(m);
    CarveSpansGrid(cols, rows, o);
    OpenEdgesSameWalls(c, m);
    AllReachableSameWalls(c, m);
  }

  /** Reachability of every cell from the origin depends on walls only. */
  lemma AllReachableSameWalls(c: Maze, m: Maze)
    requires SameWalls(c, m) && forall x :: c.InBounds(x) ==> Reachable(c, Origin, x)
    ensures forall x :: m.InBounds(x) ==> Reachable(m, Origin, x)
  {
    forall x | m.InBounds(x) ensures Reachable(m, Origin, x) {
      ReachableSameWalls(c, m, Origin, x);
    }
  }
}
