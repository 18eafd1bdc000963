/**
  `solve` (maze.py:255-271) and the ending the four solvers share
  (maze.py:139-143 and the same lines in each): report whether the exit was
  recorded and, if so, draw the path back to the start.
 */
module Solver {
  import opened Grid
  import opened Paths
  import opened ParentMaps
  import opened Search
  import opened BestFirst
  import opened Generator

  /** The four solvers, in the order `solve` runs them. */
  datatype Algorithm = DepthFirst | BreadthFirst | BestFirstBy(st: Strategy)

  const Algorithms: seq<Algorithm> := [DepthFirst, BreadthFirst, BestFirstBy(Dijkstra), BestFirstBy(AStar)]

  /** The name each solver is reported under. */
  function Name(a: Algorithm): string {
    match a
    case DepthFirst => "DFS"
    case BreadthFirst => "BFS"
    case BestFirstBy(Dijkstra) => "Dijkstra"
    case BestFirstBy(AStar) => "A*"
  }

  /** One entry of the list `solve` returns, without the elapsed time. */
  datatype Report = Report(name: string, solved: bool)

  /**
    The common ending of every solver: `False` when the exit was never
    recorded, otherwise the parent chain from the exit is drawn and the
    answer is `True`. The drawn cells are exactly the chain, the chain
    starts at the exit, and read backwards it is a walk from the start
    through open passages.
   */
  method Finish(m: Maze, cf: ParentMap) returns (solved: bool, r: Maze)
    requires m.Valid() && SearchTree(m, cf)
    ensures solved <==> m.Goal() in cf
    ensures SameWalls(m, r)
    ensures !solved ==> r == m
    ensures solved ==> forall x :: m.InBounds(x) ==>
      (r.At(x).visited <==> m.At(x).visited || x in PathCells(cf, m.Goal()))
    ensures solved && m.Goal() != Origin ==> PathCells(cf, m.Goal())[0] == m.Goal()
    ensures solved ==> var full := PathCells(cf, m.Goal()) + [Origin];
      forall i :: 0 <= i < |full| - 1 ==> Step(m, full[i + 1], full[i])
  {
    if m.Goal() !in cf {
      assert SameWalls(m, m);
      return false, m;
    }
    r := DrawPath(m, cf);
    solved := true;
    TraceSteps(m, cf, m.Goal(), |cf|);
    if m.Goal() != Origin {
      TraceCons(cf, m.Goal(), |cf|, PathCells(cf, m.Goal()));
    }
  }

  /**
    One solver run from `(0, 0)`, as `solve` calls it: the answer is
    whether the exit is reachable at all, walls are untouched, and every
    cell it newly marks is reachable; on success the exit itself is marked
    unless it is the start.
   */
  method Run(a: Algorithm, m: Maze) returns (solved: bool, r: Maze)
    requires m.Valid()
    ensures solved <==> Reachable(m, Origin, m.Goal())
    ensures SameWalls(m, r)
    ensures forall x :: m.InBounds(x) && r.At(x).visited && !m.At(x).visited ==> Reachable(m, Origin, x)
    ensures solved && m.Goal() != Origin ==> r.At(m.Goal()).visited
  {
    var cf;
    match a {
      case DepthFirst => cf := SearchDfs(m);
      case BreadthFirst => cf := SearchBfs(m);
      case BestFirstBy(st) => cf := SearchBestFirst(st, m);
    }
    solved, r := Finish(m, cf);
    if solved {
      DrawnReachable(m, cf, r);
    }
  }

  /** The drawn cells are recorded ones, so reachable, and the first is the exit. */
  lemma DrawnReachable(m: Maze, cf: ParentMap, r: Maze)
    requires m.Valid() && SameWalls(m, r) && Traces(cf, m.Goal())
    requires forall x :: x in cf ==> Reachable(m, Origin, x)
    requires forall x :: m.InBounds(x) ==>
      (r.At(x).visited <==> m.At(x).visited || x in PathCells(cf, m.Goal()))
    requires m.Goal() != Origin ==> PathCells(cf, m.Goal())[0] == m.Goal()
    ensures forall x :: m.InBounds(x) && r.At(x).visited && !m.At(x).visited ==> Reachable(m, Origin, x)
    ensures m.Goal() != Origin ==> r.At(m.Goal()).visited
  {
    var chain := PathCells(cf, m.Goal());
    forall x | m.InBounds(x) && r.At(x).visited && !m.At(x).visited
      ensures Reachable(m, Origin, x)
    {
      var i :| 0 <= i < |chain| && chain[i] == x;
    }
    if m.Goal() != Origin {
      assert chain[0] in chain;
    }
  }

  /**
    One round of `solve`: clear every `visited` flag of the current maze,
    then run the solver. Measured against the original maze `m`, the
    answer is whether its exit is reachable, the walls are still its
    walls, and every marked cell is reachable in it.
   */
  method RunClean(a: Algorithm, m: Maze, cur: Maze) returns (solved: bool, r: Maze)
    requires m.Valid() && SameWalls(m, cur)
    ensures solved <==> Reachable(m, Origin, m.Goal())
    ensures SameWalls(m, r)
    ensures forall x :: m.InBounds(x) && r.At(x).visited ==> Reachable(m, Origin, x)
  {
    var clean := ResetVisited(cur);
    SameWallsTrans(m, cur, clean);
    solved, r := Run(a, clean);
    SameWallsTrans(m, clean, r);
    ReachableSameWalls(m, clean, Origin, m.Goal());
    forall x | m.InBounds(x) && r.At(x).visited ensures Reachable(m, Origin, x) {
      ReachableSameWalls(m, clean, Origin, x);
    }
  }

  /**
    Model of `solve` (maze.py:255-271) without the timing: each solver, in
    order, runs on the maze with every `visited` flag cleared first. All
    four give the same answer, namely whether the exit is reachable from
    the start; the maze keeps its walls, and what stays marked is the last
    solver's path, all of it reachable.
   */
  method Solve(m: Maze) returns (results: seq<Report>, r: Maze)
    requires m.Valid()
    ensures |results| == |Algorithms|
    ensures forall i :: 0 <= i < |results| ==> results[i].name == Name(Algorithms[i])
    ensures forall i :: 0 <= i < |results| ==> (results[i].solved <==> Reachable(m, Origin, m.Goal()))
    ensures SameWalls(m, r)
    ensures forall x :: m.InBounds(x) && r.At(x).visited ==> Reachable(m, Origin, x)
  {
    results := [];
    r := m;
    assert SameWalls(m, r);
    ghost var answer := Reachable(m, Origin, m.Goal());
    var k := 0;
    while k < |Algorithms|
      invariant 0 <= k <= |Algorithms| && |results| == k
      invariant SameWalls(m, r)
      invariant forall i :: 0 <= i < k ==> results[i] == Report(Name(Algorithms[i]), answer)
      invariant k > 0 ==> forall x :: m.InBounds(x) && r.At(x).visited ==> Reachable(m, Origin, x)
    {
      var solved;
      solved, r := RunClean(Algorithms[k], m, r);
      results := results + [Report(Name(Algorithms[k]), solved)];
      k := k + 1;
    }
  }

  /**
    Every maze the constructor builds has its exit reachable, so `solve`
    reports it solved by all four solvers.
   */
  lemma GeneratedSolvable(cols: int, rows: int, o: Oracle)
    requires InRange(o) && 1 <= cols && 1 <= rows
    ensures NewMaze(cols, rows, o).Success?
    ensures var m := NewMaze(cols, rows, o).value; Reachable(m, Origin, m.Goal())
  {
    NewMazeIsPerfect(cols, rows, o);
  }
}
