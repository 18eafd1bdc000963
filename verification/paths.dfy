/**
  Walks through the open-passage graph that `_get_neighbors` (maze.py:228-240)
  exposes. Every solver explores exactly this graph, and the carver builds it.
 */
module Paths {
  import opened Grid

  /** One move of a solver: from the in-grid `a` to one of its open neighbours. */
  ghost predicate Step(m: Maze, a: Pos, b: Pos)
    requires m.Valid()
  {
    m.InBounds(a) && b in Neighbors(m, a)
  }

  /** A non-empty sequence of in-grid cells, each consecutive pair a Step. */
  ghost predicate IsPath(m: Maze, path: seq<Pos>)
    requires m.Valid()
  {
    && |path| >= 1
    && m.InBounds(path[0])
    && forall i :: 0 <= i < |path| - 1 ==> Step(m, path[i], path[i + 1])
  }

  /** `b` can be reached from `a` through open passages. */
  ghost predicate Reachable(m: Maze, a: Pos, b: Pos)
    requires m.Valid()
  {
    exists path :: IsPath(m, path) && path[0] == a && path[|path| - 1] == b
  }

  lemma PathInBounds(m: Maze, path: seq<Pos>)
    requires m.Valid() && IsPath(m, path)
    ensures forall i :: 0 <= i < |path| ==> m.InBounds(path[i])
  {
    forall i | 0 < i < |path| ensures m.InBounds(path[i]) {
      assert Step(m, path[i - 1], path[i]);
    }
  }

  lemma ReachableRefl(m: Maze, a: Pos)
    requires m.Valid() && m.InBounds(a)
    ensures Reachable(m, a, a)
  {
    assert IsPath(m, [a]);
  }

  /** A path to `b` extends by one Step to `c`. */
  lemma ReachableStep(m: Maze, a: Pos, b: Pos, c: Pos)
    requires m.Valid() && Reachable(m, a, b) && Step(m, b, c)
    ensures Reachable(m, a, c)
  {
    var path :| IsPath(m, path) && path[0] == a && path[|path| - 1] == b;
    var path' := path + [c];
    forall i | 0 <= i < |path'| - 1 ensures Step(m, path'[i], path'[i + 1]) {
      if i < |path| - 1 {
        assert path'[i] == path[i] && path'[i + 1] == path[i + 1];
      }
    }
    assert IsPath(m, path');
  }

  /** Removing walls keeps every walk a walk. */
  lemma ReachableOpens(m: Maze, m': Maze, a: Pos, b: Pos)
    requires Opens(m, m') && Reachable(m, a, b)
    ensures Reachable(m', a, b)
  {
    var path :| IsPath(m, path) && path[0] == a && path[|path| - 1] == b;
    forall i | 0 <= i < |path| - 1 ensures Step(m', path[i], path[i + 1]) {
      assert Step(m, path[i], path[i + 1]);
      PassageOpens(m, m', path[i], path[i + 1]);
    }
    assert IsPath(m', path);
  }

  /** Reachability depends on walls only. */
  lemma ReachableSameWalls(m: Maze, m': Maze, a: Pos, b: Pos)
    requires SameWalls(m, m')
    ensures Reachable(m, a, b) <==> Reachable(m', a, b)
  {
    SameWallsOpens(m, m');
    if Reachable(m, a, b) {
      ReachableOpens(m, m', a, b);
    }
    if Reachable(m', a, b) {
      assert SameWalls(m', m) by {
        forall p | m'.InBounds(p) ensures Walls(m.At(p)) == Walls(m'.At(p)) {
          assert m.InBounds(p);
        }
      }
      ReachableOpens(m', m, a, b);
    }
  }

  /** Every neighbour of a member of `s` is in `s`. */
  ghost predicate Closed(m: Maze, s: set<Pos>)
    requires m.Valid()
  {
    forall x :: x in s && m.InBounds(x) ==> forall y :: y in Neighbors(m, x) ==> y in s
  }

  /**
    A set that contains `a` and is closed under open passages contains
    every cell reachable from `a`: this is how an exhausted search frontier
    proves the goal unreachable.
   */
  lemma ClosedContainsReachable(m: Maze, s: set<Pos>, a: Pos, b: Pos)
    requires m.Valid() && a in s && Closed(m, s) && Reachable(m, a, b)
    ensures b in s
  {
    var path :| IsPath(m, path) && path[0] == a && path[|path| - 1] == b;
    var i := 0;
    while i < |path| - 1
      invariant 0 <= i <= |path| - 1
      invariant path[i] in s
    {
      assert Step(m, path[i], path[i + 1]);
      i := i + 1;
    }
  }

  /** Every walk through open passages from `a` to `b` takes at least `n` moves. */
  ghost predicate NoShorterWalk(m: Maze, a: Pos, b: Pos, n: nat)
    requires m.Valid()
  {
    forall path :: IsPath(m, path) && path[0] == a && path[|path| - 1] == b ==> n <= |path| - 1
  }
}
