/**
  The `came_from` maps the four solvers build, and `_draw_path`
  (maze.py:245-253), which follows them from the exit back to `(0, 0)`.
 */
module ParentMaps {
  import opened Results
  import opened Grid
  import opened Paths

  /** `came_from`: each reached cell to the cell it was reached from; the
      start maps to `None`. */
  type ParentMap = map<Pos, Option<Pos>>

  /**
    The parent chain from `x`: `x` itself, its parent, and so on, up to but
    not including the origin — provided the origin is met within `fuel`
    steps without running off the map.
   */
  function Trace(cf: ParentMap, x: Pos, fuel: nat): (t: Option<seq<Pos>>)
    ensures t.Some? ==> forall i :: 0 <= i < |t.value| ==> t.value[i] in cf && t.value[i] != Origin
    decreases fuel
  {
    if x == Origin then Some([])
    else if fuel == 0 || x !in cf || cf[x].None? then None
    else match Trace(cf, cf[x].value, fuel - 1)
      case None => None
      case Some(rest) => Some([x] + rest)
  }

  /** Following parents from `x` ends at the origin. */
  predicate Traces(cf: ParentMap, x: Pos) {
    Trace(cf, x, |cf|).Some?
  }

  /** The cells `_draw_path` marks: the chain from the goal, origin excluded. */
  function PathCells(cf: ParentMap, goal: Pos): seq<Pos>
    requires Traces(cf, goal)
  {
    Trace(cf, goal, |cf|).value
  }

  /** More fuel never changes a chain that already reached the origin. */
  lemma {:induction false} TraceFuel(cf: ParentMap, x: Pos, fuel: nat, more: nat)
    requires Trace(cf, x, fuel).Some? && fuel <= more
    ensures Trace(cf, x, more) == Trace(cf, x, fuel)
    decreases fuel
  {
    if x != Origin {
      TraceFuel(cf, cf[x].value, fuel - 1, more - 1);
    }
  }

  /** One link of a chain that reaches the origin. */
  lemma TraceCons(cf: ParentMap, x: Pos, fuel: nat, chain: seq<Pos>)
    requires Trace(cf, x, fuel) == Some(chain) && x != Origin
    ensures fuel > 0 && x in cf && cf[x].Some?
    ensures |chain| > 0 && chain[0] == x
    ensures Trace(cf, cf[x].value, fuel - 1) == Some(chain[1..])
  {
  }

  /** A rooted parent map whose parents have strictly smaller rank. */
  ghost predicate Ranked(cf: ParentMap, rank: map<Pos, nat>) {
    && cf.Keys == rank.Keys
    && Origin in cf && cf[Origin] == None
    && forall x :: x in cf && x != Origin ==>
         cf[x].Some? && cf[x].value in cf && rank[cf[x].value] < rank[x]
  }

  /** The keys ranked strictly below `x`. */
  ghost function Below(rank: map<Pos, nat>, x: Pos): set<Pos>
    requires x in rank
  {
    set y | y in rank && rank[y] < rank[x]
  }

  lemma SubsetSize<T>(a: set<T>, b: set<T>)
    requires a <= b
    ensures |a| <= |b|
  {
    assert b == a + (b - a);
  }

  lemma {:induction false} TraceRanked(cf: ParentMap, rank: map<Pos, nat>, x: Pos, fuel: nat)
    requires Ranked(cf, rank) && x in cf && |Below(rank, x)| < fuel
    ensures Trace(cf, x, fuel).Some?
    decreases rank[x]
  {
    if x != Origin {
      var p := cf[x].value;
      SubsetSize(Below(rank, p), Below(rank, x) - {p});
      TraceRanked(cf, rank, p, fuel - 1);
    }
  }

  /** A ranked map is well formed: every parent chain ends at the origin. */
  lemma RankedTraces(cf: ParentMap, rank: map<Pos, nat>)
    requires Ranked(cf, rank)
    ensures forall x :: x in cf ==> Traces(cf, x)
  {
    forall x | x in cf ensures Traces(cf, x) {
      SubsetSize(Below(rank, x), cf.Keys - {x});
      TraceRanked(cf, rank, x, |cf|);
    }
  }

  /**
    A search tree over the open passages of `m`: rooted at the origin, every
    key in the grid, every parent a key from which the child is an open
    neighbour, and every parent chain ends at the origin.
   */
  ghost predicate SearchTree(m: Maze, cf: ParentMap)
    requires m.Valid()
  {
    && Linked(m, cf) && cf[Origin] == None
    && (forall x :: x in cf ==> Traces(cf, x))
  }

  /** Every non-root key hangs off an in-grid key by one Step. */
  ghost predicate Linked(m: Maze, cf: ParentMap)
    requires m.Valid()
  {
    && Origin in cf
    && (forall x :: x in cf ==> m.InBounds(x))
    && (forall x :: x in cf && x != Origin ==>
          cf[x].Some? && cf[x].value in cf && Step(m, cf[x].value, x))
  }

  /** Each cell of a chain has the next one, or finally the origin, as its parent. */
  lemma {:induction false} TraceParents(cf: ParentMap, x: Pos, fuel: nat)
    requires Trace(cf, x, fuel).Some?
    ensures var full := Trace(cf, x, fuel).value + [Origin];
      forall i :: 0 <= i < |full| - 1 ==> full[i] in cf && cf[full[i]] == Some(full[i + 1])
    decreases fuel
  {
    if x != Origin {
      var chain := Trace(cf, x, fuel).value;
      TraceCons(cf, x, fuel, chain);
      TraceParents(cf, cf[x].value, fuel - 1);
      var full := chain + [Origin];
      var tail := chain[1..] + [Origin];
      assert full == [x] + tail;
      forall i | 0 <= i < |full| - 1 ensures full[i] in cf && cf[full[i]] == Some(full[i + 1]) {
        if i > 0 {
          assert full[i] == tail[i - 1] && full[i + 1] == tail[i];
        }
      }
    }
  }

  /**
    A chain of a linked map is a walk through open passages taken
    backwards: each cell on it is entered from the next, the last one from
    the origin.
   */
  lemma TraceSteps(m: Maze, cf: ParentMap, x: Pos, fuel: nat)
    requires m.Valid() && Linked(m, cf) && Trace(cf, x, fuel).Some?
    ensures var full := Trace(cf, x, fuel).value + [Origin];
      forall i :: 0 <= i < |full| - 1 ==> Step(m, full[i + 1], full[i])
  {
    var chain := Trace(cf, x, fuel).value;
    var full := chain + [Origin];
    TraceParents(cf, x, fuel);
    forall i | 0 <= i < |full| - 1 ensures Step(m, full[i + 1], full[i]) {
      assert full[i] == chain[i] && chain[i] != Origin;
      assert cf[full[i]] == Some(full[i + 1]);
    }
  }

  /** `m` with the cells of `s` marked visited, in order. */
  function MarkAll(m: Maze, s: seq<Pos>): (r: Maze)
    requires m.Valid() && forall i :: 0 <= i < |s| ==> m.InBounds(s[i])
    ensures r.Valid() && r.cols == m.cols && r.rows == m.rows
  {
    if s == [] then m
    else
      var r := MarkAll(m, s[..|s| - 1]);
      assert m.InBounds(s[|s| - 1]);
      r.Mark(s[|s| - 1])
  }

  lemma MarkAllSnoc(m: Maze, s: seq<Pos>, p: Pos)
    requires m.Valid() && m.InBounds(p) && forall i :: 0 <= i < |s| ==> m.InBounds(s[i])
    ensures forall i :: 0 <= i < |s + [p]| ==> m.InBounds((s + [p])[i])
    ensures MarkAll(m, s + [p]) == MarkAll(m, s).Mark(p)
  {
    assert (s + [p])[..|s|] == s;
  }

  /** Marking only sets `visited`, and sets it exactly on the listed cells. */
  lemma {:induction false} MarkAllFacts(m: Maze, s: seq<Pos>)
    requires m.Valid() && forall i :: 0 <= i < |s| ==> m.InBounds(s[i])
    ensures SameWalls(m, MarkAll(m, s))
    ensures forall x :: m.InBounds(x) ==> (MarkAll(m, s).At(x).visited <==> m.At(x).visited || x in s)
  {
    if s != [] {
      var front := s[..|s| - 1];
      var last := s[|s| - 1];
      assert s == front + [last];
      MarkAllFacts(m, front);
      var r := MarkAll(m, front);
      MarkFacts(r, last);
      SameWallsTrans(m, r, r.Mark(last));
      forall x | m.InBounds(x)
        ensures MarkAll(m, s).At(x).visited <==> m.At(x).visited || x in s
      {
        assert x in s <==> x in front || x == last;
      }
    }
  }

  /** One step along a chain: the rest of the chain starts at the parent. */
  lemma TraceNext(cf: ParentMap, whole: seq<Pos>, done: seq<Pos>, chain: seq<Pos>, current: Pos, fuel: nat,
                  done': seq<Pos>, chain': seq<Pos>, current': Pos, fuel': nat)
    requires Trace(cf, current, fuel) == Some(chain) && current != Origin && done + chain == whole
    requires current in cf && cf[current].Some? && fuel > 0
    requires done' == done + [current] && chain' == chain[1..] && current' == cf[current].value && fuel' == fuel - 1
    ensures Trace(cf, current', fuel') == Some(chain')
    ensures done' + chain' == whole
  {
    TraceCons(cf, current, fuel, chain);
    assert done' + chain' == done + chain;
  }

  /** Marking one more cell extends the marked prefix. */
  lemma MarkNext(m: Maze, done: seq<Pos>, current: Pos, r': Maze, done': seq<Pos>)
    requires m.Valid() && m.InBounds(current)
    requires forall i :: 0 <= i < |done| ==> m.InBounds(done[i])
    requires r' == MarkAll(m, done).Mark(current) && done' == done + [current]
    ensures forall i :: 0 <= i < |done'| ==> m.InBounds(done'[i])
    ensures r' == MarkAll(m, done')
  {
    MarkAllSnoc(m, done, current);
  }

  /**
    Model of `_draw_path` (maze.py:245-253), without the `draw_move`
    rendering call: walk the parent chain from the goal back to, but not
    including, `(0, 0)` and mark each cell on it visited.
   */
  method DrawPath(m: Maze, cf: ParentMap) returns (r: Maze)
    requires m.Valid() && Traces(cf, m.Goal())
    requires forall x :: x in cf ==> m.InBounds(x)
    ensures SameWalls(m, r)
    ensures forall x :: m.InBounds(x) ==>
      (r.At(x).visited <==> m.At(x).visited || x in PathCells(cf, m.Goal()))
  {
    ghost var whole := PathCells(cf, m.Goal());
    ghost var fuel: nat := |cf|;
    ghost var done: seq<Pos> := [];
    ghost var chain := whole;
    var current := m.Goal();
    r := m;
    while current != Origin
      invariant forall i :: 0 <= i < |done| ==> m.InBounds(done[i])
      invariant r == MarkAll(m, done)
      invariant Trace(cf, current, fuel) == Some(chain)
      invariant done + chain == whole
      decreases fuel
    {
      TraceCons(cf, current, fuel, chain);
      ghost var done0, chain0, current0, fuel0 := done, chain, current, fuel;
      r := r.Mark(current);
      done := done + [current];
      chain := chain[1..];
      current := cf[current].value;
      fuel := fuel - 1;
      TraceNext(cf, whole, done0, chain0, current0, fuel0, done, chain, current, fuel);
      MarkNext(m, done0, current0, r, done);
    }
    assert done == whole;
    MarkAllFacts(m, whole);
  }
}
