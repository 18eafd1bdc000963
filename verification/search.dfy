/**
  The two uninformed solvers, `_solve_dfs` (maze.py:122-143) and
  `_solve_bfs` (maze.py:145-167). Both start from `(0, 0)`, record for each
  newly met cell the cell it was met from, stop when the exit is taken
  off the frontier, and differ only in which end of the frontier they take
  from: DFS pops the most recently added cell, BFS the oldest.
 */
module Search {
  import opened Results
  import opened Grid
  import opened Paths
  import opened ParentMaps

  /** `a` is `b` with some elements left out and the rest kept in order. */
  predicate Subsequence(a: seq<Pos>, b: seq<Pos>)
    decreases |b|
  {
    if a == [] then true
    else if b == [] then false
    else if a[0] == b[0] then Subsequence(a[1..], b[1..])
    else Subsequence(a, b[1..])
  }

  /** Every element of a subsequence occurs in the whole. */
  lemma {:induction false} SubsequenceMembers(a: seq<Pos>, b: seq<Pos>)
    requires Subsequence(a, b)
    ensures forall x :: x in a ==> x in b
    decreases |b|
  {
    if a != [] {
      if a[0] == b[0] {
        SubsequenceMembers(a[1..], b[1..]);
        assert a == [a[0]] + a[1..];
      } else {
        SubsequenceMembers(a, b[1..]);
      }
    }
  }

  /** Appending the same element to both keeps a subsequence. */
  lemma {:induction false} SubsequenceSnoc(a: seq<Pos>, b: seq<Pos>, x: Pos)
    requires Subsequence(a, b)
    ensures Subsequence(a + [x], b + [x])
    decreases |b|
  {
    if b != [] {
      assert (b + [x])[0] == b[0] && (b + [x])[1..] == b[1..] + [x];
      if a == [] {
        if x != b[0] {
          SubsequenceSnoc([], b[1..], x);
        }
      } else if a[0] == b[0] {
        assert (a + [x])[0] == a[0] && (a + [x])[1..] == a[1..] + [x];
        SubsequenceSnoc(a[1..], b[1..], x);
      } else {
        assert (a + [x])[0] == a[0];
        SubsequenceSnoc(a, b[1..], x);
      }
    }
  }

  /** Appending to the whole keeps a subsequence. */
  lemma {:induction false} SubsequenceExtend(a: seq<Pos>, b: seq<Pos>, y: Pos)
    requires Subsequence(a, b)
    ensures Subsequence(a, b + [y])
    decreases |b|
  {
    if a != [] {
      assert (b + [y])[0] == b[0] && (b + [y])[1..] == b[1..] + [y];
      if a[0] == b[0] {
        SubsequenceExtend(a[1..], b[1..], y);
      } else {
        SubsequenceExtend(a, b[1..], y);
      }
    }
  }

  /** Leaving out elements keeps a list in left, right, up, down order. */
  lemma {:induction false} SubsequenceOrdered(p: Pos, a: seq<Pos>, b: seq<Pos>)
    requires Subsequence(a, b) && Ordered(p, b)
    ensures Ordered(p, a)
    decreases |b|
  {
    if a != [] {
      assert Ordered(p, b[1..]) by {
        forall i, j | 0 <= i < j < |b| - 1 ensures Rank(p, b[1..][i]) < Rank(p, b[1..][j]) {
          assert b[1..][i] == b[i + 1] && b[1..][j] == b[j + 1];
        }
      }
      if a[0] == b[0] {
        SubsequenceOrdered(p, a[1..], b[1..]);
        SubsequenceMembers(a[1..], b[1..]);
        forall i, j | 0 <= i < j < |a| ensures Rank(p, a[i]) < Rank(p, a[j]) {
          assert a[j] == a[1..][j - 1];
          if i == 0 {
            assert a[1..][j - 1] in a[1..];
            var k :| 0 <= k < |b| - 1 && b[1..][k] == a[j];
            assert a[j] == b[k + 1];
          } else {
            assert a[i] == a[1..][i - 1];
          }
        }
      } else {
        SubsequenceOrdered(p, a, b[1..]);
      }
    }
  }

  /**
    The inner `for` loop of both solvers: every cell of `ns` not yet in
    `came_from` is recorded with parent `from` and queued, in the order of
    `ns`; a cell already recorded keeps its first parent.
   */
  function Discover(cf: ParentMap, from: Pos, ns: seq<Pos>): (r: (ParentMap, seq<Pos>))
    ensures r.0.Keys == cf.Keys + (set y | y in r.1)
    ensures forall x :: x in cf ==> r.0[x] == cf[x]
    ensures forall x :: x in r.0 && x !in cf ==> r.0[x] == Some(from)
    ensures forall y :: y in r.1 <==> y in ns && y !in cf
    ensures forall i, j :: 0 <= i < j < |r.1| ==> r.1[i] != r.1[j]
    ensures Subsequence(r.1, ns)
    decreases |ns|
  {
    if ns == [] then (cf, [])
    else if ns[0] in cf then Discover(cf, from, ns[1..])
    else
      var r := Discover(cf[ns[0] := Some(from)], from, ns[1..]);
      (r.0, [ns[0]] + r.1)
  }

  /**
    Expanding a cell queues its unrecorded open neighbours in the order
    `_get_neighbors` lists them: left, right, up, down.
   */
  lemma DiscoverOrdered(m: Maze, cf: ParentMap, from: Pos)
    requires m.Valid() && m.InBounds(from)
    ensures Ordered(from, Discover(cf, from, Neighbors(m, from)).1)
  {
    SubsequenceOrdered(from, Discover(cf, from, Neighbors(m, from)).1, Neighbors(m, from));
  }

  /** Every open neighbour of `x` has been recorded. */
  ghost predicate Expanded(m: Maze, cf: ParentMap, x: Pos)
    requires m.Valid() && m.InBounds(x)
  {
    forall y :: y in Neighbors(m, x) ==> y in cf
  }

  /**
    What both solvers keep true of `came_from` and their frontier: it is a
    tree over open passages whose parents sit one level shallower, every
    recorded cell is reachable, the frontier holds only recorded cells, and
    every recorded cell off the frontier has been expanded.
   */
  ghost predicate Frontier(m: Maze, cf: ParentMap, depth: map<Pos, nat>, frontier: seq<Pos>)
    requires m.Valid()
  {
    && Linked(m, cf) && Ranked(cf, depth)
    && (forall x :: x in cf ==> Reachable(m, Origin, x))
    && (forall i :: 0 <= i < |frontier| ==> frontier[i] in cf)
    && (forall x :: x in cf && x !in frontier ==> Expanded(m, cf, x))
  }

  /** The depths after recording the cells new to `cf'` one level below `from`. */
  ghost function Deepen(cf: ParentMap, depth: map<Pos, nat>, from: Pos, cf': ParentMap): map<Pos, nat>
    requires cf.Keys == depth.Keys && from in depth
  {
    map x | x in cf' :: if x in cf then depth[x] else depth[from] + 1
  }

  /** The search starts with `(0, 0)` alone, recorded with no parent. */
  lemma FrontierInit(m: Maze)
    requires m.Valid()
    ensures Frontier(m, map[Origin := None], map[Origin := 0], [Origin])
  {
    ReachableRefl(m, Origin);
  }

  /** Cells recorded by expanding a reachable cell are in the grid and reachable. */
  lemma ExpandReach(m: Maze, cf: ParentMap, current: Pos)
    requires m.Valid() && m.InBounds(current) && Reachable(m, Origin, current)
    requires forall x :: x in cf ==> m.InBounds(x) && Reachable(m, Origin, x)
    ensures var cf' := Discover(cf, current, Neighbors(m, current)).0;
      forall x :: x in cf' ==> m.InBounds(x) && Reachable(m, Origin, x)
  {
    var ns := Neighbors(m, current);
    var cf' := Discover(cf, current, ns).0;
    forall x | x in cf' ensures m.InBounds(x) && Reachable(m, Origin, x) {
      if x !in cf {
        assert x in ns;
        ReachableStep(m, Origin, current, x);
      }
    }
  }

  /** Newly recorded cells hang off `current` by one Step. */
  lemma ExpandLinked(m: Maze, cf: ParentMap, current: Pos)
    requires m.Valid() && Linked(m, cf) && current in cf
    ensures Linked(m, Discover(cf, current, Neighbors(m, current)).0)
  {
    var ns := Neighbors(m, current);
    var cf' := Discover(cf, current, ns).0;
    assert m.InBounds(current);
    forall x | x in cf' && x != Origin
      ensures cf'[x].Some? && cf'[x].value in cf' && Step(m, cf'[x].value, x)
    {
      if x in cf {
        assert Step(m, cf[x].value, x);
      } else {
        assert x in ns;
      }
    }
    forall x | x in cf' ensures m.InBounds(x) {
      if x !in cf {
        assert x in ns;
      }
    }
  }

  /** Newly recorded cells sit one level below their parent. */
  lemma ExpandRanked(cf: ParentMap, depth: map<Pos, nat>, current: Pos, ns: seq<Pos>)
    requires Ranked(cf, depth) && current in cf
    ensures var cf' := Discover(cf, current, ns).0;
      Ranked(cf', Deepen(cf, depth, current, cf'))
  {
  }

  /** Every cell off the new frontier is expanded. */
  lemma ExpandClosed(m: Maze, cf: ParentMap, frontier: seq<Pos>, rest: seq<Pos>, current: Pos)
    requires m.Valid() && current in cf && m.InBounds(current)
    requires forall x :: x in cf ==> m.InBounds(x)
    requires forall x :: x in cf && x !in frontier ==> Expanded(m, cf, x)
    requires forall x :: x in frontier ==> x in rest || x == current
    ensures var d := Discover(cf, current, Neighbors(m, current));
      forall x :: x in d.0 && x !in rest + d.1 ==> Expanded(m, d.0, x)
  {
    var d := Discover(cf, current, Neighbors(m, current));
    forall x | x in d.0 && x !in rest + d.1 ensures Expanded(m, d.0, x) {
      assert x in cf;
      if x != current {
        assert x !in frontier;
        assert Expanded(m, cf, x);
      }
    }
  }

  /**
    Expanding `current`, taken off the frontier, keeps the invariant for the
    remaining frontier plus the newly queued cells.
   */
  lemma Expand(m: Maze, cf: ParentMap, depth: map<Pos, nat>, frontier: seq<Pos>, rest: seq<Pos>, current: Pos)
    requires m.Valid() && Frontier(m, cf, depth, frontier)
    requires current in frontier
    requires forall x :: x in frontier ==> x in rest || x == current
    requires forall x :: x in rest ==> x in frontier
    ensures current in cf && m.InBounds(current)
    ensures var d := Discover(cf, current, Neighbors(m, current));
      Frontier(m, d.0, Deepen(cf, depth, current, d.0), rest + d.1)
  {
    assert current in cf;
    var ns := Neighbors(m, current);
    var d := Discover(cf, current, ns);
    ExpandReach(m, cf, current);
    ExpandLinked(m, cf, current);
    ExpandRanked(cf, depth, current, ns);
    ExpandClosed(m, cf, frontier, rest, current);
    ExpandQueued(cf, frontier, rest, current, ns);
    FrontierIntro(m, d.0, Deepen(cf, depth, current, d.0), rest + d.1);
  }

  /**
    Expanding a cell either records a new in-grid cell or leaves
    `came_from` as it was: the measure both loops decrease on.
   */
  lemma ExpandGrows(m: Maze, cf: ParentMap, current: Pos)
    requires m.Valid() && current in cf && m.InBounds(current)
    requires forall x :: x in cf ==> m.InBounds(x)
    ensures var d := Discover(cf, current, Neighbors(m, current));
      && cf.Keys <= d.0.Keys <= CellSet(m.cols, m.rows)
      && (d.1 == [] ==> d.0.Keys == cf.Keys)
      && (d.1 != [] ==> CellSet(m.cols, m.rows) - d.0.Keys < CellSet(m.cols, m.rows) - cf.Keys)
  {
    var ns := Neighbors(m, current);
    var d := Discover(cf, current, ns);
    var all := CellSet(m.cols, m.rows);
    assert cf.Keys <= all && forall y :: y in d.1 ==> y in all && y !in cf.Keys by {
      CellSetMembers(m);
      forall y | y in d.1 ensures y in all {
        assert Passage(m, current, y);
      }
    }
    AddKeys(all, cf.Keys, d.0.Keys, d.1);
  }

  /** Adding the listed new elements to a subset of `all`. */
  lemma AddKeys(all: set<Pos>, before: set<Pos>, after: set<Pos>, added: seq<Pos>)
    requires before <= all && after == before + (set y | y in added)
    requires forall y :: y in added ==> y in all && y !in before
    ensures before <= after <= all
    ensures added == [] ==> after == before
    ensures added != [] ==> all - after < all - before
  {
    if added != [] {
      assert added[0] in (all - before) - (all - after);
    }
  }

  /** The new frontier holds only recorded cells. */
  lemma ExpandQueued(cf: ParentMap, frontier: seq<Pos>, rest: seq<Pos>, current: Pos, ns: seq<Pos>)
    requires forall i :: 0 <= i < |frontier| ==> frontier[i] in cf
    requires forall x :: x in rest ==> x in frontier
    ensures var d := Discover(cf, current, ns);
      forall i :: 0 <= i < |rest + d.1| ==> (rest + d.1)[i] in d.0
  {
    var d := Discover(cf, current, ns);
    forall i | 0 <= i < |rest + d.1| ensures (rest + d.1)[i] in d.0 {
      if i < |rest| {
        assert rest[i] in frontier;
      } else {
        assert d.1[i - |rest|] in d.1;
      }
    }
  }

  lemma FrontierIntro(m: Maze, cf: ParentMap, depth: map<Pos, nat>, frontier: seq<Pos>)
    requires m.Valid() && Linked(m, cf) && Ranked(cf, depth)
    requires forall x :: x in cf ==> m.InBounds(x) && Reachable(m, Origin, x)
    requires forall i :: 0 <= i < |frontier| ==> frontier[i] in cf
    requires forall x :: x in cf && x !in frontier ==> Expanded(m, cf, x)
    ensures Frontier(m, cf, depth, frontier)
  {
  }

  /**
    What a finished search establishes: a stop with the exit recorded, or
    an exhausted frontier, leaves a well-formed tree that records the exit
    exactly when the exit is reachable.
   */
  lemma Conclude(m: Maze, cf: ParentMap, rank: map<Pos, nat>, open: set<Pos>)
    requires m.Valid() && Linked(m, cf) && Ranked(cf, rank)
    requires forall x :: x in cf ==> Reachable(m, Origin, x)
    requires forall x :: x in cf && x !in open ==> Expanded(m, cf, x)
    requires m.Goal() in cf || open == {}
    ensures SearchTree(m, cf)
    ensures m.Goal() in cf <==> Reachable(m, Origin, m.Goal())
  {
    RankedTraces(cf, rank);
    if m.Goal() !in cf {
      assert Closed(m, cf.Keys) by {
        forall x | x in cf.Keys && m.InBounds(x) ensures forall y :: y in Neighbors(m, x) ==> y in cf.Keys {
          assert Expanded(m, cf, x);
        }
      }
      if Reachable(m, Origin, m.Goal()) {
        ClosedContainsReachable(m, cf.Keys, Origin, m.Goal());
      }
    }
  }

  /** The invariant, once the loop stops, gives both solvers' guarantees. */
  lemma FrontierDone(m: Maze, cf: ParentMap, depth: map<Pos, nat>, frontier: seq<Pos>)
    requires m.Valid() && Frontier(m, cf, depth, frontier)
    requires m.Goal() in cf || |frontier| == 0
    ensures SearchTree(m, cf)
    ensures forall x :: x in cf ==> Reachable(m, Origin, x)
    ensures m.Goal() in cf <==> Reachable(m, Origin, m.Goal())
  {
    Conclude(m, cf, depth, set x | x in frontier);
  }

  /** Each recorded cell sits exactly one level below its parent, the start at level 0. */
  ghost predicate Exact(cf: ParentMap, depth: map<Pos, nat>) {
    && cf.Keys == depth.Keys && Origin in depth && depth[Origin] == 0
    && forall x :: x in cf && x != Origin ==>
         cf[x].Some? && cf[x].value in depth && depth[x] == depth[cf[x].value] + 1
  }

  /**
    What the FIFO order of `_solve_bfs` adds to the frontier invariant: the
    queue holds cells in order of depth, at most one level apart; nothing
    recorded lies more than one level below the head; and each neighbour of
    an expanded cell lies at most one level below it.
   */
  ghost predicate Layered(m: Maze, cf: ParentMap, depth: map<Pos, nat>, queue: seq<Pos>)
    requires m.Valid()
  {
    && Exact(cf, depth)
    && (forall i :: 0 <= i < |queue| ==> queue[i] in depth)
    && (forall i, j :: 0 <= i < j < |queue| ==>
          depth[queue[i]] <= depth[queue[j]] <= depth[queue[i]] + 1)
    && (forall x :: x in depth && |queue| > 0 ==> depth[x] <= depth[queue[0]] + 1)
    && (forall x :: x in cf && x !in queue && m.InBounds(x) ==>
          forall y :: y in Neighbors(m, x) ==> y in depth && depth[y] <= depth[x] + 1)
  }

  /** The queue starts with `(0, 0)` alone, at level 0. */
  lemma LayeredInit(m: Maze)
    requires m.Valid()
    ensures Layered(m, map[Origin := None], map[Origin := 0], [Origin])
  {
  }

  /** The levels `Deepen` gives: old cells keep theirs, new ones go one below `from`. */
  lemma DeepenFacts(cf: ParentMap, depth: map<Pos, nat>, from: Pos, cf': ParentMap, depth': map<Pos, nat>)
    requires cf.Keys == depth.Keys && from in depth && cf.Keys <= cf'.Keys
    requires depth' == Deepen(cf, depth, from, cf')
    ensures depth'.Keys == cf'.Keys
    ensures forall x :: x in cf ==> depth'[x] == depth[x]
    ensures forall x :: x in cf' && x !in cf ==> depth'[x] == depth[from] + 1
  {
  }

  /** Recording new cells one level below their parent `from` keeps levels exact. */
  lemma ExactStep(cf: ParentMap, depth: map<Pos, nat>, from: Pos, cf': ParentMap, depth': map<Pos, nat>)
    requires Exact(cf, depth) && from in cf && cf.Keys <= cf'.Keys && depth'.Keys == cf'.Keys
    requires forall x :: x in cf ==> cf'[x] == cf[x] && depth'[x] == depth[x]
    requires forall x :: x in cf' && x !in cf ==> cf'[x] == Some(from) && depth'[x] == depth[from] + 1
    ensures Exact(cf', depth')
  {
    forall x | x in cf' && x != Origin
      ensures cf'[x].Some? && cf'[x].value in depth' && depth'[x] == depth'[cf'[x].value] + 1
    {
      if x in cf {
        assert cf[x].value in cf;
      }
    }
  }

  /** The queue stays sorted by level, at most one level apart, when its head is replaced by cells one level below it. */
  lemma LevelsStep(depth: map<Pos, nat>, queue: seq<Pos>, depth': map<Pos, nat>, added: seq<Pos>)
    requires |queue| > 0 && forall i :: 0 <= i < |queue| ==> queue[i] in depth && queue[i] in depth'
    requires forall i :: 0 <= i < |queue| ==> depth'[queue[i]] == depth[queue[i]]
    requires forall i, j :: 0 <= i < j < |queue| ==> depth[queue[i]] <= depth[queue[j]] <= depth[queue[i]] + 1
    requires forall y :: y in added ==> y in depth' && depth'[y] == depth[queue[0]] + 1
    requires forall x :: x in depth' ==> depth'[x] <= depth[queue[0]] + 1
    ensures var q := queue[1..] + added;
      && (forall i :: 0 <= i < |q| ==> q[i] in depth')
      && (forall i, j :: 0 <= i < j < |q| ==> depth'[q[i]] <= depth'[q[j]] <= depth'[q[i]] + 1)
      && (forall x :: x in depth' && |q| > 0 ==> depth'[x] <= depth'[q[0]] + 1)
  {
    var rest := queue[1..];
    var q := rest + added;
    var level := depth[queue[0]];
    forall i | 0 <= i < |q| ensures q[i] in depth' && level <= depth'[q[i]] <= level + 1 {
      if i < |rest| {
        assert q[i] == queue[i + 1];
      } else {
        assert q[i] == added[i - |rest|];
        assert q[i] in added;
      }
    }
    forall i, j | 0 <= i < j < |q| ensures depth'[q[i]] <= depth'[q[j]] <= depth'[q[i]] + 1 {
      if j < |rest| {
        assert q[i] == queue[i + 1] && q[j] == queue[j + 1];
      } else {
        assert q[j] == added[j - |rest|];
        assert q[j] in added;
        if i >= |rest| {
          assert q[i] == added[i - |rest|];
          assert q[i] in added;
        }
      }
    }
  }

  /**
    Expanding `current` keeps every expanded cell's neighbours at most one
    level below it: its own neighbours were either recorded already, at
    most one level below it, or are recorded now exactly one level below.
   */
  lemma ExpandedLevels(m: Maze, cf: ParentMap, depth: map<Pos, nat>, queue: seq<Pos>,
                       cf': ParentMap, depth': map<Pos, nat>, queue': seq<Pos>)
    requires m.Valid() && |queue| > 0 && m.InBounds(queue[0]) && queue[0] in depth
    requires cf.Keys == depth.Keys && cf'.Keys == depth'.Keys
    requires forall x :: x in cf && x !in queue && m.InBounds(x) ==>
      forall y :: y in Neighbors(m, x) ==> y in depth && depth[y] <= depth[x] + 1
    requires forall x :: x in depth ==> depth[x] <= depth[queue[0]] + 1
    requires forall y :: y in Neighbors(m, queue[0]) ==> y in depth'
    requires forall x :: x in depth ==> x in depth' && depth'[x] == depth[x]
    requires forall x :: x in depth' && x !in depth ==> depth'[x] == depth[queue[0]] + 1
    requires forall x :: x in cf' && x !in queue' ==> x in cf && (x in queue[1..] ==> x in queue')
    ensures forall x :: x in cf' && x !in queue' && m.InBounds(x) ==>
      forall y :: y in Neighbors(m, x) ==> y in depth' && depth'[y] <= depth'[x] + 1
  {
    forall x | x in cf' && x !in queue' && m.InBounds(x)
      ensures forall y :: y in Neighbors(m, x) ==> y in depth' && depth'[y] <= depth'[x] + 1
    {
      assert x in depth && depth'[x] == depth[x];
      if x != queue[0] {
        assert x !in queue by {
          assert queue == [queue[0]] + queue[1..];
        }
        assert forall y :: y in Neighbors(m, x) ==> y in depth && depth[y] <= depth[x] + 1;
      }
    }
  }

  /**
    Taking the head off the queue and expanding it keeps the levels: its
    new neighbours go one level below it, to the back of the queue.
   */
  lemma LayeredStep(m: Maze, cf: ParentMap, depth: map<Pos, nat>, queue: seq<Pos>)
    requires m.Valid() && Layered(m, cf, depth, queue) && |queue| > 0
    requires m.InBounds(queue[0]) && queue[0] in cf
    ensures var current := queue[0];
      var d := Discover(cf, current, Neighbors(m, current));
      Layered(m, d.0, Deepen(cf, depth, current, d.0), queue[1..] + d.1)
  {
    var current := queue[0];
    var d := Discover(cf, current, Neighbors(m, current));
    var depth' := Deepen(cf, depth, current, d.0);
    DeepenFacts(cf, depth, current, d.0, depth');
    ExactStep(cf, depth, current, d.0, depth');
    LevelsStep(depth, queue, depth', d.1);
    ExpandedLevels(m, cf, depth, queue, d.0, depth', queue[1..] + d.1);
    LayeredIntro(m, d.0, depth', queue[1..] + d.1);
  }

  lemma LayeredIntro(m: Maze, cf: ParentMap, depth: map<Pos, nat>, queue: seq<Pos>)
    requires m.Valid() && Exact(cf, depth)
    requires forall i :: 0 <= i < |queue| ==> queue[i] in depth
    requires forall i, j :: 0 <= i < j < |queue| ==>
      depth[queue[i]] <= depth[queue[j]] <= depth[queue[i]] + 1
    requires forall x :: x in depth && |queue| > 0 ==> depth[x] <= depth[queue[0]] + 1
    requires forall x :: x in cf && x !in queue && m.InBounds(x) ==>
      forall y :: y in Neighbors(m, x) ==> y in depth && depth[y] <= depth[x] + 1
    ensures Layered(m, cf, depth, queue)
  {
  }

  /**
    With the levels kept, any open walk from `(0, 0)` either ends at a
    recorded cell no deeper than the walk is long, or is at least as long
    as the level of the queue's head.
   */
  lemma WalkDepth(m: Maze, cf: ParentMap, depth: map<Pos, nat>, queue: seq<Pos>, path: seq<Pos>)
    requires m.Valid() && Frontier(m, cf, depth, queue) && Layered(m, cf, depth, queue)
    requires IsPath(m, path) && path[0] == Origin
    ensures || (|queue| > 0 && depth[queue[0]] <= |path| - 1)
            || (path[|path| - 1] in cf && depth[path[|path| - 1]] <= |path| - 1)
  {
    var k := 0;
    while k < |path| - 1
      invariant 0 <= k <= |path| - 1
      invariant (|queue| > 0 && depth[queue[0]] <= k) || (path[k] in cf && depth[path[k]] <= k)
    {
      assert Step(m, path[k], path[k + 1]);
      if path[k] in cf && depth[path[k]] <= k && path[k] in queue {
        var i :| 0 <= i < |queue| && queue[i] == path[k];
        if i > 0 {
          assert depth[queue[0]] <= depth[queue[i]];
        }
      }
      k := k + 1;
    }
  }

  /** The chain from a recorded cell is exactly as long as its level. */
  lemma {:induction false} TraceDepth(cf: ParentMap, depth: map<Pos, nat>, x: Pos, fuel: nat)
    requires Exact(cf, depth) && x in cf && Trace(cf, x, fuel).Some?
    ensures |Trace(cf, x, fuel).value| == depth[x]
    decreases fuel
  {
    if x != Origin {
      TraceCons(cf, x, fuel, Trace(cf, x, fuel).value);
      TraceDepth(cf, depth, cf[x].value, fuel - 1);
    }
  }

  /**
    When breadth-first search stops with the exit recorded, the chain
    `_draw_path` follows from the exit is no longer than any open walk
    from `(0, 0)` to the exit: breadth-first search finds a shortest path.
   */
  lemma BfsShortest(m: Maze, cf: ParentMap, depth: map<Pos, nat>, queue: seq<Pos>)
    requires m.Valid() && Frontier(m, cf, depth, queue) && Layered(m, cf, depth, queue)
    requires SearchTree(m, cf) && m.Goal() in cf
    requires |queue| == 0 || queue[0] == m.Goal()
    ensures NoShorterWalk(m, Origin, m.Goal(), |PathCells(cf, m.Goal())|)
  {
    TraceDepth(cf, depth, m.Goal(), |cf|);
    forall path | IsPath(m, path) && path[0] == Origin && path[|path| - 1] == m.Goal()
      ensures |PathCells(cf, m.Goal())| <= |path| - 1
    {
      WalkDepth(m, cf, depth, queue, path);
    }
  }

  /** Taking the last element off a stack. */
  lemma PopLast(s: seq<Pos>)
    requires |s| > 0
    ensures s[|s| - 1] in s
    ensures forall x :: x in s ==> x in s[..|s| - 1] || x == s[|s| - 1]
    ensures forall x :: x in s[..|s| - 1] ==> x in s
  {
    assert s == s[..|s| - 1] + [s[|s| - 1]];
  }

  /** Taking the first element off a queue. */
  lemma PopFirst(s: seq<Pos>)
    requires |s| > 0
    ensures s[0] in s
    ensures forall x :: x in s ==> x in s[1..] || x == s[0]
    ensures forall x :: x in s[1..] ==> x in s
  {
    assert s == [s[0]] + s[1..];
  }

  /**
    Model of `_solve_dfs(0, 0, color)` (maze.py:122-143) up to the drawing:
    returns `came_from` as the loop leaves it. The exit is recorded exactly
    when it is reachable from `(0, 0)`, and the map is a tree of open
    passages rooted at `(0, 0)`.
   */
  method SearchDfs(m: Maze) returns (cf: ParentMap)
    requires m.Valid()
    ensures SearchTree(m, cf)
    ensures forall x :: x in cf ==> Reachable(m, Origin, x)
    ensures m.Goal() in cf <==> Reachable(m, Origin, m.Goal())
  {
    var stack := [Origin];
    cf := map[Origin := None];
    ghost var depth: map<Pos, nat> := map[Origin := 0];
    FrontierInit(m);
    while |stack| > 0
      invariant Frontier(m, cf, depth, stack)
      decreases CellSet(m.cols, m.rows) - cf.Keys, |stack|
    {
      var current := stack[|stack| - 1];
      if current == m.Goal() {
        break;
      }
      var rest := stack[..|stack| - 1];
      PopLast(stack);
      Expand(m, cf, depth, stack, rest, current);
      ExpandGrows(m, cf, current);
      var d := Discover(cf, current, Neighbors(m, current));
      depth := Deepen(cf, depth, current, d.0);
      cf := d.0;
      stack := rest + d.1;
    }
    FrontierDone(m, cf, depth, stack);
  }

  /**
    Model of `_solve_bfs(0, 0, color)` (maze.py:145-167) up to the drawing,
    with the FIFO `Queue` as a sequence taken from the front. Same
    guarantees as the depth-first search, and moreover the chain from the
    exit is a shortest path: no open walk reaches the exit in fewer moves.
   */
  method SearchBfs(m: Maze) returns (cf: ParentMap)
    requires m.Valid()
    ensures SearchTree(m, cf)
    ensures forall x :: x in cf ==> Reachable(m, Origin, x)
    ensures m.Goal() in cf <==> Reachable(m, Origin, m.Goal())
    ensures m.Goal() in cf ==> NoShorterWalk(m, Origin, m.Goal(), |PathCells(cf, m.Goal())|)
  {
    var queue := [Origin];
    cf := map[Origin := None];
    ghost var depth: map<Pos, nat> := map[Origin := 0];
    FrontierInit(m);
    LayeredInit(m);
    while |queue| > 0
      invariant Frontier(m, cf, depth, queue)
      invariant Layered(m, cf, depth, queue)
      decreases CellSet(m.cols, m.rows) - cf.Keys, |queue|
    {
      var current := queue[0];
      if current == m.Goal() {
        break;
      }
      var rest := queue[1..];
      PopFirst(queue);
      Expand(m, cf, depth, queue, rest, current);
      ExpandGrows(m, cf, current);
      LayeredStep(m, cf, depth, queue);
      var d := Discover(cf, current, Neighbors(m, current));
      depth := Deepen(cf, depth, current, d.0);
      cf := d.0;
      queue := rest + d.1;
    }
    FrontierDone(m, cf, depth, queue);
    if m.Goal() in cf {
      BfsShortest(m, cf, depth, queue);
    }
  }
}
