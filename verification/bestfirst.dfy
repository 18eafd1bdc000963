/**
  The two priority-queue solvers, `_solve_dijkstra` (maze.py:169-194) and
  `_solve_astar` (maze.py:196-226). They share one loop and differ only in
  the priority an entry is queued with: its cost so far, or that cost plus
  the Manhattan distance to the exit.
 */
module BestFirst {
  import opened Results
  import opened Grid
  import opened Paths
  import opened ParentMaps
  import opened Search

  /** Model of `_heuristic` (maze.py:242-243): Manhattan distance to the exit. */
  function Heuristic(m: Maze, p: Pos): (h: nat)
    ensures h == 0 <==> p == m.Goal()
  {
    Abs(p.col - (m.cols - 1)) + Abs(p.row - (m.rows - 1))
  }

  /** One move changes the heuristic by at most one: it is consistent. */
  lemma HeuristicConsistent(m: Maze, p: Pos, q: Pos)
    requires Adjacent(p, q)
    ensures Heuristic(m, p) <= Heuristic(m, q) + 1
  {
    AdjacentCases(p, q);
  }

  /**
    The heuristic never overestimates: a walk through open passages from
    `path[0]` to the exit has at least `Heuristic(path[0])` moves.
   */
  lemma {:induction false} HeuristicAdmissible(m: Maze, path: seq<Pos>)
    requires m.Valid() && IsPath(m, path) && path[|path| - 1] == m.Goal()
    ensures Heuristic(m, path[0]) <= |path| - 1
    decreases |path|
  {
    if |path| > 1 {
      var tail := path[1..];
      assert IsPath(m, tail) by {
        assert Step(m, path[0], path[1]);
        forall i | 0 <= i < |tail| - 1 ensures Step(m, tail[i], tail[i + 1]) {
          assert Step(m, path[i + 1], path[i + 2]);
        }
      }
      HeuristicAdmissible(m, tail);
      assert Step(m, path[0], path[1]);
      HeuristicConsistent(m, path[0], path[1]);
    }
  }

  /** Which of the two solvers: the only difference is the priority. */
  datatype Strategy = Dijkstra | AStar

  /** The priority a cell reached at `cost` is queued with. */
  function Priority(st: Strategy, m: Maze, p: Pos, cost: nat): nat {
    match st
    case Dijkstra => cost
    case AStar => cost + Heuristic(m, p)
  }

  /**
    Neither priority overestimates: a cell reached at `cost` from which an
    open walk `path` leads to the exit is queued at no less than `cost` and
    no more than the cost of finishing along that walk. At the exit itself
    the priority is the cost.
   */
  lemma PriorityAdmissible(st: Strategy, m: Maze, path: seq<Pos>, cost: nat)
    requires m.Valid() && IsPath(m, path) && path[|path| - 1] == m.Goal()
    ensures cost <= Priority(st, m, path[0], cost) <= cost + |path| - 1
    ensures Priority(st, m, m.Goal(), cost) == cost
  {
    HeuristicAdmissible(m, path);
  }

  /** A `PriorityQueue` item: the tuple `(priority, (i, j))`. */
  datatype Entry = Entry(priority: nat, cell: Pos)

  /**
    Python's ordering of those tuples: by priority, then column, then row.
    `PriorityQueue.get` returns a least item under it.
   */
  predicate EntryLe(a: Entry, b: Entry) {
    || a.priority < b.priority
    || (a.priority == b.priority && a.cell.col < b.cell.col)
    || (a.priority == b.priority && a.cell.col == b.cell.col && a.cell.row <= b.cell.row)
  }

  /** The tuple order is total and antisymmetric, so a least entry is unique. */
  lemma EntryLeTotal(a: Entry, b: Entry)
    ensures EntryLe(a, b) || EntryLe(b, a)
    ensures EntryLe(a, b) && EntryLe(b, a) ==> a == b
  {
  }

  /**
    Whatever heap layout `PriorityQueue` keeps, `get` can only return one
    entry: two entries that are each no greater than every queued entry
    are the same entry.
   */
  lemma PopMinUnique(pq: seq<Entry>, e1: Entry, e2: Entry)
    requires e1 in pq && e2 in pq
    requires forall i :: 0 <= i < |pq| ==> EntryLe(e1, pq[i])
    requires forall i :: 0 <= i < |pq| ==> EntryLe(e2, pq[i])
    ensures e1 == e2
  {
    var i :| 0 <= i < |pq| && pq[i] == e2;
    var j :| 0 <= j < |pq| && pq[j] == e1;
    EntryLeTotal(e1, e2);
  }

  /** The cells that have at least one entry in the queue. */
  function Cells(pq: seq<Entry>): set<Pos> {
    set e | e in pq :: e.cell
  }

  /**
    Model of `PriorityQueue.get`: remove and return a least entry. Every
    other entry stays, and the returned one is no greater than any of them.
   */
  method PopMin(pq: seq<Entry>) returns (e: Entry, rest: seq<Entry>)
    requires |pq| > 0
    ensures multiset(rest) + multiset{e} == multiset(pq) && |rest| == |pq| - 1
    ensures forall i :: 0 <= i < |pq| ==> EntryLe(e, pq[i])
  {
    var k := 0;
    var i := 1;
    while i < |pq|
      invariant 1 <= i <= |pq| && 0 <= k < i
      invariant forall j :: 0 <= j < i ==> EntryLe(pq[k], pq[j])
    {
      if !EntryLe(pq[k], pq[i]) {
        k := i;
      }
      i := i + 1;
    }
    e := pq[k];
    rest := pq[..k] + pq[k + 1..];
    assert pq == pq[..k] + [e] + pq[k + 1..];
  }

  /** The popped entry's cell, and only it, may lose its last entry. */
  lemma PopCells(pq: seq<Entry>, e: Entry, rest: seq<Entry>)
    requires multiset(rest) + multiset{e} == multiset(pq)
    ensures Cells(pq) == Cells(rest) + {e.cell}
  {
    forall x | x in Cells(pq) ensures x in Cells(rest) + {e.cell} {
      var f :| f in pq && f.cell == x;
      assert f in multiset(pq);
      if f != e {
        assert f in multiset(rest);
      }
    }
    forall x | x in Cells(rest) ensures x in Cells(pq) {
      var f :| f in rest && f.cell == x;
      assert f in multiset(rest);
      assert f in multiset(pq);
    }
    assert e in multiset(pq);
  }

  /** Queuing one more entry adds exactly its cell. */
  lemma CellsSnoc(pq: seq<Entry>, e: Entry)
    ensures Cells(pq + [e]) == Cells(pq) + {e.cell}
  {
    assert e in pq + [e];
    forall x | x in Cells(pq) ensures x in Cells(pq + [e]) {
      var f :| f in pq && f.cell == x;
      assert f in pq + [e];
    }
  }

  /** The cells of two queues put together. */
  lemma CellsConcat(a: seq<Entry>, b: seq<Entry>)
    ensures Cells(a + b) == Cells(a) + Cells(b)
  {
    forall x | x in Cells(a + b) ensures x in Cells(a) + Cells(b) {
      var f :| f in a + b && f.cell == x;
    }
    forall x | x in Cells(a) + Cells(b) ensures x in Cells(a + b) {
      if x in Cells(a) {
        var f :| f in a && f.cell == x;
        assert f in a + b;
      } else {
        var f :| f in b && f.cell == x;
        assert f in a + b;
      }
    }
  }

  /** The cells of queued entries, in queue order. */
  function PushedCells(pushed: seq<Entry>): (cs: seq<Pos>)
    ensures |cs| == |pushed| && forall i :: 0 <= i < |pushed| ==> cs[i] == pushed[i].cell
  {
    seq(|pushed|, i requires 0 <= i < |pushed| => pushed[i].cell)
  }

  /** `x` kept its cost and its parent. */
  ghost predicate Kept(cf0: ParentMap, cost0: map<Pos, nat>, cf: ParentMap, cost: map<Pos, nat>, x: Pos)
    requires x in cf && x in cost
  {
    x in cost0 && x in cf0 && cost[x] == cost0[x] && cf[x] == cf0[x]
  }

  /**
    `x`, a neighbour of `current` that was uncosted or dearer than
    `c + 1`, now costs `c + 1`, has parent `current` and a queue entry.
   */
  ghost predicate Lowered(cost0: map<Pos, nat>, c: nat, current: Pos, seen: seq<Pos>,
                          cf: ParentMap, cost: map<Pos, nat>, pushed: seq<Entry>, x: Pos)
    requires x in cf && x in cost
  {
    && x in seen && cost[x] == c + 1 && cf[x] == Some(current)
    && (x !in cost0 || c + 1 < cost0[x])
    && x in Cells(pushed)
  }

  /**
    What one pass of the inner loop did, from `(cf0, cost0)` to
    `(cf, cost)` with `pushed` queued, having visited the neighbours `seen`
    of `current`: every cell either kept its cost and parent or was
    lowered to `cost0[current] + 1` through `current`; every queued entry is
    for a lowered neighbour at that cost's priority, one entry per lowered
    visit in the order of `seen`; and every neighbour seen so far costs at
    most `cost0[current] + 1`.
   */
  ghost predicate Relaxed(st: Strategy, m: Maze, cf0: ParentMap, cost0: map<Pos, nat>, current: Pos,
                          seen: seq<Pos>, cf: ParentMap, cost: map<Pos, nat>, pushed: seq<Entry>)
    requires current in cost0
  {
    && (forall y :: y in cost <==> y in cost0 || y in seen)
    && cf.Keys == cost.Keys
    && (forall y :: y in seen ==> cost[y] <= cost0[current] + 1)
    && Subsequence(PushedCells(pushed), seen)
    && (forall x :: x in cost ==>
          Kept(cf0, cost0, cf, cost, x) || Lowered(cost0, cost0[current], current, seen, cf, cost, pushed, x))
    && (forall i :: 0 <= i < |pushed| ==>
          && pushed[i].cell in cost
          && Lowered(cost0, cost0[current], current, seen, cf, cost, pushed, pushed[i].cell)
          && pushed[i].priority == Priority(st, m, pushed[i].cell, cost0[current] + 1))
  }

  /**
    The inner `for` loop of `_solve_dijkstra` and `_solve_astar`
    (maze.py:184-189 and 212-218) over the neighbours `ns` of `current`:
    a neighbour not yet costed, or reachable more cheaply through
    `current`, gets cost `cost_so_far[current] + 1`, parent `current` and a
    new queue entry; every other cell is left alone. Returns the entries
    put on the queue, in order; the caller appends them.
   */
  method Relax(st: Strategy, m: Maze, cf0: ParentMap, cost0: map<Pos, nat>, current: Pos, ns: seq<Pos>)
    returns (cf: ParentMap, cost: map<Pos, nat>, pushed: seq<Entry>)
    requires current in cost0 && cf0.Keys == cost0.Keys
    ensures Relaxed(st, m, cf0, cost0, current, ns, cf, cost, pushed)
  {
    cf, cost, pushed := cf0, cost0, [];
    ghost var seen: seq<Pos> := [];
    var k := 0;
    while k < |ns|
      invariant 0 <= k <= |ns| && seen == ns[..k]
      invariant Relaxed(st, m, cf0, cost0, current, seen, cf, cost, pushed)
    {
      var next := ns[k];
      assert ns[..k + 1] == seen + [next];
      if next !in cost || cost[current] + 1 < cost[next] {
        RelaxedCurrent(st, m, cf0, cost0, current, seen, cf, cost, pushed);
        var newCost := cost[current] + 1;
        ghost var cf1, cost1, pushed1 := cf, cost, pushed;
        cost := cost[next := newCost];
        pushed := pushed + [Entry(Priority(st, m, next, newCost), next)];
        cf := cf[next := Some(current)];
        RelaxStep(st, m, cf0, cost0, current, seen, cf1, cost1, pushed1, next, seen + [next], cf, cost, pushed);
      } else {
        RelaxedCurrent(st, m, cf0, cost0, current, seen, cf, cost, pushed);
        RelaxSkip(st, m, cf0, cost0, current, seen, cf, cost, pushed, next, seen + [next]);
      }
      seen := seen + [next];
      k := k + 1;
    }
    assert ns[..k] == ns;
  }

  /** Recording `next` at `cost0[current] + 1` keeps the summary. */
  lemma RelaxStep(st: Strategy, m: Maze, cf0: ParentMap, cost0: map<Pos, nat>, current: Pos,
                  seen: seq<Pos>, cf: ParentMap, cost: map<Pos, nat>, pushed: seq<Entry>, next: Pos,
                  seen': seq<Pos>, cf': ParentMap, cost': map<Pos, nat>, pushed': seq<Entry>)
    requires current in cost0 && cf0.Keys == cost0.Keys
    requires Relaxed(st, m, cf0, cost0, current, seen, cf, cost, pushed)
    requires next !in cost || cost0[current] + 1 < cost[next]
    requires seen' == seen + [next] && cf' == cf[next := Some(current)]
    requires cost' == cost[next := cost0[current] + 1]
    requires pushed' == pushed + [Entry(Priority(st, m, next, cost0[current] + 1), next)]
    ensures Relaxed(st, m, cf0, cost0, current, seen', cf', cost', pushed')
  {
    RelaxedCurrent(st, m, cf0, cost0, current, seen, cf, cost, pushed);
    var c := cost0[current];
    var e := Entry(Priority(st, m, next, c + 1), next);
    CellsSnoc(pushed, e);
    PushedSnoc(pushed, seen, e);
    assert next in cost0 ==> c + 1 < cost0[next] by {
      if next in cost0 {
        assert next in cost;
        assert !Lowered(cost0, c, current, seen, cf, cost, pushed, next);
      }
    }
    RelaxStepCells(cf0, cost0, c, current, seen, cf, cost, pushed, next, seen', cf', cost', pushed');
    RelaxStepPushed(st, m, cost0, c, current, seen, cf, cost, pushed, next, seen', cf', cost', pushed');
    RelaxedIntro(st, m, cf0, cost0, current, seen', cf', cost', pushed');
  }

  /** After recording `next`, every cell is still kept or lowered. */
  lemma RelaxStepCells(cf0: ParentMap, cost0: map<Pos, nat>, c: nat, current: Pos,
                       seen: seq<Pos>, cf: ParentMap, cost: map<Pos, nat>, pushed: seq<Entry>, next: Pos,
                       seen': seq<Pos>, cf': ParentMap, cost': map<Pos, nat>, pushed': seq<Entry>)
    requires cf.Keys == cost.Keys && current in cost && cost[current] == c && next != current
    requires forall x :: x in cost ==> Kept(cf0, cost0, cf, cost, x) || Lowered(cost0, c, current, seen, cf, cost, pushed, x)
    requires next in cost0 ==> c + 1 < cost0[next]
    requires seen' == seen + [next] && cf' == cf[next := Some(current)] && cost' == cost[next := c + 1]
    requires Cells(pushed') == Cells(pushed) + {next}
    ensures forall x :: x in cost' ==> Kept(cf0, cost0, cf', cost', x) || Lowered(cost0, c, current, seen', cf', cost', pushed', x)
  {
    forall x | x in cost'
      ensures Kept(cf0, cost0, cf', cost', x) || Lowered(cost0, c, current, seen', cf', cost', pushed', x)
    {
      if x != next && !Kept(cf0, cost0, cf, cost, x) {
        assert Lowered(cost0, c, current, seen, cf, cost, pushed, x);
      }
    }
  }

  /** After queuing `next`, every queued entry is still for a lowered neighbour. */
  lemma RelaxStepPushed(st: Strategy, m: Maze, cost0: map<Pos, nat>, c: nat, current: Pos,
                        seen: seq<Pos>, cf: ParentMap, cost: map<Pos, nat>, pushed: seq<Entry>, next: Pos,
                        seen': seq<Pos>, cf': ParentMap, cost': map<Pos, nat>, pushed': seq<Entry>)
    requires cf.Keys == cost.Keys
    requires forall i :: 0 <= i < |pushed| ==>
      && pushed[i].cell in cost
      && Lowered(cost0, c, current, seen, cf, cost, pushed, pushed[i].cell)
      && pushed[i].priority == Priority(st, m, pushed[i].cell, c + 1)
    requires next in cost0 ==> c + 1 < cost0[next]
    requires seen' == seen + [next] && cf' == cf[next := Some(current)] && cost' == cost[next := c + 1]
    requires pushed' == pushed + [Entry(Priority(st, m, next, c + 1), next)]
    requires Cells(pushed') == Cells(pushed) + {next}
    ensures forall i :: 0 <= i < |pushed'| ==>
      && pushed'[i].cell in cost'
      && Lowered(cost0, c, current, seen', cf', cost', pushed', pushed'[i].cell)
      && pushed'[i].priority == Priority(st, m, pushed'[i].cell, c + 1)
  {
    forall i | 0 <= i < |pushed'|
      ensures pushed'[i].cell in cost' && Lowered(cost0, c, current, seen', cf', cost', pushed', pushed'[i].cell)
    {
      if i < |pushed| {
        assert pushed'[i] == pushed[i];
      }
    }
  }

  lemma RelaxedIntro(st: Strategy, m: Maze, cf0: ParentMap, cost0: map<Pos, nat>, current: Pos,
                     seen: seq<Pos>, cf: ParentMap, cost: map<Pos, nat>, pushed: seq<Entry>)
    requires current in cost0
    requires forall y :: y in cost <==> y in cost0 || y in seen
    requires cf.Keys == cost.Keys
    requires forall y :: y in seen ==> cost[y] <= cost0[current] + 1
    requires Subsequence(PushedCells(pushed), seen)
    requires forall x :: x in cost ==>
      Kept(cf0, cost0, cf, cost, x) || Lowered(cost0, cost0[current], current, seen, cf, cost, pushed, x)
    requires forall i :: 0 <= i < |pushed| ==>
      && pushed[i].cell in cost
      && Lowered(cost0, cost0[current], current, seen, cf, cost, pushed, pushed[i].cell)
      && pushed[i].priority == Priority(st, m, pushed[i].cell, cost0[current] + 1)
    ensures Relaxed(st, m, cf0, cost0, current, seen, cf, cost, pushed)
  {
  }

  /** Queuing an entry for the cell just seen keeps the entries in `seen` order. */
  lemma PushedSnoc(pushed: seq<Entry>, seen: seq<Pos>, e: Entry)
    requires Subsequence(PushedCells(pushed), seen)
    ensures Subsequence(PushedCells(pushed + [e]), seen + [e.cell])
  {
    assert PushedCells(pushed + [e]) == PushedCells(pushed) + [e.cell];
    SubsequenceSnoc(PushedCells(pushed), seen, e.cell);
  }

  /** The current cell is never lowered: `c + 1 < c` is false. */
  lemma RelaxedCurrent(st: Strategy, m: Maze, cf0: ParentMap, cost0: map<Pos, nat>, current: Pos,
                       seen: seq<Pos>, cf: ParentMap, cost: map<Pos, nat>, pushed: seq<Entry>)
    requires current in cost0 && cf0.Keys == cost0.Keys
    requires Relaxed(st, m, cf0, cost0, current, seen, cf, cost, pushed)
    ensures current in cost && cost[current] == cost0[current]
  {
    assert current in cost;
  }

  /** Passing over `next` keeps the summary. */
  lemma RelaxSkip(st: Strategy, m: Maze, cf0: ParentMap, cost0: map<Pos, nat>, current: Pos,
                  seen: seq<Pos>, cf: ParentMap, cost: map<Pos, nat>, pushed: seq<Entry>, next: Pos,
                  seen': seq<Pos>)
    requires current in cost0 && cf0.Keys == cost0.Keys
    requires Relaxed(st, m, cf0, cost0, current, seen, cf, cost, pushed)
    requires next in cost && cost[next] <= cost0[current] + 1 && seen' == seen + [next]
    ensures Relaxed(st, m, cf0, cost0, current, seen', cf, cost, pushed)
  {
    SubsequenceExtend(PushedCells(pushed), seen, next);
  }

  /** The facts one pass of relaxation leaves about costs and keys. */
  lemma RelaxedFacts(st: Strategy, m: Maze, cf: ParentMap, cost: map<Pos, nat>, current: Pos, ns: seq<Pos>,
                     cf': ParentMap, cost': map<Pos, nat>, pushed: seq<Entry>)
    requires current in cost && cf.Keys == cost.Keys
    requires Relaxed(st, m, cf, cost, current, ns, cf', cost', pushed)
    ensures cf.Keys <= cf'.Keys && cf'.Keys == cost'.Keys
    ensures forall y :: y in cf' && y !in cf ==> y in ns
    ensures forall y :: y in ns ==> y in cf' && cost'[y] <= cost[current] + 1
    ensures current in cost' && cost'[current] == cost[current]
    ensures forall y :: y in cost ==> cost'[y] <= cost[y]
  {
    RelaxedCurrent(st, m, cf, cost, current, ns, cf', cost', pushed);
    forall y | y in cost ensures cost'[y] <= cost[y] {
      if !Kept(cf, cost, cf', cost', y) {
        assert Lowered(cost, cost[current], current, ns, cf', cost', pushed, y);
      }
    }
  }

  /** A cost recorded for `p`, or nothing. */
  function CostAt(cost: map<Pos, nat>, p: Pos): nat {
    if p in cost then cost[p] else 0
  }

  /** The recorded costs of the first `n` cells of column `c`, summed. */
  ghost function ColumnCost(cost: map<Pos, nat>, c: int, n: int): nat
    decreases n
  {
    if n <= 0 then 0 else ColumnCost(cost, c, n - 1) + CostAt(cost, Pos(c, n - 1))
  }

  /** The recorded costs of the first `n` columns, summed. */
  ghost function GridCost(cost: map<Pos, nat>, n: int, rows: int): nat
    decreases n
  {
    if n <= 0 then 0 else GridCost(cost, n - 1, rows) + ColumnCost(cost, n - 1, rows)
  }

  /**
    The sum of all recorded costs in the grid. Lowering a cost lowers it,
    which is why the loop ends even though a cell may be queued many times.
   */
  ghost function Potential(m: Maze, cost: map<Pos, nat>): nat {
    GridCost(cost, m.cols, m.rows)
  }

  /** No cell costs more in `b` than in `a`. */
  ghost predicate Cheaper(a: map<Pos, nat>, b: map<Pos, nat>) {
    forall p :: CostAt(b, p) <= CostAt(a, p)
  }

  lemma {:induction false} ColumnCheaper(a: map<Pos, nat>, b: map<Pos, nat>, c: int, n: int)
    requires Cheaper(a, b)
    ensures ColumnCost(b, c, n) <= ColumnCost(a, c, n)
    decreases n
  {
    if n > 0 {
      ColumnCheaper(a, b, c, n - 1);
      assert CostAt(b, Pos(c, n - 1)) <= CostAt(a, Pos(c, n - 1));
    }
  }

  lemma {:induction false} ColumnStrict(a: map<Pos, nat>, b: map<Pos, nat>, c: int, n: int, w: Pos)
    requires Cheaper(a, b) && w.col == c && 0 <= w.row < n && CostAt(b, w) < CostAt(a, w)
    ensures ColumnCost(b, c, n) < ColumnCost(a, c, n)
    decreases n
  {
    if w.row == n - 1 {
      ColumnCheaper(a, b, c, n - 1);
    } else {
      ColumnStrict(a, b, c, n - 1, w);
      assert CostAt(b, Pos(c, n - 1)) <= CostAt(a, Pos(c, n - 1));
    }
  }

  lemma {:induction false} GridCheaper(a: map<Pos, nat>, b: map<Pos, nat>, n: int, rows: int)
    requires Cheaper(a, b)
    ensures GridCost(b, n, rows) <= GridCost(a, n, rows)
    decreases n
  {
    if n > 0 {
      GridCheaper(a, b, n - 1, rows);
      ColumnCheaper(a, b, n - 1, rows);
    }
  }

  lemma {:induction false} GridStrict(a: map<Pos, nat>, b: map<Pos, nat>, n: int, rows: int, w: Pos)
    requires Cheaper(a, b) && 0 <= w.col < n && 0 <= w.row < rows && CostAt(b, w) < CostAt(a, w)
    ensures GridCost(b, n, rows) < GridCost(a, n, rows)
    decreases n
  {
    if w.col == n - 1 {
      GridCheaper(a, b, n - 1, rows);
      ColumnStrict(a, b, n - 1, rows, w);
    } else {
      GridStrict(a, b, n - 1, rows, w);
      ColumnCheaper(a, b, n - 1, rows);
    }
  }

  /**
    What `_solve_dijkstra` and `_solve_astar` keep true: `came_from` is a
    tree over open passages whose parents are strictly cheaper, the start
    costs 0, every recorded cell is reachable, every queued cell is
    recorded, and every recorded cell with no queue entry has been
    expanded.
   */
  ghost predicate BestFrontier(m: Maze, cf: ParentMap, cost: map<Pos, nat>, pq: seq<Entry>)
    requires m.Valid()
  {
    && Linked(m, cf) && Ranked(cf, cost) && cost[Origin] == 0
    && (forall x :: x in cf ==> Reachable(m, Origin, x))
    && Cells(pq) <= cf.Keys
    && (forall x :: x in cf && x !in Cells(pq) ==> Expanded(m, cf, x))
  }

  /** The queue starts with `(0, (0, 0))` and `(0, 0)` costs 0 with no parent. */
  lemma BestInit(m: Maze)
    requires m.Valid()
    ensures BestFrontier(m, map[Origin := None], map[Origin := 0], [Entry(0, Origin)])
  {
    ReachableRefl(m, Origin);
    assert Entry(0, Origin) in [Entry(0, Origin)];
  }

  /** Cells recorded while relaxing a reachable cell are in the grid and reachable. */
  lemma BestReach(st: Strategy, m: Maze, cf: ParentMap, cost: map<Pos, nat>, current: Pos,
                  cf': ParentMap, cost': map<Pos, nat>, pushed: seq<Entry>)
    requires m.Valid() && m.InBounds(current) && Reachable(m, Origin, current)
    requires current in cost && cf.Keys == cost.Keys
    requires forall x :: x in cf ==> m.InBounds(x) && Reachable(m, Origin, x)
    requires Relaxed(st, m, cf, cost, current, Neighbors(m, current), cf', cost', pushed)
    ensures forall x :: x in cf' ==> m.InBounds(x) && Reachable(m, Origin, x)
  {
    var ns := Neighbors(m, current);
    RelaxedFacts(st, m, cf, cost, current, ns, cf', cost', pushed);
    forall x | x in cf' ensures m.InBounds(x) && Reachable(m, Origin, x) {
      if x !in cf {
        ReachableStep(m, Origin, current, x);
      }
    }
  }

  /** Every recorded cell still hangs off a recorded cell by one Step. */
  lemma BestLinked(st: Strategy, m: Maze, cf: ParentMap, cost: map<Pos, nat>, current: Pos,
                   cf': ParentMap, cost': map<Pos, nat>, pushed: seq<Entry>)
    requires m.Valid() && Linked(m, cf) && current in cf && cf.Keys == cost.Keys
    requires Relaxed(st, m, cf, cost, current, Neighbors(m, current), cf', cost', pushed)
    requires forall x :: x in cf' ==> m.InBounds(x)
    ensures Linked(m, cf')
  {
    var ns := Neighbors(m, current);
    RelaxedFacts(st, m, cf, cost, current, ns, cf', cost', pushed);
    forall x | x in cf' && x != Origin
      ensures cf'[x].Some? && cf'[x].value in cf' && Step(m, cf'[x].value, x)
    {
      if Kept(cf, cost, cf', cost', x) {
        assert Step(m, cf[x].value, x);
      } else {
        assert Lowered(cost, cost[current], current, ns, cf', cost', pushed, x);
      }
    }
  }

  /** Parents stay strictly cheaper than their children, and the start stays at 0. */
  lemma BestRanked(st: Strategy, m: Maze, cf: ParentMap, cost: map<Pos, nat>, current: Pos, ns: seq<Pos>,
                   cf': ParentMap, cost': map<Pos, nat>, pushed: seq<Entry>)
    requires Ranked(cf, cost) && cost[Origin] == 0 && current in cf
    requires Relaxed(st, m, cf, cost, current, ns, cf', cost', pushed)
    ensures Ranked(cf', cost') && cost'[Origin] == 0
  {
    RelaxedFacts(st, m, cf, cost, current, ns, cf', cost', pushed);
    assert Kept(cf, cost, cf', cost', Origin);
    forall x | x in cf' && x != Origin
      ensures cf'[x].Some? && cf'[x].value in cf' && cost'[cf'[x].value] < cost'[x]
    {
      if Kept(cf, cost, cf', cost', x) {
        assert cost[cf[x].value] < cost[x];
      } else {
        assert Lowered(cost, cost[current], current, ns, cf', cost', pushed, x);
      }
    }
  }

  /** Every queued cell is recorded. */
  lemma BestQueued(st: Strategy, m: Maze, cf: ParentMap, cost: map<Pos, nat>, current: Pos, ns: seq<Pos>,
                   cf': ParentMap, cost': map<Pos, nat>, pushed: seq<Entry>, rest: seq<Entry>)
    requires current in cost && cf.Keys == cost.Keys && Cells(rest) <= cf.Keys
    requires Relaxed(st, m, cf, cost, current, ns, cf', cost', pushed)
    ensures Cells(rest + pushed) <= cf'.Keys
  {
    RelaxedFacts(st, m, cf, cost, current, ns, cf', cost', pushed);
    forall x | x in Cells(rest + pushed) ensures x in cf' {
      var f :| f in rest + pushed && f.cell == x;
      if f in rest {
        assert x in Cells(rest);
      } else {
        var i :| 0 <= i < |pushed| && pushed[i] == f;
      }
    }
  }

  /**
    Every recorded cell without a queue entry is expanded: `current` because
    all its neighbours were just costed, any other because it kept its cost
    and so had no entry before either.
   */
  lemma BestClosed(st: Strategy, m: Maze, cf: ParentMap, cost: map<Pos, nat>, current: Pos,
                   cf': ParentMap, cost': map<Pos, nat>, pushed: seq<Entry>, pq: seq<Entry>, rest: seq<Entry>)
    requires m.Valid() && m.InBounds(current) && current in cf && cf.Keys == cost.Keys
    requires forall x :: x in cf ==> m.InBounds(x)
    requires forall x :: x in cf' ==> m.InBounds(x)
    requires forall x :: x in cf && x !in Cells(pq) ==> Expanded(m, cf, x)
    requires Cells(pq) == Cells(rest) + {current}
    requires Relaxed(st, m, cf, cost, current, Neighbors(m, current), cf', cost', pushed)
    ensures forall x :: x in cf' && x !in Cells(rest + pushed) ==> Expanded(m, cf', x)
  {
    var ns := Neighbors(m, current);
    RelaxedFacts(st, m, cf, cost, current, ns, cf', cost', pushed);
    CellsConcat(rest, pushed);
    forall x | x in cf' && x !in Cells(rest + pushed) ensures Expanded(m, cf', x) {
      if x != current {
        assert Expanded(m, cf, x);
      }
    }
  }

  /**
    Each iteration decreases `(uncosted cells, Potential, |pq|)`: a new
    cell was costed, or keys stayed and some cost fell, or nothing was
    queued and the queue lost the popped entry.
   */
  lemma BestMeasure(st: Strategy, m: Maze, cf: ParentMap, cost: map<Pos, nat>, current: Pos, ns: seq<Pos>,
                    cf': ParentMap, cost': map<Pos, nat>, pushed: seq<Entry>, pq: seq<Entry>, rest: seq<Entry>)
    requires m.Valid() && current in cost && cf.Keys == cost.Keys
    requires forall x :: x in cf' ==> m.InBounds(x)
    requires Relaxed(st, m, cf, cost, current, ns, cf', cost', pushed)
    requires |rest| < |pq|
    ensures var all := CellSet(m.cols, m.rows);
      || all - cf'.Keys < all - cf.Keys
      || (all - cf'.Keys == all - cf.Keys
          && (Potential(m, cost') < Potential(m, cost)
              || (Potential(m, cost') == Potential(m, cost) && |rest + pushed| < |pq|)))
  {
    var all := CellSet(m.cols, m.rows);
    RelaxedFacts(st, m, cf, cost, current, ns, cf', cost', pushed);
    CellSetMembers(m);
    if cf'.Keys != cf.Keys {
      var y :| y in cf' && y !in cf;
      assert y in (all - cf.Keys) - (all - cf'.Keys);
    } else {
      assert Cheaper(cost, cost') by {
        forall p ensures CostAt(cost', p) <= CostAt(cost, p) {
          if p in cost {
            assert cost'[p] <= cost[p];
          }
        }
      }
      GridCheaper(cost, cost', m.cols, m.rows);
      if pushed != [] {
        var w := pushed[0].cell;
        assert Lowered(cost, cost[current], current, ns, cf', cost', pushed, w);
        GridStrict(cost, cost', m.cols, m.rows, w);
      }
    }
  }

  /** One iteration of the outer loop keeps the invariant. */
  lemma BestStep(st: Strategy, m: Maze, cf: ParentMap, cost: map<Pos, nat>, pq: seq<Entry>,
                 current: Pos, rest: seq<Entry>, cf': ParentMap, cost': map<Pos, nat>, pushed: seq<Entry>)
    requires m.Valid() && BestFrontier(m, cf, cost, pq)
    requires Cells(pq) == Cells(rest) + {current} && current in cf
    requires Relaxed(st, m, cf, cost, current, Neighbors(m, current), cf', cost', pushed)
    ensures BestFrontier(m, cf', cost', rest + pushed)
  {
    var ns := Neighbors(m, current);
    BestReach(st, m, cf, cost, current, cf', cost', pushed);
    BestLinked(st, m, cf, cost, current, cf', cost', pushed);
    BestRanked(st, m, cf, cost, current, ns, cf', cost', pushed);
    BestQueued(st, m, cf, cost, current, ns, cf', cost', pushed, rest);
    BestClosed(st, m, cf, cost, current, cf', cost', pushed, pq, rest);
    BestIntro(m, cf', cost', rest + pushed);
  }

  lemma BestIntro(m: Maze, cf: ParentMap, cost: map<Pos, nat>, pq: seq<Entry>)
    requires m.Valid() && Linked(m, cf) && Ranked(cf, cost) && cost[Origin] == 0
    requires forall x :: x in cf ==> m.InBounds(x) && Reachable(m, Origin, x)
    requires Cells(pq) <= cf.Keys
    requires forall x :: x in cf && x !in Cells(pq) ==> Expanded(m, cf, x)
    ensures BestFrontier(m, cf, cost, pq)
  {
  }

  /** The invariant, once the loop stops, gives both solvers' guarantees. */
  lemma BestDone(m: Maze, cf: ParentMap, cost: map<Pos, nat>, pq: seq<Entry>)
    requires m.Valid() && BestFrontier(m, cf, cost, pq)
    requires m.Goal() in Cells(pq) || |pq| == 0
    ensures SearchTree(m, cf)
    ensures forall x :: x in cf ==> Reachable(m, Origin, x)
    ensures m.Goal() in cf <==> Reachable(m, Origin, m.Goal())
  {
    if |pq| == 0 {
      assert Cells(pq) == {};
    }
    Conclude(m, cf, cost, Cells(pq));
  }

  /**
    Model of `_solve_dijkstra(0, 0, color)` (maze.py:169-194) and
    `_solve_astar(0, 0, color)` (maze.py:196-226) up to the drawing:
    returns `came_from` as the loop leaves it. Same guarantees as the
    uninformed searches, whichever priority is used.
   */
  method SearchBestFirst(st: Strategy, m: Maze) returns (cf: ParentMap)
    requires m.Valid()
    ensures SearchTree(m, cf)
    ensures forall x :: x in cf ==> Reachable(m, Origin, x)
    ensures m.Goal() in cf <==> Reachable(m, Origin, m.Goal())
  {
    var pq := [Entry(0, Origin)];
    cf := map[Origin := None];
    var cost: map<Pos, nat> := map[Origin := 0];
    BestInit(m);
    while |pq| > 0
      invariant BestFrontier(m, cf, cost, pq)
      decreases CellSet(m.cols, m.rows) - cf.Keys, Potential(m, cost), |pq|
    {
      var e, rest := PopMin(pq);
      var current := e.cell;
      PopCells(pq, e, rest);
      if current == m.Goal() {
        break;
      }
      var cf', cost', pushed := Relax(st, m, cf, cost, current, Neighbors(m, current));
      BestStep(st, m, cf, cost, pq, current, rest, cf', cost', pushed);
      BestMeasure(st, m, cf, cost, current, Neighbors(m, current), cf', cost', pushed, pq, rest);
      cf, cost, pq := cf', cost', rest + pushed;
    }
    BestDone(m, cf, cost, pq);
  }
}
