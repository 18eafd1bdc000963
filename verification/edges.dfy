/**
  Interior wall pairs. Each pair of orthogonally adjacent cells shares one
  edge; the edge is "open" once the carver has cleared both of its flags.
  The entrance and exit are on the outer border and are not edges.
 */
module Edges {
  import opened Grid

  /** The edge between `a` and `b`, written with `b` to the right of or below `a`. */
  datatype Edge = Edge(a: Pos, b: Pos)

  /** The edge shared by two adjacent cells, in its canonical orientation. */
  function EdgeOf(p: Pos, q: Pos): (e: Edge)
    requires Adjacent(p, q)
    ensures (e.a == p && e.b == q) || (e.a == q && e.b == p)
    ensures e.b == e.a.Right() || e.b == e.a.Down()
  {
    AdjacentCases(p, q);
    if q == p.Right() || q == p.Down() then Edge(p, q)
    else if q == p.Left() then (assert p == q.Right(); Edge(q, p))
    else (assert p == q.Down(); Edge(q, p))
  }

  /** Every interior edge of a `cols x rows` grid. */
  ghost function InteriorEdges(cols: int, rows: int): set<Edge> {
    (set p | p in CellSet(cols, rows) && p.Right() in CellSet(cols, rows) :: Edge(p, p.Right()))
    + (set p | p in CellSet(cols, rows) && p.Down() in CellSet(cols, rows) :: Edge(p, p.Down()))
  }

  lemma InteriorEdgesMembers(m: Maze)
    ensures forall e :: e in InteriorEdges(m.cols, m.rows) <==>
      m.InBounds(e.a) && m.InBounds(e.b) && (e.b == e.a.Right() || e.b == e.a.Down())
  {
    CellSetMembers(m);
  }

  /** Both flags of the edge are cleared. */
  ghost predicate EdgeOpen(m: Maze, e: Edge)
    requires m.Valid()
  {
    && m.InBounds(e.a) && m.InBounds(e.b)
    && !Facing(m.At(e.a), e.a, e.b)
    && !Facing(m.At(e.b), e.b, e.a)
  }

  /** The interior wall pairs that have been knocked out. */
  ghost function OpenEdges(m: Maze): set<Edge>
    requires m.Valid()
  {
    set e | e in InteriorEdges(m.cols, m.rows) && EdgeOpen(m, e)
  }

  lemma OpenEdgesSameWalls(m: Maze, m': Maze)
    requires SameWalls(m, m')
    ensures OpenEdges(m') == OpenEdges(m)
  {
    forall e | e in InteriorEdges(m.cols, m.rows) && m.InBounds(e.a) && m.InBounds(e.b)
      ensures EdgeOpen(m', e) <==> EdgeOpen(m, e)
    {
      assert Walls(m'.At(e.a)) == Walls(m.At(e.a));
      assert Walls(m'.At(e.b)) == Walls(m.At(e.b));
    }
    InteriorEdgesMembers(m);
  }

  /** Every open edge joins two cells of `s`. */
  ghost predicate EdgesWithin(m: Maze, s: set<Pos>)
    requires m.Valid()
  {
    forall e :: e in OpenEdges(m) ==> e.a in s && e.b in s
  }
}
