/**
  The grid of cells that a maze is carved into (class Maze in maze.py).

  Cells are stored column-major, `cells[col][row]`, exactly as `_cells[i][j]`
  in the source: the column grows to the right and the row grows downward,
  so "up" is `row - 1` and "down" is `row + 1`.
 */
module Grid {

  /** One grid position. The Cell class (cell.py) is not part of this model;
      it is taken to hold exactly four wall flags and a `visited` flag. */
  datatype Cell = Cell(hasTop: bool, hasBottom: bool, hasLeft: bool, hasRight: bool, visited: bool)

  /** A freshly constructed cell: all four walls present, not visited
      (an assumption about cell.py's constructor). */
  const Walled: Cell := Cell(true, true, true, true, false)

  /** A `(col, row)` coordinate. */
  datatype Pos = Pos(col: int, row: int) {
    function Left(): Pos { Pos(col - 1, row) }
    function Right(): Pos { Pos(col + 1, row) }
    function Up(): Pos { Pos(col, row - 1) }
    function Down(): Pos { Pos(col, row + 1) }
  }

  /** The start cell of carving and of every solver. */
  const Origin: Pos := Pos(0, 0)

  function Abs(x: int): nat { if x < 0 then -x else x }

  /** Orthogonal neighbours: Manhattan distance exactly one. */
  predicate Adjacent(p: Pos, q: Pos) {
    Abs(p.col - q.col) + Abs(p.row - q.row) == 1
  }

  lemma AdjacentCases(p: Pos, q: Pos)
    ensures Adjacent(p, q) <==> q == p.Left() || q == p.Right() || q == p.Up() || q == p.Down()
  {
  }

  /** The orthogonal neighbours of `p` are exactly its four direction steps. */
  lemma Around(p: Pos)
    ensures forall q :: Adjacent(p, q) <==> q == p.Left() || q == p.Right() || q == p.Up() || q == p.Down()
  {
    forall q ensures Adjacent(p, q) <==> q == p.Left() || q == p.Right() || q == p.Up() || q == p.Down() {
      AdjacentCases(p, q);
    }
  }

  /** The wall flag of cell `c`, standing at `p`, on the side that faces `q`. */
  function Facing(c: Cell, p: Pos, q: Pos): bool {
    if q == p.Left() then c.hasLeft
    else if q == p.Right() then c.hasRight
    else if q == p.Up() then c.hasTop
    else c.hasBottom
  }

  /** The position of the direction from `p` to `q` in the fixed order
      left, right, up, down. */
  function Rank(p: Pos, q: Pos): int {
    if q == p.Left() then 0
    else if q == p.Right() then 1
    else if q == p.Up() then 2
    else 3
  }

  /** `ns` lists directions from `p` in strictly increasing Rank order. */
  predicate Ordered(p: Pos, ns: seq<Pos>) {
    forall i, j :: 0 <= i < j < |ns| ==> Rank(p, ns[i]) < Rank(p, ns[j])
  }

  /** Concatenating optional steps left, right, up, down keeps them in Rank order. */
  lemma Pieces(p: Pos, l: seq<Pos>, r: seq<Pos>, u: seq<Pos>, d: seq<Pos>)
    requires l == [] || l == [p.Left()]
    requires r == [] || r == [p.Right()]
    requires u == [] || u == [p.Up()]
    requires d == [] || d == [p.Down()]
    ensures Ordered(p, l + r + u + d)
    ensures forall q :: q in l + r + u + d <==> q in l || q in r || q in u || q in d
  {
    var a := l + r;
    if r != [] { OrderedSnoc(p, l, p.Right()); }
    var b := a + u;
    if u != [] { OrderedSnoc(p, a, p.Up()); }
    if d != [] { OrderedSnoc(p, b, p.Down()); }
  }

  /** A direction ranked above every element keeps the list in Rank order. */
  lemma OrderedSnoc(p: Pos, ns: seq<Pos>, q: Pos)
    requires Ordered(p, ns) && forall x :: x in ns ==> Rank(p, x) < Rank(p, q)
    ensures Ordered(p, ns + [q])
  {
    var s := ns + [q];
    forall i, j | 0 <= i < j < |s| ensures Rank(p, s[i]) < Rank(p, s[j]) {
      assert s[i] == ns[i];
      if j < |ns| {
        assert s[j] == ns[j];
      }
    }
  }

  /** The cell `c` at `p` with its wall towards `q` removed. */
  function Opened(c: Cell, p: Pos, q: Pos): (r: Cell)
    requires Adjacent(p, q)
    ensures !Facing(r, p, q)
    ensures r.visited == c.visited && OnlyRemoves(c, r)
    ensures forall y :: Adjacent(p, y) && y != q ==> Facing(r, p, y) == Facing(c, p, y)
  {
    if q == p.Left() then c.(hasLeft := false)
    else if q == p.Right() then c.(hasRight := false)
    else if q == p.Up() then c.(hasTop := false)
    else c.(hasBottom := false)
  }

  /** The four wall flags of a cell, ignoring `visited`. */
  function Walls(c: Cell): Cell { c.(visited := false) }

  /** Every wall present in `b` is present in `a`: going from `a` to `b` only removes walls. */
  predicate OnlyRemoves(a: Cell, b: Cell) {
    && (b.hasTop ==> a.hasTop)
    && (b.hasBottom ==> a.hasBottom)
    && (b.hasLeft ==> a.hasLeft)
    && (b.hasRight ==> a.hasRight)
  }

  datatype Maze = Maze(cols: int, rows: int, cells: seq<seq<Cell>>) {

    /** A `cols x rows` rectangle with at least one cell. */
    predicate Valid() {
      && 1 <= cols && 1 <= rows
      && |cells| == cols
      && forall c :: 0 <= c < cols ==> |cells[c]| == rows
    }

    predicate InBounds(p: Pos) {
      0 <= p.col < cols && 0 <= p.row < rows
    }

    /** The exit cell `(num_cols - 1, num_rows - 1)`, every solver's target. */
    function Goal(): Pos { Pos(cols - 1, rows - 1) }

    function At(p: Pos): Cell
      requires Valid() && InBounds(p)
    {
      cells[p.col][p.row]
    }

    /** The maze with the cell at `p` replaced by `c`. */
    function With(p: Pos, c: Cell): (r: Maze)
      requires Valid() && InBounds(p)
      ensures r.Valid() && r.cols == cols && r.rows == rows
      ensures r.At(p) == c
      ensures forall q :: InBounds(q) && q != p ==> r.At(q) == At(q)
    {
      Maze(cols, rows, cells[p.col := cells[p.col][p.row := c]])
    }

    /** Sets the `visited` flag of the cell at `p`. */
    function Mark(p: Pos): (r: Maze)
      requires Valid() && InBounds(p)
      ensures r.Valid() && r.cols == cols && r.rows == rows
      ensures r.At(p).visited && Walls(r.At(p)) == Walls(At(p))
      ensures forall q :: InBounds(q) && q != p ==> r.At(q) == At(q)
    {
      With(p, At(p).(visited := true))
    }
  }

  /** Same rectangle, and cell for cell the same four walls. */
  ghost predicate SameWalls(m: Maze, m': Maze) {
    && m.Valid() && m'.Valid() && m.cols == m'.cols && m.rows == m'.rows
    && forall p :: m.InBounds(p) ==> Walls(m'.At(p)) == Walls(m.At(p))
  }

  /** Same rectangle, and `m'` has no wall that `m` lacks. */
  ghost predicate Opens(m: Maze, m': Maze) {
    && m.Valid() && m'.Valid() && m.cols == m'.cols && m.rows == m'.rows
    && forall p :: m.InBounds(p) ==> OnlyRemoves(m.At(p), m'.At(p))
  }

  /** Same rectangle, and every cell visited in `m` is visited in `m'`. */
  ghost predicate VisitedGrows(m: Maze, m': Maze) {
    && m.Valid() && m'.Valid() && m.cols == m'.cols && m.rows == m'.rows
    && forall p :: m.InBounds(p) && m.At(p).visited ==> m'.At(p).visited
  }

  /** Same rectangle, and cell for cell the same `visited` flag. */
  ghost predicate SameVisited(m: Maze, m': Maze) {
    && m.Valid() && m'.Valid() && m.cols == m'.cols && m.rows == m'.rows
    && forall p :: m.InBounds(p) ==> m'.At(p).visited == m.At(p).visited
  }

  lemma SameWallsTrans(m1: Maze, m2: Maze, m3: Maze)
    requires SameWalls(m1, m2) && SameWalls(m2, m3)
    ensures SameWalls(m1, m3)
  {
    forall p | m1.InBounds(p) ensures Walls(m3.At(p)) == Walls(m1.At(p)) {
      assert Walls(m2.At(p)) == Walls(m1.At(p));
    }
  }

  lemma SameWallsOpens(m: Maze, m': Maze)
    requires SameWalls(m, m')
    ensures Opens(m, m') && Opens(m', m)
  {
    forall p | m.InBounds(p)
      ensures OnlyRemoves(m.At(p), m'.At(p)) && OnlyRemoves(m'.At(p), m.At(p))
    {
      assert Walls(m'.At(p)) == Walls(m.At(p));
    }
  }

  lemma OpensTrans(m1: Maze, m2: Maze, m3: Maze)
    requires Opens(m1, m2) && Opens(m2, m3)
    ensures Opens(m1, m3)
  {
    forall p | m1.InBounds(p) ensures OnlyRemoves(m1.At(p), m3.At(p)) {
      assert OnlyRemoves(m1.At(p), m2.At(p)) && OnlyRemoves(m2.At(p), m3.At(p));
    }
  }

  lemma GrowsTrans(m1: Maze, m2: Maze, m3: Maze)
    requires VisitedGrows(m1, m2) && VisitedGrows(m2, m3)
    ensures VisitedGrows(m1, m3)
  {
    forall p | m1.InBounds(p) && m1.At(p).visited ensures m3.At(p).visited {
      assert m2.At(p).visited;
    }
  }

  lemma SameVisitedGrows(m1: Maze, m2: Maze)
    requires SameVisited(m1, m2)
    ensures VisitedGrows(m1, m2) && SameVisited(m2, m1)
  {
  }

  lemma SameVisitedTrans(m1: Maze, m2: Maze, m3: Maze)
    requires SameVisited(m1, m2) && SameVisited(m2, m3)
    ensures SameVisited(m1, m3)
  {
    forall p | m1.InBounds(p) ensures m3.At(p).visited == m1.At(p).visited {
      assert m2.At(p).visited == m1.At(p).visited;
    }
  }

  /** What replacing one cell does to the whole grid. */
  lemma WithFacts(m: Maze, p: Pos, c: Cell)
    requires m.Valid() && m.InBounds(p)
    ensures OnlyRemoves(m.At(p), c) ==> Opens(m, m.With(p, c))
    ensures c.visited == m.At(p).visited ==> SameVisited(m, m.With(p, c))
    ensures Walls(c) == Walls(m.At(p)) ==> SameWalls(m, m.With(p, c))
  {
    var r := m.With(p, c);
    if OnlyRemoves(m.At(p), c) {
      forall q | m.InBounds(q) ensures OnlyRemoves(m.At(q), r.At(q)) {
        if q != p {
          assert r.At(q) == m.At(q);
        }
      }
    }
  }

  /** Marking a cell visited removes no wall and only adds `p` to the visited cells. */
  lemma MarkFacts(m: Maze, p: Pos)
    requires m.Valid() && m.InBounds(p)
    ensures SameWalls(m, m.Mark(p)) && Opens(m, m.Mark(p)) && VisitedGrows(m, m.Mark(p))
  {
    SameWallsOpens(m, m.Mark(p));
  }

  /**
    Walls are removed in matched pairs: for every two horizontally or
    vertically adjacent cells, the two flags on their shared edge agree.
   */
  ghost predicate Mirrored(m: Maze)
    requires m.Valid()
  {
    && (forall p :: m.InBounds(p) && m.InBounds(p.Right()) ==> m.At(p).hasRight == m.At(p.Right()).hasLeft)
    && (forall p :: m.InBounds(p) && m.InBounds(p.Down()) ==> m.At(p).hasBottom == m.At(p.Down()).hasTop)
  }

  /** Mirroring depends on walls only. */
  lemma SameWallsMirrored(m: Maze, m': Maze)
    requires SameWalls(m, m')
    ensures Mirrored(m) <==> Mirrored(m')
  {
    forall x | m.InBounds(x) && m.InBounds(x.Right())
      ensures m.At(x).hasRight == m.At(x.Right()).hasLeft <==> m'.At(x).hasRight == m'.At(x.Right()).hasLeft
    {
      assert Walls(m'.At(x)) == Walls(m.At(x));
      assert Walls(m'.At(x.Right())) == Walls(m.At(x.Right()));
    }
    forall x | m.InBounds(x) && m.InBounds(x.Down())
      ensures m.At(x).hasBottom == m.At(x.Down()).hasTop <==> m'.At(x).hasBottom == m'.At(x.Down()).hasTop
    {
      assert Walls(m'.At(x)) == Walls(m.At(x));
      assert Walls(m'.At(x.Down())) == Walls(m.At(x.Down()));
    }
  }

  /** Model of `_create_cells` (maze.py:35-40): `cols` columns of `rows` fresh cells.
      A non-positive dimension yields an empty, invalid grid. */
  function Fresh(cols: int, rows: int): (m: Maze)
    ensures m.cols == cols && m.rows == rows
    ensures m.Valid() <==> 1 <= cols && 1 <= rows
    ensures m.Valid() ==> forall p :: m.InBounds(p) ==> m.At(p) == Walled
  {
    var w := if cols < 0 then 0 else cols;
    var h := if rows < 0 then 0 else rows;
    Maze(cols, rows, seq(w, _ => seq(h, _ => Walled)))
  }

  /** Model of `_reset_cells_visted` (maze.py:117-120). */
  function ResetVisited(m: Maze): (r: Maze)
    requires m.Valid()
    ensures SameWalls(m, r)
    ensures forall p :: r.InBounds(p) ==> !r.At(p).visited
  {
    Maze(m.cols, m.rows,
      seq(|m.cells|, c requires 0 <= c < |m.cells| =>
        seq(|m.cells[c]|, r requires 0 <= r < |m.cells[c]| => m.cells[c][r].(visited := false))))
  }

  /** Resetting twice is the same as resetting once. */
  lemma ResetVisitedIdempotent(m: Maze)
    requires m.Valid()
    ensures ResetVisited(ResetVisited(m)) == ResetVisited(m)
  {
    var r := ResetVisited(m);
    var rr := ResetVisited(r);
    forall c | 0 <= c < m.cols
      ensures rr.cells[c] == r.cells[c]
    {
      forall j | 0 <= j < m.rows
        ensures rr.cells[c][j] == r.cells[c][j]
      {
        assert rr.At(Pos(c, j)) == r.At(Pos(c, j));
      }
    }
  }

  /** `q` can be entered from `p`: it is inside the grid, orthogonally
      adjacent, and the wall of `p` that faces it is open. */
  ghost predicate Passage(m: Maze, p: Pos, q: Pos)
    requires m.Valid() && m.InBounds(p)
  {
    m.InBounds(q) && Adjacent(p, q) && !Facing(m.At(p), p, q)
  }

  /**
    Model of `_get_neighbors` (maze.py:228-240): the in-grid orthogonal
    neighbours reachable through an open wall of `p`, in the fixed order
    left, right, up, down.
   */
  function Neighbors(m: Maze, p: Pos): (ns: seq<Pos>)
    requires m.Valid() && m.InBounds(p)
    ensures forall q :: q in ns <==> Passage(m, p, q)
    ensures Ordered(p, ns)
  {
    var c := m.At(p);
    var l := if p.col > 0 && !c.hasLeft then [p.Left()] else [];
    var r := if p.col < m.cols - 1 && !c.hasRight then [p.Right()] else [];
    var u := if p.row > 0 && !c.hasTop then [p.Up()] else [];
    var d := if p.row < m.rows - 1 && !c.hasBottom then [p.Down()] else [];
    Pieces(p, l, r, u, d);
    Around(p);
    l + r + u + d
  }

  /** Neighbours depend on walls only. */
  lemma NeighborsOnlyWalls(m: Maze, m': Maze, p: Pos)
    requires SameWalls(m, m') && m.InBounds(p)
    ensures Neighbors(m', p) == Neighbors(m, p)
  {
    assert Walls(m'.At(p)) == Walls(m.At(p));
  }

  /** Removing walls never removes a passage. */
  lemma PassageOpens(m: Maze, m': Maze, p: Pos, q: Pos)
    requires Opens(m, m') && m.InBounds(p) && Passage(m, p, q)
    ensures Passage(m', p, q)
  {
    assert OnlyRemoves(m.At(p), m'.At(p));
  }

  /** With mirrored walls the passage relation is symmetric: the open-passage
      graph is undirected. */
  lemma MirroredPassageSymmetric(m: Maze, p: Pos, q: Pos)
    requires m.Valid() && Mirrored(m) && m.InBounds(p) && m.InBounds(q)
    ensures Passage(m, p, q) <==> Passage(m, q, p)
  {
    AdjacentCases(p, q);
    if q == p.Left() {
      assert q.Right() == p;
    } else if q == p.Up() {
      assert q.Down() == p;
    }
  }

  /** The set of all in-grid positions. */
  function CellSet(cols: int, rows: int): set<Pos> {
    set c, r | 0 <= c < cols && 0 <= r < rows :: Pos(c, r)
  }

  lemma CellSetMember(cols: int, rows: int, p: Pos)
    ensures p in CellSet(cols, rows) <==> 0 <= p.col < cols && 0 <= p.row < rows
  {
    if 0 <= p.col < cols && 0 <= p.row < rows {
      assert p == Pos(p.col, p.row);
    }
  }

  lemma CellSetMembers(m: Maze)
    ensures forall p :: p in CellSet(m.cols, m.rows) <==> m.InBounds(p)
  {
    forall p ensures p in CellSet(m.cols, m.rows) <==> m.InBounds(p) {
      CellSetMember(m.cols, m.rows, p);
    }
  }

  /** The cells of one column. */
  function ColumnSet(c: int, rows: int): set<Pos> {
    set r | 0 <= r < rows :: Pos(c, r)
  }

  lemma {:induction false} ColumnSetSize(c: int, rows: nat)
    ensures |ColumnSet(c, rows)| == rows
  {
    if rows > 0 {
      var below, last := ColumnSet(c, rows - 1), Pos(c, rows - 1);
      assert ColumnSet(c, rows) == below + {last} by {
        forall p ensures p in ColumnSet(c, rows) <==> p in below + {last} {
          if p.col == c && 0 <= p.row < rows {
            assert p == Pos(c, p.row);
          }
        }
      }
      assert last !in below;
      ColumnSetSize(c, rows - 1);
    } else {
      assert ColumnSet(c, rows) == {};
    }
  }

  /** The grid holds exactly `cols * rows` positions. */
  lemma {:induction false} CellSetSize(cols: nat, rows: nat)
    ensures |CellSet(cols, rows)| == cols * rows
  {
    if cols > 0 {
      var left, col := CellSet(cols - 1, rows), ColumnSet(cols - 1, rows);
      assert CellSet(cols, rows) == left + col by {
        forall p ensures p in CellSet(cols, rows) <==> p in left + col {
          CellSetMember(cols, rows, p);
          CellSetMember(cols - 1, rows, p);
          if p.col == cols - 1 && 0 <= p.row < rows {
            assert p == Pos(cols - 1, p.row);
          }
        }
      }
      assert left * col == {} by {
        forall p | p in col ensures p !in left {
          CellSetMember(cols - 1, rows, p);
        }
      }
      CellSetSize(cols - 1, rows);
      ColumnSetSize(cols - 1, rows);
      assert (cols - 1) * rows + rows == cols * rows by {
        assert cols * rows == (cols - 1) * rows + 1 * rows;
      }
    } else {
      assert CellSet(cols, rows) == {};
    }
  }

  /** The visited cells. */
  ghost function VisitedSet(m: Maze): set<Pos>
    requires m.Valid()
  {
    set c, r | 0 <= c < m.cols && 0 <= r < m.rows && m.cells[c][r].visited :: Pos(c, r)
  }

  /** The cells not yet visited. */
  ghost function Unvisited(m: Maze): set<Pos>
    requires m.Valid()
  {
    set c, r | 0 <= c < m.cols && 0 <= r < m.rows && !m.cells[c][r].visited :: Pos(c, r)
  }

  lemma VisitedSetMembers(m: Maze)
    requires m.Valid()
    ensures forall p :: p in VisitedSet(m) <==> m.InBounds(p) && m.At(p).visited
    ensures forall p :: p in Unvisited(m) <==> m.InBounds(p) && !m.At(p).visited
  {
    forall p | m.InBounds(p) && m.At(p).visited ensures p in VisitedSet(m) {
      assert p == Pos(p.col, p.row);
    }
    forall p | m.InBounds(p) && !m.At(p).visited ensures p in Unvisited(m) {
      assert p == Pos(p.col, p.row);
    }
  }

  lemma UnvisitedSame(m: Maze, m': Maze)
    requires SameVisited(m, m')
    ensures Unvisited(m') == Unvisited(m) && VisitedSet(m') == VisitedSet(m)
  {
    VisitedSetMembers(m);
    VisitedSetMembers(m');
  }

  /** Visiting the unvisited `q` strictly shrinks the unvisited set. */
  lemma UnvisitedShrinks(m: Maze, m': Maze, q: Pos)
    requires VisitedGrows(m, m') && m.InBounds(q) && !m.At(q).visited && m'.At(q).visited
    ensures Unvisited(m') < Unvisited(m)
  {
    VisitedSetMembers(m);
    VisitedSetMembers(m');
    assert q in Unvisited(m) - Unvisited(m');
  }
}
