/** The flags of the whole grid as a value: each coordinate of a rows x
    cols maze mapped to the state of its cell. The carving of src/Maze.java
    is described on these values, so that what a run does to the grid can
    be stated once and reasoned about without the heap. */
module Boards {
  import opened Geometry
  import opened Cells

  type Board = map<Pos, CellState>

  /** The board of a maze whose cells are all new (or all reset). */
  function Cleared(rows: int, cols: int): (b: Board)
    ensures b.Keys == Positions(rows, cols)
    ensures forall p :: p in b ==> b[p] == Initial
  {
    map p | p in Positions(rows, cols) :: Initial
  }

  /** The board after the cells of `ns` have been entered and the walls
      of `es` taken down on both sides; nothing else changes. */
  function Carve(b: Board, ns: set<Pos>, es: set<Edge>): (b': Board)
    ensures b'.Keys == b.Keys
  {
    map p | p in b :: CarveCell(b[p], p, ns, es)
  }

  /** The state of the cell at p after the carving of Carve. */
  function CarveCell(s: CellState, p: Pos, ns: set<Pos>, es: set<Edge>): CellState {
    CellState(
      s.top && South(Pos(p.r - 1, p.c)) !in es,
      s.bottom && South(p) !in es,
      s.left && East(Pos(p.r, p.c - 1)) !in es,
      s.right && East(p) !in es,
      s.visited || p in ns)
  }

  /** The flags of a cell after removeWall took down its walls facing
      the direction (dr, dc) from it to the other cell. */
  function Knocked(s: CellState, dr: int, dc: int): CellState {
    CellState(s.top && dr != -1, s.bottom && dr != 1, s.left && dc != -1, s.right && dc != 1, s.visited)
  }

  /** For adjacent cells, removeWall's effect on each of the two is the
      carving of the one wall between them. */
  lemma KnockedCarve(s: CellState, p: Pos, q: Pos)
    requires Adjacent(p, q)
    ensures Knocked(s, q.r - p.r, q.c - p.c) == CarveCell(s, p, {}, {Link(p, q)})
    ensures Knocked(s, p.r - q.r, p.c - q.c) == CarveCell(s, q, {}, {Link(p, q)})
  {
    WallSides(p, p, q);
    WallSides(q, p, q);
  }

  /** Carving the wall between p and q leaves every other cell as it was. */
  lemma UntouchedCarve(s: CellState, x: Pos, p: Pos, q: Pos)
    requires Adjacent(p, q) && x != p && x != q
    ensures CarveCell(s, x, {}, {Link(p, q)}) == s
  {
    WallSides(x, p, q);
  }

  /** A board on which removeWall changed only the two adjacent cells p
      and q is the carving of the wall between them. */
  lemma CarvePair(before: Board, after: Board, p: Pos, q: Pos)
    requires Adjacent(p, q) && p in before && q in before && after.Keys == before.Keys
    requires after[p] == Knocked(before[p], q.r - p.r, q.c - p.c)
    requires after[q] == Knocked(before[q], p.r - q.r, p.c - q.c)
    requires forall x :: x in before && x != p && x != q ==> after[x] == before[x]
    ensures after == Carve(before, {}, {Link(p, q)})
  {
    KnockedCarve(before[p], p, q);
    forall x | x in before && x != p && x != q
      ensures CarveCell(before[x], x, {}, {Link(p, q)}) == before[x]
    {
      UntouchedCarve(before[x], x, p, q);
    }
  }

  /** Two neighbouring cells agree on the wall between them. */
  predicate TwoSided(b: Board) {
    (forall p :: p in b && Pos(p.r, p.c + 1) in b ==> b[p].right == b[Pos(p.r, p.c + 1)].left) &&
    (forall p :: p in b && Pos(p.r + 1, p.c) in b ==> b[p].bottom == b[Pos(p.r + 1, p.c)].top)
  }

  /** The outer boundary of a rows x cols grid is walled. */
  predicate Sealed(b: Board, rows: int, cols: int) {
    forall p :: p in b ==>
      (p.r == 0 ==> b[p].top) && (p.r == rows - 1 ==> b[p].bottom) &&
      (p.c == 0 ==> b[p].left) && (p.c == cols - 1 ==> b[p].right)
  }

  /** The inner wall e is down (read on its `at` side). */
  predicate IsOpen(b: Board, e: Edge) {
    e.at in b &&
    match e
    case East(p) => !b[p].right
    case South(p) => !b[p].bottom
  }

  /** The passages of the maze: every inner wall of the grid that is down. */
  function Passages(b: Board, rows: int, cols: int): set<Edge> {
    set e | e in GridEdges(rows, cols) && IsOpen(b, e)
  }

  /** The cells whose visited flag is set. */
  function VisitedCells(b: Board): set<Pos> {
    set p | p in b && b[p].visited
  }

  /** Carving in two stages is carving once with the unions. */
  lemma CarveTwice(b: Board, ns1: set<Pos>, es1: set<Edge>, ns2: set<Pos>, es2: set<Edge>)
    ensures Carve(Carve(b, ns1, es1), ns2, es2) == Carve(b, ns1 + ns2, es1 + es2)
  {
  }

  /** A new grid has two-sided walls and a walled boundary. */
  lemma ClearedWalls(rows: int, cols: int)
    ensures TwoSided(Cleared(rows, cols)) && Sealed(Cleared(rows, cols), rows, cols)
    ensures Passages(Cleared(rows, cols), rows, cols) == {}
    ensures VisitedCells(Cleared(rows, cols)) == {}
  {
  }

  /** Taking walls down in pairs keeps the two sides of every wall in
      agreement, whatever walls are taken down. */
  lemma CarveTwoSided(b: Board, ns: set<Pos>, es: set<Edge>)
    requires TwoSided(b)
    ensures TwoSided(Carve(b, ns, es))
  {
    var b' := Carve(b, ns, es);
    forall p | p in b' && Pos(p.r, p.c + 1) in b'
      ensures b'[p].right == b'[Pos(p.r, p.c + 1)].left
    {
      assert East(Pos(p.r, p.c + 1 - 1)) == East(p);
    }
    forall p | p in b' && Pos(p.r + 1, p.c) in b'
      ensures b'[p].bottom == b'[Pos(p.r + 1, p.c)].top
    {
      assert South(Pos(p.r + 1 - 1, p.c)) == South(p);
    }
  }

  /** Taking down inner walls only leaves the boundary walled. */
  lemma CarveSealed(b: Board, rows: int, cols: int, ns: set<Pos>, es: set<Edge>)
    requires b.Keys <= Positions(rows, cols)
    requires Sealed(b, rows, cols) && es <= GridEdges(rows, cols)
    ensures Sealed(Carve(b, ns, es), rows, cols)
  {
  }

  /** Carving a new grid: the passages are exactly the walls taken down
      and the visited cells exactly the cells entered. */
  lemma CarveCleared(rows: int, cols: int, ns: set<Pos>, es: set<Edge>)
    requires ns <= Positions(rows, cols) && es <= GridEdges(rows, cols)
    ensures Passages(Carve(Cleared(rows, cols), ns, es), rows, cols) == es
    ensures VisitedCells(Carve(Cleared(rows, cols), ns, es)) == ns
  {
    var b := Carve(Cleared(rows, cols), ns, es);
    forall e | e in GridEdges(rows, cols)
      ensures IsOpen(b, e) <==> e in es
    {
      assert e.at in b && b[e.at] == CarveCell(Initial, e.at, ns, es);
    }
    forall p | p in b
      ensures b[p].visited <==> p in ns
    {
      assert b[p] == CarveCell(Initial, p, ns, es);
    }
  }
}
