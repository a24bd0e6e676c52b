/** Coordinates, directions and walls of the rectangular maze grid, as
    src/Maze.java uses them: a cell is addressed by (row, column), the four
    directions are the unit vectors of the list built in dfs, and a wall is
    shared by two neighbouring cells. */
module Geometry {

  /** A cell coordinate (row, column). */
  datatype Pos = Pos(r: int, c: int)

  /** The four entries of the direction list of dfs, in source order:
      up {-1, 0}, down {1, 0}, left {0, -1}, right {0, 1}. */
  datatype Dir = Up | Down | Left | Right

  function DeltaRow(d: Dir): int {
    match d
    case Up => -1
    case Down => 1
    case _ => 0
  }

  function DeltaCol(d: Dir): int {
    match d
    case Left => -1
    case Right => 1
    case _ => 0
  }

  /** The neighbour coordinate (nr, nc) = (r + dir[0], c + dir[1]). */
  function Step(p: Pos, d: Dir): Pos {
    Pos(p.r + DeltaRow(d), p.c + DeltaCol(d))
  }

  /** The list left by Collections.shuffle: the four directions in some order. */
  predicate IsShuffle(order: seq<Dir>) {
    |order| == 4 && Up in order && Down in order && Left in order && Right in order
  }

  /** The list with the entries at i and j exchanged (Collections.swap). */
  function Swap(ds: seq<Dir>, i: nat, j: nat): (ds': seq<Dir>)
    requires i < |ds| && j < |ds|
    ensures |ds'| == |ds| && forall d :: d in ds' <==> d in ds
  {
    var ds' := ds[i := ds[j]][j := ds[i]];
    assert ds'[i] == ds[j] && ds'[j] == ds[i];
    assert forall k :: 0 <= k < |ds| && k != i && k != j ==> ds'[k] == ds[k];
    ds'
  }

  /** Collections.shuffle on the four-entry direction list of dfs, given
      the random source's draws as one number k: the draws nextInt(4),
      nextInt(3) and nextInt(2) are k % 4, (k / 4) % 3 and (k / 12) % 2,
      and entry i - 1 is exchanged with the draw for i = 4, 3, 2. */
  function Shuffled(k: nat): (order: seq<Dir>)
    ensures IsShuffle(order)
  {
    var ds := [Up, Down, Left, Right];
    assert Up in ds && Down in ds && Left in ds && Right in ds;
    Swap(Swap(Swap(ds, 3, k % 4), 2, (k / 4) % 3), 1, (k / 12) % 2)
  }

  /** The bounds test isInBounds of a rows x cols grid. */
  predicate InGrid(p: Pos, rows: int, cols: int) {
    0 <= p.r < rows && 0 <= p.c < cols
  }

  /** All coordinates of a rows x cols grid. */
  function Positions(rows: int, cols: int): (ps: set<Pos>)
    ensures forall p :: p in ps <==> InGrid(p, rows, cols)
  {
    set r, c | 0 <= r < rows && 0 <= c < cols :: Pos(r, c)
  }

  /** Two cells one step apart along a row or a column. */
  predicate Adjacent(p: Pos, q: Pos) {
    (p.r == q.r && (q.c == p.c + 1 || q.c == p.c - 1)) ||
    (p.c == q.c && (q.r == p.r + 1 || q.r == p.r - 1))
  }

  /** A wall shared by two neighbouring cells: East(p) is p's right wall
      and the left wall of the cell to its right; South(p) is p's bottom
      wall and the top wall of the cell below it. */
  datatype Edge = East(at: Pos) | South(at: Pos)

  /** The cell on the far side of an edge from its `at` cell. */
  function Far(e: Edge): Pos {
    match e
    case East(p) => Pos(p.r, p.c + 1)
    case South(p) => Pos(p.r + 1, p.c)
  }

  /** The wall between two adjacent cells, whichever of the two comes first. */
  function Link(p: Pos, q: Pos): (e: Edge)
    requires Adjacent(p, q)
    ensures (e.at == p && Far(e) == q) || (e.at == q && Far(e) == p)
  {
    if q.r == p.r + 1 then South(p)
    else if q.r == p.r - 1 then South(q)
    else if q.c == p.c + 1 then East(p)
    else East(q)
  }

  /** Every wall of a rows x cols grid that separates two in-bounds cells. */
  function GridEdges(rows: int, cols: int): (es: set<Edge>)
    ensures forall e :: e in es <==> InGrid(e.at, rows, cols) && InGrid(Far(e), rows, cols)
  {
    (set r, c | 0 <= r < rows && 0 <= c < cols - 1 :: East(Pos(r, c))) +
    (set r, c | 0 <= r < rows - 1 && 0 <= c < cols :: South(Pos(r, c)))
  }

  /** Stepping in any direction reaches an adjacent cell, and the wall
      crossed is the one on that side of the cell. */
  lemma StepLink(p: Pos, d: Dir)
    ensures Adjacent(p, Step(p, d))
    ensures Link(p, Step(p, d)) ==
      match d
      case Up => South(Pos(p.r - 1, p.c))
      case Down => South(p)
      case Left => East(Pos(p.r, p.c - 1))
      case Right => East(p)
  {
  }

  /** Every in-bounds neighbour of a cell of s lies in m. */
  ghost predicate Surrounded(s: set<Pos>, m: set<Pos>, rows: int, cols: int) {
    forall p, d {:trigger Step(p, d)} :: p in s && InGrid(Step(p, d), rows, cols) ==> Step(p, d) in m
  }

  lemma SurroundedUnion(a: set<Pos>, b: set<Pos>, m: set<Pos>, rows: int, cols: int)
    requires Surrounded(a, m, rows, cols) && Surrounded(b, m, rows, cols)
    ensures Surrounded(a + b, m, rows, cols)
  {
  }

  /** The in-bounds neighbours of p in the directions ds. */
  function Neighbours(p: Pos, ds: seq<Dir>, rows: int, cols: int): set<Pos>
  {
    if ds == [] then {}
    else
      var d := ds[|ds| - 1];
      Neighbours(p, ds[..|ds| - 1], rows, cols) + (if InGrid(Step(p, d), rows, cols) then {Step(p, d)} else {})
  }

  /** Extending the tried prefix of a direction list by one entry. */
  lemma NeighboursPrefix(p: Pos, ds: seq<Dir>, i: nat, rows: int, cols: int)
    requires i < |ds|
    ensures Neighbours(p, ds[..i + 1], rows, cols) ==
      Neighbours(p, ds[..i], rows, cols) + (if InGrid(Step(p, ds[i]), rows, cols) then {Step(p, ds[i])} else {})
  {
    assert ds[..i + 1][..i] == ds[..i];
  }

  lemma {:induction false} NeighboursHas(p: Pos, ds: seq<Dir>, j: int, rows: int, cols: int)
    requires 0 <= j < |ds| && InGrid(Step(p, ds[j]), rows, cols)
    ensures Step(p, ds[j]) in Neighbours(p, ds, rows, cols)
  {
    if j < |ds| - 1 {
      NeighboursHas(p, ds[..|ds| - 1], j, rows, cols);
    }
  }

  /** Trying every entry of a shuffled direction list tries every direction. */
  lemma ShuffleSurrounds(p: Pos, order: seq<Dir>, m: set<Pos>, rows: int, cols: int)
    requires IsShuffle(order)
    requires Neighbours(p, order, rows, cols) <= m
    ensures Surrounded({p}, m, rows, cols)
  {
    forall d | InGrid(Step(p, d), rows, cols)
      ensures Step(p, d) in m
    {
      var j :| 0 <= j < 4 && order[j] == d;
      NeighboursHas(p, order, j, rows, cols);
    }
  }

  lemma SurroundedMono(s: set<Pos>, m: set<Pos>, m': set<Pos>, rows: int, cols: int)
    requires Surrounded(s, m, rows, cols) && m <= m'
    ensures Surrounded(s, m', rows, cols)
  {
  }

  /** The four walls of a cell q, and which of them is the wall between
      the adjacent cells p and p': the one on p's side facing p', or the
      one on the side of p' facing p. */
  lemma WallSides(q: Pos, p: Pos, p': Pos)
    requires Adjacent(p, p')
    ensures South(Pos(q.r - 1, q.c)) == Link(p, p') <==>
      (q == p && p'.r - p.r == -1) || (q == p' && p'.r - p.r == 1)
    ensures South(q) == Link(p, p') <==>
      (q == p && p'.r - p.r == 1) || (q == p' && p'.r - p.r == -1)
    ensures East(Pos(q.r, q.c - 1)) == Link(p, p') <==>
      (q == p && p'.c - p.c == -1) || (q == p' && p'.c - p.c == 1)
    ensures East(q) == Link(p, p') <==>
      (q == p && p'.c - p.c == 1) || (q == p' && p'.c - p.c == -1)
  {
  }

  /** A set of coordinates is closed when it holds every in-bounds
      neighbour of each of its cells. */
  ghost predicate Closed(s: set<Pos>, rows: int, cols: int) {
    Surrounded(s, s, rows, cols)
  }

  /** The grid graph is connected: a closed set of in-bounds cells that
      holds the corner (0, 0) holds every cell. */
  lemma {:induction false} ClosedCoversGrid(s: set<Pos>, rows: int, cols: int)
    requires s <= Positions(rows, cols)
    requires Pos(0, 0) in s
    requires Closed(s, rows, cols)
    ensures s == Positions(rows, cols)
  {
    forall p | p in Positions(rows, cols)
      ensures p in s
    {
      ClosedReaches(s, rows, cols, p);
    }
  }

  lemma {:induction false} ClosedReaches(s: set<Pos>, rows: int, cols: int, p: Pos)
    requires Pos(0, 0) in s
    requires Closed(s, rows, cols)
    requires InGrid(p, rows, cols)
    ensures p in s
    decreases p.r + p.c
  {
    if p.r > 0 {
      var q := Pos(p.r - 1, p.c);
      ClosedReaches(s, rows, cols, q);
      assert Step(q, Down) == p;
    } else if p.c > 0 {
      var q := Pos(p.r, p.c - 1);
      ClosedReaches(s, rows, cols, q);
      assert Step(q, Right) == p;
    }
  }

  /** The cells of row r of a grid with `cols` columns. */
  function RowCells(r: int, cols: int): set<Pos> {
    set c | 0 <= c < cols :: Pos(r, c)
  }

  lemma {:induction false} RowCellsCount(r: int, cols: nat)
    ensures |RowCells(r, cols)| == cols
  {
    if cols > 0 {
      RowCellsCount(r, cols - 1);
      var before := RowCells(r, cols - 1);
      assert RowCells(r, cols) == before + {Pos(r, cols - 1)};
      assert Pos(r, cols - 1) !in before;
    } else {
      assert RowCells(r, cols) == {};
    }
  }

  /** A rows x cols grid has exactly rows * cols cells. */
  lemma {:induction false} PositionsCount(rows: nat, cols: nat)
    ensures |Positions(rows, cols)| == rows * cols
  {
    if rows > 0 {
      PositionsCount(rows - 1, cols);
      RowCellsCount(rows - 1, cols);
      LastRow(rows, cols);
      MulPred(rows, cols);
    } else {
      assert Positions(rows, cols) == {};
    }
  }

  /** The grid is the grid without its last row, plus that row. */
  lemma LastRow(rows: nat, cols: nat)
    requires rows > 0
    ensures |Positions(rows, cols)| == |Positions(rows - 1, cols)| + |RowCells(rows - 1, cols)|
  {
    var above, last := Positions(rows - 1, cols), RowCells(rows - 1, cols);
    assert Positions(rows, cols) == above + last;
    assert above !! last;
  }

  lemma MulPred(a: nat, b: nat)
    requires a > 0
    ensures (a - 1) * b + b == a * b
  {
    assert a * b == (a - 1) * b + 1 * b;
  }
}
