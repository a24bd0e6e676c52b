/** The maze grid and its carving engine (src/Maze.java): a rows x cols
    array of cells, a randomised recursive depth-first search from the
    corner (0, 0) that removes the wall between each cell and the
    neighbour it moves to, and a reset that closes every wall again. */
module MazeGrid {
  import opened Geometry
  import opened CarveTree
  import opened Cells
  import opened Boards

  /** How a generation run ends: normally, with the InterruptedException
      that Thread.sleep throws when the run is cancelled, or with the
      ArrayIndexOutOfBoundsException that the first step of dfs(0, 0)
      raises on a grid without cells. */
  datatype Outcome = Completed | Interrupted | Failed

  /** What a dfs call tree t has done to the grid, on values: starting
      from the marks m0 and the board b0, the marks are m and the board is
      b. The tree is a traversal of fresh in-bounds cells, they are exactly
      the new marks, and the board is b0 with those cells entered and the
      tree's walls taken down. */
  ghost predicate Carved(t: Tree, m0: set<Pos>, b0: Board, m: set<Pos>, b: Board, rows: int, cols: int) {
    WellFormed(t) && Nodes(t) <= Positions(rows, cols) && Nodes(t) !! m0 &&
    m == m0 + Nodes(t) && b == Carve(b0, Nodes(t), Edges(t))
  }

  /** Appending the call tree of a recursion into a neighbour, made after
      the wall between the two was taken down, extends what the parent
      has carved. */
  lemma Extend(v: Pos, t: Tree, kid: Tree, m0: set<Pos>, b0: Board, m1: set<Pos>, b1: Board,
               m2: set<Pos>, b2: Board, rows: int, cols: int)
    requires t.at == v && Carved(t, m0, b0, m1, b1, rows, cols)
    requires Adjacent(v, kid.at)
    requires Carved(kid, m1, Carve(b1, {}, {Link(v, kid.at)}), m2, b2, rows, cols)
    ensures Carved(Node(v, t.kids + [kid]), m0, b0, m2, b2, rows, cols)
    ensures Size(Node(v, t.kids + [kid])) == Size(t) + Size(kid)
    ensures NodesOf(t.kids + [kid]) == NodesOf(t.kids) + Nodes(kid)
  {
    var ns, es, link := Nodes(t), Edges(t), Link(v, kid.at);
    AppendKid(v, t.kids, kid);
    CarveTwice(b0, ns, es, {}, {link});
    CarveTwice(b0, ns + {}, es + {link}, Nodes(kid), Edges(kid));
    assert ns + {} == ns;
    assert Nodes(Node(v, t.kids + [kid])) == ns + Nodes(kid);
    assert Edges(Node(v, t.kids + [kid])) == es + {link} + Edges(kid);
  }

  /** A call that has entered only its own cell v. */
  lemma Started(v: Pos, m0: set<Pos>, b0: Board, m: set<Pos>, b: Board, rows: int, cols: int)
    requires InGrid(v, rows, cols) && v !in m0
    requires m == m0 + {v} && b == Carve(b0, {v}, {})
    ensures Carved(Node(v, []), m0, b0, m, b, rows, cols) && Size(Node(v, [])) == 1
    ensures NodesOf([]) == {}
  {
    Leaf(v);
  }

  /** A call whose own neighbours are all marked, and whose child calls
      each left all their neighbours marked, leaves every neighbour of
      every cell it entered marked. */
  lemma Finished(t: Tree, order: seq<Dir>, m: set<Pos>, rows: int, cols: int)
    requires IsShuffle(order) && Neighbours(t.at, order[..4], rows, cols) <= m
    requires Surrounded(NodesOf(t.kids), m, rows, cols)
    ensures Surrounded(Nodes(t), m, rows, cols)
  {
    assert order[..4] == order;
    ShuffleSurrounds(t.at, order, m, rows, cols);
    SurroundedUnion({t.at}, NodesOf(t.kids), m, rows, cols);
  }

  /** Entering v, unmarked before, shrinks the set of unmarked cells:
      the measure on which the recursion of dfs terminates. */
  lemma Unseen(ps: set<Pos>, m0: set<Pos>, m: set<Pos>, v: Pos)
    requires m0 <= m && v in m && v !in m0 && v in ps
    ensures ps - m < ps - m0
  {
    assert v in ps - m0;
  }

  /** A run on a new (or reset) maze, on values: the cells it visited
      are exactly the cells its calls entered, the passages are exactly
      the walls its calls took down, one fewer than the visited cells,
      and they join every visited cell to the first one. Every wall
      stays two-sided and the boundary stays walled. */
  lemma FreshRun(t: Tree, rows: int, cols: int)
    requires WellFormed(t) && Nodes(t) <= Positions(rows, cols)
    ensures var b := Carve(Cleared(rows, cols), Nodes(t), Edges(t));
      VisitedCells(b) == Nodes(t) && Passages(b, rows, cols) == Edges(t) &&
      |VisitedCells(b)| == Size(t) && |Passages(b, rows, cols)| == Size(t) - 1 &&
      SpanningTree(Passages(b, rows, cols), VisitedCells(b), t.at) &&
      TwoSided(b) && Sealed(b, rows, cols)
  {
    EdgesWithin(t);
    NodeCount(t);
    TreeSpans(t);
    assert Edges(t) <= GridEdges(rows, cols);
    CarveCleared(rows, cols, Nodes(t), Edges(t));
    ClearedWalls(rows, cols);
    CarveTwoSided(Cleared(rows, cols), Nodes(t), Edges(t));
    CarveSealed(Cleared(rows, cols), rows, cols, Nodes(t), Edges(t));
  }

  /** A completed run on a new maze leaves a perfect maze: every cell
      visited, rows * cols - 1 walls down, and every cell reachable from
      the corner (0, 0) through the passages (one passage for a 1 x 1 grid
      fewer than its cell, none; three for a 2 x 2 grid). */
  lemma PerfectMaze(t: Tree, rows: nat, cols: nat)
    requires WellFormed(t) && t.at == Pos(0, 0) && Nodes(t) == Positions(rows, cols)
    ensures var b := Carve(Cleared(rows, cols), Nodes(t), Edges(t));
      VisitedCells(b) == Positions(rows, cols) &&
      |Passages(b, rows, cols)| == rows * cols - 1 &&
      SpanningTree(Passages(b, rows, cols), Positions(rows, cols), Pos(0, 0))
  {
    FreshRun(t, rows, cols);
    PositionsCount(rows, cols);
  }

  /** A call tree that covers the corner and leaves every neighbour of its
      cells among its cells covers the whole grid. */
  lemma CoversGrid(t: Tree, rows: nat, cols: nat)
    requires WellFormed(t) && t.at == Pos(0, 0) && Nodes(t) <= Positions(rows, cols)
    requires Surrounded(Nodes(t), Nodes(t), rows, cols)
    ensures Nodes(t) == Positions(rows, cols) && Size(t) == rows * cols
  {
    ClosedCoversGrid(Nodes(t), rows, cols);
    PositionsCount(rows, cols);
    NodeCount(t);
  }

  /** A run makes at least one call and at most one per grid cell. */
  lemma RunSize(t: Tree, rows: nat, cols: nat)
    requires Nodes(t) <= Positions(rows, cols)
    ensures 1 <= |Nodes(t)| <= rows * cols
  {
    var ps, ns := Positions(rows, cols), Nodes(t);
    assert t.at in ns;
    PositionsCount(rows, cols);
    assert ps == ns + (ps - ns);
    assert |ns + (ps - ns)| == |ns| + |ps - ns|;
  }

  class Maze {
    const rows: int
    const cols: int
    const grid: seq<seq<Cell>>
    /** The cells the grid owns. */
    ghost const cells: set<Cell>

    /** The grid has the declared shape and holds, at (r, c), the cell
        whose coordinate is (r, c); `cells` is the set of those cells. */
    ghost predicate Valid() {
      |grid| == rows && cols >= 0 &&
      (forall r :: 0 <= r < rows ==> |grid[r]| == cols) &&
      (forall r, c :: 0 <= r < rows && 0 <= c < cols ==>
        grid[r][c] in cells && grid[r][c].row == r && grid[r][c].col == c) &&
      (forall x :: x in cells ==> 0 <= x.row < rows && 0 <= x.col < cols && grid[x.row][x.col] == x)
    }

    /** The flags of every cell, by coordinate. */
    ghost function Snapshot(): (b: Board)
      requires Valid()
      reads cells
      ensures b.Keys == Positions(rows, cols)
    {
      map p | p in Positions(rows, cols) :: grid[p.r][p.c].State()
    }

    /** The coordinates marked in a traversal's table. */
    ghost function Marks(seen: array2<bool>): (m: set<Pos>)
      requires seen.Length0 == rows && seen.Length1 == cols
      reads seen
      ensures m <= Positions(rows, cols)
    {
      set p | p in Positions(rows, cols) && seen[p.r, p.c]
    }

    constructor (rows: int, cols: int)
      requires rows >= 0 && cols >= 0
      ensures this.rows == rows && this.cols == cols
      ensures Valid() && Snapshot() == Cleared(rows, cols)
      ensures fresh(cells)
    {
      this.rows := rows;
      this.cols := cols;
      var g: seq<seq<Cell>> := [];
      ghost var made: set<Cell> := {};
      for r := 0 to rows
        invariant |g| == r && forall i :: 0 <= i < r ==> |g[i]| == cols
        invariant forall i, j :: 0 <= i < r && 0 <= j < cols ==>
          g[i][j] in made && g[i][j].row == i && g[i][j].col == j && g[i][j].State() == Initial
        invariant forall x :: x in made ==> fresh(x) && 0 <= x.row < r && 0 <= x.col < cols && g[x.row][x.col] == x
      {
        var line: seq<Cell> := [];
        ghost var fresh_line: set<Cell> := {};
        for c := 0 to cols
          invariant |line| == c
          invariant forall j :: 0 <= j < c ==>
            line[j] in fresh_line && line[j].row == r && line[j].col == j && line[j].State() == Initial
          invariant forall x :: x in fresh_line ==> fresh(x) && x.row == r && 0 <= x.col < c && line[x.col] == x
          invariant forall i, j :: 0 <= i < r && 0 <= j < cols ==> g[i][j].State() == Initial
        {
          var cell := new Cell(r, c);
          line := line + [cell];
          fresh_line := fresh_line + {cell};
        }
        g := g + [line];
        made := made + fresh_line;
      }
      this.grid := g;
      this.cells := made;
    }

    function GetRows(): (n: int)
      requires Valid()
      ensures n == rows && n == |grid|
    {
      rows
    }

    function GetCols(): (n: int)
      requires Valid()
      ensures n == cols && forall r :: 0 <= r < |grid| ==> n == |grid[r]|
    {
      cols
    }

    function GetCell(r: int, c: int): (cell: Cell)
      requires Valid() && 0 <= r < rows && 0 <= c < cols
      ensures cell.row == r && cell.col == c && cell in cells
    {
      grid[r][c]
    }

    function IsInBounds(r: int, c: int): (b: bool)
      ensures b <==> Pos(r, c) in Positions(rows, cols)
    {
      r >= 0 && c >= 0 && r < rows && c < cols
    }

    /** reset: every wall of every cell stands again and no cell is
        visited, row by row; the grid itself is kept. */
    method Reset()
      requires Valid()
      modifies cells
      ensures Snapshot() == Cleared(rows, cols)
    {
      for r := 0 to rows
        invariant forall x :: x in cells && x.row < r ==> x.State() == Initial
      {
        for c := 0 to cols
          invariant forall x :: x in cells && (x.row < r || (x.row == r && x.col < c)) ==> x.State() == Initial
        {
          var cell := grid[r][c];
          cell.visited := false;
          cell.top := true;
          cell.bottom := true;
          cell.left := true;
          cell.right := true;
        }
      }
      forall p | p in Positions(rows, cols)
        ensures Snapshot()[p] == Initial
      {
        assert grid[p.r][p.c] in cells;
      }
    }

    /** Takes the wall down on the side of a facing b and on the side of b
        facing a, chosen by the difference of their coordinates. */
    method RemoveWall(a: Cell, b: Cell)
      modifies a, b
      ensures var dr, dc := b.row - a.row, b.col - a.col;
        a.top == (old(a.top) && dr != -1) && a.bottom == (old(a.bottom) && dr != 1) &&
        a.left == (old(a.left) && dc != -1) && a.right == (old(a.right) && dc != 1) &&
        b.top == (old(b.top) && dr != 1) && b.bottom == (old(b.bottom) && dr != -1) &&
        b.left == (old(b.left) && dc != 1) && b.right == (old(b.right) && dc != -1)
      ensures a.visited == old(a.visited) && b.visited == old(b.visited)
    {
      var dr := b.row - a.row;
      var dc := b.col - a.col;
      if dr == 1 { a.bottom := false; b.top := false; }
      if dr == -1 { a.top := false; b.bottom := false; }
      if dc == 1 { a.right := false; b.left := false; }
      if dc == -1 { a.left := false; b.right := false; }
    }

    /** removeWall as dfs calls it, on two neighbouring cells of the grid:
        on the snapshot, exactly the wall between the two comes down. */
    method CarveWall(a: Cell, b: Cell)
      requires Valid() && a in cells && b in cells
      requires Adjacent(Pos(a.row, a.col), Pos(b.row, b.col))
      modifies a, b
      ensures Snapshot() == Carve(old(Snapshot()), {}, {Link(Pos(a.row, a.col), Pos(b.row, b.col))})
    {
      ghost var before := Snapshot();
      ghost var pa, pb := Pos(a.row, a.col), Pos(b.row, b.col);
      ghost var sa, sb := before[pa], before[pb];
      RemoveWall(a, b);
      ghost var after := Snapshot();
      assert after[pa] == Knocked(sa, pb.r - pa.r, pb.c - pa.c);
      assert after[pb] == Knocked(sb, pa.r - pb.r, pa.c - pb.c);
      forall p | p in before && p != pa && p != pb
        ensures after[p] == before[p]
      {
        assert grid[p.r][p.c] != a && grid[p.r][p.c] != b;
      }
      CarvePair(before, after, pa, pb);
    }

    /** Cell by cell carving of the grid is carving of its snapshot. */
    lemma CarvedSnapshot(before: Board, ns: set<Pos>, es: set<Edge>)
      requires Valid() && before.Keys == Positions(rows, cols)
      requires forall x :: x in cells ==>
        x.State() == CarveCell(before[Pos(x.row, x.col)], Pos(x.row, x.col), ns, es)
      ensures Snapshot() == Carve(before, ns, es)
    {
    }

    /** The first two steps of dfs: mark (r, c) in the traversal's table
        and set the visited flag of its cell. */
    method Enter(r: int, c: int, seen: array2<bool>) returns (current: Cell)
      requires Valid() && seen.Length0 == rows && seen.Length1 == cols
      requires 0 <= r < rows && 0 <= c < cols && !seen[r, c]
      modifies seen, grid[r][c]
      ensures current == grid[r][c] && seen[r, c]
      ensures Marks(seen) == old(Marks(seen)) + {Pos(r, c)}
      ensures Snapshot() == Carve(old(Snapshot()), {Pos(r, c)}, {})
    {
      ghost var start := Snapshot();
      seen[r, c] := true;
      current := grid[r][c];
      current.SetVisited(true);
      assert Marks(seen) == old(Marks(seen)) + {Pos(r, c)};
      forall x | x in cells
        ensures x.State() == CarveCell(start[Pos(x.row, x.col)], Pos(x.row, x.col), {Pos(r, c)}, {})
      {
      }
      CarvedSnapshot(start, {Pos(r, c)}, {});
    }

    /** generate: a fresh traversal table, then dfs from the corner
        (0, 0). The run's call tree t tells what it did: the snapshot
        afterwards is the one before with t's cells entered and t's walls
        taken down, t is a depth-first traversal of distinct in-bounds
        cells, a completed run entered every cell, and an interrupted one
        entered exactly `stopAt` cells. */
    method Generate(stopAt: nat, pick: Pos -> nat) returns (outcome: Outcome, count: nat, ghost t: Tree)
      requires Valid()
      modifies cells
      ensures outcome == Failed <==> rows == 0 || cols == 0
      ensures outcome == Failed ==> count == 0 && Snapshot() == old(Snapshot())
      ensures outcome != Failed ==> t.at == Pos(0, 0) && WellFormed(t) && Nodes(t) <= Positions(rows, cols)
      ensures outcome != Failed ==> count == |Nodes(t)| && Snapshot() == Carve(old(Snapshot()), Nodes(t), Edges(t))
      ensures outcome == Completed ==> Nodes(t) == Positions(rows, cols) && count == rows * cols
      ensures outcome == Completed ==> stopAt == 0 || stopAt > rows * cols
      ensures outcome == Interrupted ==> count == stopAt
    {
      if rows == 0 || cols == 0 {
        return Failed, 0, Node(Pos(0, 0), []);
      }
      ghost var b0 := Snapshot();
      var seen := NewTable();
      outcome, count, t := Dfs(0, 0, seen, pick, stopAt, 0, {}, b0);
      NodeCount(t);
      if outcome == Completed {
        CoversGrid(t, rows, cols);
      }
    }

    /** The traversal table of generate, rows x cols and all false: no
        cell marked yet. */
    method NewTable() returns (seen: array2<bool>)
      requires Valid()
      ensures fresh(seen) && seen.Length0 == rows && seen.Length1 == cols
      ensures Marks(seen) == {}
      ensures forall r, c :: 0 <= r < rows && 0 <= c < cols ==> !seen[r, c]
    {
      seen := new bool[rows, cols]((_, _) => false);
      assert forall p :: p in Positions(rows, cols) ==> !seen[p.r, p.c];
    }

    /** The recursive step of the carving search, entering cell (r, c):
        mark it, notify the observer, pause (the point where a cancelled
        run stops), then try the four directions in shuffled order.
        `before` counts the cells entered earlier in the run; the pause
        after the `stopAt`-th entered cell is the one the cancellation
        interrupts (0: none). `count` is the number of cells this call and
        its descendants entered (one observer notification each) and `t`
        is its call tree. */
    method Dfs(r: int, c: int, seen: array2<bool>, pick: Pos -> nat, stopAt: nat, before: nat,
               ghost m0: set<Pos>, ghost b0: Board)
      returns (outcome: Outcome, count: nat, ghost t: Tree)
      requires Valid() && seen.Length0 == rows && seen.Length1 == cols
      requires m0 == Marks(seen) && b0 == Snapshot()
      requires 0 <= r < rows && 0 <= c < cols && !seen[r, c]
      modifies seen, cells
      decreases Positions(rows, cols) - Marks(seen), 0
      ensures t.at == Pos(r, c) && count == Size(t) && outcome != Failed
      ensures Carved(t, m0, b0, Marks(seen), Snapshot(), rows, cols)
      ensures outcome == Completed ==> Surrounded(Nodes(t), Marks(seen), rows, cols)
      ensures outcome == Completed ==> !(before < stopAt <= before + count)
      ensures outcome == Interrupted ==> stopAt == before + count
    {
      var v := Pos(r, c);
      var current := Enter(r, c, seen);
      count := 1;
      t := Node(v, []);
      Started(v, m0, b0, Marks(seen), Snapshot(), rows, cols);
      // panel.repaint() is the observer notification for this cell;
      // Thread.sleep(30) then throws when the run has been cancelled
      if before + 1 == stopAt {
        outcome := Interrupted;
      } else {
        var order := Shuffled(pick(v));
        var i := 0;
        outcome := Completed;
        while i < 4 && outcome == Completed
          invariant 0 <= i <= 4 && t.at == v && count == Size(t) && seen[r, c] && outcome != Failed
          invariant Carved(t, m0, b0, Marks(seen), Snapshot(), rows, cols)
          invariant outcome == Completed ==> Surrounded(NodesOf(t.kids), Marks(seen), rows, cols)
          invariant Neighbours(v, order[..i], rows, cols) <= Marks(seen)
          invariant outcome == Completed ==> !(before < stopAt <= before + count)
          invariant outcome == Interrupted ==> stopAt == before + count
        {
          Unseen(Positions(rows, cols), m0, Marks(seen), v);
          var went; ghost var kid;
          outcome, count, went, kid, t := Explore(current, v, order, i, seen, pick, stopAt, before, count, t, m0, b0);
          i := i + 1;
        }
        if outcome == Completed {
          Finished(t, order, Marks(seen), rows, cols);
        }
      }
    }

    /** One turn of the direction loop of dfs, from the marked cell v
        (`current`) whose calls so far form the tree t: when the neighbour
        in direction d is in bounds and not yet marked, take down the wall
        between the two and recurse into the neighbour (`went`); the call
        tree of that recursion is `kid`, and `t'` is t with `kid` appended. */
    method Explore(current: Cell, v: Pos, order: seq<Dir>, i: nat, seen: array2<bool>, pick: Pos -> nat,
                   stopAt: nat, before: nat, count: nat, ghost t: Tree, ghost m0: set<Pos>, ghost b0: Board)
      returns (outcome: Outcome, count': nat, went: bool, ghost kid: Tree, ghost t': Tree)
      requires Valid() && seen.Length0 == rows && seen.Length1 == cols && i < |order|
      requires InGrid(v, rows, cols) && seen[v.r, v.c] && current == grid[v.r][v.c]
      requires t.at == v && count == Size(t) && Carved(t, m0, b0, Marks(seen), Snapshot(), rows, cols)
      requires Surrounded(NodesOf(t.kids), Marks(seen), rows, cols)
      requires Neighbours(v, order[..i], rows, cols) <= Marks(seen)
      requires !(before < stopAt <= before + count)
      modifies seen, cells
      decreases Positions(rows, cols) - Marks(seen), 2
      ensures went <==> InGrid(Step(v, order[i]), rows, cols) && Step(v, order[i]) !in old(Marks(seen))
      ensures !went ==> t' == t && count' == count && outcome == Completed
      ensures went ==> kid.at == Step(v, order[i]) && t' == Node(v, t.kids + [kid])
      ensures t'.at == v && count' == Size(t') && outcome != Failed
      ensures Carved(t', m0, b0, Marks(seen), Snapshot(), rows, cols)
      ensures outcome == Completed ==> Surrounded(NodesOf(t'.kids), Marks(seen), rows, cols)
      ensures Neighbours(v, order[..i + 1], rows, cols) <= Marks(seen)
      ensures outcome == Completed ==> !(before < stopAt <= before + count')
      ensures outcome == Interrupted ==> stopAt == before + count'
    {
      var d := order[i];
      NeighboursPrefix(v, order, i, rows, cols);
      var nr, nc := v.r + DeltaRow(d), v.c + DeltaCol(d);
      assert Step(v, d) == Pos(nr, nc);
      if IsInBounds(nr, nc) && !seen[nr, nc] {
        StepLink(v, d);
        went := true;
        outcome, count', kid, t' := Descend(current, v, Pos(nr, nc), seen, pick, stopAt, before, count, t, m0, b0);
      } else {
        went, outcome, count', kid, t' := false, Completed, count, t, t;
      }
    }

    /** The body of the `if` in the direction loop of dfs: take down the
        wall between v (`current`) and its unmarked neighbour w, recurse
        into w, and append the recursion's call tree `kid` to t. */
    method Descend(current: Cell, v: Pos, w: Pos, seen: array2<bool>, pick: Pos -> nat,
                   stopAt: nat, before: nat, count: nat, ghost t: Tree, ghost m0: set<Pos>, ghost b0: Board)
      returns (outcome: Outcome, count': nat, ghost kid: Tree, ghost t': Tree)
      requires Valid() && seen.Length0 == rows && seen.Length1 == cols
      requires InGrid(v, rows, cols) && current == grid[v.r][v.c]
      requires InGrid(w, rows, cols) && Adjacent(v, w) && !seen[w.r, w.c]
      requires t.at == v && count == Size(t) && Carved(t, m0, b0, Marks(seen), Snapshot(), rows, cols)
      requires Surrounded(NodesOf(t.kids), Marks(seen), rows, cols)
      modifies seen, cells
      decreases Positions(rows, cols) - Marks(seen), 1
      ensures kid.at == w && t' == Node(v, t.kids + [kid]) && count' == Size(t') && outcome != Failed
      ensures Carved(t', m0, b0, Marks(seen), Snapshot(), rows, cols)
      ensures old(Marks(seen)) <= Marks(seen) && w in Marks(seen)
      ensures outcome == Completed ==> Surrounded(NodesOf(t'.kids), Marks(seen), rows, cols)
      ensures outcome == Completed ==> !(before + count < stopAt <= before + count')
      ensures outcome == Interrupted ==> stopAt == before + count'
    {
      ghost var m1, b1 := Marks(seen), Snapshot();
      CarveWall(current, grid[w.r][w.c]);
      assert Marks(seen) == m1;
      var n;
      outcome, n, kid := Dfs(w.r, w.c, seen, pick, stopAt, before + count, m1, Carve(b1, {}, {Link(v, w)}));
      Extend(v, t, kid, m0, b0, m1, b1, Marks(seen), Snapshot(), rows, cols);
      t', count' := Node(v, t.kids + [kid]), count + n;
      if outcome == Completed {
        SurroundedMono(NodesOf(t.kids), m1, Marks(seen), rows, cols);
        SurroundedUnion(NodesOf(t.kids), Nodes(kid), Marks(seen), rows, cols);
      }
    }
  }

  /** A new maze, generated without cancellation: a perfect maze, every
      cell visited and rows * cols - 1 passages forming a spanning tree
      of the grid rooted at (0, 0); a grid without cells fails. */
  method NewMaze(rows: nat, cols: nat, pick: Pos -> nat) returns (maze: Maze, outcome: Outcome)
    ensures fresh(maze) && fresh(maze.cells) && maze.Valid() && maze.rows == rows && maze.cols == cols
    ensures outcome == Failed <==> rows == 0 || cols == 0
    ensures outcome != Failed ==> (outcome == Completed &&
      VisitedCells(maze.Snapshot()) == Positions(rows, cols) &&
      |Passages(maze.Snapshot(), rows, cols)| == rows * cols - 1 &&
      SpanningTree(Passages(maze.Snapshot(), rows, cols), Positions(rows, cols), Pos(0, 0)))
  {
    maze := new Maze(rows, cols);
    var count;
    ghost var t;
    outcome, count, t := maze.Generate(0, pick);
    if outcome != Failed {
      RunSize(t, rows, cols);
      PerfectMaze(t, rows, cols);
    }
  }

  /** reset, then generate, cancelled at the pause after the stopAt-th
      cell (0: never): whatever the maze held before, it ends with exactly
      `count` visited cells and count - 1 passages joining them all to the
      corner, walls two-sided and the boundary walled. A cancellation at
      one of the rows * cols pauses interrupts the run there; any other
      stopAt lets it complete over the whole grid. */
  method Regenerate(maze: Maze, stopAt: nat, pick: Pos -> nat) returns (outcome: Outcome, count: nat)
    requires maze.Valid()
    modifies maze.cells
    ensures outcome == Failed <==> maze.rows == 0 || maze.cols == 0
    ensures outcome != Failed ==> (
      |VisitedCells(maze.Snapshot())| == count &&
      |Passages(maze.Snapshot(), maze.rows, maze.cols)| == count - 1 &&
      SpanningTree(Passages(maze.Snapshot(), maze.rows, maze.cols), VisitedCells(maze.Snapshot()), Pos(0, 0)) &&
      TwoSided(maze.Snapshot()) && Sealed(maze.Snapshot(), maze.rows, maze.cols))
    ensures 1 <= stopAt <= maze.rows * maze.cols ==> outcome == Interrupted && count == stopAt
    ensures outcome != Failed && (stopAt == 0 || stopAt > maze.rows * maze.cols) ==>
      (outcome == Completed && VisitedCells(maze.Snapshot()) == Positions(maze.rows, maze.cols))
  {
    maze.Reset();
    ghost var t;
    outcome, count, t := maze.Generate(stopAt, pick);
    if outcome != Failed {
      RunSize(t, maze.rows, maze.cols);
      FreshRun(t, maze.rows, maze.cols);
    } else {
      assert maze.rows * maze.cols == 0;
    }
  }
}
