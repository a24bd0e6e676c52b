/** The call tree of the recursive dfs in src/Maze.java: each call enters
    one cell and recurses into some of its neighbours, in order. The walls
    carved by a run are exactly the links from each call to its children,
    so this tree is the maze the run leaves behind. */
module CarveTree {
  import opened Geometry

  /** A dfs call at cell `at`, with the calls it made, in call order. */
  datatype Tree = Node(at: Pos, kids: seq<Tree>)

  function Init(ts: seq<Tree>): seq<Tree>
    requires ts != []
  {
    ts[..|ts| - 1]
  }

  function Last(ts: seq<Tree>): Tree
    requires ts != []
  {
    ts[|ts| - 1]
  }

  /** The cells entered by a call and all calls below it. */
  function Nodes(t: Tree): set<Pos>
    decreases t, 1
  {
    {t.at} + NodesOf(t.kids)
  }

  function NodesOf(ts: seq<Tree>): set<Pos>
    decreases ts, 0
  {
    if ts == [] then {} else NodesOf(Init(ts)) + Nodes(Last(ts))
  }

  /** The number of calls in a call tree. */
  function Size(t: Tree): nat
    decreases t, 1
  {
    1 + SizeOf(t.kids)
  }

  function SizeOf(ts: seq<Tree>): nat
    decreases ts, 0
  {
    if ts == [] then 0 else SizeOf(Init(ts)) + Size(Last(ts))
  }

  /** The walls removed by a call and all calls below it: one towards each
      child, then those of the child. */
  function Edges(t: Tree): set<Edge>
    decreases t, 1
  {
    EdgesOf(t.at, t.kids)
  }

  function EdgesOf(root: Pos, ts: seq<Tree>): set<Edge>
    decreases ts, 0
  {
    if ts == [] then {}
    else if Adjacent(root, Last(ts).at) then
      EdgesOf(root, Init(ts)) + {Link(root, Last(ts).at)} + Edges(Last(ts))
    else
      EdgesOf(root, Init(ts)) + Edges(Last(ts))
  }

  /** A call tree of a depth-first search: every child is a neighbour of
      its parent, and no cell is entered twice. */
  ghost predicate WellFormed(t: Tree)
    decreases t, 1
  {
    KidsWellFormed(t.at, t.kids)
  }

  ghost predicate KidsWellFormed(root: Pos, ts: seq<Tree>)
    decreases ts, 0
  {
    ts == [] ||
    (KidsWellFormed(root, Init(ts)) && WellFormed(Last(ts)) &&
     Adjacent(root, Last(ts).at) &&
     Nodes(Last(ts)) !! ({root} + NodesOf(Init(ts))))
  }

  /** A call that makes no further calls. */
  lemma Leaf(p: Pos)
    ensures WellFormed(Node(p, [])) && Size(Node(p, [])) == 1
    ensures Nodes(Node(p, [])) == {p} && NodesOf([]) == {} && Edges(Node(p, [])) == {}
  {
  }

  /** Appending a child call: what the loop of dfs does after each recursive call. */
  lemma AppendKid(root: Pos, ts: seq<Tree>, k: Tree)
    ensures NodesOf(ts + [k]) == NodesOf(ts) + Nodes(k)
    ensures SizeOf(ts + [k]) == SizeOf(ts) + Size(k)
    ensures Adjacent(root, k.at) ==>
      EdgesOf(root, ts + [k]) == EdgesOf(root, ts) + {Link(root, k.at)} + Edges(k)
    ensures KidsWellFormed(root, ts + [k]) <==>
      KidsWellFormed(root, ts) && WellFormed(k) && Adjacent(root, k.at) &&
      Nodes(k) !! ({root} + NodesOf(ts))
  {
    assert Init(ts + [k]) == ts;
  }

  /** Every removed wall lies between two cells of the tree, and no call
      below the root re-enters the root. */
  lemma {:induction false} EdgesWithin(t: Tree)
    requires WellFormed(t)
    ensures forall e :: e in Edges(t) ==> e.at in Nodes(t) && Far(e) in Nodes(t)
    ensures t.at !in NodesOf(t.kids)
    decreases t, 1
  {
    KidsEdgesWithin(t.at, t.kids);
  }

  lemma {:induction false} KidsEdgesWithin(root: Pos, ts: seq<Tree>)
    requires KidsWellFormed(root, ts)
    ensures forall e :: e in EdgesOf(root, ts) ==> e.at in {root} + NodesOf(ts) && Far(e) in {root} + NodesOf(ts)
    ensures root !in NodesOf(ts)
    decreases ts, 0
  {
    if ts != [] {
      KidsEdgesWithin(root, Init(ts));
      EdgesWithin(Last(ts));
    }
  }

  /** No cell is entered twice: a call tree enters as many cells as it
      makes calls. */
  lemma {:induction false} NodeCount(t: Tree)
    requires WellFormed(t)
    ensures |Nodes(t)| == Size(t)
    decreases t, 1
  {
    KidsNodeCount(t.at, t.kids);
    EdgesWithin(t);
  }

  lemma {:induction false} KidsNodeCount(root: Pos, ts: seq<Tree>)
    requires KidsWellFormed(root, ts)
    ensures |NodesOf(ts)| == SizeOf(ts)
    decreases ts, 0
  {
    if ts != [] {
      var k := Last(ts);
      KidsNodeCount(root, Init(ts));
      NodeCount(k);
      assert NodesOf(Init(ts)) !! Nodes(k);
      assert |NodesOf(Init(ts)) + Nodes(k)| == |NodesOf(Init(ts))| + |Nodes(k)|;
    }
  }

  /** A call tree removes one wall fewer than the cells it enters. */
  lemma {:induction false} EdgeCount(t: Tree)
    requires WellFormed(t)
    ensures |Edges(t)| == |Nodes(t)| - 1
    decreases t, 1
  {
    KidsEdgeCount(t.at, t.kids);
    EdgesWithin(t);
  }

  lemma {:induction false} KidsEdgeCount(root: Pos, ts: seq<Tree>)
    requires KidsWellFormed(root, ts)
    ensures |EdgesOf(root, ts)| == |NodesOf(ts)|
    decreases ts, 0
  {
    if ts != [] {
      var k := Last(ts);
      var a, l, b := EdgesOf(root, Init(ts)), Link(root, k.at), Edges(k);
      KidsEdgeCount(root, Init(ts));
      KidsEdgesWithin(root, Init(ts));
      EdgeCount(k);
      EdgesWithin(k);
      assert l !in a;
      assert l !in b;
      assert a !! b;
      assert |a + {l}| == |a| + 1;
      assert |a + {l} + b| == |a| + 1 + |b|;
      assert |NodesOf(Init(ts)) + Nodes(k)| == |NodesOf(Init(ts))| + |Nodes(k)|;
    }
  }

  /** A sequence of cells, each joined to the next through a removed wall. */
  ghost predicate IsPath(es: set<Edge>, path: seq<Pos>) {
    |path| >= 1 &&
    forall i :: 0 <= i < |path| - 1 ==> Adjacent(path[i], path[i + 1]) && Link(path[i], path[i + 1]) in es
  }

  /** Every cell of a call tree is reached from its root through removed walls. */
  lemma {:induction false} TreeReach(t: Tree, p: Pos) returns (path: seq<Pos>)
    requires WellFormed(t)
    requires p in Nodes(t)
    ensures IsPath(Edges(t), path) && path[0] == t.at && path[|path| - 1] == p
    decreases t, 1
  {
    if p == t.at {
      path := [p];
    } else {
      path := KidsReach(t.at, t.kids, p);
    }
  }

  lemma {:induction false} KidsReach(root: Pos, ts: seq<Tree>, p: Pos) returns (path: seq<Pos>)
    requires KidsWellFormed(root, ts)
    requires p in NodesOf(ts)
    ensures IsPath(EdgesOf(root, ts), path) && path[0] == root && path[|path| - 1] == p
    decreases ts, 0
  {
    var k := Last(ts);
    var es := EdgesOf(root, ts);
    if p in Nodes(k) {
      var sub := TreeReach(k, p);
      path := [root] + sub;
      forall i | 0 <= i < |path| - 1
        ensures Adjacent(path[i], path[i + 1]) && Link(path[i], path[i + 1]) in es
      {
        if i > 0 {
          assert path[i] == sub[i - 1] && path[i + 1] == sub[i];
        }
      }
    } else {
      var sub := KidsReach(root, Init(ts), p);
      path := sub;
      assert EdgesOf(root, Init(ts)) <= es;
    }
  }

  /** A spanning tree of `cells` rooted at `root`, in the form the maze
      promises: one wall fewer than cells, every wall between two of the
      cells, and every cell reachable from the root through open walls.
      A connected graph on n cells with n - 1 edges has no cycle, so
      between any two cells there is exactly one simple path: the maze is
      perfect. */
  ghost predicate SpanningTree(es: set<Edge>, cells: set<Pos>, root: Pos) {
    root in cells &&
    |es| == |cells| - 1 &&
    (forall e :: e in es ==> e.at in cells && Far(e) in cells) &&
    (forall p :: p in cells ==> exists path :: IsPath(es, path) && path[0] == root && path[|path| - 1] == p)
  }

  /** The walls removed by any dfs call tree form a spanning tree of the
      cells it entered. */
  lemma TreeSpans(t: Tree)
    requires WellFormed(t)
    ensures SpanningTree(Edges(t), Nodes(t), t.at)
  {
    EdgeCount(t);
    EdgesWithin(t);
    forall p | p in Nodes(t)
      ensures exists path :: IsPath(Edges(t), path) && path[0] == t.at && path[|path| - 1] == p
    {
      var path := TreeReach(t, p);
    }
  }
}
