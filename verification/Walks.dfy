/** Labelled graphs as sets of arcs: walks, reachability, acyclicity and simple paths.

    Nothing here mentions node indices: a node is its label, so every definition below is
    insensitive to the order in which a graph was built.
 */
module Walks {

  datatype EdgeKind = Normal | ForEach | Collect | DoWhile | Break | Static

  /** The four layers of the compiled graph: Vertex -> OutputVariant -> OutputPort -> InputPort -> Vertex. */
  datatype GraphNode =
    | InputPort(vertex: string, name: string)
    | Vertex(name: string)
    | OutputVariant(vertex: string, name: string)
    | OutputPort(vertex: string, variant: string, name: string)

  datatype Arc = Arc(src: GraphNode, kind: EdgeKind, dst: GraphNode)

  // ---------------------------------------------------------------- walks

  /** `w` leads from `a` to `b` along arcs of `arcs`. */
  ghost predicate IsWalk(arcs: set<Arc>, a: GraphNode, w: seq<Arc>, b: GraphNode)
    decreases |w|
  {
    if w == [] then a == b
    else w[0] in arcs && w[0].src == a && IsWalk(arcs, w[0].dst, w[1..], b)
  }

  ghost predicate Reaches(arcs: set<Arc>, a: GraphNode, b: GraphNode)
  {
    exists w :: IsWalk(arcs, a, w, b)
  }

  ghost predicate Acyclic(arcs: set<Arc>)
  {
    forall n, w :: IsWalk(arcs, n, w, n) ==> w == []
  }

  ghost predicate IsSink(arcs: set<Arc>, n: GraphNode)
  {
    forall a :: a in arcs ==> a.src != n
  }

  ghost function Succ(arcs: set<Arc>, n: GraphNode): set<GraphNode>
  {
    set a | a in arcs && a.src == n :: a.dst
  }

  lemma {:induction false} WalkConcat(arcs: set<Arc>, a: GraphNode, u: seq<Arc>, b: GraphNode, v: seq<Arc>,
      c: GraphNode)
    requires IsWalk(arcs, a, u, b) && IsWalk(arcs, b, v, c)
    ensures IsWalk(arcs, a, u + v, c)
    decreases |u|
  {
    if u == [] {
      assert u + v == v;
    } else {
      WalkConcat(arcs, u[0].dst, u[1..], b, v, c);
      assert (u + v)[0] == u[0] && (u + v)[1..] == u[1..] + v;
    }
  }

  /** The node a walk visits after `k` arcs. */
  ghost function NodeAt(a: GraphNode, w: seq<Arc>, k: nat): GraphNode
    requires k <= |w|
  {
    if k == 0 then a else w[k - 1].dst
  }

  lemma {:induction false} WalkSplit(arcs: set<Arc>, a: GraphNode, w: seq<Arc>, b: GraphNode, k: nat)
    requires IsWalk(arcs, a, w, b) && k <= |w|
    ensures IsWalk(arcs, a, w[..k], NodeAt(a, w, k)) && IsWalk(arcs, NodeAt(a, w, k), w[k..], b)
    decreases |w|
  {
    if k == 0 {
      assert w[..0] == [] && w[0..] == w;
    } else {
      WalkSplit(arcs, w[0].dst, w[1..], b, k - 1);
      assert w[..k][0] == w[0] && w[..k][1..] == w[1..][..k - 1];
      assert w[k..] == w[1..][k - 1..];
      assert NodeAt(w[0].dst, w[1..], k - 1) == NodeAt(a, w, k);
    }
  }

  lemma {:induction false} WalkMonotone(small: set<Arc>, big: set<Arc>, a: GraphNode, w: seq<Arc>, b: GraphNode)
    requires IsWalk(small, a, w, b) && small <= big
    ensures IsWalk(big, a, w, b)
    decreases |w|
  {
    if w != [] {
      WalkMonotone(small, big, w[0].dst, w[1..], b);
    }
  }

  lemma ReachesSelf(arcs: set<Arc>, a: GraphNode)
    ensures Reaches(arcs, a, a)
  {
    assert IsWalk(arcs, a, [], a);
  }

  lemma ReachesStep(arcs: set<Arc>, x: Arc, b: GraphNode)
    requires x in arcs && Reaches(arcs, x.dst, b)
    ensures Reaches(arcs, x.src, b)
  {
    var w :| IsWalk(arcs, x.dst, w, b);
    assert ([x] + w)[1..] == w;
    assert IsWalk(arcs, x.src, [x] + w, b);
  }

  lemma ReachesTrans(arcs: set<Arc>, a: GraphNode, b: GraphNode, c: GraphNode)
    requires Reaches(arcs, a, b) && Reaches(arcs, b, c)
    ensures Reaches(arcs, a, c)
  {
    var u :| IsWalk(arcs, a, u, b);
    var v :| IsWalk(arcs, b, v, c);
    WalkConcat(arcs, a, u, b, v, c);
  }

  lemma ReachesArc(arcs: set<Arc>, a: GraphNode, x: Arc)
    requires x in arcs && Reaches(arcs, a, x.src)
    ensures Reaches(arcs, a, x.dst)
  {
    ReachesSelf(arcs, x.dst);
    ReachesStep(arcs, x, x.dst);
    ReachesTrans(arcs, a, x.src, x.dst);
  }

  /** A walk that goes somewhere leaves its start and enters its end. */
  lemma ReachesFirstLast(arcs: set<Arc>, a: GraphNode, b: GraphNode)
    requires Reaches(arcs, a, b) && a != b
    ensures exists x :: x in arcs && x.src == a && Reaches(arcs, x.dst, b)
    ensures exists y :: y in arcs && y.dst == b && Reaches(arcs, a, y.src)
  {
    var w: seq<Arc> :| IsWalk(arcs, a, w, b);
    assert IsWalk(arcs, w[0].dst, w[1..], b);
    assert w[0] in arcs && w[0].src == a && Reaches(arcs, w[0].dst, b);
    var k := |w| - 1;
    WalkSplit(arcs, a, w, b, k);
    assert w[k..] == [w[k]];
    assert w[k] in arcs && w[k].dst == b && Reaches(arcs, a, w[k].src);
  }

  // ---------------------------------------------------------------- acyclicity

  /** The nodes reached from `n` in one step or more: strictly shrinks along every arc of an acyclic graph. */
  ghost function After(arcs: set<Arc>, n: GraphNode): set<GraphNode>
  {
    set x | x in arcs && Reaches(arcs, n, x.src) :: x.dst
  }

  lemma AfterShrinks(arcs: set<Arc>, x: Arc)
    requires Acyclic(arcs) && x in arcs
    ensures After(arcs, x.dst) < After(arcs, x.src)
  {
    forall y | y in arcs && Reaches(arcs, x.dst, y.src)
      ensures Reaches(arcs, x.src, y.src)
    {
      ReachesStep(arcs, x, y.src);
    }
    ReachesSelf(arcs, x.src);
    assert x.dst in After(arcs, x.src);
    if x.dst in After(arcs, x.dst) {
      var y :| y in arcs && Reaches(arcs, x.dst, y.src) && y.dst == x.dst;
      var w :| IsWalk(arcs, x.dst, w, y.src);
      assert IsWalk(arcs, y.src, [y], y.dst);
      WalkConcat(arcs, x.dst, w, y.src, [y], x.dst);
      assert false;
    }
  }

  /** The nodes from which `n` is reached in one step or more: strictly grows along every arc of an acyclic graph. */
  ghost function Before(arcs: set<Arc>, n: GraphNode): set<GraphNode>
  {
    set x | x in arcs && Reaches(arcs, x.dst, n) :: x.src
  }

  lemma BeforeGrows(arcs: set<Arc>, x: Arc)
    requires Acyclic(arcs) && x in arcs
    ensures Before(arcs, x.src) < Before(arcs, x.dst)
  {
    forall y | y in arcs && Reaches(arcs, y.dst, x.src)
      ensures Reaches(arcs, y.dst, x.dst)
    {
      ReachesArc(arcs, y.dst, x);
    }
    ReachesSelf(arcs, x.dst);
    assert x.src in Before(arcs, x.dst);
    if x.src in Before(arcs, x.src) {
      var y :| y in arcs && Reaches(arcs, y.dst, x.src) && y.src == x.src;
      var w :| IsWalk(arcs, y.dst, w, x.src);
      assert ([y] + w)[1..] == w;
      assert IsWalk(arcs, x.src, [y] + w, x.src);
      assert false;
    }
  }

  /** In an acyclic graph every node can be walked to some sink. */
  lemma {:induction false} WalkToSink(arcs: set<Arc>, n: GraphNode) returns (w: seq<Arc>, s: GraphNode)
    requires Acyclic(arcs)
    ensures IsWalk(arcs, n, w, s) && IsSink(arcs, s)
    decreases After(arcs, n)
  {
    if IsSink(arcs, n) {
      w, s := [], n;
    } else {
      var x :| x in arcs && x.src == n;
      AfterShrinks(arcs, x);
      var v;
      v, s := WalkToSink(arcs, x.dst);
      w := [x] + v;
      assert w[1..] == v;
    }
  }

  ghost predicate HasArcInto(arcs: set<Arc>, n: GraphNode, nodes: set<GraphNode>)
  {
    exists x :: x in arcs && x.src == n && x.dst in nodes
  }

  /** A finite set of nodes in which every node has a successor contains a cycle. */
  lemma {:induction false} EndlessIsCyclic(arcs: set<Arc>, nodes: set<GraphNode>, n: GraphNode)
    requires n in nodes
    requires forall m :: m in nodes ==> HasArcInto(arcs, m, nodes)
    ensures !Acyclic(arcs)
    decreases After(arcs, n)
  {
    if Acyclic(arcs) {
      var x :| x in arcs && x.src == n && x.dst in nodes;
      AfterShrinks(arcs, x);
      EndlessIsCyclic(arcs, nodes, x.dst);
    }
  }

  /** Arcs that all lead upward in some ranking close no cycle. */
  lemma {:induction false} RankedWalkClimbs(arcs: set<Arc>, rank: GraphNode -> nat, a: GraphNode, w: seq<Arc>,
      b: GraphNode)
    requires (forall x :: x in arcs ==> rank(x.src) < rank(x.dst)) && IsWalk(arcs, a, w, b)
    ensures rank(b) >= rank(a) + |w|
    decreases |w|
  {
    if w != [] {
      RankedWalkClimbs(arcs, rank, w[0].dst, w[1..], b);
    }
  }

  lemma RankedIsAcyclic(arcs: set<Arc>, rank: GraphNode -> nat)
    requires forall x :: x in arcs ==> rank(x.src) < rank(x.dst)
    ensures Acyclic(arcs)
  {
    forall n, w | IsWalk(arcs, n, w, n) ensures w == [] {
      RankedWalkClimbs(arcs, rank, n, w, n);
    }
  }

  /** Every closed walk can be started one arc later. */
  lemma RotateCycle(arcs: set<Arc>, n: GraphNode, w: seq<Arc>)
    requires IsWalk(arcs, n, w, n) && w != []
    ensures IsWalk(arcs, w[0].dst, w[1..] + [w[0]], w[0].dst)
  {
    assert IsWalk(arcs, n, [w[0]], w[0].dst);
    WalkConcat(arcs, w[0].dst, w[1..], n, [w[0]], w[0].dst);
  }

  // ---------------------------------------------------------------- simple paths

  /** `x` is one of the nodes visited by `w` from `a`. */
  ghost predicate Visits(a: GraphNode, w: seq<Arc>, x: GraphNode)
  {
    exists k :: 0 <= k <= |w| && NodeAt(a, w, k) == x
  }

  /** No node is visited twice. */
  ghost predicate IsSimple(a: GraphNode, w: seq<Arc>)
  {
    forall i, j :: 0 <= i < j <= |w| ==> NodeAt(a, w, i) != NodeAt(a, w, j)
  }

  ghost predicate IsSimplePath(arcs: set<Arc>, a: GraphNode, w: seq<Arc>, b: GraphNode)
  {
    w != [] && IsWalk(arcs, a, w, b) && IsSimple(a, w)
  }

  ghost predicate OnSimplePath(arcs: set<Arc>, a: GraphNode, b: GraphNode, x: GraphNode)
  {
    exists w :: IsSimplePath(arcs, a, w, b) && Visits(a, w, x)
  }

  lemma AcyclicWalkIsSimple(arcs: set<Arc>, a: GraphNode, w: seq<Arc>, b: GraphNode)
    requires Acyclic(arcs) && IsWalk(arcs, a, w, b)
    ensures IsSimple(a, w)
  {
    forall i, j | 0 <= i < j <= |w|
      ensures NodeAt(a, w, i) != NodeAt(a, w, j)
    {
      WalkSplit(arcs, a, w, b, j);
      WalkSplit(arcs, a, w[..j], NodeAt(a, w, j), i);
      assert NodeAt(a, w[..j], i) == NodeAt(a, w, i);
      assert w[..j][i..] != [];
    }
  }

  /** In an acyclic graph the union of all simple paths is the intersection of forward and
      backward reachability. */
  lemma SimplePathsAreReachability(arcs: set<Arc>, a: GraphNode, b: GraphNode, x: GraphNode)
    requires Acyclic(arcs) && a != b
    ensures OnSimplePath(arcs, a, b, x) <==> Reaches(arcs, a, x) && Reaches(arcs, x, b)
  {
    if OnSimplePath(arcs, a, b, x) {
      var w :| IsSimplePath(arcs, a, w, b) && Visits(a, w, x);
      var k :| 0 <= k <= |w| && NodeAt(a, w, k) == x;
      WalkSplit(arcs, a, w, b, k);
    }
    if Reaches(arcs, a, x) && Reaches(arcs, x, b) {
      var u :| IsWalk(arcs, a, u, x);
      var v :| IsWalk(arcs, x, v, b);
      WalkConcat(arcs, a, u, x, v, b);
      AcyclicWalkIsSimple(arcs, a, u + v, b);
      NodeAtEnd(arcs, a, u, x);
      assert NodeAt(a, u + v, |u|) == NodeAt(a, u, |u|) == x;
      assert Visits(a, u + v, x);
      assert u + v != [];
      assert IsSimplePath(arcs, a, u + v, b);
    }
  }

  lemma NodeAtEnd(arcs: set<Arc>, a: GraphNode, w: seq<Arc>, b: GraphNode)
    requires IsWalk(arcs, a, w, b)
    ensures NodeAt(a, w, |w|) == b
  {
    WalkSplit(arcs, a, w, b, |w|);
    assert w[|w|..] == [];
  }
}
