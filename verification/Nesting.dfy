/** No do-while loop contains another loop edge. */
module Nesting {
  import opened Walks
  import opened DagSpecs
  import opened DiGraphs
  import Cycles
  import SimplePaths

  predicate IsLoopKind(kind: EdgeKind)
  {
    kind in {DoWhile, Break, ForEach, Collect}
  }

  /** Removes the phantom suffix, when it is there. */
  function StripSuffix(name: string): string
  {
    var n := |name| - |PHANTOM_SUFFIX|;
    if n >= 0 && name[n..] == PHANTOM_SUFFIX then name[..n] else name
  }

  lemma StripAppended(name: string)
    ensures StripSuffix(name + PHANTOM_SUFFIX) == name
  {
    var n := |name| + |PHANTOM_SUFFIX| - |PHANTOM_SUFFIX|;
    assert (name + PHANTOM_SUFFIX)[n..] == PHANTOM_SUFFIX && (name + PHANTOM_SUFFIX)[..n] == name;
  }

  /** The loop body: nodes on simple paths from the vertex jumped back to up to the port that jumps,
      that port excluded. None of them has a loop edge. */
  ghost predicate BodyIsPlain(arcs: set<Arc>, start: GraphNode, port: GraphNode)
  {
    forall x, a :: OnSimplePath(arcs, start, port, x) && x != port && a in arcs && a.src == x ==> !IsLoopKind(a.kind)
  }

  ghost predicate NestingOk(arcs: set<Arc>, universe: set<GraphNode>)
  {
    forall a :: a in arcs && a.kind == DoWhile && a.dst.InputPort? && Vertex(StripSuffix(a.dst.vertex)) in universe ==>
      BodyIsPlain(arcs, Vertex(StripSuffix(a.dst.vertex)), a.src)
  }

  /** The rule in terms of the specification's own do-while edges. */
  ghost predicate LoopsNotNested(dag: DagSpec)
  {
    forall e :: e in dag.edges && e.kind == DoWhile && Vertex(e.target.vertex) in SpecNodes(dag) ==>
      BodyIsPlain(SpecArcs(dag.edges), Vertex(e.target.vertex), PortNode(e.origin))
  }

  lemma NestingBySpec(dag: DagSpec)
    ensures NestingOk(SpecArcs(dag.edges), SpecNodes(dag)) <==> LoopsNotNested(dag)
  {
    var arcs := SpecArcs(dag.edges);
    forall e | e in dag.edges && e.kind == DoWhile
      ensures PortArc(e) in arcs && StripSuffix(PortArc(e).dst.vertex) == e.target.vertex
    {
      assert PortArc(e) in EdgeArcs(e);
      StripAppended(e.target.vertex);
    }
    if LoopsNotNested(dag) {
      forall a | a in arcs && a.kind == DoWhile && a.dst.InputPort?
          && Vertex(StripSuffix(a.dst.vertex)) in SpecNodes(dag)
        ensures BodyIsPlain(arcs, Vertex(StripSuffix(a.dst.vertex)), a.src)
      {
        var e := ArcOfEdge(dag.edges, a);
        ArcInEdge(e, a);
      }
    }
  }

  /** The output port of `f` lies between the vertex that the do-while edge `e` jumps back to and the port of `e`. */
  ghost predicate InsideLoop(edges: seq<DagEdge>, e: DagEdge, f: DagEdge)
  {
    var port := OutputPort(f.origin.vertex, f.origin.variant, f.origin.port);
    && Reaches(SpecArcs(edges), Vertex(e.target.vertex), port)
    && Reaches(SpecArcs(edges), port, OutputPort(e.origin.vertex, e.origin.variant, e.origin.port))
  }

  /** Only normal and static edges, and `e` itself, leave from inside the loop of `e`. */
  ghost predicate LoopIsPlain(edges: seq<DagEdge>, e: DagEdge)
  {
    forall f :: f in edges && InsideLoop(edges, e, f) ==> f == e || f.kind == Normal || f.kind == Static
  }

  /** A node with a way on is a node of the graph. */
  lemma WalkedFromIsNode(dag: DagSpec, n: GraphNode, w: seq<Arc>, b: GraphNode)
    requires IsWalk(SpecArcs(dag.edges), n, w, b) && w != []
    ensures n in SpecNodes(dag)
  {
    var e := ArcOfEdge(dag.edges, w[0]);
    ArcInEdge(e, w[0]);
    assert n in EdgeNodes(e);
  }

  /** An arc that leaves from between start and port is no loop arc. */
  lemma PlainOnTheWay(arcs: set<Arc>, start: GraphNode, port: GraphNode, a: Arc)
    requires Acyclic(arcs) && BodyIsPlain(arcs, start, port) && start != port
    requires a in arcs && a.src != port && Reaches(arcs, start, a.src) && Reaches(arcs, a.src, port)
    ensures !IsLoopKind(a.kind)
  {
    SimplePathsAreReachability(arcs, start, port, a.src);
  }

  lemma PortArcInSpec(edges: seq<DagEdge>, f: DagEdge)
    requires f in edges
    ensures PortArc(f) in SpecArcs(edges)
  {
    assert PortArc(f) in EdgeArcs(f);
  }

  lemma PlainBodyIsPlainLoop(dag: DagSpec, e: DagEdge, f: DagEdge)
    requires DistinctOrigins(dag.edges) && Acyclic(SpecArcs(dag.edges))
    requires e in dag.edges && f in dag.edges && InsideLoop(dag.edges, e, f)
    requires Vertex(e.target.vertex) in SpecNodes(dag) ==>
               BodyIsPlain(SpecArcs(dag.edges), Vertex(e.target.vertex), PortNode(e.origin))
    ensures f == e || f.kind == Normal || f.kind == Static
  {
    if f.origin == e.origin {
      SameOriginSameEdge(dag.edges, e, f);
    } else {
      var w :| IsWalk(SpecArcs(dag.edges), Vertex(e.target.vertex), w, PortNode(f.origin));
      WalkedFromIsNode(dag, Vertex(e.target.vertex), w, PortNode(f.origin));
      PortArcInSpec(dag.edges, f);
      PlainOnTheWay(SpecArcs(dag.edges), Vertex(e.target.vertex), PortNode(e.origin), PortArc(f));
    }
  }

  lemma PlainLoopIsPlainBody(dag: DagSpec, e: DagEdge, x: GraphNode, a: Arc)
    requires DistinctOrigins(dag.edges) && Acyclic(SpecArcs(dag.edges)) && LoopIsPlain(dag.edges, e)
    requires OnSimplePath(SpecArcs(dag.edges), Vertex(e.target.vertex), PortNode(e.origin), x)
    requires x != PortNode(e.origin)
    requires a in SpecArcs(dag.edges) && a.src == x
    ensures !IsLoopKind(a.kind)
  {
    SimplePathsAreReachability(SpecArcs(dag.edges), Vertex(e.target.vertex), PortNode(e.origin), x);
    var f := ArcOfEdge(dag.edges, a);
    ArcInEdge(f, a);
    if IsLoopKind(a.kind) {
      assert InsideLoop(dag.edges, e, f);
    }
  }

  /** In an acyclic graph the loop bodies can be found by reachability: the rule says that no other loop
      edge leaves from between the vertex jumped back to and the port that jumps. */
  lemma NestingIsReachability(dag: DagSpec)
    requires DistinctOrigins(dag.edges) && Acyclic(SpecArcs(dag.edges))
    ensures LoopsNotNested(dag) <==> forall e :: e in dag.edges && e.kind == DoWhile ==> LoopIsPlain(dag.edges, e)
  {
    if LoopsNotNested(dag) {
      forall e, f | e in dag.edges && e.kind == DoWhile && f in dag.edges && InsideLoop(dag.edges, e, f)
        ensures f == e || f.kind == Normal || f.kind == Static
      {
        PlainBodyIsPlainLoop(dag, e, f);
      }
    }
    if forall e :: e in dag.edges && e.kind == DoWhile ==> LoopIsPlain(dag.edges, e) {
      forall e | e in dag.edges && e.kind == DoWhile
        ensures BodyIsPlain(SpecArcs(dag.edges), Vertex(e.target.vertex), PortNode(e.origin))
      {
        forall x, a | OnSimplePath(SpecArcs(dag.edges), Vertex(e.target.vertex), PortNode(e.origin), x)
            && x != PortNode(e.origin) && a in SpecArcs(dag.edges) && a.src == x
          ensures !IsLoopKind(a.kind)
        {
          PlainLoopIsPlainBody(dag, e, x, a);
        }
      }
    }
  }

  predicate EdgesPlain(g: DiGraph, i: nat)
  {
    forall e :: e in g.edges && e.source == i ==> !IsLoopKind(e.weight)
  }

  lemma EdgesPlainByArcs(g: DiGraph, i: nat)
    requires g.Valid() && i < |g.labels|
    ensures EdgesPlain(g, i) <==> forall a :: a in g.Arcs() && a.src == g.labels[i] ==> !IsLoopKind(a.kind)
  {
    if EdgesPlain(g, i) {
      forall a | a in g.Arcs() && a.src == g.labels[i] ensures !IsLoopKind(a.kind) {
        var e := EdgeOfArc(g, i, a);
      }
    } else {
      var e :| e in g.edges && e.source == i && IsLoopKind(e.weight);
      assert g.ArcOf(e) in g.Arcs();
    }
  }

  /** Checks one loop. */
  method BodyHasNoLoopEdge(g: DiGraph, start: nat, port: nat) returns (ok: bool)
    requires g.Valid() && start < |g.labels| && port < |g.labels|
    ensures ok <==> BodyIsPlain(g.Arcs(), g.labels[start], g.labels[port])
  {
    var nodes := SimplePaths.AllSimplePathNodes(g, start, port);
    var body := nodes - {port};
    PlainByIndex(g, start, port, body);
    return forall i :: i in body ==> EdgesPlain(g, i);
  }

  lemma PlainByIndex(g: DiGraph, start: nat, port: nat, body: set<nat>)
    requires g.Valid() && start < |g.labels| && port < |g.labels|
    requires body <= Cycles.AllIndices(g)
    requires forall i: nat :: i < |g.labels| ==>
      (i in body <==> i != port && OnSimplePath(g.Arcs(), g.labels[start], g.labels[port], g.labels[i]))
    ensures (forall i :: i in body ==> EdgesPlain(g, i)) <==> BodyIsPlain(g.Arcs(), g.labels[start], g.labels[port])
  {
    if forall i :: i in body ==> EdgesPlain(g, i) {
      forall x, a | OnSimplePath(g.Arcs(), g.labels[start], g.labels[port], x) && x != g.labels[port]
          && a in g.Arcs() && a.src == x
        ensures !IsLoopKind(a.kind)
      {
        var e :| e in g.edges && g.ArcOf(e) == a;
        assert e.source in body;
      }
    }
    if BodyIsPlain(g.Arcs(), g.labels[start], g.labels[port]) {
      forall i | i in body ensures EdgesPlain(g, i) {
        EdgesPlainByArcs(g, i);
        SimplePaths.LabelsIdentifyBoth(g, i, port);
      }
    }
  }

  /** The vertex a do-while edge jumps back to, if the graph has it. */
  method FindOriginal(g: DiGraph, target: nat) returns (found: bool, i: nat)
    requires g.Valid() && target < |g.labels|
    ensures found ==> i < |g.labels| && g.labels[target].InputPort?
    ensures found ==> g.labels[i] == Vertex(StripSuffix(g.labels[target].vertex))
    ensures !found ==> !g.labels[target].InputPort? || Vertex(StripSuffix(g.labels[target].vertex)) !in g.Nodes()
  {
    i := 0;
    while i < |g.labels|
      invariant i <= |g.labels|
      invariant g.labels[target].InputPort? ==> Vertex(StripSuffix(g.labels[target].vertex)) !in g.labels[..i]
    {
      if g.labels[target].InputPort? && g.labels[i] == Vertex(StripSuffix(g.labels[target].vertex)) {
        return true, i;
      }
      i := i + 1;
    }
    return false, 0;
  }

  method ValidateDoWhileNesting(g: DiGraph) returns (ok: bool)
    requires g.Valid()
    ensures ok <==> NestingOk(g.Arcs(), g.Nodes())
  {
    for k := 0 to |g.edges|
      invariant forall j :: 0 <= j < k ==> LoopOk(g, g.edges[j])
    {
      var e := g.edges[k];
      if e.weight == DoWhile {
        var found, start := FindOriginal(g, e.target);
        if found {
          assert g.labels[start] in g.Nodes();
          ok := BodyHasNoLoopEdge(g, start, e.source);
          if !ok {
            assert !LoopOk(g, e);
            NestingByEdges(g);
            return;
          }
        }
      }
    }
    NestingByEdges(g);
    return true;
  }

  ghost predicate LoopOk(g: DiGraph, e: IndexEdge)
    requires g.Valid() && e in g.edges
  {
    var a := g.ArcOf(e);
    a.kind == DoWhile && a.dst.InputPort? && Vertex(StripSuffix(a.dst.vertex)) in g.Nodes() ==>
      BodyIsPlain(g.Arcs(), Vertex(StripSuffix(a.dst.vertex)), a.src)
  }

  lemma NestingByEdges(g: DiGraph)
    requires g.Valid()
    ensures NestingOk(g.Arcs(), g.Nodes()) <==> forall j :: 0 <= j < |g.edges| ==> LoopOk(g, g.edges[j])
  {
    if forall j :: 0 <= j < |g.edges| ==> LoopOk(g, g.edges[j]) {
      forall a | a in g.Arcs() && a.kind == DoWhile && a.dst.InputPort?
          && Vertex(StripSuffix(a.dst.vertex)) in g.Nodes()
        ensures BodyIsPlain(g.Arcs(), Vertex(StripSuffix(a.dst.vertex)), a.src)
      {
        var e :| e in g.edges && g.ArcOf(e) == a;
        var j :| 0 <= j < |g.edges| && g.edges[j] == e;
        assert LoopOk(g, g.edges[j]);
      }
    }
  }
}
