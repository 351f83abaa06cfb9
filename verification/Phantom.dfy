/** Phantom rewriting: when the compiled graph is acyclic, in terms of the specification's vertices. */
module Phantom {
  import opened Walks
  import opened DagSpecs
  import Validator

  /** One arc per edge, between vertices only. */
  function VertexArc(e: DagEdge): Arc
  {
    Arc(OriginNode(e), e.kind, DestinationNode(e))
  }

  /** The vertex-level graph, with do-while edges redirected to phantoms. */
  ghost function VertexArcs(edges: seq<DagEdge>): set<Arc>
  {
    set e | e in edges :: VertexArc(e)
  }

  /** The vertex-level graph of the edges that are not do-while. */
  ghost function ForwardArcs(edges: seq<DagEdge>): set<Arc>
  {
    set e | e in edges && e.kind != DoWhile :: Arc(Vertex(e.origin.vertex), e.kind, Vertex(e.target.vertex))
  }

  /** The four arcs of one edge, in walking order. */
  function EdgeWalk(e: DagEdge): seq<Arc>
  {
    [Arc(OriginNode(e), Normal, VariantNode(e)), Arc(VariantNode(e), Normal, PortNode(e.origin)),
     PortArc(e), Arc(InputNode(e), Normal, DestinationNode(e))]
  }

  lemma EdgeWalkIsWalk(edges: seq<DagEdge>, e: DagEdge)
    requires e in edges
    ensures IsWalk(SpecArcs(edges), OriginNode(e), EdgeWalk(e), DestinationNode(e))
  {
    var w := EdgeWalk(e);
    assert forall k :: 0 <= k < 4 ==> w[k] in EdgeArcs(e);
    assert IsWalk(SpecArcs(edges), DestinationNode(e), [], DestinationNode(e));
    assert w[3..] == [w[3]] && w[2..] == [w[2]] + w[3..] && w[1..] == [w[1]] + w[2..] && w == [w[0]] + w[1..];
    assert IsWalk(SpecArcs(edges), InputNode(e), w[3..], DestinationNode(e));
    assert IsWalk(SpecArcs(edges), PortNode(e.origin), w[2..], DestinationNode(e));
    assert IsWalk(SpecArcs(edges), VariantNode(e), w[1..], DestinationNode(e));
  }

  /** A walk between vertices expands to a walk four times as long in the compiled graph. */
  lemma {:induction false} ExpandWalk(edges: seq<DagEdge>, a: GraphNode, w: seq<Arc>,
      b: GraphNode) returns (v: seq<Arc>)
    requires IsWalk(VertexArcs(edges), a, w, b)
    ensures IsWalk(SpecArcs(edges), a, v, b) && |v| == 4 * |w|
    decreases |w|
  {
    if w == [] {
      v := [];
    } else {
      var e :| e in edges && VertexArc(e) == w[0];
      EdgeWalkIsWalk(edges, e);
      var rest := ExpandWalk(edges, w[0].dst, w[1..], b);
      WalkConcat(SpecArcs(edges), a, EdgeWalk(e), w[0].dst, rest, b);
      v := EdgeWalk(e) + rest;
    }
  }

  lemma StepFrom(edges: seq<DagEdge>, a: GraphNode, v: seq<Arc>, k: nat, b: GraphNode)
    requires k < |v| && IsWalk(SpecArcs(edges), a, v[k..], b)
    ensures v[k] in SpecArcs(edges) && v[k].src == a && LayeredArc(v[k])
    ensures IsWalk(SpecArcs(edges), v[k].dst, v[k + 1..], b)
  {
    assert v[k..][0] == v[k] && v[k..][1..] == v[k + 1..];
    var e := ArcOfEdge(edges, v[k]);
    ArcInEdge(e, v[k]);
  }

  /** A walk that has not arrived goes on. */
  lemma NotYet(edges: seq<DagEdge>, a: GraphNode, v: seq<Arc>, k: nat, b: GraphNode)
    requires k <= |v| && IsWalk(SpecArcs(edges), a, v[k..], b) && a != b
    ensures k < |v|
  {
  }

  /** From a vertex, the compiled graph can only be walked edge by edge. */
  lemma FirstEdge(edges: seq<DagEdge>, a: GraphNode, v: seq<Arc>, b: GraphNode) returns (e: DagEdge)
    requires IsWalk(SpecArcs(edges), a, v, b) && a.Vertex? && b.Vertex? && v != []
    ensures |v| >= 4 && e in edges && VertexArc(e).src == a
    ensures v[0].kind == v[1].kind == v[3].kind == Normal && v[2].kind == e.kind
    ensures IsWalk(SpecArcs(edges), VertexArc(e).dst, v[4..], b)
  {
    assert v[0..] == v;
    StepFrom(edges, a, v, 0, b);
    NotYet(edges, v[0].dst, v, 1, b);
    StepFrom(edges, v[0].dst, v, 1, b);
    NotYet(edges, v[1].dst, v, 2, b);
    StepFrom(edges, v[1].dst, v, 2, b);
    NotYet(edges, v[2].dst, v, 3, b);
    StepFrom(edges, v[2].dst, v, 3, b);
    e := ArcOfEdge(edges, v[2]);
    ArcInEdge(e, v[2]);
  }

  lemma {:induction false} ContractWalk(edges: seq<DagEdge>, a: GraphNode, v: seq<Arc>,
      b: GraphNode) returns (w: seq<Arc>)
    requires DistinctOrigins(edges)
    requires IsWalk(SpecArcs(edges), a, v, b) && a.Vertex? && b.Vertex?
    ensures IsWalk(VertexArcs(edges), a, w, b) && |v| == 4 * |w|
    decreases |v|
  {
    if v == [] {
      w := [];
    } else {
      var e := FirstEdge(edges, a, v, b);
      var rest := ContractWalk(edges, VertexArc(e).dst, v[4..], b);
      w := [VertexArc(e)] + rest;
      assert w[1..] == rest;
    }
  }

  /** How many arcs a node is away from the next vertex. */
  function ToVertex(n: GraphNode): nat
  {
    match n
    case Vertex(_) => 0
    case InputPort(_, _) => 1
    case OutputPort(_, _, _) => 2
    case OutputVariant(_, _) => 3
  }

  /** Every cycle of the compiled graph passes through a vertex. */
  lemma {:induction false} CycleThroughVertex(edges: seq<DagEdge>, n: GraphNode, v: seq<Arc>) returns (m: GraphNode,
      u: seq<Arc>)
    requires DistinctOrigins(edges) && IsWalk(SpecArcs(edges), n, v, n) && v != []
    ensures m.Vertex? && IsWalk(SpecArcs(edges), m, u, m) && u != []
    decreases ToVertex(n)
  {
    m, u := n, v;
    if !n.Vertex? {
      SpecIsFourLayered(edges);
      assert LayeredArc(v[0]);
      RotateCycle(SpecArcs(edges), n, v);
      m, u := CycleThroughVertex(edges, v[0].dst, v[1..] + [v[0]]);
    }
  }

  /** The compiled graph has a cycle exactly when the vertex-level graph with phantoms has one. */
  lemma CompiledAcyclicByVertices(edges: seq<DagEdge>)
    requires DistinctOrigins(edges)
    ensures Acyclic(SpecArcs(edges)) <==> Acyclic(VertexArcs(edges))
  {
    if Acyclic(SpecArcs(edges)) {
      forall n, w | IsWalk(VertexArcs(edges), n, w, n) ensures w == [] {
        var v := ExpandWalk(edges, n, w, n);
      }
    }
    if Acyclic(VertexArcs(edges)) {
      forall n, v | IsWalk(SpecArcs(edges), n, v, n) ensures v == [] {
        if v != [] {
          var m, u := CycleThroughVertex(edges, n, v);
          var w := ContractWalk(edges, m, u, m);
          assert false;
        }
      }
    }
  }

  /** No edge leaves a phantom. */
  predicate PhantomsFresh(edges: seq<DagEdge>)
  {
    forall e, f :: e in edges && f in edges && f.kind == DoWhile ==> e.origin.vertex != DestinationName(f)
  }

  predicate EndsInSuffix(name: string)
  {
    |name| >= 9 && name[|name| - 9..] == "-do-while"
  }

  /** It is enough that no vertex name ends in the phantom suffix. */
  lemma PlainNamesAreFresh(edges: seq<DagEdge>)
    requires forall e :: e in edges ==> !EndsInSuffix(e.origin.vertex)
    ensures PhantomsFresh(edges)
  {
    forall e, f | e in edges && f in edges && f.kind == DoWhile
      ensures e.origin.vertex != DestinationName(f)
    {
      var name := DestinationName(f);
      assert name[|name| - 9..] == "-do-while";
    }
  }

  lemma {:induction false} WalkStaysForward(edges: seq<DagEdge>, a: GraphNode, w: seq<Arc>, b: GraphNode)
    requires PhantomsFresh(edges) && IsWalk(VertexArcs(edges), a, w, b)
    requires exists e :: e in edges && OriginNode(e) == b
    ensures IsWalk(ForwardArcs(edges), a, w, b)
    decreases |w|
  {
    if w != [] {
      WalkStaysForward(edges, w[0].dst, w[1..], b);
      var f :| f in edges && VertexArc(f) == w[0];
      if |w| == 1 {
        var e :| e in edges && OriginNode(e) == b;
        assert w[1..] == [];
        assert f.kind != DoWhile;
      } else {
        assert w[1..][0] == w[1] && w[1].src == w[0].dst;
        var e :| e in edges && VertexArc(e) == w[1];
        assert f.kind != DoWhile;
      }
    }
  }

  /** Redirecting do-while edges to phantoms removes exactly those edges from the cycle check. */
  lemma PhantomRewritingIsFaithful(edges: seq<DagEdge>)
    requires DistinctOrigins(edges) && PhantomsFresh(edges)
    ensures Acyclic(SpecArcs(edges)) <==> Acyclic(ForwardArcs(edges))
  {
    CompiledAcyclicByVertices(edges);
    if Acyclic(VertexArcs(edges)) {
      CompiledCyclesCoverForward(edges);
    }
    if Acyclic(ForwardArcs(edges)) {
      forall n, w: seq<Arc> | IsWalk(VertexArcs(edges), n, w, n) ensures w == [] {
        if w != [] {
          var e :| e in edges && VertexArc(e) == w[0];
          WalkStaysForward(edges, n, w, n);
        }
      }
    }
  }

  /** One direction needs no condition on names: a forward cycle is always found. */
  lemma CompiledCyclesCoverForward(edges: seq<DagEdge>)
    requires DistinctOrigins(edges) && Acyclic(SpecArcs(edges))
    ensures Acyclic(ForwardArcs(edges))
  {
    CompiledAcyclicByVertices(edges);
    forall n, w | IsWalk(ForwardArcs(edges), n, w, n) ensures w == [] {
      WalkMonotone(ForwardArcs(edges), VertexArcs(edges), n, w, n);
    }
  }

  /** The copy that a do-while edge is redirected to leads back to the vertex that jumps. */
  ghost predicate PhantomLeadsBack(edges: seq<DagEdge>, f: DagEdge)
  {
    f in edges && f.kind == DoWhile && Reaches(VertexArcs(edges), DestinationNode(f), OriginNode(f))
  }

  /** A walk either keeps to forward edges or crosses a redirected one. */
  lemma {:induction false} ForwardOrCrossing(edges: seq<DagEdge>, a: GraphNode, w: seq<Arc>, b: GraphNode)
    requires IsWalk(VertexArcs(edges), a, w, b)
    ensures IsWalk(ForwardArcs(edges), a, w, b) ||
            exists f :: f in edges && f.kind == DoWhile
              && Reaches(VertexArcs(edges), a, OriginNode(f)) && Reaches(VertexArcs(edges), DestinationNode(f), b)
    decreases |w|
  {
    if w != [] {
      var e :| e in edges && VertexArc(e) == w[0];
      ForwardOrCrossing(edges, w[0].dst, w[1..], b);
      if e.kind == DoWhile {
        ReachesSelf(VertexArcs(edges), a);
        assert IsWalk(VertexArcs(edges), DestinationNode(e), w[1..], b);
      } else if !IsWalk(ForwardArcs(edges), w[0].dst, w[1..], b) {
        var f :| f in edges && f.kind == DoWhile
          && Reaches(VertexArcs(edges), w[0].dst, OriginNode(f)) && Reaches(VertexArcs(edges), DestinationNode(f), b);
        ReachesStep(VertexArcs(edges), w[0], OriginNode(f));
      }
    }
  }

  /** Whatever the names: the compiled graph is acyclic exactly when the forward edges are and no phantom
      leads back to its jump. The rewriting is faithful exactly as long as the second part holds or the
      forward edges close a cycle anyway. */
  lemma PhantomCyclesExactly(edges: seq<DagEdge>)
    requires DistinctOrigins(edges)
    ensures Acyclic(SpecArcs(edges)) <==> Acyclic(ForwardArcs(edges)) && forall f :: !PhantomLeadsBack(edges, f)
    ensures (Acyclic(SpecArcs(edges)) <==> Acyclic(ForwardArcs(edges))) <==>
            (Acyclic(ForwardArcs(edges)) ==> forall f :: !PhantomLeadsBack(edges, f))
  {
    CompiledAcyclicByVertices(edges);
    if Acyclic(SpecArcs(edges)) {
      CompiledCyclesCoverForward(edges);
      forall f ensures !PhantomLeadsBack(edges, f) {
        if PhantomLeadsBack(edges, f) {
          PhantomClosesCycle(edges, f);
        }
      }
    }
    if Acyclic(ForwardArcs(edges)) && forall f :: !PhantomLeadsBack(edges, f) {
      forall n, w | IsWalk(VertexArcs(edges), n, w, n) ensures w == [] {
        ForwardOrCrossing(edges, n, w, n);
        if !IsWalk(ForwardArcs(edges), n, w, n) {
          CrossingLeadsBack(edges, n);
          assert false;
        }
      }
    }
  }

  lemma CrossingLeadsBack(edges: seq<DagEdge>, n: GraphNode)
    requires exists f :: f in edges && f.kind == DoWhile
               && Reaches(VertexArcs(edges), n, OriginNode(f)) && Reaches(VertexArcs(edges), DestinationNode(f), n)
    ensures exists f :: PhantomLeadsBack(edges, f)
  {
    var f :| f in edges && f.kind == DoWhile
      && Reaches(VertexArcs(edges), n, OriginNode(f)) && Reaches(VertexArcs(edges), DestinationNode(f), n);
    ReachesTrans(VertexArcs(edges), DestinationNode(f), n, OriginNode(f));
    assert PhantomLeadsBack(edges, f);
  }

  lemma PhantomClosesCycle(edges: seq<DagEdge>, f: DagEdge)
    requires PhantomLeadsBack(edges, f)
    ensures !Acyclic(VertexArcs(edges))
  {
    var w :| IsWalk(VertexArcs(edges), DestinationNode(f), w, OriginNode(f));
    assert VertexArc(f) in VertexArcs(edges);
    assert ([VertexArc(f)] + w)[1..] == w;
    assert IsWalk(VertexArcs(edges), OriginNode(f), [VertexArc(f)] + w, OriginNode(f));
  }

  /** A loop at `a`, left by `c`, that jumps to `b`; the phantom of `b` is also a vertex and leads to `a`. */
  function CollidingDag(a: string, b: string, c: string): DagSpec
  {
    DagSpec(
      [DagVertex(a, [c]), DagVertex(c, []), DagVertex(b + PHANTOM_SUFFIX, [])],
      [DagEdge(OutputRef(a, a, a), InputRef(b, a), DoWhile),
       DagEdge(OutputRef(a, c, a), InputRef(c, a), Break),
       DagEdge(OutputRef(b + PHANTOM_SUFFIX, a, a), InputRef(a, a), Normal)],
      [], [], [])
  }

  /** The names of the vertices differ. */
  predicate CollidingNames(a: string, b: string, c: string)
  {
    a != c && a != b + PHANTOM_SUFFIX && c != b + PHANTOM_SUFFIX
  }

  /** A vertex that carries a phantom's name: the workflow obeys every structural rule and its forward edges
      close no cycle, but it is refused as cyclic. */
  lemma CollidingNameBreaksFaithfulness(a: string, b: string, c: string)
    requires CollidingNames(a, b, c)
    ensures StructureOk(CollidingDag(a, b, c)) && !Validator.Accepts(CollidingDag(a, b, c))
    ensures Acyclic(ForwardArcs(CollidingDag(a, b, c).edges)) && !Acyclic(SpecArcs(CollidingDag(a, b, c).edges))
  {
    CollidingIsStructured(a, b, c);
    CollidingForwardAcyclic(a, b, c);
    CollidingLeadsBack(CollidingDag(a, b, c).edges);
    PhantomCyclesExactly(CollidingDag(a, b, c).edges);
  }

  lemma CollidingLeadsBack(edges: seq<DagEdge>)
    requires |edges| == 3 && edges[0].kind == DoWhile && edges[2].kind != DoWhile
    requires edges[2].origin.vertex == DestinationName(edges[0]) && edges[2].target.vertex == edges[0].origin.vertex
    ensures PhantomLeadsBack(edges, edges[0])
  {
    var x := VertexArc(edges[2]);
    assert edges[2] in edges;
    assert x in VertexArcs(edges);
    ReachesSelf(VertexArcs(edges), x.dst);
    ReachesStep(VertexArcs(edges), x, x.dst);
  }

  lemma CollidingForwardAcyclic(a: string, b: string, c: string)
    requires CollidingNames(a, b, c)
    ensures Acyclic(ForwardArcs(CollidingDag(a, b, c).edges))
  {
    var rank := (n: GraphNode) => if n == Vertex(b + PHANTOM_SUFFIX) then 0 else if n == Vertex(a) then 1 else 2;
    RankedIsAcyclic(ForwardArcs(CollidingDag(a, b, c).edges), rank);
  }

  lemma CollidingIsStructured(a: string, b: string, c: string)
    requires CollidingNames(a, b, c)
    ensures StructureOk(CollidingDag(a, b, c))
  {
    CollidingHasEntry(CollidingDag(a, b, c));
    CollidingIsConnected(a, b, c);
    CollidingPortsFree(a, b, c);
    CollidingLoopIsPaired(CollidingDag(a, b, c).edges);
    CollidingIsDistinct(a, b, c);
    NothingMoreToCheck(CollidingDag(a, b, c));
  }

  lemma CollidingIsDistinct(a: string, b: string, c: string)
    requires CollidingNames(a, b, c)
    ensures DistinctOrigins(CollidingDag(a, b, c).edges) && DistinctNames(CollidingDag(a, b, c).vertices)
  {
  }

  lemma NothingMoreToCheck(dag: DagSpec)
    requires dag.entryGroups == [] && dag.defaultValues == [] && dag.outputs == []
    ensures GroupsDeclared(dag) && DefaultsFree(dag) && OutputsTerminal(dag)
  {
  }

  lemma CollidingHasEntry(dag: DagSpec)
    requires dag.entryGroups == [] && dag.vertices != [] && dag.vertices[0].entryPorts != []
    ensures EntryPairs(dag) != {}
  {
    assert (Vertex(dag.vertices[0].name), DEFAULT_ENTRY_GROUP) in EntryPairs(dag);
  }

  lemma CollidingIsConnected(a: string, b: string, c: string)
    ensures VerticesConnected(CollidingDag(a, b, c))
  {
    var edges := CollidingDag(a, b, c).edges;
    assert edges[0] in edges && edges[1] in edges && edges[2] in edges;
    assert OriginNode(edges[0]) in EdgeNodes(edges[0]);
    assert DestinationNode(edges[1]) in EdgeNodes(edges[1]);
    assert OriginNode(edges[2]) in EdgeNodes(edges[2]);
  }

  /** If all edges lead to ports of one name, that is the only name of input ports. */
  lemma AllLeadTo(edges: seq<DagEdge>, port: string)
    requires forall e :: e in edges ==> e.target.port == port
    ensures forall n :: n in NodesOfEdges(edges) && n.InputPort? ==> n.name == port
  {
  }

  lemma CollidingPortsFree(a: string, b: string, c: string)
    requires a != c
    ensures EntryPortsFree(CollidingDag(a, b, c))
  {
    var dag := CollidingDag(a, b, c);
    AllLeadTo(dag.edges, a);
  }

  lemma CollidingLoopIsPaired(edges: seq<DagEdge>)
    requires |edges| == 3 && edges[0].kind == DoWhile && edges[1].kind == Break && edges[2].kind == Normal
    requires edges[0].origin.vertex == edges[1].origin.vertex && edges[0].origin.variant != edges[1].origin.variant
    ensures LoopsPaired(edges) && LoopsBranch(edges)
  {
    assert edges[0] in edges && edges[1] in edges;
    assert LeavesBy(edges, edges[0].origin.vertex, Break) && LeavesBy(edges, edges[0].origin.vertex, DoWhile);
    forall e | e in edges ensures e == edges[0] || e == edges[1] || e == edges[2] {
    }
  }
}
