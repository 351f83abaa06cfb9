/** The workflow specification, what its edges mean as arcs between labels, and the structural
    rules it must obey before any graph analysis is run. */
module DagSpecs {
  import opened Walks

  datatype OutputRef = OutputRef(vertex: string, variant: string, port: string)
  datatype InputRef = InputRef(vertex: string, port: string)
  datatype DagEdge = DagEdge(origin: OutputRef, target: InputRef, kind: EdgeKind)
  datatype DagVertex = DagVertex(name: string, entryPorts: seq<string>)
  datatype EntryGroup = EntryGroup(name: string, vertices: seq<string>)
  datatype DagSpec = DagSpec(
    vertices: seq<DagVertex>,
    edges: seq<DagEdge>,
    defaultValues: seq<InputRef>,
    entryGroups: seq<EntryGroup>,
    outputs: seq<OutputRef>)

  const PHANTOM_SUFFIX: string := "-do-while"
  const DEFAULT_ENTRY_GROUP: string := "_default_group"

  // ---------------------------------------------------------------- edges as arcs

  /** A do-while edge leads to a phantom copy of its destination, so that it closes no cycle. */
  function DestinationName(e: DagEdge): string
  {
    if e.kind.DoWhile? then e.target.vertex + PHANTOM_SUFFIX else e.target.vertex
  }

  function OriginNode(e: DagEdge): GraphNode { Vertex(e.origin.vertex) }
  function VariantNode(e: DagEdge): GraphNode { OutputVariant(e.origin.vertex, e.origin.variant) }
  function PortNode(o: OutputRef): GraphNode { OutputPort(o.vertex, o.variant, o.port) }
  function InputNode(e: DagEdge): GraphNode { InputPort(DestinationName(e), e.target.port) }
  function DestinationNode(e: DagEdge): GraphNode { Vertex(DestinationName(e)) }

  function PortArc(e: DagEdge): Arc { Arc(PortNode(e.origin), e.kind, InputNode(e)) }

  function EdgeArcs(e: DagEdge): set<Arc>
  {
    { Arc(OriginNode(e), Normal, VariantNode(e)),
      Arc(VariantNode(e), Normal, PortNode(e.origin)),
      PortArc(e),
      Arc(InputNode(e), Normal, DestinationNode(e)) }
  }

  function EdgeNodes(e: DagEdge): set<GraphNode>
  {
    { OriginNode(e), VariantNode(e), PortNode(e.origin), InputNode(e), DestinationNode(e) }
  }

  ghost function SpecArcs(edges: seq<DagEdge>): set<Arc>
  {
    set e, x | e in edges && x in EdgeArcs(e) :: x
  }

  ghost function NodesOfEdges(edges: seq<DagEdge>): set<GraphNode>
  {
    set e, n | e in edges && n in EdgeNodes(e) :: n
  }

  /** A lone vertex without edges is a node too. */
  ghost function SpecNodes(dag: DagSpec): set<GraphNode>
  {
    NodesOfEdges(dag.edges) +
    (if dag.edges == [] && |dag.vertices| == 1 then {Vertex(dag.vertices[0].name)} else {})
  }

  // ---------------------------------------------------------------- structural rules

  /** Which vertices start the workflow, and in which group. */
  ghost function EntryPairs(dag: DagSpec): set<(GraphNode, string)>
  {
    if dag.entryGroups != [] then
      set g, v | g in dag.entryGroups && v in g.vertices :: (Vertex(v), g.name)
    else
      set v | v in dag.vertices && v.entryPorts != [] :: (Vertex(v.name), DEFAULT_ENTRY_GROUP)
  }

  predicate Declared(dag: DagSpec, name: string)
  {
    exists v :: v in dag.vertices && v.name == name
  }

  predicate GroupsDeclared(dag: DagSpec)
  {
    forall g, v :: g in dag.entryGroups && v in g.vertices ==> Declared(dag, v)
  }

  predicate DistinctOrigins(edges: seq<DagEdge>)
  {
    forall i, j :: 0 <= i < j < |edges| ==> edges[i].origin != edges[j].origin
  }

  predicate DistinctNames(vertices: seq<DagVertex>)
  {
    forall i, j :: 0 <= i < j < |vertices| ==> vertices[i].name != vertices[j].name
  }

  predicate Distinct(s: seq<string>)
  {
    forall i, j :: 0 <= i < j < |s| ==> s[i] != s[j]
  }

  ghost predicate VerticesConnected(dag: DagSpec)
  {
    forall v :: v in dag.vertices ==> Vertex(v.name) in SpecNodes(dag)
  }

  ghost function EntryPortNodes(vertices: seq<DagVertex>): set<GraphNode>
  {
    set v, p | v in vertices && p in v.entryPorts :: InputPort(v.name, p)
  }

  ghost predicate EntryPortsFree(dag: DagSpec)
  {
    && EntryPortNodes(dag.vertices) !! SpecNodes(dag)
    && forall v :: v in dag.vertices ==> Distinct(v.entryPorts)
  }

  ghost predicate DefaultsFree(dag: DagSpec)
  {
    forall d :: d in dag.defaultValues ==>
      InputPort(d.vertex, d.port) !in SpecNodes(dag) + EntryPortNodes(dag.vertices)
  }

  predicate HasOutgoing(dag: DagSpec, name: string)
  {
    exists e :: e in dag.edges && e.origin.vertex == name
  }

  predicate HasOutputs(dag: DagSpec, name: string)
  {
    exists o :: o in dag.outputs && o.vertex == name
  }

  predicate OutputsTerminal(dag: DagSpec)
  {
    forall v :: v in dag.vertices ==> !(HasOutputs(dag, v.name) && HasOutgoing(dag, v.name))
  }

  predicate LeavesBy(edges: seq<DagEdge>, vertex: string, kind: EdgeKind)
  {
    exists e :: e in edges && e.kind == kind && e.origin.vertex == vertex
  }

  predicate LoopsPaired(edges: seq<DagEdge>)
  {
    forall e :: e in edges ==>
      (e.kind == DoWhile ==> LeavesBy(edges, e.origin.vertex, Break)) &&
      (e.kind == Break ==> LeavesBy(edges, e.origin.vertex, DoWhile))
  }

  predicate LoopsBranch(edges: seq<DagEdge>)
  {
    forall e, f :: e in edges && f in edges && e.kind == DoWhile && f.kind == Break ==>
      VariantNode(e) != VariantNode(f)
  }

  ghost predicate StructureOk(dag: DagSpec)
  {
    && GroupsDeclared(dag)
    && EntryPairs(dag) != {}
    && DistinctOrigins(dag.edges)
    && VerticesConnected(dag)
    && DistinctNames(dag.vertices)
    && EntryPortsFree(dag)
    && DefaultsFree(dag)
    && OutputsTerminal(dag)
    && LoopsPaired(dag.edges)
    && LoopsBranch(dag.edges)
  }

  // ---------------------------------------------------------------- facts about the arcs

  lemma SpecArcsSnoc(edges: seq<DagEdge>, e: DagEdge)
    ensures SpecArcs(edges + [e]) == SpecArcs(edges) + EdgeArcs(e)
    ensures NodesOfEdges(edges + [e]) == NodesOfEdges(edges) + EdgeNodes(e)
  {
    assert forall f :: f in edges + [e] <==> f in edges || f == e;
  }

  /** Arcs join consecutive layers, agree on the vertex they belong to, and only port arcs carry a kind. */
  ghost predicate Layered(arcs: set<Arc>)
  {
    forall x :: x in arcs ==> LayeredArc(x)
  }

  /** An output or input port has one way on. */
  ghost predicate PortsLeadOneWay(arcs: set<Arc>)
  {
    forall x, y :: x in arcs && y in arcs && x.src == y.src && (x.src.OutputPort? || x.src.InputPort?) ==> x == y
  }

  /** The four-layer shape of an arc set. */
  ghost predicate FourLayered(arcs: set<Arc>)
  {
    Layered(arcs) && PortsLeadOneWay(arcs)
  }

  predicate LayeredArc(x: Arc)
  {
    match x.src
    case Vertex(n) => x.kind == Normal && x.dst.OutputVariant? && x.dst.vertex == n
    case OutputVariant(v, n) => x.kind == Normal && x.dst.OutputPort? && x.dst.vertex == v && x.dst.variant == n
    case OutputPort(_, _, _) => x.dst.InputPort?
    case InputPort(v, _) => x.kind == Normal && x.dst == Vertex(v)
  }

  lemma ArcOfEdge(edges: seq<DagEdge>, x: Arc) returns (e: DagEdge)
    requires x in SpecArcs(edges)
    ensures e in edges && x in EdgeArcs(e)
  {
    e :| e in edges && x in EdgeArcs(e);
  }

  lemma SameOriginSameEdge(edges: seq<DagEdge>, e: DagEdge, f: DagEdge)
    requires DistinctOrigins(edges) && e in edges && f in edges && e.origin == f.origin
    ensures e == f
  {
    var i :| 0 <= i < |edges| && edges[i] == e;
    var j :| 0 <= j < |edges| && edges[j] == f;
    assert !(i < j) && !(j < i);
  }

  /** The arcs of one edge, one per source layer. */
  lemma ArcInEdge(e: DagEdge, x: Arc)
    requires x in EdgeArcs(e)
    ensures LayeredArc(x)
    ensures x.src.Vertex? ==> x == Arc(OriginNode(e), Normal, VariantNode(e))
    ensures x.src.OutputVariant? ==> x == Arc(VariantNode(e), Normal, PortNode(e.origin))
    ensures x.src.OutputPort? ==> x == PortArc(e)
    ensures x.src.InputPort? ==> x == Arc(InputNode(e), Normal, DestinationNode(e))
  {
  }

  lemma OneWayOn(edges: seq<DagEdge>, x: Arc, y: Arc)
    requires DistinctOrigins(edges) && x in SpecArcs(edges) && y in SpecArcs(edges)
    requires x.src == y.src && (x.src.OutputPort? || x.src.InputPort?)
    ensures x == y
  {
    var e := ArcOfEdge(edges, x);
    var f := ArcOfEdge(edges, y);
    ArcInEdge(e, x);
    ArcInEdge(f, y);
    if x.src.OutputPort? {
      SameOriginSameEdge(edges, e, f);
    }
  }

  lemma SpecIsFourLayered(edges: seq<DagEdge>)
    requires DistinctOrigins(edges)
    ensures FourLayered(SpecArcs(edges))
  {
    var arcs := SpecArcs(edges);
    forall x | x in arcs ensures LayeredArc(x) {
      var e := ArcOfEdge(edges, x);
      ArcInEdge(e, x);
    }
    forall x, y | x in arcs && y in arcs && x.src == y.src && (x.src.OutputPort? || x.src.InputPort?)
      ensures x == y
    {
      OneWayOn(edges, x, y);
    }
  }

  /** The four arcs of an edge, in terms of the edge's own fields. */
  lemma SpecArcsByField(edges: seq<DagEdge>, x: Arc)
    ensures x in SpecArcs(edges) <==> exists e ::
      e in edges &&
      var landing := if e.kind == DoWhile then e.target.vertex + "-do-while" else e.target.vertex;
      x in {
        Arc(Vertex(e.origin.vertex), Normal, OutputVariant(e.origin.vertex, e.origin.variant)),
        Arc(OutputVariant(e.origin.vertex, e.origin.variant), Normal,
            OutputPort(e.origin.vertex, e.origin.variant, e.origin.port)),
        Arc(OutputPort(e.origin.vertex, e.origin.variant, e.origin.port), e.kind,
            InputPort(landing, e.target.port)),
        Arc(InputPort(landing, e.target.port), Normal, Vertex(landing))}
  {
    forall e | e in edges && x in EdgeArcs(e) ensures x in SpecArcs(edges) {
    }
    if x in SpecArcs(edges) {
      var e := ArcOfEdge(edges, x);
      ArcInEdge(e, x);
    }
  }

  lemma EdgeNodeEndsArc(e: DagEdge, n: GraphNode) returns (x: Arc)
    requires n in EdgeNodes(e)
    ensures x in EdgeArcs(e) && (x.src == n || x.dst == n)
  {
    x := if n == OriginNode(e) || n == VariantNode(e) then Arc(OriginNode(e), Normal, VariantNode(e))
         else if n == PortNode(e.origin) then PortArc(e)
         else Arc(InputNode(e), Normal, DestinationNode(e));
  }

  lemma ArcEndsAreEdgeNodes(e: DagEdge, x: Arc)
    requires x in EdgeArcs(e)
    ensures x.src in EdgeNodes(e) && x.dst in EdgeNodes(e)
  {
  }

  /** The nodes are the ends of the arcs. */
  lemma NodesAreArcEnds(edges: seq<DagEdge>, n: GraphNode)
    ensures n in NodesOfEdges(edges) <==> exists x :: x in SpecArcs(edges) && (x.src == n || x.dst == n)
  {
    if e :| e in edges && n in EdgeNodes(e) {
      var x := EdgeNodeEndsArc(e, n);
    }
    if x :| x in SpecArcs(edges) && (x.src == n || x.dst == n) {
      var e := ArcOfEdge(edges, x);
      ArcEndsAreEdgeNodes(e, x);
    }
  }

  /** Edges correspond one to one with the arcs that leave an output port, and such an arc carries the edge's
      own kind. */
  lemma EdgesArePortArcs(edges: seq<DagEdge>, x: Arc)
    requires DistinctOrigins(edges) && x.src.OutputPort?
    ensures x in SpecArcs(edges) <==> exists e :: e in edges && IsPortArc(e, x)
    ensures forall e, f :: e in edges && f in edges && IsPortArc(e, x) && IsPortArc(f, x) ==> e == f
  {
    forall e, f | e in edges && f in edges && IsPortArc(e, x) && IsPortArc(f, x) ensures e == f {
      SameOriginSameEdge(edges, e, f);
    }
    if x in SpecArcs(edges) {
      var e := ArcOfEdge(edges, x);
      ArcInEdge(e, x);
    }
    if e :| e in edges && IsPortArc(e, x) {
      assert x in EdgeArcs(e);
    }
  }

  /** The arc leads from the edge's own output port to its own input port, and has its own kind. */
  predicate IsPortArc(e: DagEdge, x: Arc)
  {
    && x.kind == e.kind
    && x.src == OutputPort(e.origin.vertex, e.origin.variant, e.origin.port)
    && x.dst.InputPort? && x.dst.name == e.target.port
    && x.dst.vertex == if e.kind == DoWhile then e.target.vertex + "-do-while" else e.target.vertex
  }
}
