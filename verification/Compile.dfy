/** Compilation of a specification into the index-based graph, with the structural checks. */
module Compile {
  import opened Walks
  import opened DagSpecs
  import opened DiGraphs
  import opened Options

  datatype Compiled = Compiled(graph: DiGraph, entries: map<GraphNode, seq<string>>)

  /** The label-to-index map and the index-to-label list are inverse to each other. */
  ghost predicate Mirror(graph: DiGraph, index: map<GraphNode, nat>)
  {
    && (forall n :: n in index ==> index[n] < |graph.labels| && graph.labels[index[n]] == n)
    && (forall i :: 0 <= i < |graph.labels| ==> graph.labels[i] in index && index[graph.labels[i]] == i)
  }

  /** Everything `BuildGraph` establishes about the first edges it has processed. */
  ghost predicate Represents(graph: DiGraph, index: map<GraphNode, nat>, edges: seq<DagEdge>)
  {
    && Mirror(graph, index)
    && graph.Valid()
    && graph.Arcs() == SpecArcs(edges)
    && graph.Nodes() == NodesOfEdges(edges)
  }

  /** Nodes keep their indices. */
  ghost predicate Extends(graph: DiGraph, graph': DiGraph)
  {
    |graph.labels| <= |graph'.labels| && forall i :: 0 <= i < |graph.labels| ==> graph'.labels[i] == graph.labels[i]
  }

  /** Looks a label up and adds a node for it when there is none. */
  method NodeFor(graph: DiGraph, index: map<GraphNode, nat>, weight: GraphNode)
    returns (graph': DiGraph, index': map<GraphNode, nat>, node: nat)
    requires Mirror(graph, index) && graph.Valid()
    ensures Mirror(graph', index') && graph'.Valid()
    ensures Extends(graph, graph') && graph'.Arcs() == graph.Arcs()
    ensures node < |graph'.labels| && graph'.labels[node] == weight
    ensures graph'.Nodes() == graph.Nodes() + {weight}
  {
    if weight in index {
      graph', index', node := graph, index, index[weight];
    } else {
      node := |graph.labels|;
      graph' := graph.(labels := graph.labels + [weight]);
      index' := index[weight := node];
      assert forall e :: e in graph.edges ==> graph'.ArcOf(e) == graph.ArcOf(e);
    }
  }

  method AddEdge(graph: DiGraph, index: map<GraphNode, nat>, source: nat, target: nat, kind: EdgeKind)
    returns (graph': DiGraph)
    requires Mirror(graph, index) && graph.Valid()
    requires source < |graph.labels| && target < |graph.labels|
    requires !graph.ContainsEdge(source, target)
    ensures Mirror(graph', index) && graph'.Valid()
    ensures graph'.labels == graph.labels
    ensures graph'.Arcs() == graph.Arcs() + {Arc(graph.labels[source], kind, graph.labels[target])}
  {
    var e := IndexEdge(source, target, kind);
    graph' := graph.(edges := graph.edges + [e]);
    assert forall f :: f in graph'.edges <==> f in graph.edges || f == e;
  }

  lemma ContainsEdgeIsArc(graph: DiGraph, source: nat, target: nat)
    requires graph.Valid() && source < |graph.labels| && target < |graph.labels|
    ensures graph.ContainsEdge(source, target) <==>
            exists x :: x in graph.Arcs() && x.src == graph.labels[source] && x.dst == graph.labels[target]
  {
    if graph.ContainsEdge(source, target) {
      var e :| e in graph.edges && e.source == source && e.target == target;
      assert graph.ArcOf(e) in graph.Arcs();
    }
    if x :| x in graph.Arcs() && x.src == graph.labels[source] && x.dst == graph.labels[target] {
      var e := EdgeOfArc(graph, source, x);
      LabelsIdentify(graph, e.target, target);
    }
  }

  datatype EdgeIndices = EdgeIndices(origin: nat, variant: nat, port: nat, destination: nat, input: nat)

  /** The indices are those of the five labels of `e`. */
  ghost predicate Locates(graph: DiGraph, at: EdgeIndices, e: DagEdge)
  {
    && at.origin < |graph.labels| && graph.labels[at.origin] == OriginNode(e)
    && at.variant < |graph.labels| && graph.labels[at.variant] == VariantNode(e)
    && at.port < |graph.labels| && graph.labels[at.port] == PortNode(e.origin)
    && at.destination < |graph.labels| && graph.labels[at.destination] == DestinationNode(e)
    && at.input < |graph.labels| && graph.labels[at.input] == InputNode(e)
  }

  lemma NodesOneByOne(nodes: set<GraphNode>, e: DagEdge)
    ensures nodes + {OriginNode(e)} + {VariantNode(e)} + {PortNode(e.origin)} + {DestinationNode(e)} + {InputNode(e)}
            == nodes + EdgeNodes(e)
  {
  }

  lemma ArcsOneByOne(arcs: set<Arc>, e: DagEdge)
    ensures arcs + {Arc(OriginNode(e), Normal, VariantNode(e))} + {Arc(InputNode(e), Normal, DestinationNode(e))}
            + {Arc(VariantNode(e), Normal, PortNode(e.origin))} + {PortArc(e)}
            == arcs + EdgeArcs(e)
  {
  }

  method AddNodes(graph: DiGraph, index: map<GraphNode, nat>, e: DagEdge)
    returns (graph': DiGraph, index': map<GraphNode, nat>, at: EdgeIndices)
    requires Mirror(graph, index) && graph.Valid()
    ensures Mirror(graph', index') && graph'.Valid() && Locates(graph', at, e)
    ensures graph'.Arcs() == graph.Arcs()
    ensures graph'.Nodes() == graph.Nodes() + EdgeNodes(e)
  {
    var g1, i1, origin := NodeFor(graph, index, OriginNode(e));
    var g2, i2, variant := NodeFor(g1, i1, VariantNode(e));
    var g3, i3, port := NodeFor(g2, i2, PortNode(e.origin));
    var g4, i4, destination := NodeFor(g3, i3, DestinationNode(e));
    var g5, i5, input := NodeFor(g4, i4, InputNode(e));
    graph', index' := g5, i5;
    NodesOneByOne(graph.Nodes(), e);
    at := EdgeIndices(origin, variant, port, destination, input);
  }

  /** Adds an ordinary edge unless the two nodes are joined already. */
  method EnsureEdge(graph: DiGraph, index: map<GraphNode, nat>, source: nat, target: nat) returns (graph': DiGraph)
    requires Mirror(graph, index) && graph.Valid()
    requires source < |graph.labels| && target < |graph.labels|
    requires forall x :: x in graph.Arcs() && x.src == graph.labels[source] ==> x.kind == Normal
    ensures Mirror(graph', index) && graph'.Valid() && graph'.labels == graph.labels
    ensures graph'.Arcs() == graph.Arcs() + {Arc(graph.labels[source], Normal, graph.labels[target])}
  {
    graph' := graph;
    ContainsEdgeIsArc(graph, source, target);
    if !graph.ContainsEdge(source, target) {
      graph' := AddEdge(graph, index, source, target, Normal);
    }
  }

  /** Adds the five nodes and up to four edges of one specification edge. The edge is refused when
      its output port is in use already. */
  method AddSpecEdge(graph: DiGraph, index: map<GraphNode, nat>, ghost done: seq<DagEdge>, e: DagEdge)
    returns (ok: bool, graph': DiGraph, index': map<GraphNode, nat>)
    requires Represents(graph, index, done)
    ensures ok <==> forall f :: f in done ==> f.origin != e.origin
    ensures ok ==> Represents(graph', index', done + [e])
  {
    var at;
    graph', index', at := AddNodes(graph, index, e);
    ContainsEdgeIsArc(graph', at.variant, at.port);
    VariantPortArc(done, e);
    if graph'.ContainsEdge(at.variant, at.port) {
      return false, graph', index';
    }
    PortArcOwner(done, e);
    ContainsEdgeIsArc(graph', at.port, at.input);
    if graph'.ContainsEdge(at.port, at.input) {
      // The previous check has already ruled this out.
      assert false;
    }
    graph' := LinkNodes(graph', index', done, e, at);
    SpecArcsSnoc(done, e);
    ok := true;
  }

  method LinkNodes(graph: DiGraph, index: map<GraphNode, nat>, ghost done: seq<DagEdge>, e: DagEdge, at: EdgeIndices)
    returns (graph': DiGraph)
    requires Mirror(graph, index) && graph.Valid() && Locates(graph, at, e)
    requires graph.Arcs() == SpecArcs(done)
    requires forall f :: f in done ==> f.origin != e.origin
    ensures Mirror(graph', index) && graph'.Valid() && graph'.labels == graph.labels
    ensures graph'.Arcs() == SpecArcs(done) + EdgeArcs(e)
  {
    NormalArcsOnly(done, e);
    var g1 := EnsureEdge(graph, index, at.origin, at.variant);
    var g2 := EnsureEdge(g1, index, at.input, at.destination);
    PortUnused(done, e);
    graph' := LinkPort(g2, index, e, at);
    ArcsOneByOne(SpecArcs(done), e);
  }

  lemma PortUnused(done: seq<DagEdge>, e: DagEdge)
    requires forall f :: f in done ==> f.origin != e.origin
    ensures var arcs := SpecArcs(done) + {Arc(OriginNode(e), Normal, VariantNode(e))} +
        {Arc(InputNode(e), Normal, DestinationNode(e))};
      forall x :: x in arcs ==> x.src != PortNode(e.origin) && !(x.src == VariantNode(e) && x.dst == PortNode(e.origin))
  {
    VariantPortArc(done, e);
    PortArcOwner(done, e);
  }

  method LinkPort(graph: DiGraph, index: map<GraphNode, nat>, e: DagEdge, at: EdgeIndices) returns (graph': DiGraph)
    requires Mirror(graph, index) && graph.Valid() && Locates(graph, at, e)
    requires forall x :: x in graph.Arcs() ==> x.src != PortNode(e.origin)
    requires forall x :: x in graph.Arcs() ==> !(x.src == VariantNode(e) && x.dst == PortNode(e.origin))
    ensures Mirror(graph', index) && graph'.Valid() && graph'.labels == graph.labels
    ensures graph'.Arcs() == graph.Arcs() + {Arc(VariantNode(e), Normal, PortNode(e.origin))} + {PortArc(e)}
  {
    ContainsEdgeIsArc(graph, at.variant, at.port);
    var g := AddEdge(graph, index, at.variant, at.port, Normal);
    ContainsEdgeIsArc(g, at.port, at.input);
    graph' := AddEdge(g, index, at.port, at.input, e.kind);
  }

  lemma VariantPortArc(done: seq<DagEdge>, e: DagEdge)
    ensures (exists x :: x in SpecArcs(done) && x.src == VariantNode(e) && x.dst == PortNode(e.origin)) <==>
            exists f :: f in done && f.origin == e.origin
  {
    if x :| x in SpecArcs(done) && x.src == VariantNode(e) && x.dst == PortNode(e.origin) {
      var f := ArcOfEdge(done, x);
      ArcInEdge(f, x);
    }
    if f :| f in done && f.origin == e.origin {
      assert Arc(VariantNode(f), Normal, PortNode(f.origin)) in EdgeArcs(f);
    }
  }

  lemma PortArcOwner(done: seq<DagEdge>, e: DagEdge)
    requires forall f :: f in done ==> f.origin != e.origin
    ensures forall x :: x in SpecArcs(done) ==> x.src != PortNode(e.origin)
  {
    forall x | x in SpecArcs(done) && x.src == PortNode(e.origin)
      ensures false
    {
      var f := ArcOfEdge(done, x);
      ArcInEdge(f, x);
    }
  }

  lemma NormalArcsOnly(done: seq<DagEdge>, e: DagEdge)
    ensures forall x :: x in SpecArcs(done) && (x.src == OriginNode(e) || x.src == InputNode(e)) ==> x.kind == Normal
  {
    forall x | x in SpecArcs(done) && (x.src == OriginNode(e) || x.src == InputNode(e))
      ensures x.kind == Normal
    {
      var f := ArcOfEdge(done, x);
      ArcInEdge(f, x);
    }
  }

  /** The graph-building loop: it succeeds exactly when no output port is used by two edges. */
  method BuildGraph(edges: seq<DagEdge>) returns (ok: bool, graph: DiGraph, index: map<GraphNode, nat>)
    ensures ok <==> DistinctOrigins(edges)
    ensures ok ==> Represents(graph, index, edges)
  {
    graph, index, ok := DiGraph([], []), map[], true;
    for i := 0 to |edges|
      invariant ok && DistinctOrigins(edges[..i])
      invariant Represents(graph, index, edges[..i])
    {
      assert edges[..i + 1] == edges[..i] + [edges[i]];
      ok, graph, index := AddSpecEdge(graph, index, edges[..i], edges[i]);
      if !ok {
        var f :| f in edges[..i] && f.origin == edges[i].origin;
        var j :| 0 <= j < i && edges[j] == f;
        return;
      }
    }
    assert edges[..|edges|] == edges;
  }

  /** The entry map holds exactly the given vertex-group pairs. */
  ghost predicate EntriesAre(entries: map<GraphNode, seq<string>>, pairs: set<(GraphNode, string)>)
  {
    && (forall n, g :: (n, g) in pairs <==> n in entries && g in entries[n])
    && (forall n :: n in entries ==> entries[n] != [])
  }

  /** Collects the entry vertices of all groups; fails on a group that names an undeclared vertex. */
  method CollectGroups(dag: DagSpec) returns (ok: bool, entries: map<GraphNode, seq<string>>)
    ensures ok <==> GroupsDeclared(dag)
    ensures ok ==> EntriesAre(entries, set g, v | g in dag.entryGroups && v in g.vertices :: (Vertex(v), g.name))
  {
    entries, ok := map[], true;
    ghost var pairs: set<(GraphNode, string)> := {};
    for i := 0 to |dag.entryGroups|
      invariant ok && EntriesAre(entries, pairs)
      invariant pairs == set g, v | g in dag.entryGroups[..i] && v in g.vertices :: (Vertex(v), g.name)
      invariant forall g, v :: g in dag.entryGroups[..i] && v in g.vertices ==> Declared(dag, v)
    {
      var group := dag.entryGroups[i];
      ghost var outer := pairs;
      for j := 0 to |group.vertices|
        invariant EntriesAre(entries, pairs)
        invariant pairs == outer + set v | v in group.vertices[..j] :: (Vertex(v), group.name)
        invariant forall v :: v in group.vertices[..j] ==> Declared(dag, v)
      {
        var vertex := group.vertices[j];
        if !Declared(dag, vertex) {
          assert group in dag.entryGroups;
          return false, entries;
        }
        var node := Vertex(vertex);
        var groups := if node in entries then entries[node] else [];
        entries := entries[node := groups + [group.name]];
        pairs := pairs + {(node, group.name)};
        assert group.vertices[..j + 1] == group.vertices[..j] + [vertex];
      }
      assert group.vertices[..|group.vertices|] == group.vertices;
      assert dag.entryGroups[..i + 1] == dag.entryGroups[..i] + [group];
    }
    assert dag.entryGroups[..|dag.entryGroups|] == dag.entryGroups;
  }

  /** Without groups, every vertex that has entry ports starts the default group. */
  method CollectDefaultGroup(dag: DagSpec) returns (entries: map<GraphNode, seq<string>>)
    ensures EntriesAre(entries, set v | v in dag.vertices && v.entryPorts != [] ::
        (Vertex(v.name), DEFAULT_ENTRY_GROUP))
  {
    entries := map[];
    for i := 0 to |dag.vertices|
      invariant EntriesAre(entries, set v | v in dag.vertices[..i] && v.entryPorts != [] ::
          (Vertex(v.name), DEFAULT_ENTRY_GROUP))
      invariant forall n :: n in entries ==> entries[n] == [DEFAULT_ENTRY_GROUP]
    {
      assert dag.vertices[..i + 1] == dag.vertices[..i] + [dag.vertices[i]];
      if dag.vertices[i].entryPorts != [] {
        entries := entries[Vertex(dag.vertices[i].name) := [DEFAULT_ENTRY_GROUP]];
      }
    }
    assert dag.vertices[..|dag.vertices|] == dag.vertices;
  }

  /** Every declared vertex is a node of the graph and is declared once. A lone vertex without edges
      is added here. */
  method CheckVertices(dag: DagSpec, graph: DiGraph, index: map<GraphNode, nat>)
    returns (ok: bool, graph': DiGraph, index': map<GraphNode, nat>)
    requires Represents(graph, index, dag.edges)
    ensures ok <==> VerticesConnected(dag) && DistinctNames(dag.vertices)
    ensures ok ==> Mirror(graph', index') && graph'.Valid()
    ensures ok ==> graph'.Arcs() == SpecArcs(dag.edges) && graph'.Nodes() == SpecNodes(dag)
  {
    graph', index', ok := graph, index, true;
    var seen: set<GraphNode> := {};
    var lone := dag.edges == [] && |dag.vertices| == 1;
    for i := 0 to |dag.vertices|
      invariant Mirror(graph', index') && graph'.Valid()
      invariant graph'.Arcs() == SpecArcs(dag.edges)
      invariant graph'.Nodes() == if lone && i == 1 then SpecNodes(dag) else NodesOfEdges(dag.edges)
      invariant seen == set v | v in dag.vertices[..i] :: Vertex(v.name)
      invariant forall v :: v in dag.vertices[..i] ==> Vertex(v.name) in SpecNodes(dag)
      invariant DistinctNames(dag.vertices[..i])
    {
      var node := Vertex(dag.vertices[i].name);
      assert dag.vertices[i] in dag.vertices;
      assert dag.vertices[..i + 1] == dag.vertices[..i] + [dag.vertices[i]];
      if lone {
        var k;
        graph', index', k := NodeFor(graph', index', node);
      }
      if node !in index' {
        return false, graph', index';
      }
      if node in seen {
        var v :| v in dag.vertices[..i] && Vertex(v.name) == node;
        var j :| 0 <= j < i && dag.vertices[j] == v;
        assert dag.vertices[j].name == dag.vertices[i].name;
        return false, graph', index';
      }
      seen := seen + {node};
    }
    assert dag.vertices[..|dag.vertices|] == dag.vertices;
  }

  /** Entry ports have no edge into them and are declared once. */
  method CheckEntryPorts(dag: DagSpec, index: map<GraphNode, nat>) returns (ok: bool, ports: set<GraphNode>)
    requires index.Keys == SpecNodes(dag) && DistinctNames(dag.vertices)
    ensures ok <==> EntryPortsFree(dag)
    ensures ok ==> ports == EntryPortNodes(dag.vertices)
  {
    ports, ok := {}, true;
    for i := 0 to |dag.vertices|
      invariant ports == EntryPortNodes(dag.vertices[..i])
      invariant ports !! SpecNodes(dag)
      invariant forall v :: v in dag.vertices[..i] ==> Distinct(v.entryPorts)
    {
      var vertex := dag.vertices[i];
      assert vertex in dag.vertices;
      ghost var outer := ports;
      assert dag.vertices[..i + 1] == dag.vertices[..i] + [vertex];
      for j := 0 to |vertex.entryPorts|
        invariant ports == outer + set p | p in vertex.entryPorts[..j] :: InputPort(vertex.name, p)
        invariant ports !! SpecNodes(dag)
        invariant Distinct(vertex.entryPorts[..j])
      {
        var node := InputPort(vertex.name, vertex.entryPorts[j]);
        assert vertex.entryPorts[j] in vertex.entryPorts;
        assert vertex.entryPorts[..j + 1] == vertex.entryPorts[..j] + [vertex.entryPorts[j]];
        if node in index {
          assert node in EntryPortNodes(dag.vertices);
          return false, ports;
        }
        if node in ports {
          RepeatedEntryPort(dag.vertices, i, j, outer, ports, node);
          return false, ports;
        }
        ports := ports + {node};
      }
      assert vertex.entryPorts[..|vertex.entryPorts|] == vertex.entryPorts;
    }
    assert dag.vertices[..|dag.vertices|] == dag.vertices;
  }

  lemma RepeatedEntryPort(vertices: seq<DagVertex>, i: nat, j: nat, outer: set<GraphNode>, ports: set<GraphNode>,
      node: GraphNode)
    requires DistinctNames(vertices) && i < |vertices| && j < |vertices[i].entryPorts|
    requires outer == EntryPortNodes(vertices[..i])
    requires ports == outer + set p | p in vertices[i].entryPorts[..j] :: InputPort(vertices[i].name, p)
    requires node == InputPort(vertices[i].name, vertices[i].entryPorts[j]) && node in ports
    ensures !Distinct(vertices[i].entryPorts)
  {
    assert forall v :: v in vertices[..i] ==> v.name != vertices[i].name;
    assert node !in outer;
    var p :| p in vertices[i].entryPorts[..j] && InputPort(vertices[i].name, p) == node;
    var k :| 0 <= k < j && vertices[i].entryPorts[k] == p;
    assert vertices[i].entryPorts[k] == vertices[i].entryPorts[j];
  }

  method CheckDefaults(dag: DagSpec, index: map<GraphNode, nat>, ports: set<GraphNode>) returns (ok: bool)
    requires index.Keys == SpecNodes(dag) && ports == EntryPortNodes(dag.vertices)
    ensures ok <==> DefaultsFree(dag)
  {
    for i := 0 to |dag.defaultValues|
      invariant forall d :: d in dag.defaultValues[..i] ==> InputPort(d.vertex, d.port) !in SpecNodes(dag) + ports
    {
      var d := dag.defaultValues[i];
      assert d in dag.defaultValues;
      var node := InputPort(d.vertex, d.port);
      if node in index || node in ports {
        return false;
      }
    }
    return true;
  }

  method CheckOutputs(dag: DagSpec) returns (ok: bool)
    ensures ok <==> OutputsTerminal(dag)
  {
    for i := 0 to |dag.vertices|
      invariant forall v :: v in dag.vertices[..i] ==> !(HasOutputs(dag, v.name) && HasOutgoing(dag, v.name))
    {
      assert dag.vertices[i] in dag.vertices;
      if HasOutputs(dag, dag.vertices[i].name) && HasOutgoing(dag, dag.vertices[i].name) {
        return false;
      }
    }
    return true;
  }

  function VerticesLeavingBy(edges: seq<DagEdge>, kind: EdgeKind): set<string>
  {
    set e | e in edges && e.kind == kind :: e.origin.vertex
  }

  function VariantsLeavingBy(edges: seq<DagEdge>, kind: EdgeKind): set<(string, string)>
  {
    set e | e in edges && e.kind == kind :: (e.origin.vertex, e.origin.variant)
  }

  /** Do-while and break edges leave the same vertices, by different variants. */
  method CheckLoops(edges: seq<DagEdge>) returns (ok: bool)
    ensures ok <==> LoopsPaired(edges) && LoopsBranch(edges)
  {
    var repeats, breaks := VerticesLeavingBy(edges, DoWhile), VerticesLeavingBy(edges, Break);
    LoopsPairedAsSets(edges);
    if !(repeats <= breaks) || !(breaks <= repeats) {
      return false;
    }
    var repeatVariants, breakVariants := VariantsLeavingBy(edges, DoWhile), VariantsLeavingBy(edges, Break);
    LoopsBranchAsSets(edges);
    return repeatVariants * breakVariants == {};
  }

  lemma LoopsPairedAsSets(edges: seq<DagEdge>)
    ensures LoopsPaired(edges) <==> VerticesLeavingBy(edges, DoWhile) == VerticesLeavingBy(edges, Break)
  {
    forall kind, vertex
      ensures LeavesBy(edges, vertex, kind) <==> vertex in VerticesLeavingBy(edges, kind)
    {
    }
    if VerticesLeavingBy(edges, DoWhile) == VerticesLeavingBy(edges, Break) {
      forall e | e in edges && (e.kind == DoWhile || e.kind == Break)
        ensures e.kind == DoWhile ==> LeavesBy(edges, e.origin.vertex, Break)
        ensures e.kind == Break ==> LeavesBy(edges, e.origin.vertex, DoWhile)
      {
        assert e.origin.vertex in VerticesLeavingBy(edges, e.kind);
      }
    }
  }

  lemma LoopsBranchAsSets(edges: seq<DagEdge>)
    ensures LoopsBranch(edges) <==> VariantsLeavingBy(edges, DoWhile) * VariantsLeavingBy(edges, Break) == {}
  {
    var repeats, breaks := VariantsLeavingBy(edges, DoWhile), VariantsLeavingBy(edges, Break);
    if LoopsBranch(edges) {
      forall v | v in repeats ensures v !in breaks {
        var e :| e in edges && e.kind == DoWhile && v == (e.origin.vertex, e.origin.variant);
        forall f | f in edges && f.kind == Break
          ensures v != (f.origin.vertex, f.origin.variant)
        {
          assert VariantNode(e) != VariantNode(f);
        }
      }
    } else {
      var e, f :| e in edges && f in edges && e.kind == DoWhile && f.kind == Break && VariantNode(e) == VariantNode(f);
      assert (e.origin.vertex, e.origin.variant) in repeats * breaks;
    }
  }

  /** What a successful compilation delivers. */
  ghost predicate Represented(dag: DagSpec, c: Compiled)
  {
    && c.graph.Valid()
    && c.graph.Arcs() == SpecArcs(dag.edges)
    && c.graph.Nodes() == SpecNodes(dag)
    && EntriesAre(c.entries, EntryPairs(dag))
  }

  /** Compilation succeeds exactly on the specifications that obey the structural rules, and the
      graph it returns has the arcs and nodes of the specification, each once. */
  method TryIntoGraph(dag: DagSpec) returns (r: Option<Compiled>)
    ensures r.Some? <==> StructureOk(dag)
    ensures r.Some? ==> Represented(dag, r.value)
  {
    var ok, entries;
    if dag.entryGroups != [] {
      ok, entries := CollectGroups(dag);
      if !ok {
        return None;
      }
    } else {
      entries := CollectDefaultGroup(dag);
    }
    assert EntriesAre(entries, EntryPairs(dag));
    EntriesEmpty(entries, EntryPairs(dag));
    if entries == map[] {
      return None;
    }
    var graph, index;
    ok, graph, index := BuildGraph(dag.edges);
    if !ok {
      return None;
    }
    ok, graph, index := CheckVertices(dag, graph, index);
    if !ok {
      return None;
    }
    MirrorKeys(graph, index);
    var ports;
    ok, ports := CheckEntryPorts(dag, index);
    if !ok {
      return None;
    }
    ok := CheckDefaults(dag, index, ports);
    if !ok {
      return None;
    }
    ok := CheckOutputs(dag);
    if !ok {
      return None;
    }
    ok := CheckLoops(dag.edges);
    if !ok {
      return None;
    }
    return Some(Compiled(graph, entries));
  }

  lemma EntriesEmpty(entries: map<GraphNode, seq<string>>, pairs: set<(GraphNode, string)>)
    requires EntriesAre(entries, pairs)
    ensures entries == map[] <==> pairs == {}
  {
    if entries != map[] {
      var n :| n in entries;
      assert (n, entries[n][0]) in pairs;
    }
    if p :| p in pairs {
      assert (p.0, p.1) in pairs;
    }
  }

  lemma MirrorKeys(graph: DiGraph, index: map<GraphNode, nat>)
    requires Mirror(graph, index)
    ensures index.Keys == graph.Nodes()
  {
    assert forall n :: n in graph.labels ==> n in index;
  }
}
