/** The structural rules, said about the fields of the specification alone. */
module Structure {
  import opened Walks
  import opened DagSpecs
  import Compile

  /** Some edge leads into the port: the edge's target, or the target's copy if the edge jumps back. */
  predicate Receives(edges: seq<DagEdge>, vertex: string, port: string)
  {
    exists e :: e in edges && e.target.port == port &&
      vertex == if e.kind == DoWhile then e.target.vertex + "-do-while" else e.target.vertex
  }

  /** Some edge leaves the vertex or leads into it. */
  predicate Touched(edges: seq<DagEdge>, vertex: string)
  {
    exists e :: e in edges && (e.origin.vertex == vertex || Receives(edges, vertex, e.target.port))
  }

  predicate DeclaresEntry(dag: DagSpec, vertex: string, port: string)
  {
    exists v :: v in dag.vertices && v.name == vertex && port in v.entryPorts
  }

  lemma PortNodesByField(edges: seq<DagEdge>, vertex: string, port: string)
    ensures InputPort(vertex, port) in NodesOfEdges(edges) <==> Receives(edges, vertex, port)
  {
    if e :| e in edges && InputPort(vertex, port) in EdgeNodes(e) {
      assert e.target.port == port;
    }
    if e :| e in edges && e.target.port == port && vertex == DestinationName(e) {
      assert InputPort(vertex, port) in EdgeNodes(e);
    }
  }

  lemma VertexNodesByField(edges: seq<DagEdge>, vertex: string)
    ensures Vertex(vertex) in NodesOfEdges(edges) <==> Touched(edges, vertex)
  {
    if e :| e in edges && Vertex(vertex) in EdgeNodes(e) {
      assert e.origin.vertex == vertex || Receives(edges, vertex, e.target.port);
    }
    if e :| e in edges && (e.origin.vertex == vertex || Receives(edges, vertex, e.target.port)) {
      if e.origin.vertex == vertex {
        assert Vertex(vertex) in EdgeNodes(e);
      } else {
        var f :| f in edges && f.target.port == e.target.port && vertex == DestinationName(f);
        assert Vertex(vertex) in EdgeNodes(f);
      }
    }
  }

  // ---------------------------------------------------------------- the rules

  /** Entry groups list declared vertices, and something starts the workflow. */
  predicate Starts(dag: DagSpec)
  {
    && (forall g, v :: g in dag.entryGroups && v in g.vertices ==> exists u :: u in dag.vertices && u.name == v)
    && ((exists g :: g in dag.entryGroups && g.vertices != []) ||
        (dag.entryGroups == [] && exists v :: v in dag.vertices && v.entryPorts != []))
  }

  /** A vertex that no edge touches is allowed only as the whole workflow. */
  predicate Connected(dag: DagSpec)
  {
    forall v :: v in dag.vertices ==> Touched(dag.edges, v.name) || (dag.edges == [] && |dag.vertices| == 1)
  }

  /** No entry port is fed by an edge or declared twice. */
  predicate EntryPortsUnfed(dag: DagSpec)
  {
    && (forall v, p :: v in dag.vertices && p in v.entryPorts ==> !Receives(dag.edges, v.name, p))
    && (forall v, i, j :: v in dag.vertices && 0 <= i < j < |v.entryPorts| ==> v.entryPorts[i] != v.entryPorts[j])
  }

  /** No port with a default value is fed by an edge or is an entry port. */
  predicate DefaultsUnfed(dag: DagSpec)
  {
    forall d :: d in dag.defaultValues ==>
      !Receives(dag.edges, d.vertex, d.port) && !DeclaresEntry(dag, d.vertex, d.port)
  }

  /** No declared vertex has both an output of the workflow and an edge on. */
  predicate OutputsEnd(dag: DagSpec)
  {
    forall v, o, e :: v in dag.vertices && o in dag.outputs && e in dag.edges ==>
      !(o.vertex == v.name && e.origin.vertex == v.name)
  }

  /** Vertices left by a do-while edge are those left by a break edge. */
  predicate LoopsCanBeLeft(edges: seq<DagEdge>)
  {
    (set e | e in edges && e.kind == DoWhile :: e.origin.vertex) ==
    (set e | e in edges && e.kind == Break :: e.origin.vertex)
  }

  /** Jumping back and breaking out are answers of different variants. */
  predicate LoopsDecide(edges: seq<DagEdge>)
  {
    forall e, f :: e in edges && f in edges && e.kind == DoWhile && f.kind == Break ==>
      e.origin.vertex != f.origin.vertex || e.origin.variant != f.origin.variant
  }

  // ---------------------------------------------------------------- they are the rules that are checked

  lemma DeclaredByField(dag: DagSpec)
    ensures GroupsDeclared(dag) <==>
            forall g, v :: g in dag.entryGroups && v in g.vertices ==> exists u :: u in dag.vertices && u.name == v
  {
    if GroupsDeclared(dag) {
      forall g, v | g in dag.entryGroups && v in g.vertices ensures exists u :: u in dag.vertices && u.name == v {
        assert Declared(dag, v);
      }
    }
  }

  lemma StartsByField(dag: DagSpec)
    ensures Starts(dag) <==> GroupsDeclared(dag) && EntryPairs(dag) != {}
  {
    DeclaredByField(dag);
    if g :| g in dag.entryGroups && g.vertices != [] {
      assert (Vertex(g.vertices[0]), g.name) in EntryPairs(dag);
    }
    if v :| v in dag.vertices && v.entryPorts != [] {
      if dag.entryGroups == [] {
        assert (Vertex(v.name), DEFAULT_ENTRY_GROUP) in EntryPairs(dag);
      }
    }
    if p :| p in EntryPairs(dag) {
      if dag.entryGroups != [] {
        var g, v :| g in dag.entryGroups && v in g.vertices && p == (Vertex(v), g.name);
      }
    }
  }

  lemma ConnectedByField(dag: DagSpec)
    ensures Connected(dag) <==> VerticesConnected(dag)
  {
    forall v | v in dag.vertices
      ensures Vertex(v.name) in SpecNodes(dag) <==>
              Touched(dag.edges, v.name) || (dag.edges == [] && |dag.vertices| == 1)
    {
      VertexNodesByField(dag.edges, v.name);
    }
  }

  lemma EntryPortsByField(dag: DagSpec)
    ensures EntryPortsUnfed(dag) <==> EntryPortsFree(dag)
  {
    forall v, p | v in dag.vertices && p in v.entryPorts
      ensures InputPort(v.name, p) in EntryPortNodes(dag.vertices)
      ensures InputPort(v.name, p) in SpecNodes(dag) <==> Receives(dag.edges, v.name, p)
    {
      PortNodesByField(dag.edges, v.name, p);
    }
  }

  lemma DefaultsByField(dag: DagSpec)
    ensures DefaultsUnfed(dag) <==> DefaultsFree(dag)
  {
    forall d | d in dag.defaultValues
      ensures InputPort(d.vertex, d.port) in SpecNodes(dag) <==> Receives(dag.edges, d.vertex, d.port)
      ensures InputPort(d.vertex, d.port) in EntryPortNodes(dag.vertices) <==> DeclaresEntry(dag, d.vertex, d.port)
    {
      PortNodesByField(dag.edges, d.vertex, d.port);
    }
  }

  lemma OutputsByField(dag: DagSpec)
    ensures OutputsEnd(dag) <==> OutputsTerminal(dag)
  {
    forall v, o, e | v in dag.vertices && o in dag.outputs && e in dag.edges
        && o.vertex == v.name && e.origin.vertex == v.name
      ensures HasOutputs(dag, v.name) && HasOutgoing(dag, v.name)
    {
    }
  }

  lemma LoopsByField(edges: seq<DagEdge>)
    ensures LoopsCanBeLeft(edges) <==> LoopsPaired(edges)
  {
    Compile.LoopsPairedAsSets(edges);
  }

  lemma DecisionsByField(edges: seq<DagEdge>)
    ensures LoopsDecide(edges) <==> LoopsBranch(edges)
  {
    if LoopsBranch(edges) {
      forall e, f | e in edges && f in edges && e.kind == DoWhile && f.kind == Break
        ensures e.origin.vertex != f.origin.vertex || e.origin.variant != f.origin.variant
      {
        assert VariantNode(e) != VariantNode(f);
      }
    }
  }

  /** Compilation succeeds exactly on specifications that obey these rules; every rule reads the lists of the
      specification, none the graph. */
  lemma StructureByField(dag: DagSpec)
    ensures StructureOk(dag) <==>
      && Starts(dag) && Connected(dag) && EntryPortsUnfed(dag) && DefaultsUnfed(dag) && OutputsEnd(dag)
      && LoopsCanBeLeft(dag.edges) && LoopsDecide(dag.edges)
      && (forall i, j :: 0 <= i < j < |dag.edges| ==> dag.edges[i].origin != dag.edges[j].origin)
      && (forall i, j :: 0 <= i < j < |dag.vertices| ==> dag.vertices[i].name != dag.vertices[j].name)
  {
    StartsByField(dag);
    ConnectedByField(dag);
    EntryPortsByField(dag);
    DefaultsByField(dag);
    OutputsByField(dag);
    LoopsByField(dag.edges);
    DecisionsByField(dag.edges);
    assert DistinctOrigins(dag.edges) <==>
           forall i, j :: 0 <= i < j < |dag.edges| ==> dag.edges[i].origin != dag.edges[j].origin;
  }
}
