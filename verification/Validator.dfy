/** The validator as a whole: its verdict is a predicate on the specification that knows neither node
    indices nor the order of the specification's lists. */
module Validator {
  import opened Walks
  import opened DagSpecs
  import opened DiGraphs
  import opened Compile
  import opened Concurrency
  import opened Permutations
  import Cycles
  import Order
  import ForEachPairs
  import Nesting

  ghost predicate EntryWalksPaired(dag: DagSpec)
  {
    forall p :: p in EntryPairs(dag) ==> ForEachPairs.WalksPaired(SpecArcs(dag.edges), p.0)
  }

  /** The accepted specifications. */
  ghost predicate Accepts(dag: DagSpec)
  {
    && StructureOk(dag)
    && Acyclic(SpecArcs(dag.edges))
    && ConcurrencyOk(SpecArcs(dag.edges), SpecNodes(dag), EntryPairs(dag))
    && EntryWalksPaired(dag)
    && Nesting.LoopsNotNested(dag)
  }

  method Validate(dag: DagSpec) returns (ok: bool)
    ensures ok <==> Accepts(dag)
  {
    var compiled := TryIntoGraph(dag);
    if compiled.None? {
      return false;
    }
    var graph, entries := compiled.value.graph, compiled.value.entries;
    PairsAreEntryPairs(dag, entries);
    EntriesAreNodes(dag);

    var cyclic := Cycles.IsCyclicDirected(graph);
    if cyclic {
      return false;
    }
    NeverRefusedForOrder(dag, graph);
    ok := Order.HasCorrectOrderOfActions(graph);
    if !ok {
      // Compiled graphs are ordered by construction.
      assert false;
    }
    ok := FollowsConcurrencyRules(graph, entries);
    if !ok {
      return;
    }
    ok := ForEachPairs.ValidateForEachPairs(graph, entries);
    if !ok {
      return;
    }
    Nesting.NestingBySpec(dag);
    ok := Nesting.ValidateDoWhileNesting(graph);
  }

  lemma PairsAreEntryPairs(dag: DagSpec, entries: map<GraphNode, seq<string>>)
    requires EntriesAre(entries, EntryPairs(dag))
    ensures Pairs(entries) == EntryPairs(dag)
    ensures forall n :: n in entries <==> exists p :: p in EntryPairs(dag) && p.0 == n
  {
    forall p | p in EntryPairs(dag) ensures p in Pairs(entries) && p.0 in entries {
      assert (p.0, p.1) in EntryPairs(dag);
    }
    forall n | n in entries ensures exists p :: p in EntryPairs(dag) && p.0 == n {
      assert (n, entries[n][0]) in EntryPairs(dag);
    }
  }

  /** The entry lookup of the for-each search never fails. */
  lemma EntriesAreNodes(dag: DagSpec)
    requires GroupsDeclared(dag) && VerticesConnected(dag)
    ensures forall p :: p in EntryPairs(dag) ==> p.0 in SpecNodes(dag)
  {
    forall p | p in EntryPairs(dag) ensures p.0 in SpecNodes(dag) {
      if dag.entryGroups != [] {
        var g, v :| g in dag.entryGroups && v in g.vertices && p == (Vertex(v), g.name);
        assert Declared(dag, v);
        var u :| u in dag.vertices && u.name == v;
      }
    }
  }

  lemma SpecNodeHasArc(edges: seq<DagEdge>, n: GraphNode)
    requires n in NodesOfEdges(edges) && !n.Vertex?
    ensures exists x :: x in SpecArcs(edges) && x.src == n
  {
    var e :| e in edges && n in EdgeNodes(e);
    assert PortArc(e) in EdgeArcs(e) && Arc(VariantNode(e), Normal, PortNode(e.origin)) in EdgeArcs(e)
      && Arc(InputNode(e), Normal, DestinationNode(e)) in EdgeArcs(e);
  }

  /** The order check accepts every graph that compilation returns. */
  lemma NeverRefusedForOrder(dag: DagSpec, g: DiGraph)
    requires DistinctOrigins(dag.edges)
    requires g.Valid() && g.Arcs() == SpecArcs(dag.edges) && g.Nodes() == SpecNodes(dag)
    ensures forall n :: n in g.Nodes() ==> Order.LabelOrdered(g.Arcs(), n)
  {
    SpecIsFourLayered(dag.edges);
    forall i | 0 <= i < |g.labels| ensures Order.LabelOrdered(g.Arcs(), g.labels[i]) {
      assert g.labels[i] in SpecNodes(dag);
      if !g.labels[i].Vertex? {
        SpecNodeHasArc(dag.edges, g.labels[i]);
      }
      Order.CompiledGraphsAreOrdered(g, i);
    }
  }

  // ---------------------------------------------------------------- order of the lists

  ghost predicate SameUpToOrder(d: DagSpec, d': DagSpec)
  {
    && multiset(d.vertices) == multiset(d'.vertices)
    && multiset(d.edges) == multiset(d'.edges)
    && multiset(d.defaultValues) == multiset(d'.defaultValues)
    && multiset(d.entryGroups) == multiset(d'.entryGroups)
    && multiset(d.outputs) == multiset(d'.outputs)
  }

  /** The lists have the same members, and are distinct together. */
  ghost predicate SameMembers(d: DagSpec, d': DagSpec)
  {
    && (forall v :: v in d.vertices <==> v in d'.vertices)
    && (forall e :: e in d.edges <==> e in d'.edges)
    && (forall v :: v in d.defaultValues <==> v in d'.defaultValues)
    && (forall g :: g in d.entryGroups <==> g in d'.entryGroups)
    && (forall o :: o in d.outputs <==> o in d'.outputs)
    && |d.vertices| == |d'.vertices|
  }

  lemma SameArcs(d: DagSpec, d': DagSpec)
    requires SameMembers(d, d')
    ensures SpecArcs(d.edges) == SpecArcs(d'.edges) && SpecNodes(d) == SpecNodes(d')
  {
    assert NodesOfEdges(d.edges) == NodesOfEdges(d'.edges);
    assert d.edges == [] <==> d'.edges == [] by {
      if d.edges != [] { assert d.edges[0] in d'.edges; }
      if d'.edges != [] { assert d'.edges[0] in d.edges; }
    }
    if |d.vertices| == 1 {
      assert d.vertices[0] in d'.vertices;
    }
  }

  lemma SameEntries(d: DagSpec, d': DagSpec)
    requires SameMembers(d, d')
    ensures EntryPairs(d) == EntryPairs(d') && EntryPortNodes(d.vertices) == EntryPortNodes(d'.vertices)
    ensures GroupsDeclared(d) <==> GroupsDeclared(d')
  {
    assert d.entryGroups == [] <==> d'.entryGroups == [] by {
      if d.entryGroups != [] { assert d.entryGroups[0] in d'.entryGroups; }
      if d'.entryGroups != [] { assert d'.entryGroups[0] in d.entryGroups; }
    }
    assert forall n :: Declared(d, n) <==> Declared(d', n);
  }

  lemma SameOutputs(d: DagSpec, d': DagSpec)
    requires SameMembers(d, d')
    ensures OutputsTerminal(d) <==> OutputsTerminal(d')
  {
    assert forall n :: HasOutputs(d, n) <==> HasOutputs(d', n);
    assert forall n :: HasOutgoing(d, n) <==> HasOutgoing(d', n);
  }

  lemma SameLoops(d: DagSpec, d': DagSpec)
    requires SameMembers(d, d')
    ensures LoopsPaired(d.edges) <==> LoopsPaired(d'.edges)
    ensures LoopsBranch(d.edges) <==> LoopsBranch(d'.edges)
  {
    assert forall v, k :: LeavesBy(d.edges, v, k) <==> LeavesBy(d'.edges, v, k);
  }

  lemma SameDistinctness(d: DagSpec, d': DagSpec)
    requires SameUpToOrder(d, d')
    ensures DistinctOrigins(d.edges) <==> DistinctOrigins(d'.edges)
    ensures DistinctNames(d.vertices) <==> DistinctNames(d'.vertices)
  {
    DistinctByOrderless(d.edges, d'.edges, (e: DagEdge) => e.origin);
    DistinctByOrderless(d.vertices, d'.vertices, (v: DagVertex) => v.name);
    assert DistinctBy(d.edges, (e: DagEdge) => e.origin) <==> DistinctOrigins(d.edges);
    assert DistinctBy(d'.edges, (e: DagEdge) => e.origin) <==> DistinctOrigins(d'.edges);
    assert DistinctBy(d.vertices, (v: DagVertex) => v.name) <==> DistinctNames(d.vertices);
    assert DistinctBy(d'.vertices, (v: DagVertex) => v.name) <==> DistinctNames(d'.vertices);
  }

  lemma StructureOrderless(d: DagSpec, d': DagSpec)
    requires SameUpToOrder(d, d')
    ensures SameMembers(d, d')
    ensures StructureOk(d) <==> StructureOk(d')
  {
    SameElements(d.vertices, d'.vertices);
    SameElements(d.edges, d'.edges);
    SameElements(d.defaultValues, d'.defaultValues);
    SameElements(d.entryGroups, d'.entryGroups);
    SameElements(d.outputs, d'.outputs);
    SameDistinctness(d, d');
    SameArcs(d, d');
    SameEntries(d, d');
    SameOutputs(d, d');
    SameLoops(d, d');
  }

  /** Reordering any of the specification's lists does not change the verdict. */
  lemma VerdictIsOrderless(d: DagSpec, d': DagSpec)
    requires SameUpToOrder(d, d')
    ensures Accepts(d) <==> Accepts(d')
  {
    StructureOrderless(d, d');
    SameArcs(d, d');
    SameEntries(d, d');
  }
}
