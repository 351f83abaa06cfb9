/** Path subgraphs, choices and runs of a given specification, edge by edge. */
module Ways {
  import opened Walks
  import opened DagSpecs
  import opened Concurrency
  import opened ConcurrencyWitness
  import opened Runs
  import opened RunWitness
  import ForEachPairs
  import Nesting
  import Validator

  // ---------------------------------------------------------------- acyclic by levels

  /** Every edge leads to a vertex of a higher level. */
  ghost predicate Levelled(edges: seq<DagEdge>, level: string -> nat)
  {
    forall e :: e in edges ==> level(e.origin.vertex) < level(DestinationName(e))
  }

  function Rank(level: string -> nat, x: GraphNode): nat
  {
    match x
    case InputPort(v, _) => 4 * level(v)
    case Vertex(v) => 4 * level(v) + 1
    case OutputVariant(v, _) => 4 * level(v) + 2
    case OutputPort(v, _, _) => 4 * level(v) + 3
  }

  lemma LevelsClimb(edges: seq<DagEdge>, level: string -> nat)
    requires Levelled(edges, level)
    ensures forall a :: a in SpecArcs(edges) ==> Rank(level, a.src) < Rank(level, a.dst)
    ensures Acyclic(SpecArcs(edges))
  {
    forall a | a in SpecArcs(edges) ensures Rank(level, a.src) < Rank(level, a.dst) {
      var e := ArcOfEdge(edges, a);
      ArcInEdge(e, a);
    }
    RankedIsAcyclic(SpecArcs(edges), x => Rank(level, x));
  }

  // ---------------------------------------------------------------- path sets

  /** `nodes` is closed backward, and inside it everything comes from `start` and leads to `goal`. */
  ghost predicate IsPathSet(arcs: set<Arc>, nodes: set<GraphNode>, start: GraphNode, goal: GraphNode)
  {
    && start in nodes && goal in nodes
    && (forall x {:trigger HasArcInto(arcs, x, nodes)} :: x in nodes && x != goal ==> HasArcInto(arcs, x, nodes))
    && (forall x {:trigger HasArcFrom(arcs, nodes, x)} :: x in nodes && x != start ==> HasArcFrom(arcs, nodes, x))
    && ClosedBackward(arcs, nodes)
  }

  ghost predicate ClosedBackward(arcs: set<Arc>, nodes: set<GraphNode>)
  {
    forall a :: a in arcs && a.dst in nodes ==> a.src in nodes
  }

  lemma {:induction false} LeadsToGoal(arcs: set<Arc>, nodes: set<GraphNode>, start: GraphNode, goal: GraphNode,
      x: GraphNode)
    requires Acyclic(arcs) && IsPathSet(arcs, nodes, start, goal) && x in nodes
    ensures Reaches(arcs, x, goal)
    decreases After(arcs, x)
  {
    if x == goal {
      ReachesSelf(arcs, x);
    } else {
      assert HasArcInto(arcs, x, nodes);
      var a :| a in arcs && a.src == x && a.dst in nodes;
      AfterShrinks(arcs, a);
      LeadsToGoal(arcs, nodes, start, goal, a.dst);
      ReachesStep(arcs, a, goal);
    }
  }

  lemma {:induction false} ComesFromStart(arcs: set<Arc>, nodes: set<GraphNode>, start: GraphNode, goal: GraphNode,
      x: GraphNode)
    requires Acyclic(arcs) && IsPathSet(arcs, nodes, start, goal) && x in nodes
    ensures Reaches(arcs, start, x)
    decreases Before(arcs, x)
  {
    if x == start {
      ReachesSelf(arcs, x);
    } else {
      assert HasArcFrom(arcs, nodes, x);
      var a :| a in arcs && a.dst == x && a.src in nodes;
      BeforeGrows(arcs, a);
      ComesFromStart(arcs, nodes, start, goal, a.src);
      ReachesArc(arcs, start, a);
    }
  }

  lemma {:induction false} StaysInside(arcs: set<Arc>, nodes: set<GraphNode>, x: GraphNode, w: seq<Arc>,
      goal: GraphNode)
    requires IsWalk(arcs, x, w, goal) && goal in nodes && ClosedBackward(arcs, nodes)
    ensures x in nodes
    decreases |w|
  {
    if w != [] {
      StaysInside(arcs, nodes, w[0].dst, w[1..], goal);
    }
  }

  lemma PathSetIsSubgraph(arcs: set<Arc>, universe: set<GraphNode>, nodes: set<GraphNode>, start: GraphNode,
      goal: GraphNode)
    requires Acyclic(arcs) && Covers(universe, arcs) && IsPathSet(arcs, nodes, start, goal) && start.Vertex?
    requires goal.InputPort?
    ensures PathSubgraph(arcs, universe, {start}, goal) == nodes
  {
    forall x ensures x in PathSubgraph(arcs, universe, {start}, goal) <==> x in nodes {
      InPathSubgraph(arcs, universe, {start}, goal, x);
      if x in nodes {
        LeadsToGoal(arcs, nodes, start, goal, x);
        ComesFromStart(arcs, nodes, start, goal, x);
        WalkedToIsCovered(universe, arcs, start, x, goal);
      }
      if Reaches(arcs, x, goal) {
        var w :| IsWalk(arcs, x, w, goal);
        StaysInside(arcs, nodes, x, w, goal);
      }
    }
  }

  // ---------------------------------------------------------------- edges on the way

  /** The nodes of an edge, the vertex it leads to left out. */
  function NodesAlong(e: DagEdge): set<GraphNode>
  {
    {OriginNode(e), VariantNode(e), PortNode(e.origin), InputNode(e)}
  }

  ghost function NodesOn(k: set<DagEdge>): set<GraphNode>
  {
    set e, x | e in k && x in NodesAlong(e) :: x
  }

  /** The edge leads to the goal at once or by way of an edge of `k`. */
  ghost predicate LeadsOn(k: set<DagEdge>, goal: GraphNode, e: DagEdge)
  {
    InputNode(e) == goal || exists f :: f in k && OriginNode(f) == DestinationNode(e)
  }

  ghost predicate ComesFrom(k: set<DagEdge>, start: GraphNode, e: DagEdge)
  {
    OriginNode(e) == start || exists f :: f in k && DestinationNode(f) == OriginNode(e)
  }

  /** `k` holds the edges on the way from `start` to `goal`. */
  ghost predicate IsWay(edges: seq<DagEdge>, k: set<DagEdge>, start: GraphNode, goal: GraphNode)
  {
    && (forall e :: e in k ==> e in edges)
    && (exists e :: e in k && OriginNode(e) == start)
    && (exists e :: e in k && InputNode(e) == goal)
    && (forall e :: e in edges ==> (e in k <==> LeadsOn(k, goal, e)))
    && (forall e :: e in k ==> ComesFrom(k, start, e))
  }

  lemma EdgeOnWay(k: set<DagEdge>, e: DagEdge)
    requires e in k
    ensures OriginNode(e) in NodesOn(k) && VariantNode(e) in NodesOn(k) && PortNode(e.origin) in NodesOn(k)
    ensures InputNode(e) in NodesOn(k)
  {
    forall x | x in NodesAlong(e) ensures x in NodesOn(k) {
    }
    assert OriginNode(e) in NodesAlong(e) && VariantNode(e) in NodesAlong(e);
    assert PortNode(e.origin) in NodesAlong(e) && InputNode(e) in NodesAlong(e);
  }

  lemma NodeOnWay(k: set<DagEdge>, x: GraphNode) returns (e: DagEdge)
    requires x in NodesOn(k)
    ensures e in k && (x == OriginNode(e) || x == VariantNode(e) || x == PortNode(e.origin) || x == InputNode(e))
  {
    e :| e in k && x in NodesAlong(e);
  }

  lemma LinkInto(arcs: set<Arc>, nodes: set<GraphNode>, a: Arc)
    requires a in arcs && a.dst in nodes
    ensures HasArcInto(arcs, a.src, nodes)
  {
  }

  lemma LinkFrom(arcs: set<Arc>, nodes: set<GraphNode>, a: Arc)
    requires a in arcs && a.src in nodes
    ensures HasArcFrom(arcs, nodes, a.dst)
  {
  }

  /** The four arcs of an edge. */
  lemma FourArcs(edges: seq<DagEdge>, e: DagEdge)
    requires e in edges
    ensures Arc(OriginNode(e), Normal, VariantNode(e)) in SpecArcs(edges)
    ensures Arc(VariantNode(e), Normal, PortNode(e.origin)) in SpecArcs(edges)
    ensures PortArc(e) in SpecArcs(edges) && Arc(InputNode(e), Normal, DestinationNode(e)) in SpecArcs(edges)
  {
    assert EdgeArcs(e) <= SpecArcs(edges);
    assert PortArc(e) in EdgeArcs(e);
  }

  lemma EdgeFeeds(edges: seq<DagEdge>, e: DagEdge)
    requires e in edges
    ensures Feeds(SpecArcs(edges), PortNode(e.origin), InputNode(e))
  {
    FourArcs(edges, e);
    assert PortArc(e).src == PortNode(e.origin);
  }

  lemma VariantIsNext(edges: seq<DagEdge>, e: DagEdge)
    requires e in edges
    ensures VariantNode(e) in Succ(SpecArcs(edges), OriginNode(e))
  {
    FourArcs(edges, e);
    var a := Arc(OriginNode(e), Normal, VariantNode(e));
    assert a.src == OriginNode(e) && a.dst == VariantNode(e);
  }

  lemma WayLeadsOn(edges: seq<DagEdge>, k: set<DagEdge>, start: GraphNode, goal: GraphNode, x: GraphNode)
    requires IsWay(edges, k, start, goal) && x in NodesOn(k) && x != goal
    ensures HasArcInto(SpecArcs(edges), x, NodesOn(k))
  {
    var e := NodeOnWay(k, x);
    EdgeOnWay(k, e);
    FourArcs(edges, e);
    if x == OriginNode(e) {
      LinkInto(SpecArcs(edges), NodesOn(k), Arc(OriginNode(e), Normal, VariantNode(e)));
    } else if x == VariantNode(e) {
      LinkInto(SpecArcs(edges), NodesOn(k), Arc(VariantNode(e), Normal, PortNode(e.origin)));
    } else if x == PortNode(e.origin) {
      LinkInto(SpecArcs(edges), NodesOn(k), PortArc(e));
    } else {
      assert LeadsOn(k, goal, e);
      var f :| f in k && OriginNode(f) == DestinationNode(e);
      EdgeOnWay(k, f);
      LinkInto(SpecArcs(edges), NodesOn(k), Arc(InputNode(e), Normal, DestinationNode(e)));
    }
  }

  lemma WayComesFrom(edges: seq<DagEdge>, k: set<DagEdge>, start: GraphNode, goal: GraphNode, x: GraphNode)
    requires IsWay(edges, k, start, goal) && x in NodesOn(k) && x != start
    ensures HasArcFrom(SpecArcs(edges), NodesOn(k), x)
  {
    var e := NodeOnWay(k, x);
    EdgeOnWay(k, e);
    FourArcs(edges, e);
    if x == VariantNode(e) {
      LinkFrom(SpecArcs(edges), NodesOn(k), Arc(OriginNode(e), Normal, VariantNode(e)));
    } else if x == PortNode(e.origin) {
      LinkFrom(SpecArcs(edges), NodesOn(k), Arc(VariantNode(e), Normal, PortNode(e.origin)));
    } else if x == InputNode(e) {
      LinkFrom(SpecArcs(edges), NodesOn(k), PortArc(e));
    } else {
      assert ComesFrom(k, start, e);
      var f :| f in k && DestinationNode(f) == OriginNode(e);
      EdgeOnWay(k, f);
      FourArcs(edges, f);
      LinkFrom(SpecArcs(edges), NodesOn(k), Arc(InputNode(f), Normal, DestinationNode(f)));
    }
  }

  /** What enters the way is on it. */
  lemma WayIsClosed(edges: seq<DagEdge>, k: set<DagEdge>, start: GraphNode, goal: GraphNode, a: Arc)
    requires IsWay(edges, k, start, goal) && a in SpecArcs(edges) && a.dst in NodesOn(k)
    ensures a.src in NodesOn(k)
  {
    var g := ArcOfEdge(edges, a);
    ArcInEdge(g, a);
    var e := NodeOnWay(k, a.dst);
    EdgeOnWay(k, e);
    if a.src.OutputPort? || a.src.InputPort? {
      assert LeadsOn(k, goal, e);
      if a.src.OutputPort? && InputNode(g) != goal {
        var f :| f in k && OriginNode(f) == DestinationNode(e);
        assert OriginNode(f) == DestinationNode(g);
      }
      assert LeadsOn(k, goal, g);
      EdgeOnWay(k, g);
    }
  }

  lemma WayIsPathSet(edges: seq<DagEdge>, k: set<DagEdge>, start: GraphNode, goal: GraphNode)
    requires IsWay(edges, k, start, goal)
    ensures IsPathSet(SpecArcs(edges), NodesOn(k), start, goal)
  {
    var e :| e in k && OriginNode(e) == start;
    EdgeOnWay(k, e);
    var f :| f in k && InputNode(f) == goal;
    EdgeOnWay(k, f);
    forall x | x in NodesOn(k) && x != goal ensures HasArcInto(SpecArcs(edges), x, NodesOn(k)) {
      WayLeadsOn(edges, k, start, goal, x);
    }
    forall x | x in NodesOn(k) && x != start ensures HasArcFrom(SpecArcs(edges), NodesOn(k), x) {
      WayComesFrom(edges, k, start, goal, x);
    }
    forall a | a in SpecArcs(edges) && a.dst in NodesOn(k) ensures a.src in NodesOn(k) {
      WayIsClosed(edges, k, start, goal, a);
    }
  }

  /** The path subgraph consists of the edges on the way. */
  lemma WayIsSubgraph(dag: DagSpec, k: set<DagEdge>, start: GraphNode, goal: GraphNode)
    requires Acyclic(SpecArcs(dag.edges)) && IsWay(dag.edges, k, start, goal) && start.Vertex? && goal.InputPort?
    ensures PathSubgraph(SpecArcs(dag.edges), SpecNodes(dag), {start}, goal) == NodesOn(k)
  {
    SpecNodesCoverArcs(dag);
    WayIsPathSet(dag.edges, k, start, goal);
    PathSetIsSubgraph(SpecArcs(dag.edges), SpecNodes(dag), NodesOn(k), start, goal);
  }

  // ---------------------------------------------------------------- choices on the way

  /** The choice takes the variant of the edge. */
  ghost predicate Takes(c: map<GraphNode, GraphNode>, e: DagEdge)
  {
    OriginNode(e) in c && c[OriginNode(e)] == VariantNode(e)
  }

  ghost function PortsTaken(k: set<DagEdge>, c: map<GraphNode, GraphNode>): set<GraphNode>
  {
    set e | e in k && Takes(c, e) :: PortNode(e.origin)
  }

  ghost function InputsOn(k: set<DagEdge>): set<GraphNode>
  {
    set e | e in k :: InputNode(e)
  }

  lemma LiveOnWay(k: set<DagEdge>, c: map<GraphNode, GraphNode>)
    ensures Live(NodesOn(k), c) == PortsTaken(k, c)
    ensures InputPorts(NodesOn(k)) == InputsOn(k)
  {
    forall x | x in Live(NodesOn(k), c) ensures x in PortsTaken(k, c) {
      var e := NodeOnWay(k, x);
      assert Takes(c, e);
    }
    forall x | x in PortsTaken(k, c) ensures x in Live(NodesOn(k), c) {
      var e :| e in k && Takes(c, e) && PortNode(e.origin) == x;
      EdgeOnWay(k, e);
    }
    forall x | x in InputPorts(NodesOn(k)) ensures x in InputsOn(k) {
      var e := NodeOnWay(k, x);
    }
    forall x | x in InputsOn(k) ensures x in InputPorts(NodesOn(k)) {
      var e :| e in k && InputNode(e) == x;
      EdgeOnWay(k, e);
    }
  }

  /** A choice takes some edge at every vertex of the way. */
  lemma ChoiceTakes(edges: seq<DagEdge>, k: set<DagEdge>, c: map<GraphNode, GraphNode>, e: DagEdge) returns (f: DagEdge)
    requires IsChoice(SpecArcs(edges), NodesOn(k), c) && e in k
    ensures f in k && OriginNode(f) == OriginNode(e) && Takes(c, f)
  {
    EdgeOnWay(k, e);
    var v := OriginNode(e);
    assert c[v] in Succ(SpecArcs(edges), v) && c[v] in NodesOn(k);
    var a :| a in SpecArcs(edges) && a.src == v && a.dst == c[v];
    var g := ArcOfEdge(edges, a);
    ArcInEdge(g, a);
    f := NodeOnWay(k, c[v]);
  }

  /** If every choice takes as many ports as there are inputs on the way, the port is balanced. */
  lemma WayBalances(dag: DagSpec, k: set<DagEdge>, start: GraphNode, goal: GraphNode)
    requires DistinctOrigins(dag.edges) && Acyclic(SpecArcs(dag.edges))
    requires IsWay(dag.edges, k, start, goal) && start.Vertex? && goal.InputPort?
    requires forall c :: IsChoice(SpecArcs(dag.edges), NodesOn(k), c) ==> |PortsTaken(k, c)| == |InputsOn(k)|
    ensures PortBalanced(SpecArcs(dag.edges), SpecNodes(dag), {start}, goal)
  {
    SpecIsFourLayered(dag.edges);
    SpecNodesCoverArcs(dag);
    WayIsSubgraph(dag, k, start, goal);
    PathSubgraphIsFunnel(SpecArcs(dag.edges), SpecNodes(dag), {start}, goal);
    forall c | IsChoice(SpecArcs(dag.edges), NodesOn(k), c)
      ensures |Live(NodesOn(k), c)| == |InputPorts(NodesOn(k))|
    {
      LiveOnWay(k, c);
    }
    BalancedChoicesNet(SpecArcs(dag.edges), NodesOn(k), goal);
    var e :| e in k && OriginNode(e) == start;
    EdgeOnWay(k, e);
  }

  /** A way of a single edge is balanced. */
  lemma SingleEdgeBalances(dag: DagSpec, k: set<DagEdge>, e: DagEdge)
    requires DistinctOrigins(dag.edges) && Acyclic(SpecArcs(dag.edges))
    requires k == {e} && IsWay(dag.edges, k, OriginNode(e), InputNode(e))
    ensures PortBalanced(SpecArcs(dag.edges), SpecNodes(dag), {OriginNode(e)}, InputNode(e))
  {
    forall c | IsChoice(SpecArcs(dag.edges), NodesOn(k), c) ensures |PortsTaken(k, c)| == |InputsOn(k)| {
      var f := ChoiceTakes(dag.edges, k, c, e);
      SingleEdgeCounts(k, c, e);
    }
    WayBalances(dag, k, OriginNode(e), InputNode(e));
  }

  lemma SingleEdgeCounts(k: set<DagEdge>, c: map<GraphNode, GraphNode>, e: DagEdge)
    requires k == {e} && Takes(c, e)
    ensures |PortsTaken(k, c)| == |InputsOn(k)|
  {
    assert PortsTaken(k, c) == {PortNode(e.origin)} && InputsOn(k) == {InputNode(e)};
  }

  // ---------------------------------------------------------------- runs, edge by edge

  /** The run sends a value along the edge. */
  ghost predicate Carries(r: Run, e: DagEdge)
  {
    OriginNode(e) in r.fired && Takes(r.choice, e)
  }

  lemma CarriedIsEmitted(edges: seq<DagEdge>, r: Run, e: DagEdge)
    requires e in edges && Carries(r, e)
    ensures PortNode(e.origin) in Emitted(SpecArcs(edges), r)
    ensures Feeds(SpecArcs(edges), PortNode(e.origin), InputNode(e))
  {
    FourArcs(edges, e);
    ChosenIsEmitted(SpecArcs(edges), r, PortNode(e.origin));
    assert PortArc(e).src == PortNode(e.origin);
  }

  lemma TwoCarriedRace(edges: seq<DagEdge>, r: Run, e: DagEdge, f: DagEdge)
    requires DistinctOrigins(edges) && e in edges && f in edges && e != f && InputNode(e) == InputNode(f)
    requires Carries(r, e) && Carries(r, f)
    ensures Races(SpecArcs(edges), r, PortNode(e.origin), PortNode(f.origin), InputNode(e))
  {
    CarriedIsEmitted(edges, r, e);
    CarriedIsEmitted(edges, r, f);
    if e.origin == f.origin {
      SameOriginSameEdge(edges, e, f);
    }
  }

  lemma EmittedIsCarried(edges: seq<DagEdge>, starts: set<GraphNode>, r: Run, x: GraphNode,
      p: GraphNode) returns (e: DagEdge)
    requires DistinctOrigins(edges) && IsRun(SpecArcs(edges), starts, r)
    requires x in Emitted(SpecArcs(edges), r) && Feeds(SpecArcs(edges), x, p)
    ensures e in edges && x == PortNode(e.origin) && p == InputNode(e) && Carries(r, e)
  {
    SpecIsFourLayered(edges);
    EmittedIsChosen(SpecArcs(edges), starts, r, x);
    var a :| a in SpecArcs(edges) && a.src == x && a.dst == p;
    e := ArcOfEdge(edges, a);
    ArcInEdge(e, a);
  }

  /** A vertex that runs without being an entry got a value on the input of each edge to it. */
  lemma FiredByEdge(edges: seq<DagEdge>, starts: set<GraphNode>, r: Run, e: DagEdge) returns (f: DagEdge)
    requires DistinctOrigins(edges) && IsRun(SpecArcs(edges), starts, r)
    requires e in edges && DestinationNode(e) in r.fired && DestinationNode(e) !in starts
    ensures f in edges && InputNode(f) == InputNode(e) && Carries(r, f)
  {
    FourArcs(edges, e);
    var a := Arc(InputNode(e), Normal, DestinationNode(e));
    assert a.src in Inputs(SpecArcs(edges), DestinationNode(e));
    assert Enabled(SpecArcs(edges), r, DestinationNode(e));
    assert Written(SpecArcs(edges), r, InputNode(e));
    var x :| x in Emitted(SpecArcs(edges), r) && Feeds(SpecArcs(edges), x, InputNode(e));
    f := EmittedIsCarried(edges, starts, r, x, InputNode(e));
  }

  // ---------------------------------------------------------------- plain specifications

  /** No groups, defaults or outputs, and ordinary edges only. */
  predicate Plain(dag: DagSpec)
  {
    && dag.entryGroups == [] && dag.defaultValues == [] && dag.outputs == []
    && forall e :: e in dag.edges ==> e.kind == Normal
  }

  /** The first vertex is the only entry. */
  predicate FirstIsEntry(dag: DagSpec, port: string)
  {
    && dag.vertices != [] && dag.vertices[0].entryPorts == [port]
    && forall i :: 0 < i < |dag.vertices| ==> dag.vertices[i].entryPorts == []
  }

  lemma PlainEntries(dag: DagSpec, port: string)
    requires Plain(dag) && FirstIsEntry(dag, port)
    ensures EntryPairs(dag) == {(Vertex(dag.vertices[0].name), DEFAULT_ENTRY_GROUP)}
    ensures EntryPortNodes(dag.vertices) == {InputPort(dag.vertices[0].name, port)}
    ensures GroupsOf(EntryPairs(dag)) == {DEFAULT_ENTRY_GROUP}
    ensures EntriesOf(EntryPairs(dag), DEFAULT_ENTRY_GROUP) == {Vertex(dag.vertices[0].name)}
  {
    var v := dag.vertices[0];
    assert v in dag.vertices && port in v.entryPorts;
    assert (Vertex(v.name), DEFAULT_ENTRY_GROUP) in EntryPairs(dag);
    assert InputPort(v.name, port) in EntryPortNodes(dag.vertices);
  }

  /** Every input port of the graph is that of an edge. */
  lemma InputOfEdge(dag: DagSpec, p: GraphNode) returns (e: DagEdge)
    requires p in SpecNodes(dag) && p.InputPort?
    ensures e in dag.edges && p == InputNode(e)
  {
    e :| e in dag.edges && p in EdgeNodes(e);
  }

  /** The vertices of an edge are connected. */
  lemma EdgeConnects(dag: DagSpec, e: DagEdge)
    requires e in dag.edges
    ensures OriginNode(e) in SpecNodes(dag) && DestinationNode(e) in SpecNodes(dag)
  {
    assert OriginNode(e) in EdgeNodes(e) && DestinationNode(e) in EdgeNodes(e);
  }

  ghost predicate NotEntered(edges: seq<DagEdge>, vertex: string)
  {
    forall e :: e in edges ==> DestinationName(e) != vertex
  }

  lemma PlainPortsFree(dag: DagSpec, port: string)
    requires Plain(dag) && FirstIsEntry(dag, port) && dag.edges != [] && NotEntered(dag.edges, dag.vertices[0].name)
    ensures EntryPortsFree(dag)
  {
    PlainEntries(dag, port);
    forall x | x in SpecNodes(dag) && x.InputPort? ensures x !in EntryPortNodes(dag.vertices) {
      var e :| e in dag.edges && x in EdgeNodes(e);
    }
    forall v | v in dag.vertices ensures Distinct(v.entryPorts) {
    }
  }

  lemma PlainIsStructured(dag: DagSpec, port: string)
    requires Plain(dag) && FirstIsEntry(dag, port) && dag.edges != [] && NotEntered(dag.edges, dag.vertices[0].name)
    requires DistinctOrigins(dag.edges) && DistinctNames(dag.vertices) && VerticesConnected(dag)
    ensures StructureOk(dag)
  {
    PlainEntries(dag, port);
    PlainPortsFree(dag, port);
  }

  /** The facts about names from which the structure of a plain workflow follows. */
  ghost predicate WellNamed(dag: DagSpec, port: string, level: string -> nat)
  {
    && Plain(dag) && FirstIsEntry(dag, port) && dag.edges != [] && NotEntered(dag.edges, dag.vertices[0].name)
    && DistinctOrigins(dag.edges) && DistinctNames(dag.vertices) && Levelled(dag.edges, level)
  }

  lemma WellNamedIsStructured(dag: DagSpec, port: string, level: string -> nat)
    requires WellNamed(dag, port, level) && VerticesConnected(dag)
    ensures StructureOk(dag) && Acyclic(SpecArcs(dag.edges))
  {
    LevelsClimb(dag.edges, level);
    PlainIsStructured(dag, port);
  }

  /** A plain workflow that passes the structural rules and is acyclic. */
  ghost predicate IsPlainWorkflow(dag: DagSpec, port: string, start: GraphNode)
  {
    && Plain(dag) && FirstIsEntry(dag, port) && start == Vertex(dag.vertices[0].name)
    && StructureOk(dag) && Acyclic(SpecArcs(dag.edges))
  }

  lemma {:induction false} WalkKinds(arcs: set<Arc>, n: GraphNode, w: seq<Arc>, z: GraphNode)
    requires (forall x :: x in arcs ==> x.kind == Normal) && IsWalk(arcs, n, w, z)
    ensures ForEachPairs.AllNormal(ForEachPairs.Kinds(w))
    decreases |w|
  {
    if w != [] {
      WalkKinds(arcs, w[0].dst, w[1..], z);
      assert w == [w[0]] + w[1..];
      ForEachPairs.KindsCons(w[0], w[1..]);
      assert ForEachPairs.Kinds(w) == [w[0].kind] + ForEachPairs.Kinds(w[1..]);
    }
  }

  /** Without loops and for-each edges the last two analyses have nothing to refuse. */
  lemma PlainHasNothingToPair(dag: DagSpec, n: GraphNode)
    requires Plain(dag)
    ensures ForEachPairs.WalksPaired(SpecArcs(dag.edges), n) && Nesting.LoopsNotNested(dag)
  {
    forall x | x in SpecArcs(dag.edges) ensures x.kind == Normal {
      var e := ArcOfEdge(dag.edges, x);
      ArcInEdge(e, x);
    }
    forall w, z | IsWalk(SpecArcs(dag.edges), n, w, z) ensures ForEachPairs.Paired(ForEachPairs.Kinds(w)) {
      WalkKinds(SpecArcs(dag.edges), n, w, z);
      ForEachPairs.NormalWordsPaired(ForEachPairs.Kinds(w));
    }
  }

  /** The input of the edge is balanced. */
  ghost predicate Balances(dag: DagSpec, start: GraphNode, e: DagEdge)
  {
    PortBalanced(SpecArcs(dag.edges), SpecNodes(dag), {start}, InputNode(e))
  }

  /** A plain workflow is accepted if every input of an edge is balanced. */
  lemma PlainIsAccepted(dag: DagSpec, port: string, start: GraphNode)
    requires IsPlainWorkflow(dag, port, start) && forall e :: e in dag.edges ==> Balances(dag, start, e)
    ensures Validator.Accepts(dag)
  {
    PlainEntries(dag, port);
    PlainHasNothingToPair(dag, start);
    forall p | p in SpecNodes(dag) && p.InputPort?
      ensures PortBalanced(SpecArcs(dag.edges), SpecNodes(dag), {start}, p)
    {
      var e := InputOfEdge(dag, p);
      assert Balances(dag, start, e);
    }
  }
}
