/** What a net concurrency of a path subgraph says about the ways of choosing one output variant at every
    vertex of it, whether or not these vertices run together. What it says about runs is in `RunWitness`. */
module ConcurrencyWitness {
  import opened Walks
  import opened DagSpecs
  import opened FiniteSets
  import opened Concurrency
  import Validator

  // ---------------------------------------------------------------- path subgraphs

  /** Everything but the goal leads on inside `nodes`, and everything but a vertex is led to from inside. */
  ghost predicate Funnel(arcs: set<Arc>, nodes: set<GraphNode>, goal: GraphNode)
  {
    && goal.InputPort?
    && (forall x {:trigger HasArcInto(arcs, x, nodes)} :: x in nodes && x != goal ==> HasArcInto(arcs, x, nodes))
    && (forall x {:trigger HasArcFrom(arcs, nodes, x)} :: x in nodes && !x.Vertex? ==> HasArcFrom(arcs, nodes, x))
  }

  ghost predicate HasArcFrom(arcs: set<Arc>, nodes: set<GraphNode>, x: GraphNode)
  {
    exists a :: a in arcs && a.dst == x && a.src in nodes
  }

  lemma ArcOn(arcs: set<Arc>, nodes: set<GraphNode>, goal: GraphNode, x: GraphNode) returns (a: Arc)
    requires Funnel(arcs, nodes, goal) && x in nodes && x != goal
    ensures a in arcs && a.src == x && a.dst in nodes
  {
    assert HasArcInto(arcs, x, nodes);
    a :| a in arcs && a.src == x && a.dst in nodes;
  }

  lemma ArcBack(arcs: set<Arc>, nodes: set<GraphNode>, goal: GraphNode, x: GraphNode) returns (a: Arc)
    requires Funnel(arcs, nodes, goal) && x in nodes && !x.Vertex?
    ensures a in arcs && a.dst == x && a.src in nodes
  {
    assert HasArcFrom(arcs, nodes, x);
    a :| a in arcs && a.dst == x && a.src in nodes;
  }

  ghost predicate Covers(universe: set<GraphNode>, arcs: set<Arc>)
  {
    forall a :: a in arcs ==> a.src in universe && a.dst in universe
  }

  lemma InPathSubgraph(arcs: set<Arc>, universe: set<GraphNode>, starts: set<GraphNode>, goal: GraphNode, x: GraphNode)
    requires Acyclic(arcs) && goal.InputPort? && forall v :: v in starts ==> v.Vertex?
    ensures x in PathSubgraph(arcs, universe, starts, goal) <==>
            x in universe && exists v :: v in starts && Reaches(arcs, v, x) && Reaches(arcs, x, goal)
  {
    forall v | v in starts
      ensures OnSimplePath(arcs, v, goal, x) <==> Reaches(arcs, v, x) && Reaches(arcs, x, goal)
    {
      SimplePathsAreReachability(arcs, v, goal, x);
    }
  }

  lemma PathSubgraphIsFunnel(arcs: set<Arc>, universe: set<GraphNode>, starts: set<GraphNode>, goal: GraphNode)
    requires Acyclic(arcs) && Covers(universe, arcs)
    requires goal.InputPort? && forall v :: v in starts ==> v.Vertex?
    ensures Funnel(arcs, PathSubgraph(arcs, universe, starts, goal), goal)
  {
    var nodes := PathSubgraph(arcs, universe, starts, goal);
    forall x | x in nodes && x != goal ensures HasArcInto(arcs, x, nodes) {
      InPathSubgraph(arcs, universe, starts, goal, x);
      var v :| v in starts && Reaches(arcs, v, x) && Reaches(arcs, x, goal);
      ReachesFirstLast(arcs, x, goal);
      var a :| a in arcs && a.src == x && Reaches(arcs, a.dst, goal);
      ReachesArc(arcs, v, a);
      InPathSubgraph(arcs, universe, starts, goal, a.dst);
    }
    forall x | x in nodes && !x.Vertex? ensures HasArcFrom(arcs, nodes, x) {
      InPathSubgraph(arcs, universe, starts, goal, x);
      var v :| v in starts && Reaches(arcs, v, x) && Reaches(arcs, x, goal);
      ReachesFirstLast(arcs, v, x);
      var a :| a in arcs && a.dst == x && Reaches(arcs, v, a.src);
      ReachesStep(arcs, a, goal);
      InPathSubgraph(arcs, universe, starts, goal, a.src);
    }
  }

  // ---------------------------------------------------------------- choices

  /** One output variant for every vertex of the subgraph. */
  ghost predicate IsChoice(arcs: set<Arc>, nodes: set<GraphNode>, c: map<GraphNode, GraphNode>)
  {
    && (forall v :: v in c <==> v in nodes && v.Vertex?)
    && (forall v :: v in c ==> c[v] in OutIn(arcs, nodes, v))
  }

  /** The output ports of the chosen variants. */
  ghost function Live(nodes: set<GraphNode>, c: map<GraphNode, GraphNode>): set<GraphNode>
  {
    set x | x in nodes && Chosen(c, x)
  }

  ghost predicate Chosen(c: map<GraphNode, GraphNode>, x: GraphNode)
  {
    x.OutputPort? && Vertex(x.vertex) in c && c[Vertex(x.vertex)] == OutputVariant(x.vertex, x.variant)
  }

  ghost function LiveOf(nodes: set<GraphNode>, c: map<GraphNode, GraphNode>, part: set<GraphNode>): set<GraphNode>
  {
    set x | x in nodes && Chosen(c, x) && Vertex(x.vertex) in part
  }

  ghost function InputPorts(nodes: set<GraphNode>): set<GraphNode>
  {
    set x | x in nodes && x.InputPort?
  }

  ghost function OutputPorts(nodes: set<GraphNode>): set<GraphNode>
  {
    set x | x in nodes && x.OutputPort?
  }

  ghost predicate Feeds(arcs: set<Arc>, x: GraphNode, port: GraphNode)
  {
    exists a :: a in arcs && a.src == x && a.dst == port
  }

  // ---------------------------------------------------------------- counting

  lemma PortPredecessor(arcs: set<Arc>, nodes: set<GraphNode>, goal: GraphNode, x: GraphNode)
    requires Layered(arcs) && Funnel(arcs, nodes, goal) && x in nodes && x.OutputPort?
    ensures Arc(OutputVariant(x.vertex, x.variant), Normal, x) in arcs && OutputVariant(x.vertex, x.variant) in nodes
  {
    var a := ArcBack(arcs, nodes, goal, x);
    assert LayeredArc(a);
  }

  /** A live port of a vertex is a port of the variant chosen there. */
  lemma LiveHere(arcs: set<Arc>, nodes: set<GraphNode>, goal: GraphNode, c: map<GraphNode, GraphNode>, v: GraphNode,
      x: GraphNode)
    requires Layered(arcs) && Funnel(arcs, nodes, goal) && v in c && v.Vertex?
    requires exists a :: a in arcs && a.src == v && a.dst == c[v]
    ensures x in LiveOf(nodes, c, {v}) <==> x in OutIn(arcs, nodes, c[v])
  {
    var a :| a in arcs && a.src == v && a.dst == c[v];
    assert LayeredArc(a);
    if x in LiveOf(nodes, c, {v}) {
      PortPredecessor(arcs, nodes, goal, x);
    }
    if x in OutIn(arcs, nodes, c[v]) {
      var b :| b in arcs && b.src == c[v] && b.dst == x;
      assert LayeredArc(b);
    }
  }

  lemma LiveOfOne(arcs: set<Arc>, nodes: set<GraphNode>, goal: GraphNode, c: map<GraphNode, GraphNode>, v: GraphNode)
    requires Layered(arcs) && Funnel(arcs, nodes, goal) && IsChoice(arcs, nodes, c) && v in c
    ensures LiveOf(nodes, c, {v}) == OutIn(arcs, nodes, c[v])
  {
    assert c[v] in Succ(arcs, v);
    forall x ensures x in LiveOf(nodes, c, {v}) <==> x in OutIn(arcs, nodes, c[v]) {
      LiveHere(arcs, nodes, goal, c, v, x);
    }
  }

  lemma PartSplit(nodes: set<GraphNode>, c: map<GraphNode, GraphNode>, rest: set<GraphNode>, n: GraphNode)
    requires n !in rest
    ensures |LiveOf(nodes, c, rest + {n})| == |LiveOf(nodes, c, rest)| + |LiveOf(nodes, c, {n})|
    ensures |InputPorts(rest + {n})| == |InputPorts(rest)| + if n.InputPort? then 1 else 0
  {
    assert LiveOf(nodes, c, rest + {n}) == LiveOf(nodes, c, rest) + LiveOf(nodes, c, {n});
    assert LiveOf(nodes, c, rest) !! LiveOf(nodes, c, {n});
    if n.InputPort? {
      assert InputPorts(rest + {n}) == InputPorts(rest) + {n};
    } else {
      assert InputPorts(rest + {n}) == InputPorts(rest);
    }
  }

  lemma ChoiceBound(arcs: set<Arc>, nodes: set<GraphNode>, c: map<GraphNode, GraphNode>, v: GraphNode)
    requires IsChoice(arcs, nodes, c) && v in c
    ensures Contribution(arcs, nodes, v) >= |OutIn(arcs, nodes, c[v])|
  {
    assert |OutIn(arcs, nodes, c[v])| - 1 in Spawned(arcs, nodes, v);
  }

  /** A choice that takes a widest variant everywhere. */
  ghost predicate IsWidest(arcs: set<Arc>, nodes: set<GraphNode>, c: map<GraphNode, GraphNode>)
  {
    forall v :: v in c ==> Contribution(arcs, nodes, v) == |OutIn(arcs, nodes, c[v])|
  }

  /** A variant of the subgraph has a port in it. */
  lemma VariantHasPort(arcs: set<Arc>, nodes: set<GraphNode>, goal: GraphNode, v: GraphNode, x: GraphNode)
    requires Layered(arcs) && Funnel(arcs, nodes, goal) && v.Vertex? && x in OutIn(arcs, nodes, v)
    ensures |OutIn(arcs, nodes, x)| >= 1
  {
    var b :| b in arcs && b.src == v && b.dst == x;
    assert LayeredArc(b);
    var d := ArcOn(arcs, nodes, goal, x);
    assert d.dst in OutIn(arcs, nodes, x);
  }

  lemma WidestVariant(arcs: set<Arc>, nodes: set<GraphNode>, goal: GraphNode, v: GraphNode)
    requires Layered(arcs) && Funnel(arcs, nodes, goal) && v in nodes && v.Vertex?
    ensures exists x :: x in OutIn(arcs, nodes, v) && Contribution(arcs, nodes, v) == |OutIn(arcs, nodes, x)|
  {
    var a := ArcOn(arcs, nodes, goal, v);
    assert a.dst in OutIn(arcs, nodes, v);
    var spawned := Spawned(arcs, nodes, v);
    assert |OutIn(arcs, nodes, a.dst)| - 1 in spawned;
    forall t | t in spawned ensures t >= 0 {
      var x :| x in OutIn(arcs, nodes, v) && t == |OutIn(arcs, nodes, x)| - 1;
      VariantHasPort(arcs, nodes, goal, v, x);
    }
    assert MaxOrZero(spawned) in spawned;
  }

  lemma WidestChoice(arcs: set<Arc>, nodes: set<GraphNode>, goal: GraphNode) returns (c: map<GraphNode, GraphNode>)
    requires Layered(arcs) && Funnel(arcs, nodes, goal)
    ensures IsChoice(arcs, nodes, c) && IsWidest(arcs, nodes, c)
  {
    forall v | v in nodes && v.Vertex?
      ensures exists x :: x in OutIn(arcs, nodes, v) && Contribution(arcs, nodes, v) == |OutIn(arcs, nodes, x)|
    {
      WidestVariant(arcs, nodes, goal, v);
    }
    c := map v | v in nodes && v.Vertex? ::
      var x :| x in OutIn(arcs, nodes, v) && Contribution(arcs, nodes, v) == |OutIn(arcs, nodes, x)|; x;
  }

  /** What one node adds to the surplus of live output ports over input ports. */
  ghost function Share(nodes: set<GraphNode>, c: map<GraphNode, GraphNode>, n: GraphNode): int
  {
    |LiveOf(nodes, c, {n})| - if n.InputPort? then 1 else 0
  }

  lemma {:induction false} SurplusIsSumOfShares(nodes: set<GraphNode>, c: map<GraphNode, GraphNode>,
      part: set<GraphNode>)
    ensures |LiveOf(nodes, c, part)| - |InputPorts(part)| == SumOver(part, n => Share(nodes, c, n))
  {
    if part == {} {
      assert LiveOf(nodes, c, part) == {} && InputPorts(part) == {};
    } else {
      var n :| n in part;
      var rest := part - {n};
      SurplusIsSumOfShares(nodes, c, rest);
      SumWithout(part, m => Share(nodes, c, m), n);
      assert part == rest + {n};
      PartSplit(nodes, c, rest, n);
    }
  }

  lemma ContributionOfOne(arcs: set<Arc>, nodes: set<GraphNode>, goal: GraphNode, c: map<GraphNode, GraphNode>,
      n: GraphNode)
    requires Layered(arcs) && Funnel(arcs, nodes, goal) && IsChoice(arcs, nodes, c) && n in nodes
    ensures Contribution(arcs, nodes, n) >= Share(nodes, c, n)
    ensures IsWidest(arcs, nodes, c) ==> Contribution(arcs, nodes, n) == Share(nodes, c, n)
  {
    if n.Vertex? {
      LiveOfOne(arcs, nodes, goal, c, n);
      ChoiceBound(arcs, nodes, c, n);
    } else {
      assert LiveOf(nodes, c, {n}) == {};
    }
  }

  lemma NetBound(arcs: set<Arc>, nodes: set<GraphNode>, goal: GraphNode, c: map<GraphNode, GraphNode>)
    requires Layered(arcs) && Funnel(arcs, nodes, goal) && IsChoice(arcs, nodes, c)
    ensures Net(arcs, nodes) >= |LiveOf(nodes, c, nodes)| - |InputPorts(nodes)|
    ensures IsWidest(arcs, nodes, c) ==> Net(arcs, nodes) == |LiveOf(nodes, c, nodes)| - |InputPorts(nodes)|
  {
    forall n | n in nodes
      ensures Contribution(arcs, nodes, n) >= Share(nodes, c, n)
      ensures IsWidest(arcs, nodes, c) ==> Contribution(arcs, nodes, n) == Share(nodes, c, n)
    {
      ContributionOfOne(arcs, nodes, goal, c, n);
    }
    SurplusIsSumOfShares(nodes, c, nodes);
    SumMonotone(nodes, n => Contribution(arcs, nodes, n), n => Share(nodes, c, n));
  }

  lemma LiveIsLiveOfAll(arcs: set<Arc>, nodes: set<GraphNode>, c: map<GraphNode, GraphNode>)
    requires IsChoice(arcs, nodes, c)
    ensures Live(nodes, c) == LiveOf(nodes, c, nodes)
  {
  }

  /** Net concurrency is the largest surplus of live output ports over input ports that any choice of
      variants produces, and some choice produces it. */
  lemma NetIsLargestSurplus(arcs: set<Arc>, nodes: set<GraphNode>, goal: GraphNode)
    requires Layered(arcs) && Funnel(arcs, nodes, goal)
    ensures forall c :: IsChoice(arcs, nodes, c) ==> Net(arcs, nodes) >= |Live(nodes, c)| - |InputPorts(nodes)|
    ensures exists c :: IsChoice(arcs, nodes, c) && Net(arcs, nodes) == |Live(nodes, c)| - |InputPorts(nodes)|
  {
    forall c | IsChoice(arcs, nodes, c)
      ensures Net(arcs, nodes) >= |Live(nodes, c)| - |InputPorts(nodes)|
    {
      LiveIsLiveOfAll(arcs, nodes, c);
      NetBound(arcs, nodes, goal, c);
    }
    var c := WidestChoice(arcs, nodes, goal);
    LiveIsLiveOfAll(arcs, nodes, c);
    NetBound(arcs, nodes, goal, c);
  }

  // ---------------------------------------------------------------- witnesses

  /** The input port an output port leads to. */
  ghost function Fed(arcs: set<Arc>, x: GraphNode): GraphNode
  {
    if exists a :: a in arcs && a.src == x then (var a :| a in arcs && a.src == x; a.dst) else x
  }

  lemma FedIsInside(arcs: set<Arc>, nodes: set<GraphNode>, goal: GraphNode, x: GraphNode)
    requires FourLayered(arcs) && Funnel(arcs, nodes, goal) && x in nodes && x.OutputPort?
    ensures Fed(arcs, x) in InputPorts(nodes)
    ensures forall port :: Feeds(arcs, x, port) <==> port == Fed(arcs, x)
  {
    var a := ArcOn(arcs, nodes, goal, x);
    assert LayeredArc(a);
    var b :| b in arcs && b.src == x && Fed(arcs, x) == b.dst;
    assert a == b;
  }

  /** Two different live output ports lead to one input port. */
  ghost predicate Clash(arcs: set<Arc>, live: set<GraphNode>, x: GraphNode, y: GraphNode, port: GraphNode)
  {
    x in live && y in live && x != y && Feeds(arcs, x, port) && Feeds(arcs, y, port)
  }

  /** The chosen variants have more output ports than the subgraph has input ports. */
  ghost predicate Overloads(nodes: set<GraphNode>, c: map<GraphNode, GraphNode>)
  {
    |Live(nodes, c)| > |InputPorts(nodes)|
  }

  ghost predicate FallsShort(nodes: set<GraphNode>, c: map<GraphNode, GraphNode>)
  {
    |Live(nodes, c)| < |InputPorts(nodes)|
  }

  lemma OverloadIsClash(arcs: set<Arc>, nodes: set<GraphNode>, goal: GraphNode, c: map<GraphNode, GraphNode>)
    returns (x: GraphNode, y: GraphNode, port: GraphNode)
    requires FourLayered(arcs) && Funnel(arcs, nodes, goal) && Overloads(nodes, c)
    ensures port in InputPorts(nodes) && Clash(arcs, Live(nodes, c), x, y, port)
  {
    forall z | z in Live(nodes, c) ensures Fed(arcs, z) in InputPorts(nodes) {
      FedIsInside(arcs, nodes, goal, z);
    }
    x, y := Pigeonhole(Live(nodes, c), InputPorts(nodes), (z: GraphNode) => Fed(arcs, z));
    FedIsInside(arcs, nodes, goal, x);
    FedIsInside(arcs, nodes, goal, y);
    port := Fed(arcs, x);
  }

  /** A positive net concurrency is an overload under some choice of variants: the chosen variants have more
      output ports than there are input ports, so that two lead to one. */
  lemma PositiveNetIsOverload(arcs: set<Arc>, nodes: set<GraphNode>, goal: GraphNode)
    returns (c: map<GraphNode, GraphNode>, x: GraphNode, y: GraphNode, port: GraphNode)
    requires FourLayered(arcs) && Funnel(arcs, nodes, goal) && Net(arcs, nodes) > 0
    ensures IsChoice(arcs, nodes, c) && Overloads(nodes, c)
    ensures port in InputPorts(nodes) && Clash(arcs, Live(nodes, c), x, y, port)
  {
    NetIsLargestSurplus(arcs, nodes, goal);
    c :| IsChoice(arcs, nodes, c) && Net(arcs, nodes) == |Live(nodes, c)| - |InputPorts(nodes)|;
    x, y, port := OverloadIsClash(arcs, nodes, goal, c);
  }

  /** A negative net concurrency is a shortage under every choice of variants: they have fewer output ports
      than there are input ports, so that one is fed by none. */
  lemma NegativeNetIsShortage(arcs: set<Arc>, nodes: set<GraphNode>, goal: GraphNode, c: map<GraphNode, GraphNode>)
    returns (port: GraphNode)
    requires FourLayered(arcs) && Funnel(arcs, nodes, goal) && Net(arcs, nodes) < 0
    requires IsChoice(arcs, nodes, c)
    ensures FallsShort(nodes, c)
    ensures port in InputPorts(nodes) && forall x :: x in Live(nodes, c) ==> !Feeds(arcs, x, port)
  {
    NetIsLargestSurplus(arcs, nodes, goal);
    port := EmptyHole(Live(nodes, c), InputPorts(nodes), (z: GraphNode) => Fed(arcs, z));
    forall x | x in Live(nodes, c) ensures !Feeds(arcs, x, port) {
      FedIsInside(arcs, nodes, goal, x);
    }
  }

  // ---------------------------------------------------------------- one variant per vertex

  ghost predicate OneVariantEach(arcs: set<Arc>, nodes: set<GraphNode>)
  {
    forall v, x, y :: v in nodes && v.Vertex? && x in OutIn(arcs, nodes, v) && y in OutIn(arcs, nodes, v) ==> x == y
  }

  lemma OneVariantAllLive(arcs: set<Arc>, nodes: set<GraphNode>, goal: GraphNode, c: map<GraphNode, GraphNode>)
    requires Layered(arcs) && Funnel(arcs, nodes, goal) && OneVariantEach(arcs, nodes) && IsChoice(arcs, nodes, c)
    ensures Live(nodes, c) == OutputPorts(nodes)
  {
    forall x | x in OutputPorts(nodes) ensures x in Live(nodes, c) {
      var a := ArcBack(arcs, nodes, goal, x);
      assert LayeredArc(a);
      var variant := a.src;
      var b := ArcBack(arcs, nodes, goal, variant);
      assert LayeredArc(b);
      assert variant in OutIn(arcs, nodes, b.src);
    }
  }

  /** The input port has exactly one output port of the subgraph that leads to it. */
  ghost predicate FedOnce(arcs: set<Arc>, nodes: set<GraphNode>, port: GraphNode)
  {
    exists x :: x in OutputPorts(nodes) && Feeds(arcs, x, port) &&
      forall y :: y in OutputPorts(nodes) && Feeds(arcs, y, port) ==> y == x
  }

  lemma FedImageIsInputPorts(arcs: set<Arc>, nodes: set<GraphNode>, goal: GraphNode)
    requires FourLayered(arcs) && Funnel(arcs, nodes, goal)
    ensures Image(OutputPorts(nodes), (z: GraphNode) => Fed(arcs, z)) == InputPorts(nodes)
  {
    var f := (z: GraphNode) => Fed(arcs, z);
    forall p | p in InputPorts(nodes) ensures p in Image(OutputPorts(nodes), f) {
      var a := ArcBack(arcs, nodes, goal, p);
      assert LayeredArc(a);
      FedIsInside(arcs, nodes, goal, a.src);
      assert Feeds(arcs, a.src, p);
      assert f(a.src) == p;
    }
    forall p | p in Image(OutputPorts(nodes), f) ensures p in InputPorts(nodes) {
      var x :| x in OutputPorts(nodes) && f(x) == p;
      FedIsInside(arcs, nodes, goal, x);
    }
  }

  /** With one variant per vertex, net concurrency counts output ports minus input ports, is never
      negative, and is 0 exactly when every input port is fed by exactly one output port. */
  lemma SingleVariantNet(arcs: set<Arc>, nodes: set<GraphNode>, goal: GraphNode)
    requires FourLayered(arcs) && Funnel(arcs, nodes, goal) && OneVariantEach(arcs, nodes)
    ensures Net(arcs, nodes) == |OutputPorts(nodes)| - |InputPorts(nodes)|
    ensures Net(arcs, nodes) >= 0
    ensures Net(arcs, nodes) == 0 <==> forall port :: port in InputPorts(nodes) ==> FedOnce(arcs, nodes, port)
  {
    NetIsLargestSurplus(arcs, nodes, goal);
    var c :| IsChoice(arcs, nodes, c) && Net(arcs, nodes) == |Live(nodes, c)| - |InputPorts(nodes)|;
    OneVariantAllLive(arcs, nodes, goal, c);
    var f := (z: GraphNode) => Fed(arcs, z);
    FedImageIsInputPorts(arcs, nodes, goal);
    ImageSize(OutputPorts(nodes), f);
    InjectiveIsFedOnce(arcs, nodes, goal);
  }

  ghost predicate FedByFunction(arcs: set<Arc>, nodes: set<GraphNode>)
  {
    forall x, port :: x in OutputPorts(nodes) ==> (Feeds(arcs, x, port) <==> port == Fed(arcs, x))
  }

  lemma FedOnceIfInjective(arcs: set<Arc>, nodes: set<GraphNode>, port: GraphNode)
    requires FedByFunction(arcs, nodes)
    requires InjectiveOn(OutputPorts(nodes), (z: GraphNode) => Fed(arcs, z))
    requires port in Image(OutputPorts(nodes), (z: GraphNode) => Fed(arcs, z))
    ensures FedOnce(arcs, nodes, port)
  {
    var f := (z: GraphNode) => Fed(arcs, z);
    var x :| x in OutputPorts(nodes) && f(x) == port;
    assert Feeds(arcs, x, port);
    forall y | y in OutputPorts(nodes) && Feeds(arcs, y, port) ensures y == x {
      assert f(y) == f(x);
    }
  }

  lemma InjectiveIfFedOnce(arcs: set<Arc>, nodes: set<GraphNode>)
    requires FedByFunction(arcs, nodes)
    requires forall x :: x in OutputPorts(nodes) ==> FedOnce(arcs, nodes, Fed(arcs, x))
    ensures InjectiveOn(OutputPorts(nodes), (z: GraphNode) => Fed(arcs, z))
  {
    forall x, y | x in OutputPorts(nodes) && y in OutputPorts(nodes) && Fed(arcs, x) == Fed(arcs, y)
      ensures x == y
    {
      assert FedOnce(arcs, nodes, Fed(arcs, x));
      assert Feeds(arcs, x, Fed(arcs, x)) && Feeds(arcs, y, Fed(arcs, x));
    }
  }

  lemma InjectiveIsFedOnce(arcs: set<Arc>, nodes: set<GraphNode>, goal: GraphNode)
    requires FourLayered(arcs) && Funnel(arcs, nodes, goal)
    ensures InjectiveOn(OutputPorts(nodes), (z: GraphNode) => Fed(arcs, z)) <==>
            forall port :: port in InputPorts(nodes) ==> FedOnce(arcs, nodes, port)
  {
    FedImageIsInputPorts(arcs, nodes, goal);
    forall x | x in OutputPorts(nodes)
      ensures Fed(arcs, x) in InputPorts(nodes) && forall port :: Feeds(arcs, x, port) <==> port == Fed(arcs, x)
    {
      FedIsInside(arcs, nodes, goal, x);
    }
    if InjectiveOn(OutputPorts(nodes), (z: GraphNode) => Fed(arcs, z)) {
      forall port | port in InputPorts(nodes) ensures FedOnce(arcs, nodes, port) {
        FedOnceIfInjective(arcs, nodes, port);
      }
    }
    if forall port :: port in InputPorts(nodes) ==> FedOnce(arcs, nodes, port) {
      InjectiveIfFedOnce(arcs, nodes);
    }
  }

  // ---------------------------------------------------------------- on specifications

  /** The path subgraph the validator looks at for one group and input port. */
  ghost function SubgraphOf(dag: DagSpec, group: string, port: GraphNode): set<GraphNode>
  {
    PathSubgraph(SpecArcs(dag.edges), SpecNodes(dag), EntriesOf(EntryPairs(dag), group), port)
  }

  lemma SpecSubgraphIsFunnel(dag: DagSpec, group: string, port: GraphNode)
    requires DistinctOrigins(dag.edges) && Acyclic(SpecArcs(dag.edges)) && port.InputPort?
    ensures FourLayered(SpecArcs(dag.edges))
    ensures Funnel(SpecArcs(dag.edges), SubgraphOf(dag, group, port), port)
  {
    SpecIsFourLayered(dag.edges);
    SpecNodesCoverArcs(dag);
    EntriesAreVertices(dag, group);
    PathSubgraphIsFunnel(SpecArcs(dag.edges), SpecNodes(dag), EntriesOf(EntryPairs(dag), group), port);
  }

  lemma SpecNodesCoverArcs(dag: DagSpec)
    ensures Covers(SpecNodes(dag), SpecArcs(dag.edges))
  {
    forall a | a in SpecArcs(dag.edges) ensures a.src in SpecNodes(dag) && a.dst in SpecNodes(dag) {
      var e := ArcOfEdge(dag.edges, a);
      assert a.src in EdgeNodes(e) && a.dst in EdgeNodes(e);
    }
  }

  lemma EntriesAreVertices(dag: DagSpec, group: string)
    ensures forall v :: v in EntriesOf(EntryPairs(dag), group) ==> v.Vertex?
  {
  }

  /** In an accepted workflow whose vertices have one variant each on the way to a port, no input port
      on that way can be written twice or be left waiting. */
  lemma AcceptedIsRaceFree(dag: DagSpec, group: string, port: GraphNode, input: GraphNode)
    requires Validator.Accepts(dag)
    requires group in GroupsOf(EntryPairs(dag)) && port in SpecNodes(dag) && port.InputPort?
    requires OneVariantEach(SpecArcs(dag.edges), SubgraphOf(dag, group, port))
    requires input in InputPorts(SubgraphOf(dag, group, port))
    ensures FedOnce(SpecArcs(dag.edges), SubgraphOf(dag, group, port), input)
  {
    SpecSubgraphIsFunnel(dag, group, port);
    SingleVariantNet(SpecArcs(dag.edges), SubgraphOf(dag, group, port), port);
    assert PortBalanced(SpecArcs(dag.edges), SpecNodes(dag), EntriesOf(EntryPairs(dag), group), port);
  }

  /** Exactly when a port is refused for concurrency: it is not reached, or some choice of variants overloads
      the subgraph, or every choice falls short. A balanced port meets none of the three. */
  lemma RefusalIsImbalance(dag: DagSpec, group: string, port: GraphNode)
    requires DistinctOrigins(dag.edges) && Acyclic(SpecArcs(dag.edges)) && port.InputPort?
    ensures var arcs, nodes := SpecArcs(dag.edges), SubgraphOf(dag, group, port);
      !PortBalanced(arcs, SpecNodes(dag), EntriesOf(EntryPairs(dag), group), port) <==>
      || nodes == {}
      || (exists c :: IsChoice(arcs, nodes, c) && Overloads(nodes, c))
      || (forall c :: IsChoice(arcs, nodes, c) ==> FallsShort(nodes, c))
  {
    SpecSubgraphIsFunnel(dag, group, port);
    NetIsLargestSurplus(SpecArcs(dag.edges), SubgraphOf(dag, group, port), port);
  }

  // ---------------------------------------------------------------- exclusive ports

  /** Two output ports of one vertex that no choice makes live together. */
  predicate Exclusive(x: GraphNode, y: GraphNode)
    requires x.OutputPort? && y.OutputPort?
  {
    x.vertex == y.vertex && x.variant != y.variant
  }

  /** All ports that feed one input port exclude each other. */
  ghost predicate FeedersExclusive(arcs: set<Arc>, nodes: set<GraphNode>)
  {
    forall x, y, port {:trigger Feeds(arcs, x, port), Feeds(arcs, y, port)} ::
      (x in OutputPorts(nodes) && y in OutputPorts(nodes) && x != y && port in InputPorts(nodes)
       && Feeds(arcs, x, port) && Feeds(arcs, y, port)) ==> Exclusive(x, y)
  }

  /** The variant a port belongs to is on offer where the port's vertex makes its choice. */
  lemma VariantOnOffer(arcs: set<Arc>, nodes: set<GraphNode>, goal: GraphNode, x: GraphNode)
    requires Layered(arcs) && Funnel(arcs, nodes, goal) && x in OutputPorts(nodes)
    ensures Vertex(x.vertex) in nodes && OutputVariant(x.vertex, x.variant) in OutIn(arcs, nodes, Vertex(x.vertex))
  {
    PortPredecessor(arcs, nodes, goal, x);
    var a := ArcBack(arcs, nodes, goal, OutputVariant(x.vertex, x.variant));
    assert LayeredArc(a);
  }

  /** A choice can be turned to the variant that a port belongs to. */
  lemma TurnedTo(arcs: set<Arc>, nodes: set<GraphNode>, goal: GraphNode, c: map<GraphNode, GraphNode>, x: GraphNode)
    returns (d: map<GraphNode, GraphNode>)
    requires Layered(arcs) && Funnel(arcs, nodes, goal) && IsChoice(arcs, nodes, c) && x in OutputPorts(nodes)
    ensures IsChoice(arcs, nodes, d) && x in Live(nodes, d)
    ensures forall y :: y in Live(nodes, c) && !(y.vertex == x.vertex && y.variant != x.variant) ==> y in Live(nodes, d)
  {
    VariantOnOffer(arcs, nodes, goal, x);
    d := c[Vertex(x.vertex) := OutputVariant(x.vertex, x.variant)];
  }

  /** Two ports that do not exclude each other are live together under some choice. */
  lemma LiveTogether(arcs: set<Arc>, nodes: set<GraphNode>, goal: GraphNode, x: GraphNode, y: GraphNode)
    returns (c: map<GraphNode, GraphNode>)
    requires Layered(arcs) && Funnel(arcs, nodes, goal)
    requires x in OutputPorts(nodes) && y in OutputPorts(nodes) && !Exclusive(x, y)
    ensures IsChoice(arcs, nodes, c) && x in Live(nodes, c) && y in Live(nodes, c)
  {
    c := WidestChoice(arcs, nodes, goal);
    c := TurnedTo(arcs, nodes, goal, c, x);
    c := TurnedTo(arcs, nodes, goal, c, y);
  }

  /** Some choice of variants makes two output ports lead to one input port. */
  ghost predicate CanClash(arcs: set<Arc>, nodes: set<GraphNode>)
  {
    exists c, x, y, port ::
        IsChoice(arcs, nodes, c) && port in InputPorts(nodes) && Clash(arcs, Live(nodes, c), x, y, port)
  }

  /** Exactly when no choice of variants clashes. */
  lemma ClashFreeExactly(arcs: set<Arc>, nodes: set<GraphNode>, goal: GraphNode)
    requires Layered(arcs) && Funnel(arcs, nodes, goal)
    ensures !CanClash(arcs, nodes) <==> FeedersExclusive(arcs, nodes)
  {
    if !CanClash(arcs, nodes) {
      forall x, y, port | x in OutputPorts(nodes) && y in OutputPorts(nodes) && x != y && port in InputPorts(nodes)
          && Feeds(arcs, x, port) && Feeds(arcs, y, port)
        ensures Exclusive(x, y)
      {
        if !Exclusive(x, y) {
          var c := LiveTogether(arcs, nodes, goal, x, y);
          assert Clash(arcs, Live(nodes, c), x, y, port);
        }
      }
    }
    if FeedersExclusive(arcs, nodes) {
      forall c, x, y, port | IsChoice(arcs, nodes, c) && port in InputPorts(nodes) && x in Live(nodes, c)
          && y in Live(nodes, c)
          && x != y && Feeds(arcs, x, port)
        ensures !Feeds(arcs, y, port)
      {
        assert x in OutputPorts(nodes) && y in OutputPorts(nodes);
        assert !Exclusive(x, y);
      }
    }
  }

  /** If all choices fall short, net concurrency is negative. */
  lemma ShortChoicesNet(arcs: set<Arc>, nodes: set<GraphNode>, goal: GraphNode)
    requires Layered(arcs) && Funnel(arcs, nodes, goal)
    requires forall c :: IsChoice(arcs, nodes, c) ==> FallsShort(nodes, c)
    ensures Net(arcs, nodes) < 0
  {
    NetIsLargestSurplus(arcs, nodes, goal);
  }

  /** If all choices balance, net concurrency is 0. */
  lemma BalancedChoicesNet(arcs: set<Arc>, nodes: set<GraphNode>, goal: GraphNode)
    requires Layered(arcs) && Funnel(arcs, nodes, goal)
    requires forall c :: IsChoice(arcs, nodes, c) ==> |Live(nodes, c)| == |InputPorts(nodes)|
    ensures Net(arcs, nodes) == 0
  {
    NetIsLargestSurplus(arcs, nodes, goal);
  }
}
