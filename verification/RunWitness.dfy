/** What net concurrency says about runs: where it decides races and reachability exactly, and what a run can
    and cannot do in a path subgraph. */
module RunWitness {
  import opened Walks
  import opened DagSpecs
  import opened FiniteSets
  import opened Concurrency
  import opened ConcurrencyWitness
  import opened Runs
  import EntryGroups
  import Validator

  ghost predicate OnTheWay(arcs: set<Arc>, starts: set<GraphNode>, goal: GraphNode, x: GraphNode)
  {
    exists s :: s in starts && Reaches(arcs, s, x) && Reaches(arcs, x, goal)
  }

  /** `nodes` is what lies between the entry vertices and the port `goal` of an acyclic workflow. */
  ghost predicate Between(arcs: set<Arc>, starts: set<GraphNode>, goal: GraphNode, nodes: set<GraphNode>)
  {
    && FourLayered(arcs) && Acyclic(arcs) && Funnel(arcs, nodes, goal)
    && (forall s :: s in starts ==> s.Vertex?)
    && (forall x {:trigger OnTheWay(arcs, starts, goal, x)} {:trigger x in nodes} :: x in nodes <==>
        OnTheWay(arcs, starts, goal, x))
  }

  lemma WalkedToIsCovered(universe: set<GraphNode>, arcs: set<Arc>, a: GraphNode, x: GraphNode, b: GraphNode)
    requires Covers(universe, arcs) && Reaches(arcs, a, x) && Reaches(arcs, x, b) && a != b
    ensures x in universe
  {
    if x != a {
      ReachesFirstLast(arcs, a, x);
    } else {
      ReachesFirstLast(arcs, x, b);
    }
  }

  lemma PathSubgraphIsBetween(arcs: set<Arc>, universe: set<GraphNode>, starts: set<GraphNode>, goal: GraphNode)
    requires FourLayered(arcs) && Acyclic(arcs) && Covers(universe, arcs)
    requires goal.InputPort? && forall v :: v in starts ==> v.Vertex?
    ensures Between(arcs, starts, goal, PathSubgraph(arcs, universe, starts, goal))
  {
    PathSubgraphIsFunnel(arcs, universe, starts, goal);
    forall x ensures x in PathSubgraph(arcs, universe, starts, goal) <==> OnTheWay(arcs, starts, goal, x) {
      InPathSubgraph(arcs, universe, starts, goal, x);
      if OnTheWay(arcs, starts, goal, x) {
        var s :| s in starts && Reaches(arcs, s, x) && Reaches(arcs, x, goal);
        WalkedToIsCovered(universe, arcs, s, x, goal);
      }
    }
  }

  /** The path subgraph of a specification. */
  lemma SpecIsBetween(dag: DagSpec, group: string, port: GraphNode)
    requires DistinctOrigins(dag.edges) && Acyclic(SpecArcs(dag.edges)) && port.InputPort?
    ensures Between(SpecArcs(dag.edges), EntriesOf(EntryPairs(dag), group), port, SubgraphOf(dag, group, port))
  {
    SpecIsFourLayered(dag.edges);
    SpecNodesCoverArcs(dag);
    EntriesAreVertices(dag, group);
    PathSubgraphIsBetween(SpecArcs(dag.edges), SpecNodes(dag), EntriesOf(EntryPairs(dag), group), port);
  }

  // ---------------------------------------------------------------- runs inside the subgraph

  /** A node that is reached and leads into the subgraph is in it. */
  lemma LeadsInside(arcs: set<Arc>, starts: set<GraphNode>, goal: GraphNode, nodes: set<GraphNode>, s: GraphNode,
      x: GraphNode, p: GraphNode)
    requires Between(arcs, starts, goal, nodes) && s in starts && Reaches(arcs, s, x) && Feeds(arcs, x, p) && p in nodes
    ensures x in nodes
  {
    var a :| a in arcs && a.src == x && a.dst == p;
    assert OnTheWay(arcs, starts, goal, p);
    var t :| t in starts && Reaches(arcs, t, p) && Reaches(arcs, p, goal);
    ReachesStep(arcs, a, goal);
    assert OnTheWay(arcs, starts, goal, x);
  }

  /** Whatever writes a port of the subgraph in a run is one of its live ports under the run's choice. */
  lemma WriterIsLive(arcs: set<Arc>, starts: set<GraphNode>, goal: GraphNode, nodes: set<GraphNode>, r: Run,
      x: GraphNode, p: GraphNode)
    requires Between(arcs, starts, goal, nodes) && IsRun(arcs, starts, r)
    requires x in Emitted(arcs, r) && Feeds(arcs, x, p) && p in nodes
    ensures x in Live(nodes, r.choice) && x in OutputPorts(nodes)
  {
    var s := EmittedIsReached(arcs, starts, r, x);
    LeadsInside(arcs, starts, goal, nodes, s, x, p);
    EmittedIsChosen(arcs, starts, r, x);
  }

  lemma LiveNotExclusive(nodes: set<GraphNode>, c: map<GraphNode, GraphNode>, x: GraphNode, y: GraphNode)
    requires x in Live(nodes, c) && y in Live(nodes, c)
    ensures !Exclusive(x, y)
  {
  }

  /** Ports that exclude each other never write together. */
  lemma ExclusiveFeedersNeverRace(arcs: set<Arc>, starts: set<GraphNode>, goal: GraphNode, nodes: set<GraphNode>,
      r: Run,
                                  x: GraphNode, y: GraphNode, p: GraphNode)
    requires Between(arcs, starts, goal, nodes) && IsRun(arcs, starts, r)
    requires FeedersExclusive(arcs, nodes) && p in InputPorts(nodes)
    ensures !Races(arcs, r, x, y, p)
  {
    if Races(arcs, r, x, y, p) {
      WriterIsLive(arcs, starts, goal, nodes, r, x, p);
      WriterIsLive(arcs, starts, goal, nodes, r, y, p);
      LiveNotExclusive(nodes, r.choice, x, y);
    }
  }

  /** A port whose path subgraph is empty is written in no run. */
  lemma EmptyIsNeverWritten(arcs: set<Arc>, starts: set<GraphNode>, goal: GraphNode, r: Run)
    requires Between(arcs, starts, goal, {}) && IsRun(arcs, starts, r)
    ensures !Written(arcs, r, goal)
  {
    if Written(arcs, r, goal) {
      var x :| x in Emitted(arcs, r) && Feeds(arcs, x, goal);
      var a :| a in arcs && a.src == x && a.dst == goal;
      var s := EmittedIsReached(arcs, starts, r, x);
      ReachesArc(arcs, s, a);
      ReachesSelf(arcs, goal);
      assert OnTheWay(arcs, starts, goal, goal);
      assert false;
    }
  }

  /** The run answers with variants of the subgraph at every vertex of it. */
  ghost predicate KeepsTo(nodes: set<GraphNode>, r: Run)
  {
    forall v :: v in nodes && v.Vertex? ==> v in r.choice && r.choice[v] in nodes
  }

  ghost predicate AllFire(nodes: set<GraphNode>, r: Run)
  {
    forall v :: v in nodes && v.Vertex? ==> v in r.fired
  }

  /** Two output ports write one input port of the subgraph. */
  ghost predicate RacesWithin(arcs: set<Arc>, nodes: set<GraphNode>, r: Run)
  {
    exists x, y, p :: p in InputPorts(nodes) && Races(arcs, r, x, y, p)
  }

  /** Where all vertices run, the live ports are emitted. */
  lemma LiveIsEmitted(arcs: set<Arc>, nodes: set<GraphNode>, goal: GraphNode, r: Run, x: GraphNode)
    requires FourLayered(arcs) && Funnel(arcs, nodes, goal) && AllFire(nodes, r) && x in Live(nodes, r.choice)
    ensures x in Emitted(arcs, r)
  {
    VariantOnOffer(arcs, nodes, goal, x);
    PortPredecessor(arcs, nodes, goal, x);
    ChosenIsEmitted(arcs, r, x);
  }

  /** An overload is a race in every run in which all vertices of the subgraph run. */
  lemma FiringOverloadRaces(arcs: set<Arc>, nodes: set<GraphNode>, goal: GraphNode, r: Run)
    requires FourLayered(arcs) && Funnel(arcs, nodes, goal) && AllFire(nodes, r) && Overloads(nodes, r.choice)
    ensures RacesWithin(arcs, nodes, r)
  {
    var x, y, p := OverloadIsClash(arcs, nodes, goal, r.choice);
    LiveIsEmitted(arcs, nodes, goal, r, x);
    LiveIsEmitted(arcs, nodes, goal, r, y);
    assert Races(arcs, r, x, y, p);
  }

  /** The run's answers at the vertices of the subgraph. */
  ghost function Within(nodes: set<GraphNode>, choice: map<GraphNode, GraphNode>): map<GraphNode, GraphNode>
  {
    map v | v in choice && v in nodes :: choice[v]
  }

  lemma WithinIsChoice(arcs: set<Arc>, starts: set<GraphNode>, goal: GraphNode, nodes: set<GraphNode>, r: Run)
    requires Between(arcs, starts, goal, nodes) && IsRun(arcs, starts, r) && KeepsTo(nodes, r)
    ensures IsChoice(arcs, nodes, Within(nodes, r.choice))
    ensures Live(nodes, Within(nodes, r.choice)) == Live(nodes, r.choice)
  {
    forall x | x in Live(nodes, r.choice) ensures x in Live(nodes, Within(nodes, r.choice)) {
      VariantOnOffer(arcs, nodes, goal, x);
    }
  }

  /** A positive net concurrency is a race in every run in which all vertices of the subgraph run and answer
      with a widest variant. */
  lemma PositiveNetRacesIfAllFire(arcs: set<Arc>, starts: set<GraphNode>, goal: GraphNode, nodes: set<GraphNode>,
      r: Run)
    requires Between(arcs, starts, goal, nodes) && IsRun(arcs, starts, r) && Net(arcs, nodes) > 0
    requires KeepsTo(nodes, r) && AllFire(nodes, r) && IsWidest(arcs, nodes, Within(nodes, r.choice))
    ensures RacesWithin(arcs, nodes, r)
  {
    var c := Within(nodes, r.choice);
    WithinIsChoice(arcs, starts, goal, nodes, r);
    LiveIsLiveOfAll(arcs, nodes, c);
    NetBound(arcs, nodes, goal, c);
    FiringOverloadRaces(arcs, nodes, goal, r);
  }

  /** Every choice of variants for the subgraph is the choice of a run. */
  lemma RunOfChoice(arcs: set<Arc>, starts: set<GraphNode>, nodes: set<GraphNode>, c: map<GraphNode,
      GraphNode>) returns (r: Run)
    requires IsChoice(arcs, nodes, c)
    ensures IsRun(arcs, starts, r) && r.choice == c && KeepsTo(nodes, r)
  {
    r := RunExists(arcs, starts, c);
  }

  // ---------------------------------------------------------------- steady subgraphs

  ghost predicate VariantFeeds(arcs: set<Arc>, w: GraphNode, p: GraphNode)
  {
    exists x :: x in Succ(arcs, w) && Feeds(arcs, x, p)
  }

  /** All variants that `u` can take on the way feed `p`. */
  ghost predicate AlwaysFeeds(arcs: set<Arc>, nodes: set<GraphNode>, u: GraphNode, p: GraphNode)
  {
    forall w :: w in OutIn(arcs, nodes, u) ==> VariantFeeds(arcs, w, p)
  }

  /** Some vertex of the subgraph feeds `p` whatever variant it takes on the way. */
  ghost predicate SteadilyFed(arcs: set<Arc>, nodes: set<GraphNode>, p: GraphNode)
  {
    exists u :: u in nodes && u.Vertex? && AlwaysFeeds(arcs, nodes, u, p)
  }

  /** Every input of a vertex of the subgraph, and the goal, is fed steadily: branches are not exclusive. */
  ghost predicate Steady(arcs: set<Arc>, goal: GraphNode, nodes: set<GraphNode>)
  {
    && SteadilyFed(arcs, nodes, goal)
    && forall v, p :: v in nodes && v.Vertex? && p in Inputs(arcs, v) ==> SteadilyFed(arcs, nodes, p)
  }

  lemma SteadyInput(arcs: set<Arc>, goal: GraphNode, nodes: set<GraphNode>, p: GraphNode)
    requires Layered(arcs) && Funnel(arcs, nodes, goal) && Steady(arcs, goal, nodes) && p in InputPorts(nodes)
    ensures SteadilyFed(arcs, nodes, p)
  {
    if p != goal {
      var a := ArcOn(arcs, nodes, goal, p);
      assert LayeredArc(a);
      assert p in Inputs(arcs, a.dst);
    }
  }

  lemma {:induction false} SteadyFires(arcs: set<Arc>, starts: set<GraphNode>, goal: GraphNode,
      nodes: set<GraphNode>, r: Run, v: GraphNode)
    requires Between(arcs, starts, goal, nodes) && Steady(arcs, goal, nodes) && IsRun(arcs, starts, r)
    requires KeepsTo(nodes, r)
    requires v in nodes && v.Vertex?
    ensures v in r.fired
    decreases Before(arcs, v), 1
  {
    if v !in starts {
      EnteredFromBefore(arcs, starts, goal, nodes, v);
      forall p | p in Inputs(arcs, v) ensures Written(arcs, r, p) {
        SteadyWritten(arcs, starts, goal, nodes, r, p, v);
      }
      assert Enabled(arcs, r, v);
    }
  }

  /** A vertex between that is no entry has inputs. */
  lemma EnteredFromBefore(arcs: set<Arc>, starts: set<GraphNode>, goal: GraphNode, nodes: set<GraphNode>, v: GraphNode)
    requires Between(arcs, starts, goal, nodes) && v in nodes && v !in starts
    ensures Inputs(arcs, v) != {}
  {
    assert OnTheWay(arcs, starts, goal, v);
    var s :| s in starts && Reaches(arcs, s, v) && Reaches(arcs, v, goal);
    ReachesFirstLast(arcs, s, v);
    var a :| a in arcs && a.dst == v;
    assert a.src in Inputs(arcs, v);
  }

  lemma {:induction false} SteadyWritten(arcs: set<Arc>, starts: set<GraphNode>, goal: GraphNode,
      nodes: set<GraphNode>, r: Run,
                                         p: GraphNode, v: GraphNode)
    requires Between(arcs, starts, goal, nodes) && Steady(arcs, goal, nodes) && IsRun(arcs, starts, r)
    requires KeepsTo(nodes, r)
    requires SteadilyFed(arcs, nodes, p) && p in Inputs(arcs, v)
    ensures Written(arcs, r, p)
    decreases Before(arcs, v), 0
  {
    var u, x := SteadyWriter(arcs, nodes, r.choice, p);
    WriterIsBefore(arcs, u, r.choice[u], x, p, v);
    SteadyFires(arcs, starts, goal, nodes, r, u);
    assert x in Emitted(arcs, r);
  }

  /** The port that feeds `p` under a choice. */
  lemma SteadyWriter(arcs: set<Arc>, nodes: set<GraphNode>, c: map<GraphNode, GraphNode>, p: GraphNode)
    returns (u: GraphNode, x: GraphNode)
    requires SteadilyFed(arcs, nodes, p)
    requires forall v :: v in nodes && v.Vertex? ==> v in c && c[v] in OutIn(arcs, nodes, v)
    ensures u in nodes && u.Vertex? && x in Succ(arcs, c[u]) && Feeds(arcs, x, p)
  {
    u :| u in nodes && u.Vertex? && AlwaysFeeds(arcs, nodes, u, p);
    assert VariantFeeds(arcs, c[u], p);
    x :| x in Succ(arcs, c[u]) && Feeds(arcs, x, p);
  }

  // ---------------------------------------------------------------- live ports against input ports

  /** Live ports reach every input port of the subgraph. */
  ghost predicate FeedsAll(arcs: set<Arc>, nodes: set<GraphNode>, c: map<GraphNode, GraphNode>)
  {
    forall p :: p in InputPorts(nodes) ==> exists x :: x in Live(nodes, c) && Feeds(arcs, x, p)
  }

  ghost function FedBy(arcs: set<Arc>): GraphNode -> GraphNode
  {
    (z: GraphNode) => Fed(arcs, z)
  }

  lemma LiveFedInside(arcs: set<Arc>, nodes: set<GraphNode>, goal: GraphNode, c: map<GraphNode, GraphNode>)
    requires FourLayered(arcs) && Funnel(arcs, nodes, goal)
    ensures Image(Live(nodes, c), FedBy(arcs)) <= InputPorts(nodes)
    ensures forall x, p :: x in Live(nodes, c) && Feeds(arcs, x, p) ==> p == FedBy(arcs)(x)
    ensures forall x :: x in Live(nodes, c) ==> Feeds(arcs, x, FedBy(arcs)(x))
  {
    forall x | x in Live(nodes, c)
      ensures Fed(arcs, x) in InputPorts(nodes) && forall p :: Feeds(arcs, x, p) <==> p == Fed(arcs, x)
    {
      FedIsInside(arcs, nodes, goal, x);
    }
  }

  /** Live ports that reach every input port are at least as many, and as many only if none clash. */
  lemma FeedsAllCounts(arcs: set<Arc>, nodes: set<GraphNode>, goal: GraphNode, c: map<GraphNode, GraphNode>)
    requires FourLayered(arcs) && Funnel(arcs, nodes, goal) && FeedsAll(arcs, nodes, c)
    ensures |Live(nodes, c)| >= |InputPorts(nodes)|
    ensures |Live(nodes, c)| == |InputPorts(nodes)| ==> forall x, y, p :: !Clash(arcs, Live(nodes, c), x, y, p)
  {
    LiveFedInside(arcs, nodes, goal, c);
    forall p | p in InputPorts(nodes) ensures p in Image(Live(nodes, c), FedBy(arcs)) {
      var x :| x in Live(nodes, c) && Feeds(arcs, x, p);
    }
    assert Image(Live(nodes, c), FedBy(arcs)) == InputPorts(nodes);
    ImageSize(Live(nodes, c), FedBy(arcs));
  }

  /** Live ports that do not clash are at most as many as input ports, and as many only if they reach all. */
  lemma ClashFreeCounts(arcs: set<Arc>, nodes: set<GraphNode>, goal: GraphNode, c: map<GraphNode, GraphNode>)
    requires FourLayered(arcs) && Funnel(arcs, nodes, goal)
    requires forall x, y, p :: !Clash(arcs, Live(nodes, c), x, y, p)
    ensures |Live(nodes, c)| <= |InputPorts(nodes)|
    ensures |Live(nodes, c)| == |InputPorts(nodes)| ==> FeedsAll(arcs, nodes, c)
  {
    LiveFedInside(arcs, nodes, goal, c);
    forall x, y | x in Live(nodes, c) && y in Live(nodes, c) && x != y ensures FedBy(arcs)(x) != FedBy(arcs)(y) {
      assert !Clash(arcs, Live(nodes, c), x, y, FedBy(arcs)(x));
    }
    ImageSize(Live(nodes, c), FedBy(arcs));
    SubsetSize(Image(Live(nodes, c), FedBy(arcs)), InputPorts(nodes));
    if |Live(nodes, c)| == |InputPorts(nodes)| {
      forall p | p in InputPorts(nodes) ensures exists x :: x in Live(nodes, c) && Feeds(arcs, x, p) {
        assert p in Image(Live(nodes, c), FedBy(arcs));
      }
    }
  }

  lemma SteadyFeedsAll(arcs: set<Arc>, goal: GraphNode, nodes: set<GraphNode>, starts: set<GraphNode>,
      c: map<GraphNode, GraphNode>)
    requires Between(arcs, starts, goal, nodes) && Steady(arcs, goal, nodes) && IsChoice(arcs, nodes, c)
    ensures FeedsAll(arcs, nodes, c)
  {
    var r := RunOfChoice(arcs, starts, nodes, c);
    forall p | p in InputPorts(nodes) ensures exists x :: x in Live(nodes, c) && Feeds(arcs, x, p) {
      SteadyInput(arcs, goal, nodes, p);
      var u, x := SteadyWriter(arcs, nodes, c, p);
      SteadyFires(arcs, starts, goal, nodes, r, u);
      assert x in Emitted(arcs, r);
      WriterIsLive(arcs, starts, goal, nodes, r, x, p);
    }
  }

  /** A run races within the subgraph. */
  ghost predicate RunCanRace(arcs: set<Arc>, starts: set<GraphNode>, nodes: set<GraphNode>)
  {
    exists r :: IsRun(arcs, starts, r) && RacesWithin(arcs, nodes, r)
  }

  lemma SteadySurplusRaces(arcs: set<Arc>, starts: set<GraphNode>, goal: GraphNode, nodes: set<GraphNode>)
    requires Between(arcs, starts, goal, nodes) && Steady(arcs, goal, nodes) && Net(arcs, nodes) > 0
    ensures RunCanRace(arcs, starts, nodes)
  {
    var c, x, y, p := PositiveNetIsOverload(arcs, nodes, goal);
    var r := RunOfChoice(arcs, starts, nodes, c);
    forall v | v in nodes && v.Vertex? ensures v in r.fired {
      SteadyFires(arcs, starts, goal, nodes, r, v);
    }
    FiringOverloadRaces(arcs, nodes, goal, r);
  }

  lemma SteadyBalanceNeverClashes(arcs: set<Arc>, starts: set<GraphNode>, goal: GraphNode, nodes: set<GraphNode>,
                                  c: map<GraphNode, GraphNode>, x: GraphNode, y: GraphNode, p: GraphNode)
    requires Between(arcs, starts, goal, nodes) && Steady(arcs, goal, nodes) && Net(arcs, nodes) == 0
    requires IsChoice(arcs, nodes, c)
    ensures !Clash(arcs, Live(nodes, c), x, y, p)
  {
    SteadyFeedsAll(arcs, goal, nodes, starts, c);
    FeedsAllCounts(arcs, nodes, goal, c);
    NetIsLargestSurplus(arcs, nodes, goal);
  }

  lemma SteadyBalanceNeverRaces(arcs: set<Arc>, starts: set<GraphNode>, goal: GraphNode, nodes: set<GraphNode>, r: Run,
                                x: GraphNode, y: GraphNode, p: GraphNode)
    requires Between(arcs, starts, goal, nodes) && Steady(arcs, goal, nodes) && Net(arcs, nodes) == 0
    requires IsRun(arcs, starts, r) && p in InputPorts(nodes)
    ensures !Races(arcs, r, x, y, p)
  {
    if Races(arcs, r, x, y, p) {
      WriterIsLive(arcs, starts, goal, nodes, r, x, p);
      WriterIsLive(arcs, starts, goal, nodes, r, y, p);
      LiveNotExclusive(nodes, r.choice, x, y);
      var c := LiveTogether(arcs, nodes, goal, x, y);
      SteadyBalanceNeverClashes(arcs, starts, goal, nodes, c, x, y, p);
    }
  }

  /** In a steady subgraph net concurrency decides races: it is never negative, and it is 0 exactly when no
      run writes an input port of the subgraph twice. */
  lemma SteadyNetDecidesRaces(arcs: set<Arc>, starts: set<GraphNode>, goal: GraphNode, nodes: set<GraphNode>)
    requires Between(arcs, starts, goal, nodes) && Steady(arcs, goal, nodes)
    ensures Net(arcs, nodes) >= 0
    ensures Net(arcs, nodes) == 0 <==> !RunCanRace(arcs, starts, nodes)
  {
    var c := WidestChoice(arcs, nodes, goal);
    SteadyFeedsAll(arcs, goal, nodes, starts, c);
    FeedsAllCounts(arcs, nodes, goal, c);
    NetIsLargestSurplus(arcs, nodes, goal);
    if Net(arcs, nodes) > 0 {
      SteadySurplusRaces(arcs, starts, goal, nodes);
    } else {
      forall r, x, y, p | IsRun(arcs, starts, r) && p in InputPorts(nodes) ensures !Races(arcs, r, x, y, p) {
        SteadyBalanceNeverRaces(arcs, starts, goal, nodes, r, x, y, p);
      }
    }
  }

  /** A run that keeps to a steady balanced subgraph runs all its vertices and writes every port once. */
  lemma SteadyBalanceWritesOnce(arcs: set<Arc>, starts: set<GraphNode>, goal: GraphNode, nodes: set<GraphNode>, r: Run)
    requires Between(arcs, starts, goal, nodes) && Steady(arcs, goal, nodes) && Net(arcs, nodes) == 0
    requires IsRun(arcs, starts, r) && KeepsTo(nodes, r)
    ensures AllFire(nodes, r) && forall p :: p in InputPorts(nodes) ==> WrittenOnce(arcs, r, p)
  {
    forall v | v in nodes && v.Vertex? ensures v in r.fired {
      SteadyFires(arcs, starts, goal, nodes, r, v);
    }
    forall p | p in InputPorts(nodes) ensures WrittenOnce(arcs, r, p) {
      SteadyInput(arcs, goal, nodes, p);
      var u, x := SteadyWriter(arcs, nodes, r.choice, p);
      assert x in Emitted(arcs, r);
      forall y, z ensures !Races(arcs, r, y, z, p) {
        SteadyBalanceNeverRaces(arcs, starts, goal, nodes, r, y, z, p);
      }
    }
  }

  // ---------------------------------------------------------------- subgraphs without merges

  /** No input port of the subgraph has two feeders in it. */
  ghost predicate OneFeeder(arcs: set<Arc>, nodes: set<GraphNode>)
  {
    forall x, y, p {:trigger Feeds(arcs, x, p), Feeds(arcs, y, p)} ::
      (x in OutputPorts(nodes) && y in OutputPorts(nodes) && p in InputPorts(nodes) && Feeds(arcs, x, p)
          && Feeds(arcs, y, p)) ==>
        x == y
  }

  /** Entry vertices have no inputs in the subgraph, other vertices have no inputs outside. */
  ghost predicate InputsInside(arcs: set<Arc>, starts: set<GraphNode>, nodes: set<GraphNode>)
  {
    forall v, p :: v in nodes && v.Vertex? && p in Inputs(arcs, v) ==> (p in nodes <==> v !in starts)
  }

  /** The way to the goal branches but never merges. */
  ghost predicate Unmerged(arcs: set<Arc>, starts: set<GraphNode>, goal: GraphNode, nodes: set<GraphNode>)
  {
    goal in nodes && OneFeeder(arcs, nodes) && InputsInside(arcs, starts, nodes)
  }

  lemma {:induction false} PortWrittenBack(arcs: set<Arc>, starts: set<GraphNode>, goal: GraphNode,
      nodes: set<GraphNode>, r: Run, p: GraphNode)
    requires Between(arcs, starts, goal, nodes) && Unmerged(arcs, starts, goal, nodes)
    requires IsRun(arcs, starts, r) && Written(arcs, r, goal) && p in InputPorts(nodes)
    ensures Written(arcs, r, p)
    decreases After(arcs, p)
  {
    if p != goal {
      var a := ArcOn(arcs, nodes, goal, p);
      assert LayeredArc(a);
      assert p in Inputs(arcs, a.dst);
      AfterShrinks(arcs, a);
      VertexFiresBack(arcs, starts, goal, nodes, r, a.dst);
      assert Enabled(arcs, r, a.dst);
    }
  }

  lemma {:induction false} VertexFiresBack(arcs: set<Arc>, starts: set<GraphNode>, goal: GraphNode,
      nodes: set<GraphNode>, r: Run, v: GraphNode)
    requires Between(arcs, starts, goal, nodes) && Unmerged(arcs, starts, goal, nodes)
    requires IsRun(arcs, starts, r) && Written(arcs, r, goal) && v in nodes && v.Vertex?
    ensures v in r.fired && v in r.choice && r.choice[v] in nodes
    decreases After(arcs, v)
  {
    var a := ArcOn(arcs, nodes, goal, v);
    assert LayeredArc(a);
    var b := ArcOn(arcs, nodes, goal, a.dst);
    assert LayeredArc(b);
    var c := ArcOn(arcs, nodes, goal, b.dst);
    assert LayeredArc(c);
    AfterShrinks(arcs, a);
    AfterShrinks(arcs, b);
    AfterShrinks(arcs, c);
    PortWrittenBack(arcs, starts, goal, nodes, r, c.dst);
    OnlyWriter(arcs, starts, goal, nodes, r, b.dst, c.dst);
  }

  /** A written port was written by the one port that feeds it. */
  lemma OnlyWriter(arcs: set<Arc>, starts: set<GraphNode>, goal: GraphNode, nodes: set<GraphNode>, r: Run,
      x: GraphNode, p: GraphNode)
    requires Between(arcs, starts, goal, nodes) && OneFeeder(arcs, nodes) && IsRun(arcs, starts, r)
    requires Written(arcs, r, p) && p in InputPorts(nodes) && x in OutputPorts(nodes) && Feeds(arcs, x, p)
    ensures Chosen(r.choice, x) && Vertex(x.vertex) in r.fired
  {
    var y :| y in Emitted(arcs, r) && Feeds(arcs, y, p);
    WriterIsLive(arcs, starts, goal, nodes, r, y, p);
    assert x == y;
    EmittedIsChosen(arcs, starts, r, y);
  }

  lemma UnmergedNeverClashes(arcs: set<Arc>, nodes: set<GraphNode>, goal: GraphNode, c: map<GraphNode, GraphNode>)
    requires FourLayered(arcs) && Funnel(arcs, nodes, goal) && OneFeeder(arcs, nodes)
    ensures forall x, y, p :: !Clash(arcs, Live(nodes, c), x, y, p)
    ensures |Live(nodes, c)| <= |InputPorts(nodes)|
  {
    forall x, y, p ensures !Clash(arcs, Live(nodes, c), x, y, p) {
      if x in Live(nodes, c) && Feeds(arcs, x, p) {
        FedIsInside(arcs, nodes, goal, x);
      }
    }
    ClashFreeCounts(arcs, nodes, goal, c);
  }

  lemma {:induction false} FeedingFires(arcs: set<Arc>, starts: set<GraphNode>, goal: GraphNode,
      nodes: set<GraphNode>, r: Run, v: GraphNode)
    requires Between(arcs, starts, goal, nodes) && InputsInside(arcs, starts, nodes) && IsRun(arcs, starts, r)
    requires FeedsAll(arcs, nodes, r.choice) && v in nodes && v.Vertex?
    ensures v in r.fired
    decreases Before(arcs, v), 1
  {
    if v !in starts {
      EnteredFromBefore(arcs, starts, goal, nodes, v);
      forall p | p in Inputs(arcs, v) ensures Written(arcs, r, p) {
        var a :| a in arcs && a.src == p && a.dst == v;
        assert LayeredArc(a);
        BeforeGrows(arcs, a);
        FeedingWrites(arcs, starts, goal, nodes, r, p);
      }
      assert Enabled(arcs, r, v);
    }
  }

  lemma {:induction false} FeedingWrites(arcs: set<Arc>, starts: set<GraphNode>, goal: GraphNode,
      nodes: set<GraphNode>, r: Run, p: GraphNode)
    requires Between(arcs, starts, goal, nodes) && InputsInside(arcs, starts, nodes) && IsRun(arcs, starts, r)
    requires FeedsAll(arcs, nodes, r.choice) && p in InputPorts(nodes)
    ensures Written(arcs, r, p)
    decreases Before(arcs, p), 0
  {
    var x :| x in Live(nodes, r.choice) && Feeds(arcs, x, p);
    VariantOnOffer(arcs, nodes, goal, x);
    PortPredecessor(arcs, nodes, goal, x);
    var w := OutputVariant(x.vertex, x.variant);
    var a :| a in arcs && a.src == Vertex(x.vertex) && a.dst == w;
    var b :| b in arcs && b.src == w && b.dst == x;
    var c :| c in arcs && c.src == x && c.dst == p;
    BeforeGrows(arcs, a);
    BeforeGrows(arcs, b);
    BeforeGrows(arcs, c);
    FeedingFires(arcs, starts, goal, nodes, r, Vertex(x.vertex));
    ChosenIsEmitted(arcs, r, x);
  }

  /** Some run writes the port. */
  ghost predicate CanBeWritten(arcs: set<Arc>, starts: set<GraphNode>, port: GraphNode)
  {
    exists r :: IsRun(arcs, starts, r) && Written(arcs, r, port)
  }

  lemma WrittenGoalBalances(arcs: set<Arc>, starts: set<GraphNode>, goal: GraphNode, nodes: set<GraphNode>, r: Run)
    requires Between(arcs, starts, goal, nodes) && Unmerged(arcs, starts, goal, nodes)
    requires IsRun(arcs, starts, r) && Written(arcs, r, goal)
    ensures Net(arcs, nodes) >= 0
  {
    forall v | v in nodes && v.Vertex? ensures v in r.choice && r.choice[v] in nodes {
      VertexFiresBack(arcs, starts, goal, nodes, r, v);
    }
    WithinIsChoice(arcs, starts, goal, nodes, r);
    var c := Within(nodes, r.choice);
    forall p | p in InputPorts(nodes) ensures exists x :: x in Live(nodes, c) && Feeds(arcs, x, p) {
      PortWrittenBack(arcs, starts, goal, nodes, r, p);
      var x :| x in Emitted(arcs, r) && Feeds(arcs, x, p);
      WriterIsLive(arcs, starts, goal, nodes, r, x, p);
    }
    FeedsAllCounts(arcs, nodes, goal, c);
    NetIsLargestSurplus(arcs, nodes, goal);
  }

  lemma BalancedGoalIsWritten(arcs: set<Arc>, starts: set<GraphNode>, goal: GraphNode, nodes: set<GraphNode>)
    requires Between(arcs, starts, goal, nodes) && Unmerged(arcs, starts, goal, nodes) && Net(arcs, nodes) == 0
    ensures CanBeWritten(arcs, starts, goal)
  {
    NetIsLargestSurplus(arcs, nodes, goal);
    var c :| IsChoice(arcs, nodes, c) && Net(arcs, nodes) == |Live(nodes, c)| - |InputPorts(nodes)|;
    UnmergedNeverClashes(arcs, nodes, goal, c);
    ClashFreeCounts(arcs, nodes, goal, c);
    var r := RunOfChoice(arcs, starts, nodes, c);
    FeedingWrites(arcs, starts, goal, nodes, r, goal);
  }

  /** Where the way to a port never merges, net concurrency decides reachability: it is never positive, and it
      is 0 exactly when some run writes the port. */
  lemma UnmergedNetDecidesReach(arcs: set<Arc>, starts: set<GraphNode>, goal: GraphNode, nodes: set<GraphNode>)
    requires Between(arcs, starts, goal, nodes) && Unmerged(arcs, starts, goal, nodes)
    ensures Net(arcs, nodes) <= 0
    ensures Net(arcs, nodes) == 0 <==> CanBeWritten(arcs, starts, goal)
  {
    NetIsLargestSurplus(arcs, nodes, goal);
    forall d | IsChoice(arcs, nodes, d) ensures |Live(nodes, d)| <= |InputPorts(nodes)| {
      UnmergedNeverClashes(arcs, nodes, goal, d);
    }
    if Net(arcs, nodes) == 0 {
      BalancedGoalIsWritten(arcs, starts, goal, nodes);
    }
    if r :| IsRun(arcs, starts, r) && Written(arcs, r, goal) {
      WrittenGoalBalances(arcs, starts, goal, nodes, r);
    }
  }

  // ---------------------------------------------------------------- the validator's verdict

  ghost predicate Balanced(dag: DagSpec, group: string, port: GraphNode)
  {
    PortBalanced(SpecArcs(dag.edges), SpecNodes(dag), EntriesOf(EntryPairs(dag), group), port)
  }

  ghost function Entries(dag: DagSpec, group: string): set<GraphNode>
  {
    EntriesOf(EntryPairs(dag), group)
  }

  /** Where branches are not exclusive, a port is refused exactly when a run can write an input twice. */
  lemma SteadyVerdict(dag: DagSpec, group: string, port: GraphNode)
    requires DistinctOrigins(dag.edges) && Acyclic(SpecArcs(dag.edges)) && port.InputPort?
    requires Steady(SpecArcs(dag.edges), port, SubgraphOf(dag, group, port))
    ensures Balanced(dag, group, port) <==>
        !RunCanRace(SpecArcs(dag.edges), Entries(dag, group), SubgraphOf(dag, group, port))
  {
    SpecIsBetween(dag, group, port);
    SteadyNetDecidesRaces(SpecArcs(dag.edges), Entries(dag, group), port, SubgraphOf(dag, group, port));
  }

  /** Where branches never merge, a port is refused exactly when no run writes it. */
  lemma UnmergedVerdict(dag: DagSpec, group: string, port: GraphNode)
    requires DistinctOrigins(dag.edges) && Acyclic(SpecArcs(dag.edges)) && port.InputPort?
    requires Unmerged(SpecArcs(dag.edges), Entries(dag, group), port, SubgraphOf(dag, group, port))
    ensures Balanced(dag, group, port) <==> CanBeWritten(SpecArcs(dag.edges), Entries(dag, group), port)
  {
    SpecIsBetween(dag, group, port);
    UnmergedNetDecidesReach(SpecArcs(dag.edges), Entries(dag, group), port, SubgraphOf(dag, group, port));
  }

  /** The verdict on an entry group with a name of its own, where branches are not exclusive, is about the runs
      that start at that group's vertices and at no others. */
  lemma SteadyGroupVerdict(dag: DagSpec, g: EntryGroup, port: GraphNode)
    requires DistinctOrigins(dag.edges) && Acyclic(SpecArcs(dag.edges)) && port.InputPort?
    requires EntryGroups.NamesIdentify(dag.entryGroups) && g in dag.entryGroups
    ensures var arcs, starts := SpecArcs(dag.edges), set v | v in g.vertices :: Vertex(v);
      var nodes := PathSubgraph(arcs, SpecNodes(dag), starts, port);
      Steady(arcs, port, nodes) ==>
        (PortBalanced(arcs, SpecNodes(dag), starts, port) <==> !RunCanRace(arcs, starts, nodes))
  {
    EntryGroups.GroupStarts(dag, g);
    if Steady(SpecArcs(dag.edges), port, SubgraphOf(dag, g.name, port)) {
      SteadyVerdict(dag, g.name, port);
    }
  }

  /** Likewise where branches never merge. */
  lemma UnmergedGroupVerdict(dag: DagSpec, g: EntryGroup, port: GraphNode)
    requires DistinctOrigins(dag.edges) && Acyclic(SpecArcs(dag.edges)) && port.InputPort?
    requires EntryGroups.NamesIdentify(dag.entryGroups) && g in dag.entryGroups
    ensures var arcs, starts := SpecArcs(dag.edges), set v | v in g.vertices :: Vertex(v);
      Unmerged(arcs, starts, port, PathSubgraph(arcs, SpecNodes(dag), starts, port)) ==>
        (PortBalanced(arcs, SpecNodes(dag), starts, port) <==> CanBeWritten(arcs, starts, port))
  {
    EntryGroups.GroupStarts(dag, g);
    if Unmerged(SpecArcs(dag.edges), Entries(dag, g.name), port, SubgraphOf(dag, g.name, port)) {
      UnmergedVerdict(dag, g.name, port);
    }
  }

  /** A port without a path from the group is written in no run. */
  lemma UnreachedIsNeverWritten(dag: DagSpec, group: string, port: GraphNode, r: Run)
    requires DistinctOrigins(dag.edges) && Acyclic(SpecArcs(dag.edges)) && port.InputPort?
    requires SubgraphOf(dag, group, port) == {} && IsRun(SpecArcs(dag.edges), Entries(dag, group), r)
    ensures !Written(SpecArcs(dag.edges), r, port)
  {
    SpecIsBetween(dag, group, port);
    EmptyIsNeverWritten(SpecArcs(dag.edges), Entries(dag, group), port, r);
  }

  /** In an accepted workflow every input port is reached. */
  lemma AcceptedIsReached(dag: DagSpec, group: string, p: GraphNode) returns (s: GraphNode)
    requires Validator.Accepts(dag) && group in GroupsOf(EntryPairs(dag)) && p in SpecNodes(dag) && p.InputPort?
    ensures s in Entries(dag, group) && Reaches(SpecArcs(dag.edges), s, p)
  {
    assert Balanced(dag, group, p);
    SpecIsBetween(dag, group, p);
    var x :| x in SubgraphOf(dag, group, p);
    assert OnTheWay(SpecArcs(dag.edges), Entries(dag, group), p, x);
    s :| s in Entries(dag, group) && Reaches(SpecArcs(dag.edges), s, x) && Reaches(SpecArcs(dag.edges), x, p);
    ReachesTrans(SpecArcs(dag.edges), s, x, p);
  }

  /** Reached inputs of the subgraph's vertices belong to it. */
  lemma ReachedInputIsInside(arcs: set<Arc>, starts: set<GraphNode>, goal: GraphNode, nodes: set<GraphNode>,
      s: GraphNode, p: GraphNode, v: GraphNode)
    requires Between(arcs, starts, goal, nodes) && s in starts && Reaches(arcs, s, p) && p in Inputs(arcs, v)
    requires v in nodes
    ensures p in nodes
  {
    var a :| a in arcs && a.src == p && a.dst == v;
    assert OnTheWay(arcs, starts, goal, v);
    var t :| t in starts && Reaches(arcs, t, v) && Reaches(arcs, v, goal);
    ReachesStep(arcs, a, goal);
    assert OnTheWay(arcs, starts, goal, p);
  }

  lemma SingleVariantFeeds(arcs: set<Arc>, goal: GraphNode, nodes: set<GraphNode>, p: GraphNode)
    requires Layered(arcs) && Funnel(arcs, nodes, goal) && OneVariantEach(arcs, nodes) && p in nodes && p.InputPort?
    ensures SteadilyFed(arcs, nodes, p)
  {
    var a := ArcBack(arcs, nodes, goal, p);
    assert LayeredArc(a);
    var x := a.src;
    VariantOnOffer(arcs, nodes, goal, x);
    PortPredecessor(arcs, nodes, goal, x);
    var w := OutputVariant(x.vertex, x.variant);
    assert x in Succ(arcs, w) && Feeds(arcs, x, p);
    forall z | z in OutIn(arcs, nodes, Vertex(x.vertex)) ensures VariantFeeds(arcs, z, p) {
      assert z == w;
    }
    assert AlwaysFeeds(arcs, nodes, Vertex(x.vertex), p);
  }

  lemma AcceptedInputIsInside(dag: DagSpec, group: string, port: GraphNode, v: GraphNode, p: GraphNode)
    requires Validator.Accepts(dag) && group in GroupsOf(EntryPairs(dag)) && port.InputPort?
    requires v in SubgraphOf(dag, group, port) && v.Vertex? && p in Inputs(SpecArcs(dag.edges), v)
    ensures p in SubgraphOf(dag, group, port) && p.InputPort?
  {
    SpecIsBetween(dag, group, port);
    SpecNodesCoverArcs(dag);
    var a :| a in SpecArcs(dag.edges) && a.src == p && a.dst == v;
    assert LayeredArc(a);
    var s := AcceptedIsReached(dag, group, p);
    ReachedInputIsInside(SpecArcs(dag.edges), Entries(dag, group), port, SubgraphOf(dag, group, port), s, p, v);
  }

  /** Accepted subgraphs with one variant per vertex are steady. */
  lemma SingleVariantIsSteady(dag: DagSpec, group: string, port: GraphNode)
    requires Validator.Accepts(dag) && group in GroupsOf(EntryPairs(dag)) && port in SpecNodes(dag) && port.InputPort?
    requires OneVariantEach(SpecArcs(dag.edges), SubgraphOf(dag, group, port))
    ensures Steady(SpecArcs(dag.edges), port, SubgraphOf(dag, group, port))
  {
    var arcs, nodes := SpecArcs(dag.edges), SubgraphOf(dag, group, port);
    SpecIsBetween(dag, group, port);
    var s := AcceptedIsReached(dag, group, port);
    ReachesSelf(arcs, port);
    assert OnTheWay(arcs, Entries(dag, group), port, port);
    SingleVariantFeeds(arcs, port, nodes, port);
    forall v, p | v in nodes && v.Vertex? && p in Inputs(arcs, v) ensures SteadilyFed(arcs, nodes, p) {
      AcceptedInputIsInside(dag, group, port, v, p);
      SingleVariantFeeds(arcs, port, nodes, p);
    }
  }

  /** In an accepted workflow with non-exclusive branches on the way to a port, no run writes an input on the
      way twice, and a run that keeps to the way runs all its vertices and writes all its inputs once. */
  lemma AcceptedSteadyRuns(dag: DagSpec, group: string, port: GraphNode, r: Run)
    requires Validator.Accepts(dag) && group in GroupsOf(EntryPairs(dag)) && port in SpecNodes(dag) && port.InputPort?
    requires Steady(SpecArcs(dag.edges), port, SubgraphOf(dag, group, port))
    requires IsRun(SpecArcs(dag.edges), Entries(dag, group), r)
    ensures !RacesWithin(SpecArcs(dag.edges), SubgraphOf(dag, group, port), r)
    ensures KeepsTo(SubgraphOf(dag, group, port), r) ==>
      AllFire(SubgraphOf(dag, group, port), r)
      && forall p :: p in InputPorts(SubgraphOf(dag, group, port)) ==> WrittenOnce(SpecArcs(dag.edges), r, p)
  {
    var arcs, starts, nodes := SpecArcs(dag.edges), Entries(dag, group), SubgraphOf(dag, group, port);
    SpecIsBetween(dag, group, port);
    assert Balanced(dag, group, port);
    forall x, y, p | p in InputPorts(nodes) ensures !Races(arcs, r, x, y, p) {
      SteadyBalanceNeverRaces(arcs, starts, port, nodes, r, x, y, p);
    }
    if KeepsTo(nodes, r) {
      SteadyBalanceWritesOnce(arcs, starts, port, nodes, r);
    }
  }

  /** In particular with one variant per vertex: every run that keeps to the way runs every vertex on it and
      writes every input on it exactly once. */
  lemma AcceptedSingleVariantRuns(dag: DagSpec, group: string, port: GraphNode, r: Run)
    requires Validator.Accepts(dag) && group in GroupsOf(EntryPairs(dag)) && port in SpecNodes(dag) && port.InputPort?
    requires OneVariantEach(SpecArcs(dag.edges), SubgraphOf(dag, group, port))
    requires IsRun(SpecArcs(dag.edges), Entries(dag, group), r)
    requires KeepsTo(SubgraphOf(dag, group, port), r)
    ensures AllFire(SubgraphOf(dag, group, port), r)
    ensures forall p :: p in InputPorts(SubgraphOf(dag, group, port)) ==> WrittenOnce(SpecArcs(dag.edges), r, p)
  {
    SingleVariantIsSteady(dag, group, port);
    AcceptedSteadyRuns(dag, group, port, r);
  }
}
