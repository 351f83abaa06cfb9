/** Three shapes of workflow in which a vertex branches and the branches merge: accepted without races, accepted
    with a race, and refused for a race that no run has. */
module BranchingWorkflows {
  import opened Walks
  import opened DagSpecs
  import opened Concurrency
  import opened ConcurrencyWitness
  import opened Runs
  import opened RunWitness
  import opened Ways
  import FiniteSets
  import Validator

  /** `direct` and `detour` leave one vertex by different variants; `back` leads on from the detour. */
  predicate IsFork(direct: DagEdge, detour: DagEdge, back: DagEdge)
  {
    && OriginNode(direct) == OriginNode(detour) && VariantNode(direct) != VariantNode(detour)
    && DestinationNode(detour) == OriginNode(back) && OriginNode(back) != OriginNode(direct)
  }

  /** A run that takes the direct way does not run the detour's vertex. */
  lemma BranchesExclude(edges: seq<DagEdge>, direct: DagEdge, detour: DagEdge, back: DagEdge, r: Run)
    requires IsFork(direct, detour, back) && detour in edges && DistinctOrigins(edges)
    requires IsRun(SpecArcs(edges), {OriginNode(direct)}, r)
    requires forall e :: e in edges && InputNode(e) == InputNode(detour) ==> e == detour
    ensures !(Takes(r.choice, direct) && OriginNode(back) in r.fired)
  {
    if OriginNode(back) in r.fired {
      var f := FiredByEdge(edges, {OriginNode(direct)}, r, detour);
    }
  }

  // ---------------------------------------------------------------- exclusive branches that merge

  /** A direct way and a detour to one input. */
  datatype Merge = Merge(direct: DagEdge, detour: DagEdge, back: DagEdge) {

    ghost predicate Valid()
    {
      && IsFork(direct, detour, back)
      && InputNode(direct) == InputNode(back) && InputNode(detour) != InputNode(direct)
      && DestinationNode(direct) != OriginNode(direct) && DestinationNode(direct) != OriginNode(back)
    }

    function Edges(): seq<DagEdge> { [direct, detour, back] }
    function Way(): set<DagEdge> { {direct, detour, back} }
  }

  lemma MergeWay(m: Merge)
    requires m.Valid()
    ensures IsWay(m.Edges(), m.Way(), OriginNode(m.direct), InputNode(m.direct))
  {
    assert m.direct in m.Way() && m.back in m.Way() && m.detour in m.Way();
    assert LeadsOn(m.Way(), InputNode(m.direct), m.detour);
    assert ComesFrom(m.Way(), OriginNode(m.direct), m.back);
  }

  lemma DetourWay(m: Merge, k: set<DagEdge>)
    requires m.Valid() && k == {m.detour}
    ensures IsWay(m.Edges(), k, OriginNode(m.detour), InputNode(m.detour))
  {
    assert m.detour in k;
    forall e | e in m.Edges() ensures e in k <==> LeadsOn(k, InputNode(m.detour), e) {
      if e == m.back {
        assert DestinationNode(m.back) == DestinationNode(m.direct);
      }
    }
  }

  lemma MergeSets(m: Merge, c: map<GraphNode, GraphNode>)
    requires m.Valid() && (Takes(c, m.direct) || Takes(c, m.detour)) && Takes(c, m.back)
    ensures |PortsTaken(m.Way(), c)| == 2 == |InputsOn(m.Way())|
  {
    var e := if Takes(c, m.direct) then m.direct else m.detour;
    assert InputsOn(m.Way()) == {InputNode(m.direct), InputNode(m.detour)};
    assert PortsTaken(m.Way(), c) == {PortNode(e.origin), PortNode(m.back.origin)};
  }

  lemma MergeTakes(m: Merge, c: map<GraphNode, GraphNode>, e: DagEdge)
    requires m.Valid() && e in m.Way() && Takes(c, e)
    ensures OriginNode(e) == OriginNode(m.direct) ==> Takes(c, m.direct) || Takes(c, m.detour)
    ensures OriginNode(e) == OriginNode(m.back) ==> Takes(c, m.back)
  {
  }

  lemma MergeCounts(edges: seq<DagEdge>, m: Merge, c: map<GraphNode, GraphNode>)
    requires m.Valid() && IsChoice(SpecArcs(edges), NodesOn(m.Way()), c)
    ensures |PortsTaken(m.Way(), c)| == |InputsOn(m.Way())|
  {
    var e := ChoiceTakes(edges, m.Way(), c, m.direct);
    var f := ChoiceTakes(edges, m.Way(), c, m.back);
    MergeTakes(m, c, e);
    MergeTakes(m, c, f);
    MergeSets(m, c);
  }

  lemma MergeBalances(dag: DagSpec, m: Merge)
    requires m.Valid() && dag.edges == m.Edges() && DistinctOrigins(dag.edges) && Acyclic(SpecArcs(dag.edges))
    ensures Balances(dag, OriginNode(m.direct), m.direct)
  {
    MergeWay(m);
    forall c | IsChoice(SpecArcs(dag.edges), NodesOn(m.Way()), c)
      ensures |PortsTaken(m.Way(), c)| == |InputsOn(m.Way())|
    {
      MergeCounts(dag.edges, m, c);
    }
    WayBalances(dag, m.Way(), OriginNode(m.direct), InputNode(m.direct));
  }

  lemma DetourBalances(dag: DagSpec, m: Merge)
    requires m.Valid() && dag.edges == m.Edges() && DistinctOrigins(dag.edges) && Acyclic(SpecArcs(dag.edges))
    ensures Balances(dag, OriginNode(m.direct), m.detour)
  {
    DetourWay(m, {m.detour});
    SingleEdgeBalances(dag, {m.detour}, m.detour);
  }

  lemma MergeAllBalance(dag: DagSpec, m: Merge, e: DagEdge)
    requires m.Valid() && dag.edges == m.Edges() && DistinctOrigins(dag.edges) && Acyclic(SpecArcs(dag.edges))
    requires e in dag.edges
    ensures Balances(dag, OriginNode(m.direct), e)
  {
    if e == m.detour {
      DetourBalances(dag, m);
    } else {
      MergeBalances(dag, m);
    }
  }

  lemma MergeIsAccepted(dag: DagSpec, port: string, m: Merge)
    requires IsPlainWorkflow(dag, port, OriginNode(m.direct)) && m.Valid() && dag.edges == m.Edges()
    ensures Validator.Accepts(dag)
  {
    forall e | e in dag.edges ensures Balances(dag, OriginNode(m.direct), e) {
      MergeAllBalance(dag, m, e);
    }
    PlainIsAccepted(dag, port, OriginNode(m.direct));
  }

  lemma MergeExcludes(edges: seq<DagEdge>, m: Merge, r: Run, e: DagEdge, f: DagEdge)
    requires m.Valid() && edges == m.Edges() && DistinctOrigins(edges)
    requires IsRun(SpecArcs(edges), {OriginNode(m.direct)}, r)
    requires e in edges && f in edges && e != f && InputNode(e) == InputNode(f)
    ensures !(Carries(r, e) && Carries(r, f))
  {
    BranchesExclude(edges, m.direct, m.detour, m.back, r);
  }

  /** A merge of exclusive branches is accepted, and no run writes a port twice. */
  lemma MergeNeverRaces(dag: DagSpec, port: string, m: Merge, r: Run, x: GraphNode, y: GraphNode, p: GraphNode)
    requires IsPlainWorkflow(dag, port, OriginNode(m.direct)) && m.Valid() && dag.edges == m.Edges()
    requires IsRun(SpecArcs(dag.edges), {OriginNode(m.direct)}, r)
    ensures Validator.Accepts(dag) && !Races(SpecArcs(dag.edges), r, x, y, p)
  {
    MergeIsAccepted(dag, port, m);
    if Races(SpecArcs(dag.edges), r, x, y, p) {
      var e := EmittedIsCarried(dag.edges, {OriginNode(m.direct)}, r, x, p);
      var f := EmittedIsCarried(dag.edges, {OriginNode(m.direct)}, r, y, p);
      MergeExcludes(dag.edges, m, r, e, f);
    }
  }

  /** Yet a choice of variants at all vertices, also those that do not run, can clash there: what `CanClash`
      finds need not be a race of any run. */
  lemma MergeCanClash(dag: DagSpec, port: string, m: Merge)
    requires IsPlainWorkflow(dag, port, OriginNode(m.direct)) && m.Valid() && dag.edges == m.Edges()
    ensures CanClash(SpecArcs(dag.edges), SubgraphOf(dag, DEFAULT_ENTRY_GROUP, InputNode(m.direct)))
  {
    PlainEntries(dag, port);
    MergeWay(m);
    WayIsSubgraph(dag, m.Way(), OriginNode(m.direct), InputNode(m.direct));
    SpecSubgraphIsFunnel(dag, DEFAULT_ENTRY_GROUP, InputNode(m.direct));
    TwoFeedersClash(dag.edges, m.Way(), InputNode(m.direct), m.direct, m.back);
  }

  lemma TwoFeedersClash(edges: seq<DagEdge>, k: set<DagEdge>, goal: GraphNode, e: DagEdge, f: DagEdge)
    requires FourLayered(SpecArcs(edges)) && Funnel(SpecArcs(edges), NodesOn(k), goal)
    requires e in edges && f in edges && e in k && f in k && InputNode(e) == InputNode(f)
    requires OriginNode(e) != OriginNode(f)
    ensures CanClash(SpecArcs(edges), NodesOn(k))
  {
    EdgeOnWay(k, e);
    EdgeOnWay(k, f);
    EdgeFeeds(edges, e);
    EdgeFeeds(edges, f);
    ClashFreeExactly(SpecArcs(edges), NodesOn(k), goal);
    assert !Exclusive(PortNode(e.origin), PortNode(f.origin));
  }

  // ---------------------------------------------------------------- a branch that writes twice

  /** Like a merge, but each branch has two edges: `direct` and `twin` lead to the same input, `detour` and
      `other` to two inputs of the detour's vertex. */
  datatype Doubled = Doubled(direct: DagEdge, twin: DagEdge, detour: DagEdge, other: DagEdge, back: DagEdge) {

    ghost predicate Valid()
    {
      && IsFork(direct, detour, back)
      && VariantNode(twin) == VariantNode(direct) && PortNode(twin.origin) != PortNode(direct.origin)
      && VariantNode(other) == VariantNode(detour) && PortNode(other.origin) != PortNode(detour.origin)
      && InputNode(direct) == InputNode(twin) == InputNode(back)
      && DestinationNode(other) == DestinationNode(detour) && InputNode(other) != InputNode(detour)
      && DestinationNode(direct) != OriginNode(direct) && DestinationNode(direct) != OriginNode(back)
    }

    function Edges(): seq<DagEdge> { [direct, twin, detour, other, back] }
    function Way(): set<DagEdge> { {direct, twin, detour, other, back} }
  }

  lemma DoubledLeadsOn(d: Doubled, e: DagEdge)
    requires d.Valid() && e in d.Edges()
    ensures LeadsOn(d.Way(), InputNode(d.direct), e)
  {
    assert d.back in d.Way();
  }

  lemma DoubledComesFrom(d: Doubled, e: DagEdge)
    requires d.Valid() && e in d.Edges()
    ensures ComesFrom(d.Way(), OriginNode(d.direct), e)
  {
    assert d.detour in d.Way();
  }

  lemma DoubledWay(d: Doubled)
    requires d.Valid()
    ensures IsWay(d.Edges(), d.Way(), OriginNode(d.direct), InputNode(d.direct))
  {
    assert d.direct in d.Way();
    forall e | e in d.Edges()
      ensures LeadsOn(d.Way(), InputNode(d.direct), e) && ComesFrom(d.Way(), OriginNode(d.direct), e)
    {
      DoubledLeadsOn(d, e);
      DoubledComesFrom(d, e);
    }
  }

  /** One of the two edges of the second branch. */
  lemma DoubledDetourWay(d: Doubled, e: DagEdge, k: set<DagEdge>)
    requires d.Valid() && (e == d.detour || e == d.other) && k == {e}
    ensures IsWay(d.Edges(), k, OriginNode(e), InputNode(e))
  {
    assert e in k;
    forall f | f in d.Edges() ensures f in k <==> LeadsOn(k, InputNode(e), f) {
      assert OriginNode(e) == OriginNode(d.direct);
    }
  }

  lemma DoubledSets(d: Doubled, c: map<GraphNode, GraphNode>)
    requires d.Valid() && (Takes(c, d.direct) || Takes(c, d.detour)) && Takes(c, d.back)
    ensures |PortsTaken(d.Way(), c)| == 3
  {
    var e, f := if Takes(c, d.direct) then d.direct else d.detour, if Takes(c, d.direct) then d.twin else d.other;
    assert PortsTaken(d.Way(), c) == {PortNode(e.origin), PortNode(f.origin), PortNode(d.back.origin)};
  }

  lemma DoubledInputs(d: Doubled)
    requires d.Valid()
    ensures |InputsOn(d.Way())| == 3
  {
    assert InputsOn(d.Way()) == {InputNode(d.direct), InputNode(d.detour), InputNode(d.other)};
  }

  lemma DoubledTakes(d: Doubled, c: map<GraphNode, GraphNode>, e: DagEdge)
    requires d.Valid() && e in d.Way() && OriginNode(e) == OriginNode(d.direct) && Takes(c, e)
    ensures Takes(c, d.direct) || Takes(c, d.detour)
  {
  }

  lemma DoubledTakesBack(d: Doubled, c: map<GraphNode, GraphNode>, e: DagEdge)
    requires d.Valid() && e in d.Way() && OriginNode(e) == OriginNode(d.back) && Takes(c, e)
    ensures Takes(c, d.back)
  {
  }

  lemma DoubledCounts(edges: seq<DagEdge>, d: Doubled, c: map<GraphNode, GraphNode>)
    requires d.Valid() && IsChoice(SpecArcs(edges), NodesOn(d.Way()), c)
    ensures |PortsTaken(d.Way(), c)| == |InputsOn(d.Way())|
  {
    var e := ChoiceTakes(edges, d.Way(), c, d.direct);
    var f := ChoiceTakes(edges, d.Way(), c, d.back);
    DoubledTakes(d, c, e);
    DoubledTakesBack(d, c, f);
    DoubledSets(d, c);
    DoubledInputs(d);
  }

  lemma DoubledBalances(dag: DagSpec, d: Doubled)
    requires d.Valid() && dag.edges == d.Edges() && DistinctOrigins(dag.edges) && Acyclic(SpecArcs(dag.edges))
    ensures Balances(dag, OriginNode(d.direct), d.direct)
  {
    DoubledWay(d);
    forall c | IsChoice(SpecArcs(dag.edges), NodesOn(d.Way()), c)
      ensures |PortsTaken(d.Way(), c)| == |InputsOn(d.Way())|
    {
      DoubledCounts(dag.edges, d, c);
    }
    WayBalances(dag, d.Way(), OriginNode(d.direct), InputNode(d.direct));
  }

  lemma DoubledDetourBalances(dag: DagSpec, d: Doubled, e: DagEdge)
    requires d.Valid() && dag.edges == d.Edges() && DistinctOrigins(dag.edges) && Acyclic(SpecArcs(dag.edges))
    requires e == d.detour || e == d.other
    ensures Balances(dag, OriginNode(d.direct), e)
  {
    DoubledDetourWay(d, e, {e});
    SingleEdgeBalances(dag, {e}, e);
  }

  lemma DoubledAllBalance(dag: DagSpec, d: Doubled, e: DagEdge)
    requires d.Valid() && dag.edges == d.Edges() && DistinctOrigins(dag.edges) && Acyclic(SpecArcs(dag.edges))
    requires e in dag.edges
    ensures Balances(dag, OriginNode(d.direct), e)
  {
    if e == d.detour || e == d.other {
      DoubledDetourBalances(dag, d, e);
    } else {
      DoubledBalances(dag, d);
    }
  }

  lemma DoubledIsAccepted(dag: DagSpec, port: string, d: Doubled)
    requires IsPlainWorkflow(dag, port, OriginNode(d.direct)) && d.Valid() && dag.edges == d.Edges()
    ensures Validator.Accepts(dag)
  {
    forall e | e in dag.edges ensures Balances(dag, OriginNode(d.direct), e) {
      DoubledAllBalance(dag, d, e);
    }
    PlainIsAccepted(dag, port, OriginNode(d.direct));
  }

  /** Acceptance is no proof of race freedom: the workflow is accepted, and every run that answers with the
      first variant writes the port twice. The second variant's larger demand makes up for the surplus. */
  lemma AcceptedWorkflowRaces(dag: DagSpec, port: string, d: Doubled, r: Run)
    requires IsPlainWorkflow(dag, port, OriginNode(d.direct)) && d.Valid() && dag.edges == d.Edges()
    requires IsRun(SpecArcs(dag.edges), {OriginNode(d.direct)}, r) && Takes(r.choice, d.direct)
    ensures Validator.Accepts(dag)
    ensures Races(SpecArcs(dag.edges), r, PortNode(d.direct.origin), PortNode(d.twin.origin), InputNode(d.direct))
  {
    DoubledIsAccepted(dag, port, d);
    TwoCarriedRace(dag.edges, r, d.direct, d.twin);
  }

  // ---------------------------------------------------------------- a false alarm

  /** Both branches write two inputs of one vertex, which leads on to `last`. */
  datatype FalseAlarm = FalseAlarm(direct: DagEdge, second: DagEdge, detour: DagEdge, back: DagEdge,
      backSecond: DagEdge, last: DagEdge) {

    ghost predicate Valid()
    {
      && IsFork(direct, detour, back)
      && VariantNode(second) == VariantNode(direct) && PortNode(second.origin) != PortNode(direct.origin)
      && VariantNode(backSecond) == VariantNode(back) && PortNode(backSecond.origin) != PortNode(back.origin)
      && InputNode(direct) == InputNode(back) && InputNode(second) == InputNode(backSecond)
      && InputNode(direct) != InputNode(second)
      && DestinationNode(direct) == DestinationNode(second) == OriginNode(last)
      && OriginNode(last) != OriginNode(direct) && OriginNode(last) != OriginNode(back)
      && DestinationNode(last) !in {OriginNode(direct), OriginNode(back), OriginNode(last)}
    }

    function Edges(): seq<DagEdge> { [direct, second, detour, back, backSecond, last] }
    function Way(): set<DagEdge> { {direct, second, detour, back, backSecond, last} }
  }

  lemma AlarmWay(a: FalseAlarm)
    requires a.Valid()
    ensures IsWay(a.Edges(), a.Way(), OriginNode(a.direct), InputNode(a.last))
  {
    assert a.direct in a.Way() && a.back in a.Way() && a.detour in a.Way() && a.last in a.Way();
    forall e | e in a.Edges()
      ensures LeadsOn(a.Way(), InputNode(a.last), e) && ComesFrom(a.Way(), OriginNode(a.direct), e)
    {
    }
  }

  /** A choice that takes a port takes all ports of its variant. */
  lemma TakesVariant(k: set<DagEdge>, c: map<GraphNode, GraphNode>, e: DagEdge, f: DagEdge)
    requires e in k && f in k && VariantNode(e) == VariantNode(f) && PortNode(e.origin) in Live(NodesOn(k), c)
    ensures PortNode(e.origin) in PortsTaken(k, c) && PortNode(f.origin) in PortsTaken(k, c)
  {
    assert Takes(c, e) && Takes(c, f);
  }

  /** A choice that takes given ports of three different vertices. */
  lemma ThreeTaken(arcs: set<Arc>, nodes: set<GraphNode>, goal: GraphNode, x: GraphNode, y: GraphNode, z: GraphNode)
    returns (c: map<GraphNode, GraphNode>)
    requires Layered(arcs) && Funnel(arcs, nodes, goal)
    requires x in OutputPorts(nodes) && y in OutputPorts(nodes) && z in OutputPorts(nodes)
    requires x.vertex != y.vertex && x.vertex != z.vertex && y.vertex != z.vertex
    ensures IsChoice(arcs, nodes, c) && x in Live(nodes, c) && y in Live(nodes, c) && z in Live(nodes, c)
  {
    c := WidestChoice(arcs, nodes, goal);
    c := TurnedTo(arcs, nodes, goal, c, x);
    c := TurnedTo(arcs, nodes, goal, c, y);
    c := TurnedTo(arcs, nodes, goal, c, z);
  }

  lemma AlarmInputs(a: FalseAlarm)
    requires a.Valid()
    ensures |InputsOn(a.Way())| <= 4
  {
    assert InputsOn(a.Way()) == {InputNode(a.direct), InputNode(a.second), InputNode(a.detour), InputNode(a.last)};
  }

  lemma AlarmPorts(a: FalseAlarm)
    requires a.Valid()
    ensures |{PortNode(a.direct.origin), PortNode(a.second.origin), PortNode(a.back.origin),
        PortNode(a.backSecond.origin),
              PortNode(a.last.origin)}| == 5
  {
  }

  lemma AlarmCounts(a: FalseAlarm, c: map<GraphNode, GraphNode>)
    requires a.Valid()
    requires PortNode(a.direct.origin) in PortsTaken(a.Way(), c) && PortNode(a.second.origin) in PortsTaken(a.Way(), c)
    requires PortNode(a.back.origin) in PortsTaken(a.Way(), c)
    requires PortNode(a.backSecond.origin) in PortsTaken(a.Way(), c)
    requires PortNode(a.last.origin) in PortsTaken(a.Way(), c)
    ensures |PortsTaken(a.Way(), c)| > |InputsOn(a.Way())|
  {
    var five := {PortNode(a.direct.origin), PortNode(a.second.origin), PortNode(a.back.origin),
        PortNode(a.backSecond.origin),
                 PortNode(a.last.origin)};
    AlarmPorts(a);
    AlarmInputs(a);
    FiniteSets.SubsetSize(five, PortsTaken(a.Way(), c));
  }

  lemma AlarmOverloads(edges: seq<DagEdge>, a: FalseAlarm, goal: GraphNode) returns (c: map<GraphNode, GraphNode>)
    requires a.Valid() && Layered(SpecArcs(edges)) && Funnel(SpecArcs(edges), NodesOn(a.Way()), goal)
    ensures IsChoice(SpecArcs(edges), NodesOn(a.Way()), c) && Overloads(NodesOn(a.Way()), c)
  {
    EdgeOnWay(a.Way(), a.direct);
    EdgeOnWay(a.Way(), a.back);
    EdgeOnWay(a.Way(), a.last);
    c := ThreeTaken(SpecArcs(edges), NodesOn(a.Way()), goal, PortNode(a.direct.origin), PortNode(a.back.origin),
        PortNode(a.last.origin));
    TakesVariant(a.Way(), c, a.direct, a.second);
    TakesVariant(a.Way(), c, a.back, a.backSecond);
    TakesVariant(a.Way(), c, a.last, a.last);
    LiveOnWay(a.Way(), c);
    AlarmCounts(a, c);
  }

  lemma AlarmDetourAlone(a: FalseAlarm, e: DagEdge)
    requires a.Valid() && e in a.Edges() && InputNode(e) == InputNode(a.detour)
    ensures e == a.detour
  {
  }

  /** Two edges to one input: one from each branch. */
  lemma AlarmPairs(a: FalseAlarm, r: Run, e: DagEdge, f: DagEdge)
    requires a.Valid() && e in a.Edges() && f in a.Edges() && e != f && InputNode(e) == InputNode(f)
    ensures Carries(r, e) && Carries(r, f) ==> Takes(r.choice, a.direct) && OriginNode(a.back) in r.fired
  {
  }

  lemma AlarmExcludes(edges: seq<DagEdge>, a: FalseAlarm, r: Run, e: DagEdge, f: DagEdge)
    requires a.Valid() && edges == a.Edges() && DistinctOrigins(edges)
    requires IsRun(SpecArcs(edges), {OriginNode(a.direct)}, r)
    requires e in edges && f in edges && e != f && InputNode(e) == InputNode(f)
    ensures !(Carries(r, e) && Carries(r, f))
  {
    forall g | g in edges && InputNode(g) == InputNode(a.detour) ensures g == a.detour {
      AlarmDetourAlone(a, g);
    }
    BranchesExclude(edges, a.direct, a.detour, a.back, r);
    AlarmPairs(a, r, e, f);
  }

  /** The last input has positive net concurrency, so that the workflow is refused for a race, though no run
      writes any input twice: the two branches never run together. */
  lemma RefusedWithoutRace(dag: DagSpec, port: string, a: FalseAlarm, r: Run, x: GraphNode, y: GraphNode, p: GraphNode)
    requires IsPlainWorkflow(dag, port, OriginNode(a.direct)) && a.Valid() && dag.edges == a.Edges()
    requires IsRun(SpecArcs(dag.edges), {OriginNode(a.direct)}, r)
    ensures Net(SpecArcs(dag.edges), SubgraphOf(dag, DEFAULT_ENTRY_GROUP, InputNode(a.last))) > 0
    ensures !Races(SpecArcs(dag.edges), r, x, y, p)
  {
    AlarmIsRaised(dag, port, a);
    if Races(SpecArcs(dag.edges), r, x, y, p) {
      var e := EmittedIsCarried(dag.edges, {OriginNode(a.direct)}, r, x, p);
      var f := EmittedIsCarried(dag.edges, {OriginNode(a.direct)}, r, y, p);
      AlarmExcludes(dag.edges, a, r, e, f);
    }
  }

  lemma AlarmIsRaised(dag: DagSpec, port: string, a: FalseAlarm)
    requires IsPlainWorkflow(dag, port, OriginNode(a.direct)) && a.Valid() && dag.edges == a.Edges()
    ensures Net(SpecArcs(dag.edges), SubgraphOf(dag, DEFAULT_ENTRY_GROUP, InputNode(a.last))) > 0
  {
    PlainEntries(dag, port);
    AlarmWay(a);
    WayIsSubgraph(dag, a.Way(), OriginNode(a.direct), InputNode(a.last));
    SpecSubgraphIsFunnel(dag, DEFAULT_ENTRY_GROUP, InputNode(a.last));
    var c := AlarmOverloads(dag.edges, a, InputNode(a.last));
    NetIsLargestSurplus(SpecArcs(dag.edges), NodesOn(a.Way()), InputNode(a.last));
  }

  // ---------------------------------------------------------------- instances

  /** Four vertices, and three names for variants and ports. */
  datatype Names = Names(start: string, repair: string, join: string, end: string, one: string, two: string,
      three: string) {
    predicate Differ()
    {
      && start != repair && start != join && start != end && repair != join && repair != end && join != end
      && one != two && one != three && two != three
    }

    function Level(v: string): nat
    {
      if v == start then 0 else if v == repair then 1 else if v == join then 2 else 3
    }

    function Direct(): DagEdge { Edge(start, one, one, join, one) }
    function Detour(): DagEdge { Edge(start, two, one, repair, one) }
    function Back(): DagEdge { Edge(repair, one, one, join, one) }

    function AMerge(): Merge { Merge(Direct(), Detour(), Back()) }

    function ADoubled(): Doubled
    {
      Doubled(Direct(), Edge(start, one, two, join, one), Detour(), Edge(start, two, two, repair, two), Back())
    }

    function AFalseAlarm(): FalseAlarm
    {
      FalseAlarm(Direct(), Edge(start, one, two, join, two), Detour(), Back(), Edge(repair, one, two, join, two),
                 Edge(join, one, one, end, one))
    }
  }

  function Edge(v: string, variant: string, port: string, w: string, input: string): DagEdge
  {
    DagEdge(OutputRef(v, variant, port), InputRef(w, input), Normal)
  }

  function Workflow(n: Names, edges: seq<DagEdge>, more: seq<DagVertex>): DagSpec
  {
    DagSpec([DagVertex(n.start, [n.one]), DagVertex(n.repair, []), DagVertex(n.join, [])] + more, edges, [], [], [])
  }

  /** The rest of what makes three vertices and some edges a plain workflow. */
  lemma ThreeVertices(n: Names, edges: seq<DagEdge>, e: DagEdge, f: DagEdge)
    requires n.Differ() && (forall g :: g in edges ==> g.kind == Normal) && e in edges && f in edges
    requires OriginNode(e) == Vertex(n.start) && OriginNode(f) == Vertex(n.repair)
    requires DestinationNode(f) == Vertex(n.join)
    ensures var dag := Workflow(n, edges, []);
      Plain(dag) && FirstIsEntry(dag, n.one) && DistinctNames(dag.vertices) && VerticesConnected(dag)
  {
    EdgeConnects(Workflow(n, edges, []), e);
    EdgeConnects(Workflow(n, edges, []), f);
  }

  lemma AMergeIsNamed(n: Names)
    requires n.Differ()
    ensures DistinctOrigins(n.AMerge().Edges()) && NotEntered(n.AMerge().Edges(), n.start)
    ensures Levelled(n.AMerge().Edges(), v => n.Level(v)) && n.AMerge().Valid()
  {
  }

  lemma AMergeExists(n: Names)
    requires n.Differ()
    ensures n.AMerge().Valid() && IsPlainWorkflow(Workflow(n, n.AMerge().Edges(), []), n.one, Vertex(n.start))
  {
    AMergeIsNamed(n);
    ThreeVertices(n, n.AMerge().Edges(), n.Direct(), n.Back());
    WellNamedIsStructured(Workflow(n, n.AMerge().Edges(), []), n.one, v => n.Level(v));
  }

  lemma ADoubledIsValid(n: Names)
    requires n.Differ()
    ensures n.ADoubled().Valid()
  {
  }

  lemma ADoubledIsDistinct(n: Names)
    requires n.Differ()
    ensures DistinctOrigins(n.ADoubled().Edges())
  {
  }

  lemma ADoubledIsLevelled(n: Names)
    requires n.Differ()
    ensures Levelled(n.ADoubled().Edges(), v => n.Level(v)) && NotEntered(n.ADoubled().Edges(), n.start)
  {
  }

  lemma ADoubledExists(n: Names)
    requires n.Differ()
    ensures n.ADoubled().Valid() && IsPlainWorkflow(Workflow(n, n.ADoubled().Edges(), []), n.one, Vertex(n.start))
  {
    ADoubledIsValid(n);
    ADoubledIsDistinct(n);
    ADoubledIsLevelled(n);
    ThreeVertices(n, n.ADoubled().Edges(), n.Direct(), n.Back());
    WellNamedIsStructured(Workflow(n, n.ADoubled().Edges(), []), n.one, v => n.Level(v));
  }

  lemma AFalseAlarmIsValid(n: Names)
    requires n.Differ()
    ensures n.AFalseAlarm().Valid()
  {
  }

  lemma AFalseAlarmIsConnected(n: Names)
    ensures VerticesConnected(Workflow(n, n.AFalseAlarm().Edges(), [DagVertex(n.end, [])]))
  {
    var dag := Workflow(n, n.AFalseAlarm().Edges(), [DagVertex(n.end, [])]);
    EdgeConnects(dag, n.Direct());
    EdgeConnects(dag, n.Back());
    EdgeConnects(dag, n.AFalseAlarm().last);
  }

  lemma AFalseAlarmIsDistinct(n: Names)
    requires n.Differ()
    ensures DistinctOrigins(n.AFalseAlarm().Edges())
  {
  }

  lemma AFalseAlarmIsLevelled(n: Names)
    requires n.Differ()
    ensures Levelled(n.AFalseAlarm().Edges(), v => n.Level(v)) && NotEntered(n.AFalseAlarm().Edges(), n.start)
  {
  }

  lemma AFalseAlarmIsPlain(n: Names)
    requires n.Differ()
    ensures var dag := Workflow(n, n.AFalseAlarm().Edges(), [DagVertex(n.end, [])]);
      Plain(dag) && FirstIsEntry(dag, n.one) && DistinctNames(dag.vertices)
  {
  }

  lemma AFalseAlarmExists(n: Names)
    requires n.Differ()
    ensures n.AFalseAlarm().Valid()
    ensures IsPlainWorkflow(Workflow(n, n.AFalseAlarm().Edges(), [DagVertex(n.end, [])]), n.one, Vertex(n.start))
  {
    AFalseAlarmIsValid(n);
    AFalseAlarmIsConnected(n);
    AFalseAlarmIsDistinct(n);
    AFalseAlarmIsLevelled(n);
    AFalseAlarmIsPlain(n);
    WellNamedIsStructured(Workflow(n, n.AFalseAlarm().Edges(), [DagVertex(n.end, [])]), n.one, v => n.Level(v));
  }

  /** Some accepted workflow has a run that writes an input port twice. */
  lemma AcceptanceAllowsRaces(n: Names) returns (dag: DagSpec, r: Run)
    requires n.Differ()
    ensures Validator.Accepts(dag) && IsRun(SpecArcs(dag.edges), Entries(dag, DEFAULT_ENTRY_GROUP), r)
    ensures exists x, y, p :: Races(SpecArcs(dag.edges), r, x, y, p)
  {
    var d := n.ADoubled();
    dag := Workflow(n, d.Edges(), []);
    ADoubledExists(n);
    PlainEntries(dag, n.one);
    r := RunTaking(dag.edges, OriginNode(d.direct), d.direct);
    AcceptedWorkflowRaces(dag, n.one, d, r);
  }

  lemma RunTakingVariant(arcs: set<Arc>, start: GraphNode, w: GraphNode) returns (r: Run)
    requires start.Vertex? && w in Succ(arcs, start)
    ensures IsRun(arcs, {start}, r) && r.choice == map[start := w]
  {
    r := RunExists(arcs, {start}, map[start := w]);
  }

  lemma RunTaking(edges: seq<DagEdge>, start: GraphNode, e: DagEdge) returns (r: Run)
    requires e in edges && OriginNode(e) == start
    ensures IsRun(SpecArcs(edges), {start}, r) && Takes(r.choice, e)
  {
    VariantIsNext(edges, e);
    r := RunTakingVariant(SpecArcs(edges), start, VariantNode(e));
  }

  lemma InputIsNode(dag: DagSpec, e: DagEdge)
    requires e in dag.edges
    ensures InputNode(e) in SpecNodes(dag)
  {
    assert InputNode(e) in EdgeNodes(e);
  }

  lemma UnbalancedIsRefused(dag: DagSpec, group: string, p: GraphNode)
    requires group in GroupsOf(EntryPairs(dag)) && p in SpecNodes(dag) && p.InputPort? && !Balanced(dag, group, p)
    ensures !Validator.Accepts(dag)
  {
  }

  lemma FalseAlarmIsRefused(dag: DagSpec, port: string, a: FalseAlarm)
    requires IsPlainWorkflow(dag, port, OriginNode(a.direct)) && a.Valid() && dag.edges == a.Edges()
    ensures !Validator.Accepts(dag)
  {
    PlainEntries(dag, port);
    AlarmIsRaised(dag, port, a);
    InputIsNode(dag, a.last);
    assert !Balanced(dag, DEFAULT_ENTRY_GROUP, InputNode(a.last));
    UnbalancedIsRefused(dag, DEFAULT_ENTRY_GROUP, InputNode(a.last));
  }

  /** No run of the default group writes an input port twice. */
  ghost predicate NeverRaces(dag: DagSpec)
  {
    forall r, x, y, p {:trigger Races(SpecArcs(dag.edges), r, x, y, p)} ::
      IsRun(SpecArcs(dag.edges), Entries(dag, DEFAULT_ENTRY_GROUP), r) ==> !Races(SpecArcs(dag.edges), r, x, y, p)
  }

  lemma FalseAlarmNeverRaces(dag: DagSpec, port: string, a: FalseAlarm)
    requires IsPlainWorkflow(dag, port, OriginNode(a.direct)) && a.Valid() && dag.edges == a.Edges()
    ensures NeverRaces(dag)
  {
    PlainEntries(dag, port);
    forall r, x, y, p | IsRun(SpecArcs(dag.edges), Entries(dag, DEFAULT_ENTRY_GROUP), r)
      ensures !Races(SpecArcs(dag.edges), r, x, y, p)
    {
      RefusedWithoutRace(dag, port, a, r, x, y, p);
    }
  }

  /** Some workflow that obeys the structural rules is refused for a race although none of its runs races. */
  lemma RefusalMayBeFalse(n: Names) returns (dag: DagSpec)
    requires n.Differ()
    ensures StructureOk(dag) && Acyclic(SpecArcs(dag.edges)) && !Validator.Accepts(dag) && NeverRaces(dag)
  {
    dag := Workflow(n, n.AFalseAlarm().Edges(), [DagVertex(n.end, [])]);
    AFalseAlarmExists(n);
    FalseAlarmIsRefused(dag, n.one, n.AFalseAlarm());
    FalseAlarmNeverRaces(dag, n.one, n.AFalseAlarm());
  }

  lemma MergesNeverRace(dag: DagSpec, port: string, m: Merge)
    requires IsPlainWorkflow(dag, port, OriginNode(m.direct)) && m.Valid() && dag.edges == m.Edges()
    ensures NeverRaces(dag)
  {
    PlainEntries(dag, port);
    forall r, x, y, p | IsRun(SpecArcs(dag.edges), Entries(dag, DEFAULT_ENTRY_GROUP), r)
      ensures !Races(SpecArcs(dag.edges), r, x, y, p)
    {
      MergeNeverRaces(dag, port, m, r, x, y, p);
    }
  }

  /** Some accepted workflow without any racing run has a choice of variants that clashes. */
  lemma ClashMayBeNoRace(n: Names) returns (dag: DagSpec)
    requires n.Differ()
    ensures Validator.Accepts(dag) && NeverRaces(dag)
    ensures CanClash(SpecArcs(dag.edges), SubgraphOf(dag, DEFAULT_ENTRY_GROUP, InputNode(n.Direct())))
  {
    dag := Workflow(n, n.AMerge().Edges(), []);
    AMergeExists(n);
    MergeIsAccepted(dag, n.one, n.AMerge());
    MergesNeverRace(dag, n.one, n.AMerge());
    MergeCanClash(dag, n.one, n.AMerge());
  }
}
