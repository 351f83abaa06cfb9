/** Two shapes of workflow in which the validator misjudges whether a port can be written: one accepted although
    no run writes the port, one refused as unreachable although runs write it. */
module WaitingWorkflows {
  import opened Walks
  import opened DagSpecs
  import opened Concurrency
  import opened ConcurrencyWitness
  import opened Runs
  import opened RunWitness
  import opened Ways
  import opened BranchingWorkflows
  import FiniteSets
  import Validator

  // ---------------------------------------------------------------- accepted, never written

  /** Two branches serve one input each of a vertex that needs both and writes its own output twice. */
  datatype Starved = Starved(first: DagEdge, second: DagEdge, done: DagEdge, twice: DagEdge) {

    ghost predicate Valid()
    {
      && OriginNode(first) == OriginNode(second) && VariantNode(first) != VariantNode(second)
      && DestinationNode(first) == DestinationNode(second) == OriginNode(done) && InputNode(first) != InputNode(second)
      && VariantNode(done) == VariantNode(twice) && PortNode(done.origin) != PortNode(twice.origin)
      && InputNode(done) == InputNode(twice) && OriginNode(done) != OriginNode(first)
      && DestinationNode(done) !in {OriginNode(first), OriginNode(done)}
    }

    function Edges(): seq<DagEdge> { [first, second, done, twice] }
    function Way(): set<DagEdge> { {first, second, done, twice} }
  }

  lemma StarvedWay(s: Starved)
    requires s.Valid()
    ensures IsWay(s.Edges(), s.Way(), OriginNode(s.first), InputNode(s.done))
  {
    assert s.first in s.Way() && s.done in s.Way();
    forall e | e in s.Edges()
      ensures LeadsOn(s.Way(), InputNode(s.done), e) && ComesFrom(s.Way(), OriginNode(s.first), e)
    {
    }
  }

  /** One of the two branches. */
  lemma BranchWay(s: Starved, e: DagEdge, k: set<DagEdge>)
    requires s.Valid() && (e == s.first || e == s.second) && k == {e}
    ensures IsWay(s.Edges(), k, OriginNode(e), InputNode(e))
  {
    assert e in k;
    forall f | f in s.Edges() ensures f in k <==> LeadsOn(k, InputNode(e), f) {
      assert OriginNode(e) == OriginNode(s.first);
    }
  }

  lemma StarvedSets(s: Starved, c: map<GraphNode, GraphNode>)
    requires s.Valid() && (Takes(c, s.first) || Takes(c, s.second)) && Takes(c, s.done)
    ensures |PortsTaken(s.Way(), c)| == 3
  {
    var e := if Takes(c, s.first) then s.first else s.second;
    assert PortsTaken(s.Way(), c) == {PortNode(e.origin), PortNode(s.done.origin), PortNode(s.twice.origin)};
  }

  lemma StarvedInputs(s: Starved)
    requires s.Valid()
    ensures |InputsOn(s.Way())| == 3
  {
    assert InputsOn(s.Way()) == {InputNode(s.first), InputNode(s.second), InputNode(s.done)};
  }

  lemma StarvedTakes(s: Starved, c: map<GraphNode, GraphNode>, e: DagEdge)
    requires s.Valid() && e in s.Way() && Takes(c, e)
    ensures OriginNode(e) == OriginNode(s.first) ==> Takes(c, s.first) || Takes(c, s.second)
    ensures OriginNode(e) == OriginNode(s.done) ==> Takes(c, s.done)
  {
  }

  lemma StarvedCounts(edges: seq<DagEdge>, s: Starved, c: map<GraphNode, GraphNode>)
    requires s.Valid() && IsChoice(SpecArcs(edges), NodesOn(s.Way()), c)
    ensures |PortsTaken(s.Way(), c)| == |InputsOn(s.Way())|
  {
    var e := ChoiceTakes(edges, s.Way(), c, s.first);
    var f := ChoiceTakes(edges, s.Way(), c, s.done);
    StarvedTakes(s, c, e);
    StarvedTakes(s, c, f);
    StarvedSets(s, c);
    StarvedInputs(s);
  }

  lemma StarvedBalances(dag: DagSpec, s: Starved, e: DagEdge)
    requires s.Valid() && dag.edges == s.Edges() && DistinctOrigins(dag.edges) && Acyclic(SpecArcs(dag.edges))
    requires e in dag.edges
    ensures Balances(dag, OriginNode(s.first), e)
  {
    if e == s.first || e == s.second {
      BranchWay(s, e, {e});
      SingleEdgeBalances(dag, {e}, e);
    } else {
      StarvedWay(s);
      forall c | IsChoice(SpecArcs(dag.edges), NodesOn(s.Way()), c)
        ensures |PortsTaken(s.Way(), c)| == |InputsOn(s.Way())|
      {
        StarvedCounts(dag.edges, s, c);
      }
      WayBalances(dag, s.Way(), OriginNode(s.first), InputNode(s.done));
    }
  }

  lemma StarvedIsAccepted(dag: DagSpec, port: string, s: Starved)
    requires IsPlainWorkflow(dag, port, OriginNode(s.first)) && s.Valid() && dag.edges == s.Edges()
    ensures Validator.Accepts(dag)
  {
    forall e | e in dag.edges ensures Balances(dag, OriginNode(s.first), e) {
      StarvedBalances(dag, s, e);
    }
    PlainIsAccepted(dag, port, OriginNode(s.first));
  }

  /** An edge to an input that only the edge itself serves is carried if its destination runs. */
  lemma OnlyEdgeCarries(edges: seq<DagEdge>, starts: set<GraphNode>, r: Run, e: DagEdge)
    requires DistinctOrigins(edges) && IsRun(SpecArcs(edges), starts, r) && e in edges
    requires forall f :: f in edges && InputNode(f) == InputNode(e) ==> f == e
    requires DestinationNode(e) in r.fired && DestinationNode(e) !in starts
    ensures Carries(r, e)
  {
    var f := FiredByEdge(edges, starts, r, e);
  }

  lemma BranchesAlone(s: Starved, e: DagEdge)
    requires s.Valid() && e in s.Edges()
    ensures InputNode(e) == InputNode(s.first) ==> e == s.first
    ensures InputNode(e) == InputNode(s.second) ==> e == s.second
  {
  }

  /** The vertex that needs both branches never runs. */
  lemma StarvedNeverFires(edges: seq<DagEdge>, s: Starved, r: Run)
    requires s.Valid() && edges == s.Edges() && DistinctOrigins(edges)
    requires IsRun(SpecArcs(edges), {OriginNode(s.first)}, r)
    ensures OriginNode(s.done) !in r.fired
  {
    if OriginNode(s.done) in r.fired {
      forall e | e in edges
        ensures InputNode(e) == InputNode(s.first) ==> e == s.first
        ensures InputNode(e) == InputNode(s.second) ==> e == s.second
      {
        BranchesAlone(s, e);
      }
      OnlyEdgeCarries(edges, {OriginNode(s.first)}, r, s.first);
      OnlyEdgeCarries(edges, {OriginNode(s.first)}, r, s.second);
    }
  }

  lemma DoneWriters(s: Starved, e: DagEdge)
    requires s.Valid() && e in s.Edges() && InputNode(e) == InputNode(s.done)
    ensures OriginNode(e) == OriginNode(s.done)
  {
  }

  /** Acceptance is no proof that a port is ever written: the output that is sent twice makes up for the second
      of two exclusive inputs, and no run writes it. */
  lemma AcceptedNeverWritten(dag: DagSpec, port: string, s: Starved, r: Run)
    requires IsPlainWorkflow(dag, port, OriginNode(s.first)) && s.Valid() && dag.edges == s.Edges()
    requires IsRun(SpecArcs(dag.edges), {OriginNode(s.first)}, r)
    ensures Validator.Accepts(dag) && !Written(SpecArcs(dag.edges), r, InputNode(s.done))
  {
    StarvedIsAccepted(dag, port, s);
    StarvedNeverFires(dag.edges, s, r);
    if Written(SpecArcs(dag.edges), r, InputNode(s.done)) {
      var x :| x in Emitted(SpecArcs(dag.edges), r) && Feeds(SpecArcs(dag.edges), x, InputNode(s.done));
      var e := EmittedIsCarried(dag.edges, {OriginNode(s.first)}, r, x, InputNode(s.done));
      DoneWriters(s, e);
    }
  }

  // ---------------------------------------------------------------- refused, yet written

  /** A direct way, and a detour that is never taken because its vertex needs two exclusive branches. */
  datatype DeadDetour = DeadDetour(direct: DagEdge, left: DagEdge, right: DagEdge, back: DagEdge) {

    ghost predicate Valid()
    {
      && OriginNode(direct) == OriginNode(left) == OriginNode(right)
      && VariantNode(direct) != VariantNode(left) && VariantNode(direct) != VariantNode(right)
      && VariantNode(left) != VariantNode(right)
      && DestinationNode(left) == DestinationNode(right) == OriginNode(back) && InputNode(left) != InputNode(right)
      && InputNode(direct) == InputNode(back) && OriginNode(back) != OriginNode(direct)
      && DestinationNode(direct) !in {OriginNode(direct), OriginNode(back)}
    }

    function Edges(): seq<DagEdge> { [direct, left, right, back] }
    function Way(): set<DagEdge> { {direct, left, right, back} }
  }

  lemma DeadWay(d: DeadDetour)
    requires d.Valid()
    ensures IsWay(d.Edges(), d.Way(), OriginNode(d.direct), InputNode(d.direct))
  {
    assert d.direct in d.Way() && d.left in d.Way() && d.back in d.Way();
    forall e | e in d.Edges()
      ensures LeadsOn(d.Way(), InputNode(d.direct), e) && ComesFrom(d.Way(), OriginNode(d.direct), e)
    {
    }
  }

  lemma DeadInputs(d: DeadDetour)
    requires d.Valid()
    ensures |InputsOn(d.Way())| == 3
  {
    assert InputsOn(d.Way()) == {InputNode(d.direct), InputNode(d.left), InputNode(d.right)};
  }

  lemma DeadTakes(d: DeadDetour, c: map<GraphNode, GraphNode>, e: DagEdge)
    requires d.Valid() && e in d.Way() && OriginNode(e) == OriginNode(d.direct) && Takes(c, e)
    ensures forall f :: f in d.Way() && OriginNode(f) == OriginNode(d.direct) && Takes(c, f) ==> f == e
  {
  }

  lemma DeadSets(d: DeadDetour, c: map<GraphNode, GraphNode>, e: DagEdge)
    requires d.Valid() && e in d.Way() && OriginNode(e) == OriginNode(d.direct) && Takes(c, e)
    ensures |PortsTaken(d.Way(), c)| <= 2
  {
    DeadTakes(d, c, e);
    var two := {PortNode(e.origin), PortNode(d.back.origin)};
    assert PortsTaken(d.Way(), c) <= two;
    FiniteSets.SubsetSize(PortsTaken(d.Way(), c), two);
  }

  lemma DeadFallsShort(edges: seq<DagEdge>, d: DeadDetour, c: map<GraphNode, GraphNode>)
    requires d.Valid() && IsChoice(SpecArcs(edges), NodesOn(d.Way()), c)
    ensures FallsShort(NodesOn(d.Way()), c)
  {
    var e := ChoiceTakes(edges, d.Way(), c, d.direct);
    DeadSets(d, c, e);
    DeadInputs(d);
    LiveOnWay(d.Way(), c);
  }

  lemma DeadIsNegative(dag: DagSpec, port: string, d: DeadDetour)
    requires IsPlainWorkflow(dag, port, OriginNode(d.direct)) && d.Valid() && dag.edges == d.Edges()
    ensures Net(SpecArcs(dag.edges), SubgraphOf(dag, DEFAULT_ENTRY_GROUP, InputNode(d.direct))) < 0
  {
    PlainEntries(dag, port);
    DeadWay(d);
    WayIsSubgraph(dag, d.Way(), OriginNode(d.direct), InputNode(d.direct));
    SpecSubgraphIsFunnel(dag, DEFAULT_ENTRY_GROUP, InputNode(d.direct));
    forall c | IsChoice(SpecArcs(dag.edges), NodesOn(d.Way()), c) ensures FallsShort(NodesOn(d.Way()), c) {
      DeadFallsShort(dag.edges, d, c);
    }
    ShortChoicesNet(SpecArcs(dag.edges), NodesOn(d.Way()), InputNode(d.direct));
  }

  /** The last input has negative net concurrency, so that the workflow is refused as unreachable there, though
      every run that answers with the direct variant writes it. */
  lemma RefusedThoughWritten(dag: DagSpec, port: string, d: DeadDetour, r: Run)
    requires IsPlainWorkflow(dag, port, OriginNode(d.direct)) && d.Valid() && dag.edges == d.Edges()
    requires IsRun(SpecArcs(dag.edges), {OriginNode(d.direct)}, r) && Takes(r.choice, d.direct)
    ensures Net(SpecArcs(dag.edges), SubgraphOf(dag, DEFAULT_ENTRY_GROUP, InputNode(d.direct))) < 0
    ensures Written(SpecArcs(dag.edges), r, InputNode(d.direct))
  {
    DeadIsNegative(dag, port, d);
    CarriedIsEmitted(dag.edges, r, d.direct);
  }

  // ---------------------------------------------------------------- instances

  function AStarved(n: Names): Starved
  {
    Starved(Edge(n.start, n.one, n.one, n.repair, n.one), Edge(n.start, n.two, n.one, n.repair, n.two),
            Edge(n.repair, n.one, n.one, n.join, n.one), Edge(n.repair, n.one, n.two, n.join, n.one))
  }

  function ADeadDetour(n: Names): DeadDetour
  {
    DeadDetour(n.Direct(), n.Detour(), Edge(n.start, n.three, n.one, n.repair, n.two), n.Back())
  }

  lemma AStarvedIsValid(n: Names)
    requires n.Differ()
    ensures AStarved(n).Valid()
  {
  }

  lemma AStarvedIsNamed(n: Names)
    requires n.Differ()
    ensures DistinctOrigins(AStarved(n).Edges()) && NotEntered(AStarved(n).Edges(), n.start)
    ensures Levelled(AStarved(n).Edges(), v => n.Level(v))
  {
  }

  lemma ADeadDetourIsValid(n: Names)
    requires n.Differ()
    ensures ADeadDetour(n).Valid()
  {
  }

  lemma ADeadDetourIsNamed(n: Names)
    requires n.Differ()
    ensures DistinctOrigins(ADeadDetour(n).Edges()) && NotEntered(ADeadDetour(n).Edges(), n.start)
    ensures Levelled(ADeadDetour(n).Edges(), v => n.Level(v))
  {
  }

  /** Some accepted workflow has an input port that no run writes. */
  lemma AcceptanceAllowsStarvation(n: Names) returns (dag: DagSpec, p: GraphNode)
    requires n.Differ()
    ensures Validator.Accepts(dag) && p in SpecNodes(dag) && p.InputPort?
    ensures !CanBeWritten(SpecArcs(dag.edges), Entries(dag, DEFAULT_ENTRY_GROUP), p)
  {
    var s := AStarved(n);
    dag, p := Workflow(n, s.Edges(), []), InputNode(s.done);
    AStarvedIsValid(n);
    AStarvedIsNamed(n);
    ThreeVertices(n, s.Edges(), s.first, s.done);
    WellNamedIsStructured(dag, n.one, v => n.Level(v));
    StarvedIsAccepted(dag, n.one, s);
    StarvedPortFacts(dag, n.one, s);
  }

  lemma StarvedPortFacts(dag: DagSpec, port: string, s: Starved)
    requires IsPlainWorkflow(dag, port, OriginNode(s.first)) && s.Valid() && dag.edges == s.Edges()
    ensures InputNode(s.done) in SpecNodes(dag)
    ensures !CanBeWritten(SpecArcs(dag.edges), Entries(dag, DEFAULT_ENTRY_GROUP), InputNode(s.done))
  {
    PlainEntries(dag, port);
    InputIsNode(dag, s.done);
    forall r | IsRun(SpecArcs(dag.edges), {OriginNode(s.first)}, r)
      ensures !Written(SpecArcs(dag.edges), r, InputNode(s.done))
    {
      AcceptedNeverWritten(dag, port, s, r);
    }
  }

  /** Some workflow that obeys the structural rules is refused because of a port with negative net concurrency
      that runs do write. */
  lemma RefusedPortMayBeWritten(n: Names) returns (dag: DagSpec, p: GraphNode)
    requires n.Differ()
    ensures StructureOk(dag) && Acyclic(SpecArcs(dag.edges)) && !Validator.Accepts(dag)
    ensures Net(SpecArcs(dag.edges), SubgraphOf(dag, DEFAULT_ENTRY_GROUP, p)) < 0
    ensures CanBeWritten(SpecArcs(dag.edges), Entries(dag, DEFAULT_ENTRY_GROUP), p)
  {
    var d := ADeadDetour(n);
    dag, p := Workflow(n, d.Edges(), []), InputNode(d.direct);
    ADeadDetourIsValid(n);
    ADeadDetourIsNamed(n);
    ThreeVertices(n, d.Edges(), d.direct, d.back);
    WellNamedIsStructured(dag, n.one, v => n.Level(v));
    DeadPortFacts(dag, n.one, d);
  }

  lemma DeadPortFacts(dag: DagSpec, port: string, d: DeadDetour)
    requires IsPlainWorkflow(dag, port, OriginNode(d.direct)) && d.Valid() && dag.edges == d.Edges()
    ensures !Validator.Accepts(dag)
    ensures Net(SpecArcs(dag.edges), SubgraphOf(dag, DEFAULT_ENTRY_GROUP, InputNode(d.direct))) < 0
    ensures CanBeWritten(SpecArcs(dag.edges), Entries(dag, DEFAULT_ENTRY_GROUP), InputNode(d.direct))
  {
    PlainEntries(dag, port);
    DeadIsNegative(dag, port, d);
    InputIsNode(dag, d.direct);
    assert !Balanced(dag, DEFAULT_ENTRY_GROUP, InputNode(d.direct));
    UnbalancedIsRefused(dag, DEFAULT_ENTRY_GROUP, InputNode(d.direct));
    var r := RunTaking(dag.edges, OriginNode(d.direct), d.direct);
    RefusedThoughWritten(dag, port, d, r);
  }
}
