/** Exactly what runs can do, in terms of sets of edges. */
module Plans {
  import opened Walks
  import opened DagSpecs
  import opened ConcurrencyWitness
  import opened Runs
  import opened RunWitness
  import opened Ways

  /** Some edge of `k` writes the input of `g`. */
  ghost predicate Served(k: set<DagEdge>, g: DagEdge)
  {
    exists h :: h in k && InputNode(h) == InputNode(g)
  }

  /** The vertex the edge leaves is an entry, or all its inputs are served. */
  ghost predicate CanLeave(edges: seq<DagEdge>, starts: set<GraphNode>, k: set<DagEdge>, e: DagEdge)
  {
    || OriginNode(e) in starts
    || ((exists g :: g in edges && DestinationNode(g) == OriginNode(e))
        && forall g :: g in edges && DestinationNode(g) == OriginNode(e) ==> Served(k, g))
  }

  /** A set of edges that values can travel along together: one variant at each vertex, and every vertex
      that sends is an entry or has all its inputs written. */
  ghost predicate IsPlan(edges: seq<DagEdge>, starts: set<GraphNode>, k: set<DagEdge>)
  {
    && (forall e :: e in k ==> e in edges && CanLeave(edges, starts, k, e))
    && (forall e, f :: e in k && f in k && OriginNode(e) == OriginNode(f) ==> VariantNode(e) == VariantNode(f))
  }

  // ---------------------------------------------------------------- from a run to a plan

  ghost function CarriedBy(edges: seq<DagEdge>, r: Run): set<DagEdge>
  {
    set e | e in edges && Carries(r, e)
  }

  lemma EnteredByEdge(edges: seq<DagEdge>, v: GraphNode) returns (g: DagEdge)
    requires v.Vertex? && Inputs(SpecArcs(edges), v) != {}
    ensures g in edges && DestinationNode(g) == v
  {
    var p :| p in Inputs(SpecArcs(edges), v);
    var a :| a in SpecArcs(edges) && a.src == p && a.dst == v;
    g := ArcOfEdge(edges, a);
    ArcInEdge(g, a);
  }

  lemma CarriedCanLeave(edges: seq<DagEdge>, starts: set<GraphNode>, r: Run, e: DagEdge)
    requires DistinctOrigins(edges) && IsRun(SpecArcs(edges), starts, r) && e in edges && Carries(r, e)
    ensures CanLeave(edges, starts, CarriedBy(edges, r), e)
  {
    if OriginNode(e) !in starts {
      assert Enabled(SpecArcs(edges), r, OriginNode(e));
      var g := EnteredByEdge(edges, OriginNode(e));
      forall h | h in edges && DestinationNode(h) == OriginNode(e) ensures Served(CarriedBy(edges, r), h) {
        var f := FiredByEdge(edges, starts, r, h);
        assert f in CarriedBy(edges, r);
      }
    }
  }

  /** The edges that a run sends values along form a plan. */
  lemma CarriedIsPlan(edges: seq<DagEdge>, starts: set<GraphNode>, r: Run)
    requires DistinctOrigins(edges) && IsRun(SpecArcs(edges), starts, r)
    ensures IsPlan(edges, starts, CarriedBy(edges, r))
  {
    forall e | e in CarriedBy(edges, r) ensures CanLeave(edges, starts, CarriedBy(edges, r), e) {
      CarriedCanLeave(edges, starts, r, e);
    }
  }

  // ---------------------------------------------------------------- from a plan to a run

  /** The variants a plan takes. */
  ghost predicate Follows(k: set<DagEdge>, choice: map<GraphNode, GraphNode>)
  {
    forall e :: e in k ==> Takes(choice, e)
  }

  ghost predicate SomeLeaves(k: set<DagEdge>, v: GraphNode)
  {
    exists e :: e in k && OriginNode(e) == v
  }

  ghost function EdgeFrom(k: set<DagEdge>, v: GraphNode): (e: DagEdge)
    requires SomeLeaves(k, v)
    ensures e in k && OriginNode(e) == v
  {
    var e :| e in k && OriginNode(e) == v;
    e
  }

  ghost function PlanChoice(k: set<DagEdge>): map<GraphNode, GraphNode>
  {
    map v | v in (set e | e in k :: OriginNode(e)) && SomeLeaves(k, v) :: VariantNode(EdgeFrom(k, v))
  }

  lemma PlanIsFollowed(edges: seq<DagEdge>, starts: set<GraphNode>, k: set<DagEdge>)
    requires IsPlan(edges, starts, k)
    ensures ChoosesVariants(SpecArcs(edges), PlanChoice(k)) && Follows(k, PlanChoice(k))
  {
    forall v | v in PlanChoice(k) ensures v.Vertex? && PlanChoice(k)[v] in Succ(SpecArcs(edges), v) {
      VariantIsNext(edges, EdgeFrom(k, v));
    }
    forall e | e in k ensures Takes(PlanChoice(k), e) {
      assert SomeLeaves(k, OriginNode(e));
      var f := EdgeFrom(k, OriginNode(e));
      assert VariantNode(f) == VariantNode(e);
    }
  }

  lemma {:induction false} PlanFires(edges: seq<DagEdge>, starts: set<GraphNode>, k: set<DagEdge>, r: Run, e: DagEdge)
    requires Acyclic(SpecArcs(edges)) && IsPlan(edges, starts, k) && e in k
    requires IsRun(SpecArcs(edges), starts, r) && Follows(k, r.choice)
    ensures OriginNode(e) in r.fired
    decreases Before(SpecArcs(edges), OriginNode(e)), 1
  {
    if OriginNode(e) !in starts {
      assert CanLeave(edges, starts, k, e);
      var g :| g in edges && DestinationNode(g) == OriginNode(e);
      FourArcs(edges, g);
      var a := Arc(InputNode(g), Normal, DestinationNode(g));
      assert a.src in Inputs(SpecArcs(edges), OriginNode(e));
      forall p | p in Inputs(SpecArcs(edges), OriginNode(e)) ensures Written(SpecArcs(edges), r, p) {
        PlanWrites(edges, starts, k, r, e, p);
      }
      assert Enabled(SpecArcs(edges), r, OriginNode(e));
    }
  }

  lemma {:induction false} PlanWrites(
      edges: seq<DagEdge>, starts: set<GraphNode>, k: set<DagEdge>, r: Run, e: DagEdge, p: GraphNode)
    requires Acyclic(SpecArcs(edges)) && IsPlan(edges, starts, k) && e in k && OriginNode(e) !in starts
    requires IsRun(SpecArcs(edges), starts, r) && Follows(k, r.choice)
    requires p in Inputs(SpecArcs(edges), OriginNode(e))
    ensures Written(SpecArcs(edges), r, p)
    decreases Before(SpecArcs(edges), OriginNode(e)), 0
  {
    var a :| a in SpecArcs(edges) && a.src == p && a.dst == OriginNode(e);
    var g := ArcOfEdge(edges, a);
    ArcInEdge(g, a);
    assert CanLeave(edges, starts, k, e);
    assert Served(k, g);
    var h :| h in k && InputNode(h) == InputNode(g);
    EdgeComesBefore(edges, h, OriginNode(e));
    PlanFires(edges, starts, k, r, h);
    CarriedIsEmitted(edges, r, h);
  }

  lemma EdgeComesBefore(edges: seq<DagEdge>, h: DagEdge, v: GraphNode)
    requires Acyclic(SpecArcs(edges)) && h in edges && InputNode(h) in Inputs(SpecArcs(edges), v)
    ensures Before(SpecArcs(edges), OriginNode(h)) < Before(SpecArcs(edges), v)
  {
    FourArcs(edges, h);
    VariantIsNext(edges, h);
    var b := Arc(VariantNode(h), Normal, PortNode(h.origin));
    assert b.dst in Succ(SpecArcs(edges), VariantNode(h));
    EdgeFeeds(edges, h);
    WriterIsBefore(SpecArcs(edges), OriginNode(h), VariantNode(h), PortNode(h.origin), InputNode(h), v);
  }

  /** Every plan is carried out by some run. */
  lemma PlanIsCarried(edges: seq<DagEdge>, starts: set<GraphNode>, k: set<DagEdge>) returns (r: Run)
    requires Acyclic(SpecArcs(edges)) && IsPlan(edges, starts, k)
    ensures IsRun(SpecArcs(edges), starts, r) && forall e :: e in k ==> Carries(r, e)
  {
    PlanIsFollowed(edges, starts, k);
    r := RunExists(SpecArcs(edges), starts, PlanChoice(k));
    forall e | e in k ensures Carries(r, e) {
      PlanFires(edges, starts, k, r, e);
    }
  }

  // ---------------------------------------------------------------- exactly

  /** A plan with an edge to the port. */
  ghost predicate PlanWritesPort(edges: seq<DagEdge>, starts: set<GraphNode>, k: set<DagEdge>, port: GraphNode)
  {
    IsPlan(edges, starts, k) && exists e :: e in k && InputNode(e) == port
  }

  lemma WrittenHasPlan(edges: seq<DagEdge>, starts: set<GraphNode>, r: Run, port: GraphNode)
    requires DistinctOrigins(edges) && IsRun(SpecArcs(edges), starts, r) && Written(SpecArcs(edges), r, port)
    ensures PlanWritesPort(edges, starts, CarriedBy(edges, r), port)
  {
    var x :| x in Emitted(SpecArcs(edges), r) && Feeds(SpecArcs(edges), x, port);
    var e := EmittedIsCarried(edges, starts, r, x, port);
    CarriedIsPlan(edges, starts, r);
    assert e in CarriedBy(edges, r);
  }

  lemma PlanIsWritten(edges: seq<DagEdge>, starts: set<GraphNode>, k: set<DagEdge>, port: GraphNode)
    requires Acyclic(SpecArcs(edges)) && PlanWritesPort(edges, starts, k, port)
    ensures CanBeWritten(SpecArcs(edges), starts, port)
  {
    var r := PlanIsCarried(edges, starts, k);
    var e :| e in k && InputNode(e) == port;
    CarriedIsEmitted(edges, r, e);
  }

  /** Some run writes a port exactly when a plan has an edge to it. */
  lemma WrittenExactly(edges: seq<DagEdge>, starts: set<GraphNode>, port: GraphNode)
    requires DistinctOrigins(edges) && Acyclic(SpecArcs(edges))
    ensures CanBeWritten(SpecArcs(edges), starts, port) <==> exists k :: PlanWritesPort(edges, starts, k, port)
  {
    if r :| IsRun(SpecArcs(edges), starts, r) && Written(SpecArcs(edges), r, port) {
      WrittenHasPlan(edges, starts, r, port);
    }
    if k :| PlanWritesPort(edges, starts, k, port) {
      PlanIsWritten(edges, starts, k, port);
    }
  }

  /** A plan with two edges to the port. */
  ghost predicate PlanRacesAt(edges: seq<DagEdge>, starts: set<GraphNode>, k: set<DagEdge>, port: GraphNode)
  {
    IsPlan(edges, starts, k) && exists e, f ::
        e in k && f in k && e != f && InputNode(e) == port && InputNode(f) == port
  }

  /** Some run writes the port twice. */
  ghost predicate CanRaceAt(arcs: set<Arc>, starts: set<GraphNode>, port: GraphNode)
  {
    exists r, x, y :: IsRun(arcs, starts, r) && Races(arcs, r, x, y, port)
  }

  lemma RaceHasPlan(edges: seq<DagEdge>, starts: set<GraphNode>, r: Run, x: GraphNode, y: GraphNode, port: GraphNode)
    requires DistinctOrigins(edges) && IsRun(SpecArcs(edges), starts, r) && Races(SpecArcs(edges), r, x, y, port)
    ensures PlanRacesAt(edges, starts, CarriedBy(edges, r), port)
  {
    var e := EmittedIsCarried(edges, starts, r, x, port);
    var f := EmittedIsCarried(edges, starts, r, y, port);
    CarriedIsPlan(edges, starts, r);
    assert e in CarriedBy(edges, r) && f in CarriedBy(edges, r);
  }

  lemma PlanRaces(edges: seq<DagEdge>, starts: set<GraphNode>, k: set<DagEdge>, port: GraphNode)
    requires DistinctOrigins(edges) && Acyclic(SpecArcs(edges)) && PlanRacesAt(edges, starts, k, port)
    ensures CanRaceAt(SpecArcs(edges), starts, port)
  {
    var r := PlanIsCarried(edges, starts, k);
    var e, f :| e in k && f in k && e != f && InputNode(e) == port && InputNode(f) == port;
    TwoCarriedRace(edges, r, e, f);
  }

  /** Some run writes a port twice exactly when a plan has two edges to it. */
  lemma RacesExactly(edges: seq<DagEdge>, starts: set<GraphNode>, port: GraphNode)
    requires DistinctOrigins(edges) && Acyclic(SpecArcs(edges))
    ensures CanRaceAt(SpecArcs(edges), starts, port) <==> exists k :: PlanRacesAt(edges, starts, k, port)
  {
    if r, x, y :| IsRun(SpecArcs(edges), starts, r) && Races(SpecArcs(edges), r, x, y, port) {
      RaceHasPlan(edges, starts, r, x, y, port);
    }
    if k :| PlanRacesAt(edges, starts, k, port) {
      PlanRaces(edges, starts, k, port);
    }
  }
}
