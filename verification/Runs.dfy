/** Runs of a workflow. An entry vertex runs; any other vertex runs once all its input ports have been
    written. A vertex that runs answers with one output variant, and all ports of that variant write the
    input ports they lead to. */
module Runs {
  import opened Walks
  import opened DagSpecs
  import opened ConcurrencyWitness

  /** Which variant each vertex answers with, and which vertices run. A vertex may also answer with a variant
      that leads nowhere: then it is not in `choice`. */
  datatype Run = Run(choice: map<GraphNode, GraphNode>, fired: set<GraphNode>)

  ghost function Inputs(arcs: set<Arc>, v: GraphNode): set<GraphNode>
  {
    set a | a in arcs && a.dst == v :: a.src
  }

  /** The output ports of the variants that running vertices answer with. */
  ghost function Emitted(arcs: set<Arc>, r: Run): set<GraphNode>
  {
    set v, x | v in r.fired && v in r.choice && x in Succ(arcs, r.choice[v]) :: x
  }

  ghost predicate Written(arcs: set<Arc>, r: Run, port: GraphNode)
  {
    exists x :: x in Emitted(arcs, r) && Feeds(arcs, x, port)
  }

  ghost predicate Enabled(arcs: set<Arc>, r: Run, v: GraphNode)
  {
    v.Vertex? && Inputs(arcs, v) != {} && forall p :: p in Inputs(arcs, v) ==> Written(arcs, r, p)
  }

  ghost predicate ChoosesVariants(arcs: set<Arc>, choice: map<GraphNode, GraphNode>)
  {
    forall v :: v in choice ==> v.Vertex? && choice[v] in Succ(arcs, v)
  }

  ghost predicate IsRun(arcs: set<Arc>, starts: set<GraphNode>, r: Run)
  {
    && ChoosesVariants(arcs, r.choice)
    && forall v {:trigger v in r.fired} {:trigger Enabled(arcs, r, v)} :: v in r.fired <==>
        v in starts || Enabled(arcs, r, v)
  }

  /** Two output ports write one input port. */
  ghost predicate Races(arcs: set<Arc>, r: Run, x: GraphNode, y: GraphNode, port: GraphNode)
  {
    x in Emitted(arcs, r) && y in Emitted(arcs, r) && x != y && Feeds(arcs, x, port) && Feeds(arcs, y, port)
  }

  ghost predicate WrittenOnce(arcs: set<Arc>, r: Run, port: GraphNode)
  {
    Written(arcs, r, port) && forall x, y :: !Races(arcs, r, x, y, port)
  }

  // ---------------------------------------------------------------- every choice has one run

  lemma EmittedGrows(arcs: set<Arc>, r: Run, more: Run)
    requires r.choice == more.choice && r.fired <= more.fired
    ensures Emitted(arcs, r) <= Emitted(arcs, more)
  {
  }

  lemma EnabledGrows(arcs: set<Arc>, r: Run, more: Run, v: GraphNode)
    requires r.choice == more.choice && r.fired <= more.fired && Enabled(arcs, r, v)
    ensures Enabled(arcs, more, v)
  {
    EmittedGrows(arcs, r, more);
    forall p | p in Inputs(arcs, v) ensures Written(arcs, more, p) {
      assert Written(arcs, r, p);
      var x :| x in Emitted(arcs, r) && Feeds(arcs, x, p);
      assert x in Emitted(arcs, more);
    }
  }

  ghost function Targets(arcs: set<Arc>): set<GraphNode>
  {
    set a | a in arcs :: a.dst
  }

  /** Every vertex that runs has a reason. */
  ghost predicate Justified(arcs: set<Arc>, starts: set<GraphNode>, r: Run)
  {
    forall v :: v in r.fired ==> v in starts || Enabled(arcs, r, v)
  }

  lemma {:induction false} RunFrom(arcs: set<Arc>, starts: set<GraphNode>, partial: Run) returns (r: Run)
    requires ChoosesVariants(arcs, partial.choice)
    requires starts <= partial.fired && Justified(arcs, starts, partial)
    ensures IsRun(arcs, starts, r) && r.choice == partial.choice
    decreases Targets(arcs) - partial.fired
  {
    if v :| v !in partial.fired && Enabled(arcs, partial, v) {
      var more := partial.(fired := partial.fired + {v});
      var p :| p in Inputs(arcs, v);
      assert v in Targets(arcs);
      forall u | u in more.fired ensures u in starts || Enabled(arcs, more, u) {
        if u !in starts {
          EnabledGrows(arcs, partial, more, u);
        }
      }
      r := RunFrom(arcs, starts, more);
    } else {
      r := partial;
    }
  }

  /** Whatever variants are chosen, there is a run that answers with them. */
  lemma RunExists(arcs: set<Arc>, starts: set<GraphNode>, choice: map<GraphNode, GraphNode>) returns (r: Run)
    requires ChoosesVariants(arcs, choice)
    ensures IsRun(arcs, starts, r) && r.choice == choice
  {
    r := RunFrom(arcs, starts, Run(choice, starts));
  }

  /** The vertex that writes a port comes before the vertex behind the port. */
  lemma WriterIsBefore(arcs: set<Arc>, u: GraphNode, w: GraphNode, x: GraphNode, p: GraphNode, v: GraphNode)
    requires Acyclic(arcs) && w in Succ(arcs, u) && x in Succ(arcs, w) && Feeds(arcs, x, p) && p in Inputs(arcs, v)
    ensures Before(arcs, u) < Before(arcs, v)
    ensures Reaches(arcs, u, v)
  {
    var a :| a in arcs && a.src == u && a.dst == w;
    var b :| b in arcs && b.src == w && b.dst == x;
    var c :| c in arcs && c.src == x && c.dst == p;
    var d :| d in arcs && d.src == p && d.dst == v;
    BeforeGrows(arcs, a);
    BeforeGrows(arcs, b);
    BeforeGrows(arcs, c);
    BeforeGrows(arcs, d);
    ReachesSelf(arcs, u);
    ReachesArc(arcs, u, a);
    ReachesArc(arcs, u, b);
    ReachesArc(arcs, u, c);
    ReachesArc(arcs, u, d);
  }

  /** Who wrote a port. */
  lemma WriterOf(arcs: set<Arc>, r: Run, p: GraphNode) returns (u: GraphNode, x: GraphNode)
    requires Written(arcs, r, p)
    ensures u in r.fired && u in r.choice && x in Succ(arcs, r.choice[u]) && Feeds(arcs, x, p)
  {
    x :| x in Emitted(arcs, r) && Feeds(arcs, x, p);
    u :| u in r.fired && u in r.choice && x in Succ(arcs, r.choice[u]);
  }

  lemma {:induction false} FiredInBoth(arcs: set<Arc>, starts: set<GraphNode>, r: Run, s: Run, v: GraphNode)
    requires Acyclic(arcs) && IsRun(arcs, starts, r) && IsRun(arcs, starts, s) && r.choice == s.choice
    requires v in r.fired
    ensures v in s.fired
    decreases Before(arcs, v)
  {
    if v !in starts {
      assert Enabled(arcs, r, v);
      forall p | p in Inputs(arcs, v) ensures Written(arcs, s, p) {
        assert Written(arcs, r, p);
        var u, x := WriterOf(arcs, r, p);
        WriterIsBefore(arcs, u, r.choice[u], x, p, v);
        FiredInBoth(arcs, starts, r, s, u);
        assert x in Emitted(arcs, s);
      }
      assert Enabled(arcs, s, v);
    }
  }

  /** In an acyclic workflow the answers of the vertices determine the run. */
  lemma RunIsUnique(arcs: set<Arc>, starts: set<GraphNode>, r: Run, s: Run)
    requires Acyclic(arcs) && IsRun(arcs, starts, r) && IsRun(arcs, starts, s) && r.choice == s.choice
    ensures r == s
  {
    forall v ensures v in r.fired <==> v in s.fired {
      if v in r.fired {
        FiredInBoth(arcs, starts, r, s, v);
      }
      if v in s.fired {
        FiredInBoth(arcs, starts, s, r, v);
      }
    }
  }

  // ---------------------------------------------------------------- what runs is reached

  lemma {:induction false} FiredIsReached(arcs: set<Arc>, starts: set<GraphNode>, r: Run,
      v: GraphNode) returns (s: GraphNode)
    requires Acyclic(arcs) && IsRun(arcs, starts, r) && v in r.fired
    ensures s in starts && Reaches(arcs, s, v)
    decreases Before(arcs, v)
  {
    if v in starts {
      s := v;
      ReachesSelf(arcs, v);
    } else {
      assert Enabled(arcs, r, v);
      var p :| p in Inputs(arcs, v);
      assert Written(arcs, r, p);
      var u, x := WriterOf(arcs, r, p);
      WriterIsBefore(arcs, u, r.choice[u], x, p, v);
      s := FiredIsReached(arcs, starts, r, u);
      ReachesTrans(arcs, s, u, v);
    }
  }

  lemma EmittedIsReached(arcs: set<Arc>, starts: set<GraphNode>, r: Run, x: GraphNode) returns (s: GraphNode)
    requires Acyclic(arcs) && IsRun(arcs, starts, r) && x in Emitted(arcs, r)
    ensures s in starts && Reaches(arcs, s, x)
  {
    var v :| v in r.fired && v in r.choice && x in Succ(arcs, r.choice[v]);
    var a :| a in arcs && a.src == v && a.dst == r.choice[v];
    var b :| b in arcs && b.src == r.choice[v] && b.dst == x;
    s := FiredIsReached(arcs, starts, r, v);
    ReachesArc(arcs, s, a);
    ReachesArc(arcs, s, b);
  }

  /** What is emitted is chosen. */
  lemma EmittedIsChosen(arcs: set<Arc>, starts: set<GraphNode>, r: Run, x: GraphNode)
    requires Layered(arcs) && IsRun(arcs, starts, r) && x in Emitted(arcs, r)
    ensures Chosen(r.choice, x) && Vertex(x.vertex) in r.fired
    ensures Arc(Vertex(x.vertex), Normal, OutputVariant(x.vertex, x.variant)) in arcs
    ensures Arc(OutputVariant(x.vertex, x.variant), Normal, x) in arcs
  {
    var v :| v in r.fired && v in r.choice && x in Succ(arcs, r.choice[v]);
    var a :| a in arcs && a.src == v && a.dst == r.choice[v];
    var b :| b in arcs && b.src == r.choice[v] && b.dst == x;
    assert LayeredArc(a) && LayeredArc(b);
  }

  /** The ports of the variant that a running vertex answers with are emitted. */
  lemma ChosenIsEmitted(arcs: set<Arc>, r: Run, x: GraphNode)
    requires Chosen(r.choice, x) && Vertex(x.vertex) in r.fired
    requires Arc(OutputVariant(x.vertex, x.variant), Normal, x) in arcs
    ensures x in Emitted(arcs, r)
  {
    var v := Vertex(x.vertex);
    assert x in Succ(arcs, r.choice[v]);
  }
}
