/** Cycle detection by peeling nodes that have no edge into the rest. */
module Cycles {
  import opened Walks
  import opened DiGraphs

  function Below(n: nat): (s: set<nat>)
    ensures forall i: nat :: i in s <==> i < n
  {
    if n == 0 then {} else Below(n - 1) + {n - 1}
  }

  function AllIndices(g: DiGraph): set<nat>
  {
    Below(|g.labels|)
  }

  predicate LeadsInto(g: DiGraph, i: nat, nodes: set<nat>)
  {
    exists e :: e in g.edges && e.source == i && e.target in nodes
  }

  method IsCyclicDirected(g: DiGraph) returns (cyclic: bool)
    requires g.Valid()
    ensures cyclic <==> !Acyclic(g.Arcs())
  {
    var rest := AllIndices(g);
    AllNodesHoldCycles(g);
    while exists i :: i in rest && !LeadsInto(g, i, rest)
      invariant rest <= AllIndices(g)
      invariant CyclesWithin(g.Arcs(), g.LabelSet(rest))
      decreases rest
    {
      var i :| i in rest && !LeadsInto(g, i, rest);
      PeelOne(g, rest, i);
      rest := rest - {i};
    }
    if rest == {} {
      NoCycleLeft(g.Arcs());
      return false;
    }
    StuckIsCyclic(g, rest);
    return true;
  }

  /** Every nonempty closed walk starts in `nodes`. */
  ghost predicate CyclesWithin(arcs: set<Arc>, nodes: set<GraphNode>)
  {
    forall n, w :: IsWalk(arcs, n, w, n) && w != [] ==> n in nodes
  }

  lemma AllNodesHoldCycles(g: DiGraph)
    requires g.Valid()
    ensures CyclesWithin(g.Arcs(), g.LabelSet(AllIndices(g)))
  {
    forall n, w: seq<Arc> | IsWalk(g.Arcs(), n, w, n) && w != []
      ensures n in g.LabelSet(AllIndices(g))
    {
      var e :| e in g.edges && g.ArcOf(e) == w[0];
      assert e.source in AllIndices(g);
    }
  }

  lemma NoCycleLeft(arcs: set<Arc>)
    requires CyclesWithin(arcs, {})
    ensures Acyclic(arcs)
  {
  }

  lemma PeelOne(g: DiGraph, rest: set<nat>, i: nat)
    requires g.Valid() && rest <= AllIndices(g) && i in rest
    requires CyclesWithin(g.Arcs(), g.LabelSet(rest)) && !LeadsInto(g, i, rest)
    ensures CyclesWithin(g.Arcs(), g.LabelSet(rest - {i}))
  {
    var arcs := g.Arcs();
    forall n, w: seq<Arc> | IsWalk(arcs, n, w, n) && w != []
      ensures n in g.LabelSet(rest - {i})
    {
      RotateCycle(arcs, n, w);
      assert w[0].dst in g.LabelSet(rest) && n in g.LabelSet(rest);
      var k :| k in rest && g.labels[k] == n;
      var e := EdgeOfArc(g, k, w[0]);
      LabelSetMember(g, rest, e.target);
      assert LeadsInto(g, k, rest);
      assert k in rest - {i};
    }
  }

  lemma ArcInto(g: DiGraph, rest: set<nat>, i: nat)
    requires g.Valid() && rest <= AllIndices(g) && i in rest && LeadsInto(g, i, rest)
    ensures HasArcInto(g.Arcs(), g.labels[i], g.LabelSet(rest))
  {
    var e :| e in g.edges && e.source == i && e.target in rest;
    var x := g.ArcOf(e);
    assert x in g.Arcs() && x.src == g.labels[i] && x.dst in g.LabelSet(rest);
  }

  lemma StuckIsCyclic(g: DiGraph, rest: set<nat>)
    requires g.Valid() && rest <= AllIndices(g) && rest != {}
    requires forall i :: i in rest ==> LeadsInto(g, i, rest)
    ensures !Acyclic(g.Arcs())
  {
    var nodes := g.LabelSet(rest);
    forall m | m in nodes
      ensures HasArcInto(g.Arcs(), m, nodes)
    {
      var i :| i in rest && g.labels[i] == m;
      ArcInto(g, rest, i);
    }
    var i :| i in rest;
    assert g.labels[i] in nodes;
    EndlessIsCyclic(g.Arcs(), nodes, g.labels[i]);
  }
}
