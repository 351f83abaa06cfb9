/** The check that edges join consecutive layers and that ports have one way on. */
module Order {
  import opened Walks
  import opened DagSpecs
  import opened DiGraphs
  import opened FiniteSets

  /** Targets of the edges out of a node, one per edge. */
  function Neighbors(edges: seq<IndexEdge>, i: nat): seq<nat>
  {
    if edges == [] then []
    else
      var rest := Neighbors(edges[..|edges| - 1], i);
      var last := edges[|edges| - 1];
      if last.source == i then rest + [last.target] else rest
  }

  lemma {:induction false} NeighborHasEdge(edges: seq<IndexEdge>, i: nat, t: nat)
    requires t in Neighbors(edges, i)
    ensures exists e :: e in edges && e.source == i && e.target == t
  {
    var init, last := edges[..|edges| - 1], edges[|edges| - 1];
    if last.source == i && last.target == t {
      assert last in edges;
    } else {
      NeighborHasEdge(init, i, t);
      var e :| e in init && e.source == i && e.target == t;
      assert e in edges;
    }
  }

  lemma {:induction false} EdgeHasNeighbor(edges: seq<IndexEdge>, e: IndexEdge)
    requires e in edges
    ensures e.target in Neighbors(edges, e.source)
  {
    var init, last := edges[..|edges| - 1], edges[|edges| - 1];
    assert edges == init + [last];
    if e != last {
      EdgeHasNeighbor(init, e);
    }
  }

  /** Without parallel edges no neighbour is listed twice. */
  lemma {:induction false} NeighborsDistinct(edges: seq<IndexEdge>, i: nat)
    requires forall j, k :: 0 <= j < k < |edges| ==>
        (edges[j].source, edges[j].target) != (edges[k].source, edges[k].target)
    ensures NoRepeats(Neighbors(edges, i))
  {
    if edges != [] {
      var init, last := edges[..|edges| - 1], edges[|edges| - 1];
      NeighborsDistinct(init, i);
      var rest := Neighbors(init, i);
      if last.source == i {
        forall k | 0 <= k < |rest|
          ensures rest[k] != last.target
        {
          NeighborHasEdge(init, i, rest[k]);
          var e :| e in init && e.source == i && e.target == rest[k];
          var j :| 0 <= j < |init| && init[j] == e;
          assert edges[j] == e;
        }
      }
    }
  }

  predicate CountOk(node: GraphNode, out: nat)
  {
    match node
    case InputPort(_, _) => out == 1
    case Vertex(_) => true
    case OutputVariant(_, _) => out != 0
    case OutputPort(_, _, _) => out == 1
  }

  predicate LayerOk(node: GraphNode, next: GraphNode)
  {
    match node
    case InputPort(_, _) => next.Vertex?
    case Vertex(_) => next.OutputVariant?
    case OutputVariant(_, _) => next.OutputPort?
    case OutputPort(_, _, _) => next.InputPort?
  }

  /** What the check demands of the node at index `i`. */
  ghost predicate NodeOrdered(g: DiGraph, i: nat)
    requires g.InRange() && i < |g.labels|
  {
    && CountOk(g.labels[i], |Neighbors(g.edges, i)|)
    && forall e :: e in g.edges && e.source == i ==> LayerOk(g.labels[i], g.labels[e.target])
  }

  /** The rule on labels: how many successors a node has, and of which layer. */
  ghost predicate LabelOrdered(arcs: set<Arc>, n: GraphNode)
  {
    match n
    case InputPort(_, _) => |Succ(arcs, n)| == 1 && forall m :: m in Succ(arcs, n) ==> m.Vertex?
    case Vertex(_) => forall m :: m in Succ(arcs, n) ==> m.OutputVariant?
    case OutputVariant(_, _) => |Succ(arcs, n)| >= 1 && forall m :: m in Succ(arcs, n) ==> m.OutputPort?
    case OutputPort(_, _, _) => |Succ(arcs, n)| == 1 && forall m :: m in Succ(arcs, n) ==> m.InputPort?
  }

  lemma NeighborsAreSuccessors(g: DiGraph, i: nat)
    requires g.Valid() && i < |g.labels|
    ensures |Neighbors(g.edges, i)| == |Succ(g.Arcs(), g.labels[i])|
  {
    var ns, succ := Neighbors(g.edges, i), Succ(g.Arcs(), g.labels[i]);
    var at := (t: nat) => if t < |g.labels| then g.labels[t] else Vertex("");
    NeighborsDistinct(g.edges, i);
    NoRepeatsCount(ns);
    NeighborsInRange(g, i);
    forall t | t in Elements(ns) ensures at(t) in succ {
      NeighborHasEdge(g.edges, i, t);
      var e :| e in g.edges && e.source == i && e.target == t;
      assert g.ArcOf(e) in g.Arcs();
    }
    forall x | x in succ ensures x in Image(Elements(ns), at) {
      var a :| a in g.Arcs() && a.src == g.labels[i] && a.dst == x;
      var e := EdgeOfArc(g, i, a);
      EdgeHasNeighbor(g.edges, e);
      assert e.target in Elements(ns);
    }
    assert Image(Elements(ns), at) == succ;
    ImageSize(Elements(ns), at);
  }

  lemma OrderedByLabel(g: DiGraph, i: nat)
    requires g.Valid() && i < |g.labels|
    ensures NodeOrdered(g, i) <==> LabelOrdered(g.Arcs(), g.labels[i])
  {
    NeighborsAreSuccessors(g, i);
    forall x | x in Succ(g.Arcs(), g.labels[i])
      ensures exists e :: e in g.edges && e.source == i && g.labels[e.target] == x
    {
      var a :| a in g.Arcs() && a.src == g.labels[i] && a.dst == x;
      var e := EdgeOfArc(g, i, a);
    }
    forall e | e in g.edges && e.source == i ensures g.labels[e.target] in Succ(g.Arcs(), g.labels[i]) {
      assert g.ArcOf(e) in g.Arcs();
    }
  }

  lemma AllOrderedByLabel(g: DiGraph)
    requires g.Valid()
    ensures (forall i :: 0 <= i < |g.labels| ==> NodeOrdered(g, i)) <==>
            forall n :: n in g.Nodes() ==> LabelOrdered(g.Arcs(), n)
  {
    forall i | 0 <= i < |g.labels|
      ensures g.labels[i] in g.Nodes() && (NodeOrdered(g, i) <==> LabelOrdered(g.Arcs(), g.labels[i]))
    {
      OrderedByLabel(g, i);
    }
  }

  method HasCorrectOrderOfActions(g: DiGraph) returns (ok: bool)
    requires g.Valid()
    ensures ok <==> forall n :: n in g.Nodes() ==> LabelOrdered(g.Arcs(), n)
  {
    AllOrderedByLabel(g);
    for i := 0 to |g.labels|
      invariant forall k :: 0 <= k < i ==> NodeOrdered(g, k)
    {
      var neighbors := Neighbors(g.edges, i);
      if !CountOk(g.labels[i], |neighbors|) {
        assert !NodeOrdered(g, i);
        return false;
      }
      NeighborsInRange(g, i);
      for j := 0 to |neighbors|
        invariant forall k :: 0 <= k < j ==> LayerOk(g.labels[i], g.labels[neighbors[k]])
      {
        if !LayerOk(g.labels[i], g.labels[neighbors[j]]) {
          NeighborHasEdge(g.edges, i, neighbors[j]);
          assert !NodeOrdered(g, i);
          return false;
        }
      }
      forall e | e in g.edges && e.source == i
        ensures LayerOk(g.labels[i], g.labels[e.target])
      {
        EdgeHasNeighbor(g.edges, e);
      }
    }
    return true;
  }

  lemma NeighborsInRange(g: DiGraph, i: nat)
    requires g.InRange()
    ensures forall k :: 0 <= k < |Neighbors(g.edges, i)| ==> Neighbors(g.edges, i)[k] < |g.labels|
  {
    forall k | 0 <= k < |Neighbors(g.edges, i)|
      ensures Neighbors(g.edges, i)[k] < |g.labels|
    {
      NeighborHasEdge(g.edges, i, Neighbors(g.edges, i)[k]);
    }
  }

  lemma OnlyOneWay(g: DiGraph, i: nat, e: IndexEdge)
    requires g.Valid() && FourLayered(g.Arcs()) && i < |g.labels|
    requires g.labels[i].InputPort? || g.labels[i].OutputPort?
    requires e in g.edges && e.source == i
    ensures |Neighbors(g.edges, i)| == 1
  {
    var ns := Neighbors(g.edges, i);
    EdgeHasNeighbor(g.edges, e);
    NeighborsDistinct(g.edges, i);
    forall k | 0 <= k < |ns|
      ensures ns[k] == e.target
    {
      NeighborHasEdge(g.edges, i, ns[k]);
      var f :| f in g.edges && f.source == i && f.target == ns[k];
      assert g.ArcOf(f) in g.Arcs() && g.ArcOf(e) in g.Arcs();
      LabelsIdentify(g, f.target, e.target);
    }
    assert Elements(ns) == {e.target};
    NoRepeatsCount(ns);
  }

  /** No compiled graph is ever refused by the order check. */
  lemma CompiledGraphsAreOrdered(g: DiGraph, i: nat)
    requires g.Valid() && FourLayered(g.Arcs()) && i < |g.labels|
    requires g.labels[i].Vertex? || exists x :: x in g.Arcs() && x.src == g.labels[i]
    ensures LabelOrdered(g.Arcs(), g.labels[i])
  {
    OrderedByLabel(g, i);
    forall e | e in g.edges && e.source == i
      ensures LayerOk(g.labels[i], g.labels[e.target])
    {
      assert LayeredArc(g.ArcOf(e));
    }
    if !g.labels[i].Vertex? {
      var x :| x in g.Arcs() && x.src == g.labels[i];
      var e := EdgeOfArc(g, i, x);
      EdgeHasNeighbor(g.edges, e);
      if !g.labels[i].OutputVariant? {
        OnlyOneWay(g, i, e);
      }
    }
  }
}
