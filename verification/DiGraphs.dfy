/** The index-based directed graph the validator works on: node weights by index, edges by index
    pairs. `Arcs` forgets the indices. */
module DiGraphs {
  import opened Walks

  datatype IndexEdge = IndexEdge(source: nat, target: nat, weight: EdgeKind)

  datatype DiGraph = DiGraph(labels: seq<GraphNode>, edges: seq<IndexEdge>) {

    ghost predicate InRange()
    {
      forall e :: e in edges ==> e.source < |labels| && e.target < |labels|
    }

    /** Labels identify nodes, and no two edges join the same pair of nodes. */
    ghost predicate Valid()
    {
      && InRange()
      && (forall i, j :: 0 <= i < j < |labels| ==> labels[i] != labels[j])
      && (forall i, j :: 0 <= i < j < |edges| ==>
          (edges[i].source, edges[i].target) != (edges[j].source, edges[j].target))
    }

    function ArcOf(e: IndexEdge): Arc
      requires e.source < |labels| && e.target < |labels|
    {
      Arc(labels[e.source], e.weight, labels[e.target])
    }

    ghost function Arcs(): set<Arc>
      requires InRange()
    {
      set e | e in edges :: ArcOf(e)
    }

    ghost function Nodes(): set<GraphNode>
    {
      set n | n in labels
    }

    ghost function LabelSet(nodes: set<nat>): set<GraphNode>
      requires forall i :: i in nodes ==> i < |labels|
    {
      set i | i in nodes :: labels[i]
    }

    predicate ContainsEdge(source: nat, target: nat)
    {
      exists e :: e in edges && e.source == source && e.target == target
    }
  }

  lemma LabelsIdentify(g: DiGraph, i: nat, j: nat)
    requires g.Valid() && i < |g.labels| && j < |g.labels| && g.labels[i] == g.labels[j]
    ensures i == j
  {
    assert !(i < j) && !(j < i);
  }

  /** Index edges out of a node and arcs out of its label are the same thing. */
  lemma EdgeOfArc(g: DiGraph, i: nat, x: Arc) returns (e: IndexEdge)
    requires g.Valid() && i < |g.labels| && x in g.Arcs() && x.src == g.labels[i]
    ensures e in g.edges && e.source == i && x == g.ArcOf(e)
  {
    e :| e in g.edges && x == g.ArcOf(e);
    LabelsIdentify(g, i, e.source);
  }

  lemma LabelSetMember(g: DiGraph, nodes: set<nat>, i: nat)
    requires g.Valid() && i < |g.labels| && forall k :: k in nodes ==> k < |g.labels|
    ensures g.labels[i] in g.LabelSet(nodes) <==> i in nodes
  {
    if g.labels[i] in g.LabelSet(nodes) {
      var k :| k in nodes && g.labels[k] == g.labels[i];
      LabelsIdentify(g, i, k);
    }
  }
}
