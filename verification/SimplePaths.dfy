/** Search for the nodes that lie on simple paths between two nodes. */
module SimplePaths {
  import opened Walks
  import opened DiGraphs
  import opened Cycles

  /** A path that visits no node of `seen` and no node twice, peeled from the front. */
  ghost predicate FreshPath(arcs: set<Arc>, seen: set<GraphNode>, a: GraphNode, w: seq<Arc>, b: GraphNode)
    decreases |w|
  {
    && w != []
    && w[0] in arcs && w[0].src == a && w[0].dst !in seen
    && if |w| == 1 then w[0].dst == b else FreshPath(arcs, seen + {w[0].dst}, w[0].dst, w[1..], b)
  }

  lemma {:induction false} FreshPathMeans(arcs: set<Arc>, seen: set<GraphNode>, a: GraphNode, w: seq<Arc>, b: GraphNode)
    ensures FreshPath(arcs, seen, a, w, b) <==>
            && w != [] && IsWalk(arcs, a, w, b)
            && (forall k :: 0 < k <= |w| ==> NodeAt(a, w, k) !in seen)
            && (forall i, j :: 0 < i < j <= |w| ==> NodeAt(a, w, i) != NodeAt(a, w, j))
    decreases |w|
  {
    if |w| > 1 {
      var d, rest := w[0].dst, w[1..];
      FreshPathMeans(arcs, seen + {d}, d, rest, b);
      assert forall k :: 0 < k <= |w| ==> NodeAt(a, w, k) == NodeAt(d, rest, k - 1);
      if FreshPath(arcs, seen, a, w, b) {
        forall i, j | 0 < i < j <= |w|
          ensures NodeAt(a, w, i) != NodeAt(a, w, j)
        {
          assert NodeAt(a, w, j) == NodeAt(d, rest, j - 1);
        }
        forall k | 0 < k <= |w|
          ensures NodeAt(a, w, k) !in seen
        {
        }
      }
      if IsWalk(arcs, a, w, b)
         && (forall k :: 0 < k <= |w| ==> NodeAt(a, w, k) !in seen)
         && (forall i, j :: 0 < i < j <= |w| ==> NodeAt(a, w, i) != NodeAt(a, w, j))
      {
        forall k | 0 < k <= |rest|
          ensures NodeAt(d, rest, k) !in seen + {d}
        {
          assert NodeAt(d, rest, k) == NodeAt(a, w, k + 1);
          assert NodeAt(a, w, 1) != NodeAt(a, w, k + 1);
        }
        forall i, j | 0 < i < j <= |rest|
          ensures NodeAt(d, rest, i) != NodeAt(d, rest, j)
        {
          assert NodeAt(a, w, i + 1) != NodeAt(a, w, j + 1);
        }
        assert NodeAt(a, w, 1) == d && d !in seen;
        assert FreshPath(arcs, seen + {d}, d, rest, b);
      }
    } else if |w| == 1 {
      assert w[1..] == [];
      assert NodeAt(a, w, 1) == w[0].dst;
      assert IsWalk(arcs, a, w, b) <==> w[0] in arcs && w[0].src == a && w[0].dst == b;
    }
  }

  ghost predicate OnFreshPath(arcs: set<Arc>, seen: set<GraphNode>, a: GraphNode, b: GraphNode, x: GraphNode)
  {
    exists w :: FreshPath(arcs, seen, a, w, b) && Visits(a, w, x)
  }

  lemma FreshIsSimple(arcs: set<Arc>, a: GraphNode, b: GraphNode, x: GraphNode)
    ensures OnFreshPath(arcs, {a}, a, b, x) <==> OnSimplePath(arcs, a, b, x)
  {
    forall w
      ensures FreshPath(arcs, {a}, a, w, b) <==> IsSimplePath(arcs, a, w, b)
    {
      FreshPathMeans(arcs, {a}, a, w, b);
      if FreshPath(arcs, {a}, a, w, b) {
        forall i, j | 0 <= i < j <= |w| ensures NodeAt(a, w, i) != NodeAt(a, w, j) {
          assert NodeAt(a, w, j) !in {a};
        }
      }
      if IsSimplePath(arcs, a, w, b) {
        forall k | 0 < k <= |w| ensures NodeAt(a, w, k) !in {a} {
          assert NodeAt(a, w, 0) != NodeAt(a, w, k);
        }
      }
    }
  }

  /** `x` lies on a fresh path to `b` that begins with `first`. */
  ghost predicate OnFreshPathVia(arcs: set<Arc>, seen: set<GraphNode>, first: Arc, b: GraphNode, x: GraphNode)
  {
    exists w :: FreshPath(arcs, seen, first.src, w, b) && w[0] == first && Visits(first.src, w, x)
  }

  lemma FreshPathEnd(arcs: set<Arc>, seen: set<GraphNode>, a: GraphNode, w: seq<Arc>, b: GraphNode)
    requires FreshPath(arcs, seen, a, w, b)
    ensures b !in seen
  {
    FreshPathMeans(arcs, seen, a, w, b);
    NodeAtEnd(arcs, a, w, b);
  }

  lemma VisitsTail(a: GraphNode, w: seq<Arc>, x: GraphNode)
    requires w != []
    ensures Visits(a, w, x) <==> x == a || Visits(w[0].dst, w[1..], x)
  {
    assert NodeAt(a, w, 0) == a;
    if k :| 0 < k <= |w| && NodeAt(a, w, k) == x {
      assert NodeAt(w[0].dst, w[1..], k - 1) == x;
    }
    if k :| 0 <= k <= |w[1..]| && NodeAt(w[0].dst, w[1..], k) == x {
      assert NodeAt(a, w, k + 1) == x;
    }
  }

  lemma ViaSeen(arcs: set<Arc>, seen: set<GraphNode>, first: Arc, b: GraphNode, x: GraphNode)
    requires first.dst in seen
    ensures !OnFreshPathVia(arcs, seen, first, b, x)
  {
  }

  /** A fresh path that arrives with its first arc ends there. */
  lemma OnlyOneArc(arcs: set<Arc>, seen: set<GraphNode>, a: GraphNode, w: seq<Arc>)
    requires w != [] && FreshPath(arcs, seen, a, w, w[0].dst)
    ensures w == [w[0]]
  {
    if |w| > 1 {
      FreshPathEnd(arcs, seen + {w[0].dst}, w[0].dst, w[1..], w[0].dst);
    }
  }

  lemma VisitsOneArc(x: Arc, n: GraphNode)
    ensures Visits(x.src, [x], n) <==> n == x.src || n == x.dst
  {
    assert NodeAt(x.src, [x], 0) == x.src && NodeAt(x.src, [x], 1) == x.dst;
  }

  lemma ViaLast(arcs: set<Arc>, seen: set<GraphNode>, first: Arc, x: GraphNode)
    requires first in arcs && first.dst !in seen
    ensures OnFreshPathVia(arcs, seen, first, first.dst, x) <==> x == first.src || x == first.dst
  {
    VisitsOneArc(first, x);
    assert FreshPath(arcs, seen, first.src, [first], first.dst) && [first][0] == first;
    if OnFreshPathVia(arcs, seen, first, first.dst, x) {
      var w :| FreshPath(arcs, seen, first.src, w, first.dst) && w[0] == first && Visits(first.src, w, x);
      OnlyOneArc(arcs, seen, first.src, w);
    }
  }

  lemma ViaMiddle(arcs: set<Arc>, seen: set<GraphNode>, first: Arc, b: GraphNode, x: GraphNode)
    requires first in arcs && first.dst !in seen && first.dst != b
    ensures OnFreshPathVia(arcs, seen, first, b, x) <==>
            && OnFreshPath(arcs, seen + {first.dst}, first.dst, b, first.dst)
            && (x == first.src || OnFreshPath(arcs, seen + {first.dst}, first.dst, b, x))
  {
    var a, d := first.src, first.dst;
    if w :| FreshPath(arcs, seen, a, w, b) && w[0] == first && Visits(a, w, x) {
      VisitsTail(a, w, x);
      VisitsStart(d, w[1..]);
      assert FreshPath(arcs, seen + {d}, d, w[1..], b);
    }
    forall w | FreshPath(arcs, seen + {d}, d, w, b) && (x == a || Visits(d, w, x))
      ensures OnFreshPathVia(arcs, seen, first, b, x)
    {
      var v := [first] + w;
      assert v[1..] == w;
      VisitsTail(a, v, x);
      assert FreshPath(arcs, seen, a, v, b);
    }
  }

  lemma VisitsStart(a: GraphNode, w: seq<Arc>)
    ensures Visits(a, w, a)
  {
    assert NodeAt(a, w, 0) == a;
  }

  // ---------------------------------------------------------------- the search

  /** The label at `i` lies on a fresh path that begins with the edge `e`. */
  ghost predicate ViaEdge(g: DiGraph, seen: set<nat>, to: nat, e: IndexEdge, i: nat)
    requires g.Valid() && seen <= AllIndices(g) && to < |g.labels| && i < |g.labels| && e in g.edges
  {
    OnFreshPathVia(g.Arcs(), g.LabelSet(seen), g.ArcOf(e), g.labels[to], g.labels[i])
  }

  /** `i` was found through one of the first `k` edges. */
  ghost predicate ViaSome(g: DiGraph, seen: set<nat>, from: nat, to: nat, k: nat, i: nat)
    requires g.Valid() && seen <= AllIndices(g) && to < |g.labels| && i < |g.labels| && k <= |g.edges|
  {
    exists j :: 0 <= j < k && g.edges[j].source == from && ViaEdge(g, seen, to, g.edges[j], i)
  }

  lemma ViaSomeIsOnPath(g: DiGraph, seen: set<nat>, from: nat, to: nat, i: nat)
    requires g.Valid() && seen <= AllIndices(g) && from < |g.labels| && to < |g.labels| && i < |g.labels|
    ensures ViaSome(g, seen, from, to, |g.edges|, i) <==>
            OnFreshPath(g.Arcs(), g.LabelSet(seen), g.labels[from], g.labels[to], g.labels[i])
  {
    var arcs, labels := g.Arcs(), g.LabelSet(seen);
    if w :| FreshPath(arcs, labels, g.labels[from], w, g.labels[to]) && Visits(g.labels[from], w, g.labels[i]) {
      var e := EdgeOfArc(g, from, w[0]);
      var j :| 0 <= j < |g.edges| && g.edges[j] == e;
      assert ViaEdge(g, seen, to, g.edges[j], i);
    }
  }

  lemma SeenMore(g: DiGraph, seen: set<nat>, t: nat)
    requires g.Valid() && seen <= AllIndices(g) && t < |g.labels|
    ensures g.LabelSet(seen + {t}) == g.LabelSet(seen) + {g.labels[t]}
  {
  }

  /** The node `k` lies on a fresh path onward from `t`. */
  ghost predicate Onward(g: DiGraph, seen: set<nat>, to: nat, t: nat, k: nat)
    requires g.Valid() && seen <= AllIndices(g) && to < |g.labels| && t < |g.labels| && k < |g.labels|
  {
    OnFreshPath(g.Arcs(), g.LabelSet(seen + {t}), g.labels[t], g.labels[to], g.labels[k])
  }

  /** What one edge contributes to the search. */
  lemma EdgeContribution(g: DiGraph, seen: set<nat>, to: nat, e: IndexEdge, i: nat)
    requires g.Valid() && seen <= AllIndices(g) && to < |g.labels| && i < |g.labels| && e in g.edges
    ensures e.target in seen ==> !ViaEdge(g, seen, to, e, i)
    ensures e.target !in seen && e.target == to ==> (ViaEdge(g, seen, to, e, i) <==> i == e.source || i == to)
    ensures e.target !in seen && e.target != to ==>
      (ViaEdge(g, seen, to, e, i) <==>
       Onward(g, seen, to, e.target, e.target) && (i == e.source || Onward(g, seen, to, e.target, i)))
  {
    var first := g.ArcOf(e);
    LabelSetMember(g, seen, e.target);
    SeenMore(g, seen, e.target);
    if e.target in seen {
      ViaSeen(g.Arcs(), g.LabelSet(seen), first, g.labels[to], g.labels[i]);
    } else if e.target == to {
      ViaLast(g.Arcs(), g.LabelSet(seen), first, g.labels[i]);
      LabelsIdentifyBoth(g, i, e.source);
      LabelsIdentifyBoth(g, i, to);
    } else {
      LabelsIdentifyBoth(g, e.target, to);
      LabelsIdentifyBoth(g, i, e.source);
      ViaMiddle(g.Arcs(), g.LabelSet(seen), first, g.labels[to], g.labels[i]);
    }
  }

  lemma LabelsIdentifyBoth(g: DiGraph, i: nat, j: nat)
    requires g.Valid() && i < |g.labels| && j < |g.labels|
    ensures g.labels[i] == g.labels[j] <==> i == j
  {
    if g.labels[i] == g.labels[j] {
      LabelsIdentify(g, i, j);
    }
  }

  /** Depth-first search for all simple paths, collecting the nodes on them. */
  method NodesOnPaths(g: DiGraph, seen: set<nat>, from: nat, to: nat) returns (nodes: set<nat>)
    requires g.Valid() && seen <= AllIndices(g)
    requires from < |g.labels| && to < |g.labels|
    ensures nodes <= AllIndices(g)
    ensures forall i: nat :: i < |g.labels| ==>
      (i in nodes <==> OnFreshPath(g.Arcs(), g.LabelSet(seen), g.labels[from], g.labels[to], g.labels[i]))
    decreases AllIndices(g) - seen, 1
  {
    nodes := {};
    for k := 0 to |g.edges|
      invariant nodes <= AllIndices(g)
      invariant forall i: nat :: i < |g.labels| ==> (i in nodes <==> ViaSome(g, seen, from, to, k, i))
    {
      if g.edges[k].source == from {
        var more := NodesViaEdge(g, seen, to, g.edges[k]);
        nodes := nodes + more;
      }
    }
    forall i: nat | i < |g.labels|
      ensures i in nodes <==> OnFreshPath(g.Arcs(), g.LabelSet(seen), g.labels[from], g.labels[to], g.labels[i])
    {
      ViaSomeIsOnPath(g, seen, from, to, i);
    }
  }

  /** The part of the search that begins with one edge. */
  method NodesViaEdge(g: DiGraph, seen: set<nat>, to: nat, e: IndexEdge) returns (nodes: set<nat>)
    requires g.Valid() && seen <= AllIndices(g) && to < |g.labels| && e in g.edges
    ensures nodes <= AllIndices(g)
    ensures forall i: nat :: i < |g.labels| ==> (i in nodes <==> ViaEdge(g, seen, to, e, i))
    decreases AllIndices(g) - seen, 0
  {
    nodes := {};
    if e.target !in seen {
      if e.target == to {
        nodes := {e.source, to};
      } else {
        nodes := NodesOnPaths(g, seen + {e.target}, e.target, to);
        StartIsOnPath(g, seen + {e.target}, e.target, to, nodes);
        if nodes != {} {
          nodes := nodes + {e.source};
        }
      }
    }
    forall i: nat | i < |g.labels|
      ensures i in nodes <==> ViaEdge(g, seen, to, e, i)
    {
      EdgeContribution(g, seen, to, e, i);
    }
  }

  /** A search that finds anything finds its start. */
  lemma StartIsOnPath(g: DiGraph, seen: set<nat>, from: nat, to: nat, nodes: set<nat>)
    requires g.Valid() && seen <= AllIndices(g) && from < |g.labels| && to < |g.labels|
    requires nodes <= AllIndices(g)
    requires forall i: nat :: i < |g.labels| ==>
      (i in nodes <==> OnFreshPath(g.Arcs(), g.LabelSet(seen), g.labels[from], g.labels[to], g.labels[i]))
    ensures nodes != {} <==> from in nodes
  {
    if i :| i in nodes {
      var w :| FreshPath(g.Arcs(), g.LabelSet(seen), g.labels[from], w, g.labels[to])
          && Visits(g.labels[from], w, g.labels[i]);
      VisitsStart(g.labels[from], w);
    }
  }

  /** The nodes on all simple paths from one node to another. */
  method AllSimplePathNodes(g: DiGraph, from: nat, to: nat) returns (nodes: set<nat>)
    requires g.Valid() && from < |g.labels| && to < |g.labels|
    ensures nodes <= AllIndices(g)
    ensures forall i: nat :: i < |g.labels| ==>
      (i in nodes <==> OnSimplePath(g.Arcs(), g.labels[from], g.labels[to], g.labels[i]))
  {
    nodes := NodesOnPaths(g, {from}, from, to);
    assert g.LabelSet({from}) == {g.labels[from]};
    forall i: nat | i < |g.labels|
      ensures i in nodes <==> OnSimplePath(g.Arcs(), g.labels[from], g.labels[to], g.labels[i])
    {
      FreshIsSimple(g.Arcs(), g.labels[from], g.labels[to], g.labels[i]);
    }
  }
}
