/** The for-each analysis in terms of the specification: a path of edges from vertex to vertex, and the word
    that the kinds of these edges spell. */
module EdgePaths {
  import opened Walks
  import opened DagSpecs
  import opened ForEachPairs
  import Phantom
  import Validator

  /** The vertex an edge lands at: its target, or the target's copy if the edge jumps back. */
  function Landing(e: DagEdge): string
  {
    if e.kind == DoWhile then e.target.vertex + "-do-while" else e.target.vertex
  }

  /** `p` is a path of edges from the vertex `v`. */
  ghost predicate IsEdgePath(edges: seq<DagEdge>, v: string, p: seq<DagEdge>)
    decreases |p|
  {
    p == [] || (p[0] in edges && p[0].origin.vertex == v && IsEdgePath(edges, Landing(p[0]), p[1..]))
  }

  /** Where the path ends. */
  function EndOf(v: string, p: seq<DagEdge>): string
  {
    if p == [] then v else Landing(p[|p| - 1])
  }

  /** The path cannot be continued. */
  ghost predicate IsCompletePath(edges: seq<DagEdge>, v: string, p: seq<DagEdge>)
  {
    IsEdgePath(edges, v, p) && forall e :: e in edges ==> e.origin.vertex != EndOf(v, p)
  }

  /** The kinds of the edges, in order. */
  function KindsOf(p: seq<DagEdge>): seq<EdgeKind>
  {
    seq(|p|, i requires 0 <= i < |p| => p[i].kind)
  }

  /** The ordinary arcs around an edge's own arc do not move the automaton. */
  lemma OneEdgeRuns(e: DagEdge, w: seq<Arc>, state: ForEachState)
    requires |w| >= 4 && w[0].kind == w[1].kind == w[3].kind == Normal && w[2].kind == e.kind
    ensures Run(state, Kinds(w)) ==
      match Step(state, e.kind) case Stuck => Stuck case Next(s) => Run(s, Kinds(w[4..]))
  {
    assert Kinds(w)[1..] == Kinds(w[1..]) && Kinds(w[1..])[1..] == Kinds(w[2..]);
    assert Kinds(w[2..])[1..] == Kinds(w[3..]) && Kinds(w[3..])[1..] == Kinds(w[4..]);
    assert Run(state, Kinds(w)) == Run(state, Kinds(w[1..])) == Run(state, Kinds(w[2..]));
    assert forall s :: Run(s, Kinds(w[3..])) == Run(s, Kinds(w[4..]));
  }

  lemma EdgePathRuns(e: DagEdge, p: seq<DagEdge>, state: ForEachState)
    ensures Run(state, KindsOf([e] + p)) ==
      match Step(state, e.kind) case Stuck => Stuck case Next(s) => Run(s, KindsOf(p))
  {
    assert KindsOf([e] + p)[1..] == KindsOf(p);
  }

  /** Both words take the automaton to the same place, from either state. */
  ghost predicate SameRuns(w: seq<Arc>, p: seq<DagEdge>)
  {
    forall state :: Run(state, Kinds(w)) == Run(state, KindsOf(p))
  }

  lemma SameRunsOneMore(e: DagEdge, w: seq<Arc>, p: seq<DagEdge>)
    requires |w| >= 4 && w[0].kind == w[1].kind == w[3].kind == Normal && w[2].kind == e.kind
    requires SameRuns(w[4..], p)
    ensures SameRuns(w, [e] + p)
  {
    forall state ensures Run(state, Kinds(w)) == Run(state, KindsOf([e] + p)) {
      OneEdgeRuns(e, w, state);
      EdgePathRuns(e, p, state);
    }
  }

  /** A path of edges is a walk of the compiled graph. */
  lemma {:induction false} PathToWalk(edges: seq<DagEdge>, v: string, p: seq<DagEdge>) returns (w: seq<Arc>)
    requires IsEdgePath(edges, v, p)
    ensures IsWalk(SpecArcs(edges), Vertex(v), w, Vertex(EndOf(v, p))) && SameRuns(w, p)
    decreases |p|
  {
    if p == [] {
      w := [];
      assert Kinds(w) == KindsOf(p);
    } else {
      var e := p[0];
      var rest := PathToWalk(edges, Landing(e), p[1..]);
      Phantom.EdgeWalkIsWalk(edges, e);
      WalkConcat(SpecArcs(edges), Vertex(v), Phantom.EdgeWalk(e), Vertex(Landing(e)), rest, Vertex(EndOf(v, p)));
      w := Phantom.EdgeWalk(e) + rest;
      assert w[4..] == rest && p == [e] + p[1..];
      SameRunsOneMore(e, w, p[1..]);
    }
  }

  /** A walk of the compiled graph between vertices is a path of edges. */
  lemma {:induction false} WalkToPath(edges: seq<DagEdge>, v: string, w: seq<Arc>, z: string) returns (p: seq<DagEdge>)
    requires IsWalk(SpecArcs(edges), Vertex(v), w, Vertex(z))
    ensures IsEdgePath(edges, v, p) && EndOf(v, p) == z && SameRuns(w, p)
    decreases |w|
  {
    if w == [] {
      p := [];
      assert Kinds(w) == KindsOf(p);
    } else {
      var e := Phantom.FirstEdge(edges, Vertex(v), w, Vertex(z));
      var rest := WalkToPath(edges, Landing(e), w[4..], z);
      p := [e] + rest;
      assert p[1..] == rest;
      SameRunsOneMore(e, w, rest);
    }
  }

  /** A vertex without edges out of it is a sink, and sinks reached from a vertex are vertices. */
  lemma SinkByEdges(edges: seq<DagEdge>, v: string)
    ensures IsSink(SpecArcs(edges), Vertex(v)) <==> forall e :: e in edges ==> e.origin.vertex != v
  {
    if e :| e in edges && e.origin.vertex == v {
      assert Arc(OriginNode(e), Normal, VariantNode(e)) in EdgeArcs(e);
    }
    if x :| x in SpecArcs(edges) && x.src == Vertex(v) {
      var e := ArcOfEdge(edges, x);
      ArcInEdge(e, x);
    }
  }

  lemma {:induction false} WalkEndsAtVertex(edges: seq<DagEdge>, a: GraphNode, w: seq<Arc>, z: GraphNode)
    requires IsWalk(SpecArcs(edges), a, w, z) && IsSink(SpecArcs(edges), z) && (a.Vertex? || a in NodesOfEdges(edges))
    ensures z.Vertex?
    decreases |w|
  {
    if w != [] {
      NodesAreArcEnds(edges, w[0].dst);
      WalkEndsAtVertex(edges, w[0].dst, w[1..], z);
    } else if !z.Vertex? {
      Validator.SpecNodeHasArc(edges, z);
    }
  }

  /** Every complete walk from a vertex of the compiled graph is paired exactly when every complete path of
      edges from that vertex spells a paired word in the edges' own kinds. */
  lemma PairedByEdges(edges: seq<DagEdge>, v: string)
    ensures WalksPaired(SpecArcs(edges), Vertex(v)) <==>
            forall p :: IsCompletePath(edges, v, p) ==> Paired(KindsOf(p))
  {
    if WalksPaired(SpecArcs(edges), Vertex(v)) {
      forall p | IsCompletePath(edges, v, p) ensures Paired(KindsOf(p)) {
        var w := PathToWalk(edges, v, p);
        SinkByEdges(edges, EndOf(v, p));
        PairedTogether(w, p);
      }
    }
    if forall p :: IsCompletePath(edges, v, p) ==> Paired(KindsOf(p)) {
      forall w, z | IsWalk(SpecArcs(edges), Vertex(v), w, z) && IsSink(SpecArcs(edges), z) ensures Paired(Kinds(w)) {
        WalkEndsAtVertex(edges, Vertex(v), w, z);
        var p := WalkToPath(edges, v, w, z.name);
        SinkByEdges(edges, z.name);
        PairedTogether(w, p);
      }
    }
  }

  lemma PairedTogether(w: seq<Arc>, p: seq<DagEdge>)
    requires SameRuns(w, p)
    ensures Paired(Kinds(w)) <==> Paired(KindsOf(p))
  {
    AutomatonAcceptsPaired(Kinds(w));
    AutomatonAcceptsPaired(KindsOf(p));
  }

  /** A vertex that an entry group lists; without entry groups, one with entry ports. */
  predicate IsEntry(dag: DagSpec, v: string)
  {
    if dag.entryGroups != [] then exists g :: g in dag.entryGroups && v in g.vertices
    else exists u :: u in dag.vertices && u.name == v && u.entryPorts != []
  }

  lemma EntriesByVertex(dag: DagSpec, n: GraphNode)
    ensures (exists p :: p in EntryPairs(dag) && p.0 == n) <==> n.Vertex? && IsEntry(dag, n.name)
  {
    if n.Vertex? && IsEntry(dag, n.name) {
      if dag.entryGroups != [] {
        var g :| g in dag.entryGroups && n.name in g.vertices;
        assert (n, g.name) in EntryPairs(dag);
      } else {
        var u :| u in dag.vertices && u.name == n.name && u.entryPorts != [];
        assert (n, DEFAULT_ENTRY_GROUP) in EntryPairs(dag);
      }
    }
  }

  /** The for-each analysis accepts a workflow exactly when every complete path of edges from an entry vertex
      spells a paired word. */
  lemma EntryPathsPaired(dag: DagSpec)
    ensures Validator.EntryWalksPaired(dag) <==>
            forall v, p :: IsEntry(dag, v) && IsCompletePath(dag.edges, v, p) ==> Paired(KindsOf(p))
  {
    if Validator.EntryWalksPaired(dag) {
      forall v, p | IsEntry(dag, v) && IsCompletePath(dag.edges, v, p) ensures Paired(KindsOf(p)) {
        EntriesByVertex(dag, Vertex(v));
        PairedByEdges(dag.edges, v);
      }
    }
    if forall v, p :: IsEntry(dag, v) && IsCompletePath(dag.edges, v, p) ==> Paired(KindsOf(p)) {
      forall p | p in EntryPairs(dag) ensures WalksPaired(SpecArcs(dag.edges), p.0) {
        EntriesByVertex(dag, p.0);
        PairedByEdges(dag.edges, p.0.name);
      }
    }
  }
}
