/** Entry groups: what each starts with, and that the validator judges them one by one. */
module EntryGroups {
  import opened Walks
  import opened DagSpecs
  import opened Concurrency
  import Nesting
  import Validator

  /** No two entry groups share a name. */
  predicate NamesIdentify(groups: seq<EntryGroup>)
  {
    forall g, h :: g in groups && h in groups && g.name == h.name ==> g == h
  }

  /** The specification with one of its entry groups only. */
  function Alone(dag: DagSpec, g: EntryGroup): DagSpec
  {
    dag.(entryGroups := [g])
  }

  /** What a name starts: the vertices listed by the groups of that name, and without groups the vertices
      with entry ports, under the default name. */
  lemma EntriesByName(dag: DagSpec, name: string)
    ensures dag.entryGroups != [] ==>
      EntriesOf(EntryPairs(dag), name) ==
      set g, v | g in dag.entryGroups && g.name == name && v in g.vertices :: Vertex(v)
    ensures dag.entryGroups == [] && name == "_default_group" ==>
      EntriesOf(EntryPairs(dag), name) == set v | v in dag.vertices && v.entryPorts != [] :: Vertex(v.name)
    ensures dag.entryGroups == [] && name != "_default_group" ==> EntriesOf(EntryPairs(dag), name) == {}
    ensures name in GroupsOf(EntryPairs(dag)) <==> EntriesOf(EntryPairs(dag), name) != {}
  {
    if dag.entryGroups != [] {
      forall g, v | g in dag.entryGroups && g.name == name && v in g.vertices
        ensures Vertex(v) in EntriesOf(EntryPairs(dag), name)
      {
        assert (Vertex(v), g.name) in EntryPairs(dag);
      }
    } else {
      forall v | v in dag.vertices && v.entryPorts != []
        ensures Vertex(v.name) in EntriesOf(EntryPairs(dag), "_default_group")
      {
        assert (Vertex(v.name), "_default_group") in EntryPairs(dag);
      }
    }
  }

  /** A group with a name of its own starts with its own vertices. */
  lemma GroupStarts(dag: DagSpec, g: EntryGroup)
    requires NamesIdentify(dag.entryGroups) && g in dag.entryGroups
    ensures EntriesOf(EntryPairs(dag), g.name) == set v | v in g.vertices :: Vertex(v)
    ensures g.name in GroupsOf(EntryPairs(dag)) <==> g.vertices != []
  {
    EntriesByName(dag, g.name);
    if g.vertices != [] {
      assert g.vertices[0] in g.vertices;
      assert Vertex(g.vertices[0]) in EntriesOf(EntryPairs(dag), g.name);
    }
  }

  /** Every input port is balanced for the vertices of the group. */
  ghost predicate GroupBalanced(arcs: set<Arc>, universe: set<GraphNode>, g: EntryGroup)
  {
    forall port :: port in universe && port.InputPort? ==>
      PortBalanced(arcs, universe, (set v | v in g.vertices :: Vertex(v)), port)
  }

  lemma ConcurrencyByGroup(dag: DagSpec, arcs: set<Arc>, universe: set<GraphNode>)
    requires NamesIdentify(dag.entryGroups) && dag.entryGroups != []
    ensures ConcurrencyOk(arcs, universe, EntryPairs(dag)) <==>
            forall g :: g in dag.entryGroups && g.vertices != [] ==> GroupBalanced(arcs, universe, g)
  {
    var pairs := EntryPairs(dag);
    if ConcurrencyOk(arcs, universe, pairs) {
      forall g | g in dag.entryGroups && g.vertices != [] ensures GroupBalanced(arcs, universe, g) {
        GroupStarts(dag, g);
      }
    }
    if forall g :: g in dag.entryGroups && g.vertices != [] ==> GroupBalanced(arcs, universe, g) {
      forall name, port | name in GroupsOf(pairs) && port in universe && port.InputPort?
        ensures PortBalanced(arcs, universe, EntriesOf(pairs, name), port)
      {
        EntriesByName(dag, name);
        var g, v :| g in dag.entryGroups && v in g.vertices && g.name == name;
        GroupStarts(dag, g);
        assert GroupBalanced(arcs, universe, g);
      }
    }
  }

  /** Concurrency is checked for each group as if the others were not there. */
  lemma GroupsAreIndependent(dag: DagSpec, arcs: set<Arc>, universe: set<GraphNode>)
    requires NamesIdentify(dag.entryGroups) && dag.entryGroups != []
    ensures ConcurrencyOk(arcs, universe, EntryPairs(dag)) <==>
            forall g :: g in dag.entryGroups ==> ConcurrencyOk(arcs, universe, EntryPairs(dag.(entryGroups := [g])))
  {
    ConcurrencyByGroup(dag, arcs, universe);
    forall g | g in dag.entryGroups
      ensures ConcurrencyOk(arcs, universe, EntryPairs(Alone(dag, g))) <==>
              (g.vertices != [] ==> GroupBalanced(arcs, universe, g))
    {
      ConcurrencyByGroup(Alone(dag, g), arcs, universe);
      assert g in [g];
    }
  }

  /** The entry pairs are those of the groups. */
  lemma PairsOfGroups(dag: DagSpec)
    requires dag.entryGroups != []
    ensures EntryPairs(dag) == set g, p | g in dag.entryGroups && p in EntryPairs(Alone(dag, g)) :: p
    ensures forall g :: g in dag.entryGroups ==> (EntryPairs(Alone(dag, g)) != {} <==> g.vertices != [])
    ensures GroupsDeclared(dag) <==> forall g :: g in dag.entryGroups ==> GroupsDeclared(Alone(dag, g))
  {
    forall g, v | g in dag.entryGroups && v in g.vertices
      ensures (Vertex(v), g.name) in EntryPairs(Alone(dag, g))
    {
      assert g in Alone(dag, g).entryGroups;
    }
    forall g | g in dag.entryGroups ensures EntryPairs(Alone(dag, g)) != {} <==> g.vertices != [] {
      if g.vertices != [] {
        assert (Vertex(g.vertices[0]), g.name) in EntryPairs(Alone(dag, g));
      }
    }
    forall g | g in dag.entryGroups
      ensures GroupsDeclared(Alone(dag, g)) <==> forall v :: v in g.vertices ==> Declared(dag, v)
    {
      assert g in Alone(dag, g).entryGroups;
      assert forall v :: Declared(dag, v) <==> Declared(Alone(dag, g), v);
    }
  }

  /** Everything that is checked without looking at the entry groups. */
  ghost predicate OkWithoutGroups(dag: DagSpec)
  {
    && DistinctOrigins(dag.edges) && VerticesConnected(dag) && DistinctNames(dag.vertices) && EntryPortsFree(dag)
    && DefaultsFree(dag) && OutputsTerminal(dag) && LoopsPaired(dag.edges) && LoopsBranch(dag.edges)
    && Acyclic(SpecArcs(dag.edges)) && Nesting.LoopsNotNested(dag)
  }

  lemma GroupsDoNotMatter(dag: DagSpec, g: EntryGroup)
    ensures OkWithoutGroups(dag) <==> OkWithoutGroups(Alone(dag, g))
    ensures SpecNodes(dag) == SpecNodes(Alone(dag, g))
  {
    assert SpecNodes(dag) == SpecNodes(Alone(dag, g));
    assert forall n :: HasOutputs(dag, n) <==> HasOutputs(Alone(dag, g), n);
    assert forall n :: HasOutgoing(dag, n) <==> HasOutgoing(Alone(dag, g), n);
  }

  /** A workflow is accepted exactly when it has an entry vertex and is accepted with each group alone that
      has one. */
  lemma AcceptedGroupByGroup(dag: DagSpec)
    requires NamesIdentify(dag.entryGroups) && dag.entryGroups != []
    ensures Validator.Accepts(dag) <==>
            (exists g :: g in dag.entryGroups && g.vertices != []) &&
            forall g :: g in dag.entryGroups && g.vertices != [] ==> Validator.Accepts(dag.(entryGroups := [g]))
  {
    PairsOfGroups(dag);
    GroupsAreIndependent(dag, SpecArcs(dag.edges), SpecNodes(dag));
    forall g
      ensures OkWithoutGroups(dag) <==> OkWithoutGroups(Alone(dag, g))
      ensures SpecNodes(dag) == SpecNodes(Alone(dag, g))
    {
      GroupsDoNotMatter(dag, g);
    }
  }
}
