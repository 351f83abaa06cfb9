/** Net concurrency of the paths from an entry group to an input port. */
module Concurrency {
  import opened Walks
  import opened DiGraphs
  import opened FiniteSets
  import Order
  import Cycles
  import SimplePaths

  // ---------------------------------------------------------------- what is computed, on labels

  ghost function OutIn(arcs: set<Arc>, nodes: set<GraphNode>, n: GraphNode): set<GraphNode>
  {
    Succ(arcs, n) * nodes
  }

  /** For each variant of `n` on the paths, how many parallel walks it starts beyond the first. */
  ghost function Spawned(arcs: set<Arc>, nodes: set<GraphNode>, n: GraphNode): set<int>
  {
    set v | v in OutIn(arcs, nodes, n) :: |OutIn(arcs, nodes, v)| - 1
  }

  /** A vertex adds the walks it can start at most, an input port takes one away. */
  ghost function Contribution(arcs: set<Arc>, nodes: set<GraphNode>, n: GraphNode): int
  {
    match n
    case Vertex(_) => MaxOrZero(Spawned(arcs, nodes, n)) + 1
    case InputPort(_, _) => -1
    case _ => 0
  }

  ghost function NetOver(arcs: set<Arc>, nodes: set<GraphNode>, part: set<GraphNode>): int
  {
    SumOver(part, n => Contribution(arcs, nodes, n))
  }

  ghost function Net(arcs: set<Arc>, nodes: set<GraphNode>): int
  {
    NetOver(arcs, nodes, nodes)
  }

  /** The nodes on the simple paths from the entry vertices to `port`. */
  ghost function PathSubgraph(arcs: set<Arc>, universe: set<GraphNode>, starts: set<GraphNode>,
      port: GraphNode): set<GraphNode>
  {
    set x | x in universe && exists v :: v in starts && OnSimplePath(arcs, v, port, x)
  }

  ghost function EntriesOf(pairs: set<(GraphNode, string)>, group: string): set<GraphNode>
  {
    set p | p in pairs && p.1 == group :: p.0
  }

  ghost function GroupsOf(pairs: set<(GraphNode, string)>): set<string>
  {
    set p | p in pairs :: p.1
  }

  ghost predicate PortBalanced(arcs: set<Arc>, universe: set<GraphNode>, starts: set<GraphNode>, port: GraphNode)
  {
    var nodes := PathSubgraph(arcs, universe, starts, port);
    nodes != {} && Net(arcs, nodes) == 0
  }

  /** Every input port is reached by every group, with net concurrency 0. */
  ghost predicate ConcurrencyOk(arcs: set<Arc>, universe: set<GraphNode>, pairs: set<(GraphNode, string)>)
  {
    forall group, port :: group in GroupsOf(pairs) && port in universe && port.InputPort? ==>
      PortBalanced(arcs, universe, EntriesOf(pairs, group), port)
  }

  // ---------------------------------------------------------------- the fold

  function FilterIn(s: seq<nat>, nodes: set<nat>): seq<nat>
  {
    if s == [] then []
    else
      var rest := FilterIn(s[..|s| - 1], nodes);
      if s[|s| - 1] in nodes then rest + [s[|s| - 1]] else rest
  }

  lemma {:induction false} FilterInKeeps(s: seq<nat>, nodes: set<nat>)
    requires NoRepeats(s)
    ensures NoRepeats(FilterIn(s, nodes))
    ensures Elements(FilterIn(s, nodes)) == Elements(s) * nodes
  {
    if s != [] {
      var init, last := s[..|s| - 1], s[|s| - 1];
      FilterInKeeps(init, nodes);
      assert s == init + [last];
      assert last !in Elements(init);
      assert Elements(s) == Elements(init) + {last};
      var rest := FilterIn(init, nodes);
      forall k | 0 <= k < |rest| ensures rest[k] != last {
        assert rest[k] in Elements(rest);
      }
      assert Elements(rest + [last]) == Elements(rest) + {last};
    }
  }

  /** The out-neighbours of a node inside `nodes`, counted by index or by label. */
  lemma NeighborsAreOut(g: DiGraph, nodes: set<nat>, i: nat)
    requires g.Valid() && nodes <= Cycles.AllIndices(g) && i < |g.labels|
    ensures var ns := FilterIn(Order.Neighbors(g.edges, i), nodes);
      && (forall t :: t in ns ==> t < |g.labels|)
      && g.LabelSet(Elements(ns)) == OutIn(g.Arcs(), g.LabelSet(nodes), g.labels[i])
      && |ns| == |OutIn(g.Arcs(), g.LabelSet(nodes), g.labels[i])|
  {
    var all := Order.Neighbors(g.edges, i);
    var ns := FilterIn(all, nodes);
    Order.NeighborsDistinct(g.edges, i);
    FilterInKeeps(all, nodes);
    forall t | t in ns ensures t in nodes && t in all {
      assert t in Elements(ns);
    }
    var out := OutIn(g.Arcs(), g.LabelSet(nodes), g.labels[i]);
    forall x | x in g.LabelSet(Elements(ns)) ensures x in out {
      var t :| t in ns && g.labels[t] == x;
      Order.NeighborHasEdge(g.edges, i, t);
      var e :| e in g.edges && e.source == i && e.target == t;
      assert g.ArcOf(e) in g.Arcs();
    }
    forall x | x in out ensures x in g.LabelSet(Elements(ns)) {
      var a :| a in g.Arcs() && a.src == g.labels[i] && a.dst == x;
      var e := EdgeOfArc(g, i, a);
      LabelSetMember(g, nodes, e.target);
      Order.EdgeHasNeighbor(g.edges, e);
      assert e.target in Elements(all) * nodes;
      assert e.target in Elements(ns);
    }
    NoRepeatsCount(ns);
    LabelSetSize(g, Elements(ns));
  }

  lemma LabelSetSize(g: DiGraph, nodes: set<nat>)
    requires g.Valid() && forall i :: i in nodes ==> i < |g.labels|
    ensures |g.LabelSet(nodes)| == |nodes|
  {
    var at := (i: nat) => if i < |g.labels| then g.labels[i] else Vertex("");
    assert g.LabelSet(nodes) == Image(nodes, at);
    forall i, j | i in nodes && j in nodes && i != j ensures at(i) != at(j) {
      LabelsIdentifyContra(g, i, j);
    }
    ImageSize(nodes, at);
  }

  lemma LabelsIdentifyContra(g: DiGraph, i: nat, j: nat)
    requires g.Valid() && i < |g.labels| && j < |g.labels| && i != j
    ensures g.labels[i] != g.labels[j]
  {
  }

  /** The largest surplus of output ports over all variants of a node. */
  function MaxSurplus(g: DiGraph, nodes: set<nat>, variants: seq<nat>): int
  {
    if variants == [] then 0
    else
      var rest := MaxSurplus(g, nodes, variants[..|variants| - 1]);
      var surplus := |FilterIn(Order.Neighbors(g.edges, variants[|variants| - 1]), nodes)| - 1;
      if surplus > rest then surplus else rest
  }

  ghost function Surpluses(g: DiGraph, nodes: set<nat>, variants: seq<nat>): set<int>
    requires g.Valid() && nodes <= Cycles.AllIndices(g)
    requires forall v :: v in variants ==> v < |g.labels|
  {
    set v | v in variants :: Surplus(g, nodes, v)
  }

  ghost function Surplus(g: DiGraph, nodes: set<nat>, v: nat): int
    requires g.Valid() && nodes <= Cycles.AllIndices(g) && v < |g.labels|
  {
    |OutIn(g.Arcs(), g.LabelSet(nodes), g.labels[v])| - 1
  }

  lemma SurplusesSnoc(g: DiGraph, nodes: set<nat>, variants: seq<nat>, last: nat)
    requires g.Valid() && nodes <= Cycles.AllIndices(g)
    requires forall v :: v in variants + [last] ==> v < |g.labels|
    ensures last < |g.labels| && forall v :: v in variants ==> v < |g.labels|
    ensures Surpluses(g, nodes, variants + [last]) ==
            Surpluses(g, nodes, variants) + {Surplus(g, nodes, last)}
  {
    assert last in variants + [last];
    assert forall v :: v in variants + [last] <==> v in variants || v == last;
  }

  lemma MaxSurplusSnoc(g: DiGraph, nodes: set<nat>, variants: seq<nat>, last: nat)
    requires g.Valid() && nodes <= Cycles.AllIndices(g) && last < |g.labels|
    ensures var rest, surplus := MaxSurplus(g, nodes, variants), Surplus(g, nodes, last);
      MaxSurplus(g, nodes, variants + [last]) == if surplus > rest then surplus else rest
  {
    NeighborsAreOut(g, nodes, last);
    assert (variants + [last])[..|variants|] == variants;
  }

  lemma LargestSnoc(g: DiGraph, nodes: set<nat>, variants: seq<nat>, last: nat)
    requires g.Valid() && nodes <= Cycles.AllIndices(g)
    requires forall v :: v in variants + [last] ==> v < |g.labels|
    ensures last < |g.labels| && forall v :: v in variants ==> v < |g.labels|
    ensures var rest, surplus := MaxOrZero(Surpluses(g, nodes, variants)), Surplus(g, nodes, last);
      MaxOrZero(Surpluses(g, nodes, variants + [last])) == if surplus > rest then surplus else rest
  {
    SurplusesSnoc(g, nodes, variants, last);
    MaxOrZeroAdd(Surpluses(g, nodes, variants), Surplus(g, nodes, last));
  }

  lemma {:induction false} MaxSurplusIsMax(g: DiGraph, nodes: set<nat>, variants: seq<nat>)
    requires g.Valid() && nodes <= Cycles.AllIndices(g)
    requires forall v :: v in variants ==> v < |g.labels|
    ensures MaxSurplus(g, nodes, variants) == MaxOrZero(Surpluses(g, nodes, variants))
  {
    if variants == [] {
      assert Surpluses(g, nodes, variants) == {};
    } else {
      var init, last := variants[..|variants| - 1], variants[|variants| - 1];
      assert variants == init + [last];
      LargestSnoc(g, nodes, init, last);
      MaxSurplusIsMax(g, nodes, init);
      MaxSurplusSnoc(g, nodes, init, last);
    }
  }

  function ContributionAt(g: DiGraph, nodes: set<nat>, i: nat): int
    requires i < |g.labels|
  {
    match g.labels[i]
    case Vertex(_) => MaxSurplus(g, nodes, FilterIn(Order.Neighbors(g.edges, i), nodes)) + 1
    case InputPort(_, _) => -1
    case _ => 0
  }

  lemma ContributionByLabel(g: DiGraph, nodes: set<nat>, i: nat)
    requires g.Valid() && nodes <= Cycles.AllIndices(g) && i < |g.labels|
    ensures ContributionAt(g, nodes, i) == Contribution(g.Arcs(), g.LabelSet(nodes), g.labels[i])
  {
    if g.labels[i].Vertex? {
      var arcs, labels, n := g.Arcs(), g.LabelSet(nodes), g.labels[i];
      NeighborsAreOut(g, nodes, i);
      var variants := FilterIn(Order.Neighbors(g.edges, i), nodes);
      MaxSurplusIsMax(g, nodes, variants);
      SpawnedByIndex(g, nodes, variants, n);
    }
  }

  lemma SpawnedByIndex(g: DiGraph, nodes: set<nat>, variants: seq<nat>, n: GraphNode)
    requires g.Valid() && nodes <= Cycles.AllIndices(g)
    requires forall v :: v in variants ==> v < |g.labels|
    requires g.LabelSet(Elements(variants)) == OutIn(g.Arcs(), g.LabelSet(nodes), n)
    ensures Surpluses(g, nodes, variants) == Spawned(g.Arcs(), g.LabelSet(nodes), n)
  {
    var left := Surpluses(g, nodes, variants);
    var right := Spawned(g.Arcs(), g.LabelSet(nodes), n);
    forall x | x in left ensures x in right {
      var v :| v in variants && x == Surplus(g, nodes, v);
      assert g.labels[v] in g.LabelSet(Elements(variants));
    }
    forall x | x in right ensures x in left {
      var l :| l in OutIn(g.Arcs(), g.LabelSet(nodes), n) && x == |OutIn(g.Arcs(), g.LabelSet(nodes), l)| - 1;
      assert l in g.LabelSet(Elements(variants));
      var v :| v in variants && g.labels[v] == l;
    }
  }

  method GetNetConcurrencyInSubgraph(g: DiGraph, nodes: set<nat>) returns (net: int)
    requires g.Valid() && nodes <= Cycles.AllIndices(g)
    ensures net == Net(g.Arcs(), g.LabelSet(nodes))
  {
    net := 0;
    var rest := nodes;
    ghost var done: set<nat> := {};
    ghost var f := n => Contribution(g.Arcs(), g.LabelSet(nodes), n);
    while rest != {}
      invariant rest <= nodes && done == nodes - rest
      invariant net == SumOver(g.LabelSet(done), f)
      decreases rest
    {
      var i :| i in rest;
      ContributionByLabel(g, nodes, i);
      LabelSetMember(g, done, i);
      SumWith(g.LabelSet(done), f, g.labels[i]);
      assert g.LabelSet(done + {i}) == g.LabelSet(done) + {g.labels[i]};
      net := net + ContributionAt(g, nodes, i);
      rest, done := rest - {i}, done + {i};
    }
    assert done == nodes;
  }

  // ---------------------------------------------------------------- the rule

  /** The entry vertices of a group, among the nodes of the graph. */
  function EntryIndices(g: DiGraph, entries: map<GraphNode, seq<string>>, group: string): set<nat>
  {
    set i | i in Cycles.AllIndices(g) && g.labels[i] in entries && group in entries[g.labels[i]]
  }

  ghost function Pairs(entries: map<GraphNode, seq<string>>): set<(GraphNode, string)>
  {
    set n, group | n in entries && group in entries[n] :: (n, group)
  }

  /** A group starts at the vertices whose own list of groups names it, whatever other groups there are. */
  lemma StartsOfGroup(entries: map<GraphNode, seq<string>>, group: string)
    ensures EntriesOf(Pairs(entries), group) == set n | n in entries && group in entries[n]
    ensures group in GroupsOf(Pairs(entries)) <==> exists n :: n in entries && group in entries[n]
  {
    forall n | n in entries && group in entries[n]
      ensures n in EntriesOf(Pairs(entries), group) && group in GroupsOf(Pairs(entries))
    {
      assert (n, group) in Pairs(entries);
    }
  }

  lemma OnPathStart(g: DiGraph, a: GraphNode, b: GraphNode, x: GraphNode)
    requires g.Valid() && OnSimplePath(g.Arcs(), a, b, x)
    ensures a in g.Nodes()
  {
    var w :| IsSimplePath(g.Arcs(), a, w, b) && Visits(a, w, x);
    var e :| e in g.edges && g.ArcOf(e) == w[0];
  }

  /** Some vertex of `starts` has a simple path through `i`. */
  ghost predicate OnPathFrom(g: DiGraph, starts: set<nat>, port: nat, i: nat)
    requires g.Valid() && starts <= Cycles.AllIndices(g) && port < |g.labels| && i < |g.labels|
  {
    exists v :: v in starts && OnSimplePath(g.Arcs(), g.labels[v], g.labels[port], g.labels[i])
  }

  lemma OnPathFromOneMore(g: DiGraph, starts: set<nat>, v: nat, port: nat, i: nat)
    requires g.Valid() && starts <= Cycles.AllIndices(g) && v < |g.labels| && port < |g.labels| && i < |g.labels|
    ensures OnPathFrom(g, starts + {v}, port, i) <==>
            OnPathFrom(g, starts, port, i) || OnSimplePath(g.Arcs(), g.labels[v], g.labels[port], g.labels[i])
  {
  }

  /** All nodes on simple paths from the entry vertices of a group to an input port. */
  method NodesInPaths(g: DiGraph, entries: map<GraphNode, seq<string>>, group: string,
      port: nat) returns (nodes: set<nat>)
    requires g.Valid() && port < |g.labels|
    ensures nodes <= Cycles.AllIndices(g)
    ensures g.LabelSet(nodes) == PathSubgraph(g.Arcs(), g.Nodes(), EntriesOf(Pairs(entries), group), g.labels[port])
    ensures g.LabelSet(nodes) ==
        PathSubgraph(g.Arcs(), g.Nodes(), (set n | n in entries && group in entries[n]), g.labels[port])
  {
    nodes := {};
    var rest := EntryIndices(g, entries, group);
    ghost var done: set<nat> := {};
    while rest != {}
      invariant rest <= EntryIndices(g, entries, group) && done == EntryIndices(g, entries, group) - rest
      invariant nodes <= Cycles.AllIndices(g)
      invariant forall i: nat :: i < |g.labels| ==> (i in nodes <==> OnPathFrom(g, done, port, i))
      decreases rest
    {
      var v :| v in rest;
      var more := SimplePaths.AllSimplePathNodes(g, v, port);
      forall i: nat | i < |g.labels| ensures i in nodes + more <==> OnPathFrom(g, done + {v}, port, i) {
        OnPathFromOneMore(g, done, v, port, i);
      }
      nodes := nodes + more;
      rest, done := rest - {v}, done + {v};
    }
    NodesInPathsByLabel(g, entries, group, port, nodes);
    StartsOfGroup(entries, group);
  }

  /** Some entry vertex of the group has a path through `x`, by index or by label. */
  lemma EntryByLabel(g: DiGraph, entries: map<GraphNode, seq<string>>, group: string, port: GraphNode, x: GraphNode)
    requires g.Valid()
    ensures (exists v :: v in EntryIndices(g, entries, group) && OnSimplePath(g.Arcs(), g.labels[v], port, x)) <==>
            (exists n :: n in EntriesOf(Pairs(entries), group) && OnSimplePath(g.Arcs(), n, port, x))
  {
    if v :| v in EntryIndices(g, entries, group) && OnSimplePath(g.Arcs(), g.labels[v], port, x) {
      assert (g.labels[v], group) in Pairs(entries);
      assert g.labels[v] in EntriesOf(Pairs(entries), group);
    }
    if n :| n in EntriesOf(Pairs(entries), group) && OnSimplePath(g.Arcs(), n, port, x) {
      OnPathStart(g, n, port, x);
      var v :| 0 <= v < |g.labels| && g.labels[v] == n;
      assert v in EntryIndices(g, entries, group);
    }
  }

  lemma NodesInPathsByLabel(g: DiGraph, entries: map<GraphNode, seq<string>>, group: string, port: nat, nodes: set<nat>)
    requires g.Valid() && port < |g.labels| && nodes <= Cycles.AllIndices(g)
    requires forall i: nat :: i < |g.labels| ==> (i in nodes <==>
        OnPathFrom(g, EntryIndices(g, entries, group), port, i))
    ensures g.LabelSet(nodes) == PathSubgraph(g.Arcs(), g.Nodes(), EntriesOf(Pairs(entries), group), g.labels[port])
  {
    forall i: nat | i < |g.labels|
      ensures i in nodes <==> g.labels[i] in PathSubgraph(g.Arcs(), g.Nodes(), EntriesOf(Pairs(entries), group),
          g.labels[port])
    {
      EntryByLabel(g, entries, group, g.labels[port], g.labels[i]);
      assert g.labels[i] in g.Nodes();
    }
    SetByIndex(g, nodes, PathSubgraph(g.Arcs(), g.Nodes(), EntriesOf(Pairs(entries), group), g.labels[port]));
  }

  lemma SetByIndex(g: DiGraph, nodes: set<nat>, labels: set<GraphNode>)
    requires g.Valid() && nodes <= Cycles.AllIndices(g) && labels <= g.Nodes()
    requires forall i: nat :: i < |g.labels| ==> (i in nodes <==> g.labels[i] in labels)
    ensures g.LabelSet(nodes) == labels
  {
    forall x | x in labels ensures x in g.LabelSet(nodes) {
      var i :| 0 <= i < |g.labels| && g.labels[i] == x;
      assert i in nodes;
    }
  }

  /** One port: it is reached, with net concurrency 0. */
  method PortFollowsRules(g: DiGraph, entries: map<GraphNode, seq<string>>, group: string, port: nat) returns (ok: bool)
    requires g.Valid() && port < |g.labels|
    ensures ok <==> PortBalanced(g.Arcs(), g.Nodes(), EntriesOf(Pairs(entries), group), g.labels[port])
  {
    var nodes := NodesInPaths(g, entries, group, port);
    LabelSetEmpty(g, nodes);
    if nodes == {} {
      return false;
    }
    var net := GetNetConcurrencyInSubgraph(g, nodes);
    if net < 0 {
      return false;
    }
    if net > 0 {
      return false;
    }
    return true;
  }

  lemma LabelSetEmpty(g: DiGraph, nodes: set<nat>)
    requires forall i :: i in nodes ==> i < |g.labels|
    ensures nodes == {} <==> g.LabelSet(nodes) == {}
  {
    if k :| k in nodes {
      assert g.labels[k] in g.LabelSet(nodes);
    }
  }

  /** The label at `k`, if it is an input port, is balanced for the group. */
  ghost predicate PortRule(g: DiGraph, entries: map<GraphNode, seq<string>>, group: string, k: nat)
    requires g.Valid() && k < |g.labels|
  {
    g.labels[k].InputPort? ==> PortBalanced(g.Arcs(), g.Nodes(), EntriesOf(Pairs(entries), group), g.labels[k])
  }

  /** Every input port of the graph is balanced for the group. */
  ghost predicate GroupRule(g: DiGraph, entries: map<GraphNode, seq<string>>, group: string)
    requires g.Valid()
  {
    forall k {:trigger PortRule(g, entries, group, k)} :: 0 <= k < |g.labels| ==> PortRule(g, entries, group, k)
  }

  lemma GroupRuleByLabel(g: DiGraph, entries: map<GraphNode, seq<string>>, group: string, port: GraphNode)
    requires g.Valid() && GroupRule(g, entries, group) && port in g.Nodes() && port.InputPort?
    ensures PortBalanced(g.Arcs(), g.Nodes(), EntriesOf(Pairs(entries), group), port)
  {
    var k :| 0 <= k < |g.labels| && g.labels[k] == port;
    assert PortRule(g, entries, group, k);
  }

  /** For one group: every input port follows the rules. */
  method GroupFollowsRules(g: DiGraph, entries: map<GraphNode, seq<string>>, group: string) returns (ok: bool)
    requires g.Valid()
    ensures ok <==> GroupRule(g, entries, group)
  {
    for i := 0 to |g.labels|
      invariant forall k {:trigger PortRule(g, entries, group, k)} :: 0 <= k < i ==> PortRule(g, entries, group, k)
    {
      if g.labels[i].InputPort? {
        ok := PortFollowsRules(g, entries, group, i);
        if !ok {
          assert !PortRule(g, entries, group, i);
          return;
        }
      }
      assert PortRule(g, entries, group, i);
    }
    return true;
  }

  lemma RulesByGroup(g: DiGraph, entries: map<GraphNode, seq<string>>)
    requires g.Valid()
    ensures ConcurrencyOk(g.Arcs(), g.Nodes(), Pairs(entries)) <==>
            forall group :: group in GroupsOf(Pairs(entries)) ==> GroupRule(g, entries, group)
  {
    if ConcurrencyOk(g.Arcs(), g.Nodes(), Pairs(entries)) {
      forall group, k | group in GroupsOf(Pairs(entries)) && 0 <= k < |g.labels|
        ensures PortRule(g, entries, group, k)
      {
        assert g.labels[k] in g.Nodes();
      }
    }
    if forall group :: group in GroupsOf(Pairs(entries)) ==> GroupRule(g, entries, group) {
      forall group, port | group in GroupsOf(Pairs(entries)) && port in g.Nodes() && port.InputPort?
        ensures PortBalanced(g.Arcs(), g.Nodes(), EntriesOf(Pairs(entries), group), port)
      {
        GroupRuleByLabel(g, entries, group, port);
      }
    }
  }

  /** Every port is balanced for the vertices that name the group themselves. */
  ghost predicate BalancedFor(arcs: set<Arc>, universe: set<GraphNode>, entries: map<GraphNode, seq<string>>,
      group: string)
  {
    forall port :: port in universe && port.InputPort? ==>
      PortBalanced(arcs, universe, (set n | n in entries && group in entries[n]), port)
  }

  lemma EntriesJudgedByGroup(arcs: set<Arc>, universe: set<GraphNode>, entries: map<GraphNode, seq<string>>)
    ensures ConcurrencyOk(arcs, universe, Pairs(entries)) <==>
            forall n, group :: n in entries && group in entries[n] ==> BalancedFor(arcs, universe, entries, group)
  {
    if ConcurrencyOk(arcs, universe, Pairs(entries)) {
      forall n, group | n in entries && group in entries[n] ensures BalancedFor(arcs, universe, entries, group) {
        StartsOfGroup(entries, group);
      }
    }
    if forall n, group :: n in entries && group in entries[n] ==> BalancedFor(arcs, universe, entries, group) {
      forall group, port | group in GroupsOf(Pairs(entries)) && port in universe && port.InputPort?
        ensures PortBalanced(arcs, universe, EntriesOf(Pairs(entries), group), port)
      {
        StartsOfGroup(entries, group);
        var n :| n in entries && group in entries[n];
        assert BalancedFor(arcs, universe, entries, group);
      }
    }
  }

  method FollowsConcurrencyRules(g: DiGraph, entries: map<GraphNode, seq<string>>) returns (ok: bool)
    requires g.Valid()
    ensures ok <==> ConcurrencyOk(g.Arcs(), g.Nodes(), Pairs(entries))
    ensures ok <==> forall n, group :: n in entries && group in entries[n] ==>
        BalancedFor(g.Arcs(), g.Nodes(), entries, group)
  {
    EntriesJudgedByGroup(g.Arcs(), g.Nodes(), entries);
    var groups := set n, group | n in entries && group in entries[n] :: group;
    GroupsByPairs(entries, groups);
    RulesByGroup(g, entries);
    var rest := groups;
    while rest != {}
      invariant rest <= groups
      invariant forall group :: group in groups - rest ==> GroupRule(g, entries, group)
      decreases rest
    {
      var group :| group in rest;
      ok := GroupFollowsRules(g, entries, group);
      if !ok {
        return;
      }
      rest := rest - {group};
    }
    return true;
  }

  lemma GroupsByPairs(entries: map<GraphNode, seq<string>>, groups: set<string>)
    requires groups == set n, group | n in entries && group in entries[n] :: group
    ensures groups == GroupsOf(Pairs(entries))
  {
    forall group | group in groups ensures group in GroupsOf(Pairs(entries)) {
      var n :| n in entries && group in entries[n];
      assert (n, group) in Pairs(entries);
    }
  }
}
