/** Pairing of for-each and collect edges, checked by a depth-first search that keeps no visited set. */
module ForEachPairs {
  import opened Walks
  import opened DiGraphs
  import opened Options

  datatype ForEachState = Idle | InForEach
  datatype Outcome = Stuck | Next(state: ForEachState)

  function Step(state: ForEachState, kind: EdgeKind): Outcome
  {
    match (state, kind)
    case (Idle, ForEach) => Next(InForEach)
    case (Idle, Collect) => Stuck
    case (Idle, _) => Next(Idle)
    case (InForEach, Normal) => Next(InForEach)
    case (InForEach, Collect) => Next(Idle)
    case (InForEach, _) => Stuck
  }

  function Run(state: ForEachState, kinds: seq<EdgeKind>): Outcome
    decreases |kinds|
  {
    if kinds == [] then Next(state)
    else match Step(state, kinds[0])
      case Stuck => Stuck
      case Next(s) => Run(s, kinds[1..])
  }

  function Kinds(w: seq<Arc>): seq<EdgeKind>
  {
    seq(|w|, i requires 0 <= i < |w| => w[i].kind)
  }

  // ---------------------------------------------------------------- the language of paired walks

  ghost predicate AllNormal(kinds: seq<EdgeKind>)
  {
    forall k :: k in kinds ==> k == Normal
  }

  /** A word of (Normal | Static | DoWhile | Break | ForEach Normal* Collect)*. */
  ghost predicate Paired(kinds: seq<EdgeKind>)
    decreases |kinds|
  {
    || kinds == []
    || (kinds[0] !in {ForEach, Collect} && Paired(kinds[1..]))
    || (kinds[0] == ForEach && exists k :: 0 < k < |kinds| && ClosesAt(kinds, k) && Paired(kinds[k + 1..]))
  }

  ghost predicate ClosesAt(kinds: seq<EdgeKind>, k: nat)
    requires 0 < k < |kinds|
  {
    kinds[k] == Collect && AllNormal(kinds[1..k])
  }

  /** The rest of a word whose for-each is open: Normal* Collect, then a paired word. */
  ghost predicate Closes(kinds: seq<EdgeKind>)
    decreases |kinds|
  {
    kinds != [] && ((kinds[0] == Normal && Closes(kinds[1..])) || (kinds[0] == Collect && Paired(kinds[1..])))
  }

  /** A normal edge in front moves the closing position by one. */
  lemma CloseShifts(kinds: seq<EdgeKind>, k: nat)
    requires 1 < k < |kinds|
    ensures ClosesAt(kinds, k) <==> kinds[1] == Normal && ClosesAt(kinds[1..], k - 1)
    ensures kinds[k + 1..] == kinds[1..][k..]
  {
    var inner, head := kinds[1..][1..k - 1], kinds[1];
    assert kinds[1..k] == [head] + inner;
    AllNormalCons(head, inner);
  }

  lemma AllNormalCons(head: EdgeKind, inner: seq<EdgeKind>)
    ensures AllNormal([head] + inner) <==> head == Normal && AllNormal(inner)
  {
    if AllNormal([head] + inner) {
      assert head in [head] + inner;
      forall e | e in inner ensures e == Normal {
        assert e in [head] + inner;
      }
    }
  }

  ghost predicate ClosesSomewhere(kinds: seq<EdgeKind>)
  {
    exists k :: 0 < k < |kinds| && ClosesAt(kinds, k) && Paired(kinds[k + 1..])
  }

  lemma {:induction false} ClosesFindsCollect(kinds: seq<EdgeKind>)
    requires kinds != []
    ensures Closes(kinds[1..]) <==> ClosesSomewhere(kinds)
    decreases |kinds|
  {
    var rest := kinds[1..];
    if rest != [] {
      ClosesFindsCollect(rest);
      assert kinds[2..] == rest[1..];
      if Closes(rest) && rest[0] == Collect {
        assert ClosesAt(kinds, 1);
      } else if Closes(rest) {
        var k :| 0 < k < |rest| && ClosesAt(rest, k) && Paired(rest[k + 1..]);
        CloseShifts(kinds, k + 1);
      }
      if k :| 0 < k < |kinds| && ClosesAt(kinds, k) && Paired(kinds[k + 1..]) {
        if k > 1 {
          CloseShifts(kinds, k);
        }
      }
    }
  }

  /** The automaton accepts exactly the paired words. */
  lemma {:induction false} AutomatonAcceptsPaired(kinds: seq<EdgeKind>)
    ensures Run(Idle, kinds) == Next(Idle) <==> Paired(kinds)
    ensures Run(InForEach, kinds) == Next(Idle) <==> Closes(kinds)
    decreases |kinds|
  {
    if kinds != [] {
      AutomatonAcceptsPaired(kinds[1..]);
      ClosesFindsCollect(kinds);
    }
  }

  /** Every walk from `n` to a sink, begun in `state`, ends idle. */
  ghost predicate OkFrom(arcs: set<Arc>, n: GraphNode, state: ForEachState)
  {
    forall w, z :: IsWalk(arcs, n, w, z) && IsSink(arcs, z) ==> Run(state, Kinds(w)) == Next(Idle)
  }

  /** Every complete walk from `n` is a paired word. */
  ghost predicate WalksPaired(arcs: set<Arc>, n: GraphNode)
  {
    forall w, z :: IsWalk(arcs, n, w, z) && IsSink(arcs, z) ==> Paired(Kinds(w))
  }

  lemma OkFromIsPaired(arcs: set<Arc>, n: GraphNode)
    ensures OkFrom(arcs, n, Idle) <==> WalksPaired(arcs, n)
  {
    forall w: seq<Arc>
      ensures Run(Idle, Kinds(w)) == Next(Idle) <==> Paired(Kinds(w))
    {
      AutomatonAcceptsPaired(Kinds(w));
    }
  }

  lemma AllOkIsAllPaired(arcs: set<Arc>, starts: set<GraphNode>)
    ensures (forall n :: n in starts ==> OkFrom(arcs, n, Idle)) <==> (forall n :: n in starts ==> WalksPaired(arcs, n))
  {
    forall n: GraphNode ensures OkFrom(arcs, n, Idle) <==> WalksPaired(arcs, n) {
      OkFromIsPaired(arcs, n);
    }
  }

  /** Normal edges alone leave nothing to pair. */
  lemma {:induction false} NormalWordsPaired(kinds: seq<EdgeKind>)
    requires AllNormal(kinds)
    ensures Paired(kinds)
    decreases |kinds|
  {
    if kinds != [] {
      assert kinds == [kinds[0]] + kinds[1..];
      AllNormalCons(kinds[0], kinds[1..]);
      NormalWordsPaired(kinds[1..]);
    }
  }

  // ---------------------------------------------------------------- one step of the search

  ghost predicate ArcOk(arcs: set<Arc>, state: ForEachState, x: Arc)
  {
    Step(state, x.kind).Next? && OkFrom(arcs, x.dst, Step(state, x.kind).state)
  }

  lemma OkAtSink(arcs: set<Arc>, n: GraphNode, state: ForEachState)
    requires IsSink(arcs, n)
    ensures OkFrom(arcs, n, state) <==> state == Idle
  {
    assert IsWalk(arcs, n, [], n) && Kinds([]) == [];
    forall w, z | IsWalk(arcs, n, w, z)
      ensures w == []
    {
    }
  }

  lemma KindsCons(x: Arc, w: seq<Arc>)
    ensures Kinds([x] + w)[0] == x.kind && Kinds([x] + w)[1..] == Kinds(w)
  {
  }

  lemma OkByArcs(arcs: set<Arc>, n: GraphNode, state: ForEachState)
    requires Acyclic(arcs) && !IsSink(arcs, n)
    ensures OkFrom(arcs, n, state) <==> forall x :: x in arcs && x.src == n ==> ArcOk(arcs, state, x)
  {
    if OkFrom(arcs, n, state) {
      forall x | x in arcs && x.src == n ensures ArcOk(arcs, state, x) {
        var v, s := WalkToSink(arcs, x.dst);
        forall w, z | IsWalk(arcs, x.dst, w, z) && IsSink(arcs, z)
          ensures Step(state, x.kind).Next? && Run(Step(state, x.kind).state, Kinds(w)) == Next(Idle)
        {
          assert ([x] + w)[1..] == w;
          assert IsWalk(arcs, n, [x] + w, z);
          KindsCons(x, w);
          assert Run(state, Kinds([x] + w)) == Next(Idle);
        }
      }
    }
    if forall x :: x in arcs && x.src == n ==> ArcOk(arcs, state, x) {
      forall w, z | IsWalk(arcs, n, w, z) && IsSink(arcs, z)
        ensures Run(state, Kinds(w)) == Next(Idle)
      {
        assert w == [w[0]] + w[1..];
        KindsCons(w[0], w[1..]);
        assert ArcOk(arcs, state, w[0]);
      }
    }
  }

  // ---------------------------------------------------------------- termination

  /** The number of walks from a node: the search pops each node once for every walk to it. */
  ghost function Weight(g: DiGraph, i: nat): nat
    requires g.Valid() && Acyclic(g.Arcs()) && i < |g.labels|
    decreases After(g.Arcs(), g.labels[i]), |g.edges| + 1
  {
    1 + WeightOfEdges(g, i, |g.edges|)
  }

  ghost function WeightOfEdges(g: DiGraph, i: nat, k: nat): nat
    requires g.Valid() && Acyclic(g.Arcs()) && i < |g.labels| && k <= |g.edges|
    decreases After(g.Arcs(), g.labels[i]), k
  {
    if k == 0 then 0
    else
      var e := g.edges[k - 1];
      var before := WeightOfEdges(g, i, k - 1);
      if e.source == i then
        AfterShrinks(g.Arcs(), g.ArcOf(e));
        before + Weight(g, e.target)
      else before
  }

  datatype Item = Item(node: nat, state: ForEachState)

  ghost predicate ItemsInRange(g: DiGraph, items: seq<Item>)
  {
    forall k :: 0 <= k < |items| ==> items[k].node < |g.labels|
  }

  ghost function StackWeight(g: DiGraph, items: seq<Item>): nat
    requires g.Valid() && Acyclic(g.Arcs()) && ItemsInRange(g, items)
  {
    if items == [] then 0
    else StackWeight(g, items[..|items| - 1]) + Weight(g, items[|items| - 1].node)
  }

  ghost predicate ItemsOk(g: DiGraph, items: seq<Item>)
    requires g.Valid() && ItemsInRange(g, items)
  {
    forall k :: 0 <= k < |items| ==> OkFrom(g.Arcs(), g.labels[items[k].node], items[k].state)
  }

  lemma ItemsOkSnoc(g: DiGraph, items: seq<Item>, item: Item)
    requires g.Valid() && ItemsInRange(g, items) && item.node < |g.labels|
    ensures ItemsInRange(g, items + [item])
    ensures ItemsOk(g, items + [item]) <==> ItemsOk(g, items) && OkFrom(g.Arcs(), g.labels[item.node], item.state)
  {
    var all := items + [item];
    if ItemsOk(g, all) {
      assert all[|items|] == item;
      forall k | 0 <= k < |items| ensures OkFrom(g.Arcs(), g.labels[items[k].node], items[k].state) {
        assert all[k] == items[k];
      }
    }
  }

  lemma StackWeightSnoc(g: DiGraph, items: seq<Item>, item: Item)
    requires g.Valid() && Acyclic(g.Arcs()) && ItemsInRange(g, items) && item.node < |g.labels|
    ensures ItemsInRange(g, items + [item])
    ensures StackWeight(g, items + [item]) == StackWeight(g, items) + Weight(g, item.node)
  {
    assert (items + [item])[..|items|] == items;
  }

  // ---------------------------------------------------------------- the search

  /** The first `k` edges, as far as they leave `i`, lead on without getting stuck. */
  ghost predicate EdgesOk(g: DiGraph, i: nat, state: ForEachState, k: nat)
    requires g.Valid() && k <= |g.edges|
  {
    forall j :: 0 <= j < k && g.edges[j].source == i ==> ArcOk(g.Arcs(), state, g.ArcOf(g.edges[j]))
  }

  lemma EdgesOkNext(g: DiGraph, i: nat, state: ForEachState, k: nat)
    requires g.Valid() && k < |g.edges|
    ensures EdgesOk(g, i, state, k + 1) <==>
            EdgesOk(g, i, state, k) && (g.edges[k].source == i ==> ArcOk(g.Arcs(), state, g.ArcOf(g.edges[k])))
  {
  }

  lemma OkByEdges(g: DiGraph, i: nat, state: ForEachState)
    requires g.Valid() && Acyclic(g.Arcs()) && i < |g.labels|
    requires exists e :: e in g.edges && e.source == i
    ensures OkFrom(g.Arcs(), g.labels[i], state) <==> EdgesOk(g, i, state, |g.edges|)
  {
    var e :| e in g.edges && e.source == i;
    assert g.ArcOf(e) in g.Arcs();
    OkByArcs(g.Arcs(), g.labels[i], state);
    if EdgesOk(g, i, state, |g.edges|) {
      forall x | x in g.Arcs() && x.src == g.labels[i] ensures ArcOk(g.Arcs(), state, x) {
        var f := EdgeOfArc(g, i, x);
        var j :| 0 <= j < |g.edges| && g.edges[j] == f;
      }
    }
  }

  lemma SinkByEdges(g: DiGraph, i: nat)
    requires g.Valid() && i < |g.labels|
    ensures IsSink(g.Arcs(), g.labels[i]) <==> !exists e :: e in g.edges && e.source == i
  {
    if e :| e in g.edges && e.source == i {
      assert g.ArcOf(e) in g.Arcs();
    }
    if x :| x in g.Arcs() && x.src == g.labels[i] {
      var e := EdgeOfArc(g, i, x);
    }
  }

  lemma StuckEdge(g: DiGraph, item: Item, k: nat)
    requires g.Valid() && k < |g.edges| && g.edges[k].source == item.node && Step(item.state, g.edges[k].weight).Stuck?
    ensures !EdgesOk(g, item.node, item.state, |g.edges|)
  {
    assert !ArcOk(g.Arcs(), item.state, g.ArcOf(g.edges[k]));
  }

  /** Pushing one successor accounts for one edge. */
  lemma PushStep(g: DiGraph, item: Item, stack: seq<Item>, k: nat, next: Item)
    requires g.Valid() && Acyclic(g.Arcs()) && item.node < |g.labels| && ItemsInRange(g, stack) && k < |g.edges|
    requires g.edges[k].source == item.node && next.node == g.edges[k].target
    requires Step(item.state, g.edges[k].weight) == Next(next.state)
    ensures ItemsInRange(g, stack + [next])
    ensures ItemsOk(g, stack + [next]) <==> ItemsOk(g, stack) && ArcOk(g.Arcs(), item.state, g.ArcOf(g.edges[k]))
    ensures StackWeight(g, stack + [next]) - StackWeight(g, stack) ==
        WeightOfEdges(g, item.node, k + 1) - WeightOfEdges(g, item.node, k)
  {
    ItemsOkSnoc(g, stack, next);
    StackWeightSnoc(g, stack, next);
  }

  /** `after` is `before` with the successors of `item` along the first `k` edges pushed. */
  ghost predicate Pushed(g: DiGraph, item: Item, k: nat, before: seq<Item>, after: seq<Item>)
    requires g.Valid() && Acyclic(g.Arcs()) && item.node < |g.labels| && ItemsInRange(g, before) && k <= |g.edges|
  {
    && ItemsInRange(g, after)
    && (ItemsOk(g, after) <==> ItemsOk(g, before) && EdgesOk(g, item.node, item.state, k))
    && StackWeight(g, after) == StackWeight(g, before) + WeightOfEdges(g, item.node, k)
  }

  lemma PushedNone(g: DiGraph, item: Item, stack: seq<Item>)
    requires g.Valid() && Acyclic(g.Arcs()) && item.node < |g.labels| && ItemsInRange(g, stack)
    ensures Pushed(g, item, 0, stack, stack)
  {
  }

  lemma PushedPast(g: DiGraph, item: Item, k: nat, before: seq<Item>, after: seq<Item>)
    requires g.Valid() && Acyclic(g.Arcs()) && item.node < |g.labels| && ItemsInRange(g, before) && k < |g.edges|
    requires Pushed(g, item, k, before, after) && g.edges[k].source != item.node
    ensures Pushed(g, item, k + 1, before, after)
  {
    EdgesOkNext(g, item.node, item.state, k);
  }

  lemma PushedOne(g: DiGraph, item: Item, k: nat, before: seq<Item>, after: seq<Item>, next: Item)
    requires g.Valid() && Acyclic(g.Arcs()) && item.node < |g.labels| && ItemsInRange(g, before) && k < |g.edges|
    requires Pushed(g, item, k, before, after) && g.edges[k].source == item.node
    requires next.node == g.edges[k].target && Step(item.state, g.edges[k].weight) == Next(next.state)
    ensures Pushed(g, item, k + 1, before, after + [next])
  {
    EdgesOkNext(g, item.node, item.state, k);
    PushStep(g, item, after, k, next);
  }

  /** What the first `k` edges push: nothing for an edge that leaves another node; one misfit fails all. */
  function Successors(edges: seq<IndexEdge>, item: Item, k: nat): Option<seq<Item>>
    requires k <= |edges|
  {
    if k == 0 then Some([])
    else match Successors(edges, item, k - 1)
      case None => None
      case Some(items) =>
        var e := edges[k - 1];
        if e.source != item.node then Some(items)
        else match Step(item.state, e.weight)
          case Stuck => None
          case Next(s) => Some(items + [Item(e.target, s)])
  }

  lemma {:induction false} FailureStays(edges: seq<IndexEdge>, item: Item, k: nat)
    requires k <= |edges| && Successors(edges, item, k).None?
    ensures Successors(edges, item, |edges|).None?
    decreases |edges| - k
  {
    if k < |edges| {
      FailureStays(edges, item, k + 1);
    }
  }

  /** Pushing the successors accounts for the edges; failing, one of them does not fit. */
  lemma {:induction false} SuccessorsMean(g: DiGraph, item: Item, stack: seq<Item>, k: nat)
    requires g.Valid() && Acyclic(g.Arcs()) && item.node < |g.labels| && ItemsInRange(g, stack) && k <= |g.edges|
    ensures match Successors(g.edges, item, k)
      case None => !EdgesOk(g, item.node, item.state, |g.edges|)
      case Some(items) => Pushed(g, item, k, stack, stack + items)
  {
    if k == 0 {
      PushedNone(g, item, stack);
      assert stack + [] == stack;
    } else {
      SuccessorsMean(g, item, stack, k - 1);
      if Successors(g.edges, item, k - 1).Some? {
        SuccessorsStep(g, item, stack, k - 1, Successors(g.edges, item, k - 1).value);
      }
    }
  }

  lemma SuccessorsStep(g: DiGraph, item: Item, stack: seq<Item>, k: nat, items: seq<Item>)
    requires g.Valid() && Acyclic(g.Arcs()) && item.node < |g.labels| && ItemsInRange(g, stack) && k < |g.edges|
    requires Pushed(g, item, k, stack, stack + items)
    ensures g.edges[k].source != item.node ==> Pushed(g, item, k + 1, stack, stack + items)
    ensures g.edges[k].source == item.node ==>
      match Step(item.state, g.edges[k].weight)
      case Stuck => !EdgesOk(g, item.node, item.state, |g.edges|)
      case Next(s) => Pushed(g, item, k + 1, stack, stack + (items + [Item(g.edges[k].target, s)]))
  {
    if g.edges[k].source != item.node {
      PushedPast(g, item, k, stack, stack + items);
    } else {
      match Step(item.state, g.edges[k].weight) {
        case Stuck => StuckEdge(g, item, k);
        case Next(s) =>
          PushedOne(g, item, k, stack, stack + items, Item(g.edges[k].target, s));
          assert stack + items + [Item(g.edges[k].target, s)] == stack + (items + [Item(g.edges[k].target, s)]);
      }
    }
  }

  /** Pushes the successors of one popped node. Fails as soon as one edge does not fit the state. */
  method Expand(g: DiGraph, item: Item, stack: seq<Item>) returns (ok: bool, stack': seq<Item>)
    requires g.Valid() && Acyclic(g.Arcs()) && item.node < |g.labels| && ItemsInRange(g, stack)
    ensures !ok ==> !EdgesOk(g, item.node, item.state, |g.edges|)
    ensures ok ==> Pushed(g, item, |g.edges|, stack, stack')
  {
    ok, stack' := PushSuccessors(g.edges, item, stack);
    SuccessorsMean(g, item, stack, |g.edges|);
  }

  method PushSuccessors(edges: seq<IndexEdge>, item: Item, stack: seq<Item>) returns (ok: bool, stack': seq<Item>)
    ensures ok <==> Successors(edges, item, |edges|).Some?
    ensures ok ==> stack' == stack + Successors(edges, item, |edges|).value
  {
    stack' := stack;
    for k := 0 to |edges|
      invariant Successors(edges, item, k).Some? && stack' == stack + Successors(edges, item, k).value
    {
      var e := edges[k];
      if e.source == item.node {
        var next := Step(item.state, e.weight);
        if next.Stuck? {
          FailureStays(edges, item, k + 1);
          return false, stack';
        }
        stack' := stack' + [Item(e.target, next.state)];
      }
    }
    return true, stack';
  }

  /** Finds the node of an entry vertex. */
  method FindNode(g: DiGraph, n: GraphNode) returns (found: bool, i: nat)
    ensures found <==> n in g.Nodes()
    ensures found ==> i < |g.labels| && g.labels[i] == n
  {
    i := 0;
    while i < |g.labels|
      invariant i <= |g.labels| && n !in g.labels[..i]
    {
      if g.labels[i] == n {
        return true, i;
      }
      i := i + 1;
    }
    return false, 0;
  }

  method EntryItems(g: DiGraph, starts: set<GraphNode>) returns (ok: bool, stack: seq<Item>)
    requires g.Valid()
    ensures ok <==> starts <= g.Nodes()
    ensures ok ==> ItemsInRange(g, stack)
    ensures ok ==> (ItemsOk(g, stack) <==> forall n :: n in starts ==> OkFrom(g.Arcs(), n, Idle))
  {
    stack := [];
    var rest := starts;
    while rest != {}
      invariant rest <= starts && starts - rest <= g.Nodes()
      invariant ItemsInRange(g, stack)
      invariant ItemsOk(g, stack) <==> forall n :: n in starts - rest ==> OkFrom(g.Arcs(), n, Idle)
      decreases rest
    {
      var n :| n in rest;
      var found, i := FindNode(g, n);
      if !found {
        return false, stack;
      }
      ItemsOkSnoc(g, stack, Item(i, Idle));
      stack := stack + [Item(i, Idle)];
      rest := rest - {n};
    }
    return true, stack;
  }

  /** Pops one node: a sink must be reached idle, other nodes are replaced by their successors. */
  method PopOne(g: DiGraph, stack: seq<Item>) returns (ok: bool, stack': seq<Item>)
    requires g.Valid() && Acyclic(g.Arcs()) && ItemsInRange(g, stack) && stack != []
    ensures !ok ==> !ItemsOk(g, stack)
    ensures ok ==> ItemsInRange(g, stack') && (ItemsOk(g, stack') <==> ItemsOk(g, stack))
    ensures ok ==> StackWeight(g, stack') < StackWeight(g, stack)
  {
    var item := stack[|stack| - 1];
    var rest := stack[..|stack| - 1];
    assert stack == rest + [item];
    ItemsOkSnoc(g, rest, item);
    SinkByEdges(g, item.node);
    if !exists e :: e in g.edges && e.source == item.node {
      OkAtSink(g.Arcs(), g.labels[item.node], item.state);
      if item.state == InForEach {
        return false, stack;
      }
      return true, rest;
    }
    OkByEdges(g, item.node, item.state);
    StackWeightSnoc(g, rest, item);
    ok, stack' := Expand(g, item, rest);
  }

  /** The search over any order of entry vertices terminates on an acyclic graph and accepts exactly
      when every complete walk from an entry vertex is a paired word. */
  method ValidateForEachPairs(g: DiGraph, entries: map<GraphNode, seq<string>>) returns (ok: bool)
    requires g.Valid() && Acyclic(g.Arcs())
    ensures ok <==> entries.Keys <= g.Nodes() && forall n :: n in entries ==> WalksPaired(g.Arcs(), n)
  {
    var stack;
    ok, stack := EntryItems(g, entries.Keys);
    if !ok {
      return;
    }
    ghost var goal := ItemsOk(g, stack);
    AllOkIsAllPaired(g.Arcs(), entries.Keys);
    while stack != []
      invariant ItemsInRange(g, stack)
      invariant goal <==> ItemsOk(g, stack)
      decreases StackWeight(g, stack)
    {
      ok, stack := PopOne(g, stack);
      if !ok {
        return;
      }
    }
    return true;
  }
}
