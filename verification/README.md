# Verification models for the Nexus SDK, toolkit and CLI

This project models the parts of the Nexus Rust workspace whose correctness is hardest to see from the code, and
proves what they promise. `dafny verify dfyconfig.toml` checks everything.

**The DAG validator.** A workflow specification is compiled into a graph with four layers (vertex, output variant,
output port, input port, and on to the next vertex). Do-while edges are redirected to phantom vertices. Four analyses
then decide: is the graph acyclic and ordered; does every input port have net concurrency 0 for every entry group; are
for-each and collect edges paired on every walk; do do-while loops nest? The graph is index-based as in the source,
and every method is proved against a predicate on *labels* (`Walks`, `DagSpecs`). The verdict is therefore one
predicate on the specification (`Validator.Accepts`), which mentions neither indices nor the order of any list.
Modules: `Walks`, `DagSpecs`, `DiGraphs`, `Compile`, `Cycles`, `Order`, `SimplePaths`, `Concurrency`, `ForEachPairs`,
`Nesting`, `Validator`. `Phantom` covers the redirection of do-while edges. Three modules say what parts of that
predicate mean without the compiled graph: `Structure` the structural rules, `EdgePaths` the for-each analysis, and
`EntryGroups` that entry groups are judged one by one.

What net concurrency means has two parts. `ConcurrencyWitness` relates it to *choices* of one output variant at every
vertex of a path subgraph, whether or not these vertices ever run together. `Runs` defines runs: an entry vertex runs,
any other vertex runs once all its input ports are written, and a vertex that runs writes through the ports of one
variant. `RunWitness` proves what the verdict says about runs. It is exact in two cases that can be read off the
workflow: where branches are not exclusive it decides races, and where branches never merge it decides reachability.
`Plans` says for every acyclic workflow exactly when some run writes a port, and when some run writes it twice: when a
set of edges can be travelled together that has one edge, or two, to the port. `Ways`, `BranchingWorkflows` and
`WaitingWorkflows` show that the verdict is not exact elsewhere, in all four directions: workflows accepted with a race
or with a port that no run writes, and workflows refused for a race that no run has or for an unreachable port that
runs do write.

**The replay cache.** Begin, complete and drop are atomic steps on a shared map. Reservations are held outside the
lock and recognise their entry again by nonce, input hash and lease expiry only. `Replay` has the objects and their
steps, `ReplayProtocol` all interleavings with an explicit ghost owner that the program does not have, `ReplayEager`
the comparison with an eager cache that serves one nonce alone.

**Lowering of data values.** `GreedySplit`, `Chunking` and `Lowering` cover the splitting of an array into commands
and what the emitted commands compute when they are evaluated.

**Remote-field hints.** `RemoteHints` covers the greedy choice of the fields to store remotely.

**Codecs.** `ToolFqns` (parse and print), `EventWrappers` (fallback decoding of event wrappers), `Json`,
`TaggedOutputs` and `OutputLayout` (canonical tool output and its bytes). They rest on `Bcs`, which follows the sections
"ULEB128-Encoded Integers" and "Fixed and Variable Length Sequences" of the Binary Canonical Serialization
specification. Each codec there is lawful: it recovers what it encoded and accepts nothing else; `Bcs.UlebIsPositional`
and `Bcs.LittleEndianIsPositional` say which digits the bytes of a number are.

`FiniteSets`, `Permutations`, `Sorting`, `Options` and `NexusValues` are shared helpers.

Where code and documentation or messages differ, the model follows the code:

- The hint's error message says that the data cannot fit even with all fields stored remotely. With arrays among the
  fields a single remote field can be enough while the greedy order still fails (`RemoteHints.ArraysDefeatTheOrder`);
  `RemoteHints.ErrorIsTrueExactly` and `RemoteHints.HintIsMinimalExactly` say exactly when the answer is right.
- A port whose net concurrency is positive is reported as a race. Net concurrency 0 does not exclude a race
  (`BranchingWorkflows.AcceptanceAllowsRaces`), and a positive one need not be a race of any run
  (`BranchingWorkflows.RefusalMayBeFalse`).
- A port whose net concurrency is negative is reported as unreachable. Runs may write it all the same
  (`WaitingWorkflows.RefusedPortMayBeWritten`), and a port of an accepted workflow may be written by none
  (`WaitingWorkflows.AcceptanceAllowsStarvation`). `RunWitness.SteadyVerdict` and `RunWitness.UnmergedVerdict` give
  conditions under which the two reports are exact.
- The error for an oversized array element is raised for the first element only (`Chunking.OversizeIsFirstElement`).

## Model

| member | source | states |
|---|---|---|
| Validator.Validate | sdk/src/dag/validator.rs:25-46 | The verdict is exactly `Accepts`: structural rules, acyclic arcs, balanced input ports, paired entry walks, plain loop bodies, all stated on labels |
| Validator.VerdictIsOrderless | sdk/src/dag/validator.rs:25-46 | Permuting the vertices, edges, defaults, entry groups or outputs of a specification never changes the verdict |
| Validator.NeverRefusedForOrder | sdk/src/dag/validator.rs:33-34 | Whatever graph compilation returns, every node has the successors the order check demands, so that check never rejects |
| Validator.EntriesAreNodes | sdk/src/dag/validator.rs:226-233 | The entry-node lookup of the for-each search cannot fail on a compiled graph |
| EntryGroups.GroupsAreIndependent | sdk/src/dag/validator.rs:96-118 | With distinct group names, the concurrency rules hold exactly when they hold with each entry group as the only one |
| EntryGroups.AcceptedGroupByGroup | sdk/src/dag/validator.rs:25-46 | The whole verdict likewise: a workflow is accepted exactly when it has an entry vertex and is accepted with each of its groups that lists vertices alone |
| EntryGroups.EntriesByName | sdk/src/dag/validator.rs:387-423 | A group name starts exactly the vertices listed by the groups of that name; without groups the default name starts the vertices with entry ports |
| Compile.TryIntoGraph | sdk/src/dag/validator.rs:379-669 | Succeeds exactly on specifications that obey the structural rules; the graph then has the specification's arcs and nodes, each once, and the entry map its vertex-group pairs |
| Structure.StructureByField | sdk/src/dag/validator.rs:387-666 | The structural rules, each read off the lists of the specification: declared entries, a start, distinct origins and names, connected vertices, entry and default ports without feeders, outputs at ends, loops that can be left by another variant |
| Compile.BuildGraph | sdk/src/dag/validator.rs:433-534 | The edge loop succeeds exactly when no output port is used twice; node map and labels are inverse, no edge is parallel, arcs and nodes are those of the edges |
| Compile.CollectGroups | sdk/src/dag/validator.rs:387-408 | Fails exactly on a group naming an undeclared vertex; otherwise the entry map holds exactly the listed pairs |
| Compile.CollectDefaultGroup | sdk/src/dag/validator.rs:409-423 | Without groups, exactly the vertices with entry ports enter the default group |
| Compile.CheckVertices | sdk/src/dag/validator.rs:536-561 | Every declared vertex is a node and declared once; a lone vertex without edges becomes a node |
| Compile.CheckEntryPorts | sdk/src/dag/validator.rs:563-584 | Accepts exactly when no entry port has an edge into it or is declared twice, and returns all of them |
| Compile.CheckDefaults | sdk/src/dag/validator.rs:586-598 | Accepts exactly when no default value goes to an entry port or to a port with an edge |
| Compile.CheckOutputs | sdk/src/dag/validator.rs:600-615 | Accepts exactly when no vertex has both outputs and outgoing edges |
| Compile.CheckLoops | sdk/src/dag/validator.rs:617-666 | Accepts exactly when do-while and break edges leave the same vertices and never the same variant |
| DagSpecs.SpecIsFourLayered | sdk/src/dag/validator.rs:467-533 | Arcs join consecutive layers of one vertex, only port arcs carry a kind, and a port has one way on |
| DagSpecs.EdgesArePortArcs | sdk/src/dag/validator.rs:514-533 | An arc that leaves an output port belongs to exactly one specification edge: it joins that edge's own ports and carries its own kind |
| DagSpecs.SpecArcsByField | sdk/src/dag/validator.rs:451-533 | The arcs are exactly the four arcs of each edge, written in the edge's own fields, with the suffixed destination for do-while edges |
| Cycles.IsCyclicDirected | sdk/src/dag/validator.rs:29-31 | Reports a cycle exactly when some nonempty walk returns to its start |
| Order.HasCorrectOrderOfActions | sdk/src/dag/validator.rs:48-92 | Accepts exactly when every label has as many successors, and of the layer, as its kind demands |
| Order.CompiledGraphsAreOrdered | sdk/src/dag/validator.rs:55-85 | A four-layered graph in which every node but a vertex leads on meets those demands at every node |
| Phantom.CompiledAcyclicByVertices | sdk/src/dag/validator.rs:451-465 | The compiled graph is acyclic exactly when the vertex graph with phantoms is |
| Phantom.PhantomRewritingIsFaithful | sdk/src/dag/validator.rs:451-465 | If no edge leaves a vertex named like a phantom, the compiled graph is acyclic exactly when the edges that are not do-while close no cycle between vertices |
| Phantom.PlainNamesAreFresh | sdk/src/dag/validator.rs:453-456 | It is enough for this that no origin vertex name ends in the phantom suffix |
| Phantom.CompiledCyclesCoverForward | sdk/src/dag/validator.rs:29-31 | With any names, a cycle of edges that are not do-while is found |
| Phantom.PhantomCyclesExactly | sdk/src/dag/validator.rs:451-465 | For any names: the compiled graph is acyclic exactly when the forward edges are and no phantom leads back to the vertex that jumps to it; the rewriting is faithful exactly when the second part holds or the forward edges are cyclic anyway |
| Phantom.CollidingNameBreaksFaithfulness | sdk/src/dag/validator.rs:453-456 | A vertex carrying a phantom's name: a workflow that passes every structural rule and whose forward edges close no cycle is refused as cyclic |
| Walks.SimplePathsAreReachability | sdk/src/dag/validator.rs:127-142 | In an acyclic graph the nodes on simple paths are those reached from the start that reach the end |
| SimplePaths.AllSimplePathNodes | sdk/src/dag/validator.rs:133-140 | The path search collects exactly the nodes on simple paths between two nodes |
| Concurrency.GetNetConcurrencyInSubgraph | sdk/src/dag/validator.rs:173-208 | The fold over indices, in any order, is the sum of the contributions of the labels |
| Concurrency.NodesInPaths | sdk/src/dag/validator.rs:109-142 | Collects exactly the nodes on simple paths to the port from the vertices that name the group themselves |
| Concurrency.FollowsConcurrencyRules | sdk/src/dag/validator.rs:96-171 | Accepts exactly when, for every group, every input port is reached from the vertices that name that group, with net concurrency 0 |
| ConcurrencyWitness.PathSubgraphIsFunnel | sdk/src/dag/validator.rs:125-142 | In a path subgraph every node but the port leads on inside it and every node but a vertex is led to from inside it |
| ConcurrencyWitness.NetIsLargestSurplus | sdk/src/dag/validator.rs:173-208 | Net concurrency is the largest surplus of live output ports over input ports among all choices of one variant per vertex, and some choice attains it |
| ConcurrencyWitness.PositiveNetIsOverload | sdk/src/dag/validator.rs:161-166 | Positive net concurrency: some choice of variants has more live output ports than there are input ports, which no balanced port allows, and two of them feed one input port |
| ConcurrencyWitness.NegativeNetIsShortage | sdk/src/dag/validator.rs:154-159 | Negative net concurrency: every choice of variants has fewer live output ports than there are input ports, and leaves one unfed |
| ConcurrencyWitness.RefusalIsImbalance | sdk/src/dag/validator.rs:144-166 | A port is refused exactly when its subgraph is empty, some choice overloads it, or every choice falls short; a balanced port meets none of these |
| ConcurrencyWitness.SingleVariantNet | sdk/src/dag/validator.rs:173-208 | With one variant per vertex net concurrency is output ports minus input ports, never negative, and 0 exactly when each input port is fed by exactly one output port |
| ConcurrencyWitness.AcceptedIsRaceFree | sdk/src/dag/validator.rs:94-171 | In an accepted workflow with one variant per vertex on the way to a port, each input port on the way is fed exactly once |
| ConcurrencyWitness.ClashFreeExactly | sdk/src/dag/validator.rs:181-195 | No choice of variants at all vertices clashes exactly when any two ports feeding one input port are ports of different variants of one vertex; this concerns choices, not runs |
| Runs.RunExists | sdk/src/dag/validator.rs:94-98 | Whatever variants the vertices answer with, there is a run that answers so |
| Runs.RunIsUnique | sdk/src/dag/validator.rs:94-98 | In an acyclic workflow the variants answered determine which vertices run |
| RunWitness.WriterIsLive | sdk/src/dag/validator.rs:125-142 | What writes a port of a path subgraph in a run is a live port of the subgraph under the run's choice |
| RunWitness.ExclusiveFeedersNeverRace | sdk/src/dag/validator.rs:161-166 | Where ports feeding one input exclude each other, no run writes that input twice |
| RunWitness.PositiveNetRacesIfAllFire | sdk/src/dag/validator.rs:161-166 | Positive net concurrency is a race in every run in which all vertices of the subgraph run and answer with a widest variant |
| RunWitness.SteadyNetDecidesRaces | sdk/src/dag/validator.rs:173-208 | Where every input is fed by some vertex whatever variant it takes, net concurrency is never negative and is 0 exactly when no run writes an input twice |
| RunWitness.UnmergedNetDecidesReach | sdk/src/dag/validator.rs:173-208 | Where no input has two feeders, net concurrency is never positive and is 0 exactly when some run writes the port |
| RunWitness.SteadyVerdict | sdk/src/dag/validator.rs:152-166 | In the first case a port is refused exactly when a run can write an input on the way to it twice |
| RunWitness.UnmergedVerdict | sdk/src/dag/validator.rs:152-166 | In the second case a port is refused exactly when no run writes it |
| RunWitness.SteadyGroupVerdict | sdk/src/dag/validator.rs:109-166 | The first verdict for an entry group with its own name: about the runs that start at exactly the vertices the group lists |
| RunWitness.UnmergedGroupVerdict | sdk/src/dag/validator.rs:109-166 | The second verdict likewise |
| RunWitness.UnreachedIsNeverWritten | sdk/src/dag/validator.rs:144-150 | A port with an empty path subgraph is written in no run |
| RunWitness.AcceptedSteadyRuns | sdk/src/dag/validator.rs:94-171 | In an accepted workflow of the first case no run races on the way to a port, and a run that keeps to the way runs every vertex on it and writes every input once |
| RunWitness.AcceptedSingleVariantRuns | sdk/src/dag/validator.rs:94-171 | In particular with one variant per vertex: every run that keeps to the way runs every vertex and writes every input exactly once |
| Plans.WrittenExactly | sdk/src/dag/validator.rs:144-159 | For every acyclic workflow: some run writes a port exactly when a set of edges with one variant per vertex, in which every sending vertex is an entry or has all its inputs served, has an edge to the port |
| Plans.RacesExactly | sdk/src/dag/validator.rs:161-166 | Likewise some run writes a port twice exactly when such a set has two edges to it |
| BranchingWorkflows.MergeNeverRaces | sdk/src/dag/validator.rs:94-171 | A branch whose arms merge is accepted and no run races |
| BranchingWorkflows.MergeCanClash | sdk/src/dag/validator.rs:173-208 | Yet a choice of variants at vertices that never run together clashes there, so a clash need not be a race |
| BranchingWorkflows.AcceptedWorkflowRaces | sdk/src/dag/validator.rs:144-208 | A shape that is accepted although every run through its first variant writes one input twice |
| BranchingWorkflows.AcceptanceAllowsRaces | sdk/src/dag/validator.rs:94-171 | An accepted workflow with a racing run exists |
| BranchingWorkflows.RefusedWithoutRace | sdk/src/dag/validator.rs:161-166 | A shape with positive net concurrency in which no run writes any input twice |
| BranchingWorkflows.RefusalMayBeFalse | sdk/src/dag/validator.rs:161-166 | A structurally correct workflow that is refused for a race exists although none of its runs races |
| BranchingWorkflows.ClashMayBeNoRace | sdk/src/dag/validator.rs:94-171 | An accepted workflow without racing runs whose variants can clash exists |
| WaitingWorkflows.AcceptedNeverWritten | sdk/src/dag/validator.rs:144-208 | A shape that is accepted although no run writes its last input: an output sent twice makes up for the second of two exclusive inputs |
| WaitingWorkflows.AcceptanceAllowsStarvation | sdk/src/dag/validator.rs:94-171 | An accepted workflow with an input port that no run writes exists |
| WaitingWorkflows.RefusedThoughWritten | sdk/src/dag/validator.rs:154-159 | A shape with negative net concurrency at a port that every run through its first variant writes |
| WaitingWorkflows.RefusedPortMayBeWritten | sdk/src/dag/validator.rs:154-159 | A structurally correct workflow that is refused at a port with negative net concurrency, which runs do write, exists |
| ForEachPairs.AutomatonAcceptsPaired | sdk/src/dag/validator.rs:245-266 | The two-state automaton accepts exactly the words of (Normal, Static, DoWhile, Break, or ForEach Normal* Collect)* |
| ForEachPairs.ValidateForEachPairs | sdk/src/dag/validator.rs:211-273 | On any acyclic graph the search without a visited set terminates and accepts exactly when every walk from an entry vertex to a sink is such a word |
| EdgePaths.PairedByEdges | sdk/src/dag/validator.rs:244-266 | From any vertex, all complete walks of the compiled graph are paired exactly when all complete paths of specification edges spell paired words in the edges' own kinds |
| EdgePaths.EntryPathsPaired | sdk/src/dag/validator.rs:211-273 | The for-each analysis accepts a workflow exactly when this holds for every path of edges from an entry vertex |
| ForEachPairs.Expand | sdk/src/dag/validator.rs:244-269 | Pushing the successors preserves what the stack says, fails only on an edge that does not fit, and costs one less than the popped node's number of walks |
| Nesting.ValidateDoWhileNesting | sdk/src/dag/validator.rs:275-336 | Accepts exactly when no node on a path of a do-while loop, the jumping port excluded, has a loop edge |
| Nesting.NestingBySpec | sdk/src/dag/validator.rs:276-298 | Finding loop targets by stripping the suffix from phantom names is the same as reading them from the specification's do-while edges |
| Nesting.NestingIsReachability | sdk/src/dag/validator.rs:300-333 | In an acyclic workflow the rule says that only normal and static edges, and the jump itself, leave from between the vertex jumped back to and the port that jumps |
| Replay.ReplayCache.Begin | toolkit-rust/src/signed_http_warp.rs:295-331 | Other entries stay exactly if unexpired; for the nonce the answer, the new entry and its lease are given for each kind of entry found, and a fresh reservation exactly when the request may proceed |
| Replay.ReplayReservation.Complete | toolkit-rust/src/signed_http_warp.rs:335-347 | Stores the response until the end of its time to live exactly when the reserved entry still stands as it was made, whatever the time; nothing else changes |
| Replay.ReplayReservation.Drop | toolkit-rust/src/signed_http_warp.rs:351-363 | Releases exactly the reservation's own entry unless it was completed |
| Replay.HandleSigned | toolkit-rust/src/signed_http_warp.rs:200-228 | One authenticated request alone: cached answer, conflict, or the tool run once and its answer stored |
| Replay.LeaseMs | toolkit-rust/src/signed_http_warp.rs:132-134 | The lease is the timeout in milliseconds, 1 for none, and 60 seconds when the milliseconds exceed 64 bits |
| ReplayProtocol.RunKeepsInv | toolkit-rust/src/signed_http_warp.rs:295-364 | Every state of every interleaving keeps the ownership invariant |
| ReplayProtocol.MatchIsOwnership | toolkit-rust/src/signed_http_warp.rs:338-340 | The comparison of hash, expiry and state recognises exactly the reservation that made the entry |
| ReplayProtocol.ReservationsAreSafe | toolkit-rust/src/signed_http_warp.rs:295-364 | An outstanding reservation owns its nonce's entry or its lease is over, and no two own one nonce |
| ReplayProtocol.StrangersChangeNothing | toolkit-rust/src/signed_http_warp.rs:335-363 | Completing or dropping without ownership leaves the map unchanged |
| ReplayProtocol.ReturnsWereStored | toolkit-rust/src/signed_http_warp.rs:298-303 | An answer from the cache was stored earlier by the owner, for the same nonce and hash, and is unexpired |
| ReplayProtocol.StoredIsReturned | toolkit-rust/src/signed_http_warp.rs:295-348 | Until it expires a stored answer is returned to every repetition, unless a begin with another hash intervened |
| ReplayEager.LazyEvictionIsUnobservable | toolkit-rust/src/signed_http_warp.rs:295-331 | If completions keep their leases, every begin is decided as by an eager cache that sees this nonce's steps only |
| ReplayEager.ObservableExactly | toolkit-rust/src/signed_http_warp.rs:295-348 | For every run: all begins are decided as by the eager caches exactly when no begin repeats, before its expiry and with no other input in between, a request whose response its owner stored after the lease |
| ReplayEager.LateCompletionIsObservable | toolkit-rust/src/signed_http_warp.rs:335-347 | A run in which a late completion is still stored and returned, where an eager cache would proceed |
| ReplayEager.SameTokenTwice | toolkit-rust/src/signed_http_warp.rs:313-320 | Two begins get the same token exactly when the lease is 0 and no time passed, or when the clock and the first lease have saturated |
| Chunking.SplitIntoChunks | sdk/src/move_boundary/mod.rs:335-361 | The loop computes the fold of the chunking step |
| Chunking.PushElement | sdk/src/move_boundary/mod.rs:339-361 | Popping, trying and pushing back extends the last chunk or starts a new one, or fails |
| Chunking.LimitsByNumber | sdk/src/move_boundary/mod.rs:343-344 | A candidate is within the limits exactly with at most 64 elements and an encoding of at most 16,384 bytes, counted from the elements; the encoder refuses only elements beyond its length format |
| Chunking.FitsAlone | sdk/src/move_boundary/mod.rs:343-352 | An element fits a command alone exactly when it has at most 16,381 bytes |
| Chunking.SplitKeepsElements | sdk/src/move_boundary/mod.rs:335-361 | A successful split keeps all elements in order; chunks of two or more are within both limits, whatever the element sizes; the first element of a chunk would have broken a limit in the chunk before |
| Chunking.SplitIsOptimal | sdk/src/move_boundary/mod.rs:335-361 | If no element has more than 16,381 bytes the split succeeds with every chunk within 64 elements and 16,384 bytes, and no split into consecutive chunks within these numbers is shorter |
| Chunking.WithinLimitsExactly | sdk/src/move_boundary/mod.rs:335-361 | The split succeeds with every chunk within these numbers exactly when no element has more than 16,381 bytes |
| Chunking.OversizeIsFirstElement | sdk/src/move_boundary/mod.rs:348-352 | The oversize error is raised exactly when the first element has more than 16,381 bytes (and can be encoded at all) |
| Chunking.FailsForFirstOnly | sdk/src/move_boundary/mod.rs:339-361 | Among encodable elements the split fails exactly for a first element of more than 16,381 bytes |
| GreedySplit.GreedyIsOptimal | sdk/src/move_boundary/mod.rs:335-361 | Greedy splitting is shortest for every limit inherited by parts of a chunk, and among shortest splits none has a shorter last chunk |
| Lowering.PtbBuilder.AddNexusData | sdk/src/move_boundary/mod.rs:309-399 | Fails exactly on unknown storage or an unsplittable array; otherwise evaluating all commands yields the value as the newest result and leaves earlier results alone, exactly when at most one part is filled; the number of commands, the limits each new vector keeps, and the constructor at the end, for an array unless only the one part is filled, in the value's own storage |
| Lowering.LowerableByField | sdk/src/move_boundary/mod.rs:311-352 | With encodable elements, what is refused is storage other than the texts inline and walrus, or an array whose first element has more than 16,381 bytes |
| Lowering.PtbBuilder.AddChunks | sdk/src/move_boundary/mod.rs:363-391 | The first vector ends up holding the concatenation of all chunks; each new vector is made of one chunk, and there are two commands a chunk but for the first |
| RemoteHints.HintRemoteFields | cli/src/nexus_data_json.rs:85-129 | The result is the shortest fitting prefix of the size-descending order, an error exactly when no prefix fits; the running total is the true required size |
| RemoteHints.HintByField | cli/src/nexus_data_json.rs:90-128 | The same by field: falling order of key and text sizes with ties in the object's order, 44 bytes for each blob stored remotely, and the shortest beginning that leaves at most 57,344 bytes |
| RemoteHints.LargestSaveMost | cli/src/nexus_data_json.rs:95-115 | In the order of savings, no equally large set of remote fields needs less space than the first ones, arrays or not |
| RemoteHints.ErrorIsTrueExactly | cli/src/nexus_data_json.rs:122-126 | No set of remote fields fits exactly when the fields in their cheaper forms do not, and then the hint is an error |
| RemoteHints.HintIsMinimalExactly | cli/src/nexus_data_json.rs:105-128 | A hint has minimum cardinality among all sets that fit exactly when no shorter prefix in the order of savings fits |
| RemoteHints.HintIsOptimalWithoutArrays | cli/src/nexus_data_json.rs:85-129 | Without arrays the hint has minimum cardinality over all sets that fit, and an error means that no set fits |
| RemoteHints.ArraysDefeatTheOrder | cli/src/nexus_data_json.rs:109-126 | With arrays the hint can fail although storing one field remotely would do |
| ToolFqns.ParseAcceptsExactly | sdk/src/tool_fqn.rs:94-120 | Parsing succeeds exactly on the documented shape with a version between 1 and the largest u32 |
| ToolFqns.ParseMeetsConstraints | sdk/src/tool_fqn.rs:87-120 | Parsing succeeds exactly on the documented constraints: three dotted parts or more of two characters or more with a letter first, all but the last the domain, decimal digits that mean a number from 1 to 4,294,967,295 |
| ToolFqns.PrintThenParse | sdk/src/tool_fqn.rs:123-127 | The printed form of a valid name parses back to it |
| ToolFqns.ParseThenPrint | sdk/src/tool_fqn.rs:94-127 | Printing an accepted string gives it back, leading zeros of the version aside |
| ToolFqns.CapturesAreShape | sdk/src/tool_fqn.rs:62-72 | Cutting at the last at sign and the last dot before it finds exactly the captures of the grammar |
| ToolFqns.ShapeIsUnambiguous | sdk/src/tool_fqn.rs:62-72 | A string matches the grammar in one way at most |
| EventWrappers.PlainIsRecovered | sdk/src/events/mod.rs:172-176 | A plain event of any kind is recovered without metadata |
| EventWrappers.DistributedIsRecovered | sdk/src/events/mod.rs:157-171 | From the bytes of an event and of the four fields behind it: the event, both times as signed 64-bit numbers, task and leaders come back; refused exactly when the request time is no date; for any kind but the walk request |
| EventWrappers.ScheduledWalkIsRecovered | sdk/src/events/mod.rs:135-155 | The same for a walk request with the four times of its schedule in between |
| EventWrappers.DistributedWalkIsRecovered | sdk/src/events/mod.rs:135-171 | The same for an unscheduled walk request exactly when its leader list does not read as the tail of a scheduled one: the first address must not end with the encoded number of the others; otherwise the metadata never comes back |
| EventWrappers.RecoveredWasSent | sdk/src/events/mod.rs:135-176 | Conversely, what is recovered is what the bytes hold: an event alone, or an event and an envelope with that metadata, for walk requests perhaps with schedule times between |
| EventWrappers.SomeWalkIsMisread | sdk/src/events/mod.rs:135-155 | For every event there is a distribution, with a single leader, under which it is misread |
| Json.TextIsInjective | toolkit-rust/src/runtime.rs:622-630 | The compact JSON text determines the value |
| Json.TextByParts | toolkit-rust/src/runtime.rs:622-630 | The text of each kind of value: literal names, digits, strings that a reader after section 7 of RFC 8259 gets back, and brackets, commas and colons around the texts of the parts |
| TaggedOutputs.TypedIsReadable | toolkit-rust/src/runtime.rs:590-630 | The hint names the one scalar kind of a value or array; strings travel raw, all else as JSON text; only arrays use the list |
| TaggedOutputs.TypedIsInjective | toolkit-rust/src/runtime.rs:590-630 | Hint and layout determine the JSON value: empty array, empty string, uniform and mixed arrays are told apart |
| TaggedOutputs.PayloadKeysIncrease | toolkit-rust/src/runtime.rs:572-581 | The payload's keys come out strictly increasing: the first differing byte decides, a proper beginning comes first |
| TaggedOutputs.PayloadOrderIsIrrelevant | toolkit-rust/src/runtime.rs:560-588 | The order of the payload's members does not affect the encoding |
| OutputLayout.EncodingIsRead | toolkit-rust/src/runtime.rs:582-587 | Decoding the bytes gives the tag and, in key order, for every member its key, hint, the tag inline, the scalar bytes and the list back |
| OutputLayout.EncodingLayout | toolkit-rust/src/runtime.rs:560-588 | The encoding byte by byte: tag, number of members, and for each member in key order key, hint position, storage tag, one byte string, list of byte strings |
| OutputLayout.EncodableExactly | toolkit-rust/src/runtime.rs:560-571 | Encoding succeeds exactly on an object with one member whose value is an object, if every length can be encoded |
| TaggedOutputs.EncodingIsLossless | toolkit-rust/src/runtime.rs:560-588 | Equal encodings come from equal tags and payloads with the same members |

## Left out

- AcceptedIsRaceFree: speaks of vertices with one variant each only, because with several variants the claim is false; AcceptedSteadyRuns widens it to branches that are not exclusive.
- ClashFreeExactly: speaks of a variant at every vertex of the subgraph, also at vertices that would not run; for runs it is sufficient (ExclusiveFeedersNeverRace) and, by ClashMayBeNoRace, not necessary.
- SteadyVerdict: outside steady and unmerged subgraphs the verdict is exact in neither direction, as the four examples show; WrittenExactly and RacesExactly say what runs can do there, at the price of a search over sets of edges.
- RunExists: a run records which vertices run and what they write, not in which order or how often, nor the values; for-each and do-while edges count as ordinary edges in it.
- PhantomRewritingIsFaithful: assumes that no edge leaves a vertex named like a phantom; PhantomCyclesExactly is the exact condition for any names.
- Validate: says nothing about edge endpoints being declared vertices, because the validator does not check it.
- RunKeepsInv: takes the times of the steps to be non-decreasing in the order in which the lock is taken; the source reads the clock before it takes the lock.
- HandleSigned: authentication, response signing and the HTTP responses are not modelled; `run` is its outcome, and a dropped request future is the Abandon step of ReplayProtocol.
- HintIsOptimalWithoutArrays: speaks of fields of one blob each (no arrays, or arrays of one element); for other fields see ErrorIsTrueExactly and HintIsMinimalExactly.
- HintRemoteFields: member texts are given as bytes and sizes are unbounded integers; overflow of `usize` is not modelled, nor is the check that the JSON value is an object.
- AddNexusData: the external transaction builder is modelled as lists of inputs and commands without input deduplication and with calls that never fail; one oversized `one` value is not limited, as in the source.
- DistributedIsRecovered: the event's own layout is a parameter (any lawful codec), and whether a timestamp is a representable date is a parameter too; for a timestamp that is none the model fails as the code does. The panic of the duration constructor for the smallest 64-bit number is not modelled.
- The table of event type names and the error for an unknown name: settled by reading one match.
- EncodingIsLossless: JSON objects are lists of members and numbers are their text, so number formatting is not modelled; JSON nesting inside values is unrestricted.
- The graph, search and sorting routines of petgraph and the standard library are not part of this model: they are replaced by a cycle check that peels nodes, a recursive path search, and a stable insertion sort.
- The compiled graph, the maps and the stack are values of local variables rather than heap objects; the source never shares them.
- The regex engine and serde are not part of this model: the name grammar, BCS and compact JSON text are defined here.
- Error messages, and which of several errors is reported first.
- Watching and reloading of the configuration, Ed25519 and SHA-256, RPC calls, command dispatch and printing.
- Converting JSON to and from stored data values in the CLI (`nexus_data_from_json_value` and its callers).
