/** Lowering of a data value to transaction commands, and what those commands compute. */
module Lowering {
  import opened Bcs
  import opened GreedySplit
  import opened Chunking
  import opened NexusValues
  import opened Options

  // ---------------------------------------------------------------- commands and their meaning

  datatype Argument = Input(index: nat) | Result(index: nat)

  datatype Storage = Inline | Walrus

  datatype Command =
    | MakeMoveVector(elements: seq<Argument>)
    | Append(target: Argument, source: Argument)
    | ConstructOne(storage: Storage, one: Argument)
    | ConstructMany(storage: Storage, many: Argument)

  function Tag(s: Storage): Bytes
  {
    match s case Inline => INLINE case Walrus => WALRUS
  }

  /** What a command leaves behind. Appending moves its source away. */
  datatype Value = Vector(items: Chunk) | Data(data: NexusData) | Moved | Nothing

  /** Looks up byte-string arguments, which are inputs. */
  function InputsOf(inputs: seq<Bytes>, arguments: seq<Argument>): Option<Chunk>
  {
    if arguments == [] then Some([])
    else
      var last := arguments[|arguments| - 1];
      match InputsOf(inputs, arguments[..|arguments| - 1])
      case None => None
      case Some(init) => if last.Input? && last.index < |inputs| then Some(init + [inputs[last.index]]) else None
  }

  predicate IsVector(results: seq<Value>, a: Argument)
  {
    a.Result? && a.index < |results| && results[a.index].Vector?
  }

  /** One command: `None` is a transaction that fails. */
  function Execute(inputs: seq<Bytes>, results: seq<Value>, c: Command): Option<seq<Value>>
  {
    match c
    case MakeMoveVector(elements) =>
      (match InputsOf(inputs, elements) case None => None case Some(items) => Some(results + [Vector(items)]))
    case Append(target, source) =>
      if IsVector(results, target) && IsVector(results, source) && target != source then
        var joined := results[target.index].items + results[source.index].items;
        Some(results[target.index := Vector(joined)][source.index := Moved] + [Nothing])
      else None
    case ConstructOne(storage, one) =>
      if one.Input? && one.index < |inputs| then Some(results + [Data(NexusData(Tag(storage), inputs[one.index], []))])
      else None
    case ConstructMany(storage, many) =>
      if IsVector(results, many) then
        Some(results[many.index := Moved] + [Data(NexusData(Tag(storage), [], results[many.index].items))])
      else None
  }

  function Evaluate(inputs: seq<Bytes>, commands: seq<Command>): Option<seq<Value>>
  {
    if commands == [] then Some([])
    else match Evaluate(inputs, commands[..|commands| - 1])
      case None => None
      case Some(results) => Execute(inputs, results, commands[|commands| - 1])
  }

  lemma EvaluateSnoc(inputs: seq<Bytes>, commands: seq<Command>, c: Command)
    ensures Evaluate(inputs, commands + [c]) ==
      match Evaluate(inputs, commands) case None => None case Some(results) => Execute(inputs, results, c)
  {
    assert (commands + [c])[..|commands|] == commands;
  }

  lemma {:induction false} InputsOfMonotone(inputs: seq<Bytes>, more: seq<Bytes>, arguments: seq<Argument>)
    requires InputsOf(inputs, arguments).Some?
    ensures InputsOf(inputs + more, arguments) == InputsOf(inputs, arguments)
  {
    if arguments != [] {
      InputsOfMonotone(inputs, more, arguments[..|arguments| - 1]);
    }
  }

  /** Inputs added later do not disturb the commands so far. */
  lemma {:induction false} EvaluateMonotone(inputs: seq<Bytes>, more: seq<Bytes>, commands: seq<Command>)
    requires Evaluate(inputs, commands).Some?
    ensures Evaluate(inputs + more, commands) == Evaluate(inputs, commands)
  {
    if commands != [] {
      EvaluateMonotone(inputs, more, commands[..|commands| - 1]);
      var c := commands[|commands| - 1];
      if c.MakeMoveVector? {
        InputsOfMonotone(inputs, more, c.elements);
      }
    }
  }

  /** Every command has one result. */
  lemma {:induction false} EvaluateLength(inputs: seq<Bytes>, commands: seq<Command>)
    requires Evaluate(inputs, commands).Some?
    ensures |Evaluate(inputs, commands).value| == |commands|
  {
    if commands != [] {
      EvaluateLength(inputs, commands[..|commands| - 1]);
    }
  }

  lemma FlattenOne(chunk: Chunk)
    ensures Flatten([chunk]) == chunk
  {
    FlattenSnoc([], chunk);
    assert [] + [chunk] == [chunk];
  }

  /** The chunks of an array, and the one empty chunk of an empty array. */
  function ChunksFor(many: Chunk): seq<Chunk>
    requires many == [] || Fold(Limits, many).Ok?
  {
    if many == [] then [[]] else Fold(Limits, many).value
  }

  /** The chunks to build: none at all still makes one empty vector. */
  method ChunksOf(many: Chunk) returns (r: Option<seq<Chunk>>)
    ensures r.None? <==> many != [] && Fold(Limits, many).Err?
    ensures r.Some? ==> r.value != [] && Flatten(r.value) == many && r.value == ChunksFor(many)
  {
    if many == [] {
      FlattenOne([]);
      return Some([[]]);
    }
    var split := SplitIntoChunks(many);
    if split.Err? {
      return None;
    }
    FoldIsSplit(Limits, many);
    return Some(split.value);
  }

  /** The vectors made by the commands from `start` on have the elements of these chunks. */
  ghost predicate VectorsAre(inputs: seq<Bytes>, commands: seq<Command>, start: nat, chunks: seq<Chunk>)
  {
    forall k :: start <= k < |commands| && commands[k].MakeMoveVector? ==>
      InputsOf(inputs, commands[k].elements).Some? && InputsOf(inputs, commands[k].elements).value in chunks
  }

  /** A vector of one of the chunks and an append command may follow. */
  lemma VectorsGoOn(inputs: seq<Bytes>, later: seq<Bytes>, commands: seq<Command>, elements: seq<Argument>,
      append: Command, start: nat, chunks: seq<Chunk>)
    requires VectorsAre(inputs, commands, start, chunks) && inputs <= later && append.Append?
    requires InputsOf(later, elements).Some? && InputsOf(later, elements).value in chunks
    ensures VectorsAre(later, commands + [MakeMoveVector(elements), append], start, chunks)
  {
    assert later == inputs + later[|inputs|..];
    forall k | start <= k < |commands| && commands[k].MakeMoveVector?
      ensures InputsOf(later, commands[k].elements) == InputsOf(inputs, commands[k].elements)
    {
      InputsOfMonotone(inputs, later[|inputs|..], commands[k].elements);
    }
  }

  /** Every vector of two elements or more that the commands from `start` on make is within the limits. */
  ghost predicate CommandsWithin(inputs: seq<Bytes>, commands: seq<Command>, start: nat)
  {
    forall k :: start <= k < |commands| && commands[k].MakeMoveVector? ==>
      match InputsOf(inputs, commands[k].elements)
      case None => false
      case Some(items) => |items| >= 2 ==> WithinCommandLimits(items)
  }

  lemma ChunksKeepLimits(inputs: seq<Bytes>, commands: seq<Command>, start: nat, many: Chunk)
    requires many == [] || Fold(Limits, many).Ok?
    requires VectorsAre(inputs, commands, start, ChunksFor(many))
    ensures CommandsWithin(inputs, commands, start)
  {
    SplitKeepsElements(many);
    forall chunk | chunk in ChunksFor(many) && |chunk| >= 2 ensures WithinCommandLimits(chunk) {
      var i :| 0 <= i < |ChunksFor(many)| && ChunksFor(many)[i] == chunk;
    }
  }

  // ---------------------------------------------------------------- what can be lowered

  /** The values that can be lowered: known storage, and elements that can be split. */
  predicate Lowerable(value: NexusData)
  {
    && (value.storage == INLINE || value.storage == WALRUS)
    && (value.many != [] ==> Fold(Limits, value.many).Ok?)
  }

  /** The refused values, by field: storage that is neither inline nor Walrus, or an array whose first element
      is too long for one command. */
  lemma LowerableByField(value: NexusData)
    requires forall x :: x in value.many ==> |x| <= 0x7FFF_FFFF
    ensures Lowerable(value) <==>
      && (value.storage == Ascii("inline") || value.storage == Ascii("walrus"))
      && (value.many != [] ==> |value.many[0]| <= 16_381)
  {
    StorageTags();
    FailsForFirstOnly(value.many);
  }

  /** What the commands build: an array whenever there are many elements or none at all. */
  function Normalized(value: NexusData): NexusData
  {
    if value.many != [] || value.one == [] then NexusData(value.storage, [], value.many)
    else NexusData(value.storage, value.one, [])
  }

  /** How many commands a value takes: one for a single byte string; for an array a vector for each chunk, an
      append for each but the first, and one more. */
  function CommandCount(value: NexusData): nat
    requires Lowerable(value)
  {
    if value.many == [] && value.one != [] then 1 else 2 * |ChunksFor(value.many)|
  }

  /** The storage a tag stands for. */
  function StorageOf(tag: Bytes): (s: Storage)
    requires tag == INLINE || tag == WALRUS
    ensures Tag(s) == tag && (s.Inline? <==> tag == Ascii("inline"))
  {
    StorageTags();
    if tag == INLINE then Inline else Walrus
  }

  /** The command constructs what the value needs, in the value's own storage: one byte string only if just that
      part is filled. */
  predicate Constructs(c: Command, value: NexusData)
    requires Lowerable(value)
  {
    match c
    case ConstructOne(storage, _) => value.many == [] && value.one != [] && storage == StorageOf(value.storage)
    case ConstructMany(storage, _) => (value.many != [] || value.one == []) && storage == StorageOf(value.storage)
    case _ => false
  }

  lemma NormalizedExactly(value: NexusData)
    ensures Normalized(value) == value <==> value.one == [] || value.many == []
  {
  }

  // ---------------------------------------------------------------- the builder

  class PtbBuilder {
    var inputs: seq<Bytes>
    var commands: seq<Command>

    constructor ()
      ensures inputs == [] && commands == []
    {
      inputs, commands := [], [];
    }

    /** The results of the commands so far. */
    ghost function Results(): Option<seq<Value>>
      reads this
    {
      Evaluate(inputs, commands)
    }

    /** Adds a byte string as an input. */
    method AddInput(value: Bytes) returns (a: Argument)
      requires Results().Some?
      modifies this
      ensures commands == old(commands) && inputs == old(inputs) + [value]
      ensures Results() == old(Results())
      ensures a == Input(|old(inputs)|)
    {
      EvaluateMonotone(inputs, [value], commands);
      a := Input(|inputs|);
      inputs := inputs + [value];
    }

    method AddCommand(c: Command) returns (a: Argument)
      requires Results().Some?
      modifies this
      ensures commands == old(commands) + [c] && inputs == old(inputs)
      ensures Results() == Execute(inputs, old(Results()).value, c)
      ensures a == Result(|old(commands)|)
    {
      EvaluateSnoc(inputs, commands, c);
      a := Result(|commands|);
      commands := commands + [c];
    }

    /** Adds the elements of a chunk as inputs and a vector made of them. */
    method AddVector(chunk: Chunk) returns (a: Argument)
      requires Results().Some?
      modifies this
      ensures Results() == Some(old(Results()).value + [Vector(chunk)])
      ensures a == Result(|old(commands)|) && old(inputs) <= inputs
      ensures |commands| == |old(commands)| + 1 && commands[..|old(commands)|] == old(commands)
      ensures commands[|old(commands)|].MakeMoveVector?
      ensures InputsOf(inputs, commands[|old(commands)|].elements) == Some(chunk)
    {
      var arguments: seq<Argument> := [];
      for i := 0 to |chunk|
        invariant commands == old(commands) && Results() == old(Results()) && old(inputs) <= inputs
        invariant InputsOf(inputs, arguments) == Some(chunk[..i])
      {
        ghost var before := inputs;
        InputsOfMonotone(inputs, [chunk[i]], arguments);
        var argument := AddInput(chunk[i]);
        assert (arguments + [argument])[..|arguments|] == arguments;
        arguments := arguments + [argument];
        assert chunk[..i + 1] == chunk[..i] + [chunk[i]];
      }
      assert chunk[..|chunk|] == chunk;
      a := AddCommand(MakeMoveVector(arguments));
    }

    /** Makes a vector of a chunk and moves its elements to the end of another vector. */
    method AppendChunk(whole: Argument, chunk: Chunk)
      requires Results().Some? && IsVector(Results().value, whole)
      modifies this
      ensures Results().Some? && IsVector(Results().value, whole)
      ensures Results().value[whole.index].items == old(Results()).value[whole.index].items + chunk
      ensures Results().value[..whole.index] == old(Results()).value[..whole.index]
      ensures old(inputs) <= inputs
      ensures exists elements, source ::
        InputsOf(inputs, elements) == Some(chunk)
        && commands == old(commands) + [MakeMoveVector(elements), Append(whole, source)]
    {
      EvaluateLength(inputs, commands);
      ghost var before := commands;
      var source := AddVector(chunk);
      ghost var elements := commands[|before|].elements;
      assert commands == before + [MakeMoveVector(elements)];
      EvaluateLength(inputs, commands);
      assert IsVector(Results().value, whole) && IsVector(Results().value, source);
      var _ := AddCommand(Append(whole, source));
      assert commands == before + [MakeMoveVector(elements), Append(whole, source)];
    }

    /** `whole` is a vector of `items` after the results `before`. */
    ghost predicate Gathered(before: seq<Value>, whole: Argument, items: Chunk)
      reads this
    {
      && Results().Some? && whole == Result(|before|)
      && |before| < |Results().value| && Results().value[|before|] == Vector(items)
      && Results().value[..|before|] == before
    }

    /** One more chunk is gathered; all vectors so far are of the given chunks. */
    method GatherChunk(whole: Argument, chunk: Chunk, ghost before: seq<Value>, ghost items: Chunk, ghost start: nat,
        ghost chunks: seq<Chunk>)
      requires Gathered(before, whole, items) && VectorsAre(inputs, commands, start, chunks) && chunk in chunks
      modifies this
      ensures Gathered(before, whole, items + chunk) && VectorsAre(inputs, commands, start, chunks)
      ensures old(commands) <= commands && |commands| == |old(commands)| + 2
    {
      AppendChunk(whole, chunk);
      ghost var elements, source :| InputsOf(inputs, elements) == Some(chunk)
        && commands == old(commands) + [MakeMoveVector(elements), Append(whole, source)];
      VectorsGoOn(old(inputs), inputs, old(commands), elements, Append(whole, source), start, chunks);
    }

    /** The vector of the first chunk. */
    method StartGathering(chunk: Chunk, ghost chunks: seq<Chunk>) returns (whole: Argument)
      requires Results().Some? && chunk in chunks
      modifies this
      ensures Gathered(old(Results()).value, whole, chunk)
      ensures old(commands) <= commands && |commands| == |old(commands)| + 1
      ensures VectorsAre(inputs, commands, |old(commands)|, chunks)
    {
      EvaluateLength(inputs, commands);
      whole := AddVector(chunk);
    }

    /** Builds the first chunk and appends the others to it one by one. */
    method AddChunks(chunks: seq<Chunk>) returns (whole: Argument)
      requires Results().Some? && chunks != []
      modifies this
      ensures Gathered(old(Results()).value, whole, Flatten(chunks))
      ensures old(commands) <= commands && |commands| == |old(commands)| + 2 * |chunks| - 1
      ensures VectorsAre(inputs, commands, |old(commands)|, chunks)
    {
      ghost var before, start, items := Results().value, commands, chunks[0];
      whole := StartGathering(chunks[0], chunks);
      FlattenOne(chunks[0]);
      assert chunks[..1] == [chunks[0]];
      for i := 1 to |chunks|
        invariant Gathered(before, whole, items) && items == Flatten(chunks[..i])
        invariant start <= commands && |commands| == |start| + 2 * i - 1
        invariant VectorsAre(inputs, commands, |start|, chunks)
      {
        GatherChunk(whole, chunks[i], before, items, |start|, chunks);
        items := items + chunks[i];
        FlattenSnoc(chunks[..i], chunks[i]);
        assert chunks[..i + 1] == chunks[..i] + [chunks[i]];
      }
      assert chunks[..|chunks|] == chunks;
    }

    /** The newest result is `value`, and older results are as they were. */
    ghost predicate Built(before: seq<Value>, a: Argument, value: NexusData)
      reads this
    {
      && Results().Some? && |Results().value| > |before|
      && a == Result(|Results().value| - 1)
      && Results().value[|Results().value| - 1] == Data(value)
      && before <= Results().value
    }

    method AddMany(storage: Storage, many: Chunk) returns (r: Option<Argument>)
      requires Results().Some?
      modifies this
      ensures r.None? <==> many != [] && Fold(Limits, many).Err?
      ensures r.None? ==> inputs == old(inputs) && commands == old(commands)
      ensures r.Some? ==> Built(old(Results()).value, r.value, NexusData(Tag(storage), [], many))
      ensures r.Some? ==> old(commands) <= commands && |commands| == |old(commands)| + 2 * |ChunksFor(many)|
      ensures r.Some? ==> CommandsWithin(inputs, commands, |old(commands)|)
      ensures r.Some? ==> commands[|commands| - 1].ConstructMany? && commands[|commands| - 1].storage == storage
    {
      var chunks := ChunksOf(many);
      if chunks.None? {
        return None;
      }
      ghost var start := Results().value;
      var whole := AddChunks(chunks.value);
      ghost var results := Results().value;
      EvaluateLength(inputs, commands);
      var a := AddCommand(ConstructMany(storage, whole));
      assert results[whole.index := Moved][..whole.index] == start;
      ChunksKeepLimits(inputs, commands, |old(commands)|, many);
      return Some(a);
    }

    method AddOne(storage: Storage, one: Bytes) returns (a: Argument)
      requires Results().Some?
      modifies this
      ensures Built(old(Results()).value, a, NexusData(Tag(storage), one, []))
      ensures old(commands) <= commands && |commands| == |old(commands)| + 1
      ensures CommandsWithin(inputs, commands, |old(commands)|)
      ensures commands[|commands| - 1].ConstructOne? && commands[|commands| - 1].storage == storage
    {
      var input := AddInput(one);
      EvaluateLength(inputs, commands);
      a := AddCommand(ConstructOne(storage, input));
    }

    /** Lowers a data value. Unknown storage and oversized elements are refused before anything is
        added; otherwise evaluating the commands gives the value back as the newest result, exactly when at
        most one of its two parts is filled. */
    method AddNexusData(value: NexusData) returns (r: Option<Argument>)
      requires Results().Some?
      modifies this
      ensures r.None? <==> !Lowerable(value)
      ensures r.None? ==> inputs == old(inputs) && commands == old(commands)
      ensures r.Some? ==> Built(old(Results()).value, r.value, Normalized(value))
      ensures r.Some? ==> (Built(old(Results()).value, r.value, value) <==> value.one == [] || value.many == [])
      ensures r.Some? ==> old(commands) <= commands && CommandsWithin(inputs, commands, |old(commands)|)
      ensures r.Some? ==> |commands| - |old(commands)| == CommandCount(value)
      ensures r.Some? ==> Constructs(commands[|commands| - 1], value)
    {
      if value.storage != INLINE && value.storage != WALRUS {
        return None;
      }
      var storage := StorageOf(value.storage);
      NormalizedExactly(value);
      if value.many != [] || value.one == [] {
        r := AddMany(storage, value.many);
      } else {
        var a := AddOne(storage, value.one);
        r := Some(a);
      }
    }
  }
}
