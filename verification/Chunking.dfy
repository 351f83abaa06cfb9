/** Splitting the elements of an array into vector-building commands that respect the transaction's limits. */
module Chunking {
  import opened Bcs
  import opened GreedySplit

  const MAX_PURE_INPUT_BYTES: nat := 16_384
  const MAX_CHUNK_ARGS: nat := 64

  type Chunk = seq<Bytes>

  function ChunkBytes(chunk: Chunk): Bytes
  {
    SeqCodec(BytesCodec).encode(chunk)
  }

  /** The test on a candidate chunk. The encoder is consulted only while the chunk is short enough, and
      refuses byte strings longer than the format allows. */
  function Limits(chunk: Chunk): Verdict
  {
    if |chunk| > MAX_CHUNK_ARGS then Over
    else if !SeqCodec(BytesCodec).valid(chunk) then Refused
    else if |ChunkBytes(chunk)| > MAX_PURE_INPUT_BYTES then Over
    else Within
  }

  /** Pops the chunk under construction, tries the element on it, and pushes back one chunk or two. */
  method PushElement(chunks: seq<Chunk>, value: Bytes) returns (r: Result<seq<Chunk>>)
    ensures r == AddElement(Limits, chunks, value)
  {
    var rest := chunks;
    var candidate: Chunk := [];
    if rest != [] {
      candidate, rest := rest[|rest| - 1], rest[..|rest| - 1];
    }
    ghost var popped := candidate;
    candidate := candidate + [value];
    assert popped == LastOf(chunks) && rest == FrontOf(chunks);
    if |candidate| <= MAX_CHUNK_ARGS && !SeqCodec(BytesCodec).valid(candidate) {
      return Err(NotEncodable);
    }
    if |candidate| > MAX_CHUNK_ARGS || |ChunkBytes(candidate)| > MAX_PURE_INPUT_BYTES {
      var last := candidate[|candidate| - 1];
      candidate := candidate[..|candidate| - 1];
      assert candidate == popped && last == value;
      assert Limits(popped + [value]) == Over;
      if candidate == [] {
        return Err(ElementTooLarge);
      }
      FrontLast(chunks);
      rest := rest + [candidate];
      rest := rest + [[last]];
    } else {
      rest := rest + [candidate];
    }
    return Ok(rest);
  }

  /** The fold over the elements. */
  method SplitIntoChunks(many: Chunk) returns (r: Result<seq<Chunk>>)
    ensures r == Fold(Limits, many)
  {
    r := Ok([]);
    for i := 0 to |many|
      invariant r == Fold(Limits, many[..i]) && r.Ok?
    {
      FoldSnoc(Limits, many, i);
      r := PushElement(r.value, many[i]);
      if r.Err? {
        FoldFails(Limits, many, i + 1);
        return;
      }
    }
    assert many[..|many|] == many;
  }

  // ---------------------------------------------------------------- the limits

  lemma PartSmaller(before: Chunk, part: Chunk, after: Chunk)
    ensures |ChunkBytes(part)| <= |ChunkBytes(before + part + after)|
  {
    EncodeAllConcat(BytesCodec, before + part, after);
    EncodeAllConcat(BytesCodec, before, part);
    UlebMonotone(|part|, |before + part + after|);
  }

  lemma LimitsPartClosed()
    ensures PartClosed(Limits)
  {
    forall before: Chunk, part: Chunk, after: Chunk
      ensures PartOk(Limits, before, part, after)
    {
      LimitsPart(before, part, after);
    }
  }

  lemma LimitsPart(before: Chunk, part: Chunk, after: Chunk)
    ensures Limits(before + part + after) == Within ==> Limits(part) == Within
  {
    var all := before + part + after;
    PartSmaller(before, part, after);
    assert forall i :: 0 <= i < |part| ==> all[|before| + i] == part[i];
  }

  lemma LimitsRefuseElements()
    ensures RefusesElementsOnly(Limits)
  {
    forall chunk: Chunk
      ensures RefusalOk(Limits, chunk)
    {
      if EachWithin(Limits, chunk) {
        forall i | 0 <= i < |chunk| ensures BytesCodec.valid(chunk[i]) {
          assert Limits([chunk[i]]) == Within;
          assert [chunk[i]][0] == chunk[i];
        }
      }
    }
  }

  // ---------------------------------------------------------------- the limits, as numbers

  /** A chunk of at most 64 elements whose encoding has at most 16,384 bytes. */
  ghost predicate WithinCommandLimits(chunk: Chunk)
  {
    |chunk| <= 64 && |Uleb(|chunk|) + Prefixed(chunk)| <= 16_384
  }

  lemma ChunkBytesByField(chunk: Chunk)
    ensures ChunkBytes(chunk) == Uleb(|chunk|) + Prefixed(chunk)
  {
    EncodeAllPrefixes(chunk);
  }

  lemma {:induction false} ElementsAreShort(chunk: Chunk, i: nat)
    requires i < |chunk|
    ensures |chunk[i]| <= |Prefixed(chunk)|
  {
    if i > 0 {
      ElementsAreShort(chunk[1..], i - 1);
    }
  }

  /** The limits are those two numbers; the encoder refuses only what is far beyond them. */
  lemma LimitsByNumber(chunk: Chunk)
    ensures Limits(chunk) == Within <==> WithinCommandLimits(chunk)
    ensures Limits(chunk) == Refused <==> |chunk| <= 64 && exists x :: x in chunk && |x| > 0x7FFF_FFFF
  {
    ChunkBytesByField(chunk);
    if WithinCommandLimits(chunk) {
      forall i | 0 <= i < |chunk| ensures BytesCodec.valid(chunk[i]) {
        ElementsAreShort(chunk, i);
      }
    }
  }

  /** An element fits a command alone exactly when it has at most 16,381 bytes: one more byte is for the number
      of elements, two for the length. */
  lemma FitsAlone(x: Bytes)
    ensures Limits([x]) == Within <==> |x| <= 16_381
    ensures Limits([x]) == Over <==> 16_381 < |x| <= 0x7FFF_FFFF
  {
    LimitsByNumber([x]);
    assert [x][1..] == [] && Prefixed([x]) == Uleb(|x|) + x;
    assert |Uleb(1)| == 1;
    TwoByteLength(|x|);
  }

  lemma TwoByteLength(n: nat)
    ensures 0x80 <= n < 0x4000 ==> |Uleb(n)| == 2
    ensures n >= 0x4000 ==> |Uleb(n)| > 2
    ensures n < 0x80 ==> |Uleb(n)| == 1
  {
    assert n >= 0x80 ==> |Uleb(n)| == 1 + |Uleb(n / 0x80)|;
    assert n >= 0x4000 ==> n / 0x80 >= 0x80;
  }

  // ---------------------------------------------------------------- main results

  /** Any successful split keeps the elements in order; a chunk of two elements or more is within the
      limits of one command, whatever the sizes of the elements; and the first element of a chunk did not
      fit the chunk before. */
  lemma SplitKeepsElements(many: Chunk)
    ensures match Fold(Limits, many)
      case Err(_) => true
      case Ok(chunks) =>
        && Flatten(chunks) == many && NoneEmpty(chunks)
        && (forall i :: 0 <= i < |chunks| && |chunks[i]| >= 2 ==> WithinCommandLimits(chunks[i]))
        && forall i :: 0 <= i < |chunks| - 1 ==> !WithinCommandLimits(chunks[i] + [chunks[i + 1][0]])
  {
    FoldIsSplit(Limits, many);
    FoldSeparates(Limits, many);
    if Fold(Limits, many).Ok? {
      var chunks := Fold(Limits, many).value;
      forall i | 0 <= i < |chunks| && |chunks[i]| >= 2 ensures WithinCommandLimits(chunks[i]) {
        LimitsByNumber(chunks[i]);
      }
      forall i | 0 <= i < |chunks| - 1 ensures !WithinCommandLimits(chunks[i] + [chunks[i + 1][0]]) {
        assert SeparateAt(Limits, chunks, i);
        LimitsByNumber(chunks[i] + [chunks[i + 1][0]]);
      }
    }
  }

  /** No element is longer than what fits a command alone. */
  ghost predicate NoneTooLong(many: Chunk)
  {
    forall x :: x in many ==> |x| <= 16_381
  }

  lemma EachWithinByLength(many: Chunk)
    ensures EachWithin(Limits, many) <==> NoneTooLong(many)
  {
    forall x: Bytes ensures Limits([x]) == Within <==> |x| <= 16_381 {
      FitsAlone(x);
    }
  }

  lemma AllWithinByNumber(chunks: seq<Chunk>)
    ensures AllWithin(Limits, chunks) <==> forall chunk :: chunk in chunks ==> WithinCommandLimits(chunk)
  {
    forall chunk ensures Limits(chunk) == Within <==> WithinCommandLimits(chunk) {
      LimitsByNumber(chunk);
    }
  }

  /** If every element fits a command alone, splitting never fails, every chunk is within the limits, and
      no other way of cutting the elements into consecutive chunks needs fewer commands. */
  lemma SplitIsOptimal(many: Chunk, other: seq<Chunk>)
    requires forall x :: x in many ==> |x| <= 16_381
    ensures Fold(Limits, many).Ok?
    ensures forall chunk :: chunk in Fold(Limits, many).value ==> WithinCommandLimits(chunk)
    ensures Flatten(other) == many && (forall chunk :: chunk in other ==> WithinCommandLimits(chunk)) ==>
      |Fold(Limits, many).value| <= |other|
  {
    EachWithinByLength(many);
    LimitsPartClosed();
    LimitsRefuseElements();
    FoldSucceeds(Limits, many);
    AllWithinByNumber(Fold(Limits, many).value);
    AllWithinByNumber(other);
    if Flatten(other) == many && AllWithin(Limits, other) {
      GreedyIsOptimal(Limits, many, other);
    }
  }

  /** Splitting keeps every chunk within the limits exactly when every element fits a command alone. */
  lemma WithinLimitsExactly(many: Chunk)
    ensures (Fold(Limits, many).Ok? && forall chunk :: chunk in Fold(Limits, many).value ==> WithinCommandLimits(chunk))
            <==> forall x :: x in many ==> |x| <= 16_381
  {
    EachWithinByLength(many);
    LimitsPartClosed();
    LimitsRefuseElements();
    if EachWithin(Limits, many) {
      FoldSucceeds(Limits, many);
    }
    if Fold(Limits, many).Ok? {
      AllWithinByNumber(Fold(Limits, many).value);
      if AllWithin(Limits, Fold(Limits, many).value) {
        FoldIsSplit(Limits, many);
        SplitElementsWithin(Limits, Fold(Limits, many).value);
      }
    }
  }

  /** Once there is a chunk, a step never raises the oversize error. */
  lemma LaterElementsPass(many: Chunk)
    requires |many| > 1
    ensures Fold(Limits, many) == Err(ElementTooLarge) <==> Fold(Limits, many[..|many| - 1]) == Err(ElementTooLarge)
  {
    var init, value := many[..|many| - 1], many[|many| - 1];
    FoldLast(Limits, many);
    FoldIsSplit(Limits, init);
    if Fold(Limits, init).Ok? {
      StepNotTooLarge(init, Fold(Limits, init).value, value);
    }
  }

  lemma StepNotTooLarge(init: Chunk, chunks: seq<Chunk>, value: Bytes)
    requires IsSplit(Limits, init, chunks) && init != []
    ensures AddElement(Limits, chunks, value) != Err(ElementTooLarge)
  {
  }

  /** The oversize error is raised exactly when the first element alone is too big. A later element that
      is too big becomes a chunk of its own. */
  lemma {:induction false} OversizeIsFirstElement(many: Chunk)
    ensures Fold(Limits, many) == Err(ElementTooLarge) <==> many != [] && 16_381 < |many[0]| <= 0x7FFF_FFFF
  {
    if |many| > 1 {
      LaterElementsPass(many);
      OversizeIsFirstElement(many[..|many| - 1]);
    } else if |many| == 1 {
      FitsAlone(many[0]);
      FoldLast(Limits, many);
      assert many[..0] == [] && LastOf<Bytes>([]) + [many[0]] == [many[0]];
    }
  }

  /** Every element is short enough for its length to be encoded. */
  ghost predicate Encodable(many: Chunk)
  {
    forall x :: x in many ==> |x| <= 0x7FFF_FFFF
  }

  lemma StepEncodes(many: Chunk, chunks: seq<Chunk>, value: Bytes)
    requires Flatten(chunks) == many && |value| <= 0x7FFF_FFFF && Encodable(many)
    ensures AddElement(Limits, chunks, value) != Err(NotEncodable)
  {
    var candidate := LastOf(chunks) + [value];
    LimitsByNumber(candidate);
    forall x | x in candidate ensures |x| <= 0x7FFF_FFFF {
      if x != value {
        FrontLast(chunks);
        assert x in many;
      }
    }
  }

  lemma {:induction false} NeverRefused(many: Chunk)
    requires Encodable(many)
    ensures Fold(Limits, many) != Err(NotEncodable)
  {
    if many != [] {
      var init, value := many[..|many| - 1], many[|many| - 1];
      assert value in many && Encodable(init);
      NeverRefused(init);
      FoldLast(Limits, many);
      FoldIsSplit(Limits, init);
      if Fold(Limits, init).Ok? {
        StepEncodes(init, Fold(Limits, init).value, value);
      }
    }
  }

  /** Among elements that can be encoded at all, only the first can make the split fail. */
  lemma FailsForFirstOnly(many: Chunk)
    requires Encodable(many)
    ensures Fold(Limits, many).Err? <==> many != [] && |many[0]| > 16_381
  {
    OversizeIsFirstElement(many);
    NeverRefused(many);
  }
}
