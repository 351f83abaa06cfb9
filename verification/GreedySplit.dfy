/** Greedy splitting of a sequence into consecutive chunks, for any limit that parts of an admissible
    chunk respect too. */
module GreedySplit {

  datatype Verdict = Within | Over | Refused
  datatype SplitError = ElementTooLarge | NotEncodable
  datatype Result<+T> = Ok(value: T) | Err(error: SplitError)

  function Flatten<T>(chunks: seq<seq<T>>): seq<T>
  {
    if chunks == [] then [] else Flatten(chunks[..|chunks| - 1]) + chunks[|chunks| - 1]
  }

  /** The chunk under construction: the last one, if any. */
  function LastOf<T>(chunks: seq<seq<T>>): seq<T>
  {
    if chunks == [] then [] else chunks[|chunks| - 1]
  }

  function FrontOf<T>(chunks: seq<seq<T>>): seq<seq<T>>
  {
    if chunks == [] then [] else chunks[..|chunks| - 1]
  }

  /** One step: the element joins the last chunk, or starts a new one when the limits forbid that. */
  function AddElement<T>(limits: seq<T> -> Verdict, chunks: seq<seq<T>>, value: T): Result<seq<seq<T>>>
  {
    match limits(LastOf(chunks) + [value])
    case Refused => Err(NotEncodable)
    case Over => if LastOf(chunks) == [] then Err(ElementTooLarge) else Ok(chunks + [[value]])
    case Within => Ok(FrontOf(chunks) + [LastOf(chunks) + [value]])
  }

  function Fold<T>(limits: seq<T> -> Verdict, many: seq<T>): Result<seq<seq<T>>>
  {
    if many == [] then Ok([])
    else match Fold(limits, many[..|many| - 1])
      case Err(e) => Err(e)
      case Ok(chunks) => AddElement(limits, chunks, many[|many| - 1])
  }

  lemma FoldSnoc<T>(limits: seq<T> -> Verdict, many: seq<T>, i: nat)
    requires i < |many|
    ensures Fold(limits, many[..i + 1]) ==
      match Fold(limits, many[..i]) case Err(e) => Err(e) case Ok(chunks) => AddElement(limits, chunks, many[i])
  {
    assert many[..i + 1][..i] == many[..i] && many[..i + 1][i] == many[i];
  }

  /** An error is final. */
  lemma {:induction false} FoldFails<T>(limits: seq<T> -> Verdict, many: seq<T>, i: nat)
    requires i <= |many| && Fold(limits, many[..i]).Err?
    ensures Fold(limits, many) == Fold(limits, many[..i])
    decreases |many|
  {
    if i < |many| {
      var init := many[..|many| - 1];
      assert init[..i] == many[..i];
      FoldFails(limits, init, i);
    } else {
      assert many[..i] == many;
    }
  }

  // ---------------------------------------------------------------- what the fold delivers

  ghost predicate NoneEmpty<T>(chunks: seq<seq<T>>)
  {
    forall i :: 0 <= i < |chunks| ==> chunks[i] != []
  }

  ghost predicate AllWithin<T>(limits: seq<T> -> Verdict, chunks: seq<seq<T>>)
  {
    forall i :: 0 <= i < |chunks| ==> limits(chunks[i]) == Within
  }

  /** Only a chunk of one element can break the limits, and the first chunk never does. */
  ghost predicate LongWithin<T>(limits: seq<T> -> Verdict, chunks: seq<seq<T>>)
  {
    forall i :: 0 <= i < |chunks| && (i == 0 || |chunks[i]| >= 2) ==> limits(chunks[i]) == Within
  }

  lemma FrontLast<T>(chunks: seq<seq<T>>)
    requires chunks != []
    ensures chunks == FrontOf(chunks) + [LastOf(chunks)]
    ensures Flatten(chunks) == Flatten(FrontOf(chunks)) + LastOf(chunks)
  {
  }

  lemma FlattenSnoc<T>(chunks: seq<seq<T>>, last: seq<T>)
    ensures Flatten(chunks + [last]) == Flatten(chunks) + last
  {
    assert (chunks + [last])[..|chunks|] == chunks;
  }

  /** The chunks hold the elements, in order. */
  ghost predicate IsSplit<T>(limits: seq<T> -> Verdict, many: seq<T>, chunks: seq<seq<T>>)
  {
    && Flatten(chunks) == many && NoneEmpty(chunks) && LongWithin(limits, chunks)
    && (chunks == [] <==> many == [])
  }

  lemma ExtendKeeps<T>(limits: seq<T> -> Verdict, many: seq<T>, chunks: seq<seq<T>>, value: T)
    requires IsSplit(limits, many, chunks) && limits(LastOf(chunks) + [value]) == Within
    ensures IsSplit(limits, many + [value], FrontOf(chunks) + [LastOf(chunks) + [value]])
  {
    FlattenSnoc(FrontOf(chunks), LastOf(chunks) + [value]);
    if chunks != [] {
      FrontLast(chunks);
    }
  }

  lemma StartKeeps<T>(limits: seq<T> -> Verdict, many: seq<T>, chunks: seq<seq<T>>, value: T)
    requires IsSplit(limits, many, chunks) && chunks != []
    ensures IsSplit(limits, many + [value], chunks + [[value]])
  {
    FlattenSnoc(chunks, [value]);
  }

  lemma AddKeeps<T>(limits: seq<T> -> Verdict, many: seq<T>, chunks: seq<seq<T>>, value: T)
    requires IsSplit(limits, many, chunks) && AddElement(limits, chunks, value).Ok?
    ensures IsSplit(limits, many + [value], AddElement(limits, chunks, value).value)
  {
    if limits(LastOf(chunks) + [value]) == Within {
      ExtendKeeps(limits, many, chunks, value);
    } else {
      StartKeeps(limits, many, chunks, value);
    }
  }

  lemma FoldLast<T>(limits: seq<T> -> Verdict, many: seq<T>)
    requires many != []
    ensures Fold(limits, many) ==
      match Fold(limits, many[..|many| - 1]) case Err(e) => Err(e)
          case Ok(chunks) => AddElement(limits, chunks, many[|many| - 1])
  {
  }

  lemma PrefixIsSplit<T>(limits: seq<T> -> Verdict, init: seq<T>, value: T, before: Result<seq<seq<T>>>,
      after: Result<seq<seq<T>>>)
    requires before.Ok? ==> IsSplit(limits, init, before.value)
    requires after == match before case Err(e) => Err(e) case Ok(chunks) => AddElement(limits, chunks, value)
    ensures after.Ok? ==> before.Ok? && IsSplit(limits, init + [value], after.value)
  {
    if after.Ok? {
      AddKeeps(limits, init, before.value, value);
    }
  }

  /** Nothing is lost, reordered or invented. */
  lemma {:induction false} FoldIsSplit<T>(limits: seq<T> -> Verdict, many: seq<T>)
    ensures Fold(limits, many).Ok? ==> IsSplit(limits, many, Fold(limits, many).value)
  {
    if many != [] {
      var init, value := many[..|many| - 1], many[|many| - 1];
      FoldIsSplit(limits, init);
      FoldLast(limits, many);
      PrefixIsSplit(limits, init, value, Fold(limits, init), Fold(limits, many));
      assert many == init + [value];
    }
  }

  /** The element that starts the next chunk did not fit this one. */
  ghost predicate SeparateAt<T>(limits: seq<T> -> Verdict, chunks: seq<seq<T>>, i: nat)
    requires i < |chunks| - 1
  {
    chunks[i + 1] != [] && limits(chunks[i] + [chunks[i + 1][0]]) == Over
  }

  ghost predicate Separate<T>(limits: seq<T> -> Verdict, chunks: seq<seq<T>>)
  {
    forall i :: 0 <= i < |chunks| - 1 ==> SeparateAt(limits, chunks, i)
  }

  lemma AddSeparates<T>(limits: seq<T> -> Verdict, many: seq<T>, chunks: seq<seq<T>>, value: T)
    requires IsSplit(limits, many, chunks) && AddElement(limits, chunks, value).Ok? && Separate(limits, chunks)
    ensures Separate(limits, AddElement(limits, chunks, value).value)
  {
    var last, after := LastOf(chunks), AddElement(limits, chunks, value).value;
    forall i | 0 <= i < |after| - 1 ensures SeparateAt(limits, after, i) {
      if i < |chunks| - 1 {
        assert SeparateAt(limits, chunks, i);
      }
    }
  }

  lemma {:induction false} FoldSeparates<T>(limits: seq<T> -> Verdict, many: seq<T>)
    ensures Fold(limits, many).Ok? ==> Separate(limits, Fold(limits, many).value)
  {
    if many != [] {
      var init, value := many[..|many| - 1], many[|many| - 1];
      FoldSeparates(limits, init);
      FoldIsSplit(limits, init);
      FoldLast(limits, many);
      if Fold(limits, many).Ok? {
        AddSeparates(limits, init, Fold(limits, init).value, value);
      }
    }
  }

  // ---------------------------------------------------------------- optimality

  ghost predicate PartOk<T>(limits: seq<T> -> Verdict, before: seq<T>, part: seq<T>, after: seq<T>)
  {
    limits(before + part + after) == Within ==> limits(part) == Within
  }

  ghost predicate RefusalOk<T>(limits: seq<T> -> Verdict, chunk: seq<T>)
  {
    EachWithin(limits, chunk) ==> limits(chunk) != Refused
  }

  /** Parts of an admissible chunk are admissible. */
  ghost predicate PartClosed<T(!new)>(limits: seq<T> -> Verdict)
  {
    forall before, part, after :: PartOk(limits, before, part, after)
  }

  /** No chunk is refused if its elements are admissible on their own. */
  ghost predicate RefusesElementsOnly<T(!new)>(limits: seq<T> -> Verdict)
  {
    forall chunk :: RefusalOk(limits, chunk)
  }

  ghost predicate EachWithin<T>(limits: seq<T> -> Verdict, many: seq<T>)
  {
    forall i :: 0 <= i < |many| ==> limits([many[i]]) == Within
  }

  lemma PartWithin<T(!new)>(limits: seq<T> -> Verdict, before: seq<T>, part: seq<T>, after: seq<T>, all: seq<T>)
    requires PartClosed(limits) && all == before + part + after && limits(all) == Within
    ensures limits(part) == Within
  {
    assert PartOk(limits, before, part, after);
  }

  lemma LastWithin<T>(limits: seq<T> -> Verdict, chunks: seq<seq<T>>)
    requires EachWithin(limits, Flatten(chunks))
    ensures EachWithin(limits, LastOf(chunks))
  {
    if chunks != [] {
      FrontLast(chunks);
      var all, last := Flatten(chunks), LastOf(chunks);
      forall i | 0 <= i < |last| ensures limits([last[i]]) == Within {
        assert last[i] == all[|all| - |last| + i];
      }
    }
  }

  /** If every element is admissible alone, the fold succeeds within the limits. */
  lemma {:induction false} FoldSucceeds<T(!new)>(limits: seq<T> -> Verdict, many: seq<T>)
    requires RefusesElementsOnly(limits) && EachWithin(limits, many)
    ensures Fold(limits, many).Ok? && AllWithin(limits, Fold(limits, many).value)
  {
    if many != [] {
      var init, value := many[..|many| - 1], many[|many| - 1];
      FoldSucceeds(limits, init);
      FoldIsSplit(limits, init);
      var before := Fold(limits, init).value;
      LastWithin(limits, before);
      AddSucceeds(limits, before, value);
    }
  }

  lemma AddSucceeds<T(!new)>(limits: seq<T> -> Verdict, chunks: seq<seq<T>>, value: T)
    requires RefusesElementsOnly(limits) && AllWithin(limits, chunks) && NoneEmpty(chunks)
    requires EachWithin(limits, LastOf(chunks)) && limits([value]) == Within
    ensures AddElement(limits, chunks, value).Ok? && AllWithin(limits, AddElement(limits, chunks, value).value)
  {
    var candidate := LastOf(chunks) + [value];
    assert EachWithin(limits, candidate);
    assert RefusalOk(limits, candidate);
    if LastOf(chunks) == [] {
      assert candidate == [value];
    }
  }

  lemma {:induction false} SplitElementsWithin<T(!new)>(limits: seq<T> -> Verdict, split: seq<seq<T>>)
    requires PartClosed(limits) && AllWithin(limits, split)
    ensures EachWithin(limits, Flatten(split))
  {
    if split != [] {
      var start, tail := FrontOf(split), LastOf(split);
      SplitElementsWithin(limits, start);
      var all := Flatten(start) + tail;
      forall i | 0 <= i < |all| ensures limits([all[i]]) == Within {
        if i >= |Flatten(start)| {
          var k := i - |Flatten(start)|;
          PartWithin(limits, tail[..k], [tail[k]], tail[k + 1..], tail);
        }
      }
    }
  }

  /** If the last chunk is no longer than the tail of another split of the same elements, an element that
      fits the tail joins the chunk. */
  lemma FitsTailFitsChunk<T(!new)>(limits: seq<T> -> Verdict, chunks: seq<seq<T>>, front: seq<T>, tail: seq<T>,
      value: T)
    requires PartClosed(limits) && chunks != [] && Flatten(chunks) == front + tail
    requires |LastOf(chunks)| <= |tail| && limits(tail + [value]) == Within
    ensures limits(LastOf(chunks) + [value]) == Within
  {
    var last := LastOf(chunks);
    var all := front + tail;
    var k := |tail| - |last|;
    assert last == all[|all| - |last|..] == tail[k..];
    assert tail + [value] == tail[..k] + (last + [value]) + [];
    PartWithin(limits, tail[..k], last + [value], [], tail + [value]);
  }

  /** No way of cutting the elements into consecutive chunks within the limits uses fewer chunks; among
      those that use equally many, none has a shorter last chunk. */
  lemma {:induction false} GreedyIsOptimal<T(!new)>(limits: seq<T> -> Verdict, many: seq<T>, split: seq<seq<T>>)
    requires PartClosed(limits) && RefusesElementsOnly(limits)
    requires AllWithin(limits, split) && Flatten(split) == many
    ensures Fold(limits, many).Ok? && |Fold(limits, many).value| <= |split|
    ensures |Fold(limits, many).value| == |split| ==> |LastOf(split)| >= |LastOf(Fold(limits, many).value)|
    decreases |split|, |many|, 1
  {
    SplitElementsWithin(limits, split);
    FoldSucceeds(limits, many);
    if many != [] {
      FrontLast(split);
      if LastOf(split) == [] {
        assert Flatten(FrontOf(split)) == many;
        GreedyIsOptimal(limits, many, FrontOf(split));
      } else {
        GreedyStep(limits, many, split);
      }
    }
  }

  /** A step extends the last chunk or adds a chunk of one element. */
  lemma AddSizes<T>(limits: seq<T> -> Verdict, chunks: seq<seq<T>>, value: T)
    requires AddElement(limits, chunks, value).Ok?
    ensures var after := AddElement(limits, chunks, value).value;
      || (|after| == |chunks| + 1 && |LastOf(after)| == 1
          && !(chunks != [] && limits(LastOf(chunks) + [value]) == Within))
      || (chunks != [] && |after| == |chunks| && |LastOf(after)| == |LastOf(chunks)| + 1)
  {
  }

  lemma ShortenedSplit<T(!new)>(limits: seq<T> -> Verdict, split: seq<seq<T>>, shorter: seq<T>, value: T)
    requires PartClosed(limits) && AllWithin(limits, split) && split != [] && LastOf(split) == shorter + [value]
    ensures AllWithin(limits, FrontOf(split) + [shorter])
    ensures Flatten(FrontOf(split) + [shorter]) == Flatten(FrontOf(split)) + shorter
    ensures Flatten(split) == Flatten(FrontOf(split) + [shorter]) + [value]
  {
    FrontLast(split);
    FlattenSnoc(FrontOf(split), shorter);
    PartWithin(limits, [], shorter, [value], shorter + [value]);
  }

  /** The inductive step, for a split whose last chunk is not empty. */
  lemma {:induction false} GreedyStep<T(!new)>(limits: seq<T> -> Verdict, many: seq<T>, split: seq<seq<T>>)
    requires PartClosed(limits) && RefusesElementsOnly(limits)
    requires AllWithin(limits, split) && split != [] && Flatten(split) == many && LastOf(split) != []
    requires Fold(limits, many).Ok?
    ensures |Fold(limits, many).value| <= |split|
    ensures |Fold(limits, many).value| == |split| ==> |LastOf(split)| >= |LastOf(Fold(limits, many).value)|
    decreases |split|, |many|, 0
  {
    FrontLast(split);
    var start, tail := FrontOf(split), LastOf(split);
    var shorter, value := tail[..|tail| - 1], tail[|tail| - 1];
    assert tail == shorter + [value];
    ShortenedSplit(limits, split, shorter, value);
    var init := many[..|many| - 1];
    assert many[|many| - 1] == value && init == Flatten(start) + shorter;
    var before := Fold(limits, init).value;
    AddSizes(limits, before, value);
    if shorter == [] {
      assert init == Flatten(start);
      GreedyIsOptimal(limits, init, start);
    } else {
      GreedyIsOptimal(limits, init, start + [shorter]);
      FoldIsSplit(limits, init);
      if |before| == |split| {
        FitsTailFitsChunk(limits, before, Flatten(start), shorter, value);
      }
    }
  }
}
