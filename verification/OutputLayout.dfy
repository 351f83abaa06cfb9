/** The bytes of an encoded tool output, field by field. */
module OutputLayout {
  import opened Bcs
  import opened Json
  import opened NexusValues
  import opened Options
  import opened Sorting
  import opened TaggedOutputs

  // ---------------------------------------------------------------- what each field is

  /** The position of the hint among raw, number, string, boolean and address. */
  function HintByte(v: Json): byte
  {
    match v
    case Number(_) => 1
    case Str(_) => 2
    case Bool(_) => 3
    case Arr(items) =>
      if items == [] then 0
      else if forall i :: 0 <= i < |items| ==> items[i].Number? then 1
      else if forall i :: 0 <= i < |items| ==> items[i].Str? then 2
      else if forall i :: 0 <= i < |items| ==> items[i].Bool? then 3
      else 0
    case _ => 0
  }

  /** A string as it is, JSON text for anything else that is no array. */
  function OneBytes(v: Json): Bytes
  {
    match v case Str(s) => s case Arr(_) => [] case _ => Text(v)
  }

  /** The elements of an array: as they are if all are strings, as JSON text otherwise. */
  function ManyBytes(v: Json): seq<Bytes>
  {
    if !v.Arr? then []
    else if v.items != [] && forall i :: 0 <= i < |v.items| ==> v.items[i].Str? then
      seq(|v.items|, i requires 0 <= i < |v.items| => OneBytes(v.items[i]))
    else seq(|v.items|, i requires 0 <= i < |v.items| => Text(v.items[i]))
  }

  /** Key, hint, storage tag, the one byte string, the list of byte strings. */
  function RecordBytes(m: Member): Bytes
  {
    Uleb(|m.key|) + m.key + [HintByte(m.value)] + [6] + Ascii("inline") +
    Uleb(|OneBytes(m.value)|) + OneBytes(m.value) + Uleb(|ManyBytes(m.value)|) + Prefixed(ManyBytes(m.value))
  }

  function Records(members: seq<Member>): seq<Bytes>
  {
    seq(|members|, i requires 0 <= i < |members| => RecordBytes(members[i]))
  }

  lemma HintByKind(hint: Hint, items: seq<Json>)
    requires HintNames(hint, items) && items != []
    ensures HintIndex(hint) == HintByte(Arr(items))
    ensures hint == String <==> forall i :: 0 <= i < |items| ==> items[i].Str?
  {
    assert !(items[0].Number? && items[0].Str?) && !(items[0].Number? && items[0].Bool?);
  }

  lemma ArrayByKind(items: seq<Json>)
    ensures HintIndex(Typed(Arr(items)).hint) == HintByte(Arr(items))
    ensures Typed(Arr(items)).data == NexusData(Ascii("inline"), [], ManyBytes(Arr(items)))
  {
    TypedIsReadable(Arr(items));
    if items != [] {
      HintByKind(Typed(Arr(items)).hint, items);
    }
    assert Typed(Arr(items)).data.many == ManyBytes(Arr(items));
  }

  lemma TypedByKind(v: Json)
    ensures HintIndex(Typed(v).hint) == HintByte(v)
    ensures Typed(v).data == NexusData(Ascii("inline"), OneBytes(v), ManyBytes(v))
  {
    if v.Arr? {
      ArrayByKind(v.items);
    } else {
      TypedIsReadable(v);
      assert [v][0] == v;
    }
  }

  // ---------------------------------------------------------------- the layout

  lemma NineParts(a: Bytes, b: Bytes, c: Bytes, d: Bytes, e: Bytes, f: Bytes, g: Bytes, h: Bytes, i: Bytes)
    ensures (a + b) + (c + ((d + e) + ((f + g) + (h + i)))) == a + b + c + d + e + f + g + h + i
  {
  }

  lemma RecordIsEncoded(m: Member)
    ensures EntryCodec().encode(FlattenEntry(EntryOf(m))) == RecordBytes(m)
  {
    TypedByKind(m.value);
    EncodeAllPrefixes(ManyBytes(m.value));
    assert |Ascii("inline")| == 6 && Uleb(6) == [6] && Uleb(HintByte(m.value)) == [HintByte(m.value)];
    NineParts(Uleb(|m.key|), m.key, [HintByte(m.value)], [6], Ascii("inline"), Uleb(|OneBytes(m.value)|),
              OneBytes(m.value), Uleb(|ManyBytes(m.value)|), Prefixed(ManyBytes(m.value)));
  }

  /** Every length can be encoded. */
  ghost predicate RecordFits(m: Member)
  {
    && |m.key| <= 0x7FFF_FFFF && |OneBytes(m.value)| <= 0x7FFF_FFFF && |ManyBytes(m.value)| <= 0x7FFF_FFFF
    && forall b :: b in ManyBytes(m.value) ==> |b| <= 0x7FFF_FFFF
  }

  ghost predicate AllFit(members: seq<Member>)
  {
    forall m :: m in members ==> RecordFits(m)
  }

  ghost predicate Fits(tag: Bytes, members: seq<Member>)
  {
    |tag| <= 0x7FFF_FFFF && |members| <= 0x7FFF_FFFF && AllFit(members)
  }

  lemma DataIsValid(storage: Bytes, one: Bytes, many: seq<Bytes>)
    ensures DataCodec().valid((storage, (one, many))) <==>
      && |storage| <= 0x7FFF_FFFF && |one| <= 0x7FFF_FFFF && |many| <= 0x7FFF_FFFF
      && forall b :: b in many ==> |b| <= 0x7FFF_FFFF
  {
    NamedSequence(BytesCodec, one, many);
  }

  lemma RecordIsValid(m: Member)
    ensures EntryCodec().valid(FlattenEntry(EntryOf(m))) <==> RecordFits(m)
  {
    TypedByKind(m.value);
    DataIsValid(Ascii("inline"), OneBytes(m.value), ManyBytes(m.value));
  }

  lemma ValidByRecord(c: Codec<FlatEntry>, members: seq<Member>, flat: seq<FlatEntry>)
    requires |flat| == |members|
    requires forall i :: 0 <= i < |members| ==> (c.valid(flat[i]) <==> RecordFits(members[i]))
    ensures (forall i :: 0 <= i < |flat| ==> c.valid(flat[i])) <==> AllFit(members)
  {
    if forall i :: 0 <= i < |flat| ==> c.valid(flat[i]) {
      forall m | m in members ensures RecordFits(m) {
        var i :| 0 <= i < |members| && members[i] == m;
        assert c.valid(flat[i]);
      }
    }
  }

  lemma OutputIsEncoded(tag: Bytes, members: seq<Member>)
    ensures var o := (tag, FlattenEntries(EntriesOf(members)));
      && (OutputCodec().valid(o) <==> Fits(tag, members))
      && OutputCodec().encode(o) == Uleb(|tag|) + tag + Uleb(|members|) + Joined(Records(members))
  {
    var flat := FlattenEntries(EntriesOf(members));
    forall i | 0 <= i < |members|
      ensures EntryCodec().encode(flat[i]) == Records(members)[i]
      ensures EntryCodec().valid(flat[i]) <==> RecordFits(members[i])
    {
      RecordIsEncoded(members[i]);
      RecordIsValid(members[i]);
    }
    ValidByRecord(EntryCodec(), members, flat);
    EncodeAllByElement(EntryCodec(), flat, Records(members));
    NamedSequence(EntryCodec(), tag, flat);
  }

  // ---------------------------------------------------------------- the order

  predicate MemberBefore(x: Member, y: Member)
  {
    LexLess(x.key, y.key)
  }

  lemma MemberBeforeIsOrder()
    ensures StrictWeakOrder(MemberBefore)
  {
    KeyBeforeIsOrder();
    forall x, y | MemberBefore(x, y) ensures !MemberBefore(y, x) {
      assert KeyBefore(EntryOf(x), EntryOf(y));
    }
    forall x, y, z | !MemberBefore(y, x) && !MemberBefore(z, y) ensures !MemberBefore(z, x) {
      assert !KeyBefore(EntryOf(y), EntryOf(x)) && !KeyBefore(EntryOf(z), EntryOf(y));
    }
  }

  /** The members in the dictionary order of their keys. */
  ghost predicate InKeyOrder(sorted: seq<Member>, members: seq<Member>)
  {
    && multiset(sorted) == multiset(members) && |sorted| == |members|
    && forall i, j :: 0 <= i < j < |sorted| ==> !DictionaryBefore(sorted[j].key, sorted[i].key)
  }

  lemma MembersInOrder(tag: Bytes, members: seq<Member>) returns (sorted: seq<Member>)
    ensures InKeyOrder(sorted, members) && Tagged(tag, members).payload == EntriesOf(sorted)
  {
    sorted := Sort(MemberBefore, members);
    MemberBeforeIsOrder();
    SortSorts(MemberBefore, members);
    forall i, j | 0 <= i < j < |sorted| ensures !DictionaryBefore(sorted[j].key, sorted[i].key) {
      assert !MemberBefore(sorted[j], sorted[i]);
      LexIsDictionary(sorted[j].key, sorted[i].key);
    }
    SortMaps(MemberBefore, KeyBefore, EntryOf, members);
    assert EntriesOf(members) == Map(EntryOf, members) && EntriesOf(sorted) == Map(EntryOf, sorted);
  }

  lemma OrderKeepsFit(tag: Bytes, sorted: seq<Member>, members: seq<Member>)
    requires InKeyOrder(sorted, members)
    ensures Fits(tag, sorted) <==> Fits(tag, members)
  {
    forall m ensures m in sorted <==> m in members {
      assert m in sorted <==> m in multiset(sorted);
      assert m in members <==> m in multiset(members);
    }
  }

  // ---------------------------------------------------------------- main results

  /** The encoding, byte by byte: the tag, the number of members, and the members' records in the dictionary
      order of their keys. It is refused only for a length that cannot be encoded. */
  lemma EncodingLayout(tag: Bytes, members: seq<Member>) returns (sorted: seq<Member>)
    ensures InKeyOrder(sorted, members)
    ensures EncodeTaggedOutput(Obj([Member(tag, Obj(members))])) ==
      if !Fits(tag, members) then Err(NotEncodable)
      else Ok(Uleb(|tag|) + tag + Uleb(|members|) + Joined(Records(sorted)))
  {
    sorted := MembersInOrder(tag, members);
    EncodesTagged(tag, members);
    OutputIsEncoded(tag, sorted);
    OrderKeepsFit(tag, sorted, members);
  }

  /** Outputs are encoded exactly when they are an object with one member, whose value is an object, and every
      length can be encoded. */
  lemma EncodableExactly(output: Json)
    ensures EncodeTaggedOutput(output).Ok? <==>
      && output.Obj? && |output.members| == 1 && output.members[0].value.Obj?
      && Fits(output.members[0].key, output.members[0].value.members)
  {
    if output.Obj? && |output.members| == 1 && output.members[0].value.Obj? {
      var Member(tag, payload) := output.members[0];
      assert output.members == [Member(tag, Obj(payload.members))];
      var sorted := EncodingLayout(tag, payload.members);
    }
  }

  /** The record of a member, field by field. */
  ghost predicate IsRecordOf(r: FlatEntry, m: Member)
  {
    var hint, storage, one, many := r.1.0, r.1.1.0, r.1.1.1.0, r.1.1.1.1;
    && r.0 == m.key && hint == [Raw, Num, String, Boolean][HintByte(m.value)]
    && storage == Ascii("inline") && one == OneBytes(m.value) && many == ManyBytes(m.value)
  }

  ghost predicate AreRecordsOf(records: seq<FlatEntry>, members: seq<Member>)
  {
    |records| == |members| && forall i :: 0 <= i < |members| ==> IsRecordOf(records[i], members[i])
  }

  lemma FlattenedAreRecords(members: seq<Member>)
    ensures AreRecordsOf(FlattenEntries(EntriesOf(members)), members)
  {
    var flat := FlattenEntries(EntriesOf(members));
    forall i | 0 <= i < |members| ensures IsRecordOf(flat[i], members[i]) {
      TypedByKind(members[i].value);
    }
  }

  /** Reading the encoding gives the tag and, in key order, the record of every member back. */
  lemma EncodingIsRead(tag: Bytes, members: seq<Member>) returns (sorted: seq<Member>, records: seq<FlatEntry>)
    requires Fits(tag, members)
    ensures InKeyOrder(sorted, members) && AreRecordsOf(records, sorted)
    ensures EncodeTaggedOutput(Obj([Member(tag, Obj(members))])).Ok?
    ensures FromBytes(OutputCodec(), EncodeTaggedOutput(Obj([Member(tag, Obj(members))])).value) == Some((tag, records))
  {
    sorted := MembersInOrder(tag, members);
    records := FlattenEntries(EntriesOf(sorted));
    FlattenedAreRecords(sorted);
    EncodesTagged(tag, members);
    OutputIsEncoded(tag, sorted);
    OrderKeepsFit(tag, sorted, members);
    OutputCodecLawful();
    FromBytesRecovers(OutputCodec(), (tag, records));
  }
}
