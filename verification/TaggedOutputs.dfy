/** The canonical encoding of a tool's output: one variant tag and its named payload. */
module TaggedOutputs {
  import opened Bcs
  import opened Json
  import opened NexusValues
  import opened Sorting
  import opened Permutations

  datatype Hint = Raw | Num | String | Boolean | Address

  datatype TypedNexusData = TypedNexusData(hint: Hint, data: NexusData)
  datatype Entry = Entry(key: Bytes, value: TypedNexusData)
  datatype TaggedOutput = TaggedOutput(tag: Bytes, payload: seq<Entry>)

  datatype EncodeError = NotAnObject | NotOneVariant | PayloadNotAnObject | NotEncodable
  datatype Result<+T> = Ok(value: T) | Err(error: EncodeError)

  // ---------------------------------------------------------------- values

  function EncodedValue(v: Json): (Hint, Bytes)
  {
    match v
    case Str(s) => (String, s)
    case Number(_) => (Num, Text(v))
    case Bool(_) => (Boolean, Text(v))
    case _ => (Raw, Text(v))
  }

  /** The hint all elements share, `Raw` if there is none. */
  function CommonHint(items: seq<Json>): Hint
  {
    if items != [] && forall i :: i in items ==>
        EncodedValue(i).0 == EncodedValue(items[0]).0 then EncodedValue(items[0]).0
    else Raw
  }

  function ElementBytes(hint: Hint, items: seq<Json>): seq<Bytes>
  {
    seq(|items|, i requires 0 <= i < |items| => if hint == Raw then Text(items[i]) else EncodedValue(items[i]).1)
  }

  /** An array becomes many byte strings, anything else one. */
  function Typed(v: Json): TypedNexusData
  {
    match v
    case Arr(items) => TypedNexusData(CommonHint(items), NexusData(INLINE, [], ElementBytes(CommonHint(items), items)))
    case _ => TypedNexusData(EncodedValue(v).0, NexusData(INLINE, EncodedValue(v).1, []))
  }

  /** The hint names the one kind of scalar that an array holds, or that a value is. */
  ghost predicate HintNames(hint: Hint, items: seq<Json>)
  {
    && (hint == String <==> items != [] && forall i :: 0 <= i < |items| ==> items[i].Str?)
    && (hint == Num <==> items != [] && forall i :: 0 <= i < |items| ==> items[i].Number?)
    && (hint == Boolean <==> items != [] && forall i :: 0 <= i < |items| ==> items[i].Bool?)
    && hint != Address
  }

  /** What a consumer may rely on: strings travel as they are and everything else as JSON text, the hint says
      which, and only arrays use the list of byte strings. */
  lemma TypedIsReadable(v: Json)
    ensures Typed(v).data.storage == Ascii("inline")
    ensures !v.Arr? ==> HintNames(Typed(v).hint, [v]) && Typed(v).data.many == []
    ensures !v.Arr? ==> Typed(v).data.one == if Typed(v).hint == String then v.bytes else Text(v)
    ensures v.Arr? ==> HintNames(Typed(v).hint, v.items) && Typed(v).data.one == [] && |Typed(v).data.many| == |v.items|
    ensures v.Arr? ==> forall i :: 0 <= i < |v.items| ==>
      Typed(v).data.many[i] == if Typed(v).hint == String then v.items[i].bytes else Text(v.items[i])
  {
    StorageTags();
    if v.Arr? {
      CommonHintNames(v.items);
    } else {
      assert [v][0] == v;
    }
  }

  lemma CommonHintNames(items: seq<Json>)
    ensures HintNames(CommonHint(items), items)
  {
    if items != [] {
      assert items[0] in items;
      forall k | 0 <= k < |items| && CommonHint(items) != Raw
        ensures EncodedValue(items[k]).0 == EncodedValue(items[0]).0
      {
        assert items[k] in items;
      }
    }
  }

  lemma TextNotEmpty(v: Json)
    requires WellFormed(v)
    ensures Text(v) != []
  {
    TextStarts(v, []);
  }

  /** Hint and bytes determine a value that is not an array. */
  lemma EncodedValueIsInjective(v: Json, w: Json)
    requires WellFormed(v) && WellFormed(w) && EncodedValue(v) == EncodedValue(w)
    ensures v == w
  {
    if !v.Str? {
      TextIsInjective(v, w);
    }
  }

  lemma ElementsAreInjective(hint: Hint, items: seq<Json>, others: seq<Json>)
    requires WellFormed(Arr(items)) && WellFormed(Arr(others))
    requires hint == CommonHint(items) == CommonHint(others)
    requires ElementBytes(hint, items) == ElementBytes(hint, others)
    ensures items == others
  {
    assert |ElementBytes(hint, items)| == |items| && |ElementBytes(hint, others)| == |others|;
    forall i | 0 <= i < |items| ensures items[i] == others[i] {
      assert ElementBytes(hint, items)[i] == ElementBytes(hint, others)[i];
      assert items[i] in items && others[i] in others;
      if hint == Raw {
        TextIsInjective(items[i], others[i]);
      } else {
        EncodedValueIsInjective(items[i], others[i]);
      }
    }
  }

  /** The typed form determines the value: empty array, empty string, arrays of one kind and mixed arrays
      are all told apart. */
  lemma TypedIsInjective(v: Json, w: Json)
    requires WellFormed(v) && WellFormed(w) && Typed(v) == Typed(w)
    ensures v == w
  {
    if v.Arr? && w.Arr? {
      ElementsAreInjective(Typed(v).hint, v.items, w.items);
    } else if !v.Arr? && !w.Arr? {
      EncodedValueIsInjective(v, w);
    } else {
      ArrayIsNoScalar(if v.Arr? then v.items else w.items, if v.Arr? then w else v);
    }
  }

  lemma ArrayIsNoScalar(items: seq<Json>, w: Json)
    requires WellFormed(w) && !w.Arr?
    ensures Typed(Arr(items)) != Typed(w)
  {
    TextNotEmpty(w);
    assert |Typed(Arr(items)).data.many| == |items|;
    if items == [] {
      assert CommonHint(items) == Raw;
    }
  }

  // ---------------------------------------------------------------- key order

  /** Byte strings in dictionary order. */
  predicate LexLess(a: Bytes, b: Bytes)
    decreases |a|
  {
    if b == [] then false
    else if a == [] then true
    else if a[0] != b[0] then a[0] < b[0]
    else LexLess(a[1..], b[1..])
  }

  lemma {:induction false} LexAsymmetric(a: Bytes, b: Bytes)
    requires LexLess(a, b)
    ensures !LexLess(b, a)
    decreases |a|
  {
    if a != [] && a[0] == b[0] {
      LexAsymmetric(a[1..], b[1..]);
    }
  }

  lemma {:induction false} LexTotal(a: Bytes, b: Bytes)
    requires !LexLess(a, b) && !LexLess(b, a)
    ensures a == b
    decreases |a|
  {
    if a != [] && b != [] {
      LexTotal(a[1..], b[1..]);
      assert a == [a[0]] + a[1..] && b == [b[0]] + b[1..];
    }
  }

  lemma {:induction false} LexTransitive(a: Bytes, b: Bytes, c: Bytes)
    requires LexLess(a, b) && LexLess(b, c)
    ensures LexLess(a, c)
    decreases |a|
  {
    if a != [] && a[0] == b[0] == c[0] {
      LexTransitive(a[1..], b[1..], c[1..]);
    }
  }

  /** The first place where the two differ decides; the end comes before every byte. */
  ghost predicate DictionaryBefore(a: Bytes, b: Bytes)
  {
    exists k :: 0 <= k <= |a| && k < |b| && a[..k] == b[..k] && (k == |a| || a[k] < b[k])
  }

  lemma {:induction false} LexIsDictionary(a: Bytes, b: Bytes)
    ensures LexLess(a, b) <==> DictionaryBefore(a, b)
    decreases |a|
  {
    if a == [] {
      assert a[..0] == b[..0];
    } else if b != [] && a[0] == b[0] {
      LexIsDictionary(a[1..], b[1..]);
      DictionaryBehind(a, b);
    } else if b != [] {
      assert a[..0] == b[..0];
      forall k | 0 < k <= |a| && k < |b| ensures a[..k] != b[..k] {
        assert a[..k][0] == a[0] && b[..k][0] == b[0];
      }
    }
  }

  /** A common first byte decides nothing. */
  lemma DictionaryBehind(a: Bytes, b: Bytes)
    requires a != [] && b != [] && a[0] == b[0]
    ensures DictionaryBefore(a, b) <==> DictionaryBefore(a[1..], b[1..])
  {
    if DictionaryBefore(a, b) {
      var k :| 0 <= k <= |a| && k < |b| && a[..k] == b[..k] && (k == |a| || a[k] < b[k]);
      assert a[1..][..k - 1] == a[..k][1..] && b[1..][..k - 1] == b[..k][1..];
    }
    var c, d := a[1..], b[1..];
    if k :| 0 <= k <= |c| && k < |d| && c[..k] == d[..k] && (k == |c| || c[k] < d[k]) {
      assert a[..k + 1] == [a[0]] + a[1..][..k] && b[..k + 1] == [b[0]] + b[1..][..k];
    }
  }

  predicate KeyBefore(x: Entry, y: Entry)
  {
    LexLess(x.key, y.key)
  }

  lemma KeyBeforeIsOrder()
    ensures StrictWeakOrder(KeyBefore)
  {
    forall x, y | KeyBefore(x, y) ensures !KeyBefore(y, x) {
      LexAsymmetric(x.key, y.key);
    }
    forall x, y, z | !KeyBefore(y, x) && !KeyBefore(z, y) ensures !KeyBefore(z, x) {
      if LexLess(z.key, x.key) {
        if LexLess(x.key, y.key) {
          LexTransitive(z.key, x.key, y.key);
        } else {
          LexTotal(x.key, y.key);
        }
      }
    }
  }

  ghost predicate KeysIncrease(entries: seq<Entry>)
  {
    forall i, j :: 0 <= i < j < |entries| ==> LexLess(entries[i].key, entries[j].key)
  }

  // ---------------------------------------------------------------- encoding

  function EntryOf(m: Member): Entry
  {
    Entry(m.key, Typed(m.value))
  }

  /** What a payload's members become, before sorting. */
  function EntriesOf(members: seq<Member>): seq<Entry>
  {
    seq(|members|, i requires 0 <= i < |members| => EntryOf(members[i]))
  }

  function Tagged(tag: Bytes, members: seq<Member>): TaggedOutput
  {
    TaggedOutput(tag, Sort(KeyBefore, EntriesOf(members)))
  }

  function HintIndex(h: Hint): nat
  {
    match h case Raw => 0 case Num => 1 case String => 2 case Boolean => 3 case Address => 4
  }

  function HintOf(n: nat): Hint
  {
    if n == 0 then Raw else if n == 1 then Num else if n == 2 then String else if n == 3 then Boolean else Address
  }

  /** An enumeration is encoded as the index of its variant. */
  const HintCodec: Codec<Hint> := Codec(
    (h: Hint) => true,
    (h: Hint) => Uleb(HintIndex(h)),
    (b: Bytes) => match DecodeUleb(b) case Bad => Bad
        case Good(n, rest) => if n <= 4 then Good(HintOf(n), rest) else Bad)

  lemma HintIndexInverse(h: Hint, n: nat)
    ensures HintIndex(h) <= 4 && HintOf(HintIndex(h)) == h
    ensures n <= 4 ==> HintIndex(HintOf(n)) == n
  {
  }

  lemma HintCodecLawful()
    ensures Lawful(HintCodec)
  {
    forall h: Hint, rest ensures Recovers(HintCodec, h, rest) {
      HintIndexInverse(h, 0);
      UlebRecovers(HintIndex(h), rest);
    }
    forall b ensures Canonical(HintCodec, b) {
      UlebCanonical(b);
      if DecodeUleb(b).Good? {
        HintIndexInverse(Raw, DecodeUleb(b).value);
      }
    }
  }

  type FlatData = (Bytes, (Bytes, seq<Bytes>))
  type FlatEntry = (Bytes, (Hint, FlatData))

  function DataCodec(): Codec<FlatData>
  {
    PairCodec(BytesCodec, PairCodec(BytesCodec, SeqCodec(BytesCodec)))
  }

  function EntryCodec(): Codec<FlatEntry>
  {
    PairCodec(BytesCodec, PairCodec(HintCodec, DataCodec()))
  }

  function OutputCodec(): Codec<(Bytes, seq<FlatEntry>)>
  {
    PairCodec(BytesCodec, SeqCodec(EntryCodec()))
  }

  lemma OutputCodecLawful()
    ensures Lawful(OutputCodec())
  {
    BytesCodecLawful();
    HintCodecLawful();
    SeqCodecLawful(BytesCodec);
    PairCodecLawful(BytesCodec, SeqCodec(BytesCodec));
    PairCodecLawful(BytesCodec, PairCodec(BytesCodec, SeqCodec(BytesCodec)));
    PairCodecLawful(HintCodec, DataCodec());
    PairCodecLawful(BytesCodec, PairCodec(HintCodec, DataCodec()));
    SeqCodecLawful(EntryCodec());
    PairCodecLawful(BytesCodec, SeqCodec(EntryCodec()));
  }

  function FlattenEntry(e: Entry): FlatEntry
  {
    (e.key, (e.value.hint, (e.value.data.storage, (e.value.data.one, e.value.data.many))))
  }

  function FlattenEntries(entries: seq<Entry>): seq<FlatEntry>
  {
    seq(|entries|, i requires 0 <= i < |entries| => FlattenEntry(entries[i]))
  }

  function Flatten(o: TaggedOutput): (Bytes, seq<FlatEntry>)
  {
    (o.tag, FlattenEntries(o.payload))
  }

  lemma FlattenIsInjective(o: TaggedOutput, p: TaggedOutput)
    requires Flatten(o) == Flatten(p)
    ensures o == p
  {
    assert |FlattenEntries(o.payload)| == |o.payload| && |FlattenEntries(p.payload)| == |p.payload|;
    forall i | 0 <= i < |o.payload| ensures o.payload[i] == p.payload[i] {
      assert FlattenEntries(o.payload)[i] == FlattenEntries(p.payload)[i];
    }
  }

  function EncodeOutput(o: TaggedOutput): Result<Bytes>
  {
    if OutputCodec().valid(Flatten(o)) then Ok(OutputCodec().encode(Flatten(o))) else Err(NotEncodable)
  }

  /** The tool's output must be an object with one member, whose value is an object: tag and payload. */
  function EncodeTaggedOutput(output: Json): Result<Bytes>
  {
    if !output.Obj? then Err(NotAnObject)
    else if |output.members| != 1 then Err(NotOneVariant)
    else
      var Member(tag, payload) := output.members[0];
      if !payload.Obj? then Err(PayloadNotAnObject)
      else
        EncodeOutput(Tagged(tag, payload.members))
  }

  // ---------------------------------------------------------------- main results

  /** The keys of an object are distinct. */
  ghost predicate DistinctKeys(members: seq<Member>)
  {
    forall i, j :: 0 <= i < j < |members| ==> members[i].key != members[j].key
  }

  /** A sorted list without repeated keys increases strictly. */
  lemma SortedIncreases(entries: seq<Entry>)
    requires Sorted(KeyBefore, entries) && DistinctBy(entries, (e: Entry) => e.key)
    ensures KeysIncrease(entries)
  {
    forall i, j | 0 <= i < j < |entries| ensures LexLess(entries[i].key, entries[j].key) {
      assert !KeyBefore(entries[j], entries[i]);
      if !LexLess(entries[i].key, entries[j].key) {
        LexTotal(entries[i].key, entries[j].key);
      }
    }
  }

  /** Keys come out strictly increasing. */
  lemma PayloadKeysIncrease(tag: Bytes, members: seq<Member>)
    requires DistinctKeys(members)
    ensures KeysIncrease(Tagged(tag, members).payload)
    ensures var payload := Tagged(tag, members).payload;
      forall i, j :: 0 <= i < j < |payload| ==> DictionaryBefore(payload[i].key, payload[j].key)
  {
    var key := (e: Entry) => e.key;
    KeyBeforeIsOrder();
    SortSorts(KeyBefore, EntriesOf(members));
    assert DistinctBy(EntriesOf(members), key);
    DistinctByOrderless(EntriesOf(members), Sort(KeyBefore, EntriesOf(members)), key);
    SortedIncreases(Tagged(tag, members).payload);
    var payload := Tagged(tag, members).payload;
    forall i, j | 0 <= i < j < |payload| ensures DictionaryBefore(payload[i].key, payload[j].key) {
      LexIsDictionary(payload[i].key, payload[j].key);
    }
  }

  /** Strictly increasing lists with the same members are the same list. */
  lemma {:induction false} IncreasingIsUnique(xs: seq<Entry>, ys: seq<Entry>)
    requires KeysIncrease(xs) && KeysIncrease(ys)
    requires forall e :: e in xs <==> e in ys
    ensures xs == ys
  {
    assert xs == [] <==> ys == [] by {
      if xs != [] { assert xs[0] in ys; }
      if ys != [] { assert ys[0] in xs; }
    }
    if xs != [] {
      assert xs[0] in xs && ys[0] in ys;
      FirstIsLeast(xs, ys);
      FirstIsLeast(ys, xs);
      LexTotal(xs[0].key, ys[0].key);
      SameKeySameEntry(xs, ys);
      TailMembers(xs);
      TailMembers(ys);
      IncreasingIsUnique(xs[1..], ys[1..]);
      assert xs == [xs[0]] + xs[1..] && ys == [ys[0]] + ys[1..];
    }
  }

  lemma FirstIsLeast(xs: seq<Entry>, ys: seq<Entry>)
    requires KeysIncrease(xs) && ys != [] && xs != [] && ys[0] in xs
    ensures !LexLess(ys[0].key, xs[0].key)
  {
    var i :| 0 <= i < |xs| && xs[i] == ys[0];
    if i > 0 {
      LexAsymmetric(xs[0].key, xs[i].key);
    } else if LexLess(xs[0].key, xs[0].key) {
      LexAsymmetric(xs[0].key, xs[0].key);
    }
  }

  lemma SameKeySameEntry(xs: seq<Entry>, ys: seq<Entry>)
    requires KeysIncrease(xs) && xs != [] && ys != [] && ys[0] in xs && xs[0].key == ys[0].key
    ensures xs[0] == ys[0]
  {
    var i :| 0 <= i < |xs| && xs[i] == ys[0];
    if i > 0 {
      LexAsymmetric(xs[0].key, xs[i].key);
    }
  }

  lemma TailMembers(xs: seq<Entry>)
    requires KeysIncrease(xs) && xs != []
    ensures KeysIncrease(xs[1..])
    ensures forall e :: e in xs[1..] <==> e in xs && e != xs[0]
  {
    forall i | 0 < i < |xs| ensures xs[i] != xs[0] {
      LexAsymmetric(xs[0].key, xs[i].key);
    }
    forall e | e in xs && e != xs[0] ensures e in xs[1..] {
      var i :| 0 <= i < |xs| && xs[i] == e;
      assert xs[1..][i - 1] == e;
    }
  }

  /** Payloads with the same members, in whatever order, have the same encoding. */
  lemma PayloadOrderIsIrrelevant(tag: Bytes, members: seq<Member>, others: seq<Member>)
    requires DistinctKeys(members) && DistinctKeys(others)
    requires forall m :: m in members <==> m in others
    ensures Tagged(tag, members) == Tagged(tag, others)
    ensures EncodeTaggedOutput(Obj([Member(tag, Obj(members))])) == EncodeTaggedOutput(Obj([Member(tag, Obj(others))]))
  {
    PayloadKeysIncrease(tag, members);
    PayloadKeysIncrease(tag, others);
    SortKeepsElements(KeyBefore, EntriesOf(members));
    SortKeepsElements(KeyBefore, EntriesOf(others));
    SameEntries(members, others);
    SameEntries(others, members);
    IncreasingIsUnique(Tagged(tag, members).payload, Tagged(tag, others).payload);
  }

  lemma SameEntries(members: seq<Member>, others: seq<Member>)
    requires forall m :: m in members ==> m in others
    ensures forall e :: e in EntriesOf(members) ==> e in EntriesOf(others)
  {
    forall e | e in EntriesOf(members) ensures e in EntriesOf(others) {
      var i :| 0 <= i < |members| && EntriesOf(members)[i] == e;
      assert members[i] in members;
      var j :| 0 <= j < |others| && others[j] == members[i];
      assert EntriesOf(others)[j] == e;
    }
  }

  lemma EncodesTagged(tag: Bytes, members: seq<Member>)
    ensures EncodeTaggedOutput(Obj([Member(tag, Obj(members))])) == EncodeOutput(Tagged(tag, members))
  {
  }

  lemma SameBytesSameOutput(o: TaggedOutput, p: TaggedOutput)
    requires EncodeOutput(o).Ok? && EncodeOutput(o) == EncodeOutput(p)
    ensures o == p
  {
    OutputCodecLawful();
    EncodingIsInjective(OutputCodec(), Flatten(o), Flatten(p));
    FlattenIsInjective(o, p);
  }

  /** Equal encodings come from equal tags and payloads with the same members: nothing is lost. */
  lemma EncodingIsLossless(tag: Bytes, members: seq<Member>, tag': Bytes, members': seq<Member>)
    requires WellFormed(Obj(members)) && WellFormed(Obj(members'))
    ensures var r := EncodeTaggedOutput(Obj([Member(tag, Obj(members))]));
      r.Ok? && r == EncodeTaggedOutput(Obj([Member(tag', Obj(members'))])) ==>
        tag == tag' && forall m :: m in members <==> m in members'
  {
    EncodesTagged(tag, members);
    EncodesTagged(tag', members');
    var o, p := Tagged(tag, members), Tagged(tag', members');
    if EncodeOutput(o).Ok? && EncodeOutput(o) == EncodeOutput(p) {
      SameBytesSameOutput(o, p);
      SamePayloadSameMembers(members, members');
    }
  }

  lemma SamePayloadSameMembers(members: seq<Member>, others: seq<Member>)
    requires WellFormed(Obj(members)) && WellFormed(Obj(others))
    requires Sort(KeyBefore, EntriesOf(members)) == Sort(KeyBefore, EntriesOf(others))
    ensures forall m :: m in members <==> m in others
  {
    SortKeepsElements(KeyBefore, EntriesOf(members));
    SortKeepsElements(KeyBefore, EntriesOf(others));
    SameMembers(members, others);
    SameMembers(others, members);
  }

  lemma SameMembers(members: seq<Member>, others: seq<Member>)
    requires WellFormed(Obj(members)) && WellFormed(Obj(others))
    requires forall e :: e in EntriesOf(members) ==> e in EntriesOf(others)
    ensures forall m :: m in members ==> m in others
  {
    forall m | m in members ensures m in others {
      var i :| 0 <= i < |members| && members[i] == m;
      assert EntriesOf(members)[i] in EntriesOf(members);
      var j :| 0 <= j < |others| && EntriesOf(others)[j] == EntriesOf(members)[i];
      assert others[j] in others;
      TypedIsInjective(m.value, others[j].value);
    }
  }
}
