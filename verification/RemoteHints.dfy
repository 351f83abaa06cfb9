/** Which fields of a JSON object to store remotely so that the rest fits one transaction. */
module RemoteHints {
  import opened Bcs
  import opened Options
  import opened Sorting
  import opened Permutations

  const NEXUS_BASE_TRANSACTION_SIZE: nat := 8 * 1024
  const MAX_TRANSACTION_SIZE: nat := 128 * 1024
  const ENTRY_PORTS_RESERVED_BYTES: nat := 64 * 1024
  const WALRUS_BLOB_ID_LENGTH: nat := 44

  datatype Shape = Scalar | Elements(count: nat)

  /** A member of the object, with the text of its value. */
  datatype Field = Field(key: Bytes, text: Bytes, shape: Shape)

  function SaturatingSub(a: nat, b: nat): nat
  {
    if a >= b then a - b else 0
  }

  const AVAILABLE: nat := SaturatingSub(MAX_TRANSACTION_SIZE - NEXUS_BASE_TRANSACTION_SIZE, ENTRY_PORTS_RESERVED_BYTES)

  function Size(f: Field): nat
  {
    |f.key| + |f.text|
  }

  /** Remotely stored, a field costs one blob id, an array one for each element. */
  function RemoteCost(f: Field): nat
  {
    match f.shape
    case Scalar => WALRUS_BLOB_ID_LENGTH
    case Elements(n) => WALRUS_BLOB_ID_LENGTH * n
  }

  predicate Larger(f: Field, g: Field)
  {
    Size(f) > Size(g)
  }

  function BySize(fields: seq<Field>): seq<Field>
  {
    Sort(Larger, fields)
  }

  function SumSizes(fields: seq<Field>): nat
  {
    if fields == [] then 0 else SumSizes(fields[..|fields| - 1]) + Size(fields[|fields| - 1])
  }

  function SumCosts(fields: seq<Field>): nat
  {
    if fields == [] then 0 else SumCosts(fields[..|fields| - 1]) + RemoteCost(fields[|fields| - 1])
  }

  /** The space needed when the first `k` fields are stored remotely. */
  function Required(fields: seq<Field>, k: nat): nat
    requires k <= |fields|
  {
    SumCosts(fields[..k]) + SumSizes(fields[k..])
  }

  function Keys(fields: seq<Field>): seq<Bytes>
  {
    seq(|fields|, i requires 0 <= i < |fields| => fields[i].key)
  }

  lemma {:induction false} SumSizesConcat(a: seq<Field>, b: seq<Field>)
    ensures SumSizes(a + b) == SumSizes(a) + SumSizes(b)
  {
    if b == [] {
      assert a + b == a;
    } else {
      SumSizesConcat(a, b[..|b| - 1]);
      assert (a + b)[..|a + b| - 1] == a + b[..|b| - 1];
    }
  }

  lemma RequiredStep(fields: seq<Field>, k: nat)
    requires k < |fields|
    ensures Required(fields, k) >= Size(fields[k])
    ensures Required(fields, k + 1) == Required(fields, k) - Size(fields[k]) + RemoteCost(fields[k])
  {
    assert fields[..k + 1][..k] == fields[..k] && fields[..k + 1][k] == fields[k];
    assert fields[k..] == [fields[k]] + fields[k + 1..];
    SumSizesConcat([fields[k]], fields[k + 1..]);
    assert [fields[k]][..0] == [];
    assert SumSizes([fields[k]]) == Size(fields[k]);
  }

  /** The hint is the shortest prefix of the fields, largest first, that makes the rest fit; there is none
      exactly when no prefix does. */
  ghost predicate IsHint(fields: seq<Field>, r: Option<seq<Bytes>>)
  {
    var sorted := BySize(fields);
    && (r.None? <==> TooLargeUpTo(sorted, |sorted|))
    && (r.Some? ==>
         && |r.value| <= |sorted| && r.value == Keys(sorted[..|r.value|])
         && Required(sorted, |r.value|) <= AVAILABLE
         && (r.value != [] ==> TooLargeUpTo(sorted, |r.value| - 1)))
  }

  /** No prefix of at most `k` fields makes the rest fit. */
  ghost predicate TooLargeUpTo(sorted: seq<Field>, k: nat)
    requires k <= |sorted|
  {
    forall j :: 0 <= j <= k ==> Required(sorted, j) > AVAILABLE
  }

  lemma KeysStep(fields: seq<Field>, k: nat)
    requires k < |fields|
    ensures Keys(fields[..k + 1]) == Keys(fields[..k]) + [fields[k].key]
  {
  }

  lemma HintFound(fields: seq<Field>, k: nat)
    requires k <= |BySize(fields)| && Required(BySize(fields), k) <= AVAILABLE
    requires k > 0 ==> TooLargeUpTo(BySize(fields), k - 1)
    ensures IsHint(fields, Some(Keys(BySize(fields)[..k])))
  {
    assert |Keys(BySize(fields)[..k])| == k;
  }

  lemma TooLargeStep(sorted: seq<Field>, k: nat)
    requires k <= |sorted| && Required(sorted, k) > AVAILABLE && (k > 0 ==> TooLargeUpTo(sorted, k - 1))
    ensures TooLargeUpTo(sorted, k)
  {
  }

  /** Moves fields to remote storage, largest first, until the rest fits. The running total is never too
      small for the saturating subtraction. */
  method HintRemoteFields(fields: seq<Field>) returns (r: Option<seq<Bytes>>)
    ensures IsHint(fields, r)
  {
    var sorted := BySize(fields);
    var required := SumSizes(sorted);
    assert sorted[0..] == sorted && sorted[..0] == [];
    assert required == Required(sorted, 0);
    if required <= AVAILABLE {
      HintFound(fields, 0);
      return Some([]);
    }
    TooLargeStep(sorted, 0);
    var remote: seq<Bytes> := [];
    for i := 0 to |sorted|
      invariant remote == Keys(sorted[..i])
      invariant required == Required(sorted, i)
      invariant TooLargeUpTo(sorted, i)
    {
      RequiredStep(sorted, i);
      KeysStep(sorted, i);
      assert required >= Size(sorted[i]);
      required := SaturatingSub(required, Size(sorted[i])) + RemoteCost(sorted[i]);
      remote := remote + [sorted[i].key];
      if required <= AVAILABLE {
        HintFound(fields, i + 1);
        return Some(remote);
      }
      TooLargeStep(sorted, i + 1);
    }
    return None;
  }

  // ---------------------------------------------------------------- optimality

  ghost predicate DistinctKeys(fields: seq<Field>)
  {
    forall i, j :: 0 <= i < j < |fields| ==> fields[i].key != fields[j].key
  }

  /** No field needs more or less than one blob: there are no arrays, other than arrays of one element. */
  ghost predicate OneBlobEach(fields: seq<Field>)
  {
    forall f :: f in fields ==> RemoteCost(f) == WALRUS_BLOB_ID_LENGTH
  }

  /** The space needed when exactly the named fields are stored remotely: 44 bytes for each blob, key and text
      for each field that stays. */
  function Total(fields: seq<Field>, remote: set<Bytes>): nat
  {
    if fields == [] then 0
    else
      var last := fields[|fields| - 1];
      Total(fields[..|fields| - 1], remote) +
      if last.key !in remote then |last.key| + |last.text|
      else match last.shape case Scalar => 44 case Elements(n) => 44 * n
  }

  function Count(fields: seq<Field>, remote: set<Bytes>): nat
  {
    if fields == [] then 0
    else Count(fields[..|fields| - 1], remote) + if fields[|fields| - 1].key in remote then 1 else 0
  }

  lemma TotalSnoc(fields: seq<Field>, f: Field, remote: set<Bytes>)
    ensures Total(fields + [f], remote) == Total(fields, remote) + if f.key in remote then RemoteCost(f) else Size(f)
    ensures Count(fields + [f], remote) == Count(fields, remote) + if f.key in remote then 1 else 0
  {
    assert (fields + [f])[..|fields|] == fields;
  }

  lemma {:induction false} InsertKeepsTotal(before: (Field, Field) -> bool, fields: seq<Field>, f: Field,
      remote: set<Bytes>)
    ensures Total(Insert(before, fields, f), remote) == Total(fields + [f], remote)
    ensures Count(Insert(before, fields, f), remote) == Count(fields + [f], remote)
  {
    TotalSnoc(fields, f, remote);
    if fields == [] {
      assert fields + [f] == [f];
    } else {
      var init, last := fields[..|fields| - 1], fields[|fields| - 1];
      assert fields == init + [last];
      TotalSnoc(init, last, remote);
      if before(f, last) {
        InsertKeepsTotal(before, init, f, remote);
        TotalSnoc(init, f, remote);
        TotalSnoc(Insert(before, init, f), last, remote);
      }
    }
  }

  lemma {:induction false} SortKeepsTotal(before: (Field, Field) -> bool, fields: seq<Field>, remote: set<Bytes>)
    ensures Total(Sort(before, fields), remote) == Total(fields, remote)
    ensures Count(Sort(before, fields), remote) == Count(fields, remote)
  {
    if fields != [] {
      var init, last := fields[..|fields| - 1], fields[|fields| - 1];
      assert fields == init + [last];
      SortKeepsTotal(before, init, remote);
      InsertKeepsTotal(before, Sort(before, init), last, remote);
      TotalSnoc(Sort(before, init), last, remote);
      TotalSnoc(init, last, remote);
    }
  }

  /** With distinct keys no key is counted twice. */
  lemma {:induction false} CountAtMost(fields: seq<Field>, remote: set<Bytes>)
    requires DistinctKeys(fields)
    ensures Count(fields, remote) <= |remote|
  {
    if fields != [] {
      var init, last := fields[..|fields| - 1], fields[|fields| - 1];
      if last.key in remote {
        CountWithout(init, remote, last.key);
        CountAtMost(init, remote - {last.key});
      } else {
        CountAtMost(init, remote);
      }
    }
  }

  lemma {:induction false} CountWithout(fields: seq<Field>, remote: set<Bytes>, key: Bytes)
    requires forall i :: 0 <= i < |fields| ==> fields[i].key != key
    ensures Count(fields, remote - {key}) == Count(fields, remote)
  {
    if fields != [] {
      CountWithout(fields[..|fields| - 1], remote, key);
    }
  }

  lemma {:induction false} CountInRange(fields: seq<Field>, remote: set<Bytes>)
    ensures Count(fields, remote) <= |fields|
  {
    if fields != [] {
      CountInRange(fields[..|fields| - 1], remote);
    }
  }

  /** What storing a field remotely saves; an array may cost more than it takes. */
  function Saving(f: Field): int
  {
    Size(f) - RemoteCost(f)
  }

  predicate SavesMore(f: Field, g: Field)
  {
    Saving(f) > Saving(g)
  }

  function BySaving(fields: seq<Field>): (sorted: seq<Field>)
    ensures |sorted| == |fields|
  {
    Sort(SavesMore, fields)
  }

  /** No choice of equally many fields saves more than the first ones in the order of savings. */
  lemma {:induction false} LargestSaveMost(sorted: seq<Field>, remote: set<Bytes>)
    requires Sorted(SavesMore, sorted)
    ensures Count(sorted, remote) <= |sorted|
    ensures Required(sorted, Count(sorted, remote)) <= Total(sorted, remote)
  {
    CountInRange(sorted, remote);
    if sorted == [] {
      assert sorted[..0] == [] && sorted[0..] == [];
    } else {
      var init, last := sorted[..|sorted| - 1], sorted[|sorted| - 1];
      LargestSaveMost(init, remote);
      assert sorted == init + [last];
      LargestStep(init, last, remote, Count(init, remote));
    }
  }

  lemma LargestStep(init: seq<Field>, last: Field, remote: set<Bytes>, m: nat)
    requires Sorted(SavesMore, init + [last])
    requires m == Count(init, remote) && m <= |init| && Required(init, m) <= Total(init, remote)
    ensures Required(init + [last], Count(init + [last], remote)) <= Total(init + [last], remote)
  {
    TotalSnoc(init, last, remote);
    RequiredSnoc(init, last, m);
    if last.key in remote {
      LastSavesLeast(init + [last], m);
      RequiredStep(init + [last], m);
    }
  }

  lemma LastSavesLeast(sorted: seq<Field>, m: nat)
    requires Sorted(SavesMore, sorted) && m < |sorted|
    ensures Saving(sorted[m]) >= Saving(sorted[|sorted| - 1])
  {
    assert m < |sorted| - 1 ==> !SavesMore(sorted[|sorted| - 1], sorted[m]);
  }

  lemma RequiredSnoc(fields: seq<Field>, last: Field, k: nat)
    requires k <= |fields|
    ensures Required(fields + [last], k) == Required(fields, k) + Size(last)
  {
    assert (fields + [last])[..k] == fields[..k];
    assert (fields + [last])[k..] == fields[k..] + [last];
    SumSizesConcat(fields[k..], [last]);
    assert [last][..0] == [];
    assert SumSizes([last]) == Size(last);
  }

  lemma SavesMoreIsOrder()
    ensures StrictWeakOrder(SavesMore)
  {
  }

  // ---------------------------------------------------------------- any fields

  /** The least space any choice can need: every field in its cheaper form. */
  function SumCheaper(fields: seq<Field>): nat
  {
    if fields == [] then 0
    else
      var last := fields[|fields| - 1];
      SumCheaper(fields[..|fields| - 1]) + if RemoteCost(last) < Size(last) then RemoteCost(last) else Size(last)
  }

  lemma {:induction false} CheaperIsLeast(fields: seq<Field>, remote: set<Bytes>)
    ensures SumCheaper(fields) <= Total(fields, remote)
  {
    if fields != [] {
      CheaperIsLeast(fields[..|fields| - 1], remote);
    }
  }

  function KeySet(fields: seq<Field>): set<Bytes>
  {
    set f | f in fields :: f.key
  }

  lemma {:induction false} TotalWithStranger(fields: seq<Field>, remote: set<Bytes>, key: Bytes)
    requires key !in KeySet(fields)
    ensures Total(fields, remote + {key}) == Total(fields, remote)
  {
    if fields != [] {
      var init, last := fields[..|fields| - 1], fields[|fields| - 1];
      assert fields == init + [last];
      assert last in fields && KeySet(init) <= KeySet(fields);
      TotalWithStranger(init, remote, key);
    }
  }

  lemma LastKeyIsNew(fields: seq<Field>)
    requires DistinctKeys(fields) && fields != []
    ensures DistinctKeys(fields[..|fields| - 1])
    ensures fields[|fields| - 1].key !in KeySet(fields[..|fields| - 1])
  {
  }

  /** With distinct keys the least space can be had. */
  lemma {:induction false} CheaperIsAttained(fields: seq<Field>) returns (remote: set<Bytes>)
    requires DistinctKeys(fields)
    ensures remote <= KeySet(fields) && Total(fields, remote) == SumCheaper(fields)
  {
    if fields == [] {
      remote := {};
    } else {
      var init, last := fields[..|fields| - 1], fields[|fields| - 1];
      assert fields == init + [last];
      assert last in fields && KeySet(init) <= KeySet(fields);
      LastKeyIsNew(fields);
      remote := CheaperIsAttained(init);
      if RemoteCost(last) < Size(last) {
        TotalWithStranger(init, remote, last.key);
        remote := remote + {last.key};
      }
    }
  }

  /** Some set of fields fits when stored remotely. */
  ghost predicate SomeSetFits(fields: seq<Field>)
  {
    exists remote :: Total(fields, remote) <= 57_344
  }

  /** An error says truly that nothing fits exactly when the fields in their cheaper forms do not. */
  lemma ErrorIsTrueExactly(fields: seq<Field>)
    requires DistinctKeys(fields)
    ensures !SomeSetFits(fields) <==> SumCheaper(fields) > 57_344
    ensures SumCheaper(fields) > 57_344 ==> IsHint(fields, None)
  {
    var best := CheaperIsAttained(fields);
    forall remote ensures SumCheaper(fields) <= Total(fields, remote) {
      CheaperIsLeast(fields, remote);
    }
    if SumCheaper(fields) > AVAILABLE {
      forall j | 0 <= j <= |BySize(fields)| ensures Required(BySize(fields), j) > AVAILABLE {
        PrefixAsSet(Larger, fields, j);
      }
    }
  }

  lemma SortedKeysDistinct(before: (Field, Field) -> bool, fields: seq<Field>)
    requires DistinctKeys(fields)
    ensures DistinctKeys(Sort(before, fields)) && |Sort(before, fields)| == |fields|
  {
    var key := (f: Field) => f.key;
    SortKeepsElements(before, fields);
    assert DistinctBy(fields, key);
    DistinctByOrderless(fields, Sort(before, fields), key);
    assert DistinctBy(Sort(before, fields), key);
  }

  lemma {:induction false} PrefixTotal(fields: seq<Field>, k: nat)
    requires DistinctKeys(fields) && k <= |fields|
    ensures Total(fields, KeySet(fields[..k])) == Required(fields, k)
    decreases |fields|
  {
    if k == |fields| {
      AllTotal(fields);
      assert fields[..k] == fields && fields[k..] == [];
    } else {
      var init, last := fields[..|fields| - 1], fields[|fields| - 1];
      assert fields == init + [last];
      PrefixTotal(init, k);
      PrefixTotalSnoc(init, last, k);
    }
  }

  lemma PrefixTotalSnoc(init: seq<Field>, last: Field, k: nat)
    requires DistinctKeys(init + [last]) && k <= |init| && Total(init, KeySet(init[..k])) == Required(init, k)
    ensures Total(init + [last], KeySet((init + [last])[..k])) == Required(init + [last], k)
  {
    assert (init + [last])[..k] == init[..k];
    LastKeyIsNew(init + [last]);
    TotalSnoc(init, last, KeySet(init[..k]));
    RequiredSnoc(init, last, k);
  }

  lemma {:induction false} AllTotal(fields: seq<Field>)
    requires DistinctKeys(fields)
    ensures Total(fields, KeySet(fields)) == SumCosts(fields)
  {
    if fields != [] {
      var init, last := fields[..|fields| - 1], fields[|fields| - 1];
      assert fields == init + [last];
      LastKeyIsNew(fields);
      AllTotal(init);
      TotalWithStranger(init, KeySet(init), last.key);
      assert KeySet(fields) == KeySet(init) + {last.key};
    }
  }

  /** The first fields of an ordering, as a set: what it needs, and how many it has at most. */
  lemma PrefixAsSet(before: (Field, Field) -> bool, fields: seq<Field>, k: nat)
    requires DistinctKeys(fields) && k <= |Sort(before, fields)|
    ensures Total(fields, KeySet(Sort(before, fields)[..k])) == Required(Sort(before, fields), k)
    ensures |KeySet(Sort(before, fields)[..k])| <= k
  {
    var sorted := Sort(before, fields);
    SortedKeysDistinct(before, fields);
    PrefixTotal(sorted, k);
    SortKeepsTotal(before, fields, KeySet(sorted[..k]));
    KeySetSize(sorted[..k]);
  }

  lemma {:induction false} KeySetSize(fields: seq<Field>)
    ensures |KeySet(fields)| <= |fields|
  {
    if fields != [] {
      var init, last := fields[..|fields| - 1], fields[|fields| - 1];
      assert fields == init + [last];
      KeySetSize(init);
      assert KeySet(fields) == KeySet(init) + {last.key};
    }
  }

  lemma LargerIsOrder()
    ensures StrictWeakOrder(Larger)
  {
  }

  /** What a hint means, by field: the fields in falling order of key and text sizes, ties in the order of the
      object; the shortest beginning of that list that leaves at most 57,344 bytes; an error when even the
      whole list leaves more. */
  lemma HintByField(fields: seq<Field>, r: Option<seq<Bytes>>) returns (sorted: seq<Field>)
    requires DistinctKeys(fields) && IsHint(fields, r)
    ensures multiset(sorted) == multiset(fields) && |sorted| == |fields|
    ensures forall i, j :: 0 <= i < j < |sorted| ==>
        |sorted[i].key| + |sorted[i].text| >= |sorted[j].key| + |sorted[j].text|
    ensures forall f :: Ties(Larger, sorted, f) == Ties(Larger, fields, f)
    ensures r.None? ==> forall k :: 0 <= k <= |sorted| ==> Total(fields, KeySet(sorted[..k])) > 57_344
    ensures r.Some? ==> |r.value| <= |sorted| && forall i :: 0 <= i < |r.value| ==> r.value[i] == sorted[i].key
    ensures r.Some? ==> Total(fields, KeySet(sorted[..|r.value|])) <= 57_344
    ensures r.Some? ==> forall k :: 0 <= k < |r.value| ==> Total(fields, KeySet(sorted[..k])) > 57_344
  {
    sorted := BySize(fields);
    LargerIsOrder();
    SortSorts(Larger, fields);
    forall f ensures Ties(Larger, sorted, f) == Ties(Larger, fields, f) {
      SortIsStable(Larger, fields, f);
    }
    forall i, j | 0 <= i < j < |sorted|
      ensures |sorted[i].key| + |sorted[i].text| >= |sorted[j].key| + |sorted[j].text|
    {
      assert !Larger(sorted[j], sorted[i]);
    }
    forall k | 0 <= k <= |sorted| ensures Total(fields, KeySet(sorted[..k])) == Required(sorted, k) {
      PrefixAsSet(Larger, fields, k);
    }
  }

  /** No set that fits is smaller than a given size. */
  ghost predicate NoSmallerFits(fields: seq<Field>, size: nat)
  {
    forall remote: set<Bytes> :: Total(fields, remote) <= 57_344 ==> size <= |remote|
  }

  /** A fitting set has at least as many fields as the shortest fitting prefix in the order of savings, and
      that prefix is such a set. */
  lemma SmallestBySaving(fields: seq<Field>, size: nat)
    requires DistinctKeys(fields)
    ensures NoSmallerFits(fields, size) <==>
            forall j :: 0 <= j < size && j <= |fields| ==> Required(BySaving(fields), j) > AVAILABLE
  {
    var sorted := BySaving(fields);
    SortedKeysDistinct(SavesMore, fields);
    if NoSmallerFits(fields, size) {
      forall j | 0 <= j < size && j <= |fields| ensures Required(sorted, j) > AVAILABLE {
        PrefixAsSet(SavesMore, fields, j);
        assert |KeySet(sorted[..j])| < size;
      }
    }
    if forall j :: 0 <= j < size && j <= |fields| ==> Required(sorted, j) > AVAILABLE {
      forall remote: set<Bytes> | Total(fields, remote) <= AVAILABLE ensures size <= |remote| {
        FittingSetCounts(fields, remote);
      }
    }
  }

  lemma FittingSetCounts(fields: seq<Field>, remote: set<Bytes>)
    requires DistinctKeys(fields) && Total(fields, remote) <= AVAILABLE
    ensures Count(fields, remote) <= |remote| && Count(fields, remote) <= |fields| == |BySaving(fields)|
    ensures Required(BySaving(fields), Count(fields, remote)) <= AVAILABLE
  {
    SavesMoreIsOrder();
    SortSorts(SavesMore, fields);
    SortedKeysDistinct(SavesMore, fields);
    SortKeepsTotal(SavesMore, fields, remote);
    LargestSaveMost(BySaving(fields), remote);
    CountAtMost(fields, remote);
  }

  /** Exactly when a hint names as few fields as any set that fits, arrays or not: when no shorter prefix in
      the order of savings fits. */
  lemma HintIsMinimalExactly(fields: seq<Field>, r: Option<seq<Bytes>>)
    requires DistinctKeys(fields) && IsHint(fields, r) && r.Some?
    ensures NoSmallerFits(fields, |r.value|) <==>
            forall j :: 0 <= j < |r.value| && j <= |fields| ==> Required(BySaving(fields), j) > AVAILABLE
  {
    SmallestBySaving(fields, |r.value|);
  }

  // ---------------------------------------------------------------- fields of one blob each

  lemma SortKeepsOneBlob(fields: seq<Field>)
    requires OneBlobEach(fields)
    ensures OneBlobEach(BySize(fields))
  {
    SortKeepsElements(Larger, fields);
  }

  /** Where all fields cost the same, size orders them as saving does. */
  lemma {:induction false} SameOrder(fields: seq<Field>)
    requires OneBlobEach(fields)
    ensures BySize(fields) == BySaving(fields)
  {
    if fields != [] {
      var init, last := fields[..|fields| - 1], fields[|fields| - 1];
      assert last in fields && forall f :: f in init ==> f in fields;
      SameOrder(init);
      SortKeepsOneBlob(init);
      SameInsert(BySize(init), last);
    }
  }

  lemma {:induction false} SameInsert(fields: seq<Field>, f: Field)
    requires OneBlobEach(fields) && RemoteCost(f) == WALRUS_BLOB_ID_LENGTH
    ensures Insert(Larger, fields, f) == Insert(SavesMore, fields, f)
  {
    if fields != [] {
      assert fields[|fields| - 1] in fields;
      SameInsert(fields[..|fields| - 1], f);
    }
  }

  /** Without arrays the hint names as few fields as any set that makes the rest fit, and a failure means
      that no set does. */
  lemma HintIsOptimalWithoutArrays(fields: seq<Field>, r: Option<seq<Bytes>>, remote: set<Bytes>)
    requires DistinctKeys(fields) && OneBlobEach(fields) && IsHint(fields, r)
    requires Total(fields, remote) <= 57_344
    ensures r.Some? && |r.value| <= |remote|
  {
    SameOrder(fields);
    FittingSetCounts(fields, remote);
  }

  // ---------------------------------------------------------------- where arrays mislead

  /** Two fields, the larger first. */
  lemma TwoFields(a: Field, b: Field)
    requires Size(a) >= Size(b) && a.key != b.key
    ensures BySize([a, b]) == [a, b]
    ensures Required([a, b], 0) == Size(a) + Size(b)
    ensures Required([a, b], 1) == RemoteCost(a) + Size(b)
    ensures Required([a, b], 2) == RemoteCost(a) + RemoteCost(b)
    ensures Total([a, b], {b.key}) == Size(a) + RemoteCost(b)
  {
    var fields := [a, b];
    assert fields[..1] == [a] && [a][..0] == [] && fields[..0] == [] && fields[0..] == fields;
    assert BySize([a]) == [a];
    assert Total([a], {b.key}) == Total([], {b.key}) + Size(a);
    assert SumSizes([a]) == Size(a);
    RequiredStep(fields, 0);
    RequiredStep(fields, 1);
  }

  /** With arrays the greedy order can fail although storing a single field would do: the remote form of
      a long array of short elements is larger than the array. */
  lemma ArraysDefeatTheOrder()
    ensures exists fields, remote :: DistinctKeys(fields) && Total(fields, remote) <= 57_344 && IsHint(fields, None)
  {
    var a := Field([0], seq(49_999, _ => 0), Elements(24_000));
    var b := Field([1], seq(19_999, _ => 0), Scalar);
    assert Size(a) == 50_000 && RemoteCost(a) == 1_056_000;
    assert Size(b) == 20_000 && RemoteCost(b) == 44;
    TwoFields(a, b);
    assert Total([a, b], {[1]}) == 50_044;
    assert IsHint([a, b], None);
  }
}
