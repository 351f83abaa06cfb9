/** Decoding of event contents whose wrapper type is not known: plain, distributed, or scheduled. */
module EventWrappers {
  import opened Bcs
  import opened Options

  const WALK_EVENT: string := "RequestWalkExecutionEvent"
  const ADDRESS_BYTES: nat := 32

  /** What follows the event in a distributed wrapper: deadline, request time, task, leaders. */
  type Distribution = (nat, (nat, (Bytes, seq<Bytes>)))

  /** What follows the request in a scheduled execution: priority, request, start and deadline times. */
  type Slot = (nat, (nat, (nat, nat)))

  function AssignmentCodec(): Codec<(Bytes, seq<Bytes>)>
  {
    PairCodec(RawCodec(ADDRESS_BYTES), SeqCodec(RawCodec(ADDRESS_BYTES)))
  }

  function RequestCodec(): Codec<(nat, (Bytes, seq<Bytes>))>
  {
    PairCodec(U64Codec, AssignmentCodec())
  }

  function DistributionCodec(): Codec<Distribution>
  {
    PairCodec(U64Codec, RequestCodec())
  }

  function SlotCodec(): Codec<Slot>
  {
    PairCodec(U64Codec, PairCodec(U64Codec, PairCodec(U64Codec, U64Codec)))
  }

  function Distributed<T(!new)>(event: Codec<T>): Codec<(T, Distribution)>
  {
    PairCodec(event, DistributionCodec())
  }

  function Scheduled<T(!new)>(event: Codec<T>): Codec<(T, Slot)>
  {
    PairCodec(event, SlotCodec())
  }

  // ---------------------------------------------------------------- parsing

  datatype Metadata = Metadata(deadline: int, requestedAt: int, taskId: Bytes, leaders: seq<Bytes>)
  datatype Parsed<+T> = Failed | Parsed(event: T, metadata: Option<Metadata>)

  /** Reinterprets 64 bits as a signed number. */
  function AsI64(n: nat): int
  {
    if n < 0x8000_0000_0000_0000 then n else n - 0x1_0000_0000_0000_0000
  }

  function MetadataOf(d: Distribution): Metadata
  {
    Metadata(AsI64(d.0), AsI64(d.1.0), d.1.1.0, d.1.1.1)
  }

  /** The request time must be a representable date. */
  function WithMetadata<T>(event: T, d: Distribution, isDate: int -> bool): Parsed<T>
  {
    if isDate(AsI64(d.1.0)) then Parsed(event, Some(MetadataOf(d))) else Failed
  }

  function ParseBcs<T(!new)>(name: string, event: Codec<T>, isDate: int -> bool, b: Bytes): Parsed<T>
  {
    var scheduled: Option<((T, Slot), Distribution)> :=
      if name == WALK_EVENT then FromBytes(Distributed(Scheduled(event)), b) else None;
    if scheduled.Some? then
      WithMetadata(scheduled.value.0.0, scheduled.value.1, isDate)
    else
      var distributed: Option<(T, Distribution)> := FromBytes(Distributed(event), b);
      if distributed.Some? then
        WithMetadata(distributed.value.0, distributed.value.1, isDate)
      else
        match FromBytes(event, b)
        case Some(e) => Parsed(e, None)
        case None => Failed
  }

  // ---------------------------------------------------------------- laws of the wrappers

  lemma WrappersLawful<T(!new)>(event: Codec<T>)
    requires Lawful(event)
    ensures Lawful(DistributionCodec()) && Lawful(SlotCodec())
    ensures Lawful(Distributed(event)) && Lawful(Scheduled(event)) && Lawful(Distributed(Scheduled(event)))
  {
    U64CodecLawful();
    RawCodecLawful(ADDRESS_BYTES);
    SeqCodecLawful(RawCodec(ADDRESS_BYTES));
    PairCodecLawful(RawCodec(ADDRESS_BYTES), SeqCodec(RawCodec(ADDRESS_BYTES)));
    PairCodecLawful(U64Codec, AssignmentCodec());
    PairCodecLawful(U64Codec, RequestCodec());
    PairCodecLawful(U64Codec, U64Codec);
    PairCodecLawful(U64Codec, PairCodec(U64Codec, U64Codec));
    PairCodecLawful(U64Codec, PairCodec(U64Codec, PairCodec(U64Codec, U64Codec)));
    PairCodecLawful(event, DistributionCodec());
    PairCodecLawful(event, SlotCodec());
    PairCodecLawful(Scheduled(event), DistributionCodec());
  }

  /** Four 64-bit numbers: any 32 bytes. */
  lemma SlotDecodes(b: Bytes)
    ensures SlotCodec().decode(b).Good? <==> |b| >= 32
    ensures |b| >= 32 ==> SlotCodec().decode(b).rest == b[32..]
  {
    if |b| >= 32 {
      assert b[8..][8..] == b[16..] && b[16..][8..] == b[24..] && b[24..][8..] == b[32..];
    }
  }

  lemma AssignmentDecodes(b: Bytes)
    ensures AssignmentCodec().decode(b).Good? <==> |b| >= 32 && SeqCodec(RawCodec(ADDRESS_BYTES)).decode(b[32..]).Good?
    ensures AssignmentCodec().decode(b).Good? ==>
      && AssignmentCodec().decode(b).rest == SeqCodec(RawCodec(ADDRESS_BYTES)).decode(b[32..]).rest
      && AssignmentCodec().decode(b).value.1 == SeqCodec(RawCodec(ADDRESS_BYTES)).decode(b[32..]).value
  {
  }

  lemma RequestDecodes(b: Bytes)
    ensures RequestCodec().decode(b).Good? <==> |b| >= 8 && AssignmentCodec().decode(b[8..]).Good?
    ensures RequestCodec().decode(b).Good? ==>
      && RequestCodec().decode(b).rest == AssignmentCodec().decode(b[8..]).rest
      && RequestCodec().decode(b).value.1 == AssignmentCodec().decode(b[8..]).value
  {
  }

  /** Forty-eight bytes, then the leaders. */
  lemma DistributionDecodes(b: Bytes)
    ensures DistributionCodec().decode(b).Good? <==>
        |b| >= 48 && SeqCodec(RawCodec(ADDRESS_BYTES)).decode(b[48..]).Good?
    ensures DistributionCodec().decode(b).Good? ==>
      && DistributionCodec().decode(b).rest == SeqCodec(RawCodec(ADDRESS_BYTES)).decode(b[48..]).rest
      && DistributionCodec().decode(b).value.1.1.1 == SeqCodec(RawCodec(ADDRESS_BYTES)).decode(b[48..]).value
  {
    if |b| >= 8 {
      RequestDecodes(b[8..]);
      if |b| >= 16 {
        assert b[8..][8..] == b[16..];
        AssignmentDecodes(b[16..]);
        if |b| >= 48 {
          assert b[16..][32..] == b[48..];
        }
      }
    }
  }

  /** An event's own bytes leave nothing for any wrapper to read. */
  lemma PlainIsNoWrapper<T(!new)>(event: Codec<T>, x: T)
    requires Lawful(event) && event.valid(x)
    ensures FromBytes(Distributed(event), event.encode(x)) == None
    ensures FromBytes(Distributed(Scheduled(event)), event.encode(x)) == None
  {
    assert Recovers(event, x, []);
    assert event.encode(x) + [] == event.encode(x);
    SlotDecodes([]);
    DistributionDecodes([]);
  }

  // ---------------------------------------------------------------- main results

  /** A plain event of any kind is recovered, without metadata. */
  lemma PlainIsRecovered<T(!new)>(name: string, event: Codec<T>, isDate: int -> bool, x: T)
    requires Lawful(event) && event.valid(x)
    ensures ParseBcs(name, event, isDate, event.encode(x)) == Parsed(x, None)
  {
    PlainIsNoWrapper(event, x);
    FromBytesRecovers(event, x);
  }

  /** The fields that follow an event in a distributed wrapper, as they are sent. */
  datatype Envelope = Envelope(deadlineMs: nat, requestedAtMs: nat, taskId: Bytes, leaders: seq<Bytes>)

  ghost predicate IsEnvelope(e: Envelope)
  {
    && e.deadlineMs < 0x1_0000_0000_0000_0000 && e.requestedAtMs < 0x1_0000_0000_0000_0000
    && |e.taskId| == 32 && |e.leaders| <= 0x7FFF_FFFF && forall l :: l in e.leaders ==> |l| == 32
  }

  /** The bytes of the fields, one after the other. */
  function Wire(e: Envelope): Bytes
  {
    LittleEndian(e.deadlineMs, 8) + LittleEndian(e.requestedAtMs, 8) + e.taskId + Uleb(|e.leaders|) + Joined(e.leaders)
  }

  /** `i` is the 64-bit number `n` read with a sign. */
  ghost predicate IsSigned(i: int, n: nat)
  {
    -0x8000_0000_0000_0000 <= i < 0x8000_0000_0000_0000 && (i - n) % 0x1_0000_0000_0000_0000 == 0
  }

  /** The distribution as the codec sees it. */
  function DistributionOf(e: Envelope): Distribution
  {
    (e.deadlineMs, (e.requestedAtMs, (e.taskId, e.leaders)))
  }

  lemma FiveParts(a: Bytes, b: Bytes, c: Bytes, d: Bytes, e: Bytes)
    ensures a + (b + (c + (d + e))) == a + b + c + d + e
  {
  }

  lemma WireIsEncoded(e: Envelope)
    requires IsEnvelope(e)
    ensures DistributionCodec().valid(DistributionOf(e)) && DistributionCodec().encode(DistributionOf(e)) == Wire(e)
  {
    SixtyFourBits();
    EncodeAllJoins(e.leaders, ADDRESS_BYTES);
    FiveParts(LittleEndian(e.deadlineMs, 8), LittleEndian(e.requestedAtMs, 8), e.taskId, Uleb(|e.leaders|),
        Joined(e.leaders));
  }

  lemma SignedExists(n: nat)
    requires n < 0x1_0000_0000_0000_0000
    ensures IsSigned(AsI64(n), n)
  {
  }

  /** The signed reading is the only one. */
  lemma SignedIsUnique(i: int, j: int, n: nat)
    requires IsSigned(i, n) && IsSigned(j, n)
    ensures i == j
  {
  }

  lemma DistributedIsRead<T(!new)>(name: string, event: Codec<T>, isDate: int -> bool, x: T, d: Distribution)
    requires Lawful(event) && event.valid(x) && DistributionCodec().valid(d) && name != WALK_EVENT
    ensures ParseBcs(name, event, isDate, event.encode(x) + DistributionCodec().encode(d)) == WithMetadata(x, d, isDate)
  {
    WrappersLawful(event);
    FromBytesRecovers(Distributed(event), (x, d));
  }

  /** A distributed event of any kind but the walk request is recovered with its metadata, or refused when its
      request time is no date. */
  lemma DistributedIsRecovered<T(!new)>(name: string, event: Codec<T>, isDate: int -> bool, x: T, e: Envelope)
    returns (deadline: int, requestedAt: int)
    requires Lawful(event) && event.valid(x) && IsEnvelope(e) && name != "RequestWalkExecutionEvent"
    ensures IsSigned(deadline, e.deadlineMs) && IsSigned(requestedAt, e.requestedAtMs)
    ensures ParseBcs(name, event, isDate, event.encode(x) + Wire(e)) ==
      if isDate(requestedAt) then Parsed(x, Some(Metadata(deadline, requestedAt, e.taskId, e.leaders))) else Failed
  {
    deadline, requestedAt := AsI64(e.deadlineMs), AsI64(e.requestedAtMs);
    SignedExists(e.deadlineMs);
    SignedExists(e.requestedAtMs);
    WireIsEncoded(e);
    DistributedIsRead(name, event, isDate, x, DistributionOf(e));
  }

  /** The fields that follow the request in a scheduled execution. */
  datatype Times = Times(priority: nat, requestMs: nat, startMs: nat, deadlineMs: nat)

  ghost predicate AreTimes(t: Times)
  {
    && t.priority < 0x1_0000_0000_0000_0000 && t.requestMs < 0x1_0000_0000_0000_0000
    && t.startMs < 0x1_0000_0000_0000_0000 && t.deadlineMs < 0x1_0000_0000_0000_0000
  }

  function TimesWire(t: Times): Bytes
  {
    LittleEndian(t.priority, 8) + LittleEndian(t.requestMs, 8) + LittleEndian(t.startMs, 8) +
    LittleEndian(t.deadlineMs, 8)
  }

  function SlotOf(t: Times): Slot
  {
    (t.priority, (t.requestMs, (t.startMs, t.deadlineMs)))
  }

  lemma TimesAreEncoded(t: Times)
    requires AreTimes(t)
    ensures SlotCodec().valid(SlotOf(t)) && SlotCodec().encode(SlotOf(t)) == TimesWire(t)
  {
    SixtyFourBits();
    var a, b, c, d := LittleEndian(t.priority, 8), LittleEndian(t.requestMs, 8), LittleEndian(t.startMs, 8),
        LittleEndian(t.deadlineMs, 8);
    assert a + (b + (c + d)) == a + b + c + d;
  }

  /** A scheduled walk request is recovered with its metadata, or refused when its request time is no date. */
  lemma ScheduledWalkIsRecovered<T(!new)>(event: Codec<T>, isDate: int -> bool, x: T, t: Times, e: Envelope)
    returns (deadline: int, requestedAt: int)
    requires Lawful(event) && event.valid(x) && AreTimes(t) && IsEnvelope(e)
    ensures IsSigned(deadline, e.deadlineMs) && IsSigned(requestedAt, e.requestedAtMs)
    ensures ParseBcs("RequestWalkExecutionEvent", event, isDate, event.encode(x) + TimesWire(t) + Wire(e)) ==
      if isDate(requestedAt) then Parsed(x, Some(Metadata(deadline, requestedAt, e.taskId, e.leaders))) else Failed
  {
    deadline, requestedAt := AsI64(e.deadlineMs), AsI64(e.requestedAtMs);
    SignedExists(e.deadlineMs);
    SignedExists(e.requestedAtMs);
    WireIsEncoded(e);
    TimesAreEncoded(t);
    WrappersLawful(event);
    FromBytesRecovers(Distributed(Scheduled(event)), ((x, SlotOf(t)), DistributionOf(e)));
  }

  // ---------------------------------------------------------------- nothing else is accepted

  /** The bytes are those of the event and of the envelope, perhaps with the times of a scheduled walk between. */
  ghost predicate IsSent<T(!new)>(name: string, event: Codec<T>, b: Bytes, x: T, e: Envelope)
  {
    || b == event.encode(x) + Wire(e)
    || (name == "RequestWalkExecutionEvent" &&
        exists t :: AreTimes(t) && b == event.encode(x) + TimesWire(t) + Wire(e))
  }

  function EnvelopeOf(d: Distribution): Envelope
  {
    Envelope(d.0, d.1.0, d.1.1.0, d.1.1.1)
  }

  lemma DecodedEnvelope(d: Distribution)
    requires DistributionCodec().valid(d)
    ensures IsEnvelope(EnvelopeOf(d)) && DistributionCodec().encode(d) == Wire(EnvelopeOf(d))
  {
    SixtyFourBits();
    DistributionFields(d);
    WireIsEncoded(EnvelopeOf(d));
  }

  lemma DecodedTimes(slot: Slot) returns (t: Times)
    requires SlotCodec().valid(slot)
    ensures AreTimes(t) && SlotCodec().encode(slot) == TimesWire(t)
  {
    SixtyFourBits();
    t := Times(slot.0, slot.1.0, slot.1.1.0, slot.1.1.1);
    TimesAreEncoded(t);
  }

  lemma MetadataByField(d: Distribution)
    requires IsEnvelope(EnvelopeOf(d))
    ensures IsSigned(MetadataOf(d).deadline, d.0) && IsSigned(MetadataOf(d).requestedAt, d.1.0)
    ensures MetadataOf(d).taskId == d.1.1.0 && MetadataOf(d).leaders == d.1.1.1
  {
    SignedExists(d.0);
    SignedExists(d.1.0);
  }

  lemma DistributedWasSent<T(!new)>(event: Codec<T>, b: Bytes)
    requires Lawful(event) && FromBytes(Distributed(event), b).Some?
    ensures var (x, d) := FromBytes(Distributed(event), b).value;
      event.valid(x) && IsEnvelope(EnvelopeOf(d)) && b == event.encode(x) + Wire(EnvelopeOf(d))
  {
    WrappersLawful(event);
    FromBytesCanonical(Distributed(event), b);
    DecodedEnvelope(FromBytes(Distributed(event), b).value.1);
  }

  lemma ScheduledWasSent<T(!new)>(event: Codec<T>, b: Bytes) returns (t: Times)
    requires Lawful(event) && FromBytes(Distributed(Scheduled(event)), b).Some?
    ensures AreTimes(t)
    ensures var ((x, _), d) := FromBytes(Distributed(Scheduled(event)), b).value;
      event.valid(x) && IsEnvelope(EnvelopeOf(d)) && b == event.encode(x) + TimesWire(t) + Wire(EnvelopeOf(d))
  {
    WrappersLawful(event);
    FromBytesCanonical(Distributed(Scheduled(event)), b);
    var ((_, slot), d) := FromBytes(Distributed(Scheduled(event)), b).value;
    t := DecodedTimes(slot);
    DecodedEnvelope(d);
  }

  /** Without metadata the bytes are those of the event, with metadata they are those of the event and of an
      envelope with that metadata. */
  ghost predicate WasSent<T(!new)>(name: string, event: Codec<T>, isDate: int -> bool, b: Bytes, r: Parsed<T>)
  {
    match r
    case Failed => true
    case Parsed(x, None) => event.valid(x) && b == event.encode(x)
    case Parsed(x, Some(m)) => event.valid(x) && isDate(m.requestedAt) && exists e ::
      IsEnvelope(e) && IsSent(name, event, b, x, e) && IsSigned(m.deadline, e.deadlineMs)
      && IsSigned(m.requestedAt, e.requestedAtMs) && m.taskId == e.taskId && m.leaders == e.leaders
  }

  lemma MetadataWasSent<T(!new)>(name: string, event: Codec<T>, isDate: int -> bool, b: Bytes, x: T, d: Distribution)
    requires event.valid(x) && IsEnvelope(EnvelopeOf(d)) && IsSent(name, event, b, x, EnvelopeOf(d))
    ensures WasSent(name, event, isDate, b, WithMetadata(x, d, isDate))
  {
    MetadataByField(d);
  }

  /** Whatever is recovered was sent. */
  lemma RecoveredWasSent<T(!new)>(name: string, event: Codec<T>, isDate: int -> bool, b: Bytes)
    requires Lawful(event)
    ensures WasSent(name, event, isDate, b, ParseBcs(name, event, isDate, b))
  {
    if name == WALK_EVENT && FromBytes(Distributed(Scheduled(event)), b).Some? {
      var t := ScheduledWasSent(event, b);
      var ((x, _), d) := FromBytes(Distributed(Scheduled(event)), b).value;
      MetadataWasSent(name, event, isDate, b, x, d);
    } else if FromBytes(Distributed(event), b).Some? {
      DistributedWasSent(event, b);
      var (x, d) := FromBytes(Distributed(event), b).value;
      MetadataWasSent(name, event, isDate, b, x, d);
    } else if FromBytes(event, b).Some? {
      FromBytesCanonical(event, b);
    }
  }

  // ---------------------------------------------------------------- the ambiguous wrapper

  /** The leader list reads as the tail of a scheduled wrapper: the first leader's address ends with the
      encoded number of the other leaders. */
  predicate LeadersLookScheduled(leaders: seq<Bytes>)
    requires forall l :: l in leaders ==> |l| == ADDRESS_BYTES
  {
    && leaders != []
    && |Uleb(|leaders|)| <= ADDRESS_BYTES
    && assert leaders[0] in leaders;
       leaders[0][ADDRESS_BYTES - |Uleb(|leaders|)|..] == Uleb(|leaders| - 1)
  }

  lemma {:induction false} RawSize(xs: seq<Bytes>)
    requires forall x :: x in xs ==> |x| == ADDRESS_BYTES
    ensures |EncodeAll(RawCodec(ADDRESS_BYTES), xs)| == ADDRESS_BYTES * |xs|
  {
    if xs != [] {
      assert xs[0] in xs;
      forall x | x in xs[1..] ensures |x| == ADDRESS_BYTES {
        assert x in xs;
      }
      RawSize(xs[1..]);
    }
  }

  function Power128(k: nat): nat
  {
    if k == 0 then 1 else 0x80 * Power128(k - 1)
  }

  lemma {:induction false} UlebSizeBelow(n: nat, k: nat)
    requires k >= 1 && n < Power128(k)
    ensures |Uleb(n)| <= k
  {
    if n >= 0x80 {
      assert Power128(k) == 0x80 * Power128(k - 1);
      UlebSizeBelow(n / 0x80, k - 1);
    }
  }

  lemma UlebSize(n: nat)
    requires n <= MAX_SEQUENCE_LENGTH
    ensures 1 <= |Uleb(n)| <= 5
  {
    assert Power128(1) == 0x80 && Power128(2) == 0x4000 && Power128(3) == 0x20_0000;
    assert Power128(4) == 0x1000_0000 && Power128(5) == 0x8_0000_0000;
    UlebSizeBelow(n, 5);
  }

  /** Equal prefixes of equal length. */
  lemma SamePrefix(a: Bytes, b: Bytes, c: Bytes, d: Bytes)
    requires a + b == c + d && |a| == |c|
    ensures a == c && b == d
  {
    assert a == (a + b)[..|a|] && c == (c + d)[..|c|];
    assert b == (a + b)[|a|..] && d == (c + d)[|c|..];
  }

  lemma LengthReadsWhole(rest: seq<Bytes>)
    requires |rest| <= MAX_SEQUENCE_LENGTH && forall l :: l in rest ==> |l| == ADDRESS_BYTES
    ensures FromBytes(SeqCodec(RawCodec(ADDRESS_BYTES)), Uleb(|rest|) +
        EncodeAll(RawCodec(ADDRESS_BYTES), rest)) == Some(rest)
  {
    RawCodecLawful(ADDRESS_BYTES);
    SeqCodecLawful(RawCodec(ADDRESS_BYTES));
    FromBytesRecovers(SeqCodec(RawCodec(ADDRESS_BYTES)), rest);
  }

  lemma WholeReadIsLength(head: Bytes, rest: seq<Bytes>)
    requires 1 <= |head| <= 5 && forall l :: l in rest ==> |l| == ADDRESS_BYTES
    requires FromBytes(SeqCodec(RawCodec(ADDRESS_BYTES)), head + EncodeAll(RawCodec(ADDRESS_BYTES), rest)).Some?
    ensures head == Uleb(|rest|)
  {
    var raw := RawCodec(ADDRESS_BYTES);
    RawCodecLawful(ADDRESS_BYTES);
    SeqCodecLawful(raw);
    FromBytesCanonical(SeqCodec(raw), head + EncodeAll(raw, rest));
    SameLeaderBytes(head, rest, FromBytes(SeqCodec(raw), head + EncodeAll(raw, rest)).value);
  }

  lemma SameLeaderBytes(head: Bytes, rest: seq<Bytes>, leaders: seq<Bytes>)
    requires 1 <= |head| <= 5 && forall l :: l in rest ==> |l| == ADDRESS_BYTES
    requires |leaders| <= MAX_SEQUENCE_LENGTH && forall i :: 0 <= i < |leaders| ==> |leaders[i]| == ADDRESS_BYTES
    requires head + EncodeAll(RawCodec(ADDRESS_BYTES), rest) ==
        Uleb(|leaders|) + EncodeAll(RawCodec(ADDRESS_BYTES), leaders)
    ensures head == Uleb(|rest|)
  {
    UlebSize(|leaders|);
    RawSize(leaders);
    RawSize(rest);
    assert |leaders| == |rest|;
    SamePrefix(head, EncodeAll(RawCodec(ADDRESS_BYTES), rest), Uleb(|leaders|), EncodeAll(RawCodec(ADDRESS_BYTES),
        leaders));
  }

  /** A few bytes followed by the addresses of `rest` read as a whole leader list exactly when the bytes
      are the length of `rest`. */
  lemma LeadersReadWhole(head: Bytes, rest: seq<Bytes>)
    requires 1 <= |head| <= 5 && |rest| <= MAX_SEQUENCE_LENGTH && forall l :: l in rest ==> |l| == ADDRESS_BYTES
    ensures var b := head + EncodeAll(RawCodec(ADDRESS_BYTES), rest);
      && (FromBytes(SeqCodec(RawCodec(ADDRESS_BYTES)), b).Some? <==> head == Uleb(|rest|))
      && (head == Uleb(|rest|) ==> FromBytes(SeqCodec(RawCodec(ADDRESS_BYTES)), b) == Some(rest))
  {
    LengthReadsWhole(rest);
    if FromBytes(SeqCodec(RawCodec(ADDRESS_BYTES)), head + EncodeAll(RawCodec(ADDRESS_BYTES), rest)).Some? {
      WholeReadIsLength(head, rest);
    }
  }

  lemma AfterEighty(fixed: Bytes, u: Bytes, first: Bytes, others: Bytes)
    requires |fixed| == 48 && |first| == ADDRESS_BYTES && |u| <= 5
    ensures (fixed + (u + (first + others)))[80..] == first[ADDRESS_BYTES - |u|..] + others
  {
  }

  function Prefix(d: Distribution): Bytes
  {
    LittleEndian(d.0, 8) + (LittleEndian(d.1.0, 8) + d.1.1.0)
  }

  lemma Regroup(a: Bytes, b: Bytes, c: Bytes, d: Bytes)
    ensures a + (b + (c + d)) == (a + (b + c)) + d
  {
    assert b + (c + d) == (b + c) + d;
  }

  lemma DistributionBytes(d: Distribution)
    ensures DistributionCodec().encode(d) == Prefix(d) + SeqCodec(RawCodec(ADDRESS_BYTES)).encode(d.1.1.1)
  {
    Regroup(LittleEndian(d.0, 8), LittleEndian(d.1.0, 8), d.1.1.0, SeqCodec(RawCodec(ADDRESS_BYTES)).encode(d.1.1.1));
  }

  lemma DistributionFields(d: Distribution)
    requires DistributionCodec().valid(d)
    ensures |Prefix(d)| == 48 && |d.1.1.1| <= MAX_SEQUENCE_LENGTH
    ensures forall l :: l in d.1.1.1 ==> |l| == ADDRESS_BYTES
  {
  }

  /** The bytes of a distribution that has leaders, after the first eighty. */
  lemma DistributionTail(d: Distribution)
    requires DistributionCodec().valid(d) && d.1.1.1 != []
    ensures var b := DistributionCodec().encode(d); var leaders := d.1.1.1;
      && |b| >= 80 && |Uleb(|leaders|)| <= 5 && |leaders[0]| == ADDRESS_BYTES
      && b[80..] == leaders[0][ADDRESS_BYTES - |Uleb(|leaders|)|..] + EncodeAll(RawCodec(ADDRESS_BYTES), leaders[1..])
  {
    var leaders := d.1.1.1;
    DistributionFields(d);
    DistributionBytes(d);
    UlebSize(|leaders|);
    assert leaders[0] in leaders;
    AfterEighty(Prefix(d), Uleb(|leaders|), leaders[0], EncodeAll(RawCodec(ADDRESS_BYTES), leaders[1..]));
  }

  lemma DistributionWithoutLeaders(d: Distribution)
    requires DistributionCodec().valid(d) && d.1.1.1 == []
    ensures |DistributionCodec().encode(d)| == 49
  {
    DistributionFields(d);
    DistributionBytes(d);
    assert Uleb(0) == [0];
  }

  /** Reading two nested wrappers around a known value. */
  lemma NestedFromBytes<T(!new), U(!new), V(!new)>(event: Codec<T>, inner: Codec<U>, outer: Codec<V>, x: T, b: Bytes)
    requires Recovers(event, x, b)
    ensures var r := FromBytes(PairCodec(PairCodec(event, inner), outer), event.encode(x) + b);
      && (r.Some? <==> inner.decode(b).Good? && FromBytes(outer, inner.decode(b).rest).Some?)
      && (r.Some? ==> r.value.1 == FromBytes(outer, inner.decode(b).rest).value)
  {
  }

  lemma DistributionFromBytes(b: Bytes)
    ensures var r := FromBytes(DistributionCodec(), b);
      && (r.Some? <==> |b| >= 48 && FromBytes(SeqCodec(RawCodec(ADDRESS_BYTES)), b[48..]).Some?)
      && (r.Some? ==> r.value.1.1.1 == FromBytes(SeqCodec(RawCodec(ADDRESS_BYTES)), b[48..]).value)
  {
    DistributionDecodes(b);
  }

  /** What the first attempt reads after an event: a leader list after eighty bytes. */
  ghost function LeadersAfterEighty(b: Bytes): Option<seq<Bytes>>
  {
    if |b| >= 80 then FromBytes(SeqCodec(RawCodec(ADDRESS_BYTES)), b[80..]) else None
  }

  lemma FirstAttemptReads<T(!new)>(event: Codec<T>, x: T, b: Bytes)
    requires Lawful(event) && event.valid(x)
    ensures var r := FromBytes(Distributed(Scheduled(event)), event.encode(x) + b);
      && (r.Some? <==> LeadersAfterEighty(b).Some?)
      && (r.Some? ==> r.value.1.1.1.1 == LeadersAfterEighty(b).value)
  {
    assert Recovers(event, x, b);
    NestedFromBytes(event, SlotCodec(), DistributionCodec(), x, b);
    SlotDecodes(b);
    if |b| >= 32 {
      DistributionFromBytes(b[32..]);
      if |b| >= 80 {
        assert b[32..][48..] == b[80..];
      }
    }
  }

  lemma TailLooksScheduled(b: Bytes, leaders: seq<Bytes>)
    requires leaders != [] && |leaders| <= MAX_SEQUENCE_LENGTH && |b| >= 80
    requires |leaders[0]| == ADDRESS_BYTES && forall l :: l in leaders ==> |l| == ADDRESS_BYTES
    requires 1 <= |Uleb(|leaders|)| <= 5
    requires b[80..] == leaders[0][ADDRESS_BYTES - |Uleb(|leaders|)|..] +
        EncodeAll(RawCodec(ADDRESS_BYTES), leaders[1..])
    ensures LeadersAfterEighty(b).Some? <==> LeadersLookScheduled(leaders)
    ensures LeadersAfterEighty(b).Some? ==> LeadersAfterEighty(b).value == leaders[1..]
  {
    forall l | l in leaders[1..] ensures |l| == ADDRESS_BYTES {
      assert l in leaders;
    }
    LeadersReadWhole(leaders[0][ADDRESS_BYTES - |Uleb(|leaders|)|..], leaders[1..]);
  }

  /** The leaders of a distribution that the first attempt would find. */
  lemma DistributionLooksScheduled(d: Distribution)
    requires DistributionCodec().valid(d)
    ensures forall l :: l in d.1.1.1 ==> |l| == ADDRESS_BYTES
    ensures LeadersAfterEighty(DistributionCodec().encode(d)).Some? <==> LeadersLookScheduled(d.1.1.1)
    ensures LeadersAfterEighty(DistributionCodec().encode(d)) != Some(d.1.1.1)
  {
    DistributionFields(d);
    if d.1.1.1 == [] {
      DistributionWithoutLeaders(d);
    } else {
      DistributionTail(d);
      TailLooksScheduled(DistributionCodec().encode(d), d.1.1.1);
    }
  }

  /** Whether the first attempt takes a distributed walk request for a scheduled one. */
  lemma FirstAttempt<T(!new)>(event: Codec<T>, x: T, d: Distribution)
    requires Lawful(event) && event.valid(x) && DistributionCodec().valid(d)
    ensures forall l :: l in d.1.1.1 ==> |l| == ADDRESS_BYTES
    ensures var r := FromBytes(Distributed(Scheduled(event)), Distributed(event).encode((x, d)));
      (r.Some? <==> LeadersLookScheduled(d.1.1.1)) && (r.Some? ==> r.value.1.1.1.1 != d.1.1.1)
  {
    DistributionLooksScheduled(d);
    FirstAttemptReads(event, x, DistributionCodec().encode(d));
  }

  lemma SecondAttempt<T(!new)>(event: Codec<T>, isDate: int -> bool, x: T, d: Distribution)
    requires Lawful(event) && event.valid(x) && DistributionCodec().valid(d)
    ensures forall l :: l in d.1.1.1 ==> |l| == ADDRESS_BYTES
    ensures !LeadersLookScheduled(d.1.1.1) ==>
      ParseBcs(WALK_EVENT, event, isDate, Distributed(event).encode((x, d))) == WithMetadata(x, d, isDate)
    ensures LeadersLookScheduled(d.1.1.1) ==>
      ParseBcs(WALK_EVENT, event, isDate, Distributed(event).encode((x, d))) != Parsed(x, Some(MetadataOf(d)))
  {
    WrappersLawful(event);
    FirstAttempt(event, x, d);
    FromBytesRecovers(Distributed(event), (x, d));
  }

  /** Exactly when an unscheduled distributed walk request is recovered: when its leaders do not look like
      the tail of a scheduled one. If they do, no metadata comes back right. */
  lemma DistributedWalkIsRecovered<T(!new)>(event: Codec<T>, isDate: int -> bool, x: T, e: Envelope)
    returns (deadline: int, requestedAt: int)
    requires Lawful(event) && event.valid(x) && IsEnvelope(e)
    ensures IsSigned(deadline, e.deadlineMs) && IsSigned(requestedAt, e.requestedAtMs)
    ensures var r := ParseBcs("RequestWalkExecutionEvent", event, isDate, event.encode(x) + Wire(e));
      if LeadersLookScheduled(e.leaders) then
        r != Parsed(x, Some(Metadata(deadline, requestedAt, e.taskId, e.leaders)))
      else
        r == if !isDate(requestedAt) then Failed
             else Parsed(x, Some(Metadata(deadline, requestedAt, e.taskId, e.leaders)))
  {
    deadline, requestedAt := AsI64(e.deadlineMs), AsI64(e.requestedAtMs);
    SignedExists(e.deadlineMs);
    SignedExists(e.requestedAtMs);
    WireIsEncoded(e);
    SecondAttempt(event, isDate, x, DistributionOf(e));
  }

  lemma ZerosLookScheduled(zeros: Bytes)
    requires zeros == seq(ADDRESS_BYTES, _ => 0)
    ensures LeadersLookScheduled([zeros])
  {
    assert Uleb(0) == [0] && |Uleb(1)| == 1;
    assert zeros[31..] == [0];
  }

  lemma ZerosEnvelope(zeros: Bytes)
    requires zeros == seq(ADDRESS_BYTES, _ => 0)
    ensures IsEnvelope(Envelope(0, 0, zeros, [zeros])) && LeadersLookScheduled([zeros])
  {
    ZerosLookScheduled(zeros);
  }

  /** One leader whose address is all zeros is enough: whatever the event, it is misread. */
  lemma SomeWalkIsMisread<T(!new)>(event: Codec<T>, isDate: int -> bool, x: T) returns (e: Envelope)
    requires Lawful(event) && event.valid(x)
    ensures IsEnvelope(e) && |e.leaders| == 1 && e.deadlineMs == e.requestedAtMs == 0
    ensures ParseBcs("RequestWalkExecutionEvent", event, isDate, event.encode(x) + Wire(e)) !=
      Parsed(x, Some(Metadata(0, 0, e.taskId, e.leaders)))
  {
    var zeros: Bytes := seq(ADDRESS_BYTES, _ => 0);
    e := Envelope(0, 0, zeros, [zeros]);
    ZerosEnvelope(zeros);
    var deadline, requestedAt := DistributedWalkIsRecovered(event, isDate, x, e);
    SignedIsUnique(deadline, 0, 0);
    SignedIsUnique(requestedAt, 0, 0);
  }
}
