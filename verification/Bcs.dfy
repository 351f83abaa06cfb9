/** Binary Canonical Serialization, as far as the codecs here need it: ULEB128 lengths (section
    "ULEB128-Encoded Integers"), little-endian integers, and sequences (section "Fixed and Variable
    Length Sequences"). A codec reads a prefix of its input and returns the rest. */
module Bcs {
  import opened Options

  type byte = x: int | 0 <= x < 0x100
  type Bytes = seq<byte>

  datatype Decoded<+T> = Bad | Good(value: T, rest: Bytes)

  const MAX_SEQUENCE_LENGTH: nat := 0x7FFF_FFFF

  datatype Codec<!T(!new)> = Codec(valid: T -> bool, encode: T -> Bytes, decode: Bytes -> Decoded<T>)

  /** Encoding then decoding gives the value back and leaves the rest; whatever decodes was encoded. */
  ghost predicate Lawful<T(!new)>(c: Codec<T>)
  {
    && (forall x, rest :: c.valid(x) ==> Recovers(c, x, rest))
    && (forall b :: Canonical(c, b))
  }

  ghost predicate Recovers<T(!new)>(c: Codec<T>, x: T, rest: Bytes)
  {
    c.decode(c.encode(x) + rest) == Good(x, rest)
  }

  ghost predicate Canonical<T(!new)>(c: Codec<T>, b: Bytes)
  {
    c.decode(b).Good? ==> c.valid(c.decode(b).value) && b == c.encode(c.decode(b).value) + c.decode(b).rest
  }

  lemma Associate(p: Bytes, q: Bytes, x: Bytes)
    ensures p + q + x == p + (q + x)
  {
  }

  /** The bytes of a plain text. */
  function Ascii(text: string): Bytes
    requires forall i :: 0 <= i < |text| ==> text[i] < 128 as char
  {
    seq(|text|, i requires 0 <= i < |text| => text[i] as int)
  }

  /** The number that digits mean, the lowest digit first. */
  function Value(base: nat, digits: seq<nat>): nat
  {
    if digits == [] then 0 else digits[0] + base * Value(base, digits[1..])
  }

  // ---------------------------------------------------------------- ULEB128

  function Uleb(n: nat): (b: Bytes)
    ensures b != []
  {
    if n < 0x80 then [n] else [0x80 + n % 0x80] + Uleb(n / 0x80)
  }

  /** Rejects encodings that are longer than needed. */
  function DecodeUleb(b: Bytes): Decoded<nat>
    decreases |b|
  {
    if b == [] then Bad
    else if b[0] < 0x80 then Good(b[0], b[1..])
    else match DecodeUleb(b[1..])
      case Bad => Bad
      case Good(high, rest) => if high == 0 then Bad else Good(b[0] - 0x80 + 0x80 * high, rest)
  }

  lemma {:induction false} UlebRecovers(n: nat, rest: Bytes)
    ensures DecodeUleb(Uleb(n) + rest) == Good(n, rest)
  {
    if n < 0x80 {
      assert (Uleb(n) + rest)[1..] == rest;
    } else {
      UlebRecovers(n / 0x80, rest);
      Associate([0x80 + n % 0x80], Uleb(n / 0x80), rest);
      assert (Uleb(n) + rest)[0] == 0x80 + n % 0x80;
      assert (Uleb(n) + rest)[1..] == Uleb(n / 0x80) + rest;
    }
  }

  lemma {:induction false} UlebCanonical(b: Bytes)
    ensures DecodeUleb(b).Good? ==> b == Uleb(DecodeUleb(b).value) + DecodeUleb(b).rest
    decreases |b|
  {
    if b != [] {
      assert b == [b[0]] + b[1..];
      if b[0] >= 0x80 {
        UlebCanonical(b[1..]);
      }
    }
  }

  function Low7(b: Bytes): seq<nat>
  {
    seq(|b|, i requires 0 <= i < |b| => b[i] % 0x80)
  }

  /** Seven bits a byte, the lowest first; the high bit says that more follows; no zero byte ends a longer
      encoding. */
  lemma {:induction false} UlebIsPositional(n: nat)
    ensures Value(0x80, Low7(Uleb(n))) == n
    ensures forall i :: 0 <= i < |Uleb(n)| ==> (Uleb(n)[i] >= 0x80 <==> i < |Uleb(n)| - 1)
    ensures |Uleb(n)| > 1 ==> Uleb(n)[|Uleb(n)| - 1] != 0
  {
    assert Low7(Uleb(n))[1..] == Low7(Uleb(n)[1..]);
    if n >= 0x80 {
      UlebIsPositional(n / 0x80);
      assert Uleb(n)[1..] == Uleb(n / 0x80);
    }
  }

  lemma {:induction false} UlebMonotone(m: nat, n: nat)
    requires m <= n
    ensures |Uleb(m)| <= |Uleb(n)|
  {
    if m >= 0x80 {
      UlebMonotone(m / 0x80, n / 0x80);
    }
  }

  /** Sequence lengths are limited. */
  const LengthCodec: Codec<nat> := Codec(
    (n: nat) => n <= MAX_SEQUENCE_LENGTH,
    (n: nat) => Uleb(n),
    (b: Bytes) => match DecodeUleb(b) case Bad => Bad
        case Good(n, rest) => if n <= MAX_SEQUENCE_LENGTH then Good(n, rest) else Bad)

  lemma LengthCodecLawful()
    ensures Lawful(LengthCodec)
  {
    forall n: nat, rest | n <= MAX_SEQUENCE_LENGTH ensures Recovers(LengthCodec, n, rest) {
      UlebRecovers(n, rest);
    }
    forall b ensures Canonical(LengthCodec, b) {
      UlebCanonical(b);
    }
  }

  // ---------------------------------------------------------------- fixed-size values

  function LittleEndian(n: nat, size: nat): (b: Bytes)
    ensures |b| == size
  {
    if size == 0 then [] else [n % 0x100] + LittleEndian(n / 0x100, size - 1)
  }

  function FromLittleEndian(b: Bytes): nat
  {
    if b == [] then 0 else b[0] + 0x100 * FromLittleEndian(b[1..])
  }

  function Power256(size: nat): nat
  {
    if size == 0 then 1 else 0x100 * Power256(size - 1)
  }

  lemma {:induction false} LittleEndianRecovers(n: nat, size: nat)
    requires n < Power256(size)
    ensures FromLittleEndian(LittleEndian(n, size)) == n
  {
    if size > 0 {
      LittleEndianRecovers(n / 0x100, size - 1);
    }
  }

  /** Eight bits a byte, the lowest first. */
  lemma {:induction false} LittleEndianIsPositional(n: nat, size: nat)
    requires n < Power256(size)
    ensures Value(0x100, LittleEndian(n, size)) == n
  {
    if size > 0 {
      LittleEndianIsPositional(n / 0x100, size - 1);
      assert LittleEndian(n, size)[1..] == LittleEndian(n / 0x100, size - 1);
    }
  }

  /** The limit of a 64-bit number. */
  lemma SixtyFourBits()
    ensures Power256(8) == 0x1_0000_0000_0000_0000
  {
    assert Power256(2) == 0x1_0000 && Power256(4) == 0x1_0000_0000 && Power256(6) == 0x1_0000_0000_0000;
  }

  lemma SplitByte(low: byte, high: nat)
    ensures (low + 0x100 * high) / 0x100 == high && (low + 0x100 * high) % 0x100 == low
  {
  }

  lemma {:induction false} LittleEndianCanonical(b: Bytes)
    ensures FromLittleEndian(b) < Power256(|b|)
    ensures LittleEndian(FromLittleEndian(b), |b|) == b
  {
    if b != [] {
      LittleEndianCanonical(b[1..]);
      SplitByte(b[0], FromLittleEndian(b[1..]));
      assert b == [b[0]] + b[1..];
    }
  }

  const U64Codec: Codec<nat> := Codec(
    (n: nat) => n < Power256(8),
    (n: nat) => LittleEndian(n, 8),
    (b: Bytes) => if |b| < 8 then Bad else Good(FromLittleEndian(b[..8]), b[8..]))

  lemma U64CodecLawful()
    ensures Lawful(U64Codec)
  {
    forall n: nat, rest | n < Power256(8) ensures Recovers(U64Codec, n, rest) {
      LittleEndianRecovers(n, 8);
      assert (LittleEndian(n, 8) + rest)[..8] == LittleEndian(n, 8);
      assert (LittleEndian(n, 8) + rest)[8..] == rest;
    }
    forall b: Bytes ensures Canonical(U64Codec, b) {
      if |b| >= 8 {
        LittleEndianCanonical(b[..8]);
        assert b == b[..8] + b[8..];
      }
    }
  }

  /** `size` raw bytes. */
  function RawCodec(size: nat): Codec<Bytes>
  {
    Codec(
      (x: Bytes) => |x| == size,
      (x: Bytes) => x,
      (b: Bytes) => if |b| < size then Bad else Good(b[..size], b[size..]))
  }

  lemma RawCodecLawful(size: nat)
    ensures Lawful(RawCodec(size))
  {
    forall x: Bytes, rest | |x| == size ensures Recovers(RawCodec(size), x, rest) {
      assert (x + rest)[..size] == x && (x + rest)[size..] == rest;
    }
    forall b: Bytes ensures Canonical(RawCodec(size), b) {
      if |b| >= size {
        assert b == b[..size] + b[size..];
      }
    }
  }

  // ---------------------------------------------------------------- products and sequences

  function PairCodec<S(!new), T(!new)>(s: Codec<S>, t: Codec<T>): Codec<(S, T)>
  {
    Codec(
      (p: (S, T)) => s.valid(p.0) && t.valid(p.1),
      (p: (S, T)) => s.encode(p.0) + t.encode(p.1),
      (b: Bytes) => match s.decode(b)
        case Bad => Bad
        case Good(x, more) => match t.decode(more)
          case Bad => Bad
          case Good(y, rest) => Good((x, y), rest))
  }

  lemma PairCodecLawful<S(!new), T(!new)>(s: Codec<S>, t: Codec<T>)
    requires Lawful(s) && Lawful(t)
    ensures Lawful(PairCodec(s, t))
  {
    var c := PairCodec(s, t);
    forall p, rest | c.valid(p) ensures Recovers(c, p, rest) {
      assert c.encode(p) + rest == s.encode(p.0) + (t.encode(p.1) + rest);
      assert Recovers(s, p.0, t.encode(p.1) + rest) && Recovers(t, p.1, rest);
    }
    forall b ensures Canonical(c, b) {
      if c.decode(b).Good? {
        assert Canonical(s, b) && Canonical(t, s.decode(b).rest);
        var x, y := c.decode(b).value.0, c.decode(b).value.1;
        assert b == s.encode(x) + (t.encode(y) + c.decode(b).rest);
        assert b == (s.encode(x) + t.encode(y)) + c.decode(b).rest;
      }
    }
  }

  function EncodeAll<T(!new)>(c: Codec<T>, xs: seq<T>): Bytes
  {
    if xs == [] then [] else c.encode(xs[0]) + EncodeAll(c, xs[1..])
  }

  function DecodeAll<T(!new)>(c: Codec<T>, count: nat, b: Bytes): Decoded<seq<T>>
  {
    if count == 0 then Good([], b)
    else match c.decode(b)
      case Bad => Bad
      case Good(x, more) => match DecodeAll(c, count - 1, more)
        case Bad => Bad
        case Good(xs, rest) => Good([x] + xs, rest)
  }

  ghost predicate AllValid<T(!new)>(c: Codec<T>, xs: seq<T>)
  {
    forall x :: x in xs ==> c.valid(x)
  }

  lemma {:induction false} EncodeAllRecovers<T(!new)>(c: Codec<T>, xs: seq<T>, rest: Bytes)
    requires Lawful(c) && AllValid(c, xs)
    ensures DecodeAll(c, |xs|, EncodeAll(c, xs) + rest) == Good(xs, rest)
  {
    if xs == [] {
      assert EncodeAll(c, xs) + rest == rest;
    } else {
      EncodeAllRecovers(c, xs[1..], rest);
      assert Recovers(c, xs[0], EncodeAll(c, xs[1..]) + rest);
      assert xs == [xs[0]] + xs[1..];
      assert EncodeAll(c, xs) + rest == c.encode(xs[0]) + (EncodeAll(c, xs[1..]) + rest);
    }
  }

  /** The parts, one after the other. */
  function Joined(parts: seq<Bytes>): Bytes
  {
    if parts == [] then [] else parts[0] + Joined(parts[1..])
  }

  /** The parts, each after its length. */
  function Prefixed(parts: seq<Bytes>): Bytes
  {
    if parts == [] then [] else Uleb(|parts[0]|) + parts[0] + Prefixed(parts[1..])
  }

  lemma {:induction false} EncodeAllJoins(parts: seq<Bytes>, size: nat)
    ensures EncodeAll(RawCodec(size), parts) == Joined(parts)
  {
    if parts != [] {
      EncodeAllJoins(parts[1..], size);
    }
  }

  lemma {:induction false} EncodeAllPrefixes(parts: seq<Bytes>)
    ensures EncodeAll(BytesCodec, parts) == Prefixed(parts)
  {
    if parts != [] {
      EncodeAllPrefixes(parts[1..]);
    }
  }

  /** An encoded sequence is its encoded elements in order. */
  lemma {:induction false} EncodeAllByElement<T(!new)>(c: Codec<T>, xs: seq<T>, parts: seq<Bytes>)
    requires |parts| == |xs| && forall i :: 0 <= i < |xs| ==> c.encode(xs[i]) == parts[i]
    ensures EncodeAll(c, xs) == Joined(parts)
  {
    if xs != [] {
      EncodeAllByElement(c, xs[1..], parts[1..]);
    }
  }

  lemma {:induction false} EncodeAllConcat<T(!new)>(c: Codec<T>, xs: seq<T>, ys: seq<T>)
    ensures EncodeAll(c, xs + ys) == EncodeAll(c, xs) + EncodeAll(c, ys)
  {
    if xs == [] {
      assert xs + ys == ys;
    } else {
      EncodeAllConcat(c, xs[1..], ys);
      assert (xs + ys)[0] == xs[0] && (xs + ys)[1..] == xs[1..] + ys;
      Associate(c.encode(xs[0]), EncodeAll(c, xs[1..]), EncodeAll(c, ys));
    }
  }

  lemma {:induction false} DecodeAllCanonical<T(!new)>(c: Codec<T>, count: nat, b: Bytes)
    requires Lawful(c)
    ensures var d := DecodeAll(c, count, b);
      d.Good? ==> |d.value| == count && AllValid(c, d.value) && b == EncodeAll(c, d.value) + d.rest
  {
    if count > 0 && DecodeAll(c, count, b).Good? {
      assert Canonical(c, b);
      var x, more := c.decode(b).value, c.decode(b).rest;
      DecodeAllCanonical(c, count - 1, more);
      var d := DecodeAll(c, count - 1, more);
      assert ([x] + d.value)[1..] == d.value;
      assert b == c.encode(x) + (EncodeAll(c, d.value) + d.rest);
    }
  }

  /** A length-prefixed sequence. */
  function SeqCodec<T(!new)>(c: Codec<T>): Codec<seq<T>>
  {
    Codec(
      (xs: seq<T>) => |xs| <= MAX_SEQUENCE_LENGTH && forall i :: 0 <= i < |xs| ==> c.valid(xs[i]),
      (xs: seq<T>) => Uleb(|xs|) + EncodeAll(c, xs),
      (b: Bytes) => match LengthCodec.decode(b)
        case Bad => Bad
        case Good(n, more) => DecodeAll(c, n, more))
  }

  lemma SeqRecovers<T(!new)>(c: Codec<T>, xs: seq<T>, rest: Bytes)
    requires Lawful(c) && SeqCodec(c).valid(xs)
    ensures Recovers(SeqCodec(c), xs, rest)
  {
    LengthCodecLawful();
    EncodeAllRecovers(c, xs, rest);
    assert Recovers(LengthCodec, |xs|, EncodeAll(c, xs) + rest);
    Associate(Uleb(|xs|), EncodeAll(c, xs), rest);
  }

  lemma SeqCanonical<T(!new)>(c: Codec<T>, b: Bytes)
    requires Lawful(c)
    ensures Canonical(SeqCodec(c), b)
  {
    LengthCodecLawful();
    if SeqCodec(c).decode(b).Good? {
      assert Canonical(LengthCodec, b);
      var n, more := LengthCodec.decode(b).value, LengthCodec.decode(b).rest;
      DecodeAllCanonical(c, n, more);
      Associate(Uleb(n), EncodeAll(c, SeqCodec(c).decode(b).value), SeqCodec(c).decode(b).rest);
    }
  }

  lemma SeqCodecLawful<T(!new)>(c: Codec<T>)
    requires Lawful(c)
    ensures Lawful(SeqCodec(c))
  {
    forall xs, rest | SeqCodec(c).valid(xs) ensures Recovers(SeqCodec(c), xs, rest) {
      SeqRecovers(c, xs, rest);
    }
    forall b ensures Canonical(SeqCodec(c), b) {
      SeqCanonical(c, b);
    }
  }

  /** A length-prefixed byte string: a sequence of one-byte values. */
  const BytesCodec: Codec<Bytes> := Codec(
    (x: Bytes) => |x| <= MAX_SEQUENCE_LENGTH,
    (x: Bytes) => Uleb(|x|) + x,
    (b: Bytes) => match LengthCodec.decode(b)
      case Bad => Bad
      case Good(n, more) => RawCodec(n).decode(more))

  lemma BytesRecovers(x: Bytes, rest: Bytes)
    requires |x| <= MAX_SEQUENCE_LENGTH
    ensures Recovers(BytesCodec, x, rest)
  {
    LengthCodecLawful();
    RawCodecLawful(|x|);
    assert Recovers(RawCodec(|x|), x, rest);
    assert Recovers(LengthCodec, |x|, x + rest);
    Associate(Uleb(|x|), x, rest);
  }

  lemma BytesCanonical(b: Bytes)
    ensures Canonical(BytesCodec, b)
  {
    LengthCodecLawful();
    if BytesCodec.decode(b).Good? {
      assert Canonical(LengthCodec, b);
      var n, more := LengthCodec.decode(b).value, LengthCodec.decode(b).rest;
      RawCodecLawful(n);
      assert Canonical(RawCodec(n), more);
      Associate(Uleb(n), BytesCodec.decode(b).value, BytesCodec.decode(b).rest);
    }
  }

  lemma BytesCodecLawful()
    ensures Lawful(BytesCodec)
  {
    forall x: Bytes, rest | |x| <= MAX_SEQUENCE_LENGTH ensures Recovers(BytesCodec, x, rest) {
      BytesRecovers(x, rest);
    }
    forall b ensures Canonical(BytesCodec, b) {
      BytesCanonical(b);
    }
  }

  /** A byte string and a sequence behind it. */
  lemma NamedSequence<T(!new)>(c: Codec<T>, name: Bytes, xs: seq<T>)
    ensures var p := PairCodec(BytesCodec, SeqCodec(c));
      && (p.valid((name, xs)) <==>
          |name| <= 0x7FFF_FFFF && |xs| <= 0x7FFF_FFFF && forall i :: 0 <= i < |xs| ==> c.valid(xs[i]))
      && p.encode((name, xs)) == Uleb(|name|) + name + Uleb(|xs|) + EncodeAll(c, xs)
  {
    Associate(Uleb(|name|) + name, Uleb(|xs|), EncodeAll(c, xs));
  }

  /** `from_bytes`: the whole input must be used up. */
  function FromBytes<T(!new)>(c: Codec<T>, b: Bytes): Option<T>
  {
    match c.decode(b)
    case Bad => None
    case Good(x, rest) => if rest == [] then Some(x) else None
  }

  lemma FromBytesRecovers<T(!new)>(c: Codec<T>, x: T)
    requires Lawful(c) && c.valid(x)
    ensures FromBytes(c, c.encode(x)) == Some(x)
  {
    assert Recovers(c, x, []);
    assert c.encode(x) + [] == c.encode(x);
  }

  lemma FromBytesCanonical<T(!new)>(c: Codec<T>, b: Bytes)
    requires Lawful(c) && FromBytes(c, b).Some?
    ensures c.valid(FromBytes(c, b).value) && b == c.encode(FromBytes(c, b).value)
  {
    assert Canonical(c, b);
    assert c.encode(FromBytes(c, b).value) + [] == c.encode(FromBytes(c, b).value);
  }

  /** Distinct values have distinct encodings. */
  lemma EncodingIsInjective<T(!new)>(c: Codec<T>, x: T, y: T)
    requires Lawful(c) && c.valid(x) && c.valid(y) && c.encode(x) == c.encode(y)
    ensures x == y
  {
    FromBytesRecovers(c, x);
    FromBytesRecovers(c, y);
  }
}
