/** Fully qualified tool names: parsing, printing, and the round trips between them. */
module ToolFqns {

  const U32_MAX: nat := 0xFFFF_FFFF

  datatype ToolFqn = ToolFqn(domain: string, name: string, version: nat)
  datatype ParseError = InvalidFormat | VersionTooLarge | VersionZero
  datatype Result<+T> = Ok(value: T) | Err(error: ParseError)

  // ---------------------------------------------------------------- the grammar

  predicate IsLower(c: char) { 'a' <= c <= 'z' }
  predicate IsDigit(c: char) { '0' <= c <= '9' }
  predicate IsPartChar(c: char) { IsLower(c) || IsDigit(c) || c == '_' || c == '-' }

  /** `[a-z][a-z0-9_-]+` */
  predicate IsPart(s: string)
  {
    |s| >= 2 && IsLower(s[0]) && forall c :: c in s ==> IsPartChar(c)
  }

  /** Two parts or more, joined by dots. */
  predicate IsDomain(s: string)
    decreases |s|
  {
    exists i :: 0 <= i < |s| && s[i] == '.' && IsPart(s[i + 1..]) && (IsPart(s[..i]) || IsDomain(s[..i]))
  }

  predicate IsNumeral(s: string)
  {
    s != [] && forall c :: c in s ==> IsDigit(c)
  }

  /** The shape of a tool name: domain, dot, name, at sign, digits. */
  predicate HasShape(s: string, domain: string, name: string, digits: string)
  {
    IsDomain(domain) && IsPart(name) && IsNumeral(digits) && s == domain + "." + name + "@" + digits
  }

  predicate Valid(f: ToolFqn)
  {
    IsDomain(f.domain) && IsPart(f.name) && 1 <= f.version <= U32_MAX
  }

  // ---------------------------------------------------------------- numerals

  function DigitValue(c: char): (d: nat)
    requires IsDigit(c)
    ensures d < 10
  {
    (c as int) - ('0' as int)
  }

  function ToDigit(d: nat): (c: char)
    requires d < 10
    ensures IsDigit(c) && DigitValue(c) == d
  {
    ('0' as int + d) as char
  }

  function ReadNumeral(s: string): nat
    requires forall c :: c in s ==> IsDigit(c)
  {
    if s == [] then 0 else 10 * ReadNumeral(s[..|s| - 1]) + DigitValue(s[|s| - 1])
  }

  function WriteNumeral(n: nat): (s: string)
    ensures IsNumeral(s)
  {
    if n < 10 then [ToDigit(n)] else WriteNumeral(n / 10) + [ToDigit(n % 10)]
  }

  /** A numeral without its leading zeros; one digit is left. */
  function StripZeros(s: string): string
  {
    if |s| > 1 && s[0] == '0' then StripZeros(s[1..]) else s
  }

  lemma {:induction false} WriteThenRead(n: nat)
    ensures ReadNumeral(WriteNumeral(n)) == n
  {
    if n >= 10 {
      WriteThenRead(n / 10);
      var s := WriteNumeral(n);
      assert s[..|s| - 1] == WriteNumeral(n / 10);
    }
  }

  lemma DivideByTen(q: nat, d: nat)
    requires d < 10
    ensures (10 * q + d) / 10 == q && (10 * q + d) % 10 == d
  {
  }

  lemma {:induction false} ReadWithoutLeadingZero(s: string)
    requires IsNumeral(s) && (|s| == 1 || s[0] != '0')
    ensures WriteNumeral(ReadNumeral(s)) == s
    ensures |s| > 1 || s[0] != '0' ==> ReadNumeral(s) > 0
  {
    var init, last := s[..|s| - 1], s[|s| - 1];
    assert s == init + [last];
    if |s| == 1 {
      assert ReadNumeral(init) == 0;
      assert ToDigit(DigitValue(last)) == last;
    } else {
      assert init[0] == s[0];
      ReadWithoutLeadingZero(init);
      var n := ReadNumeral(s);
      assert n == 10 * ReadNumeral(init) + DigitValue(last);
      DivideByTen(ReadNumeral(init), DigitValue(last));
      assert ToDigit(DigitValue(last)) == last;
    }
  }

  lemma {:induction false} LeadingZeroReadsSame(s: string)
    requires IsNumeral(s) && |s| > 1 && s[0] == '0'
    ensures ReadNumeral(s) == ReadNumeral(s[1..])
  {
    var init, last := s[..|s| - 1], s[|s| - 1];
    if |s| == 2 {
      assert init[..0] == [] && s[1..][..0] == [];
      assert ReadNumeral(init) == 0;
    } else {
      LeadingZeroReadsSame(init);
      assert s[1..][..|s| - 2] == init[1..];
    }
  }

  /** Reading a numeral and writing it again removes leading zeros only. */
  lemma {:induction false} ReadThenWrite(s: string)
    requires IsNumeral(s)
    ensures WriteNumeral(ReadNumeral(s)) == StripZeros(s)
    decreases |s|
  {
    if |s| > 1 && s[0] == '0' {
      LeadingZeroReadsSame(s);
      ReadThenWrite(s[1..]);
    } else {
      ReadWithoutLeadingZero(s);
    }
  }

  // ---------------------------------------------------------------- parsing and printing

  /** The last position of a character, or -1. */
  function LastIndex(s: string, c: char): (i: int)
    ensures -1 <= i < |s|
    ensures i >= 0 ==> s[i] == c
    ensures forall k :: i < k < |s| ==> s[k] != c
  {
    if s == [] then -1
    else if s[|s| - 1] == c then |s| - 1
    else LastIndex(s[..|s| - 1], c)
  }

  /** The three captures: the version follows the only at sign, the name what precedes it back to the last dot. */
  function Captures(s: string): Result<(string, string, string)>
  {
    var at := LastIndex(s, '@');
    if at < 0 then Err(InvalidFormat)
    else
      var path, digits := s[..at], s[at + 1..];
      var dot := LastIndex(path, '.');
      if dot < 0 then Err(InvalidFormat)
      else
        var domain, name := path[..dot], path[dot + 1..];
        if IsDomain(domain) && IsPart(name) && IsNumeral(digits) then Ok((domain, name, digits)) else Err(InvalidFormat)
  }

  function Parse(s: string): Result<ToolFqn>
  {
    match Captures(s)
    case Err(e) => Err(e)
    case Ok((domain, name, digits)) =>
      if IsNumeral(digits) && ReadNumeral(digits) <= U32_MAX then
        if ReadNumeral(digits) == 0 then Err(VersionZero) else Ok(ToolFqn(domain, name, ReadNumeral(digits)))
      else Err(VersionTooLarge)
  }

  function Print(f: ToolFqn): string
  {
    f.domain + "." + f.name + "@" + WriteNumeral(f.version)
  }

  // ---------------------------------------------------------------- the captures are unique

  lemma LastIndexIs(s: string, c: char, i: nat)
    requires i < |s| && s[i] == c && forall k :: i < k < |s| ==> s[k] != c
    ensures LastIndex(s, c) == i
  {
    var j := LastIndex(s, c);
    assert j >= i && !(j > i);
  }

  /** What follows the last occurrence of a character. */
  lemma LastIndexAt(before: string, c: char, after: string, s: string)
    requires c !in after && s == before + [c] + after
    ensures LastIndex(s, c) == |before|
  {
    assert s[|before|] == c;
    forall k | |before| < k < |s| ensures s[k] != c {
      assert s[k] == after[k - |before| - 1];
    }
    LastIndexIs(s, c, |before|);
  }

  lemma ShapeIsCaptured(s: string, domain: string, name: string, digits: string)
    requires HasShape(s, domain, name, digits)
    ensures Captures(s) == Ok((domain, name, digits))
  {
    var path := domain + "." + name;
    assert '@' !in digits && '.' !in name;
    assert s == path + ['@'] + digits;
    LastIndexAt(path, '@', digits, s);
    assert s[..|path|] == path && s[|path| + 1..] == digits;
    assert path == domain + ['.'] + name;
    LastIndexAt(domain, '.', name, path);
    assert path[..|domain|] == domain && path[|domain| + 1..] == name;
  }

  lemma CaptureHasShape(s: string, domain: string, name: string, digits: string)
    requires Captures(s) == Ok((domain, name, digits))
    ensures HasShape(s, domain, name, digits)
  {
    var at := LastIndex(s, '@');
    var path := s[..at];
    assert path == domain + "." + name;
    assert s == path + "@" + digits;
  }

  /** The captures are found exactly for strings of the right shape, and the shape determines them. */
  lemma CapturesAreShape(s: string, domain: string, name: string, digits: string)
    ensures Captures(s) == Ok((domain, name, digits)) <==> HasShape(s, domain, name, digits)
  {
    if HasShape(s, domain, name, digits) {
      ShapeIsCaptured(s, domain, name, digits);
    }
    if Captures(s) == Ok((domain, name, digits)) {
      CaptureHasShape(s, domain, name, digits);
    }
  }

  /** A string has the shape in one way at most. */
  lemma ShapeIsUnambiguous(s: string, d1: string, n1: string, v1: string, d2: string, n2: string, v2: string)
    requires HasShape(s, d1, n1, v1) && HasShape(s, d2, n2, v2)
    ensures d1 == d2 && n1 == n2 && v1 == v2
  {
    CapturesAreShape(s, d1, n1, v1);
    CapturesAreShape(s, d2, n2, v2);
  }

  // ---------------------------------------------------------------- main results

  /** The string is the name, written with the given version digits. */
  predicate Spells(s: string, f: ToolFqn, digits: string)
  {
    HasShape(s, f.domain, f.name, digits) && 1 <= ReadNumeral(digits) <= U32_MAX && f.version == ReadNumeral(digits)
  }

  /** Parsing succeeds exactly on strings of the right shape whose version is a positive 32-bit number. */
  lemma ParseAcceptsExactly(s: string, f: ToolFqn)
    ensures Parse(s) == Ok(f) <==> exists digits :: Spells(s, f, digits)
  {
    if Parse(s) == Ok(f) {
      var digits := Captures(s).value.2;
      CapturesAreShape(s, f.domain, f.name, digits);
      assert Spells(s, f, digits);
    }
    if digits :| Spells(s, f, digits) {
      CapturesAreShape(s, f.domain, f.name, digits);
    }
  }

  /** The printed form of a valid name parses back to the name. */
  lemma PrintThenParse(f: ToolFqn)
    requires Valid(f)
    ensures Parse(Print(f)) == Ok(f)
  {
    var digits := WriteNumeral(f.version);
    WriteThenRead(f.version);
    CapturesAreShape(Print(f), f.domain, f.name, digits);
  }

  /** Printing an accepted string gives the string back, leading zeros of the version aside, and the
      parsed name is valid. */
  lemma ParseThenPrint(s: string)
    requires Parse(s).Ok?
    ensures Valid(Parse(s).value)
    ensures exists path, digits ::
              && IsNumeral(digits) && s == path + "@" + digits
              && Print(Parse(s).value) == path + "@" + StripZeros(digits)
  {
    var f := Parse(s).value;
    var digits := Captures(s).value.2;
    CapturesAreShape(s, f.domain, f.name, digits);
    ReadThenWrite(digits);
    assert s == (f.domain + "." + f.name) + "@" + digits;
    assert Print(f) == (f.domain + "." + f.name) + "@" + StripZeros(digits);
  }

  // ---------------------------------------------------------------- the documented constraints

  /** The parts with dots between them. */
  function Dotted(parts: seq<string>): string
  {
    if parts == [] then ""
    else if |parts| == 1 then parts[0]
    else Dotted(parts[..|parts| - 1]) + "." + parts[|parts| - 1]
  }

  /** Two characters or more, the first one a letter. */
  ghost predicate AllParts(parts: seq<string>)
  {
    forall p :: p in parts ==>
      && |p| >= 2 && 'a' <= p[0] <= 'z'
      && forall c :: c in p ==> 'a' <= c <= 'z' || '0' <= c <= '9' || c == '_' || c == '-'
  }

  /** What the digits mean. */
  function Decimal(digits: string): nat
  {
    if digits == "" then 0
    else
      var last := digits[|digits| - 1];
      10 * Decimal(digits[..|digits| - 1]) + if '0' <= last <= '9' then last as int - 48 else 0
  }

  lemma PartOfParts(parts: seq<string>, p: string)
    requires AllParts(parts) && p in parts
    ensures IsPart(p)
  {
  }

  lemma DottedSnoc(parts: seq<string>, last: string)
    requires parts != []
    ensures Dotted(parts + [last]) == Dotted(parts) + "." + last
  {
    assert (parts + [last])[..|parts|] == parts;
  }

  lemma DomainSplits(s: string) returns (front: string, last: string)
    requires IsDomain(s)
    ensures s == front + "." + last && |front| < |s|
    ensures IsPart(last) && (IsPart(front) || IsDomain(front))
  {
    var i :| 0 <= i < |s| && s[i] == '.' && IsPart(s[i + 1..]) && (IsPart(s[..i]) || IsDomain(s[..i]));
    front, last := s[..i], s[i + 1..];
  }

  lemma AllPartsSnoc(parts: seq<string>, last: string)
    requires AllParts(parts) && IsPart(last)
    ensures AllParts(parts + [last])
  {
  }

  lemma {:induction false} DomainHasParts(s: string) returns (parts: seq<string>)
    requires IsDomain(s)
    ensures |parts| >= 2 && AllParts(parts) && s == Dotted(parts)
    decreases |s|
  {
    var front, last := DomainSplits(s);
    var before := [front];
    if IsPart(front) {
      AllPartsSnoc([], front);
      assert [] + [front] == before;
    } else {
      before := DomainHasParts(front);
    }
    parts := before + [last];
    AllPartsSnoc(before, last);
    DottedSnoc(before, last);
  }

  lemma DomainEndsInPart(front: string, last: string)
    requires IsPart(last) && (IsPart(front) || IsDomain(front))
    ensures IsDomain(front + "." + last)
  {
    var s, i := front + "." + last, |front|;
    assert s[i] == '.' && s[i + 1..] == last && s[..i] == front;
  }

  lemma {:induction false} PartsMakeDomain(parts: seq<string>)
    requires |parts| >= 2 && AllParts(parts)
    ensures IsDomain(Dotted(parts))
  {
    var front, last := parts[..|parts| - 1], parts[|parts| - 1];
    PartOfParts(parts, last);
    if |front| == 1 {
      PartOfParts(parts, front[0]);
    } else {
      PartsMakeDomain(front);
    }
    DomainEndsInPart(Dotted(front), last);
  }

  lemma {:induction false} NumeralIsDecimal(digits: string)
    requires forall c :: c in digits ==> IsDigit(c)
    ensures ReadNumeral(digits) == Decimal(digits)
  {
    if digits != "" {
      NumeralIsDecimal(digits[..|digits| - 1]);
    }
  }

  /** Three parts or more before the only at sign, all but the last of them the domain, and behind it digits
      that mean a positive 32-bit number. */
  ghost predicate MeetsConstraints(s: string, f: ToolFqn, parts: seq<string>, digits: string)
  {
    && s == Dotted(parts) + "@" + digits
    && |parts| >= 3 && AllParts(parts)
    && f.domain == Dotted(parts[..|parts| - 1]) && f.name == parts[|parts| - 1]
    && digits != "" && (forall c :: c in digits ==> '0' <= c <= '9')
    && f.version == Decimal(digits) && 1 <= f.version <= 4_294_967_295
  }

  lemma ConstraintsSpell(s: string, f: ToolFqn, parts: seq<string>, digits: string)
    requires MeetsConstraints(s, f, parts, digits)
    ensures Spells(s, f, digits)
  {
    var front, last := parts[..|parts| - 1], parts[|parts| - 1];
    PartsMakeDomain(front);
    PartOfParts(parts, last);
    DottedSnoc(front, last);
    assert parts == front + [last];
    NumeralIsDecimal(digits);
  }

  lemma SpelledMeets(s: string, f: ToolFqn, digits: string) returns (parts: seq<string>)
    requires Spells(s, f, digits)
    ensures MeetsConstraints(s, f, parts, digits)
  {
    var front := DomainHasParts(f.domain);
    parts := front + [f.name];
    DottedSnoc(front, f.name);
    assert parts[..|parts| - 1] == front;
    NumeralIsDecimal(digits);
  }

  /** Parsing succeeds exactly on strings that meet the documented constraints, and gives the parts they name. */
  lemma ParseMeetsConstraints(s: string, f: ToolFqn)
    ensures Parse(s) == Ok(f) <==> exists parts, digits :: MeetsConstraints(s, f, parts, digits)
  {
    ParseAcceptsExactly(s, f);
    if digits :| Spells(s, f, digits) {
      var parts := SpelledMeets(s, f, digits);
    }
    if parts, digits :| MeetsConstraints(s, f, parts, digits) {
      ConstraintsSpell(s, f, parts, digits);
    }
  }
}
