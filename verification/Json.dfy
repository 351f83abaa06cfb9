/** JSON values and their compact text, as the serializer writes it. Distinct values have distinct texts. */
module Json {
  import opened Bcs
  import opened Options

  datatype Json =
    | Null
    | Bool(b: bool)
    | Number(text: Bytes)
    | Str(bytes: Bytes)
    | Arr(items: seq<Json>)
    | Obj(members: seq<Member>)

  datatype Member = Member(key: Bytes, value: Json)

  const QUOTE: byte := 34
  const COMMA: byte := 44
  const COLON: byte := 58
  const OPEN_BRACKET: byte := 91
  const BACKSLASH: byte := 92
  const CLOSE_BRACKET: byte := 93
  const OPEN_BRACE: byte := 123
  const CLOSE_BRACE: byte := 125

  /** Digits, sign, point and exponent. */
  predicate IsNumberByte(c: byte)
  {
    48 <= c <= 57 || c == 43 || c == 45 || c == 46 || c == 69 || c == 101
  }

  /** The text of a number begins with a digit or a minus sign. */
  predicate IsNumberText(t: Bytes)
  {
    t != [] && (48 <= t[0] <= 57 || t[0] == 45) && forall c :: c in t ==> IsNumberByte(c)
  }

  /** Every number in the value has the text of a number. */
  predicate WellFormed(v: Json)
  {
    match v
    case Number(t) => IsNumberText(t)
    case Arr(items) => forall i :: i in items ==> WellFormed(i)
    case Obj(members) => forall m :: m in members ==> WellFormed(m.value)
    case _ => true
  }

  // ---------------------------------------------------------------- text

  function HexDigit(d: nat): byte
    requires d < 16
  {
    if d < 10 then 48 + d else 87 + d
  }

  /** One byte of a string: quotes, backslashes and control characters are escaped. */
  function Escape(c: byte): Bytes
  {
    if c == QUOTE then [BACKSLASH, QUOTE]
    else if c == BACKSLASH then [BACKSLASH, BACKSLASH]
    else if c == 8 then [BACKSLASH, 98]
    else if c == 9 then [BACKSLASH, 116]
    else if c == 10 then [BACKSLASH, 110]
    else if c == 12 then [BACKSLASH, 102]
    else if c == 13 then [BACKSLASH, 114]
    else if c < 32 then [BACKSLASH, 117, 48, 48, HexDigit(c / 16), HexDigit(c % 16)]
    else [c]
  }

  /** The escaped bytes and the closing quote. */
  function StringTail(s: Bytes): Bytes
  {
    if s == [] then [QUOTE] else Escape(s[0]) + StringTail(s[1..])
  }

  function Text(v: Json): (t: Bytes)
    decreases v, 0
  {
    match v
    case Null => [110, 117, 108, 108]
    case Bool(b) => if b then [116, 114, 117, 101] else [102, 97, 108, 115, 101]
    case Number(t) => t
    case Str(s) => [QUOTE] + StringTail(s)
    case Arr(items) => [OPEN_BRACKET] + ArrayTail(items)
    case Obj(members) => [OPEN_BRACE] + ObjectTail(members)
  }

  /** The items and the closing bracket. */
  function ArrayTail(items: seq<Json>): (t: Bytes)
    ensures t != []
    decreases items, 2
  {
    if items == [] then [CLOSE_BRACKET] else Text(items[0]) + ItemsTail(items[1..])
  }

  function ItemsTail(items: seq<Json>): (t: Bytes)
    ensures t != []
    decreases items, 1
  {
    if items == [] then [CLOSE_BRACKET] else [COMMA] + (Text(items[0]) + ItemsTail(items[1..]))
  }

  function MemberText(m: Member): Bytes
    decreases m, 1
  {
    [QUOTE] + (StringTail(m.key) + ([COLON] + Text(m.value)))
  }

  /** The members and the closing brace. */
  function ObjectTail(members: seq<Member>): (t: Bytes)
    ensures t != []
    decreases members, 3
  {
    if members == [] then [CLOSE_BRACE] else MemberText(members[0]) + MembersTail(members[1..])
  }

  function MembersTail(members: seq<Member>): (t: Bytes)
    ensures t != []
    decreases members, 2
  {
    if members == [] then [CLOSE_BRACE] else [COMMA] + (MemberText(members[0]) + MembersTail(members[1..]))
  }

  // ---------------------------------------------------------------- the text by its parts

  /** The parts with commas between them. */
  function Separated(parts: seq<Bytes>): Bytes
  {
    if parts == [] then []
    else if |parts| == 1 then parts[0]
    else parts[0] + Ascii(",") + Separated(parts[1..])
  }

  function Texts(items: seq<Json>): seq<Bytes>
  {
    seq(|items|, i requires 0 <= i < |items| => Text(items[i]))
  }

  /** Name and value of every member. */
  function MemberTexts(members: seq<Member>): seq<Bytes>
  {
    seq(|members|, i requires 0 <= i < |members| => Text(Str(members[i].key)) + Ascii(":") + Text(members[i].value))
  }

  /** What follows a part: nothing, or a comma and the others. */
  function MoreParts(parts: seq<Bytes>): Bytes
  {
    if parts == [] then [] else Ascii(",") + Separated(parts)
  }

  lemma SeparatedCons(part: Bytes, parts: seq<Bytes>)
    ensures Separated([part] + parts) == part + MoreParts(parts)
  {
    assert ([part] + parts)[1..] == parts;
    Associate(part, Ascii(","), Separated(parts));
  }

  lemma TextsCons(items: seq<Json>)
    requires items != []
    ensures Texts(items) == [Text(items[0])] + Texts(items[1..])
  {
  }

  lemma {:induction false} ItemsTailSeparates(items: seq<Json>)
    ensures ItemsTail(items) == MoreParts(Texts(items)) + Ascii("]")
    ensures ArrayTail(items) == Separated(Texts(items)) + Ascii("]")
  {
    if items != [] {
      ItemsTailSeparates(items[1..]);
      TextsCons(items);
      SeparatedCons(Text(items[0]), Texts(items[1..]));
      Associate(Text(items[0]), MoreParts(Texts(items[1..])), Ascii("]"));
      Associate(Ascii(","), Separated(Texts(items)), Ascii("]"));
    }
  }

  lemma MemberTextsCons(members: seq<Member>)
    requires members != []
    ensures MemberTexts(members) == [MemberText(members[0])] + MemberTexts(members[1..])
  {
    var m := members[0];
    assert MemberText(m) == Text(Str(m.key)) + Ascii(":") + Text(m.value);
  }

  lemma {:induction false} MembersTailSeparates(members: seq<Member>)
    ensures MembersTail(members) == MoreParts(MemberTexts(members)) + Ascii("}")
    ensures ObjectTail(members) == Separated(MemberTexts(members)) + Ascii("}")
  {
    if members != [] {
      MembersTailSeparates(members[1..]);
      MemberTextsCons(members);
      SeparatedCons(MemberText(members[0]), MemberTexts(members[1..]));
      Associate(MemberText(members[0]), MoreParts(MemberTexts(members[1..])), Ascii("}"));
      Associate(Ascii(","), Separated(MemberTexts(members)), Ascii("}"));
    }
  }

  /** The letter of a two-character escape, as section 7 of RFC 8259 lists them. */
  function EscapedByte(letter: byte): Option<byte>
  {
    if letter == '\"' as int then Some(0x22)
    else if letter == '\\' as int then Some(0x5C)
    else if letter == 'b' as int then Some(0x08)
    else if letter == 'f' as int then Some(0x0C)
    else if letter == 'n' as int then Some(0x0A)
    else if letter == 'r' as int then Some(0x0D)
    else if letter == 't' as int then Some(0x09)
    else None
  }

  function HexValue(digit: byte): Option<nat>
  {
    if '0' as int <= digit <= '9' as int then Some(digit - '0' as int)
    else if 'a' as int <= digit <= 'f' as int then Some(digit - 'a' as int + 10)
    else None
  }

  /** Reads one character of a string: itself, a two-character escape, or a code point below 256. */
  function ReadByte(t: Bytes): Decoded<byte>
  {
    if t == [] then Bad
    else if t[0] != '\\' as int then Good(t[0], t[1..])
    else if |t| >= 2 && EscapedByte(t[1]).Some? then Good(EscapedByte(t[1]).value, t[2..])
    else if |t| >= 6 && t[..4] == Ascii("\\u00") && HexValue(t[4]).Some? && HexValue(t[5]).Some?
      && HexValue(t[4]).value * 16 + HexValue(t[5]).value < 0x100
    then Good(HexValue(t[4]).value * 16 + HexValue(t[5]).value, t[6..])
    else Bad
  }

  /** Reads a string up to and with its closing quote. */
  function ReadString(t: Bytes): Decoded<Bytes>
    decreases |t|
  {
    if t == [] then Bad
    else if t[0] == '\"' as int then Good([], t[1..])
    else match ReadByte(t)
      case Bad => Bad
      case Good(c, more) =>
        if |more| >= |t| then Bad
        else match ReadString(more) case Bad => Bad case Good(s, rest) => Good([c] + s, rest)
  }

  /** An escape is the one a reader expects, as short as there is one, with lower-case digits. */
  lemma EscapeIsRead(c: byte, x: Bytes)
    ensures ReadByte(Escape(c) + x) == Good(c, x) && Escape(c)[0] != '\"' as int
    ensures |Escape(c)| == if c in {0x22, 0x5C, 0x08, 0x09, 0x0A, 0x0C, 0x0D} then 2 else if c < 0x20 then 6 else 1
  {
    var t := Escape(c) + x;
    assert t[|Escape(c)|..] == x;
    if c < 0x20 && |Escape(c)| == 6 {
      assert t[..4] == Ascii("\\u00");
    }
  }

  /** A reader of JSON strings gets every string back. */
  lemma {:induction false} StringIsRead(s: Bytes, x: Bytes)
    ensures ReadString(StringTail(s) + x) == Good(s, x)
  {
    if s == [] {
      assert (StringTail(s) + x)[1..] == x;
    } else {
      StringTailSplits(s, x);
      EscapeIsRead(s[0], StringTail(s[1..]) + x);
      StringIsRead(s[1..], x);
      assert s == [s[0]] + s[1..];
    }
  }

  lemma LiteralsByName(b: bool)
    ensures Text(Null) == Ascii("null")
    ensures Text(Bool(b)) == Ascii(if b then "true" else "false")
  {
    assert Text(Null) == Ascii("null");
    assert Text(Bool(true)) == Ascii("true");
    assert Text(Bool(false)) == Ascii("false");
  }

  lemma StringByParts(s: Bytes)
    ensures Text(Str(s)) == Ascii("\"") + StringTail(s) && ReadString(StringTail(s)) == Good(s, [])
  {
    StringIsRead(s, []);
    assert StringTail(s) + [] == StringTail(s);
    assert Ascii("\"") == [QUOTE];
  }

  lemma ArrayByParts(items: seq<Json>)
    ensures Text(Arr(items)) == Ascii("[") + Separated(Texts(items)) + Ascii("]")
  {
    ItemsTailSeparates(items);
    assert Ascii("[") == [OPEN_BRACKET];
    Associate(Ascii("["), Separated(Texts(items)), Ascii("]"));
  }

  lemma ObjectByParts(members: seq<Member>)
    ensures Text(Obj(members)) == Ascii("{") + Separated(MemberTexts(members)) + Ascii("}")
  {
    MembersTailSeparates(members);
    assert Ascii("{") == [OPEN_BRACE];
    Associate(Ascii("{"), Separated(MemberTexts(members)), Ascii("}"));
  }

  /** The text of a value: literal names, the digits of a number, quoted strings that a reader gets back, and the
      texts of the parts with their brackets, commas and colons. */
  lemma TextByParts(v: Json)
    ensures match v
      case Null => Text(v) == Ascii("null")
      case Bool(b) => Text(v) == Ascii(if b then "true" else "false")
      case Number(t) => Text(v) == t
      case Str(s) => exists tail :: Text(v) == Ascii("\"") + tail && ReadString(tail) == Good(s, [])
      case Arr(items) => Text(v) == Ascii("[") + Separated(Texts(items)) + Ascii("]")
      case Obj(members) => Text(v) == Ascii("{") + Separated(MemberTexts(members)) + Ascii("}")
  {
    match v {
      case Str(s) => StringByParts(s);
      case Arr(items) => ArrayByParts(items);
      case Obj(members) => ObjectByParts(members);
      case Bool(b) => LiteralsByName(b);
      case _ => LiteralsByName(true);
    }
  }

  // ---------------------------------------------------------------- texts can be told apart

  /** What may follow a value: the end, or a byte that no number goes on with. */
  predicate Ends(r: Bytes)
  {
    r == [] || !IsNumberByte(r[0])
  }

  lemma CutHead(a: byte, x: Bytes, b: byte, y: Bytes)
    requires [a] + x == [b] + y
    ensures a == b && x == y
  {
    assert a == ([a] + x)[0] && b == ([b] + y)[0];
    assert x == ([a] + x)[1..] && y == ([b] + y)[1..];
  }

  /** Escapes are prefix-free, and none looks like a closing quote. */
  lemma EscapesDiffer(c: byte, x: Bytes, d: byte, y: Bytes)
    requires Escape(c) + x == Escape(d) + y
    ensures c == d && x == y
  {
    var l, r := Escape(c) + x, Escape(d) + y;
    assert l[0] == Escape(c)[0] && r[0] == Escape(d)[0];
    if l[0] == BACKSLASH {
      assert |Escape(c)| >= 2 && |Escape(d)| >= 2;
      assert l[1] == Escape(c)[1] && r[1] == Escape(d)[1];
      if l[1] == 117 {
        assert l[4] == Escape(c)[4] && r[4] == Escape(d)[4];
        assert l[5] == Escape(c)[5] && r[5] == Escape(d)[5];
      }
    }
    assert c == d;
    assert x == l[|Escape(c)|..] && y == r[|Escape(d)|..];
  }

  lemma StringTailStarts(s: Bytes, x: Bytes)
    ensures (StringTail(s) + x)[0] == QUOTE <==> s == []
  {
  }

  lemma StringTailSplits(s: Bytes, x: Bytes)
    requires s != []
    ensures StringTail(s) + x == Escape(s[0]) + (StringTail(s[1..]) + x)
  {
    Associate(Escape(s[0]), StringTail(s[1..]), x);
  }

  lemma {:induction false} StringTailsDiffer(s: Bytes, x: Bytes, t: Bytes, y: Bytes)
    requires StringTail(s) + x == StringTail(t) + y
    ensures s == t && x == y
    decreases |s|
  {
    StringTailStarts(s, x);
    StringTailStarts(t, y);
    if s == [] {
      CutHead(QUOTE, x, QUOTE, y);
    } else {
      StringTailSplits(s, x);
      StringTailSplits(t, y);
      EscapesDiffer(s[0], StringTail(s[1..]) + x, t[0], StringTail(t[1..]) + y);
      StringTailsDiffer(s[1..], x, t[1..], y);
      assert s == [s[0]] + s[1..] && t == [t[0]] + t[1..];
    }
  }

  /** A number goes on as long as its bytes do. */
  lemma NumberReachesAsFar(s: Bytes, x: Bytes, t: Bytes, y: Bytes)
    requires IsNumberText(t) && Ends(x) && s + x == t + y
    ensures |t| <= |s|
  {
    forall k | 0 <= k < |t| ensures IsNumberByte((s + x)[k]) {
      assert (t + y)[k] == t[k] && t[k] in t;
    }
    if x != [] {
      assert (s + x)[|s|] == x[0];
    }
  }

  lemma NumbersDiffer(s: Bytes, x: Bytes, t: Bytes, y: Bytes)
    requires IsNumberText(s) && IsNumberText(t) && Ends(x) && Ends(y) && s + x == t + y
    ensures s == t && x == y
  {
    NumberReachesAsFar(s, x, t, y);
    NumberReachesAsFar(t, y, s, x);
    assert s == (s + x)[..|s|] && t == (t + y)[..|t|];
    assert x == (s + x)[|s|..] && y == (t + y)[|t|..];
  }

  /** The first byte of a text says which kind of value it is. */
  function KindByte(v: Json): nat
    requires WellFormed(v)
  {
    match v
    case Null => 110
    case Bool(b) => if b then 116 else 102
    case Number(t) => t[0]
    case Str(_) => QUOTE
    case Arr(_) => OPEN_BRACKET
    case Obj(_) => OPEN_BRACE
  }

  lemma TextStarts(v: Json, x: Bytes)
    requires WellFormed(v)
    ensures Text(v) != [] && (Text(v) + x)[0] == KindByte(v)
    ensures KindByte(v) !in {COMMA, CLOSE_BRACKET, CLOSE_BRACE}
  {
  }

  ghost predicate AllWellFormed(items: seq<Json>)
  {
    forall i :: i in items ==> WellFormed(i)
  }

  ghost predicate MembersWellFormed(members: seq<Member>)
  {
    forall m :: m in members ==> WellFormed(m.value)
  }

  predicate SameKind(v: Json, w: Json)
  {
    match v
    case Null => w.Null?
    case Bool(b) => w == v
    case Number(_) => w.Number?
    case Str(_) => w.Str?
    case Arr(_) => w.Arr?
    case Obj(_) => w.Obj?
  }

  lemma KindByteDecides(v: Json, w: Json)
    requires WellFormed(v) && WellFormed(w) && KindByte(v) == KindByte(w)
    ensures SameKind(v, w)
  {
  }

  lemma StringsDiffer(s: Bytes, x: Bytes, t: Bytes, y: Bytes)
    requires Text(Str(s)) + x == Text(Str(t)) + y
    ensures s == t && x == y
  {
    Associate([QUOTE], StringTail(s), x);
    Associate([QUOTE], StringTail(t), y);
    CutHead(QUOTE, StringTail(s) + x, QUOTE, StringTail(t) + y);
    StringTailsDiffer(s, x, t, y);
  }

  /** Two values whose texts begin one byte string are equal, and so is what follows. */
  lemma {:induction false} TextsDiffer(v: Json, x: Bytes, w: Json, y: Bytes)
    requires WellFormed(v) && WellFormed(w) && Ends(x) && Ends(y)
    requires Text(v) + x == Text(w) + y
    ensures v == w && x == y
    decreases v, 0
  {
    TextStarts(v, x);
    TextStarts(w, y);
    KindByteDecides(v, w);
    if v.Arr? {
      ArraysDiffer(v.items, x, w.items, y);
    } else if v.Obj? {
      ObjectsDiffer(v.members, x, w.members, y);
    } else if v.Number? {
      NumbersDiffer(v.text, x, w.text, y);
    } else if v.Str? {
      StringsDiffer(v.bytes, x, w.bytes, y);
    } else {
      SamePrefix(Text(v), x, y);
    }
  }

  lemma SamePrefix(p: Bytes, x: Bytes, y: Bytes)
    requires p + x == p + y
    ensures x == y
  {
    assert x == (p + x)[|p|..] && y == (p + y)[|p|..];
  }

  lemma ArrayTailStarts(items: seq<Json>, x: Bytes)
    requires AllWellFormed(items)
    ensures (ArrayTail(items) + x)[0] == CLOSE_BRACKET <==> items == []
  {
    if items != [] {
      TextStarts(items[0], ItemsTail(items[1..]));
    }
  }

  lemma ArrayTailFits(items: seq<Json>, x: Bytes)
    ensures Text(Arr(items)) + x == [OPEN_BRACKET] + (ArrayTail(items) + x)
    ensures items != [] ==> ItemsTail(items) + x == [COMMA] + (ArrayTail(items) + x)
  {
  }

  lemma {:induction false} ArraysDiffer(items: seq<Json>, x: Bytes, others: seq<Json>, y: Bytes)
    requires AllWellFormed(items) && AllWellFormed(others)
    requires Text(Arr(items)) + x == Text(Arr(others)) + y
    ensures items == others && x == y
    decreases items, 2
  {
    ArrayTailStarts(items, x);
    ArrayTailStarts(others, y);
    ArrayTailFits(items, x);
    ArrayTailFits(others, y);
    CutHead(OPEN_BRACKET, ArrayTail(items) + x, OPEN_BRACKET, ArrayTail(others) + y);
    if items == [] {
      CutHead(CLOSE_BRACKET, x, CLOSE_BRACKET, y);
    } else {
      ItemsTailsDiffer(items, x, others, y);
    }
  }

  lemma ItemsTailEnds(items: seq<Json>, x: Bytes)
    ensures Ends(ItemsTail(items) + x)
    ensures (ItemsTail(items) + x)[0] == if items == [] then CLOSE_BRACKET else COMMA
  {
  }

  lemma ItemsTailSplits(items: seq<Json>, x: Bytes)
    requires items != []
    ensures ItemsTail(items) + x == [COMMA] + (Text(items[0]) + (ItemsTail(items[1..]) + x))
  {
  }

  lemma {:induction false} ItemsTailsDiffer(items: seq<Json>, x: Bytes, others: seq<Json>, y: Bytes)
    requires AllWellFormed(items) && AllWellFormed(others)
    requires ItemsTail(items) + x == ItemsTail(others) + y
    ensures items == others && x == y
    decreases items, 1
  {
    ItemsTailEnds(items, x);
    ItemsTailEnds(others, y);
    if items == [] {
      CutHead(CLOSE_BRACKET, x, CLOSE_BRACKET, y);
    } else {
      var a, b := ItemsTail(items[1..]) + x, ItemsTail(others[1..]) + y;
      ItemsTailEnds(items[1..], x);
      ItemsTailEnds(others[1..], y);
      ItemsTailSplits(items, x);
      ItemsTailSplits(others, y);
      CutHead(COMMA, Text(items[0]) + a, COMMA, Text(others[0]) + b);
      TextsDiffer(items[0], a, others[0], b);
      ItemsTailsDiffer(items[1..], x, others[1..], y);
      assert items == [items[0]] + items[1..] && others == [others[0]] + others[1..];
    }
  }

  lemma ObjectTailStarts(members: seq<Member>, x: Bytes)
    ensures (ObjectTail(members) + x)[0] == CLOSE_BRACE <==> members == []
    ensures Text(Obj(members)) + x == [OPEN_BRACE] + (ObjectTail(members) + x)
    ensures members != [] ==> MembersTail(members) + x == [COMMA] + (ObjectTail(members) + x)
  {
    Associate([OPEN_BRACE], ObjectTail(members), x);
    if members != [] {
      assert MembersTail(members) == [COMMA] + ObjectTail(members);
      Associate([COMMA], ObjectTail(members), x);
      assert MemberText(members[0])[0] == QUOTE;
      assert ObjectTail(members)[0] == QUOTE;
    }
  }

  lemma {:induction false} ObjectsDiffer(members: seq<Member>, x: Bytes, others: seq<Member>, y: Bytes)
    requires MembersWellFormed(members) && MembersWellFormed(others)
    requires Text(Obj(members)) + x == Text(Obj(others)) + y
    ensures members == others && x == y
    decreases members, 4
  {
    ObjectTailStarts(members, x);
    ObjectTailStarts(others, y);
    CutHead(OPEN_BRACE, ObjectTail(members) + x, OPEN_BRACE, ObjectTail(others) + y);
    if members == [] {
      CutHead(CLOSE_BRACE, x, CLOSE_BRACE, y);
    } else {
      MembersTailsDiffer(members, x, others, y);
    }
  }

  lemma MembersTailEnds(members: seq<Member>, x: Bytes)
    ensures Ends(MembersTail(members) + x)
    ensures (MembersTail(members) + x)[0] == if members == [] then CLOSE_BRACE else COMMA
  {
  }

  lemma MemberTextSplits(m: Member, x: Bytes)
    ensures MemberText(m) + x == [QUOTE] + (StringTail(m.key) + ([COLON] + (Text(m.value) + x)))
  {
    assert [COLON] + Text(m.value) + x == [COLON] + (Text(m.value) + x);
    assert StringTail(m.key) + ([COLON] + Text(m.value)) + x == StringTail(m.key) + ([COLON] + Text(m.value) + x);
  }

  lemma {:induction false} MembersDiffer(m: Member, x: Bytes, n: Member, y: Bytes)
    requires WellFormed(m.value) && WellFormed(n.value) && Ends(x) && Ends(y)
    requires MemberText(m) + x == MemberText(n) + y
    ensures m == n && x == y
    decreases m, 1
  {
    MemberTextSplits(m, x);
    MemberTextSplits(n, y);
    var a, b := [COLON] + (Text(m.value) + x), [COLON] + (Text(n.value) + y);
    CutHead(QUOTE, StringTail(m.key) + a, QUOTE, StringTail(n.key) + b);
    StringTailsDiffer(m.key, a, n.key, b);
    CutHead(COLON, Text(m.value) + x, COLON, Text(n.value) + y);
    TextsDiffer(m.value, x, n.value, y);
  }

  lemma MembersTailSplits(members: seq<Member>, x: Bytes)
    requires members != []
    ensures MembersTail(members) + x == [COMMA] + (MemberText(members[0]) + (MembersTail(members[1..]) + x))
  {
  }

  lemma {:induction false} MembersTailsDiffer(members: seq<Member>, x: Bytes, others: seq<Member>, y: Bytes)
    requires MembersWellFormed(members) && MembersWellFormed(others)
    requires MembersTail(members) + x == MembersTail(others) + y
    ensures members == others && x == y
    decreases members, 3
  {
    MembersTailEnds(members, x);
    MembersTailEnds(others, y);
    if members == [] {
      CutHead(CLOSE_BRACE, x, CLOSE_BRACE, y);
    } else {
      var a, b := MembersTail(members[1..]) + x, MembersTail(others[1..]) + y;
      MembersTailEnds(members[1..], x);
      MembersTailEnds(others[1..], y);
      MembersTailSplits(members, x);
      MembersTailSplits(others, y);
      CutHead(COMMA, MemberText(members[0]) + a, COMMA, MemberText(others[0]) + b);
      MembersDiffer(members[0], a, others[0], b);
      MembersTailsDiffer(members[1..], x, others[1..], y);
      assert members == [members[0]] + members[1..] && others == [others[0]] + others[1..];
    }
  }

  /** The text determines the value. */
  lemma TextIsInjective(v: Json, w: Json)
    requires WellFormed(v) && WellFormed(w) && Text(v) == Text(w)
    ensures v == w
  {
    assert Text(v) + [] == Text(v) && Text(w) + [] == Text(w);
    TextsDiffer(v, [], w, []);
  }
}
