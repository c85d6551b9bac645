/** JSON values and the serializer (`backend/src/json.rs`). */
module Json {
  import opened Bits
  import opened Outcomes
  import opened Utf8

  // ---- Numbers ----

  /** A 64-bit IEEE 754 number, as its bits. */
  type Float = bv64

  const ZERO: Float := 0
  const NEGATIVE_ZERO: Float := 0x8000_0000_0000_0000

  predicate IsFinite(x: Float) {
    (x >> 52) & 0x7FF != 0x7FF
  }

  predicate IsZero(x: Float) {
    x == ZERO || x == NEGATIVE_ZERO
  }

  /** `number = [ minus ] int [ frac ] [ exp ]` (RFC 8259, section 6). */
  datatype Number = Number(negative: bool, whole: seq<byte>, fraction: Option<seq<byte>>, exponent: Option<Exponent>)

  datatype Exponent = Exponent(marker: byte, sign: Option<byte>, digits: seq<byte>)

  predicate IsDigit(c: byte) {
    0x30 <= c <= 0x39
  }

  predicate AllDigits(s: seq<byte>) {
    |s| > 0 && IsDigit(s[0]) && (|s| > 1 ==> AllDigits(s[1..]))
  }

  predicate WellFormedNumber(n: Number) {
    && AllDigits(n.whole) && (n.whole[0] == 0x30 ==> |n.whole| == 1)
    && (n.fraction.Some? ==> AllDigits(n.fraction.value))
    && (n.exponent.Some? ==> WellFormedExponent(n.exponent.value))
  }

  predicate WellFormedExponent(e: Exponent) {
    && (e.marker == 0x65 || e.marker == 0x45)
    && (e.sign.Some? ==> e.sign.value == PLUS || e.sign.value == MINUS)
    && AllDigits(e.digits)
  }

  function SignText(negative: bool): seq<byte> {
    if negative then [MINUS] else []
  }

  function FractionText(f: Option<seq<byte>>): seq<byte> {
    match f case None => [] case Some(digits) => [DOT] + digits
  }

  function ExponentText(e: Option<Exponent>): seq<byte> {
    match e
    case None => []
    case Some(x) => [x.marker] + (ExponentSign(x.sign) + x.digits)
  }

  function ExponentSign(sign: Option<byte>): seq<byte> {
    match sign case None => [] case Some(s) => [s]
  }

  function NumberText(n: Number): seq<byte> {
    SignText(n.negative) + (n.whole + (FractionText(n.fraction) + ExponentText(n.exponent)))
  }

  /**
   The two conversions between decimal text and floating point: `str::parse::<f64>` and
   the shortest decimal that reads back.
   */
  datatype Floats = Floats(read: seq<byte> -> Option<Float>, show: Float -> Number)

  /** A number that is neither zero nor out of range reads back from its own text. */
  ghost predicate Shows(fl: Floats, x: Float) {
    IsFinite(x) && !IsZero(x) ==> WellFormedNumber(fl.show(x)) && fl.read(NumberText(fl.show(x))) == Some(x)
  }

  /** What the standard library promises of the conversions. */
  ghost predicate Sound(fl: Floats) {
    fl.read([0x30]) == Some(ZERO) && forall x: Float :: Shows(fl, x)
  }

  // ---- Values ----

  datatype Json =
    | Null
    | Bool(b: bool)
    | Num(x: Float)
    | Str(s: Text)
    | Arr(items: seq<Json>)
    | Obj(members: seq<Member>)

  /** One entry of a `BTreeMap`; an object lists its entries in key order. */
  datatype Member = Member(key: Text, value: Json)

  /** The order of Rust strings, which is that of their UTF-8 bytes: see `Utf8.ByteOrderIsScalarOrder`. */
  predicate Less(a: Text, b: Text) {
    Precedes(a, b)
  }

  ghost predicate Increasing(ms: seq<Member>) {
    forall i, j {:trigger Less(ms[i].key, ms[j].key)} | 0 <= i < j < |ms| :: Less(ms[i].key, ms[j].key)
  }

  /** Every object in the value lists its keys in strictly increasing order, as a map does. */
  ghost predicate Ordered(v: Json) {
    match v
    case Arr(items) => forall i | 0 <= i < |items| :: Ordered(items[i])
    case Obj(ms) => Increasing(ms) && forall i | 0 <= i < |ms| :: Ordered(ms[i].value)
    case _ => true
  }

  const MAX_DEPTH: nat := 128

  /** Nothing in the value sits deeper than the parser's limit when it starts at `depth`. */
  ghost predicate Fits(v: Json, depth: nat) {
    && depth <= MAX_DEPTH
    && match v
       case Arr(items) => forall i | 0 <= i < |items| :: Fits(items[i], depth + 1)
       case Obj(ms) => forall i | 0 <= i < |ms| :: Fits(ms[i].value, depth + 1)
       case _ => true
  }

  // ---- Their text ----

  const QUOTE: byte := 0x22
  const BACKSLASH: byte := 0x5C
  const PLUS: byte := 0x2B
  const COMMA: byte := 0x2C
  const MINUS: byte := 0x2D
  const DOT: byte := 0x2E
  const COLON: byte := 0x3A
  const OPEN_BRACKET: byte := 0x5B
  const CLOSE_BRACKET: byte := 0x5D
  const OPEN_BRACE: byte := 0x7B
  const CLOSE_BRACE: byte := 0x7D
  const LETTER_U: byte := 0x75

  const NULL_TEXT: seq<byte> := [0x6E, 0x75, 0x6C, 0x6C]
  const TRUE_TEXT: seq<byte> := [0x74, 0x72, 0x75, 0x65]
  const FALSE_TEXT: seq<byte> := [0x66, 0x61, 0x6C, 0x73, 0x65]

  /** `{:04x}`. */
  function Hex4(n: int): (s: seq<byte>)
    requires 0 <= n < 0x1_0000
    ensures |s| == 4
  {
    [HexDigit(n / 0x1000), HexDigit(n / 0x100 % 0x10), HexDigit(n / 0x10 % 0x10), HexDigit(n % 0x10)]
  }

  /** The letter of a two-character escape, for the scalars that have one. */
  function ShortEscape(c: Scalar): Option<byte> {
    if c == 0x22 then Some(0x22)
    else if c == 0x5C then Some(0x5C)
    else if c == 0x0A then Some(0x6E)
    else if c == 0x0D then Some(0x72)
    else if c == 0x09 then Some(0x74)
    else if c == 0x08 then Some(0x62)
    else if c == 0x0C then Some(0x66)
    else None
  }

  function CharText(c: Scalar): (s: seq<byte>)
    ensures |s| > 0
  {
    match ShortEscape(c)
    case Some(letter) => [BACKSLASH, letter]
    case None => if c < 0x20 then [BACKSLASH, LETTER_U] + Hex4(c) else Encode(c)
  }

  /** What follows the opening quote. */
  function CharsText(t: Text): (s: seq<byte>)
    ensures |s| > 0
  {
    if t == [] then [QUOTE] else CharText(t[0]) + CharsText(t[1..])
  }

  function StringText(t: Text): seq<byte> {
    [QUOTE] + CharsText(t)
  }

  function FloatText(fl: Floats, x: Float): seq<byte> {
    if !IsFinite(x) then NULL_TEXT
    else if IsZero(x) then [0x30]
    else NumberText(fl.show(x))
  }

  function CommaText(k: nat): seq<byte> {
    if k > 0 then [COMMA] else []
  }

  /** What is left of a comma-separated list from element `k` on, and its closing byte. */
  function Joined(texts: seq<seq<byte>>, k: nat, close: byte): (s: seq<byte>)
    requires k <= |texts|
    ensures |s| > 0
    decreases |texts| - k
  {
    if k == |texts| then [close] else CommaText(k) + (texts[k] + Joined(texts, k + 1, close))
  }

  function ValueText(fl: Floats, v: Json): seq<byte>
    decreases v, 1
  {
    match v
    case Null => NULL_TEXT
    case Bool(b) => if b then TRUE_TEXT else FALSE_TEXT
    case Num(x) => FloatText(fl, x)
    case Str(t) => StringText(t)
    case Arr(_) => [OPEN_BRACKET] + Joined(ItemTexts(fl, v), 0, CLOSE_BRACKET)
    case Obj(_) => [OPEN_BRACE] + Joined(MemberTexts(fl, v), 0, CLOSE_BRACE)
  }

  function ItemTexts(fl: Floats, v: Json): (texts: seq<seq<byte>>)
    requires v.Arr?
    ensures |texts| == |v.items|
    decreases v, 0
  {
    seq(|v.items|, k requires 0 <= k < |v.items| => ValueText(fl, v.items[k]))
  }

  function KeyText(key: Text): (s: seq<byte>)
    ensures |s| > 0
  {
    StringText(key) + [COLON]
  }

  function MemberText(fl: Floats, m: Member): seq<byte>
    decreases m, 0
  {
    KeyText(m.key) + ValueText(fl, m.value)
  }

  function MemberTexts(fl: Floats, v: Json): (texts: seq<seq<byte>>)
    requires v.Obj?
    ensures |texts| == |v.members|
    decreases v, 0
  {
    seq(|v.members|, k requires 0 <= k < |v.members| => MemberText(fl, v.members[k]))
  }

  /**
   As `JSON.stringify` writes a scalar: two characters for seven of them, `\u00` and two digits for
   the other control characters, and anything else as it is.
   */
  lemma CharTextIs(c: Scalar)
    ensures forall k | 0 <= k < 7 ::
              c == "\"\\\n\r\t\U{8}\U{c}"[k] as int ==> CharText(c) == ['\\' as int, "\"\\nrtbf"[k] as int]
    ensures (forall k | 0 <= k < 7 :: c != "\"\\\n\r\t\U{8}\U{c}"[k] as int) ==>
              CharText(c) == if c < 0x20 then ['\\' as int, 'u' as int, '0' as int, '0' as int, '0' as int + c / 16,
                                               "0123456789abcdef"[c % 16] as int]
                             else Encode(c)
  {
    var special, letters := "\"\\\n\r\t\U{8}\U{c}", "\"\\nrtbf";
    assert special[0] as int == 0x22 && special[1] as int == 0x5C && special[2] as int == 0x0A;
    assert special[3] as int == 0x0D && special[4] as int == 0x09 && special[5] as int == 0x08;
    assert special[6] as int == 0x0C;
    assert letters[0] as int == 0x22 && letters[1] as int == 0x5C && letters[2] as int == 0x6E;
    assert letters[3] as int == 0x72 && letters[4] as int == 0x74 && letters[5] as int == 0x62;
    assert letters[6] as int == 0x66;
    if c < 0x20 && ShortEscape(c).None? {
      HexDigitIs(c % 16);
      assert c / 0x1000 == 0 && c / 0x100 % 0x10 == 0 && c / 0x10 % 0x10 == c / 16;
    }
    hide Encode;
  }

  /** No space anywhere: brackets, commas between the elements, and a colon after each key. */
  lemma TextIs(fl: Floats, v: Json)
    ensures v.Null? ==> ValueText(fl, v) == Ascii("null")
    ensures v.Bool? ==> ValueText(fl, v) == Ascii(if v.b then "true" else "false")
    ensures v.Num? && !IsFinite(v.x) ==> ValueText(fl, v) == Ascii("null")
    ensures v.Num? && IsZero(v.x) ==> ValueText(fl, v) == Ascii("0")
    ensures v.Num? && IsFinite(v.x) && !IsZero(v.x) ==> ValueText(fl, v) == NumberText(fl.show(v.x))
    ensures v.Str? ==>
              ValueText(fl, v) == Ascii("\"") + Concat(seq(|v.s|, k requires 0 <= k < |v.s| => CharText(v.s[k])))
                                  + Ascii("\"")
    ensures v.Arr? ==> ValueText(fl, v) == Ascii("[") + Concat(Separated(ItemTexts(fl, v))) + Ascii("]")
    ensures v.Obj? ==> ValueText(fl, v) == Ascii("{") + Concat(Separated(MemberTexts(fl, v))) + Ascii("}")
  {
    hide Joined, Separated, Concat, ItemTexts, MemberTexts, CharsText, NumberText;
    match v
    case Null => WordsAre();
    case Bool(_) => WordsAre();
    case Num(x) => WordsAre(); FiniteOrNot(x);
    case Str(t) => CharsAre(t);
    case Arr(_) => ListIs(OPEN_BRACKET, ItemTexts(fl, v), CLOSE_BRACKET);
    case Obj(_) => ListIs(OPEN_BRACE, MemberTexts(fl, v), CLOSE_BRACE);
  }

  lemma WordsAre()
    ensures NULL_TEXT == Ascii("null") && TRUE_TEXT == Ascii("true") && FALSE_TEXT == Ascii("false")
    ensures [0x30] == Ascii("0")
  {
  }

  lemma ListIs(open: byte, texts: seq<seq<byte>>, close: byte)
    ensures [open] + Joined(texts, 0, close) == [open] + Concat(Separated(texts)) + [close]
    ensures [OPEN_BRACKET] == Ascii("[") && [CLOSE_BRACKET] == Ascii("]")
    ensures [OPEN_BRACE] == Ascii("{") && [CLOSE_BRACE] == Ascii("}")
  {
    JoinedIs(texts, 0, close);
    Brackets(open, Concat(Separated(texts)), close);
    assert Separated(texts)[0..] == Separated(texts);
    hide Joined, Separated, Concat;
  }

  function Ascii(s: string): (b: seq<byte>)
    requires forall i | 0 <= i < |s| :: s[i] < '\U{80}'
    ensures |b| == |s|
  {
    seq(|s|, i requires 0 <= i < |s| => s[i] as int)
  }

  /** Every text but the first with a comma before it. */
  function Separated(texts: seq<seq<byte>>): (s: seq<seq<byte>>)
    ensures |s| == |texts|
  {
    seq(|texts|, k requires 0 <= k < |texts| => if k > 0 then Ascii(",") + texts[k] else texts[k])
  }

  lemma FiniteOrNot(x: Float)
    ensures IsZero(x) ==> IsFinite(x)
  {
  }

  lemma Brackets(open: byte, inside: seq<byte>, close: byte)
    ensures [open] + (inside + [close]) == [open] + inside + [close]
  {
  }

  lemma {:induction false} CharsAre(t: Text)
    ensures [QUOTE] + CharsText(t)
         == Ascii("\"") + Concat(seq(|t|, k requires 0 <= k < |t| => CharText(t[k]))) + Ascii("\"")
  {
    TailChars(t);
    var texts := seq(|t|, k requires 0 <= k < |t| => CharText(t[k]));
    Brackets(QUOTE, Concat(texts), QUOTE);
    assert Ascii("\"") == [QUOTE];
    hide CharsText, CharText, Concat;
  }

  lemma {:induction false} TailChars(t: Text)
    ensures CharsText(t) == Concat(seq(|t|, k requires 0 <= k < |t| => CharText(t[k]))) + [QUOTE]
  {
    hide CharText;
    var texts := seq(|t|, k requires 0 <= k < |t| => CharText(t[k]));
    if t != [] {
      var rest := t[1..];
      TailChars(rest);
      var more := seq(|rest|, k requires 0 <= k < |rest| => CharText(rest[k]));
      assert texts[1..] == more;
      assert CharText(t[0]) + (Concat(more) + [QUOTE]) == (CharText(t[0]) + Concat(more)) + [QUOTE];
    }
  }

  lemma Assoc(a: seq<byte>, b: seq<byte>, c: seq<byte>, d: seq<byte>)
    ensures a + (b + (c + d)) == ((a + b) + c) + d
  {
  }

  lemma {:induction false} JoinedIs(texts: seq<seq<byte>>, k: nat, close: byte)
    requires k <= |texts|
    ensures Joined(texts, k, close) == Concat(Separated(texts)[k..]) + [close]
    decreases |texts| - k
  {
    if k < |texts| {
      JoinedIs(texts, k + 1, close);
      var s := Separated(texts);
      assert s[k..][1..] == s[k + 1..] && Ascii(",") == [COMMA];
      assert s[k] == CommaText(k) + texts[k];
      Assoc(CommaText(k), texts[k], Concat(s[k + 1..]), [close]);
    } else {
      assert Separated(texts)[k..] == [];
    }
  }

  // ---- The serializer ----

  class Printer {
    const fl: Floats
    var out: seq<byte>

    constructor (fl: Floats)
      ensures this.fl == fl && out == []
    {
      this.fl := fl;
      out := [];
    }

    /** One scalar of `write_string`. */
    method WriteChar(c: Scalar)
      modifies this
      ensures out == old(out) + CharText(c)
    {
      if c == 0x22 {
        out := out + [BACKSLASH, 0x22];
      } else if c == 0x5C {
        out := out + [BACKSLASH, 0x5C];
      } else if c == 0x0A {
        out := out + [BACKSLASH, 0x6E];
      } else if c == 0x0D {
        out := out + [BACKSLASH, 0x72];
      } else if c == 0x09 {
        out := out + [BACKSLASH, 0x74];
      } else if c == 0x08 {
        out := out + [BACKSLASH, 0x62];
      } else if c == 0x0C {
        out := out + [BACKSLASH, 0x66];
      } else if c < 0x20 {
        out := out + ([BACKSLASH, LETTER_U] + Hex4(c));
      } else {
        out := out + Encode(c);
      }
    }

    /** `write_string`. */
    method WriteString(t: Text)
      modifies this
      ensures out == old(out) + StringText(t)
    {
      out := out + [QUOTE];
      Regroup(old(out), [QUOTE], CharsText(t));
      assert t[0..] == t;
      for k := 0 to |t|
        invariant out + CharsText(t[k..]) == old(out) + StringText(t)
      {
        Regroup(out, CharText(t[k]), CharsText(t[k + 1..]));
        assert t[k..][1..] == t[k + 1..];
        WriteChar(t[k]);
      }
      out := out + [QUOTE];
    }

    /** `write_value`. */
    method WriteValue(v: Json)
      modifies this
      ensures out == old(out) + ValueText(fl, v)
      decreases v, 1
    {
      match v {
        case Null =>
          out := out + NULL_TEXT;
        case Bool(b) =>
          out := out + if b then TRUE_TEXT else FALSE_TEXT;
        case Num(x) =>
          out := out + FloatText(fl, x);
        case Str(t) =>
          WriteString(t);
        case Arr(_) =>
          WriteItems(v);
        case Obj(_) =>
          WriteMembers(v);
      }
    }

    method WriteItems(v: Json)
      requires v.Arr?
      modifies this
      ensures out == old(out) + ValueText(fl, v)
      decreases v, 0
    {
      ghost var texts := ItemTexts(fl, v);
      out := out + [OPEN_BRACKET];
      Regroup(old(out), [OPEN_BRACKET], Joined(texts, 0, CLOSE_BRACKET));
      for k := 0 to |v.items|
        invariant out + Joined(texts, k, CLOSE_BRACKET) == old(out) + ValueText(fl, v)
      {
        Regroup3(out, CommaText(k), texts[k], Joined(texts, k + 1, CLOSE_BRACKET));
        WriteComma(k);
        WriteValue(v.items[k]);
      }
      out := out + [CLOSE_BRACKET];
    }

    method WriteMembers(v: Json)
      requires v.Obj?
      modifies this
      ensures out == old(out) + ValueText(fl, v)
      decreases v, 0
    {
      ghost var texts := MemberTexts(fl, v);
      out := out + [OPEN_BRACE];
      Regroup(old(out), [OPEN_BRACE], Joined(texts, 0, CLOSE_BRACE));
      for k := 0 to |v.members|
        invariant out + Joined(texts, k, CLOSE_BRACE) == old(out) + ValueText(fl, v)
      {
        Regroup3(out, CommaText(k), texts[k], Joined(texts, k + 1, CLOSE_BRACE));
        WriteComma(k);
        WriteMember(v.members[k]);
      }
      out := out + [CLOSE_BRACE];
    }

    method WriteMember(m: Member)
      modifies this
      ensures out == old(out) + MemberText(fl, m)
      decreases m, 0
    {
      Regroup3(out, StringText(m.key), [COLON], ValueText(fl, m.value));
      WriteString(m.key);
      out := out + [COLON];
      WriteValue(m.value);
    }

    method WriteComma(k: nat)
      modifies this
      ensures out == old(out) + CommaText(k)
    {
      if k > 0 {
        out := out + [COMMA];
      }
    }
  }

  lemma Regroup(a: seq<byte>, b: seq<byte>, c: seq<byte>)
    ensures a + (b + c) == (a + b) + c
  {
  }

  lemma Regroup3(a: seq<byte>, b: seq<byte>, c: seq<byte>, d: seq<byte>)
    ensures a + (b + (c + d)) == ((a + b) + c) + d
    ensures a + ((b + c) + d) == ((a + b) + c) + d
  {
  }

  /** `stringify`. */
  method Stringify(fl: Floats, v: Json) returns (text: seq<byte>)
    ensures text == ValueText(fl, v)
  {
    var p := new Printer(fl);
    p.WriteValue(v);
    text := p.out;
  }
}
