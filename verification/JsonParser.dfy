/** The cursor-based JSON parser (`backend/src/json.rs`). */
module JsonParser {
  import opened Bits
  import opened Outcomes
  import opened Utf8
  import opened Json

  datatype ParseError = ParseError(at: nat, msg: string)

  /** What parsing from a position yields: a value and where it ends, or an error. */
  datatype Step<+T> = Got(value: T, next: nat) | Bad(error: ParseError)

  function Fail<T>(at: nat, msg: string): Step<T> {
    Bad(ParseError(at, msg))
  }

  /** Holds of every offset; naming one in a proof is what instantiates `At` there. */
  predicate Offset(k: int) {
    true
  }

  /** `s` stands at position `i` of `b`. */
  predicate At(b: seq<byte>, i: nat, s: seq<byte>) {
    i + |s| <= |b| && forall k {:trigger Offset(k)} | 0 <= k < |s| :: Offset(k) ==> b[i + k] == s[k]
  }

  lemma AtIsSlice(b: seq<byte>, i: nat, s: seq<byte>)
    ensures At(b, i, s) <==> i + |s| <= |b| && b[i..i + |s|] == s
  {
    if At(b, i, s) {
      var t := b[i..i + |s|];
      forall k | 0 <= k < |s|
        ensures t[k] == s[k]
      {
        assert Offset(k) && t[k] == b[i + k];
      }
    }
    if i + |s| <= |b| && b[i..i + |s|] == s {
      forall k {:trigger Offset(k)} | 0 <= k < |s|
        ensures Offset(k) ==> b[i + k] == s[k]
      {
        assert b[i..i + |s|][k] == s[k];
      }
    }
  }

  function Peek(b: seq<byte>, i: nat): Option<byte> {
    if i < |b| then Some(b[i]) else None
  }

  // ---- What each parser function computes, as a function of the position ----

  predicate IsSpace(c: byte) {
    c == 0x20 || c == 0x09 || c == 0x0A || c == 0x0D
  }

  function SkipSpace(b: seq<byte>, i: nat): (j: nat)
    requires i <= |b|
    ensures i <= j <= |b|
    decreases |b| - i
  {
    if i < |b| && IsSpace(b[i]) then SkipSpace(b, i + 1) else i
  }

  predicate DigitAt(b: seq<byte>, i: nat) {
    i < |b| && IsDigit(b[i])
  }

  function DigitsEnd(b: seq<byte>, i: nat): (j: nat)
    requires i <= |b|
    ensures i <= j <= |b|
    decreases |b| - i
  {
    if DigitAt(b, i) then DigitsEnd(b, i + 1) else i
  }

  function WholeEnd(b: seq<byte>, i: nat): (s: Step<()>)
    requires i <= |b|
    ensures s.Got? ==> i < s.next <= |b|
  {
    if Peek(b, i) == Some(0x30) then Got((), i + 1)
    else if DigitAt(b, i) then Got((), DigitsEnd(b, i + 1))
    else Fail(i, "bad number")
  }

  function FractionEnd(b: seq<byte>, i: nat): (s: Step<()>)
    requires i <= |b|
    ensures s.Got? ==> i <= s.next <= |b|
  {
    if Peek(b, i) != Some(DOT) then Got((), i)
    else if !DigitAt(b, i + 1) then Fail(i + 1, "bad fraction")
    else Got((), DigitsEnd(b, i + 1))
  }

  function ExponentEnd(b: seq<byte>, i: nat): (s: Step<()>)
    requires i <= |b|
    ensures s.Got? ==> i <= s.next <= |b|
  {
    if Peek(b, i) != Some(0x65) && Peek(b, i) != Some(0x45) then Got((), i)
    else
      var j := if Peek(b, i + 1) == Some(PLUS) || Peek(b, i + 1) == Some(MINUS) then i + 2 else i + 1;
      if !DigitAt(b, j) then Fail(j, "bad exponent") else Got((), DigitsEnd(b, j))
  }

  function NumberEnd(b: seq<byte>, i: nat): (s: Step<()>)
    requires i <= |b|
    ensures s.Got? ==> i < s.next <= |b|
  {
    match WholeEnd(b, if Peek(b, i) == Some(MINUS) then i + 1 else i)
    case Bad(e) => Bad(e)
    case Got(_, j) =>
      match FractionEnd(b, j)
      case Bad(e) => Bad(e)
      case Got(_, k) => ExponentEnd(b, k)
  }

  function ParseNumber(fl: Floats, b: seq<byte>, i: nat): (s: Step<Json>)
    requires i <= |b|
    ensures s.Got? ==> i < s.next <= |b|
  {
    match NumberEnd(b, i)
    case Bad(e) => Bad(e)
    case Got(_, j) =>
      match fl.read(b[i..j])
      case None => Fail(j, "bad number")
      case Some(x) => Got(Num(x), j)
  }

  function ParseHex4(b: seq<byte>, i: nat): (s: Step<nat>)
    ensures s.Got? ==> s.value < 0x1_0000 && s.next == i + 4 <= |b|
  {
    if i + 4 > |b| then Fail(i, "truncated \\u escape")
    else
      match (HexValue(b[i]), HexValue(b[i + 1]), HexValue(b[i + 2]), HexValue(b[i + 3]))
      case (Some(w), Some(x), Some(y), Some(z)) => Got(((w * 16 + x) * 16 + y) * 16 + z, i + 4)
      case _ => Fail(i, "bad hex digit")
  }

  const REPLACEMENT: Scalar := 0xFFFD

  predicate IsHigh(v: nat) {
    0xD800 <= v < 0xDC00
  }

  predicate IsLow(v: nat) {
    0xDC00 <= v < 0xE000
  }

  function Join(hi: nat, lo: nat): Scalar
    requires IsHigh(hi) && IsLow(lo)
  {
    0x1_0000 + (hi - 0xD800) * 0x400 + (lo - 0xDC00)
  }

  /** After `\u`: one escape, or two that form a surrogate pair. */
  function ParseUnicode(b: seq<byte>, i: nat): (s: Step<Scalar>)
    ensures s.Got? ==> i < s.next <= |b|
  {
    match ParseHex4(b, i)
    case Bad(e) => Bad(e)
    case Got(hi, j) =>
      if IsHigh(hi) then
        if Peek(b, j) == Some(BACKSLASH) && Peek(b, j + 1) == Some(LETTER_U) then
          match ParseHex4(b, j + 2)
          case Bad(e) => Bad(e)
          case Got(lo, k) => if IsLow(lo) then Got(Join(hi, lo), k) else Got(REPLACEMENT, j)
        else Got(REPLACEMENT, j)
      else if IsLow(hi) then Got(REPLACEMENT, j)
      else Got(hi, j)
  }

  /** The scalar a two-character escape stands for. */
  function Unescaped(letter: byte): Option<Scalar> {
    if letter == 0x22 then Some(0x22)
    else if letter == 0x5C then Some(0x5C)
    else if letter == 0x2F then Some(0x2F)
    else if letter == 0x62 then Some(0x08)
    else if letter == 0x66 then Some(0x0C)
    else if letter == 0x6E then Some(0x0A)
    else if letter == 0x72 then Some(0x0D)
    else if letter == 0x74 then Some(0x09)
    else None
  }

  /** After a backslash. */
  function ParseEscape(b: seq<byte>, i: nat): (s: Step<Scalar>)
    ensures s.Got? ==> i < s.next <= |b|
  {
    match Peek(b, i)
    case None => Fail(i, "unterminated escape")
    case Some(letter) =>
      match Unescaped(letter)
      case Some(c) => Got(c, i + 1)
      case None => if letter == LETTER_U then ParseUnicode(b, i + 1) else Fail(i + 1, "bad escape")
  }

  /** One UTF-8 scalar, verbatim. */
  function ParseRaw(b: seq<byte>, i: nat): (s: Step<Scalar>)
    requires i < |b|
    ensures s.Got? ==> i < s.next <= |b|
  {
    var n := LeadLength(b[i]);
    if i + n > |b| then Fail(i, "truncated UTF-8")
    else
      match Decode(b[i..i + n])
      case None => Fail(i, "invalid UTF-8")
      case Some(c) => Got(c, i + n)
  }

  /** One scalar of a string, escaped or not; `i` is not at a quote. */
  function ParseChar(b: seq<byte>, i: nat): (s: Step<Scalar>)
    requires i < |b|
    ensures s.Got? ==> i < s.next <= |b|
  {
    if b[i] == BACKSLASH then ParseEscape(b, i + 1)
    else if b[i] < 0x20 then Fail(i, "raw control char in string")
    else ParseRaw(b, i)
  }

  /** After the opening quote, with `acc` already read. */
  function ParseChars(b: seq<byte>, i: nat, acc: Text): (s: Step<Text>)
    requires i <= |b|
    ensures s.Got? ==> i < s.next <= |b|
    decreases |b| - i
  {
    if i == |b| then Fail(i, "unterminated string")
    else if b[i] == QUOTE then Got(acc, i + 1)
    else
      match ParseChar(b, i)
      case Bad(e) => Bad(e)
      case Got(c, j) => ParseChars(b, j, acc + [c])
  }

  function ParseLiteral(b: seq<byte>, i: nat, word: seq<byte>, v: Json): (s: Step<Json>)
    requires |word| > 0
    ensures s.Got? ==> i < s.next <= |b|
  {
    if At(b, i, word) then Got(v, i + |word|) else Fail(i, "bad literal")
  }

  /** `value_at`. */
  function ParseValue(fl: Floats, b: seq<byte>, i: nat, depth: nat): (s: Step<Json>)
    requires i <= |b|
    ensures s.Got? ==> i < s.next <= |b|
    decreases |b| - i, 0
  {
    if depth > MAX_DEPTH then Fail(i, "too deep")
    else
      match Peek(b, i)
      case None => Fail(i, "unexpected end")
      case Some(c) =>
        if c == 0x6E then ParseLiteral(b, i, NULL_TEXT, Null)
        else if c == 0x74 then ParseLiteral(b, i, TRUE_TEXT, Bool(true))
        else if c == 0x66 then ParseLiteral(b, i, FALSE_TEXT, Bool(false))
        else if c == QUOTE then
          match ParseChars(b, i + 1, [])
          case Bad(e) => Bad(e)
          case Got(t, j) => Got(Str(t), j)
        else if c == OPEN_BRACKET then ParseArray(fl, b, i + 1, depth)
        else if c == OPEN_BRACE then ParseObject(fl, b, i + 1, depth)
        else if c == MINUS || IsDigit(c) then ParseNumber(fl, b, i)
        else Fail(i, "unexpected token")
  }

  /** After the opening bracket. */
  function ParseArray(fl: Floats, b: seq<byte>, i: nat, depth: nat): (s: Step<Json>)
    requires i <= |b|
    ensures s.Got? ==> i < s.next <= |b|
    decreases |b| - i, 2
  {
    var j := SkipSpace(b, i);
    if Peek(b, j) == Some(CLOSE_BRACKET) then Got(Arr([]), j + 1) else ParseItems(fl, b, j, depth, [])
  }

  /** The array loop, with `acc` already read. */
  function ParseItems(fl: Floats, b: seq<byte>, i: nat, depth: nat, acc: seq<Json>): (s: Step<Json>)
    requires i <= |b|
    ensures s.Got? ==> i < s.next <= |b|
    decreases |b| - i, 1
  {
    match ParseValue(fl, b, SkipSpace(b, i), depth + 1)
    case Bad(e) => Bad(e)
    case Got(v, j) =>
      var k := SkipSpace(b, j);
      if Peek(b, k) == Some(COMMA) then ParseItems(fl, b, k + 1, depth, acc + [v])
      else if Peek(b, k) == Some(CLOSE_BRACKET) then Got(Arr(acc + [v]), k + 1)
      else Fail(k, "expected ',' or ']'")
  }

  /** `BTreeMap::insert`: the last value of a repeated key stays. */
  function Insert(ms: seq<Member>, key: Text, value: Json): seq<Member> {
    if ms == [] then [Member(key, value)]
    else if ms[0].key == key then [Member(key, value)] + ms[1..]
    else if Less(key, ms[0].key) then [Member(key, value)] + ms
    else [ms[0]] + Insert(ms[1..], key, value)
  }

  /** After the opening brace. */
  function ParseObject(fl: Floats, b: seq<byte>, i: nat, depth: nat): (s: Step<Json>)
    requires i <= |b|
    ensures s.Got? ==> i < s.next <= |b|
    decreases |b| - i, 2
  {
    var j := SkipSpace(b, i);
    if Peek(b, j) == Some(CLOSE_BRACE) then Got(Obj([]), j + 1) else ParseMembers(fl, b, j, depth, [])
  }

  /** A key and its colon. */
  function ParseKey(b: seq<byte>, i: nat): (s: Step<Text>)
    requires i <= |b|
    ensures s.Got? ==> i < s.next <= |b|
  {
    var j := SkipSpace(b, i);
    if Peek(b, j) != Some(QUOTE) then Fail(j, "expected object key")
    else
      match ParseChars(b, j + 1, [])
      case Bad(e) => Bad(e)
      case Got(key, k) =>
        var m := SkipSpace(b, k);
        if Peek(b, m) != Some(COLON) then Fail(m, "expected ':'") else Got(key, m + 1)
  }

  /** The object loop, with `acc` already read. */
  function ParseMembers(fl: Floats, b: seq<byte>, i: nat, depth: nat, acc: seq<Member>): (s: Step<Json>)
    requires i <= |b|
    ensures s.Got? ==> i < s.next <= |b|
    decreases |b| - i, 1
  {
    match ParseKey(b, i)
    case Bad(e) => Bad(e)
    case Got(key, h) =>
      match ParseValue(fl, b, SkipSpace(b, h), depth + 1)
      case Bad(e) => Bad(e)
      case Got(v, j) =>
        var k := SkipSpace(b, j);
        if Peek(b, k) == Some(COMMA) then ParseMembers(fl, b, k + 1, depth, Insert(acc, key, v))
        else if Peek(b, k) == Some(CLOSE_BRACE) then Got(Obj(Insert(acc, key, v)), k + 1)
        else Fail(k, "expected ',' or '}'")
  }

  /** `parse`: one value and nothing after it but space. */
  function Parsed(fl: Floats, b: seq<byte>): Result<Json, ParseError> {
    match ParseValue(fl, b, SkipSpace(b, 0), 0)
    case Bad(e) => Err(e)
    case Got(v, j) =>
      var k := SkipSpace(b, j);
      if k == |b| then Ok(v) else Err(ParseError(k, "trailing content"))
  }

  // ---- The parser ----

  /** The method answered as the function says, and left the cursor where it says. */
  ghost predicate Follows<T>(s: Step<T>, r: Result<T, ParseError>, cursor: nat) {
    match s
    case Got(v, n) => r == Ok(v) && cursor == n
    case Bad(e) => r == Err(e)
  }

  class Parser {
    const fl: Floats
    const b: seq<byte>
    var i: nat

    predicate Valid()
      reads this
    {
      i <= |b|
    }

    constructor (fl: Floats, b: seq<byte>)
      ensures Valid() && this.fl == fl && this.b == b && i == 0
    {
      this.fl := fl;
      this.b := b;
      i := 0;
    }

    function Look(): Option<byte>
      reads this
    {
      Peek(b, i)
    }

    function Error(msg: string): ParseError
      reads this
    {
      ParseError(i, msg)
    }

    /** `ws`. */
    method SkipWhitespace()
      requires Valid()
      modifies this
      ensures Valid() && i == SkipSpace(b, old(i))
    {
      while i < |b| && IsSpace(b[i])
        invariant Valid()
        invariant SkipSpace(b, i) == SkipSpace(b, old(i))
      {
        i := i + 1;
      }
    }

    /** `lit`. */
    method Literal(word: seq<byte>, v: Json) returns (r: Result<Json, ParseError>)
      requires Valid() && |word| > 0
      modifies this
      ensures Valid() && Follows(ParseLiteral(b, old(i), word, v), r, i)
    {
      AtIsSlice(b, i, word);
      if |b| - i >= |word| && b[i..i + |word|] == word {
        i := i + |word|;
        return Ok(v);
      }
      return Err(Error("bad literal"));
    }

    method SkipDigits()
      requires Valid()
      modifies this
      ensures Valid() && i == DigitsEnd(b, old(i))
    {
      while DigitAt(b, i)
        invariant Valid()
        invariant DigitsEnd(b, i) == DigitsEnd(b, old(i))
        decreases |b| - i
      {
        i := i + 1;
      }
    }

    method Whole() returns (r: Result<(), ParseError>)
      requires Valid()
      modifies this
      ensures Valid() && Follows(WholeEnd(b, old(i)), r, i)
    {
      if Look() == Some(0x30) {
        i := i + 1;
      } else if DigitAt(b, i) {
        SkipDigits();
      } else {
        return Err(Error("bad number"));
      }
      return Ok(());
    }

    method Fraction() returns (r: Result<(), ParseError>)
      requires Valid()
      modifies this
      ensures Valid() && Follows(FractionEnd(b, old(i)), r, i)
    {
      if Look() == Some(DOT) {
        i := i + 1;
        if !DigitAt(b, i) {
          return Err(Error("bad fraction"));
        }
        SkipDigits();
      }
      return Ok(());
    }

    method Power() returns (r: Result<(), ParseError>)
      requires Valid()
      modifies this
      ensures Valid() && Follows(ExponentEnd(b, old(i)), r, i)
    {
      if Look() == Some(0x65) || Look() == Some(0x45) {
        i := i + 1;
        if Look() == Some(PLUS) || Look() == Some(MINUS) {
          i := i + 1;
        }
        if !DigitAt(b, i) {
          return Err(Error("bad exponent"));
        }
        SkipDigits();
      }
      return Ok(());
    }

    /** `number`. */
    method Numeral() returns (r: Result<Json, ParseError>)
      requires Valid()
      modifies this
      ensures Valid() && Follows(ParseNumber(fl, b, old(i)), r, i)
    {
      var start := i;
      if Look() == Some(MINUS) {
        i := i + 1;
      }
      var whole := Whole();
      if whole.Err? {
        return Err(whole.error);
      }
      var fraction := Fraction();
      if fraction.Err? {
        return Err(fraction.error);
      }
      var power := Power();
      if power.Err? {
        return Err(power.error);
      }
      match fl.read(b[start..i]) {
        case None => r := Err(Error("bad number"));
        case Some(x) => r := Ok(Num(x));
      }
    }

    /** `hex4`: the digits are folded in one at a time. */
    method HexFour() returns (r: Result<nat, ParseError>)
      requires Valid()
      modifies this
      ensures Valid() && Follows(ParseHex4(b, old(i)), r, i)
    {
      if i + 4 > |b| {
        return Err(Error("truncated \\u escape"));
      }
      var v := 0;
      for k := 0 to 4
        invariant i == old(i)
        invariant Folded(b, i, k) == Some(v)
      {
        match HexValue(b[i + k]) {
          case None =>
            return Err(Error("bad hex digit"));
          case Some(nibble) =>
            v := v * 16 + nibble;
        }
      }
      FoldedFour(b, i);
      i := i + 4;
      return Ok(v);
    }

    /** `unicode_escape`. */
    method UnicodeEscape() returns (r: Result<Scalar, ParseError>)
      requires Valid()
      modifies this
      ensures Valid() && Follows(ParseUnicode(b, old(i)), r, i)
    {
      var first := HexFour();
      if first.Err? {
        return Err(first.error);
      }
      var hi := first.value;
      if IsHigh(hi) {
        if Look() == Some(BACKSLASH) && Peek(b, i + 1) == Some(LETTER_U) {
          var save := i;
          i := i + 2;
          var second := HexFour();
          if second.Err? {
            return Err(second.error);
          }
          var lo := second.value;
          if IsLow(lo) {
            return Ok(Join(hi, lo));
          }
          i := save;
        }
        return Ok(REPLACEMENT);
      }
      if IsLow(hi) {
        return Ok(REPLACEMENT);
      }
      return Ok(hi);
    }

    /** The escape branch of `string`. */
    method Escape() returns (r: Result<Scalar, ParseError>)
      requires Valid()
      modifies this
      ensures Valid() && Follows(ParseEscape(b, old(i)), r, i)
    {
      if i == |b| {
        return Err(Error("unterminated escape"));
      }
      var letter := b[i];
      i := i + 1;
      match Unescaped(letter) {
        case Some(c) =>
          r := Ok(c);
        case None =>
          if letter == LETTER_U {
            r := UnicodeEscape();
          } else {
            r := Err(Error("bad escape"));
          }
      }
    }

    /** One turn of the loop in `string`, away from the closing quote. */
    method Char() returns (r: Result<Scalar, ParseError>)
      requires Valid() && i < |b|
      modifies this
      ensures Valid() && Follows(ParseChar(b, old(i)), r, i)
    {
      var c := b[i];
      if c == BACKSLASH {
        i := i + 1;
        r := Escape();
      } else if c < 0x20 {
        r := Err(Error("raw control char in string"));
      } else {
        var n := LeadLength(c);
        if i + n > |b| {
          return Err(Error("truncated UTF-8"));
        }
        match Decode(b[i..i + n]) {
          case None =>
            r := Err(Error("invalid UTF-8"));
          case Some(s) =>
            i := i + n;
            r := Ok(s);
        }
      }
    }

    /** `string`. */
    method String() returns (r: Result<Text, ParseError>)
      requires Valid() && Look() == Some(QUOTE)
      modifies this
      ensures Valid() && Follows(ParseChars(b, old(i) + 1, []), r, i)
    {
      i := i + 1;
      var text: Text := [];
      while i < |b| && b[i] != QUOTE
        invariant Valid()
        invariant ParseChars(b, i, text) == ParseChars(b, old(i) + 1, [])
      {
        var c := Char();
        if c.Err? {
          return Err(c.error);
        }
        text := text + [c.value];
      }
      if i == |b| {
        return Err(Error("unterminated string"));
      }
      i := i + 1;
      return Ok(text);
    }

    /** `value_at`. */
    method Value(depth: nat) returns (r: Result<Json, ParseError>)
      requires Valid()
      modifies this
      ensures Valid() && Follows(ParseValue(fl, b, old(i), depth), r, i)
      decreases |b| - i, 0
    {
      if depth > MAX_DEPTH {
        return Err(Error("too deep"));
      }
      if i == |b| {
        return Err(Error("unexpected end"));
      }
      var c := b[i];
      if c == 0x6E {
        r := Literal(NULL_TEXT, Null);
      } else if c == 0x74 {
        r := Literal(TRUE_TEXT, Bool(true));
      } else if c == 0x66 {
        r := Literal(FALSE_TEXT, Bool(false));
      } else if c == QUOTE {
        var s := String();
        r := if s.Ok? then Ok(Str(s.value)) else Err(s.error);
      } else if c == OPEN_BRACKET {
        i := i + 1;
        r := Array(depth);
      } else if c == OPEN_BRACE {
        i := i + 1;
        r := Object(depth);
      } else if c == MINUS || IsDigit(c) {
        r := Numeral();
      } else {
        r := Err(Error("unexpected token"));
      }
    }

    /** `array`, past the bracket. */
    method Array(depth: nat) returns (r: Result<Json, ParseError>)
      requires Valid()
      modifies this
      ensures Valid() && Follows(ParseArray(fl, b, old(i), depth), r, i)
      decreases |b| - i, 1
    {
      hide SkipSpace;
      ghost var whole := ParseArray(fl, b, i, depth);
      var items: seq<Json> := [];
      SkipWhitespace();
      if Look() == Some(CLOSE_BRACKET) {
        i := i + 1;
        return Ok(Arr(items));
      }
      while true
        invariant Valid() && i >= old(i)
        invariant ParseItems(fl, b, i, depth, items) == whole
        decreases |b| - i
      {
        SkipWhitespace();
        var v := Value(depth + 1);
        if v.Err? {
          return Err(v.error);
        }
        items := items + [v.value];
        SkipWhitespace();
        if Look() == Some(COMMA) {
          i := i + 1;
        } else if Look() == Some(CLOSE_BRACKET) {
          i := i + 1;
          return Ok(Arr(items));
        } else {
          return Err(Error("expected ',' or ']'"));
        }
      }
    }

    method Key() returns (r: Result<Text, ParseError>)
      requires Valid()
      modifies this
      ensures Valid() && Follows(ParseKey(b, old(i)), r, i)
    {
      SkipWhitespace();
      if Look() != Some(QUOTE) {
        return Err(Error("expected object key"));
      }
      r := String();
      if r.Ok? {
        SkipWhitespace();
        if Look() != Some(COLON) {
          return Err(Error("expected ':'"));
        }
        i := i + 1;
      }
    }

    /** `object`, past the brace. */
    method Object(depth: nat) returns (r: Result<Json, ParseError>)
      requires Valid()
      modifies this
      ensures Valid() && Follows(ParseObject(fl, b, old(i), depth), r, i)
      decreases |b| - i, 1
    {
      hide ParseKey, SkipSpace, Insert;
      ghost var whole := ParseObject(fl, b, i, depth);
      var members: seq<Member> := [];
      SkipWhitespace();
      if Look() == Some(CLOSE_BRACE) {
        i := i + 1;
        return Ok(Obj(members));
      }
      while true
        invariant Valid() && i >= old(i)
        invariant ParseMembers(fl, b, i, depth, members) == whole
        decreases |b| - i
      {
        var key := Key();
        if key.Err? {
          return Err(key.error);
        }
        SkipWhitespace();
        var v := Value(depth + 1);
        if v.Err? {
          return Err(v.error);
        }
        members := Insert(members, key.value, v.value);
        SkipWhitespace();
        if Look() == Some(COMMA) {
          i := i + 1;
        } else if Look() == Some(CLOSE_BRACE) {
          i := i + 1;
          return Ok(Obj(members));
        } else {
          return Err(Error("expected ',' or '}'"));
        }
      }
    }
  }

  /** `parse`. */
  method Parse(fl: Floats, input: seq<byte>) returns (r: Result<Json, ParseError>)
    ensures r == Parsed(fl, input)
  {
    var p := new Parser(fl, input);
    p.SkipWhitespace();
    r := p.Value(0);
    if r.Ok? {
      p.SkipWhitespace();
      if p.i != |p.b| {
        return Err(p.Error("trailing content"));
      }
    }
  }

  /** The value of `k` hexadecimal digits. */
  ghost function Folded(b: seq<byte>, i: nat, k: nat): Option<nat>
    requires i + k <= |b|
  {
    if k == 0 then Some(0)
    else
      match (Folded(b, i, k - 1), HexValue(b[i + k - 1]))
      case (Some(v), Some(nibble)) => Some(v * 16 + nibble)
      case _ => None
  }

  lemma FoldedFour(b: seq<byte>, i: nat)
    requires i + 4 <= |b| && Folded(b, i, 4).Some?
    ensures ParseHex4(b, i) == Got(Folded(b, i, 4).value, i + 4)
  {
    FoldedStep(b, i, 3);
    FoldedStep(b, i, 2);
    FoldedStep(b, i, 1);
    FoldedStep(b, i, 0);
    hide HexValue;
  }

  lemma FoldedStep(b: seq<byte>, i: nat, k: nat)
    requires i + k < |b| && Folded(b, i, k + 1).Some?
    ensures Folded(b, i, k).Some? && HexValue(b[i + k]).Some?
    ensures Folded(b, i, k + 1).value == Folded(b, i, k).value * 16 + HexValue(b[i + k]).value
  {
  }
}
