/**
 What the words of JSON look like, and that the parser takes exactly those
 (`backend/src/json.rs`; sections 6 and 7 of RFC 8259).
 */
module JsonLexical {
  import opened Bits
  import opened Outcomes
  import opened Utf8
  import opened Json
  import opened JsonParser

  // ---- Text at a position ----

  lemma AtSplit(b: seq<byte>, i: nat, s: seq<byte>, t: seq<byte>)
    requires At(b, i, s + t)
    ensures At(b, i, s) && At(b, i + |s|, t)
    ensures i + |s| + |t| <= |b|
  {
    forall k {:trigger Offset(k)} | 0 <= k < |s|
      ensures Offset(k) ==> b[i + k] == s[k]
    {
      assert (s + t)[k] == s[k];
    }
    forall k {:trigger Offset(k)} | 0 <= k < |t|
      ensures Offset(k) ==> b[i + |s| + k] == t[k]
    {
      assert Offset(|s| + k);
      assert (s + t)[|s| + k] == t[k];
    }
  }

  lemma AtFirst(b: seq<byte>, i: nat, s: seq<byte>)
    requires At(b, i, s) && |s| > 0
    ensures i < |b| && b[i] == s[0]
  {
    assert Offset(0);
  }

  lemma AtJoin(b: seq<byte>, i: nat, s: seq<byte>, t: seq<byte>)
    requires At(b, i, s) && At(b, i + |s|, t)
    ensures At(b, i, s + t)
  {
    forall k {:trigger Offset(k)} | 0 <= k < |s + t|
      ensures Offset(k) ==> b[i + k] == (s + t)[k]
    {
      if k < |s| {
        assert Offset(k);
      } else {
        assert Offset(k - |s|);
      }
    }
  }

  // ---- Space ----

  predicate Blank(s: seq<byte>) {
    s != [] ==> IsSpace(s[0]) && Blank(s[1..])
  }

  /** Space is skipped up to what is not. */
  lemma {:induction false} BlankSkips(b: seq<byte>, i: nat, s: seq<byte>)
    requires At(b, i, s) && Blank(s) && (i + |s| < |b| ==> !IsSpace(b[i + |s|]))
    ensures SkipSpace(b, i) == i + |s|
    decreases |s|
  {
    if s != [] {
      AtFirst(b, i, s);
      assert s == [s[0]] + s[1..];
      AtSplit(b, i, [s[0]], s[1..]);
      hide At;
      BlankSkips(b, i + 1, s[1..]);
    }
  }

  /** And only space is. */
  lemma {:induction false} SkipsBlank(b: seq<byte>, i: nat)
    requires i <= |b|
    ensures Blank(b[i..SkipSpace(b, i)]) && At(b, i, b[i..SkipSpace(b, i)])
    ensures SkipSpace(b, i) < |b| ==> !IsSpace(b[SkipSpace(b, i)])
    decreases |b| - i
  {
    var j := SkipSpace(b, i);
    AtIsSlice(b, i, b[i..j]);
    if i < |b| && IsSpace(b[i]) {
      SkipsBlank(b, i + 1);
      assert b[i..j][1..] == b[i + 1..j];
    }
  }

  // ---- Strings ----

  /** The two-character escapes of section 7, and what each stands for. */
  lemma EscapesAre(letter: byte, c: Scalar)
    ensures Unescaped(letter) == Some(c) <==>
            exists k :: 0 <= k < 8 && letter == "\"\\/bfnrt"[k] as int && c == "\"\\/\U{8}\U{c}\n\r\t"[k] as int
  {
    var letters, meant := "\"\\/bfnrt", "\"\\/\U{8}\U{c}\n\r\t";
    assert letters[0] as int == 0x22 && letters[1] as int == 0x5C && letters[2] as int == 0x2F;
    assert letters[3] as int == 0x62 && letters[4] as int == 0x66 && letters[5] as int == 0x6E;
    assert letters[6] as int == 0x72 && letters[7] as int == 0x74;
  }

  /** What is skipped between the words: space, tab and both line ends. */
  lemma SpaceIs(c: byte)
    ensures IsSpace(c) <==> exists k :: 0 <= k < 4 && c == " \t\n\r"[k] as int
  {
    var space := " \t\n\r";
    assert space[0] as int == 0x20 && space[1] as int == 0x09 && space[2] as int == 0x0A && space[3] as int == 0x0D;
  }

  lemma HexDigitReads(d: nat)
    requires d < 16
    ensures HexValue(HexDigit(d)) == Some(d)
  {
  }

  lemma Base16(n: nat)
    ensures ((n / 0x1000 * 16 + n / 0x100 % 0x10) * 16 + n / 0x10 % 0x10) * 16 + n % 0x10 == n
  {
    DivideTwice(n);
    var a, b, c := n / 0x10, n / 0x100, n / 0x1000;
    assert n == a * 16 + n % 0x10 && a == b * 16 + a % 0x10 && b == c * 16 + b % 0x10;
  }

  lemma DivideTwice(n: nat)
    ensures n / 0x100 == n / 0x10 / 0x10 && n / 0x1000 == n / 0x100 / 0x10
  {
  }

  lemma Hex4Reads(b: seq<byte>, i: nat, n: nat)
    requires n < 0x1_0000 && At(b, i, Hex4(n))
    ensures ParseHex4(b, i) == Got(n, i + 4)
  {
    var s := Hex4(n);
    assert Offset(0) && Offset(1) && Offset(2) && Offset(3);
    HexDigitReads(n / 0x1000);
    HexDigitReads(n / 0x100 % 0x10);
    HexDigitReads(n / 0x10 % 0x10);
    HexDigitReads(n % 0x10);
    Base16(n);
  }

  /** One unit of a string as written: a two-character escape, `\u` with four digits, or a scalar itself. */
  datatype Unit = Short(letter: byte) | Hex(digits: seq<byte>) | Raw(c: Scalar)

  predicate IsHexFour(s: seq<byte>) {
    && |s| == 4
    && HexValue(s[0]).Some? && HexValue(s[1]).Some? && HexValue(s[2]).Some? && HexValue(s[3]).Some?
  }

  function HexFour(s: seq<byte>): (n: nat)
    requires IsHexFour(s)
    ensures n < 0x1_0000
  {
    ((HexValue(s[0]).value * 16 + HexValue(s[1]).value) * 16 + HexValue(s[2]).value) * 16 + HexValue(s[3]).value
  }

  predicate IsUnit(u: Unit) {
    match u
    case Short(letter) => Unescaped(letter).Some?
    case Hex(digits) => IsHexFour(digits)
    case Raw(c) => c >= 0x20 && c != 0x22 && c != 0x5C
  }

  predicate AreUnits(us: seq<Unit>) {
    us != [] ==> IsUnit(us[0]) && AreUnits(us[1..])
  }

  function UnitText(u: Unit): (s: seq<byte>)
    ensures |s| > 0
  {
    match u
    case Short(letter) => [BACKSLASH, letter]
    case Hex(digits) => [BACKSLASH, LETTER_U] + digits
    case Raw(c) => Encode(c)
  }

  /** Units and the closing quote. */
  function UnitsText(us: seq<Unit>): (s: seq<byte>)
    ensures |s| > 0
  {
    if us == [] then [QUOTE] else UnitText(us[0]) + UnitsText(us[1..])
  }

  predicate IsLowUnit(u: Unit) {
    u.Hex? && IsHexFour(u.digits) && IsLow(HexFour(u.digits))
  }

  /**
   The first scalar that units denote, and the units after it: a high surrogate joins a low one
   right after it, and a surrogate left alone is U+FFFD.
   */
  function Head(us: seq<Unit>): (r: (Scalar, seq<Unit>))
    requires us != [] && AreUnits(us)
    ensures |r.1| < |us| && AreUnits(r.1)
  {
    var rest := us[1..];
    match us[0]
    case Short(letter) => (Unescaped(letter).value, rest)
    case Raw(c) => (c, rest)
    case Hex(digits) =>
      var v := HexFour(digits);
      if IsHigh(v) then
        assert AreUnits(rest);
        if rest != [] && IsLowUnit(rest[0]) then (Join(v, HexFour(rest[0].digits)), rest[1..]) else (REPLACEMENT, rest)
      else (if IsLow(v) then REPLACEMENT else v, rest)
  }

  /** The text that units denote. */
  function Denoted(us: seq<Unit>): Text
    requires AreUnits(us)
    decreases |us|
  {
    if us == [] then [] else [Head(us).0] + Denoted(Head(us).1)
  }

  lemma HexFourReads(b: seq<byte>, i: nat, s: seq<byte>)
    requires At(b, i, s) && IsHexFour(s)
    ensures ParseHex4(b, i) == Got(HexFour(s), i + 4)
  {
    assert Offset(0) && Offset(1) && Offset(2) && Offset(3);
    hide HexValue;
  }

  /** Four hexadecimal digits are all that reads as them. */
  lemma HexFourOnly(b: seq<byte>, i: nat)
    requires ParseHex4(b, i).Got?
    ensures i + 4 <= |b| && IsHexFour(b[i..i + 4]) && At(b, i, b[i..i + 4])
    ensures ParseHex4(b, i).value == HexFour(b[i..i + 4])
  {
    AtIsSlice(b, i, b[i..i + 4]);
    var s := b[i..i + 4];
    assert s[0] == b[i] && s[1] == b[i + 1] && s[2] == b[i + 2] && s[3] == b[i + 3];
    hide HexValue, At;
  }

  /** What a unit looks like from its first two bytes. */
  lemma UnitLooks(b: seq<byte>, i: nat, u: Unit)
    requires At(b, i, UnitText(u)) && IsUnit(u)
    ensures i < |b| && b[i] != QUOTE
    ensures u.Hex? ==> |UnitText(u)| == 6
    ensures u.Raw? ==> b[i] != BACKSLASH && ParseChar(b, i) == Got(u.c, i + |UnitText(u)|)
    ensures u.Short? ==> b[i] == BACKSLASH && Peek(b, i + 1) == Some(u.letter) && u.letter != LETTER_U
    ensures u.Hex? ==> b[i] == BACKSLASH && Peek(b, i + 1) == Some(LETTER_U) && At(b, i + 2, u.digits)
  {
    match u
    case Raw(c) =>
      AtFirst(b, i, Encode(c));
      AtIsSlice(b, i, Encode(c));
      DecodeEncode(c);
    case Short(letter) =>
      assert Offset(0) && Offset(1);
    case Hex(digits) =>
      assert Offset(0) && Offset(1);
      AtSplit(b, i, [BACKSLASH, LETTER_U], digits);
  }

  lemma ShortReads(b: seq<byte>, i: nat, u: Unit)
    requires u.Short? && IsUnit(u) && At(b, i, UnitText(u))
    ensures i < |b| && ParseChar(b, i) == Got(Unescaped(u.letter).value, i + |UnitText(u)|)
  {
    assert Offset(0) && Offset(1);
  }

  lemma HexAlone(b: seq<byte>, i: nat, digits: seq<byte>)
    requires IsHexFour(digits) && At(b, i, UnitText(Hex(digits)))
    requires IsHigh(HexFour(digits)) && Peek(b, i + 6) == Some(BACKSLASH) && Peek(b, i + 7) == Some(LETTER_U) ==>
      ParseHex4(b, i + 8).Got? && !IsLow(ParseHex4(b, i + 8).value)
    ensures var v := HexFour(digits);
            i < |b| && ParseChar(b, i) == Got(if IsHigh(v) || IsLow(v) then REPLACEMENT else v, i + 6)
  {
    AtSplit(b, i, [BACKSLASH, LETTER_U], digits);
    assert Offset(0) && Offset(1);
    HexFourReads(b, i + 2, digits);
    hide At, ParseHex4, IsHexFour, HexFour, Decode, LeadLength;
  }

  lemma HexPair(b: seq<byte>, i: nat, high: seq<byte>, low: seq<byte>)
    requires IsHexFour(high) && At(b, i, UnitText(Hex(high))) && IsHigh(HexFour(high))
    requires IsHexFour(low) && At(b, i + 6, UnitText(Hex(low))) && IsLow(HexFour(low))
    ensures i < |b| && ParseChar(b, i) == Got(Join(HexFour(high), HexFour(low)), i + 12)
  {
    AtSplit(b, i, [BACKSLASH, LETTER_U], high);
    AtSplit(b, i + 6, [BACKSLASH, LETTER_U], low);
    assert Offset(0) && Offset(1);
    HexFourReads(b, i + 2, high);
    HexFourReads(b, i + 8, low);
    hide At, ParseHex4, IsHexFour, HexFour, Decode, LeadLength;
  }

  /** One or two hexadecimal escapes, as the surrogates decide. */
  lemma HexReads(b: seq<byte>, i: nat, us: seq<Unit>)
    requires us != [] && us[0].Hex? && AreUnits(us) && At(b, i, UnitsText(us))
    ensures i < |b| && ParseChar(b, i) == Got(Head(us).0, if |Head(us).1| + 1 == |us| then i + 6 else i + 12)
  {
    hide At, ParseChar, ParseHex4, IsHexFour, HexFour, UnitsText, UnitText, Encode;
    var rest := us[1..];
    UnitsUnfold(us);
    AtSplit(b, i, UnitText(us[0]), UnitsText(rest));
    UnitLooks(b, i, us[0]);
    AfterHex(b, i + 6, rest);
    if rest != [] && IsHigh(HexFour(us[0].digits)) && IsLowUnit(rest[0]) {
      HexPair(b, i, us[0].digits, rest[0].digits);
    } else {
      HexAlone(b, i, us[0].digits);
    }
  }

  /** What stands after a hexadecimal escape: another one, or something else. */
  lemma AfterHex(b: seq<byte>, i: nat, rest: seq<Unit>)
    requires AreUnits(rest) && At(b, i, UnitsText(rest))
    ensures rest != [] && rest[0].Hex? ==>
      && At(b, i, UnitText(rest[0]))
      && ParseHex4(b, i + 2).Got? && ParseHex4(b, i + 2).value == HexFour(rest[0].digits)
    ensures rest == [] || !rest[0].Hex? ==> Peek(b, i) != Some(BACKSLASH) || Peek(b, i + 1) != Some(LETTER_U)
  {
    hide At, ParseHex4, HexFour, Encode, ParseChar;
    if rest == [] {
      AtFirst(b, i, [QUOTE]);
    } else {
      AtSplit(b, i, UnitText(rest[0]), UnitsText(rest[1..]));
      UnitLooks(b, i, rest[0]);
      if rest[0].Hex? {
        HexFourReads(b, i + 2, rest[0].digits);
      }
    }
  }

  /** Where the units after the first scalar stand. */
  lemma RestPlace(b: seq<byte>, i: nat, us: seq<Unit>)
    requires us != [] && AreUnits(us) && At(b, i, UnitsText(us))
    ensures var rest := Head(us).1;
            var j := i + |UnitsText(us)| - |UnitsText(rest)|;
            && j >= i && At(b, j, UnitsText(rest))
            && (us[0].Hex? ==> j == if |rest| + 1 == |us| then i + 6 else i + 12)
            && (!us[0].Hex? ==> j == i + |UnitText(us[0])|)
  {
    hide At, HexFour, Join, IsHigh, IsLow, UnitsText, Encode;
    var rest := us[1..];
    UnitsUnfold(us);
    AtSplit(b, i, UnitText(us[0]), UnitsText(rest));
    if |Head(us).1| + 1 < |us| {
      UnitsUnfold(rest);
      AtSplit(b, i + 6, UnitText(rest[0]), UnitsText(rest[1..]));
    }
  }

  lemma UnitsUnfold(us: seq<Unit>)
    requires us != []
    ensures UnitsText(us) == UnitText(us[0]) + UnitsText(us[1..])
  {
  }

  lemma HeadReads(b: seq<byte>, i: nat, us: seq<Unit>)
    requires us != [] && AreUnits(us) && At(b, i, UnitsText(us))
    ensures var j := i + |UnitsText(us)| - |UnitsText(Head(us).1)|;
            && i < |b| && b[i] != QUOTE
            && ParseChar(b, i).Got? && ParseChar(b, i).value == Head(us).0 && ParseChar(b, i).next == j
  {
    RestPlace(b, i, us);
    AtSplit(b, i, UnitText(us[0]), UnitsText(us[1..]));
    UnitLooks(b, i, us[0]);
    if us[0].Hex? {
      HexReads(b, i, us);
    } else if us[0].Short? {
      ShortReads(b, i, us[0]);
    }
    hide At, ParseChar, UnitText, UnitsText, IsHexFour, HexFour;
  }

  /** A string as written reads as the text it denotes. */
  lemma {:induction false} UnitsRead(b: seq<byte>, i: nat, us: seq<Unit>, acc: Text)
    requires At(b, i, UnitsText(us)) && AreUnits(us)
    ensures ParseChars(b, i, acc) == Got(acc + Denoted(us), i + |UnitsText(us)|)
    decreases |us|
  {
    hide At, Head, ParseChar, UnitText;
    if us == [] {
      AtFirst(b, i, [QUOTE]);
      assert acc + [] == acc;
    } else {
      HeadReads(b, i, us);
      RestPlace(b, i, us);
      var (c, rest) := Head(us);
      UnitsRead(b, i + |UnitsText(us)| - |UnitsText(rest)|, rest, acc + [c]);
      assert acc + [c] + Denoted(rest) == acc + Denoted(us);
    }
  }

  // ---- Nothing else is a string ----

  /** The unit at a position where one reads. */
  function UnitAt(b: seq<byte>, i: nat): Unit
    requires i < |b| && ParseChar(b, i).Got?
  {
    if b[i] != BACKSLASH then Raw(ParseChar(b, i).value)
    else if b[i + 1] == LETTER_U then Hex(b[i + 2..i + 6])
    else Short(b[i + 1])
  }

  lemma UnitOnly(b: seq<byte>, i: nat)
    requires i < |b| && b[i] != QUOTE && ParseChar(b, i).Got?
    ensures IsUnit(UnitAt(b, i)) && At(b, i, UnitText(UnitAt(b, i)))
    ensures var u, j := UnitAt(b, i), ParseChar(b, i).next;
            || j == i + |UnitText(u)|
            || (&& u.Hex? && j == i + 12 && b[i + 6] == BACKSLASH && b[i + 7] == LETTER_U
                && ParseHex4(b, i + 8).Got?)
  {
    var u := UnitAt(b, i);
    if b[i] != BACKSLASH {
      RawOnly(b, i);
    } else if b[i + 1] == LETTER_U {
      HexFourOnly(b, i + 2);
      AtIsSlice(b, i, [BACKSLASH, LETTER_U]);
      AtJoin(b, i, [BACKSLASH, LETTER_U], u.digits);
    } else {
      AtIsSlice(b, i, [BACKSLASH, b[i + 1]]);
    }
  }

  lemma RawOnly(b: seq<byte>, i: nat)
    requires i < |b| && b[i] != QUOTE && b[i] != BACKSLASH && ParseChar(b, i).Got?
    ensures var c := ParseChar(b, i).value;
            IsUnit(Raw(c)) && At(b, i, Encode(c)) && ParseChar(b, i).next == i + |Encode(c)|
  {
    var n := LeadLength(b[i]);
    EncodeDecode(b[i..i + n]);
    AtIsSlice(b, i, b[i..i + n]);
    assert b[i..i + n][0] == b[i];
    hide At, Decode;
  }

  /** Whatever reads as a string is one, and reads as the text it denotes. */
  lemma {:induction false} UnitsOnly(b: seq<byte>, i: nat, acc: Text) returns (us: seq<Unit>)
    requires i <= |b| && ParseChars(b, i, acc).Got?
    ensures AreUnits(us) && At(b, i, UnitsText(us))
    ensures ParseChars(b, i, acc) == Got(acc + Denoted(us), i + |UnitsText(us)|)
    decreases |b| - i
  {
    us := UnitsAt(b, i, acc);
    UnitsRead(b, i, us, acc);
  }

  /** Units one by one: a joined pair is two. */
  lemma {:induction false} UnitsAt(b: seq<byte>, i: nat, acc: Text) returns (us: seq<Unit>)
    requires i <= |b| && ParseChars(b, i, acc).Got?
    ensures AreUnits(us) && At(b, i, UnitsText(us))
    decreases |b| - i
  {
    hide At, IsUnit, UnitText, UnitAt, Encode, Decode;
    if b[i] == QUOTE {
      us := [];
      AtIsSlice(b, i, [QUOTE]);
    } else {
      var s := ParseChar(b, i);
      var rest := UnitsAt(b, s.next, acc + [s.value]);
      us := PrependUnits(b, i, rest);
    }
  }

  lemma PrependUnits(b: seq<byte>, i: nat, rest: seq<Unit>) returns (us: seq<Unit>)
    requires i < |b| && b[i] != QUOTE && ParseChar(b, i).Got?
    requires AreUnits(rest) && At(b, ParseChar(b, i).next, UnitsText(rest))
    ensures AreUnits(us) && At(b, i, UnitsText(us))
  {
    hide At, IsUnit, AreUnits, UnitsText, Decode;
    var u := UnitAt(b, i);
    var s := ParseChar(b, i);
    UnitOnly(b, i);
    if s.next == i + |UnitText(u)| {
      us := ConsUnit(b, i, u, rest);
    } else {
      HexFourOnly(b, i + 2);
      HexFourOnly(b, i + 8);
      var v := Hex(b[i + 8..i + 12]);
      LowUnit(b, i + 6);
      var more := ConsUnit(b, i + 6, v, rest);
      us := ConsUnit(b, i, u, more);
    }
  }

  lemma LowUnit(b: seq<byte>, i: nat)
    requires i + 6 <= |b| && b[i] == BACKSLASH && b[i + 1] == LETTER_U && ParseHex4(b, i + 2).Got?
    ensures IsUnit(Hex(b[i + 2..i + 6])) && At(b, i, UnitText(Hex(b[i + 2..i + 6])))
  {
    HexFourOnly(b, i + 2);
    AtIsSlice(b, i, [BACKSLASH, LETTER_U]);
    AtJoin(b, i, [BACKSLASH, LETTER_U], b[i + 2..i + 6]);
  }

  lemma ConsUnit(b: seq<byte>, i: nat, u: Unit, rest: seq<Unit>) returns (us: seq<Unit>)
    requires IsUnit(u) && AreUnits(rest) && At(b, i, UnitText(u)) && At(b, i + |UnitText(u)|, UnitsText(rest))
    ensures AreUnits(us) && At(b, i, UnitsText(us)) && us == [u] + rest
  {
    us := [u] + rest;
    assert us[1..] == rest;
    AtJoin(b, i, UnitText(u), UnitsText(rest));
  }

  // ---- Numbers ----

  /** Nothing at `j` could go on a number. */
  predicate Ends(b: seq<byte>, j: nat) {
    && !DigitAt(b, j)
    && Peek(b, j) != Some(DOT) && Peek(b, j) != Some(0x65) && Peek(b, j) != Some(0x45)
  }

  lemma {:induction false} DigitsRead(b: seq<byte>, i: nat, digits: seq<byte>)
    requires At(b, i, digits) && (digits == [] || AllDigits(digits)) && !DigitAt(b, i + |digits|)
    ensures DigitsEnd(b, i) == i + |digits|
    decreases |digits|
  {
    if digits != [] {
      AtFirst(b, i, digits);
      assert digits == [digits[0]] + digits[1..];
      AtSplit(b, i, [digits[0]], digits[1..]);
      DigitsRead(b, i + 1, digits[1..]);
    }
  }

  lemma ExponentParts(b: seq<byte>, i: nat, x: Exponent)
    requires At(b, i, ExponentText(Some(x))) && |x.digits| > 0
    ensures var j := i + 1 + |ExponentSign(x.sign)|;
            At(b, j, x.digits) && j + |x.digits| == i + |ExponentText(Some(x))|
    ensures i + 1 < |b| && b[i] == x.marker && (x.sign.Some? ==> b[i + 1] == x.sign.value)
    ensures x.sign.None? ==> b[i + 1] == x.digits[0]
  {
    var sign := ExponentSign(x.sign);
    AtSplit(b, i, [x.marker], sign + x.digits);
    AtSplit(b, i + 1, sign, x.digits);
    assert Offset(0);
  }

  lemma ExponentReads(b: seq<byte>, i: nat, x: Exponent)
    requires At(b, i, ExponentText(Some(x))) && WellFormedExponent(x)
    requires !DigitAt(b, i + |ExponentText(Some(x))|)
    ensures ExponentEnd(b, i) == Got((), i + |ExponentText(Some(x))|)
    ensures Peek(b, i) == Some(x.marker)
  {
    var j := i + 1 + |ExponentSign(x.sign)|;
    ExponentParts(b, i, x);
    AtFirst(b, j, x.digits);
    DigitsRead(b, j, x.digits);
  }

  lemma FractionReads(b: seq<byte>, i: nat, f: Option<seq<byte>>)
    requires At(b, i, FractionText(f)) && (f.Some? ==> AllDigits(f.value))
    requires Peek(b, i + |FractionText(f)|) != Some(DOT) && !DigitAt(b, i + |FractionText(f)|)
    ensures FractionEnd(b, i) == Got((), i + |FractionText(f)|)
    ensures !DigitAt(b, i)
  {
    if f.Some? {
      AtSplit(b, i, [DOT], f.value);
      AtFirst(b, i, [DOT]);
      AtFirst(b, i + 1, f.value);
      DigitsRead(b, i + 1, f.value);
    }
  }

  lemma WholeReads(b: seq<byte>, i: nat, whole: seq<byte>)
    requires At(b, i, whole) && AllDigits(whole) && (whole[0] == 0x30 ==> |whole| == 1)
    requires !DigitAt(b, i + |whole|)
    ensures WholeEnd(b, i) == Got((), i + |whole|)
    ensures DigitAt(b, i)
  {
    AtFirst(b, i, whole);
    DigitsRead(b, i, whole);
  }

  lemma NumberParts(b: seq<byte>, i: nat, n: Number)
    requires At(b, i, NumberText(n))
    ensures var h := i + |SignText(n.negative)|;
            var j := h + |n.whole|;
            var k := j + |FractionText(n.fraction)|;
            && At(b, h, n.whole) && At(b, j, FractionText(n.fraction)) && At(b, k, ExponentText(n.exponent))
            && k + |ExponentText(n.exponent)| == i + |NumberText(n)| <= |b|
    ensures n.negative ==> Peek(b, i) == Some(MINUS)
  {
    hide At;
    var sign, fraction, power := SignText(n.negative), FractionText(n.fraction), ExponentText(n.exponent);
    AtSplit(b, i, sign, n.whole + (fraction + power));
    AtSplit(b, i + |sign|, n.whole, fraction + power);
    AtSplit(b, i + |sign| + |n.whole|, fraction, power);
    if n.negative {
      AtFirst(b, i, [MINUS]);
    }
  }

  lemma NumberAssembles(b: seq<byte>, i: nat, h: nat, j: nat, k: nat, m: nat)
    requires i <= h <= |b| && h == (if Peek(b, i) == Some(MINUS) then i + 1 else i)
    requires DigitAt(b, h) && WholeEnd(b, h) == Got((), j) && FractionEnd(b, j) == Got((), k)
    requires ExponentEnd(b, k) == Got((), m)
    ensures NumberEnd(b, i) == Got((), m)
    ensures i < |b| && (b[i] == MINUS || IsDigit(b[i]))
  {
    hide WholeEnd, FractionEnd, ExponentEnd;
  }

  lemma PowerReads(b: seq<byte>, k: nat, e: Option<Exponent>)
    requires e.Some? ==> WellFormedExponent(e.value)
    requires At(b, k, ExponentText(e)) && Ends(b, k + |ExponentText(e)|) && k <= |b|
    ensures ExponentEnd(b, k) == Got((), k + |ExponentText(e)|)
    ensures Peek(b, k) != Some(DOT) && !DigitAt(b, k)
  {
    hide DigitsEnd, AllDigits, At;
    if e.Some? {
      ExponentReads(b, k, e.value);
    }
  }

  lemma PartsRead(b: seq<byte>, i: nat, n: Number, h: nat, j: nat, k: nat, m: nat)
    requires WellFormedNumber(n) && (n.negative ==> Peek(b, i) == Some(MINUS))
    requires h == (if n.negative then i + 1 else i) && j == h + |n.whole| && m == k + |ExponentText(n.exponent)|
    requires k == j + |FractionText(n.fraction)| && m <= |b|
    requires At(b, h, n.whole) && At(b, j, FractionText(n.fraction)) && At(b, k, ExponentText(n.exponent))
    requires Ends(b, m)
    ensures NumberEnd(b, i) == Got((), m)
    ensures i < |b| && (b[i] == MINUS || IsDigit(b[i]))
  {
    hide NumberEnd, WholeEnd, FractionEnd, ExponentEnd, At, AllDigits, FractionText, ExponentText;
    PowerReads(b, k, n.exponent);
    FractionReads(b, j, n.fraction);
    WholeReads(b, h, n.whole);
    NumberAssembles(b, i, h, j, k, m);
  }

  /** The scanner takes a well-formed number whole, whatever stops it. */
  lemma NumberReads(b: seq<byte>, i: nat, n: Number)
    requires WellFormedNumber(n) && At(b, i, NumberText(n)) && Ends(b, i + |NumberText(n)|)
    ensures NumberEnd(b, i) == Got((), i + |NumberText(n)|)
    ensures i < |b| && (b[i] == MINUS || IsDigit(b[i]))
  {
    hide WellFormedNumber, NumberEnd, At, NumberText;
    NumberParts(b, i, n);
    var h := i + |SignText(n.negative)|;
    var j := h + |n.whole|;
    var k := j + |FractionText(n.fraction)|;
    PartsRead(b, i, n, h, j, k, k + |ExponentText(n.exponent)|);
  }

  /** And what it takes is always a well-formed number. */
  lemma NumbersOnly(b: seq<byte>, i: nat) returns (n: Number)
    requires i <= |b| && NumberEnd(b, i).Got?
    ensures WellFormedNumber(n) && b[i..NumberEnd(b, i).next] == NumberText(n)
  {
    hide WellFormedExponent, AllDigits, FractionText, ExponentText;
    var negative := Peek(b, i) == Some(MINUS);
    var h := if negative then i + 1 else i;
    var j := WholeEnd(b, h).next;
    var k := FractionEnd(b, j).next;
    WholeSpan(b, h);
    var fraction := FractionSpan(b, j);
    var exponent := ExponentSpan(b, k);
    n := Number(negative, b[h..j], fraction, exponent);
    assert b[i..h] == SignText(negative);
    Slices(b, i, h, j, k, ExponentEnd(b, k).next);
  }

  lemma Slices(b: seq<byte>, i: nat, h: nat, j: nat, k: nat, m: nat)
    requires i <= h <= j <= k <= m <= |b|
    ensures b[i..m] == b[i..h] + (b[h..j] + (b[j..k] + b[k..m]))
  {
  }

  lemma WholeSpan(b: seq<byte>, h: nat)
    requires h <= |b| && WholeEnd(b, h).Got?
    ensures var whole := b[h..WholeEnd(b, h).next];
            AllDigits(whole) && (whole[0] == 0x30 ==> |whole| == 1)
  {
    if Peek(b, h) != Some(0x30) {
      DigitsSpan(b, h);
    }
  }

  lemma FractionSpan(b: seq<byte>, j: nat) returns (f: Option<seq<byte>>)
    requires j <= |b| && FractionEnd(b, j).Got?
    ensures f.Some? ==> AllDigits(f.value)
    ensures b[j..FractionEnd(b, j).next] == FractionText(f)
  {
    var k := FractionEnd(b, j).next;
    if Peek(b, j) == Some(DOT) {
      DigitsSpan(b, j + 1);
      f := Some(b[j + 1..k]);
      assert b[j..k] == [DOT] + b[j + 1..k];
    } else {
      f := None;
    }
  }

  lemma ExponentSpan(b: seq<byte>, k: nat) returns (e: Option<Exponent>)
    requires k <= |b| && ExponentEnd(b, k).Got?
    ensures e.Some? ==> WellFormedExponent(e.value)
    ensures b[k..ExponentEnd(b, k).next] == ExponentText(e)
  {
    var m := ExponentEnd(b, k).next;
    e := None;
    if Peek(b, k) == Some(0x65) || Peek(b, k) == Some(0x45) {
      var signed := Peek(b, k + 1) == Some(PLUS) || Peek(b, k + 1) == Some(MINUS);
      var d := if signed then k + 2 else k + 1;
      DigitsSpan(b, d);
      e := Some(Exponent(b[k], if signed then Some(b[k + 1]) else None, b[d..m]));
      ExponentSlices(b, k, d, m, e.value);
    }
  }

  lemma ExponentSlices(b: seq<byte>, k: nat, d: nat, m: nat, x: Exponent)
    requires k < d <= m <= |b| && d == (if x.sign.Some? then k + 2 else k + 1)
    requires x.marker == b[k] && x.digits == b[d..m] && (x.sign.Some? ==> x.sign.value == b[k + 1])
    ensures b[k..m] == ExponentText(Some(x))
  {
    assert b[k + 1..d] == ExponentSign(x.sign);
    assert b[k..m] == [b[k]] + (b[k + 1..d] + b[d..m]);
  }

  lemma {:induction false} DigitsSpan(b: seq<byte>, i: nat)
    requires DigitAt(b, i)
    ensures DigitsEnd(b, i) == DigitsEnd(b, i + 1) > i
    ensures AllDigits(b[i..DigitsEnd(b, i)])
    decreases |b| - i
  {
    var s := b[i..DigitsEnd(b, i)];
    if DigitAt(b, i + 1) {
      DigitsSpan(b, i + 1);
      assert s[1..] == b[i + 1..DigitsEnd(b, i)];
    }
  }
}
