/** UTF-8 as `std::str` defines it: Rust's `char` is a Unicode scalar value (RFC 3629, section 3). */
module Utf8 {
  import opened Bits
  import opened Outcomes

  type Scalar = x: int | 0 <= x < 0xD800 || 0xE000 <= x < 0x11_0000

  type Text = seq<Scalar>

  // ---- Characters ----

  /** The `White_Space` property, as `str::trim` uses it. */
  predicate IsWhite(c: Scalar) {
    || 0x09 <= c <= 0x0D || c == 0x20 || c == 0x85 || c == 0xA0 || c == 0x1680 || 0x2000 <= c <= 0x200A
    || c == 0x2028 || c == 0x2029 || c == 0x202F || c == 0x205F || c == 0x3000
  }

  function TrimStart(t: Text): Text {
    if t != [] && IsWhite(t[0]) then TrimStart(t[1..]) else t
  }

  function TrimEnd(t: Text): Text {
    if t != [] && IsWhite(t[|t| - 1]) then TrimEnd(t[..|t| - 1]) else t
  }

  /** The value of a hexadecimal digit in either case. */
  function HexValue(c: int): (v: Option<nat>)
    ensures v.Some? ==> v.value < 16
  {
    if 0x30 <= c <= 0x39 then Some(c - 0x30)
    else if 0x61 <= c <= 0x66 then Some(c - 0x61 + 10)
    else if 0x41 <= c <= 0x46 then Some(c - 0x41 + 10)
    else None
  }

  lemma HexDigitIs(d: nat)
    requires d < 16
    ensures HexDigit(d) == "0123456789abcdef"[d] as int
  {
    var row := "0123456789abcdef";
    assert row[..4] == "0123" && row[4..8] == "4567" && row[8..12] == "89ab" && row[12..] == "cdef";
  }

  /** A hexadecimal digit, in either case, is the place it has in the row of digits. */
  lemma HexValueIs(c: int, d: nat)
    ensures HexValue(c) == Some(d)
       <==> d < 16 && (c == "0123456789abcdef"[d] as int || c == "0123456789ABCDEF"[d] as int)
  {
    var row := "0123456789abcdef";
    assert forall k | 0 <= k < 16 :: row[k] as int == if k < 10 then 0x30 + k else 0x61 + k - 10 by {
      assert row[..4] == "0123" && row[4..8] == "4567" && row[8..12] == "89ab" && row[12..] == "cdef";
    }
    var upper := "0123456789ABCDEF";
    assert forall k | 0 <= k < 16 :: upper[k] as int == if k < 10 then 0x30 + k else 0x41 + k - 10 by {
      assert upper[..4] == "0123" && upper[4..8] == "4567" && upper[8..12] == "89AB" && upper[12..] == "CDEF";
    }
  }

  /** A lower-case hexadecimal digit. */
  function HexDigit(d: int): byte
    requires 0 <= d < 16
  {
    if d < 10 then 0x30 + d else 0x61 + d - 10
  }

  // ---- One scalar ----

  /** `char::encode_utf8`. */
  function Encode(c: Scalar): (s: seq<byte>)
    ensures 1 <= |s| <= 4
  {
    if c < 0x80 then [c]
    else if c < 0x800 then [0xC0 + c / 0x40, 0x80 + c % 0x40]
    else if c < 0x1_0000 then [0xE0 + c / 0x1000, 0x80 + c / 0x40 % 0x40, 0x80 + c % 0x40]
    else [0xF0 + c / 0x4_0000, 0x80 + c / 0x1000 % 0x40, 0x80 + c / 0x40 % 0x40, 0x80 + c % 0x40]
  }

  /** The payload a byte carries once its marker is taken off. */
  function Payload(b: byte, marker: int): int {
    b - marker
  }

  predicate Trailing(b: byte) {
    0x80 <= b < 0xC0
  }

  /** `str::from_utf8` on the bytes of one scalar: shortest forms only, and no surrogates. */
  function Decode(s: seq<byte>): Option<Scalar> {
    if |s| == 1 && s[0] < 0x80 then Some(s[0])
    else if |s| == 2 && 0xC2 <= s[0] < 0xE0 && Trailing(s[1]) then
      Some(Payload(s[0], 0xC0) * 0x40 + Payload(s[1], 0x80))
    else if |s| == 3 && 0xE0 <= s[0] < 0xF0 && Trailing(s[1]) && Trailing(s[2]) then
      var c := Payload(s[0], 0xE0) * 0x1000 + Payload(s[1], 0x80) * 0x40 + Payload(s[2], 0x80);
      if c < 0x800 || 0xD800 <= c < 0xE000 then None else Some(c)
    else if |s| == 4 && 0xF0 <= s[0] < 0xF5 && Trailing(s[1]) && Trailing(s[2]) && Trailing(s[3]) then
      var c := Payload(s[0], 0xF0) * 0x4_0000 + Payload(s[1], 0x80) * 0x1000 + Payload(s[2], 0x80) * 0x40
          + Payload(s[3], 0x80);
      if c < 0x1_0000 || c >= 0x11_0000 then None else Some(c)
    else None
  }

  /** The length a lead byte announces (`utf8_len`); a byte that leads nothing announces four. */
  function LeadLength(lead: byte): (n: nat)
    ensures 1 <= n <= 4
  {
    if lead < 0x80 then 1
    else if 0xC0 <= lead < 0xE0 then 2
    else if 0xE0 <= lead < 0xF0 then 3
    else 4
  }

  lemma DecodeEncode(c: Scalar)
    ensures Decode(Encode(c)) == Some(c)
    ensures LeadLength(Encode(c)[0]) == |Encode(c)|
    ensures c >= 0x80 ==> Encode(c)[0] >= 0x80
  {
    if c < 0x800 {
    } else if c < 0x1_0000 {
      DecodeThree(c);
    } else {
      DecodeFour(c);
    }
    hide Decode;
  }

  lemma DecodeThree(c: Scalar)
    requires 0x800 <= c < 0x1_0000
    ensures Decode(Encode(c)) == Some(c)
  {
    assert c / 0x40 == (c / 0x1000) * 0x40 + c / 0x40 % 0x40;
  }

  lemma DecodeFour(c: Scalar)
    requires 0x1_0000 <= c
    ensures Decode(Encode(c)) == Some(c)
  {
    assert c / 0x40 == (c / 0x1000) * 0x40 + c / 0x40 % 0x40;
    assert c / 0x1000 == (c / 0x4_0000) * 0x40 + c / 0x1000 % 0x40;
  }

  /** Only the encoding of a scalar decodes to it. */
  lemma EncodeDecode(s: seq<byte>)
    requires Decode(s).Some?
    ensures Encode(Decode(s).value) == s
  {
    if |s| == 3 {
      Encode3(s);
    } else if |s| == 4 {
      Encode4(s);
    }
  }

  lemma Encode3(s: seq<byte>)
    requires |s| == 3 && Decode(s).Some?
    ensures Encode(Decode(s).value) == s
  {
    Radix64(Payload(s[0], 0xE0), Payload(s[1], 0x80), Payload(s[2], 0x80));
  }

  lemma Encode4(s: seq<byte>)
    requires |s| == 4 && Decode(s).Some?
    ensures Encode(Decode(s).value) == s
  {
    var hi, mid := Payload(s[0], 0xF0), Payload(s[1], 0x80);
    Radix64(hi * 0x40 + mid, Payload(s[2], 0x80), Payload(s[3], 0x80));
    Radix64(hi, mid, 0);
  }

  lemma Radix64(hi: nat, mid: nat, lo: nat)
    requires mid < 0x40 && lo < 0x40
    ensures var c := hi * 0x1000 + mid * 0x40 + lo;
            c / 0x1000 == hi && c / 0x40 % 0x40 == mid && c % 0x40 == lo && c / 0x40 == hi * 0x40 + mid
  {
    var c := hi * 0x1000 + mid * 0x40 + lo;
    DivModUnique(c, 0x40, hi * 0x40 + mid, lo);
    DivModUnique(hi * 0x40 + mid, 0x40, hi, mid);
    DivModUnique(c, 0x1000, hi, mid * 0x40 + lo);
  }

  // ---- Order ----

  /** The bytes of a text. */
  function Bytes(t: Text): seq<byte> {
    if t == [] then [] else Encode(t[0]) + Bytes(t[1..])
  }

  /** Lexicographic order, as Rust compares strings and byte slices. */
  predicate Precedes(a: seq<int>, b: seq<int>) {
    b != [] && (a == [] || a[0] < b[0] || (a[0] == b[0] && Precedes(a[1..], b[1..])))
  }

  lemma {:induction false} CommonPrefix(p: seq<int>, a: seq<int>, b: seq<int>)
    ensures Precedes(p + a, p + b) <==> Precedes(a, b)
    decreases |p|
  {
    if p == [] {
      assert p + a == a && p + b == b;
    } else {
      assert (p + a)[1..] == p[1..] + a && (p + b)[1..] == p[1..] + b;
      CommonPrefix(p[1..], a, b);
    }
  }

  lemma SmallerFirst(a: seq<int>, b: seq<int>)
    requires a != [] && b != [] && a[0] < b[0]
    ensures Precedes(a, b)
  {
  }

  lemma Lengths(c: Scalar, d: Scalar)
    requires c < d
    ensures |Encode(c)| <= |Encode(d)|
    ensures |Encode(c)| < |Encode(d)| ==> Encode(c)[0] < Encode(d)[0]
  {
  }

  /** `k` low digits base 64, under a lead that carries the rest. */
  function Digits64(c: nat, k: nat, marker: nat): (s: seq<int>)
    ensures |s| == k + 1
  {
    if k == 0 then [marker + c] else Digits64(c / 0x40, k - 1, marker) + [0x80 + c % 0x40]
  }

  function Marker(n: nat): nat {
    if n <= 1 then 0 else if n == 2 then 0xC0 else if n == 3 then 0xE0 else 0xF0
  }

  lemma DigitsOf(c: Scalar)
    ensures Encode(c) == Digits64(c, |Encode(c)| - 1, Marker(|Encode(c)|))
  {
    assert c / 0x1000 == c / 0x40 / 0x40 && c / 0x4_0000 == c / 0x40 / 0x40 / 0x40;
    var n := |Encode(c)|;
    TwoDigits(c / 0x40, Marker(n));
    if n == 4 {
      TwoDigits(c / 0x40 / 0x40, Marker(n));
      assert Digits64(c / 0x40, 2, Marker(n)) == Digits64(c / 0x40 / 0x40, 1, Marker(n)) + [0x80 + c / 0x40 % 0x40];
    }
  }

  lemma TwoDigits(c: nat, marker: nat)
    ensures Digits64(c, 1, marker) == [marker + c / 0x40, 0x80 + c % 0x40]
  {
  }

  lemma {:induction false} FirstDigit(c: nat, d: nat, k: nat, marker: nat) returns (i: nat)
    requires c < d
    ensures i <= k && Digits64(c, k, marker)[..i] == Digits64(d, k, marker)[..i]
    ensures Digits64(c, k, marker)[i] < Digits64(d, k, marker)[i]
  {
    i := k;
    if k > 0 && c / 0x40 < d / 0x40 {
      var s, t := Digits64(c / 0x40, k - 1, marker), Digits64(d / 0x40, k - 1, marker);
      i := FirstDigit(c / 0x40, d / 0x40, k - 1, marker);
      assert Digits64(c, k, marker)[..i] == s[..i] && Digits64(d, k, marker)[..i] == t[..i];
    }
  }

  /** The first byte at which two encodings differ orders the scalars. */
  lemma FirstDifference(c: Scalar, d: Scalar) returns (k: nat)
    requires c < d
    ensures k < |Encode(c)| && k < |Encode(d)|
    ensures Encode(c)[..k] == Encode(d)[..k] && Encode(c)[k] < Encode(d)[k]
  {
    Lengths(c, d);
    DigitsOf(c);
    DigitsOf(d);
    hide Encode, Digits64;
    k := 0;
    if |Encode(c)| == |Encode(d)| {
      k := FirstDigit(c, d, |Encode(c)| - 1, Marker(|Encode(c)|));
    }
  }

  lemma EncodeOrder(c: Scalar, d: Scalar, x: seq<byte>, y: seq<byte>)
    requires c < d
    ensures Precedes(Encode(c) + x, Encode(d) + y)
  {
    var k := FirstDifference(c, d);
    hide Encode;
    var s, t := Encode(c), Encode(d);
    var p := s[..k];
    assert s + x == p + (s[k..] + x) && t + y == p + (t[k..] + y);
    SmallerFirst(s[k..] + x, t[k..] + y);
    CommonPrefix(p, s[k..] + x, t[k..] + y);
  }

  lemma {:induction false} EarlierText(a: Text, b: Text)
    requires Precedes(a, b)
    ensures Precedes(Bytes(a), Bytes(b))
    decreases |a|
  {
    hide Encode;
    if a == [] {
    } else if a[0] < b[0] {
      EncodeOrder(a[0], b[0], Bytes(a[1..]), Bytes(b[1..]));
    } else {
      EarlierText(a[1..], b[1..]);
      CommonPrefix(Encode(a[0]), Bytes(a[1..]), Bytes(b[1..]));
    }
  }

  lemma {:induction false} OrderIsStrict(a: seq<int>, b: seq<int>)
    requires Precedes(a, b)
    ensures a != b && !Precedes(b, a)
    decreases |a|
  {
    if a != [] && a[0] == b[0] {
      OrderIsStrict(a[1..], b[1..]);
    }
  }

  lemma {:induction false} OrderIsTotal(a: seq<int>, b: seq<int>)
    requires a != b
    ensures Precedes(a, b) || Precedes(b, a)
    decreases |a|
  {
    if a != [] && b != [] && a[0] == b[0] {
      assert a == [a[0]] + a[1..] && b == [b[0]] + b[1..];
      OrderIsTotal(a[1..], b[1..]);
    }
  }

  lemma {:induction false} OrderIsTransitive(a: seq<int>, b: seq<int>, c: seq<int>)
    requires Precedes(a, b) && Precedes(b, c)
    ensures Precedes(a, c)
    decreases |a|
  {
    if a != [] && a[0] == b[0] && b[0] == c[0] {
      OrderIsTransitive(a[1..], b[1..], c[1..]);
    }
  }

  /** Comparing texts by their bytes is comparing them by their scalars, and distinct texts have distinct bytes. */
  lemma ByteOrderIsScalarOrder(a: Text, b: Text)
    ensures Precedes(Bytes(a), Bytes(b)) <==> Precedes(a, b)
    ensures Bytes(a) == Bytes(b) <==> a == b
  {
    hide Encode, Bytes, Precedes;
    if a != b {
      OrderIsTotal(a, b);
      if Precedes(a, b) {
        EarlierText(a, b);
        OrderIsStrict(a, b);
        OrderIsStrict(Bytes(a), Bytes(b));
      } else {
        EarlierText(b, a);
        OrderIsStrict(b, a);
        OrderIsStrict(Bytes(b), Bytes(a));
      }
    } else if Precedes(a, a) {
      OrderIsStrict(a, a);
    } else if Precedes(Bytes(a), Bytes(a)) {
      OrderIsStrict(Bytes(a), Bytes(a));
    }
  }

  // ---- Bytes as text ----

  /** `str::from_utf8`. */
  function FromUtf8(s: seq<byte>): Option<Text>
    decreases |s|
  {
    if s == [] then Some([])
    else
      var n := LeadLength(s[0]);
      if n > |s| then None
      else
        match (Decode(s[..n]), FromUtf8(s[n..]))
        case (Some(c), Some(t)) => Some([c] + t)
        case _ => None
  }

  lemma {:induction false} FromBytes(t: Text)
    ensures FromUtf8(Bytes(t)) == Some(t)
  {
    hide Encode, Decode;
    if t != [] {
      var s := Encode(t[0]);
      DecodeEncode(t[0]);
      FromBytes(t[1..]);
      assert Bytes(t)[..|s|] == s && Bytes(t)[|s|..] == Bytes(t[1..]) && Bytes(t)[0] == s[0];
      assert [t[0]] + t[1..] == t;
    }
  }

  lemma {:induction false} BytesFrom(s: seq<byte>)
    requires FromUtf8(s).Some?
    ensures Bytes(FromUtf8(s).value) == s
    decreases |s|
  {
    hide Encode, Decode;
    if s != [] {
      var n := LeadLength(s[0]);
      EncodeDecode(s[..n]);
      BytesFrom(s[n..]);
      assert FromUtf8(s).value[1..] == FromUtf8(s[n..]).value;
      assert s == s[..n] + s[n..];
    }
  }

  /** Whether `b` may follow the lead byte of a scalar that is more than one byte long. */
  predicate MayFollow(lead: byte, b: byte) {
    && 0xC2 <= lead < 0xF5 && Trailing(b)
    && (lead == 0xE0 ==> b >= 0xA0) && (lead == 0xED ==> b < 0xA0)
    && (lead == 0xF0 ==> b >= 0x90) && (lead == 0xF4 ==> b < 0x90)
  }

  /** How many bytes `from_utf8_lossy` replaces at once: one, or as many as still begin a scalar. */
  function BrokenLength(s: seq<byte>): (n: nat)
    requires s != []
    ensures 1 <= n <= |s|
  {
    if |s| == 1 || !MayFollow(s[0], s[1]) then 1
    else if |s| == 2 || !Trailing(s[2]) || s[0] < 0xF0 then 2
    else 3
  }

  /** Some scalar's encoding starts like this. */
  ghost predicate Begins(p: seq<byte>) {
    exists c: Scalar :: p <= Encode(c)
  }

  lemma SecondFollows(c: Scalar)
    requires |Encode(c)| > 1
    ensures MayFollow(Encode(c)[0], Encode(c)[1])
    ensures |Encode(c)| > 2 ==> Trailing(Encode(c)[2]) && Encode(c)[0] >= 0xE0
    ensures |Encode(c)| > 3 ==> Encode(c)[0] >= 0xF0
  {
    DecodeEncode(c);
  }

  /** What begins with a lead and a byte that may follow it. */
  lemma TwoBegin(lead: byte, b: byte)
    requires MayFollow(lead, b) && lead >= 0xE0
    ensures Begins([lead, b])
    ensures lead >= 0xF0 ==> forall t: byte | Trailing(t) :: Begins([lead, b, t])
  {
    if lead < 0xF0 {
      var c := (lead - 0xE0) * 0x1000 + (b - 0x80) * 0x40;
      Radix64(lead - 0xE0, b - 0x80, 0);
      assert [lead, b] <= Encode(c);
    } else {
      forall t: byte | Trailing(t)
        ensures Begins([lead, b, t])
      {
        FourBegin(lead, b, t);
      }
      FourBegin(lead, b, 0x80);
      var c: Scalar :| [lead, b, 0x80] <= Encode(c);
      assert [lead, b] <= [lead, b, 0x80];
    }
  }

  lemma FourBegin(lead: byte, b: byte, t: byte)
    requires MayFollow(lead, b) && lead >= 0xF0 && Trailing(t)
    ensures Begins([lead, b, t])
  {
    var hi, mid, lo := lead - 0xF0, b - 0x80, t - 0x80;
    var c := (hi * 0x40 + mid) * 0x1000 + lo * 0x40;
    Radix64(hi * 0x40 + mid, lo, 0);
    Radix64(hi, mid, 0);
    Radix64(hi, mid, lo);
    DivModUnique(c, 0x4_0000, hi, mid * 0x1000 + lo * 0x40);
    assert Encode(c)[..3] == [lead, b, t];
  }

  lemma WholePrefix(p: seq<byte>, e: seq<byte>)
    requires p <= e
    ensures |p| == |e| ==> p == e
  {
  }

  lemma BeginsMeans(p: seq<byte>)
    requires p != [] && Begins(p) && Decode(p).None?
    ensures |p| < 4 && (|p| >= 2 ==> MayFollow(p[0], p[1])) && (|p| == 3 ==> Trailing(p[2]) && p[0] >= 0xF0)
  {
    var c: Scalar :| p <= Encode(c);
    DecodeEncode(c);
    var e := Encode(c);
    WholePrefix(p, e);
    if |e| > 1 {
      SecondFollows(c);
    }
    hide Decode, Encode, Begins;
  }

  /**
   Where no scalar stands, what is replaced at once is the longest start of a scalar that does, or one
   byte if none does.
   */
  lemma BrokenIs(s: seq<byte>)
    requires s != [] && forall n | 0 < n <= |s| :: Decode(s[..n]).None?
    ensures BrokenLength(s) > 1 ==> Begins(s[..BrokenLength(s)])
    ensures forall m | BrokenLength(s) < m <= |s| :: !Begins(s[..m])
  {
    var n := BrokenLength(s);
    if n > 1 {
      WholeIfShort(s[..2]);
      TwoBegin(s[0], s[1]);
      assert n == 2 ==> s[..2] == [s[0], s[1]];
      assert n == 3 ==> s[..3] == [s[0], s[1], s[2]];
    }
    forall m | n < m <= |s|
      ensures !Begins(s[..m])
    {
      if Begins(s[..m]) {
        BeginsMeans(s[..m]);
        assert false;
      }
    }
    hide Decode, Encode, Begins;
  }

  lemma WholeIfShort(p: seq<byte>)
    requires |p| == 2 && MayFollow(p[0], p[1])
    ensures p[0] < 0xE0 ==> Decode(p).Some?
  {
  }

  /** `String::from_utf8_lossy`. */
  function Lossy(s: seq<byte>): Text
    decreases |s|
  {
    if s == [] then []
    else
      var n := LeadLength(s[0]);
      if n <= |s| && Decode(s[..n]).Some? then [Decode(s[..n]).value] + Lossy(s[n..])
      else [0xFFFD] + Lossy(s[BrokenLength(s)..])
  }

  /** Nothing is lost of what is UTF-8. */
  lemma {:induction false} LosslessText(s: seq<byte>)
    requires FromUtf8(s).Some?
    ensures Lossy(s) == FromUtf8(s).value
    decreases |s|
  {
    hide Decode;
    if s != [] {
      LosslessText(s[LeadLength(s[0])..]);
    }
  }
}
