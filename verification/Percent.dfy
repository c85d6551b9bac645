/** Percent coding over UTF-8 bytes (`backend/src/http.rs`; section 2.1 of RFC 3986). */
module Percent {
  import opened Bits
  import opened Outcomes
  import opened Utf8

  const PERCENT: byte := 0x25
  const PLUS: byte := 0x2B
  const SPACE: byte := 0x20

  function HexLetter(d: nat): (c: byte)
    requires d < 16
    ensures HexValue(c) == Some(d)
  {
    if d < 10 then 0x30 + d else 0x41 + d - 10
  }

  /** What `encodeURIComponent` leaves alone. */
  predicate IsPlain(c: byte) {
    || 0x41 <= c <= 0x5A || 0x61 <= c <= 0x7A || 0x30 <= c <= 0x39
    || c == 0x2D || c == 0x5F || c == 0x2E || c == 0x21 || c == 0x7E || c == 0x2A || c == 0x27 || c == 0x28 || c == 0x29
  }

  function EncodedByte(c: byte): (s: seq<byte>)
    ensures |s| > 0
  {
    if IsPlain(c) then [c] else [PERCENT, HexLetter(c / 16), HexLetter(c % 16)]
  }

  function Encoded(b: seq<byte>): seq<byte> {
    if b == [] then [] else EncodedByte(b[0]) + Encoded(b[1..])
  }

  /** Two hexadecimal digits after a percent sign, with their value. */
  function Escape(b: seq<byte>): (v: Option<byte>)
    ensures v.Some? ==> |b| >= 3 && b[0] == PERCENT
  {
    if |b| >= 3 && b[0] == PERCENT then
      match (HexValue(b[1]), HexValue(b[2]))
      case (Some(h), Some(l)) => Some(16 * h + l)
      case _ => None
    else None
  }

  function Decoded(b: seq<byte>, plusAsSpace: bool): seq<byte>
    decreases |b|
  {
    if b == [] then []
    else
      match Escape(b)
      case Some(v) => [v] + Decoded(b[3..], plusAsSpace)
      case None => [if b[0] == PLUS && plusAsSpace then SPACE else b[0]] + Decoded(b[1..], plusAsSpace)
  }

  /** `percent_encode_component`. */
  method Encode(b: seq<byte>) returns (out: seq<byte>)
    ensures out == Encoded(b)
  {
    out := [];
    assert b[0..] == b;
    for i := 0 to |b|
      invariant out + Encoded(b[i..]) == Encoded(b)
    {
      assert b[i..][1..] == b[i + 1..];
      assert out + (EncodedByte(b[i]) + Encoded(b[i + 1..])) == out + EncodedByte(b[i]) + Encoded(b[i + 1..]);
      if IsPlain(b[i]) {
        out := out + [b[i]];
      } else {
        out := out + [PERCENT, HexLetter(b[i] / 16), HexLetter(b[i] % 16)];
      }
    }
    assert out + [] == out;
  }

  /** `percent_decode`: the bytes decoded in one pass, then read as text. */
  method Decode(b: seq<byte>, plusAsSpace: bool) returns (text: Text)
    ensures text == Lossy(Decoded(b, plusAsSpace))
  {
    hide Lossy, Decoded;
    var out := DecodeBytes(b, plusAsSpace);
    text := Lossy(out);
  }

  method DecodeBytes(b: seq<byte>, plusAsSpace: bool) returns (out: seq<byte>)
    ensures out == Decoded(b, plusAsSpace)
  {
    assert Decoded([], plusAsSpace) == [];
    hide Decoded;
    out := [];
    var i := 0;
    assert b[0..] == b;
    while i < |b|
      invariant i <= |b|
      invariant out + Decoded(b[i..], plusAsSpace) == Decoded(b, plusAsSpace)
    {
      var c, step := OneByte(b, i, plusAsSpace);
      Regroup(out, [c], Decoded(b[i + step..], plusAsSpace));
      out := out + [c];
      i := i + step;
    }
    assert b[i..] == [] && out + [] == out;
  }

  lemma Regroup(a: seq<byte>, b: seq<byte>, c: seq<byte>)
    ensures a + (b + c) == a + b + c
  {
  }

  method OneByte(b: seq<byte>, i: nat, plusAsSpace: bool) returns (c: byte, step: nat)
    requires i < |b|
    ensures 0 < step <= |b| - i
    ensures Decoded(b[i..], plusAsSpace) == [c] + Decoded(b[i + step..], plusAsSpace)
  {
    assert b[i..][1..] == b[i + 1..];
    if b[i] == PERCENT && i + 2 < |b| {
      assert b[i..][3..] == b[i + 3..];
      match (HexValue(b[i + 1]), HexValue(b[i + 2])) {
        case (Some(h), Some(l)) =>
          return 16 * h + l, 3;
        case _ =>
          return PERCENT, 1;
      }
    }
    if b[i] == PLUS && plusAsSpace {
      return SPACE, 1;
    }
    return b[i], 1;
  }

  /** Letters, digits and nine marks stay; every other byte becomes a percent sign and two digits. */
  lemma EncodesAs(c: byte)
    ensures EncodedByte(c)
         == if || 'A' as int <= c <= 'Z' as int || 'a' as int <= c <= 'z' as int || '0' as int <= c <= '9' as int
               || exists k :: 0 <= k < 9 && c == "-_.!~*'()"[k] as int
            then [c]
            else ['%' as int, "0123456789ABCDEF"[c / 16] as int, "0123456789ABCDEF"[c % 16] as int]
  {
    var marks := "-_.!~*'()";
    assert marks[0] as int == 0x2D && marks[1] as int == 0x5F && marks[2] as int == 0x2E && marks[3] as int == 0x21;
    assert marks[4] as int == 0x7E && marks[5] as int == 0x2A && marks[6] as int == 0x27;
    assert marks[7] as int == 0x28 && marks[8] as int == 0x29;
    HexLetterIs(c / 16);
    HexLetterIs(c % 16);
    hide HexLetter;
  }

  lemma HexLetterIs(d: nat)
    requires d < 16
    ensures HexLetter(d) == "0123456789ABCDEF"[d] as int
  {
    var row := "0123456789ABCDEF";
    assert row[..4] == "0123" && row[4..8] == "4567" && row[8..12] == "89AB" && row[12..] == "CDEF";
  }

  /** An escape decodes to one byte, and any other byte to itself, or a plus sign to a space. */
  lemma DecodesAs(b: seq<byte>, plusAsSpace: bool)
    ensures |b| >= 3 && b[0] == '%' as int && HexValue(b[1]).Some? && HexValue(b[2]).Some? ==>
              Decoded(b, plusAsSpace)
              == [16 * HexValue(b[1]).value + HexValue(b[2]).value] + Decoded(b[3..], plusAsSpace)
    ensures b != [] && !(|b| >= 3 && b[0] == '%' as int && HexValue(b[1]).Some? && HexValue(b[2]).Some?) ==>
              Decoded(b, plusAsSpace)
              == [if b[0] == '+' as int && plusAsSpace then ' ' as int else b[0]] + Decoded(b[1..], plusAsSpace)
    ensures Decoded([], plusAsSpace) == []
  {
  }

  /** Decoding undoes encoding for every byte string, whether or not a plus sign means a space. */
  lemma {:induction false} DecodeEncode(b: seq<byte>, plusAsSpace: bool)
    ensures Decoded(Encoded(b), plusAsSpace) == b
  {
    if b != [] {
      var rest := Encoded(b[1..]);
      DecodeEncode(b[1..], plusAsSpace);
      var s := EncodedByte(b[0]) + rest;
      assert s[|EncodedByte(b[0])|..] == rest;
      assert b == [b[0]] + b[1..];
    }
  }

  /** Every text comes back from its encoding. */
  lemma TextRoundTrip(t: Text, plusAsSpace: bool)
    ensures Lossy(Decoded(Encoded(Bytes(t)), plusAsSpace)) == t
  {
    DecodeEncode(Bytes(t), plusAsSpace);
    FromBytes(t);
    LosslessText(Bytes(t));
  }
}
