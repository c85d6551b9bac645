/** bcrypt's base64 (`backend/src/kdf.rs`): its own alphabet, no padding, a byte count on both sides. */
module Bcrypt64 {
  import Bits
  import opened Outcomes
  import opened Base64

  /** `b64_val` of the bcrypt module. */
  function BcryptVal(c: char): Option<Sextet> {
    if c == '.' then Some(0)
    else if c == '/' then Some(1)
    else if 'A' <= c <= 'Z' then Some((c as int - 'A' as int + 2) as bv6)
    else if 'a' <= c <= 'z' then Some((c as int - 'a' as int + 28) as bv6)
    else if '0' <= c <= '9' then Some((c as int - '0' as int + 54) as bv6)
    else None
  }

  lemma BcryptLetterValue(v: Sextet)
    ensures BcryptVal(BCRYPT[v as int]) == Some(v)
  {
    SameSextet(v);
    if v as int >= 2 {
      BcryptLetterIndex(v as int);
    } else {
      assert v == 0 || v == 1;
    }
  }

  lemma BcryptLetterIndex(i: nat)
    requires 2 <= i < 64
    ensures BcryptVal(BCRYPT[i]) == Some(i as bv6)
  {
    IndexConcat("./", UPPER, LOWER, DIGITS, i);
    if i < 28 {
      LetterRange(UPPER, 'A', i - 2);
    } else if i < 54 {
      LetterRange(LOWER, 'a', i - 28);
    } else {
      LetterRange(DIGITS, '0', i - 54);
    }
    BcryptValOfOffset(BCRYPT[i], i);
  }

  lemma BcryptValOfOffset(c: char, i: nat)
    requires 2 <= i < 64
    requires c as int == if i < 28 then 'A' as int + i - 2
                         else if i < 54 then 'a' as int + i - 28
                         else '0' as int + i - 54
    ensures BcryptVal(c) == Some(i as bv6)
  {
    if i < 28 {
      assert 'A' <= c <= 'Z';
      assert c as int - 'A' as int + 2 == i;
    } else if i < 54 {
      assert 'a' <= c <= 'z';
      assert c as int - 'a' as int + 28 == i;
    } else {
      assert '0' <= c <= '9';
      assert c as int - '0' as int + 54 == i;
    }
  }

  // ---- Encoding ----

  /** `B64_CODE[(v & 0x3f) as usize]`. */
  method Code(code: string, v: bv32, ghost s: Sextet) returns (letter: string)
    requires |code| == 64 && (v & 0x3f) as bv6 == s
    ensures letter == [code[s as int]]
  {
    letter := [code[((v & 0x3f) as bv6) as int]];
  }

  /** The words the encoder masks and shifts hold the sextets. */
  lemma CodeFields(c1: bv8, c2: bv8, c3: bv8)
    ensures (((c1 as bv32 >> 2) & 0x3f) & 0x3f) as bv6 == S0(c1)
    ensures (((c1 as bv32 & 0x03) << 4) & 0x3f) as bv6 == S1(c1, 0)
    ensures ((((c1 as bv32 & 0x03) << 4) | ((c2 as bv32 >> 4) & 0x0f)) & 0x3f) as bv6 == S1(c1, c2)
    ensures (((c2 as bv32 & 0x0f) << 2) & 0x3f) as bv6 == S2(c2, 0)
    ensures ((((c2 as bv32 & 0x0f) << 2) | ((c3 as bv32 >> 6) & 0x03)) & 0x3f) as bv6 == S2(c2, c3)
    ensures (c3 as bv32 & 0x3f) as bv6 == S3(c3)
  {
  }

  /** `b64_encode`: up to `len` bytes; the caller hands in at least that many. */
  method BcryptEncode(b: seq<bv8>, len: nat) returns (out: string)
    requires len <= |b|
    ensures out == Letters(Sextets(b[..len]), BCRYPT)
  {
    out := EncodeLoop(b, len, BCRYPT);
  }

  method EncodeLoop(b: seq<bv8>, len: nat, code: string) returns (out: string)
    requires len <= |b| && |code| == 64
    ensures out == Letters(Sextets(b[..len]), code)
  {
    out := "";
    var off := 0;
    while off < len
      invariant off <= len && (off % 3 == 0 || off == len)
      invariant out == Letters(Sextets(b[..off]), code)
    {
      var group := EncodeGroup(b, off, len, code);
      GroupLetters(b, off, Bits.Min(off + 3, len), code);
      out := out + group;
      off := Bits.Min(off + 3, len);
    }
  }

  /** The loop body; each `return` is one of its two `break`s or its end. */
  method EncodeGroup(b: seq<bv8>, start: nat, len: nat, code: string) returns (out: string)
    requires start < len <= |b| && |code| == 64
    ensures out == Letters(Sextets(b[start..Bits.Min(start + 3, len)]), code)
  {
    hide S0, S1, S2, S3, Letters;
    var off := start;
    ghost var g := b[start..Bits.Min(start + 3, len)];
    var c1 := b[off] as bv32;
    off := off + 1;
    CodeFields(g[0], if |g| > 1 then g[1] else 0, if |g| > 2 then g[2] else 0);
    var l0 := Code(code, (c1 >> 2) & 0x3f, S0(g[0]));
    c1 := (c1 & 0x03) << 4;
    if off >= len {
      var l1 := Code(code, c1, S1(g[0], 0));
      assert g == [g[0]];
      ShortLetters(S0(g[0]), S1(g[0], 0), 0, 0, code);
      return l0 + l1;
    }
    var c2 := b[off] as bv32;
    off := off + 1;
    var l1 := Code(code, c1 | ((c2 >> 4) & 0x0f), S1(g[0], g[1]));
    c1 := (c2 & 0x0f) << 2;
    if off >= len {
      var l2 := Code(code, c1, S2(g[1], 0));
      assert g == [g[0], g[1]];
      ShortLetters(S0(g[0]), S1(g[0], g[1]), S2(g[1], 0), 0, code);
      return l0 + l1 + l2;
    }
    var c3 := b[off] as bv32;
    var l2 := Code(code, c1 | ((c3 >> 6) & 0x03), S2(g[1], g[2]));
    var l3 := Code(code, c3, S3(g[2]));
    assert g == [g[0], g[1], g[2]] && g[3..] == [];
    assert Sextets(g) == [S0(g[0]), S1(g[0], g[1]), S2(g[1], g[2]), S3(g[2])];
    ShortLetters(S0(g[0]), S1(g[0], g[1]), S2(g[1], g[2]), S3(g[2]), code);
    return l0 + l1 + l2 + l3;
  }

  lemma ShortLetters(v0: Sextet, v1: Sextet, v2: Sextet, v3: Sextet, code: string)
    requires |code| == 64
    ensures Letters([v0, v1], code) == [code[v0 as int]] + [code[v1 as int]]
    ensures Letters([v0, v1, v2], code) == [code[v0 as int]] + [code[v1 as int]] + [code[v2 as int]]
    ensures Letters([v0, v1, v2, v3], code)
         == [code[v0 as int]] + [code[v1 as int]] + [code[v2 as int]] + [code[v3 as int]]
  {
  }

  lemma GroupLetters(b: seq<bv8>, start: nat, off: nat, code: string)
    requires start < off <= start + 3 && off <= |b| && start % 3 == 0 && |code| == 64
    ensures Letters(Sextets(b[..off]), code)
         == Letters(Sextets(b[..start]), code) + Letters(Sextets(b[start..off]), code)
  {
    assert b[..off] == b[..start] + b[start..off];
    SextetsAppend(b[..start], b[start..off]);
    LettersAppend(Sextets(b[..start]), Sextets(b[start..off]), code);
  }

  // ---- Decoding ----

  /** What `b64_decode` answers: it stops at `len` bytes or when the text runs out. */
  function BcryptDecoded(s: string, len: nat): Option<seq<bv8>>
    decreases |s|
  {
    if |s| < 2 || len == 0 then Some([])
    else if BcryptVal(s[0]).None? || BcryptVal(s[1]).None? then None
    else
      var c1, c2 := BcryptVal(s[0]).value, BcryptVal(s[1]).value;
      if len == 1 || |s| == 2 then Some([B0(c1, c2)])
      else if BcryptVal(s[2]).None? then None
      else
        var c3 := BcryptVal(s[2]).value;
        if len == 2 || |s| == 3 then Some([B0(c1, c2), B1(c2, c3)])
        else if BcryptVal(s[3]).None? then None
        else
          var c4 := BcryptVal(s[3]).value;
          Prepended([B0(c1, c2), B1(c2, c3), B2(c3, c4)], BcryptDecoded(s[4..], len - 3))
  }

  /** `out` so far, then the decoding of the rest of the text. */
  function Prepended(out: seq<bv8>, rest: Option<seq<bv8>>): Option<seq<bv8>> {
    match rest
    case None => None
    case Some(r) => Some(out + r)
  }

  method Byte0(v1: Sextet, v2: Sextet) returns (b: bv8)
    ensures b == B0(v1, v2)
  {
    var c1, c2 := v1 as bv32, v2 as bv32;
    b := (((c1 << 2) | ((c2 & 0x30) >> 4)) & 0xff) as bv8;
  }

  method Byte1(v2: Sextet, v3: Sextet) returns (b: bv8)
    ensures b == B1(v2, v3)
  {
    var c2, c3 := v2 as bv32, v3 as bv32;
    b := ((((c2 & 0x0f) << 4) | ((c3 & 0x3c) >> 2)) & 0xff) as bv8;
  }

  method Byte2(v3: Sextet, v4: Sextet) returns (b: bv8)
    ensures b == B2(v3, v4)
  {
    var c3, c4 := v3 as bv32, v4 as bv32;
    b := ((((c3 & 0x03) << 6) | c4) & 0xff) as bv8;
  }

  /** `b64_decode`. */
  method BcryptDecode(s: string, len: nat) returns (res: Option<seq<bv8>>)
    ensures res == BcryptDecoded(s, len)
  {
    hide BcryptVal;
    var out := [];
    var off := 0;
    assert s[0..] == s;
    PrependNothing(BcryptDecoded(s, len));
    while off + 1 < |s| && |out| < len
      invariant off <= |s| && |out| <= len
      invariant BcryptDecoded(s, len) == Prepended(out, BcryptDecoded(s[off..], len - |out|))
      decreases |s| - off
    {
      var group, more := DecodeQuad(s[off..], len - |out|);
      if group.None? {
        return None;
      }
      if !more {
        return Some(out + group.value);
      }
      PrependTwice(out, group.value, BcryptDecoded(s[off..][4..], len - |out| - |group.value|));
      out := out + group.value;
      assert s[off..][4..] == s[off + 4..];
      off := off + 4;
    }
    assert BcryptDecoded(s[off..], len - |out|) == Some([]);
    res := Some(out);
    assert out + [] == out;
  }

  lemma PrependNothing(rest: Option<seq<bv8>>)
    ensures Prepended([], rest) == rest
  {
    if rest.Some? {
      assert [] + rest.value == rest.value;
    }
  }

  lemma PrependTwice(out: seq<bv8>, bytes: seq<bv8>, rest: Option<seq<bv8>>)
    ensures Prepended(out, Prepended(bytes, rest)) == Prepended(out + bytes, rest)
  {
    if rest.Some? {
      assert out + (bytes + rest.value) == out + bytes + rest.value;
    }
  }

  /** A letter is bad, among as many as are looked at. */
  lemma BadLetter(s: string, len: nat, k: nat)
    requires len >= 1 && k < |s| && k < 4 && (k > 0 ==> k <= len) && |s| >= 2
    requires BcryptVal(s[k]).None?
    ensures BcryptDecoded(s, len) == None
  {
    hide BcryptVal, B0, B1, B2;
  }

  /** The text or the limit ends after one byte, after two, or not before the third. */
  lemma QuadEnds(s: string, len: nat, vs: seq<Sextet>)
    requires 2 <= |vs| <= |s| && |vs| <= 4 && forall i | 0 <= i < |vs| :: BcryptVal(s[i]) == Some(vs[i])
    ensures len == 1 || (len > 1 && |s| == 2) ==> BcryptDecoded(s, len) == Some([B0(vs[0], vs[1])])
    ensures |vs| >= 3 && (len == 2 || (len > 2 && |s| == 3)) ==>
      BcryptDecoded(s, len) == Some([B0(vs[0], vs[1]), B1(vs[1], vs[2])])
    ensures |vs| == 4 && len >= 3 ==>
      BcryptDecoded(s, len)
      == Prepended([B0(vs[0], vs[1]), B1(vs[1], vs[2]), B2(vs[2], vs[3])], BcryptDecoded(s[4..], len - 3))
  {
    hide BcryptVal, B0, B1, B2;
  }

  /** The loop body on the text that is left; `more` is false where it breaks. */
  method DecodeQuad(s: string, len: nat) returns (group: Option<seq<bv8>>, more: bool)
    requires |s| >= 2 && len >= 1
    ensures group.None? ==> BcryptDecoded(s, len) == None
    ensures group.Some? ==> |group.value| <= len
    ensures group.Some? && !more ==> BcryptDecoded(s, len) == group
    ensures group.Some? && more ==>
      |s| >= 4 && BcryptDecoded(s, len) == Prepended(group.value, BcryptDecoded(s[4..], len - |group.value|))
  {
    hide BcryptVal, B0, B1, B2, BcryptDecoded, Prepended;
    var v1, v2 := BcryptVal(s[0]), BcryptVal(s[1]);
    if v1.None? || v2.None? {
      BadLetter(s, len, if v1.None? then 0 else 1);
      return None, false;
    }
    var b0 := Byte0(v1.value, v2.value);
    if 1 >= len || 2 >= |s| {
      QuadEnds(s, len, [v1.value, v2.value]);
      return Some([b0]), false;
    }
    var v3 := BcryptVal(s[2]);
    if v3.None? {
      BadLetter(s, len, 2);
      return None, false;
    }
    var b1 := Byte1(v2.value, v3.value);
    if 2 >= len || 3 >= |s| {
      QuadEnds(s, len, [v1.value, v2.value, v3.value]);
      return Some([b0, b1]), false;
    }
    var v4 := BcryptVal(s[3]);
    if v4.None? {
      BadLetter(s, len, 3);
      return None, false;
    }
    var b2 := Byte2(v3.value, v4.value);
    QuadEnds(s, len, [v1.value, v2.value, v3.value, v4.value]);
    return Some([b0, b1, b2]), true;
  }

  /** The first `k` bytes that the sextets of a text carry. */
  function FirstBytes(vs: seq<Sextet>, k: nat): seq<bv8>
    decreases |vs|
  {
    if |vs| < 2 || k == 0 then []
    else if k == 1 || |vs| == 2 then [B0(vs[0], vs[1])]
    else if k == 2 || |vs| == 3 then [B0(vs[0], vs[1]), B1(vs[1], vs[2])]
    else [B0(vs[0], vs[1]), B1(vs[1], vs[2]), B2(vs[2], vs[3])] + FirstBytes(vs[4..], k - 3)
  }

  lemma {:induction false} DecodedValues(s: string, vs: seq<Sextet>, k: nat)
    requires |s| == |vs| && forall i | 0 <= i < |s| :: BcryptVal(s[i]) == Some(vs[i])
    ensures BcryptDecoded(s, k) == Some(FirstBytes(vs, k))
    decreases |s|
  {
    if |s| >= 4 && k >= 3 {
      DecodedValues(s[4..], vs[4..], k - 3);
    }
  }

  lemma {:induction false} FirstBytesOfSextets(bytes: seq<bv8>, k: nat)
    requires k <= |bytes|
    ensures FirstBytes(Sextets(bytes), k) == bytes[..k]
    decreases |bytes|
  {
    if |bytes| == 1 {
      BytesBack(bytes[0], 0, 0);
    } else if |bytes| == 2 {
      BytesBack(bytes[0], bytes[1], 0);
    } else if |bytes| >= 3 {
      var vs := Sextets(bytes);
      BytesBack(bytes[0], bytes[1], bytes[2]);
      assert vs[4..] == Sextets(bytes[3..]);
      if k >= 3 {
        FirstBytesOfSextets(bytes[3..], k - 3);
        assert bytes[..k] == [bytes[0], bytes[1], bytes[2]] + bytes[3..][..k - 3];
      }
    }
  }

  /** More letters than `k` bytes need change nothing; fewer give all they have. */
  lemma {:induction false} FirstBytesAtMost(bytes: seq<bv8>, k: nat)
    requires k > |bytes|
    ensures FirstBytes(Sextets(bytes), k) == bytes
    decreases |bytes|
  {
    if |bytes| <= 2 {
      FirstBytesOfSextets(bytes, |bytes|);
      assert bytes[..|bytes|] == bytes;
    } else {
      var vs := Sextets(bytes);
      BytesBack(bytes[0], bytes[1], bytes[2]);
      assert vs[4..] == Sextets(bytes[3..]);
      FirstBytesAtMost(bytes[3..], k - 3);
      assert bytes == [bytes[0], bytes[1], bytes[2]] + bytes[3..];
    }
  }

  /** At every length, the first `k` bytes of an encoding decode to the first `k` bytes encoded, or to all. */
  lemma BcryptRoundTrip(bytes: seq<bv8>, k: nat)
    ensures BcryptDecoded(Letters(Sextets(bytes), BCRYPT), k) == Some(bytes[..Bits.Min(k, |bytes|)])
  {
    var vs := Sextets(bytes);
    forall i | 0 <= i < |vs|
      ensures BcryptVal(Letters(vs, BCRYPT)[i]) == Some(vs[i])
    {
      BcryptLetterValue(vs[i]);
    }
    DecodedValues(Letters(vs, BCRYPT), vs, k);
    if k <= |bytes| {
      FirstBytesOfSextets(bytes, k);
    } else {
      FirstBytesAtMost(bytes, k);
      assert bytes[..|bytes|] == bytes;
    }
  }

  // ---- Decoding, by the letters ----

  /** How many letters are looked at: as many as carry `len` bytes, and never a lone last one. */
  function Looked(size: nat, len: nat): (n: nat)
    ensures n <= size && n % 4 != 1
  {
    Bits.Min((4 * len + 2) / 3, if size % 4 == 1 then size - 1 else size)
  }

  /** Those letters are in the alphabet, and the bytes are the whole eights of their bits. */
  ghost predicate IsBcrypt(s: string, len: nat, bytes: seq<bv8>) {
    exists vs: seq<Sextet> ::
      && |vs| == Looked(|s|, len) && (forall i | 0 <= i < |vs| :: s[i] == BCRYPT[vs[i] as int])
      && AreEights(bytes, vs)
  }

  predicate AllBcrypt(s: string) {
    forall i | 0 <= i < |s| :: BcryptVal(s[i]).Some?
  }

  function BcryptValues(s: string): (vs: seq<Sextet>)
    requires AllBcrypt(s)
    ensures |vs| == |s|
  {
    seq(|s|, i requires 0 <= i < |s| => BcryptVal(s[i]).value)
  }

  lemma LookedAgain(size: nat, len: nat)
    requires size >= 4 && len >= 3
    ensures Looked(size, len) == 4 + Looked(size - 4, len - 3)
  {
  }

  /** What the letters looked at decode to. */
  function ByLetters(t: string): Option<seq<bv8>> {
    if AllBcrypt(t) then Some(BytesOf(BcryptValues(t))) else None
  }

  lemma {:induction false} DecodedByLetters(s: string, len: nat)
    ensures BcryptDecoded(s, len) == ByLetters(s[..Looked(|s|, len)])
    decreases |s|
  {
    hide BcryptDecoded, ByLetters;
    if |s| >= 4 && len >= 3 {
      LookedAgain(|s|, len);
      DecodedByLetters(s[4..], len - 3);
      FourMore(s, len, Looked(|s| - 4, len - 3));
      hide Looked;
    } else {
      ShortDecodes(s, len);
    }
  }

  lemma FourMore(s: string, len: nat, n: nat)
    requires |s| >= 4 && len >= 3 && n <= |s| - 4
    requires BcryptDecoded(s[4..], len - 3) == ByLetters(s[4..][..n])
    ensures BcryptDecoded(s, len) == ByLetters(s[..4 + n])
  {
    hide BcryptDecoded, BytesOf, AllBcrypt, BcryptValues, GroupBytes;
    var head, tail := s[..4], s[4..][..n];
    assert s[..4 + n] == head + tail;
    if AllBcrypt(head) {
      HeadDecodes(s, len);
      ValuesOfMore(head, tail);
      if AllBcrypt(tail) {
        BytesOfCons(BcryptValues(head), BcryptValues(tail));
      }
    } else {
      BadHead(s, len);
      SomeBad(head, tail);
    }
  }

  lemma LookedShort(size: nat, len: nat)
    requires size < 4 || len < 3
    ensures Looked(size, len) == if size < 2 || len == 0 then 0 else if len == 1 || size == 2 then 2 else 3
  {
  }

  lemma ShortDecodes(s: string, len: nat)
    requires |s| < 4 || len < 3
    ensures BcryptDecoded(s, len) == ByLetters(s[..Looked(|s|, len)])
  {
    hide BcryptVal, B0, B1, B2, Looked;
    LookedShort(|s|, len);
    if |s| >= 2 && len >= 1 {
      if len == 1 || |s| == 2 {
        TwoDecode(s, len);
      } else {
        ThreeDecode(s, len);
      }
    }
  }

  lemma TwoDecode(s: string, len: nat)
    requires |s| >= 2 && len >= 1 && (len == 1 || |s| == 2)
    ensures BcryptDecoded(s, len) == ByLetters(s[..2])
  {
    hide BcryptVal, B0, B1, B2;
    var t := s[..2];
    assert t[0] == s[0] && t[1] == s[1];
    assert AllBcrypt(t) <==> BcryptVal(s[0]).Some? && BcryptVal(s[1]).Some?;
  }

  lemma ThreeDecode(s: string, len: nat)
    requires |s| >= 3 && len >= 2 && (len == 2 || |s| == 3)
    ensures BcryptDecoded(s, len) == ByLetters(s[..3])
  {
    hide BcryptVal, B0, B1, B2;
    var t := s[..3];
    assert t[0] == s[0] && t[1] == s[1] && t[2] == s[2];
    assert AllBcrypt(t) <==> BcryptVal(s[0]).Some? && BcryptVal(s[1]).Some? && BcryptVal(s[2]).Some?;
  }

  lemma HeadDecodes(s: string, len: nat)
    requires |s| >= 4 && len >= 3 && AllBcrypt(s[..4])
    ensures BcryptDecoded(s, len) == Prepended(GroupBytes(BcryptValues(s[..4])), BcryptDecoded(s[4..], len - 3))
  {
    var t := s[..4];
    assert t[0] == s[0] && t[1] == s[1] && t[2] == s[2] && t[3] == s[3];
    QuadEnds(s, len, BcryptValues(t));
    hide BcryptVal, B0, B1, B2, BcryptDecoded;
  }

  lemma BadHead(s: string, len: nat)
    requires |s| >= 4 && len >= 3 && !AllBcrypt(s[..4])
    ensures BcryptDecoded(s, len) == None
  {
    var k :| 0 <= k < 4 && BcryptVal(s[..4][k]).None?;
    BadLetter(s, len, k);
  }

  lemma SomeBad(a: string, b: string)
    requires !AllBcrypt(a)
    ensures !AllBcrypt(a + b)
  {
    var k :| 0 <= k < |a| && BcryptVal(a[k]).None?;
    assert (a + b)[k] == a[k];
  }

  lemma ValuesOfMore(a: string, b: string)
    requires AllBcrypt(a)
    ensures AllBcrypt(a + b) <==> AllBcrypt(b)
    ensures AllBcrypt(b) ==> BcryptValues(a + b) == BcryptValues(a) + BcryptValues(b)
  {
    if AllBcrypt(a + b) {
      forall i | 0 <= i < |b|
        ensures BcryptVal(b[i]).Some?
      {
        assert (a + b)[|a| + i] == b[i];
      }
    }
    hide BcryptVal;
  }

  function BcryptPlace(c: char): int {
    if c == '.' then 0
    else if c == '/' then 1
    else if 'A' <= c <= 'Z' then c as int - 'A' as int + 2
    else if 'a' <= c <= 'z' then c as int - 'a' as int + 28
    else c as int - '0' as int + 54
  }

  predicate HasPlace(c: char) {
    c == '.' || c == '/' || 'A' <= c <= 'Z' || 'a' <= c <= 'z' || '0' <= c <= '9'
  }

  lemma PlaceOf(c: char)
    requires BcryptVal(c).Some?
    ensures HasPlace(c) && 0 <= BcryptPlace(c) < 64 && BcryptVal(c) == Some(BcryptPlace(c) as bv6)
  {
    if c == '.' || c == '/' {
    } else if 'A' <= c <= 'Z' {
      assert BcryptVal(c) == Some((c as int - 'A' as int + 2) as bv6);
    } else if 'a' <= c <= 'z' {
      assert BcryptVal(c) == Some((c as int - 'a' as int + 28) as bv6);
    } else {
      assert BcryptVal(c) == Some((c as int - '0' as int + 54) as bv6);
    }
  }

  lemma BcryptLetterOf(c: char)
    requires BcryptVal(c).Some?
    ensures c == BCRYPT[BcryptVal(c).value as int]
  {
    PlaceOf(c);
    hide BcryptVal, BcryptPlace, HasPlace;
    SextetIndex(BcryptPlace(c));
    BcryptLetterAtPlace(c);
  }

  lemma BcryptLetterAtPlace(c: char)
    requires HasPlace(c)
    ensures 0 <= BcryptPlace(c) < 64 && BCRYPT[BcryptPlace(c)] == c
  {
    if c == '.' || c == '/' {
      IndexConcat("./", UPPER, LOWER, DIGITS, BcryptPlace(c));
    } else if 'A' <= c <= 'Z' {
      InRow(UPPER, 'A', c as int - 'A' as int, 2, c);
    } else if 'a' <= c <= 'z' {
      InRow(LOWER, 'a', c as int - 'a' as int, 28, c);
    } else {
      InRow(DIGITS, '0', c as int - '0' as int, 54, c);
    }
  }

  lemma InRow(row: string, first: char, i: nat, skip: nat, c: char)
    requires (row == UPPER && first == 'A' && skip == 2) || (row == LOWER && first == 'a' && skip == 28)
             || (row == DIGITS && first == '0' && skip == 54)
    requires i < (if skip == 54 then 10 else 26) && c as int == first as int + i
    ensures skip + i < 64 && BCRYPT[skip + i] == c
  {
    BcryptLetterAt(row, first, i, skip);
  }

  lemma BcryptLetterAt(row: string, first: char, i: nat, skip: nat)
    requires (row == UPPER && first == 'A' && skip == 2) || (row == LOWER && first == 'a' && skip == 28)
             || (row == DIGITS && first == '0' && skip == 54)
    requires i < (if skip == 54 then 10 else 26)
    ensures skip + i < 64 && BCRYPT[skip + i] as int == first as int + i
  {
    IndexConcat("./", UPPER, LOWER, DIGITS, skip + i);
    LetterRange(row, first, i);
  }

  /** A text decodes to these bytes exactly if they are what its letters carry, as far as they are looked at. */
  lemma BcryptDecodedIff(s: string, len: nat, bytes: seq<bv8>)
    ensures BcryptDecoded(s, len) == Some(bytes) <==> IsBcrypt(s, len, bytes)
  {
    hide BcryptDecoded, BcryptVal, BytesOf, Looked, BytesBitString, SextetsBitString;
    var n := Looked(|s|, len);
    var t := s[..n];
    DecodedByLetters(s, len);
    if AllBcrypt(t) {
      var vs := BcryptValues(t);
      BytesAreEights(vs);
      forall i | 0 <= i < n
        ensures s[i] == BCRYPT[vs[i] as int]
      {
        BcryptLetterOf(t[i]);
      }
    }
    if IsBcrypt(s, len, bytes) {
      var vs: seq<Sextet> :|
        && |vs| == n && (forall i | 0 <= i < |vs| :: s[i] == BCRYPT[vs[i] as int]) && AreEights(bytes, vs);
      forall i | 0 <= i < n
        ensures BcryptVal(t[i]) == Some(vs[i])
      {
        BcryptLetterValue(vs[i]);
      }
      assert BcryptValues(t) == vs;
      SameEights(bytes, BytesOf(vs), vs);
    }
  }
}
