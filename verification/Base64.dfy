/**
 Base64 in both alphabets of RFC 4648, as `backend/src/crypto.rs` encodes and
 decodes it, on bit-vectors of the source's widths.
 */
module Base64 {
  import Bits
  import opened Outcomes

  type Sextet = bv6

  const UPPER: string := "ABCDEFGHIJKLMNOPQRSTUVWXYZ"
  const LOWER: string := "abcdefghijklmnopqrstuvwxyz"
  const DIGITS: string := "0123456789"

  const STD: string := UPPER + LOWER + DIGITS + "+/"
  const URL: string := UPPER + LOWER + DIGITS + "-_"
  const BCRYPT: string := "./" + UPPER + LOWER + DIGITS

  // ---- The four sextets of three bytes, and the three bytes of four sextets ----

  function S0(b0: bv8): Sextet { (b0 >> 2) as bv6 }

  function S1(b0: bv8, b1: bv8): Sextet { ((b0 & 0x03) as bv6 << 4) | (b1 >> 4) as bv6 }

  function S2(b1: bv8, b2: bv8): Sextet { ((b1 & 0x0f) as bv6 << 2) | (b2 >> 6) as bv6 }

  function S3(b2: bv8): Sextet { (b2 & 0x3f) as bv6 }

  function B0(v0: Sextet, v1: Sextet): bv8 { (v0 as bv8 << 2) | (v1 as bv8 >> 4) }

  function B1(v1: Sextet, v2: Sextet): bv8 { (v1 as bv8 << 4) | (v2 as bv8 >> 2) }

  function B2(v2: Sextet, v3: Sextet): bv8 { (v2 as bv8 << 6) | v3 as bv8 }

  lemma BytesBack(b0: bv8, b1: bv8, b2: bv8)
    ensures B0(S0(b0), S1(b0, b1)) == b0
    ensures B1(S1(b0, b1), S2(b1, b2)) == b1
    ensures B2(S2(b1, b2), S3(b2)) == b2
  {
  }

  /** The sextets come back, but for the bits of the last one that no byte uses. */
  lemma SextetsBack(v0: Sextet, v1: Sextet, v2: Sextet, v3: Sextet)
    ensures S0(B0(v0, v1)) == v0
    ensures S1(B0(v0, v1), B1(v1, v2)) == v1
    ensures S2(B1(v1, v2), B2(v2, v3)) == v2
    ensures S3(B2(v2, v3)) == v3
    ensures S1(B0(v0, v1), 0) == v1 & 0x30
    ensures S2(B1(v1, v2), 0) == v2 & 0x3c
  {
  }

  // ---- Specification ----

  /** The 6-bit groups of a byte string; zero bits fill a last short group. */
  function Sextets(bytes: seq<bv8>): seq<Sextet> {
    if |bytes| == 0 then []
    else if |bytes| == 1 then [S0(bytes[0]), S1(bytes[0], 0)]
    else if |bytes| == 2 then [S0(bytes[0]), S1(bytes[0], bytes[1]), S2(bytes[1], 0)]
    else
      [S0(bytes[0]), S1(bytes[0], bytes[1]), S2(bytes[1], bytes[2]), S3(bytes[2])] + Sextets(bytes[3..])
  }

  function ByteBits(b: bv8): seq<bool> {
    [b & 0x80 != 0, b & 0x40 != 0, b & 0x20 != 0, b & 0x10 != 0,
     b & 0x08 != 0, b & 0x04 != 0, b & 0x02 != 0, b & 0x01 != 0]
  }

  function SextetBits(v: Sextet): seq<bool> {
    [v & 0x20 != 0, v & 0x10 != 0, v & 0x08 != 0, v & 0x04 != 0, v & 0x02 != 0, v & 0x01 != 0]
  }

  function BytesBitString(bytes: seq<bv8>): seq<bool> {
    if bytes == [] then [] else ByteBits(bytes[0]) + BytesBitString(bytes[1..])
  }

  function SextetsBitString(vs: seq<Sextet>): seq<bool> {
    if vs == [] then [] else SextetBits(vs[0]) + SextetsBitString(vs[1..])
  }

  /** The zero bits that fill the last sextet. */
  function FillBits(len: nat): seq<bool> {
    if len % 3 == 0 then [] else if len % 3 == 1 then [false, false, false, false] else [false, false]
  }

  /** Sections 4 and 5 of RFC 4648: the same bits in the same order, in groups of six, zero-filled at the end. */
  lemma {:induction false} SameBitString(bytes: seq<bv8>)
    ensures SextetsBitString(Sextets(bytes)) == BytesBitString(bytes) + FillBits(|bytes|)
    decreases |bytes|
  {
    hide SextetBits;
    if |bytes| == 1 {
      assert bytes == [bytes[0]];
      OneByteBits(bytes[0]);
    } else if |bytes| == 2 {
      assert bytes == [bytes[0], bytes[1]];
      TwoByteBits(bytes[0], bytes[1]);
    } else if |bytes| >= 3 {
      var rest := bytes[3..];
      assert bytes == [bytes[0], bytes[1], bytes[2]] + rest;
      ThreeByteBits(bytes[0], bytes[1], bytes[2]);
      UnfoldFour(S0(bytes[0]), S1(bytes[0], bytes[1]), S2(bytes[1], bytes[2]), S3(bytes[2]), Sextets(rest));
      UnfoldThree(bytes[0], bytes[1], bytes[2], rest);
      SameBitString(rest);
      SameFill(|bytes|);
    }
  }

  lemma SameFill(len: nat)
    requires len >= 3
    ensures FillBits(len) == FillBits(len - 3)
  {
  }

  lemma OneByteBits(b0: bv8)
    ensures SextetsBitString([S0(b0), S1(b0, 0)]) == BytesBitString([b0]) + FillBits(1)
  {
    UnfoldSextets(S0(b0), S1(b0, 0), 0);
    UnfoldBytes(b0, 0);
    RegroupBits(b0, 0, 0);
    NoBits();
    JoinOne(ByteBits(b0), ByteBits(0)[..4]);
  }

  lemma TwoByteBits(b0: bv8, b1: bv8)
    ensures SextetsBitString([S0(b0), S1(b0, b1), S2(b1, 0)]) == BytesBitString([b0, b1]) + FillBits(2)
  {
    UnfoldSextets(S0(b0), S1(b0, b1), S2(b1, 0));
    UnfoldBytes(b0, b1);
    RegroupBits(b0, b1, 0);
    NoBits();
    JoinTwo(ByteBits(b0), ByteBits(b1), ByteBits(0)[..2]);
  }

  lemma NoBits()
    ensures ByteBits(0)[..4] == FillBits(1) && ByteBits(0)[..2] == FillBits(2)
  {
    assert ByteBits(0) == [false, false, false, false, false, false, false, false];
  }

  lemma JoinOne(x: seq<bool>, z: seq<bool>)
    requires |x| >= 6
    ensures x[..6] + (x[6..] + z) == x + z
  {
  }

  lemma JoinTwo(x: seq<bool>, y: seq<bool>, z: seq<bool>)
    requires |x| >= 6 && |y| >= 4
    ensures x[..6] + (x[6..] + y[..4]) + (y[4..] + z) == x + y + z
  {
  }

  lemma ThreeByteBits(b0: bv8, b1: bv8, b2: bv8)
    ensures SextetBits(S0(b0)) + SextetBits(S1(b0, b1)) + SextetBits(S2(b1, b2)) + SextetBits(S3(b2))
         == ByteBits(b0) + ByteBits(b1) + ByteBits(b2)
  {
    RegroupBits(b0, b1, b2);
    Regroup(ByteBits(b0), ByteBits(b1), ByteBits(b2));
  }

  lemma Regroup(x: seq<bool>, y: seq<bool>, z: seq<bool>)
    requires |x| >= 6 && |y| >= 4 && |z| >= 2
    ensures x[..6] + (x[6..] + y[..4]) + (y[4..] + z[..2]) + z[2..] == x + y + z
  {
  }

  /** Each sextet takes the next six bits. */
  lemma RegroupBits(b0: bv8, b1: bv8, b2: bv8)
    ensures SextetBits(S0(b0)) == ByteBits(b0)[..6]
    ensures SextetBits(S1(b0, b1)) == ByteBits(b0)[6..] + ByteBits(b1)[..4]
    ensures SextetBits(S2(b1, b2)) == ByteBits(b1)[4..] + ByteBits(b2)[..2]
    ensures SextetBits(S3(b2)) == ByteBits(b2)[2..]
  {
    RegroupS1(b0, b1);
    RegroupS2(b1, b2);
  }

  lemma LastTwoFirstFour(v: Sextet, x: seq<bool>, y: seq<bool>)
    requires |x| == 8 && |y| == 8
    requires SextetBits(v) == [x[6], x[7], y[0], y[1], y[2], y[3]]
    ensures SextetBits(v) == x[6..] + y[..4]
  {
  }

  lemma LastFourFirstTwo(v: Sextet, x: seq<bool>, y: seq<bool>)
    requires |x| == 8 && |y| == 8
    requires SextetBits(v) == [x[4], x[5], x[6], x[7], y[0], y[1]]
    ensures SextetBits(v) == x[4..] + y[..2]
  {
  }

  lemma RegroupS1(b0: bv8, b1: bv8)
    ensures SextetBits(S1(b0, b1)) == ByteBits(b0)[6..] + ByteBits(b1)[..4]
  {
    BitsOfS1(b0, b1);
    LastTwoFirstFour(S1(b0, b1), ByteBits(b0), ByteBits(b1));
  }

  lemma BitsOfS1(b0: bv8, b1: bv8)
    ensures var v := S1(b0, b1);
            && (v & 0x20 != 0 <==> b0 & 0x02 != 0) && (v & 0x10 != 0 <==> b0 & 0x01 != 0)
            && (v & 0x08 != 0 <==> b1 & 0x80 != 0) && (v & 0x04 != 0 <==> b1 & 0x40 != 0)
            && (v & 0x02 != 0 <==> b1 & 0x20 != 0) && (v & 0x01 != 0 <==> b1 & 0x10 != 0)
  {
  }

  lemma RegroupS2(b1: bv8, b2: bv8)
    ensures SextetBits(S2(b1, b2)) == ByteBits(b1)[4..] + ByteBits(b2)[..2]
  {
    BitsOfS2(b1, b2);
    LastFourFirstTwo(S2(b1, b2), ByteBits(b1), ByteBits(b2));
  }

  lemma BitsOfS2(b1: bv8, b2: bv8)
    ensures var v := S2(b1, b2);
            && (v & 0x20 != 0 <==> b1 & 0x08 != 0) && (v & 0x10 != 0 <==> b1 & 0x04 != 0)
            && (v & 0x08 != 0 <==> b1 & 0x02 != 0) && (v & 0x04 != 0 <==> b1 & 0x01 != 0)
            && (v & 0x02 != 0 <==> b2 & 0x80 != 0) && (v & 0x01 != 0 <==> b2 & 0x40 != 0)
  {
  }

  lemma UnfoldSextets(v0: Sextet, v1: Sextet, v2: Sextet)
    ensures SextetsBitString([v0, v1]) == SextetBits(v0) + SextetBits(v1)
    ensures SextetsBitString([v0, v1, v2]) == SextetBits(v0) + SextetBits(v1) + SextetBits(v2)
  {
    assert [v0, v1][1..] == [v1] && [v1][1..] == [] && [v2][1..] == [];
    assert [v0, v1, v2][1..] == [v1, v2] && [v1, v2][1..] == [v2];
    assert SextetsBitString([v1]) == SextetBits(v1) + [];
    assert SextetsBitString([v2]) == SextetBits(v2) + [];
    assert SextetsBitString([v1, v2]) == SextetBits(v1) + SextetsBitString([v2]);
  }

  lemma UnfoldBytes(b0: bv8, b1: bv8)
    ensures BytesBitString([b0]) == ByteBits(b0)
    ensures BytesBitString([b0, b1]) == ByteBits(b0) + ByteBits(b1)
  {
    assert [b0][1..] == [] && [b1][1..] == [] && [b0, b1][1..] == [b1];
    assert BytesBitString([b1]) == ByteBits(b1) + [];
  }

  lemma UnfoldFour(v0: Sextet, v1: Sextet, v2: Sextet, v3: Sextet, rest: seq<Sextet>)
    ensures SextetsBitString([v0, v1, v2, v3] + rest)
         == SextetBits(v0) + SextetBits(v1) + SextetBits(v2) + SextetBits(v3) + SextetsBitString(rest)
  {
    hide SextetsBitString, SextetBits;
    UnfoldPair(v2, v3, rest);
    UnfoldPair(v0, v1, [v2, v3] + rest);
    assert [v0, v1, v2, v3] + rest == [v0, v1] + ([v2, v3] + rest);
  }

  lemma UnfoldPair(v0: Sextet, v1: Sextet, rest: seq<Sextet>)
    ensures SextetsBitString([v0, v1] + rest) == SextetBits(v0) + SextetBits(v1) + SextetsBitString(rest)
  {
    var d := [v0, v1] + rest;
    assert d[1..] == [v1] + rest;
    assert d[1..][1..] == rest;
    assert SextetsBitString(d[1..]) == SextetBits(v1) + SextetsBitString(rest);
  }

  lemma UnfoldThree(b0: bv8, b1: bv8, b2: bv8, rest: seq<bv8>)
    ensures BytesBitString([b0, b1, b2] + rest) == ByteBits(b0) + ByteBits(b1) + ByteBits(b2) + BytesBitString(rest)
  {
    UnfoldByte(b2, rest);
    UnfoldByte(b1, [b2] + rest);
    UnfoldByte(b0, [b1] + ([b2] + rest));
    assert [b0, b1, b2] + rest == [b0] + ([b1] + ([b2] + rest));
  }

  lemma UnfoldByte(b: bv8, rest: seq<bv8>)
    ensures BytesBitString([b] + rest) == ByteBits(b) + BytesBitString(rest)
  {
    assert ([b] + rest)[1..] == rest;
  }

  function Letters(vs: seq<Sextet>, alphabet: string): (s: string)
    requires |alphabet| == 64
    ensures |s| == |vs|
  {
    seq(|vs|, i requires 0 <= i < |vs| => alphabet[vs[i] as int])
  }

  /** `=` up to a multiple of four letters, when padding is asked for. */
  function Pads(len: nat, pad: bool): string {
    if !pad || len % 3 == 0 then "" else if len % 3 == 1 then "==" else "="
  }

  function Encoded(bytes: seq<bv8>, alphabet: string, pad: bool): string
    requires |alphabet| == 64
  {
    Letters(Sextets(bytes), alphabet) + Pads(|bytes|, pad)
  }

  // ---- Encoding ----

  /** `(b0 << 16) | (b1 << 8) | b2`. */
  function Joined(b0: bv8, b1: bv8, b2: bv8): bv32 {
    (b0 as bv32 << 16) | (b1 as bv32 << 8) | b2 as bv32
  }

  /** `(n >> k) & 0x3f`. */
  function Field(n: bv32, k: bv5): Sextet {
    ((n >> k) & 0x3f) as bv6
  }

  /** The shifts and masks of the encoder read the sextets. */
  lemma FieldsOf(b0: bv8, b1: bv8, b2: bv8)
    ensures var n := Joined(b0, b1, b2);
            Field(n, 18) == S0(b0) && Field(n, 12) == S1(b0, b1) && Field(n, 6) == S2(b1, b2) && Field(n, 0) == S3(b2)
  {
  }

  lemma {:induction false} SextetsAppend(a: seq<bv8>, b: seq<bv8>)
    requires |a| % 3 == 0
    ensures Sextets(a + b) == Sextets(a) + Sextets(b)
    decreases |a|
  {
    if a == [] {
      assert a + b == b;
    } else {
      assert (a + b)[3..] == a[3..] + b;
      SextetsAppend(a[3..], b);
    }
  }

  /** `b64_encode_with`. */
  method EncodeWith(bytes: seq<bv8>, alphabet: string, pad: bool) returns (out: string)
    requires |alphabet| == 64
    ensures out == Encoded(bytes, alphabet, pad)
  {
    out := "";
    var at := 0;
    while at < |bytes|
      invariant at <= |bytes| && (at % 3 == 0 || at == |bytes|)
      invariant out == Encoded(bytes[..at], alphabet, pad)
    {
      var end := Bits.Min(at + 3, |bytes|);
      var chunk := bytes[at..end];
      var letters := EncodeChunk(chunk, alphabet, pad);
      assert bytes[..end] == bytes[..at] + chunk;
      EncodedAppend(bytes[..at], chunk, alphabet, pad);
      out := out + letters;
      at := end;
    }
    assert bytes[..at] == bytes;
  }

  lemma EncodedAppend(a: seq<bv8>, b: seq<bv8>, alphabet: string, pad: bool)
    requires |alphabet| == 64 && |a| % 3 == 0
    ensures Encoded(a + b, alphabet, pad) == Encoded(a, alphabet, pad) + Encoded(b, alphabet, pad)
  {
    SextetsAppend(a, b);
    PadsAppend(|a|, |b|, pad);
    LettersAppend(Sextets(a), Sextets(b), alphabet);
  }

  lemma PadsAppend(a: nat, b: nat, pad: bool)
    requires a % 3 == 0
    ensures Pads(a, pad) == "" && Pads(a + b, pad) == Pads(b, pad)
  {
  }

  lemma LettersAppend(a: seq<Sextet>, b: seq<Sextet>, alphabet: string)
    requires |alphabet| == 64
    ensures Letters(a + b, alphabet) == Letters(a, alphabet) + Letters(b, alphabet)
  {
  }

  /** The body of the encoding loop, on one to three bytes. */
  method EncodeChunk(chunk: seq<bv8>, alphabet: string, pad: bool) returns (out: string)
    requires 1 <= |chunk| <= 3 && |alphabet| == 64
    ensures out == Encoded(chunk, alphabet, pad)
  {
    var b0 := chunk[0];
    var b1: bv8 := if |chunk| > 1 then chunk[1] else 0;
    var b2: bv8 := if |chunk| > 2 then chunk[2] else 0;
    var n := Joined(b0, b1, b2);
    FieldsOf(b0, b1, b2);
    var s0, s1, s2, s3 := Field(n, 18), Field(n, 12), Field(n, 6), Field(n, 0);
    out := [alphabet[s0 as int], alphabet[s1 as int]];
    if |chunk| > 1 {
      out := out + [alphabet[s2 as int]];
    } else if pad {
      out := out + "=";
    }
    if |chunk| > 2 {
      out := out + [alphabet[s3 as int]];
    } else if pad {
      out := out + "=";
    }
    ChunkLetters(chunk, alphabet, pad, s0, s1, s2, s3);
  }

  lemma ChunkLetters(chunk: seq<bv8>, alphabet: string, pad: bool, s0: Sextet, s1: Sextet, s2: Sextet, s3: Sextet)
    requires 1 <= |chunk| <= 3 && |alphabet| == 64
    requires var b1: bv8 := if |chunk| > 1 then chunk[1] else 0;
             var b2: bv8 := if |chunk| > 2 then chunk[2] else 0;
             s0 == S0(chunk[0]) && s1 == S1(chunk[0], b1) && s2 == S2(b1, b2) && s3 == S3(b2)
    ensures Encoded(chunk, alphabet, pad)
         == [alphabet[s0 as int], alphabet[s1 as int]]
            + (if |chunk| > 1 then [alphabet[s2 as int]] else if pad then "=" else "")
            + (if |chunk| > 2 then [alphabet[s3 as int]] else if pad then "=" else "")
  {
    if |chunk| == 3 {
      assert chunk[3..] == [];
      assert Sextets(chunk) == [s0, s1, s2, s3];
    } else if |chunk| == 2 {
      assert Sextets(chunk) == [s0, s1, s2];
    } else {
      assert Sextets(chunk) == [s0, s1];
    }
  }

  // ---- Decoding ----

  /** `b64_val`: both alphabets are accepted. */
  function Val(c: char): Option<Sextet> {
    if 'A' <= c <= 'Z' then Some((c as int - 'A' as int) as bv6)
    else if 'a' <= c <= 'z' then Some((c as int - 'a' as int + 26) as bv6)
    else if '0' <= c <= '9' then Some((c as int - '0' as int + 52) as bv6)
    else if c == '+' || c == '-' then Some(62)
    else if c == '/' || c == '_' then Some(63)
    else None
  }

  predicate AllLetters(s: string) {
    forall i | 0 <= i < |s| :: Val(s[i]).Some?
  }

  function Values(s: string): (vs: seq<Sextet>)
    requires AllLetters(s)
    ensures |vs| == |s|
  {
    seq(|s|, i requires 0 <= i < |s| => Val(s[i]).value)
  }

  /** A group of k sextets carries k-1 bytes. */
  function GroupBytes(vs: seq<Sextet>): (b: seq<bv8>)
    requires 2 <= |vs| <= 4
    ensures |b| == |vs| - 1
  {
    if |vs| == 2 then [B0(vs[0], vs[1])]
    else if |vs| == 3 then [B0(vs[0], vs[1]), B1(vs[1], vs[2])]
    else [B0(vs[0], vs[1]), B1(vs[1], vs[2]), B2(vs[2], vs[3])]
  }

  /** Group by group; a last group of one sextet would carry nothing. */
  function BytesOf(vs: seq<Sextet>): seq<bv8> {
    if |vs| < 2 then []
    else if |vs| < 4 then GroupBytes(vs)
    else GroupBytes(vs[..4]) + BytesOf(vs[4..])
  }

  function TrimEnd(s: string): (t: string)
    ensures t <= s
  {
    if s != "" && s[|s| - 1] == '=' then TrimEnd(s[..|s| - 1]) else s
  }

  /** What the decoder answers: refused exactly on a foreign character or an impossible length. */
  function Decoded(s: string): Option<seq<bv8>> {
    var t := TrimEnd(s);
    if |t| % 4 == 1 || !AllLetters(t) then None else Some(BytesOf(Values(t)))
  }

  /** `b64_decode_any`. */
  method DecodeAny(s: string) returns (res: Option<seq<bv8>>)
    ensures res == Decoded(s)
  {
    var t := TrimEnd(s);
    if |t| % 4 == 1 {
      return None;
    }
    var out := [];
    var at := 0;
    while at < |t|
      invariant DecodedUpTo(t, at, out)
      decreases |t| - at
    {
      var end := Bits.Min(at + 4, |t|);
      GroupSize(|t|, at);
      var bytes := DecodeGroup(t[at..end]);
      if bytes.None? {
        LettersPrefix(t, at, end);
        return None;
      }
      DecodeStep(t, at, end, out);
      out := out + bytes.value;
      at := end;
    }
    assert t[..at] == t;
    res := Some(out);
  }

  /** The groups before `at` are decoded into `out`. */
  ghost predicate DecodedUpTo(t: string, at: nat, out: seq<bv8>) {
    && at <= |t| && (at % 4 == 0 || at == |t|) && at % 4 != 1
    && AllLetters(t[..at]) && out == BytesOf(Values(t[..at]))
  }

  lemma GroupSize(len: nat, at: nat)
    requires len % 4 != 1 && at < len && at % 4 == 0
    ensures at + 2 <= Bits.Min(at + 4, len) && Bits.Min(at + 4, len) % 4 != 1
    ensures Bits.Min(at + 4, len) % 4 == 0 || Bits.Min(at + 4, len) == len
  {
  }

  lemma LettersPrefix(t: string, at: nat, end: nat)
    requires at <= end <= |t| && !AllLetters(t[at..end])
    ensures !AllLetters(t)
  {
    var i :| 0 <= i < end - at && Val(t[at..end][i]).None?;
    assert Val(t[at + i]).None?;
  }

  lemma DecodeStep(t: string, at: nat, end: nat, out: seq<bv8>)
    requires at + 2 <= end <= |t| && at % 4 == 0 && end <= at + 4
    requires end % 4 != 1 && (end % 4 == 0 || end == |t|)
    requires DecodedUpTo(t, at, out) && AllLetters(t[at..end])
    ensures DecodedUpTo(t, end, out + GroupBytes(Values(t[at..end])))
  {
    assert t[..end] == t[..at] + t[at..end];
    OneGroup(Values(t[at..end]));
    BytesAppend(t[..at], t[at..end]);
  }

  lemma OneGroup(vs: seq<Sextet>)
    requires 2 <= |vs| <= 4
    ensures BytesOf(vs) == GroupBytes(vs)
  {
    assert |vs| == 4 ==> vs[..4] == vs && vs[4..] == [];
  }

  lemma BytesAppend(a: string, b: string)
    requires |a| % 4 == 0 && AllLetters(a) && AllLetters(b)
    ensures AllLetters(a + b)
    ensures BytesOf(Values(a + b)) == BytesOf(Values(a)) + BytesOf(Values(b))
  {
    LettersOfAppend(a, b);
    BytesOfAppend(Values(a), Values(b), |a| / 4);
  }

  lemma LettersOfAppend(a: string, b: string)
    requires AllLetters(a) && AllLetters(b)
    ensures AllLetters(a + b) && Values(a + b) == Values(a) + Values(b)
  {
  }

  lemma BytesOfCons(head: seq<Sextet>, rest: seq<Sextet>)
    requires |head| == 4
    ensures BytesOf(head + rest) == GroupBytes(head) + BytesOf(rest)
  {
    assert (head + rest)[..4] == head && (head + rest)[4..] == rest;
  }

  lemma {:induction false} BytesOfAppend(a: seq<Sextet>, b: seq<Sextet>, groups: nat)
    requires |a| == 4 * groups
    ensures BytesOf(a + b) == BytesOf(a) + BytesOf(b)
    decreases groups
  {
    if groups == 0 {
      assert a + b == b;
    } else {
      var head, tail := a[..4], a[4..];
      BytesOfAppend(tail, b, groups - 1);
      BytesOfCons(head, tail + b);
      BytesOfCons(head, tail);
      assert a == head + tail;
      Assoc(head, tail, b);
      Assoc(GroupBytes(head), BytesOf(tail), BytesOf(b));
    }
  }

  lemma Assoc<T>(x: seq<T>, y: seq<T>, z: seq<T>)
    ensures x + y + z == x + (y + z)
  {
  }

  /** Sextet `i` of a group; a short group counts as filled with zeros. */
  function At(vs: seq<Sextet>, i: nat): Sextet {
    if i < |vs| then vs[i] else 0
  }

  /** The sextets of a group in 24 bits, the first on top. */
  function Packed(vs: seq<Sextet>): bv32 {
    Quad(At(vs, 0), At(vs, 1), At(vs, 2), At(vs, 3))
  }

  function Quad(v0: Sextet, v1: Sextet, v2: Sextet, v3: Sextet): bv32 {
    (v0 as bv32 << 18) | (v1 as bv32 << 12) | (v2 as bv32 << 6) | v3 as bv32
  }

  /** `n |= v << (18 - 6 * i)`. */
  function OrIn(n: bv32, v: Sextet, i: nat): bv32
    requires i < 4
  {
    if i == 0 then n | (v as bv32 << 18)
    else if i == 1 then n | (v as bv32 << 12)
    else if i == 2 then n | (v as bv32 << 6)
    else n | v as bv32
  }

  /** One more sextet is or-ed below the ones already packed. */
  lemma PackStep(n: bv32, vs: seq<Sextet>, v: Sextet, i: nat)
    requires |vs| == i < 4 && n == Packed(vs)
    ensures OrIn(n, v, i) == Packed(vs + [v])
  {
    Filled(vs, v);
    if i == 0 {
      Pack0(v);
    } else if i == 1 {
      Pack1(vs[0], v);
    } else if i == 2 {
      Pack2(vs[0], vs[1], v);
    } else {
      Pack3(vs[0], vs[1], vs[2], v);
    }
  }

  lemma Filled(vs: seq<Sextet>, v: Sextet)
    ensures |vs| == 0 ==> Packed(vs) == Quad(0, 0, 0, 0) && Packed(vs + [v]) == Quad(v, 0, 0, 0)
    ensures |vs| == 1 ==> Packed(vs) == Quad(vs[0], 0, 0, 0) && Packed(vs + [v]) == Quad(vs[0], v, 0, 0)
    ensures |vs| == 2 ==> Packed(vs) == Quad(vs[0], vs[1], 0, 0) && Packed(vs + [v]) == Quad(vs[0], vs[1], v, 0)
    ensures |vs| == 3 ==> Packed(vs) == Quad(vs[0], vs[1], vs[2], 0) && Packed(vs + [v]) == Quad(vs[0], vs[1], vs[2], v)
  {
  }

  lemma Pack0(v: Sextet)
    ensures Quad(0, 0, 0, 0) | (v as bv32 << 18) == Quad(v, 0, 0, 0)
  {
  }

  lemma Pack1(v0: Sextet, v: Sextet)
    ensures Quad(v0, 0, 0, 0) | (v as bv32 << 12) == Quad(v0, v, 0, 0)
  {
  }

  lemma Pack2(v0: Sextet, v1: Sextet, v: Sextet)
    ensures Quad(v0, v1, 0, 0) | (v as bv32 << 6) == Quad(v0, v1, v, 0)
  {
  }

  lemma Pack3(v0: Sextet, v1: Sextet, v2: Sextet, v: Sextet)
    ensures Quad(v0, v1, v2, 0) | v as bv32 == Quad(v0, v1, v2, v)
  {
  }

  /** Byte `i` of a packed group: `(n >> (16 - 8 * i)) & 0xff`. */
  function Unpacked(n: bv32, i: nat): bv8
    requires i < 3
  {
    if i == 0 then ((n >> 16) & 0xff) as bv8
    else if i == 1 then ((n >> 8) & 0xff) as bv8
    else (n & 0xff) as bv8
  }

  lemma UnpackIs(vs: seq<Sextet>, i: nat)
    requires 2 <= |vs| <= 4 && i < |vs| - 1
    ensures Unpacked(Packed(vs), i) == GroupBytes(vs)[i]
  {
    UnpackBits(At(vs, 0), At(vs, 1), At(vs, 2), At(vs, 3));
  }

  lemma UnpackBits(v0: Sextet, v1: Sextet, v2: Sextet, v3: Sextet)
    ensures var n := Quad(v0, v1, v2, v3);
            Unpacked(n, 0) == B0(v0, v1) && Unpacked(n, 1) == B1(v1, v2) && Unpacked(n, 2) == B2(v2, v3)
  {
  }

  /** The two inner loops: pack up to four values, then take the bytes off. */
  method DecodeGroup(group: string) returns (res: Option<seq<bv8>>)
    requires 2 <= |group| <= 4
    ensures res == if AllLetters(group) then Some(GroupBytes(Values(group))) else None
  {
    var n: bv32 := 0;
    for i := 0 to |group|
      invariant AllLetters(group[..i])
      invariant n == Packed(Values(group[..i]))
    {
      var v := Val(group[i]);
      if v.None? {
        assert !AllLetters(group);
        return None;
      }
      OneMoreLetter(group, i);
      PackStep(n, Values(group[..i]), v.value, i);
      n := OrIn(n, v.value, i);
    }
    assert group[..|group|] == group;
    var out := TakeBytes(Values(group), |group|, n);
    res := Some(out);
  }

  lemma OneMoreLetter(s: string, i: nat)
    requires i < |s| && AllLetters(s[..i]) && Val(s[i]).Some?
    ensures AllLetters(s[..i + 1]) && Values(s[..i + 1]) == Values(s[..i]) + [Val(s[i]).value]
  {
    assert s[..i + 1] == s[..i] + [s[i]];
  }

  method TakeBytes(ghost vs: seq<Sextet>, len: nat, n: bv32) returns (out: seq<bv8>)
    requires 2 <= |vs| <= 4 && len == |vs| && n == Packed(vs)
    ensures out == GroupBytes(vs)
  {
    out := [];
    for i := 0 to len - 1
      invariant out == GroupBytes(vs)[..i]
    {
      UnpackIs(vs, i);
      out := out + [Unpacked(n, i)];
    }
  }

  // ---- Decoding undoes encoding ----

  lemma {:induction false} BytesOfSextets(bytes: seq<bv8>)
    ensures |Sextets(bytes)| % 4 != 1
    ensures BytesOf(Sextets(bytes)) == bytes
    decreases |bytes|
  {
    if |bytes| >= 3 {
      BytesOfSextets(bytes[3..]);
      BytesBack(bytes[0], bytes[1], bytes[2]);
      var s := Sextets(bytes);
      assert s[4..] == Sextets(bytes[3..]);
      assert bytes == [bytes[0], bytes[1], bytes[2]] + bytes[3..];
    } else if |bytes| == 2 {
      BytesBack(bytes[0], bytes[1], 0);
    } else if |bytes| == 1 {
      BytesBack(bytes[0], 0, 0);
    }
  }

  /** The sextets are canonical: no lone last sextet, and the bits that no byte uses are zero. */
  predicate Canonical(vs: seq<Sextet>) {
    if |vs| >= 4 then Canonical(vs[4..])
    else if |vs| == 3 then vs[2] & 0x03 == 0
    else if |vs| == 2 then vs[1] & 0x0f == 0
    else vs == []
  }

  /** Re-encoding what was decoded gives the sextets back exactly when their unused bits are zero. */
  lemma {:induction false} SextetsOfBytes(vs: seq<Sextet>)
    ensures Sextets(BytesOf(vs)) == vs <==> Canonical(vs)
    decreases |vs|
  {
    if |vs| >= 4 {
      var head, tail := vs[..4], vs[4..];
      SextetsOfBytes(tail);
      SextetsOfFour(head);
      SextetsAppend(GroupBytes(head), BytesOf(tail));
      assert Sextets(BytesOf(vs)) == head + Sextets(BytesOf(tail));
      assert vs == head + tail;
      if Sextets(BytesOf(vs)) == vs {
        assert Sextets(BytesOf(tail)) == Sextets(BytesOf(vs))[4..];
      }
    } else if |vs| == 3 {
      SextetsBack(vs[0], vs[1], vs[2], 0);
      assert vs == [vs[0], vs[1], vs[2]];
      assert vs[2] & 0x3c == vs[2] <==> vs[2] & 0x03 == 0;
    } else if |vs| == 2 {
      SextetsBack(vs[0], vs[1], 0, 0);
      assert vs == [vs[0], vs[1]];
      assert vs[1] & 0x30 == vs[1] <==> vs[1] & 0x0f == 0;
    }
  }

  lemma SextetsOfFour(vs: seq<Sextet>)
    requires |vs| == 4
    ensures Sextets(GroupBytes(vs)) == vs
  {
    SextetsBack(vs[0], vs[1], vs[2], vs[3]);
    assert GroupBytes(vs)[3..] == [];
    assert vs == [vs[0], vs[1], vs[2], vs[3]];
  }

  /** Every letter of either alphabet reads back as its value. */
  lemma LetterValue(v: Sextet)
    ensures Val(STD[v as int]) == Some(v) && Val(URL[v as int]) == Some(v)
  {
    SameSextet(v);
    if v as int < 62 {
      LetterIndex(v as int);
    } else {
      assert v == 62 || v == 63;
    }
  }

  lemma SameSextet(v: Sextet)
    ensures (v as int) as bv6 == v
  {
  }

  lemma LetterIndex(i: nat)
    requires i < 62
    ensures Val(STD[i]) == Val(URL[i]) == Some(i as bv6)
  {
    LetterAt(i);
    if i < 26 {
      LetterRange(UPPER, 'A', i);
    } else if i < 52 {
      LetterRange(LOWER, 'a', i - 26);
    } else {
      LetterRange(DIGITS, '0', i - 52);
    }
    ValOfOffset(STD[i], i);
  }

  lemma ValOfOffset(c: char, i: nat)
    requires i < 62
    requires c as int == if i < 26 then 'A' as int + i else if i < 52 then 'a' as int + i - 26 else '0' as int + i - 52
    ensures Val(c) == Some(i as bv6)
  {
    if i < 26 {
      assert 'A' <= c <= 'Z';
      assert c as int - 'A' as int == i;
    } else if i < 52 {
      assert 'a' <= c <= 'z';
      assert c as int - 'a' as int + 26 == i;
    } else {
      assert '0' <= c <= '9';
      assert c as int - '0' as int + 52 == i;
    }
  }

  lemma LetterAt(i: nat)
    requires i < 62
    ensures STD[i] == URL[i] == if i < 26 then UPPER[i] else if i < 52 then LOWER[i - 26] else DIGITS[i - 52]
  {
    IndexConcat(UPPER, LOWER, DIGITS, "+/", i);
    IndexConcat(UPPER, LOWER, DIGITS, "-_", i);
  }

  lemma IndexConcat(a: string, b: string, c: string, d: string, i: nat)
    requires i < |a| + |b| + |c| + |d|
    ensures (a + b + c + d)[i] == if i < |a| then a[i] else if i < |a| + |b| then b[i - |a|]
                                  else if i < |a| + |b| + |c| then c[i - |a| - |b|] else d[i - |a| - |b| - |c|]
  {
  }

  lemma LetterRange(s: string, first: char, i: nat)
    requires i < |s|
    requires (s == UPPER && first == 'A') || (s == LOWER && first == 'a') || (s == DIGITS && first == '0')
    ensures s[i] as int == first as int + i
  {
  }

  lemma {:induction false} TrimPads(s: string, k: nat)
    requires s == "" || s[|s| - 1] != '='
    ensures TrimEnd(s + seq(k, _ => '=')) == s
    decreases k
  {
    var padded := s + seq(k, _ => '=');
    if k > 0 {
      assert padded[..|padded| - 1] == s + seq(k - 1, _ => '=');
      TrimPads(s, k - 1);
    } else {
      assert padded == s;
    }
  }

  /** Letters of an alphabet read back as the sextets they stand for, and none of them is padding. */
  lemma ValuesOfLetters(vs: seq<Sextet>, alphabet: string)
    requires alphabet == STD || alphabet == URL
    ensures AllLetters(Letters(vs, alphabet)) && Values(Letters(vs, alphabet)) == vs
    ensures forall i | 0 <= i < |vs| :: Letters(vs, alphabet)[i] != '='
  {
    var t := Letters(vs, alphabet);
    forall i | 0 <= i < |t|
      ensures Val(t[i]) == Some(vs[i]) && t[i] != '='
    {
      LetterValue(vs[i]);
    }
  }

  /** Decoding undoes encoding, in both alphabets, padded or not. */
  lemma DecodingUndoesEncoding(bytes: seq<bv8>, alphabet: string, pad: bool)
    requires alphabet == STD || alphabet == URL
    ensures Decoded(Encoded(bytes, alphabet, pad)) == Some(bytes)
  {
    var vs := Sextets(bytes);
    ValuesOfLetters(vs, alphabet);
    var k := |Pads(|bytes|, pad)|;
    assert Pads(|bytes|, pad) == seq(k, _ => '=');
    TrimPads(Letters(vs, alphabet), k);
    BytesOfSextets(bytes);
  }

  /** A letter of the alphabet is the one its value stands for. */
  lemma LetterBack(c: char, alphabet: string)
    requires (alphabet == STD || alphabet == URL) && c in alphabet
    ensures Val(c).Some? && alphabet[Val(c).value as int] == c
  {
    var i :| 0 <= i < 64 && alphabet[i] == c;
    LetterValue(i as bv6);
    SextetIndex(i);
  }

  lemma SextetIndex(i: nat)
    requires i < 64
    ensures (i as bv6) as int == i
  {
  }

  /** Letters of an alphabet are the letters of their values, and only they are. */
  lemma LettersOfValues(t: string, alphabet: string)
    requires (alphabet == STD || alphabet == URL) && AllLetters(t)
    ensures Letters(Values(t), alphabet) == t <==> forall i | 0 <= i < |t| :: t[i] in alphabet
  {
    var vs := Values(t);
    forall i | 0 <= i < |t|
      ensures Letters(vs, alphabet)[i] == t[i] <==> t[i] in alphabet
    {
      if t[i] in alphabet {
        LetterBack(t[i], alphabet);
      }
    }
  }

  /**
   Text that decodes is what its bytes encode to if and only if it is all in one alphabet, its unused
   bits are zero, and it is padded as that encoding is.
   */
  lemma ReencodingIffCanonical(s: string, alphabet: string, pad: bool)
    requires (alphabet == STD || alphabet == URL) && Decoded(s).Some?
    ensures var t, bytes := TrimEnd(s), Decoded(s).value;
            Encoded(bytes, alphabet, pad) == s <==>
              (forall i | 0 <= i < |t| :: t[i] in alphabet) && Canonical(Values(t)) && s == t + Pads(|bytes|, pad)
  {
    var t, bytes := TrimEnd(s), Decoded(s).value;
    var vs := Values(t);
    var k := |Pads(|bytes|, pad)|;
    assert Pads(|bytes|, pad) == seq(k, _ => '=');
    SextetsOfBytes(vs);
    LettersOfValues(t, alphabet);
    ValuesOfLetters(Sextets(bytes), alphabet);
    TrimPads(Letters(Sextets(bytes), alphabet), k);
    hide Val, Sextets, BytesOf, Canonical, TrimEnd, Pads, AllLetters;
    if Encoded(bytes, alphabet, pad) == s {
      assert t == Letters(Sextets(bytes), alphabet);
      assert Sextets(bytes) == vs;
    }
  }

  // ---- Decoding as RFC 4648 describes it ----

  /**
   Letters of either alphabet, not one more than a multiple of four, and then any number of `=`; the bytes
   are the whole eights of the letters' bits.
   */
  ghost predicate IsDecoding(s: string, bytes: seq<bv8>) {
    exists vs: seq<Sextet> :: Spell(vs, s) && |vs| % 4 != 1 && AreEights(bytes, vs)
  }

  predicate Spell(vs: seq<Sextet>, s: string) {
    && |vs| <= |s|
    && (forall i | 0 <= i < |vs| :: s[i] == STD[vs[i] as int] || s[i] == URL[vs[i] as int])
    && (forall i | |vs| <= i < |s| :: s[i] == '=')
  }

  predicate AreEights(bytes: seq<bv8>, vs: seq<Sextet>) {
    |bytes| == 6 * |vs| / 8 && BytesBitString(bytes) <= SextetsBitString(vs)
  }

  lemma LetterOf(c: char)
    requires Val(c).Some?
    ensures c == STD[Val(c).value as int] || c == URL[Val(c).value as int]
  {
    if 'A' <= c <= 'Z' || 'a' <= c <= 'z' || '0' <= c <= '9' {
      PlainLetterOf(c);
    } else {
      LastLetters();
    }
  }

  lemma PlainLetterOf(c: char)
    requires 'A' <= c <= 'Z' || 'a' <= c <= 'z' || '0' <= c <= '9'
    ensures Val(c).Some? && STD[Val(c).value as int] == c
  {
    hide STD;
    if 'A' <= c <= 'Z' {
      LetterRange(UPPER, 'A', c as int - 'A' as int);
      LetterOfIndex(c, c as int - 'A' as int);
    } else if 'a' <= c <= 'z' {
      LetterRange(LOWER, 'a', c as int - 'a' as int);
      LetterOfIndex(c, c as int - 'a' as int + 26);
    } else {
      LetterRange(DIGITS, '0', c as int - '0' as int);
      LetterOfIndex(c, c as int - '0' as int + 52);
    }
  }

  lemma LastLetters()
    ensures STD[62] == '+' && URL[62] == '-' && STD[63] == '/' && URL[63] == '_'
  {
    IndexConcat(UPPER, LOWER, DIGITS, "+/", 62);
    IndexConcat(UPPER, LOWER, DIGITS, "+/", 63);
    IndexConcat(UPPER, LOWER, DIGITS, "-_", 62);
    IndexConcat(UPPER, LOWER, DIGITS, "-_", 63);
  }

  lemma LetterOfIndex(c: char, i: nat)
    requires i < 62 && c == if i < 26 then UPPER[i] else if i < 52 then LOWER[i - 26] else DIGITS[i - 52]
    ensures STD[(i as bv6) as int] == c
  {
    LetterAt(i);
    SextetIndex(i);
    hide *;
  }

  lemma {:induction false} TrimmedIs(s: string, t: string)
    requires t <= s && (t == "" || t[|t| - 1] != '=') && forall i | |t| <= i < |s| :: s[i] == '='
    ensures TrimEnd(s) == t
  {
    var k := |s| - |t|;
    assert s == t + seq(k, _ => '=');
    TrimPads(t, k);
  }

  lemma {:induction false} TrimEndIs(s: string)
    ensures forall i | |TrimEnd(s)| <= i < |s| :: s[i] == '='
  {
    if s != "" && s[|s| - 1] == '=' {
      TrimEndIs(s[..|s| - 1]);
    }
  }

  /** Which sextets a text spells is what the decoder reads from it. */
  lemma SpellIs(s: string, vs: seq<Sextet>)
    ensures Spell(vs, s) <==> AllLetters(TrimEnd(s)) && Values(TrimEnd(s)) == vs
  {
    var t := TrimEnd(s);
    TrimEndIs(s);
    if Spell(vs, s) {
      forall i | 0 <= i < |vs|
        ensures Val(s[i]) == Some(vs[i]) && s[i] != '='
      {
        LetterValue(vs[i]);
      }
      TrimmedIs(s, s[..|vs|]);
    } else if AllLetters(t) && Values(t) == vs {
      forall i | 0 <= i < |vs|
        ensures s[i] == STD[vs[i] as int] || s[i] == URL[vs[i] as int]
      {
        LetterOf(t[i]);
      }
    }
  }

  lemma BitsOfOne(v0: Sextet, v1: Sextet)
    ensures ByteBits(B0(v0, v1)) == SextetBits(v0) + SextetBits(v1)[..2]
  {
    ByteOfTwo(v0, v1);
    SixAndTwo(B0(v0, v1), SextetBits(v0), SextetBits(v1));
  }

  lemma SixAndTwo(b: bv8, x: seq<bool>, y: seq<bool>)
    requires |x| == 6 && |y| == 6 && ByteBits(b) == [x[0], x[1], x[2], x[3], x[4], x[5], y[0], y[1]]
    ensures ByteBits(b) == x + y[..2]
  {
  }

  lemma ByteOfTwo(v0: Sextet, v1: Sextet)
    ensures var b := B0(v0, v1);
            && (b & 0x80 != 0 <==> v0 & 0x20 != 0) && (b & 0x40 != 0 <==> v0 & 0x10 != 0)
            && (b & 0x20 != 0 <==> v0 & 0x08 != 0) && (b & 0x10 != 0 <==> v0 & 0x04 != 0)
            && (b & 0x08 != 0 <==> v0 & 0x02 != 0) && (b & 0x04 != 0 <==> v0 & 0x01 != 0)
            && (b & 0x02 != 0 <==> v1 & 0x20 != 0) && (b & 0x01 != 0 <==> v1 & 0x10 != 0)
  {
  }

  /** The bytes of a group are the first whole eights of its bits. */
  lemma GroupEights(vs: seq<Sextet>)
    requires 2 <= |vs| <= 4
    ensures AreEights(GroupBytes(vs), vs)
  {
    if |vs| == 4 {
      SextetsOfFour(vs);
      SameBitString(GroupBytes(vs));
    } else if |vs| == 3 {
      var bytes := GroupBytes(vs);
      TwoOfThree(vs[0], vs[1], vs[2]);
      assert vs == [vs[0], vs[1], vs[2]] && bytes == [B0(vs[0], vs[1]), B1(vs[1], vs[2])];
    } else {
      OneOfTwo(vs[0], vs[1]);
      assert vs == [vs[0], vs[1]];
    }
  }

  lemma OneOfTwo(v0: Sextet, v1: Sextet)
    ensures BytesBitString([B0(v0, v1)]) <= SextetsBitString([v0, v1])
  {
    BitsOfOne(v0, v1);
    UnfoldSextets(v0, v1, 0);
    UnfoldBytes(B0(v0, v1), 0);
    PrefixOfTwo(SextetBits(v0), SextetBits(v1));
    hide ByteBits, SextetBits, BytesBitString, SextetsBitString, B0;
  }

  /** As `OneOfTwo`; the two bytes are the first two of a full group. */
  lemma TwoOfThree(v0: Sextet, v1: Sextet, v2: Sextet)
    ensures BytesBitString([B0(v0, v1), B1(v1, v2)]) <= SextetsBitString([v0, v1, v2])
  {
    var b0, b1, b2 := B0(v0, v1), B1(v1, v2), B2(v2, 0);
    SextetsBack(v0, v1, v2, 0);
    RegroupBits(b0, b1, b2);
    UnfoldSextets(v0, v1, v2);
    UnfoldBytes(b0, b1);
    PrefixOfThree(ByteBits(b0), ByteBits(b1), ByteBits(b2));
    hide ByteBits, SextetBits, BytesBitString, SextetsBitString, B0, B1, B2;
  }

  lemma PrefixOfTwo(x: seq<bool>, y: seq<bool>)
    requires |y| >= 2
    ensures x + y[..2] <= x + y
  {
  }

  lemma PrefixOfThree(x: seq<bool>, y: seq<bool>, z: seq<bool>)
    requires |x| >= 6 && |y| >= 4 && |z| >= 2
    ensures x + y <= x[..6] + (x[6..] + y[..4]) + (y[4..] + z[..2])
  {
  }

  lemma {:induction false} BitCounts(bytes: seq<bv8>, vs: seq<Sextet>)
    ensures |BytesBitString(bytes)| == 8 * |bytes|
    ensures |SextetsBitString(vs)| == 6 * |vs|
    decreases |bytes| + |vs|
  {
    if bytes != [] {
      BitCounts(bytes[1..], []);
    }
    if vs != [] {
      BitCounts([], vs[1..]);
    }
  }

  lemma {:induction false} BitsAppend(a: seq<bv8>, b: seq<bv8>)
    ensures BytesBitString(a + b) == BytesBitString(a) + BytesBitString(b)
  {
    if a == [] {
      assert a + b == b;
    } else {
      assert (a + b)[1..] == a[1..] + b;
      BitsAppend(a[1..], b);
    }
  }

  lemma {:induction false} SextetBitsAppend(a: seq<Sextet>, b: seq<Sextet>)
    ensures SextetsBitString(a + b) == SextetsBitString(a) + SextetsBitString(b)
  {
    if a == [] {
      assert a + b == b;
    } else {
      assert (a + b)[1..] == a[1..] + b;
      SextetBitsAppend(a[1..], b);
    }
  }

  lemma {:induction false} BytesAreEights(vs: seq<Sextet>)
    requires |vs| % 4 != 1
    ensures AreEights(BytesOf(vs), vs)
    decreases |vs|
  {
    hide SextetsBitString, BytesBitString, GroupBytes;
    if vs == [] {
      BitCounts([], []);
    } else if |vs| < 4 {
      GroupEights(vs);
    } else {
      var head, tail := vs[..4], vs[4..];
      assert vs == head + tail;
      GroupEights(head);
      BytesAreEights(tail);
      BitsAppend(GroupBytes(head), BytesOf(tail));
      SextetBitsAppend(head, tail);
      BitCounts(GroupBytes(head), head);
    }
  }

  lemma ByteOfBits(a: bv8, b: bv8)
    requires ByteBits(a) == ByteBits(b)
    ensures a == b
  {
    SameBits(a, b);
    assert forall k | 0 <= k < 8 :: ByteBits(a)[k] == ByteBits(b)[k];
  }

  lemma SameBits(a: bv8, b: bv8)
    ensures (&& (a & 0x80 != 0 <==> b & 0x80 != 0) && (a & 0x40 != 0 <==> b & 0x40 != 0)
             && (a & 0x20 != 0 <==> b & 0x20 != 0) && (a & 0x10 != 0 <==> b & 0x10 != 0)
             && (a & 0x08 != 0 <==> b & 0x08 != 0) && (a & 0x04 != 0 <==> b & 0x04 != 0)
             && (a & 0x02 != 0 <==> b & 0x02 != 0) && (a & 0x01 != 0 <==> b & 0x01 != 0)) ==> a == b
  {
  }

  lemma {:induction false} BytesOfBits(a: seq<bv8>, b: seq<bv8>)
    requires |a| == |b| && BytesBitString(a) == BytesBitString(b)
    ensures a == b
  {
    if a != [] {
      var x, y := BytesBitString(a), BytesBitString(b);
      assert x[..8] == ByteBits(a[0]) && y[..8] == ByteBits(b[0]);
      assert x[8..] == BytesBitString(a[1..]) && y[8..] == BytesBitString(b[1..]);
      ByteOfBits(a[0], b[0]);
      BytesOfBits(a[1..], b[1..]);
    }
    hide ByteBits;
  }

  lemma SameEights(a: seq<bv8>, b: seq<bv8>, vs: seq<Sextet>)
    requires AreEights(a, vs) && AreEights(b, vs)
    ensures a == b
  {
    hide BytesBitString, SextetsBitString;
    BitCounts(a, vs);
    BitCounts(b, vs);
    assert BytesBitString(a) == SextetsBitString(vs)[..8 * |a|] == BytesBitString(b);
    BytesOfBits(a, b);
  }

  /** A text decodes to these bytes if and only if it is an encoding of them, padded anyhow, by RFC 4648. */
  lemma DecodedIff(s: string, bytes: seq<bv8>)
    ensures Decoded(s) == Some(bytes) <==> IsDecoding(s, bytes)
  {
    hide Spell, AllLetters, TrimEnd, Values, BytesOf, BytesBitString, SextetsBitString;
    var t := TrimEnd(s);
    if AllLetters(t) && |t| % 4 != 1 {
      SpellIs(s, Values(t));
      BytesAreEights(Values(t));
    }
    if IsDecoding(s, bytes) {
      var vs: seq<Sextet> :| Spell(vs, s) && |vs| % 4 != 1 && AreEights(bytes, vs);
      SpellIs(s, vs);
      BytesAreEights(vs);
      SameEights(bytes, BytesOf(vs), vs);
    }
  }

  /** An encoding has four letters to three bytes, padded, and otherwise as few as hold the bits. */
  lemma EncodedLength(bytes: seq<bv8>, alphabet: string, pad: bool)
    requires |alphabet| == 64
    ensures |Encoded(bytes, alphabet, pad)| == if pad then (|bytes| + 2) / 3 * 4 else (8 * |bytes| + 5) / 6
  {
    SextetCount(bytes);
    hide Sextets;
    PadCount(|bytes|, pad);
  }

  lemma {:induction false} SextetCount(bytes: seq<bv8>)
    ensures |Sextets(bytes)| == (8 * |bytes| + 5) / 6
    decreases |bytes|
  {
    if |bytes| >= 3 {
      SextetCount(bytes[3..]);
    }
  }

  lemma PadCount(len: nat, pad: bool)
    ensures (8 * len + 5) / 6 + |Pads(len, pad)| == if pad then (len + 2) / 3 * 4 else (8 * len + 5) / 6
  {
    var q, r := len / 3, len % 3;
    assert len == 3 * q + r;
    assert (8 * len + 5) / 6 == 4 * q + (8 * r + 5) / 6 && (len + 2) / 3 == q + (r + 2) / 3;
    assert r == 0 || r == 1 || r == 2;
  }
}
