/**
 Streaming SHA-256 (FIPS 180-4) and HMAC (RFC 2104), as `backend/src/crypto.rs`
 computes them.

 The compression function is a value `c`: every result below holds for every
 function from a chaining value and a block to a chaining value, the real one
 included.
 */
module Sha256 {
  import opened Bits

  type State = s: seq<u32> | |s| == 8 witness [0, 0, 0, 0, 0, 0, 0, 0]
  type Block = b: seq<byte> | |b| == 64 witness seq(64, _ => 0)
  type Compress = (State, Block) -> State

  const H0: State := [
    0x6a09e667, 0xbb67ae85, 0x3c6ef372, 0xa54ff53a, 0x510e527f, 0x9b05688c, 0x1f83d9ab, 0x5be0cd19
  ]

  // ---- Specification: section 5.1.1, 5.2.1 and 6.2.2 of FIPS 180-4 ----

  /** Fold the compression function over the whole blocks of `m`, ignoring a partial last one. */
  function Fold(c: Compress, st: State, m: seq<byte>): State
    decreases |m|
  {
    if |m| < 64 then st else Fold(c, c(st, m[..64]), m[64..])
  }

  function Zeros(k: nat): (s: seq<byte>)
    ensures |s| == k
  {
    seq(k, _ => 0)
  }

  /** After 0x80 and `k` zero bytes, exactly the 8-byte length field is missing from the block. */
  predicate LeavesRoomForLength(len: nat, k: nat) {
    (len + 1 + k) % 64 == 56
  }

  /** The number of zero bytes after 0x80: the smallest that fits. */
  function ZeroCount(len: nat): nat {
    (119 - len % 64) % 64
  }

  lemma ZeroCountIsLeast(len: nat)
    ensures LeavesRoomForLength(len, ZeroCount(len))
    ensures forall j: nat :: LeavesRoomForLength(len, j) ==> ZeroCount(len) <= j
  {
  }

  /** The suffix FIPS 180-4 appends to a message of `len` bytes; its length field has 64 bits. */
  function Padding(len: nat): seq<byte> {
    [0x80] + Zeros(ZeroCount(len)) + BigEndian(8 * len, 8)
  }

  function Output(st: State): (s: seq<byte>)
    ensures |s| == 32
  {
    var p := seq(8, i requires 0 <= i < 8 => BigEndian(st[i], 4));
    p[0] + p[1] + p[2] + p[3] + p[4] + p[5] + p[6] + p[7]
  }

  function Digest(c: Compress, m: seq<byte>): (s: seq<byte>)
    ensures |s| == 32
  {
    Output(Fold(c, H0, m + Padding(|m|)))
  }

  lemma PaddingTail(len: nat)
    ensures var p := Padding(len);
            |p| >= 8 && p[|p| - 8..] == BigEndian(8 * len, 8)
  {
  }

  /** The length field says the true bit length exactly for messages under 2^61 bytes. */
  lemma LengthFieldIsExact(len: nat)
    ensures var p := Padding(len);
            FromBigEndian(p[|p| - 8..]) == 8 * len <==> len < 0x2000_0000_0000_0000
  {
    PaddingTail(len);
    hide Padding, BigEndian, FromBigEndian;
    BigEndianRoundTrip(8 * len, 8);
    assert Pow256(8) == TWO_64 by { assert Pow256(4) == 0x1_0000_0000; }
  }

  lemma Ends(a: seq<byte>, b: seq<byte>)
    requires |b| >= 8
    ensures (a + b)[..|a|] == a && (a + b)[|a + b| - 8..] == b[|b| - 8..]
  {
  }

  /** Two messages of representable length never pad to the same blocks. */
  lemma PaddingIsInjective(m: seq<byte>, n: seq<byte>)
    requires |m| < 0x2000_0000_0000_0000 && |n| < 0x2000_0000_0000_0000
    requires m + Padding(|m|) == n + Padding(|n|)
    ensures m == n
  {
    hide Padding, BigEndian, FromBigEndian;
    var p, q := Padding(|m|), Padding(|n|);
    PaddingTail(|m|);
    PaddingTail(|n|);
    Ends(m, p);
    Ends(n, q);
    assert p[|p| - 8..] == q[|q| - 8..];
    LengthFieldIsExact(|m|);
    LengthFieldIsExact(|n|);
    assert |m| == |n|;
  }

  /** Splitting at a block boundary splits the fold. */
  lemma {:induction false} FoldSplit(c: Compress, st: State, m: seq<byte>, n: seq<byte>)
    requires |m| % 64 == 0
    ensures Fold(c, st, m + n) == Fold(c, Fold(c, st, m), n)
    decreases |m|
  {
    if m == [] {
      assert m + n == n;
    } else {
      assert (m + n)[..64] == m[..64];
      assert (m + n)[64..] == m[64..] + n;
      FoldSplit(c, c(st, m[..64]), m[64..], n);
    }
  }

  /** Folding one block more. */
  lemma FoldBlock(c: Compress, m: seq<byte>, b: Block)
    requires |m| % 64 == 0
    ensures Fold(c, H0, m + b) == c(Fold(c, H0, m), b)
  {
    FoldSplit(c, H0, m, b);
    assert b[..64] == b;
  }

  // ---- The digest as FIPS 180-4 describes it ----

  const WORD: nat := 0x1_0000_0000

  /** `x` is the integer part of the prime's square root times 2^32. */
  predicate IsRootOf(x: nat, prime: nat) {
    x * x <= prime * TWO_64 < (x + 1) * (x + 1)
  }

  /** The initial value holds the first 32 bits of the fractional parts of the first eight primes' square roots. */
  lemma InitialValueIsRoots()
    ensures IsRootOf(1 * WORD + H0[0], 2) && IsRootOf(1 * WORD + H0[1], 3)
    ensures IsRootOf(2 * WORD + H0[2], 5) && IsRootOf(2 * WORD + H0[3], 7)
    ensures IsRootOf(3 * WORD + H0[4], 11) && IsRootOf(3 * WORD + H0[5], 13)
    ensures IsRootOf(4 * WORD + H0[6], 17) && IsRootOf(4 * WORD + H0[7], 19)
  {
  }

  /** The message, 0x80, as few zeros as reach a block's end, and the length in bits as a 64-bit number. */
  ghost predicate IsPadded(m: seq<byte>, p: seq<byte>) {
    && |m| + 9 <= |p| < |m| + 73 && |p| % 64 == 0
    && p[..|m|] == m && p[|m|] == 0x80 && (forall i | |m| < i < |p| - 8 :: p[i] == 0)
    && FromBigEndian(p[|p| - 8..]) == 8 * |m| % TWO_64
  }

  /** The chaining values over the blocks of `p`. */
  ghost predicate IsChain(c: Compress, p: seq<byte>, chain: seq<State>) {
    && 64 * |chain| == |p| + 64 && chain[0] == H0
    && forall i: nat | i < |chain| - 1 :: Link(c, p, chain, i)
  }

  ghost predicate Link(c: Compress, p: seq<byte>, chain: seq<State>, i: nat)
    requires i + 1 < |chain| && 64 * i + 64 <= |p|
  {
    chain[i + 1] == c(chain[i], p[64 * i..64 * i + 64])
  }

  /** Word `i` of the last chaining value stands at bytes `4 * i` to `4 * i + 3`, most significant first. */
  ghost predicate Spells(st: State, out: seq<byte>) {
    |out| == 32 && forall i | 0 <= i < 8 :: FromBigEndian(out[4 * i..4 * i + 4]) == st[i]
  }

  /** Some chain over `p` ends in the value that `out` spells. */
  ghost predicate IsHashOf(c: Compress, p: seq<byte>, out: seq<byte>) {
    exists chain :: IsChain(c, p, chain) && Spells(chain[|chain| - 1], out)
  }

  ghost predicate IsDigest(c: Compress, m: seq<byte>, out: seq<byte>) {
    exists p :: IsPadded(m, p) && IsHashOf(c, p, out)
  }

  lemma StandardIsPadded(m: seq<byte>)
    ensures IsPadded(m, m + Padding(|m|))
  {
    var p := m + Padding(|m|);
    PaddedLength(|m|);
    PaddingTail(|m|);
    Ends(m, Padding(|m|));
    BigEndianRoundTrip(8 * |m|, 8);
    assert Pow256(8) == TWO_64 by { assert Pow256(4) == 0x1_0000_0000; }
    assert Padding(|m|)[0] == 0x80;
    forall i | |m| < i < |p| - 8
      ensures p[i] == 0
    {
      assert p[i] == Padding(|m|)[i - |m|] == Zeros(ZeroCount(|m|))[i - |m| - 1];
    }
    hide BigEndian, FromBigEndian, Pow256;
  }

  lemma SameSuffix(a: seq<byte>, b: seq<byte>)
    requires |a| == |b| && FromBigEndian(a) == FromBigEndian(b)
    ensures a == b
  {
    BigEndianBack(a);
    BigEndianBack(b);
  }

  lemma PaddedIsUnique(m: seq<byte>, p: seq<byte>, q: seq<byte>)
    requires IsPadded(m, p) && IsPadded(m, q)
    ensures p == q
  {
    hide FromBigEndian;
    SameLength(|p|, |q|, |m|);
    SameSuffix(p[|p| - 8..], q[|q| - 8..]);
    forall i | 0 <= i < |p|
      ensures p[i] == q[i]
    {
      if i < |m| {
        assert p[i] == p[..|m|][i] && q[i] == q[..|m|][i];
      } else if i >= |p| - 8 {
        assert p[i] == p[|p| - 8..][i - (|p| - 8)] && q[i] == q[|q| - 8..][i - (|q| - 8)];
      }
    }
  }

  lemma SameLength(a: nat, b: nat, len: nat)
    requires a % 64 == 0 && b % 64 == 0 && len + 9 <= a < len + 73 && len + 9 <= b < len + 73
    ensures a == b
  {
  }

  /** The fold is the last chaining value. */
  lemma {:induction false} FoldIsChain(c: Compress, p: seq<byte>, chain: seq<State>, k: nat)
    requires IsChain(c, p, chain) && k < |chain|
    ensures Fold(c, H0, p[..64 * k]) == chain[k]
  {
    if k > 0 {
      FoldIsChain(c, p, chain, k - 1);
      var b: Block := p[64 * (k - 1)..64 * k];
      assert p[..64 * k] == p[..64 * (k - 1)] + b;
      FoldBlock(c, p[..64 * (k - 1)], b);
      assert Link(c, p, chain, k - 1);
    } else {
      assert p[..0] == [];
    }
    hide Fold;
  }

  lemma BlockOfPrefix(p: seq<byte>, k: nat, i: nat)
    requires i < k && 64 * k <= |p|
    ensures |p[..64 * k]| == 64 * k && |p[64 * i..64 * i + 64]| == 64
    ensures p[..64 * k][64 * i..64 * i + 64] == p[64 * i..64 * i + 64]
  {
  }

  lemma {:induction false} ChainOf(c: Compress, p: seq<byte>, k: nat) returns (chain: seq<State>)
    requires 64 * k <= |p|
    ensures IsChain(c, p[..64 * k], chain)
  {
    if k == 0 {
      chain := [H0];
    } else {
      var before := ChainOf(c, p, k - 1);
      chain := before + [c(before[k - 1], p[64 * (k - 1)..64 * k])];
      forall i | 0 <= i < k
        ensures Link(c, p[..64 * k], chain, i)
      {
        BlockOfPrefix(p, k, i);
        if i < k - 1 {
          BlockOfPrefix(p, k - 1, i);
          assert Link(c, p[..64 * (k - 1)], before, i);
        }
      }
    }
  }

  lemma OutputSpells(st: State, out: seq<byte>)
    ensures Spells(st, out) <==> out == Output(st)
  {
    hide BigEndian, FromBigEndian;
    forall i | 0 <= i < 8
      ensures FromBigEndian(BigEndian(st[i], 4)) == st[i]
    {
      BigEndianRoundTrip(st[i], 4);
      assert Pow256(4) == 0x1_0000_0000;
    }
    WordsOfOutput(st);
    if Spells(st, out) {
      forall i | 0 <= i < 8
        ensures out[4 * i..4 * i + 4] == Output(st)[4 * i..4 * i + 4]
      {
        SameSuffix(out[4 * i..4 * i + 4], BigEndian(st[i], 4));
      }
      SameWords(out, Output(st));
    }
  }

  lemma WordsOfOutput(st: State)
    ensures forall i | 0 <= i < 8 :: Output(st)[4 * i..4 * i + 4] == BigEndian(st[i], 4)
  {
  }

  lemma SameWords(a: seq<byte>, b: seq<byte>)
    requires |a| == |b| == 32 && forall i | 0 <= i < 8 :: a[4 * i..4 * i + 4] == b[4 * i..4 * i + 4]
    ensures a == b
  {
    forall k | 0 <= k < 32
      ensures a[k] == b[k]
    {
      var i, j := k / 4, k % 4;
      assert a[4 * i..4 * i + 4][j] == b[4 * i..4 * i + 4][j];
    }
  }

  lemma HashOfBlocks(c: Compress, p: seq<byte>, out: seq<byte>)
    requires |p| % 64 == 0
    ensures IsHashOf(c, p, out) <==> out == Output(Fold(c, H0, p))
  {
    hide Spells, Output, Fold, Link;
    var k := |p| / 64;
    WholeOf(p);
    if IsHashOf(c, p, out) {
      var chain :| IsChain(c, p, chain) && Spells(chain[|chain| - 1], out);
      FoldIsChain(c, p, chain, k);
      OutputSpells(chain[k], out);
    } else if out == Output(Fold(c, H0, p)) {
      var chain := ChainOf(c, p, k);
      FoldIsChain(c, p, chain, k);
      OutputSpells(chain[k], out);
    }
  }

  lemma WholeOf(p: seq<byte>)
    requires |p| % 64 == 0
    ensures |p| == 64 * (|p| / 64) && p[..64 * (|p| / 64)] == p
  {
  }

  /** The digest is what the standard describes, and nothing else is. */
  lemma DigestIs(c: Compress, m: seq<byte>, out: seq<byte>)
    ensures IsDigest(c, m, out) <==> out == Digest(c, m)
  {
    hide IsHashOf, Padding, Output, Fold;
    var p := m + Padding(|m|);
    StandardIsPadded(m);
    HashOfBlocks(c, p, out);
    if IsDigest(c, m, out) {
      var q :| IsPadded(m, q) && IsHashOf(c, q, out);
      PaddedIsUnique(m, p, q);
    }
    hide IsPadded;
  }

  // ---- The streaming hasher ----

  class Hasher {
    const c: Compress
    var state: State
    const buf: array<byte>
    var bufLen: nat
    var totalLen: nat

    /** Every byte absorbed so far; `blocks` is the part already folded into `state`. */
    ghost var blocks: seq<byte>

    ghost predicate Valid()
      reads this, buf
    {
      && buf.Length == 64
      && bufLen < 64
      && totalLen < TWO_64
      && |blocks| % 64 == 0
      && state == Fold(c, H0, blocks)
    }

    ghost function Absorbed(): seq<byte>
      requires Valid()
      reads this, buf
    {
      blocks + buf[..bufLen]
    }

    /** The byte counter is right, modulo its 64-bit width. */
    ghost predicate Counted()
      requires Valid()
      reads this, buf
    {
      totalLen == |Absorbed()| % TWO_64
    }

    constructor (c: Compress)
      ensures Valid() && Counted() && fresh(buf)
      ensures this.c == c && Absorbed() == []
    {
      this.c := c;
      state := H0;
      buf := new byte[64](_ => 0);
      bufLen := 0;
      totalLen := 0;
      blocks := [];
    }

    /** `compress(&mut self.state, &block)`. */
    method CompressBlock(block: Block)
      requires Valid()
      modifies this`state, this`blocks
      ensures Valid()
      ensures blocks == old(blocks) + block
    {
      FoldBlock(c, blocks, block);
      state := c(state, block);
      blocks := blocks + block;
    }

    method Update(data: seq<byte>)
      requires Valid()
      modifies this, buf
      ensures Valid()
      ensures Absorbed() == old(Absorbed()) + data
      ensures old(Counted()) ==> Counted()
    {
      hide Fold;
      ghost var target := Absorbed() + data;
      WrappingAdd(|Absorbed()|, |data|);
      totalLen := (totalLen + |data|) % TWO_64;
      var rest := data;
      if bufLen > 0 {
        rest := TopUp(data);
      }
      assert bufLen == 0 ==> blocks + rest == target by {
        if bufLen == 0 { assert Absorbed() == blocks; }
      }
      while |rest| >= 64
        invariant Valid()
        invariant bufLen > 0 ==> rest == [] && Absorbed() == target
        invariant bufLen == 0 ==> blocks + rest == target
        modifies this`state, this`blocks
        decreases |rest|
      {
        var block: Block := rest[..64];
        assert rest == block + rest[64..];
        assert (blocks + block) + rest[64..] == blocks + rest;
        CompressBlock(block);
        rest := rest[64..];
      }
      if rest != [] {
        forall i | 0 <= i < |rest| { buf[i] := rest[i]; }
        bufLen := |rest|;
        assert buf[..bufLen] == rest;
      } else if bufLen == 0 {
        assert Absorbed() == blocks + rest;
      }
    }

    /** The first branch of `update`: fill the partial block, compress it when full. */
    method TopUp(data: seq<byte>) returns (rest: seq<byte>)
      requires Valid() && bufLen > 0
      modifies this`state, this`bufLen, this`blocks, buf
      ensures Valid()
      ensures bufLen > 0 ==> rest == []
      ensures Absorbed() + rest == old(Absorbed()) + data
    {
      hide Fold;
      var take := Min(|data|, 64 - bufLen);
      ghost var before := buf[..bufLen];
      forall i | bufLen <= i < bufLen + take { buf[i] := data[i - bufLen]; }
      assert buf[..bufLen + take] == before + data[..take];
      bufLen := bufLen + take;
      rest := data[take..];
      AppendSplit(blocks, before, data, take);
      if bufLen == 64 {
        var block: Block := buf[..];
        assert block == before + data[..take];
        bufLen := 0;
        CompressBlock(block);
        assert Absorbed() == blocks;
      }
    }

    /** Pads and returns the digest; the hasher must not be used afterwards. */
    method Finalize() returns (out: seq<byte>)
      requires Valid() && Counted()
      modifies this, buf
      ensures out == Digest(c, old(Absorbed())) && IsDigest(c, old(Absorbed()), out)
    {
      hide Fold, BigEndian, Padding, ZeroCount, Zeros, Output;
      ghost var m := Absorbed();
      BufferedLength(|blocks|, bufLen);
      var bitLen := totalLen * 8 % TWO_64;
      var padLen := if bufLen < 56 then 56 - bufLen else 120 - bufLen;
      var padding := [0x80] + Zeros(padLen - 1) + BigEndian(bitLen, 8);
      PaddingMatches(|m|, bufLen, totalLen);
      totalLen := 0;
      Update(padding);
      WholeBlocks(blocks, buf[..bufLen], |m|);
      out := Output(state);
      DigestIs(c, m, out);
      hide IsDigest;
    }
  }

  lemma BufferedLength(whole: nat, partial: nat)
    requires whole % 64 == 0 && partial < 64
    ensures (whole + partial) % 64 == partial
  {
  }

  lemma WrappingAdd(a: nat, b: nat)
    ensures (a % TWO_64 + b) % TWO_64 == (a + b) % TWO_64
  {
    var q, r := a / TWO_64, a % TWO_64;
    DivModUnique(a + b, TWO_64, q + (r + b) / TWO_64, (r + b) % TWO_64);
  }

  lemma AppendSplit(a: seq<byte>, b: seq<byte>, data: seq<byte>, k: nat)
    requires k <= |data|
    ensures a + (b + data[..k]) + data[k..] == a + b + data
  {
    assert data == data[..k] + data[k..];
  }

  /** Nothing is left buffered once the padding is absorbed. */
  lemma PaddedLength(len: nat)
    ensures |Padding(len)| >= 9 && (len + |Padding(len)|) % 64 == 0
  {
    EightMore(len + 1 + ZeroCount(len));
    assert |Padding(len)| == 1 + ZeroCount(len) + 8;
    ZeroCountIsLeast(len);
    hide ZeroCount;
  }

  lemma EightMore(n: nat)
    ensures n % 64 == 56 ==> (n + 8) % 64 == 0
  {
  }

  lemma WholeBlocks(blocks: seq<byte>, partial: seq<byte>, len: nat)
    requires |blocks| % 64 == 0 && |partial| < 64
    requires |blocks + partial| == len + |Padding(len)|
    ensures partial == [] && blocks + partial == blocks
  {
    PaddedLength(len);
  }

  /** What `finalize` appends, from the buffered length and the wrapped byte count, is the standard padding. */
  lemma PaddingMatches(len: nat, bufLen: nat, totalLen: nat)
    requires bufLen == len % 64 && totalLen == len % TWO_64
    ensures [0x80] + Zeros((if bufLen < 56 then 56 - bufLen else 120 - bufLen) - 1)
              + BigEndian(totalLen * 8 % TWO_64, 8) == Padding(len)
  {
    BitLengthWraps(len);
    BigEndianTruncates(totalLen * 8 % TWO_64, 8 * len, 8);
    ZeroCountMatches(len);
  }

  lemma ZeroCountMatches(len: nat)
    ensures var b := len % 64;
            (if b < 56 then 56 - b else 120 - b) - 1 == ZeroCount(len)
  {
  }

  lemma BitLengthWraps(len: nat)
    ensures ((len % TWO_64) * 8 % TWO_64) % Pow256(8) == 8 * len % Pow256(8)
  {
    assert Pow256(8) == TWO_64 by { assert Pow256(4) == 0x1_0000_0000; }
    var q, r := len / TWO_64, len % TWO_64;
    DivModUnique(8 * len, TWO_64, 8 * q + 8 * r / TWO_64, 8 * r % TWO_64);
  }

  lemma {:induction false} BigEndianTruncates(a: nat, b: nat, k: nat)
    requires a % Pow256(k) == b % Pow256(k)
    ensures BigEndian(a, k) == BigEndian(b, k)
  {
    if k > 0 {
      ModTimes256(a, Pow256(k - 1));
      ModTimes256(b, Pow256(k - 1));
      BigEndianTruncates(a / 256, b / 256, k - 1);
    }
  }

  // ---- Digests of several parts ----

  method DigestOf(c: Compress, data: seq<byte>) returns (out: seq<byte>)
    ensures out == Digest(c, data)
  {
    var h := new Hasher(c);
    h.Update(data);
    assert h.Absorbed() == data;
    out := h.Finalize();
  }

  /** However a message is cut into updates, the digest is that of the whole message. */
  method DigestOfParts(c: Compress, parts: seq<seq<byte>>) returns (out: seq<byte>)
    ensures out == Digest(c, Concat(parts)) && IsDigest(c, Concat(parts), out)
  {
    var h := new Hasher(c);
    for i := 0 to |parts|
      invariant fresh(h) && fresh(h.buf) && h.Valid() && h.Counted() && h.c == c
      invariant h.Absorbed() == Concat(parts[..i])
    {
      assert parts[..i + 1] == parts[..i] + [parts[i]];
      ConcatSnoc(parts[..i], parts[i]);
      h.Update(parts[i]);
    }
    assert parts[..|parts|] == parts;
    out := h.Finalize();
  }

  // ---- HMAC ----

  /** Section 2 of RFC 2104: the key zero-padded to a block, after hashing it when longer than one. */
  function HmacKey(c: Compress, key: seq<byte>): Block {
    var k := if |key| > 64 then Digest(c, key) else key;
    k + Zeros(64 - |k|)
  }

  function XorPad(k: Block, pad: byte): Block {
    seq(64, i requires 0 <= i < 64 => XorByte(pad, k[i]))
  }

  /** H(K XOR opad, H(K XOR ipad, text)). */
  function Hmac(c: Compress, key: seq<byte>, text: seq<byte>): (tag: seq<byte>)
    ensures |tag| == 32
  {
    var k := HmacKey(c, key);
    Digest(c, XorPad(k, 0x5c) + Digest(c, XorPad(k, 0x36) + text))
  }

  /** The key filled up to a block with zeros, hashed first if it is longer than one. */
  ghost predicate IsKeyBlock(c: Compress, key: seq<byte>, k: seq<byte>) {
    && |k| == 64
    && exists n: nat ::
         && n <= 64 && (forall i | n <= i < 64 :: k[i] == 0)
         && if |key| > 64 then n == 32 && IsDigest(c, key, k[..n]) else n == |key| && k[..n] == key
  }

  /** Every byte of the block, combined bit by bit with `b`. */
  ghost predicate IsPad(k: seq<byte>, b: byte, pad: seq<byte>) {
    |pad| == |k| && forall i, j: nat | 0 <= i < |k| :: Bit(pad[i], j) <==> Bit(b, j) != Bit(k[i], j)
  }

  /** Section 2 of RFC 2104: the inner hash over the key with ipad, the outer over the key with opad. */
  ghost predicate IsHmac(c: Compress, key: seq<byte>, text: seq<byte>, tag: seq<byte>) {
    exists k, ipad, opad, inner ::
      && IsKeyBlock(c, key, k) && IsPad(k, 0x36, ipad) && IsPad(k, 0x5c, opad)
      && IsDigest(c, ipad + text, inner) && IsDigest(c, opad + inner, tag)
  }

  lemma KeyBlockIs(c: Compress, key: seq<byte>, k: seq<byte>)
    ensures IsKeyBlock(c, key, k) <==> k == HmacKey(c, key)
  {
    hide IsDigest, Digest;
    var used := if |key| > 64 then Digest(c, key) else key;
    var h: seq<byte> := HmacKey(c, key);
    assert h[..|used|] == used;
    DigestIs(c, key, used);
    if IsKeyBlock(c, key, k) {
      DigestIs(c, key, k[..|used|]);
      assert k == k[..|used|] + k[|used|..];
      assert h == used + h[|used|..];
    }
  }

  lemma PadIs(k: Block, b: byte, pad: seq<byte>)
    ensures IsPad(k, b, pad) <==> pad == XorPad(k, b)
  {
    hide Bit, Xor;
    var x := XorPad(k, b);
    forall i, j: nat | 0 <= i < 64
      ensures Bit(x[i], j) <==> Bit(b, j) != Bit(k[i], j)
    {
      XorIsBitwise(b, k[i], j);
    }
    if IsPad(k, b, pad) {
      forall i | 0 <= i < 64
        ensures pad[i] == x[i]
      {
        forall j: nat
          ensures Bit(pad[i], j) <==> Bit(x[i], j)
        {
          assert Bit(x[i], j) <==> Bit(b, j) != Bit(k[i], j);
        }
        SameBits(pad[i], x[i]);
      }
    }
  }

  /** The tag is what RFC 2104 describes, and nothing else is. */
  lemma HmacIs(c: Compress, key: seq<byte>, text: seq<byte>, tag: seq<byte>)
    ensures IsHmac(c, key, text, tag) <==> tag == Hmac(c, key, text)
  {
    hide IsDigest, Digest, IsKeyBlock, HmacKey, IsPad, XorPad;
    var k := HmacKey(c, key);
    KeyBlockIs(c, key, k);
    var ipad, opad := XorPad(k, 0x36), XorPad(k, 0x5c);
    PadIs(k, 0x36, ipad);
    PadIs(k, 0x5c, opad);
    var inner := Digest(c, ipad + text);
    DigestIs(c, ipad + text, inner);
    DigestIs(c, opad + inner, tag);
    if IsHmac(c, key, text, tag) {
      var k', ipad', opad', inner' :|
        && IsKeyBlock(c, key, k') && IsPad(k', 0x36, ipad') && IsPad(k', 0x5c, opad')
        && IsDigest(c, ipad' + text, inner') && IsDigest(c, opad' + inner', tag);
      KeyBlockIs(c, key, k');
      PadIs(k, 0x36, ipad');
      PadIs(k, 0x5c, opad');
      DigestIs(c, ipad + text, inner');
    }
  }

  method KeyBlock(c: Compress, key: seq<byte>) returns (k: array<byte>)
    ensures fresh(k) && k[..] == HmacKey(c, key)
  {
    var used := key;
    if |key| > 64 {
      used := DigestOf(c, key);
    }
    k := new byte[64](_ => 0);
    forall i | 0 <= i < |used| { k[i] := used[i]; }
  }

  /** One of the two loops `ipad[i] ^= k[i]` and `opad[i] ^= k[i]`. */
  method XorInto(pad: array<byte>, k: array<byte>, b: byte)
    requires pad != k && pad.Length == 64 == k.Length
    requires forall i :: 0 <= i < 64 ==> pad[i] == b
    modifies pad
    ensures pad[..] == XorPad(k[..], b)
  {
    for i := 0 to 64
      invariant forall j :: 0 <= j < i ==> pad[j] == XorByte(b, k[j])
      invariant forall j :: i <= j < 64 ==> pad[j] == b
    {
      pad[i] := XorByte(pad[i], k[i]);
    }
  }

  method HmacSha256(c: Compress, key: seq<byte>, msg: seq<byte>) returns (tag: seq<byte>)
    ensures tag == Hmac(c, key, msg) && IsHmac(c, key, msg, tag)
  {
    var k := KeyBlock(c, key);
    var ipad := new byte[64](_ => 0x36);
    var opad := new byte[64](_ => 0x5c);
    XorInto(ipad, k, 0x36);
    XorInto(opad, k, 0x5c);
    var inner := HashTwo(c, ipad[..], msg);
    tag := HashTwo(c, opad[..], inner);
    HmacIs(c, key, msg, tag);
    hide IsHmac;
  }

  /** A block followed by a second part, in two updates. */
  method HashTwo(c: Compress, pad: seq<byte>, text: seq<byte>) returns (out: seq<byte>)
    ensures out == Digest(c, pad + text)
  {
    var h := new Hasher(c);
    h.Update(pad);
    assert h.Absorbed() == pad;
    h.Update(text);
    out := h.Finalize();
  }
}
