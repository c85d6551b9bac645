/** scrypt (section 6 of RFC 7914), its parameter checks, and the limits on stored parameters. */
module Scrypt {
  import opened Bits
  import opened Outcomes
  import opened Pbkdf2
  import opened ScryptMix
  import Sha256

  datatype ScryptError = InvalidN | InvalidBlockOrParallelism | InvalidKeyLength | Overflow

  /** The two functions the key derivation is built on: SHA-256's compression and Salsa20/8. */
  datatype Primitives = Primitives(compress: Sha256.Compress, core: Core)

  datatype Params = Params(n: u32, r: u32, p: u32)

  // ---- Specification ----

  /** Little-endian words of a byte string whose length is a multiple of four. */
  function WordsOf(bytes: seq<byte>): (ws: seq<u32>)
    ensures |ws| == |bytes| / 4
  {
    seq(|bytes| / 4, i requires 0 <= i < |bytes| / 4 => BytesToWord(bytes[4 * i..4 * i + 4]))
  }

  function BytesOf(words: seq<u32>): (bs: seq<byte>)
    ensures |bs| == 4 * |words|
  {
    seq(4 * |words|, k requires 0 <= k < 4 * |words| => WordToBytes(words[k / 4])[k % 4])
  }

  /** The words and the bytes of a block determine each other. */
  lemma WordsRoundTrip(words: seq<u32>)
    ensures WordsOf(BytesOf(words)) == words
  {
    forall i | 0 <= i < |words|
      ensures WordsOf(BytesOf(words))[i] == words[i]
    {
      WordBytesRoundTrip(words[i]);
      BytesOfSlice(words, i);
    }
  }

  lemma BytesOfSlice(words: seq<u32>, i: nat)
    requires i < |words|
    ensures BytesOf(words)[4 * i..4 * i + 4] == WordToBytes(words[i])
  {
  }

  /** Step 2 of section 6: each of the `p` blocks of `w` words is mixed on its own. */
  function MixedBlocks(core: Core, b: seq<u32>, r: nat, n: nat, p: nat): (x: seq<u32>)
    requires r >= 1 && n >= 1 && |b| == p * (32 * r)
    ensures |x| == |b|
    decreases p
  {
    if p == 0 then []
    else
      var at := (p - 1) * (32 * r);
      MixedBlocks(core, b[..at], r, n, p - 1) + RoMixSpec(core, b[at..], r, n)
  }

  function ScryptKey(f: Primitives, password: seq<byte>, salt: seq<byte>, n: nat, r: nat, p: nat,
                     dkLen: nat): (dk: seq<byte>)
    requires n >= 1 && r >= 1
    ensures |dk| == dkLen
  {
    var b := WordsOf(DerivedKey(f.compress, password, salt, 1, 4 * (p * (32 * r))));
    var mixed := MixedBlocks(f.core, b, r, n, p);
    DerivedKey(f.compress, password, BytesOf(mixed), 1, dkLen)
  }

  // ---- The key as RFC 7914 describes it ----

  /** `bytes` are the words one after another, each with its lowest byte first. */
  ghost predicate AreBytes(words: seq<u32>, bytes: seq<byte>) {
    |bytes| == 4 * |words| && forall k | 0 <= k < |bytes| :: bytes[k] == words[k / 4] / Pow256(k % 4) % 256
  }

  /** Each of the `p` blocks of `32 * r` words in `x` is scryptROMix of the block of `b` at the same place. */
  ghost predicate AreMixed(core: Core, b: seq<u32>, r: nat, n: nat, p: nat, x: seq<u32>)
    requires r >= 1 && n >= 1
  {
    && |b| == |x| == p * (32 * r)
    && forall i: nat | i < p :: RoMixes(core, BlockAt(b, r, p, i), r, n, BlockAt(x, r, p, i))
  }

  function BlockAt(b: seq<u32>, r: nat, p: nat, i: nat): (x: seq<u32>)
    requires |b| == p * (32 * r) && i < p
    ensures |x| == 32 * r
  {
    CellBounds(32 * r, i, p);
    b[i * (32 * r)..i * (32 * r) + 32 * r]
  }

  /** Section 6: PBKDF2 of one iteration, the mix of each block, and PBKDF2 again with the mixed blocks as salt. */
  ghost predicate IsScrypt(f: Primitives, password: seq<byte>, salt: seq<byte>, n: nat, r: nat, p: nat, dk: seq<byte>)
    requires n >= 1 && r >= 1
  {
    exists b, x, before, after ::
      && IsDerivedKey(f.compress, password, salt, 1, before) && AreBytes(b, before)
      && AreMixed(f.core, b, r, n, p, x)
      && AreBytes(x, after) && IsDerivedKey(f.compress, password, after, 1, dk)
  }

  lemma BytesIs(words: seq<u32>, bytes: seq<byte>)
    ensures AreBytes(words, bytes) <==> bytes == BytesOf(words)
  {
    hide WordToBytes, Pow256;
    var bs := BytesOf(words);
    forall k | 0 <= k < |bs|
      ensures bs[k] == words[k / 4] / Pow256(k % 4) % 256
    {
      WordBytesAt(words[k / 4], k % 4);
    }
    if AreBytes(words, bytes) {
      assert forall k | 0 <= k < |bs| :: bytes[k] == bs[k];
    }
  }

  /** The bytes and the words of a block determine each other in the other direction too. */
  lemma BytesRoundTrip(bytes: seq<byte>)
    requires |bytes| % 4 == 0
    ensures BytesOf(WordsOf(bytes)) == bytes
  {
    hide WordToBytes, BytesToWord;
    var ws := WordsOf(bytes);
    forall k | 0 <= k < |bytes|
      ensures BytesOf(ws)[k] == bytes[k]
    {
      var i, j := k / 4, k % 4;
      BytesWordRoundTrip(bytes[4 * i..4 * i + 4]);
      assert WordToBytes(ws[i])[j] == bytes[4 * i..4 * i + 4][j];
    }
  }

  lemma WordsAre(words: seq<u32>, bytes: seq<byte>)
    ensures AreBytes(words, bytes) <==> |bytes| % 4 == 0 && words == WordsOf(bytes)
  {
    hide AreBytes, BytesOf, WordsOf;
    BytesIs(words, bytes);
    if |bytes| % 4 == 0 {
      BytesRoundTrip(bytes);
    }
    WordsRoundTrip(words);
  }

  lemma {:induction false} MixedIs(core: Core, b: seq<u32>, r: nat, n: nat, p: nat, x: seq<u32>)
    requires r >= 1 && n >= 1 && |b| == p * (32 * r)
    ensures AreMixed(core, b, r, n, p, x) <==> x == MixedBlocks(core, b, r, n, p)
    decreases p
  {
    hide RoMixes, RoMixSpec;
    var mixed := MixedBlocks(core, b, r, n, p);
    if p > 0 && |x| == |b| {
      var at := (p - 1) * (32 * r);
      assert p * (32 * r) == at + 32 * r;
      MixedIs(core, b[..at], r, n, p - 1, x[..at]);
      RoMixesIff(core, b[at..], r, n, x[at..]);
      assert x == x[..at] + x[at..];
      LastMixed(core, b, r, n, p, x, at);
    }
  }

  /** All blocks are mixed when those before the last are, and the last. */
  lemma LastMixed(core: Core, b: seq<u32>, r: nat, n: nat, p: nat, x: seq<u32>, at: nat)
    requires r >= 1 && n >= 1 && p >= 1 && |b| == |x| == p * (32 * r) && at == (p - 1) * (32 * r) == |b| - 32 * r
    ensures AreMixed(core, b, r, n, p, x)
            <==> AreMixed(core, b[..at], r, n, p - 1, x[..at]) && RoMixes(core, b[at..], r, n, x[at..])
  {
    hide RoMixes;
    var q: nat := p - 1;
    assert BlockAt(b, r, p, q) == b[at..] && BlockAt(x, r, p, q) == x[at..];
    forall i: nat | i < q
      ensures BlockAt(b[..at], r, q, i) == BlockAt(b, r, p, i)
      ensures BlockAt(x[..at], r, q, i) == BlockAt(x, r, p, i)
    {
      CellBounds(32 * r, i, q);
    }
    hide BlockAt;
    if AreMixed(core, b, r, n, p, x) {
      forall i: nat | i < q
        ensures RoMixes(core, BlockAt(b[..at], r, q, i), r, n, BlockAt(x[..at], r, q, i))
      {
        assert RoMixes(core, BlockAt(b, r, p, i), r, n, BlockAt(x, r, p, i));
      }
      assert RoMixes(core, BlockAt(b, r, p, q), r, n, BlockAt(x, r, p, q));
    } else if AreMixed(core, b[..at], r, n, q, x[..at]) && RoMixes(core, b[at..], r, n, x[at..]) {
      forall i: nat | i < p
        ensures RoMixes(core, BlockAt(b, r, p, i), r, n, BlockAt(x, r, p, i))
      {
        if i < q {
          assert RoMixes(core, BlockAt(b[..at], r, q, i), r, n, BlockAt(x[..at], r, q, i));
        }
      }
    }
  }

  /** The key is what RFC 7914 describes, and no other of its length is. */
  lemma ScryptIs(f: Primitives, password: seq<byte>, salt: seq<byte>, n: nat, r: nat, p: nat, dk: seq<byte>)
    requires n >= 1 && r >= 1
    ensures IsScrypt(f, password, salt, n, r, p, dk) <==> dk == ScryptKey(f, password, salt, n, r, p, |dk|)
  {
    hide IsDerivedKey, DerivedKey, AreBytes, AreMixed, MixedBlocks, WordsOf, BytesOf;
    var len := 4 * (p * (32 * r));
    var before := DerivedKey(f.compress, password, salt, 1, len);
    var b := WordsOf(before);
    var x := MixedBlocks(f.core, b, r, n, p);
    var after := BytesOf(x);
    WordsAre(b, before);
    MixedIs(f.core, b, r, n, p, x);
    BytesIs(x, after);
    DerivedKeyIs(f.compress, password, salt, 1, before);
    DerivedKeyIs(f.compress, password, after, 1, dk);
    if IsScrypt(f, password, salt, n, r, p, dk) {
      var b', x', before', after' :|
        && IsDerivedKey(f.compress, password, salt, 1, before') && AreBytes(b', before')
        && AreMixed(f.core, b', r, n, p, x')
        && AreBytes(x', after') && IsDerivedKey(f.compress, password, after', 1, dk);
      Sizes(f.core, b', r, n, p, x', before');
      DerivedKeyIs(f.compress, password, salt, 1, before');
      WordsAre(b', before');
      MixedIs(f.core, b', r, n, p, x');
      BytesIs(x', after');
    }
  }

  lemma Sizes(core: Core, b: seq<u32>, r: nat, n: nat, p: nat, x: seq<u32>, bytes: seq<byte>)
    requires n >= 1 && r >= 1 && AreMixed(core, b, r, n, p, x) && AreBytes(b, bytes)
    ensures |b| == |x| == p * (32 * r) && |bytes| == 4 * (p * (32 * r))
  {
  }

  const USIZE_MAX: nat := 0xFFFF_FFFF_FFFF_FFFF

  /** The working buffers would need more bytes than an address holds. */
  predicate TooLarge(n: nat, r: nat, p: nat) {
    128 * r * p > USIZE_MAX || 128 * r * n > USIZE_MAX
  }

  /** The error `scrypt` answers with, if any. */
  function Refusal(n: nat, r: nat, p: nat, dkLen: nat): Option<ScryptError> {
    if n < 2 || !IsPowerOfTwo(n) then Some(InvalidN)
    else if r == 0 || p == 0 then Some(InvalidBlockOrParallelism)
    else if dkLen == 0 then Some(InvalidKeyLength)
    else if TooLarge(n, r, p) then Some(Overflow)
    else None
  }

  // ---- The code ----

  function CheckedMul(a: nat, b: nat): Option<nat> {
    if a * b <= USIZE_MAX then Some(a * b) else None
  }

  /** The chain of checked multiplications refuses exactly the sizes that do not fit. */
  lemma CheckedSizes(n: nat, r: u32, p: nat)
    requires n >= 1 && r >= 1 && p >= 1
    ensures CheckedMul(32, r) == Some(32 * r)
    ensures (|| CheckedMul(32 * r, p).None? || CheckedMul(32 * r, n).None?
             || CheckedMul(32 * r * p, 4).None? || CheckedMul(32 * r * n, 4).None?)
            <==> TooLarge(n, r, p)
  {
    assert 128 * r * p == 4 * (32 * r * p);
    assert 128 * r * n == 4 * (32 * r * n);
  }

  method DeriveScrypt(f: Primitives, password: seq<byte>, salt: seq<byte>, n: u32, r: u32, p: u32, dkLen: nat)
    returns (res: Result<seq<byte>, ScryptError>)
    ensures match Refusal(n, r, p, dkLen)
            case Some(e) => res == Err(e)
            case None => n >= 1 && r >= 1 && res == Ok(ScryptKey(f, password, salt, n, r, p, dkLen))
    ensures res == Err(InvalidN) <==> !(n >= 2 && IsSomePow2(n))
    ensures res == Err(InvalidBlockOrParallelism) ==> r == 0 || p == 0
    ensures res == Err(InvalidKeyLength) ==> dkLen == 0
    ensures res == Err(Overflow) ==> 128 * r * p >= TWO_64 || 128 * r * n >= TWO_64
    ensures res.Ok? ==> r >= 1 && p >= 1 && dkLen >= 1 && 128 * r * p < TWO_64 && 128 * r * n < TWO_64
    ensures res.Ok? ==> n >= 1 && |res.value| == dkLen && IsScrypt(f, password, salt, n, r, p, res.value)
  {
    hide IsScrypt, ScryptKey;
    PowerOfTwoIff(n);
    if n < 2 || !IsPowerOfTwo(n) {
      return Err(InvalidN);
    }
    if r == 0 || p == 0 {
      return Err(InvalidBlockOrParallelism);
    }
    if dkLen == 0 {
      return Err(InvalidKeyLength);
    }
    CheckedSizes(n, r, p);
    var blockWords := CheckedMul(32, r).value;
    var bWords := CheckedMul(blockWords, p);
    if bWords.None? {
      return Err(Overflow);
    }
    var vWords := CheckedMul(blockWords, n);
    if vWords.None? {
      return Err(Overflow);
    }
    if CheckedMul(bWords.value, 4).None? || CheckedMul(vWords.value, 4).None? {
      return Err(Overflow);
    }
    Commute(blockWords, p);
    Commute(blockWords, n);
    var dk := DeriveUnchecked(f, password, salt, n, r, p, dkLen);
    ScryptIs(f, password, salt, n, r, p, dk);
    return Ok(dk);
  }

  lemma Commute(a: nat, b: nat)
    ensures a * b == b * a
  {
  }

  /** The derivation proper, once the sizes are known to be good. */
  method DeriveUnchecked(f: Primitives, password: seq<byte>, salt: seq<byte>, n: u32, r: u32, p: u32, dkLen: nat)
    returns (dk: seq<byte>)
    requires n >= 2 && IsPowerOfTwo(n) && r >= 1
    ensures dk == ScryptKey(f, password, salt, n, r, p, dkLen)
  {
    var bInit := Pbkdf2HmacSha256(f.compress, password, salt, 1, 4 * (p * (32 * r)));
    var mixed := MixBlocks(f.core, WordsOf(bInit), n, r, p);
    dk := Pbkdf2HmacSha256(f.compress, password, BytesOf(mixed), 1, dkLen);
  }

  /** The loop over the `p` blocks; `v` and `scratch` are allocated once and reused. */
  method MixBlocks(core: Core, b0: seq<u32>, n: u32, r: u32, p: nat) returns (mixed: seq<u32>)
    requires n >= 2 && IsPowerOfTwo(n) && r >= 1 && |b0| == p * (32 * r)
    ensures mixed == MixedBlocks(core, b0, r, n, p)
  {
    var w: nat := 32 * r;
    var b := new u32[|b0|](i requires 0 <= i < |b0| => b0[i]);
    var v := new u32[n * w](_ => 0);
    var scratch := new u32[w](_ => 0);
    var at := 0;
    assert b[..] == b0;
    for i := 0 to p
      invariant at == i * w && at <= |b0|
      invariant MixedUpTo(core, b0, r, n, i, at, b[..])
    {
      CellBounds(w, i, p);
      MixOne(core, b, at, n, r, v, scratch, b0, i);
      at := at + w;
    }
    mixed := b[..];
    assert b0[..at] == b0 && b[..at] == mixed;
  }

  /** The first `i` blocks, `at` words, are mixed; the rest are untouched. */
  ghost predicate MixedUpTo(core: Core, b0: seq<u32>, r: nat, n: nat, i: nat, at: nat, b: seq<u32>)
    requires r >= 1 && n >= 1 && at == i * (32 * r) && at <= |b0|
  {
    && |b| == |b0|
    && b[..at] == MixedBlocks(core, b0[..at], r, n, i)
    && b[at..] == b0[at..]
  }

  method MixOne(core: Core, b: array<u32>, at: nat, n: u32, r: nat, v: array<u32>, scratch: array<u32>,
                ghost b0: seq<u32>, ghost i: nat)
    requires Buffers(b, at, n, r, 32 * r, v, scratch) && n >= 2 && IsPowerOfTwo(n)
    requires at == i * (32 * r) && at <= |b0| && MixedUpTo(core, b0, r, n, i, at, b[..])
    modifies b, v, scratch
    ensures at + 32 * r == (i + 1) * (32 * r)
    ensures MixedUpTo(core, b0, r, n, i + 1, at + 32 * r, b[..])
  {
    hide MixedBlocks, RoMixSpec;
    TailSlice(b[..], b0, at, 32 * r);
    RoMix(core, b, at, n, r, v, scratch);
    NextBlock(core, b0, r, n, i, at, b[..]);
  }

  lemma TailSlice(b: seq<u32>, b0: seq<u32>, at: nat, w: nat)
    requires |b| == |b0| && at + w <= |b| && b[at..] == b0[at..]
    ensures b[at..at + w] == b0[at..at + w] && b[at + w..] == b0[at + w..]
  {
    assert b[at..at + w] == b[at..][..w];
    assert b[at + w..] == b[at..][w..] == b0[at..][w..];
  }

  lemma NextBlock(core: Core, b0: seq<u32>, r: nat, n: nat, i: nat, at: nat, b: seq<u32>)
    requires r >= 1 && n >= 1 && at == i * (32 * r) && at + 32 * r <= |b0| == |b|
    requires b[..at] == MixedBlocks(core, b0[..at], r, n, i)
    requires b[at..at + 32 * r] == RoMixSpec(core, b0[at..at + 32 * r], r, n)
    ensures at + 32 * r == (i + 1) * (32 * r)
    ensures b[..at + 32 * r] == MixedBlocks(core, b0[..at + 32 * r], r, n, i + 1)
  {
    var next := at + 32 * r;
    assert next == (i + 1) * (32 * r);
    assert b0[..next][..at] == b0[..at];
    assert b0[..next][at..] == b0[at..next];
    assert b[..next] == b[..at] + b[at..next];
  }

  // ---- Limits on stored parameters ----

  const MAX_STORED_MEMORY: nat := 256 * 1024 * 1024
  const MAX_STORED_P: nat := 16

  /** `ScryptParams::within_limits`; `checked_mul` on u64 refuses what does not fit. */
  predicate WithinLimits(q: Params) {
    && 1 <= q.p <= MAX_STORED_P
    && q.r != 0 && q.n >= 2 && IsPowerOfTwo(q.n)
    && 128 * q.n < TWO_64
    && 128 * q.n * q.r < TWO_64
    && 128 * q.n * q.r <= MAX_STORED_MEMORY
  }

  /** Any stored parameters that pass the limits derive a key, in buffers of at most 256 MiB and 2 GiB. */
  lemma LimitsSuffice(q: Params, dkLen: nat)
    requires WithinLimits(q) && dkLen >= 1
    ensures Refusal(q.n, q.r, q.p, dkLen) == None
    ensures 4 * (q.n * (32 * q.r)) <= MAX_STORED_MEMORY
    ensures 4 * (q.p * (32 * q.r)) <= MAX_STORED_P * MAX_STORED_MEMORY / 2
  {
    var n: nat, r: nat, p: nat := q.n, q.r, q.p;
    assert 128 * n * r == 4 * (n * (32 * r)) == 128 * (n * r) == 128 * r * n;
    assert n * r >= 2 * r by { MulMonotone(2, n, r); }
    assert p * r <= 16 * r by { MulMonotone(p, 16, r); }
    assert 128 * r * p == 4 * (p * (32 * r)) == 128 * (p * r);
  }

  lemma MulMonotone(a: nat, b: nat, r: nat)
    requires a <= b
    ensures a * r <= b * r
  {
  }

  /** The parameters written today pass. */
  const CURRENT: Params := Params(16384, 8, 1)

  lemma CurrentWithinLimits()
    ensures WithinLimits(CURRENT)
  {
    assert IsPowerOfTwo(16384) by {
      assert IsPowerOfTwo(16) && IsPowerOfTwo(256) && IsPowerOfTwo(4096);
    }
  }
}
