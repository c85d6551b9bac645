/** PBKDF2 with HMAC-SHA-256 (section 5.2 of RFC 2898), `backend/src/kdf.rs`. */
module Pbkdf2 {
  import opened Bits
  import opened Sha256

  function XorBytes(a: seq<byte>, b: seq<byte>): (s: seq<byte>)
    requires |a| == |b|
    ensures |s| == |a|
  {
    seq(|a|, i requires 0 <= i < |a| => XorByte(a[i], b[i]))
  }

  /** U_1 = PRF(P, first), U_n = PRF(P, U_{n-1}). */
  function U(c: Compress, password: seq<byte>, first: seq<byte>, n: nat): (u: seq<byte>)
    requires n >= 1
    ensures |u| == 32
  {
    Hmac(c, password, if n == 1 then first else U(c, password, first, n - 1))
  }

  /** U_1 xor ... xor U_n. */
  function F(c: Compress, password: seq<byte>, first: seq<byte>, n: nat): (t: seq<byte>)
    requires n >= 1
    ensures |t| == 32
  {
    var u := U(c, password, first, n);
    if n == 1 then u else XorBytes(F(c, password, first, n - 1), u)
  }

  type Bytes32 = s: seq<byte> | |s| == 32 witness Zeros(32)

  /** T_1 || ... || T_k. */
  function Blocks(t: nat -> Bytes32, k: nat): (s: seq<byte>)
    ensures |s| == 32 * k
  {
    if k == 0 then [] else Blocks(t, k - 1) + t(k)
  }

  /** INT(i): the index in four bytes, most significant first. */
  function IndexBytes(i: nat): seq<byte> {
    BigEndian(i, 4)
  }

  /** T_i starts from S || INT(i). */
  function BlockFunction(c: Compress, password: seq<byte>, salt: seq<byte>, n: nat): nat -> Bytes32
    requires n >= 1
  {
    i => F(c, password, salt + IndexBytes(i), n)
  }

  function DerivedKey(c: Compress, password: seq<byte>, salt: seq<byte>, n: nat, dkLen: nat): (s: seq<byte>)
    requires n >= 1
    ensures |s| == dkLen
  {
    Blocks(BlockFunction(c, password, salt, n), (dkLen + 31) / 32)[..dkLen]
  }

  // ---- The derived key as RFC 2898 describes it ----

  /** The iterates `us`, each the HMAC of the one before, and their running exclusive-or `ts`. */
  ghost predicate AreIterates(c: Compress, password: seq<byte>, first: seq<byte>,
                              us: seq<seq<byte>>, ts: seq<seq<byte>>) {
    && |us| == |ts| >= 1
    && IsHmac(c, password, first, us[0]) && ts[0] == us[0]
    && forall j: nat | j < |us| - 1 :: IsHmac(c, password, us[j], us[j + 1]) && IsXor(ts[j], us[j + 1], ts[j + 1])
  }

  ghost predicate IsF(c: Compress, password: seq<byte>, first: seq<byte>, n: nat, t: seq<byte>) {
    exists us, ts :: AreIterates(c, password, first, us, ts) && |ts| == n && ts[n - 1] == t
  }

  /** `piece` starts block `i`: U_1 is taken over the salt and `i` in four bytes, most significant first. */
  ghost predicate IsBlock(c: Compress, password: seq<byte>, salt: seq<byte>, n: nat, i: nat, piece: seq<byte>) {
    exists index: seq<byte>, t ::
      && |index| == 4 && FromBigEndian(index) == i % 0x1_0000_0000
      && IsF(c, password, salt + index, n, t) && piece <= t
  }

  /** Blocks 1, 2, ... of 32 bytes each, the last one cut off. */
  ghost predicate IsDerivedKey(c: Compress, password: seq<byte>, salt: seq<byte>, n: nat, dk: seq<byte>) {
    forall i: nat | 32 * i < |dk| :: IsBlock(c, password, salt, n, i + 1, dk[32 * i..Min(32 * i + 32, |dk|)])
  }

  lemma XorBytesIs(a: seq<byte>, b: seq<byte>, x: seq<byte>)
    requires |a| == |b|
    ensures IsXor(a, b, x) <==> x == XorBytes(a, b)
  {
    if |x| == |a| {
      XorIs(a, b, x);
      hide IsXor, Xor;
      var y := XorBytes(a, b);
      assert forall i | 0 <= i < |x| :: y[i] == Xor(a[i], b[i]);
      if forall i | 0 <= i < |x| :: x[i] == Xor(a[i], b[i]) {
        assert x == y;
      }
    }
  }

  lemma {:induction false} IteratesAre(c: Compress, password: seq<byte>, first: seq<byte>,
                                       us: seq<seq<byte>>, ts: seq<seq<byte>>, n: nat)
    requires AreIterates(c, password, first, us, ts) && 1 <= n <= |us|
    ensures us[n - 1] == U(c, password, first, n) && ts[n - 1] == F(c, password, first, n)
  {
    hide IsHmac, Hmac, IsXor, XorBytes;
    if n == 1 {
      HmacIs(c, password, first, us[0]);
    } else {
      IteratesAre(c, password, first, us, ts, n - 1);
      var j := n - 2;
      assert IsHmac(c, password, us[j], us[j + 1]) && IsXor(ts[j], us[j + 1], ts[j + 1]);
      HmacIs(c, password, us[j], us[j + 1]);
      XorBytesIs(ts[j], us[j + 1], ts[j + 1]);
    }
  }

  lemma {:induction false} IteratesOf(c: Compress, password: seq<byte>, first: seq<byte>, n: nat)
    returns (us: seq<seq<byte>>, ts: seq<seq<byte>>)
    requires n >= 1
    ensures AreIterates(c, password, first, us, ts) && |us| == n
  {
    hide IsHmac, Hmac, IsXor, XorBytes;
    if n == 1 {
      us := [Hmac(c, password, first)];
      ts := us;
      HmacIs(c, password, first, us[0]);
    } else {
      us, ts := IteratesOf(c, password, first, n - 1);
      IteratesAre(c, password, first, us, ts, n - 1);
      var u := Hmac(c, password, us[n - 2]);
      HmacIs(c, password, us[n - 2], u);
      XorBytesIs(ts[n - 2], u, XorBytes(ts[n - 2], u));
      us, ts := us + [u], ts + [XorBytes(ts[n - 2], u)];
    }
  }

  lemma FIs(c: Compress, password: seq<byte>, first: seq<byte>, n: nat, t: seq<byte>)
    requires n >= 1
    ensures IsF(c, password, first, n, t) <==> t == F(c, password, first, n)
  {
    hide AreIterates, F, U;
    var us, ts := IteratesOf(c, password, first, n);
    assert |us| == |ts| by { SameCount(c, password, first, us, ts); }
    IteratesAre(c, password, first, us, ts, n);
    if IsF(c, password, first, n, t) {
      var us', ts' :| AreIterates(c, password, first, us', ts') && |ts'| == n && ts'[n - 1] == t;
      SameCount(c, password, first, us', ts');
      IteratesAre(c, password, first, us', ts', n);
    }
  }

  lemma SameCount(c: Compress, password: seq<byte>, first: seq<byte>, us: seq<seq<byte>>, ts: seq<seq<byte>>)
    requires AreIterates(c, password, first, us, ts)
    ensures |us| == |ts|
  {
  }

  lemma IndexIs(i: nat, index: seq<byte>)
    ensures |index| == 4 && FromBigEndian(index) == i % 0x1_0000_0000 <==> index == IndexBytes(i)
  {
    hide BigEndian, FromBigEndian;
    BigEndianRoundTrip(i, 4);
    assert Pow256(4) == 0x1_0000_0000;
    if |index| == 4 && FromBigEndian(index) == i % 0x1_0000_0000 {
      SameSuffix(index, IndexBytes(i));
    }
  }

  lemma BlockIs(c: Compress, password: seq<byte>, salt: seq<byte>, n: nat, i: nat, piece: seq<byte>)
    requires n >= 1
    ensures IsBlock(c, password, salt, n, i, piece) <==> piece <= F(c, password, salt + IndexBytes(i), n)
  {
    hide IsF, F, IndexBytes, FromBigEndian;
    var t := F(c, password, salt + IndexBytes(i), n);
    IndexIs(i, IndexBytes(i));
    FIs(c, password, salt + IndexBytes(i), n, t);
    if IsBlock(c, password, salt, n, i, piece) {
      var index: seq<byte>, t' :|
        && |index| == 4 && FromBigEndian(index) == i % 0x1_0000_0000
        && IsF(c, password, salt + index, n, t') && piece <= t';
      IndexIs(i, index);
      FIs(c, password, salt + index, n, t');
    }
  }

  /** Block `i` of the concatenation. */
  lemma BlocksAt(t: nat -> Bytes32, k: nat, i: nat)
    requires i < k
    ensures Blocks(t, k)[32 * i..32 * i + 32] == t(i + 1)
  {
    BlocksPrefix(t, i + 1, k);
    assert Blocks(t, i + 1)[32 * i..] == t(i + 1);
    assert Blocks(t, k)[..32 * i + 32] == Blocks(t, i + 1);
    assert Blocks(t, k)[..32 * i + 32][32 * i..] == Blocks(t, k)[32 * i..32 * i + 32];
  }

  /** A piece of the key is the piece of the block it lies in. */
  lemma PieceOf(t: nat -> Bytes32, dkLen: nat, i: nat)
    requires 32 * i < dkLen
    ensures i < (dkLen + 31) / 32
    ensures var to := Min(32 * i + 32, dkLen);
            Blocks(t, (dkLen + 31) / 32)[..dkLen][32 * i..to] == t(i + 1)[..to - 32 * i]
  {
    var k, to := (dkLen + 31) / 32, Min(32 * i + 32, dkLen);
    BlocksAt(t, k, i);
    var all := Blocks(t, k);
    assert all[..dkLen][32 * i..to] == all[32 * i..to] == all[32 * i..32 * i + 32][..to - 32 * i];
    hide Blocks;
  }

  /** The key is what RFC 2898 describes, and no other of its length is. */
  lemma DerivedKeyIs(c: Compress, password: seq<byte>, salt: seq<byte>, n: nat, dk: seq<byte>)
    requires n >= 1
    ensures IsDerivedKey(c, password, salt, n, dk) <==> dk == DerivedKey(c, password, salt, n, |dk|)
  {
    hide IsBlock, Blocks, F, IndexBytes;
    var f := BlockFunction(c, password, salt, n);
    var key := DerivedKey(c, password, salt, n, |dk|);
    forall i: nat | 32 * i < |dk|
      ensures var to := Min(32 * i + 32, |dk|);
              IsBlock(c, password, salt, n, i + 1, dk[32 * i..to]) <==> dk[32 * i..to] == key[32 * i..to]
    {
      var to := Min(32 * i + 32, |dk|);
      BlockIs(c, password, salt, n, i + 1, dk[32 * i..to]);
      PieceOf(f, |dk|, i);
    }
    if IsDerivedKey(c, password, salt, n, dk) {
      SamePieces(dk, key);
    }
  }

  lemma SamePieces(a: seq<byte>, b: seq<byte>)
    requires |a| == |b|
    requires forall i: nat | 32 * i < |a| ::
               a[32 * i..Min(32 * i + 32, |a|)] == b[32 * i..Min(32 * i + 32, |a|)]
    ensures a == b
  {
    forall k | 0 <= k < |a|
      ensures a[k] == b[k]
    {
      var i, j := k / 32, k % 32;
      var to := Min(32 * i + 32, |a|);
      assert a[32 * i..to][j] == b[32 * i..to][j];
    }
  }

  /** `f` is the block function of these arguments. */
  ghost predicate Computes(f: nat -> Bytes32, c: Compress, password: seq<byte>, salt: seq<byte>, n: nat)
    requires n >= 1
  {
    forall i {:trigger IndexBytes(i)} :: f(i) == F(c, password, salt + IndexBytes(i), n)
  }

  /** One block, accumulating the iterates as they are produced. */
  method BlockFrom(c: Compress, password: seq<byte>, first: seq<byte>, iterations: nat) returns (t: seq<byte>)
    requires iterations >= 1
    ensures t == F(c, password, first, iterations)
  {
    var u := HmacSha256(c, password, first);
    t := u;
    for n := 1 to iterations
      invariant u == U(c, password, first, n)
      invariant t == F(c, password, first, n)
    {
      u := HmacSha256(c, password, u);
      t := XorBytes(t, u);
    }
  }

  /** T_i for a counter that is 32 bits wide; `laps` counts how often it has wrapped. */
  method BlockOf(c: Compress, password: seq<byte>, salt: seq<byte>, blockIndex: u32, iterations: nat,
                 ghost f: nat -> Bytes32, ghost laps: nat)
    returns (t: seq<byte>)
    requires iterations >= 1 && Computes(f, c, password, salt, iterations)
    ensures t == f(0x1_0000_0000 * laps + blockIndex)
  {
    t := BlockFrom(c, password, salt + IndexBytes(blockIndex), iterations);
    IndexWraps(blockIndex, laps);
  }

  /** The output loop. */
  method FillBlocks(c: Compress, password: seq<byte>, salt: seq<byte>, n: nat, dkLen: nat, ghost f: nat -> Bytes32)
    returns (out: seq<byte>)
    requires n >= 1 && Computes(f, c, password, salt, n)
    ensures |out| == dkLen && out <= Blocks(f, (dkLen + 31) / 32)
  {
    out := [];
    var blockIndex: u32 := 1;
    ghost var k: nat, laps: nat := 0, 0;
    while |out| < dkLen
      invariant Progress(f, k, dkLen, out)
      invariant k + 1 == 0x1_0000_0000 * laps + blockIndex
      decreases dkLen - |out|
    {
      var t := BlockOf(c, password, salt, blockIndex, n, f, laps);
      AppendBlock(f, k, dkLen, out, t);
      out := out + t[..Min(dkLen - |out|, 32)];
      if blockIndex == 0xFFFF_FFFF {
        blockIndex, laps := 0, laps + 1;
      } else {
        blockIndex := blockIndex + 1;
      }
      k := k + 1;
    }
    BlocksPrefix(f, (dkLen + 31) / 32, k);
  }

  method Pbkdf2HmacSha256(c: Compress, password: seq<byte>, salt: seq<byte>, iterations: u32, dkLen: nat)
    returns (out: seq<byte>)
    ensures out == DerivedKey(c, password, salt, if iterations == 0 then 1 else iterations, dkLen)
    ensures |out| == dkLen && IsDerivedKey(c, password, salt, if iterations == 0 then 1 else iterations, out)
  {
    var n: nat := if iterations == 0 then 1 else iterations;
    out := FillBlocks(c, password, salt, n, dkLen, BlockFunction(c, password, salt, n));
    DerivedKeyIs(c, password, salt, n, out);
    hide IsDerivedKey;
  }

  /** `out` holds the first `k` blocks, cut off at `dkLen`. */
  ghost predicate Progress(f: nat -> Bytes32, k: nat, dkLen: nat, out: seq<byte>) {
    |out| == Min(dkLen, 32 * k) && out <= Blocks(f, k)
  }

  lemma AppendBlock(f: nat -> Bytes32, k: nat, dkLen: nat, out: seq<byte>, t: seq<byte>)
    requires Progress(f, k, dkLen, out) && |out| < dkLen
    requires t == f(k + 1)
    ensures Progress(f, k + 1, dkLen, out + t[..Min(dkLen - |out|, 32)])
  {
    assert out == Blocks(f, k);
  }

  /** The 32-bit block counter may wrap: only its low four bytes are ever hashed. */
  lemma IndexWraps(i: nat, laps: nat)
    ensures IndexBytes(i) == IndexBytes(0x1_0000_0000 * laps + i)
  {
    assert Pow256(4) == 0x1_0000_0000;
    BigEndianTruncates(i, 0x1_0000_0000 * laps + i, 4);
  }

  lemma {:induction false} BlocksPrefix(t: nat -> Bytes32, j: nat, k: nat)
    requires j <= k
    ensures Blocks(t, j) <= Blocks(t, k)
    decreases k
  {
    if j < k {
      BlocksPrefix(t, j, k - 1);
      assert Blocks(t, k - 1) <= Blocks(t, k);
    }
  }
}
