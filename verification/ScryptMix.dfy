/**
 scryptBlockMix and scryptROMix (sections 4 and 5 of RFC 7914) over flat word
 buffers, as `backend/src/kdf.rs` computes them in place.

 The Salsa20/8 core is a value `core`: the results hold for every function on
 16-word chunks.
 */
module ScryptMix {
  import opened Bits

  type Chunk = s: seq<u32> | |s| == 16 witness seq(16, _ => 0)
  type Core = Chunk -> Chunk

  function XorWords(a: seq<u32>, b: seq<u32>): (s: seq<u32>)
    requires |a| == |b|
    ensures |s| == |a|
  {
    seq(|a|, i requires 0 <= i < |a| => XorWord(a[i], b[i]))
  }

  function ChunkAt(b: seq<u32>, i: nat): Chunk
    requires 16 * i + 16 <= |b|
  {
    b[16 * i..16 * i + 16]
  }

  // ---- Specification: RFC 7914 ----

  /** X of section 4 after `i` rounds of X = core(X xor B_i), starting from the last chunk. */
  function X(core: Core, b: seq<u32>, r: nat, i: nat): Chunk
    requires r >= 1 && |b| == 32 * r && i <= 2 * r
  {
    if i == 0 then ChunkAt(b, 2 * r - 1) else core(XorWords(X(core, b, r, i - 1), ChunkAt(b, i - 1)))
  }

  /** Y_i, the value of X that round `i` records. */
  function Y(core: Core, b: seq<u32>, r: nat, i: nat): Chunk
    requires r >= 1 && |b| == 32 * r && i < 2 * r
  {
    X(core, b, r, i + 1)
  }

  /** B' = (Y_0, Y_2, ..., Y_{2r-2}, Y_1, Y_3, ..., Y_{2r-1}): which Y stands at chunk `d`. */
  function Shuffled(r: nat, d: nat): nat {
    if d < r then 2 * d else 2 * (d - r) + 1
  }

  predicate IsBlockMix(core: Core, b: seq<u32>, r: nat, out: seq<u32>)
    requires r >= 1 && |b| == 32 * r
  {
    && |out| == 32 * r
    && forall d: nat | d < 2 * r :: ChunkAt(out, d) == Y(core, b, r, Shuffled(r, d))
  }

  function BlockMix(core: Core, b: seq<u32>, r: nat): (out: seq<u32>)
    requires r >= 1 && |b| == 32 * r
    ensures |out| == 32 * r
  {
    seq(32 * r, k requires 0 <= k < 32 * r => Y(core, b, r, Shuffled(r, k / 16))[k % 16])
  }

  lemma BlockMixIs(core: Core, b: seq<u32>, r: nat, out: seq<u32>)
    requires r >= 1 && |b| == 32 * r
    requires IsBlockMix(core, b, r, out)
    ensures out == BlockMix(core, b, r)
  {
    forall k: nat | k < 32 * r
      ensures out[k] == BlockMix(core, b, r)[k]
    {
      var d, e := k / 16, k % 16;
      assert k == 16 * d + e;
      assert ChunkAt(out, d)[e] == out[k];
    }
  }

  /** V_i of section 5: BlockMix applied i times. */
  function Iterate(core: Core, b: seq<u32>, r: nat, i: nat): (x: seq<u32>)
    requires r >= 1 && |b| == 32 * r
    ensures |x| == 32 * r
  {
    if i == 0 then b else BlockMix(core, Iterate(core, b, r, i - 1), r)
  }

  /** Words read as one little-endian integer. */
  function LittleEndian(ws: seq<u32>): nat {
    if ws == [] then 0 else ws[0] as nat + 0x1_0000_0000 * LittleEndian(ws[1..])
  }

  /** Integerify: the whole last 64-byte chunk as a little-endian integer. */
  function Integerify(x: seq<u32>, r: nat): nat
    requires r >= 1 && |x| == 32 * r
  {
    LittleEndian(ChunkAt(x, 2 * r - 1))
  }

  /** One round of the second loop of section 5: X = BlockMix(X xor V_j), j = Integerify(X) mod N. */
  function MixStep(core: Core, b: seq<u32>, r: nat, n: nat, x: seq<u32>): (y: seq<u32>)
    requires r >= 1 && |b| == |x| == 32 * r && n >= 1
    ensures |y| == 32 * r
  {
    BlockMix(core, XorWords(x, Iterate(core, b, r, Integerify(x, r) % n)), r)
  }

  /** The second loop of section 5 after `k` rounds, started from V_N. */
  function Mixed(core: Core, b: seq<u32>, r: nat, n: nat, k: nat): (x: seq<u32>)
    requires r >= 1 && |b| == 32 * r && n >= 1
    ensures |x| == 32 * r
  {
    if k == 0 then Iterate(core, b, r, n)
    else
      MixStep(core, b, r, n, Mixed(core, b, r, n, k - 1))
  }

  function RoMixSpec(core: Core, b: seq<u32>, r: nat, n: nat): (x: seq<u32>)
    requires r >= 1 && |b| == 32 * r && n >= 1
    ensures |x| == 32 * r
  {
    Mixed(core, b, r, n, n)
  }

  // ---- The same, as RFC 7914 describes the steps ----

  /** The values of X in section 4: from the last chunk on, each is the core of the one before xor the next chunk. */
  ghost predicate AreChunks(core: Core, b: seq<u32>, r: nat, xs: seq<Chunk>)
    requires r >= 1 && |b| == 32 * r
  {
    && |xs| == 2 * r + 1 && xs[0] == b[32 * r - 16..]
    && forall i: nat | i < 2 * r :: IsRound(core, xs[i], b[16 * i..16 * i + 16], xs[i + 1])
  }

  ghost predicate IsRound(core: Core, x: Chunk, c: Chunk, y: Chunk) {
    exists z: Chunk :: IsXor(x, c, z) && y == core(z)
  }

  /** scryptBlockMix: the results of the even rounds in order, then those of the odd rounds. */
  ghost predicate Mixes(core: Core, b: seq<u32>, r: nat, out: seq<u32>)
    requires r >= 1 && |b| == 32 * r
  {
    |out| == 32 * r && exists xs :: AreChunks(core, b, r, xs) && IsShuffled(xs, r, out)
  }

  ghost predicate IsShuffled(xs: seq<Chunk>, r: nat, out: seq<u32>)
    requires |out| == 32 * r
  {
    && |xs| == 2 * r + 1
    && (forall d: nat | d < r :: ChunkAt(out, d) == xs[2 * d + 1])
    && (forall d: nat | d < r :: ChunkAt(out, r + d) == xs[2 * d + 2])
  }

  /** The table V of section 5, and the block after it: each is the mix of the one before. */
  ghost predicate IsTable(core: Core, b: seq<u32>, r: nat, n: nat, vs: seq<seq<u32>>)
    requires r >= 1 && |b| == 32 * r
  {
    && |vs| == n + 1 && vs[0] == b && (forall i | 0 <= i <= n :: |vs[i]| == 32 * r)
    && forall i: nat | i < n :: Mixes(core, vs[i], r, vs[i + 1])
  }

  /** One round of the second loop: the mix of the block xor the entry its last 64 bytes choose. */
  ghost predicate IsPick(core: Core, r: nat, n: nat, vs: seq<seq<u32>>, x: seq<u32>, y: seq<u32>)
    requires r >= 1 && n >= 1 && |vs| >= n && |x| == 32 * r
  {
    exists z: seq<u32> ::
      |z| == 32 * r && IsXor(x, vs[LittleEndian(x[32 * r - 16..]) % n], z) && Mixes(core, z, r, y)
  }

  ghost predicate ArePicks(core: Core, r: nat, n: nat, vs: seq<seq<u32>>, xs: seq<seq<u32>>)
    requires r >= 1 && n >= 1
  {
    && |vs| == n + 1 && |xs| >= 1 && xs[0] == vs[n] && (forall k | 0 <= k < |xs| :: |xs[k]| == 32 * r)
    && forall k: nat | k + 1 < |xs| :: IsPick(core, r, n, vs, xs[k], xs[k + 1])
  }

  /** scryptROMix: `n` rounds from the end of the table. */
  ghost predicate RoMixes(core: Core, b: seq<u32>, r: nat, n: nat, out: seq<u32>)
    requires r >= 1 && |b| == 32 * r && n >= 1
  {
    exists vs, xs :: IsTable(core, b, r, n, vs) && ArePicks(core, r, n, vs, xs) && |xs| == n + 1 && xs[n] == out
  }

  lemma XorWordsIs(a: seq<u32>, b: seq<u32>, x: seq<u32>)
    requires |a| == |b|
    ensures IsXor(a, b, x) <==> x == XorWords(a, b)
  {
    if |x| == |a| {
      XorIs(a, b, x);
      hide IsXor, Xor;
      var y := XorWords(a, b);
      assert forall i | 0 <= i < |x| :: y[i] == Xor(a[i], b[i]);
      if forall i | 0 <= i < |x| :: x[i] == Xor(a[i], b[i]) {
        assert x == y;
      }
    }
  }

  lemma RoundIs(core: Core, x: Chunk, c: Chunk, y: Chunk)
    ensures IsRound(core, x, c, y) <==> y == core(XorWords(x, c))
  {
    hide IsXor, XorWords;
    XorWordsIs(x, c, XorWords(x, c));
    if IsRound(core, x, c, y) {
      var z: Chunk :| IsXor(x, c, z) && y == core(z);
      XorWordsIs(x, c, z);
    }
  }

  lemma {:induction false} ChunksAre(core: Core, b: seq<u32>, r: nat, xs: seq<Chunk>, i: nat)
    requires r >= 1 && |b| == 32 * r && i <= 2 * r && AreChunks(core, b, r, xs)
    ensures xs[i] == X(core, b, r, i)
  {
    hide IsRound, XorWords;
    if i == 0 {
      assert b[32 * r - 16..] == ChunkAt(b, 2 * r - 1);
    } else {
      ChunksAre(core, b, r, xs, i - 1);
      var j := i - 1;
      assert IsRound(core, xs[j], b[16 * j..16 * j + 16], xs[j + 1]);
      RoundIs(core, xs[j], ChunkAt(b, j), xs[j + 1]);
    }
  }

  lemma ChunksOf(core: Core, b: seq<u32>, r: nat) returns (xs: seq<Chunk>)
    requires r >= 1 && |b| == 32 * r
    ensures AreChunks(core, b, r, xs)
  {
    hide IsRound, XorWords;
    xs := seq(2 * r + 1, i requires 0 <= i <= 2 * r => X(core, b, r, i));
    assert b[32 * r - 16..] == ChunkAt(b, 2 * r - 1);
    forall i: nat | i < 2 * r
      ensures IsRound(core, xs[i], b[16 * i..16 * i + 16], xs[i + 1])
    {
      assert xs[i + 1] == X(core, b, r, i + 1) == core(XorWords(X(core, b, r, i), ChunkAt(b, i)));
      RoundIs(core, xs[i], ChunkAt(b, i), xs[i + 1]);
    }
  }

  lemma ShuffledIs(core: Core, b: seq<u32>, r: nat, xs: seq<Chunk>, out: seq<u32>)
    requires r >= 1 && |b| == 32 * r == |out| && AreChunks(core, b, r, xs)
    ensures IsShuffled(xs, r, out) <==> IsBlockMix(core, b, r, out)
  {
    hide AreChunks, X;
    ChunkCount(core, b, r, xs);
    if IsShuffled(xs, r, out) {
      forall d: nat | d < 2 * r
        ensures ChunkAt(out, d) == Y(core, b, r, Shuffled(r, d))
      {
        ChunksAre(core, b, r, xs, Shuffled(r, d) + 1);
        if d >= r {
          assert ChunkAt(out, r + (d - r)) == xs[2 * (d - r) + 2];
        }
      }
    }
    if IsBlockMix(core, b, r, out) {
      forall d: nat | d < r
        ensures ChunkAt(out, d) == xs[2 * d + 1] && ChunkAt(out, r + d) == xs[2 * d + 2]
      {
        ChunksAre(core, b, r, xs, 2 * d + 1);
        ChunksAre(core, b, r, xs, 2 * d + 2);
        assert ChunkAt(out, d) == Y(core, b, r, Shuffled(r, d));
        assert ChunkAt(out, r + d) == Y(core, b, r, Shuffled(r, r + d));
      }
    }
  }

  lemma ChunkCount(core: Core, b: seq<u32>, r: nat, xs: seq<Chunk>)
    requires r >= 1 && |b| == 32 * r && AreChunks(core, b, r, xs)
    ensures |xs| == 2 * r + 1
  {
  }

  /** The block that the steps of section 4 lead to is this one and no other. */
  lemma MixesIff(core: Core, b: seq<u32>, r: nat, out: seq<u32>)
    requires r >= 1 && |b| == 32 * r
    ensures Mixes(core, b, r, out) <==> out == BlockMix(core, b, r)
  {
    hide AreChunks, IsShuffled, X;
    var mix := BlockMix(core, b, r);
    IsMix(core, b, r);
    hide BlockMix, IsBlockMix;
    var xs := ChunksOf(core, b, r);
    ChunkCount(core, b, r, xs);
    ShuffledIs(core, b, r, xs, mix);
    if Mixes(core, b, r, out) {
      var xs' :| AreChunks(core, b, r, xs') && IsShuffled(xs', r, out);
      ShuffledIs(core, b, r, xs', out);
      BlockMixIs(core, b, r, out);
    }
  }

  lemma IsMix(core: Core, b: seq<u32>, r: nat)
    requires r >= 1 && |b| == 32 * r
    ensures IsBlockMix(core, b, r, BlockMix(core, b, r))
  {
    hide X;
    var mix := BlockMix(core, b, r);
    forall d: nat | d < 2 * r
      ensures ChunkAt(mix, d) == Y(core, b, r, Shuffled(r, d))
    {
      var y := Y(core, b, r, Shuffled(r, d));
      forall e | 0 <= e < 16
        ensures ChunkAt(mix, d)[e] == y[e]
      {
        assert (16 * d + e) / 16 == d && (16 * d + e) % 16 == e;
      }
    }
  }

  lemma {:induction false} TableIs(core: Core, b: seq<u32>, r: nat, n: nat, vs: seq<seq<u32>>, i: nat)
    requires r >= 1 && |b| == 32 * r && IsTable(core, b, r, n, vs) && i <= n
    ensures vs[i] == Iterate(core, b, r, i)
  {
    hide Mixes, BlockMix;
    if i > 0 {
      TableIs(core, b, r, n, vs, i - 1);
      var j := i - 1;
      assert Mixes(core, vs[j], r, vs[j + 1]);
      MixesIff(core, vs[j], r, vs[j + 1]);
    }
  }

  lemma TableOf(core: Core, b: seq<u32>, r: nat, n: nat) returns (vs: seq<seq<u32>>)
    requires r >= 1 && |b| == 32 * r
    ensures IsTable(core, b, r, n, vs)
  {
    hide Mixes, BlockMix;
    vs := seq(n + 1, i requires 0 <= i <= n => Iterate(core, b, r, i));
    forall i: nat | i < n
      ensures Mixes(core, vs[i], r, vs[i + 1])
    {
      assert vs[i + 1] == Iterate(core, b, r, i + 1) == BlockMix(core, Iterate(core, b, r, i), r);
      MixesIff(core, vs[i], r, vs[i + 1]);
    }
  }

  lemma PickIs(core: Core, b: seq<u32>, r: nat, n: nat, vs: seq<seq<u32>>, x: seq<u32>, y: seq<u32>)
    requires r >= 1 && |b| == 32 * r == |x| && n >= 1 && IsTable(core, b, r, n, vs)
    ensures |vs| == n + 1
    ensures IsPick(core, r, n, vs, x, y) <==> y == MixStep(core, b, r, n, x)
  {
    hide Mixes, BlockMix, IsXor, XorWords, LittleEndian;
    assert ChunkAt(x, 2 * r - 1) == x[32 * r - 16..];
    var j := LittleEndian(x[32 * r - 16..]) % n;
    TableIs(core, b, r, n, vs, j);
    var z0 := XorWords(x, vs[j]);
    XorWordsIs(x, vs[j], z0);
    MixesIff(core, z0, r, y);
    if IsPick(core, r, n, vs, x, y) {
      var z: seq<u32> :| |z| == 32 * r && IsXor(x, vs[j], z) && Mixes(core, z, r, y);
      XorWordsIs(x, vs[j], z);
    }
  }

  lemma {:induction false} PicksAre(core: Core, b: seq<u32>, r: nat, n: nat, vs: seq<seq<u32>>, xs: seq<seq<u32>>,
                                    k: nat)
    requires r >= 1 && |b| == 32 * r && n >= 1 && IsTable(core, b, r, n, vs)
    requires ArePicks(core, r, n, vs, xs) && k < |xs|
    ensures xs[k] == Mixed(core, b, r, n, k)
  {
    hide IsTable, IsPick, MixStep;
    if k == 0 {
      TableIs(core, b, r, n, vs, n);
    } else {
      PicksAre(core, b, r, n, vs, xs, k - 1);
      var j := k - 1;
      assert IsPick(core, r, n, vs, xs[j], xs[j + 1]);
      PickIs(core, b, r, n, vs, xs[j], xs[j + 1]);
    }
  }

  lemma PicksOf(core: Core, b: seq<u32>, r: nat, n: nat, vs: seq<seq<u32>>) returns (xs: seq<seq<u32>>)
    requires r >= 1 && |b| == 32 * r && n >= 1 && IsTable(core, b, r, n, vs)
    ensures |vs| == |xs| == n + 1 && ArePicks(core, r, n, vs, xs)
  {
    hide IsPick, MixStep;
    TableIs(core, b, r, n, vs, n);
    assert |vs| == n + 1;
    hide IsTable;
    xs := seq(n + 1, k requires 0 <= k <= n => Mixed(core, b, r, n, k));
    forall k: nat | k < n
      ensures IsPick(core, r, n, vs, xs[k], xs[k + 1])
    {
      assert xs[k + 1] == Mixed(core, b, r, n, k + 1) == MixStep(core, b, r, n, Mixed(core, b, r, n, k));
      PickIs(core, b, r, n, vs, xs[k], xs[k + 1]);
    }
  }

  /** The block that the steps of section 5 lead to is this one and no other. */
  lemma RoMixesIff(core: Core, b: seq<u32>, r: nat, n: nat, out: seq<u32>)
    requires r >= 1 && |b| == 32 * r && n >= 1
    ensures RoMixes(core, b, r, n, out) <==> out == RoMixSpec(core, b, r, n)
  {
    hide IsTable, ArePicks, Mixed;
    var vs := TableOf(core, b, r, n);
    var xs := PicksOf(core, b, r, n, vs);
    PicksAre(core, b, r, n, vs, xs, n);
    if RoMixes(core, b, r, n, out) {
      var vs', xs' :| IsTable(core, b, r, n, vs') && ArePicks(core, r, n, vs', xs') && |xs'| == n + 1 && xs'[n] == out;
      PicksAre(core, b, r, n, vs', xs', n);
    }
  }

  // ---- Integerify from one word ----

  /** A power of two that fits in 32 bits divides 2^32. */
  lemma {:induction false} DividesWord(n: nat, k: nat) returns (m: nat)
    requires n == Pow2(k) && k <= 32
    ensures m > 0 && n * m == 0x1_0000_0000
  {
    m := Pow2(32 - k);
    Pow2Sum(k, 32 - k);
    Pow2Literals();
  }

  lemma {:induction false} Pow2Sum(a: nat, b: nat)
    ensures Pow2(a) * Pow2(b) == Pow2(a + b)
  {
    if a > 0 {
      Pow2Sum(a - 1, b);
      MulAssoc(Pow2(a - 1), Pow2(b));
    }
  }

  lemma MulAssoc(x: nat, y: nat)
    ensures (2 * x) * y == 2 * (x * y)
  {
  }

  lemma {:induction false} Pow2Monotone(a: nat, b: nat)
    requires a <= b
    ensures Pow2(a) <= Pow2(b)
  {
    if a < b {
      Pow2Monotone(a, b - 1);
    }
  }

  /** The low word alone decides the remainder. */
  lemma LowWordDecides(w: nat, t: nat, n: nat, m: nat)
    requires n > 0 && n * m == 0x1_0000_0000
    ensures (w + 0x1_0000_0000 * t) % n == w % n
  {
    var q, e := w / n, w % n;
    assert w == q * n + e;
    assert 0x1_0000_0000 * t == (m * t) * n by {
      assert (n * m) * t == (m * t) * n;
    }
    assert (q + m * t) * n == q * n + (m * t) * n;
    DivModUnique(w + 0x1_0000_0000 * t, n, q + m * t, e);
  }

  lemma TooWide(k: nat)
    requires k > 32
    ensures Pow2(k) >= 0x1_0000_0000
  {
    Pow2Literals();
    Pow2Monotone(32, k);
  }

  /** `b[block_words - 16] & (n - 1)` is Integerify(B) mod N for every N that scrypt accepts. */
  lemma MaskedLowWord(x: seq<u32>, r: nat, n: nat)
    requires r >= 1 && |x| == 32 * r
    requires IsPowerOfTwo(n) && n < 0x1_0000_0000
    ensures And(x[32 * r - 16], n - 1) == Integerify(x, r) % n
  {
    var k := PowerOfTwoHasExponent(n);
    if k > 32 {
      TooWide(k);
      assert false;
    }
    var m := DividesWord(n, k);
    AndMask(x[32 * r - 16], k);
    var last := ChunkAt(x, 2 * r - 1);
    assert last[0] == x[32 * r - 16];
    LowWordDecides(last[0], LittleEndian(last[1..]), n, m);
  }

  // ---- The in-place code ----

  /** `dst[..n].copy_from_slice(&src[..n])` at the given offsets. */
  method CopyFrom(dst: array<u32>, d: nat, src: array<u32>, s: nat, n: nat)
    requires dst != src && d + n <= dst.Length && s + n <= src.Length
    modifies dst
    ensures dst[d..d + n] == src[s..s + n]
    ensures dst[..d] == old(dst[..d]) && dst[d + n..] == old(dst[d + n..])
  {
    ghost var before := dst[..];
    forall i | d <= i < d + n { dst[i] := src[s + i - d]; }
    SameWords(dst[d..d + n], src[s..s + n]);
    SameWords(dst[..d], before[..d]);
    SameWords(dst[d + n..], before[d + n..]);
  }

  /** `dst[i] ^= src[i]` over `n` words at the given offsets. */
  method XorFrom(dst: array<u32>, d: nat, src: array<u32>, s: nat, n: nat)
    requires dst != src && d + n <= dst.Length && s + n <= src.Length
    modifies dst
    ensures dst[d..d + n] == XorWords(old(dst[d..d + n]), src[s..s + n])
    ensures dst[..d] == old(dst[..d]) && dst[d + n..] == old(dst[d + n..])
  {
    ghost var start := dst[..];
    for k := 0 to n
      invariant forall i :: d <= i < d + k ==> dst[i] == XorWord(start[i], src[s + i - d])
      invariant forall i :: d + k <= i < dst.Length ==> dst[i] == start[i]
      invariant forall i :: 0 <= i < d ==> dst[i] == start[i]
    {
      dst[d + k] := XorWord(dst[d + k], src[s + k]);
    }
    SameWords(dst[d..d + n], XorWords(start[d..d + n], src[s..s + n]));
    SameWords(dst[..d], start[..d]);
    SameWords(dst[d + n..], start[d + n..]);
  }

  lemma SameWords(a: seq<u32>, b: seq<u32>)
    requires |a| == |b| && forall i | 0 <= i < |a| :: a[i] == b[i]
    ensures a == b
  {
  }

  /** `block_mix`: reads the block at `off` in `input`, writes `output`. */
  method BlockMixInto(core: Core, input: array<u32>, off: nat, output: array<u32>, r: nat)
    requires r >= 1 && input != output
    requires off + 32 * r <= input.Length && output.Length == 32 * r
    modifies output
    ensures output[..] == BlockMix(core, input[off..off + 32 * r], r)
  {
    hide Written, X, BlockMix;
    ghost var b := input[off..off + 32 * r];
    FirstX(core, b, r);
    NothingWritten(core, b, r, output[..]);
    var x := new u32[16];
    CopyFrom(x, 0, input, off + 16 * (2 * r - 1), 16);
    assert x[..] == x[0..16] == ChunkAt(b, 2 * r - 1);
    for i := 0 to 2 * r
      invariant x[..] == X(core, b, r, i)
      invariant Written(core, b, r, output[..], i)
      modifies x, output
    {
      MixChunk(core, x, input, off, r, i);
      Emit(core, x, output, r, i, b);
    }
    AllWritten(core, b, r, output[..]);
  }

  lemma SliceChunk(s: seq<u32>, off: nat, r: nat, i: nat)
    requires off + 32 * r <= |s| && i < 2 * r
    ensures s[off + 16 * i..off + 16 * i + 16] == ChunkAt(s[off..off + 32 * r], i)
  {
    SliceOfSlice(s, off, off + 32 * r, 16 * i, 16);
  }

  lemma SliceOfSlice(s: seq<u32>, lo: nat, hi: nat, at: nat, n: nat)
    requires lo <= hi <= |s| && lo + at + n <= hi
    ensures s[lo..hi][at..at + n] == s[lo + at..lo + at + n]
  {
    SameWords(s[lo..hi][at..at + n], s[lo + at..lo + at + n]);
  }

  /** Even-indexed results go to the first half, odd-indexed ones to the second. */
  method Emit(core: Core, x: array<u32>, output: array<u32>, r: nat, i: nat, ghost b: seq<u32>)
    requires r >= 1 && |b| == 32 * r && i < 2 * r
    requires x != output && x.Length == 16 && output.Length == 32 * r
    requires x[..] == Y(core, b, r, i) && Written(core, b, r, output[..], i)
    modifies output
    ensures Written(core, b, r, output[..], i + 1)
  {
    var dst := if i % 2 == 0 then i / 2 else r + i / 2;
    hide Written, Y;
    ghost var before := output[..];
    CopyFrom(output, 16 * dst, x, 0, 16);
    assert x[..] == x[0..16];
    assert ChunkAt(output[..], dst) == output[16 * dst..16 * dst + 16];
    assert output[..][..16 * dst] == output[..16 * dst] && before[..16 * dst] == output[..16 * dst];
    assert output[..][16 * dst + 16..] == output[16 * dst + 16..] && before[16 * dst + 16..] == output[16 * dst + 16..];
    WrittenStep(core, b, r, before, output[..], i, dst);
  }

  /** Round `i`: `x[j] ^= input[i * 16 + j]` for each word, then `salsa20_8(&mut x)`. */
  method MixChunk(core: Core, x: array<u32>, input: array<u32>, off: nat, r: nat, i: nat)
    requires r >= 1 && i < 2 * r && off + 32 * r <= input.Length
    requires x.Length == 16 && x != input && x[..] == X(core, input[off..off + 32 * r], r, i)
    modifies x
    ensures x[..] == X(core, input[off..off + 32 * r], r, i + 1)
  {
    SliceChunk(input[..], off, r, i);
    XorChunk(x, input, off + 16 * i);
    ApplyCore(core, x);
  }

  method XorChunk(x: array<u32>, input: array<u32>, at: nat)
    requires x.Length == 16 && x != input && at + 16 <= input.Length
    modifies x
    ensures x[..] == XorWords(old(x[..]), input[at..at + 16])
  {
    assert x[..] == x[0..16];
    XorFrom(x, 0, input, at, 16);
    assert x[..] == x[0..16];
  }

  /** `salsa20_8(&mut x)`. */
  method ApplyCore(core: Core, x: array<u32>)
    requires x.Length == 16
    modifies x
    ensures x[..] == core(old(x[..]))
  {
    var y := core(x[..]);
    forall i | 0 <= i < 16 { x[i] := y[i]; }
    assert x[..] == y;
  }

  /** Every chunk that receives one of Y_0 .. Y_{i-1} holds it. */
  ghost predicate Written(core: Core, b: seq<u32>, r: nat, out: seq<u32>, i: nat)
    requires r >= 1 && |b| == 32 * r
  {
    && |out| == 32 * r
    && forall d: nat | d < 2 * r && Shuffled(r, d) < i :: ChunkAt(out, d) == Y(core, b, r, Shuffled(r, d))
  }

  lemma FirstX(core: Core, b: seq<u32>, r: nat)
    requires r >= 1 && |b| == 32 * r
    ensures X(core, b, r, 0) == ChunkAt(b, 2 * r - 1)
  {
  }

  lemma NothingWritten(core: Core, b: seq<u32>, r: nat, out: seq<u32>)
    requires r >= 1 && |b| == 32 * r && |out| == 32 * r
    ensures Written(core, b, r, out, 0)
  {
  }

  lemma AllWritten(core: Core, b: seq<u32>, r: nat, out: seq<u32>)
    requires r >= 1 && |b| == 32 * r && Written(core, b, r, out, 2 * r)
    ensures out == BlockMix(core, b, r)
  {
    BlockMixIs(core, b, r, out);
  }

  lemma WrittenStep(core: Core, b: seq<u32>, r: nat, before: seq<u32>, after: seq<u32>, i: nat, dst: nat)
    requires r >= 1 && |b| == 32 * r && i < 2 * r
    requires Written(core, b, r, before, i) && |after| == |before|
    requires dst == if i % 2 == 0 then i / 2 else r + i / 2
    requires before[..16 * dst] == after[..16 * dst] && before[16 * dst + 16..] == after[16 * dst + 16..]
    requires ChunkAt(after, dst) == Y(core, b, r, i)
    ensures Written(core, b, r, after, i + 1)
  {
    assert Shuffled(r, dst) == i;
    OneChunkChanged(before, after, dst);
    forall d: nat | d < 2 * r && Shuffled(r, d) < i + 1
      ensures ChunkAt(after, d) == Y(core, b, r, Shuffled(r, d))
    {
      if d != dst {
        assert Shuffled(r, d) < i;
        assert ChunkAt(before, d) == Y(core, b, r, Shuffled(r, d));
      }
    }
  }

  lemma OneChunkChanged(before: seq<u32>, after: seq<u32>, dst: nat)
    requires |before| == |after| && 16 * dst + 16 <= |after|
    requires before[..16 * dst] == after[..16 * dst] && before[16 * dst + 16..] == after[16 * dst + 16..]
    ensures forall d: nat | 16 * d + 16 <= |after| && d != dst :: ChunkAt(after, d) == ChunkAt(before, d)
  {
    forall d: nat | 16 * d + 16 <= |after| && d != dst
      ensures ChunkAt(after, d) == ChunkAt(before, d)
    {
      if d < dst {
        assert ChunkAt(after, d) == after[..16 * dst][16 * d..16 * d + 16];
        assert ChunkAt(before, d) == before[..16 * dst][16 * d..16 * d + 16];
      } else {
        var e := 16 * (d - dst - 1);
        assert ChunkAt(after, d) == after[16 * dst + 16..][e..e + 16];
        assert ChunkAt(before, d) == before[16 * dst + 16..][e..e + 16];
      }
    }
  }

  /** Cell `j` of the flat buffer `v` holds `x`; each cell is `w` words long. */
  ghost predicate Cell(v: seq<u32>, w: nat, j: nat, x: seq<u32>) {
    Fits(|v|, w, j) && v[j * w..][..w] == x
  }

  predicate Fits(len: nat, w: nat, j: nat) {
    j * w + w <= len
  }

  lemma CellBounds(w: nat, j: nat, n: nat)
    requires j < n
    ensures Fits(n * w, w, j)
  {
    var k := n - j - 1;
    assert n * w == (j + 1 + k) * w == (j + 1) * w + k * w;
    assert k * w >= 0;
  }

  /** Writing cell `i` leaves every earlier cell alone. */
  lemma EarlierCellsKept(before: seq<u32>, after: seq<u32>, w: nat, i: nat, j: nat, x: seq<u32>)
    requires j < i && i * w <= |before| && |before| == |after|
    requires before[..i * w] == after[..i * w]
    requires Cell(before, w, j, x)
    ensures Cell(after, w, j, x)
  {
    CellBounds(w, j, i);
    PrefixSlice(before, i * w, j * w, w);
    PrefixSlice(after, i * w, j * w, w);
  }

  lemma PrefixSlice(s: seq<u32>, p: nat, a: nat, w: nat)
    requires a + w <= p <= |s|
    ensures s[..p][a..][..w] == s[a..][..w]
  {
  }

  /** The first `n` cells of `v` hold V_0 .. V_{n-1}. */
  ghost predicate Filled(core: Core, b: seq<u32>, r: nat, w: nat, v: seq<u32>, n: nat)
    requires r >= 1 && |b| == 32 * r
  {
    forall j | 0 <= j < n :: Cell(v, w, j, Iterate(core, b, r, j))
  }

  /** The working buffers of one call: sizes in words, and no two of them the same. */
  ghost predicate Buffers(b: array<u32>, off: nat, n: nat, r: nat, w: nat, v: array<u32>, scratch: array<u32>) {
    && r >= 1 && w == 32 * r
    && off + w <= b.Length && v.Length == n * w && scratch.Length == w
    && b != v && b != scratch && v != scratch
  }

  /** `ro_mix` on the block at `off` in `b`; `v` and `scratch` are caller-supplied. */
  method RoMix(core: Core, b: array<u32>, off: nat, n: u32, r: nat, v: array<u32>, scratch: array<u32>)
    requires Buffers(b, off, n, r, 32 * r, v, scratch) && IsPowerOfTwo(n)
    modifies b, v, scratch
    ensures b[off..off + 32 * r] == RoMixSpec(core, old(b[off..off + 32 * r]), r, n)
    ensures SameElsewhere(old(b[..]), b[..], off, 32 * r)
  {
    hide Filled, Iterate, Mixed, IsPowerOfTwo, SameElsewhere;
    ghost var before, b0 := b[..], b[off..off + 32 * r];
    FillV(core, b, off, n, r, 32 * r, v, scratch);
    ghost var filled := b[..];
    MixAll(core, b, off, n, r, 32 * r, v, scratch, b0);
    SameElsewhereTwice(before, filled, b[..], off, 32 * r);
  }

  /** Nothing but the `w` words at `off` differs. */
  ghost predicate SameElsewhere(before: seq<u32>, after: seq<u32>, off: nat, w: nat) {
    && off + w <= |before| == |after|
    && before[..off] == after[..off] && before[off + w..] == after[off + w..]
  }

  lemma SameElsewhereTwice(s: seq<u32>, t: seq<u32>, u: seq<u32>, off: nat, w: nat)
    requires SameElsewhere(s, t, off, w) && SameElsewhere(t, u, off, w)
    ensures SameElsewhere(s, u, off, w)
  {
  }

  /** The second loop. */
  method MixAll(core: Core, b: array<u32>, off: nat, n: u32, r: nat, w: nat, v: array<u32>, scratch: array<u32>,
                ghost b0: seq<u32>)
    requires Buffers(b, off, n, r, w, v, scratch) && IsPowerOfTwo(n) && |b0| == w
    requires Filled(core, b0, r, w, v[..], n) && b[off..off + w] == Iterate(core, b0, r, n)
    modifies b, scratch
    ensures b[off..off + w] == Mixed(core, b0, r, n, n)
    ensures SameElsewhere(old(b[..]), b[..], off, w)
  {
    hide Filled, SameElsewhere;
    ghost var before := b[..];
    Unchanged(before, off, w);
    for k := 0 to n
      invariant b[off..off + w] == Mixed(core, b0, r, n, k)
      invariant SameElsewhere(before, b[..], off, w)
    {
      ghost var mid := b[..];
      MixRound(core, b, off, n, r, w, v, scratch, b0, k);
      SameElsewhereTwice(before, mid, b[..], off, w);
    }
  }

  lemma Unchanged(s: seq<u32>, off: nat, w: nat)
    requires off + w <= |s|
    ensures SameElsewhere(s, s, off, w)
  {
  }

  method MixRound(core: Core, b: array<u32>, off: nat, n: u32, r: nat, w: nat, v: array<u32>, scratch: array<u32>,
                  ghost b0: seq<u32>, ghost k: nat)
    requires Buffers(b, off, n, r, w, v, scratch) && |b0| == w && IsPowerOfTwo(n)
    requires Filled(core, b0, r, w, v[..], n) && b[off..off + w] == Mixed(core, b0, r, n, k)
    modifies b, scratch
    ensures b[off..off + w] == Mixed(core, b0, r, n, k + 1)
    ensures SameElsewhere(old(b[..]), b[..], off, w)
  {
    hide BlockMix, Iterate, And;
    ghost var x := b[off..off + w];
    MaskedLowWord(x, r, n);
    assert b[off + w - 16] == x[w - 16];
    var j := And(b[off + w - 16], n - 1);
    XorCell(core, b, off, n, r, w, v, j, b0);
    MixInPlace(core, b, off, scratch, r);
  }

  /** `for k in 0..block_words { b[k] ^= v[j * block_words + k] }`. */
  method XorCell(core: Core, b: array<u32>, off: nat, n: nat, r: nat, w: nat, v: array<u32>, j: nat, ghost b0: seq<u32>)
    requires r >= 1 && w == 32 * r && |b0| == w && j < n && b != v
    requires off + w <= b.Length && v.Length == n * w
    requires Filled(core, b0, r, w, v[..], n)
    modifies b
    ensures b[off..off + w] == XorWords(old(b[off..off + w]), Iterate(core, b0, r, j))
    ensures SameElsewhere(old(b[..]), b[..], off, w)
  {
    CellBounds(w, j, n);
    var at := j * w;
    assert Cell(v[..], w, j, Iterate(core, b0, r, j));
    assert v[at..at + w] == v[..][at..][..w];
    XorFrom(b, off, v, at, w);
  }

  /** `block_mix(b, scratch, r); b.copy_from_slice(scratch)`. */
  method MixInPlace(core: Core, b: array<u32>, off: nat, scratch: array<u32>, r: nat)
    requires r >= 1 && off + 32 * r <= b.Length && scratch.Length == 32 * r && b != scratch
    modifies b, scratch
    ensures b[off..off + 32 * r] == BlockMix(core, old(b[off..off + 32 * r]), r)
    ensures SameElsewhere(old(b[..]), b[..], off, 32 * r)
  {
    BlockMixInto(core, b, off, scratch, r);
    assert scratch[0..32 * r] == scratch[..];
    CopyFrom(b, off, scratch, 0, 32 * r);
  }

  /** The first loop: v[i] := b, b := BlockMix(b). */
  method FillV(core: Core, b: array<u32>, off: nat, n: nat, r: nat, w: nat, v: array<u32>, scratch: array<u32>)
    requires Buffers(b, off, n, r, w, v, scratch)
    modifies b, v, scratch
    ensures b[off..off + w] == Iterate(core, old(b[off..off + w]), r, n)
    ensures Filled(core, old(b[off..off + w]), r, w, v[..], n)
    ensures SameElsewhere(old(b[..]), b[..], off, w)
  {
    ghost var b0 := b[off..off + w];
    for i := 0 to n
      invariant b[off..off + w] == Iterate(core, b0, r, i)
      invariant Filled(core, b0, r, w, v[..], i)
      invariant SameElsewhere(old(b[..]), b[..], off, w)
    {
      StoreCell(core, b, off, n, r, w, v, i, b0);
      MixInPlace(core, b, off, scratch, r);
    }
  }

  /** `v[i * block_words..(i + 1) * block_words].copy_from_slice(b)`. */
  method StoreCell(core: Core, b: array<u32>, off: nat, n: nat, r: nat, w: nat, v: array<u32>, i: nat,
                   ghost b0: seq<u32>)
    requires r >= 1 && w == 32 * r && |b0| == w && i < n && b != v
    requires off + w <= b.Length && v.Length == n * w
    requires b[off..off + w] == Iterate(core, b0, r, i)
    requires Filled(core, b0, r, w, v[..], i)
    modifies v
    ensures Filled(core, b0, r, w, v[..], i + 1)
  {
    CellBounds(w, i, n);
    ghost var before := v[..];
    var at := i * w;
    CopyFrom(v, at, b, off, w);
    assert v[..][at..][..w] == v[at..at + w];
    FilledStep(core, b0, r, w, before, v[..], i);
  }

  lemma FilledStep(core: Core, b: seq<u32>, r: nat, w: nat, before: seq<u32>, after: seq<u32>, i: nat)
    requires r >= 1 && |b| == 32 * r
    requires Filled(core, b, r, w, before, i) && |before| == |after| && i * w <= |before|
    requires before[..i * w] == after[..i * w]
    requires Cell(after, w, i, Iterate(core, b, r, i))
    ensures Filled(core, b, r, w, after, i + 1)
  {
    forall j | 0 <= j < i
      ensures Cell(after, w, j, Iterate(core, b, r, j))
    {
      EarlierCellsKept(before, after, w, i, j, Iterate(core, b, r, j));
    }
  }
}
