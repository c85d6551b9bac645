/**
 Machine integers as bounded mathematical integers, the bitwise operators the
 backend applies to them, and big- and little-endian encodings.

 `And` and `Xor` are defined bit by bit on natural numbers, so the lemma that
 replaces a mask by a remainder is proved, not assumed.
 */
module Bits {

  type byte = x: int | 0 <= x < 0x100
  type u32 = x: int | 0 <= x < 0x1_0000_0000

  const TWO_64: nat := 0x1_0000_0000_0000_0000

  function Pow2(k: nat): (p: nat)
    ensures p > 0
  {
    if k == 0 then 1 else 2 * Pow2(k - 1)
  }

  function Min(a: nat, b: nat): nat {
    if a <= b then a else b
  }

  predicate IsPowerOfTwo(n: nat) {
    n == 1 || (n > 1 && n % 2 == 0 && IsPowerOfTwo(n / 2))
  }

  lemma {:induction false} PowerOfTwoHasExponent(n: nat) returns (k: nat)
    requires IsPowerOfTwo(n)
    ensures n == Pow2(k)
  {
    if n == 1 {
      k := 0;
    } else {
      var j := PowerOfTwoHasExponent(n / 2);
      k := j + 1;
    }
  }

  /** And every power of two from the first on is one. */
  lemma {:induction false} ExponentIsPowerOfTwo(k: nat)
    ensures IsPowerOfTwo(Pow2(k))
  {
    if k > 0 {
      ExponentIsPowerOfTwo(k - 1);
    }
  }

  ghost predicate IsSomePow2(n: nat) {
    exists k :: n == Pow2(k)
  }

  lemma PowerOfTwoIff(n: nat)
    ensures IsPowerOfTwo(n) <==> IsSomePow2(n)
  {
    if IsPowerOfTwo(n) {
      var k := PowerOfTwoHasExponent(n);
    } else if IsSomePow2(n) {
      var k :| n == Pow2(k);
      ExponentIsPowerOfTwo(k);
    }
  }

  // ---- Bitwise operators ----

  function And(x: nat, y: nat): nat {
    if x == 0 || y == 0 then 0 else (if x % 2 == 1 && y % 2 == 1 then 1 else 0) + 2 * And(x / 2, y / 2)
  }

  function Xor(x: nat, y: nat): nat {
    if x == 0 then y
    else if y == 0 then x
    else (if x % 2 == y % 2 then 0 else 1) + 2 * Xor(x / 2, y / 2)
  }

  /** Whether bit `k`, counted from the lowest, is set. */
  predicate Bit(x: nat, k: nat) {
    x / Pow2(k) % 2 == 1
  }

  lemma HalveBit(x: nat, k: nat)
    ensures Bit(x, k + 1) <==> Bit(x / 2, k)
    ensures Bit(x, 0) <==> x % 2 == 1
  {
    DivDiv(x, 2, Pow2(k));
    assert Pow2(0) == 1;
  }

  lemma DivDiv(x: nat, a: nat, b: nat)
    requires a > 0 && b > 0
    ensures a * b > 0 && x / a / b == x / (a * b)
  {
    Quotient(x, a);
    Quotient(x / a, b);
    Nested(x / a / b, x / a % b, x % a, a, b);
    DivModUnique(x, a * b, x / a / b, x / a % b * a + x % a);
  }

  lemma Quotient(x: nat, m: nat)
    requires m > 0
    ensures x == x / m * m + x % m && 0 <= x % m < m && x / m >= 0
  {
  }

  lemma Nested(q: nat, t: nat, r: nat, a: nat, b: nat)
    requires t < b && r < a
    ensures (q * b + t) * a + r == q * (a * b) + (t * a + r)
    ensures 0 <= t * a + r < a * b
  {
    assert (q * b + t) * a == q * b * a + t * a;
    assert q * b * a == q * (a * b);
    var d := b - 1 - t;
    assert a * b == (t + 1 + d) * a == t * a + a + d * a;
    assert d * a >= 0 && t * a >= 0;
  }

  /** `Xor` sets the bits that differ. */
  lemma {:induction false} XorIsBitwise(x: nat, y: nat, k: nat)
    ensures Bit(Xor(x, y), k) <==> Bit(x, k) != Bit(y, k)
    decreases k
  {
    if x == 0 || y == 0 {
      NoBits(k);
    } else {
      HalvedXor(x, y);
      HalveBit(x, 0);
      HalveBit(y, 0);
      HalveBit(Xor(x, y), 0);
      if k > 0 {
        HalveBit(x, k - 1);
        HalveBit(y, k - 1);
        HalveBit(Xor(x, y), k - 1);
        XorIsBitwise(x / 2, y / 2, k - 1);
      }
    }
    hide Bit, Xor;
  }

  lemma HalvedXor(x: nat, y: nat)
    requires x > 0 && y > 0
    ensures Xor(x, y) / 2 == Xor(x / 2, y / 2) && (Xor(x, y) % 2 == 1 <==> x % 2 != y % 2)
  {
  }

  lemma NoBits(k: nat)
    ensures !Bit(0, k)
    ensures forall x: nat :: Xor(0, x) == x && Xor(x, 0) == x
  {
    ModSmall(Pow2(k));
    DivModUnique(0, Pow2(k), 0, 0);
  }

  /** Numbers with the same bits are the same. */
  lemma {:induction false} SameBits(x: nat, y: nat)
    requires forall j: nat :: Bit(x, j) <==> Bit(y, j)
    ensures x == y
    decreases x + y
  {
    if x > 0 || y > 0 {
      forall j: nat
        ensures Bit(x / 2, j) <==> Bit(y / 2, j)
      {
        HalveBit(x, j);
        HalveBit(y, j);
      }
      assert Bit(x, 0) <==> Bit(y, 0);
      HalveBit(x, 0);
      HalveBit(y, 0);
      SameBits(x / 2, y / 2);
    }
    hide Bit;
  }

  /** `x` is `a` and `b` combined place by place and bit by bit. */
  ghost predicate IsXor(a: seq<nat>, b: seq<nat>, x: seq<nat>) {
    && |a| == |b| == |x|
    && forall i, j: nat | 0 <= i < |x| :: Bit(x[i], j) <==> Bit(a[i], j) != Bit(b[i], j)
  }

  lemma XorIs(a: seq<nat>, b: seq<nat>, x: seq<nat>)
    requires |a| == |b| == |x|
    ensures IsXor(a, b, x) <==> forall i | 0 <= i < |x| :: x[i] == Xor(a[i], b[i])
  {
    hide Bit, Xor;
    forall i, j: nat | 0 <= i < |x|
      ensures Bit(Xor(a[i], b[i]), j) <==> Bit(a[i], j) != Bit(b[i], j)
    {
      XorIsBitwise(a[i], b[i], j);
    }
    if IsXor(a, b, x) {
      forall i | 0 <= i < |x|
        ensures x[i] == Xor(a[i], b[i])
      {
        forall j: nat
          ensures Bit(x[i], j) <==> Bit(Xor(a[i], b[i]), j)
        {
          assert Bit(x[i], j) <==> Bit(a[i], j) != Bit(b[i], j);
        }
        SameBits(x[i], Xor(a[i], b[i]));
      }
    }
  }

  /** Masking with `2^k - 1` keeps the remainder modulo `2^k`. */
  lemma {:induction false} AndMask(x: nat, k: nat)
    ensures And(x, Pow2(k) - 1) == x % Pow2(k)
  {
    if k == 0 || x == 0 {
      ModSmall(Pow2(k));
    } else {
      AndMask(x / 2, k - 1);
      AndStep(x, Pow2(k - 1));
    }
  }

  lemma ModSmall(m: nat)
    requires m > 0
    ensures 0 % m == 0
  {
  }

  lemma AndStep(x: nat, m: nat)
    requires x > 0 && m > 0 && And(x / 2, m - 1) == (x / 2) % m
    ensures And(x, 2 * m - 1) == x % (2 * m)
  {
    assert (2 * m - 1) / 2 == m - 1 && (2 * m - 1) % 2 == 1;
    ModDouble(x, m);
  }

  lemma ModDouble(x: nat, m: nat)
    requires m > 0
    ensures x % (2 * m) == x % 2 + 2 * ((x / 2) % m)
  {
    var q, r := (x / 2) / m, (x / 2) % m;
    assert x / 2 == q * m + r;
    assert x == 2 * (q * m + r) + x % 2;
    assert 2 * (q * m) == q * (2 * m);
    DivModUnique(x, 2 * m, q, 2 * r + x % 2);
  }

  lemma DivModUnique(x: int, m: int, q: int, r: int)
    requires m > 0 && 0 <= r < m && x == q * m + r
    ensures x / m == q && x % m == r
  {
    var d, e := x / m, x % m;
    assert x == d * m + e;
    assert q * m - d * m == (q - d) * m;
    if q > d {
      MulAtLeast(q - d, m);
      assert false;
    } else if q < d {
      assert d * m - q * m == (d - q) * m;
      MulAtLeast(d - q, m);
      assert false;
    }
  }

  lemma MulAtLeast(a: int, m: int)
    requires a >= 1 && m > 0
    ensures a * m >= m
  {
  }

  lemma {:induction false} XorBound(x: nat, y: nat, k: nat)
    requires x < Pow2(k) && y < Pow2(k)
    ensures Xor(x, y) < Pow2(k)
    decreases k
  {
    if k > 0 && x > 0 && y > 0 {
      XorBound(x / 2, y / 2, k - 1);
    }
  }

  lemma Pow2Literals()
    ensures Pow2(2) == 4 && Pow2(4) == 16 && Pow2(6) == 64 && Pow2(8) == 256
    ensures Pow2(10) == 1024 && Pow2(12) == 4096 && Pow2(16) == 0x1_0000 && Pow2(18) == 0x4_0000
    ensures Pow2(32) == 0x1_0000_0000
  {
    assert Pow2(4) == 16;
    assert Pow2(8) == 256;
    assert Pow2(12) == 4096;
    assert Pow2(16) == 0x1_0000;
    assert Pow2(20) == 0x10_0000;
    assert Pow2(24) == 0x100_0000;
    assert Pow2(28) == 0x1000_0000;
  }

  function XorByte(x: byte, y: byte): byte {
    Pow2Literals();
    XorBound(x, y, 8);
    Xor(x, y)
  }

  function XorWord(x: u32, y: u32): u32 {
    Pow2Literals();
    XorBound(x, y, 32);
    Xor(x, y)
  }

  // ---- Byte order ----

  /** The last `k` base-256 digits of `n`, most significant first. */
  function BigEndian(n: nat, k: nat): (s: seq<byte>)
    ensures |s| == k
  {
    if k == 0 then [] else BigEndian(n / 256, k - 1) + [n % 256]
  }

  function FromBigEndian(s: seq<byte>): nat {
    if s == [] then 0 else 256 * FromBigEndian(s[..|s| - 1]) + s[|s| - 1] as int
  }

  function Pow256(k: nat): (p: nat)
    ensures p > 0
  {
    if k == 0 then 1 else 256 * Pow256(k - 1)
  }

  /** Encoding keeps exactly the value modulo `256^k`, which is what truncation to k bytes means. */
  lemma {:induction false} BigEndianRoundTrip(n: nat, k: nat)
    ensures FromBigEndian(BigEndian(n, k)) == n % Pow256(k)
  {
    if k > 0 {
      BigEndianRoundTrip(n / 256, k - 1);
      var s := BigEndian(n, k);
      assert s[..k - 1] == BigEndian(n / 256, k - 1);
      ModTimes256(n, Pow256(k - 1));
    }
  }

  /** Byte `i` from the front is the digit of that place. */
  lemma {:induction false} BigEndianAt(n: nat, k: nat, i: nat)
    requires i < k
    ensures BigEndian(n, k)[i] == n / Pow256(k - 1 - i) % 256
  {
    if i < k - 1 {
      BigEndianAt(n / 256, k - 1, i);
      DivDiv(n, 256, Pow256(k - 2 - i));
    } else {
      assert Pow256(0) == 1;
    }
  }

  /** The first byte stands for the highest place. */
  lemma {:induction false} FirstPlace(s: seq<byte>)
    requires s != []
    ensures FromBigEndian(s) == s[0] as int * Pow256(|s| - 1) + FromBigEndian(s[1..])
  {
    var n := |s| - 1;
    if n == 0 {
      assert s[..0] == [] && s[1..] == [] && Pow256(0) == 1;
    } else {
      FirstPlace(s[..n]);
      assert s[..n][1..] == s[1..][..n - 1];
      var d := s[0] as int;
      assert 256 * (d * Pow256(n - 1)) == d * (256 * Pow256(n - 1)) == d * Pow256(n);
    }
  }

  /** Bytes are the encoding of their value. */
  lemma {:induction false} BigEndianBack(s: seq<byte>)
    ensures BigEndian(FromBigEndian(s), |s|) == s
  {
    if s != [] {
      var n := |s| - 1;
      BigEndianBack(s[..n]);
      DivModUnique(FromBigEndian(s), 256, FromBigEndian(s[..n]), s[n]);
      assert s == s[..n] + [s[n]];
    }
  }

  lemma ModTimes256(n: nat, m: nat)
    requires m > 0
    ensures n % (256 * m) == 256 * ((n / 256) % m) + n % 256
  {
    var q, r := (n / 256) / m, (n / 256) % m;
    assert n / 256 == q * m + r;
    assert 256 * (q * m) == q * (256 * m);
    DivModUnique(n, 256 * m, q, 256 * r + n % 256);
  }

  /** `u32::to_le_bytes`. */
  function WordToBytes(w: u32): (s: seq<byte>)
    ensures |s| == 4
  {
    [w % 256, w / 256 % 256, w / 0x1_0000 % 256, w / 0x100_0000]
  }

  /** `u32::from_le_bytes`. */
  function BytesToWord(s: seq<byte>): u32
    requires |s| == 4
  {
    s[0] as int + 256 * s[1] as int + 0x1_0000 * s[2] as int + 0x100_0000 * s[3] as int
  }

  /** Byte `j` is the digit of place `j`. */
  lemma WordBytesAt(w: u32, j: nat)
    requires j < 4
    ensures WordToBytes(w)[j] == w / Pow256(j) % 256
  {
    assert Pow256(0) == 1 && Pow256(1) == 256;
    assert Pow256(2) == 0x1_0000 && Pow256(3) == 256 * Pow256(2);
  }

  lemma WordBytesRoundTrip(w: u32)
    ensures BytesToWord(WordToBytes(w)) == w
  {
    var a, b, c := w / 256, w / 0x1_0000, w / 0x100_0000;
    assert w == 256 * a + w % 256;
    assert a / 256 == b && b / 256 == c;
    assert a == 256 * b + a % 256;
    assert b == 256 * c + b % 256;
  }

  lemma BytesWordRoundTrip(s: seq<byte>)
    requires |s| == 4
    ensures WordToBytes(BytesToWord(s)) == s
  {
    var w := BytesToWord(s);
    DivModUnique(w, 256, s[1] as int + 256 * s[2] as int + 0x1_0000 * s[3] as int, s[0]);
    DivModUnique(w, 0x1_0000, s[2] as int + 256 * s[3] as int, s[0] as int + 256 * s[1] as int);
    DivModUnique(w, 0x100_0000, s[3], s[0] as int + 256 * s[1] as int + 0x1_0000 * s[2] as int);
  }

  function Concat<T>(parts: seq<seq<T>>): seq<T> {
    if parts == [] then [] else parts[0] + Concat(parts[1..])
  }

  lemma {:induction false} ConcatSnoc<T>(parts: seq<seq<T>>, last: seq<T>)
    ensures Concat(parts + [last]) == Concat(parts) + last
  {
    if parts == [] {
      assert parts + [last] == [last];
      assert [last][1..] == [];
    } else {
      assert (parts + [last])[1..] == parts[1..] + [last];
      ConcatSnoc(parts[1..], last);
    }
  }
}
