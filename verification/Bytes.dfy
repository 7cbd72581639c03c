/** Byte arithmetic: values 0..255, multiplication modulo 256 and bitwise exclusive or. */
module Bytes {

  type Byte = x: int | 0 <= x < 256

  type Blob = seq<Byte>

  /** The conversion of an integer to a byte keeps the low eight bits. */
  function ByteOf(n: nat): Byte {
    n % 256
  }

  /** Byte multiplication wraps around. */
  function Mul(x: Byte, y: Byte): Byte {
    (x * y) % 256
  }

  /** Bitwise exclusive or of natural numbers, low bit first. */
  function XorNat(x: nat, y: nat): nat
    decreases x + y
  {
    if x == 0 && y == 0 then 0
    else 2 * XorNat(x / 2, y / 2) + (if x % 2 == y % 2 then 0 else 1)
  }

  function Xor(x: Byte, y: Byte): Byte {
    XorNatBound(x, y, 8);
    XorNat(x, y)
  }

  function Zeros(n: nat): Blob {
    seq(n, _ => 0)
  }

  function Min(a: int, b: int): int {
    if a <= b then a else b
  }

  // ---------- exclusive or ----------

  function Pow2(k: nat): nat {
    if k == 0 then 1 else 2 * Pow2(k - 1)
  }

  lemma {:induction false} XorNatBound(x: nat, y: nat, k: nat)
    requires x < Pow2(k) && y < Pow2(k)
    ensures XorNat(x, y) < Pow2(k)
    ensures Pow2(8) == 256
  {
    if k > 0 {
      XorNatBound(x / 2, y / 2, k - 1);
    }
  }

  lemma {:induction false} XorNatSymmetric(x: nat, y: nat)
    ensures XorNat(x, y) == XorNat(y, x)
    decreases x + y
  {
    if x + y > 0 {
      XorNatSymmetric(x / 2, y / 2);
    }
  }

  lemma {:induction false} XorNatAssociative(x: nat, y: nat, z: nat)
    ensures XorNat(XorNat(x, y), z) == XorNat(x, XorNat(y, z))
    decreases x + y + z
  {
    if x + y + z > 0 {
      XorNatAssociative(x / 2, y / 2, z / 2);
      XorNatHalves(x, y);
      XorNatHalves(y, z);
      XorNatHalves(XorNat(x, y), z);
      XorNatHalves(x, XorNat(y, z));
    }
  }

  lemma {:induction false} XorNatUnits(x: nat)
    ensures XorNat(x, 0) == x && XorNat(x, x) == 0
  {
    if x > 0 {
      XorNatUnits(x / 2);
    }
  }

  /** Exclusive or is a commutative group in which every element is its own inverse. */
  lemma XorLaws(x: Byte, y: Byte, z: Byte)
    ensures Xor(x, y) == Xor(y, x)
    ensures Xor(Xor(x, y), z) == Xor(x, Xor(y, z))
    ensures Xor(x, 0) == x && Xor(0, x) == x && Xor(x, x) == 0
    ensures Xor(Xor(x, y), y) == x
  {
    XorNatSymmetric(x, y);
    XorNatSymmetric(x, 0);
    XorNatAssociative(x, y, z);
    XorNatAssociative(x, y, y);
    XorNatUnits(x);
    XorNatUnits(y);
  }

  lemma XorSwap(x: Byte, y: Byte, z: Byte)
    ensures Xor(Xor(x, y), z) == Xor(Xor(x, z), y)
  {
    XorLaws(x, y, z);
    XorLaws(x, z, y);
    XorLaws(y, z, x);
  }

  lemma XorCancel(x: Byte, y: Byte, z: Byte)
    requires Xor(x, y) == Xor(x, z)
    ensures y == z
  {
    XorLaws(y, x, 0);
    XorLaws(z, x, 0);
  }

  lemma {:induction false} XorNatMod(x: nat, y: nat, k: nat)
    ensures Pow2(k) > 0
    ensures XorNat(x, y) % Pow2(k) == XorNat(x % Pow2(k), y % Pow2(k))
  {
    if k > 0 {
      XorNatMod(x / 2, y / 2, k - 1);
      XorNatModStep(x, y, Pow2(k - 1), Pow2(k));
    }
  }

  lemma XorNatModStep(x: nat, y: nat, m: nat, n: nat)
    requires m > 0 && n == 2 * m
    requires XorNat(x / 2, y / 2) % m == XorNat((x / 2) % m, (y / 2) % m)
    ensures XorNat(x, y) % n == XorNat(x % n, y % n)
  {
    var a, b, z := (x / 2) % m, (y / 2) % m, XorNat(x, y);
    XorNatHalves(x, y);
    ModSplit(x, m, n);
    ModSplit(y, m, n);
    ModSplit(z, m, n);
    XorNatJoin(a, x % 2, b, y % 2);
  }

  lemma XorNatJoin(x: nat, a: nat, y: nat, b: nat)
    requires a < 2 && b < 2
    ensures XorNat(2 * x + a, 2 * y + b) == 2 * XorNat(x, y) + (if a == b then 0 else 1)
  {
    XorNatHalves(2 * x + a, 2 * y + b);
  }

  lemma XorNatHalves(x: nat, y: nat)
    ensures XorNat(x, y) / 2 == XorNat(x / 2, y / 2)
    ensures XorNat(x, y) % 2 == if x % 2 == y % 2 then 0 else 1
  {
  }

  lemma ModSplit(x: nat, m: nat, n: nat)
    requires m > 0 && n == 2 * m
    ensures x % n == 2 * ((x / 2) % m) + x % 2
  {
    var q, r := (x / 2) / m, (x / 2) % m;
    assert x / 2 == q * m + r;
    assert q * n == 2 * (q * m);
    ModUnique(x, n, q, 2 * r + x % 2);
  }

  lemma MulGap(d: int, m: int)
    requires m > 0
    ensures d >= 1 ==> d * m >= m
    ensures d <= -1 ==> d * m <= -m
  {
    assert d >= 1 ==> (d - 1) * m >= 0;
    assert d <= -1 ==> (d + 1) * m <= 0;
  }

  lemma MulMonotone(a: int, b: int, m: nat)
    requires a <= b
    ensures a * m <= b * m
  {
    assert (b - a) * m >= 0;
  }

  lemma NextMultiple(t: int, m: int)
    ensures (t + 1) * m == t * m + m
  {
  }

  lemma ModUnique(x: int, m: int, q: int, r: int)
    requires 0 <= r < m && x == q * m + r
    ensures x % m == r
  {
    var d := x / m;
    assert (q - d) * m == x % m - r;
    MulGap(q - d, m);
  }

  lemma XorNatLowByte(x: nat, y: nat)
    ensures XorNat(x, y) % 256 == XorNat(x % 256, y % 256)
  {
    XorNatBound(0, 0, 8);
    XorNatMod(x, y, 8);
  }

  lemma DoubleXorNat(x: nat, y: nat)
    ensures (XorNat(x, y) * 2) % 256 == XorNat((x * 2) % 256, (y * 2) % 256)
  {
    var p, q := x * 2, y * 2;
    assert XorNat(p, q) == XorNat(x, y) * 2 by { XorNatDoubled(x, y, p, q); }
    XorNatLowByte(p, q);
  }

  lemma XorNatDoubled(x: nat, y: nat, p: nat, q: nat)
    requires p == x * 2 && q == y * 2
    ensures XorNat(p, q) == XorNat(x, y) * 2
  {
    XorNatJoin(x, 0, y, 0);
  }

  /** Doubling distributes over exclusive or; multiplication by other factors need not. */
  lemma DoubleXor(x: Byte, y: Byte)
    ensures Mul(Xor(x, y), 2) == Xor(Mul(x, 2), Mul(y, 2))
  {
    DoubleXorNat(x, y);
  }

  /** The recursive exclusive or is the machine operation on eight-bit words. */
  lemma {:induction false} XorIsBitwise(a: bv8, b: bv8)
    ensures XorNat(a as nat, b as nat) == (a ^ b) as nat
    decreases a as nat + b as nat
  {
    if a == 0 && b == 0 {
    } else {
      Positive(a, b);
      HalfNat(a);
      HalfNat(b);
      XorIsBitwise(a >> 1, b >> 1);
      XorWordStep(a, b);
    }
  }

  lemma XorWordStep(a: bv8, b: bv8)
    requires XorNat((a >> 1) as nat, (b >> 1) as nat) == ((a >> 1) ^ (b >> 1)) as nat
    ensures XorNat(a as nat, b as nat) == (a ^ b) as nat
  {
    HalfNat(a);
    HalfNat(b);
    XorNatHigh(a, b);
    XorNatLow(a, b);
    XorNatUnique(a as nat, b as nat, (a ^ b) as nat, (a >> 1) as nat, (b >> 1) as nat, ((a >> 1) ^ (b >> 1)) as nat);
  }

  lemma HalfNat(a: bv8)
    ensures (a >> 1) as nat == a as nat / 2
  {
  }

  lemma XorNatHigh(a: bv8, b: bv8)
    ensures ((a >> 1) ^ (b >> 1)) as nat == (a ^ b) as nat / 2
  {
    HalfNat(a ^ b);
    assert (a ^ b) >> 1 == (a >> 1) ^ (b >> 1);
  }

  lemma LowBit(a: bv8)
    ensures (a & 1 == 1) <==> a as nat % 2 == 1
  {
  }

  lemma XorNatLow(a: bv8, b: bv8)
    ensures ((a ^ b) as nat) % 2 == 1 <==> (a as nat) % 2 != (b as nat) % 2
  {
    LowBit(a);
    LowBit(b);
    LowBit(a ^ b);
    assert ((a ^ b) & 1 == 1) <==> ((a & 1 == 1) != (b & 1 == 1));
  }

  lemma XorNatUnique(x: nat, y: nat, z: nat, x': nat, y': nat, z': nat)
    requires x' == x / 2 && y' == y / 2 && z' == z / 2
    requires z' == XorNat(x', y')
    requires z % 2 == 1 <==> x % 2 != y % 2
    ensures XorNat(x, y) == z
  {
    XorNatHalves(x, y);
  }


  lemma Positive(a: bv8, b: bv8)
    requires a != 0 || b != 0
    ensures a as nat + b as nat > 0
  {
  }


  // ---------- multiplication modulo 256 ----------

  lemma ModMulLeft(x: int, y: int)
    ensures ((x % 256) * y) % 256 == (x * y) % 256
  {
    var q := x / 256;
    assert x * y == (q * y) * 256 + (x % 256) * y;
    ModShift((x % 256) * y, q * y);
  }

  lemma ModShift(x: int, q: int)
    ensures (q * 256 + x) % 256 == x % 256
  {
    ModUnique(q * 256 + x, 256, q + x / 256, x % 256);
  }

  lemma MulTruncated(d: Byte, c: nat)
    ensures Mul(d, ByteOf(c)) == (d * c) % 256
  {
    ModMulLeft(c, d);
    assert d * (c % 256) == (c % 256) * d;
    assert d * c == c * d;
  }

  lemma MulDouble(d: Byte, c: nat)
    ensures Mul(d, ByteOf(2 * c)) == Mul(Mul(d, ByteOf(c)), 2)
  {
    MulTruncated(d, 2 * c);
    MulTruncated(d, c);
    ModMulLeft(d * c, 2);
    assert d * (2 * c) == (d * c) * 2;
  }

  /** Truncating the factors first does not change the byte product. */
  lemma MulOfTruncated(a: nat, b: nat)
    ensures ByteOf(a * b) == Mul(ByteOf(a), ByteOf(b))
  {
    ModMulLeft(a, b);
    ModMulLeft(b, ByteOf(a));
    assert ByteOf(a) * b == b * ByteOf(a) && ByteOf(b) * ByteOf(a) == ByteOf(a) * ByteOf(b);
  }

  /** An odd factor can be cancelled modulo 256. */
  lemma OddCancel(x: Byte, y: Byte, c: nat)
    requires c % 2 == 1
    requires Mul(x, ByteOf(c)) == Mul(y, ByteOf(c))
    ensures x == y
  {
    ModMulLeft(c, x);
    ModMulLeft(c, y);
    SameResidue(x * c, y * c);
    assert x * c - y * c == (x - y) * c;
    OddDivides(x - y, c, 8);
    XorNatBound(0, 0, 8);
  }

  lemma SameResidue(x: int, y: int)
    requires x % 256 == y % 256
    ensures (x - y) % 256 == 0
  {
  }

  lemma OddFactor(d: int, c: nat)
    requires c % 2 == 1
    ensures (d * c) % 2 == d % 2
  {
    var h := c / 2;
    assert c == 2 * h + 1;
    assert d * (2 * h + 1) == 2 * (d * h) + d;
    EvenShift(d * h, d);
  }

  lemma EvenShift(p: int, d: int)
    ensures (2 * p + d) % 2 == d % 2
  {
  }

  lemma {:induction false} OddDivides(d: int, c: nat, k: nat)
    requires c % 2 == 1
    requires Pow2(k) > 0 && (d * c) % Pow2(k) == 0
    ensures d % Pow2(k) == 0
    decreases k
  {
    if k > 0 {
      var m := Pow2(k - 1);
      OddFactor(d, c);
      EvenPart(d * c, m);
      assert d == 2 * (d / 2);
      assert d * c == 2 * ((d / 2) * c);
      EvenPart(2 * ((d / 2) * c), m);
      OddDivides(d / 2, c, k - 1);
      EvenPart(d, m);
    }
  }

  lemma EvenPart(x: int, m: nat)
    requires m > 0
    ensures x % (2 * m) == 0 <==> x % 2 == 0 && (x / 2) % m == 0
  {
    var q := x / (2 * m);
    if x % (2 * m) == 0 {
      assert x == 2 * (q * m);
      ModUnique(x / 2, m, q, 0);
    }
    var p := (x / 2) / m;
    if x % 2 == 0 && (x / 2) % m == 0 {
      assert x == p * (2 * m);
      ModUnique(x, 2 * m, p, 0);
    }
  }

  /** An even factor cannot tell 128 from 0. */
  lemma EvenLoses(c: nat)
    requires c % 2 == 0
    ensures Mul(128, ByteOf(c)) == 0 == Mul(0, ByteOf(c))
  {
    var h, r := c / 2, c % 256;
    assert r == 2 * (h % 128);
    assert 128 * r == 256 * (h % 128) + 0;
    ModShift(0, h % 128);
  }
}
