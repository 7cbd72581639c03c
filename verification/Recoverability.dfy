/** What the parity rows can determine, whatever the decoder. */
module Recoverability {
  import opened Bytes
  import opened Erasure

  // ---------- exclusive-or sums ----------

  lemma {:induction false} XorSumUpdate(xs: seq<Byte>, j: nat, v: Byte)
    requires j < |xs|
    ensures XorSum(xs[j := v]) == Xor(Xor(XorSum(xs), xs[j]), v)
  {
    var n := |xs| - 1;
    if j < n {
      assert xs[j := v][..n] == xs[..n][j := v];
      XorSumUpdate(xs[..n], j, v);
      var s := XorSum(xs[..n]);
      XorSwap(Xor(s, xs[j]), v, xs[n]);
      XorSwap(s, xs[j], xs[n]);
    } else {
      assert xs[j := v][..n] == xs[..n];
      XorLaws(XorSum(xs[..n]), xs[n], 0);
    }
  }

  lemma {:induction false} XorSumDoubles(xs: seq<Byte>, ys: seq<Byte>)
    requires |xs| == |ys|
    requires forall j :: 0 <= j < |xs| ==> ys[j] == Mul(xs[j], 2)
    ensures XorSum(ys) == Mul(XorSum(xs), 2)
  {
    if xs != [] {
      var n := |xs| - 1;
      XorSumDoubles(xs[..n], ys[..n]);
      DoubleXor(XorSum(xs[..n]), xs[n]);
    }
  }

  // ---------- parity rows ----------

  /** Changing one data byte changes a parity byte by the two weighted bytes. */
  lemma ParityByteUpdate(column: seq<Byte>, i: nat, j: nat, v: Byte)
    requires j < |column|
    ensures ParityByte(column[j := v], i)
        == Xor(Xor(ParityByte(column, i), Mul(column[j], Coefficient(i, j))), Mul(v, Coefficient(i, j)))
  {
    assert Weighted(column[j := v], i) == Weighted(column, i)[j := Mul(v, Coefficient(i, j))];
    XorSumUpdate(Weighted(column, i), j, Mul(v, Coefficient(i, j)));
  }

  lemma CoefficientDoubles(d: Byte, i: nat, j: nat)
    ensures Mul(d, Coefficient(2 * i + 1, j)) == Mul(Mul(d, Coefficient(i, j)), 2)
  {
    var c := (i + 1) * (j + 1);
    assert (2 * i + 1 + 1) * (j + 1) == 2 * c;
    MulDouble(d, c);
  }

  /** Parity row 2i+1 carries no information beyond row i: it is that row doubled modulo 256. */
  lemma ParityRowDoubles(shards: seq<Blob>, size: nat, i: nat, b: nat)
    requires Rectangular(shards, |shards|, size) && b < size
    ensures ParityShard(shards, size, 2 * i + 1)[b] == Mul(ParityShard(shards, size, i)[b], 2)
  {
    var column: seq<Byte> := Column(shards, size, b);
    forall j | 0 <= j < |column|
      ensures Weighted(column, 2 * i + 1)[j] == Mul(Weighted(column, i)[j], 2)
    {
      CoefficientDoubles(column[j], i, j);
    }
    XorSumDoubles(Weighted(column, i), Weighted(column, 2 * i + 1));
  }

  // ---------- which losses leave the data determined ----------

  /** No decoder can tell `xs` from `ys` when data shards `lost` are gone and only parity rows `rows` survive. */
  ghost predicate SameSurvivors(xs: seq<Blob>, ys: seq<Blob>, size: nat, lost: set<nat>, rows: set<nat>)
    requires Rectangular(xs, |xs|, size) && Rectangular(ys, |xs|, size)
  {
    && (forall j: nat :: j < |xs| && j !in lost ==> xs[j] == ys[j])
    && (forall i :: i in rows ==> ParityShard(xs, size, i) == ParityShard(ys, size, i))
  }

  ghost predicate Determined(k: nat, size: nat, lost: set<nat>, rows: set<nat>) {
    forall xs: seq<Blob>, ys: seq<Blob> ::
      Rectangular(xs, k, size) && Rectangular(ys, k, size) && SameSurvivors(xs, ys, size, lost, rows) ==> xs == ys
  }

  /** At most one shard lost, at an even index, with a parity row of even index left. */
  ghost predicate Solvable(lost: set<nat>, rows: set<nat>) {
    lost == {} || exists j, i :: lost == {j} && j % 2 == 0 && i in rows && i % 2 == 0
  }

  function Constant(size: nat, v: Byte): Blob {
    seq(size, _ => v)
  }

  lemma EvenProduct(a: nat, h: nat, c: nat)
    requires c == 2 * h
    ensures (a * c) % 2 == 0
  {
    assert a * c == 2 * (a * h);
  }

  lemma ProductParity(a: nat, b: nat, c: nat)
    requires c == a * b
    ensures c % 2 == 1 <==> a % 2 == 1 && b % 2 == 1
  {
    if b % 2 == 0 {
      EvenProduct(a, b / 2, b);
    } else {
      OddFactor(a, b);
    }
  }

  lemma OddProduct(i: nat, j: nat)
    ensures ((i + 1) * (j + 1)) % 2 == 1 <==> i % 2 == 0 && j % 2 == 0
  {
    ProductParity(i + 1, j + 1, (i + 1) * (j + 1));
  }

  lemma RevealedByte(column: seq<Byte>, i: nat, j: nat, v: Byte)
    requires j < |column| && i % 2 == 0 && j % 2 == 0
    requires ParityByte(column[j := v], i) == ParityByte(column, i)
    ensures column[j] == v
  {
    ParityByteUpdate(column, i, j, v);
    SameSum(ParityByte(column, i), Mul(column[j], Coefficient(i, j)), Mul(v, Coefficient(i, j)));
    OddCoefficientCancels(column[j], v, i, j);
  }

  lemma OddCoefficientCancels(x: Byte, y: Byte, i: nat, j: nat)
    requires i % 2 == 0 && j % 2 == 0
    requires Mul(x, Coefficient(i, j)) == Mul(y, Coefficient(i, j))
    ensures x == y
  {
    OddProduct(i, j);
    OddCancel(x, y, (i + 1) * (j + 1));
  }

  lemma SameSum(s: Byte, w: Byte, v: Byte)
    requires Xor(Xor(s, w), v) == s
    ensures w == v
  {
    XorLaws(s, w, v);
    XorLaws(s, 0, 0);
    XorCancel(s, Xor(w, v), 0);
    XorLaws(w, w, 0);
    XorCancel(w, v, w);
  }

  lemma SingleLossDetermined(xs: seq<Blob>, ys: seq<Blob>, size: nat, j: nat, i: nat)
    requires j < |xs| && Rectangular(xs, |xs|, size) && Rectangular(ys, |xs|, size)
    requires forall q :: 0 <= q < |xs| && q != j ==> xs[q] == ys[q]
    requires ParityShard(xs, size, i) == ParityShard(ys, size, i)
    requires i % 2 == 0 && j % 2 == 0
    ensures xs == ys
  {
    forall b: nat | b < size
      ensures xs[j][b] == ys[j][b]
    {
      var column: seq<Byte> := Column(xs, size, b);
      assert Column(ys, size, b) == column[j := ys[j][b]];
      assert ParityByte(column, i) == ParityShard(xs, size, i)[b] == ParityShard(ys, size, i)[b];
      RevealedByte(column, i, j, ys[j][b]);
    }
    assert xs[j] == ys[j];
  }

  lemma SameColumnsParity(xs: seq<Blob>, ys: seq<Blob>, size: nat, i: nat)
    requires Rectangular(xs, |xs|, size) && Rectangular(ys, |ys|, size)
    requires forall b: nat :: b < size ==> ParityByte(Column(ys, size, b), i) == ParityByte(Column(xs, size, b), i)
    ensures ParityShard(ys, size, i) == ParityShard(xs, size, i)
  {
  }

  lemma FillZeroByte(column: seq<Byte>, i: nat, j: nat, v: Byte)
    requires j < |column| && column[j] == 0
    ensures ParityByte(column[j := v], i) == Xor(ParityByte(column, i), Mul(v, Coefficient(i, j)))
  {
    ParityByteUpdate(column, i, j, v);
    ZeroWeighs(Coefficient(i, j));
    XorLaws(ParityByte(column, i), 0, 0);
  }

  lemma ZeroWeighs(c: Byte)
    ensures Mul(0, c) == 0
  {
  }

  lemma HiddenByte(column: seq<Byte>, i: nat, j: nat, v: Byte)
    requires j < |column| && column[j] == 0 && Mul(v, Coefficient(i, j)) == 0
    ensures ParityByte(column[j := v], i) == ParityByte(column, i)
  {
    FillZeroByte(column, i, j, v);
    XorLaws(ParityByte(column, i), 0, 0);
  }

  /** One shard replaced by a constant with the same weighted byte: no parity row notices. */
  lemma SingleLossHidden(xs: seq<Blob>, size: nat, j: nat, v: Byte, i: nat)
    requires j < |xs| && Rectangular(xs, |xs|, size) && xs[j] == Zeros(size)
    requires Mul(v, Coefficient(i, j)) == 0
    ensures Rectangular(xs[j := Constant(size, v)], |xs|, size)
    ensures ParityShard(xs[j := Constant(size, v)], size, i) == ParityShard(xs, size, i)
  {
    var ys := xs[j := Constant(size, v)];
    forall b: nat | b < size
      ensures ParityByte(Column(ys, size, b), i) == ParityByte(Column(xs, size, b), i)
    {
      assert Column(ys, size, b) == Column(xs, size, b)[j := v];
      HiddenByte(Column(xs, size, b), i, j, v);
    }
    SameColumnsParity(xs, ys, size, i);
  }

  lemma SwapFactors(a: nat, b: nat, c: nat)
    ensures a * (c * b) == b * (c * a)
  {
  }

  lemma PairWeight(i: nat, j: nat, l: nat)
    ensures Mul(ByteOf(l + 1), Coefficient(i, j)) == Mul(ByteOf(j + 1), Coefficient(i, l))
  {
    var a, b, c := l + 1, j + 1, i + 1;
    WeightOfProduct(a, c * b);
    WeightOfProduct(b, c * a);
    SwapFactors(a, b, c);
  }

  lemma WeightOfProduct(a: nat, product: nat)
    ensures Mul(ByteOf(a), ByteOf(product)) == ByteOf(a * product)
  {
    MulOfTruncated(a, product);
  }

  lemma HiddenPair(column: seq<Byte>, i: nat, j: nat, l: nat, u: Byte, v: Byte)
    requires j < |column| && l < |column| && j != l && column[j] == 0 == column[l]
    requires Mul(u, Coefficient(i, j)) == Mul(v, Coefficient(i, l))
    ensures ParityByte(column[j := u][l := v], i) == ParityByte(column, i)
  {
    var s, w := ParityByte(column, i), Mul(u, Coefficient(i, j));
    FillZeroByte(column, i, j, u);
    FillZeroByte(column[j := u], i, l, v);
    XorLaws(s, w, 0);
  }

  /**
   * Two lost shards: whatever the others hold, every parity row is the same when both are zero as when
   * shard j holds l+1 and shard l holds j+1 throughout.
   */
  lemma PairHidden(xs: seq<Blob>, size: nat, j: nat, l: nat, i: nat)
    requires j < |xs| && l < |xs| && j != l && Rectangular(xs, |xs|, size)
    requires xs[j] == Zeros(size) == xs[l]
    ensures
      var ys := xs[j := Constant(size, ByteOf(l + 1))][l := Constant(size, ByteOf(j + 1))];
      Rectangular(ys, |xs|, size) && ParityShard(ys, size, i) == ParityShard(xs, size, i)
  {
    var u, v := ByteOf(l + 1), ByteOf(j + 1);
    var ys := xs[j := Constant(size, u)][l := Constant(size, v)];
    PairWeight(i, j, l);
    forall b: nat | b < size
      ensures ParityByte(Column(ys, size, b), i) == ParityByte(Column(xs, size, b), i)
    {
      var column: seq<Byte> := Column(xs, size, b);
      assert Column(ys, size, b) == column[j := u][l := v];
      HiddenPair(column, i, j, l, u, v);
    }
    SameColumnsParity(xs, ys, size, i);
  }

  function ZeroShards(k: nat, size: nat): (shards: seq<Blob>)
    ensures Rectangular(shards, k, size)
  {
    seq(k, _ => Zeros(size))
  }

  lemma Undetermined(xs: seq<Blob>, ys: seq<Blob>, k: nat, size: nat, lost: set<nat>, rows: set<nat>, j: nat)
    requires Rectangular(xs, k, size) && Rectangular(ys, k, size) && SameSurvivors(xs, ys, size, lost, rows)
    requires j < k && size > 0 && xs[j][0] != ys[j][0]
    ensures !Determined(k, size, lost, rows)
  {
  }

  lemma PairUndetermined(k: nat, size: nat, lost: set<nat>, rows: set<nat>, j: nat, l: nat)
    requires size > 0 && j < k && l < k && j != l && j in lost && l in lost
    ensures !Determined(k, size, lost, rows)
  {
    if ByteOf(l + 1) == 0 == ByteOf(j + 1) {
      forall i | i in rows
        ensures ((i + 1) * (j + 1)) % 2 == 0
      {
        OddProduct(i, j);
      }
      SingleUndetermined(k, size, lost, rows, j, 128);
    } else {
      PairTold(k, size, lost, rows, j, l, ByteOf(l + 1), ByteOf(j + 1));
    }
  }

  lemma PairTold(k: nat, size: nat, lost: set<nat>, rows: set<nat>, j: nat, l: nat, u: Byte, v: Byte)
    requires size > 0 && j < k && l < k && j != l && j in lost && l in lost
    requires u == ByteOf(l + 1) && v == ByteOf(j + 1) && (u != 0 || v != 0)
    ensures !Determined(k, size, lost, rows)
  {
    var xs := ZeroShards(k, size);
    var ys := xs[j := Constant(size, u)][l := Constant(size, v)];
    forall i | i in rows
      ensures ParityShard(xs, size, i) == ParityShard(ys, size, i)
    {
      PairHidden(xs, size, j, l, i);
    }
    assert ys[j][0] == u && ys[l][0] == v;
    Undetermined(xs, ys, k, size, lost, rows, if u != 0 then j else l);
  }

  lemma SingleUndetermined(k: nat, size: nat, lost: set<nat>, rows: set<nat>, j: nat, v: Byte)
    requires size > 0 && j < k && j in lost && v == 128
    requires forall i :: i in rows ==> ((i + 1) * (j + 1)) % 2 == 0
    ensures !Determined(k, size, lost, rows)
  {
    var xs := ZeroShards(k, size);
    var ys := xs[j := Constant(size, v)];
    forall i | i in rows
      ensures ParityShard(xs, size, i) == ParityShard(ys, size, i)
    {
      EvenLoses((i + 1) * (j + 1));
      SingleLossHidden(xs, size, j, v, i);
    }
    Undetermined(xs, ys, k, size, lost, rows, j);
  }

  /** The exact condition: the survivors determine the data if and only if the loss is solvable. */
  lemma RecoverableExactly(k: nat, size: nat, lost: set<nat>, rows: set<nat>)
    requires size > 0
    requires forall j :: j in lost ==> j < k
    ensures Determined(k, size, lost, rows) <==> Solvable(lost, rows)
  {
    if Solvable(lost, rows) {
      forall xs: seq<Blob>, ys: seq<Blob> |
        Rectangular(xs, k, size) && Rectangular(ys, k, size) && SameSurvivors(xs, ys, size, lost, rows)
        ensures xs == ys
      {
        if lost != {} {
          var j, i :| lost == {j} && j % 2 == 0 && i in rows && i % 2 == 0;
          SingleLossDetermined(xs, ys, size, j, i);
        }
      }
    } else {
      var j :| j in lost;
      if lost == {j} {
        forall i | i in rows
          ensures ((i + 1) * (j + 1)) % 2 == 0
        {
          OddProduct(i, j);
        }
        SingleUndetermined(k, size, lost, rows, j, 128);
      } else {
        var l :| l in lost && l != j;
        PairUndetermined(k, size, lost, rows, j, l);
      }
    }
  }
}
