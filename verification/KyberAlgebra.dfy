/** Z_3329[X]/(X^256 + 1) is a commutative ring, seen through the transform: the
    laws are checked pair by pair on transformed polynomials. */
module KyberAlgebra {
  import opened Modular
  import opened KyberRing
  import opened KyberNtt
  import opened KyberPoly

  predicate IsPoly(p: seq<int>) {
    |p| == 256 && Canonical(p)
  }

  // ---------- one pair: (a0 + a1*X)(b0 + b1*X) modulo X^2 - c ----------

  lemma PairComm(p: seq<int>, q: seq<int>, c: int)
    requires |p| == |q| == 2
    ensures Prod(p, q, c) == Prod(q, p, c)
  {
    hide Prod;
    LinearProd(p, q, c);
    LinearProd(q, p, c);
    assert p[1] * (c * q[1]) == q[1] * (c * p[1]);
  }

  lemma ModOfSum(x: int, y: int)
    ensures (x % Q + y % Q) % Q == (x + y) % Q
    ensures (x % Q - y % Q) % Q == (x - y) % Q
  {
    hide Cong;
    CongMod(x, Q);
    CongMod(y, Q);
    CongAdd(x % Q, x, y % Q, y, Q);
    CongSub(x % Q, x, y % Q, y, Q);
    CongRemainders(x % Q + y % Q, x + y, Q);
    CongRemainders(x % Q - y % Q, x - y, Q);
  }

  /** The unreduced pair product. */
  ghost function Pair(p: seq<int>, q: seq<int>, c: int): (r: seq<int>)
    requires |p| == |q| == 2
    ensures |r| == 2
  {
    [p[0] * q[0] + p[1] * (c * q[1]), p[0] * q[1] + p[1] * q[0]]
  }

  lemma PairIsProd(p: seq<int>, q: seq<int>, c: int)
    requires |p| == |q| == 2
    ensures CongSeq(Prod(p, q, c), Pair(p, q, c))
  {
    hide Prod;
    LinearProd(p, q, c);
    CongMod(Pair(p, q, c)[0], Q);
    CongMod(Pair(p, q, c)[1], Q);
  }

  lemma PairExactDistrib(p: seq<int>, q: seq<int>, r: seq<int>, c: int)
    requires |p| == |q| == |r| == 2
    ensures var s := Pair(p, [q[0] + r[0], q[1] + r[1]], c);
            s[0] == Pair(p, q, c)[0] + Pair(p, r, c)[0] && s[1] == Pair(p, q, c)[1] + Pair(p, r, c)[1]
  {
    var u, v := p[0], p[1];
    assert u * (q[0] + r[0]) == u * q[0] + u * r[0] && u * (q[1] + r[1]) == u * q[1] + u * r[1];
    assert v * (q[0] + r[0]) == v * q[0] + v * r[0];
    assert c * (q[1] + r[1]) == c * q[1] + c * r[1];
    assert v * (c * q[1] + c * r[1]) == v * (c * q[1]) + v * (c * r[1]);
  }

  lemma PairDistrib(p: seq<int>, q: seq<int>, r: seq<int>, c: int)
    requires |p| == |q| == |r| == 2
    ensures Prod(p, AddPoly(q, r), c) == AddPoly(Prod(p, q, c), Prod(p, r, c))
  {
    hide Prod, Pair;
    var s := [q[0] + r[0], q[1] + r[1]];
    CongRefl(p);
    assert CongSeq(AddPoly(q, r), s) by {
      CongMod(s[0], Q);
      CongMod(s[1], Q);
    }
    CongSelf(c, Q);
    ProdCong(p, p, AddPoly(q, r), s, c, c);
    PairIsProd(p, s, c);
    PairIsProd(p, q, c);
    PairIsProd(p, r, c);
    PairExactDistrib(p, q, r, c);
    var e, f, g := Prod(p, s, c), Prod(p, q, c), Prod(p, r, c);
    assert CongSeq(AddPoly(f, g), Pair(p, s, c)) by {
      SumCong(f[0], g[0], Pair(p, q, c)[0], Pair(p, r, c)[0]);
      SumCong(f[1], g[1], Pair(p, q, c)[1], Pair(p, r, c)[1]);
    }
    CanonicalCong(e, AddPoly(f, g), Pair(p, s, c));
  }

  lemma SumCong(x: int, y: int, x': int, y': int)
    requires Cong(x, x', Q) && Cong(y, y', Q)
    ensures Cong((x + y) % Q, x' + y', Q)
  {
    hide Cong;
    CongAdd(x, x', y, y', Q);
    CongMod(x + y, Q);
    CongTrans((x + y) % Q, x + y, x' + y', Q);
  }

  lemma PairExactAssoc(p: seq<int>, q: seq<int>, r: seq<int>, c: int)
    requires |p| == |q| == |r| == 2
    ensures Pair(Pair(p, q, c), r, c) == Pair(p, Pair(q, r, c), c)
  {
    var a0, a1, b0, b1, d0, d1 := p[0], p[1], q[0], q[1], r[0], r[1];
    FirstAssoc(a0, a1, b0, b1, d0, d1, c);
    SecondAssoc(a0, a1, b0, b1, d0, d1, c);
  }

  lemma FirstAssoc(a0: int, a1: int, b0: int, b1: int, d0: int, d1: int, c: int)
    ensures (a0 * b0 + a1 * (c * b1)) * d0 + (a0 * b1 + a1 * b0) * (c * d1)
         == a0 * (b0 * d0 + b1 * (c * d1)) + a1 * (c * (b0 * d1 + b1 * d0))
  {
    assert (a0 * b0 + a1 * (c * b1)) * d0 == a0 * (b0 * d0) + a1 * (c * (b1 * d0));
    assert (a0 * b1 + a1 * b0) * (c * d1) == a0 * (b1 * (c * d1)) + a1 * (c * (b0 * d1));
    assert a1 * (c * (b0 * d1 + b1 * d0)) == a1 * (c * (b0 * d1)) + a1 * (c * (b1 * d0));
  }

  lemma SecondAssoc(a0: int, a1: int, b0: int, b1: int, d0: int, d1: int, c: int)
    ensures (a0 * b0 + a1 * (c * b1)) * d1 + (a0 * b1 + a1 * b0) * d0
         == a0 * (b0 * d1 + b1 * d0) + a1 * (b0 * d0 + b1 * (c * d1))
  {
    assert (a0 * b0 + a1 * (c * b1)) * d1 == a0 * (b0 * d1) + a1 * (b1 * (c * d1));
    assert (a0 * b1 + a1 * b0) * d0 == a0 * (b1 * d0) + a1 * (b0 * d0);
  }

  lemma PairAssoc(p: seq<int>, q: seq<int>, r: seq<int>, c: int)
    requires |p| == |q| == |r| == 2
    ensures Prod(Prod(p, q, c), r, c) == Prod(p, Prod(q, r, c), c)
  {
    hide Prod, Pair;
    CongSelf(c, Q);
    CongRefl(p);
    CongRefl(r);
    PairIsProd(p, q, c);
    PairIsProd(q, r, c);
    ProdCong(Prod(p, q, c), Pair(p, q, c), r, r, c, c);
    ProdCong(p, p, Prod(q, r, c), Pair(q, r, c), c, c);
    PairIsProd(Pair(p, q, c), r, c);
    PairIsProd(p, Pair(q, r, c), c);
    PairExactAssoc(p, q, r, c);
    CanonicalCong(Prod(Pair(p, q, c), r, c), Prod(p, Pair(q, r, c), c), Pair(p, Pair(q, r, c), c));
  }

  lemma CanonicalCong(a: seq<int>, b: seq<int>, e: seq<int>)
    requires CongSeq(a, e) && CongSeq(b, e) && Canonical(a) && Canonical(b)
    ensures a == b
  {
    forall i | 0 <= i < |a| ensures a[i] == b[i] {
      CongFlip(b[i], e[i], Q);
      CongTrans(a[i], e[i], b[i], Q);
      CongCanonical(a[i], b[i], Q);
    }
  }

  // ---------- all 128 pairs ----------

  /** Sequences that agree on every pair are equal. */
  lemma EqualByPairs(p: seq<int>, q: seq<int>)
    requires |p| == |q| == 256
    requires forall i {:trigger p[2 * i..2 * i + 2]} :: 0 <= i < 128 ==> p[2 * i..2 * i + 2] == q[2 * i..2 * i + 2]
    ensures p == q
  {
    forall k | 0 <= k < 256 ensures p[k] == q[k] {
      var i := k / 2;
      assert p[2 * i..2 * i + 2] == q[2 * i..2 * i + 2];
      assert p[k] == p[2 * i..2 * i + 2][k - 2 * i] && q[k] == q[2 * i..2 * i + 2][k - 2 * i];
    }
  }

  lemma NttMulComm(p: seq<int>, q: seq<int>)
    requires |p| == |q| == 256
    ensures NttMul(p, q) == NttMul(q, p)
  {
    hide NttMul, Prod, NodeConst;
    var l, r := NttMul(p, q), NttMul(q, p);
    forall i | 0 <= i < 128 ensures l[2 * i..2 * i + 2] == r[2 * i..2 * i + 2] {
      NttMulLeaf(p, q, i);
      NttMulLeaf(q, p, i);
      PairComm(p[2 * i..2 * i + 2], q[2 * i..2 * i + 2], NodeConst(128 + i));
    }
    EqualByPairs(l, r);
  }

  lemma NttMulAssoc(p: seq<int>, q: seq<int>, r: seq<int>)
    requires |p| == |q| == |r| == 256
    ensures NttMul(NttMul(p, q), r) == NttMul(p, NttMul(q, r))
  {
    hide NttMul, Prod, NodeConst;
    var s, t := NttMul(NttMul(p, q), r), NttMul(p, NttMul(q, r));
    forall i | 0 <= i < 128 ensures s[2 * i..2 * i + 2] == t[2 * i..2 * i + 2] {
      NttMulLeaf(p, q, i);
      NttMulLeaf(q, r, i);
      NttMulLeaf(NttMul(p, q), r, i);
      NttMulLeaf(p, NttMul(q, r), i);
      PairAssoc(p[2 * i..2 * i + 2], q[2 * i..2 * i + 2], r[2 * i..2 * i + 2], NodeConst(128 + i));
    }
    EqualByPairs(s, t);
  }

  lemma AddPolySlice(p: seq<int>, q: seq<int>, i: nat)
    requires |p| == |q| == 256 && i < 128
    ensures AddPoly(p, q)[2 * i..2 * i + 2] == AddPoly(p[2 * i..2 * i + 2], q[2 * i..2 * i + 2])
  {
  }

  lemma NttMulDistrib(p: seq<int>, q: seq<int>, r: seq<int>)
    requires |p| == |q| == |r| == 256
    ensures NttMul(p, AddPoly(q, r)) == AddPoly(NttMul(p, q), NttMul(p, r))
    ensures NttMul(AddPoly(q, r), p) == AddPoly(NttMul(q, p), NttMul(r, p))
  {
    hide NttMul, Prod, NodeConst, AddPoly;
    var s, t := NttMul(p, AddPoly(q, r)), AddPoly(NttMul(p, q), NttMul(p, r));
    forall i | 0 <= i < 128 ensures s[2 * i..2 * i + 2] == t[2 * i..2 * i + 2] {
      NttMulLeaf(p, q, i);
      NttMulLeaf(p, r, i);
      NttMulLeaf(p, AddPoly(q, r), i);
      AddPolySlice(q, r, i);
      AddPolySlice(NttMul(p, q), NttMul(p, r), i);
      PairDistrib(p[2 * i..2 * i + 2], q[2 * i..2 * i + 2], r[2 * i..2 * i + 2], NodeConst(128 + i));
    }
    EqualByPairs(s, t);
    NttMulComm(p, AddPoly(q, r));
    NttMulComm(p, q);
    NttMulComm(p, r);
  }

  // ---------- the transform is additive ----------

  lemma FoldAdd(p: seq<int>, q: seq<int>, z: int)
    requires |p| == |q| && |p| % 2 == 0
    ensures Fold(AddPoly(p, q), z) == AddPoly(Fold(p, z), Fold(q, z))
  {
    hide Fold, AddPoly, FoldAt;
    var n := |p| / 2;
    var x, y := Fold(AddPoly(p, q), z), AddPoly(Fold(p, z), Fold(q, z));
    forall i | 0 <= i < n ensures x[i] == y[i] {
      FoldIndex(AddPoly(p, q), z, i);
      FoldIndex(p, z, i);
      FoldIndex(q, z, i);
      SumIndex(p, q, i);
      SumIndex(p, q, n + i);
      SumIndex(Fold(p, z), Fold(q, z), i);
      FoldAddAt(p[i], p[n + i], q[i], q[n + i], z);
    }
  }

  lemma FoldIndex(p: seq<int>, z: int, i: nat)
    requires |p| % 2 == 0 && i < |p| / 2
    ensures Fold(p, z)[i] == FoldAt(p[i], p[|p| / 2 + i], z)
  {
    hide FoldAt;
  }

  lemma SumIndex(p: seq<int>, q: seq<int>, i: nat)
    requires |p| == |q| && i < |p|
    ensures AddPoly(p, q)[i] == (p[i] + q[i]) % Q
  {
  }

  lemma FoldAddAt(a: int, b: int, c: int, d: int, z: int)
    ensures FoldAt((a + c) % Q, (b + d) % Q, z) == (FoldAt(a, b, z) + FoldAt(c, d, z)) % Q
  {
    FoldedPair(a + c, b + d, z);
    Distribute(z, b, d);
    SumOfMods(a + z * b, c + z * d, a + c + z * (b + d));
  }

  lemma Distribute(z: int, b: int, d: int)
    ensures z * (b + d) == z * b + z * d
  {
  }

  lemma SumOfMods(x: int, y: int, s: int)
    requires s == x + y
    ensures s % Q == (x % Q + y % Q) % Q
  {
    ModOfSum(x, y);
  }

  lemma {:induction false} NttTreeAdd(p: seq<int>, q: seq<int>, x: nat)
    requires IsSize(|p|) && |p| == |q|
    ensures NttTree(AddPoly(p, q), x) == AddPoly(NttTree(p, x), NttTree(q, x))
    decreases |p|
  {
    hide Fold, Twiddle, NttTree, AddPoly, IsSize;
    if |p| == 2 {
      LeafTransforms(p, x);
      LeafTransforms(q, x);
      LeafTransforms(AddPoly(p, q), x);
    } else {
      SizeHalves(|p|);
      var z := Twiddle(x);
      FoldAdd(p, q, z);
      FoldAdd(p, q, -z);
      NttTreeAdd(Fold(p, z), Fold(q, z), 2 * x);
      NttTreeAdd(Fold(p, -z), Fold(q, -z), 2 * x + 1);
      NttTreeStep(p, x);
      NttTreeStep(q, x);
      NttTreeStep(AddPoly(p, q), x);
      AddHalves(NttTree(p, x), NttTree(q, x), |p| / 2);
    }
  }

  lemma AddHalves(p: seq<int>, q: seq<int>, h: nat)
    requires |p| == |q| && h <= |p|
    ensures AddPoly(p, q) == AddPoly(p[..h], q[..h]) + AddPoly(p[h..], q[h..])
  {
  }

  lemma NttAdditive(p: seq<int>, q: seq<int>)
    requires |p| == |q| == 256
    ensures Ntt(AddPoly(p, q)) == AddPoly(Ntt(p), Ntt(q))
  {
    NttTreeAdd(p, q, 1);
  }

  function ZeroPoly(): (r: seq<int>)
    ensures IsPoly(r)
  {
    seq(256, i => 0)
  }

  lemma AddZero(p: seq<int>)
    requires IsPoly(p)
    ensures AddPoly(ZeroPoly(), p) == p && AddPoly(p, ZeroPoly()) == p
  {
  }

  lemma AddComm(p: seq<int>, q: seq<int>)
    requires |p| == |q|
    ensures AddPoly(p, q) == AddPoly(q, p)
  {
  }

  lemma AddAssoc(p: seq<int>, q: seq<int>, r: seq<int>)
    requires IsPoly(p) && IsPoly(q) && IsPoly(r)
    ensures AddPoly(AddPoly(p, q), r) == AddPoly(p, AddPoly(q, r))
  {
    forall i | 0 <= i < 256 ensures AddPoly(AddPoly(p, q), r)[i] == AddPoly(p, AddPoly(q, r))[i] {
      SumAssoc(p[i], q[i], r[i]);
    }
  }

  lemma SumAssoc(a: int, b: int, c: int)
    requires 0 <= a < Q && 0 <= c < Q
    ensures ((a + b) % Q + c) % Q == (a + (b + c) % Q) % Q
  {
    ModOfSum(a + b, c);
    ModOfSum(a, b + c);
    ModSmall(a, Q);
    ModSmall(c, Q);
  }

  lemma NttZero()
    ensures Ntt(ZeroPoly()) == ZeroPoly()
  {
    hide Ntt, AddPoly;
    var z := Ntt(ZeroPoly());
    AddZero(ZeroPoly());
    NttAdditive(ZeroPoly(), ZeroPoly());
    SelfSum(z);
  }

  lemma SelfSum(z: seq<int>)
    requires IsPoly(z) && z == AddPoly(z, z)
    ensures z == ZeroPoly()
  {
    forall i | 0 <= i < 256 ensures z[i] == 0 {
      assert z[i] == AddPoly(z, z)[i];
    }
  }
}
