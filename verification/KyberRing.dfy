/** The coefficient ring Z_3329, the powers of the root of unity 17, and the
    quotient rings Z_3329[X]/(X^m - c) in which the number-theoretic transform
    of src/kyber.c works. */
module KyberRing {
  import opened Common
  import opened Modular

  const Q := 3329

  predicate Canonical(s: seq<int>) {
    forall i :: 0 <= i < |s| ==> 0 <= s[i] < Q
  }

  // ---------- bit reversal and roots of unity ----------

  /** The lowest `bits` bits of x in reverse order. */
  function BitRev(x: nat, bits: nat): nat {
    if bits == 0 then 0 else (x % 2) * Two(bits - 1) + BitRev(x / 2, bits - 1)
  }

  /** A cleared top bit of x is a cleared bottom bit of the reversal. */
  lemma {:induction false} BitRevShort(x: nat, bits: nat)
    requires x < Two(bits)
    ensures BitRev(x, bits + 1) == 2 * BitRev(x, bits)
  {
    hide BitRev;
    BitRevNext(x, bits);
    if bits > 0 {
      BitRevShort(x / 2, bits - 1);
      BitRevNext(x, bits - 1);
    }
  }

  lemma BitRevNext(x: nat, bits: nat)
    ensures BitRev(x, 0) == 0
    ensures BitRev(x, bits + 1) == BitRev(x / 2, bits) + if x % 2 == 1 then Two(bits) else 0
  {
    hide Two;
  }

  /** Reversal at the two children of a node of the transform's binary tree. */
  lemma BitRevChildren(x: nat)
    requires x < 64
    ensures BitRev(x, 7) == 2 * BitRev(x, 6)
    ensures BitRev(2 * x, 7) == BitRev(x, 6)
    ensures BitRev(2 * x + 1, 7) == 64 + BitRev(x, 6)
  {
    assert Two(6) == 64;
    BitRevShort(x, 6);
    assert (2 * x) / 2 == x && (2 * x + 1) / 2 == x;
  }

  /** Entry i of the table zeta[]: 17^i reduced modulo 3329. */
  function Zeta(i: nat): (r: int)
    ensures 0 <= r < Q
  {
    if i == 0 then 1 else (Zeta(i - 1) * 17) % Q
  }

  lemma ZetaStep(i: nat)
    ensures Cong(Zeta(i + 1), Zeta(i) * 17, Q)
  {
    CongMod(Zeta(i) * 17, Q);
  }

  lemma {:induction false} ZetaAdd(i: nat, j: nat)
    ensures Cong(Zeta(i) * Zeta(j), Zeta(i + j), Q)
  {
    hide Zeta, Cong;
    if j == 0 {
      ZetaNought(j);
      CongSelf(Zeta(i), Q);
    } else {
      ZetaAdd(i, j - 1);
      ZetaStep(j - 1);
      ZetaStep(i + j - 1);
      NextPower(Zeta(i), Zeta(j - 1), Zeta(j), Zeta(i + j - 1), Zeta(i + j));
    }
  }

  lemma ZetaNought(j: nat)
    requires j == 0
    ensures Zeta(j) == 1
  {
  }

  lemma NextPower(a: int, b: int, b': int, c: int, c': int)
    requires Cong(a * b, c, Q) && Cong(b', b * 17, Q) && Cong(c', c * 17, Q)
    ensures Cong(a * b', c', Q)
  {
    hide Cong;
    CongScale(b', b * 17, a, Q);
    assert a * (b * 17) == (a * b) * 17;
    CongScale(a * b, c, 17, Q);
    CongTrans(a * b', (a * b) * 17, c * 17, Q);
    CongFlip(c', c * 17, Q);
    CongTrans(a * b', c * 17, c', Q);
  }

  lemma ZetaDouble(i: nat, v: int, w: int)
    requires Zeta(i) == v && w == (v * v) % Q
    ensures Zeta(2 * i) == w
  {
    hide Cong, Zeta;
    ZetaAdd(i, i);
    CongMod(v * v, Q);
    CongTrans(w, v * v, Zeta(2 * i), Q);
    CongCanonical(w, Zeta(2 * i), Q);
  }

  lemma ZetaOne(e: nat)
    requires e == 1
    ensures Zeta(e) == 17
  {
    assert Zeta(e - 1) == 1;
  }

  /** 17 is a primitive 256-th root of unity: 17^128 = -1, by seven squarings. */
  lemma ZetaHalfTurn(h: nat)
    requires h == 128
    ensures Zeta(h) == Q - 1
  {
    hide Zeta;
    var e: nat := h - 127;
    assert Zeta(e) == 17 by { ZetaOne(e); }
    ZetaDouble(e, 17, 289);
    ZetaDouble(2 * e, 289, 296);
    ZetaDouble(4 * e, 296, 1062);
    ZetaDouble(8 * e, 1062, 2642);
    ZetaDouble(16 * e, 2642, 2580);
    ZetaDouble(32 * e, 2580, 1729);
    ZetaDouble(64 * e, 1729, 3328);
  }

  /** The twiddle factor used at node x (1 <= x < 128) of the transform tree. */
  function Twiddle(x: nat): (r: int)
    ensures 0 <= r < Q
  {
    Zeta(BitRev(x, 7))
  }

  /** The constant c such that node x works modulo X^m - c. */
  function NodeConst(x: nat): int
    requires x >= 1
  {
    if x == 1 then -1
    else if x % 2 == 0 then Twiddle(x / 2)
    else -Twiddle(x / 2)
  }

  /** Every inner node's modulus X^2n - c splits as (X^n - z)(X^n + z). */
  lemma NodeConstIsSquare(x: nat)
    requires 1 <= x < 128
    ensures Cong(NodeConst(x), Twiddle(x) * Twiddle(x), Q)
  {
    hide Zeta, BitRev, Cong;
    var r := BitRev(x, 7);
    ZetaAdd(r, r);
    CongFlip(Zeta(r) * Zeta(r), Zeta(r + r), Q);
    if x == 1 {
      MirroredReversals(1, 0);
      ZetaHalfTurn(r + r);
      CongFromMultiple(-1, Q - 1, -1, Q);
      CongTrans(-1, Q - 1, Zeta(r) * Zeta(r), Q);
    } else {
      var y := x / 2;
      BitRevChildren(y);
      if x % 2 == 1 {
        NegatedHalfTurn(BitRev(y, 7), r + r);
        CongTrans(-Zeta(BitRev(y, 7)), Zeta(r + r), Zeta(r) * Zeta(r), Q);
      }
    }
  }

  lemma NegatedHalfTurn(i: nat, j: nat)
    requires j == i + 128
    ensures Cong(-Zeta(i), Zeta(j), Q)
  {
    hide Zeta, Cong;
    var h: nat := j - i;
    ZetaHalfTurn(h);
    ZetaAdd(h, i);
    var z := Zeta(i);
    assert (Q - 1) * z == -z + z * Q;
    CongFromMultiple((Q - 1) * z, -z, z, Q);
    CongFlip((Q - 1) * z, -z, Q);
    CongTrans(-z, (Q - 1) * z, Zeta(j), Q);
  }

  predicate IsLevel(l: nat) {
    l in {1, 2, 4, 8, 16, 32, 64}
  }

  lemma BitRevBound(x: nat, bits: nat)
    ensures BitRev(x, bits) < Two(bits)
  {
  }

  lemma BitRevZero(bits: nat)
    ensures BitRev(0, bits) == 0
  {
  }

  /** Mirrored nodes of one level of the tree reverse to exponents that sum to 128. */
  lemma {:induction false} MirroredReversals(l: nat, g: nat)
    requires IsLevel(l) && g < l
    ensures BitRev(l + g, 7) + BitRev(2 * l - 1 - g, 7) == 128
  {
    hide BitRev;
    if l == 1 {
      BitRevChildren(0);
      assert BitRev(0, 6) == 0 by { BitRevZero(6); }
    } else {
      var h := g / 2;
      MirroredReversals(l / 2, h);
      var x, y := l / 2 + h, l - 1 - h;
      BitRevChildren(x);
      BitRevChildren(y);
      if g % 2 == 0 {
        assert l + g == 2 * x && 2 * l - 1 - g == 2 * y + 1;
      } else {
        assert l + g == 2 * x + 1 && 2 * l - 1 - g == 2 * y;
      }
    }
  }

  /** The inverse transform's factor at node x: minus 17^(128 - br7(x)). */
  function InvTwiddle(x: nat): int {
    BitRevBound(x, 7);
    assert Two(7) == 128;
    Q - Zeta(128 - BitRev(x, 7))
  }

  lemma InvTwiddleInverts(x: nat)
    ensures Cong(Twiddle(x) * InvTwiddle(x), 1, Q)
  {
    hide Zeta, BitRev;
    BitRevBound(x, 7);
    assert Two(7) == 128;
    var r := BitRev(x, 7);
    var s: nat := 128 - r;
    ZetaAdd(r, s);
    ZetaHalfTurn(r + s);
    NegatedFactor(Zeta(r), Zeta(s));
  }

  lemma NegatedFactor(u: int, v: int)
    requires Cong(u * v, Q - 1, Q)
    ensures Cong(u * (Q - v), 1, Q)
  {
    hide Cong;
    assert u * (Q - v) == 0 - u * v + u * Q;
    CongFromMultiple(u * (Q - v), 0 - u * v, u, Q);
    CongSelf(0, Q);
    CongSub(0, 0, u * v, Q - 1, Q);
    CongFromMultiple(0 - (Q - 1), 1, -1, Q);
    CongTrans(u * (Q - v), 0 - u * v, 0 - (Q - 1), Q);
    CongTrans(u * (Q - v), 0 - (Q - 1), 1, Q);
  }

  // ---------- products modulo X^m - c ----------

  /** Coefficient k of X^i * b reduced modulo X^m - c, where m = |b|. */
  function Rotated(b: seq<int>, c: int, i: nat, k: nat): int
    requires i < |b| && k < |b|
  {
    if i <= k then b[k - i] else c * b[|b| + k - i]
  }

  /** Schoolbook sum of the first t partial products contributing to coefficient k. */
  function ConvSum(a: seq<int>, b: seq<int>, c: int, k: nat, t: nat): int
    requires |a| == |b| && k < |b| && t <= |a|
  {
    if t == 0 then 0
    else ConvSum(a, b, c, k, t - 1) + a[t - 1] * Rotated(b, c, t - 1, k)
  }

  /** The product of a and b in Z_3329[X]/(X^m - c), by the schoolbook rule. */
  function Prod(a: seq<int>, b: seq<int>, c: int): (r: seq<int>)
    requires |a| == |b|
    ensures |r| == |a| && Canonical(r)
  {
    seq(|a|, k requires 0 <= k < |a| => ConvSum(a, b, c, k, |a|) % Q)
  }

  ghost predicate CongSeq(a: seq<int>, b: seq<int>) {
    |a| == |b| && forall i :: 0 <= i < |a| ==> Cong(a[i], b[i], Q)
  }

  lemma {:induction false} ConvSumCong(a: seq<int>, a': seq<int>, b: seq<int>, b': seq<int>,
                                       c: int, c': int, k: nat, t: nat)
    requires CongSeq(a, a') && CongSeq(b, b') && Cong(c, c', Q)
    requires |a| == |b| && k < |b| && t <= |a|
    ensures Cong(ConvSum(a, b, c, k, t), ConvSum(a', b', c', k, t), Q)
  {
    hide Cong;
    if t == 0 {
      CongSelf(0, Q);
    } else {
      var i := t - 1;
      ConvSumCong(a, a', b, b', c, c', k, i);
      var u, u' := Rotated(b, c, i, k), Rotated(b', c', i, k);
      if i > k {
        CongMul(c, c', b[|b| + k - i], b'[|b| + k - i], Q);
      }
      CongMul(a[i], a'[i], u, u', Q);
      CongAdd(ConvSum(a, b, c, k, i), ConvSum(a', b', c', k, i), a[i] * u, a'[i] * u', Q);
    }
  }

  lemma ProdCong(a: seq<int>, a': seq<int>, b: seq<int>, b': seq<int>, c: int, c': int)
    requires CongSeq(a, a') && CongSeq(b, b') && Cong(c, c', Q)
    requires |a| == |b|
    ensures Prod(a, b, c) == Prod(a', b', c')
  {
    hide ConvSum, Cong;
    forall k | 0 <= k < |a| ensures Prod(a, b, c)[k] == Prod(a', b', c')[k] {
      ConvSumCong(a, a', b, b', c, c', k, |a|);
      CongRemainders(ConvSum(a, b, c, k, |a|), ConvSum(a', b', c', k, |a|), Q);
    }
  }

  // ---------- reduction modulo X^n - z ----------

  /** The remainder of p (of length 2n) modulo X^n - z, before and after reduction mod 3329. */
  ghost function FoldExact(p: seq<int>, z: int): (r: seq<int>)
    requires |p| % 2 == 0
    ensures |r| == |p| / 2
  {
    var n := |p| / 2;
    seq(n, i requires 0 <= i < n => p[i] + z * p[n + i])
  }

  function FoldAt(x: int, y: int, z: int): (r: int)
    ensures 0 <= r < Q
  {
    (x + z * y) % Q
  }

  function Fold(p: seq<int>, z: int): (r: seq<int>)
    requires |p| % 2 == 0
    ensures |r| == |p| / 2 && Canonical(r)
  {
    var n := |p| / 2;
    seq(n, i requires 0 <= i < n => FoldAt(p[i], p[n + i], z))
  }

  lemma FoldCong(p: seq<int>, z: int)
    requires |p| % 2 == 0
    ensures CongSeq(Fold(p, z), FoldExact(p, z))
  {
    var n := |p| / 2;
    forall i | 0 <= i < n ensures Cong(Fold(p, z)[i], FoldExact(p, z)[i], Q) {
      CongMod(p[i] + z * p[n + i], Q);
    }
  }

  /** Multiplication by X^i commutes with reduction modulo X^n - z ... */
  lemma RotatedFoldLow(b: seq<int>, z: int, i: nat, k: nat)
    requires |b| % 2 == 0 && i < |b| / 2 && k < |b| / 2
    ensures Rotated(b, z * z, i, k) + z * Rotated(b, z * z, i, |b| / 2 + k) == Rotated(FoldExact(b, z), z, i, k)
  {
    var n := |b| / 2;
    if i > k {
      var u, v := b[n + k - i], b[2 * n + k - i];
      assert FoldExact(b, z)[n + k - i] == u + z * v;
      ZFactor(z, u, v);
    }
  }

  /** ... and X^n itself acts as z. */
  lemma RotatedFoldHigh(b: seq<int>, z: int, j: nat, k: nat)
    requires |b| % 2 == 0 && j < |b| / 2 && k < |b| / 2
    ensures Rotated(b, z * z, |b| / 2 + j, k) + z * Rotated(b, z * z, |b| / 2 + j, |b| / 2 + k)
            == z * Rotated(FoldExact(b, z), z, j, k)
  {
    var n := |b| / 2;
    if j <= k {
      var u, v := b[k - j], b[n + k - j];
      assert FoldExact(b, z)[k - j] == u + z * v;
      ZFactor(z, u, v);
    } else {
      var u, v := b[n + k - j], b[2 * n + k - j];
      assert FoldExact(b, z)[n + k - j] == u + z * v;
      ZFactorTwice(z, u, v);
    }
  }

  lemma ZFactorTwice(z: int, u: int, v: int)
    ensures (z * z) * u + z * ((z * z) * v) == z * (z * (u + z * v))
  {
    ZFactor(z, u, v);
    assert z * (z * u + (z * z) * v) == z * (z * u) + z * ((z * z) * v);
    assert z * (z * u) == (z * z) * u;
  }

  lemma ZFactor(z: int, u: int, v: int)
    ensures (z * z) * v + z * u == z * (u + z * v)
  {
    assert z * (u + z * v) == z * u + z * (z * v);
    assert z * (z * v) == (z * z) * v;
  }

  /** The schoolbook sums of a product and of the product of remainders, term by term:
      after i steps the remainder side has consumed a[i] and a[n+i]. */
  lemma {:induction false} ConvSumFold(a: seq<int>, b: seq<int>, z: int, k: nat, i: nat)
    requires |a| == |b| && |b| % 2 == 0 && k < |b| / 2 && i <= |b| / 2
    ensures var n := |b| / 2; var zz := z * z;
            ConvSum(a, b, zz, k, i) + z * ConvSum(a, b, zz, n + k, i)
            + (ConvSum(a, b, zz, k, n + i) - ConvSum(a, b, zz, k, n))
            + z * (ConvSum(a, b, zz, n + k, n + i) - ConvSum(a, b, zz, n + k, n))
            == ConvSum(FoldExact(a, z), FoldExact(b, z), z, k, i)
  {
    hide Rotated;
    var n := |b| / 2;
    var zz := z * z;
    if i > 0 {
      var j := i - 1;
      ConvSumFold(a, b, z, k, j);
      RotatedFoldLow(b, z, j, k);
      RotatedFoldHigh(b, z, j, k);
      var r := Rotated(FoldExact(b, z), z, j, k);
      var p0, p1 := Rotated(b, zz, j, k), Rotated(b, zz, j, n + k);
      var q0, q1 := Rotated(b, zz, n + j, k), Rotated(b, zz, n + j, n + k);
      StepFold(a[j], a[n + j], z, p0, p1, q0, q1, r);
      SumStep(z, ConvSum(a, b, zz, k, j), ConvSum(a, b, zz, n + k, j),
              ConvSum(a, b, zz, k, n + j) - ConvSum(a, b, zz, k, n),
              ConvSum(a, b, zz, n + k, n + j) - ConvSum(a, b, zz, n + k, n),
              a[j] * p0, a[j] * p1, a[n + j] * q0, a[n + j] * q1);
    }
  }

  lemma SumStep(z: int, s0: int, s1: int, t0: int, t1: int, u0: int, u1: int, v0: int, v1: int)
    ensures (s0 + u0) + z * (s1 + u1) + (t0 + v0) + z * (t1 + v1)
            == (s0 + z * s1 + t0 + z * t1) + (u0 + z * u1 + v0 + z * v1)
  {
    assert z * (s1 + u1) == z * s1 + z * u1;
    assert z * (t1 + v1) == z * t1 + z * v1;
  }

  lemma StepFold(x: int, y: int, z: int, p0: int, p1: int, q0: int, q1: int, r: int)
    requires p0 + z * p1 == r && q0 + z * q1 == z * r
    ensures x * p0 + z * (x * p1) + y * q0 + z * (y * q1) == (x + z * y) * r
  {
    assert z * (x * p1) == x * (z * p1);
    assert z * (y * q1) == y * (z * q1);
    assert x * p0 + x * (z * p1) == x * r;
    assert y * q0 + y * (z * q1) == y * (z * r);
    assert y * (z * r) == (z * y) * r;
    assert (x + z * y) * r == x * r + (z * y) * r;
  }

  lemma FoldedPair(u: int, v: int, z: int)
    ensures (u % Q + z * (v % Q)) % Q == (u + z * v) % Q
  {
    hide Cong;
    CongMod(u, Q);
    CongMod(v, Q);
    CongScale(v % Q, v, z, Q);
    CongAdd(u % Q, u, z * (v % Q), z * v, Q);
    CongRemainders(u % Q + z * (v % Q), u + z * v, Q);
  }

  lemma FoldProdAt(a: seq<int>, b: seq<int>, z: int, k: nat)
    requires |a| == |b| && |a| % 2 == 0 && k < |a| / 2
    ensures Fold(Prod(a, b, z * z), z)[k] == Prod(FoldExact(a, z), FoldExact(b, z), z)[k]
  {
    hide ConvSum;
    var n := |a| / 2;
    var u, v := ConvSum(a, b, z * z, k, 2 * n), ConvSum(a, b, z * z, n + k, 2 * n);
    assert u + z * v == ConvSum(FoldExact(a, z), FoldExact(b, z), z, k, n) by {
      ConvSumFold(a, b, z, k, n);
    }
    assert Prod(a, b, z * z)[k] == u % Q && Prod(a, b, z * z)[n + k] == v % Q;
    FoldedPair(u, v, z);
  }

  /** Reduction modulo X^n - z is a ring homomorphism from Z_q[X]/(X^2n - z^2). */
  lemma FoldProd(a: seq<int>, b: seq<int>, z: int)
    requires |a| == |b| && |a| % 2 == 0
    ensures Fold(Prod(a, b, z * z), z) == Prod(Fold(a, z), Fold(b, z), z)
  {
    hide Fold, Prod;
    FoldCong(a, z);
    FoldCong(b, z);
    CongSelf(z, Q);
    ProdCong(Fold(a, z), FoldExact(a, z), Fold(b, z), FoldExact(b, z), z, z);
    forall k: nat | k < |a| / 2 {
      FoldProdAt(a, b, z, k);
    }
  }
}
