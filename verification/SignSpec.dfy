/** The SM2 signature scheme (sections 6 and 7 of GB/T 32918.2) as src/sm2_sign.c computes it, on
    integers modulo the group order. */
module SignSpec {
  import opened Modular
  import opened NumberTheory
  import opened Field
  import opened Curve
  import opened ScalarMul

  /** The x-coordinate as sm2_z256_point_get_xy reports it, reduced modulo n; infinity reports zero. */
  ghost function XN(pt: Affine): (x: int)
    ensures 0 <= x < N
  {
    match pt
    case Inf => 0
    case Aff(x, y) => x % N
  }

  ghost function InvN(a: int): (r: int)
    ensures 0 <= r < N
  {
    Residue(Pow(a, N - 2), N)
  }

  /** d runs over the private keys for which 1 + d is invertible. */
  ghost predicate PrivateKey(d: int) {
    0 <= d < N - 1
  }

  ghost function SigR(mul: int -> Affine, e: int, k: int): (r: int)
    ensures 0 <= r < N
  {
    (e % N + XN(GeneratorResult(mul, k))) % N
  }

  ghost function SigS(d: int, k: int, r: int): (s: int)
    ensures 0 <= s < N
  {
    Residue(InvN(1 + d) * (k - r * d), N)
  }

  /** The nonce cannot be used: sm2_do_sign draws another one. */
  ghost predicate Retry(mul: int -> Affine, d: int, e: int, k: int) {
    var r := SigR(mul, e, k);
    k == 0 || r == 0 || r + k == N || SigS(d, k, r) == 0
  }

  /** The range checks of sm2_do_verify. */
  ghost predicate InRange(r: int, s: int) {
    1 <= r < N && 1 <= s < N && (r + s) % N != 0
  }

  /** The point sm2_do_verify computes from a signature, for the public key with multiples mulP. */
  ghost function VerifyPoint(mul: int -> Affine, mulP: int -> Affine, r: int, s: int): Affine {
    EcAdd(GeneratorResult(mul, s), mulP((r + s) % N))
  }

  ghost predicate Accepts(mul: int -> Affine, mulP: int -> Affine, e: int, r: int, s: int) {
    InRange(r, s) && (e % N + XN(VerifyPoint(mul, mulP, r, s))) % N == r
  }

  /** The multiples of the public key dG. */
  ghost function KeyMultiples(mul: int -> Affine, d: int): int -> Affine {
    (i: int) => mul(d * i)
  }

  // ---------- inverses modulo n ----------

  lemma InvNInverts(a: int)
    requires Prime(N) && 0 < a < N
    ensures Cong(a * InvN(a), 1, N)
  {
    hide Pow, Prime, Cong;
    UnitNotDivisible(a, N);
    FermatInverse(a, N);
    CongScale(InvN(a), Pow(a, N - 2), a, N);
    CongTrans(a * InvN(a), a * Pow(a, N - 2), 1, N);
  }

  /** The signature equation: s(1 + d) = k - rd modulo n, in exact form. */
  lemma SignEquation(d: int, k: int, r: int) returns (q: int)
    requires Prime(N) && PrivateKey(d)
    ensures SigS(d, k, r) * (1 + d) == k - r * d + q * N
  {
    hide Prime, Cong, InvN;
    var v, w := InvN(1 + d), k - r * d;
    var s := SigS(d, k, r);
    CongScale(s, v * w, 1 + d, N);
    InvNInverts(1 + d);
    CongScale((1 + d) * v, 1, w, N);
    assert v * w * (1 + d) == (1 + d) * v * w;
    CongTrans(s * (1 + d), v * w * (1 + d), 1 * w, N);
    q := CongMultiple(s * (1 + d), w, N);
  }

  /** s is the only residue satisfying the equation. */
  lemma SignUnique(d: int, k: int, r: int, s: int)
    requires Prime(N) && PrivateKey(d) && 0 <= s < N && Cong(s * (1 + d), k - r * d, N)
    ensures s == SigS(d, k, r)
  {
    hide Prime, Cong, SigS;
    var t := SigS(d, k, r);
    var q := SignEquation(d, k, r);
    CongFromMultiple(t * (1 + d), k - r * d, q, N);
    CongFlip(t * (1 + d), k - r * d, N);
    CongTrans(s * (1 + d), k - r * d, t * (1 + d), N);
    assert (1 + d) * s == s * (1 + d) && (1 + d) * t == t * (1 + d);
    UnitNotDivisible(1 + d, N);
    CancelFactor(1 + d, s, t, N);
    CongCanonical(s, t, N);
  }

  /** r + s vanishes modulo n exactly when r + k does. */
  lemma SumVanishes(d: int, k: int, r: int)
    requires Prime(N) && PrivateKey(d) && 0 <= r < N && 0 < k < N
    ensures var s := SigS(d, k, r); (r + s) % N == 0 <==> r + k == N
  {
    hide Prime, SigS, Cong;
    var s := SigS(d, k, r);
    var q := SignEquation(d, k, r);
    SumEquation(r, s, d, k, q);
    ZeroResidue(r + s);
    ZeroResidue(r + k);
    OneTurn(r, k);
    BothVanish(r + s, 1 + d, r + k);
  }

  lemma SumEquation(r: int, s: int, d: int, k: int, q: int)
    requires s * (1 + d) == k - r * d + q * N
    ensures Cong((r + s) * (1 + d), r + k, N)
  {
    hide Cong;
    assert (r + s) * (1 + d) == r * (1 + d) + s * (1 + d);
    assert r * (1 + d) == r + r * d;
    CongFromMultiple((r + s) * (1 + d), r + k, q, N);
  }

  lemma OneTurn(r: int, k: int)
    requires 0 <= r < N && 0 < k < N
    ensures (r + k) % N == 0 <==> r + k == N
  {
  }

  /** A product with a unit vanishes exactly when the other factor does. */
  lemma BothVanish(x: int, u: int, y: int)
    requires Prime(N) && 0 < u < N && Cong(x * u, y, N)
    ensures Cong(x, 0, N) <==> Cong(y, 0, N)
  {
    hide Prime, Cong;
    if Cong(x, 0, N) {
      CongScale(x, 0, u, N);
      assert 0 * u == 0;
      CongFlip(x * u, y, N);
      CongTrans(y, x * u, 0, N);
    }
    if Cong(y, 0, N) {
      CongTrans(x * u, y, 0, N);
      assert u * x == x * u;
      UnitNotDivisible(u, N);
      EuclidLemma(u, x, N);
    }
  }

  lemma ZeroResidue(a: int)
    ensures Cong(a, 0, N) <==> a % N == 0
  {
    CongRemainders(a, 0, N);
  }

  // ---------- main theorems ----------

  /** The three retry tests are exactly what makes the range checks of the verifier pass. */
  lemma RetryExact(mul: int -> Affine, d: int, e: int, k: int)
    requires Prime(N) && PrivateKey(d) && 0 < k < N
    ensures var r := SigR(mul, e, k); !Retry(mul, d, e, k) <==> InRange(r, SigS(d, k, r))
  {
    hide SigS, SigR, Prime;
    SumVanishes(d, k, SigR(mul, e, k));
  }

  /** The verifier's combination sG + (r+s)dG is kG. */
  lemma Recombine(cb: int, mul: int -> Affine, d: int, k: int, r: int)
    requires Prime(N) && Multiples(cb, mul) && OrderN(mul) && PrivateKey(d)
    ensures var s := SigS(d, k, r); EcAdd(mul(s), mul(d * ((r + s) % N))) == mul(k)
  {
    hide Prime, SigS, Multiples, OrderN, EcAdd;
    var s := SigS(d, k, r);
    var q := SignEquation(d, k, r);
    var t, j := (r + s) % N, (r + s) / N;
    assert t == r + s - j * N;
    var z := q - d * j;
    assert s + d * t == k + z * N by {
      assert d * t == d * (r + s) - d * (j * N);
      assert d * (r + s) == r * d + s * d;
      assert s * (1 + d) == s + s * d;
      assert d * (j * N) == (d * j) * N;
      assert z * N == q * N - (d * j) * N;
    }
    MulAdd(cb, mul, s, d * t);
    WholeTurns(cb, mul, k, z);
  }

  lemma WholeTurns(cb: int, mul: int -> Affine, k: int, z: int)
    requires Multiples(cb, mul) && OrderN(mul)
    ensures mul(k + z * N) == mul(k)
  {
    hide Multiples, OrderN, Cong;
    MulAdd(cb, mul, z * N, k);
    CongFromMultiple(z * N, 0, z, N);
    ZeroResidue(z * N);
    OrderAt(mul, z * N);
  }

  /** The reduced x-coordinate the verifier sees for the signature of nonce k with response s. */
  ghost function VerifierX(mul: int -> Affine, k: int, s: int): (x: int)
    ensures 0 <= x < N
  {
    XN(mul(if s == N - 70 then k + 70 else k))
  }

  /** Without the generator's contribution the verifier is left with (k + 70)G. */
  lemma MissingGenerator(cb: int, mul: int -> Affine, d: int, k: int, r: int)
    requires Prime(N) && Multiples(cb, mul) && OrderN(mul) && PrivateKey(d) && SigS(d, k, r) == N - 70
    ensures VerifyPoint(mul, KeyMultiples(mul, d), r, N - 70) == mul(k + 70)
  {
    hide Prime, SigS, Multiples, OrderN, EcAdd;
    var s, t := N - 70, d * ((r + N - 70) % N);
    Recombine(cb, mul, d, k, r);
    MulAdd(cb, mul, s, t);
    MulAdd(cb, mul, s + t, -s);
    MulAdd(cb, mul, k, -s);
    assert k - s == k + 70 + -1 * N;
    WholeTurns(cb, mul, k + 70, -1);
    InfPlus(mul(t));
  }

  lemma InfPlus(p: Affine)
    ensures EcAdd(Inf, p) == p
  {
  }

  /** For every key, digest and nonce, and whatever x went into r: the verifier accepts exactly when no
      retry test holds and x is what it sees itself. */
  lemma AcceptedIff(cb: int, mul: int -> Affine, d: int, e: int, k: int, x: int)
    requires Prime(N) && Multiples(cb, mul) && OrderN(mul) && PrivateKey(d) && 0 < k < N && 0 <= x < N
    ensures var r := (e % N + x) % N; var s := SigS(d, k, r);
            Accepts(mul, KeyMultiples(mul, d), e, r, s)
            <==> r != 0 && s != 0 && r + k != N && x == VerifierX(mul, k, s)
  {
    hide Prime, SigS, Multiples, OrderN, EcAdd, XN, VerifyPoint;
    var r := (e % N + x) % N;
    var s := SigS(d, k, r);
    SumVanishes(d, k, r);
    SeenX(cb, mul, d, k, r);
    ShiftedResidues(e % N, x, VerifierX(mul, k, s));
  }

  lemma SeenX(cb: int, mul: int -> Affine, d: int, k: int, r: int)
    requires Prime(N) && Multiples(cb, mul) && OrderN(mul) && PrivateKey(d)
    ensures var s := SigS(d, k, r); XN(VerifyPoint(mul, KeyMultiples(mul, d), r, s)) == VerifierX(mul, k, s)
  {
    hide Prime, SigS, Multiples, OrderN, EcAdd, XN;
    if SigS(d, k, r) == N - 70 {
      MissingGenerator(cb, mul, d, k, r);
    } else {
      Recombine(cb, mul, d, k, r);
    }
  }

  lemma ShiftedResidues(e: int, x: int, y: int)
    requires 0 <= e < N && 0 <= x < N && 0 <= y < N
    ensures (e + x) % N == (e + y) % N <==> x == y
  {
  }

  /** When the verifier meets the signature of nonce k with response s: both generator
      multiplications are right, or the wrong one does not show in the x-coordinate. */
  ghost predicate Complete(mul: int -> Affine, k: int, s: int) {
    if s != N - 70 then k != N - 70 || XN(mul(k)) == 0
    else XN(GeneratorResult(mul, k)) == XN(mul(k + 70))
  }

  /** Completeness, exactly: for every key, digest and nonce the verifier accepts if and only if the
      nonce is not retried and the exceptional scalar n - 70 of the generator multiplication is met
      neither by the nonce nor by s, or leaves the reduced x-coordinate unchanged. */
  lemma CompletenessExact(cb: int, mul: int -> Affine, d: int, e: int, k: int)
    requires Prime(N) && Multiples(cb, mul) && OrderN(mul) && PrivateKey(d) && 0 < k < N
    ensures var r := SigR(mul, e, k); var s := SigS(d, k, r);
            Accepts(mul, KeyMultiples(mul, d), e, r, s) <==> !Retry(mul, d, e, k) && Complete(mul, k, s)
  {
    hide Prime, SigS, Multiples, OrderN, EcAdd, Accepts;
    AcceptedIff(cb, mul, d, e, k, XN(GeneratorResult(mul, k)));
    ModSmall(k, N);
  }

  /** Away from the exceptional scalar the signatures that are not retried are exactly the accepted ones. */
  lemma SignVerify(cb: int, mul: int -> Affine, d: int, e: int, k: int)
    requires Prime(N) && Multiples(cb, mul) && OrderN(mul) && PrivateKey(d) && 0 < k < N
    requires k != N - 70 && SigS(d, k, SigR(mul, e, k)) != N - 70
    ensures var r := SigR(mul, e, k); Accepts(mul, KeyMultiples(mul, d), e, r, SigS(d, k, r)) <==> !Retry(mul, d, e, k)
  {
    hide Prime, SigS, SigR, Multiples, OrderN, XN, Retry, Accepts;
    CompletenessExact(cb, mul, d, e, k);
  }

  /** When nonce and s are both n - 70 the two errors cancel: the signature is accepted. */
  lemma BothExceptional(cb: int, mul: int -> Affine, d: int, e: int)
    requires Prime(N) && Multiples(cb, mul) && OrderN(mul) && PrivateKey(d) && !Retry(mul, d, e, N - 70)
    requires SigS(d, N - 70, SigR(mul, e, N - 70)) == N - 70
    ensures Accepts(mul, KeyMultiples(mul, d), e, SigR(mul, e, N - 70), N - 70)
  {
    hide Prime, SigS, SigR, Multiples, OrderN, Retry, Accepts;
    CompletenessExact(cb, mul, d, e, N - 70);
    OrderAt(mul, N);
  }

  // ---------- the fast signer ----------

  /** s as sm2_fast_sign computes it from d' = 1/(1 + d). */
  ghost function FastS(d: int, k: int, r: int): (s: int)
    ensures 0 <= s < N
  {
    Residue((k + r) * InvN(1 + d) - r, N)
  }

  /** sm2_fast_sign and sm2_do_sign agree for every nonce. */
  lemma FastAgrees(d: int, k: int, r: int)
    requires Prime(N) && PrivateKey(d)
    ensures FastS(d, k, r) == SigS(d, k, r)
  {
    hide Prime, Cong, SigS, InvN;
    var v := InvN(1 + d);
    var s := FastS(d, k, r);
    CongScale(s, (k + r) * v - r, 1 + d, N);
    InvNInverts(1 + d);
    CongScale((1 + d) * v, 1, k + r, N);
    assert ((k + r) * v - r) * (1 + d) == (k + r) * ((1 + d) * v) - r * (1 + d) by {
      assert (k + r) * v * (1 + d) == (k + r) * ((1 + d) * v);
      assert ((k + r) * v - r) * (1 + d) == (k + r) * v * (1 + d) - r * (1 + d);
    }
    CongSelf(r * (1 + d), N);
    CongSub((k + r) * ((1 + d) * v), (k + r) * 1, r * (1 + d), r * (1 + d), N);
    assert (k + r) * 1 - r * (1 + d) == k - r * d;
    CongTrans(s * (1 + d), (k + r) * ((1 + d) * v) - r * (1 + d), k - r * d, N);
    SignUnique(d, k, r, s);
  }

  // ---------- the public key ----------

  /** The multiples of dG form a group of their own, of order n unless d = 0. */
  lemma PublicKeyMultiples(cb: int, mul: int -> Affine, d: int)
    requires Prime(N) && Multiples(cb, mul) && OrderN(mul) && 0 <= d < N
    ensures Multiples(cb, KeyMultiples(mul, d))
    ensures if d == 0 then KeyMultiples(mul, d)(1) == Inf else OrderN(KeyMultiples(mul, d))
  {
    hide Prime, Multiples, OnCurve, EcAdd, Cong;
    var f := KeyMultiples(mul, d);
    MulOn(cb, mul, 0);
    assert f(0) == Inf by { assert d * 0 == 0; }
    forall i, j ensures EcAdd(f(i), f(j)) == f(i + j) {
      MulAdd(cb, mul, d * i, d * j);
      assert d * i + d * j == d * (i + j);
    }
    forall i ensures OnCurve(cb, f(i)) {
      MulOn(cb, mul, d * i);
    }
    MultiplesIf(cb, f);
    if d != 0 {
      forall i ensures f(i) == Inf <==> i % N == 0 {
        UnitNotDivisible(d, N);
        ZeroResidue(i);
        ZeroResidue(d * i);
        OrderAt(mul, d * i);
        if Cong(d * i, 0, N) {
          EuclidLemma(d, i, N);
        }
        if Cong(i, 0, N) {
          CongScale(i, 0, d, N);
          assert d * 0 == 0;
        }
      }
    }
  }

  lemma MultiplesIf(cb: int, f: int -> Affine)
    requires f(0) == Inf && (forall i :: OnCurve(cb, f(i))) && (forall i, j :: EcAdd(f(i), f(j)) == f(i + j))
    ensures Multiples(cb, f)
  {
  }

  lemma SEquals(k: int, y: int, v: int)
    ensures (v * ((k - y % N) % N)) % N == Residue(v * (k - y), N)
  {
    hide Cong;
    CongMod(y, N);
    CongSelf(k, N);
    CongSub(k, k, y % N, y, N);
    CongMod(k - y % N, N);
    CongTrans((k - y % N) % N, k - y % N, k - y, N);
    CongScale((k - y % N) % N, k - y, v, N);
    Remainders(v * ((k - y % N) % N), v * (k - y));
    ResidueIs(v * (k - y), N);
  }

  lemma Remainders(a: int, b: int)
    requires Cong(a, b, N)
    ensures a % N == b % N
  {
    CongRemainders(a, b, N);
  }
}
