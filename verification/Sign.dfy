/** src/sm2_sign.c on limbs: signing, verification and the precomputing fast signer. */
module Sign {
  import opened Common
  import opened Modular
  import opened NumberTheory
  import opened Z256
  import opened Field
  import opened FieldElem
  import opened FieldInv
  import opened Curve
  import opened Points
  import opened ScalarMul
  import opened SignSpec

  // ---------- residues modulo n ----------

  const ONE: Fe := [1, 0, 0, 0]
  const TWO_512_MOD_N: Fe := [0x901192af7c114f20, 0x3464504ade6fa2fa, 0x620fc84c3affe0d4, 0x1eb5e412a22b3d3b]

  /** The residue mod n a Montgomery representative stands for. */
  ghost function VN(x: Fe): (r: int)
    ensures 0 <= r < N
  {
    ModuliValid();
    Of(MOD_N, x)
  }

  method NAdd(a: Fe, b: Fe) returns (r: Fe)
    requires Val4(a) < N && Val4(b) < N
    ensures Val4(r) == (Val4(a) + Val4(b)) % N
  {
    hide Val4;
    ModuliValid();
    Val4Range(a);
    Val4Range(b);
    var x := Load(a);
    var y := Load(b);
    ModAdd(MOD_N, x, x, y);
    r := x[..];
  }

  method NSub(a: Fe, b: Fe) returns (r: Fe)
    requires Val4(a) < N && Val4(b) < N
    ensures Val4(r) == (Val4(a) - Val4(b)) % N
  {
    hide Val4;
    ModuliValid();
    Val4Range(a);
    Val4Range(b);
    var x := Load(a);
    var y := Load(b);
    ModSub(MOD_N, x, x, y);
    r := x[..];
  }

  /** A 256-bit value is below 2n, so one conditional subtraction reduces it. */
  method ReduceOnce(a: Fe) returns (r: Fe)
    ensures Val4(r) == Val4(a) % N
  {
    hide Val4;
    ModuliValid();
    Val4Range(a);
    r := a;
    var x := Load(a);
    var m := Load(MOD_N.limbs);
    var c := Cmp(x, m);
    if c >= 0 {
      c := Sub(x, x, m);
      r := x[..];
      Val4Range(r);
    }
  }

  method NMontMul(a: Fe, b: Fe) returns (r: Fe)
    requires Val4(a) < N
    ensures Val4(r) < N && Cong(Val4(r) * R256, Val4(a) * Val4(b), N)
  {
    hide Val4, Cong;
    ModuliValid();
    Val4Range(a);
    Val4Range(b);
    BelowProductBound(Val4(a), Val4(b));
    var x := Load(a);
    var y := Load(b);
    MontMul(MOD_N, x, x, y);
    r := x[..];
  }

  lemma BelowProductBound(a: int, b: int)
    requires 0 <= a < N && 0 <= b < R256
    ensures a * b < N * R256
  {
    BelowProduct(a, N, R256);
    assert a * (R256 - b) >= 0;
    assert a * (R256 - b) == a * R256 - a * b;
  }

  /** A representative is its residue times 2^256. */
  lemma Encoded(x: Fe)
    ensures Cong(Val4(x), VN(x) * R256, N)
  {
    hide Val4, Cong, RInv;
    ModuliValid();
    var e := RInv(MOD_N);
    DecCong(MOD_N, Val4(x));
    CongScale(VN(x), Val4(x) * e, R256, N);
    RInvInverts(MOD_N);
    Unscale(Val4(x), e, N);
    assert R256 * (Val4(x) * e) == Val4(x) * e * R256;
    CongTrans(VN(x) * R256, Val4(x) * e * R256, Val4(x), N);
    CongFlip(VN(x) * R256, Val4(x), N);
  }

  lemma CancelR(a: int, b: int)
    requires Cong(a * R256, b * R256, N)
    ensures Cong(a, b, N)
  {
    hide Cong, RInv, Val4;
    ModuliValid();
    var e := RInv(MOD_N);
    RInvInverts(MOD_N);
    CongScale(a * R256, b * R256, e, N);
    Unscale(a, e, N);
    Unscale(b, e, N);
    assert R256 * (a * e) == a * R256 * e && R256 * (b * e) == b * R256 * e;
    CongFlip(R256 * (a * e), a, N);
    CongTrans(a, a * R256 * e, b * R256 * e, N);
    CongTrans(a, b * R256 * e, b, N);
  }

  /** sm2_z256_modn_to_mont. */
  method NToMont(a: Fe) returns (r: Fe)
    requires Val4(a) < N
    ensures Val4(r) < N && VN(r) == Val4(a)
  {
    hide Val4, Cong, VN;
    r := NMontMul(a, TWO_512_MOD_N);
    Val4Range(a);
    ghost var w := Val4(TWO_512_MOD_N);
    WideConstant();
    CongScale(w, R256 * R256, Val4(a), N);
    assert Val4(a) * (R256 * R256) == (Val4(a) * R256) * R256;
    CongTrans(Val4(r) * R256, Val4(a) * w, (Val4(a) * R256) * R256, N);
    CancelR(Val4(r), Val4(a) * R256);
    Encoded(r);
    CongFlip(Val4(r), VN(r) * R256, N);
    CongTrans(VN(r) * R256, Val4(r), Val4(a) * R256, N);
    CancelR(VN(r), Val4(a));
    CongCanonical(VN(r), Val4(a), N);
  }

  lemma WideConstant()
    ensures Cong(Val4(TWO_512_MOD_N), R256 * R256, N)
  {
    CongRemainders(Val4(TWO_512_MOD_N), R256 * R256, N);
  }

  /** Multiplying a representative by a plain residue gives the plain product. */
  method NMulMixed(a: Fe, b: Fe) returns (r: Fe)
    requires Val4(a) < N
    ensures Val4(r) == (VN(a) * Val4(b)) % N
  {
    hide Val4, Cong, VN;
    r := NMontMul(a, b);
    Encoded(a);
    CongScale(Val4(a), VN(a) * R256, Val4(b), N);
    assert VN(a) * R256 * Val4(b) == VN(a) * Val4(b) * R256;
    CongTrans(Val4(r) * R256, Val4(a) * Val4(b), VN(a) * Val4(b) * R256, N);
    CancelR(Val4(r), VN(a) * Val4(b));
    CongMod(VN(a) * Val4(b), N);
    CongFlip(VN(a) * Val4(b) % N, VN(a) * Val4(b), N);
    CongTrans(Val4(r), VN(a) * Val4(b), VN(a) * Val4(b) % N, N);
    Val4Range(r);
    CongCanonical(Val4(r), VN(a) * Val4(b) % N, N);
  }

  /** sm2_z256_modn_mont_inv on the representative of a. */
  method NMontInv(a: Fe) returns (r: Fe)
    requires Prime(N) && Val4(a) < N
    ensures Val4(r) < N && VN(r) == InvN(VN(a))
  {
    hide Val4, Cong, Pow, Prime;
    ModuliValid();
    r := MontInvN(a);
    CongFlip(InvN(VN(a)), Pow(VN(a), N - 2), N);
    CongTrans(VN(r), Pow(VN(a), N - 2), InvN(VN(a)), N);
    CongCanonical(VN(r), InvN(VN(a)), N);
  }

  // ---------- signing ----------

  datatype Signature = Signature(r: Fe, s: Fe)

  /** x of kG reduced modulo n, or zero when the result is infinity. */
  method NonceX(k: Fe, tab: seq<seq<AffineLimbs>>, ghost cb: int, ghost mul: int -> Affine) returns (x: Fe)
    requires Prime(P) && Multiples(cb, mul) && OrderN(mul) && GeneratorTable(mul, tab)
    ensures Val4(x) == XN(GeneratorResult(mul, Val4(k)))
  {
    hide Val4, Prime, Multiples, OrderN, GeneratorTable, Pt, Bounded;
    var p := new Point(Jac(ZERO, ZERO, ZERO));
    MulGenerator(p, k, tab, cb, mul);
    x := PointX(p);
  }

  method PointX(p: Point) returns (x: Fe)
    requires Prime(P) && Bounded(p.Val())
    ensures Val4(x) == XN(Pt(p.Val()))
  {
    hide Val4, Prime, Pt, Bounded;
    var ok, y;
    ok, x, y := GetXy(p);
    ZeroValue();
    x := ReduceOnce(x);
  }

  /** One pass of the loop of sm2_do_sign; None asks for another nonce. */
  method SignOnce(d: Fe, dinv: Fe, e: Fe, k: Fe, tab: seq<seq<AffineLimbs>>, ghost cb: int, ghost mul: int -> Affine)
    returns (sig: Option<Signature>)
    requires Prime(P) && Multiples(cb, mul) && OrderN(mul) && GeneratorTable(mul, tab)
    requires Val4(d) < N && Val4(dinv) < N && VN(dinv) == InvN(1 + Val4(d)) && 0 < Val4(k) < N
    ensures sig.None? <==> Retry(mul, Val4(d), Val4(e), Val4(k))
    ensures sig.Some? ==> Val4(sig.value.r) == SigR(mul, Val4(e), Val4(k))
                          && Val4(sig.value.s) == SigS(Val4(d), Val4(k), Val4(sig.value.r))
  {
    hide Val4, Prime, Multiples, OrderN, GeneratorTable, VN, InvN, GeneratorResult;
    var x := NonceX(k, tab, cb, mul);
    var h := ReduceOnce(e);
    Val4Range(k);
    var r := NAdd(h, x);
    ghost var rv, kv, dv := Val4(r), Val4(k), Val4(d);
    assert rv == SigR(mul, Val4(e), kv);
    Val4Range(r);
    var sum := SumIsOrder(r, k);
    ZeroTest(r);
    if r == ZERO || sum {
      return None;
    }
    var t := NToMont(r);
    t := NMulMixed(t, d);
    var w := NSub(k, t);
    var s := NMulMixed(dinv, w);
    SEquals(kv, rv * dv, InvN(1 + dv));
    assert Val4(s) == SigS(dv, kv, rv);
    ZeroTest(s);
    if s == ZERO {
      return None;
    }
    sig := Some(Signature(r, s));
  }

  lemma ZeroTest(x: Fe)
    ensures x == ZERO <==> Val4(x) == 0
  {
    if Val4(x) == 0 {
      Val4Injective(x, ZERO);
    }
  }

  /** r + k compared with n on 256 bits: the discarded carry cannot make it equal. */
  method SumIsOrder(r: Fe, k: Fe) returns (eq: bool)
    requires Val4(r) < N && Val4(k) < N
    ensures eq <==> Val4(r) + Val4(k) == N
  {
    hide Val4;
    ModuliValid();
    Val4Range(r);
    Val4Range(k);
    var x := Load(r);
    var y := Load(k);
    var c := Add(x, x, y);
    Val4Range(x[..]);
    var m := Load(MOD_N.limbs);
    var d := Cmp(x, m);
    eq := d == 0;
  }

  /** sm2_do_sign, with the random draws given as a sequence: the first usable nonce is used. */
  method DoSign(d: Fe, e: Fe, ks: seq<Fe>, tab: seq<seq<AffineLimbs>>, ghost cb: int, ghost mul: int -> Affine)
    returns (sig: Option<Signature>, used: nat)
    requires Prime(P) && Prime(N) && Multiples(cb, mul) && OrderN(mul) && GeneratorTable(mul, tab)
    requires Val4(d) < N && forall i :: 0 <= i < |ks| ==> Val4(ks[i]) < N
    ensures Val4(d) == N - 1 ==> sig.None?
    ensures used <= |ks|
    ensures Val4(d) < N - 1 ==> (sig.None? <==> used == |ks|)
    ensures Val4(d) < N - 1 ==> forall i :: 0 <= i < used ==> Retry(mul, Val4(d), Val4(e), Val4(ks[i]))
    ensures sig.Some? ==> used < |ks| && Val4(d) < N - 1 && 0 < Val4(ks[used]) && !Retry(mul, Val4(d), Val4(e), Val4(ks[used]))
                          && Val4(sig.value.r) == SigR(mul, Val4(e), Val4(ks[used]))
                          && Val4(sig.value.s) == SigS(Val4(d), Val4(ks[used]), Val4(sig.value.r))
  {
    hide Val4, Prime, Multiples, OrderN, GeneratorTable, VN, InvN, SigR, SigS, GeneratorResult;
    OneLimb();
    Val4Range(d);
    var dinv := NAdd(d, ONE);
    ZeroTest(dinv);
    sig, used := None, 0;
    if dinv == ZERO {
      return;
    }
    dinv := NToMont(dinv);
    dinv := NMontInv(dinv);
    while used < |ks|
      invariant used <= |ks|
      invariant forall i :: 0 <= i < used ==> Retry(mul, Val4(d), Val4(e), Val4(ks[i]))
    {
      var k := ks[used];
      ZeroTest(k);
      Val4Range(k);
      if k != ZERO {
        sig := SignOnce(d, dinv, e, k, tab, cb, mul);
        if sig.Some? {
          return;
        }
      }
      used := used + 1;
    }
    sig := None;
  }

  lemma OneLimb()
    ensures Val4(ONE) == 1
  {
  }

  // ---------- verification ----------

  method RangeChecks(r: Fe, s: Fe) returns (ok: bool, t: Fe)
    ensures ok <==> InRange(Val4(r), Val4(s))
    ensures ok ==> Val4(t) == (Val4(r) + Val4(s)) % N
  {
    hide Val4;
    ModuliValid();
    Val4Range(r);
    Val4Range(s);
    ZeroTest(r);
    ZeroTest(s);
    t := ZERO;
    var m := Load(MOD_N.limbs);
    if r == ZERO {
      return false, t;
    }
    var x := Load(r);
    var c := Cmp(x, m);
    if c >= 0 {
      return false, t;
    }
    if s == ZERO {
      return false, t;
    }
    x := Load(s);
    c := Cmp(x, m);
    if c >= 0 {
      return false, t;
    }
    t := NAdd(r, s);
    ZeroTest(t);
    ok := t != ZERO;
  }

  method FinalCheck(e: Fe, r: Fe, q: Point) returns (ok: bool)
    requires Prime(P) && Bounded(q.Val())
    ensures ok <==> (Val4(e) % N + XN(Pt(q.Val()))) % N == Val4(r)
  {
    hide Val4, Prime, Pt, Bounded;
    var x := PointX(q);
    var h := ReduceOnce(e);
    h := NAdd(h, x);
    ok := h == r;
    if Val4(h) == Val4(r) {
      Val4Injective(h, r);
    }
  }

  /** sm2_do_verify. */
  method DoVerify(pub: Point, e: Fe, sig: Signature, tab: seq<seq<AffineLimbs>>,
                  ghost cb: int, ghost mul: int -> Affine, ghost mulP: int -> Affine)
    returns (ok: bool)
    requires Prime(P) && Multiples(cb, mul) && OrderN(mul) && GeneratorTable(mul, tab) && Base(cb, mulP, pub.Val())
    ensures ok <==> Accepts(mul, mulP, Val4(e), Val4(sig.r), Val4(sig.s))
  {
    hide Val4, Prime, Multiples, OrderN, GeneratorTable, Pt, Bounded, Base, EcAdd, GeneratorResult, XN, InRange;
    var t;
    ok, t := RangeChecks(sig.r, sig.s);
    if !ok {
      return;
    }
    var q := new Point(Jac(ZERO, ZERO, ZERO));
    MulSum(q, t, pub, sig.s, tab, cb, mul, mulP);
    ok := FinalCheck(e, sig.r, q);
  }

  /** sm2_fast_verify: the same test with the table of the public key computed in advance. */
  method FastVerify(table: seq<Jac>, e: Fe, sig: Signature, tab: seq<seq<AffineLimbs>>,
                    ghost cb: int, ghost mul: int -> Affine, ghost mulP: int -> Affine)
    returns (ok: bool)
    requires Prime(P) && Multiples(cb, mul) && OrderN(mul) && GeneratorTable(mul, tab)
    requires Multiples(cb, mulP) && Table(mulP, table)
    ensures ok <==> Accepts(mul, mulP, Val4(e), Val4(sig.r), Val4(sig.s))
  {
    hide Val4, Prime, Multiples, OrderN, GeneratorTable, Pt, Bounded, Table, EcAdd, GeneratorResult, XN, InRange;
    var t;
    ok, t := RangeChecks(sig.r, sig.s);
    if !ok {
      return;
    }
    var q := new Point(Jac(ZERO, ZERO, ZERO));
    var u := new Point(Jac(ZERO, ZERO, ZERO));
    MulGenerator(q, sig.s, tab, cb, mul);
    MulEx(u, t, table, cb, mulP);
    PointAdd(q, q, u);
    ok := FinalCheck(e, sig.r, q);
  }

  /** Signing with any key and verifying with its public key, down to the limbs. */
  method SignThenVerify(d: Fe, pub: Point, e: Fe, ks: seq<Fe>, tab: seq<seq<AffineLimbs>>, ghost cb: int, ghost mul: int -> Affine)
    returns (sig: Option<Signature>, used: nat, ok: bool)
    requires Prime(P) && Prime(N) && Multiples(cb, mul) && OrderN(mul) && GeneratorTable(mul, tab)
    requires Val4(d) < N && forall i :: 0 <= i < |ks| ==> Val4(ks[i]) < N
    requires Is(mul, pub.Val(), Val4(d)) && mul(Val4(d)) != Aff(0, 0)
    ensures sig.Some? ==> used < |ks| && (ok <==> Complete(mul, Val4(ks[used]), Val4(sig.value.s)))
    ensures sig.None? ==> !ok
  {
    hide Val4, Prime, Multiples, OrderN, GeneratorTable, SigR, SigS, Accepts, Is, Retry, Complete;
    sig, used := DoSign(d, e, ks, tab, cb, mul);
    ok := false;
    if sig.Some? {
      Val4Range(d);
      PublicKeyBase(cb, mul, Val4(d), pub.Val());
      ok := DoVerify(pub, e, sig.value, tab, cb, mul, KeyMultiples(mul, Val4(d)));
      CompletenessExact(cb, mul, Val4(d), Val4(e), Val4(ks[used]));
    }
  }

  lemma PublicKeyBase(cb: int, mul: int -> Affine, d: int, j: Jac)
    requires Prime(N) && Multiples(cb, mul) && OrderN(mul) && 0 <= d < N && Is(mul, j, d) && mul(d) != Aff(0, 0)
    ensures Base(cb, KeyMultiples(mul, d), j)
  {
    hide Multiples, OrderN, Bounded, Pt, Prime;
    PublicKeyMultiples(cb, mul, d);
    assert KeyMultiples(mul, d)(1) == mul(d) by { assert d * 1 == d; }
  }

  // ---------- the fast signer ----------

  /** sm2_fast_sign_compute_key. */
  method ComputeKey(d: Fe) returns (key: Option<Fe>)
    requires Prime(N)
    ensures key.None? <==> Val4(d) >= N - 1
    ensures key.Some? ==> Val4(key.value) == InvN(1 + Val4(d))
  {
    hide Val4, Prime, VN, InvN;
    Val4Range(d);
    var x := Load(d);
    var m := Load([0x53bbf40939d54122, 0x7203df6b21c6052b, 0xffffffffffffffff, 0xfffffffeffffffff]);
    OrderMinusOne();
    var c := Cmp(x, m);
    if c >= 0 {
      return None;
    }
    OneLimb();
    var f := NAdd(d, ONE);
    f := NToMont(f);
    f := NMontInv(f);
    f := NMulMixed(f, ONE);
    ModSmall(InvN(1 + Val4(d)), N);
    key := Some(f);
  }

  lemma OrderMinusOne()
    ensures Val4([0x53bbf40939d54122, 0x7203df6b21c6052b, 0xffffffffffffffff, 0xfffffffeffffffff]) == N - 1
  {
  }

  /** sm2_fast_sign, for whatever the key, the nonce and x are: when x is the reduced x-coordinate
      of kG, r is that of sm2_do_sign, and when the key is 1/(1 + d), s is that of sm2_do_sign for
      this k and r. */
  method FastSign(key: Fe, k: Fe, x: Fe, e: Fe, ghost d: int) returns (sig: Signature)
    requires Val4(k) < N && Val4(x) < N
    ensures Val4(sig.r) == (Val4(e) % N + Val4(x)) % N
    ensures Val4(sig.s) == Residue((Val4(k) + Val4(sig.r)) * Val4(key) - Val4(sig.r), N)
    ensures Prime(N) && PrivateKey(d) && Val4(key) == InvN(1 + d) ==> Val4(sig.s) == SigS(d, Val4(k), Val4(sig.r))
    ensures forall mul: int -> Affine :: Val4(x) == XN(GeneratorResult(mul, Val4(k))) ==>
              Val4(sig.r) == SigR(mul, Val4(e), Val4(k))
  {
    hide Val4, Prime, VN, InvN, GeneratorResult, XN, SigS;
    var h := ReduceOnce(e);
    var r := NAdd(h, x);
    var s := FastResponse(key, k, r);
    sig := Signature(r, s);
    if Prime(N) && PrivateKey(d) && Val4(key) == InvN(1 + d) {
      FastAgrees(d, Val4(k), Val4(r));
      FastIs(d, Val4(k), Val4(r));
    }
  }

  /** (k + r) * d' - r. */
  method FastResponse(key: Fe, k: Fe, r: Fe) returns (s: Fe)
    requires Val4(k) < N && Val4(r) < N
    ensures Val4(s) == Residue((Val4(k) + Val4(r)) * Val4(key) - Val4(r), N)
  {
    hide Val4, VN, Residue;
    var t := NAdd(k, r);
    var u := NToMont(t);
    var v := NMulMixed(u, key);
    s := NSub(v, r);
    FastEquals(Val4(k) + Val4(r), Val4(key), Val4(r));
  }

  lemma FastIs(d: int, k: int, r: int)
    ensures FastS(d, k, r) == Residue((k + r) * InvN(1 + d) - r, N)
  {
    hide InvN, Residue;
  }

  lemma FastEquals(y: int, v: int, r: int)
    ensures ((y % N) * v % N - r) % N == Residue(y * v - r, N)
  {
    hide Cong;
    CongMod(y, N);
    CongScale(y % N, y, v, N);
    CongMod((y % N) * v, N);
    CongTrans((y % N) * v % N, (y % N) * v, y * v, N);
    CongSelf(r, N);
    CongSub((y % N) * v % N, y * v, r, r, N);
    Remainders((y % N) * v % N - r, y * v - r);
    ResidueIs(y * v - r, N);
  }
}
