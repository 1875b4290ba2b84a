/** Field elements in Montgomery form as values: what each limb routine computes on the
    decoded residues, exponentiation, and the fixed inversion chains. */
module FieldElem {
  import opened Common
  import opened Modular
  import opened NumberTheory
  import opened Z256
  import opened Field

  type Fe = s: seq<uint64> | |s| == 4 witness [0, 0, 0, 0]

  /** 2^-256 modulo m, from the identity m * m' + 1 = 2^256 * e. */
  function RInv(md: Modulus): int
    requires md.Valid()
  {
    (Val4(md.prime) * md.M() + 1) / R256
  }

  /** The residue a Montgomery representative stands for. */
  ghost function Dec(md: Modulus, v: int): (r: int)
    requires md.Valid()
    ensures 0 <= r < md.M()
  {
    Residue(v * RInv(md), md.M())
  }

  ghost function Of(md: Modulus, x: Fe): (r: int)
    requires md.Valid()
    ensures 0 <= r < md.M()
  {
    Dec(md, Val4(x))
  }

  lemma RInvInverts(md: Modulus)
    requires md.Valid()
    ensures Cong(R256 * RInv(md), 1, md.M())
  {
    hide Val4;
    var mp, m := Val4(md.prime), md.M();
    var e := (mp * m + 1) / R256;
    assert R256 * e == mp * m + 1;
    CongFromMultiple(R256 * e, 1, mp, m);
  }

  /** Decoding is a ring isomorphism: congruent representatives decode alike ... */
  lemma DecCong(md: Modulus, v: int)
    requires md.Valid()
    ensures Cong(Dec(md, v), v * RInv(md), md.M())
  {
    hide RInv, Val4, Cong, Modulus.Valid;
    ModulusFacts(md);
  }

  lemma DecOfCong(md: Modulus, v: int, w: int)
    requires md.Valid() && Cong(v, w, md.M())
    ensures Dec(md, v) == Dec(md, w)
  {
    hide RInv, Cong, Dec, Val4, Modulus.Valid;
    ModulusFacts(md);
    var e, m := RInv(md), md.M();
    DecCong(md, v);
    DecCong(md, w);
    CongScale(v, w, e, m);
    CongTrans(Dec(md, v), v * e, w * e, m);
    CongFlip(Dec(md, w), w * e, m);
    CongTrans(Dec(md, v), w * e, Dec(md, w), m);
    CongCanonical(Dec(md, v), Dec(md, w), m);
  }

  /** ... and different residues decode differently. */
  lemma DecInjective(md: Modulus, v: int, w: int)
    requires md.Valid() && 0 <= v < md.M() && 0 <= w < md.M() && Dec(md, v) == Dec(md, w)
    ensures v == w
  {
    hide RInv, Val4, Cong;
    var m, e := md.M(), RInv(md);
    DecCong(md, v);
    DecCong(md, w);
    CongFlip(Dec(md, w), w * e, m);
    CongFlip(Dec(md, v), v * e, m);
    CongTrans(v * e, Dec(md, v), w * e, m);
    RInvInverts(md);
    CongScale(v * e, w * e, R256, m);
    Unscale(v, e, m);
    Unscale(w, e, m);
    CongFlip(R256 * (v * e), v, m);
    CongTrans(v, R256 * (v * e), R256 * (w * e), m);
    CongTrans(v, R256 * (w * e), w, m);
    CongCanonical(v, w, m);
  }

  lemma Unscale(v: int, e: int, m: int)
    requires m > 0 && Cong(R256 * e, 1, m)
    ensures Cong(R256 * (v * e), v, m)
  {
    CongScale(R256 * e, 1, v, m);
    assert (R256 * e) * v == R256 * (v * e);
  }

  lemma DecAdd(md: Modulus, v: int, w: int)
    requires md.Valid()
    ensures Cong(Dec(md, v + w), Dec(md, v) + Dec(md, w), md.M())
    ensures Cong(Dec(md, v - w), Dec(md, v) - Dec(md, w), md.M())
  {
    hide RInv, Val4, Cong, Dec;
    var m, e := md.M(), RInv(md);
    DecCong(md, v);
    DecCong(md, w);
    DecCong(md, v + w);
    DecCong(md, v - w);
    assert (v + w) * e == v * e + w * e && (v - w) * e == v * e - w * e;
    CongAdd(Dec(md, v), v * e, Dec(md, w), w * e, m);
    CongSub(Dec(md, v), v * e, Dec(md, w), w * e, m);
    CongFlip(Dec(md, v) + Dec(md, w), v * e + w * e, m);
    CongFlip(Dec(md, v) - Dec(md, w), v * e - w * e, m);
    CongTrans(Dec(md, v + w), v * e + w * e, Dec(md, v) + Dec(md, w), m);
    CongTrans(Dec(md, v - w), v * e - w * e, Dec(md, v) - Dec(md, w), m);
  }

  /** Montgomery multiplication multiplies the decoded residues. */
  lemma DecMul(md: Modulus, r: int, v: int, w: int)
    requires md.Valid() && Cong(r * R256, v * w, md.M())
    ensures Cong(Dec(md, r), Dec(md, v) * Dec(md, w), md.M())
  {
    hide RInv, Val4, Cong, Dec;
    var m, e := md.M(), RInv(md);
    DecCong(md, v);
    DecCong(md, w);
    DecCong(md, r);
    CongMul(Dec(md, v), v * e, Dec(md, w), w * e, m);
    CongFlip(Dec(md, v) * Dec(md, w), (v * e) * (w * e), m);
    RInvInverts(md);
    CongScale(r * R256, v * w, e * e, m);
    assert (v * w) * (e * e) == (v * e) * (w * e) by { Shuffle(v, w, e); }
    CongScale(R256 * e, 1, r * e, m);
    assert (R256 * e) * (r * e) == (r * R256) * (e * e) by { Shuffle(R256, r, e); }
    CongFlip((R256 * e) * (r * e), r * e, m);
    CongTrans(r * e, (r * R256) * (e * e), (v * w) * (e * e), m);
    CongTrans(Dec(md, r), r * e, (v * e) * (w * e), m);
    CongTrans(Dec(md, r), (v * e) * (w * e), Dec(md, v) * Dec(md, w), m);
  }

  lemma Shuffle(v: int, w: int, e: int)
    ensures (v * w) * (e * e) == (v * e) * (w * e)
  {
    assert (v * w) * (e * e) == v * (w * (e * e));
    assert w * (e * e) == e * (w * e);
    assert v * (e * (w * e)) == (v * e) * (w * e);
  }

  // ---------- operations on values ----------

  /** Representatives at most m; only negation of zero produces m itself. */
  predicate Weak(md: Modulus, x: Fe)
    requires md.Valid()
  {
    Val4(x) <= md.M()
  }

  predicate Strict(md: Modulus, x: Fe)
    requires md.Valid()
  {
    Val4(x) < md.M()
  }

  method FeMul(md: Modulus, a: Fe, b: Fe) returns (r: Fe)
    requires md.Valid() && Weak(md, a) && Weak(md, b)
    ensures Strict(md, r) && Cong(Of(md, r), Of(md, a) * Of(md, b), md.M())
  {
    hide Val4, Cong, Dec;
    var x := Load(a);
    var y := Load(b);
    var z := new uint64[4];
    Val4Range(a);
    Val4Range(b);
    SquareBound(Val4(a), Val4(b), md.M());
    MontMul(md, z, x, y);
    r := z[..];
    DecMul(md, Val4(r), Val4(a), Val4(b));
  }

  method Load(a: Fe) returns (x: array<uint64>)
    ensures fresh(x) && x.Length == 4 && x[..] == a
  {
    x := Constant(a);
  }

  lemma SquareBound(a: int, b: int, m: int)
    requires 0 <= a <= m && 0 <= b <= m && 0 < m < R256
    ensures a * b < m * R256
  {
    ProductBound(a, b, m);
    StrictlyMore(m, m, R256);
  }

  lemma StrictlyMore(m: int, x: int, y: int)
    requires m > 0 && x < y
    ensures m * x < m * y
  {
    MulAtLeast(y - x, m);
    assert (y - x) * m == m * y - m * x;
  }

  method FeAdd(md: Modulus, a: Fe, b: Fe) returns (r: Fe)
    requires md.Valid() && Weak(md, a) && Weak(md, b)
    ensures Weak(md, r) && (Strict(md, a) && Strict(md, b) ==> Strict(md, r))
    ensures Cong(Of(md, r), Of(md, a) + Of(md, b), md.M())
  {
    hide Val4, Cong, Dec;
    var x := Load(a);
    var y := Load(b);
    Val4Range(a);
    Val4Range(b);
    ModAdd(md, x, x, y);
    r := x[..];
    Wrapped(md, Val4(a) + Val4(b), Val4(r));
    DecAdd(md, Val4(a), Val4(b));
  }

  /** Adding or subtracting the modulus does not change the decoded residue. */
  lemma Wrapped(md: Modulus, s: int, r: int)
    requires md.Valid() && (r == s || r == s - md.M() || r == s + md.M())
    ensures Dec(md, r) == Dec(md, s)
  {
    hide Cong, Dec, RInv, Val4;
    var m := md.M();
    if r == s - m {
      CongFromMultiple(r, s, -1, m);
    } else if r == s + m {
      CongFromMultiple(r, s, 1, m);
    } else {
      CongSelf(r, m);
    }
    DecOfCong(md, r, s);
  }

  method FeSub(md: Modulus, a: Fe, b: Fe) returns (r: Fe)
    requires md.Valid() && Weak(md, a) && Weak(md, b)
    ensures Weak(md, r) && (Strict(md, a) ==> Strict(md, r))
    ensures Cong(Of(md, r), Of(md, a) - Of(md, b), md.M())
  {
    hide Val4, Cong, Dec;
    var x := Load(a);
    var y := Load(b);
    Val4Range(a);
    Val4Range(b);
    ModSub(md, x, x, y);
    r := x[..];
    Wrapped(md, Val4(a) - Val4(b), Val4(r));
    DecAdd(md, Val4(a), Val4(b));
  }

  method FeNeg(md: Modulus, a: Fe) returns (r: Fe)
    requires md.Valid() && Weak(md, a)
    ensures Weak(md, r) && Val4(r) == md.M() - Val4(a)
    ensures Cong(Of(md, r), -Of(md, a), md.M())
  {
    hide Val4, Cong, Dec;
    var x := Load(a);
    Val4Range(a);
    ModNeg(md, x, x);
    r := x[..];
    Wrapped(md, 0 - Val4(a), Val4(r));
    DecAdd(md, 0, Val4(a));
    DecZero(md);
  }

  lemma DecZero(md: Modulus)
    requires md.Valid()
    ensures Dec(md, 0) == 0
  {
    hide RInv, Cong, Dec, Val4, Modulus.Valid;
    ModulusFacts(md);
    var m := md.M();
    DecCong(md, 0);
    assert 0 * RInv(md) == 0;
    CongCanonical(Dec(md, 0), 0, m);
  }

  method FeHaf(md: Modulus, a: Fe) returns (r: Fe)
    requires md.Valid() && Weak(md, a)
    ensures Weak(md, r) && (Strict(md, a) ==> Strict(md, r))
    ensures Cong(2 * Of(md, r), Of(md, a), md.M())
  {
    hide Val4, Cong, Dec;
    var x := Load(a);
    Val4Range(a);
    ModHaf(md, x, x);
    r := x[..];
    var v := Val4(r);
    Wrapped(md, Val4(a), 2 * v);
    DecAdd(md, v, v);
    CongFlip(Dec(md, v + v), Dec(md, v) + Dec(md, v), md.M());
  }

  method FeDbl(md: Modulus, a: Fe) returns (r: Fe)
    requires md.Valid() && Weak(md, a)
    ensures Weak(md, r) && (Strict(md, a) ==> Strict(md, r))
    ensures Cong(Of(md, r), 2 * Of(md, a), md.M())
  {
    r := FeAdd(md, a, a);
  }

  method FeTri(md: Modulus, a: Fe) returns (r: Fe)
    requires md.Valid() && Weak(md, a)
    ensures Weak(md, r) && (Strict(md, a) ==> Strict(md, r))
    ensures Cong(Of(md, r), 3 * Of(md, a), md.M())
  {
    hide Val4, Cong, Dec, Of;
    var t := FeAdd(md, a, a);
    r := FeAdd(md, t, a);
    CongSelf(Of(md, a), md.M());
    CongAdd(Of(md, t), 2 * Of(md, a), Of(md, a), Of(md, a), md.M());
    CongTrans(Of(md, r), Of(md, t) + Of(md, a), 3 * Of(md, a), md.M());
  }

  // ---------- powers and inverses ----------

  /** x is reduced and stands for base^e. */
  ghost predicate IsPow(md: Modulus, x: Fe, base: int, e: nat)
    requires md.Valid()
  {
    Strict(md, x) && Cong(Of(md, x), Pow(base, e), md.M())
  }

  method Times(md: Modulus, x: Fe, y: Fe, ghost base: int, ghost e: nat, ghost f: nat) returns (r: Fe)
    requires md.Valid() && IsPow(md, x, base, e) && IsPow(md, y, base, f)
    ensures IsPow(md, r, base, e + f)
  {
    hide Val4, Cong, Dec, Of, Pow;
    r := FeMul(md, x, y);
    CongMul(Of(md, x), Pow(base, e), Of(md, y), Pow(base, f), md.M());
    PowAdd(base, e, f);
    CongTrans(Of(md, r), Of(md, x) * Of(md, y), Pow(base, e + f), md.M());
  }

  /** k successive squarings. */
  method SqrN(md: Modulus, x: Fe, k: nat, ghost base: int, ghost e: nat) returns (r: Fe)
    requires md.Valid() && IsPow(md, x, base, e)
    ensures IsPow(md, r, base, e * Two(k))
  {
    hide IsPow;
    r := x;
    assert e * Two(0) == e;
    for i := 0 to k
      invariant IsPow(md, r, base, e * Two(i))
    {
      r := Times(md, r, r, base, e * Two(i), e * Two(i));
      assert e * Two(i) + e * Two(i) == e * Two(i + 1) by { Doubled(e, Two(i)); }
    }
  }

  lemma Doubled(e: int, t: int)
    ensures e * t + e * t == e * (2 * t)
  {
  }
}
