/** Jacobian point arithmetic of src/sm2_z256.c.  A point is three field elements in Montgomery
    form, updated in place; Pt is the affine point it stands for. */
module Points {
  import opened Modular
  import opened NumberTheory
  import opened Z256
  import opened Field
  import opened FieldElem
  import opened FieldInv
  import opened Curve

  // ---------- the field mod p ----------

  /** The residue an element stands for. */
  ghost function V(x: Fe): (r: int)
    ensures 0 <= r < P
  {
    ModuliValid();
    Of(MOD_P, x)
  }

  ghost predicate S(x: Fe) {
    Val4(x) < P
  }

  /** At most p: the negative of zero is stored as p. */
  ghost predicate W(x: Fe) {
    Val4(x) <= P
  }

  const ZERO: Fe := [0, 0, 0, 0]
  const MONT_ONE: Fe := [1, 0xffffffff, 0, 0x100000000]

  method PMul(a: Fe, b: Fe) returns (r: Fe)
    requires W(a) && W(b)
    ensures S(r) && C(V(r), V(a) * V(b))
  {
    hide Cong, Of, Val4;
    ModuliValid();
    r := FeMul(MOD_P, a, b);
  }

  method PAdd(a: Fe, b: Fe) returns (r: Fe)
    requires W(a) && W(b)
    ensures W(r) && (S(a) && S(b) ==> S(r)) && C(V(r), V(a) + V(b))
  {
    hide Cong, Of, Val4;
    ModuliValid();
    r := FeAdd(MOD_P, a, b);
  }

  method PSub(a: Fe, b: Fe) returns (r: Fe)
    requires W(a) && W(b)
    ensures W(r) && (S(a) ==> S(r)) && C(V(r), V(a) - V(b))
  {
    hide Cong, Of, Val4;
    ModuliValid();
    r := FeSub(MOD_P, a, b);
  }

  method PDbl(a: Fe) returns (r: Fe)
    requires W(a)
    ensures W(r) && (S(a) ==> S(r)) && C(V(r), 2 * V(a))
  {
    hide Cong, Of, Val4;
    ModuliValid();
    r := FeDbl(MOD_P, a);
  }

  method PTri(a: Fe) returns (r: Fe)
    requires W(a)
    ensures W(r) && (S(a) ==> S(r)) && C(V(r), 3 * V(a))
  {
    hide Cong, Of, Val4;
    ModuliValid();
    r := FeTri(MOD_P, a);
  }

  method PHaf(a: Fe) returns (r: Fe)
    requires W(a)
    ensures W(r) && (S(a) ==> S(r)) && C(2 * V(r), V(a))
  {
    hide Cong, Of, Val4;
    ModuliValid();
    r := FeHaf(MOD_P, a);
  }

  method PNeg(a: Fe) returns (r: Fe)
    requires W(a)
    ensures W(r) && C(V(r), -V(a)) && Val4(r) == P - Val4(a)
  {
    hide Cong, Of, Val4;
    ModuliValid();
    r := FeNeg(MOD_P, a);
  }

  method PInv(a: Fe) returns (r: Fe)
    requires Prime(P) && S(a)
    ensures S(r) && (V(a) != 0 ==> C(V(a) * V(r), 1)) && (V(a) == 0 ==> V(r) == 0)
  {
    hide Cong, Of, Val4, Prime;
    ModuliValid();
    r := FeInvP(a);
  }

  /** Reduced elements are equal limb by limb exactly when they stand for the same residue. */
  lemma LimbsEqual(x: Fe, y: Fe)
    requires S(x) && S(y)
    ensures x == y <==> V(x) == V(y)
  {
    hide Val4, Dec;
    ModuliValid();
    Val4Range(x);
    Val4Range(y);
    if V(x) == V(y) {
      DecInjective(MOD_P, Val4(x), Val4(y));
      Val4Injective(x, y);
    }
  }

  lemma Constants()
    ensures S(ZERO) && V(ZERO) == 0 && S(MONT_ONE) && V(MONT_ONE) == 1
  {
    hide Of, Dec;
    ModuliValid();
    assert Val4(ZERO) == 0;
    assert V(ZERO) == Dec(MOD_P, 0) by { OfIs(MOD_P, ZERO); }
    DecZero(MOD_P);
    MontOne(MOD_P, 0);
    assert MOD_P.neg == MONT_ONE;
    assert Pow(0, 0) == 1;
    assert Cong(V(MONT_ONE), 1, P);
    CongCanonical(V(MONT_ONE), 1, P);
  }

  lemma OfIs(md: Modulus, x: Fe)
    requires md.Valid()
    ensures Of(md, x) == Dec(md, Val4(x))
  {
  }

  lemma ZeroLimbs(x: Fe)
    requires S(x)
    ensures (x == ZERO <==> V(x) == 0) && (V(x) == 0 <==> C(V(x), 0))
  {
    hide Cong, V;
    Constants();
    LimbsEqual(x, ZERO);
    if C(V(x), 0) {
      CongCanonical(V(x), 0, P);
    }
    CongSelf(0, P);
  }

  // ---------- points ----------

  datatype Jac = Jac(X: Fe, Y: Fe, Z: Fe)

  /** The bounds every routine keeps. */
  ghost predicate Bounded(j: Jac) {
    S(j.X) && W(j.Y) && S(j.Z)
  }

  /** The affine point (X/Z^2, Y/Z^3); infinity when Z is zero. */
  ghost function Pt(j: Jac): Affine {
    var i := Inv(V(j.Z));
    if V(j.Z) == 0 then Inf else Aff(Residue(V(j.X) * (i * i), P), Residue(V(j.Y) * (i * i * i), P))
  }

  ghost predicate JRep(j: Jac, pt: Affine) {
    Rep(V(j.X), V(j.Y), V(j.Z), pt) && CanonicalPoint(pt)
  }

  lemma NonzeroResidue(z: int)
    requires 0 <= z < P
    ensures z == 0 <==> C(z, 0)
  {
    hide Cong;
    if C(z, 0) {
      CongCanonical(z, 0, P);
    }
    CongSelf(0, P);
  }

  lemma PtRep(j: Jac)
    requires Prime(P)
    ensures JRep(j, Pt(j))
  {
    hide Cong, Prime, V, Inv;
    var z := V(j.Z);
    NonzeroResidue(z);
    if z != 0 {
      var i := Inv(z);
      InvInverts(z);
      SquareOfProduct(z, i);
      CubeOfProduct(z, i);
      Self((z * i) * (z * i));
      MulC((z * i) * (z * i), z * i, z * i, 1, 1, 1);
      Self((z * i) * (z * i) * (z * i));
      MulC((z * i) * (z * i) * (z * i), (z * i) * (z * i), z * i, 1, 1, 1);
      Undo(V(j.X), i * i, z * z);
      Undo(V(j.Y), i * i * i, z * z * z);
    }
  }

  lemma Undo(x: int, i: int, z: int)
    requires C(z * i, 1)
    ensures C(x, Residue(x * i, P) * z) && 0 <= Residue(x * i, P) < P
  {
    hide Cong;
    ResC(x * i);
    ScaleC(Residue(x * i, P), x * i, z);
    assert x * i * z == x * (z * i);
    ScaleC(z * i, 1, x);
    Trans(Residue(x * i, P) * z, x * (z * i), x * 1);
    Flip(Residue(x * i, P) * z, x);
  }

  /** A representative stands for only one point, whatever its Z. */
  lemma PtUnique(j: Jac, pt: Affine)
    requires Prime(P) && JRep(j, pt)
    ensures Pt(j) == pt
  {
    hide Cong, Prime, V, Inv;
    PtRep(j);
    var q, z := Pt(j), V(j.Z);
    NonzeroResidue(z);
    if z != 0 {
      UnitDenominator(z);
      Self(V(j.X));
      Self(V(j.Y));
      SameCoordinate(pt.x, q.x, z * z, V(j.X), V(j.X));
      SameCoordinate(pt.y, q.y, z * z * z, V(j.Y), V(j.Y));
    }
  }

  class Point {
    var X: Fe
    var Y: Fe
    var Z: Fe

    function Val(): Jac
      reads this
    {
      Jac(X, Y, Z)
    }

    constructor (j: Jac)
      ensures Val() == j
    {
      X, Y, Z := j.X, j.Y, j.Z;
    }
  }

  /** sm2_z256_point_dbl: r may be a. */
  method PointDbl(r: Point, a: Point)
    requires Prime(P) && Bounded(a.Val())
    modifies r
    ensures Bounded(r.Val()) && Pt(r.Val()) == EcAdd(old(Pt(a.Val())), old(Pt(a.Val())))
  {
    hide C, Prime, V, Val4, EcAdd, Pt, Rep;
    ghost var j := a.Val();
    PtRep(j);
    var s0 := PDbl(a.Y);
    var zsqr := PMul(a.Z, a.Z);
    var s1 := PMul(s0, s0);
    r.Z := PMul(a.Z, a.Y);
    ghost var zy := r.Z;
    r.Z := PDbl(r.Z);
    var m0 := PAdd(a.X, zsqr);
    var zs := PSub(a.X, zsqr);
    r.Y := PMul(s1, s1);
    ghost var y0 := r.Y;
    r.Y := PHaf(r.Y);
    ghost var yh := r.Y;
    var m1 := PMul(m0, zs);
    var m := PTri(m1);
    var s2 := PMul(s1, a.X);
    var t := PDbl(s2);
    r.X := PMul(m, m);
    ghost var xs := r.X;
    r.X := PSub(r.X, t);
    var s3 := PSub(s2, r.X);
    var s4 := PMul(s3, m);
    r.Y := PSub(s4, r.Y);
    DoubleRep(Pt(j), V(j.X), V(j.Y), V(j.Z), V(s0), V(zsqr), V(s1), V(zy), V(r.Z), V(m0), V(zs), V(y0), V(yh),
              V(m1), V(m), V(s2), V(t), V(xs), V(r.X), V(s3), V(s4), V(r.Y));
    CanonicalSum(Pt(j), Pt(j));
    PtUnique(r.Val(), EcAdd(Pt(j), Pt(j)));
  }

  lemma CanonicalSum(p: Affine, q: Affine)
    requires CanonicalPoint(p) && CanonicalPoint(q)
    ensures CanonicalPoint(EcAdd(p, q))
  {
  }

  /** (u, s) are the coordinates of p over the denominator zz. */
  ghost predicate Over(zz: int, p: Affine, u: int, s: int) {
    p.Aff? && CanonicalPoint(p) && C(u, p.x * (zz * zz)) && C(s, p.y * (zz * zz * zz))
  }

  /** What the products computed before the branch of sm2_z256_point_add decide. */
  lemma Compared(p: Affine, q: Affine, z1: int, z2: int, x1: int, y1: int, x2: int, y2: int,
                 z1sqr: int, z1cub: int, z2sqr: int, z2cub: int, u1: int, s1: int, u2: int, s2: int)
    requires Prime(P) && p.Aff? && q.Aff? && CanonicalPoint(p) && CanonicalPoint(q)
    requires Rep(x1, y1, z1, p) && Rep(x2, y2, z2, q)
    requires C(z1sqr, z1 * z1) && C(z1cub, z1sqr * z1) && C(z2sqr, z2 * z2) && C(z2cub, z2sqr * z2)
    requires C(s1, z2cub * y1) && C(u1, x1 * z2sqr) && C(s2, z1cub * y2) && C(u2, x2 * z1sqr)
    ensures !C(z1 * z2, 0) && Over(z1 * z2, p, u1, s1) && Over(z1 * z2, q, u2, s2)
    ensures (C(u1, u2) <==> p.x == q.x) && (C(s1, s2) <==> p.y == q.y)
  {
    hide C, Prime;
    var zz := z1 * z2;
    NonzeroProduct(z1, z2);
    UnitDenominator(zz);
    CrossMultiplied(p.x, p.y, z1, z2, x1, y1, z2sqr, z2cub, u1, s1);
    CrossMultiplied(q.x, q.y, z2, z1, x2, y2, z1sqr, z1cub, u2, s2);
    assert z2 * z1 == zz;
    SameCoordinate(p.x, q.x, zz * zz, u1, u2);
    SameCoordinate(p.y, q.y, zz * zz * zz, s1, s2);
  }

  /** The same for mixed addition, where the second point has denominator one. */
  lemma MixedCompared(p: Affine, q: Affine, z: int, x: int, y: int, zsqr: int, zcub: int, u2: int, s2: int)
    requires Prime(P) && p.Aff? && q.Aff? && CanonicalPoint(p) && CanonicalPoint(q) && Rep(x, y, z, p)
    requires C(zsqr, z * z) && C(zcub, zsqr * z) && C(s2, zcub * q.y) && C(u2, q.x * zsqr)
    ensures !C(z, 0) && Over(z, p, x, y) && Over(z, q, u2, s2)
    ensures C(u2, x) <==> p.x == q.x
  {
    hide C, Prime;
    UnitDenominator(z);
    Self(q.x);
    MulC(u2, q.x, zsqr, q.x, z * z, q.x * (z * z));
    Self(z);
    MulC(zcub, zsqr, z, z * z, z, z * z * z);
    Self(q.y);
    MulC(s2, zcub, q.y, z * z * z, q.y, q.y * (z * z * z));
    SameCoordinate(q.x, p.x, z * z, u2, x);
  }

  lemma SameResidue(x: Fe, y: Fe)
    requires S(x) && S(y)
    ensures x == y <==> C(V(x), V(y))
  {
    hide Cong, V;
    LimbsEqual(x, y);
    if C(V(x), V(y)) {
      CongCanonical(V(x), V(y), P);
    }
    CongSelf(V(x), P);
  }

  /** The tail of sm2_z256_point_add, once the two x-coordinates are known to differ. */
  method AddTail(z1: Fe, z2: Fe, u1: Fe, s1: Fe, u2: Fe, s2: Fe, ghost p: Affine, ghost q: Affine) returns (j: Jac)
    requires Prime(P) && S(u1) && S(s1) && S(u2) && S(s2) && S(z1) && S(z2)
    ensures Bounded(j)
    ensures var zz := V(z1) * V(z2);
            Over(zz, p, V(u1), V(s1)) && Over(zz, q, V(u2), V(s2)) && p.x != q.x && !C(zz, 0) ==> Pt(j) == EcAdd(p, q)
  {
    hide C, Prime, V, Val4, EcAdd, Pt, Rep;
    var r := PSub(s2, s1);
    var h := PSub(u2, u1);
    var rsqr := PMul(r, r);
    var z := PMul(h, z1);
    var hsqr := PMul(h, h);
    var z3 := PMul(z, z2);
    var hcub := PMul(hsqr, h);
    var uh := PMul(u1, hsqr);
    var uh2 := PDbl(uh);
    var x := PSub(rsqr, uh2);
    var x3 := PSub(x, hcub);
    var y := PSub(uh, x3);
    var sh := PMul(s1, hcub);
    var ry := PMul(r, y);
    var y3 := PSub(ry, sh);
    j := Jac(x3, y3, z3);
    ghost var zz := V(z1) * V(z2);
    Self(V(z2));
    MulC(V(z3), V(z), V(z2), V(h) * V(z1), V(z2), V(h) * zz);
    TailSteps(V(rsqr), V(uh), V(uh2), V(x), V(hcub), V(x3), V(r), V(y), V(ry), V(sh), V(y3));
    if Over(zz, p, V(u1), V(s1)) && Over(zz, q, V(u2), V(s2)) && p.x != q.x && !C(zz, 0) {
      ChordRep(zz, p, q, V(u1), V(s1), V(u2), V(s2), V(h), V(r), V(z3), V(rsqr), V(hsqr), V(hcub), V(uh), V(x3), V(sh), V(y3));
      CanonicalSum(p, q);
      PtUnique(j, EcAdd(p, q));
    }
  }

  /** Reading the last subtractions together. */
  lemma TailSteps(rsqr: int, uh: int, uh2: int, x: int, hcub: int, x3: int, r: int, y: int, ry: int, sh: int, y3: int)
    requires C(uh2, 2 * uh) && C(x, rsqr - uh2) && C(x3, x - hcub) && C(y, uh - x3) && C(ry, r * y) && C(y3, ry - sh)
    ensures C(x3, rsqr - 2 * uh - hcub) && C(y3, r * (uh - x3) - sh)
  {
    hide C;
    Self(rsqr);
    SubC(x, rsqr, uh2, rsqr, 2 * uh);
    Self(hcub);
    SubC(x3, x, hcub, rsqr - 2 * uh, hcub);
    Self(r);
    MulC(ry, r, y, r, uh - x3, r * (uh - x3));
    Self(sh);
    SubC(y3, ry, sh, r * (uh - x3), sh);
  }

  /** sm2_z256_point_add: complete, and r may be either operand. */
  method PointAdd(r: Point, a: Point, b: Point)
    requires Prime(P) && Bounded(a.Val()) && Bounded(b.Val())
    modifies r
    ensures Bounded(r.Val()) && Pt(r.Val()) == EcAdd(old(Pt(a.Val())), old(Pt(b.Val())))
  {
    hide C, Prime, V, Val4, EcAdd, Pt, Rep;
    ghost var j, k := a.Val(), b.Val();
    ghost var p, q := Pt(j), Pt(k);
    PtRep(j);
    PtRep(k);
    InfinityTest(j);
    InfinityTest(k);
    Sums(p, q);
    var inf1, inf2 := a.Z == ZERO, b.Z == ZERO;
    var z2sqr := PMul(b.Z, b.Z);
    var z1sqr := PMul(a.Z, a.Z);
    var z2cub := PMul(z2sqr, b.Z);
    var z1cub := PMul(z1sqr, a.Z);
    var s1 := PMul(z2cub, a.Y);
    var s2 := PMul(z1cub, b.Y);
    var u1 := PMul(a.X, z2sqr);
    var u2 := PMul(b.X, z1sqr);
    if !inf1 && !inf2 {
      Compared(p, q, V(j.Z), V(k.Z), V(j.X), V(j.Y), V(k.X), V(k.Y), V(z1sqr), V(z1cub), V(z2sqr), V(z2cub), V(u1), V(s1), V(u2), V(s2));
      SameResidue(u1, u2);
      SameResidue(s1, s2);
    }
    if u1 == u2 && !inf1 && !inf2 {
      if s1 == s2 {
        PointDbl(r, a);
      } else {
        r.X, r.Y, r.Z := ZERO, ZERO, ZERO;
        Constants();
        InfinityTest(r.Val());
      }
      return;
    }
    var t := AddTail(a.Z, b.Z, u1, s1, u2, s2, p, q);
    t := if inf1 then b.Val() else t;
    t := if inf2 then a.Val() else t;
    r.X, r.Y, r.Z := t.X, t.Y, t.Z;
  }

  lemma InfinityTest(j: Jac)
    requires Bounded(j)
    ensures j.Z == ZERO <==> Pt(j).Inf?
  {
    hide V;
    ZeroLimbs(j.Z);
  }

  /** The cases of the group law that need no slope. */
  lemma Sums(p: Affine, q: Affine)
    ensures p.Inf? ==> EcAdd(p, q) == q
    ensures q.Inf? ==> EcAdd(p, q) == p
    ensures p.Aff? && q.Aff? && p.x == q.x && p.y != q.y ==> EcAdd(p, q) == Inf
  {
  }

  /** sm2_z256_point_neg: r may be a. */
  method PointNeg(r: Point, a: Point)
    requires Prime(P) && Bounded(a.Val())
    modifies r
    ensures Bounded(r.Val()) && Pt(r.Val()) == EcNeg(old(Pt(a.Val())))
  {
    hide C, Prime, V, Val4, Pt, Rep;
    ghost var j := a.Val();
    PtRep(j);
    r.X := a.X;
    r.Y := PNeg(a.Y);
    r.Z := a.Z;
    NegRep(Pt(j), V(j.X), V(j.Y), V(r.Y), V(j.Z));
    PtUnique(r.Val(), EcNeg(Pt(j)));
  }

  lemma NegRep(pt: Affine, x: int, y: int, y': int, z: int)
    requires CanonicalPoint(pt) && Rep(x, y, z, pt) && C(y', -y)
    ensures CanonicalPoint(EcNeg(pt)) && Rep(x, y', z, EcNeg(pt))
  {
    hide Cong;
    if pt.Aff? {
      var c := z * z * z;
      ScaleC(y, pt.y * c, -1);
      Trans(y', -1 * y, -1 * (pt.y * c));
      assert -1 * (pt.y * c) == (-pt.y) * c;
      ModC(-pt.y);
      Self(c);
      Replace(y', -pt.y, (-pt.y) % P, c, c);
      CongMod(-pt.y, P);
    }
  }

  /** sm2_z256_point_sub: r may be either operand. */
  method PointSub(r: Point, a: Point, b: Point)
    requires Prime(P) && Bounded(a.Val()) && Bounded(b.Val())
    modifies r
    ensures Bounded(r.Val()) && Pt(r.Val()) == EcAdd(old(Pt(a.Val())), EcNeg(old(Pt(b.Val()))))
  {
    hide *;
    var neg := new Point(b.Val());
    PointNeg(neg, b);
    PointAdd(r, a, neg);
  }

  // ---------- mixed addition ----------

  datatype AffineLimbs = AffineLimbs(x: Fe, y: Fe)

  ghost predicate BoundedAffine(b: AffineLimbs) {
    S(b.x) && W(b.y)
  }

  /** Infinity is encoded as (0, 0), which is not on the curve. */
  ghost function AffinePt(b: AffineLimbs): Affine {
    if b.x == ZERO && b.y == ZERO then Inf else Aff(V(b.x), V(b.y))
  }

  lemma JacOfAffine(b: AffineLimbs)
    requires Prime(P)
    ensures Pt(Jac(b.x, b.y, MONT_ONE)) == Aff(V(b.x), V(b.y))
  {
    hide Cong, Prime, V, Pt;
    Constants();
    NonzeroResidue(1);
    Self(V(b.x));
    Self(V(b.y));
    PtUnique(Jac(b.x, b.y, MONT_ONE), Aff(V(b.x), V(b.y)));
  }

  /** sm2_z256_point_copy_affine. */
  method CopyAffine(r: Point, b: AffineLimbs)
    requires Prime(P) && BoundedAffine(b)
    modifies r
    ensures Bounded(r.Val()) && Pt(r.Val()) == Aff(V(b.x), V(b.y))
  {
    hide Cong, Prime, V, Pt, Val4;
    r.X, r.Y, r.Z := b.x, b.y, MONT_ONE;
    Constants();
    JacOfAffine(b);
  }

  /** The arithmetic of sm2_z256_point_add_affine after the products of the second point. */
  method MixedTail(a: Jac, u2: Fe, s2: Fe, ghost p: Affine, ghost q: Affine) returns (j: Jac)
    requires Prime(P) && Bounded(a) && S(u2) && S(s2)
    ensures Bounded(j)
    ensures var zz := V(a.Z);
            Over(zz, p, V(a.X), V(a.Y)) && Over(zz, q, V(u2), V(s2)) && p.x != q.x && !C(zz, 0) ==> Pt(j) == EcAdd(p, q)
    ensures C(V(u2), V(a.X)) ==> Pt(j) == Inf
  {
    hide C, Prime, V, Val4, EcAdd, Pt, Rep;
    var h := PSub(u2, a.X);
    var z3 := PMul(h, a.Z);
    var r := PSub(s2, a.Y);
    var hsqr := PMul(h, h);
    var rsqr := PMul(r, r);
    var hcub := PMul(hsqr, h);
    var uh := PMul(a.X, hsqr);
    var uh2 := PDbl(uh);
    var x := PSub(rsqr, uh2);
    var x3 := PSub(x, hcub);
    var y := PSub(uh, x3);
    var sh := PMul(a.Y, hcub);
    var ry := PMul(y, r);
    var y3 := PSub(ry, sh);
    j := Jac(x3, y3, z3);
    ghost var zz := V(a.Z);
    TailSteps(V(rsqr), V(uh), V(uh2), V(x), V(hcub), V(x3), V(r), V(y), V(ry), V(sh), V(y3));
    if Over(zz, p, V(a.X), V(a.Y)) && Over(zz, q, V(u2), V(s2)) && p.x != q.x && !C(zz, 0) {
      ChordRep(zz, p, q, V(a.X), V(a.Y), V(u2), V(s2), V(h), V(r), V(z3), V(rsqr), V(hsqr), V(hcub), V(uh), V(x3), V(sh), V(y3));
      CanonicalSum(p, q);
      PtUnique(j, EcAdd(p, q));
    }
    if C(V(u2), V(a.X)) {
      Self(V(a.X));
      SubC(V(h), V(u2), V(a.X), V(a.X), V(a.X));
      Self(zz);
      MulC(V(z3), V(h), zz, 0, zz, 0);
      PtUnique(j, Inf) by { InfRep(j); }
    }
  }

  lemma InfRep(j: Jac)
    requires C(V(j.Z), 0)
    ensures JRep(j, Inf)
  {
  }

  /** sm2_z256_point_add_affine has no doubling case: two equal affine points give infinity,
      every other pair their sum. */
  method AddAffine(r: Point, a: Point, b: AffineLimbs)
    requires Prime(P) && Bounded(a.Val()) && BoundedAffine(b)
    modifies r
    ensures Bounded(r.Val())
    ensures var p, q := old(Pt(a.Val())), AffinePt(b);
            Pt(r.Val()) == if p == q && p.Aff? then Inf else EcAdd(p, q)
  {
    hide C, Prime, V, Val4, EcAdd, Pt, Rep;
    ghost var j := a.Val();
    ghost var p, q := Pt(j), AffinePt(b);
    PtRep(j);
    InfinityTest(j);
    Sums(p, q);
    Constants();
    var inf1, inf2 := a.Z == ZERO, b.x == ZERO && b.y == ZERO;
    var z1sqr := PMul(a.Z, a.Z);
    var u2 := PMul(b.x, z1sqr);
    var z1cub := PMul(z1sqr, a.Z);
    var s2 := PMul(z1cub, b.y);
    var t := MixedTail(a.Val(), u2, s2, p, q);
    if !inf1 && !inf2 {
      MixedCompared(p, q, V(j.Z), V(j.X), V(j.Y), V(z1sqr), V(z1cub), V(u2), V(s2));
      JacOfAffine(b);
    }
    t := if inf1 then Jac(b.x, b.y, MONT_ONE) else t;
    if inf1 {
      JacOfAffine(b);
    }
    t := if inf2 then a.Val() else t;
    r.X, r.Y, r.Z := t.X, t.Y, t.Z;
  }

  /** The point a negated operand stands for.  The negative of the encoding (0, 0) is (0, p), which is
      no longer recognised as infinity. */
  ghost function NegatedPt(b: AffineLimbs): Affine {
    if AffinePt(b).Inf? then Aff(0, 0) else EcNeg(AffinePt(b))
  }

  /** sm2_z256_point_sub_affine. */
  method SubAffine(r: Point, a: Point, b: AffineLimbs)
    requires Prime(P) && Bounded(a.Val()) && S(b.x) && S(b.y)
    modifies r
    ensures Bounded(r.Val())
    ensures var p, q := old(Pt(a.Val())), NegatedPt(b);
            Pt(r.Val()) == if p == q then Inf else EcAdd(p, q)
  {
    hide Cong, Prime, V, Val4, EcAdd, Pt;
    var y := PNeg(b.y);
    ModC(-V(b.y));
    Flip((-V(b.y)) % P, -V(b.y));
    Trans(V(y), -V(b.y), (-V(b.y)) % P);
    CongMod(-V(b.y), P);
    CongCanonical(V(y), (-V(b.y)) % P, P);
    assert y != ZERO by { ZeroValue(); }
    NegationOfZero(b, V(y));
    AddAffine(r, a, AffineLimbs(b.x, y));
  }

  lemma NegationOfZero(b: AffineLimbs, y: int)
    requires y == (-V(b.y)) % P
    ensures Aff(V(b.x), y) == NegatedPt(b)
  {
    hide V;
    Constants();
    assert 0 % P == 0;
  }

  lemma ZeroValue()
    ensures Val4(ZERO) == 0
  {
  }

  // ---------- leaving Montgomery and Jacobian form ----------

  /** sm2_z256_modp_from_mont. */
  method FromMont(a: Fe) returns (r: Fe)
    requires W(a)
    ensures Val4(r) == V(a)
  {
    hide Val4, Cong;
    ModuliValid();
    var x := Load(a);
    var one := Load([1, 0, 0, 0]);
    var z := new uint64[4];
    Val4Range(a);
    OneValue();
    MontMul(MOD_P, z, x, one);
    r := z[..];
    ghost var e := RInv(MOD_P);
    RInvInverts(MOD_P);
    CongScale(Val4(r) * R256, Val4(a), e, P);
    CongScale(R256 * e, 1, Val4(r), P);
    assert Val4(r) * R256 * e == Val4(r) * (R256 * e);
    CongFlip(Val4(r) * (R256 * e), Val4(r), P);
    CongTrans(Val4(r), Val4(r) * R256 * e, Val4(a) * e, P);
    DecCong(MOD_P, Val4(a));
    CongFlip(V(a), Val4(a) * e, P);
    CongTrans(Val4(r), Val4(a) * e, V(a), P);
    CongCanonical(Val4(r), V(a), P);
  }

  lemma OneValue()
    ensures Val4([1, 0, 0, 0]) == 1
  {
  }

  /** One inversion and the products with its square and cube give both coordinates. */
  lemma Normalised(pt: Affine, x: int, y: int, z: int, i: int, y1: int, i2: int, x1: int, y2: int)
    requires Prime(P) && pt.Aff? && CanonicalPoint(pt) && Rep(x, y, z, pt) && C(z * i, 1) && 0 <= x1 < P && 0 <= y2 < P
    requires C(y1, y * i) && C(i2, i * i) && C(x1, x * i2) && C(y2, y1 * i2)
    ensures pt == Aff(x1, y2)
  {
    hide C, Prime;
    SquareOfProduct(z, i);
    CubeOfProduct(z, i);
    Self((z * i) * (z * i));
    MulC((z * i) * (z * i), z * i, z * i, 1, 1, 1);
    Self((z * i) * (z * i) * (z * i));
    MulC((z * i) * (z * i) * (z * i), (z * i) * (z * i), z * i, 1, 1, 1);
    Self(i);
    Self(x);
    MulC(x1, x, i2, pt.x * (z * z), i * i, (pt.x * (z * z)) * (i * i));
    Quotient(pt.x, z * z, i * i, x1);
    MulC(y1, y, i, pt.y * (z * z * z), i, (pt.y * (z * z * z)) * i);
    MulC(y2, y1, i2, (pt.y * (z * z * z)) * i, i * i, (pt.y * (z * z * z)) * i * (i * i));
    assert (pt.y * (z * z * z)) * i * (i * i) == (pt.y * (z * z * z)) * (i * i * i);
    Quotient(pt.y, z * z * z, i * i * i, y2);
  }

  lemma Quotient(a: int, z: int, i: int, r: int)
    requires 0 <= a < P && 0 <= r < P && C(z * i, 1) && C(r, (a * z) * i)
    ensures r == a
  {
    hide Cong;
    assert (a * z) * i == a * (z * i);
    ScaleC(z * i, 1, a);
    Trans(r, a * (z * i), a * 1);
    CongCanonical(r, a, P);
  }

  lemma Collapse(x: int, y: int, y1: int, z2: int, x1: int, y2: int)
    requires C(y1, y * 0) && C(z2, 0 * 0) && C(x1, x * z2) && C(y2, y1 * z2) && 0 <= x1 < P && 0 <= y2 < P
    ensures x1 == 0 && y2 == 0
  {
    hide Cong;
    Self(x);
    MulC(x1, x, z2, x, 0, 0);
    MulC(y2, y1, z2, 0, 0, 0);
    NonzeroResidue(x1);
    NonzeroResidue(y2);
  }

  /** X and Y are of the form (k^2, k^3), as the curve's point at infinity has them. */
  ghost predicate Cuspidal(j: Jac) {
    C(V(j.X) * V(j.X) * V(j.X), V(j.Y) * V(j.Y))
  }

  /** sm2_z256_point_is_at_infinity tests both. */
  method IsAtInfinity(a: Point) returns (b: bool)
    requires Prime(P) && Bounded(a.Val())
    ensures b <==> Pt(a.Val()).Inf? && Cuspidal(a.Val())
  {
    hide C, Prime, V, Val4, Pt;
    InfinityTest(a.Val());
    if a.Z != ZERO {
      return false;
    }
    var x2 := PMul(a.X, a.X);
    var x3 := PMul(x2, a.X);
    var y2 := PMul(a.Y, a.Y);
    ghost var x, y := V(a.X), V(a.Y);
    Self(x);
    MulC(V(x3), V(x2), x, x * x, x, x * x * x);
    SameResidue(x3, y2);
    Both(V(x3), V(y2), x * x * x, y * y);
    b := x3 == y2;
  }

  lemma Both(a: int, b: int, a': int, b': int)
    requires C(a, a') && C(b, b')
    ensures C(a, b) <==> C(a', b')
  {
    hide C;
    Flip(a, a');
    Flip(b, b');
    if C(a, b) {
      Trans(a', a, b);
      Trans(a', b, b');
    }
    if C(a', b') {
      Trans(a, a', b');
      Trans(a, b', b);
    }
  }

  /** sm2_z256_point_get_xy: the affine coordinates, on both branches.  Infinity gives zeros, and is
      reported unless its X and Y are not of the right form. */
  method GetXy(a: Point) returns (ok: bool, x: Fe, y: Fe)
    requires Prime(P) && Bounded(a.Val())
    ensures ok <==> Pt(a.Val()).Aff? || !Cuspidal(a.Val())
    ensures Pt(a.Val()).Aff? ==> Pt(a.Val()) == Aff(Val4(x), Val4(y))
    ensures Pt(a.Val()).Inf? ==> Val4(x) == 0 && Val4(y) == 0
  {
    hide C, Prime, V, Val4, Pt, Rep, Cuspidal;
    ghost var j := a.Val();
    InfinityTest(j);
    PtRep(j);
    var infinite := IsAtInfinity(a);
    if infinite {
      ZeroValue();
      return false, ZERO, ZERO;
    }
    ok := true;
    if a.Z == MONT_ONE {
      Constants();
      JacOfAffine(AffineLimbs(a.X, a.Y));
      x := FromMont(a.X);
      y := FromMont(a.Y);
    } else {
      var zi := PInv(a.Z);
      var y1 := PMul(a.Y, zi);
      var z2 := PMul(zi, zi);
      var x1 := PMul(a.X, z2);
      x := FromMont(x1);
      var y2 := PMul(y1, z2);
      y := FromMont(y2);
      ZeroLimbs(j.Z);
      if Pt(j).Aff? {
        Normalised(Pt(j), V(j.X), V(j.Y), V(j.Z), V(zi), V(y1), V(z2), V(x1), V(y2));
      } else {
        Collapse(V(j.X), V(j.Y), V(y1), V(z2), V(x1), V(y2));
      }
    }
  }
}
