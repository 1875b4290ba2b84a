/** The SM2 curve y^2 = x^3 - 3x + b over GF(p): the affine chord-and-tangent law, and the
    polynomial identities behind the Jacobian formulas of src/sm2_z256.c. */
module Curve {
  import opened Modular
  import opened NumberTheory
  import opened Field

  datatype Affine = Inf | Aff(x: int, y: int)

  /** The x-coordinate as the get_xy routines report it: zero for infinity. */
  function X(pt: Affine): int {
    if pt.Inf? then 0 else pt.x
  }

  ghost predicate C(a: int, b: int) {
    Cong(a, b, P)
  }

  ghost function Cubic(cb: int, x: int): int {
    x * x * x - 3 * x + cb
  }

  ghost predicate OnCurve(cb: int, pt: Affine) {
    match pt
    case Inf => true
    case Aff(x, y) => 0 <= x < P && 0 <= y < P && C(y * y, Cubic(cb, x))
  }

  /** The inverse modulo p. */
  ghost function Inv(a: int): (r: int)
    ensures 0 <= r < P
  {
    Residue(Pow(a, P - 2), P)
  }

  lemma InvInverts(a: int)
    requires Prime(P) && !C(a, 0)
    ensures C(a * Inv(a), 1)
  {
    hide Pow, Prime, Cong;
    FermatInverse(a, P);
    CongScale(Inv(a), Pow(a, P - 2), a, P);
    CongTrans(a * Inv(a), a * Pow(a, P - 2), 1, P);
  }

  /** The third intersection, reflected: the sum of two points on a line of slope l. */
  ghost function Third(l: int, x1: int, y1: int, x2: int): Affine {
    var x3 := Residue(l * l - x1 - x2, P);
    Aff(x3, Residue(l * (x1 - x3) - y1, P))
  }

  ghost function Chord(x1: int, y1: int, x2: int, y2: int): int {
    Residue((y2 - y1) * Inv(x2 - x1), P)
  }

  ghost function Tangent(x: int, y: int): int {
    Residue(3 * (x * x - 1) * Inv(2 * y), P)
  }

  /** The group law. */
  ghost function EcAdd(p: Affine, q: Affine): Affine {
    if p.Inf? then q
    else if q.Inf? then p
    else if p.x != q.x then Third(Chord(p.x, p.y, q.x, q.y), p.x, p.y, q.x)
    else if p.y == q.y && p.y != 0 then Third(Tangent(p.x, p.y), p.x, p.y, p.x)
    else Inf
  }

  ghost function EcNeg(p: Affine): Affine {
    match p
    case Inf => Inf
    case Aff(x, y) => Aff(x, (-y) % P)
  }

  // ---------- congruence bookkeeping ----------

  /** r = a*b on residues, with a and b congruent to a' and b': r is congruent to a'*b'. */
  lemma MulC(r: int, a: int, b: int, a': int, b': int, t: int)
    requires C(r, a * b) && C(a, a') && C(b, b') && a' * b' == t
    ensures C(r, t)
  {
    hide Cong;
    CongMul(a, a', b, b', P);
    CongTrans(r, a * b, t, P);
  }

  lemma SubC(r: int, a: int, b: int, a': int, b': int)
    requires C(r, a - b) && C(a, a') && C(b, b')
    ensures C(r, a' - b')
  {
    hide Cong;
    CongSub(a, a', b, b', P);
    CongTrans(r, a - b, a' - b', P);
  }

  lemma AddC(r: int, a: int, b: int, a': int, b': int)
    requires C(r, a + b) && C(a, a') && C(b, b')
    ensures C(r, a' + b')
  {
    hide Cong;
    CongAdd(a, a', b, b', P);
    CongTrans(r, a + b, a' + b', P);
  }

  lemma Self(a: int)
    ensures C(a, a)
  {
    hide Cong;
    CongSelf(a, P);
  }

  lemma Flip(a: int, b: int)
    requires C(a, b)
    ensures C(b, a)
  {
    hide Cong;
    CongFlip(a, b, P);
  }

  lemma Trans(a: int, b: int, c: int)
    requires C(a, b) && C(b, c)
    ensures C(a, c)
  {
    hide Cong;
    CongTrans(a, b, c, P);
  }

  lemma ScaleC(a: int, b: int, k: int)
    requires C(a, b)
    ensures C(k * a, k * b) && C(a * k, b * k)
  {
    hide Cong;
    CongScale(a, b, k, P);
  }

  // ---------- Jacobian representatives ----------

  /** (X : Y : Z) stands for the affine point (X/Z^2, Y/Z^3), or for infinity when Z = 0. */
  ghost predicate Rep(x: int, y: int, z: int, pt: Affine) {
    match pt
    case Inf => C(z, 0)
    case Aff(ax, ay) => !C(z, 0) && C(x, ax * (z * z)) && C(y, ay * (z * z * z))
  }

  /** The common tail of both addition formulas.  Both points are given over the same
      denominator zz; l is the slope of the chord. */
  lemma ChordFormula(zz: int, x1: int, y1: int, x2: int, y2: int, l: int,
                     u1: int, s1: int, h: int, r: int, z3: int, rsqr: int, hsqr: int, hcub: int, uh: int,
                     x3: int, sh: int, y3: int)
    requires C(l * (x2 - x1), y2 - y1)
    requires C(u1, x1 * (zz * zz)) && C(s1, y1 * (zz * zz * zz))
    requires C(h, (x2 - x1) * (zz * zz)) && C(r, (y2 - y1) * (zz * zz * zz))
    requires C(z3, h * zz) && C(rsqr, r * r) && C(hsqr, h * h) && C(hcub, hsqr * h) && C(uh, u1 * hsqr)
    requires C(x3, rsqr - 2 * uh - hcub) && C(sh, s1 * hcub) && C(y3, r * (uh - x3) - sh)
    ensures var d := (x2 - x1) * (zz * zz * zz); var ax := l * l - x1 - x2;
            C(z3, d) && C(x3, ax * (d * d)) && C(y3, (l * (x1 - ax) - y1) * (d * d * d))
  {
    hide C;
    var w, v := x2 - x1, zz * zz;
    var hh, d := w * v, w * (zz * zz * zz);
    var d2 := d * d;
    Powers(w, zz, x1, y1);
    Self(zz);
    MulC(z3, h, zz, hh, zz, d);
    assert C(r, l * d) by {
      ScaleC(l * w, y2 - y1, zz * zz * zz);
      Flip((l * w) * (zz * zz * zz), (y2 - y1) * (zz * zz * zz));
      Trans(r, (y2 - y1) * (zz * zz * zz), (l * w) * (zz * zz * zz));
      assert (l * w) * (zz * zz * zz) == l * d;
    }
    assert (l * d) * (l * d) == (l * l) * d2 by { SquareOfProduct(l, d); }
    MulC(rsqr, r, r, l * d, l * d, (l * l) * d2);
    MulC(hsqr, h, h, hh, hh, hh * hh);
    MulC(hcub, hsqr, h, hh * hh, hh, w * d2);
    MulC(uh, u1, hsqr, x1 * v, hh * hh, x1 * d2);
    MulC(sh, s1, hcub, y1 * (zz * zz * zz), w * d2, y1 * (d2 * d));
    Combine(l, x1, y1, x2, d, d2, r, rsqr, uh, hcub, x3, sh, y3);
    assert d2 * d == d * d * d;
  }

  lemma SquareOfProduct(l: int, d: int)
    ensures (l * d) * (l * d) == (l * l) * (d * d)
  {
    assert (l * d) * (l * d) == l * (d * (l * d));
    assert d * (l * d) == l * (d * d);
    assert l * (l * (d * d)) == (l * l) * (d * d);
  }

  /** With h = w*zz^2 and d = w*zz^3: the monomials of the formula in terms of d. */
  lemma Powers(w: int, zz: int, x1: int, y1: int)
    ensures var v := zz * zz; var h := w * v; var d := w * (zz * zz * zz); var d2 := d * d;
            h * zz == d && h * h * h == w * d2 && (x1 * v) * (h * h) == x1 * d2
            && (y1 * (zz * zz * zz)) * (w * d2) == y1 * (d2 * d)
  {
    var v := zz * zz;
    var h, d := w * v, w * (v * zz);
    assert h * zz == d;
    assert d * d == (h * h) * v by {
      SquareOfProduct(h, zz);
      assert (h * zz) * (h * zz) == d * d;
    }
    assert h * h * h == w * (d * d) by {
      assert (h * h) * (w * v) == w * ((h * h) * v);
    }
    assert (x1 * v) * (h * h) == x1 * ((h * h) * v);
    assert (y1 * (v * zz)) * (w * (d * d)) == y1 * ((d * d) * d) by {
      assert (y1 * (v * zz)) * (w * (d * d)) == y1 * ((v * zz) * (w * (d * d)));
      assert (v * zz) * (w * (d * d)) == (w * (v * zz)) * (d * d);
    }
  }

  lemma Combine(l: int, x1: int, y1: int, x2: int, d: int, d2: int, r: int, rsqr: int, uh: int, hcub: int, x3: int, sh: int, y3: int)
    requires C(r, l * d) && C(rsqr, (l * l) * d2) && C(uh, x1 * d2) && C(hcub, (x2 - x1) * d2)
    requires C(x3, rsqr - 2 * uh - hcub) && C(sh, y1 * (d2 * d)) && C(y3, r * (uh - x3) - sh)
    ensures var ax := l * l - x1 - x2;
            C(x3, ax * d2) && C(y3, (l * (x1 - ax) - y1) * (d2 * d))
  {
    hide C;
    var ax := l * l - x1 - x2;
    ScaleC(uh, x1 * d2, 2);
    Self(rsqr - 2 * uh);
    SubC(rsqr - 2 * uh, rsqr, 2 * uh, (l * l) * d2, 2 * (x1 * d2));
    SubC(x3, rsqr - 2 * uh, hcub, (l * l) * d2 - 2 * (x1 * d2), (x2 - x1) * d2);
    assert (l * l) * d2 - 2 * (x1 * d2) - (x2 - x1) * d2 == ax * d2 by { Collect(l * l, x1, x2, d2); }
    Self(uh - x3);
    SubC(uh - x3, uh, x3, x1 * d2, ax * d2);
    assert x1 * d2 - ax * d2 == (x1 - ax) * d2;
    Self(r * (uh - x3));
    assert (l * d) * ((x1 - ax) * d2) == (l * (x1 - ax)) * (d2 * d) by {
      assert (l * d) * ((x1 - ax) * d2) == l * (d * ((x1 - ax) * d2));
      assert d * ((x1 - ax) * d2) == (x1 - ax) * (d2 * d);
      assert l * ((x1 - ax) * (d2 * d)) == (l * (x1 - ax)) * (d2 * d);
    }
    MulC(r * (uh - x3), r, uh - x3, l * d, (x1 - ax) * d2, (l * (x1 - ax)) * (d2 * d));
    SubC(y3, r * (uh - x3), sh, (l * (x1 - ax)) * (d2 * d), y1 * (d2 * d));
    assert (l * (x1 - ax)) * (d2 * d) - y1 * (d2 * d) == (l * (x1 - ax) - y1) * (d2 * d);
  }

  lemma Collect(ll: int, x1: int, x2: int, d2: int)
    ensures ll * d2 - 2 * (x1 * d2) - (x2 - x1) * d2 == (ll - x1 - x2) * d2
  {
    assert (x2 - x1) * d2 == x2 * d2 - x1 * d2;
    assert (ll - x1 - x2) * d2 == ll * d2 - x1 * d2 - x2 * d2;
  }

  // ---------- doubling ----------

  lemma HalveC(a: int, b: int)
    requires C(2 * a, 2 * b)
    ensures C(a, b)
  {
    var k := CongMultiple(2 * a, 2 * b, P);
    assert k % 2 == 0;
    CongFromMultiple(a, b, k / 2, P);
  }

  /** The 18 steps of sm2_z256_point_dbl; l is the slope of the tangent. */
  lemma TangentFormula(z: int, ax: int, ay: int, l: int, x: int, y: int,
                       s0: int, zsqr: int, s1: int, zy: int, z3: int, m0: int, zs: int, y0: int, yh: int,
                       m1: int, m: int, s2: int, t: int, xs: int, x3: int, s3: int, s4: int, y3: int)
    requires C(l * (2 * ay), 3 * (ax * ax - 1)) && C(x, ax * (z * z)) && C(y, ay * (z * z * z))
    requires C(s0, 2 * y) && C(zsqr, z * z) && C(s1, s0 * s0) && C(zy, z * y) && C(z3, 2 * zy)
    requires C(m0, x + zsqr) && C(zs, x - zsqr) && C(y0, s1 * s1) && C(2 * yh, y0)
    requires C(m1, m0 * zs) && C(m, 3 * m1) && C(s2, s1 * x) && C(t, 2 * s2) && C(xs, m * m)
    requires C(x3, xs - t) && C(s3, s2 - x3) && C(s4, s3 * m) && C(y3, s4 - yh)
    ensures var d := 2 * ay * (z * z * (z * z)); var bx := l * l - ax - ax;
            C(z3, d) && C(x3, bx * (d * d)) && C(y3, (l * (ax - bx) - ay) * (d * d * d))
  {
    hide C;
    var v := z * z;
    var w, cube := v * v, z * z * z;
    var d := 2 * ay * w;
    TangentMonomials(z, ax, ay);
    Self(z);
    Self(2);
    MulC(zy, z, y, z, ay * cube, ay * w);
    MulC(z3, 2, zy, 2, ay * w, d);
    assert C(m, l * d) by { TangentSlope(z, ax, ay, l, x, zsqr, m0, zs, m1, m); }
    MulC(s0, 2, y, 2, ay * cube, 2 * (ay * cube));
    var q := 2 * (ay * cube);
    MulC(s1, s0, s0, q, q, q * q);
    MulC(s2, s1, x, q * q, ax * v, ax * (d * d));
    MulC(y0, s1, s1, q * q, q * q, 2 * (ay * (d * d * d)));
    Trans(2 * yh, y0, 2 * (ay * (d * d * d)));
    HalveC(yh, ay * (d * d * d));
    TangentCombine(l, ax, ay, d, d * d, m, s2, t, xs, x3, s3, s4, yh, y3);
  }

  lemma TangentMonomials(z: int, ax: int, ay: int)
    ensures var v := z * z; var w := v * v; var cube := z * z * z; var d := 2 * ay * w; var q := 2 * (ay * cube);
            z * (ay * cube) == ay * w && 2 * (ay * w) == d
            && (q * q) * (ax * v) == ax * (d * d) && (q * q) * (q * q) == 2 * (ay * (d * d * d))
  {
    var v := z * z;
    var w, cube := v * v, v * z;
    var d, q := 2 * ay * w, 2 * (ay * cube);
    var a2 := 2 * ay;
    assert z * cube == w;
    assert z * (ay * cube) == ay * w;
    assert q == a2 * cube && d == a2 * w;
    assert cube * cube == w * v by { SquareOfProduct(v, z); }
    SquareOfProduct(a2, cube);
    SquareOfProduct(a2, w);
    TangentSquares(a2 * a2, w, v, ax, q * q, d * d);
    TangentFourth(a2, w, v, d, q * q);
    assert a2 * (d * d * d) == 2 * (ay * (d * d * d));
  }

  lemma TangentSquares(s: int, w: int, v: int, ax: int, qq: int, dd: int)
    requires w == v * v && qq == s * (w * v) && dd == s * (w * w)
    ensures qq * (ax * v) == ax * dd
  {
    assert (w * v) * v == w * w;
    assert qq * (ax * v) == ax * (s * ((w * v) * v));
  }

  lemma TangentFourth(a2: int, w: int, v: int, d: int, qq: int)
    requires w == v * v && d == a2 * w && qq == (a2 * a2) * (w * v)
    ensures qq * qq == a2 * (d * d * d)
  {
    var s := a2 * a2;
    SquareOfProduct(s, w * v);
    SquareOfProduct(w, v);
    SwapMiddle(s, w * w, w);
    SquareOfProduct(a2, w);
    assert s * w == a2 * d;
    assert (d * d) * (a2 * d) == a2 * (d * d * d);
  }

  lemma SwapMiddle(s: int, x: int, y: int)
    ensures (s * s) * (x * y) == (s * x) * (s * y)
  {
    assert (s * x) * (s * y) == s * (x * (s * y));
    assert x * (s * y) == s * (x * y);
    assert s * (s * (x * y)) == (s * s) * (x * y);
  }

  lemma TangentSlope(z: int, ax: int, ay: int, l: int, x: int, zsqr: int, m0: int, zs: int, m1: int, m: int)
    requires C(l * (2 * ay), 3 * (ax * ax - 1)) && C(x, ax * (z * z)) && C(zsqr, z * z)
    requires C(m0, x + zsqr) && C(zs, x - zsqr) && C(m1, m0 * zs) && C(m, 3 * m1)
    ensures C(m, l * (2 * ay * (z * z * (z * z))))
  {
    hide C;
    var v := z * z;
    var w := v * v;
    AddC(m0, x, zsqr, ax * v, v);
    SubC(zs, x, zsqr, ax * v, v);
    assert (ax * v + v) * (ax * v - v) == (ax * ax - 1) * w by { Conjugate(ax, v); }
    MulC(m1, m0, zs, ax * v + v, ax * v - v, (ax * ax - 1) * w);
    Self(3);
    MulC(m, 3, m1, 3, (ax * ax - 1) * w, 3 * (ax * ax - 1) * w);
    ScaleC(l * (2 * ay), 3 * (ax * ax - 1), w);
    Flip(l * (2 * ay) * w, 3 * (ax * ax - 1) * w);
    Trans(m, 3 * (ax * ax - 1) * w, l * (2 * ay) * w);
    assert l * (2 * ay) * w == l * (2 * ay * w);
  }

  lemma Conjugate(a: int, v: int)
    ensures (a * v + v) * (a * v - v) == (a * a - 1) * (v * v)
  {
    var u := a * v;
    assert (u + v) * (u - v) == u * u - v * v;
    SquareOfProduct(a, v);
    assert (a * a - 1) * (v * v) == (a * a) * (v * v) - v * v;
  }

  lemma TangentCombine(l: int, ax: int, ay: int, d: int, d2: int, m: int, s2: int, t: int, xs: int, x3: int,
                       s3: int, s4: int, yh: int, y3: int)
    requires d2 == d * d && C(m, l * d) && C(s2, ax * d2) && C(yh, ay * (d2 * d))
    requires C(t, 2 * s2) && C(xs, m * m) && C(x3, xs - t) && C(s3, s2 - x3) && C(s4, s3 * m) && C(y3, s4 - yh)
    ensures var bx := l * l - ax - ax;
            C(x3, bx * d2) && C(y3, (l * (ax - bx) - ay) * (d2 * d))
  {
    hide C;
    var bx := l * l - ax - ax;
    Self(2);
    MulC(t, 2, s2, 2, ax * d2, 2 * (ax * d2));
    SquareOfProduct(l, d);
    MulC(xs, m, m, l * d, l * d, (l * l) * d2);
    SubC(x3, xs, t, (l * l) * d2, 2 * (ax * d2));
    assert (l * l) * d2 - 2 * (ax * d2) == bx * d2 by { Collect(l * l, ax, ax, d2); }
    SubC(s3, s2, x3, ax * d2, bx * d2);
    assert ax * d2 - bx * d2 == (ax - bx) * d2;
    assert ((ax - bx) * d2) * (l * d) == (l * (ax - bx)) * (d2 * d) by {
      assert ((ax - bx) * d2) * (l * d) == (ax - bx) * (d2 * (l * d));
      assert d2 * (l * d) == l * (d2 * d);
      assert (ax - bx) * (l * (d2 * d)) == (l * (ax - bx)) * (d2 * d);
    }
    MulC(s4, s3, m, (ax - bx) * d2, l * d, (l * (ax - bx)) * (d2 * d));
    SubC(y3, s4, yh, (l * (ax - bx)) * (d2 * d), ay * (d2 * d));
    assert (l * (ax - bx)) * (d2 * d) - ay * (d2 * d) == (l * (ax - bx) - ay) * (d2 * d);
  }

  // ---------- the formulas compute the group law ----------

  lemma ThirdRep(l: int, x1: int, y1: int, x2: int, d: int, x3: int, y3: int, z3: int)
    requires !C(d, 0) && C(z3, d)
    requires var ax := l * l - x1 - x2; C(x3, ax * (d * d)) && C(y3, (l * (x1 - ax) - y1) * (d * d * d))
    ensures Rep(x3, y3, z3, Third(l, x1, y1, x2))
  {
    hide C;
    var ax := l * l - x1 - x2;
    var bx := Residue(ax, P);
    var ay := l * (x1 - ax) - y1;
    var bw := Residue(l * (x1 - bx) - y1, P);
    assert C(bx, ax) by { ResC(ax); }
    assert C(bw, ay) by {
      ResC(l * (x1 - bx) - y1);
      Self(x1);
      Self(x1 - bx);
      SubC(x1 - bx, x1, bx, x1, ax);
      ScaleC(x1 - bx, x1 - ax, l);
      Self(y1);
      Self(l * (x1 - bx) - y1);
      SubC(l * (x1 - bx) - y1, l * (x1 - bx), y1, l * (x1 - ax), y1);
      Trans(bw, l * (x1 - bx) - y1, ay);
    }
    Flip(z3, d);
    Self(d * d);
    MulC(d * d, d, d, z3, z3, z3 * z3);
    Self(d * d * d);
    MulC(d * d * d, d * d, d, z3 * z3, z3, z3 * z3 * z3);
    Replace(x3, ax, bx, d * d, z3 * z3);
    Replace(y3, ay, bw, d * d * d, z3 * z3 * z3);
    if C(z3, 0) {
      Trans(d, z3, 0);
    }
  }

  lemma ModC(a: int)
    ensures C(a % P, a)
  {
    CongMod(a, P);
  }

  lemma ResC(a: int)
    ensures C(Residue(a, P), a) && 0 <= Residue(a, P) < P
  {
  }

  lemma Replace(r: int, a: int, a': int, b: int, b': int)
    requires C(r, a * b) && C(a', a) && C(b, b')
    ensures C(r, a' * b')
  {
    hide C;
    Flip(a', a);
    MulC(r, a, b, a', b', a' * b');
  }

  lemma NonzeroProduct(a: int, b: int)
    requires Prime(P) && !C(a, 0) && !C(b, 0)
    ensures !C(a * b, 0)
  {
    hide Prime, Cong;
    if C(a * b, 0) {
      EuclidLemma(a, b, P);
    }
  }

  lemma DistinctDiffer(a: int, b: int)
    requires 0 <= a < P && 0 <= b < P && a != b
    ensures !C(b - a, 0)
  {
    hide Cong;
    if C(b - a, 0) {
      CongSelf(a, P);
      CongAdd(b - a, 0, a, a, P);
      CongFlip(b, a, P);
      CongCanonical(a, b, P);
    }
  }

  lemma ChordSlope(x1: int, y1: int, x2: int, y2: int)
    requires Prime(P) && !C(x2 - x1, 0)
    ensures C(Chord(x1, y1, x2, y2) * (x2 - x1), y2 - y1)
  {
    hide C, Inv, Prime;
    SlopeSolves(y2 - y1, x2 - x1);
  }

  lemma SlopeSolves(num: int, den: int)
    requires Prime(P) && !C(den, 0)
    ensures C(Residue(num * Inv(den), P) * den, num)
  {
    hide C, Inv, Prime;
    InvInverts(den);
    ResC(num * Inv(den));
    ScaleC(Residue(num * Inv(den), P), num * Inv(den), den);
    assert num * Inv(den) * den == num * (den * Inv(den));
    ScaleC(den * Inv(den), 1, num);
    Trans(Residue(num * Inv(den), P) * den, num * (den * Inv(den)), num * 1);
  }

  lemma TangentSolves(x: int, y: int)
    requires Prime(P) && 0 < y < P
    ensures !C(2 * y, 0) && C(Tangent(x, y) * (2 * y), 3 * (x * x - 1))
  {
    hide Inv, Prime, Tangent, Cong;
    if C(2 * y, 2 * 0) {
      HalveC(y, 0);
      CongCanonical(y, 0, P);
    }
    TangentIs(x, y);
    SlopeSolves(3 * (x * x - 1), 2 * y);
  }

  lemma TangentIs(x: int, y: int)
    ensures Tangent(x, y) == Residue(3 * (x * x - 1) * Inv(2 * y), P)
  {
  }

  predicate CanonicalPoint(pt: Affine) {
    pt.Inf? || (0 <= pt.x < P && 0 <= pt.y < P)
  }

  /** sm2_z256_point_dbl represents the double of every point, including infinity and points with y = 0. */
  lemma DoubleRep(pt: Affine, x: int, y: int, z: int,
                  s0: int, zsqr: int, s1: int, zy: int, z3: int, m0: int, zs: int, y0: int, yh: int,
                  m1: int, m: int, s2: int, t: int, xs: int, x3: int, s3: int, s4: int, y3: int)
    requires Prime(P) && CanonicalPoint(pt) && Rep(x, y, z, pt)
    requires C(s0, 2 * y) && C(zsqr, z * z) && C(s1, s0 * s0) && C(zy, z * y) && C(z3, 2 * zy)
    requires C(m0, x + zsqr) && C(zs, x - zsqr) && C(y0, s1 * s1) && C(2 * yh, y0)
    requires C(m1, m0 * zs) && C(m, 3 * m1) && C(s2, s1 * x) && C(t, 2 * s2) && C(xs, m * m)
    requires C(x3, xs - t) && C(s3, s2 - x3) && C(s4, s3 * m) && C(y3, s4 - yh)
    ensures Rep(x3, y3, z3, EcAdd(pt, pt))
  {
    hide C, Prime, Third, Tangent;
    if pt.Inf? {
      Self(y);
      MulC(zy, z, y, 0, y, 0);
      Self(2);
      MulC(z3, 2, zy, 2, 0, 0);
    } else if pt.y == 0 {
      Self(z);
      MulC(zy, z, y, z, 0 * (z * z * z), 0);
      Self(2);
      MulC(z3, 2, zy, 2, 0, 0);
    } else {
      var l := Tangent(pt.x, pt.y);
      TangentSolves(pt.x, pt.y);
      TangentFormula(z, pt.x, pt.y, l, x, y, s0, zsqr, s1, zy, z3, m0, zs, y0, yh, m1, m, s2, t, xs, x3, s3, s4, y3);
      NonzeroProduct(z, z);
      NonzeroProduct(z * z, z * z);
      NonzeroProduct(2 * pt.y, z * z * (z * z));
      ThirdRep(l, pt.x, pt.y, pt.x, 2 * pt.y * (z * z * (z * z)), x3, y3, z3);
    }
  }

  /** Cross-multiplying two representatives: both over the denominator z1*z2. */
  lemma CrossMultiplied(a: int, b: int, z1: int, z2: int, x: int, y: int, zsqr: int, zcub: int, u: int, s: int)
    requires C(x, a * (z1 * z1)) && C(y, b * (z1 * z1 * z1))
    requires C(zsqr, z2 * z2) && C(zcub, zsqr * z2) && C(s, zcub * y) && C(u, x * zsqr)
    ensures var zz := z1 * z2; C(u, a * (zz * zz)) && C(s, b * (zz * zz * zz))
  {
    hide C;
    var zz := z1 * z2;
    SquareOfProduct(z1, z2);
    assert (a * (z1 * z1)) * (z2 * z2) == a * (zz * zz);
    MulC(u, x, zsqr, a * (z1 * z1), z2 * z2, a * (zz * zz));
    Self(z2);
    MulC(zcub, zsqr, z2, z2 * z2, z2, z2 * z2 * z2);
    assert (z2 * z2 * z2) * (b * (z1 * z1 * z1)) == b * (zz * zz * zz) by {
      assert (z1 * z1 * z1) * (z2 * z2 * z2) == zz * zz * zz by { CubeOfProduct(z1, z2); }
      assert (z2 * z2 * z2) * (b * (z1 * z1 * z1)) == b * ((z1 * z1 * z1) * (z2 * z2 * z2));
    }
    MulC(s, zcub, y, z2 * z2 * z2, b * (z1 * z1 * z1), b * (zz * zz * zz));
  }

  lemma CubeOfProduct(a: int, b: int)
    ensures (a * a * a) * (b * b * b) == (a * b) * (a * b) * (a * b)
  {
    SquareOfProduct(a, b);
    var s, t := a * a, b * b;
    assert (s * a) * (t * b) == s * (a * (t * b));
    assert a * (t * b) == t * (a * b);
    assert s * (t * (a * b)) == (s * t) * (a * b);
  }

  /** Equality of cross-multiplied coordinates is equality of the affine ones. */
  lemma SameCoordinate(a: int, b: int, k: int, u: int, v: int)
    requires Prime(P) && !C(k, 0) && 0 <= a < P && 0 <= b < P && C(u, a * k) && C(v, b * k)
    ensures C(u, v) <==> a == b
  {
    hide Prime, Cong;
    if C(u, v) {
      Flip(u, a * k);
      Trans(a * k, u, v);
      Trans(a * k, v, b * k);
      assert k * a == a * k && k * b == b * k;
      CancelFactor(k, a, b, P);
      CongCanonical(a, b, P);
    } else if a == b {
      Flip(v, b * k);
      Trans(u, a * k, v);
    }
  }

  lemma UnitDenominator(zz: int)
    requires Prime(P) && !C(zz, 0)
    ensures !C(zz * zz, 0) && !C(zz * zz * zz, 0)
  {
    hide C, Prime;
    NonzeroProduct(zz, zz);
    NonzeroProduct(zz * zz, zz);
  }

  /** The addition formula on two points over a common denominator with different x. */
  lemma ChordRep(zz: int, p: Affine, q: Affine,
                 u1: int, s1: int, u2: int, s2: int, h: int, r: int, z3: int, rsqr: int, hsqr: int, hcub: int, uh: int,
                 x3: int, sh: int, y3: int)
    requires Prime(P) && p.Aff? && q.Aff? && CanonicalPoint(p) && CanonicalPoint(q) && p.x != q.x && !C(zz, 0)
    requires C(u1, p.x * (zz * zz)) && C(s1, p.y * (zz * zz * zz)) && C(u2, q.x * (zz * zz)) && C(s2, q.y * (zz * zz * zz))
    requires C(h, u2 - u1) && C(r, s2 - s1) && C(z3, h * zz) && C(rsqr, r * r) && C(hsqr, h * h) && C(hcub, hsqr * h)
    requires C(uh, u1 * hsqr) && C(x3, rsqr - 2 * uh - hcub) && C(sh, s1 * hcub) && C(y3, r * (uh - x3) - sh)
    ensures Rep(x3, y3, z3, EcAdd(p, q))
  {
    hide C, Prime, Third, Chord;
    var v, c := zz * zz, zz * zz * zz;
    SubC(h, u2, u1, q.x * v, p.x * v);
    assert q.x * v - p.x * v == (q.x - p.x) * v;
    SubC(r, s2, s1, q.y * c, p.y * c);
    assert q.y * c - p.y * c == (q.y - p.y) * c;
    DistinctDiffer(p.x, q.x);
    ChordSlope(p.x, p.y, q.x, q.y);
    var l := Chord(p.x, p.y, q.x, q.y);
    ChordFormula(zz, p.x, p.y, q.x, q.y, l, u1, s1, h, r, z3, rsqr, hsqr, hcub, uh, x3, sh, y3);
    UnitDenominator(zz);
    NonzeroProduct(q.x - p.x, c);
    ThirdRep(l, p.x, p.y, q.x, (q.x - p.x) * c, x3, y3, z3);
  }

  // ---------- the group law stays on the curve ----------

  /** A line a*x + b that vanishes at two different residues vanishes everywhere. */
  lemma LineVanishes(a: int, b: int, x1: int, x2: int, x: int)
    requires Prime(P) && !C(x2 - x1, 0) && C(a * x1 + b, 0) && C(a * x2 + b, 0)
    ensures C(a * x + b, 0)
  {
    hide Prime, Cong;
    CongSub(a * x2 + b, 0, a * x1 + b, 0, P);
    assert (a * x2 + b) - (a * x1 + b) == (x2 - x1) * a;
    assert (x2 - x1) * 0 == 0;
    CancelFactor(x2 - x1, a, 0, P);
    ConstantLine(a, b, x1, x);
  }

  lemma ConstantLine(a: int, b: int, x1: int, x: int)
    requires C(a, 0) && C(a * x1 + b, 0)
    ensures C(a * x + b, 0)
  {
    hide Cong;
    CongScale(a, 0, x1, P);
    CongScale(a, 0, x, P);
    assert 0 * x1 == 0 && 0 * x == 0;
    CongSub(a * x1 + b, 0, a * x1, 0, P);
    CongAdd(a * x, 0, b, 0, P);
  }

  /** Substituting the line of slope l through (x1, y1) into the curve equation and dividing out
      (x - x1)(x - x2)(x - x3), with x3 = l^2 - x1 - x2, leaves a linear remainder. */
  lemma Remainder(cb: int, l: int, x1: int, y1: int, x2: int, x: int)
    ensures var x3 := l * l - x1 - x2; var y := l * (x - x1) + y1;
            var a := -3 + 2 * (l * (l * x1 - y1)) - (x1 * x2 + x3 * (x1 + x2));
            var b := cb - (y1 - l * x1) * (y1 - l * x1) + x1 * x2 * x3;
            Cubic(cb, x) - y * y == (x - x1) * (x - x2) * (x - x3) + (a * x + b)
  {
    var x3 := l * l - x1 - x2;
    var k := y1 - l * x1;
    var y := l * (x - x1) + y1;
    assert y == l * x + k;
    assert y * y == (l * l) * (x * x) + 2 * ((l * k) * x) + k * k by { SquareOfSum(l, x, k); }
    assert (x - x1) * (x - x2) * (x - x3)
        == x * x * x - (x1 + x2 + x3) * (x * x) + (x1 * x2 + x3 * (x1 + x2)) * x - x1 * x2 * x3 by { Vieta(x, x1, x2, x3); }
    var e2 := x1 * x2 + x3 * (x1 + x2);
    var a := -3 + 2 * (l * (l * x1 - y1)) - e2;
    assert l * (l * x1 - y1) == -(l * k);
    assert a == -3 - 2 * (l * k) - e2;
    assert a * x == -3 * x - 2 * ((l * k) * x) - e2 * x by {
      var m := l * k;
      assert (-3 - 2 * m - e2) * x == -3 * x - (2 * m) * x - e2 * x;
      assert (2 * m) * x == 2 * (m * x);
    }
    assert x1 + x2 + x3 == l * l;
  }

  lemma SquareOfSum(l: int, x: int, k: int)
    ensures (l * x + k) * (l * x + k) == (l * l) * (x * x) + 2 * ((l * k) * x) + k * k
  {
    var u := l * x;
    assert (u + k) * (u + k) == u * u + 2 * (u * k) + k * k;
    SquareOfProduct(l, x);
    assert u * k == (l * k) * x;
  }

  lemma Vieta(x: int, a: int, b: int, c: int)
    ensures (x - a) * (x - b) * (x - c)
            == x * x * x - (a + b + c) * (x * x) + (a * b + c * (a + b)) * x - a * b * c
  {
    var q := x * x - (a + b) * x + a * b;
    assert (x - a) * (x - b) == q by {
      assert (x - a) * (x - b) == x * x - x * b - a * x + a * b;
      assert (a + b) * x == a * x + x * b;
    }
    assert q * (x - c) == q * x - q * c;
    assert q * x == x * x * x - (a + b) * (x * x) + a * b * x by {
      assert (x * x - (a + b) * x + a * b) * x == x * x * x - (a + b) * x * x + a * b * x;
      assert (a + b) * x * x == (a + b) * (x * x);
    }
    assert q * c == c * (x * x) - (c * (a + b)) * x + a * b * c by {
      assert (x * x - (a + b) * x + a * b) * c == x * x * c - (a + b) * x * c + a * b * c;
      assert (a + b) * x * c == (c * (a + b)) * x;
    }
    assert (a + b + c) * (x * x) == (a + b) * (x * x) + c * (x * x);
    assert (a * b + c * (a + b)) * x == a * b * x + (c * (a + b)) * x;
  }

  lemma CubicCong(cb: int, x: int, x': int)
    requires C(x, x')
    ensures C(Cubic(cb, x), Cubic(cb, x'))
  {
    hide C;
    Self(x * x);
    MulC(x * x, x, x, x', x', x' * x');
    Self(x * x * x);
    MulC(x * x * x, x * x, x, x' * x', x', x' * x' * x');
    ScaleC(x, x', 3);
    Self(x * x * x - 3 * x);
    SubC(x * x * x - 3 * x, x * x * x, 3 * x, x' * x' * x', 3 * x');
    Self(cb);
    Self(Cubic(cb, x));
    AddC(Cubic(cb, x), x * x * x - 3 * x, cb, x' * x' * x' - 3 * x', cb);
  }

  /** If the line meets the curve at x3 = l^2 - x1 - x2, the reflected point is on the curve. */
  lemma ThirdOnCurve(cb: int, l: int, x1: int, y1: int, x2: int)
    requires var x3 := l * l - x1 - x2; var y := l * (x3 - x1) + y1; C(Cubic(cb, x3), y * y)
    ensures OnCurve(cb, Third(l, x1, y1, x2))
  {
    hide C, Cubic;
    var x3 := l * l - x1 - x2;
    var bx := Residue(x3, P);
    var w := l * (x1 - bx) - y1;
    var y := l * (x3 - x1) + y1;
    ResC(x3);
    CubicCong(cb, bx, x3);
    Trans(Cubic(cb, bx), Cubic(cb, x3), y * y);
    assert C(w, -y) by {
      Self(x1);
      Self(x1 - bx);
      SubC(x1 - bx, x1, bx, x1, x3);
      ScaleC(x1 - bx, x1 - x3, l);
      Self(y1);
      Self(w);
      SubC(w, l * (x1 - bx), y1, l * (x1 - x3), y1);
      assert l * (x1 - x3) - y1 == -y by { assert l * (x1 - x3) == -(l * (x3 - x1)); }
    }
    ResC(w);
    Trans(Residue(w, P), w, -y);
    Self((Residue(w, P)) * (Residue(w, P)));
    assert (-y) * (-y) == y * y;
    MulC((Residue(w, P)) * (Residue(w, P)), Residue(w, P), Residue(w, P), -y, -y, y * y);
    Flip(Cubic(cb, bx), y * y);
    Trans((Residue(w, P)) * (Residue(w, P)), y * y, Cubic(cb, bx));
  }

  lemma ChordOnCurve(cb: int, l: int, x1: int, y1: int, x2: int, y2: int)
    requires Prime(P) && !C(x2 - x1, 0) && C(l * (x2 - x1), y2 - y1)
    requires C(y1 * y1, Cubic(cb, x1)) && C(y2 * y2, Cubic(cb, x2))
    ensures OnCurve(cb, Third(l, x1, y1, x2))
  {
    hide C, Cubic, Prime;
    var x3 := l * l - x1 - x2;
    var a := -3 + 2 * (l * (l * x1 - y1)) - (x1 * x2 + x3 * (x1 + x2));
    var b := cb - (y1 - l * x1) * (y1 - l * x1) + x1 * x2 * x3;
    Remainder(cb, l, x1, y1, x2, x1);
    Remainder(cb, l, x1, y1, x2, x2);
    Remainder(cb, l, x1, y1, x2, x3);
    assert l * (x1 - x1) + y1 == y1;
    assert (x1 - x1) * (x1 - x2) * (x1 - x3) == 0;
    assert (x2 - x1) * (x2 - x2) * (x2 - x3) == 0;
    assert (x3 - x1) * (x3 - x2) * (x3 - x3) == 0;
    assert C(a * x1 + b, 0) by { DifferenceZero(Cubic(cb, x1), y1 * y1, a * x1 + b); }
    var yy := l * (x2 - x1) + y1;
    assert C(yy * yy, Cubic(cb, x2)) by {
      Self(y1);
      Self(yy);
      AddC(yy, l * (x2 - x1), y1, y2 - y1, y1);
      Self(yy * yy);
      MulC(yy * yy, yy, yy, y2, y2, y2 * y2);
      Trans(yy * yy, y2 * y2, Cubic(cb, x2));
    }
    assert C(a * x2 + b, 0) by { DifferenceZero(Cubic(cb, x2), yy * yy, a * x2 + b); }
    LineVanishes(a, b, x1, x2, x3);
    var y := l * (x3 - x1) + y1;
    ZeroDifference(Cubic(cb, x3), y * y, a * x3 + b);
    ThirdOnCurve(cb, l, x1, y1, x2);
  }

  lemma DifferenceZero(f: int, g: int, r: int)
    requires C(g, f) && f - g == r
    ensures C(r, 0)
  {
    hide Cong;
    CongSelf(f, P);
    CongSub(f, f, g, f, P);
  }

  lemma ZeroDifference(f: int, g: int, r: int)
    requires f - g == r && C(r, 0)
    ensures C(f, g)
  {
    hide Cong;
    CongSelf(g, P);
    CongAdd(r, 0, g, g, P);
  }

  lemma TangentOnCurve(cb: int, l: int, x1: int, y1: int)
    requires C(l * (2 * y1), 3 * (x1 * x1 - 1)) && C(y1 * y1, Cubic(cb, x1))
    ensures OnCurve(cb, Third(l, x1, y1, x1))
  {
    hide C, Cubic;
    var x3 := l * l - x1 - x1;
    var a := -3 + 2 * (l * (l * x1 - y1)) - (x1 * x1 + x3 * (x1 + x1));
    var b := cb - (y1 - l * x1) * (y1 - l * x1) + x1 * x1 * x3;
    Remainder(cb, l, x1, y1, x1, x1);
    Remainder(cb, l, x1, y1, x1, x3);
    assert l * (x1 - x1) + y1 == y1;
    assert (x1 - x1) * (x1 - x1) * (x1 - x3) == 0;
    assert (x3 - x1) * (x3 - x1) * (x3 - x3) == 0;
    assert C(a * x1 + b, 0) by { DifferenceZero(Cubic(cb, x1), y1 * y1, a * x1 + b); }
    assert a == 3 * (x1 * x1 - 1) - l * (2 * y1) by { TangentCoefficient(l, x1, y1); }
    assert C(a, 0) by { DifferenceZero(3 * (x1 * x1 - 1), l * (2 * y1), a); }
    ConstantLine(a, b, x1, x3);
    var y := l * (x3 - x1) + y1;
    ZeroDifference(Cubic(cb, x3), y * y, a * x3 + b);
    ThirdOnCurve(cb, l, x1, y1, x1);
  }

  lemma TangentCoefficient(l: int, x1: int, y1: int)
    ensures var x3 := l * l - x1 - x1;
            -3 + 2 * (l * (l * x1 - y1)) - (x1 * x1 + x3 * (x1 + x1)) == 3 * (x1 * x1 - 1) - l * (2 * y1)
  {
    var x3 := l * l - x1 - x1;
    assert l * (l * x1 - y1) == (l * l) * x1 - l * y1;
    assert x3 * (x1 + x1) == 2 * ((l * l) * x1) - 4 * (x1 * x1);
    assert l * (2 * y1) == 2 * (l * y1);
  }

  /** The chord-and-tangent law never leaves the curve. */
  lemma EcAddOnCurve(cb: int, p: Affine, q: Affine)
    requires Prime(P) && OnCurve(cb, p) && OnCurve(cb, q)
    ensures OnCurve(cb, EcAdd(p, q))
  {
    hide C, Prime, Third, Chord, Tangent, Cubic;
    if p.Aff? && q.Aff? {
      if p.x != q.x {
        DistinctDiffer(p.x, q.x);
        ChordSlope(p.x, p.y, q.x, q.y);
        ChordOnCurve(cb, Chord(p.x, p.y, q.x, q.y), p.x, p.y, q.x, q.y);
      } else if p.y == q.y && p.y != 0 {
        TangentSolves(p.x, p.y);
        TangentOnCurve(cb, Tangent(p.x, p.y), p.x, p.y);
      }
    }
  }

  /** Two points with the same x are equal or opposite. */
  lemma SameX(cb: int, p: Affine, q: Affine)
    requires Prime(P) && OnCurve(cb, p) && OnCurve(cb, q) && p.Aff? && q.Aff? && p.x == q.x
    ensures q == p || q == EcNeg(p)
  {
    hide Prime, Cong, Cubic;
    var y, w := p.y, q.y;
    Flip(w * w, Cubic(cb, p.x));
    CongSub(y * y, Cubic(cb, p.x), w * w, Cubic(cb, p.x), P);
    assert (y - w) * (y + w) == y * y - w * w;
    EuclidLemma(y - w, y + w, P);
    Self(w);
    Self(y);
    if C(y - w, 0) {
      CongAdd(y - w, 0, w, w, P);
      CongCanonical(y, w, P);
    } else {
      CongSub(y + w, 0, y, y, P);
      ModC(-y);
      Flip((-y) % P, -y);
      Trans(w, -y, (-y) % P);
      CongMod(-y, P);
      CongCanonical(w, (-y) % P, P);
    }
  }
}
