/** Shamir sharing of SM2 private keys, src/sm2_key_share.c.  The sm2_fn_* routines are given their
    contracts as arithmetic modulo n. */
module KeyShare {
  import opened Common
  import opened Modular
  import opened NumberTheory
  import opened Field
  import opened SignSpec

  const MAX_SHARES: int := 12

  ghost predicate E(a: int, b: int) {
    Cong(a, b, N)
  }

  // ---------- polynomials ----------

  /** The polynomial with coefficients c at x. */
  function Eval(c: seq<int>, x: int): int {
    if c == [] then 0 else c[0] + x * Eval(c[1..], x)
  }

  /** The quotient of c(X) - c(a) by X - a. */
  ghost function Quotient(c: seq<int>, a: int): (q: seq<int>)
    ensures |q| == if |c| == 0 then 0 else |c| - 1
  {
    if |c| <= 1 then [] else [Eval(c[1..], a)] + Quotient(c[1..], a)
  }

  lemma {:induction false} Division(c: seq<int>, a: int, x: int)
    ensures Eval(c, x) - Eval(c, a) == (x - a) * Eval(Quotient(c, a), x)
  {
    if |c| > 1 {
      var r, q := c[1..], Quotient(c[1..], a);
      Division(r, a, x);
      assert Quotient(c, a)[1..] == q;
      DivisionStep(x, a, Eval(r, x), Eval(r, a), Eval(q, x));
    } else if |c| == 1 {
      assert Eval(c[1..], x) == 0 && Eval(c[1..], a) == 0;
      assert x * 0 == 0 && a * 0 == 0;
      assert Eval([], x) == 0;
    }
  }

  lemma DivisionStep(x: int, a: int, rx: int, ra: int, qx: int)
    requires rx - ra == (x - a) * qx
    ensures x * rx - a * ra == (x - a) * (ra + x * qx)
  {
    assert x * rx == x * ra + x * ((x - a) * qx);
    assert x * ((x - a) * qx) == (x - a) * (x * qx);
    assert (x - a) * (ra + x * qx) == (x - a) * ra + (x - a) * (x * qx);
  }

  /** eval_univariate_poly: Horner's rule from the top coefficient. */
  method EvalPoly(c: seq<int>, x: int) returns (y: int)
    requires x >= 0
    ensures y == Eval(c, x) % N
  {
    hide Cong;
    y := 0;
    var cnt := |c|;
    assert c[cnt..] == [];
    ModSmall(0, N);
    while cnt > 0
      invariant 0 <= cnt <= |c| && y == Eval(c[cnt..], x) % N
    {
      ghost var rest := Eval(c[cnt..], x);
      cnt := cnt - 1;
      assert c[cnt..][1..] == c[cnt + 1..];
      HornerStep(rest, x, c[cnt]);
      y := (y * x) % N;
      y := (y + c[cnt]) % N;
    }
    assert c[0..] == c;
  }

  lemma HornerStep(rest: int, x: int, a: int)
    ensures (((rest % N) * x) % N + a) % N == (a + x * rest) % N
  {
    hide Cong;
    CongMod(rest, N);
    CongScale(rest % N, rest, x, N);
    CongMod((rest % N) * x, N);
    CongTrans(((rest % N) * x) % N, (rest % N) * x, rest * x, N);
    CongSelf(a, N);
    CongAdd(((rest % N) * x) % N, rest * x, a, a, N);
    assert rest * x == x * rest;
    Remainders(((rest % N) * x) % N + a, a + x * rest);
  }

  // ---------- Lagrange weights ----------

  ghost predicate Distinct(xs: seq<int>) {
    forall i, j :: 0 <= i < j < |xs| ==> xs[i] != xs[j]
  }

  /** Nodes small enough that different ones stay different modulo n. */
  ghost predicate Nodes(xs: seq<int>) {
    Distinct(xs) && forall i :: 0 <= i < |xs| ==> 0 < xs[i] <= MAX_SHARES
  }

  ghost function Factor(y: int, x: int): int {
    if y == x then 1 else -y * InvN(x - y)
  }

  /** The weight of node x at 0: the product of -y/(x - y) over the other nodes y. */
  ghost function Weight(xs: seq<int>, x: int): int {
    if xs == [] then 1 else Weight(xs[..|xs| - 1], x) * Factor(xs[|xs| - 1], x)
  }

  lemma {:induction false} WeightFront(xs: seq<int>, x: int)
    requires xs != []
    ensures Weight(xs, x) == Factor(xs[0], x) * Weight(xs[1..], x)
  {
    hide Factor;
    var l := xs[..|xs| - 1];
    if |xs| == 1 {
      assert l == [] && xs[1..] == [];
    } else {
      WeightFront(l, x);
      assert l[1..] == xs[1..][..|xs| - 2];
      var f, w, t := Factor(xs[0], x), Weight(l[1..], x), Factor(xs[|xs| - 1], x);
      assert (f * w) * t == f * (w * t);
    }
  }

  /** Sum of v(z) * Weight(xs, z) over the nodes zs. */
  ghost function Sum(zs: seq<int>, xs: seq<int>, v: int -> int): int {
    if zs == [] then 0 else Sum(zs[..|zs| - 1], xs, v) + v(zs[|zs| - 1]) * Weight(xs, zs[|zs| - 1])
  }

  lemma {:induction false} SumFront(zs: seq<int>, xs: seq<int>, v: int -> int)
    requires zs != []
    ensures Sum(zs, xs, v) == v(zs[0]) * Weight(xs, zs[0]) + Sum(zs[1..], xs, v)
  {
    hide Weight;
    var l := zs[..|zs| - 1];
    if |zs| == 1 {
      assert l == [] && zs[1..] == [];
    } else {
      SumFront(l, xs, v);
      assert l[1..] == zs[1..][..|zs| - 2];
    }
  }

  lemma InvertSmall(a: int)
    requires Prime(N) && a != 0 && -N < a < N
    ensures !Divides(N, a) && E(a * InvN(a), 1)
  {
    hide Pow, Prime, Cong;
    NotMultiple(a);
    FermatInverse(a, N);
    CongScale(InvN(a), Pow(a, N - 2), a, N);
    CongTrans(a * InvN(a), a * Pow(a, N - 2), 1, N);
  }

  lemma NotMultiple(a: int)
    requires a != 0 && -N < a < N
    ensures !Divides(N, a)
  {
    CongRemainders(a, 0, N);
  }

  /** Multiplying by x - y removes y from the weight. */
  lemma FactorCancels(y: int, x: int)
    requires Prime(N) && x != y && 0 < x <= MAX_SHARES && 0 < y <= MAX_SHARES
    ensures E((x - y) * Factor(y, x), -y)
  {
    hide InvN, Prime, Cong;
    InvertSmall(x - y);
    CongScale((x - y) * InvN(x - y), 1, -y, N);
    assert -y * ((x - y) * InvN(x - y)) == (x - y) * (-y * InvN(x - y));
  }

  ghost predicate InNodes(zs: seq<int>) {
    forall i :: 0 <= i < |zs| ==> 0 < zs[i] <= MAX_SHARES
  }

  /** Sums are linear in the values. */
  lemma {:induction false} SumLinear(zs: seq<int>, xs: seq<int>, v: int -> int, p: int, v1: int -> int, v2: int -> int)
    requires forall i :: 0 <= i < |zs| ==> v(zs[i]) == p * v1(zs[i]) + v2(zs[i])
    ensures Sum(zs, xs, v) == p * Sum(zs, xs, v1) + Sum(zs, xs, v2)
  {
    hide Weight;
    if zs != [] {
      var l, z := zs[..|zs| - 1], zs[|zs| - 1];
      SumLinear(l, xs, v, p, v1, v2);
      LinearStep(p, v1(z), v2(z), Weight(xs, z), Sum(l, xs, v1));
    } else {
      assert p * 0 == 0;
    }
  }

  lemma LinearStep(p: int, a: int, b: int, w: int, s: int)
    ensures p * s + (p * a + b) * w == p * (s + a * w) + b * w
  {
    assert (p * a + b) * w == p * (a * w) + b * w;
    assert p * (s + a * w) == p * s + p * (a * w);
  }

  /** v is u weighted by z - b. */
  ghost predicate Shifted(v: int -> int, u: int -> int, b: int, z: int) {
    v(z) == (z - b) * u(z)
  }

  /** xs is ys with the node b added, as far as the weight of z can tell. */
  ghost predicate Extends(xs: seq<int>, ys: seq<int>, b: int, z: int) {
    Weight(xs, z) == Factor(b, z) * Weight(ys, z)
  }

  lemma SumLast(zs: seq<int>, xs: seq<int>, v: int -> int)
    requires zs != []
    ensures var z := zs[|zs| - 1]; Sum(zs, xs, v) == Sum(zs[..|zs| - 1], xs, v) + v(z) * Weight(xs, z)
  {
    hide Weight;
  }

  lemma SumNone(xs: seq<int>, v: int -> int)
    ensures Sum([], xs, v) == 0
  {
  }

  lemma SumDropStep(xs: seq<int>, ys: seq<int>, b: int, v: int -> int, u: int -> int, z: int)
    requires Prime(N) && 0 < z <= MAX_SHARES && 0 < b <= MAX_SHARES && z != b && Shifted(v, u, b, z) && Extends(xs, ys, b, z)
    ensures E(v(z) * Weight(xs, z), -b * (u(z) * Weight(ys, z)))
  {
    hide Weight, Factor, Prime, Cong;
    var w := Weight(ys, z);
    FactorCancels(b, z);
    CongScale((z - b) * Factor(b, z), -b, u(z) * w, N);
    DropStep(z - b, u(z), Factor(b, z), w);
  }

  /** Weighting by z - b amounts to dropping b. */
  lemma {:induction false} SumDrop(zs: seq<int>, xs: seq<int>, ys: seq<int>, b: int, v: int -> int, u: int -> int)
    requires Prime(N) && InNodes(zs) && 0 < b <= MAX_SHARES
    requires forall i :: 0 <= i < |zs| ==> zs[i] != b && Shifted(v, u, b, zs[i]) && Extends(xs, ys, b, zs[i])
    ensures E(Sum(zs, xs, v), -b * Sum(zs, ys, u))
  {
    hide Weight, Factor, Prime, Cong, Sum, Shifted, Extends;
    if zs == [] {
      SumNone(xs, v);
      SumNone(ys, u);
      assert -b * 0 == 0;
      CongSelf(0, N);
    } else {
      var l, z := zs[..|zs| - 1], zs[|zs| - 1];
      SumDrop(l, xs, ys, b, v, u);
      SumLast(zs, xs, v);
      SumLast(zs, ys, u);
      SumDropStep(xs, ys, b, v, u, z);
      var w := u(z) * Weight(ys, z);
      CongAdd(Sum(l, xs, v), -b * Sum(l, ys, u), v(z) * Weight(xs, z), -b * w, N);
      Distribute(-b, Sum(l, ys, u), w);
    }
  }

  lemma Distribute(p: int, x: int, y: int)
    ensures p * (x + y) == p * x + p * y
  {
  }

  lemma DropStep(d: int, u: int, f: int, w: int)
    ensures (d * u) * (f * w) == (d * f) * (u * w)
  {
    assert (d * u) * (f * w) == d * (u * (f * w));
    assert u * (f * w) == f * (u * w);
    assert d * (f * (u * w)) == (d * f) * (u * w);
  }

  lemma NodesPart(xs: seq<int>)
    requires Nodes(xs) && |xs| > 0
    ensures Nodes(xs[..|xs| - 1]) && Nodes(xs[1..]) && InNodes(xs[..|xs| - 1]) && InNodes(xs[1..]) && InNodes(xs)
    ensures var l := xs[..|xs| - 1]; forall i :: 0 <= i < |l| ==> l[i] != xs[|xs| - 1]
    ensures var l := xs[1..]; forall i :: 0 <= i < |l| ==> l[i] != xs[0]
  {
  }

  /** Dropping the last node: the values vanish there. */
  lemma DropLast(xs: seq<int>, v: int -> int, u: int -> int)
    requires Prime(N) && Nodes(xs) && |xs| > 0
    requires forall i :: 0 <= i < |xs| ==> Shifted(v, u, xs[|xs| - 1], xs[i])
    ensures var l := xs[..|xs| - 1]; E(Sum(xs, xs, v), -xs[|xs| - 1] * Sum(l, l, u))
  {
    hide Factor, Prime, Cong, Weight, Sum, Shifted, Extends, Nodes;
    var l, b := xs[..|xs| - 1], xs[|xs| - 1];
    NodesPart(xs);
    forall i | 0 <= i < |l| ensures l[i] != b && Shifted(v, u, b, l[i]) && Extends(xs, l, b, l[i]) {
      assert Shifted(v, u, b, xs[i]);
      ExtendsLast(xs, l[i]);
    }
    SumDrop(l, xs, l, b, v, u);
    SumLast(xs, xs, v);
    VanishesAt(v, u, b, Weight(xs, b));
  }

  lemma ExtendsLast(xs: seq<int>, z: int)
    requires |xs| > 0
    ensures Extends(xs, xs[..|xs| - 1], xs[|xs| - 1], z)
  {
    hide Factor;
  }

  lemma VanishesAt(v: int -> int, u: int -> int, b: int, w: int)
    requires Shifted(v, u, b, b)
    ensures v(b) * w == 0
  {
    assert 0 * u(b) == 0;
    assert 0 * w == 0;
  }

  /** Dropping the first node. */
  lemma DropFirst(xs: seq<int>, v: int -> int, u: int -> int)
    requires Prime(N) && Nodes(xs) && |xs| > 0
    requires forall i :: 0 <= i < |xs| ==> Shifted(v, u, xs[0], xs[i])
    ensures var l := xs[1..]; E(Sum(xs, xs, v), -xs[0] * Sum(l, l, u))
  {
    hide Factor, Prime, Cong, Weight, Sum, Shifted, Extends, Nodes;
    var l, a := xs[1..], xs[0];
    NodesPart(xs);
    forall i | 0 <= i < |l| ensures l[i] != a && Shifted(v, u, a, l[i]) && Extends(xs, l, a, l[i]) {
      assert Shifted(v, u, a, xs[i + 1]);
      ExtendsFirst(xs, l[i]);
    }
    SumDrop(l, xs, l, a, v, u);
    SumFront(xs, xs, v);
    VanishesAt(v, u, a, Weight(xs, a));
  }

  lemma ExtendsFirst(xs: seq<int>, z: int)
    requires |xs| > 0
    ensures Extends(xs, xs[1..], xs[0], z)
  {
    hide Factor, Weight;
    WeightFront(xs, z);
  }

  ghost function One(z: int): int {
    1
  }

  lemma ShiftedOne(v: int -> int, b: int, z: int)
    requires v(z) == z - b
    ensures Shifted(v, One, b, z)
  {
    assert One(z) == 1;
  }

  /** The weights add up to one. */
  lemma {:induction false} PartitionOfUnity(xs: seq<int>)
    requires Prime(N) && Nodes(xs) && |xs| > 0
    ensures E(Sum(xs, xs, One), 1)
  {
    hide Prime, Cong, Factor, Weight, Sum, Nodes, Shifted;
    if |xs| == 1 {
      SingleNode(xs);
    } else {
      var a, b := xs[0], xs[|xs| - 1];
      NodesPart(xs);
      PartitionOfUnity(xs[..|xs| - 1]);
      PartitionOfUnity(xs[1..]);
      var va, vb := (z: int) => z - a, (z: int) => z - b;
      forall i | 0 <= i < |xs| ensures Shifted(vb, One, b, xs[i]) && Shifted(va, One, a, xs[i]) {
        ShiftedOne(vb, b, xs[i]);
        ShiftedOne(va, a, xs[i]);
      }
      DropLast(xs, vb, One);
      DropFirst(xs, va, One);
      UnityCombine(a, b, Sum(xs[..|xs| - 1], xs[..|xs| - 1], One), Sum(xs[1..], xs[1..], One),
                   Sum(xs, xs, va), Sum(xs, xs, vb), Sum(xs, xs, One)) by {
        forall i | 0 <= i < |xs| ensures vb(xs[i]) == (a - b) * One(xs[i]) + va(xs[i]) {
          assert One(xs[i]) == 1;
        }
        SumLinear(xs, xs, vb, a - b, One, va);
        assert a != b by { assert xs[..|xs| - 1][0] == xs[0]; }
        assert 0 < a <= MAX_SHARES && 0 < b <= MAX_SHARES;
      }
    }
  }

  lemma UnityCombine(a: int, b: int, sf: int, sb: int, sa: int, sl: int, u: int)
    requires Prime(N) && a != b && 0 < a <= MAX_SHARES && 0 < b <= MAX_SHARES
    requires E(sf, 1) && E(sb, 1) && E(sl, -b * sf) && E(sa, -a * sb) && sl == (a - b) * u + sa
    ensures E(u, 1)
  {
    hide Prime, Cong;
    CongScale(sf, 1, -b, N);
    CongScale(sb, 1, -a, N);
    CongTrans(sl, -b * sf, -b * 1, N);
    CongTrans(sa, -a * sb, -a * 1, N);
    CongSub(sl, -b * 1, sa, -a * 1, N);
    InvertSmall(a - b);
    assert (a - b) * 1 == -b * 1 - -a * 1;
    CancelFactor(a - b, u, 1, N);
  }

  lemma SingleNode(xs: seq<int>)
    requires |xs| == 1
    ensures E(Sum(xs, xs, One), 1)
  {
    assert xs[..0] == [];
    assert Weight([], xs[0]) == 1;
    assert Weight(xs, xs[0]) == 1;
    assert Sum([], xs, One) == 0;
    assert Sum(xs, xs, One) == 1;
    CongSelf(1, N);
  }

  /** Lagrange interpolation at zero: every polynomial with at most as many coefficients as there
      are nodes is determined by its values. */
  lemma {:induction false} Interpolation(xs: seq<int>, c: seq<int>, v: int -> int)
    requires Prime(N) && Nodes(xs) && 0 < |xs| && |c| <= |xs|
    requires forall i :: 0 <= i < |xs| ==> v(xs[i]) == Eval(c, xs[i])
    ensures E(Sum(xs, xs, v), Eval(c, 0))
  {
    hide Prime, Cong, Factor, Weight, Sum, Eval, Quotient, Nodes, Shifted;
    var l, b := xs[..|xs| - 1], xs[|xs| - 1];
    var q, cb := Quotient(c, b), Eval(c, b);
    NodesPart(xs);
    var u := (z: int) => Eval(q, z);
    var w := (z: int) => (z - b) * u(z);
    forall i | 0 <= i < |xs| ensures v(xs[i]) == cb * One(xs[i]) + w(xs[i]) && Shifted(w, u, b, xs[i]) {
      Division(c, b, xs[i]);
      assert One(xs[i]) == 1;
      assert Shifted(w, u, b, xs[i]) by { ShiftedIf(w, u, b, xs[i]); }
    }
    SumLinear(xs, xs, v, cb, One, w);
    PartitionOfUnity(xs);
    DropLast(xs, w, u);
    if |l| > 0 {
      Interpolation(l, q, u);
    } else {
      EmptySum(l, q, u);
    }
    Division(c, b, 0);
    InterpolationCombine(b, cb, Sum(xs, xs, One), Sum(xs, xs, w), Sum(l, l, u), Eval(q, 0));
  }

  lemma ShiftedIf(v: int -> int, u: int -> int, b: int, z: int)
    requires v(z) == (z - b) * u(z)
    ensures Shifted(v, u, b, z)
  {
  }

  lemma InterpolationCombine(b: int, cb: int, one: int, sw: int, su: int, q0: int)
    requires E(one, 1) && E(sw, -b * su) && E(su, q0)
    ensures E(cb * one + sw, cb + (0 - b) * q0)
  {
    hide Cong;
    CongScale(one, 1, cb, N);
    CongScale(su, q0, -b, N);
    CongTrans(sw, -b * su, -b * q0, N);
    CongAdd(cb * one, cb * 1, sw, -b * q0, N);
  }

  lemma EmptySum(l: seq<int>, q: seq<int>, u: int -> int)
    requires l == [] && q == []
    ensures E(Sum(l, l, u), Eval(q, 0))
  {
    CongSelf(0, N);
  }

  // ---------- the signed int products ----------

  function Fact(m: nat): (r: nat)
    ensures r > 0
  {
    if m == 0 then 1 else assert Fact(m - 1) * m > 0 by { MulAtLeast(m, Fact(m - 1)); } Fact(m - 1) * m
  }

  /** The product of the values before position j, except the one at i: of -x_j and of x_i - x_j. */
  ghost function Num(xs: seq<int>, i: nat, j: nat): int
    requires j <= |xs|
  {
    if j == 0 then 1 else if j - 1 == i then Num(xs, i, j - 1) else Num(xs, i, j - 1) * -xs[j - 1]
  }

  ghost function Den(xs: seq<int>, i: nat, j: nat): int
    requires i < |xs| && j <= |xs|
  {
    if j == 0 then 1 else if j - 1 == i then Den(xs, i, j - 1) else Den(xs, i, j - 1) * (xs[i] - xs[j - 1])
  }

  /** A product of different numbers from 1 to m is at most m factorial. */
  lemma {:induction false} DistinctProduct(s: set<int>, m: nat)
    requires forall x :: x in s ==> 1 <= x <= m
    ensures 1 <= ProdSet(s) <= Fact(m)
  {
    hide ProdSet;
    if m == 0 {
      EmptySet(s);
    } else if m in s {
      DistinctProduct(s - {m}, m - 1);
      ProdSetRemove(s, m);
      GrowBound(ProdSet(s - {m}), Fact(m - 1), m);
    } else {
      DistinctProduct(s, m - 1);
      MulAtLeast(m, Fact(m - 1));
      assert m * Fact(m - 1) == Fact(m - 1) * m;
    }
  }

  lemma EmptySet(s: set<int>)
    requires forall x :: x in s ==> 1 <= x <= 0
    ensures ProdSet(s) == 1
  {
    assert forall x :: x !in s;
    assert s == {};
  }

  lemma GrowBound(p: int, f: int, m: int)
    requires 1 <= p <= f && m >= 1
    ensures 1 <= m * p <= f * m
  {
    MulAtLeast(m, p);
    assert (f - p) * m >= 0;
    assert (f - p) * m == f * m - m * p;
  }

  lemma InsertProduct(s: set<int>, y: int)
    requires y !in s
    ensures ProdSet(s + {y}) == y * ProdSet(s)
  {
    ProdSetRemove(s + {y}, y);
    assert s + {y} - {y} == s;
  }

  ghost function Others(xs: seq<int>, i: nat, j: nat): set<int>
    requires j <= |xs|
  {
    set t | 0 <= t < j && t != i :: xs[t]
  }

  ghost function Below(xs: seq<int>, i: nat, j: nat): set<int>
    requires i < |xs| && j <= |xs|
  {
    set t | 0 <= t < j && xs[t] < xs[i] :: xs[i] - xs[t]
  }

  ghost function Above(xs: seq<int>, i: nat, j: nat): set<int>
    requires i < |xs| && j <= |xs|
  {
    set t | 0 <= t < j && xs[t] > xs[i] :: xs[t] - xs[i]
  }

  function Abs(x: int): nat {
    if x < 0 then -x else x
  }

  lemma AbsTimes(x: int, y: int)
    ensures Abs(x * y) == Abs(x) * Abs(y)
  {
    if x >= 0 && y >= 0 {
    } else if x >= 0 {
      assert x * -y == -(x * y);
    } else if y >= 0 {
      assert -x * y == -(x * y);
    } else {
      assert -x * -y == x * y;
    }
  }

  lemma {:induction false} NumSize(xs: seq<int>, i: nat, j: nat)
    requires Nodes(xs) && j <= |xs|
    ensures Abs(Num(xs, i, j)) == ProdSet(Others(xs, i, j))
  {
    hide ProdSet;
    if j == 0 {
      assert Others(xs, i, 0) == {};
      EmptySet({});
    } else {
      NumSize(xs, i, j - 1);
      if j - 1 == i {
        assert Others(xs, i, j) == Others(xs, i, j - 1);
      } else {
        var y := xs[j - 1];
        assert Others(xs, i, j) == Others(xs, i, j - 1) + {y};
        InsertProduct(Others(xs, i, j - 1), y);
        AbsTimes(Num(xs, i, j - 1), -y);
        assert Abs(-y) == y;
      }
    }
  }

  lemma {:induction false} DenSize(xs: seq<int>, i: nat, j: nat)
    requires Nodes(xs) && i < |xs| && j <= |xs|
    ensures Abs(Den(xs, i, j)) == ProdSet(Below(xs, i, j)) * ProdSet(Above(xs, i, j))
  {
    hide ProdSet, Below, Above, Abs, Nodes;
    if j == 0 {
      NoneYet(xs, i);
    } else {
      DenSize(xs, i, j - 1);
      var lo, hi := Below(xs, i, j - 1), Above(xs, i, j - 1);
      var y := xs[i] - xs[j - 1];
      OneMore(xs, i, j);
      AbsTimes(Den(xs, i, j - 1), y);
      Regroup3(ProdSet(lo), ProdSet(hi), Abs(y));
      if j - 1 != i {
        if y > 0 {
          InsertProduct(lo, y);
        } else {
          InsertProduct(hi, -y);
        }
        AbsCases(y);
      }
    }
  }

  lemma AbsCases(y: int)
    ensures Abs(y) == if y > 0 then y else -y
  {
  }

  lemma NoneYet(xs: seq<int>, i: nat)
    requires i < |xs|
    ensures ProdSet(Below(xs, i, 0)) == 1 && ProdSet(Above(xs, i, 0)) == 1 && Abs(Den(xs, i, 0)) == 1
  {
    assert Below(xs, i, 0) == {} && Above(xs, i, 0) == {};
  }

  /** Position j - 1 adds one new difference, below or above. */
  lemma OneMore(xs: seq<int>, i: nat, j: nat)
    requires Nodes(xs) && i < |xs| && 0 < j <= |xs|
    ensures var y := xs[i] - xs[j - 1];
            && (j - 1 == i ==> Below(xs, i, j) == Below(xs, i, j - 1) && Above(xs, i, j) == Above(xs, i, j - 1))
            && (j - 1 != i ==> y != 0)
            && (y > 0 ==> Below(xs, i, j) == Below(xs, i, j - 1) + {y} && y !in Below(xs, i, j - 1)
                          && Above(xs, i, j) == Above(xs, i, j - 1))
            && (y < 0 ==> Above(xs, i, j) == Above(xs, i, j - 1) + {-y} && -y !in Above(xs, i, j - 1)
                          && Below(xs, i, j) == Below(xs, i, j - 1))
  {
  }

  lemma Regroup3(a: int, b: int, y: int)
    ensures (a * b) * y == (y * a) * b && (a * b) * y == a * (y * b)
  {
    assert (a * b) * y == y * (a * b);
    assert y * (a * b) == (y * a) * b;
  }

  lemma Factorials()
    ensures Fact(0) == 1 && Fact(1) == 1 && Fact(2) == 2 && Fact(3) == 6 && Fact(4) == 24 && Fact(5) == 120
    ensures Fact(6) == 720 && Fact(7) == 5040 && Fact(8) == 40320 && Fact(9) == 362880 && Fact(10) == 3628800
    ensures Fact(11) == 39916800 && Fact(12) == 479001600
  {
    assert Fact(0) == 1;
    assert Fact(1) == 1;
    assert Fact(2) == 2;
    assert Fact(3) == 6;
    assert Fact(4) == 24;
    assert Fact(5) == 120;
    assert Fact(6) == 720;
    assert Fact(7) == 5040;
    assert Fact(8) == 40320;
    assert Fact(9) == 362880;
    assert Fact(10) == 3628800;
    assert Fact(11) == 39916800;
  }

  /** With at most 12 shares neither product leaves the range of a signed 32-bit int. */
  lemma NoOverflow(xs: seq<int>, i: nat, j: nat)
    requires Nodes(xs) && i < |xs| && j <= |xs|
    ensures Abs(Num(xs, i, j)) <= 479001600 && 0 < Abs(Den(xs, i, j)) <= 39916800
  {
    hide ProdSet, Fact, Num, Den, Nodes, Others, Abs;
    NumBound(xs, i, j);
    DenBound(xs, i, j);
  }

  lemma NumBound(xs: seq<int>, i: nat, j: nat)
    requires Nodes(xs) && j <= |xs|
    ensures Abs(Num(xs, i, j)) <= 479001600
  {
    hide ProdSet, Fact, Num, Abs, Distinct;
    Factorials();
    NumSize(xs, i, j);
    DistinctProduct(Others(xs, i, j), 12);
  }

  lemma DenBound(xs: seq<int>, i: nat, j: nat)
    requires Nodes(xs) && i < |xs| && j <= |xs|
    ensures 0 < Abs(Den(xs, i, j)) <= 39916800
  {
    hide ProdSet, Fact, Den, Abs, Distinct;
    DenSize(xs, i, j);
    var a, b := xs[i] - 1, 12 - xs[i];
    DistinctProduct(Below(xs, i, j), a);
    DistinctProduct(Above(xs, i, j), b);
    TwoBounds(ProdSet(Below(xs, i, j)), Fact(a), ProdSet(Above(xs, i, j)), Fact(b));
    SplitFactorial(a);
  }

  lemma TwoBounds(x: int, f: int, y: int, g: int)
    requires 1 <= x <= f && 1 <= y <= g
    ensures 0 < x * y <= f * g
  {
    GrowBound(x, f, y);
    GrowBound(y, g, f);
    assert x * y == y * x;
  }

  lemma SplitFactorial(a: nat)
    requires a <= 11
    ensures Fact(a) * Fact(11 - a) <= 39916800
  {
    hide Fact;
    Factorials();
  }

  // ---------- recovery ----------

  datatype Share = Share(index: nat, total: nat, key: nat)

  /** The nodes x_i = index + 1. */
  function Xs(shares: seq<Share>): (xs: seq<int>)
    ensures |xs| == |shares| && forall i :: 0 <= i < |xs| ==> xs[i] == shares[i].index + 1
  {
    seq(|shares|, i requires 0 <= i < |shares| => shares[i].index + 1)
  }

  /** sm2_fn_inv, a power with exponent n - 2: it inverts, and maps zero to zero. */
  ghost predicate Inverts(inv: int -> int) {
    inv(0) == 0 && forall a :: 0 < a < N ==> 0 <= inv(a) < N && E(a * inv(a), 1)
  }

  /** The int variables num and den of sm2_key_recover after the first j nodes. */
  function IntNum(xs: seq<int>, i: nat, j: nat): int32
    requires j <= |xs|
  {
    if j == 0 then 1
    else if j - 1 == i then IntNum(xs, i, j - 1)
    else Wrap(IntNum(xs, i, j - 1) * -xs[j - 1])
  }

  function IntDen(xs: seq<int>, i: nat, j: nat): int32
    requires i < |xs| && j <= |xs|
  {
    if j == 0 then 1
    else if j - 1 == i then IntDen(xs, i, j - 1)
    else Wrap(IntDen(xs, i, j - 1) * (xs[i] - xs[j - 1]))
  }

  /** The weight sm2_key_recover gives share i, whatever the indices are. */
  ghost function CodeWeight(xs: seq<int>, i: nat): (w: int)
    requires i < |xs|
    ensures 0 <= w < N
  {
    Residue(IntNum(xs, i, |xs|) * InvN(IntDen(xs, i, |xs|)), N)
  }

  lemma WrapSmall(x: int)
    requires -0x8000_0000 <= x < 0x8000_0000
    ensures Wrap(x) == x
  {
  }

  /** With distinct indices nothing wraps. */
  lemma {:induction false} NothingWraps(xs: seq<int>, i: nat, j: nat)
    requires Nodes(xs) && i < |xs| && j <= |xs|
    ensures IntNum(xs, i, j) == Num(xs, i, j) && IntDen(xs, i, j) == Den(xs, i, j)
  {
    hide Wrap, Nodes, Num, Den;
    if j == 0 {
      ProductsStart(xs, i);
    } else {
      NothingWraps(xs, i, j - 1);
      ProductsStep(xs, i, j - 1);
      NoOverflow(xs, i, j);
      WrapSmall(Num(xs, i, j));
      WrapSmall(Den(xs, i, j));
    }
  }

  /** The weight of the code is then that of interpolation. */
  lemma CodeWeightIs(xs: seq<int>, i: nat)
    requires Prime(N) && Nodes(xs) && i < |xs|
    ensures E(CodeWeight(xs, i), Weight(xs, xs[i]))
  {
    hide Prime, Cong, Weight, Num, Den, Nodes, InvN, IntNum, IntDen;
    var n := |xs|;
    var num, den, w := Num(xs, i, n), Den(xs, i, n), Weight(xs, xs[i]);
    NothingWraps(xs, i, n);
    NoOverflow(xs, i, n);
    assert xs[..n] == xs;
    WeightQuotient(xs, i, n);
    Quotients(num, den, CodeWeight(xs, i));
    CongFlip(den * w, num, N);
    CongTrans(den * CodeWeight(xs, i), num, den * w, N);
    NotMultiple(den);
    CancelFactor(den, CodeWeight(xs, i), w, N);
  }

  /** The quotient num/den modulo n. */
  lemma Quotients(num: int, den: int, w: int)
    requires Prime(N) && den != 0 && -N < den < N && w == Residue(num * InvN(den), N)
    ensures E(den * w, num)
  {
    hide Prime, Cong, InvN, Residue;
    InvertSmall(den);
    CongScale(w, num * InvN(den), den, N);
    CongScale(den * InvN(den), 1, num, N);
    assert den * (num * InvN(den)) == num * (den * InvN(den));
    CongTrans(den * w, num * (den * InvN(den)), num, N);
  }

  /** A share whose index occurs twice has weight zero. */
  lemma {:induction false} RepeatedDen(xs: seq<int>, i: nat, r: nat, j: nat)
    requires i < |xs| && r < j <= |xs| && r != i && xs[r] == xs[i]
    ensures IntDen(xs, i, j) == 0
  {
    if j - 1 == r {
      assert IntDen(xs, i, j - 1) * 0 == 0;
    } else {
      RepeatedDen(xs, i, r, j - 1);
      assert 0 * (xs[i] - xs[j - 1]) == 0;
    }
  }

  lemma RepeatedWeight(xs: seq<int>, i: nat, r: nat)
    requires i < |xs| && r < |xs| && r != i && xs[r] == xs[i]
    ensures CodeWeight(xs, i) == 0
  {
    hide InvN, IntNum, IntDen;
    RepeatedDen(xs, i, r, |xs|);
    InverseOfZero();
    ResidueOfZero(IntNum(xs, i, |xs|));
  }

  lemma InverseOfZero()
    ensures InvN(0) == 0
  {
    hide Pow;
    PowOfZero(N - 2);
    ResidueIs(0, N);
    ModSmall(0, N);
  }

  lemma PowOfZero(e: nat)
    requires e > 0
    ensures Pow(0, e) == 0
  {
    assert 0 * Pow(0, e - 1) == 0;
  }

  lemma ResidueOfZero(a: int)
    ensures Residue(a * 0, N) == 0
  {
    assert a * 0 == 0;
    ResidueIs(0, N);
    ModSmall(0, N);
  }

  /** The products collected up to j are tied by the weight over the same nodes. */
  lemma {:induction false} WeightQuotient(xs: seq<int>, i: nat, j: nat)
    requires Prime(N) && Nodes(xs) && i < |xs| && j <= |xs|
    ensures E(Den(xs, i, j) * Weight(xs[..j], xs[i]), Num(xs, i, j))
  {
    hide Prime, Cong, Factor;
    if j == 0 {
      CongSelf(1, N);
    } else {
      WeightQuotient(xs, i, j - 1);
      var x, y := xs[i], xs[j - 1];
      assert xs[..j][..j - 1] == xs[..j - 1];
      var d, w, f := Den(xs, i, j - 1), Weight(xs[..j - 1], x), Factor(y, x);
      if j - 1 == i {
        assert f == 1 by { FactorSelf(x); }
        assert d * (w * 1) == d * w;
      } else {
        FactorCancels(y, x);
        CongMul(d * w, Num(xs, i, j - 1), (x - y) * f, -y, N);
        DropStep(d, w, x - y, f);
        assert (d * w) * ((x - y) * f) == (d * (x - y)) * (w * f);
      }
    }
  }

  lemma FactorSelf(x: int)
    ensures Factor(x, x) == 1
  {
  }

  /** The weight of share i, with the products in signed 32-bit ints. */
  method ShareWeight(xs: seq<int>, i: nat, inv: int -> int) returns (d: int)
    requires Prime(N) && InNodes(xs) && i < |xs| && Inverts(inv)
    ensures d == CodeWeight(xs, i)
    ensures Nodes(xs) ==> E(d, Weight(xs, xs[i]))
  {
    hide Prime, Cong, Weight, Inverts, Wrap, Nodes, InvN, Residue, CodeWeight;
    var num: int32, den: int32, sign := 1, 1, 1;
    for j := 0 to |xs|
      invariant num == IntNum(xs, i, j) && den == IntDen(xs, i, j)
    {
      if i != j {
        num := Wrap(num * -xs[j]);
        den := Wrap(den * (xs[i] - xs[j]));
      }
    }
    d := SignedQuotient(num, den, inv);
    CodeWeightDef(xs, i);
    if Nodes(xs) {
      CodeWeightIs(xs, i);
    }
  }

  lemma CodeWeightDef(xs: seq<int>, i: nat)
    requires i < |xs|
    ensures CodeWeight(xs, i) == Residue(IntNum(xs, i, |xs|) * InvN(IntDen(xs, i, |xs|)), N)
  {
    hide InvN, Residue, IntNum, IntDen;
  }

  /** num/den modulo n from sign and magnitudes; the most negative int is its own negative, and its word
      is its magnitude. */
  method SignedQuotient(num0: int32, den0: int32, inv: int -> int) returns (d: int)
    requires Prime(N) && Inverts(inv)
    ensures d == Residue(num0 * InvN(den0), N)
  {
    hide Prime, Cong, Inverts, InvN, Residue;
    var num, den, sign := num0 as int, den0 as int, 1;
    if num < 0 {
      num := -num;
      sign := -sign;
    }
    if den < 0 {
      den := -den;
      sign := -sign;
    }
    d := inv(den);
    ghost var v := d;
    d := (d * num) % N;
    if sign < 0 {
      d := (-d) % N;
    }
    if den == 0 {
      InverseAtZero(inv);
      ZeroTimes(num);
      InverseOfZero();
      ResidueOfZero(num0);
    } else {
      InverseRange(inv, den);
      SignedCong(num0, den0, num, den, v, d);
      ghost var w := Residue(num0 * InvN(den0), N);
      Quotients(num0, den0, w);
      CongFlip(den0 * w, num0, N);
      CongTrans(den0 * d, num0, den0 * w, N);
      NotMultiple(den0);
      CancelFactor(den0, d, w, N);
      CongCanonical(d, w, N);
    }
  }

  lemma InverseAtZero(inv: int -> int)
    requires Inverts(inv)
    ensures inv(0) == 0
  {
  }

  lemma ZeroTimes(a: int)
    ensures (0 * a) % N == 0 && (-0) % N == 0
  {
    assert 0 * a == 0;
  }

  lemma ProductsStart(xs: seq<int>, i: nat)
    requires i < |xs|
    ensures Num(xs, i, 0) == 1 && Den(xs, i, 0) == 1
  {
  }

  lemma ProductsStep(xs: seq<int>, i: nat, j: nat)
    requires i < |xs| && j < |xs|
    ensures Num(xs, i, j + 1) == if j == i then Num(xs, i, j) else Num(xs, i, j) * -xs[j]
    ensures Den(xs, i, j + 1) == if j == i then Den(xs, i, j) else Den(xs, i, j) * (xs[i] - xs[j])
  {
  }

  lemma InverseRange(inv: int -> int, a: int)
    requires Inverts(inv) && 0 < a < N
    ensures 0 <= inv(a) < N && E(a * inv(a), 1)
  {
  }

  lemma SignedCong(num0: int, den0: int, num: int, den: int, v: int, d: int)
    requires den0 != 0 && num == Abs(num0) && den == Abs(den0) && E(den * v, 1)
    requires d == if (num0 < 0) != (den0 < 0) then (-((v * num) % N)) % N else (v * num) % N
    ensures 0 <= d < N && E(den0 * d, num0)
  {
    hide Cong;
    var sg := if (num0 < 0) != (den0 < 0) then -1 else 1;
    var t := (v * num) % N;
    CongMod(v * num, N);
    assert E(d, sg * (v * num)) by {
      if sg == -1 {
        CongMod(-t, N);
        CongScale(t, v * num, -1, N);
        CongTrans(d, -1 * t, -1 * (v * num), N);
      }
    }
    CongScale(d, sg * (v * num), den0, N);
    assert den0 * (sg * (v * num)) == num0 * (den * v) by { SignCases(num0, den0, num, den, v, sg); }
    CongScale(den * v, 1, num0, N);
    CongTrans(den0 * d, num0 * (den * v), num0, N);
  }

  lemma SignCases(num0: int, den0: int, num: int, den: int, v: int, sg: int)
    requires num == Abs(num0) && den == Abs(den0) && sg == if (num0 < 0) != (den0 < 0) then -1 else 1
    ensures den0 * (sg * (v * num)) == num0 * (den * v)
  {
    var w := v * num;
    assert num0 * (den * v) == den * (v * num0);
    if num0 < 0 {
      assert v * num0 == -w;
      assert den * -w == -(den * w);
    }
    if den0 < 0 {
      assert den0 * (sg * w) == -den * (sg * w);
    }
    if sg == -1 {
      assert den * (-1 * w) == -(den * w);
    }
  }

  /** The shares sm2_key_recover accepts. */
  predicate Consistent(shares: seq<Share>) {
    && shares != [] && shares[0].total <= MAX_SHARES
    && (forall i :: 0 <= i < |shares| ==> shares[i].total == shares[0].total && shares[i].index < shares[0].total)
    && (forall i :: 0 <= i < |shares| ==> shares[i].key < N)
  }

  /** Interpolation of the stored values. */
  ghost function Interpolated(shares: seq<Share>, k: nat): int
    requires k <= |shares|
  {
    if k == 0 then 0
    else Interpolated(shares, k - 1) + shares[k - 1].key * Weight(Xs(shares), shares[k - 1].index + 1)
  }

  /** The sum of sm2_key_recover over the first k shares, whatever the indices are. */
  ghost function Recovered(shares: seq<Share>, k: nat): int
    requires k <= |shares|
  {
    if k == 0 then 0
    else Recovered(shares, k - 1) + shares[k - 1].key * CodeWeight(Xs(shares), k - 1)
  }

  /** With distinct indices it is interpolation. */
  lemma {:induction false} RecoveredInterpolates(shares: seq<Share>, k: nat)
    requires Prime(N) && Nodes(Xs(shares)) && k <= |shares|
    ensures E(Recovered(shares, k), Interpolated(shares, k))
  {
    hide Prime, Cong, Weight, CodeWeight, Nodes;
    if k == 0 {
      CongSelf(0, N);
    } else {
      RecoveredInterpolates(shares, k - 1);
      var xs, y := Xs(shares), shares[k - 1].key;
      CodeWeightIs(xs, k - 1);
      CongScale(CodeWeight(xs, k - 1), Weight(xs, xs[k - 1]), y, N);
      CongAdd(Recovered(shares, k - 1), Interpolated(shares, k - 1),
              y * CodeWeight(xs, k - 1), y * Weight(xs, xs[k - 1]), N);
    }
  }

  /** The index of share i occurs again. */
  ghost predicate Repeated(shares: seq<Share>, i: nat) {
    exists r :: 0 <= r < |shares| && r != i && i < |shares| && shares[r].index == shares[i].index
  }

  /** Repeated shares contribute nothing; when all are repeated the sum is zero. */
  lemma {:induction false} AllRepeated(shares: seq<Share>, k: nat)
    requires k <= |shares| && forall i :: 0 <= i < k ==> Repeated(shares, i)
    ensures Recovered(shares, k) == 0
  {
    hide CodeWeight;
    if k > 0 {
      AllRepeated(shares, k - 1);
      assert Repeated(shares, k - 1);
      var r :| 0 <= r < |shares| && r != k - 1 && shares[r].index == shares[k - 1].index;
      RepeatedWeight(Xs(shares), k - 1, r);
      assert shares[k - 1].key * 0 == 0;
    }
  }

  /** sm2_key_set_private_key refuses zero and values from n - 1 on; the callers here ignore that. */
  predicate Refused(y: int) {
    y == 0 || y >= N - 1
  }

  /** sm2_key_recover, into a key that held was. */
  method Recover(shares: seq<Share>, inv: int -> int, was: int) returns (s: Option<int>, key: int)
    requires Prime(N) && Inverts(inv)
    ensures s.Some? <==> Consistent(shares)
    ensures s.Some? ==> s.value == Recovered(shares, |shares|) % N
    ensures s.Some? && Distinct(Xs(shares)) ==> s.value == Interpolated(shares, |shares|) % N
    ensures key == if s.Some? && !Refused(s.value) then s.value else was
  {
    hide Prime, Cong, Weight, Inverts, Interpolated, Recovered, CodeWeight, Distinct;
    key := was;
    if shares == [] || shares[0].total > MAX_SHARES {
      return None, was;
    }
    var n := shares[0].total;
    for i := 0 to |shares|
      invariant forall j :: 0 <= j < i ==> shares[j].total == n && shares[j].index < n
    {
      if shares[i].total != n || shares[i].index >= n {
        return None, was;
      }
    }
    var xs := Xs(shares);
    var sum := 0;
    RecoveredStart(shares);
    for i := 0 to |shares|
      invariant sum == Recovered(shares, i) % N
      invariant forall j :: 0 <= j < i ==> shares[j].key < N
    {
      var d := ShareWeight(xs, i, inv);
      var y := shares[i].key;
      if y >= N {
        return None, was;
      }
      RecoveredStep(shares, i);
      CongSelf(d, N);
      Accumulate(sum, Recovered(shares, i), y, d, d);
      y := (y * d) % N;
      sum := (sum + y) % N;
    }
    s := Some(sum);
    if Distinct(Xs(shares)) {
      RecoveredInterpolates(shares, |shares|);
      Remainders(Recovered(shares, |shares|), Interpolated(shares, |shares|));
    }
    if !Refused(sum) {
      key := sum;
    }
  }

  lemma RecoveredStart(shares: seq<Share>)
    ensures Recovered(shares, 0) % N == 0
  {
    ModSmall(0, N);
  }

  lemma RecoveredStep(shares: seq<Share>, i: nat)
    requires i < |shares|
    ensures Recovered(shares, i + 1) == Recovered(shares, i) + shares[i].key * CodeWeight(Xs(shares), i)
  {
    hide CodeWeight;
  }

  lemma Accumulate(sum: int, total: int, y: int, d: int, w: int)
    requires sum == total % N && E(d, w)
    ensures (sum + (y * d) % N) % N == (total + y * w) % N
  {
    hide Cong;
    CongMod(total, N);
    CongMod(y * d, N);
    CongScale(d, w, y, N);
    CongTrans((y * d) % N, y * d, y * w, N);
    CongAdd(sum, total, (y * d) % N, y * w, N);
    Remainders(sum + (y * d) % N, total + y * w);
  }

  // ---------- splitting and recovering ----------

  /** What a share's key field holds after sm2_key_set_private_key: zero and n - 1 are refused and
      leave the cleared field. */
  function Stored(y: int): int {
    if Refused(y) then 0 else y
  }

  /** sm2_key_split: share i holds the polynomial at i + 1. */
  method Split(secret: int, rand: seq<int>, recover: nat, total: nat) returns (shares: Option<seq<Share>>)
    requires recover > 0 ==> |rand| == recover - 1
    ensures shares.None? <==> total == 0 || total > MAX_SHARES || recover == 0 || recover > total
    ensures shares.Some? ==> |shares.value| == total
    ensures shares.Some? ==> forall i :: 0 <= i < total ==>
              shares.value[i].index == i && shares.value[i].total == total
              && shares.value[i].key == Stored(Eval([secret] + rand, i + 1) % N)
  {
    hide Eval;
    if total == 0 || total > MAX_SHARES || recover == 0 || recover > total {
      return None;
    }
    var c := [secret] + rand;
    var out: seq<Share> := [];
    for i := 0 to total
      invariant |out| == i
      invariant forall j :: 0 <= j < i ==> out[j].index == j && out[j].total == total && out[j].key == Stored(Eval(c, j + 1) % N)
    {
      var y := EvalPoly(c, i + 1);
      out := out + [Share(i, total, Stored(y))];
    }
    shares := Some(out);
  }

  /** The shares lie on the polynomial c, as far as they could be stored. */
  ghost predicate SharesOf(c: seq<int>, shares: seq<Share>) {
    forall i :: 0 <= i < |shares| ==> shares[i].key == Held(Eval(c, shares[i].index + 1))
  }

  /** What is missing when the value f with weight w is n - 1. */
  function Lost(f: int, w: int): int {
    if f % N == N - 1 then w else 0
  }

  /** What a share with value f holds. */
  function Held(f: int): int {
    Stored(f % N)
  }

  /** The total weight of the first k shares whose value was n - 1. */
  ghost function RefusedWeight(c: seq<int>, shares: seq<Share>, k: nat): int
    requires k <= |shares|
  {
    if k == 0 then 0
    else RefusedWeight(c, shares, k - 1)
         + Lost(Eval(c, shares[k - 1].index + 1), Weight(Xs(shares), shares[k - 1].index + 1))
  }

  lemma StoredValue(f: int, w: int)
    ensures E(Held(f) * w, f * w + Lost(f, w))
  {
    hide Cong;
    CongMod(f, N);
    if f % N == N - 1 {
      CongSelf(1, N);
      CongAdd(f % N, f, 1, 1, N);
      CongFromMultiple(N, 0, 1, N);
      CongFlip(f % N + 1, f + 1, N);
      CongTrans(f + 1, N, 0, N);
      CongScale(f + 1, 0, w, N);
      assert (f + 1) * w == f * w + w;
      CongFlip((f + 1) * w, 0 * w, N);
      assert 0 * w == 0;
    } else {
      CongScale(f % N, f, w, N);
    }
  }

  lemma {:induction false} StoredSum(c: seq<int>, shares: seq<Share>, k: nat, v: int -> int)
    requires SharesOf(c, shares) && k <= |shares|
    requires forall i :: 0 <= i < |shares| ==> v(Xs(shares)[i]) == Eval(c, Xs(shares)[i])
    ensures E(Interpolated(shares, k), Sum(Xs(shares)[..k], Xs(shares), v) + RefusedWeight(c, shares, k))
  {
    hide Cong, Weight, Eval, Sum;
    var xs := Xs(shares);
    if k == 0 {
      SumNone(xs, v);
      CongSelf(0, N);
    } else {
      hide E, Interpolated, RefusedWeight, Held, Lost, SharesOf, Xs;
      StoredSum(c, shares, k - 1, v);
      var x := xs[k - 1];
      assert xs[..k][..k - 1] == xs[..k - 1];
      SumLast(xs[..k], xs, v);
      StoredStep(c, shares, k);
      var f, w := Eval(c, x), Weight(xs, x);
      StoredValue(f, w);
      TermJoins(Interpolated(shares, k - 1), Sum(xs[..k - 1], xs, v), RefusedWeight(c, shares, k - 1),
                Held(f) * w, v(x) * w, Lost(f, w));
    }
  }

  lemma TermJoins(t: int, s: int, r: int, h: int, f: int, l: int)
    requires E(t, s + r) && E(h, f + l)
    ensures E(t + h, (s + f) + (r + l))
  {
    hide Cong;
    CongAdd(t, s + r, h, f + l, N);
  }

  lemma StoredStep(c: seq<int>, shares: seq<Share>, k: nat)
    requires SharesOf(c, shares) && 0 < k <= |shares|
    ensures var x := Xs(shares)[k - 1]; var f, w := Eval(c, x), Weight(Xs(shares), x);
            && Interpolated(shares, k) == Interpolated(shares, k - 1) + Held(f) * w
            && RefusedWeight(c, shares, k) == RefusedWeight(c, shares, k - 1) + Lost(f, w)
  {
    hide Weight, Eval, Held, Lost;
  }

  lemma EvalZero(c: seq<int>)
    requires |c| > 0
    ensures Eval(c, 0) == c[0]
  {
    assert 0 * Eval(c[1..], 0) == 0;
  }

  /** Recovery from any shares with distinct indices, at least as many as there are coefficients:
      the result is the secret plus the weights of the shares whose value was n - 1. */
  lemma RecoveredValue(c: seq<int>, shares: seq<Share>)
    requires Prime(N) && 0 < |c| <= |shares| && Nodes(Xs(shares)) && SharesOf(c, shares)
    ensures E(Interpolated(shares, |shares|), c[0] + RefusedWeight(c, shares, |shares|))
  {
    hide Prime, Cong, Weight, Sum, Interpolated, RefusedWeight, Eval, Nodes;
    var xs := Xs(shares);
    var v := (x: int) => Eval(c, x);
    var t, q, u := Interpolated(shares, |shares|), RefusedWeight(c, shares, |shares|), Sum(xs, xs, v);
    StoredSum(c, shares, |shares|, v);
    assert xs[..|shares|] == xs;
    Interpolation(xs, c, v);
    EvalZero(c);
    CongSelf(q, N);
    CongAdd(u, c[0], q, q, N);
    CongTrans(t, u + q, c[0] + q, N);
  }

  /** It is the secret exactly when those weights cancel. */
  lemma RecoveredIff(c: seq<int>, shares: seq<Share>)
    requires Prime(N) && 0 < |c| <= |shares| && Nodes(Xs(shares)) && SharesOf(c, shares)
    ensures Interpolated(shares, |shares|) % N == c[0] % N <==> RefusedWeight(c, shares, |shares|) % N == 0
  {
    hide Prime, Cong, Interpolated, RefusedWeight, Nodes, Xs, SharesOf;
    RecoveredValue(c, shares);
    OffsetIff(Interpolated(shares, |shares|), RefusedWeight(c, shares, |shares|), c[0]);
  }

  lemma OffsetIff(t: int, q: int, s: int)
    requires E(t, s + q)
    ensures t % N == s % N <==> q % N == 0
  {
    hide Cong;
    CongFlip(t, s + q, N);
    SameResidue(t, s);
    ZeroResidue(q);
    CongSelf(s, N);
    if E(t, s) {
      CongTrans(s + q, t, s, N);
      CongSub(s + q, s, s, s, N);
    }
    if E(q, 0) {
      CongAdd(s, s, q, 0, N);
      CongTrans(t, s + q, s, N);
    }
  }

  lemma SameResidue(a: int, b: int)
    ensures E(a, b) <==> a % N == b % N
  {
    CongRemainders(a, b, N);
  }

  /** When every share could be stored, the key is recovered. */
  lemma {:induction false} NoneRefused(c: seq<int>, shares: seq<Share>, k: nat)
    requires k <= |shares| && forall i :: 0 <= i < |shares| ==> Eval(c, shares[i].index + 1) % N != N - 1
    ensures RefusedWeight(c, shares, k) == 0
  {
    hide Weight, Eval;
    if k > 0 {
      NoneRefused(c, shares, k - 1);
    }
  }

  lemma KeyRecovered(c: seq<int>, shares: seq<Share>)
    requires Prime(N) && 0 < |c| <= |shares| && Nodes(Xs(shares)) && SharesOf(c, shares) && 0 <= c[0] < N
    requires forall i :: 0 <= i < |shares| ==> Eval(c, shares[i].index + 1) % N != N - 1
    ensures Interpolated(shares, |shares|) % N == c[0]
  {
    hide Weight, Eval, Interpolated, RefusedWeight, Prime;
    NoneRefused(c, shares, |shares|);
    RecoveredIff(c, shares);
    ModSmall(c[0], N);
    ModSmall(0, N);
  }

  /** No weight vanishes modulo n. */
  lemma WeightNonzero(xs: seq<int>, i: nat)
    requires Prime(N) && Nodes(xs) && i < |xs|
    ensures !E(Weight(xs, xs[i]), 0)
  {
    hide Prime, Cong, Weight, Num, Den;
    var d, w, m := Den(xs, i, |xs|), Weight(xs, xs[i]), Num(xs, i, |xs|);
    assert xs[..|xs|] == xs;
    WeightQuotient(xs, i, |xs|);
    NoOverflow(xs, i, |xs|);
    NumNonzero(xs, i, |xs|);
    NotMultiple(m);
    if E(w, 0) {
      CongScale(w, 0, d, N);
      assert d * 0 == 0;
      CongFlip(d * w, m, N);
      CongTrans(m, d * w, 0, N);
    }
  }

  lemma {:induction false} NumNonzero(xs: seq<int>, i: nat, j: nat)
    requires Nodes(xs) && j <= |xs|
    ensures Num(xs, i, j) != 0
  {
    if j > 0 {
      NumNonzero(xs, i, j - 1);
    }
  }

  /** Share i is the only one whose value was n - 1. */
  ghost predicate OnlyRefused(c: seq<int>, shares: seq<Share>, i: nat) {
    i < |shares| && forall j :: 0 <= j < |shares| ==> (Eval(c, shares[j].index + 1) % N == N - 1 <==> j == i)
  }

  lemma {:induction false} OneRefused(c: seq<int>, shares: seq<Share>, i: nat, k: nat)
    requires OnlyRefused(c, shares, i) && k <= |shares|
    ensures RefusedWeight(c, shares, k) == if i < k then Weight(Xs(shares), Xs(shares)[i]) else 0
  {
    hide Weight, Eval;
    if k > 0 {
      OneRefused(c, shares, i, k - 1);
    }
  }

  /** A single refused share always spoils the recovered key. */
  lemma Spoiled(c: seq<int>, shares: seq<Share>, i: nat)
    requires Prime(N) && 0 < |c| <= |shares| && Nodes(Xs(shares)) && SharesOf(c, shares) && OnlyRefused(c, shares, i)
    ensures Interpolated(shares, |shares|) % N != c[0] % N
  {
    hide Weight, Eval, Interpolated, RefusedWeight, Prime, Cong, Nodes, SharesOf;
    RecoveredIff(c, shares);
    OneRefused(c, shares, i, |shares|);
    WeightNonzero(Xs(shares), i);
    ZeroResidue(Weight(Xs(shares), Xs(shares)[i]));
  }

  /** A concrete input: a key s split with the coefficient n - 1 - s and recovered from the first two
      shares comes back as s + 2. */
  lemma SpoiledExample(s: int, shares: seq<Share>)
    requires Prime(N) && 0 < s < N - 2
    requires shares == [Share(0, 2, 0), Share(1, 2, N - 2 - s)]
    ensures SharesOf([s, N - 1 - s], shares) && OnlyRefused([s, N - 1 - s], shares, 0)
    ensures Interpolated(shares, 2) % N == (s + 2) % N
  {
    hide Prime, Cong, Weight, Interpolated, RefusedWeight, Num, Den;
    var c := [s, N - 1 - s];
    var xs := Xs(shares);
    LinearAt(s, N - 1 - s, 1);
    LinearAt(s, N - 1 - s, 2);
    ModSmall(N - 1, N);
    assert (2 * N - 2 - s) % N == N - 2 - s;
    RecoveredValue(c, shares);
    OneRefused(c, shares, 0, 2);
    FirstOfTwo(xs);
    var w := Weight(xs, 1);
    CongSelf(s, N);
    CongAdd(s, s, w, 2, N);
    CongTrans(Interpolated(shares, 2), s + w, s + 2, N);
    SameResidue(Interpolated(shares, 2), s + 2);
  }

  lemma LinearAt(a: int, b: int, x: int)
    ensures Eval([a, b], x) == a + x * b
  {
    assert [a, b][1..] == [b] && [b][1..] == [];
    assert Eval([b], x) == b + x * Eval([], x);
    assert x * 0 == 0;
  }

  /** The weight of node 1 beside node 2 is 2. */
  lemma FirstOfTwo(xs: seq<int>)
    requires Prime(N) && xs == [1, 2]
    ensures E(Weight(xs, 1), 2)
  {
    hide Prime, Cong, Weight;
    assert xs[..2] == xs;
    WeightQuotient(xs, 0, 2);
    assert Den(xs, 0, 1) == 1 && Num(xs, 0, 1) == 1;
    assert Den(xs, 0, 2) == -1 && Num(xs, 0, 2) == -2;
    var w := Weight(xs, 1);
    CongScale(-1 * w, -2, -1, N);
    assert -1 * (-1 * w) == w;
  }
}
