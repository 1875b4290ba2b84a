/** Windowed scalar multiplication of src/sm2_z256.c: the precomputed table, the complete
    multiplication of an arbitrary point, and the table-driven multiplication of the generator. */
module ScalarMul {
  import opened Common
  import opened Modular
  import opened NumberTheory
  import opened Z256
  import opened Field
  import opened FieldElem
  import opened FieldInv
  import opened Curve
  import opened Points
  import opened Booth

  // ---------- multiples of one point ----------

  /** True of all arguments: the hypotheses below are used where a lemma names the index. */
  ghost predicate Index(i: int) {
    true
  }

  ghost predicate Indices(i: int, j: int) {
    true
  }

  /** mul lists the multiples of mul(1) in the chord-and-tangent group of the curve. */
  ghost predicate Multiples(cb: int, mul: int -> Affine) {
    && mul(0) == Inf
    && (forall i {:trigger Index(i)} :: Index(i) ==> OnCurve(cb, mul(i)))
    && (forall i, j {:trigger Indices(i, j)} :: Indices(i, j) ==> EcAdd(mul(i), mul(j)) == mul(i + j))
  }

  /** The point has order n. */
  ghost predicate OrderN(mul: int -> Affine) {
    forall i {:trigger Index(i)} :: Index(i) ==> (mul(i) == Inf <==> i % N == 0)
  }

  lemma OrderAt(mul: int -> Affine, i: int)
    requires OrderN(mul)
    ensures mul(i) == Inf <==> i % N == 0
  {
    assert Index(i);
  }

  lemma MulAdd(cb: int, mul: int -> Affine, i: int, j: int)
    requires Multiples(cb, mul)
    ensures EcAdd(mul(i), mul(j)) == mul(i + j)
  {
    hide EcAdd;
    assert Indices(i, j);
  }

  lemma MulOn(cb: int, mul: int -> Affine, i: int)
    requires Multiples(cb, mul)
    ensures OnCurve(cb, mul(i)) && mul(0) == Inf
  {
    hide OnCurve;
    assert Index(i);
  }

  lemma MulNeg(cb: int, mul: int -> Affine, i: int)
    requires Prime(P) && Multiples(cb, mul)
    ensures EcNeg(mul(i)) == mul(-i)
  {
    hide Multiples, C, Cubic, Prime, Third, Chord, Tangent;
    MulAdd(cb, mul, i, -i);
    MulOn(cb, mul, i);
    MulOn(cb, mul, -i);
    var p, q := mul(i), mul(-i);
    OppositeOnCurve(cb, p, q);
  }

  /** Points of the curve with sum infinity are negatives of each other. */
  lemma OppositeOnCurve(cb: int, p: Affine, q: Affine)
    requires Prime(P) && OnCurve(cb, p) && OnCurve(cb, q) && EcAdd(p, q) == Inf
    ensures q == EcNeg(p)
  {
    hide C, Cubic, Prime, Third, Chord, Tangent;
    if p.Aff? {
      ThirdIsAffine(p, q);
      SameX(cb, p, q);
      assert 0 % P == 0;
    }
  }

  lemma ThirdIsAffine(p: Affine, q: Affine)
    requires p.Aff? && EcAdd(p, q) == Inf
    ensures q.Aff? && p.x == q.x && (p.y == q.y ==> p.y == 0)
  {
  }

  /** Equal multiples differ by a multiple of the order. */
  lemma MulInjective(cb: int, mul: int -> Affine, i: int, j: int)
    requires Multiples(cb, mul) && OrderN(mul) && mul(i) == mul(j)
    ensures (i - j) % N == 0
  {
    hide Multiples;
    MulAdd(cb, mul, i, -j);
    MulAdd(cb, mul, j, -j);
    MulOn(cb, mul, 0);
    OrderAt(mul, i - j);
  }

  /** j represents the i-th multiple. */
  ghost predicate Is(mul: int -> Affine, j: Jac, i: int) {
    Bounded(j) && Pt(j) == mul(i)
  }

  method DblOf(j: Jac, ghost cb: int, ghost mul: int -> Affine, ghost i: int) returns (r: Jac)
    requires Prime(P) && Multiples(cb, mul) && Is(mul, j, i)
    ensures Is(mul, r, 2 * i)
  {
    hide Multiples, Bounded, Pt, Prime, EcAdd;
    var a := new Point(j);
    PointDbl(a, a);
    r := a.Val();
    MulAdd(cb, mul, i, i);
  }

  method AddOf(j: Jac, k: Jac, ghost cb: int, ghost mul: int -> Affine, ghost i: int, ghost l: int) returns (r: Jac)
    requires Prime(P) && Multiples(cb, mul) && Is(mul, j, i) && Is(mul, k, l)
    ensures Is(mul, r, i + l)
  {
    hide Multiples, Bounded, Pt, Prime, EcAdd;
    var a := new Point(j);
    var b := new Point(k);
    PointAdd(a, a, b);
    r := a.Val();
    MulAdd(cb, mul, i, l);
  }

  /** Mixed addition of the base point, away from the one case it does not handle. */
  method AddBase(j: Jac, p: Jac, ghost cb: int, ghost mul: int -> Affine, ghost i: int) returns (r: Jac)
    requires Prime(P) && Multiples(cb, mul) && OrderN(mul) && Is(mul, j, i) && Is(mul, p, 1) && p.Z == MONT_ONE
    requires (i - 1) % N != 0
    requires AffinePt(AffineLimbs(p.X, p.Y)) == mul(1)
    ensures Is(mul, r, i + 1)
  {
    hide Multiples, Pt, Prime, EcAdd, OrderN, AffinePt;
    var a := new Point(j);
    AddAffine(a, a, AffineLimbs(p.X, p.Y));
    r := a.Val();
    if mul(i) == mul(1) {
      MulInjective(cb, mul, i, 1);
    }
    MulAdd(cb, mul, i, 1);
  }

  // ---------- the table of a point ----------

  ghost predicate Table(mul: int -> Affine, t: seq<Jac>) {
    |t| == 16 && forall j :: 0 <= j < 16 ==> Is(mul, t[j], j + 1)
  }

  /** What the caller knows about the base point: it is infinity, or it has order n and, as every
      point of the curve, is not (0, 0). */
  ghost predicate Base(cb: int, mul: int -> Affine, p: Jac) {
    && Multiples(cb, mul) && Is(mul, p, 1)
    && (mul(1) == Inf || (OrderN(mul) && mul(1) != Aff(0, 0)))
  }

  /** The branch of sm2_z256_point_mul_pre_compute for points with Z = 1. */
  method TableMixed(p: Jac, ghost cb: int, ghost mul: int -> Affine) returns (t: seq<Jac>)
    requires Prime(P) && Base(cb, mul, p) && p.Z == MONT_ONE
    ensures Table(mul, t)
  {
    hide Multiples, Is, Prime, OrderN, AffinePt;
    BaseAffine(cb, mul, p);
    var t1 := p;
    var t2 := DblOf(t1, cb, mul, 1);
    var t3 := AddBase(t2, p, cb, mul, 2);
    var t4 := DblOf(t2, cb, mul, 2);
    var t5 := AddBase(t4, p, cb, mul, 4);
    var t6 := DblOf(t3, cb, mul, 3);
    var t7 := AddBase(t6, p, cb, mul, 6);
    var t8 := DblOf(t4, cb, mul, 4);
    var t9 := AddBase(t8, p, cb, mul, 8);
    var t10 := DblOf(t5, cb, mul, 5);
    var t11 := AddBase(t10, p, cb, mul, 10);
    var t12 := DblOf(t6, cb, mul, 6);
    var t13 := AddBase(t12, p, cb, mul, 12);
    var t14 := DblOf(t7, cb, mul, 7);
    var t15 := AddBase(t14, p, cb, mul, 14);
    var t16 := DblOf(t8, cb, mul, 8);
    t := [t1, t2, t3, t4, t5, t6, t7, t8, t9, t10, t11, t12, t13, t14, t15, t16];
  }

  lemma BaseAffine(cb: int, mul: int -> Affine, p: Jac)
    requires Prime(P) && Base(cb, mul, p) && p.Z == MONT_ONE
    ensures Multiples(cb, mul) && OrderN(mul) && AffinePt(AffineLimbs(p.X, p.Y)) == mul(1)
    ensures Is(mul, p, 1)
  {
    hide Multiples, Prime, OrderN, V, Pt, Val4;
    JacOfAffine(AffineLimbs(p.X, p.Y));
    Constants();
  }

  /** The branch for all other points. */
  method TableGeneral(p: Jac, ghost cb: int, ghost mul: int -> Affine) returns (t: seq<Jac>)
    requires Prime(P) && Multiples(cb, mul) && Is(mul, p, 1)
    ensures Table(mul, t)
  {
    hide Multiples, Is, Prime;
    var t1 := p;
    var t2 := DblOf(t1, cb, mul, 1);
    var t4 := DblOf(t2, cb, mul, 2);
    var t8 := DblOf(t4, cb, mul, 4);
    var t16 := DblOf(t8, cb, mul, 8);
    var t3 := AddOf(t2, p, cb, mul, 2, 1);
    var t6 := DblOf(t3, cb, mul, 3);
    var t12 := DblOf(t6, cb, mul, 6);
    var t5 := AddOf(t3, t2, cb, mul, 3, 2);
    var t10 := DblOf(t5, cb, mul, 5);
    var t7 := AddOf(t4, t3, cb, mul, 4, 3);
    var t14 := DblOf(t7, cb, mul, 7);
    var t9 := AddOf(t4, t5, cb, mul, 4, 5);
    var t11 := AddOf(t6, t5, cb, mul, 6, 5);
    var t13 := AddOf(t7, t6, cb, mul, 7, 6);
    var t15 := AddOf(t8, t7, cb, mul, 8, 7);
    t := [t1, t2, t3, t4, t5, t6, t7, t8, t9, t10, t11, t12, t13, t14, t15, t16];
  }

  /** sm2_z256_point_mul_pre_compute: slot j holds (j+1)P on both branches. */
  method PreCompute(p: Point, ghost cb: int, ghost mul: int -> Affine) returns (t: seq<Jac>)
    requires Prime(P) && Base(cb, mul, p.Val())
    ensures Table(mul, t)
  {
    hide Multiples, Is, Prime, Table, OrderN;
    if p.Z == MONT_ONE {
      t := TableMixed(p.Val(), cb, mul);
    } else {
      t := TableGeneral(p.Val(), cb, mul);
    }
  }

  // ---------- multiplication of a point ----------

  /** Five doublings. */
  method Dbl5(r: Point, ghost cb: int, ghost mul: int -> Affine, ghost i: int)
    requires Prime(P) && Multiples(cb, mul) && Is(mul, r.Val(), i)
    modifies r
    ensures Is(mul, r.Val(), 32 * i)
  {
    hide Multiples, Prime, EcAdd, Pt, Bounded;
    PointDbl(r, r);
    MulAdd(cb, mul, i, i);
    PointDbl(r, r);
    MulAdd(cb, mul, 2 * i, 2 * i);
    PointDbl(r, r);
    MulAdd(cb, mul, 4 * i, 4 * i);
    PointDbl(r, r);
    MulAdd(cb, mul, 8 * i, 8 * i);
    PointDbl(r, r);
    MulAdd(cb, mul, 16 * i, 16 * i);
  }

  /** Adds the multiple d from the table. */
  method AddDigit(r: Point, t: seq<Jac>, d: int, ghost cb: int, ghost mul: int -> Affine, ghost i: int)
    requires Prime(P) && Multiples(cb, mul) && Is(mul, r.Val(), i) && Table(mul, t) && -16 <= d <= 16
    modifies r
    ensures Is(mul, r.Val(), i + d)
  {
    hide Multiples, Prime, EcAdd, EcNeg, Pt, Bounded;
    if d > 0 {
      var b := new Point(t[d - 1]);
      PointAdd(r, r, b);
      MulAdd(cb, mul, i, d);
    } else if d < 0 {
      var b := new Point(t[-d - 1]);
      PointSub(r, r, b);
      MulNeg(cb, mul, -d);
      MulAdd(cb, mul, i, d);
    }
  }

  lemma TwoFive()
    ensures Two(4) == 16 && Two(5) == 32 && Two(6) == 64 && Two(7) == 128
  {
    TwoValues();
    TwoStep(4);
    TwoStep(5);
    TwoStep(6);
  }

  /** sm2_z256_point_mul_ex and the loop of sm2_z256_point_mul: kP for every 256-bit k. */
  method MulEx(r: Point, k: Fe, t: seq<Jac>, ghost cb: int, ghost mul: int -> Affine)
    requires Prime(P) && Multiples(cb, mul) && Table(mul, t)
    modifies r
    ensures Is(mul, r.Val(), Val4(k))
  {
    hide Multiples, Prime, Is, Digit, Upper, Val4, Two;
    Val4Range(k);
    TwoFive();
    ghost var a: nat := Val4(k);
    var infinity := true;
    UpperEnds(5, a, 52);
    for i := 52 downto 0
      invariant infinity ==> Upper(5, a, i) == 0
      invariant !infinity ==> Is(mul, r.Val(), Upper(5, a, i))
    {
      var booth := GetBooth(k, 5, i);
      DigitStep(5, a, i);
      if infinity {
        if booth != 0 {
          var e := t[booth - 1];
          r.X, r.Y, r.Z := e.X, e.Y, e.Z;
          assert r.Val() == e;
          infinity := false;
        }
      } else {
        Dbl5(r, cb, mul, Upper(5, a, i + 1));
        AddDigit(r, t, booth, cb, mul, 32 * Upper(5, a, i + 1));
      }
    }
    if infinity {
      r.X, r.Y, r.Z := ZERO, ZERO, ZERO;
      ZeroIsInfinity(cb, mul, r.Val());
    }
  }

  lemma ZeroIsInfinity(cb: int, mul: int -> Affine, j: Jac)
    requires Multiples(cb, mul) && j == Jac(ZERO, ZERO, ZERO)
    ensures Is(mul, j, 0)
  {
    hide Multiples, V;
    Constants();
    InfinityTest(j);
    MulOn(cb, mul, 0);
  }

  /** sm2_z256_point_mul. */
  method PointMul(r: Point, k: Fe, p: Point, ghost cb: int, ghost mul: int -> Affine)
    requires Prime(P) && Base(cb, mul, p.Val())
    modifies r
    ensures Is(mul, r.Val(), Val4(k))
  {
    hide Multiples, Prime, Is, Table, OrderN;
    var t := PreCompute(p, cb, mul);
    MulEx(r, k, t, cb, mul);
  }

  // ---------- multiplication of the generator ----------

  /** Row i, entry j of the table holds (j+1) * 2^(7i) * G. */
  ghost predicate GeneratorTable(mul: int -> Affine, tab: seq<seq<AffineLimbs>>) {
    && |tab| == 37
    && (forall i :: 0 <= i < 37 ==> |tab[i]| == 64)
    && (forall i, j :: 0 <= i < 37 && 0 <= j < 64 ==>
          S(tab[i][j].x) && S(tab[i][j].y) && AffinePt(tab[i][j]) == mul((j + 1) * Two(7 * i)))
  }

  /** n is odd, so a power of two cannot make a product divisible by it. */
  lemma {:induction false} CancelTwo(c: int, e: nat)
    requires (c * Two(e)) % N == 0
    ensures c % N == 0
  {
    if e > 0 {
      assert c * Two(e) == 2 * (c * Two(e - 1));
      HalveMultiple(c * Two(e - 1));
      CancelTwo(c, e - 1);
    }
  }

  lemma HalveMultiple(x: int)
    requires (2 * x) % N == 0
    ensures x % N == 0
  {
    var k := 2 * x / N;
    assert 2 * x == k * N;
    assert k % 2 == 0;
    assert x == (k / 2) * N;
  }

  lemma SmallUpper(a: nat, i: nat)
    requires a < R256 && i >= 2
    ensures Upper(7, a, i) < N / 256
  {
    hide Two, Upper, Digit;
    DigitIs(7, a, i);
    var s := 7 * i - 1;
    ShiftDownTwice(a, 13, s - 13);
    TwoValues();
    TwoAdd(8, 4);
    TwoAdd(12, 1);
    ShrinkBy(ShiftDown(a, 13), Two(s - 13));
  }

  lemma ShrinkBy(x: nat, t: nat)
    requires t > 0
    ensures x / t <= x
  {
    if x / t > x {
      MulAtLeast(t, x / t);
    }
  }

  /** When the running sum meets the point being added. */
  lemma Coincidence(a: nat, i: nat)
    requires a < R256 && i < 37 && Upper(7, a, i + 1) > 0
    ensures var w := 128 * Upper(7, a, i + 1) - Digit(7, a, i);
            w % N == 0 <==> i == 0 && a == N - 70
  {
    hide Two, Upper, Digit;
    TwoFive();
    DigitStep(7, a, i);
    if i > 0 {
      SmallUpper(a, i + 1);
    } else {
      UpperEnds(7, a, 37);
    }
  }

  lemma Scaled(u: int, d: int, i: nat)
    ensures u * Two(7 * (i + 1)) - d * Two(7 * i) == (128 * u - d) * Two(7 * i)
    ensures u * Two(7 * (i + 1)) + d * Two(7 * i) == (128 * u + d) * Two(7 * i)
  {
    hide Two;
    TwoFive();
    TwoAdd(7, 7 * i);
    var t := Two(7 * i);
    assert u * (128 * t) == (128 * u) * t;
    assert (128 * u - d) * t == (128 * u) * t - d * t;
    assert (128 * u + d) * t == (128 * u) * t + d * t;
  }

  lemma EntryMeaning(mul: int -> Affine, tab: seq<seq<AffineLimbs>>, i: nat, j: nat)
    requires OrderN(mul) && GeneratorTable(mul, tab) && i < 37 && j < 64
    ensures |tab| == 37 && |tab[i]| == 64 && S(tab[i][j].x) && S(tab[i][j].y)
    ensures AffinePt(tab[i][j]) == mul((j + 1) * Two(7 * i)) && AffinePt(tab[i][j]).Aff?
  {
    hide AffinePt, Two, OrderN;
    OrderAt(mul, (j + 1) * Two(7 * i));
    if mul((j + 1) * Two(7 * i)) == Inf {
      CancelTwo(j + 1, 7 * i);
    }
  }

  /** Adding digit d of row i to a running sum u * 2^(7(i+1)) * G. */
  method AddEntry(r: Point, tab: seq<seq<AffineLimbs>>, d: int, i: nat, ghost u: int, ghost cb: int, ghost mul: int -> Affine)
    requires Prime(P) && Multiples(cb, mul) && OrderN(mul) && GeneratorTable(mul, tab)
    requires i < 37 && -64 <= d <= 64 && d != 0 && Is(mul, r.Val(), u * Two(7 * (i + 1)))
    modifies r
    ensures Bounded(r.Val())
    ensures Pt(r.Val()) == if (128 * u - d) % N == 0 then Inf else mul((128 * u + d) * Two(7 * i))
  {
    hide Multiples, OrderN, GeneratorTable, Prime, EcAdd, EcNeg, Pt, Two, Val4, AffinePt;
    ghost var p, q := u * Two(7 * (i + 1)), d * Two(7 * i);
    Scaled(u, d, i);
    MulAdd(cb, mul, p, q);
    Meeting(cb, mul, u, d, i);
    if d > 0 {
      EntryMeaning(mul, tab, i, d - 1);
      AddAffine(r, r, tab[i][d - 1]);
    } else {
      EntryMeaning(mul, tab, i, -d - 1);
      assert (-d) * Two(7 * i) == -q;
      MulNeg(cb, mul, -q);
      SubAffine(r, r, tab[i][-d - 1]);
    }
  }

  /** The running sum and the entry are the same affine point exactly when n divides the difference. */
  lemma Meeting(cb: int, mul: int -> Affine, u: int, d: int, i: nat)
    requires Multiples(cb, mul) && OrderN(mul) && d != 0 && -64 <= d <= 64
    ensures mul(d * Two(7 * i)).Aff?
    ensures mul(u * Two(7 * (i + 1))) == mul(d * Two(7 * i)) <==> (128 * u - d) % N == 0
  {
    hide Multiples, Two, OrderN;
    var p, q, w := u * Two(7 * (i + 1)), d * Two(7 * i), 128 * u - d;
    Scaled(u, d, i);
    OrderAt(mul, q);
    OrderAt(mul, p - q);
    if mul(q) == Inf {
      CancelTwo(d, 7 * i);
    }
    if mul(p) == mul(q) {
      MulInjective(cb, mul, p, q);
      CancelTwo(w, 7 * i);
    }
    if w % N == 0 {
      MultipleScaled(w, Two(7 * i));
      assert mul(p - q) == Inf;
      MulAdd(cb, mul, p - q, q);
      Sums(mul(p - q), mul(q));
    }
  }

  lemma MultipleScaled(w: int, t: int)
    requires w % N == 0
    ensures (w * t) % N == 0
  {
    hide Cong;
    CongRemainders(w, 0, N);
    CongScale(w, 0, t, N);
    assert 0 * t == 0;
    CongRemainders(w * t, 0, N);
  }

  /** What sm2_z256_point_mul_generator returns for every 256-bit scalar. */
  ghost function GeneratorResult(mul: int -> Affine, k: int): Affine {
    if k == N - 70 then Inf else mul(k)
  }

  /** It is kG for every scalar but one; at n - 70 the last addition meets two equal points. */
  lemma GeneratorExact(mul: int -> Affine, k: int)
    requires OrderN(mul)
    ensures GeneratorResult(mul, k) == mul(k) <==> k != N - 70
  {
    OrderAt(mul, N - 70);
    assert (N - 70) % N != 0;
  }

  lemma InfinityEncoding(j: Jac)
    requires j == Jac(MONT_ONE, MONT_ONE, ZERO)
    ensures Bounded(j) && Pt(j) == Inf
  {
    hide V, Val4;
    Constants();
    InfinityTest(j);
  }

  /** The running sum once the windows from i upwards are done. */
  ghost function Running(mul: int -> Affine, a: nat, i: nat): Affine {
    if i == 0 then GeneratorResult(mul, a) else mul(Upper(7, a, i) * Two(7 * i))
  }

  /** One window: the first nonzero digit is positive, and later digits add as AddEntry does. */
  lemma RunningStep(mul: int -> Affine, a: nat, i: nat)
    requires a < R256 && i < 37
    ensures var u, d := Upper(7, a, i + 1), Digit(7, a, i);
            && -64 <= d <= 64
            && (u == 0 ==> d == Upper(7, a, i) && Running(mul, a, i) == mul(d * Two(7 * i)))
            && (u > 0 ==> Upper(7, a, i) > 0 && Running(mul, a, i + 1) == mul(u * Two(7 * (i + 1))))
            && (u > 0 ==> Running(mul, a, i) == if (128 * u - d) % N == 0 then Inf else mul((128 * u + d) * Two(7 * i)))
  {
    hide Digit, Upper, Two;
    TwoFive();
    DigitStep(7, a, i);
    UpperEnds(7, a, 37);
    assert Two(0) == 1 by { TwoNought(); }
    if Upper(7, a, i + 1) > 0 {
      Coincidence(a, i);
    }
  }

  /** sm2_z256_point_mul_generator. */
  method MulGenerator(r: Point, k: Fe, tab: seq<seq<AffineLimbs>>, ghost cb: int, ghost mul: int -> Affine)
    requires Prime(P) && Multiples(cb, mul) && OrderN(mul) && GeneratorTable(mul, tab)
    modifies r
    ensures Bounded(r.Val()) && Pt(r.Val()) == GeneratorResult(mul, Val4(k))
  {
    hide Multiples, OrderN, GeneratorTable, Prime, Pt, Val4, Two, Digit, Upper, Bounded, Running, GeneratorResult;
    Val4Range(k);
    ghost var a: nat := Val4(k);
    var infinity := true;
    UpperEnds(7, a, 37);
    for i := 37 downto 0
      invariant infinity <==> Upper(7, a, i) == 0
      invariant !infinity ==> Bounded(r.Val()) && Pt(r.Val()) == Running(mul, a, i)
    {
      var booth := GetBooth(k, 7, i);
      RunningStep(mul, a, i);
      if infinity {
        if booth != 0 {
          EntryMeaning(mul, tab, i, booth - 1);
          CopyAffine(r, tab[i][booth - 1]);
          infinity := false;
        }
      } else if booth != 0 {
        AddEntry(r, tab, booth, i, Upper(7, a, i + 1), cb, mul);
      } else {
        SkippedWindow(mul, a, i);
      }
    }
    RunningEnds(cb, mul, a);
    if infinity {
      r.X, r.Y, r.Z := MONT_ONE, MONT_ONE, ZERO;
      InfinityEncoding(r.Val());
    }
  }

  lemma SkippedWindow(mul: int -> Affine, a: nat, i: nat)
    requires a < R256 && i < 37 && Upper(7, a, i + 1) > 0 && Digit(7, a, i) == 0
    ensures Running(mul, a, i) == Running(mul, a, i + 1)
  {
    hide Digit, Upper, Two;
    RunningStep(mul, a, i);
    Coincidence(a, i);
    Scaled(Upper(7, a, i + 1), 0, i);
    TwoFive();
    DigitStep(7, a, i);
    UpperEnds(7, a, 37);
    SkippedIsNotExceptional(Upper(7, a, i + 1));
  }

  lemma SkippedIsNotExceptional(u: nat)
    ensures 128 * u != N - 70
  {
  }

  lemma RunningEnds(cb: int, mul: int -> Affine, a: nat)
    requires Multiples(cb, mul) && a < R256
    ensures Running(mul, a, 0) == GeneratorResult(mul, a) && Upper(7, a, 0) == a
    ensures a == 0 ==> GeneratorResult(mul, a) == Inf
  {
    hide Multiples, Upper;
    UpperEnds(7, a, 37);
    MulOn(cb, mul, 0);
  }

  /** sm2_z256_point_mul_sum: t*P + s*G, away from the generator's exceptional scalar. */
  method MulSum(r: Point, t: Fe, p: Point, s: Fe, tab: seq<seq<AffineLimbs>>,
                ghost cb: int, ghost mul: int -> Affine, ghost mulP: int -> Affine)
    requires Prime(P) && Multiples(cb, mul) && OrderN(mul) && GeneratorTable(mul, tab) && Base(cb, mulP, p.Val())
    requires r != p
    modifies r
    ensures Bounded(r.Val()) && Pt(r.Val()) == EcAdd(GeneratorResult(mul, Val4(s)), mulP(Val4(t)))
  {
    hide Multiples, OrderN, GeneratorTable, Prime, EcAdd, Pt, Val4, Base, Bounded;
    var q := new Point(Jac(ZERO, ZERO, ZERO));
    MulGenerator(r, s, tab, cb, mul);
    PointMul(q, t, p, cb, mulP);
    PointAdd(r, r, q);
  }
}
