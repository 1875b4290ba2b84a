/** The exponentiation loops and fixed addition chains of src/sm2_z256.c, and why
    they invert: the exponents are p - 2 and n - 2. */
module FieldInv {
  import opened Common
  import opened Modular
  import opened NumberTheory
  import opened Z256
  import opened Field
  import opened FieldElem

  lemma TwoValues()
    ensures Two(1) == 2 && Two(2) == 4 && Two(4) == 16 && Two(8) == 256 && Two(31) == 0x80000000
    ensures Two(32) == 0x1_0000_0000 && Two(33) == 0x2_0000_0000
  {
    hide Two;
    TwoOne();
    TwoAdd(1, 1);
    TwoAdd(2, 2);
    TwoAdd(4, 4);
    TwoAdd(8, 8);
    TwoAdd(16, 16);
    TwoAdd(1, 32);
    TwoAdd(1, 31);
  }

  lemma TwoOne()
    ensures Two(1) == 2
  {
  }

  lemma {:induction false} TwoAdd(i: nat, j: nat)
    ensures Two(i + j) == Two(i) * Two(j)
  {
    if i > 0 {
      TwoAdd(i - 1, j);
      assert 2 * (Two(i - 1) * Two(j)) == (2 * Two(i - 1)) * Two(j);
    }
  }

  lemma FirstPower(md: Modulus, a: Fe)
    requires md.Valid() && Strict(md, a)
    ensures IsPow(md, a, Of(md, a), 1)
  {
    hide Of, Strict, Cong;
    var g := Of(md, a);
    assert Pow(g, 1) == g * Pow(g, 0) && Pow(g, 0) == 1;
    CongSelf(g, md.M());
  }

  /** The leading run of ones: a^(2^31 - 1). */
  method InvHead(a: Fe, ghost g: int) returns (a1: Fe, a2: Fe, a5: Fe)
    requires MOD_P.Valid() && IsPow(MOD_P, a, g, 1)
    ensures IsPow(MOD_P, a1, g, 2) && IsPow(MOD_P, a2, g, 3) && IsPow(MOD_P, a5, g, 0x7fffffff)
  {
    hide IsPow, Two;
    TwoValues();
    var md := MOD_P;
    a1 := Times(md, a, a, g, 1, 1);
    a2 := Times(md, a1, a, g, 2, 1);
    var a3 := SqrN(md, a2, 2, g, 3);
    a3 := Times(md, a3, a2, g, 12, 3);
    var a4 := SqrN(md, a3, 4, g, 15);
    a4 := Times(md, a4, a3, g, 240, 15);
    a5 := SqrN(md, a4, 8, g, 0xff);
    a5 := Times(md, a5, a4, g, 0xff00, 0xff);
    a5 := SqrN(md, a5, 8, g, 0xffff);
    a5 := Times(md, a5, a4, g, 0xffff00, 0xff);
    a5 := SqrN(md, a5, 4, g, 0xffffff);
    a5 := Times(md, a5, a3, g, 0xffffff0, 0xf);
    a5 := SqrN(md, a5, 2, g, 0xfffffff);
    a5 := Times(md, a5, a2, g, 0x3ffffffc, 3);
    a5 := SqrN(md, a5, 1, g, 0x3fffffff);
    a5 := Times(md, a5, a, g, 0x7ffffffe, 1);
  }

  /** One of the four repeated blocks: 32 squarings of a5, then a2, a3 and a4 are extended. */
  method InvBlock(x3: Fe, x4: Fe, x5: Fe, ghost g: int, ghost e3: nat, ghost e4: nat, ghost e5: nat)
    returns (a3: Fe, a4: Fe, a5: Fe)
    requires MOD_P.Valid() && IsPow(MOD_P, x3, g, e3) && IsPow(MOD_P, x4, g, e4) && IsPow(MOD_P, x5, g, e5)
    ensures IsPow(MOD_P, a5, g, e5 * 0x1_0000_0000)
    ensures IsPow(MOD_P, a3, g, e5 * 0x1_0000_0000 + e3 + e3)
    ensures IsPow(MOD_P, a4, g, e5 * 0x1_0000_0000 + e3 + e4)
  {
    hide IsPow, Two;
    TwoValues();
    var md := MOD_P;
    a5 := SqrN(md, x5, 32, g, e5);
    ghost var f5: nat := e5 * 0x1_0000_0000;
    var a2 := Times(md, a5, x3, g, f5, e3);
    a3 := Times(md, a2, x3, g, f5 + e3, e3);
    a4 := Times(md, a2, x4, g, f5 + e3, e4);
  }

  /** sm2_z256_modp_mont_inv: a^(p-2) by a fixed chain. */
  method MontInvP(a: Fe) returns (r: Fe)
    requires MOD_P.Valid() && Strict(MOD_P, a)
    ensures IsPow(MOD_P, r, Of(MOD_P, a), P - 2)
  {
    hide Of, IsPow, Two, Strict;
    TwoValues();
    ghost var g := Of(MOD_P, a);
    var md := MOD_P;
    FirstPower(md, a);
    var a1, a2, a5 := InvHead(a, g);
    var a4 := SqrN(md, a5, 1, g, 0x7fffffff);
    var a3 := Times(md, a4, a1, g, 0xfffffffe, 2);
    a5 := SqrN(md, a4, 31, g, 0xfffffffe);
    a4 := Times(md, a5, a4, g, 0x7fffffff00000000, 0xfffffffe);
    a4 := SqrN(md, a4, 1, g, 0x7ffffffffffffffe);
    a4 := Times(md, a4, a, g, 0xfffffffffffffffc, 1);
    a3 := Times(md, a4, a2, g, 0xfffffffffffffffd, 3);
    a5 := SqrN(md, a5, 33, g, 0x7fffffff00000000);
    a2 := Times(md, a5, a3, g, 0xfffffffe0000000000000000, 0x10000000000000000);
    a3 := Times(md, a2, a3, g, 0xffffffff0000000000000000, 0x10000000000000000);
    a3, a4, a5 := InvBlock(a3, a4, a5, g, 0x1000000000000000000000000, 0xfffffffffffffffd, 0xfffffffe0000000000000000);
    a3, a4, a5 := InvBlock(a3, a4, a5, g, 0x100000000000000000000000000000000,
                           0xffffffff00000000fffffffffffffffd, 0xfffffffe000000000000000000000000);
    a3, a4, a5 := InvBlock(a3, a4, a5, g, 0x10000000000000000000000000000000000000000,
                           0xffffffffffffffff00000000fffffffffffffffd, 0xfffffffe00000000000000000000000000000000);
    a3, a4, a5 := InvBlock(a3, a4, a5, g, 0x1000000000000000000000000000000000000000000000000,
                           0xffffffffffffffffffffffff00000000fffffffffffffffd, 0xfffffffe0000000000000000000000000000000000000000);
    a5 := SqrN(md, a5, 32, g, 0xfffffffe000000000000000000000000000000000000000000000000);
    r := Times(md, a4, a5, g, 0xffffffffffffffffffffffffffffffff00000000fffffffffffffffd,
               0xfffffffe00000000000000000000000000000000000000000000000000000000);
  }


  // ---------- square-and-multiply ----------

  /** The loop state after j bits of the limb e: lo is what remains, w is lo left-aligned,
      and f is k followed by the bits consumed. */
  ghost predicate ExpState(k: int, e: int, j: nat, f: int, w: int, lo: int) {
    j <= 64 && 0 <= lo < Two(64 - j) && w == lo * Two(j)
    && e == (f - k * Two(j)) * Two(64 - j) + lo
  }

  lemma ExpStart(k: int, e: int)
    requires 0 <= e < B64
    ensures ExpState(k, e, 0, k, e, e)
  {
    assert Two(0) == 1 && Two(64) == B64 by { TwoSixtyFour(); }
    assert (k - k * 1) * B64 == 0;
  }

  lemma TwoSixtyFour()
    ensures Two(64) == B64
  {
    TwoValues();
    TwoAdd(32, 32);
  }

  lemma ExpNext(k: int, e: int, j: nat, f: int, w: int, lo: int)
    requires ExpState(k, e, j, f, w, lo) && j < 64
    ensures 0 <= w < B64
    ensures var bit := if w >= 0x8000_0000_0000_0000 then 1 else 0;
            ExpState(k, e, j + 1, 2 * f + bit, (w * 2) % B64, lo - bit * Two(63 - j))
  {
    hide Two;
    var u, t := Two(63 - j), Two(j);
    assert Two(64 - j) == 2 * u && Two(j + 1) == 2 * t && u > 0 && t > 0 by { TwoStep(63 - j); TwoStep(j); }
    assert u * t == 0x8000_0000_0000_0000 by { TwoSixtyFour(); TwoStep(63); TwoAdd(63 - j, j); }
    var bit := if w >= 0x8000_0000_0000_0000 then 1 else 0;
    TopBit(lo, u, t, w);
    var lo' := if lo >= u then lo - u else lo;
    assert bit * u == if lo >= u then u else 0;
    assert lo' == lo - bit * u && 0 <= lo' < u;
    Consumed(f, k, t, u, lo, bit);
    assert 64 - (j + 1) == 63 - j;
    assert (w * 2) % B64 == lo' * Two(j + 1);
    assert e == (2 * f + bit - k * Two(j + 1)) * Two(64 - (j + 1)) + lo';
  }

  lemma TwoStep(k: nat)
    ensures Two(k + 1) == 2 * Two(k) && Two(k) > 0
  {
  }

  lemma TopBit(lo: int, u: int, t: int, w: int)
    requires 0 <= lo < 2 * u && u > 0 && t > 0 && w == lo * t && u * t == 0x8000_0000_0000_0000
    ensures 0 <= w < B64 && (w >= 0x8000_0000_0000_0000 <==> lo >= u)
    ensures (w * 2) % B64 == (if lo >= u then lo - u else lo) * (2 * t)
  {
    var d := if lo >= u then lo - u else lo;
    assert 0 <= d * t < 0x8000_0000_0000_0000 by { BelowProduct(d, u, t); }
    assert (lo - u) * t == lo * t - u * t;
    assert d * (2 * t) == 2 * (d * t);
  }

  lemma BelowProduct(d: int, u: int, t: int)
    requires 0 <= d < u && t > 0
    ensures 0 <= d * t < u * t
  {
    MulAtLeast(u - d, t);
    assert (u - d) * t == u * t - d * t;
  }

  lemma Consumed(f: int, k: int, t: int, u: int, lo: int, bit: int)
    ensures (f - k * t) * (2 * u) + lo == (2 * f + bit - k * (2 * t)) * u + (lo - bit * u)
  {
    var d := f - k * t;
    assert k * (2 * t) == 2 * (k * t);
    assert 2 * f + bit - k * (2 * t) == 2 * d + bit;
    assert (2 * d + bit) * u == (2 * d) * u + bit * u;
    assert (2 * d) * u == d * (2 * u);
  }

  lemma ExpEnd(k: int, e: int, f: int, w: int, lo: int)
    requires ExpState(k, e, 64, f, w, lo)
    ensures f == k * B64 + e
  {
    TwoSixtyFour();
    assert Two(0) == 1;
  }

  /** One limb of the exponent, most significant bit first. */
  method ExpLimb(md: Modulus, x: Fe, a: Fe, e: uint64, ghost g: int, ghost k: nat) returns (t: Fe)
    requires md.Valid() && IsPow(md, x, g, k) && IsPow(md, a, g, 1)
    ensures IsPow(md, t, g, k * B64 + e)
  {
    hide IsPow, Two, ExpState;
    t := x;
    var w: int := e;
    ghost var f: nat := k;
    ghost var lo: int := e;
    ExpStart(k, e);
    for j := 0 to 64
      invariant IsPow(md, t, g, f) && 0 <= w < B64
      invariant ExpState(k, e, j, f, w, lo)
    {
      ExpNext(k, e, j, f, w, lo);
      t := Times(md, t, t, g, f, f);
      f := f + f;
      if w >= 0x8000_0000_0000_0000 {
        t := Times(md, t, a, g, f, 1);
        f := f + 1;
        lo := lo - Two(63 - j);
      }
      w := (w * 2) % B64;
    }
    ExpEnd(k, e, f, w, lo);
  }

  /** sm2_z256_modp_mont_exp / modn_mont_exp: a^e for a four-limb exponent. */
  method MontExp(md: Modulus, a: Fe, e: Fe) returns (r: Fe)
    requires md.Valid() && Strict(md, a)
    ensures Val4(e) >= 0 && IsPow(md, r, Of(md, a), Val4(e))
  {
    hide IsPow, Of, Strict;
    ghost var g := Of(md, a);
    FirstPower(md, a);
    var t := md.neg;
    MontOne(md, g);
    ghost var k: nat := 0;
    t := ExpLimb(md, t, a, e[3], g, k);
    k := k * B64 + e[3];
    t := ExpLimb(md, t, a, e[2], g, k);
    k := k * B64 + e[2];
    t := ExpLimb(md, t, a, e[1], g, k);
    k := k * B64 + e[1];
    r := ExpLimb(md, t, a, e[0], g, k);
    Horner(e);
  }

  lemma Horner(e: Fe)
    ensures ((e[3] * B64 + e[2]) * B64 + e[1]) * B64 + e[0] == Val4(e)
  {
  }

  /** 2^256 - m is the Montgomery form of one. */
  lemma MontOne(md: Modulus, g: int)
    requires md.Valid()
    ensures IsPow(md, md.neg, g, 0)
  {
    hide RInv, Cong, Val4;
    var m, e := md.M(), RInv(md);
    CongFromMultiple(R256 - m, R256, -1, m);
    DecOfCong(md, R256 - m, R256);
    RInvInverts(md);
    assert Pow(g, 0) == 1;
    DecCong(md, R256);
    CongTrans(Dec(md, R256), R256 * e, 1, m);
  }

  /** k rounds of square-then-multiply append k one bits to the exponent. */
  method AppendOnes(md: Modulus, x: Fe, a: Fe, k: nat, ghost g: int, ghost e: nat) returns (t: Fe)
    requires md.Valid() && IsPow(md, x, g, e) && IsPow(md, a, g, 1)
    ensures (e + 1) * Two(k) >= 1 && IsPow(md, t, g, (e + 1) * Two(k) - 1)
  {
    hide IsPow, Two;
    t := x;
    ghost var f: nat := e;
    assert Two(0) == 1 by { TwoNought(); }
    for i := 0 to k
      invariant IsPow(md, t, g, f) && f + 1 == (e + 1) * Two(i)
    {
      t := Times(md, t, t, g, f, f);
      t := Times(md, t, a, g, f + f, 1);
      f := f + f + 1;
      TwoStep(i);
      Doubled(e + 1, Two(i));
    }
  }

  lemma TwoNought()
    ensures Two(0) == 1
  {
  }

  lemma TwoNinetySix()
    ensures Two(30) == 0x40000000 && Two(96) == 0x1_00000000_00000000_00000000
  {
    TwoValues();
    TwoAdd(32, 32);
    TwoAdd(32, 64);
    TwoStep(30);
  }

  /** sm2_z256_modn_mont_inv: a^(n-2), using the runs of ones in n - 2. */
  method MontInvN(a: Fe) returns (r: Fe)
    requires MOD_N.Valid() && Strict(MOD_N, a)
    ensures IsPow(MOD_N, r, Of(MOD_N, a), N - 2)
  {
    hide IsPow, Of, Strict, Two;
    TwoNinetySix();
    TwoValues();
    ghost var g := Of(MOD_N, a);
    var md := MOD_N;
    FirstPower(md, a);
    var t := AppendOnes(md, a, a, 30, g, 1);
    t := SqrN(md, t, 1, g, 0x7fffffff);
    t := AppendOnes(md, t, a, 96, g, 0xfffffffe);
    t := ExpLimb(md, t, a, 0x7203df6b21c6052b, g, 0xfffffffeffffffffffffffffffffffff);
    r := ExpLimb(md, t, a, 0x53bbf40939d54121, g, 0xfffffffeffffffffffffffffffffffff7203df6b21c6052b);
  }

  // ---------- inverses ----------

  /** A power with exponent m - 2 is the inverse modulo a prime m. */
  lemma PowerInverts(md: Modulus, x: Fe, g: int, e: nat)
    requires md.Valid() && Prime(md.M()) && 0 < g < md.M() && e == md.M() - 2 && IsPow(md, x, g, e)
    ensures Cong(g * Of(md, x), 1, md.M())
  {
    hide Of, Pow, Strict, Prime;
    var m := md.M();
    UnitNotDivisible(g, m);
    FermatInverse(g, m);
    CongScale(Of(md, x), Pow(g, e), g, m);
    CongTrans(g * Of(md, x), g * Pow(g, e), 1, m);
  }

  /** The fixed chain modulo p inverts every nonzero element; it maps zero to zero. */
  method FeInvP(a: Fe) returns (r: Fe)
    requires MOD_P.Valid() && Strict(MOD_P, a) && Prime(P)
    ensures Strict(MOD_P, r)
    ensures Of(MOD_P, a) != 0 ==> Cong(Of(MOD_P, a) * Of(MOD_P, r), 1, P)
    ensures Of(MOD_P, a) == 0 ==> Of(MOD_P, r) == 0
  {
    hide Of, Strict, Prime, Pow;
    r := MontInvP(a);
    ghost var g := Of(MOD_P, a);
    ModuliValid();
    if g != 0 {
      PowerInverts(MOD_P, r, g, P - 2);
    } else {
      PowZero(P - 2);
      CongCanonical(Of(MOD_P, r), 0, P);
    }
  }

  lemma PowZero(e: nat)
    requires e > 0
    ensures Pow(0, e) == 0
  {
  }

  method FeInvN(a: Fe) returns (r: Fe)
    requires MOD_N.Valid() && Strict(MOD_N, a) && Prime(N)
    ensures Strict(MOD_N, r)
    ensures Of(MOD_N, a) != 0 ==> Cong(Of(MOD_N, a) * Of(MOD_N, r), 1, N)
    ensures Of(MOD_N, a) == 0 ==> Of(MOD_N, r) == 0
  {
    hide Of, Strict, Prime, Pow;
    r := MontInvN(a);
    ghost var g := Of(MOD_N, a);
    ModuliValid();
    if g != 0 {
      PowerInverts(MOD_N, r, g, N - 2);
    } else {
      PowZero(N - 2);
      CongCanonical(Of(MOD_N, r), 0, N);
    }
  }
}
