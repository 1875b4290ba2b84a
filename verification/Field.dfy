/** Modular arithmetic of src/sm2_z256.c over the field prime p and the group order n.
    Both moduli use the same algorithms, so each routine takes the modulus' constants. */
module Field {
  import opened Modular
  import opened Z256

  /** A modulus m with the limb constants its routines use: m, 2^256 - m and -1/m mod 2^256. */
  datatype Modulus = Modulus(limbs: seq<uint64>, neg: seq<uint64>, prime: seq<uint64>)
  {
    predicate Sizes() {
      |limbs| == 4 && |neg| == 4 && |prime| == 4
    }

    function M(): int
      requires Sizes()
    {
      Val4(limbs)
    }

    predicate Valid() {
      && Sizes()
      && R256 / 2 < M() < R256 && M() % 2 == 1
      && Val4(neg) == R256 - M()
      && (Val4(prime) * M() + 1) % R256 == 0
    }
  }

  const MOD_P := Modulus(
    [0xffffffffffffffff, 0xffffffff00000000, 0xffffffffffffffff, 0xfffffffeffffffff],
    [1, 0xffffffff, 0, 0x100000000],
    [0x0000000000000001, 0xffffffff00000001, 0xfffffffe00000000, 0xfffffffc00000001])

  const MOD_N := Modulus(
    [0x53bbf40939d54123, 0x7203df6b21c6052b, 0xffffffffffffffff, 0xfffffffeffffffff],
    [0xac440bf6c62abedd, 0x8dfc2094de39fad4, 0x0000000000000000, 0x0000000100000000],
    [0x327f9e8872350975, 0xdf1e8d34fc8319a5, 0x2b0068d3b08941d4, 0x6f39132f82e4c7bc])

  const P: int := 0xfffffffeffffffffffffffffffffffffffffffff00000000ffffffffffffffff
  const N: int := 0xfffffffeffffffffffffffffffffffff7203df6b21c6052b53bbf40939d54123

  /** The constant tables in the source are consistent for both moduli. */
  lemma ModuliValid()
    ensures MOD_P.Valid() && MOD_P.M() == P
    ensures MOD_N.Valid() && MOD_N.M() == N
  {
  }

  method Constant(v: seq<uint64>) returns (a: array<uint64>)
    requires |v| == 4
    ensures fresh(a) && a.Length == 4 && a[..] == v
  {
    a := new uint64[4](i requires 0 <= i < 4 => v[i]);
  }

  /** sm2_z256_modp_add / modn_add: r may be an operand. */
  method ModAdd(md: Modulus, r: array<uint64>, a: array<uint64>, b: array<uint64>)
    requires md.Valid() && r.Length == 4 && a.Length == 4 && b.Length == 4
    requires Val4(a[..]) <= md.M() && Val4(b[..]) <= md.M()
    modifies r
    ensures var s := old(Val4(a[..])) + old(Val4(b[..]));
            Val4(r[..]) == if s >= md.M() then s - md.M() else s
  {
    hide Val4, Modulus.Valid;
    ModulusFacts(md);
    Val4Range(a[..]);
    Val4Range(b[..]);
    var c := Add(r, a, b);
    Val4Range(r[..]);
    if c != 0 {
      var neg := Constant(md.neg);
      var c' := Add(r, r, neg);
      Val4Range(r[..]);
      return;
    }
    var m := Constant(md.limbs);
    var k := Cmp(r, m);
    if k >= 0 {
      var c' := Sub(r, r, m);
      Val4Range(r[..]);
    }
  }

  method ModSub(md: Modulus, r: array<uint64>, a: array<uint64>, b: array<uint64>)
    requires md.Valid() && r.Length == 4 && a.Length == 4 && b.Length == 4
    requires Val4(a[..]) <= md.M() && Val4(b[..]) <= md.M()
    modifies r
    ensures var d := old(Val4(a[..])) - old(Val4(b[..]));
            Val4(r[..]) == if d < 0 then d + md.M() else d
  {
    hide Val4, Modulus.Valid;
    ModulusFacts(md);
    Val4Range(a[..]);
    Val4Range(b[..]);
    var c := Sub(r, a, b);
    Val4Range(r[..]);
    if c != 0 {
      var neg := Constant(md.neg);
      var c' := Sub(r, r, neg);
      Val4Range(r[..]);
    }
  }

  /** sm2_z256_modp_neg: the negative of zero is m itself, not zero. */
  method ModNeg(md: Modulus, r: array<uint64>, a: array<uint64>)
    requires md.Valid() && r.Length == 4 && a.Length == 4 && Val4(a[..]) <= md.M()
    modifies r
    ensures Val4(r[..]) == md.M() - old(Val4(a[..]))
  {
    hide Val4;
    var m := Constant(md.limbs);
    Val4Range(a[..]);
    var c := Sub(r, m, a);
    Val4Range(r[..]);
  }

  /** sm2_z256_modp_haf: halves a, adding m first when a is odd. */
  method ModHaf(md: Modulus, r: array<uint64>, a: array<uint64>)
    requires md.Valid() && r.Length == 4 && a.Length == 4 && Val4(a[..]) <= md.M()
    modifies r
    ensures Val4(r[..]) <= md.M() && 2 * Val4(r[..]) == old(Val4(a[..])) + (if old(Val4(a[..])) % 2 == 1 then md.M() else 0)
    ensures old(Val4(a[..])) < md.M() ==> Val4(r[..]) < md.M()
  {
    hide Val4;
    var c := MakeEven(md, r, a);
    HalveLimbs(r, c);
  }

  /** What the branches need to know about a modulus. */
  lemma ModulusFacts(md: Modulus)
    requires md.Valid()
    ensures md.Sizes() && R256 / 2 < md.M() < R256 && md.M() % 2 == 1 && Val4(md.neg) == R256 - md.M()
  {
    hide Val4;
  }

  method MakeEven(md: Modulus, r: array<uint64>, a: array<uint64>) returns (c: uint64)
    requires md.Valid() && r.Length == 4 && a.Length == 4
    modifies r
    ensures c <= 1 && (Val4(r[..]) + R256 * c) % 2 == 0
    ensures Val4(r[..]) + R256 * c == old(Val4(a[..])) + if old(Val4(a[..])) % 2 == 1 then md.M() else 0
  {
    hide Val4, Modulus.Valid;
    ModulusFacts(md);
    c := 0;
    ghost var s: seq<int> := a[..];
    Parity(s);
    assert s[0] == a[0];
    if a[0] % 2 == 1 {
      var m := Constant(md.limbs);
      assert a[..] == s && Val4(m[..]) == md.M();
      c := Add(r, a, m);
    } else {
      assert a[0..4] == s;
      Copy(r, a, 0);
    }
  }

  lemma Parity(a: seq<int>)
    requires |a| == 4
    ensures Val4(a) % 2 == a[0] % 2
  {
  }

  method HalveLimbs(r: array<uint64>, c: uint64)
    requires r.Length == 4 && c <= 1 && (Val4(r[..]) + R256 * c) % 2 == 0
    modifies r
    ensures 2 * Val4(r[..]) == old(Val4(r[..])) + R256 * c
  {
    hide Val4;
    ghost var w: seq<int> := r[..];
    r[0] := r[0] / 2 + (r[1] % 2) * 0x8000_0000_0000_0000;
    r[1] := r[1] / 2 + (r[2] % 2) * 0x8000_0000_0000_0000;
    r[2] := r[2] / 2 + (r[3] % 2) * 0x8000_0000_0000_0000;
    r[3] := r[3] / 2 + c * 0x8000_0000_0000_0000;
    ShiftRight(w, r[..], c);
  }

  lemma ShiftRight(w: seq<int>, r: seq<int>, c: int)
    requires |w| == |r| == 4 && 0 <= c <= 1 && (Val4(w) + R256 * c) % 2 == 0
    requires r[0] == w[0] / 2 + (w[1] % 2) * 0x8000_0000_0000_0000
    requires r[1] == w[1] / 2 + (w[2] % 2) * 0x8000_0000_0000_0000
    requires r[2] == w[2] / 2 + (w[3] % 2) * 0x8000_0000_0000_0000
    requires r[3] == w[3] / 2 + c * 0x8000_0000_0000_0000
    ensures 2 * Val4(r) == Val4(w) + R256 * c
  {
    assert w[0] % 2 == 0;
  }

  // ---------- Montgomery multiplication ----------

  /** Adding t*m with t = z * (-1/m) clears the low 256 bits of z. */
  lemma LowBitsVanish(z: int, zlo: int, zhi: int, t: int, k: int, mp: int, m: int)
    requires z == zlo + R256 * zhi && zlo * mp == t + R256 * k && (mp * m + 1) % R256 == 0
    ensures (z + t * m) % R256 == 0
  {
    hide Cong;
    var e := (mp * m + 1) / R256;
    assert mp * m + 1 == R256 * e;
    var q := zhi + zlo * e - k * m;
    assert t * m == zlo * (mp * m) - R256 * (k * m) by {
      assert (zlo * mp) * m == (t + R256 * k) * m;
      assert (zlo * mp) * m == zlo * (mp * m);
      assert (t + R256 * k) * m == t * m + R256 * (k * m);
    }
    assert zlo * (mp * m) == zlo * (R256 * e) - zlo by {
      assert zlo * (mp * m + 1) == zlo * (mp * m) + zlo;
    }
    assert zlo * (R256 * e) == R256 * (zlo * e);
    assert z + t * m == R256 * q by {
      assert R256 * q == R256 * zhi + R256 * (zlo * e) - R256 * (k * m);
    }
    ExactMultiple(z + t * m, q);
  }

  lemma ExactMultiple(a: int, q: int)
    requires a == R256 * q
    ensures a % R256 == 0
  {
  }

  /** The high half of z + t*m is z / 2^256 modulo m and less than 2m. */
  lemma HighHalf(z: int, t: int, m: int, h: int)
    requires 0 <= z < m * R256 && 0 <= t < R256 && m > 0 && z + t * m == R256 * h
    ensures 0 <= h < 2 * m && Cong(h * R256, z, m)
  {
    CongFromMultiple(h * R256, z, t, m);
    assert t * m < R256 * m by { assert (R256 - t) * m > 0; assert (R256 - t) * m == R256 * m - t * m; }
    assert 0 <= t * m;
  }

  /** sm2_z256_modp_mont_mul / modn_mont_mul: a * b / 2^256 modulo m, fully reduced. */
  method MontMul(md: Modulus, r: array<uint64>, a: array<uint64>, b: array<uint64>)
    requires md.Valid() && r.Length == 4 && a.Length == 4 && b.Length == 4
    requires Val4(a[..]) * Val4(b[..]) < md.M() * R256
    modifies r
    ensures 0 <= Val4(r[..]) < md.M()
    ensures Cong(Val4(r[..]) * R256, old(Val4(a[..])) * old(Val4(b[..])), md.M())
  {
    hide Val4, Cong;
    ghost var m := md.M();
    Val4Range(a[..]);
    Val4Range(b[..]);
    ghost var zv := Val4(a[..]) * Val4(b[..]);
    MulNonneg(Val4(a[..]), Val4(b[..]));
    var z, t := new uint64[8], new uint64[8];
    Mul(z, a, b);
    ghost var z0: seq<int> := z[..];
    var prime := Constant(md.prime);
    Mul(t, z, prime);
    ghost var t0: seq<int> := t[..];
    PrefixVal(z0);
    PrefixVal(t0);
    var mm := Constant(md.limbs);
    Mul(t, t, mm);
    LowBitsVanish(zv, Val4(z0[..4]), Val4(z0[4..]), Val4(t0[..4]), Val4(t0[4..]), Val4(md.prime), m);
    ghost var tv := Val4(t0[..4]);
    Val4Range(t0);
    assert Val8(t[..]) == tv * m;
    var c := Add8(z, t);
    Copy(r, z, 4);
    ghost var z1: seq<int> := z[..];
    assert z1[4..8] == z1[4..];
    assert Val8(z1) + R256 * R256 * c == zv + tv * m;
    ghost var h := HighLimbs(z1, c, zv + tv * m);
    assert h == Val4(r[..]) + R256 * c;
    HighHalf(zv, tv, m, h);
    Val4Range(r[..]);
    FinalSubtraction(md, r, c, mm, h, zv);
  }

  lemma MulNonneg(a: int, b: int)
    requires a >= 0 && b >= 0
    ensures a * b >= 0
  {
  }

  lemma PrefixVal(s: seq<int>)
    requires |s| == 8
    ensures Val4(s[..4]) == Val4(s) && Val8(s) == Val4(s[..4]) + R256 * Val4(s[4..])
  {
  }

  /** When the 513-bit sum is a multiple of 2^256, its quotient is the carry and high limbs. */
  lemma HighLimbs(z: seq<int>, c: int, total: int) returns (h: int)
    requires |z| == 8 && Limbs(z) && 0 <= c <= 1 && total % R256 == 0
    requires Val8(z) + R256 * R256 * c == total
    ensures h == Val4(z[4..]) + R256 * c && total == R256 * h
  {
    hide Val4, Val8;
    h := Val4(z[4..]) + R256 * c;
    Val4Range(z[..4]);
    PrefixVal(z);
    NoLowPart(Val4(z[..4]), h);
  }

  lemma NoLowPart(lo: int, h: int)
    requires 0 <= lo < R256 && (lo + R256 * h) % R256 == 0
    ensures lo == 0
  {
  }

  method FinalSubtraction(md: Modulus, r: array<uint64>, c: uint64, mm: array<uint64>, ghost h: int, ghost zv: int)
    requires md.Valid() && r.Length == 4 && mm.Length == 4 && mm != r && mm[..] == md.limbs && c <= 1
    requires h == Val4(r[..]) + R256 * c && 0 <= h < 2 * md.M() && Cong(h * R256, zv, md.M())
    modifies r
    ensures 0 <= Val4(r[..]) < md.M() && Cong(Val4(r[..]) * R256, zv, md.M())
  {
    hide Val4, Cong, Modulus.Valid;
    ModulusFacts(md);
    ghost var m := md.M();
    Reduced(h, m, zv);
    Val4Range(r[..]);
    if c != 0 {
      var neg := Constant(md.neg);
      var c' := Add(r, r, neg);
      Val4Range(r[..]);
      assert Val4(r[..]) == h - m;
    } else {
      var k := Cmp(r, mm);
      if k >= 0 {
        var c' := Sub(r, r, mm);
        Val4Range(r[..]);
        assert Val4(r[..]) == h - m;
      }
    }
  }

  lemma Reduced(h: int, m: int, zv: int)
    requires m > 0 && Cong(h * R256, zv, m)
    ensures Cong((h - m) * R256, zv, m)
  {
    assert (h - m) * R256 == h * R256 + (-R256) * m;
    CongFromMultiple((h - m) * R256, h * R256, -R256, m);
    CongTrans((h - m) * R256, h * R256, zv, m);
  }
}
