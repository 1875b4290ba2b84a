/** Multi-limb integer arithmetic of src/sm2_z256.c: carry chains on 64-bit limbs and
    the 32-bit schoolbook product, with the result array allowed to be an operand. */
module Z256 {
  import opened Modular

  const B64: int := 0x1_0000_0000_0000_0000
  const B32: int := 0x1_0000_0000
  const R256: int := 0x1_0000000000000000_0000000000000000_0000000000000000_0000000000000000

  type uint64 = x: int | 0 <= x < 0x1_0000_0000_0000_0000

  /** The integer denoted by four little-endian limbs. */
  function Val4(a: seq<int>): int
    requires |a| >= 4
  {
    a[0] + B64 * (a[1] + B64 * (a[2] + B64 * a[3]))
  }

  function Val8(a: seq<int>): int
    requires |a| >= 8
  {
    Val4(a[..4]) + R256 * Val4(a[4..])
  }

  predicate Limbs(a: seq<int>) {
    forall i :: 0 <= i < |a| ==> 0 <= a[i] < B64
  }

  lemma Val4Range(a: seq<int>)
    requires |a| >= 4 && Limbs(a[..4])
    ensures 0 <= Val4(a) < R256
  {
    assert a[..4][0] == a[0] && a[..4][1] == a[1] && a[..4][2] == a[2] && a[..4][3] == a[3];
  }

  /** Limb representations are unique. */
  lemma Val4Injective(a: seq<int>, b: seq<int>)
    requires |a| == |b| == 4 && Limbs(a) && Limbs(b) && Val4(a) == Val4(b)
    ensures a == b
  {
    var x, y := a[1] + B64 * (a[2] + B64 * a[3]), b[1] + B64 * (b[2] + B64 * b[3]);
    LowLimb(a[0], x, b[0], y);
    LowLimb(a[1], a[2] + B64 * a[3], b[1], b[2] + B64 * b[3]);
    LowLimb(a[2], a[3], b[2], b[3]);
  }

  lemma LowLimb(a: int, x: int, b: int, y: int)
    requires 0 <= a < B64 && 0 <= b < B64 && a + B64 * x == b + B64 * y
    ensures a == b && x == y
  {
  }

  // ---------- one limb of a carry chain ----------

  /** 64-bit addition wraps; the carry is detected by comparison. */
  method AddCarry(a: uint64, b: uint64, c: uint64) returns (r: uint64, cout: uint64)
    requires c <= 1
    ensures r + B64 * cout == a + b + c && cout <= 1
  {
    var t := (a + c) % B64;
    cout := if t < a then 1 else 0;
    r := (t + b) % B64;
    cout := cout + if r < t then 1 else 0;
  }

  method SubBorrow(a: uint64, b: uint64, c: uint64) returns (r: uint64, cout: uint64)
    requires c <= 1
    ensures r - B64 * cout == a - b - c && cout <= 1
  {
    var t := (a - c) % B64;
    cout := if t > a then 1 else 0;
    r := (t - b) % B64;
    cout := cout + if r > t then 1 else 0;
  }

  // ---------- 256-bit operations ----------

  method Copy(r: array<uint64>, a: array<uint64>, off: nat)
    requires r.Length == 4 && off + 4 <= a.Length
    modifies r
    ensures r[..] == old(a[off..off + 4])
  {
    r[0], r[1], r[2], r[3] := a[off], a[off + 1], a[off + 2], a[off + 3];
  }

  /** sm2_z256_add: r may be a or b. */
  method Add(r: array<uint64>, a: array<uint64>, b: array<uint64>) returns (c: uint64)
    requires r.Length == 4 && a.Length == 4 && b.Length == 4
    modifies r
    ensures c <= 1
    ensures Val4(r[..]) + R256 * c == old(Val4(a[..])) + old(Val4(b[..]))
  {
    var r0, r1, r2, r3;
    ghost var a0, b0 := a[..], b[..];
    r0, c := AddCarry(a[0], b[0], 0);
    ghost var c1 := c;
    r[0] := r0;
    r1, c := AddCarry(a[1], b[1], c);
    ghost var c2 := c;
    r[1] := r1;
    r2, c := AddCarry(a[2], b[2], c);
    ghost var c3 := c;
    r[2] := r2;
    r3, c := AddCarry(a[3], b[3], c);
    r[3] := r3;
    assert r[..] == [r0, r1, r2, r3];
    ChainSum(a0, b0, r[..], c1, c2, c3, c);
  }

  lemma ChainSum(a: seq<int>, b: seq<int>, r: seq<int>, c1: int, c2: int, c3: int, c4: int)
    requires |a| == |b| == |r| == 4
    requires r[0] + B64 * c1 == a[0] + b[0] && r[1] + B64 * c2 == a[1] + b[1] + c1
    requires r[2] + B64 * c3 == a[2] + b[2] + c2 && r[3] + B64 * c4 == a[3] + b[3] + c3
    ensures Val4(r) + R256 * c4 == Val4(a) + Val4(b)
  {
  }

  /** sm2_z256_sub: r may be a or b. */
  method Sub(r: array<uint64>, a: array<uint64>, b: array<uint64>) returns (c: uint64)
    requires r.Length == 4 && a.Length == 4 && b.Length == 4
    modifies r
    ensures c <= 1
    ensures Val4(r[..]) - R256 * c == old(Val4(a[..])) - old(Val4(b[..]))
  {
    var r0, r1, r2, r3;
    ghost var a0, b0 := a[..], b[..];
    r0, c := SubBorrow(a[0], b[0], 0);
    ghost var c1: int := c;
    r[0] := r0;
    r1, c := SubBorrow(a[1], b[1], c);
    ghost var c2: int := c;
    r[1] := r1;
    r2, c := SubBorrow(a[2], b[2], c);
    ghost var c3: int := c;
    r[2] := r2;
    r3, c := SubBorrow(a[3], b[3], c);
    r[3] := r3;
    assert r[..] == [r0, r1, r2, r3];
    ghost var c4: int := c;
    ChainSum(a0, Negated(b0), r[..], -c1, -c2, -c3, -c4);
    assert Val4(Negated(b0)) == -Val4(b0);
  }

  ghost function Negated(b: seq<int>): (r: seq<int>)
    requires |b| == 4
    ensures |r| == 4
  {
    [-b[0], -b[1], -b[2], -b[3]]
  }

  /** sm2_z256_cmp: compares from the most significant limb. */
  method Cmp(a: array<uint64>, b: array<uint64>) returns (r: int)
    requires a.Length == 4 && b.Length == 4
    ensures r == if Val4(a[..]) > Val4(b[..]) then 1 else if Val4(a[..]) < Val4(b[..]) then -1 else 0
  {
    if a[3] > b[3] {
      return 1;
    } else if a[3] < b[3] {
      return -1;
    }
    if a[2] > b[2] {
      return 1;
    } else if a[2] < b[2] {
      return -1;
    }
    if a[1] > b[1] {
      return 1;
    } else if a[1] < b[1] {
      return -1;
    }
    if a[0] > b[0] {
      return 1;
    } else if a[0] < b[0] {
      return -1;
    }
    return 0;
  }

  /** sm2_z512_add on eight limbs, in place on z. */
  method Add8(z: array<uint64>, t: array<uint64>) returns (c: uint64)
    requires z.Length == 8 && t.Length == 8 && z != t
    modifies z
    ensures c <= 1
    ensures Val8(z[..]) + R256 * R256 * c == old(Val8(z[..])) + Val8(t[..])
  {
    ghost var a: seq<int>, b: seq<int> := z[..], t[..];
    ghost var cs: seq<int> := [0];
    var k := 0;
    c := 0;
    while k < 8
      invariant 0 <= k <= 8 && |cs| == k + 1 && cs[k] == c <= 1
      invariant z[k..] == a[k..] && t[..] == b
      invariant cs[0] == 0 && forall i :: 0 <= i < k ==> z[i] + B64 * cs[i + 1] == a[i] + b[i] + cs[i]
    {
      assert z[k] == z[k..][0] && t[k] == b[k];
      var w;
      w, c := AddCarry(z[k], t[k], c);
      z[k] := w;
      cs := cs + [c];
      k := k + 1;
    }
    ghost var r: seq<int> := z[..];
    ChainSum8(a, b, r, cs);
  }

  lemma ChainSum8(a: seq<int>, b: seq<int>, r: seq<int>, cs: seq<int>)
    requires |a| == |b| == |r| == 8 && |cs| == 9 && cs[0] == 0
    requires forall i :: 0 <= i < 8 ==> r[i] + B64 * cs[i + 1] == a[i] + b[i] + cs[i]
    ensures Val8(r) + R256 * R256 * cs[8] == Val8(a) + Val8(b)
  {
    ChainSumFrom(a[..4], b[..4], r[..4], cs[0], cs[1], cs[2], cs[3], cs[4]);
    ChainSumFrom(a[4..], b[4..], r[4..], cs[4], cs[5], cs[6], cs[7], cs[8]);
    Join(Val4(r[..4]), Val4(r[4..]), cs[4], cs[8], Val4(a[..4]) + Val4(b[..4]), Val4(a[4..]) + Val4(b[4..]));
  }

  lemma ChainSumFrom(a: seq<int>, b: seq<int>, r: seq<int>, c0: int, c1: int, c2: int, c3: int, c4: int)
    requires |a| == |b| == |r| == 4
    requires r[0] + B64 * c1 == a[0] + b[0] + c0 && r[1] + B64 * c2 == a[1] + b[1] + c1
    requires r[2] + B64 * c3 == a[2] + b[2] + c2 && r[3] + B64 * c4 == a[3] + b[3] + c3
    ensures Val4(r) + R256 * c4 == Val4(a) + Val4(b) + c0
  {
  }

  lemma Join(r0: int, r1: int, c: int, d: int, s0: int, s1: int)
    requires r0 + R256 * c == s0 && r1 + R256 * d == s1 + c
    ensures r0 + R256 * r1 + R256 * R256 * d == s0 + R256 * s1
  {
  }

  // ---------- the schoolbook product ----------

  /** Little-endian value of 32-bit digits. */
  function Dig(s: seq<int>): int {
    if |s| == 0 then 0 else s[0] + B32 * Dig(s[1..])
  }

  function PowB(k: nat): int {
    if k == 0 then 1 else B32 * PowB(k - 1)
  }

  lemma {:induction false} DigSplit(s: seq<int>, t: seq<int>)
    ensures Dig(s + t) == Dig(s) + PowB(|s|) * Dig(t)
  {
    if |s| == 0 {
      assert s + t == t;
    } else {
      DigSplit(s[1..], t);
      assert (s + t)[1..] == s[1..] + t;
      assert B32 * (PowB(|s| - 1) * Dig(t)) == PowB(|s|) * Dig(t);
    }
  }

  lemma {:induction false} DigZeros(s: seq<int>)
    requires forall i :: 0 <= i < |s| ==> s[i] == 0
    ensures Dig(s) == 0
  {
    if |s| > 0 {
      DigZeros(s[1..]);
    }
  }

  predicate Digits(s: seq<int>) {
    forall i :: 0 <= i < |s| ==> 0 <= s[i] < B32
  }

  /** The accumulator s + a*b + u of two 32-bit digits never exceeds 64 bits. */
  lemma NoOverflow(s: int, a: int, b: int, u: int)
    requires 0 <= s < B32 && 0 <= a < B32 && 0 <= b < B32 && 0 <= u < B32
    ensures 0 <= s + a * b + u < B64
  {
    assert a * b <= (B32 - 1) * (B32 - 1) by { ProductBound(a, b, B32 - 1); }
    assert 0 <= a * b;
  }

  lemma ProductBound(a: int, b: int, m: int)
    requires 0 <= a <= m && 0 <= b <= m
    ensures a * b <= m * m
  {
  }

  /** The digit window after j steps of one row. */
  ghost predicate RowDone(w0: seq<int>, w: seq<int>, x: int, b: seq<int>, j: nat, u: int) {
    |w0| == |w| == |b| && j <= |b| && Digits(w) && 0 <= u < B32
    && w[j..] == w0[j..]
    && Dig(w[..j]) + PowB(j) * u == Dig(w0[..j]) + x * Dig(b[..j])
  }

  lemma RowStep(w0: seq<int>, w: seq<int>, x: int, b: seq<int>, j: nat, u: int)
    requires RowDone(w0, w, x, b, j, u) && j < |b| && 0 <= x < B32 && Digits(b)
    ensures var v := w[j] + x * b[j] + u;
            0 <= v < B64 && RowDone(w0, w[j := v % B32], x, b, j + 1, v / B32)
  {
    hide PowB;
    var v := w[j] + x * b[j] + u;
    NoOverflow(w[j], x, b[j], u);
    assert w[j] == w[j..][0] && w0[j] == w0[j..][0];
    var w' := w[j := v % B32];
    assert w'[..j + 1] == w[..j] + [v % B32];
    assert w0[..j + 1] == w0[..j] + [w0[j]] && b[..j + 1] == b[..j] + [b[j]];
    DigSplit(w[..j], [v % B32]);
    DigSplit(w0[..j], [w0[j]]);
    DigSplit(b[..j], [b[j]]);
    DigOne(v % B32);
    DigOne(w0[j]);
    DigOne(b[j]);
    PowNext(j);
    RowAlgebra(Dig(w[..j]), Dig(w0[..j]), Dig(b[..j]), PowB(j), x, w0[j], b[j], u, v % B32, v / B32);
    assert w'[j + 1..] == w0[j + 1..] by {
      assert w'[j + 1..] == w[j..][1..] && w0[j + 1..] == w0[j..][1..];
    }
  }

  lemma DigOne(x: int)
    ensures Dig([x]) == x
  {
    assert Dig([x][1..]) == 0;
  }

  lemma PowNext(j: nat)
    ensures PowB(j + 1) == B32 * PowB(j)
  {
  }

  lemma RowAlgebra(d: int, d0: int, e: int, pw: int, x: int, s: int, y: int, u: int, lo: int, hi: int)
    requires d + pw * u == d0 + x * e && lo + B32 * hi == s + x * y + u
    ensures (d + pw * lo) + (B32 * pw) * hi == (d0 + pw * s) + x * (e + pw * y)
  {
    assert (B32 * pw) * hi == pw * (B32 * hi);
    assert pw * lo + pw * (B32 * hi) == pw * (lo + B32 * hi);
    assert pw * (s + x * y + u) == pw * s + pw * (x * y) + pw * u;
    assert x * (e + pw * y) == x * e + x * (pw * y);
    assert pw * (x * y) == x * (pw * y);
  }

  /** One row of the product: the window s[i..i+8] gains x * b and its carry goes to s[i+8]. */
  method MulRow(s: array<uint64>, i: nat, x: uint64, db: array<uint64>)
    requires s.Length == 16 && db.Length == 8 && s != db && i < 8
    requires x < B32 && Digits(db[..]) && Digits(s[..])
    modifies s
    ensures Digits(s[..]) && s[..i] == old(s[..i]) && s[i + 9..] == old(s[i + 9..])
    ensures Dig(s[i..i + 9]) == Dig(old(s[i..i + 8])) + x * Dig(db[..])
  {
    hide Dig, PowB, RowDone;
    ghost var s0: seq<int> := s[..];
    ghost var w0: seq<int> := s[i..i + 8];
    ghost var b: seq<int> := db[..];
    var u: uint64 := 0;
    RowStart(w0, x, b);
    for j := 0 to 8
      invariant u < B32
      invariant s[..i] == s0[..i] && s[i + 8..] == s0[i + 8..] && db[..] == b
      invariant RowDone(w0, s[i..i + 8], x, b, j, u)
    {
      ghost var w: seq<int> := s[i..i + 8];
      RowStep(w0, w, x, b, j, u);
      assert w[j] == s[i + j] && b[j] == db[j];
      var v := s[i + j] as int + x as int * db[j] as int + u as int;
      s[i + j] := v % B32;
      u := v / B32;
      assert s[i..i + 8] == w[j := v % B32];
    }
    ghost var w: seq<int> := s[i..i + 8];
    RowEnd(w0, w, x, b, u);
    s[i + 8] := u;
    assert s[i..i + 9] == w + [u];
    RowDigits(s0, s[..], w, i, u);
  }

  lemma RowStart(w: seq<int>, x: int, b: seq<int>)
    requires |w| == |b| && Digits(w)
    ensures RowDone(w, w, x, b, 0, 0)
  {
    assert w[..0] == [] && b[..0] == [];
  }

  lemma RowEnd(w0: seq<int>, w: seq<int>, x: int, b: seq<int>, u: int)
    requires RowDone(w0, w, x, b, |b|, u)
    ensures Digits(w) && 0 <= u < B32 && Dig(w + [u]) == Dig(w0) + x * Dig(b)
  {
    assert w[..|w|] == w && w0[..|w|] == w0 && b[..|b|] == b;
    DigSplit(w, [u]);
    DigOne(u);
  }

  lemma RowDigits(s0: seq<int>, s: seq<int>, w: seq<int>, i: nat, u: int)
    requires |s0| == |s| == 16 && |w| == 8 && i < 8 && Digits(s0) && Digits(w) && 0 <= u < B32
    requires s[..i] == s0[..i] && s[i..i + 9] == w + [u] && s[i + 9..] == s0[i + 9..]
    ensures Digits(s)
  {
    assert s == s[..i] + s[i..i + 9] + s[i + 9..];
  }

  lemma RowTotal(s0: seq<int>, s: seq<int>, a: seq<int>, b: seq<int>, i: nat, x: int)
    requires |s0| == |s| == 16 && i < 8 && |a| == 8 && a[i] == x
    requires Dig(s0[..i + 8]) == Dig(a[..i]) * Dig(b)
    requires s[..i] == s0[..i] && Dig(s[i..i + 9]) == Dig(s0[i..i + 8]) + x * Dig(b)
    ensures Dig(s[..i + 9]) == Dig(a[..i + 1]) * Dig(b)
  {
    hide Dig, PowB;
    assert s[..i + 9] == s[..i] + s[i..i + 9];
    assert s0[..i + 8] == s0[..i] + s0[i..i + 8];
    assert a[..i + 1] == a[..i] + [x];
    DigSplit(s[..i], s[i..i + 9]);
    DigSplit(s0[..i], s0[i..i + 8]);
    DigSplit(a[..i], [x]);
    DigOne(x);
    TotalAlgebra(Dig(s0[..i]), Dig(s0[i..i + 8]), Dig(a[..i]), Dig(b), PowB(i), x);
  }

  lemma TotalAlgebra(lo: int, w: int, d: int, b: int, pw: int, x: int)
    requires lo + pw * w == d * b
    ensures lo + pw * (w + x * b) == (d + pw * x) * b
  {
    assert pw * (w + x * b) == pw * w + pw * (x * b);
    assert (d + pw * x) * b == d * b + (pw * x) * b;
    assert pw * (x * b) == (pw * x) * b;
  }

  /** The two 32-bit halves of each limb, least significant first. */
  method SplitLimbs(a: array<uint64>) returns (d: array<uint64>)
    requires a.Length >= 4
    ensures fresh(d) && d.Length == 8 && Digits(d[..]) && Dig(d[..]) == Val4(a[..])
  {
    d := new uint64[8];
    d[0], d[1], d[2], d[3] := a[0] % B32, a[0] / B32, a[1] % B32, a[1] / B32;
    d[4], d[5], d[6], d[7] := a[2] % B32, a[2] / B32, a[3] % B32, a[3] / B32;
    ghost var s: seq<int> := d[..];
    DigEight(s);
  }

  lemma DigEight(s: seq<int>)
    requires |s| == 8
    ensures Dig(s) == s[0] + B32 * s[1] + B64 * (s[2] + B32 * s[3] + B64 * (s[4] + B32 * s[5] + B64 * (s[6] + B32 * s[7])))
  {
    DigTwo(s);
    DigTwo(s[2..]);
    DigTwo(s[2..][2..]);
    DigTwo(s[2..][2..][2..]);
  }

  lemma DigTwo(s: seq<int>)
    requires |s| >= 2
    ensures Dig(s) == s[0] + B32 * s[1] + B64 * Dig(s[2..])
  {
    assert s[1..][1..] == s[2..];
  }

  /** sm2_z256_mul: the exact 512-bit product of the low four limbs; r may be a or b. */
  method Mul(r: array<uint64>, a: array<uint64>, b: array<uint64>)
    requires r.Length == 8 && a.Length >= 4 && b.Length >= 4
    modifies r
    ensures Val8(r[..]) == old(Val4(a[..])) * old(Val4(b[..]))
  {
    hide Dig, PowB, Val8;
    var da := SplitLimbs(a);
    var db := SplitLimbs(b);
    var s := new uint64[16](i => 0);
    ghost var ds: seq<int>, bs: seq<int> := da[..], db[..];
    assert s[..8] == [0, 0, 0, 0, 0, 0, 0, 0];
    DigZeros(s[..8]);
    assert Dig(ds[..0]) == 0 by { DigZeros(ds[..0]); }
    for i := 0 to 8
      invariant da[..] == ds && db[..] == bs && Digits(s[..])
      invariant forall k :: i + 8 <= k < 16 ==> s[k] == 0
      invariant Dig(s[..i + 8]) == Dig(ds[..i]) * Dig(bs)
    {
      ghost var s0: seq<int> := s[..];
      assert da[i] == ds[i] && s0[i..i + 8] == s[i..i + 8] && s0[..i + 8] == s[..i + 8];
      MulRow(s, i, da[i], db);
      RowTotal(s0, s[..], ds, bs, i, ds[i]);
      assert forall k :: i + 9 <= k < 16 ==> s[k] == s[i + 9..][k - i - 9];
    }
    assert s[..16] == s[..] && ds[..8] == ds;
    JoinDigits(r, s);
  }

  /** r[i] = (s[2i+1] << 32) | s[2i]. */
  method JoinDigits(r: array<uint64>, s: array<uint64>)
    requires r.Length == 8 && s.Length == 16 && r != s && Digits(s[..])
    modifies r
    ensures Val8(r[..]) == Dig(s[..])
  {
    hide Dig, Val8;
    ghost var d: seq<int> := s[..];
    for i := 0 to 8
      invariant s[..] == d
      invariant forall k :: 0 <= k < i ==> r[k] == d[2 * k] + B32 * d[2 * k + 1]
    {
      assert s[2 * i] == d[2 * i] && s[2 * i + 1] == d[2 * i + 1];
      r[i] := s[2 * i + 1] as int * B32 + s[2 * i] as int;
    }
    JoinedValue(r[..], d);
  }

  lemma JoinedValue(r: seq<int>, d: seq<int>)
    requires |r| == 8 && |d| == 16 && forall k :: 0 <= k < 8 ==> r[k] == d[2 * k] + B32 * d[2 * k + 1]
    ensures Val8(r) == Dig(d)
  {
    hide Dig;
    DigSplit(d[..8], d[8..]);
    assert d == d[..8] + d[8..];
    PowEight();
    DigEight(d[..8]);
    DigEight(d[8..]);
  }

  lemma PowEight()
    ensures PowB(8) == R256
  {
    PowNext(0);
    PowNext(1);
    PowNext(2);
    PowNext(3);
    PowNext(4);
    PowNext(5);
    PowNext(6);
    PowNext(7);
  }
}
