/** Public-key encryption of src/kyber.c: key generation, encryption and decryption
    as loops over vectors of polynomials, and the exact value decryption rounds. */
module KyberCpa {
  import opened Common
  import opened Modular
  import opened KyberRing
  import opened KyberNtt
  import opened KyberPoly
  import opened KyberAlgebra
  import opened KyberCodec

  /** KYBER_K of the Kyber-512 parameter set. */
  const K: nat := 2
  const ETA1 := 3
  const ETA2 := 2

  /** The hash-based primitives: uniform and noise sampling, and the KEM's hashes. */
  datatype Oracles = Oracles(
    parse: (seq<byte>, int, int) -> seq<int>,
    noise: (int, seq<byte>, int) -> seq<int>,
    h: seq<byte> -> seq<byte>,
    kdf: seq<byte> -> seq<byte>)
  {
    /** Samplers return reduced polynomials; digests have their fixed sizes. */
    ghost predicate Valid() {
      && (forall rho, x, y :: IsPoly(parse(rho, x, y)))
      && (forall eta, seed, n :: IsPoly(noise(eta, seed, n)))
      && (forall s :: |h(s)| == 32)
    }
  }

  /** kyber_g_hash: two digests of s, with counters 0 and 1 appended. */
  function G(o: Oracles, s: seq<byte>): (r: seq<byte>)
    requires o.Valid()
    ensures |r| == 64
  {
    o.h(s + [0, 0, 0, 0]) + o.h(s + [0, 0, 0, 1])
  }

  /** What is left of s when a has been written over its beginning. */
  function Overlaid(s: seq<byte>, a: seq<byte>): seq<byte> {
    if |s| <= |a| then a[..|s|] else a + s[|a|..]
  }

  /** The two halves kyber_g_hash writes when the output is over the input: the second digest is
      taken of what the first one left there. */
  function InPlaceG(o: Oracles, s: seq<byte>): (r: (seq<byte>, seq<byte>))
    requires o.Valid()
    ensures |r.0| == 32 && |r.1| == 32
  {
    var a := o.h(s + [0, 0, 0, 0]);
    (a, o.h(Overlaid(s, a) + [0, 0, 0, 1]))
  }

  method Store(out: array<byte>, off: nat, b: seq<byte>)
    requires off + |b| <= out.Length
    modifies out
    ensures out[..] == old(out[..off]) + b + old(out[off + |b|..])
  {
    for i := 0 to |b|
      invariant out[..off] == old(out[..off]) && out[off..off + i] == b[..i] && out[off + i..] == old(out[off + i..])
    {
      ghost var tail := out[off + i..];
      out[off + i] := b[i];
      assert out[off + i + 1..] == tail[1..];
      assert out[off..off + i + 1] == out[off..off + i] + [b[i]];
    }
    assert b[..|b|] == b;
    assert out[..] == out[..off] + out[off..off + |b|] + out[off + |b|..];
  }

  /** kyber_g_hash into out, which may be the input buffer. */
  method GHash(o: Oracles, inp: array<byte>, inlen: nat, out: array<byte>)
    requires o.Valid() && inlen <= inp.Length && out.Length == 64
    modifies out
    ensures var s := old(inp[..inlen]);
            out[..] == if inp == out then InPlaceG(o, s).0 + InPlaceG(o, s).1 else G(o, s)
  {
    ghost var s := inp[..inlen];
    var a := o.h(inp[..inlen] + [0, 0, 0, 0]);
    ghost var rest := out[32..];
    Store(out, 0, a);
    assert out[..] == a + rest;
    if inp == out {
      assert inp[..inlen] == (a + rest)[..inlen];
      assert inp[..inlen] == Overlaid(s, a) by {
        assert inlen > 32 ==> rest[..inlen - 32] == s[32..];
      }
    } else {
      assert inp[..inlen] == s;
    }
    var b := o.h(inp[..inlen] + [0, 0, 0, 1]);
    assert out[..32] == a;
    Store(out, 32, b);
    assert out[..] == a + b;
  }

  datatype PublicKey = PublicKey(t: seq<seq<byte>>, rho: seq<byte>)
  datatype PrivateKey = PrivateKey(s: seq<seq<byte>>)
  datatype Ciphertext = Ciphertext(c1: seq<seq<byte>>, c2: seq<byte>)

  predicate PublicKeySizes(pk: PublicKey) {
    |pk.t| == K && forall i :: 0 <= i < K ==> |pk.t[i]| == 384
  }

  predicate PrivateKeySizes(sk: PrivateKey) {
    |sk.s| == K && forall i :: 0 <= i < K ==> |sk.s[i]| == 384
  }

  predicate CiphertextSizes(c: Ciphertext) {
    |c.c1| == K && (forall i :: 0 <= i < K ==> |c.c1[i]| == 320) && |c.c2| == 128
  }

  // ---------- vectors ----------

  predicate IsVec(v: seq<seq<int>>) {
    forall i :: 0 <= i < |v| ==> IsPoly(v[i])
  }

  /** Polynomials of 12-bit coefficients, as a decoder returns them. */
  predicate IsWideVec(v: seq<seq<int>>) {
    forall i :: 0 <= i < |v| ==> |v[i]| == 256 && TwelveBit(v[i])
  }

  predicate Long(v: seq<seq<int>>) {
    forall i :: 0 <= i < |v| ==> |v[i]| == 256
  }

  lemma VecIsLong(v: seq<seq<int>>)
    requires IsVec(v)
    ensures Long(v)
  {
  }

  function NttVec(v: seq<seq<int>>): (r: seq<seq<int>>)
    requires Long(v)
    ensures |r| == |v| && IsVec(r) && Long(r)
  {
    seq(|v|, i requires 0 <= i < |v| => Ntt(v[i]))
  }

  /** Inner product of the first k entries of two vectors of transforms, summed as the loops do. */
  function HatDot(x: seq<seq<int>>, y: seq<seq<int>>, k: nat): (r: seq<int>)
    requires Long(x) && Long(y) && k <= |x| && k <= |y|
    ensures IsPoly(r)
  {
    if k == 0 then ZeroPoly() else AddPoly(HatDot(x, y, k - 1), NttMul(x[k - 1], y[k - 1]))
  }

  /** Inner product of the first k entries over Z_3329[X]/(X^256 + 1). */
  function Dot(x: seq<seq<int>>, y: seq<seq<int>>, k: nat): (r: seq<int>)
    requires Long(x) && Long(y) && k <= |x| && k <= |y|
    ensures IsPoly(r)
  {
    if k == 0 then ZeroPoly() else AddPoly(Dot(x, y, k - 1), Negacyclic(x[k - 1], y[k - 1]))
  }

  lemma {:induction false} NttOfDot(x: seq<seq<int>>, y: seq<seq<int>>, k: nat)
    requires Long(x) && Long(y) && k <= |x| && k <= |y|
    ensures Ntt(Dot(x, y, k)) == HatDot(NttVec(x), NttVec(y), k)
  {
    hide Ntt, AddPoly, Negacyclic, NttMul, Canonical, ZeroPoly;
    if k == 0 {
      NttZero();
    } else {
      NttOfDot(x, y, k - 1);
      NttAdditive(Dot(x, y, k - 1), Negacyclic(x[k - 1], y[k - 1]));
      NttMultiplicative(x[k - 1], y[k - 1]);
    }
  }

  function AddVec(x: seq<seq<int>>, y: seq<seq<int>>): (r: seq<seq<int>>)
    requires Long(x) && Long(y) && |x| == |y|
    ensures |r| == |x| && IsVec(r) && Long(r)
  {
    seq(|x|, i requires 0 <= i < |x| => AddPoly(x[i], y[i]))
  }

  lemma AddShuffle(a: seq<int>, b: seq<int>, c: seq<int>, d: seq<int>)
    requires IsPoly(a) && IsPoly(b) && IsPoly(c) && IsPoly(d)
    ensures AddPoly(AddPoly(a, b), AddPoly(c, d)) == AddPoly(AddPoly(a, c), AddPoly(b, d))
  {
    hide AddPoly;
    AddAssoc(a, b, AddPoly(c, d));
    AddAssoc(b, c, d);
    AddComm(b, c);
    AddAssoc(c, b, d);
    AddAssoc(a, c, AddPoly(b, d));
  }

  /** The inner product is additive in its second argument. */
  lemma {:induction false} HatDotAddRight(x: seq<seq<int>>, y: seq<seq<int>>, z: seq<seq<int>>, k: nat)
    requires Long(x) && IsVec(y) && IsVec(z) && |y| == |z| && k <= |x| && k <= |y|
    ensures HatDot(x, AddVec(y, z), k) == AddPoly(HatDot(x, y, k), HatDot(x, z, k))
  {
    hide AddPoly, NttMul, Canonical, ZeroPoly;
    if k == 0 {
      AddZero(ZeroPoly());
    } else {
      HatDotAddRight(x, y, z, k - 1);
      NttMulDistrib(x[k - 1], y[k - 1], z[k - 1]);
      AddShuffle(HatDot(x, y, k - 1), HatDot(x, z, k - 1), NttMul(x[k - 1], y[k - 1]), NttMul(x[k - 1], z[k - 1]));
    }
  }

  lemma {:induction false} HatDotComm(x: seq<seq<int>>, y: seq<seq<int>>, k: nat)
    requires Long(x) && Long(y) && k <= |x| && k <= |y|
    ensures HatDot(x, y, k) == HatDot(y, x, k)
  {
    hide AddPoly, NttMul;
    if k > 0 {
      HatDotComm(x, y, k - 1);
      NttMulComm(x[k - 1], y[k - 1]);
    }
  }

  /** Scaling both sides: (sum_j a_j s_j) * w == sum_j s_j * (a_j * w). */
  function ScaleVec(a: seq<seq<int>>, w: seq<int>): (r: seq<seq<int>>)
    requires Long(a) && |w| == 256
    ensures |r| == |a| && IsVec(r) && Long(r)
  {
    seq(|a|, j requires 0 <= j < |a| => NttMul(a[j], w))
  }

  lemma {:induction false} HatDotScale(a: seq<seq<int>>, s: seq<seq<int>>, w: seq<int>, k: nat)
    requires Long(a) && Long(s) && |w| == 256 && k <= |a| && k <= |s|
    ensures NttMul(HatDot(a, s, k), w) == HatDot(s, ScaleVec(a, w), k)
  {
    hide AddPoly, NttMul, Canonical, ZeroPoly;
    if k == 0 {
      ZeroTimes(w);
    } else {
      HatDotScale(a, s, w, k - 1);
      var aj, sj := a[k - 1], s[k - 1];
      NttMulDistrib(w, HatDot(a, s, k - 1), NttMul(aj, sj));
      NttMulComm(aj, sj);
      NttMulAssoc(sj, aj, w);
    }
  }

  lemma ZeroTimes(w: seq<int>)
    requires |w| == 256
    ensures NttMul(ZeroPoly(), w) == ZeroPoly()
  {
    hide AddPoly, NttMul, Canonical, ZeroPoly;
    AddZero(ZeroPoly());
    NttMulDistrib(w, ZeroPoly(), ZeroPoly());
    SelfSum(NttMul(ZeroPoly(), w));
  }

  // ---------- matrices ----------

  predicate IsMatrix(a: seq<seq<seq<int>>>, cols: nat) {
    forall i :: 0 <= i < |a| ==> |a[i]| == cols && IsVec(a[i])
  }

  function MatVec(a: seq<seq<seq<int>>>, s: seq<seq<int>>): (r: seq<seq<int>>)
    requires IsMatrix(a, |s|) && Long(s)
    ensures |r| == |a| && IsVec(r) && Long(r)
  {
    seq(|a|, i requires 0 <= i < |a| => HatDot(a[i], s, |s|))
  }

  /** sum over the first n rows i of a[i][j] * r[i]. */
  function ColDot(a: seq<seq<seq<int>>>, r: seq<seq<int>>, j: nat, n: nat): (c: seq<int>)
    requires forall i :: 0 <= i < |a| ==> j < |a[i]| && Long(a[i])
    requires Long(r) && n <= |a| && n <= |r|
    ensures IsPoly(c)
  {
    if n == 0 then ZeroPoly() else AddPoly(ColDot(a, r, j, n - 1), NttMul(a[n - 1][j], r[n - 1]))
  }

  /** The transposed product of the first n rows. */
  function ColVec(a: seq<seq<seq<int>>>, r: seq<seq<int>>, cols: nat, n: nat): (c: seq<seq<int>>)
    requires IsMatrix(a, cols) && Long(r) && n <= |a| && n <= |r|
    ensures |c| == cols && IsVec(c) && Long(c)
  {
    seq(cols, j requires 0 <= j < cols => ColDot(a, r, j, n))
  }

  /** (A s) . r == s . (A^T r), row by row. */
  lemma {:induction false} TransposeLaw(a: seq<seq<seq<int>>>, s: seq<seq<int>>, r: seq<seq<int>>, n: nat)
    requires IsMatrix(a, |s|) && Long(s) && Long(r) && n <= |a| && n <= |r|
    ensures HatDot(MatVec(a, s), r, n) == HatDot(s, ColVec(a, r, |s|, n), |s|)
  {
    hide AddPoly, NttMul, Canonical, ZeroPoly;
    var m := |s|;
    if n == 0 {
      DotWithZeros(s, ColVec(a, r, m, 0), m);
    } else {
      TransposeLaw(a, s, r, n - 1);
      HatDotScale(a[n - 1], s, r[n - 1], m);
      assert ColVec(a, r, m, n) == AddVec(ColVec(a, r, m, n - 1), ScaleVec(a[n - 1], r[n - 1]));
      HatDotAddRight(s, ColVec(a, r, m, n - 1), ScaleVec(a[n - 1], r[n - 1]), m);
    }
  }

  lemma {:induction false} DotWithZeros(s: seq<seq<int>>, z: seq<seq<int>>, k: nat)
    requires Long(s) && Long(z) && k <= |s| && k <= |z| && forall i :: 0 <= i < |z| ==> z[i] == ZeroPoly()
    ensures HatDot(s, z, k) == ZeroPoly()
  {
    hide AddPoly, NttMul, Canonical, ZeroPoly;
    if k > 0 {
      DotWithZeros(s, z, k - 1);
      ZeroTimes(s[k - 1]);
      NttMulComm(ZeroPoly(), s[k - 1]);
      AddZero(ZeroPoly());
    }
  }

  // ---------- the value decryption rounds ----------

  lemma InvNttOfSum(p: seq<int>, y: seq<int>)
    requires IsPoly(p) && IsPoly(y)
    ensures InvNtt(AddPoly(p, Ntt(y))) == AddPoly(InvNtt(p), y)
  {
    hide Ntt, InvNtt, AddPoly;
    TransformsInverse(p);
    NttAdditive(InvNtt(p), y);
    TransformsInverse(AddPoly(InvNtt(p), y));
  }

  lemma NttVecSum(x: seq<seq<int>>, y: seq<seq<int>>)
    requires Long(x) && Long(y) && |x| == |y|
    ensures NttVec(AddVec(x, y)) == AddVec(NttVec(x), NttVec(y))
  {
    hide Ntt, AddPoly;
    forall i | 0 <= i < |x| ensures NttVec(AddVec(x, y))[i] == AddVec(NttVec(x), NttVec(y))[i] {
      NttAdditive(x[i], y[i]);
    }
  }

  function InvNttVec(v: seq<seq<int>>): (r: seq<seq<int>>)
    requires IsVec(v)
    ensures |r| == |v| && IsVec(r) && Long(r)
  {
    seq(|v|, i requires 0 <= i < |v| => InvNtt(v[i]))
  }

  lemma NttVecInverse(v: seq<seq<int>>)
    requires IsVec(v)
    ensures NttVec(InvNttVec(v)) == v
  {
    hide Ntt, InvNtt;
    forall i | 0 <= i < |v| ensures NttVec(InvNttVec(v))[i] == v[i] {
      TransformsInverse(v[i]);
    }
  }

  /** t . r transformed back is (A s) . r plus the error product e . r. */
  lemma MaskValue(a: seq<seq<seq<int>>>, s: seq<seq<int>>, e: seq<seq<int>>, r: seq<seq<int>>)
    requires |a| == |s| == |e| == |r| && IsMatrix(a, |s|) && IsVec(s) && IsVec(e) && IsVec(r)
    ensures var k := |s|; var t := AddVec(MatVec(a, NttVec(s)), NttVec(e));
            InvNtt(HatDot(t, NttVec(r), k))
            == AddPoly(InvNtt(HatDot(MatVec(a, NttVec(s)), NttVec(r), k)), Dot(e, r, k))
  {
    hide Ntt, InvNtt, AddPoly, NttMul, Canonical;
    var k, sh, eh, rh := |s|, NttVec(s), NttVec(e), NttVec(r);
    var av := MatVec(a, sh);
    HatDotComm(AddVec(av, eh), rh, k);
    HatDotAddRight(rh, av, eh, k);
    HatDotComm(rh, av, k);
    HatDotComm(rh, eh, k);
    NttOfDot(e, r, k);
    InvNttOfSum(HatDot(av, rh, k), Dot(e, r, k));
  }

  /** s . u transformed back, when u is A^T r + e1 + du. */
  lemma UnmaskValue(c: seq<seq<int>>, s: seq<seq<int>>, e1: seq<seq<int>>, du: seq<seq<int>>)
    requires |c| == |s| == |e1| == |du| && IsVec(c) && IsVec(s) && IsVec(e1) && Long(du)
    ensures var k := |s|; var u := AddVec(AddVec(InvNttVec(c), e1), du);
            InvNtt(HatDot(NttVec(s), NttVec(u), k))
            == AddPoly(AddPoly(InvNtt(HatDot(NttVec(s), c, k)), Dot(s, e1, k)), Dot(s, du, k))
  {
    hide Ntt, InvNtt, AddPoly, NttMul, Canonical;
    var k, sh := |s|, NttVec(s);
    NttVecSum(AddVec(InvNttVec(c), e1), du);
    NttVecSum(InvNttVec(c), e1);
    NttVecInverse(c);
    HatDotAddRight(sh, AddVec(c, NttVec(e1)), NttVec(du), k);
    HatDotAddRight(sh, c, NttVec(e1), k);
    NttOfDot(s, e1, k);
    NttOfDot(s, du, k);
    var x := HatDot(sh, c, k);
    InvNttOfSum(AddPoly(x, Ntt(Dot(s, e1, k))), Dot(s, du, k));
    InvNttOfSum(x, Dot(s, e1, k));
  }

  /** Everything but the message and the error terms cancels. */
  lemma Cancellation(x: seq<int>, er: seq<int>, e2: seq<int>, m: seq<int>, dv: seq<int>, se1: seq<int>, sdu: seq<int>, i: nat)
    requires |x| == |er| == |e2| == |m| == |dv| == |se1| == |sdu| == 256 && i < 256
    ensures Cong(SubPoly(AddPoly(AddPoly(AddPoly(AddPoly(x, er), e2), m), dv), AddPoly(AddPoly(x, se1), sdu))[i],
                 m[i] + (er[i] + e2[i] - se1[i] + dv[i] - sdu[i]), Q)
  {
    hide Cong;
    var a1, a2, a3, a4 := x[i] + er[i], x[i] + er[i] + e2[i], x[i] + er[i] + e2[i] + m[i], x[i] + er[i] + e2[i] + m[i] + dv[i];
    var b1, b2 := x[i] + se1[i], x[i] + se1[i] + sdu[i];
    CongMod(a1, Q);
    AddCong(a1 % Q, a1, e2[i]);
    AddCong((a1 % Q + e2[i]) % Q, a2, m[i]);
    AddCong(((a1 % Q + e2[i]) % Q + m[i]) % Q, a3, dv[i]);
    CongMod(b1, Q);
    AddCong(b1 % Q, b1, sdu[i]);
    var av, bv := (((a1 % Q + e2[i]) % Q + m[i]) % Q + dv[i]) % Q, (b1 % Q + sdu[i]) % Q;
    CongSub(av, a4, bv, b2, Q);
    CongMod(av - bv, Q);
    CongTrans((av - bv) % Q, av - bv, a4 - b2, Q);
  }

  lemma AddCong(x: int, x': int, y: int)
    requires Cong(x, x', Q)
    ensures Cong((x + y) % Q, x' + y, Q)
  {
    hide Cong;
    CongSelf(y, Q);
    CongAdd(x, x', y, y, Q);
    CongMod(x + y, Q);
    CongTrans((x + y) % Q, x + y, x' + y, Q);
  }

  /** The decryption equation over abstract keys, noise and rounding errors. */
  lemma DecryptionEquation(a: seq<seq<seq<int>>>, s: seq<seq<int>>, e: seq<seq<int>>, r: seq<seq<int>>,
                           e1: seq<seq<int>>, e2: seq<int>, m: seq<int>, du: seq<seq<int>>, dv: seq<int>, i: nat)
    requires |a| == |s| == |e| == |r| == |e1| == |du| && IsMatrix(a, |s|)
    requires IsVec(s) && IsVec(e) && IsVec(r) && IsVec(e1) && Long(du)
    requires |e2| == |m| == |dv| == 256 && i < 256
    ensures var k := |s|;
            var t := AddVec(MatVec(a, NttVec(s)), NttVec(e));
            var u := AddVec(AddVec(InvNttVec(ColVec(a, NttVec(r), k, k)), e1), du);
            var v := AddPoly(AddPoly(AddPoly(InvNtt(HatDot(t, NttVec(r), k)), e2), m), dv);
            Cong(SubPoly(v, InvNtt(HatDot(NttVec(s), NttVec(u), k)))[i],
                 m[i] + (Dot(e, r, k)[i] + e2[i] - Dot(s, e1, k)[i] + dv[i] - Dot(s, du, k)[i]), Q)
  {
    hide Ntt, InvNtt, AddPoly, SubPoly, NttMul, Canonical, Cong, HatDot, Dot, AddVec, NttVec, ColVec, MatVec, InvNttVec,
         IsVec, IsMatrix, Long;
    var k := |s|;
    VecIsLong(s);
    VecIsLong(e);
    VecIsLong(r);
    VecIsLong(e1);
    var c := ColVec(a, NttVec(r), k, k);
    MaskValue(a, s, e, r);
    UnmaskValue(c, s, e1, du);
    TransposeLaw(a, NttVec(s), NttVec(r), k);
    Cancellation(InvNtt(HatDot(NttVec(s), c, k)), Dot(e, r, k), e2, m, dv, Dot(s, e1, k), Dot(s, du, k), i);
  }
}
