/** Keys and ciphertexts of src/kyber.c as equations in the ring of polynomials modulo X^256 + 1, with the
    schoolbook product (algorithms 4 and 5 of the Kyber specification). */
module KyberLwe {
  import opened Common
  import opened Modular
  import opened KyberRing
  import opened KyberNtt
  import opened KyberPoly
  import opened KyberAlgebra
  import opened KyberCodec
  import opened KyberCpa
  import opened KyberKem

  /** An inner product through the transforms is one in the ring. */
  lemma InnerInRing(x: seq<seq<int>>, s: seq<seq<int>>, k: nat)
    requires IsVec(x) && Long(s) && |x| == |s| == k
    ensures InvNtt(HatDot(x, NttVec(s), k)) == Dot(InvNttVec(x), s, k)
  {
    hide Ntt, InvNtt, HatDot, Dot;
    var y := InvNttVec(x);
    NttVecInverse(x);
    NttOfDot(y, s, k);
    TransformsInverse(Dot(y, s, k));
  }

  /** The matrix entries in row i: A[i][j] is sampled from (rho, j, i). */
  ghost predicate IsRow(o: Oracles, rho: seq<byte>, i: nat, row: seq<seq<int>>) {
    |row| == K && forall j :: 0 <= j < K ==> row[j] == o.parse(rho, j, i)
  }

  ghost predicate IsColumn(o: Oracles, rho: seq<byte>, i: nat, col: seq<seq<int>>) {
    |col| == K && forall j :: 0 <= j < K ==> col[j] == o.parse(rho, i, j)
  }

  /** v lists the noise polynomials drawn from seed with counters from n on. */
  ghost predicate IsNoise(o: Oracles, eta: int, seed: seq<byte>, n: int, v: seq<seq<int>>) {
    |v| == K && forall i :: 0 <= i < K ==> v[i] == o.noise(eta, seed, n + i)
  }

  /** The public key: t = A s + e, with s from the first K counters and e from the next. */
  lemma PublicKeyEquation(o: Oracles, d: seq<byte>, i: nat, row: seq<seq<int>>, s: seq<seq<int>>)
    requires o.Valid() && i < K && IsVec(row)
    requires var (rho, sigma) := InPlaceG(o, d); IsRow(o, rho, i, row) && IsNoise(o, 3, sigma, 0, s)
    ensures var (rho, sigma) := InPlaceG(o, d); var (pk, sk) := KeyPair(o, d);
            && pk.rho == rho && Long(s)
            && InvNtt(UnpackVec(pk.t)[i]) == AddPoly(Dot(InvNttVec(row), s, K), o.noise(3, sigma, K + i))
            && UnpackVec(sk.s)[i] == Ntt(s[i])
  {
    hide Ntt, InvNtt, HatDot, Dot, AddPoly, UnpackVec, PackVec, InPlaceG, AddVec, MatVec, NttVec;
    var (rho, sigma) := InPlaceG(o, d);
    var e, a := NoiseVec(o, ETA1, sigma, K), Matrix(o, rho);
    assert s == NoiseVec(o, ETA1, sigma, 0) && row == a[i];
    UnpackPackVec(AddVec(MatVec(a, NttVec(s)), NttVec(e)));
    UnpackPackVec(NttVec(s));
    RowEquation(a, s, e, i);
  }

  lemma RowEquation(a: seq<seq<seq<int>>>, s: seq<seq<int>>, e: seq<seq<int>>, i: nat)
    requires |a| == |s| == |e| == K && IsMatrix(a, K) && IsVec(s) && Long(s) && IsVec(e) && Long(e) && i < K
    ensures InvNtt(AddVec(MatVec(a, NttVec(s)), NttVec(e))[i]) == AddPoly(Dot(InvNttVec(a[i]), s, K), e[i])
    ensures NttVec(s)[i] == Ntt(s[i])
  {
    hide Ntt, InvNtt, HatDot, Dot, AddPoly;
    InvNttOfSum(HatDot(a[i], NttVec(s), K), e[i]);
    InnerInRing(a[i], s, K);
  }

  /** A ciphertext before compression: u = A^T r + e1. */
  lemma MaskEquation(o: Oracles, rho: seq<byte>, rand: seq<byte>, i: nat, col: seq<seq<int>>, r: seq<seq<int>>)
    requires o.Valid() && i < K && IsVec(col) && IsColumn(o, rho, i, col) && IsNoise(o, 3, rand, 0, r)
    ensures Long(r) && MaskU(o, rho, rand)[i] == AddPoly(Dot(InvNttVec(col), r, K), o.noise(2, rand, K + i))
  {
    hide Ntt, InvNtt, HatDot, Dot, AddPoly;
    assert r == NoiseVec(o, ETA1, rand, 0) && col == TransposedRow(o, rho, i);
    InnerInRing(col, r, K);
  }

  /** And v = t . r + e2 + 1665 m. */
  lemma MessageEquation(o: Oracles, t: seq<seq<int>>, m: seq<byte>, rand: seq<byte>, r: seq<seq<int>>, j: nat)
    requires o.Valid() && |t| == K && IsVec(t) && Long(t) && |m| == 32 && IsNoise(o, 3, rand, 0, r) && j < 256
    ensures Long(r) && var w := AddPoly(Dot(InvNttVec(t), r, K), o.noise(2, rand, 2 * K));
            MaskV(o, t, m, rand)[j] == (w[j] + 1665 * Unpack1(m)[j]) % Q
  {
    hide Ntt, InvNtt, HatDot, Dot, Unpack1, DecompressPoly;
    assert r == NoiseVec(o, ETA1, rand, 0);
    InnerInRing(t, r, K);
    MaskVIs(o, t, m, rand);
    MessageCoefficient(m, j);
  }

  /** The ciphertext itself: u rounded to 10 bits a coefficient, v to 4. */
  lemma CiphertextParts(o: Oracles, pk: PublicKey, m: seq<byte>, rand: seq<byte>, i: nat)
    requires o.Valid() && PublicKeySizes(pk) && |m| == 32 && i < K
    ensures var c := Encryption(o, pk, m, rand);
            && c.c1[i] == Pack10(CompressPoly(MaskU(o, pk.rho, rand)[i], 1024))
            && c.c2 == Pack4(CompressPoly(MaskV(o, UnpackVec(pk.t), m, rand), 16))
  {
    hide MaskU, MaskV, Pack10, Pack4, CompressPoly, UnpackVec;
  }
}
