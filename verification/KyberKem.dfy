/** Key generation, encryption, decryption and the key encapsulation of
    src/kyber.c on packed keys and ciphertexts. */
module KyberKem {
  import opened Common
  import opened Modular
  import opened KyberRing
  import opened KyberNtt
  import opened KyberPoly
  import opened KyberAlgebra
  import opened KyberCodec
  import opened KyberCpa

  // ---------- specification ----------

  /** AHat of key generation: entry (i, j) is sampled from (rho, j, i). */
  function Matrix(o: Oracles, rho: seq<byte>): (a: seq<seq<seq<int>>>)
    requires o.Valid()
    ensures |a| == K && IsMatrix(a, K)
  {
    seq(K, i requires 0 <= i < K => seq(K, j requires 0 <= j < K => o.parse(rho, j, i)))
  }

  /** Row i of the matrix encryption samples: entry j comes from (rho, i, j). */
  function TransposedRow(o: Oracles, rho: seq<byte>, i: nat): (r: seq<seq<int>>)
    requires o.Valid() && i < K
    ensures |r| == K && IsVec(r)
  {
    seq(K, j requires 0 <= j < K => o.parse(rho, i, j))
  }

  function NoiseVec(o: Oracles, eta: int, seed: seq<byte>, n: int): (v: seq<seq<int>>)
    requires o.Valid()
    ensures |v| == K && IsVec(v)
  {
    seq(K, i requires 0 <= i < K => o.noise(eta, seed, n + i))
  }

  function PackVec(v: seq<seq<int>>): (r: seq<seq<byte>>)
    requires Long(v)
    ensures |r| == |v| && forall i :: 0 <= i < |r| ==> |r[i]| == 384
  {
    seq(|v|, i requires 0 <= i < |v| => Pack12(v[i]))
  }

  function UnpackVec(b: seq<seq<byte>>): (r: seq<seq<int>>)
    requires forall i :: 0 <= i < |b| ==> |b[i]| == 384
    ensures |r| == |b| && IsWideVec(r) && Long(r)
  {
    seq(|b|, i requires 0 <= i < |b| => Unpack12(b[i]))
  }

  lemma UnpackPackVec(v: seq<seq<int>>)
    requires IsVec(v)
    ensures UnpackVec(PackVec(v)) == v
  {
    forall i | 0 <= i < |v| ensures UnpackVec(PackVec(v))[i] == v[i] {
      UnpackPack12(v[i]);
    }
  }

  function KeyPair(o: Oracles, d: seq<byte>): (r: (PublicKey, PrivateKey))
    requires o.Valid()
    ensures PublicKeySizes(r.0) && PrivateKeySizes(r.1)
  {
    var (rho, sigma) := InPlaceG(o, d);
    var s, e := NttVec(NoiseVec(o, ETA1, sigma, 0)), NttVec(NoiseVec(o, ETA1, sigma, K));
    (PublicKey(PackVec(AddVec(MatVec(Matrix(o, rho), s), e)), rho), PrivateKey(PackVec(s)))
  }

  /** u and v before compression. */
  function MaskU(o: Oracles, rho: seq<byte>, rand: seq<byte>): (u: seq<seq<int>>)
    requires o.Valid()
    ensures |u| == K && IsVec(u)
  {
    var r := NttVec(NoiseVec(o, ETA1, rand, 0));
    var e1 := NoiseVec(o, ETA2, rand, K);
    seq(K, i requires 0 <= i < K => AddPoly(InvNtt(HatDot(TransposedRow(o, rho, i), r, K)), e1[i]))
  }

  function MaskV(o: Oracles, t: seq<seq<int>>, m: seq<byte>, rand: seq<byte>): (v: seq<int>)
    requires o.Valid() && |t| == K && Long(t) && |m| == 32
    ensures IsPoly(v)
  {
    var r := NttVec(NoiseVec(o, ETA1, rand, 0));
    AddPoly(AddPoly(InvNtt(HatDot(t, r, K)), o.noise(ETA2, rand, 2 * K)), DecompressPoly(Unpack1(m), 2))
  }

  function CompressVec(u: seq<seq<int>>): (c: seq<seq<byte>>)
    requires Long(u)
    ensures |c| == |u| && forall i :: 0 <= i < |c| ==> |c[i]| == 320
  {
    seq(|u|, i requires 0 <= i < |u| => Pack10(CompressPoly(u[i], 1024)))
  }

  function DecompressVec(c: seq<seq<byte>>): (u: seq<seq<int>>)
    requires forall i :: 0 <= i < |c| ==> |c[i]| == 320
    ensures |u| == |c| && Long(u)
  {
    seq(|c|, i requires 0 <= i < |c| => DecompressPoly(Unpack10(c[i]), 1024))
  }

  function Encryption(o: Oracles, pk: PublicKey, m: seq<byte>, rand: seq<byte>): (c: Ciphertext)
    requires o.Valid() && PublicKeySizes(pk) && |m| == 32
    ensures CiphertextSizes(c)
  {
    Ciphertext(CompressVec(MaskU(o, pk.rho, rand)),
               Pack4(CompressPoly(MaskV(o, UnpackVec(pk.t), m, rand), 16)))
  }

  /** The polynomial whose coefficients decryption rounds to bits. */
  function RoundedValue(sk: PrivateKey, c: Ciphertext): (w: seq<int>)
    requires PrivateKeySizes(sk) && CiphertextSizes(c)
    ensures IsPoly(w)
  {
    SubPoly(DecompressPoly(Unpack4(c.c2), 16),
            InvNtt(HatDot(UnpackVec(sk.s), NttVec(DecompressVec(c.c1)), K)))
  }

  /** The bits every coefficient is rounded to, packed. */
  function MessageOf(w: seq<int>): (m: seq<byte>)
    requires |w| == 256
    ensures |m| == 32
  {
    Pack1(CompressPoly(w, 2))
  }

  function Decryption(sk: PrivateKey, c: Ciphertext): (m: seq<byte>)
    requires PrivateKeySizes(sk) && CiphertextSizes(c)
    ensures |m| == 32
  {
    MessageOf(RoundedValue(sk, c))
  }

  // ---------- rounding errors ----------

  function ErrorPoly(u: seq<int>, d: int): (r: seq<int>)
    requires d > 0
    ensures |r| == |u|
  {
    seq(|u|, i requires 0 <= i < |u| => RoundingError(u[i], d))
  }

  function ErrorVec(u: seq<seq<int>>): (r: seq<seq<int>>)
    requires Long(u)
    ensures |r| == |u| && Long(r)
  {
    seq(|u|, i requires 0 <= i < |u| => ErrorPoly(u[i], 1024))
  }

  lemma CompressedBelow(u: seq<int>, dbits: nat)
    requires Canonical(u) && dbits in {1, 4, 10}
    ensures Two(dbits) > 0 && Below(CompressPoly(u, Two(dbits)), Two(dbits))
    ensures Canonical(DecompressPoly(CompressPoly(u, Two(dbits)), Two(dbits)))
  {
    hide Compress1, Decompress1, Two;
    CompressRange(0, dbits);
    var d := Two(dbits);
    forall i | 0 <= i < |u|
      ensures 0 <= CompressPoly(u, d)[i] < d && 0 <= DecompressPoly(CompressPoly(u, d), d)[i] < Q
    {
      CompressRange(u[i], dbits);
      DecompressRange(Compress1(u[i], d), dbits);
    }
  }

  /** Decompressing a compressed polynomial adds its rounding errors. */
  lemma RestoredPoly(u: seq<int>, dbits: nat)
    requires Canonical(u) && dbits in {1, 4, 10}
    ensures Two(dbits) > 0
    ensures DecompressPoly(CompressPoly(u, Two(dbits)), Two(dbits)) == AddPoly(u, ErrorPoly(u, Two(dbits)))
  {
    hide Compress1, Decompress1, Two, RoundingError;
    CompressRange(0, dbits);
    var d := Two(dbits);
    CompressedBelow(u, dbits);
    forall i | 0 <= i < |u|
      ensures DecompressPoly(CompressPoly(u, d), d)[i] == AddPoly(u, ErrorPoly(u, d))[i]
    {
      RoundingErrorCong(u[i], d);
      CongMod(u[i] + RoundingError(u[i], d), Q);
      CongFlip((u[i] + RoundingError(u[i], d)) % Q, u[i] + RoundingError(u[i], d), Q);
      CongTrans(DecompressPoly(CompressPoly(u, d), d)[i], u[i] + RoundingError(u[i], d), (u[i] + RoundingError(u[i], d)) % Q, Q);
      CongCanonical(DecompressPoly(CompressPoly(u, d), d)[i], (u[i] + RoundingError(u[i], d)) % Q, Q);
    }
  }

  lemma RestoredU(u: seq<seq<int>>)
    requires IsVec(u)
    ensures DecompressVec(CompressVec(u)) == AddVec(u, ErrorVec(u))
  {
    hide CompressPoly, DecompressPoly, AddPoly, ErrorPoly, Pack10, Unpack10, Two;
    forall i | 0 <= i < |u| ensures DecompressVec(CompressVec(u))[i] == AddVec(u, ErrorVec(u))[i] {
      TenBits();
      CompressedBelow(u[i], 10);
      UnpackPack10(CompressPoly(u[i], 1024));
      RestoredPoly(u[i], 10);
    }
  }

  lemma TenBits()
    ensures Two(1) == 2 && Two(4) == 16 && Two(10) == 1024
  {
  }

  lemma RestoredV(v: seq<int>)
    requires IsPoly(v)
    ensures DecompressPoly(Unpack4(Pack4(CompressPoly(v, 16))), 16) == AddPoly(v, ErrorPoly(v, 16))
  {
    hide CompressPoly, DecompressPoly, AddPoly, ErrorPoly, Pack4, Unpack4, Two;
    TenBits();
    CompressedBelow(v, 4);
    UnpackPack4(CompressPoly(v, 16));
    RestoredPoly(v, 4);
  }

  /** Rounding of u moves a coefficient by at most 2, rounding of v by at most 104. */
  lemma RoundingBounds(u: seq<int>, i: nat)
    requires IsPoly(u) && i < 256
    ensures -2 <= ErrorPoly(u, 1024)[i] <= 2 && -104 <= ErrorPoly(u, 16)[i] <= 104
  {
    RoundingError10(u[i]);
    RoundingError4(u[i]);
  }

  // ---------- correctness of decryption ----------

  lemma EncryptionUsesTranspose(o: Oracles, rho: seq<byte>, rand: seq<byte>)
    requires o.Valid()
    ensures MaskU(o, rho, rand)
            == AddVec(InvNttVec(ColVec(Matrix(o, rho), NttVec(NoiseVec(o, ETA1, rand, 0)), K, K)), NoiseVec(o, ETA2, rand, K))
  {
    hide Ntt, InvNtt, AddPoly, NttMul, Canonical, ZeroPoly;
    var r := NttVec(NoiseVec(o, ETA1, rand, 0));
    forall i | 0 <= i < K
      ensures HatDot(TransposedRow(o, rho, i), r, K) == ColDot(Matrix(o, rho), r, i, K)
    {
      RowIsColumn(o, rho, r, i, K);
    }
  }

  lemma {:induction false} RowIsColumn(o: Oracles, rho: seq<byte>, r: seq<seq<int>>, i: nat, n: nat)
    requires o.Valid() && Long(r) && |r| == K && i < K && n <= K
    ensures HatDot(TransposedRow(o, rho, i), r, n) == ColDot(Matrix(o, rho), r, i, n)
  {
    hide AddPoly, NttMul, Canonical, ZeroPoly;
    if n > 0 {
      RowIsColumn(o, rho, r, i, n - 1);
    }
  }

  /** The error polynomial of one encryption: e.r + e2 - s.e1 + dv - s.du. */
  function NoisePoly(o: Oracles, d: seq<byte>, m: seq<byte>, rand: seq<byte>): (r: seq<int>)
    requires o.Valid() && |m| == 32
    ensures |r| == 256
  {
    var (rho, sigma) := InPlaceG(o, d);
    var s, e := NoiseVec(o, ETA1, sigma, 0), NoiseVec(o, ETA1, sigma, K);
    var r, e1, e2 := NoiseVec(o, ETA1, rand, 0), NoiseVec(o, ETA2, rand, K), o.noise(ETA2, rand, 2 * K);
    var t := AddVec(MatVec(Matrix(o, rho), NttVec(s)), NttVec(e));
    var du, dv := ErrorVec(MaskU(o, rho, rand)), ErrorPoly(MaskV(o, t, m, rand), 16);
    seq(256, i requires 0 <= i < 256 =>
      Dot(e, r, K)[i] + e2[i] - Dot(s, e1, K)[i] + dv[i] - Dot(s, du, K)[i])
  }

  /** Packing and compression are undone up to the rounding errors. */
  lemma RoundedIs(o: Oracles, d: seq<byte>, m: seq<byte>, rand: seq<byte>)
    requires o.Valid() && |m| == 32
    ensures var (pk, sk) := KeyPair(o, d);
            var (rho, sigma) := InPlaceG(o, d);
            var s, e := NoiseVec(o, ETA1, sigma, 0), NoiseVec(o, ETA1, sigma, K);
            var t := AddVec(MatVec(Matrix(o, rho), NttVec(s)), NttVec(e));
            var u, v := MaskU(o, rho, rand), MaskV(o, t, m, rand);
            RoundedValue(sk, Encryption(o, pk, m, rand))
            == SubPoly(AddPoly(v, ErrorPoly(v, 16)), InvNtt(HatDot(NttVec(s), NttVec(AddVec(u, ErrorVec(u))), K)))
  {
    hide Ntt, InvNtt, AddPoly, SubPoly, NttMul, Canonical, Cong, HatDot, Dot, AddVec, NttVec, ColVec, MatVec,
         InvNttVec, MaskV, MaskU, NoiseVec, Matrix, ErrorVec, ErrorPoly, CompressVec, DecompressVec, UnpackVec, PackVec, Unpack1,
         InPlaceG, Pack4, Unpack4, CompressPoly, DecompressPoly;
    var (rho, sigma) := InPlaceG(o, d);
    var s, e := NoiseVec(o, ETA1, sigma, 0), NoiseVec(o, ETA1, sigma, K);
    var t := AddVec(MatVec(Matrix(o, rho), NttVec(s)), NttVec(e));
    UnpackPackVec(t);
    UnpackPackVec(NttVec(s));
    RestoredU(MaskU(o, rho, rand));
    RestoredV(MaskV(o, t, m, rand));
  }

  /** What kyber_cpa_decrypt rounds: 1665 * message bit + error, in every coefficient. */
  lemma DecryptionValue(o: Oracles, d: seq<byte>, m: seq<byte>, rand: seq<byte>, i: nat)
    requires o.Valid() && |m| == 32 && i < 256
    ensures var (pk, sk) := KeyPair(o, d);
            Cong(RoundedValue(sk, Encryption(o, pk, m, rand))[i],
                 1665 * Unpack1(m)[i] + NoisePoly(o, d, m, rand)[i], Q)
  {
    hide Ntt, InvNtt, AddPoly, SubPoly, NttMul, Canonical, Cong, HatDot, Dot, AddVec, NttVec, ColVec, MatVec,
         InvNttVec, MaskV, MaskU, NoiseVec, Matrix, ErrorVec, ErrorPoly, Unpack1, DecompressPoly,
         InPlaceG, KeyPair, Encryption, RoundedValue;
    var (rho, sigma) := InPlaceG(o, d);
    var s, e := NoiseVec(o, ETA1, sigma, 0), NoiseVec(o, ETA1, sigma, K);
    var r, e1, e2 := NoiseVec(o, ETA1, rand, 0), NoiseVec(o, ETA2, rand, K), o.noise(ETA2, rand, 2 * K);
    var a := Matrix(o, rho);
    var t := AddVec(MatVec(a, NttVec(s)), NttVec(e));
    RoundedIs(o, d, m, rand);
    var u, v := MaskU(o, rho, rand), MaskV(o, t, m, rand);
    EncryptionUsesTranspose(o, rho, rand);
    MaskVIs(o, t, m, rand);
    DecryptionEquation(a, s, e, r, e1, e2, DecompressPoly(Unpack1(m), 2), ErrorVec(u), ErrorPoly(v, 16), i);
    MessageCoefficient(m, i);
  }

  lemma MessageCoefficient(m: seq<byte>, i: nat)
    requires |m| == 32 && i < 256
    ensures DecompressPoly(Unpack1(m), 2)[i] == 1665 * Unpack1(m)[i]
  {
    hide Unpack1;
    OneBit(0);
  }

  lemma MaskVIs(o: Oracles, t: seq<seq<int>>, m: seq<byte>, rand: seq<byte>)
    requires o.Valid() && |t| == K && Long(t) && |m| == 32
    ensures MaskV(o, t, m, rand)
            == AddPoly(AddPoly(InvNtt(HatDot(t, NttVec(NoiseVec(o, ETA1, rand, 0)), K)), o.noise(ETA2, rand, 2 * K)),
                       DecompressPoly(Unpack1(m), 2))
  {
  }

  /** The representative of x modulo 3329 in [-1664, 1664]. */
  function Centred(x: int): int {
    if x % Q <= Q / 2 then x % Q else x % Q - Q
  }

  /** The errors under which a message bit survives rounding. */
  predicate Tolerated(bit: int, noise: int) {
    (if bit == 1 then -833 else -832) <= Centred(noise) <= 831
  }

  lemma CentredRange(x: int) returns (l: int)
    ensures -1664 <= Centred(x) <= 1664 && x == Centred(x) + l * Q
  {
    l := if x % Q <= Q / 2 then x / Q else x / Q + 1;
  }

  lemma BitCases(w: int, bit: int, c: int, j: int)
    requires 0 <= w < Q && 0 <= bit < 2 && -1664 <= c <= 1664 && w == 1665 * bit + c + j * Q
    ensures ((832 <= w <= 2496) == (bit == 1)) <==> (if bit == 1 then -833 else -832) <= c <= 831
  {
    assert -1 <= j <= 1;
  }

  lemma BitRecovered(w: int, bit: int, noise: int)
    requires 0 <= w < Q && 0 <= bit < 2 && Cong(w, 1665 * bit + noise, Q)
    ensures Compress1(w, 2) == bit <==> Tolerated(bit, noise)
  {
    hide Centred, Compress1, Cong;
    OneBit(w);
    var k := CongMultiple(w, 1665 * bit + noise, Q);
    var l := CentredRange(noise);
    BitCases(w, bit, Centred(noise), k + l);
  }

  /** An error within [-831, 831] is tolerated whatever the message bit. */
  lemma SmallNoise(bit: int, noise: int)
    ensures -831 <= Centred(noise) <= 831 ==> Tolerated(bit, noise)
  {
  }

  /** Decryption returns the encrypted message if and only if every coefficient of the
      error polynomial is tolerated for its message bit. */
  lemma DecryptionCorrect(o: Oracles, d: seq<byte>, m: seq<byte>, rand: seq<byte>)
    requires o.Valid() && |m| == 32
    ensures var (pk, sk) := KeyPair(o, d);
            Decryption(sk, Encryption(o, pk, m, rand)) == m
            <==> forall i :: 0 <= i < 256 ==> Tolerated(Unpack1(m)[i], NoisePoly(o, d, m, rand)[i])
  {
    hide RoundedValue, Encryption, KeyPair, NoisePoly, Unpack1, Pack1, Tolerated, Compress1, Cong;
    var (pk, sk) := KeyPair(o, d);
    var w := RoundedValue(sk, Encryption(o, pk, m, rand));
    var bits := Unpack1(m);
    var z := CompressPoly(w, 2);
    forall i | 0 <= i < 256
      ensures z[i] == bits[i] <==> Tolerated(bits[i], NoisePoly(o, d, m, rand)[i])
    {
      DecryptionValue(o, d, m, rand, i);
      BitRecovered(w[i], bits[i], NoisePoly(o, d, m, rand)[i]);
    }
    TenBits();
    CompressedBelow(w, 1);
    PackUnpack1(m);
    UnpackPack1(z);
    assert z == bits <==> forall i :: 0 <= i < 256 ==> z[i] == bits[i];
  }

  // ---------- the loops ----------

  method Load(p: seq<int>) returns (a: array<int16>)
    requires |p| == 256 && TwelveBit(p)
    ensures fresh(a) && a.Length == 256 && a[..] == p
  {
    var n := Narrow(p);
    a := new int16[256](i requires 0 <= i < 256 => n[i]);
  }

  method TransformVec(v: seq<seq<int>>, zeta: array<int16>) returns (r: seq<seq<int>>)
    requires IsVec(v) && IsZetaTable(zeta)
    ensures r == NttVec(v)
  {
    hide Ntt, Zeta;
    r := [];
    for i := 0 to |v|
      invariant r == NttVec(v)[..i]
    {
      var a := Load(v[i]);
      PolyNtt(a, zeta);
      r := r + [a[..]];
    }
  }

  /** The accumulation loop shared by key generation, encryption and decryption. */
  method InnerProduct(x: seq<seq<int>>, y: seq<seq<int>>, zeta: array<int16>) returns (acc: array<int16>)
    requires IsWideVec(x) && IsWideVec(y) && Long(x) && Long(y) && |x| == |y| && IsZetaTable(zeta)
    ensures fresh(acc) && acc.Length == 256 && acc[..] == HatDot(x, y, |x|)
  {
    hide Zeta, NttMul, AddPoly, Canonical;
    acc := new int16[256](i => 0);
    assert acc[..] == ZeroPoly();
    for i := 0 to |x|
      invariant acc[..] == HatDot(x, y, i)
    {
      var tmp := new int16[256];
      var a := Load(x[i]);
      var b := Load(y[i]);
      PolyNttMul(tmp, a, b, zeta);
      PolyAdd(acc, acc, tmp);
    }
  }

  lemma VecIsWide(v: seq<seq<int>>)
    requires IsVec(v)
    ensures IsWideVec(v) && Long(v)
  {
  }

  method SampleNoise(o: Oracles, eta: int, seed: seq<byte>, n0: int) returns (v: seq<seq<int>>, n: int)
    requires o.Valid()
    ensures v == NoiseVec(o, eta, seed, n0) && n == n0 + K
  {
    n := n0;
    v := [];
    for i := 0 to K
      invariant v == NoiseVec(o, eta, seed, n0)[..i] && n == n0 + i
    {
      v := v + [o.noise(eta, seed, n)];
      n := n + 1;
    }
  }

  method PackAll(v: seq<seq<int>>) returns (r: seq<seq<byte>>)
    requires IsVec(v)
    ensures r == PackVec(v)
  {
    r := [];
    for i := 0 to |v|
      invariant r == PackVec(v)[..i]
    {
      var p := Encode12(Narrow(v[i]));
      r := r + [p.value];
    }
  }

  /** Codes from decode12 are not checked by the callers. */
  method UnpackAll(b: seq<seq<byte>>) returns (r: seq<seq<int>>)
    requires forall i :: 0 <= i < |b| ==> |b[i]| == 384
    ensures r == UnpackVec(b)
  {
    r := [];
    for i := 0 to |b|
      invariant r == UnpackVec(b)[..i]
    {
      var p, ok := Decode12(b[i]);
      r := r + [p];
    }
  }

  /** The seeds of key generation: kyber_g_hash over the buffer that holds d. */
  method ExpandSeed(o: Oracles, d: seq<byte>) returns (rho: seq<byte>, sigma: seq<byte>)
    requires o.Valid() && |d| == 32
    ensures (rho, sigma) == InPlaceG(o, d)
  {
    hide InPlaceG;
    var buf := new byte[64](i => if 0 <= i < |d| then d[i] else 0);
    assert buf[..32] == d;
    GHash(o, buf, 32, buf);
    rho, sigma := buf[..32], buf[32..];
    ghost var p := InPlaceG(o, d);
    assert buf[..] == p.0 + p.1;
    assert rho == p.0 && sigma == p.1;
  }

  method SampleMatrix(o: Oracles, rho: seq<byte>) returns (a: seq<seq<seq<int>>>)
    requires o.Valid()
    ensures a == Matrix(o, rho)
  {
    a := [];
    for i := 0 to K
      invariant a == Matrix(o, rho)[..i]
    {
      var row: seq<seq<int>> := [];
      for j := 0 to K
        invariant row == Matrix(o, rho)[i][..j]
      {
        row := row + [o.parse(rho, j, i)];
      }
      assert row == Matrix(o, rho)[i];
      a := a + [row];
    }
  }

  /** kyber_cpa_keygen for the 32 random bytes d. */
  method CpaKeygen(o: Oracles, d: seq<byte>, zeta: array<int16>) returns (pk: PublicKey, sk: PrivateKey)
    requires o.Valid() && |d| == 32 && IsZetaTable(zeta)
    ensures (pk, sk) == KeyPair(o, d)
  {
    hide Zeta, Ntt, AddPoly, HatDot, Canonical, Matrix, InPlaceG;
    var rho, sigma := ExpandSeed(o, d);
    var a := SampleMatrix(o, rho);
    var s, n := SampleNoise(o, ETA1, sigma, 0);
    var e, n' := SampleNoise(o, ETA1, sigma, n);
    s := TransformVec(s, zeta);
    e := TransformVec(e, zeta);
    var t: seq<seq<int>> := [];
    ghost var target := AddVec(MatVec(a, s), e);
    for i := 0 to K
      invariant t == target[..i]
    {
      var acc := ProductPlus(a[i], s, e[i], zeta);
      t := t + [acc];
    }
    assert t == target;
    var tBytes := PackAll(t);
    var sBytes := PackAll(s);
    pk, sk := PublicKey(tBytes, rho), PrivateKey(sBytes);
  }

  method ProductPlus(x: seq<seq<int>>, y: seq<seq<int>>, e: seq<int>, zeta: array<int16>) returns (r: seq<int>)
    requires IsVec(x) && IsVec(y) && |x| == |y| && IsPoly(e) && IsZetaTable(zeta)
    ensures r == AddPoly(HatDot(x, y, |x|), e) && IsPoly(r)
  {
    hide Zeta, AddPoly, HatDot;
    VecIsWide(x);
    VecIsWide(y);
    var acc := InnerProduct(x, y, zeta);
    var b := Load(e);
    PolyAdd(acc, acc, b);
    r := acc[..];
  }

  /** A masked inner product: transformed back, then the error added. */
  method InverseProductPlus(x: seq<seq<int>>, y: seq<seq<int>>, e: seq<int>, zeta: array<int16>) returns (r: array<int16>)
    requires IsWideVec(x) && IsWideVec(y) && Long(x) && Long(y) && |x| == |y| && IsPoly(e) && IsZetaTable(zeta)
    ensures fresh(r) && r.Length == 256 && r[..] == AddPoly(InvNtt(HatDot(x, y, |x|)), e)
  {
    hide Zeta, AddPoly, HatDot, InvNtt;
    r := InnerProduct(x, y, zeta);
    PolyInvNtt(r, zeta);
    var b := Load(e);
    PolyAdd(r, r, b);
  }

  /** u = NTT^-1(A^T * r) + e1, compressed and packed row by row. */
  method EncryptU(o: Oracles, rho: seq<byte>, r: seq<seq<int>>, e1: seq<seq<int>>, zeta: array<int16>, ghost rand: seq<byte>)
    returns (c1: seq<seq<byte>>)
    requires o.Valid() && IsZetaTable(zeta)
    requires r == NttVec(NoiseVec(o, ETA1, rand, 0)) && e1 == NoiseVec(o, ETA2, rand, K)
    ensures c1 == CompressVec(MaskU(o, rho, rand))
  {
    hide Zeta, Ntt, AddPoly, HatDot, InvNtt, Canonical, CompressPoly, Pack10, Two;
    TenBits();
    VecIsWide(r);
    ghost var u := MaskU(o, rho, rand);
    c1 := [];
    for i := 0 to K
      invariant c1 == CompressVec(u)[..i]
    {
      var row: seq<seq<int>> := [];
      for j := 0 to K
        invariant row == TransposedRow(o, rho, i)[..j]
      {
        row := row + [o.parse(rho, i, j)];
      }
      assert row == TransposedRow(o, rho, i);
      VecIsWide(row);
      var ui := InverseProductPlus(row, r, e1[i], zeta);
      assert ui[..] == u[i];
      PolyCompress(ui, 10, ui);
      var p := Encode10(ui[..]);
      c1 := c1 + [p.value];
    }
  }

  /** kyber_cpa_encrypt; defined for every public key of the right sizes. */
  method CpaEncrypt(o: Oracles, pk: PublicKey, m: seq<byte>, rand: seq<byte>, zeta: array<int16>) returns (c: Ciphertext)
    requires o.Valid() && PublicKeySizes(pk) && |m| == 32 && IsZetaTable(zeta)
    ensures c == Encryption(o, pk, m, rand)
  {
    hide Zeta, Ntt, AddPoly, HatDot, InvNtt, Canonical, CompressPoly, DecompressPoly, Two, CompressVec, MaskU, Pack4;
    TenBits();
    var t := UnpackAll(pk.t);
    var r, n := SampleNoise(o, ETA1, rand, 0);
    var e1, n' := SampleNoise(o, ETA2, rand, n);
    var e2 := o.noise(ETA2, rand, n');
    r := TransformVec(r, zeta);
    VecIsWide(r);
    var c1 := EncryptU(o, pk.rho, r, e1, zeta, rand);
    var v := InverseProductPlus(t, r, e2, zeta);
    var bits := Decode1(m);
    var mm := Load(bits);
    PolyDecompress(mm, 1, mm);
    PolyAdd(v, v, mm);
    assert v[..] == MaskV(o, t, m, rand);
    PolyCompress(v, 4, v);
    var c2 := Encode4(v[..]);
    c := Ciphertext(c1, c2.value);
  }

  method CpaDecrypt(sk: PrivateKey, c: Ciphertext, zeta: array<int16>, m: array<byte>)
    requires PrivateKeySizes(sk) && CiphertextSizes(c) && IsZetaTable(zeta) && m.Length == 32
    modifies m
    ensures m[..] == Decryption(sk, c)
  {
    hide Zeta, Ntt, SubPoly, HatDot, InvNtt, Canonical, DecompressPoly, MessageOf, UnpackVec, DecompressVec, Unpack4;
    var u := RestoreU(c.c1);
    var v := RestoreV(c.c2);
    var s := UnpackAll(sk.s);
    u := TransformVec(u, zeta);
    VecIsWide(u);
    var w := InnerProduct(s, u, zeta);
    PolyInvNtt(w, zeta);
    PolySub(w, v, w);
    WriteMessage(w, m);
  }

  method RestoreU(c1: seq<seq<byte>>) returns (u: seq<seq<int>>)
    requires |c1| == K && forall i :: 0 <= i < |c1| ==> |c1[i]| == 320
    ensures u == DecompressVec(c1) && IsVec(u)
  {
    hide Canonical, DecompressPoly, Two;
    TenBits();
    u := [];
    for i := 0 to K
      invariant u == DecompressVec(c1)[..i] && IsVec(u)
    {
      var z := Decode10(c1[i]);
      var a := Load(z);
      PolyDecompress(a, 10, a);
      u := u + [a[..]];
    }
    assert u == DecompressVec(c1);
  }

  method RestoreV(c2: seq<byte>) returns (v: array<int16>)
    requires |c2| == 128
    ensures fresh(v) && v.Length == 256 && v[..] == DecompressPoly(Unpack4(c2), 16) && Canonical(v[..])
  {
    hide Canonical, DecompressPoly, Two;
    TenBits();
    var z := Decode4(c2);
    v := Load(z);
    PolyDecompress(v, 4, v);
  }

  /** Rounds every coefficient of w to a bit and packs the bits into m. */
  method WriteMessage(w: array<int16>, m: array<byte>)
    requires w.Length == 256 && Canonical(w[..]) && m.Length == 32
    modifies w, m
    ensures m[..] == MessageOf(old(w[..]))
  {
    hide Canonical, CompressPoly, Two;
    TenBits();
    PolyCompress(w, 1, w);
    var out := Encode1(w[..]);
    Store(m, 0, out.value);
  }

  // ---------- key encapsulation ----------

  datatype KemPrivateKey = KemPrivateKey(sk: PrivateKey, pk: PublicKey, pkHash: seq<byte>, z: seq<byte>)

  function PublicKeyBytes(pk: PublicKey): seq<byte> {
    Flatten(pk.t) + pk.rho
  }

  function CiphertextBytes(c: Ciphertext): seq<byte> {
    Flatten(c.c1) + c.c2
  }

  method KemKeygen(o: Oracles, d: seq<byte>, z: seq<byte>, zeta: array<int16>) returns (pk: PublicKey, sk: KemPrivateKey)
    requires o.Valid() && |d| == 32 && |z| == 32 && IsZetaTable(zeta)
    ensures pk == KeyPair(o, d).0
    ensures sk == KemPrivateKey(KeyPair(o, d).1, pk, o.h(PublicKeyBytes(pk)), z)
  {
    var cpa;
    pk, cpa := CpaKeygen(o, d, zeta);
    sk := KemPrivateKey(cpa, pk, o.h(PublicKeyBytes(pk)), z);
  }

  /** The message and coins an encapsulation with random bytes `coins` uses. */
  function EncapMessage(o: Oracles, coins: seq<byte>): seq<byte> {
    o.h(coins)
  }

  function EncapRandomness(o: Oracles, pk: PublicKey, m: seq<byte>): (r: (seq<byte>, seq<byte>))
    requires o.Valid()
  {
    var kr := G(o, m + o.h(PublicKeyBytes(pk)));
    (kr[..32], kr[32..])
  }

  /** kyber_g_hash of m and h into a separate buffer. */
  method Mix(o: Oracles, m: seq<byte>, h: seq<byte>) returns (kr: seq<byte>)
    requires o.Valid()
    ensures kr == G(o, m + h)
  {
    var s := m + h;
    var inp := new byte[|s|](i requires 0 <= i < |s| => s[i]);
    var out := new byte[64];
    assert inp[..|s|] == s;
    GHash(o, inp, |s|, out);
    kr := out[..];
  }

  method KemEncap(o: Oracles, pk: PublicKey, coins: seq<byte>, zeta: array<int16>) returns (c: Ciphertext, key: seq<byte>)
    requires o.Valid() && PublicKeySizes(pk) && IsZetaTable(zeta)
    ensures var m := EncapMessage(o, coins); var (kbar, r) := EncapRandomness(o, pk, m);
            c == Encryption(o, pk, m, r) && key == o.kdf(kbar + o.h(CiphertextBytes(c)))
  {
    var m := o.h(coins);
    var h := o.h(PublicKeyBytes(pk));
    var kr := Mix(o, m, h);
    c := CpaEncrypt(o, pk, m, kr[32..], zeta);
    key := o.kdf(kr[..32] + o.h(CiphertextBytes(c)));
  }

  /** Decapsulation re-encrypts; on a mismatch the key is derived from the secret z. */
  method KemDecap(o: Oracles, sk: KemPrivateKey, c: Ciphertext, zeta: array<int16>) returns (key: seq<byte>)
    requires o.Valid() && PrivateKeySizes(sk.sk) && PublicKeySizes(sk.pk) && CiphertextSizes(c) && IsZetaTable(zeta)
    ensures key == Decapsulation(o, sk, c)
    ensures sk.pkHash == o.h(PublicKeyBytes(sk.pk)) && NoEncapsulation(o, sk.pk, c) ==>
              key == o.kdf(sk.z + o.h(CiphertextBytes(c)))
  {
    if sk.pkHash == o.h(PublicKeyBytes(sk.pk)) && NoEncapsulation(o, sk.pk, c) {
      ImplicitRejection(o, sk, c);
    }
    var buf := new byte[32];
    CpaDecrypt(sk.sk, c, zeta, buf);
    var m := buf[..];
    var kr := Mix(o, m, sk.pkHash);
    var c' := CpaEncrypt(o, sk.pk, m, kr[32..], zeta);
    var ch := o.h(CiphertextBytes(c));
    if c == c' {
      key := o.kdf(kr[..32] + ch);
    } else {
      key := o.kdf(sk.z + ch);
    }
  }

  function Decapsulation(o: Oracles, sk: KemPrivateKey, c: Ciphertext): seq<byte>
    requires o.Valid() && PrivateKeySizes(sk.sk) && PublicKeySizes(sk.pk) && CiphertextSizes(c)
  {
    var m := Decryption(sk.sk, c);
    var kr := G(o, m + sk.pkHash);
    if c == Encryption(o, sk.pk, m, kr[32..]) then o.kdf(kr[..32] + o.h(CiphertextBytes(c)))
    else o.kdf(sk.z + o.h(CiphertextBytes(c)))
  }

  /** No message encapsulates to c under pk. */
  ghost predicate NoEncapsulation(o: Oracles, pk: PublicKey, c: Ciphertext)
    requires o.Valid() && PublicKeySizes(pk)
  {
    forall m: seq<byte> :: |m| == 32 ==> c != Encryption(o, pk, m, EncapRandomness(o, pk, m).1)
  }

  /** Implicit rejection: the answer to anything that is not an encapsulation depends on the secret z and
      on the ciphertext only. */
  lemma ImplicitRejection(o: Oracles, sk: KemPrivateKey, c: Ciphertext)
    requires o.Valid() && PrivateKeySizes(sk.sk) && PublicKeySizes(sk.pk) && CiphertextSizes(c)
    requires sk.pkHash == o.h(PublicKeyBytes(sk.pk)) && NoEncapsulation(o, sk.pk, c)
    ensures Decapsulation(o, sk, c) == o.kdf(sk.z + o.h(CiphertextBytes(c)))
  {
    hide Encryption, Decryption, CiphertextBytes, PublicKeyBytes, G;
    var m := Decryption(sk.sk, c);
    assert c != Encryption(o, sk.pk, m, EncapRandomness(o, sk.pk, m).1);
  }

  /** And to an encapsulation of m that decrypts to m it is the key derived from m: the two answers are
      told apart by decryption alone. */
  lemma EncapsulationAnswered(o: Oracles, sk: KemPrivateKey, m: seq<byte>)
    requires o.Valid() && PrivateKeySizes(sk.sk) && PublicKeySizes(sk.pk) && |m| == 32
    requires sk.pkHash == o.h(PublicKeyBytes(sk.pk))
    requires var c := Encryption(o, sk.pk, m, EncapRandomness(o, sk.pk, m).1); Decryption(sk.sk, c) == m
    ensures var c := Encryption(o, sk.pk, m, EncapRandomness(o, sk.pk, m).1);
            Decapsulation(o, sk, c) == o.kdf(o.h(m + sk.pkHash + [0, 0, 0, 0]) + o.h(CiphertextBytes(c)))
  {
    hide Encryption, Decryption, CiphertextBytes, PublicKeyBytes;
    var s := m + sk.pkHash;
    assert s + [0, 0, 0, 0] == m + sk.pkHash + [0, 0, 0, 0];
    assert G(o, s)[..32] == o.h(s + [0, 0, 0, 0]);
  }

  /** Whenever the error polynomial of an encapsulation is tolerated, decapsulating its
      ciphertext with the matching private key returns the encapsulated key. */
  lemma KemCorrect(o: Oracles, d: seq<byte>, z: seq<byte>, coins: seq<byte>)
    requires o.Valid()
    requires var m := EncapMessage(o, coins);
             forall i :: 0 <= i < 256 ==>
               Tolerated(Unpack1(m)[i], NoisePoly(o, d, m, EncapRandomness(o, KeyPair(o, d).0, m).1)[i])
    ensures var (pk, sk) := KeyPair(o, d);
            var m := EncapMessage(o, coins);
            var (kbar, r) := EncapRandomness(o, pk, m);
            var c := Encryption(o, pk, m, r);
            Decapsulation(o, KemPrivateKey(sk, pk, o.h(PublicKeyBytes(pk)), z), c)
            == o.kdf(kbar + o.h(CiphertextBytes(c)))
  {
    hide Encryption, Decryption, KeyPair, NoisePoly, Unpack1, Tolerated;
    var m := EncapMessage(o, coins);
    DecryptionCorrect(o, d, m, EncapRandomness(o, KeyPair(o, d).0, m).1);
  }

  /** Every coefficient of the error polynomial lies in [-831, 831]. */
  predicate WithinBound(o: Oracles, d: seq<byte>, m: seq<byte>, rand: seq<byte>)
    requires o.Valid() && |m| == 32
  {
    forall i :: 0 <= i < 256 ==> -831 <= Centred(NoisePoly(o, d, m, rand)[i]) <= 831
  }

  /** The noise bound of the scheme: it guarantees decryption for every message ... */
  lemma DecryptionWithinBound(o: Oracles, d: seq<byte>, m: seq<byte>, rand: seq<byte>)
    requires o.Valid() && |m| == 32 && WithinBound(o, d, m, rand)
    ensures var (pk, sk) := KeyPair(o, d); Decryption(sk, Encryption(o, pk, m, rand)) == m
  {
    hide Encryption, Decryption, KeyPair, NoisePoly, Unpack1, Tolerated, Centred;
    DecryptionCorrect(o, d, m, rand);
    forall i | 0 <= i < 256 ensures Tolerated(Unpack1(m)[i], NoisePoly(o, d, m, rand)[i]) {
      SmallNoise(Unpack1(m)[i], NoisePoly(o, d, m, rand)[i]);
    }
  }

  /** ... and the agreement of both keys for every encapsulation. */
  lemma KemWithinBound(o: Oracles, d: seq<byte>, z: seq<byte>, coins: seq<byte>)
    requires o.Valid()
    requires var m := EncapMessage(o, coins); WithinBound(o, d, m, EncapRandomness(o, KeyPair(o, d).0, m).1)
    ensures var (pk, sk) := KeyPair(o, d);
            var m := EncapMessage(o, coins);
            var (kbar, r) := EncapRandomness(o, pk, m);
            var c := Encryption(o, pk, m, r);
            Decapsulation(o, KemPrivateKey(sk, pk, o.h(PublicKeyBytes(pk)), z), c)
            == o.kdf(kbar + o.h(CiphertextBytes(c)))
  {
    hide Encryption, Decryption, KeyPair, NoisePoly, Unpack1, Tolerated, Centred, Decapsulation;
    var m := EncapMessage(o, coins);
    var r := EncapRandomness(o, KeyPair(o, d).0, m).1;
    forall i | 0 <= i < 256 ensures Tolerated(Unpack1(m)[i], NoisePoly(o, d, m, r)[i]) {
      SmallNoise(Unpack1(m)[i], NoisePoly(o, d, m, r)[i]);
    }
    KemCorrect(o, d, z, coins);
  }
}
