# Verified models of GmSSL's algorithmic core

This project models, in Dafny 4.11, the parts of GmSSL whose correctness is mathematics over loops and
buffers, and proves properties of the models:

- **Kyber** (`src/kyber.c`, sections 1.1 to 1.3 of the CRYSTALS-Kyber specification, version 3.02):
  the in-place transforms, pairwise multiplication, compression, bit packing, CPA encryption and the
  KEM. Modules `KyberRing`, `KyberNtt`, `KyberPoly`, `KyberEval`, `KyberAlgebra`, `KyberCodec`,
  `KyberLayout`, `KyberCpa`, `KyberKem`, `KyberLwe`.
- **SM2 arithmetic** (`src/sm2_z256.c`): limbs, Montgomery arithmetic modulo p and n, fixed inversion
  chains, Jacobian formulas, Booth recoding and both windowed multiplications. Modules `NumberTheory`,
  `Z256`, `Field`, `FieldElem`, `FieldInv`, `Curve`, `Points`, `Booth`, `ScalarMul`.
- **SM2 protocols** (`src/sm2_sign.c`, `src/sm2_enc.c`, `src/sm2_ring.c`, `src/sm2_key_share.c`,
  `src/sm2_elgamal.c`): signatures, batch inversion and the nonce pools, ring signatures, key sharing,
  ElGamal. Modules `SignSpec`, `Sign`, `Batch`, `Pool`, `SignContext`, `Groups`, `Ring`, `KeyShare`, `ElGamal`.
- **Codecs** (`src/asn1.c`, `src/base64.c`): DER lengths, integers, signatures and times, streaming
  Base64. Modules `Asn1`, `DerLayout`, `Asn1Time`, `Base64`, `Base64Layout`.
- **Symmetric layer** (`src/gf128.c`, `src/ghash.c`, `src/aes.c`, `src/aes_modes.c`): GF(2^128), GHASH,
  AES, CBC, CTR and GCM. Modules `Polynomials`, `Gf128`, `Ghash`, `AesTables`, `AesInverse`, `Aes`,
  `AesField`, `AesModes`, `ModeBlocks`.

`Common` and `Modular` hold shared types and congruences. `dafny verify dfyconfig.toml` checks everything.

## How the models are built

Each loop or in-place routine is a method proved against a specification function; theorems about the
specification are lemmas. A C struct passed by pointer is a class (`Points.Point`, contexts, coders) or an
array; `r` may alias an operand wherever the C code allows it.

Where a routine follows a standard or a textbook definition, its specification function is tied to that
definition by lemmas that do not mention it: `KyberLwe`, `KyberLayout`, `AesField`, `ModeBlocks`, `DerLayout`,
`Base64Layout` and the closed forms in `Asn1Time`.

Hypotheses, always visible in the `requires` clauses:

- `Prime(P)`, `Prime(N)`: the field prime and the group order are prime. Nothing else about primes is
  assumed; inverses, cancellation and Fermat's little theorem are proved.
- `Multiples(cb, mul)`: the multiples of a point add up as integers do (associativity of the group law,
  which the chord-and-tangent definitions in `Curve` do not give by themselves); `OrderN(mul)`: the order is n.
- `GeneratorTable(mul, tab)`: row i, entry j of the table in `src/sm2_z256_table.c` is (j+1) 2^(7i) G.
- Randomness is an input, hashes and the Kyber samplers are function parameters.

## Where the code falls short of what it is for

- `sm2_z256_point_mul_generator` returns infinity instead of kG for exactly one 256-bit scalar,
  k = n - 70: the last window digit is -35 and the mixed addition, which has no doubling case, meets
  -35G twice (`Points.AddAffine`, `ScalarMul.Coincidence`, `ScalarMul.GeneratorExact`). So a signature is
  accepted if and only if neither the nonce nor s is n - 70, or the missing point does not show in the
  x-coordinate (`SignSpec.CompletenessExact`, `SignSpec.BothExceptional`); one such nonce
  zeroes a whole precomputed batch (`Batch.SignPreCompute`).
- `sm2_elgamal_decrypt_pre_compute` lets a seventh entry into a record of six slots. It falls on the count
  and the first byte of the record's x-coordinate (`ElGamal.SeventhWrite`), and some m are then not
  decrypted (`ElGamal.SpoiledRecord`, `ElGamal.SeventhLost`; `ElGamal.Decrypt` has the exact condition).
  With SM2's generator the largest buckets have seven entries: 40424, 40558 and 56484, with seventh
  entries 53095, 61809 and 61297 (numerical facts that are not proved here; the lemmas take the size of the
  bucket as hypothesis).
- `sm2_sign_init` on a used context whose refill fails leaves unused slots with new nonces and old
  x-coordinates, and ignores the refusal of a key of n - 1 or more (`SignContext.SignCtx.Init`). Signing
  through a context never retries, so r = 0, s = 0 and r + k = n can come out (`SignContext.Signed`).
- `kyber_cpa_keygen` expands the seed inside its own buffer, so the secret sigma is a hash of the public
  rho (`KyberKem.ExpandSeed`).
- `sm2_key_split` ignores the refusal of a share value n - 1, so that share is stored as zero
  (`KeyShare.RecoveredIff`, `KeyShare.Spoiled`; the key s with polynomial s + (n - 1 - s) x comes back as
  s + 2, `KeyShare.SpoiledExample`). `sm2_key_recover` accepts repeated indices and gives them weight zero
  (`KeyShare.RepeatedWeight`, `KeyShare.AllRepeated`).
- `asn1_time_to_str` writes characters that are not a date for negative timestamps, and now and then a
  different date (`Asn1Time.TimeRoundTrip`, `Asn1Time.AliasedDate`).
- `asn1_integer_to_der_ex` ignores a refused length, so an integer of INT_MAX bytes with its top bit set
  is written without length octets (`Asn1.IntegerRoundTrip`).
- Kyber's 1-bit rounding treats 832 asymmetrically (`KyberCodec.RoundingError1`).

## Model

| member | source | states |
|---|---|---|
| KyberPoly.InitZeta | src/kyber.c:324-332 | the table filled by the loop is 17^i mod 3329 for every i below 256 |
| KyberPoly.Br7 | src/kyber.c:334-346 | the shift loop is the 7-bit reversal |
| KyberRing.MirroredReversals | src/kyber.c:380-409 | br7(L+g) + br7(2L-1-g) = 128 at every level L, the identity that lets the inverse transform walk the twiddles backwards |
| KyberRing.ZetaHalfTurn | src/kyber.c:322-332 | 17^128 = -1: the root of unity has order 256, so the exponents may be taken modulo 256 |
| KyberRing.NodeConstIsSquare | src/kyber.c:348-369 | the constant of a butterfly node is the square of its twiddle, so each split is a factorisation X^2 - z^2 = (X-z)(X+z) |
| KyberRing.InvTwiddleInverts | src/kyber.c:380-409 | the factor the inverse pass uses is the inverse of the forward twiddle of the same node |
| KyberRing.FoldProd | src/kyber.c:348-369 | reducing modulo X^n - z commutes with multiplication of polynomials |
| KyberPoly.NttGroup | src/kyber.c:348-369 | one group of in-place butterflies computes both residues of its block, with every stored value canonical and no 16-bit overflow |
| KyberPoly.PolyNtt | src/kyber.c:348-369 | the in-place nested loops with the running br_i compute the recursive transform, keeping all 256 coefficients in [0, 3329) |
| KyberPoly.Div2 | src/kyber.c:371-378 | halving modulo q: the canonical h with 2h congruent to a |
| KyberPoly.PolyInvNtt | src/kyber.c:380-409 | the in-place inverse loops compute the recursive inverse transform, canonical throughout |
| KyberNtt.TransformsInverse | src/kyber.c:348-409 | the transform and the inverse transform undo each other in both directions on all canonical polynomials |
| KyberNtt.NttMultiplicative | src/kyber.c:418-435 | pairwise multiplication of transforms is the transform of the product modulo X^256 + 1 |
| KyberNtt.MulViaNtt | src/kyber.c:445-462 | transform, multiply pairwise, transform back equals the schoolbook negacyclic product |
| KyberPoly.LinearPolyMul | src/kyber.c:412-416 | the two written coefficients are the product of the linear polynomials modulo X^2 - zeta, for all 12-bit inputs; nothing else changes |
| KyberPoly.PolyNttMul | src/kyber.c:418-435 | the loop with zeta and -zeta computes the pairwise product, canonical for all 12-bit inputs |
| KyberPoly.PolyMul | src/kyber.c:445-462 | for all canonical inputs the result is the schoolbook product modulo X^256 + 1, also when r is an input |
| KyberPoly.PolyAdd | src/kyber.c:306-312 | coefficientwise sum modulo q, in place |
| KyberPoly.PolySub | src/kyber.c:314-320 | coefficientwise difference modulo q, in place |
| KyberEval.NttMatchesSpecification | src/kyber.c:348-369 | coefficients 2i and 2i+1 of the transform are the closed-form sums at 17^(2 br7(i) + 1) of section 1.1 of the Kyber specification |
| KyberAlgebra.NttMulAssoc | src/kyber.c:418-435 | pairwise multiplication is associative on canonical inputs |
| KyberAlgebra.NttMulComm | src/kyber.c:418-435 | pairwise multiplication is commutative |
| KyberAlgebra.NttMulDistrib | src/kyber.c:418-435 | pairwise multiplication distributes over addition |
| KyberAlgebra.NttAdditive | src/kyber.c:348-369 | the transform of a sum is the sum of the transforms |
| KyberCodec.PolyCompress | src/kyber.c:509-519 | every coefficient becomes round(a * 2^d / q) modulo 2^d, for d = 10, 4 and 1 |
| KyberCodec.PolyDecompress | src/kyber.c:521-531 | every code becomes round(q * z / 2^d), back in [0, q) |
| KyberCodec.RoundingError10 | src/kyber.c:509-531 | decompressing a 10-bit code is off by at most 2 from the original, modulo q |
| KyberCodec.RoundingError4 | src/kyber.c:509-531 | decompressing a 4-bit code is off by at most 104 |
| KyberCodec.RoundingError1 | src/kyber.c:509-531 | the 1-bit error is within 832 exactly when the coefficient is not 832, the one asymmetric case |
| KyberCodec.OneBit | src/kyber.c:509-531 | the decoded bit is one exactly for coefficients from 832 to 2496 |
| KyberCodec.UnpackPack12 | src/kyber.c:533-573 | decoding 12-bit fields inverts encoding for all field values |
| KyberCodec.UnpackPack10 | src/kyber.c:575-612 | decoding 10-bit fields, each spread over two bytes, inverts encoding |
| KyberCodec.UnpackPack4 | src/kyber.c:614-638 | decoding 4-bit fields inverts encoding |
| KyberCodec.UnpackPack1 | src/kyber.c:640-664 | decoding bits inverts encoding them |
| KyberCodec.PackUnpack1 | src/kyber.c:640-664 | encoding bits inverts decoding them, so messages survive both ways |
| KyberLayout.Layout12 | src/kyber.c:533-552 | where the bits go: the bytes, low first, and the 12-bit fields, first first, are digits of the same number |
| KyberLayout.Layout10 | src/kyber.c:575-596 | the same for 10-bit fields |
| KyberLayout.Layout4 | src/kyber.c:614-628 | the same for 4-bit fields |
| KyberLayout.Layout1 | src/kyber.c:650-664 | the same for bits |
| KyberCodec.Encode12 | src/kyber.c:533-552 | the loop writes exactly the packed fields, and refuses exactly the polynomials with a coefficient of 3329 or more |
| KyberCodec.Decode12 | src/kyber.c:554-573 | the loop reads exactly the packed fields and reports whether all are below 3329 |
| KyberCodec.Encode10 | src/kyber.c:575-596 | packs 10-bit fields or refuses out-of-range ones |
| KyberCodec.Decode10 | src/kyber.c:598-612 | reads 10-bit fields |
| KyberCodec.Encode4 | src/kyber.c:614-628 | packs 4-bit fields or refuses out-of-range ones |
| KyberCodec.Decode4 | src/kyber.c:630-638 | reads 4-bit fields |
| KyberCodec.Encode1 | src/kyber.c:650-664 | packs bits, refusing other values |
| KyberCodec.Decode1 | src/kyber.c:640-648 | reads bits |
| KyberCpa.TransposeLaw | src/kyber.c:1075-1148 | s . (A^T r) = (A s) . r in the transform domain: why the same matrix can be used transposed by the encryptor |
| KyberCpa.MaskValue | src/kyber.c:1219-1331 | the mask t . r computed through transforms splits into (A s) . r + e . r |
| KyberCpa.UnmaskValue | src/kyber.c:1333-1379 | what decryption subtracts splits into s . (A^T r) + s . e1 + s . du |
| KyberCpa.DecryptionEquation | src/kyber.c:1333-1379 | v - s . u = 1665 m + e . r + e2 - s . e1 + dv - s . du in the ring, for every key, message and randomness |
| KyberCpa.GHash | src/kyber.c:111-126 | the two hashes, exactly, for separate buffers and for one: in place the second hash reads what the first has written |
| KyberKem.ExpandSeed | src/kyber.c:1075-1095 | rho and sigma come from the in-place expansion, so sigma is a hash of rho |
| KyberKem.CpaKeygen | src/kyber.c:1075-1148 | the generated pair is the one of the specification function, for every 32-byte seed and every sampler, the seed being expanded inside its own buffer |
| KyberKem.CpaEncrypt | src/kyber.c:1219-1331 | the ciphertext is the packed compressed pair (u, v) of the specification function |
| KyberKem.CpaDecrypt | src/kyber.c:1333-1379 | the output is the 1-bit rounding of v - s . u |
| KyberLwe.PublicKeyEquation | src/kyber.c:1075-1148 | t = A s + e in the ring with the schoolbook product, with the sampling arguments of every entry |
| KyberLwe.MaskEquation | src/kyber.c:1219-1331 | u = A^T r + e1 in the ring |
| KyberLwe.MessageEquation | src/kyber.c:1219-1331 | v = t . r + e2 + 1665 m in the ring, coefficient by coefficient |
| KyberLwe.CiphertextParts | src/kyber.c:1219-1331 | the ciphertext is u rounded to 10 bits and v to 4 |
| KyberKem.RoundingBounds | src/kyber.c:509-531 | every coefficient of du is within 2 and of dv within 104 |
| KyberKem.DecryptionValue | src/kyber.c:1333-1379 | the polynomial that is rounded is 1665 m + noise, end to end through packing and compression |
| KyberKem.DecryptionCorrect | src/kyber.c:1333-1379 | the decrypted message is the encrypted one if and only if every noise coefficient lies in the tolerated interval |
| KyberKem.DecryptionWithinBound | src/kyber.c:1333-1379 | noise coefficients in [-831, 831] guarantee decryption of every message |
| KyberKem.KemKeygen | src/kyber.c:1381-1398 | the KEM key holds the CPA key, the public key, its hash and the rejection seed |
| KyberKem.KemEncap | src/kyber.c:1421-1460 | ciphertext and key are those derived from the hashed message and public-key hash |
| KyberKem.KemDecap | src/kyber.c:1462-1509 | re-encryption decides between the derived key and the rejection key; for every c that no message encapsulates to, the key is KDF(z, H(c)) |
| KyberKem.ImplicitRejection | src/kyber.c:1496-1503 | implicit rejection: the answer to anything but an encapsulation depends on z and c only |
| KyberKem.EncapsulationAnswered | src/kyber.c:1462-1509 | an encapsulation of m that decrypts to m is answered with KDF(H(m, H(pk), 0), H(c)) |
| KyberKem.KemCorrect | src/kyber.c:1421-1509 | when the noise is tolerated, decapsulation returns the key encapsulation produced |
| KyberKem.KemWithinBound | src/kyber.c:1421-1509 | noise coefficients in [-831, 831] guarantee that both sides hold the same key |
| NumberTheory.FermatLittle | src/sm2_z256.c:689-769 | a^(p-1) = 1 for every unit modulo a prime, proved by permuting the residues; the inversion chains rest on it |
| NumberTheory.EuclidLemma | src/sm2_z256.c:1233-1328 | a prime dividing a product divides a factor: the zero tests on products of coordinates rest on it |
| Z256.AddCarry | src/sm2_z256.c:206-230 | one limb of a carry chain is exact although 64-bit addition wraps |
| Z256.Add | src/sm2_z256.c:206-230 | four-limb sum and carry are exact, r may be an operand |
| Z256.Sub | src/sm2_z256.c:232-256 | four-limb difference and borrow are exact, r may be an operand |
| Z256.Cmp | src/sm2_z256.c:167-178 | the comparison from the top limb is the comparison of the integers |
| Z256.MulRow | src/sm2_z256.c:258-286 | one row of the 32-bit schoolbook product adds x * b with no overflow of the 64-bit accumulator |
| Z256.Mul | src/sm2_z256.c:258-286 | the eight result limbs are the exact 512-bit product, also when r is an operand |
| Z256.Add8 | src/sm2_z256.c:288-332 | eight-limb sum and carry are exact |
| Z256.Val4Injective | src/sm2_z256.c:155-165 | limb equality is equality of the integers |
| Field.ModuliValid | src/sm2_z256.c:386-401 | the tables for p and n are consistent: 2^256 - m and -1/m mod 2^256 are what the constants hold |
| Field.ModAdd | src/sm2_z256.c:403-419 | reduced sum on both branches, also with operands equal to the modulus, for p and n |
| Field.ModSub | src/sm2_z256.c:421-431 | reduced difference on both branches |
| Field.ModNeg | src/sm2_z256.c:445-448 | m - a: the negative of zero is the modulus itself, not zero |
| Field.ModHaf | src/sm2_z256.c:450-467 | the unique half modulo m, including the carry out of 256 bits |
| Field.MontMul | src/sm2_z256.c:603-640 | for every pair with a b < m 2^256 the result is the canonical a b 2^-256; the same body serves p and n |
| FieldElem.DecInjective | src/sm2_z256.c:603-640 | reduced Montgomery representatives of different residues differ |
| FieldElem.DecMul | src/sm2_z256.c:603-640 | Montgomery multiplication multiplies the decoded residues |
| FieldElem.FeMul | src/sm2_z256.c:642-645 | the product routine on residues, closed on representatives up to the modulus |
| FieldElem.FeTri | src/sm2_z256.c:438-443 | tripling on residues |
| FieldInv.MontInvP | src/sm2_z256.c:689-769 | the fixed chain computes exactly a^(p-2) |
| FieldInv.MontExp | src/sm2_z256.c:665-686 | square-and-multiply over four limbs computes a^e for every 256-bit e, modulo p and modulo n |
| FieldInv.MontInvN | src/sm2_z256.c:973-1010 | the chain with the runs of ones of n - 2 computes exactly a^(n-2) |
| FieldInv.FeInvP | src/sm2_z256.c:689-769 | the result is the inverse of every nonzero element modulo the prime p, and zero for zero |
| FieldInv.FeInvN | src/sm2_z256.c:973-1010 | the same modulo n |
| Curve.TangentFormula | src/sm2_z256.c:1152-1218 | the 18 field steps of doubling give the coordinates of the tangent point over the new denominator |
| Curve.ChordFormula | src/sm2_z256.c:1233-1328 | the common tail of both additions gives the chord point over the new denominator |
| Curve.DoubleRep | src/sm2_z256.c:1152-1218 | the doubling formulas represent the double of every point, infinity and y = 0 included |
| Curve.ChordRep | src/sm2_z256.c:1233-1328 | the addition formulas represent the sum of two points with different x |
| Curve.EcAddOnCurve | src/sm2_z256.c:1079-1115 | the chord-and-tangent law never leaves the curve, for every coefficient b |
| Curve.SameX | src/sm2_z256.c:1233-1328 | two curve points with the same x are equal or opposite |
| Points.PointDbl | src/sm2_z256.c:1152-1218 | the in-place routine represents P + P, keeps the limb bounds, and is right when the result is the operand |
| Points.PointAdd | src/sm2_z256.c:1233-1328 | represents P + Q for all pairs, equal, opposite and infinite ones included, whatever their Z, and when the result is either operand |
| Points.PtUnique | src/sm2_z256.c:1233-1328 | a representative stands for one point only, so nothing depends on the choice of Z |
| Points.PointNeg | src/sm2_z256.c:1331-1336 | represents -P |
| Points.PointSub | src/sm2_z256.c:1338-1343 | represents P - Q with aliasing |
| Points.CopyAffine | src/sm2_z256.c:1471-1475 | an affine point with Z = 1 stands for itself |
| Points.AddAffine | src/sm2_z256.c:1478-1557 | exact behaviour of mixed addition: the sum for every pair except two equal affine points, for which it returns infinity |
| Points.SubAffine | src/sm2_z256.c:1560-1569 | the same for P - B: the difference, infinity where P = -B as affine points, and for B = (0, 0) the sum with the point (0, p) that negation makes of it |
| Points.FromMont | src/sm2_z256.c:648-651 | leaving Montgomery form gives the residue itself |
| Points.GetXy | src/sm2_z256.c:1117-1149 | reports the affine coordinates on both branches; infinity gives zeros, and failure exactly when its X and Y also satisfy X^3 = Y^2 |
| Points.InfinityTest | src/sm2_z256.c:1233-1328 | all limbs of Z zero, the test of the additions, is the same as being infinity |
| Points.IsAtInfinity | src/sm2_z256.c:1053-1072 | true exactly for the representatives of infinity with X^3 = Y^2 |
| Booth.GetBooth | src/sm2_z256.c:334-353 | the bits assembled from one or two limbs give the signed window digit, for every window width up to 31 and every in-range window |
| Booth.DigitStep | src/sm2_z256.c:334-353 | each digit is what the next coarser value leaves over, and lies in [-2^(w-1), 2^(w-1)] |
| Booth.UpperEnds | src/sm2_z256.c:1421-1457 | all windows together sum to the scalar and nothing lies above the top window |
| ScalarMul.MulNeg | src/sm2_z256.c:1331-1336 | the negative of iP is (-i)P |
| ScalarMul.PreCompute | src/sm2_z256.c:1345-1383 | table slot j holds (j+1)P on both branches, although the Z = 1 branch uses the incomplete mixed addition |
| ScalarMul.MulEx | src/sm2_z256.c:1385-1419 | with a table of P the window loop returns kP for every 256-bit k; the first nonzero digit is positive, so every index is in range |
| ScalarMul.PointMul | src/sm2_z256.c:1421-1457 | returns kP for every 256-bit k and every P that is infinity or has order n |
| ScalarMul.Coincidence | src/sm2_z256.c:1590-1617 | the running sum meets the point being added exactly when the window is the last one and k = n - 70 |
| ScalarMul.MulGenerator | src/sm2_z256.c:1590-1617 | for every 256-bit k the result is kG, except for k = n - 70 where it is infinity, given the meaning of the table rows |
| ScalarMul.GeneratorExact | src/sm2_z256.c:1590-1617 | the returned point is kG if and only if k is not n - 70 |
| ScalarMul.MulSum | src/sm2_z256.c:1620-1626 | t P + s G with the generator's exception visible |
| SignSpec.RetryExact | src/sm2_sign.c:22-92 | the retry tests r = 0, r + k = n and s = 0 hold for no nonce exactly when the verifier's range checks on r, s and r + s pass |
| SignSpec.Recombine | src/sm2_sign.c:271-332 | s G + (r + s) d G = k G for every key, nonce and r |
| SignSpec.AcceptedIff | src/sm2_sign.c:271-332 | whatever x went into r: the signature is accepted if and only if none of the three retry tests holds and x is the x-coordinate of kG, or of (k + 70)G when s is n - 70 |
| SignSpec.MissingGenerator | src/sm2_sign.c:271-332 | for s = n - 70 the verifier, which loses sG, is left with (k + 70)G |
| SignSpec.CompletenessExact | src/sm2_sign.c:22-92 | for every nonce the signature is accepted if and only if it is not retried and s is not n - 70 and (k is not n - 70 or x(kG) = 0 mod n), or s is n - 70 and the signer's x-coordinate is that of (k + 70)G |
| SignSpec.BothExceptional | src/sm2_sign.c:22-92 | with k = s = n - 70 both sides miss the same point and the signature is accepted |
| SignSpec.SignVerify | src/sm2_sign.c:271-332 | away from n - 70 the nonces that are not retried are exactly those whose signature is accepted |
| SignSpec.FastAgrees | src/sm2_sign.c:176-206 | s of the fast signer equals s of the plain signer for every key and nonce |
| SignSpec.PublicKeyMultiples | src/sm2_sign.c:271-332 | the multiples of a public key form a group of order n, so the verifier's multiplication is the right one |
| Sign.NToMont | src/sm2_z256.c:1036-1039 | the Montgomery form of a reduced residue |
| Sign.SignOnce | src/sm2_sign.c:46-84 | one pass of the loop on limbs: retry exactly when the nonce is unusable, otherwise the (r, s) of the scheme |
| Sign.DoSign | src/sm2_sign.c:22-92 | over any sequence of random draws the first usable nonce is used; d = n - 1 is refused; exhaustion is the only other failure |
| Sign.DoVerify | src/sm2_sign.c:271-332 | accepts exactly the signatures the scheme accepts, range checks included |
| Sign.FastVerify | src/sm2_sign.c:208-269 | the same verdict from the precomputed point table |
| Sign.SignThenVerify | src/sm2_sign.c:22-92 | limb-level completeness: what DoSign returns DoVerify accepts if and only if the condition of CompletenessExact holds for the nonce used |
| Sign.ComputeKey | src/sm2_sign.c:95-104 | 1/(1 + d), refused exactly for d >= n - 1 |
| Sign.FastSign | src/sm2_sign.c:180-206 | (k + r) d' - r for whatever key, nonce and x are stored; the plain signer's s when d' = 1/(1 + d), and its r when x belongs to the nonce |
| Batch.InvertAll | src/sm2_sign.c:131-160 | one field inversion and prefix and suffix products invert any number N >= 2 of Z-coordinates; a single zero makes all of them zero |
| Batch.SignPreCompute | src/sm2_sign.c:107-174 | each slot holds x(kG) mod n of its own k, for every batch without the nonce n - 70; with it every slot holds zero |
| Batch.EncryptPreCompute | src/sm2_enc.c:62-136 | each slot holds both affine coordinates of its own kG, under the same exact condition |
| Pool.NeverReused | src/sm2_sign.c:507-592 | over every run of init, update, finish and reset, refused calls and refills that fail half-way through a re-initialisation included, slot indices stay in range and no drawn nonce is consumed twice |
| Pool.OneNoncePerFinish | src/sm2_enc.c:571-622 | each finish that reaches a slot consumes exactly one nonce and no other call consumes any |
| Pool.StepKeepsInv | src/sm2_enc.c:526-633 | every call keeps: slots in range, remaining slots different and unused, used nonces distinct |
| SignContext.SignCtx.Init | src/sm2_sign.c:507-538 | all paths on new and used contexts: refused identity, failing refill (old key, old slot count and old x-coordinates beside new nonces), success; a key of n - 1 or more leaves the previous fast key in place |
| SignContext.SignCtx.Refill | src/sm2_sign.c:107-174 | a completed refill pairs every nonce with its x-coordinate; a failing one has overwritten the first nonces only |
| SignContext.SignSlot | src/sm2_sign.c:180-206 | the signature made of a stored nonce and a stored x-coordinate: its exact (r, s), and acceptance if and only if no retry test holds and the stored x is the one the verifier sees |
| SignContext.SignCtx.Update | src/sm2_sign.c:546-556 | only the hash state changes, and only for nonempty data |
| SignContext.SignCtx.Reset | src/sm2_sign.c:540-544 | back to the state after the identity prefix, pool untouched |
| SignContext.SignCtx.Finish | src/sm2_sign.c:558-592 | signs the digest of exactly the data since the last reset with the newest unused nonce, never retrying; (r, s) is exact in every case (r = e mod n when the batch holds n - 70), with the exact condition for acceptance; fails exactly when a needed refill fails |
| Ring.CycleCloses | src/sm2_ring.c:196-234 | challenges that fit at every position make the walk from position 0 return to its start |
| Ring.SignerFits | src/sm2_ring.c:172-189 | the signer's response makes the next challenge the one from kG |
| Ring.NextValue | src/sm2_ring.c:196-234 | the challenge after a key aG is the x-coordinate of (s + (s + r)a)G plus the digest |
| Ring.AcceptedExact | src/sm2_ring.c:196-234 | accepted if and only if there are challenges beginning with r0 that fit at every position |
| Ring.WalkAccepted | src/sm2_ring.c:110-194 | the cyclic walk from the signer, closed by the response, fits everywhere and is accepted from index 0, for every ring, position and random choice |
| Ring.FindSigner | src/sm2_ring.c:129-142 | the first position of the signer's key, or absence |
| Ring.RingSign | src/sm2_ring.c:110-194 | succeeds exactly when the key is in the ring; then the challenges fit at every position, the one after the signer comes from kG, the other responses are the random ones, the signer's solves s(1 + d) = k - rd, and the signature is accepted |
| Ring.RingVerify | src/sm2_ring.c:196-234 | accepts exactly when the walk over all keys returns to r0, that is when fitting challenges exist |
| KeyShare.EvalPoly | src/sm2_key_share.c:31-38 | Horner's loop evaluates the polynomial modulo n |
| KeyShare.PartitionOfUnity | src/sm2_key_share.c:112-160 | the interpolation weights at zero of any distinct nodes add up to one |
| KeyShare.Interpolation | src/sm2_key_share.c:112-160 | weighted values of any polynomial with at most as many coefficients as nodes add up to its constant term |
| KeyShare.NoOverflow | src/sm2_key_share.c:113-127 | with at most 12 shares the signed int numerator and denominator products stay within 12! and 11! at every step, and the denominator is never zero |
| KeyShare.ShareWeight | src/sm2_key_share.c:112-143 | for any indices the weight is num/den modulo n of the wrapped 32-bit products, zero for a zero denominator; with distinct indices it is the interpolation weight |
| KeyShare.Recover | src/sm2_key_share.c:85-167 | rejects exactly the inconsistent share lists and computes the weighted sum otherwise, for any indices; with distinct ones it is the interpolation at zero; the key keeps its old value when the setter refuses the result, which is not reported |
| KeyShare.RecoveredInterpolates | src/sm2_key_share.c:112-160 | with distinct indices nothing wraps and the sum of the code is interpolation |
| KeyShare.RepeatedWeight | src/sm2_key_share.c:112-143 | a share whose index occurs twice has weight zero, overflow included |
| KeyShare.AllRepeated | src/sm2_key_share.c:112-160 | when every share is repeated the sum is zero, so the key is left as it was |
| KeyShare.Split | src/sm2_key_share.c:40-83 | share i holds the polynomial at i + 1 as far as the key setter accepts it; the parameter errors are exact |
| KeyShare.RecoveredValue | src/sm2_key_share.c:85-167 | the recovered value is the key plus the weights of the shares whose value was n - 1 |
| KeyShare.RecoveredIff | src/sm2_key_share.c:85-167 | any enough distinct shares give the key back if and only if the weights of the shares whose value was n - 1 (which the setter refuses) cancel |
| KeyShare.KeyRecovered | src/sm2_key_share.c:85-167 | when every share could be stored the key is recovered |
| KeyShare.WeightNonzero | src/sm2_key_share.c:112-143 | no interpolation weight vanishes modulo n |
| KeyShare.Spoiled | src/sm2_key_share.c:40-167 | exactly one refused share among any enough shares: the recovered value is never the key |
| KeyShare.SpoiledExample | src/sm2_key_share.c:40-167 | the polynomial s + (n - 1 - s) x with shares 0 and 1: recovery gives s + 2 |
| ElGamal.PreCompute | src/sm2_elgamal.c:27-48 | stops exactly when a write is refused by the check; otherwise the table holds, record by record, what all 2^16 steps leave, writes beyond the sixth slot included |
| ElGamal.SmallBucket | src/sm2_elgamal.c:27-48 | a bucket of at most six: the record lists exactly its entries in order and its x-coordinate is untouched |
| ElGamal.SeventhWrite | src/sm2_elgamal.c:27-48 | a bucket of seven: six entries stay, the count becomes the low byte of the seventh index plus one, and its high byte replaces the first byte of an x-coordinate stored before |
| ElGamal.SevenAdmitted | src/sm2_elgamal.c:27-48 | with at most seven entries in every bucket the construction completes |
| ElGamal.GetOffset | src/sm2_elgamal.c:50-64 | the loop is the search over what the record says, on any table |
| ElGamal.SearchSound | src/sm2_elgamal.c:50-64 | whatever lies behind the record, a reported index was read and its record holds the x-coordinate looked for |
| ElGamal.IntactIff | src/sm2_elgamal.c:27-48 | exactly when a record still holds its own x-coordinate |
| ElGamal.ReliableSearch | src/sm2_elgamal.c:50-64 | a lookup in a bucket of at most six with intact records agrees with a search through all 2^16 points |
| ElGamal.Remainder | src/sm2_elgamal.c:67-114 | for remainders below 2^32 an equal x-coordinate means the same multiple: the negated point is never picked |
| ElGamal.Solve | src/sm2_elgamal.c:67-114 | for every point the loop reports what the giant-step function says |
| ElGamal.SolveExact | src/sm2_elgamal.c:67-114 | for every 32-bit m > 0 and any table the result is m if and only if all earlier lookups are silent and the last gives m's own index, or is silent too when infinity comes next |
| ElGamal.ReliableSolve | src/sm2_elgamal.c:67-114 | m is returned whenever the buckets met on the way have at most six entries and the records compared with are intact |
| ElGamal.SpoiledRecord | src/sm2_elgamal.c:67-114 | a bucket b of seven whose record lost its x-coordinate: every m with last remainder b + 1 is not returned |
| ElGamal.SeventhLost | src/sm2_elgamal.c:67-114 | every m whose last remainder is the seventh entry of a bucket is not returned, unless the bytes behind the record spell its index |
| ElGamal.NegatedLooksAlike | src/sm2_elgamal.c:50-64 | outside the promised range the x-only lookup cannot tell -jG from jG |
| ElGamal.Encrypt | src/sm2_elgamal.c:116-158 | the ciphertext is (kG, mG + k dG) for the nonce given |
| ElGamal.Decrypt | src/sm2_elgamal.c:161-187 | for every ciphertext of a 32-bit m: stops exactly when the table construction does, returns m if and only if the lookups find it, and does so whenever they are reliable |
| ElGamal.CiphertextAdd | src/sm2_elgamal.c:192-227 | the sum encrypts m1 + m2, with the sum of both nonces and the fresh one |
| Asn1.LengthRoundTrip | src/asn1.c:139-227 | reading a written length gives it back whatever follows, when the contents are present |
| Asn1.LengthCanonical | src/asn1.c:176-227 | an accepted length up to INT_MAX re-encodes to exactly the bytes consumed |
| DerLayout.LengthOctets | src/asn1.c:139-174 | the octets of a length: short form below 128, otherwise their number and the length, big-endian and minimal |
| Asn1.TaggedRoundTrip | src/asn1.c:284-345 | reading a written tag-length-value gives back value and rest |
| Asn1.TaggedCanonical | src/asn1.c:318-345 | an accepted tag-length-value re-encodes to the bytes consumed |
| Asn1.StripValue | src/asn1.c:545-548 | dropping leading zeros keeps the number |
| Asn1.IntegerRoundTrip | src/asn1.c:525-629 | reading a written integer gives it back without leading zeros if and only if its content octets are not INT_MAX + 1 long, in which case the length is silently missing |
| Asn1.IntegerCanonical | src/asn1.c:569-629 | an accepted integer is minimal and re-encodes to exactly the bytes consumed |
| DerLayout.IntegerOctets | src/asn1.c:525-567 | the contents of an INTEGER are the number, not negative and minimal |
| Asn1.SignatureRoundTrip | src/sm2_sign.c:334-377 | every 64-byte signature survives DER |
| Asn1.SignatureCanonical | src/sm2_sign.c:351-377 | every accepted signature encoding is the encoder's own output |
| DerLayout.SignatureOctets | src/sm2_sign.c:334-349 | a signature is 30, a length, and the INTEGERs r and s in that order with tag 02 |
| Asn1.LengthToDer | src/asn1.c:139-174 | the sizing pass counts exactly the bytes the writing pass appends; refused above INT_MAX |
| Asn1.TypeToDer | src/asn1.c:284-316 | both passes agree for any contents |
| Asn1.IntegerToDer | src/asn1.c:525-567 | both passes agree, with the zero-stripping loop, and refuse exactly empty or oversized input |
| Asn1.SignatureToDer | src/sm2_sign.c:334-349 | both passes write the signature encoding |
| Asn1.LengthFromDer | src/asn1.c:176-227 | the cursor ends after the length, or the input is refused |
| Asn1.IntegerFromDer | src/asn1.c:569-629 | value, absence and refusal, with the cursor untouched on absence |
| Asn1Time.TimestampInjective | src/asn1.c:1498-1561 | different valid dates have different timestamps, across leap years and months |
| Asn1Time.YearsClosed | src/asn1.c:1492-1494 | days before year y in closed form: the leap years are those divisible by 4, but by 100 only if by 400 |
| Asn1Time.DayClosed | src/asn1.c:1498-1561 | the day number of every valid date is the closed form with years that begin in March |
| Asn1Time.LastDay | src/asn1.c:1498-1561 | a month ends the day before the next one begins, in the closed form |
| Asn1Time.ValidExact | src/asn1.c:1498-1561 | which dates are valid, without the tables of the source |
| Asn1Time.TimeFromStr | src/asn1.c:1498-1561 | accepts exactly the well-formed strings of valid dates and returns their seconds since 1970, in closed form |
| Asn1Time.TimeToStr | src/asn1.c:1563-1631 | writes the string of the date of every timestamp from 1970 to the last year allowed, refuses exactly the later ones, and for negative ones writes the stated non-date characters |
| Asn1Time.FormatParse | src/asn1.c:1563-1631 | a written string is accepted and parses to the same date, for UTCTime to 2050 and GeneralizedTime to 9999 |
| Asn1Time.FormatDecimal | src/asn1.c:1563-1631 | the digits written are one number: year, month, day, hour, minute and second from the top |
| Asn1Time.ParseFormat | src/asn1.c:1498-1561 | an accepted string is what the writer produces for its date |
| Asn1Time.AcceptedDecimal | src/asn1.c:1498-1561 | the digits read are the number of the date, and a UTCTime year lies between 1951 and 2050 |
| Asn1Time.TimeRoundTrip | src/asn1.c:1492-1631 | timestamp to string and back is the identity if and only if the timestamp is not negative |
| Asn1Time.AliasedDate | src/asn1.c:1563-1631 | 2551 days before 1970 is written as 10 January 1970 |
| Asn1Time.StringRoundTrip | src/asn1.c:1492-1631 | accepted string to timestamp and back is the identity on the characters read |
| Base64.BlockRoundTrip | src/base64.c:154-183 | block decoding inverts block encoding up to the zero bytes padding stands for |
| Base64Layout.AlphabetIs | src/base64.c:20-36 | the alphabet is that of RFC 4648 |
| Base64Layout.GroupNumber | src/base64.c:154-183 | the four characters and the three bytes of a group are digits of one number, from the top |
| Base64Layout.LineLength | src/base64.c:93-139 | every complete line is 64 characters and a newline |
| Base64.LinesConcat | src/base64.c:93-139 | complete lines of a concatenation come from the parts and what was left over |
| Base64.ChunkIndependence | src/base64.c:86-152 | the text is the same for every cutting of the input into chunks |
| Base64.Encoder.Update | src/base64.c:93-139 | emits the complete lines and keeps the rest; fails exactly on empty input and on output beyond INT_MAX |
| Base64.Encoder.Finish | src/base64.c:141-152 | emits the last short line |
| Base64.DecodeBlockLoop | src/base64.c:323-360 | trimming and the quad loop compute block decoding, errors included |
| Base64.Decoder.Update | src/base64.c:214-321 | the loop with its exits computes the decoder's result, buffer and output on any input |
| Base64.Decoder.Finish | src/base64.c:362-378 | decodes what is buffered, or nothing |
| Base64.UpdateReading | src/base64.c:214-321 | a call on the next piece of a text keeps the reading invariant and never fails |
| Base64Layout.UpdateRefuses | src/base64.c:214-321 | a piece with a character outside the alphabet, blanks, line ends, '=' and '-' is refused |
| Base64.DecodeAnyPieces | src/base64.c:185-378 | for every cutting of the text of d, the outputs together are d, no call fails and nothing is left for the final call |
| Polynomials.MulCoefficient | src/gf128.c:99-145 | the polynomial product used as reference has the schoolbook coefficients |
| Polynomials.RemXor | src/gf128.c:99-145 | division by any polynomial, in particular x^128 + x^7 + x^2 + x + 1, is additive |
| Polynomials.RemShift | src/gf128.c:148-160 | reduction commutes with multiplication by x |
| Gf128.MulBy2 | src/gf128.c:148-160 | the shift with 0x87 is multiplication by x in the field |
| Gf128.GfMul | src/gf128.c:99-145 | the two 64-step loops compute the product modulo x^128 + x^7 + x^2 + x + 1 for all operands |
| Gf128.ReverseBits | src/gf128.c:20-32 | the loop reverses the 64 bits |
| Gf128.FromBytes | src/gf128.c:80-84 | the first bit of a block is the coefficient of x^0 |
| Gf128.ToBytes | src/gf128.c:86-90 | inverse of reading |
| Gf128.ElementInjective | src/gf128.c:80-90 | different blocks are different field elements |
| ModeBlocks.ElementBit | src/gf128.c:80-84 | bit j of byte i of a block, from the top, is the coefficient of x^(8i + j) |
| Ghash.OneShot | src/ghash.c:34-82 | the GHASH value of any additional data and ciphertext |
| Ghash.Context.constructor | src/ghash.c:84-108 | the context after the additional data |
| Ghash.Context.Update | src/ghash.c:110-146 | absorbs any number of bytes, keeping the partial block |
| Ghash.Context.Finish | src/ghash.c:148-169 | the GHASH value of everything fed |
| Ghash.StreamingEqualsOneShot | src/ghash.c:84-169 | for every chunking the streaming interface returns what the one-shot function returns |
| Ghash.ValueIsPolynomial | src/ghash.c:20-82 | the value is the polynomial of the padded blocks and the length block evaluated at H |
| ModeBlocks.LengthHalves | src/ghash.c:34-48 | the last block holds the bit lengths of the additional data and of the ciphertext, in that order, as 64-bit numbers |
| AesTables.TablesInverse | src/aes.c:20-56 | S_inv undoes S on all 256 bytes |
| AesField.SBox | src/aes.c:20-37 | every entry of S is the affine map of the inverse of its index in GF(2^8) |
| AesField.X2Remainder | src/aes.c:271-281 | x2 is multiplication by x modulo x^8 + x^4 + x^3 + x + 1 |
| AesField.Factors | src/aes.c:280-305 | x2, x3, x9, xb, xd and xe are the products with 02, 03, 09, 0b, 0d and 0e in that field |
| AesField.ColumnProduct | src/aes.c:313-352 | the columns are multiplied by the circulants of 02 03 01 01 and 0e 0b 0d 09 |
| AesField.RowsShifted | src/aes.c:209-270 | ShiftRows takes entry (r, c) from column c + r |
| AesField.RoundEntry | src/aes.c:365-403 | every round but the last, entry by entry: matrix times substituted diagonal plus round key |
| AesField.OuterEntries | src/aes.c:365-403 | the first key addition and the last round, which mixes no columns, entry by entry |
| AesField.RconPowers | src/aes.c:58-60 | the round constants are the powers of x |
| AesField.WordEntry | src/aes.c:90-136 | every word of the key schedule, byte by byte |
| Aes.Coefficients | src/aes.c:280-305 | the entries of the product of the two column matrices are one and zero |
| Aes.MixInverse | src/aes.c:313-352 | inv_mix_columns undoes mix_columns on every column |
| Aes.WalkBack | src/aes.c:405-443 | decryption passes through the encryption states in reverse |
| Aes.DecryptInverts | src/aes.c:365-443 | decryption with the reversed round keys inverts encryption for every round-key list and block |
| Aes.AddRoundKey | src/aes.c:172-181 | the in-place loop adds the round key |
| Aes.SubBytesLoop | src/aes.c:183-201 | the in-place loops substitute every byte |
| Aes.ShiftRowsAll | src/aes.c:209-270 | rows are rotated in place, in both directions |
| Aes.MixColumnsLoop | src/aes.c:313-352 | columns are mixed in place, in both directions |
| Aes.SetEncryptKey | src/aes.c:90-136 | the expansion loop produces the FIPS 197 schedule for the three key sizes and refuses every other; Rcon indices stay in range |
| Aes.SetDecryptKey | src/aes.c:138-164 | the same schedule backwards |
| Aes.EncryptBlock | src/aes.c:365-403 | the round loop on the state is the cipher |
| Aes.DecryptBlock | src/aes.c:405-443 | the inverse round loop on the state is the inverse cipher |
| Aes.RoundTrip | src/aes.c:90-443 | from key bytes to the plaintext again, for all three key sizes and every block |
| AesModes.CbcInverts | src/aes_modes.c:21-43 | CBC decryption inverts CBC encryption on any number of blocks |
| ModeBlocks.CbcChain | src/aes_modes.c:21-31 | every ciphertext block is the encryption of its plaintext block plus the ciphertext block before it |
| AesModes.CbcEncryptLoop | src/aes_modes.c:21-31 | the loop computes the chain |
| AesModes.CbcDecryptLoop | src/aes_modes.c:33-43 | the loop undoes the chain |
| AesModes.CbcPaddingEncrypt | src/aes_modes.c:45-65 | the two calls together encrypt the padded message |
| AesModes.CbcPaddingDecrypt | src/aes_modes.c:67-97 | refuses exactly empty or ragged input and bad last bytes, otherwise drops the padding |
| AesModes.CbcPaddingRoundTrip | src/aes_modes.c:45-97 | every message length round-trips |
| ModeBlocks.PaddedBytes | src/aes_modes.c:45-65 | one to sixteen bytes of padding, each holding their number |
| AesModes.CounterIncrement | src/aes_modes.c:99-132 | the in-place carry loop, over 16 or the last 4 bytes |
| AesModes.IncrementCounts | src/aes_modes.c:99-132 | it adds one modulo 2^128 or 2^32 |
| AesModes.CtrTwice | src/aes_modes.c:108-148 | applying the key stream twice restores any message |
| ModeBlocks.CtrBytes | src/aes_modes.c:108-148 | byte p of the key stream is byte p mod 16 of the encryption of the counter p / 16 steps on |
| ModeBlocks.CounterCounts | src/aes_modes.c:99-132 | the counter i steps on is i added to the big-endian number, the bytes before it unchanged |
| ModeBlocks.CountsUnique | src/aes_modes.c:99-132 | and there is only one such counter |
| AesModes.CtrEncrypt | src/aes_modes.c:108-148 | key stream output and the counter left behind |
| AesModes.GcmEncrypt | src/aes_modes.c:150-184 | ciphertext and truncated tag for any IV length; refused exactly for tags over 16 bytes |
| ModeBlocks.FirstCounterIs | src/aes_modes.c:166-176 | the first counter: a 12-byte IV and the number one, otherwise the GHASH polynomial of the IV |
| ModeBlocks.GcmBytes | src/aes_modes.c:150-184 | byte p of the text is added to the encryption of the counter 1 + p / 16 steps after the first |
| ModeBlocks.GcmTagIs | src/aes_modes.c:150-184 | the tag is the encryption of the first counter plus the GHASH polynomial of data, ciphertext and lengths |
| AesModes.GcmDecrypt | src/aes_modes.c:186-219 | accepts exactly the right tag, then returns the key-stream inverse |
| AesModes.GcmRoundTrip | src/aes_modes.c:150-219 | every output of GCM encryption is accepted and inverted, for any IV, additional data and tag length |

## Left out

- Kyber samplers (`kyber_poly_uniform_sample`, `kyber_poly_cbd_sample`) and the hashes are parameters with range contracts; their streams are not modelled.
- Bitwise operations on disjoint fields are written as additions, shifts and masks as divisions and remainders; `src/gf128.c` and `src/aes.c` work on bit sequences instead.
- Constant-time selection (`copy_conditional`, `is_zero`) is modelled by its value, secure clearing and NULL checks not at all.
- Byte conversion of 256-bit numbers (`sm2_z256_from_bytes`, `sm2_z256_to_bytes`) is left out: digests, r and s are limb values in `Sign`.
- Associativity of the elliptic-curve group law and the numeric generator table are hypotheses, not theorems; the curve coefficient b is a parameter, so the curve lemmas hold for every b.
- ScalarMul.PreCompute: the sixteen-entry table is built as a sequence value rather than by writing array slots.
- SignContext.SignCtx.Init: a new context has no slots; the draw that fails is taken to leave its slot unchanged, although a rejected candidate may have been written there. DER output and the fixed-length variant of finish are not part of the class.
- The encryption context of `src/sm2_enc.c` is covered by its pool (`Pool`, with 8 slots) and its precomputation (`Batch.EncryptPreCompute`); the KDF, message masking and ciphertext DER are not modelled.
- Ring.RingSign: the curve and residue routines it calls are given their group and field contracts, so the generator exception above does not appear there; the sorting of keys is not modelled.
- KeyShare.Recover: `sm2_fn_inv` and the word routines are not part of the sources; the inversion is taken as the power with exponent n - 2, which maps zero to zero, words as 32 bits, and signed overflow, which only repeated indices can cause, as two's complement.
- ElGamal.GetOffset: what lies behind the sixth slot is an arbitrary function, except for the two bytes of count and x-coordinate the seventh write and read meet; the check in the table construction is taken as compiled in, and 16-bit numbers as stored low byte first.
- ElGamal.CiphertextAdd: the other homomorphic operations are left out; the subtraction does not use its first intermediate result.
- Asn1.LengthRoundTrip: lengths above INT_MAX can be read but not written, so canonicity stops there.
- Base64.Encoder.Update: the 80-byte buffer is the sequence of pending bytes, with its bound proved.
- CBC in place (output over input) is not modelled; input and output are different buffers.
- AesModes.GcmDecrypt: tags of at most 16 bytes; longer ones overrun a local buffer in the source.
- Object identifiers, bit strings, times in DER, compressed points, PEM, printing, files, and the compositions in `src/cms.c`, `src/pkcs8.c`, `src/ec.c` add only easy members over the layers above.
- SHA, ChaCha20, HMAC, HKDF, blind signatures, commitments and key exchange are left out for the same reason.
