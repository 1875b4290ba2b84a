/** Polynomials over GF(2) as sequences of coefficients, low one first: products, remainders, and the
    products modulo a polynomial that src/gf128.c and src/aes.c compute. */
module Polynomials {

  type Bits = seq<bool>

  function Zeros(n: nat): (z: Bits)
    ensures |z| == n && forall i :: 0 <= i < n ==> !z[i]
  {
    seq(n, _ => false)
  }

  /** The low k bits of n, least significant first. */
  function NumberBits(n: nat, k: nat): (w: Bits)
    ensures |w| == k
  {
    if k == 0 then [] else [n % 2 == 1] + NumberBits(n / 2, k - 1)
  }

  function Xor(a: Bits, b: Bits): (r: Bits)
    requires |a| == |b|
    ensures |r| == |a| && forall i :: 0 <= i < |a| ==> r[i] == (a[i] != b[i])
  {
    seq(|a|, i requires 0 <= i < |a| => a[i] != b[i])
  }

  /** The polynomial p as a sequence of n coefficients. */
  function Pad(p: Bits, n: nat): (r: Bits)
    requires |p| <= n
    ensures |r| == n
  {
    p + Zeros(n - |p|)
  }

  /** The product of polynomials: a * (b0 + x * b') = b0 * a + x * (a * b'). */
  function Mul(a: Bits, b: Bits): (r: Bits)
    ensures |r| == |a| + |b|
  {
    if b == [] then Zeros(|a|)
    else Xor([false] + Mul(a, b[1..]), Pad(if b[0] then a else Zeros(|a|), |a| + |b|))
  }

  /** The coefficient of x^k in a * b: the parity of the pairs a_i, b_j with i + j = k, for j from s on. */
  function Convolution(a: Bits, b: Bits, k: int, s: nat): bool
    requires s <= |b|
    decreases |b| - s
  {
    if s == |b| then false
    else (b[s] && 0 <= k - s < |a| && a[k - s]) != Convolution(a, b, k, s + 1)
  }

  lemma {:induction false} ConvolutionShift(a: Bits, b: Bits, k: int, s: nat)
    requires b != [] && 1 <= s <= |b|
    ensures Convolution(a, b, k, s) == Convolution(a, b[1..], k - 1, s - 1)
    decreases |b| - s
  {
    if s < |b| {
      ConvolutionShift(a, b, k, s + 1);
    }
  }

  /** Mul is the schoolbook product. */
  lemma {:induction false} MulCoefficient(a: Bits, b: Bits, k: nat)
    requires k < |a| + |b|
    ensures Mul(a, b)[k] == Convolution(a, b, k, 0)
  {
    if b != [] {
      hide Mul, Convolution;
      MulStep(a, b, k);
      ConvolutionStep(a, b, k);
      ConvolutionShift(a, b, k, 1);
      if k > 0 {
        MulCoefficient(a, b[1..], k - 1);
      } else {
        NegativeConvolution(a, b[1..], -1, 0);
      }
    }
  }

  lemma MulStep(a: Bits, b: Bits, k: nat)
    requires b != [] && k < |a| + |b|
    ensures Mul(a, b)[k] == ((k > 0 && Mul(a, b[1..])[k - 1]) != (b[0] && k < |a| && a[k]))
  {
    hide Mul;
    var c, low := Mul(a, b[1..]), if b[0] then a else Zeros(|a|);
    MulUnfold(a, b);
    assert ([false] + c)[k] == (k > 0 && c[k - 1]);
    assert Pad(low, |a| + |b|)[k] == (k < |a| && low[k]);
  }

  lemma MulUnfold(a: Bits, b: Bits)
    requires b != []
    ensures Mul(a, b) == Xor([false] + Mul(a, b[1..]), Pad(if b[0] then a else Zeros(|a|), |a| + |b|))
  {
    hide Xor, Pad, Zeros;
  }

  lemma ConvolutionStep(a: Bits, b: Bits, k: nat)
    requires b != []
    ensures Convolution(a, b, k, 0) == ((b[0] && k < |a| && a[k]) != Convolution(a, b, k, 1))
  {
  }

  lemma {:induction false} NegativeConvolution(a: Bits, b: Bits, k: int, s: nat)
    requires s <= |b| && k < 0
    ensures !Convolution(a, b, k, s)
    decreases |b| - s
  {
    if s < |b| {
      NegativeConvolution(a, b, k, s + 1);
    }
  }

  /** The polynomial x^degree + the sum of x^i for i in taps. */
  datatype Poly = Poly(degree: nat, taps: set<int>)
  {
    predicate Valid() {
      degree > 0 && forall i :: i in taps ==> 0 <= i < degree
    }
  }

  /** p + the taps times x^e. */
  function AddTaps(f: Poly, p: Bits, e: nat): (r: Bits)
    ensures |r| == |p| && forall i :: 0 <= i < |p| ==> r[i] == (p[i] != (i - e in f.taps))
  {
    seq(|p|, i requires 0 <= i < |p| => p[i] != (i - e in f.taps))
  }

  /** The remainder modulo f, by long division from the top. */
  function Rem(f: Poly, p: Bits): (r: Bits)
    requires f.Valid() && |p| >= f.degree
    ensures |r| == f.degree
    decreases |p|
  {
    var n := |p| - 1;
    if |p| == f.degree then p
    else if p[n] then Rem(f, AddTaps(f, p[..n], n - f.degree))
    else Rem(f, p[..n])
  }

  /** Multiplication by x modulo f. */
  function XTimes(f: Poly, r: Bits): (s: Bits)
    requires f.Valid() && |r| == f.degree
    ensures |s| == f.degree
  {
    var n := f.degree - 1;
    if r[n] then AddTaps(f, [false] + r[..n], 0) else [false] + r[..n]
  }

  /** Division commutes with multiplication by x ... */
  lemma {:induction false} RemShift(f: Poly, p: Bits)
    requires f.Valid() && |p| >= f.degree
    ensures Rem(f, [false] + p) == XTimes(f, Rem(f, p))
    decreases |p|
  {
    hide AddTaps, Rem, XTimes, Poly.Valid;
    var q := [false] + p;
    if |p| == f.degree {
      RemDone(f, p);
      RemShort(f, q);
      assert q[1..] == p;
    } else {
      RemStep(f, p);
      RemStep(f, q);
      LowerShift(f, p);
      RemShift(f, Lower(f, p));
    }
  }

  lemma RemShort(f: Poly, q: Bits)
    requires f.Valid() && |q| == f.degree + 1 && !q[0]
    ensures Rem(f, q) == XTimes(f, q[1..])
  {
    hide AddTaps, Rem;
    var n := f.degree;
    var r := q[1..];
    assert [false] + r[..n - 1] == q[..n];
    RemStep(f, q);
    RemDone(f, Lower(f, q));
  }

  lemma LowerShift(f: Poly, p: Bits)
    requires f.Valid() && |p| > f.degree
    ensures Lower(f, [false] + p) == [false] + Lower(f, p)
  {
    hide AddTaps;
    var n := |p| - 1;
    var q := [false] + p;
    assert q[..n + 1] == [false] + p[..n] && q[n + 1] == p[n];
    ShiftTaps(f, p[..n], n - f.degree);
  }

  lemma ShiftTaps(f: Poly, p: Bits, e: nat)
    requires f.Valid()
    ensures AddTaps(f, [false] + p, e + 1) == [false] + AddTaps(f, p, e)
  {
    var x, y := AddTaps(f, [false] + p, e + 1), [false] + AddTaps(f, p, e);
    forall i | 0 <= i < |x| ensures x[i] == y[i] {
      if i > 0 {
        assert y[i] == AddTaps(f, p, e)[i - 1];
        assert i - (e + 1) == (i - 1) - e;
      }
    }
  }

  /** ... and with addition. */
  lemma {:induction false} RemXor(f: Poly, p: Bits, q: Bits)
    requires f.Valid() && |p| == |q| >= f.degree
    ensures Rem(f, Xor(p, q)) == Xor(Rem(f, p), Rem(f, q))
    decreases |p|
  {
    hide AddTaps, Rem, Xor, Lower;
    if |p| > f.degree {
      RemStep(f, p);
      RemStep(f, q);
      RemStep(f, Xor(p, q));
      LowerXor(f, p, q);
      RemXor(f, Lower(f, p), Lower(f, q));
    } else {
      RemDone(f, p);
      RemDone(f, q);
      RemDone(f, Xor(p, q));
    }
  }

  /** One step of the division: the top coefficient is eliminated. */
  function Lower(f: Poly, p: Bits): (r: Bits)
    requires |p| > f.degree
    ensures |r| == |p| - 1
  {
    var n := |p| - 1;
    if p[n] then AddTaps(f, p[..n], n - f.degree) else p[..n]
  }

  lemma RemStep(f: Poly, p: Bits)
    requires f.Valid() && |p| > f.degree
    ensures Rem(f, p) == Rem(f, Lower(f, p))
  {
    hide AddTaps;
  }

  lemma RemDone(f: Poly, p: Bits)
    requires f.Valid() && |p| == f.degree
    ensures Rem(f, p) == p
  {
  }

  lemma LowerXor(f: Poly, p: Bits, q: Bits)
    requires |p| == |q| > f.degree
    ensures Lower(f, Xor(p, q)) == Xor(Lower(f, p), Lower(f, q))
  {
    hide AddTaps;
    var n := |p| - 1;
    assert Xor(p, q)[..n] == Xor(p[..n], q[..n]);
    XorTaps(f, p[..n], q[..n], n - f.degree);
  }

  lemma XorTaps(f: Poly, p: Bits, q: Bits, e: nat)
    requires |p| == |q|
    ensures Xor(AddTaps(f, p, e), AddTaps(f, q, e)) == Xor(p, q)
    ensures Xor(AddTaps(f, p, e), q) == AddTaps(f, Xor(p, q), e) && Xor(p, AddTaps(f, q, e)) == AddTaps(f, Xor(p, q), e)
  {
  }

  lemma {:induction false} RemPad(f: Poly, p: Bits, n: nat)
    requires f.Valid() && |p| == f.degree && n >= f.degree
    ensures Rem(f, Pad(p, n)) == p
    decreases n
  {
    if n > f.degree {
      assert Pad(p, n)[..n - 1] == Pad(p, n - 1);
      RemPad(f, p, n - 1);
    } else {
      assert Pad(p, n) == p;
    }
  }

  /** The product modulo f. */
  function Product(f: Poly, a: Bits, b: Bits): (r: Bits)
    requires f.Valid() && |a| == f.degree && |b| == f.degree
    ensures |r| == f.degree
  {
    Rem(f, Mul(a, b))
  }

  /** One bit of the multiplier, from the top. */
  lemma HornerStep(f: Poly, a: Bits, b: Bits, s: nat)
    requires f.Valid() && |a| == f.degree && s < |b|
    ensures Rem(f, Mul(a, b[s..])) == Xor(XTimes(f, Rem(f, Mul(a, b[s + 1..]))), if b[s] then a else Zeros(f.degree))
  {
    hide Rem, XTimes;
    var c := b[s..];
    assert c[1..] == b[s + 1..];
    var low := if b[s] then a else Zeros(f.degree);
    RemXor(f, [false] + Mul(a, c[1..]), Pad(low, f.degree + |c|));
    RemShift(f, Mul(a, c[1..]));
    RemPad(f, low, f.degree + |c|);
  }

  lemma HornerStart(f: Poly, a: Bits, b: Bits)
    requires f.Valid() && |a| == f.degree
    ensures Rem(f, Mul(a, b[|b|..])) == Zeros(f.degree)
  {
    assert b[|b|..] == [];
  }
}
