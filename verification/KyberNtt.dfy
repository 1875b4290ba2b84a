/** The in-place transforms of src/kyber.c.  Node x of a binary tree (root 1,
    children 2x and 2x+1) owns a block of the coefficient array; the forward
    transform replaces the block by its two remainders modulo X^n - z and X^n + z. */
module KyberNtt {
  import opened Modular
  import opened KyberRing

  type int16 = x: int | -0x8000 <= x < 0x8000

  predicate IsSize(m: nat) {
    m in {2, 4, 8, 16, 32, 64, 128, 256}
  }

  /** Node x owns a block of m coefficients. */
  predicate IsNode(m: nat, x: nat) {
    IsSize(m) && 256 / m <= x < 512 / m
  }

  // ---------- specification: one recursive pass per node ----------

  function NttTree(p: seq<int>, x: nat): (r: seq<int>)
    requires IsSize(|p|)
    ensures |r| == |p|
    ensures |p| > 2 || Canonical(p) ==> Canonical(r)
    decreases |p|
  {
    if |p| == 2 then p
    else NttTree(Fold(p, Twiddle(x)), 2 * x) + NttTree(Fold(p, -Twiddle(x)), 2 * x + 1)
  }

  function Half(v: int): int {
    if v % 2 == 1 then (v + Q) / 2 else v / 2
  }

  /** The two outputs of the inverse butterfly on remainders x and y. */
  function InvLo(x: int, y: int): (r: int)
    ensures 0 <= r < Q
  {
    HalfDoubles((x + y) % Q);
    Half((x + y) % Q)
  }

  function InvHi(x: int, y: int, w: int): (r: int)
    ensures 0 <= r < Q
  {
    HalfDoubles(((x - y) % Q * w) % Q);
    Half(((x - y) % Q * w) % Q)
  }

  /** The inverse butterfly: recovers a block from its two remainders. */
  function Unfold(lo: seq<int>, hi: seq<int>, w: int): (r: seq<int>)
    requires |lo| == |hi|
    ensures |r| == 2 * |lo| && Canonical(r)
  {
    var n := |lo|;
    seq(2 * n, i requires 0 <= i < 2 * n =>
      if i < n then InvLo(lo[i], hi[i]) else InvHi(lo[i - n], hi[i - n], w))
  }

  function InvTree(p: seq<int>, x: nat): (r: seq<int>)
    requires IsSize(|p|)
    ensures |r| == |p|
    ensures Canonical(p) ==> Canonical(r)
    decreases |p|
  {
    if |p| == 2 then p
    else
      var h := |p| / 2;
      Unfold(InvTree(p[..h], 2 * x), InvTree(p[h..], 2 * x + 1), InvTwiddle(x))
  }

  /** The transforms of a whole 256-coefficient polynomial. */
  function Ntt(p: seq<int>): (r: seq<int>)
    requires |p| == 256
    ensures |r| == 256 && Canonical(r)
  {
    NttTree(p, 1)
  }

  function InvNtt(p: seq<int>): (r: seq<int>)
    requires |p| == 256
    ensures |r| == 256
    ensures Canonical(p) ==> Canonical(r)
  {
    InvTree(p, 1)
  }

  /** Blockwise product: at leaf x the product modulo X^2 - NodeConst(x). */
  function PairTree(p: seq<int>, q: seq<int>, x: nat): (r: seq<int>)
    requires IsSize(|p|) && |p| == |q| && x >= 1
    ensures |r| == |p| && Canonical(r)
    decreases |p|
  {
    if |p| == 2 then Prod(p, q, NodeConst(x))
    else
      var h := |p| / 2;
      PairTree(p[..h], q[..h], 2 * x) + PairTree(p[h..], q[h..], 2 * x + 1)
  }

  function NttMul(p: seq<int>, q: seq<int>): (r: seq<int>)
    requires |p| == |q| == 256
    ensures |r| == 256 && Canonical(r)
  {
    PairTree(p, q, 1)
  }

  /** Multiplication in Z_3329[X]/(X^256 + 1), by the schoolbook rule. */
  function Negacyclic(p: seq<int>, q: seq<int>): (r: seq<int>)
    requires |p| == |q| == 256
    ensures |r| == 256 && Canonical(r)
  {
    Prod(p, q, -1)
  }

  // ---------- one level of each recursion ----------

  lemma NttTreeStep(p: seq<int>, x: nat)
    requires IsSize(|p|) && |p| > 2
    ensures var lo := NttTree(Fold(p, Twiddle(x)), 2 * x); var hi := NttTree(Fold(p, -Twiddle(x)), 2 * x + 1);
            NttTree(p, x) == lo + hi && |lo| == |hi| == |p| / 2
            && NttTree(p, x)[..|p| / 2] == lo && NttTree(p, x)[|p| / 2..] == hi
  {
  }

  lemma InvTreeStep(p: seq<int>, x: nat)
    requires IsSize(|p|) && |p| > 2
    ensures var h := |p| / 2;
            InvTree(p, x) == Unfold(InvTree(p[..h], 2 * x), InvTree(p[h..], 2 * x + 1), InvTwiddle(x))
  {
  }

  lemma PairTreeStep(p: seq<int>, q: seq<int>, x: nat)
    requires IsSize(|p|) && |p| == |q| && x >= 1 && |p| > 2
    ensures var h := |p| / 2;
            PairTree(p, q, x) == PairTree(p[..h], q[..h], 2 * x) + PairTree(p[h..], q[h..], 2 * x + 1)
  {
  }

  // ---------- the transforms are mutually inverse ----------

  lemma HalfUnique(v: int, t: int)
    requires 0 <= v < Q && 0 <= t < Q && Cong(v, 2 * t, Q)
    ensures Half(v) == t
  {
    hide Cong;
    var w := if 2 * t < Q then 2 * t else 2 * t - Q;
    CongFromMultiple(2 * t, w, if 2 * t < Q then 0 else 1, Q);
    CongTrans(v, 2 * t, w, Q);
    CongCanonical(v, w, Q);
  }

  lemma SumHalved(a: int, t: int)
    requires 0 <= a < Q
    ensures Half(((a + t) % Q + (a - t) % Q) % Q) == a
    ensures Cong(((a + t) % Q - (a - t) % Q) % Q, 2 * t, Q)
  {
    hide Cong, Half;
    var lo, hi := (a + t) % Q, (a - t) % Q;
    CongMod(a + t, Q);
    CongMod(a - t, Q);
    CongAdd(lo, a + t, hi, a - t, Q);
    CongSub(lo, a + t, hi, a - t, Q);
    CongMod(lo + hi, Q);
    CongMod(lo - hi, Q);
    CongTrans((lo + hi) % Q, lo + hi, 2 * a, Q);
    CongTrans((lo - hi) % Q, lo - hi, 2 * t, Q);
    HalfUnique((lo + hi) % Q, a);
  }

  lemma ScaledHalved(d: int, b: int, z: int, w: int)
    requires 0 <= b < Q && Cong(z * w, 1, Q) && Cong(d, 2 * (z * b), Q)
    ensures Half((d * w) % Q) == b
  {
    hide Cong, Half;
    var v := (d * w) % Q;
    CongMod(d * w, Q);
    CongScale(d, 2 * (z * b), w, Q);
    assert 2 * (z * b) * w == (z * w) * (2 * b);
    CongScale(z * w, 1, 2 * b, Q);
    CongTrans(v, d * w, (z * w) * (2 * b), Q);
    CongTrans(v, (z * w) * (2 * b), 1 * (2 * b), Q);
    HalfUnique(v, b);
  }

  lemma ButterflyUndone(a: int, b: int, z: int, w: int)
    requires 0 <= a < Q && 0 <= b < Q && Cong(z * w, 1, Q)
    ensures var lo := FoldAt(a, b, z); var hi := FoldAt(a, b, -z);
            InvLo(lo, hi) == a && InvHi(lo, hi, w) == b
  {
    hide Cong, Half;
    assert a + -z * b == a - z * b;
    SumHalved(a, z * b);
    ScaledHalved(((a + z * b) % Q - (a - z * b) % Q) % Q, b, z, w);
  }

  lemma UnfoldFold(p: seq<int>, z: int, w: int)
    requires |p| % 2 == 0 && Canonical(p) && Cong(z * w, 1, Q)
    ensures Unfold(Fold(p, z), Fold(p, -z), w) == p
  {
    hide InvLo, InvHi, Cong, FoldAt;
    var n := |p| / 2;
    var u := Unfold(Fold(p, z), Fold(p, -z), w);
    forall i | 0 <= i < 2 * n ensures u[i] == p[i] {
      var j := if i < n then i else i - n;
      ButterflyUndone(p[j], p[n + j], z, w);
    }
  }

  lemma HalfDoubles(v: int)
    requires 0 <= v < Q
    ensures Cong(2 * Half(v), v, Q) && 0 <= Half(v) < Q
  {
    CongRemainders(2 * Half(v), v, Q);
  }

  lemma ScaledDoubles(d: int, t: int, z: int, w: int)
    requires Cong(z * w, 1, Q) && d == Half((t % Q * w) % Q)
    ensures Cong(2 * (z * d), t, Q)
  {
    hide Cong, Half;
    var v := (t % Q * w) % Q;
    HalfDoubles(v);
    CongMod(t % Q * w, Q);
    CongMod(t, Q);
    CongScale(t % Q, t, w, Q);
    CongTrans(2 * d, v, t % Q * w, Q);
    CongTrans(2 * d, t % Q * w, t * w, Q);
    CongScale(2 * d, t * w, z, Q);
    assert z * (t * w) == (z * w) * t;
    assert z * (2 * d) == 2 * (z * d);
    CongScale(z * w, 1, t, Q);
    CongTrans(2 * (z * d), (z * w) * t, 1 * t, Q);
  }

  lemma SplitHalves(a: int, b: int, s: int, t: int)
    requires 0 <= a < Q && 0 <= b < Q && s == Half((a + b) % Q) && Cong(2 * t, a - b, Q)
    ensures (s + t) % Q == a && (s - t) % Q == b
  {
    hide Cong;
    HalfDoubles((a + b) % Q);
    CongMod(a + b, Q);
    CongTrans(2 * s, (a + b) % Q, a + b, Q);
    CongAdd(2 * s, a + b, 2 * t, a - b, Q);
    CongSub(2 * s, a + b, 2 * t, a - b, Q);
    HalveCong(s + t, a);
    HalveCong(s - t, b);
    CongRemainders(s + t, a, Q);
    CongRemainders(s - t, b, Q);
    ModSmall(a, Q);
    ModSmall(b, Q);
  }

  lemma ButterflyRedone(a: int, b: int, z: int, w: int)
    requires 0 <= a < Q && 0 <= b < Q && Cong(z * w, 1, Q)
    ensures var s := InvLo(a, b); var d := InvHi(a, b, w);
            FoldAt(s, d, z) == a && FoldAt(s, d, -z) == b
  {
    hide Cong, Half;
    var s, d := InvLo(a, b), InvHi(a, b, w);
    assert s + -z * d == s - z * d;
    ScaledDoubles(d, a - b, z, w);
    SplitHalves(a, b, s, z * d);
  }

  lemma HalveCong(x: int, y: int)
    requires Cong(2 * x, 2 * y, Q)
    ensures Cong(x, y, Q)
  {
    var k := CongMultiple(2 * x, 2 * y, Q);
    assert k % 2 == 0;
    CongFromMultiple(x, y, k / 2, Q);
  }

  lemma FoldUnfold(lo: seq<int>, hi: seq<int>, z: int, w: int)
    requires |lo| == |hi| && Canonical(lo) && Canonical(hi) && Cong(z * w, 1, Q)
    ensures Fold(Unfold(lo, hi, w), z) == lo && Fold(Unfold(lo, hi, w), -z) == hi
  {
    hide InvLo, InvHi, Cong, FoldAt;
    var n := |lo|;
    var u := Unfold(lo, hi, w);
    forall i | 0 <= i < n ensures Fold(u, z)[i] == lo[i] && Fold(u, -z)[i] == hi[i] {
      ButterflyRedone(lo[i], hi[i], z, w);
      assert u[i] == InvLo(lo[i], hi[i]) && u[n + i] == InvHi(lo[i], hi[i], w);
    }
  }

  lemma {:induction false} InvTreeUndoes(p: seq<int>, x: nat)
    requires IsSize(|p|) && Canonical(p)
    ensures InvTree(NttTree(p, x), x) == p
    decreases |p|
  {
    hide InvTwiddle, Twiddle, Fold, Unfold;
    if |p| > 2 {
      var z := Twiddle(x);
      var lo, hi := Fold(p, z), Fold(p, -z);
      InvTreeUndoes(lo, 2 * x);
      InvTreeUndoes(hi, 2 * x + 1);
      var t := NttTree(p, x);
      var h := |p| / 2;
      assert t[..h] == NttTree(lo, 2 * x) && t[h..] == NttTree(hi, 2 * x + 1);
      InvTwiddleInverts(x);
      UnfoldFold(p, z, InvTwiddle(x));
    }
  }

  lemma SizeHalves(m: nat)
    requires IsSize(m) && m != 2
    ensures IsSize(m / 2) && m % 2 == 0 && m % 4 == 0 && m > 2
  {
  }

  lemma {:induction false} NttTreeUndoes(p: seq<int>, x: nat)
    requires IsSize(|p|) && Canonical(p)
    ensures NttTree(InvTree(p, x), x) == p
    decreases |p|
  {
    hide InvTwiddle, Twiddle, Fold, Unfold, NttTree, InvTree, IsSize;
    if |p| == 2 {
      LeafTransforms(p, x);
    } else {
      SizeHalves(|p|);
      var h := |p| / 2;
      NttTreeUndoes(p[..h], 2 * x);
      NttTreeUndoes(p[h..], 2 * x + 1);
      InvTwiddleInverts(x);
      InvTreeStep(p, x);
      FoldUnfold(InvTree(p[..h], 2 * x), InvTree(p[h..], 2 * x + 1), Twiddle(x), InvTwiddle(x));
      NttTreeStep(InvTree(p, x), x);
      assert p == p[..h] + p[h..];
    }
  }

  lemma LeafTransforms(p: seq<int>, x: nat)
    requires |p| == 2
    ensures NttTree(p, x) == p && InvTree(p, x) == p
  {
  }

  /** The inverse transform exactly undoes the transform, and conversely. */
  lemma TransformsInverse(p: seq<int>)
    requires |p| == 256 && Canonical(p)
    ensures InvNtt(Ntt(p)) == p && Ntt(InvNtt(p)) == p
  {
    InvTreeUndoes(p, 1);
    NttTreeUndoes(p, 1);
  }

  // ---------- the transform turns products into blockwise products ----------

  lemma ChildNodes(m: nat, x: nat)
    requires IsNode(m, x) && m != 2
    ensures IsSize(m) && m > 2 && m % 4 == 0 && 1 <= x < 128 && IsNode(m / 2, 2 * x) && IsNode(m / 2, 2 * x + 1)
  {
  }

  /** Leaf i below node x is leaf i of the left child or leaf i - h / 2 of the right one. */
  lemma LeafIndex(x: nat, h: nat, i: nat, y: int)
    requires h % 2 == 0 && y == x * h + i
    ensures y == 2 * x * (h / 2) + i && y == (2 * x + 1) * (h / 2) + (i - h / 2)
  {
    var k := h / 2;
    assert h == 2 * k;
    assert 2 * x * k == x * (2 * k);
    assert (2 * x + 1) * k == 2 * x * k + k;
  }

  lemma ChildConsts(x: nat)
    requires 1 <= x
    ensures NodeConst(2 * x) == Twiddle(x) && NodeConst(2 * x + 1) == -Twiddle(x)
  {
    hide Twiddle;
    assert 2 * x / 2 == x && (2 * x + 1) / 2 == x;
  }

  /** The two remainders of a product at node x are the products of the remainders. */
  lemma FoldNodeProd(p: seq<int>, q: seq<int>, x: nat)
    requires |p| == |q| && |p| % 2 == 0 && 1 <= x < 128
    ensures var z := Twiddle(x); var pq := Prod(p, q, NodeConst(x));
            Fold(pq, z) == Prod(Fold(p, z), Fold(q, z), z) && Fold(pq, -z) == Prod(Fold(p, -z), Fold(q, -z), -z)
  {
    hide Twiddle, Fold, Prod, NodeConst;
    var z := Twiddle(x);
    NodeConstIsSquare(x);
    CongRefl(p);
    CongRefl(q);
    ProdCong(p, p, q, q, NodeConst(x), z * z);
    FoldProd(p, q, z);
    FoldProd(p, q, -z);
    assert -z * -z == z * z;
  }

  lemma {:induction false} NttTreeProd(p: seq<int>, q: seq<int>, x: nat)
    requires IsNode(|p|, x) && |p| == |q|
    ensures NttTree(Prod(p, q, NodeConst(x)), x) == PairTree(NttTree(p, x), NttTree(q, x), x)
    decreases |p|
  {
    hide Twiddle, Fold, Prod, NttTree, PairTree, NodeConst;
    if |p| == 2 {
      LeafProd(p, q, x);
    } else {
      ChildNodes(|p|, x);
      ChildConsts(x);
      var z := Twiddle(x);
      FoldNodeProd(p, q, x);
      NttTreeProd(Fold(p, z), Fold(q, z), 2 * x);
      NttTreeProd(Fold(p, -z), Fold(q, -z), 2 * x + 1);
      NttTreeStep(p, x);
      NttTreeStep(q, x);
      NttTreeStep(Prod(p, q, NodeConst(x)), x);
      PairTreeStep(NttTree(p, x), NttTree(q, x), x);
    }
  }

  lemma LeafProd(p: seq<int>, q: seq<int>, x: nat)
    requires |p| == |q| == 2 && x >= 1
    ensures NttTree(Prod(p, q, NodeConst(x)), x) == PairTree(NttTree(p, x), NttTree(q, x), x)
  {
  }

  lemma CongRefl(p: seq<int>)
    ensures CongSeq(p, p)
  {
    forall i | 0 <= i < |p| ensures Cong(p[i], p[i], Q) {
      CongSelf(p[i], Q);
    }
  }

  /** Multiplying transforms blockwise is multiplying modulo X^256 + 1. */
  lemma NttMultiplicative(p: seq<int>, q: seq<int>)
    requires |p| == |q| == 256
    ensures Ntt(Negacyclic(p, q)) == NttMul(Ntt(p), Ntt(q))
  {
    NttTreeProd(p, q, 1);
  }

  lemma MulViaNtt(p: seq<int>, q: seq<int>)
    requires |p| == |q| == 256
    ensures InvNtt(NttMul(Ntt(p), Ntt(q))) == Negacyclic(p, q)
  {
    NttMultiplicative(p, q);
    TransformsInverse(Negacyclic(p, q));
  }
}
