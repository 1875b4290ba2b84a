/** The closed form of the transform, equation by equation as in section 1.1 of the
    CRYSTALS-Kyber specification (version 3.02): the pair at position i holds the even
    and odd parts of the polynomial evaluated at 17^(2*br7(i) + 1). */
module KyberEval {
  import opened Common
  import opened Modular
  import opened NumberTheory
  import opened KyberRing
  import opened KyberNtt

  /** The sum over j < t of p[off + 2j] * w^j. */
  function Eval(p: seq<int>, off: nat, w: int, t: nat): int
    requires t == 0 || off + 2 * t - 2 < |p|
  {
    if t == 0 then 0 else Eval(p, off, w, t - 1) + p[off + 2 * t - 2] * Pow(w, t - 1)
  }

  lemma {:induction false} EvalCong(p: seq<int>, off: nat, w: int, w': int, t: nat)
    requires t == 0 || off + 2 * t - 2 < |p|
    requires Cong(w, w', Q)
    ensures Cong(Eval(p, off, w, t), Eval(p, off, w', t), Q)
  {
    hide Cong;
    if t == 0 {
      CongSelf(0, Q);
    } else {
      var c := p[off + 2 * t - 2];
      EvalCong(p, off, w, w', t - 1);
      PowCong(w, w', t - 1, Q);
      CongScale(Pow(w, t - 1), Pow(w', t - 1), c, Q);
      CongAdd(Eval(p, off, w, t - 1), Eval(p, off, w', t - 1), c * Pow(w, t - 1), c * Pow(w', t - 1), Q);
    }
  }

  /** Splitting the sum after h terms: the upper part is scaled by w^h. */
  lemma {:induction false} EvalSplit(p: seq<int>, off: nat, w: int, h: nat, t: nat)
    requires h + t == 0 || off + 2 * (h + t) - 2 < |p|
    ensures Eval(p, off, w, h + t) == Eval(p, off, w, h) + Pow(w, h) * Eval(p, off + 2 * h, w, t)
  {
    if t > 0 {
      EvalSplit(p, off, w, h, t - 1);
      PowAdd(w, h, t - 1);
      var c, e := p[off + 2 * (h + t) - 2], Eval(p, off + 2 * h, w, t - 1);
      var u, v := Pow(w, h), Pow(w, t - 1);
      assert u * (e + c * v) == u * e + c * (u * v) by { Scaled(u, e, c, v); }
    }
  }

  lemma Scaled(u: int, e: int, c: int, v: int)
    ensures u * (e + c * v) == u * e + c * (u * v)
  {
    assert u * (e + c * v) == u * e + u * (c * v);
    assert u * (c * v) == c * (u * v);
  }

  /** Evaluating the folded block: lower half plus z times upper half. */
  lemma {:induction false} EvalFold(p: seq<int>, z: int, off: nat, w: int, t: nat, n: nat)
    requires |p| == 2 * n && off < 2 && (t == 0 || off + 2 * t - 2 < n)
    ensures Cong(Eval(Fold(p, z), off, w, t), Eval(p, off, w, t) + z * Eval(p, n + off, w, t), Q)
  {
    hide Fold, Cong, Pow, Eval;
    assert |Fold(p, z)| == n;
    if t == 0 {
      EvalNone(Fold(p, z), off, w);
      EvalNone(p, off, w);
      EvalNone(p, n + off, w);
      assert z * 0 == 0;
      CongSelf(0, Q);
    } else {
      var k := off + 2 * t - 2;
      EvalFold(p, z, off, w, t - 1, n);
      FoldCongAt(p, z, n, k);
      EvalNext(Fold(p, z), off, w, t);
      EvalNext(p, off, w, t);
      EvalNext(p, n + off, w, t);
      TermAdded(Eval(Fold(p, z), off, w, t - 1), Eval(p, off, w, t - 1), Eval(p, n + off, w, t - 1),
                Fold(p, z)[k], p[k], p[n + k], Pow(w, t - 1), z);
    }
  }

  lemma EvalNone(p: seq<int>, off: nat, w: int)
    ensures Eval(p, off, w, 0) == 0
  {
  }

  lemma EvalNext(p: seq<int>, off: nat, w: int, t: nat)
    requires t > 0 && off + 2 * t - 2 < |p|
    ensures Eval(p, off, w, t) == Eval(p, off, w, t - 1) + p[off + 2 * t - 2] * Pow(w, t - 1)
  {
    hide Pow;
  }

  lemma TermAdded(e: int, e0: int, e1: int, f: int, a: int, b: int, v: int, z: int)
    requires Cong(e, e0 + z * e1, Q) && Cong(f, a + z * b, Q)
    ensures Cong(e + f * v, (e0 + a * v) + z * (e1 + b * v), Q)
  {
    hide Cong;
    CongScale(f, a + z * b, v, Q);
    CongAdd(e, e0 + z * e1, f * v, (a + z * b) * v, Q);
    Expand(e0, e1, a, b, v, z);
  }

  lemma FoldCongAt(p: seq<int>, z: int, n: nat, k: nat)
    requires |p| == 2 * n && k < n
    ensures Cong(Fold(p, z)[k], p[k] + z * p[n + k], Q)
  {
    hide Cong, Fold;
    FoldCong(p, z);
    assert FoldExact(p, z)[k] == p[k] + z * p[n + k];
  }

  lemma Expand(e0: int, e1: int, a: int, b: int, v: int, z: int)
    ensures (e0 + z * e1) + (a + z * b) * v == (e0 + a * v) + z * (e1 + b * v)
  {
    assert (a + z * b) * v == a * v + (z * b) * v;
    assert (z * b) * v == z * (b * v);
    assert z * (e1 + b * v) == z * e1 + z * (b * v);
  }

  lemma ChildRoots(x: nat)
    requires 1 <= x < 128
    ensures Cong(Twiddle(x) * Twiddle(x), NodeConst(x), Q)
    ensures Cong(-Twiddle(x) * -Twiddle(x), NodeConst(x), Q)
  {
    hide Twiddle, Cong;
    NodeConstIsSquare(x);
    CongFlip(NodeConst(x), Twiddle(x) * Twiddle(x), Q);
    assert -Twiddle(x) * -Twiddle(x) == Twiddle(x) * Twiddle(x);
  }

  /** Leaf constants are the roots of their ancestors' moduli. */
  lemma LeafStep(w: int, h: nat, z: int, c: int)
    requires Cong(Pow(w, h), z, Q) && Cong(z * z, c, Q)
    ensures Cong(Pow(w, 2 * h), c, Q)
  {
    hide Cong;
    PowAdd(w, h, h);
    CongMul(Pow(w, h), z, Pow(w, h), z, Q);
    CongTrans(Pow(w, 2 * h), z * z, c, Q);
  }

  /** One level of the tree: the value at a leaf of the folded block is the value at the block. */
  lemma EvalStep(p: seq<int>, z: int, off: nat, w: int, v: int)
    requires |p| % 4 == 0 && |p| > 0 && off < 2
    requires var h := |p| / 4; Cong(Pow(w, h), z, Q) && Cong(v, Eval(Fold(p, z), off, w, h), Q)
    ensures Cong(v, Eval(p, off, w, |p| / 2), Q)
  {
    hide Fold, Cong, Eval, Pow;
    var h := |p| / 4;
    var n := |p| / 2;
    assert n == h + h;
    EvalFold(p, z, off, w, h, n);
    EvalSplit(p, off, w, h, h);
    var e0, e1 := Eval(p, off, w, h), Eval(p, n + off, w, h);
    assert off + 2 * h == n + off;
    CongScale(Pow(w, h), z, e1, Q);
    CongSelf(e0, Q);
    CongFlip(Pow(w, h) * e1, z * e1, Q);
    CongAdd(e0, e0, z * e1, Pow(w, h) * e1, Q);
    CongTrans(v, Eval(Fold(p, z), off, w, h), e0 + z * e1, Q);
    CongTrans(v, e0 + z * e1, e0 + Pow(w, h) * e1, Q);
  }

  lemma {:induction false} NttTreeEval(p: seq<int>, x: nat, i: nat, off: nat, y: nat)
    requires IsNode(|p|, x) && i < |p| / 2 && off < 2 && y == x * (|p| / 2) + i && y >= 1
    ensures Cong(NttTree(p, x)[2 * i + off], Eval(p, off, NodeConst(y), |p| / 2), Q)
    ensures Cong(Pow(NodeConst(y), |p| / 2), NodeConst(x), Q)
    decreases |p|
  {
    hide Fold, NodeConst, Twiddle, Cong, IsNode, NttTree, IsSize, Eval, Pow;
    var w := NodeConst(y);
    if |p| == 2 {
      LeafEval(p, x, off, w);
    } else {
      ChildNodes(|p|, x);
      ChildConsts(x);
      ChildRoots(x);
      var z, h := Twiddle(x), |p| / 4;
      var lo, hi := Fold(p, z), Fold(p, -z);
      NttTreeStep(p, x);
      LeafIndex(x, |p| / 2, i, y);
      if i < h {
        NttTreeEval(lo, 2 * x, i, off, y);
        EvalStep(p, z, off, w, NttTree(p, x)[2 * i + off]);
        LeafStep(w, h, z, NodeConst(x));
      } else {
        NttTreeEval(hi, 2 * x + 1, i - h, off, y);
        EvalStep(p, -z, off, w, NttTree(p, x)[2 * i + off]);
        LeafStep(w, h, -z, NodeConst(x));
      }
    }
  }

  lemma LeafEval(p: seq<int>, x: nat, off: nat, w: int)
    requires |p| == 2 && off < 2 && x >= 1 && w == NodeConst(x)
    ensures Cong(NttTree(p, x)[off], Eval(p, off, w, 1), Q) && Cong(Pow(w, 1), NodeConst(x), Q)
  {
    assert Pow(w, 1) == w * Pow(w, 0) && Pow(w, 0) == 1;
    assert Eval(p, off, w, 1) == Eval(p, off, w, 0) + p[off] * Pow(w, 0);
    CongSelf(w, Q);
    CongSelf(p[off], Q);
  }

  /** The constant of leaf 128 + i is 17^(2*br7(i) + 1). */
  lemma LeafConst(i: nat)
    requires i < 128
    ensures Cong(NodeConst(128 + i), Zeta(2 * BitRev(i, 7) + 1), Q)
  {
    hide Zeta, BitRev, Cong, Twiddle;
    var k := i / 2;
    BitRevChildren(k);
    UpperTwiddle(k);
    if i % 2 == 0 {
      assert i == 2 * k && (128 + i) / 2 == 64 + k;
      CongSelf(Zeta(1 + BitRev(k, 7)), Q);
    } else {
      assert i == 2 * k + 1 && (128 + i) / 2 == 64 + k;
      NegatedHalfTurn(1 + BitRev(k, 7), 2 * BitRev(i, 7) + 1);
    }
  }

  lemma UpperTwiddle(k: nat)
    requires k < 64
    ensures Twiddle(64 + k) == Zeta(1 + BitRev(k, 7))
  {
    hide Zeta, BitRev;
    assert Two(6) == 64;
    BitRevTop(k, 6);
  }

  /** A set top bit of x is a set bottom bit of the reversal. */
  lemma {:induction false} BitRevTop(x: nat, bits: nat)
    requires x < Two(bits)
    ensures BitRev(Two(bits) + x, bits + 1) == 1 + BitRev(x, bits + 1)
  {
    if bits > 0 {
      BitRevTop(x / 2, bits - 1);
      var y := Two(bits) + x;
      assert y / 2 == Two(bits - 1) + x / 2 && y % 2 == x % 2;
      assert BitRev(y, bits + 1) == (y % 2) * Two(bits) + BitRev(y / 2, bits);
      assert BitRev(x, bits + 1) == (x % 2) * Two(bits) + BitRev(x / 2, bits);
    } else {
      assert x == 0;
      assert BitRev(1, 1) == 1 * Two(0) + BitRev(0, 0);
    }
  }

  /** The transform computes the specification's sums, for both members of every pair. */
  lemma NttMatchesSpecification(p: seq<int>, i: nat, off: nat)
    requires |p| == 256 && i < 128 && off < 2
    ensures Ntt(p)[2 * i + off] == Eval(p, off, Zeta(2 * BitRev(i, 7) + 1), 128) % Q
  {
    hide NodeConst, Zeta, BitRev, NttTree, Eval, Cong;
    var w := Zeta(2 * BitRev(i, 7) + 1);
    NttTreeEval(p, 1, i, off, 128 + i);
    LeafConst(i);
    EvalCong(p, off, NodeConst(128 + i), w, 128);
    var y := Ntt(p)[2 * i + off];
    CongTrans(y, Eval(p, off, NodeConst(128 + i), 128), Eval(p, off, w, 128), Q);
    CongRemainders(y, Eval(p, off, w, 128), Q);
    ModSmall(y, Q);
  }
}
