/** The SM2 group behind the sm2_fn_*, sm2_point_* and sm2_jacobian_point_* routines that
    src/sm2_ring.c and src/sm2_elgamal.c call: their field and group contracts. */
module Groups {
  import opened NumberTheory
  import opened Field
  import opened Curve
  import opened ScalarMul
  import opened SignSpec

  /** Multiples of the generator, addition, negation, scalar multiplication and inversion modulo n. */
  datatype Group = Group(cb: int, mul: int -> Affine, add: (Affine, Affine) -> Affine, neg: Affine -> Affine,
                         scale: (int, Affine) -> Affine, inv: int -> int)
  {
    ghost predicate Valid() {
      && Prime(Field.P) && Prime(N) && Multiples(cb, mul) && OrderN(mul)
      && (forall p, q :: add(p, q) == EcAdd(p, q))
      && (forall p :: neg(p) == EcNeg(p))
      && (forall t, a :: scale(t, mul(a)) == mul(t * a))
      && (forall a :: 0 < a < N ==> inv(a) == InvN(a))
    }

    /** t*P + s*G. */
    function MulSum(t: int, p: Affine, s: int): Affine {
      add(mul(s), scale(t, p))
    }
  }

  lemma SumIs(g: Group, p: Affine, q: Affine)
    requires g.Valid()
    ensures g.add(p, q) == EcAdd(p, q)
  {
    hide Multiples, OrderN, EcAdd, EcNeg, Prime;
  }

  lemma AddMul(g: Group, i: int, j: int)
    requires g.Valid()
    ensures g.add(g.mul(i), g.mul(j)) == g.mul(i + j)
  {
    hide Multiples, OrderN, EcAdd, Prime;
    MulAdd(g.cb, g.mul, i, j);
  }

  lemma NegMul(g: Group, i: int)
    requires g.Valid()
    ensures g.neg(g.mul(i)) == g.mul(-i)
  {
    hide Multiples, OrderN, EcAdd, EcNeg, Prime;
    MulNeg(g.cb, g.mul, i);
  }

  lemma ScaleMul(g: Group, t: int, a: int)
    requires g.Valid()
    ensures g.scale(t, g.mul(a)) == g.mul(t * a)
  {
    hide Multiples, OrderN, EcAdd, EcNeg, Prime;
  }

  /** Two multiples share their x-coordinate exactly when they are equal or opposite. */
  lemma SameXMeans(g: Group, i: int, j: int)
    requires g.Valid() && i % N != 0 && j % N != 0 && X(g.mul(i)) == X(g.mul(j))
    ensures (i - j) % N == 0 || (i + j) % N == 0
  {
    hide Multiples, EcAdd, EcNeg, Prime, OnCurve, OrderN;
    var p, q := g.mul(i), g.mul(j);
    OrderAt(g.mul, i);
    OrderAt(g.mul, j);
    MulOn(g.cb, g.mul, i);
    MulOn(g.cb, g.mul, j);
    SameX(g.cb, p, q);
    if q == p {
      MulInjective(g.cb, g.mul, i, j);
    } else {
      MulNeg(g.cb, g.mul, i);
      MulInjective(g.cb, g.mul, -i, j);
      Opposite(i, j);
    }
  }

  lemma Opposite(i: int, j: int)
    requires (-i - j) % N == 0
    ensures (i + j) % N == 0
  {
  }
}
