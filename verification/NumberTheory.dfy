/** Residues modulo a prime form a field: inverses, cancellation and Fermat's little
    theorem, proved from the definition of a prime. */
module NumberTheory {
  import opened Modular

  ghost predicate Prime(p: int) {
    p >= 2 && forall a :: 2 <= a < p ==> p % a != 0
  }

  ghost predicate Divides(p: int, a: int)
    requires p > 0
  {
    Cong(a, 0, p)
  }

  /** An inverse modulo a prime, by repeatedly dividing p by a. */
  lemma {:induction false} InverseOfSmall(a: int, p: int) returns (u: int)
    requires Prime(p) && 0 < a < p
    ensures Cong(u * a, 1, p)
    decreases a
  {
    if a == 1 {
      u := 1;
      CongSelf(1, p);
    } else {
      var q, r := p / a, p % a;
      var v := InverseOfSmall(r, p);
      u := -v * q;
      assert u * a == v * r - v * p by {
        assert r == p - q * a;
        assert v * r == v * p - v * (q * a);
        assert -v * q * a == -(v * (q * a));
      }
      CongFromMultiple(u * a, v * r, -v, p);
      CongTrans(u * a, v * r, 1, p);
    }
  }

  lemma InverseExists(a: int, p: int) returns (u: int)
    requires Prime(p) && !Divides(p, a)
    ensures Cong(u * a, 1, p)
  {
    hide Cong;
    var r := a % p;
    CongMod(a, p);
    CongRemainders(a, 0, p);
    ModSmall(0, p);
    u := InverseOfSmall(r, p);
    CongScale(r, a, u, p);
    CongFlip(u * r, u * a, p);
    CongTrans(u * a, u * r, 1, p);
  }

  /** Nonzero factors cancel modulo a prime. */
  lemma CancelFactor(a: int, b: int, c: int, p: int)
    requires Prime(p) && !Divides(p, a) && Cong(a * b, a * c, p)
    ensures Cong(b, c, p)
  {
    hide Cong;
    var u := InverseExists(a, p);
    CongScale(a * b, a * c, u, p);
    Undo(u, a, b, p);
    Undo(u, a, c, p);
    CongFlip(u * (a * b), b, p);
    CongTrans(b, u * (a * b), u * (a * c), p);
    CongTrans(b, u * (a * c), c, p);
  }

  lemma Undo(u: int, a: int, b: int, p: int)
    requires p > 0 && Cong(u * a, 1, p)
    ensures Cong(u * (a * b), b, p)
  {
    CongScale(u * a, 1, b, p);
    assert (u * a) * b == u * (a * b);
  }

  /** A prime dividing a product divides a factor. */
  lemma EuclidLemma(a: int, b: int, p: int)
    requires Prime(p) && Divides(p, a * b)
    ensures Divides(p, a) || Divides(p, b)
  {
    if !Divides(p, a) {
      assert a * 0 == 0;
      CancelFactor(a, b, 0, p);
    }
  }

  // ---------- powers ----------

  function Pow(a: int, e: nat): int {
    if e == 0 then 1 else a * Pow(a, e - 1)
  }

  lemma {:induction false} PowAdd(a: int, i: nat, j: nat)
    ensures Pow(a, i + j) == Pow(a, i) * Pow(a, j)
  {
    if i > 0 {
      PowAdd(a, i - 1, j);
      assert a * (Pow(a, i - 1) * Pow(a, j)) == (a * Pow(a, i - 1)) * Pow(a, j);
    }
  }

  lemma {:induction false} PowCong(a: int, b: int, e: nat, m: int)
    requires m > 0 && Cong(a, b, m)
    ensures Cong(Pow(a, e), Pow(b, e), m)
  {
    hide Cong;
    if e > 0 {
      PowCong(a, b, e - 1, m);
      CongMul(a, b, Pow(a, e - 1), Pow(b, e - 1), m);
    } else {
      CongSelf(1, m);
    }
  }

  // ---------- Fermat's little theorem ----------

  ghost function Pick(s: set<int>): (x: int)
    requires s != {}
    ensures x in s
  {
    Inhabited(s);
    var x :| x in s;
    x
  }

  lemma Inhabited(s: set<int>)
    requires s != {}
    ensures exists x :: x in s
  {
    assert (forall x :: x !in s) ==> s == {};
  }

  ghost function ProdSet(s: set<int>): int {
    if s == {} then 1 else Pick(s) * ProdSet(s - {Pick(s)})
  }

  /** The product of a set does not depend on the order of its elements. */
  lemma {:induction false} ProdSetRemove(s: set<int>, y: int)
    requires y in s
    ensures ProdSet(s) == y * ProdSet(s - {y})
    decreases |s|
  {
    hide Pick;
    var x := Pick(s);
    if x != y {
      ProdSetRemove(s - {x}, y);
      ProdSetRemove(s - {y}, x);
      assert s - {x} - {y} == s - {y} - {x};
      SwapFactors(x, y, ProdSet(s - {x} - {y}));
    }
  }

  lemma SwapFactors(x: int, y: int, t: int)
    ensures x * (y * t) == y * (x * t)
  {
  }

  ghost function Image(s: set<int>, a: int, p: int): set<int>
    requires p > 0
  {
    set i | i in s :: (a * i) % p
  }

  lemma Preimage(s: set<int>, a: int, p: int, y: int) returns (i: int)
    requires p > 0 && y in Image(s, a, p)
    ensures i in s && (a * i) % p == y
  {
    i :| i in s && (a * i) % p == y;
  }

  lemma ImageInsert(s: set<int>, a: int, p: int, x: int)
    requires p > 0 && x in s
    ensures Image(s, a, p) == Image(s - {x}, a, p) + {(a * x) % p}
  {
    forall y | y in Image(s, a, p) ensures y in Image(s - {x}, a, p) + {(a * x) % p} {
      var i := Preimage(s, a, p, y);
      if i != x {
        assert i in s - {x};
      }
    }
  }

  ghost predicate Units(s: set<int>, p: int) {
    forall i :: i in s ==> 0 < i < p
  }

  lemma ScaledDiffer(a: int, i: int, j: int, p: int)
    requires Prime(p) && !Divides(p, a) && 0 < i < p && 0 < j < p && (a * i) % p == (a * j) % p
    ensures i == j
  {
    CongRemainders(a * i, a * j, p);
    CancelFactor(a, i, j, p);
    CongCanonical(i, j, p);
  }

  lemma NotInImage(t: set<int>, a: int, p: int, x: int)
    requires Prime(p) && !Divides(p, a) && Units(t, p) && 0 < x < p && x !in t
    ensures (a * x) % p !in Image(t, a, p)
  {
    hide Divides, Cong, Prime, Image;
    PrimeBig(p);
    var y := (a * x) % p;
    if y in Image(t, a, p) {
      var i := Preimage(t, a, p, y);
      ScaledDiffer(a, i, x, p);
    }
  }

  lemma {:induction false} ImageSizeAndProduct(s: set<int>, a: int, p: int)
    requires Prime(p) && !Divides(p, a) && Units(s, p)
    ensures |Image(s, a, p)| == |s|
    ensures Cong(ProdSet(Image(s, a, p)), Pow(a, |s|) * ProdSet(s), p)
    decreases |s|
  {
    hide Divides, Cong, Prime, ProdSet, Pick, Image, Pow;
    PrimeBig(p);
    if s == {} {
      EmptyProducts(a, p);
      CongSelf(1, p);
    } else {
      var x := Pick(s);
      var t, y := s - {x}, (a * x) % p;
      ImageSizeAndProduct(t, a, p);
      NotInImage(t, a, p, x);
      ImageInsert(s, a, p, x);
      assert Image(s, a, p) - {y} == Image(t, a, p);
      ProdSetRemove(Image(s, a, p), y);
      ProdSetRemove(s, x);
      FactorOut(y, a, x, ProdSet(Image(t, a, p)), Pow(a, |t|), ProdSet(t), p);
      PowNext(a, |s|);
    }
  }

  lemma EmptyProducts(a: int, p: int)
    requires p > 0
    ensures Image({}, a, p) == {} && ProdSet({}) == 1 && Pow(a, 0) == 1
  {
  }

  lemma PowNext(a: int, e: nat)
    requires e > 0
    ensures Pow(a, e) == a * Pow(a, e - 1)
  {
  }

  lemma FactorOut(y: int, a: int, x: int, f: int, w: int, g: int, p: int)
    requires p > 0 && y == (a * x) % p && Cong(f, w * g, p)
    ensures Cong(y * f, (a * w) * (x * g), p)
  {
    hide Cong;
    CongMod(a * x, p);
    CongMul(y, a * x, f, w * g, p);
    assert (a * x) * (w * g) == (a * w) * (x * g);
  }

  lemma {:induction false} ProdOfUnits(s: set<int>, p: int)
    requires Prime(p) && Units(s, p)
    ensures !Divides(p, ProdSet(s))
    decreases |s|
  {
    hide Prime, Pick, Divides;
    PrimeBig(p);
    if s == {} {
      UnitNotDivisible(1, p);
    } else {
      var x := Pick(s);
      ProdOfUnits(s - {x}, p);
      UnitNotDivisible(x, p);
      if Divides(p, ProdSet(s)) {
        EuclidLemma(x, ProdSet(s - {x}), p);
      }
    }
  }

  lemma UnitNotDivisible(x: int, p: int)
    requires 0 < x < p
    ensures !Divides(p, x)
  {
    ModSmall(x, p);
    ModSmall(0, p);
    CongRemainders(x, 0, p);
  }

  lemma PrimeBig(p: int)
    requires Prime(p)
    ensures p >= 2
  {
  }

  ghost function AllUnits(p: int): (s: set<int>)
    ensures forall i :: i in s <==> 0 < i < p
    ensures p >= 1 ==> |s| == p - 1
    decreases p
  {
    if p <= 1 then {} else AllUnits(p - 1) + {p - 1}
  }

  lemma SameSizeSubset(a: set<int>, b: set<int>)
    requires a <= b && |a| == |b|
    ensures a == b
  {
    assert b == a + (b - a);
    assert |b| == |a| + |b - a|;
    assert b - a == {};
  }

  lemma ImageOfUnits(a: int, p: int)
    requires Prime(p) && !Divides(p, a)
    ensures Image(AllUnits(p), a, p) == AllUnits(p)
  {
    hide Prime, Divides, Image, ProdSet, Pow;
    PrimeBig(p);
    var s := AllUnits(p);
    ImageSizeAndProduct(s, a, p);
    forall y | y in Image(s, a, p) ensures y in s {
      var i := Preimage(s, a, p, y);
      CongMod(a * i, p);
      if y == 0 {
        assert Divides(p, a * i) by { ZeroDivides(a * i, p); }
        UnitNotDivisible(i, p);
        EuclidLemma(a, i, p);
      }
    }
    SameSizeSubset(Image(s, a, p), s);
  }

  lemma ZeroDivides(x: int, p: int)
    requires p > 0 && x % p == 0
    ensures Divides(p, x)
  {
    ModSmall(0, p);
    CongRemainders(x, 0, p);
  }

  /** Fermat: a^(p-1) = 1 modulo a prime p not dividing a. */
  lemma FermatLittle(a: int, p: int)
    requires Prime(p) && !Divides(p, a)
    ensures Cong(Pow(a, p - 1), 1, p)
  {
    hide Pow, Prime, ProdSet, Image, Divides, Cong;
    PrimeBig(p);
    var s := AllUnits(p);
    ImageOfUnits(a, p);
    ImageSizeAndProduct(s, a, p);
    ProdOfUnits(s, p);
    var g, w := ProdSet(s), Pow(a, p - 1);
    assert w * g == g * w && g * 1 == g;
    CongFlip(g, w * g, p);
    CancelFactor(g, w, 1, p);
  }

  /** The (p-2)-th power is the inverse. */
  lemma FermatInverse(a: int, p: int)
    requires Prime(p) && !Divides(p, a)
    ensures Cong(a * Pow(a, p - 2), 1, p)
  {
    PrimeBig(p);
    FermatLittle(a, p);
    assert Pow(a, p - 1) == a * Pow(a, p - 2);
  }
}
