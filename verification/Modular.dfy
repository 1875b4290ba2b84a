/** Congruence modulo a positive integer, and the closure properties the arithmetic layers rely on. */
module Modular {

  ghost function Multiple(k: int, m: int): int {
    k * m
  }

  /** True of all arguments; naming a pair makes its congruence available to the verifier. */
  ghost predicate Named(t: int, a: int, b: int, m: int) {
    true
  }

  /** The two sides differ by a multiple of m.  The explicit trigger keeps large moduli out of every
      proof that does not ask for them through CongMultiple or CongRemainders. */
  ghost predicate Cong(a: int, b: int, m: int)
    requires m > 0
  {
    forall t: int {:trigger Named(t, a, b, m)} :: Named(t, a, b, m) ==> exists k: int :: a == b + Multiple(k, m)
  }

  lemma CongFromMultiple(a: int, b: int, k: int, m: int)
    requires m > 0
    requires a == b + k * m
    ensures Cong(a, b, m)
  {
    assert a == b + Multiple(k, m);
  }

  /** Congruence is equality of the Euclidean remainders. */
  lemma CongRemainders(a: int, b: int, m: int)
    requires m > 0
    ensures Cong(a, b, m) <==> a % m == b % m
  {
    if Cong(a, b, m) {
      var k := CongMultiple(a, b, m);
      var qb, rb := b / m, b % m;
      assert (qb + k) * m == qb * m + k * m;
      DivModUnique(a, m, qb + k, rb);
    } else if a % m == b % m {
      var k := a / m - b / m;
      assert k * m == (a / m) * m - (b / m) * m;
      CongFromMultiple(a, b, k, m);
    }
  }

  /** Quotient and remainder are determined by the division equation. */
  lemma DivModUnique(a: int, m: int, q: int, r: int)
    requires m > 0 && 0 <= r < m
    requires a == q * m + r
    ensures a / m == q && a % m == r
  {
    var q', r' := a / m, a % m;
    assert a == q' * m + r';
    assert (q - q') * m == r' - r by {
      assert q * m - q' * m == (q - q') * m;
    }
    if q' < q {
      MulAtLeast(q - q', m);
    } else if q < q' {
      MulAtMost(q - q', m);
    }
  }

  lemma MulAtLeast(k: int, m: int)
    requires k >= 1 && m > 0
    ensures k * m >= m
  {
    assert (k - 1) * m >= 0;
    assert k * m == (k - 1) * m + m;
  }

  lemma MulAtMost(k: int, m: int)
    requires k <= -1 && m > 0
    ensures k * m <= -m
  {
    MulAtLeast(-k, m);
    assert (-k) * m == -(k * m);
  }

  /** Congruent integers differ by an exact multiple of the modulus. */
  lemma CongMultiple(a: int, b: int, m: int) returns (k: int)
    requires m > 0
    requires Cong(a, b, m)
    ensures a == b + k * m
  {
    assert Named(0, a, b, m);
    k :| a == b + Multiple(k, m);
  }

  lemma CongSelf(a: int, m: int)
    requires m > 0
    ensures Cong(a, a, m)
  {
    CongFromMultiple(a, a, 0, m);
  }

  lemma CongFlip(a: int, b: int, m: int)
    requires m > 0 && Cong(a, b, m)
    ensures Cong(b, a, m)
  {
    var k := CongMultiple(a, b, m);
    assert -k * m == -(k * m);
    CongFromMultiple(b, a, -k, m);
  }

  lemma CongTrans(a: int, b: int, c: int, m: int)
    requires m > 0
    requires Cong(a, b, m) && Cong(b, c, m)
    ensures Cong(a, c, m)
  {
    var k := CongMultiple(a, b, m);
    var l := CongMultiple(b, c, m);
    assert (k + l) * m == k * m + l * m;
    CongFromMultiple(a, c, k + l, m);
  }

  lemma CongAdd(a: int, a': int, b: int, b': int, m: int)
    requires m > 0
    requires Cong(a, a', m) && Cong(b, b', m)
    ensures Cong(a + b, a' + b', m)
  {
    var k := CongMultiple(a, a', m);
    var l := CongMultiple(b, b', m);
    assert (k + l) * m == k * m + l * m;
    CongFromMultiple(a + b, a' + b', k + l, m);
  }

  lemma CongSub(a: int, a': int, b: int, b': int, m: int)
    requires m > 0
    requires Cong(a, a', m) && Cong(b, b', m)
    ensures Cong(a - b, a' - b', m)
  {
    var k := CongMultiple(a, a', m);
    var l := CongMultiple(b, b', m);
    assert (k - l) * m == k * m - l * m;
    CongFromMultiple(a - b, a' - b', k - l, m);
  }

  lemma CongScale(a: int, a': int, b: int, m: int)
    requires m > 0
    requires Cong(a, a', m)
    ensures Cong(a * b, a' * b, m)
    ensures Cong(b * a, b * a', m)
  {
    var k := CongMultiple(a, a', m);
    assert a * b == a' * b + (k * b) * m by {
      assert (a' + k * m) * b == a' * b + (k * m) * b;
      assert (k * m) * b == (k * b) * m;
    }
    CongFromMultiple(a * b, a' * b, k * b, m);
  }

  lemma CongMul(a: int, a': int, b: int, b': int, m: int)
    requires m > 0
    requires Cong(a, a', m) && Cong(b, b', m)
    ensures Cong(a * b, a' * b', m)
  {
    hide Cong;
    CongScale(a, a', b, m);
    CongScale(b, b', a', m);
    CongTrans(a * b, a' * b, a' * b', m);
  }

  /** Reducing first changes nothing up to congruence. */
  lemma CongMod(a: int, m: int)
    requires m > 0
    ensures Cong(a % m, a, m)
    ensures 0 <= a % m < m
  {
    var q := a / m;
    assert -q * m == -(q * m);
    CongFromMultiple(a % m, a, -q, m);
  }

  /** The canonical residue, characterised rather than computed. */
  ghost function Residue(x: int, m: int): (r: int)
    requires m > 0
    ensures 0 <= r < m && Cong(r, x, m)
  {
    CongMod(x, m);
    var r :| 0 <= r < m && Cong(r, x, m);
    r
  }

  lemma ResidueIs(x: int, m: int)
    requires m > 0
    ensures Residue(x, m) == x % m
  {
    hide Cong;
    CongMod(x, m);
    CongFlip(x % m, x, m);
    CongTrans(Residue(x, m), x, x % m, m);
    CongCanonical(Residue(x, m), x % m, m);
  }

  /** Two canonical residues that are congruent are equal. */
  lemma CongCanonical(a: int, b: int, m: int)
    requires m > 0
    requires 0 <= a < m && 0 <= b < m
    requires Cong(a, b, m)
    ensures a == b
  {
    DivModUnique(a, m, 0, a);
    DivModUnique(b, m, 0, b);
    CongRemainders(a, b, m);
  }

  lemma ModSmall(a: int, m: int)
    requires 0 <= a < m
    ensures a % m == a
  {
    DivModUnique(a, m, 0, a);
  }
}
