/** Signed-window (Booth) recoding: sm2_z256_get_booth of src/sm2_z256.c on limbs, and what the
    digits mean. */
module Booth {
  import opened Common
  import opened Modular
  import opened Z256
  import opened FieldElem
  import opened FieldInv

  /** The scalar seen from one bit below window i. */
  function Shifted(w: nat, a: nat, i: nat): nat
    requires w > 0
  {
    if i == 0 then 2 * a else MulAtLeast(i, w); ShiftDown(a, w * i - 1)
  }

  function ShiftDown(a: nat, s: nat): (r: nat)
  {
    var t := Two(s);
    DivNonneg(a, t);
    a / t
  }

  lemma DivNonneg(a: nat, t: int)
    requires t > 0
    ensures a / t >= 0
  {
  }

  /** Digit i: the window's bits minus the window shifted down by one. */
  function Digit(w: nat, a: nat, i: nat): int
    requires w > 0
  {
    Shifted(w, a, i) % Two(w) - (Shifted(w, a, i) / 2) % Two(w)
  }

  /** What the digits from i upwards add up to, in units of 2^(w*i). */
  function Upper(w: nat, a: nat, i: nat): nat
    requires w > 0
  {
    Shifted(w, a, i) - Shifted(w, a, i) / 2
  }

  lemma DivDiv(a: nat, x: nat, y: nat)
    requires x > 0 && y > 0
    ensures x * y > 0 && a / x / y == a / (x * y)
  {
    MulAtLeast(x, y);
    var q, r := a / x, a % x;
    var q', r' := q / y, q % y;
    assert q == q' * y + r' && a == q * x + r;
    assert a == q' * (x * y) + (r' * x + r) by {
      assert q * x == (q' * y) * x + r' * x;
      assert (q' * y) * x == q' * (x * y);
    }
    assert 0 <= r' * x + r < x * y by { Room(r', r, x, y); }
    DivModUnique(a, x * y, q', r' * x + r);
  }

  lemma Room(r': int, r: int, x: int, y: int)
    requires 0 <= r' < y && 0 <= r < x
    ensures 0 <= r' * x + r < x * y
  {
    Nonneg(y - 1 - r', x);
    assert (y - 1 - r') * x == x * y - x - r' * x;
    Nonneg(r', x);
  }

  lemma Nonneg(a: int, b: int)
    requires a >= 0 && b >= 0
    ensures a * b >= 0
  {
  }

  lemma ShiftDownTwice(a: nat, s: nat, t: nat)
    ensures ShiftDown(ShiftDown(a, s), t) == ShiftDown(a, s + t)
  {
    hide Two;
    DivDiv(a, Two(s), Two(t));
    TwoAdd(s, t);
  }

  lemma ShiftDownDouble(a: nat, t: nat)
    ensures ShiftDown(2 * a, t + 1) == ShiftDown(a, t)
  {
    hide Two;
    DivDiv(2 * a, 2, Two(t));
    TwoStep(t);
  }

  lemma ShiftedNext(w: nat, a: nat, i: nat)
    requires w > 0
    ensures Shifted(w, a, i + 1) == ShiftDown(Shifted(w, a, i), w)
  {
    hide ShiftDown;
    assert w * (i + 1) == w * i + w;
    if i == 0 {
      ShiftDownDouble(a, w - 1);
    } else {
      MulAtLeast(i, w);
      ShiftDownTwice(a, w * i - 1, w);
    }
  }

  /** One window: the digit is what the next coarser value leaves over, and it is small. */
  lemma DigitStep(w: nat, a: nat, i: nat)
    requires w > 0
    ensures Upper(w, a, i) == Two(w) * Upper(w, a, i + 1) + Digit(w, a, i)
    ensures -1 * Two(w - 1) <= Digit(w, a, i) <= Two(w - 1)
  {
    hide Two, Shifted, Upper, Digit;
    DigitIs(w, a, i);
    DigitIs(w, a, i + 1);
    ShiftedNext(w, a, i);
    TwoStep(w - 1);
    WindowSplit(Shifted(w, a, i), Two(w), Two(w - 1));
  }

  lemma DigitIs(w: nat, a: nat, i: nat)
    requires w > 0
    ensures var u := Shifted(w, a, i);
            Digit(w, a, i) == u % Two(w) - (u / 2) % Two(w) && Upper(w, a, i) == u - u / 2
  {
    hide Two, Shifted;
  }

  lemma WindowSplit(u: nat, t: nat, h: nat)
    requires t == 2 * h && h > 0
    ensures u - u / 2 == t * (u / t - u / t / 2) + (u % t - (u / 2) % t)
    ensures -1 * h <= u % t - (u / 2) % t <= h
  {
    var v, m := u / t, u % t;
    assert u == v * t + m;
    assert v * t == t * v;
    var b := v % 2;
    assert v == 2 * (v / 2) + b;
    var x := b * h + m / 2;
    assert 0 <= x < t by { if b == 0 { assert b * h == 0; } else { assert b * h == h; } }
    assert t * v == 2 * (t * (v / 2) + b * h) by { HalfProduct(t, h, v / 2, b, v); }
    assert u / 2 == (v / 2) * t + x;
    DivModUnique(u / 2, t, v / 2, x);
    assert t * (v - v / 2) == t * v - t * (v / 2);
    assert b == 0 ==> x == m / 2;
    assert b == 1 ==> x == h + m / 2;
  }

  lemma HalfProduct(t: int, h: int, k: int, b: int, v: int)
    requires t == 2 * h && v == 2 * k + b
    ensures t * v == 2 * (t * k + b * h)
  {
    assert t * v == t * (2 * k) + t * b;
    assert t * b == 2 * (b * h);
    assert t * (2 * k) == 2 * (t * k);
  }

  /** All windows together are the scalar, and there is nothing above the top one. */
  lemma UpperEnds(w: nat, a: nat, n: nat)
    requires w > 0 && w * n > 256 && a < R256
    ensures Upper(w, a, 0) == a && Upper(w, a, n) == 0
  {
    hide Two;
    var e: nat := w * n - 1;
    TwoWide(e);
    DivModUnique(a, Two(e), 0, a);
  }

  lemma TwoWide(e: nat)
    requires e >= 256
    ensures Two(e) >= R256
  {
    hide Two;
    TwoSixtyFour();
    TwoAdd(64, 64);
    TwoAdd(128, 128);
    TwoAdd(256, e - 256);
    MulAtLeast(Two(e - 256), R256);
  }

  // ---------- the digit from the limbs ----------

  /** The part of a that starts at limb n. */
  lemma LimbSplit(a: Fe, n: nat) returns (lo: nat, hi: nat)
    requires n < 4
    ensures Val4(a) == lo + Two(64 * n) * (a[n] + B64 * hi) && lo < Two(64 * n)
    ensures if n == 3 then hi == 0 else hi % B64 == a[n + 1]
  {
    hide Two;
    TwoSixtyFour();
    TwoAdd(64, 64);
    TwoAdd(64, 128);
    assert Two(0) == 1 by { TwoNought(); }
    if n == 0 {
      lo, hi := 0, a[1] + B64 * (a[2] + B64 * a[3]);
    } else if n == 1 {
      lo, hi := a[0], a[2] + B64 * a[3];
    } else if n == 2 {
      lo, hi := a[0] + B64 * a[1], a[3];
    } else {
      lo, hi := a[0] + B64 * (a[1] + B64 * a[2]), 0;
    }
  }

  /** Shifting right by 64n + j: limb n shifted, plus everything above it shifted left. */
  lemma ShiftRight(v: nat, lo: nat, t: nat, x: nat, hi: nat, d: nat, c: nat)
    requires v == lo + t * (x + B64 * hi) && lo < t && c * d == B64 && d > 0
    ensures t * d > 0 && v / (t * d) == x / d + c * hi
  {
    MulAtLeast(t, d);
    DivDiv(v, t, d);
    var u := x + B64 * hi;
    assert t * u == u * t;
    DivModUnique(v, t, u, lo);
    var q, r := x / d, x % d;
    assert x == q * d + r;
    assert B64 * hi == (c * hi) * d by { assert (c * d) * hi == (c * hi) * d; }
    assert u == (q + c * hi) * d + r by { assert (q + c * hi) * d == q * d + (c * hi) * d; }
    DivModUnique(u, d, q + c * hi, r);
  }

  /** Only the low w + 1 bits of the shifted scalar matter for the digit. */
  lemma LowBits(u: nat, u': nat, t: nat)
    requires t > 0 && u % (2 * t) == u' % (2 * t)
    ensures u % t - (u / 2) % t == u' % t - (u' / 2) % t
  {
    Reduced2(u, t);
    Reduced2(u', t);
  }

  lemma Reduced2(u: nat, t: nat)
    requires t > 0
    ensures var x := u % (2 * t); u % t == x % t && (u / 2) % t == x / 2
  {
    var k, x := u / (2 * t), u % (2 * t);
    assert u == k * (2 * t) + x;
    assert k * (2 * t) == 2 * (k * t);
    DivModUnique(u / 2, t, k, x / 2);
    var q, r := x / t, x % t;
    assert x == q * t + r;
    assert u == (2 * k + q) * t + r by { assert (2 * k + q) * t == 2 * (k * t) + q * t; }
    DivModUnique(u, t, 2 * k + q, r);
  }

  /** The bits that a spill-over from limb n + 1 contributes, modulo 2^(w+1). */
  lemma SpillOver(q: nat, c: nat, hi: nat, y: nat, d: nat, m: nat, e: nat)
    requires hi % B64 == y && c * d == B64 && d > 0 && m > 0 && c * d == m * e
    ensures Cong(q + c * hi, q + (y * c) % B64, m)
  {
    hide Cong;
    var k := hi / B64;
    assert hi == B64 * k + y;
    var l := (y * c) / B64;
    assert y * c == B64 * l + (y * c) % B64;
    assert c * hi == c * (B64 * k) + y * c;
    assert c * (B64 * k) == B64 * (c * k);
    assert B64 * (c * k) + B64 * l == m * (e * (c * k + l)) by {
      var s := c * k + l;
      assert B64 * (c * k) + B64 * l == B64 * s;
      assert (m * e) * s == m * (e * s);
    }
    var z := e * (c * k + l);
    assert m * z == z * m;
    CongFromMultiple(q + c * hi, q + (y * c) % B64, z, m);
  }

  /** The word the digit is read from; the two parts occupy disjoint bits. */
  function Assembled(a: Fe, w: nat, n: nat, j: nat): nat
    requires n < 4 && j < 64
  {
    ShiftDown(a[n], j) + if 64 - j < w + 1 && n < 3 then (a[n + 1] * Two(64 - j)) % B64 else 0
  }

  /** sm2_z256_get_booth. */
  method GetBooth(a: Fe, w: nat, i: nat) returns (r: int)
    requires 1 <= w <= 31 && w * i <= 256
    ensures Val4(a) >= 0 && r == Digit(w, Val4(a), i)
  {
    hide Two, ShiftDown, Val4, Digit;
    var mask := Two(w);
    Val4Range(a);
    if i == 0 {
      LowLimbDigit(a, w);
      return ((a[0] * 2) % B64) % mask - a[0] % mask;
    }
    MulAtLeast(i, w);
    var s := w * i - 1;
    var n, j := s / 64, s % 64;
    var wbits := ShiftDown(a[n], j);
    if 64 - j < w + 1 && n < 3 {
      wbits := wbits + (a[n + 1] * Two(64 - j)) % B64;
    }
    AssembledDigit(a, w, i, n, j, wbits);
    r := wbits % mask - (wbits / 2) % mask;
  }

  lemma AssembledDigit(a: Fe, w: nat, i: nat, n: nat, j: nat, wbits: nat)
    requires 1 <= w <= 31 && i > 0 && n < 4 && j < 64 && w * i - 1 == 64 * n + j && wbits == Assembled(a, w, n, j)
    ensures Val4(a) >= 0 && Digit(w, Val4(a), i) == wbits % Two(w) - (wbits / 2) % Two(w)
  {
    hide Two, ShiftDown, Val4, Assembled, Digit, Cong;
    Val4Range(a);
    WindowBits(a, w, n, j);
    TwoStep(w);
    var u := ShiftDown(Val4(a), 64 * n + j);
    SameRemainder(u, wbits, 2 * Two(w));
    LowBits(u, wbits, Two(w));
    DigitIs(w, Val4(a), i);
  }

  lemma LowLimbDigit(a: Fe, w: nat)
    requires 1 <= w <= 31
    ensures Val4(a) >= 0 && ((a[0] * 2) % B64) % Two(w) - a[0] % Two(w) == Digit(w, Val4(a), 0)
  {
    hide Two, Val4, Digit;
    Val4Range(a);
    var lo, hi := LimbSplit(a, 0);
    TwoNought();
    TwoSixtyFour();
    TwoAdd(w, 64 - w);
    LowWindow(Val4(a), a[0], hi, Two(w), Two(64 - w));
    DigitIs(w, Val4(a), 0);
  }

  lemma LowWindow(v: nat, x: nat, hi: nat, t: nat, e: nat)
    requires t > 0 && t * e == B64 && v == x + B64 * hi
    ensures ((x * 2) % B64) % t - x % t == (2 * v) % t - (2 * v / 2) % t
  {
    hide Cong;
    var y, k := (x * 2) % B64, 2 * x / B64;
    assert 2 * x == y + B64 * k;
    Multiple(t, e, hi);
    CongFromMultiple(v, x, e * hi, t);
    Multiple(t, e, k);
    CongFromMultiple(2 * x, y, e * k, t);
    CongScale(v, x, 2, t);
    CongTrans(2 * v, 2 * x, y, t);
    SameRemainder(2 * v, y, t);
    SameRemainder(v, x, t);
    assert 2 * v / 2 == v;
  }

  lemma Multiple(t: int, e: int, k: int)
    ensures (t * e) * k == (e * k) * t
  {
  }

  lemma SameRemainder(a: int, b: int, t: int)
    requires t > 0 && Cong(a, b, t)
    ensures a % t == b % t
  {
    CongRemainders(a, b, t);
  }

  /** Modulo 2^(w+1) the assembled word is the scalar shifted down by 64n + j. */
  lemma WindowBits(a: Fe, w: nat, n: nat, j: nat)
    requires 1 <= w <= 31 && n < 4 && j < 64
    ensures Val4(a) >= 0 && Cong(ShiftDown(Val4(a), 64 * n + j), Assembled(a, w, n, j), Two(w + 1))
  {
    hide Two, Val4, ShiftDown, Cong;
    Val4Range(a);
    var lo, hi := LimbSplit(a, n);
    var q, m := ShiftDown(a[n], j), Two(w + 1);
    AboveLimb(Val4(a), lo, n, a[n], hi, j);
    if 64 - j < w + 1 && n < 3 {
      SpillCong(q, j, w, hi, a[n + 1]);
    } else if 64 - j >= w + 1 {
      NoSpill(q, j, w, hi);
    } else {
      assert Two(64 - j) * hi == 0;
      CongFromMultiple(q, q, 0, m);
    }
  }

  lemma AboveLimb(v: nat, lo: nat, n: nat, x: nat, hi: nat, j: nat)
    requires v == lo + Two(64 * n) * (x + B64 * hi) && lo < Two(64 * n) && j <= 64
    ensures ShiftDown(v, 64 * n + j) == ShiftDown(x, j) + Two(64 - j) * hi
  {
    hide Two;
    TwoSixtyFour();
    TwoAdd(64 - j, j);
    TwoAdd(64 * n, j);
    ShiftRight(v, lo, Two(64 * n), x, hi, Two(j), Two(64 - j));
  }

  lemma SpillCong(q: nat, j: nat, w: nat, hi: nat, y: nat)
    requires j <= 64 && w <= 63 && hi % B64 == y
    ensures Cong(q + Two(64 - j) * hi, q + (y * Two(64 - j)) % B64, Two(w + 1))
  {
    hide Two, Cong;
    TwoSixtyFour();
    TwoAdd(64 - j, j);
    TwoAdd(w + 1, 63 - w);
    SpillOver(q, Two(64 - j), hi, y, Two(j), Two(w + 1), Two(63 - w));
  }

  lemma NoSpill(q: nat, j: nat, w: nat, hi: nat)
    requires w + 1 + j <= 64
    ensures Cong(q + Two(64 - j) * hi, q, Two(w + 1))
  {
    hide Two;
    var m, e := Two(w + 1), Two(63 - j - w);
    TwoAdd(w + 1, 63 - j - w);
    assert (m * e) * hi == (e * hi) * m;
    CongFromMultiple(q + Two(64 - j) * hi, q, e * hi, m);
  }
}
