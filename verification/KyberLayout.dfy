/** Where the bits of a packed polynomial go (src/kyber.c): the bytes, low one first, and the fields, first
    one first, are digits of the same number.  Bit b of field i of width w is therefore bit w * i + b of the
    bytes. */
module KyberLayout {
  import opened Common
  import opened Modular
  import opened KyberCodec

  /** The number with the given digits, the lowest first. */
  function Digits(s: seq<int>, base: int): int {
    if s == [] then 0 else s[0] + base * Digits(s[1..], base)
  }

  lemma DigitsTwo(s: seq<int>, base: int)
    requires |s| >= 2
    ensures Digits(s, base) == s[0] + base * (s[1] + base * Digits(s[2..], base))
  {
    assert s[1..][1..] == s[2..];
  }

  lemma DigitsFour(s: seq<int>, base: int)
    requires |s| >= 4
    ensures Digits(s, base)
         == s[0] + base * (s[1] + base * (s[2] + base * (s[3] + base * Digits(s[4..], base))))
  {
    hide Digits;
    DigitsTwo(s, base);
    DigitsTwo(s[2..], base);
    assert s[2..][2..] == s[4..];
  }

  // ---------- 12 bits ----------

  lemma Sum12(a0: int, a1: int)
    requires 0 <= a0 < 4096 && 0 <= a1 < 4096
    ensures var b: seq<int> := Bytes12(a0, a1); b[0] + 256 * (b[1] + 256 * b[2]) == a0 + 4096 * a1
  {
    Mixed(a1, a0 / 256, 16, 16);
    DivModUnique(a1 / 16, 256, 0, a1 / 16);
  }

  /** 256 coefficients of 12 bits in 384 bytes. */
  lemma {:induction false} Layout12(a: seq<int>)
    requires |a| % 2 == 0 && Below(a, 4096)
    ensures Digits(Pack12(a), 256) == Digits(a, 4096)
  {
    if a != [] {
      hide Digits, Bytes12;
      var b: seq<int>, t: seq<int> := Bytes12(a[0], a[1]), Pack12(a[2..]);
      Layout12(a[2..]);
      DigitsTwo(a, 4096);
      Sum12(a[0], a[1]);
      Prepend3(b[0], b[1], b[2], t);
      assert b == [b[0], b[1], b[2]];
    }
  }

  lemma Prepend3(x: int, y: int, z: int, t: seq<int>)
    ensures Digits([x, y, z] + t, 256) == x + 256 * (y + 256 * z) + 16777216 * Digits(t, 256)
  {
    hide Digits;
    var s := [x, y, z] + t;
    DigitsTwo(s, 256);
    DigitsOne(s[2..], 256);
    assert s[2..][1..] == t;
  }

  lemma DigitsOne(s: seq<int>, base: int)
    requires s != []
    ensures Digits(s, base) == s[0] + base * Digits(s[1..], base)
  {
  }

  // ---------- 10 bits ----------

  /** Two neighbouring fields that share a byte. */
  lemma Shared(hi: int, m: int, k: int, lo: int)
    requires 0 <= hi && 0 <= lo < m && k > 0 && m * k == 256
    ensures (hi * m + lo) % 256 + 256 * (hi / k) == hi * m + lo
  {
    var q, r := hi / k, hi % k;
    Mixed(hi, lo, m, k);
    assert hi * m == q * 256 + r * m by {
      assert hi == q * k + r;
      assert (q * k + r) * m == q * (m * k) + r * m;
    }
  }

  lemma Sum10(a0: int, a1: int, a2: int, a3: int)
    requires 0 <= a0 < 1024 && 0 <= a1 < 1024 && 0 <= a2 < 1024 && 0 <= a3 < 1024
    ensures var b: seq<int> := Bytes10(a0, a1, a2, a3);
            b[0] + 256 * (b[1] + 256 * (b[2] + 256 * (b[3] + 256 * b[4]))) == a0 + 1024 * (a1 + 1024 * (a2 + 1024 * a3))
  {
    hide MixByte;
    var b: seq<int> := Bytes10(a0, a1, a2, a3);
    var q0, q1, q2 := Quarters(a0, 256), Quarters(a1, 64), Quarters(a2, 16);
    SharedByte(a1, 4, 64, q0);
    SharedByte(a2, 16, 16, q1);
    SharedByte(a3, 64, 4, q2);
    LastByte(a3);
    FirstByte(a0);
    Carried(a0, a1, a2, a3, b[0], b[1], b[2], b[3], b[4], q0, q1, q2);
  }

  /** The upper part of a 10-bit field. */
  function Quarters(a: int, k: int): (q: int)
    requires 0 <= a < 1024 && (k == 256 || k == 64 || k == 16)
    ensures q == a / k && 0 <= q < 1024 / k
  {
    a / k
  }

  lemma SharedByte(hi: int, m: int, k: int, lo: int)
    requires 0 <= hi && 0 <= lo < m && k > 0 && m * k == 256
    ensures (MixByte(hi, m, lo) as int) + 256 * (hi / k) == hi * m + lo
  {
    Shared(hi, m, k, lo);
  }

  lemma LastByte(a: int)
    requires 0 <= a < 1024
    ensures (a / 4) % 256 == a / 4
  {
    DivModUnique(a / 4, 256, 0, a / 4);
  }

  lemma FirstByte(a: int)
    ensures a == a % 256 + 256 * (a / 256)
  {
  }

  lemma Carried(a0: int, a1: int, a2: int, a3: int, b0: int, b1: int, b2: int, b3: int, b4: int, q0: int, q1: int, q2: int)
    requires a0 == b0 + 256 * q0 && b1 + 256 * q1 == a1 * 4 + q0 && b2 + 256 * q2 == a2 * 16 + q1
    requires b3 + 256 * b4 == a3 * 64 + q2
    ensures b0 + 256 * (b1 + 256 * (b2 + 256 * (b3 + 256 * b4))) == a0 + 1024 * (a1 + 1024 * (a2 + 1024 * a3))
  {
  }

  /** 256 codes of 10 bits in 320 bytes. */
  lemma {:induction false} Layout10(a: seq<int>)
    requires |a| % 4 == 0 && Below(a, 1024)
    ensures Digits(Pack10(a), 256) == Digits(a, 1024)
  {
    if a != [] {
      hide Digits, Bytes10, Pack10;
      Unfold10(a);
      var b: seq<int>, t: seq<int> := Bytes10(a[0], a[1], a[2], a[3]), Pack10(a[4..]);
      Layout10(a[4..]);
      DigitsFour(a, 1024);
      Sum10(a[0], a[1], a[2], a[3]);
      Prepend5(b[0], b[1], b[2], b[3], b[4], t);
      assert b == [b[0], b[1], b[2], b[3], b[4]];
    }
  }

  lemma Unfold10(a: seq<int>)
    requires |a| % 4 == 0 && |a| >= 4
    ensures Pack10(a) == Bytes10(a[0], a[1], a[2], a[3]) + Pack10(a[4..])
  {
    hide Bytes10;
  }

  lemma Prepend5(v: int, w: int, x: int, y: int, z: int, t: seq<int>)
    ensures Digits([v, w, x, y, z] + t, 256)
         == v + 256 * (w + 256 * (x + 256 * (y + 256 * z))) + 1099511627776 * Digits(t, 256)
  {
    hide Digits;
    var s := [v, w, x, y, z] + t;
    DigitsFour(s, 256);
    DigitsOne(s[4..], 256);
    assert s[4..][1..] == t;
  }

  // ---------- 4 bits and 1 bit ----------

  /** 256 codes of 4 bits in 128 bytes. */
  lemma {:induction false} Layout4(a: seq<int>)
    requires |a| % 2 == 0 && Below(a, 16)
    ensures Digits(Pack4(a), 256) == Digits(a, 16)
  {
    if a != [] {
      hide Digits;
      Layout4(a[2..]);
      DigitsTwo(a, 16);
      ModSmall(a[0] + a[1] * 16, 256);
      DigitsOne(Pack4(a), 256);
      assert Pack4(a)[1..] == Pack4(a[2..]);
    }
  }

  lemma {:induction false} BitsNumber(s: seq<int>)
    requires Below(s, 2)
    ensures FromBits(s) == Digits(s, 2)
  {
    if s != [] {
      BitsNumber(s[1..]);
    }
  }

  lemma DigitsEight(s: seq<int>)
    requires |s| >= 8
    ensures Digits(s, 2) == Digits(s[..8], 2) + 256 * Digits(s[8..], 2)
  {
    hide Digits;
    var f := s[..8];
    DigitsFour(s, 2);
    DigitsFour(s[4..], 2);
    assert s[4..][4..] == s[8..];
    DigitsFour(f, 2);
    DigitsFour(f[4..], 2);
    NoDigits(2);
    assert f[4..][4..] == [];
  }

  lemma NoDigits(base: int)
    ensures Digits([], base) == 0
  {
  }

  /** 256 bits in 32 bytes. */
  lemma {:induction false} Layout1(a: seq<int>)
    requires |a| % 8 == 0 && Below(a, 2)
    ensures Digits(Pack1(a), 256) == Digits(a, 2)
  {
    if a != [] {
      hide Digits, Pack1, FromBits;
      PackStep1(a);
      Layout1(a[8..]);
      BitsNumber(a[..8]);
      DigitsEight(a);
      DigitsOne(Pack1(a), 256);
      assert Pack1(a)[1..] == Pack1(a[8..]);
    } else {
      PackNone1(a);
    }
  }
}
