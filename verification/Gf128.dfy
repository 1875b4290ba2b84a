/** GF(2^128) as src/gf128.c computes it.  A word is its bits, least significant first, so that shifts,
    masks and exclusive-or are operations on sequences of bits. */
module Gf128 {
  import opened Polynomials


  type Word = w: seq<bool> | |w| == 64 witness seq(64, _ => false)

  /** x^128 + x^7 + x^2 + x + 1. */
  function Field128(): (f: Poly)
    ensures f.Valid() && f.degree == 128
  {
    Poly(128, {0, 1, 2, 7})
  }

  /** The field product. */
  function FieldProduct(a: Bits, b: Bits): (r: Bits)
    requires |a| == 128 && |b| == 128
    ensures |r| == 128
  {
    Product(Field128(), a, b)
  }

  // ---------- the words ----------

  function Shl(w: Word): Word {
    [false] + w[..63]
  }

  function Shr(w: Word): Word {
    w[1..] + [false]
  }

  function Or(a: Word, b: Word): (r: Word)
    ensures forall i :: 0 <= i < 64 ==> r[i] == (a[i] || b[i])
  {
    seq(64, i requires 0 <= i < 64 => a[i] || b[i])
  }

  /** w >> 63. */
  function Shr63(w: Word): Word {
    [w[63]] + Zeros(63)
  }

  /** The constant 0x87. */
  function TapWord(): (w: Word)
    ensures forall i :: 0 <= i < 64 ==> w[i] == (i in Field128().taps)
  {
    seq(64, i requires 0 <= i < 64 => i in Field128().taps)
  }

  datatype Gf = Gf(lo: Word, hi: Word)
  {
    function Val(): (r: Bits)
      ensures |r| == 128
    {
      lo + hi
    }
  }

  /** The conditional step at the head of both loops, and gf128_mul_by_2. */
  method MulBy2(a: Gf) returns (r: Gf)
    ensures r.Val() == XTimes(Field128(), a.Val())
  {
    var hi := Or(Shl(a.hi), Shr63(a.lo));
    var lo := Shl(a.lo);
    ghost var v := a.Val();
    assert lo + hi == [false] + v[..127];
    if a.hi[63] {
      ghost var plain := lo;
      lo := Xor(lo, TapWord());
      HighTaps(plain, lo, hi);
    }
    r := Gf(lo, hi);
  }

  lemma HighTaps(plain: Word, lo: Word, hi: Word)
    requires lo == Xor(plain, TapWord())
    ensures lo + hi == AddTaps(Field128(), plain + hi, 0)
  {
    var x, y := lo + hi, AddTaps(Field128(), plain + hi, 0);
    forall i | 0 <= i < 128 ensures x[i] == y[i] {
      assert y[i] == ((plain + hi)[i] != (i in Field128().taps));
    }
  }

  /** gf128_add. */
  method GfAdd(a: Gf, b: Gf) returns (r: Gf)
    ensures r.Val() == Xor(a.Val(), b.Val())
  {
    r := Gf(Xor(a.lo, b.lo), Xor(a.hi, b.hi));
    assert r.Val() == Xor(a.Val(), b.Val());
  }

  /** 64 bits of the multiplier: the word w is shifted out from the top. */
  method MulWord(r: Gf, a: Gf, w: Word, ghost b: Bits, ghost base: nat) returns (s: Gf)
    requires |b| == 128 && base + 64 <= 128 && w == b[base..base + 64] && r.Val() == Rem(Field128(), Mul(a.Val(), b[base + 64..]))
    ensures s.Val() == Rem(Field128(), Mul(a.Val(), b[base..]))
  {
    hide Rem, Mul, XTimes, Shl, Xor, Gf.Val;
    s := r;
    var c := w;
    assert Shifted(w, c, 0);
    for i := 0 to 64
      invariant s.Val() == Rem(Field128(), Mul(a.Val(), b[base + 64 - i..]))
      invariant Shifted(w, c, i)
    {
      ghost var at := base + 63 - i;
      HornerStep(Field128(), a.Val(), b, at);
      assert c[63] == b[at];
      s := MulBy2(s);
      XorZeros(s.Val());
      if c[63] {
        s := GfAdd(s, a);
      }
      ShlShifted(w, c, i);
      c := Shl(c);
    }
  }

  /** c is w shifted up by i. */
  ghost predicate Shifted(w: Word, c: Word, i: nat) {
    forall j :: i <= j < 64 ==> c[j] == w[j - i]
  }

  lemma ShlShifted(w: Word, c: Word, i: nat)
    requires Shifted(w, c, i)
    ensures Shifted(w, Shl(c), i + 1)
  {
  }

  lemma XorZeros(r: Bits)
    requires |r| == 128
    ensures Xor(r, Zeros(128)) == r
  {
  }

  /** gf128_mul: the product modulo the field polynomial, for all operands. */
  method GfMul(a: Gf, b: Gf) returns (r: Gf)
    ensures r.Val() == FieldProduct(a.Val(), b.Val())
  {
    hide Rem, Mul;
    ghost var v := b.Val();
    HornerStart(Field128(), a.Val(), v);
    var z := Gf(Zeros(64), Zeros(64));
    assert z.Val() == Zeros(128);
    assert b.hi == v[64..128] && b.lo == v[0..64];
    r := MulWord(z, a, b.hi, v, 64);
    r := MulWord(r, a, b.lo, v, 0);
    assert v[0..] == v;
  }

  // ---------- bytes ----------

  /** The bits in the opposite order. */
  function Reversed(w: Bits): (r: Bits)
    ensures |r| == |w| && forall i :: 0 <= i < |w| ==> r[i] == w[|w| - 1 - i]
  {
    seq(|w|, i requires 0 <= i < |w| => w[|w| - 1 - i])
  }

  /** a & 1. */
  function LowBit(w: Word): Word {
    [w[0]] + Zeros(63)
  }

  /** reverse_bits. */
  method ReverseBits(a: Word) returns (r: Word)
    ensures r == Reversed(a)
  {
    hide Shl, Shr, Or, LowBit;
    r := Zeros(64);
    var b := a;
    for i := 0 to 63
      invariant forall j :: 0 <= j < 64 - i ==> b[j] == a[j + i]
      invariant Collected(a, r, i)
    {
      ReverseStep(a, b, r, i);
      r := Or(r, LowBit(b));
      r := Shl(r);
      b := Shr(b);
    }
    ReverseEnd(a, b, r);
    r := Or(r, LowBit(b));
  }

  /** The low i bits of a, reversed, above one free place. */
  ghost predicate Collected(a: Word, r: Word, i: nat) {
    i <= 63 && (forall j :: 1 <= j <= i ==> r[j] == a[i - j]) && !r[0]
  }

  lemma ReverseStep(a: Word, b: Word, r: Word, i: nat)
    requires i < 63 && Collected(a, r, i) && forall j :: 0 <= j < 64 - i ==> b[j] == a[j + i]
    ensures Collected(a, Shl(Or(r, LowBit(b))), i + 1)
    ensures forall j :: 0 <= j < 63 - i ==> Shr(b)[j] == a[j + i + 1]
  {
    var o := Or(r, LowBit(b));
    assert o[0] == b[0] && b[0] == a[i];
    assert forall j :: 1 <= j < 64 ==> o[j] == r[j];
    var t := Shl(o);
    forall j | 1 <= j <= i + 1 ensures t[j] == a[i + 1 - j] {
      assert t[j] == o[j - 1];
    }
    forall j | 0 <= j < 63 - i ensures Shr(b)[j] == a[j + i + 1] {
      assert Shr(b)[j] == b[j + 1];
    }
  }

  lemma ReverseEnd(a: Word, b: Word, r: Word)
    requires Collected(a, r, 63) && b[0] == a[63]
    ensures Or(r, LowBit(b)) == Reversed(a)
  {
    var o, v := Or(r, LowBit(b)), Reversed(a);
    forall j | 0 <= j < 64 ensures o[j] == v[j] {
      assert v[j] == a[63 - j];
      assert j > 0 ==> !LowBit(b)[j];
    }
  }

  type Byte = b: seq<bool> | |b| == 8 witness seq(8, _ => false)
  type Block = b: seq<Byte> | |b| == 16 witness seq(16, _ => seq(8, _ => false))

  /** GETU64 and PUTU64: the first byte is the most significant. */
  function GetWord(p: seq<Byte>): Word
    requires |p| == 8
  {
    var q: seq<Bits> := p;
    q[7] + q[6] + q[5] + q[4] + q[3] + q[2] + q[1] + q[0]
  }

  function PutWord(w: Word): (p: seq<Byte>)
    ensures |p| == 8
  {
    [w[56..64], w[48..56], w[40..48], w[32..40], w[24..32], w[16..24], w[8..16], w[0..8]]
  }

  lemma WordRoundTrip(p: seq<Byte>, w: Word)
    requires |p| == 8
    ensures PutWord(GetWord(p)) == p && GetWord(PutWord(w)) == w
  {
    var v := GetWord(p);
    assert v[0..8] == p[7] && v[8..16] == p[6] && v[16..24] == p[5] && v[24..32] == p[4];
    assert v[32..40] == p[3] && v[40..48] == p[2] && v[48..56] == p[1] && v[56..64] == p[0];
  }

  /** The element a block stands for: its first bit is the coefficient of x^0. */
  function Element(p: Block): (r: Bits)
    ensures |r| == 128
  {
    Reversed(GetWord(p[..8])) + Reversed(GetWord(p[8..]))
  }

  /** gf128_from_bytes. */
  method FromBytes(p: Block) returns (r: Gf)
    ensures r.Val() == Element(p)
  {
    var lo := ReverseBits(GetWord(p[..8]));
    var hi := ReverseBits(GetWord(p[8..]));
    r := Gf(lo, hi);
  }

  /** gf128_to_bytes. */
  method ToBytes(a: Gf) returns (p: Block)
    ensures Element(p) == a.Val()
  {
    var lo := ReverseBits(a.lo);
    var hi := ReverseBits(a.hi);
    p := PutWord(lo) + PutWord(hi);
    assert p[..8] == PutWord(lo) && p[8..] == PutWord(hi);
    WordRoundTrip(PutWord(lo), lo);
    WordRoundTrip(PutWord(hi), hi);
    assert Reversed(lo) == a.lo && Reversed(hi) == a.hi;
  }

  /** The block of an element. */
  function BlockOf(r: Bits): Block
    requires |r| == 128
  {
    PutWord(Reversed(r[..64])) + PutWord(Reversed(r[64..]))
  }

  lemma BlockOfElement(r: Bits)
    requires |r| == 128
    ensures Element(BlockOf(r)) == r
  {
    hide GetWord, PutWord;
    var lo: Word, hi: Word := Reversed(r[..64]), Reversed(r[64..]);
    var p: Block := BlockOf(r);
    assert p[..8] == PutWord(lo) && p[8..] == PutWord(hi);
    WordRoundTrip(PutWord(lo), lo);
    WordRoundTrip(PutWord(hi), hi);
    assert Reversed(lo) == r[..64] && Reversed(hi) == r[64..];
  }

  /** A block is determined by its element. */
  lemma ElementInjective(p: Block, q: Block)
    requires Element(p) == Element(q)
    ensures p == q
  {
    hide GetWord;
    var a, b, c, d := GetWord(p[..8]), GetWord(p[8..]), GetWord(q[..8]), GetWord(q[8..]);
    assert Reversed(a) == Element(p)[..64] && Reversed(c) == Element(q)[..64];
    assert Reversed(b) == Element(p)[64..] && Reversed(d) == Element(q)[64..];
    ReversedInjective(a, c);
    ReversedInjective(b, d);
    WordRoundTrip(p[..8], a);
    WordRoundTrip(p[8..], a);
    WordRoundTrip(q[..8], a);
    WordRoundTrip(q[8..], a);
    assert p == p[..8] + p[8..] && q == q[..8] + q[8..];
  }

  lemma ReversedInjective(a: Bits, b: Bits)
    requires Reversed(a) == Reversed(b)
    ensures a == b
  {
    assert Reversed(Reversed(a)) == a && Reversed(Reversed(b)) == b;
  }
}
