/** The S-box of AES against section 5.1.1 of FIPS 197: each entry of the table in src/aes.c is an affine
    image of the inverse of its index in GF(2^8).  Bytes are eight bits here. */
module AesInverse {
  import opened Common
  import T = AesTables

  /** A byte, low bit first. */
  datatype Octet = Octet(b0: bool, b1: bool, b2: bool, b3: bool, b4: bool, b5: bool, b6: bool, b7: bool)

  function Unit(b: bool): int {
    if b then 1 else 0
  }

  /** The bits of a number below 256, taken off from the top. */
  function Split(v: int): Octet {
    var b7, r7 := v >= 128, if v >= 128 then v - 128 else v;
    var b6, r6 := r7 >= 64, if r7 >= 64 then r7 - 64 else r7;
    var b5, r5 := r6 >= 32, if r6 >= 32 then r6 - 32 else r6;
    var b4, r4 := r5 >= 16, if r5 >= 16 then r5 - 16 else r5;
    var b3, r3 := r4 >= 8, if r4 >= 8 then r4 - 8 else r4;
    var b2, r2 := r3 >= 4, if r3 >= 4 then r3 - 4 else r3;
    Octet(r2 == 1 || r2 == 3, r2 >= 2, b2, b3, b4, b5, b6, b7)
  }

  lemma SplitNumber(v: int, b0: bool, b1: bool, b2: bool, b3: bool, b4: bool, b5: bool, b6: bool, b7: bool)
    requires v == Unit(b0) + 2 * Unit(b1) + 4 * Unit(b2) + 8 * Unit(b3) + 16 * Unit(b4) + 32 * Unit(b5) + 64 * Unit(b6) + 128 * Unit(b7)
    ensures Split(v) == Octet(b0, b1, b2, b3, b4, b5, b6, b7)
  {
  }

  // ---------- the field ----------

  /** Multiplication by x modulo x^8 + x^4 + x^3 + x + 1. */
  function Twice(p: Octet): Octet {
    Octet(p.b7, p.b0 != p.b7, p.b1, p.b2 != p.b7, p.b3 != p.b7, p.b4, p.b5, p.b6)
  }

  lemma TwiceBits(p: Octet, p1: Octet)
    requires p1 == Twice(p)
    ensures p1.b0 == p.b7 && p1.b1 == (p.b0 != p.b7) && p1.b2 == p.b1 && p1.b3 == (p.b2 != p.b7)
    ensures p1.b4 == (p.b3 != p.b7) && p1.b5 == p.b4 && p1.b6 == p.b5 && p1.b7 == p.b6
  {
  }

  /** The product: the sum of x^s * p over the bits s of q, bit by bit.  u, v and w are the three bits
      that change in each multiplication by x. */
  function Flat(p: Octet, q: Octet): Octet {
    var u1 := p.b0 != p.b7;
    var v1 := p.b2 != p.b7;
    var w1 := p.b3 != p.b7;
    var u2 := p.b7 != p.b6;
    var v2 := p.b1 != p.b6;
    var w2 := v1 != p.b6;
    var u3 := p.b6 != p.b5;
    var v3 := u1 != p.b5;
    var w3 := v2 != p.b5;
    var u4 := p.b5 != p.b4;
    var v4 := u2 != p.b4;
    var w4 := v3 != p.b4;
    var u5 := p.b4 != w1;
    var v5 := u3 != w1;
    var w5 := v4 != w1;
    var u6 := w1 != w2;
    var v6 := u4 != w2;
    var w6 := v5 != w2;
    var u7 := w2 != w3;
    var v7 := u5 != w3;
    var w7 := v6 != w3;
    Octet((q.b0 && p.b0) != ((q.b1 && p.b7) != ((q.b2 && p.b6) != ((q.b3 && p.b5) != ((q.b4 && p.b4) != ((q.b5 && w1) != ((q.b6 && w2) != (q.b7 && w3))))))),
          (q.b0 && p.b1) != ((q.b1 && u1) != ((q.b2 && u2) != ((q.b3 && u3) != ((q.b4 && u4) != ((q.b5 && u5) != ((q.b6 && u6) != (q.b7 && u7))))))),
          (q.b0 && p.b2) != ((q.b1 && p.b1) != ((q.b2 && u1) != ((q.b3 && u2) != ((q.b4 && u3) != ((q.b5 && u4) != ((q.b6 && u5) != (q.b7 && u6))))))),
          (q.b0 && p.b3) != ((q.b1 && v1) != ((q.b2 && v2) != ((q.b3 && v3) != ((q.b4 && v4) != ((q.b5 && v5) != ((q.b6 && v6) != (q.b7 && v7))))))),
          (q.b0 && p.b4) != ((q.b1 && w1) != ((q.b2 && w2) != ((q.b3 && w3) != ((q.b4 && w4) != ((q.b5 && w5) != ((q.b6 && w6) != (q.b7 && w7))))))),
          (q.b0 && p.b5) != ((q.b1 && p.b4) != ((q.b2 && w1) != ((q.b3 && w2) != ((q.b4 && w3) != ((q.b5 && w4) != ((q.b6 && w5) != (q.b7 && w6))))))),
          (q.b0 && p.b6) != ((q.b1 && p.b5) != ((q.b2 && p.b4) != ((q.b3 && w1) != ((q.b4 && w2) != ((q.b5 && w3) != ((q.b6 && w4) != (q.b7 && w5))))))),
          (q.b0 && p.b7) != ((q.b1 && p.b6) != ((q.b2 && p.b5) != ((q.b3 && p.b4) != ((q.b4 && w1) != ((q.b5 && w2) != ((q.b6 && w3) != (q.b7 && w4))))))))
  }

  lemma XorSame(q0: bool, q1: bool, q2: bool, q3: bool, q4: bool, q5: bool, q6: bool, q7: bool,
                x0: bool, x1: bool, x2: bool, x3: bool, x4: bool, x5: bool, x6: bool, x7: bool,
                r0: bool, r1: bool, r2: bool, r3: bool, r4: bool, r5: bool, r6: bool, r7: bool,
                y0: bool, y1: bool, y2: bool, y3: bool, y4: bool, y5: bool, y6: bool, y7: bool)
    requires q0 == r0 && q1 == r1 && q2 == r2 && q3 == r3 && q4 == r4 && q5 == r5 && q6 == r6 && q7 == r7
    requires x0 == y0 && x1 == y1 && x2 == y2 && x3 == y3 && x4 == y4 && x5 == y5 && x6 == y6 && x7 == y7
    ensures ((q0 && x0) != ((q1 && x1) != ((q2 && x2) != ((q3 && x3) != ((q4 && x4) != ((q5 && x5) != ((q6 && x6) != (q7 && x7))))))))
         == ((r0 && y0) != ((r1 && y1) != ((r2 && y2) != ((r3 && y3) != ((r4 && y4) != ((r5 && y5) != ((r6 && y6) != (r7 && y7))))))))
  {
  }

  // Bit i of the product is the sum of the bits i of p, x * p, ..., x^7 * p selected by q.

  lemma FlatBit0(p: Octet, q: Octet, p1: Octet, p2: Octet, p3: Octet, p4: Octet, p5: Octet, p6: Octet, p7: Octet)
    requires p1 == Twice(p) && p2 == Twice(p1) && p3 == Twice(p2) && p4 == Twice(p3)
    requires p5 == Twice(p4) && p6 == Twice(p5) && p7 == Twice(p6)
    ensures Flat(p, q).b0 == ((q.b0 && p.b0) != ((q.b1 && p1.b0) != ((q.b2 && p2.b0) != ((q.b3 && p3.b0) != ((q.b4 && p4.b0) != ((q.b5 && p5.b0) != ((q.b6 && p6.b0) != (q.b7 && p7.b0))))))))
  {
    hide Twice;
    TwiceBits(p, p1);
    TwiceBits(p1, p2);
    TwiceBits(p2, p3);
    TwiceBits(p3, p4);
    TwiceBits(p4, p5);
    TwiceBits(p5, p6);
    TwiceBits(p6, p7);
    var u1 := p.b0 != p.b7;
    var v1 := p.b2 != p.b7;
    var w1 := p.b3 != p.b7;
    var u2 := p.b7 != p.b6;
    var v2 := p.b1 != p.b6;
    var w2 := v1 != p.b6;
    var u3 := p.b6 != p.b5;
    var v3 := u1 != p.b5;
    var w3 := v2 != p.b5;
    var u4 := p.b5 != p.b4;
    var v4 := u2 != p.b4;
    var w4 := v3 != p.b4;
    var u5 := p.b4 != w1;
    var v5 := u3 != w1;
    var w5 := v4 != w1;
    var u6 := w1 != w2;
    var v6 := u4 != w2;
    var w6 := v5 != w2;
    var u7 := w2 != w3;
    var v7 := u5 != w3;
    var w7 := v6 != w3;
    XorSame(q.b0, q.b1, q.b2, q.b3, q.b4, q.b5, q.b6, q.b7,
            p.b0, p1.b0, p2.b0, p3.b0, p4.b0, p5.b0, p6.b0, p7.b0,
            q.b0, q.b1, q.b2, q.b3, q.b4, q.b5, q.b6, q.b7,
            p.b0, p.b7, p.b6, p.b5, p.b4, w1, w2, w3);
  }

  lemma FlatBit1(p: Octet, q: Octet, p1: Octet, p2: Octet, p3: Octet, p4: Octet, p5: Octet, p6: Octet, p7: Octet)
    requires p1 == Twice(p) && p2 == Twice(p1) && p3 == Twice(p2) && p4 == Twice(p3)
    requires p5 == Twice(p4) && p6 == Twice(p5) && p7 == Twice(p6)
    ensures Flat(p, q).b1 == ((q.b0 && p.b1) != ((q.b1 && p1.b1) != ((q.b2 && p2.b1) != ((q.b3 && p3.b1) != ((q.b4 && p4.b1) != ((q.b5 && p5.b1) != ((q.b6 && p6.b1) != (q.b7 && p7.b1))))))))
  {
    hide Twice;
    TwiceBits(p, p1);
    TwiceBits(p1, p2);
    TwiceBits(p2, p3);
    TwiceBits(p3, p4);
    TwiceBits(p4, p5);
    TwiceBits(p5, p6);
    TwiceBits(p6, p7);
    var u1 := p.b0 != p.b7;
    var v1 := p.b2 != p.b7;
    var w1 := p.b3 != p.b7;
    var u2 := p.b7 != p.b6;
    var v2 := p.b1 != p.b6;
    var w2 := v1 != p.b6;
    var u3 := p.b6 != p.b5;
    var v3 := u1 != p.b5;
    var w3 := v2 != p.b5;
    var u4 := p.b5 != p.b4;
    var v4 := u2 != p.b4;
    var w4 := v3 != p.b4;
    var u5 := p.b4 != w1;
    var v5 := u3 != w1;
    var w5 := v4 != w1;
    var u6 := w1 != w2;
    var v6 := u4 != w2;
    var w6 := v5 != w2;
    var u7 := w2 != w3;
    var v7 := u5 != w3;
    var w7 := v6 != w3;
    XorSame(q.b0, q.b1, q.b2, q.b3, q.b4, q.b5, q.b6, q.b7,
            p.b1, p1.b1, p2.b1, p3.b1, p4.b1, p5.b1, p6.b1, p7.b1,
            q.b0, q.b1, q.b2, q.b3, q.b4, q.b5, q.b6, q.b7,
            p.b1, u1, u2, u3, u4, u5, u6, u7);
  }

  lemma FlatBit2(p: Octet, q: Octet, p1: Octet, p2: Octet, p3: Octet, p4: Octet, p5: Octet, p6: Octet, p7: Octet)
    requires p1 == Twice(p) && p2 == Twice(p1) && p3 == Twice(p2) && p4 == Twice(p3)
    requires p5 == Twice(p4) && p6 == Twice(p5) && p7 == Twice(p6)
    ensures Flat(p, q).b2 == ((q.b0 && p.b2) != ((q.b1 && p1.b2) != ((q.b2 && p2.b2) != ((q.b3 && p3.b2) != ((q.b4 && p4.b2) != ((q.b5 && p5.b2) != ((q.b6 && p6.b2) != (q.b7 && p7.b2))))))))
  {
    hide Twice;
    TwiceBits(p, p1);
    TwiceBits(p1, p2);
    TwiceBits(p2, p3);
    TwiceBits(p3, p4);
    TwiceBits(p4, p5);
    TwiceBits(p5, p6);
    TwiceBits(p6, p7);
    var u1 := p.b0 != p.b7;
    var v1 := p.b2 != p.b7;
    var w1 := p.b3 != p.b7;
    var u2 := p.b7 != p.b6;
    var v2 := p.b1 != p.b6;
    var w2 := v1 != p.b6;
    var u3 := p.b6 != p.b5;
    var v3 := u1 != p.b5;
    var w3 := v2 != p.b5;
    var u4 := p.b5 != p.b4;
    var v4 := u2 != p.b4;
    var w4 := v3 != p.b4;
    var u5 := p.b4 != w1;
    var v5 := u3 != w1;
    var w5 := v4 != w1;
    var u6 := w1 != w2;
    var v6 := u4 != w2;
    var w6 := v5 != w2;
    var u7 := w2 != w3;
    var v7 := u5 != w3;
    var w7 := v6 != w3;
    XorSame(q.b0, q.b1, q.b2, q.b3, q.b4, q.b5, q.b6, q.b7,
            p.b2, p1.b2, p2.b2, p3.b2, p4.b2, p5.b2, p6.b2, p7.b2,
            q.b0, q.b1, q.b2, q.b3, q.b4, q.b5, q.b6, q.b7,
            p.b2, p.b1, u1, u2, u3, u4, u5, u6);
  }

  lemma FlatBit3(p: Octet, q: Octet, p1: Octet, p2: Octet, p3: Octet, p4: Octet, p5: Octet, p6: Octet, p7: Octet)
    requires p1 == Twice(p) && p2 == Twice(p1) && p3 == Twice(p2) && p4 == Twice(p3)
    requires p5 == Twice(p4) && p6 == Twice(p5) && p7 == Twice(p6)
    ensures Flat(p, q).b3 == ((q.b0 && p.b3) != ((q.b1 && p1.b3) != ((q.b2 && p2.b3) != ((q.b3 && p3.b3) != ((q.b4 && p4.b3) != ((q.b5 && p5.b3) != ((q.b6 && p6.b3) != (q.b7 && p7.b3))))))))
  {
    hide Twice;
    TwiceBits(p, p1);
    TwiceBits(p1, p2);
    TwiceBits(p2, p3);
    TwiceBits(p3, p4);
    TwiceBits(p4, p5);
    TwiceBits(p5, p6);
    TwiceBits(p6, p7);
    var u1 := p.b0 != p.b7;
    var v1 := p.b2 != p.b7;
    var w1 := p.b3 != p.b7;
    var u2 := p.b7 != p.b6;
    var v2 := p.b1 != p.b6;
    var w2 := v1 != p.b6;
    var u3 := p.b6 != p.b5;
    var v3 := u1 != p.b5;
    var w3 := v2 != p.b5;
    var u4 := p.b5 != p.b4;
    var v4 := u2 != p.b4;
    var w4 := v3 != p.b4;
    var u5 := p.b4 != w1;
    var v5 := u3 != w1;
    var w5 := v4 != w1;
    var u6 := w1 != w2;
    var v6 := u4 != w2;
    var w6 := v5 != w2;
    var u7 := w2 != w3;
    var v7 := u5 != w3;
    var w7 := v6 != w3;
    XorSame(q.b0, q.b1, q.b2, q.b3, q.b4, q.b5, q.b6, q.b7,
            p.b3, p1.b3, p2.b3, p3.b3, p4.b3, p5.b3, p6.b3, p7.b3,
            q.b0, q.b1, q.b2, q.b3, q.b4, q.b5, q.b6, q.b7,
            p.b3, v1, v2, v3, v4, v5, v6, v7);
  }

  lemma FlatBit4(p: Octet, q: Octet, p1: Octet, p2: Octet, p3: Octet, p4: Octet, p5: Octet, p6: Octet, p7: Octet)
    requires p1 == Twice(p) && p2 == Twice(p1) && p3 == Twice(p2) && p4 == Twice(p3)
    requires p5 == Twice(p4) && p6 == Twice(p5) && p7 == Twice(p6)
    ensures Flat(p, q).b4 == ((q.b0 && p.b4) != ((q.b1 && p1.b4) != ((q.b2 && p2.b4) != ((q.b3 && p3.b4) != ((q.b4 && p4.b4) != ((q.b5 && p5.b4) != ((q.b6 && p6.b4) != (q.b7 && p7.b4))))))))
  {
    hide Twice;
    TwiceBits(p, p1);
    TwiceBits(p1, p2);
    TwiceBits(p2, p3);
    TwiceBits(p3, p4);
    TwiceBits(p4, p5);
    TwiceBits(p5, p6);
    TwiceBits(p6, p7);
    var u1 := p.b0 != p.b7;
    var v1 := p.b2 != p.b7;
    var w1 := p.b3 != p.b7;
    var u2 := p.b7 != p.b6;
    var v2 := p.b1 != p.b6;
    var w2 := v1 != p.b6;
    var u3 := p.b6 != p.b5;
    var v3 := u1 != p.b5;
    var w3 := v2 != p.b5;
    var u4 := p.b5 != p.b4;
    var v4 := u2 != p.b4;
    var w4 := v3 != p.b4;
    var u5 := p.b4 != w1;
    var v5 := u3 != w1;
    var w5 := v4 != w1;
    var u6 := w1 != w2;
    var v6 := u4 != w2;
    var w6 := v5 != w2;
    var u7 := w2 != w3;
    var v7 := u5 != w3;
    var w7 := v6 != w3;
    XorSame(q.b0, q.b1, q.b2, q.b3, q.b4, q.b5, q.b6, q.b7,
            p.b4, p1.b4, p2.b4, p3.b4, p4.b4, p5.b4, p6.b4, p7.b4,
            q.b0, q.b1, q.b2, q.b3, q.b4, q.b5, q.b6, q.b7,
            p.b4, w1, w2, w3, w4, w5, w6, w7);
  }

  lemma FlatBit5(p: Octet, q: Octet, p1: Octet, p2: Octet, p3: Octet, p4: Octet, p5: Octet, p6: Octet, p7: Octet)
    requires p1 == Twice(p) && p2 == Twice(p1) && p3 == Twice(p2) && p4 == Twice(p3)
    requires p5 == Twice(p4) && p6 == Twice(p5) && p7 == Twice(p6)
    ensures Flat(p, q).b5 == ((q.b0 && p.b5) != ((q.b1 && p1.b5) != ((q.b2 && p2.b5) != ((q.b3 && p3.b5) != ((q.b4 && p4.b5) != ((q.b5 && p5.b5) != ((q.b6 && p6.b5) != (q.b7 && p7.b5))))))))
  {
    hide Twice;
    TwiceBits(p, p1);
    TwiceBits(p1, p2);
    TwiceBits(p2, p3);
    TwiceBits(p3, p4);
    TwiceBits(p4, p5);
    TwiceBits(p5, p6);
    TwiceBits(p6, p7);
    var u1 := p.b0 != p.b7;
    var v1 := p.b2 != p.b7;
    var w1 := p.b3 != p.b7;
    var u2 := p.b7 != p.b6;
    var v2 := p.b1 != p.b6;
    var w2 := v1 != p.b6;
    var u3 := p.b6 != p.b5;
    var v3 := u1 != p.b5;
    var w3 := v2 != p.b5;
    var u4 := p.b5 != p.b4;
    var v4 := u2 != p.b4;
    var w4 := v3 != p.b4;
    var u5 := p.b4 != w1;
    var v5 := u3 != w1;
    var w5 := v4 != w1;
    var u6 := w1 != w2;
    var v6 := u4 != w2;
    var w6 := v5 != w2;
    var u7 := w2 != w3;
    var v7 := u5 != w3;
    var w7 := v6 != w3;
    XorSame(q.b0, q.b1, q.b2, q.b3, q.b4, q.b5, q.b6, q.b7,
            p.b5, p1.b5, p2.b5, p3.b5, p4.b5, p5.b5, p6.b5, p7.b5,
            q.b0, q.b1, q.b2, q.b3, q.b4, q.b5, q.b6, q.b7,
            p.b5, p.b4, w1, w2, w3, w4, w5, w6);
  }

  lemma FlatBit6(p: Octet, q: Octet, p1: Octet, p2: Octet, p3: Octet, p4: Octet, p5: Octet, p6: Octet, p7: Octet)
    requires p1 == Twice(p) && p2 == Twice(p1) && p3 == Twice(p2) && p4 == Twice(p3)
    requires p5 == Twice(p4) && p6 == Twice(p5) && p7 == Twice(p6)
    ensures Flat(p, q).b6 == ((q.b0 && p.b6) != ((q.b1 && p1.b6) != ((q.b2 && p2.b6) != ((q.b3 && p3.b6) != ((q.b4 && p4.b6) != ((q.b5 && p5.b6) != ((q.b6 && p6.b6) != (q.b7 && p7.b6))))))))
  {
    hide Twice;
    TwiceBits(p, p1);
    TwiceBits(p1, p2);
    TwiceBits(p2, p3);
    TwiceBits(p3, p4);
    TwiceBits(p4, p5);
    TwiceBits(p5, p6);
    TwiceBits(p6, p7);
    var u1 := p.b0 != p.b7;
    var v1 := p.b2 != p.b7;
    var w1 := p.b3 != p.b7;
    var u2 := p.b7 != p.b6;
    var v2 := p.b1 != p.b6;
    var w2 := v1 != p.b6;
    var u3 := p.b6 != p.b5;
    var v3 := u1 != p.b5;
    var w3 := v2 != p.b5;
    var u4 := p.b5 != p.b4;
    var v4 := u2 != p.b4;
    var w4 := v3 != p.b4;
    var u5 := p.b4 != w1;
    var v5 := u3 != w1;
    var w5 := v4 != w1;
    var u6 := w1 != w2;
    var v6 := u4 != w2;
    var w6 := v5 != w2;
    var u7 := w2 != w3;
    var v7 := u5 != w3;
    var w7 := v6 != w3;
    XorSame(q.b0, q.b1, q.b2, q.b3, q.b4, q.b5, q.b6, q.b7,
            p.b6, p1.b6, p2.b6, p3.b6, p4.b6, p5.b6, p6.b6, p7.b6,
            q.b0, q.b1, q.b2, q.b3, q.b4, q.b5, q.b6, q.b7,
            p.b6, p.b5, p.b4, w1, w2, w3, w4, w5);
  }

  lemma FlatBit7(p: Octet, q: Octet, p1: Octet, p2: Octet, p3: Octet, p4: Octet, p5: Octet, p6: Octet, p7: Octet)
    requires p1 == Twice(p) && p2 == Twice(p1) && p3 == Twice(p2) && p4 == Twice(p3)
    requires p5 == Twice(p4) && p6 == Twice(p5) && p7 == Twice(p6)
    ensures Flat(p, q).b7 == ((q.b0 && p.b7) != ((q.b1 && p1.b7) != ((q.b2 && p2.b7) != ((q.b3 && p3.b7) != ((q.b4 && p4.b7) != ((q.b5 && p5.b7) != ((q.b6 && p6.b7) != (q.b7 && p7.b7))))))))
  {
    hide Twice;
    TwiceBits(p, p1);
    TwiceBits(p1, p2);
    TwiceBits(p2, p3);
    TwiceBits(p3, p4);
    TwiceBits(p4, p5);
    TwiceBits(p5, p6);
    TwiceBits(p6, p7);
    var u1 := p.b0 != p.b7;
    var v1 := p.b2 != p.b7;
    var w1 := p.b3 != p.b7;
    var u2 := p.b7 != p.b6;
    var v2 := p.b1 != p.b6;
    var w2 := v1 != p.b6;
    var u3 := p.b6 != p.b5;
    var v3 := u1 != p.b5;
    var w3 := v2 != p.b5;
    var u4 := p.b5 != p.b4;
    var v4 := u2 != p.b4;
    var w4 := v3 != p.b4;
    var u5 := p.b4 != w1;
    var v5 := u3 != w1;
    var w5 := v4 != w1;
    var u6 := w1 != w2;
    var v6 := u4 != w2;
    var w6 := v5 != w2;
    var u7 := w2 != w3;
    var v7 := u5 != w3;
    var w7 := v6 != w3;
    XorSame(q.b0, q.b1, q.b2, q.b3, q.b4, q.b5, q.b6, q.b7,
            p.b7, p1.b7, p2.b7, p3.b7, p4.b7, p5.b7, p6.b7, p7.b7,
            q.b0, q.b1, q.b2, q.b3, q.b4, q.b5, q.b6, q.b7,
            p.b7, p.b6, p.b5, p.b4, w1, w2, w3, w4);
  }

  // ---------- the table ----------

  /** The affine map of the standard: bits i, i + 4, i + 5, i + 6 and i + 7 are added, and 63. */
  function Affine(y: Octet): Octet {
    Octet((((y.b0 != y.b4) != y.b5) != y.b6) != !y.b7, (((y.b1 != y.b5) != y.b6) != y.b7) != !y.b0,
          (((y.b2 != y.b6) != y.b7) != y.b0) != y.b1, (((y.b3 != y.b7) != y.b0) != y.b1) != y.b2,
          (((y.b4 != y.b0) != y.b1) != y.b2) != y.b3, (((y.b5 != y.b1) != y.b2) != y.b3) != !y.b4,
          (((y.b6 != y.b2) != y.b3) != y.b4) != !y.b5, (((y.b7 != y.b3) != y.b4) != y.b5) != y.b6)
  }

  /** Its inverse: bits i + 2, i + 5 and i + 7 are added, and 05. */
  function Undone(s: Octet): Octet {
    Octet((s.b2 != s.b5) != !s.b7, (s.b3 != s.b6) != s.b0, (s.b4 != s.b7) != !s.b1, (s.b5 != s.b0) != s.b2,
          (s.b6 != s.b1) != s.b3, (s.b7 != s.b2) != s.b4, (s.b0 != s.b3) != s.b5, (s.b1 != s.b4) != s.b6)
  }

  lemma AffineUndone(s: Octet)
    ensures Affine(Undone(s)) == Octet(s.b0, s.b1, s.b2, s.b3, s.b4, s.b5, s.b6, s.b7)
  {
  }

  // One row of the table each: every index times the preimage of its entry under the affine map is one.

  lemma Row0(l0: bool, l1: bool, l2: bool, l3: bool)
    requires l0 || l1 || l2 || l3
    ensures Flat(Octet(l0, l1, l2, l3, false, false, false, false),
                 Undone(Split(T.SRow(0x0, Unit(l0) + 2 * Unit(l1) + 4 * Unit(l2) + 8 * Unit(l3)))))
         == Octet(true, false, false, false, false, false, false, false)
  {
  }

  lemma Row1(l0: bool, l1: bool, l2: bool, l3: bool)
    ensures Flat(Octet(l0, l1, l2, l3, true, false, false, false),
                 Undone(Split(T.SRow(0x1, Unit(l0) + 2 * Unit(l1) + 4 * Unit(l2) + 8 * Unit(l3)))))
         == Octet(true, false, false, false, false, false, false, false)
  {
  }

  lemma Row2(l0: bool, l1: bool, l2: bool, l3: bool)
    ensures Flat(Octet(l0, l1, l2, l3, false, true, false, false),
                 Undone(Split(T.SRow(0x2, Unit(l0) + 2 * Unit(l1) + 4 * Unit(l2) + 8 * Unit(l3)))))
         == Octet(true, false, false, false, false, false, false, false)
  {
  }

  lemma Row3(l0: bool, l1: bool, l2: bool, l3: bool)
    ensures Flat(Octet(l0, l1, l2, l3, true, true, false, false),
                 Undone(Split(T.SRow(0x3, Unit(l0) + 2 * Unit(l1) + 4 * Unit(l2) + 8 * Unit(l3)))))
         == Octet(true, false, false, false, false, false, false, false)
  {
  }

  lemma Row4(l0: bool, l1: bool, l2: bool, l3: bool)
    ensures Flat(Octet(l0, l1, l2, l3, false, false, true, false),
                 Undone(Split(T.SRow(0x4, Unit(l0) + 2 * Unit(l1) + 4 * Unit(l2) + 8 * Unit(l3)))))
         == Octet(true, false, false, false, false, false, false, false)
  {
  }

  lemma Row5(l0: bool, l1: bool, l2: bool, l3: bool)
    ensures Flat(Octet(l0, l1, l2, l3, true, false, true, false),
                 Undone(Split(T.SRow(0x5, Unit(l0) + 2 * Unit(l1) + 4 * Unit(l2) + 8 * Unit(l3)))))
         == Octet(true, false, false, false, false, false, false, false)
  {
  }

  lemma Row6(l0: bool, l1: bool, l2: bool, l3: bool)
    ensures Flat(Octet(l0, l1, l2, l3, false, true, true, false),
                 Undone(Split(T.SRow(0x6, Unit(l0) + 2 * Unit(l1) + 4 * Unit(l2) + 8 * Unit(l3)))))
         == Octet(true, false, false, false, false, false, false, false)
  {
  }

  lemma Row7(l0: bool, l1: bool, l2: bool, l3: bool)
    ensures Flat(Octet(l0, l1, l2, l3, true, true, true, false),
                 Undone(Split(T.SRow(0x7, Unit(l0) + 2 * Unit(l1) + 4 * Unit(l2) + 8 * Unit(l3)))))
         == Octet(true, false, false, false, false, false, false, false)
  {
  }

  lemma Row8(l0: bool, l1: bool, l2: bool, l3: bool)
    ensures Flat(Octet(l0, l1, l2, l3, false, false, false, true),
                 Undone(Split(T.SRow(0x8, Unit(l0) + 2 * Unit(l1) + 4 * Unit(l2) + 8 * Unit(l3)))))
         == Octet(true, false, false, false, false, false, false, false)
  {
  }

  lemma Row9(l0: bool, l1: bool, l2: bool, l3: bool)
    ensures Flat(Octet(l0, l1, l2, l3, true, false, false, true),
                 Undone(Split(T.SRow(0x9, Unit(l0) + 2 * Unit(l1) + 4 * Unit(l2) + 8 * Unit(l3)))))
         == Octet(true, false, false, false, false, false, false, false)
  {
  }

  lemma RowA(l0: bool, l1: bool, l2: bool, l3: bool)
    ensures Flat(Octet(l0, l1, l2, l3, false, true, false, true),
                 Undone(Split(T.SRow(0xa, Unit(l0) + 2 * Unit(l1) + 4 * Unit(l2) + 8 * Unit(l3)))))
         == Octet(true, false, false, false, false, false, false, false)
  {
  }

  lemma RowB(l0: bool, l1: bool, l2: bool, l3: bool)
    ensures Flat(Octet(l0, l1, l2, l3, true, true, false, true),
                 Undone(Split(T.SRow(0xb, Unit(l0) + 2 * Unit(l1) + 4 * Unit(l2) + 8 * Unit(l3)))))
         == Octet(true, false, false, false, false, false, false, false)
  {
  }

  lemma RowC(l0: bool, l1: bool, l2: bool, l3: bool)
    ensures Flat(Octet(l0, l1, l2, l3, false, false, true, true),
                 Undone(Split(T.SRow(0xc, Unit(l0) + 2 * Unit(l1) + 4 * Unit(l2) + 8 * Unit(l3)))))
         == Octet(true, false, false, false, false, false, false, false)
  {
  }

  lemma RowD(l0: bool, l1: bool, l2: bool, l3: bool)
    ensures Flat(Octet(l0, l1, l2, l3, true, false, true, true),
                 Undone(Split(T.SRow(0xd, Unit(l0) + 2 * Unit(l1) + 4 * Unit(l2) + 8 * Unit(l3)))))
         == Octet(true, false, false, false, false, false, false, false)
  {
  }

  lemma RowE(l0: bool, l1: bool, l2: bool, l3: bool)
    ensures Flat(Octet(l0, l1, l2, l3, false, true, true, true),
                 Undone(Split(T.SRow(0xe, Unit(l0) + 2 * Unit(l1) + 4 * Unit(l2) + 8 * Unit(l3)))))
         == Octet(true, false, false, false, false, false, false, false)
  {
  }

  lemma RowF(l0: bool, l1: bool, l2: bool, l3: bool)
    ensures Flat(Octet(l0, l1, l2, l3, true, true, true, true),
                 Undone(Split(T.SRow(0xf, Unit(l0) + 2 * Unit(l1) + 4 * Unit(l2) + 8 * Unit(l3)))))
         == Octet(true, false, false, false, false, false, false, false)
  {
  }

  /** Every nonzero byte times the preimage of its table entry under the affine map is one. */
  lemma TableInverse(v: int, b0: bool, b1: bool, b2: bool, b3: bool, b4: bool, b5: bool, b6: bool, b7: bool)
    requires v == Unit(b0) + 2 * Unit(b1) + 4 * Unit(b2) + 8 * Unit(b3) + 16 * Unit(b4) + 32 * Unit(b5) + 64 * Unit(b6) + 128 * Unit(b7) > 0
    ensures v < 256 && Flat(Octet(b0, b1, b2, b3, b4, b5, b6, b7), Undone(Split(T.S(v))))
                       == Octet(true, false, false, false, false, false, false, false)
  {
    hide Flat, Undone, Split, T.SRow;
    var h, l := Unit(b4) + 2 * Unit(b5) + 4 * Unit(b6) + 8 * Unit(b7), Unit(b0) + 2 * Unit(b1) + 4 * Unit(b2) + 8 * Unit(b3);
    assert v == 16 * h + l && v / 16 == h && v % 16 == l;
    if b7 {
      if b6 {
        if b5 {
          if b4 {
            RowF(b0, b1, b2, b3);
          } else {
            RowE(b0, b1, b2, b3);
          }
        } else {
          if b4 {
            RowD(b0, b1, b2, b3);
          } else {
            RowC(b0, b1, b2, b3);
          }
        }
      } else {
        if b5 {
          if b4 {
            RowB(b0, b1, b2, b3);
          } else {
            RowA(b0, b1, b2, b3);
          }
        } else {
          if b4 {
            Row9(b0, b1, b2, b3);
          } else {
            Row8(b0, b1, b2, b3);
          }
        }
      }
    } else {
      if b6 {
        if b5 {
          if b4 {
            Row7(b0, b1, b2, b3);
          } else {
            Row6(b0, b1, b2, b3);
          }
        } else {
          if b4 {
            Row5(b0, b1, b2, b3);
          } else {
            Row4(b0, b1, b2, b3);
          }
        }
      } else {
        if b5 {
          if b4 {
            Row3(b0, b1, b2, b3);
          } else {
            Row2(b0, b1, b2, b3);
          }
        } else {
          if b4 {
            Row1(b0, b1, b2, b3);
          } else {
            Row0(b0, b1, b2, b3);
          }
        }
      }
    }
  }
}
