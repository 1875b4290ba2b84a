/** GHASH (sections 6.3 and 6.4 of NIST SP 800-38D), src/ghash.c: one-shot and streaming. */
module Ghash {
  import opened Common
  import opened Polynomials
  import opened Gf128

  // ---------- the function ----------

  function LengthBlock(alen: nat, clen: nat): Block {
    PutWord(NumberBits(8 * alen, 64)) + PutWord(NumberBits(8 * clen, 64))
  }

  function ZeroByte(): Byte {
    Zeros(8)
  }

  function PadBlock(d: seq<Byte>): Block
    requires |d| <= 16
  {
    d + seq(16 - |d|, _ => ZeroByte())
  }

  function Absorb(h: Bits, x: Bits, b: Block): (r: Bits)
    requires |h| == 128 && |x| == 128
    ensures |r| == 128
  {
    FieldProduct(Xor(x, Element(b)), h)
  }

  /** The complete blocks of d absorbed into x; the bytes after them. */
  function AbsorbFull(h: Bits, x: Bits, d: seq<Byte>): (r: Bits)
    requires |h| == 128 && |x| == 128
    ensures |r| == 128
    decreases |d|
  {
    if |d| < 16 then x else AbsorbFull(h, Absorb(h, x, d[..16]), d[16..])
  }

  function Left(d: seq<Byte>): (r: seq<Byte>)
    ensures |r| < 16
  {
    if |d| < 16 then d else Left(d[16..])
  }

  /** All of d, the last block padded with zeros. */
  function AbsorbAll(h: Bits, x: Bits, d: seq<Byte>): (r: Bits)
    requires |h| == 128 && |x| == 128
    ensures |r| == 128
  {
    var y := AbsorbFull(h, x, d);
    if Left(d) == [] then y else Absorb(h, y, PadBlock(Left(d)))
  }

  function Value(h: Bits, aad: seq<Byte>, c: seq<Byte>): (r: Bits)
    requires |h| == 128
    ensures |r| == 128
  {
    Absorb(h, AbsorbAll(h, AbsorbAll(h, Zeros(128), aad), c), LengthBlock(|aad|, |c|))
  }

  // ---------- one shot ----------

  /** x = (x + b) * h. */
  method AbsorbBlock(h: Gf, x: Gf, b: Block) returns (r: Gf)
    ensures r.Val() == Absorb(h.Val(), x.Val(), b)
  {
    hide Product, Element;
    var a := FromBytes(b);
    r := GfAdd(x, a);
    r := GfMul(r, h);
  }

  lemma AbsorbStep(h: Bits, x: Bits, d: seq<Byte>)
    requires |h| == 128 && |x| == 128 && d != []
    ensures |d| >= 16 ==> AbsorbAll(h, x, d) == AbsorbAll(h, Absorb(h, x, d[..16]), d[16..])
    ensures |d| < 16 ==> AbsorbAll(h, x, d) == Absorb(h, x, PadBlock(d))
  {
    hide Absorb;
  }

  lemma AbsorbNothing(h: Bits, x: Bits)
    requires |h| == 128 && |x| == 128
    ensures AbsorbAll(h, x, []) == x
  {
  }

  /** The loops of ghash and ghash_init over additional data or ciphertext. */
  method AbsorbData(h: Gf, x: Gf, d: seq<Byte>) returns (r: Gf)
    ensures r.Val() == AbsorbAll(h.Val(), x.Val(), d)
  {
    hide AbsorbAll, Absorb, Gf.Val;
    r := x;
    var rest := d;
    while |rest| > 0
      invariant AbsorbAll(h.Val(), r.Val(), rest) == AbsorbAll(h.Val(), x.Val(), d)
      decreases |rest|
    {
      AbsorbStep(h.Val(), r.Val(), rest);
      if |rest| >= 16 {
        r := AbsorbBlock(h, r, rest[..16]);
        rest := rest[16..];
      } else {
        r := AbsorbBlock(h, r, PadBlock(rest));
        rest := [];
        AbsorbNothing(h.Val(), r.Val());
      }
    }
    AbsorbNothing(h.Val(), r.Val());
  }

  /** ghash. */
  method OneShot(hb: Block, aad: seq<Byte>, c: seq<Byte>) returns (out: Block)
    ensures Element(out) == Value(Element(hb), aad, c)
  {
    hide Absorb, AbsorbAll, Element, LengthBlock;
    var h := FromBytes(hb);
    var x := Gf(Zeros(64), Zeros(64));
    assert x.Val() == Zeros(128);
    x := AbsorbData(h, x, aad);
    x := AbsorbData(h, x, c);
    x := AbsorbBlock(h, x, LengthBlock(|aad|, |c|));
    out := ToBytes(x);
  }

  // ---------- streaming ----------

  lemma {:induction false} FullConcat(h: Bits, x: Bits, a: seq<Byte>, b: seq<Byte>)
    requires |h| == 128 && |x| == 128
    ensures AbsorbFull(h, x, a + b) == AbsorbFull(h, AbsorbFull(h, x, a), Left(a) + b)
    ensures Left(a + b) == Left(Left(a) + b)
    decreases |a|
  {
    hide Absorb;
    if |a| >= 16 {
      FullConcat(h, Absorb(h, x, a[..16]), a[16..], b);
      assert (a + b)[..16] == a[..16] && (a + b)[16..] == a[16..] + b;
    }
  }

  lemma FullStep(h: Bits, x: Bits, d: seq<Byte>)
    requires |h| == 128 && |x| == 128
    ensures |d| < 16 ==> AbsorbFull(h, x, d) == x && Left(d) == d
    ensures |d| >= 16 ==> AbsorbFull(h, x, d) == AbsorbFull(h, Absorb(h, x, d[..16]), d[16..]) && Left(d) == Left(d[16..])
  {
    hide Absorb;
  }

  class Context {
    var h: Gf
    var x: Gf
    var aadlen: nat
    var clen: nat
    var block: seq<Byte>

    /** The ciphertext c has been fed after the additional data aad. */
    ghost predicate Fed(aad: seq<Byte>, c: seq<Byte>)
      reads this
    {
      && aadlen == |aad| && clen == |c| && block == Left(c)
      && x.Val() == AbsorbFull(h.Val(), AbsorbAll(h.Val(), Zeros(128), aad), c)
    }

    /** ghash_init. */
    constructor (hb: Block, aad: seq<Byte>)
      ensures Fed(aad, []) && h.Val() == Element(hb)
    {
      hide AbsorbAll, Element;
      var k := FromBytes(hb);
      var z := Gf(Zeros(64), Zeros(64));
      assert z.Val() == Zeros(128);
      var y := AbsorbData(k, z, aad);
      h, x, aadlen, clen, block := k, y, |aad|, 0, [];
    }

    /** ghash_update: any number of bytes, including none. */
    method Update(d: seq<Byte>, ghost aad: seq<Byte>, ghost c: seq<Byte>)
      requires Fed(aad, c)
      modifies this
      ensures Fed(aad, c + d) && h == old(h)
    {
      hide AbsorbAll, Absorb, Left, AbsorbFull, Gf.Val;
      ghost var x0 := AbsorbAll(h.Val(), Zeros(128), aad);
      ghost var xc := AbsorbFull(h.Val(), x0, c);
      FullConcat(h.Val(), x0, c, d);
      ghost var all := block + d;
      clen := clen + |d|;
      var rest := d;
      if |block| > 0 {
        var left := 16 - |block|;
        if |d| < left {
          block := block + d;
          FullStep(h.Val(), xc, block);
          return;
        }
        var full := block + d[..left];
        rest := d[left..];
        assert all[..16] == full && all[16..] == rest;
        FullStep(h.Val(), xc, all);
        x := AbsorbBlock(h, x, full);
      } else {
        assert all == d;
      }
      while |rest| >= 16
        invariant h == old(h) && aadlen == old(aadlen) && clen == old(clen) + |d|
        invariant AbsorbFull(h.Val(), x.Val(), rest) == AbsorbFull(h.Val(), xc, all) && Left(rest) == Left(all)
        decreases |rest|
      {
        FullStep(h.Val(), x.Val(), rest);
        x := AbsorbBlock(h, x, rest[..16]);
        rest := rest[16..];
      }
      FullStep(h.Val(), x.Val(), rest);
      block := rest;
    }

    /** ghash_finish. */
    method Finish(ghost aad: seq<Byte>, ghost c: seq<Byte>) returns (out: Block)
      requires Fed(aad, c)
      modifies this
      ensures Element(out) == Value(old(h.Val()), aad, c)
    {
      hide Absorb, Element, LengthBlock, AbsorbFull;
      if |block| > 0 {
        x := AbsorbBlock(h, x, PadBlock(block));
      }
      x := AbsorbBlock(h, x, LengthBlock(aadlen, clen));
      out := ToBytes(x);
    }
  }

  /** Streaming over any chunks returns what the one-shot function returns. */
  method StreamingEqualsOneShot(hb: Block, aad: seq<Byte>, chunks: seq<seq<Byte>>) returns (streamed: Block, direct: Block)
    ensures streamed == direct
    ensures Element(direct) == Value(Element(hb), aad, Flatten(chunks))
  {
    hide Element, Value, Context.Fed;
    direct := OneShot(hb, aad, Flatten(chunks));
    var ctx := new Context(hb, aad);
    for i := 0 to |chunks|
      invariant ctx.Fed(aad, Flatten(chunks[..i])) && ctx.h.Val() == Element(hb)
    {
      ctx.Update(chunks[i], aad, Flatten(chunks[..i]));
      assert chunks[..i + 1][..i] == chunks[..i];
    }
    assert chunks[..|chunks|] == chunks;
    streamed := ctx.Finish(aad, Flatten(chunks));
    ElementInjective(streamed, direct);
  }

  // ---------- a polynomial in h ----------

  lemma {:induction false} MulXor(a: Bits, b: Bits, c: Bits)
    requires |a| == |b|
    ensures Mul(Xor(a, b), c) == Xor(Mul(a, c), Mul(b, c))
  {
    if c == [] {
      assert Xor(Zeros(|a|), Zeros(|a|)) == Zeros(|a|);
    } else {
      MulXor(a, b, c[1..]);
      MulXorStep(a, b, Mul(a, c[1..]), Mul(b, c[1..]), c[0], |a| + |c|);
    }
  }

  lemma MulXorStep(a: Bits, b: Bits, p: Bits, q: Bits, bit: bool, n: nat)
    requires |a| == |b| <= n && |p| == |q| && 1 + |p| == n
    ensures Xor([false] + Xor(p, q), Pad(if bit then Xor(a, b) else Zeros(|a|), n))
         == Xor(Xor([false] + p, Pad(if bit then a else Zeros(|a|), n)), Xor([false] + q, Pad(if bit then b else Zeros(|b|), n)))
  {
    var z := Zeros(|a|);
    var x := Xor([false] + Xor(p, q), Pad(if bit then Xor(a, b) else z, n));
    var y := Xor(Xor([false] + p, Pad(if bit then a else z, n)), Xor([false] + q, Pad(if bit then b else z, n)));
    forall i | 0 <= i < n ensures x[i] == y[i] {
    }
  }

  /** The product distributes over addition. */
  lemma ProductXor(a: Bits, b: Bits, h: Bits)
    requires |a| == 128 && |b| == 128 && |h| == 128
    ensures FieldProduct(Xor(a, b), h) == Xor(FieldProduct(a, h), FieldProduct(b, h))
  {
    hide Mul, Rem, Xor;
    MulXor(a, b, h);
    RemXor(Field128(), Mul(a, h), Mul(b, h));
  }

  /** a * h^k. */
  function TimesPower(a: Bits, h: Bits, k: nat): (r: Bits)
    requires |a| == 128 && |h| == 128
    ensures |r| == 128
  {
    if k == 0 then a else FieldProduct(TimesPower(a, h, k - 1), h)
  }

  /** The blocks b_1 ... b_n as the polynomial b_1 h^n + ... + b_n h. */
  function Evaluate(h: Bits, bs: seq<Block>): (r: Bits)
    requires |h| == 128
    ensures |r| == 128
  {
    if bs == [] then Zeros(128) else Xor(TimesPower(Element(bs[0]), h, |bs|), Evaluate(h, bs[1..]))
  }

  /** All blocks of d, the last one padded. */
  function Blocks(d: seq<Byte>): seq<Block> {
    if d == [] then [] else if |d| < 16 then [PadBlock(d)] else [d[..16]] + Blocks(d[16..])
  }

  function AbsorbBlocks(h: Bits, x: Bits, bs: seq<Block>): (r: Bits)
    requires |h| == 128 && |x| == 128
    ensures |r| == 128
    decreases |bs|
  {
    if bs == [] then x else AbsorbBlocks(h, Absorb(h, x, bs[0]), bs[1..])
  }

  lemma {:induction false} AbsorbAllBlocks(h: Bits, x: Bits, d: seq<Byte>)
    requires |h| == 128 && |x| == 128
    ensures AbsorbAll(h, x, d) == AbsorbBlocks(h, x, Blocks(d))
    decreases |d|
  {
    hide Absorb, AbsorbAll, PadBlock;
    if d == [] {
      AbsorbNothing(h, x);
    } else {
      AbsorbStep(h, x, d);
      if |d| >= 16 {
        AbsorbAllBlocks(h, Absorb(h, x, d[..16]), d[16..]);
        assert Blocks(d)[1..] == Blocks(d[16..]);
      } else {
        assert Blocks(d)[1..] == [];
      }
    }
  }

  lemma {:induction false} BlocksConcat(h: Bits, x: Bits, a: seq<Block>, b: seq<Block>)
    requires |h| == 128 && |x| == 128
    ensures AbsorbBlocks(h, AbsorbBlocks(h, x, a), b) == AbsorbBlocks(h, x, a + b)
    decreases |a|
  {
    hide Absorb;
    if a == [] {
      assert a + b == b;
    } else {
      BlocksConcat(h, Absorb(h, x, a[0]), a[1..], b);
      assert (a + b)[1..] == a[1..] + b;
    }
  }

  lemma {:induction false} PowerXor(a: Bits, b: Bits, h: Bits, k: nat)
    requires |a| == 128 && |b| == 128 && |h| == 128
    ensures TimesPower(Xor(a, b), h, k) == Xor(TimesPower(a, h, k), TimesPower(b, h, k))
  {
    hide Product, Xor;
    if k > 0 {
      PowerXor(a, b, h, k - 1);
      ProductXor(TimesPower(a, h, k - 1), TimesPower(b, h, k - 1), h);
    }
  }

  lemma {:induction false} PowerShift(a: Bits, h: Bits, k: nat)
    requires |a| == 128 && |h| == 128
    ensures TimesPower(FieldProduct(a, h), h, k) == TimesPower(a, h, k + 1)
  {
    hide Product;
    if k > 0 {
      PowerShift(a, h, k - 1);
    }
  }

  /** Horner's rule: absorbing blocks evaluates their polynomial. */
  lemma {:induction false} AbsorbIsEvaluation(h: Bits, x: Bits, bs: seq<Block>)
    requires |h| == 128 && |x| == 128
    ensures AbsorbBlocks(h, x, bs) == Xor(TimesPower(x, h, |bs|), Evaluate(h, bs))
    decreases |bs|
  {
    hide Product, Xor, TimesPower, Element;
    if bs == [] {
      PowerZero(x, h);
    } else {
      var e, k := Element(bs[0]), |bs| - 1;
      AbsorbIsEvaluation(h, Absorb(h, x, bs[0]), bs[1..]);
      PowerShift(Xor(x, e), h, k);
      PowerXor(x, e, h, k + 1);
      XorAssoc(TimesPower(x, h, k + 1), TimesPower(e, h, k + 1), Evaluate(h, bs[1..]));
    }
  }

  lemma PowerZero(x: Bits, h: Bits)
    requires |x| == 128 && |h| == 128
    ensures TimesPower(x, h, 0) == x && Xor(x, Zeros(128)) == x && Xor(Zeros(128), x) == x
  {
  }

  lemma XorAssoc(a: Bits, b: Bits, c: Bits)
    requires |a| == |b| == |c|
    ensures Xor(Xor(a, b), c) == Xor(a, Xor(b, c))
  {
  }

  lemma {:induction false} PowerOfZero(h: Bits, k: nat)
    requires |h| == 128
    ensures TimesPower(Zeros(128), h, k) == Zeros(128)
  {
    hide Product;
    if k > 0 {
      PowerOfZero(h, k - 1);
      ProductZero(h);
    }
  }

  lemma ProductZero(h: Bits)
    requires |h| == 128
    ensures FieldProduct(Zeros(128), h) == Zeros(128)
  {
    hide Product;
    var z := Zeros(128);
    assert Xor(z, z) == z;
    ProductXor(z, z, h);
    var p := FieldProduct(z, h);
    assert forall i :: 0 <= i < 128 ==> !Xor(p, p)[i];
    assert p == z;
  }

  /** GHASH is the polynomial of the padded blocks and the length block, evaluated at h. */
  lemma ValueIsPolynomial(h: Bits, aad: seq<Byte>, c: seq<Byte>)
    requires |h| == 128
    ensures Value(h, aad, c) == Evaluate(h, Blocks(aad) + Blocks(c) + [LengthBlock(|aad|, |c|)])
  {
    hide Absorb, AbsorbAll, Evaluate, LengthBlock, TimesPower, Xor;
    var a, b, l := Blocks(aad), Blocks(c), LengthBlock(|aad|, |c|);
    var z := Zeros(128);
    AbsorbAllBlocks(h, z, aad);
    AbsorbAllBlocks(h, AbsorbBlocks(h, z, a), c);
    BlocksConcat(h, z, a, b);
    BlocksConcat(h, z, a + b, [l]);
    LastBlock(h, AbsorbBlocks(h, z, a + b), l);
    AbsorbIsEvaluation(h, z, a + b + [l]);
    PowerOfZero(h, |a + b + [l]|);
    PowerZero(Evaluate(h, a + b + [l]), h);
  }

  lemma LastBlock(h: Bits, x: Bits, l: Block)
    requires |h| == 128 && |x| == 128
    ensures AbsorbBlocks(h, x, [l]) == Absorb(h, x, l)
  {
    hide Absorb;
    assert [l][1..] == [];
  }
}
