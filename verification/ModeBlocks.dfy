/** The modes of src/aes_modes.c and src/ghash.c block by block, as NIST SP 800-38A and SP 800-38D state
    them: chaining, padding, counters, key stream and tag. */
module ModeBlocks {
  import opened Common
  import opened Modular
  import opened Polynomials
  import opened Gf128
  import opened Aes
  import opened AesModes
  import G = Ghash

  /** Block i of a byte string. */
  function At(d: seq<Byte>, i: nat): Block
    requires 16 * i + 16 <= |d|
  {
    d[16 * i..16 * i + 16]
  }

  // ---------- CBC ----------

  /** Every ciphertext block is the encryption of the plaintext block added to the ciphertext block before
      it, the first one to the initial vector. */
  lemma {:induction false} CbcChain(ks: seq<Block>, iv: Block, d: seq<Byte>, i: nat)
    requires |ks| >= 2 && |d| % 16 == 0 && 16 * i + 16 <= |d|
    ensures var c := CbcEncrypt(ks, iv, d);
            At(c, i) == Encrypt(ks, AddKey(At(d, i), if i == 0 then iv else At(c, i - 1)))
    decreases i
  {
    hide Encrypt, AddKey, CbcEncrypt;
    WholeBlocks(d);
    var first := CbcBlock(ks, iv, d);
    CbcUnfold(ks, iv, d, d[16..]);
    var c, rest := CbcEncrypt(ks, iv, d), CbcEncrypt(ks, first, d[16..]);
    if i == 0 {
      assert At(c, 0) == first;
    } else {
      CbcChain(ks, first, d[16..], i - 1);
      Behind(Bytes(first), rest, i - 1);
      assert d == d[..16] + d[16..];
      Behind(d[..16], d[16..], i - 1);
      if i == 1 {
        assert At(c, 0) == first;
      } else {
        Behind(Bytes(first), rest, i - 2);
      }
    }
  }

  lemma CbcUnfold(ks: seq<Block>, iv: Block, d: seq<Byte>, rest: seq<Byte>)
    requires |ks| >= 2 && |d| % 16 == 0 && |d| >= 16 && rest == d[16..] && |rest| % 16 == 0
    ensures CbcBlock(ks, iv, d) == Encrypt(ks, AddKey(At(d, 0), iv))
    ensures CbcEncrypt(ks, iv, d) == Bytes(CbcBlock(ks, iv, d)) + CbcEncrypt(ks, CbcBlock(ks, iv, d), rest)
  {
    hide Encrypt, AddKey;
  }

  lemma Behind(a: seq<Byte>, b: seq<Byte>, i: nat)
    requires |a| == 16 && 16 * i + 16 <= |b|
    ensures At(a + b, i + 1) == At(b, i)
  {
    assert 16 * (i + 1) == 16 * i + 16;
  }

  /** The padding of a message: as many bytes as fill the last block, one to sixteen, each holding that
      number. */
  lemma PaddedBytes(m: seq<Byte>, j: nat)
    requires j < |Padded(m)|
    ensures if j < |m| then Padded(m)[j] == m[j] else ToInt(Padded(m)[j]) == |Padded(m)| - |m|
    ensures 1 <= |Padded(m)| - |m| <= 16 && |Padded(m)| % 16 == 0
  {
    hide ToInt, PadByte;
    PadByteValue(Padding(|m|));
  }

  // ---------- counters ----------

  /** The counter i steps after ctr. */
  function CounterAt(ctr: Block, i: nat, low: nat): Block
    requires low <= 16
    decreases i
  {
    if i == 0 then ctr else CounterAt(Next(ctr, low), i - 1, low)
  }

  /** c is ctr with i added to the big-endian number in its bytes from low on. */
  ghost predicate Counts(c: Block, ctr: Block, i: nat, low: nat)
    requires low <= 16
  {
    Two8(16 - low) > 0 && c[..low] == ctr[..low] && Number(c[low..]) == (Number(ctr[low..]) + i) % Two8(16 - low)
  }

  lemma {:induction false} Two8Positive(k: nat)
    ensures Two8(k) > 0
  {
    if k > 0 {
      Two8Positive(k - 1);
    }
  }

  lemma {:induction false} CounterCounts(ctr: Block, i: nat, low: nat)
    requires low <= 16
    ensures Counts(CounterAt(ctr, i, low), ctr, i, low)
    decreases i
  {
    hide Number, Two8, Increment;
    var t := Two8(16 - low);
    Two8Positive(16 - low);
    IncrementCounts(ctr[low..]);
    if i == 0 {
      ModSmall(Number(ctr[low..]), t);
    } else {
      var n, k := Next(ctr, low), Number(ctr[low..]);
      CounterCounts(n, i - 1, low);
      assert n[..low] == ctr[..low] && n[low..] == Increment(ctr[low..]);
      CarriedOn(k, Number(n[low..]), i, t);
    }
  }

  lemma CarriedOn(n: nat, m: nat, i: nat, t: nat)
    requires t > 0 && i > 0 && m == (n + 1) % t
    ensures (m + (i - 1)) % t == (n + i) % t
  {
    hide Cong;
    CongMod(n + 1, t);
    CongSelf(i - 1, t);
    CongAdd(m, n + 1, i - 1, i - 1, t);
    CongRemainders(m + (i - 1), n + i, t);
  }

  /** A byte string is determined by its length and its number. */
  lemma {:induction false} NumberInjective(a: seq<Byte>, b: seq<Byte>)
    requires |a| == |b| && Number(a) == Number(b)
    ensures a == b
  {
    hide ToInt;
    if a != [] {
      var k := |a| - 1;
      ByteIncValue(a[k]);
      ByteIncValue(b[k]);
      SameDigits(Number(a[..k]), ToInt(a[k]), Number(b[..k]), ToInt(b[k]));
      NumberInjective(a[..k], b[..k]);
      IntOfBits(a[k]);
      IntOfBits(b[k]);
      assert a == a[..k] + [a[k]] && b == b[..k] + [b[k]];
    }
  }

  lemma SameDigits(m: nat, x: nat, n: nat, y: nat)
    requires x < 256 && y < 256 && m * 256 + x == n * 256 + y
    ensures m == n && x == y
  {
  }

  /** So there is only one counter i steps after ctr. */
  lemma CountsUnique(c: Block, d: Block, ctr: Block, i: nat, low: nat)
    requires low <= 16 && Counts(c, ctr, i, low) && Counts(d, ctr, i, low)
    ensures c == d
  {
    hide Number, Two8;
    NumberInjective(c[low..], d[low..]);
    assert c == c[..low] + c[low..] && d == d[..low] + d[low..];
  }

  /** The key stream: byte p of the text is added to byte p mod 16 of the encryption of the counter p / 16
      steps on. */
  lemma {:induction false} CtrBytes(ks: seq<Block>, ctr: Block, m: seq<Byte>, low: nat, p: nat)
    requires |ks| >= 2 && low <= 16 && p < |m|
    ensures Ctr(ks, ctr, m, low)[p] == Add(m[p], Encrypt(ks, CounterAt(ctr, p / 16, low))[p % 16])
    decreases p
  {
    hide Encrypt, Next, XorBytes, Ctr, Add;
    CtrStep(ks, ctr, m, low);
    var n := if |m| < 16 then |m| else 16;
    var x, y := XorBytes(m[..n], Bytes(Encrypt(ks, ctr))), Ctr(ks, Next(ctr, low), m[n..], low);
    if p < n {
      assert (x + y)[p] == x[p];
      DivModUnique(p, 16, 0, p);
    } else {
      CtrBytes(ks, Next(ctr, low), m[n..], low, p - 16);
      assert (x + y)[p] == y[p - 16];
      NextBlock(p);
    }
  }

  lemma NextBlock(p: nat)
    requires p >= 16
    ensures (p - 16) / 16 == p / 16 - 1 && (p - 16) % 16 == p % 16 && p / 16 > 0
  {
  }

  // ---------- GCM ----------

  /** The first bit of a block is the coefficient of x^0, the last one that of x^127. */
  lemma ElementBit(b: Block, i: nat, j: nat)
    requires i < 16 && j < 8
    ensures Element(b)[8 * i + j] == b[i][7 - j]
  {
    if i < 8 {
      WordBit(b[..8], i, j);
    } else {
      WordBit(b[8..], i - 8, j);
    }
  }

  lemma WordBit(p: seq<Byte>, i: nat, j: nat)
    requires |p| == 8 && i < 8 && j < 8
    ensures Reversed(GetWord(p))[8 * i + j] == p[i][7 - j]
  {
    var w := GetWord(p);
    WordRoundTrip(p, w);
    assert PutWord(w)[i] == w[56 - 8 * i..64 - 8 * i];
    assert w[56 - 8 * i..64 - 8 * i][7 - j] == w[63 - 8 * i - j];
  }

  /** The first counter: a 12-byte IV followed by the number one, and otherwise the GHASH polynomial of
      the IV. */
  lemma FirstCounterIs(ks: seq<Block>, iv: seq<Byte>)
    requires |ks| >= 2
    ensures var j := FirstCounter(ks, iv);
            if |iv| == 12 then j[..12] == iv && Number(j[12..]) == 1
            else Element(j) == G.Evaluate(Element(HashKey(ks)), G.Blocks(iv) + [G.LengthBlock(0, |iv|)])
  {
    hide Encrypt, Number, GhashBytes, G.Evaluate, G.LengthBlock, G.Blocks, Element, HashKey, PadByte;
    if |iv| == 12 {
      var t := [G.ZeroByte(), G.ZeroByte(), G.ZeroByte(), PadByte(1)];
      assert FirstCounter(ks, iv) == iv + t && (iv + t)[12..] == t;
      CounterOne();
    } else {
      HashOfIv(HashKey(ks), iv);
    }
  }

  lemma HashOfIv(h: Block, iv: seq<Byte>)
    ensures Element(GhashBytes(h, [], iv)) == G.Evaluate(Element(h), G.Blocks(iv) + [G.LengthBlock(0, |iv|)])
  {
    hide GhashBytes, G.Evaluate, G.LengthBlock, G.Blocks, Element;
    HashIsPolynomial(h, [], iv);
    NoBlocksOf();
    assert [] + G.Blocks(iv) == G.Blocks(iv);
  }

  lemma CounterOne()
    ensures Number([G.ZeroByte(), G.ZeroByte(), G.ZeroByte(), PadByte(1)]) == 1
  {
    hide Number, ToInt, PadByte, G.ZeroByte;
    PadByteValue(1);
    ZeroByteValue();
    var t := [G.ZeroByte(), G.ZeroByte(), G.ZeroByte(), PadByte(1)];
    NumberAt(t, 4);
    NumberAt(t, 3);
    NumberAt(t, 2);
    NumberAt(t, 1);
    NumberEnds(t);
  }

  lemma NoBlocksOf()
    ensures G.Blocks([]) == []
  {
  }

  lemma ZeroByteValue()
    ensures ToInt(G.ZeroByte()) == 0
  {
    ZeroValue(8);
  }

  lemma {:induction false} ZeroValue(k: nat)
    ensures ToInt(Zeros(k)) == 0
  {
    if k > 0 {
      ZeroValue(k - 1);
      assert Zeros(k)[1..] == Zeros(k - 1);
    }
  }

  /** The hash of GCM is the polynomial of the padded blocks and the length block at the hash key. */
  lemma HashIsPolynomial(h: Block, aad: seq<Byte>, c: seq<Byte>)
    ensures Element(GhashBytes(h, aad, c))
         == G.Evaluate(Element(h), G.Blocks(aad) + G.Blocks(c) + [G.LengthBlock(|aad|, |c|)])
  {
    hide Element, BlockOf, G.Value, G.Evaluate, G.LengthBlock;
    G.ValueIsPolynomial(Element(h), aad, c);
    BlockOfElement(G.Value(Element(h), aad, c));
  }

  /** The ciphertext: byte p is added to the encryption of the counter 1 + p / 16 steps after the first. */
  lemma GcmBytes(ks: seq<Block>, iv: seq<Byte>, m: seq<Byte>, p: nat)
    requires |ks| >= 2 && p < |m|
    ensures var j := FirstCounter(ks, iv);
            GcmText(ks, iv, m)[p] == Add(m[p], Encrypt(ks, CounterAt(j, 1 + p / 16, 12))[p % 16])
  {
    hide Encrypt, Ctr, Add, FirstCounter, Next;
    CtrBytes(ks, Next(FirstCounter(ks, iv), 12), m, 12, p);
  }

  /** The tag: the encryption of the first counter, added to the hash. */
  lemma GcmTagIs(ks: seq<Block>, iv: seq<Byte>, aad: seq<Byte>, c: seq<Byte>)
    requires |ks| >= 2
    ensures exists g: Block ::
              && Element(g) == G.Evaluate(Element(Encrypt(ks, Zeroes())), G.Blocks(aad) + G.Blocks(c) + [G.LengthBlock(|aad|, |c|)])
              && GcmTag(ks, iv, aad, c) == AddKey(Encrypt(ks, FirstCounter(ks, iv)), g)
  {
    hide Encrypt, AddKey, Element, G.Evaluate, G.LengthBlock, GhashBytes, FirstCounter;
    assert ZeroBlock() == Zeroes();
    HashIsPolynomial(HashKey(ks), aad, c);
  }

  /** Sixteen zero bytes. */
  function Zeroes(): Block {
    seq(16, _ => Zeros(8))
  }

  // ---------- the length block ----------

  /** The number in a joined bit string. */
  lemma {:induction false} ToIntConcat(a: Bits, b: Bits)
    ensures ToInt(a + b) == ToInt(a) + Two(|a|) * ToInt(b)
  {
    if a == [] {
      assert a + b == b;
    } else {
      ToIntConcat(a[1..], b);
      assert (a + b)[1..] == a[1..] + b;
      assert 2 * (Two(|a| - 1) * ToInt(b)) == Two(|a|) * ToInt(b);
    }
  }

  /** The low k bits of a number. */
  lemma {:induction false} LowBits(v: nat, k: nat)
    ensures ToInt(NumberBits(v, k)) == v % Two(k)
    decreases k
  {
    if k > 0 {
      LowBits(v / 2, k - 1);
      assert NumberBits(v, k)[1..] == NumberBits(v / 2, k - 1);
      Doubling(v, Two(k - 1));
    }
  }

  lemma Doubling(v: nat, t: nat)
    requires t > 0
    ensures v % (2 * t) == v % 2 + 2 * (v / 2 % t)
  {
    var h := v / 2;
    var q, r := h / t, h % t;
    assert h == q * t + r;
    assert 2 * (q * t) == q * (2 * t);
    DivModUnique(v, 2 * t, q, v % 2 + 2 * r);
  }

  /** The bytes of a word, the most significant first, are its number. */
  lemma PutWordNumber(w: Word)
    ensures Number(PutWord(w)) == ToInt(w)
  {
    hide ToInt;
    var p := PutWord(w);
    EightBits();
    ByteOf(w, 0);
    ByteOf(w, 8);
    ByteOf(w, 16);
    ByteOf(w, 24);
    ByteOf(w, 32);
    ByteOf(w, 40);
    ByteOf(w, 48);
    ByteOf(w, 56);
    ToIntDone(w);
    EightBytes(p);
  }

  lemma ByteOf(w: Word, s: nat)
    requires s + 8 <= 64
    ensures ToInt(w[s..]) == ToInt(w[s..s + 8]) + 256 * ToInt(w[s + 8..])
  {
    EightBits();
    ToIntConcat(w[s..s + 8], w[s + 8..]);
    assert w[s..] == w[s..s + 8] + w[s + 8..];
  }

  lemma ToIntDone(w: Word)
    ensures w[0..] == w && ToInt(w[64..]) == 0
  {
    assert w[64..] == [];
  }

  lemma EightBytes(p: seq<Byte>)
    requires |p| == 8
    ensures Number(p) == ToInt(p[7]) + 256 * (ToInt(p[6]) + 256 * (ToInt(p[5]) + 256 * (ToInt(p[4]) + 256 * (ToInt(p[3])
                         + 256 * (ToInt(p[2]) + 256 * (ToInt(p[1]) + 256 * ToInt(p[0])))))))
  {
    hide Number, ToInt;
    NumberAt(p, 8);
    NumberAt(p, 7);
    NumberAt(p, 6);
    NumberAt(p, 5);
    NumberAt(p, 4);
    NumberAt(p, 3);
    NumberAt(p, 2);
    NumberAt(p, 1);
    NumberEnds(p);
  }

  lemma NumberAt(p: seq<Byte>, k: nat)
    requires 0 < k <= |p|
    ensures Number(p[..k]) == Number(p[..k - 1]) * 256 + ToInt(p[k - 1])
  {
    assert p[..k][..k - 1] == p[..k - 1];
  }

  lemma NumberEnds(p: seq<Byte>)
    ensures p[..|p|] == p && Number(p[..0]) == 0
  {
  }

  /** The last block that is hashed: the length of the additional data in bits in its first half, that of
      the ciphertext in its second, as 64-bit numbers. */
  lemma LengthHalves(alen: nat, clen: nat)
    ensures var b := G.LengthBlock(alen, clen);
            Number(b[..8]) == (8 * alen) % Two(64) && Number(b[8..]) == (8 * clen) % Two(64)
  {
    hide NumberBits, PutWord, Two, Number;
    var x, y := NumberBits(8 * alen, 64), NumberBits(8 * clen, 64);
    var b := G.LengthBlock(alen, clen);
    assert b[..8] == PutWord(x) && b[8..] == PutWord(y);
    PutWordNumber(x);
    PutWordNumber(y);
    LowBits(8 * alen, 64);
    LowBits(8 * clen, 64);
  }
}
