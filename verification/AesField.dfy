/** The arithmetic of AES as section 4 of FIPS 197 defines it: bytes are polynomials over GF(2) modulo
    x^8 + x^4 + x^3 + x + 1.  The tables, factors and round steps of src/aes.c are those of the standard. */
module AesField {
  import opened Common
  import opened Polynomials
  import opened Gf128
  import opened Aes
  import opened AesInverse
  import T = AesTables

  /** x^8 + x^4 + x^3 + x + 1. */
  function Field8(): (f: Poly)
    ensures f.Valid() && f.degree == 8
  {
    Poly(8, {0, 1, 3, 4})
  }

  /** The product in the field. */
  function Times(a: Byte, b: Byte): Byte {
    Product(Field8(), a, b)
  }

  function Const(v: nat): Byte {
    NumberBits(v, 8)
  }

  // ---------- the factors of the column matrices ----------

  /** x2 is multiplication by x. */
  lemma X2Remainder(a: Byte)
    ensures X2(a) == Rem(Field8(), [false] + a) == XTimes(Field8(), a)
  {
    var f, s := Field8(), [false] + a[..7];
    assert Add(s, Tap8()) == AddTaps(f, s, 0) by {
      var x, y := Add(s, Tap8()), AddTaps(f, s, 0);
      assert forall i :: 0 <= i < 8 ==> y[i] == (s[i] != (i - 0 in f.taps));
      assert forall i :: 0 <= i < 8 ==> x[i] == y[i];
    }
    var q := [false] + a;
    RemShort(f, q);
    assert q[1..] == a;
  }

  /** One step of Horner's rule for the product with b. */
  function Partial(a: Byte, b: Byte, s: nat): Byte
    requires s <= 8
  {
    Rem(Field8(), Mul(a, b[s..]))
  }

  lemma PartialStep(a: Byte, b: Byte, s: nat)
    requires s < 8
    ensures Partial(a, b, s) == Add(X2(Partial(a, b, s + 1)), if b[s] then a else Zeros(8))
  {
    hide Rem, Mul, XTimes, X2;
    HornerStep(Field8(), a, b, s);
    X2Remainder(Partial(a, b, s + 1));
  }

  /** Nothing comes from the zeros above bit s. */
  lemma {:induction false} PartialZero(a: Byte, b: Byte, s: nat)
    requires s <= 8 && forall i :: s <= i < 8 ==> !b[i]
    ensures Partial(a, b, s) == Zeros(8)
    decreases 8 - s
  {
    if s == 8 {
      HornerStart(Field8(), a, b);
    } else {
      hide Partial, X2, Add;
      PartialZero(a, b, s + 1);
      PartialStep(a, b, s);
      X2Zero();
      AddZero(Zeros(8));
    }
  }

  /** The product with a number below 16, bit by bit. */
  lemma TimesSmall(a: Byte, b: Byte)
    requires !b[4] && !b[5] && !b[6] && !b[7]
    ensures var z := Zeros(8);
            Times(a, b) == Add(X2(Add(X2(Add(X2(if b[3] then a else z), if b[2] then a else z)), if b[1] then a else z)),
                               if b[0] then a else z)
  {
    hide X2, Partial;
    PartialZero(a, b, 4);
    PartialStep(a, b, 3);
    PartialStep(a, b, 2);
    PartialStep(a, b, 1);
    PartialStep(a, b, 0);
    PartialIs(a, b);
    X2Zero();
    AddZero(if b[3] then a else Zeros(8));
  }

  lemma PartialIs(a: Byte, b: Byte)
    ensures Partial(a, b, 0) == Times(a, b)
  {
    assert b[0..] == b;
  }

  lemma X2Zero()
    ensures X2(Zeros(8)) == Zeros(8)
  {
  }

  lemma AddZero(a: Byte)
    ensures Add(a, Zeros(8)) == a && Add(Zeros(8), a) == a
  {
  }

  /** x2, x3, x9, xb, xd and xe multiply by 02, 03, 09, 0b, 0d and 0e. */
  lemma Factors(a: Byte)
    ensures a == Times(a, Const(1)) && X2(a) == Times(a, Const(2)) && X3(a) == Times(a, Const(3))
    ensures X9(a) == Times(a, Const(9)) && XB(a) == Times(a, Const(11))
    ensures XD(a) == Times(a, Const(13)) && XE(a) == Times(a, Const(14))
  {
    hide X2, X3, X9, XB, XD, XE, Times, Const;
    UpToThree(a);
    NineEleven(a);
    ThirteenFourteen(a);
  }

  lemma UpToThree(a: Byte)
    ensures a == Times(a, Const(1)) && X2(a) == Times(a, Const(2)) && X3(a) == Times(a, Const(3))
  {
    hide X2, Times, Add, Const;
    ConstIs(1);
    ConstIs(2);
    ConstIs(3);
    TimesSmall(a, Const(1));
    TimesSmall(a, Const(2));
    TimesSmall(a, Const(3));
    X2Zero();
    AddZero(a);
    AddZero(X2(a));
    AddZero(Zeros(8));
  }

  lemma NineEleven(a: Byte)
    ensures X9(a) == Times(a, Const(9)) && XB(a) == Times(a, Const(11))
  {
    hide X2, Times, Add, Const;
    ConstIs(9);
    ConstIs(11);
    TimesSmall(a, Const(9));
    TimesSmall(a, Const(11));
    AddZero(X2(a));
    AddZero(X2(X2(a)));
    X2Add(X2(X2(a)), a);
  }

  lemma ThirteenFourteen(a: Byte)
    ensures XD(a) == Times(a, Const(13)) && XE(a) == Times(a, Const(14))
  {
    hide X2, Times, Add, Const;
    ConstIs(13);
    ConstIs(14);
    TimesSmall(a, Const(13));
    TimesSmall(a, Const(14));
    var y, z := X2(a), X2(X2(a));
    X2Add(y, a);
    X2Add(z, y);
    X2Add(Add(z, y), a);
    AddZero(X2(Add(y, a)));
    AddZero(X2(Add(Add(z, y), a)));
  }

  /** The bits of a number below 16, low bit first. */
  lemma ConstIs(v: nat)
    requires v < 16
    ensures Const(v) == [v % 2 == 1, v / 2 % 2 == 1, v / 4 % 2 == 1, v / 8 % 2 == 1, false, false, false, false]
  {
    hide NumberBits;
    BitsStep(v, 8);
    BitsStep(v / 2, 7);
    BitsStep(v / 4, 6);
    BitsStep(v / 8, 5);
    NoBits(4);
    assert v / 2 / 2 == v / 4 && v / 4 / 2 == v / 8 && v / 8 / 2 == 0;
  }

  lemma BitsStep(v: nat, k: nat)
    requires k > 0
    ensures NumberBits(v, k) == [v % 2 == 1] + NumberBits(v / 2, k - 1)
  {
  }

  lemma NoBits(k: nat)
    ensures NumberBits(0, k) == Zeros(k)
  {
  }

  // ---------- the steps of a round, entry by entry ----------

  /** Entry (r, j) of the circulant matrix with the given first row. */
  function Circulant(first: seq<nat>, r: nat, j: nat): Byte
    requires |first| == 4 && r < 4 && j < 4
  {
    Const(first[(j + 4 - r) % 4])
  }

  /** Row r of a circulant matrix times a column. */
  function RowTimes(first: seq<nat>, r: nat, a: Byte, b: Byte, c: Byte, d: Byte): Byte
    requires |first| == 4 && r < 4
  {
    Add4(Times(a, Circulant(first, r, 0)), Times(b, Circulant(first, r, 1)), Times(c, Circulant(first, r, 2)),
         Times(d, Circulant(first, r, 3)))
  }

  /** MixColumns multiplies by the circulant of 02 03 01 01, and its inverse by that of 0e 0b 0d 09. */
  lemma ColumnProduct(a: Byte, b: Byte, c: Byte, d: Byte, r: nat)
    requires r < 4
    ensures MixColumn(a, b, c, d)[r] == RowTimes([2, 3, 1, 1], r, a, b, c, d)
    ensures InvMixColumn(a, b, c, d)[r] == RowTimes([14, 11, 13, 9], r, a, b, c, d)
  {
    hide X2, X3, X9, XB, XD, XE, Times, Const, Add4;
    Factors(a);
    Factors(b);
    Factors(c);
    Factors(d);
  }

  /** ShiftRows takes the entry of row r and column c from column c + r. */
  lemma RowsShifted(b: Block, r: nat, c: nat)
    requires r < 4 && c < 4
    ensures ShiftRows(b)[4 * c + r] == b[4 * ((c + r) % 4) + r]
    ensures InvShiftRows(b)[4 * ((c + r) % 4) + r] == b[4 * c + r]
  {
    if c == 0 {
      assert (c + r) % 4 == r;
    } else if c == 1 {
      assert (c + r) % 4 == if r < 3 then r + 1 else 0;
    } else if c == 2 {
      assert (c + r) % 4 == if r < 2 then r + 2 else r - 2;
    } else {
      assert (c + r) % 4 == if r < 1 then 3 else r - 1;
    }
  }

  /** Column c of a block mixed. */
  lemma MixedEntry(b: Block, r: nat, c: nat)
    requires r < 4 && c < 4
    ensures MixColumns(b)[4 * c + r] == RowTimes([2, 3, 1, 1], r, b[4 * c], b[4 * c + 1], b[4 * c + 2], b[4 * c + 3])
  {
    hide MixColumn, RowTimes, MixColumns;
    MixSlice(false, b, c);
    var m := MixAny(false, b);
    assert m[4 * c..4 * c + 4][r] == m[4 * c + r];
    ColumnProduct(b[4 * c], b[4 * c + 1], b[4 * c + 2], b[4 * c + 3], r);
  }

  /** The byte that is substituted for row j of column c in a round. */
  function Moved(b: Block, j: nat, c: nat): Byte
    requires j < 4 && c < 4
  {
    SubByte(b[4 * ((c + j) % 4) + j])
  }

  /** Every round but the last, entry by entry: the column of the substituted diagonal, times the matrix,
      plus the round key. */
  lemma RoundEntry(ks: seq<Block>, b: Block, i: nat, r: nat, c: nat)
    requires 0 < i < |ks| && r < 4 && c < 4
    ensures var p := Round(ks, b, i - 1);
            Round(ks, b, i)[4 * c + r]
            == Add(RowTimes([2, 3, 1, 1], r, Moved(p, 0, c), Moved(p, 1, c), Moved(p, 2, c), Moved(p, 3, c)), ks[i][4 * c + r])
  {
    hide Round, RowTimes, MixColumns, ShiftRows, SubBytes, Moved, Add;
    var p := Round(ks, b, i - 1);
    RoundStep(ks, b, i);
    MixedEntry(ShiftRows(SubBytes(p)), r, c);
    MovedIs(p, 0, c);
    MovedIs(p, 1, c);
    MovedIs(p, 2, c);
    MovedIs(p, 3, c);
  }

  lemma MovedIs(p: Block, j: nat, c: nat)
    requires j < 4 && c < 4
    ensures ShiftRows(SubBytes(p))[4 * c + j] == Moved(p, j, c)
  {
    hide ShiftRows, SubByte;
    RowsShifted(SubBytes(p), j, c);
  }

  /** The first addition of a round key, and the last round, which mixes no columns. */
  lemma OuterEntries(ks: seq<Block>, b: Block, r: nat, c: nat)
    requires |ks| >= 2 && r < 4 && c < 4
    ensures Round(ks, b, 0)[4 * c + r] == Add(b[4 * c + r], ks[0][4 * c + r])
    ensures Encrypt(ks, b)[4 * c + r] == Add(Moved(Round(ks, b, |ks| - 2), r, c), ks[|ks| - 1][4 * c + r])
  {
    hide Round, ShiftRows, SubBytes, Moved, Add;
    RoundStart(ks, b);
    MovedIs(Round(ks, b, |ks| - 2), r, c);
  }

  // ---------- the key schedule ----------

  lemma {:induction false} BitsPrefix(v: nat, k: nat)
    requires k > 0
    ensures NumberBits(v, k)[..k - 1] == NumberBits(v, k - 1)
  {
    hide NumberBits;
    BitsStep(v, k);
    if k > 1 {
      BitsPrefix(v / 2, k - 1);
      BitsStep(v, k - 1);
      var t := NumberBits(v / 2, k - 1);
      assert ([v % 2 == 1] + t)[..k - 1] == [v % 2 == 1] + t[..k - 2];
    } else {
      assert NumberBits(v, k)[..0] == [] == NumberBits(v, 0);
    }
  }

  lemma {:induction false} TopBit(v: nat, k: nat)
    requires k > 0 && v < Two(k)
    ensures NumberBits(v, k)[k - 1] <==> v >= Two(k - 1)
  {
    hide NumberBits;
    BitsStep(v, k);
    if k > 1 {
      TopBit(v / 2, k - 1);
    }
  }

  /** Doubling a number below 128. */
  lemma Doubled(v: nat)
    requires v < 128
    ensures X2(Const(v)) == Const(2 * v)
  {
    hide NumberBits;
    EightBits();
    assert Two(7) == 128;
    TopBit(v, 8);
    BitsPrefix(v, 8);
    BitsStep(2 * v, 8);
  }

  lemma Wrapped()
    ensures X2(Const(128)) == Const(0x1b)
  {
    hide NumberBits;
    assert Const(128) == [false, false, false, false, false, false, false, true] by {
      BitsStep(128, 8);
      BitsStep(64, 7);
      BitsStep(32, 6);
      BitsStep(16, 5);
      BitsStep(8, 4);
      BitsStep(4, 3);
      BitsStep(2, 2);
      BitsStep(1, 1);
      NoBits(0);
    }
    assert Const(0x1b) == [true, true, false, true, true, false, false, false] by {
      BitsStep(27, 8);
      BitsStep(13, 7);
      BitsStep(6, 6);
      BitsStep(3, 5);
      BitsStep(1, 4);
      NoBits(3);
    }
  }

  /** The round constants are the powers of x. */
  lemma RconPowers(i: nat)
    requires 1 <= i <= 10
    ensures Rcon(1) == Const(1)
    ensures i < 10 ==> Rcon(i + 1) == X2(Rcon(i))
  {
    hide X2, NumberBits;
    if i == 8 {
      Wrapped();
    } else if i < 10 {
      var v := [0x8d, 0x01, 0x02, 0x04, 0x08, 0x10, 0x20, 0x40, 0x80, 0x1b, 0x36][i];
      Doubled(v);
    }
  }

  /** What is added to byte r of the word nk places back, last being the word before (section 5.2 of
      FIPS 197). */
  function Added(nk: nat, i: nat, last: Word4, r: nat): Byte
    requires (nk == 4 || nk == 6 || nk == 8) && nk <= i < 4 * (nk + 7) && r < 4
  {
    RconIndex(nk, i);
    if i % nk == 0 then Add(SubByte(last[(r + 1) % 4]), if r == 0 then Rcon(i / nk) else Zeros(8))
    else if nk == 8 && i % nk == 4 then SubByte(last[r])
    else last[r]
  }

  /** Word i of the schedule, byte by byte. */
  lemma WordEntry(key: seq<Byte>, i: nat, r: nat)
    requires KeySize(|key|) && i < 4 * (|key| / 4 + 7) && r < 4
    ensures var nk := |key| / 4;
            if i < nk then ExpandedWord(key, i)[r] == key[4 * i + r]
            else ExpandedWord(key, i)[r] == Add(ExpandedWord(key, i - nk)[r], Added(nk, i, ExpandedWord(key, i - 1), r))
  {
    hide ExpandedWord, Added, Mask, Add;
    ExpandedStep(key, i);
    var nk := |key| / 4;
    if i >= nk {
      MaskByte(nk, i, ExpandedWord(key, i - 1), r);
    }
  }

  lemma MaskByte(nk: nat, i: nat, t: Word4, r: nat)
    requires (nk == 4 || nk == 6 || nk == 8) && nk <= i < 4 * (nk + 7) && r < 4
    ensures Mask(nk, i, t)[r] == Added(nk, i, t, r)
  {
    hide SubByte, Add, Rcon;
    RconIndex(nk, i);
  }

  // ---------- the S-box ----------

  function Oct(b: Byte): Octet {
    Octet(b[0], b[1], b[2], b[3], b[4], b[5], b[6], b[7])
  }

  function Unoct(o: Octet): Byte {
    [o.b0, o.b1, o.b2, o.b3, o.b4, o.b5, o.b6, o.b7]
  }

  lemma TwiceIs(a: Byte)
    ensures Oct(X2(a)) == Twice(Oct(a))
  {
  }

  /** A byte is the number with its bits. */
  lemma CodeBits(b: Byte)
    ensures ToInt(b) == Unit(b[0]) + 2 * Unit(b[1]) + 4 * Unit(b[2]) + 8 * Unit(b[3]) + 16 * Unit(b[4]) + 32 * Unit(b[5])
                        + 64 * Unit(b[6]) + 128 * Unit(b[7])
  {
    hide ToInt;
    ToIntAt(b, 0);
    ToIntAt(b, 1);
    ToIntAt(b, 2);
    ToIntAt(b, 3);
    ToIntAt(b, 4);
    ToIntAt(b, 5);
    ToIntAt(b, 6);
    ToIntAt(b, 7);
    ToIntEnds(b);
  }

  lemma ToIntAt(b: Byte, s: nat)
    requires s < 8
    ensures ToInt(b[s..]) == Unit(b[s]) + 2 * ToInt(b[s + 1..])
  {
    assert b[s..][1..] == b[s + 1..];
  }

  lemma ToIntEnds(b: Byte)
    ensures b[0..] == b && ToInt(b[8..]) == 0
  {
    assert b[8..] == [];
  }

  lemma SplitByte(b: Byte)
    ensures Split(ToInt(b)) == Oct(b)
  {
    hide ToInt, Split;
    CodeBits(b);
    SplitNumber(ToInt(b), b[0], b[1], b[2], b[3], b[4], b[5], b[6], b[7]);
  }

  /** Multiplying the first factor by x multiplies the product by x. */
  lemma {:induction false} PartialTwice(a: Byte, b: Byte, s: nat)
    requires s <= 8
    ensures Partial(X2(a), b, s) == X2(Partial(a, b, s))
    decreases 8 - s
  {
    hide Partial, X2, Add;
    if s == 8 {
      PartialZero(a, b, 8);
      PartialZero(X2(a), b, 8);
      X2Zero();
    } else {
      PartialTwice(a, b, s + 1);
      PartialStep(a, b, s);
      PartialStep(X2(a), b, s);
      X2Add(X2(Partial(a, b, s + 1)), if b[s] then a else Zeros(8));
      X2Zero();
    }
  }

  /** So the product can be summed from the low bit. */
  lemma PartialUp(a: Byte, b: Byte, s: nat)
    requires s < 8
    ensures Partial(a, b, s) == Add(Partial(X2(a), b, s + 1), if b[s] then a else Zeros(8))
  {
    hide Partial, X2, Add;
    PartialStep(a, b, s);
    PartialTwice(a, b, s + 1);
  }

  lemma PartialBit(a: Byte, b: Byte, s: nat, i: nat)
    requires s < 8 && i < 8
    ensures Partial(a, b, s)[i] == ((b[s] && a[i]) != Partial(X2(a), b, s + 1)[i])
  {
    hide Partial, X2;
    PartialUp(a, b, s);
  }

  /** Bit i of a product: a0, ..., a7 are a, x * a, ..., x^7 * a. */
  lemma TimesBit(a0: Byte, a1: Byte, a2: Byte, a3: Byte, a4: Byte, a5: Byte, a6: Byte, a7: Byte, b: Byte, i: nat)
    requires a1 == X2(a0) && a2 == X2(a1) && a3 == X2(a2) && a4 == X2(a3) && a5 == X2(a4) && a6 == X2(a5) && a7 == X2(a6)
    requires i < 8
    ensures Times(a0, b)[i] == ((b[0] && a0[i]) != ((b[1] && a1[i]) != ((b[2] && a2[i]) != ((b[3] && a3[i]) != ((b[4] && a4[i]) != ((b[5] && a5[i]) != ((b[6] && a6[i]) != (b[7] && a7[i]))))))))
  {
    hide Partial, X2, Times;
    PartialIs(a0, b);
    PartialBit(a0, b, 0, i);
    PartialBit(a1, b, 1, i);
    PartialBit(a2, b, 2, i);
    PartialBit(a3, b, 3, i);
    PartialBit(a4, b, 4, i);
    PartialBit(a5, b, 5, i);
    PartialBit(a6, b, 6, i);
    PartialBit(a7, b, 7, i);
    PartialZero(X2(a7), b, 8);
  }

  lemma ProductBit0(a0: Byte, a1: Byte, a2: Byte, a3: Byte, a4: Byte, a5: Byte, a6: Byte, a7: Byte, b: Byte)
    requires a1 == X2(a0) && a2 == X2(a1) && a3 == X2(a2) && a4 == X2(a3) && a5 == X2(a4) && a6 == X2(a5) && a7 == X2(a6)
    ensures Flat(Oct(a0), Oct(b)).b0 == Times(a0, b)[0]
  {
    hide X2, Flat, Times, Twice;
    TwiceAll(a0, a1, a2, a3, a4, a5, a6, a7);
    FlatBit0(Oct(a0), Oct(b), Oct(a1), Oct(a2), Oct(a3), Oct(a4), Oct(a5), Oct(a6), Oct(a7));
    TimesBit(a0, a1, a2, a3, a4, a5, a6, a7, b, 0);
    XorSame(Oct(b).b0, Oct(b).b1, Oct(b).b2, Oct(b).b3, Oct(b).b4, Oct(b).b5, Oct(b).b6, Oct(b).b7,
            Oct(a0).b0, Oct(a1).b0, Oct(a2).b0, Oct(a3).b0, Oct(a4).b0, Oct(a5).b0, Oct(a6).b0, Oct(a7).b0,
            b[0], b[1], b[2], b[3], b[4], b[5], b[6], b[7],
            a0[0], a1[0], a2[0], a3[0], a4[0], a5[0], a6[0], a7[0]);
  }

  lemma ProductBit1(a0: Byte, a1: Byte, a2: Byte, a3: Byte, a4: Byte, a5: Byte, a6: Byte, a7: Byte, b: Byte)
    requires a1 == X2(a0) && a2 == X2(a1) && a3 == X2(a2) && a4 == X2(a3) && a5 == X2(a4) && a6 == X2(a5) && a7 == X2(a6)
    ensures Flat(Oct(a0), Oct(b)).b1 == Times(a0, b)[1]
  {
    hide X2, Flat, Times, Twice;
    TwiceAll(a0, a1, a2, a3, a4, a5, a6, a7);
    FlatBit1(Oct(a0), Oct(b), Oct(a1), Oct(a2), Oct(a3), Oct(a4), Oct(a5), Oct(a6), Oct(a7));
    TimesBit(a0, a1, a2, a3, a4, a5, a6, a7, b, 1);
    XorSame(Oct(b).b0, Oct(b).b1, Oct(b).b2, Oct(b).b3, Oct(b).b4, Oct(b).b5, Oct(b).b6, Oct(b).b7,
            Oct(a0).b1, Oct(a1).b1, Oct(a2).b1, Oct(a3).b1, Oct(a4).b1, Oct(a5).b1, Oct(a6).b1, Oct(a7).b1,
            b[0], b[1], b[2], b[3], b[4], b[5], b[6], b[7],
            a0[1], a1[1], a2[1], a3[1], a4[1], a5[1], a6[1], a7[1]);
  }

  lemma ProductBit2(a0: Byte, a1: Byte, a2: Byte, a3: Byte, a4: Byte, a5: Byte, a6: Byte, a7: Byte, b: Byte)
    requires a1 == X2(a0) && a2 == X2(a1) && a3 == X2(a2) && a4 == X2(a3) && a5 == X2(a4) && a6 == X2(a5) && a7 == X2(a6)
    ensures Flat(Oct(a0), Oct(b)).b2 == Times(a0, b)[2]
  {
    hide X2, Flat, Times, Twice;
    TwiceAll(a0, a1, a2, a3, a4, a5, a6, a7);
    FlatBit2(Oct(a0), Oct(b), Oct(a1), Oct(a2), Oct(a3), Oct(a4), Oct(a5), Oct(a6), Oct(a7));
    TimesBit(a0, a1, a2, a3, a4, a5, a6, a7, b, 2);
    XorSame(Oct(b).b0, Oct(b).b1, Oct(b).b2, Oct(b).b3, Oct(b).b4, Oct(b).b5, Oct(b).b6, Oct(b).b7,
            Oct(a0).b2, Oct(a1).b2, Oct(a2).b2, Oct(a3).b2, Oct(a4).b2, Oct(a5).b2, Oct(a6).b2, Oct(a7).b2,
            b[0], b[1], b[2], b[3], b[4], b[5], b[6], b[7],
            a0[2], a1[2], a2[2], a3[2], a4[2], a5[2], a6[2], a7[2]);
  }

  lemma ProductBit3(a0: Byte, a1: Byte, a2: Byte, a3: Byte, a4: Byte, a5: Byte, a6: Byte, a7: Byte, b: Byte)
    requires a1 == X2(a0) && a2 == X2(a1) && a3 == X2(a2) && a4 == X2(a3) && a5 == X2(a4) && a6 == X2(a5) && a7 == X2(a6)
    ensures Flat(Oct(a0), Oct(b)).b3 == Times(a0, b)[3]
  {
    hide X2, Flat, Times, Twice;
    TwiceAll(a0, a1, a2, a3, a4, a5, a6, a7);
    FlatBit3(Oct(a0), Oct(b), Oct(a1), Oct(a2), Oct(a3), Oct(a4), Oct(a5), Oct(a6), Oct(a7));
    TimesBit(a0, a1, a2, a3, a4, a5, a6, a7, b, 3);
    XorSame(Oct(b).b0, Oct(b).b1, Oct(b).b2, Oct(b).b3, Oct(b).b4, Oct(b).b5, Oct(b).b6, Oct(b).b7,
            Oct(a0).b3, Oct(a1).b3, Oct(a2).b3, Oct(a3).b3, Oct(a4).b3, Oct(a5).b3, Oct(a6).b3, Oct(a7).b3,
            b[0], b[1], b[2], b[3], b[4], b[5], b[6], b[7],
            a0[3], a1[3], a2[3], a3[3], a4[3], a5[3], a6[3], a7[3]);
  }

  lemma ProductBit4(a0: Byte, a1: Byte, a2: Byte, a3: Byte, a4: Byte, a5: Byte, a6: Byte, a7: Byte, b: Byte)
    requires a1 == X2(a0) && a2 == X2(a1) && a3 == X2(a2) && a4 == X2(a3) && a5 == X2(a4) && a6 == X2(a5) && a7 == X2(a6)
    ensures Flat(Oct(a0), Oct(b)).b4 == Times(a0, b)[4]
  {
    hide X2, Flat, Times, Twice;
    TwiceAll(a0, a1, a2, a3, a4, a5, a6, a7);
    FlatBit4(Oct(a0), Oct(b), Oct(a1), Oct(a2), Oct(a3), Oct(a4), Oct(a5), Oct(a6), Oct(a7));
    TimesBit(a0, a1, a2, a3, a4, a5, a6, a7, b, 4);
    XorSame(Oct(b).b0, Oct(b).b1, Oct(b).b2, Oct(b).b3, Oct(b).b4, Oct(b).b5, Oct(b).b6, Oct(b).b7,
            Oct(a0).b4, Oct(a1).b4, Oct(a2).b4, Oct(a3).b4, Oct(a4).b4, Oct(a5).b4, Oct(a6).b4, Oct(a7).b4,
            b[0], b[1], b[2], b[3], b[4], b[5], b[6], b[7],
            a0[4], a1[4], a2[4], a3[4], a4[4], a5[4], a6[4], a7[4]);
  }

  lemma ProductBit5(a0: Byte, a1: Byte, a2: Byte, a3: Byte, a4: Byte, a5: Byte, a6: Byte, a7: Byte, b: Byte)
    requires a1 == X2(a0) && a2 == X2(a1) && a3 == X2(a2) && a4 == X2(a3) && a5 == X2(a4) && a6 == X2(a5) && a7 == X2(a6)
    ensures Flat(Oct(a0), Oct(b)).b5 == Times(a0, b)[5]
  {
    hide X2, Flat, Times, Twice;
    TwiceAll(a0, a1, a2, a3, a4, a5, a6, a7);
    FlatBit5(Oct(a0), Oct(b), Oct(a1), Oct(a2), Oct(a3), Oct(a4), Oct(a5), Oct(a6), Oct(a7));
    TimesBit(a0, a1, a2, a3, a4, a5, a6, a7, b, 5);
    XorSame(Oct(b).b0, Oct(b).b1, Oct(b).b2, Oct(b).b3, Oct(b).b4, Oct(b).b5, Oct(b).b6, Oct(b).b7,
            Oct(a0).b5, Oct(a1).b5, Oct(a2).b5, Oct(a3).b5, Oct(a4).b5, Oct(a5).b5, Oct(a6).b5, Oct(a7).b5,
            b[0], b[1], b[2], b[3], b[4], b[5], b[6], b[7],
            a0[5], a1[5], a2[5], a3[5], a4[5], a5[5], a6[5], a7[5]);
  }

  lemma ProductBit6(a0: Byte, a1: Byte, a2: Byte, a3: Byte, a4: Byte, a5: Byte, a6: Byte, a7: Byte, b: Byte)
    requires a1 == X2(a0) && a2 == X2(a1) && a3 == X2(a2) && a4 == X2(a3) && a5 == X2(a4) && a6 == X2(a5) && a7 == X2(a6)
    ensures Flat(Oct(a0), Oct(b)).b6 == Times(a0, b)[6]
  {
    hide X2, Flat, Times, Twice;
    TwiceAll(a0, a1, a2, a3, a4, a5, a6, a7);
    FlatBit6(Oct(a0), Oct(b), Oct(a1), Oct(a2), Oct(a3), Oct(a4), Oct(a5), Oct(a6), Oct(a7));
    TimesBit(a0, a1, a2, a3, a4, a5, a6, a7, b, 6);
    XorSame(Oct(b).b0, Oct(b).b1, Oct(b).b2, Oct(b).b3, Oct(b).b4, Oct(b).b5, Oct(b).b6, Oct(b).b7,
            Oct(a0).b6, Oct(a1).b6, Oct(a2).b6, Oct(a3).b6, Oct(a4).b6, Oct(a5).b6, Oct(a6).b6, Oct(a7).b6,
            b[0], b[1], b[2], b[3], b[4], b[5], b[6], b[7],
            a0[6], a1[6], a2[6], a3[6], a4[6], a5[6], a6[6], a7[6]);
  }

  lemma ProductBit7(a0: Byte, a1: Byte, a2: Byte, a3: Byte, a4: Byte, a5: Byte, a6: Byte, a7: Byte, b: Byte)
    requires a1 == X2(a0) && a2 == X2(a1) && a3 == X2(a2) && a4 == X2(a3) && a5 == X2(a4) && a6 == X2(a5) && a7 == X2(a6)
    ensures Flat(Oct(a0), Oct(b)).b7 == Times(a0, b)[7]
  {
    hide X2, Flat, Times, Twice;
    TwiceAll(a0, a1, a2, a3, a4, a5, a6, a7);
    FlatBit7(Oct(a0), Oct(b), Oct(a1), Oct(a2), Oct(a3), Oct(a4), Oct(a5), Oct(a6), Oct(a7));
    TimesBit(a0, a1, a2, a3, a4, a5, a6, a7, b, 7);
    XorSame(Oct(b).b0, Oct(b).b1, Oct(b).b2, Oct(b).b3, Oct(b).b4, Oct(b).b5, Oct(b).b6, Oct(b).b7,
            Oct(a0).b7, Oct(a1).b7, Oct(a2).b7, Oct(a3).b7, Oct(a4).b7, Oct(a5).b7, Oct(a6).b7, Oct(a7).b7,
            b[0], b[1], b[2], b[3], b[4], b[5], b[6], b[7],
            a0[7], a1[7], a2[7], a3[7], a4[7], a5[7], a6[7], a7[7]);
  }

  lemma TwiceAll(a0: Byte, a1: Byte, a2: Byte, a3: Byte, a4: Byte, a5: Byte, a6: Byte, a7: Byte)
    requires a1 == X2(a0) && a2 == X2(a1) && a3 == X2(a2) && a4 == X2(a3) && a5 == X2(a4) && a6 == X2(a5) && a7 == X2(a6)
    ensures Oct(a1) == Twice(Oct(a0)) && Oct(a2) == Twice(Oct(a1)) && Oct(a3) == Twice(Oct(a2)) && Oct(a4) == Twice(Oct(a3))
    ensures Oct(a5) == Twice(Oct(a4)) && Oct(a6) == Twice(Oct(a5)) && Oct(a7) == Twice(Oct(a6))
  {
    hide X2, Twice, Oct;
    TwiceIs(a0);
    TwiceIs(a1);
    TwiceIs(a2);
    TwiceIs(a3);
    TwiceIs(a4);
    TwiceIs(a5);
    TwiceIs(a6);
  }

  /** The product in the field, bit by bit. */
  lemma TimesFlat(a: Byte, b: Byte)
    ensures var t := Times(a, b); Flat(Oct(a), Oct(b)) == Octet(t[0], t[1], t[2], t[3], t[4], t[5], t[6], t[7])
  {
    hide X2, Times, Flat, Oct;
    var a1 := X2(a);
    var a2 := X2(a1);
    var a3 := X2(a2);
    var a4 := X2(a3);
    var a5 := X2(a4);
    var a6 := X2(a5);
    var a7 := X2(a6);
    ProductBit0(a, a1, a2, a3, a4, a5, a6, a7, b);
    ProductBit1(a, a1, a2, a3, a4, a5, a6, a7, b);
    ProductBit2(a, a1, a2, a3, a4, a5, a6, a7, b);
    ProductBit3(a, a1, a2, a3, a4, a5, a6, a7, b);
    ProductBit4(a, a1, a2, a3, a4, a5, a6, a7, b);
    ProductBit5(a, a1, a2, a3, a4, a5, a6, a7, b);
    ProductBit6(a, a1, a2, a3, a4, a5, a6, a7, b);
    ProductBit7(a, a1, a2, a3, a4, a5, a6, a7, b);
  }

  /** The affine map of section 5.1.1 of FIPS 197, bit by bit. */
  function AffineBit(y: Byte, i: nat): bool
    requires i < 8
  {
    ((((y[i] != y[(i + 4) % 8]) != y[(i + 5) % 8]) != y[(i + 6) % 8]) != y[(i + 7) % 8]) != (i in {0, 1, 5, 6})
  }

  /** y is the inverse of b, zero being its own. */
  ghost predicate InverseOf(y: Byte, b: Byte) {
    if b == Zeros(8) then y == Zeros(8) else Times(b, y) == Const(1)
  }

  /** The byte the affine map takes to the table entry of b. */
  function Preimage(b: Byte): Byte {
    Unoct(Undone(Oct(SubByte(b))))
  }

  /** The S-box: the affine map of the inverse, for every byte. */
  lemma SBox(b: Byte)
    ensures InverseOf(Preimage(b), b)
    ensures forall i :: 0 <= i < 8 ==> SubByte(b)[i] == AffineBit(Preimage(b), i)
  {
    hide SubByte, Times, InverseOf, AffineBit, Undone, Oct, Unoct;
    SBoxInverse(b);
    forall i | 0 <= i < 8 ensures SubByte(b)[i] == AffineBit(Preimage(b), i) {
      SBoxAffine(SubByte(b), i);
    }
  }

  lemma SBoxAffine(s: Byte, i: nat)
    requires i < 8
    ensures s[i] == AffineBit(Unoct(Undone(Oct(s))), i)
  {
    hide Undone, Affine, AffineBit;
    AffineUndone(Oct(s));
    AffineIs(Undone(Oct(s)));
  }

  lemma AffineIs(o: Octet)
    ensures var y := Unoct(o);
            Affine(o) == Octet(AffineBit(y, 0), AffineBit(y, 1), AffineBit(y, 2), AffineBit(y, 3),
                               AffineBit(y, 4), AffineBit(y, 5), AffineBit(y, 6), AffineBit(y, 7))
  {
  }

  lemma SBoxInverse(b: Byte)
    ensures InverseOf(Preimage(b), b)
  {
    hide SubByte, Times, Flat, Undone, ToInt, Split, T.S, Const, Oct, Unoct;
    SubByteCode(b);
    SplitByte(SubByte(b));
    if b == Zeros(8) {
      ZeroEntry();
      ZeroCode();
    } else {
      NonzeroInverse(b, Undone(Split(T.S(Code(b)))));
    }
  }

  lemma ZeroCode()
    ensures Code(Zeros(8)) == 0
  {
    hide ToInt;
    CodeBits(Zeros(8));
  }

  lemma NonzeroInverse(b: Byte, o: Octet)
    requires b != Zeros(8) && o == Undone(Split(T.S(Code(b))))
    ensures Times(b, Unoct(o)) == Const(1)
  {
    hide Times, Flat, Undone, ToInt, Split, T.S, Const;
    CodeBits(b);
    if ToInt(b) == 0 {
      ZeroByte(b);
    } else {
      TableInverse(Code(b), b[0], b[1], b[2], b[3], b[4], b[5], b[6], b[7]);
      TimesFlat(b, Unoct(o));
      OctUnoct(o);
      OneByte(Times(b, Unoct(o)));
    }
  }

  lemma OneByte(t: Byte)
    requires Octet(t[0], t[1], t[2], t[3], t[4], t[5], t[6], t[7]) == Octet(true, false, false, false, false, false, false, false)
    ensures t == Const(1)
  {
    hide Const;
    ConstIs(1);
    assert t == [t[0], t[1], t[2], t[3], t[4], t[5], t[6], t[7]];
  }

  lemma OctUnoct(o: Octet)
    ensures Oct(Unoct(o)) == o
  {
  }

  lemma ZeroByte(b: Byte)
    requires !b[0] && !b[1] && !b[2] && !b[3] && !b[4] && !b[5] && !b[6] && !b[7]
    ensures b == Zeros(8)
  {
    var z := Zeros(8);
    assert forall i :: 0 <= i < 8 ==> b[i] == z[i];
  }

  lemma SubByteCode(b: Byte)
    ensures ToInt(SubByte(b)) == T.S(Code(b))
  {
    hide T.S, ToInt, NumberBits;
    EightBits();
    BitsOfInt(T.S(Code(b)), 8);
  }

  lemma ZeroEntry()
    ensures Unoct(Undone(Split(T.S(0)))) == Zeros(8)
  {
    assert T.S(0) == 0x63;
    SplitNumber(0x63, true, true, false, false, false, true, true, false);
  }
}
