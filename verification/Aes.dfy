/** AES (section 5 of FIPS 197) as src/aes.c implements it: key schedule, round functions on the
    4 x 4 state in place, and the proof that decryption inverts encryption. */
module Aes {
  import opened Common
  import opened Polynomials
  import opened Gf128
  import T = AesTables

  // ---------- bytes ----------

  function ToInt(b: Bits): (v: nat) {
    if b == [] then 0 else (if b[0] then 1 else 0) + 2 * ToInt(b[1..])
  }

  lemma {:induction false} BitsOfInt(v: nat, k: nat)
    requires v < Two(k)
    ensures ToInt(NumberBits(v, k)) == v
  {
    if k > 0 {
      BitsOfInt(v / 2, k - 1);
      assert NumberBits(v, k)[1..] == NumberBits(v / 2, k - 1);
    }
  }

  lemma {:induction false} IntOfBits(b: Bits)
    ensures ToInt(b) < Two(|b|) && NumberBits(ToInt(b), |b|) == b
  {
    if b != [] {
      IntOfBits(b[1..]);
      assert b == [b[0]] + b[1..];
    }
  }

  lemma EightBits()
    ensures Two(8) == 256
  {
    assert Two(4) == 16;
    assert Two(6) == 64;
  }

  function Code(b: Byte): byte {
    IntOfBits(b);
    EightBits();
    ToInt(b)
  }

  function SubByte(b: Byte): Byte {
    NumberBits(T.S(Code(b)), 8)
  }

  function InvSubByte(b: Byte): Byte {
    NumberBits(T.SInv(Code(b)), 8)
  }

  lemma SubByteInverse(b: Byte)
    ensures InvSubByte(SubByte(b)) == b
  {
    hide T.S, T.SInv, ToInt, NumberBits;
    EightBits();
    BitsOfInt(T.S(Code(b)), 8);
    T.TablesInverse(Code(b));
    IntOfBits(b);
  }

  // ---------- GF(2^8) ----------

  /** 0x1b = x^4 + x^3 + x + 1. */
  function Tap8(): (b: Byte) {
    [true, true, false, true, true, false, false, false]
  }

  function Add(a: Byte, b: Byte): (r: Byte)
    ensures forall i :: 0 <= i < 8 ==> r[i] == (a[i] != b[i])
  {
    Xor(a, b)
  }

  function X2(a: Byte): Byte {
    if a[7] then Add([false] + a[..7], Tap8()) else [false] + a[..7]
  }

  function X3(a: Byte): Byte {
    Add(X2(a), a)
  }

  function X9(a: Byte): Byte {
    Add(X2(X2(X2(a))), a)
  }

  function XB(a: Byte): Byte {
    Add(Add(X2(X2(X2(a))), X2(a)), a)
  }

  function XD(a: Byte): Byte {
    Add(Add(X2(X2(X2(a))), X2(X2(a))), a)
  }

  function XE(a: Byte): Byte {
    Add(Add(X2(X2(X2(a))), X2(X2(a))), X2(a))
  }

  lemma X2Add(a: Byte, b: Byte)
    ensures X2(Add(a, b)) == Add(X2(a), X2(b))
  {
    var l, r := X2(Add(a, b)), Add(X2(a), X2(b));
    assert forall i :: 0 <= i < 8 ==> l[i] == r[i];
  }

  /** Sums of bytes, up to the order of the terms. */
  function Add4(a: Byte, b: Byte, c: Byte, d: Byte): (r: Byte)
    ensures forall i :: 0 <= i < 8 ==> r[i] == ((a[i] != b[i]) != (c[i] != d[i]))
  {
    Add(Add(Add(a, b), c), d)
  }

  lemma XTimesAdd(a: Byte, b: Byte)
    ensures X9(Add(a, b)) == Add(X9(a), X9(b)) && XB(Add(a, b)) == Add(XB(a), XB(b))
    ensures XD(Add(a, b)) == Add(XD(a), XD(b)) && XE(Add(a, b)) == Add(XE(a), XE(b))
  {
    hide X2;
    X2Add(a, b);
    X2Add(X2(a), X2(b));
    X2Add(X2(X2(a)), X2(X2(b)));
    var s := Add(a, b);
    var x1, x2, x3 := X2(s), X2(X2(s)), X2(X2(X2(s)));
    assert forall i :: 0 <= i < 8 ==> X9(s)[i] == Add(X9(a), X9(b))[i];
    assert forall i :: 0 <= i < 8 ==> XB(s)[i] == Add(XB(a), XB(b))[i];
    assert forall i :: 0 <= i < 8 ==> XD(s)[i] == Add(XD(a), XD(b))[i];
    assert forall i :: 0 <= i < 8 ==> XE(s)[i] == Add(XE(a), XE(b))[i];
  }

  lemma XTimesAdd4(a: Byte, b: Byte, c: Byte, d: Byte)
    ensures X9(Add4(a, b, c, d)) == Add4(X9(a), X9(b), X9(c), X9(d))
    ensures XB(Add4(a, b, c, d)) == Add4(XB(a), XB(b), XB(c), XB(d))
    ensures XD(Add4(a, b, c, d)) == Add4(XD(a), XD(b), XD(c), XD(d))
    ensures XE(Add4(a, b, c, d)) == Add4(XE(a), XE(b), XE(c), XE(d))
  {
    hide X9, XB, XD, XE;
    XTimesAdd(Add(Add(a, b), c), d);
    XTimesAdd(Add(a, b), c);
    XTimesAdd(a, b);
  }

  /** The entries of the product of the two column matrices: one on the diagonal, zero elsewhere. */
  lemma Coefficients(a: Byte)
    ensures Add4(XE(X2(a)), XB(a), XD(a), X9(X3(a))) == a
    ensures Add4(XE(X3(a)), XB(X2(a)), XD(a), X9(a)) == Zeros(8)
    ensures Add4(XE(a), XB(X3(a)), XD(X2(a)), X9(a)) == Zeros(8)
    ensures Add4(XE(a), XB(a), XD(X3(a)), X9(X2(a))) == Zeros(8)
  {
    hide X2, X9, XB, XD, XE;
    XTimesAdd(X2(a), a);
    Powers(a);
    Powers(X2(a));
    var y, z, w, v := X2(a), X2(X2(a)), X2(X2(X2(a))), X2(X2(X2(X2(a))));
    var o := Zeros(8);
    assert forall i :: 0 <= i < 8 ==> Add4(XE(y), XB(a), XD(a), X9(X3(a)))[i] == a[i];
    assert forall i :: 0 <= i < 8 ==> Add4(XE(X3(a)), XB(y), XD(a), X9(a))[i] == o[i];
    assert forall i :: 0 <= i < 8 ==> Add4(XE(a), XB(X3(a)), XD(y), X9(a))[i] == o[i];
    assert forall i :: 0 <= i < 8 ==> Add4(XE(a), XB(a), XD(X3(a)), X9(y))[i] == o[i];
  }

  lemma Powers(a: Byte)
    ensures forall i :: 0 <= i < 8 ==> X9(a)[i] == (X2(X2(X2(a)))[i] != a[i])
    ensures forall i :: 0 <= i < 8 ==> XB(a)[i] == ((X2(X2(X2(a)))[i] != X2(a)[i]) != a[i])
    ensures forall i :: 0 <= i < 8 ==> XD(a)[i] == ((X2(X2(X2(a)))[i] != X2(X2(a))[i]) != a[i])
    ensures forall i :: 0 <= i < 8 ==> XE(a)[i] == ((X2(X2(X2(a)))[i] != X2(X2(a))[i]) != X2(a)[i])
  {
    hide X2;
  }

  // ---------- blocks: byte r of column c is at index 4c + r ----------

  function MixColumn(a: Byte, b: Byte, c: Byte, d: Byte): (m: seq<Byte>)
    ensures |m| == 4
  {
    [Add4(X2(a), X3(b), c, d), Add4(a, X2(b), X3(c), d), Add4(a, b, X2(c), X3(d)), Add4(X3(a), b, c, X2(d))]
  }

  function InvMixColumn(a: Byte, b: Byte, c: Byte, d: Byte): (m: seq<Byte>)
    ensures |m| == 4
  {
    [Add4(XE(a), XB(b), XD(c), X9(d)), Add4(X9(a), XE(b), XB(c), XD(d)),
     Add4(XD(a), X9(b), XE(c), XB(d)), Add4(XB(a), XD(b), X9(c), XE(d))]
  }

  /** One row of the inverse matrix applied to a mixed column. */
  lemma MixRow(a: Byte, b: Byte, c: Byte, d: Byte)
    ensures Add4(XE(Add4(X2(a), X3(b), c, d)), XB(Add4(a, X2(b), X3(c), d)), XD(Add4(a, b, X2(c), X3(d))), X9(Add4(X3(a), b, c, X2(d)))) == a
  {
    hide X2, X3, X9, XB, XD, XE, Add4;
    XTimesAdd4(X2(a), X3(b), c, d);
    XTimesAdd4(a, X2(b), X3(c), d);
    XTimesAdd4(a, b, X2(c), X3(d));
    XTimesAdd4(X3(a), b, c, X2(d));
    Coefficients(a);
    Coefficients(b);
    Coefficients(c);
    Coefficients(d);
    Transpose(XE(X2(a)), XE(X3(b)), XE(c), XE(d), XB(a), XB(X2(b)), XB(X3(c)), XB(d),
              XD(a), XD(b), XD(X2(c)), XD(X3(d)), X9(X3(a)), X9(b), X9(c), X9(X2(d)));
    OnlyFirst(a);
  }

  lemma OnlyFirst(a: Byte)
    ensures Add4(a, Zeros(8), Zeros(8), Zeros(8)) == a
  {
    var r := Add4(a, Zeros(8), Zeros(8), Zeros(8));
    assert forall i :: 0 <= i < 8 ==> r[i] == a[i];
  }

  /** Summing a square of terms by rows or by columns. */
  lemma Transpose(a: Byte, b: Byte, c: Byte, d: Byte, e: Byte, f: Byte, g: Byte, h: Byte,
                  i: Byte, j: Byte, k: Byte, l: Byte, m: Byte, n: Byte, o: Byte, p: Byte)
    ensures Add4(Add4(a, b, c, d), Add4(e, f, g, h), Add4(i, j, k, l), Add4(m, n, o, p))
         == Add4(Add4(a, e, i, m), Add4(b, f, j, n), Add4(c, g, k, o), Add4(d, h, l, p))
  {
    var x := Add4(Add4(a, b, c, d), Add4(e, f, g, h), Add4(i, j, k, l), Add4(m, n, o, p));
    var y := Add4(Add4(a, e, i, m), Add4(b, f, j, n), Add4(c, g, k, o), Add4(d, h, l, p));
    hide Add4;
    assert forall t :: 0 <= t < 8 ==> x[t] == y[t];
  }

  lemma Rotate4(a: Byte, b: Byte, c: Byte, d: Byte)
    ensures Add4(a, b, c, d) == Add4(b, c, d, a)
  {
    var x, y := Add4(a, b, c, d), Add4(b, c, d, a);
    hide Add4;
    assert forall t :: 0 <= t < 8 ==> x[t] == y[t];
  }

  lemma MixInverse(a: Byte, b: Byte, c: Byte, d: Byte)
    ensures var m := MixColumn(a, b, c, d); InvMixColumn(m[0], m[1], m[2], m[3]) == [a, b, c, d]
  {
    hide X2, X3, X9, XB, XD, XE, Add4;
    var m := MixColumn(a, b, c, d);
    Turned(a, b, c, d);
    Turned(b, c, d, a);
    Turned(c, d, a, b);
    MixRow(a, b, c, d);
    MixRow(b, c, d, a);
    MixRow(c, d, a, b);
    MixRow(d, a, b, c);
    Rotate4(X9(m[0]), XE(m[1]), XB(m[2]), XD(m[3]));
    Rotate4(XD(m[0]), X9(m[1]), XE(m[2]), XB(m[3]));
    Rotate4(X9(m[1]), XE(m[2]), XB(m[3]), XD(m[0]));
    Rotate4(XB(m[0]), XD(m[1]), X9(m[2]), XE(m[3]));
    Rotate4(XD(m[1]), X9(m[2]), XE(m[3]), XB(m[0]));
    Rotate4(X9(m[2]), XE(m[3]), XB(m[0]), XD(m[1]));
  }

  /** Turning a column turns the mixed column. */
  lemma Turned(a: Byte, b: Byte, c: Byte, d: Byte)
    ensures var m, n := MixColumn(a, b, c, d), MixColumn(b, c, d, a);
            n[0] == m[1] && n[1] == m[2] && n[2] == m[3] && n[3] == m[0]
  {
    hide X2, X3, Add4;
    Rotate4(a, X2(b), X3(c), d);
    Rotate4(a, b, X2(c), X3(d));
    Rotate4(X3(a), b, c, X2(d));
    Rotate4(X2(a), X3(b), c, d);
  }

  function SubBytes(b: Block): (r: Block)
    ensures forall i :: 0 <= i < 16 ==> r[i] == SubByte(b[i])
  {
    seq(16, i requires 0 <= i < 16 => SubByte(b[i]))
  }

  function InvSubBytes(b: Block): (r: Block)
    ensures forall i :: 0 <= i < 16 ==> r[i] == InvSubByte(b[i])
  {
    seq(16, i requires 0 <= i < 16 => InvSubByte(b[i]))
  }

  function ShiftRows(b: Block): Block {
    [b[0], b[5], b[10], b[15], b[4], b[9], b[14], b[3], b[8], b[13], b[2], b[7], b[12], b[1], b[6], b[11]]
  }

  function InvShiftRows(b: Block): Block {
    [b[0], b[13], b[10], b[7], b[4], b[1], b[14], b[11], b[8], b[5], b[2], b[15], b[12], b[9], b[6], b[3]]
  }

  function MixColumns(b: Block): Block {
    hide MixColumn;
    MixColumn(b[0], b[1], b[2], b[3]) + MixColumn(b[4], b[5], b[6], b[7])
    + MixColumn(b[8], b[9], b[10], b[11]) + MixColumn(b[12], b[13], b[14], b[15])
  }

  function InvMixColumns(b: Block): Block {
    hide InvMixColumn;
    InvMixColumn(b[0], b[1], b[2], b[3]) + InvMixColumn(b[4], b[5], b[6], b[7])
    + InvMixColumn(b[8], b[9], b[10], b[11]) + InvMixColumn(b[12], b[13], b[14], b[15])
  }

  function AddKey(b: Block, k: Block): (r: Block)
    ensures forall i :: 0 <= i < 16 ==> r[i] == Add(b[i], k[i])
  {
    seq(16, i requires 0 <= i < 16 => Add(b[i], k[i]))
  }

  // ---------- every layer is undone by its inverse ----------

  lemma AddTwice(a: Byte, k: Byte)
    ensures Add(Add(a, k), k) == a
  {
    var r := Add(Add(a, k), k);
    assert forall i :: 0 <= i < 8 ==> r[i] == a[i];
  }

  lemma AddKeyTwice(b: Block, k: Block)
    ensures AddKey(AddKey(b, k), k) == b
  {
    forall i | 0 <= i < 16 ensures AddKey(AddKey(b, k), k)[i] == b[i] {
      AddTwice(b[i], k[i]);
    }
  }

  lemma SubBytesInverse(b: Block)
    ensures InvSubBytes(SubBytes(b)) == b
  {
    hide SubByte, InvSubByte;
    forall i | 0 <= i < 16 ensures InvSubBytes(SubBytes(b))[i] == b[i] {
      SubByteInverse(b[i]);
    }
  }

  lemma ShiftRowsInverse(b: Block)
    ensures InvShiftRows(ShiftRows(b)) == b
  {
  }

  lemma MixColumnsInverse(b: Block)
    ensures InvMixColumns(MixColumns(b)) == b
  {
    hide MixColumn, InvMixColumn;
    MixInverse(b[0], b[1], b[2], b[3]);
    MixInverse(b[4], b[5], b[6], b[7]);
    MixInverse(b[8], b[9], b[10], b[11]);
    MixInverse(b[12], b[13], b[14], b[15]);
  }

  // ---------- the cipher ----------

  /** The state after round i of encryption, the last round excluded. */
  function Round(ks: seq<Block>, b: Block, i: nat): Block
    requires i < |ks|
  {
    if i == 0 then AddKey(b, ks[0])
    else AddKey(MixColumns(ShiftRows(SubBytes(Round(ks, b, i - 1)))), ks[i])
  }

  function Encrypt(ks: seq<Block>, b: Block): Block
    requires |ks| >= 2
  {
    var n := |ks| - 1;
    AddKey(ShiftRows(SubBytes(Round(ks, b, n - 1))), ks[n])
  }

  function InvRound(ks: seq<Block>, c: Block, i: nat): Block
    requires i < |ks|
  {
    if i == 0 then AddKey(c, ks[0])
    else InvMixColumns(AddKey(InvSubBytes(InvShiftRows(InvRound(ks, c, i - 1))), ks[i]))
  }

  function Decrypt(ks: seq<Block>, c: Block): Block
    requires |ks| >= 2
  {
    var n := |ks| - 1;
    AddKey(InvSubBytes(InvShiftRows(InvRound(ks, c, n - 1))), ks[n])
  }

  /** ks backwards. */
  ghost predicate Backwards(ks: seq<Block>, ds: seq<Block>) {
    |ds| == |ks| && forall i :: 0 <= i < |ks| ==> ds[i] == ks[|ks| - 1 - i]
  }

  lemma UnSubShift(x: Block)
    ensures InvSubBytes(InvShiftRows(ShiftRows(SubBytes(x)))) == x
  {
    hide SubBytes, InvSubBytes, ShiftRows, InvShiftRows;
    ShiftRowsInverse(SubBytes(x));
    SubBytesInverse(x);
  }

  /** Decryption walks back through the encryption states. */
  lemma {:induction false} WalkBack(ks: seq<Block>, ds: seq<Block>, b: Block, i: nat)
    requires |ks| >= 2 && Backwards(ks, ds) && i < |ks| - 1
    ensures InvRound(ds, Encrypt(ks, b), i) == ShiftRows(SubBytes(Round(ks, b, |ks| - 2 - i)))
  {
    hide SubBytes, InvSubBytes, ShiftRows, InvShiftRows, MixColumns, InvMixColumns, AddKey, Round, InvRound;
    var n := |ks| - 1;
    if i == 0 {
      InvRoundStart(ds, Encrypt(ks, b));
      AddKeyTwice(ShiftRows(SubBytes(Round(ks, b, n - 1))), ks[n]);
    } else {
      WalkBack(ks, ds, b, i - 1);
      InvRoundStep(ds, Encrypt(ks, b), i);
      RoundStep(ks, b, n - i);
      UnSubShift(Round(ks, b, n - i));
      var y := ShiftRows(SubBytes(Round(ks, b, n - i - 1)));
      AddKeyTwice(MixColumns(y), ks[n - i]);
      MixColumnsInverse(y);
    }
  }

  lemma RoundStep(ks: seq<Block>, b: Block, i: nat)
    requires 0 < i < |ks|
    ensures Round(ks, b, i) == AddKey(MixColumns(ShiftRows(SubBytes(Round(ks, b, i - 1)))), ks[i])
  {
    hide SubBytes, ShiftRows, MixColumns, AddKey;
  }

  lemma InvRoundStart(ds: seq<Block>, c: Block)
    requires |ds| > 0
    ensures InvRound(ds, c, 0) == AddKey(c, ds[0])
  {
    hide AddKey;
  }

  lemma InvRoundStep(ds: seq<Block>, c: Block, i: nat)
    requires 0 < i < |ds|
    ensures InvRound(ds, c, i) == InvMixColumns(AddKey(InvSubBytes(InvShiftRows(InvRound(ds, c, i - 1))), ds[i]))
  {
    hide InvSubBytes, InvShiftRows, InvMixColumns, AddKey;
  }

  /** aes_decrypt inverts aes_encrypt for every round-key list and block. */
  lemma DecryptInverts(ks: seq<Block>, ds: seq<Block>, b: Block)
    requires |ks| >= 2 && Backwards(ks, ds)
    ensures Decrypt(ds, Encrypt(ks, b)) == b
  {
    hide SubBytes, InvSubBytes, ShiftRows, InvShiftRows, MixColumns, InvMixColumns, AddKey, Encrypt, InvRound;
    WalkBack(ks, ds, b, |ks| - 2);
    UnSubShift(Round(ks, b, 0));
    AddKeyTwice(b, ks[0]);
  }

  // ---------- the routines on the 4 x 4 state ----------

  type Word4 = w: seq<Byte> | |w| == 4 witness seq(4, _ => seq(8, _ => false))

  ghost predicate Square(a: array2<Byte>) {
    a.Length0 == 4 && a.Length1 == 4
  }

  /** The state read column by column. */
  ghost function Val(a: array2<Byte>): Block
    requires Square(a)
    reads a
  {
    [a[0, 0], a[1, 0], a[2, 0], a[3, 0], a[0, 1], a[1, 1], a[2, 1], a[3, 1],
     a[0, 2], a[1, 2], a[2, 2], a[3, 2], a[0, 3], a[1, 3], a[2, 3], a[3, 3]]
  }

  lemma ValIndex(a: array2<Byte>, r: int, c: int)
    requires Square(a) && 0 <= r < 4 && 0 <= c < 4
    ensures Val(a)[4 * c + r] == a[r, c]
  {
  }

  /** Two states with the same entries. */
  lemma ValIs(a: array2<Byte>, b: Block)
    requires Square(a) && forall r, c :: 0 <= r < 4 && 0 <= c < 4 ==> a[r, c] == b[4 * c + r]
    ensures Val(a) == b
  {
    forall k | 0 <= k < 16 ensures Val(a)[k] == b[k] {
      var r, c := k % 4, k / 4;
      assert k == 4 * c + r;
      ValIndex(a, r, c);
    }
  }

  method FillState(inp: Block) returns (a: array2<Byte>)
    ensures fresh(a) && Square(a) && Val(a) == inp
  {
    a := new Byte[4, 4]((r, c) => inp[0]);
    for c := 0 to 4
      invariant forall r, k :: 0 <= r < 4 && 0 <= k < c ==> a[r, k] == inp[4 * k + r]
    {
      a[0, c] := inp[4 * c];
      a[1, c] := inp[4 * c + 1];
      a[2, c] := inp[4 * c + 2];
      a[3, c] := inp[4 * c + 3];
    }
    ValIs(a, inp);
  }

  method ReadState(a: array2<Byte>) returns (out: Block)
    requires Square(a)
    ensures out == Val(a)
  {
    var o: seq<Byte> := [];
    for c := 0 to 4
      invariant |o| == 4 * c && forall k :: 0 <= k < 4 * c ==> o[k] == Val(a)[k]
    {
      ValIndex(a, 0, c);
      ValIndex(a, 1, c);
      ValIndex(a, 2, c);
      ValIndex(a, 3, c);
      o := o + [a[0, c], a[1, c], a[2, c], a[3, c]];
    }
    out := o;
  }

  method SetColumn(a: array2<Byte>, c: nat, m: seq<Byte>)
    requires Square(a) && c < 4 && |m| == 4
    modifies a
    ensures forall r :: 0 <= r < 4 ==> a[r, c] == m[r]
    ensures forall r, j :: 0 <= r < 4 && 0 <= j < 4 && j != c ==> a[r, j] == old(a[r, j])
  {
    a[0, c] := m[0];
    a[1, c] := m[1];
    a[2, c] := m[2];
    a[3, c] := m[3];
  }

  method SetRow(a: array2<Byte>, r: nat, m: seq<Byte>)
    requires Square(a) && r < 4 && |m| == 4
    modifies a
    ensures forall c :: 0 <= c < 4 ==> a[r, c] == m[c]
    ensures forall i, c :: 0 <= i < 4 && 0 <= c < 4 && i != r ==> a[i, c] == old(a[i, c])
  {
    a[r, 0] := m[0];
    a[r, 1] := m[1];
    a[r, 2] := m[2];
    a[r, 3] := m[3];
  }

  /** Columns below c are those of t, the others still those of b. */
  ghost predicate Columns(a: array2<Byte>, t: Block, b: Block, c: nat)
    requires Square(a)
    reads a
  {
    && (forall r, j :: 0 <= r < 4 && 0 <= j < 4 && j < c ==> a[r, j] == t[4 * j + r])
    && (forall r, j :: 0 <= r < 4 && 0 <= j < 4 && c <= j ==> a[r, j] == b[4 * j + r])
  }

  lemma ColumnsStart(a: array2<Byte>, t: Block)
    requires Square(a)
    ensures Columns(a, t, Val(a), 0)
  {
    forall r, j | 0 <= r < 4 && 0 <= j < 4 ensures a[r, j] == Val(a)[4 * j + r] {
      ValIndex(a, r, j);
    }
  }

  lemma ColumnsEnd(a: array2<Byte>, t: Block, b: Block)
    requires Square(a) && Columns(a, t, b, 4)
    ensures Val(a) == t
  {
    ValIs(a, t);
  }

  /** Writes column c of t. */
  method StoreColumn(a: array2<Byte>, c: nat, m: seq<Byte>, ghost t: Block, ghost b: Block)
    requires Square(a) && c < 4 && Columns(a, t, b, c) && m == t[4 * c..4 * c + 4]
    modifies a
    ensures Columns(a, t, b, c + 1)
  {
    SetColumn(a, c, m);
  }

  /** add_round_key. */
  method AddRoundKey(a: array2<Byte>, k: Block)
    requires Square(a)
    modifies a
    ensures Val(a) == AddKey(old(Val(a)), k)
  {
    hide Add, AddKey, Val, Columns;
    ghost var b := Val(a);
    ghost var t := AddKey(b, k);
    ColumnsStart(a, t);
    for c := 0 to 4
      invariant Columns(a, t, b, c)
    {
      ColumnAt(a, t, b, c);
      var m := [Add(a[0, c], k[4 * c]), Add(a[1, c], k[4 * c + 1]), Add(a[2, c], k[4 * c + 2]), Add(a[3, c], k[4 * c + 3])];
      assert m == t[4 * c..4 * c + 4];
      StoreColumn(a, c, m, t, b);
    }
    ColumnsEnd(a, t, b);
  }

  lemma ColumnAt(a: array2<Byte>, t: Block, b: Block, c: nat)
    requires Square(a) && Columns(a, t, b, c) && c < 4
    ensures a[0, c] == b[4 * c] && a[1, c] == b[4 * c + 1] && a[2, c] == b[4 * c + 2] && a[3, c] == b[4 * c + 3]
  {
  }

  /** The cells before (i, j), row by row, are those of t, the others still those of b. */
  ghost predicate Cells(a: array2<Byte>, t: Block, b: Block, i: nat, j: nat)
    requires Square(a)
    reads a
  {
    forall r, c :: 0 <= r < 4 && 0 <= c < 4 ==>
      a[r, c] == if r < i || (r == i && c < j) then t[4 * c + r] else b[4 * c + r]
  }

  method StoreCell(a: array2<Byte>, i: nat, j: nat, x: Byte, ghost t: Block, ghost b: Block)
    requires Square(a) && i < 4 && j < 4 && Cells(a, t, b, i, j) && x == t[4 * j + i]
    modifies a
    ensures Cells(a, t, b, i, j + 1)
  {
    a[i, j] := x;
  }

  lemma CellsStart(a: array2<Byte>, t: Block)
    requires Square(a)
    ensures Cells(a, t, Val(a), 0, 0)
  {
    forall r, c | 0 <= r < 4 && 0 <= c < 4 ensures a[r, c] == Val(a)[4 * c + r] {
      ValIndex(a, r, c);
    }
  }

  lemma CellsRow(a: array2<Byte>, t: Block, b: Block, i: nat)
    requires Square(a) && Cells(a, t, b, i, 4)
    ensures Cells(a, t, b, i + 1, 0)
  {
  }

  lemma CellsEnd(a: array2<Byte>, t: Block, b: Block)
    requires Square(a) && Cells(a, t, b, 4, 0)
    ensures Val(a) == t
  {
    ValIs(a, t);
  }

  lemma CellAt(a: array2<Byte>, t: Block, b: Block, i: nat, j: nat)
    requires Square(a) && Cells(a, t, b, i, j) && i < 4 && j < 4
    ensures a[i, j] == b[4 * j + i]
  {
  }

  /** sub_bytes (inverse: inv_sub_bytes). */
  method SubBytesLoop(a: array2<Byte>, inverse: bool)
    requires Square(a)
    modifies a
    ensures Val(a) == if inverse then InvSubBytes(old(Val(a))) else SubBytes(old(Val(a)))
  {
    hide SubByte, InvSubByte, Val, Cells;
    ghost var b := Val(a);
    ghost var t := if inverse then InvSubBytes(b) else SubBytes(b);
    CellsStart(a, t);
    for i := 0 to 4
      invariant Cells(a, t, b, i, 0)
    {
      for j := 0 to 4
        invariant Cells(a, t, b, i, j)
      {
        CellAt(a, t, b, i, j);
        var x := if inverse then InvSubByte(a[i, j]) else SubByte(a[i, j]);
        StoreCell(a, i, j, x, t, b);
      }
      CellsRow(a, t, b, i);
    }
    CellsEnd(a, t, b);
  }

  /** shift_rows: row r moves r places to the left (inverse: to the right). */
  method ShiftRowsAll(a: array2<Byte>, inverse: bool)
    requires Square(a)
    modifies a
    ensures Val(a) == if inverse then InvShiftRows(old(Val(a))) else ShiftRows(old(Val(a)))
  {
    if inverse {
      SetRow(a, 1, [a[1, 3], a[1, 0], a[1, 1], a[1, 2]]);
      SetRow(a, 2, [a[2, 2], a[2, 3], a[2, 0], a[2, 1]]);
      SetRow(a, 3, [a[3, 1], a[3, 2], a[3, 3], a[3, 0]]);
    } else {
      SetRow(a, 1, [a[1, 1], a[1, 2], a[1, 3], a[1, 0]]);
      SetRow(a, 2, [a[2, 2], a[2, 3], a[2, 0], a[2, 1]]);
      SetRow(a, 3, [a[3, 3], a[3, 0], a[3, 1], a[3, 2]]);
    }
  }

  function MixOne(inverse: bool, a: Byte, b: Byte, c: Byte, d: Byte): (m: seq<Byte>)
    ensures |m| == 4
  {
    if inverse then InvMixColumn(a, b, c, d) else MixColumn(a, b, c, d)
  }

  function MixAny(inverse: bool, b: Block): Block {
    if inverse then InvMixColumns(b) else MixColumns(b)
  }

  lemma MixSlice(inverse: bool, b: Block, c: nat)
    requires c < 4
    ensures MixAny(inverse, b)[4 * c..4 * c + 4] == MixOne(inverse, b[4 * c], b[4 * c + 1], b[4 * c + 2], b[4 * c + 3])
  {
    hide MixColumn, InvMixColumn;
  }

  /** mix_columns (inverse: inv_mix_columns). */
  method MixColumnsLoop(a: array2<Byte>, inverse: bool)
    requires Square(a)
    modifies a
    ensures Val(a) == if inverse then InvMixColumns(old(Val(a))) else MixColumns(old(Val(a)))
  {
    hide MixColumns, InvMixColumns, MixOne, Val, Columns;
    ghost var b := Val(a);
    ghost var t := MixAny(inverse, b);
    ColumnsStart(a, t);
    for c := 0 to 4
      invariant Columns(a, t, b, c)
    {
      ColumnAt(a, t, b, c);
      MixSlice(inverse, b, c);
      var m := MixOne(inverse, a[0, c], a[1, c], a[2, c], a[3, c]);
      StoreColumn(a, c, m, t, b);
    }
    ColumnsEnd(a, t, b);
  }

  // ---------- the key schedule ----------

  predicate KeySize(n: nat) {
    n == 16 || n == 24 || n == 32
  }

  function SubWord(w: Word4): Word4 {
    [SubByte(w[0]), SubByte(w[1]), SubByte(w[2]), SubByte(w[3])]
  }

  function RotWord(w: Word4): Word4 {
    [w[1], w[2], w[3], w[0]]
  }

  function XorWord(a: Word4, b: Word4): Word4 {
    [Add(a[0], b[0]), Add(a[1], b[1]), Add(a[2], b[2]), Add(a[3], b[3])]
  }

  function Rcon(i: nat): Byte
    requires i <= 10
  {
    NumberBits([0x8d, 0x01, 0x02, 0x04, 0x08, 0x10, 0x20, 0x40, 0x80, 0x1b, 0x36][i], 8)
  }

  /** The words of a schedule are wanted up to index 4 * (nk + 7). */
  lemma RconIndex(nk: nat, i: nat)
    requires (nk == 4 || nk == 6 || nk == 8) && nk <= i < 4 * (nk + 7)
    ensures i / nk <= 10
  {
  }

  /** What is added to the word nk places back. */
  function Mask(nk: nat, i: nat, t: Word4): Word4
    requires (nk == 4 || nk == 6 || nk == 8) && nk <= i < 4 * (nk + 7)
  {
    RconIndex(nk, i);
    if i % nk == 0 then XorWord(SubWord(RotWord(t)), [Rcon(i / nk), Zeros(8), Zeros(8), Zeros(8)])
    else if nk == 8 && i % 8 == 4 then SubWord(t)
    else t
  }

  /** Word i of the expanded key (section 5.2 of FIPS 197). */
  ghost function ExpandedWord(key: seq<Byte>, i: nat): Word4
    requires KeySize(|key|) && i < 4 * (|key| / 4 + 7)
    decreases i
  {
    var nk := |key| / 4;
    if i < nk then key[4 * i..4 * i + 4]
    else XorWord(ExpandedWord(key, i - nk), Mask(nk, i, ExpandedWord(key, i - 1)))
  }

  function Joined(w: seq<Word4>, i: nat): Block
    requires 4 * i + 4 <= |w|
  {
    var v: seq<seq<Byte>> := w;
    v[4 * i] + v[4 * i + 1] + v[4 * i + 2] + v[4 * i + 3]
  }

  /** The round keys are the expanded key, four words at a time. */
  ghost predicate Schedule(key: seq<Byte>, ks: seq<Block>)
  {
    && KeySize(|key|) && |ks| == |key| / 4 + 7
    && (forall i, j :: 0 <= i < |ks| && 0 <= j < 4 ==> Part(ks[i], j) == ExpandedWord(key, 4 * i + j))
  }

  /** Word j of a block. */
  function Part(b: Block, j: nat): Word4
    requires j < 4
  {
    b[4 * j..4 * j + 4]
  }

  /** aes_set_encrypt_key. */
  method SetEncryptKey(key: seq<Byte>) returns (ks: Option<seq<Block>>)
    ensures ks.Some? <==> KeySize(|key|)
    ensures ks.Some? ==> Schedule(key, ks.value)
  {
    hide ExpandedWord, Mask, XorWord;
    if !(|key| == 16 || |key| == 24 || |key| == 32) {
      return None;
    }
    var nk := |key| / 4;
    var total := 4 * (nk + 7);
    var w: array<Word4> := new Word4[total](_ => [Zeros(8), Zeros(8), Zeros(8), Zeros(8)]);
    for i := 0 to nk
      invariant forall j :: 0 <= j < i ==> w[j] == ExpandedWord(key, j)
    {
      ExpandedStep(key, i);
      w[i] := key[4 * i..4 * i + 4];
    }
    for i := nk to total
      invariant forall j :: 0 <= j < i ==> w[j] == ExpandedWord(key, j)
    {
      ExpandedStep(key, i);
      var t := ScheduleMask(nk, i, w[i - 1]);
      w[i] := XorWord(w[i - nk], t);
    }
    var out: seq<Block> := [];
    var words: seq<Word4> := w[..];
    assert forall j :: 0 <= j < total ==> words[j] == ExpandedWord(key, j);
    for i := 0 to nk + 7
      invariant |out| == i && forall k :: 0 <= k < i ==> out[k] == Joined(words, k)
    {
      out := out + [Joined(words, i)];
    }
    JoinedSchedule(key, words, out);
    ks := Some(out);
  }

  lemma ExpandedStep(key: seq<Byte>, i: nat)
    requires KeySize(|key|) && i < 4 * (|key| / 4 + 7)
    ensures var nk := |key| / 4;
            ExpandedWord(key, i) == if i < nk then key[4 * i..4 * i + 4]
                                    else XorWord(ExpandedWord(key, i - nk), Mask(nk, i, ExpandedWord(key, i - 1)))
  {
    hide XorWord, Mask;
  }

  /** The branches of the expansion loop. */
  method ScheduleMask(nk: nat, i: nat, w: Word4) returns (t: Word4)
    requires (nk == 4 || nk == 6 || nk == 8) && nk <= i < 4 * (nk + 7)
    ensures t == Mask(nk, i, w)
  {
    hide SubWord, RotWord, XorWord, Rcon;
    RconIndex(nk, i);
    t := w;
    if i % nk == 0 {
      t := RotWord(t);
      t := SubWord(t);
      t := XorWord(t, [Rcon(i / nk), Zeros(8), Zeros(8), Zeros(8)]);
    } else if nk == 8 && i % 8 == 4 {
      t := SubWord(t);
    }
  }

  lemma JoinedSchedule(key: seq<Byte>, w: seq<Word4>, ks: seq<Block>)
    requires KeySize(|key|) && |w| == 4 * (|key| / 4 + 7) && |ks| == |key| / 4 + 7
    requires forall j :: 0 <= j < |w| ==> w[j] == ExpandedWord(key, j)
    requires forall i :: 0 <= i < |ks| ==> ks[i] == Joined(w, i)
    ensures Schedule(key, ks)
  {
    hide ExpandedWord;
    forall i, j | 0 <= i < |ks| && 0 <= j < 4 ensures Part(ks[i], j) == ExpandedWord(key, 4 * i + j) {
      JoinedSlice(w, i, j);
    }
  }

  lemma JoinedSlice(w: seq<Word4>, i: nat, j: nat)
    requires 4 * i + 4 <= |w| && j < 4
    ensures Joined(w, i)[4 * j..4 * j + 4] == w[4 * i + j]
  {
  }

  /** aes_set_decrypt_key: the same round keys backwards. */
  method SetDecryptKey(key: seq<Byte>) returns (ds: Option<seq<Block>>, ghost ks: seq<Block>)
    ensures ds.Some? <==> KeySize(|key|)
    ensures ds.Some? ==> Schedule(key, ks) && Backwards(ks, ds.value)
  {
    hide Schedule;
    var e := SetEncryptKey(key);
    ds, ks := None, [];
    if e.None? {
      return;
    }
    ScheduleSize(key, e.value);
    ks := e.value;
    var n := |e.value| - 1;
    var out: seq<Block> := [];
    for i := 0 to n + 1
      invariant |out| == i && forall k :: 0 <= k < i ==> out[k] == ks[n - k]
    {
      out := out + [e.value[n - i]];
    }
    ds := Some(out);
  }

  lemma ScheduleSize(key: seq<Byte>, ks: seq<Block>)
    requires Schedule(key, ks)
    ensures |ks| == |key| / 4 + 7 && (|ks| == 11 || |ks| == 13 || |ks| == 15)
  {
  }

  /** A key has only one schedule. */
  lemma ScheduleUnique(key: seq<Byte>, ks: seq<Block>, ls: seq<Block>)
    requires Schedule(key, ks) && Schedule(key, ls)
    ensures ks == ls
  {
    hide ExpandedWord;
    forall i | 0 <= i < |ks| ensures ks[i] == ls[i] {
      var a, b := ks[i], ls[i];
      forall k | 0 <= k < 16 ensures a[k] == b[k] {
        var j, r := k / 4, k % 4;
        assert k == 4 * j + r;
        assert Part(a, j) == Part(b, j);
        assert a[k] == a[4 * j..4 * j + 4][r] && b[k] == b[4 * j..4 * j + 4][r];
      }
    }
  }

  // ---------- aes_encrypt and aes_decrypt ----------

  method OneRound(a: array2<Byte>, k: Block)
    requires Square(a)
    modifies a
    ensures Val(a) == AddKey(MixColumns(ShiftRows(SubBytes(old(Val(a))))), k)
  {
    hide SubBytes, ShiftRows, MixColumns, AddKey, Val;
    SubBytesLoop(a, false);
    ShiftRowsAll(a, false);
    MixColumnsLoop(a, false);
    AddRoundKey(a, k);
  }

  /** The last round mixes no columns. */
  method LastRound(a: array2<Byte>, k: Block)
    requires Square(a)
    modifies a
    ensures Val(a) == AddKey(ShiftRows(SubBytes(old(Val(a)))), k)
  {
    hide SubBytes, ShiftRows, AddKey, Val;
    SubBytesLoop(a, false);
    ShiftRowsAll(a, false);
    AddRoundKey(a, k);
  }

  method LastInvRound(a: array2<Byte>, k: Block)
    requires Square(a)
    modifies a
    ensures Val(a) == AddKey(InvSubBytes(InvShiftRows(old(Val(a)))), k)
  {
    hide InvSubBytes, InvShiftRows, AddKey, Val;
    ShiftRowsAll(a, true);
    SubBytesLoop(a, true);
    AddRoundKey(a, k);
  }

  method OneInvRound(a: array2<Byte>, k: Block)
    requires Square(a)
    modifies a
    ensures Val(a) == InvMixColumns(AddKey(InvSubBytes(InvShiftRows(old(Val(a)))), k))
  {
    hide InvSubBytes, InvShiftRows, InvMixColumns, AddKey, Val;
    ShiftRowsAll(a, true);
    SubBytesLoop(a, true);
    AddRoundKey(a, k);
    MixColumnsLoop(a, true);
  }

  method EncryptBlock(ks: seq<Block>, inp: Block) returns (out: Block)
    requires |ks| >= 2
    ensures out == Encrypt(ks, inp)
  {
    hide SubBytes, ShiftRows, MixColumns, AddKey, Round, Val;
    var a := FillState(inp);
    var n := |ks| - 1;
    RoundStart(ks, inp);
    AddRoundKey(a, ks[0]);
    for i := 1 to n
      invariant Val(a) == Round(ks, inp, i - 1)
    {
      RoundStep(ks, inp, i);
      OneRound(a, ks[i]);
    }
    LastRound(a, ks[n]);
    out := ReadState(a);
  }

  lemma RoundStart(ks: seq<Block>, b: Block)
    requires |ks| > 0
    ensures Round(ks, b, 0) == AddKey(b, ks[0])
  {
    hide AddKey;
  }

  method DecryptBlock(ks: seq<Block>, inp: Block) returns (out: Block)
    requires |ks| >= 2
    ensures out == Decrypt(ks, inp)
  {
    hide InvSubBytes, InvShiftRows, InvMixColumns, AddKey, InvRound, Val;
    var a := FillState(inp);
    var n := |ks| - 1;
    InvRoundStart(ks, inp);
    AddRoundKey(a, ks[0]);
    for i := 1 to n
      invariant Val(a) == InvRound(ks, inp, i - 1)
    {
      InvRoundStep(ks, inp, i);
      OneInvRound(a, ks[i]);
    }
    LastInvRound(a, ks[n]);
    out := ReadState(a);
  }

  /** For all three key sizes and every block, from the key bytes to the plaintext again. */
  method RoundTrip(key: seq<Byte>, b: Block) returns (ok: bool, c: Block, back: Block)
    ensures ok <==> KeySize(|key|)
    ensures ok ==> back == b
  {
    hide Schedule, Encrypt, Decrypt;
    c, back := b, b;
    ok := false;
    var e := SetEncryptKey(key);
    ghost var ks;
    var d;
    d, ks := SetDecryptKey(key);
    if e.Some? && d.Some? {
      ScheduleUnique(key, e.value, ks);
      ScheduleSize(key, ks);
      c := EncryptBlock(e.value, b);
      back := DecryptBlock(d.value, c);
      DecryptInverts(ks, d.value, b);
      ok := true;
    }
  }
}
