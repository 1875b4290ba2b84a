/** CBC, CTR and GCM over AES, src/aes_modes.c. */
module AesModes {
  import opened Common
  import opened Modular
  import opened Polynomials
  import opened Gf128
  import opened Aes
  import G = Ghash

  // ---------- CBC ----------

  /** The first whole block of a byte string. */
  function First(d: seq<Byte>): Block
    requires |d| >= 16
  {
    d[..16]
  }

  lemma WholeBlocks(d: seq<Byte>)
    requires |d| % 16 == 0 && d != []
    ensures |d| >= 16 && |d[16..]| == |d| - 16 && (|d| - 16) % 16 == 0
  {
  }

  function Bytes(b: Block): (d: seq<Byte>)
    ensures |d| == 16 && d == b
  {
    b
  }

  function CbcEncrypt(ks: seq<Block>, iv: Block, d: seq<Byte>): (c: seq<Byte>)
    requires |ks| >= 2 && |d| % 16 == 0
    ensures |c| == |d|
    decreases |d|
  {
    hide CbcBlock;
    if d == [] then [] else WholeBlocks(d); Bytes(CbcBlock(ks, iv, d)) + CbcEncrypt(ks, CbcBlock(ks, iv, d), d[16..])
  }

  /** One step of the chain. */
  function CbcBlock(ks: seq<Block>, iv: Block, d: seq<Byte>): Block
    requires |ks| >= 2 && |d| >= 16
  {
    Encrypt(ks, AddKey(First(d), iv))
  }

  function CbcDecrypt(ds: seq<Block>, iv: Block, c: seq<Byte>): (d: seq<Byte>)
    requires |ds| >= 2 && |c| % 16 == 0
    ensures |d| == |c|
    decreases |c|
  {
    hide Decrypt, AddKey;
    if c == [] then []
    else Bytes(AddKey(Decrypt(ds, First(c)), iv)) + CbcDecrypt(ds, First(c), c[16..])
  }

  /** aes_cbc_decrypt inverts aes_cbc_encrypt on any number of blocks. */
  lemma {:induction false} CbcInverts(ks: seq<Block>, ds: seq<Block>, iv: Block, d: seq<Byte>)
    requires |ks| >= 2 && Backwards(ks, ds) && |d| % 16 == 0
    ensures CbcDecrypt(ds, iv, CbcEncrypt(ks, iv, d)) == d
    decreases |d|
  {
    hide Encrypt, Decrypt, AddKey;
    if d != [] {
      var c := Encrypt(ks, AddKey(First(d), iv));
      var rest := CbcEncrypt(ks, c, d[16..]);
      CbcInverts(ks, ds, c, d[16..]);
      DecryptInverts(ks, ds, AddKey(First(d), iv));
      AddKeyTwice(First(d), iv);
      var whole := Bytes(c) + rest;
      assert First(whole) == c && whole[16..] == rest;
      assert d == Bytes(First(d)) + d[16..];
    }
  }

  /** The chaining value after the blocks of d. */
  function CbcLast(iv: Block, c: seq<Byte>): Block
    requires |c| % 16 == 0
  {
    if c == [] then iv else c[|c| - 16..]
  }

  lemma {:induction false} CbcConcat(ks: seq<Block>, iv: Block, a: seq<Byte>, b: seq<Byte>)
    requires |ks| >= 2 && |a| % 16 == 0 && |b| % 16 == 0
    ensures CbcEncrypt(ks, iv, a + b)
         == CbcEncrypt(ks, iv, a) + CbcEncrypt(ks, CbcLast(iv, CbcEncrypt(ks, iv, a)), b)
    decreases |a|
  {
    hide Encrypt, AddKey;
    if a == [] {
      assert a + b == b;
    } else {
      var c := Encrypt(ks, AddKey(First(a), iv));
      var rest := CbcEncrypt(ks, c, a[16..]);
      CbcConcat(ks, c, a[16..], b);
      assert (a + b)[..16] == a[..16] && (a + b)[16..] == a[16..] + b;
      LastOfConcat(iv, c, rest);
      var t := CbcEncrypt(ks, CbcLast(c, rest), b);
      assert Bytes(c) + (rest + t) == (Bytes(c) + rest) + t;
    }
  }

  lemma LastOfConcat(iv: Block, c: Block, rest: seq<Byte>)
    requires |rest| % 16 == 0
    ensures CbcLast(iv, Bytes(c) + rest) == CbcLast(c, rest)
  {
    var whole := Bytes(c) + rest;
    if rest == [] {
      assert whole == Bytes(c);
    } else {
      assert whole[|whole| - 16..] == rest[|rest| - 16..];
    }
  }

  lemma {:induction false} CbcDecryptConcat(ds: seq<Block>, iv: Block, a: seq<Byte>, b: seq<Byte>)
    requires |ds| >= 2 && |a| % 16 == 0 && |b| % 16 == 0
    ensures CbcDecrypt(ds, iv, a + b) == CbcDecrypt(ds, iv, a) + CbcDecrypt(ds, CbcLast(iv, a), b)
    decreases |a|
  {
    hide Decrypt, AddKey;
    if a == [] {
      assert a + b == b;
    } else {
      var p := AddKey(Decrypt(ds, First(a)), iv);
      CbcDecryptConcat(ds, First(a), a[16..], b);
      assert (a + b)[..16] == a[..16] && (a + b)[16..] == a[16..] + b;
      assert a == Bytes(First(a)) + a[16..];
      LastOfConcat(iv, First(a), a[16..]);
      var x, y := CbcDecrypt(ds, First(a), a[16..]), CbcDecrypt(ds, CbcLast(First(a), a[16..]), b);
      assert Bytes(p) + (x + y) == (Bytes(p) + x) + y;
    }
  }

  /** aes_cbc_encrypt. */
  method CbcEncryptLoop(ks: seq<Block>, iv: Block, inp: seq<Byte>) returns (out: seq<Byte>)
    requires |ks| >= 2 && |inp| % 16 == 0
    ensures out == CbcEncrypt(ks, iv, inp)
  {
    hide Encrypt, AddKey;
    out := [];
    var v, rest := iv, inp;
    while |rest| > 0
      invariant |rest| % 16 == 0 && out + CbcEncrypt(ks, v, rest) == CbcEncrypt(ks, iv, inp)
      decreases |rest|
    {
      var b := First(rest);
      var c := EncryptBlock(ks, AddKey(b, v));
      ghost var t := CbcEncrypt(ks, c, rest[16..]);
      assert out + (Bytes(c) + t) == (out + Bytes(c)) + t;
      out := out + Bytes(c);
      v := c;
      rest := rest[16..];
    }
    assert out + [] == out;
  }

  /** aes_cbc_decrypt. */
  method CbcDecryptLoop(ds: seq<Block>, iv: Block, inp: seq<Byte>) returns (out: seq<Byte>)
    requires |ds| >= 2 && |inp| % 16 == 0
    ensures out == CbcDecrypt(ds, iv, inp)
  {
    hide Decrypt, AddKey;
    out := [];
    var v, rest := iv, inp;
    while |rest| > 0
      invariant |rest| % 16 == 0 && out + CbcDecrypt(ds, v, rest) == CbcDecrypt(ds, iv, inp)
      decreases |rest|
    {
      var c := First(rest);
      var p := DecryptBlock(ds, c);
      p := AddKey(p, v);
      ghost var t := CbcDecrypt(ds, c, rest[16..]);
      assert out + (Bytes(p) + t) == (out + Bytes(p)) + t;
      out := out + Bytes(p);
      v := c;
      rest := rest[16..];
    }
    assert out + [] == out;
  }

  // ---------- CBC with padding ----------

  function PadByte(n: nat): Byte {
    NumberBits(n, 8)
  }

  function Padding(n: nat): (p: nat)
    ensures 1 <= p <= 16 && (n + p) % 16 == 0
  {
    16 - n % 16
  }

  function Padded(m: seq<Byte>): (d: seq<Byte>)
    ensures |d| % 16 == 0 && |d| >= 16
  {
    m + seq(Padding(|m|), _ => PadByte(Padding(|m|)))
  }

  /** aes_cbc_padding_encrypt: the whole blocks, then the padded last block. */
  method CbcPaddingEncrypt(ks: seq<Block>, iv: Block, inp: seq<Byte>) returns (out: seq<Byte>)
    requires |ks| >= 2
    ensures out == CbcEncrypt(ks, iv, Padded(inp))
  {
    hide CbcEncrypt, PadByte;
    var rem := |inp| % 16;
    var padding := 16 - rem;
    var whole := inp[..|inp| - rem];
    var block: Block := inp[|inp| - rem..] + seq(padding, _ => PadByte(padding));
    assert Padded(inp) == whole + block;
    CbcConcat(ks, iv, whole, block);
    var v := iv;
    out := [];
    if |inp| / 16 != 0 {
      out := CbcEncryptLoop(ks, iv, whole);
      v := out[|out| - 16..];
    } else {
      NoBlocks(ks, iv, whole);
    }
    var last := CbcEncryptLoop(ks, v, block);
    out := out + last;
  }

  lemma NoBlocks(ks: seq<Block>, iv: Block, d: seq<Byte>)
    requires |ks| >= 2 && d == []
    ensures CbcEncrypt(ks, iv, d) == [] && CbcLast(iv, d) == iv
  {
  }

  /** What aes_cbc_padding_decrypt returns; only the last byte of the padding is looked at. */
  function Unpadded(d: seq<Byte>): Option<seq<Byte>>
    requires |d| >= 16
  {
    var p := ToInt(d[|d| - 1]);
    if p < 1 || p > 16 then None else Some(d[..|d| - p])
  }

  method CbcPaddingDecrypt(ds: seq<Block>, iv: Block, inp: seq<Byte>) returns (out: Option<seq<Byte>>)
    requires |ds| >= 2
    ensures inp == [] || |inp| % 16 != 0 ==> out.None?
    ensures inp != [] && |inp| % 16 == 0 ==> out == Unpadded(CbcDecrypt(ds, iv, inp))
  {
    hide CbcDecrypt, ToInt;
    if |inp| == 0 {
      return None;
    }
    if |inp| % 16 != 0 || |inp| < 16 {
      return None;
    }
    var head, tail := inp[..|inp| - 16], inp[|inp| - 16..];
    assert inp == head + tail;
    CbcDecryptConcat(ds, iv, head, tail);
    var v := iv;
    var body: seq<Byte> := [];
    if |inp| > 16 {
      body := CbcDecryptLoop(ds, iv, head);
      v := inp[|inp| - 32..|inp| - 16];
      assert v == CbcLast(iv, head);
    } else {
      NothingDecrypted(ds, iv, head);
    }
    var block := CbcDecryptLoop(ds, v, tail);
    ghost var whole := CbcDecrypt(ds, iv, inp);
    assert whole == body + block;
    var padding := ToInt(block[15]);
    if padding < 1 || padding > 16 {
      return None;
    }
    assert (body + block)[..|inp| - padding] == body + block[..16 - padding];
    out := Some(body + block[..16 - padding]);
  }

  lemma NothingDecrypted(ds: seq<Block>, iv: Block, c: seq<Byte>)
    requires |ds| >= 2 && c == []
    ensures CbcDecrypt(ds, iv, c) == []
  {
  }

  lemma PadByteValue(n: nat)
    requires n <= 16
    ensures ToInt(PadByte(n)) == n
  {
    EightBits();
    BitsOfInt(n, 8);
  }

  /** Padded CBC round-trips a message of any length. */
  lemma CbcPaddingRoundTrip(ks: seq<Block>, ds: seq<Block>, iv: Block, m: seq<Byte>)
    requires |ks| >= 2 && Backwards(ks, ds)
    ensures Unpadded(CbcDecrypt(ds, iv, CbcEncrypt(ks, iv, Padded(m)))) == Some(m)
  {
    hide CbcEncrypt, CbcDecrypt, ToInt, PadByte;
    var d := Padded(m);
    CbcInverts(ks, ds, iv, d);
    PadByteValue(Padding(|m|));
    assert d[|d| - 1] == PadByte(Padding(|m|));
    assert d[..|d| - Padding(|m|)] == m;
  }

  // ---------- counters ----------

  function ByteInc(b: Byte): Byte {
    NumberBits((ToInt(b) + 1) % 256, 8)
  }

  /** The big-endian number in a byte string. */
  function Number(d: seq<Byte>): nat {
    if d == [] then 0 else Number(d[..|d| - 1]) * 256 + ToInt(d[|d| - 1])
  }

  function Two8(k: nat): nat {
    if k == 0 then 1 else 256 * Two8(k - 1)
  }

  /** Adding one with carries from the last byte, within the bytes of d. */
  function Increment(d: seq<Byte>): (r: seq<Byte>)
    ensures |r| == |d|
  {
    if d == [] then []
    else
      var l := ByteInc(d[|d| - 1]);
      if ToInt(l) != 0 then d[..|d| - 1] + [l] else Increment(d[..|d| - 1]) + [l]
  }

  lemma ByteIncValue(b: Byte)
    ensures ToInt(b) < 256 && ToInt(ByteInc(b)) == (ToInt(b) + 1) % 256
  {
    hide ToInt, NumberBits;
    EightBits();
    IntOfBits(b);
    BitsOfInt((ToInt(b) + 1) % 256, 8);
  }

  /** The counter is incremented modulo 2^(8k). */
  lemma {:induction false} IncrementCounts(d: seq<Byte>)
    ensures Number(d) < Two8(|d|) && Number(Increment(d)) == (Number(d) + 1) % Two8(|d|)
  {
    hide ToInt, ByteInc;
    if d != [] {
      hide Increment, Number, Two8;
      var f, x := d[..|d| - 1], d[|d| - 1];
      IncrementCounts(f);
      ByteIncValue(x);
      IncrementStep(d);
      NumberStep(d);
      var r := Increment(d);
      NumberStep(r);
      var g := if ToInt(ByteInc(x)) != 0 then f else Increment(f);
      assert r[..|d| - 1] == g;
      CountStep(Number(f), ToInt(x), Two8(|f|), ToInt(ByteInc(x)), Number(g));
    }
  }

  lemma CountStep(n: nat, x: nat, t: nat, l: nat, m: nat)
    requires n < t && x < 256 && l == (x + 1) % 256 && m == if l != 0 then n else (n + 1) % t
    ensures n * 256 + x < 256 * t && m * 256 + l == (n * 256 + x + 1) % (256 * t)
  {
    CarryStep(n, x, t);
  }

  lemma NumberStep(d: seq<Byte>)
    requires d != []
    ensures Number(d) == Number(d[..|d| - 1]) * 256 + ToInt(d[|d| - 1]) && Two8(|d|) == 256 * Two8(|d| - 1)
  {
    hide ToInt;
  }

  lemma CarryStep(n: nat, x: nat, t: nat)
    requires n < t && x < 256
    ensures n * 256 + x < 256 * t
    ensures (n * 256 + x + 1) % (256 * t) == if x < 255 then n * 256 + x + 1 else ((n + 1) % t) * 256
  {
    assert (t - 1 - n) * 256 >= 0;
    if x < 255 {
      ModSmall(n * 256 + x + 1, 256 * t);
    } else if n + 1 < t {
      ModSmall(n * 256 + 256, 256 * t);
      ModSmall(n + 1, t);
    } else {
      DivModUnique(256 * t, 256 * t, 1, 0);
      DivModUnique(t, t, 1, 0);
    }
  }

  /** ctr_incr (low = 0) and ctr32_incr (low = 12): in place, stopping at the first byte without carry. */
  method CounterIncrement(a: array<Byte>, low: nat)
    requires a.Length == 16 && low <= 15
    modifies a
    ensures a[..low] == old(a[..low]) && a[low..] == Increment(old(a[low..]))
  {
    hide ByteInc, ToInt, Increment;
    ghost var b := a[..];
    var i := 15;
    ghost var tail: seq<Byte> := [];
    assert b[low..16] == b[low..] && b[low..] == a[low..];
    assert Increment(b[low..16]) + tail == Increment(b[low..]);
    while i >= low
      invariant low - 1 <= i <= 15 && |tail| == 15 - i
      invariant a[..] == b[..i + 1] + tail
      invariant Increment(b[low..]) == Increment(b[low..i + 1]) + tail
    {
      IncrementAt(b, low, i, tail);
      assert a[i] == b[i];
      a[i] := ByteInc(a[i]);
      tail := [a[i]] + tail;
      assert a[..] == b[..i] + tail;
      if ToInt(a[i]) != 0 {
        LowPart(b, low, i, tail);
        assert a[low..] == a[..][low..] && a[..low] == a[..][..low];
        return;
      }
      i := i - 1;
    }
    assert b[low..i + 1] == [];
    NoIncrement();
    LowPart(b, low, low, tail);
    assert a[low..] == a[..][low..] && a[..low] == a[..][..low];
  }

  lemma NoIncrement()
    ensures Increment([]) == []
  {
  }

  lemma LowPart(b: seq<Byte>, low: nat, i: nat, tail: seq<Byte>)
    requires low <= i <= |b| == 16
    ensures (b[..i] + tail)[..low] == b[..low] && (b[..i] + tail)[low..] == b[low..i] + tail
  {
  }

  lemma IncrementAt(b: seq<Byte>, low: nat, i: nat, tail: seq<Byte>)
    requires low <= i < |b|
    ensures var l := ByteInc(b[i]);
            Increment(b[low..i + 1]) + tail
            == if ToInt(l) != 0 then b[low..i] + ([l] + tail) else Increment(b[low..i]) + ([l] + tail)
  {
    hide ByteInc, ToInt, Increment;
    var d := b[low..i + 1];
    IncrementStep(d);
    assert d[..|d| - 1] == b[low..i] && d[|d| - 1] == b[i];
    var l := ByteInc(b[i]);
    assert b[low..i] + [l] + tail == b[low..i] + ([l] + tail);
    assert Increment(b[low..i]) + [l] + tail == Increment(b[low..i]) + ([l] + tail);
  }

  lemma IncrementStep(d: seq<Byte>)
    requires d != []
    ensures var l := ByteInc(d[|d| - 1]);
            Increment(d) == if ToInt(l) != 0 then d[..|d| - 1] + [l] else Increment(d[..|d| - 1]) + [l]
  {
    hide ByteInc, ToInt;
  }

  // ---------- CTR ----------

  function XorBytes(a: seq<Byte>, b: seq<Byte>): (r: seq<Byte>)
    requires |a| <= |b|
    ensures |r| == |a| && forall i :: 0 <= i < |a| ==> r[i] == Add(a[i], b[i])
  {
    seq(|a|, i requires 0 <= i < |a| => Add(a[i], b[i]))
  }

  function Next(ctr: Block, low: nat): Block
    requires low <= 16
  {
    ctr[..low] + Increment(ctr[low..])
  }

  /** The key stream added to m. */
  function Ctr(ks: seq<Block>, ctr: Block, m: seq<Byte>, low: nat): (c: seq<Byte>)
    requires |ks| >= 2 && low <= 16
    ensures |c| == |m|
    decreases |m|
  {
    hide Encrypt, Next;
    if m == [] then []
    else XorBytes(m[..Min(16, |m|)], Bytes(Encrypt(ks, ctr))) + Ctr(ks, Next(ctr, low), m[Min(16, |m|)..], low)
  }

  /** The counter after enough blocks for len bytes. */
  function Advanced(ctr: Block, len: nat, low: nat): Block
    requires low <= 16
    decreases len
  {
    if len == 0 then ctr else Advanced(Next(ctr, low), len - Min(16, len), low)
  }

  lemma XorTwice(a: seq<Byte>, b: seq<Byte>)
    requires |a| <= |b|
    ensures XorBytes(XorBytes(a, b), b) == a
  {
    forall i | 0 <= i < |a| ensures XorBytes(XorBytes(a, b), b)[i] == a[i] {
      AddTwice(a[i], b[i]);
    }
  }

  /** Applying the same key stream twice restores the message. */
  lemma {:induction false} CtrTwice(ks: seq<Block>, ctr: Block, m: seq<Byte>, low: nat)
    requires |ks| >= 2 && low <= 16
    ensures Ctr(ks, ctr, Ctr(ks, ctr, m, low), low) == m
    decreases |m|
  {
    hide Encrypt, Next, XorBytes;
    if m != [] {
      var n, k := Min(16, |m|), Bytes(Encrypt(ks, ctr));
      var x, y := XorBytes(m[..n], k), Ctr(ks, Next(ctr, low), m[n..], low);
      var c := x + y;
      assert Ctr(ks, ctr, m, low) == c && |c| == |m|;
      assert c[..n] == x && c[n..] == y;
      XorTwice(m[..n], k);
      CtrTwice(ks, Next(ctr, low), m[n..], low);
      assert m == m[..n] + m[n..];
    }
  }

  /** aes_ctr_encrypt (low = 0) and aes_ctr32_encrypt (low = 12). */
  method CtrEncrypt(ks: seq<Block>, ctr: array<Byte>, inp: seq<Byte>, low: nat) returns (out: seq<Byte>)
    requires |ks| >= 2 && ctr.Length == 16 && low <= 15
    modifies ctr
    ensures out == Ctr(ks, old(ctr[..]), inp, low) && ctr[..] == Advanced(old(ctr[..]), |inp|, low)
  {
    hide Encrypt, Increment, Ctr, Advanced, XorBytes;
    out := [];
    var rest := inp;
    ghost var all, last := Ctr(ks, ctr[..], inp, low), Advanced(ctr[..], |inp|, low);
    while |rest| > 0
      invariant out + Ctr(ks, ctr[..], rest, low) == all && Advanced(ctr[..], |rest|, low) == last
      decreases |rest|
    {
      var n := if |rest| < 16 then |rest| else 16;
      CtrStep(ks, ctr[..], rest, low);
      var block := EncryptBlock(ks, ctr[..]);
      var x := XorBytes(rest[..n], Bytes(block));
      ghost var was := ctr[..];
      CounterIncrement(ctr, low);
      assert ctr[..] == Next(was, low) by {
        assert ctr[..] == ctr[..low] + ctr[low..];
      }
      ghost var t := Ctr(ks, Next(was, low), rest[n..], low);
      assert out + (x + t) == (out + x) + t;
      out := out + x;
      rest := rest[n..];
    }
    CtrEnd(ks, ctr[..], low);
    assert out + [] == out;
  }

  lemma CtrStep(ks: seq<Block>, ctr: Block, m: seq<Byte>, low: nat)
    requires |ks| >= 2 && low <= 16 && m != []
    ensures var n := if |m| < 16 then |m| else 16;
            && Ctr(ks, ctr, m, low) == XorBytes(m[..n], Bytes(Encrypt(ks, ctr))) + Ctr(ks, Next(ctr, low), m[n..], low)
            && Advanced(ctr, |m|, low) == Advanced(Next(ctr, low), |m[n..]|, low)
  {
    hide Encrypt, Next, XorBytes;
  }

  lemma CtrEnd(ks: seq<Block>, ctr: Block, low: nat)
    requires |ks| >= 2 && low <= 16
    ensures Ctr(ks, ctr, [], low) == [] && Advanced(ctr, 0, low) == ctr
  {
  }

  // ---------- GCM ----------

  /** ghash as a function from bytes to bytes. */
  function GhashBytes(h: Block, aad: seq<Byte>, c: seq<Byte>): Block {
    BlockOf(G.Value(Element(h), aad, c))
  }

  method GhashCall(h: Block, aad: seq<Byte>, c: seq<Byte>) returns (out: Block)
    ensures out == GhashBytes(h, aad, c)
  {
    hide Element, BlockOf, G.Value;
    out := G.OneShot(h, aad, c);
    BlockOfElement(G.Value(Element(h), aad, c));
    ElementInjective(out, GhashBytes(h, aad, c));
  }

  function ZeroBlock(): Block {
    G.PadBlock([])
  }

  function HashKey(ks: seq<Block>): Block
    requires |ks| >= 2
  {
    Encrypt(ks, ZeroBlock())
  }

  /** The first counter: the 96-bit IV with counter one, or the hash of any other IV. */
  function FirstCounter(ks: seq<Block>, iv: seq<Byte>): Block
    requires |ks| >= 2
  {
    if |iv| == 12 then iv + [G.ZeroByte(), G.ZeroByte(), G.ZeroByte(), PadByte(1)] else GhashBytes(HashKey(ks), [], iv)
  }

  function GcmText(ks: seq<Block>, iv: seq<Byte>, m: seq<Byte>): (c: seq<Byte>)
    requires |ks| >= 2
    ensures |c| == |m|
  {
    Ctr(ks, Next(FirstCounter(ks, iv), 12), m, 12)
  }

  function GcmTag(ks: seq<Block>, iv: seq<Byte>, aad: seq<Byte>, c: seq<Byte>): Block
    requires |ks| >= 2
  {
    AddKey(Encrypt(ks, FirstCounter(ks, iv)), GhashBytes(HashKey(ks), aad, c))
  }

  method StartCounter(ks: seq<Block>, h: Block, iv: seq<Byte>) returns (y: array<Byte>)
    requires |ks| >= 2 && h == HashKey(ks)
    ensures fresh(y) && y.Length == 16 && y[..] == FirstCounter(ks, iv)
  {
    hide GhashBytes, HashKey, PadByte;
    var b: Block;
    if |iv| == 12 {
      b := iv + [G.ZeroByte(), G.ZeroByte(), G.ZeroByte(), PadByte(1)];
    } else {
      b := GhashCall(h, [], iv);
    }
    y := new Byte[16](i requires 0 <= i < 16 => b[i]);
    assert y[..] == b;
  }

  /** aes_gcm_encrypt. */
  method GcmEncrypt(ks: seq<Block>, iv: seq<Byte>, aad: seq<Byte>, inp: seq<Byte>, taglen: nat)
    returns (r: Option<(seq<Byte>, seq<Byte>)>)
    requires |ks| >= 2
    ensures r.None? <==> taglen > 16
    ensures r.Some? ==> r.value.0 == GcmText(ks, iv, inp) && r.value.1 == Bytes(GcmTag(ks, iv, aad, r.value.0))[..taglen]
  {
    hide Encrypt, GhashBytes, FirstCounter, Ctr, AddKey, Increment, Advanced;
    if taglen > 16 {
      return None;
    }
    var h := EncryptBlock(ks, ZeroBlock());
    var y := StartCounter(ks, h, iv);
    ghost var y0 := y[..];
    var t := EncryptBlock(ks, y[..]);
    CounterIncrement(y, 12);
    assert y[..] == Next(y0, 12) by { assert y[..] == y[..12] + y[12..]; }
    var out := CtrEncrypt(ks, y, inp, 12);
    h := GhashCall(h, aad, out);
    r := Some((out, Bytes(AddKey(t, h))[..taglen]));
  }

  /** aes_gcm_decrypt: accepts exactly the tag of this ciphertext. */
  method GcmDecrypt(ks: seq<Block>, iv: seq<Byte>, aad: seq<Byte>, inp: seq<Byte>, tag: seq<Byte>)
    returns (r: Option<seq<Byte>>)
    requires |ks| >= 2 && |tag| <= 16
    ensures r.Some? <==> tag == Bytes(GcmTag(ks, iv, aad, inp))[..|tag|]
    ensures r.Some? ==> r.value == GcmText(ks, iv, inp)
  {
    hide Encrypt, GhashBytes, FirstCounter, Ctr, AddKey, Increment, Advanced;
    var h := EncryptBlock(ks, ZeroBlock());
    var y := StartCounter(ks, h, iv);
    ghost var y0 := y[..];
    h := GhashCall(h, aad, inp);
    var t := EncryptBlock(ks, y[..]);
    if Bytes(AddKey(t, h))[..|tag|] != tag {
      return None;
    }
    CounterIncrement(y, 12);
    assert y[..] == Next(y0, 12) by { assert y[..] == y[..12] + y[12..]; }
    var out := CtrEncrypt(ks, y, inp, 12);
    r := Some(out);
  }

  /** Every output of aes_gcm_encrypt is accepted and inverted, for any IV length, additional data
      and tag length. */
  method GcmRoundTrip(ks: seq<Block>, iv: seq<Byte>, aad: seq<Byte>, m: seq<Byte>, taglen: nat)
    returns (sealed: Option<(seq<Byte>, seq<Byte>)>, plain: Option<seq<Byte>>)
    requires |ks| >= 2
    ensures sealed.Some? <==> taglen <= 16
    ensures sealed.Some? ==> plain == Some(m)
  {
    hide GcmTag, FirstCounter, Ctr, Next;
    sealed := GcmEncrypt(ks, iv, aad, m, taglen);
    plain := None;
    if sealed.Some? {
      CtrTwice(ks, Next(FirstCounter(ks, iv), 12), m, 12);
      plain := GcmDecrypt(ks, iv, aad, sealed.value.0, sealed.value.1);
    }
  }
}
