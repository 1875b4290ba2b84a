/** DER lengths, tagged values, integers and SM2 signatures: src/asn1.c and the signature codec of
    src/sm2_sign.c (sections 8.3 and 10.1 of ITU-T X.690). */
module Asn1 {

  import opened Common

  const TAG_INTEGER: byte := 2
  const TAG_SEQUENCE: byte := 0x30

  /** What a reader returns: 1 with the value and the rest of the input, 0 when the tag is not
      there, or an error. */
  datatype Read<T> = Got(value: T, rest: seq<byte>) | Absent | Bad

  // ---------- lengths ----------

  function LenBytes(len: nat): (n: nat)
    ensures 1 <= n <= 4
  {
    if len < 0x100 then 1 else if len < 0x1_0000 then 2 else if len < 0x100_0000 then 3 else 4
  }

  /** PUTU32. */
  function BigEndian(len: nat): (b: seq<byte>)
    requires len < 0x1_0000_0000
    ensures |b| == 4
  {
    [len / 0x100_0000, len / 0x1_0000 % 256, len / 0x100 % 256, len % 256]
  }

  function Length(len: nat): (b: seq<byte>)
    requires len <= INT_MAX
    ensures 1 <= |b| <= 5
  {
    if len < 128 then [len] else [0x80 + LenBytes(len)] + BigEndian(len)[4 - LenBytes(len)..]
  }

  /** GETU32 of up to four bytes, right-aligned in a cleared buffer. */
  function FromBytes(b: seq<byte>): (v: nat)
    requires |b| <= 4
    ensures v < 0x1_0000_0000
  {
    var p := Padded(b);
    Word(p[0], p[1], p[2], p[3])
  }

  function Padded(b: seq<byte>): (p: seq<byte>)
    requires |b| <= 4
    ensures |p| == 4
  {
    [0, 0, 0, 0][|b|..] + b
  }

  function Word(a: int, b: int, c: int, d: int): (v: int)
    ensures 0 <= a < 256 && 0 <= b < 256 && 0 <= c < 256 && 0 <= d < 256 ==> 0 <= v < 0x1_0000_0000
  {
    a * 0x100_0000 + b * 0x1_0000 + c * 0x100 + d
  }

  lemma WordDigits(p: seq<byte>)
    requires |p| == 4
    ensures BigEndian(Word(p[0], p[1], p[2], p[3])) == p
  {
    var v := Word(p[0], p[1], p[2], p[3]);
    TopDigit(p[0], p[1], p[2], p[3]);
    var b := BigEndian(v);
    assert b[0] == p[0] && b[1] == p[1] && b[2] == p[2] && b[3] == p[3];
  }

  lemma TopDigit(a: int, b: int, c: int, d: int)
    requires 0 <= a < 256 && 0 <= b < 256 && 0 <= c < 256 && 0 <= d < 256
    ensures var v := Word(a, b, c, d);
            v / 0x100_0000 == a && v / 0x1_0000 == a * 256 + b && v / 0x100 == (a * 256 + b) * 256 + c && v % 256 == d
            && v / 0x1_0000 % 256 == b && v / 0x100 % 256 == c
  {
  }

  /** asn1_length_from_der, including the test that the contents are present. */
  function ReadLength(s: seq<byte>): Option<(nat, seq<byte>)> {
    if s == [] then None
    else if s[0] < 128 then Checked(s[0], s[1..])
    else
      var n := s[0] - 128;
      var t := s[1..];
      if n < 1 || n > 4 || |t| < n || (n == 1 && t[0] < 0x80) || (n > 1 && t[0] == 0) then None
      else Checked(FromBytes(t[..n]), t[n..])
  }

  function Checked(len: nat, rest: seq<byte>): Option<(nat, seq<byte>)> {
    if |rest| < len then None else Some((len, rest))
  }

  lemma BytesOfLength(len: nat)
    requires 128 <= len <= INT_MAX
    ensures var n := LenBytes(len); var b := BigEndian(len)[4 - n..];
            |b| == n && FromBytes(b) == len && (n == 1 ==> b[0] >= 0x80) && (n > 1 ==> b[0] != 0)
  {
    var n, p := LenBytes(len), BigEndian(len);
    DigitsOf(len);
    assert forall i :: 0 <= i < 4 - n ==> p[i] == 0;
    assert Padded(p[4 - n..]) == p;
  }

  lemma DigitsOf(len: nat)
    requires len < 0x1_0000_0000
    ensures var p := BigEndian(len); Word(p[0], p[1], p[2], p[3]) == len
  {
    var a, b, c := len / 0x100_0000, len / 0x1_0000, len / 0x100;
    assert a == b / 256 && b == c / 256 && c == len / 256;
  }

  /** Decoding inverts encoding, whatever follows. */
  lemma LengthRoundTrip(len: nat, rest: seq<byte>)
    requires len <= INT_MAX
    ensures ReadLength(Length(len) + rest) == Checked(len, rest)
  {
    var s := Length(len) + rest;
    if len < 128 {
      assert s[1..] == rest;
    } else {
      var n := LenBytes(len);
      var b := BigEndian(len)[4 - n..];
      hide BigEndian, FromBytes, LenBytes;
      BytesOfLength(len);
      assert s == [0x80 + n] + b + rest;
      var t := s[1..];
      assert t == b + rest;
      assert t[..n] == b && t[n..] == rest;
      assert t[0] == b[0];
    }
  }

  lemma LengthOfBytes(b: seq<byte>)
    requires 1 <= |b| <= 4 && (|b| == 1 ==> b[0] >= 0x80) && (|b| > 1 ==> b[0] != 0)
    ensures var v := FromBytes(b); v >= 128 && LenBytes(v) == |b| && BigEndian(v)[4 - |b|..] == b
  {
    var v, n, p := FromBytes(b), |b|, Padded(b);
    WordDigits(p);
    assert p[4 - n..] == b;
    assert p[4 - n] == b[0] && forall i :: 0 <= i < 4 - n ==> p[i] == 0;
    TopDigit(p[0], p[1], p[2], p[3]);
  }

  /** Canonicity: an accepted length that the encoder can write re-encodes to the bytes consumed. */
  lemma LengthCanonical(s: seq<byte>)
    requires ReadLength(s).Some? && ReadLength(s).value.0 <= INT_MAX
    ensures s == Length(ReadLength(s).value.0) + ReadLength(s).value.1
  {
    if s[0] < 128 {
      assert s == [s[0]] + s[1..];
    } else {
      var n := s[0] - 128;
      var t := s[1..];
      hide BigEndian, FromBytes, LenBytes;
      LengthOfBytes(t[..n]);
      assert s == [s[0]] + t[..n] + t[n..];
    }
  }

  // ---------- tagged values ----------

  /** The callers ignore a refused length: nothing is written for it. */
  function LengthIfFits(len: nat): seq<byte> {
    if len > INT_MAX then [] else Length(len)
  }

  function Tagged(tag: byte, d: seq<byte>): seq<byte> {
    [tag] + LengthIfFits(|d|) + d
  }

  /** asn1_type_from_der. */
  function ReadTagged(tag: byte, s: seq<byte>): Read<seq<byte>> {
    if s == [] || s[0] != tag then Absent
    else match ReadLength(s[1..])
      case None => Bad
      case Some(r) => Got(r.1[..r.0], r.1[r.0..])
  }

  lemma TaggedRoundTrip(tag: byte, d: seq<byte>, rest: seq<byte>)
    requires |d| <= INT_MAX
    ensures ReadTagged(tag, Tagged(tag, d) + rest) == Got(d, rest)
  {
    hide Length, ReadLength;
    var s := Tagged(tag, d) + rest;
    assert s[1..] == Length(|d|) + (d + rest);
    LengthRoundTrip(|d|, d + rest);
  }

  lemma TaggedCanonical(tag: byte, s: seq<byte>)
    requires ReadTagged(tag, s).Got? && |ReadTagged(tag, s).value| <= INT_MAX
    ensures s == Tagged(tag, ReadTagged(tag, s).value) + ReadTagged(tag, s).rest
  {
    hide Length, ReadLength;
    LengthFits(s[1..]);
    LengthCanonical(s[1..]);
    var r := ReadLength(s[1..]).value;
    assert s == [tag] + s[1..];
    assert r.1 == r.1[..r.0] + r.1[r.0..];
  }

  lemma LengthFits(s: seq<byte>)
    requires ReadLength(s).Some?
    ensures ReadLength(s).value.0 <= |ReadLength(s).value.1|
  {
  }

  // ---------- integers ----------

  /** Leading zeros removed, keeping at least one byte. */
  function Strip(a: seq<byte>): (r: seq<byte>)
    ensures a != [] ==> r != []
    ensures |r| <= |a|
  {
    if |a| > 1 && a[0] == 0 then Strip(a[1..]) else a
  }

  function Number(a: seq<byte>): nat {
    if a == [] then 0 else Number(a[..|a| - 1]) * 256 + a[|a| - 1]
  }

  /** Stripping keeps the number. */
  lemma {:induction false} StripValue(a: seq<byte>)
    ensures Number(Strip(a)) == Number(a)
  {
    if |a| > 1 && a[0] == 0 {
      StripValue(a[1..]);
      LeadingZero(a);
    }
  }

  lemma {:induction false} LeadingZero(a: seq<byte>)
    requires |a| > 1 && a[0] == 0
    ensures Number(a[1..]) == Number(a)
  {
    var b := a[..|a| - 1];
    assert a[1..][..|a| - 2] == b[1..];
    if |a| > 2 {
      LeadingZero(b);
    } else {
      assert b == [0] && b[..0] == [] && b[1..] == [];
    }
  }

  /** The content octets: a zero is put before a byte with the top bit set. */
  function Body(a: seq<byte>): (r: seq<byte>)
    requires a != []
    ensures r != [] && |a| <= |r| <= |a| + 1
  {
    if a[0] >= 0x80 then [0] + a else a
  }

  function Integer(tag: byte, a: seq<byte>): seq<byte>
    requires a != []
  {
    Tagged(tag, Body(Strip(a)))
  }

  /** asn1_integer_from_der_ex. */
  function ReadInteger(tag: byte, s: seq<byte>): Read<seq<byte>> {
    match ReadTagged(tag, s)
    case Absent => Absent
    case Bad => Bad
    case Got(d, rest) =>
      if d == [] || d[0] >= 0x80 then Bad
      else if d[0] == 0 && |d| > 1 then
        if d[1] < 0x80 then Bad else Got(d[1..], rest)
      else Got(d, rest)
  }

  /** Minimal unsigned byte strings: what the reader returns. */
  predicate Minimal(a: seq<byte>) {
    a != [] && (a[0] == 0 ==> |a| == 1)
  }

  lemma {:induction false} StripMinimal(a: seq<byte>)
    requires a != []
    ensures Minimal(Strip(a)) && (Minimal(a) ==> Strip(a) == a)
  {
    if |a| > 1 && a[0] == 0 {
      StripMinimal(a[1..]);
    }
  }

  /** Decoding an encoded integer gives it back without leading zeros, exactly when its content
      octets are not one more than the longest length that can be written. */
  lemma IntegerRoundTrip(tag: byte, a: seq<byte>, rest: seq<byte>)
    requires 0 < |a| <= INT_MAX
    ensures ReadInteger(tag, Integer(tag, a) + rest) == Got(Strip(a), rest) <==> |Body(Strip(a))| <= INT_MAX
  {
    hide Length, ReadLength, LengthIfFits, Tagged, ReadTagged, Strip;
    var m := Strip(a);
    StripMinimal(a);
    var b := Body(m);
    if |b| <= INT_MAX {
      TaggedRoundTrip(tag, b, rest);
      assert m[0] >= 0x80 ==> b[1..] == m && b[1] == m[0];
    } else {
      assert b == [0] + m;
      MissingLength(tag, b, rest);
    }
  }

  /** Without length octets the padding zero is read as the length. */
  lemma MissingLength(tag: byte, b: seq<byte>, rest: seq<byte>)
    requires |b| == INT_MAX + 1 && b[0] == 0
    ensures ReadInteger(tag, Tagged(tag, b) + rest) == Bad
  {
    hide Length;
    var s := Tagged(tag, b) + rest;
    assert s == [tag] + (b + rest);
    assert s[1..] == b + rest;
    ZeroLength(b + rest);
  }

  lemma ZeroLength(s: seq<byte>)
    requires s != [] && s[0] == 0
    ensures ReadLength(s) == Some((0, s[1..]))
  {
    assert ReadLength(s) == Checked(0, s[1..]);
    assert |s[1..]| >= 0;
  }

  /** An accepted integer re-encodes to exactly the bytes consumed. */
  lemma IntegerCanonical(tag: byte, s: seq<byte>)
    requires ReadInteger(tag, s).Got? && |Body(ReadInteger(tag, s).value)| <= INT_MAX
    ensures Minimal(ReadInteger(tag, s).value)
    ensures s == Integer(tag, ReadInteger(tag, s).value) + ReadInteger(tag, s).rest
  {
    hide Length, ReadLength, LengthIfFits, Tagged, ReadTagged, Strip;
    var d, v := ReadTagged(tag, s).value, ReadInteger(tag, s).value;
    StripMinimal(v);
    assert Body(v) == d;
    TaggedCanonical(tag, s);
  }

  // ---------- SM2 signatures ----------

  function SignatureBytes(r: seq<byte>, t: seq<byte>): seq<byte>
    requires |r| == 32 && |t| == 32
  {
    Tagged(TAG_SEQUENCE, Integer(TAG_INTEGER, r) + Integer(TAG_INTEGER, t))
  }

  function Pad32(a: seq<byte>): (p: seq<byte>)
    requires |a| <= 32
    ensures |p| == 32
  {
    seq(32 - |a|, _ => 0) + a
  }

  /** sm2_signature_from_der. */
  function ReadSignature(s: seq<byte>): Read<(seq<byte>, seq<byte>)> {
    match ReadTagged(TAG_SEQUENCE, s)
    case Absent => Absent
    case Bad => Bad
    case Got(d, rest) =>
      match ReadInteger(TAG_INTEGER, d) {
        case Got(r, d1) => (
          match ReadInteger(TAG_INTEGER, d1) {
            case Got(t, d2) => if |r| <= 32 && |t| <= 32 && d2 == [] then Got((Pad32(r), Pad32(t)), rest) else Bad
            case _ => Bad
          })
        case _ => Bad
      }
  }

  lemma {:induction false} PadStrip(a: seq<byte>)
    requires 0 < |a| <= 32
    ensures Pad32(Strip(a)) == Pad32(a)
  {
    if |a| > 1 && a[0] == 0 {
      PadStrip(a[1..]);
      assert Pad32(a[1..]) == Pad32(a);
    }
  }

  lemma {:induction false} StripPad(a: seq<byte>, z: nat)
    requires Minimal(a)
    ensures Strip(seq(z, _ => 0) + a) == a
  {
    var p := seq(z, _ => 0) + a;
    if z == 0 {
      assert p == a;
      StripMinimal(a);
    } else {
      assert p[1..] == seq(z - 1, _ => 0) + a;
      StripPad(a, z - 1);
    }
  }

  lemma IntegerSize(tag: byte, a: seq<byte>)
    requires 0 < |a| <= 32
    ensures |Body(Strip(a))| <= 33 && |Integer(tag, a)| <= 35
  {
    hide Strip;
    assert |Length(|Body(Strip(a))|)| == 1;
  }

  /** Reading a written signature gives back the same 64 bytes. */
  lemma SignatureRoundTrip(r: seq<byte>, t: seq<byte>, rest: seq<byte>)
    requires |r| == 32 && |t| == 32
    ensures ReadSignature(SignatureBytes(r, t) + rest) == Got((r, t), rest)
  {
    hide Strip, Tagged, ReadTagged, Integer, ReadInteger, Pad32;
    var a, b := Integer(TAG_INTEGER, r), Integer(TAG_INTEGER, t);
    IntegerSize(TAG_INTEGER, r);
    IntegerSize(TAG_INTEGER, t);
    TaggedRoundTrip(TAG_SEQUENCE, a + b, rest);
    IntegerRoundTrip(TAG_INTEGER, r, b);
    assert b == b + [];
    IntegerRoundTrip(TAG_INTEGER, t, []);
    PadStrip(r);
    PadStrip(t);
    PadFull(r);
    PadFull(t);
  }

  lemma PadFull(a: seq<byte>)
    requires |a| == 32
    ensures Pad32(a) == a
  {
  }

  /** An accepted signature re-encodes to exactly the bytes consumed. */
  lemma SignatureCanonical(s: seq<byte>)
    requires ReadSignature(s).Got?
    ensures s == SignatureBytes(ReadSignature(s).value.0, ReadSignature(s).value.1) + ReadSignature(s).rest
  {
    hide Strip, Tagged, ReadTagged, Integer, ReadInteger, Pad32;
    var d := ReadTagged(TAG_SEQUENCE, s).value;
    var r, d1 := ReadInteger(TAG_INTEGER, d).value, ReadInteger(TAG_INTEGER, d).rest;
    var t := ReadInteger(TAG_INTEGER, d1).value;
    ReadNonempty(TAG_INTEGER, d);
    ReadNonempty(TAG_INTEGER, d1);
    IntegerCanonical(TAG_INTEGER, d);
    IntegerCanonical(TAG_INTEGER, d1);
    SameInteger(r);
    SameInteger(t);
    assert d == Integer(TAG_INTEGER, r) + Integer(TAG_INTEGER, t);
    IntegerSize(TAG_INTEGER, r);
    IntegerSize(TAG_INTEGER, t);
    TaggedCanonical(TAG_SEQUENCE, s);
  }

  lemma ReadNonempty(tag: byte, s: seq<byte>)
    requires ReadInteger(tag, s).Got?
    ensures ReadInteger(tag, s).value != []
  {
    hide ReadTagged;
  }

  lemma SameInteger(a: seq<byte>)
    requires Minimal(a) && |a| <= 32
    ensures Integer(TAG_INTEGER, Pad32(a)) == Integer(TAG_INTEGER, a)
  {
    hide Tagged, Strip;
    StripPad(a, 32 - |a|);
    StripMinimal(a);
  }

  // ---------- the writers ----------

  /** An output buffer; a null one makes the call a sizing pass. */
  class Output {
    var bytes: seq<byte>

    method Put(b: seq<byte>)
      modifies this
      ensures bytes == old(bytes) + b
    {
      bytes := bytes + b;
    }
  }

  /** The two passes agree: the size grows by what the writing pass appends. */
  twostate predicate Wrote(out: Output?, before: nat, after: nat, b: seq<byte>)
    reads out
  {
    after == before + |b| && (out != null ==> out.bytes == old(out.bytes) + b)
  }

  /** asn1_length_to_der. */
  method LengthToDer(len: nat, out: Output?, outlen: nat) returns (ok: bool, outlen': nat)
    modifies out
    ensures ok <==> len <= INT_MAX
    ensures Wrote(out, outlen, outlen', LengthIfFits(len))
  {
    outlen' := outlen;
    if len > INT_MAX {
      return false, outlen;
    }
    ok := true;
    if len < 128 {
      if out != null {
        out.Put([len]);
      }
      outlen' := outlen' + 1;
    } else {
      var nbytes := if len < 256 then 1 else if len < 65536 then 2 else if len < 0x100_0000 then 3 else 4;
      var buf := BigEndian(len);
      if out != null {
        out.Put([0x80 + nbytes]);
        out.Put(buf[4 - nbytes..]);
      }
      outlen' := outlen' + 1 + nbytes;
    }
  }

  /** asn1_type_to_der for present data. */
  method TypeToDer(tag: byte, d: seq<byte>, out: Output?, outlen: nat) returns (outlen': nat)
    modifies out
    ensures Wrote(out, outlen, outlen', Tagged(tag, d))
  {
    hide LengthIfFits;
    if out != null {
      out.Put([tag]);
    }
    outlen' := outlen + 1;
    var ok;
    ok, outlen' := LengthToDer(|d|, out, outlen');
    if out != null {
      out.Put(d);
    }
    outlen' := outlen' + |d|;
  }

  /** asn1_integer_to_der_ex. */
  method IntegerToDer(tag: byte, a: seq<byte>, out: Output?, outlen: nat) returns (ok: bool, outlen': nat)
    modifies out
    ensures ok <==> 0 < |a| <= INT_MAX
    ensures ok ==> Wrote(out, outlen, outlen', Integer(tag, a))
    ensures !ok ==> Wrote(out, outlen, outlen', [])
  {
    hide LengthIfFits;
    if |a| <= 0 || |a| > INT_MAX {
      return false, outlen;
    }
    if out != null {
      out.Put([tag]);
    }
    outlen' := outlen + 1;
    var i, alen := 0, |a|;
    while a[i] == 0 && alen > 1
      invariant 0 <= i && alen >= 1 && i + alen == |a| && Strip(a[i..]) == Strip(a)
      decreases alen
    {
      assert a[i..][1..] == a[i + 1..];
      i := i + 1;
      alen := alen - 1;
    }
    var d := a[i..];
    assert d == Strip(a);
    if d[0] >= 0x80 {
      ok, outlen' := LengthToDer(alen + 1, out, outlen');
      if out != null {
        out.Put([0]);
        out.Put(d);
      }
      outlen' := outlen' + 1 + alen;
    } else {
      ok, outlen' := LengthToDer(alen, out, outlen');
      if out != null {
        out.Put(d);
      }
      outlen' := outlen' + alen;
    }
    ok := true;
  }

  /** sm2_signature_to_der: a sizing pass over both integers, then the writing pass. */
  method SignatureToDer(r: seq<byte>, t: seq<byte>, out: Output?, outlen: nat) returns (outlen': nat)
    requires |r| == 32 && |t| == 32
    modifies out
    ensures Wrote(out, outlen, outlen', SignatureBytes(r, t))
  {
    hide Integer, LengthIfFits;
    var ok, len := IntegerToDer(TAG_INTEGER, r, null, 0);
    ok, len := IntegerToDer(TAG_INTEGER, t, null, len);
    if out != null {
      out.Put([TAG_SEQUENCE]);
    }
    outlen' := outlen + 1;
    ok, outlen' := LengthToDer(len, out, outlen');
    ok, outlen' := IntegerToDer(TAG_INTEGER, r, out, outlen');
    ok, outlen' := IntegerToDer(TAG_INTEGER, t, out, outlen');
  }

  // ---------- the readers ----------

  /** An input cursor: the bytes not yet consumed. */
  class Input {
    var rest: seq<byte>
  }

  /** asn1_length_from_der. */
  method LengthFromDer(inp: Input) returns (len: Option<nat>)
    modifies inp
    ensures match ReadLength(old(inp.rest))
            case None => len.None?
            case Some(p) => len == Some(p.0) && inp.rest == p.1
  {
    if |inp.rest| == 0 {
      return None;
    }
    var l: nat;
    if inp.rest[0] < 128 {
      l := inp.rest[0];
      inp.rest := inp.rest[1..];
    } else {
      var nbytes := inp.rest[0] - 128;
      inp.rest := inp.rest[1..];
      if nbytes < 1 || nbytes > 4 || |inp.rest| < nbytes {
        return None;
      }
      if nbytes == 1 && inp.rest[0] < 0x80 {
        return None;
      }
      if nbytes > 1 && inp.rest[0] == 0 {
        return None;
      }
      l := FromBytes(inp.rest[..nbytes]);
      inp.rest := inp.rest[nbytes..];
    }
    if |inp.rest| < l {
      return None;
    }
    len := Some(l);
  }

  /** asn1_integer_from_der_ex: returns the value bytes, Absent leaving the cursor alone. */
  method IntegerFromDer(tag: byte, inp: Input) returns (r: Read<seq<byte>>)
    modifies inp
    ensures r == ReadInteger(tag, old(inp.rest))
    ensures r.Got? ==> inp.rest == r.rest
    ensures r.Absent? ==> inp.rest == old(inp.rest)
  {
    if |inp.rest| == 0 || inp.rest[0] != tag {
      return Absent;
    }
    ghost var s := inp.rest;
    inp.rest := inp.rest[1..];
    var l := LengthFromDer(inp);
    if l.None? {
      return Bad;
    }
    var len := l.value;
    LengthFits(s[1..]);
    ghost var d, tail := inp.rest[..len], inp.rest[len..];
    assert ReadTagged(tag, s) == Got(d, tail);
    if len == 0 {
      return Bad;
    }
    if inp.rest[0] >= 0x80 {
      return Bad;
    }
    if inp.rest[0] == 0 && len > 1 {
      assert d[1..] == inp.rest[1..][..len - 1] && inp.rest[1..][len - 1..] == tail;
      inp.rest := inp.rest[1..];
      len := len - 1;
      if inp.rest[0] < 0x80 {
        return Bad;
      }
    }
    if inp.rest[0] == 0 && len > 1 {
      return Bad;
    }
    var a := inp.rest[..len];
    inp.rest := inp.rest[len..];
    r := Got(a, inp.rest);
  }
}
