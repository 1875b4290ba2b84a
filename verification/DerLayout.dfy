/** The octets src/asn1.c writes, as sections 8.1.3, 8.3 and 10.1 of ITU-T X.690 describe them. */
module DerLayout {
  import opened Common
  import opened Modular
  import opened Asn1

  /** A length: one octet below 128; otherwise the number of octets that follow, with the top bit set, and
      the length in them, big-endian and without leading zeros. */
  lemma LengthOctets(len: nat)
    requires len <= INT_MAX
    ensures var b := Length(len);
            if len < 128 then b == [len]
            else 2 <= |b| <= 5 && b[0] == 0x80 + (|b| - 1) && Number(b[1..]) == len && b[1] != 0
  {
    if len >= 128 {
      hide Number, BigEndian, LenBytes;
      var k, w := LenBytes(len), BigEndian(len);
      BigEndianOctets(len);
      LastOctets(w, 4 - k);
      assert Length(len)[1..] == w[4 - k..];
    }
  }

  /** The four octets of a length: the number, and its leading zeros. */
  lemma BigEndianOctets(len: nat)
    requires len <= INT_MAX && len >= 128
    ensures var k, w := LenBytes(len), BigEndian(len);
            Number(w) == len && w[4 - k] != 0 && forall i :: 0 <= i < 4 - k ==> w[i] == 0
  {
    hide Number;
    var w := BigEndian(len);
    FourOctets(w);
    FourDigits(len);
  }

  lemma FourDigits(n: nat)
    ensures n / 0x100_0000 * 0x100_0000 + n / 0x1_0000 % 256 * 0x1_0000 + n / 0x100 % 256 * 0x100 + n % 256 == n
  {
    var a, x := n / 256, n % 256;
    var b, y := a / 256, a % 256;
    var c, z := b / 256, b % 256;
    DivModUnique(n, 0x1_0000, b, 256 * y + x);
    DivModUnique(n, 0x100_0000, c, 0x1_0000 * z + 256 * y + x);
  }

  lemma FourOctets(w: seq<byte>)
    requires |w| == 4
    ensures Number(w) == w[0] as int * 0x100_0000 + w[1] as int * 0x1_0000 + w[2] as int * 0x100 + w[3] as int
  {
    hide Number;
    NumberAt(w, 4);
    NumberAt(w, 3);
    NumberAt(w, 2);
    NumberAt(w, 1);
    NumberEnds(w);
  }

  lemma NumberAt(p: seq<byte>, k: nat)
    requires 0 < k <= |p|
    ensures Number(p[..k]) == Number(p[..k - 1]) * 256 + p[k - 1] as int
  {
    assert p[..k][..k - 1] == p[..k - 1];
  }

  lemma NumberEnds(p: seq<byte>)
    ensures p[..|p|] == p && Number(p[..0]) == 0
  {
  }

  /** Leading zeros do not count. */
  lemma {:induction false} LastOctets(w: seq<byte>, z: nat)
    requires z < |w| && forall i :: 0 <= i < z ==> w[i] == 0
    ensures Number(w[z..]) == Number(w)
    decreases z
  {
    if z == 0 {
      assert w[0..] == w;
    } else {
      assert w[1..][z - 1..] == w[z..];
      LastOctets(w[1..], z - 1);
      LeadingZero(w);
    }
  }

  /** The contents of an INTEGER: the number, not negative, in as few octets as possible. */
  ghost predicate Contents(c: seq<byte>, v: nat) {
    c != [] && Number(c) == v && c[0] < 0x80 && (|c| > 1 && c[0] == 0 ==> c[1] >= 0x80)
  }

  lemma IntegerOctets(a: seq<byte>)
    requires a != []
    ensures Contents(Body(Strip(a)), Number(a))
  {
    hide Number;
    var v := Strip(a);
    StripValue(a);
    StripStops(a);
    if v[0] >= 0x80 {
      LeadingZero([0] + v);
      assert ([0] + v)[1..] == v;
    }
  }

  lemma {:induction false} StripStops(a: seq<byte>)
    requires a != []
    ensures var v := Strip(a); |v| > 1 ==> v[0] != 0
  {
    if |a| > 1 && a[0] == 0 {
      StripStops(a[1..]);
    }
  }

  /** The DER of a signature: 30, the length, and the INTEGERs r and s, 02 and a length octet before each. */
  lemma SignatureOctets(r: seq<byte>, s: seq<byte>)
    requires |r| == 32 && |s| == 32
    ensures var x, y := Body(Strip(r)), Body(Strip(s));
            && Contents(x, Number(r)) && Contents(y, Number(s)) && |x| <= 33 && |y| <= 33
            && SignatureBytes(r, s) == [0x30, 4 + |x| + |y|] + [0x02, |x|] + x + [0x02, |y|] + y
  {
    hide Number, Strip, Body, Contents;
    var x, y := Body(Strip(r)), Body(Strip(s));
    IntegerOctets(r);
    IntegerOctets(s);
    IntegerSize(TAG_INTEGER, r);
    IntegerSize(TAG_INTEGER, s);
    ShortTagged(TAG_INTEGER, x);
    ShortTagged(TAG_INTEGER, y);
    var d := [0x02, |x|] + x + ([0x02, |y|] + y);
    ShortTagged(TAG_SEQUENCE, d);
    assert [0x30, |d|] + d == [0x30, 4 + |x| + |y|] + [0x02, |x|] + x + [0x02, |y|] + y;
  }

  lemma ShortTagged(tag: byte, d: seq<byte>)
    requires |d| < 128
    ensures Tagged(tag, d) == [tag, |d|] + d
  {
  }
}
