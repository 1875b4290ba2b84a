/** The text src/base64.c writes, as section 4 of RFC 4648 describes it, and what it refuses. */
module Base64Layout {
  import opened Common
  import opened Modular
  import opened Base64

  const CAPITALS: string := "ABCDEFGHIJKLMNOPQRSTUVWXYZ"
  const SMALL: string := "abcdefghijklmnopqrstuvwxyz"
  const FIGURES: string := "0123456789+/"

  /** The 64 characters, in the order of their values. */
  function Character(v: int): char
    requires 0 <= v < 64
  {
    if v < 26 then CAPITALS[v] else if v < 52 then SMALL[v - 26] else FIGURES[v - 52]
  }

  lemma AlphabetIs(v: int)
    requires 0 <= v < 64
    ensures Bin2Ascii(v) == Character(v) as int
  {
    if v < 26 {
      Capitals(v);
    } else if v < 52 {
      Small(v - 26);
    } else {
      Figures(v - 52);
    }
  }

  lemma Capitals(i: int)
    requires 0 <= i < 26
    ensures CAPITALS[i] as int == 65 + i
  {
  }

  lemma Small(i: int)
    requires 0 <= i < 26
    ensures SMALL[i] as int == 97 + i
  {
  }

  lemma Figures(i: int)
    requires 0 <= i < 12
    ensures FIGURES[i] as int == if i < 10 then 48 + i else if i == 10 then 43 else 47
  {
  }

  /** Three bytes are the digits of one number to the base 256, their four characters its digits to the
      base 64, both from the top; a missing byte counts as zero, and so does the padding. */
  lemma GroupNumber(f: seq<byte>)
    requires f != []
    ensures var q, h := Group(f), Head(f);
            ((Ascii2Bin(q[0]) as int * 64 + Ascii2Bin(q[1]) as int) * 64 + Ascii2Bin(q[2]) as int) * 64 + Ascii2Bin(q[3]) as int
            == (h[0] as int * 256 + h[1] as int) * 256 + h[2] as int
  {
    hide Ascii2Bin, Bin2Ascii;
    GroupDecodes(f);
    var q := Group(f);
    TripleNumber(Ascii2Bin(q[0]), Ascii2Bin(q[1]), Ascii2Bin(q[2]), Ascii2Bin(q[3]));
  }

  lemma TripleNumber(a: int, b: int, c: int, d: int)
    requires 0 <= a < 64 && 0 <= b < 64 && 0 <= c < 64 && 0 <= d < 64
    ensures var t := Triple(a, b, c, d);
            (t[0] as int * 256 + t[1] as int) * 256 + t[2] as int == ((a * 64 + b) * 64 + c) * 64 + d
  {
    ThreeDigits(a * 262144 + b * 4096 + c * 64 + d);
  }

  lemma ThreeDigits(l: int)
    requires 0 <= l < 16777216
    ensures (l / 65536 % 256 * 256 + l / 256 % 256) * 256 + l % 256 == l
  {
    var q, r := l / 256, l % 256;
    var x, y := q / 256, q % 256;
    DivModUnique(l, 65536, x, y * 256 + r);
    ModSmall(x, 256);
  }

  /** The lines: every complete one holds 64 characters and a newline, and nothing else is a newline. */
  lemma {:induction false} LineLength(d: seq<byte>, i: nat)
    requires i < |Lines(d)|
    ensures Lines(d)[i] == NEWLINE <==> i % 65 == 64
    ensures |Lines(d)| == 65 * (|d| / 48)
    decreases |d|
  {
    hide EncodeBlock, Lines;
    LinesStep(d);
    var e, rest := EncodeBlock(d[..48]), Lines(d[48..]);
    LinesSize(d);
    if i < 64 {
      BlockChars(d[..48], i);
      ModSmall(i, 65);
    } else if i > 64 {
      LineLength(d[48..], i - 65);
      assert (e + [NEWLINE] + rest)[i] == rest[i - 65];
      NextLine(i);
    }
  }

  lemma NextLine(i: nat)
    requires i >= 65
    ensures (i - 65) % 65 == i % 65
  {
  }

  lemma LinesStep(d: seq<byte>)
    requires |Lines(d)| > 0
    ensures |d| >= 48 && Lines(d) == EncodeBlock(d[..48]) + [NEWLINE] + Lines(d[48..]) && |EncodeBlock(d[..48])| == 64
  {
    hide EncodeBlock, Groups;
    WholeGroups(16);
  }

  lemma {:induction false} LinesSize(d: seq<byte>)
    ensures |Lines(d)| == 65 * (|d| / 48)
    decreases |d|
  {
    if |d| >= 48 {
      LinesSize(d[48..]);
      WholeGroups(16);
      assert |d| / 48 == (|d| - 48) / 48 + 1;
    }
  }

  // ---------- refusals ----------

  /** The characters that are not accepted anywhere: all but the alphabet, '=', blanks, line ends and '-'. */
  predicate Foreign(c: byte) {
    !(exists v :: 0 <= v < 64 && Bin2Ascii(v) == c) && c != PAD && c != 9 && c != 32 && c != 10 && c != 13 && c != 45
  }

  lemma ForeignIs(c: byte)
    ensures Ascii2Bin(c) == B64_ERROR <==> Foreign(c)
  {
    if Ascii2Bin(c) < 64 && c != PAD {
      assert Bin2Ascii(Ascii2Bin(c) as int) == c;
    }
    if v :| 0 <= v < 64 && Bin2Ascii(v) == c {
      Alphabet(v);
    }
  }

  /** A piece with a foreign character before any '-' is refused, whatever was read before it. */
  lemma {:induction false} ForeignRefused(s: State, inp: seq<byte>, i: nat)
    requires i < |inp| && Foreign(inp[i]) && forall j :: 0 <= j < i ==> inp[j] != 45
    ensures Chars(s, inp).Fail?
    decreases i
  {
    hide StepChar, Ascii2Bin, Foreign;
    if i == 0 {
      ForeignIs(inp[0]);
      ErrorStops(s, inp[0]);
    } else {
      OnlyDashStops(s, inp[0]);
      var o := StepChar(s, inp[0]);
      if o.Go? {
        ForeignRefused(o.s, inp[1..], i - 1);
      }
    }
  }

  lemma ErrorStops(s: State, c: byte)
    requires Ascii2Bin(c) == B64_ERROR
    ensures StepChar(s, c).Fail?
  {
    hide Ascii2Bin;
  }

  lemma OnlyDashStops(s: State, c: byte)
    requires c != 45
    ensures !StepChar(s, c).Stop?
  {
    hide Flush;
    FlushNeverStops(State(s.buf + [c], if c == PAD then s.eof + 1 else s.eof, s.out));
    FlushNeverStops(State(s.buf, if c == PAD then s.eof + 1 else s.eof, s.out));
  }

  lemma FlushNeverStops(s: State)
    ensures !Flush(s).Stop?
  {
    hide DecodeBlock;
  }

  lemma UpdateRefuses(buf: seq<byte>, inp: seq<byte>, i: nat)
    requires i < |inp| && Foreign(inp[i]) && forall j :: 0 <= j < i ==> inp[j] != 45
    ensures UpdateResult(buf, inp).rv == -1
  {
    hide Chars, Foreign;
    ForeignRefused(State(buf, PadsKept(buf), []), inp, i);
  }
}
