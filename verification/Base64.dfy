/** Streaming Base64, src/base64.c (section 4 of RFC 4648, in lines of 64 characters). */
module Base64 {

  import opened Common

  const PAD: byte := 61
  const NEWLINE: byte := 10
  const B64_EOLN: byte := 0xF0
  const B64_CR: byte := 0xF1
  const B64_EOF: byte := 0xF2
  const B64_WS: byte := 0xE0
  const B64_ERROR: byte := 0xFF

  // ---------- the alphabet ----------

  function Bin2Ascii(v: int): byte
    requires 0 <= v < 64
  {
    if v < 26 then 65 + v else if v < 52 then 97 + (v - 26) else if v < 62 then 48 + (v - 52)
    else if v == 62 then 43 else 47
  }

  /** The decoding table; the padding character decodes to zero. */
  function Ascii2Bin(c: byte): byte {
    if 65 <= c <= 90 then c - 65
    else if 97 <= c <= 122 then c - 97 + 26
    else if 48 <= c <= 57 then c - 48 + 52
    else if c == 43 then 62 else if c == 47 then 63 else if c == PAD then 0
    else if c == 9 || c == 32 then B64_WS
    else if c == 10 then B64_EOLN else if c == 13 then B64_CR else if c == 45 then B64_EOF
    else B64_ERROR
  }

  /** The test (a | 0x13) == 0xF3. */
  predicate NotBase64(v: byte) {
    v == 0xE0 || v == 0xE1 || v == 0xE2 || v == 0xE3 || v == 0xF0 || v == 0xF1 || v == 0xF2 || v == 0xF3
  }

  lemma Alphabet(v: int)
    requires 0 <= v < 64
    ensures Ascii2Bin(Bin2Ascii(v)) == v && Bin2Ascii(v) != PAD && Bin2Ascii(v) != NEWLINE
  {
  }

  // ---------- blocks ----------

  /** The four characters of a 24-bit group. */
  function Quad(a: int, b: int, c: int): (q: seq<byte>)
    requires 0 <= a < 256 && 0 <= b < 256 && 0 <= c < 256
    ensures |q| == 4
  {
    var l := a * 65536 + b * 256 + c;
    [Bin2Ascii(l / 262144 % 64), Bin2Ascii(l / 4096 % 64), Bin2Ascii(l / 64 % 64), Bin2Ascii(l % 64)]
  }

  /** The number of groups n bytes take. */
  function Groups(n: nat): nat {
    if n == 0 then 0 else 1 + Groups(if n >= 3 then n - 3 else 0)
  }

  function EncodeBlock(f: seq<byte>): (t: seq<byte>)
    ensures |t| == 4 * Groups(|f|)
    decreases |f|
  {
    if f == [] then [] else Group(f) + EncodeBlock(Rest(f))
  }

  /** The characters of the first group, padded when fewer than three bytes are left. */
  function Group(f: seq<byte>): (q: seq<byte>)
    requires f != []
    ensures |q| == 4
  {
    if |f| == 1 then Quad(f[0], 0, 0)[..2] + [PAD, PAD]
    else if |f| == 2 then Quad(f[0], f[1], 0)[..3] + [PAD]
    else Quad(f[0], f[1], f[2])
  }

  function Rest(f: seq<byte>): (g: seq<byte>)
    ensures |g| == if |f| >= 3 then |f| - 3 else 0
  {
    if |f| >= 3 then f[3..] else []
  }

  /** The three bytes of four decoded characters, if all four are valid. */
  function Triple(a: int, b: int, c: int, d: int): (t: seq<byte>)
    requires 0 <= a < 64 && 0 <= b < 64 && 0 <= c < 64 && 0 <= d < 64
    ensures |t| == 3
  {
    var l := a * 262144 + b * 4096 + c * 64 + d;
    [l / 65536 % 256, l / 256 % 256, l % 256]
  }

  function DecodeQuads(f: seq<byte>): (t: Option<seq<byte>>)
    requires |f| % 4 == 0
    ensures t.Some? ==> |t.value| == |f| / 4 * 3
  {
    if f == [] then Some([])
    else
      var a, b, c, d := Ascii2Bin(f[0]), Ascii2Bin(f[1]), Ascii2Bin(f[2]), Ascii2Bin(f[3]);
      if a >= 0x80 || b >= 0x80 || c >= 0x80 || d >= 0x80 then None
      else match DecodeQuads(f[4..])
        case None => None
        case Some(r) => Some(Triple(a, b, c, d) + r)
  }

  function TrimFront(f: seq<byte>): seq<byte> {
    if f != [] && Ascii2Bin(f[0]) == B64_WS then TrimFront(f[1..]) else f
  }

  function TrimBack(f: seq<byte>): seq<byte> {
    if |f| > 3 && NotBase64(Ascii2Bin(f[|f| - 1])) then TrimBack(f[..|f| - 1]) else f
  }

  function DecodeBlock(f: seq<byte>): Option<seq<byte>> {
    var g := TrimBack(TrimFront(f));
    if |g| % 4 != 0 then None else DecodeQuads(g)
  }

  /** Decoding an encoded group. */
  lemma QuadTriple(a: int, b: int, c: int)
    requires 0 <= a < 256 && 0 <= b < 256 && 0 <= c < 256
    ensures var l := a * 65536 + b * 256 + c;
            Triple(l / 262144 % 64, l / 4096 % 64, l / 64 % 64, l % 64) == [a, b, c]
  {
    var l := a * 65536 + b * 256 + c;
    SixBits(l);
    EightBits(a, b, c);
    TripleOf(l / 262144 % 64, l / 4096 % 64, l / 64 % 64, l % 64, l);
  }

  lemma TripleOf(p: int, q: int, r: int, s: int, l: int)
    requires 0 <= p < 64 && 0 <= q < 64 && 0 <= r < 64 && 0 <= s < 64 && l == p * 262144 + q * 4096 + r * 64 + s
    ensures Triple(p, q, r, s) == [l / 65536 % 256, l / 256 % 256, l % 256]
  {
  }

  lemma EightBits(a: int, b: int, c: int)
    requires 0 <= a < 256 && 0 <= b < 256 && 0 <= c < 256
    ensures var l := a * 65536 + b * 256 + c; l / 65536 % 256 == a && l / 256 % 256 == b && l % 256 == c
  {
    var l := a * 65536 + b * 256 + c;
    assert l / 256 == a * 256 + b;
    assert l / 65536 == a;
  }

  lemma SixBits(l: int)
    requires 0 <= l < 0x100_0000
    ensures l == (l / 262144 % 64) * 262144 + (l / 4096 % 64) * 4096 + (l / 64 % 64) * 64 + l % 64
  {
    var x := l / 64;
    var y := x / 64;
    assert l / 4096 == y;
    var z := y / 64;
    assert l / 262144 == z && z < 64;
  }

  /** The number of padding characters. */
  function Pads(n: nat): (p: nat)
    ensures p <= 2
  {
    if n % 3 == 0 then 0 else 3 - n % 3
  }

  lemma QuadBits(a: int, b: int, c: int)
    requires 0 <= a < 256 && 0 <= b < 256 && 0 <= c < 256
    ensures b == 0 && c == 0 ==> (a * 65536 + b * 256 + c) / 64 % 64 == 0
    ensures c == 0 ==> (a * 65536 + b * 256 + c) % 64 == 0
  {
    if b == 0 && c == 0 {
      assert a * 65536 == 64 * (a * 1024);
      assert a * 1024 == 64 * (a * 16);
    }
  }

  /** Block decoding inverts block encoding, up to the zero bytes the padding stands for. */
  lemma {:induction false} BlockRoundTrip(f: seq<byte>)
    ensures |EncodeBlock(f)| % 4 == 0
    ensures DecodeQuads(EncodeBlock(f)) == Some(f + seq(Pads(|f|), _ => 0))
    decreases |f|
  {
    hide Group, Ascii2Bin, Triple, DecodeQuads;
    if f == [] {
      EmptyBlock(f);
    } else {
      var t, g := EncodeBlock(f), Rest(f);
      assert t[..4] == Group(f) && t[4..] == EncodeBlock(g);
      BlockRoundTrip(g);
      GroupDecodes(f);
      FirstGroup(t, Head(f), g + seq(Pads(|g|), _ => 0));
      HeadAndRest(f);
    }
  }

  lemma EmptyBlock(f: seq<byte>)
    requires f == []
    ensures DecodeQuads(EncodeBlock(f)) == Some(f + seq(Pads(|f|), _ => 0))
  {
    assert f + seq(Pads(|f|), _ => 0) == [];
  }

  /** The bytes of the first group, with zeros for missing ones. */
  function Head(f: seq<byte>): (h: seq<byte>)
    requires f != []
    ensures |h| == 3
  {
    [f[0], if |f| >= 2 then f[1] else 0, if |f| >= 3 then f[2] else 0]
  }

  lemma HeadAndRest(f: seq<byte>)
    requires f != []
    ensures f + seq(Pads(|f|), _ => 0) == Head(f) + (Rest(f) + seq(Pads(|Rest(f)|), _ => 0))
  {
    var x, y := f + seq(Pads(|f|), _ => 0), Head(f) + (Rest(f) + seq(Pads(|Rest(f)|), _ => 0));
    assert |x| == |y|;
    assert forall i :: 0 <= i < |x| ==> x[i] == y[i];
  }

  lemma GroupDecodes(f: seq<byte>)
    requires f != []
    ensures var q := Group(f);
            var p, r, s, t := Ascii2Bin(q[0]), Ascii2Bin(q[1]), Ascii2Bin(q[2]), Ascii2Bin(q[3]);
            p < 64 && r < 64 && s < 64 && t < 64 && Triple(p, r, s, t) == Head(f)
  {
    hide Ascii2Bin, Triple;
    var h := Head(f);
    GroupRoundTrip(h[0], h[1], h[2], Group(f), |f|);
  }

  lemma GroupRoundTrip(a: int, b: int, c: int, q: seq<byte>, n: nat)
    requires 0 <= a < 256 && 0 <= b < 256 && 0 <= c < 256 && |q| == 4 && n >= 1
    requires n == 1 ==> b == 0 && c == 0 && q == Quad(a, 0, 0)[..2] + [PAD, PAD]
    requires n == 2 ==> c == 0 && q == Quad(a, b, 0)[..3] + [PAD]
    requires n >= 3 ==> q == Quad(a, b, c)
    ensures var p, r, s, t := Ascii2Bin(q[0]), Ascii2Bin(q[1]), Ascii2Bin(q[2]), Ascii2Bin(q[3]);
            p < 64 && r < 64 && s < 64 && t < 64 && Triple(p, r, s, t) == [a, b, c]
  {
    hide Bin2Ascii, Ascii2Bin, Triple;
    var l := a * 65536 + b * 256 + c;
    Alphabet(l / 262144 % 64);
    Alphabet(l / 4096 % 64);
    Alphabet(l / 64 % 64);
    Alphabet(l % 64);
    QuadTriple(a, b, c);
    QuadBits(a, b, c);
    assert Ascii2Bin(PAD) == 0 by { PadDecodes(); }
  }

  lemma PadDecodes()
    ensures Ascii2Bin(PAD) == 0
  {
  }

  lemma FirstGroup(t: seq<byte>, g: seq<byte>, rest: seq<byte>)
    requires |t| >= 4 && |t| % 4 == 0 && |g| == 3 && DecodeQuads(t[4..]) == Some(rest)
    requires var p, r, s, u := Ascii2Bin(t[..4][0]), Ascii2Bin(t[..4][1]), Ascii2Bin(t[..4][2]), Ascii2Bin(t[..4][3]);
             p < 64 && r < 64 && s < 64 && u < 64 && Triple(p, r, s, u) == g
    ensures DecodeQuads(t) == Some(g + rest)
  {
    hide Ascii2Bin, Triple;
  }

  /** Whole groups encode independently of what follows. */
  lemma {:induction false} EncodeConcat(a: seq<byte>, b: seq<byte>)
    requires |a| % 3 == 0
    ensures EncodeBlock(a + b) == EncodeBlock(a) + EncodeBlock(b)
  {
    hide Group, EncodeBlock;
    if a == [] {
      assert a + b == b;
      NoGroups();
    } else {
      EncodeConcat(a[3..], b);
      assert (a + b)[3..] == a[3..] + b;
      SameGroup(a, b);
      EncodeStep(a);
      EncodeStep(a + b);
    }
  }

  lemma NoGroups()
    ensures EncodeBlock([]) == []
  {
  }

  lemma EncodeStep(f: seq<byte>)
    requires f != []
    ensures EncodeBlock(f) == Group(f) + EncodeBlock(Rest(f))
  {
    hide Group;
  }

  lemma SameGroup(a: seq<byte>, b: seq<byte>)
    requires |a| >= 3
    ensures Group(a + b) == Group(a)
  {
  }

  // ---------- the streaming encoder ----------

  const LINE: nat := 48

  /** The complete lines of d, and what is left after them. */
  function Lines(d: seq<byte>): seq<byte> {
    if |d| < LINE then [] else EncodeBlock(d[..LINE]) + [NEWLINE] + Lines(d[LINE..])
  }

  function Left(d: seq<byte>): (r: seq<byte>)
    ensures |r| < LINE
  {
    if |d| < LINE then d else Left(d[LINE..])
  }

  function LastLine(r: seq<byte>): seq<byte> {
    if r == [] then [] else EncodeBlock(r) + [NEWLINE]
  }

  /** The text of d. */
  function Text(d: seq<byte>): seq<byte> {
    Lines(d) + LastLine(Left(d))
  }

  lemma {:induction false} LinesConcat(a: seq<byte>, b: seq<byte>)
    ensures Lines(a + b) == Lines(a) + Lines(Left(a) + b) && Left(a + b) == Left(Left(a) + b)
    decreases |a|
  {
    hide EncodeBlock;
    if |a| >= LINE {
      LinesConcat(a[LINE..], b);
      assert (a + b)[..LINE] == a[..LINE] && (a + b)[LINE..] == a[LINE..] + b;
    }
  }

  class Encoder {
    var pending: seq<byte>

    constructor ()
      ensures pending == []
    {
      pending := [];
    }

    /** base64_encode_update.  It fails on empty input and when the output would exceed INT_MAX. */
    method Update(inp: seq<byte>) returns (ok: bool, out: seq<byte>)
      requires |pending| < LINE && |inp| <= INT_MAX
      modifies this
      ensures |pending| < LINE
      ensures ok <==> inp != [] && 65 * ((|old(pending)| + |inp|) / LINE) <= INT_MAX
      ensures ok ==> out == Lines(old(pending) + inp) && pending == Left(old(pending) + inp)
      ensures inp == [] ==> pending == old(pending)
    {
      hide EncodeBlock, Left, Lines;
      out := [];
      ok := false;
      if |inp| <= 0 {
        return;
      }
      ghost var all := pending + inp;
      if LINE - |pending| > |inp| {
        pending := pending + inp;
        Short(pending);
        return true, out;
      }
      var rest := inp;
      var total := 0;
      if |pending| != 0 {
        var i := LINE - |pending|;
        var line := pending + rest[..i];
        assert all[..LINE] == line && all[LINE..] == rest[i..];
        rest := rest[i..];
        out := EncodeBlock(line) + [NEWLINE];
        pending := [];
        total := 65;
        LineStep(all);
      } else {
        assert all == inp;
      }
      assert out + Lines(rest) == Lines(all);
      while |rest| >= LINE && total <= INT_MAX
        invariant out + Lines(rest) == Lines(all) && Left(rest) == Left(all) && pending == []
        invariant total >= 0 && total + 65 * (|rest| / LINE) == 65 * (|all| / LINE)
        decreases |rest|
      {
        LineStep(rest);
        var block := EncodeBlock(rest[..LINE]) + [NEWLINE];
        assert out + (block + Lines(rest[LINE..])) == out + block + Lines(rest[LINE..]);
        out := out + block;
        rest := rest[LINE..];
        total := total + 65;
      }
      if total > INT_MAX {
        return false, [];
      }
      Short(rest);
      assert out + [] == out;
      pending := rest;
      ok := true;
    }

    /** base64_encode_finish. */
    method Finish() returns (out: seq<byte>)
      modifies this
      ensures pending == [] && out == LastLine(old(pending))
    {
      out := [];
      if |pending| != 0 {
        out := EncodeBlock(pending) + [NEWLINE];
        pending := [];
      }
    }
  }

  lemma Short(d: seq<byte>)
    requires |d| < LINE
    ensures Left(d) == d && Lines(d) == [] && |d| / LINE == 0
  {
  }

  lemma LineStep(d: seq<byte>)
    requires |d| >= LINE
    ensures Left(d) == Left(d[LINE..]) && Lines(d) == EncodeBlock(d[..LINE]) + [NEWLINE] + Lines(d[LINE..])
    ensures |d[LINE..]| / LINE == |d| / LINE - 1
  {
    hide EncodeBlock;
  }

  /** What a run of updates on the chunks emits, and what it leaves pending. */
  function EncodeRun(chunks: seq<seq<byte>>): (r: (seq<byte>, seq<byte>)) {
    if chunks == [] then ([], [])
    else
      var p := EncodeRun(chunks[..|chunks| - 1]);
      var d := p.1 + chunks[|chunks| - 1];
      (p.0 + Lines(d), Left(d))
  }

  /** However the bytes are cut into chunks, the text is the same. */
  lemma {:induction false} ChunkIndependence(chunks: seq<seq<byte>>)
    ensures EncodeRun(chunks).0 == Lines(Flatten(chunks)) && EncodeRun(chunks).1 == Left(Flatten(chunks))
    ensures EncodeRun(chunks).0 + LastLine(EncodeRun(chunks).1) == Text(Flatten(chunks))
  {
    hide Lines, Left, LastLine;
    if chunks == [] {
      NoLines();
    } else {
      ChunkIndependence(chunks[..|chunks| - 1]);
      LinesConcat(Flatten(chunks[..|chunks| - 1]), chunks[|chunks| - 1]);
    }
  }

  lemma NoLines()
    ensures Lines([]) == [] && Left([]) == []
  {
  }

  // ---------- the streaming decoder ----------

  /** The decoder inside one call: buffered characters, padding seen, bytes emitted. */
  datatype State = State(buf: seq<byte>, eof: nat, out: seq<byte>)

  /** After a character: go on, stop at the end marker, or fail. */
  datatype Outcome = Go(s: State) | Stop(s: State) | Fail(s: State)

  /** Decodes the whole buffer, dropping the bytes that padding stands for. */
  function Flush(s: State): Outcome {
    match DecodeBlock(s.buf)
    case None => Fail(s.(buf := []))
    case Some(d) =>
      if s.eof > |d| then Fail(s.(buf := [])) else Go(State([], s.eof, s.out + d[..|d| - s.eof]))
  }

  function StepChar(s: State, c: byte): Outcome {
    var v := Ascii2Bin(c);
    var eof := if c == PAD then s.eof + 1 else s.eof;
    if v == B64_ERROR || (c != PAD && s.eof > 0 && !NotBase64(v)) then Fail(s)
    else if eof > 2 then Fail(s.(eof := eof))
    else if v == B64_EOF then Stop(s.(eof := eof))
    else if !NotBase64(v) && |s.buf| >= 64 then Fail(s.(eof := eof))
    else
      var t := State(if NotBase64(v) then s.buf else s.buf + [c], eof, s.out);
      if |t.buf| == 64 then Flush(t) else Go(t)
  }

  function Chars(s: State, inp: seq<byte>): Outcome
    decreases |inp|
  {
    hide StepChar;
    if inp == [] then Go(s)
    else match StepChar(s, inp[0])
      case Go(t) => Chars(t, inp[1..])
      case Stop(t) => Stop(t)
      case Fail(t) => Fail(t)
  }

  /** Return value, remaining buffer and output of a call. */
  datatype Result = Result(rv: int, buf: seq<byte>, out: seq<byte>)

  function Tail(o: Outcome): Result {
    if o.Fail? then Result(-1, o.s.buf, o.s.out)
    else
      var s := o.s;
      if |s.buf| > 0 && |s.buf| % 4 == 0 then
        var f := Flush(s);
        if f.Go? then Result(if o.Stop? || s.eof > 0 then 0 else 1, f.s.buf, f.s.out) else Result(-1, f.s.buf, f.s.out)
      else if |s.buf| > 0 && o.Stop? then Result(-1, s.buf, s.out)
      else Result(if o.Stop? || (|s.buf| == 0 && s.eof > 0) then 0 else 1, s.buf, s.out)
  }

  /** The padding at the end of the buffer kept from the last call. */
  function PadsKept(buf: seq<byte>): nat {
    if |buf| > 0 && buf[|buf| - 1] == PAD then (if |buf| > 1 && buf[|buf| - 2] == PAD then 2 else 1) else 0
  }

  function UpdateResult(buf: seq<byte>, inp: seq<byte>): Result {
    if inp == [] then Result(0, buf, []) else Tail(Chars(State(buf, PadsKept(buf), []), inp))
  }

  /** base64_decode_block. */
  method DecodeBlockLoop(f: seq<byte>) returns (r: Option<seq<byte>>)
    ensures r == DecodeBlock(f)
  {
    var g := f;
    while |g| > 0 && Ascii2Bin(g[0]) == B64_WS
      invariant TrimFront(g) == TrimFront(f)
      decreases |g|
    {
      g := g[1..];
    }
    assert g == TrimFront(f);
    ghost var front := g;
    while |g| > 3 && NotBase64(Ascii2Bin(g[|g| - 1]))
      invariant TrimBack(g) == TrimBack(front)
      decreases |g|
    {
      g := g[..|g| - 1];
    }
    assert g == TrimBack(front);
    if |g| % 4 != 0 {
      return None;
    }
    r := QuadsLoop(g);
  }

  method QuadsLoop(g: seq<byte>) returns (r: Option<seq<byte>>)
    requires |g| % 4 == 0
    ensures r == DecodeQuads(g)
  {
    hide Ascii2Bin, Triple, QuadsFrom, DecodeQuads;
    var t: seq<byte> := [];
    var i := 0;
    ghost var q := 0;
    ghost var n := |g| / 4;
    assert |g| == 4 * n;
    QuadsStart(g);
    while i < |g|
      invariant i == 4 * q && 0 <= q <= n
      invariant DecodeQuads(g) == Prefixed(t, QuadsFrom(g, q))
    {
      var a, b, c, d := Ascii2Bin(g[i]), Ascii2Bin(g[i + 1]), Ascii2Bin(g[i + 2]), Ascii2Bin(g[i + 3]);
      QuadsNext(g, q);
      if a >= 0x80 || b >= 0x80 || c >= 0x80 || d >= 0x80 {
        return None;
      }
      PrefixTwice(t, Triple(a, b, c, d), QuadsFrom(g, q + 1));
      t := t + Triple(a, b, c, d);
      i, q := i + 4, q + 1;
    }
    QuadsEnd(g, q, t);
    r := Some(t);
  }

  /** What is decoded from quad q on. */
  ghost function QuadsFrom(g: seq<byte>, q: nat): Option<seq<byte>>
    requires |g| % 4 == 0 && 4 * q <= |g|
  {
    DecodeQuads(g[4 * q..])
  }

  /** The bytes already decoded in front of what the rest decodes to. */
  ghost function Prefixed(t: seq<byte>, r: Option<seq<byte>>): Option<seq<byte>> {
    match r
    case None => None
    case Some(x) => Some(t + x)
  }

  lemma PrefixTwice(t: seq<byte>, u: seq<byte>, r: Option<seq<byte>>)
    ensures Prefixed(t, Prefixed(u, r)) == Prefixed(t + u, r)
  {
    if r.Some? {
      assert t + (u + r.value) == (t + u) + r.value;
    }
  }

  lemma QuadsStart(g: seq<byte>)
    requires |g| % 4 == 0
    ensures DecodeQuads(g) == Prefixed([], QuadsFrom(g, 0))
  {
    hide DecodeQuads;
    assert g[4 * 0..] == g;
    if DecodeQuads(g).Some? {
      assert [] + DecodeQuads(g).value == DecodeQuads(g).value;
    }
  }

  lemma QuadsNext(g: seq<byte>, q: nat)
    requires |g| % 4 == 0 && 4 * q + 4 <= |g|
    ensures var a, b, c, d := Ascii2Bin(g[4 * q]), Ascii2Bin(g[4 * q + 1]), Ascii2Bin(g[4 * q + 2]), Ascii2Bin(g[4 * q + 3]);
            if a >= 0x80 || b >= 0x80 || c >= 0x80 || d >= 0x80 then QuadsFrom(g, q) == None
            else a < 64 && b < 64 && c < 64 && d < 64
                 && QuadsFrom(g, q) == Prefixed(Triple(a, b, c, d), QuadsFrom(g, q + 1))
  {
    hide Ascii2Bin, Triple;
    Range(g[4 * q]);
    Range(g[4 * q + 1]);
    Range(g[4 * q + 2]);
    Range(g[4 * q + 3]);
    assert g[4 * q..][4..] == g[4 * (q + 1)..];
  }

  lemma QuadsEnd(g: seq<byte>, q: nat, t: seq<byte>)
    requires |g| % 4 == 0 && 4 * q == |g|
    ensures Prefixed(t, QuadsFrom(g, q)) == Some(t)
  {
    assert g[4 * q..] == [] && t + [] == t;
  }

  lemma Range(c: byte)
    ensures Ascii2Bin(c) < 64 || Ascii2Bin(c) >= 0x80
  {
  }

  /** The body of the loop of base64_decode_update. */
  method NextChar(s: State, c: byte) returns (o: Outcome)
    ensures o == StepChar(s, c)
  {
    hide Ascii2Bin, NotBase64, DecodeBlock;
    var n, eof := s.buf, s.eof;
    var v := Ascii2Bin(c);
    if v == B64_ERROR {
      return Fail(s);
    }
    if c == PAD {
      eof := eof + 1;
    } else if eof > 0 && !NotBase64(v) {
      return Fail(s);
    }
    if eof > 2 {
      return Fail(State(n, eof, s.out));
    }
    if v == B64_EOF {
      return Stop(State(n, eof, s.out));
    }
    if !NotBase64(v) {
      if |n| >= 64 {
        return Fail(State(n, eof, s.out));
      }
      n := n + [c];
    }
    if |n| == 64 {
      var d := DecodeBlockLoop(n);
      if d.None? || eof > |d.value| {
        return Fail(State([], eof, s.out));
      }
      return Go(State([], eof, s.out + d.value[..|d.value| - eof]));
    }
    o := Go(State(n, eof, s.out));
  }

  class Decoder {
    var buf: seq<byte>

    constructor ()
      ensures buf == []
    {
      buf := [];
    }

    /** base64_decode_update. */
    method Update(inp: seq<byte>) returns (rv: int, out: seq<byte>)
      modifies this
      ensures Result(rv, buf, out) == UpdateResult(old(buf), inp)
    {
      hide StepChar, DecodeBlock;
      var s := State(buf, PadsKept(buf), []);
      out := [];
      if |inp| == 0 {
        return 0, out;
      }
      ghost var whole := Chars(s, inp);
      var seof := false;
      var i := 0;
      assert inp[0..] == inp;
      while i < |inp| && !seof
        invariant 0 <= i <= |inp|
        invariant !seof ==> Chars(s, inp[i..]) == whole
        invariant seof ==> whole == Stop(s)
        decreases |inp| - i, !seof
      {
        assert inp[i..][0] == inp[i] && inp[i..][1..] == inp[i + 1..];
        var o := NextChar(s, inp[i]);
        s := o.s;
        if o.Fail? {
          buf := s.buf;
          return -1, s.out;
        }
        seof := o.Stop?;
        i := i + 1;
      }
      assert !seof ==> inp[i..] == [];
      var n := s.buf;
      out := s.out;
      if |n| > 0 {
        if |n| % 4 == 0 {
          var d := DecodeBlockLoop(n);
          n := [];
          if d.None? || s.eof > |d.value| {
            buf := n;
            return -1, out;
          }
          out := out + d.value[..|d.value| - s.eof];
        } else if seof {
          buf := n;
          return -1, out;
        }
      }
      rv := if seof || (|n| == 0 && s.eof > 0) then 0 else 1;
      buf := n;
    }

    /** base64_decode_finish. */
    method Finish() returns (rv: int, out: seq<byte>)
      modifies this
      ensures old(buf) == [] ==> rv == 1 && out == [] && buf == []
      ensures old(buf) != [] ==> match DecodeBlock(old(buf))
                                 case None => rv == -1 && out == [] && buf == old(buf)
                                 case Some(d) => rv == 1 && out == d && buf == []
    {
      out := [];
      if |buf| != 0 {
        var d := DecodeBlockLoop(buf);
        if d.None? {
          return -1, out;
        }
        buf := [];
        return 1, d.value;
      }
      rv := 1;
    }
  }

  // ---------- decoding a text in any pieces ----------

  /** The characters that carry data. */
  function Significant(t: seq<byte>): seq<byte> {
    if t == [] then []
    else Significant(t[..|t| - 1]) + if t[|t| - 1] == NEWLINE then [] else [t[|t| - 1]]
  }

  lemma {:induction false} SignificantConcat(a: seq<byte>, b: seq<byte>)
    ensures Significant(a + b) == Significant(a) + Significant(b)
  {
    if b == [] {
      assert a + b == a;
    } else {
      SignificantConcat(a, b[..|b| - 1]);
      assert (a + b)[..|a + b| - 1] == a + b[..|b| - 1];
    }
  }

  lemma {:induction false} AllSignificant(t: seq<byte>)
    requires NEWLINE !in t
    ensures Significant(t) == t
  {
    if t != [] {
      hide Significant;
      var f, c := t[..|t| - 1], t[|t| - 1];
      AllSignificant(f);
      SignificantStep(f, c);
      assert t == f + [c];
    }
  }

  /** Every character of an encoded block decodes; padding is exactly at the end. */
  lemma {:induction false} BlockChars(f: seq<byte>, i: nat)
    requires i < |EncodeBlock(f)|
    ensures var c := EncodeBlock(f)[i];
            Ascii2Bin(c) < 64 && c != NEWLINE && (c == PAD <==> i >= |EncodeBlock(f)| - Pads(|f|))
    decreases |f|
  {
    hide Group, Ascii2Bin, Groups, EncodeBlock, Pads;
    BlockSizes(f);
    if i < 4 {
      GroupChars(f, i);
    } else {
      BlockChars(Rest(f), i - 4);
    }
  }

  /** A block is its first group and the block of the rest. */
  lemma BlockSizes(f: seq<byte>)
    requires |EncodeBlock(f)| > 0
    ensures f != [] && EncodeBlock(f) == Group(f) + EncodeBlock(Rest(f))
    ensures |f| <= 3 ==> |EncodeBlock(f)| == 4
    ensures |f| >= 3 ==> Pads(|Rest(f)|) == Pads(|f|)
    ensures |f| > 3 ==> |EncodeBlock(f)| >= 8
    ensures |f| == 3 ==> Pads(|f|) == 0
    ensures |f| < 3 ==> |EncodeBlock(Rest(f))| == 0
  {
    hide Group, EncodeBlock, Groups, Pads;
    if f == [] {
      NoGroups();
    } else {
      EncodeStep(f);
      GroupCount(|f|);
      GroupCounts(|f|);
      PadsPeriod(|f|);
    }
  }

  lemma GroupCounts(n: nat)
    ensures Groups(0) == 0 && (0 < n <= 3 ==> Groups(n) == 1) && (n > 3 ==> Groups(n) >= 2)
  {
    if n > 3 {
      GroupCount(n - 3);
    }
  }

  lemma PadsPeriod(n: nat)
    ensures (n >= 3 ==> Pads(n - 3) == Pads(n)) && Pads(3) == 0
  {
  }

  lemma GroupCount(n: nat)
    requires n > 0
    ensures Groups(n) == 1 <==> n <= 3
    ensures Groups(n) >= 1
  {
  }

  lemma GroupChars(f: seq<byte>, i: nat)
    requires f != [] && i < 4
    ensures var c := Group(f)[i];
            Ascii2Bin(c) < 64 && c != NEWLINE && (c == PAD <==> |f| < 3 && i >= 4 - Pads(|f|))
  {
    hide Bin2Ascii, Ascii2Bin;
    var a, b, c := Head(f)[0], Head(f)[1], Head(f)[2];
    var l := a as int * 65536 + b as int * 256 + c as int;
    Alphabet(l / 262144 % 64);
    Alphabet(l / 4096 % 64);
    Alphabet(l / 64 % 64);
    Alphabet(l % 64);
    PadDecodes();
  }

  lemma NoNewline(f: seq<byte>)
    ensures NEWLINE !in EncodeBlock(f)
  {
    hide EncodeBlock;
    forall i | 0 <= i < |EncodeBlock(f)| ensures EncodeBlock(f)[i] != NEWLINE {
      BlockChars(f, i);
    }
  }

  lemma LineSignificant(f: seq<byte>)
    ensures Significant(EncodeBlock(f) + [NEWLINE]) == EncodeBlock(f)
  {
    hide EncodeBlock;
    NoNewline(f);
    AllSignificant(EncodeBlock(f));
    var t := EncodeBlock(f) + [NEWLINE];
    assert t[..|t| - 1] == EncodeBlock(f);
  }

  /** Without the line ends the text is one encoded block. */
  lemma {:induction false} TextSignificant(d: seq<byte>)
    ensures Significant(Text(d)) == EncodeBlock(d)
    decreases |d|
  {
    hide EncodeBlock, Significant;
    if |d| < LINE {
      Short(d);
      assert Text(d) == LastLine(d);
      if d == [] {
        NoGroups();
        AllSignificant([]);
      } else {
        LineSignificant(d);
      }
    } else {
      var line := EncodeBlock(d[..LINE]) + [NEWLINE];
      LineStep(d);
      assert Text(d) == line + Text(d[LINE..]);
      TextSignificant(d[LINE..]);
      LineSignificant(d[..LINE]);
      SignificantConcat(line, Text(d[LINE..]));
      EncodeConcat(d[..LINE], d[LINE..]);
      assert d == d[..LINE] + d[LINE..];
    }
  }

  /** The padding among the first q characters. */
  function PadsAt(d: seq<byte>, q: nat): nat {
    var n := |EncodeBlock(d)| - Pads(|d|);
    if q <= n then 0 else q - n
  }

  /** After the text p has been read: the buffer holds the last significant characters, whole groups
      before it have been decoded, and eof counts the padding unless everything is done. */
  ghost predicate Reading(d: seq<byte>, p: seq<byte>, buf: seq<byte>, out: seq<byte>) {
    var e, q := EncodeBlock(d), |Significant(p)|;
    && q <= |e| && Significant(p) == e[..q]
    && |buf| < 64 && |buf| <= q && (q - |buf|) % 4 == 0 && buf == e[q - |buf|..q]
    && out == d[..Min(|d|, (q - |buf|) / 4 * 3)]
  }

  ghost predicate Counted(d: seq<byte>, p: seq<byte>, buf: seq<byte>, eof: nat) {
    var q := |Significant(p)|;
    eof == PadsAt(d, q) || (q == |EncodeBlock(d)| && buf == [])
  }

  lemma {:induction false} GroupsBound(n: nat)
    ensures n <= 3 * Groups(n) < n + 3
  {
    if n > 0 {
      GroupsBound(if n >= 3 then n - 3 else 0);
    }
  }

  /** Cutting groups u to v out of an encoded block. */
  lemma Slice(d: seq<byte>, u: nat, v: nat, j: nat)
    requires u < v <= Groups(|d|) && j == Min(|d|, 3 * v)
    ensures 3 * u <= j <= |d| && 4 * v <= |EncodeBlock(d)|
    ensures EncodeBlock(d)[4 * u..4 * v] == EncodeBlock(d[3 * u..j])
    ensures Pads(j - 3 * u) == PadsAt(d, 4 * v)
  {
    hide EncodeBlock, Groups, Pads, Min;
    SlicePads(|d|, u, v);
    assert |EncodeBlock(d)| == 4 * Groups(|d|);
    SliceBlock(d, u, v, j);
  }

  lemma SliceBlock(d: seq<byte>, u: nat, v: nat, j: nat)
    requires u < v && 4 * v <= |EncodeBlock(d)| && 3 * u <= j <= |d|
    requires (j == 3 * v) || (j == |d| && 4 * v == |EncodeBlock(d)|)
    ensures EncodeBlock(d)[4 * u..4 * v] == EncodeBlock(d[3 * u..j])
  {
    hide EncodeBlock, Groups, Pads;
    if j == 3 * v {
      SliceInside(d, u, v);
    } else {
      SliceEnd(d, u);
      assert d[3 * u..j] == d[3 * u..];
      var e := EncodeBlock(d);
      assert e[4 * u..4 * v] == e[4 * u..];
    }
  }

  lemma SlicePads(n: nat, u: nat, v: nat)
    requires u < v <= Groups(n)
    ensures 3 * u <= Min(n, 3 * v) <= n
    ensures Pads(Min(n, 3 * v) - 3 * u) == (if 4 * v <= 4 * Groups(n) - Pads(n) then 0 else 4 * v - (4 * Groups(n) - Pads(n)))
    ensures Min(n, 3 * v) == if v < Groups(n) then 3 * v else n
  {
    hide Groups;
    GroupsBound(n);
  }

  lemma SliceInside(d: seq<byte>, u: nat, v: nat)
    requires u < v && 3 * v <= |d| && 4 * v <= |EncodeBlock(d)|
    ensures EncodeBlock(d)[4 * u..4 * v] == EncodeBlock(d[3 * u..3 * v])
  {
    hide EncodeBlock, Groups;
    var a, b, c := d[..3 * u], d[3 * u..3 * v], d[3 * v..];
    assert d == a + (b + c);
    EncodeWhole(a, b + c, u);
    EncodeWhole(b, c, v - u);
    Middle(EncodeBlock(a), EncodeBlock(b), EncodeBlock(c));
  }

  /** k whole groups are encoded on their own. */
  lemma EncodeWhole(a: seq<byte>, b: seq<byte>, k: nat)
    requires |a| == 3 * k
    ensures EncodeBlock(a + b) == EncodeBlock(a) + EncodeBlock(b) && |EncodeBlock(a)| == 4 * k
  {
    hide EncodeBlock, Groups;
    EncodeConcat(a, b);
    WholeGroups(k);
  }

  lemma Middle(x: seq<byte>, y: seq<byte>, z: seq<byte>)
    ensures (x + (y + z))[|x|..|x| + |y|] == y
  {
  }

  lemma SliceEnd(d: seq<byte>, u: nat)
    requires 3 * u <= |d| && 4 * u <= |EncodeBlock(d)|
    ensures EncodeBlock(d)[4 * u..] == EncodeBlock(d[3 * u..])
  {
    hide EncodeBlock, Groups;
    var a, b := d[..3 * u], d[3 * u..];
    assert d == a + b;
    EncodeWhole(a, b, u);
  }

  lemma {:induction false} WholeGroups(k: nat)
    ensures Groups(3 * k) == k
  {
    if k > 0 {
      WholeGroups(k - 1);
      assert 3 * k - 3 == 3 * (k - 1);
    }
  }

  lemma NothingToTrim(f: seq<byte>)
    requires |f| % 4 == 0 && forall i :: 0 <= i < |f| ==> Ascii2Bin(f[i]) < 64
    ensures DecodeBlock(f) == DecodeQuads(f)
  {
    hide DecodeQuads;
    assert TrimFront(f) == f;
    assert TrimBack(f) == f;
  }

  /** Flushing whole groups emits exactly their bytes. */
  lemma FlushEmits(d: seq<byte>, u: nat, v: nat, out: seq<byte>)
    requires u < v <= Groups(|d|) && 4 * v <= |EncodeBlock(d)|
    ensures 3 * u <= Min(|d|, 3 * v) <= |d|
    ensures Flush(State(EncodeBlock(d)[4 * u..4 * v], PadsAt(d, 4 * v), out))
         == Go(State([], PadsAt(d, 4 * v), out + d[3 * u..Min(|d|, 3 * v)]))
  {
    hide EncodeBlock, Groups, Pads, DecodeBlock, DecodeQuads, Min, PadsAt, Ascii2Bin;
    var j := Min(|d|, 3 * v);
    Slice(d, u, v, j);
    var f, b := EncodeBlock(d)[4 * u..4 * v], d[3 * u..j];
    BlockRoundTrip(b);
    forall i | 0 <= i < |f| ensures Ascii2Bin(f[i]) < 64 {
      BlockChars(b, i);
    }
    NothingToTrim(f);
    var z := seq(Pads(|b|), _ => 0);
    assert (b + z)[..|b + z| - PadsAt(d, 4 * v)] == b;
  }

  lemma Appended(before: seq<byte>, out: seq<byte>, d: seq<byte>, i: nat, j: nat)
    requires i <= j <= |d| && before + out == d[..i]
    ensures before + (out + d[i..j]) == d[..j]
  {
    assert before + (out + d[i..j]) == (before + out) + d[i..j];
  }

  /** A buffer of whole groups, flushed: the invariant holds with an empty buffer. */
  lemma FlushReading(d: seq<byte>, p: seq<byte>, buf: seq<byte>, eof: nat, before: seq<byte>, out: seq<byte>)
    requires var e, q := EncodeBlock(d), |Significant(p)|;
             && q <= |e| && Significant(p) == e[..q] && 0 < |buf| <= q && |buf| % 4 == 0 && q % 4 == 0 && buf == e[q - |buf|..q]
             && before + out == d[..Min(|d|, (q - |buf|) / 4 * 3)] && eof == PadsAt(d, q)
    ensures var o := Flush(State(buf, eof, out));
            o.Go? && o.s.buf == [] && o.s.eof == eof && Reading(d, p, [], before + o.s.out)
  {
    hide EncodeBlock, Groups, PadsAt, Flush, Significant, Min;
    var w := Quarter(|buf|);
    var v := Quarter(|Significant(p)|);
    var u := v - w;
    Quadrupled(u, |Significant(p)| - |buf|);
    FlushGroups(d, p, u, v, before, out);
  }

  lemma FlushGroups(d: seq<byte>, p: seq<byte>, u: nat, v: nat, before: seq<byte>, out: seq<byte>)
    requires u < v && |Significant(p)| == 4 * v <= |EncodeBlock(d)| && Significant(p) == EncodeBlock(d)[..4 * v]
    requires before + out == d[..Min(|d|, 3 * u)]
    ensures var eof := PadsAt(d, 4 * v); var o := Flush(State(EncodeBlock(d)[4 * u..4 * v], eof, out));
            o.Go? && o.s.buf == [] && o.s.eof == eof && Reading(d, p, [], before + o.s.out)
  {
    hide EncodeBlock, Groups, PadsAt, Flush, Significant, Reading;
    FlushEmits(d, u, v, out);
    Appended(before, out, d, 3 * u, Min(|d|, 3 * v));
    ReadingDone(d, p, v, d[..Min(|d|, 3 * v)]);
  }

  lemma ReadingDone(d: seq<byte>, p: seq<byte>, v: nat, out: seq<byte>)
    requires |Significant(p)| == 4 * v <= |EncodeBlock(d)| && Significant(p) == EncodeBlock(d)[..4 * v]
    requires out == d[..Min(|d|, 3 * v)]
    ensures Reading(d, p, [], out)
  {
    hide EncodeBlock, Significant, Min;
    Quadrupled(v, 4 * v);
  }

  lemma Quarter(n: nat) returns (k: nat)
    requires n % 4 == 0
    ensures n == 4 * k
  {
    k := n / 4;
  }

  lemma Quadrupled(k: nat, n: nat)
    requires n == 4 * k
    ensures n % 4 == 0 && n / 4 * 3 == 3 * k
  {
  }

  lemma StepNewline(d: seq<byte>, p: seq<byte>, s: State, before: seq<byte>)
    requires Reading(d, p, s.buf, before + s.out) && Counted(d, p, s.buf, s.eof) && s.eof <= 2
    ensures StepChar(s, NEWLINE) == Go(s)
    ensures Reading(d, p + [NEWLINE], s.buf, before + s.out) && Counted(d, p + [NEWLINE], s.buf, s.eof)
  {
    hide EncodeBlock, PadsAt;
    assert (p + [NEWLINE])[..|p|] == p;
    assert Significant(p + [NEWLINE]) == Significant(p);
  }

  /** What the next data character does to the padding count. */
  lemma NextPad(d: seq<byte>, q: nat)
    requires q < |EncodeBlock(d)|
    ensures var c := EncodeBlock(d)[q];
            && Ascii2Bin(c) < 64 && c != NEWLINE
            && PadsAt(d, q + 1) == (if c == PAD then PadsAt(d, q) + 1 else 0) && PadsAt(d, q + 1) <= 2
            && (c != PAD ==> PadsAt(d, q) == 0)
  {
    hide EncodeBlock, Ascii2Bin;
    BlockChars(d, q);
  }

  lemma StepData(d: seq<byte>, p: seq<byte>, c: byte, s: State, before: seq<byte>)
    requires Reading(d, p, s.buf, before + s.out) && Counted(d, p, s.buf, s.eof) && c != NEWLINE
    requires |Significant(p)| < |EncodeBlock(d)| && EncodeBlock(d)[|Significant(p)|] == c
    ensures var o := StepChar(s, c);
            o.Go? && Reading(d, p + [c], o.s.buf, before + o.s.out) && Counted(d, p + [c], o.s.buf, o.s.eof) && o.s.eof <= 2
  {
    hide EncodeBlock, PadsAt, Flush, Ascii2Bin, Significant, Reading, Counted, StepChar;
    var e, q := EncodeBlock(d), |Significant(p)|;
    NextPad(d, q);
    var t := State(s.buf + [c], PadsAt(d, q + 1), s.out);
    Extended(d, p, c, s.buf, before + s.out);
    CountedBelow(d, p, s.buf, s.eof);
    ReadingShort(d, p, s.buf, before + s.out);
    DataStep(s, c, t);
    if |t.buf| == 64 {
      FlushReading(d, p + [c], t.buf, t.eof, before, t.out);
    }
    CountedIs(d, p + [c], t.buf, t.eof);
    CountedIs(d, p + [c], [], t.eof);
  }

  lemma CountedBelow(d: seq<byte>, p: seq<byte>, buf: seq<byte>, eof: nat)
    requires Counted(d, p, buf, eof) && |Significant(p)| < |EncodeBlock(d)|
    ensures eof == PadsAt(d, |Significant(p)|)
  {
    hide EncodeBlock, PadsAt, Significant;
  }

  lemma CountedIs(d: seq<byte>, p: seq<byte>, buf: seq<byte>, eof: nat)
    requires eof == PadsAt(d, |Significant(p)|)
    ensures Counted(d, p, buf, eof)
  {
    hide EncodeBlock, PadsAt, Significant;
  }

  lemma ReadingShort(d: seq<byte>, p: seq<byte>, buf: seq<byte>, out: seq<byte>)
    requires Reading(d, p, buf, out)
    ensures |buf| < 64
  {
    hide EncodeBlock, Significant;
  }

  /** The buffer with the next data character still is the end of what was read. */
  lemma Extended(d: seq<byte>, p: seq<byte>, c: byte, buf: seq<byte>, out: seq<byte>)
    requires Reading(d, p, buf, out) && c != NEWLINE
    requires |Significant(p)| < |EncodeBlock(d)| && EncodeBlock(d)[|Significant(p)|] == c
    ensures var e, q, b := EncodeBlock(d), |Significant(p)| + 1, buf + [c];
            && Significant(p + [c]) == e[..q] && |b| <= q && (q - |b|) % 4 == 0 && b == e[q - |b|..q]
            && out == d[..Min(|d|, (q - |b|) / 4 * 3)]
            && (|b| < 64 ==> Reading(d, p + [c], b, out))
            && (|b| == 64 ==> q % 4 == 0)
  {
    hide EncodeBlock, Min, Groups, Significant;
    SignificantStep(p, c);
    var e, q := EncodeBlock(d), |Significant(p)|;
    GrowSlice(e, q, q - |buf|);
    assert q + 1 - |buf + [c]| == q - |buf|;
    if |buf| == 63 {
      BothAligned(q + 1, 64);
    }
  }

  lemma SignificantStep(p: seq<byte>, c: byte)
    ensures Significant(p + [c]) == Significant(p) + if c == NEWLINE then [] else [c]
  {
    assert (p + [c])[..|p|] == p;
  }

  lemma GrowSlice(e: seq<byte>, q: nat, k: nat)
    requires k <= q < |e|
    ensures e[..q] + [e[q]] == e[..q + 1] && e[k..q] + [e[q]] == e[k..q + 1]
  {
  }

  lemma DataStep(s: State, c: byte, t: State)
    requires Ascii2Bin(c) < 64 && |s.buf| < 64 && t.buf == s.buf + [c] && t.out == s.out
    requires t.eof == (if c == PAD then s.eof + 1 else s.eof) && t.eof <= 2 && (c != PAD ==> s.eof == 0)
    ensures StepChar(s, c) == if |t.buf| == 64 then Flush(t) else Go(t)
  {
    hide Flush;
  }

  /** Reading a stretch r of the text, followed by w. */
  lemma {:induction false} CharsReading(d: seq<byte>, p: seq<byte>, r: seq<byte>, w: seq<byte>, s: State, before: seq<byte>)
    requires Reading(d, p, s.buf, before + s.out) && Counted(d, p, s.buf, s.eof) && s.eof <= 2
    requires Significant(p + r + w) == EncodeBlock(d)
    ensures var o := Chars(s, r);
            o.Go? && Reading(d, p + r, o.s.buf, before + o.s.out) && Counted(d, p + r, o.s.buf, o.s.eof) && o.s.eof <= 2
    decreases |r|
  {
    hide EncodeBlock, Reading, Counted, StepChar, Significant;
    if r == [] {
      assert p + r == p;
    } else {
      var c, r' := r[0], r[1..];
      assert p + r + w == p + [c] + r' + w;
      if c == NEWLINE {
        StepNewline(d, p, s, before);
        CharsReading(d, p + [c], r', w, s, before);
      } else {
        NextCharacter(p, c, r' + w);
        assert p + [c] + r' + w == p + [c] + (r' + w);
        ReadingPrefix(d, p, s.buf, before + s.out);
        StepData(d, p, c, s, before);
        CharsReading(d, p + [c], r', w, StepChar(s, c).s, before);
      }
      assert p + [c] + r' == p + r;
    }
  }

  lemma ReadingPrefix(d: seq<byte>, p: seq<byte>, buf: seq<byte>, out: seq<byte>)
    requires Reading(d, p, buf, out)
    ensures |Significant(p)| <= |EncodeBlock(d)|
  {
  }

  lemma NextCharacter(p: seq<byte>, c: byte, w: seq<byte>)
    requires c != NEWLINE
    ensures var e := Significant(p + [c] + w); |Significant(p)| < |e| && e[|Significant(p)|] == c
  {
    SignificantConcat(p + [c], w);
    SignificantConcat(p, [c]);
    assert [c][..0] == [];
    assert Significant([c]) == [c];
  }

  /** At the start of a call the padding count is recovered from the buffer. */
  lemma Recount(d: seq<byte>, p: seq<byte>, buf: seq<byte>, out: seq<byte>)
    requires Reading(d, p, buf, out) && (|buf| == 0 || |buf| % 4 != 0)
    ensures Counted(d, p, buf, PadsKept(buf)) && PadsKept(buf) <= 2
  {
    hide EncodeBlock, Ascii2Bin, Groups, Reading, Significant;
    var q := |Significant(p)|;
    ReadingEnds(d, p, buf, out);
    if |buf| > 0 {
      BlockChars(d, q - 1);
      if |buf| > 1 {
        BlockChars(d, q - 2);
      }
    }
  }

  /** The last characters of the buffer, and that a buffer with an incomplete group is not the end. */
  lemma ReadingEnds(d: seq<byte>, p: seq<byte>, buf: seq<byte>, out: seq<byte>)
    requires Reading(d, p, buf, out) && (|buf| == 0 || |buf| % 4 != 0)
    ensures var e, q := EncodeBlock(d), |Significant(p)|;
            && |buf| <= q <= |e| && (|buf| > 0 ==> q < |e| && buf[|buf| - 1] == e[q - 1])
            && (|buf| > 1 ==> buf[|buf| - 2] == e[q - 2])
            && (|buf| == 0 ==> q % 4 == 0) && |e| % 4 == 0
  {
    hide EncodeBlock, Groups, Significant, Min;
    var e, q := EncodeBlock(d), |Significant(p)|;
    Quadrupled(Groups(|d|), |e|);
    if |buf| > 0 {
      NotAligned(q, |buf|, |e|);
    }
  }

  lemma NotAligned(q: nat, b: nat, e: nat)
    requires b <= q && (q - b) % 4 == 0 && b % 4 != 0 && e % 4 == 0
    ensures q != e
  {
  }

  /** One call on the next piece r of the text. */
  lemma UpdateReading(d: seq<byte>, p: seq<byte>, r: seq<byte>, w: seq<byte>, buf: seq<byte>, before: seq<byte>)
    requires Reading(d, p, buf, before) && (|buf| == 0 || |buf| % 4 != 0) && Significant(p + r + w) == EncodeBlock(d)
    ensures var u := UpdateResult(buf, r);
            u.rv >= 0 && Reading(d, p + r, u.buf, before + u.out) && (|u.buf| == 0 || |u.buf| % 4 != 0)
  {
    hide EncodeBlock, Reading, Counted, Chars, Significant, PadsKept, Flush;
    if r == [] {
      assert p + r == p && before + [] == before;
    } else {
      var s := State(buf, PadsKept(buf), []);
      assert before + [] == before;
      Recount(d, p, buf, before);
      CharsReading(d, p, r, w, s, before);
      var t := Chars(s, r).s;
      if |t.buf| > 0 && |t.buf| % 4 == 0 {
        TailFlush(d, p + r, t, before);
      }
    }
  }

  lemma TailFlush(d: seq<byte>, p: seq<byte>, t: State, before: seq<byte>)
    requires Reading(d, p, t.buf, before + t.out) && Counted(d, p, t.buf, t.eof) && |t.buf| > 0 && |t.buf| % 4 == 0
    ensures var o := Flush(t); o.Go? && o.s.buf == [] && Reading(d, p, [], before + o.s.out)
  {
    hide EncodeBlock, Flush, PadsAt, Significant, Min;
    BothAligned(|Significant(p)|, |t.buf|);
    FlushReading(d, p, t.buf, t.eof, before, t.out);
  }

  lemma BothAligned(q: nat, b: nat)
    requires b <= q && (q - b) % 4 == 0 && b % 4 == 0
    ensures q % 4 == 0
  {
  }

  /** A run of calls on pieces: everything emitted, and the buffer left. */
  function DecodeRun(pieces: seq<seq<byte>>): (r: (bool, seq<byte>, seq<byte>)) {
    if pieces == [] then (true, [], [])
    else
      var p := DecodeRun(pieces[..|pieces| - 1]);
      var u := UpdateResult(p.1, pieces[|pieces| - 1]);
      (p.0 && u.rv >= 0, u.buf, p.2 + u.out)
  }

  lemma {:induction false} RunReading(d: seq<byte>, pieces: seq<seq<byte>>, w: seq<byte>)
    requires Significant(Flatten(pieces) + w) == EncodeBlock(d)
    ensures var r := DecodeRun(pieces);
            r.0 && Reading(d, Flatten(pieces), r.1, r.2) && (|r.1| == 0 || |r.1| % 4 != 0)
  {
    hide EncodeBlock, Reading, UpdateResult, Significant;
    if pieces == [] {
      StartReading(d);
    } else {
      var l, r := pieces[..|pieces| - 1], pieces[|pieces| - 1];
      assert Flatten(pieces) + w == Flatten(l) + (r + w);
      RunReading(d, l, r + w);
      assert Flatten(l) + r + w == Flatten(l) + (r + w);
      UpdateReading(d, Flatten(l), r, w, DecodeRun(l).1, DecodeRun(l).2);
    }
  }

  lemma StartReading(d: seq<byte>)
    ensures Reading(d, [], [], [])
  {
    hide EncodeBlock, Significant, Groups;
    AllSignificant([]);
    NothingRead(EncodeBlock(d), d);
  }

  lemma NothingRead(e: seq<byte>, d: seq<byte>)
    ensures e[..0] == [] && e[0..0] == [] && d[..Min(|d|, 0)] == []
  {
  }

  /** However the text of d is cut into pieces, no call fails, the outputs together are d, and
      nothing is left for the final call. */
  lemma DecodeAnyPieces(d: seq<byte>, pieces: seq<seq<byte>>)
    requires Flatten(pieces) == Text(d)
    ensures DecodeRun(pieces) == (true, [], d)
  {
    hide EncodeBlock, Significant, Text, DecodeRun;
    TextSignificant(d);
    assert Text(d) + [] == Text(d);
    RunReading(d, pieces, []);
    var r := DecodeRun(pieces);
    EverythingRead(d, Text(d), r.1, r.2);
  }

  lemma EverythingRead(d: seq<byte>, t: seq<byte>, buf: seq<byte>, out: seq<byte>)
    requires Significant(t) == EncodeBlock(d) && Reading(d, t, buf, out) && (|buf| == 0 || |buf| % 4 != 0)
    ensures buf == [] && out == d
  {
    hide EncodeBlock, Groups;
    GroupsBound(|d|);
    var q := |EncodeBlock(d)|;
    assert q % 4 == 0;
    assert buf == [];
    assert out == d[..|d|];
  }
}
