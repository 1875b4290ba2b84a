/** The polynomial routines of src/kyber.c as in-place array code, each proved
    against the functions of KyberRing and KyberNtt. */
module KyberPoly {
  import opened Common
  import opened Modular
  import opened KyberRing
  import opened KyberNtt

  // ---------- tables ----------

  /** The global table zeta[256] holds the powers of 17. */
  ghost predicate IsZetaTable(zeta: array<int16>)
    reads zeta
  {
    zeta.Length == 256 && forall i :: 0 <= i < 256 ==> zeta[i] == Zeta(i)
  }

  method InitZeta() returns (zeta: array<int16>)
    ensures IsZetaTable(zeta) && fresh(zeta)
  {
    hide Zeta;
    zeta := new int16[256];
    ZetaStart();
    zeta[0] := 1;
    for i := 1 to 256
      invariant forall j :: 0 <= j < i ==> zeta[j] == Zeta(j)
    {
      ZetaNext(i);
      zeta[i] := (zeta[i - 1] as int * 17) % 3329;
    }
  }

  lemma ZetaStart()
    ensures Zeta(0) == 1
  {
  }

  lemma ZetaNext(i: nat)
    requires i > 0
    ensures Zeta(i) == (Zeta(i - 1) * 17) % Q
  {
  }

  lemma Br7Step(r: nat, i: nat, bits: nat)
    requires bits > 0
    ensures r * Two(bits) + BitRev(i, bits) == (2 * r + i % 2) * Two(bits - 1) + BitRev(i / 2, bits - 1)
  {
    var w := Two(bits - 1);
    assert r * (2 * w) == (2 * r) * w;
    assert (2 * r + i % 2) * w == (2 * r) * w + (i % 2) * w;
  }

  method Br7(x: nat) returns (r: nat)
    requires x < 256
    ensures r == BitRev(x, 7) < 128
  {
    hide BitRev, Two;
    r := 0;
    var i: nat := x;
    for j := 0 to 7
      invariant r * Two(7 - j) + BitRev(i, 7 - j) == BitRev(x, 7)
    {
      Br7Step(r, i, 7 - j);
      r := 2 * r + i % 2;
      i := i / 2;
    }
    Br7End(r, i, x);
  }

  lemma Br7End(r: nat, i: nat, x: nat)
    requires r * Two(0) + BitRev(i, 0) == BitRev(x, 7)
    ensures r == BitRev(x, 7) < 128
  {
    BitRevBound(x, 7);
    assert Two(7) == 128;
  }

  // ---------- level-order view of the transform tree ----------

  /** len is a whole number of blocks of length m. */
  predicate Blocks(len: nat, m: nat) {
    len == 0 || (0 < m <= len && Blocks(len - m, m))
  }

  lemma {:induction false} BlocksMultiple(k: nat, m: nat)
    requires m > 0
    ensures Blocks(k * m, m)
  {
    if k > 0 {
      BlocksMultiple(k - 1, m);
      assert k * m == (k - 1) * m + m;
    }
  }

  lemma WholeBlocks(m: nat)
    requires IsSize(m)
    ensures Blocks(256, m)
  {
    BlocksMultiple(256 / m, m);
  }

  /** One pass of butterflies over consecutive blocks owned by nodes x, x+1, ... */
  function NttLevel(s: seq<int>, m: nat, x: nat): (r: seq<int>)
    requires IsSize(m) && Blocks(|s|, m)
    ensures |r| == |s|
  {
    if |s| == 0 then []
    else Fold(s[..m], Twiddle(x)) + Fold(s[..m], -Twiddle(x)) + NttLevel(s[m..], m, x + 1)
  }

  ghost function NttForest(s: seq<int>, m: nat, x: nat): (r: seq<int>)
    requires IsSize(m) && Blocks(|s|, m)
    ensures |r| == |s|
  {
    if |s| == 0 then []
    else NttTree(s[..m], x) + NttForest(s[m..], m, x + 1)
  }

  lemma {:induction false} BlocksHalve(len: nat, m: nat)
    requires IsSize(m) && m > 2 && Blocks(len, m)
    ensures Blocks(len, m / 2)
  {
    if len > 0 {
      BlocksHalve(len - m, m);
      assert Blocks(len - m / 2, m / 2);
    }
  }

  lemma ForestSplit(a: seq<int>, b: seq<int>, rest: seq<int>, h: nat, x: nat)
    requires IsSize(h) && |a| == h && |b| == h && Blocks(|rest|, h)
    ensures Blocks(|a + b + rest|, h)
    ensures NttForest(a + b + rest, h, x)
            == NttTree(a, x) + NttTree(b, x + 1) + NttForest(rest, h, x + 2)
  {
    hide NttTree;
    var t := a + b + rest;
    assert Blocks(|t| - h, h);
    assert t[..h] == a && t[h..] == b + rest;
    assert (b + rest)[..h] == b && (b + rest)[h..] == rest;
    assert NttForest(b + rest, h, x + 1) == NttTree(b, x + 1) + NttForest(rest, h, x + 2);
  }

  /** A pass of butterflies moves every tree of the forest one level down. */
  lemma {:induction false} ForestDescends(s: seq<int>, m: nat, x: nat)
    requires IsSize(m) && m > 2 && Blocks(|s|, m)
    ensures Blocks(|s|, m / 2)
    ensures NttForest(NttLevel(s, m, x), m / 2, 2 * x) == NttForest(s, m, x)
  {
    hide Twiddle, Fold, NttTree;
    BlocksHalve(|s|, m);
    if |s| > 0 {
      var lo, hi := Fold(s[..m], Twiddle(x)), Fold(s[..m], -Twiddle(x));
      ForestDescends(s[m..], m, x + 1);
      ForestSplit(lo, hi, NttLevel(s[m..], m, x + 1), m / 2, 2 * x);
      NttTreeStep(s[..m], x);
    }
  }

  lemma {:induction false} ForestOfLeaves(s: seq<int>, x: nat)
    requires Blocks(|s|, 2)
    ensures NttForest(s, 2, x) == s
  {
    if |s| > 0 {
      ForestOfLeaves(s[2..], x + 1);
      assert s == s[..2] + s[2..];
    }
  }

  // ---------- forward transform ----------

  /** The coefficient array after the first i butterflies of the group at off. */
  ghost function AfterButterflies(s: seq<int>, off: nat, n: nat, i: nat, z: int): (r: seq<int>)
    requires off + 2 * n <= |s| && i <= n
    ensures |r| == |s|
  {
    seq(|s|, j requires 0 <= j < |s| =>
      if off <= j < off + i then FoldAt(s[j], s[j + n], z)
      else if off + n <= j < off + n + i then FoldAt(s[j - n], s[j], -z)
      else s[j])
  }

  lemma AfterNone(s: seq<int>, off: nat, n: nat, z: int)
    requires off + 2 * n <= |s|
    ensures AfterButterflies(s, off, n, 0, z) == s
  {
  }

  lemma AfterNext(s: seq<int>, off: nat, n: nat, i: nat, z: int)
    requires off + 2 * n <= |s| && i < n && Canonical(s)
    ensures var r := AfterButterflies(s, off, n, i, z); var x := s[off + i]; var y := s[off + n + i];
            r[off + i] == x && r[off + n + i] == y && 0 <= x < Q && 0 <= y < Q
            && AfterButterflies(s, off, n, i + 1, z)
               == r[off + n + i := FoldAt(x, y, -z)][off + i := FoldAt(x, y, z)]
  {
    hide FoldAt;
  }

  lemma ButterflyHalves(s: seq<int>, off: nat, n: nat, z: int)
    requires off + 2 * n <= |s|
    ensures var r := AfterButterflies(s, off, n, n, z); var blk := s[off..off + 2 * n];
            r[off..off + n] == Fold(blk, z) && r[off + n..off + 2 * n] == Fold(blk, -z)
            && r[..off] == s[..off] && r[off + 2 * n..] == s[off + 2 * n..]
  {
    hide AfterButterflies, Fold;
    var r, blk := AfterButterflies(s, off, n, n, z), s[off..off + 2 * n];
    ButterfliesOutside(s, off, n, z);
    var lo, hi := r[off..off + n], r[off + n..off + 2 * n];
    forall i | 0 <= i < n ensures lo[i] == Fold(blk, z)[i] {
      ButterfliesInside(s, off, n, z, i);
    }
    forall i | 0 <= i < n ensures hi[i] == Fold(blk, -z)[i] {
      ButterfliesInside(s, off, n, z, i);
    }
    assert lo == Fold(blk, z) && hi == Fold(blk, -z);
  }

  lemma ButterfliesOutside(s: seq<int>, off: nat, n: nat, z: int)
    requires off + 2 * n <= |s|
    ensures var r := AfterButterflies(s, off, n, n, z); r[..off] == s[..off] && r[off + 2 * n..] == s[off + 2 * n..]
  {
    hide FoldAt;
  }

  lemma ButterfliesInside(s: seq<int>, off: nat, n: nat, z: int, i: nat)
    requires off + 2 * n <= |s| && i < n
    ensures var r := AfterButterflies(s, off, n, n, z); var blk := s[off..off + 2 * n];
            r[off + i] == Fold(blk, z)[i] && r[off + n + i] == Fold(blk, -z)[i]
  {
    hide FoldAt, AfterButterflies;
    var blk := s[off..off + 2 * n];
    assert |blk| / 2 == n && blk[i] == s[off + i] && blk[n + i] == s[off + n + i];
    AfterButterfliesAt(s, off, n, z, i);
  }

  lemma AfterButterfliesAt(s: seq<int>, off: nat, n: nat, z: int, i: nat)
    requires off + 2 * n <= |s| && i < n
    ensures var r := AfterButterflies(s, off, n, n, z);
            r[off + i] == FoldAt(s[off + i], s[off + n + i], z) && r[off + n + i] == FoldAt(s[off + i], s[off + n + i], -z)
  {
    hide FoldAt;
    assert off + i + n == off + n + i && off + n + i - n == off + i;
  }

  lemma AllButterflies(s: seq<int>, off: nat, n: nat, z: int)
    requires off + 2 * n <= |s| && Canonical(s)
    ensures var r := AfterButterflies(s, off, n, n, z); var blk := s[off..off + 2 * n];
            r == s[..off] + Fold(blk, z) + Fold(blk, -z) + s[off + 2 * n..] && Canonical(r)
  {
    hide Fold, AfterButterflies;
    ButterflyHalves(s, off, n, z);
    var r := AfterButterflies(s, off, n, n, z);
    assert r == r[..off] + r[off..off + n] + r[off + n..off + 2 * n] + r[off + 2 * n..];
  }

  /** One butterfly group: the block of 2n coefficients at off is replaced by its two remainders. */
  method NttGroup(a: array<int16>, off: nat, n: nat, z: int)
    requires off + 2 * n <= a.Length && Canonical(a[..]) && 0 <= z < Q
    modifies a
    ensures var blk := old(a[off..off + 2 * n]);
            a[..] == old(a[..off]) + Fold(blk, z) + Fold(blk, -z) + old(a[off + 2 * n..])
    ensures Canonical(a[..])
  {
    hide Fold, FoldAt, AfterButterflies;
    ghost var s: seq<int> := a[..];
    AfterNone(s, off, n, z);
    for i := 0 to n
      invariant a[..] == AfterButterflies(s, off, n, i, z)
    {
      AfterNext(s, off, n, i, z);
      var x, y := a[off + i] as int, a[off + n + i] as int;
      assert x == a[..][off + i] && y == a[..][off + n + i];
      Butterfly(x, y, z);
      var t := (y * z) % 3329;
      a[off + n + i] := (x + 3329 - t) % 3329;
      a[off + i] := (x + t) % 3329;
    }
    AllButterflies(s, off, n, z);
    assert s[..off] == old(a[..off]) && s[off..off + 2 * n] == old(a[off..off + 2 * n]);
  }

  lemma Butterfly(x: int, y: int, z: int)
    requires 0 <= x < Q && 0 <= y < Q && 0 <= z < Q
    ensures 0 <= y * z < 0x8000_0000
    ensures (x + (y * z) % 3329) % 3329 == FoldAt(x, y, z)
    ensures (x + 3329 - (y * z) % 3329) % 3329 == FoldAt(x, y, -z)
  {
    assert z * y == y * z && -z * y == -(y * z);
    MulBound(y, z, 3328);
    LateReduction(x, y * z);
  }

  lemma LateReduction(x: int, p: int)
    ensures (x + p % Q) % Q == (x + p) % Q
    ensures (x + Q - p % Q) % Q == (x - p) % Q
  {
    hide Cong;
    CongMod(p, Q);
    CongSelf(x, Q);
    CongAdd(x, x, p % Q, p, Q);
    CongRemainders(x + p % Q, x + p, Q);
    CongFromMultiple(x + Q, x, 1, Q);
    CongSub(x + Q, x, p % Q, p, Q);
    CongRemainders(x + Q - p % Q, x - p, Q);
  }

  lemma MulBound(x: int, y: int, b: int)
    requires 0 <= x <= b && 0 <= y <= b
    ensures 0 <= x * y <= b * b
  {
  }

  lemma LevelBounds(n: nat, g: nat)
    requires IsSize(2 * n) && g < 256 / (2 * n)
    ensures 2 * n * g + 2 * n <= 256 && 2 * n * (g + 1) == 2 * n * g + 2 * n
  {
  }

  /** The array cur halfway through a level: blocks before off are done, the rest untouched. */
  ghost predicate PassState(lv: seq<int>, cur: seq<int>, off: nat, m: nat, brI: nat, x: nat) {
    |lv| == |cur| == 256 && off <= 256 && IsSize(m) && Blocks(256, m) && Blocks(256 - off, m)
    && Canonical(cur)
    && cur[off..] == lv[off..]
    && cur[..off] + NttLevel(lv[off..], m, brI) == NttLevel(lv, m, x)
  }

  lemma PassStart(lv: seq<int>, m: nat, x: nat)
    requires |lv| == 256 && IsSize(m) && Blocks(256, m) && Canonical(lv)
    ensures PassState(lv, lv, 0, m, x, x)
  {
    assert lv[0..] == lv && lv[..0] == [];
  }

  lemma PassNext(lv: seq<int>, cur: seq<int>, cur': seq<int>, off: nat, m: nat, brI: nat, x: nat)
    requires PassState(lv, cur, off, m, brI, x) && off < 256
    ensures off + m <= 256
    requires var blk := cur[off..][..m];
             cur' == cur[..off] + Fold(blk, Twiddle(brI)) + Fold(blk, -Twiddle(brI)) + cur[off..][m..]
    ensures PassState(lv, cur', off + m, m, brI + 1, x)
  {
    hide Fold, Twiddle;
    var blk := lv[off..][..m];
    var lo, hi := Fold(blk, Twiddle(brI)), Fold(blk, -Twiddle(brI));
    assert lv[off..][m..] == lv[off + m..];
    var tail := NttLevel(lv[off + m..], m, brI + 1);
    assert NttLevel(lv[off..], m, brI) == lo + hi + tail;
    assert cur'[..off + m] == cur[..off] + lo + hi;
    assert cur[..off] + (lo + hi + tail) == (cur[..off] + lo + hi) + tail;
  }

  lemma PassEnd(lv: seq<int>, cur: seq<int>, m: nat, brI: nat, x: nat)
    requires PassState(lv, cur, 256, m, brI, x)
    ensures cur == NttLevel(lv, m, x)
  {
    assert cur[..256] == cur;
    assert NttLevel(lv[256..], m, brI) == [];
  }

  /** The loop over the groups of one level; brI runs on from one group to the next. */
  method NttPass(a: array<int16>, zeta: array<int16>, n: nat, x: nat) returns (brI: nat)
    requires a.Length == 256 && Canonical(a[..]) && IsZetaTable(zeta) && a != zeta
    requires IsSize(2 * n) && x == 256 / (2 * n) && Blocks(256, 2 * n)
    modifies a
    ensures a[..] == NttLevel(old(a[..]), 2 * n, x) && Canonical(a[..])
    ensures brI == x + 256 / (2 * n)
  {
    hide Fold, Twiddle, PassState, Blocks, NttLevel;
    ghost var lv: seq<int> := a[..];
    brI := x;
    var off: nat := 0;
    var g := 0;
    PassStart(lv, 2 * n, x);
    while g < 256 / (2 * n)
      invariant 0 <= g <= 256 / (2 * n) && off == 2 * n * g && off <= 256 && brI == x + g
      invariant IsZetaTable(zeta) && Canonical(a[..])
      invariant PassState(lv, a[..], off, 2 * n, brI, x)
    {
      LevelBounds(n, g);
      var r := Br7(brI);
      TwiddleIs(brI, r);
      ghost var cur: seq<int> := a[..];
      assert cur[off..][..2 * n] == a[off..off + 2 * n] && cur[off..][2 * n..] == a[off + 2 * n..];
      NttGroup(a, off, n, zeta[r]);
      PassNext(lv, cur, a[..], off, 2 * n, brI, x);
      brI := brI + 1;
      off := off + 2 * n;
      g := g + 1;
    }
    LevelEnds(n, g);
    PassEnd(lv, a[..], 2 * n, brI, x);
  }

  lemma LevelEnds(n: nat, g: nat)
    requires IsSize(2 * n) && g == 256 / (2 * n)
    ensures 2 * n * g == 256
  {
  }

  lemma TwiddleIs(x: nat, r: nat)
    requires r == BitRev(x, 7)
    ensures Twiddle(x) == Zeta(r)
  {
  }

  method PolyNtt(a: array<int16>, zeta: array<int16>)
    requires a.Length == 256 && Canonical(a[..]) && IsZetaTable(zeta) && a != zeta
    modifies a
    ensures a[..] == Ntt(old(a[..])) && Canonical(a[..])
  {
    hide NttTree, NttLevel;
    ghost var s := a[..];
    var brI := 1;
    var n: nat := 128;
    WholeBlocks(256);
    assert s[..256] == s && s[256..] == [];
    while n >= 2
      invariant n == 1 || IsSize(n)
      invariant n < 256 && brI == 256 / (2 * n)
      invariant IsZetaTable(zeta) && Canonical(a[..])
      invariant Blocks(256, 2 * n) && NttForest(a[..], 2 * n, brI) == NttTree(s, 1)
    {
      ForestDescends(a[..], 2 * n, brI);
      brI := NttPass(a, zeta, n, brI);
      n := n / 2;
    }
    ForestOfLeaves(a[..], brI);
  }

  // ---------- inverse transform ----------

  /** One pass of inverse butterflies over consecutive blocks owned by nodes x, x+1, ... */
  function InvLevel(s: seq<int>, m: nat, x: nat): (r: seq<int>)
    requires IsSize(m) && Blocks(|s|, m)
    ensures |r| == |s|
  {
    if |s| == 0 then []
    else Unfold(s[..m / 2], s[..m][m / 2..], InvTwiddle(x)) + InvLevel(s[m..], m, x + 1)
  }

  ghost function InvForest(s: seq<int>, m: nat, x: nat): (r: seq<int>)
    requires IsSize(m) && Blocks(|s|, m)
    ensures |r| == |s|
  {
    if |s| == 0 then []
    else InvTree(s[..m], x) + InvForest(s[m..], m, x + 1)
  }

  lemma InvForestSplit(s: seq<int>, h: nat, x: nat)
    requires IsSize(h) && 2 * h <= |s| && Blocks(|s| - 2 * h, h)
    ensures Blocks(|s|, h)
    ensures InvForest(s, h, x)
            == InvTree(s[..h], x) + InvTree(s[h..2 * h], x + 1) + InvForest(s[2 * h..], h, x + 2)
  {
    hide InvTree;
    assert Blocks(|s| - h, h);
    assert s[h..][..h] == s[h..2 * h] && s[h..][h..] == s[2 * h..];
  }

  lemma SizePositive(m: nat)
    requires IsSize(m)
    ensures m >= 2
  {
  }

  lemma BlocksExtend(len: nat, h: nat)
    requires IsSize(h) && IsSize(2 * h) && 2 * h <= len && Blocks(len - 2 * h, h) && Blocks(len - 2 * h, 2 * h)
    ensures Blocks(len, h) && Blocks(len, 2 * h)
  {
    assert Blocks(len - h, h);
  }

  lemma AscendStep(s: seq<int>, h: nat, x: nat)
    requires IsSize(h) && IsSize(2 * h) && 2 * h <= |s| && Blocks(|s| - 2 * h, h) && Blocks(|s| - 2 * h, 2 * h)
    ensures Blocks(|s|, h) && Blocks(|s|, 2 * h)
    ensures InvLevel(InvForest(s, h, 2 * x), 2 * h, x)
            == InvTree(s[..2 * h], x) + InvLevel(InvForest(s[2 * h..], h, 2 * x + 2), 2 * h, x + 1)
  {
    hide Unfold, InvTwiddle, InvTree, IsSize, InvLevel, InvForest, Blocks;
    BlocksExtend(|s|, h);
    InvForestSplit(s, h, 2 * x);
    SizePositive(h);
    var p := s[..2 * h];
    assert |p| / 2 == h;
    assert s[..h] == p[..h] && s[h..2 * h] == p[h..];
    InvLevelHead(InvTree(p[..h], 2 * x), InvTree(p[h..], 2 * x + 1), InvForest(s[2 * h..], h, 2 * x + 2), 2 * h, x);
    InvTreeStep(p, x);
  }

  /** A pass of inverse butterflies moves every tree of the forest one level up. */
  lemma {:induction false} ForestAscends(s: seq<int>, m: nat, x: nat)
    requires IsSize(m) && m > 2 && Blocks(|s|, m)
    ensures Blocks(|s|, m / 2)
    ensures InvLevel(InvForest(s, m / 2, 2 * x), m, x) == InvForest(s, m, x)
  {
    hide Unfold, InvTwiddle, InvTree, IsSize;
    SizeHalves(m);
    BlocksHalve(|s|, m);
    if |s| > 0 {
      ForestAscends(s[m..], m, x + 1);
      AscendStep(s, m / 2, x);
    }
  }

  lemma InvLevelHead(lo: seq<int>, hi: seq<int>, rest: seq<int>, m: nat, x: nat)
    requires IsSize(m) && |lo| == |hi| == m / 2 && Blocks(|rest|, m)
    ensures Blocks(|lo + hi + rest|, m)
    ensures InvLevel(lo + hi + rest, m, x) == Unfold(lo, hi, InvTwiddle(x)) + InvLevel(rest, m, x + 1)
  {
    hide Unfold, InvTwiddle;
    var t := lo + hi + rest;
    assert t[..m / 2] == lo && t[..m][m / 2..] == hi && t[m..] == rest;
  }

  lemma {:induction false} InvForestOfLeaves(s: seq<int>, x: nat)
    requires Blocks(|s|, 2)
    ensures InvForest(s, 2, x) == s
  {
    if |s| > 0 {
      InvForestOfLeaves(s[2..], x + 1);
      assert s == s[..2] + s[2..];
    }
  }

  /** div2: the canonical number whose double is a. */
  method Div2(a: int16) returns (r: int16)
    requires 0 <= a < Q
    ensures Cong(2 * r as int, a as int, Q) && 0 <= r < Q && r == Half(a)
  {
    HalfDoubles(a as int);
    if a % 2 == 1 {
      r := (a + 3329) / 2;
    } else {
      r := a / 2;
    }
  }

  /** The coefficient array after the first i inverse butterflies of the group at off. */
  ghost function AfterInverse(s: seq<int>, off: nat, n: nat, i: nat, w: int): (r: seq<int>)
    requires off + 2 * n <= |s| && i <= n
    ensures |r| == |s|
  {
    seq(|s|, j requires 0 <= j < |s| =>
      if off <= j < off + i then InvLo(s[j], s[j + n])
      else if off + n <= j < off + n + i then InvHi(s[j - n], s[j], w)
      else s[j])
  }

  lemma InverseNone(s: seq<int>, off: nat, n: nat, w: int)
    requires off + 2 * n <= |s|
    ensures AfterInverse(s, off, n, 0, w) == s
  {
  }

  lemma InverseNext(s: seq<int>, off: nat, n: nat, i: nat, w: int)
    requires off + 2 * n <= |s| && i < n && Canonical(s)
    ensures var r := AfterInverse(s, off, n, i, w); var x := s[off + i]; var y := s[off + n + i];
            r[off + i] == x && r[off + n + i] == y && 0 <= x < Q && 0 <= y < Q
            && AfterInverse(s, off, n, i + 1, w)
               == r[off + i := InvLo(x, y)][off + n + i := InvHi(x, y, w)]
  {
    hide InvLo, InvHi;
  }

  lemma AllInverse(s: seq<int>, off: nat, n: nat, w: int)
    requires off + 2 * n <= |s| && Canonical(s)
    ensures var r := AfterInverse(s, off, n, n, w);
            r == s[..off] + Unfold(s[off..off + n], s[off + n..off + 2 * n], w) + s[off + 2 * n..]
            && Canonical(r)
  {
    hide AfterInverse, Unfold;
    var r := AfterInverse(s, off, n, n, w);
    var u := Unfold(s[off..off + n], s[off + n..off + 2 * n], w);
    InverseOutside(s, off, n, w);
    forall j | 0 <= j < 2 * n ensures r[off..off + 2 * n][j] == u[j] {
      InverseInside(s, off, n, w, j);
    }
    assert r[off..off + 2 * n] == u;
    assert r == r[..off] + r[off..off + 2 * n] + r[off + 2 * n..];
  }

  lemma InverseOutside(s: seq<int>, off: nat, n: nat, w: int)
    requires off + 2 * n <= |s|
    ensures var r := AfterInverse(s, off, n, n, w); r[..off] == s[..off] && r[off + 2 * n..] == s[off + 2 * n..]
  {
    hide InvLo, InvHi;
  }

  lemma InverseInside(s: seq<int>, off: nat, n: nat, w: int, j: nat)
    requires off + 2 * n <= |s| && j < 2 * n
    ensures AfterInverse(s, off, n, n, w)[off + j] == Unfold(s[off..off + n], s[off + n..off + 2 * n], w)[j]
  {
    hide InvLo, InvHi, Unfold, AfterInverse;
    var lo, hi := s[off..off + n], s[off + n..off + 2 * n];
    var i := if j < n then j else j - n;
    assert lo[i] == s[off + i] && hi[i] == s[off + n + i];
    UnfoldAt(lo, hi, w, j);
    AfterInverseAt(s, off, n, w, i);
  }

  lemma UnfoldAt(lo: seq<int>, hi: seq<int>, w: int, j: nat)
    requires |lo| == |hi| && j < 2 * |lo|
    ensures Unfold(lo, hi, w)[j] == if j < |lo| then InvLo(lo[j], hi[j]) else InvHi(lo[j - |lo|], hi[j - |lo|], w)
  {
    hide InvLo, InvHi;
  }

  lemma AfterInverseAt(s: seq<int>, off: nat, n: nat, w: int, i: nat)
    requires off + 2 * n <= |s| && i < n
    ensures var r := AfterInverse(s, off, n, n, w);
            r[off + i] == InvLo(s[off + i], s[off + n + i]) && r[off + n + i] == InvHi(s[off + i], s[off + n + i], w)
  {
    hide InvLo, InvHi;
    assert off + i + n == off + n + i && off + n + i - n == off + i;
  }

  lemma InvOutputs(x: int, y: int, w: int)
    ensures InvLo(x, y) == Half((x + y) % Q)
    ensures (x + Q - y) % Q == (x - y) % Q && InvHi(x, y, w) == Half(((x + Q - y) % Q * w) % Q)
  {
    CongFromMultiple(x + Q - y, x - y, 1, Q);
  }

  method InvGroup(a: array<int16>, off: nat, n: nat, z: int)
    requires off + 2 * n <= a.Length && Canonical(a[..]) && 0 <= z < Q
    modifies a
    ensures a[..] == old(a[..off]) + Unfold(old(a[off..off + n]), old(a[off + n..off + 2 * n]), Q - z)
                     + old(a[off + 2 * n..])
    ensures Canonical(a[..])
  {
    hide Unfold, AfterInverse, InvHi, InvLo, Half;
    ghost var s: seq<int> := a[..];
    InverseNone(s, off, n, Q - z);
    for i := 0 to n
      invariant a[..] == AfterInverse(s, off, n, i, Q - z)
    {
      InverseNext(s, off, n, i, Q - z);
      var x, y := a[off + i] as int, a[off + n + i] as int;
      assert x == a[..][off + i] && y == a[..][off + n + i];
      var t0 := (x + y) % 3329;
      t0 := Div2(t0);
      var t1 := (x + 3329 - y) % 3329;
      InvOutputs(x, y, 3329 - z);
      assert 0 <= t1 * (3329 - z) < 0x8000_0000 by { MulBound(t1, 3329 - z, 3329); }
      t1 := (t1 * (3329 - z)) % 3329;
      t1 := Div2(t1);
      a[off + i] := t0;
      a[off + n + i] := t1;
    }
    AllInverse(s, off, n, Q - z);
    assert s[..off] == old(a[..off]) && s[off..off + n] == old(a[off..off + n]);
    assert s[off + n..off + 2 * n] == old(a[off + n..off + 2 * n]);
  }

  ghost predicate InvPassState(lv: seq<int>, cur: seq<int>, off: nat, m: nat, g: nat, x: nat) {
    |lv| == |cur| == 256 && off <= 256 && IsSize(m) && Blocks(256, m) && Blocks(256 - off, m)
    && Canonical(cur)
    && cur[off..] == lv[off..]
    && cur[..off] + InvLevel(lv[off..], m, x + g) == InvLevel(lv, m, x)
  }

  lemma InvPassStart(lv: seq<int>, m: nat, x: nat)
    requires |lv| == 256 && IsSize(m) && Blocks(256, m) && Canonical(lv)
    ensures InvPassState(lv, lv, 0, m, 0, x)
  {
    assert lv[0..] == lv && lv[..0] == [];
  }

  lemma InvPassNext(lv: seq<int>, cur: seq<int>, cur': seq<int>, off: nat, n: nat, g: nat, x: nat)
    requires InvPassState(lv, cur, off, 2 * n, g, x) && off < 256
    ensures off + 2 * n <= 256
    requires cur' == cur[..off] + Unfold(cur[off..off + n], cur[off + n..off + 2 * n], InvTwiddle(x + g))
                     + cur[off + 2 * n..]
    ensures InvPassState(lv, cur', off + 2 * n, 2 * n, g + 1, x)
  {
    hide Unfold, InvTwiddle, IsSize, InvLevel;
    var end := off + 2 * n;
    SameSlices(lv, cur, off, n);
    var u := Unfold(lv[off..off + n], lv[off + n..end], InvTwiddle(x + g));
    var tail := InvLevel(lv[end..], 2 * n, x + g + 1);
    InvLevelHead(lv[off..off + n], lv[off + n..end], lv[end..], 2 * n, x + g);
    assert lv[off..off + n] + lv[off + n..end] + lv[end..] == lv[off..];
    Spliced(cur[..off], u, cur[end..], cur', off, end);
    assert cur[..off] + (u + tail) == (cur[..off] + u) + tail;
  }

  lemma SameSlices(lv: seq<int>, cur: seq<int>, off: nat, n: nat)
    requires |lv| == |cur| && off + 2 * n <= |lv| && cur[off..] == lv[off..]
    ensures cur[off..off + n] == lv[off..off + n] && cur[off + n..off + 2 * n] == lv[off + n..off + 2 * n]
    ensures cur[off + 2 * n..] == lv[off + 2 * n..]
  {
    assert forall i :: off <= i < |lv| ==> cur[i] == cur[off..][i - off] && lv[i] == lv[off..][i - off];
  }

  lemma Spliced(a: seq<int>, u: seq<int>, b: seq<int>, s: seq<int>, off: nat, end: nat)
    requires s == a + u + b && |a| == off && |u| == end - off
    ensures s[..end] == a + u && s[end..] == b
  {
  }

  lemma InvPassEnd(lv: seq<int>, cur: seq<int>, m: nat, g: nat, x: nat)
    requires InvPassState(lv, cur, 256, m, g, x)
    ensures cur == InvLevel(lv, m, x)
  {
    assert cur[..256] == cur;
    assert InvLevel(lv[256..], m, x + g) == [];
  }

  /** The factor 3329 - zeta[br7(2L-1-g)] is the inverse factor of node L+g. */
  lemma InvTwiddleIs(l: nat, g: nat, r: nat)
    requires IsLevel(l) && g < l && r == BitRev(2 * l - 1 - g, 7)
    ensures InvTwiddle(l + g) == Q - Zeta(r)
  {
    hide Zeta, BitRev;
    MirroredReversals(l, g);
  }

  lemma LevelOf(n: nat)
    requires IsSize(n) && n <= 128
    ensures IsSize(2 * n) && IsLevel(256 / (2 * n)) && 256 / n == 2 * (256 / (2 * n))
  {
  }

  method InvNttPass(a: array<int16>, zeta: array<int16>, n: nat, br0: nat) returns (brI: nat)
    requires a.Length == 256 && Canonical(a[..]) && IsZetaTable(zeta) && a != zeta
    requires IsSize(n) && n <= 128 && br0 == 256 / n - 1
    modifies a
    ensures IsSize(2 * n) && Blocks(256, 2 * n)
    ensures a[..] == InvLevel(old(a[..]), 2 * n, 256 / (2 * n)) && Canonical(a[..])
    ensures brI == 256 / (2 * n) - 1
  {
    hide InvPassState, Blocks, InvLevel, IsSize, IsLevel, Zeta;
    LevelOf(n);
    WholeBlocks(2 * n);
    ghost var x: nat := 256 / (2 * n);
    ghost var lv: seq<int> := a[..];
    brI := br0;
    var off: nat := 0;
    var g := 0;
    InvPassStart(lv, 2 * n, x);
    while g < 256 / (2 * n)
      invariant 0 <= g <= x && off == 2 * n * g && off <= 256 && brI == 2 * x - 1 - g
      invariant IsZetaTable(zeta) && Canonical(a[..])
      invariant InvPassState(lv, a[..], off, 2 * n, g, x)
    {
      LevelBounds(n, g);
      InvBlock(a, zeta, n, off, brI, lv, g, x);
      brI := brI - 1;
      off := off + 2 * n;
      g := g + 1;
    }
    LevelEnds(n, g);
    InvPassEnd(lv, a[..], 2 * n, g, x);
  }

  /** One block of a pass: the group at off with the twiddle of its node. */
  method InvBlock(a: array<int16>, zeta: array<int16>, n: nat, off: nat, brI: nat, ghost lv: seq<int>, ghost g: nat, ghost x: nat)
    requires a.Length == 256 && Canonical(a[..]) && IsZetaTable(zeta) && a != zeta && off + 2 * n <= 256 && off < 256
    requires IsLevel(x) && g < x && brI == 2 * x - 1 - g < 256 && InvPassState(lv, a[..], off, 2 * n, g, x)
    modifies a
    ensures Canonical(a[..]) && InvPassState(lv, a[..], off + 2 * n, 2 * n, g + 1, x)
  {
    hide Unfold, InvTwiddle, InvPassState, IsLevel, BitRev, Zeta;
    var r := Br7(brI);
    InvTwiddleIs(x, g, r);
    ghost var cur: seq<int> := a[..];
    assert cur[..off] == a[..off] && cur[off..off + n] == a[off..off + n];
    assert cur[off + n..off + 2 * n] == a[off + n..off + 2 * n] && cur[off + 2 * n..] == a[off + 2 * n..];
    assert Q - zeta[r] == InvTwiddle(x + g);
    InvGroup(a, off, n, zeta[r]);
    InvPassNext(lv, cur, a[..], off, n, g, x);
  }

  method PolyInvNtt(a: array<int16>, zeta: array<int16>)
    requires a.Length == 256 && Canonical(a[..]) && IsZetaTable(zeta) && a != zeta
    modifies a
    ensures a[..] == InvNtt(old(a[..])) && Canonical(a[..])
  {
    hide InvTree, InvLevel;
    ghost var s: seq<int> := a[..];
    var brI: nat := 127;
    var n: nat := 2;
    WholeBlocks(2);
    InvForestOfLeaves(s, 128);
    while n <= 128
      invariant IsSize(n) && brI == 256 / n - 1
      invariant IsZetaTable(zeta) && Canonical(a[..])
      invariant Blocks(256, n) && a[..] == InvForest(s, n, 256 / n)
    {
      LevelOf(n);
      WholeBlocks(2 * n);
      ForestAscends(s, 2 * n, 256 / (2 * n));
      brI := InvNttPass(a, zeta, n, brI);
      n := n * 2;
    }
    assert s[..256] == s && s[256..] == [];
  }

  // ---------- products ----------

  /** (a0 + a1*X) * (b0 + b1*X) modulo X^2 - c. */
  lemma LinearProd(p: seq<int>, q: seq<int>, c: int)
    requires |p| == |q| == 2
    ensures Prod(p, q, c) == [(p[0] * q[0] + p[1] * (c * q[1])) % Q, (p[0] * q[1] + p[1] * q[0]) % Q]
  {
    assert ConvSum(p, q, c, 0, 2) == ConvSum(p, q, c, 0, 1) + p[1] * (c * q[1]);
    assert ConvSum(p, q, c, 0, 1) == ConvSum(p, q, c, 0, 0) + p[0] * q[0];
    assert ConvSum(p, q, c, 1, 2) == ConvSum(p, q, c, 1, 1) + p[1] * q[0];
    assert ConvSum(p, q, c, 1, 1) == ConvSum(p, q, c, 1, 0) + p[0] * q[1];
  }

  /** The i-th pair of coefficients. */
  function Pair(p: seq<int>, i: nat): (r: seq<int>)
    requires 2 * i + 2 <= |p|
    ensures |r| == 2
  {
    p[2 * i..2 * i + 2]
  }

  /** Leaf i of the blockwise product is the product of the i-th coefficient pairs. */
  lemma {:induction false} PairTreeLeaf(p: seq<int>, q: seq<int>, x: nat, i: nat, y: nat)
    requires IsSize(|p|) && |p| == |q| && x >= 1 && i < |p| / 2 && y == x * (|p| / 2) + i && y >= 1
    ensures Pair(PairTree(p, q, x), i) == Prod(Pair(p, i), Pair(q, i), NodeConst(y))
    decreases |p|
  {
    hide Prod, NodeConst, IsSize, PairTree, Pair;
    var h := |p| / 2;
    if |p| == 2 {
      PairTreeBase(p, q, x);
      OnlyPair(p);
      OnlyPair(q);
      OnlyPair(PairTree(p, q, x));
    } else {
      SizeHalves(|p|);
      LeafIndex(x, h, i, y);
      var lo, hi := PairTree(p[..h], q[..h], 2 * x), PairTree(p[h..], q[h..], 2 * x + 1);
      PairTreeStep(p, q, x);
      JoinedPairs(p[..h], p[h..], h / 2, i);
      JoinedPairs(q[..h], q[h..], h / 2, i);
      JoinedPairs(lo, hi, h / 2, i);
      assert p[..h] + p[h..] == p && q[..h] + q[h..] == q;
      if i < h / 2 {
        PairTreeLeaf(p[..h], q[..h], 2 * x, i, y);
      } else {
        PairTreeLeaf(p[h..], q[h..], 2 * x + 1, i - h / 2, y);
      }
    }
  }

  lemma OnlyPair(p: seq<int>)
    requires |p| == 2
    ensures Pair(p, 0) == p
  {
  }

  /** Pair i of 4k numbers lies in the left or in the right half. */
  lemma JoinedPairs(lo: seq<int>, hi: seq<int>, k: nat, i: nat)
    requires |lo| == |hi| == 2 * k && i < 2 * k
    ensures Pair(lo + hi, i) == if i < k then Pair(lo, i) else Pair(hi, i - k)
  {
  }

  lemma PairTreeBase(p: seq<int>, q: seq<int>, x: nat)
    requires |p| == |q| == 2 && x >= 1
    ensures PairTree(p, q, x) == Prod(p, q, NodeConst(x))
  {
  }

  lemma NttMulLeaf(p: seq<int>, q: seq<int>, i: nat)
    requires |p| == |q| == 256 && i < 128
    ensures NttMul(p, q)[2 * i..2 * i + 2] == Prod(p[2 * i..2 * i + 2], q[2 * i..2 * i + 2], NodeConst(128 + i))
  {
    hide Prod, NodeConst, PairTree;
    PairTreeLeaf(p, q, 1, i, 128 + i);
  }

  /** Coefficients as unpacked from 12-bit fields, possibly not reduced. */
  predicate TwelveBit(s: seq<int>) {
    forall i :: 0 <= i < |s| ==> 0 <= s[i] < 4096
  }

  /** The pair product as computed, with an intermediate reduction of a1*b1. */
  lemma LinearPolyMulValue(a0: int, a1: int, b0: int, b1: int, z: int, c: int)
    requires 0 <= a0 < 4096 && 0 <= a1 < 4096 && 0 <= b0 < 4096 && 0 <= b1 < 4096 && 0 <= z <= Q && Cong(z, c, Q)
    ensures 0 <= a0 * b0 + (a1 * b1) % 3329 * z < 0x8000_0000
    ensures 0 <= a0 * b1 + a1 * b0 < 0x8000_0000
    ensures (a0 * b0 + (a1 * b1) % 3329 * z) % 3329 == (a0 * b0 + a1 * (c * b1)) % Q
  {
    hide Cong;
    MulBound(a0, b0, 4096);
    MulBound(a0, b1, 4096);
    MulBound(a1, b0, 4096);
    MulBound((a1 * b1) % 3329, z, 3329);
    CongMod(a1 * b1, Q);
    CongMul((a1 * b1) % Q, a1 * b1, z, c, Q);
    assert a1 * b1 * c == a1 * (c * b1);
    CongAddLeft(a0 * b0, (a1 * b1) % Q * z, a1 * (c * b1));
  }

  lemma CongAddLeft(x: int, y: int, y': int)
    requires Cong(y, y', Q)
    ensures (x + y) % Q == (x + y') % Q
  {
    hide Cong;
    CongSelf(x, Q);
    CongAdd(x, x, y, y', Q);
    CongRemainders(x + y, x + y', Q);
  }

  method LinearPolyMul(r: array<int16>, a: array<int16>, b: array<int16>, off: nat, zeta: int, ghost c: int)
    requires off + 2 <= r.Length == a.Length == b.Length && r != a && r != b
    requires TwelveBit(a[..]) && TwelveBit(b[..]) && 0 <= zeta <= Q && Cong(zeta, c, Q)
    modifies r
    ensures r[..] == old(r[..off]) + Prod(a[off..off + 2], b[off..off + 2], c) + old(r[off + 2..])
  {
    hide Prod, Cong;
    LinearProd(a[off..off + 2], b[off..off + 2], c);
    var a0, a1, b0, b1 := a[..][off] as int, a[..][off + 1] as int, b[..][off] as int, b[..][off + 1] as int;
    LinearPolyMulValue(a0, a1, b0, b1, zeta, c);
    r[off] := (a0 * b0 + (a1 * b1) % 3329 * zeta) % 3329;
    r[off + 1] := (a0 * b1 + a1 * b0) % 3329;
  }

  lemma PairConstants(i: nat)
    requires i < 64
    ensures NodeConst(128 + 2 * i) == Twiddle(64 + i)
    ensures Cong(Q - Twiddle(64 + i), NodeConst(128 + 2 * i + 1), Q)
  {
    hide Twiddle;
    assert (128 + 2 * i) / 2 == 64 + i && (128 + 2 * i + 1) / 2 == 64 + i;
    CongFromMultiple(Q - Twiddle(64 + i), -Twiddle(64 + i), 1, Q);
  }

  method PolyNttMul(r: array<int16>, a: array<int16>, b: array<int16>, zeta: array<int16>)
    requires r.Length == a.Length == b.Length == 256 && r != a && r != b && r != zeta
    requires TwelveBit(a[..]) && TwelveBit(b[..]) && IsZetaTable(zeta)
    modifies r
    ensures r[..] == NttMul(a[..], b[..]) && Canonical(r[..])
  {
    hide NttMul, Prod, Cong, NodeConst, Twiddle, BitRev, Zeta;
    ghost var m := NttMul(a[..], b[..]);
    for i := 0 to 64
      invariant r[..4 * i] == m[..4 * i]
      invariant IsZetaTable(zeta)
    {
      var x := Br7(64 + i);
      TwiddleIs(64 + i, x);
      PairConstants(i);
      CongSelf(zeta[x] as int, Q);
      LeafMul(r, a, b, 2 * i, zeta[x], m);
      LeafMul(r, a, b, 2 * i + 1, 3329 - zeta[x], m);
    }
    assert r[..] == r[..256] && m == m[..256];
  }

  /** Pair i of the product, the pairs before it being there. */
  method LeafMul(r: array<int16>, a: array<int16>, b: array<int16>, i: nat, z: int, ghost m: seq<int>)
    requires r.Length == a.Length == b.Length == 256 && r != a && r != b && i < 128
    requires TwelveBit(a[..]) && TwelveBit(b[..]) && 0 <= z <= Q && Cong(z, NodeConst(128 + i), Q)
    requires m == NttMul(a[..], b[..]) && r[..2 * i] == m[..2 * i]
    modifies r
    ensures r[..2 * i + 2] == m[..2 * i + 2]
  {
    hide NttMul, Prod, Cong, NodeConst;
    NttMulLeaf(a[..], b[..], i);
    assert a[..][2 * i..2 * i + 2] == a[2 * i..2 * i + 2] && b[..][2 * i..2 * i + 2] == b[2 * i..2 * i + 2];
    LinearPolyMul(r, a, b, 2 * i, z, NodeConst(128 + i));
    assert r[..2 * i + 2] == m[..2 * i] + m[2 * i..2 * i + 2] == m[..2 * i + 2];
  }

  method PolyCopy(r: array<int16>, a: array<int16>)
    requires r.Length == a.Length == 256
    modifies r
    ensures r[..] == old(a[..])
  {
    for i := 0 to 256
      invariant r[..i] == old(a[..i]) && a[i..] == old(a[i..])
    {
      r[i] := a[i];
    }
  }

  /** kyber_poly_mul: the product modulo X^256 + 1, also when r is a or b. */
  method PolyMul(r: array<int16>, a: array<int16>, b: array<int16>, zeta: array<int16>)
    requires r.Length == a.Length == b.Length == 256 && r != zeta
    requires Canonical(a[..]) && Canonical(b[..]) && IsZetaTable(zeta)
    modifies r
    ensures r[..] == Negacyclic(old(a[..]), old(b[..]))
  {
    hide Negacyclic, NttMul, Ntt, InvNtt, Zeta;
    ghost var p: seq<int>, q: seq<int> := a[..], b[..];
    var nttA, nttB, nttR := new int16[256], new int16[256], new int16[256];
    PolyCopy(nttA, a);
    PolyNtt(nttA, zeta);
    PolyCopy(nttB, b);
    PolyNtt(nttB, zeta);
    PolyNttMul(nttR, nttA, nttB, zeta);
    PolyInvNtt(nttR, zeta);
    MulViaNtt(p, q);
    PolyCopy(r, nttR);
  }

  // ---------- coefficientwise operations ----------

  function AddPoly(a: seq<int>, b: seq<int>): (r: seq<int>)
    requires |a| == |b|
    ensures |r| == |a| && Canonical(r)
  {
    seq(|a|, i requires 0 <= i < |a| => (a[i] + b[i]) % Q)
  }

  function SubPoly(a: seq<int>, b: seq<int>): (r: seq<int>)
    requires |a| == |b|
    ensures |r| == |a| && Canonical(r)
  {
    seq(|a|, i requires 0 <= i < |a| => (a[i] - b[i]) % Q)
  }

  /** kyber_poly_add; the callers in src/kyber.c accumulate with r == a. */
  method PolyAdd(r: array<int16>, a: array<int16>, b: array<int16>)
    requires r.Length == a.Length == b.Length == 256
    requires Canonical(a[..]) && Canonical(b[..])
    modifies r
    ensures r[..] == AddPoly(old(a[..]), old(b[..]))
  {
    ghost var p: seq<int>, q: seq<int> := a[..], b[..];
    for i := 0 to 256
      invariant a[i..] == p[i..] && b[i..] == q[i..]
      invariant forall j :: 0 <= j < i ==> r[j] == (p[j] + q[j]) % Q
    {
      assert a[i] == p[i..][0] && b[i] == q[i..][0];
      r[i] := (a[i] as int + b[i] as int) % 3329;
    }
  }

  method PolySub(r: array<int16>, a: array<int16>, b: array<int16>)
    requires r.Length == a.Length == b.Length == 256
    requires Canonical(a[..]) && Canonical(b[..])
    modifies r
    ensures r[..] == SubPoly(old(a[..]), old(b[..]))
  {
    ghost var p: seq<int>, q: seq<int> := a[..], b[..];
    for i := 0 to 256
      invariant a[i..] == p[i..] && b[i..] == q[i..]
      invariant forall j :: 0 <= j < i ==> r[j] == (p[j] - q[j]) % Q
    {
      assert a[i] == p[i..][0] && b[i] == q[i..][0];
      r[i] := (a[i] as int + 3329 - b[i] as int) % 3329;
    }
  }
}
