/** Additively homomorphic ElGamal over the SM2 group, src/sm2_elgamal.c: baby-step giant-step
    decryption with a table of x-coordinates whose records also serve as hash buckets of six entries. */
module ElGamal {
  import opened Common
  import opened Modular
  import opened Field
  import opened Curve
  import opened ScalarMul
  import opened Groups

  const SIZE: nat := 65536
  const MAX_OFFSETS: nat := 6
  const UINT32: int := 0x1_0000_0000
  /** 2^248: the weight of the first byte of a big-endian x-coordinate. */
  const TOP: int := 0x1_00000000_00000000_00000000_00000000_00000000_00000000_00000000_000000

  /** The x-coordinate entry k of the table stands for, and the bucket it belongs to. */
  function XAt(mul: int -> Affine, k: nat): int {
    X(mul(k + 1))
  }

  function Home(mul: int -> Affine, k: nat): (b: nat)
    ensures b < SIZE
  {
    XAt(mul, k) % SIZE
  }

  // ---------- records ----------

  /** SM2_PRE_COMPUTE: six offsets, their count in one byte, and the 32 bytes of an x-coordinate. */
  datatype Record = Record(offset: seq<nat>, count: nat, x: int)

  function TopByte(x: int): int {
    x / TOP
  }

  function WithTopByte(x: int, b: int): int {
    x % TOP + b * TOP
  }

  /** table[j].offset[offset_count] = i; offset_count++.  The check before it admits a count of six: the
      write then lands on offset_count (low byte) and on the first byte of the x-coordinate. */
  function Push(r: Record, i: nat): Record {
    if r.count < |r.offset| then r.(offset := r.offset[r.count := i], count := r.count + 1)
    else r.(count := (i % 256 + 1) % 256, x := WithTopByte(r.x, i / 256))
  }

  /** Record b after n iterations: iteration i stores its x-coordinate in record i and its index in the
      record of its bucket. */
  ghost function RecordAt(mul: int -> Affine, b: nat, n: nat): Record {
    if n == 0 then Record([0, 0, 0, 0, 0, 0], 0, 0)
    else
      var i := n - 1;
      var r := RecordAt(mul, b, i);
      var s := if i == b then r.(x := XAt(mul, i)) else r;
      if Home(mul, i) == b then Push(s, i) else s
  }

  /** The check of the source passes in iteration i. */
  ghost predicate Admitted(mul: int -> Affine, i: nat) {
    RecordAt(mul, Home(mul, i), i).count <= MAX_OFFSETS
  }

  ghost predicate Completes(mul: int -> Affine) {
    forall i :: 0 <= i < SIZE ==> Admitted(mul, i)
  }

  /** The indices below i whose point falls into bucket b, in order. */
  ghost function Bucket(mul: int -> Affine, b: nat, i: nat): seq<nat> {
    if i == 0 then []
    else if Home(mul, i - 1) == b then Bucket(mul, b, i - 1) + [i - 1]
    else Bucket(mul, b, i - 1)
  }

  lemma {:induction false} BucketMembers(mul: int -> Affine, b: nat, i: nat, k: nat)
    ensures k in Bucket(mul, b, i) <==> k < i && Home(mul, k) == b
  {
    hide Home;
    if i > 0 {
      BucketMembers(mul, b, i - 1, k);
    }
  }

  lemma {:induction false} BucketIncreasing(mul: int -> Affine, b: nat, i: nat, v: nat, w: nat)
    requires v < w < |Bucket(mul, b, i)|
    ensures Bucket(mul, b, i)[v] < Bucket(mul, b, i)[w] < i
  {
    hide Home;
    if w == |Bucket(mul, b, i)| - 1 && Home(mul, i - 1) == b {
      var k := Bucket(mul, b, i)[v];
      assert k in Bucket(mul, b, i - 1);
      BucketMembers(mul, b, i - 1, k);
    } else {
      BucketIncreasing(mul, b, i - 1, v, w);
    }
  }

  lemma {:induction false} BucketGrows(mul: int -> Affine, b: nat, i: nat, j: nat)
    requires i <= j
    ensures |Bucket(mul, b, i)| <= |Bucket(mul, b, j)|
    decreases j
  {
    hide Home;
    if i < j {
      BucketGrows(mul, b, i, j - 1);
    }
  }

  lemma RecordStep(mul: int -> Affine, b: nat, i: nat)
    ensures var r := RecordAt(mul, b, i); var s := if i == b then r.(x := XAt(mul, i)) else r;
            RecordAt(mul, b, i + 1) == if Home(mul, i) == b then Push(s, i) else s
    ensures Bucket(mul, b, i + 1) == if Home(mul, i) == b then Bucket(mul, b, i) + [i] else Bucket(mul, b, i)
  {
    hide Push, Home;
  }

  /** A bucket of at most six is held exactly: its indices in order, their count and the x-coordinate. */
  lemma {:induction false} SmallBucket(mul: int -> Affine, b: nat, n: nat)
    requires |Bucket(mul, b, n)| <= MAX_OFFSETS
    ensures var r, s := RecordAt(mul, b, n), Bucket(mul, b, n);
            |r.offset| == MAX_OFFSETS && r.count == |s| && r.offset[..|s|] == s && r.x == if b < n then XAt(mul, b) else 0
  {
    hide Home, XAt;
    if n > 0 {
      var i := n - 1;
      RecordStep(mul, b, i);
      SmallBucket(mul, b, i);
      var r, s := RecordAt(mul, b, i), Bucket(mul, b, i);
      if Home(mul, i) == b {
        assert r.offset[|s| := i][..|s| + 1] == s + [i];
      }
    }
  }

  /** What the seventh write leaves, t being the seventh index: the first six offsets, a count made of
      the low byte of t, and the x-coordinate with the high byte of t in front - unless the record's own
      x-coordinate is stored later. */
  lemma {:induction false} SeventhWrite(mul: int -> Affine, b: nat, n: nat)
    requires |Bucket(mul, b, n)| == MAX_OFFSETS + 1
    ensures var r, s := RecordAt(mul, b, n), Bucket(mul, b, n); var t := s[MAX_OFFSETS];
            && r.offset == s[..MAX_OFFSETS] && r.count == (t % 256 + 1) % 256
            && r.x == (if b < n then (if t >= b then WithTopByte(XAt(mul, b), t / 256) else XAt(mul, b))
                       else WithTopByte(0, t / 256))
  {
    hide Home, XAt, WithTopByte;
    var i := n - 1;
    RecordStep(mul, b, i);
    if Home(mul, i) == b {
      SmallBucket(mul, b, i);
      assert Bucket(mul, b, n)[..MAX_OFFSETS] == Bucket(mul, b, i);
    } else {
      SeventhWrite(mul, b, i);
      var s := Bucket(mul, b, i);
      BucketMembers(mul, b, i, s[MAX_OFFSETS]);
    }
  }

  /** Buckets of at most seven never trip the check: the construction completes. */
  lemma SevenAdmitted(mul: int -> Affine)
    requires forall b :: 0 <= b < SIZE ==> |Bucket(mul, b, SIZE)| <= MAX_OFFSETS + 1
    ensures Completes(mul)
  {
    hide Home;
    forall i | 0 <= i < SIZE ensures Admitted(mul, i) {
      var b := Home(mul, i);
      RecordStep(mul, b, i);
      BucketGrows(mul, b, i + 1, SIZE);
      SmallBucket(mul, b, i);
    }
  }

  // ---------- the table ----------

  ghost function TableOf(mul: int -> Affine): (t: seq<Record>)
    ensures |t| == SIZE && forall b :: 0 <= b < SIZE ==> t[b] == RecordAt(mul, b, SIZE)
  {
    seq(SIZE, b requires 0 <= b < SIZE => RecordAt(mul, b, SIZE))
  }

  /** sm2_elgamal_decrypt_pre_compute.  It stops at the first write the check refuses. */
  method PreCompute(g: Group, table: array<Record>) returns (ok: bool)
    requires g.Valid() && table.Length == SIZE
    modifies table
    ensures ok <==> Completes(g.mul)
    ensures ok ==> table[..] == TableOf(g.mul)
  {
    hide Group.Valid, X, Push, RecordAt;
    for b := 0 to SIZE
      invariant forall c :: 0 <= c < b ==> table[c] == RecordAt(g.mul, c, 0)
    {
      RecordStart(g.mul, b);
      table[b] := Record([0, 0, 0, 0, 0, 0], 0, 0);
    }
    var p := Inf;
    ZeroMultiple(g);
    for i := 0 to SIZE
      invariant p == g.mul(i)
      invariant forall b :: 0 <= b < SIZE ==> table[b] == RecordAt(g.mul, b, i)
      invariant forall k :: 0 <= k < i ==> Admitted(g.mul, k)
    {
      AddMul(g, i, 1);
      p := g.add(p, g.mul(1));
      ghost var was := table[..];
      forall b | 0 <= b < SIZE ensures RecordAt(g.mul, b, i + 1) == Stepped(was[b], g.mul, b, i) {
        RecordStep(g.mul, b, i);
      }
      table[i] := table[i].(x := X(p));
      var j := table[i].x % SIZE;
      if table[j].count > MAX_OFFSETS {
        assert !Admitted(g.mul, i);
        return false;
      }
      table[j] := Push(table[j], i);
    }
    ok := true;
  }

  ghost function Stepped(r: Record, mul: int -> Affine, b: nat, i: nat): Record {
    var s := if i == b then r.(x := XAt(mul, i)) else r;
    if Home(mul, i) == b then Push(s, i) else s
  }

  lemma RecordStart(mul: int -> Affine, b: nat)
    ensures RecordAt(mul, b, 0) == Record([0, 0, 0, 0, 0, 0], 0, 0)
  {
  }

  lemma ZeroMultiple(g: Group)
    requires g.Valid()
    ensures g.mul(0) == Inf
  {
    MulOn(g.cb, g.mul, 0);
  }

  // ---------- the lookup ----------

  /** offset[w] of record b as it is read: the six offsets, then the two bytes that follow them, then
      whatever lies behind, given by over. */
  function Slot(t: seq<Record>, over: (nat, nat) -> nat, b: nat, w: nat): nat
    requires b < |t|
  {
    if w < |t[b].offset| then t[b].offset[w]
    else if w == MAX_OFFSETS then SixthSlot(t[b])
    else over(b, w) % SIZE
  }

  function SixthSlot(r: Record): nat {
    (r.count + 256 * TopByte(r.x)) % SIZE
  }

  /** The first slot from w on whose record holds x. */
  function Search(t: seq<Record>, over: (nat, nat) -> nat, x: int, w: nat): Option<nat>
    requires Indexed(t)
    decreases t[x % SIZE].count - w
  {
    var b := x % SIZE;
    if w >= t[b].count then None
    else
      SlotRange(t, over, b, w);
      var j := Slot(t, over, b, w);
      if t[j].x == x then Some(j) else Search(t, over, x, w + 1)
  }

  ghost predicate Indexed(t: seq<Record>) {
    |t| == SIZE && (forall b, v :: 0 <= b < SIZE && 0 <= v < |t[b].offset| ==> t[b].offset[v] < SIZE)
  }

  lemma {:induction false} RecordIndexed(mul: int -> Affine, b: nat, n: nat, v: nat)
    requires n <= SIZE
    ensures |RecordAt(mul, b, n).offset| == MAX_OFFSETS && (v < MAX_OFFSETS ==> RecordAt(mul, b, n).offset[v] < SIZE)
  {
    hide Home, XAt;
    if n > 0 {
      RecordIndexed(mul, b, n - 1, v);
    }
  }

  lemma TableIndexed(mul: int -> Affine)
    ensures Indexed(TableOf(mul))
  {
    hide RecordAt;
    var t := TableOf(mul);
    forall b, v | 0 <= b < SIZE && 0 <= v < |t[b].offset| ensures t[b].offset[v] < SIZE {
      RecordIndexed(mul, b, SIZE, v);
    }
  }

  /** sm2_pre_compute_get_offset. */
  method GetOffset(t: seq<Record>, over: (nat, nat) -> nat, x: int) returns (j: Option<nat>)
    requires Indexed(t)
    ensures j == Search(t, over, x, 0)
  {
    hide Slot;
    var i := x % SIZE;
    var w := 0;
    while w < t[i].count
      invariant 0 <= w && Search(t, over, x, w) == Search(t, over, x, 0)
      decreases t[i].count - w
    {
      var k := Slot(t, over, i, w);
      SlotRange(t, over, i, w);
      if t[k].x == x {
        return Some(k);
      }
      w := w + 1;
    }
    j := None;
  }

  lemma SlotRange(t: seq<Record>, over: (nat, nat) -> nat, b: nat, w: nat)
    requires Indexed(t) && b < SIZE
    ensures Slot(t, over, b, w) < SIZE
  {
  }

  /** Whatever is read, an index is reported only if its record holds x; and it was read. */
  lemma {:induction false} SearchSound(t: seq<Record>, over: (nat, nat) -> nat, x: int, w: nat)
    requires Indexed(t)
    ensures var r := Search(t, over, x, w);
            r.Some? ==> r.value < SIZE && t[r.value].x == x
                        && exists v :: w <= v < t[x % SIZE].count && Slot(t, over, x % SIZE, v) == r.value
    decreases t[x % SIZE].count - w
  {
    hide Slot;
    var b := x % SIZE;
    if w < t[b].count {
      SlotRange(t, over, b, w);
      if t[Slot(t, over, b, w)].x != x {
        SearchSound(t, over, x, w + 1);
      }
    }
  }

  // ---------- when the lookup is right ----------

  /** For 0 < r < 2^32 an equal x-coordinate means the same multiple, never the negated one. */
  lemma Remainder(g: Group, r: int, j: nat)
    requires g.Valid() && 0 < r < UINT32 && j < SIZE
    ensures X(g.mul(r)) == XAt(g.mul, j) <==> r == j + 1
  {
    hide Group.Valid, X;
    if X(g.mul(r)) == X(g.mul(j + 1)) {
      ModSmall(r, N);
      ModSmall(j + 1, N);
      SameXMeans(g, r, j + 1);
      SmallDifference(r, j + 1);
    }
  }

  lemma SmallDifference(a: int, b: int)
    requires 0 < a < UINT32 && 0 < b <= SIZE && ((a - b) % N == 0 || (a + b) % N == 0)
    ensures a == b
  {
  }

  /** Record k still holds its own x-coordinate. */
  ghost predicate Intact(mul: int -> Affine, k: nat) {
    RecordAt(mul, k, SIZE).x == XAt(mul, k)
  }

  /** With at most six entries a bucket leaves its record intact; with seven, exactly when the record's
      x-coordinate was stored after the seventh write or happens to begin with the byte written. */
  lemma IntactIff(mul: int -> Affine, k: nat)
    requires k < SIZE && |Bucket(mul, k, SIZE)| <= MAX_OFFSETS + 1
    ensures var s := Bucket(mul, k, SIZE);
            Intact(mul, k) <==> |s| <= MAX_OFFSETS || s[MAX_OFFSETS] < k || TopByte(XAt(mul, k)) == s[MAX_OFFSETS] / 256
  {
    hide RecordAt, Bucket, XAt;
    var s := Bucket(mul, k, SIZE);
    if |s| <= MAX_OFFSETS {
      SmallBucket(mul, k, SIZE);
    } else {
      SeventhWrite(mul, k, SIZE);
      TopReplaced(XAt(mul, k), s[MAX_OFFSETS] / 256);
    }
  }

  lemma TopReplaced(x: int, b: int)
    ensures WithTopByte(x, b) == x <==> TopByte(x) == b
  {
  }

  /** The bucket of x holds all its entries, and the records they are compared with are intact. */
  ghost predicate Reliable(mul: int -> Affine, x: int) {
    var s := Bucket(mul, x % SIZE, SIZE);
    |s| <= MAX_OFFSETS && forall v :: 0 <= v < |s| ==> Intact(mul, s[v])
  }

  lemma {:induction false} ReliableFrom(g: Group, over: (nat, nat) -> nat, r: int, w: nat)
    requires g.Valid() && 0 < r < UINT32 && Reliable(g.mul, X(g.mul(r))) && Indexed(TableOf(g.mul))
    requires var s := Bucket(g.mul, X(g.mul(r)) % SIZE, SIZE); w <= |s|
    ensures var x := X(g.mul(r)); var s := Bucket(g.mul, x % SIZE, SIZE);
            Search(TableOf(g.mul), over, x, w) == if r - 1 in s[w..] then Some(r - 1) else None
    decreases |Bucket(g.mul, X(g.mul(r)) % SIZE, SIZE)| - w
  {
    hide Group.Valid, X, RecordAt, Bucket, XAt, Home;
    var x := X(g.mul(r));
    var b := x % SIZE;
    var s, t := Bucket(g.mul, b, SIZE), TableOf(g.mul);
    SmallBucket(g.mul, b, SIZE);
    if w < |s| {
      var k := s[w];
      assert Slot(t, over, b, w) == k by { assert t[b].offset[..|s|][w] == k; }
      BucketMembers(g.mul, b, SIZE, k);
      assert Intact(g.mul, k);
      Remainder(g, r, k);
      assert s[w..] == [k] + s[w + 1..];
      if k + 1 != r {
        ReliableFrom(g, over, r, w + 1);
      }
    }
  }

  /** A reliable lookup agrees with a search through all 2^16 points. */
  lemma ReliableSearch(g: Group, over: (nat, nat) -> nat, r: int)
    requires g.Valid() && 0 < r < UINT32 && Reliable(g.mul, X(g.mul(r))) && Indexed(TableOf(g.mul))
    ensures Search(TableOf(g.mul), over, X(g.mul(r)), 0) == if r <= SIZE then Some(r - 1) else None
  {
    hide Group.Valid, RecordAt, Bucket, Search, Reliable;
    var x := X(g.mul(r));
    var s := Bucket(g.mul, x % SIZE, SIZE);
    ReliableFrom(g, over, r, 0);
    assert s[0..] == s;
    BucketMembers(g.mul, x % SIZE, SIZE, r - 1);
  }

  // ---------- giant steps ----------

  /** What sm2_elgamal_solve_ecdlp reports for the point mG from step i on. */
  ghost function Giant(mul: int -> Affine, t: seq<Record>, over: (nat, nat) -> nat, m: int, i: nat): Option<int>
    requires Indexed(t) && i <= SIZE
    decreases SIZE - i
  {
    if i == SIZE then None
    else if mul(m - SIZE * i) == Inf then Some((i * SIZE) % UINT32)
    else match Search(t, over, X(mul(m - SIZE * i)), 0)
      case Some(j) => Some(Report(i, j))
      case None => Giant(mul, t, over, m, i + 1)
  }

  /** (i << 16) + j + 1 in 32 bits. */
  function Report(i: nat, j: nat): int {
    (i * SIZE + j + 1) % UINT32
  }

  lemma GiantStep(mul: int -> Affine, t: seq<Record>, over: (nat, nat) -> nat, m: int, i: nat)
    requires Indexed(t) && i < SIZE
    ensures Giant(mul, t, over, m, i)
         == (if mul(m - SIZE * i) == Inf then Some((i * SIZE) % UINT32)
             else match Search(t, over, X(mul(m - SIZE * i)), 0)
               case Some(j) => Some(Report(i, j))
               case None => Giant(mul, t, over, m, i + 1))
  {
    hide Search, X;
  }

  /** sm2_elgamal_solve_ecdlp, for every point. */
  method Solve(g: Group, t: seq<Record>, over: (nat, nat) -> nat, point: Affine, ghost m: int) returns (r: Option<int>)
    requires g.Valid() && Indexed(t) && point == g.mul(m)
    ensures r == Giant(g.mul, t, over, m, 0)
  {
    hide Group.Valid, X, Search;
    var p := point;
    var q := g.neg(g.mul(65536));
    NegMul(g, 65536);
    assert m - SIZE * 0 == m;
    for i := 0 to SIZE
      invariant p == g.mul(m - SIZE * i) && Giant(g.mul, t, over, m, i) == Giant(g.mul, t, over, m, 0)
    {
      if p.Inf? {
        return Some((i * 65536) % UINT32);
      }
      var j := GetOffset(t, over, X(p));
      if j.Some? {
        return Some(Report(i, j.value));
      }
      AddMul(g, m - SIZE * i, -65536);
      p := g.add(p, q);
    }
    r := None;
  }

  lemma NotInfinity(g: Group, r: int)
    requires g.Valid() && -UINT32 < r < UINT32
    ensures g.mul(r) == Inf <==> r == 0
  {
    hide Multiples, OrderN;
    OrderAt(g.mul, r);
    SmallMultiple(r);
  }

  lemma SmallMultiple(r: int)
    requires -UINT32 < r < UINT32
    ensures r % N == 0 <==> r == 0
  {
  }

  /** Step s and remainder r of m = 65536 s + r with 0 < r <= 65536. */
  function LastStep(m: int): (s: nat)
    requires 0 < m < UINT32
    ensures s < SIZE && SIZE * s < m <= SIZE * s + SIZE
  {
    (m - 1) / SIZE
  }

  /** What the lookups must say for m to be found: nothing before its last step, and then its own index,
      or nothing when the next step reaches infinity. */
  ghost predicate Found(mul: int -> Affine, t: seq<Record>, over: (nat, nat) -> nat, m: int)
    requires Indexed(t) && 0 < m < UINT32
  {
    var s := LastStep(m);
    var r := m - SIZE * s;
    && (forall i :: 0 <= i < s ==> Silent(mul, t, over, m, i))
    && (Search(t, over, X(mul(r)), 0) == Some(r - 1) || (r == SIZE && Silent(mul, t, over, m, s)))
  }

  ghost predicate Silent(mul: int -> Affine, t: seq<Record>, over: (nat, nat) -> nat, m: int, i: nat)
    requires Indexed(t)
  {
    Search(t, over, X(mul(m - SIZE * i)), 0) == None
  }

  /** Before the last step the search goes on exactly while the lookups are silent. */
  lemma {:induction false} Approach(g: Group, t: seq<Record>, over: (nat, nat) -> nat, m: int, i: nat)
    requires g.Valid() && Indexed(t) && 0 < m < UINT32 && i <= LastStep(m)
    ensures if forall k :: i <= k < LastStep(m) ==> Silent(g.mul, t, over, m, k)
            then Giant(g.mul, t, over, m, i) == Giant(g.mul, t, over, m, LastStep(m))
            else Giant(g.mul, t, over, m, i) != Some(m)
    decreases LastStep(m) - i
  {
    hide Group.Valid, X, Search;
    if i < LastStep(m) {
      NotInfinity(g, m - SIZE * i);
      if Silent(g.mul, t, over, m, i) {
        Approach(g, t, over, m, i + 1);
      } else {
        SearchSound(t, over, X(g.mul(m - SIZE * i)), 0);
      }
    }
  }

  /** After it, every report is too large. */
  lemma {:induction false} Beyond(g: Group, t: seq<Record>, over: (nat, nat) -> nat, m: int, i: nat)
    requires g.Valid() && Indexed(t) && 0 < m < UINT32 && i <= SIZE && m < SIZE * i
    ensures Giant(g.mul, t, over, m, i) != Some(m)
    decreases SIZE - i
  {
    hide Group.Valid, X, Search;
    if i < SIZE {
      NotInfinity(g, m - SIZE * i);
      SearchSound(t, over, X(g.mul(m - SIZE * i)), 0);
      Beyond(g, t, over, m, i + 1);
      TooLarge(m, i);
    }
  }

  lemma TooLarge(m: int, i: nat)
    requires 0 < m < UINT32 && m < SIZE * i && i < SIZE
    ensures forall j :: 0 <= j < SIZE ==> Report(i, j) != m
  {
    forall j | 0 <= j < SIZE ensures Report(i, j) != m {
      assert i * SIZE + j + 1 <= UINT32;
    }
  }

  /** The last step finds m in one of two ways. */
  lemma AtLastStep(g: Group, t: seq<Record>, over: (nat, nat) -> nat, m: int)
    requires g.Valid() && Indexed(t) && 0 < m < UINT32
    ensures var s := LastStep(m); var r := m - SIZE * s;
            Giant(g.mul, t, over, m, s) == Some(m)
            <==> Search(t, over, X(g.mul(r)), 0) == Some(r - 1) || (r == SIZE && Silent(g.mul, t, over, m, s))
  {
    hide Group.Valid, X, Search, Giant, Report;
    var s := LastStep(m);
    var r := m - SIZE * s;
    NotInfinity(g, r);
    GiantStep(g.mul, t, over, m, s);
    SearchSound(t, over, X(g.mul(r)), 0);
    LastReport(m, s);
    if r < SIZE {
      Beyond(g, t, over, m, s + 1);
    } else {
      NotInfinity(g, m - SIZE * (s + 1));
      GiantStep(g.mul, t, over, m, s + 1);
      assert (s + 1) * SIZE == m;
    }
  }

  lemma LastReport(m: int, s: nat)
    requires 0 < m < UINT32 && s == LastStep(m)
    ensures forall j :: 0 <= j < SIZE ==> (Report(s, j) == m <==> j == m - SIZE * s - 1)
    ensures m - SIZE * s == SIZE ==> s + 1 < SIZE
  {
  }

  /** The search returns m if and only if the lookups say so. */
  lemma SolveExact(g: Group, t: seq<Record>, over: (nat, nat) -> nat, m: int)
    requires g.Valid() && Indexed(t) && 0 < m < UINT32
    ensures Giant(g.mul, t, over, m, 0) == Some(m) <==> Found(g.mul, t, over, m)
  {
    hide Group.Valid, X, Search, Giant, Silent;
    Approach(g, t, over, m, 0);
    AtLastStep(g, t, over, m);
  }

  lemma ZeroFound(g: Group, t: seq<Record>, over: (nat, nat) -> nat)
    requires g.Valid() && Indexed(t)
    ensures Giant(g.mul, t, over, 0, 0) == Some(0)
  {
    hide Group.Valid, Search;
    ZeroMultiple(g);
  }

  /** Every lookup on the way to m is reliable. */
  ghost predicate ReliableWay(mul: int -> Affine, m: int)
    requires 0 <= m < UINT32
  {
    m == 0 || forall i :: 0 <= i <= LastStep(m) ==> Reliable(mul, X(mul(m - SIZE * i)))
  }

  /** Then m is returned. */
  lemma ReliableSolve(g: Group, over: (nat, nat) -> nat, m: int)
    requires g.Valid() && 0 <= m < UINT32 && ReliableWay(g.mul, m) && Indexed(TableOf(g.mul))
    ensures Giant(g.mul, TableOf(g.mul), over, m, 0) == Some(m)
  {
    hide Group.Valid, X, Search, Reliable, Giant, Silent, TableOf, Indexed, LastStep;
    var t := TableOf(g.mul);
    if m == 0 {
      ZeroFound(g, t, over);
    } else {
      StepRange(m);
      forall i | 0 <= i < LastStep(m) ensures Silent(g.mul, t, over, m, i) {
        ReliableSilent(g, over, m, i);
      }
      ReliableFound(g, over, m);
      SolveExact(g, t, over, m);
    }
  }

  lemma StepRange(m: int)
    requires 0 < m < UINT32
    ensures 0 < m - SIZE * LastStep(m) <= SIZE
    ensures forall i :: 0 <= i < LastStep(m) ==> SIZE < m - SIZE * i < UINT32
  {
  }

  lemma ReliableSilent(g: Group, over: (nat, nat) -> nat, m: int, i: nat)
    requires g.Valid() && Indexed(TableOf(g.mul)) && SIZE < m - SIZE * i < UINT32 && Reliable(g.mul, X(g.mul(m - SIZE * i)))
    ensures Silent(g.mul, TableOf(g.mul), over, m, i)
  {
    hide Group.Valid, X, Search, Reliable, TableOf, Indexed;
    ReliableSearch(g, over, m - SIZE * i);
  }

  lemma ReliableFound(g: Group, over: (nat, nat) -> nat, m: int)
    requires g.Valid() && Indexed(TableOf(g.mul)) && 0 < m < UINT32 && ReliableWay(g.mul, m)
    ensures var r := m - SIZE * LastStep(m); Search(TableOf(g.mul), over, X(g.mul(r)), 0) == Some(r - 1)
  {
    hide Group.Valid, X, Search, Reliable, TableOf, Indexed, LastStep;
    StepRange(m);
    var s := LastStep(m);
    assert Reliable(g.mul, X(g.mul(m - SIZE * s)));
    ReliableSearch(g, over, m - SIZE * s);
  }

  // ---------- where it fails ----------

  /** The record of a bucket with seven entries loses its own point: every m whose last remainder is
      b + 1 decrypts to something else. */
  lemma SpoiledRecord(g: Group, over: (nat, nat) -> nat, b: nat, m: int)
    requires g.Valid() && Indexed(TableOf(g.mul)) && b < SIZE - 1 && |Bucket(g.mul, b, SIZE)| == MAX_OFFSETS + 1
    requires var t := Bucket(g.mul, b, SIZE)[MAX_OFFSETS]; t >= b && TopByte(XAt(g.mul, b)) != t / 256
    requires 0 < m < UINT32 && m - SIZE * LastStep(m) == b + 1
    ensures Giant(g.mul, TableOf(g.mul), over, m, 0) != Some(m)
  {
    hide Group.Valid, Search, RecordAt, Bucket, X;
    IntactIff(g.mul, b);
    var t := TableOf(g.mul);
    SearchSound(t, over, XAt(g.mul, b), 0);
    SolveExact(g, t, over, m);
  }

  /** The seventh entry of a bucket is not among the slots the record still has, so it is found only if
      the bytes behind the record happen to spell its index. */
  lemma SeventhLost(g: Group, over: (nat, nat) -> nat, b: nat, m: int)
    requires g.Valid() && Indexed(TableOf(g.mul)) && b < SIZE && |Bucket(g.mul, b, SIZE)| == MAX_OFFSETS + 1
    requires var t := Bucket(g.mul, b, SIZE)[MAX_OFFSETS];
             && t < SIZE - 1 && 0 < m < UINT32 && m - SIZE * LastStep(m) == t + 1
             && forall w :: MAX_OFFSETS < w < 256 ==> over(b, w) % SIZE != t
    ensures Giant(g.mul, TableOf(g.mul), over, m, 0) != Some(m)
  {
    hide Group.Valid, Search, RecordAt, Bucket, X, Slot;
    var s, tab := Bucket(g.mul, b, SIZE), TableOf(g.mul);
    var t := s[MAX_OFFSETS];
    var x := XAt(g.mul, t);
    SeventhWrite(g.mul, b, SIZE);
    BucketMembers(g.mul, b, SIZE, t);
    assert x % SIZE == b;
    SearchSound(tab, over, x, 0);
    forall w | 0 <= w < tab[b].count ensures Slot(tab, over, b, w) != t {
      SlotIsNot(g, over, b, w);
    }
    SolveExact(g, tab, over, m);
  }

  lemma SlotIsNot(g: Group, over: (nat, nat) -> nat, b: nat, w: nat)
    requires g.Valid() && b < SIZE && |Bucket(g.mul, b, SIZE)| == MAX_OFFSETS + 1
    requires var t := Bucket(g.mul, b, SIZE)[MAX_OFFSETS]; t < SIZE && (w > MAX_OFFSETS ==> over(b, w) % SIZE != t)
    ensures Slot(TableOf(g.mul), over, b, w) != Bucket(g.mul, b, SIZE)[MAX_OFFSETS]
  {
    hide Group.Valid, RecordAt, Bucket, X, TopByte, WithTopByte;
    var s, r := Bucket(g.mul, b, SIZE), RecordAt(g.mul, b, SIZE);
    var t := s[MAX_OFFSETS];
    SeventhWrite(g.mul, b, SIZE);
    if w < MAX_OFFSETS {
      BucketIncreasing(g.mul, b, SIZE, w, MAX_OFFSETS);
      assert r.offset[w] == s[w];
    } else if w == MAX_OFFSETS {
      LowByteDiffers(r.count, TopByte(r.x), t);
    }
  }

  /** The count was incremented after the write, so the low byte is no longer that of t. */
  lemma LowByteDiffers(c: nat, h: int, t: nat)
    requires c == (t % 256 + 1) % 256
    ensures (c + 256 * h) % SIZE != t
  {
    assert (c + 256 * h) % SIZE % 256 == c;
  }

  /** The limit of the x-only lookup: the negative of a small multiple is reported as that multiple. */
  lemma NegatedLooksAlike(g: Group, j: int)
    requires g.Valid() && 0 < j <= SIZE
    ensures X(g.mul(-j)) == X(g.mul(j)) && g.mul(-j) != g.mul(j)
  {
    hide Multiples, EcAdd, OrderN;
    MulNeg(g.cb, g.mul, j);
    NotTwice(j);
    if g.mul(-j) == g.mul(j) {
      MulInjective(g.cb, g.mul, -j, j);
    }
  }

  lemma NotTwice(j: int)
    requires 0 < j <= SIZE
    ensures (-j - j) % N != 0
  {
  }

  // ---------- the homomorphic scheme ----------

  datatype Ciphertext = Ciphertext(c1: Affine, c2: Affine)

  /** The ciphertext of m under the key d with nonce k. */
  ghost function Enc(g: Group, d: int, k: int, m: int): Ciphertext {
    Ciphertext(g.mul(k), g.mul(k * d + m))
  }

  /** c encrypts m under the key d with some nonce. */
  ghost predicate Encrypts(g: Group, d: int, c: Ciphertext, m: int) {
    exists k :: c == Enc(g, d, k, m)
  }

  /** sm2_elgamal_do_encrypt. */
  method Encrypt(g: Group, pub: Affine, m: int, k: int, ghost d: int) returns (c: Ciphertext)
    requires g.Valid() && pub == g.mul(d) && 0 <= m < UINT32
    ensures c.c1 == g.mul(k) && c.c2 == EcAdd(g.mul(m), g.mul(k * d))
    ensures Encrypts(g, d, c, m)
  {
    hide Group.Valid;
    ScaleMul(g, k, d);
    AddMul(g, m, k * d);
    SumIs(g, g.mul(m), g.mul(k * d));
    c := Ciphertext(g.mul(k), g.MulSum(k, pub, m));
    assert m + k * d == k * d + m;
    assert c == Enc(g, d, k, m);
  }

  /** C2 - d * C1 is mG. */
  lemma Unmask(g: Group, d: int, k: int, m: int)
    requires g.Valid()
    ensures var c := Enc(g, d, k, m); g.add(c.c2, g.neg(g.scale(d, c.c1))) == g.mul(m)
  {
    hide Group.Valid;
    ScaleMul(g, d, k);
    NegMul(g, d * k);
    AddMul(g, k * d + m, -(d * k));
    assert k * d == d * k;
  }

  /** Adding two ciphertexts and a fresh encryption of zero. */
  lemma SumMasks(g: Group, d: int, i: int, m1: int, j: int, m2: int, k: int)
    requires g.Valid()
    ensures var a, b := Enc(g, d, i, m1), Enc(g, d, j, m2);
            Ciphertext(g.add(g.add(a.c1, b.c1), g.mul(k)), g.add(g.add(a.c2, b.c2), g.scale(k, g.mul(d))))
            == Enc(g, d, i + j + k, m1 + m2)
  {
    hide Group.Valid;
    AddMul(g, i, j);
    AddMul(g, i + j, k);
    AddMul(g, i * d + m1, j * d + m2);
    ScaleMul(g, k, d);
    AddMul(g, i * d + m1 + (j * d + m2), k * d);
    Collected(i, j, k, d);
  }

  lemma Collected(i: int, j: int, k: int, d: int)
    ensures i * d + j * d + k * d == (i + j + k) * d
  {
  }

  /** The 32-bit numbers decryption recovers, exactly. */
  ghost predicate Decryptable(mul: int -> Affine, over: (nat, nat) -> nat, m: int)
    requires 0 <= m < UINT32 && Indexed(TableOf(mul))
  {
    m == 0 || Found(mul, TableOf(mul), over, m)
  }

  /** sm2_elgamal_do_decrypt with a table built on its first use.  Unless the construction stops, it
      returns m exactly when the lookups find it, and it does whenever they are reliable. */
  method Decrypt(g: Group, d: int, c: Ciphertext, table: array<Record>, over: (nat, nat) -> nat, ghost m: int)
    returns (stopped: bool, r: Option<int>)
    requires g.Valid() && table.Length == SIZE && 0 <= m < UINT32 && Encrypts(g, d, c, m)
    modifies table
    ensures stopped <==> !Completes(g.mul)
    ensures Indexed(TableOf(g.mul)) && (!stopped ==> (r == Some(m) <==> Decryptable(g.mul, over, m)))
    ensures !stopped && ReliableWay(g.mul, m) ==> r == Some(m)
  {
    hide Group.Valid, Enc, Completes, ReliableWay, Giant, Found, Indexed, TableOf;
    ghost var k :| c == Enc(g, d, k, m);
    Unmask(g, d, k, m);
    var p := g.scale(d, c.c1);
    p := g.add(c.c2, g.neg(p));
    TableIndexed(g.mul);
    var ok := PreCompute(g, table);
    stopped, r := !ok, None;
    if ok {
      r := Solve(g, table[..], over, p, m);
      if m == 0 {
        ZeroFound(g, table[..], over);
      } else {
        SolveExact(g, table[..], over, m);
      }
      if ReliableWay(g.mul, m) {
        ReliableSolve(g, over, m);
      }
    }
  }

  /** The two points of a ciphertext with nonce k. */
  ghost predicate EncParts(g: Group, d: int, k: int, m: int) {
    var c := Enc(g, d, k, m);
    c.c1 == g.mul(k) && c.c2 == EcAdd(g.mul(m), g.mul(k * d))
  }

  lemma EncIs(g: Group, d: int, k: int, m: int)
    requires g.Valid()
    ensures EncParts(g, d, k, m)
  {
    hide Group.Valid, EcAdd;
    AddMul(g, m, k * d);
    SumIs(g, g.mul(m), g.mul(k * d));
    assert m + k * d == k * d + m;
  }

  /** sm2_elgamal_ciphertext_add: the sum, blinded afresh, encrypts the sum of the plaintexts. */
  method CiphertextAdd(g: Group, pub: Affine, a: Ciphertext, b: Ciphertext, k: int, ghost d: int, ghost m1: int, ghost m2: int)
    returns (c: Ciphertext)
    requires g.Valid() && pub == g.mul(d) && Encrypts(g, d, a, m1) && Encrypts(g, d, b, m2)
    ensures Encrypts(g, d, c, m1 + m2)
    ensures forall i, j :: a == Enc(g, d, i, m1) && b == Enc(g, d, j, m2) ==>
              c.c1 == g.mul(i + j + k) && c.c2 == EcAdd(g.mul(m1 + m2), g.mul((i + j + k) * d))
  {
    hide Group.Valid, Enc;
    forall i, j | a == Enc(g, d, i, m1) && b == Enc(g, d, j, m2)
      ensures Ciphertext(g.add(g.add(a.c1, b.c1), g.mul(k)), g.add(g.add(a.c2, b.c2), g.scale(k, pub)))
              == Enc(g, d, i + j + k, m1 + m2)
      ensures EncParts(g, d, i + j + k, m1 + m2)
    {
      SumMasks(g, d, i, m1, j, m2, k);
      EncIs(g, d, i + j + k, m1 + m2);
    }
    ghost var i :| a == Enc(g, d, i, m1);
    ghost var j :| b == Enc(g, d, j, m2);
    SumMasks(g, d, i, m1, j, m2, k);
    var c1 := g.add(a.c1, b.c1);
    c1 := g.add(c1, g.mul(k));
    var c2 := g.add(a.c2, b.c2);
    c2 := g.add(c2, g.scale(k, pub));
    c := Ciphertext(c1, c2);
  }
}
