/** Montgomery's simultaneous inversion as sm2_fast_sign_pre_compute (src/sm2_sign.c) and
    sm2_encrypt_pre_compute (src/sm2_enc.c) use it to normalise a batch of points. */
module Batch {
  import opened Modular
  import opened NumberTheory
  import opened Z256
  import opened Field
  import opened FieldElem
  import opened Curve
  import opened Points
  import opened ScalarMul
  import opened SignSpec
  import opened Sign

  // ---------- products ----------

  ghost function Prod(s: seq<int>): int {
    if s == [] then 1 else Prod(s[..|s| - 1]) * s[|s| - 1]
  }

  lemma {:induction false} ProdSplit(s: seq<int>, t: seq<int>)
    ensures Prod(s + t) == Prod(s) * Prod(t)
  {
    if t != [] {
      var l := t[..|t| - 1];
      ProdSplit(s, l);
      assert (s + t)[..|s + t| - 1] == s + l;
      assert (Prod(s) * Prod(l)) * t[|t| - 1] == Prod(s) * (Prod(l) * t[|t| - 1]);
    } else {
      assert s + t == s;
    }
  }

  lemma ProdOne(x: int)
    ensures Prod([x]) == x
  {
    assert [x][..0] == [];
    assert Prod([]) == 1;
  }

  lemma ProdSnoc(s: seq<int>, i: nat)
    requires i < |s|
    ensures Prod(s[..i + 1]) == Prod(s[..i]) * s[i]
  {
    assert s[..i + 1][..i] == s[..i];
  }

  lemma ProdCons(s: seq<int>, i: nat)
    requires i < |s|
    ensures Prod(s[i..]) == s[i] * Prod(s[i + 1..])
  {
    assert s[i..] == [s[i]] + s[i + 1..];
    ProdSplit([s[i]], s[i + 1..]);
    ProdOne(s[i]);
  }

  lemma ProdAround(s: seq<int>, i: nat)
    requires i < |s|
    ensures Prod(s) == Prod(s[..i]) * (s[i] * Prod(s[i + 1..]))
  {
    assert s == s[..i] + s[i..];
    ProdSplit(s[..i], s[i..]);
    ProdCons(s, i);
  }

  /** A product of units is a unit ... */
  lemma {:induction false} ProdUnit(s: seq<int>)
    requires Prime(P) && forall i :: 0 <= i < |s| ==> !C(s[i], 0)
    ensures !C(Prod(s), 0)
  {
    hide Cong, Prime;
    if s == [] {
      NonzeroResidue(1);
    } else {
      var l := s[..|s| - 1];
      ProdUnit(l);
      NonzeroProduct(Prod(l), s[|s| - 1]);
    }
  }

  /** ... and one vanishing factor makes it vanish. */
  lemma ProdZero(s: seq<int>, i: nat)
    requires i < |s| && C(s[i], 0)
    ensures C(Prod(s), 0)
  {
    hide Cong, Prod;
    ProdAround(s, i);
    ScaleC(s[i], 0, Prod(s[i + 1..]));
    ScaleC(s[i] * Prod(s[i + 1..]), 0, Prod(s[..i]));
  }

  ghost function Zs(ps: seq<Jac>): (s: seq<int>)
    ensures |s| == |ps| && forall i :: 0 <= i < |ps| ==> s[i] == V(ps[i].Z)
  {
    seq(|ps|, i requires 0 <= i < |ps| => V(ps[i].Z))
  }

  ghost predicate AllBounded(ps: seq<Jac>) {
    forall i :: 0 <= i < |ps| ==> Bounded(ps[i])
  }

  // ---------- the batch ----------

  /** f[i] = Z[0] * ... * Z[i]. */
  method Prefixes(ps: array<Jac>, f: array<Fe>)
    requires ps.Length == f.Length >= 2 && AllBounded(ps[..])
    modifies f
    ensures forall i :: 0 <= i < f.Length ==> S(f[i]) && C(V(f[i]), Prod(Zs(ps[..])[..i + 1]))
  {
    hide Cong, V, Val4, Prod;
    ghost var s := Zs(ps[..]);
    assert forall i :: 0 <= i < ps.Length ==> ps[i] == ps[..][i];
    f[0] := ps[0].Z;
    assert s[..1] == [s[0]];
    ProdOne(s[0]);
    Self(s[0]);
    for i := 1 to f.Length
      invariant forall j :: 0 <= j < i ==> S(f[j]) && C(V(f[j]), Prod(s[..j + 1]))
    {
      ghost var a := V(f[i - 1]);
      f[i] := PMul(f[i - 1], ps[i].Z);
      Self(s[i]);
      ProdSnoc(s, i);
      MulC(V(f[i]), a, s[i], Prod(s[..i]), s[i], Prod(s[..i + 1]));
    }
  }

  /** g[i] = Z[i] * ... * Z[n-1], for i >= 1. */
  method Suffixes(ps: array<Jac>, g: array<Fe>)
    requires ps.Length == g.Length >= 2 && AllBounded(ps[..])
    modifies g
    ensures forall i :: 1 <= i < g.Length ==> S(g[i]) && C(V(g[i]), Prod(Zs(ps[..])[i..]))
  {
    hide Cong, V, Val4, Prod;
    ghost var s := Zs(ps[..]);
    assert forall i :: 0 <= i < ps.Length ==> ps[i] == ps[..][i];
    var n := g.Length;
    g[n - 1] := ps[n - 1].Z;
    assert s[n - 1..] == [s[n - 1]];
    ProdOne(s[n - 1]);
    Self(s[n - 1]);
    for i := n - 1 downto 1
      invariant forall j :: i <= j < n ==> S(g[j]) && C(V(g[j]), Prod(s[j..]))
    {
      ghost var a := V(g[i + 1]);
      g[i] := PMul(g[i + 1], ps[i].Z);
      Self(s[i]);
      ProdCons(s, i);
      MulC(V(g[i]), a, s[i], Prod(s[i + 1..]), s[i], Prod(s[i..]));
    }
  }

  /** What slot i must hold: everything but its own Z, over the whole product. */
  ghost predicate Inverted(s: seq<int>, fi: int, i: nat, z: int)
    requires i < |s|
  {
    C(z, (Prod(s[i + 1..]) * Prod(s[..i])) * fi)
  }

  lemma InvertedMeans(s: seq<int>, fi: int, i: nat, z: int)
    requires Prime(P) && i < |s| && Inverted(s, fi, i, z)
    ensures C(Prod(s) * fi, 1) ==> C(s[i] * z, 1)
    ensures C(fi, 0) ==> C(z, 0)
  {
    hide Cong, Prod;
    var a, b := Prod(s[i + 1..]), Prod(s[..i]);
    ScaleC(z, (a * b) * fi, s[i]);
    ProdAround(s, i);
    Regroup(s[i], a, b, fi);
    if C(Prod(s) * fi, 1) {
      Trans(s[i] * z, Prod(s) * fi, 1);
    }
    if C(fi, 0) {
      ScaleC(fi, 0, a * b);
      Trans(z, (a * b) * fi, 0);
    }
  }

  lemma Regroup(x: int, a: int, b: int, fi: int)
    ensures x * ((a * b) * fi) == (b * (x * a)) * fi
  {
    assert x * ((a * b) * fi) == (x * (a * b)) * fi;
    assert x * (a * b) == b * (x * a);
  }

  /** Replaces every Z by its inverse with a single field inversion; all become zero if one was. */
  method InvertAll(ps: array<Jac>)
    requires Prime(P) && ps.Length >= 2 && AllBounded(ps[..])
    modifies ps
    ensures AllBounded(ps[..])
    ensures forall i :: 0 <= i < ps.Length ==> ps[i].X == old(ps[i]).X && ps[i].Y == old(ps[i]).Y
    ensures (forall i :: 0 <= i < ps.Length ==> V(old(ps[i]).Z) != 0) ==>
              forall i :: 0 <= i < ps.Length ==> C(V(old(ps[i]).Z) * V(ps[i].Z), 1)
    ensures (exists i :: 0 <= i < ps.Length && V(old(ps[i]).Z) == 0) ==>
              forall i :: 0 <= i < ps.Length ==> V(ps[i].Z) == 0
  {
    hide Cong, V, Val4, Prod, Inverted, Prime;
    ghost var was := ps[..];
    ghost var s := Zs(was);
    var n := ps.Length;
    var f, g := new Fe[n], new Fe[n];
    Prefixes(ps, f);
    ghost var total := V(f[n - 1]);
    assert s[..n] == s;
    var inv := PInv(f[n - 1]);
    f[n - 1] := inv;
    var fs := f[..];
    Suffixes(ps, g);
    Distribute(ps, fs, g[..], s);
    BatchMeans(s, total, V(inv), ps[..]);
    SameZs(was, s);
  }

  lemma SameZs(was: seq<Jac>, s: seq<int>)
    requires s == Zs(was)
    ensures forall i :: 0 <= i < |was| ==> V(was[i].Z) == s[i]
  {
  }

  /** Z[0] = g[1] * F, Z[i] = g[i+1] * f[i-1] * F and Z[n-1] = f[n-2] * F, where F = f[n-1] is inverted. */
  method Distribute(ps: array<Jac>, f: seq<Fe>, g: seq<Fe>, ghost s: seq<int>)
    requires ps.Length == |f| == |g| == |s| >= 2 && S(f[|f| - 1])
    requires forall i :: 0 <= i < |f| - 1 ==> S(f[i]) && C(V(f[i]), Prod(s[..i + 1]))
    requires forall i :: 1 <= i < |g| ==> S(g[i]) && C(V(g[i]), Prod(s[i..]))
    modifies ps
    ensures forall i :: 0 <= i < ps.Length ==> ps[i].X == old(ps[i]).X && ps[i].Y == old(ps[i]).Y && S(ps[i].Z)
    ensures forall i :: 0 <= i < ps.Length ==> Inverted(s, V(f[|f| - 1]), i, V(ps[i].Z))
  {
    hide Cong, V, Val4, Prod, Inverted;
    ghost var was := ps[..];
    var n := ps.Length;
    var inv := f[n - 1];
    var first := PMul(g[1], inv);
    ps[0] := ps[0].(Z := first);
    FirstSlot(s, V(inv), V(first), V(g[1]));
    for i := 1 to n - 1
      invariant forall j :: 0 <= j < i ==> ps[j].X == was[j].X && ps[j].Y == was[j].Y && S(ps[j].Z)
      invariant forall j :: 0 <= j < i ==> Inverted(s, V(inv), j, V(ps[j].Z))
      invariant forall j :: i <= j < n ==> ps[j] == was[j]
    {
      var z := PMul(g[i + 1], f[i - 1]);
      var w := PMul(z, inv);
      MiddleSlot(s, V(inv), i, V(g[i + 1]), V(f[i - 1]), V(z), V(w));
      ps[i] := ps[i].(Z := w);
    }
    var last := PMul(f[n - 2], inv);
    LastSlot(s, V(inv), V(last), V(f[n - 2]));
    ps[n - 1] := ps[n - 1].(Z := last);
  }

  lemma FirstSlot(s: seq<int>, fi: int, z: int, g: int)
    requires |s| >= 2 && C(g, Prod(s[1..])) && C(z, g * fi)
    ensures Inverted(s, fi, 0, z)
  {
    hide Cong;
    assert Prod(s[..0]) == 1;
    Self(fi);
    MulC(z, g, fi, Prod(s[1..]), fi, (Prod(s[1..]) * 1) * fi);
  }

  lemma MiddleSlot(s: seq<int>, fi: int, i: nat, g: int, f: int, z: int, w: int)
    requires 1 <= i < |s| - 1 && C(g, Prod(s[i + 1..])) && C(f, Prod(s[..i])) && C(z, g * f) && C(w, z * fi)
    ensures Inverted(s, fi, i, w)
  {
    hide Cong, Prod;
    Self(fi);
    MulC(z, g, f, Prod(s[i + 1..]), Prod(s[..i]), Prod(s[i + 1..]) * Prod(s[..i]));
    MulC(w, z, fi, Prod(s[i + 1..]) * Prod(s[..i]), fi, (Prod(s[i + 1..]) * Prod(s[..i])) * fi);
  }

  lemma LastSlot(s: seq<int>, fi: int, z: int, f: int)
    requires |s| >= 2 && C(f, Prod(s[..|s| - 1])) && C(z, f * fi)
    ensures Inverted(s, fi, |s| - 1, z)
  {
    hide Cong, Prod;
    assert s[|s| - 1 + 1..] == [];
    EmptyProd();
    Self(fi);
    MulC(z, f, fi, Prod(s[..|s| - 1]), fi, (1 * Prod(s[..|s| - 1])) * fi);
  }

  lemma EmptyProd()
    ensures Prod([]) == 1
  {
  }

  /** All slots together. */
  lemma BatchMeans(s: seq<int>, total: int, fi: int, ps: seq<Jac>)
    requires Prime(P) && |ps| == |s| && C(total, Prod(s)) && 0 <= total < P
    requires forall i :: 0 <= i < |s| ==> 0 <= s[i] < P
    requires (total != 0 ==> C(total * fi, 1)) && (total == 0 ==> fi == 0)
    requires forall i :: 0 <= i < |s| ==> Inverted(s, fi, i, V(ps[i].Z))
    ensures (forall i :: 0 <= i < |s| ==> s[i] != 0) ==> forall i :: 0 <= i < |s| ==> C(s[i] * V(ps[i].Z), 1)
    ensures (exists i :: 0 <= i < |s| && s[i] == 0) ==> forall i :: 0 <= i < |s| ==> V(ps[i].Z) == 0
  {
    hide Cong, Prod, V, Inverted, Prime;
    NonzeroResidue(total);
    if forall i :: 0 <= i < |s| ==> s[i] != 0 {
      forall i | 0 <= i < |s| ensures !C(s[i], 0) {
        NonzeroResidue(s[i]);
      }
      ProdUnit(s);
      if total == 0 {
        Flip(total, Prod(s));
        Trans(Prod(s), total, 0);
      }
      ScaleC(total, Prod(s), fi);
      Flip(total * fi, Prod(s) * fi);
      Trans(Prod(s) * fi, total * fi, 1);
      forall i | 0 <= i < |s| ensures C(s[i] * V(ps[i].Z), 1) {
        InvertedMeans(s, fi, i, V(ps[i].Z));
      }
    } else {
      var z :| 0 <= z < |s| && s[z] == 0;
      Self(0);
      ProdZero(s, z);
      Trans(total, Prod(s), 0);
      forall i | 0 <= i < |s| ensures V(ps[i].Z) == 0 {
        InvertedMeans(s, fi, i, V(ps[i].Z));
        NonzeroResidue(V(ps[i].Z));
      }
    }
  }

  // ---------- precomputed nonces ----------

  /** The nonces a batch may be filled with: the drawing loops skip zero. */
  ghost predicate Nonces(ks: seq<Fe>) {
    forall i :: 0 <= i < |ks| ==> 0 < Val4(ks[i]) < N
  }

  /** No nonce is the scalar the generator multiplication gets wrong. */
  ghost predicate Regular(ks: seq<Fe>) {
    forall i :: 0 <= i < |ks| ==> Val4(ks[i]) != N - 70
  }

  ghost predicate AreMultiples(mul: int -> Affine, ks: seq<Fe>, ps: seq<Jac>) {
    |ps| == |ks| && AllBounded(ps) && forall i :: 0 <= i < |ks| ==> Pt(ps[i]) == GeneratorResult(mul, Val4(ks[i]))
  }

  method MultiplyAll(ks: seq<Fe>, ps: array<Jac>, tab: seq<seq<AffineLimbs>>, ghost cb: int, ghost mul: int -> Affine)
    requires Prime(P) && Multiples(cb, mul) && OrderN(mul) && GeneratorTable(mul, tab) && ps.Length == |ks|
    modifies ps
    ensures AreMultiples(mul, ks, ps[..])
  {
    hide Prime, Multiples, OrderN, GeneratorTable, Pt, GeneratorResult, Bounded, Val4;
    for i := 0 to |ks|
      invariant forall j :: 0 <= j < i ==> Bounded(ps[j]) && Pt(ps[j]) == GeneratorResult(mul, Val4(ks[j]))
    {
      var p := new Point(Jac(ZERO, ZERO, ZERO));
      MulGenerator(p, ks[i], tab, cb, mul);
      ps[i] := p.Val();
    }
  }

  /** Infinity appears exactly at the exceptional nonces. */
  lemma InfinityAt(mul: int -> Affine, ks: seq<Fe>, ps: seq<Jac>, i: nat)
    requires OrderN(mul) && Nonces(ks) && AreMultiples(mul, ks, ps) && i < |ks|
    ensures V(ps[i].Z) == 0 <==> Val4(ks[i]) == N - 70
  {
    hide V, Val4;
    var k := Val4(ks[i]);
    ModSmall(k, N);
    OrderAt(mul, k);
  }

  /** The coordinates of a point whose Z has been replaced by its inverse. */
  method Normalise(j: Jac, ghost was: Jac) returns (x: Fe, y: Fe)
    requires Prime(P) && Bounded(was) && Bounded(j) && j.X == was.X && j.Y == was.Y
    ensures V(was.Z) != 0 && C(V(was.Z) * V(j.Z), 1) ==> Pt(was) == Aff(Val4(x), Val4(y))
    ensures V(j.Z) == 0 ==> Val4(x) == 0 && Val4(y) == 0
  {
    hide Cong, Prime, V, Val4, Pt, Rep;
    var y1 := PMul(j.Y, j.Z);
    var z2 := PMul(j.Z, j.Z);
    var y2 := PMul(y1, z2);
    var x1 := PMul(j.X, z2);
    x := FromMont(x1);
    y := FromMont(y2);
    if V(was.Z) != 0 && C(V(was.Z) * V(j.Z), 1) {
      PtRep(was);
      InfinityTest(was);
      ZeroLimbs(was.Z);
      Normalised(Pt(was), V(was.X), V(was.Y), V(was.Z), V(j.Z), V(y1), V(z2), V(x1), V(y2));
    }
    if V(j.Z) == 0 {
      Collapse(V(j.X), V(j.Y), V(y1), V(z2), V(x1), V(y2));
    }
  }

  /** sm2_encrypt_pre_compute: the affine coordinates of every kG, for any batch of at least two.
      One exceptional nonce spoils the whole batch. */
  method EncryptPreCompute(ks: seq<Fe>, tab: seq<seq<AffineLimbs>>, ghost cb: int, ghost mul: int -> Affine)
    returns (xs: seq<Fe>, ys: seq<Fe>)
    requires Prime(P) && Multiples(cb, mul) && OrderN(mul) && GeneratorTable(mul, tab) && |ks| >= 2 && Nonces(ks)
    ensures |xs| == |ys| == |ks|
    ensures Regular(ks) ==> forall i :: 0 <= i < |ks| ==> mul(Val4(ks[i])) == Aff(Val4(xs[i]), Val4(ys[i]))
    ensures !Regular(ks) ==> forall i :: 0 <= i < |ks| ==> Val4(xs[i]) == 0 && Val4(ys[i]) == 0
  {
    hide Cong, Prime, Multiples, OrderN, GeneratorTable, Pt, Val4, V, Bounded;
    var ps := new Jac[|ks|](_ => Jac(ZERO, ZERO, ZERO));
    MultiplyAll(ks, ps, tab, cb, mul);
    ghost var was := ps[..];
    forall i | 0 <= i < |ks| ensures V(was[i].Z) == 0 <==> Val4(ks[i]) == N - 70 {
      InfinityAt(mul, ks, was, i);
    }
    InvertAll(ps);
    var qs := ps[..];
    xs, ys := [], [];
    for i := 0 to |ks|
      invariant |xs| == |ys| == i
      invariant Regular(ks) ==> forall j :: 0 <= j < i ==> mul(Val4(ks[j])) == Aff(Val4(xs[j]), Val4(ys[j]))
      invariant !Regular(ks) ==> forall j :: 0 <= j < i ==> Val4(xs[j]) == 0 && Val4(ys[j]) == 0
    {
      var x, y := Normalise(qs[i], was[i]);
      xs, ys := xs + [x], ys + [y];
    }
  }

  /** sm2_fast_sign_pre_compute: the same batch, keeping the x-coordinates reduced modulo n. */
  method SignPreCompute(ks: seq<Fe>, tab: seq<seq<AffineLimbs>>, ghost cb: int, ghost mul: int -> Affine)
    returns (xs: seq<Fe>)
    requires Prime(P) && Multiples(cb, mul) && OrderN(mul) && GeneratorTable(mul, tab) && |ks| >= 2 && Nonces(ks)
    ensures |xs| == |ks| && forall i :: 0 <= i < |ks| ==> Val4(xs[i]) < N
    ensures Regular(ks) ==> forall i :: 0 <= i < |ks| ==> Val4(xs[i]) == XN(mul(Val4(ks[i])))
    ensures !Regular(ks) ==> forall i :: 0 <= i < |ks| ==> Val4(xs[i]) == 0
  {
    hide Cong, Prime, Multiples, OrderN, GeneratorTable, Val4, Regular;
    var us, vs := EncryptPreCompute(ks, tab, cb, mul);
    xs := [];
    for i := 0 to |ks|
      invariant |xs| == i
      invariant forall j :: 0 <= j < i ==> Val4(xs[j]) == Val4(us[j]) % N
    {
      var x := ReduceOnce(us[i]);
      xs := xs + [x];
    }
  }
}
