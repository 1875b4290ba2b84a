/** SM2 ring signatures, src/sm2_ring.c.  The sm2_fn_* and sm2_jacobian_point_* routines it calls
    are given their field and group contracts. */
module Ring {
  import opened Modular
  import opened NumberTheory
  import opened Field
  import opened Curve
  import opened ScalarMul
  import opened SignSpec
  import opened Groups

  /** sm2_fn_add. */
  function FnAdd(a: int, b: int): (r: int)
    ensures 0 <= r < N
  {
    (a + b) % N
  }

  /** The challenge for the next position of the ring. */
  function Next(g: Group, key: Affine, e: int, r: int, s: int): (r': int)
    ensures 0 <= r' < N
  {
    FnAdd(X(g.MulSum(FnAdd(s, r), key, s)), e)
  }

  /** The challenge after walking positions 0 .. i-1 from r. */
  ghost function Chain(g: Group, keys: seq<Affine>, e: int, r: int, ss: seq<int>, i: nat): int
    requires i <= |keys| == |ss|
  {
    if i == 0 then r else Next(g, keys[i - 1], e, Chain(g, keys, e, r, ss, i - 1), ss[i - 1])
  }

  ghost predicate Accepted(g: Group, keys: seq<Affine>, e: int, r0: int, ss: seq<int>)
    requires |keys| == |ss|
  {
    Chain(g, keys, e, r0, ss, |keys|) == r0
  }

  /** Challenges that fit around the ring at position q. */
  ghost predicate Fits(g: Group, keys: seq<Affine>, e: int, rs: seq<int>, ss: seq<int>, q: nat)
    requires |keys| == |ss| == |rs| && q < |keys|
  {
    rs[(q + 1) % |keys|] == Next(g, keys[q], e, rs[q], ss[q])
  }

  /** A closed cycle of challenges makes the walk from position 0 return to its start. */
  lemma {:induction false} CycleCloses(g: Group, keys: seq<Affine>, e: int, rs: seq<int>, ss: seq<int>, i: nat)
    requires 0 < |keys| == |ss| == |rs| && i <= |keys|
    requires forall q :: 0 <= q < |keys| ==> Fits(g, keys, e, rs, ss, q)
    ensures Chain(g, keys, e, rs[0], ss, i) == rs[i % |keys|]
  {
    hide Next;
    var n := |keys|;
    if i > 0 {
      CycleCloses(g, keys, e, rs, ss, i - 1);
      ModSmall(i - 1, n);
      assert Fits(g, keys, e, rs, ss, i - 1);
    }
  }

  /** The signer's own position: with s = (k - rd)/(1 + d) the next challenge is the one from kG. */
  lemma SignerFits(g: Group, d: int, k: int, e: int, r: int)
    requires g.Valid() && PrivateKey(d)
    ensures Next(g, g.mul(d), e, r, SigS(d, k, r)) == FnAdd(X(g.mul(k)), e)
  {
    hide SigS, Prime, Multiples, OrderN, EcAdd, X;
    var s := SigS(d, k, r);
    Recombine(g.cb, g.mul, d, k, r);
    assert FnAdd(s, r) == (r + s) % N;
    var t := (r + s) % N;
    ScaleMul(g, t, d);
    assert t * d == d * t;
  }

  /** The challenge after a key aG: the x-coordinate of (s + (s + r)a)G, plus the digest. */
  lemma NextValue(g: Group, a: int, e: int, r: int, s: int)
    requires g.Valid()
    ensures Next(g, g.mul(a), e, r, s) == (X(g.mul(s + (s + r) * a)) + e) % N
  {
    hide Prime, Multiples, OrderN, EcAdd, X;
    var t := FnAdd(s, r);
    var j := Turns(s + r);
    ScaleMul(g, t, a);
    AddMul(g, s, t * a);
    Unreduced(s, s + r, t, j, a);
    WholeTurns(g.cb, g.mul, s + t * a, j * a);
  }

  lemma Turns(u: int) returns (j: int)
    ensures u == j * N + u % N
  {
    j := u / N;
  }

  lemma Unreduced(s: int, u: int, t: int, j: int, a: int)
    requires u == j * N + t
    ensures s + u * a == s + t * a + (j * a) * N
  {
    assert u * a == (j * N) * a + t * a;
    assert (j * N) * a == (j * a) * N;
  }

  /** The search for the signer's key: the first position holding it. */
  method FindSigner(keys: seq<Affine>, own: Affine) returns (index: nat)
    ensures index <= |keys|
    ensures index < |keys| ==> keys[index] == own
    ensures index == |keys| <==> own !in keys
    ensures forall j :: 0 <= j < index ==> keys[j] != own
  {
    index := 0;
    while index < |keys| && keys[index] != own
      invariant index <= |keys| && forall j :: 0 <= j < index ==> keys[j] != own
    {
      index := index + 1;
    }
  }

  /** The position c steps after the signer, and the number of steps to a position. */
  function After(j: nat, c: nat, n: nat): (i: nat)
    requires j < n && c <= n
    ensures i < n
  {
    if j + c < n then j + c else j + c - n
  }

  function Steps(j: nat, q: nat, n: nat): (c: nat)
    requires j < n && q < n
    ensures 0 < c <= n && After(j, c, n) == q && (c == n <==> q == j)
  {
    if q > j then q - j else q + n - j
  }

  lemma Advance(i: nat, n: nat)
    requires i < n
    ensures (i + 1) % n == After(i, 1, n)
  {
    if i + 1 < n {
      ModSmall(i + 1, n);
    } else {
      DivModUnique(n, n, 1, 0);
    }
  }

  /** The challenge c steps after the signer, when the responses come from rand. */
  ghost function Walk(g: Group, keys: seq<Affine>, e: int, first: int, rand: seq<int>, j: nat, c: nat): int
    requires j < |keys| == |rand| && 0 < c <= |keys|
  {
    if c == 1 then first
    else var q := After(j, c - 1, |keys|); Next(g, keys[q], e, Walk(g, keys, e, first, rand, j, c - 1), rand[q])
  }

  /** The challenges of the walk, by position. */
  ghost function Around(g: Group, keys: seq<Affine>, e: int, first: int, rand: seq<int>, j: nat): (rs: seq<int>)
    requires j < |keys| == |rand|
    ensures |rs| == |keys|
  {
    seq(|keys|, q requires 0 <= q < |keys| => Walk(g, keys, e, first, rand, j, Steps(j, q, |keys|)))
  }

  /** Challenges rs, fitting at every position, that begin with r0. */
  ghost predicate Closed(g: Group, keys: seq<Affine>, e: int, r0: int, rs: seq<int>, ss: seq<int>)
    requires |keys| == |ss|
  {
    && |rs| == |keys| && (|rs| > 0 ==> rs[0] == r0)
    && forall q :: 0 <= q < |keys| ==> Fits(g, keys, e, rs, ss, q)
  }

  /** The challenges the verifier passes through. */
  ghost function Challenges(g: Group, keys: seq<Affine>, e: int, r0: int, ss: seq<int>): (rs: seq<int>)
    requires |keys| == |ss|
    ensures |rs| == |keys|
  {
    seq(|keys|, q requires 0 <= q < |keys| => Chain(g, keys, e, r0, ss, q))
  }

  /** A ring signature is accepted exactly when there are challenges beginning with r0 that fit at every
      position. */
  lemma AcceptedExact(g: Group, keys: seq<Affine>, e: int, r0: int, ss: seq<int>)
    requires 0 < |keys| == |ss|
    ensures Accepted(g, keys, e, r0, ss) <==> exists rs :: Closed(g, keys, e, r0, rs, ss)
  {
    hide Next, Chain;
    var n, rs := |keys|, Challenges(g, keys, e, r0, ss);
    ChainStart(g, keys, e, r0, ss);
    if Accepted(g, keys, e, r0, ss) {
      forall q | 0 <= q < n ensures Fits(g, keys, e, rs, ss, q) {
        ChainNext(g, keys, e, r0, ss, q);
        Advance(q, n);
      }
      assert Closed(g, keys, e, r0, rs, ss);
    }
    if rs' :| Closed(g, keys, e, r0, rs', ss) {
      CycleCloses(g, keys, e, rs', ss, n);
      DivModUnique(n, n, 1, 0);
    }
  }

  lemma ChainStart(g: Group, keys: seq<Affine>, e: int, r0: int, ss: seq<int>)
    requires |keys| == |ss|
    ensures Chain(g, keys, e, r0, ss, 0) == r0
  {
  }

  lemma ChainNext(g: Group, keys: seq<Affine>, e: int, r0: int, ss: seq<int>, q: nat)
    requires q < |keys| == |ss|
    ensures Chain(g, keys, e, r0, ss, q + 1) == Next(g, keys[q], e, Chain(g, keys, e, r0, ss, q), ss[q])
  {
    hide Next;
  }

  /** The walk around the ring, closed by the signer's response, is a cycle of fitting challenges. */
  lemma WalkAccepted(g: Group, keys: seq<Affine>, d: int, e: int, k: int, rand: seq<int>, ss: seq<int>, j: nat)
    requires g.Valid() && PrivateKey(d) && j < |keys| == |rand| == |ss| && keys[j] == g.mul(d)
    requires var r := Walk(g, keys, e, FnAdd(X(g.mul(k)), e), rand, j, |keys|); ss[j] == SigS(d, k, r)
    requires forall q :: 0 <= q < |keys| && q != j ==> ss[q] == rand[q]
    ensures var r0 := Walk(g, keys, e, FnAdd(X(g.mul(k)), e), rand, j, Steps(j, 0, |keys|));
            Closed(g, keys, e, r0, Around(g, keys, e, FnAdd(X(g.mul(k)), e), rand, j), ss) && Accepted(g, keys, e, r0, ss)
  {
    hide Next, SigS, FnAdd, X, Group.Valid, Fits, Walk, Chain;
    var n, first := |keys|, FnAdd(X(g.mul(k)), e);
    var rs := Around(g, keys, e, first, rand, j);
    forall q | 0 <= q < n ensures Fits(g, keys, e, rs, ss, q) {
      if q == j {
        SignerFits(g, d, k, e, rs[j]);
        WalkStart(g, keys, e, first, rand, j);
      } else {
        WalkStep(g, keys, e, first, rand, j, q);
      }
      FitsIf(g, keys, e, rs, ss, q);
    }
    CycleCloses(g, keys, e, rs, ss, n);
    DivModUnique(n, n, 1, 0);
  }

  lemma WalkStart(g: Group, keys: seq<Affine>, e: int, first: int, rand: seq<int>, j: nat)
    requires j < |keys| == |rand|
    ensures Walk(g, keys, e, first, rand, j, Steps(j, After(j, 1, |keys|), |keys|)) == first
  {
  }

  lemma WalkStep(g: Group, keys: seq<Affine>, e: int, first: int, rand: seq<int>, j: nat, q: nat)
    requires j < |keys| == |rand| && q < |keys| && q != j
    ensures Walk(g, keys, e, first, rand, j, Steps(j, After(q, 1, |keys|), |keys|))
         == Next(g, keys[q], e, Walk(g, keys, e, first, rand, j, Steps(j, q, |keys|)), rand[q])
  {
    hide Next;
    assert Steps(j, After(q, 1, |keys|), |keys|) == Steps(j, q, |keys|) + 1;
  }

  lemma FitsIf(g: Group, keys: seq<Affine>, e: int, rs: seq<int>, ss: seq<int>, q: nat)
    requires |keys| == |ss| == |rs| && q < |keys| && rs[After(q, 1, |keys|)] == Next(g, keys[q], e, rs[q], ss[q])
    ensures Fits(g, keys, e, rs, ss, q)
  {
    hide Next;
    Advance(q, |keys|);
  }

  /** sm2_ring_do_sign: rand lists the random response for every position but the signer's. */
  method RingSign(g: Group, keys: seq<Affine>, own: Affine, d: int, dgst: int, k: int, rand: seq<int>, ss: array<int>)
    returns (ok: bool, r0: int, ghost j: nat, ghost rs: seq<int>)
    requires g.Valid() && PrivateKey(d) && own == g.mul(d) && |rand| == |keys| == ss.Length
    modifies ss
    ensures ok <==> own in keys
    ensures ok ==> j < |keys| && keys[j] == own && own !in keys[..j]
    ensures ok ==> Signed(g, keys, d, dgst % N, k, rand, r0, j, rs, ss[..]) && Accepted(g, keys, dgst % N, r0, ss[..])
  {
    hide Next, SigS, FnAdd, X, Group.Valid, PrivateKey, Accepted, Walk, Closed, Signed;
    hide Chain;
    var e := dgst % N;
    var n := |keys|;
    r0, j, rs := 0, 0, [];
    var position := FindSigner(keys, own);
    if position >= n {
      return false, r0, j, rs;
    }
    ok, j := true, position;
    ghost var first := FnAdd(X(g.mul(k)), e);
    var x := X(g.mul(k));
    Advance(j, n);
    WalkStart(g, keys, e, first, rand, j);
    var i := (position + 1) % n;
    ghost var c: nat := 1;
    while i != position
      invariant 1 <= c <= n && i == After(j, c, n)
      invariant FnAdd(x, e) == Walk(g, keys, e, first, rand, j, c)
      invariant forall b :: 0 < b < c ==> ss[After(j, b, n)] == rand[After(j, b, n)]
      invariant Steps(j, 0, n) < c ==> r0 == Walk(g, keys, e, first, rand, j, Steps(j, 0, n))
      decreases n - c
    {
      var r := FnAdd(x, e);
      if i == 0 {
        r0 := r;
      }
      var s := rand[i];
      ss[i] := s;
      x := X(g.MulSum(FnAdd(s, r), keys[i], s));
      NextIs(g, keys[i], e, r, s);
      WalkStep(g, keys, e, first, rand, j, i);
      Advance(i, n);
      i := (i + 1) % n;
      c := c + 1;
    }
    var r := FnAdd(x, e);
    if i == 0 {
      r0 := r;
    }
    ss[i] := (g.inv(1 + d) * ((k - (r * d) % N) % N)) % N;
    Response(g, d, k, r);
    forall q | 0 <= q < n && q != j ensures ss[q] == rand[q] {
      var b := Steps(j, q, n);
      assert ss[After(j, b, n)] == rand[After(j, b, n)];
    }
    WalkAccepted(g, keys, d, e, k, rand, ss[..], j);
    rs := Around(g, keys, e, first, rand, j);
    SignedIs(g, keys, d, e, k, rand, r0, j, ss[..]);
  }

  /** A signature made by the signer at position j with nonce k and the random responses rand: the
      challenges rs fit everywhere, the one after the signer comes from kG, and the signer's response
      solves s(1 + d) = k - rd. */
  ghost predicate Signed(g: Group, keys: seq<Affine>, d: int, e: int, k: int, rand: seq<int>, r0: int, j: nat, rs: seq<int>, ss: seq<int>)
    requires j < |keys| == |rand| == |ss|
  {
    && Closed(g, keys, e, r0, rs, ss)
    && rs[(j + 1) % |keys|] == (X(g.mul(k)) + e) % N
    && (forall q :: 0 <= q < |keys| && q != j ==> ss[q] == rand[q])
    && 0 <= ss[j] < N && Cong(ss[j] * (1 + d), k - rs[j] * d, N)
  }

  lemma SignedIs(g: Group, keys: seq<Affine>, d: int, e: int, k: int, rand: seq<int>, r0: int, j: nat, ss: seq<int>)
    requires g.Valid() && PrivateKey(d) && j < |keys| == |rand| == |ss|
    requires var first := FnAdd(X(g.mul(k)), e); var rs := Around(g, keys, e, first, rand, j);
             Closed(g, keys, e, r0, rs, ss) && ss[j] == SigS(d, k, rs[j])
    requires forall q :: 0 <= q < |keys| && q != j ==> ss[q] == rand[q]
    ensures Signed(g, keys, d, e, k, rand, r0, j, Around(g, keys, e, FnAdd(X(g.mul(k)), e), rand, j), ss)
  {
    hide Walk, Closed, SigS, X, Cong, Multiples, OrderN, Prime, EcAdd, EcNeg;
    var first := FnAdd(X(g.mul(k)), e);
    var rs := Around(g, keys, e, first, rand, j);
    Advance(j, |keys|);
    WalkStart(g, keys, e, first, rand, j);
    var z := SignEquation(d, k, rs[j]);
    CongFromMultiple(ss[j] * (1 + d), k - rs[j] * d, z, N);
  }

  lemma Response(g: Group, d: int, k: int, r: int)
    requires g.Valid() && PrivateKey(d)
    ensures (g.inv(1 + d) * ((k - (r * d) % N) % N)) % N == SigS(d, k, r)
  {
    hide InvN, Prime, Multiples, OrderN, Residue;
    SEquals(k, r * d, InvN(1 + d));
  }

  lemma NextIs(g: Group, key: Affine, e: int, r: int, s: int)
    ensures Next(g, key, e, r, s) == FnAdd(X(g.MulSum(FnAdd(s, r), key, s)), e)
  {
  }

  /** sm2_ring_do_verify: walks the ring from position 0 and compares. */
  method RingVerify(g: Group, keys: seq<Affine>, dgst: int, r0: int, ss: seq<int>) returns (ok: bool)
    requires |keys| == |ss|
    ensures ok <==> Accepted(g, keys, dgst % N, r0, ss)
    ensures keys != [] ==> (ok <==> exists rs :: Closed(g, keys, dgst % N, r0, rs, ss))
  {
    hide Next, FnAdd, X, Closed;
    if keys != [] {
      AcceptedExact(g, keys, dgst % N, r0, ss);
    }
    var e := dgst % N;
    var r := r0;
    for i := 0 to |keys|
      invariant r == Chain(g, keys, e, r0, ss, i)
    {
      var s := ss[i];
      var x := X(g.MulSum(FnAdd(s, r), keys[i], s));
      NextIs(g, keys[i], e, r, s);
      r := FnAdd(x, e);
    }
    ok := r0 == r;
  }
}
