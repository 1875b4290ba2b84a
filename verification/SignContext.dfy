/** The signing context of src/sm2_sign.c: message hashing with a saved prefix, and the pool of
    precomputed nonces. */
module SignContext {
  import opened Common
  import opened Modular
  import opened NumberTheory
  import opened Z256
  import opened Field
  import opened FieldElem
  import opened Curve
  import opened Points
  import opened ScalarMul
  import opened SignSpec
  import opened Sign
  import opened Batch
  import P = Pool

  const SLOTS: nat := 32

  /** SM3 as an uninterpreted streaming hash; finishing leaves the state changed. */
  datatype Hash<!S> = Hash(init: S, update: (S, seq<int>) -> S, digest: S -> Fe, after: S -> S)

  /** The environment: curve coefficient, multiples of the generator and generator table. */
  datatype World = World(cb: int, mul: int -> Affine, tab: seq<seq<AffineLimbs>>)
  {
    ghost predicate Ok() {
      Prime(Field.P) && Prime(N) && Multiples(cb, mul) && OrderN(mul) && GeneratorTable(mul, tab)
    }
  }

  /** The identity argument of sm2_sign_init: none, one of a refused length, or the prefix hashed
      for it. */
  datatype Identity = Anonymous | BadLength | Known(z: seq<int>)

  function Outcome(ks: seq<Fe>): P.Refill {
    if |ks| < SLOTS then P.Failed(|ks|) else P.Full
  }

  /** The x-coordinate stored beside nonce i of a batch: one nonce n - 70 spoils them all. */
  ghost function SlotX(mul: int -> Affine, batch: seq<Fe>, i: nat): (x: int)
    requires i < |batch|
    ensures 0 <= x < N
  {
    if Regular(batch) then XN(mul(Val4(batch[i]))) else 0
  }

  /** The private key a stored fast key belongs to. */
  ghost predicate KeyOf(fastKey: Fe, d: Option<int>) {
    d.Some? ==> PrivateKey(d.value) && Val4(fastKey) == InvN(1 + d.value)
  }

  /** The signature made of nonce k and the x-coordinate in slot j, and when it is accepted.  The context
      never retries, so the three retry tests are part of that. */
  ghost predicate Signed(mul: int -> Affine, batch: seq<Fe>, j: nat, fastKey: Fe, d: Option<int>, e: int, k: int, sig: Signature)
    requires j < |batch|
  {
    var x := SlotX(mul, batch, j);
    var r, s := Val4(sig.r), Val4(sig.s);
    && r == (e % N + x) % N
    && s == Residue((k + r) * Val4(fastKey) - r, N)
    && (Regular(batch) && k == Val4(batch[j]) ==> r == SigR(mul, e, k))
    && (!Regular(batch) ==> r == e % N)
    && (d.Some? ==> s == SigS(d.value, k, r)
                    && (Accepts(mul, KeyMultiples(mul, d.value), e, r, s)
                        <==> r != 0 && s != 0 && r + k != N && x == VerifierX(mul, k, s)))
  }

  method SignSlot(fastKey: Fe, k: Fe, x: Fe, e: Fe, ghost d: Option<int>, ghost w: World, ghost batch: seq<Fe>, ghost j: nat)
    returns (sig: Signature)
    requires w.Ok() && KeyOf(fastKey, d) && j < |batch| && Val4(x) == SlotX(w.mul, batch, j) && 0 < Val4(k) < N
    ensures Signed(w.mul, batch, j, fastKey, d, Val4(e), Val4(k), sig)
  {
    hide Val4, Prime, InvN, Multiples, OrderN, GeneratorTable, XN, SigR, SigS, PrivateKey, GeneratorResult, SlotX, Accepts,
         VerifierX, KeyMultiples, Residue;
    sig := FastSign(fastKey, k, x, e, if d.Some? then d.value else 0);
    if d.Some? {
      AcceptedIff(w.cb, w.mul, d.value, Val4(e), Val4(k), SlotX(w.mul, batch, j));
    }
    if !Regular(batch) {
      Spoilt(w.mul, batch, j);
    } else if Val4(k) == Val4(batch[j]) {
      SlotXIs(w.mul, batch, j);
    }
  }

  class SignCtx<!S> {
    const h: Hash<S>
    var sm3: S
    var saved: S
    var preK: seq<Fe>
    var preX: seq<Fe>
    var num: nat
    var fastKey: Fe
    /** The private key fastKey belongs to, once there is one. */
    ghost var d: Option<int>
    ghost var pool: P.Pool
    /** All nonces drawn so far. */
    ghost var draws: seq<Fe>
    /** The nonces the stored x-coordinates were computed from. */
    ghost var batch: seq<Fe>

    ghost predicate Valid(w: World)
      reads this
    {
      && KeyOf(fastKey, d)
      && num == pool.num && P.Inv(SLOTS, pool) && pool.drawn == |draws| && |preK| == |preX| == SLOTS
      && (num > 0 ==> |batch| == SLOTS && Batched(w) && Nonces(preK))
      && forall j :: 0 <= j < num ==> preK[j] == draws[pool.ids[j]]
    }

    /** What a completed sm2_fast_sign_pre_compute left in the slots. */
    ghost predicate Batched(w: World)
      reads this`preX, this`batch
      requires |batch| == |preX| == SLOTS
    {
      forall i :: 0 <= i < SLOTS ==> Val4(preX[i]) == SlotX(w.mul, batch, i)
    }

    /** An allocated context that has not been initialised. */
    constructor (h: Hash<S>, ghost w: World)
      ensures Valid(w) && this.h == h && d == None && num == 0 && draws == [] && pool == P.Empty(SLOTS)
    {
      this.h := h;
      sm3, saved, fastKey, num := h.init, h.init, ZERO, 0;
      preK, preX := seq(SLOTS, _ => ZERO), seq(SLOTS, _ => ZERO);
      d, pool, draws, batch := None, P.Empty(SLOTS), [], [];
    }

    /** sm2_sign_init, on a new or a used context.  ks is what the random source delivers: fewer than
        32 values mean that it fails, and then the old key, the old number of slots and the old
        x-coordinates stay beside the nonces just drawn.  A key of n - 1 or more is not refused: the
        previous 1/(1 + d) stays. */
    method Init(id: Identity, key: Fe, ks: seq<Fe>, w: World) returns (ok: bool)
      requires w.Ok() && Valid(w) && |ks| <= SLOTS && Nonces(ks)
      modifies this
      ensures Valid(w) && (ok <==> id != BadLength && |ks| == SLOTS)
      ensures sm3 == (if id.Known? then h.update(h.init, id.z) else h.init)
      ensures saved == if id.BadLength? then old(saved) else sm3
      ensures pool == P.Step(SLOTS, old(pool), if id.BadLength? then P.Rejected else P.Init(Outcome(ks)))
      ensures draws == if id.BadLength? then old(draws) else old(draws) + ks
      ensures batch == if ok then ks else old(batch)
      ensures preK == if id.BadLength? then old(preK) else ks + old(preK)[|ks|..]
      ensures if ok && Val4(key) < N - 1 then d == Some(Val4(key)) else d == old(d) && fastKey == old(fastKey)
    {
      hide Val4, Prime, InvN, Multiples, OrderN, GeneratorTable, Nonces, SlotX, PrivateKey, P.Inv;
      sm3 := h.init;
      match id {
        case Anonymous =>
        case BadLength => return false;
        case Known(z) => sm3 := h.update(sm3, z);
      }
      saved := sm3;
      var full := Refill(ks, w);
      if !full {
        return false;
      }
      var fk := ComputeKey(key);
      if fk.Some? {
        fastKey := fk.value;
        KeyRange(key);
        d := Some(Val4(key));
      }
      ok := true;
    }

    /** sm2_sign_update. */
    method Update(data: seq<int>, ghost w: World)
      requires Valid(w)
      modifies this`sm3
      ensures Valid(w) && sm3 == if |data| > 0 then h.update(old(sm3), data) else old(sm3)
    {
      if |data| > 0 {
        sm3 := h.update(sm3, data);
      }
    }

    /** sm2_sign_reset: back to the state after the identity prefix. */
    method Reset(ghost w: World)
      requires Valid(w)
      modifies this`sm3
      ensures Valid(w) && sm3 == saved
    {
      sm3 := saved;
    }

    /** sm2_sign_finish. */
    method Finish(ks: seq<Fe>, w: World) returns (sig: Option<Signature>)
      requires w.Ok() && Valid(w) && |ks| <= SLOTS && Nonces(ks)
      modifies this
      ensures Valid(w) && saved == old(saved) && d == old(d) && fastKey == old(fastKey) && sm3 == h.after(old(sm3))
      ensures pool == P.Step(SLOTS, old(pool), P.Finish(Outcome(ks)))
      ensures draws == if old(num) == 0 then old(draws) + ks else old(draws)
      ensures batch == if old(num) == 0 && |ks| == SLOTS then ks else old(batch)
      ensures sig.Some? <==> old(num) > 0 || |ks| == SLOTS
      ensures sig.Some? ==> |pool.used| == |old(pool.used)| + 1 && pool.used[|old(pool.used)|] < |draws| && |batch| == SLOTS
      ensures sig.Some? ==>
                Signed(w.mul, batch, num, fastKey, d, Val4(h.digest(old(sm3))), Val4(draws[pool.used[|old(pool.used)|]]), sig.value)
    {
      hide Val4, World.Ok, KeyOf, Nonces, P.Inv, Batched, SlotX, Signed;
      var e := h.digest(sm3);
      sm3 := h.after(sm3);
      if num == 0 {
        var full := Refill(ks, w);
        if !full {
          return None;
        }
      }
      var k, x := TakeSlot(w);
      var s := SignSlot(fastKey, k, x, e, d, w, batch, num);
      sig := Some(s);
    }

    /** sm2_fast_sign_pre_compute and the new number of slots.  The nonces are written into the slots
        as they are drawn. */
    method Refill(ks: seq<Fe>, w: World) returns (full: bool)
      requires w.Ok() && Valid(w) && |ks| <= SLOTS && Nonces(ks)
      modifies this`preK, this`preX, this`num, this`pool, this`draws, this`batch
      ensures Valid(w) && (full <==> |ks| == SLOTS)
      ensures pool == P.Fill(SLOTS, old(pool), Outcome(ks)) && draws == old(draws) + ks
      ensures preK == ks + old(preK)[|ks|..] && batch == if full then ks else old(batch)
    {
      hide Val4, Prime, InvN, Multiples, OrderN, GeneratorTable, XN, PrivateKey, Regular, P.Inv;
      P.FillKeepsInv(SLOTS, pool, Outcome(ks));
      SlotsInRange(SLOTS, pool);
      preK := ks + preK[|ks|..];
      full := |ks| == SLOTS;
      if full {
        preX := SignPreCompute(ks, w.tab, w.cb, w.mul);
        num := SLOTS;
        batch := ks;
      }
      pool := P.Fill(SLOTS, pool, Outcome(ks));
      draws := draws + ks;
    }

    method TakeSlot(ghost w: World) returns (k: Fe, x: Fe)
      requires Valid(w) && num > 0
      modifies this`num, this`pool
      ensures Valid(w) && pool == P.Take(old(pool)) && num < |batch| == SLOTS
      ensures pool.ids[num] < |draws| && k == draws[pool.ids[num]] == preK[num] && 0 < Val4(k) < N
      ensures Val4(x) == SlotX(w.mul, batch, num)
    {
      hide Val4, InvN, XN, PrivateKey, P.Inv, SlotX;
      P.TakeKeepsInv(SLOTS, pool);
      SlotsInRange(SLOTS, pool);
      num := num - 1;
      pool := P.Take(pool);
      k, x := preK[num], preX[num];
    }
  }

  lemma SlotsInRange(slots: nat, p: P.Pool)
    requires P.Inv(slots, p)
    ensures P.Shaped(slots, p) && forall j :: 0 <= j < p.num ==> p.ids[j] < p.drawn
  {
  }

  lemma KeyRange(key: Fe)
    requires Val4(key) < N - 1
    ensures PrivateKey(Val4(key))
  {
    hide Val4;
    Val4Range(key);
  }

  lemma Spoilt(mul: int -> Affine, batch: seq<Fe>, i: nat)
    requires i < |batch| && !Regular(batch)
    ensures SlotX(mul, batch, i) == 0
  {
  }

  /** A stored x-coordinate serves its own nonce. */
  lemma SlotXIs(mul: int -> Affine, batch: seq<Fe>, i: nat)
    requires i < |batch| && Regular(batch) && 0 < Val4(batch[i]) < N
    ensures SlotX(mul, batch, i) == XN(GeneratorResult(mul, Val4(batch[i])))
  {
    hide Val4, XN;
    ModSmall(Val4(batch[i]), N);
  }
}
