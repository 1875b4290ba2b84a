/** The pools of precomputed nonces inside the signing context (src/sm2_sign.c, 32 slots) and the
    encryption context (src/sm2_enc.c, 8 slots), as a state machine over every run. */
module Pool {

  /** A refill draws all its nonces, or the random source fails after some of them. */
  datatype Refill = Full | Failed(drawn: nat)

  /** num slots are left; ids[j] is the number, in the order of drawing, of the nonce in slot j;
      used lists the numbers of the nonces already consumed. */
  datatype Pool = Pool(num: nat, ids: seq<nat>, drawn: nat, used: seq<nat>)

  /** The calls on a context, in the order a caller makes them; Rejected is a call that is refused
      before it reaches the pool. */
  datatype Call = Init(refill: Refill) | Update | Reset | Finish(refill: Refill) | Rejected

  predicate Shaped(slots: nat, p: Pool) {
    |p.ids| == slots && p.num <= slots
  }

  /** A failing refill has overwritten the first slots, and leaves the number of slots as it was. */
  function Fill(slots: nat, p: Pool, refill: Refill): (q: Pool)
    requires Shaped(slots, p)
    ensures Shaped(slots, q)
  {
    match refill
    case Full => p.(num := slots, ids := seq(slots, j => p.drawn + j), drawn := p.drawn + slots)
    case Failed(c) =>
      p.(ids := seq(slots, j requires 0 <= j < slots => if j < c then p.drawn + j else p.ids[j]), drawn := p.drawn + c)
  }

  /** Takes the highest remaining slot. */
  function Take(p: Pool): Pool
    requires 0 < p.num <= |p.ids|
  {
    p.(num := p.num - 1, used := p.used + [p.ids[p.num - 1]])
  }

  /** The finish operation: refill when empty, then take one slot unless the refill failed. */
  function FinishCall(slots: nat, p: Pool, refill: Refill): (q: Pool)
    requires slots > 0 && Shaped(slots, p)
    ensures Shaped(slots, q)
  {
    if p.num > 0 then Take(p)
    else if refill.Full? then Take(Fill(slots, p, refill))
    else Fill(slots, p, refill)
  }

  /** Init starts a batch whatever is left of the old one; update and reset do not touch the pool. */
  function Step(slots: nat, p: Pool, c: Call): (q: Pool)
    requires slots > 0 && Shaped(slots, p)
    ensures Shaped(slots, q)
  {
    match c
    case Init(refill) => Fill(slots, p, refill)
    case Finish(refill) => FinishCall(slots, p, refill)
    case Update => p
    case Reset => p
    case Rejected => p
  }

  function Empty(slots: nat): (p: Pool)
    ensures Shaped(slots, p)
  {
    Pool(0, seq(slots, _ => 0), 0, [])
  }

  function Run(slots: nat, calls: seq<Call>): (p: Pool)
    requires slots > 0
    ensures Shaped(slots, p)
  {
    if calls == [] then Empty(slots)
    else Step(slots, Run(slots, calls[..|calls| - 1]), calls[|calls| - 1])
  }

  predicate NoRepeats(s: seq<nat>) {
    forall i, j :: 0 <= i < j < |s| ==> s[i] != s[j]
  }

  /** Slots are in range; what is left in the pool is all different and has not been used. */
  predicate Inv(slots: nat, p: Pool) {
    && Shaped(slots, p)
    && (forall j :: 0 <= j < p.num ==> p.ids[j] < p.drawn && p.ids[j] !in p.used)
    && (forall i :: 0 <= i < |p.used| ==> p.used[i] < p.drawn)
    && NoRepeats(p.ids[..p.num]) && NoRepeats(p.used)
  }

  lemma StepKeepsInv(slots: nat, p: Pool, c: Call)
    requires slots > 0 && Inv(slots, p)
    ensures Inv(slots, Step(slots, p, c))
  {
    match c
    case Init(refill) => FillKeepsInv(slots, p, refill);
    case Finish(refill) =>
      if p.num > 0 {
        TakeKeepsInv(slots, p);
      } else {
        FillKeepsInv(slots, p, refill);
        if refill.Full? {
          TakeKeepsInv(slots, Fill(slots, p, refill));
        }
      }
    case Update =>
    case Reset =>
    case Rejected =>
  }

  lemma FillKeepsInv(slots: nat, p: Pool, refill: Refill)
    requires Inv(slots, p)
    ensures Inv(slots, Fill(slots, p, refill))
  {
    var q := Fill(slots, p, refill);
    forall i, j | 0 <= i < j < q.num ensures q.ids[..q.num][i] != q.ids[..q.num][j] {
      if refill.Failed? {
        assert p.ids[..p.num][i] == p.ids[i] && p.ids[..p.num][j] == p.ids[j];
      }
    }
  }

  lemma TakeKeepsInv(slots: nat, p: Pool)
    requires Inv(slots, p) && p.num > 0
    ensures Inv(slots, Take(p))
  {
    var q := Take(p);
    forall j | 0 <= j < q.num ensures q.ids[j] !in q.used {
      assert p.ids[..p.num][j] == p.ids[j] && p.ids[..p.num][q.num] == p.ids[q.num];
    }
    forall i, j | 0 <= i < j < q.num ensures q.ids[..q.num][i] != q.ids[..q.num][j] {
      assert p.ids[..p.num][i] == p.ids[i] && p.ids[..p.num][j] == p.ids[j];
    }
    forall i, j | 0 <= i < j < |q.used| ensures q.used[i] != q.used[j] {
      assert q.used[i] == p.used[i];
    }
  }

  /** Over every run of calls, including failing refills and early re-initialisation, every slot
      index is in range and no drawn nonce is consumed twice. */
  lemma {:induction false} NeverReused(slots: nat, calls: seq<Call>)
    requires slots > 0
    ensures Inv(slots, Run(slots, calls))
  {
    if calls != [] {
      NeverReused(slots, calls[..|calls| - 1]);
      StepKeepsInv(slots, Run(slots, calls[..|calls| - 1]), calls[|calls| - 1]);
    }
  }

  predicate Succeeds(p: Pool, c: Call) {
    c.Finish? && (p.num > 0 || c.refill.Full?)
  }

  function Successes(slots: nat, calls: seq<Call>): nat
    requires slots > 0
  {
    if calls == [] then 0
    else Successes(slots, calls[..|calls| - 1])
         + if Succeeds(Run(slots, calls[..|calls| - 1]), calls[|calls| - 1]) then 1 else 0
  }

  /** Every successful finish consumes exactly one nonce, and nothing else consumes any. */
  lemma {:induction false} OneNoncePerFinish(slots: nat, calls: seq<Call>)
    requires slots > 0
    ensures |Run(slots, calls).used| == Successes(slots, calls)
  {
    if calls != [] {
      OneNoncePerFinish(slots, calls[..|calls| - 1]);
    }
  }
}
