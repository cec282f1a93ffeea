/**
 An NVMe queue pair (kernel/src/driver/nvme.rs) against a device that posts completions in order,
 inverts the phase tag on each lap (section 4.6 of NVM Express 1.4) and never has more than
 QUEUE_DEPTH completions outstanding.

 `posted` and `submitted` record what the device posted and what the driver submitted.
 */
module Nvme {
  import opened Common

  const QUEUE_DEPTH: nat := 64

  type Command = nat

  /** Bit 0 of the status is the phase tag. */
  datatype Completion = Completion(dw0: nat, status: nat)

  function Phase(c: Completion): nat
  {
    c.status % 2
  }

  /** The tag of the k-th completion: 1 on even laps, 0 on odd ones. */
  function TagOf(k: nat): nat
  {
    if (k / QUEUE_DEPTH) % 2 == 0 then 1 else 0
  }

  function SlotOf(k: nat): (s: nat)
    ensures s < QUEUE_DEPTH
  {
    k % QUEUE_DEPTH
  }

  lemma NextSlot(k: nat)
    ensures SlotOf(k + 1) == (SlotOf(k) + 1) % QUEUE_DEPTH
    ensures TagOf(k + 1) == if SlotOf(k + 1) == 0 then 1 - TagOf(k) else TagOf(k)
  {
  }

  /** Within one lap slots are distinct. */
  lemma SlotsApart(j: nat, k: nat)
    requires j < k < j + QUEUE_DEPTH
    ensures SlotOf(j) != SlotOf(k)
  {
  }

  /** The completion queue holds what was posted and not taken, and elsewhere tags of the lap before. */
  ghost predicate Laid(cq: seq<Completion>, posted: seq<Completion>, taken: nat)
  {
    && |cq| == QUEUE_DEPTH && taken <= |posted| <= taken + QUEUE_DEPTH
    && (forall k {:trigger posted[k]} :: 0 <= k < |posted| ==> Phase(posted[k]) == TagOf(k))
    && (forall k {:trigger posted[k]} :: taken <= k < |posted| ==> cq[SlotOf(k)] == posted[k])
    && (forall k {:trigger SlotOf(k)} :: |posted| <= k < taken + QUEUE_DEPTH ==> Phase(cq[SlotOf(k)]) != TagOf(k))
  }

  lemma LaidPost(cq: seq<Completion>, posted: seq<Completion>, taken: nat, c: Completion)
    requires Laid(cq, posted, taken) && |posted| < taken + QUEUE_DEPTH && Phase(c) == TagOf(|posted|)
    ensures Laid(cq[SlotOf(|posted|) := c], posted + [c], taken)
  {
    var n := |posted|;
    forall k | taken <= k < n ensures SlotOf(k) != SlotOf(n) {
      SlotsApart(k, n);
    }
    forall k {:trigger SlotOf(k)} | n < k < taken + QUEUE_DEPTH ensures SlotOf(k) != SlotOf(n) {
      SlotsApart(n, k);
    }
  }

  /** The slot of a completion that was taken counts for the next lap, where its tag is wrong. */
  lemma LaidTake(cq: seq<Completion>, posted: seq<Completion>, taken: nat)
    requires Laid(cq, posted, taken) && taken < |posted|
    ensures cq[SlotOf(taken)] == posted[taken] && Laid(cq, posted, taken + 1)
  {
  }

  class NvmeQueue {
    const sq: array<Command>
    const cq: array<Completion>
    var sqTail: nat
    var cqHead: nat
    var cqPhase: nat
    var doorbellSq: nat
    var doorbellCq: nat

    var submitted: seq<Command>
    var posted: seq<Completion>
    /** How many completions the driver has consumed. */
    var taken: nat

    ghost predicate CqOk()
      reads this, cq
    {
      cqHead == SlotOf(taken) && cqPhase == TagOf(taken) && Laid(cq[..], posted, taken)
    }

    ghost predicate SqOk()
      reads this, sq
    {
      && sq.Length == QUEUE_DEPTH && sqTail == SlotOf(|submitted|) && doorbellSq == sqTail
      && forall k {:trigger submitted[k]} :: 0 <= k < |submitted| && |submitted| <= k + QUEUE_DEPTH ==> sq[SlotOf(k)] == submitted[k]
    }

    ghost predicate Valid()
      reads this, cq, sq
    {
      CqOk() && SqOk() && doorbellCq == cqHead
    }

    ghost function Passed(): Traffic
      reads this
    {
      Traffic(submitted, posted, taken)
    }

    constructor ()
      ensures Valid() && posted == [] && submitted == [] && taken == 0 && fresh(sq) && fresh(cq)
    {
      sq := new Command[QUEUE_DEPTH](_ => 0);
      cq := new Completion[QUEUE_DEPTH](_ => Completion(0, 0));
      sqTail, cqHead, cqPhase := 0, 0, 1;
      doorbellSq, doorbellCq := 0, 0;
      submitted, posted, taken := [], [], 0;
    }

    /** The command identifier is the slot, and the last QUEUE_DEPTH commands are in the queue. */
    method Submit(cmd: Command) returns (cid: nat)
      requires Valid()
      modifies this`sqTail, this`doorbellSq, this`submitted, sq
      ensures Valid() && submitted == old(submitted) + [cmd] && cid == SlotOf(old(|submitted|)) && sq[cid] == cmd
    {
      cid := sqTail;
      sq[sqTail] := cmd;
      sqTail := (sqTail + 1) % QUEUE_DEPTH;
      doorbellSq := sqTail;
      ghost var n := |submitted|;
      NextSlot(n);
      forall k | 0 <= k < n && n < k + QUEUE_DEPTH ensures SlotOf(k) != SlotOf(n) {
        SlotsApart(k, n);
      }
      submitted := submitted + [cmd];
    }

    /** The device posts its next completion. */
    method Post(dw0: nat, status: nat)
      requires Valid() && |posted| < taken + QUEUE_DEPTH
      modifies this`posted, cq
      ensures Valid() && posted == old(posted) + [Completion(dw0, 2 * status + TagOf(old(|posted|)))]
    {
      var n := |posted|;
      var c := Completion(dw0, 2 * status + TagOf(n));
      LaidPost(cq[..], posted, taken, c);
      cq[SlotOf(n)] := c;
      posted := posted + [c];
    }

    /** One turn of the waiting loop: the next completion if it is there, and never a stale entry. */
    method Poll() returns (r: Option<Completion>)
      requires Valid()
      modifies this`cqHead, this`cqPhase, this`doorbellCq, this`taken
      ensures Valid()
      ensures r == if old(taken) < |posted| then Some(posted[old(taken)]) else None
      ensures taken == if r.Some? then old(taken) + 1 else old(taken)
    {
      var cqe := cq[cqHead];
      assert taken == |posted| ==> Phase(cq[..][SlotOf(|posted|)]) != TagOf(|posted|);
      assert taken < |posted| ==> cq[..][SlotOf(taken)] == posted[taken];
      if Phase(cqe) != cqPhase {
        return None;
      }
      LaidTake(cq[..], posted, taken);
      NextSlot(taken);
      cqHead := (cqHead + 1) % QUEUE_DEPTH;
      if cqHead == 0 {
        cqPhase := 1 - cqPhase;
      }
      doorbellCq := cqHead;
      taken := taken + 1;
      r := Some(cqe);
    }
  }

  /** A completion the device is about to post: the result and the status above the tag. */
  datatype Outcome = Outcome(dw0: nat, status: nat)

  /**
   wait_for_completion: before each turn of the loop the device may post something; None stands for a
   loop that is still spinning when the turns run out.
   */
  method WaitForCompletion(q: NvmeQueue, turns: seq<Option<Outcome>>) returns (r: Option<Completion>)
    requires q.Valid()
    modifies q, q.cq
    ensures q.Valid() && old(q.posted) <= q.posted
    ensures r.Some? ==> q.taken == old(q.taken) + 1 && r.value == q.posted[old(q.taken)]
    ensures r.None? ==> q.taken == old(q.taken) && (turns != [] ==> |q.posted| == q.taken)
  {
    for k := 0 to |turns|
      invariant q.Valid() && old(q.posted) <= q.posted && q.taken == old(q.taken)
      invariant k > 0 ==> |q.posted| == q.taken
    {
      if turns[k].Some? && |q.posted| < q.taken + QUEUE_DEPTH {
        q.Post(turns[k].value.dw0, turns[k].value.status);
      }
      r := q.Poll();
      if r.Some? {
        return;
      }
    }
    r := None;
  }

  datatype Op = DoSubmit(cmd: Command) | DoPost(dw0: nat, status: nat) | DoPoll

  /** What a queue pair means: the commands submitted, the completions posted, and how many of them were taken. */
  datatype Traffic = Traffic(submitted: seq<Command>, posted: seq<Completion>, taken: nat)

  /** One call: a submission, a completion while fewer than QUEUE_DEPTH are outstanding, or a look at the next one. */
  function Step(t: Traffic, op: Op): Traffic
  {
    match op
    case DoSubmit(cmd) => t.(submitted := t.submitted + [cmd])
    case DoPost(dw0, status) =>
      if |t.posted| < t.taken + QUEUE_DEPTH
      then t.(posted := t.posted + [Completion(dw0, 2 * status + TagOf(|t.posted|))]) else t
    case DoPoll => if t.taken < |t.posted| then t.(taken := t.taken + 1) else t
  }

  /** What the driver gets from one call. */
  function Taken(t: Traffic, op: Op): seq<Completion>
  {
    if op.DoPoll? && t.taken < |t.posted| then [t.posted[t.taken]] else []
  }

  /** What has passed after the first `k` calls, and what the driver received. */
  function After(t: Traffic, ops: seq<Op>, k: nat): Traffic
    requires k <= |ops|
  {
    if k == 0 then t else Step(After(t, ops, k - 1), ops[k - 1])
  }

  function Received(t: Traffic, ops: seq<Op>, k: nat): seq<Completion>
    requires k <= |ops|
  {
    if k == 0 then [] else Received(t, ops, k - 1) + Taken(After(t, ops, k - 1), ops[k - 1])
  }

  lemma StepInOrder(t: Traffic, u: Traffic, op: Op)
    requires t.posted <= u.posted && t.taken <= u.taken <= |u.posted|
    ensures var v := Step(u, op);
            && t.posted <= v.posted && t.taken <= v.taken <= |v.posted|
            && u.posted[t.taken..u.taken] + Taken(u, op) == v.posted[t.taken..v.taken]
  {
  }

  /** The driver receives exactly what was posted, in order, each once. */
  lemma {:induction false} InOrder(t: Traffic, ops: seq<Op>, k: nat)
    requires t.taken <= |t.posted| && k <= |ops|
    ensures var u := After(t, ops, k);
            && t.posted <= u.posted && t.taken <= u.taken <= |u.posted|
            && Received(t, ops, k) == u.posted[t.taken..u.taken]
  {
    if k > 0 {
      InOrder(t, ops, k - 1);
      StepInOrder(t, After(t, ops, k - 1), ops[k - 1]);
    }
  }

  method Perform(q: NvmeQueue, op: Op) returns (got: seq<Completion>)
    requires q.Valid()
    modifies q, q.cq, q.sq
    ensures q.Valid() && q.Passed() == Step(old(q.Passed()), op) && got == Taken(old(q.Passed()), op)
  {
    got := [];
    match op
    case DoSubmit(cmd) =>
      var _ := q.Submit(cmd);
    case DoPost(dw0, status) =>
      if |q.posted| < q.taken + QUEUE_DEPTH {
        q.Post(dw0, status);
      }
    case DoPoll =>
      var r := q.Poll();
      if r.Some? {
        got := [r.value];
      }
  }

  /** So it does in every run, over any number of wraps of the queues. */
  method Run(q: NvmeQueue, ops: seq<Op>) returns (received: seq<Completion>)
    requires q.Valid()
    modifies q, q.cq, q.sq
    ensures q.Valid() && q.Passed() == After(old(q.Passed()), ops, |ops|) && received == Received(old(q.Passed()), ops, |ops|)
    ensures old(q.posted) <= q.posted && old(q.taken) <= q.taken && received == q.posted[old(q.taken)..q.taken]
  {
    received := [];
    ghost var start := q.Passed();
    for k := 0 to |ops|
      invariant q.Valid() && q.Passed() == After(start, ops, k) && received == Received(start, ops, k)
    {
      var got := Perform(q, ops[k]);
      received := received + got;
    }
    InOrder(start, ops, |ops|);
  }
}
