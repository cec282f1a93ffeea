/**
 What the pipes of kernel/src/driver/pipe.rs mean: a table of channels, each with the bytes it accepted
 and those it delivered, and the answer to every call.
 */
module Channels {
  import opened Common

  const MAX_PIPES: nat := 16
  const PIPE_BUF_SIZE: nat := 4096
  const EPIPE: int := -32

  /** The caller should block and retry. */
  const WOULD_BLOCK: int := -1

  /** A free slot, or a pipe with its descriptor counts and all bytes ever accepted and delivered. */
  datatype Channel = Free | Live(readers: nat, writers: nat, accepted: seq<Byte>, delivered: seq<Byte>)

  datatype Op =
    | Alloc
    | IncRead(id: nat)
    | IncWrite(id: nat)
    | CloseRead(id: nat)
    | CloseWrite(id: nat)
    | Read(id: nat, isNull: bool, len: nat)
    | Write(id: nat, isNull: bool, data: seq<Byte>)

  /** What a call returns; None for a slot without a pipe. */
  datatype Answer = NewPipe(id: Option<nat>) | Done | Got(r: Option<int>, bytes: seq<Byte>) | Put(r: Option<int>)

  predicate InTable(op: Op)
  {
    op.Alloc? || op.id < MAX_PIPES
  }

  /** One less, but not below zero. */
  function Dropped(n: nat): nat
  {
    if n > 0 then n - 1 else 0
  }

  function Least(a: nat, b: nat): nat
  {
    if a < b then a else b
  }

  /** The bytes delivered are the first of those accepted, and the rest fits the buffer. */
  predicate Sane(c: Channel)
  {
    c.Live? ==> c.delivered <= c.accepted && |c.accepted| - |c.delivered| <= PIPE_BUF_SIZE
  }

  /** The answer to a read: the return value and the bytes. */
  function ReadAnswer(accepted: seq<Byte>, delivered: seq<Byte>, closed: bool, isNull: bool, len: nat): (int, seq<Byte>)
    requires delivered <= accepted
  {
    var waiting := accepted[|delivered|..];
    if len == 0 || isNull then (0, [])
    else if waiting == [] then (if closed then 0 else WOULD_BLOCK, [])
    else (Least(len, |waiting|), waiting[..Least(len, |waiting|)])
  }

  /** The answer to a write: a positive one is the number of bytes accepted. */
  function WriteAnswer(waiting: nat, closed: bool, isNull: bool, data: seq<Byte>): (r: int)
    requires waiting <= PIPE_BUF_SIZE
    ensures r <= |data|
  {
    if data == [] || isNull then 0
    else if closed then EPIPE
    else if waiting == PIPE_BUF_SIZE then WOULD_BLOCK
    else Least(|data|, PIPE_BUF_SIZE - waiting)
  }

  function Taken(r: int, data: seq<Byte>): seq<Byte>
    requires r <= |data|
  {
    if r > 0 then data[..r] else []
  }

  /** A pipe whose counts changed; it goes when both are zero. */
  function Counted(c: Channel, readers: nat, writers: nat): Channel
  {
    if c.Free? || (readers == 0 && writers == 0) then Free else c.(readers := readers, writers := writers)
  }

  /** One call on one slot; descriptors are duplicated only from live ends. */
  function OnSlot(c: Channel, op: Op): (Channel, Answer)
    requires Sane(c) && !op.Alloc?
  {
    match op
    case IncRead(_) => (if c.Live? && c.readers > 0 then c.(readers := c.readers + 1) else c, Done)
    case IncWrite(_) => (if c.Live? && c.writers > 0 then c.(writers := c.writers + 1) else c, Done)
    case CloseRead(_) => (if c.Live? then Counted(c, Dropped(c.readers), c.writers) else c, Done)
    case CloseWrite(_) => (if c.Live? then Counted(c, c.readers, Dropped(c.writers)) else c, Done)
    case Read(_, isNull, len) =>
      if c.Free? then (c, Got(None, []))
      else
        var (r, out) := ReadAnswer(c.accepted, c.delivered, c.writers == 0, isNull, len);
        (c.(delivered := c.delivered + out), Got(Some(r), out))
    case Write(_, isNull, data) =>
      if c.Free? then (c, Put(None))
      else
        var r := WriteAnswer(|c.accepted| - |c.delivered|, c.readers == 0, isNull, data);
        (c.(accepted := c.accepted + Taken(r, data)), Put(Some(r)))
  }

  ghost predicate AllSane(cs: seq<Channel>)
  {
    |cs| == MAX_PIPES && forall i :: 0 <= i < MAX_PIPES ==> Sane(cs[i])
  }

  /** One call on the table. */
  function Step(cs: seq<Channel>, op: Op): (seq<Channel>, Answer)
    requires AllSane(cs) && InTable(op)
  {
    if op.Alloc? then
      var i := FirstIndex(cs, Free);
      if i < |cs| then (cs[i := Live(1, 1, [], [])], NewPipe(Some(i))) else (cs, NewPipe(None))
    else
      var (c, answer) := OnSlot(cs[op.id], op);
      (cs[op.id := c], answer)
  }

  lemma StepSane(cs: seq<Channel>, op: Op)
    requires AllSane(cs) && InTable(op)
    ensures AllSane(Step(cs, op).0)
  {
    if !op.Alloc? {
      SlotSane(cs[op.id], op);
    }
  }

  lemma SlotSane(c: Channel, op: Op)
    requires Sane(c) && !op.Alloc?
    ensures Sane(OnSlot(c, op).0)
  {
  }

  ghost predicate AllInTable(ops: seq<Op>)
  {
    forall k :: 0 <= k < |ops| ==> InTable(ops[k])
  }

  function After(cs: seq<Channel>, ops: seq<Op>): (r: seq<Channel>)
    requires AllSane(cs) && AllInTable(ops)
    ensures AllSane(r)
    decreases |ops|
  {
    if ops == [] then cs
    else
      StepSane(cs, ops[0]);
      After(Step(cs, ops[0]).0, ops[1..])
  }

  function AnswersOf(cs: seq<Channel>, ops: seq<Op>): seq<Answer>
    requires AllSane(cs) && AllInTable(ops)
    decreases |ops|
  {
    if ops == [] then []
    else
      StepSane(cs, ops[0]);
      [Step(cs, ops[0]).1] + AnswersOf(Step(cs, ops[0]).0, ops[1..])
  }

  /** After the first `k` calls the table is at `now`, and they gave `answers`. */
  ghost predicate Follows(cs: seq<Channel>, ops: seq<Op>, k: nat, now: seq<Channel>, answers: seq<Answer>)
    requires AllSane(cs) && AllSane(now) && AllInTable(ops)
  {
    && k <= |ops| && After(now, ops[k..]) == After(cs, ops)
    && answers + AnswersOf(now, ops[k..]) == AnswersOf(cs, ops)
  }

  lemma FollowsOn(cs: seq<Channel>, ops: seq<Op>, k: nat, now: seq<Channel>, answers: seq<Answer>)
    requires AllSane(cs) && AllSane(now) && AllInTable(ops) && k < |ops| && Follows(cs, ops, k, now, answers)
    ensures var (next, answer) := Step(now, ops[k]);
            AllSane(next) && Follows(cs, ops, k + 1, next, answers + [answer])
  {
    var (next, answer) := Step(now, ops[k]);
    StepSane(now, ops[k]);
    assert ops[k..][1..] == ops[k + 1..];
    assert answers + [answer] + AnswersOf(next, ops[k + 1..]) == answers + ([answer] + AnswersOf(next, ops[k + 1..]));
  }

  // ---------------------------------------------------------------- end of file

  /**
   A write that slot `id` stores although no write descriptor is held; the code does not test for that.
   It takes data, a reader, and room.
   */
  predicate StrayWrite(c: Channel, id: nat, op: Op)
    requires Sane(c)
  {
    && op.Write? && op.id == id && op.data != [] && !op.isNull
    && c.Live? && c.writers == 0 && c.readers > 0 && |c.accepted| - |c.delivered| < PIPE_BUF_SIZE
  }

  /** Such a write happens in the run before the slot is freed. */
  predicate StrayWritten(cs: seq<Channel>, ops: seq<Op>, id: nat)
    requires AllSane(cs) && AllInTable(ops) && id < MAX_PIPES
    decreases |ops|
  {
    ops != [] && cs[id].Live? &&
    (StrayWrite(cs[id], id, ops[0]) || (StepSane(cs, ops[0]); StrayWritten(Step(cs, ops[0]).0, ops[1..], id)))
  }

  /** Until the slot is freed its write end stays closed and what it accepted stays the same. */
  predicate Final(cs: seq<Channel>, ops: seq<Op>, id: nat, accepted: seq<Byte>)
    requires AllSane(cs) && AllInTable(ops) && id < MAX_PIPES
    decreases |ops|
  {
    cs[id].Free? ||
    (cs[id].writers == 0 && cs[id].accepted == accepted &&
     (ops == [] || (StepSane(cs, ops[0]); Final(Step(cs, ops[0]).0, ops[1..], id, accepted))))
  }

  /** What one call does to a pipe whose write end is closed, whichever slot it names. */
  lemma ClosedStep(cs: seq<Channel>, op: Op, id: nat)
    requires AllSane(cs) && InTable(op) && id < MAX_PIPES && cs[id].Live? && cs[id].writers == 0
    ensures var c := Step(cs, op).0[id];
            StrayWrite(cs[id], id, op) ==> c.Live?
    ensures var c := Step(cs, op).0[id];
            c.Live? ==> c.writers == 0 && (c.accepted == cs[id].accepted <==> !StrayWrite(cs[id], id, op))
  {
  }

  /**
   End of file is final, pipe by pipe, exactly when nobody stores a byte through it without a write
   descriptor, whatever happens to the other pipes.
   */
  lemma {:induction false} FinalIff(cs: seq<Channel>, ops: seq<Op>, id: nat)
    requires AllSane(cs) && AllInTable(ops) && id < MAX_PIPES && cs[id].Live? && cs[id].writers == 0
    ensures Final(cs, ops, id, cs[id].accepted) <==> !StrayWritten(cs, ops, id)
    decreases |ops|
  {
    if ops != [] {
      StepSane(cs, ops[0]);
      ClosedStep(cs, ops[0], id);
      var next := Step(cs, ops[0]).0;
      if next[id].Live? && !StrayWrite(cs[id], id, ops[0]) {
        FinalIff(next, ops[1..], id);
      }
    }
  }

  // ---------------------------------------------------------------- what readers and writers see

  /** The bytes that the readers of slot `id` were given, in order. */
  function Given(ops: seq<Op>, answers: seq<Answer>, id: nat): seq<Byte>
    requires |ops| == |answers|
    decreases |ops|
  {
    if ops == [] then []
    else
      (if ops[0].Read? && ops[0].id == id && answers[0].Got? then answers[0].bytes else []) +
      Given(ops[1..], answers[1..], id)
  }

  /** The bytes that the writers of slot `id` were told were taken, in order. */
  function Stored(ops: seq<Op>, answers: seq<Answer>, id: nat): seq<Byte>
    requires |ops| == |answers|
    decreases |ops|
  {
    if ops == [] then []
    else
      (if ops[0].Write? && ops[0].id == id && answers[0].Put? && answers[0].r.Some? && answers[0].r.value <= |ops[0].data|
       then Taken(answers[0].r.value, ops[0].data) else []) +
      Stored(ops[1..], answers[1..], id)
  }

  /** The pipe in slot `id` is there all the time. */
  predicate Stays(cs: seq<Channel>, ops: seq<Op>, id: nat)
    requires AllSane(cs) && AllInTable(ops) && id < MAX_PIPES
    decreases |ops|
  {
    cs[id].Live? && (ops == [] || (StepSane(cs, ops[0]); Stays(Step(cs, ops[0]).0, ops[1..], id)))
  }

  /** From `c` to `d` slot `id` moved exactly the bytes that these answers speak of. */
  predicate Moved(c: Channel, d: Channel, ops: seq<Op>, answers: seq<Answer>, id: nat)
    requires |ops| == |answers|
  {
    && c.Live? && d.Live?
    && d.delivered == c.delivered + Given(ops, answers, id)
    && d.accepted == c.accepted + Stored(ops, answers, id)
  }

  lemma StepMoves(cs: seq<Channel>, op: Op, id: nat)
    requires AllSane(cs) && InTable(op) && id < MAX_PIPES && cs[id].Live? && Step(cs, op).0[id].Live?
    ensures Moved(cs[id], Step(cs, op).0[id], [op], [Step(cs, op).1], id)
  {
  }

  /** Given and Stored take the calls one by one. */
  lemma OneMore(op: Op, answer: Answer, ops: seq<Op>, answers: seq<Answer>, id: nat)
    requires |ops| == |answers|
    ensures Given([op] + ops, [answer] + answers, id) == Given([op], [answer], id) + Given(ops, answers, id)
    ensures Stored([op] + ops, [answer] + answers, id) == Stored([op], [answer], id) + Stored(ops, answers, id)
  {
  }

  lemma Regroup(a: seq<Byte>, b: seq<Byte>, c: seq<Byte>)
    ensures a + b + c == a + (b + c)
  {
  }

  lemma MovesOn(c: Channel, d: Channel, e: Channel, op: Op, answer: Answer, ops: seq<Op>, answers: seq<Answer>, id: nat)
    requires |ops| == |answers| && Moved(c, d, [op], [answer], id) && Moved(d, e, ops, answers, id)
    ensures Moved(c, e, [op] + ops, [answer] + answers, id)
  {
    OneMore(op, answer, ops, answers, id);
    Regroup(c.delivered, Given([op], [answer], id), Given(ops, answers, id));
    Regroup(c.accepted, Stored([op], [answer], id), Stored(ops, answers, id));
  }

  lemma {:induction false} Moves(cs: seq<Channel>, ops: seq<Op>, id: nat)
    requires AllSane(cs) && AllInTable(ops) && id < MAX_PIPES && Stays(cs, ops, id)
    ensures |AnswersOf(cs, ops)| == |ops| && Moved(cs[id], After(cs, ops)[id], ops, AnswersOf(cs, ops), id)
    decreases |ops|
  {
    if ops != [] {
      var next := Step(cs, ops[0]).0;
      StepSane(cs, ops[0]);
      assert next[id].Live?;
      StepMoves(cs, ops[0], id);
      Moves(next, ops[1..], id);
      assert ops == [ops[0]] + ops[1..];
      MovesOn(cs[id], next[id], After(next, ops[1..])[id], ops[0], Step(cs, ops[0]).1, ops[1..], AnswersOf(next, ops[1..]), id);
    }
  }

  /** A pipe is a queue: what its readers got is what its writers put, in order, as far as it was read. */
  lemma Conveys(cs: seq<Channel>, ops: seq<Op>, id: nat)
    requires AllSane(cs) && AllInTable(ops) && id < MAX_PIPES && Stays(cs, ops, id)
    ensures |AnswersOf(cs, ops)| == |ops|
    ensures cs[id].delivered + Given(ops, AnswersOf(cs, ops), id) <= cs[id].accepted + Stored(ops, AnswersOf(cs, ops), id)
  {
    Moves(cs, ops, id);
    assert Sane(After(cs, ops)[id]);
  }
}
