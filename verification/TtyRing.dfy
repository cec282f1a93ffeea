/**
 The terminal's single-producer single-consumer ring (kernel/src/driver/tty.rs), one load or store at
 a time.

 `pushed` and `popped` record what push accepted and what pop returned; nothing else reads them.
 */
module TtyRing {
  import opened Common

  const SIZE: nat := 4096

  /** Where the producer is inside push. */
  datatype Producer =
    | Resting
    | Called(byte: Byte)
    | HasHead(byte: Byte, head: nat)
    | HasRoom(byte: Byte, head: nat)
    | HasWritten(byte: Byte, head: nat)

  /** Where the consumer is inside pop or len. */
  datatype Consumer =
    | Waiting
    | HasTail(tail: nat)
    | HasData(tail: nat)
    | HasByte(tail: nat, byte: Byte)
    | HasEnd(head: nat)

  datatype Ring = Ring(
    data: seq<Byte>, head: nat, tail: nat,
    producer: Producer, consumer: Consumer,
    pushed: seq<Byte>, popped: seq<Byte>)

  /** Who moves next; StartPush and StartLen choose the call when the mover is between calls. */
  datatype Step = StartPush(byte: Byte) | Produce | Consume | StartLen

  function After(i: nat): nat
  {
    (i + 1) % SIZE
  }

  const EMPTY: Ring := Ring(seq(SIZE, _ => 0), 0, 0, Resting, Waiting, [], [])

  /** One atomic access of the producer. */
  function ProducerStep(r: Ring): Ring
  {
    match r.producer
    case Resting => r
    case Called(b) => r.(producer := HasHead(b, r.head))
    case HasHead(b, head) => r.(producer := if After(head) == r.tail then Resting else HasRoom(b, head))
    case HasRoom(b, head) =>
      if head < |r.data| then r.(data := r.data[head := b], producer := HasWritten(b, head)) else r
    case HasWritten(b, head) => r.(head := After(head), producer := Resting, pushed := r.pushed + [b])
  }

  /** One atomic access of the consumer. */
  function ConsumerStep(r: Ring): Ring
  {
    match r.consumer
    case Waiting => r.(consumer := HasTail(r.tail))
    case HasTail(tail) => r.(consumer := if tail == r.head then Waiting else HasData(tail))
    case HasData(tail) => if tail < |r.data| then r.(consumer := HasByte(tail, r.data[tail])) else r
    case HasByte(tail, b) => r.(tail := After(tail), consumer := Waiting, popped := r.popped + [b])
    case HasEnd(_) => r.(consumer := Waiting)
  }

  function Next(r: Ring, s: Step): Ring
  {
    match s
    case StartPush(b) => if r.producer.Resting? then r.(producer := Called(b)) else r
    case Produce => ProducerStep(r)
    case Consume => ConsumerStep(r)
    case StartLen => if r.consumer.Waiting? then r.(consumer := HasEnd(r.head)) else r
  }

  function Run(r: Ring, steps: seq<Step>): Ring
    decreases |steps|
  {
    if steps == [] then r else Run(Next(r, steps[0]), steps[1..])
  }

  /** What len returns from its second load. */
  function Len(head: nat, tail: nat): nat
  {
    (head - tail) % SIZE
  }

  // ---------------------------------------------------------------- the invariant

  /** Indices are counts modulo the size, at most SIZE - 1 bytes are unread, and each is in its slot. */
  ghost predicate Counted(r: Ring)
  {
    var h, t := |r.pushed|, |r.popped|;
    && |r.data| == SIZE && r.head == h % SIZE && r.tail == t % SIZE && t <= h < t + SIZE
    && (forall k {:trigger r.pushed[k]} :: 0 <= k < t ==> r.popped[k] == r.pushed[k])
    && (forall k {:trigger r.pushed[k]} :: t <= k < h ==> r.data[k % SIZE] == r.pushed[k])
  }

  ghost predicate ProducerOk(r: Ring)
  {
    match r.producer
    case HasHead(_, head) => head == r.head
    case HasRoom(_, head) => head == r.head && |r.pushed| - |r.popped| < SIZE - 1
    case HasWritten(b, head) => head == r.head && |r.pushed| - |r.popped| < SIZE - 1 && |r.data| == SIZE && r.data[head % SIZE] == b
    case _ => true
  }

  /** `head` was the write position when `c` bytes had been pushed. */
  ghost predicate Was(head: nat, c: nat)
  {
    head == c % SIZE
  }

  ghost predicate ConsumerOk(r: Ring)
  {
    match r.consumer
    case HasTail(tail) => tail == r.tail
    case HasData(tail) => tail == r.tail && |r.popped| < |r.pushed|
    case HasByte(tail, b) => tail == r.tail && |r.popped| < |r.pushed| && b == r.pushed[|r.popped|]
    case HasEnd(head) => exists c :: |r.popped| <= c <= |r.pushed| && Was(head, c)
    case _ => true
  }

  ghost predicate Good(r: Ring)
  {
    Counted(r) && ProducerOk(r) && ConsumerOk(r)
  }

  lemma AfterCount(c: nat)
    ensures After(c % SIZE) == (c + 1) % SIZE
  {
  }

  /** Different unread positions have different slots. */
  lemma Apart(k: nat, h: nat)
    requires k < h < k + SIZE
    ensures k % SIZE != h % SIZE
  {
  }

  lemma WriteGood(r: Ring)
    requires Good(r) && r.producer.HasRoom?
    ensures Good(ProducerStep(r))
  {
    var r' := ProducerStep(r);
    var h, t := |r.pushed|, |r.popped|;
    forall k | t <= k < h ensures r'.data[k % SIZE] == r.pushed[k] {
      Apart(k, h);
    }
  }

  lemma PublishGood(r: Ring)
    requires Good(r) && r.producer.HasWritten?
    ensures Good(ProducerStep(r))
  {
    var r' := ProducerStep(r);
    AfterCount(|r.pushed|);
    assert forall k {:trigger r'.pushed[k]} :: 0 <= k < |r.pushed| ==> r'.pushed[k] == r.pushed[k];
  }

  lemma ProducerGood(r: Ring)
    requires Good(r)
    ensures Good(ProducerStep(r))
  {
    match r.producer
    case HasHead(_, head) => RefusesIffFull(r);
    case HasRoom(_, _) => WriteGood(r);
    case HasWritten(_, _) => PublishGood(r);
    case _ =>
  }

  lemma ConsumerGood(r: Ring)
    requires Good(r)
    ensures Good(ConsumerStep(r))
  {
    var h, t := |r.pushed|, |r.popped|;
    match r.consumer
    case HasTail(tail) =>
      assert tail != r.head ==> t < h;
    case HasData(tail) =>
      assert r.data[t % SIZE] == r.pushed[t];
    case HasByte(tail, b) =>
      AfterCount(t);
    case _ =>
  }

  lemma NextGood(r: Ring, s: Step)
    requires Good(r)
    ensures Good(Next(r, s))
  {
    match s
    case Produce => ProducerGood(r);
    case Consume => ConsumerGood(r);
    case StartLen => assert Was(r.head, |r.pushed|);
    case StartPush(_) =>
  }

  // ---------------------------------------------------------------- every interleaving

  lemma {:induction false} RunGood(r: Ring, steps: seq<Step>)
    requires Good(r)
    ensures Good(Run(r, steps))
    decreases |steps|
  {
    if steps != [] {
      NextGood(r, steps[0]);
      RunGood(Next(r, steps[0]), steps[1..]);
    }
  }

  lemma EmptyGood()
    ensures Good(EMPTY)
  {
  }

  /** Under every interleaving the bytes popped are a prefix of the bytes pushed. */
  lemma PrefixOrder(steps: seq<Step>)
    ensures var r := Run(EMPTY, steps); r.popped <= r.pushed && |r.pushed| - |r.popped| < SIZE
  {
    EmptyGood();
    RunGood(EMPTY, steps);
    var r := Run(EMPTY, steps);
    assert forall k :: 0 <= k < |r.popped| ==> r.popped[k] == r.pushed[k];
  }

  /** A slot is written only when no unread byte is in it, and never while it is being read. */
  lemma NeverOverwritesUnread(steps: seq<Step>, k: nat)
    ensures var r := Run(EMPTY, steps);
            r.producer.HasRoom? && |r.popped| <= k < |r.pushed| ==>
              r.producer.head != k % SIZE && (r.consumer.HasData? ==> r.consumer.tail != r.producer.head)
  {
    EmptyGood();
    RunGood(EMPTY, steps);
    var r := Run(EMPTY, steps);
    if r.producer.HasRoom? && |r.popped| <= k < |r.pushed| {
      Apart(k, |r.pushed|);
      Apart(|r.popped|, |r.pushed|);
    }
  }

  /** push refuses exactly when the ring is full at its load of tail. */
  lemma RefusesIffFull(r: Ring)
    requires Good(r) && r.producer.HasHead?
    ensures ProducerStep(r).producer.Resting? <==> |r.pushed| - |r.popped| == SIZE - 1
  {
  }

  /** pop returns nothing exactly when the ring is empty at its load of head. */
  lemma NothingIffEmpty(r: Ring)
    requires Good(r) && r.consumer.HasTail?
    ensures ConsumerStep(r).consumer.Waiting? <==> |r.pushed| == |r.popped|
  {
  }

  lemma LenOf(c: nat, t: nat)
    requires t <= c < t + SIZE
    ensures Len(c % SIZE, t % SIZE) == c - t
  {
  }

  /** len, called by the consumer, counts the unread bytes at its load of head: at least so many are there. */
  lemma LenCounts(r: Ring)
    requires Good(r) && r.consumer.HasEnd?
    ensures exists c :: |r.popped| <= c <= |r.pushed| && Was(r.consumer.head, c) && Len(r.consumer.head, r.tail) == c - |r.popped|
    ensures Len(r.consumer.head, r.tail) <= |r.pushed| - |r.popped|
  {
    var c :| |r.popped| <= c <= |r.pushed| && Was(r.consumer.head, c);
    LenOf(c, |r.popped|);
  }
}
