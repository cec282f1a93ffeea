/**
 Pipes: the ring of one pipe and the table of reference-counted pipe ends
 (kernel/src/driver/pipe.rs), refining the channels of `Channels`.  Every call is one atomic step.
 */
module Pipes {
  import opened Common
  import opened Channels

  /** The slot `k` places after `pos`, around the ring. */
  function Slot(pos: nat, k: nat): (s: nat)
    requires pos < PIPE_BUF_SIZE && k <= PIPE_BUF_SIZE
    ensures s < PIPE_BUF_SIZE
  {
    if pos + k < PIPE_BUF_SIZE then pos + k else pos + k - PIPE_BUF_SIZE
  }

  /** Advancing a position, as the code does. */
  function Bump(pos: nat): (s: nat)
    requires pos < PIPE_BUF_SIZE
    ensures s == Slot(pos, 1)
  {
    (pos + 1) % PIPE_BUF_SIZE
  }

  lemma MoveAcross(before: seq<Byte>, after: seq<Byte>, n: nat)
    requires n <= |after|
    ensures before + after[..n] + after[n..] == before + after
  {
  }

  class Pipe {
    const buffer: array<Byte>
    var readPos: nat
    var writePos: nat
    var dataLen: nat
    var readClosed: bool
    var writeClosed: bool

    /** All bytes ever accepted by writes, and all bytes ever delivered to reads. */
    ghost var accepted: seq<Byte>
    ghost var delivered: seq<Byte>

    ghost predicate Shape()
      reads this
    {
      && buffer.Length == PIPE_BUF_SIZE && dataLen <= PIPE_BUF_SIZE && readPos < PIPE_BUF_SIZE
      && writePos == Slot(readPos, dataLen)
    }

    /** The bytes in the ring, oldest first. */
    ghost function Buffered(): (s: seq<Byte>)
      requires Shape()
      reads this, buffer
      ensures |s| == dataLen && forall k :: 0 <= k < dataLen ==> s[k] == buffer[Slot(readPos, k)]
    {
      seq(dataLen, k requires 0 <= k < dataLen && Shape() reads this, buffer => buffer[Slot(readPos, k)])
    }

    /** What was read, followed by what is buffered, is what was written. */
    ghost predicate Valid()
      reads this, buffer
    {
      Shape() && delivered + Buffered() == accepted
    }

    constructor ()
      ensures Valid() && fresh(buffer) && !readClosed && !writeClosed && accepted == [] && delivered == []
    {
      buffer := new Byte[PIPE_BUF_SIZE](_ => 0);
      readPos, writePos, dataLen := 0, 0, 0;
      readClosed, writeClosed := false, false;
      accepted, delivered := [], [];
    }

    /** Take `n` bytes out of the ring. */
    method Drain(n: nat) returns (out: seq<Byte>)
      requires Shape() && n <= dataLen
      modifies this`readPos, this`dataLen
      ensures Shape() && out == old(Buffered())[..n] && Buffered() == old(Buffered())[n..]
    {
      out := [];
      ghost var pos := readPos;
      for i := 0 to n
        invariant dataLen == old(dataLen) && readPos == Slot(pos, i)
        invariant |out| == i && forall k :: 0 <= k < i ==> out[k] == buffer[Slot(pos, k)]
      {
        out := out + [buffer[readPos]];
        readPos := Bump(readPos);
      }
      dataLen := dataLen - n;
      assert forall k :: 0 <= k < dataLen ==> Slot(readPos, k) == Slot(pos, n + k);
    }

    /** Put bytes into the ring. */
    method Fill(data: seq<Byte>)
      requires Shape() && dataLen + |data| <= PIPE_BUF_SIZE
      modifies this`writePos, this`dataLen, buffer
      ensures Shape() && Buffered() == old(Buffered()) + data
    {
      ghost var all, len := Buffered() + data, dataLen;
      for i := 0 to |data|
        invariant dataLen == len && writePos == Slot(readPos, len + i)
        invariant forall k :: 0 <= k < len + i ==> buffer[Slot(readPos, k)] == all[k]
      {
        buffer[writePos] := data[i];
        writePos := Bump(writePos);
      }
      dataLen := dataLen + |data|;
    }

    method Read(isNull: bool, len: nat) returns (r: int, out: seq<Byte>)
      requires Valid()
      modifies this
      ensures Valid() && unchanged(this`accepted) && unchanged(this`readClosed) && unchanged(this`writeClosed)
      ensures old(delivered) <= accepted && delivered == old(delivered) + out
      ensures (r, out) == ReadAnswer(accepted, old(delivered), writeClosed, isNull, len)
      ensures r == 0 && len > 0 && !isNull ==> writeClosed && delivered == accepted
    {
      if len == 0 || isNull {
        return 0, [];
      }
      if dataLen == 0 {
        return if writeClosed then 0 else WOULD_BLOCK, [];
      }
      ghost var was := Buffered();
      var toRead := if len < dataLen then len else dataLen;
      MoveAcross(delivered, was, toRead);
      out := Drain(toRead);
      delivered := delivered + out;
      r := toRead;
    }

    method Write(isNull: bool, data: seq<Byte>) returns (r: int)
      requires Valid()
      modifies this, buffer
      ensures Valid() && unchanged(this`delivered) && unchanged(this`readClosed) && unchanged(this`writeClosed)
      ensures 0 <= |old(accepted)| - |delivered| <= PIPE_BUF_SIZE
      ensures r == WriteAnswer(|old(accepted)| - |delivered|, readClosed, isNull, data)
      ensures accepted == old(accepted) + Taken(r, data)
    {
      if data == [] || isNull {
        return 0;
      }
      if readClosed {
        return EPIPE;
      }
      var available := PIPE_BUF_SIZE - dataLen;
      if available == 0 {
        return WOULD_BLOCK;
      }
      var toWrite := if |data| < available then |data| else available;
      Fill(data[..toWrite]);
      accepted := accepted + data[..toWrite];
      r := toWrite;
    }

    method CloseRead()
      requires Valid()
      modifies this`readClosed
      ensures Valid() && readClosed
    {
      readClosed := true;
    }

    method CloseWrite()
      requires Valid()
      modifies this`writeClosed
      ensures Valid() && writeClosed
    {
      writeClosed := true;
    }
  }

  /** A slot is free iff both counts are zero, an end is closed iff its count is zero, and the channel says all that. */
  ghost predicate SlotOk(p: Pipe?, counts: (nat, nat), c: Channel)
    reads p, if p != null then {p.buffer} else {}
  {
    && (p == null <==> counts == (0, 0))
    && (p != null ==> p.Valid() && (p.readClosed <==> counts.0 == 0) && (p.writeClosed <==> counts.1 == 0))
    && c == (if p == null then Free else Live(counts.0, counts.1, p.accepted, p.delivered))
  }

  lemma PipeSane(p: Pipe?, counts: (nat, nat), c: Channel)
    requires SlotOk(p, counts, c)
    ensures Sane(c)
  {
  }

  class PipeTable {
    var table: seq<Pipe?>
    /** How many descriptors hold the read end and the write end. */
    var refs: seq<(nat, nat)>
    /** What the slots mean. */
    ghost var channels: seq<Channel>

    ghost function Pipes(): set<Pipe>
      reads this
    {
      set p: Pipe | p in table
    }

    ghost function Buffers(): set<array<Byte>>
      reads this
    {
      set p: Pipe | p in table :: p.buffer
    }

    ghost predicate Sized()
      reads this
    {
      |table| == MAX_PIPES && |refs| == MAX_PIPES && AllSane(channels)
    }

    /** No two slots share a pipe or a buffer. */
    ghost predicate Separate()
      requires Sized()
      reads this
    {
      forall i, j :: 0 <= i < j < MAX_PIPES && table[i] != null && table[j] != null ==>
        table[i] != table[j] && table[i].buffer != table[j].buffer
    }

    ghost predicate Valid()
      reads this, Pipes(), Buffers()
    {
      var valid := Sized() && Separate() && forall i :: 0 <= i < MAX_PIPES ==> SlotOk(table[i], refs[i], channels[i]);
      valid
    }

    constructor ()
      ensures Valid() && Pipes() == {} && forall i :: 0 <= i < MAX_PIPES ==> channels[i] == Free
    {
      table := seq(MAX_PIPES, _ => null);
      refs := seq(MAX_PIPES, _ => (0, 0));
      channels := seq(MAX_PIPES, _ => Free);
    }

    /** If only slot `id` changed, and is as it should be, the table is still valid. */
    twostate lemma OthersStay(id: nat)
      requires old(Valid()) && id < MAX_PIPES && |table| == |refs| == |channels| == MAX_PIPES
      requires table[id] == null || table[id] == old(table[id])
      requires table == old(table)[id := table[id]]
      requires refs == old(refs)[id := refs[id]] && channels == old(channels)[id := channels[id]]
      requires forall p :: p in old(Pipes()) && p != old(table[id]) ==> unchanged(p) && unchanged(p.buffer)
      requires SlotOk(table[id], refs[id], channels[id])
      ensures Valid()
    {
      PipeSane(table[id], refs[id], channels[id]);
      forall i | 0 <= i < MAX_PIPES && i != id ensures SlotOk(table[i], refs[i], channels[i]) {
        assert old(SlotOk(table[i], refs[i], channels[i]));
      }
    }

    /** An empty pipe in a free slot. */
    method Place(i: nat)
      requires Valid() && i < MAX_PIPES && table[i] == null
      modifies this
      ensures Valid() && channels == old(channels)[i := Live(1, 1, [], [])]
      ensures fresh(Pipes() - old(Pipes())) && fresh(Buffers() - old(Buffers()))
    {
      var p := new Pipe();
      table := table[i := p];
      refs := refs[i := (1, 1)];
      channels := channels[i := Live(1, 1, [], [])];
    }

    /** The first free slot gets an empty pipe with one descriptor at each end. */
    method Alloc() returns (r: Option<nat>)
      requires Valid()
      modifies this
      ensures Valid() && (channels, NewPipe(r)) == Step(old(channels), Op.Alloc)
      ensures fresh(Pipes() - old(Pipes())) && fresh(Buffers() - old(Buffers()))
    {
      for i := 0 to MAX_PIPES
        invariant null !in table[..i] && Free !in channels[..i]
        invariant unchanged(this) && Valid()
      {
        assert SlotOk(table[i], refs[i], channels[i]);
        if table[i] == null {
          Place(i);
          return Some(i);
        }
      }
      return None;
    }

    /** Counting a descriptor keeps the table valid exactly when the end is live. */
    method IncRead(id: nat)
      requires Valid() && id < MAX_PIPES
      modifies this`refs, this`channels
      ensures refs == old(refs)[id := (old(refs)[id].0 + 1, old(refs)[id].1)]
      ensures channels == Step(old(channels), Op.IncRead(id)).0
      ensures Valid() <==> old(refs)[id].0 > 0
    {
      assert SlotOk(table[id], refs[id], channels[id]);
      refs := refs[id := (refs[id].0 + 1, refs[id].1)];
      channels := Step(channels, Op.IncRead(id)).0;
      assert SlotOk(table[id], refs[id], channels[id]) <==> old(refs)[id].0 > 0;
    }

    method IncWrite(id: nat)
      requires Valid() && id < MAX_PIPES
      modifies this`refs, this`channels
      ensures refs == old(refs)[id := (old(refs)[id].0, old(refs)[id].1 + 1)]
      ensures channels == Step(old(channels), Op.IncWrite(id)).0
      ensures Valid() <==> old(refs)[id].1 > 0
    {
      assert SlotOk(table[id], refs[id], channels[id]);
      refs := refs[id := (refs[id].0, refs[id].1 + 1)];
      channels := Step(channels, Op.IncWrite(id)).0;
      assert SlotOk(table[id], refs[id], channels[id]) <==> old(refs)[id].1 > 0;
    }

    /** Free the slot when both ends have no descriptor left. */
    method TryFree(id: nat)
      requires |table| == |refs| == MAX_PIPES && id < MAX_PIPES
      modifies this`table
      ensures table == if refs[id] == (0, 0) then old(table)[id := null] else old(table)
    {
      if refs[id] == (0, 0) {
        table := table[id := null];
      }
    }

    method CloseRead(id: nat)
      requires Valid() && id < MAX_PIPES
      modifies this, Pipes()
      ensures Valid() && channels == Step(old(channels), Op.CloseRead(id)).0
      ensures table == if channels[id] == Free then old(table)[id := null] else old(table)
    {
      assert SlotOk(table[id], refs[id], channels[id]);
      refs := refs[id := (Dropped(refs[id].0), refs[id].1)];
      if refs[id].0 == 0 {
        if table[id] != null {
          table[id].CloseRead();
        }
        TryFree(id);
      }
      channels := Step(channels, Op.CloseRead(id)).0;
      OthersStay(id);
    }

    method CloseWrite(id: nat)
      requires Valid() && id < MAX_PIPES
      modifies this, Pipes()
      ensures Valid() && channels == Step(old(channels), Op.CloseWrite(id)).0
      ensures table == if channels[id] == Free then old(table)[id := null] else old(table)
    {
      assert SlotOk(table[id], refs[id], channels[id]);
      refs := refs[id := (refs[id].0, Dropped(refs[id].1))];
      if refs[id].1 == 0 {
        if table[id] != null {
          table[id].CloseWrite();
        }
        TryFree(id);
      }
      channels := Step(channels, Op.CloseWrite(id)).0;
      OthersStay(id);
    }

    method Read(id: nat, isNull: bool, len: nat) returns (r: Option<int>, out: seq<Byte>)
      requires Valid() && id < MAX_PIPES
      modifies this`channels, Pipes()
      ensures Valid() && (channels, Got(r, out)) == Step(old(channels), Op.Read(id, isNull, len))
      ensures r == Some(0) && len > 0 && !isNull ==>
                channels[id].Live? && channels[id].writers == 0 && channels[id].delivered == channels[id].accepted
    {
      assert SlotOk(table[id], refs[id], channels[id]);
      channels := Step(channels, Op.Read(id, isNull, len)).0;
      if table[id] == null {
        return None, [];
      }
      var n;
      n, out := table[id].Read(isNull, len);
      r := Some(n);
      OthersStay(id);
    }

    method Write(id: nat, isNull: bool, data: seq<Byte>) returns (r: Option<int>)
      requires Valid() && id < MAX_PIPES
      modifies this`channels, Pipes(), Buffers()
      ensures Valid() && (channels, Put(r)) == Step(old(channels), Op.Write(id, isNull, data))
      ensures r.Some? && data != [] && !isNull ==> (r.value == EPIPE <==> channels[id].Live? && channels[id].readers == 0)
    {
      assert SlotOk(table[id], refs[id], channels[id]);
      channels := Step(channels, Op.Write(id, isNull, data)).0;
      if table[id] == null {
        return None;
      }
      var n := table[id].Write(isNull, data);
      r := Some(n);
      OthersStay(id);
    }
  }

  // ---------------------------------------------------------------- runs

  /** A descriptor is duplicated only while one is held. */
  method Perform(t: PipeTable, op: Op) returns (answer: Answer)
    requires t.Valid() && InTable(op)
    modifies t, t.Pipes(), t.Buffers()
    ensures t.Valid() && (t.channels, answer) == Step(old(t.channels), op)
    ensures fresh(t.Pipes() - old(t.Pipes())) && fresh(t.Buffers() - old(t.Buffers()))
  {
    answer := Done;
    assert !op.Alloc? ==> SlotOk(t.table[op.id], t.refs[op.id], t.channels[op.id]);
    assert !op.Alloc? ==> t.channels[op.id := t.channels[op.id]] == t.channels;
    match op
    case Alloc =>
      var r := t.Alloc();
      answer := NewPipe(r);
    case IncRead(id) =>
      if t.refs[id].0 > 0 {
        t.IncRead(id);
      }
    case IncWrite(id) =>
      if t.refs[id].1 > 0 {
        t.IncWrite(id);
      }
    case CloseRead(id) =>
      t.CloseRead(id);
    case CloseWrite(id) =>
      t.CloseWrite(id);
    case Read(id, isNull, len) =>
      var r, out := t.Read(id, isNull, len);
      answer := Got(r, out);
    case Write(id, isNull, data) =>
      var r := t.Write(id, isNull, data);
      answer := Put(r);
  }

  /** Every run of the table gives the answers of the channels, and ends where they end. */
  method Run(t: PipeTable, ops: seq<Op>) returns (answers: seq<Answer>)
    requires t.Valid() && AllInTable(ops)
    modifies t, t.Pipes(), t.Buffers()
    ensures t.Valid() && t.channels == After(old(t.channels), ops) && answers == AnswersOf(old(t.channels), ops)
  {
    answers := [];
    assert ops[0..] == ops;
    for k := 0 to |ops|
      invariant t.Valid()
      invariant fresh(t.Pipes() - old(t.Pipes())) && fresh(t.Buffers() - old(t.Buffers()))
      invariant Follows(old(t.channels), ops, k, t.channels, answers)
    {
      FollowsOn(old(t.channels), ops, k, t.channels, answers);
      var answer := Perform(t, ops[k]);
      answers := answers + [answer];
    }
  }

  /** A stray write turns end of file back: the reader sees the end, and then a byte. */
  method EndOfFileUndone() returns (first: int, second: int, bytes: seq<Byte>)
    ensures first == 0 && second == 1 && bytes == [7]
  {
    var p := new Pipe();
    p.CloseWrite();
    assert |p.Buffered()| == 0;
    var none;
    first, none := p.Read(false, 1);
    var w := p.Write(false, [7]);
    second, bytes := p.Read(false, 1);
  }
}
