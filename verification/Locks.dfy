/** Advisory byte-range locks (kernel/src/driver/fs.rs).  A check and the addition after it are one step. */
module Locks {
  import opened Common

  const F_GETLK: nat := 5
  const F_SETLK: nat := 6
  const F_SETLKW: nat := 7

  const F_WRLCK: nat := 1
  const F_UNLCK: nat := 2

  const I64_MAX: int := 0x7FFF_FFFF_FFFF_FFFF

  type Int64 = x: int | -0x8000_0000_0000_0000 <= x <= 0x7FFF_FFFF_FFFF_FFFF
  type Int16 = x: int | -0x8000 <= x <= 0x7FFF
  type Uint16 = x: int | 0 <= x < 0x1_0000

  /** 64-bit arithmetic wraps around. */
  function Wrap(x: int): Int64
  {
    (x + 0x8000_0000_0000_0000) % 0x1_0000_0000_0000_0000 - 0x8000_0000_0000_0000
  }

  function ToU16(x: Int16): Uint16
  {
    if x < 0 then x + 0x1_0000 else x
  }

  function ToI16(x: Uint16): Int16
  {
    if x < 0x8000 then x else x - 0x1_0000
  }

  datatype Flock = Flock(kind: Int16, whence: Int16, start: Int64, len: Int64)

  function AbsStart(f: Flock): Int64
  {
    f.start
  }

  /** A length of zero means to the end of the file. */
  function AbsEnd(f: Flock): Int64
  {
    if f.len == 0 then I64_MAX else Wrap(AbsStart(f) + f.len)
  }

  datatype FileLock = FileLock(fd: nat, inode: nat, kind: Uint16, start: Int64, end: Int64)

  predicate Overlap(a: FileLock, b: FileLock)
  {
    a.start < b.end && b.start < a.end
  }

  /** Different descriptors, same file, overlapping, and at least one of the two is exclusive. */
  predicate Clash(a: FileLock, b: FileLock)
  {
    a.inode == b.inode && a.fd != b.fd && Overlap(a, b) && (a.kind == F_WRLCK || b.kind == F_WRLCK)
  }

  predicate Holds(l: FileLock, byte: int)
  {
    l.start <= byte < l.end
  }

  ghost predicate Conflicts(locks: seq<FileLock>, req: FileLock)
  {
    exists i :: 0 <= i < |locks| && Clash(locks[i], req)
  }

  /** The lock at `i` is the first that clashes with the request. */
  ghost predicate First(locks: seq<FileLock>, req: FileLock, i: nat)
    requires i < |locks|
  {
    Clash(locks[i], req) && forall j :: 0 <= j < i ==> !Clash(locks[j], req)
  }

  function Request(fd: nat, inode: nat, f: Flock): FileLock
  {
    FileLock(fd, inode, ToU16(f.kind), AbsStart(f), AbsEnd(f))
  }

  /** The lock as F_GETLK reports it. */
  function Report(l: FileLock): Flock
  {
    Flock(ToI16(l.kind), 0, l.start, if l.end == I64_MAX then 0 else Wrap(l.end - l.start))
  }

  // ---------------------------------------------------------------- the table

  ghost predicate Stored(l: FileLock)
  {
    l.kind != F_UNLCK && (l.start == l.end ==> l.end == I64_MAX)
  }

  ghost predicate Exclusive(locks: seq<FileLock>)
  {
    && (forall i :: 0 <= i < |locks| ==> Stored(locks[i]))
    && (forall i, j :: 0 <= i < |locks| && 0 <= j < |locks| ==> !Clash(locks[i], locks[j]))
  }

  /** What the invariant means: no byte is write-locked by one descriptor and locked by another. */
  lemma NoByteShared(locks: seq<FileLock>, i: nat, j: nat, byte: int)
    requires Exclusive(locks) && i < |locks| && j < |locks|
    requires locks[i].inode == locks[j].inode && locks[i].kind == F_WRLCK
    requires Holds(locks[i], byte) && Holds(locks[j], byte)
    ensures locks[i].fd == locks[j].fd
  {
  }

  lemma AddKeeps(locks: seq<FileLock>, req: FileLock)
    requires Exclusive(locks) && Stored(req) && !Conflicts(locks, req)
    ensures Exclusive(locks + [req])
  {
  }

  lemma RequestStored(fd: nat, inode: nat, f: Flock)
    requires ToU16(f.kind) != F_UNLCK
    ensures Stored(Request(fd, inode, f))
  {
  }

  /** F_GETLK reports exactly the range of the lock, also where the arithmetic wraps. */
  lemma ReportExact(l: FileLock)
    requires Stored(l)
    ensures AbsStart(Report(l)) == l.start && AbsEnd(Report(l)) == l.end && ToU16(Report(l).kind) == l.kind
  {
    WrapBack(l.start, l.end);
  }

  lemma WrapBack(start: Int64, end: Int64)
    ensures Wrap(start + Wrap(end - start)) == end
    ensures Wrap(end - start) == 0 <==> start == end
  {
  }

  /** The locks that satisfy `keep`, in order (Vec::retain). */
  function Retained(locks: seq<FileLock>, drop: FileLock -> bool): (r: seq<FileLock>)
    ensures forall l :: l in r <==> l in locks && !drop(l)
  {
    if locks == [] then [] else (if drop(locks[0]) then [] else [locks[0]]) + Retained(locks[1..], drop)
  }

  lemma RetainedKeeps(locks: seq<FileLock>, drop: FileLock -> bool)
    requires Exclusive(locks)
    ensures Exclusive(Retained(locks, drop))
  {
    var r := Retained(locks, drop);
    forall i | 0 <= i < |r| ensures r[i] in locks {
    }
  }

  /** A lock of the requester on the same file that overlaps the range. */
  predicate Covered(l: FileLock, req: FileLock)
  {
    l.inode == req.inode && l.fd == req.fd && Overlap(l, req)
  }

  // ---------------------------------------------------------------- what the calls mean

  datatype Op =
    | Fcntl(cmd: nat, fd: nat, inode: nat, flock: Flock, meanwhile: seq<Op>)
    | Close(fd: nat)

  /** What fcntl_lock_op returns and writes back; nothing for a close. */
  datatype Answer = Returned(ret: int, out: Option<Flock>) | Closed

  /** The first lock in the way of a request, if any. */
  function FirstClash(locks: seq<FileLock>, req: FileLock): (r: Option<FileLock>)
    ensures r == None <==> !Conflicts(locks, req)
  {
    if locks == [] then None else if Clash(locks[0], req) then Some(locks[0]) else FirstClash(locks[1..], req)
  }

  /** What F_GETLK writes back. */
  function Probed(locks: seq<FileLock>, fd: nat, inode: nat, f: Flock): Flock
  {
    match FirstClash(locks, Request(fd, inode, f))
    case Some(l) => Report(l)
    case None => f.(kind := F_UNLCK)
  }

  /** Check and add. */
  function Granted(locks: seq<FileLock>, req: FileLock): (seq<FileLock>, Answer)
  {
    if FirstClash(locks, req) == None then (locks + [req], Returned(0, None)) else (locks, Returned(-1, None))
  }

  /** One call on the table; F_SETLKW gives up the processor once, when `meanwhile` happens, and tries again. */
  function Step(locks: seq<FileLock>, op: Op): (seq<FileLock>, Answer)
    decreases op
  {
    match op
    case Close(fd) => (Retained(locks, (l: FileLock) => l.fd == fd), Closed)
    case Fcntl(cmd, fd, inode, f, meanwhile) =>
      var req := Request(fd, inode, f);
      if cmd == F_GETLK then (locks, Returned(0, Some(Probed(locks, fd, inode, f))))
      else if cmd != F_SETLK && cmd != F_SETLKW then (locks, Returned(-1, None))
      else if req.kind == F_UNLCK then (Retained(locks, l => Covered(l, req)), Returned(0, None))
      else if cmd == F_SETLK || FirstClash(locks, req) == None then Granted(locks, req)
      else Granted(After(locks, meanwhile, |meanwhile|), req)
  }

  /** The table after the first `k` calls, and their answers. */
  function After(locks: seq<FileLock>, ops: seq<Op>, k: nat): seq<FileLock>
    requires k <= |ops|
    decreases ops, k
  {
    if k == 0 then locks else Step(After(locks, ops, k - 1), ops[k - 1]).0
  }

  function AnswersOf(locks: seq<FileLock>, ops: seq<Op>, k: nat): seq<Answer>
    requires k <= |ops|
    decreases k
  {
    if k == 0 then [] else AnswersOf(locks, ops, k - 1) + [Step(After(locks, ops, k - 1), ops[k - 1]).1]
  }

  class LockTable {
    var locks: seq<FileLock>

    ghost predicate Valid()
      reads this
    {
      Exclusive(locks)
    }

    constructor ()
      ensures Valid() && locks == []
    {
      locks := [];
    }

    /** The first lock in the way of a request, if any. */
    method FindConflict(req: FileLock) returns (r: Option<FileLock>)
      ensures r == FirstClash(locks, req)
      ensures r == None ==> !Conflicts(locks, req)
      ensures r.Some? ==> Conflicts(locks, req) && exists i :: 0 <= i < |locks| && locks[i] == r.value && First(locks, req, i)
    {
      for i := 0 to |locks|
        invariant forall j :: 0 <= j < i ==> !Clash(locks[j], req)
        invariant FirstClash(locks, req) == FirstClash(locks[i..], req)
      {
        var lock := locks[i];
        if lock.inode != req.inode || lock.fd == req.fd || !Overlap(lock, req) {
          continue;
        }
        if lock.kind == F_WRLCK || req.kind == F_WRLCK {
          return Some(lock);
        }
      }
      return None;
    }

    method RemoveLocksInRange(req: FileLock)
      requires Valid()
      modifies this
      ensures Valid() && locks == Retained(old(locks), l => Covered(l, req))
    {
      RetainedKeeps(locks, l => Covered(l, req));
      locks := Retained(locks, l => Covered(l, req));
    }

    /** Closing a descriptor drops exactly its locks. */
    method ReleaseFdLocks(fd: nat)
      requires Valid()
      modifies this
      ensures Valid() && locks == Retained(old(locks), (l: FileLock) => l.fd == fd)
      ensures forall l :: l in locks <==> l in old(locks) && l.fd != fd
    {
      RetainedKeeps(locks, (l: FileLock) => l.fd == fd);
      locks := Retained(locks, (l: FileLock) => l.fd == fd);
    }

    /** Check and add. */
    method TryLock(req: FileLock) returns (ok: bool)
      requires Valid() && Stored(req)
      modifies this
      ensures Valid() && (ok <==> !Conflicts(old(locks), req))
      ensures locks == if ok then old(locks) + [req] else old(locks)
    {
      var c := FindConflict(req);
      ok := c == None;
      if ok {
        AddKeeps(locks, req);
        locks := locks + [req];
      }
    }

    method GetLock(fd: nat, inode: nat, f: Flock) returns (out: Flock)
      requires Valid()
      ensures out == Probed(locks, fd, inode, f)
      ensures ToU16(out.kind) != F_UNLCK <==> Conflicts(locks, Request(fd, inode, f))
      ensures ToU16(out.kind) != F_UNLCK ==>
                exists i :: 0 <= i < |locks| && First(locks, Request(fd, inode, f), i) && Request(locks[i].fd, inode, out) == locks[i]
      ensures ToU16(out.kind) == F_UNLCK ==> out == f.(kind := F_UNLCK)
    {
      var c := FindConflict(Request(fd, inode, f));
      if c.Some? {
        ReportExact(c.value);
        out := Report(c.value);
      } else {
        out := f.(kind := F_UNLCK);
      }
    }

    /** fcntl_lock_op. */
    method FcntlLockOp(cmd: nat, fd: nat, inode: nat, f: Flock, meanwhile: seq<Op>) returns (ret: int, out: Option<Flock>)
      requires Valid()
      modifies this
      ensures Valid() && (locks, Returned(ret, out)) == Step(old(locks), Fcntl(cmd, fd, inode, f, meanwhile))
      ensures cmd == F_GETLK ==> (ToU16(out.value.kind) != F_UNLCK <==> Conflicts(locks, Request(fd, inode, f)))
      ensures cmd == F_SETLK && ToU16(f.kind) != F_UNLCK ==> (ret == -1 <==> Conflicts(old(locks), Request(fd, inode, f)))
      decreases meanwhile, 1
    {
      var req := Request(fd, inode, f);
      if cmd == F_GETLK {
        var g := GetLock(fd, inode, f);
        return 0, Some(g);
      }
      if cmd != F_SETLK && cmd != F_SETLKW {
        return -1, None;
      }
      if ToU16(f.kind) == F_UNLCK {
        RemoveLocksInRange(req);
        return 0, None;
      }
      RequestStored(fd, inode, f);
      var ok := TryLock(req);
      if !ok && cmd == F_SETLKW {
        var _ := Run(meanwhile);
        ok := TryLock(req);
      }
      return if ok then 0 else -1, None;
    }

    /** Whatever is locked, unlocked and closed, the table stays exclusive, and every call has its answer. */
    method Run(ops: seq<Op>) returns (answers: seq<Answer>)
      requires Valid()
      modifies this
      ensures Valid() && locks == After(old(locks), ops, |ops|) && answers == AnswersOf(old(locks), ops, |ops|)
      decreases ops, 0
    {
      answers := [];
      for k := 0 to |ops|
        invariant Valid() && locks == After(old(locks), ops, k) && answers == AnswersOf(old(locks), ops, k)
      {
        var answer := Closed;
        match ops[k] {
          case Fcntl(cmd, fd, inode, f, meanwhile) =>
            var ret, out := FcntlLockOp(cmd, fd, inode, f, meanwhile);
            answer := Returned(ret, out);
          case Close(fd) =>
            ReleaseFdLocks(fd);
        }
        answers := answers + [answer];
      }
    }
  }

  /** F_GETLK reports a conflict exactly when F_SETLK with the same arguments is refused. */
  method ProbeThenLock(t: LockTable, fd: nat, inode: nat, f: Flock) returns (out: Option<Flock>, ret: int)
    requires t.Valid() && ToU16(f.kind) != F_UNLCK
    modifies t
    ensures t.Valid() && out.Some? && (ToU16(out.value.kind) != F_UNLCK <==> ret == -1)
  {
    var ret0;
    ret0, out := t.FcntlLockOp(F_GETLK, fd, inode, f, []);
    var out0;
    ret, out0 := t.FcntlLockOp(F_SETLK, fd, inode, f, []);
  }
}
