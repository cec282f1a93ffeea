/**
 The linear-scan list model of the ready queue (kernel/src/sched/ready_queue.rs) and its
 properties over whole runs.

 Waiting tasks stand in one list in order of arrival, each with its priority level; the
 lowest level is served first, the earliest arrival within a level.
 */
module ReadyList {
  import opened Common

  const LEVELS: nat := 32
  const BATCH: nat := 31
  const BOOST: nat := 24
  const STARVATION_TICKS: nat := 64

  datatype Waiter = Waiter(token: nat, level: nat)
  datatype Ready = Ready(list: seq<Waiter>, starved: nat)
  datatype Op = Push(token: nat, prio: nat) | Pop | Remove(token: nat)

  function Clamp(prio: nat): (l: nat)
    ensures l < LEVELS
  {
    if prio < LEVELS then prio else LEVELS - 1
  }

  function Without(list: seq<Waiter>, k: nat): seq<Waiter>
    requires k < |list|
  {
    list[..k] + list[k + 1..]
  }

  /** Index of the first waiter at `level`, or the length of the list. */
  function FirstAt(list: seq<Waiter>, level: nat): (k: nat)
    ensures k <= |list|
    ensures k < |list| ==> list[k].level == level
    ensures forall j :: 0 <= j < k ==> list[j].level != level
  {
    if list == [] || list[0].level == level then 0 else 1 + FirstAt(list[1..], level)
  }

  predicate Occupied(list: seq<Waiter>, level: nat)
  {
    exists j :: 0 <= j < |list| && list[j].level == level
  }

  /** The linear scan: the first of the waiters with the smallest level. */
  function Best(list: seq<Waiter>): (k: nat)
    requires list != []
    ensures k < |list|
    ensures forall j :: 0 <= j < |list| ==> list[k].level <= list[j].level
    ensures forall j :: 0 <= j < k ==> list[k].level < list[j].level
  {
    var n := |list| - 1;
    if n == 0 then 0
    else
      var b := Best(list[..n]);
      if list[n].level < list[b].level then n else b
  }

  function PushTo(s: Ready, token: nat, prio: nat): Ready
  {
    var w := Waiter(token, Clamp(prio));
    if w in s.list then s else s.(list := s.list + [w])
  }

  /** A starved batch task moves to the end, at the boosted level. */
  function Promote(s: Ready): Ready
  {
    var k := FirstAt(s.list, BATCH);
    if s.starved >= STARVATION_TICKS && k < |s.list| then
      Ready(Without(s.list, k) + [Waiter(s.list[k].token, BOOST)], 0)
    else s
  }

  function Serve(s: Ready): (Ready, Option<Waiter>)
  {
    if s.list == [] then (s, None)
    else
      var k := Best(s.list);
      var rest := Without(s.list, k);
      var level := s.list[k].level;
      var starved := if level == BATCH || level == BOOST || !Occupied(rest, BATCH) then 0 else s.starved + 1;
      (Ready(rest, starved), Some(s.list[k]))
  }

  function PopFrom(s: Ready): (Ready, Option<Waiter>)
  {
    Serve(Promote(s))
  }

  /** The lowest level that holds `token`, or LEVELS. */
  function LevelOf(list: seq<Waiter>, token: nat, l: nat): (m: nat)
    requires l <= LEVELS
    ensures l <= m <= LEVELS
    ensures m < LEVELS ==> Waiter(token, m) in list
    ensures forall k :: l <= k < m ==> Waiter(token, k) !in list
    decreases LEVELS - l
  {
    if l == LEVELS || Waiter(token, l) in list then l else LevelOf(list, token, l + 1)
  }

  function RemoveFrom(s: Ready, token: nat): (Ready, bool)
  {
    var m := LevelOf(s.list, token, 0);
    if m == LEVELS then (s, false)
    else (s.(list := Without(s.list, FirstIndex(s.list, Waiter(token, m)))), true)
  }

  function Step(s: Ready, op: Op): (Ready, Option<Waiter>)
  {
    match op
    case Push(token, prio) => (PushTo(s, token, prio), None)
    case Pop => PopFrom(s)
    case Remove(token) => (RemoveFrom(s, token).0, None)
  }

  /** The waiters served by a run. */
  function Served(s: Ready, ops: seq<Op>): seq<Waiter>
    decreases |ops|
  {
    if ops == [] then []
    else
      var (t, out) := Step(s, ops[0]);
      (if out.Some? then [out.value] else []) + Served(t, ops[1..])
  }

  function After(s: Ready, ops: seq<Op>): Ready
    decreases |ops|
  {
    if ops == [] then s else After(Step(s, ops[0]).0, ops[1..])
  }

  function Pops(ops: seq<Op>): nat
  {
    if ops == [] then 0 else (if ops[0].Pop? then 1 else 0) + Pops(ops[1..])
  }

  // ---------------------------------------------------------------- the starvation clock

  ghost predicate Sane(s: Ready)
  {
    s.starved <= STARVATION_TICKS && forall j :: 0 <= j < |s.list| ==> s.list[j].level < LEVELS
  }

  /** At the limit a promotion takes place, if there is anyone to promote. */
  lemma PromoteSane(s: Ready)
    requires Sane(s)
    ensures var p := Promote(s); Sane(p) && (p.starved == STARVATION_TICKS ==> !Occupied(p.list, BATCH))
  {
  }

  lemma WithoutIn(list: seq<Waiter>, k: nat, level: nat)
    requires k < |list|
    ensures forall w :: w in Without(list, k) ==> w in list
    ensures !Occupied(list, level) ==> !Occupied(Without(list, k), level)
  {
  }

  lemma ServeSane(p: Ready)
    requires Sane(p) && (p.starved == STARVATION_TICKS ==> !Occupied(p.list, BATCH))
    ensures Sane(Serve(p).0)
  {
  }

  /** Every step keeps the clock at 64 or below and all levels in range. */
  lemma StepSane(s: Ready, op: Op)
    requires Sane(s)
    ensures Sane(Step(s, op).0)
  {
    match op
    case Push(_, _) =>
    case Pop =>
      PromoteSane(s);
      ServeSane(Promote(s));
    case Remove(token) =>
      var m := LevelOf(s.list, token, 0);
      if m < LEVELS {
        WithoutIn(s.list, FirstIndex(s.list, Waiter(token, m)), BATCH);
      }
  }

  // ---------------------------------------------------------------- bounded waiting

  /** Waiters of `list` at levels below `level`. */
  function Above(list: seq<Waiter>, level: nat): nat
  {
    if list == [] then 0 else (if list[0].level < level then 1 else 0) + Above(list[1..], level)
  }

  lemma {:induction false} AboveConcat(a: seq<Waiter>, b: seq<Waiter>, level: nat)
    ensures Above(a + b, level) == Above(a, level) + Above(b, level)
  {
    if a == [] {
      assert a + b == b;
    } else {
      AboveConcat(a[1..], b, level);
      assert (a + b)[1..] == a[1..] + b;
    }
  }

  /** Waiters served before the one at index `k`: at lower levels, or earlier at its own. */
  function Rank(list: seq<Waiter>, k: nat): nat
    requires k < |list|
  {
    Above(list[..k], list[k].level + 1) + Above(list[k + 1..], list[k].level)
  }

  /** `w` stands in the list with at most `r` waiters to be served before it. */
  ghost predicate Waiting(list: seq<Waiter>, w: Waiter, r: nat)
  {
    exists k :: 0 <= k < |list| && list[k] == w && Rank(list, k) <= r
  }

  lemma AboveSplit(list: seq<Waiter>, k: nat, level: nat)
    requires k < |list|
    ensures Above(list, level) == Above(list[..k], level) + (if list[k].level < level then 1 else 0) + Above(list[k + 1..], level)
  {
    AboveConcat(list[..k], list[k..], level);
    assert list == list[..k] + list[k..];
    assert list[k..][1..] == list[k + 1..];
  }

  lemma RankWithoutBefore(list: seq<Waiter>, k: nat, j: nat)
    requires j < k < |list|
    ensures Without(list, j)[k - 1] == list[k]
    ensures Rank(list, k) == Rank(Without(list, j), k - 1) + (if list[j].level <= list[k].level then 1 else 0)
  {
    var rest, l := Without(list, j), list[k].level;
    AboveSplit(list[..k], j, l + 1);
    assert list[..k][..j] == list[..j] && list[..k][j + 1..] == list[j + 1..k];
    assert rest[..k - 1] == list[..j] + list[j + 1..k];
    assert rest[k..] == list[k + 1..];
    AboveConcat(list[..j], list[j + 1..k], l + 1);
  }

  lemma RankWithoutAfter(list: seq<Waiter>, k: nat, j: nat)
    requires k < j < |list|
    ensures Without(list, j)[k] == list[k]
    ensures Rank(list, k) == Rank(Without(list, j), k) + (if list[j].level < list[k].level then 1 else 0)
  {
    var rest, l, tail := Without(list, j), list[k].level, list[k + 1..];
    AboveSplit(tail, j - k - 1, l);
    assert tail[..j - k - 1] == list[k + 1..j] && tail[j - k..] == list[j + 1..];
    assert rest[k + 1..] == list[k + 1..j] + list[j + 1..];
    assert rest[..k] == list[..k];
    AboveConcat(list[k + 1..j], list[j + 1..], l);
  }

  /** Taking out a waiter at index `j` leaves the one at `k` in place, with one fewer before it if `j` was. */
  lemma RankWithout(list: seq<Waiter>, k: nat, j: nat)
    requires k < |list| && j < |list| && j != k
    ensures var k' := if j < k then k - 1 else k;
            && k' < |Without(list, j)| && Without(list, j)[k'] == list[k]
            && Rank(list, k) == Rank(Without(list, j), k') +
                 (if list[j].level < list[k].level || (list[j].level == list[k].level && j < k) then 1 else 0)
  {
    if j < k {
      RankWithoutBefore(list, k, j);
    } else {
      RankWithoutAfter(list, k, j);
    }
  }

  /** Adding a waiter at the end, at the same level or a later one, puts nobody ahead. */
  lemma RankAppend(list: seq<Waiter>, k: nat, w: Waiter)
    requires k < |list| && w.level >= list[k].level
    ensures Rank(list + [w], k) == Rank(list, k)
  {
    assert (list + [w])[..k] == list[..k];
    assert (list + [w])[k + 1..] == list[k + 1..] + [w];
    AboveConcat(list[k + 1..], [w], list[k].level);
  }

  /** Promotion puts nobody ahead of a waiter at level 24 or below. */
  lemma PromoteRank(s: Ready, w: Waiter, r: nat)
    requires Waiting(s.list, w, r) && w.level <= BOOST
    ensures Waiting(Promote(s).list, w, r)
  {
    var k :| 0 <= k < |s.list| && s.list[k] == w && Rank(s.list, k) <= r;
    var j := FirstAt(s.list, BATCH);
    if Promote(s) != s {
      RankWithout(s.list, k, j);
      var k' := if j < k then k - 1 else k;
      RankAppend(Without(s.list, j), k', Waiter(s.list[j].token, BOOST));
      var list' := Promote(s).list;
      assert list'[k'] == w && Rank(list', k') <= r;
    }
  }

  /** A pop serves the token or brings it one place forward. */
  lemma PopAdvances(s: Ready, w: Waiter, r: nat)
    requires Waiting(s.list, w, r) && w.level <= BOOST
    ensures var (t, out) := PopFrom(s);
            out.Some? && (out.value == w || (r > 0 && Waiting(t.list, w, r - 1)))
  {
    PromoteRank(s, w, r);
    var p := Promote(s);
    var k :| 0 <= k < |p.list| && p.list[k] == w && Rank(p.list, k) <= r;
    var b := Best(p.list);
    if b != k {
      RankWithout(p.list, k, b);
      var k' := if b < k then k - 1 else k;
      assert Without(p.list, b)[k'] == w && Rank(Without(p.list, b), k') <= r - 1;
    }
  }

  /** What may happen meanwhile: pushes at the waiter's level or later, removal of others. */
  predicate Harmless(op: Op, w: Waiter)
  {
    match op
    case Push(_, prio) => Clamp(prio) >= w.level
    case Pop => true
    case Remove(token) => token != w.token
  }

  lemma StepKeepsWaiting(s: Ready, w: Waiter, r: nat, op: Op)
    requires Waiting(s.list, w, r) && Harmless(op, w) && !op.Pop?
    ensures Waiting(Step(s, op).0.list, w, r)
  {
    var k :| 0 <= k < |s.list| && s.list[k] == w && Rank(s.list, k) <= r;
    match op
    case Push(token, prio) =>
      if Step(s, op).0 != s {
        RankAppend(s.list, k, Waiter(token, Clamp(prio)));
        assert Step(s, op).0.list[k] == w;
      }
    case Remove(token) =>
      var m := LevelOf(s.list, token, 0);
      if m < LEVELS {
        var j := FirstIndex(s.list, Waiter(token, m));
        RankWithout(s.list, k, j);
        var k' := if j < k then k - 1 else k;
        assert Without(s.list, j)[k'] == w;
      }
  }

  /**
   Bounded wait: a waiter at level 24 or below with at most r waiters before it is served by the
   (r+1)-th pop at the latest, over every run of harmless operations.
   */
  lemma {:induction false} BoundedWait(s: Ready, w: Waiter, r: nat, ops: seq<Op>)
    requires Waiting(s.list, w, r) && w.level <= BOOST
    requires forall i :: 0 <= i < |ops| ==> Harmless(ops[i], w)
    requires Pops(ops) > r
    ensures w in Served(s, ops)
    decreases |ops|
  {
    var (t, out) := Step(s, ops[0]);
    if ops[0].Pop? {
      PopAdvances(s, w, r);
      if out.value != w {
        BoundedWait(t, w, r - 1, ops[1..]);
      }
    } else {
      StepKeepsWaiting(s, w, r, ops[0]);
      BoundedWait(t, w, r, ops[1..]);
    }
  }

  /** The waiters before a batch task that is promoted now: those at its new level or above. */
  function PromotedRank(s: Ready): nat
  {
    var k := FirstAt(s.list, BATCH);
    if k < |s.list| then Above(Without(s.list, k), BOOST + 1) else 0
  }

  /** A promoted batch task is served at once or is one place further in its new queue. */
  lemma PromotedWaits(s: Ready)
    requires s.starved >= STARVATION_TICKS && Occupied(s.list, BATCH)
    ensures var w, r := Waiter(s.list[FirstAt(s.list, BATCH)].token, BOOST), PromotedRank(s);
            var (t, out) := PopFrom(s);
            out.Some? && (out.value == w || (r > 0 && Waiting(t.list, w, r - 1)))
  {
    var k := FirstAt(s.list, BATCH);
    var w, r := Waiter(s.list[k].token, BOOST), PromotedRank(s);
    var p := Promote(s);
    var n := |p.list| - 1;
    assert p.list[..n] == Without(s.list, k) && p.list[n] == w && p.list[n + 1..] == [];
    assert Rank(p.list, n) == r;
    var b := Best(p.list);
    if b != n {
      RankWithout(p.list, n, b);
      assert Without(p.list, b)[n - 1] == w;
    }
  }

  /** From its promotion on a batch task has the bound of its new place, over every harmless run. */
  lemma PromotedServed(s: Ready, ops: seq<Op>)
    requires s.starved >= STARVATION_TICKS && Occupied(s.list, BATCH)
    requires ops != [] && ops[0].Pop? && Pops(ops) > PromotedRank(s)
    requires forall i :: 0 <= i < |ops| ==> Harmless(ops[i], Waiter(s.list[FirstAt(s.list, BATCH)].token, BOOST))
    ensures Waiter(s.list[FirstAt(s.list, BATCH)].token, BOOST) in Served(s, ops)
  {
    var w, r := Waiter(s.list[FirstAt(s.list, BATCH)].token, BOOST), PromotedRank(s);
    PromotedWaits(s);
    var (t, out) := PopFrom(s);
    if out.value != w {
      BoundedWait(t, w, r - 1, ops[1..]);
    }
  }

  // ---------------------------------------------------------------- when starvation protection holds

  /** A batch task waits before and after every step of the run. */
  predicate BatchWaits(s: Ready, ops: seq<Op>)
    decreases |ops|
  {
    Occupied(s.list, BATCH) && (ops == [] || BatchWaits(Step(s, ops[0]).0, ops[1..]))
  }

  predicate AtBoostOrBatch(w: Waiter)
  {
    w.level == BOOST || w.level == BATCH
  }

  /** No pick was at the boosted or the batch level. */
  predicate Undisturbed(served: seq<Waiter>)
  {
    forall i :: 0 <= i < |served| ==> !AtBoostOrBatch(served[i])
  }

  lemma UndisturbedCons(w: Waiter, rest: seq<Waiter>)
    ensures Undisturbed([w] + rest) <==> !AtBoostOrBatch(w) && Undisturbed(rest)
  {
    var all := [w] + rest;
    assert all[0] == w;
    assert forall i :: 0 < i < |all| ==> all[i] == rest[i - 1];
    assert forall i :: 0 <= i < |rest| ==> rest[i] == all[i + 1];
  }

  /**
   The documentation promises promotion after 64 consecutive picks that left a batch task waiting.
   It holds exactly when none of the picks was at the Normal level (or a batch pick): over any run
   with 64 pops from a fresh clock, with a batch task waiting all along, the next pop promotes if
   and only if every pick was at another level.
   */
  lemma PromotionExact(s: Ready, ops: seq<Op>)
    requires s.starved == 0 && Pops(ops) == STARVATION_TICKS && BatchWaits(s, ops)
    ensures Promote(After(s, ops)) != After(s, ops) <==> Undisturbed(Served(s, ops))
  {
    ClockRuns(s, ops);
    BatchStillWaits(s, ops);
    var t := After(s, ops);
    var k := FirstAt(t.list, BATCH);
    assert t.starved >= STARVATION_TICKS ==> Promote(t).starved == 0;
  }

  lemma {:induction false} BatchStillWaits(s: Ready, ops: seq<Op>)
    requires BatchWaits(s, ops)
    ensures Occupied(After(s, ops).list, BATCH)
    decreases |ops|
  {
    if ops != [] {
      BatchStillWaits(Step(s, ops[0]).0, ops[1..]);
    }
  }

  /** The clock counts the picks exactly when none of them resets it. */
  lemma {:induction false} ClockRuns(s: Ready, ops: seq<Op>)
    requires s.starved + Pops(ops) <= STARVATION_TICKS && BatchWaits(s, ops)
    ensures After(s, ops).starved <= s.starved + Pops(ops)
    ensures After(s, ops).starved == s.starved + Pops(ops) <==> Undisturbed(Served(s, ops))
    decreases |ops|
  {
    if ops != [] {
      var (t, out) := Step(s, ops[0]);
      if ops[0].Pop? {
        assert Promote(s) == s;
        UndisturbedCons(out.value, Served(t, ops[1..]));
      } else {
        assert [] + Served(t, ops[1..]) == Served(t, ops[1..]);
        assert t.starved == s.starved;
      }
      ClockRuns(t, ops[1..]);
    }
  }

  /** n rounds of a Normal task that is served and comes back. */
  function Rounds(token: nat, n: nat): seq<Op>
  {
    if n == 0 then [] else [Pop, Push(token, BOOST)] + Rounds(token, n - 1)
  }

  /** So a single Normal task starves a batch task for ever: no number of picks promotes it. */
  lemma {:induction false} NormalTaskStarvesBatch(x: nat, y: nat, n: nat)
    ensures var s := Ready([Waiter(y, BATCH), Waiter(x, BOOST)], 0);
            After(s, Rounds(x, n)) == s && forall i :: 0 <= i < |Served(s, Rounds(x, n))| ==> Served(s, Rounds(x, n))[i] == Waiter(x, BOOST)
  {
    var s := Ready([Waiter(y, BATCH), Waiter(x, BOOST)], 0);
    if n > 0 {
      var ops := Rounds(x, n);
      assert ops[0] == Pop && ops[1..][0] == Push(x, BOOST) && ops[1..][1..] == Rounds(x, n - 1);
      assert Best(s.list) == 1;
      var mid := Ready([Waiter(y, BATCH)], 0);
      assert Without(s.list, 1) == [Waiter(y, BATCH)];
      assert Step(s, Pop) == (mid, Some(Waiter(x, BOOST)));
      assert mid.list + [Waiter(x, BOOST)] == s.list;
      assert Step(mid, Push(x, BOOST)) == (s, None);
      NormalTaskStarvesBatch(x, y, n - 1);
      assert Served(s, ops) == [Waiter(x, BOOST)] + Served(mid, ops[1..]);
      assert Served(mid, ops[1..]) == Served(s, Rounds(x, n - 1));
    }
  }
}
