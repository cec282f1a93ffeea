/**
 The 32-level bitmap ready queue (kernel/src/sched/ready_queue.rs), proved against the list
 model.  The u32 bitmap is modelled by its 32 bits.
 */
module ReadyQueue {
  import opened Common
  import opened ReadyList

  /** The tokens of one level, in order of arrival. */
  function AtLevel(list: seq<Waiter>, level: nat): seq<nat>
  {
    if list == [] then []
    else (if list[0].level == level then [list[0].token] else []) + AtLevel(list[1..], level)
  }

  /** A queue without its entry at `i`. */
  function Cut(q: seq<nat>, i: nat): seq<nat>
    requires i < |q|
  {
    q[..i] + q[i + 1..]
  }

  lemma {:induction false} AtLevelConcat(a: seq<Waiter>, b: seq<Waiter>, level: nat)
    ensures AtLevel(a + b, level) == AtLevel(a, level) + AtLevel(b, level)
  {
    if a == [] {
      assert a + b == b;
    } else {
      AtLevelConcat(a[1..], b, level);
      assert (a + b)[1..] == a[1..] + b;
      var head := if a[0].level == level then [a[0].token] else [];
      assert AtLevel(a + b, level) == head + (AtLevel(a[1..], level) + AtLevel(b, level));
      assert head + (AtLevel(a[1..], level) + AtLevel(b, level)) == head + AtLevel(a[1..], level) + AtLevel(b, level);
    }
  }

  lemma {:induction false} AtLevelEmpty(list: seq<Waiter>, level: nat)
    ensures AtLevel(list, level) == [] <==> !Occupied(list, level)
  {
    if list != [] {
      AtLevelEmpty(list[1..], level);
      if Occupied(list[1..], level) {
        var j :| 0 <= j < |list[1..]| && list[1..][j].level == level;
        assert list[j + 1].level == level;
      }
      if Occupied(list, level) && list[0].level != level {
        var j :| 0 <= j < |list| && list[j].level == level;
        assert list[1..][j - 1].level == level;
      }
    }
  }

  lemma {:induction false} AtLevelHas(list: seq<Waiter>, level: nat, token: nat)
    ensures token in AtLevel(list, level) <==> Waiter(token, level) in list
  {
    if list != [] {
      AtLevelHas(list[1..], level, token);
      assert list == [list[0]] + list[1..];
    }
  }

  /** Removing the first waiter of its kind removes the first such token of its level and touches no other level. */
  lemma RemovedFrom(list: seq<Waiter>, k: nat, level: nat)
    requires k < |list|
    ensures var rest := Without(list, k);
            if level != list[k].level then AtLevel(rest, level) == AtLevel(list, level)
            else var i := |AtLevel(list[..k], level)|;
                 && i < |AtLevel(list, level)| && AtLevel(list, level)[i] == list[k].token
                 && AtLevel(rest, level) == Cut(AtLevel(list, level), i)
                 && AtLevel(list[..k], level) == AtLevel(list, level)[..i]
  {
    var a, b := list[..k], list[k + 1..];
    assert list == a + [list[k]] + b;
    AtLevelConcat(a + [list[k]], b, level);
    AtLevelConcat(a, [list[k]], level);
    AtLevelConcat(a, b, level);
    assert AtLevel([list[k]], level) == if list[k].level == level then [list[k].token] else [];
  }

  lemma FirstIsHead(list: seq<Waiter>, k: nat)
    requires k < |list| && forall j :: 0 <= j < k ==> list[j].level != list[k].level
    ensures AtLevel(list[..k], list[k].level) == []
  {
    AtLevelEmpty(list[..k], list[k].level);
  }

  lemma Picked(list: seq<Waiter>, k: nat, m: nat)
    requires k < |list| && forall j :: 0 <= j < k ==> list[j].level != list[k].level
    ensures AtLevel(list, list[k].level) != [] && AtLevel(list, list[k].level)[0] == list[k].token
    ensures AtLevel(Without(list, k), m) == if m == list[k].level then AtLevel(list, m)[1..] else AtLevel(list, m)
  {
    FirstIsHead(list, k);
    RemovedFrom(list, k, list[k].level);
    RemovedFrom(list, k, m);
  }

  /** The lowest non-empty level is that of the waiter the linear scan finds. */
  lemma LowestIsBest(list: seq<Waiter>, l: nat)
    requires AtLevel(list, l) != [] && forall m :: 0 <= m < l ==> AtLevel(list, m) == []
    ensures list != [] && list[Best(list)].level == l
  {
    AtLevelEmpty(list, l);
    var b := list[Best(list)].level;
    AtLevelEmpty(list, b);
    assert Occupied(list, b);
  }

  lemma FirstPosition(q: seq<nat>, token: nat, i: nat)
    requires i < |q| && q[i] == token && token !in q[..i]
    ensures FirstIndex(q, token) == i
  {
  }

  /** The first `token` in its level's queue is its first waiter in the list. */
  lemma QueuePosition(list: seq<Waiter>, w: Waiter, m: nat)
    requires w in list
    ensures var k, i := FirstIndex(list, w), FirstIndex(AtLevel(list, w.level), w.token);
            && i < |AtLevel(list, w.level)|
            && AtLevel(Without(list, k), m) ==
               if m == w.level then Cut(AtLevel(list, m), i) else AtLevel(list, m)
  {
    var k := FirstIndex(list, w);
    RemovedFrom(list, k, m);
    RemovedFrom(list, k, w.level);
    AtLevelHas(list[..k], w.level, w.token);
    FirstPosition(AtLevel(list, w.level), w.token, |AtLevel(list[..k], w.level)|);
  }

  type Bits = b: seq<bool> | |b| == LEVELS witness seq(LEVELS, _ => false)

  /** u32::trailing_zeros: the lowest set bit, or 32. */
  function TrailingZeros(b: Bits, i: nat): (k: nat)
    requires i <= LEVELS
    ensures i <= k <= LEVELS
    ensures k < LEVELS ==> b[k]
    ensures forall j :: i <= j < k ==> !b[j]
    decreases LEVELS - i
  {
    if i == LEVELS || b[i] then i else TrailingZeros(b, i + 1)
  }

  /** The queues hold the levels of the list. */
  ghost predicate Mirrors(qs: seq<seq<nat>>, list: seq<Waiter>)
  {
    |qs| == LEVELS && forall l :: 0 <= l < LEVELS ==> qs[l] == AtLevel(list, l)
  }

  /** A bit is set exactly when its level is non-empty. */
  ghost predicate BitsOk(bits: Bits, qs: seq<seq<nat>>)
    requires |qs| == LEVELS
  {
    forall l :: 0 <= l < LEVELS ==> (bits[l] <==> qs[l] != [])
  }

  /** Shrinking a level's queue and clearing its bit when it is empty keeps the bitmap right. */
  lemma BitsShrink(bits: Bits, qs: seq<seq<nat>>, l: nat, q: seq<nat>)
    requires |qs| == LEVELS && l < LEVELS && BitsOk(bits, qs) && qs[l] != []
    ensures BitsOk(if q == [] then bits[l := false] else bits, qs[l := q])
  {
  }

  lemma SaneWithout(s: Ready, k: nat)
    requires Sane(s) && k < |s.list|
    ensures Sane(s.(list := Without(s.list, k)))
  {
  }

  lemma MirrorAppend(qs: seq<seq<nat>>, list: seq<Waiter>, w: Waiter)
    requires Mirrors(qs, list) && w.level < LEVELS
    ensures Mirrors(qs[w.level := qs[w.level] + [w.token]], list + [w])
  {
    forall m | 0 <= m < LEVELS
      ensures qs[w.level := qs[w.level] + [w.token]][m] == AtLevel(list + [w], m)
    {
      AtLevelConcat(list, [w], m);
    }
  }

  lemma MirrorPick(qs: seq<seq<nat>>, list: seq<Waiter>, k: nat)
    requires Mirrors(qs, list)
    requires k < |list| && list[k].level < LEVELS && forall j :: 0 <= j < k ==> list[j].level != list[k].level
    ensures qs[list[k].level] != [] && qs[list[k].level][0] == list[k].token
    ensures Mirrors(qs[list[k].level := qs[list[k].level][1..]], Without(list, k))
  {
    Picked(list, k, 0);
    forall m | 0 <= m < LEVELS
      ensures qs[list[k].level := qs[list[k].level][1..]][m] == AtLevel(Without(list, k), m)
    {
      Picked(list, k, m);
    }
  }

  lemma MirrorRemove(qs: seq<seq<nat>>, list: seq<Waiter>, token: nat, l: nat, i: nat)
    requires Mirrors(qs, list) && l < LEVELS && i == FirstIndex(qs[l], token) < |qs[l]|
    ensures Waiter(token, l) in list
    ensures Mirrors(qs[l := Cut(qs[l], i)], Without(list, FirstIndex(list, Waiter(token, l))))
  {
    AtLevelHas(list, l, token);
    var qs' := qs[l := Cut(qs[l], i)];
    forall m | 0 <= m < LEVELS
      ensures qs'[m] == AtLevel(Without(list, FirstIndex(list, Waiter(token, l))), m)
    {
      QueuePosition(list, Waiter(token, l), m);
    }
  }

  /** Bitmap and queues stand for the list model. */
  ghost predicate Represents(bits: Bits, qs: seq<seq<nat>>, model: Ready)
  {
    var represents := Mirrors(qs, model.list) && BitsOk(bits, qs) && Sane(model);
    represents
  }

  /** The bitmap after level `l` became `q`. */
  function Cleared(bits: Bits, l: nat, q: seq<nat>): Bits
    requires l < LEVELS
  {
    if q == [] then bits[l := false] else bits
  }

  lemma PickRepresents(bits: Bits, qs: seq<seq<nat>>, model: Ready, l: nat, k: nat)
    requires Represents(bits, qs, model) && l < LEVELS
    requires k < |model.list| && model.list[k].level == l && forall j :: 0 <= j < k ==> model.list[j].level != l
    ensures |qs| == LEVELS && qs[l] != [] && qs[l][0] == model.list[k].token
    ensures Represents(Cleared(bits, l, qs[l][1..]), qs[l := qs[l][1..]], model.(list := Without(model.list, k)))
  {
    MirrorPick(qs, model.list, k);
    BitsShrink(bits, qs, l, qs[l][1..]);
    SaneWithout(model, k);
  }

  lemma RemoveRepresents(bits: Bits, qs: seq<seq<nat>>, model: Ready, l: nat, i: nat, token: nat)
    requires Represents(bits, qs, model) && l < LEVELS && |qs| == LEVELS && i == FirstIndex(qs[l], token) < |qs[l]|
    ensures Waiter(token, l) in model.list
    ensures Represents(Cleared(bits, l, Cut(qs[l], i)), qs[l := Cut(qs[l], i)],
                       model.(list := Without(model.list, FirstIndex(model.list, Waiter(token, l)))))
  {
    MirrorRemove(qs, model.list, token, l, i);
    BitsShrink(bits, qs, l, Cut(qs[l], i));
    SaneWithout(model, FirstIndex(model.list, Waiter(token, l)));
  }

  class Queue {
    var bitmap: Bits
    const queues: array<seq<nat>>
    var starved: nat
    ghost var model: Ready

    /** The bitmap marks the non-empty levels, and the levels are those of the list model. */
    ghost predicate Valid()
      reads this, queues
    {
      Represents(bitmap, queues[..], model) && starved == model.starved
    }

    constructor ()
      ensures Valid() && model == Ready([], 0) && fresh(queues)
    {
      bitmap := seq(LEVELS, _ => false);
      queues := new seq<nat>[LEVELS](_ => []);
      starved := 0;
      model := Ready([], 0);
    }

    method Push(token: nat, prio: nat)
      requires Valid()
      modifies this, queues
      ensures Valid() && model == PushTo(old(model), token, prio)
    {
      var l := if prio < LEVELS then prio else LEVELS - 1;
      ghost var qs := queues[..];
      AtLevelHas(model.list, l, token);
      if token !in queues[l] {
        MirrorAppend(qs, model.list, Waiter(token, l));
        queues[l] := queues[l] + [token];
        assert queues[..] == qs[l := qs[l] + [token]];
      }
      bitmap := bitmap[l := true];
      model := PushTo(model, token, prio);
    }

    /** Take the first token of a level; the bit goes when the level is empty. */
    method PickFrom(l: nat, ghost k: nat) returns (token: nat)
      requires Valid() && l < LEVELS
      requires k < |model.list| && model.list[k].level == l && forall j :: 0 <= j < k ==> model.list[j].level != l
      modifies this, queues
      ensures Valid() && model == old(model).(list := Without(old(model).list, k))
      ensures token == old(model).list[k].token && starved == old(starved)
    {
      ghost var qs := queues[..];
      PickRepresents(bitmap, qs, model, l, k);
      token := queues[l][0];
      queues[l] := queues[l][1..];
      if queues[l] == [] {
        bitmap := bitmap[l := false];
      }
      model := model.(list := Without(model.list, k));
      assert queues[..] == qs[l := qs[l][1..]];
    }

    /** The promotion at the head of pop_next. */
    method PromoteStarved()
      requires Valid()
      modifies this, queues
      ensures Valid() && model == Promote(old(model))
    {
      AtLevelEmpty(model.list, BATCH);
      if starved >= STARVATION_TICKS && queues[BATCH] != [] {
        var token := PickFrom(BATCH, FirstAt(model.list, BATCH));
        ghost var qs := queues[..];
        MirrorAppend(qs, model.list, Waiter(token, BOOST));
        queues[BOOST] := queues[BOOST] + [token];
        assert queues[..] == qs[BOOST := qs[BOOST] + [token]];
        bitmap := bitmap[BOOST := true];
        starved := 0;
        model := Ready(model.list + [Waiter(token, BOOST)], 0);
      }
    }

    /** pop_next is the linear scan of the list model, promotion first. */
    method PopNext() returns (r: Option<nat>)
      requires Valid()
      modifies this, queues
      ensures Valid() && model == PopFrom(old(model)).0
      ensures r == match PopFrom(old(model)).1 case None => None case Some(w) => Some(w.token)
    {
      StepSane(model, Pop);
      PromoteStarved();
      r := PickBest();
    }

    /** The rest of pop_next: the lowest set bit names the level to serve. */
    method PickBest() returns (r: Option<nat>)
      requires Valid() && Sane(Serve(model).0)
      modifies this, queues
      ensures Valid() && model == Serve(old(model)).0
      ensures r == match Serve(old(model)).1 case None => None case Some(w) => Some(w.token)
    {
      var l := TrailingZeros(bitmap, 0);
      if l == LEVELS {
        NothingWaits(queues[..], model.list);
        return None;
      }
      LowestIsBest(model.list, l);
      var token := PickFrom(l, Best(model.list));
      TickClock(l);
      r := Some(token);
    }

    /** The starvation clock after a pick at level `l`. */
    method TickClock(l: nat)
      requires Valid()
      requires l == BATCH || l == BOOST || !Occupied(model.list, BATCH) || starved < STARVATION_TICKS
      modifies this`starved, this`model
      ensures Valid()
      ensures model == Ready(old(model).list, if l == BATCH || l == BOOST || !Occupied(model.list, BATCH) then 0 else old(starved) + 1)
    {
      AtLevelEmpty(model.list, BATCH);
      if l == BATCH || l == BOOST {
        starved := 0;
      } else if queues[BATCH] != [] {
        starved := starved + 1;
      } else {
        starved := 0;
      }
      model := model.(starved := starved);
    }

    /** Drop the token at position `i` of a level. */
    method RemoveAt(l: nat, i: nat, token: nat)
      requires Valid() && l < LEVELS
      requires i == FirstIndex(queues[l], token) < |queues[l]|
      modifies this, queues
      ensures Waiter(token, l) in old(model).list
      ensures Valid() && model == old(model).(list := Without(old(model).list, FirstIndex(old(model).list, Waiter(token, l))))
    {
      ghost var qs := queues[..];
      RemoveRepresents(bitmap, qs, model, l, i, token);
      queues[l] := Cut(queues[l], i);
      if queues[l] == [] {
        bitmap := bitmap[l := false];
      }
      model := model.(list := Without(model.list, FirstIndex(model.list, Waiter(token, l))));
      assert queues[..] == qs[l := Cut(qs[l], i)];
    }

    /** remove: the first occurrence at the lowest level that holds the token. */
    method Remove(token: nat) returns (found: bool)
      requires Valid()
      modifies this, queues
      ensures Valid() && model == RemoveFrom(old(model), token).0
      ensures found == RemoveFrom(old(model), token).1
    {
      for l := 0 to LEVELS
        invariant Valid() && model == old(model)
        invariant forall m :: 0 <= m < l ==> Waiter(token, m) !in model.list
      {
        AtLevelHas(model.list, l, token);
        var i := FirstIndex(queues[l], token);
        if i < |queues[l]| {
          RemoveAt(l, i, token);
          return true;
        }
      }
      return false;
    }
  }

  lemma NothingWaits(qs: seq<seq<nat>>, list: seq<Waiter>)
    requires Mirrors(qs, list) && forall l :: 0 <= l < LEVELS ==> qs[l] == []
    requires forall j :: 0 <= j < |list| ==> list[j].level < LEVELS
    ensures list == []
  {
    if list != [] {
      AtLevelEmpty(list, list[0].level);
      assert false;
    }
  }

  /** What a call returns. */
  datatype Answer = Pushed | Popped(token: Option<nat>) | Removed(found: bool)

  function AnswerOf(s: Ready, op: Op): Answer
  {
    match op
    case Push(_, _) => Pushed
    case Pop =>
      (match PopFrom(s).1
       case None => Popped(None)
       case Some(w) => Popped(Some(w.token)))
    case Remove(token) => Removed(RemoveFrom(s, token).1)
  }

  function AnswersOf(s: Ready, ops: seq<Op>): seq<Answer>
    decreases |ops|
  {
    if ops == [] then [] else [AnswerOf(s, ops[0])] + AnswersOf(Step(s, ops[0]).0, ops[1..])
  }

  method Perform(q: Queue, op: Op) returns (answer: Answer)
    requires q.Valid()
    modifies q, q.queues
    ensures q.Valid() && q.model == Step(old(q.model), op).0 && answer == AnswerOf(old(q.model), op)
  {
    match op
    case Push(token, prio) =>
      q.Push(token, prio);
      answer := Pushed;
    case Pop =>
      var r := q.PopNext();
      answer := Popped(r);
    case Remove(token) =>
      var found := q.Remove(token);
      answer := Removed(found);
  }

  /** Every run of the bitmap queue answers each call as the list model does. */
  method Run(q: Queue, ops: seq<Op>) returns (answers: seq<Answer>)
    requires q.Valid()
    modifies q, q.queues
    ensures q.Valid() && q.model == After(old(q.model), ops)
    ensures answers == AnswersOf(old(q.model), ops)
    decreases |ops|
  {
    if ops == [] {
      return [];
    }
    var answer := Perform(q, ops[0]);
    var rest := Run(q, ops[1..]);
    answers := [answer] + rest;
  }
}
