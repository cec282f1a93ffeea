/** The token ring between the model and its applications (kernel/src/tokpipe.rs). */
module TokenPipes {
  import opened Common

  const TOKEN_SLOTS: nat := 256
  const TOKEN_MAX: nat := 64

  /** Positions run over twice the ring, so that full and empty differ. */
  const LAPS: nat := 512

  type Token = seq<Byte>
  type Bytes = s: seq<Byte> | |s| == TOKEN_MAX witness seq(TOKEN_MAX, _ => 0)

  datatype TokenSlot = TokenSlot(len: nat, data: Bytes)

  function Payload(s: TokenSlot): Token
  {
    if s.len <= TOKEN_MAX then s.data[..s.len] else s.data
  }

  /** A token is cut to TOKEN_MAX bytes. */
  function Cut(data: seq<Byte>): Token
  {
    if |data| < TOKEN_MAX then data else data[..TOKEN_MAX]
  }

  function Least(a: nat, b: nat): nat
  {
    if a < b then a else b
  }

  function Distance(head: nat, tail: nat): nat
  {
    (head - tail) % LAPS
  }

  lemma DistanceOf(h: nat, t: nat)
    requires t <= h < t + LAPS
    ensures Distance(h % LAPS, t % LAPS) == h - t
  {
    var laps := h / LAPS - t / LAPS;
    assert h - t == LAPS * laps + (h % LAPS - t % LAPS);
    assert laps == 0 || laps == 1;
  }

  lemma AddMod(t: nat, n: nat)
    ensures (t % LAPS + n) % LAPS == (t + n) % LAPS
  {
  }

  function Place(k: nat): (s: nat)
    ensures s < TOKEN_SLOTS
  {
    k % TOKEN_SLOTS
  }

  lemma PlaceOfPosition(k: nat)
    ensures Place(k % LAPS) == Place(k)
  {
  }

  lemma PlaceFrom(t: nat, k: nat)
    ensures Place(Place(t) + k) == Place(t + k)
  {
  }

  lemma PlacesApart(j: nat, k: nat)
    requires j < k < j + TOKEN_SLOTS
    ensures Place(j) != Place(k)
  {
  }

  // ---------------------------------------------------------------- what the ring means

  /** All tokens ever pushed, the reader's position, and how many tokens were dropped. */
  datatype Stream = Stream(pushed: seq<Token>, tail: nat, dropped: nat)

  datatype Op = Push(data: seq<Byte>) | Consume(n: nat) | View(max: nat)

  /** The number of tokens the ring claims. */
  function Claimed(s: Stream): nat
  {
    Distance(|s.pushed| % LAPS, s.tail)
  }

  /** What the slot of position `p` holds: the latest token pushed there, or nothing. */
  function Shown(pushed: seq<Token>, p: nat): Token
  {
    if pushed == [] then []
    else if Place(|pushed| - 1) == Place(p) then pushed[|pushed| - 1]
    else Shown(pushed[..|pushed| - 1], p)
  }

  /** The slices of view(max) lie inside the ring. */
  predicate InBounds(s: Stream, max: nat)
  {
    Least(Claimed(s), max) + Place(s.tail) <= LAPS
  }

  /** What the `n` slots from position `t` on hold, around the ring. */
  function ShownFrom(pushed: seq<Token>, t: nat, n: nat): (r: seq<Token>)
    ensures |r| == n && forall k :: 0 <= k < n ==> r[k] == Shown(pushed, t + k)
  {
    seq(n, k requires 0 <= k => Shown(pushed, t + k))
  }

  /** What view(max) shows; None is the panic for a slice out of range. */
  function Sight(s: Stream, max: nat): Option<seq<Token>>
  {
    if InBounds(s, max) then Some(ShownFrom(s.pushed, s.tail, Least(Claimed(s), max))) else None
  }

  /** A push always succeeds; in a full ring it drops the oldest token and counts it. */
  function Step(s: Stream, op: Op): Stream
  {
    match op
    case Push(data) =>
      if Claimed(s) == TOKEN_SLOTS
      then Stream(s.pushed + [Cut(data)], (s.tail + 1) % LAPS, s.dropped + 1)
      else s.(pushed := s.pushed + [Cut(data)])
    case Consume(n) => s.(tail := (s.tail + n) % LAPS)
    case View(_) => s
  }

  function After(s: Stream, ops: seq<Op>): Stream
    decreases |ops|
  {
    if ops == [] then s else After(Step(s, ops[0]), ops[1..])
  }

  /** What a call shows. */
  function Seen(s: Stream, op: Op): seq<Option<seq<Token>>>
  {
    if op.View? then [Sight(s, op.max)] else []
  }

  /** What the views of a run show. */
  function Sights(s: Stream, ops: seq<Op>): seq<Option<seq<Token>>>
    decreases |ops|
  {
    if ops == [] then []
    else Seen(s, ops[0]) + Sights(Step(s, ops[0]), ops[1..])
  }

  // ---------------------------------------------------------------- first in, first out

  /** The reader has `gone` tokens behind it, taken or dropped, and the rest are in the ring. */
  predicate InStep(s: Stream, gone: nat)
  {
    gone <= |s.pushed| <= gone + TOKEN_SLOTS && s.tail == gone % LAPS
  }

  /** A slot keeps its token until the ring went all the way round. */
  lemma {:induction false} ShownLatest(pushed: seq<Token>, k: nat, p: nat)
    requires k < |pushed| <= k + TOKEN_SLOTS && Place(k) == Place(p)
    ensures Shown(pushed, p) == pushed[k]
  {
    var last := |pushed| - 1;
    if k < last {
      PlacesApart(k, last);
      ShownLatest(pushed[..last], k, p);
    }
  }

  lemma OldestShown(s: Stream, gone: nat, n: nat)
    requires InStep(s, gone) && gone + n <= |s.pushed|
    ensures ShownFrom(s.pushed, s.tail, n) == s.pushed[gone..gone + n]
  {
    var shown, oldest := ShownFrom(s.pushed, s.tail, n), s.pushed[gone..gone + n];
    forall k | 0 <= k < n ensures shown[k] == oldest[k] {
      PlaceOfPosition(gone);
      PlaceFrom(s.tail, k);
      PlaceFrom(gone, k);
      ShownLatest(s.pushed, gone + k, s.tail + k);
    }
  }

  /** Then it claims what is there, and a view shows the oldest tokens in order. */
  lemma SightExact(s: Stream, gone: nat, max: nat)
    requires InStep(s, gone)
    ensures Claimed(s) == |s.pushed| - gone
    ensures Sight(s, max) == Some(s.pushed[gone..gone + Least(|s.pushed| - gone, max)])
  {
    DistanceOf(|s.pushed|, gone);
    PlaceOfPosition(gone);
    OldestShown(s, gone, Least(|s.pushed| - gone, max));
  }

  /** The length goes down by what was consumed exactly when so much was there. */
  lemma OverConsumed(s: Stream, gone: nat, n: nat)
    requires InStep(s, gone)
    ensures Claimed(Step(s, Consume(n))) == |s.pushed| - gone - n <==> n <= |s.pushed| - gone
    ensures n <= |s.pushed| - gone ==> InStep(Step(s, Consume(n)), gone + n)
  {
    AddMod(gone, n);
    if n <= |s.pushed| - gone {
      DistanceOf(|s.pushed|, gone + n);
    }
  }

  lemma PushInStep(s: Stream, gone: nat, data: seq<Byte>)
    requires InStep(s, gone)
    ensures var t := Step(s, Push(data));
            t.dropped >= s.dropped && InStep(t, gone + (t.dropped - s.dropped))
  {
    SightExact(s, gone, 0);
    AddMod(gone, 1);
  }

  /** The reader never consumes more than the ring claims. */
  predicate Careful(s: Stream, ops: seq<Op>)
    decreases |ops|
  {
    ops == [] || ((ops[0].Consume? ==> ops[0].n <= Claimed(s)) && Careful(Step(s, ops[0]), ops[1..]))
  }

  /** The tokens pushed in a run, and the number consumed. */
  function Tokens(ops: seq<Op>): seq<Token>
    decreases |ops|
  {
    if ops == [] then [] else (if ops[0].Push? then [Cut(ops[0].data)] else []) + Tokens(ops[1..])
  }

  function Taken(ops: seq<Op>): nat
    decreases |ops|
  {
    if ops == [] then 0 else (if ops[0].Consume? then ops[0].n else 0) + Taken(ops[1..])
  }

  /** No run changes or loses a token of the past: the history only grows, by the tokens of its pushes. */
  lemma {:induction false} History(s: Stream, ops: seq<Op>)
    ensures After(s, ops).pushed == s.pushed + Tokens(ops) && After(s, ops).dropped >= s.dropped
    decreases |ops|
  {
    if ops == [] {
      assert s.pushed + [] == s.pushed;
    } else {
      var t := Step(s, ops[0]);
      History(t, ops[1..]);
      var now := if ops[0].Push? then [Cut(ops[0].data)] else [];
      assert t.pushed == s.pushed + now;
      assert s.pushed + now + Tokens(ops[1..]) == s.pushed + (now + Tokens(ops[1..]));
    }
  }

  /** In a careful run every token is consumed, dropped or still there, and nothing else is. */
  lemma {:induction false} EveryToken(s: Stream, gone: nat, ops: seq<Op>)
    requires InStep(s, gone) && Careful(s, ops)
    ensures var t := After(s, ops);
            t.dropped >= s.dropped && InStep(t, gone + Taken(ops) + (t.dropped - s.dropped))
    decreases |ops|
  {
    if ops != [] {
      var t := Step(s, ops[0]);
      match ops[0] {
        case Push(data) => PushInStep(s, gone, data);
        case Consume(n) =>
          SightExact(s, gone, 0);
          OverConsumed(s, gone, n);
        case View(_) =>
      }
      var taken := if ops[0].Consume? then ops[0].n else 0;
      EveryToken(t, gone + taken + (t.dropped - s.dropped), ops[1..]);
      History(t, ops[1..]);
    }
  }

  // ---------------------------------------------------------------- the ring

  function Payloads(slots: seq<TokenSlot>): (r: seq<Token>)
    ensures |r| == |slots| && forall k :: 0 <= k < |r| ==> r[k] == Payload(slots[k])
  {
    seq(|slots|, k requires 0 <= k < |slots| => Payload(slots[k]))
  }

  /** Every slot holds what the history says. */
  ghost predicate Holds(ring: seq<TokenSlot>, pushed: seq<Token>)
  {
    |ring| == TOKEN_SLOTS && forall p :: 0 <= p < TOKEN_SLOTS ==> Payload(ring[p]) == Shown(pushed, p)
  }

  lemma {:induction false} ShownAtPlace(pushed: seq<Token>, p: nat)
    ensures Shown(pushed, Place(p)) == Shown(pushed, p)
  {
    if pushed != [] {
      ShownAtPlace(pushed[..|pushed| - 1], p);
    }
  }

  lemma HoldsNext(ring: seq<TokenSlot>, pushed: seq<Token>, slot: TokenSlot)
    requires Holds(ring, pushed)
    ensures Holds(ring[Place(|pushed|) := slot], pushed + [Payload(slot)])
  {
  }

  /** `n` slots of the ring from slot `t` on, around its end. */
  function Windows(ring: seq<TokenSlot>, t: nat, n: nat): seq<TokenSlot>
    requires |ring| == TOKEN_SLOTS && t < TOKEN_SLOTS && t + n <= LAPS
  {
    if t + n <= TOKEN_SLOTS then ring[t..t + n] else ring[t..] + ring[..t + n - TOKEN_SLOTS]
  }

  lemma WindowAt(ring: seq<TokenSlot>, t: nat, n: nat, k: nat)
    requires |ring| == TOKEN_SLOTS && t < TOKEN_SLOTS && t + n <= LAPS && k < n
    ensures Windows(ring, t, n)[k] == ring[Place(t + k)]
  {
  }

  lemma WindowsShow(ring: seq<TokenSlot>, s: Stream, max: nat)
    requires Holds(ring, s.pushed) && InBounds(s, max)
    ensures Sight(s, max) == Some(Payloads(Windows(ring, Place(s.tail), Least(Claimed(s), max))))
  {
    var n, t := Least(Claimed(s), max), Place(s.tail);
    var shown, windows := ShownFrom(s.pushed, s.tail, n), Payloads(Windows(ring, t, n));
    forall k | 0 <= k < n ensures shown[k] == windows[k] {
      WindowAt(ring, t, n, k);
      PlaceFrom(s.tail, k);
      ShownAtPlace(s.pushed, s.tail + k);
    }
    assert shown == windows;
  }

  class TokenPipe {
    const ring: array<TokenSlot>
    var head: nat
    var tail: nat
    var dropped: nat

    /** All tokens ever pushed. */
    ghost var pushed: seq<Token>

    ghost predicate Valid()
      reads this, ring
    {
      head == |pushed| % LAPS && tail < LAPS && Holds(ring[..], pushed)
    }

    ghost function State(): Stream
      reads this
    {
      Stream(pushed, tail, dropped)
    }

    constructor ()
      ensures Valid() && State() == Stream([], 0, 0) && fresh(ring)
    {
      ring := new TokenSlot[TOKEN_SLOTS](_ => TokenSlot(0, seq(TOKEN_MAX, _ => 0)));
      head, tail, dropped := 0, 0, 0;
      pushed := [];
    }

    method Len() returns (n: nat)
      requires Valid()
      ensures n == Claimed(State())
    {
      n := Distance(head, tail);
    }

    method Push(data: seq<Byte>)
      requires Valid()
      modifies this, ring
      ensures Valid() && State() == Step(old(State()), Op.Push(data))
    {
      var n := Least(|data|, TOKEN_MAX);
      var len := Len();
      if len == TOKEN_SLOTS {
        tail := (tail + 1) % LAPS;
        dropped := dropped + 1;
      }
      PlaceOfPosition(|pushed|);
      var at := head % TOKEN_SLOTS;
      var slot := TokenSlot(n, data[..n] + ring[at].data[n..]);
      assert Payload(slot) == Cut(data);
      HoldsNext(ring[..], pushed, slot);
      ring[at] := slot;
      AddMod(|pushed|, 1);
      head := (head + 1) % LAPS;
      pushed := pushed + [Cut(data)];
    }

    /** Two windows into the ring. */
    method View(max: nat) returns (r: Option<(seq<TokenSlot>, seq<TokenSlot>)>)
      requires Valid()
      ensures Sight(State(), max) == if r.Some? then Some(Payloads(r.value.0 + r.value.1)) else None
    {
      var len := Len();
      var n := Least(len, max);
      if InBounds(State(), max) {
        WindowsShow(ring[..], State(), max);
      }
      if n == 0 {
        return Some(([], []));
      }
      var t := tail % TOKEN_SLOTS;
      var run := Least(TOKEN_SLOTS - t, n);
      if run < n && n - run > TOKEN_SLOTS {
        return None;
      }
      r := Some(if run == n then (ring[t..t + run], []) else (ring[t..], ring[..n - run]));
      assert r.value.0 + r.value.1 == Windows(ring[..], t, n);
    }

    method Consume(n: nat)
      requires Valid()
      modifies this`tail
      ensures Valid() && State() == Step(old(State()), Op.Consume(n))
    {
      tail := (tail + n) % LAPS;
    }
  }

  /** One token, two consumed: the ring claims 511 tokens, and looking at them is out of range. */
  method ViewPanics() returns (len: nat, r: Option<(seq<TokenSlot>, seq<TokenSlot>)>)
    ensures len == 511 && r == None
  {
    var p := new TokenPipe();
    p.Push([]);
    p.Consume(2);
    len := p.Len();
    r := p.View(len);
  }

  /** After the first `k` calls the stream is at `now`, and they showed `sights`. */
  ghost predicate Follows(s: Stream, ops: seq<Op>, k: nat, now: Stream, sights: seq<Option<seq<Token>>>)
  {
    k <= |ops| && After(now, ops[k..]) == After(s, ops) && sights + Sights(now, ops[k..]) == Sights(s, ops)
  }

  lemma FollowsOn(s: Stream, ops: seq<Op>, k: nat, now: Stream, sights: seq<Option<seq<Token>>>)
    requires k < |ops| && Follows(s, ops, k, now, sights)
    ensures Follows(s, ops, k + 1, Step(now, ops[k]), sights + Seen(now, ops[k]))
  {
  }

  method Perform(p: TokenPipe, op: Op) returns (seen: seq<Option<seq<Token>>>)
    requires p.Valid()
    modifies p, p.ring
    ensures p.Valid() && p.State() == Step(old(p.State()), op) && seen == Seen(old(p.State()), op)
  {
    seen := [];
    match op
    case Push(data) => p.Push(data);
    case Consume(n) => p.Consume(n);
    case View(max) =>
      var r := p.View(max);
      seen := [if r.Some? then Some(Payloads(r.value.0 + r.value.1)) else None];
  }

  /** Every run, with any arguments, ends where the stream ends, and its views show what the stream shows. */
  method Run(p: TokenPipe, ops: seq<Op>) returns (sights: seq<Option<seq<Token>>>)
    requires p.Valid()
    modifies p, p.ring
    ensures p.Valid() && p.State() == After(old(p.State()), ops) && sights == Sights(old(p.State()), ops)
  {
    sights := [];
    assert ops[0..] == ops;
    for k := 0 to |ops|
      invariant p.Valid() && Follows(old(p.State()), ops, k, p.State(), sights)
    {
      FollowsOn(old(p.State()), ops, k, p.State(), sights);
      var seen := Perform(p, ops[k]);
      sights := sights + seen;
    }
  }
}
