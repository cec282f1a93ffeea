/**
 The VMA table of one address space (kernel/src/mm/vma.rs): interval splitting in place in
 a fixed array of slots, and the mmap address search.
 */
module Vma {
  import opened Common
  import opened Pmm

  const MAX_VMAS: nat := 1024
  const USER_MMAP_BASE: nat := 0x2000_0000
  const USER_MMAP_LIMIT: nat := 0x7FFF_FFFF_F000

  datatype Region = Region(start: nat, end: nat, prot: nat, active: bool)

  const EMPTY := Region(0, 0, 0, false)

  predicate Covers(v: Region, a: nat)
  {
    v.active && v.start <= a < v.end
  }

  /** The region meets [start, end), the overlap test of every operation. */
  predicate Meets(v: Region, start: nat, end: nat)
  {
    v.active && v.start < end && v.end > start
  }

  /** The region reaches past [start, end) on both sides. */
  predicate Encloses(v: Region, start: nat, end: nat)
  {
    Meets(v, start, end) && v.start < start && v.end > end
  }

  predicate Apart(v: Region, w: Region)
  {
    v.active && w.active ==> v.end <= w.start || w.end <= v.start
  }

  /** Active regions are non-empty and pairwise disjoint. */
  ghost predicate Disjoint(vs: seq<Region>)
  {
    && (forall i :: 0 <= i < |vs| && vs[i].active ==> vs[i].start < vs[i].end)
    && (forall i, j :: 0 <= i < j < |vs| ==> Apart(vs[i], vs[j]))
  }

  /** Index of the first region at or after `i` that covers `a`. */
  function FirstCover(vs: seq<Region>, a: nat, i: nat): (k: nat)
    requires i <= |vs|
    ensures i <= k <= |vs|
    ensures k < |vs| ==> Covers(vs[k], a)
    ensures forall j :: i <= j < k ==> !Covers(vs[j], a)
    decreases |vs| - i
  {
    if i == |vs| || Covers(vs[i], a) then i else FirstCover(vs, a, i + 1)
  }

  /** The protection at an address; None where nothing is mapped. */
  function ProtAt(vs: seq<Region>, a: nat): Option<nat>
  {
    var k := FirstCover(vs, a, 0);
    if k < |vs| then Some(vs[k].prot) else None
  }

  lemma ProtOf(vs: seq<Region>, a: nat, k: nat)
    requires Disjoint(vs) && k < |vs| && Covers(vs[k], a)
    ensures ProtAt(vs, a) == Some(vs[k].prot)
  {
  }

  /** What rewriting slot `i` does, while the table stays disjoint. */
  lemma Rewritten(vs: seq<Region>, i: nat, v: Region, a: nat)
    requires i < |vs| && Disjoint(vs) && Disjoint(vs[i := v])
    ensures ProtAt(vs[i := v], a) ==
            if Covers(v, a) then Some(v.prot) else if Covers(vs[i], a) then None else ProtAt(vs, a)
  {
    var ws := vs[i := v];
    if Covers(v, a) {
      ProtOf(ws, a, i);
    } else if Covers(vs[i], a) {
      forall j | 0 <= j < |vs|
        ensures !Covers(ws[j], a)
      {
        assert j < i ==> Apart(vs[j], vs[i]);
        assert i < j ==> Apart(vs[i], vs[j]);
      }
    } else {
      assert forall j :: 0 <= j < |vs| ==> (Covers(ws[j], a) <==> Covers(vs[j], a));
      var k := FirstCover(ws, a, 0);
      if k < |vs| {
        ProtOf(vs, a, k);
      }
    }
  }

  /** Shrinking a region, or filling a slot with a region apart from all others, keeps the table disjoint. */
  lemma StaysDisjoint(vs: seq<Region>, i: nat, v: Region)
    requires i < |vs| && Disjoint(vs)
    requires v.active ==> v.start < v.end
    requires forall j :: 0 <= j < |vs| && j != i ==> Apart(vs[j], v)
    ensures Disjoint(vs[i := v])
  {
  }

  /** A free slot that takes an interval keeps the table disjoint exactly when no region meets the interval. */
  lemma InsertKeeps(vs: seq<Region>, k: nat, start: nat, end: nat, prot: nat)
    requires Disjoint(vs) && k < |vs| && !vs[k].active && start < end
    ensures Disjoint(vs[k := Region(start, end, prot, true)]) <==> forall j :: 0 <= j < |vs| ==> !Meets(vs[j], start, end)
  {
    var ws := vs[k := Region(start, end, prot, true)];
    if forall j :: 0 <= j < |vs| ==> !Meets(vs[j], start, end) {
      StaysDisjoint(vs, k, ws[k]);
    } else {
      var j :| 0 <= j < |vs| && Meets(vs[j], start, end);
      assert ws[j] == vs[j] && !Apart(ws[j], ws[k]) && !Apart(ws[k], ws[j]);
    }
  }

  /** Outside [start, end) both tables say the same, inside the new one says `inside`. */
  ghost predicate Carved(vs: seq<Region>, ws: seq<Region>, start: nat, end: nat, inside: Option<nat>)
  {
    forall a: nat :: ProtAt(ws, a) == if start <= a < end then inside else ProtAt(vs, a)
  }

  ghost predicate HasRoom(vs: seq<Region>)
  {
    exists i :: 0 <= i < |vs| && !vs[i].active
  }

  /** Some region reaches past [start, end) on both sides, and there is no slot for its second half. */
  ghost predicate NoRoomToSplit(vs: seq<Region>, start: nat, end: nat)
  {
    !HasRoom(vs) && exists i :: 0 <= i < |vs| && Encloses(vs[i], start, end)
  }

  // ---------------------------------------------------------------- vma_check

  predicate Accessible(v: Region, a: nat)
  {
    Covers(v, a) && v.prot != 0
  }

  /** Slot `k` is the first of the smallest accessible regions among the first `n`. */
  ghost predicate Smallest(vs: seq<Region>, a: nat, k: nat, n: nat)
  {
    && k < n <= |vs| && Accessible(vs[k], a)
    && (forall j :: 0 <= j < n && Accessible(vs[j], a) ==> vs[k].end - vs[k].start <= vs[j].end - vs[j].start)
    && (forall j :: 0 <= j < k && Accessible(vs[j], a) ==> vs[k].end - vs[k].start < vs[j].end - vs[j].start)
  }

  function NonZero(r: Option<nat>): Option<nat>
  {
    if r.Some? && r.value == 0 then None else r
  }

  /** On a disjoint table vma_check is vma_query without PROT_NONE. */
  lemma CheckIsQuery(vs: seq<Region>, a: nat, r: Option<nat>, k: nat)
    requires Disjoint(vs)
    requires r.None? ==> forall j :: 0 <= j < |vs| ==> !Accessible(vs[j], a)
    requires r.Some? ==> k < |vs| && Accessible(vs[k], a) && r.value == vs[k].prot
    ensures r == NonZero(ProtAt(vs, a))
  {
  }

  // ---------------------------------------------------------------- splitting

  /** The table `vs` after the loop of split_overlapping_vmas passed the slots below `i` of `os`. */
  ghost predicate Splitting(os: seq<Region>, vs: seq<Region>, start: nat, end: nat, i: nat)
  {
    var splitting :=
      && |vs| == |os| && i <= |os|
      && Disjoint(vs)
      && (forall a: nat :: a < start || a >= end ==> ProtAt(vs, a) == ProtAt(os, a))
      && (forall j :: 0 <= j < i ==> !Meets(vs[j], start, end))
      && (forall j :: i <= j < |os| ==> vs[j] == os[j] || (!os[j].active && !Meets(vs[j], start, end)))
      && (vs == os || exists j :: 0 <= j < i && Meets(os[j], start, end))
      && ((exists j :: 0 <= j < i && Encloses(os[j], start, end)) ==> HasRoom(os));
    splitting
  }

  /**
   The outcome of split_overlapping_vmas: the range is carved out exactly when no enclosing region lacks
   a slot for its tail; otherwise everything from `start` to the end of that region is unmapped.
   */
  ghost predicate SplitResult(os: seq<Region>, vs: seq<Region>, start: nat, end: nat, ok: bool)
  {
    var result :=
      && Disjoint(vs)
      && (ok <==> !NoRoomToSplit(os, start, end))
      && (ok <==> Carved(os, vs, start, end, None))
      && (!ok ==> exists i :: 0 <= i < |os| && Encloses(os[i], start, end) && Carved(os, vs, start, os[i].end, None));
    result
  }

  /** A slot that does not meet the range, or loses its part of it, moves the loop on. */
  lemma SplitShrink(os: seq<Region>, vs: seq<Region>, start: nat, end: nat, i: nat, v: Region)
    requires Disjoint(os) && start <= end && i < |os|
    requires Splitting(os, vs, start, end, i)
    requires !Encloses(vs[i], start, end)
    requires v == (if !Meets(vs[i], start, end) then vs[i]
                   else if vs[i].start < start then vs[i].(end := start)
                   else if vs[i].end > end then vs[i].(start := end)
                   else vs[i].(active := false))
    ensures Splitting(os, vs[i := v], start, end, i + 1)
  {
    var ws := vs[i := v];
    if Meets(vs[i], start, end) {
      forall j | 0 <= j < |vs| && j != i
        ensures Apart(vs[j], v)
      {
        assert j < i ==> Apart(vs[j], vs[i]);
        assert i < j ==> Apart(vs[i], vs[j]);
      }
      StaysDisjoint(vs, i, v);
      forall a: nat | a < start || a >= end
        ensures ProtAt(ws, a) == ProtAt(os, a)
      {
        Rewritten(vs, i, v, a);
        if Covers(vs[i], a) {
          ProtOf(vs, a, i);
        }
      }
      assert Meets(os[i], start, end);
    } else {
      assert ws == vs;
    }
  }

  /** The only region that meets the range of a region enclosing it is that region. */
  lemma EncloserAlone(os: seq<Region>, start: nat, end: nat, i: nat, j: nat)
    requires Disjoint(os) && start <= end && i < |os| && j < |os| && i != j
    requires Encloses(os[i], start, end)
    ensures !Meets(os[j], start, end)
  {
  }

  /** Cutting an enclosing region down to its head: the rest of it is unmapped. */
  lemma SplitHead(os: seq<Region>, vs: seq<Region>, start: nat, end: nat, i: nat)
    requires Disjoint(os) && start <= end && i < |os|
    requires Splitting(os, vs, start, end, i)
    requires Encloses(vs[i], start, end)
    ensures vs == os
    ensures Disjoint(os[i := os[i].(end := start)])
    ensures Carved(os, os[i := os[i].(end := start)], start, os[i].end, None)
    ensures HasRoom(os[i := os[i].(end := start)]) <==> HasRoom(os)
  {
    forall j | 0 <= j < i
      ensures !Meets(os[j], start, end)
    {
      EncloserAlone(os, start, end, i, j);
    }
    CutHead(os, start, i);
  }

  /** Cutting a region down to its head unmaps the rest of it. */
  lemma CutHead(os: seq<Region>, start: nat, i: nat)
    requires Disjoint(os) && i < |os| && os[i].active && os[i].start < start <= os[i].end
    ensures var ws := os[i := os[i].(end := start)];
            Disjoint(ws) && Carved(os, ws, start, os[i].end, None) && (HasRoom(ws) <==> HasRoom(os))
  {
    var v := os[i].(end := start);
    var ws := os[i := v];
    forall j | 0 <= j < |os| && j != i
      ensures Apart(os[j], v)
    {
      assert j < i ==> Apart(os[j], os[i]);
      assert i < j ==> Apart(os[i], os[j]);
    }
    StaysDisjoint(os, i, v);
    forall a: nat
      ensures ProtAt(ws, a) == if start <= a < os[i].end then None else ProtAt(os, a)
    {
      Rewritten(os, i, v, a);
      if Covers(os[i], a) {
        ProtOf(os, a, i);
      }
    }
    assert forall j :: 0 <= j < |os| ==> ws[j].active == os[j].active;
  }

  /** Putting the tail of the enclosing region into a free slot restores what was cut off beyond the range. */
  lemma SplitTail(os: seq<Region>, ws: seq<Region>, start: nat, end: nat, i: nat, k: nat)
    requires Disjoint(os) && start <= end && i < |os| && k < |os|
    requires Encloses(os[i], start, end)
    requires ws == os[i := os[i].(end := start)] && Disjoint(ws) && Carved(os, ws, start, os[i].end, None)
    requires !ws[k].active
    ensures Splitting(os, ws[k := Region(end, os[i].end, os[i].prot, true)], start, end, i + 1)
  {
    var v := Region(end, os[i].end, os[i].prot, true);
    var us := ws[k := v];
    forall j | 0 <= j < |os| && j != k
      ensures Apart(ws[j], v)
    {
      assert j < i ==> Apart(os[j], os[i]);
      assert i < j ==> Apart(os[i], os[j]);
    }
    StaysDisjoint(ws, k, v);
    forall a: nat | a < start || a >= end
      ensures ProtAt(us, a) == ProtAt(os, a)
    {
      Rewritten(ws, k, v, a);
      if Covers(v, a) {
        ProtOf(os, a, i);
      }
    }
    forall j | 0 <= j < |os| && j != i
      ensures !Meets(us[j], start, end) && (j != k ==> us[j] == os[j])
    {
      EncloserAlone(os, start, end, i, j);
    }
    assert !os[k].active;
  }

  /** After the loop the range is carved out, and a region enclosing it found room for its tail. */
  lemma SplitDone(os: seq<Region>, vs: seq<Region>, start: nat, end: nat)
    requires Splitting(os, vs, start, end, |os|)
    ensures Disjoint(vs) && Carved(os, vs, start, end, None)
    ensures !NoRoomToSplit(os, start, end)
  {
  }

  /** Filling a carved-out range with a new region. */
  lemma AddDone(os: seq<Region>, vs: seq<Region>, start: nat, end: nat, prot: nat, k: nat)
    requires start < end && Disjoint(vs) && Carved(os, vs, start, end, None) && k < |vs| && !vs[k].active
    ensures var ws := vs[k := Region(start, end, prot, true)]; Disjoint(ws) && Carved(os, ws, start, end, Some(prot))
  {
    var v := Region(start, end, prot, true);
    forall j | 0 <= j < |vs|
      ensures !Meets(vs[j], start, end)
    {
      if Meets(vs[j], start, end) {
        var a := if vs[j].start < start then start else vs[j].start;
        ProtOf(vs, a, j);
        assert false;
      }
    }
    InsertKeeps(vs, k, start, end, prot);
    var ws := vs[k := v];
    forall a: nat
      ensures ProtAt(ws, a) == if start <= a < end then Some(prot) else ProtAt(os, a)
    {
      Rewritten(vs, k, v, a);
      assert ProtAt(vs, a) == if start <= a < end then None else ProtAt(os, a);
    }
  }

  /** What is lost when there is no slot for the tail, and that it is lost. */
  lemma TailLost(os: seq<Region>, ws: seq<Region>, start: nat, end: nat, i: nat)
    requires Disjoint(os) && start <= end && i < |os| && Encloses(os[i], start, end)
    requires Carved(os, ws, start, os[i].end, None)
    ensures !Carved(os, ws, start, end, None)
  {
    ProtOf(os, end, i);
    assert ProtAt(ws, end) == None;
  }

  // ---------------------------------------------------------------- a range that ends before it starts

  ghost predicate SameProt(os: seq<Region>, vs: seq<Region>)
  {
    forall a: nat :: ProtAt(vs, a) == ProtAt(os, a)
  }

  ghost predicate SomeMeets(os: seq<Region>, start: nat, end: nat)
  {
    exists i :: 0 <= i < |os| && Meets(os[i], start, end)
  }

  /** The enclosing region at `i` as head and tail, the tail in slot `k`. */
  function Torn(os: seq<Region>, start: nat, end: nat, i: nat, k: nat): seq<Region>
    requires i < |os| && k < |os|
  {
    os[i := os[i].(end := start)][k := Region(end, os[i].end, os[i].prot, true)]
  }

  /**
   The outcome when start > end (the sums in the callers wrapped): a region around both ends is torn into
   two that overlap, with every protection kept, or without a free slot loses its tail.
   */
  ghost predicate SplitBackwards(os: seq<Region>, vs: seq<Region>, start: nat, end: nat, ok: bool)
  {
    var result :=
      && (ok <==> !SomeMeets(os, start, end) || HasRoom(os))
      && (Disjoint(vs) <==> !SomeMeets(os, start, end) || !HasRoom(os))
      && (!SomeMeets(os, start, end) ==> vs == os)
      && (ok <==> SameProt(os, vs))
      && (!ok ==> exists i :: 0 <= i < |os| && Meets(os[i], start, end) && Carved(os, vs, start, os[i].end, None));
    result
  }

  /** The loop with start > end: untouched so far, or one region torn. */
  ghost predicate Backing(os: seq<Region>, vs: seq<Region>, start: nat, end: nat, i: nat)
  {
    var backing := i <= |os| && (
      || (vs == os && forall j :: 0 <= j < i ==> !Meets(os[j], start, end))
      || exists j, k :: 0 <= j < i && 0 <= k < |os| && Meets(os[j], start, end) && !os[k].active && vs == Torn(os, start, end, j, k));
    backing
  }

  lemma BackMeets(os: seq<Region>, vs: seq<Region>, start: nat, end: nat, i: nat)
    requires Disjoint(os) && start > end && i < |os| && Backing(os, vs, start, end, i)
    ensures |vs| == |os| && (Meets(vs[i], start, end) ==> vs == os)
    ensures !Meets(vs[i], start, end) ==> Backing(os, vs, start, end, i + 1)
  {
  }

  /** Tearing keeps every protection but not the disjointness. */
  lemma TornKeeps(os: seq<Region>, start: nat, end: nat, i: nat, k: nat)
    requires Disjoint(os) && start > end && i < |os| && k < |os| && Meets(os[i], start, end) && !os[k].active
    ensures var us := Torn(os, start, end, i, k); SameProt(os, us) && !Disjoint(us)
  {
    var us := Torn(os, start, end, i, k);
    assert !Apart(us[i], us[k]) && !Apart(us[k], us[i]);
    forall a: nat
      ensures ProtAt(us, a) == ProtAt(os, a)
    {
      TornProt(os, start, end, i, k, a);
    }
  }

  lemma TornProt(os: seq<Region>, start: nat, end: nat, i: nat, k: nat, a: nat)
    requires Disjoint(os) && start > end && i < |os| && k < |os| && Meets(os[i], start, end) && !os[k].active
    ensures ProtAt(Torn(os, start, end, i, k), a) == ProtAt(os, a)
  {
    var us := Torn(os, start, end, i, k);
    if Covers(os[i], a) {
      ProtOf(os, a, i);
      assert Covers(us[i], a) || Covers(us[k], a);
      forall j | 0 <= j < |os| && j != i && j != k
        ensures !Covers(us[j], a)
      {
        assert j < i ==> Apart(os[j], os[i]);
        assert i < j ==> Apart(os[i], os[j]);
      }
      var f := FirstCover(us, a, 0);
      assert f == i || f == k;
    } else {
      assert forall j :: 0 <= j < |os| ==> (Covers(us[j], a) <==> Covers(os[j], a));
      assert FirstCover(us, a, 0) == FirstCover(os, a, 0);
    }
  }

  lemma BackDone(os: seq<Region>, vs: seq<Region>, start: nat, end: nat)
    requires Disjoint(os) && start > end && Backing(os, vs, start, end, |os|)
    ensures SplitBackwards(os, vs, start, end, true)
  {
    if vs != os {
      var j, k :| 0 <= j < |os| && 0 <= k < |os| && Meets(os[j], start, end) && !os[k].active && vs == Torn(os, start, end, j, k);
      TornKeeps(os, start, end, j, k);
    } else if SomeMeets(os, start, end) {
      var j, k :| 0 <= j < |os| && 0 <= k < |os| && Meets(os[j], start, end) && !os[k].active && vs == Torn(os, start, end, j, k);
      TornKeeps(os, start, end, j, k);
    }
  }

  // ---------------------------------------------------------------- the loop, whichever end comes first

  ghost predicate Stage(os: seq<Region>, vs: seq<Region>, start: nat, end: nat, i: nat)
  {
    |vs| == |os| && (Disjoint(os) ==> if start <= end then Splitting(os, vs, start, end, i) else Backing(os, vs, start, end, i))
  }

  /** What split_overlapping_vmas leaves of a disjoint table. */
  ghost predicate Outcome(os: seq<Region>, vs: seq<Region>, start: nat, end: nat, ok: bool)
  {
    Disjoint(os) ==> if start <= end then SplitResult(os, vs, start, end, ok) else SplitBackwards(os, vs, start, end, ok)
  }

  lemma StageStart(os: seq<Region>, start: nat, end: nat)
    ensures Stage(os, os, start, end, 0)
  {
  }

  lemma StageSkip(os: seq<Region>, vs: seq<Region>, start: nat, end: nat, i: nat)
    requires Stage(os, vs, start, end, i) && i < |os| && !Meets(vs[i], start, end)
    ensures Stage(os, vs, start, end, i + 1)
  {
  }

  lemma StageShrink(os: seq<Region>, vs: seq<Region>, start: nat, end: nat, i: nat, w: Region)
    requires Stage(os, vs, start, end, i) && i < |os| && Meets(vs[i], start, end) && !Encloses(vs[i], start, end)
    requires w == if vs[i].start < start then vs[i].(end := start)
                  else if vs[i].end > end then vs[i].(start := end)
                  else vs[i].(active := false)
    ensures Stage(os, vs[i := w], start, end, i + 1)
  {
    if Disjoint(os) && start <= end {
      SplitShrink(os, vs, start, end, i, w);
    }
  }

  /** Cutting an enclosing region down to its head; without a slot for the tail that is the end of it. */
  lemma StageHead(os: seq<Region>, vs: seq<Region>, start: nat, end: nat, i: nat, ws: seq<Region>)
    requires Stage(os, vs, start, end, i) && i < |os| && Meets(vs[i], start, end) && Encloses(vs[i], start, end)
    requires ws == vs[i := vs[i].(end := start)]
    ensures !HasRoom(ws) ==> Outcome(os, ws, start, end, false)
  {
    if Disjoint(os) && start <= end {
      SplitHead(os, vs, start, end, i);
      TailLost(os, ws, start, end, i);
    } else if Disjoint(os) {
      BackMeets(os, vs, start, end, i);
      CutHead(os, start, i);
      ProtOf(os, start, i);
      assert ProtAt(ws, start) == None;
    }
  }

  lemma StageTail(os: seq<Region>, vs: seq<Region>, start: nat, end: nat, i: nat, ws: seq<Region>, k: nat)
    requires Stage(os, vs, start, end, i) && i < |os| && Meets(vs[i], start, end) && Encloses(vs[i], start, end)
    requires ws == vs[i := vs[i].(end := start)] && k < |os| && !ws[k].active
    ensures Stage(os, ws[k := Region(end, vs[i].end, vs[i].prot, true)], start, end, i + 1)
  {
    if Disjoint(os) && start <= end {
      SplitHead(os, vs, start, end, i);
      SplitTail(os, ws, start, end, i, k);
    } else if Disjoint(os) {
      BackMeets(os, vs, start, end, i);
      assert ws[k := Region(end, vs[i].end, vs[i].prot, true)] == Torn(os, start, end, i, k);
    }
  }

  lemma StageDone(os: seq<Region>, vs: seq<Region>, start: nat, end: nat)
    requires Stage(os, vs, start, end, |os|)
    ensures Outcome(os, vs, start, end, true)
  {
    if Disjoint(os) && start <= end {
      SplitDone(os, vs, start, end);
    } else if Disjoint(os) {
      BackDone(os, vs, start, end);
    }
  }

  // ---------------------------------------------------------------- the mmap address search

  /** `(x + 4095) & !4095` on usize. */
  function WrapUp(x: nat): nat
  {
    (x + PAGE_SIZE - 1) % USIZE / PAGE_SIZE * PAGE_SIZE
  }

  lemma AlignedSum(a: nat, b: nat)
    requires a % PAGE_SIZE == 0 && b % PAGE_SIZE == 0
    ensures (a + b) % PAGE_SIZE == 0
  {
  }

  predicate Fits(vs: seq<Region>, c: nat, len: nat)
  {
    forall i :: 0 <= i < |vs| ==> !Meets(vs[i], c, c + len)
  }

  /** Where the search starts: the bump pointer, or the base when it was never moved. */
  function Candidate(next: nat): nat
  {
    if next > 0 then next else USER_MMAP_BASE
  }

  /** A region from below the limit into the last page of the address space: rounding its end up wraps. */
  predicate Towers(v: Region)
  {
    v.active && v.start < USER_MMAP_LIMIT && v.end > USIZE - PAGE_SIZE
  }

  predicate EndsLow(vs: seq<Region>)
  {
    forall i :: 0 <= i < |vs| ==> !Towers(vs[i])
  }

  /** The rounded length covers the request exactly when rounding does not wrap. */
  lemma RoundedCovers(len: nat)
    requires len < USIZE
    ensures WrapUp(len) >= len <==> len <= USIZE - PAGE_SIZE
  {
  }

  /** The largest end of the first `n` regions that meet [c, c + len), 0 if none does. */
  function ConflictEnd(vs: seq<Region>, c: nat, len: nat, n: nat): (m: nat)
    requires n <= |vs|
    ensures forall i :: 0 <= i < n && Meets(vs[i], c, c + len) ==> vs[i].end <= m
    ensures m == 0 || exists i :: 0 <= i < n && Meets(vs[i], c, c + len) && vs[i].end == m
  {
    if n == 0 then 0
    else
      var m := ConflictEnd(vs, c, len, n - 1);
      if Meets(vs[n - 1], c, c + len) && vs[n - 1].end > m then vs[n - 1].end else m
  }

  /** Every page-aligned address from `from` up to `to` is in conflict. */
  ghost predicate AllTaken(vs: seq<Region>, len: nat, from: nat, to: nat)
  {
    forall c: nat :: from <= c < to && c % PAGE_SIZE == 0 ==> !Fits(vs, c, len)
  }

  lemma RoundedNear(a: nat)
    requires a < USIZE
    ensures WrapUp(a) % PAGE_SIZE == 0
    ensures if a <= USIZE - PAGE_SIZE then a <= WrapUp(a) < a + PAGE_SIZE else WrapUp(a) == 0
  {
  }

  /** A page boundary below the rounded address is below the address. */
  lemma BoundaryBelow(d: nat, a: nat)
    requires a <= USIZE - PAGE_SIZE && d % PAGE_SIZE == 0 && d < WrapUp(a)
    ensures d < a
  {
  }

  /** Jumping to the rounded-up end of the conflicts skips only addresses in conflict, and climbs. */
  lemma JumpSkipsTaken(vs: seq<Region>, c: nat, len: nat)
    requires !Fits(vs, c, len) && c % PAGE_SIZE == 0 && c + len <= USER_MMAP_LIMIT && EndsLow(vs)
    ensures var next := WrapUp(ConflictEnd(vs, c, len, |vs|)); c < next && next % PAGE_SIZE == 0 && AllTaken(vs, len, c, next)
  {
    var m := ConflictEnd(vs, c, len, |vs|);
    var k :| 0 <= k < |vs| && Meets(vs[k], c, c + len);
    var i :| 0 <= i < |vs| && Meets(vs[i], c, c + len) && vs[i].end == m;
    var next := WrapUp(m);
    assert m <= USIZE - PAGE_SIZE by {
      assert !Towers(vs[i]);
    }
    RoundedNear(m);
    forall d: nat | c <= d < next && d % PAGE_SIZE == 0
      ensures !Fits(vs, d, len)
    {
      BoundaryBelow(d, m);
      assert Meets(vs[i], d, d + len);
    }
  }

  /** The answer of reserve_mmap_addr with the bump pointer after it, or the bump pointer for the next turn. */
  datatype Progress = Done(answer: Option<nat>, next: nat) | Searching(next: nat)

  /** One turn of the search loop for a length that is a whole number of pages. */
  function Turn(vs: seq<Region>, next: nat, len: nat): Progress
  {
    var candidate := Candidate(next);
    var endAddr := if candidate + len < USIZE then candidate + len else 0;
    if endAddr > USER_MMAP_LIMIT || endAddr == 0 then Done(None, next)
    else if Fits(vs, candidate, len) then Done(Some(candidate), endAddr)
    else Searching(WrapUp(ConflictEnd(vs, candidate, len, |vs|)))
  }

  /** At most `n` turns. */
  function Turns(vs: seq<Region>, next: nat, len: nat, n: nat): Progress
    decreases n
  {
    if n == 0 then Searching(next)
    else
      match Turn(vs, next, len)
      case Done(answer, next') => Done(answer, next')
      case Searching(next') => Turns(vs, next', len, n - 1)
  }

  /** The search from `next` returns. */
  ghost predicate Returns(vs: seq<Region>, next: nat, len: nat)
  {
    exists n :: Turns(vs, next, len, n).Done?
  }

  /** First fit: what the search answers and where it leaves the bump pointer. */
  ghost predicate Reserved(vs: seq<Region>, next: nat, next': nat, len: nat, r: Option<nat>)
  {
    && next' % PAGE_SIZE == 0 && next' >= next
    && match r
       case Some(a) =>
         && a % PAGE_SIZE == 0 && Candidate(next) <= a && next' == a + len <= USER_MMAP_LIMIT
         && Fits(vs, a, len) && AllTaken(vs, len, Candidate(next), a)
       case None =>
         forall c: nat :: Candidate(next) <= c && c % PAGE_SIZE == 0 && c + len <= USER_MMAP_LIMIT ==> !Fits(vs, c, len)
  }

  /** More turns than a search needs change nothing, so its answer is unique. */
  lemma {:induction false} TurnsStable(vs: seq<Region>, next: nat, len: nat, n: nat, m: nat)
    requires Turns(vs, next, len, n).Done? && n <= m
    ensures Turns(vs, next, len, m) == Turns(vs, next, len, n)
    decreases n
  {
    match Turn(vs, next, len)
    case Done(_, _) =>
    case Searching(next') => TurnsStable(vs, next', len, n - 1, m - 1);
  }

  /** One turn of the search without towering regions: it ends as it should, or climbs over taken ground. */
  lemma TurnClimbs(vs: seq<Region>, next: nat, len: nat)
    requires EndsLow(vs) && next % PAGE_SIZE == 0 && len % PAGE_SIZE == 0
    ensures match Turn(vs, next, len)
            case Done(r, next') => Reserved(vs, next, next', len, r)
            case Searching(next') =>
              next' % PAGE_SIZE == 0 && Candidate(next) < next' && AllTaken(vs, len, Candidate(next), next') &&
              Candidate(next) <= USER_MMAP_LIMIT
  {
    var c := Candidate(next);
    AlignedSum(c, len);
    if Turn(vs, next, len).Searching? {
      JumpSkipsTaken(vs, c, len);
    }
  }

  /** Without towering regions every search returns, with the first fit. */
  lemma {:induction false} SearchReturns(vs: seq<Region>, next: nat, len: nat) returns (n: nat)
    requires EndsLow(vs) && next % PAGE_SIZE == 0 && len % PAGE_SIZE == 0
    ensures var p := Turns(vs, next, len, n); p.Done? && Reserved(vs, next, p.next, len, p.answer)
    decreases if Candidate(next) <= USER_MMAP_LIMIT then USER_MMAP_LIMIT + 1 - Candidate(next) else 0
  {
    TurnClimbs(vs, next, len);
    match Turn(vs, next, len)
    case Done(_, _) => n := 1;
    case Searching(next') =>
      var k := SearchReturns(vs, next', len);
      n := k + 1;
      Skipped(vs, next, next', Turns(vs, next', len, k).next, len, Turns(vs, next', len, k).answer);
  }

  /** A first fit from further on is a first fit when everything before is taken. */
  lemma Skipped(vs: seq<Region>, next: nat, mid: nat, end: nat, len: nat, r: Option<nat>)
    requires Reserved(vs, mid, end, len, r) && Candidate(next) < mid && AllTaken(vs, len, Candidate(next), mid)
    ensures Reserved(vs, next, end, len, r)
  {
  }

  /** Turns(0) for ever: a request at the base that meets a towering region comes back to the start. */
  lemma {:induction false} SearchNeverReturns(vs: seq<Region>, len: nat, i: nat, n: nat)
    requires i < |vs| && Towers(vs[i]) && forall j :: 0 <= j < |vs| ==> vs[j].end < USIZE
    requires Meets(vs[i], USER_MMAP_BASE, USER_MMAP_BASE + len) && USER_MMAP_BASE + len <= USER_MMAP_LIMIT
    ensures Turns(vs, 0, len, n) == Searching(0)
  {
    if n > 0 {
      TowerWraps(vs, USER_MMAP_BASE, len, i);
      SearchNeverReturns(vs, len, i, n - 1);
    }
  }

  /** The rounded end of the conflicts with a towering region is 0. */
  lemma TowerWraps(vs: seq<Region>, c: nat, len: nat, i: nat)
    requires i < |vs| && Towers(vs[i]) && Meets(vs[i], c, c + len) && forall j :: 0 <= j < |vs| ==> vs[j].end < USIZE
    ensures WrapUp(ConflictEnd(vs, c, len, |vs|)) == 0
  {
  }

  /** The shortest request at the base that meets a region starting at `start`. */
  function Reach(start: nat): nat
  {
    if start < USER_MMAP_BASE then PAGE_SIZE else (start / PAGE_SIZE + 1) * PAGE_SIZE - USER_MMAP_BASE
  }

  /** reserve_mmap_addr returns for every request and every bump pointer exactly when no region towers. */
  lemma ReturnsIff(vs: seq<Region>)
    requires forall i :: 0 <= i < |vs| ==> vs[i].end < USIZE
    ensures (forall next: nat, len: nat :: next % PAGE_SIZE == 0 && len % PAGE_SIZE == 0 ==> Returns(vs, next, len)) <==> EndsLow(vs)
  {
    if EndsLow(vs) {
      forall next: nat, len: nat | next % PAGE_SIZE == 0 && len % PAGE_SIZE == 0
        ensures Returns(vs, next, len)
      {
        var n := SearchReturns(vs, next, len);
      }
    } else {
      var i :| 0 <= i < |vs| && Towers(vs[i]);
      TowerStuck(vs, i);
    }
  }

  lemma TowerStuck(vs: seq<Region>, i: nat)
    requires i < |vs| && Towers(vs[i]) && forall j :: 0 <= j < |vs| ==> vs[j].end < USIZE
    ensures Reach(vs[i].start) % PAGE_SIZE == 0 && !Returns(vs, 0, Reach(vs[i].start))
  {
    var len := Reach(vs[i].start);
    ReachMeets(vs[i]);
    forall n: nat
      ensures Turns(vs, 0, len, n) == Searching(0)
    {
      SearchNeverReturns(vs, len, i, n);
    }
  }

  lemma ReachMeets(v: Region)
    requires Towers(v)
    ensures var len := Reach(v.start);
            && len % PAGE_SIZE == 0 && USER_MMAP_BASE + len <= USER_MMAP_LIMIT && Meets(v, USER_MMAP_BASE, USER_MMAP_BASE + len)
  {
  }

  /** Any search that returns on a table without towering regions finds the first fit. */
  lemma FirstFit(vs: seq<Region>, next: nat, len: nat, n: nat)
    requires EndsLow(vs) && next % PAGE_SIZE == 0 && len % PAGE_SIZE == 0 && Turns(vs, next, len, n).Done?
    ensures var p := Turns(vs, next, len, n); Reserved(vs, next, p.next, len, p.answer)
  {
    var m := SearchReturns(vs, next, len);
    if m <= n {
      TurnsStable(vs, next, len, m, n);
    } else {
      TurnsStable(vs, next, len, n, m);
    }
  }

  /** vma_remove_range: the range is carved out exactly when the split had room. */
  ghost predicate RemoveOutcome(os: seq<Region>, vs: seq<Region>, start: nat, end: nat)
  {
    && (EndsLow(os) ==> EndsLow(vs))
    && (Disjoint(os) && start <= end ==>
          Disjoint(vs) && (Carved(os, vs, start, end, None) <==> !NoRoomToSplit(os, start, end)))
    && (Disjoint(os) && start > end ==>
          && (Disjoint(vs) <==> !SomeMeets(os, start, end) || !HasRoom(os))
          && (SameProt(os, vs) <==> !SomeMeets(os, start, end) || HasRoom(os)))
  }

  /** vma_add with MAP_FIXED: the range is carved out and takes the protection, or there was no room. */
  ghost predicate FixedOutcome(os: seq<Region>, vs: seq<Region>, start: nat, end: nat, prot: nat, ok: bool)
  {
    && (Disjoint(os) && start < end ==> Disjoint(vs))
    && (Disjoint(os) && start < end && ok ==> Carved(os, vs, start, end, Some(prot)))
    && (Disjoint(os) && start < end && !ok ==>
          NoRoomToSplit(os, start, end) || (!HasRoom(vs) && Carved(os, vs, start, end, None)))
    && (Disjoint(os) && start < end && NoRoomToSplit(os, start, end) ==> !ok)
    && (start >= end ==> Outcome(os, vs, start, end, ok))
  }

  /** vma_add without it: one more region in a free slot, whatever it overlaps. */
  ghost predicate PlainOutcome(os: seq<Region>, vs: seq<Region>, start: nat, end: nat, prot: nat, ok: bool)
  {
    && (ok <==> start >= end || HasRoom(os))
    && (!(ok && start < end) ==> vs == os)
    && (ok && start < end ==> exists k :: 0 <= k < |os| && !os[k].active && vs == os[k := Region(start, end, prot, true)])
    && (Disjoint(os) && start < end && ok ==> (Disjoint(vs) <==> !SomeMeets(os, start, end)))
  }

  ghost predicate AddOutcome(os: seq<Region>, vs: seq<Region>, start: nat, end: nat, prot: nat, fixed: bool, ok: bool)
  {
    && (if fixed then FixedOutcome(os, vs, start, end, prot, ok) else PlainOutcome(os, vs, start, end, prot, ok))
    && (EndsLow(os) && !Towers(Region(start, end, prot, true)) ==> EndsLow(vs))
  }

  /** ensure_mmap_above: at or above the address, moved no further than to the end of its page and never down. */
  ghost predicate Raised(limit: nat, limit': nat, minAddr: nat)
  {
    && (limit % PAGE_SIZE == 0 ==> limit' % PAGE_SIZE == 0)
    && (minAddr <= USIZE - PAGE_SIZE ==> minAddr <= limit')
    && (limit' != limit ==> limit < limit' < minAddr + PAGE_SIZE && minAddr <= USIZE - PAGE_SIZE)
  }

  class VmState {
    const vmas: array<Region>
    var nextMmap: nat
    var maxElf: nat

    constructor ()
      ensures vmas.Length == MAX_VMAS && fresh(vmas)
      ensures forall i :: 0 <= i < MAX_VMAS ==> vmas[i] == EMPTY
      ensures nextMmap == 0 && maxElf == 0
    {
      vmas := new Region[MAX_VMAS](_ => EMPTY);
      nextMmap, maxElf := 0, 0;
    }

    method Query(addr: nat) returns (r: Option<nat>)
      ensures r == ProtAt(vmas[..], addr)
    {
      for i := 0 to vmas.Length
        invariant forall j :: 0 <= j < i ==> !Covers(vmas[j], addr)
      {
        if Covers(vmas[i], addr) {
          assert FirstCover(vmas[..], addr, 0) == i;
          return Some(vmas[i].prot);
        }
      }
      return None;
    }

    /** vma_check: the protection of the smallest accessible region covering `addr`, the first of equals. */
    method Check(addr: nat) returns (r: Option<nat>)
      ensures r.None? <==> forall j :: 0 <= j < vmas.Length ==> !Accessible(vmas[j], addr)
      ensures r.Some? ==> exists k :: 0 <= k < vmas.Length && Smallest(vmas[..], addr, k, |vmas[..]|) && r.value == vmas[k].prot
      ensures Disjoint(vmas[..]) ==> r == NonZero(ProtAt(vmas[..], addr))
    {
      var bestProt: Option<nat> := None;
      var bestSize := USIZE - 1;
      ghost var k := 0;
      for i := 0 to vmas.Length
        invariant bestProt.None? ==> forall j :: 0 <= j < i ==> !Accessible(vmas[j], addr)
        invariant bestProt.Some? ==> k < i && Smallest(vmas[..], addr, k, i) && bestProt.value == vmas[k].prot
        invariant bestProt.Some? ==> bestSize == vmas[k].end - vmas[k].start
      {
        var v := vmas[i];
        if Covers(v, addr) {
          var size := v.end - v.start;
          var curAccessible := v.prot != 0;
          var bestAccessible := bestProt.Some? && bestProt.value != 0;
          if (curAccessible && !bestAccessible) || (curAccessible == bestAccessible && size < bestSize) {
            bestSize := size;
            bestProt := if v.prot == 0 then None else Some(v.prot);
            k := i;
          }
        }
      }
      r := bestProt;
      if Disjoint(vmas[..]) {
        CheckIsQuery(vmas[..], addr, r, k);
      }
    }

    /** Take the first free slot for a non-empty region; Err when there is none. */
    method Insert(start: nat, end: nat, prot: nat) returns (ok: bool)
      modifies vmas
      ensures ok <==> start >= end || old(HasRoom(vmas[..]))
      ensures !ok || start >= end ==> vmas[..] == old(vmas[..])
      ensures ok && start < end ==>
        exists k :: 0 <= k < vmas.Length && !old(vmas[k].active) && vmas[..] == old(vmas[..])[k := Region(start, end, prot, true)]
    {
      if start >= end {
        return true;
      }
      for i := 0 to vmas.Length
        invariant vmas[..] == old(vmas[..])
        invariant forall j :: 0 <= j < i ==> vmas[j].active
      {
        if !vmas[i].active {
          assert !vmas[..][i].active;
          vmas[i] := Region(start, end, prot, true);
          return true;
        }
      }
      return false;
    }

    method SplitOverlapping(start: nat, end: nat) returns (ok: bool)
      modifies vmas
      ensures Outcome(old(vmas[..]), vmas[..], start, end, ok)
      ensures old(EndsLow(vmas[..])) ==> EndsLow(vmas[..])
    {
      ghost var os := vmas[..];
      StageStart(os, start, end);
      for i := 0 to vmas.Length
        invariant Stage(os, vmas[..], start, end, i)
        invariant EndsLow(os) ==> EndsLow(vmas[..])
      {
        var v := vmas[i];
        ghost var vs := vmas[..];
        if !Meets(v, start, end) {
          StageSkip(os, vs, start, end, i);
          continue;
        }
        if v.start < start && v.end > end {
          vmas[i] := v.(end := start);
          ghost var ws := vmas[..];
          assert ws == vs[i := v.(end := start)];
          StageHead(os, vs, start, end, i, ws);
          ok := Insert(end, v.end, v.prot);
          if !ok {
            return;
          }
          ghost var k :| 0 <= k < vmas.Length && !ws[k].active && vmas[..] == ws[k := Region(end, v.end, v.prot, true)];
          StageTail(os, vs, start, end, i, ws, k);
          continue;
        }
        var w := if v.start < start then v.(end := start) else if v.end > end then v.(start := end) else v.(active := false);
        StageShrink(os, vs, start, end, i, w);
        vmas[i] := w;
        assert vmas[..] == vs[i := w];
      }
      StageDone(os, vmas[..], start, end);
      ok := true;
    }

    /** vma_remove_range drops the error. */
    method RemoveRange(start: nat, end: nat)
      modifies vmas
      ensures RemoveOutcome(old(vmas[..]), vmas[..], start, end)
    {
      var ok := SplitOverlapping(start, end);
    }

    /** vma_add. */
    method Add(start: nat, end: nat, prot: nat, fixed: bool) returns (ok: bool)
      modifies vmas
      ensures AddOutcome(old(vmas[..]), vmas[..], start, end, prot, fixed, ok)
    {
      ghost var os := vmas[..];
      if fixed {
        ok := SplitOverlapping(start, end);
        if !ok {
          return;
        }
      }
      ghost var vs := vmas[..];
      ok := Insert(start, end, prot);
      if ok && start < end && Disjoint(vs) {
        ghost var k :| 0 <= k < vmas.Length && !vs[k].active && vmas[..] == vs[k := Region(start, end, prot, true)];
        InsertKeeps(vs, k, start, end, prot);
        if fixed && Disjoint(os) {
          AddDone(os, vs, start, end, prot, k);
        }
      }
    }

    /** The two iterator passes over the table: is there a conflict, and where do the conflicts end? */
    method FindConflict(c: nat, len: nat) returns (taken: bool, conflictEnd: nat)
      ensures taken <==> !Fits(vmas[..], c, len)
      ensures conflictEnd == ConflictEnd(vmas[..], c, len, vmas.Length)
    {
      taken, conflictEnd := false, 0;
      for i := 0 to vmas.Length
        invariant taken <==> exists j :: 0 <= j < i && Meets(vmas[j], c, c + len)
        invariant conflictEnd == ConflictEnd(vmas[..], c, len, i)
      {
        if Meets(vmas[i], c, c + len) {
          taken := true;
          if vmas[i].end > conflictEnd {
            conflictEnd := vmas[i].end;
          }
        }
      }
    }

    /**
     reserve_mmap_addr, whenever it returns: the answer its turns lead to.  Without towering regions
     that is the first page-aligned range of the rounded length, at or after the bump pointer, that fits
     under the limit.
     */
    method Reserve(len: nat) returns (r: Option<nat>)
      requires Returns(vmas[..], nextMmap, WrapUp(len))
      modifies this`nextMmap
      ensures exists n :: Turns(vmas[..], old(nextMmap), WrapUp(len), n) == Done(r, nextMmap)
      ensures EndsLow(vmas[..]) && old(nextMmap) % PAGE_SIZE == 0 ==> Reserved(vmas[..], old(nextMmap), nextMmap, WrapUp(len), r)
    {
      ghost var n :| Turns(vmas[..], nextMmap, WrapUp(len), n).Done?;
      r := Search(WrapUp(len), n);
      if EndsLow(vmas[..]) && old(nextMmap) % PAGE_SIZE == 0 {
        FirstFit(vmas[..], old(nextMmap), WrapUp(len), n);
      }
    }

    /** One turn of the search loop. */
    method SearchTurn(len: nat) returns (done: bool, r: Option<nat>)
      modifies this`nextMmap
      ensures Turn(vmas[..], old(nextMmap), len) == if done then Done(r, nextMmap) else Searching(nextMmap)
    {
      var candidate := if nextMmap > 0 then nextMmap else USER_MMAP_BASE;
      var endAddr := if candidate + len < USIZE then candidate + len else 0;
      if endAddr > USER_MMAP_LIMIT || endAddr == 0 {
        return true, None;
      }
      var taken, conflictEnd := FindConflict(candidate, len);
      if !taken {
        nextMmap := endAddr;
        return true, Some(candidate);
      }
      nextMmap := WrapUp(conflictEnd);
      return false, None;
    }

    /** The search loop; `n` bounds the turns it takes. */
    method Search(len: nat, ghost n: nat) returns (r: Option<nat>)
      requires Turns(vmas[..], nextMmap, len, n).Done?
      modifies this`nextMmap
      ensures Turns(vmas[..], old(nextMmap), len, n) == Done(r, nextMmap)
    {
      ghost var left: nat := n;
      var done := false;
      r := None;
      while !done
        invariant left <= n
        invariant Turns(vmas[..], old(nextMmap), len, n) ==
                  if done then Done(r, nextMmap) else Turns(vmas[..], nextMmap, len, left)
        decreases left, !done
      {
        done, r := SearchTurn(len);
        if !done {
          left := left - 1;
        }
      }
    }

    /** ensure_mmap_above; an address in the last page wraps and changes nothing. */
    method EnsureMmapAbove(minAddr: nat)
      requires minAddr < USIZE
      modifies this`nextMmap, this`maxElf
      ensures Raised(old(nextMmap), nextMmap, minAddr) && Raised(old(maxElf), maxElf, minAddr)
    {
      var aligned := WrapUp(minAddr);
      RoundedNear(minAddr);
      if nextMmap < aligned {
        nextMmap := aligned;
      }
      if maxElf < aligned {
        maxElf := aligned;
      }
    }
  }

  /** After ensure_mmap_above every reservation lies above the address. */
  method ReserveAbove(st: VmState, minAddr: nat, len: nat) returns (r: Option<nat>)
    requires st.nextMmap % PAGE_SIZE == 0 && EndsLow(st.vmas[..]) && minAddr <= USIZE - PAGE_SIZE
    modifies st
    ensures r.Some? ==> minAddr <= r.value && Fits(st.vmas[..], r.value, WrapUp(len))
  {
    st.EnsureMmapAbove(minAddr);
    ghost var n := SearchReturns(st.vmas[..], st.nextMmap, WrapUp(len));
    r := st.Reserve(len);
  }

  /** The operations of a run on one address space, without a reset of its state. */
  datatype Op =
    | DoAdd(start: nat, end: nat, prot: nat, fixed: bool)
    | DoRemove(start: nat, end: nat)
    | DoReserve(len: nat)
    | DoEnsureAbove(minAddr: nat)

  datatype Answer = Added(ok: bool) | Removed | Found(addr: Option<nat>) | Moved

  /** The table and the bump pointer between two calls. */
  datatype Moment = Moment(vs: seq<Region>, next: nat)

  /** The call `op` leads from `m` to `m'` with that answer. */
  ghost predicate Follows(op: Op, m: Moment, m': Moment, answer: Answer)
  {
    match op
    case DoAdd(start, end, prot, fixed) =>
      answer.Added? && m'.next == m.next && AddOutcome(m.vs, m'.vs, start, end, prot, fixed, answer.ok)
    case DoRemove(start, end) =>
      answer == Removed && m'.next == m.next && RemoveOutcome(m.vs, m'.vs, start, end)
    case DoReserve(len) =>
      answer.Found? && m'.vs == m.vs && exists n :: Turns(m.vs, m.next, WrapUp(len), n) == Done(answer.addr, m'.next)
    case DoEnsureAbove(minAddr) =>
      answer == Moved && m'.vs == m.vs && Raised(m.next, m'.next, minAddr)
  }

  /** The moments before, between and after the calls that were answered. */
  ghost predicate Trace(ms: seq<Moment>, ops: seq<Op>, answers: seq<Answer>)
  {
    |answers| <= |ops| && |ms| == |answers| + 1 &&
    forall i :: 0 <= i < |answers| ==> Follows(ops[i], ms[i], ms[i + 1], answers[i])
  }

  /** The run's call `i` handed out the pages from `lo` up to `hi`. */
  ghost predicate Handed(ops: seq<Op>, answers: seq<Answer>, i: nat, lo: nat, hi: nat)
  {
    i < |ops| && i < |answers| && ops[i].DoReserve? && answers[i] == Found(Some(lo)) && hi == lo + WrapUp(ops[i].len)
  }

  /** The call adds a region from below the limit into the last page. */
  predicate AddsTower(op: Op)
  {
    op.DoAdd? && Towers(Region(op.start, op.end, op.prot, true))
  }

  /** While no region towers, the bump pointer climbs past what is handed out. */
  lemma StepClimbs(op: Op, m: Moment, m': Moment, answer: Answer)
    requires Follows(op, m, m', answer) && m.next % PAGE_SIZE == 0 && (op.DoReserve? ==> EndsLow(m.vs))
    ensures m'.next % PAGE_SIZE == 0 && m.next <= m'.next
    ensures op.DoReserve? && answer.addr.Some? ==> m.next <= answer.addr.value && m'.next == answer.addr.value + WrapUp(op.len)
  {
    if op.DoReserve? {
      var n :| Turns(m.vs, m.next, WrapUp(op.len), n) == Done(answer.addr, m'.next);
      FirstFit(m.vs, m.next, WrapUp(op.len), n);
    }
  }

  /** No reservation of the run was made next to a towering region. */
  ghost predicate Low(ms: seq<Moment>, ops: seq<Op>, answers: seq<Answer>)
    requires Trace(ms, ops, answers)
  {
    ms[0].next % PAGE_SIZE == 0 && forall i :: 0 <= i < |answers| && ops[i].DoReserve? ==> EndsLow(ms[i].vs)
  }

  lemma {:induction false} NextClimbs(ms: seq<Moment>, ops: seq<Op>, answers: seq<Answer>, i: nat, j: nat)
    requires Trace(ms, ops, answers) && Low(ms, ops, answers) && i <= j < |ms|
    ensures ms[i].next % PAGE_SIZE == 0 && ms[j].next % PAGE_SIZE == 0 && ms[i].next <= ms[j].next
    decreases j
  {
    if j > 0 {
      var k := j - 1;
      NextClimbs(ms, ops, answers, if i < j then i else k, k);
      assert Follows(ops[k], ms[k], ms[k + 1], answers[k]);
      StepClimbs(ops[k], ms[k], ms[j], answers[k]);
    }
  }

  /** The ranges handed out by reserve_mmap_addr are pairwise disjoint and climb. */
  lemma RangesClimb(ms: seq<Moment>, ops: seq<Op>, answers: seq<Answer>, i: nat, j: nat, lo: nat, hi: nat, lo': nat, hi': nat)
    requires Trace(ms, ops, answers) && Low(ms, ops, answers)
    requires i < j && Handed(ops, answers, i, lo, hi) && Handed(ops, answers, j, lo', hi')
    ensures lo <= hi <= lo' <= hi'
  {
    var k := i + 1;
    NextClimbs(ms, ops, answers, 0, i);
    NextClimbs(ms, ops, answers, k, j);
    StepClimbs(ops[i], ms[i], ms[k], answers[i]);
    StepClimbs(ops[j], ms[j], ms[j + 1], answers[j]);
  }

  lemma TraceOn(was: seq<Moment>, ops: seq<Op>, answers: seq<Answer>, ms: seq<Moment>)
    requires 0 < |answers| <= |ops| && Trace(was, ops, answers[..|answers| - 1]) && Low(was, ops, answers[..|answers| - 1])
    requires |ms| == |was| + 1 && ms[..|was|] == was
    requires var k := |answers| - 1; Follows(ops[k], ms[k], ms[k + 1], answers[k]) && (ops[k].DoReserve? ==> EndsLow(ms[k].vs))
    ensures Trace(ms, ops, answers) && Low(ms, ops, answers)
  {
    forall i | 0 <= i < |answers| ensures Follows(ops[i], ms[i], ms[i + 1], answers[i]) {
      if i < |answers| - 1 {
        assert Follows(ops[i], was[i], was[i + 1], answers[..|answers| - 1][i]);
      }
    }
  }

  method Perform(st: VmState, op: Op) returns (answer: Answer)
    requires op.DoReserve? ==> EndsLow(st.vmas[..]) && st.nextMmap % PAGE_SIZE == 0
    requires op.DoEnsureAbove? ==> op.minAddr < USIZE
    modifies st, st.vmas
    ensures Follows(op, old(Moment(st.vmas[..], st.nextMmap)), Moment(st.vmas[..], st.nextMmap), answer)
  {
    match op {
      case DoAdd(start, end, prot, fixed) =>
        var ok := st.Add(start, end, prot, fixed);
        answer := Added(ok);
      case DoRemove(start, end) =>
        st.RemoveRange(start, end);
        answer := Removed;
      case DoReserve(len) =>
        ghost var n := SearchReturns(st.vmas[..], st.nextMmap, WrapUp(len));
        var r := st.Reserve(len);
        answer := Found(r);
      case DoEnsureAbove(minAddr) =>
        st.EnsureMmapAbove(minAddr);
        answer := Moved;
    }
  }

  /**
   Every run is such a trace.  It stops early only at a reservation after a towering region was added,
   which need not return.
   */
  method Run(st: VmState, ops: seq<Op>) returns (answers: seq<Answer>, ghost ms: seq<Moment>)
    requires st.nextMmap % PAGE_SIZE == 0 && EndsLow(st.vmas[..])
    requires forall i :: 0 <= i < |ops| && ops[i].DoEnsureAbove? ==> ops[i].minAddr < USIZE
    modifies st, st.vmas
    ensures Trace(ms, ops, answers) && Low(ms, ops, answers)
    ensures ms[0] == old(Moment(st.vmas[..], st.nextMmap)) && ms[|answers|] == Moment(st.vmas[..], st.nextMmap)
    ensures |answers| < |ops| ==> ops[|answers|].DoReserve? && exists i :: 0 <= i < |answers| && AddsTower(ops[i])
  {
    answers, ms := [], [Moment(st.vmas[..], st.nextMmap)];
    for k := 0 to |ops|
      invariant |answers| == k && Trace(ms, ops, answers) && Low(ms, ops, answers)
      invariant ms[0] == old(Moment(st.vmas[..], st.nextMmap)) && ms[k] == Moment(st.vmas[..], st.nextMmap)
      invariant EndsLow(st.vmas[..]) || exists i :: 0 <= i < k && AddsTower(ops[i])
    {
      if ops[k].DoReserve? && !EndsLow(st.vmas[..]) {
        return;
      }
      NextClimbs(ms, ops, answers, 0, k);
      var answer := Perform(st, ops[k]);
      ghost var was := ms;
      answers, ms := answers + [answer], ms + [Moment(st.vmas[..], st.nextMmap)];
      TraceOn(was, ops, answers, ms);
    }
  }

  /** A table that holds a towering region, well above the base, and nothing else. */
  ghost predicate OnlyTower(vs: seq<Region>, i: nat)
  {
    && i < |vs| && vs[i] == Region(TOWER, USIZE - 1, 3, true)
    && forall j :: 0 <= j < |vs| && j != i ==> !vs[j].active && vs[j].end < USIZE
  }

  const TOWER: nat := 0x7000_0000_0000

  /** From the start the search answers the base, and from the foot of the tower it comes back to it. */
  lemma TowerTurns(vs: seq<Region>, i: nat)
    requires OnlyTower(vs, i)
    ensures Turns(vs, 0, PAGE_SIZE, 1) == Done(Some(USER_MMAP_BASE), USER_MMAP_BASE + PAGE_SIZE)
    ensures Turns(vs, TOWER, PAGE_SIZE, 2) == Done(Some(USER_MMAP_BASE), USER_MMAP_BASE + PAGE_SIZE)
  {
    assert Meets(vs[i], TOWER, TOWER + PAGE_SIZE);
    TowerWraps(vs, TOWER, PAGE_SIZE, i);
    assert Turn(vs, TOWER, PAGE_SIZE) == Searching(0);
  }

  /** A reservation on that table answers what those turns say. */
  method ReserveUnderTower(st: VmState, ghost i: nat, ghost n: nat) returns (r: Option<nat>)
    requires OnlyTower(st.vmas[..], i) && Turns(st.vmas[..], st.nextMmap, PAGE_SIZE, n).Done?
    modifies st`nextMmap
    ensures Turns(st.vmas[..], old(st.nextMmap), PAGE_SIZE, n) == Done(r, st.nextMmap)
  {
    assert WrapUp(PAGE_SIZE) == PAGE_SIZE;
    ghost var next := st.nextMmap;
    r := st.Reserve(PAGE_SIZE);
    ghost var m: nat :| Turns(st.vmas[..], next, PAGE_SIZE, m) == Done(r, st.nextMmap);
    if m <= n {
      TurnsStable(st.vmas[..], next, PAGE_SIZE, m, n);
    } else {
      TurnsStable(st.vmas[..], next, PAGE_SIZE, n, m);
    }
  }

  /** With a towering region the same range is handed out twice. */
  method TowerRepeats() returns (first: Option<nat>, second: Option<nat>)
    ensures first == second == Some(USER_MMAP_BASE)
  {
    var st := new VmState();
    ghost var was := st.vmas[..];
    var ok := st.Add(TOWER, USIZE - 1, 3, false);
    assert !was[0].active;
    ghost var i :| 0 <= i < st.vmas.Length && st.vmas[..] == was[i := Region(TOWER, USIZE - 1, 3, true)];
    TowerTurns(st.vmas[..], i);
    first := ReserveUnderTower(st, i, 1);
    st.EnsureMmapAbove(TOWER);
    assert st.nextMmap == TOWER;
    TowerTurns(st.vmas[..], i);
    second := ReserveUnderTower(st, i, 2);
  }

  /** A full table of adjacent regions of three pages. */
  function FullTable(): (vs: seq<Region>)
    ensures |vs| == MAX_VMAS && forall i :: 0 <= i < |vs| ==> vs[i] == Region(0x3000 * i, 0x3000 * i + 0x3000, 3, true)
  {
    seq(MAX_VMAS, (i: nat) => Region(0x3000 * i, 0x3000 * i + 0x3000, 3, true))
  }

  /** Taking the middle page of one of them loses its last page. */
  lemma FullTableLosesTail()
    ensures Disjoint(FullTable()) && NoRoomToSplit(FullTable(), 0x1000, 0x2000)
  {
    assert Encloses(FullTable()[0], 0x1000, 0x2000);
  }

  /** One region in an otherwise empty table. */
  function OneRegion(v: Region): (vs: seq<Region>)
    ensures |vs| == MAX_VMAS && vs[0] == v && forall i :: 1 <= i < |vs| ==> vs[i] == EMPTY
  {
    [v] + seq(MAX_VMAS - 1, _ => EMPTY)
  }

  /** A range that ends before it starts tears the region around it. */
  lemma BackwardsTears()
    ensures var vs := OneRegion(Region(0, 0x1_0000, 3, true));
            Disjoint(vs) && SomeMeets(vs, 0x8000, 0x4000) && HasRoom(vs)
  {
    var vs := OneRegion(Region(0, 0x1_0000, 3, true));
    assert Meets(vs[0], 0x8000, 0x4000) && !vs[1].active;
  }
}
