/**
 free_user_page_table (kernel/src/mm/vmm.rs): what it frees, in which order and how often.
 */
module Teardown {
  import opened Common
  import opened Pte
  import opened Pmm
  import opened PageTables
  import opened Spaces
  import opened Vmm

  /** One call of dealloc: the frame, and where in the tree it came from. */
  datatype Freed = Freed(place: seq<nat>, frame: nat)

  /** The dealloc calls of free_level for entries i .. 512 of the table `f` at path `q`, in order. */
  function FreeFrom(m: Mem, f: nat, q: seq<nat>, i: nat): seq<Freed>
    requires |q| <= 3 && i <= ENTRIES
    decreases m.Keys, 3 - |q|, ENTRIES - i + 1
  {
    if i == ENTRIES || f !in m then []
    else FreeEntry(m, m[f][i], q, i) + FreeFrom(m, f, q, i + 1)
  }

  /** ... and for one entry: a table after all it holds, a 4K leaf if it is a user page. */
  function FreeEntry(m: Mem, e: Entry, q: seq<nat>, i: nat): seq<Freed>
    requires |q| <= 3
    decreases m.Keys, 3 - |q|, 0
  {
    if !e.flags.present then []
    else if |q| < 3 then
      if e.flags.ps then [] else FreeFrom(m, e.ppn, q + [i], 0) + [Freed(q + [i], e.ppn)]
    else if e.flags.user then [Freed(q + [i], e.ppn)]
    else []
  }

  lemma NoDupConcat<T>(a: seq<T>, b: seq<T>)
    requires NoDup(a) && NoDup(b)
    requires forall x :: x in a ==> x !in b
    ensures NoDup(a + b)
  {
    var c := a + b;
    forall i, j | 0 <= i < j < |c|
      ensures c[i] != c[j]
    {
      if i < |a| <= j {
        assert c[i] in a && c[j] in b;
      }
    }
  }

  predicate IsIndex(p: seq<nat>)
  {
    |p| == 4 && forall k :: 0 <= k < 4 ==> p[k] < ENTRIES
  }

  /** The page of `p` is a user page. */
  ghost predicate UserAt(s: Space, p: seq<nat>)
  {
    IsIndex(p) && Shows(s, p).Page? && Shows(s, p).flags.user
  }

  /** The space holds a frame at a place: a table at its path, or a user page at its four indices. */
  ghost predicate Held(s: Space, r: Freed)
  {
    if r.place in s.dir then s.dir[r.place] == r.frame else UserAt(s, r.place) && Shows(s, r.place).frame == r.frame
  }

  /** ... below path `q`, at slot `i` or later. */
  ghost predicate Below(s: Space, q: seq<nat>, i: nat, r: Freed)
  {
    Held(s, r) && |r.place| > |q| && r.place[..|q|] == q && i <= r.place[|q|] < ENTRIES
  }

  /** Exactly what is held below `q` from slot `i` on, each once. */
  ghost predicate Lists(l: seq<Freed>, s: Space, q: seq<nat>, i: nat)
  {
    NoDup(l) && forall r :: r in l <==> Below(s, q, i, r)
  }

  /** Exactly what is held below slot `i` of `q`, each once. */
  ghost predicate ListsSlot(l: seq<Freed>, s: Space, q: seq<nat>, i: nat)
  {
    NoDup(l) && forall r :: r in l <==> Below(s, q, i, r) && r.place[|q|] == i
  }

  /** Everything held below a slot of an inner table hangs on the table pointer there. */
  lemma BelowInner(s: Space, q: seq<nat>, i: nat, r: Freed)
    requires KernelLarge(s)
    requires q in s.dir && |q| < 3 && i < ENTRIES
    requires Below(s, q, i, r) && r.place[|q|] == i
    ensures q + [i] in s.dir
  {
    var p := r.place;
    assert p[..|q| + 1] == q + [i];
    if p in s.dir {
      PrefixIn(s.mem, s.dir, p, |q| + 1);
    } else {
      Is4KIff(s, p);
      UserPageIs4K(s, p);
      PrefixIn(s.mem, s.dir, p[..3], |q| + 1);
      assert p[..3][..|q| + 1] == q + [i];
    }
  }

  /** A user page is a 4K page, large leaves being the kernel's. */
  lemma UserPageIs4K(s: Space, ix: Index)
    requires KernelLarge(s)
    requires Shows(s, ix).Page? && Shows(s, ix).flags.user
    ensures Is4K(Walks(s, ix))
  {
    assert ix[..0] == [];
    LargeWalkKernel(s, ix, 0);
  }

  lemma {:induction false} LargeWalkKernel(s: Space, ix: Index, d: nat)
    requires KernelLarge(s)
    requires d <= 3 && ix[..d] in s.dir
    ensures var w := Walk(s.mem, s.dir[ix[..d]], ix, 3 - d); w.Mapped? && w.level > 0 ==> !w.entry.flags.user
    decreases 3 - d
  {
    assert PathOk(s.mem, s.dir, ix[..d]);
    if d < 3 {
      Descend(ix, d);
      assert SlotOk(s.mem, s.dir, ix[..d], ix[d]);
      if ix[..d + 1] in s.dir {
        LargeWalkKernel(s, ix, d + 1);
      } else if d == 2 {
        assert LargeIsKernel(s.mem, s.dir, ix[..d], ix[d]);
      }
    }
  }

  /** free_level on one entry lists what hangs there. */
  lemma {:induction false} FreeEntryLists(s: Space, q: seq<nat>, i: nat)
    requires KernelLarge(s)
    requires q in s.dir && s.dir[q] in s.mem && |q| <= 3 && i < ENTRIES
    ensures ListsSlot(FreeEntry(s.mem, s.mem[s.dir[q]][i], q, i), s, q, i)
    decreases 3 - |q|, 0
  {
    var e := s.mem[s.dir[q]][i];
    if |q| < 3 {
      assert SlotOk(s.mem, s.dir, q, i);
      if q + [i] in s.dir {
        FreeTableLists(s, q, i, e);
      } else {
        forall r | Below(s, q, i, r) && r.place[|q|] == i
          ensures false
        {
          BelowInner(s, q, i, r);
        }
      }
    } else {
      FreeLeafLists(s, q, i, e);
    }
  }

  lemma {:induction false} FreeTableLists(s: Space, q: seq<nat>, i: nat, e: Entry)
    requires KernelLarge(s)
    requires q in s.dir && |q| < 3 && i < ENTRIES && q + [i] in s.dir
    requires e.flags.present && !e.flags.ps && e.ppn == s.dir[q + [i]]
    ensures ListsSlot(FreeEntry(s.mem, e, q, i), s, q, i)
    decreases 3 - |q| - 1, ENTRIES + 2
  {
    var c := q + [i];
    assert PathOk(s.mem, s.dir, c);
    FreeLists(s, c, 0);
    var l, last := FreeFrom(s.mem, e.ppn, c, 0), Freed(c, e.ppn);
    NoDupConcat(l, [last]);
    forall r
      ensures r in l + [last] <==> Below(s, q, i, r) && r.place[|q|] == i
    {
      assert r in l <==> Below(s, c, 0, r);
      TableOrBelow(s, q, i, r);
    }
  }

  /** What hangs at a table pointer is the table and what is below it. */
  lemma TableOrBelow(s: Space, q: seq<nat>, i: nat, r: Freed)
    requires q in s.dir && |q| < 3 && i < ENTRIES && q + [i] in s.dir
    ensures r == Freed(q + [i], s.dir[q + [i]]) || Below(s, q + [i], 0, r) <==> Below(s, q, i, r) && r.place[|q|] == i
  {
    var c, p := q + [i], r.place;
    if Held(s, r) && |p| > |q| && p[..|q|] == q && p[|q|] == i {
      assert p[..|c|] == c;
      if |p| == |c| {
        assert p == c;
      } else {
        DigitBound(s, r, |c|);
      }
    }
  }

  lemma DigitBound(s: Space, r: Freed, k: nat)
    requires Held(s, r) && k < |r.place|
    ensures r.place[k] < ENTRIES
  {
    if r.place in s.dir {
      PathDigits(s, r.place);
    }
  }

  lemma FreeLeafLists(s: Space, q: seq<nat>, i: nat, e: Entry)
    requires KernelLarge(s)
    requires q in s.dir && |q| == 3 && i < ENTRIES && s.dir[q] in s.mem && e == s.mem[s.dir[q]][i]
    ensures ListsSlot(FreeEntry(s.mem, e, q, i), s, q, i)
  {
    var ix := q + [i];
    PathDigits(s, q);
    assert ix[..3] == q && IsIndex(ix);
    Is4KIff(s, ix);
    forall r
      ensures r in FreeEntry(s.mem, e, q, i) <==> Below(s, q, i, r) && r.place[3] == i
    {
      assert ix in s.dir ==> PathOk(s.mem, s.dir, ix);
      if Below(s, q, i, r) && r.place[3] == i {
        assert r.place in s.dir ==> PathOk(s.mem, s.dir, r.place);
        assert r.place == ix;
        UserPageIs4K(s, ix);
      }
    }
  }

  lemma {:induction false} PathDigits(s: Space, p: seq<nat>)
    requires p in s.dir
    ensures forall k :: 0 <= k < |p| ==> p[k] < ENTRIES
    decreases |p|
  {
    assert PathOk(s.mem, s.dir, p);
    if |p| > 0 {
      PathDigits(s, p[..|p| - 1]);
      assert forall k :: 0 <= k < |p| - 1 ==> p[k] == p[..|p| - 1][k];
    }
  }

  /** free_level lists everything held below its table from slot `i` on, each once. */
  lemma {:induction false} FreeLists(s: Space, q: seq<nat>, i: nat)
    requires KernelLarge(s)
    requires q in s.dir && |q| <= 3 && i <= ENTRIES
    ensures Lists(FreeFrom(s.mem, s.dir[q], q, i), s, q, i)
    decreases 3 - |q|, ENTRIES - i + 1
  {
    assert PathOk(s.mem, s.dir, q);
    if i < ENTRIES {
      FreeEntryLists(s, q, i);
      FreeLists(s, q, i + 1);
      var a, b := FreeEntry(s.mem, s.mem[s.dir[q]][i], q, i), FreeFrom(s.mem, s.dir[q], q, i + 1);
      NoDupConcat(a, b);
      assert forall r :: r in a + b <==> r in a || r in b;
    }
  }

  /** All dealloc calls of free_user_page_table. */
  function FreedBy(m: Mem, root: nat): seq<Freed>
  {
    FreeFrom(m, root, [], 0) + [Freed([], root)]
  }

  /**
   Teardown frees every table and every user page of the space exactly once, and nothing else: no
   supervisor page and no large page.
   */
  lemma FreesExactlyHeld(s: Space)
    requires KernelLarge(s)
    ensures NoDup(FreedBy(s.mem, Root(s)))
    ensures forall r :: r in FreedBy(s.mem, Root(s)) <==> Held(s, r)
  {
    FreeLists(s, [], 0);
    var l, last := FreeFrom(s.mem, Root(s), [], 0), Freed([], Root(s));
    NoDupConcat(l, [last]);
    forall r | Held(s, r)
      ensures r in l + [last]
    {
      if r.place != [] {
        DigitBound(s, r, 0);
        assert r.place[..0] == [];
      }
    }
  }

  /** No frame is held at two places. */
  ghost predicate Once(s: Space)
  {
    forall r, r' {:trigger Held(s, r), Held(s, r')} :: Held(s, r) && Held(s, r') && r.frame == r'.frame ==> r == r'
  }

  /** The frames of a list of dealloc calls are distinct. */
  ghost predicate Distinct(l: seq<Freed>)
  {
    forall i, j :: 0 <= i < j < |l| ==> l[i].frame != l[j].frame
  }

  /** No frame is freed twice if and only if none is held at two places. */
  lemma FreedOnceIff(s: Space)
    requires KernelLarge(s)
    ensures Distinct(FreedBy(s.mem, Root(s))) <==> Once(s)
  {
    var l := FreedBy(s.mem, Root(s));
    FreesExactlyHeld(s);
    if Distinct(l) {
      forall r, r' | Held(s, r) && Held(s, r') && r.frame == r'.frame
        ensures r == r'
      {
        var i :| 0 <= i < |l| && l[i] == r;
        var j :| 0 <= j < |l| && l[j] == r';
        assert !(i < j) && !(j < i);
      }
    } else {
      var i, j :| 0 <= i < j < |l| && l[i].frame == l[j].frame;
      assert Held(s, l[i]) && Held(s, l[j]);
    }
  }

  ghost function Frames(l: seq<Freed>): set<nat>
  {
    set r | r in l :: r.frame
  }

  /** One more entry of a table is freed. */
  lemma OneMore(m: Mem, f: nat, q: seq<nat>, i: nat, freed: seq<Freed>, base: set<nat>)
    requires |q| <= 3 && i < ENTRIES && f in m
    ensures var more := FreeEntry(m, m[f][i], q, i);
            && freed + more + FreeFrom(m, f, q, i + 1) == freed + FreeFrom(m, f, q, i)
            && base - Frames(freed) - Frames(more) == base - Frames(freed + more)
  {
    var more, rest := FreeEntry(m, m[f][i], q, i), FreeFrom(m, f, q, i + 1);
    assert FreeFrom(m, f, q, i) == more + rest;
    assert freed + more + rest == freed + (more + rest);
    FramesConcat(freed, more);
  }

  lemma FramesConcat(a: seq<Freed>, b: seq<Freed>)
    ensures Frames(a + b) == Frames(a) + Frames(b)
  {
  }

  /** free_level: `freed` records the dealloc calls it makes. */
  method FreeLevel(mm: Memory, table: nat, d: nat, ghost s: Space, ghost p: seq<nat>) returns (ghost freed: seq<Freed>)
    requires mm.Valid() && mm.mem == s.mem
    requires p in s.dir && s.dir[p] == table && |p| == d <= 3
    modifies mm.pmm`nextFree, mm.pmm.bitmap
    ensures mm.Valid()
    ensures freed == FreeFrom(s.mem, table, p, 0)
    ensures mm.pmm.Allocated() == old(mm.pmm.Allocated()) - Frames(freed)
    decreases 3 - d
  {
    freed := [];
    assert PathOk(s.mem, s.dir, p);
    ghost var all, base := FreeFrom(s.mem, table, p, 0), mm.pmm.Allocated();
    for i := 0 to ENTRIES
      invariant mm.Valid()
      invariant freed + FreeFrom(s.mem, table, p, i) == all
      invariant mm.pmm.Allocated() == base - Frames(freed)
    {
      OneMore(s.mem, table, p, i, freed, base);
      ghost var more := FreeSlot(mm, table, d, i, s, p);
      freed := freed + more;
    }
  }

  /** One turn of free_level's loop. */
  method FreeSlot(mm: Memory, table: nat, d: nat, i: nat, ghost s: Space, ghost p: seq<nat>) returns (ghost freed: seq<Freed>)
    requires mm.Valid() && mm.mem == s.mem
    requires p in s.dir && s.dir[p] == table && |p| == d <= 3
    requires i < ENTRIES && table in s.mem
    modifies mm.pmm`nextFree, mm.pmm.bitmap
    ensures mm.Valid()
    ensures freed == FreeEntry(s.mem, s.mem[table][i], p, i)
    ensures mm.pmm.Allocated() == old(mm.pmm.Allocated()) - Frames(freed)
    decreases 3 - d, 0
  {
    freed := [];
    var e := mm.mem[table][i];
    if !e.flags.present {
      return;
    }
    if d < 3 {
      assert SlotOk(s.mem, s.dir, p, i);
      if !e.flags.ps {
        ghost var below := FreeLevel(mm, e.ppn, d + 1, s, p + [i]);
        mm.pmm.Dealloc(e.ppn * PAGE_SIZE);
        FramesConcat(below, [Freed(p + [i], e.ppn)]);
        freed := below + [Freed(p + [i], e.ppn)];
      }
    } else if e.flags.user {
      mm.pmm.Dealloc(e.ppn * PAGE_SIZE);
      freed := [Freed(p + [i], e.ppn)];
    }
  }

  /** Some place of the space holds the frame. */
  ghost predicate Holds(s: Space, x: nat)
  {
    exists p :: Held(s, Freed(p, x))
  }

  /** free_user_page_table: exactly the tables and user pages of the space are freed, each once. */
  method FreeUserPageTable(mm: Memory, root: nat, ghost s: Space) returns (ghost freed: seq<Freed>)
    requires mm.Holds(s) && Root(s) == root && KernelLarge(s)
    modifies mm.pmm`nextFree, mm.pmm.bitmap
    ensures mm.Valid()
    ensures forall x :: x in mm.pmm.Allocated() <==> x in s.used && !Holds(s, x)
    ensures NoDup(freed) && forall r :: r in freed <==> Held(s, r)
    ensures Distinct(freed) <==> Once(s)
  {
    freed := FreeAll(mm, root, s);
    FreesExactlyHeld(s);
    FreedOnceIff(s);
    HeldFrames(s, freed);
  }

  method FreeAll(mm: Memory, root: nat, ghost s: Space) returns (ghost freed: seq<Freed>)
    requires mm.Valid() && mm.mem == s.mem && Root(s) == root
    modifies mm.pmm`nextFree, mm.pmm.bitmap
    ensures mm.Valid() && freed == FreedBy(s.mem, root)
    ensures mm.pmm.Allocated() == old(mm.pmm.Allocated()) - Frames(freed)
  {
    ghost var below := FreeLevel(mm, root, 0, s, []);
    mm.pmm.Dealloc(root * PAGE_SIZE);
    FramesConcat(below, [Freed([], root)]);
    freed := FreedBy(s.mem, root);
  }

  lemma HeldFrames(s: Space, l: seq<Freed>)
    requires forall r :: r in l <==> Held(s, r)
    ensures forall x :: x in Frames(l) <==> Holds(s, x)
  {
    forall x
      ensures x in Frames(l) <==> Holds(s, x)
    {
      if x in Frames(l) {
        var r :| r in l && r.frame == x;
        assert Held(s, Freed(r.place, x));
      }
      if Holds(s, x) {
        var p :| Held(s, Freed(p, x));
        assert Freed(p, x) in l;
      }
    }
  }
}
