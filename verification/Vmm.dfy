/**
 Page-table operations on physical memory (kernel/src/mm/vmm.rs).

 `mem` is the memory the kernel reaches through its identity map; several trees may live in
 it.  Each operation takes the address space it works on as a ghost argument and returns
 the one it leaves behind.
 */
module Vmm {
  import opened Common
  import opened Pte
  import opened Pmm
  import opened PageTables
  import opened Spaces

  datatype StepResult = OutOfFrames | Down(table: nat) | Stop(table: nat)

  /** The answer of walk_mapping. */
  datatype WalkResult =
    | Unmapped
    | Mapped4K(frame: nat, flags: Flags)
    | MappedHuge(frame: nat, level: nat, size: nat, flags: Flags)
    | Corrupt

  function ResultOf(w: Walked, va: nat): WalkResult
  {
    match w
    case NotMapped => Unmapped
    case Invalid => Corrupt
    case Mapped(e, level) =>
      if level == 0 then
        if e.ppn == 0 then Corrupt else Mapped4K(e.ppn * 0x1000 + va % 0x1000, e.flags)
      else if level <= 3 then MappedHuge(e.ppn * 0x1000 + va % Span(level), level, Span(level), e.flags)
      else Corrupt
  }

  /**
   walk_mapping against translate_user: they agree, with one exception exactly for 4K leaves
   naming frame 0, which translate but are reported corrupt; large pages are 2MB.
   */
  lemma WalkMappingAgrees(s: Space, va: nat)
    ensures var w, r, t := Walks(s, Indices(va)), ResultOf(Walks(s, Indices(va)), va), Resolves(s, va);
            && (r.Unmapped? <==> t.None?)
            && (r.Corrupt? <==> w.Mapped? && w.level == 0 && w.entry.ppn == 0)
            && (r.Mapped4K? || r.MappedHuge? ==> t == Some(r.frame))
            && (r.MappedHuge? ==> r.level == 1 && r.size == 0x20_0000)
  {
    assert Indices(va)[..0] == [];
    WalkInTree(s.mem, s.dir, Indices(va), 3);
  }

  /** mprotect_user changes no translation exactly when it finds no 4K page or keeps it present. */
  lemma MprotectKeeps(s: Space, t: Space, va: nat, flags: Flags)
    requires var w := Walks(s, Indices(va));
             if Is4K(w) then Remapped(s, t, Indices(va), LeafPage(Entry(w.entry.ppn, flags))) else SameView(s, t)
    ensures (forall w: nat :: Resolves(t, w) == Resolves(s, w)) <==> !Is4K(Walks(s, Indices(va))) || flags.present
  {
    var w := Walks(s, Indices(va));
    var page := if Is4K(w) then LeafPage(Entry(w.entry.ppn, flags)) else Shows(s, Indices(va));
    assert Remapped(s, t, Indices(va), page);
    RemappedAddresses(s, t, va, page);
    forall v: nat | !Is4K(w) || flags.present
      ensures Resolves(t, v) == Resolves(s, v)
    {
      TranslateIsPage(s.mem, s.dir, v);
      SamePage(v, va);
    }
    assert Is4K(w) && !flags.present ==> Resolves(t, va) == None != Resolves(s, va);
  }

  lemma SetTwice(m: Mem, n: nat, a: Table, b: Table)
    ensures m[n := a][n := b] == m[n := b]
  {
  }

  class Memory {
    const pmm: FrameAllocator
    var mem: Mem

    constructor (pmm: FrameAllocator, mem: Mem)
      ensures this.pmm == pmm && this.mem == mem
    {
      this.pmm, this.mem := pmm, mem;
    }

    ghost predicate Valid()
      reads this, pmm
    {
      var valid := pmm.Valid() && pmm.First() + pmm.totalFrames <= PPN_LIMIT;
      valid
    }

    /** `s` is the memory and the allocation of now. */
    ghost predicate Holds(s: Space)
      reads this, pmm, pmm.bitmap
    {
      var now := Valid() && s.mem == mem && s.used == pmm.Allocated();
      now
    }

    /** PageTable::zeroed: a cleared table in a fresh frame; None is the source's panic. */
    method Zeroed() returns (r: Option<nat>)
      requires Valid()
      modifies this`mem, pmm`nextFree, pmm.bitmap
      ensures Valid()
      ensures r.None? <==> |old(pmm.Allocated())| == pmm.totalFrames
      ensures r.None? ==> mem == old(mem) && pmm.Allocated() == old(pmm.Allocated())
      ensures r.Some? ==>
        && 0 < r.value < PPN_LIMIT
        && r.value !in old(pmm.Allocated())
        && pmm.Allocated() == old(pmm.Allocated()) + {r.value}
        && mem == old(mem)[r.value := EMPTY_TABLE]
    {
      pmm.Room();
      var a := pmm.Alloc();
      match a
      case None =>
        return None;
      case Some(addr) =>
        var n := addr / PAGE_SIZE;
        mem := mem[n := EMPTY_TABLE];
        return Some(n);
    }

    /** create_user_page_table: a new address space in which no page is mapped. */
    method CreateUserPageTable() returns (r: Option<nat>, ghost s: Tables)
      requires Valid()
      modifies this`mem, pmm`nextFree, pmm.bitmap
      ensures Valid()
      ensures r.None? <==> |old(pmm.Allocated())| == pmm.totalFrames
      ensures r.None? ==> mem == old(mem) && pmm.Allocated() == old(pmm.Allocated())
      ensures r.Some? ==> Sound(s) && Holds(s) && Root(s) == r.value && s.dir == map[[] := r.value]
      ensures r.Some? ==> r.value !in old(pmm.Allocated()) && s.used == old(pmm.Allocated()) + {r.value}
      ensures r.Some? ==> KernelLarge(s) && AllOpen(s) && forall ix: Index :: Shows(s, ix) == NoPage
    {
      r := Zeroed();
      s := Tables(mem, pmm.Allocated(), map[]);
      if r.Some? {
        s := Single(mem, pmm.Allocated(), r.value);
      }
    }

    /** The loop that fills a fresh table from a 2MB leaf. */
    method FillSplit(n: nat, e: Entry)
      requires n in mem
      requires e.ppn % ENTRIES == 0
      modifies this`mem
      ensures n in mem && mem == old(mem)[n := mem[n]]
      ensures forall j :: 0 <= j < ENTRIES ==> mem[n][j] == Entry(e.ppn + j, e.flags.(ps := false))
    {
      SplitExact(e);
      for j := 0 to ENTRIES
        invariant n in mem && mem == old(mem)[n := mem[n]]
        invariant forall k :: 0 <= k < j ==> mem[n][k] == Entry(e.ppn + k, e.flags.(ps := false))
      {
        mem := Store(mem, n, j, SplitEntry(e, j));
      }
    }

    /** A fresh table to stand for the entry `e`: the split of a large leaf, or a cleared table. */
    method FreshTable(e: Entry) returns (r: Option<nat>)
      requires Valid()
      requires e.flags.present ==> e.ppn % ENTRIES == 0
      modifies this`mem, pmm`nextFree, pmm.bitmap
      ensures Valid()
      ensures r.None? <==> |old(pmm.Allocated())| == pmm.totalFrames
      ensures r.None? ==> mem == old(mem) && pmm.Allocated() == old(pmm.Allocated())
      ensures r.Some? ==>
        && 0 < r.value < PPN_LIMIT
        && r.value !in old(pmm.Allocated())
        && pmm.Allocated() == old(pmm.Allocated()) + {r.value}
        && r.value in mem && mem == old(mem)[r.value := mem[r.value]]
        && forall j :: 0 <= j < ENTRIES ==> mem[r.value][j] == StandIn(e, j)
    {
      r := Zeroed();
      if r.Some? && e.flags.present {
        FillSplit(r.value, e);
        SetTwice(old(mem), r.value, EMPTY_TABLE, mem[r.value]);
      }
    }

    /** Hang a fresh table below slot ix[d] of `table`, which holds no table pointer. */
    method NewTable(table: nat, d: nat, ix: Index, ghost s: Space) returns (r: Option<nat>, ghost t: Space)
      requires Holds(s)
      requires d < 3 && ix[..d] in s.dir && s.dir[ix[..d]] == table && ix[..d + 1] !in s.dir
      modifies this`mem, pmm`nextFree, pmm.bitmap
      ensures Holds(t) && Grown(s, t) && SameView(s, t)
      ensures r.None? <==> |s.used| == pmm.totalFrames
      ensures r.None? ==> t == s
      ensures r.Some? ==> t.dir == s.dir[ix[..d + 1] := r.value] && |t.used| == |s.used| + 1
    {
      t := s;
      assert PathOk(s.mem, s.dir, ix[..d]) && SlotOk(s.mem, s.dir, ix[..d], ix[d]);
      Descend(ix, d);
      r := FreshTable(mem[table][ix[d]]);
      if r.Some? {
        Hung(s, ix, d, r.value, mem[r.value]);
        t := HangAt(s, ix, d, r.value, mem[r.value]);
        mem := Store(mem, table, ix[d], Entry(r.value, NON_LEAF_FLAGS));
        assert mem == t.mem;
      }
    }

    /** One turn of map's loop, at level 3 - d: go one level down, creating or splitting as needed. */
    method Step(table: nat, d: nat, ix: Index, leaf: Flags, ghost s: Space) returns (r: StepResult, ghost t: Space)
      requires Holds(s)
      requires d < 3 && ix[..d] in s.dir && s.dir[ix[..d]] == table
      modifies this`mem, pmm`nextFree, pmm.bitmap
      ensures Holds(t) && Grown(s, t) && SameView(s, t) && OnTheWay(s, t, ix)
      ensures r.OutOfFrames? <==> ix[..d + 1] !in s.dir && |s.used| == pmm.totalFrames
      ensures r.OutOfFrames? ==> t == s && Missing(s.dir, ix) > 0
      ensures !r.OutOfFrames? ==>
        && ix[..d + 1] in t.dir && t.dir[ix[..d + 1]] == r.table
        && |t.used| + Missing(t.dir, ix) == |s.used| + Missing(s.dir, ix)
        && |t.used| <= pmm.totalFrames
      ensures r.Stop? ==> d == 2
    {
      assert PathOk(s.mem, s.dir, ix[..d]) && SlotOk(s.mem, s.dir, ix[..d], ix[d]);
      Descend(ix, d);
      pmm.Room();
      MissingAt(s, ix, d);
      var e := mem[table][ix[d]];
      if !e.flags.present || e.flags.ps {
        var n;
        n, t := NewTable(table, d, ix, s);
        if n.None? {
          return OutOfFrames, t;
        }
        MissingStep(s, ix, d, n.value);
        return if e.flags.present then Stop(n.value) else Down(n.value), t;
      }
      assert PathOk(s.mem, s.dir, ix[..d + 1]);
      if e.ppn == 0 {
        // The source reports a corrupt entry and gives up; no tree holds one.
        assert false;
      }
      t := PatchEntry(table, d, ix, leaf, s);
      SameWalksView(s, t);
      r := Down(e.ppn);
    }

    /** ensure_nonleaf_user_bit on the entry for page `ix` in the table at ix[..d]. */
    method PatchEntry(table: nat, d: nat, ix: Index, leaf: Flags, ghost s: Space) returns (ghost t: Space)
      requires Holds(s) && d < 3 && ix[..d] in s.dir && s.dir[ix[..d]] == table && ix[..d + 1] in s.dir
      modifies this`mem
      ensures Holds(t) && Grown(s, t) && SameWalks(s, t) && t.dir == s.dir && t.used == s.used
    {
      assert PathOk(s.mem, s.dir, ix[..d]);
      Patched(s, ix, d, leaf);
      mem := Store(mem, table, ix[d], WithUser(mem[table][ix[d]], leaf));
      t := s.(mem := mem);
    }

    /** map's loop: reach the level-0 table of page `ix`, building what is missing. */
    method MapTable(root: nat, ix: Index, flags: Flags, ghost s: Space) returns (r: Option<nat>, ghost t: Space)
      requires Holds(s) && Root(s) == root
      modifies this`mem, pmm`nextFree, pmm.bitmap
      ensures Holds(t) && Grown(s, t) && SameView(s, t) && OnTheWay(s, t, ix)
      ensures r.Some? <==> |s.used| + Missing(s.dir, ix) <= pmm.totalFrames
      ensures |t.used| == if r.Some? then |s.used| + Missing(s.dir, ix) else pmm.totalFrames
      ensures r.Some? ==> ix[..3] in t.dir && t.dir[ix[..3]] == r.value
    {
      t := s;
      var table, d := root, 0;
      assert ix[..0] == [];
      pmm.Room();
      while d < 3
        invariant d <= 3
        invariant Holds(t) && Grown(s, t) && SameView(s, t) && OnTheWay(s, t, ix)
        invariant ix[..d] in t.dir && t.dir[ix[..d]] == table
        invariant |t.used| + Missing(t.dir, ix) == |s.used| + Missing(s.dir, ix)
        invariant |t.used| <= pmm.totalFrames
      {
        ghost var u := t;
        var step;
        step, t := Step(table, d, ix, flags, t);
        GrownTrans(s, u, t);
        if step.OutOfFrames? {
          return None, t;
        }
        table, d := step.table, d + 1;
        if step.Stop? {
          break;
        }
      }
      r := Some(table);
    }

    /** map on page indices: write the leaf `e` of page `ix`. */
    method MapPage(root: nat, ix: Index, e: Entry, ghost s: Space) returns (ok: bool, ghost t: Space)
      requires Holds(s) && Root(s) == root
      modifies this`mem, pmm`nextFree, pmm.bitmap
      ensures Holds(t) && Grown(s, t) && OnTheWay(s, t, ix)
      ensures ok <==> |s.used| + Missing(s.dir, ix) <= pmm.totalFrames
      ensures ok ==> ix[..3] in t.dir
      ensures |t.used| == if ok then |s.used| + Missing(s.dir, ix) else pmm.totalFrames
      ensures if ok then Remapped(s, t, ix, LeafPage(e)) else SameView(s, t)
      ensures ok && e.flags.present ==> Walks(t, ix) == Mapped(e, 0)
    {
      var n;
      n, t := MapTable(root, ix, e.flags, s);
      ok := n.Some?;
      if ok {
        assert PathOk(t.mem, t.dir, ix[..3]);
        LeafSet(t, ix, e);
        mem := Store(mem, n.value, ix[3], e);
        ghost var u := t;
        t := t.(mem := mem);
        GrownTrans(s, u, t);
        Is4KIff(t, ix);
      }
    }

    /** map: point the page of `va` at the frame of `pa`; false is the panic for lack of frames. */
    method Map(root: nat, va: nat, pa: nat, flags: Flags, ghost s: Space) returns (ok: bool, ghost t: Space)
      requires Holds(s) && Root(s) == root
      modifies this`mem, pmm`nextFree, pmm.bitmap
      ensures Holds(t) && Grown(s, t)
      ensures ok <==> |s.used| + Missing(s.dir, Indices(va)) <= pmm.totalFrames
      ensures !ok ==> SameView(s, t) && |t.used| == pmm.totalFrames
      ensures ok ==> Remapped(s, t, Indices(va), LeafPage(Encode(pa, flags)))
      ensures ok ==> Retranslated(s, t, va, LeafPage(Encode(pa, flags)))
      ensures ok && flags.present ==> Walks(t, Indices(va)) == Mapped(Encode(pa, flags), 0)
    {
      ok, t := MapPage(root, Indices(va), Encode(pa, flags), s);
      if ok {
        RemappedAddresses(s, t, va, LeafPage(Encode(pa, flags)));
      }
    }

    method TranslateUser(root: nat, va: nat, ghost s: Space) returns (r: Option<nat>)
      requires s.mem == mem && Root(s) == root
      ensures r == Resolves(s, va)
    {
      var table, d, ix := root, 0, Indices(va);
      assert ix[..0] == [];
      while d < 3
        invariant d <= 3 && ix[..d] in s.dir && s.dir[ix[..d]] == table
        invariant Walks(s, ix) == Walk(mem, table, ix, 3 - d)
      {
        Descend(ix, d);
        assert PathOk(mem, s.dir, ix[..d]) && SlotOk(mem, s.dir, ix[..d], ix[d]);
        var e := mem[table][ix[d]];
        if !e.flags.present {
          return None;
        }
        if e.flags.ps {
          return Some(e.ppn * 0x1000 + va % Span(3 - d));
        }
        assert PathOk(mem, s.dir, ix[..d + 1]);
        table, d := e.ppn, d + 1;
      }
      assert PathOk(mem, s.dir, ix[..3]);
      var e := mem[table][ix[3]];
      if !e.flags.present {
        return None;
      }
      return Some(e.ppn * 0x1000 + va % 0x1000);
    }

    method WalkMapping(root: nat, va: nat, ghost s: Space) returns (r: WalkResult)
      requires s.mem == mem && Root(s) == root
      ensures r == ResultOf(Walks(s, Indices(va)), va)
    {
      var table, d, ix := root, 0, Indices(va);
      assert ix[..0] == [];
      while d < 3
        invariant d <= 3 && ix[..d] in s.dir && s.dir[ix[..d]] == table
        invariant Walks(s, ix) == Walk(mem, table, ix, 3 - d)
      {
        Descend(ix, d);
        assert PathOk(mem, s.dir, ix[..d]) && SlotOk(mem, s.dir, ix[..d], ix[d]);
        var e := mem[table][ix[d]];
        if !e.flags.present {
          return Unmapped;
        }
        if e.flags.ps {
          var size := Span(3 - d);
          return MappedHuge(e.ppn * 0x1000 + va % size, 3 - d, size, e.flags);
        }
        assert PathOk(mem, s.dir, ix[..d + 1]);
        table, d := e.ppn, d + 1;
      }
      assert PathOk(mem, s.dir, ix[..3]);
      var e := mem[table][ix[3]];
      if !e.flags.present {
        return Unmapped;
      }
      if e.ppn == 0 {
        return Corrupt;
      }
      return Mapped4K(e.ppn * 0x1000 + va % 0x1000, e.flags);
    }

    /** walk_to_pt: the level-0 table of a page, when no large page or gap is in the way. */
    method WalkToPt(root: nat, ix: Index, ghost s: Space) returns (r: Option<nat>)
      requires s.mem == mem && Root(s) == root
      ensures r.Some? <==> ix[..3] in s.dir
      ensures r.Some? ==> r.value == s.dir[ix[..3]] && r.value in mem
    {
      var table, d := root, 0;
      assert ix[..0] == [];
      while d < 3
        invariant d <= 3 && ix[..d] in s.dir && s.dir[ix[..d]] == table
      {
        Descend(ix, d);
        assert PathOk(mem, s.dir, ix[..d]) && SlotOk(mem, s.dir, ix[..d], ix[d]);
        var e := mem[table][ix[d]];
        if !e.flags.present || e.flags.ps {
          Shallow(s, ix, d + 1);
          return None;
        }
        table, d := e.ppn, d + 1;
      }
      assert PathOk(mem, s.dir, ix[..3]);
      return Some(table);
    }

    /** unmap_user on page indices: clear a present 4K leaf and return it. */
    method UnmapPage(root: nat, ix: Index, ghost s: Space) returns (r: Option<Entry>, ghost t: Space)
      requires Holds(s) && Root(s) == root
      modifies this`mem
      ensures Holds(t) && Grown(s, t) && t.dir == s.dir
      ensures r.Some? <==> Is4K(Walks(s, ix))
      ensures r.None? ==> t == s
      ensures r.Some? ==> Walks(s, ix) == Mapped(r.value, 0) && Remapped(s, t, ix, NoPage)
    {
      t := s;
      var n := WalkToPt(root, ix, s);
      Is4KIff(s, ix);
      if n.None? {
        return None, s;
      }
      var e := mem[n.value][ix[3]];
      if !e.flags.present {
        return None, s;
      }
      LeafSet(s, ix, ZERO);
      mem := Store(mem, n.value, ix[3], ZERO);
      t := s.(mem := mem);
      r := Some(e);
    }

    /** unmap_user: drop one 4K page and return the address it translated to. */
    method UnmapUser(root: nat, va: nat, ghost s: Space) returns (r: Option<nat>, ghost t: Space)
      requires Holds(s) && Root(s) == root
      modifies this`mem
      ensures Holds(t) && Grown(s, t) && t.dir == s.dir
      ensures r == if Is4K(Walks(s, Indices(va))) then Resolves(s, va) else None
      ensures r.None? ==> t == s
      ensures r.Some? ==> Remapped(s, t, Indices(va), NoPage) && Retranslated(s, t, va, NoPage)
    {
      var e;
      e, t := UnmapPage(root, Indices(va), s);
      if e.None? {
        return None, t;
      }
      RemappedAddresses(s, t, va, NoPage);
      return Some(e.value.ppn * 0x1000 + va % 0x1000), t;
    }

    /** mprotect_user's loop: reach the level-0 table, setting USER on the way. */
    method PatchPath(root: nat, ix: Index, flags: Flags, ghost s: Space) returns (r: Option<nat>, ghost t: Space)
      requires Holds(s) && Root(s) == root
      modifies this`mem
      ensures Holds(t) && Grown(s, t) && SameWalks(s, t) && t.dir == s.dir
      ensures r.Some? <==> ix[..3] in s.dir
      ensures r.Some? ==> r.value == s.dir[ix[..3]] && r.value in mem
    {
      t := s;
      var table, d := root, 0;
      assert ix[..0] == [];
      while d < 3
        invariant d <= 3 && ix[..d] in s.dir && s.dir[ix[..d]] == table
        invariant Holds(t) && Grown(s, t) && SameWalks(s, t) && t.dir == s.dir
      {
        Descend(ix, d);
        assert PathOk(mem, t.dir, ix[..d]) && SlotOk(mem, t.dir, ix[..d], ix[d]);
        var e := mem[table][ix[d]];
        if !e.flags.present || e.flags.ps {
          Shallow(t, ix, d + 1);
          return None, t;
        }
        ghost var u := t;
        t := PatchEntry(table, d, ix, flags, u);
        GrownTrans(s, u, t);
        table, d := e.ppn, d + 1;
      }
      assert PathOk(mem, t.dir, ix[..3]);
      r := Some(table);
    }

    /** mprotect_user on page indices: rewrite the flags of one 4K page; the frame stays. */
    method MprotectPage(root: nat, ix: Index, flags: Flags, ghost s: Space) returns (ok: bool, ghost t: Space)
      requires Holds(s) && Root(s) == root
      modifies this`mem
      ensures Holds(t) && Grown(s, t) && t.dir == s.dir
      ensures ok == Is4K(Walks(s, ix))
      ensures if ok then Remapped(s, t, ix, LeafPage(Entry(Walks(s, ix).entry.ppn, flags))) else SameWalks(s, t)
    {
      var n;
      n, t := PatchPath(root, ix, flags, s);
      Is4KIff(t, ix);
      assert Walks(t, ix) == Walks(s, ix);
      Is4KIff(s, ix);
      if n.None? {
        return false, t;
      }
      var e := mem[n.value][ix[3]];
      if !e.flags.present {
        return false, t;
      }
      SameWalksView(s, t);
      LeafSet(t, ix, Entry(e.ppn, flags));
      ghost var u := t;
      mem := Store(mem, n.value, ix[3], Entry(e.ppn, flags));
      t := t.(mem := mem);
      GrownTrans(s, u, t);
      ok := true;
    }

    /** mprotect_user; translations survive exactly when no 4K page is found or the new flags are present. */
    method MprotectUser(root: nat, va: nat, flags: Flags, ghost s: Space) returns (ok: bool, ghost t: Space)
      requires Holds(s) && Root(s) == root
      modifies this`mem
      ensures Holds(t) && Grown(s, t) && t.dir == s.dir
      ensures ok == Is4K(Walks(s, Indices(va)))
      ensures (forall w: nat :: Resolves(t, w) == Resolves(s, w)) <==> !ok || flags.present
      ensures if ok then Remapped(s, t, Indices(va), LeafPage(Entry(Walks(s, Indices(va)).entry.ppn, flags)))
              else SameView(s, t)
    {
      ok, t := MprotectPage(root, Indices(va), flags, s);
      if !ok {
        SameWalksView(s, t);
      }
      MprotectKeeps(s, t, va, flags);
    }
  }
}
