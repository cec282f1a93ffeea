/**
 The meaning of a four-level page table in physical memory (kernel/src/mm/vmm.rs), and
 the invariant that makes a table a tree.

 Physical memory holds one 512-entry table per frame number.  A virtual address selects
 four 9-bit indices, from level 3 (the root) down to level 0; a table is named by the
 index path that leads to it, so the root has the empty path.
 */
module PageTables {
  import opened Pte
  import opened Common

  const ENTRIES: nat := 512

  type Table = t: seq<Entry> | |t| == ENTRIES witness seq(ENTRIES, _ => ZERO)
  type Mem = map<nat, Table>
  type Index = ix: seq<nat> | |ix| == 4 && forall k :: 0 <= k < 4 ==> ix[k] < ENTRIES witness [0, 0, 0, 0]

  /** The tables of one tree: index path to frame number. */
  type Dir = map<seq<nat>, nat>

  /** Bytes covered by one entry of a table at `level`. */
  function Span(level: nat): nat
    requires level <= 3
  {
    if level == 0 then 0x1000 else if level == 1 then 0x20_0000
    else if level == 2 then 0x4000_0000 else 0x80_0000_0000
  }

  function Vpn(va: nat, level: nat): nat
    requires level <= 3
  {
    va / Span(level) % ENTRIES
  }

  function Indices(va: nat): Index
  {
    [Vpn(va, 3), Vpn(va, 2), Vpn(va, 1), Vpn(va, 0)]
  }

  /** The 48-bit page number of an address; higher address bits play no part in a walk. */
  function PageNo(va: nat): nat
  {
    va / 0x1000 % 0x10_0000_0000
  }

  /** Two addresses share all indices exactly when their 48-bit page numbers agree. */
  lemma SamePage(a: nat, b: nat)
    ensures Indices(a) == Indices(b) <==> PageNo(a) == PageNo(b)
  {
    Digits(a);
    Digits(b);
    var x, y := Indices(a), Indices(b);
    DigitsUnique(x, y);
    assert x == y <==> x[0] == y[0] && x[1] == y[1] && x[2] == y[2] && x[3] == y[3];
  }

  /** The page number with these base-512 digits. */
  function Number(ix: Index): nat
  {
    ix[3] + 0x200 * ix[2] + 0x4_0000 * ix[1] + 0x800_0000 * ix[0]
  }

  lemma DigitsUnique(x: Index, y: Index)
    ensures Number(x) == Number(y) <==> x[0] == y[0] && x[1] == y[1] && x[2] == y[2] && x[3] == y[3]
    ensures Number(x) / 512 == Number(y) / 512 <==> x[0] == y[0] && x[1] == y[1] && x[2] == y[2]
    ensures Number(x) % 512 == x[3]
  {
    Upper(x);
    Upper(y);
    assert x[2] + 0x200 * x[1] + 0x4_0000 * x[0] == y[2] + 0x200 * y[1] + 0x4_0000 * y[0] <==> x[0] == y[0] && x[1] == y[1] && x[2] == y[2];
  }

  lemma Upper(x: Index)
    ensures Number(x) / 512 == x[2] + 0x200 * x[1] + 0x4_0000 * x[0] && Number(x) % 512 == x[3]
  {
  }

  /** The spans of the levels are powers of 512 pages. */
  lemma Shifts(a: nat)
    ensures a / 0x20_0000 == a / 0x1000 / 512
    ensures a / 0x4000_0000 == a / 0x1000 / 512 / 512
    ensures a / 0x80_0000_0000 == a / 0x1000 / 512 / 512 / 512
  {
  }

  lemma Base512(n0: nat, n1: nat, n2: nat, n3: nat)
    requires n1 == n0 / 512 && n2 == n1 / 512 && n3 == n2 / 512
    ensures n0 % 0x10_0000_0000 == n0 % 512 + 0x200 * (n1 % 512) + 0x4_0000 * (n2 % 512) + 0x800_0000 * (n3 % 512)
  {
  }

  /** The 48-bit page number, written in base 512. */
  lemma Digits(a: nat)
    ensures PageNo(a) == Number(Indices(a))
  {
    var n := a / 0x1000;
    Shifts(a);
    Base512(n, n / 512, n / 512 / 512, n / 512 / 512 / 512);
  }

  datatype Walked = NotMapped | Invalid | Mapped(entry: Entry, level: nat)

  /** The walk of translate_user: stop at a missing entry, at a large leaf, or at level 0. */
  function Walk(m: Mem, f: nat, ix: Index, level: nat): Walked
    requires level <= 3
    decreases level
  {
    if f !in m then Invalid
    else
      var e := m[f][ix[3 - level]];
      if !e.flags.present then NotMapped
      else if level == 0 || e.flags.ps then Mapped(e, level)
      else if e.ppn == 0 then Invalid
      else Walk(m, e.ppn, ix, level - 1)
  }

  /** What one 4K page means: the frame it names and the flags of its leaf, PS aside for large leaves. */
  datatype Page = NoPage | Page(frame: nat, flags: Flags)

  /** Frames between the start of a leaf at `level` and the page `ix` inside it. */
  function Offset(ix: Index, level: nat): nat
  {
    if level == 0 then 0
    else if level == 1 then ix[3]
    else if level == 2 then ix[2] * 512 + ix[3]
    else ix[1] * 0x4_0000 + ix[2] * 512 + ix[3]
  }

  function View(w: Walked, ix: Index): Page
  {
    match w
    case Mapped(e, level) =>
      if level == 0 then Page(e.ppn, e.flags) else Page(e.ppn + Offset(ix, level), e.flags.(ps := false))
    case _ => NoPage
  }

  function PageAt(m: Mem, root: nat, ix: Index): Page
  {
    View(Walk(m, root, ix, 3), ix)
  }

  // ---------------------------------------------------------------- the tree invariant

  /**
   Slot `i` of the inner table at path `p` points to the table at path p + [i], or is
   absent, or is a 2MB-aligned large leaf of a level-1 table.
   */
  ghost predicate SlotOk(m: Mem, dir: Dir, p: seq<nat>, i: nat)
    requires p in dir && i < ENTRIES
  {
    && dir[p] in m
    && var e := m[dir[p]][i];
       if p + [i] in dir then
         e.flags.present && !e.flags.ps && e.ppn == dir[p + [i]]
       else
         e.flags.present ==> e.flags.ps && |p| == 2 && e.ppn % ENTRIES == 0
  }

  ghost predicate PathOk(m: Mem, dir: Dir, p: seq<nat>)
    requires p in dir
  {
    && |p| <= 3
    && dir[p] in m
    && dir[p] != 0
    && (|p| > 0 ==> p[..|p| - 1] in dir && p[|p| - 1] < ENTRIES)
  }

  /** The tables of `dir` form a tree of distinct frames hanging from dir[[]]. */
  ghost predicate Tree(m: Mem, dir: Dir)
  {
    && [] in dir
    && (forall p {:trigger PathOk(m, dir, p)} :: p in dir ==> PathOk(m, dir, p))
    && (forall p, q {:trigger dir[p], dir[q]} :: p in dir && q in dir && dir[p] == dir[q] ==> p == q)
    && (forall p, i {:trigger SlotOk(m, dir, p, i)} :: p in dir && |p| < 3 && 0 <= i < ENTRIES ==> SlotOk(m, dir, p, i))
  }

  /** Slot `i` of the level-1 table at `p` is no user-accessible large leaf. */
  ghost predicate LargeIsKernel(m: Mem, dir: Dir, p: seq<nat>, i: nat)
    requires p in dir && i < ENTRIES
  {
    dir[p] in m && (m[dir[p]][i].flags.present && m[dir[p]][i].flags.ps ==> !m[dir[p]][i].flags.user)
  }

  /** All large leaves are supervisor-only, as the kernel's identity mappings are. */
  ghost predicate Supervisor(m: Mem, dir: Dir)
  {
    forall p, i {:trigger LargeIsKernel(m, dir, p, i)} :: p in dir && |p| == 2 && 0 <= i < ENTRIES ==> LargeIsKernel(m, dir, p, i)
  }

  /** The pointer to the table at `p + [i]`, if there is one, has USER. */
  ghost predicate DoorOpen(m: Mem, dir: Dir, p: seq<nat>, i: nat)
    requires p in dir && i < ENTRIES
  {
    p + [i] in dir ==> dir[p] in m && m[dir[p]][i].flags.user
  }

  /** All table pointers have USER, so that only the leaf decides who reaches a page. */
  ghost predicate Doors(m: Mem, dir: Dir)
  {
    forall p, i {:trigger DoorOpen(m, dir, p, i)} :: p in dir && 0 <= i < ENTRIES ==> DoorOpen(m, dir, p, i)
  }

  lemma Descend(ix: Index, k: nat)
    requires k < 4
    ensures ix[..k] + [ix[k]] == ix[..k + 1]
  {
  }

  /** A walk in a tree meets only tables of the tree and ends at level 0 or at a 2MB leaf. */
  lemma {:induction false} WalkInTree(m: Mem, dir: Dir, ix: Index, level: nat)
    requires Tree(m, dir) && level <= 3
    requires ix[..3 - level] in dir
    ensures var w := Walk(m, dir[ix[..3 - level]], ix, level);
            w.NotMapped? || (w.Mapped? && w.level <= 1 && (w.level == 1 ==> w.entry.flags.ps && w.entry.ppn % ENTRIES == 0))
    decreases level
  {
    var p := ix[..3 - level];
    assert PathOk(m, dir, p);
    if level > 0 {
      assert SlotOk(m, dir, p, ix[3 - level]);
      Descend(ix, 3 - level);
      if ix[..4 - level] in dir {
        assert PathOk(m, dir, ix[..4 - level]);
        WalkInTree(m, dir, ix, level - 1);
      }
    }
  }

  // ---------------------------------------------------------------- hanging in a table

  function Store(m: Mem, f: nat, i: nat, e: Entry): Mem
    requires f in m && i < ENTRIES
  {
    m[f := m[f][i := e]]
  }

  /** Memory after frame `n` received the table `t` and slot `i` of table `f` was pointed at it. */
  function Hang(m: Mem, f: nat, i: nat, n: nat, t: Table): Mem
    requires f in m && i < ENTRIES
  {
    Store(m[n := t], f, i, Entry(n, NON_LEAF_FLAGS))
  }

  /** Entry `j` of the table that may stand in for the entry `e`: page j of a large leaf, or nothing. */
  function StandIn(e: Entry, j: nat): Entry
  {
    if e.flags.present then Entry(e.ppn + j, e.flags.(ps := false)) else ZERO
  }

  /** `t` says about the pages below slot `i` of the table at `p` what the old entry said. */
  ghost predicate Stands(was: Entry, p: seq<nat>, t: Table)
  {
    && (was.flags.present ==> |p| == 2)
    && forall j :: 0 <= j < ENTRIES ==> t[j] == StandIn(was, j)
  }

  /** What hanging a table needs: an absent slot or a large leaf, a fresh frame, an equivalent table. */
  ghost predicate CanHang(m: Mem, dir: Dir, p: seq<nat>, i: nat, n: nat, t: Table)
  {
    && Tree(m, dir) && p in dir && |p| < 3 && i < ENTRIES && p + [i] !in dir
    && n != 0 && (forall q :: q in dir ==> dir[q] != n)
    && dir[p] in m && Stands(m[dir[p]][i], p, t)
  }

  lemma HangSlot(m: Mem, dir: Dir, p: seq<nat>, i: nat, n: nat, t: Table, q: seq<nat>, j: nat)
    requires CanHang(m, dir, p, i, n, t) && q in dir[p + [i] := n] && |q| < 3 && j < ENTRIES
    ensures SlotOk(Hang(m, dir[p], i, n, t), dir[p + [i] := n], q, j)
  {
    if q == p + [i] {
      assert (q + [j])[..|q|] == q;
      assert q + [j] in dir ==> PathOk(m, dir, q + [j]);
    } else {
      assert SlotOk(m, dir, q, j);
      if q + [j] == p + [i] {
        assert (q + [j])[..|q|] == q && (p + [i])[..|p|] == p;
      }
    }
  }

  lemma HangPath(m: Mem, dir: Dir, p: seq<nat>, i: nat, n: nat, t: Table, q: seq<nat>)
    requires CanHang(m, dir, p, i, n, t) && q in dir[p + [i] := n]
    ensures PathOk(Hang(m, dir[p], i, n, t), dir[p + [i] := n], q)
  {
    if q == p + [i] {
      assert q[..|q| - 1] == p;
    } else {
      assert PathOk(m, dir, q);
    }
  }

  /** Hanging an equivalent table below an absent slot or a large leaf keeps the tree. */
  lemma HangTree(m: Mem, dir: Dir, p: seq<nat>, i: nat, n: nat, t: Table)
    requires CanHang(m, dir, p, i, n, t)
    ensures Tree(Hang(m, dir[p], i, n, t), dir[p + [i] := n])
    ensures Supervisor(m, dir) ==> Supervisor(Hang(m, dir[p], i, n, t), dir[p + [i] := n])
  {
    var m', dir' := Hang(m, dir[p], i, n, t), dir[p + [i] := n];
    forall q, j | Supervisor(m, dir) && q in dir' && |q| == 2 && 0 <= j < ENTRIES
      ensures LargeIsKernel(m', dir', q, j)
    {
      assert q in dir ==> LargeIsKernel(m, dir, q, j);
    }
    forall q | q in dir'
      ensures PathOk(m', dir', q)
    {
      HangPath(m, dir, p, i, n, t, q);
    }
    forall q, j | q in dir' && |q| < 3 && 0 <= j < ENTRIES
      ensures SlotOk(m', dir', q, j)
    {
      HangSlot(m, dir, p, i, n, t, q, j);
    }
  }

  lemma HangDoors(m: Mem, dir: Dir, p: seq<nat>, i: nat, n: nat, t: Table)
    requires CanHang(m, dir, p, i, n, t) && Doors(m, dir)
    ensures Doors(Hang(m, dir[p], i, n, t), dir[p + [i] := n])
  {
    var m', dir' := Hang(m, dir[p], i, n, t), dir[p + [i] := n];
    forall q, j | q in dir' && 0 <= j < ENTRIES
      ensures DoorOpen(m', dir', q, j)
    {
      assert (q + [j])[..|q|] == q && (p + [i])[..|p|] == p;
      if q in dir {
        assert DoorOpen(m, dir, q, j);
      } else {
        assert q + [j] in dir ==> PathOk(m, dir, q + [j]);
      }
    }
  }

  lemma PatchDoors(m: Mem, dir: Dir, p: seq<nat>, i: nat, leaf: Flags)
    requires Tree(m, dir) && Doors(m, dir) && p in dir && i < ENTRIES && dir[p] in m
    ensures Doors(Store(m, dir[p], i, WithUser(m[dir[p]][i], leaf)), dir)
  {
    var m' := Store(m, dir[p], i, WithUser(m[dir[p]][i], leaf));
    forall q, j | q in dir && 0 <= j < ENTRIES
      ensures DoorOpen(m', dir, q, j)
    {
      assert DoorOpen(m, dir, q, j);
    }
  }

  /** Writing an entry that points to no table. */
  lemma EntryDoors(m: Mem, dir: Dir, p: seq<nat>, i: nat, e: Entry)
    requires Tree(m, dir) && Doors(m, dir) && p in dir && i < ENTRIES && dir[p] in m
    ensures Doors(Store(m, dir[p], i, e), dir - {p + [i]})
  {
    var m', dir' := Store(m, dir[p], i, e), dir - {p + [i]};
    forall q, j | q in dir' && 0 <= j < ENTRIES
      ensures DoorOpen(m', dir', q, j)
    {
      assert DoorOpen(m, dir, q, j);
    }
  }

  /** Hanging a table changes one entry of the tables that were there. */
  lemma HangEntry(m: Mem, dir: Dir, p: seq<nat>, i: nat, n: nat, t: Table, q: seq<nat>, j: nat)
    requires CanHang(m, dir, p, i, n, t) && q in dir && j < ENTRIES
    ensures var m' := Hang(m, dir[p], i, n, t);
            dir[q] in m && dir[q] in m' && m'[dir[q]][j] == if q == p && j == i then Entry(n, NON_LEAF_FLAGS) else m[dir[q]][j]
  {
    assert PathOk(m, dir, q);
  }

  /** The walk through the new table ends as the old entry said. */
  lemma HungBelow(m': Mem, was: Entry, p: seq<nat>, n: nat, t: Table, ix: Index, level: nat)
    requires 1 <= level <= 3 && |p| == 3 - level
    requires n in m' && m'[n] == t && Stands(was, p, t)
    ensures View(Walk(m', n, ix, level - 1), ix) == View(if was.flags.present then Mapped(was, 1) else NotMapped, ix)
  {
  }

  /** ... so the walk through the changed entry means what it meant. */
  lemma HungHere(m: Mem, dir: Dir, p: seq<nat>, i: nat, n: nat, t: Table, ix: Index, level: nat)
    requires CanHang(m, dir, p, i, n, t)
    requires 1 <= level <= 3 && ix[..3 - level] == p && ix[3 - level] == i
    ensures View(Walk(Hang(m, dir[p], i, n, t), dir[p], ix, level), ix) == View(Walk(m, dir[p], ix, level), ix)
  {
    assert PathOk(m, dir, p) && SlotOk(m, dir, p, i);
    HangEntry(m, dir, p, i, n, t, p, i);
    HungBelow(Hang(m, dir[p], i, n, t), m[dir[p]][i], p, n, t, ix, level);
  }

  /** Hanging in a table changes the meaning of no page. */
  lemma {:induction false} HangWalk(m: Mem, dir: Dir, p: seq<nat>, i: nat, n: nat, t: Table, ix: Index, level: nat)
    requires CanHang(m, dir, p, i, n, t)
    requires level <= 3 && ix[..3 - level] in dir
    ensures var f := dir[ix[..3 - level]];
            View(Walk(Hang(m, dir[p], i, n, t), f, ix, level), ix) == View(Walk(m, f, ix, level), ix)
    decreases level
  {
    var q, j := ix[..3 - level], ix[3 - level];
    HangEntry(m, dir, p, i, n, t, q, j);
    if level > 0 && q == p && j == i {
      HungHere(m, dir, p, i, n, t, ix, level);
    } else if level > 0 {
      Descend(ix, 3 - level);
      assert SlotOk(m, dir, q, j);
      if ix[..4 - level] in dir {
        assert PathOk(m, dir, ix[..4 - level]);
        HangWalk(m, dir, p, i, n, t, ix, level - 1);
      }
    }
  }

  // ---------------------------------------------------------------- setting the USER bit

  /** ensure_nonleaf_user_bit: adds USER to a table pointer when the leaf is a user page. */
  function WithUser(e: Entry, leaf: Flags): Entry
  {
    if !e.flags.user && leaf.user then e.(flags := e.flags.(user := true)) else e
  }

  lemma PatchTree(m: Mem, dir: Dir, p: seq<nat>, i: nat, leaf: Flags)
    requires Tree(m, dir)
    requires p in dir && |p| < 3 && i < ENTRIES && p + [i] in dir && dir[p] in m
    ensures Tree(Store(m, dir[p], i, WithUser(m[dir[p]][i], leaf)), dir)
    ensures Supervisor(m, dir) ==> Supervisor(Store(m, dir[p], i, WithUser(m[dir[p]][i], leaf)), dir)
  {
    var m' := Store(m, dir[p], i, WithUser(m[dir[p]][i], leaf));
    assert SlotOk(m, dir, p, i);
    forall q, j | Supervisor(m, dir) && q in dir && |q| == 2 && 0 <= j < ENTRIES
      ensures LargeIsKernel(m', dir, q, j)
    {
      assert LargeIsKernel(m, dir, q, j);
    }
    forall q | q in dir
      ensures PathOk(m', dir, q)
    {
      assert PathOk(m, dir, q);
    }
    forall q, j | q in dir && |q| < 3 && 0 <= j < ENTRIES
      ensures SlotOk(m', dir, q, j)
    {
      assert SlotOk(m, dir, q, j);
    }
  }

  lemma {:induction false} PatchWalk(m: Mem, dir: Dir, p: seq<nat>, i: nat, leaf: Flags, ix: Index, level: nat)
    requires Tree(m, dir)
    requires p in dir && |p| < 3 && i < ENTRIES && p + [i] in dir && dir[p] in m
    requires level <= 3 && ix[..3 - level] in dir
    ensures var f := dir[ix[..3 - level]];
            Walk(Store(m, dir[p], i, WithUser(m[dir[p]][i], leaf)), f, ix, level) == Walk(m, f, ix, level)
    decreases level
  {
    var q, m' := ix[..3 - level], Store(m, dir[p], i, WithUser(m[dir[p]][i], leaf));
    assert PathOk(m, dir, q);
    if level == 0 {
      assert m'[dir[q]] == m[dir[q]];
    } else {
      Descend(ix, 3 - level);
      var j := ix[3 - level];
      assert SlotOk(m, dir, q, j);
      assert m'[dir[q]][j] == m[dir[q]][j] || (ix[..4 - level] in dir && m'[dir[q]][j] == WithUser(m[dir[q]][j], leaf));
      if ix[..4 - level] in dir {
        assert PathOk(m, dir, ix[..4 - level]);
        PatchWalk(m, dir, p, i, leaf, ix, level - 1);
      }
    }
  }

  // ---------------------------------------------------------------- writing a leaf

  lemma LeafTree(m: Mem, dir: Dir, p: seq<nat>, i: nat, e: Entry)
    requires Tree(m, dir)
    requires p in dir && |p| == 3 && i < ENTRIES && dir[p] in m
    ensures Tree(Store(m, dir[p], i, e), dir)
    ensures Supervisor(m, dir) ==> Supervisor(Store(m, dir[p], i, e), dir)
  {
    var m' := Store(m, dir[p], i, e);
    forall q, j | Supervisor(m, dir) && q in dir && |q| == 2 && 0 <= j < ENTRIES
      ensures LargeIsKernel(m', dir, q, j)
    {
      assert LargeIsKernel(m, dir, q, j);
    }
    forall q | q in dir
      ensures PathOk(m', dir, q)
    {
      assert PathOk(m, dir, q);
    }
    forall q, j | q in dir && |q| < 3 && 0 <= j < ENTRIES
      ensures SlotOk(m', dir, q, j)
    {
      assert SlotOk(m, dir, q, j);
    }
  }

  /** What a walk finds in slot `i` of the leaf table at `p` when `e` is there, and elsewhere in a leaf table. */
  lemma LeafSlot(m: Mem, dir: Dir, p: seq<nat>, i: nat, e: Entry, ix: Index)
    requires Tree(m, dir)
    requires p in dir && |p| == 3 && i < ENTRIES && dir[p] in m && ix[..3] in dir
    ensures var f, w := dir[ix[..3]], Walk(Store(m, dir[p], i, e), dir[ix[..3]], ix, 0);
            if ix == p + [i] then w == (if e.flags.present then Mapped(e, 0) else NotMapped) else w == Walk(m, f, ix, 0)
  {
    assert PathOk(m, dir, ix[..3]) && ix == ix[..3] + [ix[3]];
    assert (p + [i])[..3] == p && (p + [i])[3] == i;
  }

  /** The tables on the way to a page of the leaf table at `p` are there. */
  lemma OnPath(m: Mem, dir: Dir, p: seq<nat>, i: nat, ix: Index, k: nat)
    requires Tree(m, dir) && p in dir && |p| == 3 && ix == p + [i] && k <= 3
    ensures ix[..k] in dir
  {
    PrefixIn(m, dir, p, k);
    assert p[..k] == ix[..k];
  }

  /** Writing slot `i` of the leaf table at `p` changes the walk of page p + [i] and of no other. */
  lemma {:induction false} LeafWalk(m: Mem, dir: Dir, p: seq<nat>, i: nat, e: Entry, ix: Index, level: nat)
    requires Tree(m, dir)
    requires p in dir && |p| == 3 && i < ENTRIES && dir[p] in m
    requires level <= 3 && ix[..3 - level] in dir
    ensures var f, w := dir[ix[..3 - level]], Walk(Store(m, dir[p], i, e), dir[ix[..3 - level]], ix, level);
            if ix == p + [i] then w == (if e.flags.present then Mapped(e, 0) else NotMapped) else w == Walk(m, f, ix, level)
    decreases level
  {
    if level == 0 {
      LeafSlot(m, dir, p, i, e, ix);
    } else {
      var q, m' := ix[..3 - level], Store(m, dir[p], i, e);
      assert PathOk(m, dir, q);
      Descend(ix, 3 - level);
      assert SlotOk(m, dir, q, ix[3 - level]);
      assert m'[dir[q]] == m[dir[q]];
      if ix == p + [i] {
        OnPath(m, dir, p, i, ix, 4 - level);
      }
      if ix[..4 - level] in dir {
        assert PathOk(m, dir, ix[..4 - level]);
        LeafWalk(m, dir, p, i, e, ix, level - 1);
      }
    }
  }

  /** Writing a large leaf over slot `i` of a level-1 table drops the table that hung there. */
  lemma LargeTree(m: Mem, dir: Dir, p: seq<nat>, i: nat, e: Entry)
    requires Tree(m, dir)
    requires p in dir && |p| == 2 && i < ENTRIES && dir[p] in m
    requires e.flags.ps && e.ppn % ENTRIES == 0
    ensures Tree(Store(m, dir[p], i, e), dir - {p + [i]})
    ensures Supervisor(m, dir) && !e.flags.user ==> Supervisor(Store(m, dir[p], i, e), dir - {p + [i]})
  {
    var m', dir' := Store(m, dir[p], i, e), dir - {p + [i]};
    forall q, j | Supervisor(m, dir) && !e.flags.user && q in dir' && |q| == 2 && 0 <= j < ENTRIES
      ensures LargeIsKernel(m', dir', q, j)
    {
      assert LargeIsKernel(m, dir, q, j);
    }
    assert |p + [i]| == 3;
    forall q | q in dir'
      ensures PathOk(m', dir', q)
    {
      assert PathOk(m, dir, q);
    }
    forall q, j | q in dir' && |q| < 3 && 0 <= j < ENTRIES
      ensures SlotOk(m', dir', q, j)
    {
      assert SlotOk(m, dir, q, j);
      assert (q + [j])[..|q|] == q && (p + [i])[..|p|] == p;
    }
  }

  /** ... and changes exactly the 512 pages below that slot. */
  lemma {:induction false} LargeWalk(m: Mem, dir: Dir, p: seq<nat>, i: nat, e: Entry, ix: Index, d: nat)
    requires Tree(m, dir)
    requires p in dir && |p| == 2 && i < ENTRIES && dir[p] in m
    requires e.flags.ps && e.ppn % ENTRIES == 0
    requires d <= 2 && ix[..d] in dir
    ensures var w := Walk(Store(m, dir[p], i, e), dir[ix[..d]], ix, 3 - d);
            if ix[..3] == p + [i] then w == (if e.flags.present then Mapped(e, 1) else NotMapped)
            else w == Walk(m, dir[ix[..d]], ix, 3 - d)
    decreases 3 - d
  {
    var m' := Store(m, dir[p], i, e);
    assert PathOk(m, dir, ix[..d]);
    Descend(ix, d);
    assert SlotOk(m, dir, ix[..d], ix[d]);
    if ix[..3] == p + [i] {
      assert ix[..2] == p;
      PrefixIn(m, dir, p, if d < 2 then d + 1 else 2);
      assert d < 2 ==> p[..d + 1] == ix[..d + 1];
    }
    if d < 2 && ix[..d + 1] in dir {
      assert PathOk(m, dir, ix[..d + 1]);
      LargeWalk(m, dir, p, i, e, ix, d + 1);
    } else if d == 2 && ix[..3] in dir && ix[..3] != p + [i] {
      assert PathOk(m, dir, ix[..3]);
      assert m'[dir[ix[..3]]] == m[dir[ix[..3]]];
    }
  }

  /** A tree holds every prefix of its paths. */
  lemma {:induction false} PrefixIn(m: Mem, dir: Dir, p: seq<nat>, k: nat)
    requires Tree(m, dir) && p in dir && k <= |p|
    ensures p[..k] in dir
    decreases |p|
  {
    assert PathOk(m, dir, p);
    if k == |p| {
      assert p[..k] == p;
    } else {
      PrefixIn(m, dir, p[..|p| - 1], k);
      assert p[..|p| - 1][..k] == p[..k];
    }
  }

  // ---------------------------------------------------------------- addresses

  /** translate_user; a leaf's frame is aligned to the leaf's size, so `|` adds the offset. */
  function Translate(m: Mem, root: nat, va: nat): Option<nat>
  {
    match Walk(m, root, Indices(va), 3)
    case Mapped(e, level) => if level <= 3 then Some(e.ppn * 0x1000 + va % Span(level)) else None
    case _ => None
  }

  function Address(page: Page, va: nat): Option<nat>
  {
    match page
    case NoPage => None
    case Page(frame, _) => Some(frame * 0x1000 + va % 0x1000)
  }

  /** In a tree, an address translates to its page's frame plus the offset in the page. */
  lemma TranslateIsPage(m: Mem, dir: Dir, va: nat)
    requires Tree(m, dir)
    ensures Translate(m, dir[[]], va) == Address(PageAt(m, dir[[]], Indices(va)), va)
  {
    assert Indices(va)[..0] == [];
    WalkInTree(m, dir, Indices(va), 3);
    InLarge(va);
  }

  lemma InLarge(va: nat)
    ensures va % 0x20_0000 == Indices(va)[3] * 0x1000 + va % 0x1000
  {
    var n := va / 0x1000;
    LowPart(va, n / 512, n % 512, va % 0x1000);
  }

  lemma LowPart(va: nat, high: nat, page: nat, offset: nat)
    requires va == (512 * high + page) * 0x1000 + offset && page < 512 && offset < 0x1000
    ensures va % 0x20_0000 == page * 0x1000 + offset
  {
  }

  /** USER at every level and at the leaf: what a Ring 3 access needs. */
  predicate UserReach(m: Mem, f: nat, ix: Index, level: nat)
    requires level <= 3
    decreases level
  {
    && f in m
    && var e := m[f][ix[3 - level]];
       e.flags.present && e.flags.user && (level == 0 || e.flags.ps || UserReach(m, e.ppn, ix, level - 1))
  }

  /** A page is out of Ring 3's reach when its leaf lacks USER, whatever the inner entries say. */
  lemma {:induction false} UserReachLeaf(m: Mem, f: nat, ix: Index, level: nat)
    requires level <= 3
    requires UserReach(m, f, ix, level)
    ensures var w := Walk(m, f, ix, level); w.Invalid? || (View(w, ix).Page? && View(w, ix).flags.user)
    decreases level
  {
    var e := m[f][ix[3 - level]];
    if level > 0 && !e.flags.ps {
      UserReachLeaf(m, e.ppn, ix, level - 1);
    }
  }

  /** With all doors open a page is within Ring 3's reach exactly when its leaf has USER. */
  lemma {:induction false} ReachIff(m: Mem, dir: Dir, ix: Index, d: nat)
    requires Tree(m, dir) && Doors(m, dir) && d <= 3 && ix[..d] in dir
    ensures var f, w := dir[ix[..d]], Walk(m, dir[ix[..d]], ix, 3 - d);
            UserReach(m, f, ix, 3 - d) <==> w.Mapped? && w.entry.flags.user
    decreases 3 - d
  {
    assert PathOk(m, dir, ix[..d]);
    if d < 3 {
      Descend(ix, d);
      assert SlotOk(m, dir, ix[..d], ix[d]) && DoorOpen(m, dir, ix[..d], ix[d]);
      if ix[..d + 1] in dir {
        assert PathOk(m, dir, ix[..d + 1]);
        ReachIff(m, dir, ix, d + 1);
      }
    }
  }
}
