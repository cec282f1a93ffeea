/**
 One page-table tree inside physical memory, and what each change to it does.

 An address space is the memory, the set of allocated frames and the directory of its
 tables; the type holds only sound ones, whose tables form a tree of allocated frames.
 */
module Spaces {
  import opened Pte
  import opened PageTables
  import opened Common

  datatype Tables = Tables(mem: Mem, used: set<nat>, dir: Dir)

  ghost predicate Sound(s: Tables)
  {
    Tree(s.mem, s.dir) && s.dir.Values <= s.used
  }

  const EMPTY_TABLE: Table := seq(ENTRIES, _ => ZERO)

  ghost function Single(mem: Mem, used: set<nat>, root: nat): (s: Tables)
    requires root in mem && mem[root] == EMPTY_TABLE && root != 0 && root in used
    ensures Sound(s)
  {
    var s := Tables(mem, used, map[[] := root]);
    assert forall p, i :: p in s.dir && 0 <= i < ENTRIES ==> SlotOk(mem, s.dir, p, i);
    s
  }

  type Space = s: Tables | Sound(s) ghost witness Single(map[1 := EMPTY_TABLE], {1}, 1)

  ghost function Root(s: Space): nat
  {
    s.dir[[]]
  }

  /** The meaning of page `ix`. */
  ghost function Shows(s: Space, ix: Index): Page
  {
    PageAt(s.mem, Root(s), ix)
  }

  ghost function Walks(s: Space, ix: Index): Walked
  {
    Walk(s.mem, Root(s), ix, 3)
  }

  ghost function Resolves(s: Space, va: nat): Option<nat>
  {
    Translate(s.mem, Root(s), va)
  }

  ghost predicate KernelLarge(s: Space)
  {
    Supervisor(s.mem, s.dir)
  }

  ghost predicate AllOpen(s: Space)
  {
    Doors(s.mem, s.dir)
  }

  /** What may happen at one path: tables stay, and tables on fresh frames may appear. */
  ghost predicate Grew(s: Space, t: Space, p: seq<nat>)
  {
    if p in s.dir then p in t.dir && t.dir[p] == s.dir[p] else p in t.dir ==> t.dir[p] !in s.used
  }

  /** Memory outside the tree stays. */
  ghost predicate Kept(s: Space, t: Space, f: nat)
  {
    f in s.mem && f !in t.dir.Values ==> f in t.mem && t.mem[f] == s.mem[f]
  }

  /**
   The tree grew from `s` to `t`: old tables stay, new tables are frames that were free,
   exactly those were allocated, and no memory outside the tree changed.
   */
  ghost predicate Grown(s: Space, t: Space)
  {
    var grown :=
      && (forall p {:trigger Grew(s, t, p)} :: Grew(s, t, p))
      && (forall f {:trigger Kept(s, t, f)} :: Kept(s, t, f))
      && t.used == s.used + t.dir.Values
      && (KernelLarge(s) ==> KernelLarge(t)) && (AllOpen(s) ==> AllOpen(t));
    grown
  }

  lemma GrownRoot(s: Space, t: Space)
    requires Grown(s, t)
    ensures Root(t) == Root(s) && s.dir.Values <= t.dir.Values
  {
    assert Grew(s, t, []);
    forall f | f in s.dir.Values
      ensures f in t.dir.Values
    {
      var p :| p in s.dir && s.dir[p] == f;
      assert Grew(s, t, p);
      assert t.dir[p] == f;
    }
  }

  lemma GrownTrans(s: Space, t: Space, u: Space)
    requires Grown(s, t) && Grown(t, u)
    ensures Grown(s, u)
  {
    GrownRoot(t, u);
    forall p
      ensures Grew(s, u, p)
    {
      assert Grew(s, t, p) && Grew(t, u, p);
    }
    forall f
      ensures Kept(s, u, f)
    {
      assert Kept(s, t, f) && Kept(t, u, f);
    }
  }

  /** Every page means the same. */
  ghost predicate SameView(s: Space, t: Space)
  {
    forall ix: Index :: Shows(t, ix) == Shows(s, ix)
  }

  /** Every walk ends at the same entry. */
  ghost predicate SameWalks(s: Space, t: Space)
  {
    forall ix: Index :: Walks(t, ix) == Walks(s, ix)
  }

  lemma SameWalksView(s: Space, t: Space)
    requires SameWalks(s, t)
    ensures SameView(s, t)
  {
    forall ix: Index
      ensures Shows(t, ix) == Shows(s, ix)
    {
      assert Walks(t, ix) == Walks(s, ix);
    }
  }

  /** Page `jx` now means `page`, every other page means what it did. */
  ghost predicate Remapped(s: Space, t: Space, jx: Index, page: Page)
  {
    forall ix: Index :: Shows(t, ix) == if ix == jx then page else Shows(s, ix)
  }

  /** The addresses of va's page translate by `page`, every other address as it did. */
  ghost predicate Retranslated(s: Space, t: Space, va: nat, page: Page)
  {
    forall w: nat :: Resolves(t, w) == if PageNo(w) == PageNo(va) then Address(page, w) else Resolves(s, w)
  }

  /** Remapping one page changes translate_user for exactly the addresses of that page. */
  lemma RemappedAddresses(s: Space, t: Space, va: nat, page: Page)
    requires Remapped(s, t, Indices(va), page)
    ensures Retranslated(s, t, va, page)
  {
    forall w: nat
      ensures Resolves(t, w) == if PageNo(w) == PageNo(va) then Address(page, w) else Resolves(s, w)
    {
      TranslateIsPage(s.mem, s.dir, w);
      TranslateIsPage(t.mem, t.dir, w);
      assert Shows(t, Indices(w)) == if Indices(w) == Indices(va) then page else Shows(s, Indices(w));
      SamePage(va, w);
    }
  }

  /** The meaning of a 4K leaf. */
  function LeafPage(e: Entry): Page
  {
    if e.flags.present then Page(e.ppn, e.flags) else NoPage
  }

  /** A page whose leaf lacks USER before a remapping elsewhere is out of Ring 3's reach after it. */
  lemma SiblingStaysKernel(s: Space, t: Space, jx: Index, page: Page, ix: Index)
    requires Remapped(s, t, jx, page) && ix != jx
    requires Shows(s, ix).NoPage? || !Shows(s, ix).flags.user
    ensures !UserReach(t.mem, Root(t), ix, 3)
  {
    assert ix[..0] == [];
    WalkInTree(t.mem, t.dir, ix, 3);
    assert Shows(t, ix) == Shows(s, ix);
    if UserReach(t.mem, Root(t), ix, 3) {
      UserReachLeaf(t.mem, Root(t), ix, 3);
      assert false;
    }
  }

  /** Exactly the pages whose leaf has USER are within Ring 3's reach. */
  lemma ReachIsUser(s: Space, ix: Index)
    requires AllOpen(s)
    ensures UserReach(s.mem, Root(s), ix, 3) <==> Shows(s, ix).Page? && Shows(s, ix).flags.user
  {
    assert ix[..0] == [];
    ReachIff(s.mem, s.dir, ix, 0);
  }

  // ---------------------------------------------------------------- tables on the way to a page

  /** Tables missing on the way to the page `ix`. */
  ghost function Missing(dir: Dir, ix: Index): nat
  {
    if ix[..3] in dir then 0 else if ix[..2] in dir then 1 else if ix[..1] in dir then 2 else 3
  }

  /** Only tables on the way to page `ix` appeared. */
  ghost predicate OnTheWay(s: Space, t: Space, ix: Index)
  {
    forall p :: p in t.dir && p !in s.dir ==> p <= ix
  }

  lemma Shallow(s: Space, ix: Index, k: nat)
    requires k <= 3
    ensures ix[..3] in s.dir ==> ix[..k] in s.dir
  {
    if ix[..3] in s.dir {
      PrefixIn(s.mem, s.dir, ix[..3], k);
      assert ix[..3][..k] == ix[..k];
    }
  }

  lemma MissingAt(s: Space, ix: Index, d: nat)
    requires d <= 3 && ix[..d] in s.dir
    ensures Missing(s.dir, ix) <= 3 - d
    ensures d < 3 && ix[..d + 1] !in s.dir ==> Missing(s.dir, ix) == 3 - d
  {
    if d < 3 {
      Shallow(s, ix, d + 1);
      if ix[..2] in s.dir && d < 2 {
        PrefixIn(s.mem, s.dir, ix[..2], d + 1);
        assert ix[..2][..d + 1] == ix[..d + 1];
      }
    }
  }

  lemma MissingStep(s: Space, ix: Index, d: nat, n: nat)
    requires d < 3 && ix[..d] in s.dir && ix[..d + 1] !in s.dir
    ensures Missing(s.dir[ix[..d + 1] := n], ix) + 1 == Missing(s.dir, ix)
  {
    MissingAt(s, ix, d);
    assert |ix[..1]| == 1 && |ix[..2]| == 2 && |ix[..3]| == 3;
  }

  predicate Is4K(w: Walked)
  {
    w.Mapped? && w.level == 0
  }

  /** A page is 4K-mapped exactly when its level-0 table exists and its entry there is present. */
  lemma Is4KIff(s: Space, ix: Index)
    ensures ix[..3] in s.dir ==> s.dir[ix[..3]] in s.mem
    ensures Is4K(Walks(s, ix)) <==> ix[..3] in s.dir && s.mem[s.dir[ix[..3]]][ix[3]].flags.present
    ensures Is4K(Walks(s, ix)) ==> Walks(s, ix) == Mapped(s.mem[s.dir[ix[..3]]][ix[3]], 0)
    ensures ix[..3] in s.dir && !Is4K(Walks(s, ix)) ==> Walks(s, ix) == NotMapped
  {
    assert ix[..0] == [];
    Is4KBelow(s, ix, 0);
  }

  lemma {:induction false} Is4KBelow(s: Space, ix: Index, d: nat)
    requires d <= 3 && ix[..d] in s.dir
    ensures ix[..3] in s.dir ==> s.dir[ix[..3]] in s.mem
    ensures var w := Walk(s.mem, s.dir[ix[..d]], ix, 3 - d);
            && (Is4K(w) <==> ix[..3] in s.dir && s.mem[s.dir[ix[..3]]][ix[3]].flags.present)
            && (Is4K(w) ==> w == Mapped(s.mem[s.dir[ix[..3]]][ix[3]], 0))
            && (ix[..3] in s.dir && !Is4K(w) ==> w == NotMapped)
    decreases 3 - d
  {
    assert PathOk(s.mem, s.dir, ix[..d]);
    if d < 3 {
      Descend(ix, d);
      assert SlotOk(s.mem, s.dir, ix[..d], ix[d]);
      if ix[..d + 1] in s.dir {
        assert PathOk(s.mem, s.dir, ix[..d + 1]);
        Is4KBelow(s, ix, d + 1);
      } else {
        Shallow(s, ix, d + 1);
      }
    }
  }

  // ---------------------------------------------------------------- changes

  /** Hang the fresh frame `n`, holding `t`, below slot i = ix[d] of the table at ix[..d]. */
  ghost function HangAt(s: Space, ix: Index, d: nat, n: nat, t: Table): Tables
    requires d < 3 && ix[..d] in s.dir && s.dir[ix[..d]] in s.mem
  {
    Tables(Hang(s.mem, s.dir[ix[..d]], ix[d], n, t), s.used + {n}, s.dir[ix[..d + 1] := n])
  }

  lemma Hung(s: Space, ix: Index, d: nat, n: nat, t: Table)
    requires d < 3 && ix[..d] in s.dir && ix[..d + 1] !in s.dir
    requires n != 0 && n !in s.used
    requires s.dir[ix[..d]] in s.mem && Stands(s.mem[s.dir[ix[..d]]][ix[d]], ix[..d], t)
    ensures Sound(HangAt(s, ix, d, n, t))
    ensures Grown(s, HangAt(s, ix, d, n, t)) && SameView(s, HangAt(s, ix, d, n, t))
    ensures |HangAt(s, ix, d, n, t).used| == |s.used| + 1
  {
    HungSound(s, ix, d, n, t);
    HungView(s, ix, d, n, t);
  }

  lemma HungSound(s: Space, ix: Index, d: nat, n: nat, t: Table)
    requires d < 3 && ix[..d] in s.dir && ix[..d + 1] !in s.dir
    requires n != 0 && n !in s.used
    requires s.dir[ix[..d]] in s.mem && Stands(s.mem[s.dir[ix[..d]]][ix[d]], ix[..d], t)
    ensures Sound(HangAt(s, ix, d, n, t)) && Grown(s, HangAt(s, ix, d, n, t))
  {
    Descend(ix, d);
    HangTree(s.mem, s.dir, ix[..d], ix[d], n, t);
    if AllOpen(s) {
      HangDoors(s.mem, s.dir, ix[..d], ix[d], n, t);
    }
    HungValues(s.dir, ix[..d + 1], n);
    assert s.dir[ix[..d]] in s.dir.Values;
  }

  lemma HungValues(dir: Dir, q: seq<nat>, n: nat)
    requires q !in dir
    ensures dir[q := n].Values == dir.Values + {n}
  {
    var dir' := dir[q := n];
    assert dir'[q] == n;
    forall f | f in dir.Values
      ensures f in dir'.Values
    {
      var p :| p in dir && dir[p] == f;
      assert dir'[p] == f;
    }
  }

  lemma HungView(s: Space, ix: Index, d: nat, n: nat, t: Table)
    requires d < 3 && ix[..d] in s.dir && ix[..d + 1] !in s.dir
    requires n != 0 && n !in s.used
    requires s.dir[ix[..d]] in s.mem && Stands(s.mem[s.dir[ix[..d]]][ix[d]], ix[..d], t)
    requires Sound(HangAt(s, ix, d, n, t))
    ensures SameView(s, HangAt(s, ix, d, n, t))
  {
    Descend(ix, d);
    var s' := HangAt(s, ix, d, n, t);
    forall jx: Index
      ensures Shows(s', jx) == Shows(s, jx)
    {
      assert jx[..0] == [];
      HangWalk(s.mem, s.dir, ix[..d], ix[d], n, t, jx, 3);
    }
  }

  /** Set USER in the table pointer at slot ix[d] of the table at ix[..d]. */
  lemma Patched(s: Space, ix: Index, d: nat, leaf: Flags)
    requires d < 3 && ix[..d] in s.dir && ix[..d + 1] in s.dir && s.dir[ix[..d]] in s.mem
    ensures var s' := s.(mem := Store(s.mem, s.dir[ix[..d]], ix[d], WithUser(s.mem[s.dir[ix[..d]]][ix[d]], leaf)));
            Sound(s') && Grown(s, s') && SameWalks(s, s')
  {
    Descend(ix, d);
    PatchTree(s.mem, s.dir, ix[..d], ix[d], leaf);
    if AllOpen(s) {
      PatchDoors(s.mem, s.dir, ix[..d], ix[d], leaf);
    }
    var s' := s.(mem := Store(s.mem, s.dir[ix[..d]], ix[d], WithUser(s.mem[s.dir[ix[..d]]][ix[d]], leaf)));
    forall jx: Index
      ensures Walks(s', jx) == Walks(s, jx)
    {
      assert jx[..0] == [];
      PatchWalk(s.mem, s.dir, ix[..d], ix[d], leaf, jx, 3);
    }
  }

  /** Write the leaf of page `jx`. */
  lemma LeafSet(s: Space, jx: Index, e: Entry)
    requires jx[..3] in s.dir && s.dir[jx[..3]] in s.mem
    ensures var s' := s.(mem := Store(s.mem, s.dir[jx[..3]], jx[3], e));
            Sound(s') && Grown(s, s') && Remapped(s, s', jx, LeafPage(e))
  {
    var p, i := jx[..3], jx[3];
    assert jx == p + [i];
    LeafTree(s.mem, s.dir, p, i, e);
    assert jx in s.dir ==> PathOk(s.mem, s.dir, jx);
    if AllOpen(s) {
      EntryDoors(s.mem, s.dir, p, i, e);
      assert s.dir - {jx} == s.dir;
    }
    var s' := s.(mem := Store(s.mem, s.dir[p], i, e));
    forall ix: Index
      ensures Shows(s', ix) == if ix == jx then LeafPage(e) else Shows(s, ix)
    {
      assert ix[..0] == [];
      LeafWalk(s.mem, s.dir, p, i, e, ix, 3);
    }
  }
}
