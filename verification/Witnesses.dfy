/** Inputs on which a property that looks true fails, one for each condition proved elsewhere. */
module Witnesses {
  import opened Common
  import opened Pte
  import opened PageTables
  import opened Spaces
  import opened Pmm
  import opened Vmm
  import opened LargePages
  import opened Lives
  import opened Conservation
  import opened Pipes

  const PRESENT := NO_FLAGS.(present := true)

  lemma OneMore(base: set<nat>, x: nat)
    ensures |base + {x}| <= |base| + 1
  {
  }

  lemma Leaf(s: Space, va: nat, e: Entry)
    requires Walks(s, Indices(va)) == Mapped(e, 0)
    ensures Resolves(s, va) == Some(e.ppn * 0x1000 + va % 0x1000)
  {
  }

  /** A new address space, with three frames left for tables. */
  method NewSpace(mm: Memory) returns (root: nat, ghost s: Space)
    requires mm.Valid() && |mm.pmm.Allocated()| + 4 <= mm.pmm.totalFrames
    modifies mm`mem, mm.pmm`nextFree, mm.pmm.bitmap
    ensures mm.Holds(s) && Root(s) == root && |s.used| + 3 <= mm.pmm.totalFrames
  {
    ghost var base := mm.pmm.Allocated();
    var r, t := mm.CreateUserPageTable();
    root, s := r.value, t;
    OneMore(base, root);
  }

  /** A present page where three frames are left. */
  method Place(mm: Memory, root: nat, ix: Index, e: Entry, ghost s: Space) returns (ghost t: Space)
    requires mm.Holds(s) && Root(s) == root && |s.used| + 3 <= mm.pmm.totalFrames && e.flags.present
    modifies mm`mem, mm.pmm`nextFree, mm.pmm.bitmap
    ensures mm.Holds(t) && Root(t) == root && Walks(t, ix) == Mapped(e, 0)
  {
    var ok;
    ok, t := mm.MapPage(root, ix, e, s);
    GrownRoot(s, t);
  }

  /** A new address space with one present page, mapped as asked. */
  method OnePage(mm: Memory, ix: Index, e: Entry) returns (root: nat, ghost s: Space)
    requires mm.Valid() && |mm.pmm.Allocated()| + 4 <= mm.pmm.totalFrames && e.flags.present
    modifies mm`mem, mm.pmm`nextFree, mm.pmm.bitmap
    ensures mm.Holds(s) && Root(s) == root && Walks(s, ix) == Mapped(e, 0)
  {
    ghost var t;
    root, t := NewSpace(mm);
    s := Place(mm, root, ix, e, t);
  }

  lemma Gone(s: Space, t: Space, va: nat)
    requires Remapped(s, t, Indices(va), NoPage)
    ensures Resolves(t, va) == None
  {
    RemappedAddresses(s, t, va, NoPage);
  }

  method Strip(mm: Memory, root: nat, va: nat, ghost s: Space) returns (ghost t: Space)
    requires mm.Holds(s) && Root(s) == root && Is4K(Walks(s, Indices(va)))
    modifies mm`mem
    ensures mm.Holds(t) && Root(t) == root && Resolves(t, va) == None
  {
    var ok;
    ok, t := mm.MprotectUser(root, va, NO_FLAGS, s);
    GrownRoot(s, t);
    Gone(s, t, va);
  }

  /** mprotect_user with no flag at all makes a page that translated translate no more. */
  method MprotectUnmaps(mm: Memory, va: nat, pa: nat) returns (before: Option<nat>, after: Option<nat>)
    requires mm.Valid() && |mm.pmm.Allocated()| + 4 <= mm.pmm.totalFrames
    modifies mm`mem, mm.pmm`nextFree, mm.pmm.bitmap
    ensures before == Some(Encode(pa, PRESENT).ppn * 0x1000 + va % 0x1000) && after == None
  {
    var root, s := OnePage(mm, Indices(va), Encode(pa, PRESENT));
    Leaf(s, va, Encode(pa, PRESENT));
    before := mm.TranslateUser(root, va, s);
    ghost var t := Strip(mm, root, va, s);
    after := mm.TranslateUser(root, va, t);
  }

  /** A page mapped to frame 0 translates, but walk_mapping calls it invalid. */
  method FrameZeroIsCorrupt(mm: Memory, va: nat) returns (address: Option<nat>, walked: WalkResult)
    requires mm.Valid() && |mm.pmm.Allocated()| + 4 <= mm.pmm.totalFrames
    modifies mm`mem, mm.pmm`nextFree, mm.pmm.bitmap
    ensures address == Some(va % 0x1000) && walked == Corrupt
  {
    var root, s := OnePage(mm, Indices(va), Encode(0, PRESENT));
    address := mm.TranslateUser(root, va, s);
    walked := mm.WalkMapping(root, va, s);
  }

  // ---------------------------------------------------------------- lives that leak and steal

  const USER_PAGE := NO_FLAGS.(present := true, writable := true, user := true)

  /** Unmapping a page without giving its frame back. */
  function Leaker(va: nat): Life
  {
    Life([], [MapFresh(va, USER_PAGE), Unmap(va, false)])
  }

  lemma LeakerLeaks(va: nat)
    ensures Leaks(Leaker(va)) == {0} && forall y :: !Stolen(Leaker(va), y)
  {
    var l, ix := Leaker(va), Indices(va);
    assert l.ops[0] == MapFresh(va, USER_PAGE) && l.ops[1] == Unmap(va, false);
    assert CellAt(l, 1, ix) == At(Fresh(0), true);
    SmallStep(l, 0, ix[..3]);
    assert CellAt(l, 2, ix) == Nothing;
    assert Open(l, 1) == {0};
    assert !GivesBack(l, 1);
    assert Open(l, 2) == {0};
    forall y ensures !Stolen(l, y) {
      forall jx: Index ensures CellAt(l, 2, jx) == Nothing {
        assert CellAt(l, 0, jx) == Nothing && CellAt(l, 1, jx) == if jx == ix then At(Fresh(0), true) else Nothing;
      }
    }
  }

  /** Another page of the same 2MB. */
  function Sibling(y: nat): nat
  {
    if y % 512 == 0 then y + 1 else y - 1
  }

  /**
   The 2MB around frame `y` is mapped for the kernel, the page next to it for the user, which splits the
   large page, and then the page of `y` is reprotected.
   */
  function Reprotector(y: nat): Life
  {
    Life([Range(y * 0x1000, y * 0x1000 + 1, PRESENT)], [MapFresh(Sibling(y) * 0x1000, USER_PAGE), Protect(y * 0x1000, USER_PAGE)])
  }

  /** The four indices of the page of frame `y`. */
  lemma PageIndices(y: nat)
    requires y < 0x10_0000_0000
    ensures Number(Indices(y * 0x1000)) == y && Indices(y * 0x1000)[3] == y % 512
  {
    Digits(y * 0x1000);
    Upper(Indices(y * 0x1000));
  }

  lemma SiblingPage(y: nat)
    requires y < 0x10_0000_0000
    ensures Sibling(y) < 0x10_0000_0000 && Sibling(y) / 512 == y / 512
    ensures Indices(Sibling(y) * 0x1000) != Indices(y * 0x1000)
    ensures Indices(Sibling(y) * 0x1000)[..3] == Indices(y * 0x1000)[..3]
  {
    PageIndices(y);
    PageIndices(Sibling(y));
    SameLarge(Indices(Sibling(y) * 0x1000), Indices(y * 0x1000));
  }

  /** The range is one large page, in which the page of `y` names `y`. */
  lemma KernelFrame(y: nat)
    requires y < 0x10_0000_0000
    ensures CellAt(Reprotector(y), 0, Indices(y * 0x1000)) == At(Given(y), false)
  {
    var l, ix, k := Reprotector(y), Indices(y * 0x1000), y / 512;
    PageIndices(y);
    assert y * 0x1000 / LARGE == k;
    OneLarge(y, k);
    assert l.ranges[0] == Range(y * 0x1000, y * 0x1000 + 1, PRESENT);
    assert KernelPage(l.ranges, ix) == IdentityPage(k, ix, PRESENT);
    FrameInLarge(k, ix);
  }

  lemma FrameInLarge(k: nat, ix: Index)
    requires k < LARGE_PAGES
    ensures IdentityPage(k, ix, PRESENT) == Page(512 * k + ix[3], PRESENT)
  {
    LeafAligned(k, PRESENT);
  }

  lemma OneLarge(y: nat, k: nat)
    requires y < 0x10_0000_0000 && k == y / 512
    ensures RoundUp(y * 0x1000 + 1) == k + 1 && k % LARGE_PAGES == k
  {
    var end := y * 0x1000 + 1;
    assert LARGE * k < end <= LARGE * k + LARGE;
    assert end + LARGE - 1 < USIZE;
  }

  /** mprotect then steals exactly that frame: teardown frees it, whoever owns it. */
  lemma ReprotectorSteals(y: nat)
    requires y < 0x10_0000_0000
    ensures Leaks(Reprotector(y)) == {} && (forall x :: Stolen(Reprotector(y), x) <==> x == y)
    ensures CellAt(Reprotector(y), 2, Indices(y * 0x1000)) == At(Given(y), true)
    ensures Tidy(Reprotector(y), 0) && !Tidy(Reprotector(y), 1) && Exposes(Reprotector(y), 1)
  {
    var l, ix, jx := Reprotector(y), Indices(y * 0x1000), Indices(Sibling(y) * 0x1000);
    SiblingPage(y);
    KernelFrame(y);
    KernelRanges(l.ranges, jx);
    assert l.ops[0] == MapFresh(Sibling(y) * 0x1000, USER_PAGE) && l.ops[1] == Protect(y * 0x1000, USER_PAGE);
    assert CellAt(l, 1, jx) == At(Fresh(0), true) && CellAt(l, 1, ix) == At(Given(y), false);
    SmallStep(l, 0, ix[..3]);
    assert CellAt(l, 2, ix) == At(Given(y), true) && CellAt(l, 2, jx) == At(Fresh(0), true);
    assert Open(l, 1) == {0} && Open(l, 2) == {0} && Found(l, 2, 0);
    forall x | Stolen(l, x) ensures x == y {
      OnlySecond(l, x);
    }
  }

  /** In a life of these two calls only the second can steal. */
  lemma OnlySecond(l: Life, x: nat)
    requires |l.ops| == 2 && l.ops[0].MapFresh? && l.ops[1].Protect? && forall r :: r in l.ranges ==> !r.flags.user
    requires Stolen(l, x)
    ensures CellAt(l, 2, Home(l, 1)) == At(Given(x), true)
  {
    var kx: Index :| CellAt(l, 2, kx) == At(Given(x), true);
    KernelRanges(l.ranges, kx);
    var start, middle := CellAt(l, 0, kx), CellAt(l, 1, kx);
    var first, second := Next(l.ops[0], 0, Small(l, 0, kx[..3]), start), Next(l.ops[1], 1, Small(l, 1, kx[..3]), middle);
    assert middle == if kx == Home(l, 0) then first else start;
    assert CellAt(l, 2, kx) == if kx == Home(l, 1) then second else middle;
  }

  /** ... Ring 3 reaches its page, */
  method ForeignFrameReached(mm: Memory, y: nat) returns (ok: bool, root: nat)
    requires mm.Valid() && y < 0x10_0000_0000
    modifies mm`mem, mm.pmm`nextFree, mm.pmm.bitmap
    ensures var ix := Indices(y * 0x1000);
            ok ==> UserReach(mm.mem, root, ix, 3) && PageAt(mm.mem, root, ix).Page? && PageAt(mm.mem, root, ix).frame == y
  {
    var l, ix := Reprotector(y), Indices(y * 0x1000);
    ReprotectorSteals(y);
    ghost var s, frames;
    ok, root, s, frames := LiveThrough(mm, l);
    assert ok ==> Looks(Shows(s, ix), CellAt(l, 2, ix), frames);
  }

  /** and after the teardown it is gone from the allocator, with every other frame as before. */
  method ForeignFrameFreed(mm: Memory, y: nat) returns (ok: bool)
    requires mm.Valid() && y < 0x10_0000_0000
    modifies mm`mem, mm.pmm`nextFree, mm.pmm.bitmap
    ensures mm.Valid() && (ok ==> mm.pmm.Allocated() == old(mm.pmm.Allocated()) - {y})
  {
    ReprotectorSteals(y);
    var l := Reprotector(y);
    ghost var base := mm.pmm.Allocated();
    ghost var frames, freed;
    ok, frames, freed := LiveAndDie(mm, l);
    if ok {
      LeakCount(base, mm.pmm.Allocated(), l, frames);
    }
  }

  /** Counting a descriptor of a pipe that does not exist. */
  method IncReadOnFreeSlot() returns (t: PipeTable)
    ensures !t.Valid()
  {
    t := new PipeTable();
    t.IncRead(0);
  }

  method IncWriteOnFreeSlot() returns (t: PipeTable)
    ensures !t.Valid()
  {
    t := new PipeTable();
    t.IncWrite(0);
  }
}
