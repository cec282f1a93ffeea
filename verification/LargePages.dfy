/** identity_map_2mb (kernel/src/mm/vmm.rs): identity mapping with 2MB leaves. */
module LargePages {
  import opened Common
  import opened Pte
  import opened Pmm
  import opened PageTables
  import opened Spaces
  import opened Vmm

  const LARGE: nat := 0x20_0000

  /** Four indices tell this many large pages apart: 48-bit addresses. */
  const LARGE_PAGES: nat := 0x800_0000

  /** What may happen at one path: level-0 tables may be cut off, inner tables on fresh frames may appear. */
  ghost predicate Regrew(s: Space, t: Space, p: seq<nat>)
  {
    if p in s.dir then
      if p in t.dir then t.dir[p] == s.dir[p] else |p| == 3
    else
      p in t.dir ==> t.dir[p] !in s.used && |p| < 3
  }

  /** Memory outside both trees stays. */
  ghost predicate Untouched(s: Space, t: Space, f: nat)
  {
    f in s.mem && f !in s.dir.Values + t.dir.Values ==> f in t.mem && t.mem[f] == s.mem[f]
  }

  /** Like Grown, but level-0 tables may have been cut off by a large leaf written over them. */
  ghost predicate Regrown(s: Space, t: Space)
  {
    var regrown :=
      && (forall p {:trigger Regrew(s, t, p)} :: Regrew(s, t, p))
      && (forall f {:trigger Untouched(s, t, f)} :: Untouched(s, t, f))
      && t.used == s.used + t.dir.Values && (AllOpen(s) ==> AllOpen(t));
    regrown
  }

  lemma RegrownRoot(s: Space, t: Space)
    requires Regrown(s, t)
    ensures Root(t) == Root(s)
  {
    assert Regrew(s, t, []);
  }

  lemma RegrownTrans(s: Space, t: Space, u: Space)
    requires Regrown(s, t) && Regrown(t, u)
    ensures Regrown(s, u)
  {
    forall p
      ensures Regrew(s, u, p)
    {
      assert Regrew(s, t, p) && Regrew(t, u, p);
    }
    forall f | f in t.dir.Values
      ensures f in s.dir.Values + u.dir.Values
    {
      var p :| p in t.dir && t.dir[p] == f;
      assert Regrew(s, t, p) && Regrew(t, u, p);
      if p in u.dir {
        assert u.dir[p] == f;
      } else {
        assert s.dir[p] == f;
      }
    }
    forall f
      ensures Untouched(s, u, f)
    {
      assert Untouched(s, t, f) && Untouched(t, u, f);
    }
  }

  lemma GrownIsRegrown(s: Space, t: Space)
    requires Grown(s, t)
    requires InnerOnly(s, t)
    ensures Regrown(s, t)
  {
    assert forall p :: p in s.dir || p in t.dir ==> Grew(s, t, p);
    assert forall f :: f in s.mem ==> Kept(s, t, f);
  }

  /** When there was no level-0 table to cut off, the tree only grew. */
  lemma RegrownIsGrown(s: Space, t: Space)
    requires Regrown(s, t)
    requires forall p :: p in s.dir ==> |p| < 3
    requires KernelLarge(s) ==> KernelLarge(t)
    ensures Grown(s, t)
    ensures forall p :: p in t.dir ==> |p| < 3
  {
    assert forall p :: p in s.dir || p in t.dir ==> Regrew(s, t, p);
    assert s.dir.Values <= t.dir.Values;
    assert forall f :: f in s.mem ==> Untouched(s, t, f);
  }

  /** The pages of one large leaf, and no other page, mean what `e` says. */
  ghost predicate LargeMapped(s: Space, t: Space, jx: Index, e: Entry)
  {
    forall ix: Index :: Shows(t, ix) == if ix[..3] == jx[..3] then View(LargeWalked(e), ix) else Shows(s, ix)
  }

  function LargeWalked(e: Entry): Walked
  {
    if e.flags.present then Mapped(e, 1) else NotMapped
  }

  /** Write the large leaf `e` over slot jx[2] of the table at jx[..2]. */
  ghost function LargeAt(s: Space, jx: Index, e: Entry): Tables
    requires jx[..2] in s.dir && s.dir[jx[..2]] in s.mem
  {
    Tables(Store(s.mem, s.dir[jx[..2]], jx[2], e), s.used, s.dir - {jx[..3]})
  }

  lemma LargeSet(s: Space, jx: Index, e: Entry)
    requires jx[..2] in s.dir && s.dir[jx[..2]] in s.mem
    requires e.flags.ps && e.ppn % ENTRIES == 0
    ensures Sound(LargeAt(s, jx, e))
    ensures Regrown(s, LargeAt(s, jx, e)) && LargeMapped(s, LargeAt(s, jx, e), jx, e)
    ensures KernelLarge(s) && !e.flags.user ==> KernelLarge(LargeAt(s, jx, e))
  {
    var p, i := jx[..2], jx[2];
    assert jx[..3] == p + [i];
    LargeTree(s.mem, s.dir, p, i, e);
    if AllOpen(s) {
      EntryDoors(s.mem, s.dir, p, i, e);
    }
    var t := LargeAt(s, jx, e);
    assert t.dir.Values <= s.dir.Values;
    assert forall p :: Regrew(s, t, p);
    assert forall f :: Untouched(s, t, f);
    forall ix: Index
      ensures Shows(t, ix) == if ix[..3] == jx[..3] then View(LargeWalked(e), ix) else Shows(s, ix)
    {
      assert ix[..0] == [];
      LargeWalk(s.mem, s.dir, p, i, e, ix, 0);
    }
  }

  /** Only inner tables appeared. */
  ghost predicate InnerOnly(s: Space, t: Space)
  {
    forall p :: p in t.dir && p !in s.dir ==> |p| < 3
  }

  lemma InnerTrans(s: Space, u: Space, t: Space)
    requires Grown(s, u) && SameView(s, u) && InnerOnly(s, u)
    requires Grown(u, t) && SameView(u, t) && InnerOnly(u, t)
    ensures Grown(s, t) && SameView(s, t) && InnerOnly(s, t)
  {
    GrownTrans(s, u, t);
    forall ix: Index ensures Shows(t, ix) == Shows(s, ix) {
      assert Shows(u, ix) == Shows(s, ix);
    }
  }

  /** One level down, with a cleared table hung below an absent entry. */
  method EnsureTable(mm: Memory, table: nat, d: nat, ix: Index, ghost s: Space) returns (r: Option<nat>, ghost t: Space)
    requires mm.Holds(s)
    requires d < 2 && ix[..d] in s.dir && s.dir[ix[..d]] == table
    modifies mm`mem, mm.pmm`nextFree, mm.pmm.bitmap
    ensures mm.Holds(t) && Grown(s, t) && SameView(s, t) && InnerOnly(s, t)
    ensures r.None? ==> |t.used| == mm.pmm.totalFrames
    ensures r.Some? ==> ix[..d + 1] in t.dir && t.dir[ix[..d + 1]] == r.value
  {
    assert ix[..d] + [ix[d]] == ix[..d + 1];
    assert PathOk(s.mem, s.dir, ix[..d]) && SlotOk(s.mem, s.dir, ix[..d], ix[d]);
    var e := mm.mem[table][ix[d]];
    if e.flags.present {
      return Some(e.ppn), s;
    }
    r, t := mm.NewTable(table, d, ix, s);
  }

  /** The second level, after `s` became `u` at the first. */
  method SecondTable(mm: Memory, table: nat, ix: Index, ghost s: Space, ghost u: Space) returns (r: Option<nat>, ghost t: Space)
    requires mm.Holds(u) && Grown(s, u) && SameView(s, u) && InnerOnly(s, u)
    requires ix[..1] in u.dir && u.dir[ix[..1]] == table
    modifies mm`mem, mm.pmm`nextFree, mm.pmm.bitmap
    ensures mm.Holds(t) && Grown(s, t) && SameView(s, t) && InnerOnly(s, t)
    ensures r.None? ==> |t.used| == mm.pmm.totalFrames
    ensures r.Some? ==> ix[..2] in t.dir && t.dir[ix[..2]] == r.value
  {
    r, t := EnsureTable(mm, table, 1, ix, u);
    InnerTrans(s, u, t);
  }

  /** The level-1 table above the 2MB page of `ix`, with what was missing on the way. */
  method LargeTable(mm: Memory, root: nat, ix: Index, ghost s: Space) returns (r: Option<nat>, ghost t: Space)
    requires mm.Holds(s) && Root(s) == root
    modifies mm`mem, mm.pmm`nextFree, mm.pmm.bitmap
    ensures mm.Holds(t) && Grown(s, t) && SameView(s, t) && InnerOnly(s, t)
    ensures r.None? ==> |t.used| == mm.pmm.totalFrames
    ensures r.Some? ==> ix[..2] in t.dir && t.dir[ix[..2]] == r.value
  {
    assert ix[..0] == [];
    r, t := EnsureTable(mm, root, 0, ix, s);
    if r.Some? {
      r, t := SecondTable(mm, r.value, ix, s, t);
    }
  }

  lemma LargeAfter(s: Space, u: Space, jx: Index, e: Entry)
    requires Grown(s, u) && SameView(s, u) && InnerOnly(s, u)
    requires jx[..2] in u.dir && u.dir[jx[..2]] in u.mem
    requires e.flags.ps && e.ppn % ENTRIES == 0
    ensures Sound(LargeAt(u, jx, e))
    ensures Regrown(s, LargeAt(u, jx, e)) && LargeMapped(s, LargeAt(u, jx, e), jx, e)
    ensures KernelLarge(s) && !e.flags.user ==> KernelLarge(LargeAt(u, jx, e))
  {
    GrownIsRegrown(s, u);
    RegrownRoot(s, u);
    LargeSet(u, jx, e);
    RegrownTrans(s, u, LargeAt(u, jx, e));
  }

  /** The leaf goes into the level-1 table, and the table that hung there is dropped. */
  method WriteLarge(mm: Memory, table: nat, ix: Index, e: Entry, ghost s: Space, ghost u: Space) returns (ghost t: Space)
    requires mm.Holds(u) && Grown(s, u) && SameView(s, u) && InnerOnly(s, u)
    requires ix[..2] in u.dir && u.dir[ix[..2]] == table && e.flags.ps && e.ppn % ENTRIES == 0
    modifies mm`mem
    ensures mm.Holds(t) && Regrown(s, t) && LargeMapped(s, t, ix, e)
    ensures KernelLarge(s) && !e.flags.user ==> KernelLarge(t)
  {
    assert PathOk(u.mem, u.dir, ix[..2]);
    LargeAfter(s, u, ix, e);
    mm.mem := Store(mm.mem, table, ix[2], e);
    t := LargeAt(u, ix, e);
  }

  /** One turn of the loop: map the 2MB page of `ix` with the leaf `e`. */
  method MapLarge(mm: Memory, root: nat, ix: Index, e: Entry, ghost s: Space) returns (ok: bool, ghost t: Space)
    requires mm.Holds(s) && Root(s) == root
    requires e.flags.ps && e.ppn % ENTRIES == 0
    modifies mm`mem, mm.pmm`nextFree, mm.pmm.bitmap
    ensures mm.Holds(t) && Regrown(s, t)
    ensures KernelLarge(s) && !e.flags.user ==> KernelLarge(t)
    ensures if ok then LargeMapped(s, t, ix, e) else |t.used| == mm.pmm.totalFrames && SameView(s, t)
  {
    var n;
    n, t := LargeTable(mm, root, ix, s);
    ok := n.Some?;
    if ok {
      t := WriteLarge(mm, n.value, ix, e, s, t);
    } else {
      GrownIsRegrown(s, t);
    }
  }

  /** The last of the large pages lo .. hi that has the same indices as large page `n`. */
  function Last(lo: nat, hi: nat, n: nat): (r: Option<nat>)
    ensures r.Some? ==> lo <= r.value < hi && r.value % LARGE_PAGES == n
    ensures forall k :: lo <= k < hi && k % LARGE_PAGES == n ==> r.Some? && k <= r.value
  {
    if hi <= lo then None
    else if (hi - 1) % LARGE_PAGES == n then Some(hi - 1)
    else Last(lo, hi - 1, n)
  }

  /** The leaf of large page `k`. */
  function LargeLeaf(k: nat, flags: Flags): Entry
  {
    Encode(k * LARGE, flags.(ps := true))
  }

  /** Page `ix` inside large page `k`. */
  function IdentityPage(k: nat, ix: Index, flags: Flags): Page
  {
    View(LargeWalked(LargeLeaf(k, flags)), ix)
  }

  /**
   After identity-mapping the large pages lo .. hi, each page means its place in the last large page
   that shares its indices, and every page that shares none means what it did.
   */
  ghost predicate Identity(s: Space, t: Space, lo: nat, hi: nat, flags: Flags)
  {
    forall ix: Index :: Shows(t, ix) ==
      match Last(lo, hi, Number(ix) / 512)
      case None => Shows(s, ix)
      case Some(k) => IdentityPage(k, ix, flags)
  }

  lemma PageOfLarge(k: nat)
    ensures k * LARGE / 0x1000 == 512 * k
  {
  }

  lemma PpnMod(q: nat, r: nat)
    requires r < PPN_LIMIT
    ensures (PPN_LIMIT * q + r) % PPN_LIMIT == r
  {
  }

  lemma LeafNumber(k: nat, flags: Flags)
    ensures LargeLeaf(k, flags).ppn == 512 * (k % 0x8000_0000)
  {
    var q, r := k / 0x8000_0000, k % 0x8000_0000;
    PageOfLarge(k);
    assert 512 * k == PPN_LIMIT * q + 512 * r;
    PpnMod(q, 512 * r);
  }

  lemma LargeMod(k: nat)
    ensures k * LARGE % 0x10_0000_0000_0000 == LARGE * (k % 0x8000_0000)
  {
    assert k * LARGE == 0x10_0000_0000_0000 * (k / 0x8000_0000) + LARGE * (k % 0x8000_0000);
  }

  lemma LeafAligned(k: nat, flags: Flags)
    ensures LargeLeaf(k, flags).ppn % ENTRIES == 0
    ensures LargeLeaf(k, flags).ppn * 0x1000 == k * LARGE % 0x10_0000_0000_0000
  {
    LeafNumber(k, flags);
    LargeMod(k);
  }

  lemma IdentityNext(s: Space, t: Space, u: Space, lo: nat, k: nat, jx: Index, flags: Flags)
    requires lo <= k && Number(jx) == 512 * (k % LARGE_PAGES)
    requires Identity(s, t, lo, k, flags)
    requires LargeMapped(t, u, jx, LargeLeaf(k, flags))
    ensures Identity(s, u, lo, k + 1, flags)
  {
    forall ix: Index
      ensures Shows(u, ix) == match Last(lo, k + 1, Number(ix) / 512)
                              case None => Shows(s, ix)
                              case Some(j) => IdentityPage(j, ix, flags)
    {
      SameLarge(ix, jx);
      assert Shows(t, ix) == match Last(lo, k, Number(ix) / 512)
                             case None => Shows(s, ix)
                             case Some(j) => IdentityPage(j, ix, flags);
    }
  }

  lemma SameLarge(ix: Index, jx: Index)
    ensures ix[..3] == jx[..3] <==> Number(ix) / 512 == Number(jx) / 512
  {
    DigitsUnique(ix, jx);
    assert ix[..3] == [ix[0], ix[1], ix[2]] && jx[..3] == [jx[0], jx[1], jx[2]];
  }

  lemma LargeNo(w: nat)
    ensures Number(Indices(w)) / 512 == w / LARGE % LARGE_PAGES
    ensures Indices(w)[3] * 0x1000 + w % 0x1000 == w % LARGE
  {
    Digits(w);
    InLarge(w);
    Shifts(w);
    PagesInLarge(w / 0x1000);
  }

  lemma PagesInLarge(n: nat)
    ensures n % 0x10_0000_0000 / 512 == n / 512 % LARGE_PAGES
  {
  }

  /** Where every address translates afterwards, the aliases of the range included. */
  lemma IdentityAddresses(s: Space, t: Space, lo: nat, hi: nat, flags: Flags, w: nat)
    requires Identity(s, t, lo, hi, flags)
    ensures Resolves(t, w) ==
            match Last(lo, hi, w / LARGE % LARGE_PAGES)
            case None => Resolves(s, w)
            case Some(k) => if flags.present then Some(k * LARGE % 0x10_0000_0000_0000 + w % LARGE) else None
  {
    var ix := Indices(w);
    TranslateIsPage(s.mem, s.dir, w);
    TranslateIsPage(t.mem, t.dir, w);
    LargeNo(w);
    var last := Last(lo, hi, w / LARGE % LARGE_PAGES);
    assert Shows(t, ix) == match last case None => Shows(s, ix) case Some(k) => IdentityPage(k, ix, flags);
    if last.Some? {
      LeafAligned(last.value, flags);
    }
  }

  /**
   Every address of the range translates to itself exactly when the range is no longer than the 48-bit
   space and ends within 52 bits.
   */
  lemma IdentityExact(s: Space, t: Space, lo: nat, hi: nat, flags: Flags)
    requires Identity(s, t, lo, hi, flags) && lo < hi && flags.present
    ensures (forall w: nat :: lo * LARGE <= w < hi * LARGE ==> Resolves(t, w) == Some(w)) <==>
            hi - lo <= LARGE_PAGES && hi * LARGE <= 0x10_0000_0000_0000
  {
    if hi * LARGE > 0x10_0000_0000_0000 {
      EndLost(s, t, lo, hi, flags);
    } else if hi - lo > LARGE_PAGES {
      StartLost(s, t, lo, hi, flags);
    } else {
      forall w: nat | lo * LARGE <= w < hi * LARGE
        ensures Resolves(t, w) == Some(w)
      {
        Itself(s, t, lo, hi, flags, w);
      }
    }
  }

  lemma EndLost(s: Space, t: Space, lo: nat, hi: nat, flags: Flags)
    requires Identity(s, t, lo, hi, flags) && lo < hi && hi * LARGE > 0x10_0000_0000_0000
    ensures Resolves(t, (hi - 1) * LARGE) != Some((hi - 1) * LARGE)
  {
    EndWraps(hi);
    IdentityAddresses(s, t, lo, hi, flags, (hi - 1) * LARGE);
  }

  lemma StartLost(s: Space, t: Space, lo: nat, hi: nat, flags: Flags)
    requires Identity(s, t, lo, hi, flags) && hi - lo > LARGE_PAGES && hi * LARGE <= 0x10_0000_0000_0000
    ensures Resolves(t, lo * LARGE) != Some(lo * LARGE)
  {
    StartCovered(lo, hi);
    IdentityAddresses(s, t, lo, hi, flags, lo * LARGE);
  }

  lemma Itself(s: Space, t: Space, lo: nat, hi: nat, flags: Flags, w: nat)
    requires Identity(s, t, lo, hi, flags) && flags.present && lo * LARGE <= w < hi * LARGE
    requires hi - lo <= LARGE_PAGES && hi * LARGE <= 0x10_0000_0000_0000
    ensures Resolves(t, w) == Some(w)
  {
    OnlyOne(lo, hi, w / LARGE);
    IdentityAddresses(s, t, lo, hi, flags, w);
    InFrames(hi, w);
  }

  lemma InFrames(hi: nat, w: nat)
    requires w < hi * LARGE <= 0x10_0000_0000_0000
    ensures w / LARGE * LARGE % 0x10_0000_0000_0000 + w % LARGE == w
  {
  }

  lemma EndWraps(hi: nat)
    requires hi * LARGE > 0x10_0000_0000_0000
    ensures var w := (hi - 1) * LARGE; w / LARGE == hi - 1 && w % LARGE == 0 && w % 0x10_0000_0000_0000 != w
  {
  }

  /** In a window of LARGE_PAGES large pages no two share their indices. */
  lemma OnlyOne(lo: nat, hi: nat, k: nat)
    requires lo <= k < hi <= lo + LARGE_PAGES
    ensures Last(lo, hi, k % LARGE_PAGES) == Some(k)
  {
  }

  /** In a longer range the first large page is overwritten by a later one. */
  lemma StartCovered(lo: nat, hi: nat)
    requires hi - lo > LARGE_PAGES && hi * LARGE <= 0x10_0000_0000_0000
    ensures var w := lo * LARGE;
            && w / LARGE == lo && w % LARGE == 0
            && var r := Last(lo, hi, lo % LARGE_PAGES); r.Some? && r.value * LARGE % 0x10_0000_0000_0000 != w
  {
  }

  /** Indices and leaf of large page `k`. */
  method LargePage(k: nat, flags: Flags) returns (ix: Index, e: Entry)
    ensures Number(ix) == 512 * (k % LARGE_PAGES)
    ensures e == LargeLeaf(k, flags) && e.ppn % ENTRIES == 0
  {
    var addr := k * LARGE;
    LargeNo(addr);
    LeafAligned(k, flags);
    ix, e := Indices(addr), Encode(addr, flags.(ps := true));
    DigitsUnique(ix, ix);
    assert addr % LARGE == 0 && addr / LARGE == k;
    assert Number(ix) == 512 * (Number(ix) / 512) + ix[3];
  }

  /** The state after identity-mapping the large pages lo .. hi. */
  ghost predicate IdentityMapped(s: Space, t: Space, lo: nat, hi: nat, flags: Flags)
  {
    var mapped := Regrown(s, t) && Identity(s, t, lo, hi, flags) && (KernelLarge(s) && !flags.user ==> KernelLarge(t));
    mapped
  }

  lemma IdentityStart(s: Space, lo: nat, flags: Flags)
    ensures IdentityMapped(s, s, lo, lo, flags)
  {
  }

  lemma IdentityStep(s: Space, u: Space, t: Space, lo: nat, k: nat, jx: Index, flags: Flags)
    requires lo <= k && Number(jx) == 512 * (k % LARGE_PAGES)
    requires IdentityMapped(s, u, lo, k, flags)
    requires Regrown(u, t) && LargeMapped(u, t, jx, LargeLeaf(k, flags))
    requires KernelLarge(u) && !flags.user ==> KernelLarge(t)
    ensures IdentityMapped(s, t, lo, k + 1, flags)
  {
    RegrownTrans(s, u, t);
    IdentityNext(s, u, t, lo, k, jx, flags);
  }

  /** `t` is the state after identity-mapping lo .. hi or, if that failed, one with no frame left. */
  ghost predicate Outcome(mm: Memory, s: Space, t: Space, lo: nat, hi: nat, flags: Flags, ok: bool)
    reads mm, mm.pmm, mm.pmm.bitmap
  {
    var outcome := mm.Holds(t) && if ok then IdentityMapped(s, t, lo, hi, flags) else |t.used| == mm.pmm.totalFrames;
    outcome
  }

  method IdentityTurn(mm: Memory, root: nat, ghost lo: nat, k: nat, flags: Flags, ghost s: Space, ghost u: Space)
    returns (ok: bool, ghost t: Space)
    requires lo <= k && Outcome(mm, s, u, lo, k, flags, true) && Root(s) == root
    modifies mm`mem, mm.pmm`nextFree, mm.pmm.bitmap
    ensures Outcome(mm, s, t, lo, k + 1, flags, ok)
  {
    RegrownRoot(s, u);
    var ix, e := LargePage(k, flags);
    ok, t := MapLarge(mm, root, ix, e, u);
    if ok {
      IdentityStep(s, u, t, lo, k, ix, flags);
    }
  }

  /** The loop of identity_map_2mb, over large-page numbers. */
  method IdentityRange(mm: Memory, root: nat, lo: nat, hi: nat, flags: Flags, ghost s: Space) returns (ok: bool, ghost t: Space)
    requires mm.Holds(s) && Root(s) == root
    requires lo <= hi
    modifies mm`mem, mm.pmm`nextFree, mm.pmm.bitmap
    ensures Outcome(mm, s, t, lo, hi, flags, ok)
  {
    t, ok := s, true;
    IdentityStart(s, lo, flags);
    var k := lo;
    while k < hi && ok
      invariant lo <= k <= hi && Outcome(mm, s, t, lo, k, flags, ok)
    {
      ok, t := IdentityTurn(mm, root, lo, k, flags, s, t);
      k := k + 1;
    }
  }

  /** `end` rounded up to a large page, on usize, as a large-page number. */
  function RoundUp(end: nat): nat
  {
    (end + LARGE - 1) % USIZE / LARGE
  }

  /** identity_map_2mb over [start, end), widened to 2MB bounds; false is the panic for lack of frames. */
  method IdentityMap2mb(mm: Memory, root: nat, start: nat, end: nat, flags: Flags, ghost s: Space)
    returns (ok: bool, ghost t: Space)
    requires mm.Holds(s) && Root(s) == root
    modifies mm`mem, mm.pmm`nextFree, mm.pmm.bitmap
    ensures Outcome(mm, s, t, start / LARGE, RoundUp(end), flags, ok)
  {
    var lo, hi := start / LARGE, RoundUp(end);
    ok, t := IdentityRange(mm, root, lo, if lo <= hi then hi else lo, flags, s);
    EmptyRange(lo, hi);
  }

  lemma EmptyRange(lo: nat, hi: nat)
    ensures hi <= lo ==> forall n :: Last(lo, hi, n) == Last(lo, lo, n) == None
  {
  }
}
