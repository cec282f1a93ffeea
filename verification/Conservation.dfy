/**
 Conservation of frames over every life of a user address space (kernel/src/mm/vmm.rs): creation,
 kernel ranges, any run of map, unmap_user and mprotect_user on any pages, teardown.
 */
module Conservation {
  import opened Common
  import opened Pte
  import opened Pmm
  import opened PageTables
  import opened Spaces
  import opened Vmm
  import opened LargePages
  import opened Teardown
  import opened Lives

  // ---------------------------------------------------------------- one call on one space

  /** Of the frames in use the space holds each once, exactly those that are not in `base`. */
  ghost predicate Alive(s: Space, base: set<nat>)
  {
    var alive :=
      && KernelLarge(s) && Once(s)
      && (forall x :: x in s.used <==> x in base || Holds(s, x))
      && (forall x :: x in base ==> !Holds(s, x));
    alive
  }

  /** Only the meaning of page `jx` changed, to `page`. */
  ghost predicate Changed(s: Space, t: Space, jx: Index, page: Page)
  {
    var changed := Grown(s, t) && t.dir == s.dir && t.used == s.used && Remapped(s, t, jx, page);
    changed
  }

  /** Where else than at `jx` something is held does not change. */
  lemma HeldElsewhere(s: Space, t: Space, jx: Index, page: Page, r: Freed)
    requires Changed(s, t, jx, page) && r.place != jx
    ensures Held(t, r) <==> Held(s, r)
  {
    if IsIndex(r.place) {
      assert Shows(t, r.place) == if r.place == jx then page else Shows(s, r.place);
    }
  }

  lemma HeldThere(s: Space, jx: Index, x: nat)
    ensures Held(s, Freed(jx, x)) <==> UserAt(s, jx) && Shows(s, jx).frame == x
  {
    assert jx in s.dir ==> PathOk(s.mem, s.dir, jx);
  }

  /**
   mprotect_user on any 4K page, the kernel's included: the frames stay accounted for exactly when the
   new flags make it a user page if and only if it was one.
   */
  lemma MprotectAlive(s: Space, t: Space, base: set<nat>, jx: Index, flags: Flags)
    requires Alive(s, base) && Is4K(Walks(s, jx))
    requires Changed(s, t, jx, LeafPage(Entry(Walks(s, jx).entry.ppn, flags)))
    ensures Alive(t, base) <==> (UserAt(s, jx) <==> IsUser(flags))
  {
    var x := Walks(s, jx).entry.ppn;
    var page := LeafPage(Entry(x, flags));
    assert Shows(t, jx) == page;
    forall y ensures (Held(s, Freed(jx, y)) <==> UserAt(s, jx) && y == x) && (Held(t, Freed(jx, y)) <==> IsUser(flags) && y == x) {
      HeldThere(s, jx, y);
      HeldThere(t, jx, y);
    }
    forall r: Freed | r.place != jx ensures Held(t, r) <==> Held(s, r) {
      HeldElsewhere(s, t, jx, page, r);
    }
    if UserAt(s, jx) <==> IsUser(flags) {
      forall r ensures Held(t, r) <==> Held(s, r) {
        assert r.place == jx ==> r == Freed(jx, r.frame);
      }
      SameAlive(s, t, base);
    } else {
      NotAlive(s, t, base, jx, x);
    }
  }

  lemma SameAlive(s: Space, t: Space, base: set<nat>)
    requires Alive(s, base) && KernelLarge(t) && t.used == s.used && forall r :: Held(t, r) <==> Held(s, r)
    ensures Alive(t, base)
  {
    forall x ensures Holds(t, x) <==> Holds(s, x) {
      assert forall p :: Held(t, Freed(p, x)) <==> Held(s, Freed(p, x));
    }
  }

  /** A page that only one of the two spaces holds upsets the account. */
  lemma NotAlive(s: Space, t: Space, base: set<nat>, jx: Index, x: nat)
    requires Alive(s, base) && t.used == s.used
    requires Held(s, Freed(jx, x)) <==> !Held(t, Freed(jx, x))
    requires forall y :: y != x ==> !Held(t, Freed(jx, y))
    requires forall r: Freed :: r.place != jx ==> (Held(t, r) <==> Held(s, r))
    ensures !Alive(t, base)
  {
    if Held(s, Freed(jx, x)) {
      assert Holds(s, x) && x in t.used && x !in base;
      forall p
        ensures !Held(t, Freed(p, x))
      {
        assert p != jx ==> Freed(p, x) != Freed(jx, x);
      }
      assert !Holds(t, x);
    } else if x in t.used && x !in base {
      assert Holds(s, x);
      var p :| Held(s, Freed(p, x));
      assert Held(t, Freed(p, x)) && Freed(p, x) != Freed(jx, x);
    } else {
      assert Holds(t, x);
    }
  }

  // ---------------------------------------------------------------- a space that follows a life

  /** `x` is the frame of the holder; `frames` lists what the allocator handed out, call by call. */
  predicate Names(h: Holder, frames: seq<nat>, x: nat)
  {
    match h
    case Given(f) => x == f
    case Fresh(j) => j < |frames| && x == frames[j]
  }

  predicate Looks(page: Page, c: Cell, frames: seq<nat>)
  {
    match c
    case Nothing => page.NoPage?
    case At(h, user) => page.Page? && page.flags.user == user && Names(h, frames, page.frame)
  }

  /** The frames allocated for pages and not given back. */
  function Data(l: Life, n: nat, frames: seq<nat>): set<nat>
    requires n <= |l.ops|
  {
    set j | j in Open(l, n) && j < |frames| :: frames[j]
  }

  /** Frames out at the same time are different, and none was in use before. */
  ghost predicate Apart(l: Life, n: nat, frames: seq<nat>, base: set<nat>)
    requires n <= |l.ops|
  {
    && (forall j, k :: j in Open(l, n) && k in Open(l, n) && j < |frames| && k < |frames| && frames[j] == frames[k] ==> j == k)
    && (forall j :: j in Open(l, n) && j < |frames| ==> frames[j] !in base)
  }

  ghost predicate Sees(s: Space, l: Life, n: nat, frames: seq<nat>)
    requires n <= |l.ops|
  {
    forall ix: Index {:trigger CellAt(l, n, ix)} {:trigger Shows(s, ix)} :: Looks(Shows(s, ix), CellAt(l, n, ix), frames)
  }

  ghost predicate LeafTables(s: Space, l: Life, n: nat)
    requires n <= |l.ops|
  {
    forall p {:trigger Small(l, n, p)} {:trigger p in s.dir} :: |p| == 3 ==> (p in s.dir <==> Small(l, n, p))
  }

  /** In use are the frames of before, those of the pages, and the tables. */
  ghost predicate Account(s: Space, data: set<nat>, base: set<nat>)
  {
    s.used == base + data + s.dir.Values && (base + data) !! s.dir.Values
  }

  /** After `n` calls the space is what the life says. */
  ghost predicate Follows(s: Space, l: Life, n: nat, frames: seq<nat>, base: set<nat>)
    requires n <= |l.ops|
  {
    var follows :=
      && KernelLarge(s) && AllOpen(s) && |frames| == n
      && Sees(s, l, n, frames) && LeafTables(s, l, n)
      && Apart(l, n, frames, base) && Account(s, Data(l, n, frames), base);
    follows
  }

  /** Over every life exactly the cells of the user are within Ring 3's reach. */
  lemma ReachExact(s: Space, l: Life, n: nat, frames: seq<nat>, base: set<nat>, ix: Index)
    requires n <= |l.ops| && Follows(s, l, n, frames, base)
    ensures UserReach(s.mem, Root(s), ix, 3) <==> OfUser(CellAt(l, n, ix))
  {
    ReachIsUser(s, ix);
    assert Looks(Shows(s, ix), CellAt(l, n, ix), frames);
  }

  // ---------------------------------------------------------------- one step

  lemma LooksLonger(page: Page, c: Cell, frames: seq<nat>, x: nat)
    requires Looks(page, c, frames)
    ensures Looks(page, c, frames + [x])
  {
  }

  /** The pages after a call that changed one of them as the life says. */
  lemma SeesStep(s: Space, t: Space, l: Life, n: nat, frames: seq<nat>, x: nat, page: Page)
    requires n < |l.ops| && |frames| == n && Sees(s, l, n, frames) && Remapped(s, t, Home(l, n), page)
    requires Looks(page, CellAt(l, n + 1, Home(l, n)), frames + [x])
    ensures Sees(t, l, n + 1, frames + [x])
  {
    var m, fs, jx := n + 1, frames + [x], Home(l, n);
    forall ix: Index
      ensures Looks(Shows(t, ix), CellAt(l, m, ix), fs)
    {
      assert Shows(t, ix) == if ix == jx then page else Shows(s, ix);
      if ix != jx {
        LooksLonger(Shows(s, ix), CellAt(l, n, ix), frames, x);
      }
    }
  }

  lemma SmallStep(l: Life, n: nat, p: seq<nat>)
    requires n < |l.ops|
    ensures Small(l, n + 1, p) <==>
            Small(l, n, p) || ((l.ops[n].MapFresh? || l.ops[n].MapTo?) && Home(l, n)[..3] == p)
  {
    if Small(l, n, p) {
      var i :| 0 <= i < n && (l.ops[i].MapFresh? || l.ops[i].MapTo?) && Indices(l.ops[i].va)[..3] == p;
    }
  }

  /** The level-0 tables after a map. */
  lemma TablesGrow(s: Space, t: Space, l: Life, n: nat)
    requires n < |l.ops| && LeafTables(s, l, n) && (l.ops[n].MapFresh? || l.ops[n].MapTo?)
    requires Grown(s, t) && OnTheWay(s, t, Home(l, n)) && Home(l, n)[..3] in t.dir
    ensures LeafTables(t, l, n + 1)
  {
    var m := n + 1;
    forall p | |p| == 3
      ensures p in t.dir <==> Small(l, m, p)
    {
      TableGrows(s, t, Home(l, n), p);
      SmallStep(l, n, p);
      assert p in s.dir <==> Small(l, n, p);
    }
  }

  lemma TableGrows(s: Space, t: Space, jx: Index, p: seq<nat>)
    requires Grown(s, t) && OnTheWay(s, t, jx) && jx[..3] in t.dir && |p| == 3
    ensures p in t.dir <==> p in s.dir || p == jx[..3]
  {
    assert Grew(s, t, p);
    if p in t.dir && p !in s.dir {
      assert p <= jx;
    }
  }

  lemma TablesStay(s: Space, t: Space, l: Life, n: nat)
    requires n < |l.ops| && LeafTables(s, l, n) && t.dir == s.dir && !l.ops[n].MapFresh? && !l.ops[n].MapTo?
    ensures LeafTables(t, l, n + 1)
  {
    var m := n + 1;
    forall p | |p| == 3
      ensures p in t.dir <==> Small(l, m, p)
    {
      SmallStep(l, n, p);
      assert p in s.dir <==> Small(l, n, p);
    }
  }

  /** A call that allocates nothing and gives nothing back. */
  lemma DataStays(l: Life, n: nat, frames: seq<nat>, base: set<nat>, x: nat)
    requires n < |l.ops| && |frames| == n && Apart(l, n, frames, base) && Open(l, n + 1) == Open(l, n)
    ensures Data(l, n + 1, frames + [x]) == Data(l, n, frames) && Apart(l, n + 1, frames + [x], base)
  {
  }

  lemma DataGrows(l: Life, n: nat, frames: seq<nat>, base: set<nat>, x: nat)
    requires n < |l.ops| && |frames| == n && Apart(l, n, frames, base) && l.ops[n].MapFresh?
    requires x !in base && x !in Data(l, n, frames)
    ensures Data(l, n + 1, frames + [x]) == Data(l, n, frames) + {x} && Apart(l, n + 1, frames + [x], base)
  {
  }

  lemma DataShrinks(l: Life, n: nat, frames: seq<nat>, base: set<nat>, x: nat)
    requires n < |l.ops| && |frames| == n && Apart(l, n, frames, base) && GivesBack(l, n)
    ensures var j := Before(l, n).holder.op;
            && j in Open(l, n) && frames[j] in Data(l, n, frames) && frames[j] !in base
            && Data(l, n + 1, frames + [x]) == Data(l, n, frames) - {frames[j]} && Apart(l, n + 1, frames + [x], base)
  {
    var fs, m, j := frames + [x], n + 1, Before(l, n).holder.op;
    FreshCell(l, n, Home(l, n));
    assert Open(l, m) == Open(l, n) - {j};
    assert forall k :: k in Open(l, n) ==> fs[k] == frames[k];
  }

  /** map onto frame `x`, which the caller allocated if the life says so. */
  lemma MapStep(s: Space, u: Space, t: Space, l: Life, n: nat, frames: seq<nat>, base: set<nat>, x: nat, e: Entry)
    requires n < |l.ops| && Follows(s, l, n, frames, base)
    requires match l.ops[n]
             case MapFresh(_, flags) => e == Entry(x, flags) && x !in s.used && u == s.(used := s.used + {x})
             case MapTo(_, pa, flags) => e == Encode(pa, flags) && u == s
             case _ => false
    requires Grown(u, t) && OnTheWay(u, t, Home(l, n)) && Home(l, n)[..3] in t.dir && Remapped(u, t, Home(l, n), LeafPage(e))
    ensures Follows(t, l, n + 1, frames + [x], base)
  {
    assert Remapped(s, t, Home(l, n), LeafPage(e)) by {
      forall ix: Index ensures Shows(u, ix) == Shows(s, ix) {
      }
    }
    SeesStep(s, t, l, n, frames, x, LeafPage(e));
    assert LeafTables(u, l, n);
    TablesGrow(u, t, l, n);
    if l.ops[n].MapFresh? {
      DataGrows(l, n, frames, base, x);
    } else {
      DataStays(l, n, frames, base, x);
    }
    GrownAccount(u, t, base + Data(l, n + 1, frames + [x]));
  }

  /** New tables come from free frames. */
  lemma GrownAccount(u: Space, t: Space, others: set<nat>)
    requires Grown(u, t) && others <= u.used && u.used == others + u.dir.Values && others !! u.dir.Values
    ensures t.used == others + t.dir.Values && others !! t.dir.Values
  {
    GrownRoot(u, t);
    forall f | f in t.dir.Values
      ensures f !in others
    {
      var p :| p in t.dir && t.dir[p] == f;
      assert Grew(u, t, p);
      assert p in u.dir ==> u.dir[p] in u.dir.Values;
    }
  }

  /** Which 4K page there is, as the life says. */
  lemma Is4KCell(s: Space, l: Life, n: nat, frames: seq<nat>, base: set<nat>, ix: Index)
    requires n <= |l.ops| && Follows(s, l, n, frames, base)
    ensures Is4K(Walks(s, ix)) <==> Small(l, n, ix[..3]) && CellAt(l, n, ix).At?
    ensures Is4K(Walks(s, ix)) ==> Shows(s, ix) == LeafPage(Walks(s, ix).entry)
  {
    Is4KIff(s, ix);
    assert ix[..3] in s.dir <==> Small(l, n, ix[..3]);
    assert Looks(Shows(s, ix), CellAt(l, n, ix), frames);
  }

  /** unmap_user or mprotect_user, with nothing given back. */
  lemma ChangeStep(s: Space, t: Space, l: Life, n: nat, frames: seq<nat>, base: set<nat>, page: Page)
    requires n < |l.ops| && Follows(s, l, n, frames, base) && Changed(s, t, Home(l, n), page)
    requires (l.ops[n].Unmap? || l.ops[n].Protect?) && !GivesBack(l, n)
    requires Looks(page, CellAt(l, n + 1, Home(l, n)), frames + [0])
    ensures Follows(t, l, n + 1, frames + [0], base)
  {
    SeesStep(s, t, l, n, frames, 0, page);
    TablesStay(s, t, l, n);
    DataStays(l, n, frames, base, 0);
  }

  /** unmap_user by a caller who gives the frame back. */
  lemma GiveBackStep(s: Space, t: Space, l: Life, n: nat, frames: seq<nat>, base: set<nat>, x: nat)
    requires n < |l.ops| && Follows(s, l, n, frames, base) && Changed(s, t, Home(l, n), NoPage)
    requires GivesBack(l, n) && Looks(Shows(s, Home(l, n)), Before(l, n), frames) && x == Shows(s, Home(l, n)).frame
    ensures var u := t.(used := t.used - {x}); Sound(u) && Follows(u, l, n + 1, frames + [0], base)
  {
    var u := t.(used := t.used - {x});
    DataShrinks(l, n, frames, base, 0);
    assert x in Data(l, n, frames) && x !in s.dir.Values;
    assert Remapped(s, u, Home(l, n), NoPage) by {
      forall ix: Index ensures Shows(u, ix) == Shows(t, ix) {
      }
    }
    SeesStep(s, u, l, n, frames, 0, NoPage);
    TablesStay(s, u, l, n);
  }

  /** unmap_user that found no page, or one that nobody gives back. */
  lemma UnmapStep(s: Space, t: Space, l: Life, n: nat, frames: seq<nat>, base: set<nat>)
    requires n < |l.ops| && Follows(s, l, n, frames, base) && l.ops[n].Unmap? && Grown(s, t) && t.dir == s.dir
    requires if Is4K(Walks(s, Home(l, n))) then !GivesBack(l, n) && Remapped(s, t, Home(l, n), NoPage) else t == s
    ensures Follows(t, l, n + 1, frames + [0], base)
  {
    var ix := Home(l, n);
    Is4KCell(s, l, n, frames, base, ix);
    assert Looks(Shows(s, ix), Before(l, n), frames);
    if Is4K(Walks(s, ix)) {
      ChangeStep(s, t, l, n, frames, base, NoPage);
    } else {
      LooksLonger(Shows(s, ix), Before(l, n), frames, 0);
      ChangeStep(s, t, l, n, frames, base, Shows(s, ix));
    }
  }

  lemma UnmapBackStep(s: Space, t: Space, l: Life, n: nat, frames: seq<nat>, base: set<nat>, x: nat)
    requires n < |l.ops| && Follows(s, l, n, frames, base) && GivesBack(l, n) && Grown(s, t) && t.dir == s.dir
    requires Is4K(Walks(s, Home(l, n))) && Walks(s, Home(l, n)).entry.ppn == x && Remapped(s, t, Home(l, n), NoPage)
    ensures var u := t.(used := t.used - {x}); Sound(u) && Follows(u, l, n + 1, frames + [0], base)
  {
    Is4KCell(s, l, n, frames, base, Home(l, n));
    assert Looks(Shows(s, Home(l, n)), Before(l, n), frames);
    GiveBackStep(s, t, l, n, frames, base, x);
  }

  lemma ProtectStep(s: Space, t: Space, l: Life, n: nat, frames: seq<nat>, base: set<nat>)
    requires n < |l.ops| && Follows(s, l, n, frames, base) && l.ops[n].Protect? && Grown(s, t) && t.dir == s.dir
    requires var w := Walks(s, Home(l, n));
             if Is4K(w) then Remapped(s, t, Home(l, n), LeafPage(Entry(w.entry.ppn, l.ops[n].flags))) else SameView(s, t)
    ensures Follows(t, l, n + 1, frames + [0], base)
  {
    var ix := Home(l, n);
    var w := Walks(s, ix);
    Is4KCell(s, l, n, frames, base, ix);
    assert Looks(Shows(s, ix), Before(l, n), frames);
    if Is4K(w) {
      ChangeStep(s, t, l, n, frames, base, LeafPage(Entry(w.entry.ppn, l.ops[n].flags)));
    } else {
      LooksLonger(Shows(s, ix), Before(l, n), frames, 0);
      ChangeStep(s, t, l, n, frames, base, Shows(s, ix));
    }
  }

  // ---------------------------------------------------------------- the end

  /** The frames nobody freed. */
  function Leaked(l: Life, frames: seq<nat>): set<nat>
  {
    set j | j in Leaks(l) && j < |frames| :: frames[j]
  }

  /** What is allocated after a life: what was before and what leaked, without what was stolen. */
  ghost predicate Settled(base: set<nat>, end: set<nat>, l: Life, frames: seq<nat>)
  {
    && |frames| == |l.ops| && Apart(l, |l.ops|, frames, base)
    && forall x :: x in end <==> (x in base || x in Leaked(l, frames)) && !Stolen(l, x)
  }

  /** What is held at the end: the tables, the frames found in user pages, and the stolen ones. */
  lemma HeldAtEnd(s: Space, l: Life, frames: seq<nat>, base: set<nat>, x: nat)
    requires Follows(s, l, |l.ops|, frames, base)
    ensures Holds(s, x) <==>
              x in s.dir.Values || Stolen(l, x) || exists j :: j in Open(l, |l.ops|) && Found(l, |l.ops|, j) && frames[j] == x
  {
    var n := |l.ops|;
    if Holds(s, x) {
      var p :| Held(s, Freed(p, x));
      if p in s.dir {
        assert s.dir[p] == x;
      } else {
        assert Looks(Shows(s, p), CellAt(l, n, p), frames);
        FreshCell(l, n, p);
        var c := CellAt(l, n, p);
        assert OnFresh(c) ==> Found(l, n, c.holder.op);
        assert OnGiven(c) ==> c == At(Given(x), true);
      }
    }
    if x in s.dir.Values {
      var p :| p in s.dir && s.dir[p] == x;
      assert Held(s, Freed(p, x));
    }
    if Stolen(l, x) {
      var ix: Index :| CellAt(l, n, ix) == At(Given(x), true);
      UserHeld(s, l, frames, base, ix, x);
    }
    if j :| j in Open(l, n) && Found(l, n, j) && frames[j] == x {
      UserHeld(s, l, frames, base, Home(l, j), x);
    }
  }

  lemma UserHeld(s: Space, l: Life, frames: seq<nat>, base: set<nat>, ix: Index, x: nat)
    requires Follows(s, l, |l.ops|, frames, base)
    requires var c := CellAt(l, |l.ops|, ix); c.At? && c.user && Names(c.holder, frames, x)
    ensures Holds(s, x)
  {
    assert Looks(Shows(s, ix), CellAt(l, |l.ops|, ix), frames);
    HeldThere(s, ix, x);
  }

  lemma Settles(s: Space, end: set<nat>, l: Life, frames: seq<nat>, base: set<nat>)
    requires Follows(s, l, |l.ops|, frames, base) && forall x :: x in end <==> x in s.used && !Holds(s, x)
    ensures Settled(base, end, l, frames)
  {
    var n := |l.ops|;
    forall x
      ensures x in end <==> (x in base || x in Leaked(l, frames)) && !Stolen(l, x)
    {
      HeldAtEnd(s, l, frames, base, x);
      SettlesAt(l, frames, base, x);
    }
  }

  /** Of the frames of the pages those in no user page are leaked. */
  lemma SettlesAt(l: Life, frames: seq<nat>, base: set<nat>, x: nat)
    requires |frames| == |l.ops| && Apart(l, |l.ops|, frames, base)
    ensures (x in base + Data(l, |l.ops|, frames) && !exists j :: j in Open(l, |l.ops|) && Found(l, |l.ops|, j) && frames[j] == x) <==>
            x in base || x in Leaked(l, frames)
  {
    var n := |l.ops|;
    if x in Data(l, n, frames) {
      var j :| j in Open(l, n) && frames[j] == x;
      assert !Found(l, n, j) ==> j in Leaks(l);
    }
    if x in Leaked(l, frames) {
      var j :| j in Leaks(l) && frames[j] == x;
      assert j in Open(l, n) && x in Data(l, n, frames);
    }
  }

  /** Without theft no frame is held twice. */
  lemma OnceAtEnd(s: Space, l: Life, frames: seq<nat>, base: set<nat>)
    requires Follows(s, l, |l.ops|, frames, base) && forall y :: !Stolen(l, y)
    ensures Once(s)
  {
    forall r, r' | Held(s, r) && Held(s, r') && r.frame == r'.frame
      ensures r == r'
    {
      PlaceOf(s, l, frames, base, r);
      PlaceOf(s, l, frames, base, r');
      assert r.place in s.dir ==> r.frame in s.dir.Values;
      assert r'.place in s.dir ==> r.frame in s.dir.Values;
    }
  }

  lemma PlaceOf(s: Space, l: Life, frames: seq<nat>, base: set<nat>, r: Freed)
    requires Follows(s, l, |l.ops|, frames, base) && (forall y :: !Stolen(l, y)) && Held(s, r)
    ensures r.place !in s.dir ==>
              exists j :: j in Open(l, |l.ops|) && frames[j] == r.frame && r.place == Home(l, j) && r.frame in Data(l, |l.ops|, frames)
  {
    var n := |l.ops|;
    if r.place !in s.dir {
      var c := CellAt(l, n, r.place);
      assert Looks(Shows(s, r.place), c, frames);
      FreshCell(l, n, r.place);
      assert OnGiven(c) ==> c == At(Given(r.frame), true) && Stolen(l, r.frame);
      var j := c.holder.op;
      assert j in Open(l, n) && frames[j] == r.frame && r.place == Home(l, j);
    }
  }

  lemma {:induction false} ImageSize(js: set<nat>, frames: seq<nat>)
    requires forall j :: j in js ==> j < |frames|
    requires forall j, k :: j in js && k in js && frames[j] == frames[k] ==> j == k
    ensures |set j | j in js :: frames[j]| == |js|
    decreases |js|
  {
    if js != {} {
      var i :| i in js;
      var rest := js - {i};
      ImageSize(rest, frames);
      assert (set j | j in js :: frames[j]) == (set j | j in rest :: frames[j]) + {frames[i]};
      assert frames[i] !in (set j | j in rest :: frames[j]);
    }
  }

  /** Exactly so many frames are leaked as the life says, none of which was in use before. */
  lemma LeakCount(base: set<nat>, end: set<nat>, l: Life, frames: seq<nat>)
    requires Settled(base, end, l, frames)
    ensures |Leaked(l, frames)| == |Leaks(l)| && Leaked(l, frames) !! base
  {
    assert forall j :: j in Leaks(l) ==> j in Open(l, |l.ops|);
    ImageSize(Leaks(l), frames);
    assert Leaked(l, frames) == set j | j in Leaks(l) :: frames[j];
  }

  /** A balanced life is conservative; in general that takes every leak stolen and no theft from before. */
  lemma ConservedIff(base: set<nat>, end: set<nat>, l: Life, frames: seq<nat>)
    requires Settled(base, end, l, frames)
    ensures end == base <==> (forall x :: x in Leaked(l, frames) ==> Stolen(l, x)) && forall x :: x in base ==> !Stolen(l, x)
    ensures Balanced(l, |l.ops|) ==> end == base
  {
  }

  // ---------------------------------------------------------------- running a life

  /** The memory holds a space that follows the life. */
  ghost predicate Living(mm: Memory, root: nat, s: Space, l: Life, n: nat, frames: seq<nat>, base: set<nat>)
    reads mm, mm.pmm, mm.pmm.bitmap
  {
    var living := n <= |l.ops| && mm.Holds(s) && Root(s) == root && Follows(s, l, n, frames, base);
    living
  }

  ghost predicate NoFrameLeft(mm: Memory)
    reads mm, mm.pmm, mm.pmm.bitmap
  {
    mm.Valid() && |mm.pmm.Allocated()| == mm.pmm.totalFrames
  }

  /** A fresh frame, as the entry that maps it. */
  method TakeFrame(mm: Memory, flags: Flags, ghost s: Space) returns (r: Option<Entry>, ghost u: Space)
    requires mm.Holds(s)
    modifies mm.pmm`nextFree, mm.pmm.bitmap
    ensures r.None? ==> NoFrameLeft(mm)
    ensures r.Some? ==>
              && mm.Holds(u) && r.value.flags == flags && r.value.ppn !in s.used
              && u == s.(used := s.used + {r.value.ppn})
  {
    u := s;
    mm.pmm.Room();
    var frame := mm.pmm.Alloc();
    if frame.None? {
      return None, s;
    }
    EncodeExact(frame.value, flags);
    u := s.(used := mm.pmm.Allocated());
    r := Some(Encode(frame.value, flags));
  }

  method PerformMap(mm: Memory, root: nat, l: Life, n: nat, ghost s: Space, ghost frames: seq<nat>, ghost base: set<nat>)
    returns (ok: bool, ghost t: Space, ghost x: nat)
    requires n < |l.ops| && Living(mm, root, s, l, n, frames, base) && (l.ops[n].MapFresh? || l.ops[n].MapTo?)
    modifies mm`mem, mm.pmm`nextFree, mm.pmm.bitmap
    ensures if ok then Living(mm, root, t, l, n + 1, frames + [x], base) else NoFrameLeft(mm)
  {
    var op := l.ops[n];
    var e := Encode(0, op.flags);
    ghost var u := s;
    t, x := s, 0;
    if op.MapFresh? {
      var frame;
      frame, u := TakeFrame(mm, op.flags, s);
      if frame.None? {
        return false, s, 0;
      }
      e, x := frame.value, frame.value.ppn;
    } else {
      e := Encode(op.pa, op.flags);
    }
    ok, t := mm.MapPage(root, Indices(op.va), e, u);
    if ok {
      GrownRoot(u, t);
      MapStep(s, u, t, l, n, frames, base, x, e);
    }
  }

  method GiveBack(mm: Memory, x: nat, ghost s: Space) returns (ghost t: Space)
    requires mm.Holds(s) && Sound(s.(used := s.used - {x}))
    modifies mm.pmm`nextFree, mm.pmm.bitmap
    ensures mm.Holds(t) && t == s.(used := s.used - {x})
  {
    mm.pmm.Dealloc(x * PAGE_SIZE);
    t := s.(used := s.used - {x});
  }

  method PerformUnmap(mm: Memory, root: nat, l: Life, n: nat, ghost s: Space, ghost frames: seq<nat>, ghost base: set<nat>)
    returns (ghost t: Space)
    requires n < |l.ops| && Living(mm, root, s, l, n, frames, base) && l.ops[n].Unmap?
    modifies mm`mem, mm.pmm`nextFree, mm.pmm.bitmap
    ensures Living(mm, root, t, l, n + 1, frames + [0], base)
  {
    var e;
    e, t := mm.UnmapPage(root, Home(l, n), s);
    GrownRoot(s, t);
    if e.Some? && GivesBack(l, n) {
      UnmapBackStep(s, t, l, n, frames, base, e.value.ppn);
      t := GiveBack(mm, e.value.ppn, t);
    } else {
      UnmapStep(s, t, l, n, frames, base);
    }
  }

  method PerformProtect(mm: Memory, root: nat, l: Life, n: nat, ghost s: Space, ghost frames: seq<nat>, ghost base: set<nat>)
    returns (ghost t: Space)
    requires n < |l.ops| && Living(mm, root, s, l, n, frames, base) && l.ops[n].Protect?
    modifies mm`mem
    ensures Living(mm, root, t, l, n + 1, frames + [0], base)
  {
    var ok;
    ok, t := mm.MprotectPage(root, Home(l, n), l.ops[n].flags, s);
    GrownRoot(s, t);
    if !ok {
      SameWalksView(s, t);
    }
    ProtectStep(s, t, l, n, frames, base);
  }

  /** Call number `n` of the life; false is the panic when no frame is left. */
  method Perform(mm: Memory, root: nat, l: Life, n: nat, ghost s: Space, ghost frames: seq<nat>, ghost base: set<nat>)
    returns (ok: bool, ghost t: Space, ghost x: nat)
    requires n < |l.ops| && Living(mm, root, s, l, n, frames, base)
    modifies mm`mem, mm.pmm`nextFree, mm.pmm.bitmap
    ensures if ok then Living(mm, root, t, l, n + 1, frames + [x], base) else NoFrameLeft(mm)
  {
    ok, x := true, 0;
    if l.ops[n].Unmap? {
      t := PerformUnmap(mm, root, l, n, s, frames, base);
    } else if l.ops[n].Protect? {
      t := PerformProtect(mm, root, l, n, s, frames, base);
    } else {
      ok, t, x := PerformMap(mm, root, l, n, s, frames, base);
    }
  }

  /** A space without level-0 tables in which the ranges are mapped. */
  ghost predicate KernelOnly(s: Space, ranges: seq<Range>, base: set<nat>)
  {
    var kernel :=
      && KernelLarge(s) && AllOpen(s) && (forall p :: p in s.dir ==> |p| < 3)
      && (forall ix: Index :: Shows(s, ix) == KernelPage(ranges, ix))
      && Account(s, {}, base);
    kernel
  }

  lemma RangeStep(s: Space, t: Space, ranges: seq<Range>, k: nat, base: set<nat>)
    requires k < |ranges| && !ranges[k].flags.user && KernelOnly(s, ranges[..k], base)
    requires var r := ranges[k]; IdentityMapped(s, t, r.start / LARGE, RoundUp(r.end), r.flags)
    ensures KernelOnly(t, ranges[..k + 1], base)
  {
    var r, more := ranges[k], ranges[..k + 1];
    RegrownIsGrown(s, t);
    GrownAccount(s, t, base);
    assert more[..k] == ranges[..k];
    forall ix: Index
      ensures Shows(t, ix) == KernelPage(more, ix)
    {
      assert Shows(t, ix) == match Last(r.start / LARGE, RoundUp(r.end), Number(ix) / 512)
                             case None => Shows(s, ix)
                             case Some(j) => IdentityPage(j, ix, r.flags);
    }
  }

  method MapKernel(mm: Memory, root: nat, ranges: seq<Range>, ghost s: Space, ghost base: set<nat>) returns (ok: bool, ghost t: Space)
    requires mm.Holds(s) && Root(s) == root && KernelOnly(s, [], base)
    requires forall r :: r in ranges ==> !r.flags.user
    modifies mm`mem, mm.pmm`nextFree, mm.pmm.bitmap
    ensures if ok then mm.Holds(t) && Root(t) == root && KernelOnly(t, ranges, base) else NoFrameLeft(mm)
  {
    t, ok := s, true;
    var k := 0;
    while k < |ranges| && ok
      invariant k <= |ranges|
      invariant if ok then mm.Holds(t) && Root(t) == root && KernelOnly(t, ranges[..k], base) else NoFrameLeft(mm)
    {
      ghost var u := t;
      var r := ranges[k];
      ok, t := IdentityMap2mb(mm, root, r.start, r.end, r.flags, u);
      if ok {
        RegrownRoot(u, t);
        RangeStep(u, t, ranges, k, base);
      }
      k := k + 1;
    }
    assert ranges[..|ranges|] == ranges;
  }

  /** Before the first call the space follows the life. */
  lemma FirstFollows(s: Space, l: Life, base: set<nat>)
    requires KernelOnly(s, l.ranges, base)
    ensures Follows(s, l, 0, [], base)
  {
  }

  /** A new space with the kernel's ranges in it. */
  method Birth(mm: Memory, l: Life) returns (ok: bool, root: nat, ghost s: Tables)
    requires mm.Valid()
    requires forall r :: r in l.ranges ==> !r.flags.user
    modifies mm`mem, mm.pmm`nextFree, mm.pmm.bitmap
    ensures ok ==> Sound(s)
    ensures if ok then Living(mm, root, s, l, 0, [], old(mm.pmm.Allocated())) else NoFrameLeft(mm)
  {
    ghost var base := mm.pmm.Allocated();
    ok, root, s := Conceive(mm, base);
    if ok {
      ok, s := MapKernel(mm, root, l.ranges, s, base);
      if ok {
        FirstFollows(s, l, base);
      }
    }
  }

  method Conceive(mm: Memory, ghost base: set<nat>) returns (ok: bool, root: nat, ghost s: Tables)
    requires mm.Valid() && base == mm.pmm.Allocated()
    modifies mm`mem, mm.pmm`nextFree, mm.pmm.bitmap
    ensures if ok then Sound(s) && mm.Holds(s) && Root(s) == root && KernelOnly(s, [], base) else NoFrameLeft(mm)
  {
    var r;
    r, s := mm.CreateUserPageTable();
    ok, root := r.Some?, 0;
    if ok {
      root := r.value;
      NewKernel(s, base);
    }
  }

  lemma NewKernel(s: Space, base: set<nat>)
    requires s.dir == map[[] := Root(s)] && KernelLarge(s) && AllOpen(s) && Root(s) !in base && s.used == base + {Root(s)}
    requires forall ix: Index :: Shows(s, ix) == NoPage
    ensures KernelOnly(s, [], base)
  {
  }

  /** All calls of a life; false is the panic when no frame is left. */
  method Live(mm: Memory, root: nat, l: Life, ghost s: Space, ghost base: set<nat>)
    returns (ok: bool, ghost t: Space, ghost frames: seq<nat>)
    requires Living(mm, root, s, l, 0, [], base)
    modifies mm`mem, mm.pmm`nextFree, mm.pmm.bitmap
    ensures if ok then Living(mm, root, t, l, |l.ops|, frames, base) else NoFrameLeft(mm)
  {
    ok, t, frames := true, s, [];
    var n := 0;
    while n < |l.ops| && ok
      invariant n <= |l.ops| && if ok then Living(mm, root, t, l, n, frames, base) else NoFrameLeft(mm)
    {
      ghost var x;
      ok, t, x := Perform(mm, root, l, n, t, frames, base);
      frames := frames + [x];
      n := n + 1;
    }
  }

  /**
   From creation through all calls of a life.  As the beginning of a life is a life, this speaks of
   every moment: the space follows the life, and Ring 3 reaches exactly the pages it gives the user.
   */
  method LiveThrough(mm: Memory, l: Life) returns (ok: bool, root: nat, ghost s: Tables, ghost frames: seq<nat>)
    requires mm.Valid()
    requires forall r :: r in l.ranges ==> !r.flags.user
    modifies mm`mem, mm.pmm`nextFree, mm.pmm.bitmap
    ensures ok ==> Sound(s) && Living(mm, root, s, l, |l.ops|, frames, old(mm.pmm.Allocated()))
    ensures ok ==> forall ix: Index :: UserReach(mm.mem, root, ix, 3) <==> OfUser(CellAt(l, |l.ops|, ix))
    ensures !ok ==> NoFrameLeft(mm)
  {
    ghost var base := mm.pmm.Allocated();
    frames := [];
    ok, root, s := Birth(mm, l);
    if ok {
      ok, s, frames := Live(mm, root, l, s, base);
    }
    if ok {
      forall ix: Index ensures UserReach(mm.mem, root, ix, 3) <==> OfUser(CellAt(l, |l.ops|, ix)) {
        ReachExact(s, l, |l.ops|, frames, base, ix);
      }
    }
  }

  /** Of the pages exactly those of the user are freed, each with the frame that the life put there. */
  ghost predicate FreesUserPages(freed: seq<Freed>, l: Life, frames: seq<nat>)
  {
    forall ix: Index, x :: Freed(ix, x) in freed <==>
      OfUser(CellAt(l, |l.ops|, ix)) && Names(CellAt(l, |l.ops|, ix).holder, frames, x)
  }

  lemma FreedPages(freed: seq<Freed>, s: Space, l: Life, frames: seq<nat>, base: set<nat>)
    requires Follows(s, l, |l.ops|, frames, base) && forall r :: r in freed <==> Held(s, r)
    ensures FreesUserPages(freed, l, frames)
  {
    forall ix: Index, x
      ensures Freed(ix, x) in freed <==> OfUser(CellAt(l, |l.ops|, ix)) && Names(CellAt(l, |l.ops|, ix).holder, frames, x)
    {
      HeldThere(s, ix, x);
      assert Looks(Shows(s, ix), CellAt(l, |l.ops|, ix), frames);
    }
  }

  /** Teardown after all calls of a life. */
  method Die(mm: Memory, root: nat, l: Life, ghost s: Space, ghost frames: seq<nat>, ghost base: set<nat>)
    returns (ghost freed: seq<Freed>)
    requires Living(mm, root, s, l, |l.ops|, frames, base)
    modifies mm.pmm`nextFree, mm.pmm.bitmap
    ensures mm.Valid() && Settled(base, mm.pmm.Allocated(), l, frames)
    ensures NoDup(freed) && FreesUserPages(freed, l, frames) && ((forall y :: !Stolen(l, y)) ==> Distinct(freed))
  {
    freed := FreeUserPageTable(mm, root, s);
    Settles(s, mm.pmm.Allocated(), l, frames, base);
    FreedPages(freed, s, l, frames, base);
    if forall y :: !Stolen(l, y) {
      OnceAtEnd(s, l, frames, base);
    }
  }

  /**
   Conservation over every life of an address space.  Afterwards allocated is what was before, and the
   frames the life leaked, without those it stole; each user page was freed once, and no frame twice
   unless something was stolen.  The only other outcome is the panic when no frame is left.
   */
  method LiveAndDie(mm: Memory, l: Life) returns (ok: bool, ghost frames: seq<nat>, ghost freed: seq<Freed>)
    requires mm.Valid()
    requires forall r :: r in l.ranges ==> !r.flags.user
    modifies mm`mem, mm.pmm`nextFree, mm.pmm.bitmap
    ensures mm.Valid()
    ensures ok ==> Settled(old(mm.pmm.Allocated()), mm.pmm.Allocated(), l, frames)
    ensures ok ==> NoDup(freed) && FreesUserPages(freed, l, frames) && ((forall y :: !Stolen(l, y)) ==> Distinct(freed))
    ensures !ok ==> |mm.pmm.Allocated()| == mm.pmm.totalFrames
  {
    ghost var base := mm.pmm.Allocated();
    freed := [];
    var root;
    ghost var s;
    ok, root, s, frames := LiveThrough(mm, l);
    if ok {
      freed := Die(mm, root, l, s, frames, base);
    }
  }
}
