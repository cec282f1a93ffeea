/**
 The lives a user address space can have (kernel/src/mm/vmm.rs): which frame each page names after any
 run of map, unmap_user and mprotect_user, and what is leaked or stolen at the end.

 A life is data: the ranges identity-mapped at the start and the calls after that.  Everything here is
 computed from it; only the numbers of the frames the allocator hands out are open.
 */
module Lives {
  import opened Pte
  import opened PageTables
  import opened LargePages

  /** A range for identity_map_2mb. */
  datatype Range = Range(start: nat, end: nat, flags: Flags)

  /**
   A call: map onto a frame just allocated, map onto a given address, unmap_user, mprotect_user.
   `free` says whether the caller of unmap_user gives the frame back if it was allocated for the page.
   */
  datatype Op =
    | MapFresh(va: nat, flags: Flags)
    | MapTo(va: nat, pa: nat, flags: Flags)
    | Unmap(va: nat, free: bool)
    | Protect(va: nat, flags: Flags)

  datatype Life = Life(ranges: seq<Range>, ops: seq<Op>)

  /** Where a page's frame came from: it was given, or allocated by call number `op`. */
  datatype Holder = Given(frame: nat) | Fresh(op: nat)

  /** What one page is: nothing, or a frame, for the user or for the kernel. */
  datatype Cell = Nothing | At(holder: Holder, user: bool)

  predicate IsUser(flags: Flags)
  {
    flags.present && flags.user
  }

  predicate OnFresh(c: Cell)
  {
    c.At? && c.holder.Fresh?
  }

  predicate OnGiven(c: Cell)
  {
    c.At? && c.holder.Given?
  }

  predicate OfUser(c: Cell)
  {
    c.At? && c.user
  }

  /** The page after the ranges are mapped: as the last of them that covers it says. */
  function KernelPage(ranges: seq<Range>, ix: Index): Page
  {
    if ranges == [] then NoPage
    else
      var r := ranges[|ranges| - 1];
      match Last(r.start / LARGE, RoundUp(r.end), Number(ix) / 512)
      case None => KernelPage(ranges[..|ranges| - 1], ix)
      case Some(k) => IdentityPage(k, ix, r.flags)
  }

  /** After `n` calls the pages of `p` have a level-0 table: a 4K page was mapped among them. */
  predicate Small(l: Life, n: nat, p: seq<nat>)
    requires n <= |l.ops|
  {
    exists i :: 0 <= i < n && (l.ops[i].MapFresh? || l.ops[i].MapTo?) && Indices(l.ops[i].va)[..3] == p
  }

  /** What call number `i` makes of the page it names; only 4K pages can be unmapped or reprotected. */
  function Next(op: Op, i: nat, small: bool, c: Cell): Cell
  {
    match op
    case MapFresh(_, flags) => if flags.present then At(Fresh(i), flags.user) else Nothing
    case MapTo(_, pa, flags) => if flags.present then At(Given(Encode(pa, flags).ppn), flags.user) else Nothing
    case Unmap(_, _) => if small then Nothing else c
    case Protect(_, flags) =>
      if !small || c.Nothing? then c
      else if flags.present then At(c.holder, flags.user)
      else Nothing
  }

  /** Page `ix` after `n` calls. */
  function CellAt(l: Life, n: nat, ix: Index): Cell
    requires n <= |l.ops|
  {
    if n == 0 then
      match KernelPage(l.ranges, ix)
      case NoPage => Nothing
      case Page(f, flags) => At(Given(f), flags.user)
    else
      var c, op := CellAt(l, n - 1, ix), l.ops[n - 1];
      if Indices(op.va) == ix then Next(op, n - 1, Small(l, n - 1, ix[..3]), c) else c
  }

  /** The page call number `i` names, just before the call. */
  function Before(l: Life, i: nat): Cell
    requires i < |l.ops|
  {
    CellAt(l, i, Indices(l.ops[i].va))
  }

  predicate SmallBefore(l: Life, i: nat)
    requires i < |l.ops|
  {
    Small(l, i, Indices(l.ops[i].va)[..3])
  }

  /** Call number `i` gives back a frame that was allocated for its page. */
  predicate GivesBack(l: Life, i: nat)
    requires i < |l.ops|
  {
    l.ops[i].Unmap? && l.ops[i].free && SmallBefore(l, i) && OnFresh(Before(l, i))
  }

  /** The calls whose frames were allocated and not given back within the first `n` calls. */
  function Open(l: Life, n: nat): (open: set<nat>)
    requires n <= |l.ops|
    ensures forall j :: j in open ==> j < n && l.ops[j].MapFresh?
  {
    if n == 0 then {}
    else
      var open := Open(l, n - 1);
      if l.ops[n - 1].MapFresh? then open + {n - 1}
      else if GivesBack(l, n - 1) then open - {Before(l, n - 1).holder.op}
      else open
  }

  /** A frame allocated for a page is there or nowhere, and while it is there it was not given back. */
  lemma {:induction false} FreshCell(l: Life, n: nat, ix: Index)
    requires n <= |l.ops|
    ensures AtHome(l, n, ix)
  {
    if n > 0 {
      FreshCell(l, n - 1, ix);
      FreshCell(l, n - 1, Indices(l.ops[n - 1].va));
      FreshStep(l, n - 1, ix);
    }
  }

  /** The frame in page `ix`, if it was allocated for a page, was allocated for this one and is out. */
  predicate AtHome(l: Life, n: nat, ix: Index)
    requires n <= |l.ops|
  {
    var c := CellAt(l, n, ix);
    OnFresh(c) ==> c.holder.op in Open(l, n) && Indices(l.ops[c.holder.op].va) == ix
  }

  lemma FreshStep(l: Life, n: nat, ix: Index)
    requires n < |l.ops| && AtHome(l, n, ix) && AtHome(l, n, Indices(l.ops[n].va))
    ensures AtHome(l, n + 1, ix)
  {
    var m, c, open := n + 1, CellAt(l, n, ix), Open(l, n);
    if Indices(l.ops[n].va) != ix {
      assert CellAt(l, m, ix) == c;
      assert OnFresh(c) ==> c.holder.op in Open(l, m);
    }
  }

  /** The page for which call number `j` allocated. */
  function Home(l: Life, j: nat): Index
    requires j < |l.ops|
  {
    Indices(l.ops[j].va)
  }

  // ---------------------------------------------------------------- leaks and thefts

  /** The frame of call number `j` sits in a user page after `n` calls, where teardown finds it. */
  predicate Found(l: Life, n: nat, j: nat)
    requires n <= |l.ops| && j < n
  {
    CellAt(l, n, Home(l, j)) == At(Fresh(j), true)
  }

  /** The calls whose frames nobody will free: not given back, and in no user page at the end. */
  function Leaks(l: Life): set<nat>
  {
    var n := |l.ops|;
    set j | j in Open(l, n) && !Found(l, n, j)
  }

  /** A given frame sits in a user page after `n` calls, and teardown would free it. */
  ghost predicate Exposed(l: Life, n: nat, y: nat)
    requires n <= |l.ops|
  {
    exists ix: Index :: CellAt(l, n, ix) == At(Given(y), true)
  }

  ghost predicate Stolen(l: Life, y: nat)
  {
    Exposed(l, |l.ops|, y)
  }

  /** The user has frames allocated for pages, the kernel has given frames. */
  predicate Fair(c: Cell)
  {
    c.At? ==> (c.user <==> c.holder.Fresh?)
  }

  /** All frames allocated for pages, and only those, sit in user pages. */
  ghost predicate Balanced(l: Life, n: nat)
    requires n <= |l.ops|
  {
    && (forall ix: Index :: Fair(CellAt(l, n, ix)))
    && (forall j :: j in Open(l, n) ==> Found(l, n, j))
  }

  /** At the end that means nothing is leaked and nothing stolen. */
  lemma BalancedIff(l: Life)
    ensures Balanced(l, |l.ops|) <==> Leaks(l) == {} && forall y :: !Stolen(l, y)
  {
    var n := |l.ops|;
    if Leaks(l) == {} && forall y :: !Stolen(l, y) {
      forall j | j in Open(l, n)
        ensures Found(l, n, j)
      {
        assert j !in Leaks(l);
      }
      forall ix: Index
        ensures Fair(CellAt(l, n, ix))
      {
        FreshCell(l, n, ix);
        var c := CellAt(l, n, ix);
        assert OnFresh(c) ==> Found(l, n, c.holder.op);
        assert OnGiven(c) && c.user ==> c == At(Given(c.holder.frame), true) && Stolen(l, c.holder.frame);
      }
    }
  }

  /** Which call keeps the balance. */
  predicate Tidy(l: Life, i: nat)
    requires i < |l.ops|
  {
    var c := Before(l, i);
    match l.ops[i]
    case MapFresh(_, flags) => IsUser(flags) && !OnFresh(c)
    case MapTo(_, _, flags) => !IsUser(flags) && !OnFresh(c)
    case Unmap(_, free) => OnFresh(c) ==> free
    case Protect(_, flags) => SmallBefore(l, i) && c.At? ==> (OnFresh(c) <==> IsUser(flags))
  }

  /** A page on a frame allocated for it is a 4K page. */
  lemma FreshIsSmall(l: Life, n: nat, ix: Index)
    requires n <= |l.ops| && OnFresh(CellAt(l, n, ix))
    ensures Small(l, n, ix[..3])
  {
    FreshCell(l, n, ix);
    var j := CellAt(l, n, ix).holder.op;
    assert Indices(l.ops[j].va)[..3] == ix[..3];
  }

  /** A balanced life stays balanced exactly when the call is tidy. */
  lemma TidyIff(l: Life, n: nat)
    requires n < |l.ops| && Balanced(l, n)
    ensures Balanced(l, n + 1) <==> Tidy(l, n)
  {
    var jx, c := Home(l, n), Before(l, n);
    FreshCell(l, n, jx);
    if OnFresh(c) {
      FreshIsSmall(l, n, jx);
    }
    if Tidy(l, n) {
      TidyKeeps(l, n);
    } else {
      UntidyBreaks(l, n);
    }
  }

  lemma TidyKeeps(l: Life, n: nat)
    requires n < |l.ops| && Balanced(l, n) && Tidy(l, n) && (OnFresh(Before(l, n)) ==> SmallBefore(l, n))
    ensures Balanced(l, n + 1)
  {
    var m := n + 1;
    forall ix: Index
      ensures Fair(CellAt(l, m, ix))
    {
      assert Fair(CellAt(l, n, ix));
    }
    forall j | j in Open(l, m)
      ensures Found(l, m, j)
    {
      if j < n {
        assert j in Open(l, n) && Found(l, n, j);
      }
    }
  }

  lemma UntidyBreaks(l: Life, n: nat)
    requires n < |l.ops| && Balanced(l, n) && !Tidy(l, n) && (OnFresh(Before(l, n)) ==> SmallBefore(l, n))
    ensures !Balanced(l, n + 1)
  {
    var jx, c := Home(l, n), Before(l, n);
    FreshCell(l, n, jx);
    var c' := CellAt(l, n + 1, jx);
    if OnFresh(c) {
      var j := c.holder.op;
      assert j in Open(l, n + 1) && !Found(l, n + 1, j);
    } else if l.ops[n].MapFresh? {
      assert n in Open(l, n + 1) && !Found(l, n + 1, n);
    } else {
      assert !Fair(c');
    }
  }

  lemma {:induction false} StaysBalanced(l: Life, n: nat)
    requires n <= |l.ops| && Balanced(l, 0) && forall i :: 0 <= i < n ==> Tidy(l, i)
    ensures Balanced(l, n)
  {
    if n > 0 {
      StaysBalanced(l, n - 1);
      TidyIff(l, n - 1);
    }
  }

  /** Ranges mapped for the kernel only leave a balanced start. */
  lemma {:induction false} KernelRanges(ranges: seq<Range>, ix: Index)
    requires forall r :: r in ranges ==> !r.flags.user
    ensures KernelPage(ranges, ix).Page? ==> !KernelPage(ranges, ix).flags.user
  {
    if ranges != [] {
      KernelRanges(ranges[..|ranges| - 1], ix);
    }
  }

  lemma StartsBalanced(l: Life)
    requires forall r :: r in l.ranges ==> !r.flags.user
    ensures Balanced(l, 0)
  {
    forall ix: Index
      ensures Fair(CellAt(l, 0, ix))
    {
      KernelRanges(l.ranges, ix);
    }
  }

  /** A life of tidy calls only leaks nothing and steals nothing. */
  lemma TidyLife(l: Life)
    requires (forall r :: r in l.ranges ==> !r.flags.user) && forall i :: 0 <= i < |l.ops| ==> Tidy(l, i)
    ensures Leaks(l) == {} && forall y :: !Stolen(l, y)
  {
    StartsBalanced(l);
    StaysBalanced(l, |l.ops|);
    BalancedIff(l);
  }

  // ---------------------------------------------------------------- who exposes a given frame

  /** Call number `i` hands a given frame to the user. */
  predicate Exposes(l: Life, i: nat)
    requires i < |l.ops|
  {
    match l.ops[i]
    case MapTo(_, _, flags) => IsUser(flags)
    case Protect(_, flags) => IsUser(flags) && SmallBefore(l, i) && OnGiven(Before(l, i))
    case _ => false
  }

  /** After such a call the page is a user page on a given frame. */
  lemma ExposesPage(l: Life, i: nat)
    requires i < |l.ops| && Exposes(l, i)
    ensures var c := CellAt(l, i + 1, Home(l, i)); OnGiven(c) && c.user
  {
  }

  /** A user page on a given frame is always the work of such a call. */
  lemma {:induction false} ExposedBy(l: Life, n: nat, ix: Index)
    requires n <= |l.ops| && forall r :: r in l.ranges ==> !r.flags.user
    requires OnGiven(CellAt(l, n, ix)) && CellAt(l, n, ix).user
    ensures exists i :: 0 <= i < n && Exposes(l, i)
  {
    if n == 0 {
      KernelRanges(l.ranges, ix);
    } else if Home(l, n - 1) != ix || !Exposes(l, n - 1) {
      ExposedBy(l, n - 1, ix);
    }
  }

  /** A user page is on a given frame at some moment of the life exactly when some call exposes one. */
  lemma ExposedIff(l: Life)
    requires forall r :: r in l.ranges ==> !r.flags.user
    ensures (exists n, ix: Index :: 0 <= n <= |l.ops| && OnGiven(CellAt(l, n, ix)) && CellAt(l, n, ix).user) <==>
            exists i :: 0 <= i < |l.ops| && Exposes(l, i)
  {
    if i :| 0 <= i < |l.ops| && Exposes(l, i) {
      var n := i + 1;
      ExposesPage(l, i);
      assert OnGiven(CellAt(l, n, Home(l, i)));
    }
    if n, ix: Index :| 0 <= n <= |l.ops| && OnGiven(CellAt(l, n, ix)) && CellAt(l, n, ix).user {
      ExposedBy(l, n, ix);
    }
  }
}
