/**
 What the RAM file system means (kernel/src/driver/ramfs.rs): a flat map from paths to what they name,
 and the answer to every call.  `Means` ties it to the inode table.
 */
module RamFlat {
  import opened Common
  import opened RamTree

  datatype VfsError = NotFound | NotADirectory | NotAFile | AlreadyExists | DirectoryNotEmpty | InvalidParam

  datatype Result<+T> = Ok(value: T) | Err(error: VfsError)

  /** What a path names: the inode number, and a directory or a file. */
  datatype Thing = Thing(inode: nat, entry: Entry)

  /** The paths that name something, the path of every inode, and the next inode number. */
  datatype Flat = Flat(things: map<Path, Thing>, at: map<nat, Path>, next: nat)

  const EMPTY := Flat(map[[] := Thing(ROOT, Directory)], map[ROOT := []], 2)

  function EntryAt(s: Flat, p: Path): Entry
  {
    if p in s.things then s.things[p].entry else Missing
  }

  /** A new thing at a path that named nothing. */
  function Made(s: Flat, p: Path, e: Entry): Flat
  {
    Flat(s.things[p := Thing(s.next, e)], s.at[s.next := p], s.next + 1)
  }

  /** A path that names a file gets other bytes. */
  function Filled(s: Flat, p: Path, data: seq<Byte>): Flat
  {
    if EntryAt(s, p).File? then s.(things := s.things[p := s.things[p].(entry := File(data))]) else s
  }

  function Gone(s: Flat, p: Path): Flat
  {
    if p in s.things then Flat(s.things - {p}, s.at - {s.things[p].inode}, s.next) else s
  }

  /** Something is below the path. */
  predicate Busy(s: Flat, p: Path)
  {
    exists q | q in s.things :: p < q
  }

  // ---------------------------------------------------------------- paths as text

  /** Where the first name of `s` ends: at a slash or at the end. */
  function NameEnd(s: string): (n: nat)
    ensures n <= |s| && '/' !in s[..n] && (n < |s| ==> s[n] == '/')
  {
    if s == "" || s[0] == '/' then 0
    else
      assert s[..NameEnd(s[1..]) + 1] == [s[0]] + s[1..][..NameEnd(s[1..])];
      NameEnd(s[1..]) + 1
  }

  /** The non-empty pieces between slashes. */
  function Components(s: string): Path
    decreases |s|
  {
    if s == "" then []
    else if s[0] == '/' then Components(s[1..])
    else
      assert NameEnd(s) > 0;
      [s[..NameEnd(s)]] + Components(s[NameEnd(s)..])
  }

  predicate Nameable(path: Path)
  {
    forall i :: 0 <= i < |path| ==> path[i] != "" && '/' !in path[i]
  }

  function Render(path: Path): string
  {
    if path == [] then "" else "/" + path[0] + Render(path[1..])
  }

  /** Every path of proper names can be written down and is read back. */
  lemma {:induction false} ComponentsOfRender(path: Path)
    requires Nameable(path)
    ensures Components(Render(path)) == path
  {
    if path != [] {
      var rest := Render(path[1..]);
      var s := path[0] + rest;
      assert Render(path)[1..] == s;
      assert rest == "" || rest[0] == '/';
      NameEndOf(path[0], rest);
      assert s[..|path[0]|] == path[0] && s[|path[0]|..] == rest;
      ComponentsOfRender(path[1..]);
    }
  }

  lemma {:induction false} NameEndOf(name: string, rest: string)
    requires '/' !in name && (rest == "" || rest[0] == '/')
    ensures NameEnd(name + rest) == |name|
  {
    if name != "" {
      assert (name + rest)[1..] == name[1..] + rest;
      NameEndOf(name[1..], rest);
    }
  }

  /** Resize with zeros as needed and overwrite from `offset`. */
  function Written(s: seq<Byte>, offset: nat, data: seq<Byte>): (r: seq<Byte>)
    ensures |r| == if |s| < offset + |data| then offset + |data| else |s|
    ensures forall i :: 0 <= i < |r| ==>
              r[i] == if offset <= i < offset + |data| then data[i - offset] else if i < |s| then s[i] else 0
  {
    var grown := if offset + |data| > |s| then Resized(s, offset + |data|) else s;
    grown[..offset] + data + grown[offset + |data|..]
  }

  function Resized(s: seq<Byte>, size: nat): (r: seq<Byte>)
    ensures |r| == size && forall i :: 0 <= i < size ==> r[i] == if i < |s| then s[i] else 0
  {
    if size <= |s| then s[..size] else s + seq(size - |s|, _ => 0)
  }

  // ---------------------------------------------------------------- the calls

  /** Data stored at a path: over what is there, unless it is a directory, or as a new file. */
  function Put(s: Flat, p: Path, data: seq<Byte>): Flat
  {
    if p in s.things then Filled(s, p, data) else Made(s, p, File(data))
  }

  /** The first `k` proper prefixes of `p` made directories, where they are not there. */
  function Dirs(s: Flat, p: Path, k: nat): Flat
    requires k <= |p|
  {
    if k == 0 then s
    else
      var t := Dirs(s, p, k - 1);
      if p[..k] in t.things then t else Made(t, p[..k], Directory)
  }

  /** Some proper prefix of `p` is a file. */
  predicate Barred(s: Flat, p: Path)
  {
    exists k | 0 < k < |p| :: EntryAt(s, p[..k]).File?
  }

  function Create(s: Flat, dir: nat, name: string, e: Entry): (Flat, Result<nat>)
  {
    if dir !in s.at then (s, Err(NotFound))
    else if !EntryAt(s, s.at[dir]).Directory? then (s, Err(NotADirectory))
    else if s.at[dir] + [name] in s.things then (s, Err(AlreadyExists))
    else (Made(s, s.at[dir] + [name], e), Ok(s.next))
  }

  function Remove(s: Flat, dir: nat, name: string): (Flat, Result<()>)
  {
    if dir !in s.at || s.at[dir] + [name] !in s.things then (s, Err(NotFound))
    else if Busy(s, s.at[dir] + [name]) then (s, Err(DirectoryNotEmpty))
    else (Gone(s, s.at[dir] + [name]), Ok(()))
  }

  /** The error of an access to the bytes of inode `i`, if any. */
  function Refusal(s: Flat, i: nat): Option<VfsError>
  {
    if i !in s.at then Some(NotFound) else if EntryAt(s, s.at[i]).File? then None else Some(NotAFile)
  }

  function Bytes(s: Flat, i: nat): seq<Byte>
  {
    if i in s.at && EntryAt(s, s.at[i]).File? then EntryAt(s, s.at[i]).data else []
  }

  function Overwrite(s: Flat, i: nat, offset: nat, data: seq<Byte>): (Flat, Result<nat>)
  {
    match Refusal(s, i)
    case Some(e) => (s, Err(e))
    case None => (Filled(s, s.at[i], Written(Bytes(s, i), offset, data)), Ok(|data|))
  }

  function Resize(s: Flat, i: nat, size: nat): (Flat, Result<()>)
  {
    match Refusal(s, i)
    case Some(e) => (s, Err(e))
    case None => (Filled(s, s.at[i], Resized(Bytes(s, i), size)), Ok(()))
  }

  function PutPath(s: Flat, p: Path, data: seq<Byte>): (Flat, Result<()>)
  {
    if p == [] then (s, Err(InvalidParam))
    else if Barred(s, p) then (s, Err(NotADirectory))
    else (Put(Dirs(s, p, |p| - 1), p, data), Ok(()))
  }

  datatype Op =
    | CreateFile(dir: nat, name: string)
    | CreateDir(dir: nat, name: string)
    | Unlink(dir: nat, name: string)
    | WriteFile(inode: nat, offset: nat, data: seq<Byte>)
    | SetFileSize(inode: nat, size: nat)
    | WriteStatic(name: string, data: seq<Byte>)
    | CreatePath(path: string, data: seq<Byte>)
    | WalkPath(path: string)
    | ReadPath(path: string)

  datatype Answer = Number(n: Result<nat>) | Unit(u: Result<()>) | Read(data: Option<seq<Byte>>) | Nothing

  /** What a path leads to, and what it reads as. */
  function Lead(s: Flat, p: Path): Result<nat>
  {
    if p in s.things then Ok(s.things[p].inode) else Err(NotFound)
  }

  function Contents(s: Flat, p: Path): Option<seq<Byte>>
  {
    if EntryAt(s, p).File? then Some(EntryAt(s, p).data) else None
  }

  function Step(s: Flat, op: Op): (Flat, Answer)
  {
    match op
    case CreateFile(dir, name) => var (t, r) := Create(s, dir, name, File([])); (t, Number(r))
    case CreateDir(dir, name) => var (t, r) := Create(s, dir, name, Directory); (t, Number(r))
    case Unlink(dir, name) => var (t, r) := Remove(s, dir, name); (t, Unit(r))
    case WriteFile(i, offset, data) => var (t, r) := Overwrite(s, i, offset, data); (t, Number(r))
    case SetFileSize(i, size) => var (t, r) := Resize(s, i, size); (t, Unit(r))
    case WriteStatic(name, data) => (Put(s, [name], data), Nothing)
    case CreatePath(path, data) => var (t, r) := PutPath(s, Components(path), data); (t, Unit(r))
    case WalkPath(path) => (s, Number(Lead(s, Components(path))))
    case ReadPath(path) => (s, Read(Contents(s, Components(path))))
  }

  /** The file system after the first `k` calls, and their answers. */
  function After(s: Flat, ops: seq<Op>, k: nat): Flat
    requires k <= |ops|
  {
    if k == 0 then s else Step(After(s, ops, k - 1), ops[k - 1]).0
  }

  function AnswersOf(s: Flat, ops: seq<Op>, k: nat): seq<Answer>
    requires k <= |ops|
  {
    if k == 0 then [] else AnswersOf(s, ops, k - 1) + [Step(After(s, ops, k - 1), ops[k - 1]).1]
  }

  // ---------------------------------------------------------------- the meaning of a table

  /** The path of every inode leads to it. */
  ghost predicate Placing(n: Nodes, s: Flat)
  {
    (forall i :: i in s.at <==> i in n) && forall i {:trigger s.at[i]} :: i in s.at ==> Walk(n, ROOT, s.at[i]) == Some(i)
  }

  /** Every path leads to what the flat map says. */
  ghost predicate Naming(n: Nodes, s: Flat)
  {
    && (forall q {:trigger Walk(n, ROOT, q)} :: q in s.things <==> Walk(n, ROOT, q).Some?)
    && (forall q {:trigger s.things[q]} :: q in s.things ==> s.things[q] == Thing(Walk(n, ROOT, q).value, Look(n, q)))
  }

  ghost predicate Means(n: Nodes, next: nat, s: Flat)
  {
    s.next == next && Placing(n, s) && Naming(n, s)
  }

  lemma MeansLook(n: Nodes, next: nat, s: Flat, q: Path)
    requires Tree(n, next) && Means(n, next, s)
    ensures Look(n, q) == EntryAt(s, q) && (q in s.things <==> Look(n, q) != Missing)
  {
    WalkIn(n, next, ROOT, q);
  }

  lemma MeansNew(n: Nodes)
    requires n == map[ROOT := Node("/", [], true, [])]
    ensures Means(n, 2, EMPTY)
  {
    forall q ensures Walk(n, ROOT, q) == if q == [] then Some(ROOT) else None {
    }
  }

  /** A table in which only `p` came to lead somewhere, to the new inode. */
  lemma NamingMade(n: Nodes, n': Nodes, s: Flat, p: Path, e: Entry)
    requires Naming(n, s) && p !in s.things
    requires forall q :: Walk(n', ROOT, q) == if q == p then Some(s.next) else Walk(n, ROOT, q)
    requires forall q {:trigger Look(n', q)} :: Look(n', q) == if q == p then e else Look(n, q)
    ensures Naming(n', Made(s, p, e))
  {
  }

  lemma PlacingMade(n: Nodes, n': Nodes, s: Flat, p: Path, e: Entry)
    requires Placing(n, s) && Naming(n, s) && p !in s.things && forall i :: i in n' <==> i in n || i == s.next
    requires forall q :: Walk(n', ROOT, q) == if q == p then Some(s.next) else Walk(n, ROOT, q)
    ensures Placing(n', Made(s, p, e))
  {
  }

  lemma MeansGraft(n: Nodes, next: nat, s: Flat, dir: nat, node: Node)
    requires Graftable(n, next, dir, node) && Means(n, next, s)
    ensures Means(Graft(n, dir, next, node), next + 1, Made(s, s.at[dir] + [node.name], if node.isDir then Directory else File(node.data)))
  {
    var n', at, e := Graft(n, dir, next, node), s.at[dir], if node.isDir then Directory else File(node.data);
    forall q
      ensures Walk(n', ROOT, q) == if q == at + [node.name] then Some(next) else Walk(n, ROOT, q)
      ensures Look(n', q) == if q == at + [node.name] then e else Look(n, q)
    {
      GraftWalk(n, next, dir, node, q);
      HitsPath(n, next, dir, node.name, at, q);
      GraftLook(n, next, dir, node, at, q);
    }
    WalkSnoc(n, ROOT, at, node.name);
    NamingMade(n, n', s, at + [node.name], e);
    PlacingMade(n, n', s, at + [node.name], e);
  }

  lemma MeansRefill(n: Nodes, next: nat, s: Flat, i: nat, data: seq<Byte>)
    requires Tree(n, next) && i in n && Means(n, next, s)
    ensures Means(Refill(n, i, data), next, Filled(s, s.at[i], data))
  {
    var n', at := Refill(n, i, data), s.at[i];
    forall q
      ensures Walk(n', ROOT, q) == Walk(n, ROOT, q)
      ensures Look(n', q) == if q == at && !n[i].isDir then File(data) else Look(n, q)
    {
      RefillWalk(n, next, i, data, ROOT, q);
      RefillLook(n, next, i, data, at, q);
    }
  }

  lemma MeansPrune(n: Nodes, next: nat, s: Flat, dir: nat, i: nat)
    requires Prunable(n, next, dir, i) && Means(n, next, s)
    ensures Means(Prune(n, dir, i), next, Gone(s, s.at[i]))
  {
    var n', at := Prune(n, dir, i), s.at[i];
    forall q
      ensures Walk(n', ROOT, q) == if q == at then None else Walk(n, ROOT, q)
      ensures Look(n', q) == if q == at then Missing else Look(n, q)
    {
      PruneWalk(n, next, dir, i, q);
      PruneLook(n, next, dir, i, at, q);
      if Walk(n, ROOT, q) == Some(i) {
        OnePath(n, next, at, q);
      }
    }
  }

  /** A directory has children exactly when something is below its path. */
  lemma MeansBusy(n: Nodes, next: nat, s: Flat, i: nat)
    requires Tree(n, next) && i in n && Means(n, next, s)
    ensures n[i].children != [] <==> Busy(s, s.at[i])
  {
    var p := s.at[i];
    if n[i].children != [] {
      var c := n[i].children[0];
      assert Parent(n, i, c);
      FindIff(n, next, i, n[c].name, c);
      WalkSnoc(n, ROOT, p, n[c].name);
      assert p < p + [n[c].name];
    }
    if Busy(s, p) {
      var q :| q in s.things && p < q;
      NextStep(n, next, p, q);
    }
  }

  /** A walk that goes on from a node goes to one of its children. */
  lemma NextStep(n: Nodes, next: nat, p: Path, q: Path)
    requires Tree(n, next) && p < q && Walk(n, ROOT, q).Some?
    ensures Walk(n, ROOT, p).Some? && Walk(n, ROOT, p).value in n && n[Walk(n, ROOT, p).value].children != []
    decreases |q|
  {
    LastStep(n, next, q);
    var q' := q[..|q| - 1];
    if p != q' {
      NextStep(n, next, p, q');
    } else {
      WalkIn(n, next, ROOT, p);
    }
  }

  /** The child of a directory is what its path and one name more name. */
  lemma MeansChild(n: Nodes, next: nat, s: Flat, dir: nat, name: string)
    requires Tree(n, next) && Means(n, next, s)
    ensures dir in n ==> (EntryAt(s, s.at[dir]).Directory? <==> n[dir].isDir)
    ensures dir in n ==> (s.at[dir] + [name] in s.things <==> Find(n, dir, name).Some?)
    ensures dir in n && Find(n, dir, name).Some? ==>
              Find(n, dir, name).value in n && s.at[Find(n, dir, name).value] == s.at[dir] + [name]
    ensures dir !in n ==> Find(n, dir, name) == None
  {
    if dir in n {
      MeansLook(n, next, s, s.at[dir]);
      WalkSnoc(n, ROOT, s.at[dir], name);
      var r := Find(n, dir, name);
      if r.Some? {
        FindIff(n, next, dir, name, r.value);
        OnePath(n, next, s.at[dir] + [name], s.at[r.value]);
      }
    }
  }

  lemma MeansKind(n: Nodes, next: nat, s: Flat, i: nat)
    requires Tree(n, next) && Means(n, next, s) && i in n
    ensures EntryAt(s, s.at[i]) == if n[i].isDir then Directory else File(n[i].data)
  {
  }

  /** What is above something is a directory, and the root is one. */
  lemma MeansClosed(n: Nodes, next: nat, s: Flat)
    requires Tree(n, next) && Means(n, next, s)
    ensures Closed(s) && s.at[ROOT] == []
  {
    RootPath(n, next, s.at[ROOT]);
    MeansLook(n, next, s, []);
    forall q | q in s.things ensures s.things[q].entry != Missing {
      MeansLook(n, next, s, q);
    }
    forall p, q | q in s.things && p < q ensures EntryAt(s, p) == Directory {
      NextStep(n, next, p, q);
      var i := Walk(n, ROOT, p).value;
      assert Parent(n, i, n[i].children[0]);
      MeansLook(n, next, s, p);
    }
  }

  // ---------------------------------------------------------------- storing at a path

  ghost predicate Closed(s: Flat)
  {
    && EntryAt(s, []) == Directory
    && (forall q :: q in s.things ==> s.things[q].entry != Missing)
    && (forall p, q :: q in s.things && p < q ==> EntryAt(s, p) == Directory)
  }

  /** Making the directories on the way to a path makes nothing when it is there, and else what was missing. */
  lemma {:induction false} DirsExact(s: Flat, p: Path, k: nat, q: Path)
    requires Closed(s) && k <= |p|
    ensures p[..k] in s.things ==> Dirs(s, p, k) == s
    ensures q in Dirs(s, p, k).things <==> q in s.things || q <= p[..k]
    ensures q in s.things ==> EntryAt(Dirs(s, p, k), q) == EntryAt(s, q)
    ensures q <= p[..k] && q !in s.things ==> EntryAt(Dirs(s, p, k), q) == Directory
    decreases k
  {
    if k > 0 {
      var j := k - 1;
      DirsExact(s, p, j, q);
      DirsExact(s, p, j, p[..k]);
      PrefixStep(q, p, j);
      assert p[..j + 1] == p[..k];
      assert p[..k] in s.things ==> EntryAt(s, p[..j]) == Directory;
    }
  }

  /** None of the first `k` prefixes of `p` is a file. */
  ghost predicate ClearTo(s: Flat, p: Path, k: nat)
    requires k <= |p|
  {
    forall j :: 0 < j <= k ==> !EntryAt(s, p[..j]).File?
  }

  lemma PrefixStep(q: Path, p: Path, k: nat)
    requires k < |p|
    ensures q <= p[..k + 1] <==> q <= p[..k] || q == p[..k + 1]
    ensures p[..k + 1] == p[..k] + [p[k]] && !(p[..k + 1] <= p[..k]) && p[..k] < p[..k + 1]
  {
  }

  /** From `was` to `s` the first `k` directories of the path were found or made. */
  ghost predicate Opened(was: Flat, s: Flat, p: Path, k: nat)
  {
    k <= |p| && Closed(was) && s == Dirs(was, p, k) && ClearTo(was, p, k)
  }

  lemma {:induction false} DirsGrow(s: Flat, p: Path, k: nat)
    requires k <= |p|
    ensures Dirs(s, p, k).next >= s.next
  {
    if k > 0 {
      DirsGrow(s, p, k - 1);
    }
  }

  /** The next name of the path is there: then nothing was made. */
  lemma OpenThere(was: Flat, s: Flat, p: Path, k: nat)
    requires k + 1 < |p| && Opened(was, s, p, k) && p[..k + 1] in s.things
    ensures s == was && (if EntryAt(s, p[..k + 1]).File? then Barred(was, p) else Opened(was, s, p, k + 1))
  {
    var q := p[..k + 1];
    PrefixStep(q, p, k);
    DirsExact(was, p, k, q);
    assert EntryAt(was, p[..k]) == Directory;
  }

  /** It is not: then it is made. */
  lemma OpenMade(was: Flat, s: Flat, p: Path, k: nat)
    requires k + 1 < |p| && Opened(was, s, p, k) && p[..k + 1] !in s.things
    ensures Opened(was, Made(s, p[..k + 1], Directory), p, k + 1) && Made(s, p[..k + 1], Directory) != was
  {
    DirsExact(was, p, k, p[..k + 1]);
    DirsGrow(was, p, k);
  }

  /** What `q` names once `data` has been stored at `p`. */
  function Placed(s: Flat, p: Path, data: seq<Byte>, q: Path): Entry
  {
    if q == p then (if EntryAt(s, p).Directory? then Directory else File(data))
    else if q < p then Directory
    else EntryAt(s, q)
  }

  /** A proper prefix that is not a file is a directory or is made one. */
  lemma NotBarred(s: Flat, p: Path, q: Path)
    requires Closed(s) && !Barred(s, p) && q < p
    ensures EntryAt(s, q) == Directory || q !in s.things
  {
    assert q == p[..|q|];
  }

  /** Storing at a path is all or nothing, and changes nothing but the path and the directories on the way. */
  lemma PutPathExact(s: Flat, p: Path, data: seq<Byte>, q: Path)
    requires Closed(s)
    ensures var (t, r) := PutPath(s, p, data);
            && (r.Err? <==> p == [] || Barred(s, p)) && (r.Err? ==> t == s)
            && (r.Ok? ==> EntryAt(t, q) == Placed(s, p, data, q))
  {
    if p != [] && !Barred(s, p) {
      var k := |p| - 1;
      DirsExact(s, p, k, q);
      DirsExact(s, p, k, p);
      PrefixStep(q, p, k);
      assert p[..k + 1] == p;
      if q < p {
        NotBarred(s, p, q);
      }
    }
  }
}
