/** RamFileSystem: its operations keep the tree and change exactly what they name. */
module RamFs {
  import opened Common
  import opened RamTree
  import opened RamFlat

  /** Numbers are never reused, and a node keeps its name and kind. */
  ghost predicate Aged(n: Nodes, next: nat, n': Nodes, next': nat)
  {
    && next <= next'
    && forall i {:trigger i in n'} :: i in n' && i < next ==> i in n && n'[i].name == n[i].name && n'[i].isDir == n[i].isDir
  }

  lemma AgedTrans(n: Nodes, next: nat, n1: Nodes, next1: nat, n2: Nodes, next2: nat)
    requires Aged(n, next, n1, next1) && Aged(n1, next1, n2, next2)
    ensures Aged(n, next, n2, next2)
  {
  }

  lemma AgedGraft(n: Nodes, next: nat, dir: nat, node: Node)
    requires Graftable(n, next, dir, node)
    ensures Aged(n, next, Graft(n, dir, next, node), next + 1)
  {
  }

  lemma AgedRefill(n: Nodes, next: nat, i: nat, data: seq<Byte>)
    requires i in n
    ensures Aged(n, next, Refill(n, i, data), next)
  {
  }

  /** A file has no children. */
  lemma Childless(n: Nodes, next: nat, i: nat)
    requires Tree(n, next) && i in n && !(n[i].isDir && n[i].children != [])
    ensures n[i].children == []
  {
    if n[i].children != [] {
      assert Parent(n, i, n[i].children[0]);
    }
  }

  /** The directories of the path cannot be made. */
  ghost predicate WayBarred(s: Flat, p: Path, e: VfsError)
  {
    if p == [] then e == InvalidParam else Barred(s, p) && e == NotADirectory
  }

  /** They are made, and `dir` is the last of them. */
  ghost predicate WayMade(was: Flat, s: Flat, p: Path, dir: nat, name: string)
  {
    p != [] && !Barred(was, p) && s == Dirs(was, p, |p| - 1) && dir in s.at && s.at[dir] + [name] == p
  }

  lemma WayOpened(was: Flat, s: Flat, p: Path, dir: nat)
    requires p != [] && Opened(was, s, p, |p| - 1) && dir in s.at && s.at[dir] == p[..|p| - 1]
    ensures WayMade(was, s, p, dir, p[|p| - 1])
  {
  }

  class RamFileSystem {
    var nodes: Nodes
    var next: nat

    /** What the table means. */
    ghost var flat: Flat

    ghost predicate Valid()
      reads this
    {
      Tree(nodes, next) && Means(nodes, next, flat)
    }

    /** A new file system is an empty root directory. */
    constructor ()
      ensures Valid() && flat == EMPTY
    {
      nodes := map[ROOT := Node("/", [], true, [])];
      next := 2;
      flat := EMPTY;
      new;
      MeansNew(nodes);
    }

    method FindChild(dir: nat, name: string) returns (r: Option<nat>)
      ensures r == Find(nodes, dir, name)
    {
      if dir !in nodes || !nodes[dir].isDir {
        return None;
      }
      var ch := nodes[dir].children;
      for k := 0 to |ch|
        invariant Scan(nodes, ch, name) == Scan(nodes, ch[k..], name)
      {
        if ch[k] in nodes && nodes[ch[k]].name == name {
          return Some(ch[k]);
        }
      }
      return None;
    }

    method AllocInode() returns (i: nat)
      modifies this`next
      ensures i == old(next) && next == i + 1
    {
      i := next;
      next := next + 1;
    }

    method AddChild(dir: nat, child: nat)
      modifies this`nodes
      ensures nodes == if dir in old(nodes) && child !in old(nodes)[dir].children
                       then old(nodes)[dir := old(nodes)[dir].(children := old(nodes)[dir].children + [child])]
                       else old(nodes)
    {
      if dir in nodes && child !in nodes[dir].children {
        nodes := nodes[dir := nodes[dir].(children := nodes[dir].children + [child])];
      }
    }

    method RemoveChild(dir: nat, child: nat)
      modifies this`nodes
      ensures nodes == if dir in old(nodes)
                       then old(nodes)[dir := old(nodes)[dir].(children := Without(old(nodes)[dir].children, child))]
                       else old(nodes)
    {
      if dir in nodes {
        nodes := nodes[dir := nodes[dir].(children := Without(nodes[dir].children, child))];
      }
    }

    /** A new node under a directory that has no child of that name. */
    method AddNode(dir: nat, node: Node) returns (i: nat)
      requires Valid() && Graftable(nodes, next, dir, node)
      modifies this
      ensures Valid() && Aged(old(nodes), old(next), nodes, next)
      ensures i == old(next) && i in nodes && nodes[i] == node
      ensures flat == Made(old(flat), old(flat).at[dir] + [node.name], if node.isDir then Directory else File(node.data))
    {
      ghost var was, n := nodes, next;
      GraftTree(was, n, dir, node);
      MeansGraft(was, n, flat, dir, node);
      AgedGraft(was, n, dir, node);
      i := AllocInode();
      nodes := nodes[i := node];
      assert i !in was[dir].children by {
        assert !Parent(was, dir, i);
      }
      AddChild(dir, i);
      assert nodes == Graft(was, dir, n, node);
      flat := Made(flat, flat.at[dir] + [node.name], if node.isDir then Directory else File(node.data));
    }

    method CreateNode(dir: nat, name: string, isDir: bool) returns (r: Result<nat>)
      requires Valid()
      modifies this
      ensures Valid() && Aged(old(nodes), old(next), nodes, next)
      ensures (flat, r) == Create(old(flat), dir, name, if isDir then Directory else File([]))
      ensures r.Err? ==> nodes == old(nodes)
    {
      if dir !in nodes {
        return Err(NotFound);
      }
      MeansChild(nodes, next, flat, dir, name);
      if !nodes[dir].isDir {
        return Err(NotADirectory);
      }
      var existing := FindChild(dir, name);
      if existing.Some? {
        return Err(AlreadyExists);
      }
      var i := AddNode(dir, Node(name, [], isDir, []));
      r := Ok(i);
    }

    /** Unlinking removes exactly one file or empty directory. */
    method Unlink(dir: nat, name: string) returns (r: Result<()>)
      requires Valid()
      modifies this
      ensures Valid() && Aged(old(nodes), old(next), nodes, next)
      ensures (flat, r) == Remove(old(flat), dir, name)
      ensures r.Err? ==> nodes == old(nodes)
    {
      var found := FindChild(dir, name);
      MeansChild(nodes, next, flat, dir, name);
      if found == None {
        return Err(NotFound);
      }
      var i := found.value;
      MeansBusy(nodes, next, flat, i);
      var node := nodes[i];
      if node.isDir && node.children != [] {
        return Err(DirectoryNotEmpty);
      }
      Childless(nodes, next, i);
      FindIff(nodes, next, dir, name, i);
      Drop(dir, i);
      r := Ok(());
    }

    /** Take a childless node out of its directory and the table. */
    method Drop(dir: nat, i: nat)
      requires Valid() && Prunable(nodes, next, dir, i)
      modifies this`nodes, this`flat
      ensures Valid() && Aged(old(nodes), old(next), nodes, next) && flat == Gone(old(flat), old(flat).at[i])
    {
      PruneTree(nodes, next, dir, i);
      MeansPrune(nodes, next, flat, dir, i);
      RemoveChild(dir, i);
      nodes := nodes - {i};
      flat := Gone(flat, flat.at[i]);
    }

    /** Replace a node's data in place. */
    method SetData(i: nat, data: seq<Byte>)
      requires Valid() && i in nodes
      modifies this`nodes, this`flat
      ensures Valid() && Aged(old(nodes), old(next), nodes, next) && flat == Filled(old(flat), old(flat).at[i], data)
    {
      RefillTree(nodes, next, i, data);
      MeansRefill(nodes, next, flat, i, data);
      AgedRefill(nodes, next, i, data);
      nodes := nodes[i := nodes[i].(data := data)];
      flat := Filled(flat, flat.at[i], data);
    }

    method WriteFile(i: nat, offset: nat, data: seq<Byte>) returns (r: Result<nat>)
      requires Valid()
      modifies this
      ensures Valid() && Aged(old(nodes), old(next), nodes, next)
      ensures (flat, r) == Overwrite(old(flat), i, offset, data)
      ensures r.Err? ==> nodes == old(nodes)
    {
      if i !in nodes {
        return Err(NotFound);
      }
      MeansKind(nodes, next, flat, i);
      if nodes[i].isDir {
        return Err(NotAFile);
      }
      SetData(i, Written(nodes[i].data, offset, data));
      r := Ok(|data|);
    }

    method SetFileSize(i: nat, size: nat) returns (r: Result<()>)
      requires Valid()
      modifies this
      ensures Valid() && Aged(old(nodes), old(next), nodes, next)
      ensures (flat, r) == Resize(old(flat), i, size)
      ensures r.Err? ==> nodes == old(nodes)
    {
      if i !in nodes {
        return Err(NotFound);
      }
      MeansKind(nodes, next, flat, i);
      if nodes[i].isDir {
        return Err(NotAFile);
      }
      SetData(i, Resized(nodes[i].data, size));
      r := Ok(());
    }

    /** Store data under a name in a directory: overwrite what is there, or add a file. */
    method Store(dir: nat, name: string, data: seq<Byte>)
      requires Valid() && dir in nodes && nodes[dir].isDir
      modifies this
      ensures Valid() && Aged(old(nodes), old(next), nodes, next)
      ensures flat == Put(old(flat), old(flat).at[dir] + [name], data)
    {
      var existing := FindChild(dir, name);
      MeansChild(nodes, next, flat, dir, name);
      if existing.Some? {
        SetData(existing.value, data);
      } else {
        var _ := AddNode(dir, Node(name, data, false, []));
      }
    }

    method WriteStatic(name: string, data: seq<Byte>)
      requires Valid()
      modifies this
      ensures Valid() && Aged(old(nodes), old(next), nodes, next)
      ensures flat == Put(old(flat), [name], data)
    {
      MeansClosed(nodes, next, flat);
      Store(ROOT, name, data);
      assert [] + [name] == [name];
    }

    /** At the directory that the first `k` names of the path lead to. */
    ghost predicate Stands(dir: nat, p: Path, k: nat)
      requires k <= |p|
      reads this
    {
      Valid() && dir in nodes && nodes[dir].isDir && flat.at[dir] == p[..k]
    }

    /** One name further down; it stops at a file. */
    method Enter(dir: nat, parts: Path, k: nat) returns (stop: bool, child: nat)
      requires k + 1 < |parts| && Stands(dir, parts, k)
      modifies this
      ensures Valid() && Aged(old(nodes), old(next), nodes, next)
      ensures var q := parts[..k + 1];
              && flat == (if q in old(flat).things then old(flat) else Made(old(flat), q, Directory))
              && (q in old(flat).things ==> nodes == old(nodes))
              && (stop <==> EntryAt(flat, q) != Directory) && (!stop ==> Stands(child, parts, k + 1))
    {
      var part := parts[k];
      PrefixStep([], parts, k);
      MeansChild(nodes, next, flat, dir, part);
      var found := FindChild(dir, part);
      if found.Some? {
        child := found.value;
      } else {
        var made := CreateNode(dir, part, true);
        child := made.value;
      }
      MeansKind(nodes, next, flat, child);
      stop := !nodes[child].isDir;
    }

    /** The walk down to the last name; it stops at a file, with nothing made. */
    method Descend(parts: Path) returns (stop: bool, dir: nat)
      requires Valid() && parts != []
      modifies this
      ensures Valid() && Aged(old(nodes), old(next), nodes, next)
      ensures stop ==> flat == old(flat) && nodes == old(nodes) && Barred(flat, parts)
      ensures !stop ==> Stands(dir, parts, |parts| - 1) && Opened(old(flat), flat, parts, |parts| - 1)
    {
      stop, dir := false, ROOT;
      MeansClosed(nodes, next, flat);
      for k := 0 to |parts| - 1
        invariant Aged(old(nodes), old(next), nodes, next) && Stands(dir, parts, k)
        invariant Opened(old(flat), flat, parts, k) && (flat == old(flat) ==> nodes == old(nodes))
      {
        ghost var n, m := nodes, next;
        if parts[..k + 1] in flat.things {
          OpenThere(old(flat), flat, parts, k);
        } else {
          OpenMade(old(flat), flat, parts, k);
        }
        MeansClosed(nodes, next, flat);
        stop, dir := Enter(dir, parts, k);
        AgedTrans(old(nodes), old(next), n, m, nodes, next);
        if stop {
          return;
        }
      }
    }

    /** Find or make every directory of the path but the last name: all or nothing. */
    method WalkCreateDirs(path: string) returns (r: Result<(nat, string)>)
      requires Valid()
      modifies this
      ensures Valid() && Aged(old(nodes), old(next), nodes, next)
      ensures r.Err? ==> flat == old(flat) && nodes == old(nodes) && WayBarred(flat, Components(path), r.error)
      ensures r.Ok? ==> WayMade(old(flat), flat, Components(path), r.value.0, r.value.1)
      ensures r.Ok? ==> r.value.0 in nodes && nodes[r.value.0].isDir
    {
      var parts := Components(path);
      if parts == [] {
        return Err(InvalidParam);
      }
      var stop, dir := Descend(parts);
      if stop {
        return Err(NotADirectory);
      }
      WayOpened(old(flat), flat, parts, dir);
      r := Ok((dir, parts[|parts| - 1]));
    }

    /** Store a file at a path, making directories on the way: all or nothing. */
    method CreatePath(path: string, data: seq<Byte>) returns (r: Result<()>)
      requires Valid()
      modifies this
      ensures Valid() && Aged(old(nodes), old(next), nodes, next)
      ensures (flat, r) == PutPath(old(flat), Components(path), data)
      ensures r.Err? ==> nodes == old(nodes)
    {
      var w := WalkCreateDirs(path);
      if w.Err? {
        return Err(w.error);
      }
      ghost var n, m := nodes, next;
      Store(w.value.0, w.value.1, data);
      AgedTrans(old(nodes), old(next), n, m, nodes, next);
      r := Ok(());
    }

    method WalkPath(path: string) returns (r: Result<nat>)
      requires Valid()
      ensures r == Lead(flat, Components(path))
    {
      var parts, inode := Components(path), ROOT;
      for k := 0 to |parts|
        invariant Walk(nodes, ROOT, parts) == Walk(nodes, inode, parts[k..])
      {
        var found := FindChild(inode, parts[k]);
        if found == None {
          return Err(NotFound);
        }
        inode := found.value;
      }
      r := Ok(inode);
    }

    method ReadPath(path: string) returns (r: Option<seq<Byte>>)
      requires Valid()
      ensures r == Contents(flat, Components(path))
    {
      MeansLook(nodes, next, flat, Components(path));
      var w := WalkPath(path);
      if w.Err? || w.value !in nodes || nodes[w.value].isDir {
        return None;
      }
      r := Some(nodes[w.value].data);
    }
  }

  // ---------------------------------------------------------------- runs

  method Perform(fs: RamFileSystem, op: Op) returns (answer: Answer)
    requires fs.Valid()
    modifies fs
    ensures fs.Valid() && Aged(old(fs.nodes), old(fs.next), fs.nodes, fs.next)
    ensures (fs.flat, answer) == Step(old(fs.flat), op)
  {
    match op {
      case CreateFile(dir, name) =>
        var r := fs.CreateNode(dir, name, false);
        answer := Number(r);
      case CreateDir(dir, name) =>
        var r := fs.CreateNode(dir, name, true);
        answer := Number(r);
      case Unlink(dir, name) =>
        var r := fs.Unlink(dir, name);
        answer := Unit(r);
      case WriteFile(i, offset, data) =>
        var r := fs.WriteFile(i, offset, data);
        answer := Number(r);
      case SetFileSize(i, size) =>
        var r := fs.SetFileSize(i, size);
        answer := Unit(r);
      case WriteStatic(name, data) =>
        fs.WriteStatic(name, data);
        answer := Nothing;
      case CreatePath(path, data) =>
        var r := fs.CreatePath(path, data);
        answer := Unit(r);
      case WalkPath(path) =>
        var r := fs.WalkPath(path);
        answer := Number(r);
      case ReadPath(path) =>
        var r := fs.ReadPath(path);
        answer := Read(r);
    }
  }

  /**
   Whatever calls are made, they are answered as the flat map answers them; the table stays a tree, and
   no number is ever used again.
   */
  method Run(fs: RamFileSystem, ops: seq<Op>) returns (answers: seq<Answer>)
    requires fs.Valid()
    modifies fs
    ensures fs.Valid() && Aged(old(fs.nodes), old(fs.next), fs.nodes, fs.next)
    ensures fs.flat == After(old(fs.flat), ops, |ops|) && answers == AnswersOf(old(fs.flat), ops, |ops|)
  {
    answers := [];
    for k := 0 to |ops|
      invariant fs.Valid() && Aged(old(fs.nodes), old(fs.next), fs.nodes, fs.next)
      invariant fs.flat == After(old(fs.flat), ops, k) && answers == AnswersOf(old(fs.flat), ops, k)
    {
      ghost var n, next := fs.nodes, fs.next;
      var answer := Perform(fs, ops[k]);
      answers := answers + [answer];
      AgedTrans(old(fs.nodes), old(fs.next), n, next, fs.nodes, fs.next);
    }
  }
}
