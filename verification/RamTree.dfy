/**
 The inode table of the RAM file system as a tree (kernel/src/driver/ramfs.rs).

 A path is a sequence of names. What a table means is what every path names in it, and the lemmas say
 how grafting a node, replacing a node's data and pruning a childless node change that meaning.
 */
module RamTree {
  import opened Common

  const ROOT: nat := 1

  datatype Node = Node(name: string, data: seq<Byte>, isDir: bool, children: seq<nat>)

  type Nodes = map<nat, Node>

  type Path = seq<string>

  /** What a path names. */
  datatype Entry = Missing | Directory | File(data: seq<Byte>)

  // ---------------------------------------------------------------- the tree

  ghost predicate Parent(nodes: Nodes, p: nat, c: nat)
  {
    p in nodes && c in nodes[p].children
  }

  /** Only directories have children; a child is in the table and has a larger number. */
  ghost predicate Linked(nodes: Nodes)
  {
    forall p, c {:trigger Parent(nodes, p, c)} :: Parent(nodes, p, c) ==> nodes[p].isDir && c in nodes && c > p
  }

  ghost predicate OneParent(nodes: Nodes)
  {
    forall p, q, c {:trigger Parent(nodes, p, c), Parent(nodes, q, c)} ::
      Parent(nodes, p, c) && Parent(nodes, q, c) ==> p == q
  }

  ghost predicate UniqueNames(nodes: Nodes)
  {
    forall p, a, b {:trigger Parent(nodes, p, a), Parent(nodes, p, b)} ::
      Parent(nodes, p, a) && Parent(nodes, p, b) && a in nodes && b in nodes && nodes[a].name == nodes[b].name ==> a == b
  }

  ghost predicate HasParent(nodes: Nodes, c: nat)
  {
    exists p :: Parent(nodes, p, c)
  }

  ghost predicate Connected(nodes: Nodes)
  {
    forall c {:trigger HasParent(nodes, c)} :: c in nodes && c != ROOT ==> HasParent(nodes, c)
  }

  ghost predicate ListedOnce(nodes: Nodes)
  {
    forall i {:trigger nodes[i].children} :: i in nodes ==> NoDup(nodes[i].children)
  }

  /**
   Every inode but the root is listed exactly once, by exactly one directory, which has a smaller
   number; names are unique within a directory; `next` is above every number in use.
   */
  ghost predicate Tree(nodes: Nodes, next: nat)
  {
    && ROOT in nodes && nodes[ROOT].isDir
    && (forall i :: i in nodes ==> ROOT <= i < next)
    && Linked(nodes) && OneParent(nodes) && UniqueNames(nodes) && Connected(nodes) && ListedOnce(nodes)
  }

  // ---------------------------------------------------------------- finding a path

  function Scan(nodes: Nodes, ch: seq<nat>, name: string): Option<nat>
  {
    if ch == [] then None
    else if ch[0] in nodes && nodes[ch[0]].name == name then Some(ch[0])
    else Scan(nodes, ch[1..], name)
  }

  /** find_child_by_name. */
  function Find(nodes: Nodes, dir: nat, name: string): Option<nat>
  {
    if dir in nodes && nodes[dir].isDir then Scan(nodes, nodes[dir].children, name) else None
  }

  /** walk_path, from any directory. */
  function Walk(nodes: Nodes, dir: nat, path: Path): Option<nat>
    decreases |path|
  {
    if path == [] then Some(dir)
    else
      match Find(nodes, dir, path[0])
      case None => None
      case Some(c) => Walk(nodes, c, path[1..])
  }

  function Kind(nodes: Nodes, i: Option<nat>): Entry
  {
    if i == None || i.value !in nodes then Missing
    else if nodes[i.value].isDir then Directory
    else File(nodes[i.value].data)
  }

  /** What `path` names. */
  function Look(nodes: Nodes, path: Path): Entry
  {
    Kind(nodes, Walk(nodes, ROOT, path))
  }

  lemma {:induction false} ScanFinds(nodes: Nodes, ch: seq<nat>, name: string)
    ensures match Scan(nodes, ch, name)
            case Some(c) => c in ch && c in nodes && nodes[c].name == name
            case None => forall c :: c in ch && c in nodes ==> nodes[c].name != name
  {
    if ch != [] {
      ScanFinds(nodes, ch[1..], name);
    }
  }

  /** In a tree a directory has at most one child of a name, and Find finds it. */
  lemma FindIff(nodes: Nodes, next: nat, dir: nat, name: string, c: nat)
    requires Tree(nodes, next)
    ensures Find(nodes, dir, name) == Some(c) <==> Parent(nodes, dir, c) && c in nodes && nodes[c].name == name
  {
    if dir in nodes {
      ScanFinds(nodes, nodes[dir].children, name);
      var r := Find(nodes, dir, name);
      assert r.Some? ==> Parent(nodes, dir, r.value);
    }
  }

  /** A walk stays inside the tree. */
  lemma {:induction false} WalkIn(nodes: Nodes, next: nat, dir: nat, path: Path)
    requires Tree(nodes, next) && dir in nodes
    ensures var r := Walk(nodes, dir, path); r.Some? ==> r.value in nodes && r.value >= dir
    decreases |path|
  {
    if path != [] {
      var r := Find(nodes, dir, path[0]);
      if r.Some? {
        FindIff(nodes, next, dir, path[0], r.value);
        WalkIn(nodes, next, r.value, path[1..]);
      }
    }
  }

  /** Walking a path and then one name more. */
  lemma {:induction false} WalkSnoc(nodes: Nodes, dir: nat, path: Path, name: string)
    ensures Walk(nodes, dir, path + [name]) ==
            match Walk(nodes, dir, path)
            case None => None
            case Some(d) => Find(nodes, d, name)
    decreases |path|
  {
    if path == [] {
      assert (path + [name])[1..] == [];
    } else {
      assert (path + [name])[1..] == path[1..] + [name];
      var r := Find(nodes, dir, path[0]);
      if r.Some? {
        WalkSnoc(nodes, r.value, path[1..], name);
      }
    }
  }

  lemma WalkLast(nodes: Nodes, dir: nat, path: Path)
    requires path != []
    ensures Walk(nodes, dir, path) ==
            match Walk(nodes, dir, path[..|path| - 1])
            case None => None
            case Some(d) => Find(nodes, d, path[|path| - 1])
  {
    assert path == path[..|path| - 1] + [path[|path| - 1]];
    WalkSnoc(nodes, dir, path[..|path| - 1], path[|path| - 1]);
  }

  // ---------------------------------------------------------------- every node has exactly one path

  /** All nodes are reachable from the root. */
  lemma {:induction false} Reachable(nodes: Nodes, next: nat, i: nat) returns (path: Path)
    requires Tree(nodes, next) && i in nodes
    ensures Walk(nodes, ROOT, path) == Some(i)
    decreases i
  {
    if i == ROOT {
      path := [];
    } else {
      assert HasParent(nodes, i);
      var p :| Parent(nodes, p, i);
      var before := Reachable(nodes, next, p);
      path := before + [nodes[i].name];
      FindIff(nodes, next, p, nodes[i].name, i);
      WalkSnoc(nodes, ROOT, before, nodes[i].name);
    }
  }

  /** ... along one path only. */
  lemma {:induction false} OnePath(nodes: Nodes, next: nat, p: Path, q: Path)
    requires Tree(nodes, next)
    requires Walk(nodes, ROOT, p).Some? && Walk(nodes, ROOT, p) == Walk(nodes, ROOT, q)
    ensures p == q
    decreases |p|
  {
    if p == [] || q == [] {
      RootPath(nodes, next, p);
      RootPath(nodes, next, q);
    } else {
      var p', q' := p[..|p| - 1], q[..|q| - 1];
      LastStep(nodes, next, p);
      LastStep(nodes, next, q);
      OnePath(nodes, next, p', q');
      assert p == p' + [p[|p| - 1]] && q == q' + [q[|q| - 1]];
    }
  }

  /** A path to a node ends with its name, after a path to its parent. */
  lemma LastStep(nodes: Nodes, next: nat, p: Path)
    requires Tree(nodes, next) && p != [] && Walk(nodes, ROOT, p).Some?
    ensures var c, d := Walk(nodes, ROOT, p).value, Walk(nodes, ROOT, p[..|p| - 1]);
            d.Some? && Parent(nodes, d.value, c) && c in nodes && nodes[c].name == p[|p| - 1]
  {
    WalkLast(nodes, ROOT, p);
    FindIff(nodes, next, Walk(nodes, ROOT, p[..|p| - 1]).value, p[|p| - 1], Walk(nodes, ROOT, p).value);
  }

  lemma RootPath(nodes: Nodes, next: nat, p: Path)
    requires Tree(nodes, next)
    ensures Walk(nodes, ROOT, p) == Some(ROOT) <==> p == []
  {
    if p != [] && Walk(nodes, ROOT, p) == Some(ROOT) {
      WalkLast(nodes, ROOT, p);
      FindIff(nodes, next, Walk(nodes, ROOT, p[..|p| - 1]).value, p[|p| - 1], ROOT);
    }
  }

  // ---------------------------------------------------------------- grafting

  /** A new node under `dir`: the table entry, and the number at the end of the directory's list. */
  function Graft(nodes: Nodes, dir: nat, i: nat, node: Node): Nodes
    requires dir in nodes
  {
    nodes[i := node][dir := nodes[dir].(children := nodes[dir].children + [i])]
  }

  ghost predicate Graftable(nodes: Nodes, next: nat, dir: nat, node: Node)
  {
    && Tree(nodes, next) && dir in nodes && nodes[dir].isDir
    && node.children == [] && Find(nodes, dir, node.name) == None
  }

  lemma GraftParent(nodes: Nodes, next: nat, dir: nat, node: Node, p: nat, c: nat)
    requires Graftable(nodes, next, dir, node)
    ensures Parent(Graft(nodes, dir, next, node), p, c) <==> Parent(nodes, p, c) || (p == dir && c == next)
    ensures Parent(nodes, p, c) ==> c != next && p != next
  {
  }

  lemma GraftNames(nodes: Nodes, next: nat, dir: nat, node: Node)
    requires Graftable(nodes, next, dir, node)
    ensures UniqueNames(Graft(nodes, dir, next, node))
  {
    var n' := Graft(nodes, dir, next, node);
    ScanFinds(nodes, nodes[dir].children, node.name);
    forall p, a, b | Parent(n', p, a) && Parent(n', p, b) && a in n' && b in n' && n'[a].name == n'[b].name
      ensures a == b
    {
      GraftParent(nodes, next, dir, node, p, a);
      GraftParent(nodes, next, dir, node, p, b);
    }
  }

  lemma GraftConnected(nodes: Nodes, next: nat, dir: nat, node: Node)
    requires Graftable(nodes, next, dir, node)
    ensures Connected(Graft(nodes, dir, next, node))
  {
    var n' := Graft(nodes, dir, next, node);
    forall c | c in n' && c != ROOT ensures HasParent(n', c) {
      if c == next {
        assert Parent(n', dir, next);
      } else {
        assert HasParent(nodes, c);
        var p :| Parent(nodes, p, c);
        assert Parent(n', p, c);
      }
    }
  }

  lemma GraftLinks(nodes: Nodes, next: nat, dir: nat, node: Node)
    requires Graftable(nodes, next, dir, node)
    ensures var n' := Graft(nodes, dir, next, node); Linked(n') && OneParent(n') && ListedOnce(n')
  {
    var n' := Graft(nodes, dir, next, node);
    forall p, c ensures Parent(n', p, c) <==> Parent(nodes, p, c) || (p == dir && c == next) {
      GraftParent(nodes, next, dir, node, p, c);
    }
    forall p ensures !Parent(nodes, p, next) {
      GraftParent(nodes, next, dir, node, p, next);
    }
    assert NoDup(n'[dir].children) by {
      assert !Parent(nodes, dir, next);
    }
  }

  lemma GraftTree(nodes: Nodes, next: nat, dir: nat, node: Node)
    requires Graftable(nodes, next, dir, node)
    ensures Tree(Graft(nodes, dir, next, node), next + 1)
  {
    GraftLinks(nodes, next, dir, node);
    GraftNames(nodes, next, dir, node);
    GraftConnected(nodes, next, dir, node);
  }

  /** Scanning the same children in a larger table. */
  lemma {:induction false} ScanSame(n: Nodes, n': Nodes, ch: seq<nat>, name: string)
    requires forall c :: c in ch ==> c in n && c in n' && n[c].name == n'[c].name
    ensures Scan(n, ch, name) == Scan(n', ch, name)
  {
    if ch != [] {
      ScanSame(n, n', ch[1..], name);
    }
  }

  lemma GraftFind(nodes: Nodes, next: nat, dir: nat, node: Node, d: nat, name: string)
    requires Graftable(nodes, next, dir, node)
    ensures Find(Graft(nodes, dir, next, node), d, name) ==
            if d == dir && name == node.name then Some(next) else if d == next then None else Find(nodes, d, name)
  {
    var n' := Graft(nodes, dir, next, node);
    GraftTree(nodes, next, dir, node);
    if d == dir && name == node.name {
      assert next in n'[dir].children;
      FindIff(n', next + 1, d, name, next);
    } else if d in nodes {
      var r, r' := Find(nodes, d, name), Find(n', d, name);
      if r.Some? {
        FindIff(nodes, next, d, name, r.value);
        FindIff(n', next + 1, d, name, r.value);
      } else if r'.Some? {
        FindIff(n', next + 1, d, name, r'.value);
        GraftParent(nodes, next, dir, node, d, r'.value);
        FindIff(nodes, next, d, name, r'.value);
      }
    }
  }

  ghost predicate Hits(nodes: Nodes, d: nat, path: Path, dir: nat, name: string)
  {
    path != [] && path[|path| - 1] == name && Walk(nodes, d, path[..|path| - 1]) == Some(dir)
  }

  /** After a graft the new node's path leads to it, and every other path leads where it did. */
  lemma {:induction false} GraftWalk(nodes: Nodes, next: nat, dir: nat, node: Node, path: Path)
    requires Graftable(nodes, next, dir, node)
    ensures Walk(Graft(nodes, dir, next, node), ROOT, path) ==
            if Hits(nodes, ROOT, path, dir, node.name) then Some(next) else Walk(nodes, ROOT, path)
    decreases |path|
  {
    var n' := Graft(nodes, dir, next, node);
    if path != [] {
      var p, name := path[..|path| - 1], path[|path| - 1];
      WalkLast(nodes, ROOT, path);
      WalkLast(n', ROOT, path);
      GraftWalk(nodes, next, dir, node, p);
      var r := Walk(nodes, ROOT, p);
      if Hits(nodes, ROOT, p, dir, node.name) {
        WalkLast(nodes, ROOT, p);
        GraftFind(nodes, next, dir, node, next, name);
      } else if r.Some? {
        WalkIn(nodes, next, ROOT, p);
        GraftFind(nodes, next, dir, node, r.value, name);
      }
    }
  }

  lemma HitsPath(nodes: Nodes, next: nat, dir: nat, name: string, at: Path, path: Path)
    requires Tree(nodes, next) && Walk(nodes, ROOT, at) == Some(dir)
    ensures Hits(nodes, ROOT, path, dir, name) <==> path == at + [name]
  {
    if Hits(nodes, ROOT, path, dir, name) {
      OnePath(nodes, next, at, path[..|path| - 1]);
      assert path == path[..|path| - 1] + [name];
    }
    assert (at + [name])[..|at|] == at;
  }

  /** What a graft means: exactly the path of the new node names something new. */
  lemma GraftLook(nodes: Nodes, next: nat, dir: nat, node: Node, at: Path, path: Path)
    requires Graftable(nodes, next, dir, node) && Walk(nodes, ROOT, at) == Some(dir)
    ensures Look(Graft(nodes, dir, next, node), path) ==
            if path == at + [node.name] then (if node.isDir then Directory else File(node.data)) else Look(nodes, path)
  {
    GraftWalk(nodes, next, dir, node, path);
    HitsPath(nodes, next, dir, node.name, at, path);
    WalkIn(nodes, next, ROOT, path);
  }

  // ---------------------------------------------------------------- replacing data

  function Refill(nodes: Nodes, i: nat, data: seq<Byte>): Nodes
    requires i in nodes
  {
    nodes[i := nodes[i].(data := data)]
  }

  lemma RefillTree(nodes: Nodes, next: nat, i: nat, data: seq<Byte>)
    requires Tree(nodes, next) && i in nodes
    ensures Tree(Refill(nodes, i, data), next)
  {
    var n' := Refill(nodes, i, data);
    forall p, c ensures Parent(n', p, c) <==> Parent(nodes, p, c) {
    }
    forall c | c in n' && c != ROOT ensures HasParent(n', c) {
      assert HasParent(nodes, c);
      var p :| Parent(nodes, p, c);
      assert Parent(n', p, c);
    }
  }

  lemma {:induction false} RefillWalk(nodes: Nodes, next: nat, i: nat, data: seq<Byte>, dir: nat, path: Path)
    requires Tree(nodes, next) && i in nodes
    ensures Walk(Refill(nodes, i, data), dir, path) == Walk(nodes, dir, path)
    decreases |path|
  {
    var n' := Refill(nodes, i, data);
    if path != [] {
      if dir in nodes {
        assert forall c :: c in nodes[dir].children ==> Parent(nodes, dir, c);
        ScanSame(nodes, n', nodes[dir].children, path[0]);
      }
      var r := Find(nodes, dir, path[0]);
      assert Find(n', dir, path[0]) == r;
      if r.Some? {
        RefillWalk(nodes, next, i, data, r.value, path[1..]);
      }
    }
  }

  /** What replacing data means: exactly the path of that node changes, and only if it is a file. */
  lemma RefillLook(nodes: Nodes, next: nat, i: nat, data: seq<Byte>, at: Path, path: Path)
    requires Tree(nodes, next) && i in nodes && Walk(nodes, ROOT, at) == Some(i)
    ensures Look(Refill(nodes, i, data), path) ==
            if path == at && !nodes[i].isDir then File(data) else Look(nodes, path)
  {
    RefillWalk(nodes, next, i, data, ROOT, path);
    if Walk(nodes, ROOT, path) == Some(i) {
      OnePath(nodes, next, at, path);
    }
  }

  // ---------------------------------------------------------------- pruning

  /** Vec::retain of everything but `c`. */
  function Without(ch: seq<nat>, c: nat): (r: seq<nat>)
    ensures forall x :: x in r <==> x in ch && x != c
  {
    if ch == [] then [] else (if ch[0] == c then [] else [ch[0]]) + Without(ch[1..], c)
  }

  function Prune(nodes: Nodes, dir: nat, i: nat): Nodes
    requires dir in nodes
  {
    nodes[dir := nodes[dir].(children := Without(nodes[dir].children, i))] - {i}
  }

  ghost predicate Prunable(nodes: Nodes, next: nat, dir: nat, i: nat)
  {
    Tree(nodes, next) && i in nodes && Parent(nodes, dir, i) && nodes[i].children == []
  }

  lemma {:induction false} WithoutNoDup(ch: seq<nat>, c: nat)
    requires NoDup(ch)
    ensures NoDup(Without(ch, c))
  {
    if ch != [] {
      var t := Without(ch[1..], c);
      WithoutNoDup(ch[1..], c);
      assert forall l :: 0 <= l < |t| ==> t[l] in ch[1..];
      assert ch[0] !in ch[1..];
    }
  }

  lemma PruneParent(nodes: Nodes, next: nat, dir: nat, i: nat, p: nat, c: nat)
    requires Prunable(nodes, next, dir, i)
    ensures Parent(Prune(nodes, dir, i), p, c) <==> Parent(nodes, p, c) && c != i
  {
    assert dir != i && !Parent(nodes, i, c);
    var n' := Prune(nodes, dir, i);
    if p == dir {
      assert c in n'[p].children <==> c in nodes[p].children && c != i;
    } else if p in n' {
      assert n'[p] == nodes[p];
      assert c == i ==> !Parent(nodes, p, c);
    }
  }

  lemma PruneTree(nodes: Nodes, next: nat, dir: nat, i: nat)
    requires Prunable(nodes, next, dir, i)
    ensures Tree(Prune(nodes, dir, i), next)
  {
    var n' := Prune(nodes, dir, i);
    forall p, c ensures Parent(n', p, c) <==> Parent(nodes, p, c) && c != i {
      PruneParent(nodes, next, dir, i, p, c);
    }
    forall c | c in n' && c != ROOT ensures HasParent(n', c) {
      assert HasParent(nodes, c);
      var p :| Parent(nodes, p, c);
      assert Parent(n', p, c);
    }
    WithoutNoDup(nodes[dir].children, i);
  }

  /** After a prune the node's path leads nowhere, and every other path leads where it did. */
  lemma {:induction false} PruneWalk(nodes: Nodes, next: nat, dir: nat, i: nat, path: Path)
    requires Prunable(nodes, next, dir, i)
    ensures Walk(Prune(nodes, dir, i), ROOT, path) ==
            if Walk(nodes, ROOT, path) == Some(i) then None else Walk(nodes, ROOT, path)
    decreases |path|
  {
    var n' := Prune(nodes, dir, i);
    if path != [] {
      var p, name := path[..|path| - 1], path[|path| - 1];
      WalkLast(nodes, ROOT, path);
      WalkLast(n', ROOT, path);
      PruneWalk(nodes, next, dir, i, p);
      var r := Walk(nodes, ROOT, p);
      if r.Some? {
        WalkIn(nodes, next, ROOT, p);
        PruneFind(nodes, next, dir, i, r.value, name);
      }
    }
  }

  lemma PruneFind(nodes: Nodes, next: nat, dir: nat, i: nat, d: nat, name: string)
    requires Prunable(nodes, next, dir, i) && d in nodes
    ensures d != i ==> Find(Prune(nodes, dir, i), d, name) ==
                       if Find(nodes, d, name) == Some(i) then None else Find(nodes, d, name)
    ensures d == i ==> Find(nodes, d, name) == None
  {
    var n' := Prune(nodes, dir, i);
    if d != i {
      PruneTree(nodes, next, dir, i);
      var r, r' := Find(nodes, d, name), Find(n', d, name);
      if r.Some? {
        FindIff(nodes, next, d, name, r.value);
        FindIff(n', next, d, name, r.value);
      }
      if r'.Some? {
        FindIff(n', next, d, name, r'.value);
        FindIff(nodes, next, d, name, r'.value);
      }
    }
  }

  /** What a prune means: exactly the path of that node names nothing any more. */
  lemma PruneLook(nodes: Nodes, next: nat, dir: nat, i: nat, at: Path, path: Path)
    requires Prunable(nodes, next, dir, i) && Walk(nodes, ROOT, at) == Some(i)
    ensures Look(Prune(nodes, dir, i), path) == if path == at then Missing else Look(nodes, path)
  {
    PruneWalk(nodes, next, dir, i, path);
    if Walk(nodes, ROOT, path) == Some(i) {
      OnePath(nodes, next, at, path);
    } else {
      WalkIn(nodes, next, ROOT, path);
    }
  }
}
