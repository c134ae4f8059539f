/**
 * Creating files below a directory: what is added, and exactly when it succeeds.
 */
module VfsCreation {
  import opened Common
  import opened Paths
  import opened Inodes
  import opened Vfs
  import opened VfsSteps

  // ---------------------------------------------------------------------------
  // What is added.
  // ---------------------------------------------------------------------------

  /**
   * Every inode of `u` that is not in `t` is a directory, but for `i`; and a name of `u` that is not a name of `t`
   * leads to an inode that is not in `t`.
   */
  ghost predicate AddsOnly(t: Table, u: Table, i: Inode) {
    && (forall j :: j in t.nodes ==> j in u.nodes && (DirAt(t.nodes, j) ==> DirAt(u.nodes, j)))
    && (forall j :: j in u.nodes && j !in t.nodes && j != i ==> DirAt(u.nodes, j))
    && (forall j, c :: Named(u.nodes, j, c) && Target(u.nodes, j, c) in t.nodes ==>
        Named(t.nodes, j, c) && Target(t.nodes, j, c) == Target(u.nodes, j, c))
  }

  lemma AddsTrans(t: Table, u: Table, v: Table, i: Inode)
    requires AddsOnly(t, u, i) && AddsOnly(u, v, i)
    ensures AddsOnly(t, v, i)
  {
  }

  lemma AddsOnlyAt(t: Table, u: Table, v: Table, i: Inode, k: Inode)
    requires AddsOnly(t, u, i) && OnlyAt(u, v, k)
    ensures AddsOnly(t, v, i)
  {
    hide KeepsNames;
    forall j, c | Named(v.nodes, j, c) ensures Named(u.nodes, j, c) && Target(u.nodes, j, c) == Target(v.nodes, j, c) {
      assert DirAt(u.nodes, j);
    }
  }

  lemma AddDirAdds(t: Table, parent: Inode, c: Component, j: Inode, i: Inode)
    requires j !in t.nodes
    ensures AddsOnly(t, AddDir(t, parent, c, j).t, i)
  {
    hide AddsOnly;
    var l := Link(t, parent, c, j).t;
    if parent == j {
      InsertAdds(t, t, parent, j, i);
    } else if DirAt(t.nodes, parent) {
      InsertAdds(t, l, parent, j, i);
    } else {
      AddsNothing(t, i);
    }
  }

  /** A new directory, linked or not. */
  lemma InsertAdds(t: Table, l: Table, parent: Inode, j: Inode, i: Inode)
    requires j !in t.nodes && l.nodes.Keys == t.nodes.Keys && (forall k :: DirAt(t.nodes, k) <==> DirAt(l.nodes, k))
    requires forall k, c :: Named(l.nodes, k, c) && Target(l.nodes, k, c) != j ==>
               Named(t.nodes, k, c) && Target(t.nodes, k, c) == Target(l.nodes, k, c)
    ensures AddsOnly(t, l.(nodes := l.nodes[j := NewDirectory(j, parent)]), i)
  {
    var u := l.(nodes := l.nodes[j := NewDirectory(j, parent)]);
    assert forall k, c :: Named(u.nodes, k, c) ==>
        Named(l.nodes, k, c) && Target(u.nodes, k, c) == Target(l.nodes, k, c);
  }

  /** `add_all_dir` adds directories only, also when it fails midway. */
  lemma {:induction false} AddAllDirAdds(t: Table, parent: Inode, path: Path, i: Inode)
    ensures AddsOnly(t, AddAllDir(t, parent, path).t, i)
    decreases |path|
  {
    hide Walk, AddDir;
    AddsNothing(t, i);
    hide AddsOnly;
    if path != [] && path[0].Normal? {
      match Walk(t.nodes, parent, [path[0]])
      case Ok(j) => AddAllDirAdds(t, j, path[1..], i);
      case Panic =>
      case Err(e) =>
        var alloc := NewInode(t);
        if alloc.r.Ok? {
          var u := AddDir(alloc.t, parent, path[0], alloc.r.value).t;
          AddDirAdds(alloc.t, parent, path[0], alloc.r.value, i);
          AddsSameNodes(t, alloc.t, u, i);
          AddAllDirAdds(u, alloc.r.value, path[1..], i);
          AddsTrans(t, u, AddAllDir(u, alloc.r.value, path[1..]).t, i);
        }
    }
  }

  lemma AddsNothing(t: Table, i: Inode)
    ensures AddsOnly(t, t, i)
  {
  }

  lemma AddsSameNodes(t: Table, a: Table, u: Table, i: Inode)
    requires a.nodes == t.nodes && AddsOnly(a, u, i)
    ensures AddsOnly(t, u, i)
  {
  }

  lemma FileParentAdds(t: Table, parent: Inode, path: Path, i: Inode)
    ensures AddsOnly(t, FileParent(t, parent, path).t, i)
  {
    hide AddAllDir, AddsOnly, Walk;
    AddsNothing(t, i);
    if HasParent(path) {
      AddAllDirAdds(t, parent, Parent(path), i);
    }
  }

  /** `add_file` adds directories and the one file. */
  lemma AddFileAdds(t: Table, parent: Inode, path: Path, i: Inode)
    requires TableInv(t) && DirAt(t.nodes, parent) && !Walk(t.nodes, parent, path).Ok?
    requires i !in t.nodes && ROOT <= i < t.next
    ensures AddsOnly(t, AddFile(t, parent, path, i, []).t, i)
  {
    hide TableInv, FileParent, Walk, Extends;
    FileParentOk(t, parent, path);
    FileParentAdds(t, parent, path, i);
    var d := FileParent(t, parent, path);
    if d.r.Ok? {
      LinkAdds(d.t, d.r.value, path[|path| - 1], i);
      hide AddsOnly;
      AddsTrans(t, d.t, AddFile(t, parent, path, i, []).t, i);
    }
  }

  lemma LinkAdds(t: Table, parent: Inode, c: Component, i: Inode)
    requires i !in t.nodes
    ensures AddsOnly(t, Link(InsertFile(t, i, []), parent, c, i).t, i)
  {
  }

  /** An open that succeeds adds at most directories and the file it opens. */
  lemma OpenAdds(s: State, op: Op)
    requires Inv(s) && op.Open?
    requires PathOpen(s.t, s.h, op.fd, op.path, op.oflags, op.base, op.inheriting).r.Ok?
    ensures var p := PathOpen(s.t, s.h, op.fd, op.path, op.oflags, op.base, op.inheriting);
            AddsOnly(s.t, p.t, p.h.fds[p.r.value].inode)
  {
    hide TableInv, AddsOnly, Walk, AddFile, OnlyAt, Extends, OpenTrunc, OpenInode;
    var e := OpenInode(s.t, s.h, op.fd, op.path, op.oflags);
    OpenInodeOk(s, op.fd, op.path, op.oflags);
    OpenInodeAdds(s, op.fd, op.path, op.oflags);
    TruncOk(e.t, s.h, op.fd, e.r.value, op.oflags);
    var u := OpenTrunc(e.t, s.h, op.fd, e.r.value, op.oflags).t;
    if u != e.t {
      AddsOnlyAt(s.t, e.t, u, e.r.value, e.r.value);
    }
  }

  lemma OpenInodeAdds(s: State, fd: Fd, path: Path, oflags: set<OpenFlag>)
    requires Inv(s) && fd in s.h.fds && DirAt(s.t.nodes, s.h.fds[fd].inode)
    requires OpenInode(s.t, s.h, fd, path, oflags).r.Ok?
    ensures var e := OpenInode(s.t, s.h, fd, path, oflags); AddsOnly(s.t, e.t, e.r.value)
  {
    hide TableInv, AddsOnly, Walk, AddFile, Extends;
    var parent := s.h.fds[fd].inode;
    var w := Walk(s.t.nodes, parent, path);
    if w.Ok? {
      AddsNothing(s.t, w.value);
    } else {
      NewInodeOk(s.t);
      RootBelow(s.t);
      var a := NewInode(s.t).t;
      var u := AddFile(a, parent, path, s.t.next, []).t;
      AddFileAdds(a, parent, path, s.t.next);
      AddsSameNodes(s.t, a, u, s.t.next);
    }
  }

  /** Along plain names: what a path leads to afterwards is new, or it led there before. */
  lemma {:induction false} WalkAdds(t: Table, u: Table, i: Inode, from: Inode, path: Path)
    requires AddsOnly(t, u, i) && AllNormal(path) && Walk(u.nodes, from, path).Ok?
    ensures Walk(u.nodes, from, path).value in t.nodes ==> Walk(t.nodes, from, path) == Walk(u.nodes, from, path)
    decreases |path|
  {
    if path != [] {
      var j := Lookup(u.nodes, from, path[0]).value;
      assert Named(u.nodes, from, path[0]) && Target(u.nodes, from, path[0]) == j;
      WalkAdds(t, u, i, j, path[1..]);
    }
  }

  // ---------------------------------------------------------------------------
  // When it succeeds.
  // ---------------------------------------------------------------------------

  /** How many components are left after the longest beginning of the path that resolves. */
  function Missing(m: Nodes, i: Inode, path: Path): (n: nat)
    ensures n <= |path|
    decreases |path|
  {
    if path == [] then 0 else
    match Lookup(m, i, path[0])
    case Ok(j) => Missing(m, j, path[1..])
    case _ => |path|
  }

  /** The inode that beginning leads to. */
  function Deepest(m: Nodes, i: Inode, path: Path): Inode
    decreases |path|
  {
    if path == [] then i else
    match Lookup(m, i, path[0])
    case Ok(j) => Deepest(m, j, path[1..])
    case _ => i
  }

  /** It is the longest: the beginning resolves, and one more component does not. */
  lemma {:induction false} MissingIsLongest(m: Nodes, i: Inode, path: Path)
    requires NoDangling(m) && i in m
    ensures var k := |path| - Missing(m, i, path);
            && Walk(m, i, path[..k]) == Ok(Deepest(m, i, path))
            && (k < |path| ==> !Walk(m, i, path[..k + 1]).Ok?)
    ensures Missing(m, i, path) == 0 <==> Walk(m, i, path).Ok?
    decreases |path|
  {
    if path != [] {
      match Lookup(m, i, path[0])
      case Ok(j) =>
        MissingIsLongest(m, j, path[1..]);
        var k := |path| - Missing(m, i, path);
        assert path[..k][1..] == path[1..][..k - 1];
        if k < |path| {
          assert path[..k + 1][1..] == path[1..][..k];
        }
      case _ =>
    }
  }

  /** Below a directory without names everything is missing. */
  lemma MissingInEmpty(m: Nodes, i: Inode, path: Path)
    requires EmptyDirectory(m, i) && (path == [] || path[0].Normal?)
    ensures Missing(m, i, path) == |path| && Deepest(m, i, path) == i
  {
  }

  /** Nothing is missing, or the rest fits under a directory. */
  ghost predicate DirsFit(t: Table, parent: Inode, path: Path) {
    var n := Missing(t.nodes, parent, path);
    AllNormal(path) && (n == 0 || (DirAt(t.nodes, Deepest(t.nodes, parent, path)) && t.next + n < U64))
  }

  lemma {:induction false} AddAllDirSucceeds(t: Table, parent: Inode, path: Path)
    requires TableInv(t) && parent in t.nodes
    ensures AddAllDir(t, parent, path).r.Ok? <==> DirsFit(t, parent, path)
    decreases |path|
  {
    hide TableInv, NodeOk, Grows, KeepsBytes, KeepsNames;
    NormalTail(path);
    if path != [] && path[0].Normal? {
      LookupIn(t, parent, path[0]);
      var found := Lookup(t.nodes, parent, path[0]);
      assert Walk(t.nodes, parent, [path[0]]) == found;
      if found.Ok? {
        AddAllDirSucceeds(t, found.value, path[1..]);
      } else if found.error == NoEnt {
        NewInodeOk(t);
        var alloc := NewInode(t);
        if alloc.r.Ok? {
          var i := alloc.r.value;
          AddDirInv(alloc.t, parent, path[0], i);
          AddDirNames(alloc.t, parent, path[0], i);
          var u := AddDir(alloc.t, parent, path[0], i).t;
          hide AddDir;
          AddAllDirSucceeds(u, i, path[1..]);
          if |path| == 1 || path[1].Normal? {
            MissingInEmpty(u.nodes, i, path[1..]);
          }
        } else {
          CandidateUnused(t);
        }
      }
    }
  }

  lemma NormalTail(path: Path)
    ensures path != [] ==> (AllNormal(path) <==> path[0].Normal? && AllNormal(path[1..]))
  {
    if path != [] {
      assert path == [path[0]] + path[1..];
    }
  }

  /** A new file goes below the deepest directory there is. */
  ghost predicate FileFits(t: Table, parent: Inode, path: Path) {
    AllNormal(path) && DirAt(t.nodes, Deepest(t.nodes, parent, path)) && t.next + Missing(t.nodes, parent, path) < U64
  }

  /** The last component of a path that does not resolve is missing with its directory or alone. */
  lemma {:induction false} MissingLast(m: Nodes, i: Inode, p: Path, c: Component)
    requires NoDangling(m) && i in m && !Walk(m, i, p + [c]).Ok?
    ensures Missing(m, i, p + [c]) == Missing(m, i, p) + 1 && Deepest(m, i, p + [c]) == Deepest(m, i, p)
    decreases |p|
  {
    if p == [] {
      assert [] + [c] == [c] && [c][1..] == [];
    } else {
      assert (p + [c])[1..] == p[1..] + [c];
      match Lookup(m, i, p[0])
      case Ok(j) => MissingLast(m, j, p[1..], c);
      case _ =>
    }
  }

  /** What `add_all_dir` returns is a directory just when the deepest inode that was there is one. */
  lemma AddedDirectory(t: Table, parent: Inode, path: Path)
    requires TableInv(t) && parent in t.nodes && AddAllDir(t, parent, path).r.Ok?
    ensures var a := AddAllDir(t, parent, path);
            DirAt(a.t.nodes, a.r.value) <==> DirAt(t.nodes, Deepest(t.nodes, parent, path))
  {
    hide TableInv, AddAllDir, Walk, Extends, NoDangling;
    TableNoDangling(t);
    MissingIsLongest(t.nodes, parent, path);
    if Walk(t.nodes, parent, path).Ok? {
      assert path[..|path|] == path;
      AddAllDirFound(t, parent, path);
    } else {
      AddAllDirSucceeds(t, parent, path);
      AddAllDirOk(t, parent, path);
      AddAllDirEnd(t, parent, path);
    }
  }

  /** The file is linked where its directory was found or made. */
  lemma FileLinked(t: Table, parent: Inode, path: Path, i: Inode)
    requires TableInv(t) && parent in t.nodes && |path| > 1
    requires i !in t.nodes && i < t.next
    ensures var p, c := path[..|path| - 1], path[|path| - 1];
            AddFile(t, parent, path, i, []).r.Ok? <==>
              c.Normal? && DirsFit(t, parent, p) && DirAt(t.nodes, Deepest(t.nodes, parent, p))
  {
    hide TableInv, Extends, Walk, AddAllDir, Deepest, DirsFit;
    var p := path[..|path| - 1];
    var a := AddAllDir(t, parent, p);
    AddAllDirSucceeds(t, parent, p);
    AddAllDirOk(t, parent, p);
    if a.r.Ok? {
      AddedDirectory(t, parent, p);
      WalkInNodes(a.t.nodes, parent, p);
    }
  }

  /** Exactly when a file that does not resolve can be added. */
  lemma AddFileSucceeds(t: Table, parent: Inode, path: Path, i: Inode)
    requires TableInv(t) && DirAt(t.nodes, parent) && !Walk(t.nodes, parent, path).Ok?
    requires i !in t.nodes && i < t.next
    ensures AddFile(t, parent, path, i, []).r.Ok? <==> FileFits(t.(next := t.next - 1), parent, path)
  {
    CandidateUnused(t);
    hide TableInv, Walk, AddAllDir, NoDangling, Missing, Deepest, Named;
    TableNoDangling(t);
    WalkNothing(t, parent);
    var n := |path| - 1;
    var p, c := path[..n], path[n];
    assert path == p + [c];
    MissingLast(t.nodes, parent, p, c);
    NormalLast(p, c);
    if n == 0 {
      assert p == [];
      OneLookup(t, parent, c);
      NothingMissing(t, parent);
    } else {
      FileLinked(t, parent, path, i);
      hide AddFile;
    }
  }

  lemma NothingMissing(t: Table, i: Inode)
    ensures Missing(t.nodes, i, []) == 0 && Deepest(t.nodes, i, []) == i
  {
  }

  lemma WalkNothing(t: Table, i: Inode)
    requires i in t.nodes
    ensures Walk(t.nodes, i, []).Ok?
  {
  }

  lemma NormalLast(p: Path, c: Component)
    ensures AllNormal(p + [c]) <==> AllNormal(p) && c.Normal?
  {
    assert forall k :: 0 <= k < |p| ==> (p + [c])[k] == p[k];
    assert (p + [c])[|p|] == c;
  }
}
