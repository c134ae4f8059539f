/**
 * Files from `fd_create` are private: no path leads to them, so they stay with the handle that made them.
 */
module VfsPrivate {
  import opened Common
  import opened Paths
  import opened Policy
  import opened Inodes
  import opened Vfs
  import opened VfsSteps
  import opened VfsWorld

  // ---------------------------------------------------------------------------
  // No operation names an inode that is there.
  // ---------------------------------------------------------------------------

  lemma LinkUnnamed(t: Table, parent: Inode, c: Component, x: Inode, i: Inode)
    requires Unnamed(t.nodes, i) && x != i
    ensures Unnamed(Link(t, parent, c, x).t.nodes, i)
  {
    var u := Link(t, parent, c, x).t;
    forall j, a | Named(u.nodes, j, a) ensures Target(u.nodes, j, a) != i {
      if j != parent || a != c {
        assert Named(t.nodes, j, a) && Target(t.nodes, j, a) == Target(u.nodes, j, a);
      }
    }
  }

  lemma AddDirUnnamed(t: Table, parent: Inode, c: Component, x: Inode, i: Inode)
    requires Unnamed(t.nodes, i) && i in t.nodes && x !in t.nodes
    ensures var u := AddDir(t, parent, c, x).t; Unnamed(u.nodes, i) && i in u.nodes
  {
    LinkUnnamed(t, parent, c, x, i);
    var l := if parent != x then Link(t, parent, c, x).t else t;
    var u := AddDir(t, parent, c, x).t;
    forall j, a | Named(u.nodes, j, a) ensures Target(u.nodes, j, a) != i {
      assert j != x ==> Named(l.nodes, j, a) && Target(l.nodes, j, a) == Target(u.nodes, j, a);
    }
  }

  lemma {:induction false} AddAllDirUnnamed(t: Table, parent: Inode, path: Path, i: Inode)
    requires Unnamed(t.nodes, i) && i in t.nodes
    ensures var u := AddAllDir(t, parent, path).t; Unnamed(u.nodes, i) && i in u.nodes
    decreases |path|
  {
    hide AddDir, Unnamed, Walk;
    if path != [] && path[0].Normal? {
      var w := Walk(t.nodes, parent, [path[0]]);
      if w.Ok? {
        AddAllDirUnnamed(t, w.value, path[1..], i);
      } else if w == Err(NoEnt) && NewInode(t).r.Ok? {
        var alloc := NewInode(t);
        AddDirUnnamed(alloc.t, parent, path[0], alloc.r.value, i);
        var added := AddDir(alloc.t, parent, path[0], alloc.r.value);
        if added.r.Ok? {
          AddAllDirUnnamed(added.t, alloc.r.value, path[1..], i);
        }
      }
    }
  }

  lemma AddFileUnnamed(t: Table, parent: Inode, path: Path, x: Inode, i: Inode)
    requires Unnamed(t.nodes, i) && i in t.nodes && x != i
    ensures Unnamed(AddFile(t, parent, path, x, []).t.nodes, i)
  {
    if HasParent(path) {
      AddAllDirUnnamed(t, parent, Parent(path), i);
    }
    hide AddAllDir, Walk;
    var dir := FileParent(t, parent, path);
    if dir.r.Ok? {
      var u := dir.t.(nodes := dir.t.nodes[x := NewFile(x, [])]);
      forall j, a | Named(u.nodes, j, a) ensures Target(u.nodes, j, a) != i {
        assert Named(dir.t.nodes, j, a) && Target(dir.t.nodes, j, a) == Target(u.nodes, j, a);
      }
      LinkUnnamed(u, dir.r.value, path[|path| - 1], x, i);
    }
  }

  lemma {:induction false} CreateDirsUnnamed(t: Table, last: Inode, path: Path, i: Inode)
    requires Unnamed(t.nodes, i) && i in t.nodes
    ensures var u := CreateDirs(t, last, path).t; Unnamed(u.nodes, i) && i in u.nodes
    decreases |path|
  {
    hide AddDir, Unnamed;
    if path != [] && path[0].Normal? && NewInode(t).r.Ok? {
      var alloc := NewInode(t);
      AddDirUnnamed(alloc.t, last, path[0], alloc.r.value, i);
      var added := AddDir(alloc.t, last, path[0], alloc.r.value);
      if added.r.Ok? {
        CreateDirsUnnamed(added.t, alloc.r.value, path[1..], i);
      }
    }
  }

  lemma BytesUnnamed(t: Table, u: Table, x: Inode, i: Inode)
    requires OnlyAt(t, u, x) && Unnamed(t.nodes, i)
    ensures Unnamed(u.nodes, i)
  {
    forall j, a | Named(u.nodes, j, a) ensures Target(u.nodes, j, a) != i {
      assert Named(t.nodes, j, a);
    }
  }

  lemma OpenUnnamed(s: State, op: Op, i: Inode)
    requires Inv(s) && op.Open? && Unnamed(s.t.nodes, i) && i in s.t.nodes
    ensures Unnamed(Step(s, op).t.nodes, i)
  {
    hide Unnamed, TableInv, AddFile, Walk, OnlyAt;
    if CheckRight(s.h, op.fd, PATH_OPEN).Ok? && DirAt(s.t.nodes, s.h.fds[op.fd].inode) {
      var parent := s.h.fds[op.fd].inode;
      var alloc := NewInode(s.t);
      if alloc.r.Ok? {
        AddFileUnnamed(alloc.t, parent, op.path, alloc.r.value, i);
      }
      OpenInodeOk(s, op.fd, op.path, op.oflags);
      var e := OpenInode(s.t, s.h, op.fd, op.path, op.oflags);
      assert Unnamed(e.t.nodes, i);
      if e.r.Ok? {
        TruncOk(e.t, s.h, op.fd, e.r.value, op.oflags);
        var u := OpenTrunc(e.t, s.h, op.fd, e.r.value, op.oflags).t;
        if u != e.t {
          BytesUnnamed(e.t, u, e.r.value, i);
        }
      }
    }
  }

  /** No step of any handle gives a name to an inode that is there and has none. */
  lemma StepUnnamed(s: State, op: Op, i: Inode)
    requires Inv(s) && Unnamed(s.t.nodes, i) && i in s.t.nodes
    ensures Unnamed(Step(s, op).t.nodes, i)
  {
    hide Unnamed, TableInv, OnlyAt;
    if IsByteOp(op) {
      ByteStep(s, op);
      if Step(s, op).t != s.t {
        BytesUnnamed(s.t, Step(s, op).t, s.h.fds[op.fd].inode, i);
      }
    } else {
      match op
      case Close(fd) =>
        CloseStep(s, fd);
        if Step(s, op).t != s.t {
          BytesUnnamed(s.t, Step(s, op).t, s.h.fds[fd].inode, i);
        }
      case Create =>
        CreateStep(s);
        InsertedUnnamed(s.t, Step(s, op).t, s.t.next, i);
      case CreateDirectory(fd, path) =>
        if CheckRight(s.h, fd, PATH_CREATE_DIRECTORY).Ok? {
          CreateDirsUnnamed(s.t, s.h.fds[fd].inode, path, i);
        }
      case Open(_, _, _, _, _) => OpenUnnamed(s, op, i);
      case _ =>
    }
  }

  lemma InsertedUnnamed(t: Table, u: Table, x: Inode, i: Inode)
    requires Unnamed(t.nodes, i)
    requires u.nodes == t.nodes || (x !in t.nodes && u.nodes == t.nodes[x := NewFile(x, [])])
    ensures Unnamed(u.nodes, i)
  {
    forall j, a | Named(u.nodes, j, a) ensures Target(u.nodes, j, a) != i {
      assert Named(t.nodes, j, a) && Target(t.nodes, j, a) == Target(u.nodes, j, a);
    }
  }

  // ---------------------------------------------------------------------------
  // What has no name is not found.
  // ---------------------------------------------------------------------------

  /** No path from a directory leads to a file without a name. */
  lemma {:induction false} Unreachable(t: Table, from: Inode, path: Path, i: Inode)
    requires TableInv(t) && DirAt(t.nodes, from)
    requires i in t.nodes && !DirAt(t.nodes, i) && Unnamed(t.nodes, i)
    ensures Walk(t.nodes, from, path) != Ok(i)
    decreases |path|
  {
    NodeAt(t, from);
    hide TableInv;
    if path != [] && Lookup(t.nodes, from, path[0]).Ok? {
      var c, j := path[0], Lookup(t.nodes, from, path[0]).value;
      if DirAt(t.nodes, j) {
        Unreachable(t, j, path[1..], i);
      } else {
        assert Named(t.nodes, from, c) && Target(t.nodes, from, c) == j;
      }
    }
  }

  /** The inode is a file without a name and not a standard stream. */
  ghost predicate Anonymous(t: Table, i: Inode) {
    FileAt(t.nodes, i) && Unnamed(t.nodes, i) && i !in {t.stdin, t.stdout, t.stderr}
  }

  ghost predicate Holds(h: Handle, i: Inode) {
    exists fd :: fd in h.fds && h.fds[fd].inode == i
  }

  /** A step gives its handle no descriptor on an anonymous file unless it has one. */
  lemma StepHolds(s: State, op: Op, i: Inode)
    requires Inv(s) && Anonymous(s.t, i)
    ensures Anonymous(Step(s, op).t, i)
    ensures Holds(Step(s, op).h, i) ==> Holds(s.h, i)
  {
    StepInv(s, op);
    StepUnnamed(s, op, i);
    hide TableInv, Unnamed, KeepsBytes, KeepsNames, OnlyAt;
    var u := Step(s, op);
    if fd :| fd in u.h.fds && u.h.fds[fd].inode == i {
      if op.Open? {
        hide Step;
        OpenHolds(s, op, i, fd);
      } else if op.Create? {
        CreateStep(s);
      } else if IsByteOp(op) {
        ByteStep(s, op);
        hide Step;
        assert fd in s.h.fds && s.h.fds[fd].inode == i;
      } else {
        MovedHolds(s, op, i, fd);
      }
    }
  }

  lemma MovedHolds(s: State, op: Op, i: Inode, fd: Fd)
    requires !op.Open? && !op.Create? && !IsByteOp(op)
    requires fd in Step(s, op).h.fds && Step(s, op).h.fds[fd].inode == i
    ensures Holds(s.h, i)
  {
    hide CreateDirs, TruncateFile, Walk;
    if op.Renumber? && fd == op.newFd && op.fd in s.h.fds {
      assert s.h.fds[op.fd].inode == i || (fd in s.h.fds && s.h.fds[fd].inode == i);
    } else {
      assert fd in s.h.fds && s.h.fds[fd].inode == i;
    }
  }

  lemma OpenHolds(s: State, op: Op, i: Inode, fd: Fd)
    requires Inv(s) && op.Open? && Anonymous(s.t, i) && Anonymous(Step(s, op).t, i) && TableInv(Step(s, op).t)
    requires fd in Step(s, op).h.fds && Step(s, op).h.fds[fd].inode == i && Grows(s.t, Step(s, op).t)
    ensures fd in s.h.fds && s.h.fds[fd].inode == i
  {
    var mid := OpenStep(s, op);
    hide TableInv, Unnamed, Extends, OnlyAt, Walk, Step;
    var u := Step(s, op);
    if fd !in s.h.fds || s.h.fds[fd] != u.h.fds[fd] {
      Unreachable(u.t, s.h.fds[op.fd].inode, op.path, i);
    }
  }

  // ---------------------------------------------------------------------------
  // Whole runs.
  // ---------------------------------------------------------------------------

  /** Handle `k` alone can have descriptors on the anonymous file `i`. */
  ghost predicate Private(w: World, k: nat, i: Inode) {
    k < |w.hs| && Anonymous(w.t, i) && forall m :: 0 <= m < |w.hs| && m != k ==> !Holds(w.hs[m], i)
  }

  /** A file from `fd_create` starts private. */
  lemma CreatedPrivate(w: World, k: nat)
    requires WorldInv(w) && k < |w.hs| && NewInode(w.t).r.Ok?
    ensures Private(Next(w, Act(k, Create)), k, w.t.next)
  {
    var s, i := State(w.t, w.hs[k]), w.t.next;
    CreateStep(s);
    hide TableInv, Unnamed, Extends, FdCreate;
    forall m | 0 <= m < |w.hs| ensures !Holds(w.hs[m], i) {
      assert HandleInv(w.t, w.hs[m]);
    }
  }

  lemma InstallsElsewhere(t: Table, h: Handle, path: Path, rights: Rights, fd: Fd, i: Inode)
    requires !Holds(h, i) && PreopenInode(t, path).r != Ok(i)
    ensures !Holds(PreopenOne(t, h, path, rights, fd).h, i)
    ensures PreopenOne(t, h, path, rights, fd).t == PreopenInode(t, path).t
  {
    hide PreopenInode;
    var g := PreopenOne(t, h, path, rights, fd).h;
    forall x | x in g.fds ensures g.fds[x].inode != i {
      assert x != fd ==> x in h.fds && g.fds[x] == h.fds[x];
    }
  }

  /** A spawned handle has no descriptor on an anonymous file: pre-opened paths and the streams do not lead there. */
  lemma {:induction false} PreopenPrivate(t: Table, row: RightsMap, order: seq<Path>, n: nat, i: Inode)
    requires TableInv(t) && Anonymous(t, i)
    requires n <= |order| && forall k :: 0 <= k < |order| ==> order[k] in row
    ensures var o := Preopen(t, row, order, n); Anonymous(o.t, i) && !Holds(o.h, i) && o.t.nodes[i] == t.nodes[i]
  {
    hide TableInv, Unnamed, Agrees, HandleInv, FromRow, Extends, AddAllDir, Walk, PreopenInode;
    PreopenOk(t, row, order, n);
    if n > 0 {
      PreopenPrivate(t, row, order, n - 1, i);
      PreopenOk(t, row, order, n - 1);
      var prev := Preopen(t, row, order, n - 1);
      if prev.r.Ok? {
        PreopenedElsewhere(prev.t, order[n - 1], i);
        InstallsElsewhere(prev.t, prev.h, order[n - 1], row[order[n - 1]], FIRST_FD + n - 1, i);
        hide PreopenOne, Holds;
      }
    }
  }

  lemma PreopenedElsewhere(t: Table, path: Path, i: Inode)
    requires TableInv(t) && Anonymous(t, i)
    ensures var e := PreopenInode(t, path);
            Anonymous(e.t, i) && e.r != Ok(i) && e.t.nodes[i] == t.nodes[i]
  {
    PreopenInodeOk(t, path);
    AddAllDirUnnamed(t, ROOT, StripRoot(path), i);
    var e := PreopenInode(t, path);
    hide TableInv, Unnamed, AddAllDir, Walk, KeepsNames;
    Unreachable(e.t, ROOT, StripRoot(path), i);
  }

  /** A spawn leaves an anonymous file alone, and so does a step of a handle that has no descriptor on it. */
  lemma NextPrivate(w: World, e: Event, k: nat, i: Inode)
    requires WorldInv(w) && Private(w, k, i)
    ensures Private(Next(w, e), k, i)
    ensures !(e.Act? && e.k == k) ==> Next(w, e).t.nodes[i] == w.t.nodes[i]
  {
    hide TableInv, Unnamed, Holds, Step, Preopen;
    if Possible(w.t, e) {
      match e
      case Act(m, op) =>
        if m < |w.hs| {
          StepHolds(State(w.t, w.hs[m]), op, i);
          if m != k {
            NotHeldKept(State(w.t, w.hs[m]), op, i);
          }
        }
      case SpawnFor(p, order) =>
        if p in w.t.rights {
          PreopenPrivate(w.t, w.t.rights[p], order, |order|, i);
          HoldsSame(Preopen(w.t, w.t.rights[p], order, |order|).h, Spawn(w.t, p, order).h, i);
        }
    }
  }

  lemma HoldsSame(h: Handle, g: Handle, i: Inode)
    requires g.fds == h.fds
    ensures Holds(g, i) <==> Holds(h, i)
  {
  }

  lemma NotHeldKept(s: State, op: Op, i: Inode)
    requires Inv(s) && Anonymous(s.t, i) && !Holds(s.h, i)
    ensures i in Step(s, op).t.nodes && Step(s, op).t.nodes[i] == s.t.nodes[i]
  {
    StepInv(s, op);
    hide TableInv, Unnamed, Step, Walk, KeepsNames;
    StepAuthority(s, op, i);
    if op.Open? && HoldsTrunc(s, op.fd) {
      Unreachable(s.t, s.h.fds[op.fd].inode, op.path, i);
    }
  }

  /** A private file stays private in every run, and keeps its bytes while its own handle takes no step. */
  lemma {:induction false} StaysPrivate(w: World, es: seq<Event>, k: nat, i: Inode)
    requires WorldInv(w) && Private(w, k, i)
    ensures Private(Run(w, es), k, i)
    ensures (forall j :: 0 <= j < |es| ==> !(es[j].Act? && es[j].k == k)) ==> Run(w, es).t.nodes[i] == w.t.nodes[i]
    decreases |es|
  {
    hide WorldInv, Private, Next;
    if es != [] {
      NextPrivate(w, es[0], k, i);
      NextInv(w, es[0]);
      StaysPrivate(Next(w, es[0]), es[1..], k, i);
    }
  }

  /**
   * A file from `fd_create` is private to its handle: in every run after it, whatever the other handles do and whoever
   * is spawned, no other handle gets a descriptor on it, and no event but a step of its own handle changes it.
   */
  lemma FdCreateIsPrivate(w: World, k: nat, es: seq<Event>, e: Event)
    requires WorldInv(w) && k < |w.hs| && NewInode(w.t).r.Ok?
    ensures var w2 := Run(Next(w, Act(k, Create)), es);
            && Private(w2, k, w.t.next) && Private(Next(w2, e), k, w.t.next)
            && (!(e.Act? && e.k == k) ==> Next(w2, e).t.nodes[w.t.next] == w2.t.nodes[w.t.next])
  {
    var w1 := Next(w, Act(k, Create));
    CreatedPrivate(w, k);
    NextInv(w, Act(k, Create));
    StaysPrivate(w1, es, k, w.t.next);
    RunInv(w1, es);
    hide WorldInv, Run, Next;
    NextPrivate(Run(w1, es), e, k, w.t.next);
  }
}
