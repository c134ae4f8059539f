/**
 * Runs: handles of several principals stepping over one table, and what every single step keeps,
 * also a step that fails midway.
 */
module VfsSteps {
  import opened Common
  import opened Paths
  import opened Policy
  import opened Inodes
  import opened Vfs

  /** The operations of a handle that can change the table or the handle. */
  datatype Op =
    | Close(fd: Fd)
    | SetRights(fd: Fd, base: Rights, inheriting: Rights)
    | SetSize(fd: Fd, size: nat)
    | Pwrite(fd: Fd, bufs: seq<seq<Byte>>, offset: nat)
    | Read(fd: Fd, bufs: seq<seq<Byte>>)
    | Write(fd: Fd, bufs: seq<seq<Byte>>)
    | Seek(fd: Fd, delta: I64, whence: Whence)
    | Renumber(fd: Fd, newFd: Fd)
    | Create
    | CreateDirectory(fd: Fd, path: Path)
    | Open(fd: Fd, path: Path, oflags: set<OpenFlag>, base: Rights, inheriting: Rights)

  datatype State = State(t: Table, h: Handle)

  function After<T>(o: Out<T>): State {
    State(o.t, o.h)
  }

  function Step(s: State, op: Op): State {
    match op
    case Close(fd) => After(FdClose(s.t, s.h, fd))
    case SetRights(fd, base, inheriting) => After(FdstatSetRights(s.t, s.h, fd, base, inheriting))
    case SetSize(fd, size) => After(FilestatSetSize(s.t, s.h, fd, size))
    case Pwrite(fd, bufs, offset) => After(FdPwrite(s.t, s.h, fd, bufs, offset))
    case Read(fd, bufs) => After(FdRead(s.t, s.h, fd, bufs).1)
    case Write(fd, bufs) => After(FdWrite(s.t, s.h, fd, bufs))
    case Seek(fd, delta, whence) => After(FdSeek(s.t, s.h, fd, delta, whence))
    case Renumber(fd, newFd) => After(FdRenumber(s.t, s.h, fd, newFd))
    case Create => After(FdCreate(s.t, s.h))
    case CreateDirectory(fd, path) => After(PathCreateDirectory(s.t, s.h, fd, path))
    case Open(fd, path, oflags, base, inheriting) => After(PathOpen(s.t, s.h, fd, path, oflags, base, inheriting))
  }

  /** Every descriptor is on an inode of the table. */
  ghost predicate HandleInv(t: Table, h: Handle) {
    forall fd :: fd in h.fds ==> h.fds[fd].inode in t.nodes
  }

  ghost predicate Inv(s: State) {
    TableInv(s.t) && HandleInv(s.t, s.h)
  }

  // ---------------------------------------------------------------------------
  // Steps on the bytes of one inode.
  // ---------------------------------------------------------------------------

  /** Only the node of `i` differs, and only in its bytes. */
  ghost predicate OnlyAt(t: Table, u: Table, i: Inode) {
    && Grows(t, u) && KeepsNames(t, u) && u.next == t.next && u.nodes.Keys == t.nodes.Keys
    && (forall j :: j in t.nodes && (j != i || DirAt(t.nodes, j)) ==> u.nodes[j] == t.nodes[j])
  }

  lemma OnlyAtTrans(t: Table, u: Table, v: Table, i: Inode)
    requires OnlyAt(t, u, i) && OnlyAt(u, v, i)
    ensures OnlyAt(t, v, i)
  {
    KeepsNamesTrans(t, u, v);
    hide KeepsNames;
  }

  /** The handles agree but for the offset of `fd`. */
  ghost predicate SameButOffset(h: Handle, g: Handle, fd: Fd) {
    && g.nextFd == h.nextFd && g.prestat == h.prestat && g.fds.Keys == h.fds.Keys
    && (forall x :: x in h.fds ==>
        g.fds[x] == h.fds[x] || (x == fd && g.fds[x] == h.fds[x].(offset := g.fds[x].offset)))
  }

  predicate IsByteOp(op: Op) {
    op.SetSize? || op.Pwrite? || op.Read? || op.Write? || op.Seek?
  }

  predicate HoldsWrite(h: Handle, fd: Fd) {
    fd in h.fds && (FD_WRITE in h.fds[fd].base || FD_FILESTAT_SET_SIZE in h.fds[fd].base)
  }

  /** What a byte step may do: touch the one inode of its descriptor, and only with a writing right. */
  ghost predicate ByteEffect(s: State, u: State, fd: Fd) {
    && TableInv(u.t)
    && SameButOffset(s.h, u.h, fd)
    && (u.t == s.t || (HoldsWrite(s.h, fd) && OnlyAt(s.t, u.t, s.h.fds[fd].inode)))
  }

  lemma SetBytesOnlyAt(t: Table, i: Inode, b: seq<Byte>)
    requires TableInv(t)
    requires i in t.nodes && !t.nodes[i].data.Directory? && |b| < U63
    ensures TableInv(SetBytes(t, i, b)) && OnlyAt(t, SetBytes(t, i, b), i)
  {
    SetBytesInv(t, i, b);
    hide TableInv, Grows, KeepsNames;
  }

  lemma SetSizeEffect(s: State, fd: Fd, size: nat)
    requires TableInv(s.t)
    ensures ByteEffect(s, After(FilestatSetSize(s.t, s.h, fd, size)), fd)
  {
    hide TableInv, OnlyAt;
    if CheckRight(s.h, fd, FD_FILESTAT_SET_SIZE).Ok? {
      var i := s.h.fds[fd].inode;
      if i in s.t.nodes && !s.t.nodes[i].data.Directory? && size < U63 {
        SetBytesOnlyAt(s.t, i, Resize(s.t.nodes[i].data.bytes, size));
      }
    }
  }

  lemma PwriteEffect(s: State, fd: Fd, bufs: seq<seq<Byte>>, offset: nat)
    requires TableInv(s.t)
    ensures ByteEffect(s, After(FdPwrite(s.t, s.h, fd, bufs, offset)), fd)
    ensures FdPwrite(s.t, s.h, fd, bufs, offset).h == s.h
  {
    hide TableInv, OnlyAt;
    if CheckRight(s.h, fd, FD_WRITE).Ok? {
      var i := s.h.fds[fd].inode;
      if i in s.t.nodes && !s.t.nodes[i].data.Directory? {
        WriteFittingEffect(s.t, i, bufs, offset);
        if offset + TotalLength(bufs) < U63 {
          NodeAt(s.t, i);
          SetBytesOnlyAt(s.t, i, WriteAt(s.t.nodes[i].data.bytes, Flatten(bufs), offset));
        }
      }
    }
  }

  /** Also a gathering write that panics only lengthens or overwrites the one inode. */
  lemma {:induction false} WriteFittingEffect(t: Table, i: Inode, bufs: seq<seq<Byte>>, offset: nat)
    requires TableInv(t) && i in t.nodes && !t.nodes[i].data.Directory?
    ensures var u := WriteFitting(t, i, bufs, offset);
            && TableInv(u) && OnlyAt(t, u, i)
            && u.nodes[i].stat.fileSize >= t.nodes[i].stat.fileSize
    decreases |bufs|
  {
    hide TableInv, OnlyAt, WriteAt;
    OnlyAtRefl(t, i);
    if bufs != [] && offset + |bufs[0]| < U63 {
      NodeAt(t, i);
      var b := WriteAt(t.nodes[i].data.bytes, bufs[0], offset);
      SetBytesOnlyAt(t, i, b);
      var u := SetBytes(t, i, b);
      WriteFittingEffect(u, i, bufs[1..], offset + |bufs[0]|);
      OnlyAtTrans(t, u, WriteFitting(u, i, bufs[1..], offset + |bufs[0]|), i);
    }
  }

  lemma OnlyAtRefl(t: Table, i: Inode)
    ensures OnlyAt(t, t, i)
  {
  }

  lemma SeekEffect(s: State, fd: Fd, delta: I64, whence: Whence)
    requires TableInv(s.t)
    ensures ByteEffect(s, After(FdSeek(s.t, s.h, fd, delta, whence)), fd)
  {
    hide TableInv, OnlyAt;
    if fd in s.h.fds && s.h.fds[fd].inode in s.t.nodes {
      var target := SeekBase(s.t, s.h.fds[fd], whence) + delta;
      if target >= 0 {
        SetSizeEffect(s, fd, target);
      }
    }
  }

  lemma WriteEffect(s: State, fd: Fd, bufs: seq<seq<Byte>>)
    requires TableInv(s.t)
    ensures ByteEffect(s, After(FdWrite(s.t, s.h, fd, bufs)), fd)
  {
    hide TableInv, OnlyAt;
    if CheckRight(s.h, fd, FD_WRITE).Ok? {
      PwriteEffect(s, fd, bufs, s.h.fds[fd].offset);
      var w := FdPwrite(s.t, s.h, fd, bufs, s.h.fds[fd].offset);
      if w.r.Ok? {
        SeekEffect(After(w), fd, AsI64(w.r.value), Current);
        var v := Advance(w.t, w.h, fd, w.r.value);
        if w.t != s.t && v.t != w.t {
          OnlyAtTrans(s.t, w.t, v.t, s.h.fds[fd].inode);
        }
      }
    }
  }

  lemma ByteStep(s: State, op: Op)
    requires TableInv(s.t)
    requires IsByteOp(op)
    ensures ByteEffect(s, Step(s, op), op.fd)
  {
    hide ByteEffect;
    match op
    case SetSize(fd, size) => SetSizeEffect(s, fd, size);
    case Pwrite(fd, bufs, offset) => PwriteEffect(s, fd, bufs, offset);
    case Write(fd, bufs) => WriteEffect(s, fd, bufs);
    case Seek(fd, delta, whence) => SeekEffect(s, fd, delta, whence);
    case Read(fd, bufs) =>
      StayEffect(s, fd);
      if CheckRight(s.h, fd, FD_READ).Ok? {
        var n := FdPread(s.t, s.h, fd, bufs, s.h.fds[fd].offset).1;
        if n.Ok? {
          SeekEffect(s, fd, AsI64(n.value), Current);
        }
      }
  }

  lemma StayEffect(s: State, fd: Fd)
    requires TableInv(s.t)
    ensures ByteEffect(s, s, fd)
  {
    hide TableInv;
  }

  // ---------------------------------------------------------------------------
  // Steps on the tree.
  // ---------------------------------------------------------------------------

  /** The fold of `path_create_directory` keeps the invariant and all bytes, whatever it rebinds. */
  lemma {:induction false} CreateDirsOk(t: Table, last: Inode, path: Path)
    requires TableInv(t)
    requires DirAt(t.nodes, last)
    ensures var e := CreateDirs(t, last, path);
            && TableInv(e.t) && Grows(t, e.t) && KeepsBytes(t, e.t) && !e.r.Panic?
            && (path == [] || !path[0].Normal? || path[0] !in t.nodes[last].data.entries ==> KeepsNames(t, e.t))
    decreases |path|
  {
    ExtendsRefl(t);
    hide TableInv, Grows, KeepsBytes, KeepsNames;
    if path != [] && path[0].Normal? {
      NewInodeOk(t);
      var alloc := NewInode(t);
      if alloc.r.Ok? {
        var i := alloc.r.value;
        LookupIn(t, last, path[0]);
        AddDirInv(alloc.t, last, path[0], i);
        AddDirNames(alloc.t, last, path[0], i);
        var u := AddDir(alloc.t, last, path[0], i).t;
        CreateDirsOk(u, i, path[1..]);
        var v := CreateDirs(u, i, path[1..]).t;
        GrowsTrans(alloc.t, u, v);
        GrowsTrans(t, alloc.t, v);
        if path[0] !in t.nodes[last].data.entries {
          KeepsNamesTrans(alloc.t, u, v);
          KeepsNamesTrans(t, alloc.t, v);
        }
      }
    }
  }

  lemma GrowsTrans(t: Table, u: Table, v: Table)
    requires Grows(t, u) && KeepsBytes(t, u) && Grows(u, v) && KeepsBytes(u, v)
    ensures Grows(t, v) && KeepsBytes(t, v)
  {
  }

  /** No directory has a name for `i`. */
  ghost predicate Unnamed(m: Nodes, i: Inode) {
    forall j, c :: Named(m, j, c) ==> Target(m, j, c) != i
  }

  /**
   * `fd_create` adds one empty file without a name, also if it then finds no free number, and at most one descriptor.
   */
  lemma CreateStep(s: State)
    requires Inv(s)
    ensures var o, i := FdCreate(s.t, s.h), s.t.next;
            && TableInv(o.t) && Extends(s.t, o.t) && HandleInv(o.t, o.h)
            && (o.r.Ok? <==> NewInode(s.t).r.Ok? && NewFd(s.h).1.Ok?)
            && (if NewInode(s.t).r.Ok? then
                  && i !in s.t.nodes && o.t.nodes == s.t.nodes[i := NewFile(i, [])]
                  && o.t.next == i + 1 && Unnamed(o.t.nodes, i)
                else o.t == s.t)
            && (if o.r.Ok? then
                  && o.r.value !in s.h.fds && o.h.prestat == s.h.prestat
                  && o.h.fds == s.h.fds[o.r.value := FdEntry(i, RegularFile, ALL_RIGHTS, ALL_RIGHTS, 0)]
                else o.h == s.h)
  {
    hide TableInv, NodeOk, Extends;
    NewInodeOk(s.t);
    ExtendsRefl(s.t);
    var alloc := NewInode(s.t);
    if alloc.r.Ok? {
      var i := s.t.next;
      RootBelow(s.t);
      InsertFileInv(alloc.t, i, []);
      NothingTargets(alloc.t, i);
      ExtendsTrans(s.t, alloc.t, InsertFile(alloc.t, i, []));
      UnnamedInserted(alloc.t, i);
    }
  }

  lemma RootBelow(t: Table)
    requires TableInv(t)
    ensures ROOT < t.next
  {
    LookupIn(t, ROOT, CurDir);
  }

  lemma UnnamedInserted(t: Table, i: Inode)
    requires Unnamed(t.nodes, i)
    ensures Unnamed(InsertFile(t, i, []).nodes, i)
  {
    var u := InsertFile(t, i, []);
    assert forall j, c :: Named(u.nodes, j, c) ==>
        Named(t.nodes, j, c) && Target(u.nodes, j, c) == Target(t.nodes, j, c);
  }

  /** `path_open` up to `TRUNC`: the table is only extended, and the path resolves to the inode it will open. */
  lemma OpenInodeOk(s: State, fd: Fd, path: Path, oflags: set<OpenFlag>)
    requires Inv(s)
    requires fd in s.h.fds && DirAt(s.t.nodes, s.h.fds[fd].inode)
    ensures var e := OpenInode(s.t, s.h, fd, path, oflags);
            && TableInv(e.t) && Extends(s.t, e.t) && !e.r.Panic?
            && (e.r.Ok? ==> Walk(e.t.nodes, s.h.fds[fd].inode, path) == e.r && e.r.value in e.t.nodes)
            && (e.r.Ok? && e.r.value !in s.t.nodes ==> e.t.nodes[e.r.value] == NewFile(e.r.value, []))
            && (e.r.Ok? && e.r.value in s.t.nodes ==> Walk(s.t.nodes, s.h.fds[fd].inode, path) == e.r && e.t == s.t)
  {
    ExtendsRefl(s.t);
    var parent := s.h.fds[fd].inode;
    hide TableInv, Extends;
    var w := Walk(s.t.nodes, parent, path);
    NoPanic(s.t.nodes, parent, path);
    if w.Ok? {
      WalkInNodes(s.t.nodes, parent, path);
    } else if CREATE in oflags && PATH_CREATE_FILE in s.h.fds[fd].base {
      NewInodeOk(s.t);
      var alloc := NewInode(s.t);
      if alloc.r.Ok? {
        LookupIn(s.t, parent, CurDir);
        AddFileOk(alloc.t, parent, path, alloc.r.value, []);
        ExtendsTrans(s.t, alloc.t, AddFile(alloc.t, parent, path, alloc.r.value, []).t);
      }
    }
  }

  lemma {:induction false} NoPanic(m: Nodes, i: Inode, path: Path)
    ensures !Walk(m, i, path).Panic?
    decreases |path|
  {
    if path != [] && Lookup(m, i, path[0]).Ok? {
      NoPanic(m, Lookup(m, i, path[0]).value, path[1..]);
    }
  }

  /** A new descriptor: its rights are within the inheriting rights of `fd`, its offset is zero. */
  ghost predicate NewDescriptor(h: Handle, g: Handle, fd: Fd, i: Inode) {
    && fd in h.fds && h.nextFd !in h.fds && h.nextFd in g.fds
    && g == Handle(h.fds[h.nextFd := g.fds[h.nextFd]], h.nextFd + 1, h.prestat)
    && g.fds[h.nextFd].inode == i && g.fds[h.nextFd].offset == 0
    && g.fds[h.nextFd].base <= h.fds[fd].inheriting
    && g.fds[h.nextFd].inheriting <= h.fds[fd].inheriting
  }

  predicate HoldsTrunc(s: State, fd: Fd) {
    fd in s.h.fds && PATH_FILESTAT_SET_SIZE in s.h.fds[fd].base && DirAt(s.t.nodes, s.h.fds[fd].inode)
  }

  /** The directory descriptor lets its handle truncate what `path` leads to from there. */
  ghost predicate TruncatesAt(s: State, mid: Table, u: Table, op: Op)
    requires op.Open?
  {
    && TRUNC in op.oflags && HoldsTrunc(s, op.fd)
    && var parent := s.h.fds[op.fd].inode;
       var i := Walk(mid.nodes, parent, op.path);
       && i.Ok? && i.value in mid.nodes && OnlyAt(mid, u, i.value)
       && (i.value in s.t.nodes ==> Walk(s.t.nodes, parent, op.path) == i)
  }

  /**
   * What `path_open` may do: extend the table, truncate the inode it opens with the right to, and add one descriptor.
   */
  ghost predicate OpenEffect(s: State, u: State, mid: Table, op: Op)
    requires op.Open?
  {
    && TableInv(u.t) && Extends(s.t, mid)
    && (u.t == mid || TruncatesAt(s, mid, u.t, op))
    && (|| u.h == s.h
        || u.h == s.h.(nextFd := s.h.nextFd + 1)
        || exists i :: i in u.t.nodes && op.fd in s.h.fds && DirAt(s.t.nodes, s.h.fds[op.fd].inode)
                       && Walk(u.t.nodes, s.h.fds[op.fd].inode, op.path) == Ok(i)
                       && NewDescriptor(s.h, u.h, op.fd, i))
  }

  lemma OpenStep(s: State, op: Op) returns (mid: Table)
    requires Inv(s)
    requires op.Open?
    ensures OpenEffect(s, Step(s, op), mid, op)
  {
    hide TableInv, Extends, OnlyAt;
    var fd := op.fd;
    mid := s.t;
    ExtendsRefl(s.t);
    if CheckRight(s.h, fd, PATH_OPEN).Ok? && DirAt(s.t.nodes, s.h.fds[fd].inode) {
      OpenInodeOk(s, fd, op.path, op.oflags);
      var e := OpenInode(s.t, s.h, fd, op.path, op.oflags);
      mid := e.t;
      if e.r.Ok? {
        TruncOk(e.t, s.h, fd, e.r.value, op.oflags);
        var u := OpenTrunc(e.t, s.h, fd, e.r.value, op.oflags);
        if u.t != mid {
          WalkOnlyAt(e.t, u.t, e.r.value, s.h.fds[fd].inode, op.path);
          assert TruncatesAt(s, mid, u.t, op);
        }
        if u.r.Ok? && NewFd(s.h).1.Ok? {
          assert NewDescriptor(s.h, Step(s, op).h, fd, e.r.value);
        }
      }
    }
  }

  lemma TruncOk(t: Table, h: Handle, fd: Fd, i: Inode, oflags: set<OpenFlag>)
    requires TableInv(t)
    requires fd in h.fds && i in t.nodes
    ensures var e := OpenTrunc(t, h, fd, i, oflags);
            && TableInv(e.t) && !e.r.Panic?
            && i in e.t.nodes
            && (e.t == t || (TRUNC in oflags && PATH_FILESTAT_SET_SIZE in h.fds[fd].base && OnlyAt(t, e.t, i)))
  {
    hide TableInv, Grows, KeepsNames;
    if !t.nodes[i].data.Directory? {
      SetBytesOnlyAt(t, i, Resize(t.nodes[i].data.bytes, 0));
    }
  }

  lemma WalkOnlyAt(t: Table, u: Table, i: Inode, from: Inode, path: Path)
    requires OnlyAt(t, u, i)
    requires Walk(t.nodes, from, path).Ok?
    ensures Walk(u.nodes, from, path) == Walk(t.nodes, from, path)
  {
    WalkStable(t, u, from, path);
  }

  // ---------------------------------------------------------------------------
  // Every step.
  // ---------------------------------------------------------------------------

  lemma CloseStep(s: State, fd: Fd)
    requires TableInv(s.t)
    ensures var u := Step(s, Close(fd));
            && TableInv(u.t)
            && (u.h == s.h || u.h == s.h.(fds := s.h.fds - {fd}))
            && (u.t == s.t || (fd in s.h.fds && s.h.fds[fd].inode in s.t.nodes
                               && s.t.nodes[s.h.fds[fd].inode].data.Service? && OnlyAt(s.t, u.t, s.h.fds[fd].inode)))
  {
    hide TableInv, OnlyAt;
    if fd in s.h.fds && s.h.fds[fd].inode in s.t.nodes {
      var i := s.h.fds[fd].inode;
      if s.t.nodes[i].data.Service? {
        SetBytesOnlyAt(s.t, i, Resize(s.t.nodes[i].data.bytes, 0));
      }
    }
  }

  /** The table invariant and the growth of the table, for every step of every handle, whatever its outcome. */
  lemma StepInv(s: State, op: Op)
    requires Inv(s)
    ensures Inv(Step(s, op)) && Grows(s.t, Step(s, op).t)
  {
    var u := Step(s, op);
    ExtendsRefl(s.t);
    hide TableInv, KeepsNames, KeepsBytes;
    if IsByteOp(op) {
      ByteStep(s, op);
    } else {
      match op
      case Close(fd) => CloseStep(s, fd);
      case Create => CreateStep(s);
      case CreateDirectory(fd, path) =>
        if CheckRight(s.h, fd, PATH_CREATE_DIRECTORY).Ok? && DirAt(s.t.nodes, s.h.fds[fd].inode) {
          CreateDirsOk(s.t, s.h.fds[fd].inode, path);
        }
      case Open(_, _, _, _, _) => var mid := OpenStep(s, op);
      case _ =>
    }
  }

  /** Another handle over the same table stays consistent. */
  lemma OtherHandle(t: Table, u: Table, g: Handle)
    requires HandleInv(t, g) && Grows(t, u)
    ensures HandleInv(u, g)
  {
  }

  /** The one way to rebind a name: `path_create_directory` whose first component exists although the path does not. */
  predicate Rebinds(s: State, op: Op) {
    && op.CreateDirectory?
    && CheckRight(s.h, op.fd, PATH_CREATE_DIRECTORY).Ok?
    && DirAt(s.t.nodes, s.h.fds[op.fd].inode)
    && !Walk(s.t.nodes, s.h.fds[op.fd].inode, op.path).Ok?
    && NewInode(s.t).r.Ok?
    && op.path[0].Normal? && op.path[0] in s.t.nodes[s.h.fds[op.fd].inode].data.entries
  }

  /** A step keeps every name exactly when it is not such a call. */
  lemma StepNames(s: State, op: Op)
    requires Inv(s)
    ensures KeepsNames(s.t, Step(s, op).t) <==> !Rebinds(s, op)
  {
    ExtendsRefl(s.t);
    if op.CreateDirectory? {
      CreateDirectoryNames(s, op);
    } else {
      hide TableInv, KeepsBytes, KeepsNames, Grows;
      if IsByteOp(op) {
        ByteStep(s, op);
      } else {
        match op
        case Close(fd) => CloseStep(s, fd);
        case Create => CreateStep(s);
        case Open(_, _, _, _, _) =>
          var mid := OpenStep(s, op);
          if Step(s, op).t != mid {
            KeepsNamesTrans(s.t, mid, Step(s, op).t);
          }
        case _ =>
      }
    }
  }

  lemma CreateDirectoryNames(s: State, op: Op)
    requires Inv(s)
    requires op.CreateDirectory?
    ensures KeepsNames(s.t, Step(s, op).t) <==> !Rebinds(s, op)
  {
    if Rebinds(s, op) {
      var parent, c := s.h.fds[op.fd].inode, op.path[0];
      Rebound(s, op);
      CandidateUnused(s.t);
      LookupIn(s.t, parent, c);
      assert c in s.t.nodes[parent].data.entries;
      hide TableInv, Step;
    } else {
      hide TableInv, CreateDirs, KeepsNames, Walk;
      KeepsNamesRefl(s.t);
      if CheckRight(s.h, op.fd, PATH_CREATE_DIRECTORY).Ok? && DirAt(s.t.nodes, s.h.fds[op.fd].inode) {
        var parent := s.h.fds[op.fd].inode;
        CreateDirsOk(s.t, parent, op.path);
        if !NewInode(s.t).r.Ok? {
          NoNewInode(s.t, parent, op.path);
        }
      }
    }
  }

  lemma KeepsNamesRefl(t: Table)
    ensures KeepsNames(t, t)
  {
  }

  lemma CandidateUnused(t: Table)
    requires TableInv(t)
    ensures t.next !in t.nodes && t.next < U64
  {
  }

  /** Without a free number nothing is created. */
  lemma NoNewInode(t: Table, last: Inode, path: Path)
    requires !NewInode(t).r.Ok?
    ensures CreateDirs(t, last, path).t == t
  {
    hide AddDir;
  }

  /** A rebinding call makes the name lead to the new number. */
  lemma Rebound(s: State, op: Op)
    requires Inv(s) && Rebinds(s, op)
    ensures Lookup(Step(s, op).t.nodes, s.h.fds[op.fd].inode, op.path[0]) == Ok(s.t.next)
  {
    hide TableInv, KeepsBytes, NodeOk, Walk, AddDir, Grows, Step;
    var parent, path := s.h.fds[op.fd].inode, op.path;
    RebindsFirst(s, op);
    NewInodeOk(s.t);
    var alloc := NewInode(s.t);
    var i := alloc.r.value;
    LookupIn(s.t, parent, path[0]);
    AddDirInv(alloc.t, parent, path[0], i);
    AddDirNames(alloc.t, parent, path[0], i);
    var u := AddDir(alloc.t, parent, path[0], i).t;
    CreateDirsOk(u, i, path[1..]);
    hide CreateDirs;
    var v := CreateDirs(u, i, path[1..]).t;
    assert DirAt(u.nodes, parent) && path[0] in u.nodes[parent].data.entries;
    assert KeepsNames(u, v);
  }

  lemma RebindsFirst(s: State, op: Op)
    requires Rebinds(s, op)
    ensures op.path != [] && Step(s, op).t == CreateDirs(s.t, s.h.fds[op.fd].inode, op.path).t
  {
    hide CreateDirs;
  }

  predicate FileAt(m: Nodes, i: Inode) {
    i in m && m[i].data.File?
  }

  /**
   * What entitles a step to change file `i`: a writing right on a descriptor on it, or truncation along a path to it.
   */
  ghost predicate Entitled(s: State, op: Op, i: Inode) {
    || (IsByteOp(op) && HoldsWrite(s.h, op.fd) && s.h.fds[op.fd].inode == i)
    || (op.Open? && TRUNC in op.oflags && HoldsTrunc(s, op.fd)
        && Walk(s.t.nodes, s.h.fds[op.fd].inode, op.path) == Ok(i))
  }

  /** Capability safety: a step that changes a regular file is entitled to change that very file. */
  lemma StepAuthority(s: State, op: Op, i: Inode)
    requires Inv(s)
    requires FileAt(s.t.nodes, i)
    ensures i in Step(s, op).t.nodes
    ensures Step(s, op).t.nodes[i] == s.t.nodes[i] || Entitled(s, op, i)
  {
    StepInv(s, op);
    hide TableInv, KeepsNames;
    if IsByteOp(op) {
      ByteStep(s, op);
    } else {
      match op
      case Close(fd) => CloseStep(s, fd);
      case Create => CreateStep(s);
      case CreateDirectory(fd, path) =>
        if CheckRight(s.h, fd, PATH_CREATE_DIRECTORY).Ok? && DirAt(s.t.nodes, s.h.fds[fd].inode) {
          CreateDirsOk(s.t, s.h.fds[fd].inode, path);
        }
      case Open(_, _, _, _, _) => OpenAuthority(s, op, i);
      case _ =>
    }
  }

  lemma OpenAuthority(s: State, op: Op, i: Inode)
    requires Inv(s) && op.Open?
    requires FileAt(s.t.nodes, i)
    ensures i in Step(s, op).t.nodes
    ensures Step(s, op).t.nodes[i] == s.t.nodes[i] || Entitled(s, op, i)
  {
    hide TableInv, KeepsNames, Step, Walk;
    var mid := OpenStep(s, op);
  }
}
