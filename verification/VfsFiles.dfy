/**
 * Whole files by absolute path.
 */
module VfsFiles {
  import opened Common
  import opened Paths
  import opened Policy
  import opened Inodes
  import opened Vfs
  import opened VfsSteps
  import opened VfsWorld
  import opened VfsNames
  import opened VfsCreation
  import opened VfsOffsets

  // ---------------------------------------------------------------------------
  // The composite operations are runs of the single ones.
  // ---------------------------------------------------------------------------

  function RunOps(s: State, ops: seq<Op>): State
    decreases |ops|
  {
    if ops == [] then s else RunOps(Step(s, ops[0]), ops[1..])
  }

  lemma RunOpsAppend(s: State, ops: seq<Op>, op: Op)
    ensures RunOps(s, ops + [op]) == Step(RunOps(s, ops), op)
    decreases |ops|
  {
    if ops != [] {
      assert (ops + [op])[1..] == ops[1..] + [op];
      RunOpsAppend(Step(s, ops[0]), ops[1..], op);
    }
  }

  lemma {:induction false} RunOpsJoin(s: State, a: seq<Op>, b: seq<Op>)
    ensures RunOps(s, a + b) == RunOps(RunOps(s, a), b)
    decreases |a|
  {
    hide Step;
    if a == [] {
      assert a + b == b;
    } else {
      assert (a + b)[1..] == a[1..] + b;
      RunOpsJoin(Step(s, a[0]), a[1..], b);
    }
  }

  lemma {:induction false} RunOpsInv(s: State, ops: seq<Op>)
    requires Inv(s)
    ensures Inv(RunOps(s, ops)) && Grows(s.t, RunOps(s, ops).t)
    decreases |ops|
  {
    hide Step, TableInv;
    if ops != [] {
      StepInv(s, ops[0]);
      RunOpsInv(Step(s, ops[0]), ops[1..]);
    }
  }

  /** So whatever holds of every run holds of writes and reads by absolute path, also of those that fail midway. */
  lemma WriteFileIsRun(s: State, path: Path, data: seq<Byte>, append: bool) returns (ops: seq<Op>)
    ensures RunOps(s, ops) == After(WriteFile(s.t, s.h, path, data, append))
  {
    hide Step, PathOpen, FdSeek, FdWrite, FdClose, FindPrestat;
    ops := [];
    var f := FindPrestat(s.h, path);
    if f.Ok? {
      var open := Open(f.value.0, f.value.1, if append then {CREATE} else {CREATE, TRUNC}, ALL_RIGHTS, ALL_RIGHTS);
      var o := PathOpen(s.t, s.h, f.value.0, f.value.1, open.oflags, ALL_RIGHTS, ALL_RIGHTS);
      StepIs(s, open);
      RunOpsAppend(s, ops, open);
      ops := ops + [open];
      if o.r.Ok? && {FD_WRITE, FD_SEEK} <= o.h.fds[o.r.value].base {
        var fd := o.r.value;
        var k := o.r;
        if append {
          StepIs(After(o), Seek(fd, 0, End));
          RunOpsAppend(s, ops, Seek(fd, 0, End));
          ops := ops + [Seek(fd, 0, End)];
          k := FdSeek(o.t, o.h, fd, 0, End).r;
        }
        if k.Ok? {
          var p := RunOps(s, ops);
          StepIs(p, Write(fd, [data]));
          RunOpsAppend(s, ops, Write(fd, [data]));
          ops := ops + [Write(fd, [data])];
          var w := FdWrite(p.t, p.h, fd, [data]);
          if w.r.Ok? {
            StepIs(After(w), Close(fd));
            RunOpsAppend(s, ops, Close(fd));
            ops := ops + [Close(fd)];
          }
        }
      }
    }
  }

  lemma StepIs(s: State, op: Op)
    ensures op.Close? ==> Step(s, op) == After(FdClose(s.t, s.h, op.fd))
    ensures op.Seek? ==> Step(s, op) == After(FdSeek(s.t, s.h, op.fd, op.delta, op.whence))
    ensures op.Write? ==> Step(s, op) == After(FdWrite(s.t, s.h, op.fd, op.bufs))
    ensures op.Read? ==> Step(s, op) == After(FdRead(s.t, s.h, op.fd, op.bufs).1)
    ensures op.Open? ==> Step(s, op) == After(PathOpen(s.t, s.h, op.fd, op.path, op.oflags, op.base, op.inheriting))
  {
  }

  lemma ReadFileIsRun(s: State, path: Path) returns (ops: seq<Op>)
    ensures RunOps(s, ops) == After(ReadFile(s.t, s.h, path))
  {
    hide Step, PathOpen, FdRead, FdClose, FindPrestat;
    ops := [];
    var f := FindPrestat(s.h, path);
    if f.Ok? {
      var open := Open(f.value.0, f.value.1, {}, ALL_RIGHTS, ALL_RIGHTS);
      var o := PathOpen(s.t, s.h, f.value.0, f.value.1, {}, ALL_RIGHTS, ALL_RIGHTS);
      StepIs(s, open);
      RunOpsAppend(s, ops, open);
      ops := ops + [open];
      if o.r.Ok? && {FD_READ, FD_SEEK} <= o.h.fds[o.r.value].base {
        var fd := o.r.value;
        var size := o.t.nodes[o.h.fds[fd].inode].stat.fileSize;
        var read := Read(fd, [seq(size, _ => 0)]);
        StepIs(After(o), read);
        RunOpsAppend(s, ops, read);
        ops := ops + [read];
        var d := FdRead(o.t, o.h, fd, [seq(size, _ => 0)]).1;
        if d.r.Ok? && d.r.value == size {
          StepIs(After(d), Close(fd));
          RunOpsAppend(s, ops, Close(fd));
          ops := ops + [Close(fd)];
        }
      }
    }
  }

  // ---------------------------------------------------------------------------
  // What is read is what was written.
  // ---------------------------------------------------------------------------

  /** The inode an absolute path names from the root. */
  function Resolve(t: Table, path: Path): Result<Inode> {
    Walk(t.nodes, ROOT, StripRoot(path))
  }

  /** The bytes at a path before an operation; a path that does not resolve holds none. */
  function BytesAt(t: Table, path: Path): seq<Byte> {
    match Resolve(t, path)
    case Ok(i) => if i in t.nodes && !t.nodes[i].data.Directory? then t.nodes[i].data.bytes else []
    case _ => []
  }

  /** An opened file: where it is and what it holds. */
  lemma OpenedFile(s: State, op: Op)
    requires Inv(s) && op.Open?
    requires PathOpen(s.t, s.h, op.fd, op.path, op.oflags, op.base, op.inheriting).r.Ok?
    ensures var o := PathOpen(s.t, s.h, op.fd, op.path, op.oflags, op.base, op.inheriting);
            var e := o.h.fds[o.r.value];
            && op.fd in s.h.fds && DirAt(s.t.nodes, s.h.fds[op.fd].inode)
            && Walk(o.t.nodes, s.h.fds[op.fd].inode, op.path) == Ok(e.inode)
            && e.offset == 0
            && o.h.prestat == s.h.prestat && o.h.fds == s.h.fds[o.r.value := e]
            && (TRUNC in op.oflags ==> !o.t.nodes[e.inode].data.Directory? && o.t.nodes[e.inode].data.bytes == [])
            && (TRUNC !in op.oflags && Walk(s.t.nodes, s.h.fds[op.fd].inode, op.path).Ok? ==>
                  Walk(s.t.nodes, s.h.fds[op.fd].inode, op.path).value == e.inode && e.inode in s.t.nodes
                      && o.t.nodes[e.inode] == s.t.nodes[e.inode])
            && (TRUNC !in op.oflags && !Walk(s.t.nodes, s.h.fds[op.fd].inode, op.path).Ok? ==>
                  o.t.nodes[e.inode] == NewFile(e.inode, []))
  {
    hide TableInv, Extends, Walk, AddFile, NodeOk, OnlyAt, OpenTrunc;
    var parent := s.h.fds[op.fd].inode;
    OpenInodeOk(s, op.fd, op.path, op.oflags);
    FoundOrNew(s, op.fd, op.path, op.oflags);
    hide OpenInode;
    var e := OpenInode(s.t, s.h, op.fd, op.path, op.oflags);
    var i := e.r.value;
    Truncated(e.t, s.h, op.fd, i, op.oflags, op.path);
  }

  /** The inode `path_open` opens: the one that was there, or a new empty file. */
  lemma FoundOrNew(s: State, fd: Fd, path: Path, oflags: set<OpenFlag>)
    requires Inv(s) && fd in s.h.fds && DirAt(s.t.nodes, s.h.fds[fd].inode)
               && OpenInode(s.t, s.h, fd, path, oflags).r.Ok?
    ensures var e, w := OpenInode(s.t, s.h, fd, path, oflags), Walk(s.t.nodes, s.h.fds[fd].inode, path);
            && (w.Ok? ==> w == e.r && e.r.value in s.t.nodes && e.t == s.t)
            && (!w.Ok? ==> e.r.value in e.t.nodes && e.t.nodes[e.r.value] == NewFile(e.r.value, []))
  {
    var parent := s.h.fds[fd].inode;
    NoPanic(s.t.nodes, parent, path);
    if Walk(s.t.nodes, parent, path).Ok? {
      WalkInNodes(s.t.nodes, parent, path);
    } else {
      NewInodeOk(s.t);
      var f := NewInode(s.t);
      if f.r.Ok? {
        AddFileOk(f.t, parent, path, f.r.value, []);
      }
    }
    hide TableInv, Extends, Walk, AddFile, NodeOk;
  }

  /** The `TRUNC` step keeps the route and empties the file, or does nothing. */
  lemma Truncated(t: Table, h: Handle, fd: Fd, i: Inode, oflags: set<OpenFlag>, path: Path)
    requires TableInv(t) && fd in h.fds && i in t.nodes && OpenTrunc(t, h, fd, i, oflags).r.Ok?
    requires Walk(t.nodes, h.fds[fd].inode, path).Ok?
    ensures var u := OpenTrunc(t, h, fd, i, oflags).t;
            && i in u.nodes && Walk(u.nodes, h.fds[fd].inode, path) == Walk(t.nodes, h.fds[fd].inode, path)
            && (TRUNC in oflags ==> !DirAt(u.nodes, i) && u.nodes[i].data.bytes == [])
            && (TRUNC !in oflags ==> u == t)
  {
    TruncOk(t, h, fd, i, oflags);
    var u := OpenTrunc(t, h, fd, i, oflags).t;
    hide TableInv, Walk, NodeOk;
    if u != t {
      WalkOnlyAt(t, u, i, h.fds[fd].inode, path);
    }
  }

  /** The table after closing the last descriptor opened on `i`: a service is cleared. */
  function Closed(t: Table, i: Inode): Table
    requires i in t.nodes
  {
    if t.nodes[i].data.Service? then SetBytes(t, i, []) else t
  }

  lemma CloseOpened(t: Table, h: Handle, g: Handle, fd: Fd)
    requires fd !in h.fds && fd in g.fds && g.fds[fd].inode in t.nodes
    requires g.fds == h.fds[fd := g.fds[fd]] && g.prestat == h.prestat
    ensures FdClose(t, g, fd) == Out(Closed(t, g.fds[fd].inode), Handle(h.fds, g.nextFd, h.prestat), Ok(()))
  {
    assert h.fds[fd := g.fds[fd]] - {fd} == h.fds;
    assert TruncateFile(t, g.fds[fd].inode).t ==
        (if DirAt(t.nodes, g.fds[fd].inode) then t else SetBytes(t, g.fds[fd].inode, []));
  }

  /** The inode an absolute path names through the pre-opened descriptors of a handle. */
  ghost function Route(t: Table, h: Handle, path: Path): Result<Inode> {
    match FindPrestat(h, path)
    case Ok((fd, rest)) => if fd in h.fds then Walk(t.nodes, h.fds[fd].inode, rest) else Err(BadF)
    case Err(e) => Err(e)
    case Panic => Panic
  }

  /**
   * `read_file_by_absolute_path` returns the bytes of the file its route leads to, leaves only a higher descriptor
   * candidate behind (and a cleared service), and its debug assertion never fails.
   */
  lemma ReadFileRoute(s: State, path: Path)
    requires Inv(s)
    ensures var o := ReadFile(s.t, s.h, path);
            && !o.r.Panic?
            && (o.r.Ok? ==>
                  var i := Route(s.t, s.h, path);
                  && i.Ok? && i.value in s.t.nodes && !DirAt(s.t.nodes, i.value)
                  && o.r.value == s.t.nodes[i.value].data.bytes
                  && o.t == Closed(s.t, i.value)
                  && o.h == s.h.(nextFd := s.h.nextFd + 1))
  {
    FindPrestatDeepest(s.h, path);
    var f := FindPrestat(s.h, path);
    if f.Ok? {
      var op := Open(f.value.0, f.value.1, {}, ALL_RIGHTS, ALL_RIGHTS);
      var o := PathOpen(s.t, s.h, op.fd, op.path, op.oflags, op.base, op.inheriting);
      OpenPlain(s, op);
      if o.r.Ok? && {FD_READ, FD_SEEK} <= o.h.fds[o.r.value].base {
        OpenedFile(s, op);
        StepInv(s, op);
        StepIs(s, op);
        hide PathOpen, FindPrestat, Step, TableInv, Walk;
        ReadOpened(After(o), o.r.value);
        hide FdRead;
        var i := o.h.fds[o.r.value].inode;
        if !DirAt(o.t.nodes, i) {
          var size := o.t.nodes[i].stat.fileSize;
          var d := FdRead(o.t, o.h, o.r.value, [seq(size, _ => 0)]).1;
          CloseOpened(s.t, s.h, d.h, o.r.value);
        }
        hide FdClose;
      }
    }
  }

  /** The nearest pre-opened ancestor may be opened under and passes on read and seek, and the route ends at a file. */
  ghost predicate MayRead(t: Table, h: Handle, path: Path) {
    var f := FindPrestat(h, path);
    && f.Ok? && f.value.0 in h.fds && h.nextFd < U31 && h.nextFd !in h.fds
    && var e := h.fds[f.value.0];
       && PATH_OPEN in e.base && {FD_READ, FD_SEEK} <= e.inheriting && DirAt(t.nodes, e.inode)
       && Route(t, h, path).Ok? && !DirAt(t.nodes, Route(t, h, path).value)
  }

  /** When opening without flags succeeds. */
  lemma OpenSucceeds(s: State, op: Op)
    requires Inv(s) && op.Open? && op.oflags == {} && op.fd in s.h.fds
    ensures var e := s.h.fds[op.fd];
            (PATH_OPEN in e.base && DirAt(s.t.nodes, e.inode) && Walk(s.t.nodes, e.inode, op.path).Ok?
             && s.h.nextFd < U31 && s.h.nextFd !in s.h.fds)
            <==> PathOpen(s.t, s.h, op.fd, op.path, op.oflags, op.base, op.inheriting).r.Ok?
  {
    var i := s.h.fds[op.fd].inode;
    NoPanic(s.t.nodes, i, op.path);
    if Walk(s.t.nodes, i, op.path).Ok? {
      WalkInNodes(s.t.nodes, i, op.path);
    }
    hide TableInv, Walk;
  }

  /** Exactly when a file can be read by its absolute path. */
  lemma ReadFileSucceeds(s: State, path: Path)
    requires Inv(s)
    ensures ReadFile(s.t, s.h, path).r.Ok? <==> MayRead(s.t, s.h, path)
  {
    FindPrestatDeepest(s.h, path);
    var f := FindPrestat(s.h, path);
    if f.Ok? && f.value.0 in s.h.fds {
      var op := Open(f.value.0, f.value.1, {}, ALL_RIGHTS, ALL_RIGHTS);
      var o := PathOpen(s.t, s.h, op.fd, op.path, op.oflags, op.base, op.inheriting);
      OpenSucceeds(s, op);
      OpenPlain(s, op);
      if o.r.Ok? {
        OpenedFile(s, op);
        StepInv(s, op);
        StepIs(s, op);
        hide PathOpen, FindPrestat, Step, TableInv, Walk;
        if {FD_READ, FD_SEEK} <= o.h.fds[o.r.value].base {
          ReadOpened(After(o), o.r.value);
          hide FdRead;
          var i := o.h.fds[o.r.value].inode;
          if !DirAt(o.t.nodes, i) {
            var size := o.t.nodes[i].stat.fileSize;
            var d := FdRead(o.t, o.h, o.r.value, [seq(size, _ => 0)]).1;
            CloseOpened(s.t, s.h, d.h, o.r.value);
          }
          hide FdClose;
        }
      }
    }
  }

  /** A read by absolute path that fails changes no inode and no pre-opened path. */
  lemma ReadFileFailed(s: State, path: Path)
    requires Inv(s) && !ReadFile(s.t, s.h, path).r.Ok?
    ensures var o := ReadFile(s.t, s.h, path); o.t == s.t && o.h.prestat == s.h.prestat
  {
    hide TableInv, FindPrestat;
    var f := FindPrestat(s.h, path);
    if f.Ok? {
      var op := Open(f.value.0, f.value.1, {}, ALL_RIGHTS, ALL_RIGHTS);
      var o := PathOpen(s.t, s.h, op.fd, op.path, op.oflags, op.base, op.inheriting);
      OpenPlain(s, op);
      OpenHandle(s, op);
      if o.r.Ok? && {FD_READ, FD_SEEK} <= o.h.fds[o.r.value].base {
        OpenedFile(s, op);
        StepInv(s, op);
        StepIs(s, op);
        hide PathOpen, Step;
        ReadOpened(After(o), o.r.value);
      }
    }
  }

  lemma OpenHandle(s: State, op: Op)
    requires op.Open?
    ensures PathOpen(s.t, s.h, op.fd, op.path, op.oflags, op.base, op.inheriting).h.prestat == s.h.prestat
  {
    hide OpenInode, OpenTrunc;
  }

  lemma RouteIsResolve(s: State, path: Path)
    requires Agrees(s.t, s.h)
    requires Route(s.t, s.h, path).Ok?
    ensures Resolve(s.t, path) == Route(s.t, s.h, path)
  {
    RoutesAgree(s.t, s.h, path);
  }

  lemma OpenPlain(s: State, op: Op)
    requires Inv(s) && op.Open? && op.oflags == {}
    ensures var o := PathOpen(s.t, s.h, op.fd, op.path, op.oflags, op.base, op.inheriting);
            o.t == s.t && !o.r.Panic?
  {
    if op.fd in s.h.fds {
      NoPanic(s.t.nodes, s.h.fds[op.fd].inode, op.path);
    }
    hide TableInv, Walk;
  }

  /** Reading an opened file to its recorded size. */
  lemma ReadOpened(s: State, fd: Fd)
    requires Inv(s) && fd in s.h.fds && s.h.fds[fd].offset == 0
    requires {FD_READ, FD_SEEK} <= s.h.fds[fd].base
    ensures var i := s.h.fds[fd].inode;
            var size := s.t.nodes[i].stat.fileSize;
            var (filled, d) := FdRead(s.t, s.h, fd, [seq(size, _ => 0)]);
            if DirAt(s.t.nodes, i) then d.r == Err(IsDir)
            else d.t == s.t && d.r == Ok(size) && filled == [s.t.nodes[i].data.bytes]
                 && d.h == InstallFd(s.h, fd, s.h.fds[fd].(offset := size))
  {
    var i := s.h.fds[fd].inode;
    assert FD_READ in {FD_READ, FD_SEEK} && FD_SEEK in {FD_READ, FD_SEEK};
    if !DirAt(s.t.nodes, i) {
      NodeAt(s.t, i);
      var b := s.t.nodes[i].data.bytes;
      assert b[0..][..|b|] == b;
      ReadBack(s, fd, seq(|b|, _ => 0), b);
    }
    hide TableInv, NodeOk;
  }

  lemma AppendAt(b: seq<Byte>, data: seq<Byte>)
    ensures WriteAt(b, data, |b|) == b + data
  {
  }

  /** Writing at the end of an opened file appends. */
  lemma WriteAtEnd(s: State, fd: Fd, data: seq<Byte>)
    requires Inv(s) && fd in s.h.fds
    requires FdWrite(s.t, s.h, fd, [data]).r.Ok?
    requires DirAt(s.t.nodes, s.h.fds[fd].inode) || s.h.fds[fd].offset == |s.t.nodes[s.h.fds[fd].inode].data.bytes|
    ensures var i := s.h.fds[fd].inode;
            var w := FdWrite(s.t, s.h, fd, [data]);
            && !DirAt(s.t.nodes, i) && |s.t.nodes[i].data.bytes + data| < U63
            && w.t == SetBytes(s.t, i, s.t.nodes[i].data.bytes + data)
            && w.h == InstallFd(s.h, fd, s.h.fds[fd].(offset := s.h.fds[fd].offset + |data|))
  {
    var i := s.h.fds[fd].inode;
    NodeAt(s.t, i);
    if !DirAt(s.t.nodes, i) {
      FlattenSingle(data);
      AppendAt(s.t.nodes[i].data.bytes, data);
      WriteAdvances(s, fd, [data]);
    }
    hide TableInv, NodeOk, WriteAt;
  }

  /** The opened file is written and closed. */
  lemma WriteOpened(s: State, h: Handle, fd: Fd, data: seq<Byte>, append: bool)
    requires Inv(s) && fd in s.h.fds && fd !in h.fds
    requires s.h.fds == h.fds[fd := s.h.fds[fd]] && s.h.prestat == h.prestat
    requires s.h.fds[fd].offset == 0
    requires !append ==> !DirAt(s.t.nodes, s.h.fds[fd].inode) && s.t.nodes[s.h.fds[fd].inode].data.bytes == []
    ensures var i := s.h.fds[fd].inode;
            var k := if append then FdSeek(s.t, s.h, fd, 0, End) else Out(s.t, s.h, Ok(0));
            var w := FdWrite(k.t, k.h, fd, [data]);
            k.r.Ok? && w.r.Ok? ==>
              && !DirAt(s.t.nodes, i) && |s.t.nodes[i].data.bytes + data| < U63
              && FdClose(w.t, w.h, fd) ==
                   Out(Closed(SetBytes(s.t, i, s.t.nodes[i].data.bytes + data), i),
                       Handle(h.fds, s.h.nextFd, h.prestat), Ok(()))
  {
    hide TableInv, FdWrite, FdClose;
    var i := s.h.fds[fd].inode;
    NodeAt(s.t, i);
    var k := if append then FdSeek(s.t, s.h, fd, 0, End) else Out(s.t, s.h, Ok(0));
    if k.r.Ok? {
      assert k.t == s.t && k.h == InstallFd(s.h, fd, s.h.fds[fd].(offset := k.h.fds[fd].offset));
      assert DirAt(s.t.nodes, i) || k.h.fds[fd].offset == |s.t.nodes[i].data.bytes|;
      hide NodeOk, FdSeek;
      var w := FdWrite(k.t, k.h, fd, [data]);
      if w.r.Ok? {
        WriteAtEnd(After(k), fd, data);
        CloseOpened(w.t, h, w.h, fd);
      }
    }
  }

  function WriteOpen(at: (Fd, Path), append: bool): Op {
    Open(at.0, at.1, if append then {CREATE} else {CREATE, TRUNC}, ALL_RIGHTS, ALL_RIGHTS)
  }

  /** The final state of a successful write in terms of the state after its `path_open`. */
  lemma WriteFileShape(s: State, path: Path, data: seq<Byte>, append: bool)
    requires Inv(s)
    requires WriteFile(s.t, s.h, path, data, append).r.Ok?
    ensures FindPrestat(s.h, path).Ok?
    ensures var op := WriteOpen(FindPrestat(s.h, path).value, append);
            var p := PathOpen(s.t, s.h, op.fd, op.path, op.oflags, op.base, op.inheriting);
            && p.r.Ok?
            && var i := p.h.fds[p.r.value].inode;
            && !DirAt(p.t.nodes, i) && |p.t.nodes[i].data.bytes + data| < U63
            && WriteFile(s.t, s.h, path, data, append) ==
                 Out(Closed(SetBytes(p.t, i, p.t.nodes[i].data.bytes + data), i),
                     Handle(s.h.fds, p.h.nextFd, s.h.prestat), Ok(()))
  {
    hide FindPrestat;
    var op := WriteOpen(FindPrestat(s.h, path).value, append);
    var p := PathOpen(s.t, s.h, op.fd, op.path, op.oflags, op.base, op.inheriting);
    hide PathOpen, Step, TableInv, Walk, FdSeek, FdWrite, FdClose;
    OpenedFile(s, op);
    StepInv(s, op);
    StepIs(s, op);
    WriteOpened(After(p), s.h, p.r.value, data, append);
  }

  /** The bytes a handle finds at a path through its pre-opened descriptors; nothing if the route ends at no file. */
  ghost function RouteBytes(t: Table, h: Handle, path: Path): seq<Byte> {
    match Route(t, h, path)
    case Ok(i) => if i in t.nodes && !t.nodes[i].data.Directory? then t.nodes[i].data.bytes else []
    case _ => []
  }

  /**
   * What a write puts at a path: the data, after what was there if it appends. A service is cleared when it is closed.
   */
  ghost function Written(s: State, path: Path, data: seq<Byte>, append: bool, service: bool): seq<Byte> {
    if service then [] else if append then RouteBytes(s.t, s.h, path) + data else data
  }

  /** The open of a write: names are kept, and of the files that were there only the opened one can be emptied. */
  lemma OpenKeeps(s: State, op: Op)
    requires Inv(s) && op.Open?
    requires PathOpen(s.t, s.h, op.fd, op.path, op.oflags, op.base, op.inheriting).r.Ok?
    ensures var p := PathOpen(s.t, s.h, op.fd, op.path, op.oflags, op.base, op.inheriting);
            var i := p.h.fds[p.r.value].inode;
            && TableInv(p.t) && Grows(s.t, p.t) && KeepsNames(s.t, p.t)
            && forall j :: j in s.t.nodes && j != i && !DirAt(s.t.nodes, j) ==> p.t.nodes[j] == s.t.nodes[j]
  {
    hide TableInv, KeepsNames, PathOpen, Walk;
    OpenedFile(s, op);
    StepInv(s, op);
    StepNames(s, op);
    StepIs(s, op);
    var p := PathOpen(s.t, s.h, op.fd, op.path, op.oflags, op.base, op.inheriting);
    var mid := OpenStep(s, op);
    if p.t != mid {
      TruncatedThere(s, mid, p.t, op);
    }
  }

  lemma TruncatedThere(s: State, mid: Table, u: Table, op: Op)
    requires op.Open? && TruncatesAt(s, mid, u, op)
    ensures Walk(u.nodes, s.h.fds[op.fd].inode, op.path) == Walk(mid.nodes, s.h.fds[op.fd].inode, op.path)
  {
    WalkOnlyAt(mid, u, Walk(mid.nodes, s.h.fds[op.fd].inode, op.path).value, s.h.fds[op.fd].inode, op.path);
  }

  /** An opened file holds what the route led to before, or nothing after `TRUNC`. */
  lemma HeldBefore(s: State, op: Op, path: Path)
    requires Inv(s) && op.Open?
    requires op.fd in s.h.fds && Walk(s.t.nodes, s.h.fds[op.fd].inode, op.path) == Route(s.t, s.h, path)
    requires var p := PathOpen(s.t, s.h, op.fd, op.path, op.oflags, op.base, op.inheriting);
             p.r.Ok? && !DirAt(p.t.nodes, p.h.fds[p.r.value].inode)
    ensures var p := PathOpen(s.t, s.h, op.fd, op.path, op.oflags, op.base, op.inheriting);
            p.t.nodes[p.h.fds[p.r.value].inode].data.bytes == if TRUNC in op.oflags then []
                else RouteBytes(s.t, s.h, path)
  {
    hide PathOpen, TableInv, Walk, Route;
    OpenedFile(s, op);
  }

  /** Closing after the write: the bytes of one inode are set, everything else is as the open left it. */
  lemma WriteFileTo(s: State, path: Path, data: seq<Byte>, append: bool) returns (p: Table, i: Inode)
    requires Inv(s)
    requires WriteFile(s.t, s.h, path, data, append).r.Ok?
    ensures TableInv(p) && Grows(s.t, p) && KeepsNames(s.t, p) && AddsOnly(s.t, p, i)
    ensures forall j :: j in s.t.nodes && j != i && !DirAt(s.t.nodes, j) ==> p.nodes[j] == s.t.nodes[j]
    ensures i in p.nodes && !DirAt(p.nodes, i) && Route(p, s.h, path) == Ok(i)
    ensures var b := Written(s, path, data, append, p.nodes[i].data.Service?);
            |b| < U63 && WriteFile(s.t, s.h, path, data, append).t == SetBytes(p, i, b)
    ensures WriteFile(s.t, s.h, path, data, append).h.fds == s.h.fds
    ensures WriteFile(s.t, s.h, path, data, append).h.prestat == s.h.prestat
  {
    hide WriteFile, FindPrestat, PathOpen, TableInv, Walk, KeepsNames, Grows, HandleInv, RouteBytes;
    WriteFileShape(s, path, data, append);
    var op := WriteOpen(FindPrestat(s.h, path).value, append);
    var o := PathOpen(s.t, s.h, op.fd, op.path, op.oflags, op.base, op.inheriting);
    OpenedFile(s, op);
    OpenKeeps(s, op);
    OpenAdds(s, op);
    hide AddsOnly;
    HeldBefore(s, op, path);
    p, i := o.t, o.h.fds[o.r.value].inode;
    assert append || [] + data == data;
  }

  /** Setting the bytes of one inode keeps every route. */
  lemma SetBytesRoute(t: Table, i: Inode, b: seq<Byte>, h: Handle, g: Handle, path: Path)
    requires TableInv(t) && i in t.nodes && !DirAt(t.nodes, i) && |b| < U63
    requires g.fds == h.fds && g.prestat == h.prestat && Route(t, h, path).Ok?
    ensures Route(SetBytes(t, i, b), g, path) == Route(t, h, path)
  {
    hide TableInv, OnlyAt, Walk;
    SetBytesOnlyAt(t, i, b);
    var f := FindPrestat(h, path);
    WalkOnlyAt(t, SetBytes(t, i, b), i, h.fds[f.value.0].inode, f.value.1);
  }

  /**
   * A successful `write_file_by_absolute_path`, from any state: the route of the handle to the path then ends at a file
   * holding the data, or what the route led to before and the data after an append, unless it is a service, which
   * closing clears. No name is rebound, no other file changes, and nothing else but directories is created.
   */
  lemma WriteFileOk(s: State, path: Path, data: seq<Byte>, append: bool)
    requires Inv(s)
    requires WriteFile(s.t, s.h, path, data, append).r.Ok?
    ensures var o := WriteFile(s.t, s.h, path, data, append);
            && Inv(After(o)) && Grows(s.t, o.t) && KeepsNames(s.t, o.t)
            && o.h.fds == s.h.fds && o.h.prestat == s.h.prestat && Route(o.t, o.h, path).Ok?
            && var i := Route(o.t, o.h, path).value;
               && i in o.t.nodes && !DirAt(o.t.nodes, i) && AddsOnly(s.t, o.t, i)
               && o.t.nodes[i].data.bytes == Written(s, path, data, append, o.t.nodes[i].data.Service?)
               && forall j :: j in s.t.nodes && j != i && !DirAt(s.t.nodes, j) ==> o.t.nodes[j] == s.t.nodes[j]
  {
    hide WriteFile, TableInv, KeepsNames, HandleInv, Route, Written, AddsOnly;
    var p, i := WriteFileTo(s, path, data, append);
    var o := WriteFile(s.t, s.h, path, data, append);
    var b := Written(s, path, data, append, p.nodes[i].data.Service?);
    SetBytesRoute(p, i, b, s.h, o.h, path);
    SetBytesOnlyAt(p, i, b);
    AddsOnlyAt(s.t, p, o.t, i, i);
    KeepsNamesTrans(s.t, p, o.t);
    OtherHandle(s.t, o.t, s.h);
    HandleSame(o.t, s.h, o.h);
  }

  /**
   * The nearest pre-opened ancestor may be opened under, and truncated under unless it appends, and passes on write and
   * seek; the route ends at a file or one can be created there; and the new size is below 2^63.
   */
  ghost predicate MayWrite(t: Table, h: Handle, path: Path, data: seq<Byte>, append: bool) {
    var f := FindPrestat(h, path);
    && f.Ok? && f.value.0 in h.fds && h.nextFd < U31 && h.nextFd !in h.fds
    && var e := h.fds[f.value.0];
       && PATH_OPEN in e.base && (append || PATH_FILESTAT_SET_SIZE in e.base) && {FD_WRITE, FD_SEEK} <= e.inheriting
       && DirAt(t.nodes, e.inode)
       && |data| + (if append then |RouteBytes(t, h, path)| else 0) < U63
       && if Route(t, h, path).Ok? then !DirAt(t.nodes, Route(t, h, path).value)
          else PATH_CREATE_FILE in e.base && FileFits(t, e.inode, f.value.1)
  }

  /** When opening for writing finds or creates something. */
  lemma WriteInode(s: State, op: Op)
    requires Inv(s) && op.Open? && op.oflags * {CREATE, EXCL, DIRECTORY} == {CREATE} && op.fd in s.h.fds
    requires DirAt(s.t.nodes, s.h.fds[op.fd].inode)
    ensures var e := s.h.fds[op.fd];
            OpenInode(s.t, s.h, op.fd, op.path, op.oflags).r.Ok? <==>
              (Walk(s.t.nodes, e.inode, op.path).Ok?
               || (PATH_CREATE_FILE in e.base && FileFits(s.t, e.inode, op.path)))
  {
    assert CREATE in op.oflags && EXCL !in op.oflags && DIRECTORY !in op.oflags by {
      assert CREATE in op.oflags * {CREATE, EXCL, DIRECTORY};
      assert EXCL !in op.oflags * {CREATE, EXCL, DIRECTORY} && DIRECTORY !in op.oflags * {CREATE, EXCL, DIRECTORY};
    }
    hide TableInv, Walk, AddFile;
    var i := s.h.fds[op.fd].inode;
    NoPanic(s.t.nodes, i, op.path);
    NewInodeOk(s.t);
    CandidateUnused(s.t);
    if !Walk(s.t.nodes, i, op.path).Ok? {
      SomethingMissing(s.t, i, op.path);
      if NewInode(s.t).r.Ok? {
        AddFileSucceeds(NewInode(s.t).t, i, op.path, s.t.next);
      }
    }
  }

  lemma SomethingMissing(t: Table, i: Inode, path: Path)
    requires TableInv(t) && i in t.nodes && !Walk(t.nodes, i, path).Ok?
    ensures Missing(t.nodes, i, path) > 0
  {
    hide TableInv, NoDangling, Walk;
    TableNoDangling(t);
    MissingIsLongest(t.nodes, i, path);
  }

  /** When opening for writing succeeds. */
  lemma WriteOpenSucceeds(s: State, op: Op)
    requires Inv(s) && op.Open? && op.oflags * {CREATE, EXCL, DIRECTORY} == {CREATE} && op.fd in s.h.fds
    ensures var e := s.h.fds[op.fd];
            var w := Walk(s.t.nodes, e.inode, op.path);
            PathOpen(s.t, s.h, op.fd, op.path, op.oflags, op.base, op.inheriting).r.Ok? <==>
              && PATH_OPEN in e.base && DirAt(s.t.nodes, e.inode) && s.h.nextFd < U31 && s.h.nextFd !in s.h.fds
              && (w.Ok? || (PATH_CREATE_FILE in e.base && FileFits(s.t, e.inode, op.path)))
              && (TRUNC in op.oflags ==> PATH_FILESTAT_SET_SIZE in e.base && !(w.Ok? && DirAt(s.t.nodes, w.value)))
  {
    hide TableInv, Walk, OpenInode, FileFits, Extends;
    if DirAt(s.t.nodes, s.h.fds[op.fd].inode) {
      WriteInode(s, op);
      OpenInodeOk(s, op.fd, op.path, op.oflags);
      if OpenInode(s.t, s.h, op.fd, op.path, op.oflags).r.Ok? {
        FoundOrNew(s, op.fd, op.path, op.oflags);
      }
    }
  }

  /** When writing to the opened file succeeds. */
  lemma WriteOpenedSucceeds(s: State, fd: Fd, data: seq<Byte>, append: bool)
    requires Inv(s) && fd in s.h.fds && s.h.fds[fd].offset == 0 && {FD_WRITE, FD_SEEK} <= s.h.fds[fd].base
    requires !append ==> !DirAt(s.t.nodes, s.h.fds[fd].inode) && s.t.nodes[s.h.fds[fd].inode].data.bytes == []
    ensures var i := s.h.fds[fd].inode;
            var k := if append then FdSeek(s.t, s.h, fd, 0, End) else Out(s.t, s.h, Ok(0));
            var w := FdWrite(k.t, k.h, fd, [data]);
            k.r.Ok? && (w.r.Ok? <==> !DirAt(s.t.nodes, i) && |s.t.nodes[i].data.bytes| + |data| < U63)
  {
    hide TableInv, FdWrite;
    assert FD_WRITE in {FD_WRITE, FD_SEEK} && FD_SEEK in {FD_WRITE, FD_SEEK};
    var i := s.h.fds[fd].inode;
    NodeAt(s.t, i);
    var k := if append then FdSeek(s.t, s.h, fd, 0, End) else Out(s.t, s.h, Ok(0));
    assert k.t == s.t && k.h == InstallFd(s.h, fd, s.h.fds[fd].(offset := k.h.fds[fd].offset));
    hide FdSeek;
    WriteAtEndSucceeds(After(k), fd, data);
  }

  lemma WriteAtEndSucceeds(s: State, fd: Fd, data: seq<Byte>)
    requires Inv(s) && fd in s.h.fds && {FD_WRITE, FD_SEEK} <= s.h.fds[fd].base
    requires DirAt(s.t.nodes, s.h.fds[fd].inode) || s.h.fds[fd].offset == |s.t.nodes[s.h.fds[fd].inode].data.bytes|
    ensures var i := s.h.fds[fd].inode;
            FdWrite(s.t, s.h, fd, [data]).r.Ok? <==>
              !DirAt(s.t.nodes, i) && |s.t.nodes[i].data.bytes| + |data| < U63
  {
    hide TableInv, WriteAt;
    assert FD_WRITE in {FD_WRITE, FD_SEEK} && FD_SEEK in {FD_WRITE, FD_SEEK};
    NodeAt(s.t, s.h.fds[fd].inode);
    FlattenSingle(data);
    hide Flatten;
  }

  /** What decides once the file is open: the rights passed on, the kind of inode and the size. */
  lemma WriteFinishes(s: State, path: Path, data: seq<Byte>, append: bool)
    requires Inv(s) && FindPrestat(s.h, path).Ok?
    requires var op := WriteOpen(FindPrestat(s.h, path).value, append);
             PathOpen(s.t, s.h, op.fd, op.path, op.oflags, op.base, op.inheriting).r.Ok?
    ensures var e, i := s.h.fds[FindPrestat(s.h, path).value.0], Route(s.t, s.h, path);
            WriteFile(s.t, s.h, path, data, append).r.Ok? <==>
              && {FD_WRITE, FD_SEEK} <= e.inheriting && !(i.Ok? && DirAt(s.t.nodes, i.value))
              && |data| + (if append then |RouteBytes(s.t, s.h, path)| else 0) < U63
  {
    hide FindPrestat, PathOpen, Step, TableInv, Walk, FdSeek, FdWrite, FdClose, RouteBytes;
    var op := WriteOpen(FindPrestat(s.h, path).value, append);
    var p := PathOpen(s.t, s.h, op.fd, op.path, op.oflags, op.base, op.inheriting);
    var fd := p.r.value;
    OpenedFile(s, op);
    StepInv(s, op);
    StepIs(s, op);
    assert FD_WRITE in ALL_RIGHTS && FD_SEEK in ALL_RIGHTS;
    WriteOpenSucceeds(s, op);
    if {FD_WRITE, FD_SEEK} <= p.h.fds[fd].base {
      WriteOpenedSucceeds(After(p), fd, data, append);
      WriteOpened(After(p), s.h, fd, data, append);
      if !DirAt(p.t.nodes, p.h.fds[fd].inode) {
        HeldBefore(s, op, path);
      }
    }
  }

  /** Exactly when a file can be written by its absolute path. */
  lemma WriteFileSucceeds(s: State, path: Path, data: seq<Byte>, append: bool)
    requires Inv(s)
    ensures WriteFile(s.t, s.h, path, data, append).r.Ok? <==> MayWrite(s.t, s.h, path, data, append)
  {
    hide FindPrestat, TableInv, Walk, FileFits, FdSeek, FdWrite, FdClose, Step, PathOpen;
    FindPrestatDeepest(s.h, path);
    var f := FindPrestat(s.h, path);
    if f.Ok? {
      var op := WriteOpen(f.value, append);
      var p := PathOpen(s.t, s.h, op.fd, op.path, op.oflags, op.base, op.inheriting);
      if op.fd in s.h.fds {
        WriteOpenSucceeds(s, op);
        if p.r.Ok? {
          WriteFinishes(s, path, data, append);
        }
      }
    }
  }

  lemma HandleSame(t: Table, h: Handle, g: Handle)
    requires HandleInv(t, h) && g.fds == h.fds
    ensures HandleInv(t, g)
  {
  }

  /**
   * Reading back: after a successful write through one handle, a read of the path through any handle, the writer's own
   * or another one, succeeds just when that handle may read it. It returns what was written if its route ends where
   * that of the writer does. Otherwise it returns the bytes that the file its route ends at held before the write; its
   * route ended there before if it ended anywhere, or if it goes along plain names only.
   */
  lemma ReadAfterWrite(s: State, path: Path, data: seq<Byte>, append: bool, g: Handle)
    requires Inv(s)
    requires WriteFile(s.t, s.h, path, data, append).r.Ok?
    requires g == WriteFile(s.t, s.h, path, data, append).h || HandleInv(s.t, g)
    ensures var o := WriteFile(s.t, s.h, path, data, append);
            var r, i := ReadFile(o.t, g, path), Route(o.t, g, path);
            && !r.r.Panic? && (r.r.Ok? <==> MayRead(o.t, g, path))
            && (r.r.Ok? ==>
                  && i.Ok? && i.value in o.t.nodes && !DirAt(o.t.nodes, i.value)
                      && r.r.value == o.t.nodes[i.value].data.bytes
                  && (i == Route(o.t, o.h, path) ==>
                        r.r.value == Written(s, path, data, append, o.t.nodes[i.value].data.Service?))
                  && (i != Route(o.t, o.h, path) ==>
                        && i.value in s.t.nodes && !DirAt(s.t.nodes, i.value)
                        && r.r.value == s.t.nodes[i.value].data.bytes
                        && (Route(s.t, g, path).Ok? || PlainRoute(g, path) ==> Route(s.t, g, path) == i)))
  {
    hide WriteFile, ReadFile, TableInv, KeepsNames, HandleInv, Route, Written, MayRead, AddsOnly, PlainRoute;
    WriteFileOk(s, path, data, append);
    var o := WriteFile(s.t, s.h, path, data, append);
    if g != o.h {
      OtherHandle(s.t, o.t, g);
    }
    ReadFileRoute(State(o.t, g), path);
    ReadFileSucceeds(State(o.t, g), path);
    var i := Route(o.t, g, path);
    if ReadFile(o.t, g, path).r.Ok? && i != Route(o.t, o.h, path) {
      NotCreated(s.t, o.t, Route(o.t, o.h, path).value, i.value);
      RouteBefore(s.t, o.t, Route(o.t, o.h, path).value, g, path);
    }
  }

  /** Below its pre-opened directory the path has neither `.` nor `..`. */
  ghost predicate PlainRoute(h: Handle, path: Path) {
    FindPrestat(h, path).Ok? && AllNormal(FindPrestat(h, path).value.1)
  }

  lemma NotCreated(t: Table, u: Table, i: Inode, j: Inode)
    requires AddsOnly(t, u, i) && j in u.nodes && !DirAt(u.nodes, j) && j != i
    ensures j in t.nodes && !DirAt(t.nodes, j)
  {
  }

  /** A route that ended anywhere still ends there; a new one along plain names ends at something new. */
  lemma RouteBefore(t: Table, u: Table, i: Inode, h: Handle, path: Path)
    requires Grows(t, u) && KeepsNames(t, u) && AddsOnly(t, u, i)
    requires Route(u, h, path).Ok? && Route(u, h, path).value in t.nodes
    ensures Route(t, h, path).Ok? || PlainRoute(h, path) ==> Route(t, h, path) == Route(u, h, path)
  {
    hide Grows, KeepsNames, AddsOnly, Walk, FindPrestat;
    var f := FindPrestat(h, path).value;
    var d := h.fds[f.0].inode;
    if Walk(t.nodes, d, f.1).Ok? {
      WalkStable(t, u, d, f.1);
    } else if AllNormal(f.1) {
      WalkAdds(t, u, i, d, f.1);
    }
  }

  // ---------------------------------------------------------------------------
  // The same from the root, for handles whose pre-opened descriptors agree with it.
  // ---------------------------------------------------------------------------

  lemma WriteFileFromRoot(s: State, path: Path, data: seq<Byte>, append: bool)
    requires Inv(s) && Agrees(s.t, s.h)
    requires WriteFile(s.t, s.h, path, data, append).r.Ok?
    ensures var o := WriteFile(s.t, s.h, path, data, append);
            && Agrees(o.t, o.h) && Resolve(o.t, path) == Route(o.t, o.h, path) && Resolve(o.t, path).Ok?
            && var i := Resolve(o.t, path).value;
               && i in o.t.nodes && !DirAt(o.t.nodes, i)
               && o.t.nodes[i].data.bytes ==
                    if o.t.nodes[i].data.Service? then [] else if append then BytesAt(s.t, path) + data else data
  {
    hide WriteFile, TableInv, KeepsNames, HandleInv, Walk;
    WriteFileOk(s, path, data, append);
    var o := WriteFile(s.t, s.h, path, data, append);
    WriteFileShape(s, path, data, append);
    RoutesAgree(s.t, s.h, path);
    OtherAgrees(s.t, o.t, s.h);
    hide Agrees;
    RouteIsResolve(After(o), path);
  }

  lemma ReadBackFromRoot(s: State, path: Path, data: seq<Byte>, append: bool, g: Handle)
    requires Inv(s) && Agrees(s.t, s.h) && HandleInv(s.t, g) && Agrees(s.t, g)
    requires WriteFile(s.t, s.h, path, data, append).r.Ok?
    ensures var o := WriteFile(s.t, s.h, path, data, append);
            var r := ReadFile(o.t, g, path);
            && !r.r.Panic? && (r.r.Ok? <==> MayRead(o.t, g, path))
            && (r.r.Ok? ==>
                  && Resolve(o.t, path).Ok? && Resolve(o.t, path).value in o.t.nodes
                  && r.r.value == if o.t.nodes[Resolve(o.t, path).value].data.Service? then []
                                  else if append then BytesAt(s.t, path) + data else data)
  {
    hide WriteFile, ReadFile, TableInv, KeepsNames, HandleInv, Route, MayRead, Resolve;
    WriteFileOk(s, path, data, append);
    WriteFileFromRoot(s, path, data, append);
    ReadAfterWrite(s, path, data, append, g);
    var o := WriteFile(s.t, s.h, path, data, append);
    OtherAgrees(s.t, o.t, g);
    hide Agrees, Written;
    if ReadFile(o.t, g, path).r.Ok? {
      RouteIsResolve(State(o.t, g), path);
    }
  }
}
