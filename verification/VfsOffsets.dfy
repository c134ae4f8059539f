/**
 * Offsets and sizes over whole runs.
 */
module VfsOffsets {
  import opened Common
  import opened Paths
  import opened Policy
  import opened Inodes
  import opened Vfs
  import opened VfsSteps
  import opened VfsWorld

  /** Every descriptor's offset is within the recorded size of its inode. */
  ghost predicate OffsetsOk(t: Table, h: Handle) {
    forall fd :: fd in h.fds ==>
        h.fds[fd].inode in t.nodes && h.fds[fd].offset <= t.nodes[h.fds[fd].inode].stat.fileSize
  }

  ghost predicate SizesGrow(t: Table, u: Table) {
    forall i :: i in t.nodes ==> i in u.nodes && t.nodes[i].stat.fileSize <= u.nodes[i].stat.fileSize
  }

  /** The steps that make a file shorter: each has its right, reaches a file or service and finds bytes to drop. */
  ghost predicate Shrinks(s: State, op: Op) {
    match op
    case SetSize(fd, size) => CheckRight(s.h, fd, FD_FILESTAT_SET_SIZE).Ok? && size < SizeAt(s.t, Ok(s.h.fds[fd].inode))
    case Open(fd, path, oflags, _, _) =>
      && TRUNC in oflags && EXCL !in oflags && DIRECTORY !in oflags && CheckRight(s.h, fd, PATH_OPEN).Ok?
          && HoldsTrunc(s, fd)
      && 0 < SizeAt(s.t, Walk(s.t.nodes, s.h.fds[fd].inode, path))
    case Close(fd) =>
      && fd in s.h.fds && s.h.fds[fd].inode in s.t.nodes && s.t.nodes[s.h.fds[fd].inode].data.Service?
      && 0 < SizeAt(s.t, Ok(s.h.fds[fd].inode))
    case _ => false
  }

  /** The recorded size of an inode, if there is one. Directories have size zero. */
  function SizeAt(t: Table, i: Result<Inode>): nat {
    if i.Ok? && i.value in t.nodes then t.nodes[i.value].stat.fileSize else 0
  }

  /** One descriptor's offset is within the size of its inode. */
  predicate OffsetOkAt(s: State, fd: Fd) {
    fd in s.h.fds && s.h.fds[fd].inode in s.t.nodes && s.h.fds[fd].offset <= s.t.nodes[s.h.fds[fd].inode].stat.fileSize
  }

  lemma SetSizeGrows(s: State, fd: Fd, size: nat)
    requires TableInv(s.t)
    ensures SizesGrow(s.t, FilestatSetSize(s.t, s.h, fd, size).t) <==> !Shrinks(s, SetSize(fd, size))
    ensures FilestatSetSize(s.t, s.h, fd, size).h == s.h
    ensures FilestatSetSize(s.t, s.h, fd, size).r.Ok? && fd in s.h.fds && s.h.fds[fd].inode in s.t.nodes ==>
              FilestatSetSize(s.t, s.h, fd, size).t.nodes[s.h.fds[fd].inode].stat.fileSize == size
  {
    if CheckRight(s.h, fd, FD_FILESTAT_SET_SIZE).Ok? && s.h.fds[fd].inode in s.t.nodes {
      NodeAt(s.t, s.h.fds[fd].inode);
    }
    hide TableInv;
  }

  lemma SeekGrows(s: State, fd: Fd, delta: I64, whence: Whence)
    requires TableInv(s.t)
    ensures SizesGrow(s.t, FdSeek(s.t, s.h, fd, delta, whence).t)
    ensures OffsetOkAt(s, fd) ==> OffsetOkAt(After(FdSeek(s.t, s.h, fd, delta, whence)), fd)
  {
    hide TableInv, FilestatSetSize;
    if fd in s.h.fds && s.h.fds[fd].inode in s.t.nodes {
      var target := SeekBase(s.t, s.h.fds[fd], whence) + delta;
      if target > s.t.nodes[s.h.fds[fd].inode].stat.fileSize {
        SetSizeGrows(s, fd, target);
      }
    }
  }

  lemma PwriteGrows(s: State, fd: Fd, bufs: seq<seq<Byte>>, offset: nat)
    requires TableInv(s.t)
    ensures SizesGrow(s.t, FdPwrite(s.t, s.h, fd, bufs, offset).t)
  {
    if fd in s.h.fds && s.h.fds[fd].inode in s.t.nodes {
      NodeAt(s.t, s.h.fds[fd].inode);
      if !DirAt(s.t.nodes, s.h.fds[fd].inode) {
        WriteFittingEffect(s.t, s.h.fds[fd].inode, bufs, offset);
      }
    }
    hide TableInv, WriteAt, Flatten, WriteFitting;
  }

  lemma WriteGrows(s: State, fd: Fd, bufs: seq<seq<Byte>>)
    requires TableInv(s.t)
    ensures SizesGrow(s.t, FdWrite(s.t, s.h, fd, bufs).t)
    ensures OffsetOkAt(s, fd) ==> OffsetOkAt(After(FdWrite(s.t, s.h, fd, bufs)), fd)
  {
    hide TableInv, FdPwrite, FdSeek, ByteEffect;
    if CheckRight(s.h, fd, FD_WRITE).Ok? {
      PwriteGrows(s, fd, bufs, s.h.fds[fd].offset);
      PwriteEffect(s, fd, bufs, s.h.fds[fd].offset);
      PwriteInv(s, fd, bufs, s.h.fds[fd].offset);
      var w := FdPwrite(s.t, s.h, fd, bufs, s.h.fds[fd].offset);
      if w.r.Ok? {
        SeekGrows(After(w), fd, AsI64(w.r.value), Current);
      }
    }
  }

  lemma PwriteInv(s: State, fd: Fd, bufs: seq<seq<Byte>>, offset: nat)
    requires ByteEffect(s, After(FdPwrite(s.t, s.h, fd, bufs, offset)), fd)
    ensures TableInv(FdPwrite(s.t, s.h, fd, bufs, offset).t)
  {
  }

  lemma ByteGrows(s: State, op: Op)
    requires TableInv(s.t) && IsByteOp(op)
    ensures SizesGrow(s.t, Step(s, op).t) <==> !Shrinks(s, op)
    ensures !Shrinks(s, op) && OffsetOkAt(s, op.fd) ==> OffsetOkAt(Step(s, op), op.fd)
  {
    hide TableInv, FdPwrite, FdSeek, FdPread, FilestatSetSize;
    match op
    case SetSize(fd, size) => SetSizeGrows(s, fd, size);
    case Pwrite(fd, bufs, offset) => PwriteGrows(s, fd, bufs, offset); PwriteEffect(s, fd, bufs, offset);
    case Write(fd, bufs) => WriteGrows(s, fd, bufs);
    case Seek(fd, delta, whence) => SeekGrows(s, fd, delta, whence);
    case Read(fd, bufs) =>
      if CheckRight(s.h, fd, FD_READ).Ok? {
        var n := FdPread(s.t, s.h, fd, bufs, s.h.fds[fd].offset).1;
        if n.Ok? {
          SeekGrows(s, fd, AsI64(n.value), Current);
        }
      }
  }

  /** Truncation by `path_open` shortens exactly an existing file or service with bytes that the path leads to. */
  lemma OpenGrows(s: State, op: Op)
    requires Inv(s) && op.Open?
    ensures SizesGrow(s.t, Step(s, op).t) <==> !Shrinks(s, op)
  {
    hide TableInv, Extends, Walk, AddFile, Resize;
    if CheckRight(s.h, op.fd, PATH_OPEN).Ok? && DirAt(s.t.nodes, s.h.fds[op.fd].inode) {
      var parent := s.h.fds[op.fd].inode;
      OpenInodeOk(s, op.fd, op.path, op.oflags);
      var e := OpenInode(s.t, s.h, op.fd, op.path, op.oflags);
      NoPanic(s.t.nodes, parent, op.path);
      ExtendedSizes(s.t, e.t);
      if e.r.Ok? {
        if Walk(s.t.nodes, parent, op.path).Ok? {
          WalkInNodes(s.t.nodes, parent, op.path);
        }
        NodeAt(e.t, e.r.value);
        TruncatedSizes(e.t, s.h, op.fd, e.r.value, op.oflags);
        hide OpenTrunc, OpenInode;
        var u := OpenTrunc(e.t, s.h, op.fd, e.r.value, op.oflags).t;
        assert Step(s, op).t == u;
      }
    }
  }

  lemma ExtendedSizes(t: Table, u: Table)
    requires TableInv(t) && TableInv(u) && Extends(t, u)
    ensures SizesGrow(t, u) && forall i :: i in t.nodes ==> u.nodes[i].stat.fileSize == t.nodes[i].stat.fileSize
  {
    forall i | i in t.nodes ensures i in u.nodes && t.nodes[i].stat.fileSize == u.nodes[i].stat.fileSize {
      NodeAt(t, i);
      NodeAt(u, i);
    }
    hide TableInv, NodeOk;
  }

  lemma TruncatedSizes(t: Table, h: Handle, fd: Fd, i: Inode, oflags: set<OpenFlag>)
    requires TableInv(t) && fd in h.fds && i in t.nodes
    ensures var u := OpenTrunc(t, h, fd, i, oflags).t;
            && (forall j :: j in t.nodes ==> j in u.nodes && (j != i ==> u.nodes[j] == t.nodes[j]))
            && u.nodes[i].stat.fileSize ==
                 if TRUNC in oflags && PATH_FILESTAT_SET_SIZE in h.fds[fd].base then 0 else t.nodes[i].stat.fileSize
  {
    NodeAt(t, i);
    hide TableInv;
  }

  lemma CreateDirectoryGrows(s: State, op: Op)
    requires Inv(s) && op.CreateDirectory?
    ensures SizesGrow(s.t, Step(s, op).t) && Step(s, op).h == s.h
  {
    ExtendsRefl(s.t);
    hide TableInv, KeepsNames, KeepsBytes, CreateDirs, SizesGrow, Grows;
    if CheckRight(s.h, op.fd, PATH_CREATE_DIRECTORY).Ok? && DirAt(s.t.nodes, s.h.fds[op.fd].inode) {
      CreateDirsOk(s.t, s.h.fds[op.fd].inode, op.path);
    }
    StepInv(s, op);
    KeptSizes(s.t, Step(s, op).t);
  }

  lemma CloseGrows(s: State, fd: Fd)
    requires Inv(s)
    ensures SizesGrow(s.t, Step(s, Close(fd)).t) <==> !Shrinks(s, Close(fd))
  {
    if fd in s.h.fds {
      NodeAt(s.t, s.h.fds[fd].inode);
    }
    hide TableInv;
  }

  /** A step makes no file shorter exactly when it is not one of those. */
  lemma StepSizes(s: State, op: Op)
    requires Inv(s)
    ensures SizesGrow(s.t, Step(s, op).t) <==> !Shrinks(s, op)
  {
    hide TableInv, OnlyAt, Step, NodeOk, SizesGrow, Shrinks;
    if IsByteOp(op) {
      ByteGrows(s, op);
    } else {
      match op
      case Create => CreateGrows(s);
      case Open(_, _, _, _, _) => OpenGrows(s, op);
      case CreateDirectory(_, _) => CreateDirectoryGrows(s, op); OthersNeverShrink(s, op);
      case Close(fd) => CloseGrows(s, fd);
      case _ => TableUntouched(s, op);
    }
  }

  lemma OthersNeverShrink(s: State, op: Op)
    requires op.CreateDirectory? || op.Create?
    ensures !Shrinks(s, op)
  {
  }

  lemma CreateGrows(s: State)
    requires Inv(s)
    ensures SizesGrow(s.t, Step(s, Create).t) && !Shrinks(s, Create)
  {
    CreateStep(s);
    StepInv(s, Create);
    hide TableInv, KeepsNames;
    KeptSizes(s.t, Step(s, Create).t);
  }

  lemma TableUntouched(s: State, op: Op)
    requires !IsByteOp(op) && !op.Create? && !op.Open? && !op.CreateDirectory? && !op.Close?
    ensures Step(s, op).t == s.t && SizesGrow(s.t, s.t) && !Shrinks(s, op)
    ensures OffsetsOk(s.t, s.h) ==> OffsetsOk(s.t, Step(s, op).h)
  {
  }

  /** And then every offset stays within its size. */
  lemma StepOffsets(s: State, op: Op)
    requires Inv(s) && OffsetsOk(s.t, s.h)
    requires !Shrinks(s, op)
    ensures SizesGrow(s.t, Step(s, op).t) && OffsetsOk(Step(s, op).t, Step(s, op).h)
  {
    hide TableInv, OnlyAt, Step, NodeOk, Shrinks;
    StepSizes(s, op);
    if IsByteOp(op) {
      ByteGrows(s, op);
      ByteStep(s, op);
    } else if op.Open? {
      OpenOffsets(s, op);
    } else if op.Create? {
      CreateOffsets(s);
    } else if op.CreateDirectory? {
      CreateDirectoryGrows(s, op);
    } else if op.Close? {
      CloseStep(s, op.fd);
    } else {
      TableUntouched(s, op);
    }
  }

  lemma OpenOffsets(s: State, op: Op)
    requires Inv(s) && OffsetsOk(s.t, s.h) && op.Open? && SizesGrow(s.t, Step(s, op).t)
    ensures OffsetsOk(Step(s, op).t, Step(s, op).h)
  {
    hide TableInv, Extends, Step, Walk, OnlyAt;
    var mid := OpenStep(s, op);
  }

  lemma CreateOffsets(s: State)
    requires Inv(s) && OffsetsOk(s.t, s.h) && SizesGrow(s.t, Step(s, Create).t)
    ensures OffsetsOk(Step(s, Create).t, Step(s, Create).h)
  {
    CreateStep(s);
    hide TableInv, Extends;
  }

  lemma KeptSizes(t: Table, u: Table)
    requires TableInv(t) && TableInv(u) && Grows(t, u) && KeepsBytes(t, u)
    ensures SizesGrow(t, u)
  {
    forall i | i in t.nodes ensures i in u.nodes && t.nodes[i].stat.fileSize <= u.nodes[i].stat.fileSize {
      NodeAt(t, i);
      NodeAt(u, i);
    }
    hide TableInv, NodeOk;
  }

  // ---------------------------------------------------------------------------
  // Runs.
  // ---------------------------------------------------------------------------

  ghost predicate AllOffsetsOk(w: World) {
    forall k :: 0 <= k < |w.hs| ==> OffsetsOk(w.t, w.hs[k])
  }

  ghost predicate NoShrinkingStep(w: World, es: seq<Event>)
    decreases |es|
  {
    es == [] ||
    (&& (es[0].Act? && es[0].k < |w.hs| ==> !Shrinks(State(w.t, w.hs[es[0].k]), es[0].op))
     && NoShrinkingStep(Next(w, es[0]), es[1..]))
  }

  lemma SpawnOffsets(t: Table, p: Principal, order: seq<Path>)
    requires TableInv(t)
    requires p in t.rights && IsOrder(t.rights[p], order)
    ensures SizesGrow(t, Spawn(t, p, order).t) && OffsetsOk(Spawn(t, p, order).t, Spawn(t, p, order).h)
  {
    SpawnOk(t, p, order);
    hide Agrees, TableInv, KeepsNames, KeepsBytes, Spawn;
    KeptSizes(t, Spawn(t, p, order).t);
  }

  lemma NextOffsets(w: World, e: Event)
    requires WorldInv(w) && AllOffsetsOk(w)
    requires e.Act? && e.k < |w.hs| ==> !Shrinks(State(w.t, w.hs[e.k]), e.op)
    ensures AllOffsetsOk(Next(w, e))
  {
    NextInv(w, e);
    hide TableInv, HandleInv, OffsetsOk, SizesGrow, Step, Spawn, Grows, Shrinks, IsOrder;
    var v := Next(w, e);
    if Possible(w.t, e) {
      match e
      case Act(k, op) =>
        if k < |w.hs| {
          StepOffsets(State(w.t, w.hs[k]), op);
          forall j | 0 <= j < |w.hs| && j != k ensures OffsetsOk(v.t, w.hs[j]) {
          }
        }
      case SpawnFor(p, order) =>
        if p in w.t.rights {
          SpawnOffsets(w.t, p, order);
          forall j | 0 <= j < |w.hs| ensures OffsetsOk(v.t, w.hs[j]) {
          }
        } else {
          assert Spawn(w.t, p, order) == Out(w.t, Handle(map[], FIRST_FD, map[]), Err(Access));
        }
    }
  }

  /** Across all handles of a run without a shrinking step, every offset stays within the size of its file. */
  lemma {:induction false} OffsetsInRuns(w: World, es: seq<Event>)
    requires WorldInv(w) && AllOffsetsOk(w)
    requires NoShrinkingStep(w, es)
    ensures AllOffsetsOk(Run(w, es))
    decreases |es|
  {
    if es != [] {
      NextOffsets(w, es[0]);
      NextInv(w, es[0]);
      hide WorldInv, AllOffsetsOk;
      OffsetsInRuns(Next(w, es[0]), es[1..]);
    }
  }

  // ---------------------------------------------------------------------------
  // What in-range offsets give.
  // ---------------------------------------------------------------------------

  /** `fd_read` never reads out of bounds. */
  lemma ReadInBounds(s: State, fd: Fd, bufs: seq<seq<Byte>>)
    requires Inv(s) && OffsetsOk(s.t, s.h)
    ensures !FdRead(s.t, s.h, fd, bufs).1.r.Panic?
  {
    if fd in s.h.fds {
      NodeAt(s.t, s.h.fds[fd].inode);
    }
    hide TableInv, Flatten, Scatter;
  }

  /** `fd_write` advances by exactly the bytes written, and moving the offset does not resize again. */
  lemma WriteAdvances(s: State, fd: Fd, bufs: seq<seq<Byte>>)
    requires TableInv(s.t) && OffsetOkAt(s, fd)
    requires FdWrite(s.t, s.h, fd, bufs).r.Ok?
    ensures var w := FdWrite(s.t, s.h, fd, bufs);
            && w.r.value == TotalLength(bufs)
            && w.t == FdPwrite(s.t, s.h, fd, bufs, s.h.fds[fd].offset).t
            && w.h == s.h.(fds := s.h.fds[fd := s.h.fds[fd].(offset := s.h.fds[fd].offset + TotalLength(bufs))])
  {
    hide TableInv, Flatten, WriteAt, WriteFitting;
    NodeAt(s.t, s.h.fds[fd].inode);
    FlattenNone(bufs);
  }

  lemma FlattenNone(bufs: seq<seq<Byte>>)
    ensures bufs == [] ==> Flatten(bufs) == []
  {
  }

  /** Pouring data into buffers in order is one contiguous copy over their concatenation. */
  lemma {:induction false} ScatterContiguous(bufs: seq<seq<Byte>>, data: seq<Byte>)
    ensures var n := Min(|Flatten(bufs)|, |data|);
            Flatten(Scatter(bufs, data)) == data[..n] + Flatten(bufs)[n..]
    ensures forall k :: 0 <= k < |bufs| ==> |Scatter(bufs, data)[k]| == |bufs[k]|
    decreases |bufs|
  {
    if bufs != [] {
      var k := Min(|bufs[0]|, |data|);
      ScatterContiguous(bufs[1..], data[k..]);
      var first, others := data[..k] + bufs[0][k..], Scatter(bufs[1..], data[k..]);
      var all: seq<seq<Byte>> := [first] + others;
      assert all == Scatter(bufs, data) && all[1..] == others;
      PourStep(bufs[0], Flatten(bufs[1..]), data);
      hide Scatter;
      forall j | 0 <= j < |bufs| ensures |all[j]| == |bufs[j]| {
        assert j > 0 ==> bufs[1..][j - 1] == bufs[j];
      }
    }
  }

  lemma PourStep(b: seq<Byte>, more: seq<Byte>, data: seq<Byte>)
    ensures var k, n := Min(|b|, |data|), Min(|b + more|, |data|);
            var m := Min(|more|, |data[k..]|);
            (data[..k] + b[k..]) + (data[k..][..m] + more[m..]) == data[..n] + (b + more)[n..]
  {
    var k, n := Min(|b|, |data|), Min(|b + more|, |data|);
    if |data| <= |b| {
      assert data[k..] == [] && data[..k] == data;
    } else {
      assert b[k..] == [] && (b + more)[n..] == more[n - k..];
      assert data[..n] == data[..k] + data[k..][..n - k];
    }
  }

  /** `fd_pread` fills the buffers, in order, with the bytes from the offset on, and touches nothing after them. */
  lemma PreadContiguous(t: Table, h: Handle, fd: Fd, bufs: seq<seq<Byte>>, offset: nat)
    requires fd in h.fds && h.fds[fd].inode in t.nodes && !DirAt(t.nodes, h.fds[fd].inode) && FD_READ in h.fds[fd].base
    requires offset <= |t.nodes[h.fds[fd].inode].data.bytes|
    ensures var (filled, r) := FdPread(t, h, fd, bufs, offset);
            var n := Min(|Flatten(bufs)|, |t.nodes[h.fds[fd].inode].data.bytes| - offset);
            && r == Ok(n) && |filled| == |bufs| && (forall k :: 0 <= k < |bufs| ==> |filled[k]| == |bufs[k]|)
            && Flatten(filled) == t.nodes[h.fds[fd].inode].data.bytes[offset..offset + n] + Flatten(bufs)[n..]
  {
    hide Scatter, Flatten;
    var b := t.nodes[h.fds[fd].inode].data.bytes;
    if bufs == [] {
      NoBuffers();
      assert b[offset..offset] == [];
    } else {
      ScatterContiguous(bufs, b[offset..]);
      var n := Min(|Flatten(bufs)|, |b| - offset);
      assert b[offset..][..n] == b[offset..offset + n];
    }
  }

  lemma NoBuffers()
    ensures Flatten<Byte>([]) == []
  {
  }

  lemma ScatterOne(into: seq<Byte>, data: seq<Byte>)
    requires |into| <= |data|
    ensures Scatter([into], data) == [data[..|into|]] && TotalLength([into]) == |into|
  {
    var k := |into|;
    assert [into][1..] == [] && into[k..] == [] && data[..k] + into[k..] == data[..k];
    assert Scatter([], data[k..]) == [];
    FlattenSingle(into);
  }

  lemma ReadBack(s: State, fd: Fd, into: seq<Byte>, data: seq<Byte>)
    requires Inv(s)
    requires fd in s.h.fds && FD_READ in s.h.fds[fd].base && FD_SEEK in s.h.fds[fd].base
               && !DirAt(s.t.nodes, s.h.fds[fd].inode)
    requires |into| == |data|
    requires var b := s.t.nodes[s.h.fds[fd].inode].data.bytes; var o := s.h.fds[fd].offset;
             o + |data| <= |b| && b[o..][..|data|] == data
    ensures var (filled, r) := FdRead(s.t, s.h, fd, [into]);
            filled == [data] && r.r == Ok(|data|) && r.t == s.t
            && r.h == InstallFd(s.h, fd, s.h.fds[fd].(offset := s.h.fds[fd].offset + |data|))
  {
    var e := s.h.fds[fd];
    NodeAt(s.t, e.inode);
    assert s.t.nodes[e.inode].stat.fileSize == |s.t.nodes[e.inode].data.bytes| < U63;
    ScatterOne(into, s.t.nodes[e.inode].data.bytes[e.offset..]);
    hide TableInv, Scatter, Flatten, NodeOk;
    assert FdPread(s.t, s.h, fd, [into], e.offset) == ([data], Ok(|data|));
  }

  /** Writing, seeking back by as much and reading as much returns what was written. */
  lemma WriteSeekRead(s: State, fd: Fd, bufs: seq<seq<Byte>>, into: seq<Byte>)
    requires Inv(s) && OffsetsOk(s.t, s.h)
    requires FdWrite(s.t, s.h, fd, bufs).r.Ok? && bufs != []
    requires FD_READ in s.h.fds[fd].base
    requires |into| == TotalLength(bufs)
    ensures var w := FdWrite(s.t, s.h, fd, bufs);
            var k := FdSeek(w.t, w.h, fd, -(|into| as int), Current);
            var (filled, r) := FdRead(k.t, k.h, fd, [into]);
            k.r.Ok? && filled == [Flatten(bufs)] && r.r == Ok(|into|) && r.t == w.t
  {
    hide Flatten, Scatter, WriteAt, TableInv, NodeOk, OffsetsOk, FdRead;
    WroteAt(s, fd, bufs);
    var e := s.h.fds[fd];
    var w := FdWrite(s.t, s.h, fd, bufs);
    StepInv(s, Write(fd, bufs));
    hide FdWrite;
    var k := FdSeek(w.t, w.h, fd, -(|into| as int), Current);
    SeekBack(w.t, w.h, fd, |into|);
    hide FdSeek, FdPwrite;
    StepInv(After(w), Seek(fd, -(|into| as int), Current));
    ReadBack(After(k), fd, into, Flatten(bufs));
  }

  lemma SeekBack(t: Table, h: Handle, fd: Fd, n: nat)
    requires fd in h.fds && FD_SEEK in h.fds[fd].base && h.fds[fd].inode in t.nodes && n <= h.fds[fd].offset < U63
    requires t.nodes[h.fds[fd].inode].stat.fileSize >= h.fds[fd].offset
    ensures var o := h.fds[fd].offset - n;
            FdSeek(t, h, fd, -(n as int), Current) == Out(t, InstallFd(h, fd, h.fds[fd].(offset := o)), Ok(o))
  {
  }

  /** What a successful write leaves: the data at the old offset of the file, and the offset behind it. */
  lemma WroteAt(s: State, fd: Fd, bufs: seq<seq<Byte>>)
    requires Inv(s) && OffsetsOk(s.t, s.h) && bufs != []
    requires FdWrite(s.t, s.h, fd, bufs).r.Ok?
    ensures var w, e, data := FdWrite(s.t, s.h, fd, bufs), s.h.fds[fd], Flatten(bufs);
            && FD_SEEK in e.base && e.inode in w.t.nodes && !DirAt(w.t.nodes, e.inode)
            && w.h == InstallFd(s.h, fd, e.(offset := e.offset + |data|)) && e.offset + |data| < U63
            && var b := w.t.nodes[e.inode].data.bytes;
               e.offset + |data| <= |b| == w.t.nodes[e.inode].stat.fileSize && b[e.offset..][..|data|] == data
  {
    hide Flatten, TableInv, NodeOk, OffsetsOk;
    OffsetAt(s, fd);
    WriteAdvances(s, fd, bufs);
    hide FdWrite;
  }

  lemma OffsetAt(s: State, fd: Fd)
    requires Inv(s) && OffsetsOk(s.t, s.h) && fd in s.h.fds
    ensures OffsetOkAt(s, fd)
  {
    hide TableInv;
  }
}
