/** Laws that relate several operations of execution-engine/src/fs.rs to one another. */
module VfsLaws {
  import opened Common
  import opened Paths
  import opened Policy
  import opened Inodes
  import opened Vfs
  import opened VfsSteps
  import opened VfsFiles

  // ---------------------------------------------------------------------------
  // Seeking.
  // ---------------------------------------------------------------------------

  /** Within the file, the three origins are three names for one move. */
  lemma SeekOrigins(t: Table, h: Handle, fd: Fd, n: nat)
    requires fd in h.fds && h.fds[fd].inode in t.nodes && h.fds[fd].offset < U63
    requires n <= t.nodes[h.fds[fd].inode].stat.fileSize < U63
    ensures var size := t.nodes[h.fds[fd].inode].stat.fileSize;
            FdSeek(t, h, fd, n, Start) == FdSeek(t, h, fd, n - h.fds[fd].offset, Current) ==
                FdSeek(t, h, fd, n - size, End)
    ensures FD_SEEK in h.fds[fd].base ==>
              FdSeek(t, h, fd, n, Start) == Out(t, InstallFd(h, fd, h.fds[fd].(offset := n)), Ok(n))
  {
  }

  datatype Move = Move(delta: I64, whence: Whence)

  /** Where a move leads in a file of this size. */
  function Aim(size: nat, offset: nat, m: Move): int {
    m.delta + match m.whence case Current => offset case End => size case Start => 0
  }

  /** All moves stay within the file. */
  predicate Within(size: nat, offset: nat, ms: seq<Move>)
    decreases |ms|
  {
    ms == [] || (0 <= Aim(size, offset, ms[0]) <= size && Within(size, Aim(size, offset, ms[0]), ms[1..]))
  }

  function Last(size: nat, offset: nat, ms: seq<Move>): nat
    requires Within(size, offset, ms)
    decreases |ms|
  {
    if ms == [] then offset else Last(size, Aim(size, offset, ms[0]), ms[1..])
  }

  function Seeks(fd: Fd, ms: seq<Move>): seq<Op> {
    if ms == [] then [] else [Seek(fd, ms[0].delta, ms[0].whence)] + Seeks(fd, ms[1..])
  }

  /** Any number of seeks within the file, from any origins: only the offset changes, to where the last one leads. */
  lemma {:induction false} SeeksWithin(s: State, fd: Fd, ms: seq<Move>)
    requires Inv(s) && fd in s.h.fds && FD_SEEK in s.h.fds[fd].base
    requires s.h.fds[fd].inode in s.t.nodes && s.h.fds[fd].offset <= s.t.nodes[s.h.fds[fd].inode].stat.fileSize
    requires Within(s.t.nodes[s.h.fds[fd].inode].stat.fileSize, s.h.fds[fd].offset, ms)
    ensures var size := s.t.nodes[s.h.fds[fd].inode].stat.fileSize;
            RunOps(s, Seeks(fd, ms)) ==
              State(s.t, InstallFd(s.h, fd, s.h.fds[fd].(offset := Last(size, s.h.fds[fd].offset, ms))))
    decreases |ms|
  {
    hide TableInv, FdSeek, Step, RunOps, Seeks;
    var e := s.h.fds[fd];
    var size := s.t.nodes[e.inode].stat.fileSize;
    RunSeeks(s, fd, ms);
    if ms == [] {
      assert s.h.fds[fd := e] == s.h.fds;
    } else {
      var n := Aim(size, e.offset, ms[0]);
      SeekStep(s, fd, ms[0], n);
      var u := Step(s, Seek(fd, ms[0].delta, ms[0].whence));
      SeeksWithin(u, fd, ms[1..]);
      var l := Last(size, e.offset, ms);
      assert s.h.fds[fd := e.(offset := n)][fd := e.(offset := l)] == s.h.fds[fd := e.(offset := l)];
    }
  }

  lemma RunSeeks(s: State, fd: Fd, ms: seq<Move>)
    ensures RunOps(s, Seeks(fd, ms)) ==
              if ms == [] then s
              else RunOps(Step(s, Seek(fd, ms[0].delta, ms[0].whence)), Seeks(fd, ms[1..]))
  {
    hide Step;
    if ms != [] {
      assert Seeks(fd, ms)[1..] == Seeks(fd, ms[1..]);
    }
  }

  lemma SeekStep(s: State, fd: Fd, m: Move, n: nat)
    requires Inv(s) && fd in s.h.fds && FD_SEEK in s.h.fds[fd].base && s.h.fds[fd].inode in s.t.nodes
    requires var size := s.t.nodes[s.h.fds[fd].inode].stat.fileSize;
             s.h.fds[fd].offset <= size && n == Aim(size, s.h.fds[fd].offset, m) <= size
    ensures Step(s, Seek(fd, m.delta, m.whence)) == State(s.t, InstallFd(s.h, fd, s.h.fds[fd].(offset := n)))
    ensures Inv(Step(s, Seek(fd, m.delta, m.whence)))
  {
    hide TableInv, FdSeek, Step;
    NodeAt(s.t, s.h.fds[fd].inode);
    SeekOrigins(s.t, s.h, fd, n);
    StepIs(s, Seek(fd, m.delta, m.whence));
    StepInv(s, Seek(fd, m.delta, m.whence));
  }

  lemma ResizeTwice(b: seq<Byte>, x: nat, y: nat)
    requires |b| <= x <= y
    ensures Resize(Resize(b, x), y) == Resize(b, y)
  {
  }

  /** A move forward to `n`, which grows a shorter file. */
  function Sought(t: Table, h: Handle, fd: Fd, n: nat): Out<nat>
    requires fd in h.fds && h.fds[fd].inode in t.nodes
  {
    var grown := if n > t.nodes[h.fds[fd].inode].stat.fileSize then FilestatSetSize(t, h, fd, n) else Out(t, h, Ok(()));
    match grown.r
    case Ok(_) => Out(grown.t, InstallFd(h, fd, h.fds[fd].(offset := n)), Ok(n))
    case Err(x) => Out(grown.t, h, Err(x))
    case Panic => Out(grown.t, h, Panic)
  }

  lemma SeekIsSought(t: Table, h: Handle, fd: Fd, d: nat)
    requires fd in h.fds && h.fds[fd].inode in t.nodes && FD_SEEK in h.fds[fd].base && d < U63
    ensures FdSeek(t, h, fd, d, Current) == if h.fds[fd].offset + d >= U64 then Out(t, h, Panic)
              else Sought(t, h, fd, h.fds[fd].offset + d)
  {
    hide FilestatSetSize;
  }

  /** A move succeeds within the file, or with the right to lengthen a file to less than 2^63 bytes. */
  lemma SoughtIs(s: State, fd: Fd, n: nat)
    requires Inv(s) && fd in s.h.fds
    ensures var e, o := s.h.fds[fd], Sought(s.t, s.h, fd, n);
            var g := InstallFd(s.h, fd, e.(offset := n));
            && e.inode in s.t.nodes
            && (if n <= s.t.nodes[e.inode].stat.fileSize then o == Out(s.t, g, Ok(n))
                else if FD_FILESTAT_SET_SIZE in e.base && !DirAt(s.t.nodes, e.inode) && n < U63 then
                  && |s.t.nodes[e.inode].data.bytes| == s.t.nodes[e.inode].stat.fileSize
                  && o == Out(SetBytes(s.t, e.inode, Resize(s.t.nodes[e.inode].data.bytes, n)), g, Ok(n))
                else !o.r.Ok?)
  {
    hide TableInv, Resize;
    NodeAt(s.t, s.h.fds[fd].inode);
  }

  lemma SoughtInv(s: State, fd: Fd, n: nat)
    requires Inv(s) && fd in s.h.fds
    ensures Inv(After(Sought(s.t, s.h, fd, n)))
  {
    hide TableInv, OnlyAt;
    SetSizeEffect(s, fd, n);
    hide FilestatSetSize;
  }

  lemma SetBytesTwice(t: Table, i: Inode, a: seq<Byte>, b: seq<Byte>)
    requires i in t.nodes && !DirAt(t.nodes, i)
    ensures SetBytes(SetBytes(t, i, a), i, b) == SetBytes(t, i, b)
  {
  }

  lemma SoughtTwice(s: State, fd: Fd, x: nat, y: nat)
    requires Inv(s) && fd in s.h.fds && x <= y
    ensures Sought(s.t, s.h, fd, y).r.Ok? ==> Sought(s.t, s.h, fd, x).r.Ok?
    ensures var first := Sought(s.t, s.h, fd, x);
            first.r.Ok? ==>
              && first.r.value == x && fd in first.h.fds && first.h.fds[fd] == s.h.fds[fd].(offset := x)
              && s.h.fds[fd].inode in first.t.nodes
              && (Sought(first.t, first.h, fd, y).r.Ok? <==> Sought(s.t, s.h, fd, y).r.Ok?)
              && (Sought(s.t, s.h, fd, y).r.Ok? ==> Sought(first.t, first.h, fd, y) == Sought(s.t, s.h, fd, y))
  {
    hide TableInv, Resize, Sought, NodeOk;
    var e := s.h.fds[fd];
    var size := s.t.nodes[e.inode].stat.fileSize;
    SoughtIs(s, fd, x);
    SoughtIs(s, fd, y);
    if Sought(s.t, s.h, fd, x).r.Ok? {
      var first := After(Sought(s.t, s.h, fd, x));
      SoughtInv(s, fd, x);
      SoughtIs(first, fd, y);
      assert s.h.fds[fd := e.(offset := x)][fd := e.(offset := y)] == s.h.fds[fd := e.(offset := y)];
      if size < x {
        ResizeTwice(s.t.nodes[e.inode].data.bytes, x, y);
        SetBytesTwice(s.t, e.inode, Resize(s.t.nodes[e.inode].data.bytes, x), Resize(s.t.nodes[e.inode].data.bytes, y));
      }
    }
  }

  /** Two seeks forward are one: they succeed together and leave the same table and handle. */
  lemma SeekForwardTwice(s: State, fd: Fd, a: nat, b: nat)
    requires Inv(s) && a + b < U63
    ensures var one, first := FdSeek(s.t, s.h, fd, a + b, Current), FdSeek(s.t, s.h, fd, a, Current);
            && (one.r.Ok? <==> first.r.Ok? && FdSeek(first.t, first.h, fd, b, Current).r.Ok?)
            && (one.r.Ok? ==> FdSeek(first.t, first.h, fd, b, Current) == one)
  {
    hide TableInv, Sought;
    if fd in s.h.fds && FD_SEEK in s.h.fds[fd].base {
      var n := s.h.fds[fd].offset;
      SeekIsSought(s.t, s.h, fd, a + b);
      SeekIsSought(s.t, s.h, fd, a);
      if n + a < U64 {
        SoughtTwice(s, fd, n + a, n + a + b);
        var first := Sought(s.t, s.h, fd, n + a);
        if first.r.Ok? {
          SeekIsSought(first.t, first.h, fd, b);
        }
      }
      hide FdSeek;
    }
  }

  // ---------------------------------------------------------------------------
  // Descriptors.
  // ---------------------------------------------------------------------------

  /** Renumbering moves one entry and nothing else, and renumbering back undoes it. */
  lemma RenumberBack(t: Table, h: Handle, a: Fd, b: Fd)
    ensures var o := FdRenumber(t, h, a, b);
            && (o.r.Ok? <==> a in h.fds && b !in h.fds)
            && (o.r.Ok? ==> o.h.fds.Keys == h.fds.Keys - {a} + {b} && o.h.fds[b] == h.fds[a])
            && (forall fd :: fd in h.fds && fd != a ==> fd in o.h.fds && o.h.fds[fd] == h.fds[fd])
            && (o.r.Ok? ==> FdRenumber(o.t, o.h, b, a) == Out(t, h, Ok(())))
  {
    var o := FdRenumber(t, h, a, b);
    if o.r.Ok? {
      assert FdRenumber(o.t, o.h, b, a).h.fds == h.fds;
    }
  }

  function Renumbers(fds: seq<Fd>): seq<Op>
    requires fds != []
  {
    if |fds| == 1 then [] else [Renumber(fds[0], fds[1])] + Renumbers(fds[1..])
  }

  /** Each number is free when its turn comes. */
  predicate Movable(h: Handle, fds: seq<Fd>)
    requires fds != []
  {
    fds[0] in h.fds && forall k :: 0 < k < |fds| ==> fds[k] !in h.fds - {fds[0]} && fds[k] != fds[k - 1]
  }

  /** A descriptor moved from number to number ends at the last one, and every other descriptor stays as it was. */
  lemma {:induction false} RenumberAlong(s: State, fds: seq<Fd>)
    requires fds != [] && Movable(s.h, fds)
    ensures RunOps(s, Renumbers(fds)) ==
              State(s.t, s.h.(fds := (s.h.fds - {fds[0]})[fds[|fds| - 1] := s.h.fds[fds[0]]]))
    decreases |fds|
  {
    if |fds| == 1 {
      assert (s.h.fds - {fds[0]})[fds[0] := s.h.fds[fds[0]]] == s.h.fds;
    } else {
      RenumberBack(s.t, s.h, fds[0], fds[1]);
      var u := Step(s, Renumber(fds[0], fds[1]));
      assert u.h.fds - {fds[1]} == s.h.fds - {fds[0]};
      assert Renumbers(fds)[1..] == Renumbers(fds[1..]);
      RenumberAlong(u, fds[1..]);
    }
  }

  // ---------------------------------------------------------------------------
  // Sizes.
  // ---------------------------------------------------------------------------

  /** When setting the size succeeds, and what it keeps: the bytes below both sizes, zeros above the old one. */
  lemma SetSizeKeeps(t: Table, h: Handle, fd: Fd, size: nat)
    requires fd in h.fds && h.fds[fd].inode in t.nodes
    ensures var o, i := FilestatSetSize(t, h, fd, size), h.fds[fd].inode;
            && (o.r.Ok? <==> FD_FILESTAT_SET_SIZE in h.fds[fd].base && !DirAt(t.nodes, i) && size < U63)
            && (o.r.Ok? ==>
                  && FilestatGet(o.t, o.h, fd).Ok? && FilestatGet(o.t, o.h, fd).value.fileSize == size
                  && var b, c := t.nodes[i].data.bytes, o.t.nodes[i].data.bytes;
                     |c| == size && forall k :: 0 <= k < size ==> c[k] == if k < |b| then b[k] else 0)
  {
  }

  function SetSizes(fd: Fd, sizes: seq<nat>): seq<Op> {
    if sizes == [] then [] else [SetSize(fd, sizes[0])] + SetSizes(fd, sizes[1..])
  }

  function Lowest(n: nat, sizes: seq<nat>): nat {
    if sizes == [] then n else Lowest(Min(n, sizes[0]), sizes[1..])
  }

  lemma {:induction false} LowestMin(a: nat, b: nat, sizes: seq<nat>)
    ensures Lowest(Min(a, b), sizes) == Min(a, Lowest(b, sizes))
  {
    if sizes != [] {
      assert Min(Min(a, b), sizes[0]) == Min(a, Min(b, sizes[0]));
      LowestMin(a, Min(b, sizes[0]), sizes[1..]);
    }
  }

  /** However often a size is set, exactly the bytes below the lowest size on the way are kept; the rest is zeros. */
  lemma {:induction false} SetSizesKeep(s: State, fd: Fd, sizes: seq<nat>)
    requires Inv(s) && fd in s.h.fds && FD_FILESTAT_SET_SIZE in s.h.fds[fd].base
    requires !DirAt(s.t.nodes, s.h.fds[fd].inode) && forall k :: 0 <= k < |sizes| ==> sizes[k] < U63
    ensures var u, i := RunOps(s, SetSizes(fd, sizes)), s.h.fds[fd].inode;
            && u.h == s.h && i in u.t.nodes && !DirAt(u.t.nodes, i)
            && var b, c := s.t.nodes[i].data.bytes, u.t.nodes[i].data.bytes;
               && |c| == (if sizes == [] then |b| else sizes[|sizes| - 1]) && Lowest(|b|, sizes) <= |b|
               && forall k :: 0 <= k < |c| ==> c[k] == if k < Lowest(|b|, sizes) then b[k] else 0
    decreases |sizes|
  {
    if sizes != [] {
      SetSizeKeeps(s.t, s.h, fd, sizes[0]);
      var op := SetSize(fd, sizes[0]);
      StepInv(s, op);
      hide TableInv, FilestatSetSize;
      var u := Step(s, op);
      SetSizesKeep(u, fd, sizes[1..]);
      assert SetSizes(fd, sizes)[1..] == SetSizes(fd, sizes[1..]);
      LowestMin(|s.t.nodes[s.h.fds[fd].inode].data.bytes|, sizes[0], sizes[1..]);
    }
  }

  // ---------------------------------------------------------------------------
  // Creating.
  // ---------------------------------------------------------------------------

  /** Creating directories below `last` changes no other node that was there. */
  lemma {:induction false} CreateDirsLocal(t: Table, last: Inode, path: Path)
    requires TableInv(t) && DirAt(t.nodes, last)
    requires CreateDirs(t, last, path).r.Ok?
    ensures var u := CreateDirs(t, last, path).t;
            && (forall j :: j in t.nodes && j != last ==> j in u.nodes && u.nodes[j] == t.nodes[j])
            && Walk(u.nodes, last, path).Ok?
            && (path != [] ==> EmptyDirectory(u.nodes, Walk(u.nodes, last, path).value))
    decreases |path|
  {
    hide TableInv, NodeOk, Extends, Grows, KeepsBytes, KeepsNames;
    if path != [] {
      var c := path[0];
      NewInodeOk(t);
      LookupIn(t, last, c);
      var alloc := NewInode(t);
      var i := alloc.r.value;
      AddDirInv(alloc.t, last, c, i);
      AddDirNames(alloc.t, last, c, i);
      var added := AddDir(alloc.t, last, c, i).t;
      assert forall j :: j in t.nodes && j != last ==> j in added.nodes && added.nodes[j] == t.nodes[j];
      CreateDirsLocal(added, i, path[1..]);
      var u := CreateDirs(added, i, path[1..]).t;
      assert u.nodes[last] == added.nodes[last];
      assert Walk(u.nodes, last, path) == Walk(u.nodes, i, path[1..]);
    }
  }

  /** A successful `path_create_directory`: a path that did not resolve now leads to a new directory without names. */
  lemma CreatedDirectory(s: State, fd: Fd, path: Path)
    requires Inv(s) && PathCreateDirectory(s.t, s.h, fd, path).r.Ok?
    ensures fd in s.h.fds
    ensures var u, parent := PathCreateDirectory(s.t, s.h, fd, path).t, s.h.fds[fd].inode;
            && !Walk(s.t.nodes, parent, path).Ok? && Walk(u.nodes, parent, path).Ok?
            && EmptyDirectory(u.nodes, Walk(u.nodes, parent, path).value)
            && forall j :: j in s.t.nodes && j != parent ==> j in u.nodes && u.nodes[j] == s.t.nodes[j]
  {
    hide TableInv;
    CreateDirsLocal(s.t, s.h.fds[fd].inode, path);
  }

  /** Exclusive creation happens once: after it, the same call on that directory fails, through any handle. */
  lemma ExclusiveOnce(s: State, op: Op, g: Handle, fd: Fd, base: Rights, inheriting: Rights)
    requires Inv(s) && op.Open? && EXCL in op.oflags
    requires PathOpen(s.t, s.h, op.fd, op.path, op.oflags, op.base, op.inheriting).r.Ok?
    requires op.fd in s.h.fds && fd in g.fds && g.fds[fd].inode == s.h.fds[op.fd].inode && PATH_OPEN in g.fds[fd].base
    ensures var o := PathOpen(s.t, s.h, op.fd, op.path, op.oflags, op.base, op.inheriting);
            && CREATE in op.oflags && !Walk(s.t.nodes, s.h.fds[op.fd].inode, op.path).Ok?
            && PathOpen(o.t, g, fd, op.path, op.oflags, base, inheriting) == Out(o.t, g, Err(Exist))
            && var i := o.h.fds[o.r.value].inode; !DirAt(o.t.nodes, i) && o.t.nodes[i].data.bytes == []
  {
    hide TableInv, Walk, AddFile;
    OpenedFile(s, op);
    StepInv(s, op);
    StepIs(s, op);
    NoPanic(s.t.nodes, s.h.fds[op.fd].inode, op.path);
    var o := PathOpen(s.t, s.h, op.fd, op.path, op.oflags, op.base, op.inheriting);
    assert Grows(s.t, o.t);
  }
}
