/**
 * One capability handle over the shared inode table, and each public operation as a function
 * of table and handle (`FdEntry` and `FileSystem` in execution-engine/src/fs.rs).
 */
module Vfs {
  import opened Common
  import opened Paths
  import opened Policy
  import opened Inodes

  type Fd = nat

  datatype FdEntry = FdEntry(inode: Inode, fileType: FileType, base: Rights, inheriting: Rights, offset: nat)
  datatype Handle = Handle(fds: map<Fd, FdEntry>, nextFd: nat, prestat: map<Fd, Path>)

  datatype Whence = Current | End | Start
  datatype OpenFlag = CREATE | DIRECTORY | EXCL | TRUNC

  /** An operation on one handle: the table and handle it leaves behind, and its result. */
  datatype Out<+T> = Out(t: Table, h: Handle, r: Result<T>)

  const FIRST_FD: Fd := 3

  // ---------------------------------------------------------------------------
  // Handle-only helpers.
  // ---------------------------------------------------------------------------

  function CheckRight(h: Handle, fd: Fd, right: Right): Result<()> {
    if fd !in h.fds then Err(BadF)
    else if right in h.fds[fd].base then Ok(())
    else Err(Access)
  }

  /** `new_fd`: numbers from 2^31 on are never handed out. */
  function NewFd(h: Handle): (Handle, Result<Fd>) {
    if h.nextFd >= U31 || h.nextFd in h.fds then (h, Err(NFile))
    else (h.(nextFd := h.nextFd + 1), Ok(h.nextFd))
  }

  function InstallFd(h: Handle, fd: Fd, e: FdEntry): Handle {
    h.(fds := h.fds[fd := e])
  }

  // ---------------------------------------------------------------------------
  // Spawning a handle for a principal.
  // ---------------------------------------------------------------------------

  /** `order` lists the pre-opened paths in the order the hash map is iterated. */
  ghost predicate IsOrder(row: RightsMap, order: seq<Path>) {
    Distinct(order) && forall p :: p in order <==> p in row && !IsStdPath(p)
  }

  function StdFds(t: Table, row: RightsMap): map<Fd, FdEntry> {
    (if STDIN in row then map[0 := FdEntry(t.stdin, RegularFile, row[STDIN], row[STDIN], 0)] else map[])
    + (if STDOUT in row then map[1 := FdEntry(t.stdout, RegularFile, row[STDOUT], row[STDOUT], 0)] else map[])
    + (if STDERR in row then map[2 := FdEntry(t.stderr, RegularFile, row[STDERR], row[STDERR], 0)] else map[])
  }

  /** The inode of a pre-opened path, its missing directories created below the root. */
  function PreopenInode(t: Table, path: Path): Eff<Inode> {
    if StripRoot(path) == [] then Eff(t, Ok(ROOT)) else AddAllDir(t, ROOT, StripRoot(path))
  }

  /** One round of the pre-open loop. */
  function PreopenOne(t: Table, h: Handle, path: Path, rights: Rights, fd: Fd): Out<()> {
    var inode := PreopenInode(t, path);
    match inode.r
    case Ok(i) => Out(inode.t,
        InstallFd(h, fd, FdEntry(i, Unknown, rights, rights, 0)).(prestat := h.prestat[fd := path]), Ok(()))
    case Err(e) => Out(inode.t, h, Err(e))
    case Panic => Out(inode.t, h, Panic)
  }

  /** The first `n` rounds of the pre-open loop. */
  function Preopen(t: Table, row: RightsMap, order: seq<Path>, n: nat): Out<()>
    requires n <= |order| && forall k :: 0 <= k < n ==> order[k] in row
  {
    if n == 0 then Out(t, Handle(StdFds(t, row), FIRST_FD, map[]), Ok(())) else
    var prev := Preopen(t, row, order, n - 1);
    if !prev.r.Ok? then prev else PreopenOne(prev.t, prev.h, order[n - 1], row[order[n - 1]], FIRST_FD + n - 1)
  }

  /** `spawn`: the only way to get a handle for a principal. */
  function Spawn(t: Table, p: Principal, order: seq<Path>): Out<()>
    requires p in t.rights ==> IsOrder(t.rights[p], order)
  {
    if p !in t.rights then Out(t, Handle(map[], FIRST_FD, map[]), Err(Access)) else
    var row := t.rights[p];
    var done := Preopen(t, row, order, |order|);
    if done.r.Ok? then Out(done.t, done.h.(nextFd := FIRST_FD + |row|), Ok(())) else done
  }

  // ---------------------------------------------------------------------------
  // Descriptor operations.
  // ---------------------------------------------------------------------------

  /** `fd_close`: a service file is cleared. */
  function FdClose(t: Table, h: Handle, fd: Fd): Out<()> {
    if fd !in h.fds then Out(t, h, Err(BadF)) else
    var i := h.fds[fd].inode;
    if i !in t.nodes then Out(t, h, Err(NoEnt)) else
    var t' := if t.nodes[i].data.Service? then TruncateFile(t, i).t else t;
    Out(t', h.(fds := h.fds - {fd}), Ok(()))
  }

  /** `fd_fdstat_set_rights`: it changes a copy of the status only. */
  function FdstatSetRights(t: Table, h: Handle, fd: Fd, base: Rights, inheriting: Rights): Out<()> {
    Out(t, h, if fd in h.fds then Ok(()) else Err(BadF))
  }

  function FilestatGet(t: Table, h: Handle, fd: Fd): Result<FileStat> {
    if fd !in h.fds then Err(BadF)
    else if h.fds[fd].inode !in t.nodes then Err(NoEnt)
    else Ok(t.nodes[h.fds[fd].inode].stat)
  }

  function FilestatSetSize(t: Table, h: Handle, fd: Fd, size: nat): Out<()> {
    var c := CheckRight(h, fd, FD_FILESTAT_SET_SIZE);
    if !c.Ok? then Out(t, h, c) else
    var e := ResizeFile(t, h.fds[fd].inode, size);
    Out(e.t, h, e.r)
  }

  function TotalLength(bufs: seq<seq<Byte>>): nat {
    |Flatten(bufs)|
  }

  /** The buffers after `data` has been poured into them in order. */
  function Scatter(bufs: seq<seq<Byte>>, data: seq<Byte>): (r: seq<seq<Byte>>)
    ensures |r| == |bufs|
    decreases |bufs|
  {
    if bufs == [] then [] else
    var k := Min(|bufs[0]|, |data|);
    [data[..k] + bufs[0][k..]] + Scatter(bufs[1..], data[k..])
  }

  /** `fd_pread` as one contiguous read; reading from beyond the end panics, reading into no buffer never fails. */
  function FdPread(t: Table, h: Handle, fd: Fd, bufs: seq<seq<Byte>>, offset: nat): (seq<seq<Byte>>, Result<nat>) {
    var c := CheckRight(h, fd, FD_READ);
    if c.Err? then (bufs, Err(c.error)) else
    var i := h.fds[fd].inode;
    if i !in t.nodes then (bufs, Err(NoEnt))
    else if bufs == [] then (bufs, Ok(0))
    else if t.nodes[i].data.Directory? then (bufs, Err(IsDir))
    else if offset > |t.nodes[i].data.bytes| then (bufs, Panic)
    else
      var rest := t.nodes[i].data.bytes[offset..];
      (Scatter(bufs, rest), Ok(Min(TotalLength(bufs), |rest|)))
  }

  /** `fd_pwrite` as one contiguous, zero-padded write, unless it panics; writing no buffer changes nothing. */
  function FdPwrite(t: Table, h: Handle, fd: Fd, bufs: seq<seq<Byte>>, offset: nat): Out<nat> {
    var c := CheckRight(h, fd, FD_WRITE);
    if c.Err? then Out(t, h, Err(c.error)) else
    var i := h.fds[fd].inode;
    if i !in t.nodes then Out(t, h, Err(NoEnt))
    else if bufs == [] then Out(t, h, Ok(0))
    else
      var w := WriteBytes(t, i, Flatten(bufs), offset);
      Out(if w.r.Panic? then WriteFitting(t, i, bufs, offset) else w.t, h, w.r)
  }

  /** What a gathering write leaves when it panics: the buffers before the first one that does not fit are written. */
  function WriteFitting(t: Table, i: Inode, bufs: seq<seq<Byte>>, offset: nat): Table
    decreases |bufs|
  {
    if bufs == [] then t else
    var w := WriteBytes(t, i, bufs[0], offset);
    if w.r.Ok? then WriteFitting(w.t, i, bufs[1..], offset + |bufs[0]|) else t
  }

  function SeekBase(t: Table, e: FdEntry, whence: Whence): nat
    requires e.inode in t.nodes
  {
    match whence
    case Current => e.offset
    case End => t.nodes[e.inode].stat.fileSize
    case Start => 0
  }

  /** `fd_seek`: seeking past the recorded size first extends the file, which needs the right to do so. */
  function FdSeek(t: Table, h: Handle, fd: Fd, delta: I64, whence: Whence): Out<nat> {
    var c := CheckRight(h, fd, FD_SEEK);
    if c.Err? then Out(t, h, Err(c.error)) else
    var e := h.fds[fd];
    if e.inode !in t.nodes then Out(t, h, Err(NoEnt)) else
    var target := SeekBase(t, e, whence) + delta;
    if delta >= 0 then
      if target >= U64 then Out(t, h, Panic) else
      var grown := if target > t.nodes[e.inode].stat.fileSize then FilestatSetSize(t, h, fd, target)
          else Out(t, h, Ok(()));
      match grown.r
      case Ok(_) => Out(grown.t, InstallFd(h, fd, e.(offset := target)), Ok(target))
      case Err(x) => Out(grown.t, h, Err(x))
      case Panic => Out(grown.t, h, Panic)
    else if delta == -U63 then Out(t, h, Panic)
    else if target < 0 then Out(t, h, Err(SPipe))
    else Out(t, InstallFd(h, fd, e.(offset := target)), Ok(target))
  }

  /** Moves the offset past `n` transferred bytes and reports `n`. */
  function Advance(t: Table, h: Handle, fd: Fd, n: nat): Out<nat> {
    var s := FdSeek(t, h, fd, AsI64(n), Current);
    Out(s.t, s.h, if s.r.Ok? then Ok(n) else s.r)
  }

  /** `fd_read`: the buffers it leaves, also when moving the offset fails, and the outcome. */
  function FdRead(t: Table, h: Handle, fd: Fd, bufs: seq<seq<Byte>>): (seq<seq<Byte>>, Out<nat>) {
    var c := CheckRight(h, fd, FD_READ);
    if c.Err? then (bufs, Out(t, h, Err(c.error))) else
    var (filled, n) := FdPread(t, h, fd, bufs, h.fds[fd].offset);
    (filled, if n.Ok? then Advance(t, h, fd, n.value) else Out(t, h, n))
  }

  function FdWrite(t: Table, h: Handle, fd: Fd, bufs: seq<seq<Byte>>): Out<nat> {
    var c := CheckRight(h, fd, FD_WRITE);
    if c.Err? then Out(t, h, Err(c.error)) else
    var w := FdPwrite(t, h, fd, bufs, h.fds[fd].offset);
    if !w.r.Ok? then w else Advance(w.t, h, fd, w.r.value)
  }

  function FdRenumber(t: Table, h: Handle, oldFd: Fd, newFd: Fd): Out<()> {
    if oldFd !in h.fds || newFd in h.fds then Out(t, h, Err(BadF))
    else Out(t, h.(fds := h.fds[newFd := h.fds[oldFd]] - {oldFd}), Ok(()))
  }

  /** `fd_create`: an anonymous file with all rights; a full descriptor table leaves the inode behind. */
  function FdCreate(t: Table, h: Handle): Out<Fd> {
    var alloc := NewInode(t);
    if !alloc.r.Ok? then Out(alloc.t, h, alloc.r) else
    var i := alloc.r.value;
    var t' := InsertFile(alloc.t, i, []);
    var (h', fd) := NewFd(h);
    if !fd.Ok? then Out(t', h', fd) else
    Out(t', InstallFd(h', fd.value, FdEntry(i, RegularFile, ALL_RIGHTS, ALL_RIGHTS, 0)), fd)
  }

  // ---------------------------------------------------------------------------
  // Path operations.
  // ---------------------------------------------------------------------------

  /** The fold of `path_create_directory`: a fresh directory for every component. */
  function CreateDirs(t: Table, last: Inode, path: Path): Eff<()>
    decreases |path|
  {
    if path == [] then Eff(t, Ok(()))
    else if !path[0].Normal? then Eff(t, Err(Inval))
    else
      var alloc := NewInode(t);
      if !alloc.r.Ok? then Eff(alloc.t, Err(NFile)) else
      var added := AddDir(alloc.t, last, path[0], alloc.r.value);
      if !added.r.Ok? then added else CreateDirs(added.t, alloc.r.value, path[1..])
  }

  function PathCreateDirectory(t: Table, h: Handle, fd: Fd, path: Path): Out<()> {
    var c := CheckRight(h, fd, PATH_CREATE_DIRECTORY);
    if !c.Ok? then Out(t, h, c) else
    var parent := h.fds[fd].inode;
    if !DirAt(t.nodes, parent) then Out(t, h, Err(NotDir))
    else if Walk(t.nodes, parent, path).Ok? then Out(t, h, Err(Exist))
    else
      var e := CreateDirs(t, parent, path);
      Out(e.t, h, e.r)
  }

  /** The inode `path_open` opens: an existing one, or with `CREATE` a new file. */
  function OpenInode(t: Table, h: Handle, fd: Fd, path: Path, oflags: set<OpenFlag>): Eff<Inode>
    requires fd in h.fds
  {
    var parent := h.fds[fd].inode;
    match Walk(t.nodes, parent, path)
    case Ok(i) =>
      if EXCL in oflags then Eff(t, Err(Exist))
      else if DIRECTORY in oflags && !DirAt(t.nodes, i) then Eff(t, Err(NotDir))
      else Eff(t, Ok(i))
    case Err(e) =>
      if CREATE !in oflags then Eff(t, Err(e))
      else if PATH_CREATE_FILE !in h.fds[fd].base then Eff(t, Err(Access))
      else
        var alloc := NewInode(t);
        if !alloc.r.Ok? then alloc else
        var added := AddFile(alloc.t, parent, path, alloc.r.value, []);
        Eff(added.t, if added.r.Ok? then Ok(alloc.r.value) else if added.r.Err? then Err(added.r.error) else Panic)
    case Panic => Eff(t, Panic)
  }

  /** The `TRUNC` step of `path_open`. */
  function OpenTrunc(t: Table, h: Handle, fd: Fd, i: Inode, oflags: set<OpenFlag>): Eff<()>
    requires fd in h.fds
  {
    if TRUNC !in oflags then Eff(t, Ok(()))
    else if PATH_FILESTAT_SET_SIZE !in h.fds[fd].base then Eff(t, Err(Access))
    else TruncateFile(t, i)
  }

  /** The descriptor step of `path_open`: requested rights are cut to the inheriting rights of `fd`. */
  function OpenFd(t: Table, h: Handle, fd: Fd, i: Inode, base: Rights, inheriting: Rights): Out<Fd>
    requires fd in h.fds
  {
    var (h', newFd) := NewFd(h);
    if !newFd.Ok? then Out(t, h', newFd)
    else if i !in t.nodes then Out(t, h', Err(NoEnt))
    else
      var mask := h.fds[fd].inheriting;
      Out(t, InstallFd(h', newFd.value, FdEntry(i, t.nodes[i].stat.fileType, base * mask, inheriting * mask, 0)), newFd)
  }

  /** `path_open`: a descriptor it returns was free, is open on an inode of the table and has attenuated rights. */
  function PathOpen(t: Table, h: Handle, fd: Fd, path: Path, oflags: set<OpenFlag>, base: Rights,
                    inheriting: Rights): (o: Out<Fd>)
    ensures o.r.Ok? ==> o.r.value !in h.fds && o.r.value in o.h.fds && o.h.fds[o.r.value].inode in o.t.nodes
    ensures o.r.Ok? ==>
              && fd in h.fds && o.h.nextFd == h.nextFd + 1
              && o.h.fds[o.r.value].offset == 0 && o.h.fds - {o.r.value} == h.fds
              && o.h.fds[o.r.value].base == base * h.fds[fd].inheriting
              && o.h.fds[o.r.value].inheriting == inheriting * h.fds[fd].inheriting
  {
    var c := CheckRight(h, fd, PATH_OPEN);
    if c.Err? then Out(t, h, Err(c.error))
    else if !DirAt(t.nodes, h.fds[fd].inode) then Out(t, h, Err(NotDir))
    else
      var found := OpenInode(t, h, fd, path, oflags);
      if !found.r.Ok? then Out(found.t, h, found.r) else
      var trunc := OpenTrunc(found.t, h, fd, found.r.value, oflags);
      match trunc.r
      case Ok(_) => OpenFd(trunc.t, h, fd, found.r.value, base, inheriting)
      case Err(e) => Out(trunc.t, h, Err(e))
      case Panic => Out(trunc.t, h, Panic)
  }

  // ---------------------------------------------------------------------------
  // Absolute paths.
  // ---------------------------------------------------------------------------

  predicate Preopened(h: Handle, p: Path) {
    p in h.prestat.Values
  }

  ghost function PrestatFd(prestat: map<Fd, Path>, p: Path): (fd: Fd)
    requires p in prestat.Values
    ensures fd in prestat && prestat[fd] == p
  {
    var fd :| fd in prestat && prestat[fd] == p; fd
  }

  /** `find_prestat` from the ancestor `path[..k]` upwards. */
  ghost function FindPrestatFrom(prestat: map<Fd, Path>, path: Path, k: nat): Result<(Fd, Path)>
    requires k <= |path|
  {
    if path[..k] in prestat.Values then Ok((PrestatFd(prestat, path[..k]), path[k..]))
    else if !HasParent(path[..k]) then Err(Access)
    else FindPrestatFrom(prestat, path, k - 1)
  }

  ghost function FindPrestat(h: Handle, path: Path): Result<(Fd, Path)> {
    FindPrestatFrom(h.prestat, path, |path|)
  }

  /** `write_file_by_absolute_path`. */
  ghost function WriteFile(t: Table, h: Handle, path: Path, data: seq<Byte>, append: bool): Out<()> {
    match FindPrestat(h, path)
    case Err(e) => Out(t, h, Err(e))
    case Panic => Out(t, h, Panic)
    case Ok((dir, rest)) =>
      var o := PathOpen(t, h, dir, rest, if append then {CREATE} else {CREATE, TRUNC}, ALL_RIGHTS, ALL_RIGHTS);
      if !o.r.Ok? then Out(o.t, o.h, if o.r.Err? then Err(o.r.error) else Panic) else
      var fd := o.r.value;
      if !({FD_WRITE, FD_SEEK} <= o.h.fds[fd].base) then Out(o.t, o.h, Err(Access)) else
      var s := if append then FdSeek(o.t, o.h, fd, 0, End) else Out(o.t, o.h, Ok(0));
      if !s.r.Ok? then Out(s.t, s.h, if s.r.Err? then Err(s.r.error) else Panic) else
      var w := FdWrite(s.t, s.h, fd, [data]);
      if !w.r.Ok? then Out(w.t, w.h, if w.r.Err? then Err(w.r.error) else Panic) else
      FdClose(w.t, w.h, fd)
  }

  /** `read_file_by_absolute_path`; a short read would trip the debug assertion. */
  ghost function ReadFile(t: Table, h: Handle, path: Path): Out<seq<Byte>> {
    match FindPrestat(h, path)
    case Err(e) => Out(t, h, Err(e))
    case Panic => Out(t, h, Panic)
    case Ok((dir, rest)) =>
      var o := PathOpen(t, h, dir, rest, {}, ALL_RIGHTS, ALL_RIGHTS);
      if !o.r.Ok? then Out(o.t, o.h, if o.r.Err? then Err(o.r.error) else Panic) else
      var fd := o.r.value;
      if !({FD_READ, FD_SEEK} <= o.h.fds[fd].base) then Out(o.t, o.h, Err(Access)) else
      var size := o.t.nodes[o.h.fds[fd].inode].stat.fileSize;
      var (filled, d) := FdRead(o.t, o.h, fd, [seq(size, _ => 0)]);
      if !d.r.Ok? then Out(d.t, d.h, if d.r.Err? then Err(d.r.error) else Panic) else
      if d.r.value != size then Out(d.t, d.h, Panic) else
      var c := FdClose(d.t, d.h, fd);
      Out(c.t, c.h, if c.r.Ok? then Ok(filled[0]) else if c.r.Err? then Err(c.r.error) else Panic)
  }
}
