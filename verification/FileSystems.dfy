/**
 * The file system in the form of the program: an inode table shared by handles, both updated in place.
 * Every method is proved against the function of the same name on values.
 */
module FileSystems {
  import opened Common
  import opened Paths
  import opened Policy
  import opened Inodes
  import opened Vfs
  import opened VfsInit
  import opened VfsSteps
  import opened VfsWorld
  import opened VfsFiles
  import opened VfsListing

  class InodeTable {
    var nodes: Nodes
    var next: nat
    var stdin: Inode
    var stdout: Inode
    var stderr: Inode
    const rights: RightsTable

    ghost function View(): Table
      reads this
    {
      Table(nodes, next, stdin, stdout, stderr, rights)
    }

    constructor (rights: RightsTable)
      ensures View() == NewTable(rights).t
    {
      this.rights := rights;
      nodes, next := map[], ROOT + 1;
      stdin, stdout, stderr := 0, 1, 2;
      new;
      NewTableIs(rights);
      var r := AddDir(ROOT, RootDir, ROOT);
      var a := NewInode();
      stdin := a.value;
      var ra := AddFile(stdin, STDIN, stdin, []);
      AddStreamIs(View().(next := 3, nodes := map[ROOT := NewDirectory(ROOT, ROOT)]), "stdin");
      var b := NewInode();
      stdout := b.value;
      var rb := AddFile(stdout, STDOUT, stdout, []);
      var c := NewInode();
      stderr := c.value;
      var rc := AddFile(stderr, STDERR, stderr, []);
      assert STDIN[..0] == [] && STDOUT[..0] == [] && STDERR[..0] == [];
    }

    /** `new_inode`. */
    method NewInode() returns (r: Result<Inode>)
      modifies this
      ensures Eff(View(), r) == Inodes.NewInode(old(View()))
    {
      var cur := next;
      if cur in nodes {
        return Err(NFile);
      }
      if cur + 1 >= U64 {
        return Err(NFile);
      }
      next := cur + 1;
      return Ok(cur);
    }

    /** `get_inode_by_inode_path`. */
    method Find(parent: Inode, path: Path) returns (r: Result<Inode>)
      ensures r == Walk(nodes, parent, path)
    {
      var last := parent;
      assert path[0..] == path;
      for k := 0 to |path|
        invariant Walk(nodes, parent, path) == Walk(nodes, last, path[k..])
      {
        assert path[k..][1..] == path[k + 1..];
        if last !in nodes {
          return Err(NoEnt);
        }
        if !nodes[last].data.Directory? {
          return Err(NotDir);
        }
        if path[k] !in nodes[last].data.entries {
          return Err(NoEnt);
        }
        last := nodes[last].data.entries[path[k]];
      }
      r := if last in nodes then Ok(last) else Err(NoEnt);
    }

    /** `InodeEntry::insert` on the entry of `parent`. */
    method Insert(parent: Inode, c: Component, i: Inode) returns (r: Result<()>)
      modifies this
      ensures Eff(View(), r) == Link(old(View()), parent, c, i)
    {
      if parent !in nodes {
        return Err(NoEnt);
      }
      var e := nodes[parent];
      if !e.data.Directory? {
        return Err(NotDir);
      }
      nodes := nodes[parent := e.(data := Directory(e.data.entries[c := i]))];
      return Ok(());
    }

    /** `add_dir`. */
    method AddDir(parent: Inode, c: Component, i: Inode) returns (r: Result<()>)
      modifies this
      ensures Eff(View(), r) == Inodes.AddDir(old(View()), parent, c, i)
    {
      if parent != i {
        r := Insert(parent, c, i);
        if !r.Ok? {
          return;
        }
      }
      nodes := nodes[i := NewDirectory(i, parent)];
      return Ok(());
    }

    /** `add_all_dir`. */
    method AddAllDir(start: Inode, path: Path) returns (r: Result<Inode>)
      modifies this
      ensures Eff(View(), r) == Inodes.AddAllDir(old(View()), start, path)
    {
      var parent := start;
      assert path[0..] == path;
      for k := 0 to |path|
        invariant Inodes.AddAllDir(old(View()), start, path) == Inodes.AddAllDir(View(), parent, path[k..])
      {
        assert path[k..][1..] == path[k + 1..];
        if !path[k].Normal? {
          return Err(Inval);
        }
        var found := Find(parent, [path[k]]);
        if found.Ok? {
          parent := found.value;
        } else if found.Err? && found.error == NoEnt {
          var alloc := NewInode();
          if !alloc.Ok? {
            return alloc;
          }
          var added := AddDir(parent, path[k], alloc.value);
          if !added.Ok? {
            return Err(added.error);
          }
          parent := alloc.value;
        } else {
          return found;
        }
      }
      return Ok(parent);
    }

    /** `add_file`. */
    method AddFile(start: Inode, path: Path, i: Inode, bytes: seq<Byte>) returns (r: Result<()>)
      modifies this
      ensures Eff(View(), r) == Inodes.AddFile(old(View()), start, path, i, bytes)
    {
      if !HasParent(path) {
        return Err(Inval);
      }
      var parent := start;
      if Parent(path) != [] {
        if !path[|path| - 1].Normal? {
          return Err(Inval);
        }
        var dirs := AddAllDir(start, Parent(path));
        if !dirs.Ok? {
          return if dirs.Err? then Err(dirs.error) else Panic;
        }
        var found := Find(start, Parent(path));
        if !found.Ok? {
          return if found.Err? then Err(found.error) else Panic;
        }
        parent := found.value;
      }
      nodes := nodes[i := NewFile(i, bytes)];
      if parent != i {
        r := Insert(parent, path[|path| - 1], i);
        return;
      }
      return Ok(());
    }

    /** `resize_file` on the entry of `i`. */
    method ResizeFile(i: Inode, size: nat) returns (r: Result<()>)
      modifies this
      ensures Eff(View(), r) == Inodes.ResizeFile(old(View()), i, size)
    {
      if i !in nodes {
        return Err(NoEnt);
      }
      var e := nodes[i];
      if e.data.Directory? {
        return Err(IsDir);
      }
      if size >= U63 {
        return Panic;
      }
      nodes := nodes[i := InodeEntry(e.stat.(fileSize := size), e.data.(bytes := Resize(e.data.bytes, size)))];
      return Ok(());
    }

    /** `write_file` on the entry of `i`: grow with zeros if needed, then overwrite. */
    method WriteFile(i: Inode, buf: seq<Byte>, offset: nat) returns (r: Result<nat>)
      modifies this
      ensures Eff(View(), r) == WriteBytes(old(View()), i, buf, offset)
    {
      if i !in nodes {
        return Err(NoEnt);
      }
      var e := nodes[i];
      if e.data.Directory? {
        return Err(IsDir);
      }
      if offset + |buf| >= U63 {
        return Panic;
      }
      var bytes := e.data.bytes;
      if offset + |buf| > |bytes| {
        bytes := Resize(bytes, offset + |buf|);
      }
      bytes := bytes[..offset] + buf + bytes[offset + |buf|..];
      nodes := nodes[i := InodeEntry(e.stat.(fileSize := |bytes|), e.data.(bytes := bytes))];
      return Ok(|buf|);
    }
  }

  /** The contents of a list of buffers. */
  ghost function Contents(bufs: seq<array<Byte>>): (c: seq<seq<Byte>>)
    reads bufs
    ensures |c| == |bufs| && forall k :: 0 <= k < |bufs| ==> c[k] == bufs[k][..]
  {
    seq(|bufs|, k requires 0 <= k < |bufs| reads bufs => bufs[k][..])
  }

  lemma FlattenPrefix(bufs: seq<seq<Byte>>, k: nat)
    requires k < |bufs|
    ensures Flatten(bufs[..k + 1]) == Flatten(bufs[..k]) + bufs[k]
    ensures |Flatten(bufs[..k + 1])| == |Flatten(bufs[..k])| + |bufs[k]|
  {
    hide Flatten;
    assert bufs[..k + 1] == bufs[..k] + [bufs[k]];
    FlattenAppend(bufs[..k], [bufs[k]]);
    FlattenSingle(bufs[k]);
  }

  /** What buffer `k` of a scatter read holds afterwards, when `o` bytes went into the buffers before it. */
  lemma {:induction false} ScatterAt(bufs: seq<seq<Byte>>, data: seq<Byte>, k: nat, o: nat, n: nat)
    requires k < |bufs|
    requires o == Min(|Flatten(bufs[..k])|, |data|) && n == Min(|bufs[k]|, |data| - o)
    ensures Scatter(bufs, data)[k] == data[o..o + n] + bufs[k][n..]
    decreases k
  {
    hide Flatten, Scatter;
    FlattenTake(bufs, k);
    ScatterFirst(bufs, data);
    if k == 0 {
      TakeIsSlice(data, n);
    } else {
      var m := Min(|bufs[0]|, |data|);
      ScatterAt(bufs[1..], data[m..], k - 1, o - m, n);
      SliceDrop(data, m, o - m, o - m + n);
    }
  }

  lemma TakeIsSlice(s: seq<Byte>, n: nat)
    requires n <= |s|
    ensures s[..n] == s[0..n]
  {
  }

  lemma ScatterFirst(bufs: seq<seq<Byte>>, data: seq<Byte>)
    requires bufs != []
    ensures var m := Min(|bufs[0]|, |data|);
            && Scatter(bufs, data)[0] == data[..m] + bufs[0][m..]
            && forall k :: 0 < k < |bufs| ==> Scatter(bufs, data)[k] == Scatter(bufs[1..], data[m..])[k - 1]
  {
  }

  lemma FlattenTake(bufs: seq<seq<Byte>>, k: nat)
    requires k <= |bufs|
    ensures |Flatten(bufs[..k])| == if k == 0 then 0 else |bufs[0]| + |Flatten(bufs[1..][..k - 1])|
  {
    if k > 0 {
      assert bufs[..k][1..] == bufs[1..][..k - 1];
    }
  }

  /** `read_bytes_from_offset`: fills a prefix of one buffer. */
  method ReadBytesFromOffset(bytes: seq<Byte>, buf: array<Byte>, offset: nat) returns (n: nat)
    requires offset <= |bytes|
    modifies buf
    ensures n == Min(buf.Length, |bytes| - offset)
    ensures buf[..] == bytes[offset..offset + n] + old(buf[..])[n..]
  {
    n := Min(buf.Length, |bytes| - offset);
    forall j | 0 <= j < n {
      buf[j] := bytes[offset + j];
    }
  }

  /** The read of one of several distinct buffers. */
  method ReadOne(bytes: seq<Byte>, bufs: seq<array<Byte>>, k: nat, offset: nat) returns (n: nat)
    requires k < |bufs| && forall i, j :: 0 <= i < j < |bufs| ==> bufs[i] != bufs[j]
    requires offset <= |bytes|
    modifies bufs[k]
    ensures n == Min(|old(Contents(bufs))[k]|, |bytes| - offset)
    ensures Contents(bufs) == old(Contents(bufs))[k := bytes[offset..offset + n] + old(Contents(bufs))[k][n..]]
  {
    n := ReadBytesFromOffset(bytes, bufs[k], offset);
  }

  /** A scattered read after its first `k` buffers: these hold their share, the others what they held before. */
  ghost predicate Pouring(c: seq<seq<Byte>>, before: seq<seq<Byte>>, bytes: seq<Byte>, start: nat, k: nat, len: nat) {
    && k <= |before| && start <= |bytes| && len == Min(|Flatten(before[..k])|, |bytes| - start)
    && c == Scatter(before, bytes[start..])[..k] + before[k..]
  }

  lemma PourNone(before: seq<seq<Byte>>, bytes: seq<Byte>, start: nat)
    requires start <= |bytes|
    ensures Pouring(before, before, bytes, start, 0, 0)
  {
    hide Scatter;
    var after := Scatter(before, bytes[start..]);
    assert after[..0] + before[0..] == before && before[..0] == [];
  }

  lemma PourOne(c: seq<seq<Byte>>, before: seq<seq<Byte>>, bytes: seq<Byte>, start: nat, k: nat, len: nat)
    requires Pouring(c, before, bytes, start, k, len) && k < |before|
    ensures |c| == |before| && start + len <= |bytes|
    ensures var n := Min(|c[k]|, |bytes| - (start + len));
            Pouring(c[k := bytes[start + len..start + len + n] + c[k][n..]], before, bytes, start, k + 1, len + n)
  {
    hide Scatter, Flatten;
    var after := Scatter(before, bytes[start..]);
    var n := Min(|before[k]|, |bytes| - start - len);
    assert c[k] == before[k];
    ScatterAt(before, bytes[start..], k, len, n);
    FlattenPrefix(before, k);
    SliceDrop(bytes, start, len, len + n);
    assert c[k := after[k]] == after[..k + 1] + before[k + 1..];
  }

  lemma PourAll(c: seq<seq<Byte>>, before: seq<seq<Byte>>, bytes: seq<Byte>, start: nat, len: nat)
    requires Pouring(c, before, bytes, start, |before|, len)
    ensures c == Scatter(before, bytes[start..]) && len == Min(|Flatten(before)|, |bytes| - start)
  {
    hide Scatter, Flatten;
    var after := Scatter(before, bytes[start..]);
    assert before[..|before|] == before && after[..|before|] + before[|before|..] == after;
  }

  /** The loop of `fd_pread`: one read per buffer, each starting where the last one ended. */
  method ReadInto(bytes: seq<Byte>, bufs: seq<array<Byte>>, start: nat) returns (len: nat)
    requires forall j, k :: 0 <= j < k < |bufs| ==> bufs[j] != bufs[k]
    requires start <= |bytes|
    modifies set b | b in bufs
    ensures len == Min(|Flatten(old(Contents(bufs)))|, |bytes| - start)
    ensures Contents(bufs) == Scatter(old(Contents(bufs)), bytes[start..])
  {
    hide Pouring, Scatter, Flatten, Contents;
    ghost var before := Contents(bufs);
    PourNone(before, bytes, start);
    var offset := start;
    len := 0;
    for k := 0 to |bufs|
      invariant offset == start + len && Pouring(Contents(bufs), before, bytes, start, k, len)
    {
      PourOne(Contents(bufs), before, bytes, start, k, len);
      var n := ReadOne(bytes, bufs, k, offset);
      offset := offset + n;
      len := len + n;
    }
    PourAll(Contents(bufs), before, bytes, start, len);
  }

  /** A capability handle. */
  class FileSystem {
    var fdTable: map<Fd, FdEntry>
    var nextFd: nat
    var prestatTable: map<Fd, Path>
    const table: InodeTable

    ghost function Handle(): Vfs.Handle
      reads this
    {
      Vfs.Handle(fdTable, nextFd, prestatTable)
    }

    constructor (table: InodeTable)
      ensures this.table == table && Handle() == Vfs.Handle(map[], FIRST_FD, map[])
    {
      this.table := table;
      fdTable, nextFd, prestatTable := map[], FIRST_FD, map[];
    }

    /** `new_fd`. */
    method NewFd() returns (r: Result<Fd>)
      modifies this
      ensures (Handle(), r) == Vfs.NewFd(old(Handle()))
    {
      var cur := nextFd;
      if cur >= U31 || cur in fdTable {
        return Err(NFile);
      }
      nextFd := cur + 1;
      return Ok(cur);
    }

    /** `fd_close`. */
    method FdClose(fd: Fd) returns (r: Result<()>)
      modifies this, table
      ensures Out(table.View(), Handle(), r) == Vfs.FdClose(old(table.View()), old(Handle()), fd)
    {
      if fd !in fdTable {
        return Err(BadF);
      }
      var i := fdTable[fd].inode;
      if i !in table.nodes {
        return Err(NoEnt);
      }
      if table.nodes[i].data.Service? {
        var e := table.ResizeFile(i, 0);
      }
      fdTable := fdTable - {fd};
      return Ok(());
    }

    /** `fd_fdstat_set_rights`: the status is copied out, and the copy is changed. */
    method FdstatSetRights(fd: Fd, base: Rights, inheriting: Rights) returns (r: Result<()>)
      ensures Out(table.View(), Handle(), r) ==
                Vfs.FdstatSetRights(old(table.View()), old(Handle()), fd, base, inheriting)
    {
      if fd !in fdTable {
        return Err(BadF);
      }
      var stat := fdTable[fd];
      stat := stat.(base := base, inheriting := inheriting);
      return Ok(());
    }

    /** `fd_filestat_set_size`. */
    method FilestatSetSize(fd: Fd, size: nat) returns (r: Result<()>)
      modifies table
      ensures Out(table.View(), Handle(), r) == Vfs.FilestatSetSize(old(table.View()), old(Handle()), fd, size)
    {
      if fd !in fdTable {
        return Err(BadF);
      }
      if FD_FILESTAT_SET_SIZE !in fdTable[fd].base {
        return Err(Access);
      }
      r := table.ResizeFile(fdTable[fd].inode, size);
    }

    /** `fd_pread`. */
    method FdPread(fd: Fd, bufs: seq<array<Byte>>, offset: nat) returns (r: Result<nat>)
      requires forall j, k :: 0 <= j < k < |bufs| ==> bufs[j] != bufs[k]
      modifies set b | b in bufs
      ensures r == Vfs.FdPread(old(table.View()), old(Handle()), fd, old(Contents(bufs)), offset).1
      ensures Contents(bufs) == Vfs.FdPread(old(table.View()), old(Handle()), fd, old(Contents(bufs)), offset).0
    {
      if fd !in fdTable {
        return Err(BadF);
      }
      if FD_READ !in fdTable[fd].base {
        return Err(Access);
      }
      if fdTable[fd].inode !in table.nodes {
        return Err(NoEnt);
      }
      var data := table.nodes[fdTable[fd].inode].data;
      if |bufs| == 0 {
        return Ok(0);
      }
      if data.Directory? {
        return Err(IsDir);
      }
      if offset > |data.bytes| {
        return Panic;
      }
      var len := ReadInto(data.bytes, bufs, offset);
      return Ok(len);
    }

    /** The loop of `fd_pwrite`: one write per buffer, each starting where the last one ended. */
    method Gather(i: Inode, bufs: seq<seq<Byte>>, start: nat) returns (r: Result<nat>)
      requires i in table.nodes
      modifies table
      ensures var w := WriteBytes(old(table.View()), i, Flatten(bufs), start);
              if bufs == [] then r == Ok(0) && table.View() == old(table.View())
              else r == w.r && table.View() == if r.Panic? then WriteFitting(old(table.View()), i, bufs, start) else w.t
    {
      hide WriteBytes, Gathered, Flatten, WriteFitting;
      ghost var t := table.View();
      GatherNone(t, i, bufs, start);
      var offset, len := start, 0;
      for k := 0 to |bufs|
        invariant offset == start + len && Gathered(table.View(), t, i, bufs, start, k, len)
      {
        GatherOne(table.View(), t, i, bufs, start, k, len);
        var delta := table.WriteFile(i, bufs[k], offset);
        if !delta.Ok? {
          return delta;
        }
        offset := offset + delta.value;
        len := len + delta.value;
      }
      GatherAll(table.View(), t, i, bufs, start, len);
      return Ok(len);
    }

    /** `fd_pwrite`: one write per buffer, each starting where the last one ended. */
    method FdPwrite(fd: Fd, bufs: seq<seq<Byte>>, start: nat) returns (r: Result<nat>)
      modifies table
      ensures Out(table.View(), Handle(), r) == Vfs.FdPwrite(old(table.View()), old(Handle()), fd, bufs, start)
    {
      if fd !in fdTable {
        return Err(BadF);
      }
      if FD_WRITE !in fdTable[fd].base {
        return Err(Access);
      }
      var i := fdTable[fd].inode;
      if i !in table.nodes {
        return Err(NoEnt);
      }
      hide WriteBytes, WriteFitting;
      r := Gather(i, bufs, start);
    }

    /** `fd_seek`. */
    method FdSeek(fd: Fd, delta: I64, whence: Whence) returns (r: Result<nat>)
      modifies this, table
      ensures Out(table.View(), Handle(), r) == Vfs.FdSeek(old(table.View()), old(Handle()), fd, delta, whence)
    {
      if fd !in fdTable {
        return Err(BadF);
      }
      if FD_SEEK !in fdTable[fd].base {
        return Err(Access);
      }
      var e := fdTable[fd];
      if e.inode !in table.nodes {
        return Err(NoEnt);
      }
      var size := table.nodes[e.inode].stat.fileSize;
      var base := match whence case Current => e.offset case End => size case Start => 0;
      var target;
      if delta >= 0 {
        target := base + delta;
        if target >= U64 {
          return Panic;
        }
        if target > size {
          var grown := FilestatSetSize(fd, target);
          if !grown.Ok? {
            return if grown.Err? then Err(grown.error) else Panic;
          }
        }
      } else {
        if delta == -U63 {
          return Panic;
        }
        if -delta > base {
          return Err(SPipe);
        }
        target := base + delta;
      }
      fdTable := fdTable[fd := e.(offset := target)];
      return Ok(target);
    }

    /** `fd_read`. */
    method FdRead(fd: Fd, bufs: seq<array<Byte>>) returns (r: Result<nat>)
      requires forall j, k :: 0 <= j < k < |bufs| ==> bufs[j] != bufs[k]
      modifies this, table, set b | b in bufs
      ensures Out(table.View(), Handle(), r) == Vfs.FdRead(old(table.View()), old(Handle()), fd, old(Contents(bufs))).1
      ensures Contents(bufs) == Vfs.FdRead(old(table.View()), old(Handle()), fd, old(Contents(bufs))).0
    {
      if fd !in fdTable {
        return Err(BadF);
      }
      if FD_READ !in fdTable[fd].base {
        return Err(Access);
      }
      var n := FdPread(fd, bufs, fdTable[fd].offset);
      if !n.Ok? {
        return n;
      }
      var s := FdSeek(fd, AsI64(n.value), Current);
      return if s.Ok? then n else s;
    }

    /** `fd_write`. */
    method FdWrite(fd: Fd, bufs: seq<seq<Byte>>) returns (r: Result<nat>)
      modifies this, table
      ensures Out(table.View(), Handle(), r) == Vfs.FdWrite(old(table.View()), old(Handle()), fd, bufs)
    {
      if fd !in fdTable {
        return Err(BadF);
      }
      if FD_WRITE !in fdTable[fd].base {
        return Err(Access);
      }
      var n := FdPwrite(fd, bufs, fdTable[fd].offset);
      if !n.Ok? {
        return n;
      }
      var s := FdSeek(fd, AsI64(n.value), Current);
      return if s.Ok? then n else s;
    }

    /** `fd_renumber`. */
    method FdRenumber(oldFd: Fd, newFd: Fd) returns (r: Result<()>)
      modifies this
      ensures Out(table.View(), Handle(), r) == Vfs.FdRenumber(old(table.View()), old(Handle()), oldFd, newFd)
    {
      if oldFd !in fdTable {
        return Err(BadF);
      }
      var entry := fdTable[oldFd];
      if newFd in fdTable {
        return Err(BadF);
      }
      fdTable := fdTable[newFd := entry];
      fdTable := fdTable - {oldFd};
      return Ok(());
    }

    /** `fd_create`. */
    method FdCreate() returns (r: Result<Fd>)
      modifies this, table
      ensures Out(table.View(), Handle(), r) == Vfs.FdCreate(old(table.View()), old(Handle()))
    {
      var alloc := table.NewInode();
      if !alloc.Ok? {
        return alloc;
      }
      var i := alloc.value;
      table.nodes := table.nodes[i := NewFile(i, [])];
      r := NewFd();
      if r.Ok? {
        fdTable := fdTable[r.value := FdEntry(i, RegularFile, ALL_RIGHTS, ALL_RIGHTS, 0)];
      }
    }

    /** `path_create_directory`. */
    method PathCreateDirectory(fd: Fd, path: Path) returns (r: Result<()>)
      modifies table
      ensures Out(table.View(), Handle(), r) == Vfs.PathCreateDirectory(old(table.View()), old(Handle()), fd, path)
    {
      if fd !in fdTable {
        return Err(BadF);
      }
      if PATH_CREATE_DIRECTORY !in fdTable[fd].base {
        return Err(Access);
      }
      var parent := fdTable[fd].inode;
      if !DirAt(table.nodes, parent) {
        return Err(NotDir);
      }
      var found := table.Find(parent, path);
      if found.Ok? {
        return Err(Exist);
      }
      var last := parent;
      assert path[0..] == path;
      for k := 0 to |path|
        invariant CreateDirs(old(table.View()), parent, path) == CreateDirs(table.View(), last, path[k..])
        invariant Handle() == old(Handle())
      {
        assert path[k..][1..] == path[k + 1..];
        if !path[k].Normal? {
          return Err(Inval);
        }
        var alloc := table.NewInode();
        if !alloc.Ok? {
          return Err(NFile);
        }
        r := table.AddDir(last, path[k], alloc.value);
        if !r.Ok? {
          return;
        }
        last := alloc.value;
      }
      return Ok(());
    }

    /** `path_open`. */
    method PathOpen(fd: Fd, path: Path, oflags: set<OpenFlag>, base: Rights, inheriting: Rights) returns (r: Result<Fd>)
      modifies this, table
      ensures Out(table.View(), Handle(), r) ==
                Vfs.PathOpen(old(table.View()), old(Handle()), fd, path, oflags, base, inheriting)
    {
      if fd !in fdTable {
        return Err(BadF);
      }
      if PATH_OPEN !in fdTable[fd].base {
        return Err(Access);
      }
      var dir := fdTable[fd];
      if !DirAt(table.nodes, dir.inode) {
        return Err(NotDir);
      }
      var found := table.Find(dir.inode, path);
      if found.Ok? {
        if EXCL in oflags {
          return Err(Exist);
        }
        if DIRECTORY in oflags && !DirAt(table.nodes, found.value) {
          return Err(NotDir);
        }
      } else {
        if CREATE !in oflags || found.Panic? {
          return if found.Err? then Err(found.error) else Panic;
        }
        if PATH_CREATE_FILE !in dir.base {
          return Err(Access);
        }
        found := table.NewInode();
        if !found.Ok? {
          return if found.Err? then Err(found.error) else Panic;
        }
        var added := table.AddFile(dir.inode, path, found.value, []);
        if !added.Ok? {
          return if added.Err? then Err(added.error) else Panic;
        }
      }
      var i := found.value;
      if TRUNC in oflags {
        if PATH_FILESTAT_SET_SIZE !in dir.base {
          return Err(Access);
        }
        var cut := table.ResizeFile(i, 0);
        if !cut.Ok? {
          return if cut.Err? then Err(cut.error) else Panic;
        }
      }
      r := NewFd();
      if !r.Ok? {
        return;
      }
      if i !in table.nodes {
        return Err(NoEnt);
      }
      var kind := table.nodes[i].stat.fileType;
      fdTable := fdTable[r.value := FdEntry(i, kind, base * dir.inheriting, inheriting * dir.inheriting, 0)];
    }

    /** `install_standard_streams_fd`. */
    method InstallStandardStreams(row: RightsMap)
      requires fdTable == map[]
      modifies this
      ensures Handle() == old(Handle()).(fds := StdFds(table.View(), row))
    {
      hide StdFds;
      StreamsInOrder(table.View(), row);
      if STDIN in row {
        fdTable := fdTable[0 := FdEntry(table.stdin, RegularFile, row[STDIN], row[STDIN], 0)];
      }
      if STDOUT in row {
        fdTable := fdTable[1 := FdEntry(table.stdout, RegularFile, row[STDOUT], row[STDOUT], 0)];
      }
      if STDERR in row {
        fdTable := fdTable[2 := FdEntry(table.stderr, RegularFile, row[STDERR], row[STDERR], 0)];
      }
    }

    /** The body of the pre-open loop. */
    method PreopenPath(path: Path, rights: Rights, fd: Fd) returns (r: Result<()>)
      modifies this, table
      ensures Out(table.View(), Handle(), r) == PreopenOne(old(table.View()), old(Handle()), path, rights, fd)
    {
      var i: Inode := ROOT;
      if StripRoot(path) != [] {
        var made := table.AddAllDir(ROOT, StripRoot(path));
        if !made.Ok? {
          return if made.Err? then Err(made.error) else Panic;
        }
        i := made.value;
      }
      fdTable := fdTable[fd := FdEntry(i, Unknown, rights, rights, 0)];
      prestatTable := prestatTable[fd := path];
      return Ok(());
    }

    /** `install_prestat`: the standard streams, then one descriptor per other path of the row. */
    method InstallPrestat(row: RightsMap, order: seq<Path>) returns (r: Result<()>)
      requires IsOrder(row, order)
      requires Handle() == Vfs.Handle(map[], FIRST_FD, map[])
      modifies this, table
      ensures r == Preopen(old(table.View()), row, order, |order|).r
      ensures table.View() == Preopen(old(table.View()), row, order, |order|).t
      ensures r.Ok? ==> Handle() == Preopen(old(table.View()), row, order, |order|).h.(nextFd := FIRST_FD + |row|)
    {
      hide StdFds, PreopenOne, Preopen, Distinct, Preopening;
      ghost var t := table.View();
      assert forall j :: 0 <= j < |order| ==> order[j] in row;
      InstallStandardStreams(row);
      PreopenNone(t, row, order);
      for k := 0 to |order|
        invariant Preopening(table.View(), Handle(), t, row, order, k)
      {
        PreopenMore(table.View(), Handle(), t, row, order, k);
        r := PreopenPath(order[k], row[order[k]], FIRST_FD + k);
        if !r.Ok? {
          return;
        }
      }
      PreopenDone(table.View(), Handle(), t, row, order);
      nextFd := FIRST_FD + |row|;
      return Ok(());
    }

    /** `spawn`. */
    method Spawn(p: Principal, order: seq<Path>) returns (fs: FileSystem, r: Result<()>)
      requires p in table.rights ==> IsOrder(table.rights[p], order)
      modifies table
      ensures fresh(fs) && fs.table == table && Handle() == old(Handle())
      ensures r == Vfs.Spawn(old(table.View()), p, order).r && table.View() == Vfs.Spawn(old(table.View()), p, order).t
      ensures r.Ok? ==> fs.Handle() == Vfs.Spawn(old(table.View()), p, order).h
    {
      fs := new FileSystem(table);
      if p !in table.rights {
        return fs, Err(Access);
      }
      r := fs.InstallPrestat(table.rights[p], order);
    }

    /** `find_prestat`: the ancestors of the path, deepest first. */
    method FindPrestat(path: Path) returns (r: Result<(Fd, Path)>)
      requires PrestatInjective(Handle())
      ensures r == Vfs.FindPrestat(Handle(), path)
    {
      var k := |path|;
      while true
        invariant 0 <= k <= |path|
        invariant FindPrestatFrom(prestatTable, path, |path|) == FindPrestatFrom(prestatTable, path, k)
        decreases k
      {
        if path[..k] in prestatTable.Values {
          var fd :| fd in prestatTable && prestatTable[fd] == path[..k];
          assert PrestatFd(prestatTable, path[..k]) == fd;
          return Ok((fd, path[k..]));
        }
        if !HasParent(path[..k]) {
          return Err(Access);
        }
        k := k - 1;
      }
    }

    /** `write_file_by_absolute_path`. */
    method WriteFile(path: Path, data: seq<Byte>, append: bool) returns (r: Result<()>)
      requires PrestatInjective(Handle())
      modifies this, table
      ensures Out(table.View(), Handle(), r) == Vfs.WriteFile(old(table.View()), old(Handle()), path, data, append)
    {
      var at := FindPrestat(path);
      if !at.Ok? {
        return if at.Err? then Err(at.error) else Panic;
      }
      var oflags := {CREATE} + (if append then {} else {TRUNC});
      assert oflags == if append then {CREATE} else {CREATE, TRUNC};
      var o := PathOpen(at.value.0, at.value.1, oflags, ALL_RIGHTS, ALL_RIGHTS);
      if !o.Ok? {
        return if o.Err? then Err(o.error) else Panic;
      }
      var fd := o.value;
      if !({FD_WRITE, FD_SEEK} <= fdTable[fd].base) {
        return Err(Access);
      }
      if append {
        var s := FdSeek(fd, 0, End);
        if !s.Ok? {
          return if s.Err? then Err(s.error) else Panic;
        }
      }
      var w := FdWrite(fd, [data]);
      if !w.Ok? {
        return if w.Err? then Err(w.error) else Panic;
      }
      r := FdClose(fd);
    }

    /** `read_file_by_absolute_path`. */
    method ReadFile(path: Path) returns (r: Result<seq<Byte>>)
      requires PrestatInjective(Handle())
      modifies this, table
      ensures Out(table.View(), Handle(), r) == Vfs.ReadFile(old(table.View()), old(Handle()), path)
    {
      var at := FindPrestat(path);
      if !at.Ok? {
        return if at.Err? then Err(at.error) else Panic;
      }
      var o := PathOpen(at.value.0, at.value.1, {}, ALL_RIGHTS, ALL_RIGHTS);
      if !o.Ok? {
        return if o.Err? then Err(o.error) else Panic;
      }
      var fd := o.value;
      if !({FD_READ, FD_SEEK} <= fdTable[fd].base) {
        return Err(Access);
      }
      var size := table.nodes[fdTable[fd].inode].stat.fileSize;
      var vec := new Byte[size](_ => 0);
      assert vec[..] == seq(size, _ => 0);
      assert Contents([vec]) == [vec[..]];
      var n := FdRead(fd, [vec]);
      if !n.Ok? {
        return if n.Err? then Err(n.error) else Panic;
      }
      if n.value != size {
        return Panic;
      }
      var c := FdClose(fd);
      if !c.Ok? {
        return if c.Err? then Err(c.error) else Panic;
      }
      return Ok(vec[..]);
    }

    /** `read_all_files_by_absolute_path`. */
    method ReadAllFiles(path: Path, ord: Order) returns (r: Result<Listing>)
      requires Inv(State(table.View(), Handle())) && PrestatInjective(Handle()) && Enumerates(ord)
      modifies this, table
      ensures Out(table.View(), Handle(), r) == ReadAll(old(table.View()), old(Handle()), path, ord)
      decreases Rank(table.View(), path), 1
    {
      var found := table.Find(ROOT, StripRoot(path));
      if !found.Ok? {
        return if found.Err? then Err(found.error) else Panic;
      }
      var i := found.value;
      if DirAt(table.nodes, i) {
        NodeAt(table.View(), i);
        hide TableInv, NodeOk, Walk;
        r := ReadNames(path, i, ord(table.nodes[i].data.entries), ord);
      } else {
        hide TableInv, Walk;
        var f := ReadFile(path);
        r := match f case Ok(b) => Ok([(path, b)]) case Err(e) => Err(e) case Panic => Panic;
      }
    }

    /** Its loop over the names of directory `i`. */
    method ReadNames(path: Path, i: Inode, names: seq<Component>, ord: Order) returns (r: Result<Listing>)
      requires Inv(State(table.View(), Handle())) && PrestatInjective(Handle()) && Enumerates(ord)
      requires Resolve(table.View(), path) == Ok(i) && DirAt(table.nodes, i)
      requires forall c :: c in names ==> c in table.nodes[i].data.entries
      modifies this, table
      ensures Out(table.View(), Handle(), r) == ReadEntries(old(table.View()), old(Handle()), path, i, names, ord)
      decreases Rank(table.View(), path), 0
    {
      hide TableInv, HandleInv, SameTree, ReadAll, ReadEntries, Resolve, Rank, Enumerates;
      ghost var all := ReadEntries(table.View(), Handle(), path, i, names, ord);
      ghost var rank := Rank(table.View(), path);
      ghost var dir := table.nodes[i];
      r := Ok([]);
      assert names[0..] == names;
      PrependNothing(all);
      for k := 0 to |names|
        invariant Inv(State(table.View(), Handle())) && PrestatInjective(Handle())
        invariant Resolve(table.View(), path) == Ok(i) && i in table.nodes && table.nodes[i] == dir
                  && Rank(table.View(), path) == rank
        invariant r.Ok? && Prepend(r.value, ReadEntries(table.View(), Handle(), path, i, names[k..], ord)) == all
      {
        assert names[k..][1..] == names[k + 1..];
        EntryStep(table.View(), Handle(), path, i, names[k..], ord);
        if names[k] != CurDir && names[k] != ParentDir {
          ghost var rest := ReadEntries(table.View(), Handle(), path, i, names[k..], ord);
          var sub := ReadAllFiles(path + [names[k]], ord);
          if !sub.Ok? {
            return sub;
          }
          ghost var later := ReadEntries(table.View(), Handle(), path, i, names[k + 1..], ord);
          PrependTwice(r.value, sub.value, later);
          r := Ok(r.value + sub.value);
        }
      }
      EntryEnd(table.View(), Handle(), path, i, ord);
      assert names[|names|..] == [];
      assert r.value + [] == r.value;
    }
  }

  ghost function Prepend(l: Listing, o: Out<Listing>): Out<Listing> {
    Out(o.t, o.h, if o.r.Ok? then Ok(l + o.r.value) else o.r)
  }

  lemma PrependNothing(o: Out<Listing>)
    ensures Prepend([], o) == o
  {
    if o.r.Ok? {
      assert [] + o.r.value == o.r.value;
    }
  }

  lemma PrependTwice(a: Listing, b: Listing, o: Out<Listing>)
    ensures Prepend(a, Prepend(b, o)) == Prepend(a + b, o)
  {
    if o.r.Ok? {
      assert a + (b + o.r.value) == a + b + o.r.value;
    }
  }

  lemma EntryEnd(t: Table, h: Vfs.Handle, path: Path, i: Inode, ord: Order)
    requires Inv(State(t, h)) && Enumerates(ord)
    requires Resolve(t, path) == Ok(i) && DirAt(t.nodes, i)
    ensures ReadEntries(t, h, path, i, [], ord) == Out(t, h, Ok([]))
  {
  }

  /** One round of the loop over the names of a directory. */
  lemma EntryStep(t: Table, h: Vfs.Handle, path: Path, i: Inode, names: seq<Component>, ord: Order)
    requires Inv(State(t, h)) && Enumerates(ord)
    requires Resolve(t, path) == Ok(i) && DirAt(t.nodes, i)
    requires names != [] && forall c :: c in names ==> c in t.nodes[i].data.entries
    ensures names[0] == CurDir || names[0] == ParentDir ==>
              ReadEntries(t, h, path, i, names, ord) == ReadEntries(t, h, path, i, names[1..], ord)
    ensures names[0] != CurDir && names[0] != ParentDir ==>
              && Rank(t, path + [names[0]]) < Rank(t, path)
              && var sub := ReadAll(t, h, path + [names[0]], ord);
              if !sub.r.Ok? then ReadEntries(t, h, path, i, names, ord) == sub
              else && Inv(After(sub)) && sub.h.prestat == h.prestat
                   && Resolve(sub.t, path) == Ok(i) && i in sub.t.nodes && sub.t.nodes[i] == t.nodes[i]
                   && Rank(sub.t, path) == Rank(t, path)
                   && ReadEntries(t, h, path, i, names, ord) ==
                       Prepend(sub.r.value, ReadEntries(sub.t, sub.h, path, i, names[1..], ord))
  {
    if names[0] != CurDir && names[0] != ParentDir {
      NodeAt(t, i);
      assert names[0] in t.nodes[i].data.entries;
      ChildPath(t, path, i, names[0]);
      var sub := ReadAll(t, h, path + [names[0]], ord);
      if sub.r.Ok? {
        WalkSameTree(t, sub.t, ROOT, StripRoot(path));
      }
      hide TableInv, NodeOk, Walk;
    }
  }

  /** The stream descriptors installed one after the other. */
  lemma StreamsInOrder(t: Table, row: RightsMap)
    ensures var a: map<Fd, FdEntry> :=
              if STDIN in row then map[0 := FdEntry(t.stdin, RegularFile, row[STDIN], row[STDIN], 0)] else map[];
            var b := if STDOUT in row then a[1 := FdEntry(t.stdout, RegularFile, row[STDOUT], row[STDOUT], 0)] else a;
            (if STDERR in row then b[2 := FdEntry(t.stderr, RegularFile, row[STDERR], row[STDERR], 0)] else b) ==
                StdFds(t, row)
  {
    var a: map<Fd, FdEntry> :=
      if STDIN in row then map[0 := FdEntry(t.stdin, RegularFile, row[STDIN], row[STDIN], 0)] else map[];
    var b := if STDOUT in row then a[1 := FdEntry(t.stdout, RegularFile, row[STDOUT], row[STDOUT], 0)] else a;
    assert b == a + if STDOUT in row then map[1 := FdEntry(t.stdout, RegularFile, row[STDOUT], row[STDOUT], 0)]
        else map[];
  }

  lemma {:induction false} PreopenStops(t: Table, row: RightsMap, order: seq<Path>, k: nat, n: nat)
    requires k <= n <= |order| && forall j :: 0 <= j < n ==> order[j] in row
    requires !Preopen(t, row, order, k).r.Ok?
    ensures Preopen(t, row, order, n) == Preopen(t, row, order, k)
    decreases n
  {
    hide PreopenOne, StdFds;
    if k < n {
      PreopenStops(t, row, order, k, n - 1);
    }
  }

  /** The pre-open loop after its first `k` rounds. */
  ghost predicate Preopening(u: Table, h: Vfs.Handle, t: Table, row: RightsMap, order: seq<Path>, k: nat) {
    && k <= |order| && (forall j :: 0 <= j < |order| ==> order[j] in row)
    && Preopen(t, row, order, k) == Out(u, h, Ok(()))
  }

  lemma PreopenNone(t: Table, row: RightsMap, order: seq<Path>)
    requires forall j :: 0 <= j < |order| ==> order[j] in row
    ensures Preopening(t, Vfs.Handle(StdFds(t, row), FIRST_FD, map[]), t, row, order, 0)
  {
  }

  lemma PreopenMore(u: Table, h: Vfs.Handle, t: Table, row: RightsMap, order: seq<Path>, k: nat)
    requires Preopening(u, h, t, row, order, k) && k < |order|
    ensures order[k] in row
    ensures var o := PreopenOne(u, h, order[k], row[order[k]], FIRST_FD + k);
            && (o.r.Ok? ==> Preopening(o.t, o.h, t, row, order, k + 1))
            && (!o.r.Ok? ==> Preopen(t, row, order, |order|) == o)
  {
    hide PreopenOne;
    var o := PreopenOne(u, h, order[k], row[order[k]], FIRST_FD + k);
    assert Preopen(t, row, order, k + 1) == o;
    PreopenedUnit(u, h, order[k], row[order[k]], FIRST_FD + k);
    if !o.r.Ok? {
      PreopenStops(t, row, order, k + 1, |order|);
    }
  }

  lemma PreopenedUnit(t: Table, h: Vfs.Handle, path: Path, rights: Rights, fd: Fd)
    ensures PreopenOne(t, h, path, rights, fd).r.Ok? ==> PreopenOne(t, h, path, rights, fd).r == Ok(())
  {
  }

  lemma PreopenDone(u: Table, h: Vfs.Handle, t: Table, row: RightsMap, order: seq<Path>)
    requires Preopening(u, h, t, row, order, |order|)
    ensures Preopen(t, row, order, |order|) == Out(u, h, Ok(()))
  {
  }

  /** Writing `x` and then `y` right behind it is one write of both; the second fails when that one would. */
  lemma WriteTwice(t: Table, i: Inode, x: seq<Byte>, y: seq<Byte>, start: nat)
    requires WriteBytes(t, i, x, start).r.Ok?
    ensures var one, all := WriteBytes(WriteBytes(t, i, x, start).t, i, y, start + |x|), WriteBytes(t, i, x + y, start);
            if one.r.Ok? then all == Eff(one.t, Ok(|x| + |y|)) else all == Eff(t, one.r)
  {
    hide WriteAt;
    WriteAtAdjacent(t.nodes[i].data.bytes, x, y, start);
  }

  /** Gathering one more buffer. */
  lemma WriteStep(t: Table, i: Inode, bufs: seq<seq<Byte>>, k: nat, start: nat)
    requires i in t.nodes && k < |bufs|
    ensures var done := Flatten(bufs[..k]);
            var one := WriteBytes(if k == 0 then t else WriteBytes(t, i, done, start).t, i, bufs[k], start + |done|);
            var all := WriteBytes(t, i, Flatten(bufs[..k + 1]), start);
            && |Flatten(bufs[..k + 1])| == |done| + |bufs[k]|
            && (k == 0 || WriteBytes(t, i, done, start).r.Ok? ==>
                  if one.r.Ok? then all == Eff(one.t, Ok(|done| + |bufs[k]|)) else all == Eff(t, one.r))
  {
    hide *;
    FlattenPrefix(bufs, k);
    if k == 0 {
      NothingBefore(bufs);
      WritesAllOrNothing(t, i, bufs[k], start);
    } else if WriteBytes(t, i, Flatten(bufs[..k]), start).r.Ok? {
      WriteTwice(t, i, Flatten(bufs[..k]), bufs[k], start);
    }
  }

  lemma NothingBefore(bufs: seq<seq<Byte>>)
    ensures Flatten(bufs[..0]) == [] && forall b: seq<Byte> :: Flatten(bufs[..0]) + b == b
  {
  }

  /** A gathering write after its first `k` buffers: one write of their concatenation. */
  ghost predicate Gathered(u: Table, t: Table, i: Inode, bufs: seq<seq<Byte>>, start: nat, k: nat, len: nat) {
    && k <= |bufs| && i in t.nodes && len == |Flatten(bufs[..k])|
    && (if k == 0 then u == t else Eff(u, Ok(len)) == WriteBytes(t, i, Flatten(bufs[..k]), start))
    && WriteFitting(u, i, bufs[k..], start + len) == WriteFitting(t, i, bufs, start)
  }

  lemma GatherNone(t: Table, i: Inode, bufs: seq<seq<Byte>>, start: nat)
    requires i in t.nodes
    ensures Gathered(t, t, i, bufs, start, 0, 0)
  {
    hide WriteFitting;
    assert bufs[..0] == [] && bufs[0..] == bufs;
  }

  lemma GatherOne(u: Table, t: Table, i: Inode, bufs: seq<seq<Byte>>, start: nat, k: nat, len: nat)
    requires Gathered(u, t, i, bufs, start, k, len) && k < |bufs|
    ensures var w := WriteBytes(u, i, bufs[k], start + len);
            if w.r.Ok? then Gathered(w.t, t, i, bufs, start, k + 1, len + w.r.value)
            else && WriteBytes(t, i, Flatten(bufs), start).r == w.r
                 && w.t == if w.r.Panic? then WriteFitting(t, i, bufs, start)
                     else WriteBytes(t, i, Flatten(bufs), start).t
  {
    hide Flatten, WriteBytes;
    WriteStep(t, i, bufs, k, start);
    WholeLonger(bufs, k);
    if k > 0 {
      OnlyFirstFails(t, i, Flatten(bufs[..k]), start, bufs[k], start + len);
    }
    var w := WriteBytes(u, i, bufs[k], start + len);
    WritesAllOrNothing(u, i, bufs[k], start + len);
    if !w.r.Ok? {
      StillFails(t, i, Flatten(bufs[..k + 1]), Flatten(bufs), start);
    }
  }

  lemma OnlyFirstFails(t: Table, i: Inode, a: seq<Byte>, start: nat, b: seq<Byte>, next: nat)
    requires WriteBytes(t, i, a, start).r.Ok?
    ensures !WriteBytes(WriteBytes(t, i, a, start).t, i, b, next).r.Err?
  {
    hide WriteAt;
  }

  lemma StillFails(t: Table, i: Inode, a: seq<Byte>, b: seq<Byte>, start: nat)
    requires !WriteBytes(t, i, a, start).r.Ok? && |a| <= |b|
    ensures WriteBytes(t, i, b, start) == WriteBytes(t, i, a, start)
  {
    hide WriteAt;
  }

  lemma WritesAllOrNothing(t: Table, i: Inode, a: seq<Byte>, start: nat)
    ensures var w := WriteBytes(t, i, a, start); if w.r.Ok? then w.r.value == |a| else w.t == t
  {
    hide WriteAt;
  }

  lemma GatherAll(u: Table, t: Table, i: Inode, bufs: seq<seq<Byte>>, start: nat, len: nat)
    requires Gathered(u, t, i, bufs, start, |bufs|, len)
    ensures if bufs == [] then u == t && len == 0 else Eff(u, Ok(len)) == WriteBytes(t, i, Flatten(bufs), start)
  {
    assert bufs[..|bufs|] == bufs;
  }

  lemma WholeLonger(bufs: seq<seq<Byte>>, k: nat)
    requires k < |bufs|
    ensures |Flatten(bufs[..k + 1])| <= |Flatten(bufs)|
  {
    assert bufs == bufs[..k + 1] + bufs[k + 1..];
    FlattenAppend(bufs[..k + 1], bufs[k + 1..]);
  }
}
