/**
 * The shared inode table of the virtual file system, as a value
 * (`InodeEntry`, `InodeImpl` and `InodeTable` in execution-engine/src/fs.rs).
 */
module Inodes {
  import opened Common
  import opened Paths
  import opened Policy

  type Inode = nat

  datatype FileType = Unknown | DirectoryType | RegularFile
  datatype FileStat = FileStat(inode: Inode, fileType: FileType, fileSize: nat)

  /** `Service` is a special file bound to a native module. */
  datatype InodeData =
    | File(bytes: seq<Byte>)
    | Service(bytes: seq<Byte>)
    | Directory(entries: map<Component, Inode>)

  datatype InodeEntry = InodeEntry(stat: FileStat, data: InodeData)

  type Nodes = map<Inode, InodeEntry>

  datatype Table = Table(nodes: Nodes, next: nat, stdin: Inode, stdout: Inode, stderr: Inode, rights: RightsTable)

  /** A table operation: the table it leaves behind, also when it fails, and its result. */
  datatype Eff<+T> = Eff(t: Table, r: Result<T>)

  const ROOT: Inode := 2

  predicate DirAt(m: Nodes, i: Inode) {
    i in m && m[i].data.Directory?
  }

  // ---------------------------------------------------------------------------
  // Bytes of one file.
  // ---------------------------------------------------------------------------

  /** `Vec::resize(size, 0)`. */
  function Resize(b: seq<Byte>, size: nat): (r: seq<Byte>)
    ensures |r| == size
  {
    if size <= |b| then b[..size] else b + seq(size - |b|, _ => 0)
  }

  /** One contiguous write at `offset`; a gap before it and the bytes after the old end are zeros. */
  function WriteAt(b: seq<Byte>, data: seq<Byte>, offset: nat): (r: seq<Byte>)
    ensures |r| == (if offset + |data| > |b| then offset + |data| else |b|)
  {
    var grown := if offset + |data| > |b| then Resize(b, offset + |data|) else b;
    grown[..offset] + data + grown[offset + |data|..]
  }

  /** Byte by byte: the data where it was written, the old bytes elsewhere, zeros in a gap. */
  lemma WriteAtBytes(b: seq<Byte>, data: seq<Byte>, offset: nat)
    ensures var r := WriteAt(b, data, offset);
            && |b| <= |r| && offset + |data| <= |r|
            && forall k :: 0 <= k < |r| ==>
                r[k] == if offset <= k < offset + |data| then data[k - offset] else if k < |b| then b[k] else 0
  {
  }

  /** Two adjacent writes are one write of the concatenation. */
  lemma WriteAtAdjacent(b: seq<Byte>, x: seq<Byte>, y: seq<Byte>, offset: nat)
    ensures WriteAt(WriteAt(b, x, offset), y, offset + |x|) == WriteAt(b, x + y, offset)
  {
    hide WriteAt;
    var m, r := WriteAt(b, x, offset), WriteAt(b, x + y, offset);
    var l := WriteAt(m, y, offset + |x|);
    WriteAtBytes(b, x, offset);
    WriteAtBytes(m, y, offset + |x|);
    WriteAtBytes(b, x + y, offset);
    assert |l| == |r|;
  }

  /** Replaces the bytes of a file or service and records the new size. */
  function SetBytes(t: Table, i: Inode, b: seq<Byte>): Table
    requires i in t.nodes && !t.nodes[i].data.Directory?
  {
    var e := t.nodes[i];
    t.(nodes := t.nodes[i := InodeEntry(e.stat.(fileSize := |b|), e.data.(bytes := b))])
  }

  /** `get_mut(inode)?.resize_file(size, 0)`; a vector of 2^63 bytes or more overflows its capacity. */
  function ResizeFile(t: Table, i: Inode, size: nat): Eff<()> {
    if i !in t.nodes then Eff(t, Err(NoEnt))
    else if t.nodes[i].data.Directory? then Eff(t, Err(IsDir))
    else if size >= U63 then Eff(t, Panic)
    else Eff(SetBytes(t, i, Resize(t.nodes[i].data.bytes, size)), Ok(()))
  }

  /** `get_mut(inode)?.write_file(data, offset)`. */
  function WriteBytes(t: Table, i: Inode, data: seq<Byte>, offset: nat): Eff<nat> {
    if i !in t.nodes then Eff(t, Err(NoEnt))
    else if t.nodes[i].data.Directory? then Eff(t, Err(IsDir))
    else if offset + |data| >= U63 then Eff(t, Panic)
    else Eff(SetBytes(t, i, WriteAt(t.nodes[i].data.bytes, data, offset)), Ok(|data|))
  }

  /** `get_mut(inode)?.truncate_file()`. */
  function TruncateFile(t: Table, i: Inode): Eff<()> {
    ResizeFile(t, i, 0)
  }

  // ---------------------------------------------------------------------------
  // Names.
  // ---------------------------------------------------------------------------

  function Lookup(m: Nodes, i: Inode, c: Component): Result<Inode> {
    if i !in m then Err(NoEnt)
    else if !m[i].data.Directory? then Err(NotDir)
    else if c !in m[i].data.entries then Err(NoEnt)
    else Ok(m[i].data.entries[c])
  }

  /** `get_inode_by_inode_path`: one lookup per component; `.` and `..` are stored entries like any other. */
  function Walk(m: Nodes, i: Inode, path: Path): Result<Inode>
    decreases |path|
  {
    if path == [] then
      if i in m then Ok(i) else Err(NoEnt)
    else
      match Lookup(m, i, path[0])
      case Ok(j) => Walk(m, j, path[1..])
      case Err(e) => Err(e)
      case Panic => Panic
  }

  lemma {:induction false} WalkAppend(m: Nodes, i: Inode, p: Path, q: Path)
    requires Walk(m, i, p).Ok?
    ensures Walk(m, i, p + q) == Walk(m, Walk(m, i, p).value, q)
    decreases |p|
  {
    if p == [] {
      assert p + q == q;
    } else {
      assert (p + q)[1..] == p[1..] + q;
      WalkAppend(m, Lookup(m, i, p[0]).value, p[1..], q);
    }
  }

  /** A path resolves only if each of its prefixes does. */
  lemma {:induction false} WalkPrefix(m: Nodes, i: Inode, p: Path, q: Path)
    requires Walk(m, i, p + q).Ok?
    requires NoDangling(m)
    requires i in m
    ensures Walk(m, i, p).Ok?
    decreases |p|
  {
    if p != [] {
      assert (p + q)[1..] == p[1..] + q;
      WalkPrefix(m, Lookup(m, i, p[0]).value, p[1..], q);
    }
  }

  /** `new_inode`: the candidate is handed out once and the largest number is never used. */
  function NewInode(t: Table): Eff<Inode> {
    if t.next in t.nodes || t.next + 1 >= U64 then Eff(t, Err(NFile))
    else Eff(t.(next := t.next + 1), Ok(t.next))
  }

  function NewDirectory(i: Inode, parent: Inode): InodeEntry {
    InodeEntry(FileStat(i, DirectoryType, 0), Directory(map[CurDir := i, ParentDir := parent]))
  }

  function NewFile(i: Inode, b: seq<Byte>): InodeEntry {
    InodeEntry(FileStat(i, RegularFile, |b|), File(b))
  }

  /** `get_mut(parent)?.insert(name, inode)`. */
  function Link(t: Table, parent: Inode, c: Component, i: Inode): Eff<()> {
    if parent !in t.nodes then Eff(t, Err(NoEnt))
    else if !t.nodes[parent].data.Directory? then Eff(t, Err(NotDir))
    else
      var e := t.nodes[parent];
      Eff(t.(nodes := t.nodes[parent := e.(data := Directory(e.data.entries[c := i]))]), Ok(()))
  }

  /** `add_dir`: link first, then insert, so a bad parent leaves no island. */
  function AddDir(t: Table, parent: Inode, c: Component, i: Inode): Eff<()> {
    var linked := if parent != i then Link(t, parent, c, i) else Eff(t, Ok(()));
    if linked.r.Ok? then
      Eff(linked.t.(nodes := linked.t.nodes[i := NewDirectory(i, parent)]), Ok(()))
    else linked
  }

  /** `add_all_dir`: walk the path, creating what is missing. */
  function AddAllDir(t: Table, parent: Inode, path: Path): Eff<Inode>
    decreases |path|
  {
    if path == [] then Eff(t, Ok(parent))
    else if !path[0].Normal? then Eff(t, Err(Inval))
    else
      match Walk(t.nodes, parent, [path[0]])
      case Ok(j) => AddAllDir(t, j, path[1..])
      case Err(e) =>
        if e != NoEnt then Eff(t, Err(e)) else
        var alloc := NewInode(t);
        if !alloc.r.Ok? then alloc else
        var added := AddDir(alloc.t, parent, path[0], alloc.r.value);
        if !added.r.Ok? then Eff(added.t, Err(added.r.error)) else
        AddAllDir(added.t, alloc.r.value, path[1..])
      case Panic => Eff(t, Panic)
  }

  /** The directory a new file goes into, with the missing parents created. */
  function FileParent(t: Table, parent: Inode, path: Path): Eff<Inode> {
    if !HasParent(path) then Eff(t, Err(Inval))
    else if Parent(path) == [] then Eff(t, Ok(parent))
    else if !path[|path| - 1].Normal? then Eff(t, Err(Inval))
    else
      var dirs := AddAllDir(t, parent, Parent(path));
      if !dirs.r.Ok? then dirs else Eff(dirs.t, Walk(dirs.t.nodes, parent, Parent(path)))
  }

  /** `add_file`: insert first, then link, so a bad parent leaves an unlinked inode. */
  function AddFile(t: Table, parent: Inode, path: Path, i: Inode, b: seq<Byte>): Eff<()> {
    var dir := FileParent(t, parent, path);
    if !dir.r.Ok? then Eff(dir.t, if dir.r.Err? then Err(dir.r.error) else Panic) else
    var inserted := dir.t.(nodes := dir.t.nodes[i := NewFile(i, b)]);
    if dir.r.value != i then Link(inserted, dir.r.value, path[|path| - 1], i) else Eff(inserted, Ok(()))
  }

  // ---------------------------------------------------------------------------
  // The table invariant.
  // ---------------------------------------------------------------------------

  ghost predicate NoDangling(m: Nodes) {
    forall i, c :: i in m && m[i].data.Directory? && c in m[i].data.entries ==> m[i].data.entries[c] in m
  }

  /** What one inode must look like. */
  ghost predicate NodeOk(m: Nodes, i: Inode)
    requires i in m
  {
    var e := m[i];
    && e.stat.inode == i
    && (match e.data
        case Directory(d) =>
          && e.stat.fileType == DirectoryType && e.stat.fileSize == 0
          && CurDir in d && d[CurDir] == i
          && ParentDir in d && DirAt(m, d[ParentDir])
          && RootDir !in d
          && (forall c :: c in d ==> d[c] in m)
          && (forall c :: c in d && c.Normal? && DirAt(m, d[c]) ==> i < d[c])
        case _ => e.stat.fileType == RegularFile && e.stat.fileSize == |e.data.bytes| < U63)
  }

  predicate Named(m: Nodes, i: Inode, c: Component) {
    DirAt(m, i) && c.Normal? && c in m[i].data.entries
  }

  function Target(m: Nodes, i: Inode, c: Component): Inode
    requires Named(m, i, c)
  {
    m[i].data.entries[c]
  }

  /** No inode has two named links. */
  ghost predicate LinksUnique(m: Nodes) {
    forall i, a, j, b :: Named(m, i, a) && Named(m, j, b) && Target(m, i, a) == Target(m, j, b) ==> i == j && a == b
  }

  ghost predicate TableInv(t: Table) {
    && DirAt(t.nodes, ROOT)
    && (forall i :: i in t.nodes ==> ROOT <= i < t.next)
    && (forall i {:trigger NodeOk(t.nodes, i)} :: i in t.nodes ==> NodeOk(t.nodes, i))
    && LinksUnique(t.nodes)
    && t.next < U64
    && {t.stdin, t.stdout, t.stderr} <= t.nodes.Keys
  }

  // ---------------------------------------------------------------------------
  // Two-table relations.
  // ---------------------------------------------------------------------------

  predicate SameKind(a: InodeData, b: InodeData) {
    a.File? == b.File? && a.Service? == b.Service?
  }

  /** Inodes are never removed, never change kind, and the candidate only moves up. */
  ghost predicate Grows(t: Table, u: Table) {
    && t.next <= u.next
    && t.rights == u.rights && t.stdin == u.stdin && t.stdout == u.stdout && t.stderr == u.stderr
    && (forall i :: i in t.nodes ==> i in u.nodes && SameKind(t.nodes[i].data, u.nodes[i].data))
  }

  /** The bytes of every file and service are untouched. */
  ghost predicate KeepsBytes(t: Table, u: Table) {
    forall i :: i in t.nodes && !t.nodes[i].data.Directory? ==> i in u.nodes && u.nodes[i] == t.nodes[i]
  }

  /** Every name keeps its inode. */
  ghost predicate KeepsNames(t: Table, u: Table) {
    forall i, c :: DirAt(t.nodes, i) && c in t.nodes[i].data.entries ==>
      DirAt(u.nodes, i) && c in u.nodes[i].data.entries && u.nodes[i].data.entries[c] == t.nodes[i].data.entries[c]
  }

  /** Pure growth: nothing rewritten, nothing rebound. */
  ghost predicate Extends(t: Table, u: Table) {
    Grows(t, u) && KeepsBytes(t, u) && KeepsNames(t, u)
  }

  lemma ExtendsRefl(t: Table)
    ensures Extends(t, t)
  {
  }

  lemma ExtendsTrans(t: Table, u: Table, v: Table)
    requires Extends(t, u) && Extends(u, v)
    ensures Extends(t, v)
  {
    KeepsNamesTrans(t, u, v);
  }

  lemma KeepsNamesTrans(t: Table, u: Table, v: Table)
    requires KeepsNames(t, u) && KeepsNames(u, v)
    ensures KeepsNames(t, v)
  {
    forall i, c | DirAt(t.nodes, i) && c in t.nodes[i].data.entries
      ensures DirAt(v.nodes, i) && c in v.nodes[i].data.entries
                && v.nodes[i].data.entries[c] == t.nodes[i].data.entries[c]
    {
      assert DirAt(u.nodes, i) && c in u.nodes[i].data.entries;
    }
  }

  /** A path that resolves keeps resolving to the same inode when names are kept. */
  lemma {:induction false} WalkStable(t: Table, u: Table, i: Inode, p: Path)
    requires Grows(t, u) && KeepsNames(t, u)
    requires Walk(t.nodes, i, p).Ok?
    ensures Walk(u.nodes, i, p) == Walk(t.nodes, i, p)
    decreases |p|
  {
    if p != [] {
      WalkStable(t, u, Lookup(t.nodes, i, p[0]).value, p[1..]);
    }
  }

  // ---------------------------------------------------------------------------
  // Each table operation against the invariant and the relations.
  // ---------------------------------------------------------------------------

  lemma NodeAt(t: Table, i: Inode)
    requires TableInv(t)
    requires i in t.nodes
    ensures ROOT <= i < t.next && NodeOk(t.nodes, i)
  {
  }

  lemma LookupIn(t: Table, i: Inode, c: Component)
    requires TableInv(t)
    requires i in t.nodes
    ensures ROOT <= i < t.next
    ensures Lookup(t.nodes, i, c).Ok? ==> Lookup(t.nodes, i, c).value in t.nodes
  {
    NodeAt(t, i);
  }

  lemma TableNoDangling(t: Table)
    requires TableInv(t)
    ensures NoDangling(t.nodes)
  {
    forall i, c | i in t.nodes && t.nodes[i].data.Directory? && c in t.nodes[i].data.entries
      ensures t.nodes[i].data.entries[c] in t.nodes
    {
      NodeAt(t, i);
    }
  }

  lemma SetBytesNode(t: Table, i: Inode, b: seq<Byte>, j: Inode)
    requires TableInv(t)
    requires i in t.nodes && !t.nodes[i].data.Directory? && |b| < U63
    requires j in t.nodes
    ensures NodeOk(SetBytes(t, i, b).nodes, j)
  {
    hide TableInv;
    NodeAt(t, j);
  }

  lemma SetBytesInv(t: Table, i: Inode, b: seq<Byte>)
    requires TableInv(t)
    requires i in t.nodes && !t.nodes[i].data.Directory? && |b| < U63
    ensures TableInv(SetBytes(t, i, b))
  {
    hide NodeOk;
    var u := SetBytes(t, i, b);
    forall j | j in u.nodes ensures NodeOk(u.nodes, j) {
      SetBytesNode(t, i, b, j);
    }
    assert forall j, c :: Named(u.nodes, j, c) ==>
        Named(t.nodes, j, c) && Target(u.nodes, j, c) == Target(t.nodes, j, c);
  }

  lemma NewInodeOk(t: Table)
    requires TableInv(t)
    ensures var f := NewInode(t);
            && TableInv(f.t) && Extends(t, f.t)
            && f.t.nodes == t.nodes
            && (f.r.Ok? ==> f.r.value == t.next && t.next !in t.nodes && f.t.next == t.next + 1)
            && !f.r.Panic?
  {
    hide NodeOk, LinksUnique;
  }

  /** Linking an inode nobody names yet. */
  lemma LinkUnique(m: Nodes, parent: Inode, c: Component, i: Inode)
    requires LinksUnique(m)
    requires DirAt(m, parent)
    requires forall j, a :: Named(m, j, a) ==> Target(m, j, a) != i
    ensures LinksUnique(m[parent := m[parent].(data := Directory(m[parent].data.entries[c := i]))])
  {
    var n := m[parent := m[parent].(data := Directory(m[parent].data.entries[c := i]))];
    forall j, a | Named(n, j, a)
      ensures (j == parent && a == c && Target(n, j, a) == i) || (Named(m, j, a) && Target(n, j, a) == Target(m, j, a))
    {
    }
  }

  lemma NothingTargets(t: Table, i: Inode)
    requires TableInv(t)
    requires i !in t.nodes
    ensures forall j, a :: Named(t.nodes, j, a) ==> Target(t.nodes, j, a) != i
  {
    forall j, a | Named(t.nodes, j, a) ensures Target(t.nodes, j, a) != i {
      NodeAt(t, j);
    }
  }

  lemma AddDirNode(t: Table, parent: Inode, c: Component, i: Inode, j: Inode)
    requires TableInv(t)
    requires c.Normal? && i !in t.nodes && parent < i && DirAt(t.nodes, parent)
    requires j in AddDir(t, parent, c, i).t.nodes
    ensures NodeOk(AddDir(t, parent, c, i).t.nodes, j)
  {
    hide TableInv;
    if j != i {
      NodeAt(t, j);
    }
  }

  lemma AddDirUnique(t: Table, parent: Inode, c: Component, i: Inode)
    requires TableInv(t)
    requires c.Normal? && i !in t.nodes && DirAt(t.nodes, parent)
    ensures LinksUnique(AddDir(t, parent, c, i).t.nodes)
  {
    var l := Link(t, parent, c, i).t.nodes;
    var u := AddDir(t, parent, c, i).t.nodes;
    NothingTargets(t, i);
    LinkUnique(t.nodes, parent, c, i);
    assert forall j, a :: Named(u, j, a) ==> Named(l, j, a) && Target(u, j, a) == Target(l, j, a);
    hide TableInv;
  }

  /** `AddDir` below a directory, under a fresh number, keeps the invariant; an existing name is replaced. */
  lemma AddDirInv(t: Table, parent: Inode, c: Component, i: Inode)
    requires TableInv(t)
    requires c.Normal? && i !in t.nodes && parent < i < t.next && ROOT <= i && DirAt(t.nodes, parent)
    ensures TableInv(AddDir(t, parent, c, i).t)
  {
    hide NodeOk, LinksUnique;
    var u := AddDir(t, parent, c, i).t;
    AddDirUnique(t, parent, c, i);
    forall j | j in u.nodes ensures NodeOk(u.nodes, j) {
      AddDirNode(t, parent, c, i, j);
    }
  }

  /** What `AddDir` binds, and that it rebinds nothing when the name is new. */
  lemma AddDirNames(t: Table, parent: Inode, c: Component, i: Inode)
    requires i !in t.nodes && DirAt(t.nodes, parent)
    ensures var a := AddDir(t, parent, c, i);
            && a.r.Ok? && a.t.next == t.next
            && a.t.nodes.Keys == t.nodes.Keys + {i}
            && a.t.nodes[i] == NewDirectory(i, parent) && Lookup(a.t.nodes, parent, c) == Ok(i)
            && Grows(t, a.t) && KeepsBytes(t, a.t)
            && (c !in t.nodes[parent].data.entries ==> KeepsNames(t, a.t))
  {
  }

  /** `add_all_dir` rebinds nothing, and a later lookup of the path finds the inode it returned. */
  lemma {:induction false} AddAllDirOk(t: Table, parent: Inode, path: Path)
    requires TableInv(t)
    requires parent in t.nodes
    ensures var a := AddAllDir(t, parent, path);
            && TableInv(a.t) && Extends(t, a.t) && t.next <= a.t.next
            && !a.r.Panic?
            && (a.r.Ok? ==> Walk(a.t.nodes, parent, path) == a.r)
            && (forall i :: i in a.t.nodes && i !in t.nodes ==> t.next <= i)
    decreases |path|
  {
    ExtendsRefl(t);
    hide TableInv, Extends, NodeOk;
    if path != [] && path[0].Normal? {
      LookupIn(t, parent, path[0]);
      var found := Lookup(t.nodes, parent, path[0]);
      assert Walk(t.nodes, parent, [path[0]]) == found;
      if found.Ok? {
        AddAllDirOk(t, found.value, path[1..]);
        WalkStep(t, AddAllDir(t, parent, path).t, parent, path);
      } else if found.error == NoEnt {
        NewInodeOk(t);
        var alloc := NewInode(t);
        if alloc.r.Ok? {
          var i := alloc.r.value;
          AddDirInv(alloc.t, parent, path[0], i);
          var u := AddDir(alloc.t, parent, path[0], i).t;
          AddAllDirOk(u, i, path[1..]);
          ExtendsTrans(t, alloc.t, u);
          ExtendsTrans(t, u, AddAllDir(t, parent, path).t);
          WalkStep(u, AddAllDir(t, parent, path).t, parent, path);
        }
      }
    }
  }

  /** The first step of a walk survives extension. */
  lemma WalkStep(t: Table, u: Table, i: Inode, path: Path)
    requires Extends(t, u)
    requires path != [] && Lookup(t.nodes, i, path[0]).Ok?
    ensures Walk(u.nodes, i, path) == Walk(u.nodes, Lookup(t.nodes, i, path[0]).value, path[1..])
  {
  }

  /** Where the path resolves, `add_all_dir` creates nothing. */
  lemma {:induction false} AddAllDirFound(t: Table, parent: Inode, path: Path)
    requires Walk(t.nodes, parent, path).Ok?
    ensures var a := AddAllDir(t, parent, path);
            a.t == t && !a.r.Panic? && (a.r.Ok? ==> a.r == Walk(t.nodes, parent, path))
    decreases |path|
  {
    if path != [] && path[0].Normal? {
      var j := Lookup(t.nodes, parent, path[0]).value;
      assert [path[0]][1..] == [];
      assert Walk(t.nodes, parent, [path[0]]) == Walk(t.nodes, j, []);
      AddAllDirFound(t, j, path[1..]);
    }
  }

  predicate EmptyDirectory(m: Nodes, i: Inode) {
    DirAt(m, i) && m[i].data.entries.Keys == {CurDir, ParentDir}
  }

  /** `add_all_dir` either changes nothing or ends in a directory without names. */
  lemma {:induction false} AddAllDirEnd(t: Table, parent: Inode, path: Path)
    requires TableInv(t)
    requires parent in t.nodes
    requires AddAllDir(t, parent, path).r.Ok?
    ensures var a := AddAllDir(t, parent, path);
            && t.next <= a.t.next
            && (a.t.next == t.next ==> a.t == t)
            && (a.t.next > t.next ==> EmptyDirectory(a.t.nodes, a.r.value))
            && (EmptyDirectory(t.nodes, parent) ==> EmptyDirectory(a.t.nodes, a.r.value))
    decreases |path|
  {
    hide TableInv, Grows, KeepsBytes, KeepsNames, NodeOk;
    if path != [] {
      LookupIn(t, parent, path[0]);
      var found := Lookup(t.nodes, parent, path[0]);
      assert Walk(t.nodes, parent, [path[0]]) == found;
      if found.Ok? {
        AddAllDirEnd(t, found.value, path[1..]);
      } else {
        NewInodeOk(t);
        var alloc := NewInode(t);
        AddDirInv(alloc.t, parent, path[0], alloc.r.value);
        AddDirNames(alloc.t, parent, path[0], alloc.r.value);
        AddAllDirEnd(AddDir(alloc.t, parent, path[0], alloc.r.value).t, alloc.r.value, path[1..]);
      }
    }
  }

  function InsertFile(t: Table, i: Inode, b: seq<Byte>): Table {
    t.(nodes := t.nodes[i := NewFile(i, b)])
  }

  lemma InsertFileNode(t: Table, i: Inode, b: seq<Byte>, j: Inode)
    requires TableInv(t)
    requires i !in t.nodes && |b| < U63
    requires j in InsertFile(t, i, b).nodes
    ensures NodeOk(InsertFile(t, i, b).nodes, j)
  {
    hide TableInv;
    if j != i {
      NodeAt(t, j);
    }
  }

  lemma InsertFileInv(t: Table, i: Inode, b: seq<Byte>)
    requires TableInv(t)
    requires i !in t.nodes && ROOT <= i < t.next && |b| < U63
    ensures var u := InsertFile(t, i, b);
            && TableInv(u) && Extends(t, u)
            && (forall j, a :: Named(u.nodes, j, a) ==> Target(u.nodes, j, a) != i)
  {
    hide NodeOk;
    var u := InsertFile(t, i, b);
    forall j | j in u.nodes ensures NodeOk(u.nodes, j) {
      InsertFileNode(t, i, b, j);
    }
    NothingTargets(t, i);
    assert forall j, c :: Named(u.nodes, j, c) ==>
        Named(t.nodes, j, c) && Target(u.nodes, j, c) == Target(t.nodes, j, c);
  }

  lemma LinkNode(t: Table, parent: Inode, c: Component, i: Inode, j: Inode)
    requires TableInv(t)
    requires DirAt(t.nodes, parent) && c.Normal? && i in t.nodes && !DirAt(t.nodes, i)
    requires j in t.nodes
    ensures NodeOk(Link(t, parent, c, i).t.nodes, j)
  {
    hide TableInv;
    NodeAt(t, j);
  }

  /** Naming an unnamed file under a new name. */
  lemma LinkInv(t: Table, parent: Inode, c: Component, i: Inode)
    requires TableInv(t)
    requires DirAt(t.nodes, parent) && c.Normal? && c !in t.nodes[parent].data.entries
    requires i in t.nodes && !DirAt(t.nodes, i)
    requires forall j, a :: Named(t.nodes, j, a) ==> Target(t.nodes, j, a) != i
    ensures var l := Link(t, parent, c, i);
            && l.r.Ok? && TableInv(l.t) && Extends(t, l.t)
            && Lookup(l.t.nodes, parent, c) == Ok(i) && l.t.nodes[i] == t.nodes[i]
  {
    hide NodeOk;
    var u := Link(t, parent, c, i).t;
    LinkUnique(t.nodes, parent, c, i);
    hide LinksUnique;
    forall j | j in u.nodes ensures NodeOk(u.nodes, j) {
      LinkNode(t, parent, c, i, j);
    }
  }

  /** Where a file that does not resolve yet goes: an extension of the table, and a name that is free there. */
  lemma FileParentOk(t: Table, parent: Inode, path: Path)
    requires TableInv(t)
    requires DirAt(t.nodes, parent)
    requires !Walk(t.nodes, parent, path).Ok?
    ensures var d := FileParent(t, parent, path);
            && TableInv(d.t) && Extends(t, d.t) && t.next <= d.t.next && !d.r.Panic?
            && (forall i :: i in d.t.nodes && i !in t.nodes ==> t.next <= i)
            && (d.r.Ok? ==> path != [] && path[|path| - 1].Normal? && d.r.value in d.t.nodes)
            && (d.r.Ok? ==> Walk(d.t.nodes, parent, path[..|path| - 1]) == d.r)
            && (d.r.Ok? && DirAt(d.t.nodes, d.r.value) ==> path[|path| - 1] !in d.t.nodes[d.r.value].data.entries)
  {
    hide TableInv, Extends, Walk, AddAllDir, NodeOk;
    ExtendsRefl(t);
    if HasParent(path) {
      var n := |path| - 1;
      if n == 0 {
        assert path == [path[0]];
        OneLookup(t, parent, path[0]);
      } else if path[n].Normal? {
        NestedParentOk(t, parent, path);
      }
    }
  }

  lemma OneLookup(t: Table, parent: Inode, c: Component)
    requires TableInv(t) && DirAt(t.nodes, parent)
    ensures Walk(t.nodes, parent, [c]).Ok? <==> c in t.nodes[parent].data.entries
    ensures Walk(t.nodes, parent, []) == Ok(parent)
    ensures !Walk(t.nodes, parent, [c]).Ok? ==> c.Normal? || c.RootDir?
  {
    NodeAt(t, parent);
    hide TableInv;
    assert [c][1..] == [];
  }

  /** The same below the parent directories, which are created as needed. */
  lemma NestedParentOk(t: Table, parent: Inode, path: Path)
    requires TableInv(t) && DirAt(t.nodes, parent) && |path| > 1 && !Walk(t.nodes, parent, path).Ok?
    ensures var n := |path| - 1;
            var a := AddAllDir(t, parent, path[..n]);
            && TableInv(a.t) && Extends(t, a.t) && t.next <= a.t.next && !a.r.Panic?
            && (forall i :: i in a.t.nodes && i !in t.nodes ==> t.next <= i)
            && (a.r.Ok? ==> a.r.value in a.t.nodes && Walk(a.t.nodes, parent, path[..n]) == a.r)
            && (a.r.Ok? && path[n].Normal? && DirAt(a.t.nodes, a.r.value) ==>
                path[n] !in a.t.nodes[a.r.value].data.entries)
  {
    hide TableInv, Extends, Walk, AddAllDir, NodeOk;
    var n := |path| - 1;
    var c, a := path[n], AddAllDir(t, parent, path[..n]);
    AddAllDirOk(t, parent, path[..n]);
    if a.r.Ok? {
      WalkInNodes(a.t.nodes, parent, path[..n]);
      AddAllDirEnd(t, parent, path[..n]);
      if a.t == t && DirAt(t.nodes, a.r.value) {
        assert path == path[..n] + [c];
        WalkAppend(t.nodes, parent, path[..n], [c]);
        OneLookup(t, a.r.value, c);
      }
    }
  }

  lemma {:induction false} WalkInNodes(m: Nodes, i: Inode, path: Path)
    requires Walk(m, i, path).Ok?
    ensures Walk(m, i, path).value in m
    decreases |path|
  {
    if path != [] {
      WalkInNodes(m, Lookup(m, i, path[0]).value, path[1..]);
    }
  }

  /**
   * `add_file` of a path that does not resolve: it rebinds nothing, and on success the path resolves to the new file.
   */
  lemma AddFileOk(t: Table, parent: Inode, path: Path, i: Inode, b: seq<Byte>)
    requires TableInv(t)
    requires DirAt(t.nodes, parent)
    requires !Walk(t.nodes, parent, path).Ok?
    requires i !in t.nodes && ROOT <= i < t.next && |b| < U63
    ensures var a := AddFile(t, parent, path, i, b);
            && TableInv(a.t) && Extends(t, a.t) && !a.r.Panic?
            && (a.r.Ok? ==> i in a.t.nodes && a.t.nodes[i] == NewFile(i, b) && Walk(a.t.nodes, parent, path) == Ok(i))
  {
    hide TableInv, Grows, KeepsBytes, KeepsNames, NodeOk;
    FileParentOk(t, parent, path);
    var d := FileParent(t, parent, path);
    if d.r.Ok? {
      var n := |path| - 1;
      InsertFileInv(d.t, i, b);
      var u := InsertFile(d.t, i, b);
      ExtendsTrans(t, d.t, u);
      if DirAt(u.nodes, d.r.value) {
        LinkInv(u, d.r.value, path[n], i);
        var v := Link(u, d.r.value, path[n], i).t;
        ExtendsTrans(t, u, v);
        ExtendsTrans(d.t, u, v);
        assert path == path[..n] + [path[n]];
        WalkStable(d.t, v, parent, path[..n]);
        WalkAppend(v.nodes, parent, path[..n], [path[n]]);
      }
    }
  }
}
