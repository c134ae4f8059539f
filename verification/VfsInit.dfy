/**
 * Creating the file system for a rights table.
 */
module VfsInit {
  import opened Common
  import opened Paths
  import opened Policy
  import opened Inodes
  import opened Vfs
  import opened VfsSteps
  import opened VfsWorld
  import opened VfsOffsets

  /** A standard stream: a file that is its own parent, so it is linked nowhere. */
  function AddStream(t: Table, path: Path): Eff<Inode> {
    var alloc := NewInode(t);
    if !alloc.r.Ok? then alloc else
    var added := AddFile(alloc.t, alloc.r.value, path, alloc.r.value, []);
    Eff(added.t, if added.r.Ok? then alloc.r else if added.r.Err? then Err(added.r.error) else Panic)
  }

  /** `InodeTable::new`. */
  function NewTable(rights: RightsTable): Eff<()> {
    var t0 := Table(map[], ROOT + 1, 0, 1, 2, rights);
    var root := AddDir(t0, ROOT, RootDir, ROOT);
    if !root.r.Ok? then root else
    var a := AddStream(root.t, STDIN);
    if !a.r.Ok? then Eff(a.t, Err(Inval)) else
    var b := AddStream(a.t.(stdin := a.r.value), STDOUT);
    if !b.r.Ok? then Eff(b.t, Err(Inval)) else
    var c := AddStream(b.t.(stdout := b.r.value), STDERR);
    if !c.r.Ok? then Eff(c.t, Err(Inval)) else
    Eff(c.t.(stderr := c.r.value), Ok(()))
  }

  function StreamNodes(): Nodes {
    map[ROOT := NewDirectory(ROOT, ROOT), 3 := NewFile(3, []), 4 := NewFile(4, []), 5 := NewFile(5, [])]
  }

  lemma AddStreamIs(t: Table, name: string)
    requires t.next !in t.nodes && t.next + 1 < U64
    ensures AddStream(t, [Normal(name)]) ==
              Eff(t.(nodes := t.nodes[t.next := NewFile(t.next, [])], next := t.next + 1), Ok(t.next))
  {
    assert [Normal(name)][..0] == [];
  }

  lemma NewTableIs(rights: RightsTable)
    ensures NewTable(rights) == Eff(Table(StreamNodes(), 6, 3, 4, 5, rights), Ok(()))
  {
    var t0 := Table(map[], ROOT + 1, 0, 1, 2, rights);
    var r := AddDir(t0, ROOT, RootDir, ROOT).t;
    AddStreamIs(r, "stdin");
    var a := AddStream(r, STDIN).t.(stdin := 3);
    AddStreamIs(a, "stdout");
    var b := AddStream(a, STDOUT).t.(stdout := 4);
    AddStreamIs(b, "stderr");
  }

  lemma StreamNodeOk(i: Inode)
    requires i in StreamNodes()
    ensures ROOT <= i < 6 && NodeOk(StreamNodes(), i)
    ensures forall c :: !Named(StreamNodes(), i, c)
  {
    var m := StreamNodes();
    assert m[i] == (if i == ROOT then NewDirectory(ROOT, ROOT) else NewFile(i, []));
  }

  lemma NewTableInv(rights: RightsTable)
    ensures TableInv(NewTable(rights).t)
  {
    NewTableIs(rights);
    var m := StreamNodes();
    assert {3, 4, 5} <= m.Keys && DirAt(m, ROOT);
    hide NodeOk, StreamNodes;
    forall i | i in m ensures ROOT <= i < 6 && NodeOk(m, i) && forall c :: !Named(m, i, c) {
      StreamNodeOk(i);
    }
  }

  /** `install_services` for one service: a plain file is created, then uplifted. */
  function InstallService(t: Table, path: Path): Eff<()> {
    var alloc := NewInode(t);
    if !alloc.r.Ok? then Eff(alloc.t, Err(NFile)) else
    var i := alloc.r.value;
    var added := AddFile(alloc.t, ROOT, StripRoot(path), i, []);
    if !added.r.Ok? then added
    else if i !in added.t.nodes then Eff(added.t, Err(Inval))
    else Eff(added.t.(nodes := added.t.nodes[i := added.t.nodes[i].(data := Service([]))]), Ok(()))
  }

  lemma UpliftNode(t: Table, i: Inode, j: Inode)
    requires TableInv(t)
    requires i in t.nodes && t.nodes[i] == NewFile(i, []) && j in t.nodes
    ensures NodeOk(t.nodes[i := t.nodes[i].(data := Service([]))], j)
  {
    hide TableInv;
    NodeAt(t, j);
  }

  lemma UpliftInv(t: Table, i: Inode)
    requires TableInv(t)
    requires i in t.nodes && t.nodes[i] == NewFile(i, [])
    ensures TableInv(t.(nodes := t.nodes[i := t.nodes[i].(data := Service([]))]))
  {
    hide NodeOk;
    var m := t.nodes[i := t.nodes[i].(data := Service([]))];
    forall j | j in m ensures NodeOk(m, j) {
      UpliftNode(t, i, j);
    }
    assert forall j, c :: Named(m, j, c) ==> Named(t.nodes, j, c) && Target(m, j, c) == Target(t.nodes, j, c);
  }

  /** A new file may take over a name that is in use: the old file or directory then has none. */
  lemma TakesOver(t: Table, parent: Inode, c: Component, i: Inode)
    requires TableInv(t) && DirAt(t.nodes, parent) && c.Normal? && i in t.nodes && !DirAt(t.nodes, i)
               && Unnamed(t.nodes, i)
    ensures var l := Link(t, parent, c, i); l.r.Ok? && TableInv(l.t) && Grows(t, l.t) && l.t.nodes[i] == t.nodes[i]
  {
    hide NodeOk;
    var u := Link(t, parent, c, i).t;
    LinkUnique(t.nodes, parent, c, i);
    hide LinksUnique;
    forall j | j in u.nodes ensures NodeOk(u.nodes, j) {
      LinkNode(t, parent, c, i, j);
    }
  }

  /** `add_file` of a path that is in use. */
  lemma AddFileOver(t: Table, parent: Inode, path: Path, i: Inode)
    requires TableInv(t) && DirAt(t.nodes, parent) && Walk(t.nodes, parent, path).Ok?
    requires i !in t.nodes && ROOT <= i < t.next && path != [CurDir] && path != [ParentDir]
    ensures var a := AddFile(t, parent, path, i, []);
            && TableInv(a.t) && Grows(t, a.t) && !a.r.Panic?
            && (a.r.Ok? ==> i in a.t.nodes && a.t.nodes[i] == NewFile(i, []))
  {
    hide TableInv, NodeOk, Walk, AddAllDir, KeepsNames, KeepsBytes, FileParent;
    ExtendsRefl(t);
    OverParent(t, parent, path);
    InsertFileInv(t, i, []);
    NothingTargets(t, i);
    UnnamedInserted(t, i);
    var d := FileParent(t, parent, path);
    if d.r.Ok? {
      var u, n := InsertFile(t, i, []), |path| - 1;
      if DirAt(u.nodes, d.r.value) {
        TakesOver(u, d.r.value, path[n], i);
      }
    }
  }

  /** Finding the directory of a path in use creates nothing, and the file is linked under a plain name. */
  lemma OverParent(t: Table, parent: Inode, path: Path)
    requires TableInv(t) && DirAt(t.nodes, parent) && Walk(t.nodes, parent, path).Ok?
    requires path != [CurDir] && path != [ParentDir]
    ensures var d := FileParent(t, parent, path);
            d.t == t && !d.r.Panic? && (d.r.Ok? ==> path != [] && path[|path| - 1].Normal? && d.r.value in t.nodes)
  {
    hide TableInv, AddAllDir, NoDangling, Walk;
    NodeAt(t, parent);
    TableNoDangling(t);
    if HasParent(path) {
      var n := |path| - 1;
      assert path == path[..n] + [path[n]];
      WalkPrefix(t.nodes, parent, path[..n], [path[n]]);
      AddAllDirFound(t, parent, path[..n]);
      WalkInNodes(t.nodes, parent, path[..n]);
      if n == 0 {
        assert path == [path[0]];
      }
    }
  }

  /**
   * Installing a service keeps the invariant and every descriptor, also where it takes over a name in use. A service
   * whose path does not resolve yet keeps every pre-opened route too, and its path then leads to it.
   */
  lemma InstallServiceInv(t: Table, path: Path, h: Handle)
    requires TableInv(t) && HandleInv(t, h) && StripRoot(path) != [CurDir] && StripRoot(path) != [ParentDir]
    ensures var e := InstallService(t, path);
            && TableInv(e.t) && HandleInv(e.t, h) && e.t.rights == t.rights
            && (Agrees(t, h) && !Walk(t.nodes, ROOT, StripRoot(path)).Ok? ==> Agrees(e.t, h))
            && (e.r.Ok? && !Walk(t.nodes, ROOT, StripRoot(path)).Ok? ==>
                  && Walk(e.t.nodes, ROOT, StripRoot(path)) == Ok(t.next)
                  && t.next in e.t.nodes && e.t.nodes[t.next].data == Service([]))
  {
    NewInodeOk(t);
    LookupIn(t, ROOT, CurDir);
    hide TableInv, Walk, Agrees, AddFile, Extends;
    var alloc := NewInode(t);
    if alloc.r.Ok? {
      var i, p := alloc.r.value, StripRoot(path);
      var a := AddFile(alloc.t, ROOT, p, i, []);
      if Walk(t.nodes, ROOT, p).Ok? {
        AddFileOver(alloc.t, ROOT, p, i);
        OtherHandle(alloc.t, a.t, h);
      } else {
        AddFileOk(alloc.t, ROOT, p, i, []);
        ServiceRoutes(t, alloc.t, a.t, h);
      }
      if a.r.Ok? {
        UpliftInv(a.t, i);
        UpliftWalk(a.t, i, ROOT, p);
        if Agrees(a.t, h) {
          UpliftRoutes(a.t, i, h, p);
        }
      }
    }
  }

  /** The invariant fails for exactly two paths: `.` and `..` are entries like any other, and would be taken over. */
  lemma InstallServiceExact(t: Table, path: Path)
    requires TableInv(t)
    ensures var e := InstallService(t, path);
            TableInv(e.t) <==> !(NewInode(t).r.Ok? && (StripRoot(path) == [CurDir] || StripRoot(path) == [ParentDir]))
  {
    var p := StripRoot(path);
    if p == [CurDir] || p == [ParentDir] {
      NewInodeOk(t);
      assert p[..0] == [];
      var e := InstallService(t, path);
      if e.r.Ok? {
        assert !NodeOk(e.t.nodes, ROOT);
      }
    } else {
      hide TableInv;
      InstallServiceInv(t, path, Handle(map[], FIRST_FD, map[]));
    }
  }

  lemma ServiceRoutes(t: Table, a: Table, u: Table, h: Handle)
    requires HandleInv(t, h) && Extends(t, a) && Extends(a, u)
    ensures HandleInv(u, h) && u.rights == t.rights && (Agrees(t, h) ==> Agrees(u, h))
  {
    ExtendsTrans(t, a, u);
    if Agrees(t, h) {
      AgreesStable(t, u, h);
    }
  }

  lemma UpliftRoutes(t: Table, i: Inode, h: Handle, path: Path)
    requires i in t.nodes && t.nodes[i].data.File? && Agrees(t, h)
    ensures var u := t.(nodes := t.nodes[i := t.nodes[i].(data := Service([]))]);
            Agrees(u, h) && Walk(u.nodes, ROOT, path) == Walk(t.nodes, ROOT, path)
  {
    var u := t.(nodes := t.nodes[i := t.nodes[i].(data := Service([]))]);
    forall fd | fd in h.prestat
      ensures Walk(u.nodes, ROOT, StripRoot(h.prestat[fd])) == Walk(t.nodes, ROOT, StripRoot(h.prestat[fd]))
    {
      UpliftWalk(t, i, ROOT, StripRoot(h.prestat[fd]));
    }
    UpliftWalk(t, i, ROOT, path);
    hide Walk;
  }

  lemma {:induction false} UpliftWalk(t: Table, i: Inode, from: Inode, path: Path)
    requires i in t.nodes && t.nodes[i].data.File?
    ensures Walk(t.nodes[i := t.nodes[i].(data := Service([]))], from, path) == Walk(t.nodes, from, path)
    decreases |path|
  {
    if path != [] && Lookup(t.nodes, from, path[0]).Ok? {
      UpliftWalk(t, i, Lookup(t.nodes, from, path[0]).value, path[1..]);
    }
  }

  const POSTCARD: Path := [RootDir, Normal("services"), Normal("postcard_string.dat")]
  const AESCTR: Path := [RootDir, Normal("services"), Normal("aesctr.dat")]

  const SUPERUSER_ROW: RightsMap := map[[RootDir] := ALL_RIGHTS, STDIN := ALL_RIGHTS, STDOUT := ALL_RIGHTS,
      STDERR := ALL_RIGHTS]

  /** `FileSystem::new`: the table, the superuser handle, then the services. */
  function NewFileSystem(rights: RightsTable): Out<()> {
    var none := Handle(map[], FIRST_FD, map[]);
    var table := NewTable(rights);
    if !table.r.Ok? then Out(table.t, none, table.r) else
    var pre := Preopen(table.t, SUPERUSER_ROW, [[RootDir]], 1);
    if !pre.r.Ok? then pre else
    var h := pre.h.(nextFd := FIRST_FD + 4);
    var a := InstallService(pre.t, POSTCARD);
    if !a.r.Ok? then Out(a.t, h, a.r) else
    var b := InstallService(a.t, AESCTR);
    Out(b.t, h, b.r)
  }

  lemma SuperuserPreopen(rights: RightsTable)
    ensures var t := NewTable(rights).t;
            var pre := Preopen(t, SUPERUSER_ROW, [[RootDir]], 1);
            pre.r.Ok? && pre.t == t && HandleInv(t, pre.h) && Agrees(t, pre.h) && FromRow(pre.h, SUPERUSER_ROW)
  {
    var t := NewTable(rights).t;
    NewTableInv(rights);
    hide TableInv, NewTable;
    PreopenOk(t, SUPERUSER_ROW, [[RootDir]], 1);
    assert StripRoot([RootDir]) == [];
    assert Preopen(t, SUPERUSER_ROW, [[RootDir]], 0).t == t;
  }

  /** `/services` is missing, or a directory without the name. */
  predicate ServiceFree(t: Table, name: Component) {
    match Lookup(t.nodes, ROOT, Normal("services"))
    case Ok(d) => DirAt(t.nodes, d) && name !in t.nodes[d].data.entries
    case _ => true
  }

  lemma ServiceDirectory(t: Table)
    requires TableInv(t) && t.next + 1 < U64
    requires Lookup(t.nodes, ROOT, Normal("services")).Ok? ==>
               DirAt(t.nodes, Lookup(t.nodes, ROOT, Normal("services")).value)
    ensures var a := AddAllDir(t, ROOT, [Normal("services")]);
            && a.r.Ok? && TableInv(a.t) && a.r.value in a.t.nodes && DirAt(a.t.nodes, a.r.value)
            && Walk(a.t.nodes, ROOT, [Normal("services")]) == a.r && Lookup(a.t.nodes, ROOT, Normal("services")) == a.r
            && a.t.next <= t.next + 1 && (forall i :: i in a.t.nodes && i !in t.nodes ==> t.next <= i)
            && (forall c :: ServiceFree(t, c) && c.Normal? ==> c !in a.t.nodes[a.r.value].data.entries)
  {
    var c := Normal("services");
    var found := Lookup(t.nodes, ROOT, c);
    LookupIn(t, ROOT, c);
    assert Walk(t.nodes, ROOT, [c]) == found;
    AddAllDirOk(t, ROOT, [c]);
    var a := AddAllDir(t, ROOT, [c]);
    if found.Ok? {
      assert a == AddAllDir(t, found.value, []);
    } else {
      NewInodeOk(t);
      var alloc := NewInode(t);
      assert alloc.r.Ok?;
      AddDirNames(alloc.t, ROOT, c, t.next);
      assert a == AddAllDir(AddDir(alloc.t, ROOT, c, t.next).t, t.next, []);
    }
    WalkInNodes(a.t.nodes, ROOT, [c]);
    assert Walk(a.t.nodes, ROOT, [c]) == Walk(a.t.nodes, Lookup(a.t.nodes, ROOT, c).value, []);
  }

  /** A service with a free name below `/services` is installed, and takes that name only. */
  lemma ServiceInstalled(t: Table, name: string)
    requires TableInv(t) && t.next + 2 < U64
    requires ServiceFree(t, Normal(name))
    ensures var e := InstallService(t, [RootDir, Normal("services"), Normal(name)]);
            && e.r.Ok? && e.t.next <= t.next + 2
            && (forall c :: ServiceFree(t, c) && c.Normal? && c != Normal(name) ==> ServiceFree(e.t, c))
  {
    hide TableInv, Walk, AddAllDir, AddFile, ServiceFree;
    var x, alloc := Normal(name), NewInode(t);
    var path, i := [Normal("services"), x], t.next;
    assert StripRoot([RootDir] + path) == path && Parent(path) == [Normal("services")];
    NewInodeOk(t);
    CandidateUnused(t);
    FreeSame(t, alloc.t);
    FreeDirectory(alloc.t, x);
    ServiceDirectory(alloc.t);
    var a := AddAllDir(alloc.t, ROOT, [Normal("services")]);
    assert i !in a.t.nodes;
    AddFileBelow(alloc.t, a, path, i);
    var e := InstallService(t, [RootDir] + path);
    forall c | ServiceFree(t, c) && c.Normal? && c != x ensures ServiceFree(e.t, c) {
      StillFree(a.t, e.t, a.r.value, i, x, c);
    }
  }

  lemma FreeSame(t: Table, u: Table)
    requires u.nodes == t.nodes
    ensures forall c :: ServiceFree(t, c) <==> ServiceFree(u, c)
  {
  }

  lemma FreeDirectory(t: Table, c: Component)
    requires ServiceFree(t, c)
    ensures var d := Lookup(t.nodes, ROOT, Normal("services")); d.Ok? ==> DirAt(t.nodes, d.value)
  {
  }

  /** `add_file` below a directory that is found or made. */
  lemma AddFileBelow(t: Table, a: Eff<Inode>, path: Path, i: Inode)
    requires |path| == 2 && path[1].Normal? && a == AddAllDir(t, ROOT, path[..1]) && a.r.Ok?
    requires Walk(a.t.nodes, ROOT, path[..1]) == a.r && DirAt(a.t.nodes, a.r.value) && i !in a.t.nodes
    ensures AddFile(t, ROOT, path, i, []) == Link(InsertFile(a.t, i, []), a.r.value, path[1], i)
    ensures AddFile(t, ROOT, path, i, []).r.Ok?
  {
    hide AddAllDir, Walk;
    assert Parent(path) == path[..1];
  }

  /** A name other than the one a new service takes stays free. */
  lemma StillFree(t: Table, u: Table, d: Inode, i: Inode, x: Component, c: Component)
    requires DirAt(t.nodes, ROOT) && Lookup(t.nodes, ROOT, Normal("services")) == Ok(d) && DirAt(t.nodes, d)
    requires i !in t.nodes && c != x && c !in t.nodes[d].data.entries && (d == ROOT ==> x != Normal("services"))
    requires var l := Link(InsertFile(t, i, []), d, x, i).t.nodes; u.nodes == l[i := l[i].(data := Service([]))]
    ensures ServiceFree(u, c)
  {
  }

  lemma BothServices(t: Table, h: Handle)
    requires TableInv(t) && HandleInv(t, h) && Agrees(t, h) && t.next + 4 < U64
    requires ServiceFree(t, Normal("postcard_string.dat")) && ServiceFree(t, Normal("aesctr.dat"))
    ensures var a := InstallService(t, POSTCARD);
            var b := InstallService(a.t, AESCTR);
            && a.r.Ok? && b.r.Ok? && TableInv(b.t) && HandleInv(b.t, h) && Agrees(b.t, h) && b.t.rights == t.rights
            && ServiceThere(b.t, AESCTR) && b.t.next <= t.next + 4
            && (ServiceFree(t, Normal("x")) ==> ServiceFree(b.t, Normal("x")))
  {
    hide TableInv, HandleInv, Agrees, InstallService, ServiceFree, Walk;
    ServiceInstalled(t, "postcard_string.dat");
    ServiceUnresolved(t, "postcard_string.dat");
    InstallServiceInv(t, POSTCARD, h);
    var a := InstallService(t, POSTCARD).t;
    assert Normal("aesctr.dat") != Normal("postcard_string.dat");
    ServiceInstalled(a, "aesctr.dat");
    ServiceUnresolved(a, "aesctr.dat");
    InstallServiceInv(a, AESCTR, h);
    assert Normal("x") != Normal("postcard_string.dat") && Normal("x") != Normal("aesctr.dat");
  }

  /** The path leads to an empty service. */
  predicate ServiceThere(t: Table, path: Path) {
    var i := Walk(t.nodes, ROOT, StripRoot(path));
    i.Ok? && i.value in t.nodes && t.nodes[i.value].data == Service([])
  }

  lemma NoServicesYet(rights: RightsTable, name: string)
    ensures ServiceFree(NewTable(rights).t, Normal(name))
  {
    NewTableIs(rights);
  }

  /** Every file system starts in a state all the run theorems apply to. */
  lemma NewFileSystemOk(rights: RightsTable)
    ensures var o := NewFileSystem(rights);
            && o.r.Ok? && o.t.rights == rights
            && WorldInv(World(o.t, [o.h])) && Agrees(o.t, o.h) && AllOffsetsOk(World(o.t, [o.h]))
  {
    NewTableIs(rights);
    NewTableInv(rights);
    SuperuserPreopen(rights);
    NoServicesYet(rights, "postcard_string.dat");
    NoServicesYet(rights, "aesctr.dat");
    hide TableInv, StreamNodes, Preopen, NewTable, InstallService, ServiceFree, Walk;
    var t := NewTable(rights).t;
    var h := Preopen(t, SUPERUSER_ROW, [[RootDir]], 1).h.(nextFd := FIRST_FD + 4);
    BothServices(t, h);
  }

  /** What the new file system holds: the superuser's descriptor on the root, and the services below `/services`. */
  lemma NewFileSystemHolds(rights: RightsTable)
    ensures var o := NewFileSystem(rights);
            && ServiceThere(o.t, AESCTR) && ServiceFree(o.t, Normal("x")) && o.t.next <= 10
            && o.h.prestat == map[3 := [RootDir]] && o.h.nextFd == 7 && 7 !in o.h.fds
            && 3 in o.h.fds && o.h.fds[3] == FdEntry(ROOT, Unknown, ALL_RIGHTS, ALL_RIGHTS, 0)
  {
    NewTableIs(rights);
    NewTableInv(rights);
    SuperuserPreopen(rights);
    NoServicesYet(rights, "postcard_string.dat");
    NoServicesYet(rights, "aesctr.dat");
    NoServicesYet(rights, "x");
    hide TableInv, StreamNodes, NewTable, InstallService, ServiceFree, Walk, ServiceThere, StdFds;
    var t := NewTable(rights).t;
    RootOpened(t);
    hide Preopen;
    var h := Preopen(t, SUPERUSER_ROW, [[RootDir]], 1).h.(nextFd := FIRST_FD + 4);
    BothServices(t, h);
  }

  lemma RootOpened(t: Table)
    ensures var h := Preopen(t, SUPERUSER_ROW, [[RootDir]], 1).h;
            && h.prestat == map[3 := [RootDir]] && 3 in h.fds && 7 !in h.fds
            && h.fds[3] == FdEntry(ROOT, Unknown, ALL_RIGHTS, ALL_RIGHTS, 0)
  {
    assert 7 !in StdFds(t, SUPERUSER_ROW);
    hide StdFds;
    assert StripRoot([RootDir]) == [];
    assert Preopen(t, SUPERUSER_ROW, [[RootDir]], 0) ==
        Out(t, Handle(StdFds(t, SUPERUSER_ROW), FIRST_FD, map[]), Ok(()));
  }

  lemma ServiceUnresolved(t: Table, name: string)
    requires ServiceFree(t, Normal(name))
    ensures !Walk(t.nodes, ROOT, StripRoot([RootDir, Normal("services"), Normal(name)])).Ok?
  {
    var path := [Normal("services"), Normal(name)];
    assert StripRoot([RootDir] + path) == path && path[1..] == [Normal(name)];
  }
}
