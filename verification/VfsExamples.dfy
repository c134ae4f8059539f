/** Reachable states in which a property fails: one for each condition the theorems about runs and files ask for. */
module VfsExamples {
  import opened Common
  import opened Paths
  import opened Policy
  import opened Inodes
  import opened Vfs
  import opened VfsSteps
  import opened VfsWorld
  import opened VfsNames
  import opened VfsCreation
  import opened VfsFiles
  import opened VfsListing
  import opened VfsInit

  const SERVICES: Component := Normal("services")
  const NEW: Component := Normal("x")

  /** The directory that `path_create_directory` puts in place of an existing one holds nothing but the new name. */
  lemma Replaced(t: Table, parent: Inode, c: Component, x: Component)
    requires TableInv(t) && DirAt(t.nodes, parent) && c.Normal? && x.Normal? && t.next + 2 < U64
    ensures var e, i := CreateDirs(t, parent, [c, x]), t.next;
            && e.r == Ok(()) && e.t.next == t.next + 2
            && Lookup(e.t.nodes, parent, c) == Ok(i) && DirAt(e.t.nodes, i)
            && e.t.nodes[i].data.entries.Keys == {CurDir, ParentDir, x}
            && (forall j :: j in t.nodes && j != parent ==> j in e.t.nodes && e.t.nodes[j] == t.nodes[j])
            && (forall d :: d in t.nodes[parent].data.entries && d != c ==>
                Lookup(e.t.nodes, parent, d) == Lookup(t.nodes, parent, d))
  {
    hide TableInv, AddDir;
    NothingAbove(t);
    var i := t.next;
    var a := NewInode(t).t;
    AddDirIs(a, parent, c, i);
    var b := AddDir(a, parent, c, i).t;
    var d := NewInode(b).t;
    AddDirIs(d, i, x, i + 1);
    var e := AddDir(d, i, x, i + 1).t;
    assert [c, x][1..] == [x] && [x][1..] == [];
    assert CreateDirs(b, i, [x]) == CreateDirs(e, i + 1, []);
    hide CreateDirs;
    assert e.nodes[i].data.entries == map[CurDir := i, ParentDir := parent, x := i + 1];
  }

  lemma AddDirIs(t: Table, parent: Inode, c: Component, i: Inode)
    requires DirAt(t.nodes, parent) && parent != i
    ensures var e := t.nodes[parent];
            var linked := t.nodes[parent := e.(data := Directory(e.data.entries[c := i]))];
            AddDir(t, parent, c, i) == Eff(t.(nodes := linked[i := NewDirectory(i, parent)]), Ok(()))
  {
  }

  lemma NothingAbove(t: Table)
    requires TableInv(t)
    ensures forall i :: i in t.nodes ==> i < t.next
  {
  }

  // ---------------------------------------------------------------------------
  // Rebinding a name.
  // ---------------------------------------------------------------------------

  /** The superuser's first `path_create_directory` below `/services` hides every service. */
  lemma RebindingReached(rights: RightsTable)
    ensures var o := NewFileSystem(rights);
            var s, op := State(o.t, o.h), CreateDirectory(3, [SERVICES, NEW]);
            && o.r.Ok? && Inv(s) && Rebinds(s, op)
            && Resolve(s.t, AESCTR).Ok? && !Resolve(Step(s, op).t, AESCTR).Ok?
  {
    NewFileSystemOk(rights);
    NewFileSystemHolds(rights);
    var o := NewFileSystem(rights);
    hide NewFileSystem, TableInv, Agrees;
    assert WorldInv(World(o.t, [o.h])) && [o.h][0] == o.h;
    ServicesRebound(State(o.t, o.h), 3);
  }

  /** The same for any handle with a descriptor on the root that may create directories. */
  lemma ServicesRebound(s: State, fd: Fd)
    requires Inv(s) && ServiceThere(s.t, AESCTR) && ServiceFree(s.t, NEW) && s.t.next + 2 < U64
    requires fd in s.h.fds && s.h.fds[fd].inode == ROOT && PATH_CREATE_DIRECTORY in s.h.fds[fd].base
    ensures var op := CreateDirectory(fd, [SERVICES, NEW]);
            var u := Step(s, op);
            && Rebinds(s, op) && Resolve(s.t, AESCTR).Ok? && !Resolve(u.t, AESCTR).Ok?
            && u.h == s.h && u.t.next == s.t.next + 2 && Lookup(u.t.nodes, ROOT, SERVICES) == Ok(s.t.next)
            && DirAt(u.t.nodes, s.t.next) && u.t.nodes[s.t.next].data.entries.Keys == {CurDir, ParentDir, NEW}
            && (forall j :: j in s.t.nodes && j != ROOT ==> j in u.t.nodes && u.t.nodes[j] == s.t.nodes[j])
  {
    hide TableInv, Walk, CreateDirs;
    RootThere(s.t);
    CandidateUnused(s.t);
    TwoSteps(s.t, NEW);
    TwoSteps(s.t, AES);
    Replaced(s.t, ROOT, SERVICES, NEW);
    ServiceIn(s.t);
    CreatesDirectory(s, fd, [SERVICES, NEW]);
    hide Step;
    var u := Step(s, CreateDirectory(fd, [SERVICES, NEW]));
    assert NEW != AES;
    TwoSteps(u.t, AES);
  }

  lemma ServiceIn(t: Table)
    requires ServiceThere(t, AESCTR) && ServiceFree(t, NEW)
    ensures StripRoot(AESCTR) == [SERVICES, AES] && Walk(t.nodes, ROOT, [SERVICES, AES]).Ok?
    ensures Lookup(t.nodes, ROOT, SERVICES).Ok? ==> !Lookup(t.nodes, Lookup(t.nodes, ROOT, SERVICES).value, NEW).Ok?
  {
    hide Walk;
  }

  lemma CreatesDirectory(s: State, fd: Fd, path: Path)
    requires fd in s.h.fds && PATH_CREATE_DIRECTORY in s.h.fds[fd].base && DirAt(s.t.nodes, s.h.fds[fd].inode)
    requires !Walk(s.t.nodes, s.h.fds[fd].inode, path).Ok?
    ensures var e := CreateDirs(s.t, s.h.fds[fd].inode, path);
            Step(s, CreateDirectory(fd, path)) == State(e.t, s.h)
  {
    hide CreateDirs, Walk;
  }

  lemma RootThere(t: Table)
    requires TableInv(t)
    ensures DirAt(t.nodes, ROOT)
  {
  }

  /** A name below `/services`, in two lookups. */
  lemma TwoSteps(t: Table, x: Component)
    ensures StripRoot([RootDir, SERVICES, x]) == [SERVICES, x]
    ensures var d := Lookup(t.nodes, ROOT, SERVICES);
            var w := Walk(t.nodes, ROOT, [SERVICES, x]);
            && (w.Ok? ==> d.Ok? && Lookup(t.nodes, d.value, x) == w)
            && (d.Ok? && Lookup(t.nodes, d.value, x).Ok? && Lookup(t.nodes, d.value, x).value in t.nodes ==> w.Ok?)
  {
    assert [SERVICES, x][1..] == [x] && [x][1..] == [];
    var d := Lookup(t.nodes, ROOT, SERVICES);
    if d.Ok? {
      assert Walk(t.nodes, ROOT, [SERVICES, x]) == Walk(t.nodes, d.value, [x]);
      var e := Lookup(t.nodes, d.value, x);
      if e.Ok? {
        assert Walk(t.nodes, d.value, [x]) == Walk(t.nodes, e.value, []);
      }
    }
  }

  // ---------------------------------------------------------------------------
  // Listing the bytes of another file.
  // ---------------------------------------------------------------------------

  const AES: Component := Normal("aesctr.dat")
  const BOTH_ROW: RightsMap := map[[RootDir] := ALL_RIGHTS, [RootDir, SERVICES] := ALL_RIGHTS]
  const BOTH_ORDER: seq<Path> := [[RootDir], [RootDir, SERVICES]]

  function BothOpen(services: Inode, extra: map<Fd, FdEntry>, nextFd: nat): Handle {
    Handle(extra + map[3 := FdEntry(ROOT, Unknown, ALL_RIGHTS, ALL_RIGHTS, 0),
                       4 := FdEntry(services, Unknown, ALL_RIGHTS, ALL_RIGHTS, 0)],
           nextFd, map[3 := [RootDir], 4 := [RootDir, SERVICES]])
  }

  /** A principal with `/` and `/services` gets descriptors 3 and 4 on them. */
  lemma BothSpawned(t: Table, p: Principal)
    requires TableInv(t) && p in t.rights && t.rights[p] == BOTH_ROW && ServiceThere(t, AESCTR)
    ensures IsOrder(BOTH_ROW, BOTH_ORDER)
    ensures Lookup(t.nodes, ROOT, SERVICES).Ok?
    ensures Spawn(t, p, BOTH_ORDER) == Out(t, BothOpen(Lookup(t.nodes, ROOT, SERVICES).value, map[], 5), Ok(()))
  {
    TwoSteps(t, AES);
    TableNoDangling(t);
    RootThere(t);
    var d := Lookup(t.nodes, ROOT, SERVICES).value;
    assert Walk(t.nodes, ROOT, [SERVICES]) == Ok(d) by { assert [SERVICES][1..] == []; }
    hide TableInv, Walk, ServiceThere, Preopen, IsOrder;
    BothPreopened(t, d);
  }

  lemma BothPreopened(t: Table, d: Inode)
    requires Walk(t.nodes, ROOT, [SERVICES]) == Ok(d)
    ensures Preopen(t, BOTH_ROW, BOTH_ORDER, 2) == Out(t, BothOpen(d, map[], 3), Ok(()))
  {
    hide Walk;
    assert StdFds(t, BOTH_ROW) == map[];
    assert StripRoot([RootDir]) == [] && StripRoot([RootDir, SERVICES]) == [SERVICES] && [SERVICES][1..] == [];
    assert PreopenInode(t, [RootDir, SERVICES]) == Eff(t, Ok(d)) by { assert AddAllDir(t, d, []) == Eff(t, Ok(d)); }
    hide StdFds, PreopenInode;
    var none := Preopen(t, BOTH_ROW, BOTH_ORDER, 0);
    var one := Preopen(t, BOTH_ROW, BOTH_ORDER, 1);
    assert one == PreopenOne(t, none.h, [RootDir], ALL_RIGHTS, 3);
    var two := Preopen(t, BOTH_ROW, BOTH_ORDER, 2);
    assert two == PreopenOne(t, one.h, [RootDir, SERVICES], ALL_RIGHTS, 4);
  }

  /** Creating a file where a directory is and the name is free. */
  lemma CreatedBelow(s: State, fd: Fd, d: Inode)
    requires Inv(s) && fd in s.h.fds && s.h.fds[fd] == FdEntry(ROOT, Unknown, ALL_RIGHTS, ALL_RIGHTS, 0)
    requires Lookup(s.t.nodes, ROOT, SERVICES) == Ok(d) && DirAt(s.t.nodes, d) && AES !in s.t.nodes[d].data.entries
    requires s.t.next + 1 < U64 && s.h.nextFd < U31 && s.h.nextFd !in s.h.fds
    ensures PathOpen(s.t, s.h, fd, [SERVICES, AES], {CREATE}, ALL_RIGHTS, ALL_RIGHTS).r == Ok(s.h.nextFd)
  {
    RootThere(s.t);
    NothingAbove(s.t);
    TwoSteps(s.t, AES);
    NoPanic(s.t.nodes, ROOT, [SERVICES, AES]);
    var a := NewInode(s.t).t;
    assert Walk(a.nodes, ROOT, [SERVICES]) == Ok(d) by { assert [SERVICES][1..] == []; }
    hide TableInv, Walk;
    assert Parent([SERVICES, AES]) == [SERVICES];
    assert AddAllDir(a, ROOT, [SERVICES]) == Eff(a, Ok(d)) by {
      assert [SERVICES][1..] == [];
      assert AddAllDir(a, d, []) == Eff(a, Ok(d));
    }
    hide AddAllDir;
    assert FileParent(a, ROOT, [SERVICES, AES]) == Eff(a, Ok(d));
    assert AddFile(a, ROOT, [SERVICES, AES], s.t.next, []).r == Ok(());
  }

  /** Writing one byte to an empty file just opened. */
  lemma WroteOne(s: State, fd: Fd)
    requires Inv(s) && fd in s.h.fds && s.h.fds[fd].offset == 0 && s.h.fds[fd].base == ALL_RIGHTS
    requires s.t.nodes[s.h.fds[fd].inode] == NewFile(s.h.fds[fd].inode, [])
    ensures var u := Step(s, Write(fd, [[1]]));
            && u.t == SetBytes(s.t, s.h.fds[fd].inode, [1])
            && u.h.prestat == s.h.prestat && u.h.nextFd == s.h.nextFd
            && u.h.fds == s.h.fds[fd := s.h.fds[fd].(offset := 1)]
  {
    FlattenSingle<Byte>([1]);
    assert [] + [1] == [1];
    hide TableInv;
    var i := s.h.fds[fd].inode;
    assert WriteAt([], [1], 0) == [1];
    assert FdPwrite(s.t, s.h, fd, [[1]], 0) == Out(SetBytes(s.t, i, [1]), s.h, Ok(1));
  }

  /** The superuser's route to a path below `/services` starts at descriptor 4. */
  lemma RouteOfBoth(h: Handle)
    requires h.prestat == map[3 := [RootDir], 4 := [RootDir, SERVICES]]
    ensures FindPrestat(h, AESCTR) == Ok((4, [AES]))
  {
    assert 4 in h.prestat && h.prestat[4] == [RootDir, SERVICES];
    assert AESCTR[..3] == AESCTR && AESCTR[..2] == [RootDir, SERVICES] && AESCTR[2..] == [AES];
    assert AESCTR !in h.prestat.Values;
    assert FindPrestatFrom(h.prestat, AESCTR, 3) == FindPrestatFrom(h.prestat, AESCTR, 2);
  }

  /**
   * After three steps of one handle with `/` and `/services`, `/services/aesctr.dat` holds one byte, and reading it or
   * listing it by its absolute path gives none: the read goes through the directory that was `/services` at the spawn.
   */
  lemma StaleListing(rights: RightsTable, p: Principal, ord: Order)
    requires p in rights && rights[p] == BOTH_ROW && Enumerates(ord)
    ensures var t := NewFileSystem(rights).t;
            && IsOrder(BOTH_ROW, BOTH_ORDER) && t.rights == rights && Spawn(t, p, BOTH_ORDER).r.Ok?
            && var s := RunOps(After(Spawn(t, p, BOTH_ORDER)), STALE);
               && Inv(s) && BytesAt(s.t, AESCTR) == [1]
               && ReadAll(s.t, s.h, AESCTR, ord).r == Ok([(AESCTR, [])])
  {
    var s := Stale(rights, p);
    hide NewFileSystem, Spawn, TableInv, HandleInv, Walk, IsOrder, RunOps;
    ReadFileSucceeds(s, AESCTR);
    ReadFileRoute(s, AESCTR);
  }

  const STALE: seq<Op> :=
    [CreateDirectory(3, [SERVICES, NEW]), Open(3, [SERVICES, AES], {CREATE}, ALL_RIGHTS, ALL_RIGHTS), Write(5, [[1]])]

  lemma Stale(rights: RightsTable, p: Principal) returns (s: State)
    requires p in rights && rights[p] == BOTH_ROW
    ensures var t := NewFileSystem(rights).t;
            && IsOrder(BOTH_ROW, BOTH_ORDER) && t.rights == rights && Spawn(t, p, BOTH_ORDER).r.Ok?
            && s == RunOps(After(Spawn(t, p, BOTH_ORDER)), STALE)
    ensures Inv(s) && Resolve(s.t, AESCTR).Ok? && FileAt(s.t.nodes, Resolve(s.t, AESCTR).value)
    ensures BytesAt(s.t, AESCTR) == [1] && MayRead(s.t, s.h, AESCTR) && RouteBytes(s.t, s.h, AESCTR) == []
  {
    NewFileSystemOk(rights);
    NewFileSystemHolds(rights);
    var o := NewFileSystem(rights);
    assert WorldInv(World(o.t, [o.h])) && [o.h][0] == o.h;
    hide NewFileSystem, Agrees, TableInv, Spawn, RunOps, MayRead, RouteBytes, BytesAt, Resolve, IsOrder;
    BothSpawned(o.t, p);
    var d := Lookup(o.t.nodes, ROOT, SERVICES).value;
    s := StaleSteps(o.t, d);
  }

  lemma ThreeOps(s: State)
    ensures RunOps(s, STALE) == Step(Step(Step(s, STALE[0]), STALE[1]), STALE[2])
  {
    hide Step;
    assert STALE[1..][0] == STALE[1] && STALE[1..][1..][0] == STALE[2] && STALE[1..][1..][1..] == [];
    var a := Step(s, STALE[0]);
    var b := Step(a, STALE[1]);
    assert RunOps(a, STALE[1..]) == RunOps(b, STALE[1..][1..]);
  }

  /** The old directory still has the service, the new one has none; both are there. */
  ghost predicate TwoDirectories(s: State, d: Inode, i: Inode) {
    && Inv(s) && s.h.prestat == map[3 := [RootDir], 4 := [RootDir, SERVICES]]
    && 4 in s.h.fds && s.h.fds[4] == FdEntry(d, Unknown, ALL_RIGHTS, ALL_RIGHTS, 0)
    && DirAt(s.t.nodes, d) && Walk(s.t.nodes, d, [AES]) == Ok(i) && i in s.t.nodes && s.t.nodes[i].data == Service([])
  }

  lemma FirstStep(t: Table, d: Inode) returns (i: Inode)
    requires TableInv(t) && ServiceThere(t, AESCTR) && ServiceFree(t, NEW) && t.next <= 10
    requires Lookup(t.nodes, ROOT, SERVICES) == Ok(d)
    ensures var s := State(t, BothOpen(d, map[], 5));
            var u := Step(s, STALE[0]);
            && TwoDirectories(u, d, i) && u.h == s.h && u.t.next <= 12
                && Lookup(u.t.nodes, ROOT, SERVICES) == Ok(t.next)
            && DirAt(u.t.nodes, t.next) && AES !in u.t.nodes[t.next].data.entries
  {
    var s := State(t, BothOpen(d, map[], 5));
    i := Walk(t.nodes, ROOT, [SERVICES, AES]).value;
    TwoSteps(t, AES);
    DirectoryAbove(t, d, i);
    hide TableInv, Walk, ServiceThere, ServiceFree;
    StepInv(s, STALE[0]);
    ServicesRebound(s, 3);
    var u := Step(s, STALE[0]);
    hide Step;
    OneStep(u.t, d, i);
    assert AES != NEW;
  }

  lemma DirectoryAbove(t: Table, d: Inode, i: Inode)
    requires TableInv(t) && Lookup(t.nodes, ROOT, SERVICES) == Ok(d) && Lookup(t.nodes, d, AES) == Ok(i)
    ensures ROOT in t.nodes && d in t.nodes && ROOT < d && i in t.nodes && DirAt(t.nodes, d)
    ensures DirAt(t.nodes, i) || i != ROOT
  {
    NodeAt(t, ROOT);
    NodeAt(t, d);
    hide TableInv;
  }

  lemma OneStep(t: Table, d: Inode, i: Inode)
    requires DirAt(t.nodes, d) && AES in t.nodes[d].data.entries && t.nodes[d].data.entries[AES] == i && i in t.nodes
    ensures Walk(t.nodes, d, [AES]) == Ok(i)
  {
    assert [AES][1..] == [];
    assert Walk(t.nodes, d, [AES]) == Walk(t.nodes, i, []);
  }

  lemma SecondStep(s: State, d: Inode, i: Inode, e: Inode)
    requires TwoDirectories(s, d, i) && s.t.next <= 12 && s.h.nextFd == 5
    requires s.h.fds.Keys == {3, 4} && s.h.fds[3] == FdEntry(ROOT, Unknown, ALL_RIGHTS, ALL_RIGHTS, 0)
    requires Lookup(s.t.nodes, ROOT, SERVICES) == Ok(e) && DirAt(s.t.nodes, e) && AES !in s.t.nodes[e].data.entries
    ensures var u := Step(s, STALE[1]);
            && TwoDirectories(u, d, i) && 5 in u.h.fds && u.h.nextFd == 6 && u.h.fds.Keys == {3, 4, 5}
            && u.h.fds[5].offset == 0 && u.h.fds[5].base == ALL_RIGHTS && u.h.fds[5].inode != i
            && u.t.nodes[u.h.fds[5].inode] == NewFile(u.h.fds[5].inode, [])
            && Walk(u.t.nodes, ROOT, [SERVICES, AES]) == Ok(u.h.fds[5].inode)
  {
    var op := STALE[1];
    hide TableInv, Walk, PathOpen, KeepsNames, Step;
    CreatedBelow(s, 3, e);
    OpenedFile(s, op);
    StepIs(s, op);
    SecondKeeps(s, d, i);
    hide TwoDirectories;
    assert ALL_RIGHTS * ALL_RIGHTS == ALL_RIGHTS;
  }

  lemma SecondKeeps(s: State, d: Inode, i: Inode)
    requires TwoDirectories(s, d, i) && 4 in s.h.fds && s.h.nextFd == 5 && 5 !in s.h.fds
    requires PathOpen(s.t, s.h, 3, [SERVICES, AES], {CREATE}, ALL_RIGHTS, ALL_RIGHTS).r == Ok(5)
    requires var o := PathOpen(s.t, s.h, 3, [SERVICES, AES], {CREATE}, ALL_RIGHTS, ALL_RIGHTS);
             && o.t.nodes[o.h.fds[5].inode].data.File?
             && o.h.fds == s.h.fds[5 := o.h.fds[5]] && o.h.prestat == s.h.prestat
    ensures TwoDirectories(Step(s, STALE[1]), d, i)
  {
    hide TableInv, Walk, PathOpen, KeepsNames, Step;
    OpenKeeps(s, STALE[1]);
    StepInv(s, STALE[1]);
    StepIs(s, STALE[1]);
    WalkStable(s.t, Step(s, STALE[1]).t, d, [AES]);
  }

  lemma ThirdStep(s: State, d: Inode, i: Inode)
    requires TwoDirectories(s, d, i) && 5 in s.h.fds && s.h.nextFd == 6 && s.h.fds.Keys == {3, 4, 5}
    requires s.h.fds[5].offset == 0 && s.h.fds[5].base == ALL_RIGHTS && s.h.fds[5].inode != i
    requires s.t.nodes[s.h.fds[5].inode] == NewFile(s.h.fds[5].inode, [])
    requires Walk(s.t.nodes, ROOT, [SERVICES, AES]) == Ok(s.h.fds[5].inode)
    ensures var u := Step(s, STALE[2]);
            && TwoDirectories(u, d, i) && u.h.nextFd == 6 && u.h.fds.Keys == {3, 4, 5}
            && Resolve(u.t, AESCTR) == Ok(s.h.fds[5].inode) && FileAt(u.t.nodes, s.h.fds[5].inode)
            && BytesAt(u.t, AESCTR) == [1]
  {
    hide TableInv, Walk, Step;
    var f := s.h.fds[5].inode;
    TwoSteps(s.t, AES);
    WroteOne(s, 5);
    StepInv(s, STALE[2]);
    var u := Step(s, STALE[2]);
    SetBytesOnlyAt(s.t, f, [1]);
    WalkOnlyAt(s.t, u.t, f, ROOT, [SERVICES, AES]);
    WalkOnlyAt(s.t, u.t, f, d, [AES]);
  }

  lemma StaleSteps(t: Table, d: Inode) returns (s: State)
    requires TableInv(t) && ServiceThere(t, AESCTR) && ServiceFree(t, NEW) && t.next <= 10
    requires Lookup(t.nodes, ROOT, SERVICES) == Ok(d)
    ensures s == RunOps(State(t, BothOpen(d, map[], 5)), STALE)
    ensures Inv(s) && Resolve(s.t, AESCTR).Ok? && FileAt(s.t.nodes, Resolve(s.t, AESCTR).value)
    ensures BytesAt(s.t, AESCTR) == [1] && MayRead(s.t, s.h, AESCTR) && RouteBytes(s.t, s.h, AESCTR) == []
  {
    hide TableInv, Walk, ServiceThere, ServiceFree, Step, FindPrestat;
    var s0 := State(t, BothOpen(d, map[], 5));
    var i := FirstStep(t, d);
    var s1 := Step(s0, STALE[0]);
    SecondStep(s1, d, i, t.next);
    var s2 := Step(s1, STALE[1]);
    ThirdStep(s2, d, i);
    s := Step(s2, STALE[2]);
    ThreeOps(s0);
    RouteOfBoth(s.h);
    assert Route(s.t, s.h, AESCTR) == Ok(i);
  }

  // ---------------------------------------------------------------------------
  // Reading back another file.
  // ---------------------------------------------------------------------------

  /** The superuser's route to a path starts at the root. */
  lemma RouteOfRoot(h: Handle)
    requires h.prestat == map[3 := [RootDir]]
    ensures FindPrestat(h, AESCTR) == Ok((3, [SERVICES, AES]))
  {
    assert 3 in h.prestat && h.prestat[3] == [RootDir];
    assert AESCTR[..3] == AESCTR && AESCTR[..2] == [RootDir, SERVICES] && AESCTR[..1] == [RootDir];
    assert AESCTR[1..] == [SERVICES, AES];
    assert AESCTR !in h.prestat.Values && [RootDir, SERVICES] !in h.prestat.Values;
    assert FindPrestatFrom(h.prestat, AESCTR, 3) == FindPrestatFrom(h.prestat, AESCTR, 2);
    assert FindPrestatFrom(h.prestat, AESCTR, 2) == FindPrestatFrom(h.prestat, AESCTR, 1);
  }

  /** The superuser handle of a new file system over a later table. */
  ghost predicate Superuser(t: Table, h: Handle) {
    && Inv(State(t, h)) && h.prestat == map[3 := [RootDir]] && h.nextFd == 7 && 7 !in h.fds
    && 3 in h.fds && h.fds[3] == FdEntry(ROOT, Unknown, ALL_RIGHTS, ALL_RIGHTS, 0)
  }

  lemma SuperuserMayWrite(t: Table, h: Handle, data: seq<Byte>)
    requires Superuser(t, h) && Resolve(t, AESCTR).Ok? && FileAt(t.nodes, Resolve(t, AESCTR).value) && |data| < U63
    ensures WriteFile(t, h, AESCTR, data, false).r.Ok? && Route(t, h, AESCTR) == Resolve(t, AESCTR)
  {
    RootThere(t);
    hide TableInv, WriteFile, FindPrestat, Walk, FileFits;
    RouteOfRoot(h);
    WriteFileSucceeds(State(t, h), AESCTR, data, false);
  }

  lemma MayStillRead(t: Table, u: Table, h: Handle, path: Path)
    requires MayRead(t, h, path) && Grows(t, u) && KeepsNames(t, u)
    ensures MayRead(u, h, path) && Route(u, h, path) == Route(t, h, path)
  {
    hide FindPrestat, KeepsNames;
    var f := FindPrestat(h, path).value;
    WalkStable(t, u, h.fds[f.0].inode, f.1);
    WalkInNodes(t.nodes, h.fds[f.0].inode, f.1);
    hide Walk;
  }

  /** If the route ends at no bytes and the path at some, what is written to the path is not read back. */
  lemma ReadsNothing(s: State, h: Handle, data: seq<Byte>)
    requires Inv(s) && Superuser(s.t, h) && Resolve(s.t, AESCTR).Ok? && FileAt(s.t.nodes, Resolve(s.t, AESCTR).value)
    requires BytesAt(s.t, AESCTR) != [] && MayRead(s.t, s.h, AESCTR) && RouteBytes(s.t, s.h, AESCTR) == []
    requires |data| < U63
    ensures var w := WriteFile(s.t, h, AESCTR, data, false); w.r.Ok? && ReadFile(w.t, s.h, AESCTR).r == Ok([])
  {
    assert Route(s.t, s.h, AESCTR) != Resolve(s.t, AESCTR) && Route(s.t, s.h, AESCTR).Ok?;
    hide TableInv, HandleInv, WriteFile, ReadFile, FindPrestat, Walk, KeepsNames, MayRead, AddsOnly, Route, Resolve;
    SuperuserMayWrite(s.t, h, data);
    var w := WriteFile(s.t, h, AESCTR, data, false);
    WriteFileOk(State(s.t, h), AESCTR, data, false);
    SameRoute(s.t, w.t, h, w.h, AESCTR);
    MayStillRead(s.t, w.t, s.h, AESCTR);
    ReadAfterWrite(State(s.t, h), AESCTR, data, false, s.h);
  }

  lemma SameRoute(t: Table, u: Table, h: Handle, g: Handle, path: Path)
    requires Grows(t, u) && KeepsNames(t, u) && g.fds == h.fds && g.prestat == h.prestat && Route(t, h, path).Ok?
    ensures Route(u, g, path) == Route(t, h, path)
  {
    hide FindPrestatFrom, KeepsNames, Grows;
    var f := FindPrestat(h, path).value;
    WalkStable(t, u, h.fds[f.0].inode, f.1);
    hide Walk;
  }

  /**
   * After the same three steps the superuser writes `/services/aesctr.dat`, and the first handle reads back nothing:
   * its route still ends at the service that was there at its spawn.
   */
  lemma StaleReadBack(rights: RightsTable, p: Principal, data: seq<Byte>)
    requires p in rights && rights[p] == BOTH_ROW && |data| < U63
    ensures var o := NewFileSystem(rights);
            && IsOrder(BOTH_ROW, BOTH_ORDER) && o.t.rights == rights && Spawn(o.t, p, BOTH_ORDER).r.Ok?
            && var s := RunOps(After(Spawn(o.t, p, BOTH_ORDER)), STALE);
               var w := WriteFile(s.t, o.h, AESCTR, data, false);
               && Inv(s) && Inv(State(s.t, o.h)) && w.r.Ok? && ReadFile(w.t, s.h, AESCTR).r == Ok([])
  {
    hide *;
    var o := NewFileSystem(rights);
    var s := Stale(rights, p);
    SuperuserStays(rights, p);
    ReadsNothing(s, o.h, data);
    SuperuserInv(s.t, o.h);
  }

  lemma SuperuserInv(t: Table, h: Handle)
    requires Superuser(t, h)
    ensures Inv(State(t, h))
  {
  }

  lemma SuperuserStays(rights: RightsTable, p: Principal)
    requires p in rights && rights[p] == BOTH_ROW
    ensures var o := NewFileSystem(rights);
            && IsOrder(BOTH_ROW, BOTH_ORDER) && o.t.rights == rights
            && Superuser(RunOps(After(Spawn(o.t, p, BOTH_ORDER)), STALE).t, o.h)
  {
    NewFileSystemOk(rights);
    NewFileSystemHolds(rights);
    var o := NewFileSystem(rights);
    assert WorldInv(World(o.t, [o.h])) && [o.h][0] == o.h;
    hide NewFileSystem, Agrees, TableInv, Spawn, RunOps, IsOrder, HandleInv, FromRow, ServiceThere, ServiceFree;
    BothSpawned(o.t, p);
    SpawnOk(o.t, p, BOTH_ORDER);
    var s := After(Spawn(o.t, p, BOTH_ORDER));
    RunOpsInv(s, STALE);
    OtherHandle(o.t, s.t, o.h);
    OtherHandle(s.t, RunOps(s, STALE).t, o.h);
  }

  // ---------------------------------------------------------------------------
  // Offsets and pre-opened descriptors.
  // ---------------------------------------------------------------------------

  const SHRINK: seq<Op> := [Create, Write(7, [[1]]), SetSize(7, 0)]

  /** A descriptor whose file is made shorter keeps its offset, and the next read from it panics. */
  lemma ShrunkFile(rights: RightsTable)
    ensures var o := NewFileSystem(rights);
            var s := RunOps(State(o.t, o.h), SHRINK);
            && o.r.Ok? && Inv(s) && FdRead(s.t, s.h, 7, [[0]]).1.r == Panic
  {
    NewFileSystemOk(rights);
    NewFileSystemHolds(rights);
    var o := NewFileSystem(rights);
    assert WorldInv(World(o.t, [o.h])) && [o.h][0] == o.h;
    hide NewFileSystem, Agrees, TableInv, RunOps, ServiceThere, ServiceFree, FdRead;
    Shrunk(State(o.t, o.h));
  }

  lemma Shrunk(s: State)
    requires Inv(s) && s.h.nextFd == 7 && 7 !in s.h.fds && s.t.next <= 10
    ensures var u := RunOps(s, SHRINK); Inv(u) && FdRead(u.t, u.h, 7, [[0]]).1.r == Panic
  {
    hide TableInv, RunOps, Step, FdRead, FdCreate;
    CreateStep(s);
    CandidateUnused(s.t);
    StepInv(s, Create);
    CreateIs(s);
    var a := Step(s, Create);
    WroteOne(a, 7);
    StepInv(a, SHRINK[1]);
    var b := Step(a, SHRINK[1]);
    ReadsPastEnd(b, 7);
    RunOpsInv(s, SHRINK);
    ShrinkOps(s);
  }

  lemma CreateIs(s: State)
    ensures Step(s, Create) == After(FdCreate(s.t, s.h))
    ensures FdCreate(s.t, s.h).r.Ok? ==> FdCreate(s.t, s.h).r.value == s.h.nextFd
  {
  }

  lemma ReadsPastEnd(s: State, fd: Fd)
    requires fd in s.h.fds && s.h.fds[fd].base == ALL_RIGHTS && s.h.fds[fd].offset > 0
    requires FileAt(s.t.nodes, s.h.fds[fd].inode)
    ensures var u := Step(s, SetSize(fd, 0)); FdRead(u.t, u.h, fd, [[0]]).1.r == Panic
  {
  }

  lemma ShrinkOps(s: State)
    ensures RunOps(s, SHRINK) == Step(Step(Step(s, SHRINK[0]), SHRINK[1]), SHRINK[2])
  {
    hide Step;
    assert SHRINK[1..][0] == SHRINK[1] && SHRINK[1..][1..][0] == SHRINK[2] && SHRINK[1..][1..][1..] == [];
    var a := Step(s, SHRINK[0]);
    var b := Step(a, SHRINK[1]);
    assert RunOps(a, SHRINK[1..]) == RunOps(b, SHRINK[1..][1..]);
  }

  /** A handle that closes its pre-opened descriptor loses every path below it, although the paths still resolve. */
  lemma PreopenClosed(rights: RightsTable)
    ensures var o := NewFileSystem(rights);
            var s := Step(State(o.t, o.h), Close(3));
            && o.r.Ok? && Inv(s) && DropsPreopen(o.h, Close(3))
            && Route(o.t, o.h, AESCTR) == Resolve(o.t, AESCTR) && Resolve(s.t, AESCTR).Ok?
            && Route(s.t, s.h, AESCTR) == Err(BadF)
  {
    NewFileSystemOk(rights);
    NewFileSystemHolds(rights);
    var o := NewFileSystem(rights);
    assert WorldInv(World(o.t, [o.h])) && [o.h][0] == o.h;
    RootThere(o.t);
    hide NewFileSystem, Agrees, TableInv, FindPrestat, Walk, ServiceFree;
    StepInv(State(o.t, o.h), Close(3));
    RouteOfRoot(o.h);
    RouteOfRoot(Step(State(o.t, o.h), Close(3)).h);
  }
}
