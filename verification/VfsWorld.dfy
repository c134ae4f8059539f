/**
 * Whole runs over one table: principals get handles and all handles act in any order.
 */
module VfsWorld {
  import opened Common
  import opened Paths
  import opened Policy
  import opened Inodes
  import opened Vfs
  import opened VfsSteps

  datatype World = World(t: Table, hs: seq<Handle>)

  datatype Event = SpawnFor(principal: Principal, order: seq<Path>) | Act(k: nat, op: Op)

  ghost predicate Possible(t: Table, e: Event) {
    e.SpawnFor? && e.principal in t.rights ==> IsOrder(t.rights[e.principal], e.order)
  }

  ghost function Next(w: World, e: Event): World {
    if !Possible(w.t, e) then w else
    match e
    case Act(k, op) =>
      if k >= |w.hs| then w else
      var s := Step(State(w.t, w.hs[k]), op);
      World(s.t, w.hs[k := s.h])
    case SpawnFor(p, order) =>
      var o := Spawn(w.t, p, order);
      World(o.t, if o.r.Ok? then w.hs + [o.h] else w.hs)
  }

  ghost function Run(w: World, es: seq<Event>): World
    decreases |es|
  {
    if es == [] then w else Run(Next(w, es[0]), es[1..])
  }

  ghost predicate WorldInv(w: World) {
    TableInv(w.t) && forall k :: 0 <= k < |w.hs| ==> HandleInv(w.t, w.hs[k])
  }

  // ---------------------------------------------------------------------------
  // Spawning.
  // ---------------------------------------------------------------------------

  /** Every pre-opened descriptor is open on the inode its path resolves to from the root. */
  ghost predicate Agrees(t: Table, h: Handle) {
    forall fd :: fd in h.prestat ==> fd in h.fds && Walk(t.nodes, ROOT, StripRoot(h.prestat[fd])) == Ok(h.fds[fd].inode)
  }

  /** Every descriptor is at offset zero with the rights of one entry of the row. */
  ghost predicate FromRow(h: Handle, row: RightsMap) {
    forall fd :: fd in h.fds ==>
      h.fds[fd].offset == 0 && exists p :: p in row && h.fds[fd].base == row[p] && h.fds[fd].inheriting == row[p]
  }

  lemma PreopenInodeOk(t: Table, path: Path)
    requires TableInv(t)
    ensures var e := PreopenInode(t, path);
            && TableInv(e.t) && Extends(t, e.t) && !e.r.Panic?
            && (e.r.Ok? ==> e.r.value in e.t.nodes && Walk(e.t.nodes, ROOT, StripRoot(path)) == e.r)
  {
    ExtendsRefl(t);
    if StripRoot(path) != [] {
      AddAllDirOk(t, ROOT, StripRoot(path));
      var e := PreopenInode(t, path);
      if e.r.Ok? {
        WalkInNodes(e.t.nodes, ROOT, StripRoot(path));
      }
    }
    hide TableInv, Extends;
  }

  lemma AgreesStable(t: Table, u: Table, h: Handle)
    requires Agrees(t, h) && Extends(t, u)
    ensures Agrees(u, h)
  {
    forall fd | fd in h.prestat
      ensures Walk(u.nodes, ROOT, StripRoot(h.prestat[fd])) == Walk(t.nodes, ROOT, StripRoot(h.prestat[fd]))
    {
      WalkStable(t, u, ROOT, StripRoot(h.prestat[fd]));
    }
    hide Grows, KeepsBytes, KeepsNames;
  }

  lemma {:induction false} PreopenOk(t: Table, row: RightsMap, order: seq<Path>, n: nat)
    requires TableInv(t)
    requires n <= |order| && forall k :: 0 <= k < |order| ==> order[k] in row
    ensures var o := Preopen(t, row, order, n);
            && TableInv(o.t) && Extends(t, o.t) && !o.r.Panic?
            && HandleInv(o.t, o.h) && Agrees(o.t, o.h) && FromRow(o.h, row)
  {
    hide TableInv, Extends, HandleInv, Agrees, FromRow;
    if n == 0 {
      ExtendsRefl(t);
      StdFdsOk(t, row);
    } else {
      PreopenOk(t, row, order, n - 1);
      var prev := Preopen(t, row, order, n - 1);
      if prev.r.Ok? {
        PreopenPrestat(t, row, order, n - 1);
        var path := order[n - 1];
        PreopenInodeOk(prev.t, path);
        var e := PreopenInode(prev.t, path);
        ExtendsTrans(t, prev.t, e.t);
        PreopenedKept(prev.t, e.t, prev.h, row);
        if e.r.Ok? {
          InstallKept(e.t, prev.h, row, FIRST_FD + n - 1, path, e.r.value);
        }
      }
    }
  }

  /** The descriptor numbers of the pre-opened paths. */
  lemma {:induction false} PreopenPrestat(t: Table, row: RightsMap, order: seq<Path>, n: nat)
    requires n <= |order| && forall k :: 0 <= k < |order| ==> order[k] in row
    ensures var o := Preopen(t, row, order, n);
            && (forall fd :: fd in o.h.prestat ==>
                FIRST_FD <= fd < FIRST_FD + n && o.h.prestat[fd] == order[fd - FIRST_FD])
            && (o.r.Ok? ==> forall fd :: FIRST_FD <= fd < FIRST_FD + n ==> fd in o.h.prestat)
  {
    hide PreopenInode, StdFds;
    if n > 0 {
      hide Preopen;
      PreopenPrestat(t, row, order, n - 1);
      PreopenStep(t, row, order, n);
    }
  }

  /** What one more round does to the pre-opened paths. */
  lemma PreopenStep(t: Table, row: RightsMap, order: seq<Path>, n: nat)
    requires 0 < n <= |order| && forall k :: 0 <= k < |order| ==> order[k] in row
    ensures var prev, o := Preopen(t, row, order, n - 1), Preopen(t, row, order, n);
            if o.r.Ok? then prev.r.Ok? && o.h.prestat == prev.h.prestat[FIRST_FD + n - 1 := order[n - 1]]
            else o.h.prestat == prev.h.prestat
  {
    hide PreopenInode, StdFds;
  }

  lemma StdFdsOk(t: Table, row: RightsMap)
    requires TableInv(t)
    ensures var h := Handle(StdFds(t, row), FIRST_FD, map[]);
            HandleInv(t, h) && Agrees(t, h) && FromRow(h, row)
  {
  }

  lemma PreopenedKept(t: Table, u: Table, h: Handle, row: RightsMap)
    requires Extends(t, u) && HandleInv(t, h) && Agrees(t, h)
    ensures HandleInv(u, h) && Agrees(u, h)
  {
    AgreesStable(t, u, h);
  }

  lemma InstallKept(t: Table, h: Handle, row: RightsMap, fd: Fd, path: Path, i: Inode)
    requires HandleInv(t, h) && Agrees(t, h) && FromRow(h, row)
    requires path in row && i in t.nodes && Walk(t.nodes, ROOT, StripRoot(path)) == Ok(i)
    requires fd !in h.prestat
    ensures var g := InstallFd(h, fd, FdEntry(i, Unknown, row[path], row[path], 0)).(prestat := h.prestat[fd := path]);
            HandleInv(t, g) && Agrees(t, g) && FromRow(g, row)
  {
  }

  /** Pre-opened paths are pairwise different. */
  ghost predicate PrestatInjective(h: Handle) {
    forall a, b :: a in h.prestat && b in h.prestat && h.prestat[a] == h.prestat[b] ==> a == b
  }

  /** `spawn` only extends the table; its handle agrees with the root, and its rights are those of the row. */
  lemma SpawnOk(t: Table, p: Principal, order: seq<Path>)
    requires TableInv(t)
    requires p in t.rights && IsOrder(t.rights[p], order)
    ensures var o := Spawn(t, p, order);
            && TableInv(o.t) && Extends(t, o.t) && !o.r.Panic?
            && HandleInv(o.t, o.h) && Agrees(o.t, o.h) && FromRow(o.h, t.rights[p])
  {
    PreopenOk(t, t.rights[p], order, |order|);
    hide TableInv, Extends, Walk;
  }

  /** A spawned handle pre-opens each path of the row but the standard streams, once. */
  lemma SpawnPrestat(t: Table, p: Principal, order: seq<Path>)
    requires p in t.rights && IsOrder(t.rights[p], order)
    ensures var o := Spawn(t, p, order);
            && PrestatInjective(o.h)
            && (o.r.Ok? ==> forall q :: q in t.rights[p] && !IsStdPath(q) <==> Preopened(o.h, q))
  {
    var row := t.rights[p];
    PreopenPrestat(t, row, order, |order|);
    var o := Spawn(t, p, order);
    hide Preopen, Spawn;
    assert forall fd :: fd in o.h.prestat ==> order[fd - FIRST_FD] in order;
    forall q | Preopened(o.h, q) ensures q in row && !IsStdPath(q) {
      var fd :| fd in o.h.prestat && o.h.prestat[fd] == q;
    }
    forall q | o.r.Ok? && q in row && !IsStdPath(q) ensures Preopened(o.h, q) {
      var k :| 0 <= k < |order| && order[k] == q;
      assert FIRST_FD + k in o.h.prestat;
    }
  }

  // ---------------------------------------------------------------------------
  // The invariant of every run.
  // ---------------------------------------------------------------------------

  lemma NextInv(w: World, e: Event)
    requires WorldInv(w)
    ensures WorldInv(Next(w, e)) && Grows(w.t, Next(w, e).t) && |w.hs| <= |Next(w, e).hs|
  {
    ExtendsRefl(w.t);
    hide TableInv, KeepsBytes, KeepsNames, FromRow, Agrees, IsOrder;
    if Possible(w.t, e) {
      match e
      case Act(k, op) =>
        if k < |w.hs| {
          StepInv(State(w.t, w.hs[k]), op);
        }
      case SpawnFor(p, order) =>
        if p in w.t.rights {
          SpawnOk(w.t, p, order);
        }
    }
  }

  /** The table invariant holds throughout every run of every set of handles, and nothing is ever removed. */
  lemma {:induction false} RunInv(w: World, es: seq<Event>)
    requires WorldInv(w)
    ensures WorldInv(Run(w, es)) && Grows(w.t, Run(w, es).t) && |w.hs| <= |Run(w, es).hs|
    decreases |es|
  {
    if es != [] {
      NextInv(w, es[0]);
      RunInv(Next(w, es[0]), es[1..]);
    }
    hide WorldInv;
  }

  lemma {:induction false} RunAppend(w: World, es: seq<Event>, e: Event)
    ensures Run(w, es + [e]) == Next(Run(w, es), e)
    decreases |es|
  {
    if es != [] {
      assert (es + [e])[1..] == es[1..] + [e];
      RunAppend(Next(w, es[0]), es[1..], e);
    }
  }
}
