/**
 * What the rights of a policy guarantee about whole runs.
 */
module VfsRights {
  import opened Paths
  import opened Policy
  import opened Inodes
  import opened Vfs
  import opened VfsSteps
  import opened VfsWorld

  predicate WithinEntry(e: FdEntry, row: RightsMap, p: Path) {
    p in row && e.base <= row[p] && e.inheriting <= row[p]
  }

  /** Every descriptor is within one entry of the row, or on an anonymous file of `anon`. */
  ghost predicate Attenuated(t: Table, h: Handle, row: RightsMap, anon: set<Inode>) {
    forall fd :: fd in h.fds ==>
      (exists p :: WithinEntry(h.fds[fd], row, p)) || (h.fds[fd].inode in anon && FileAt(t.nodes, h.fds[fd].inode))
  }

  /** The inode a step hands out anonymously, if any. */
  function Anonymous(s: State, op: Op): set<Inode> {
    if op.Create? && NewInode(s.t).r.Ok? then {s.t.next} else {}
  }

  lemma CreateAttenuated(s: State, row: RightsMap, anon: set<Inode>)
    requires Attenuated(s.t, s.h, row, anon)
    requires Grows(s.t, Step(s, Create).t)
    ensures Attenuated(Step(s, Create).t, Step(s, Create).h, row, anon + Anonymous(s, Create))
  {
    var u := Step(s, Create);
    forall fd | fd in u.h.fds
      ensures (exists p :: WithinEntry(u.h.fds[fd], row, p))
              || (u.h.fds[fd].inode in anon + Anonymous(s, Create) && FileAt(u.t.nodes, u.h.fds[fd].inode))
    {
      if fd in s.h.fds && u.h.fds[fd] == s.h.fds[fd] {
      } else {
        assert u.h.fds[fd].inode == s.t.next;
      }
    }
  }

  lemma OpenAttenuated(s: State, op: Op, row: RightsMap, anon: set<Inode>)
    requires Inv(s) && op.Open?
    requires Attenuated(s.t, s.h, row, anon)
    ensures Attenuated(Step(s, op).t, Step(s, op).h, row, anon)
  {
    StepInv(s, op);
    var mid := OpenStep(s, op);
    hide TableInv, KeepsNames, KeepsBytes, Extends, OnlyAt, Step, Walk;
    var u := Step(s, op);
    forall fd | fd in u.h.fds
      ensures (exists p :: WithinEntry(u.h.fds[fd], row, p))
                || (u.h.fds[fd].inode in anon && FileAt(u.t.nodes, u.h.fds[fd].inode))
    {
      if fd !in s.h.fds || u.h.fds[fd] != s.h.fds[fd] {
        var p :| WithinEntry(s.h.fds[op.fd], row, p);
        assert WithinEntry(u.h.fds[fd], row, p);
      }
    }
  }

  lemma ByteAttenuated(s: State, u: State, fd: Fd, row: RightsMap, anon: set<Inode>)
    requires SameButOffset(s.h, u.h, fd) && Grows(s.t, u.t)
    requires Attenuated(s.t, s.h, row, anon)
    ensures Attenuated(u.t, u.h, row, anon)
  {
    forall g | g in u.h.fds
      ensures (exists p :: WithinEntry(u.h.fds[g], row, p))
                || (u.h.fds[g].inode in anon && FileAt(u.t.nodes, u.h.fds[g].inode))
    {
      if p :| WithinEntry(s.h.fds[g], row, p) {
        assert WithinEntry(u.h.fds[g], row, p);
      }
    }
  }

  /** Closing, renumbering and the like only drop or move descriptors. */
  lemma MovedAttenuated(s: State, op: Op, row: RightsMap, anon: set<Inode>)
    requires Attenuated(s.t, s.h, row, anon) && Grows(s.t, Step(s, op).t)
    requires !op.Create? && !op.Open? && !IsByteOp(op)
    ensures Attenuated(Step(s, op).t, Step(s, op).h, row, anon)
  {
    hide WithinEntry, CreateDirs, TruncateFile, Walk;
  }

  /** One step of the handle itself. */
  lemma StepAttenuated(s: State, op: Op, row: RightsMap, anon: set<Inode>)
    requires Inv(s)
    requires Attenuated(s.t, s.h, row, anon)
    ensures Attenuated(Step(s, op).t, Step(s, op).h, row, anon + Anonymous(s, op))
  {
    hide TableInv, KeepsNames, KeepsBytes, WithinEntry, Step, Attenuated, OnlyAt;
    StepInv(s, op);
    if op.Create? {
      CreateAttenuated(s, row, anon);
    } else {
      assert anon + Anonymous(s, op) == anon;
      if op.Open? {
        OpenAttenuated(s, op, row, anon);
      } else if IsByteOp(op) {
        ByteStep(s, op);
        ByteAttenuated(s, Step(s, op), op.fd, row, anon);
      } else {
        MovedAttenuated(s, op, row, anon);
      }
    }
  }

  lemma OtherAttenuated(t: Table, u: Table, h: Handle, row: RightsMap, anon: set<Inode>)
    requires Attenuated(t, h, row, anon) && Grows(t, u)
    ensures Attenuated(u, h, row, anon)
  {
  }

  /** The inodes handle `k` got from `fd_create` during a run. */
  ghost function AnonymousInRun(w: World, es: seq<Event>, k: nat): set<Inode>
    decreases |es|
  {
    if es == [] then {} else
    (if es[0].Act? && es[0].k == k && k < |w.hs| then Anonymous(State(w.t, w.hs[k]), es[0].op) else {})
    + AnonymousInRun(Next(w, es[0]), es[1..], k)
  }

  lemma {:induction false} AttenuatedRun(w: World, es: seq<Event>, k: nat, row: RightsMap, anon: set<Inode>)
    requires WorldInv(w) && k < |w.hs|
    requires Attenuated(w.t, w.hs[k], row, anon)
    ensures k < |Run(w, es).hs|
    ensures Attenuated(Run(w, es).t, Run(w, es).hs[k], row, anon + AnonymousInRun(w, es, k))
    ensures forall i :: i in AnonymousInRun(w, es, k) ==> w.t.next <= i
    decreases |es|
  {
    hide TableInv, Attenuated, KeepsNames, KeepsBytes, Step, HandleInv, Spawn;
    if es == [] {
      assert anon + {} == anon;
    } else {
      var e := es[0];
      NextInv(w, e);
      var v := Next(w, e);
      var mine := if e.Act? && e.k == k then Anonymous(State(w.t, w.hs[k]), e.op) else {};
      if e.Act? && e.k == k {
        StepAttenuated(State(w.t, w.hs[k]), e.op, row, anon);
      } else {
        assert anon + mine == anon;
        OtherAttenuated(w.t, v.t, w.hs[k], row, anon);
      }
      AttenuatedRun(v, es[1..], k, row, anon + mine);
      assert anon + mine + AnonymousInRun(v, es[1..], k) == anon + AnonymousInRun(w, es, k);
    }
  }

  /** The world right after a successful `spawn`. */
  ghost predicate Spawned(w: World, p: Principal, order: seq<Path>) {
    && WorldInv(w) && p in w.t.rights && IsOrder(w.t.rights[p], order)
    && Spawn(w.t, p, order).r.Ok?
  }

  lemma FromRowAttenuated(t: Table, h: Handle, row: RightsMap)
    requires FromRow(h, row)
    ensures Attenuated(t, h, row, {})
  {
    forall fd | fd in h.fds ensures exists p :: WithinEntry(h.fds[fd], row, p) {
      var p :| p in row && h.fds[fd].base == row[p] && h.fds[fd].inheriting == row[p];
      assert WithinEntry(h.fds[fd], row, p);
    }
  }

  /**
   * Rights only shrink: whatever all handles do after the spawn, each descriptor of the spawned handle is within
   * one entry of the principal's row, unless it is on a file that this handle itself got from `fd_create`.
   */
  lemma RightsOnlyShrink(w: World, p: Principal, order: seq<Path>, es: seq<Event>)
    requires Spawned(w, p, order)
    ensures var w1 := Next(w, SpawnFor(p, order));
            var k := |w.hs|;
            var w2 := Run(w1, es);
            && k < |w2.hs|
            && (forall fd :: fd in w2.hs[k].fds ==>
                  || (exists q :: WithinEntry(w2.hs[k].fds[fd], w.t.rights[p], q))
                  || (w2.hs[k].fds[fd].inode in AnonymousInRun(w1, es, k)
                      && FileAt(w2.t.nodes, w2.hs[k].fds[fd].inode)))
            && (forall i :: i in AnonymousInRun(w1, es, k) ==> w.t.next <= i)
  {
    var w1 := Next(w, SpawnFor(p, order));
    NextInv(w, SpawnFor(p, order));
    SpawnOk(w.t, p, order);
    FromRowAttenuated(w1.t, w1.hs[|w.hs|], w.t.rights[p]);
    hide TableInv, HandleInv, Agrees, Spawn, Run, KeepsNames, KeepsBytes;
    AttenuatedRun(w1, es, |w.hs|, w.t.rights[p], {});
    assert {} + AnonymousInRun(w1, es, |w.hs|) == AnonymousInRun(w1, es, |w.hs|);
  }

  const WRITING_RIGHTS: Rights := {FD_WRITE, FD_FILESTAT_SET_SIZE, PATH_FILESTAT_SET_SIZE}

  ghost predicate ReadOnlyRow(row: RightsMap) {
    forall p :: p in row ==> row[p] !! WRITING_RIGHTS
  }

  lemma NoAuthority(s: State, row: RightsMap, anon: set<Inode>, op: Op, i: Inode)
    requires ReadOnlyRow(row) && Attenuated(s.t, s.h, row, anon)
    requires i !in anon
    ensures !Entitled(s, op, i)
  {
    hide Walk;
    assert FD_WRITE in WRITING_RIGHTS && FD_FILESTAT_SET_SIZE in WRITING_RIGHTS
        && PATH_FILESTAT_SET_SIZE in WRITING_RIGHTS;
    forall fd ensures !(HoldsWrite(s.h, fd) && s.h.fds[fd].inode == i) && !HoldsTrunc(s, fd) {
      if fd in s.h.fds {
        if p :| WithinEntry(s.h.fds[fd], row, p) {
          assert row[p] !! WRITING_RIGHTS;
        }
      }
    }
  }

  /**
   * A participant without a writing right in an accepted policy: no step of its handle, however interleaved with
   * steps of all other handles, changes a regular file that existed when the handle was spawned.
   */
  lemma ReadOnlyParticipant(policy: Policy, n: nat, w: World, order: seq<Path>, es: seq<Event>, op: Op, i: Inode)
    requires DistinctIds(policy.identities) && n < |policy.identities|
    requires w.t.rights == RightsTableOf(policy)
    requires ReadOnlyRow(ComputeRightMap(policy.identities[n].fileRights))
    requires Spawned(w, Participant(policy.identities[n].id), order)
    requires FileAt(w.t.nodes, i)
    ensures var w2 := Run(Next(w, SpawnFor(Participant(policy.identities[n].id), order)), es);
            var w3 := Next(w2, Act(|w.hs|, op));
            i in w2.t.nodes && i in w3.t.nodes && w3.t.nodes[i] == w2.t.nodes[i]
  {
    OwnRow(policy, n);
    var p := Participant(policy.identities[n].id);
    var w1 := Next(w, SpawnFor(p, order));
    var k := |w.hs|;
    RightsOnlyShrink(w, p, order, es);
    NextInv(w, SpawnFor(p, order));
    RunInv(w1, es);
    var w2 := Run(w1, es);
    hide Run, Spawn, KeepsNames, KeepsBytes, AnonymousInRun;
    NodeAt(w.t, i);
    hide TableInv, NodeOk;
    var s := State(w2.t, w2.hs[k]);
    NoAuthority(s, w.t.rights[p], AnonymousInRun(w1, es, k), op, i);
    StepAuthority(s, op, i);
  }

  lemma SpawnKeeps(w: World, p: Principal, order: seq<Path>, es: seq<Event>, i: Inode)
    requires Spawned(w, p, order) && FileAt(w.t.nodes, i) && es == []
    ensures var w2 := Run(Next(w, SpawnFor(p, order)), es); i in w2.t.nodes && w2.t.nodes[i] == w.t.nodes[i]
  {
    hide TableInv, KeepsNames, Agrees, FromRow, HandleInv, IsOrder, Spawn;
    SpawnOk(w.t, p, order);
  }

  /** So when only that handle acts, the files it found keep their bytes for ever. */
  lemma {:induction false} ReadOnlyAlone(policy: Policy, n: nat, w: World, order: seq<Path>, es: seq<Event>, i: Inode)
    requires DistinctIds(policy.identities) && n < |policy.identities|
    requires w.t.rights == RightsTableOf(policy)
    requires ReadOnlyRow(ComputeRightMap(policy.identities[n].fileRights))
    requires Spawned(w, Participant(policy.identities[n].id), order)
    requires FileAt(w.t.nodes, i)
    requires forall j :: 0 <= j < |es| ==> es[j].Act? && es[j].k == |w.hs|
    ensures var w2 := Run(Next(w, SpawnFor(Participant(policy.identities[n].id), order)), es);
            i in w2.t.nodes && w2.t.nodes[i] == w.t.nodes[i]
    decreases |es|
  {
    hide *;
    var p := Participant(policy.identities[n].id);
    if es == [] {
      SpawnKeeps(w, p, order, es, i);
    } else {
      var m := |es| - 1;
      ReadOnlyAlone(policy, n, w, order, es[..m], i);
      ReadOnlyParticipant(policy, n, w, order, es[..m], es[m].op, i);
      assert es == es[..m] + [Act(|w.hs|, es[m].op)];
      RunAppend(Next(w, SpawnFor(p, order)), es[..m], Act(|w.hs|, es[m].op));
    }
  }
}
