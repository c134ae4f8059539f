/**
 * Stability of names over whole runs, and the two routes to an absolute path.
 */
module VfsNames {
  import opened Common
  import opened Paths
  import opened Policy
  import opened Inodes
  import opened Vfs
  import opened VfsSteps
  import opened VfsWorld

  /** No step of the run is a rebinding `path_create_directory`. */
  ghost predicate StableRun(w: World, es: seq<Event>)
    decreases |es|
  {
    es == [] ||
    (&& (es[0].Act? && es[0].k < |w.hs| ==> !Rebinds(State(w.t, w.hs[es[0].k]), es[0].op))
     && StableRun(Next(w, es[0]), es[1..]))
  }

  lemma NextNames(w: World, e: Event)
    requires WorldInv(w)
    requires e.Act? && e.k < |w.hs| ==> !Rebinds(State(w.t, w.hs[e.k]), e.op)
    ensures KeepsNames(w.t, Next(w, e).t)
  {
    ExtendsRefl(w.t);
    hide TableInv, KeepsBytes, KeepsNames, FromRow, Agrees, IsOrder, HandleInv, Grows;
    if Possible(w.t, e) {
      match e
      case Act(k, op) =>
        if k < |w.hs| {
          StepNames(State(w.t, w.hs[k]), op);
        }
      case SpawnFor(p, order) =>
        if p in w.t.rights {
          SpawnOk(w.t, p, order);
        }
    }
  }

  lemma {:induction false} RunNames(w: World, es: seq<Event>)
    requires WorldInv(w) && StableRun(w, es)
    ensures KeepsNames(w.t, Run(w, es).t)
    decreases |es|
  {
    hide WorldInv, KeepsNames;
    if es == [] {
      ExtendsRefl(w.t);
    } else {
      NextNames(w, es[0]);
      NextInv(w, es[0]);
      RunNames(Next(w, es[0]), es[1..]);
      KeepsNamesTrans(w.t, Next(w, es[0]).t, Run(w, es).t);
    }
  }

  /** Resolution is stable: in such a run, a path that once resolves keeps resolving to the same inode. */
  lemma ResolutionStable(w: World, es: seq<Event>, i: Inode, path: Path)
    requires WorldInv(w) && StableRun(w, es)
    requires Walk(w.t.nodes, i, path).Ok?
    ensures Walk(Run(w, es).t.nodes, i, path) == Walk(w.t.nodes, i, path)
  {
    RunNames(w, es);
    RunInv(w, es);
    WalkStable(w.t, Run(w, es).t, i, path);
  }

  /** The condition is exact: after a rebinding step, the name it rebinds leads elsewhere. */
  lemma RebindingMovesTheName(s: State, op: Op)
    requires Inv(s) && Rebinds(s, op)
    ensures var parent := s.h.fds[op.fd].inode;
            && Walk(s.t.nodes, parent, [op.path[0]]).Ok?
            && Walk(Step(s, op).t.nodes, parent, [op.path[0]]).Ok?
            && Walk(Step(s, op).t.nodes, parent, [op.path[0]]) != Walk(s.t.nodes, parent, [op.path[0]])
  {
    hide TableInv, Walk, Step, KeepsNames;
    RebindsFirst(s, op);
    var parent, c := s.h.fds[op.fd].inode, op.path[0];
    StepInv(s, op);
    Rebound(s, op);
    CandidateUnused(s.t);
    LookupIn(s.t, parent, c);
    WalkOne(s.t, parent, c);
    LookupIn(Step(s, op).t, parent, c);
    WalkOne(Step(s, op).t, parent, c);
  }

  lemma WalkOne(t: Table, i: Inode, c: Component)
    requires Lookup(t.nodes, i, c).Ok? && Lookup(t.nodes, i, c).value in t.nodes
    ensures Walk(t.nodes, i, [c]) == Lookup(t.nodes, i, c)
  {
    assert [c][1..] == [];
    assert Walk(t.nodes, i, [c]) == Walk(t.nodes, Lookup(t.nodes, i, c).value, []);
  }

  // ---------------------------------------------------------------------------
  // Pre-opened directories.
  // ---------------------------------------------------------------------------

  lemma {:induction false} FindFromDeepest(h: Handle, path: Path, k: nat)
    requires IsAncestor(path, k)
    ensures match FindPrestatFrom(h.prestat, path, k)
            case Ok((fd, rest)) =>
              exists n :: 0 <= n <= k && IsAncestor(path, n) && rest == path[n..] && fd in h.prestat
                  && h.prestat[fd] == path[..n]
                          && forall j :: n < j <= k ==> !Preopened(h, path[..j])
            case Err(e) => e == Access && forall j :: 0 <= j <= k && IsAncestor(path, j) ==> !Preopened(h, path[..j])
            case Panic => false
  {
    if !Preopened(h, path[..k]) && HasParent(path[..k]) {
      assert path[..k][k - 1] == path[k - 1];
      FindFromDeepest(h, path, k - 1);
    }
  }

  /** `find_prestat` picks the deepest pre-opened ancestor, and fails only when there is none. */
  lemma FindPrestatDeepest(h: Handle, path: Path)
    ensures match FindPrestat(h, path)
            case Ok((fd, rest)) =>
              exists n :: 0 <= n <= |path| && IsAncestor(path, n) && rest == path[n..] && fd in h.prestat
                  && h.prestat[fd] == path[..n]
                          && forall j :: n < j <= |path| ==> !Preopened(h, path[..j])
            case Err(e) => e == Access && forall j :: 0 <= j <= |path| && IsAncestor(path, j) ==>
                !Preopened(h, path[..j])
            case Panic => false
  {
    FindFromDeepest(h, path, |path|);
  }

  /** With agreeing pre-opens, walking the remainder from the deepest one is walking the whole path from the root. */
  lemma RoutesAgree(t: Table, h: Handle, path: Path)
    requires Agrees(t, h)
    requires FindPrestat(h, path).Ok?
    ensures var (fd, rest) := FindPrestat(h, path).value;
            fd in h.fds && fd in h.prestat
                && Walk(t.nodes, h.fds[fd].inode, rest) == Walk(t.nodes, ROOT, StripRoot(path))
  {
    hide FindPrestat, Walk;
    FindPrestatDeepest(h, path);
    var (fd, rest) := FindPrestat(h, path).value;
    var n :| 0 <= n <= |path| && IsAncestor(path, n) && rest == path[n..] && fd in h.prestat
        && h.prestat[fd] == path[..n];
    StripAncestor(path, n);
    WalkAppend(t.nodes, ROOT, StripRoot(path[..n]), path[n..]);
  }

  lemma StripAncestor(path: Path, n: nat)
    requires n <= |path| && IsAncestor(path, n)
    ensures StripRoot(path) == StripRoot(path[..n]) + path[n..]
  {
    assert path == path[..n] + path[n..];
  }

  /** The step takes a pre-opened descriptor away. */
  predicate DropsPreopen(h: Handle, op: Op) {
    (op.Close? || op.Renumber?) && op.fd in h.prestat
  }

  lemma OtherStays(s: State, op: Op)
    requires !DropsPreopen(s.h, op) && !IsByteOp(op) && !op.Open?
    requires forall fd :: fd in s.h.prestat ==> fd in s.h.fds
    ensures var g := Step(s, op).h;
            g.prestat == s.h.prestat && forall fd :: fd in s.h.prestat ==>
                fd in g.fds && g.fds[fd].inode == s.h.fds[fd].inode
  {
    hide NewInode, InsertFile, TruncateFile, CreateDirs, Walk;
  }

  /** Pre-opened descriptors stay on their inodes. */
  lemma PreopensStay(s: State, op: Op)
    requires Inv(s)
    requires !DropsPreopen(s.h, op)
    requires forall fd :: fd in s.h.prestat ==> fd in s.h.fds
    ensures var g := Step(s, op).h;
            g.prestat == s.h.prestat && forall fd :: fd in s.h.prestat ==>
                fd in g.fds && g.fds[fd].inode == s.h.fds[fd].inode
  {
    hide TableInv, OnlyAt, Step, Extends, Walk;
    if IsByteOp(op) {
      ByteStep(s, op);
    } else if op.Open? {
      var mid := OpenStep(s, op);
    } else {
      OtherStays(s, op);
    }
  }

  lemma AgreesStep(s: State, op: Op)
    requires Inv(s) && Agrees(s.t, s.h)
    requires !Rebinds(s, op) && !DropsPreopen(s.h, op)
    ensures Agrees(Step(s, op).t, Step(s, op).h)
  {
    StepInv(s, op);
    StepNames(s, op);
    PreopensStay(s, op);
    OtherAgrees(s.t, Step(s, op).t, s.h);
    hide TableInv, HandleInv, Step, KeepsNames;
  }

  lemma OtherAgrees(t: Table, u: Table, h: Handle)
    requires Agrees(t, h) && Grows(t, u) && KeepsNames(t, u)
    ensures Agrees(u, h)
  {
    forall fd | fd in h.prestat
      ensures Walk(u.nodes, ROOT, StripRoot(h.prestat[fd])) == Walk(t.nodes, ROOT, StripRoot(h.prestat[fd]))
    {
      WalkStable(t, u, ROOT, StripRoot(h.prestat[fd]));
    }
    hide Grows, KeepsNames;
  }

  /** Handle `k` neither closes nor renumbers a pre-opened descriptor during the run. */
  ghost predicate KeepsPreopens(w: World, es: seq<Event>, k: nat)
    decreases |es|
  {
    es == [] ||
    (&& (es[0].Act? && es[0].k == k && k < |w.hs| ==> !DropsPreopen(w.hs[k], es[0].op))
     && KeepsPreopens(Next(w, es[0]), es[1..], k))
  }

  /** In stable runs the two routes keep agreeing, whatever the other handles do. */
  lemma {:induction false} AgreesRun(w: World, es: seq<Event>, k: nat)
    requires WorldInv(w) && k < |w.hs| && Agrees(w.t, w.hs[k])
    requires StableRun(w, es) && KeepsPreopens(w, es, k)
    ensures k < |Run(w, es).hs| && Agrees(Run(w, es).t, Run(w, es).hs[k])
    decreases |es|
  {
    if es != [] {
      var e := es[0];
      NextInv(w, e);
      NextNames(w, e);
      hide Agrees, TableInv, HandleInv, KeepsNames, Step, Spawn, Rebinds;
      if e.Act? && e.k == k {
        AgreesStep(State(w.t, w.hs[k]), e.op);
      } else {
        OtherAgrees(w.t, Next(w, e).t, w.hs[k]);
      }
      AgreesRun(Next(w, e), es[1..], k);
    }
  }

  /** From the spawn of a handle on: both routes to every absolute path reach the same inode in every stable run. */
  lemma RoutesAgreeInRuns(w: World, p: Principal, order: seq<Path>, es: seq<Event>, path: Path)
    requires WorldInv(w) && p in w.t.rights && IsOrder(w.t.rights[p], order) && Spawn(w.t, p, order).r.Ok?
    requires var w1 := Next(w, SpawnFor(p, order)); StableRun(w1, es) && KeepsPreopens(w1, es, |w.hs|)
    ensures var w2 := Run(Next(w, SpawnFor(p, order)), es);
            && |w.hs| < |w2.hs|
            && (FindPrestat(w2.hs[|w.hs|], path).Ok? ==>
                  var (fd, rest) := FindPrestat(w2.hs[|w.hs|], path).value;
                  fd in w2.hs[|w.hs|].fds
                  && Walk(w2.t.nodes, w2.hs[|w.hs|].fds[fd].inode, rest) == Walk(w2.t.nodes, ROOT, StripRoot(path)))
  {
    var w1 := Next(w, SpawnFor(p, order));
    NextInv(w, SpawnFor(p, order));
    SpawnOk(w.t, p, order);
    hide TableInv, Agrees, HandleInv, FromRow, Spawn, Run, StableRun, KeepsPreopens, FindPrestat;
    AgreesRun(w1, es, |w.hs|);
    var w2 := Run(w1, es);
    if FindPrestat(w2.hs[|w.hs|], path).Ok? {
      RoutesAgree(w2.t, w2.hs[|w.hs|], path);
    }
  }
}
