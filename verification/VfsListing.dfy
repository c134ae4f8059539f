/**
 * Reading a whole directory tree.
 */
module VfsListing {
  import opened Common
  import opened Paths
  import opened Inodes
  import opened Vfs
  import opened VfsSteps
  import opened VfsWorld
  import opened VfsFiles

  type Entries = map<Component, Inode>
  /** The order in which the hash map of a directory is iterated. */
  type Order = Entries -> seq<Component>

  ghost predicate Enumerates(ord: Order) {
    forall m: Entries :: Distinct(ord(m)) && forall c :: c in ord(m) <==> c in m
  }

  /** Two tables with the same directories and the same kinds of inodes. */
  ghost predicate SameTree(t: Table, u: Table) {
    && u.next == t.next && u.nodes.Keys == t.nodes.Keys
    && (forall j :: j in t.nodes ==> SameKind(t.nodes[j].data, u.nodes[j].data))
    && (forall j :: DirAt(t.nodes, j) ==> u.nodes[j] == t.nodes[j])
  }

  lemma {:induction false} WalkSameTree(t: Table, u: Table, i: Inode, path: Path)
    requires SameTree(t, u)
    ensures Walk(u.nodes, i, path) == Walk(t.nodes, i, path)
    decreases |path|
  {
    if path != [] && Lookup(t.nodes, i, path[0]).Ok? {
      assert Lookup(u.nodes, i, path[0]) == Lookup(t.nodes, i, path[0]);
      WalkSameTree(t, u, Lookup(t.nodes, i, path[0]).value, path[1..]);
    }
  }

  lemma SameTreeTrans(t: Table, u: Table, v: Table)
    requires SameTree(t, u) && SameTree(u, v)
    ensures SameTree(t, v)
  {
  }

  /** A read by absolute path, whatever its outcome, leaves the tree as it was; a failed one may leave a descriptor. */
  lemma ReadFileTree(s: State, path: Path)
    requires Inv(s)
    ensures var o := ReadFile(s.t, s.h, path);
            && Inv(After(o)) && SameTree(s.t, o.t) && o.h.prestat == s.h.prestat
            && (o.r.Ok? ==> o.h.fds == s.h.fds)
  {
    hide ReadFile, TableInv, HandleInv, RunOps, SameTree, Closed, Route;
    var ops := ReadFileIsRun(s, path);
    RunOpsInv(s, ops);
    var o := ReadFile(s.t, s.h, path);
    if o.r.Ok? {
      ReadFileRoute(s, path);
      ClosedTree(s.t, Route(s.t, s.h, path).value);
    } else {
      ReadFileFailed(s, path);
      SameTreeRefl(s.t);
    }
  }

  lemma ClosedTree(t: Table, i: Inode)
    requires i in t.nodes
    ensures SameTree(t, Closed(t, i))
  {
  }

  lemma SameTreeRefl(t: Table)
    ensures SameTree(t, t)
  {
  }

  /** How deep the walk can still go: directory links lead to higher numbers. */
  ghost function Rank(t: Table, path: Path): nat {
    match Resolve(t, path)
    case Ok(i) => if DirAt(t.nodes, i) && i < t.next then t.next - i else 0
    case _ => 0
  }

  lemma ChildPath(t: Table, path: Path, i: Inode, c: Component)
    requires TableInv(t)
    requires Resolve(t, path) == Ok(i) && Named(t.nodes, i, c)
    ensures Resolve(t, path + [c]) == Ok(Target(t.nodes, i, c))
    ensures Rank(t, path + [c]) < Rank(t, path)
  {
    NodeAt(t, i);
    assert StripRoot(path + [c]) == StripRoot(path) + [c];
    WalkAppend(t.nodes, ROOT, StripRoot(path), [c]);
    assert Walk(t.nodes, i, [c]) == Walk(t.nodes, Target(t.nodes, i, c), []);
    hide TableInv;
  }

  type Listing = seq<(Path, seq<Byte>)>

  /** `read_all_files_by_absolute_path`. */
  ghost function ReadAll(t: Table, h: Handle, path: Path, ord: Order): (o: Out<Listing>)
    requires Inv(State(t, h)) && Enumerates(ord)
    ensures Inv(After(o)) && SameTree(t, o.t) && o.h.prestat == h.prestat && (o.r.Ok? ==> o.h.fds == h.fds)
    decreases Rank(t, path), 1, 0
  {
    match Resolve(t, path)
    case Err(e) => Out(t, h, Err(e))
    case Panic => Out(t, h, Panic)
    case Ok(i) =>
      if DirAt(t.nodes, i) then
        NodeAt(t, i);
        ReadEntries(t, h, path, i, ord(t.nodes[i].data.entries), ord)
      else
        ReadFileTree(State(t, h), path);
        var f := ReadFile(t, h, path);
        Out(f.t, f.h, match f.r
                      case Ok(b) => Ok([(path, b)])
                      case Err(e) => Err(e)
                      case Panic => Panic)
  }

  /** Its loop over the names of one directory. */
  ghost function ReadEntries(t: Table, h: Handle, path: Path, i: Inode, names: seq<Component>,
                             ord: Order): (o: Out<Listing>)
    requires Inv(State(t, h)) && Enumerates(ord)
    requires Resolve(t, path) == Ok(i) && DirAt(t.nodes, i)
    requires forall c :: c in names ==> c in t.nodes[i].data.entries
    ensures Inv(After(o)) && SameTree(t, o.t) && o.h.prestat == h.prestat && (o.r.Ok? ==> o.h.fds == h.fds)
    decreases Rank(t, path), 0, |names|
  {
    if names == [] then Out(t, h, Ok([]))
    else if names[0] == CurDir || names[0] == ParentDir then ReadEntries(t, h, path, i, names[1..], ord)
    else
      NodeAt(t, i);
      assert names[0] in t.nodes[i].data.entries;
      ChildPath(t, path, i, names[0]);
      var sub := ReadAll(t, h, path + [names[0]], ord);
      if !sub.r.Ok? then sub else
      WalkSameTree(t, sub.t, ROOT, StripRoot(path));
      var rest := ReadEntries(sub.t, sub.h, path, i, names[1..], ord);
      SameTreeTrans(t, sub.t, rest.t);
      if !rest.r.Ok? then rest else
      Out(rest.t, rest.h, Ok(sub.r.value + rest.r.value))
  }

  /** So a listing, also one that fails midway, is a run of the single operations. */
  lemma ReadAllIsRun(t: Table, h: Handle, path: Path, ord: Order) returns (ops: seq<Op>)
    requires Inv(State(t, h)) && Enumerates(ord)
    ensures RunOps(State(t, h), ops) == After(ReadAll(t, h, path, ord))
    decreases Rank(t, path), 1, 0
  {
    hide TableInv, HandleInv, Step, ReadFile, Walk;
    ops := [];
    var w := Resolve(t, path);
    if w.Ok? {
      if DirAt(t.nodes, w.value) {
        ops := ReadEntriesIsRun(t, h, path, w.value, ord(t.nodes[w.value].data.entries), ord);
      } else {
        ops := ReadFileIsRun(State(t, h), path);
      }
    }
  }

  lemma ReadEntriesIsRun(t: Table, h: Handle, path: Path, i: Inode, names: seq<Component>, ord: Order)
    returns (ops: seq<Op>)
    requires Inv(State(t, h)) && Enumerates(ord)
    requires Resolve(t, path) == Ok(i) && DirAt(t.nodes, i)
    requires forall c :: c in names ==> c in t.nodes[i].data.entries
    ensures RunOps(State(t, h), ops) == After(ReadEntries(t, h, path, i, names, ord))
    decreases Rank(t, path), 0, |names|
  {
    hide HandleInv, Step, ReadAll, Walk;
    ops := [];
    if names != [] {
      if names[0] == CurDir || names[0] == ParentDir {
        ops := ReadEntriesIsRun(t, h, path, i, names[1..], ord);
      } else {
        NodeAt(t, i);
        hide TableInv;
        assert names[0] in t.nodes[i].data.entries;
        ChildPath(t, path, i, names[0]);
        ops := ReadAllIsRun(t, h, path + [names[0]], ord);
        var sub := ReadAll(t, h, path + [names[0]], ord);
        if sub.r.Ok? {
          WalkSameTree(t, sub.t, ROOT, StripRoot(path));
          RankSameTree(t, sub.t, path);
          var more := ReadEntriesIsRun(sub.t, sub.h, path, i, names[1..], ord);
          RunOpsJoin(State(t, h), ops, more);
          ops := ops + more;
        }
      }
    }
  }

  lemma RankSameTree(t: Table, u: Table, path: Path)
    requires SameTree(t, u)
    ensures Rank(u, path) == Rank(t, path)
  {
    WalkSameTree(t, u, ROOT, StripRoot(path));
    hide Walk;
  }

  // ---------------------------------------------------------------------------
  // Exactly the files below, each once.
  // ---------------------------------------------------------------------------

  /** `rest` names a file or service below directory or file `i`. */
  ghost predicate FileBelow(t: Table, i: Inode, rest: Path) {
    && AllNormal(rest) && Walk(t.nodes, i, rest).Ok?
    && Walk(t.nodes, i, rest).value in t.nodes && !DirAt(t.nodes, Walk(t.nodes, i, rest).value)
  }

  lemma {:induction false} DownIsUp(t: Table, i: Inode, p: Path)
    requires TableInv(t) && AllNormal(p) && p != []
    requires Walk(t.nodes, i, p).Ok? && DirAt(t.nodes, Walk(t.nodes, i, p).value)
    ensures i < Walk(t.nodes, i, p).value
    decreases |p|
  {
    NodeAt(t, i);
    var j := Lookup(t.nodes, i, p[0]).value;
    assert Named(t.nodes, i, p[0]);
    if |p| == 1 {
      assert Walk(t.nodes, i, p) == Walk(t.nodes, j, []);
    } else {
      assert DirAt(t.nodes, j);
      DownIsUp(t, j, p[1..]);
    }
  }

  /** The last step of a walk is a named link. */
  lemma LastLink(t: Table, i: Inode, p: Path)
    requires TableInv(t) && AllNormal(p) && p != [] && i in t.nodes
    requires Walk(t.nodes, i, p).Ok?
    ensures var n := |p| - 1;
            && Walk(t.nodes, i, p[..n]).Ok?
            && Named(t.nodes, Walk(t.nodes, i, p[..n]).value, p[n])
            && Target(t.nodes, Walk(t.nodes, i, p[..n]).value, p[n]) == Walk(t.nodes, i, p).value
  {
    hide TableInv, NoDangling, Walk;
    var n := |p| - 1;
    assert p == p[..n] + [p[n]];
    TableNoDangling(t);
    WalkPrefix(t.nodes, i, p[..n], [p[n]]);
    WalkAppend(t.nodes, i, p[..n], [p[n]]);
    LastLookup(t.nodes, Walk(t.nodes, i, p[..n]).value, p[n]);
  }

  lemma LastLookup(m: Nodes, i: Inode, c: Component)
    requires Walk(m, i, [c]).Ok? && c.Normal?
    ensures Named(m, i, c) && Walk(m, i, [c]) == Ok(Target(m, i, c))
  {
    assert [c][1..] == [];
  }

  /** Two downward paths to the same inode are the same path: links are unique and directories only lead upwards. */
  lemma {:induction false} UniquePath(t: Table, i: Inode, p: Path, q: Path)
    requires TableInv(t) && AllNormal(p) && AllNormal(q) && i in t.nodes
    requires Walk(t.nodes, i, p).Ok? && Walk(t.nodes, i, q) == Walk(t.nodes, i, p)
    ensures p == q
    decreases |p| + |q|
  {
    if p == [] && q != [] {
      assert DirAt(t.nodes, i);
      DownIsUp(t, i, q);
    } else if q == [] && p != [] {
      assert DirAt(t.nodes, i);
      DownIsUp(t, i, p);
    } else if p != [] {
      LastLink(t, i, p);
      LastLink(t, i, q);
      var m, n := |p| - 1, |q| - 1;
      UniquePath(t, i, p[..m], q[..n]);
      assert p == p[..m] + [p[m]] && q == q[..n] + [q[n]];
    }
  }

  predicate InScope(rest: Path, names: seq<Component>) {
    rest != [] ==> rest[0] in names
  }

  ghost predicate Wanted(t: Table, i: Inode, names: seq<Component>, rest: Path) {
    FileBelow(t, i, rest) && InScope(rest, names)
  }

  /** One listed path: it continues `path` with a wanted rest. */
  ghost predicate Listed(t: Table, i: Inode, path: Path, names: seq<Component>, p: Path) {
    path <= p && Wanted(t, i, names, p[|path|..])
  }

  /** The listing holds exactly the paths of the wanted files, each once. */
  ghost predicate Exact(t: Table, i: Inode, path: Path, names: seq<Component>, l: Listing) {
    && (forall k :: 0 <= k < |l| ==> Listed(t, i, path, names, l[k].0))
    && (forall rest :: Wanted(t, i, names, rest) ==> exists k :: 0 <= k < |l| && l[k].0 == path + rest)
    && (forall j, k :: 0 <= j < k < |l| ==> l[j].0 != l[k].0)
  }

  function NamesOf(t: Table, i: Inode, ord: Order): seq<Component> {
    if DirAt(t.nodes, i) then ord(t.nodes[i].data.entries) else []
  }

  /** Below `i` through `c`. */
  lemma WantedThrough(t: Table, i: Inode, c: Component, r: Path, ord: Order)
    requires TableInv(t) && Enumerates(ord) && Named(t.nodes, i, c)
    ensures var j := Target(t.nodes, i, c);
            && Walk(t.nodes, i, [c] + r) == Walk(t.nodes, j, r)
            && (Wanted(t, j, NamesOf(t, j, ord), r) <==> FileBelow(t, i, [c] + r))
  {
    assert ([c] + r)[1..] == r;
    assert AllNormal([c] + r) <==> AllNormal(r) by {
      assert forall k :: 0 <= k < |r| ==> ([c] + r)[k + 1] == r[k];
    }
    if r != [] && Walk(t.nodes, Target(t.nodes, i, c), r).Ok? {
      assert Lookup(t.nodes, Target(t.nodes, i, c), r[0]).Ok?;
    }
    hide TableInv;
  }

  lemma {:induction false} FileBelowSameTree(t: Table, u: Table, i: Inode, r: Path)
    requires SameTree(t, u)
    ensures FileBelow(u, i, r) <==> FileBelow(t, i, r)
    ensures Walk(u.nodes, i, r) == Walk(t.nodes, i, r)
  {
    WalkSameTree(t, u, i, r);
    if Walk(t.nodes, i, r).Ok? {
      WalkInNodes(t.nodes, i, r);
    }
    hide Walk;
  }

  lemma ListedElsewhere(t: Table, u: Table, i: Inode, path: Path, names: seq<Component>, p: Path)
    requires names != [] && Distinct(names) && DirAt(t.nodes, i) && SameTree(t, u)
    requires Listed(u, i, path, names[1..], p)
    ensures Listed(t, i, path, names, p) && |path| < |p| && p[|path|] != names[0]
  {
    var r := p[|path|..];
    FileBelowSameTree(t, u, i, r);
    assert r != [];
    assert r[0] in names && r[0] != names[0];
    hide SameTree;
  }

  /** Reading below the first name, then below the others: the listings add up. */
  lemma ExactSplit(t: Table, u: Table, i: Inode, path: Path, names: seq<Component>, ord: Order, a: Listing, b: Listing)
    requires TableInv(t) && Enumerates(ord) && names != [] && Distinct(names) && Named(t.nodes, i, names[0])
    requires SameTree(t, u)
    requires var j := Target(t.nodes, i, names[0]);
             Exact(t, j, path + [names[0]], NamesOf(t, j, ord), a)
    requires Exact(u, i, path, names[1..], b)
    ensures Exact(t, i, path, names, a + b)
  {
    var c := names[0];
    var l := a + b;
    forall k | 0 <= k < |a| ensures Listed(t, i, path, names, a[k].0) && |path| < |a[k].0| && a[k].0[|path|] == c {
    }
    forall k | 0 <= k < |b| ensures Listed(t, i, path, names, b[k].0) && |path| < |b[k].0| && b[k].0[|path|] != c {
      ListedElsewhere(t, u, i, path, names, b[k].0);
    }
    forall rest | Wanted(t, i, names, rest) ensures exists k :: 0 <= k < |l| && l[k].0 == path + rest {
      WantedSplit(t, u, i, path, names, ord, a, b, rest);
    }
    hide TableInv, Listed, SameTree, Enumerates, Walk, NamesOf, Wanted;
    forall m, k | 0 <= m < k < |l| ensures l[m].0 != l[k].0 {
      if m < |a| <= k {
        assert l[m].0[|path|] == c && l[k] == b[k - |a|];
      }
    }
  }

  /** A file that is wanted is in one of the two listings. */
  lemma WantedSplit(t: Table, u: Table, i: Inode, path: Path, names: seq<Component>, ord: Order, a: Listing, b: Listing,
                    rest: Path)
    requires TableInv(t) && Enumerates(ord) && names != [] && Named(t.nodes, i, names[0]) && SameTree(t, u)
    requires var j := Target(t.nodes, i, names[0]); Exact(t, j, path + [names[0]], NamesOf(t, j, ord), a)
    requires Exact(u, i, path, names[1..], b)
    requires Wanted(t, i, names, rest)
    ensures exists k :: 0 <= k < |a + b| && (a + b)[k].0 == path + rest
  {
    hide TableInv, Listed, Enumerates, NamesOf, SameTree;
    var c := names[0];
    if rest[0] == c {
      FirstApart(path, rest);
      WantedThrough(t, i, c, rest[1..], ord);
      var k :| 0 <= k < |a| && a[k].0 == path + [c] + rest[1..];
      InJoined(a, b, path + rest);
    } else {
      FileBelowSameTree(t, u, i, rest);
      assert Wanted(u, i, names[1..], rest);
      var k :| 0 <= k < |b| && b[k].0 == path + rest;
      InJoined(a, b, path + rest);
    }
  }

  lemma FirstApart(path: Path, rest: Path)
    requires rest != []
    ensures rest == [rest[0]] + rest[1..] && path + [rest[0]] + rest[1..] == path + rest
  {
  }

  lemma InJoined(a: Listing, b: Listing, p: Path)
    requires (exists k :: 0 <= k < |a| && a[k].0 == p) || (exists k :: 0 <= k < |b| && b[k].0 == p)
    ensures exists k :: 0 <= k < |a + b| && (a + b)[k].0 == p
  {
    if k :| 0 <= k < |a| && a[k].0 == p {
      assert (a + b)[k].0 == p;
    } else {
      var k :| 0 <= k < |b| && b[k].0 == p;
      assert (a + b)[|a| + k].0 == p;
    }
  }

  // ---------------------------------------------------------------------------
  // The bytes: those the route leads to when the file is read.
  // ---------------------------------------------------------------------------

  /** One of the first `n` listed files was read from inode `i`. */
  ghost predicate ReadFrom(t: Table, h: Handle, l: Listing, n: nat, i: Inode)
    requires n <= |l|
  {
    exists k :: 0 <= k < n && Route(t, h, l[k].0) == Ok(i)
  }

  /** A node that has been read: a service is cleared by the close. */
  function ReadOnce(e: InodeEntry): InodeEntry {
    if e.data.Service? then InodeEntry(e.stat.(fileSize := 0), Service([])) else e
  }

  /** Node `i` after the first `n` reads of the listing. */
  ghost function NodeAfter(t: Table, h: Handle, l: Listing, n: nat, i: Inode): InodeEntry
    requires n <= |l| && i in t.nodes
  {
    if ReadFrom(t, h, l, n, i) then ReadOnce(t.nodes[i]) else t.nodes[i]
  }

  /**
   * Each listed file carries the bytes at its route as the reads before it left them, and `u` is what all reads leave.
   */
  ghost predicate Carries(t: Table, u: Table, h: Handle, l: Listing) {
    && (forall i :: i in t.nodes ==> i in u.nodes && u.nodes[i] == NodeAfter(t, h, l, |l|, i))
    && (forall k :: 0 <= k < |l| ==> CarriesAt(t, h, l, k))
  }

  ghost predicate CarriesAt(t: Table, h: Handle, l: Listing, k: nat)
    requires k < |l|
  {
    var i := Route(t, h, l[k].0);
    i.Ok? && i.value in t.nodes && !DirAt(t.nodes, i.value)
        && NodeAfter(t, h, l, k, i.value).data == BytesLike(t.nodes[i.value].data, l[k].1)
  }

  function BytesLike(d: InodeData, b: seq<Byte>): InodeData
    requires !d.Directory?
  {
    d.(bytes := b)
  }

  lemma RouteSameTree(t: Table, u: Table, h: Handle, g: Handle, path: Path)
    requires SameTree(t, u) && g.fds == h.fds && g.prestat == h.prestat
    ensures Route(u, g, path) == Route(t, h, path)
  {
    hide SameTree, Walk;
    var f := FindPrestat(h, path);
    if f.Ok? && f.value.0 in h.fds {
      WalkSameTree(t, u, h.fds[f.value.0].inode, f.value.1);
    }
  }

  lemma ReadFromAppend(t: Table, u: Table, h: Handle, g: Handle, a: Listing, b: Listing, n: nat, i: Inode)
    requires SameTree(t, u) && g.fds == h.fds && g.prestat == h.prestat && n <= |b|
    ensures ReadFrom(t, h, a + b, |a| + n, i) <==> ReadFrom(t, h, a, |a|, i) || ReadFrom(u, g, b, n, i)
  {
    hide SameTree, Route;
    var l := a + b;
    forall k | 0 <= k < |l|
      ensures Route(t, h, l[k].0) == if k < |a| then Route(t, h, a[k].0) else Route(u, g, b[k - |a|].0)
    {
      if k >= |a| {
        RouteSameTree(t, u, h, g, l[k].0);
      }
    }
    if k :| 0 <= k < |a| && Route(t, h, a[k].0) == Ok(i) {
      assert Route(t, h, l[k].0) == Ok(i);
    }
    if k :| 0 <= k < n && Route(u, g, b[k].0) == Ok(i) {
      assert Route(t, h, l[|a| + k].0) == Ok(i);
    }
  }

  lemma ReadFromFirst(t: Table, h: Handle, a: Listing, b: Listing, n: nat, i: Inode)
    requires n <= |a|
    ensures ReadFrom(t, h, a + b, n, i) <==> ReadFrom(t, h, a, n, i)
  {
    hide Route;
    assert forall k :: 0 <= k < n ==> (a + b)[k] == a[k];
  }

  /** Reading one listing and then another. */
  lemma CarriesAppend(t: Table, u: Table, v: Table, h: Handle, g: Handle, a: Listing, b: Listing)
    requires SameTree(t, u) && g.fds == h.fds && g.prestat == h.prestat
    requires Carries(t, u, h, a) && Carries(u, v, g, b)
    ensures Carries(t, v, h, a + b)
  {
    hide SameTree, Route, CarriesAt;
    var l := a + b;
    forall i | i in t.nodes ensures i in v.nodes && v.nodes[i] == NodeAfter(t, h, l, |l|, i) {
      ReadFromAppend(t, u, h, g, a, b, |b|, i);
      hide ReadFrom;
      assert i in u.nodes && u.nodes[i] == NodeAfter(t, h, a, |a|, i);
    }
    forall k | 0 <= k < |l| ensures CarriesAt(t, h, l, k) {
      if k < |a| {
        EarlierCarries(t, h, a, b, k);
      } else {
        LaterCarries(t, u, h, g, a, b, k - |a|);
      }
    }
  }

  lemma EarlierCarries(t: Table, h: Handle, a: Listing, b: Listing, k: nat)
    requires k < |a| && CarriesAt(t, h, a, k)
    ensures CarriesAt(t, h, a + b, k)
  {
    hide Route, ReadFrom;
    assert (a + b)[k] == a[k];
    ReadFromFirst(t, h, a, b, k, Route(t, h, a[k].0).value);
  }

  lemma LaterCarries(t: Table, u: Table, h: Handle, g: Handle, a: Listing, b: Listing, k: nat)
    requires SameTree(t, u) && g.fds == h.fds && g.prestat == h.prestat && k < |b| && CarriesAt(u, g, b, k)
    requires forall i :: i in t.nodes ==> i in u.nodes && u.nodes[i] == NodeAfter(t, h, a, |a|, i)
    ensures CarriesAt(t, h, a + b, |a| + k)
  {
    var i := Route(u, g, b[k].0).value;
    RouteSameTree(t, u, h, g, b[k].0);
    ReadFromAppend(t, u, h, g, a, b, k, i);
    hide ReadFrom, Route;
    assert (a + b)[|a| + k] == b[k];
    assert i in t.nodes;
    assert u.nodes[i] == NodeAfter(t, h, a, |a|, i);
  }

  lemma CarriesNothing(t: Table, h: Handle)
    ensures Carries(t, t, h, [])
  {
  }

  lemma CarriesOne(t: Table, h: Handle, path: Path, i: Inode)
    requires Route(t, h, path) == Ok(i) && i in t.nodes && !DirAt(t.nodes, i)
    ensures Carries(t, Closed(t, i), h, [(path, t.nodes[i].data.bytes)])
  {
    hide Route;
    var l := [(path, t.nodes[i].data.bytes)];
    forall j | j in t.nodes ensures Closed(t, i).nodes[j] == NodeAfter(t, h, l, 1, j) {
      assert Route(t, h, l[0].0) == Ok(i);
    }
    assert CarriesAt(t, h, l, 0);
  }

  // ---------------------------------------------------------------------------
  // The recursion.
  // ---------------------------------------------------------------------------

  lemma ReadOneExact(t: Table, h: Handle, path: Path, ord: Order)
    requires Inv(State(t, h)) && Enumerates(ord)
    requires Resolve(t, path).Ok? && !DirAt(t.nodes, Resolve(t, path).value)
    requires ReadAll(t, h, path, ord).r.Ok?
    ensures var o := ReadAll(t, h, path, ord);
            Exact(t, Resolve(t, path).value, path, [], o.r.value) && Carries(t, o.t, h, o.r.value)
  {
    ReadFileRoute(State(t, h), path);
    var i := Route(t, h, path).value;
    var o := ReadAll(t, h, path, ord);
    assert o.r.value == [(path, t.nodes[i].data.bytes)] && o.t == Closed(t, i);
    hide ReadAll, ReadFile, TableInv, Route, HandleInv;
    WalkInNodes(t.nodes, ROOT, StripRoot(path));
    OneFile(t, Resolve(t, path).value, path, t.nodes[i].data.bytes);
    CarriesOne(t, h, path, i);
  }

  lemma OneFile(t: Table, i: Inode, path: Path, b: seq<Byte>)
    requires i in t.nodes && !DirAt(t.nodes, i)
    ensures Exact(t, i, path, [], [(path, b)])
  {
    assert Wanted(t, i, [], []);
    assert path[|path|..] == [];
    assert Listed(t, i, path, [], path);
    assert path + [] == path;
    forall rest | Wanted(t, i, [], rest) ensures [(path, b)][0].0 == path + rest {
    }
  }

  /** The tree walk, directory by directory. */
  lemma {:induction false} ReadAllExact(t: Table, h: Handle, path: Path, ord: Order)
    requires Inv(State(t, h)) && Enumerates(ord)
    requires ReadAll(t, h, path, ord).r.Ok?
    ensures var o := ReadAll(t, h, path, ord);
            && Resolve(t, path).Ok?
            && var i := Resolve(t, path).value;
               Exact(t, i, path, NamesOf(t, i, ord), o.r.value) && Carries(t, o.t, h, o.r.value)
    decreases Rank(t, path), 1, 0
  {
    var i := Resolve(t, path).value;
    if DirAt(t.nodes, i) {
      NodeAt(t, i);
      hide TableInv, HandleInv, Exact, Carries, Walk;
      ReadEntriesExact(t, h, path, i, ord(t.nodes[i].data.entries), ord);
    } else {
      hide TableInv, HandleInv, Exact, Carries, Walk;
      ReadOneExact(t, h, path, ord);
    }
  }

  lemma {:induction false} ReadEntriesExact(t: Table, h: Handle, path: Path, i: Inode, names: seq<Component>,
                                            ord: Order)
    requires Inv(State(t, h)) && Enumerates(ord)
    requires Resolve(t, path) == Ok(i) && DirAt(t.nodes, i)
    requires Distinct(names) && forall c :: c in names ==> c in t.nodes[i].data.entries
    requires ReadEntries(t, h, path, i, names, ord).r.Ok?
    ensures var o := ReadEntries(t, h, path, i, names, ord);
            Exact(t, i, path, names, o.r.value) && Carries(t, o.t, h, o.r.value)
    decreases Rank(t, path), 0, |names|
  {
    hide TableInv, NodeOk, Walk, HandleInv, Carries;
    var o := ReadEntries(t, h, path, i, names, ord);
    if names == [] {
      NothingWanted(t, i, path);
      CarriesNothing(t, h);
    } else if names[0] == CurDir || names[0] == ParentDir {
      ReadEntriesExact(t, h, path, i, names[1..], ord);
      DropDots(t, i, path, names, o.r.value);
    } else {
      hide Exact;
      var c := names[0];
      NamedEntry(t, i, c);
      ChildPath(t, path, i, c);
      ReadAllExact(t, h, path + [c], ord);
      var sub := ReadAll(t, h, path + [c], ord);
      WalkSameTree(t, sub.t, ROOT, StripRoot(path));
      ReadEntriesExact(sub.t, sub.h, path, i, names[1..], ord);
      var rest := ReadEntries(sub.t, sub.h, path, i, names[1..], ord);
      ExactSplit(t, sub.t, i, path, names, ord, sub.r.value, rest.r.value);
      CarriesAppend(t, sub.t, rest.t, h, sub.h, sub.r.value, rest.r.value);
    }
  }

  lemma NothingWanted(t: Table, i: Inode, path: Path)
    requires DirAt(t.nodes, i)
    ensures Exact(t, i, path, [], [])
  {
  }

  lemma NamedEntry(t: Table, i: Inode, c: Component)
    requires TableInv(t) && DirAt(t.nodes, i) && c in t.nodes[i].data.entries && c != CurDir && c != ParentDir
    ensures Named(t.nodes, i, c)
  {
    NodeAt(t, i);
    hide TableInv;
  }

  lemma DropDots(t: Table, i: Inode, path: Path, names: seq<Component>, l: Listing)
    requires names != [] && (names[0] == CurDir || names[0] == ParentDir)
    requires Exact(t, i, path, names[1..], l)
    ensures Exact(t, i, path, names, l)
  {
    assert forall rest :: Wanted(t, i, names, rest) <==> Wanted(t, i, names[1..], rest);
    forall k | 0 <= k < |l| ensures Listed(t, i, path, names, l[k].0) {
      assert Listed(t, i, path, names[1..], l[k].0);
    }
  }

  /** A file or service whose path continues `path` with plain names. */
  ghost predicate FileUnder(t: Table, path: Path, p: Path) {
    && path <= p && AllNormal(p[|path|..])
    && Resolve(t, p).Ok? && Resolve(t, p).value in t.nodes && !DirAt(t.nodes, Resolve(t, p).value)
  }

  /**
   * `read_all_files_by_absolute_path` terminates on every table that keeps the invariant, and when it succeeds it
   * returns exactly the paths of the files under the path, each once. A listed file carries the bytes of the file its
   * route leads to, as they were at the call, except that a service already read for an earlier path of the listing is
   * empty.
   */
  lemma ListsExactly(t: Table, h: Handle, path: Path, ord: Order)
    requires Inv(State(t, h)) && Enumerates(ord)
    requires ReadAll(t, h, path, ord).r.Ok?
    ensures var l := ReadAll(t, h, path, ord).r.value;
            && (forall p :: FileUnder(t, path, p) <==> exists k :: 0 <= k < |l| && l[k].0 == p)
            && (forall j, k :: 0 <= j < k < |l| ==> l[j].0 != l[k].0)
            && (forall k :: 0 <= k < |l| ==> FileUnder(t, path, l[k].0) && RoutedBytes(t, h, l, k))
  {
    hide ReadAll, TableInv, HandleInv, Enumerates, Exact, Carries, RoutedBytes, FileUnder;
    ReadAllExact(t, h, path, ord);
    var l := ReadAll(t, h, path, ord).r.value;
    ListedOnce(t, path, ord, l);
    forall k | 0 <= k < |l| ensures RoutedBytes(t, h, l, k) {
      CarriesRouted(t, ReadAll(t, h, path, ord).t, h, l, k);
    }
  }

  lemma CarriesRouted(t: Table, u: Table, h: Handle, l: Listing, k: nat)
    requires Carries(t, u, h, l) && k < |l|
    ensures RoutedBytes(t, h, l, k)
  {
    hide Route;
    assert CarriesAt(t, h, l, k);
  }

  /** The wanted files below what the path resolves to are the files under the path. */
  lemma ListedOnce(t: Table, path: Path, ord: Order, l: Listing)
    requires Resolve(t, path).Ok? && Enumerates(ord)
    requires Exact(t, Resolve(t, path).value, path, NamesOf(t, Resolve(t, path).value, ord), l)
    ensures forall p :: FileUnder(t, path, p) <==> exists k :: 0 <= k < |l| && l[k].0 == p
    ensures forall j, k :: 0 <= j < k < |l| ==> l[j].0 != l[k].0
    ensures forall k :: 0 <= k < |l| ==> FileUnder(t, path, l[k].0)
  {
    hide Enumerates, Wanted, NamesOf, Resolve, Walk;
    var i := Resolve(t, path).value;
    var names := NamesOf(t, i, ord);
    forall k | 0 <= k < |l| ensures FileUnder(t, path, l[k].0) {
      assert Listed(t, i, path, names, l[k].0);
      BelowIsUnder(t, path, l[k].0, ord);
    }
    forall p | FileUnder(t, path, p) ensures exists k :: 0 <= k < |l| && l[k].0 == p {
      BelowIsUnder(t, path, p, ord);
      assert p == path + p[|path|..];
    }
  }

  /** The bytes of a listed file. */
  ghost predicate RoutedBytes(t: Table, h: Handle, l: Listing, k: nat)
    requires k < |l|
  {
    var i := Route(t, h, l[k].0);
    && i.Ok? && i.value in t.nodes && !DirAt(t.nodes, i.value)
    && l[k].1 == if t.nodes[i.value].data.Service? && ReadFrom(t, h, l, k, i.value) then []
        else t.nodes[i.value].data.bytes
  }

  /**
   * So a listed file carries the bytes of the file at its path if its route and its path lead to the same inode; for
   * services, if that holds of every file of the listing, because no inode has two paths.
   */
  lemma ListsContents(t: Table, h: Handle, path: Path, ord: Order, k: nat)
    requires Inv(State(t, h)) && Enumerates(ord)
    requires ReadAll(t, h, path, ord).r.Ok? && k < |ReadAll(t, h, path, ord).r.value|
    requires var l := ReadAll(t, h, path, ord).r.value;
             && Route(t, h, l[k].0) == Resolve(t, l[k].0)
             && (ServiceAt(t, l[k].0) ==> forall j :: 0 <= j < k ==> Route(t, h, l[j].0) == Resolve(t, l[j].0))
    ensures var l := ReadAll(t, h, path, ord).r.value; l[k].1 == BytesAt(t, l[k].0)
  {
    hide ReadAll, Route, Exact, Carries, TableInv, HandleInv;
    ListsExactly(t, h, path, ord);
    ReadAllExact(t, h, path, ord);
    var l := ReadAll(t, h, path, ord).r.value;
    assert FileUnder(t, path, l[k].0) && RoutedBytes(t, h, l, k);
    hide FileUnder;
    var i := Resolve(t, l[k].0).value;
    if j :| 0 <= j < k && Route(t, h, l[j].0) == Ok(i) && t.nodes[i].data.Service? {
      assert FileUnder(t, path, l[j].0);
      SamePath(t, path, l[j].0, l[k].0);
    }
  }

  predicate ServiceAt(t: Table, p: Path) {
    Resolve(t, p).Ok? && Resolve(t, p).value in t.nodes && t.nodes[Resolve(t, p).value].data.Service?
  }

  // ---------------------------------------------------------------------------
  // The condition is exact.
  // ---------------------------------------------------------------------------

  lemma MayReadSameTree(t: Table, u: Table, h: Handle, path: Path)
    requires SameTree(t, u)
    ensures MayRead(u, h, path) <==> MayRead(t, h, path)
  {
    RouteSameTree(t, u, h, h, path);
    hide Route;
    if Route(t, h, path).Ok? {
      RouteEnds(t, h, path);
      RouteEnds(u, h, path);
    }
  }

  lemma RouteEnds(t: Table, h: Handle, path: Path)
    requires Route(t, h, path).Ok?
    ensures Route(t, h, path).value in t.nodes
  {
    hide Walk;
    var f := FindPrestat(h, path).value;
    WalkInNodes(t.nodes, h.fds[f.0].inode, f.1);
  }

  /** Whether a listing succeeds, and the descriptor numbers it uses up, do not depend on the bytes of the files. */
  lemma {:induction false} ReadAllAnyBytes(t: Table, u: Table, h: Handle, path: Path, ord: Order)
    requires Inv(State(t, h)) && Inv(State(u, h)) && SameTree(t, u) && Enumerates(ord)
    requires ReadAll(t, h, path, ord).r.Ok?
    ensures ReadAll(u, h, path, ord).r.Ok? && ReadAll(u, h, path, ord).h == ReadAll(t, h, path, ord).h
    decreases Rank(t, path), 1, 0
  {
    hide TableInv, HandleInv, Walk, ReadFile, Enumerates;
    WalkSameTree(t, u, ROOT, StripRoot(path));
    var i := Resolve(t, path).value;
    WalkInNodes(t.nodes, ROOT, StripRoot(path));
    if DirAt(t.nodes, i) {
      NamesOfEntries(t, i, ord);
      ReadEntriesAnyBytes(t, u, h, path, i, ord(t.nodes[i].data.entries), ord);
    } else {
      ReadFileAnyBytes(t, u, h, path);
    }
  }

  lemma NamesOfEntries(t: Table, i: Inode, ord: Order)
    requires Enumerates(ord) && DirAt(t.nodes, i)
    ensures forall c :: c in ord(t.nodes[i].data.entries) ==> c in t.nodes[i].data.entries
  {
  }

  lemma ReadFileAnyBytes(t: Table, u: Table, h: Handle, path: Path)
    requires Inv(State(t, h)) && Inv(State(u, h)) && SameTree(t, u) && ReadFile(t, h, path).r.Ok?
    ensures ReadFile(u, h, path).r.Ok? && ReadFile(u, h, path).h == ReadFile(t, h, path).h
  {
    hide TableInv, HandleInv, Walk, ReadFile, MayRead, SameTree;
    ReadFileSucceeds(State(t, h), path);
    ReadFileSucceeds(State(u, h), path);
    MayReadSameTree(t, u, h, path);
    ReadFileRoute(State(t, h), path);
    ReadFileRoute(State(u, h), path);
  }

  lemma SameTreeSym(t: Table, u: Table)
    requires SameTree(t, u)
    ensures SameTree(u, t)
  {
  }

  lemma EntriesSame(t: Table, u: Table, i: Inode)
    requires SameTree(t, u) && DirAt(t.nodes, i)
    ensures DirAt(u.nodes, i) && u.nodes[i] == t.nodes[i]
  {
  }

  /** One round of the loop over the names. */
  lemma EntriesStep(t: Table, h: Handle, path: Path, i: Inode, names: seq<Component>, ord: Order)
    requires Inv(State(t, h)) && Enumerates(ord)
    requires Resolve(t, path) == Ok(i) && DirAt(t.nodes, i)
    requires forall c :: c in names ==> c in t.nodes[i].data.entries
    ensures var o := ReadEntries(t, h, path, i, names, ord);
            if names == [] then o.h == h && o.r.Ok?
            else if names[0] == CurDir || names[0] == ParentDir then o == ReadEntries(t, h, path, i, names[1..], ord)
            else
              var sub := ReadAll(t, h, path + [names[0]], ord);
              && (sub.r.Ok? ==> Resolve(sub.t, path) == Ok(i) && DirAt(sub.t.nodes, i)
                                && sub.t.nodes[i] == t.nodes[i] && Inv(After(sub)))
              && (o.r.Ok? <==> sub.r.Ok? && ReadEntries(sub.t, sub.h, path, i, names[1..], ord).r.Ok?)
              && (o.r.Ok? ==> o.h == ReadEntries(sub.t, sub.h, path, i, names[1..], ord).h)
  {
    hide TableInv, HandleInv, Walk, ReadAll, Enumerates;
    if names != [] && names[0] != CurDir && names[0] != ParentDir {
      assert names[0] in t.nodes[i].data.entries;
      NamedEntry(t, i, names[0]);
      ChildPath(t, path, i, names[0]);
      WalkSameTree(t, ReadAll(t, h, path + [names[0]], ord).t, ROOT, StripRoot(path));
    }
  }

  lemma {:induction false} ReadEntriesAnyBytes(t: Table, u: Table, h: Handle, path: Path, i: Inode,
                                               names: seq<Component>, ord: Order)
    requires Inv(State(t, h)) && Inv(State(u, h)) && SameTree(t, u) && Enumerates(ord)
    requires Resolve(t, path) == Ok(i) && Resolve(u, path) == Ok(i) && DirAt(t.nodes, i)
    requires forall c :: c in names ==> c in t.nodes[i].data.entries
    requires ReadEntries(t, h, path, i, names, ord).r.Ok?
    ensures ReadEntries(u, h, path, i, names, ord).r.Ok?
    ensures ReadEntries(u, h, path, i, names, ord).h == ReadEntries(t, h, path, i, names, ord).h
    decreases Rank(t, path), 0, |names|
  {
    hide TableInv, NodeOk, HandleInv, Walk, ReadAll, Enumerates, Resolve, Rank, ReadEntries, SameTree;
    EntriesSame(t, u, i);
    EntriesStep(t, h, path, i, names, ord);
    EntriesStep(u, h, path, i, names, ord);
    if names != [] {
      if names[0] == CurDir || names[0] == ParentDir {
        ReadEntriesAnyBytes(t, u, h, path, i, names[1..], ord);
      } else {
        var c := names[0];
        NamedEntry(t, i, c);
        ChildPath(t, path, i, c);
        ReadAllAnyBytes(t, u, h, path + [c], ord);
        var a, b := ReadAll(t, h, path + [c], ord), ReadAll(u, h, path + [c], ord);
        SameTreeSym(t, a.t);
        SameTreeTrans(a.t, t, u);
        SameTreeTrans(a.t, u, b.t);
        RankSameTree(t, a.t, path);
        ReadEntriesAnyBytes(a.t, b.t, a.h, path, i, names[1..], ord);
      }
    }
  }

  /** A listing gives a path these bytes. */
  ghost predicate ListsAs(l: Listing, p: Path, b: seq<Byte>) {
    exists k :: 0 <= k < |l| && l[k] == (p, b)
  }

  /**
   * The exact condition for a regular file: the listing shows its bytes, whatever they are, if and only if the route of
   * the handle and the path lead to the same inode.
   */
  lemma ListsContentsExactly(t: Table, h: Handle, path: Path, ord: Order, p: Path)
    requires Inv(State(t, h)) && Enumerates(ord) && ReadAll(t, h, path, ord).r.Ok?
    requires FileUnder(t, path, p) && FileAt(t.nodes, Resolve(t, p).value)
    ensures Route(t, h, p) == Resolve(t, p) <==>
              forall b: seq<Byte> :: |b| < U63 ==> ShowsBytes(t, h, path, ord, p, b)
  {
    hide ReadAll, Route, TableInv, HandleInv, Resolve;
    if Route(t, h, p) == Resolve(t, p) {
      forall b: seq<Byte> | |b| < U63 ensures ShowsBytes(t, h, path, ord, p, b) {
        RightBytes(t, h, path, ord, p, b);
      }
    } else {
      var b := WrongBytes(t, h, path, ord, p);
    }
  }

  /** With other bytes `b` in the file at `p`, the listing succeeds and shows them. */
  ghost predicate ShowsBytes(t: Table, h: Handle, path: Path, ord: Order, p: Path, b: seq<Byte>)
    requires Enumerates(ord) && Resolve(t, p).Ok? && FileAt(t.nodes, Resolve(t, p).value) && |b| < U63
  {
    var u := SetBytes(t, Resolve(t, p).value, b);
    Inv(State(u, h)) && ReadAll(u, h, path, ord).r.Ok? && ListsAs(ReadAll(u, h, path, ord).r.value, p, b)
  }

  lemma OtherBytes(t: Table, h: Handle, path: Path, ord: Order, p: Path, b: seq<Byte>)
    requires Inv(State(t, h)) && Enumerates(ord) && ReadAll(t, h, path, ord).r.Ok?
    requires FileUnder(t, path, p) && FileAt(t.nodes, Resolve(t, p).value) && |b| < U63
    ensures var u := SetBytes(t, Resolve(t, p).value, b);
            && Inv(State(u, h)) && ReadAll(u, h, path, ord).r.Ok? && Route(u, h, p) == Route(t, h, p)
            && FileUnder(u, path, p) && Resolve(u, p) == Resolve(t, p)
  {
    hide ReadAll, Route, TableInv, Walk;
    var i := Resolve(t, p).value;
    SetBytesOnlyAt(t, i, b);
    var u := SetBytes(t, i, b);
    RouteSameTree(t, u, h, h, p);
    WalkSameTree(t, u, ROOT, StripRoot(p));
    ReadAllAnyBytes(t, u, h, path, ord);
  }

  lemma RightBytes(t: Table, h: Handle, path: Path, ord: Order, p: Path, b: seq<Byte>)
    requires Inv(State(t, h)) && Enumerates(ord) && ReadAll(t, h, path, ord).r.Ok?
    requires FileUnder(t, path, p) && FileAt(t.nodes, Resolve(t, p).value) && |b| < U63
    requires Route(t, h, p) == Resolve(t, p)
    ensures ShowsBytes(t, h, path, ord, p, b)
  {
    hide ReadAll, Route, TableInv, HandleInv, Resolve;
    OtherBytes(t, h, path, ord, p, b);
    var u := SetBytes(t, Resolve(t, p).value, b);
    ListsExactly(u, h, path, ord);
    var l := ReadAll(u, h, path, ord).r.value;
    var k :| 0 <= k < |l| && l[k].0 == p;
    assert RoutedBytes(u, h, l, k);
    assert l[k] == (p, b);
  }

  lemma WrongBytes(t: Table, h: Handle, path: Path, ord: Order, p: Path) returns (b: seq<Byte>)
    requires Inv(State(t, h)) && Enumerates(ord) && ReadAll(t, h, path, ord).r.Ok?
    requires FileUnder(t, path, p) && FileAt(t.nodes, Resolve(t, p).value)
    requires Route(t, h, p) != Resolve(t, p)
    ensures |b| < U63 && !ShowsBytes(t, h, path, ord, p, b)
  {
    hide ReadAll, Route, TableInv, HandleInv, Resolve;
    var i := Resolve(t, p).value;
    ListsExactly(t, h, path, ord);
    var l := ReadAll(t, h, path, ord).r.value;
    var k :| 0 <= k < |l| && l[k].0 == p;
    assert RoutedBytes(t, h, l, k);
    var j := Route(t, h, p).value;
    b := [if t.nodes[j].data.bytes == [0] then 1 else 0];
    OtherBytes(t, h, path, ord, p, b);
    var u := SetBytes(t, i, b);
    assert u.nodes[j] == t.nodes[j];
    ListsExactly(u, h, path, ord);
    var m := ReadAll(u, h, path, ord).r.value;
    forall n | 0 <= n < |m| ensures m[n] != (p, b) {
      if m[n].0 == p {
        assert RoutedBytes(u, h, m, n);
      }
    }
  }

  lemma SamePath(t: Table, path: Path, p: Path, q: Path)
    requires TableInv(t) && Resolve(t, path).Ok?
    requires FileUnder(t, path, p) && FileUnder(t, path, q) && Resolve(t, p) == Resolve(t, q)
    ensures p == q
  {
    hide TableInv, Walk, Resolve;
    UnderFrom(t, path, p);
    UnderFrom(t, path, q);
    WalkInNodes(t.nodes, ROOT, StripRoot(path));
    UniquePath(t, Resolve(t, path).value, p[|path|..], q[|path|..]);
    assert p == path + p[|path|..] && q == path + q[|path|..];
  }

  lemma UnderFrom(t: Table, path: Path, p: Path)
    requires Resolve(t, path).Ok? && path <= p && AllNormal(p[|path|..])
    ensures Walk(t.nodes, ROOT, StripRoot(path)) == Resolve(t, path)
    ensures Walk(t.nodes, Resolve(t, path).value, p[|path|..]) == Resolve(t, p)
  {
    hide Walk;
    var rest := p[|path|..];
    assert p == path + rest;
    assert StripRoot(p) == StripRoot(path) + rest;
    WalkAppend(t.nodes, ROOT, StripRoot(path), rest);
  }

  /** From the root, for handles whose pre-opened descriptors agree with it. */
  lemma ListsFromRoot(t: Table, h: Handle, path: Path, ord: Order, k: nat)
    requires Inv(State(t, h)) && Enumerates(ord) && Agrees(t, h)
    requires ReadAll(t, h, path, ord).r.Ok? && k < |ReadAll(t, h, path, ord).r.value|
    ensures var l := ReadAll(t, h, path, ord).r.value;
            FileUnder(t, path, l[k].0) && l[k].1 == BytesAt(t, l[k].0)
  {
    ListsExactly(t, h, path, ord);
    var l := ReadAll(t, h, path, ord).r.value;
    hide ReadAll;
    forall j | 0 <= j < |l| ensures Route(t, h, l[j].0) == Resolve(t, l[j].0) && FileUnder(t, path, l[j].0) {
      assert RoutedBytes(t, h, l, j);
      RouteIsResolve(State(t, h), l[j].0);
    }
    hide Agrees;
    ListsContents(t, h, path, ord, k);
  }

  lemma BelowIsUnder(t: Table, path: Path, p: Path, ord: Order)
    requires Resolve(t, path).Ok? && path <= p && Enumerates(ord)
    requires var i := Resolve(t, path).value;
             FileUnder(t, path, p) || Wanted(t, i, NamesOf(t, i, ord), p[|path|..])
    ensures var i := Resolve(t, path).value;
            FileUnder(t, path, p) && Wanted(t, i, NamesOf(t, i, ord), p[|path|..])
  {
    hide Walk;
    var i := Resolve(t, path).value;
    var rest := p[|path|..];
    StripBelow(path, p);
    WalkAppend(t.nodes, ROOT, StripRoot(path), rest);
    if rest != [] && Walk(t.nodes, i, rest).Ok? {
      FirstLookup(t.nodes, i, rest);
    }
  }

  /** A path below another one; a root can only be its first component. */
  lemma StripBelow(path: Path, p: Path)
    requires path <= p && AllNormal(p[|path|..])
    ensures StripRoot(p) == StripRoot(path) + p[|path|..]
  {
    assert p == path + p[|path|..];
    if path == [] {
      assert p == p[|path|..];
    }
  }

  lemma FirstLookup(m: Nodes, i: Inode, path: Path)
    requires path != [] && Walk(m, i, path).Ok?
    ensures Lookup(m, i, path[0]).Ok? && Walk(m, Lookup(m, i, path[0]).value, path[1..]) == Walk(m, i, path)
  {
  }
}
