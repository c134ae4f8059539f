/**
 * Directory entries, in pages (`read_dir` and `fd_readdir` in execution-engine/src/fs.rs), and their packing into the
 * linear memory of a program (`fd_readdir` in execution-engine/src/wasi/common.rs).
 */
module VfsReaddir {
  import opened Common
  import opened Endian
  import opened Paths
  import opened Policy
  import opened Inodes
  import opened Vfs
  import opened VfsSteps
  import opened VfsListing

  /** A `DirEnt` and the bytes of its name. `next` is the cookie of the entry after it. */
  datatype Dirent = Dirent(next: nat, inode: Inode, nameLen: nat, fileType: FileType, name: seq<Byte>)

  type Spelling = Component -> seq<Byte>

  // ---------------------------------------------------------------------------
  // Reading a directory.
  // ---------------------------------------------------------------------------

  function DirentAt(t: Table, es: map<Component, Inode>, c: Component, k: nat, spell: Spelling): Result<Dirent>
    requires c in es
  {
    if |spell(c)| >= U32 then Err(Inval)
    else if es[c] !in t.nodes then Err(NoEnt)
    else Ok(Dirent(k + 1, es[c], |spell(c)|, t.nodes[es[c]].stat.fileType, spell(c)))
  }

  /** The entries from index `k` on, or the first error. */
  function DirentsFrom(t: Table, es: map<Component, Inode>, names: seq<Component>, k: nat,
                       spell: Spelling): Result<seq<Dirent>>
    requires k <= |names| && forall c :: c in names ==> c in es
    decreases |names| - k
  {
    if k == |names| then Ok([]) else
    match DirentAt(t, es, names[k], k, spell)
    case Err(e) => Err(e)
    case Panic => Panic
    case Ok(d) =>
      match DirentsFrom(t, es, names, k + 1, spell)
      case Ok(ds) => Ok([d] + ds)
      case Err(e) => Err(e)
      case Panic => Panic
  }

  /** `read_dir`; `names` is the order in which the hash map is iterated. */
  method ReadDir(t: Table, i: Inode, names: seq<Component>, spell: Spelling) returns (r: Result<seq<Dirent>>)
    requires DirAt(t.nodes, i) ==> forall c :: c in names ==> c in t.nodes[i].data.entries
    ensures i !in t.nodes ==> r == Err(NoEnt)
    ensures i in t.nodes && !DirAt(t.nodes, i) ==> r == Err(NotDir)
    ensures DirAt(t.nodes, i) ==> r == DirentsFrom(t, t.nodes[i].data.entries, names, 0, spell)
  {
    if i !in t.nodes {
      return Err(NoEnt);
    }
    if !t.nodes[i].data.Directory? {
      return Err(NotDir);
    }
    var es := t.nodes[i].data.entries;
    var rst: seq<Dirent> := [];
    ghost var whole := DirentsFrom(t, es, names, 0, spell);
    PrependNone(whole);
    for k := 0 to |names|
      invariant whole == Prepend(rst, DirentsFrom(t, es, names, k, spell))
    {
      var d := DirentAt(t, es, names[k], k, spell);
      if !d.Ok? {
        return if d.Err? then Err(d.error) else Panic;
      }
      PrependOne(rst, d.value, DirentsFrom(t, es, names, k + 1, spell));
      rst := rst + [d.value];
    }
    assert rst + [] == rst;
    return Ok(rst);
  }

  ghost function Prepend(a: seq<Dirent>, r: Result<seq<Dirent>>): Result<seq<Dirent>> {
    match r
    case Ok(b) => Ok(a + b)
    case Err(e) => Err(e)
    case Panic => Panic
  }

  lemma PrependNone(r: Result<seq<Dirent>>)
    ensures Prepend([], r) == r
  {
    if r.Ok? {
      assert [] + r.value == r.value;
    }
  }

  lemma PrependOne(a: seq<Dirent>, d: Dirent, r: Result<seq<Dirent>>)
    ensures Prepend(a, Prepend([d], r)) == Prepend(a + [d], r)
  {
    if r.Ok? {
      assert a + ([d] + r.value) == a + [d] + r.value;
    }
  }

  /** In a well-formed table every directory lists, with one entry per name and each cookie one past its own index. */
  lemma {:induction false} DirentsOk(t: Table, es: map<Component, Inode>, names: seq<Component>, k: nat,
                                     spell: Spelling)
    requires k <= |names| && forall c :: c in names ==> c in es && es[c] in t.nodes && |spell(c)| < U32
    ensures var r := DirentsFrom(t, es, names, k, spell);
            r.Ok? && |r.value| == |names| - k
            && forall j :: k <= j < |names| ==> Ok(r.value[j - k]) == DirentAt(t, es, names[j], j, spell)
    decreases |names| - k
  {
    if k < |names| {
      DirentsOk(t, es, names, k + 1, spell);
    }
  }

  ghost function FdReaddir(t: Table, h: Handle, fd: Fd, cookie: nat, ord: Order, spell: Spelling): Result<seq<Dirent>>
    requires Enumerates(ord)
  {
    var c := CheckRight(h, fd, FD_READDIR);
    if !c.Ok? then Err(c.error) else
    var i := h.fds[fd].inode;
    if i !in t.nodes then Err(NoEnt)
    else if !t.nodes[i].data.Directory? then Err(NotDir)
    else
      var es := t.nodes[i].data.entries;
      match DirentsFrom(t, es, ord(es), 0, spell)
      case Ok(ds) => Ok(if |ds| < cookie then [] else ds[cookie..])
      case Err(e) => Err(e)
      case Panic => Panic
  }

  // ---------------------------------------------------------------------------
  // Pages.
  // ---------------------------------------------------------------------------

  /** A reader that takes up to `takes[n]` entries of its n-th call and goes on at the cookie of the last one taken. */
  ghost function Paged(t: Table, h: Handle, fd: Fd, cookie: nat, takes: seq<nat>, ord: Order,
                       spell: Spelling): seq<Dirent>
    requires Enumerates(ord)
    decreases |takes|
  {
    if takes == [] then [] else
    match FdReaddir(t, h, fd, cookie, ord, spell)
    case Err(_) => []
    case Panic => []
    case Ok(ds) =>
      var n := Min(takes[0], |ds|);
      if n == 0 then Paged(t, h, fd, cookie, takes[1..], ord, spell)
      else ds[..n] + Paged(t, h, fd, ds[n - 1].next, takes[1..], ord, spell)
  }

  function Sum(takes: seq<nat>): nat {
    if takes == [] then 0 else takes[0] + Sum(takes[1..])
  }

  /** The directory behind a descriptor that may be listed. */
  ghost predicate Lists(t: Table, h: Handle, fd: Fd, spell: Spelling) {
    && Inv(State(t, h)) && CheckRight(h, fd, FD_READDIR).Ok? && DirAt(t.nodes, h.fds[fd].inode)
    && forall c :: c in t.nodes[h.fds[fd].inode].data.entries ==> |spell(c)| < U32
  }

  /** Resuming at a cookie gives exactly the entries from that index on. */
  lemma ResumesAt(t: Table, h: Handle, fd: Fd, cookie: nat, ord: Order, spell: Spelling)
    requires Enumerates(ord) && Lists(t, h, fd, spell)
    ensures var names := ord(t.nodes[h.fds[fd].inode].data.entries);
            var r, all := FdReaddir(t, h, fd, cookie, ord, spell), FdReaddir(t, h, fd, 0, ord, spell);
            && r.Ok? && all.Ok? && |all.value| == |names|
            && r.value == (if cookie <= |names| then all.value[cookie..] else [])
            && forall k :: 0 <= k < |names| ==>
                Ok(all.value[k]) == DirentAt(t, t.nodes[h.fds[fd].inode].data.entries, names[k], k, spell)
  {
    var i := h.fds[fd].inode;
    var es := t.nodes[i].data.entries;
    var names := ord(es);
    forall c | c in names
      ensures c in es && es[c] in t.nodes && |spell(c)| < U32
    {
      assert c in ord(es);
      EntryExists(t, h, i, c);
    }
    DirentsOk(t, es, names, 0, spell);
    var ds := DirentsFrom(t, es, names, 0, spell).value;
    assert ds[0..] == ds;
  }

  lemma ResumeTail(t: Table, h: Handle, fd: Fd, cookie: nat, ord: Order, spell: Spelling)
    requires Enumerates(ord) && Lists(t, h, fd, spell)
    ensures var r, all := FdReaddir(t, h, fd, cookie, ord, spell), FdReaddir(t, h, fd, 0, ord, spell);
            && r.Ok? && all.Ok? && (cookie <= |all.value| ==> r.value == all.value[cookie..])
            && forall k :: 0 <= k < |all.value| ==> all.value[k].next == k + 1
  {
    hide FdReaddir, Enumerates;
    ResumesAt(t, h, fd, cookie, ord, spell);
  }

  lemma EntryExists(t: Table, h: Handle, i: Inode, c: Component)
    requires Inv(State(t, h)) && DirAt(t.nodes, i) && c in t.nodes[i].data.entries
    ensures t.nodes[i].data.entries[c] in t.nodes
  {
    assert NodeOk(t.nodes, i);
  }

  /** Up to `n` of the entries from index `k` on. */
  function Page<T>(all: seq<T>, k: nat, n: nat): (p: seq<T>)
    requires k <= |all|
    ensures |p| == Min(n, |all| - k)
  {
    all[k..k + Min(n, |all| - k)]
  }

  lemma PageNone<T>(all: seq<T>, k: nat)
    requires k <= |all|
    ensures Page(all, k, 0) == []
  {
  }

  lemma PageSplit<T>(all: seq<T>, k: nat, a: nat, b: nat)
    requires k <= |all|
    ensures Page(all, k, a + b) == Page(all, k, a) + Page(all, k + |Page(all, k, a)|, b)
  {
  }

  lemma PageOfTail<T>(all: seq<T>, k: nat, n: nat)
    requires k <= |all|
    ensures all[k..][..Min(n, |all| - k)] == Page(all, k, n)
    ensures 0 < n && k < |all| ==> all[k..][Min(n, |all| - k) - 1] == all[k + Min(n, |all| - k) - 1]
  {
  }

  /** One call: a page, and then the calls from the cookie after it. */
  lemma PagedStep(t: Table, h: Handle, fd: Fd, cookie: nat, takes: seq<nat>, ord: Order, spell: Spelling)
    requires Enumerates(ord) && Lists(t, h, fd, spell) && takes != []
    requires FdReaddir(t, h, fd, 0, ord, spell).Ok? && cookie <= |FdReaddir(t, h, fd, 0, ord, spell).value|
    ensures var all := FdReaddir(t, h, fd, 0, ord, spell).value;
            var p := Page(all, cookie, takes[0]);
            Paged(t, h, fd, cookie, takes, ord, spell) == p + Paged(t, h, fd, cookie + |p|, takes[1..], ord, spell)
  {
    hide FdReaddir, Enumerates, Lists, Page;
    ResumeTail(t, h, fd, cookie, ord, spell);
    PageOfTail(FdReaddir(t, h, fd, 0, ord, spell).value, cookie, takes[0]);
  }

  lemma PagedNone(t: Table, h: Handle, fd: Fd, cookie: nat, takes: seq<nat>, ord: Order, spell: Spelling)
    requires Enumerates(ord) && takes == []
    ensures Paged(t, h, fd, cookie, takes, ord, spell) == [] && Sum(takes) == 0
  {
  }

  lemma SumStep(takes: seq<nat>)
    requires takes != []
    ensures Sum(takes) == takes[0] + Sum(takes[1..])
  {
  }

  /**
   * Paging through an unmodified directory lists each entry once, in order, however many are taken at a time: after
   * takes that add up to `n`, exactly the first `n` entries after the cookie.
   */
  lemma {:induction false} PagingListsOnce(t: Table, h: Handle, fd: Fd, cookie: nat, takes: seq<nat>, ord: Order,
                                           spell: Spelling)
    requires Enumerates(ord) && Lists(t, h, fd, spell)
    requires FdReaddir(t, h, fd, 0, ord, spell).Ok? && cookie <= |FdReaddir(t, h, fd, 0, ord, spell).value|
    ensures var all := FdReaddir(t, h, fd, 0, ord, spell).value;
            Paged(t, h, fd, cookie, takes, ord, spell) == Page(all, cookie, Sum(takes))
    decreases |takes|
  {
    hide *;
    var all := FdReaddir(t, h, fd, 0, ord, spell).value;
    if takes == [] {
      PagedNone(t, h, fd, cookie, takes, ord, spell);
      PageNone(all, cookie);
    } else {
      SumStep(takes);
      PagedStep(t, h, fd, cookie, takes, ord, spell);
      PageSplit(all, cookie, takes[0], Sum(takes[1..]));
      MinAtMost(takes[0], |all| - cookie);
      PagingListsOnce(t, h, fd, cookie + |Page(all, cookie, takes[0])|, takes[1..], ord, spell);
    }
  }

  lemma MinAtMost(a: int, b: int)
    ensures Min(a, b) <= a && Min(a, b) <= b
  {
  }

  // ---------------------------------------------------------------------------
  // Packing.
  // ---------------------------------------------------------------------------

  /** The size of a `DirEnt` in memory. */
  const DIRENT_SIZE: nat := 24

  ghost predicate Layout(encode: Dirent -> seq<Byte>) {
    forall d :: |encode(d)| == DIRENT_SIZE
  }

  /** The fields written one after the other: an encoded `DirEnt` and a name for each entry. */
  function Fields(ds: seq<Dirent>, encode: Dirent -> seq<Byte>): seq<seq<Byte>> {
    if ds == [] then [] else [encode(ds[0]), ds[0].name] + Fields(ds[1..], encode)
  }

  /** `copy_from_slice` at `at`. */
  function Splice(mem: seq<Byte>, at: nat, b: seq<Byte>): (r: seq<Byte>)
    requires at + |b| <= |mem|
    ensures |r| == |mem|
  {
    mem[..at] + b + mem[at + |b|..]
  }

  /**
   * Writes field after field, while they fit, from `written` bytes on; sums of 2^32 and addresses past the end panic.
   */
  function Pack(mem: seq<Byte>, ptr: nat, written: nat, len: nat, fields: seq<seq<Byte>>): (r: (seq<Byte>, Result<nat>))
    ensures |r.0| == |mem|
    decreases |fields|
  {
    if fields == [] then (mem, Ok(written))
    else
      var n := |fields[0]|;
      if written + n >= U32 then (mem, Panic)
      else if written + n > len then (mem, Ok(len))
      else if ptr + n > |mem| then (mem, Panic)
      else
        var next := Splice(mem, ptr, fields[0]);
        if ptr + n >= U32 then (next, Panic) else Pack(next, ptr + n, written + n, len, fields[1..])
  }

  /** The whole call: the fields, and then their number of bytes at `resultPtr`. */
  function PackAll(mem: seq<Byte>, ptr: nat, len: nat, fields: seq<seq<Byte>>, resultPtr: nat)
    : (seq<Byte>, Result<()>)
  {
    var (packed, r) := Pack(mem, ptr, 0, len, fields);
    if !r.Ok? || resultPtr + 4 > |mem| then (packed, Panic)
    else (Splice(packed, resultPtr, LittleEndian(r.value, 4)), Ok(()))
  }

  method WriteBuffer(mem: array<Byte>, at: nat, b: seq<Byte>) returns (ok: bool)
    modifies mem
    ensures ok == (at + |b| <= mem.Length)
    ensures mem[..] == if ok then Splice(old(mem[..]), at, b) else old(mem[..])
  {
    if at + |b| > mem.Length {
      return false;
    }
    forall k | at <= k < at + |b| {
      mem[k] := b[k - at];
    }
    return true;
  }

  /** One field of the loop: `None` goes on, `Some` ends it. */
  method PackField(mem: array<Byte>, bufPtr: nat, written: nat, bufLen: nat, b: seq<Byte>, ghost rest: seq<seq<Byte>>)
    returns (stop: Option<Result<nat>>)
    modifies mem
    ensures var was := Pack(old(mem[..]), bufPtr, written, bufLen, [b] + rest);
            match stop
            case Some(r) => was == (mem[..], r)
            case None => was == Pack(mem[..], bufPtr + |b|, written + |b|, bufLen, rest)
  {
    assert ([b] + rest)[1..] == rest;
    if written + |b| >= U32 {
      return Some(Panic);
    }
    if written + |b| > bufLen {
      return Some(Ok(bufLen));
    }
    var ok := WriteBuffer(mem, bufPtr, b);
    if !ok || bufPtr + |b| >= U32 {
      return Some(Panic);
    }
    return None;
  }

  /** One round of the loop. */
  method PackEntry(mem: array<Byte>, bufPtr: nat, written: nat, bufLen: nat, d: Dirent, encode: Dirent -> seq<Byte>,
                   ghost rest: seq<seq<Byte>>)
    returns (stop: Option<Result<nat>>)
    requires Layout(encode)
    modifies mem
    ensures var was := Pack(old(mem[..]), bufPtr, written, bufLen, [encode(d)] + ([d.name] + rest));
            var n := DIRENT_SIZE + |d.name|;
            match stop
            case Some(r) => was == (mem[..], r)
            case None => was == Pack(mem[..], bufPtr + n, written + n, bufLen, rest)
  {
    hide Pack;
    stop := PackField(mem, bufPtr, written, bufLen, encode(d), [d.name] + rest);
    if stop.None? {
      stop := PackField(mem, bufPtr + DIRENT_SIZE, written + DIRENT_SIZE, bufLen, d.name, rest);
    }
  }

  /** The packing loop. */
  method PackDirents(mem: array<Byte>, bufPtr: nat, bufLen: nat, ds: seq<Dirent>, encode: Dirent -> seq<Byte>)
    returns (r: Result<nat>)
    requires Layout(encode)
    modifies mem
    ensures (mem[..], r) == Pack(old(mem[..]), bufPtr, 0, bufLen, Fields(ds, encode))
  {
    hide Pack, Fields, Layout;
    var ptr: nat, written: nat := bufPtr, 0;
    ghost var whole := Pack(mem[..], bufPtr, 0, bufLen, Fields(ds, encode));
    assert ds[0..] == ds;
    for k := 0 to |ds|
      invariant whole == Pack(mem[..], ptr, written, bufLen, Fields(ds[k..], encode))
    {
      ghost var rest := Fields(ds[k + 1..], encode);
      FieldsStep(ds, k, encode);
      var stop := PackEntry(mem, ptr, written, bufLen, ds[k], encode, rest);
      if stop.Some? {
        return stop.value;
      }
      ptr, written := ptr + DIRENT_SIZE + |ds[k].name|, written + DIRENT_SIZE + |ds[k].name|;
    }
    PackNone(mem[..], ptr, written, bufLen, ds[|ds|..], encode);
    return Ok(written);
  }

  lemma PackNone(mem: seq<Byte>, ptr: nat, written: nat, len: nat, ds: seq<Dirent>, encode: Dirent -> seq<Byte>)
    requires ds == []
    ensures Pack(mem, ptr, written, len, Fields(ds, encode)) == (mem, Ok(written))
  {
  }

  lemma FieldsStep(ds: seq<Dirent>, k: nat, encode: Dirent -> seq<Byte>)
    requires k < |ds|
    ensures Fields(ds[k..], encode) == [encode(ds[k])] + ([ds[k].name] + Fields(ds[k + 1..], encode))
  {
    assert ds[k..][1..] == ds[k + 1..];
  }

  /** The wrapper's memory effect, given the entries the file system returned. */
  method ReaddirInto(mem: array<Byte>, bufPtr: nat, bufLen: nat, ds: seq<Dirent>, encode: Dirent -> seq<Byte>,
                     resultPtr: nat)
    returns (r: Result<()>)
    requires Layout(encode)
    modifies mem
    ensures (mem[..], r) == PackAll(old(mem[..]), bufPtr, bufLen, Fields(ds, encode), resultPtr)
  {
    hide Fields, Pack;
    var written := PackDirents(mem, bufPtr, bufLen, ds, encode);
    if !written.Ok? {
      return Panic;
    }
    var ok := WriteBuffer(mem, resultPtr, LittleEndian(written.value, 4));
    return if ok then Ok(()) else Panic;
  }

  /** Whatever the outcome, no byte outside the caller's buffer changes. */
  lemma {:induction false} PackInside(mem: seq<Byte>, ptr: nat, written: nat, len: nat, fields: seq<seq<Byte>>, i: nat)
    requires written <= len && i < |mem| && !(ptr <= i < ptr + (len - written))
    ensures Pack(mem, ptr, written, len, fields).0[i] == mem[i]
    decreases |fields|
  {
    if fields != [] {
      var n := |fields[0]|;
      if written + n <= len && written + n < U32 && ptr + n <= |mem| && ptr + n < U32 {
        PackInside(Splice(mem, ptr, fields[0]), ptr + n, written + n, len, fields[1..], i);
      }
    }
  }

  /** As many leading fields as fit whole. */
  function Fitting(fields: seq<seq<Byte>>, room: nat): (k: nat)
    ensures k <= |fields|
  {
    if fields == [] || |fields[0]| > room then 0 else 1 + Fitting(fields[1..], room - |fields[0]|)
  }

  /** `Fitting` is the longest prefix of whole fields within the room. */
  lemma {:induction false} FittingIsLongest(fields: seq<seq<Byte>>, room: nat)
    ensures var k := Fitting(fields, room);
            |Flatten(fields[..k])| <= room && (k < |fields| ==> |Flatten(fields[..k + 1])| > room)
  {
    if fields != [] {
      var k := Fitting(fields, room);
      if |fields[0]| <= room {
        FittingIsLongest(fields[1..], room - |fields[0]|);
        assert fields[..k][1..] == fields[1..][..k - 1];
        if k < |fields| {
          assert fields[..k + 1][1..] == fields[1..][..k];
        }
      } else {
        assert fields[..1][1..] == [];
      }
    }
  }

  lemma SpliceAdjacent(mem: seq<Byte>, at: nat, a: seq<Byte>, b: seq<Byte>)
    requires at + |a| + |b| <= |mem|
    ensures Splice(Splice(mem, at, a), at + |a|, b) == Splice(mem, at, a + b)
  {
  }

  /**
   * A successful packing puts the longest prefix of whole fields that fits at the start of the buffer, leaves the rest
   * of memory as it was, and reports the smaller of the total length and the size of the buffer.
   */
  lemma {:induction false} PackIsPrefix(mem: seq<Byte>, ptr: nat, written: nat, len: nat, fields: seq<seq<Byte>>)
    requires written <= len && Pack(mem, ptr, written, len, fields).1.Ok?
    ensures var packed := Flatten(fields[..Fitting(fields, len - written)]);
            && ptr + |packed| <= |mem| + (if packed == [] then ptr else 0)
            && Pack(mem, ptr, written, len, fields).0 == (if packed == [] then mem else Splice(mem, ptr, packed))
            && Pack(mem, ptr, written, len, fields).1 == Ok(Min(written + |Flatten(fields)|, len))
    decreases |fields|
  {
    hide Splice;
    if fields != [] {
      var n, room := |fields[0]|, len - written;
      if n <= room {
        PackStep(mem, ptr, written, len, fields);
        var k := Fitting(fields, room);
        var next, rest := Splice(mem, ptr, fields[0]), Flatten(fields[1..][..k - 1]);
        hide Pack, Fitting;
        PackIsPrefix(next, ptr + n, written + n, len, fields[1..]);
        SplicePacked(mem, ptr, fields[0], rest);
      }
    }
  }

  /** The step a fitting first field makes. */
  lemma PackStep(mem: seq<Byte>, ptr: nat, written: nat, len: nat, fields: seq<seq<Byte>>)
    requires fields != [] && written + |fields[0]| <= len && Pack(mem, ptr, written, len, fields).1.Ok?
    ensures ptr + |fields[0]| <= |mem|
    ensures Pack(mem, ptr, written, len, fields)
         == Pack(Splice(mem, ptr, fields[0]), ptr + |fields[0]|, written + |fields[0]|, len, fields[1..])
    ensures var k := Fitting(fields, len - written);
            && k == 1 + Fitting(fields[1..], len - written - |fields[0]|)
            && Flatten(fields[..k]) == fields[0] + Flatten(fields[1..][..k - 1])
  {
    hide Splice;
    var k := Fitting(fields, len - written);
    assert fields[..k][1..] == fields[1..][..k - 1];
  }

  lemma SplicePacked(mem: seq<Byte>, ptr: nat, a: seq<Byte>, b: seq<Byte>)
    requires ptr + |a| <= |mem| && (b == [] || ptr + |a| + |b| <= |mem|)
    ensures (if b == [] then Splice(mem, ptr, a) else Splice(Splice(mem, ptr, a), ptr + |a|, b))
         == (if a + b == [] then mem else Splice(mem, ptr, a + b))
  {
    if b == [] {
      assert a + b == a;
      assert a == [] ==> Splice(mem, ptr, a) == mem;
    } else {
      SpliceAdjacent(mem, ptr, a, b);
    }
  }

  /** It does succeed when the buffer lies in memory and no sum can reach 2^32. */
  lemma {:induction false} PackSucceeds(mem: seq<Byte>, ptr: nat, written: nat, len: nat, fields: seq<seq<Byte>>)
    requires written <= len && ptr + (len - written) <= |mem| && ptr + (len - written) < U32
    requires forall k :: 0 <= k < |fields| ==> len + |fields[k]| < U32
    ensures Pack(mem, ptr, written, len, fields).1.Ok?
    decreases |fields|
  {
    if fields != [] {
      var n := |fields[0]|;
      if written + n <= len {
        PackSucceeds(Splice(mem, ptr, fields[0]), ptr + n, written + n, len, fields[1..]);
      }
    }
  }

  /** The length the caller reads back at `resultPtr` is the smaller of the total length and the size of the buffer. */
  lemma ReportsLength(mem: seq<Byte>, ptr: nat, len: nat, fields: seq<seq<Byte>>, resultPtr: nat)
    requires len < U32 && PackAll(mem, ptr, len, fields, resultPtr).1.Ok?
    ensures resultPtr + 4 <= |mem|
    ensures FromLittleEndian(PackAll(mem, ptr, len, fields, resultPtr).0[resultPtr..resultPtr + 4]) ==
              Min(|Flatten(fields)|, len)
  {
    var (packed, r) := Pack(mem, ptr, 0, len, fields);
    PackIsPrefix(mem, ptr, 0, len, fields);
    hide Pack, Fitting, LittleEndian, FromLittleEndian;
    assert Pow256(4) == U32;
    LittleEndianRoundTrip(r.value, 4);
    var written := LittleEndian(r.value, 4);
    assert Splice(packed, resultPtr, written)[resultPtr..resultPtr + 4] == written;
  }
}
