/**
 * A program that pages through a directory by way of its memory: what it reads back from the buffer of each call, and
 * what it has seen at the end.
 */
module VfsPages {
  import opened Common
  import opened Endian
  import opened Paths
  import opened Inodes
  import opened Vfs
  import opened VfsListing
  import opened VfsReaddir

  // ---------------------------------------------------------------------------
  // Reading the buffer.
  // ---------------------------------------------------------------------------

  /** The values the fields of a `DirEnt` can hold. */
  predicate InRange(d: Dirent) {
    d.next < U64 && d.inode < U64 && d.nameLen < U32 && d.nameLen == |d.name|
  }

  /** The program reads the layout that is written. */
  ghost predicate Reads(encode: Dirent -> seq<Byte>, decode: seq<Byte> -> Dirent) {
    Layout(encode) && forall d :: InRange(d) ==> decode(encode(d)) == d.(name := [])
  }

  function KindCode(k: FileType): Byte {
    match k
    case Unknown => 0
    case DirectoryType => 3
    case RegularFile => 4
  }

  function KindOf(b: Byte): FileType {
    if b == 3 then DirectoryType else if b == 4 then RegularFile else Unknown
  }

  /** The `dirent` of WASI preview 1: cookie, inode, length of the name and kind, and three bytes of padding. */
  function EncodeDirent(d: Dirent): seq<Byte> {
    LittleEndian(d.next, 8) + LittleEndian(d.inode, 8) + LittleEndian(d.nameLen, 4) + [KindCode(d.fileType), 0, 0, 0]
  }

  function DecodeDirent(b: seq<Byte>): Dirent {
    if |b| != DIRENT_SIZE then Dirent(0, 0, 0, Unknown, []) else
    Dirent(FromLittleEndian(b[..8]), FromLittleEndian(b[8..16]), FromLittleEndian(b[16..20]), KindOf(b[20]), [])
  }

  lemma DirentRoundTrip(d: Dirent)
    requires InRange(d)
    ensures DecodeDirent(EncodeDirent(d)) == d.(name := [])
  {
    assert Pow256(8) == U64 && Pow256(4) == U32;
    LittleEndianRoundTrip(d.next, 8);
    LittleEndianRoundTrip(d.inode, 8);
    LittleEndianRoundTrip(d.nameLen, 4);
    hide LittleEndian, FromLittleEndian;
    FourParts(LittleEndian(d.next, 8), LittleEndian(d.inode, 8), LittleEndian(d.nameLen, 4),
              [KindCode(d.fileType), 0, 0, 0]);
  }

  lemma FourParts(a: seq<Byte>, b: seq<Byte>, c: seq<Byte>, d: seq<Byte>)
    requires d != []
    ensures var i, j, k, s := |a|, |a| + |b|, |a| + |b| + |c|, a + b + c + d;
            s[..i] == a && s[i..j] == b && s[j..k] == c && s[k] == d[0]
  {
  }

  /** That layout can be read back, so there is one to which the theorems below apply. */
  lemma LayoutReads()
    ensures Reads(EncodeDirent, DecodeDirent)
  {
    hide EncodeDirent, DecodeDirent, InRange;
    forall d: Dirent
      ensures |EncodeDirent(d)| == DIRENT_SIZE && (InRange(d) ==> DecodeDirent(EncodeDirent(d)) == d.(name := []))
    {
      EncodedSize(d);
      if InRange(d) {
        DirentRoundTrip(d);
      }
    }
  }

  lemma EncodedSize(d: Dirent)
    ensures |EncodeDirent(d)| == DIRENT_SIZE
  {
  }

  /** The whole entries at the start of the buffer, up to the first one that is cut off. */
  function Parse(b: seq<Byte>, decode: seq<Byte> -> Dirent): seq<Dirent>
    decreases |b|
  {
    if |b| < DIRENT_SIZE then [] else
    var d := decode(b[..DIRENT_SIZE]);
    var n := DIRENT_SIZE + d.nameLen;
    if n > |b| then [] else [d.(name := b[DIRENT_SIZE..n])] + Parse(b[n..], decode)
  }

  function Size(d: Dirent): nat {
    DIRENT_SIZE + |d.name|
  }

  /** As many leading entries as fit whole. */
  function Whole(ds: seq<Dirent>, room: nat): (k: nat)
    ensures k <= |ds|
  {
    if ds == [] || Size(ds[0]) > room then 0 else 1 + Whole(ds[1..], room - Size(ds[0]))
  }

  /** What a successful packing leaves in the buffer: the fields that fit, and then whatever was there. */
  ghost predicate Holds(b: seq<Byte>, fields: seq<seq<Byte>>, room: nat) {
    |b| == Min(|Flatten(fields)|, room) && Flatten(fields[..Fitting(fields, room)]) <= b
  }

  /** The first entry fits whole. */
  lemma HoldsEntry(b: seq<Byte>, e: seq<Byte>, name: seq<Byte>, rest: seq<seq<Byte>>, room: nat)
    requires Holds(b, [e, name] + rest, room) && |e| + |name| <= room
    ensures |e| + |name| <= |b| && b[..|e|] == e && b[|e|..|e| + |name|] == name
    ensures Holds(b[|e| + |name|..], rest, room - |e| - |name|)
  {
    var n, k := |e| + |name|, Fitting(rest, room - |e| - |name|);
    FittingTwo(e, name, rest, room);
    FlattenTwo(e, name, rest);
    FlattenTwo(e, name, rest[..k]);
    assert ([e, name] + rest)[..k + 2] == [e, name] + rest[..k];
    hide Fitting, Flatten;
    PrefixParts(e, name, Flatten(rest[..k]), b);
  }

  lemma PrefixParts(e: seq<Byte>, name: seq<Byte>, rest: seq<Byte>, b: seq<Byte>)
    requires e + name + rest <= b
    ensures |e| + |name| <= |b| && b[..|e|] == e && b[|e|..|e| + |name|] == name && rest <= b[|e| + |name|..]
  {
    var n := |e| + |name|;
    var p := e + name + rest;
    assert b[..|p|] == p;
    assert b[..|e|] == p[..|e|] && b[|e|..n] == p[|e|..n] && b[n..|p|] == p[n..];
    assert b[n..][..|rest|] == b[n..|p|];
  }

  lemma FlattenTwo(e: seq<Byte>, name: seq<Byte>, rest: seq<seq<Byte>>)
    ensures Flatten([e, name] + rest) == e + name + Flatten(rest)
  {
    assert ([e, name] + rest)[1..] == [name] + rest && ([name] + rest)[1..] == rest;
    assert Flatten([name] + rest) == name + Flatten(rest);
  }

  lemma FittingTwo(e: seq<Byte>, name: seq<Byte>, rest: seq<seq<Byte>>, room: nat)
    ensures Fitting([e, name] + rest, room) ==
              if |e| > room then 0 else if |e| + |name| > room then 1
              else 2 + Fitting(rest, room - |e| - |name|)
  {
    assert ([e, name] + rest)[1..] == [name] + rest && ([name] + rest)[1..] == rest;
    if |e| <= room {
      assert Fitting([e, name] + rest, room) == 1 + Fitting([name] + rest, room - |e|);
    }
  }

  /** The first entry is cut off: its header may be there, its name is not. */
  lemma HoldsCut(b: seq<Byte>, e: seq<Byte>, name: seq<Byte>, rest: seq<seq<Byte>>, room: nat)
    requires Holds(b, [e, name] + rest, room) && |e| + |name| > room
    ensures |b| == room && (|e| <= room ==> b[..|e|] == e)
  {
    FittingTwo(e, name, rest, room);
    FlattenTwo(e, name, rest);
    if |e| <= room {
      assert ([e, name] + rest)[..1] == [e];
      FlattenSingle(e);
    }
    hide Fitting, Flatten;
  }

  /** The program reads back exactly the entries that fit whole, and never a stale byte. */
  lemma {:induction false} ParseSees(b: seq<Byte>, ds: seq<Dirent>, room: nat, encode: Dirent -> seq<Byte>,
                                     decode: seq<Byte> -> Dirent)
    requires Reads(encode, decode) && AllInRange(ds)
    requires Holds(b, Fields(ds, encode), room)
    ensures Parse(b, decode) == ds[..Whole(ds, room)]
    decreases |ds|
  {
    hide *;
    if ds == [] {
      ParseNothing(b, encode, room, decode);
    } else {
      var d, e := ds[0], encode(ds[0]);
      ReadsLayout(encode, decode, d);
      FirstInRange(ds);
      FieldsFirst(ds, encode);
      WholeStep(ds, room);
      var rest := Fields(ds[1..], encode);
      if Size(d) <= room {
        HoldsEntry(b, e, d.name, rest, room);
        ParseEntry(b, d, encode, decode);
        ParseSees(b[Size(d)..], ds[1..], room - Size(d), encode, decode);
      } else {
        HoldsCut(b, e, d.name, rest, room);
        ParseCut(b, d, room, encode, decode);
      }
    }
  }

  ghost predicate AllInRange(ds: seq<Dirent>) {
    forall k :: 0 <= k < |ds| ==> InRange(ds[k])
  }

  lemma FirstInRange(ds: seq<Dirent>)
    requires ds != [] && AllInRange(ds)
    ensures InRange(ds[0]) && AllInRange(ds[1..])
  {
  }

  lemma ReadsLayout(encode: Dirent -> seq<Byte>, decode: seq<Byte> -> Dirent, d: Dirent)
    requires Reads(encode, decode)
    ensures Layout(encode) && |encode(d)| == DIRENT_SIZE && Size(d) == |encode(d)| + |d.name|
  {
  }

  lemma WholeStep(ds: seq<Dirent>, room: nat)
    requires ds != []
    ensures ds[..Whole(ds, room)] ==
              if Size(ds[0]) > room then [] else [ds[0]] + ds[1..][..Whole(ds[1..], room - Size(ds[0]))]
  {
  }

  lemma FieldsFirst(ds: seq<Dirent>, encode: Dirent -> seq<Byte>)
    requires ds != []
    ensures Fields(ds, encode) == [encode(ds[0]), ds[0].name] + Fields(ds[1..], encode)
  {
  }

  lemma ParseNothing(b: seq<Byte>, encode: Dirent -> seq<Byte>, room: nat, decode: seq<Byte> -> Dirent)
    requires Holds(b, Fields([], encode), room)
    ensures Parse(b, decode) == [] && Whole([], room) == 0
  {
    assert Fields([], encode) == [];
  }

  lemma ParseEntry(b: seq<Byte>, d: Dirent, encode: Dirent -> seq<Byte>, decode: seq<Byte> -> Dirent)
    requires Reads(encode, decode) && InRange(d) && Size(d) <= |b|
    requires b[..DIRENT_SIZE] == encode(d) && b[DIRENT_SIZE..Size(d)] == d.name
    ensures Parse(b, decode) == [d] + Parse(b[Size(d)..], decode)
  {
  }

  lemma ParseCut(b: seq<Byte>, d: Dirent, room: nat, encode: Dirent -> seq<Byte>, decode: seq<Byte> -> Dirent)
    requires Reads(encode, decode) && InRange(d) && |b| == room < Size(d)
    requires DIRENT_SIZE <= room ==> b[..DIRENT_SIZE] == encode(d)
    ensures Parse(b, decode) == []
  {
  }

  // ---------------------------------------------------------------------------
  // One call.
  // ---------------------------------------------------------------------------

  /** The addresses a program passes to `fd_readdir`. */
  datatype Buffer = Buffer(ptr: nat, len: nat, resultPtr: nat)

  /** Buffer and result lie in the memory and apart. */
  predicate Apart(mem: seq<Byte>, b: Buffer) {
    && b.ptr + b.len <= |mem| && b.ptr + b.len < U32 && b.resultPtr + 4 <= |mem|
    && (b.resultPtr + 4 <= b.ptr || b.ptr + b.len <= b.resultPtr)
  }

  /** What the program finds after a call: the entries in as much of the buffer as it is told is used. */
  function Seen(mem: seq<Byte>, b: Buffer, decode: seq<Byte> -> Dirent): seq<Dirent>
    requires b.resultPtr + 4 <= |mem|
  {
    var n := FromLittleEndian(mem[b.resultPtr..b.resultPtr + 4]);
    if b.ptr + n <= |mem| then Parse(mem[b.ptr..b.ptr + n], decode) else []
  }

  /** No sum of the packing reaches 2^32. */
  predicate Summable(ds: seq<Dirent>, len: nat) {
    len + DIRENT_SIZE < U32 && forall k :: 0 <= k < |ds| ==> len + |ds[k].name| < U32
  }

  lemma {:induction false} FieldSizes(ds: seq<Dirent>, encode: Dirent -> seq<Byte>, len: nat)
    requires Layout(encode) && Summable(ds, len)
    ensures forall k :: 0 <= k < |Fields(ds, encode)| ==> len + |Fields(ds, encode)[k]| < U32
  {
    if ds != [] {
      assert Summable(ds[1..], len);
      FieldSizes(ds[1..], encode, len);
    }
  }

  /** A call succeeds and reports how much of the buffer is used. */
  lemma CallSucceeds(mem: seq<Byte>, b: Buffer, ds: seq<Dirent>, encode: Dirent -> seq<Byte>)
    requires Layout(encode) && Apart(mem, b) && Summable(ds, b.len)
    ensures var fields := Fields(ds, encode);
            var (m, r) := PackAll(mem, b.ptr, b.len, fields, b.resultPtr);
            && Pack(mem, b.ptr, 0, b.len, fields).1.Ok? && r.Ok? && |m| == |mem|
            && FromLittleEndian(m[b.resultPtr..b.resultPtr + 4]) == Min(|Flatten(fields)|, b.len)
  {
    hide Fields, Pack, Flatten, FromLittleEndian, Splice;
    FieldSizes(ds, encode, b.len);
    PackSucceeds(mem, b.ptr, 0, b.len, Fields(ds, encode));
    ReportsLength(mem, b.ptr, b.len, Fields(ds, encode), b.resultPtr);
  }

  lemma SpliceElsewhere(mem: seq<Byte>, at: nat, b: seq<Byte>, from: nat, n: nat)
    requires at + |b| <= |mem| && from + n <= |mem| && (at + |b| <= from || from + n <= at)
    ensures Splice(mem, at, b)[from..from + n] == mem[from..from + n]
  {
  }

  /** Writing the count leaves the buffer alone. */
  lemma CallLeaves(mem: seq<Byte>, b: Buffer, fields: seq<seq<Byte>>)
    requires Apart(mem, b) && PackAll(mem, b.ptr, b.len, fields, b.resultPtr).1.Ok?
    ensures Pack(mem, b.ptr, 0, b.len, fields).1.Ok? && |PackAll(mem, b.ptr, b.len, fields, b.resultPtr).0| == |mem|
    ensures var n := Min(|Flatten(fields)|, b.len);
            PackAll(mem, b.ptr, b.len, fields, b.resultPtr).0[b.ptr..b.ptr + n] ==
              Pack(mem, b.ptr, 0, b.len, fields).0[b.ptr..b.ptr + n]
  {
    hide Pack, Flatten, Splice, LittleEndian;
    var (packed, r) := Pack(mem, b.ptr, 0, b.len, fields);
    SpliceElsewhere(packed, b.resultPtr, LittleEndian(r.value, 4), b.ptr, Min(|Flatten(fields)|, b.len));
  }

  /** A call succeeds, and the program then sees exactly the entries that fit whole. */
  lemma CallSees(mem: seq<Byte>, b: Buffer, ds: seq<Dirent>, encode: Dirent -> seq<Byte>, decode: seq<Byte> -> Dirent)
    requires Reads(encode, decode) && Apart(mem, b) && Summable(ds, b.len) && AllInRange(ds)
    ensures var (m, r) := PackAll(mem, b.ptr, b.len, Fields(ds, encode), b.resultPtr);
            && r.Ok? && |m| == |mem| && b.resultPtr + 4 <= |m| && Seen(m, b, decode) == ds[..Whole(ds, b.len)]
  {
    hide Fields, Pack, PackAll, Parse, Whole, Flatten, Fitting, Holds, Reads, FromLittleEndian, AllInRange, Layout;
    var fields := Fields(ds, encode);
    ReadsEncoded(encode, decode);
    CallSucceeds(mem, b, ds, encode);
    CallLeaves(mem, b, fields);
    BufferHolds(mem, b, fields);
    var m := PackAll(mem, b.ptr, b.len, fields, b.resultPtr).0;
    ParseSees(m[b.ptr..b.ptr + Min(|Flatten(fields)|, b.len)], ds, b.len, encode, decode);
  }

  lemma ReadsEncoded(encode: Dirent -> seq<Byte>, decode: seq<Byte> -> Dirent)
    requires Reads(encode, decode)
    ensures Layout(encode)
  {
  }

  lemma BufferHolds(mem: seq<Byte>, b: Buffer, fields: seq<seq<Byte>>)
    requires b.ptr + b.len <= |mem| && Pack(mem, b.ptr, 0, b.len, fields).1.Ok?
    ensures var n := Min(|Flatten(fields)|, b.len);
            Holds(Pack(mem, b.ptr, 0, b.len, fields).0[b.ptr..b.ptr + n], fields, b.len)
  {
    hide Pack, Flatten, Fitting, Splice;
    PackIsPrefix(mem, b.ptr, 0, b.len, fields);
    FittingIsLongest(fields, b.len);
    var k := Fitting(fields, b.len);
    FlattenParts(fields, k);
    SpliceStarts(mem, b.ptr, Flatten(fields[..k]), Min(|Flatten(fields)|, b.len));
  }

  lemma FlattenParts(fields: seq<seq<Byte>>, k: nat)
    requires k <= |fields|
    ensures |Flatten(fields[..k])| <= |Flatten(fields)|
  {
    assert fields == fields[..k] + fields[k..];
    FlattenAppend(fields[..k], fields[k..]);
  }

  lemma SpliceStarts(mem: seq<Byte>, at: nat, b: seq<Byte>, n: nat)
    requires at + n <= |mem| && |b| <= n
    ensures b <= (if b == [] then mem else Splice(mem, at, b))[at..at + n]
  {
    if b != [] {
      assert Splice(mem, at, b)[at..at + n][..|b|] == b;
    }
  }

  // ---------------------------------------------------------------------------
  // Call after call.
  // ---------------------------------------------------------------------------

  /**
   * The program calls, takes the whole entries and goes on at the cookie of the last one, until it finds none. `mems`
   * is its memory at each call, which may hold anything.
   */
  ghost function ReadPages(t: Table, h: Handle, fd: Fd, cookie: nat, mems: seq<seq<Byte>>, b: Buffer,
                           encode: Dirent -> seq<Byte>, decode: seq<Byte> -> Dirent, ord: Order,
                           spell: Spelling): seq<Dirent>
    requires Enumerates(ord)
    decreases |mems|
  {
    if mems == [] then [] else
    match FdReaddir(t, h, fd, cookie, ord, spell)
    case Err(_) => []
    case Panic => []
    case Ok(ds) =>
      var (m, r) := PackAll(mems[0], b.ptr, b.len, Fields(ds, encode), b.resultPtr);
      if !r.Ok? || b.resultPtr + 4 > |m| then [] else
      var page := Seen(m, b, decode);
      if page == [] then []
      else page + ReadPages(t, h, fd, page[|page| - 1].next, mems[1..], b, encode, decode, ord, spell)
  }

  /** The buffer holds every single entry of the directory, and no sum reaches 2^32. */
  ghost predicate Fits(t: Table, h: Handle, fd: Fd, len: nat, spell: Spelling)
    requires fd in h.fds && DirAt(t.nodes, h.fds[fd].inode)
  {
    && len + DIRENT_SIZE < U32
    && forall c :: c in t.nodes[h.fds[fd].inode].data.entries ==>
         DIRENT_SIZE + |spell(c)| <= len && len + |spell(c)| < U32
  }

  // Cookies and inode numbers are below 2^64, because no directory has more names than there are inode numbers.

  lemma {:induction false} DistinctBound(xs: seq<int>, lo: int, hi: int)
    requires lo <= hi && Distinct(xs) && forall k :: 0 <= k < |xs| ==> lo <= xs[k] < hi
    ensures |xs| <= hi - lo
    decreases hi - lo
  {
    if xs != [] {
      assert lo <= xs[0] < hi;
      if p :| 0 <= p < |xs| && xs[p] == hi - 1 {
        var ys := xs[..p] + xs[p + 1..];
        assert forall k :: 0 <= k < |ys| ==> ys[k] == xs[if k < p then k else k + 1];
        DistinctBound(ys, lo, hi - 1);
      } else {
        DistinctBound(xs, lo, hi - 1);
      }
    }
  }

  /** A number for each name of a directory: its inode, or one below the root for `.` and `..`. */
  function Code(es: Entries, c: Component): int
    requires c in es
  {
    if c == CurDir then 0 else if c == ParentDir then 1 else es[c]
  }

  lemma CodesDiffer(t: Table, i: Inode, a: Component, b: Component)
    requires TableInv(t) && DirAt(t.nodes, i) && a in t.nodes[i].data.entries && b in t.nodes[i].data.entries && a != b
    ensures Code(t.nodes[i].data.entries, a) != Code(t.nodes[i].data.entries, b)
    ensures 0 <= Code(t.nodes[i].data.entries, a) < t.next
  {
    NodeAt(t, i);
    LookupIn(t, i, a);
    LookupIn(t, i, b);
    NodeAt(t, t.nodes[i].data.entries[a]);
    NodeAt(t, t.nodes[i].data.entries[b]);
    if a.Normal? && b.Normal? {
      assert Named(t.nodes, i, a) && Named(t.nodes, i, b);
    }
  }

  lemma CodeInRange(t: Table, i: Inode, a: Component)
    requires TableInv(t) && DirAt(t.nodes, i) && a in t.nodes[i].data.entries
    ensures 0 <= Code(t.nodes[i].data.entries, a) < t.next && t.nodes[i].data.entries[a] < t.next < U64
  {
    NodeAt(t, i);
    LookupIn(t, i, a);
    NodeAt(t, t.nodes[i].data.entries[a]);
  }

  lemma FewNames(t: Table, i: Inode, ord: Order)
    requires TableInv(t) && DirAt(t.nodes, i) && Enumerates(ord)
    ensures |ord(t.nodes[i].data.entries)| < U64
  {
    var es := t.nodes[i].data.entries;
    var names := ord(es);
    assert Distinct(names) && forall c :: c in names <==> c in es;
    assert t.next < U64 by { NodeAt(t, i); CodeInRange(t, i, CurDir); }
    hide TableInv, Enumerates, Code;
    var xs := seq(|names|, k requires 0 <= k < |names| => assert names[k] in names; Code(es, names[k]));
    forall k | 0 <= k < |xs| ensures 0 <= xs[k] < t.next {
      assert names[k] in names;
      CodeInRange(t, i, names[k]);
    }
    forall j, k | 0 <= j < k < |xs| ensures xs[j] != xs[k] {
      assert names[j] in names && names[k] in names;
      CodesDiffer(t, i, names[j], names[k]);
    }
    DistinctBound(xs, 0, t.next);
  }

  /** Every entry of a listing can be stored in its fields and fits into the buffer. */
  lemma EntriesFit(t: Table, h: Handle, fd: Fd, len: nat, ord: Order, spell: Spelling)
    requires Enumerates(ord) && Lists(t, h, fd, spell) && Fits(t, h, fd, len, spell)
    ensures var all := FdReaddir(t, h, fd, 0, ord, spell);
            && all.Ok? && Summable(all.value, len) && AllInRange(all.value)
            && forall k :: 0 <= k < |all.value| ==> Size(all.value[k]) <= len
  {
    hide FdReaddir;
    ResumesAt(t, h, fd, 0, ord, spell);
    var i := h.fds[fd].inode;
    var es := t.nodes[i].data.entries;
    var all := FdReaddir(t, h, fd, 0, ord, spell).value;
    FewNames(t, i, ord);
    assert forall c :: c in ord(es) <==> c in es;
    hide TableInv, Enumerates;
    forall k | 0 <= k < |all| ensures InRange(all[k]) && Size(all[k]) <= len && len + |all[k].name| < U32 {
      assert ord(es)[k] in ord(es);
      CodeInRange(t, i, ord(es)[k]);
    }
  }

  /** With room for the first entry at least one is seen. */
  lemma WholeSome(ds: seq<Dirent>, room: nat)
    requires ds != [] && Size(ds[0]) <= room
    ensures Whole(ds, room) > 0
  {
  }

  /** One call of the program and the calls after it. */
  lemma PagesStep(t: Table, h: Handle, fd: Fd, cookie: nat, mems: seq<seq<Byte>>, b: Buffer,
                  encode: Dirent -> seq<Byte>, decode: seq<Byte> -> Dirent, ord: Order, spell: Spelling)
    returns (n: nat)
    requires Enumerates(ord) && Lists(t, h, fd, spell) && Fits(t, h, fd, b.len, spell) && Reads(encode, decode)
    requires mems != [] && Apart(mems[0], b)
    requires FdReaddir(t, h, fd, 0, ord, spell).Ok? && cookie <= |FdReaddir(t, h, fd, 0, ord, spell).value|
    ensures var all := FdReaddir(t, h, fd, 0, ord, spell).value;
            && cookie + n <= |all| && (n == 0 ==> cookie == |all|)
            && ReadPages(t, h, fd, cookie, mems, b, encode, decode, ord, spell) ==
                 if n == 0 then []
                 else Page(all, cookie, n)
                      + ReadPages(t, h, fd, cookie + n, mems[1..], b, encode, decode, ord, spell)
  {
    hide FdReaddir, Enumerates, Lists, Fits, Reads, Page, PackAll, Seen, Fields, Whole, Summable, AllInRange, Apart;
    var all := FdReaddir(t, h, fd, 0, ord, spell).value;
    EntriesFit(t, h, fd, b.len, ord, spell);
    ResumeTail(t, h, fd, cookie, ord, spell);
    var ds := FdReaddir(t, h, fd, cookie, ord, spell).value;
    TailFits(all, cookie, b.len);
    CallSees(mems[0], b, ds, encode, decode);
    n := Whole(ds, b.len);
    if ds != [] {
      WholeSome(ds, b.len);
    }
    PageOfTail(all, cookie, n);
  }

  lemma TailFits(all: seq<Dirent>, k: nat, len: nat)
    requires k <= |all| && Summable(all, len) && AllInRange(all)
    requires forall j :: 0 <= j < |all| ==> Size(all[j]) <= len
    ensures Summable(all[k..], len) && AllInRange(all[k..])
    ensures k < |all| ==> Size(all[k..][0]) <= len
  {
  }

  /**
   * With a buffer that holds the longest entry, the program sees each entry once and in order, whatever is in its
   * memory at each call: after `n` calls at least the first `n` entries, and so all of them after as many calls.
   */
  lemma {:induction false} PagesListAll(t: Table, h: Handle, fd: Fd, cookie: nat, mems: seq<seq<Byte>>, b: Buffer,
                                        encode: Dirent -> seq<Byte>, decode: seq<Byte> -> Dirent, ord: Order,
                                        spell: Spelling)
    returns (n: nat)
    requires Enumerates(ord) && Lists(t, h, fd, spell) && Fits(t, h, fd, b.len, spell) && Reads(encode, decode)
    requires forall k :: 0 <= k < |mems| ==> Apart(mems[k], b)
    requires FdReaddir(t, h, fd, 0, ord, spell).Ok? && cookie <= |FdReaddir(t, h, fd, 0, ord, spell).value|
    ensures n >= |mems| || n >= |FdReaddir(t, h, fd, 0, ord, spell).value| - cookie
    ensures ReadPages(t, h, fd, cookie, mems, b, encode, decode, ord, spell) ==
              Page(FdReaddir(t, h, fd, 0, ord, spell).value, cookie, n)
    decreases |mems|
  {
    hide *;
    var all := FdReaddir(t, h, fd, 0, ord, spell).value;
    PageNone(all, cookie);
    if mems == [] {
      NoPages(t, h, fd, cookie, mems, b, encode, decode, ord, spell);
      n := 0;
    } else {
      var k := PagesStep(t, h, fd, cookie, mems, b, encode, decode, ord, spell);
      if k == 0 {
        n := 0;
      } else {
        var m := PagesListAll(t, h, fd, cookie + k, mems[1..], b, encode, decode, ord, spell);
        n := k + m;
        PageIsFull(all, cookie, k);
        PageSplit(all, cookie, k, m);
      }
    }
  }

  lemma NoPages(t: Table, h: Handle, fd: Fd, cookie: nat, mems: seq<seq<Byte>>, b: Buffer,
                encode: Dirent -> seq<Byte>, decode: seq<Byte> -> Dirent, ord: Order, spell: Spelling)
    requires Enumerates(ord) && mems == []
    ensures ReadPages(t, h, fd, cookie, mems, b, encode, decode, ord, spell) == []
  {
  }

  lemma PageIsFull(all: seq<Dirent>, k: nat, n: nat)
    requires k + n <= |all|
    ensures |Page(all, k, n)| == n
  {
  }

  /** From the start: after as many calls as there are entries the program has seen exactly the listing. */
  lemma PagesListDirectory(t: Table, h: Handle, fd: Fd, mems: seq<seq<Byte>>, b: Buffer,
                           encode: Dirent -> seq<Byte>, decode: seq<Byte> -> Dirent, ord: Order, spell: Spelling)
    requires Enumerates(ord) && Lists(t, h, fd, spell) && Fits(t, h, fd, b.len, spell) && Reads(encode, decode)
    requires forall k :: 0 <= k < |mems| ==> Apart(mems[k], b)
    requires |mems| >= |ord(t.nodes[h.fds[fd].inode].data.entries)|
    ensures FdReaddir(t, h, fd, 0, ord, spell) == Ok(ReadPages(t, h, fd, 0, mems, b, encode, decode, ord, spell))
  {
    hide FdReaddir, Enumerates, Lists, Fits, Reads, Apart, ReadPages, Page;
    ResumesAt(t, h, fd, 0, ord, spell);
    var n := PagesListAll(t, h, fd, 0, mems, b, encode, decode, ord, spell);
    WholePage(FdReaddir(t, h, fd, 0, ord, spell).value, n);
  }

  lemma WholePage(all: seq<Dirent>, n: nat)
    requires n >= |all|
    ensures Page(all, 0, n) == all
  {
  }
}
