/** Length-delimited messages on a byte stream with partial writes and reads (io-utils/src/fd.rs). */
module Framing {
  import opened Common
  import opened Endian

  const HEADER: nat := 9

  /** Eight bytes of length, little-endian, a zero byte, and the data. */
  function Frame(m: seq<Byte>): (f: seq<Byte>)
    ensures |f| == HEADER + |m|
  {
    LittleEndian(|m|, 8) + [0] + m
  }

  function FrameLength(s: seq<Byte>): (n: nat)
    requires |s| >= HEADER
    ensures n >= HEADER
  {
    HEADER + FromLittleEndian(s[..8])
  }

  function Frames(ms: seq<seq<Byte>>): seq<Byte> {
    if ms == [] then [] else Frame(ms[0]) + Frames(ms[1..])
  }

  lemma {:induction false} FramesAppend(a: seq<seq<Byte>>, b: seq<seq<Byte>>)
    ensures Frames(a + b) == Frames(a) + Frames(b)
  {
    if a == [] {
      assert a + b == b;
    } else {
      assert (a + b)[1..] == a[1..] + b;
      FramesAppend(a[1..], b);
    }
  }

  /** Any bytes that begin with the header of a frame announce that frame's length. */
  lemma HeaderRoundTrip(m: seq<Byte>, s: seq<Byte>)
    requires |m| < U64 && |s| >= HEADER && s[..HEADER] == Frame(m)[..HEADER]
    ensures FrameLength(s) == |Frame(m)|
  {
    LittleEndianRoundTrip(|m|, 8);
    hide LittleEndian, FromLittleEndian;
    assert s[..8] == s[..HEADER][..8] == Frame(m)[..8] == LittleEndian(|m|, 8);
  }

  lemma FrameData(m: seq<Byte>)
    ensures Frame(m)[HEADER..] == m
  {
    hide LittleEndian;
  }

  // ---------------------------------------------------------------------------
  // The two loops against a device that may take or give less than asked, or fail.
  // ---------------------------------------------------------------------------

  class Device {
    var stream: seq<Byte>

    constructor ()
      ensures stream == []
    {
      stream := [];
    }

    /** `Write::write`: some of the data, at least one byte, or an error. */
    method Write(data: seq<Byte>) returns (n: Option<nat>)
      requires data != []
      modifies this
      ensures match n
              case None => stream == old(stream)
              case Some(k) => 1 <= k <= |data| && stream == old(stream) + data[..k]
    {
      if * {
        return None;
      }
      var k: nat :| 1 <= k <= |data|;
      stream := stream + data[..k];
      return Some(k);
    }

    /** `Read::read` into `buf[from..to]`: some of what is there, at least one byte, or an error. */
    method Read(buf: array<Byte>, from: nat, to: nat) returns (n: Option<nat>)
      requires from < to <= buf.Length && stream != []
      modifies this, buf
      ensures match n
              case None => stream == old(stream)
              case Some(k) =>
                && 1 <= k <= to - from && k <= |old(stream)| && stream == old(stream)[k..]
                && buf[..from] == old(buf[..from]) && buf[from..from + k] == old(stream)[..k]
    {
      if * {
        return None;
      }
      var k: nat :| 1 <= k <= to - from && k <= |stream|;
      forall i | from <= i < from + k {
        buf[i] := stream[i - from];
      }
      stream := stream[k..];
      return Some(k);
    }
  }

  /** Sends all of `data`, or fails having sent a proper prefix of it. */
  method SendAll(fd: Device, data: seq<Byte>) returns (ok: bool)
    modifies fd
    ensures ok ==> fd.stream == old(fd.stream) + data
    ensures !ok ==> exists k :: 0 <= k < |data| && fd.stream == old(fd.stream) + data[..k]
  {
    var sent := 0;
    assert data[..0] == [];
    while sent < |data|
      invariant 0 <= sent <= |data| && fd.stream == old(fd.stream) + data[..sent]
    {
      var n := fd.Write(data[sent..]);
      if n.None? {
        return false;
      }
      assert data[..sent + n.value] == data[..sent] + data[sent..][..n.value];
      sent := sent + n.value;
    }
    assert data[..sent] == data;
    return true;
  }

  /** `send_buffer`: exactly one frame, or a proper prefix of it and an error. */
  method SendBuffer(fd: Device, buffer: seq<Byte>) returns (ok: bool)
    requires |buffer| < U64
    modifies fd
    ensures ok ==> fd.stream == old(fd.stream) + Frame(buffer)
    ensures !ok ==> exists k :: 0 <= k < |Frame(buffer)| && fd.stream == old(fd.stream) + Frame(buffer)[..k]
  {
    hide LittleEndian;
    var header := LittleEndian(|buffer|, 8) + [0];
    ghost var frame := Frame(buffer);
    assert frame == header + buffer;
    ok := SendAll(fd, header);
    if !ok {
      ghost var k :| 0 <= k < |header| && fd.stream == old(fd.stream) + header[..k];
      assert frame[..k] == header[..k];
      return;
    }
    ghost var start := fd.stream;
    ok := SendAll(fd, buffer);
    if !ok {
      ghost var k :| 0 <= k < |buffer| && fd.stream == start + buffer[..k];
      assert frame[..HEADER + k] == header + buffer[..k];
      assert start + buffer[..k] == old(fd.stream) + frame[..HEADER + k];
    } else {
      assert start + buffer == old(fd.stream) + frame;
    }
  }

  /** Fills `buf` from the stream, or fails having consumed fewer bytes than that. */
  method ReceiveAll(fd: Device, buf: array<Byte>) returns (ok: bool)
    requires |fd.stream| >= buf.Length
    modifies fd, buf
    ensures ok ==> buf[..] == old(fd.stream)[..buf.Length] && fd.stream == old(fd.stream)[buf.Length..]
    ensures !ok ==> exists k :: 0 <= k < buf.Length && fd.stream == old(fd.stream)[k..]
  {
    ghost var was := fd.stream;
    var received := 0;
    while received < buf.Length
      invariant 0 <= received <= buf.Length && fd.stream == was[received..] && buf[..received] == was[..received]
    {
      var n := fd.Read(buf, received, buf.Length);
      if n.None? {
        return false;
      }
      assert buf[..received + n.value] == buf[..received] + buf[received..received + n.value];
      assert was[..received + n.value] == was[..received] + was[received..][..n.value];
      received := received + n.value;
    }
    return true;
  }

  /** `receive_buffer`: takes exactly the first frame off the stream, or fails within it. */
  method ReceiveBuffer(fd: Device) returns (r: Option<seq<Byte>>)
    requires |fd.stream| >= HEADER && |fd.stream| >= FrameLength(fd.stream)
    modifies fd
    ensures var n := FrameLength(old(fd.stream));
            match r
            case Some(m) => m == old(fd.stream)[HEADER..n] && fd.stream == old(fd.stream)[n..]
            case None => exists k :: 0 <= k < n && fd.stream == old(fd.stream)[k..]
  {
    hide FromLittleEndian;
    ghost var was := fd.stream;
    var header := new Byte[HEADER](_ => 0);
    var ok := ReceiveAll(fd, header);
    if !ok {
      return None;
    }
    assert header[..8] == was[..8];
    var length := FromLittleEndian(header[..8]);
    var buffer := new Byte[length](_ => 0);
    ok := ReceiveAll(fd, buffer);
    if !ok {
      ghost var k :| 0 <= k < length && fd.stream == was[HEADER..][k..];
      assert fd.stream == was[HEADER + k..];
      return None;
    }
    assert was[HEADER..][..length] == was[HEADER..HEADER + length];
    return Some(buffer[..]);
  }

  /** Receiving what was sent gives the message back and leaves what follows it. */
  lemma FrameRoundTrip(m: seq<Byte>, rest: seq<Byte>)
    requires |m| < U64
    ensures var s := Frame(m) + rest;
            FrameLength(s) == |Frame(m)| && s[HEADER..FrameLength(s)] == m && s[FrameLength(s)..] == rest
  {
    var s := Frame(m) + rest;
    hide Frame;
    HeaderRoundTrip(m, s);
    FrameData(m);
    assert s[HEADER..|Frame(m)|] == Frame(m)[HEADER..];
  }

  // ---------------------------------------------------------------------------
  // Sender and receiver at once: every interleaving of partial writes and reads.
  // ---------------------------------------------------------------------------

  /** How much of the frames is written, what is on the wire, the bytes of the frame being read, the messages read. */
  datatype System = System(sent: nat, wire: seq<Byte>, got: seq<Byte>, messages: seq<seq<Byte>>)

  datatype Event = Write(n: nat) | Read(n: nat)

  /** The length the receiver is reading towards: the header, and then the whole frame. */
  function Need(got: seq<Byte>): nat {
    if |got| < HEADER then HEADER else FrameLength(got)
  }

  function Minus(a: nat, b: nat): nat {
    if a < b then 0 else a - b
  }

  /** The receiver after a read of `k` bytes that are there and needed. */
  function Received(s: System, k: nat): System
    requires k <= |s.wire|
  {
    var got := s.got + s.wire[..k];
    var u := s.(wire := s.wire[k..]);
    if |got| >= HEADER && |got| == Need(got) then u.(got := [], messages := s.messages + [got[HEADER..]])
    else u.(got := got)
  }

  /** Writes and reads of up to `n` bytes. */
  function Next(ms: seq<seq<Byte>>, s: System, e: Event): System {
    match e
    case Write(n) =>
      var k := Min(n, Minus(|Frames(ms)|, s.sent));
      if k == 0 then s else s.(sent := s.sent + k, wire := s.wire + Frames(ms)[s.sent..s.sent + k])
    case Read(n) =>
      var k := Min(n, Min(|s.wire|, Minus(Need(s.got), |s.got|)));
      if k == 0 then s else Received(s, k)
  }

  ghost predicate Inv(ms: seq<seq<Byte>>, s: System) {
    && s.sent <= |Frames(ms)| && |s.got| < Need(s.got)
    && |s.messages| <= |ms| && s.messages == ms[..|s.messages|]
    && Frames(s.messages) + s.got + s.wire == Frames(ms)[..s.sent]
  }

  ghost predicate Sizes(ms: seq<seq<Byte>>) {
    forall k :: 0 <= k < |ms| ==> |ms[k]| < U64
  }

  /** What is read of the current frame is a beginning of the frames still to come. */
  lemma GotPrefix(ms: seq<seq<Byte>>, s: System)
    requires Inv(ms, s)
    ensures s.got + s.wire <= Frames(ms[|s.messages|..])
  {
    hide Frame, Need;
    var j := |s.messages|;
    assert ms == ms[..j] + ms[j..];
    FramesAppend(ms[..j], ms[j..]);
    var a, b := Frames(s.messages), Frames(ms[j..]);
    assert a + s.got + s.wire == a + (s.got + s.wire);
    assert a + (s.got + s.wire) <= a + b;
    PrefixTail(a, s.got + s.wire, b);
  }

  lemma PrefixTail(a: seq<Byte>, x: seq<Byte>, b: seq<Byte>)
    requires a + x <= a + b
    ensures x <= b
  {
    var n := |a| + |x|;
    assert (a + b)[..n] == a + x;
    assert b[..|x|] == (a + b)[..n][|a|..] == x;
  }

  /** Bytes of the frames still to come that include a header: the current frame's length, and its message if whole. */
  lemma WholeFrame(ms: seq<seq<Byte>>, got: seq<Byte>)
    requires Sizes(ms) && |got| >= HEADER && got <= Frames(ms)
    ensures ms != [] && FrameLength(got) == |Frame(ms[0])|
    ensures |got| == FrameLength(got) ==> got == Frame(ms[0]) && got[HEADER..] == ms[0]
  {
    hide Frame, FrameLength;
    assert got[..HEADER] == Frame(ms[0])[..HEADER];
    HeaderRoundTrip(ms[0], got);
    FrameData(ms[0]);
    if |got| == FrameLength(got) {
      assert got == Frame(ms[0]);
    }
  }

  /** Moving the first `k` bytes of `w` to the end of `g`. */
  lemma Shift(a: seq<Byte>, g: seq<Byte>, w: seq<Byte>, k: nat)
    requires k <= |w|
    ensures (g + w[..k]) + w[k..] == g + w
    ensures a + (g + w[..k]) + w[k..] == a + g + w
  {
    assert w == w[..k] + w[k..];
  }

  lemma PrefixOfSum(x: seq<Byte>, y: seq<Byte>, z: seq<Byte>)
    requires x + y <= z
    ensures x <= z
  {
    assert (x + y)[..|x|] == x;
  }

  lemma ReadInv(ms: seq<seq<Byte>>, s: System, n: nat)
    requires Sizes(ms) && Inv(ms, s)
    ensures Inv(ms, Next(ms, s, Read(n)))
  {
    hide Frames, FrameLength, Need, Received, Sizes;
    var k := Min(n, Min(|s.wire|, Need(s.got) - |s.got|));
    if k > 0 {
      hide Inv;
      ReceivedInv(ms, s, k);
    }
  }

  lemma ReceivedInv(ms: seq<seq<Byte>>, s: System, k: nat)
    requires Sizes(ms) && Inv(ms, s) && 0 < k <= |s.wire| && k <= Need(s.got) - |s.got|
    ensures Inv(ms, Received(s, k))
  {
    hide Frame, Frames, FrameLength, Need;
    var j, got := |s.messages|, s.got + s.wire[..k];
    GotPrefix(ms, s);
    Shift(Frames(s.messages), s.got, s.wire, k);
    PrefixOfSum(got, s.wire[k..], Frames(ms[j..]));
    StillShort(ms[j..], s.got, got);
    if |got| >= HEADER && |got| == Need(got) {
      NeedIs(got);
      NeedIs([]);
      WholeFrame(ms[j..], got);
      OneMore(ms, j);
    }
  }

  lemma NeedIs(got: seq<Byte>)
    ensures Need(got) == if |got| < HEADER then HEADER else FrameLength(got)
  {
  }

  /** Reading no further than needed, the receiver never has more than the current frame. */
  lemma StillShort(ms: seq<seq<Byte>>, got: seq<Byte>, more: seq<Byte>)
    requires Sizes(ms) && got <= more <= Frames(ms) && |more| <= Need(got)
    ensures |more| <= Need(more) && (|more| < HEADER ==> |more| < Need(more))
  {
    hide Frames, Need, FrameLength, Sizes;
    NeedIs(more);
    if |more| >= HEADER {
      NeedStays(ms, got, more);
    }
  }

  /** One more message of the sequence. */
  lemma OneMore(ms: seq<seq<Byte>>, j: nat)
    requires j < |ms|
    ensures ms[..j] + [ms[j..][0]] == ms[..j + 1]
    ensures Frames(ms[..j] + [ms[j..][0]]) == Frames(ms[..j]) + Frame(ms[j..][0])
    ensures forall w: seq<Byte> :: Frames(ms[..j] + [ms[j..][0]]) + [] + w == Frames(ms[..j]) + Frame(ms[j..][0]) + w
  {
    hide Frames, Frame;
    FramesAppend(ms[..j], [ms[j]]);
    FramesOne(ms[j]);
  }

  lemma FramesOne(m: seq<Byte>)
    ensures Frames([m]) == Frame(m)
  {
    assert [m][1..] == [];
  }

  /** Once the header is read, the length read towards does not change. */
  lemma NeedStays(ms: seq<seq<Byte>>, got: seq<Byte>, more: seq<Byte>)
    requires Sizes(ms) && got <= more <= Frames(ms) && |more| >= HEADER && |more| <= Need(got)
    ensures |more| <= Need(more)
  {
    hide Frame, Frames;
    if |got| >= HEADER {
      WholeFrame(ms, got);
      WholeFrame(ms, more);
    }
  }

  lemma WriteInv(ms: seq<seq<Byte>>, s: System, n: nat)
    requires Inv(ms, s)
    ensures Inv(ms, Next(ms, s, Write(n)))
  {
    hide Frame, Frames, Need;
    var all := Frames(ms);
    var k := Min(n, |all| - s.sent);
    assert all[..s.sent + k] == all[..s.sent] + all[s.sent..s.sent + k];
    assert Frames(s.messages) + s.got + (s.wire + all[s.sent..s.sent + k])
        == Frames(s.messages) + s.got + s.wire + all[s.sent..s.sent + k];
  }

  const START := System(0, [], [], [])

  function Final(ms: seq<seq<Byte>>, s: System, es: seq<Event>): System
    decreases |es|
  {
    if es == [] then s else Final(ms, Next(ms, s, es[0]), es[1..])
  }

  lemma {:induction false} RunInv(ms: seq<seq<Byte>>, s: System, es: seq<Event>)
    requires Sizes(ms) && Inv(ms, s)
    ensures Inv(ms, Final(ms, s, es))
    decreases |es|
  {
    hide Inv, Next;
    if es != [] {
      match es[0] {
        case Write(n) => WriteInv(ms, s, n);
        case Read(n) => ReadInv(ms, s, n);
      }
      RunInv(ms, Next(ms, s, es[0]), es[1..]);
    }
  }

  lemma StartInv(ms: seq<seq<Byte>>)
    ensures Inv(ms, START)
  {
    assert Frames([]) + [] + [] == Frames(ms)[..0];
  }

  /** Everything written and read: all messages are received, and no byte is left over. */
  lemma AllReceived(ms: seq<seq<Byte>>, s: System)
    requires Sizes(ms) && Inv(ms, s) && s.sent == |Frames(ms)| && s.wire == []
    ensures s.messages == ms && s.got == []
  {
    hide Frame, FrameLength;
    var j := |s.messages|;
    GotPrefix(ms, s);
    assert s.got + [] == s.got;
    assert ms == ms[..j] + ms[j..];
    FramesAppend(ms[..j], ms[j..]);
    assert |s.got| == |Frames(ms[j..])|;
    if j < |ms| {
      assert |s.got| >= |Frame(ms[j..][0])|;
      WholeFrame(ms[j..], s.got);
      NeedIs(s.got);
      assert false;
    }
  }

  /**
   * However writes and reads interleave and whatever they move at a time, the messages received are a prefix of those
   * sent; once everything is written and read they are all of them, and no byte is left over.
   */
  lemma ReceivesWhatWasSent(ms: seq<seq<Byte>>, es: seq<Event>)
    requires Sizes(ms)
    ensures var s := Final(ms, START, es);
            s.messages <= ms && (s.sent == |Frames(ms)| && s.wire == [] ==> s.messages == ms && s.got == [])
  {
    hide Frames, Need, Final, Sizes;
    StartInv(ms);
    RunInv(ms, START, es);
    var s := Final(ms, START, es);
    if s.sent == |Frames(ms)| && s.wire == [] {
      AllReceived(ms, s);
    }
  }

  // ---------------------------------------------------------------------------
  // Progress.
  // ---------------------------------------------------------------------------

  predicate Moves(ms: seq<seq<Byte>>, s: System, e: Event) {
    Next(ms, s, e) != s
  }

  ghost predicate AlwaysMoves(ms: seq<seq<Byte>>, s: System, es: seq<Event>)
    decreases |es|
  {
    es == [] || (Moves(ms, s, es[0]) && AlwaysMoves(ms, Next(ms, s, es[0]), es[1..]))
  }

  /** The bytes written and the bytes read so far. */
  function Moved(s: System): int {
    2 * s.sent - |s.wire|
  }

  lemma MovesOne(ms: seq<seq<Byte>>, s: System, e: Event)
    requires Inv(ms, s) && Moves(ms, s, e)
    ensures Moved(Next(ms, s, e)) > Moved(s)
  {
    hide Frames, FrameLength, Need;
  }

  lemma MovedBound(ms: seq<seq<Byte>>, s: System)
    requires Inv(ms, s)
    ensures Moved(s) <= 2 * |Frames(ms)|
    ensures Moved(s) == 2 * |Frames(ms)| ==> s.sent == |Frames(ms)| && s.wire == []
  {
    hide Frames, Need;
  }

  lemma {:induction false} MovedInRuns(ms: seq<seq<Byte>>, s: System, es: seq<Event>)
    requires Sizes(ms) && Inv(ms, s) && AlwaysMoves(ms, s, es)
    ensures Moved(Final(ms, s, es)) >= Moved(s) + |es|
    decreases |es|
  {
    hide Inv, Next, Moved, Sizes, Moves;
    if es != [] {
      MovesOne(ms, s, es[0]);
      RunInv(ms, s, [es[0]]);
      FinalOne(ms, s, es[0]);
      MovedInRuns(ms, Next(ms, s, es[0]), es[1..]);
    }
  }

  lemma FinalOne(ms: seq<seq<Byte>>, s: System, e: Event)
    ensures Final(ms, s, [e]) == Next(ms, s, e)
  {
    hide Next;
    assert Final(ms, Next(ms, s, e), [e][1..]) == Next(ms, s, e);
  }

  /**
   * A run in which every event moves a byte has at most two events for each byte of the frames, and after so many of
   * them all messages are received.
   */
  lemma RunsEnd(ms: seq<seq<Byte>>, es: seq<Event>)
    requires Sizes(ms) && AlwaysMoves(ms, START, es)
    ensures |es| <= 2 * |Frames(ms)|
    ensures |es| == 2 * |Frames(ms)| ==> Final(ms, START, es).messages == ms
  {
    hide Frames, Need, Final, Sizes, Inv;
    StartInv(ms);
    RunInv(ms, START, es);
    MovedInRuns(ms, START, es);
    var s := Final(ms, START, es);
    MovedBound(ms, s);
    if s.sent == |Frames(ms)| && s.wire == [] {
      AllReceived(ms, s);
    }
  }

  /** No run gets stuck: it cannot go on exactly when all messages are received. */
  lemma StuckIffReceived(ms: seq<seq<Byte>>, es: seq<Event>)
    requires Sizes(ms)
    ensures var s := Final(ms, START, es); (forall e :: !Moves(ms, s, e)) <==> s.messages == ms
  {
    hide Frames, Need, Final, Sizes, Inv;
    StartInv(ms);
    RunInv(ms, START, es);
    var s := Final(ms, START, es);
    if s.messages == ms {
      forall e ensures !Moves(ms, s, e) {
        NothingLeft(ms, s, e);
      }
    } else if s.sent == |Frames(ms)| && s.wire == [] {
      AllReceived(ms, s);
      assert false;
    } else {
      SomethingMoves(ms, s);
    }
  }

  lemma NothingLeft(ms: seq<seq<Byte>>, s: System, e: Event)
    requires Inv(ms, s) && s.messages == ms
    ensures !Moves(ms, s, e)
  {
    hide Frames, FrameLength, Need;
    assert |Frames(ms) + s.got + s.wire| == |Frames(ms)[..s.sent]|;
  }

  lemma SomethingMoves(ms: seq<seq<Byte>>, s: System)
    requires Inv(ms, s) && !(s.sent == |Frames(ms)| && s.wire == [])
    ensures Moves(ms, s, Write(1)) || Moves(ms, s, Read(1))
  {
    hide Frames, FrameLength, Need;
  }
}
