/**
 * The raw send and receive of the microcontroller client (veracruz-mcu-client/vc.c): a response is parsed in place in
 * the receive buffer, and the decoded bytes are then handed out piece by piece.
 */
module McuClient {
  import opened Common
  import opened Base64
  import opened Responses

  lemma {:induction false} DecodeShrinks(t: seq<Byte>)
    ensures |Decode(t)| <= |t|
    decreases |t|
  {
    if |t| >= 4 {
      DecodeShrinks(t[4..]);
    }
  }

  function Prepend(acc: seq<Byte>, p: Parsed): Parsed {
    if p.Bytes? then Bytes(acc + p.b) else p
  }

  /** `while (parsing[i] && parsing[i] != ' ')`. */
  method ScanToken(buf: array<Byte>, parsing: nat, recvLen: nat) returns (i: nat)
    requires parsing <= recvLen < buf.Length && buf[recvLen] == NUL && NUL !in buf[parsing..recvLen]
    ensures i == TokenLen(buf[parsing..recvLen])
  {
    ghost var rest := buf[parsing..recvLen];
    i := 0;
    while buf[parsing + i] != NUL && buf[parsing + i] != SPACE
      invariant i <= |rest| && TokenLen(rest) == i + TokenLen(rest[i..])
      decreases |rest| - i
    {
      assert rest[i..][0] == buf[parsing + i] && rest[i..][1..] == rest[i + 1..];
      i := i + 1;
    }
    if i < |rest| {
      assert rest[i..][0] == buf[parsing + i] && rest[i] in rest;
    }
  }

  /** One token decoded: the text still to be parsed is untouched. */
  lemma TokenDone(a: seq<Byte>, b: seq<Byte>, parsed: nat, parsing: nat, end: nat, i: nat, d: seq<Byte>)
    requires Written(a, b, parsed, d)
    requires parsed + |d| <= parsing + i <= end <= |a| && parsed <= parsing
    ensures |b| == |a| && b[..parsed + |d|] == a[..parsed] + d
    ensures forall k :: parsing + i <= k < |a| ==> b[k] == a[k]
  {
    assert b[..parsed + |d|] == b[..parsed] + b[parsed..parsed + |d|];
  }

  /** In a buffer with room, decoding a token fails exactly as parsing does. */
  lemma TokenOutcome(token: seq<Byte>, avail: nat)
    requires NUL !in token && |token| <= avail < U31
    ensures UpToNul(token) == token
    ensures DecodeOutcome(token, avail).Len? <==> Decodable(token)
    ensures !Decodable(token) ==>
              DecodeOutcome(token, avail) == if |token| % 4 != 0 then EInval
                                             else if Padding(token) > 3 * (|token| / 4) then EOverflow else EIlSeq
    ensures Decodable(token) && WellPadded(token) ==>
              DecodeOutcome(token, avail) == Len(|Decode(token)|) && |Decode(token)| <= |token|
  {
    hide Decode, Padding, WellPadded, UpToNul, DecodeSize, AllCodes;
    DecodeShrinks(token);
    SizeOrWrap(token);
    if |token| % 4 == 0 && WellPadded(token) {
      DecodeSizeIs(token);
    }
  }

  /** The size is within the text, or wraps to something larger than any buffer here. */
  lemma SizeOrWrap(t: seq<Byte>)
    requires |t| < U31
    ensures if Padding(t) <= 3 * (|t| / 4) then DecodeSize(t) <= |t| else DecodeSize(t) > U31
  {
    hide Padding;
    PaddingBound(t);
    var n := 3 * (|t| / 4) - Padding(t);
    if n < 0 {
      assert n % U32 == n + U32;
    }
  }

  lemma {:induction false} PaddingBound(t: seq<Byte>)
    ensures Padding(t) <= |t|
  {
    if t != [] {
      PaddingBound(t[..|t| - 1]);
    }
  }

  lemma ParseFails(rest: seq<Byte>, avail: nat, acc: seq<Byte>)
    requires rest != [] && NUL !in rest && |rest| <= avail < U31
    requires !DecodeOutcome(rest[..TokenLen(rest)], avail).Len?
    ensures Prepend(acc, ParseBlobs(rest)) == Failed(DecodeOutcome(rest[..TokenLen(rest)], avail))
  {
    hide Decode, AllCodes, UpToNul, Padding, DecodeOutcome, WellPadded;
    TokenOutcome(rest[..TokenLen(rest)], avail);
  }

  lemma ParseGoesOn(rest: seq<Byte>, avail: nat, acc: seq<Byte>)
    requires rest != [] && NUL !in rest && |rest| <= avail < U31
    requires DecodeOutcome(rest[..TokenLen(rest)], avail).Len? && WellPadded(rest[..TokenLen(rest)])
    ensures Prepend(acc, ParseBlobs(rest)) ==
              Prepend(acc + Decode(rest[..TokenLen(rest)]), ParseBlobs(AfterToken(rest)))
  {
    hide Decode, UpToNul, AfterToken, TokenLen, ParseBlobs, DecodeOutcome, Decodable, WellPadded;
    var token := rest[..TokenLen(rest)];
    TokenOutcome(token, avail);
    ParseStep(rest);
    var later := ParseBlobs(AfterToken(rest));
    if later.Bytes? {
      assert acc + (Decode(token) + later.b) == acc + Decode(token) + later.b;
    }
  }

  lemma ParseStep(rest: seq<Byte>)
    requires rest != [] && Decodable(rest[..TokenLen(rest)])
    ensures ParseBlobs(rest) == Prepend(Decode(rest[..TokenLen(rest)]), ParseBlobs(AfterToken(rest)))
  {
    hide Decode, AllCodes, AfterToken, TokenLen, Padding;
  }

  /** The state of the parsing loop: `acc` decoded at the front, the text from `parsing` on still as received. */
  ghost predicate Shuffling(buf: seq<Byte>, text: seq<Byte>, acc: seq<Byte>, parsing: nat, end: nat) {
    && |acc| <= parsing <= end < |buf| && end < U31 && buf[end] == NUL
    && buf[..|acc|] == acc
    && NUL !in buf[parsing..end] && TokensPadded(buf[parsing..end])
    && ParseBlobs(text) == Prepend(acc, ParseBlobs(buf[parsing..end]))
  }

  lemma TailAfterToken(a: seq<Byte>, b: seq<Byte>, parsing: nat, end: nat, i: nat)
    requires |b| == |a| && parsing < end < |a| && a[end] == NUL && i == TokenLen(a[parsing..end])
    requires forall k :: parsing + i <= k < |a| ==> b[k] == a[k]
    ensures var next := parsing + i + (if a[parsing + i] == SPACE then 1 else 0);
            parsing < next <= end && b[next..end] == AfterToken(a[parsing..end])
  {
    hide TokenLen;
    var rest := a[parsing..end];
    assert i < |rest| ==> rest[i] == a[parsing + i];
    var next := parsing + i + (if a[parsing + i] == SPACE then 1 else 0);
    SameTail(a, b, parsing, parsing + i, next, end);
  }

  lemma SameTail(a: seq<Byte>, b: seq<Byte>, i: nat, j: nat, k: nat, end: nat)
    requires |b| == |a| && i <= j <= k <= end <= |a| && forall n :: j <= n < |a| ==> b[n] == a[n]
    ensures b[k..end] == a[i..end][k - i..]
  {
  }

  lemma AfterIsClean(rest: seq<Byte>)
    requires rest != [] && NUL !in rest && TokensPadded(rest)
    ensures NUL !in AfterToken(rest)
    ensures Decodable(rest[..TokenLen(rest)]) ==> TokensPadded(AfterToken(rest)) && WellPadded(rest[..TokenLen(rest)])
  {
    hide WellPadded, Decodable;
  }

  /** One round: the text still to be parsed is untouched, because decoding shrinks. */
  lemma ShuffleStep(a: seq<Byte>, b: seq<Byte>, text: seq<Byte>, acc: seq<Byte>, parsing: nat, end: nat, i: nat)
    requires Shuffling(a, text, acc, parsing, end) && parsing < end && i == TokenLen(a[parsing..end])
    requires DecodeOutcome(a[parsing..end][..i], end - |acc|).Len?
    requires Written(a, b, |acc|, Decode(a[parsing..end][..i]))
    ensures |b| == |a| && b[parsing + i] == a[parsing + i] && (a[parsing + i] != SPACE ==> i > 0)
    ensures Shuffling(b, text, acc + Decode(a[parsing..end][..i]),
              parsing + i + (if a[parsing + i] == SPACE then 1 else 0), end)
  {
    hide Decode, UpToNul, WellPadded, ParseBlobs, DecodeOutcome, TokenLen, AfterToken, TokensPadded, Written, Decodable;
    var rest := a[parsing..end];
    var token := rest[..i];
    TokenOutcome(token, end - |acc|);
    AfterIsClean(rest);
    ParseGoesOn(rest, end - |acc|, acc);
    TokenDone(a, b, |acc|, parsing, end, i, Decode(token));
    TailAfterToken(a, b, parsing, end, i);
  }

  /** One round of the parsing loop. */
  method ShuffleOne(buf: array<Byte>, start: nat, parsed: nat, recvLen: nat, ghost text: seq<Byte>,
                    ghost acc: seq<Byte>)
    returns (res: Code, parsing: nat, ghost d: seq<Byte>)
    requires parsed == |acc| && start < recvLen && Shuffling(buf[..], text, acc, start, recvLen)
    modifies buf
    ensures res.Len? ==> res.n == |d| && start < parsing && Shuffling(buf[..], text, acc + d, parsing, recvLen)
    ensures !res.Len? ==> ParseBlobs(text) == Failed(res)
  {
    hide Decode, UpToNul, WellPadded, Written, ParseBlobs, TokensPadded, TokenLen, Decodable, DecodeSize;
    parsing := start;
    ghost var was := buf[..];
    ghost var rest := was[parsing..recvLen];
    assert buf[parsing..recvLen] == rest;
    var i := ScanToken(buf, parsing, recvLen);
    ghost var token := rest[..i];
    assert buf[parsing..parsing + i] == token;
    TokenOutcome(token, recvLen - parsed);
    AfterIsClean(rest);
    res := DecodeInto(buf, parsing, i, buf, parsed, recvLen - parsed);
    d := Decode(token);
    if !res.Len? {
      ParseFails(rest, recvLen - parsed, acc);
      return;
    }
    hide DecodeOutcome;
    ShuffleStep(was, buf[..], text, acc, parsing, recvLen, i);
    parsing := parsing + i;
    if buf[parsing] == SPACE {
      parsing := parsing + 1;
    }
  }

  /**
   * The parsing loop of `vc_rawsend`: blobs are decoded to the front of the very buffer they are read from. The write
   * position never passes the read position, so the result is that of parsing the text as it was received.
   */
  method ShuffleBlobs(buf: array<Byte>, start: nat, recvLen: nat) returns (r: Code)
    requires start <= recvLen < buf.Length && recvLen < U31 && buf[recvLen] == NUL
    requires NUL !in buf[..][start..recvLen] && TokensPadded(buf[..][start..recvLen])
    modifies buf
    ensures match ParseBlobs(old(buf[..])[start..recvLen])
            case Bytes(b) => r == Len(|b|) && |b| <= recvLen && buf[..|b|] == b
            case Failed(e) => r == e
  {
    ghost var text := buf[..][start..recvLen];
    ghost var acc: seq<Byte> := [];
    var parsing, parsed := start, 0;
    PrependNothing(ParseBlobs(text));
    hide ParseBlobs, TokensPadded;
    assert Shuffling(buf[..], text, acc, parsing, recvLen);
    while parsing < recvLen
      invariant parsing <= recvLen && parsed == |acc| && Shuffling(buf[..], text, acc, parsing, recvLen)
    {
      ghost var d;
      r, parsing, d := ShuffleOne(buf, parsing, parsed, recvLen, text, acc);
      if !r.Len? {
        return;
      }
      acc := acc + d;
      parsed := parsed + r.n;
    }
    ParsedAll(acc);
    assert buf[..][parsing..recvLen] == [];
    return Len(parsed);
  }

  lemma PrependNothing(p: Parsed)
    ensures Prepend([], p) == p
  {
    if p.Bytes? {
      assert [] + p.b == p.b;
    }
  }

  lemma ParsedAll(acc: seq<Byte>)
    ensures Prepend(acc, ParseBlobs([])) == Bytes(acc)
  {
    assert acc + [] == acc;
  }

  // ---------------------------------------------------------------------------
  // The session id.
  // ---------------------------------------------------------------------------

  function WhitespaceRun(t: seq<Byte>): (k: nat)
    ensures k <= |t|
  {
    if t == [] || !IsWhitespace(t[0]) then 0 else 1 + WhitespaceRun(t[1..])
  }

  const MINUS: Byte := 45

  /** `strtol` with a 32-bit `long`: the value and how many characters it took, none if there is no digit. */
  function Strtol(t: seq<Byte>): (r: (int, nat))
    ensures r.1 <= |t| && (r.1 == 0 ==> r.0 == 0)
  {
    var w := WhitespaceRun(t);
    var signed := w < |t| && (t[w] == MINUS || t[w] == PLUS);
    var from := if signed then w + 1 else w;
    var n := DigitRun(t[from..]);
    var v := Value(t[from..][..n]);
    if n == 0 then (0, 0)
    else
      var long: int := if signed && t[w] == MINUS then -Min(v, U31) else Min(v, U31 - 1);
      (long, from + n)
  }

  /** The body after the number and one separator. */
  function Body(t: seq<Byte>, k: nat): seq<Byte> {
    if k + 1 <= |t| then t[k + 1..] else []
  }

  /** The id in front of a formatted response is read back, and the body starts after its space. */
  lemma IdRoundTrip(id: nat, body: seq<Byte>)
    requires id < U31
    ensures var t := Decimal(id) + [SPACE] + body;
            Strtol(t) == (id, |Decimal(id)|) && Body(t, |Decimal(id)|) == body
  {
    hide Decimal, Value;
    var d := Decimal(id);
    DecimalValue(id);
    DigitRunOf(d, [SPACE] + body);
    var t := d + [SPACE] + body;
    assert t == d + ([SPACE] + body);
    assert IsDigit(t[0]) && WhitespaceRun(t) == 0;
    assert t[0..] == t && t[..|d|] == d;
  }

  // ---------------------------------------------------------------------------
  // The session.
  // ---------------------------------------------------------------------------

  datatype Session = Session(id: int, pending: seq<Byte>)

  /** `vc_rawsend` of `len` bytes whose POST is answered with `reply`. */
  function SendStep(s: Session, len: nat, reply: seq<Byte>): (Session, Code) {
    if s.pending != [] then (s, EBusy)
    else if reply == [] then (s, Len(len))
    else
      var (id, k) := Strtol(reply);
      if k == 0 then (Session(0, []), EIlSeq) else
      match ParseBlobs(Body(reply, k))
      case Bytes(b) => (Session(id, b), Len(len))
      case Failed(e) => (Session(id, []), e)
  }

  /** `vc_rawrecv` into a buffer of `n` bytes: what is left and what is handed out. */
  function RecvStep(s: Session, n: nat): (Session, seq<Byte>) {
    var k := Min(n, |s.pending|);
    (s.(pending := s.pending[k..]), s.pending[..k])
  }

  /** What the parser of `base64_decode` needs of a reply: text without NUL, well-padded tokens. */
  ghost predicate ReplyText(reply: seq<Byte>) {
    NUL !in reply && TokensPadded(Body(reply, Strtol(reply).1))
  }

  class Connection {
    var sessionId: int
    var recvPos: nat
    var recvLen: nat
    const recvBuf: array<Byte>

    ghost predicate Valid()
      reads this
    {
      recvPos + recvLen <= recvBuf.Length
    }

    ghost function State(): Session
      requires Valid()
      reads this, recvBuf
    {
      Session(sessionId, recvBuf[recvPos..recvPos + recvLen])
    }

    constructor (recvBuf: array<Byte>)
      ensures this.recvBuf == recvBuf && Valid() && State() == Session(0, [])
    {
      this.recvBuf := recvBuf;
      sessionId, recvPos, recvLen := 0, 0, 0;
    }

    /** `vc_rawsend`, from the check for unread bytes on; `reply` is what the POST put into the receive buffer. */
    method RawSend(len: nat, reply: seq<Byte>) returns (r: Code)
      requires Valid() && |reply| < recvBuf.Length && |reply| < U31 && ReplyText(reply)
      modifies this, recvBuf
      ensures Valid() && (State(), r) == SendStep(old(State()), len, reply)
    {
      hide Strtol, ParseBlobs, TokensPadded;
      if recvLen != 0 {
        return EBusy;
      }
      forall k | 0 <= k < |reply| {
        recvBuf[k] := reply[k];
      }
      if |reply| == 0 {
        return Len(len);
      }
      recvBuf[|reply|] := NUL;
      assert recvBuf[..][..|reply|] == reply;
      var (id, parsing) := Strtol(reply);
      sessionId := id;
      assert State().pending == [];
      if parsing == 0 {
        return EIlSeq;
      }
      parsing := parsing + 1;
      var res := Len(0);
      if parsing <= |reply| {
        assert recvBuf[..][parsing..|reply|] == Body(reply, parsing - 1);
        res := ShuffleBlobs(recvBuf, parsing, |reply|);
      } else {
        EmptyBody();
      }
      if !res.Len? {
        assert State().pending == [];
        return res;
      }
      recvPos, recvLen := 0, res.n;
      return Len(len);
    }

    /** `vc_rawrecv`; without pending bytes it times out. */
    method RawRecv(buf: array<Byte>, len: nat) returns (n: Option<nat>)
      requires Valid() && buf != recvBuf && len <= buf.Length
      modifies this, buf
      ensures Valid() && State() == RecvStep(old(State()), len).0
      ensures n == if old(State()).pending == [] then None else Some(|RecvStep(old(State()), len).1|)
      ensures n.Some? ==> buf[..n.value] == RecvStep(old(State()), len).1
    {
      if recvLen == 0 {
        return None;
      }
      var diff := Min(len, recvLen);
      forall k | 0 <= k < diff {
        buf[k] := recvBuf[recvPos + k];
      }
      recvPos := recvPos + diff;
      recvLen := recvLen - diff;
      return Some(diff);
    }
  }

  // ---------------------------------------------------------------------------
  // Runs of sends and receives.
  // ---------------------------------------------------------------------------

  datatype Event = Send(len: nat, reply: seq<Byte>) | Recv(n: nat)

  function Next(s: Session, e: Event): Session {
    match e
    case Send(len, reply) => SendStep(s, len, reply).0
    case Recv(n) => RecvStep(s, n).0
  }

  function Final(s: Session, es: seq<Event>): Session
    decreases |es|
  {
    if es == [] then s else Final(Next(s, es[0]), es[1..])
  }

  /** The bytes handed to TLS. */
  function Delivered(s: Session, es: seq<Event>): seq<Byte>
    decreases |es|
  {
    if es == [] then [] else
    (if es[0].Recv? then RecvStep(s, es[0].n).1 else []) + Delivered(Next(s, es[0]), es[1..])
  }

  /** The payloads of the responses that were accepted. */
  function Accepted(s: Session, es: seq<Event>): seq<Byte>
    decreases |es|
  {
    if es == [] then [] else
    (if es[0].Send? && s.pending == [] then Next(s, es[0]).pending else []) + Accepted(Next(s, es[0]), es[1..])
  }

  /** Nothing is lost, repeated or reordered: what was delivered and what is pending is what was accepted. */
  lemma {:induction false} Conservation(s: Session, es: seq<Event>)
    ensures Delivered(s, es) + Final(s, es).pending == s.pending + Accepted(s, es)
    decreases |es|
  {
    hide Delivered, Final, Accepted, SendStep;
    if es == [] {
      NothingYet(s, es);
    } else {
      var u := Next(s, es[0]);
      Conservation(u, es[1..]);
      RunStep(s, es);
      var d, f, a := Delivered(u, es[1..]), Final(u, es[1..]).pending, Accepted(u, es[1..]);
      if es[0].Recv? {
        var x := RecvStep(s, es[0].n).1;
        HandedOut(s, es[0].n);
        hide RecvStep, Next;
        MovedOver(x, d, f, u.pending, a);
      } else {
        hide Next;
        NothingInFront(d);
        NothingInFront(a);
        NothingInFront(u.pending + a);
      }
    }
  }

  lemma NothingInFront(x: seq<Byte>)
    ensures [] + x == x
  {
  }

  lemma NothingYet(s: Session, es: seq<Event>)
    requires es == []
    ensures Delivered(s, es) == [] && Accepted(s, es) == [] && Final(s, es) == s
    ensures [] + s.pending == s.pending + []
  {
  }

  /** The first event of a run. */
  lemma RunStep(s: Session, es: seq<Event>)
    requires es != []
    ensures var u := Next(s, es[0]);
            && Final(s, es) == Final(u, es[1..])
            && Delivered(s, es) == (if es[0].Recv? then RecvStep(s, es[0].n).1 else []) + Delivered(u, es[1..])
            && Accepted(s, es) == (if es[0].Send? && s.pending == [] then u.pending else []) + Accepted(u, es[1..])
            && (es[0].Send? && s.pending != [] ==> u == s)
  {
    hide RecvStep;
  }

  lemma HandedOut(s: Session, n: nat)
    ensures RecvStep(s, n).1 + RecvStep(s, n).0.pending == s.pending
  {
  }

  lemma MovedOver(x: seq<Byte>, d: seq<Byte>, f: seq<Byte>, p: seq<Byte>, a: seq<Byte>)
    requires d + f == p + a
    ensures x + d + f == x + p + a
  {
    assert x + d + f == x + (d + f) && x + p + a == x + (p + a);
  }

  /** A formatted response is accepted whole: the session id and the concatenation of the blobs. */
  lemma ServerReply(s: Session, len: nat, id: nat, blobs: seq<seq<Byte>>)
    requires id < U31 && s.pending == []
    ensures var t := FormatResponse(id, Some(blobs));
            SendStep(s, len, t) == (Session(id, Flatten(blobs)), Len(len)) && ReplyText(t)
  {
    hide ParseBlobs, JoinBlobs, TokensPadded, Strtol, Decimal;
    BlobsRoundTrip(blobs);
    BodyHasNoNul(blobs);
    IdRoundTrip(id, JoinBlobs(blobs));
    DecimalValue(id);
  }

  /** What one request made the enclave say. */
  datatype Output = Output(id: nat, blobs: Option<seq<seq<Byte>>>)

  function Said(outputs: seq<Output>): seq<Byte> {
    if outputs == [] then [] else
    (match outputs[0].blobs case None => [] case Some(b) => Flatten(b)) + Said(outputs[1..])
  }

  /** The server answers each post of the run with the next output; a send refused with bytes pending posts nothing. */
  ghost predicate Answers(s: Session, es: seq<Event>, outputs: seq<Output>)
    decreases |es|
  {
    if es == [] then outputs == []
    else if es[0].Recv? || s.pending != [] then Answers(Next(s, es[0]), es[1..], outputs)
    else
      && outputs != [] && outputs[0].id < U31
      && es[0].reply == FormatResponse(outputs[0].id, outputs[0].blobs)
      && Answers(Next(s, es[0]), es[1..], outputs[1..])
  }

  lemma {:induction false} AcceptsOutputs(s: Session, es: seq<Event>, outputs: seq<Output>)
    requires Answers(s, es, outputs)
    ensures Accepted(s, es) == Said(outputs)
    decreases |es|
  {
    hide SendStep, FormatResponse;
    if es != [] {
      if es[0].Recv? || s.pending != [] {
        AcceptsOutputs(Next(s, es[0]), es[1..], outputs);
        assert [] + Said(outputs) == Said(outputs);
      } else {
        OutputAccepted(s, es[0].len, outputs[0]);
        AcceptsOutputs(Next(s, es[0]), es[1..], outputs[1..]);
      }
    }
  }

  lemma OutputAccepted(s: Session, len: nat, o: Output)
    requires s.pending == [] && o.id < U31
    ensures SendStep(s, len, FormatResponse(o.id, o.blobs)).0.pending ==
              match o.blobs case None => [] case Some(b) => Flatten(b)
  {
    if o.blobs.Some? {
      ServerReply(s, len, o.id, o.blobs.value);
    }
  }

  /**
   * End to end: what TLS has read, and what it can still read, is what the enclave said, byte for byte and in order.
   */
  lemma ReadsWhatWasSaid(s: Session, es: seq<Event>, outputs: seq<Output>)
    requires s.pending == [] && Answers(s, es, outputs)
    ensures Delivered(s, es) + Final(s, es).pending == Said(outputs)
  {
    Conservation(s, es);
    AcceptsOutputs(s, es, outputs);
    assert [] + Said(outputs) == Said(outputs);
  }
}
