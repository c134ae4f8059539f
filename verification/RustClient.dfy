/** The Rust client's side of the tunnel (veracruz-client/src/veracruz_client.rs): the connection given to TLS. */
module RustClient {
  import opened Common
  import opened Base64
  import opened Responses

  // ---------------------------------------------------------------------------
  // Words and numbers.
  // ---------------------------------------------------------------------------

  function WordLen(t: seq<Byte>): (k: nat)
    ensures k <= |t| && NoWhitespace(t[..k]) && (k < |t| ==> IsWhitespace(t[k]))
  {
    if t == [] || IsWhitespace(t[0]) then 0
    else
      var k := WordLen(t[1..]);
      assert t[..k + 1] == [t[0]] + t[1..][..k];
      k + 1
  }

  /** `split_whitespace`: the maximal words, none of them empty. */
  function Words(t: seq<Byte>): (ws: seq<seq<Byte>>)
    ensures forall k :: 0 <= k < |ws| ==> ws[k] != [] && NoWhitespace(ws[k])
    decreases |t|
  {
    if t == [] then []
    else if IsWhitespace(t[0]) then Words(t[1..])
    else
      var k := WordLen(t);
      assert k > 0;
      [t[..k]] + Words(t[k..])
  }

  /** `parse::<u32>`: digits after an optional plus sign, below 2^32. */
  function ParseU32(w: seq<Byte>): (r: Option<nat>)
    ensures r.Some? ==> r.value < U32
  {
    var digits := if w != [] && w[0] == PLUS then w[1..] else w;
    if digits != [] && DigitRun(digits) == |digits| && Value(digits) < U32 then Some(Value(digits)) else None
  }

  // ---------------------------------------------------------------------------
  // The connection.
  // ---------------------------------------------------------------------------

  /** What the base64 crate promises: text produced by the standard encoding decodes to the bytes it encodes. */
  ghost predicate Standard(decode: seq<Byte> -> Option<seq<Byte>>) {
    forall b: seq<Byte> :: decode(Encode(b)) == Some(b)
  }

  /** The decoder of the microcontroller client keeps that promise. */
  lemma DecodeIsStandard()
    ensures Standard((t: seq<Byte>) => Some(Decode(t)))
  {
    hide Encode, Decode;
    var decode := (t: seq<Byte>) => Some(Decode(t));
    forall b: seq<Byte> ensures decode(Encode(b)) == Some(b) {
      RoundTrip(b);
    }
  }

  datatype Connection = Connection(sessionId: Option<nat>, readBuffer: seq<Byte>)

  datatype Outcome = Wrote(n: nat) | BadSessionId | BadBase64

  /** The bytes of the items up to the first one that does not decode, and whether all did. */
  function DecodeAll(decode: seq<Byte> -> Option<seq<Byte>>, items: seq<seq<Byte>>): (seq<Byte>, bool) {
    if items == [] then ([], true)
    else
      match decode(items[0])
      case None => ([], false)
      case Some(b) =>
        var (rest, ok) := DecodeAll(decode, items[1..]);
        (b + rest, ok)
  }

  /** `write` of `len` bytes whose POST is answered with `body`. */
  function WriteStep(decode: seq<Byte> -> Option<seq<Byte>>, c: Connection, len: nat, body: seq<Byte>)
    : (Connection, Outcome)
  {
    var items := Words(body);
    if items == [] then (c, Wrote(len)) else
    match ParseU32(items[0])
    case None => (c, BadSessionId)
    case Some(id) =>
      var (data, ok) := DecodeAll(decode, items[1..]);
      (Connection(Some(id), c.readBuffer + data), if ok then Wrote(len) else BadBase64)
  }

  /** `read` into a buffer of `n` bytes: what is left and what is handed out. */
  function ReadStep(c: Connection, n: nat): (Connection, seq<Byte>) {
    var k := Min(n, |c.readBuffer|);
    (c.(readBuffer := c.readBuffer[k..]), c.readBuffer[..k])
  }

  class InsecureConnection {
    var readBuffer: seq<Byte>
    var sessionId: Option<nat>
    const decode: seq<Byte> -> Option<seq<Byte>>

    ghost function State(): Connection
      reads this
    {
      Connection(sessionId, readBuffer)
    }

    constructor (decode: seq<Byte> -> Option<seq<Byte>>)
      ensures this.decode == decode && State() == Connection(None, [])
    {
      this.decode := decode;
      readBuffer, sessionId := [], None;
    }

    method Read(data: array<Byte>) returns (n: nat)
      modifies this, data
      ensures State() == ReadStep(old(State()), data.Length).0
      ensures n <= data.Length && data[..n] == ReadStep(old(State()), data.Length).1
      ensures data[n..] == old(data[n..])
    {
      n := Min(data.Length, |readBuffer|);
      forall k | 0 <= k < n {
        data[k] := readBuffer[k];
      }
      readBuffer := readBuffer[n..];
    }

    method Write(len: nat, body: seq<Byte>) returns (r: Outcome)
      modifies this
      ensures (State(), r) == WriteStep(decode, old(State()), len, body)
    {
      hide Words, ParseU32;
      var items := Words(body);
      if items != [] {
        var id := ParseU32(items[0]);
        if id.None? {
          return BadSessionId;
        }
        sessionId := id;
        var i := 1;
        assert readBuffer + DecodeAll(decode, items[1..]).0 == old(readBuffer) + DecodeAll(decode, items[1..]).0;
        while i < |items|
          invariant 1 <= i <= |items| && sessionId == id
          invariant readBuffer + DecodeAll(decode, items[i..]).0 == old(readBuffer) + DecodeAll(decode, items[1..]).0
          invariant DecodeAll(decode, items[i..]).1 == DecodeAll(decode, items[1..]).1
        {
          assert items[i..][1..] == items[i + 1..];
          var item := decode(items[i]);
          if item.None? {
            assert readBuffer + [] == readBuffer;
            return BadBase64;
          }
          ghost var rest := DecodeAll(decode, items[i + 1..]).0;
          assert readBuffer + (item.value + rest) == readBuffer + item.value + rest;
          readBuffer := readBuffer + item.value;
          i := i + 1;
        }
        assert readBuffer + [] == readBuffer;
      }
      return Wrote(len);
    }
  }

  // ---------------------------------------------------------------------------
  // The server's response.
  // ---------------------------------------------------------------------------

  lemma {:induction false} WordLenOf(w: seq<Byte>, rest: seq<Byte>)
    requires NoWhitespace(w) && (rest == [] || IsWhitespace(rest[0]))
    ensures WordLen(w + rest) == |w|
  {
    if w == [] {
      assert w + rest == rest;
    } else {
      assert (w + rest)[1..] == w[1..] + rest;
      assert (w + rest)[0] == w[0];
      WordLenOf(w[1..], rest);
    }
  }

  lemma WordsOf(w: seq<Byte>, rest: seq<Byte>)
    requires NoWhitespace(w) && (rest == [] || IsWhitespace(rest[0]))
    ensures Words(w + rest) == (if w == [] then [] else [w]) + Words(rest)
  {
    hide WordLen;
    if w == [] {
      assert w + rest == rest && [] + Words(rest) == Words(rest);
    } else {
      var t := w + rest;
      WordLenOf(w, rest);
      assert t[0] == w[0] && t[..|w|] == w && t[|w|..] == rest;
    }
  }

  lemma WordsAfterSpace(t: seq<Byte>)
    ensures Words([SPACE] + t) == Words(t)
  {
    assert ([SPACE] + t)[1..] == t;
  }

  /** Empty blobs vanish from the words and add nothing to the bytes; every other blob decodes to itself. */
  lemma {:induction false} BodyDecodes(decode: seq<Byte> -> Option<seq<Byte>>, blobs: seq<seq<Byte>>)
    requires Standard(decode)
    ensures DecodeAll(decode, Words(JoinBlobs(blobs))) == (Flatten(blobs), true)
    decreases |blobs|
  {
    hide Encode, Words;
    if blobs == [] {
      NoWords();
    } else {
      var b, rest := blobs[0], JoinBlobs(blobs[1..]);
      var e := Encode(b);
      JoinStep(blobs);
      BodyDecodes(decode, blobs[1..]);
      EncodedToken(b);
      WordsAfterSpace(rest);
      var tail := if |blobs| > 1 then [SPACE] + rest else [];
      assert Words(tail) == Words(rest);
      WordsOf(e, tail);
      DecodeStep(decode, e, b, Words(rest));
    }
  }

  lemma NoWords()
    ensures Words([]) == []
  {
  }

  lemma DecodeStep(decode: seq<Byte> -> Option<seq<Byte>>, e: seq<Byte>, b: seq<Byte>, rest: seq<seq<Byte>>)
    requires decode(e) == Some(b) && (e == [] ==> b == [])
    ensures var (more, ok) := DecodeAll(decode, rest);
            DecodeAll(decode, (if e == [] then [] else [e]) + rest) == (b + more, ok)
  {
    var (more, ok) := DecodeAll(decode, rest);
    if e == [] {
      assert [] + rest == rest && b + more == more;
    } else {
      assert ([e] + rest)[1..] == rest;
    }
  }

  lemma IdParses(id: nat)
    requires id < U32
    ensures NoWhitespace(Decimal(id)) && ParseU32(Decimal(id)) == Some(id)
  {
    hide Decimal, Value;
    var d := Decimal(id);
    DecimalValue(id);
    DigitRunOf(d, []);
    assert d + [] == d && IsDigit(d[0]);
  }

  /** A formatted response sets the session id and appends the concatenation of the blobs. */
  lemma ServerReply(decode: seq<Byte> -> Option<seq<Byte>>, c: Connection, len: nat, id: nat, blobs: seq<seq<Byte>>)
    requires Standard(decode) && id < U32
    ensures WriteStep(decode, c, len, FormatResponse(id, Some(blobs)))
         == (Connection(Some(id), c.readBuffer + Flatten(blobs)), Wrote(len))
  {
    hide Decimal, JoinBlobs, Words, DecodeAll, ParseU32, Flatten;
    var d, body := Decimal(id), JoinBlobs(blobs);
    IdParses(id);
    BodyDecodes(decode, blobs);
    WordsAfterSpace(body);
    WordsOf(d, [SPACE] + body);
    assert d + [SPACE] + body == d + ([SPACE] + body);
    assert ([d] + Words(body))[1..] == Words(body);
  }

  // ---------------------------------------------------------------------------
  // Runs of writes and reads.
  // ---------------------------------------------------------------------------

  datatype Event = Write(len: nat, body: seq<Byte>) | Read(n: nat)

  function Next(decode: seq<Byte> -> Option<seq<Byte>>, c: Connection, e: Event): Connection {
    match e
    case Write(len, body) => WriteStep(decode, c, len, body).0
    case Read(n) => ReadStep(c, n).0
  }

  function Final(decode: seq<Byte> -> Option<seq<Byte>>, c: Connection, es: seq<Event>): Connection
    decreases |es|
  {
    if es == [] then c else Final(decode, Next(decode, c, es[0]), es[1..])
  }

  /** The bytes handed to TLS. */
  function Delivered(decode: seq<Byte> -> Option<seq<Byte>>, c: Connection, es: seq<Event>): seq<Byte>
    decreases |es|
  {
    if es == [] then [] else
    (if es[0].Read? then ReadStep(c, es[0].n).1 else []) + Delivered(decode, Next(decode, c, es[0]), es[1..])
  }

  /** The bytes of the blobs of every response. */
  function Said(es: seq<Event>, outputs: seq<Option<seq<seq<Byte>>>>): seq<Byte>
    requires |outputs| == |es|
    decreases |es|
  {
    if es == [] then [] else
    (if es[0].Write? && outputs[0].Some? then Flatten(outputs[0].value) else []) + Said(es[1..], outputs[1..])
  }

  /** Every write of the run is answered with a formatted response. */
  ghost predicate Answers(es: seq<Event>, ids: seq<nat>, outputs: seq<Option<seq<seq<Byte>>>>) {
    && |ids| == |outputs| == |es|
    && forall k :: 0 <= k < |es| && es[k].Write? ==> ids[k] < U32 && es[k].body == FormatResponse(ids[k], outputs[k])
  }

  lemma WriteAppends(decode: seq<Byte> -> Option<seq<Byte>>, c: Connection, len: nat, id: nat,
                     output: Option<seq<seq<Byte>>>)
    requires Standard(decode) && id < U32
    ensures WriteStep(decode, c, len, FormatResponse(id, output)).0.readBuffer
         == c.readBuffer + if output.Some? then Flatten(output.value) else []
  {
    match output
    case None =>
      hide WordLen;
      NoWords();
      assert c.readBuffer + [] == c.readBuffer;
    case Some(blobs) => ServerReply(decode, c, len, id, blobs);
  }

  /**
   * End to end: what TLS has read, and what it can still read, is what the enclave said, byte for byte and in order.
   */
  lemma {:induction false} ReadsWhatWasSaid(decode: seq<Byte> -> Option<seq<Byte>>, c: Connection, es: seq<Event>,
                                            ids: seq<nat>, outputs: seq<Option<seq<seq<Byte>>>>)
    requires Standard(decode) && Answers(es, ids, outputs)
    ensures Delivered(decode, c, es) + Final(decode, c, es).readBuffer == c.readBuffer + Said(es, outputs)
    decreases |es|
  {
    hide WriteStep, FormatResponse, Flatten, Standard;
    if es == [] {
      assert [] + c.readBuffer == c.readBuffer && c.readBuffer + [] == c.readBuffer;
    } else {
      var u := Next(decode, c, es[0]);
      assert Answers(es[1..], ids[1..], outputs[1..]);
      ReadsWhatWasSaid(decode, u, es[1..], ids[1..], outputs[1..]);
      var d, f, a := Delivered(decode, u, es[1..]), Final(decode, u, es[1..]).readBuffer, Said(es[1..], outputs[1..]);
      var x := if es[0].Read? then ReadStep(c, es[0].n).1 else [];
      var y := if es[0].Write? && outputs[0].Some? then Flatten(outputs[0].value) else [];
      if es[0].Write? {
        WriteAppends(decode, c, es[0].len, ids[0], outputs[0]);
        assert u.readBuffer == c.readBuffer + y;
      }
      assert x + u.readBuffer == c.readBuffer + y;
      Regroup(x, d, f, u.readBuffer, a, c.readBuffer, y);
    }
  }

  lemma Regroup(x: seq<Byte>, d: seq<Byte>, f: seq<Byte>, u: seq<Byte>, a: seq<Byte>, c: seq<Byte>, y: seq<Byte>)
    requires d + f == u + a && x + u == c + y
    ensures (x + d) + f == c + (y + a)
  {
    assert (x + d) + f == x + (d + f);
    assert x + (u + a) == (x + u) + a;
    assert (c + y) + a == c + (y + a);
  }
}
