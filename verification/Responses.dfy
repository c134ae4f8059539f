/**
 * The text of a runtime-manager response: a session id and base64 blobs separated by spaces, as the server formats it
 * (veracruz-server/src/server.rs), and its two readers: the microcontroller client, in place in its receive buffer
 * (veracruz-mcu-client/vc.c), and the Rust client (veracruz-client/src/veracruz_client.rs).
 */
module Responses {
  import opened Common
  import opened Base64

  const SPACE: Byte := 32
  const PLUS: Byte := 43

  predicate IsWhitespace(c: Byte) {
    c == SPACE || 9 <= c <= 13
  }

  predicate NoWhitespace(t: seq<Byte>) {
    forall k :: 0 <= k < |t| ==> !IsWhitespace(t[k])
  }

  // ---------------------------------------------------------------------------
  // Numbers.
  // ---------------------------------------------------------------------------

  function Decimal(n: nat): (r: seq<Byte>)
    ensures r != []
  {
    if n < 10 then [48 + n] else Decimal(n / 10) + [48 + n % 10]
  }

  /** The length of the leading run of digits. */
  function DigitRun(t: seq<Byte>): (k: nat)
    ensures k <= |t|
  {
    if t == [] || !IsDigit(t[0]) then 0 else 1 + DigitRun(t[1..])
  }

  function Value(digits: seq<Byte>): nat {
    if digits == [] then 0 else
    var d := digits[|digits| - 1];
    10 * Value(digits[..|digits| - 1]) + if IsDigit(d) then d - 48 else 0
  }

  lemma {:induction false} DecimalValue(n: nat)
    ensures Value(Decimal(n)) == n && forall k :: 0 <= k < |Decimal(n)| ==> IsDigit(Decimal(n)[k])
  {
    if n >= 10 {
      DecimalValue(n / 10);
      var d := Decimal(n);
      assert d[..|d| - 1] == Decimal(n / 10);
    } else {
      assert Decimal(n)[..0] == [];
    }
  }

  lemma {:induction false} DigitRunOf(d: seq<Byte>, rest: seq<Byte>)
    requires forall k :: 0 <= k < |d| ==> IsDigit(d[k])
    requires rest == [] || !IsDigit(rest[0])
    ensures DigitRun(d + rest) == |d|
  {
    if d == [] {
      assert d + rest == rest;
    } else {
      assert (d + rest)[1..] == d[1..] + rest;
      DigitRunOf(d[1..], rest);
    }
  }

  // ---------------------------------------------------------------------------
  // The server.
  // ---------------------------------------------------------------------------

  function JoinBlobs(blobs: seq<seq<Byte>>): seq<Byte> {
    if blobs == [] then []
    else if |blobs| == 1 then Encode(blobs[0])
    else Encode(blobs[0]) + [SPACE] + JoinBlobs(blobs[1..])
  }

  /** The response to a request: empty when the enclave had nothing to say. */
  function FormatResponse(id: nat, output: Option<seq<seq<Byte>>>): seq<Byte> {
    match output
    case None => []
    case Some(blobs) => Decimal(id) + [SPACE] + JoinBlobs(blobs)
  }

  // ---------------------------------------------------------------------------
  // The microcontroller client: what it parses.
  // ---------------------------------------------------------------------------

  /** The token up to the next space. */
  function TokenLen(t: seq<Byte>): (k: nat)
    ensures k <= |t| && (k < |t| ==> t[k] == SPACE) && forall j :: 0 <= j < k ==> t[j] != SPACE
  {
    if t == [] || t[0] == SPACE then 0 else 1 + TokenLen(t[1..])
  }

  /** The text after a token and at most one space. */
  function AfterToken(t: seq<Byte>): (r: seq<Byte>)
    ensures t != [] ==> |r| < |t|
  {
    var k := TokenLen(t);
    if k < |t| then t[k + 1..] else []
  }

  datatype Parsed = Bytes(b: seq<Byte>) | Failed(e: Code)

  /** The blobs of a response body, decoded and concatenated. */
  function ParseBlobs(t: seq<Byte>): (p: Parsed)
    ensures p.Failed? ==> !p.e.Len?
    decreases |t|
  {
    if t == [] then Bytes([]) else
    var token := t[..TokenLen(t)];
    if |token| % 4 != 0 then Failed(EInval)
    else if Padding(token) > 3 * (|token| / 4) then Failed(EOverflow)
    else if !AllCodes(token) then Failed(EIlSeq)
    else
      match ParseBlobs(AfterToken(t))
      case Bytes(b) => Bytes(Decode(token) + b)
      case Failed(e) => Failed(e)
  }

  /** The tokens `base64_decode` accepts, up to the first it does not, have their padding at the end. */
  ghost predicate TokensPadded(t: seq<Byte>)
    decreases |t|
  {
    t == [] ||
    (var token := t[..TokenLen(t)];
     Decodable(token) ==> WellPadded(token) && TokensPadded(AfterToken(t)))
  }

  /** Whole groups of valid characters with no more padding than bytes. */
  predicate Decodable(token: seq<Byte>) {
    |token| % 4 == 0 && Padding(token) <= 3 * (|token| / 4) && AllCodes(token)
  }

  // ---------------------------------------------------------------------------
  // Formatting and parsing agree.
  // ---------------------------------------------------------------------------

  lemma {:induction false} TokenOf(d: seq<Byte>, rest: seq<Byte>)
    requires NoWhitespace(d)
    requires rest == [] || rest[0] == SPACE
    ensures TokenLen(d + rest) == |d|
  {
    if d == [] {
      assert d + rest == rest;
    } else {
      assert (d + rest)[1..] == d[1..] + rest;
      TokenOf(d[1..], rest);
    }
  }

  lemma EncodedToken(b: seq<Byte>)
    ensures NoWhitespace(Encode(b)) && NUL !in Encode(b)
    ensures Decodable(Encode(b)) && WellPadded(Encode(b))
  {
    EncodeIsText(b);
    DecodeSizeIs(Encode(b));
    hide Encode, Padding, DecodeSize, Decode;
  }

  /** One encoded blob in front of what follows its space. */
  lemma ParseOne(b: seq<Byte>, more: bool, rest: seq<Byte>)
    requires more || rest == []
    requires ParseBlobs(rest).Bytes? && TokensPadded(rest)
    ensures var t := Encode(b) + (if more then [SPACE] + rest else []);
            ParseBlobs(t) == Bytes(b + ParseBlobs(rest).b) && TokensPadded(t)
  {
    var e := Encode(b);
    EncodedToken(b);
    RoundTrip(b);
    hide Encode, Decode, WellPadded, AllCodes, Padding;
    var tail := if more then [SPACE] + rest else [];
    var t := e + tail;
    TokenOf(e, tail);
    if t == [] {
      DecodeNothing();
      assert b == [] && b + [] == [];
    } else {
      assert t[..|e|] == e && AfterToken(t) == rest;
    }
  }

  lemma DecodeNothing()
    ensures Decode([]) == []
  {
  }

  lemma {:induction false} BodyHasNoNul(blobs: seq<seq<Byte>>)
    ensures NUL !in JoinBlobs(blobs)
    decreases |blobs|
  {
    if blobs != [] {
      BodyHasNoNul(blobs[1..]);
      EncodedToken(blobs[0]);
      hide Encode, WellPadded, AllCodes, Padding;
    }
  }

  lemma EmptyBody()
    ensures ParseBlobs([]) == Bytes([]) && TokensPadded([]) && Flatten<Byte>([]) == []
  {
  }

  lemma JoinStep(blobs: seq<seq<Byte>>)
    requires blobs != []
    ensures JoinBlobs(blobs) == Encode(blobs[0]) + if |blobs| > 1 then [SPACE] + JoinBlobs(blobs[1..]) else []
    ensures Flatten(blobs) == blobs[0] + Flatten(blobs[1..])
  {
    hide Encode;
    var e := Encode(blobs[0]);
    if |blobs| == 1 {
      assert e + [] == e;
    } else {
      var j := JoinBlobs(blobs[1..]);
      assert e + [SPACE] + j == e + ([SPACE] + j);
    }
  }

  /** The body the server joins parses to the concatenation of the blobs, empty blobs included. */
  lemma {:induction false} BlobsRoundTrip(blobs: seq<seq<Byte>>)
    ensures ParseBlobs(JoinBlobs(blobs)) == Bytes(Flatten(blobs)) && TokensPadded(JoinBlobs(blobs))
    decreases |blobs|
  {
    hide Encode, ParseBlobs, TokensPadded, Flatten;
    if blobs == [] {
      EmptyBody();
    } else {
      JoinStep(blobs);
      var rest := JoinBlobs(blobs[1..]);
      BlobsRoundTrip(blobs[1..]);
      assert |blobs| > 1 || rest == [];
      hide JoinBlobs;
      ParseOne(blobs[0], |blobs| > 1, rest);
    }
  }
}
