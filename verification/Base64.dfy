/**
 * Base64 (section 4 of RFC 4648) as the microcontroller client computes it: the encoder runs back to front and the
 * decoder front to back, so each may work in place (veracruz-mcu-client/base64.c).
 */
module Base64 {
  import opened Common

  type Sextet = v: int | 0 <= v < 64

  /** A C return value: a length or a negative error code. */
  datatype Code = Len(n: nat) | EOverflow | EInval | EIlSeq | EBusy

  const PAD: Byte := 61
  const NUL: Byte := 0

  /** The table `BASE64_ENCODE`. */
  function EncodeChar(v: Sextet): (c: Byte)
    ensures IsCode(c) && c != PAD && DecodeChar(c) == v
  {
    if v < 26 then 65 + v else if v < 52 then 71 + v else if v < 62 then v - 4 else if v == 62 then 43 else 47
  }

  /** The table `BASE64_DECODE`; `=` is valid but has no value. */
  function DecodeChar(c: Byte): int {
    if 65 <= c <= 90 then c - 65 else if 97 <= c <= 122 then c - 71 else if 48 <= c <= 57 then c + 4
    else if c == 43 then 62 else if c == 47 then 63 else -1
  }

  /** `base64_isvalid`. */
  predicate IsCode(c: Byte) {
    48 <= c <= 57 || 65 <= c <= 90 || 97 <= c <= 122 || c == 43 || c == 47 || c == PAD
  }

  predicate AllCodes(t: seq<Byte>) {
    forall k :: 0 <= k < |t| ==> IsCode(t[k])
  }

  /** The 24 bits of a group, missing bytes being zero. */
  function Word(g: seq<Byte>): (v: int)
    requires 1 <= |g| <= 3
    ensures 0 <= v < 0x100_0000
  {
    65536 * (g[0] as int) + (if |g| > 1 then 256 * (g[1] as int) else 0) + (if |g| > 2 then g[2] as int else 0)
  }

  /** One group of one to three bytes. */
  function EncodeGroup(g: seq<Byte>): (r: seq<Byte>)
    requires 1 <= |g| <= 3
    ensures |r| == 4
  {
    var v := Word(g);
    [EncodeChar(v / 262144), EncodeChar(v / 4096 % 64),
     if |g| > 1 then EncodeChar(v / 64 % 64) else PAD,
     if |g| > 2 then EncodeChar(v % 64) else PAD]
  }

  function Encode(s: seq<Byte>): (r: seq<Byte>)
    ensures |r| == EncodeSize(|s|)
  {
    if s == [] then [] else
    var n := Min(3, |s|);
    SizeStep(|s|);
    EncodeGroup(s[..n]) + Encode(s[n..])
  }

  lemma SizeStep(n: nat)
    requires n > 0
    ensures EncodeSize(n) == 4 + EncodeSize(n - Min(3, n))
  {
  }

  /** `base64_encode_size`. */
  function EncodeSize(n: nat): nat {
    4 * ((n + 2) / 3)
  }

  function DecodeWord(g: seq<Byte>): int
    requires |g| == 4
  {
    262144 * DecodeChar(g[0]) + 4096 * DecodeChar(g[1])
    + (if g[2] == PAD then 0 else 64 * DecodeChar(g[2])) + (if g[3] == PAD then 0 else DecodeChar(g[3]))
  }

  function DecodeGroup(g: seq<Byte>): (r: seq<Byte>)
    requires |g| == 4
  {
    var v := DecodeWord(g);
    [v / 65536 % 256] + (if g[2] == PAD then [] else [v / 256 % 256]) + (if g[3] == PAD then [] else [v % 256])
  }

  function Decode(t: seq<Byte>): seq<Byte> {
    if |t| < 4 then [] else DecodeGroup(t[..4]) + Decode(t[4..])
  }

  /** Padding only at the end: `=` in the last place, or in the last two. */
  ghost predicate WellPadded(t: seq<Byte>) {
    && (forall k :: 0 <= k < |t| - 2 ==> t[k] != PAD)
    && (|t| >= 2 && t[|t| - 2] == PAD ==> t[|t| - 1] == PAD)
  }

  function Padding(t: seq<Byte>): nat {
    if t == [] || t[|t| - 1] != PAD then 0 else 1 + Padding(t[..|t| - 1])
  }

  // ---------------------------------------------------------------------------
  // The round trip.
  // ---------------------------------------------------------------------------

  lemma Sextets(v: int)
    requires 0 <= v < 0x100_0000
    ensures 262144 * (v / 262144) + 4096 * (v / 4096 % 64) + 64 * (v / 64 % 64) + v % 64 == v
  {
    assert v == 64 * (v / 64) + v % 64;
    assert v / 64 / 64 == v / 4096 && v / 4096 / 64 == v / 262144;
  }

  lemma Bytes(a: Byte, b: Byte, c: Byte)
    ensures var v := 65536 * (a as int) + 256 * (b as int) + c;
            v / 65536 % 256 == a && v / 256 % 256 == b && v % 256 == c
  {
  }

  lemma ShortWords(a: Byte, b: Byte)
    ensures (65536 * (a as int) + 256 * (b as int)) % 64 == 0
    ensures 65536 * (a as int) / 64 % 64 == 0 && 65536 * (a as int) % 64 == 0
  {
    assert 65536 * (a as int) + 256 * (b as int) == 64 * (1024 * (a as int) + 4 * (b as int));
    assert 65536 * (a as int) / 64 == 64 * (16 * (a as int));
  }

  /** The missing sextets of a short group are zero, so leaving them out loses nothing. */
  lemma WordRoundTrip(g: seq<Byte>)
    requires 1 <= |g| <= 3
    ensures DecodeWord(EncodeGroup(g)) == Word(g)
    ensures EncodeGroup(g)[2] == PAD <==> |g| == 1
    ensures EncodeGroup(g)[3] == PAD <==> |g| <= 2
  {
    var v := Word(g);
    ShortWords(g[0], if |g| > 1 then g[1] else 0);
    assert (|g| <= 2 ==> v % 64 == 0) && (|g| == 1 ==> v / 64 % 64 == 0);
    hide Word, DecodeChar, EncodeChar;
    Sextets(v);
  }

  lemma GroupRoundTrip(g: seq<Byte>)
    requires 1 <= |g| <= 3
    ensures DecodeGroup(EncodeGroup(g)) == g
  {
    WordRoundTrip(g);
    hide EncodeGroup, DecodeWord;
    Bytes(g[0], if |g| > 1 then g[1] else 0, if |g| > 2 then g[2] else 0);
  }

  /** Decoding undoes encoding. */
  lemma {:induction false} RoundTrip(s: seq<Byte>)
    ensures Decode(Encode(s)) == s
    decreases |s|
  {
    hide EncodeGroup, DecodeGroup;
    if s != [] {
      var n := Min(3, |s|);
      var g := EncodeGroup(s[..n]);
      assert (g + Encode(s[n..]))[..4] == g && (g + Encode(s[n..]))[4..] == Encode(s[n..]);
      GroupRoundTrip(s[..n]);
      RoundTrip(s[n..]);
      assert s == s[..n] + s[n..];
    }
  }

  /** A group is four valid characters, padded only if it is short. */
  lemma GroupIsText(g: seq<Byte>)
    requires 1 <= |g| <= 3
    ensures var t := EncodeGroup(g);
            && AllCodes(t) && t[0] != PAD && t[1] != PAD && (t[2] == PAD ==> t[3] == PAD)
            && (|g| == 3 ==> t[2] != PAD && t[3] != PAD)
  {
    hide Word;
    var v := Word(g);
    hide DecodeChar;
  }

  /** What the encoder emits: valid, well-padded text of whole groups. */
  lemma {:induction false} EncodeIsText(s: seq<Byte>)
    ensures var t := Encode(s); |t| % 4 == 0 && WellPadded(t) && AllCodes(t)
    decreases |s|
  {
    hide EncodeGroup, EncodeSize;
    if s != [] {
      var n := Min(3, |s|);
      var g, t := EncodeGroup(s[..n]), Encode(s[n..]);
      GroupIsText(s[..n]);
      EncodeIsText(s[n..]);
      if n < 3 {
        assert s[n..] == [] && g + t == g;
      } else {
        hide Encode, IsCode, WellPadded, AllCodes;
        GroupThenText(g, t);
      }
    }
  }

  lemma GroupThenText(g: seq<Byte>, t: seq<Byte>)
    requires |g| == 4 && PAD !in g && AllCodes(g) && |t| % 4 == 0 && WellPadded(t) && AllCodes(t)
    ensures |g + t| % 4 == 0 && WellPadded(g + t) && AllCodes(g + t)
  {
    hide IsCode;
    var u := g + t;
    forall k | 0 <= k < |u| - 2 ensures u[k] != PAD {
      if k >= 4 {
        assert u[k] == t[k - 4];
      }
    }
    if t != [] {
      assert |t| >= 4 && u[|u| - 1] == t[|t| - 1] && u[|u| - 2] == t[|t| - 2];
    }
  }

  // ---------------------------------------------------------------------------
  // In place.
  // ---------------------------------------------------------------------------

  lemma EncodeFrom(s: seq<Byte>, b: nat, n: nat)
    requires b < |s| && n == Min(3, |s| - b)
    ensures Encode(s[b..]) == EncodeGroup(s[b..b + n]) + Encode(s[b + n..])
  {
    assert s[b..][..n] == s[b..b + n] && s[b..][n..] == s[b + n..];
  }

  /** `b` is `a` with `g` written at `at`. */
  ghost predicate Written(a: seq<Byte>, b: seq<Byte>, at: nat, g: seq<Byte>) {
    && |b| == |a| && at + |g| <= |a|
    && b[at..at + |g|] == g
    && forall k :: 0 <= k < |a| && !(at <= k < at + |g|) ==> b[k] == a[k]
  }

  lemma WordValue(g: seq<Byte>)
    requires 1 <= |g| <= 3
    ensures Word(g) == 65536 * (g[0] as int) + 256 * (if |g| > 1 then g[1] as int else 0)
                       + (if |g| > 2 then g[2] as int else 0)
  {
  }

  /** The body of the encoding loop: all `n` bytes are read before the first of the four characters is written. */
  method EncodeOne(input: array<Byte>, from: nat, n: nat, output: array<Byte>, at: nat)
    requires 1 <= n <= 3 && from + n <= input.Length && at + 4 <= output.Length
    modifies output
    ensures Written(old(output[..]), output[..], at, EncodeGroup(old(input[..])[from..from + n]))
  {
    hide EncodeChar, Word;
    ghost var g := input[..][from..from + n];
    WordValue(g);
    var v := input[from] as int;
    v := if n > 1 then 256 * v + input[from + 1] else 256 * v;
    v := if n > 2 then 256 * v + input[from + 2] else 256 * v;
    assert v == Word(g);
    output[at] := EncodeChar(v / 262144);
    output[at + 1] := EncodeChar(v / 4096 % 64);
    if n > 1 {
      output[at + 2] := EncodeChar(v / 64 % 64);
    } else {
      output[at + 2] := PAD;
    }
    if n > 2 {
      output[at + 3] := EncodeChar(v % 64);
    } else {
      output[at + 3] := PAD;
    }
    assert output[..][at..at + 4] == EncodeGroup(g);
  }

  lemma SameSlice(a: seq<Byte>, off: nat, src: seq<Byte>, lo: nat, hi: nat)
    requires lo <= hi <= |src| && off + hi <= |a|
    requires forall k :: lo <= k < hi ==> a[off + k] == src[k]
    ensures a[off + lo..off + hi] == src[lo..hi]
  {
  }

  lemma GrownFront(a: seq<Byte>, b: seq<Byte>, at: nat, end: nat)
    requires |a| == |b| && at + 4 <= end <= |a|
    requires forall k :: at + 4 <= k < end ==> b[k] == a[k]
    ensures b[at..end] == b[at..at + 4] + a[at + 4..end]
  {
  }

  /** What holds of the output when groups `q` and later are encoded. */
  ghost predicate EncodedFrom(out: seq<Byte>, before: seq<Byte>, outOff: nat, src: seq<Byte>, q: nat, groups: nat) {
    && q <= groups && outOff + 4 * groups < |out| && |out| == |before|
    && out[outOff + 4 * q..outOff + 4 * groups] == Encode(src[Min(3 * q, |src|)..])
    && out[outOff + 4 * groups] == NUL
    && forall k :: 0 <= k < |out| && !(outOff + 4 * q <= k <= outOff + 4 * groups) ==> out[k] == before[k]
  }

  lemma EncodedOneMore(x: seq<Byte>, y: seq<Byte>, before: seq<Byte>, outOff: nat, src: seq<Byte>, q: nat, groups: nat,
                       n: nat)
    requires EncodedFrom(x, before, outOff, src, q + 1, groups) && 3 * q < |src| && n == Min(3, |src| - 3 * q)
    requires Written(x, y, outOff + 4 * q, EncodeGroup(src[3 * q..3 * q + n]))
    ensures EncodedFrom(y, before, outOff, src, q, groups)
  {
    hide Encode, EncodeGroup;
    EncodeFrom(src, 3 * q, n);
    GrownFront(x, y, outOff + 4 * q, outOff + 4 * groups);
  }

  /** The encoding loop, from the last group to the first. */
  method EncodeLoop(input: array<Byte>, inOff: nat, inLen: nat, output: array<Byte>, outOff: nat, rinLen: nat,
                    eLen: nat, ghost groups: nat, ghost src: seq<Byte>, ghost before: seq<Byte>)
    requires rinLen == 3 * groups && eLen == 4 * groups && inLen <= rinLen < inLen + 3
    requires inOff + inLen <= input.Length && outOff + eLen < output.Length && |src| == inLen
    requires input == output ==> inOff <= outOff || outOff + eLen < inOff
    requires forall k :: 0 <= k < inLen ==> input[inOff + k] == src[k]
    requires EncodedFrom(output[..], before, outOff, src, groups, groups)
    modifies output
    ensures EncodedFrom(output[..], before, outOff, src, 0, groups)
  {
    hide EncodeGroup, Encode, EncodedFrom, Written;
    var i, j := 0, 0;
    ghost var q := groups;
    while i < inLen
      invariant 0 <= q && i + 3 * q == rinLen && j + 4 * q == eLen
      invariant forall k :: 0 <= k < inLen && k < 3 * q ==> input[inOff + k] == src[k]
      invariant EncodedFrom(output[..], before, outOff, src, q, groups)
    {
      q := q - 1;
      var b := rinLen - i - 3;
      var at := outOff + eLen - j - 4;
      var n := Min(3, inLen - b);
      ghost var was := output[..];
      SameSlice(input[..], inOff, src, b, b + n);
      EncodeOne(input, inOff + b, n, output, at);
      EncodedOneMore(was, output[..], before, outOff, src, q, groups, n);
      StillUnread(was, output[..], at, EncodeGroup(src[b..b + n]));
      i, j := i + 3, j + 4;
    }
  }

  /**
   * `base64_encode`. The two regions may lie in the same array, as long as the output does not start before the input:
   * then no byte is overwritten before it has been read. The contract does not tell the aliased case from the other.
   */
  method EncodeInto(input: array<Byte>, inOff: nat, inLen: nat, output: array<Byte>, outOff: nat, outLen: nat)
    returns (r: Code)
    requires inOff + inLen <= input.Length && outOff + outLen <= output.Length
    requires input == output ==> inOff <= outOff || outOff + outLen <= inOff
    requires EncodeSize(inLen) < U32
    modifies output
    ensures if EncodeSize(inLen) + 1 > outLen then r == EOverflow && output[..] == old(output[..])
            else && r == Len(EncodeSize(inLen))
                 && Written(old(output[..]), output[..], outOff, Encode(old(input[..])[inOff..inOff + inLen]) + [NUL])
  {
    var eLen := EncodeSize(inLen);
    if eLen + 1 > outLen {
      return EOverflow;
    }
    ghost var src := input[..][inOff..inOff + inLen];
    ghost var before := output[..];
    output[outOff + eLen] := NUL;
    var rinLen := (inLen + 2) / 3 * 3;
    ghost var groups := (inLen + 2) / 3;
    assert src[Min(3 * groups, |src|)..] == [];
    EncodeLoop(input, inOff, inLen, output, outOff, rinLen, eLen, groups, src, before);
    EncodedAll(output[..], before, outOff, src, groups);
    return Len(eLen);
  }

  lemma StillUnread(a: seq<Byte>, b: seq<Byte>, at: nat, g: seq<Byte>)
    requires Written(a, b, at, g)
    ensures |b| == |a| && forall k :: 0 <= k < at <= |a| ==> b[k] == a[k]
    ensures forall k :: at + |g| <= k < |a| ==> b[k] == a[k]
  {
  }

  lemma EncodedAll(out: seq<Byte>, before: seq<Byte>, outOff: nat, src: seq<Byte>, groups: nat)
    requires EncodedFrom(out, before, outOff, src, 0, groups)
    ensures Written(before, out, outOff, Encode(src) + [NUL])
  {
    hide Encode;
    assert src[0..] == src;
    OneAfter(out, outOff, outOff + 4 * groups);
  }

  lemma OneAfter(s: seq<Byte>, i: nat, j: nat)
    requires i <= j < |s|
    ensures s[i..j + 1] == s[i..j] + [s[j]]
  {
  }

  // ---------------------------------------------------------------------------
  // The decoder.
  // ---------------------------------------------------------------------------

  /** The C string at the start of a buffer. */
  function UpToNul(s: seq<Byte>): (t: seq<Byte>)
    ensures t <= s && NUL !in t
    ensures |t| < |s| ==> s[|t|] == NUL
  {
    if s == [] || s[0] == NUL then [] else [s[0]] + UpToNul(s[1..])
  }

  /** `base64_strnlen`. */
  method StrNLen(input: array<Byte>, inOff: nat, inLen: nat) returns (n: nat)
    requires inOff + inLen <= input.Length
    ensures n == |UpToNul(input[inOff..inOff + inLen])|
  {
    ghost var s := input[inOff..inOff + inLen];
    n := 0;
    while n < inLen
      invariant n <= inLen && |UpToNul(s)| == n + |UpToNul(s[n..])|
    {
      if input[inOff + n] == NUL {
        return;
      }
      assert s[n..][1..] == s[n + 1..];
      n := n + 1;
    }
  }

  lemma PaddingIs(t: seq<Byte>)
    requires WellPadded(t) && |t| >= 3
    ensures Padding(t) == (if t[|t| - 2] == PAD then 2 else if t[|t| - 1] == PAD then 1 else 0)
  {
    var n := |t|;
    var u, v := t[..n - 1], t[..n - 2];
    assert u[n - 2] == t[n - 2] && v[n - 3] == t[n - 3] != PAD;
    assert u[..n - 2] == v;
    assert Padding(v) == 0;
    assert Padding(u) == if t[n - 2] == PAD then 1 + Padding(v) else 0;
    assert Padding(t) == if t[n - 1] == PAD then 1 + Padding(u) else 0;
  }

  /** `base64_decode_size`: three bytes per group, less one per `=` at the end. */
  lemma {:induction false} DecodeLength(t: seq<Byte>, groups: nat)
    requires |t| == 4 * groups && WellPadded(t)
    ensures |Decode(t)| == 3 * groups - Padding(t)
    decreases groups
  {
    if groups > 0 {
      PaddingIs(t);
      assert t[..4][2] == t[2] && t[..4][3] == t[3];
      hide DecodeWord;
      if groups > 1 {
        var u := t[4..];
        assert forall k :: 0 <= k < |u| ==> u[k] == t[k + 4];
        DecodeLength(u, groups - 1);
        PaddingIs(u);
        hide Padding;
      } else {
        assert t[4..] == [];
      }
    }
  }

  /** The body of the decoding loop, with the third and fourth character read again after the first write. */
  method DecodeOne(input: array<Byte>, from: nat, output: array<Byte>, at: nat)
    requires from + 4 <= input.Length
    requires input == output ==> at <= from
    requires input[from + 2] == PAD ==> input[from + 3] == PAD
    requires at + |DecodeGroup(input[..][from..from + 4])| <= output.Length
    modifies output
    ensures Written(old(output[..]), output[..], at, DecodeGroup(old(input[..])[from..from + 4]))
  {
    ghost var g := input[..][from..from + 4];
    var v := DecodeChar(input[from]);
    v := 64 * v + DecodeChar(input[from + 1]);
    v := if input[from + 2] == PAD then 64 * v else 64 * v + DecodeChar(input[from + 2]);
    v := if input[from + 3] == PAD then 64 * v else 64 * v + DecodeChar(input[from + 3]);
    assert v == DecodeWord(g);
    hide DecodeChar, DecodeWord;
    output[at] := v / 65536 % 256;
    if input[from + 2] != PAD {
      output[at + 1] := v / 256 % 256;
    }
    if input[from + 3] != PAD {
      output[at + 2] := v % 256;
    }
    assert output[..][at..at + |DecodeGroup(g)|] == DecodeGroup(g);
  }

  /** The text is made of whole groups; only its last group may be padded. */
  lemma DecodeFrom(t: seq<Byte>, q: nat, groups: nat)
    requires |t| == 4 * groups && WellPadded(t) && q < groups
    ensures Decode(t[4 * q..]) == DecodeGroup(t[4 * q..4 * q + 4]) + Decode(t[4 * q + 4..])
    ensures t[4 * q + 2] == PAD ==> t[4 * q + 3] == PAD
    ensures q + 1 < groups ==> |DecodeGroup(t[4 * q..4 * q + 4])| == 3
  {
    assert t[4 * q..][..4] == t[4 * q..4 * q + 4] && t[4 * q..][4..] == t[4 * q + 4..];
    hide DecodeWord;
  }

  /** One more group is decoded. */
  lemma DecodeNext(t: seq<Byte>, q: nat, groups: nat, done: seq<Byte>)
    requires |t| == 4 * groups && WellPadded(t) && q < groups
    requires done + Decode(t[4 * q..]) == Decode(t)
    ensures var g := DecodeGroup(t[4 * q..4 * q + 4]);
            && done + g + Decode(t[4 * q + 4..]) == Decode(t) && (q + 1 < groups ==> |g| == 3)
            && |done| + |g| <= |Decode(t)|
    ensures t[4 * q + 2] == PAD ==> t[4 * q + 3] == PAD
  {
    hide Decode, DecodeGroup, WellPadded;
    DecodeFrom(t, q, groups);
    var g, rest := DecodeGroup(t[4 * q..4 * q + 4]), Decode(t[4 * q + 4..]);
    assert done + g + rest == done + (g + rest);
  }

  lemma WrittenMore(a: seq<Byte>, b: seq<Byte>, c: seq<Byte>, at: nat, g: seq<Byte>, h: seq<Byte>)
    requires Written(a, b, at, g) && Written(b, c, at + |g|, h)
    ensures Written(a, c, at, g + h)
  {
    assert c[at..at + |g|] == b[at..at + |g|];
    assert c[at..at + |g + h|] == c[at..at + |g|] + c[at + |g|..at + |g| + |h|];
  }

  /** The text from character `i` on is still in the buffer. */
  ghost predicate Unread(a: seq<Byte>, off: nat, text: seq<Byte>, i: nat) {
    off + |text| <= |a| && forall k :: i <= k < |text| ==> a[off + k] == text[k]
  }

  lemma UnreadStep(a: seq<Byte>, b: seq<Byte>, off: nat, text: seq<Byte>, i: nat, at: nat, g: seq<Byte>)
    requires Unread(a, off, text, i) && (b == a || (Written(a, b, at, g) && at + |g| <= off + i + 4))
    ensures Unread(b, off, text, i + 4)
  {
  }

  lemma UnreadGroup(a: seq<Byte>, off: nat, text: seq<Byte>, i: nat)
    requires Unread(a, off, text, i) && i + 4 <= |text|
    ensures a[off + i..off + i + 4] == text[i..i + 4]
  {
    SameSlice(a, off, text, i, i + 4);
  }

  /** One round of the loop: a group is added to what is written, and what is behind it stays readable. */
  method DecodeRound(input: array<Byte>, inOff: nat, output: array<Byte>, outOff: nat, i: nat,
                     ghost text: seq<Byte>, ghost before: seq<Byte>, ghost done: seq<Byte>, j: nat)
    requires i + 4 <= |text| && inOff + |text| <= input.Length && |done| == j <= i
    requires input == output ==> outOff <= inOff
    requires text[i + 2] == PAD ==> text[i + 3] == PAD
    requires outOff + j + |DecodeGroup(text[i..i + 4])| <= output.Length
    requires Unread(input[..], inOff, text, i) && Written(before, output[..], outOff, done)
    modifies output
    ensures Unread(input[..], inOff, text, i + 4)
    ensures Written(before, output[..], outOff, done + DecodeGroup(text[i..i + 4]))
  {
    hide Unread, Written, DecodeWord;
    ghost var a, was := input[..], output[..];
    ghost var g := DecodeGroup(text[i..i + 4]);
    UnreadGroup(a, inOff, text, i);
    assert a[inOff + i..inOff + i + 4][2] == text[i..i + 4][2] && a[inOff + i..inOff + i + 4][3] == text[i..i + 4][3];
    DecodeOne(input, inOff + i, output, outOff + j);
    UnreadStep(a, input[..], inOff, text, i, outOff + j, g);
    WrittenMore(before, was, output[..], outOff, done, g);
  }

  /** The decoding loop, from the first group to the last. */
  method DecodeLoop(input: array<Byte>, inOff: nat, output: array<Byte>, outOff: nat, eLen: nat, ghost groups: nat,
                    ghost text: seq<Byte>)
    requires |text| == eLen == 4 * groups && WellPadded(text)
    requires inOff + eLen <= input.Length && outOff + |Decode(text)| <= output.Length
    requires input == output ==> outOff <= inOff
    requires Unread(input[..], inOff, text, 0)
    modifies output
    ensures Written(old(output[..]), output[..], outOff, Decode(text))
  {
    hide Written, DecodeGroup, Decode, WellPadded, Unread;
    ghost var before := output[..];
    ghost var done: seq<Byte>, q := [], 0;
    var i, j := 0, 0;
    assert text[0..] == text;
    WrittenNothing(before, outOff);
    while i < eLen
      invariant 0 <= q <= groups && i == 4 * q && j == 3 * q
      invariant q < groups ==> |done| == j
      invariant done + Decode(text[4 * q..]) == Decode(text)
      invariant Written(before, output[..], outOff, done)
      invariant Unread(input[..], inOff, text, i)
    {
      DecodeNext(text, q, groups, done);
      DecodeRound(input, inOff, output, outOff, i, text, before, done, j);
      done, q := done + DecodeGroup(text[i..i + 4]), q + 1;
      i, j := i + 4, j + 3;
    }
    DecodeRest(text);
    assert done + [] == done;
  }

  lemma WrittenNothing(a: seq<Byte>, at: nat)
    requires at <= |a|
    ensures Written(a, a, at, [])
  {
  }

  lemma DecodeRest(t: seq<Byte>)
    ensures Decode(t[|t|..]) == []
  {
  }

  /** `base64_decode_size`, for any text: with more padding than bytes the unsigned size wraps. */
  function DecodeSize(t: seq<Byte>): nat {
    var n := 3 * (|t| / 4) - Padding(t);
    if n >= 0 then n else n % U32
  }

  lemma DecodeSizeIs(t: seq<Byte>)
    requires |t| % 4 == 0 && WellPadded(t)
    ensures DecodeSize(t) == |Decode(t)| && Padding(t) <= 3 * (|t| / 4)
  {
    DecodeLength(t, |t| / 4);
    hide Decode, Padding, WellPadded;
  }

  /** What `base64_decode` returns for the text in its input buffer. */
  function DecodeOutcome(t: seq<Byte>, outLen: nat): Code {
    if |t| % 4 != 0 then EInval
    else if DecodeSize(t) > outLen then EOverflow
    else if !AllCodes(t) then EIlSeq
    else Len(DecodeSize(t))
  }

  lemma PaddingStep(t: seq<Byte>, n: nat)
    requires n <= |t|
    ensures Padding(t[..n]) == if n == 0 || t[n - 1] != PAD then 0 else 1 + Padding(t[..n - 1])
  {
    if n > 0 {
      assert t[..n][..n - 1] == t[..n - 1];
    }
  }

  /** `base64_decode_size`. */
  method DecodedSize(input: array<Byte>, inOff: nat, eLen: nat, ghost text: seq<Byte>) returns (x: nat)
    requires inOff + eLen <= input.Length && text == input[inOff..inOff + eLen]
    ensures x == DecodeSize(text)
  {
    hide Padding;
    var size := 3 * (eLen / 4);
    var i := 0;
    assert text[..eLen] == text;
    while i < eLen && input[inOff + eLen - i - 1] == PAD
      invariant 0 <= i <= eLen
      invariant Padding(text) == i + Padding(text[..eLen - i])
    {
      PaddingStep(text, eLen - i);
      i := i + 1;
    }
    PaddingStep(text, eLen - i);
    x := if i <= size then size - i else (size - i) % U32;
  }

  /** The loop of `base64_decode` that looks for characters outside the alphabet. */
  method Validate(input: array<Byte>, inOff: nat, eLen: nat, ghost text: seq<Byte>) returns (valid: bool)
    requires inOff + eLen <= input.Length && text == input[inOff..inOff + eLen]
    ensures valid <==> AllCodes(text)
  {
    hide IsCode;
    for i := 0 to eLen
      invariant forall k :: 0 <= k < i ==> IsCode(text[k])
    {
      if !IsCode(input[inOff + i]) {
        assert text[i] == input[inOff + i];
        return false;
      }
    }
    return true;
  }

  /**
   * `base64_decode`. The two regions may lie in the same array, as long as the output does not start after the input;
   * the contract does not tell the aliased case from the other. Nothing is written unless the whole text is valid.
   */
  method DecodeInto(input: array<Byte>, inOff: nat, inLen: nat, output: array<Byte>, outOff: nat, outLen: nat)
    returns (r: Code)
    requires inOff + inLen <= input.Length && outOff + outLen <= output.Length
    requires input == output ==> outOff <= inOff
    requires var text := UpToNul(input[inOff..inOff + inLen]); DecodeOutcome(text, outLen).Len? ==> WellPadded(text)
    modifies output
    ensures r == DecodeOutcome(UpToNul(old(input[inOff..inOff + inLen])), outLen)
    ensures if r.Len? then
              Written(old(output[..]), output[..], outOff, Decode(UpToNul(old(input[inOff..inOff + inLen]))))
            else output[..] == old(output[..])
  {
    hide UpToNul, Decode, WellPadded, AllCodes, Written, DecodeSize;
    ghost var text := UpToNul(input[inOff..inOff + inLen]);
    var eLen := StrNLen(input, inOff, inLen);
    if eLen % 4 != 0 {
      return EInval;
    }
    assert input[inOff..inOff + eLen] == text;
    var dLen := DecodedSize(input, inOff, eLen, text);
    if dLen > outLen {
      return EOverflow;
    }
    var valid := Validate(input, inOff, eLen, text);
    if !valid {
      return EIlSeq;
    }
    DecodeSizeIs(text);
    DecodeLoop(input, inOff, output, outOff, eLen, eLen / 4, text);
    return Len(dLen);
  }
}
