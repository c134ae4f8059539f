/** The printer for byte strings in system call traces (execution-engine/src/wasi/strace.rs). */
module Strace {
  import opened Common

  predicate IsPrintable(b: Byte) {
    0x20 <= b < 0x7f
  }

  function Digit(d: nat): char
    requires d < 8
  {
    (48 + d) as char
  }

  /** `{:03o}` */
  function Octal3(b: Byte): (s: string)
    ensures |s| == 3
  {
    [Digit(b / 64), Digit(b / 8 % 8), Digit(b % 8)]
  }

  /** `{:o}` */
  function Octal(b: Byte): (s: string)
    ensures 1 <= |s| <= 3
  {
    if b < 8 then [Digit(b)] else if b < 64 then [Digit(b / 8), Digit(b % 8)] else Octal3(b)
  }

  /** How the byte at `i` is printed; what is past `n` is not looked at. */
  function Escape(bytes: seq<Byte>, i: nat, n: nat): (s: string)
    requires i < n <= |bytes|
    ensures s != []
  {
    var b := bytes[i];
    if IsPrintable(b) then
      (if b as char == '\\' || b as char == '"' then "\\" else "") + [b as char]
    else if b == 9 then "\\t"
    else if b == 10 then "\\n"
    else if i + 1 < n && IsDigit(bytes[i + 1]) then "\\" + Octal3(b)
    else "\\" + Octal(b)
  }

  function Body(bytes: seq<Byte>, i: nat, n: nat): string
    requires i <= n <= |bytes|
    decreases n - i
  {
    if i == n then "" else Escape(bytes, i, n) + Body(bytes, i + 1, n)
  }

  function Shown(bytes: seq<Byte>, max: nat): string {
    "\"" + Body(bytes, 0, Min(|bytes|, max)) + "\"" + if |bytes| > max then "..." else ""
  }

  method StraceString(bytes: seq<Byte>, max: nat) returns (res: string)
    ensures res == Shown(bytes, max)
  {
    hide Escape;
    res := "\"";
    var n := if |bytes| > max then max else |bytes|;
    for i := 0 to n
      invariant res + Body(bytes, i, n) == "\"" + Body(bytes, 0, n)
    {
      assert res + (Escape(bytes, i, n) + Body(bytes, i + 1, n)) == res + Escape(bytes, i, n) + Body(bytes, i + 1, n);
      var next := PrintByte(bytes, i, n);
      res := res + next;
    }
    assert res + "" == res;
    res := res + "\"";
    if |bytes| > max {
      res := res + "...";
    }
  }

  /** One round of the loop. */
  method PrintByte(bytes: seq<Byte>, i: nat, n: nat) returns (res: string)
    requires i < n <= |bytes|
    ensures res == Escape(bytes, i, n)
  {
    res := "";
    if 0x20 <= bytes[i] < 0x7f {
      if bytes[i] as char == '\\' || bytes[i] as char == '"' {
        res := res + "\\";
      }
      res := res + [bytes[i] as char];
    } else if bytes[i] == 9 {
      res := res + "\\t";
    } else if bytes[i] == 10 {
      res := res + "\\n";
    } else if i + 1 < n && IsDigit(bytes[i + 1]) {
      res := res + "\\" + Octal3(bytes[i]);
    } else {
      res := res + "\\" + Octal(bytes[i]);
    }
  }

  // ---------------------------------------------------------------------------
  // A reader.
  // ---------------------------------------------------------------------------

  predicate IsOctal(c: char) {
    '0' <= c <= '7'
  }

  /** Up to `limit` leading octal digits. */
  function OctalRun(s: string, limit: nat): (k: nat)
    ensures k <= |s| && k <= limit && forall j :: 0 <= j < k ==> IsOctal(s[j])
    decreases limit
  {
    if limit == 0 || s == [] || !IsOctal(s[0]) then 0 else 1 + OctalRun(s[1..], limit - 1)
  }

  function OctalValue(s: string): nat
    requires forall j :: 0 <= j < |s| ==> IsOctal(s[j])
  {
    if s == [] then 0
    else
      assert IsOctal(s[|s| - 1]);
      8 * OctalValue(s[..|s| - 1]) + (s[|s| - 1] as int - 48)
  }

  /** The bytes up to the closing quote, and the text after it. */
  datatype Read = Read(bytes: seq<Byte>, rest: string) | Malformed

  function Cons(b: nat, r: Read): Read {
    if b < 256 && r.Read? then Read([b] + r.bytes, r.rest) else Malformed
  }

  function Unescape(s: string): Read
    decreases |s|
  {
    if s == [] then Malformed
    else if s[0] == '"' then Read([], s[1..])
    else if s[0] != '\\' then Cons(s[0] as int, Unescape(s[1..]))
    else if |s| == 1 then Malformed
    else if s[1] == '\\' || s[1] == '"' then Cons(s[1] as int, Unescape(s[2..]))
    else if s[1] == 't' then Cons(9, Unescape(s[2..]))
    else if s[1] == 'n' then Cons(10, Unescape(s[2..]))
    else
      var k := OctalRun(s[1..], 3);
      if k == 0 then Malformed else Cons(OctalValue(s[1..][..k]), Unescape(s[1..][k..]))
  }

  /** What a printed text says: the bytes shown, and whether more were cut off. */
  function Parse(s: string): Option<(seq<Byte>, bool)> {
    if s == [] || s[0] != '"' then None
    else
      match Unescape(s[1..])
      case Malformed => None
      case Read(bytes, rest) => if rest == "" then Some((bytes, false)) else if rest == "..." then Some((bytes, true))
          else None
  }

  // ---------------------------------------------------------------------------
  // The printer is unambiguous.
  // ---------------------------------------------------------------------------

  lemma {:induction false} OctalRunOf(d: string, rest: string, limit: nat)
    requires |d| <= limit && forall j :: 0 <= j < |d| ==> IsOctal(d[j])
    requires |d| == limit || rest == [] || !IsOctal(rest[0])
    ensures OctalRun(d + rest, limit) == |d|
    decreases limit
  {
    if d == [] {
      assert d + rest == rest;
    } else {
      assert (d + rest)[0] == d[0] && (d + rest)[1..] == d[1..] + rest;
      OctalRunOf(d[1..], rest, limit - 1);
    }
  }

  lemma Octal3Value(b: Byte)
    ensures forall j :: 0 <= j < 3 ==> IsOctal(Octal3(b)[j])
    ensures OctalValue(Octal3(b)) == b
  {
    ThreeDigits(Digit(b / 64), Digit(b / 8 % 8), Digit(b % 8));
    hide OctalValue;
  }

  lemma ThreeDigits(x: char, y: char, z: char)
    requires IsOctal(x) && IsOctal(y) && IsOctal(z)
    ensures OctalValue([x, y, z]) == 64 * (x as int - 48) + 8 * (y as int - 48) + (z as int - 48)
  {
    hide OctalValue;
    assert [x, y, z][..2] == [x, y] && [x, y][..1] == [x] && [x][..0] == [];
    OctalValueStep([x, y, z]);
    OctalValueStep([x, y]);
    OctalValueStep([x]);
    OctalValueNone();
  }

  lemma OctalValueNone()
    ensures OctalValue([]) == 0
  {
  }

  lemma OctalValueStep(s: string)
    requires s != [] && forall j :: 0 <= j < |s| ==> IsOctal(s[j])
    ensures OctalValue(s) == 8 * OctalValue(s[..|s| - 1]) + (s[|s| - 1] as int - 48)
  {
  }

  lemma OctalValueOf(b: Byte)
    ensures forall j :: 0 <= j < |Octal(b)| ==> IsOctal(Octal(b)[j])
    ensures OctalValue(Octal(b)) == b
  {
    if b < 8 {
      OctalValueStep([Digit(b)]);
      assert [Digit(b)][..0] == [];
    } else if b < 64 {
      var s := Octal(b);
      assert s[..1] == [s[0]] && s[..1][..0] == [];
      OctalValueStep(s);
      OctalValueStep(s[..1]);
    } else {
      Octal3Value(b);
    }
  }

  lemma UnescapeOctal(d: string, b: Byte, rest: string)
    requires 1 <= |d| <= 3 && (forall j :: 0 <= j < |d| ==> IsOctal(d[j])) && OctalValue(d) == b
    requires |d| == 3 || rest == [] || !IsOctal(rest[0])
    ensures Unescape("\\" + d + rest) == Cons(b, Unescape(rest))
  {
    hide OctalRun, OctalValue, Cons;
    EscapedParts(d, rest);
    OctalRunOf(d, rest, 3);
  }

  lemma EscapedParts(d: string, rest: string)
    requires d != []
    ensures var s := "\\" + d + rest;
            |s| > 1 && s[0] == '\\' && s[1] == d[0] && s[1..] == d + rest
    ensures (d + rest)[..|d|] == d && (d + rest)[|d|..] == rest
  {
  }

  /** One byte is read back if an octal digit after it is one the padding was meant for. */
  lemma UnescapeOne(bytes: seq<Byte>, i: nat, n: nat, rest: string)
    requires i < n <= |bytes| && rest != []
    requires IsOctal(rest[0]) ==> i + 1 < n && IsDigit(bytes[i + 1])
    ensures Unescape(Escape(bytes, i, n) + rest) == Cons(bytes[i], Unescape(rest))
  {
    var b, s := bytes[i], Escape(bytes, i, n) + rest;
    hide Octal, Octal3;
    if IsPrintable(b) {
      if b as char == '\\' || b as char == '"' {
        assert s[2..] == rest && s[0] == '\\' && s[1] == b as char;
      } else {
        assert s[1..] == rest && s[0] == b as char;
      }
    } else if b == 9 || b == 10 {
      assert s[2..] == rest && s[0] == '\\';
    } else if i + 1 < n && IsDigit(bytes[i + 1]) {
      Octal3Value(b);
      UnescapeOctal(Octal3(b), b, rest);
    } else {
      OctalValueOf(b);
      UnescapeOctal(Octal(b), b, rest);
    }
  }

  lemma {:induction false} UnescapeBody(bytes: seq<Byte>, i: nat, n: nat, tail: string)
    requires i <= n <= |bytes|
    ensures Unescape(Body(bytes, i, n) + ("\"" + tail)) == Read(bytes[i..n], tail)
    decreases n - i
  {
    hide Escape, Unescape;
    var quoted := "\"" + tail;
    if i == n {
      assert Body(bytes, i, n) + quoted == quoted;
      UnescapeQuote(tail);
    } else {
      var rest := Body(bytes, i + 1, n) + quoted;
      UnescapeBody(bytes, i + 1, n, tail);
      assert Body(bytes, i, n) + quoted == Escape(bytes, i, n) + rest;
      if i + 1 < n {
        EscapeStarts(bytes, i + 1, n);
        assert rest[0] == Escape(bytes, i + 1, n)[0];
      }
      UnescapeOne(bytes, i, n, rest);
      assert [bytes[i]] + bytes[i + 1..n] == bytes[i..n];
    }
  }

  lemma UnescapeQuote(tail: string)
    ensures Unescape("\"" + tail) == Read([], tail)
  {
    assert ("\"" + tail)[1..] == tail;
  }

  /** Only a digit is printed with a digit in front. */
  lemma EscapeStarts(bytes: seq<Byte>, i: nat, n: nat)
    requires i < n <= |bytes|
    ensures IsOctal(Escape(bytes, i, n)[0]) ==> IsDigit(bytes[i])
  {
  }

  /** The bytes shown, up to the limit, and whether there were more, can be read back from every printed text. */
  lemma Unambiguous(bytes: seq<Byte>, max: nat)
    ensures Parse(Shown(bytes, max)) == Some((bytes[..Min(|bytes|, max)], |bytes| > max))
  {
    hide Body, Unescape;
    var n := Min(|bytes|, max);
    var tail := if |bytes| > max then "..." else "";
    var s := Shown(bytes, max);
    assert s[1..] == Body(bytes, 0, n) + ("\"" + tail);
    UnescapeBody(bytes, 0, n, tail);
    assert bytes[0..n] == bytes[..n];
  }
}
