/** Types and sequence helpers shared by every component of the model. */
module Common {

  const U31: int := 0x8000_0000
  const U32: int := 0x1_0000_0000
  const U63: int := 0x8000_0000_0000_0000
  const U64: int := 0x1_0000_0000_0000_0000

  type Byte = b: int | 0 <= b < 256

  datatype Option<+T> = None | Some(value: T)

  /** The WASI error codes the file system returns. */
  datatype ErrNo = Access | BadF | Exist | Fault | Inval | IsDir | NFile | NoEnt | NotDir | SPipe

  /** `Panic` is the outcome of an overflowing addition, an out-of-range slice or a failed debug assertion. */
  datatype Result<+T> = Ok(value: T) | Err(error: ErrNo) | Panic

  function Min(a: int, b: int): int {
    if a <= b then a else b
  }

  /** The digits of ASCII. */
  predicate IsDigit(c: Byte) {
    48 <= c <= 57
  }

  type I64 = x: int | -U63 <= x < U63

  /** The cast `n as i64`. */
  function AsI64(n: nat): I64 {
    if n < U63 then n else (n + U63) % U64 - U63
  }

  function Flatten<T>(ss: seq<seq<T>>): seq<T> {
    if ss == [] then [] else ss[0] + Flatten(ss[1..])
  }

  lemma {:induction false} FlattenAppend<T>(a: seq<seq<T>>, b: seq<seq<T>>)
    ensures Flatten(a + b) == Flatten(a) + Flatten(b)
  {
    if a == [] {
      assert a + b == b;
    } else {
      assert (a + b)[1..] == a[1..] + b;
      FlattenAppend(a[1..], b);
    }
  }

  lemma FlattenSingle<T>(s: seq<T>)
    ensures Flatten([s]) == s
  {
    assert [s][1..] == [];
  }

  lemma SliceDrop<T>(s: seq<T>, m: nat, a: nat, b: nat)
    requires a <= b && m + b <= |s|
    ensures s[m..][a..b] == s[m + a..m + b]
  {
  }

  /** No element twice. */
  ghost predicate Distinct<T(!new)>(s: seq<T>) {
    forall i, j :: 0 <= i < j < |s| ==> s[i] != s[j]
  }
}
