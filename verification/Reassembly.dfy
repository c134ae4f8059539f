/** Length-prefixed messages and their reassembly from chunks, per session (transport-protocol/src/custom.rs). */
module Reassembly {
  import opened Common
  import opened Endian

  const LENGTH_PREFIX_SIZE: nat := 8

  /** A buffer being filled: the announced length and the bytes so far. */
  datatype Entry = Entry(expected: nat, bytes: seq<Byte>)

  type Table = map<nat, Entry>

  datatype Answer = Complete(bytes: seq<Byte>) | PartialBuffer(session: nat) | MissingLengthPrefix(session: nat)

  function GetLengthPrefix(buffer: seq<Byte>): (r: Option<(nat, seq<Byte>)>)
    ensures r.Some? <==> |buffer| >= LENGTH_PREFIX_SIZE
  {
    if |buffer| < LENGTH_PREFIX_SIZE then None
    else Some((FromBigEndian(buffer[..LENGTH_PREFIX_SIZE]), buffer[LENGTH_PREFIX_SIZE..]))
  }

  function SetLengthPrefix(message: seq<Byte>): seq<Byte> {
    BigEndian(|message|, LENGTH_PREFIX_SIZE) + message
  }

  lemma PrefixRoundTrip(m: seq<Byte>)
    requires |m| < U64
    ensures GetLengthPrefix(SetLengthPrefix(m)) == Some((|m|, m))
  {
    BigEndianRoundTrip(|m|, LENGTH_PREFIX_SIZE);
    hide BigEndian;
    var s := SetLengthPrefix(m);
    assert s[..8] == BigEndian(|m|, 8) && s[8..] == m;
  }

  /** One chunk of a session. */
  function Handle(t: Table, id: nat, input: seq<Byte>): (Table, Answer) {
    if id !in t && |input| < LENGTH_PREFIX_SIZE then (t, MissingLengthPrefix(id))
    else
      var (e, more) := if id in t then (t[id], input) else
        var (n, rest) := GetLengthPrefix(input).value;
        (Entry(n, []), rest);
      var bytes := e.bytes + more;
      if |bytes| < e.expected then (t[id := e.(bytes := bytes)], PartialBuffer(id)) else (t - {id}, Complete(bytes))
  }

  class IncomingBuffers {
    var table: Table

    constructor ()
      ensures table == map[]
    {
      table := map[];
    }

    /** `handle_protocol_buffer`; requests without a session share session 0. */
    method HandleProtocolBuffer(session: Option<nat>, chunk: seq<Byte>) returns (r: Answer)
      modifies this
      ensures (table, r) == Handle(old(table), if session.None? then 0 else session.value, chunk)
    {
      var id := if session.None? then 0 else session.value;
      var input := chunk;
      if id !in table {
        var prefix := GetLengthPrefix(input);
        if prefix.None? {
          return MissingLengthPrefix(id);
        }
        table := table[id := Entry(prefix.value.0, [])];
        input := prefix.value.1;
      }
      var e := table[id];
      table := table[id := e.(bytes := e.bytes + input)];
      assert table == old(table)[id := table[id]];
      if |table[id].bytes| < e.expected {
        return PartialBuffer(id);
      }
      r := Complete(table[id].bytes);
      table := table - {id};
      assert table == old(table) - {id};
    }
  }

  // ---------------------------------------------------------------------------
  // Runs: chunks of any sessions in any order.
  // ---------------------------------------------------------------------------

  datatype Chunk = Chunk(session: nat, input: seq<Byte>)

  function After(t: Table, cs: seq<Chunk>): Table
    decreases |cs|
  {
    if cs == [] then t else After(Handle(t, cs[0].session, cs[0].input).0, cs[1..])
  }

  /** The answers given to one session. */
  function Answers(id: nat, t: Table, cs: seq<Chunk>): seq<Answer>
    decreases |cs|
  {
    if cs == [] then [] else
    var (u, r) := Handle(t, cs[0].session, cs[0].input);
    (if cs[0].session == id then [r] else []) + Answers(id, u, cs[1..])
  }

  function Inputs(id: nat, cs: seq<Chunk>): seq<seq<Byte>> {
    if cs == [] then [] else (if cs[0].session == id then [cs[0].input] else []) + Inputs(id, cs[1..])
  }

  function AsChunks(id: nat, inputs: seq<seq<Byte>>): (cs: seq<Chunk>)
    ensures |cs| == |inputs| && forall k :: 0 <= k < |cs| ==> cs[k] == Chunk(id, inputs[k])
  {
    seq(|inputs|, k requires 0 <= k < |inputs| => Chunk(id, inputs[k]))
  }

  /** Every stored buffer still lacks bytes. */
  ghost predicate Pending(t: Table) {
    forall id :: id in t ==> |t[id].bytes| < t[id].expected < U64
  }

  lemma PrefixBound(input: seq<Byte>)
    requires |input| >= LENGTH_PREFIX_SIZE
    ensures GetLengthPrefix(input).value.0 < U64
  {
    FromBound(input[..LENGTH_PREFIX_SIZE]);
  }

  lemma {:induction false} FromBound(s: seq<Byte>)
    ensures FromBigEndian(s) < Pow256(|s|)
  {
    if s != [] {
      FromBound(s[..|s| - 1]);
    }
  }

  lemma {:induction false} PendingInRuns(t: Table, cs: seq<Chunk>)
    requires Pending(t)
    ensures Pending(After(t, cs))
    decreases |cs|
  {
    if cs != [] {
      var c := cs[0];
      if c.session !in t && |c.input| >= LENGTH_PREFIX_SIZE {
        PrefixBound(c.input);
      }
      hide GetLengthPrefix;
      PendingInRuns(Handle(t, c.session, c.input).0, cs[1..]);
    }
  }

  /** The two tables hold the same for this session. */
  ghost predicate SameFor(id: nat, t: Table, u: Table) {
    (id in t <==> id in u) && (id in t ==> t[id] == u[id])
  }

  lemma HandleLocal(id: nat, t: Table, u: Table, c: Chunk)
    requires SameFor(id, t, u)
    ensures c.session != id ==> SameFor(id, Handle(t, c.session, c.input).0, u)
    ensures c.session == id ==> SameFor(id, Handle(t, id, c.input).0, Handle(u, id, c.input).0)
    ensures c.session == id ==> Handle(t, id, c.input).1 == Handle(u, id, c.input).1
  {
    hide GetLengthPrefix;
  }

  /** Other sessions do not matter: a session is answered as if its chunks had come alone. */
  lemma {:induction false} Isolated(id: nat, t: Table, u: Table, cs: seq<Chunk>)
    requires SameFor(id, t, u)
    ensures var own := AsChunks(id, Inputs(id, cs));
            Answers(id, t, cs) == Answers(id, u, own) && SameFor(id, After(t, cs), After(u, own))
    decreases |cs|
  {
    hide Handle;
    var own := AsChunks(id, Inputs(id, cs));
    if cs != [] {
      var c := cs[0];
      var t' := Handle(t, c.session, c.input).0;
      HandleLocal(id, t, u, c);
      if c.session == id {
        Isolated(id, t', Handle(u, id, c.input).0, cs[1..]);
        assert own[1..] == AsChunks(id, Inputs(id, cs[1..]));
        assert own[0] == c;
      } else {
        Isolated(id, t', u, cs[1..]);
        assert own == AsChunks(id, Inputs(id, cs[1..]));
      }
    }
  }

  // ---------------------------------------------------------------------------
  // One message.
  // ---------------------------------------------------------------------------

  /** The answers to `n` chunks of which the last completes the message. */
  function PartialThen(id: nat, n: nat, m: seq<Byte>): seq<Answer>
    requires n > 0
  {
    seq(n - 1, k => PartialBuffer(id)) + [Complete(m)]
  }

  /** The chunks leave the buffer short of `missing` bytes until the last one. */
  ghost predicate CompletesAtLast(inputs: seq<seq<Byte>>, missing: nat) {
    && inputs != []
    && |Flatten(inputs)| >= missing
    && forall k :: 0 < k < |inputs| ==> |Flatten(inputs[..k])| < missing
  }

  lemma CompletesRest(inputs: seq<seq<Byte>>, missing: nat)
    requires |inputs| > 1 && CompletesAtLast(inputs, missing)
    ensures |inputs[0]| < missing && CompletesAtLast(inputs[1..], missing - |inputs[0]|)
  {
    assert inputs[..1] == [inputs[0]];
    FlattenSingle(inputs[0]);
    forall k | 0 < k < |inputs| - 1
      ensures |Flatten(inputs[1..][..k])| < missing - |inputs[0]|
    {
      assert inputs[..k + 1] == [inputs[0]] + inputs[1..][..k];
      FlattenAppend([inputs[0]], inputs[1..][..k]);
    }
  }

  /** Later chunks fill an open buffer. */
  lemma {:induction false} Fills(id: nat, t: Table, inputs: seq<seq<Byte>>)
    requires id in t && |t[id].bytes| < t[id].expected
    requires CompletesAtLast(inputs, t[id].expected - |t[id].bytes|)
    ensures Answers(id, t, AsChunks(id, inputs)) == PartialThen(id, |inputs|, t[id].bytes + Flatten(inputs))
    ensures After(t, AsChunks(id, inputs)) == t - {id}
    decreases |inputs|
  {
    hide GetLengthPrefix, CompletesAtLast;
    var e, cs := t[id], AsChunks(id, inputs);
    NonEmpty(inputs, e.expected - |e.bytes|);
    assert cs[1..] == AsChunks(id, inputs[1..]);
    var bytes := e.bytes + inputs[0];
    assert bytes + Flatten(inputs[1..]) == e.bytes + Flatten(inputs);
    if |inputs| == 1 {
      assert Flatten(inputs) == inputs[0] by { FlattenSingle(inputs[0]); assert inputs == [inputs[0]]; }
      assert cs == [cs[0]] && cs[1..] == [];
    } else {
      CompletesRest(inputs, e.expected - |e.bytes|);
      var u := t[id := e.(bytes := bytes)];
      Fills(id, u, inputs[1..]);
      assert u - {id} == t - {id};
    }
  }

  lemma NonEmpty(inputs: seq<seq<Byte>>, missing: nat)
    requires CompletesAtLast(inputs, missing)
    ensures inputs != [] && |Flatten(inputs)| >= missing
  {
  }

  /**
   * Chunks that complete the announced length only at the last one are answered with partial until then, and then with
   * everything after the prefix. Nothing is trimmed: the answer has the announced length just when the chunks do not
   * run past it.
   */
  lemma Gathers(id: nat, t: Table, inputs: seq<seq<Byte>>)
    requires id !in t && inputs != [] && |inputs[0]| >= LENGTH_PREFIX_SIZE
    requires CompletesAtLast(inputs, LENGTH_PREFIX_SIZE + GetLengthPrefix(inputs[0]).value.0)
    ensures var payload := Flatten(inputs)[LENGTH_PREFIX_SIZE..];
            Answers(id, t, AsChunks(id, inputs)) == PartialThen(id, |inputs|, payload)
    ensures After(t, AsChunks(id, inputs)) == t
  {
    hide Handle, CompletesAtLast, GetLengthPrefix;
    var n, rest := GetLengthPrefix(inputs[0]).value.0, inputs[0][LENGTH_PREFIX_SIZE..];
    NonEmpty(inputs, LENGTH_PREFIX_SIZE + n);
    FirstChunk(id, t, inputs[0]);
    var cs, payload := AsChunks(id, inputs), Flatten(inputs)[LENGTH_PREFIX_SIZE..];
    assert cs[1..] == AsChunks(id, inputs[1..]);
    assert payload == rest + Flatten(inputs[1..]);
    if |inputs| == 1 {
      assert Flatten(inputs[1..]) == [] && rest + [] == rest;
      assert cs[1..] == [] && PartialThen(id, 1, payload) == [Complete(payload)];
    } else {
      CompletesRest(inputs, LENGTH_PREFIX_SIZE + n);
      var u := t[id := Entry(n, rest)];
      Fills(id, u, inputs[1..]);
      assert u - {id} == t;
    }
  }

  lemma FirstChunk(id: nat, t: Table, input: seq<Byte>)
    requires id !in t && |input| >= LENGTH_PREFIX_SIZE
    ensures var n, rest := GetLengthPrefix(input).value.0, input[LENGTH_PREFIX_SIZE..];
            Handle(t, id, input) == if |rest| < n then (t[id := Entry(n, rest)], PartialBuffer(id))
                else (t, Complete(rest))
  {
    hide FromBigEndian;
    assert [] + input[LENGTH_PREFIX_SIZE..] == input[LENGTH_PREFIX_SIZE..];
    assert t - {id} == t;
  }

  lemma PrefixSplit(input: seq<Byte>)
    requires |input| >= LENGTH_PREFIX_SIZE
    ensures GetLengthPrefix(input).value.1 == input[LENGTH_PREFIX_SIZE..]
    ensures GetLengthPrefix(input).value.0 == FromBigEndian(input[..LENGTH_PREFIX_SIZE])
  {
  }

  /** A split of a prefixed message: a first chunk that holds the prefix, and bytes still to come before the last. */
  ghost predicate Splits(inputs: seq<seq<Byte>>, m: seq<Byte>) {
    && inputs != [] && |inputs[0]| >= LENGTH_PREFIX_SIZE
    && Flatten(inputs) == SetLengthPrefix(m)
    && (|inputs| > 1 ==> inputs[|inputs| - 1] != [])
  }

  lemma SplitCompletes(inputs: seq<seq<Byte>>, m: seq<Byte>)
    requires |m| < U64 && Splits(inputs, m)
    ensures GetLengthPrefix(inputs[0]).value.0 == |m|
    ensures CompletesAtLast(inputs, LENGTH_PREFIX_SIZE + |m|)
  {
    hide FromBigEndian, BigEndian, SetLengthPrefix, GetLengthPrefix;
    var all := Flatten(inputs);
    PrefixRoundTrip(m);
    PrefixSplit(all);
    PrefixSplit(inputs[0]);
    assert all[..LENGTH_PREFIX_SIZE] == inputs[0][..LENGTH_PREFIX_SIZE];
    var n := |inputs|;
    forall k | 0 < k < n
      ensures |Flatten(inputs[..k])| < |all|
    {
      assert inputs == inputs[..k] + inputs[k..];
      FlattenAppend(inputs[..k], inputs[k..]);
      assert inputs[k..] == inputs[k..n - 1] + [inputs[n - 1]];
      FlattenAppend(inputs[k..n - 1], [inputs[n - 1]]);
      FlattenSingle(inputs[n - 1]);
    }
  }

  /** Every split of a message is answered with partial until the last chunk, and then with exactly the message. */
  lemma Reassembles(id: nat, t: Table, inputs: seq<seq<Byte>>, m: seq<Byte>)
    requires id !in t && |m| < U64 && Splits(inputs, m)
    ensures Answers(id, t, AsChunks(id, inputs)) == PartialThen(id, |inputs|, m)
    ensures After(t, AsChunks(id, inputs)) == t
  {
    SplitCompletes(inputs, m);
    hide GetLengthPrefix, CompletesAtLast, SetLengthPrefix;
    Gathers(id, t, inputs);
  }

  // ---------------------------------------------------------------------------
  // Many messages, many sessions.
  // ---------------------------------------------------------------------------

  ghost predicate AllSplit(splits: seq<seq<seq<Byte>>>, ms: seq<seq<Byte>>) {
    if ms == [] then splits == []
    else splits != [] && |ms[0]| < U64 && Splits(splits[0], ms[0]) && AllSplit(splits[1..], ms[1..])
  }

  ghost function Expected(id: nat, splits: seq<seq<seq<Byte>>>, ms: seq<seq<Byte>>): seq<Answer>
    requires AllSplit(splits, ms)
  {
    if ms == [] then [] else PartialThen(id, |splits[0]|, ms[0]) + Expected(id, splits[1..], ms[1..])
  }

  lemma {:induction false} RunAppend(id: nat, t: Table, a: seq<Chunk>, b: seq<Chunk>)
    ensures After(t, a + b) == After(After(t, a), b)
    ensures Answers(id, t, a + b) == Answers(id, t, a) + Answers(id, After(t, a), b)
    decreases |a|
  {
    hide Handle, After, Answers;
    RunStep(id, t, a);
    if a == [] {
      assert a + b == b;
    } else {
      RunStep(id, t, a + b);
      assert (a + b)[1..] == a[1..] + b && (a + b)[0] == a[0];
      RunAppend(id, Handle(t, a[0].session, a[0].input).0, a[1..], b);
    }
  }

  /** The first chunk of a run. */
  lemma RunStep(id: nat, t: Table, cs: seq<Chunk>)
    ensures cs == [] ==> After(t, cs) == t && Answers(id, t, cs) == []
    ensures cs != [] ==>
              var (u, r) := Handle(t, cs[0].session, cs[0].input);
              && After(t, cs) == After(u, cs[1..])
              && Answers(id, t, cs) == (if cs[0].session == id then [r] else []) + Answers(id, u, cs[1..])
  {
    hide Handle;
  }

  lemma {:induction false} ReassemblesAll(id: nat, t: Table, splits: seq<seq<seq<Byte>>>, ms: seq<seq<Byte>>)
    requires id !in t && AllSplit(splits, ms)
    ensures Answers(id, t, AsChunks(id, Flatten(splits))) == Expected(id, splits, ms)
    ensures After(t, AsChunks(id, Flatten(splits))) == t
    decreases |ms|
  {
    hide Handle, SetLengthPrefix, PartialThen;
    if ms != [] {
      var first, rest := AsChunks(id, splits[0]), AsChunks(id, Flatten(splits[1..]));
      assert AsChunks(id, Flatten(splits)) == first + rest;
      RunAppend(id, t, first, rest);
      Reassembles(id, t, splits[0], ms[0]);
      ReassemblesAll(id, t, splits[1..], ms[1..]);
    }
  }

  /**
   * The end-to-end statement: in every run, however the chunks of the sessions interleave, a session whose own chunks
   * are splits of its messages gets exactly those messages, in order.
   */
  lemma DeliversMessages(id: nat, t: Table, cs: seq<Chunk>, splits: seq<seq<seq<Byte>>>, ms: seq<seq<Byte>>)
    requires id !in t && AllSplit(splits, ms) && Inputs(id, cs) == Flatten(splits)
    ensures Answers(id, t, cs) == Expected(id, splits, ms) && id !in After(t, cs)
  {
    Isolated(id, t, t, cs);
    ReassemblesAll(id, t, splits, ms);
  }
}
