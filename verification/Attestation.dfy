/**
 * What the two attestation protocols share (proxy-attestation-server/src/attestation.rs): device ids, the contexts of
 * started attestations, and requests that run concurrently and meet only in the locked sections.
 */
module Attestation {
  import opened Common

  type I32 = x: int | -U31 <= x < U31

  /** `fetch_add(1)` on an `AtomicI32`. */
  function NextId(id: I32): I32 {
    if id == U31 - 1 then -U31 else id + 1
  }

  /** The position of an id in the sequence of ids, which starts at 1 and wraps after 2^32 of them. */
  function Index(id: I32): (k: nat)
    ensures k < U32
  {
    if id >= 1 then id - 1 else id - 1 + U32
  }

  datatype Context = Context(firmware: string, challenge: seq<Byte>)

  /** A recorded start: the id and the challenge sent out with it. */
  datatype Start = Start(id: I32, challenge: seq<Byte>)

  datatype Certificate = Certificate(csr: seq<Byte>, enclaveHash: seq<Byte>)

  /**
   * A certificate given out: the device and token it was asked with, the challenge checked, the starts there had been.
   */
  datatype Issue = Issue(id: I32, token: seq<Byte>, challenge: seq<Byte>, certificate: Certificate, startsSeen: nat)

  datatype Refusal = NoDevice | BadToken | MissingNonce | Mismatch | MissingUserData | CsrMismatch | BadCsr | Panicked

  datatype Answer = Certified(certificate: Certificate) | Refused(why: Refusal)

  /** A request between two of its steps: a start that has its id, or a token request. */
  datatype Thread<+T> = Starting(id: I32) | Serving(request: T)

  /** `fetched`, `starts` and `certs` are the history; the rest is the state of the server. */
  datatype State<+T> = State(
    deviceId: I32,
    contexts: map<I32, Context>,
    threads: map<nat, Thread<T>>,
    fetched: nat,
    starts: seq<Start>,
    certs: seq<Issue>)

  function Initial<T>(): State<T> {
    State(1, map[], map[], 0, [], [])
  }

  // ---------------------------------------------------------------------------
  // The steps of a start request.
  // ---------------------------------------------------------------------------

  function Fetch<T>(s: State<T>, tid: nat): State<T> {
    if tid in s.threads then s
    else s.(threads := s.threads[tid := Starting(s.deviceId)], deviceId := NextId(s.deviceId), fetched := s.fetched + 1)
  }

  /** Under the lock: the context is stored, over any older one of the same id. */
  function Insert<T>(s: State<T>, tid: nat, firmware: string, challenge: seq<Byte>): State<T> {
    if tid in s.threads && s.threads[tid].Starting? then
      var id := s.threads[tid].id;
      s.(threads := s.threads - {tid}, contexts := s.contexts[id := Context(firmware, challenge)],
         starts := s.starts + [Start(id, challenge)])
    else s
  }

  /** A start for an unknown protocol uses up its id and stores nothing. */
  function Abandon<T>(s: State<T>, tid: nat): State<T> {
    if tid in s.threads && s.threads[tid].Starting? then s.(threads := s.threads - {tid}) else s
  }

  /** The device counter and the stored contexts, which every request shares. */
  class Registry {
    var deviceId: I32
    var contexts: map<I32, Context>

    constructor ()
      ensures deviceId == 1 && contexts == map[]
    {
      deviceId, contexts := 1, map[];
    }

    /** `start`: takes an id, and stores a context if the protocol is known. */
    method Start(known: bool, firmware: string, challenge: seq<Byte>) returns (id: Option<I32>)
      modifies this
      ensures deviceId == NextId(old(deviceId))
      ensures id == if known then Some(old(deviceId)) else None
      ensures contexts == if known then old(contexts)[old(deviceId) := Context(firmware, challenge)] else old(contexts)
    {
      var device := deviceId;
      deviceId := NextId(deviceId);
      if !known {
        return None;
      }
      contexts := contexts[device := Context(firmware, challenge)];
      return Some(device);
    }
  }

  /** A start whose two steps are not interrupted is the method. */
  lemma FetchThenInsert<T>(s: State<T>, tid: nat, firmware: string, challenge: seq<Byte>)
    requires tid !in s.threads
    ensures var u := Insert(Fetch(s, tid), tid, firmware, challenge);
            && u.deviceId == NextId(s.deviceId) && u.contexts == s.contexts[s.deviceId := Context(firmware, challenge)]
            && u.threads == s.threads && u.starts == s.starts + [Start(s.deviceId, challenge)] && u.certs == s.certs
    ensures var u := Abandon(Fetch(s, tid), tid);
            u == s.(deviceId := NextId(s.deviceId), fetched := s.fetched + 1)
  {
    assert Fetch(s, tid).threads - {tid} == s.threads;
  }

  // ---------------------------------------------------------------------------
  // While ids have not wrapped, they name the starts.
  // ---------------------------------------------------------------------------

  ghost predicate HasStart(starts: seq<Start>, id: I32) {
    exists k :: 0 <= k < |starts| && starts[k].id == id
  }

  ghost predicate Fresh<T>(s: State<T>) {
    && (s.fetched < U32 ==> Index(s.deviceId) == s.fetched)
    && (forall a :: a in s.threads && s.threads[a].Starting? ==>
        Index(s.threads[a].id) < s.fetched && !HasStart(s.starts, s.threads[a].id))
    && (forall a, b :: a in s.threads && b in s.threads && a != b && s.threads[a].Starting? && s.threads[b].Starting?
          ==> s.threads[a].id != s.threads[b].id)
    && (forall k :: 0 <= k < |s.starts| ==> Index(s.starts[k].id) < s.fetched)
    && (forall j, k :: 0 <= j < k < |s.starts| ==> s.starts[j].id != s.starts[k].id)
  }

  lemma StartingIsNew<T>(s: State<T>, tid: nat)
    requires Fresh(s) && tid in s.threads && s.threads[tid].Starting?
    ensures !HasStart(s.starts, s.threads[tid].id)
  {
  }

  lemma FetchFresh<T>(s: State<T>, tid: nat)
    requires Fresh(s) && s.fetched < U32
    ensures Fresh(Fetch(s, tid))
  {
  }

  lemma InsertFresh<T>(s: State<T>, tid: nat, firmware: string, challenge: seq<Byte>)
    requires Fresh(s)
    ensures Fresh(Insert(s, tid, firmware, challenge))
  {
    var u := Insert(s, tid, firmware, challenge);
    if u != s {
      var id := s.threads[tid].id;
      forall a | a in u.threads && u.threads[a].Starting? ensures !HasStart(u.starts, u.threads[a].id) {
        assert u.threads[a] == s.threads[a] && a != tid;
      }
      forall j, k | 0 <= j < k < |u.starts| ensures u.starts[j].id != u.starts[k].id {
        assert j < |s.starts| && u.starts[j] == s.starts[j];
      }
    }
  }

  /** The ids of the certificates given out are pairwise different. */
  ghost predicate OncePerId(certs: seq<Issue>) {
    forall j, k :: 0 <= j < k < |certs| ==> certs[j].id != certs[k].id
  }

  ghost predicate HasCertificate(certs: seq<Issue>, id: I32) {
    exists k :: 0 <= k < |certs| && certs[k].id == id
  }

  lemma HasStartLater(starts: seq<Start>, x: Start, id: I32)
    ensures HasStart(starts + [x], id) <==> HasStart(starts, id) || x.id == id
  {
    if HasStart(starts, id) {
      var k :| 0 <= k < |starts| && starts[k].id == id;
      assert (starts + [x])[k].id == id;
    }
    assert (starts + [x])[|starts|] == x;
  }

  lemma NotYetCertified(starts: seq<Start>, certs: seq<Issue>, id: I32)
    requires !HasStart(starts, id) && forall k :: 0 <= k < |certs| ==> HasStart(starts, certs[k].id)
    ensures !HasCertificate(certs, id)
  {
    hide HasStart;
  }
}
