/** Nitro attestation (proxy-attestation-server/src/attestation/nitro.rs). */
module Nitro {
  import opened Common
  import opened Attestation

  datatype Document = Document(nonce: Option<seq<Byte>>, pcrs: seq<seq<Byte>>, userData: Option<seq<Byte>>)

  /** The libraries: authentication of documents against the root certificate, and signing of requests. */
  datatype Libraries = Libraries(authenticate: seq<Byte> -> Option<Document>, signable: Certificate -> bool)

  /** The checks on an authenticated document against the stored context. */
  function Check(lib: Libraries, doc: Document, context: Context): Answer {
    if doc.nonce.None? then Refused(MissingNonce)
    else if doc.nonce.value != context.challenge then Refused(Mismatch)
    else if doc.pcrs == [] then Refused(Panicked)
    else if doc.userData.None? then Refused(MissingUserData)
    else if |doc.pcrs[0]| < 32 then Refused(Panicked)
    else
      var c := Certificate(doc.userData.value, doc.pcrs[0][..32]);
      if lib.signable(c) then Certified(c) else Refused(BadCsr)
  }

  /** A token request that is not interrupted. */
  function TokenAlone(lib: Libraries, contexts: map<I32, Context>, token: seq<Byte>, id: I32)
    : (map<I32, Context>, Answer)
  {
    var doc := lib.authenticate(token);
    if doc.None? then (contexts, Refused(BadToken))
    else if id !in contexts then (contexts, Refused(NoDevice))
    else (contexts - {id}, Check(lib, doc.value, contexts[id]))
  }

  /** `attestation_token`: the context is gone before the nonce is looked at. */
  method AttestationToken(registry: Registry, lib: Libraries, token: seq<Byte>, id: I32) returns (a: Answer)
    modifies registry
    ensures (registry.contexts, a) == TokenAlone(lib, old(registry.contexts), token, id)
    ensures registry.deviceId == old(registry.deviceId)
  {
    var doc := lib.authenticate(token);
    if doc.None? {
      return Refused(BadToken);
    }
    if id !in registry.contexts {
      return Refused(NoDevice);
    }
    var context := registry.contexts[id];
    registry.contexts := registry.contexts - {id};
    match doc.value.nonce {
      case None =>
        return Refused(MissingNonce);
      case Some(nonce) =>
        if nonce != context.challenge {
          return Refused(Mismatch);
        }
    }
    if doc.value.pcrs == [] {
      return Refused(Panicked);
    }
    var hash := doc.value.pcrs[0];
    match doc.value.userData {
      case None =>
        return Refused(MissingUserData);
      case Some(csr) =>
        if |hash| < 32 {
          return Refused(Panicked);
        }
        var c := Certificate(csr, hash[..32]);
        return if lib.signable(c) then Certified(c) else Refused(BadCsr);
    }
  }

  // ---------------------------------------------------------------------------
  // Concurrent requests.
  // ---------------------------------------------------------------------------

  /** A token request that has taken its context. */
  datatype Request = Request(id: I32, token: seq<Byte>, doc: Document, context: Context)

  datatype Event =
    | FetchId(tid: nat)
    | StoreContext(tid: nat, firmware: string, challenge: seq<Byte>)
    | GiveUp(tid: nat)
    | TakeContext(tid: nat, token: seq<Byte>, id: I32)
    | Reply(tid: nat)

  /** Authentication, and the locked section that removes the context. */
  function Take(lib: Libraries, s: State<Request>, tid: nat, token: seq<Byte>, id: I32): State<Request> {
    var doc := lib.authenticate(token);
    if tid in s.threads || doc.None? || id !in s.contexts then s
    else s.(contexts := s.contexts - {id},
        threads := s.threads[tid := Serving(Request(id, token, doc.value, s.contexts[id]))])
  }

  /** The checks, and the certificate if they pass. */
  function Finish(lib: Libraries, s: State<Request>, tid: nat): State<Request> {
    if tid in s.threads && s.threads[tid].Serving? then
      var q := s.threads[tid].request;
      var a := Check(lib, q.doc, q.context);
      s.(threads := s.threads - {tid},
         certs := s.certs + if a.Certified? then [Issue(q.id, q.token, q.context.challenge, a.certificate, |s.starts|)]
             else [])
    else s
  }

  function Next(lib: Libraries, s: State<Request>, e: Event): State<Request> {
    match e
    case FetchId(tid) => Fetch(s, tid)
    case StoreContext(tid, firmware, challenge) => Insert(s, tid, firmware, challenge)
    case GiveUp(tid) => Abandon(s, tid)
    case TakeContext(tid, token, id) => Take(lib, s, tid, token, id)
    case Reply(tid) => Finish(lib, s, tid)
  }

  function Run(lib: Libraries, s: State<Request>, es: seq<Event>): State<Request>
    decreases |es|
  {
    if es == [] then s else Run(lib, Next(lib, s, es[0]), es[1..])
  }

  /** A token request whose two steps are not interrupted is the method. */
  lemma TakeThenFinish(lib: Libraries, s: State<Request>, tid: nat, token: seq<Byte>, id: I32)
    requires tid !in s.threads
    ensures var u := Finish(lib, Take(lib, s, tid, token, id), tid);
            var (contexts, a) := TokenAlone(lib, s.contexts, token, id);
            && u.contexts == contexts && u.threads == s.threads && u.starts == s.starts
            && (a.Refused? ==> u.certs == s.certs)
            && (a.Certified? ==>
                u.certs == s.certs + [Issue(id, token, s.contexts[id].challenge, a.certificate, |s.starts|)])
  {
    hide Check;
    var t := Take(lib, s, tid, token, id);
    if t != s {
      assert t.threads - {tid} == s.threads;
    }
  }

  // ---------------------------------------------------------------------------
  // What every run keeps.
  // ---------------------------------------------------------------------------

  /** The document in the token carries the challenge of an earlier start of the same device, and the request signed. */
  ghost predicate Justified(lib: Libraries, starts: seq<Start>, c: Issue) {
    && c.startsSeen <= |starts| && Start(c.id, c.challenge) in starts[..c.startsSeen]
    && var doc := lib.authenticate(c.token);
       && doc.Some? && doc.value.nonce == Some(c.challenge) && doc.value.userData == Some(c.certificate.csr)
       && doc.value.pcrs != [] && |doc.value.pcrs[0]| >= 32 && c.certificate.enclaveHash == doc.value.pcrs[0][..32]
       && lib.signable(c.certificate)
  }

  ghost predicate History(lib: Libraries, s: State<Request>) {
    && (forall id :: id in s.contexts ==> Start(id, s.contexts[id].challenge) in s.starts)
    && (forall a :: a in s.threads && s.threads[a].Serving? ==> Owed(lib, s, s.threads[a].request))
    && (forall k :: 0 <= k < |s.certs| ==> Justified(lib, s.starts, s.certs[k]))
  }

  ghost predicate Owed(lib: Libraries, s: State<Request>, q: Request) {
    lib.authenticate(q.token) == Some(q.doc) && Start(q.id, q.context.challenge) in s.starts
  }

  lemma JustifiedLater(lib: Libraries, starts: seq<Start>, more: seq<Start>, c: Issue)
    requires Justified(lib, starts, c)
    ensures Justified(lib, starts + more, c)
  {
    assert (starts + more)[..c.startsSeen] == starts[..c.startsSeen];
  }

  lemma InsertHistory(lib: Libraries, s: State<Request>, tid: nat, firmware: string, challenge: seq<Byte>)
    requires History(lib, s)
    ensures History(lib, Insert(s, tid, firmware, challenge))
  {
    if tid in s.threads && s.threads[tid].Starting? {
      var u := Insert(s, tid, firmware, challenge);
      forall k | 0 <= k < |s.certs| ensures Justified(lib, u.starts, s.certs[k]) {
        JustifiedLater(lib, s.starts, [Start(s.threads[tid].id, challenge)], s.certs[k]);
      }
      assert Start(s.threads[tid].id, challenge) in u.starts;
      assert forall x :: x in s.starts ==> x in u.starts;
      forall a | a in u.threads && u.threads[a].Serving? ensures Owed(lib, u, u.threads[a].request) {
        assert a in s.threads && Owed(lib, s, s.threads[a].request);
      }
    }
  }

  lemma {:induction false} HistoryInRuns(lib: Libraries, s: State<Request>, es: seq<Event>)
    requires History(lib, s)
    ensures History(lib, Run(lib, s, es))
    decreases |es|
  {
    if es != [] {
      match es[0] {
        case FetchId(tid) =>
        case StoreContext(tid, firmware, challenge) => InsertHistory(lib, s, tid, firmware, challenge);
        case GiveUp(tid) =>
        case TakeContext(tid, token, id) =>
        case Reply(tid) =>
      }
      HistoryInRuns(lib, Next(lib, s, es[0]), es[1..]);
    }
  }

  /**
   * In every run, each certificate answers an earlier start of that device whose challenge its document carries, and
   * certifies the request and measurement of that document.
   */
  lemma CertificatesAnswerStarts(lib: Libraries, es: seq<Event>, k: nat)
    requires k < |Run(lib, Initial(), es).certs|
    ensures var s := Run(lib, Initial(), es); Justified(lib, s.starts, s.certs[k])
  {
    HistoryInRuns(lib, Initial(), es);
  }

  // ---------------------------------------------------------------------------
  // Each start is consumed at most once.
  // ---------------------------------------------------------------------------

  /** A device is waiting to be stored, stored, being served or certified, and only one of these, once. */
  ghost predicate Linear(s: State<Request>) {
    && Fresh(s) && OncePerId(s.certs)
    && (forall a, b :: a in s.threads && b in s.threads && a != b && s.threads[a].Serving? && s.threads[b].Serving?
          ==> s.threads[a].request.id != s.threads[b].request.id)
    && (forall a :: a in s.threads && s.threads[a].Serving? ==>
          var id := s.threads[a].request.id;
          id !in s.contexts && !HasCertificate(s.certs, id) && HasStart(s.starts, id))
    && (forall id :: id in s.contexts ==> !HasCertificate(s.certs, id) && HasStart(s.starts, id))
    && (forall k :: 0 <= k < |s.certs| ==> HasStart(s.starts, s.certs[k].id))
  }

  lemma InsertLinear(s: State<Request>, tid: nat, firmware: string, challenge: seq<Byte>)
    requires Linear(s)
    ensures Linear(Insert(s, tid, firmware, challenge))
  {
    hide Fresh, HasStart, HasCertificate, OncePerId;
    InsertFresh(s, tid, firmware, challenge);
    if tid in s.threads && s.threads[tid].Starting? {
      var id := s.threads[tid].id;
      StartingIsNew(s, tid);
      NotYetCertified(s.starts, s.certs, id);
      forall x {
        HasStartLater(s.starts, Start(id, challenge), x);
      }
    }
  }

  lemma TakeLinear(lib: Libraries, s: State<Request>, tid: nat, token: seq<Byte>, id: I32)
    requires Linear(s)
    ensures Linear(Take(lib, s, tid, token, id))
  {
    hide HasStart, HasCertificate, OncePerId, Fresh;
    TakeFresh(lib, s, tid, token, id);
  }

  lemma TakeFresh(lib: Libraries, s: State<Request>, tid: nat, token: seq<Byte>, id: I32)
    requires Fresh(s)
    ensures Fresh(Take(lib, s, tid, token, id))
  {
    hide HasStart, Index;
    var u := Take(lib, s, tid, token, id);
    assert forall a :: a in u.threads && u.threads[a].Starting? ==> a in s.threads && u.threads[a] == s.threads[a];
  }

  lemma FinishLinear(lib: Libraries, s: State<Request>, tid: nat)
    requires Linear(s)
    ensures Linear(Finish(lib, s, tid))
  {
    hide Check, HasStart;
    if tid in s.threads && s.threads[tid].Serving? {
      var u, id := Finish(lib, s, tid), s.threads[tid].request.id;
      assert !HasCertificate(s.certs, id);
      forall j, k | 0 <= j < k < |u.certs| ensures u.certs[j].id != u.certs[k].id {
        assert j < |s.certs| && s.certs[j] == u.certs[j];
      }
      forall x | x != id && HasCertificate(u.certs, x) ensures HasCertificate(s.certs, x) {
        var k :| 0 <= k < |u.certs| && u.certs[k].id == x;
        assert s.certs[k].id == x;
      }
    }
  }

  lemma AbandonFresh(s: State<Request>, tid: nat)
    requires Fresh(s)
    ensures Fresh(Abandon(s, tid))
  {
    hide HasStart, Index;
  }

  lemma NextLinear(lib: Libraries, s: State<Request>, e: Event)
    requires Linear(s) && Next(lib, s, e).fetched <= U32
    ensures Linear(Next(lib, s, e))
  {
    hide HasStart, HasCertificate, OncePerId, Fresh, Check;
    match e
    case FetchId(tid) =>
      if tid !in s.threads {
        FetchFresh(s, tid);
      }
    case StoreContext(tid, firmware, challenge) => InsertLinear(s, tid, firmware, challenge);
    case GiveUp(tid) => AbandonFresh(s, tid);
    case TakeContext(tid, token, id) => TakeLinear(lib, s, tid, token, id);
    case Reply(tid) => FinishLinear(lib, s, tid);
  }

  lemma {:induction false} FetchedGrows(lib: Libraries, s: State<Request>, es: seq<Event>)
    ensures Run(lib, s, es).fetched >= s.fetched
    decreases |es|
  {
    if es != [] {
      FetchedGrows(lib, Next(lib, s, es[0]), es[1..]);
    }
  }

  lemma {:induction false} LinearInRuns(lib: Libraries, s: State<Request>, es: seq<Event>)
    requires Linear(s) && Run(lib, s, es).fetched <= U32
    ensures Linear(Run(lib, s, es))
    decreases |es|
  {
    hide Linear, Next;
    if es != [] {
      FetchedGrows(lib, Next(lib, s, es[0]), es[1..]);
      NextLinear(lib, s, es[0]);
      LinearInRuns(lib, Next(lib, s, es[0]), es[1..]);
    }
  }

  /**
   * However the locked sections of concurrent requests interleave: as long as ids have not wrapped, different starts
   * have different ids, no two certificates are given out for one start, and a certified device has no context left.
   */
  lemma StartsAreConsumedOnce(lib: Libraries, es: seq<Event>)
    requires Run(lib, Initial(), es).fetched <= U32
    ensures var s := Run(lib, Initial(), es);
            && OncePerId(s.certs)
            && (forall j, k :: 0 <= j < k < |s.starts| ==> s.starts[j].id != s.starts[k].id)
            && (forall k :: 0 <= k < |s.certs| ==> s.certs[k].id !in s.contexts)
  {
    LinearInRuns(lib, Initial(), es);
    var s := Run(lib, Initial(), es);
    hide Run;
    forall k | 0 <= k < |s.certs| ensures s.certs[k].id !in s.contexts {
      assert HasCertificate(s.certs, s.certs[k].id);
    }
  }
}
