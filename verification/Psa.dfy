/** PSA attestation (proxy-attestation-server/src/attestation/psa.rs). */
module Psa {
  import opened Common
  import opened Attestation

  /** The libraries: verification of a signed token to its payload, the hash, and signing of requests. */
  datatype Libraries = Libraries(
    verify: seq<Byte> -> Option<seq<Byte>>,
    sha256: seq<Byte> -> seq<Byte>,
    signable: Certificate -> bool)

  /** The checks on a token against the stored context; a payload that is too short panics where it is sliced. */
  function Check(lib: Libraries, token: seq<Byte>, csr: seq<Byte>, context: Context): Answer {
    var payload := lib.verify(token);
    if payload.None? then Refused(BadToken) else
    var p := payload.value;
    if |p| < 40 then Refused(Panicked)
    else if context.challenge != p[8..40] then Refused(Mismatch)
    else if |p| < 118 then Refused(Panicked)
    else if p[86..118] != lib.sha256(csr) then Refused(CsrMismatch)
    else
      var c := Certificate(csr, p[47..79]);
      if lib.signable(c) then Certified(c) else Refused(BadCsr)
  }

  /** A token request that is not interrupted: the context stays unless a certificate is given out. */
  function TokenAlone(lib: Libraries, contexts: map<I32, Context>, token: seq<Byte>, csr: seq<Byte>, id: I32)
    : (map<I32, Context>, Answer)
  {
    if id !in contexts then (contexts, Refused(NoDevice))
    else
      var a := Check(lib, token, csr, contexts[id]);
      (if a.Certified? then contexts - {id} else contexts, a)
  }

  /** `attestation_token`: the context is copied first and removed last. */
  method AttestationToken(registry: Registry, lib: Libraries, token: seq<Byte>, csr: seq<Byte>, id: I32)
    returns (a: Answer)
    modifies registry
    ensures (registry.contexts, a) == TokenAlone(lib, old(registry.contexts), token, csr, id)
    ensures registry.deviceId == old(registry.deviceId)
  {
    if id !in registry.contexts {
      return Refused(NoDevice);
    }
    var context := registry.contexts[id];
    var payload := lib.verify(token);
    if payload.None? {
      return Refused(BadToken);
    }
    var p := payload.value;
    if |p| < 40 {
      return Refused(Panicked);
    }
    if context.challenge != p[8..40] {
      return Refused(Mismatch);
    }
    if |p| < 118 {
      return Refused(Panicked);
    }
    if p[86..118] != lib.sha256(csr) {
      return Refused(CsrMismatch);
    }
    var c := Certificate(csr, p[47..79]);
    if !lib.signable(c) {
      return Refused(BadCsr);
    }
    registry.contexts := registry.contexts - {id};
    return Certified(c);
  }

  // ---------------------------------------------------------------------------
  // Concurrent requests.
  // ---------------------------------------------------------------------------

  /** A token request with its copy of the context, and the certificate once the checks have passed. */
  datatype Request = Request(id: I32, token: seq<Byte>, csr: seq<Byte>, context: Context, made: Option<Certificate>)

  datatype Event =
    | FetchId(tid: nat)
    | StoreContext(tid: nat, firmware: string, challenge: seq<Byte>)
    | GiveUp(tid: nat)
    | CopyContext(tid: nat, token: seq<Byte>, csr: seq<Byte>, id: I32)
    | Examine(tid: nat)
    | RemoveContext(tid: nat)

  /** The first locked section. */
  function Copy(s: State<Request>, tid: nat, token: seq<Byte>, csr: seq<Byte>, id: I32): State<Request> {
    if tid in s.threads || id !in s.contexts then s
    else s.(threads := s.threads[tid := Serving(Request(id, token, csr, s.contexts[id], None))])
  }

  function Inspect(lib: Libraries, s: State<Request>, tid: nat): State<Request> {
    if tid in s.threads && s.threads[tid].Serving? && s.threads[tid].request.made.None? then
      var q := s.threads[tid].request;
      var a := Check(lib, q.token, q.csr, q.context);
      if a.Certified? then s.(threads := s.threads[tid := Serving(q.(made := Some(a.certificate)))])
      else s.(threads := s.threads - {tid})
    else s
  }

  /** The second locked section, after which the certificate goes out. */
  function Remove(s: State<Request>, tid: nat): State<Request> {
    if tid in s.threads && s.threads[tid].Serving? && s.threads[tid].request.made.Some? then
      var q := s.threads[tid].request;
      s.(threads := s.threads - {tid}, contexts := s.contexts - {q.id},
         certs := s.certs + [Issue(q.id, q.token, q.context.challenge, q.made.value, |s.starts|)])
    else s
  }

  function Next(lib: Libraries, s: State<Request>, e: Event): State<Request> {
    match e
    case FetchId(tid) => Fetch(s, tid)
    case StoreContext(tid, firmware, challenge) => Insert(s, tid, firmware, challenge)
    case GiveUp(tid) => Abandon(s, tid)
    case CopyContext(tid, token, csr, id) => Copy(s, tid, token, csr, id)
    case Examine(tid) => Inspect(lib, s, tid)
    case RemoveContext(tid) => Remove(s, tid)
  }

  function Run(lib: Libraries, s: State<Request>, es: seq<Event>): State<Request>
    decreases |es|
  {
    if es == [] then s else Run(lib, Next(lib, s, es[0]), es[1..])
  }

  /** A token request whose three steps are not interrupted is the method. */
  lemma OneAtATime(lib: Libraries, s: State<Request>, tid: nat, token: seq<Byte>, csr: seq<Byte>, id: I32)
    requires tid !in s.threads
    ensures var u := Remove(Inspect(lib, Copy(s, tid, token, csr, id), tid), tid);
            var (contexts, a) := TokenAlone(lib, s.contexts, token, csr, id);
            && u.contexts == contexts && u.threads == s.threads && u.starts == s.starts
            && (a.Refused? ==> u.certs == s.certs)
            && (a.Certified? ==>
                u.certs == s.certs + [Issue(id, token, s.contexts[id].challenge, a.certificate, |s.starts|)])
  {
    hide Check;
    if id in s.contexts {
      var t := Copy(s, tid, token, csr, id);
      assert t.threads - {tid} == s.threads;
      assert Inspect(lib, t, tid).threads - {tid} == s.threads;
    }
  }

  // ---------------------------------------------------------------------------
  // What every run keeps.
  // ---------------------------------------------------------------------------

  /** The token's payload carries the challenge of an earlier start of the same device and the hash of the request. */
  ghost predicate Justified(lib: Libraries, starts: seq<Start>, c: Issue) {
    && c.startsSeen <= |starts| && Start(c.id, c.challenge) in starts[..c.startsSeen]
    && Proves(lib, c.token, c.challenge, c.certificate)
  }

  ghost predicate Proves(lib: Libraries, token: seq<Byte>, challenge: seq<Byte>, c: Certificate) {
    var p := lib.verify(token);
    && p.Some? && |p.value| >= 118 && p.value[8..40] == challenge && p.value[86..118] == lib.sha256(c.csr)
    && p.value[47..79] == c.enclaveHash && lib.signable(c)
  }

  ghost predicate Owed(lib: Libraries, s: State<Request>, q: Request) {
    && Start(q.id, q.context.challenge) in s.starts
    && (q.made.Some? ==> Proves(lib, q.token, q.context.challenge, q.made.value))
  }

  ghost predicate History(lib: Libraries, s: State<Request>) {
    && (forall id :: id in s.contexts ==> Start(id, s.contexts[id].challenge) in s.starts)
    && (forall a :: a in s.threads && s.threads[a].Serving? ==> Owed(lib, s, s.threads[a].request))
    && (forall k :: 0 <= k < |s.certs| ==> Justified(lib, s.starts, s.certs[k]))
  }

  lemma InsertHistory(lib: Libraries, s: State<Request>, tid: nat, firmware: string, challenge: seq<Byte>)
    requires History(lib, s)
    ensures History(lib, Insert(s, tid, firmware, challenge))
  {
    hide Proves;
    if tid in s.threads && s.threads[tid].Starting? {
      var u := Insert(s, tid, firmware, challenge);
      forall k | 0 <= k < |s.certs| ensures Justified(lib, u.starts, s.certs[k]) {
        assert Justified(lib, s.starts, s.certs[k]);
        assert u.starts[..s.certs[k].startsSeen] == s.starts[..s.certs[k].startsSeen];
      }
      assert Start(s.threads[tid].id, challenge) in u.starts;
      assert forall x :: x in s.starts ==> x in u.starts;
      forall a | a in u.threads && u.threads[a].Serving? ensures Owed(lib, u, u.threads[a].request) {
        assert a in s.threads && Owed(lib, s, s.threads[a].request);
      }
    }
  }

  lemma InspectHistory(lib: Libraries, s: State<Request>, tid: nat)
    requires History(lib, s)
    ensures History(lib, Inspect(lib, s, tid))
  {
    hide Justified;
    if tid in s.threads && s.threads[tid].Serving? {
      assert Owed(lib, s, s.threads[tid].request);
    }
  }

  lemma RemoveHistory(lib: Libraries, s: State<Request>, tid: nat)
    requires History(lib, s)
    ensures History(lib, Remove(s, tid))
  {
    hide Proves;
    if tid in s.threads && s.threads[tid].Serving? && s.threads[tid].request.made.Some? {
      assert Owed(lib, s, s.threads[tid].request) && s.starts[..|s.starts|] == s.starts;
    }
  }

  lemma NextHistory(lib: Libraries, s: State<Request>, e: Event)
    requires History(lib, s)
    ensures History(lib, Next(lib, s, e))
  {
    hide Justified, Proves, Check;
    match e
    case FetchId(tid) =>
    case StoreContext(tid, firmware, challenge) => InsertHistory(lib, s, tid, firmware, challenge);
    case GiveUp(tid) =>
    case CopyContext(tid, token, csr, id) =>
    case Examine(tid) => InspectHistory(lib, s, tid);
    case RemoveContext(tid) => RemoveHistory(lib, s, tid);
  }

  lemma {:induction false} HistoryInRuns(lib: Libraries, s: State<Request>, es: seq<Event>)
    requires History(lib, s)
    ensures History(lib, Run(lib, s, es))
    decreases |es|
  {
    hide History, Next;
    if es != [] {
      NextHistory(lib, s, es[0]);
      HistoryInRuns(lib, Next(lib, s, es[0]), es[1..]);
    }
  }

  /**
   * In every run, each certificate answers an earlier start of that device whose challenge its token carries, and
   * certifies only the request whose hash is in the token.
   */
  lemma CertificatesAnswerStarts(lib: Libraries, es: seq<Event>, k: nat)
    requires k < |Run(lib, Initial(), es).certs|
    ensures var s := Run(lib, Initial(), es); Justified(lib, s.starts, s.certs[k])
  {
    HistoryInRuns(lib, Initial(), es);
  }

  // ---------------------------------------------------------------------------
  // One certificate per start, exactly when every removal finds its context.
  // ---------------------------------------------------------------------------

  /**
   * What holds whatever interleaves: a stored device is not certified, and a device being served that is no longer
   * stored is.
   */
  ghost predicate Settled(s: State<Request>) {
    && Fresh(s)
    && (forall id :: id in s.contexts ==> !HasCertificate(s.certs, id) && HasStart(s.starts, id))
    && (forall a :: a in s.threads && s.threads[a].Serving? ==>
          var id := s.threads[a].request.id; id in s.contexts || HasCertificate(s.certs, id))
    && (forall k :: 0 <= k < |s.certs| ==> HasStart(s.starts, s.certs[k].id))
  }

  /** The step removes the context of a request that has passed, and finds it gone: the result of `remove` is `None`. */
  predicate FindsNothing(s: State<Request>, e: Event) {
    && e.RemoveContext? && e.tid in s.threads && s.threads[e.tid].Serving? && s.threads[e.tid].request.made.Some?
    && s.threads[e.tid].request.id !in s.contexts
  }

  /** No removal of the run finds its context gone. */
  ghost predicate RemovalsFind(lib: Libraries, s: State<Request>, es: seq<Event>)
    decreases |es|
  {
    es == [] || (!FindsNothing(s, es[0]) && RemovalsFind(lib, Next(lib, s, es[0]), es[1..]))
  }

  lemma InsertSettled(s: State<Request>, tid: nat, firmware: string, challenge: seq<Byte>)
    requires Settled(s)
    ensures Settled(Insert(s, tid, firmware, challenge))
  {
    hide Fresh, HasStart, HasCertificate;
    InsertFresh(s, tid, firmware, challenge);
    if tid in s.threads && s.threads[tid].Starting? {
      var id := s.threads[tid].id;
      StartingIsNew(s, tid);
      NotYetCertified(s.starts, s.certs, id);
      forall x {
        HasStartLater(s.starts, Start(id, challenge), x);
      }
    }
  }

  lemma HasCertificateLater(certs: seq<Issue>, c: Issue, id: I32)
    ensures HasCertificate(certs + [c], id) <==> HasCertificate(certs, id) || c.id == id
  {
    var more := certs + [c];
    if k :| 0 <= k < |certs| && certs[k].id == id {
      assert more[k].id == id;
    }
    assert more[|certs|] == c;
  }

  lemma OncePerIdLater(certs: seq<Issue>, c: Issue)
    ensures OncePerId(certs + [c]) <==> OncePerId(certs) && !HasCertificate(certs, c.id)
  {
    var more := certs + [c];
    assert forall k :: 0 <= k < |certs| ==> more[k] == certs[k];
    assert more[|certs|] == c;
    if OncePerId(more) {
      forall j, k | 0 <= j < k < |certs| ensures certs[j].id != certs[k].id {
        assert more[j].id != more[k].id;
      }
    }
  }

  lemma CertifiedStarted(starts: seq<Start>, certs: seq<Issue>, id: I32)
    requires HasCertificate(certs, id) && forall k :: 0 <= k < |certs| ==> HasStart(starts, certs[k].id)
    ensures HasStart(starts, id)
  {
    hide HasStart;
  }

  /** The removing step gives out a second certificate for a device exactly when it finds no context. */
  lemma RemoveSettled(s: State<Request>, tid: nat)
    requires Settled(s)
    ensures Settled(Remove(s, tid))
    ensures OncePerId(Remove(s, tid).certs) <==> OncePerId(s.certs) && !FindsNothing(s, RemoveContext(tid))
  {
    hide HasStart, HasCertificate, OncePerId;
    if tid in s.threads && s.threads[tid].Serving? && s.threads[tid].request.made.Some? {
      var q := s.threads[tid].request;
      var c := Issue(q.id, q.token, q.context.challenge, q.made.value, |s.starts|);
      OncePerIdLater(s.certs, c);
      if q.id !in s.contexts {
        CertifiedStarted(s.starts, s.certs, q.id);
      }
      forall id {
        HasCertificateLater(s.certs, c, id);
      }
    }
  }

  /** A step that changes only which token requests are under way. */
  lemma ServingSettled(s: State<Request>, u: State<Request>)
    requires Settled(s) && u == s.(threads := u.threads)
    requires forall a :: a in u.threads && u.threads[a].Starting? ==> a in s.threads && u.threads[a] == s.threads[a]
    requires forall a :: a in u.threads && u.threads[a].Serving? ==>
               var id := u.threads[a].request.id; id in s.contexts || HasCertificate(s.certs, id)
    ensures Settled(u)
  {
    hide HasStart, HasCertificate;
  }

  lemma NextSettled(lib: Libraries, s: State<Request>, e: Event)
    requires Settled(s) && Next(lib, s, e).fetched <= U32
    ensures Settled(Next(lib, s, e))
    ensures OncePerId(Next(lib, s, e).certs) <==> OncePerId(s.certs) && !FindsNothing(s, e)
  {
    hide HasStart, HasCertificate, OncePerId, Check, Fresh;
    match e
    case FetchId(tid) =>
      if tid !in s.threads {
        FetchFresh(s, tid);
      }
    case StoreContext(tid, firmware, challenge) => InsertSettled(s, tid, firmware, challenge);
    case GiveUp(tid) => ServingSettled(s, Abandon(s, tid));
    case CopyContext(tid, token, csr, id) => ServingSettled(s, Copy(s, tid, token, csr, id));
    case Examine(tid) => ServingSettled(s, Inspect(lib, s, tid));
    case RemoveContext(tid) => RemoveSettled(s, tid);
  }

  lemma {:induction false} FetchedGrows(lib: Libraries, s: State<Request>, es: seq<Event>)
    ensures Run(lib, s, es).fetched >= s.fetched
    decreases |es|
  {
    hide Check;
    if es != [] {
      FetchedGrows(lib, Next(lib, s, es[0]), es[1..]);
    }
  }

  lemma {:induction false} SettledInRuns(lib: Libraries, s: State<Request>, es: seq<Event>)
    requires Settled(s) && Run(lib, s, es).fetched <= U32
    ensures Settled(Run(lib, s, es))
    ensures OncePerId(Run(lib, s, es).certs) <==> OncePerId(s.certs) && RemovalsFind(lib, s, es)
    decreases |es|
  {
    hide Settled, Next, OncePerId, FindsNothing;
    if es != [] {
      FetchedGrows(lib, Next(lib, s, es[0]), es[1..]);
      NextSettled(lib, s, es[0]);
      SettledInRuns(lib, Next(lib, s, es[0]), es[1..]);
    }
  }

  /**
   * The exact condition, for every interleaving and as long as ids have not wrapped: no start yields two certificates
   * if and only if no removal in the second locked section finds its context gone.
   */
  lemma OnceIffRemovalsFind(lib: Libraries, es: seq<Event>)
    requires Run(lib, Initial(), es).fetched <= U32
    ensures var s := Run(lib, Initial(), es);
            && (OncePerId(s.certs) <==> RemovalsFind(lib, Initial(), es))
            && (forall j, k :: 0 <= j < k < |s.starts| ==> s.starts[j].id != s.starts[k].id)
            && (forall k :: 0 <= k < |s.certs| ==> s.certs[k].id !in s.contexts)
  {
    SettledInRuns(lib, Initial(), es);
    var s := Run(lib, Initial(), es);
    hide Run, RemovalsFind;
    forall k | 0 <= k < |s.certs| ensures s.certs[k].id !in s.contexts {
      assert HasCertificate(s.certs, s.certs[k].id);
    }
  }

  // ---------------------------------------------------------------------------
  // Requests for one device that do not overlap are enough.
  // ---------------------------------------------------------------------------

  /** No two token requests for one device are under way at once. */
  ghost predicate Exclusive(s: State<Request>) {
    forall a, b :: a in s.threads && b in s.threads && a != b && s.threads[a].Serving? && s.threads[b].Serving?
      ==> s.threads[a].request.id != s.threads[b].request.id
  }

  ghost predicate ExclusiveRun(lib: Libraries, s: State<Request>, es: seq<Event>)
    decreases |es|
  {
    Exclusive(s) && (es != [] ==> ExclusiveRun(lib, Next(lib, s, es[0]), es[1..]))
  }

  ghost predicate AllStored(s: State<Request>) {
    forall a :: a in s.threads && s.threads[a].Serving? ==> s.threads[a].request.id in s.contexts
  }

  lemma NextStored(lib: Libraries, s: State<Request>, e: Event)
    requires AllStored(s) && Exclusive(s)
    ensures AllStored(Next(lib, s, e)) && !FindsNothing(s, e)
  {
    hide Check;
  }

  lemma {:induction false} ExclusiveFinds(lib: Libraries, s: State<Request>, es: seq<Event>)
    requires AllStored(s) && ExclusiveRun(lib, s, es)
    ensures RemovalsFind(lib, s, es)
    decreases |es|
  {
    hide AllStored, Exclusive, Next, FindsNothing;
    if es != [] {
      NextStored(lib, s, es[0]);
      ExclusiveFinds(lib, Next(lib, s, es[0]), es[1..]);
    }
  }

  /** With at most one request per device under way at a time, each start yields at most one certificate. */
  lemma OneCertificatePerStart(lib: Libraries, es: seq<Event>)
    requires ExclusiveRun(lib, Initial(), es) && Run(lib, Initial(), es).fetched <= U32
    ensures OncePerId(Run(lib, Initial(), es).certs)
  {
    hide Run, ExclusiveRun, RemovalsFind, OncePerId;
    ExclusiveFinds(lib, Initial(), es);
    OnceIffRemovalsFind(lib, es);
  }

  lemma RunFrom(lib: Libraries, s: State<Request>, es: seq<Event>, k: nat)
    requires k < |es|
    ensures Run(lib, s, es[k..]) == Run(lib, Next(lib, s, es[k]), es[k + 1..])
    ensures ExclusiveRun(lib, s, es[k..]) ==> Exclusive(s) && ExclusiveRun(lib, Next(lib, s, es[k]), es[k + 1..])
  {
    hide Next, Exclusive;
    assert es[k..][0] == es[k] && es[k..][1..] == es[k + 1..];
  }

  /** Two requests for one device under way at once that both pass the checks do find it gone. */
  lemma OverlapCertifiesTwice(lib: Libraries, s: State<Request>, a: nat, b: nat, id: I32)
    requires a != b && a in s.threads && b in s.threads && s.threads[a].Serving? && s.threads[b].Serving?
    requires var q, r := s.threads[a].request, s.threads[b].request;
             && q.id == r.id == id && q.made.None? && r.made.None?
             && Check(lib, q.token, q.csr, q.context).Certified? && Check(lib, r.token, r.csr, r.context).Certified?
    ensures var u := Run(lib, s, [Examine(a), Examine(b), RemoveContext(a), RemoveContext(b)]);
            !Exclusive(s) && u.starts == s.starts && !OncePerId(u.certs) && HasCertificate(u.certs, id)
  {
    hide Check, Run, ExclusiveRun;
    var es := [Examine(a), Examine(b), RemoveContext(a), RemoveContext(b)];
    var s1 := Inspect(lib, s, a);
    var s2 := Inspect(lib, s1, b);
    var s3 := Remove(s2, a);
    var u := Remove(s3, b);
    RunFrom(lib, s, es, 0);
    RunFrom(lib, s1, es, 1);
    RunFrom(lib, s2, es, 2);
    RunFrom(lib, s3, es, 3);
    assert es[0..] == es;
    RunNone(lib, u, es[4..]);
    var n := |s.certs|;
    assert u.certs[n].id == u.certs[n + 1].id == id;
  }

  lemma RunNone(lib: Libraries, s: State<Request>, es: seq<Event>)
    requires es == []
    ensures Run(lib, s, es) == s
  {
  }

  lemma {:induction false} RunAppend(lib: Libraries, s: State<Request>, a: seq<Event>, b: seq<Event>)
    ensures Run(lib, s, a + b) == Run(lib, Run(lib, s, a), b)
    decreases |a|
  {
    hide Next;
    if a == [] {
      assert a + b == b;
    } else {
      assert (a + b)[1..] == a[1..] + b && (a + b)[0] == a[0];
      RunAppend(lib, Next(lib, s, a[0]), a[1..], b);
    }
  }

  /** Two requests that copy the context of the first start in turn. */
  function Overlapping(challenge: seq<Byte>, token: seq<Byte>, csr: seq<Byte>): seq<Event> {
    [FetchId(0), StoreContext(0, "", challenge), CopyContext(1, token, csr, 1), CopyContext(2, token, csr, 1)]
  }

  lemma OverlapIsReached(lib: Libraries, challenge: seq<Byte>, token: seq<Byte>, csr: seq<Byte>)
    ensures var s := Run(lib, Initial(), Overlapping(challenge, token, csr));
            var q := Request(1, token, csr, Context("", challenge), None);
            |s.starts| == 1 && s.threads == map[1 := Serving(q), 2 := Serving(q)]
  {
    hide Run, ExclusiveRun;
    var es := Overlapping(challenge, token, csr);
    var s0: State<Request> := Initial();
    var s1 := Fetch(s0, 0);
    var s2 := Insert(s1, 0, "", challenge);
    var s3 := Copy(s2, 1, token, csr, 1);
    RunFrom(lib, s0, es, 0);
    RunFrom(lib, s1, es, 1);
    RunFrom(lib, s2, es, 2);
    RunFrom(lib, s3, es, 3);
    assert es[0..] == es;
    RunNone(lib, Copy(s3, 2, token, csr, 1), es[4..]);
  }

  /** Such a state is reached after a single start, with any token that passes the checks. */
  lemma TwoCertificatesForOneStart(lib: Libraries, challenge: seq<Byte>, token: seq<Byte>, csr: seq<Byte>)
    requires Check(lib, token, csr, Context("", challenge)).Certified?
    ensures exists es :: var u := Run(lib, Initial(), es); |u.starts| == 1 && !OncePerId(u.certs)
  {
    hide Check, Run, OncePerId, HasCertificate, Exclusive, Overlapping;
    var before := Overlapping(challenge, token, csr);
    var after := [Examine(1), Examine(2), RemoveContext(1), RemoveContext(2)];
    OverlapIsReached(lib, challenge, token, csr);
    OverlapCertifiesTwice(lib, Run(lib, Initial(), before), 1, 2, 1);
    RunAppend(lib, Initial(), before, after);
    assert |Run(lib, Initial(), before + after).starts| == 1;
  }
}
