/**
  The authorization-code flow as its participants see it: an honest flow ends in tokens whatever else goes on, and
  tokens come from nothing but such a flow.
*/
module PkceFlow {
  import opened Options
  import opened Pkce

  // ----- one request -----

  /**
    An Authorize request with a fresh consent id is accepted exactly when client and redirect are given, the redirect is
    among those registered (or nothing validates it) and the challenge method is absent or S256.
  */
  lemma AuthorizeAcceptsExactlyWhen(hash: Hash, before: seq<Event>, e: Event)
    requires e.Authorize? && e.now >= Run(hash, before).clock && e.consentId !in Run(hash, before).ids
    ensures var s, s' := Run(hash, before), Step(hash, Run(hash, before), e);
            var accepted := && e.request.clientId != "" && e.request.redirectUri != ""
                            && (e.registered.None? || e.request.redirectUri in e.registered.value)
                            && (e.challengeMethod == "" || e.challengeMethod == "S256");
            && s'.requests == (if accepted then s.requests[e.consentId := e.request.(createdAt := e.now)]
                               else s.requests)
            && (e.consentId in s'.requests <==> accepted)
            && (accepted ==> e.consentId in s'.store.pending
                             && s'.store.pending[e.consentId] == e.request.(createdAt := e.now))
  {
    RunKeepsInv(hash, before);
    assert e.consentId !in Run(hash, before).requests;
  }

  /** Consent run alone is its two sections in a row. */
  lemma ConsentIsTakeThenStore(hash: Hash, s: State, consentId: string, approve: bool, code: string,
                               takenAt: int, codeAt: int)
    requires s.clock <= takenAt <= codeAt && code !in s.ids && s.calls !in s.inflight
    ensures var s2 := Step(hash, Step(hash, s, TakeConsent(consentId, approve, takenAt)),
                           StoreCode(s.calls, code, codeAt));
            var (store, reply) := Consented(s.store, consentId, approve, code, takenAt, codeAt);
            && s2.store == store && s2.inflight == s.inflight
            && (code in s2.ids <==> reply.Approved?)
  {
    var s1 := Step(hash, s, TakeConsent(consentId, approve, takenAt));
    if s.calls in s1.inflight {
      assert s1.inflight - {s.calls} == s.inflight;
    }
  }

  // ----- an honest flow succeeds -----

  lemma {:induction false} PendingStays(hash: Hash, s: State, events: seq<Event>, id: string)
    requires id in s.ids && id in s.store.pending
    requires forall k | 0 <= k < |events| :: !(events[k].TakeConsent? && events[k].consentId == id)
    ensures var s' := RunOn(hash, s, events);
            id in s'.ids && id in s'.store.pending && s'.store.pending[id] == s.store.pending[id]
    decreases |events|
  {
    if events != [] {
      PendingStays(hash, s, events[..|events| - 1], id);
      StepKeepsPending(hash, RunOn(hash, s, events[..|events| - 1]), events[|events| - 1], id);
    }
  }

  lemma StepKeepsPending(hash: Hash, s: State, e: Event, id: string)
    requires id in s.ids && id in s.store.pending && !(e.TakeConsent? && e.consentId == id)
    ensures var s' := Step(hash, s, e);
            id in s'.ids && id in s'.store.pending && s'.store.pending[id] == s.store.pending[id]
  {
  }

  lemma StepKeepsFlight(hash: Hash, s: State, e: Event, call: nat)
    requires call in s.inflight && call < s.calls && !(e.StoreCode? && e.call == call)
    ensures var s' := Step(hash, s, e);
            call in s'.inflight && call < s'.calls && s'.inflight[call] == s.inflight[call]
  {
  }

  lemma {:induction false} FlightStays(hash: Hash, s: State, events: seq<Event>, call: nat)
    requires call in s.inflight && call < s.calls
    requires forall k | 0 <= k < |events| :: !(events[k].StoreCode? && events[k].call == call)
    ensures var s' := RunOn(hash, s, events);
            call in s'.inflight && call < s'.calls && s'.inflight[call] == s.inflight[call]
    decreases |events|
  {
    if events != [] {
      FlightStays(hash, s, events[..|events| - 1], call);
      StepKeepsFlight(hash, RunOn(hash, s, events[..|events| - 1]), events[|events| - 1], call);
    }
  }

  lemma {:induction false} ClockAdvances(hash: Hash, s: State, events: seq<Event>)
    ensures RunOn(hash, s, events).clock >= s.clock
    decreases |events|
  {
    if events != [] {
      ClockAdvances(hash, s, events[..|events| - 1]);
      StepAdvances(hash, RunOn(hash, s, events[..|events| - 1]), events[|events| - 1]);
    }
  }

  lemma StepAdvances(hash: Hash, s: State, e: Event)
    ensures Step(hash, s, e).clock >= s.clock
  {
  }

  /** The code is stored, with the time of its making. */
  predicate Stored(s: State, code: string, r: Request) {
    code in s.ids && code in s.store.codes && s.store.codes[code] == r
  }

  lemma StepKeepsStored(hash: Hash, s: State, e: Event, code: string, r: Request)
    requires Stored(s, code, r) && !(e.Exchange? && e.code == code)
    requires Step(hash, s, e).clock - r.createdAt <= 600_000_000_000
    ensures Stored(Step(hash, s, e), code, r)
  {
  }

  /** No sweep takes a code that is still in time. */
  lemma {:induction false} CodeStays(hash: Hash, s: State, events: seq<Event>, code: string, r: Request)
    requires Stored(s, code, r)
    requires forall k | 0 <= k < |events| :: !(events[k].Exchange? && events[k].code == code)
    requires RunOn(hash, s, events).clock - r.createdAt <= 600_000_000_000
    ensures Stored(RunOn(hash, s, events), code, r)
    decreases |events|
  {
    if events != [] {
      var n := |events| - 1;
      StepAdvances(hash, RunOn(hash, s, events[..n]), events[n]);
      CodeStays(hash, s, events[..n], code, r);
      StepKeepsStored(hash, RunOn(hash, s, events[..n]), events[n], code, r);
    }
  }

  /** The four events of one flow, and what else goes on between them. */
  datatype Flow = Flow(
    request: Event, afterRequest: seq<Event>,
    consent: Event, afterConsent: seq<Event>,
    making: Event, afterMaking: seq<Event>,
    exchange: Event)

  function Requested(hash: Hash, s: State, f: Flow): State {
    RunOn(hash, Step(hash, s, f.request), f.afterRequest)
  }

  function Approved(hash: Hash, s: State, f: Flow): State {
    RunOn(hash, Step(hash, Requested(hash, s, f), f.consent), f.afterConsent)
  }

  function Made(hash: Hash, s: State, f: Flow): State {
    RunOn(hash, Step(hash, Approved(hash, s, f), f.making), f.afterMaking)
  }

  /** A request that is accepted, and whose consent nobody else answers before its user does. */
  predicate HonestRequest(s: State, f: Flow) {
    && f.request.Authorize? && f.request.now >= s.clock && f.request.consentId !in s.ids
    && f.request.request.clientId != "" && f.request.request.redirectUri != ""
    && (f.request.registered.None? || f.request.request.redirectUri in f.request.registered.value)
    && (f.request.challengeMethod == "" || f.request.challengeMethod == "S256")
    && forall k | 0 <= k < |f.afterRequest| ::
         !(f.afterRequest[k].TakeConsent? && f.afterRequest[k].consentId == f.request.consentId)
  }

  /** The user approves within ten minutes. */
  predicate HonestConsent(s: State, f: Flow) {
    && f.request.Authorize?
    && f.consent.TakeConsent? && f.consent.consentId == f.request.consentId && f.consent.approve
    && f.consent.now >= s.clock && f.consent.now - f.request.now <= 600_000_000_000
    && forall k | 0 <= k < |f.afterConsent| :: !(f.afterConsent[k].StoreCode? && f.afterConsent[k].call == s.calls)
  }

  /** The same call stores the code it has generated, and nobody else presents that code. */
  predicate HonestMaking(s: State, call: nat, f: Flow) {
    && f.making.StoreCode? && f.making.call == call && f.making.now >= s.clock
    && f.making.code !in s.ids && f.making.code != ""
    && forall k | 0 <= k < |f.afterMaking| :: !(f.afterMaking[k].Exchange? && f.afterMaking[k].code == f.making.code)
  }

  predicate HonestUpToExchange(hash: Hash, s: State, f: Flow) {
    && HonestRequest(s, f) && HonestConsent(Requested(hash, s, f), f)
    && HonestMaking(Approved(hash, s, f), Requested(hash, s, f).calls, f)
    && f.exchange.Exchange? && f.exchange.code == f.making.code && f.exchange.now >= Made(hash, s, f).clock
  }

  lemma RequestedIsPending(hash: Hash, s: State, f: Flow)
    requires HonestRequest(s, f)
    ensures var s', id := Requested(hash, s, f), f.request.consentId;
            id in s'.store.pending && s'.store.pending[id] == f.request.request.(createdAt := f.request.now)
  {
    PendingStays(hash, Step(hash, s, f.request), f.afterRequest, f.request.consentId);
  }

  lemma ApprovedIsInFlight(hash: Hash, s: State, f: Flow)
    requires HonestRequest(s, f) && HonestConsent(Requested(hash, s, f), f)
    ensures var s', call := Approved(hash, s, f), Requested(hash, s, f).calls;
            call in s'.inflight && s'.inflight[call].request == f.request.request.(createdAt := f.request.now)
  {
    RequestedIsPending(hash, s, f);
    FlightStays(hash, Step(hash, Requested(hash, s, f), f.consent), f.afterConsent, Requested(hash, s, f).calls);
  }

  lemma MadeIsStored(hash: Hash, s: State, f: Flow)
    requires HonestUpToExchange(hash, s, f) && Made(hash, s, f).clock - f.making.now <= 600_000_000_000
    ensures Stored(Made(hash, s, f), f.making.code, f.request.request.(createdAt := f.making.now))
  {
    ApprovedIsInFlight(hash, s, f);
    CodeStays(hash, Step(hash, Approved(hash, s, f), f.making), f.afterMaking, f.making.code,
              f.request.request.(createdAt := f.making.now));
  }

  /** The code comes back in time, with the redirect it was given to and a verifier for the challenge, if any. */
  predicate ExchangedWell(hash: Hash, f: Flow)
    requires f.request.Authorize? && f.making.StoreCode? && f.exchange.Exchange?
  {
    && f.exchange.now - f.making.now <= 600_000_000_000
    && f.exchange.redirectUri == f.request.request.redirectUri
    && (f.request.request.challenge == ""
        || (f.exchange.verifier != "" && hash(f.exchange.verifier) == f.request.request.challenge))
  }

  /**
    An honest flow succeeds: from any state of any run, and whatever requests, consents, exchanges and sweeps of others
    come in between, a request that is approved in time calls the issuer at its exchange, for its client and scopes,
    exactly when the exchange is in time, with the right redirect and the right verifier.
  */
  lemma HonestFlowIssuesExactlyWhen(hash: Hash, before: seq<Event>, f: Flow)
    requires HonestUpToExchange(hash, Run(hash, before), f)
    ensures var s := Made(hash, Run(hash, before), f);
            var r := f.request.request;
            Step(hash, s, f.exchange).issued ==
            if ExchangedWell(hash, f)
            then s.issued + [IssuerCall(f.making.code, r.clientId, r.scopes, r.redirectUri, f.exchange.verifier,
                                        f.exchange.now)]
            else s.issued
  {
    var s0 := Run(hash, before);
    var s := Made(hash, s0, f);
    if f.exchange.now - f.making.now <= 600_000_000_000 {
      MadeIsStored(hash, s0, f);
    } else {
      LateIsRefused(hash, before, f);
    }
  }

  /** The code, if it is still stored, has the time of its making. */
  predicate NoYounger(s: State, code: string, made: int) {
    code in s.ids && (code in s.store.codes ==> s.store.codes[code].createdAt == made)
  }

  lemma StepKeepsAge(hash: Hash, s: State, e: Event, code: string, made: int)
    requires NoYounger(s, code, made)
    ensures NoYounger(Step(hash, s, e), code, made)
  {
  }

  lemma {:induction false} AgeStays(hash: Hash, s: State, events: seq<Event>, code: string, made: int)
    requires NoYounger(s, code, made)
    ensures NoYounger(RunOn(hash, s, events), code, made)
    decreases |events|
  {
    if events != [] {
      AgeStays(hash, s, events[..|events| - 1], code, made);
      StepKeepsAge(hash, RunOn(hash, s, events[..|events| - 1]), events[|events| - 1], code, made);
    }
  }

  lemma LateIsRefused(hash: Hash, before: seq<Event>, f: Flow)
    requires HonestUpToExchange(hash, Run(hash, before), f) && f.exchange.now - f.making.now > 600_000_000_000
    ensures var s := Made(hash, Run(hash, before), f); Step(hash, s, f.exchange).issued == s.issued
  {
    var s0 := Run(hash, before);
    ApprovedIsInFlight(hash, s0, f);
    AgeStays(hash, Step(hash, Approved(hash, s0, f), f.making), f.afterMaking, f.making.code, f.making.now);
  }

  // ----- tokens come from nothing else -----

  /** What an event adds to the history is what it carries. */
  lemma RequestIsAdded(hash: Hash, s: State, e: Event, id: string)
    requires id in Step(hash, s, e).requests && s.requests.Keys <= s.ids
    ensures var s' := Step(hash, s, e);
            || (id in s.requests && s'.requests[id] == s.requests[id])
            || (e.Authorize? && e.consentId == id && s'.requests[id] == e.request.(createdAt := e.now)
                && e.request.redirectUri != "" && (e.challengeMethod == "" || e.challengeMethod == "S256")
                && (e.registered.None? || e.request.redirectUri in e.registered.value))
  {
  }

  lemma FlightIsAdded(hash: Hash, s: State, e: Event, call: nat)
    requires call in Step(hash, s, e).inflight && forall c | c in s.inflight :: c < s.calls
    ensures var f := Step(hash, s, e).inflight[call];
            || (call in s.inflight && f == s.inflight[call])
            || (call == s.calls && e == TakeConsent(f.consentId, true, f.takenAt) && f.consentId in s.store.pending
                && f.takenAt - s.store.pending[f.consentId].createdAt <= 600_000_000_000)
  {
  }

  lemma ApprovalIsAdded(hash: Hash, s: State, e: Event, code: string)
    requires code in Step(hash, s, e).approvals
    ensures var a := Step(hash, s, e).approvals[code];
            || (code in s.approvals && a == s.approvals[code])
            || (e.StoreCode? && e.code == code && e.now == a.codeAt && e.call in s.inflight
                && s.inflight[e.call].consentId == a.consentId && s.inflight[e.call].takenAt == a.takenAt)
  {
  }

  lemma CallIsAdded(hash: Hash, s: State, e: Event, k: nat)
    requires k < |Step(hash, s, e).issued|
    ensures var call := Step(hash, s, e).issued[k];
            || (k < |s.issued| && call == s.issued[k])
            || (k == |s.issued| && e == Exchange(call.code, call.verifier, call.redirectUri, call.at)
                && call.code in s.store.codes && call.at - s.store.codes[call.code].createdAt <= 600_000_000_000)
  {
  }

  lemma RequestsAreIds(hash: Hash, events: seq<Event>)
    ensures var s := Run(hash, events); s.requests.Keys <= s.ids && forall c | c in s.inflight :: c < s.calls
  {
    RunKeepsInv(hash, events);
  }

  /** The event that made the request. */
  ghost predicate RequestedBy(events: seq<Event>, a: nat, id: string, r: Request) {
    && a < |events| && events[a].Authorize? && events[a].consentId == id
    && r == events[a].request.(createdAt := events[a].now)
    && r.redirectUri != "" && (events[a].challengeMethod == "" || events[a].challengeMethod == "S256")
    && (events[a].registered.None? || r.redirectUri in events[a].registered.value)
  }

  lemma {:induction false} RequestFrom(hash: Hash, events: seq<Event>, id: string) returns (a: nat)
    requires id in Run(hash, events).requests
    ensures RequestedBy(events, a, id, Run(hash, events).requests[id])
    decreases |events|
  {
    var n := |events| - 1;
    var s := Run(hash, events[..n]);
    RequestsAreIds(hash, events[..n]);
    RequestIsAdded(hash, s, events[n], id);
    if id in s.requests && Run(hash, events).requests[id] == s.requests[id] {
      a := RequestFrom(hash, events[..n], id);
    } else {
      a := n;
    }
  }

  /** The event by which the user approved, and the number of the call that carried it on. */
  ghost predicate ApprovedBy(hash: Hash, events: seq<Event>, b: nat, call: nat, id: string, at: int) {
    && b < |events| && events[b] == TakeConsent(id, true, at)
    && var s := Run(hash, events[..b]);
    && s.calls == call && id in s.store.pending && at - s.store.pending[id].createdAt <= 600_000_000_000
  }

  lemma {:induction false} FlightFrom(hash: Hash, events: seq<Event>, call: nat) returns (b: nat)
    requires call in Run(hash, events).inflight
    ensures var f := Run(hash, events).inflight[call]; ApprovedBy(hash, events, b, call, f.consentId, f.takenAt)
    decreases |events|
  {
    var n := |events| - 1;
    var s := Run(hash, events[..n]);
    RequestsAreIds(hash, events[..n]);
    FlightIsAdded(hash, s, events[n], call);
    if call in s.inflight && Run(hash, events).inflight[call] == s.inflight[call] {
      b := FlightFrom(hash, events[..n], call);
      assert events[..n][..b] == events[..b];
    } else {
      b := n;
    }
  }

  lemma {:induction false} ApprovalFrom(hash: Hash, events: seq<Event>, code: string) returns (b: nat, c: nat)
    requires code in Run(hash, events).approvals
    ensures var a := Run(hash, events).approvals[code];
            && b < c < |events| && events[c].StoreCode? && events[c].code == code && events[c].now == a.codeAt
            && ApprovedBy(hash, events, b, events[c].call, a.consentId, a.takenAt)
    decreases |events|
  {
    var n := |events| - 1;
    var s := Run(hash, events[..n]);
    ApprovalIsAdded(hash, s, events[n], code);
    if code in s.approvals && Run(hash, events).approvals[code] == s.approvals[code] {
      b, c := ApprovalFrom(hash, events[..n], code);
    } else {
      b := FlightFrom(hash, events[..n], events[n].call);
      c := n;
    }
    assert events[..n][..b] == events[..b];
  }

  lemma {:induction false} CallFrom(hash: Hash, events: seq<Event>, k: nat) returns (d: nat)
    requires k < |Run(hash, events).issued|
    ensures var call := Run(hash, events).issued[k];
            && d < |events| && events[d] == Exchange(call.code, call.verifier, call.redirectUri, call.at)
            && var s := Run(hash, events[..d]);
            && call.code in s.store.codes && call.at - s.store.codes[call.code].createdAt <= 600_000_000_000
    decreases |events|
  {
    var n := |events| - 1;
    var s := Run(hash, events[..n]);
    CallIsAdded(hash, s, events[n], k);
    if k < |s.issued| && Run(hash, events).issued[k] == s.issued[k] {
      d := CallFrom(hash, events[..n], k);
      assert events[..n][..d] == events[..d];
    } else {
      d := n;
    }
  }

  /** The stored code was made from an approved request. */
  ghost predicate CodeMadeFrom(hash: Hash, events: seq<Event>, a: nat, b: nat, c: nat, code: string, stored: Request) {
    && a < b < c < |events| && events[a].Authorize? && events[c].StoreCode? && events[c].code == code
    && RequestedBy(events, a, events[a].consentId, stored.(createdAt := events[a].now))
    && events[c].now == stored.createdAt
    && exists at :: ApprovedBy(hash, events, b, events[c].call, events[a].consentId, at)
  }

  lemma CodeFrom(hash: Hash, events: seq<Event>, code: string) returns (a: nat, b: nat, c: nat)
    requires code in Run(hash, events).store.codes
    ensures CodeMadeFrom(hash, events, a, b, c, code, Run(hash, events).store.codes[code])
    ensures events[b].TakeConsent? && events[b].now - events[a].now <= 600_000_000_000
  {
    RunKeepsInv(hash, events);
    var s := Run(hash, events);
    var id := s.approvals[code].consentId;
    b, c := ApprovalFrom(hash, events, code);
    RunKeepsInv(hash, events[..b]);
    a := RequestFrom(hash, events[..b], id);
    HistoryGrows(hash, events, b, id);
    assert ApprovedBy(hash, events, b, events[c].call, id, s.approvals[code].takenAt);
  }

  lemma TakeOfTake(events: seq<Event>, n: nat, k: nat)
    requires k <= n <= |events|
    ensures events[..n][..k] == events[..k]
  {
  }

  lemma {:induction false} HistoryGrows(hash: Hash, events: seq<Event>, b: nat, id: string)
    requires b <= |events| && id in Run(hash, events[..b]).requests
    ensures id in Run(hash, events).requests && Run(hash, events).requests[id] == Run(hash, events[..b]).requests[id]
    decreases |events|
  {
    if b == |events| {
      assert events[..b] == events;
    } else {
      var n := |events| - 1;
      TakeOfTake(events, n, b);
      HistoryGrows(hash, events[..n], b, id);
      RequestsAreIds(hash, events[..n]);
      RequestIsKept(hash, Run(hash, events[..n]), events[n], id);
    }
  }

  lemma RequestIsKept(hash: Hash, s: State, e: Event, id: string)
    requires id in s.requests && id in s.ids
    ensures id in Step(hash, s, e).requests && Step(hash, s, e).requests[id] == s.requests[id]
  {
  }

  /**
    Every call of the issuer, in every run, comes from four events of the run in this order: a request that was accepted
    with its redirect validated, an approval by its user within ten minutes, the making of the code by the call that
    took that approval, and an exchange of that code within ten minutes, with the same redirect and a verifier for the
    challenge; and it is for the client and scopes of the request.
  */
  lemma CallsComeFromFlows(hash: Hash, events: seq<Event>, k: nat) returns (a: nat, b: nat, c: nat, d: nat)
    requires k < |Run(hash, events).issued|
    ensures var call := Run(hash, events).issued[k];
            && a < b < c < d < |events| && events[a].Authorize? && events[b].TakeConsent? && events[c].StoreCode?
            && var r := events[a].request;
            && events[d] == Exchange(call.code, call.verifier, call.redirectUri, call.at)
            && events[c].code == call.code && call.at - events[c].now <= 600_000_000_000
            && Run(hash, events[..b]).calls == events[c].call && events[b].approve
            && events[b].consentId == events[a].consentId && events[b].now - events[a].now <= 600_000_000_000
            && call.clientId == r.clientId && call.scopes == r.scopes && call.redirectUri == r.redirectUri
            && (events[a].registered.None? || r.redirectUri in events[a].registered.value)
            && (r.challenge == "" || (call.verifier != "" && hash(call.verifier) == r.challenge))
  {
    d := CallFrom(hash, events, k);
    var code := Run(hash, events).issued[k].code;
    a, b, c := CodeFrom(hash, events[..d], code);
    assert events[..d][..b] == events[..b];
    CallMatchesRequest(hash, events, k, d);
  }

  /** What the call says is what its code said when it was presented. */
  lemma {:induction false} CallMatchesRequest(hash: Hash, events: seq<Event>, k: nat, d: nat)
    requires k < |Run(hash, events).issued| && d < |events| && events[d].Exchange?
    requires events[d].code == Run(hash, events).issued[k].code
    requires events[d].code in Run(hash, events[..d]).store.codes
    ensures var call, r := Run(hash, events).issued[k], Run(hash, events[..d]).store.codes[events[d].code];
            && call.clientId == r.clientId && call.scopes == r.scopes && call.redirectUri == r.redirectUri
            && (r.challenge == "" || (call.verifier != "" && hash(call.verifier) == r.challenge))
  {
    RunKeepsInv(hash, events);
    RunKeepsInv(hash, events[..d]);
    var s, code := Run(hash, events), events[d].code;
    assert JustifiedBy(hash, s.requests, s.approvals, s.issued[k]);
    ApprovalGrows(hash, events, d, code);
    HistoryGrows(hash, events, d, s.approvals[code].consentId);
  }

  lemma {:induction false} ApprovalGrows(hash: Hash, events: seq<Event>, d: nat, code: string)
    requires d <= |events| && code in Run(hash, events[..d]).approvals
    ensures code in Run(hash, events).approvals
    ensures Run(hash, events).approvals[code] == Run(hash, events[..d]).approvals[code]
    decreases |events|
  {
    if d == |events| {
      assert events[..d] == events;
    } else {
      var n := |events| - 1;
      TakeOfTake(events, n, d);
      ApprovalGrows(hash, events[..n], d, code);
      CodesAreIds(hash, events[..n]);
      ApprovalIsKept(hash, Run(hash, events[..n]), events[n], code);
    }
  }

  lemma CodesAreIds(hash: Hash, events: seq<Event>)
    ensures Run(hash, events).approvals.Keys <= Run(hash, events).ids
  {
    RunKeepsInv(hash, events);
  }

  lemma ApprovalIsKept(hash: Hash, s: State, e: Event, code: string)
    requires code in s.approvals && code in s.ids
    ensures code in Step(hash, s, e).approvals && Step(hash, s, e).approvals[code] == s.approvals[code]
  {
  }
}
