/**
  The PKCE authorization-code flow (internal/pkce/handler.go): Authorize stores a pending consent,
  Consent turns an approved one into a code, Exchange turns a code into a call of the issuer.

  Consent holds the lock twice, once to take the pending consent and once to store the code, and
  other requests may run in between.  The challenge hash (SHA-256, base64url) is a parameter.
*/
module Pkce {
  import opened Options

  type Hash = string -> string

  const TEN_MINUTES: int := 600_000_000_000

  /** A pending consent; the code made from it carries the same client, scopes, challenge and redirect. */
  datatype Request = Request(
    clientId: string, scopes: seq<string>, challenge: string, redirectUri: string, createdAt: int)

  datatype Store = Store(pending: map<string, Request>, codes: map<string, Request>)

  // ----- the sections under the lock -----

  datatype AuthorizeError = Incomplete | RedirectNotRegistered | MethodNotSupported

  function CheckAuthorize(clientId: string, redirectUri: string, redirectAllowed: bool, challengeMethod: string)
    : Option<AuthorizeError>
  {
    if clientId == "" || redirectUri == "" then Some(Incomplete)
    else if !redirectAllowed then Some(RedirectNotRegistered)
    else if challengeMethod != "" && challengeMethod != "S256" then Some(MethodNotSupported)
    else None
  }

  /** The validator's answer: without one every redirect passes, with one those the client has registered. */
  predicate RedirectAllowed(registered: Option<seq<string>>, redirectUri: string) {
    registered.None? || redirectUri in registered.value
  }

  function AddPending(s: Store, consentId: string, r: Request): Store {
    s.(pending := s.pending[consentId := r])
  }

  function TakePending(s: Store, consentId: string): (Store, Option<Request>) {
    (s.(pending := s.pending - {consentId}), if consentId in s.pending then Some(s.pending[consentId]) else None)
  }

  predicate ConsentExpired(r: Request, now: int) {
    now - r.createdAt > TEN_MINUTES
  }

  function AddCode(s: Store, code: string, r: Request, now: int): Store {
    s.(codes := s.codes[code := r.(createdAt := now)])
  }

  function TakeCode(s: Store, code: string): (Store, Option<Request>) {
    (s.(codes := s.codes - {code}), if code in s.codes then Some(s.codes[code]) else None)
  }

  datatype ExchangeResult =
    | CodeRequired | NotFoundOrUsed | Expired | RedirectMismatch | VerifierRequired | VerifierFailed
    | Issue(request: Request)

  datatype ConsentReply = ConsentNotFound | AccessDenied | Approved(code: string)

  /** Consent with nothing in between its two sections. */
  function Consented(s: Store, consentId: string, approve: bool, code: string, takenAt: int, codeAt: int)
    : (Store, ConsentReply)
  {
    var (s1, taken) := TakePending(s, consentId);
    if taken.None? || ConsentExpired(taken.value, takenAt) then (s1, ConsentNotFound)
    else if !approve then (s1, AccessDenied)
    else (AddCode(s1, code, taken.value, codeAt), Approved(code))
  }

  function Verify(hash: Hash, r: Request, verifier: string, redirectUri: string, now: int): ExchangeResult {
    if now - r.createdAt > TEN_MINUTES then Expired
    else if r.redirectUri != redirectUri then RedirectMismatch
    else if r.challenge == "" then Issue(r)
    else if verifier == "" then VerifierRequired
    else if hash(verifier) != r.challenge then VerifierFailed
    else Issue(r)
  }

  /** The whole of Exchange: what happens after the code has been taken touches no shared state. */
  function Exchanged(hash: Hash, s: Store, code: string, verifier: string, redirectUri: string, now: int)
    : (Store, ExchangeResult)
  {
    if code == "" then (s, CodeRequired)
    else
      var (s', taken) := TakeCode(s, code);
      match taken
      case None => (s', NotFoundOrUsed)
      case Some(r) => (s', Verify(hash, r, verifier, redirectUri, now))
  }

  function Cleaned(s: Store, now: int): Store {
    s.(codes := map c | c in s.codes && now - s.codes[c].createdAt <= TEN_MINUTES :: s.codes[c])
  }

  /** Removing the old codes changes neither whether nor for what an exchange issues from then on. */
  lemma CleanupIsInvisible(hash: Hash, s: Store, swept: int, code: string, verifier: string, redirectUri: string,
                           now: int)
    requires swept <= now
    ensures var after := Exchanged(hash, Cleaned(s, swept), code, verifier, redirectUri, now).1;
            var before := Exchanged(hash, s, code, verifier, redirectUri, now).1;
            (after.Issue? <==> before.Issue?) && (before.Issue? ==> after == before)
  {
  }

  // ----- the handler -----

  class Handler {
    var pending: map<string, Request>
    var codes: map<string, Request>

    function View(): Store
      reads this
    {
      Store(pending, codes)
    }

    constructor ()
      ensures View() == Store(map[], map[])
    {
      pending, codes := map[], map[];
    }

    method Authorize(consentId: string, clientId: string, redirectUri: string, redirectAllowed: bool,
                     challengeMethod: string, challenge: string, scopes: seq<string>, now: int)
      returns (error: Option<AuthorizeError>)
      modifies this
      ensures error == CheckAuthorize(clientId, redirectUri, redirectAllowed, challengeMethod)
      ensures error.None? <==> && clientId != "" && redirectUri != "" && redirectAllowed
                               && (challengeMethod == "" || challengeMethod == "S256")
      ensures View() == if error.Some? then old(View())
                        else AddPending(old(View()), consentId, Request(clientId, scopes, challenge, redirectUri, now))
    {
      if clientId == "" || redirectUri == "" {
        return Some(Incomplete);
      }
      if !redirectAllowed {
        return Some(RedirectNotRegistered);
      }
      var chosen := if challengeMethod == "" then "S256" else challengeMethod;
      if chosen != "S256" {
        return Some(MethodNotSupported);
      }
      pending := pending[consentId := Request(clientId, scopes, challenge, redirectUri, now)];
      return None;
    }

    /** Consent with nothing in between its two sections; takenAt and codeAt are its two clock readings. */
    method Consent(consentId: string, approve: bool, code: string, takenAt: int, codeAt: int)
      returns (reply: ConsentReply)
      modifies this
      ensures (View(), reply) == Consented(old(View()), consentId, approve, code, takenAt, codeAt)
      ensures reply == ConsentNotFound <==>
                consentId !in old(pending) || takenAt - old(pending)[consentId].createdAt > 600_000_000_000
      ensures reply.Approved? <==> reply != ConsentNotFound && approve
    {
      var found := consentId in pending;
      if !found {
        assert pending - {consentId} == pending;
        return ConsentNotFound;
      }
      var r := pending[consentId];
      pending := pending - {consentId};
      if takenAt - r.createdAt > TEN_MINUTES {
        return ConsentNotFound;
      }
      if !approve {
        return AccessDenied;
      }
      codes := codes[code := r.(createdAt := codeAt)];
      return Approved(code);
    }

    method Exchange(hash: Hash, code: string, verifier: string, redirectUri: string, now: int)
      returns (r: ExchangeResult)
      modifies this
      ensures View() == Exchanged(hash, old(View()), code, verifier, redirectUri, now).0
      ensures r == Exchanged(hash, old(View()), code, verifier, redirectUri, now).1
      ensures r.CodeRequired? <==> code == ""
      ensures r.NotFoundOrUsed? <==> code != "" && code !in old(codes)
      ensures code != "" && code in old(codes) ==>
                var c := old(codes)[code];
                var late := now - c.createdAt > 600_000_000_000;
                && (r.Expired? <==> late)
                && (r.RedirectMismatch? <==> !late && redirectUri != c.redirectUri)
                && (r.VerifierRequired? <==>
                      !late && redirectUri == c.redirectUri && c.challenge != "" && verifier == "")
    {
      if code == "" {
        return CodeRequired;
      }
      if code !in codes {
        assert codes - {code} == codes;
        return NotFoundOrUsed;
      }
      var found := codes[code];
      codes := codes - {code};
      if now - found.createdAt > TEN_MINUTES {
        return Expired;
      }
      if found.redirectUri != redirectUri {
        return RedirectMismatch;
      }
      if found.challenge != "" {
        if verifier == "" {
          return VerifierRequired;
        }
        if hash(verifier) != found.challenge {
          return VerifierFailed;
        }
      }
      return Issue(found);
    }

    method Cleanup(now: int)
      modifies this`codes
      ensures View() == Cleaned(old(View()), now)
      ensures forall c | c in old(codes) :: c in codes <==> now - old(codes)[c].createdAt <= 600_000_000_000
    {
      var found := codes;
      var todo := found.Keys;
      while todo != {}
        invariant todo <= codes.Keys <= found.Keys
        invariant forall c | c in found :: c in codes <==> c in todo || now - found[c].createdAt <= TEN_MINUTES
        invariant forall c | c in codes :: codes[c] == found[c]
      {
        var c :| c in todo;
        if now - codes[c].createdAt > TEN_MINUTES {
          codes := codes - {c};
        }
        todo := todo - {c};
      }
    }
  }

  // ----- runs -----

  /** A consent that was approved and taken, on its way to a code. */
  datatype Flight = Flight(consentId: string, request: Request, takenAt: int)

  datatype Approval = Approval(consentId: string, takenAt: int, codeAt: int)

  datatype IssuerCall = IssuerCall(code: string, clientId: string, scopes: seq<string>,
                                   redirectUri: string, verifier: string, at: int)

  datatype State = State(
    store: Store,
    inflight: map<nat, Flight>, calls: nat,
    ids: set<string>,                    // every consent id and code ever generated
    requests: map<string, Request>,      // every accepted Authorize request, by consent id
    registered: map<string, Option<seq<string>>>,  // what its client had registered when it was validated
    approvals: map<string, Approval>,    // every code ever generated
    issued: seq<IssuerCall>,
    clock: int)

  const INITIAL: State := State(Store(map[], map[]), map[], 0, {}, map[], map[], map[], [], 0)

  datatype Event =
    | Authorize(consentId: string, request: Request, registered: Option<seq<string>>, challengeMethod: string, now: int)
    | TakeConsent(consentId: string, approve: bool, now: int)
    | StoreCode(call: nat, code: string, now: int)
    | Exchange(code: string, verifier: string, redirectUri: string, now: int)
    | Cleanup(now: int)

  function Step(hash: Hash, s: State, e: Event): State {
    if e.now < s.clock then s   // the clock does not run backwards
    else
      var t := s.(clock := e.now);
      match e
      case Authorize(id, r, registered, challengeMethod, now) =>
        var allowed := RedirectAllowed(registered, r.redirectUri);
        if CheckAuthorize(r.clientId, r.redirectUri, allowed, challengeMethod).None? && id !in s.ids then
          t.(store := AddPending(s.store, id, r.(createdAt := now)),
             ids := s.ids + {id}, requests := s.requests[id := r.(createdAt := now)],
             registered := s.registered[id := registered])
        else t
      case TakeConsent(id, approve, now) =>
        var (store, taken) := TakePending(s.store, id);
        if taken.Some? && !ConsentExpired(taken.value, now) && approve then
          t.(store := store, inflight := s.inflight[s.calls := Flight(id, taken.value, now)], calls := s.calls + 1)
        else t.(store := store)
      case StoreCode(call, code, now) =>
        if call in s.inflight && code !in s.ids then
          var f := s.inflight[call];
          t.(store := AddCode(s.store, code, f.request, now), inflight := s.inflight - {call},
             ids := s.ids + {code}, approvals := s.approvals[code := Approval(f.consentId, f.takenAt, now)])
        else t
      case Exchange(code, verifier, redirectUri, now) =>
        var (store, r) := Exchanged(hash, s.store, code, verifier, redirectUri, now);
        if !r.Issue? then t.(store := store)
        else
          var call := IssuerCall(code, r.request.clientId, r.request.scopes, redirectUri, verifier, now);
          t.(store := store, issued := s.issued + [call])
      case Cleanup(now) => t.(store := Cleaned(s.store, now))
  }

  function RunOn(hash: Hash, s: State, events: seq<Event>): State
    decreases |events|
  {
    if events == [] then s else Step(hash, RunOn(hash, s, events[..|events| - 1]), events[|events| - 1])
  }

  function Run(hash: Hash, events: seq<Event>): State {
    RunOn(hash, INITIAL, events)
  }

  // ----- the invariant -----

  type Requests = map<string, Request>
  type Approvals = map<string, Approval>

  ghost predicate PendingSound(pending: map<string, Request>, requests: Requests, ids: set<string>) {
    && (forall id | id in pending :: id in requests && pending[id] == requests[id])
    && (forall id | id in requests :: id in ids)
  }

  ghost predicate FlightSound(f: Flight, pending: map<string, Request>, requests: Requests, clock: int) {
    && f.consentId in requests && f.request == requests[f.consentId] && f.consentId !in pending
    && f.takenAt - f.request.createdAt <= TEN_MINUTES && f.takenAt <= clock
  }

  ghost predicate ApprovalSound(a: Approval, pending: map<string, Request>, requests: Requests) {
    && a.consentId in requests && a.consentId !in pending
    && a.takenAt - requests[a.consentId].createdAt <= TEN_MINUTES && a.takenAt <= a.codeAt
  }

  /** Each consent is in one place only: pending, on its way to a code, or turned into one code. */
  ghost predicate ConsentsApart(inflight: map<nat, Flight>, approvals: Approvals) {
    && (forall c, d | c in inflight && d in inflight && c != d :: inflight[c].consentId != inflight[d].consentId)
    && (forall c, code | c in inflight && code in approvals :: inflight[c].consentId != approvals[code].consentId)
    && (forall c, d | c in approvals && d in approvals && c != d :: approvals[c].consentId != approvals[d].consentId)
  }

  ghost predicate CodesSound(codes: map<string, Request>, requests: Requests, approvals: Approvals) {
    forall code | code in codes ::
      && code in approvals && approvals[code].consentId in requests
      && codes[code] == requests[approvals[code].consentId].(createdAt := approvals[code].codeAt)
  }

  /** What an issuer call may rely on: who asked, who approved, when, and with what proof. */
  ghost predicate Justified(hash: Hash, s: State, call: IssuerCall) {
    && JustifiedBy(hash, s.requests, s.approvals, call)
    && var id := s.approvals[call.code].consentId;
    && id in s.registered && RedirectAllowed(s.registered[id], call.redirectUri)
  }

  ghost predicate JustifiedBy(hash: Hash, requests: Requests, approvals: Approvals, call: IssuerCall) {
    && call.code in approvals
    && var a := approvals[call.code];
    && a.consentId in requests
    && var r := requests[a.consentId];
    && call.clientId == r.clientId && call.scopes == r.scopes && call.redirectUri == r.redirectUri
    && (r.challenge == "" || (call.verifier != "" && hash(call.verifier) == r.challenge))
    && a.takenAt - r.createdAt <= TEN_MINUTES && a.takenAt <= a.codeAt && call.at - a.codeAt <= TEN_MINUTES
  }

  ghost predicate IssuedSound(hash: Hash, issued: seq<IssuerCall>, codes: map<string, Request>,
                              requests: Requests, approvals: Approvals) {
    && (forall k | 0 <= k < |issued| ::
          JustifiedBy(hash, requests, approvals, issued[k]) && issued[k].code !in codes)
    && (forall k, l | 0 <= k < l < |issued| :: issued[k].code != issued[l].code)
  }

  ghost predicate TicketsSound(s: State) {
    && PendingSound(s.store.pending, s.requests, s.ids)
    && (forall c | c in s.inflight :: c < s.calls && FlightSound(s.inflight[c], s.store.pending, s.requests, s.clock))
    && (forall c | c in s.approvals :: c in s.ids && ApprovalSound(s.approvals[c], s.store.pending, s.requests))
    && ConsentsApart(s.inflight, s.approvals)
    && CodesSound(s.store.codes, s.requests, s.approvals)
  }

  ghost predicate Inv(hash: Hash, s: State) {
    TicketsSound(s) && IssuedSound(hash, s.issued, s.store.codes, s.requests, s.approvals)
  }

  ghost predicate Grows<T>(m: map<string, T>, m': map<string, T>) {
    forall x | x in m :: x in m' && m'[x] == m[x]
  }

  /** What has been said about the past stays true as the history grows, as long as no spent code comes back. */
  lemma LongerHistoryKeepsIssued(hash: Hash, s: State, codes': map<string, Request>,
                                 requests': Requests, approvals': Approvals)
    requires IssuedSound(hash, s.issued, s.store.codes, s.requests, s.approvals)
    requires Grows(s.requests, requests') && Grows(s.approvals, approvals')
    requires forall c | c in codes' && c !in s.store.codes :: c !in s.approvals
    ensures IssuedSound(hash, s.issued, codes', requests', approvals')
  {
    forall k | 0 <= k < |s.issued|
      ensures JustifiedBy(hash, requests', approvals', s.issued[k]) && s.issued[k].code !in codes'
    {
      assert JustifiedBy(hash, s.requests, s.approvals, s.issued[k]);
    }
  }

  lemma AuthorizeKeepsTickets(hash: Hash, s: State, e: Event)
    requires TicketsSound(s) && e.Authorize?
    ensures TicketsSound(Step(hash, s, e))
  {
    if e.now >= s.clock && e.consentId !in s.ids {
      NewRequestKeepsTickets(s, e.consentId, e.request.(createdAt := e.now), e.now);
    }
  }

  lemma NewRequestKeepsTickets(s: State, id: string, r: Request, now: int)
    requires TicketsSound(s) && id !in s.ids && now >= s.clock
    ensures forall c | c in s.inflight :: FlightSound(s.inflight[c], s.store.pending[id := r], s.requests[id := r], now)
    ensures forall c | c in s.approvals :: ApprovalSound(s.approvals[c], s.store.pending[id := r], s.requests[id := r])
    ensures CodesSound(s.store.codes, s.requests[id := r], s.approvals)
  {
  }

  lemma AuthorizeKeepsInv(hash: Hash, s: State, e: Event)
    requires Inv(hash, s) && e.Authorize?
    ensures Inv(hash, Step(hash, s, e))
  {
    AuthorizeKeepsTickets(hash, s, e);
    LongerHistoryKeepsIssued(hash, s, s.store.codes, Step(hash, s, e).requests, s.approvals);
  }

  lemma ConsentKeepsTickets(hash: Hash, s: State, e: Event)
    requires TicketsSound(s) && e.TakeConsent?
    ensures TicketsSound(Step(hash, s, e))
  {
    if e.now >= s.clock && e.consentId in s.store.pending {
      TakingKeepsOthers(s, e.consentId, e.now);
    }
  }

  /** Taking a pending consent leaves what is known of the flights and codes of other consents. */
  lemma TakingKeepsOthers(s: State, consentId: string, now: int)
    requires TicketsSound(s) && consentId in s.store.pending && now >= s.clock
    ensures forall c | c in s.inflight ::
              && s.inflight[c].consentId != consentId
              && FlightSound(s.inflight[c], s.store.pending - {consentId}, s.requests, now)
    ensures forall c | c in s.approvals ::
              && s.approvals[c].consentId != consentId
              && ApprovalSound(s.approvals[c], s.store.pending - {consentId}, s.requests)
  {
  }

  lemma ConsentKeepsInv(hash: Hash, s: State, e: Event)
    requires Inv(hash, s) && e.TakeConsent?
    ensures Inv(hash, Step(hash, s, e))
  {
    ConsentKeepsTickets(hash, s, e);
  }

  lemma StoreCodeKeepsTickets(hash: Hash, s: State, e: Event)
    requires TicketsSound(s) && e.StoreCode?
    ensures TicketsSound(Step(hash, s, e))
  {
    if e.now >= s.clock && e.call in s.inflight && e.code !in s.ids {
      assert FlightSound(s.inflight[e.call], s.store.pending, s.requests, s.clock);
    }
  }

  lemma StoreCodeKeepsInv(hash: Hash, s: State, e: Event)
    requires Inv(hash, s) && e.StoreCode?
    ensures Inv(hash, Step(hash, s, e))
  {
    StoreCodeKeepsTickets(hash, s, e);
    var s' := Step(hash, s, e);
    LongerHistoryKeepsIssued(hash, s, s'.store.codes, s.requests, s'.approvals);
  }

  /** A code that verifies gives a justified call, and it is the code's first. */
  lemma VerifiedIsJustified(hash: Hash, s: State, code: string, verifier: string, redirectUri: string, now: int)
    requires Inv(hash, s) && Exchanged(hash, s.store, code, verifier, redirectUri, now).1.Issue?
    ensures var r := Exchanged(hash, s.store, code, verifier, redirectUri, now).1.request;
            JustifiedBy(hash, s.requests, s.approvals,
                        IssuerCall(code, r.clientId, r.scopes, redirectUri, verifier, now))
    ensures forall k | 0 <= k < |s.issued| :: s.issued[k].code != code
  {
    assert ApprovalSound(s.approvals[code], s.store.pending, s.requests);
  }

  /** Nothing has changed but the clock and that some codes are gone. */
  ghost predicate OnlyCodesLost(s: State, s': State) {
    && s'.store.pending == s.store.pending && s'.clock >= s.clock
    && (forall c | c in s'.store.codes :: c in s.store.codes && s'.store.codes[c] == s.store.codes[c])
    && s'.inflight == s.inflight && s'.calls == s.calls && s'.ids == s.ids
    && s'.requests == s.requests && s'.approvals == s.approvals
  }

  lemma ExchangeOnlyLosesCodes(hash: Hash, s: State, e: Event)
    requires e.Exchange?
    ensures OnlyCodesLost(s, Step(hash, s, e))
  {
  }

  lemma FewerCodesKeepTickets(s: State, s': State)
    requires TicketsSound(s) && OnlyCodesLost(s, s')
    ensures TicketsSound(s')
  {
  }

  lemma ExchangeKeepsTickets(hash: Hash, s: State, e: Event)
    requires TicketsSound(s) && e.Exchange?
    ensures TicketsSound(Step(hash, s, e))
  {
    ExchangeOnlyLosesCodes(hash, s, e);
    FewerCodesKeepTickets(s, Step(hash, s, e));
  }

  lemma ExchangeKeepsInv(hash: Hash, s: State, e: Event)
    requires Inv(hash, s) && e.Exchange?
    ensures Inv(hash, Step(hash, s, e))
  {
    ExchangeKeepsTickets(hash, s, e);
    if Exchanged(hash, s.store, e.code, e.verifier, e.redirectUri, e.now).1.Issue? {
      VerifiedIsJustified(hash, s, e.code, e.verifier, e.redirectUri, e.now);
    }
  }

  lemma CleanupKeepsInv(hash: Hash, s: State, e: Event)
    requires Inv(hash, s) && e.Cleanup?
    ensures Inv(hash, Step(hash, s, e))
  {
  }

  lemma {:induction false} RunKeepsInv(hash: Hash, events: seq<Event>)
    ensures Inv(hash, Run(hash, events))
    decreases |events|
  {
    if events != [] {
      var s, e := Run(hash, events[..|events| - 1]), events[|events| - 1];
      RunKeepsInv(hash, events[..|events| - 1]);
      match e
      case Authorize(_, _, _, _, _) => AuthorizeKeepsInv(hash, s, e);
      case TakeConsent(_, _, _) => ConsentKeepsInv(hash, s, e);
      case StoreCode(_, _, _) => StoreCodeKeepsInv(hash, s, e);
      case Exchange(_, _, _, _) => ExchangeKeepsInv(hash, s, e);
      case Cleanup(_) => CleanupKeepsInv(hash, s, e);
    }
  }

  /** The redirect of every accepted request had been validated against what its client had registered. */
  ghost predicate RedirectsSound(s: State) {
    forall id | id in s.requests :: id in s.registered && RedirectAllowed(s.registered[id], s.requests[id].redirectUri)
  }

  lemma StepKeepsRedirects(hash: Hash, s: State, e: Event)
    requires RedirectsSound(s)
    ensures RedirectsSound(Step(hash, s, e))
  {
  }

  lemma {:induction false} RunKeepsRedirects(hash: Hash, events: seq<Event>)
    ensures RedirectsSound(Run(hash, events))
    decreases |events|
  {
    if events != [] {
      RunKeepsRedirects(hash, events[..|events| - 1]);
      StepKeepsRedirects(hash, Run(hash, events[..|events| - 1]), events[|events| - 1]);
    }
  }

  lemma IssuedIsJustified(hash: Hash, events: seq<Event>, k: nat)
    requires k < |Run(hash, events).issued|
    ensures Justified(hash, Run(hash, events), Run(hash, events).issued[k])
  {
    RunKeepsInv(hash, events);
    RunKeepsRedirects(hash, events);
    var s := Run(hash, events);
    assert JustifiedBy(hash, s.requests, s.approvals, s.issued[k]);
  }

  // ----- the promises -----

  /**
    In every run the issuer is called once per code at most, each code comes from its own approved
    consent and each consent from its own Authorize request; the call uses that request's client and
    scopes; the redirect URI presented is the one that was asked for and that the validator accepted,
    being among those the client had registered at that moment; and without a challenge match
    there is no call for a request that had a challenge.
  */
  lemma IssuerCallsAreJustified(hash: Hash, events: seq<Event>, k: nat, l: nat)
    requires k < |Run(hash, events).issued| && l < |Run(hash, events).issued|
    ensures var s := Run(hash, events);
            && Justified(hash, s, s.issued[k]) && Justified(hash, s, s.issued[l])
            && (k != l ==> s.issued[k].code != s.issued[l].code
                           && s.approvals[s.issued[k].code].consentId != s.approvals[s.issued[l].code].consentId)
  {
    RunKeepsInv(hash, events);
    IssuedIsJustified(hash, events, k);
    IssuedIsJustified(hash, events, l);
  }

  /**
    The issuer is called within twenty minutes of the Authorize request, plus the time that Consent
    itself let pass between its two readings of the clock.
  */
  lemma IssuedWithinTwentyMinutes(hash: Hash, events: seq<Event>, k: nat)
    requires k < |Run(hash, events).issued|
    ensures var s := Run(hash, events);
            var call := s.issued[k];
            && Justified(hash, s, call)
            && var a := s.approvals[call.code];
            && call.at - s.requests[a.consentId].createdAt <= 2 * TEN_MINUTES + (a.codeAt - a.takenAt)
            && (a.codeAt == a.takenAt ==> call.at - s.requests[a.consentId].createdAt <= 2 * TEN_MINUTES)
  {
    IssuedIsJustified(hash, events, k);
  }

  /** No Consent let more than `gap` pass between taking the pending consent and storing the code. */
  ghost predicate GapsWithin(s: State, gap: int) {
    forall code | code in s.approvals :: s.approvals[code].codeAt - s.approvals[code].takenAt <= gap
  }

  ghost predicate AllWithinTwentyMinutes(s: State) {
    forall k | 0 <= k < |s.issued| && s.issued[k].code in s.approvals
                 && s.approvals[s.issued[k].code].consentId in s.requests ::
      s.issued[k].at - s.requests[s.approvals[s.issued[k].code].consentId].createdAt <= 2 * TEN_MINUTES
  }

  /** A run that uses up every delay: ten minutes to consent, the gap, ten minutes to exchange. */
  function SlowestRun(gap: nat): seq<Event> {
    [Authorize("consent", Request("client", [], "", "uri", 0), Some(["uri"]), "", 0),
     TakeConsent("consent", true, TEN_MINUTES),
     StoreCode(0, "code", TEN_MINUTES + gap),
     Exchange("code", "", "uri", 2 * TEN_MINUTES + gap)]
  }

  lemma SlowestRunIs(hash: Hash, gap: nat)
    ensures var s := Run(hash, SlowestRun(gap));
            && s.requests == map["consent" := Request("client", [], "", "uri", 0)]
            && s.approvals == map["code" := Approval("consent", TEN_MINUTES, TEN_MINUTES + gap)]
            && s.issued == [IssuerCall("code", "client", [], "uri", "", 2 * TEN_MINUTES + gap)]
  {
    var es := SlowestRun(gap);
    var s1 := Step(hash, INITIAL, es[0]);
    var s2 := Step(hash, s1, es[1]);
    var s3 := Step(hash, s2, es[2]);
    var s4 := Step(hash, s3, es[3]);
    assert es[..3][..2][..1][..0] == [] && es[..3][..2][..1] == es[..1] && es[..3][..2] == es[..2];
    assert RunOn(hash, INITIAL, es[..1]) == s1;
    assert RunOn(hash, INITIAL, es[..2]) == s2;
    assert RunOn(hash, INITIAL, es[..3]) == s3;
    assert Run(hash, es) == s4;
  }

  lemma SlowestRunIssues(hash: Hash, gap: nat)
    ensures var s := Run(hash, SlowestRun(gap));
            GapsWithin(s, gap) && (AllWithinTwentyMinutes(s) <==> gap == 0)
  {
    SlowestRunIs(hash, gap);
    var s := Run(hash, SlowestRun(gap));
    assert s.issued[0].code in s.approvals && s.approvals["code"].consentId in s.requests;
  }

  /** Twenty minutes bound every run exactly when Consent's two clock readings are never apart. */
  lemma TwentyMinutesExactlyWhen(hash: Hash, gap: nat)
    ensures (forall events | GapsWithin(Run(hash, events), gap) :: AllWithinTwentyMinutes(Run(hash, events)))
            <==> gap == 0
  {
    SlowestRunIssues(hash, gap);
    if gap == 0 {
      forall events | GapsWithin(Run(hash, events), gap) ensures AllWithinTwentyMinutes(Run(hash, events)) {
        var s := Run(hash, events);
        forall k | 0 <= k < |s.issued|
          ensures Justified(hash, s, s.issued[k])
          ensures var a := s.approvals[s.issued[k].code];
                  s.issued[k].at - s.requests[a.consentId].createdAt <= 2 * TEN_MINUTES
        {
          IssuedWithinTwentyMinutes(hash, events, k);
        }
      }
    }
  }

  predicate Burned(s: State, code: string) {
    code in s.ids && code !in s.store.codes
  }

  lemma StepKeepsBurned(hash: Hash, s: State, e: Event, code: string)
    requires Burned(s, code)
    ensures Burned(Step(hash, s, e), code)
  {
  }

  /** A code that has been generated and is no longer stored: whatever happens, it never issues again. */
  lemma {:induction false} BurnedForever(hash: Hash, s: State, events: seq<Event>, code: string)
    requires Burned(s, code)
    ensures var s' := RunOn(hash, s, events);
            && Burned(s', code)
            && forall verifier, redirectUri, now ::
                 !Exchanged(hash, s'.store, code, verifier, redirectUri, now).1.Issue?
    decreases |events|
  {
    if events != [] {
      BurnedForever(hash, s, events[..|events| - 1], code);
      StepKeepsBurned(hash, RunOn(hash, s, events[..|events| - 1]), events[|events| - 1], code);
    }
  }

  /** Every exchange burns the code it presents, whether it succeeds or fails. */
  lemma ExchangeBurnsTheCode(hash: Hash, before: seq<Event>, e: Event, after: seq<Event>)
    requires e.Exchange? && e.code != "" && e.now >= Run(hash, before).clock && e.code in Run(hash, before).approvals
    ensures var s' := RunOn(hash, Step(hash, Run(hash, before), e), after);
            forall verifier, redirectUri, now ::
              !Exchanged(hash, s'.store, e.code, verifier, redirectUri, now).1.Issue?
  {
    RunKeepsInv(hash, before);
    BurnedForever(hash, Step(hash, Run(hash, before), e), after, e.code);
  }

  /** A stored code is exchanged exactly with the matching redirect, in time, and with a verifier for its challenge. */
  lemma HonestExchangeIssues(hash: Hash, s: Store, code: string, verifier: string, redirectUri: string, now: int)
    ensures Exchanged(hash, s, code, verifier, redirectUri, now).1.Issue? <==>
            && code != "" && code in s.codes && now <= s.codes[code].createdAt + 600_000_000_000
            && redirectUri == s.codes[code].redirectUri
            && (s.codes[code].challenge == "" || (verifier != "" && hash(verifier) == s.codes[code].challenge))
  {
  }
}
