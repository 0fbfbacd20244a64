/**
  Backchannel authentication (internal/ciba/handler.go): a client initiates a request and polls,
  the user approves or denies it.  Every handler does its work in one section under the lock, so a
  run is a sequence of these sections in any order.
*/
module Ciba {

  const FIVE_MINUTES: int := 300_000_000_000

  datatype Request = Request(clientId: string, scopes: seq<string>, expiresAt: int, approved: bool, denied: bool)

  type Requests = map<string, Request>

  function Initiated(rs: Requests, id: string, clientId: string, loginHint: string, scopes: seq<string>, now: int)
    : Requests
  {
    if clientId == "" || loginHint == "" then rs
    else rs[id := Request(clientId, scopes, now + FIVE_MINUTES, false, false)]
  }

  datatype PollResult =
    ExpiredToken | AccessDenied | AuthorizationPending | Issue(clientId: string, scopes: seq<string>)

  function Polled(rs: Requests, id: string, now: int): (Requests, PollResult) {
    if id !in rs || now > rs[id].expiresAt then (rs, ExpiredToken)
    else if rs[id].denied then (rs - {id}, AccessDenied)
    else if !rs[id].approved then (rs, AuthorizationPending)
    else (rs - {id}, Issue(rs[id].clientId, rs[id].scopes))
  }

  function Decided(rs: Requests, id: string, deny: bool): Requests {
    if id !in rs then rs
    else if deny then rs[id := rs[id].(denied := true)]
    else rs[id := rs[id].(approved := true)]
  }

  // ----- the handler: records whose flags change in place -----

  class AuthRequest {
    const clientId: string
    const scopes: seq<string>
    const expiresAt: int
    var approved: bool
    var denied: bool

    constructor (clientId: string, scopes: seq<string>, expiresAt: int)
      ensures View() == Request(clientId, scopes, expiresAt, false, false)
    {
      this.clientId, this.scopes, this.expiresAt := clientId, scopes, expiresAt;
      approved, denied := false, false;
    }

    function View(): Request
      reads this
    {
      Request(clientId, scopes, expiresAt, approved, denied)
    }
  }

  class Handler {
    var requests: map<string, AuthRequest>

    /** No two identifiers share a record. */
    ghost predicate Valid()
      reads this
    {
      forall a, b | a in requests && b in requests && a != b :: requests[a] != requests[b]
    }

    ghost function View(): Requests
      reads this, requests.Values
    {
      map id | id in requests :: requests[id].View()
    }

    constructor ()
      ensures Valid() && View() == map[]
    {
      requests := map[];
    }

    method Initiate(id: string, clientId: string, loginHint: string, scopes: seq<string>, now: int) returns (ok: bool)
      requires Valid()
      modifies this
      ensures Valid() && View() == Initiated(old(View()), id, clientId, loginHint, scopes, now)
      ensures ok <==> clientId != "" && loginHint != ""
    {
      if clientId == "" || loginHint == "" {
        return false;
      }
      var r := new AuthRequest(clientId, scopes, now + FIVE_MINUTES);
      requests := requests[id := r];
      return true;
    }

    method Poll(id: string, now: int) returns (result: PollResult)
      requires Valid()
      modifies this
      ensures Valid()
      ensures View() == Polled(old(View()), id, now).0 && result == Polled(old(View()), id, now).1
    {
      if id !in requests || now > requests[id].expiresAt {
        return ExpiredToken;
      }
      var r := requests[id];
      if r.denied {
        requests := requests - {id};
        return AccessDenied;
      }
      if !r.approved {
        return AuthorizationPending;
      }
      requests := requests - {id};
      return Issue(r.clientId, r.scopes);
    }

    method Approve(id: string, action: string) returns (found: bool)
      requires Valid()
      modifies requests.Values
      ensures found <==> id in old(View())
      ensures View() == Decided(old(View()), id, action == "deny")
    {
      found := id in requests;
      if found {
        if action == "deny" {
          requests[id].denied := true;
        } else {
          requests[id].approved := true;
        }
      }
    }
  }

  // ----- runs -----

  datatype Event =
    | Initiate(id: string, clientId: string, loginHint: string, scopes: seq<string>, now: int)
    | Poll(id: string, now: int)
    | Decide(id: string, deny: bool)

  datatype Token = Token(id: string, clientId: string, scopes: seq<string>, at: int)

  datatype State = State(
    requests: Requests,
    started: map<string, Request>,   // every request ever stored, as initiated
    approvals: set<string>,          // requests for which an approval was stored
    denials: set<string>,            // requests for which a denial was stored
    issued: seq<Token>)

  const INITIAL: State := State(map[], map[], {}, {}, [])

  function Step(s: State, e: Event): State {
    match e
    case Initiate(id, clientId, loginHint, scopes, now) =>
      if id in s.started || clientId == "" || loginHint == "" then s   // identifiers are fresh
      else
        var requests' := Initiated(s.requests, id, clientId, loginHint, scopes, now);
        s.(requests := requests',
           started := s.started[id := Request(clientId, scopes, now + FIVE_MINUTES, false, false)])
    case Poll(id, now) =>
      var (requests', r) := Polled(s.requests, id, now);
      s.(requests := requests', issued := s.issued + if r.Issue? then [Token(id, r.clientId, r.scopes, now)] else [])
    case Decide(id, deny) =>
      if id !in s.requests then s
      else
        s.(requests := Decided(s.requests, id, deny),
           approvals := s.approvals + (if deny then {} else {id}),
           denials := s.denials + (if deny then {id} else {}))
  }

  function RunOn(s: State, events: seq<Event>): State
    decreases |events|
  {
    if events == [] then s else Step(RunOn(s, events[..|events| - 1]), events[|events| - 1])
  }

  function Run(events: seq<Event>): State {
    RunOn(INITIAL, events)
  }

  ghost predicate RequestsSound(s: State) {
    && (forall id | id in s.requests ::
          && id in s.started
          && s.requests[id] == s.started[id].(approved := id in s.approvals, denied := id in s.denials))
    && s.approvals <= s.started.Keys && s.denials <= s.started.Keys
  }

  ghost predicate IssuedSound(s: State) {
    && (forall k | 0 <= k < |s.issued| ::
          var t := s.issued[k];
          && t.id in s.started && t.id !in s.requests && t.id in s.approvals && t.id !in s.denials
          && t.clientId == s.started[t.id].clientId && t.scopes == s.started[t.id].scopes
          && t.at <= s.started[t.id].expiresAt)
    && (forall k, l | 0 <= k < l < |s.issued| :: s.issued[k].id != s.issued[l].id)
  }

  lemma StepKeepsSound(s: State, e: Event)
    requires RequestsSound(s) && IssuedSound(s)
    ensures RequestsSound(Step(s, e)) && IssuedSound(Step(s, e))
  {
  }

  /**
    In every run: each request issues at most once, only when an approval had been stored and before it
    expires, for the client and the scopes it was initiated with; and a request for which a denial is
    ever stored, before or after, has not issued.
  */
  lemma {:induction false} IssuedOnceAndOnlyIfApproved(events: seq<Event>)
    ensures RequestsSound(Run(events)) && IssuedSound(Run(events))
    decreases |events|
  {
    if events != [] {
      IssuedOnceAndOnlyIfApproved(events[..|events| - 1]);
      StepKeepsSound(Run(events[..|events| - 1]), events[|events| - 1]);
    }
  }

  /** Once a denial is stored no later poll issues, whatever else is decided in between. */
  lemma {:induction false} DenialIsFinal(s: State, events: seq<Event>, id: string, now: int)
    requires RequestsSound(s) && id in s.denials
    ensures var s' := RunOn(s, events);
            RequestsSound(s') && id in s'.denials && !Polled(s'.requests, id, now).1.Issue?
    decreases |events|
  {
    if events != [] {
      var before, e := events[..|events| - 1], events[|events| - 1];
      DenialIsFinal(s, before, id, now);
      StepKeepsRequests(RunOn(s, before), e);
    }
  }

  lemma StepKeepsRequests(s: State, e: Event)
    requires RequestsSound(s)
    ensures RequestsSound(Step(s, e)) && s.denials <= Step(s, e).denials
  {
  }

  /** An approved, undenied, unexpired request does issue at the next poll, and is then used up. */
  lemma ApprovedIssuesNext(s: State, id: string, now: int)
    requires RequestsSound(s) && id in s.requests
    ensures Polled(s.requests, id, now).1.Issue? <==>
            id in s.approvals && id !in s.denials && now <= s.started[id].expiresAt
    ensures Polled(s.requests, id, now).1.Issue? ==> id !in Polled(s.requests, id, now).0
  {
  }

  // ----- what a poll answers, read off the trace -----

  predicate Starts(e: Event, id: string) {
    e.Initiate? && e.id == id && e.clientId != "" && e.loginHint != ""
  }

  /** Event i is the request that `id` names. */
  predicate InitiatedAt(events: seq<Event>, id: string, i: nat) {
    i < |events| && Starts(events[i], id) && forall k | 0 <= k < i :: !Starts(events[k], id)
  }

  /** The user has decided so after event i and before event n. */
  ghost predicate DecidedBefore(events: seq<Event>, id: string, i: nat, n: nat, deny: bool) {
    exists j :: i < j < n && j < |events| && events[j] == Decide(id, deny)
  }

  /** Event k is a poll in time that found a decision: whatever it was, the request ended there. */
  ghost predicate EndedAt(events: seq<Event>, id: string, i: nat, k: nat) {
    && i < k < |events| && events[i].Initiate? && events[k].Poll? && events[k].id == id
    && events[k].now <= events[i].now + 300_000_000_000
    && (DecidedBefore(events, id, i, k, true) || DecidedBefore(events, id, i, k, false))
  }

  ghost predicate Ended(events: seq<Event>, id: string, i: nat) {
    exists k: nat :: EndedAt(events, id, i, k)
  }

  ghost predicate StoredAs(events: seq<Event>, id: string, i: nat, rs: Requests)
    requires i < |events| && events[i].Initiate?
  {
    if Ended(events, id, i) then id !in rs
    else
      && id in rs
      && rs[id] == Request(events[i].clientId, events[i].scopes, events[i].now + 300_000_000_000,
                           DecidedBefore(events, id, i, |events|, false),
                           DecidedBefore(events, id, i, |events|, true))
  }

  lemma DecidedOneMore(events: seq<Event>, id: string, i: nat, deny: bool)
    requires i < |events| - 1
    ensures var n := |events| - 1;
            DecidedBefore(events, id, i, |events|, deny) <==>
            DecidedBefore(events[..n], id, i, n, deny) || events[n] == Decide(id, deny)
  {
    var n := |events| - 1;
    if j :| i < j < n && events[..n][j] == Decide(id, deny) {
      assert events[j] == Decide(id, deny);
    }
    if j :| i < j < |events| && events[j] == Decide(id, deny) {
      assert j < n ==> events[..n][j] == Decide(id, deny);
    }
  }

  lemma DecidedEarlier(events: seq<Event>, id: string, i: nat, k: nat, deny: bool)
    requires k < |events|
    ensures DecidedBefore(events[..|events| - 1], id, i, k, deny) <==> DecidedBefore(events, id, i, k, deny)
  {
    var n := |events| - 1;
    if j :| i < j < k && j < |events| && events[j] == Decide(id, deny) {
      assert events[..n][j] == Decide(id, deny);
    }
  }

  lemma EndedOneMore(events: seq<Event>, id: string, i: nat)
    requires i < |events| - 1
    ensures Ended(events, id, i) <==>
            Ended(events[..|events| - 1], id, i) || EndedAt(events, id, i, |events| - 1)
  {
    var n := |events| - 1;
    forall k: nat | k < n ensures EndedAt(events[..n], id, i, k) <==> EndedAt(events, id, i, k) {
      DecidedEarlier(events, id, i, k, true);
      DecidedEarlier(events, id, i, k, false);
    }
    if k: nat :| EndedAt(events, id, i, k) {
      assert k < n ==> EndedAt(events[..n], id, i, k);
    }
    if k: nat :| EndedAt(events[..n], id, i, k) {
      assert EndedAt(events, id, i, k);
    }
  }

  lemma {:induction false} NotYetInitiated(events: seq<Event>, id: string)
    requires forall k | 0 <= k < |events| :: !Starts(events[k], id)
    ensures id !in Run(events).started && id !in Run(events).requests
    decreases |events|
  {
    if events != [] {
      NotYetInitiated(events[..|events| - 1], id);
    }
  }

  lemma StoredOneMore(events: seq<Event>, id: string, i: nat)
    requires i < |events| - 1 && events[i].Initiate?
    requires id in Run(events[..|events| - 1]).started
    requires StoredAs(events[..|events| - 1], id, i, Run(events[..|events| - 1]).requests)
    ensures StoredAs(events, id, i, Run(events).requests)
  {
    EndedOneMore(events, id, i);
    DecidedOneMore(events, id, i, true);
    DecidedOneMore(events, id, i, false);
    DecidedEarlier(events, id, i, |events| - 1, true);
    DecidedEarlier(events, id, i, |events| - 1, false);
  }

  lemma {:induction false} StoredFromTrace(events: seq<Event>, id: string, i: nat)
    requires InitiatedAt(events, id, i)
    ensures id in Run(events).started && StoredAs(events, id, i, Run(events).requests)
    decreases |events|
  {
    var n := |events| - 1;
    if i == n {
      NotYetInitiated(events[..n], id);
    } else {
      StoredFromTrace(events[..n], id, i);
      StoredOneMore(events, id, i);
    }
  }

  /**
    After any events, a poll is answered by the trace: expired when there is no such request, when five minutes have
    passed or when an earlier poll in time found a decision; denied when any decision since was a denial; pending when
    there was none; and otherwise with tokens for the client and scopes that the request was made with.
  */
  lemma PollTellsTheTrace(events: seq<Event>, id: string, now: int)
    ensures (forall i: nat :: !InitiatedAt(events, id, i)) ==> Polled(Run(events).requests, id, now).1 == ExpiredToken
    ensures forall i: nat | InitiatedAt(events, id, i) ::
              Polled(Run(events).requests, id, now).1 ==
              if Ended(events, id, i) || now > events[i].now + 300_000_000_000 then ExpiredToken
              else if DecidedBefore(events, id, i, |events|, true) then AccessDenied
              else if DecidedBefore(events, id, i, |events|, false) then Issue(events[i].clientId, events[i].scopes)
              else AuthorizationPending
  {
    if forall i: nat :: !InitiatedAt(events, id, i) {
      NoneStarts(events, id);
      NotYetInitiated(events, id);
    }
    forall i: nat | InitiatedAt(events, id, i)
      ensures StoredAs(events, id, i, Run(events).requests)
    {
      StoredFromTrace(events, id, i);
    }
  }

  lemma {:induction false} NoneStarts(events: seq<Event>, id: string)
    requires forall i: nat :: !InitiatedAt(events, id, i)
    ensures forall k | 0 <= k < |events| :: !Starts(events[k], id)
  {
    if k :| 0 <= k < |events| && Starts(events[k], id) {
      FirstStart(events, id, k);
    }
  }

  lemma {:induction false} FirstStart(events: seq<Event>, id: string, k: nat)
    requires k < |events| && Starts(events[k], id)
    ensures exists i: nat :: InitiatedAt(events, id, i)
    decreases k
  {
    if j :| 0 <= j < k && Starts(events[j], id) {
      FirstStart(events, id, j);
    } else {
      assert InitiatedAt(events, id, k);
    }
  }
}
