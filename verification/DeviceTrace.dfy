/** What a device is answered, read off the trace, and the overlapping machine's other steps as handler calls. */
module DeviceTrace {
  import opened Device
  import opened DeviceRuns

  /** Event i is the request that generated the device code, with codes that no earlier request had. */
  predicate RequestedAt(events: seq<Event>, dc: string, i: nat) {
    && i < |events| && events[i].Request? && events[i].dc == dc && events[i].clientId != ""
    && forall k | 0 <= k < i && events[k].Request? :: events[k].dc != dc && events[k].uc != events[i].uc
  }

  /** The user who holds the code of request i has decided so after it and before event n. */
  ghost predicate DecidedBefore(events: seq<Event>, i: nat, n: nat, deny: bool)
    requires i < |events| && events[i].Request?
  {
    exists j :: i < j < n && j < |events| && events[j] == Decide(events[i].uc, deny)
  }

  /** Event k ended the code of request i: a poll in time of an approved code, or a sweep after its ten minutes. */
  ghost predicate EndedAt(events: seq<Event>, i: nat, k: nat)
    requires i < |events| && events[i].Request?
  {
    && i < k < |events|
    && match events[k]
       case Poll(dc, now) =>
         && dc == events[i].dc && now <= events[i].now + 600_000_000_000
         && DecidedBefore(events, i, k, false) && !DecidedBefore(events, i, k, true)
       case Clean(now) => now > events[i].now + 600_000_000_000
       case _ => false
  }

  ghost predicate Ended(events: seq<Event>, i: nat)
    requires i < |events| && events[i].Request?
  {
    exists k: nat :: EndedAt(events, i, k)
  }

  ghost predicate StoredAs(events: seq<Event>, i: nat, store: Store)
    requires i < |events| && events[i].Request?
  {
    var e := events[i];
    if Ended(events, i) then e.dc !in store.codes && e.uc !in store.byUser
    else
      && e.dc in store.codes && e.uc in store.byUser && store.byUser[e.uc] == e.dc
      && store.codes[e.dc] == Code(e.uc, e.clientId, e.scopes, e.now + 600_000_000_000,
                                   DecidedBefore(events, i, |events|, false),
                                   DecidedBefore(events, i, |events|, true))
  }

  lemma DecidedEarlier(events: seq<Event>, i: nat, k: nat, deny: bool)
    requires i < |events| - 1 && k < |events| && events[i].Request?
    ensures DecidedBefore(events[..|events| - 1], i, k, deny) <==> DecidedBefore(events, i, k, deny)
  {
    var n := |events| - 1;
    if j :| i < j < k && j < |events| && events[j] == Decide(events[i].uc, deny) {
      assert events[..n][j] == Decide(events[i].uc, deny);
    }
  }

  lemma DecidedOneMore(events: seq<Event>, i: nat, deny: bool)
    requires i < |events| - 1 && events[i].Request?
    ensures var n := |events| - 1;
            DecidedBefore(events, i, |events|, deny) <==>
            DecidedBefore(events[..n], i, n, deny) || events[n] == Decide(events[i].uc, deny)
  {
    var n := |events| - 1;
    if j :| i < j < n && events[..n][j] == Decide(events[i].uc, deny) {
      assert events[j] == Decide(events[i].uc, deny);
    }
    if j :| i < j < |events| && events[j] == Decide(events[i].uc, deny) {
      assert j < n ==> events[..n][j] == Decide(events[i].uc, deny);
    }
  }

  lemma EndedOneMore(events: seq<Event>, i: nat)
    requires i < |events| - 1 && events[i].Request?
    ensures Ended(events, i) <==> Ended(events[..|events| - 1], i) || EndedAt(events, i, |events| - 1)
  {
    var n := |events| - 1;
    forall k: nat | k < n ensures EndedAt(events[..n], i, k) <==> EndedAt(events, i, k) {
      DecidedEarlier(events, i, k, true);
      DecidedEarlier(events, i, k, false);
    }
    if k: nat :| EndedAt(events, i, k) {
      assert k < n ==> EndedAt(events[..n], i, k);
    }
    if k: nat :| EndedAt(events[..n], i, k) {
      assert EndedAt(events, i, k);
    }
  }

  lemma {:induction false} NotYetRequested(events: seq<Event>, dc: string, uc: string)
    requires forall k | 0 <= k < |events| && events[k].Request? :: events[k].dc != dc && events[k].uc != uc
    ensures dc !in Run(events).started && uc !in Run(events).userCodes
    decreases |events|
  {
    if events != [] {
      NotYetRequested(events[..|events| - 1], dc, uc);
    }
  }

  /** What one event does to one stored code. */
  lemma StepOnStored(s: State, e: Event, dc: string)
    requires SameRecords(s.store) && dc in s.started && s.started[dc].userCode in s.userCodes
    requires dc in s.store.codes && s.store.codes[dc].userCode == s.started[dc].userCode
    ensures var c, store' := s.store.codes[dc], Step(s, e).store;
            var uc := c.userCode;
            match e
            case Decide(x, deny) =>
              dc in store'.codes && store'.codes[dc] == (if x == uc then Decision(c, deny) else c)
              && uc in store'.byUser && store'.byUser[uc] == dc
            case Poll(x, now) =>
              if x == dc && now <= c.expiresAt && c.approved && !c.denied
              then dc !in store'.codes && uc !in store'.byUser
              else dc in store'.codes && store'.codes[dc] == c && uc in store'.byUser && store'.byUser[uc] == dc
            case Clean(now) =>
              if now > c.expiresAt then dc !in store'.codes && uc !in store'.byUser
              else dc in store'.codes && store'.codes[dc] == c && uc in store'.byUser && store'.byUser[uc] == dc
            case Request(_, _, _, _, _) =>
              dc in store'.codes && store'.codes[dc] == c && uc in store'.byUser && store'.byUser[uc] == dc
  {
    if e.Clean? {
      CleanedUserCodes(s.store, e.now);
    }
  }

  /** A code that is gone stays gone. */
  lemma StepOnGone(s: State, e: Event, dc: string, uc: string)
    requires SameRecords(s.store) && dc in s.started && uc in s.userCodes
    requires dc !in s.store.codes && uc !in s.store.byUser
    ensures dc !in Step(s, e).store.codes && uc !in Step(s, e).store.byUser
  {
    if e.Clean? {
      CleanedUserCodes(s.store, e.now);
    }
  }

  predicate Known(s: State, e: Event)
    requires e.Request?
  {
    e.dc in s.started && e.uc in s.userCodes && s.started[e.dc].userCode == e.uc
  }

  lemma KnownStays(s: State, e: Event, r: Event)
    requires r.Request? && Known(s, r)
    ensures Known(Step(s, e), r)
  {
  }

  lemma StoredOneMore(events: seq<Event>, i: nat)
    requires i < |events| - 1 && events[i].Request?
    requires var s := Run(events[..|events| - 1]);
             SameRecords(s.store) && Known(s, events[i]) && StoredAs(events[..|events| - 1], i, s.store)
    ensures StoredAs(events, i, Run(events).store)
  {
    var n := |events| - 1;
    EndedOneMore(events, i);
    if Ended(events[..n], i) {
      StepOnGone(Run(events[..n]), events[n], events[i].dc, events[i].uc);
    } else {
      StoredLive(events, i, Run(events[..n]));
    }
  }

  lemma StoredLive(events: seq<Event>, i: nat, s: State)
    requires i < |events| - 1 && events[i].Request? && !Ended(events[..|events| - 1], i)
    requires SameRecords(s.store) && Known(s, events[i]) && StoredAs(events[..|events| - 1], i, s.store)
    ensures StoredAs(events, i, Step(s, events[|events| - 1]).store)
  {
    var n := |events| - 1;
    EndedOneMore(events, i);
    DecidedOneMore(events, i, true);
    DecidedOneMore(events, i, false);
    DecidedEarlier(events, i, n, true);
    DecidedEarlier(events, i, n, false);
    StepOnStored(s, events[n], events[i].dc);
  }

  lemma {:induction false} StoredFromTrace(events: seq<Event>, dc: string, i: nat)
    requires RequestedAt(events, dc, i)
    ensures Known(Run(events), events[i]) && StoredAs(events, i, Run(events).store)
    decreases |events|
  {
    var n := |events| - 1;
    DeviceCodeIssuesOnce(events[..n]);
    if i == n {
      NotYetRequested(events[..n], dc, events[i].uc);
    } else {
      StoredFromTrace(events[..n], dc, i);
      KnownStays(Run(events[..n]), events[n], events[i]);
      StoredOneMore(events, i);
    }
  }

  lemma {:induction false} NeverRequested(events: seq<Event>, dc: string)
    requires forall k | 0 <= k < |events| && events[k].Request? :: events[k].dc != dc || events[k].clientId == ""
    ensures dc !in Run(events).started && dc !in Run(events).store.codes
    decreases |events|
  {
    if events != [] {
      NeverRequested(events[..|events| - 1], dc);
    }
  }

  /**
    With handlers run one at a time, a poll is answered by the trace: expired when the code was never requested, when
    ten minutes have passed, when it was swept away or when an earlier poll has had its tokens; denied when any decision
    of the user was a denial; pending when there was none; and otherwise with tokens for the client and scopes of the
    request.
  */
  lemma PollTellsTheTrace(events: seq<Event>, dc: string, now: int)
    ensures (forall k | 0 <= k < |events| && events[k].Request? :: events[k].dc != dc || events[k].clientId == "") ==>
              Polled(Run(events).store, dc, now).1 == ExpiredToken
    ensures forall i: nat | RequestedAt(events, dc, i) ::
              Polled(Run(events).store, dc, now).1 ==
              if Ended(events, i) || now > events[i].now + 600_000_000_000 then ExpiredToken
              else if DecidedBefore(events, i, |events|, true) then AccessDenied
              else if DecidedBefore(events, i, |events|, false) then Issue(events[i].clientId, events[i].scopes)
              else AuthorizationPending
  {
    if forall k | 0 <= k < |events| && events[k].Request? :: events[k].dc != dc || events[k].clientId == "" {
      NeverRequested(events, dc);
    }
    forall i: nat | RequestedAt(events, dc, i) ensures StoredAs(events, i, Run(events).store) {
      StoredFromTrace(events, dc, i);
    }
  }

  // ----- the other steps of the overlapping machine -----

  /** A request, a decision and a sweep of the machine are the handler's, seen through the indexes. */
  lemma StepsAreTheHandlers(m: Machine, dc: string, uc: string, clientId: string, scopes: seq<string>,
                            deny: bool, now: int)
    requires IndexesAgree(m.records, m.live, m.byUser) && UserCodesUnique(m.records, m.userCodes)
    ensures dc !in m.records && uc !in m.userCodes ==>
              Indexed(Act(m, NewCode(dc, uc, clientId, scopes, now))) ==
              Requested(Indexed(m), dc, uc, clientId, scopes, now)
    ensures Indexed(Act(m, UserDecides(uc, deny))) == Decided(Indexed(m), uc, deny)
    ensures Indexed(Act(m, Sweep(now))) == Cleaned(Indexed(m), now)
  {
    if dc !in m.records && uc !in m.userCodes {
      RequestIsTheHandlers(m, dc, uc, clientId, scopes, now);
    }
    SweepIsTheHandlers(m, now);
  }

  lemma RequestIsTheHandlers(m: Machine, dc: string, uc: string, clientId: string, scopes: seq<string>, now: int)
    requires m.live <= m.records.Keys && dc !in m.records && uc !in m.userCodes
    ensures Indexed(Act(m, NewCode(dc, uc, clientId, scopes, now))) ==
            Requested(Indexed(m), dc, uc, clientId, scopes, now)
  {
  }

  lemma SweepIsTheHandlers(m: Machine, now: int)
    requires IndexesAgree(m.records, m.live, m.byUser)
    ensures Indexed(Act(m, Sweep(now))) == Cleaned(Indexed(m), now)
  {
    var expired := set dc | dc in m.live && dc in m.records && now > m.records[dc].expiresAt;
    assert ExpiredCodes(Indexed(m), now) == expired;
  }
}
