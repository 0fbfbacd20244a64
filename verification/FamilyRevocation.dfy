/** How long the revocation of a client's tokens lasts, once it has been done. */
module FamilyRevocation {
  import opened Options
  import opened TokenModel
  import opened TokenRuns
  import opened TokenTheorems

  ghost predicate AllRevoked(m: State, clientId: string) {
    forall id | id in m.tokens && m.tokens[id].clientId == clientId :: m.tokens[id].revoked
  }

  ghost predicate NonePending(s: Sys, clientId: string) {
    forall c | c in s.pending :: s.pending[c].clientId != clientId
  }

  /** A refresh grant with this token would be accepted now. */
  predicate Redeemable(m: State, rt: string, clientId: string, now: Readings) {
    Consume(m, rt, clientId, now).1.Redeemed?
  }

  ghost predicate NoneRedeemable(m: State, clientId: string, from: int) {
    forall rt :: !Redeemable(m, rt, clientId, Readings(from, from))
  }

  /**
    From the time `from` on the client starts nothing new: no client_credentials grant and no direct
    grant.  It may go on refreshing.  The lifetimes are not reconfigured.
  */
  predicate StartsNothing(e: Event, clientId: string, from: int) {
    match e
    case ValidateRoot(c, _) => c != clientId
    case BeginDirect(c, _) => c != clientId
    case SetRefreshTTL(_, _) => false
    case Redeem(_, _, at) => from <= at.first && from <= at.second
    case _ => true
  }

  predicate Quiet(later: seq<Event>, clientId: string, from: int) {
    forall i | 0 <= i < |later| :: StartsNothing(later[i], clientId, from)
  }

  // ----- nothing left to mint from: the revocation lasts -----

  ghost predicate Closed(s: Sys, clientId: string, from: int) {
    AllRevoked(s.mgr, clientId) && NonePending(s, clientId) && NoneRedeemable(s.mgr, clientId, from)
  }

  /** Tokens lose only flags or disappear, refresh entries disappear, used tokens stay used. */
  ghost predicate Narrows(m: State, m': State) {
    && m'.refreshMaxLife == m.refreshMaxLife
    && (forall rt | rt in m'.refresh :: rt in m.refresh && m.refresh[rt] == m'.refresh[rt])
    && (forall rt | rt in m.used :: rt in m'.used)
    && (forall id | id in m'.tokens ::
          && id in m.tokens
          && (m.tokens[id].revoked ==> m'.tokens[id].revoked)
          && m'.tokens[id] == m.tokens[id].(revoked := m'.tokens[id].revoked, expiresAt := m'.tokens[id].expiresAt))
  }

  lemma NarrowerRedeemsLess(m: State, m': State, rt: string, clientId: string, now: Readings)
    requires Narrows(m, m') && Redeemable(m', rt, clientId, now)
    ensures Redeemable(m, rt, clientId, now)
  {
    assert m'.tokens[m'.refresh[rt]].refreshExpiresAt == m.tokens[m.refresh[rt]].refreshExpiresAt;
  }

  lemma EarlierRedeemsMore(m: State, rt: string, clientId: string, now: Readings, from: int)
    requires Redeemable(m, rt, clientId, now) && from <= now.first && from <= now.second
    ensures Redeemable(m, rt, clientId, Readings(from, from))
  {
  }

  lemma NarrowsKeepsClosed(s: Sys, s': Sys, clientId: string, from: int)
    requires Closed(s, clientId, from) && Narrows(s.mgr, s'.mgr) && NonePending(s', clientId)
    ensures Closed(s', clientId, from)
  {
    forall rt ensures !Redeemable(s'.mgr, rt, clientId, Readings(from, from)) {
      if Redeemable(s'.mgr, rt, clientId, Readings(from, from)) {
        NarrowerRedeemsLess(s.mgr, s'.mgr, rt, clientId, Readings(from, from));
      }
    }
  }

  lemma HousekeepingNarrows(s: Sys, e: Event)
    requires Housekeeping(e) && !e.SetRefreshTTL?
    ensures Narrows(s.mgr, Step(s, e).mgr)
  {
    HousekeepingOnlyLoses(s, e);
  }

  lemma ConsumeNarrows(m: State, rt: string, clientId: string, now: Readings)
    ensures Narrows(m, Consume(m, rt, clientId, now).0)
  {
    var (m', r) := Consume(m, rt, clientId, now);
    if r.Redeemed? {
      assert m'.refresh == m.refresh - {rt};
    } else {
      FailedConsumeOnlyLoses(m, rt, clientId, now);
    }
  }

  lemma RedeemKeepsClosed(s: Sys, rt: string, caller: string, at: Readings, clientId: string, from: int)
    requires Closed(s, clientId, from) && from <= at.first && from <= at.second
    ensures Closed(Step(s, Redeem(rt, caller, at)), clientId, from)
  {
    ConsumeNarrows(s.mgr, rt, caller, at);
    NotItsOwn(s.mgr, rt, caller, at, clientId, from);
    NarrowsKeepsClosed(s, Step(s, Redeem(rt, caller, at)), clientId, from);
  }

  lemma NotItsOwn(m: State, rt: string, caller: string, at: Readings, clientId: string, from: int)
    requires NoneRedeemable(m, clientId, from) && from <= at.first && from <= at.second
    ensures Redeemable(m, rt, caller, at) ==> caller != clientId
  {
    if Redeemable(m, rt, clientId, at) {
      EarlierRedeemsMore(m, rt, clientId, at, from);
      assert false;
    }
  }

  lemma StoreRedeemsNoMore(m: State, tok: Token, rt: string, clientId: string, now: Readings, issued: set<string>)
    requires Coherent(m, issued) && tok.id !in issued && tok.refreshToken !in issued && tok.clientId != clientId
    requires Redeemable(Store(m, tok), rt, clientId, now)
    ensures Redeemable(m, rt, clientId, now)
  {
    assert rt != tok.refreshToken;
    assert m.refresh[rt] in m.tokens;
  }

  lemma StoreKeepsNoneRedeemable(m: State, tok: Token, clientId: string, from: int, issued: set<string>)
    requires Coherent(m, issued) && tok.id !in issued && tok.refreshToken !in issued && tok.clientId != clientId
    requires NoneRedeemable(m, clientId, from)
    ensures NoneRedeemable(Store(m, tok), clientId, from)
  {
    forall rt ensures !Redeemable(Store(m, tok), rt, clientId, Readings(from, from)) {
      if Redeemable(Store(m, tok), rt, clientId, Readings(from, from)) {
        StoreRedeemsNoMore(m, tok, rt, clientId, Readings(from, from), issued);
      }
    }
  }

  lemma MintKeepsClosed(s: Sys, e: Event, clientId: string, from: int)
    requires Coherent(s.mgr, s.issued) && Closed(s, clientId, from) && e.Mint?
    ensures Closed(Step(s, e), clientId, from)
  {
    var s' := Step(s, e);
    if s'.mgr != s.mgr {
      var p := s.pending[e.call];
      var tok := NewToken(s.mgr, p.clientId, MintScopes(p, e.requested).value, p.familyCreated, e.id, e.rt, e.now);
      assert s'.mgr == Store(s.mgr, tok);
      StoreKeepsNoneRedeemable(s.mgr, tok, clientId, from, s.issued);
    }
  }

  lemma StepKeepsClosed(s: Sys, e: Event, clientId: string, from: int)
    requires Inv(s) && Closed(s, clientId, from) && StartsNothing(e, clientId, from)
    ensures Closed(Step(s, e), clientId, from)
  {
    if Housekeeping(e) {
      HousekeepingOnlyLoses(s, e);
      HousekeepingNarrows(s, e);
      NarrowsKeepsClosed(s, Step(s, e), clientId, from);
    } else if e.Redeem? {
      RedeemKeepsClosed(s, e.rt, e.clientId, e.at, clientId, from);
    } else if e.Mint? {
      MintKeepsClosed(s, e, clientId, from);
    } else {
      assert Step(s, e).mgr == s.mgr;
    }
  }

  lemma {:induction false} StaysClosed(s: Sys, later: seq<Event>, clientId: string, from: int)
    requires Inv(s) && Closed(s, clientId, from) && Quiet(later, clientId, from)
    ensures Closed(RunFrom(s, later), clientId, from)
    decreases |later|
  {
    if later != [] {
      var k := |later| - 1;
      StaysClosed(s, later[..k], clientId, from);
      RunKeepsInv(s, later[..k]);
      StepKeepsClosed(RunFrom(s, later[..k]), later[k], clientId, from);
    }
  }

  // ----- something left: one more token -----

  lemma {:induction false} LongestOf(ids: set<string>) returns (n: nat)
    ensures forall x | x in ids :: |x| <= n
    decreases |ids|
  {
    if ids == {} {
      n := 0;
    } else {
      var x :| x in ids;
      n := LongestOf(ids - {x});
      n := if |x| > n then |x| else n;
    }
  }

  function Long(n: nat): (s: string)
    ensures |s| == n
  {
    seq(n, _ => 'x')
  }

  lemma FreshIds(issued: set<string>) returns (id: string, rt: string)
    ensures id !in issued && rt !in issued && id != rt
  {
    var n := LongestOf(issued);
    id, rt := Long(n + 1), Long(n + 2);
  }

  lemma PendingMints(s: Sys, call: nat, clientId: string) returns (mint: Event)
    requires call in s.pending && s.pending[call].clientId == clientId
    ensures mint.Mint? && !AllRevoked(Step(s, mint).mgr, clientId)
  {
    var id, rt := FreshIds(s.issued);
    mint := Mint(call, None, id, rt, 1);
    var m' := Step(s, mint).mgr;
    assert id in m'.tokens && m'.tokens[id].clientId == clientId && !m'.tokens[id].revoked;
  }

  lemma RunOne(s: Sys, e: Event)
    ensures RunFrom(s, [e]) == Step(s, e)
  {
    assert [e][..0] == [] && RunFrom(s, []) == s;
  }

  lemma RunTwo(s: Sys, a: Event, b: Event)
    ensures RunFrom(s, [a, b]) == Step(Step(s, a), b)
  {
    RunOne(s, a);
    assert [a, b][..1] == [a];
  }

  lemma OpenMints(s: Sys, clientId: string, from: int) returns (later: seq<Event>)
    requires Inv(s) && !(NonePending(s, clientId) && NoneRedeemable(s.mgr, clientId, from))
    ensures Quiet(later, clientId, from) && !AllRevoked(RunFrom(s, later).mgr, clientId)
  {
    if call :| call in s.pending && s.pending[call].clientId == clientId {
      var mint := PendingMints(s, call, clientId);
      RunOne(s, mint);
      later := [mint];
    } else {
      var rt :| Redeemable(s.mgr, rt, clientId, Readings(from, from));
      later := RedeemableMints(s, rt, clientId, from);
    }
  }

  lemma RedeemableMints(s: Sys, rt: string, clientId: string, from: int) returns (later: seq<Event>)
    requires Inv(s) && Redeemable(s.mgr, rt, clientId, Readings(from, from))
    ensures Quiet(later, clientId, from) && !AllRevoked(RunFrom(s, later).mgr, clientId)
  {
    RedeemPends(s, rt, clientId, Readings(from, from));
    later := BeginThenMint(s, Redeem(rt, clientId, Readings(from, from)), s.calls, clientId, from);
  }

  lemma RedeemPends(s: Sys, rt: string, clientId: string, now: Readings)
    requires Inv(s) && Redeemable(s.mgr, rt, clientId, now)
    ensures var s' := Step(s, Redeem(rt, clientId, now));
            s.calls in s'.pending && s'.pending[s.calls].clientId == clientId
  {
    var g := RedeemBegins(s, rt, clientId, now);
  }

  lemma BeginThenMint(s: Sys, begin: Event, call: nat, clientId: string, from: int) returns (later: seq<Event>)
    requires call in Step(s, begin).pending && Step(s, begin).pending[call].clientId == clientId
    requires StartsNothing(begin, clientId, from)
    ensures Quiet(later, clientId, from) && !AllRevoked(RunFrom(s, later).mgr, clientId)
  {
    var mint := PendingMints(Step(s, begin), call, clientId);
    RunTwo(s, begin, mint);
    later := [begin, mint];
  }

  // ----- when the revocation lasts -----

  ghost predicate Lasts(s: Sys, clientId: string, from: int) {
    forall later | Quiet(later, clientId, from) :: AllRevoked(RunFrom(s, later).mgr, clientId)
  }

  /**
    Once all stored tokens of a client are revoked, by a replay or by RevokeByClient, they stay so in
    every continuation in which the client starts nothing new, exactly when no call of the client is
    between its two sections and no refresh token of the client could still be redeemed.
  */
  lemma RevocationLastsExactlyWhen(s: Sys, clientId: string, from: int)
    requires Inv(s) && AllRevoked(s.mgr, clientId)
    ensures Lasts(s, clientId, from) <==> NonePending(s, clientId) && NoneRedeemable(s.mgr, clientId, from)
  {
    if NonePending(s, clientId) && NoneRedeemable(s.mgr, clientId, from) {
      forall later | Quiet(later, clientId, from) ensures AllRevoked(RunFrom(s, later).mgr, clientId) {
        StaysClosed(s, later, clientId, from);
      }
    } else {
      var later := OpenMints(s, clientId, from);
    }
  }

  /** A replay revokes everything the client has; that lasts exactly when the client had nothing left to mint from. */
  lemma ReplayLastsExactlyWhen(events: seq<Event>, k: nat, caller: string, at: Readings, from: int)
    requires k < |Run(events).redemptions|
    ensures var s := Run(events);
            var r := s.redemptions[k];
            r.grant < |s.ledger| &&
            var c := s.ledger[r.grant].clientId;
            var s' := Step(s, Redeem(r.refreshToken, caller, at));
            && AllRevoked(s'.mgr, c)
            && (Lasts(s', c, from) <==> NonePending(s, c) && NoneRedeemable(s.mgr, c, from))
  {
    ReachableInv(events);
    var s := Run(events);
    RedemptionIsUsed(s, k);
    ReuseLastsExactlyWhen(s, s.redemptions[k].refreshToken, caller, at, from);
  }

  lemma RedemptionIsUsed(s: Sys, k: nat)
    requires Inv(s) && k < |s.redemptions|
    ensures var r := s.redemptions[k];
            r.grant < |s.ledger| && r.refreshToken in s.mgr.used
            && s.mgr.used[r.refreshToken] == s.ledger[r.grant].clientId
  {
    assert RedemptionSound(s.redemptions[k], s.ledger, s.mgr.used);
  }

  lemma ReuseLastsExactlyWhen(s: Sys, rt: string, caller: string, at: Readings, from: int)
    requires Inv(s) && rt in s.mgr.used
    ensures var c, s' := s.mgr.used[rt], Step(s, Redeem(rt, caller, at));
            && AllRevoked(s'.mgr, c)
            && (Lasts(s', c, from) <==> NonePending(s, c) && NoneRedeemable(s.mgr, c, from))
  {
    var c := s.mgr.used[rt];
    RevokedLastsExactlyWhen(s, c, from);
    ReuseKeepsRedeemable(s.mgr, rt, caller, at, c, from);
  }

  lemma RevokedLastsExactlyWhen(s: Sys, clientId: string, from: int)
    requires Inv(s)
    ensures var s' := s.(mgr := RevokeFamily(s.mgr, clientId));
            && AllRevoked(s'.mgr, clientId)
            && (Lasts(s', clientId, from) <==> NonePending(s, clientId) && NoneRedeemable(s'.mgr, clientId, from))
  {
    var s' := s.(mgr := RevokeFamily(s.mgr, clientId));
    FamilyIsTheClient(s.mgr, clientId, s.issued);
    assert s' == Step(s, RevokeByClient(clientId));
    assert Inv(s') by {
      StepKeepsInv(s, RevokeByClient(clientId));
    }
    RevocationLastsExactlyWhen(s', clientId, from);
  }

  lemma ReuseKeepsRedeemable(m: State, rt: string, caller: string, at: Readings, clientId: string, from: int)
    requires rt in m.used
    ensures NoneRedeemable(Consume(m, rt, caller, at).0, clientId, from) <==> NoneRedeemable(m, clientId, from)
  {
    var m' := Consume(m, rt, caller, at).0;
    forall x ensures Redeemable(m', x, clientId, Readings(from, from)) <==>
                     Redeemable(m, x, clientId, Readings(from, from)) {
      RefreshIgnoresRevocation(m, m', x, clientId, Readings(from, from));
    }
  }

  /** Revoking the client and cleaning up leaves no refresh token to redeem: only a call under way can undo it. */
  lemma RevokeAndCleanupLastsExactlyWhen(s: Sys, clientId: string, now: int, from: int)
    requires Inv(s)
    ensures Lasts(Step(Step(s, RevokeByClient(clientId)), CleanupPass(now)), clientId, from) <==>
            NonePending(s, clientId)
  {
    var s2 := s.(mgr := Cleanup(RevokeFamily(s.mgr, clientId), now));
    assert s2 == Step(Step(s, RevokeByClient(clientId)), CleanupPass(now));
    NothingLeft(s.mgr, clientId, now, from, s.issued);
    assert Lasts(s2, clientId, from) <==> NonePending(s2, clientId) && NoneRedeemable(s2.mgr, clientId, from) by {
      TwoStepsKeepInv(s, RevokeByClient(clientId), CleanupPass(now));
      RevocationLastsExactlyWhen(s2, clientId, from);
    }
  }

  lemma TwoStepsKeepInv(s: Sys, a: Event, b: Event)
    requires Inv(s)
    ensures Inv(Step(Step(s, a), b))
  {
    StepKeepsInv(s, a);
    StepKeepsInv(Step(s, a), b);
  }

  lemma NothingLeft(m: State, clientId: string, now: int, from: int, issued: set<string>)
    requires Coherent(m, issued)
    ensures var m' := Cleanup(RevokeFamily(m, clientId), now);
            AllRevoked(m', clientId) && NoneRedeemable(m', clientId, from)
  {
    RevokeThenCleanup(m, clientId, now, issued);
  }
}
