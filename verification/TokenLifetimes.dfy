/** From the mint to the end of a token: when its refresh token is accepted, and when the token itself is valid. */
module TokenLifetimes {
  import opened Options
  import opened TokenModel
  import opened TokenRuns
  import opened TokenTheorems
  import opened TokenAnswers

  // ----- the configuration, read off the trace -----

  datatype Lifetimes = Lifetimes(ttl: int, maxLife: int)

  /** What was configured last, and 30 and 90 days until then. */
  function Configured(events: seq<Event>): Lifetimes
    decreases |events|
  {
    if events == [] then Lifetimes(2_592_000_000_000_000, 7_776_000_000_000_000)
    else
      var e := events[|events| - 1];
      if e.SetRefreshTTL? then Lifetimes(e.ttl, e.maxLife) else Configured(events[..|events| - 1])
  }

  predicate HasLifetimes(m: State, lifetimes: Lifetimes) {
    m.refreshTTL == lifetimes.ttl && m.refreshMaxLife == lifetimes.maxLife
  }

  lemma ConsumeKeepsLifetimes(m: State, rt: string, clientId: string, at: Readings, lifetimes: Lifetimes)
    requires HasLifetimes(m, lifetimes)
    ensures HasLifetimes(Consume(m, rt, clientId, at).0, lifetimes)
  {
  }

  lemma StepConfigures(s: Sys, e: Event, lifetimes: Lifetimes)
    requires HasLifetimes(s.mgr, lifetimes)
    ensures HasLifetimes(Step(s, e).mgr, if e.SetRefreshTTL? then Lifetimes(e.ttl, e.maxLife) else lifetimes)
  {
    if e.Redeem? {
      ConsumeKeepsLifetimes(s.mgr, e.rt, e.clientId, e.at, lifetimes);
      assert Step(s, e).mgr == Consume(s.mgr, e.rt, e.clientId, e.at).0;
    }
  }

  lemma {:induction false} ConfiguredIs(events: seq<Event>)
    ensures HasLifetimes(Run(events).mgr, Configured(events))
    decreases |events|
  {
    if events != [] {
      var before := events[..|events| - 1];
      ConfiguredIs(before);
      StepConfigures(Run(before), events[|events| - 1], Configured(before));
    }
  }

  // ----- minting -----

  predicate Mints(s: Sys, e: Event) {
    |Step(s, e).ledger| > |s.ledger|
  }

  /** What a waiting call gives when its mint comes: what it was granted, or for a refresh the part asked for. */
  ghost predicate Gives(p: Pending, requested: Option<seq<string>>, scopes: seq<string>) {
    if p.cause.Rotation? && requested.Some?
    then scopes == requested.value && forall x | x in scopes :: x in p.scopes
    else scopes == p.scopes
  }

  /**
    A call that waits mints exactly when its identifiers are new and, for a refresh, the scopes asked for were granted
    before; the token then has the call's client, lives one hour, and its refresh token as long as is configured.
  */
  lemma MintsExactlyWhen(s: Sys, e: Event)
    requires e.Mint? && e.call in s.pending && e.now > 0
    ensures var p := s.pending[e.call];
            && (Mints(s, e) <==> && e.id !in s.issued && e.rt !in s.issued && e.id != e.rt
                                 && exists scopes :: Gives(p, e.requested, scopes))
            && forall scopes | Gives(p, e.requested, scopes) && Mints(s, e) ::
                 var start := if p.familyCreated == 0 then e.now else p.familyCreated;
                 && Step(s, e).ledger == s.ledger + [Grant(e.id, p.clientId, scopes, e.now, e.rt,
                                                           e.now + s.mgr.refreshTTL, start, p.cause)]
                 && Step(s, e).mgr.tokens == s.mgr.tokens[e.id :=
                      Token(e.id, p.clientId, scopes, e.now, e.now + 3_600_000_000_000, false, e.rt,
                            e.now + s.mgr.refreshTTL, start)]
                 && Step(s, e).mgr.refresh == s.mgr.refresh[e.rt := e.id]
  {
    var p := s.pending[e.call];
    var given := MintScopes(p, e.requested);
    if given.Some? {
      assert Gives(p, e.requested, given.value);
    }
    forall scopes | Gives(p, e.requested, scopes) ensures given == Some(scopes) {
    }
  }

  lemma MintedToken(s: Sys, e: Event)
    requires Mints(s, e)
    ensures e.Mint? && e.now > 0 && |Step(s, e).ledger| == |s.ledger| + 1
    ensures var m', g := Step(s, e).mgr, Step(s, e).ledger[|s.ledger|];
            && e.id in m'.tokens && e.rt in m'.refresh && m'.refresh[e.rt] == e.id && e.id in Step(s, e).issued
            && !m'.tokens[e.id].revoked && m'.tokens[e.id].expiresAt == e.now + 3_600_000_000_000
            && g.id == e.id && g.refreshToken == e.rt && g.createdAt == e.now
            && g.refreshExpiresAt == e.now + s.mgr.refreshTTL
  {
  }

  /** Every grant in the ledger was minted by an event of the run, with the lifetime that was configured then. */
  lemma {:induction false} LedgerLifetimes(events: seq<Event>, g: nat) returns (i: nat)
    requires g < |Run(events).ledger|
    ensures i < |events| && events[i].Mint? && |Run(events[..i]).ledger| == g
    ensures var grant := Run(events).ledger[g];
            && grant.id == events[i].id && grant.refreshToken == events[i].rt && grant.createdAt == events[i].now
            && grant.refreshExpiresAt == events[i].now + Configured(events[..i]).ttl
    decreases |events|
  {
    var k := |events| - 1;
    var s := Run(events[..k]);
    StepExtends(s, events[k]);
    if g < |s.ledger| {
      i := LedgerLifetimes(events[..k], g);
      assert events[..k][..i] == events[..i] && events[..k][i] == events[i];
    } else {
      MintedToken(s, events[k]);
      ConfiguredIs(events[..k]);
      i := k;
    }
  }

  // ----- the refresh token -----

  /** The event neither presents the refresh token for the client it is of nor sweeps away the token that carries it. */
  ghost predicate LeavesAlone(s: Sys, e: Event, id: string, rt: string) {
    && id in s.mgr.tokens
    && (e.Redeem? ==> e.rt != rt || e.clientId != s.mgr.tokens[id].clientId)
    && (e.CleanupPass? ==> !s.mgr.tokens[id].revoked && e.now <= s.mgr.tokens[id].expiresAt)
  }

  predicate Live(s: Sys, id: string, rt: string) {
    rt in s.mgr.refresh && s.mgr.refresh[rt] == id
  }

  lemma ConsumeLeavesLive(m: State, id: string, rt: string, other: string, caller: string, at: Readings)
    requires rt in m.refresh && m.refresh[rt] == id && id in m.tokens
    requires other != rt || caller != m.tokens[id].clientId
    ensures var m' := Consume(m, other, caller, at).0; rt in m'.refresh && m'.refresh[rt] == id
  {
  }

  lemma CleanupLeavesLive(m: State, id: string, rt: string, now: int, issued: set<string>)
    requires Coherent(m, issued) && rt in m.refresh && m.refresh[rt] == id && id in m.tokens
    requires !m.tokens[id].revoked && now <= m.tokens[id].expiresAt
    ensures var m' := Cleanup(m, now); rt in m'.refresh && m'.refresh[rt] == id
  {
    CleanupDropsRefresh(m, rt, now, issued);
  }

  lemma OthersKeepRefresh(s: Sys, e: Event)
    requires !e.Redeem? && !e.CleanupPass? && !e.Mint?
    ensures Step(s, e).mgr.refresh == s.mgr.refresh
  {
  }

  lemma StepKeepsLive(s: Sys, e: Event, id: string, rt: string)
    requires Coherent(s.mgr, s.issued) && Live(s, id, rt) && LeavesAlone(s, e, id, rt)
    ensures Live(Step(s, e), id, rt)
  {
    if e.Redeem? {
      ConsumeLeavesLive(s.mgr, id, rt, e.rt, e.clientId, e.at);
      assert Step(s, e).mgr == Consume(s.mgr, e.rt, e.clientId, e.at).0;
    } else if e.CleanupPass? {
      CleanupLeavesLive(s.mgr, id, rt, e.now, s.issued);
    } else if e.Mint? {
      MintKeepsLive(s, e, id, rt);
    } else {
      OthersKeepRefresh(s, e);
    }
  }

  lemma MintKeepsLive(s: Sys, e: Event, id: string, rt: string)
    requires Coherent(s.mgr, s.issued) && Live(s, id, rt) && e.Mint?
    ensures Live(Step(s, e), id, rt)
  {
    assert rt in s.issued;
  }

  ghost predicate AllLeaveAlone(s: Sys, later: seq<Event>, id: string, rt: string)
    decreases |later|
  {
    later == []
    || (AllLeaveAlone(s, later[..|later| - 1], id, rt)
        && LeavesAlone(RunFrom(s, later[..|later| - 1]), later[|later| - 1], id, rt))
  }

  lemma {:induction false} StaysLive(s: Sys, later: seq<Event>, id: string, rt: string)
    requires Inv(s) && Live(s, id, rt) && AllLeaveAlone(s, later, id, rt)
    ensures Live(RunFrom(s, later), id, rt)
    decreases |later|
  {
    if later != [] {
      var k := |later| - 1;
      StaysLive(s, later[..k], id, rt);
      RunKeepsInv(s, later[..k]);
      StepKeepsLive(RunFrom(s, later[..k]), later[k], id, rt);
    }
  }

  /** A deadline of 0 is Go's zero time, which stands for none. */
  predicate NotAfter(t: int, deadline: int) {
    deadline == 0 || t <= deadline
  }

  ghost predicate AcceptedAsGranted(s: Sys, g: nat, rt: string, caller: string, at: Readings)
    requires g < |s.ledger|
  {
    Consume(s.mgr, rt, caller, at).1.Redeemed? <==>
      && caller == s.ledger[g].clientId && NotAfter(at.first, s.ledger[g].refreshExpiresAt)
      && at.second <= s.ledger[Root(s.ledger, g)].createdAt + s.mgr.refreshMaxLife
  }

  lemma LiveIsAccepted(s: Sys, id: string, rt: string, g: nat, caller: string, at: Readings)
    requires Inv(s) && Live(s, id, rt) && g < |s.ledger| && s.ledger[g].id == id
    ensures AcceptedAsGranted(s, g, rt, caller, at)
  {
    RedeemsExactlyWhen(s.mgr, rt, caller, at, s.issued);
    assert id in s.mgr.tokens && s.position[id] == g;
    StartOfLineage(s, g);
  }

  /** The grant at position g is that of the mint, and its refresh token is accepted in time for its client. */
  ghost predicate AcceptedInTime(s: Sys, g: nat, mint: Event, ttl: int, maxLife: int, caller: string, at: Readings)
    requires mint.Mint?
  {
    && g < |s.ledger| && s.ledger[g].id == mint.id
    && (Consume(s.mgr, mint.rt, caller, at).1.Redeemed? <==>
          && caller == s.ledger[g].clientId && NotAfter(at.first, mint.now + ttl)
          && at.second <= s.ledger[Root(s.ledger, g)].createdAt + maxLife)
    && (!s.ledger[g].cause.Rotation? ==> s.ledger[Root(s.ledger, g)].createdAt == mint.now)
  }

  /**
    An honest refresh succeeds.  Whatever else happens, the refresh token minted by e, as long as it was neither
    presented by its client nor swept away with its access token, is accepted exactly for that client, no later than the
    lifetime configured at the mint after the mint, and no later than the maximum life now configured after the creation
    of the root of its lineage, which for a token that did not come from a refresh is the mint itself.
  */
  lemma HonestRefreshExactlyWhen(before: seq<Event>, e: Event, later: seq<Event>, caller: string, at: Readings)
    requires Mints(Run(before), e) && AllLeaveAlone(Step(Run(before), e), later, e.id, e.rt)
    ensures e.Mint? && AcceptedInTime(Run(before + [e] + later), |Run(before).ledger|, e, Configured(before).ttl,
                                      Configured(before + [e] + later).maxLife, caller, at)
  {
    RunThrough(before, e, later);
    ConfiguredIs(before);
    ConfiguredIs(before + [e] + later);
    MintedIsAccepted(before, e, later, caller, at);
  }

  lemma MintedIsAccepted(before: seq<Event>, e: Event, later: seq<Event>, caller: string, at: Readings)
    requires Mints(Run(before), e) && AllLeaveAlone(Step(Run(before), e), later, e.id, e.rt)
    ensures var s := RunFrom(Step(Run(before), e), later);
            e.Mint? && AcceptedInTime(s, |Run(before).ledger|, e, Run(before).mgr.refreshTTL, s.mgr.refreshMaxLife,
                                      caller, at)
  {
    MintedStays(before, e, later);
    var s, g := RunFrom(Step(Run(before), e), later), |Run(before).ledger|;
    LiveIsAccepted(s, e.id, e.rt, g, caller, at);
    InTimeFromMint(s, g, e, Run(before).mgr.refreshTTL, caller, at);
  }

  lemma InTimeFromMint(s: Sys, g: nat, mint: Event, ttl: int, caller: string, at: Readings)
    requires mint.Mint? && g < |s.ledger| && s.ledger[g].id == mint.id
    requires s.ledger[g].createdAt == mint.now && s.ledger[g].refreshExpiresAt == mint.now + ttl
    requires AcceptedAsGranted(s, g, mint.rt, caller, at)
    ensures AcceptedInTime(s, g, mint, ttl, s.mgr.refreshMaxLife, caller, at)
  {
    RootIsItself(s.ledger, g);
  }

  lemma RootIsItself(ledger: seq<Grant>, g: nat)
    requires g < |ledger|
    ensures !ledger[g].cause.Rotation? ==> Root(ledger, g) == g
  {
  }

  lemma RunThrough(before: seq<Event>, e: Event, later: seq<Event>)
    ensures Run(before + [e] + later) == RunFrom(Step(Run(before), e), later)
  {
    assert (before + [e])[..|before|] == before;
    RunSplits(INITIAL, before + [e], later);
  }

  lemma MintedStays(before: seq<Event>, e: Event, later: seq<Event>)
    requires Mints(Run(before), e) && AllLeaveAlone(Step(Run(before), e), later, e.id, e.rt)
    ensures var s, g := RunFrom(Step(Run(before), e), later), |Run(before).ledger|;
            && e.Mint? && Inv(s) && Live(s, e.id, e.rt) && g < |s.ledger|
            && s.ledger[g].id == e.id && s.ledger[g].createdAt == e.now
            && s.ledger[g].refreshExpiresAt == e.now + Run(before).mgr.refreshTTL
  {
    var s1 := Step(Run(before), e);
    ReachableInv(before);
    StepKeepsInv(Run(before), e);
    MintedToken(Run(before), e);
    StaysLive(s1, later, e.id, e.rt);
    RunKeepsInv(s1, later);
    RunExtends(s1, later);
  }

  // ----- the access token -----

  /** What ends an unrevoked token: a revocation of it, its refresh token or its client, a refresh, or its expiry. */
  ghost predicate Ends(s: Sys, e: Event, id: string) {
    && id in s.mgr.tokens
    && var tok := s.mgr.tokens[id];
    match e
    case RevokeToken(x) => x == id
    case RevokeRFC7009(value, asRefresh) => value == id || (asRefresh && value == tok.refreshToken)
    case RevokeByClient(c) => c == tok.clientId
    case CleanupPass(now) => now > tok.expiresAt
    case Redeem(rt, caller, at) =>
      Accepts(s.mgr, id, rt, caller, at) || tok.clientId in Victims(s.mgr, rt, caller, at)
    case _ => false
  }

  predicate Alive(s: Sys, id: string) {
    id in s.mgr.tokens && !s.mgr.tokens[id].revoked
  }

  lemma AcceptedEndsOne(m: State, was: string, rt: string, caller: string, at: Readings, issued: set<string>)
    requires Coherent(m, issued) && Accepts(m, was, rt, caller, at)
    ensures Consume(m, rt, caller, at).0.tokens == m.tokens[was := m.tokens[was].(revoked := true)]
    ensures forall id :: Accepts(m, id, rt, caller, at) ==> id == was
    ensures Victims(m, rt, caller, at) == {}
  {
    AcceptedIsRedeemed(m, was, rt, caller, at, issued);
    NotOver(m, rt, caller, at, issued);
  }

  lemma ConsumeEndsExactlyWhen(m: State, rt: string, caller: string, at: Readings, id: string, issued: set<string>)
    requires Coherent(m, issued) && id in m.tokens && !m.tokens[id].revoked
    ensures var tokens' := Consume(m, rt, caller, at).0.tokens;
            (id in tokens' && !tokens'[id].revoked) <==>
            !(Accepts(m, id, rt, caller, at) || m.tokens[id].clientId in Victims(m, rt, caller, at))
  {
    if was :| Accepts(m, was, rt, caller, at) {
      AcceptedEndsOne(m, was, rt, caller, at, issued);
      assert Accepts(m, id, rt, caller, at) <==> id == was;
    } else {
      RefusalRevokesExactly(m, rt, caller, at, issued);
    }
  }

  lemma RevokingEndsExactlyWhen(s: Sys, e: Event, id: string)
    requires Coherent(s.mgr, s.issued) && Alive(s, id) && Housekeeping(e)
    ensures Alive(Step(s, e), id) <==> !Ends(s, e, id)
  {
    if e.RevokeByClient? {
      FamilyIsTheClient(s.mgr, e.clientId, s.issued);
    }
  }

  lemma EndsExactlyWhen(s: Sys, e: Event, id: string)
    requires Coherent(s.mgr, s.issued) && Alive(s, id)
    ensures Alive(Step(s, e), id) <==> !Ends(s, e, id)
  {
    if Housekeeping(e) {
      RevokingEndsExactlyWhen(s, e, id);
    } else if e.Redeem? {
      assert Step(s, e).mgr == Consume(s.mgr, e.rt, e.clientId, e.at).0;
      ConsumeEndsExactlyWhen(s.mgr, e.rt, e.clientId, e.at, id, s.issued);
    } else if e.Mint? {
      assert id in s.issued;
    }
  }

  lemma GoneStaysGone(s: Sys, e: Event, id: string)
    requires id in s.issued && !Alive(s, id)
    ensures !Alive(Step(s, e), id)
  {
    StepKeepsGone(s, e, id);
  }

  /** No event of the continuation ends the token. */
  ghost predicate NeverEnds(s: Sys, later: seq<Event>, id: string)
    decreases |later|
  {
    later == []
    || (NeverEnds(s, later[..|later| - 1], id) && !Ends(RunFrom(s, later[..|later| - 1]), later[|later| - 1], id))
  }

  /** A token is alive after any further events exactly when none of them ended it. */
  lemma {:induction false} LivesExactlyWhen(s: Sys, later: seq<Event>, id: string)
    requires Inv(s) && Alive(s, id)
    ensures Alive(RunFrom(s, later), id) <==> NeverEnds(s, later, id)
    decreases |later|
  {
    if later != [] {
      var n := |later| - 1;
      var s' := RunFrom(s, later[..n]);
      LivesExactlyWhen(s, later[..n], id);
      RunKeepsInv(s, later[..n]);
      RunExtends(s, later[..n]);
      if Alive(s', id) {
        EndsExactlyWhen(s', later[n], id);
      } else {
        assert id in s.issued;
        GoneStaysGone(s', later[n], id);
      }
    }
  }

  predicate ExpiresAt(s: Sys, id: string, t: int) {
    id in s.issued && (id in s.mgr.tokens ==> s.mgr.tokens[id].expiresAt == t)
  }

  lemma StepKeepsExpiry(s: Sys, e: Event, id: string, t: int)
    requires ExpiresAt(s, id, t) && !(e.TouchToken? && e.id == id)
    ensures ExpiresAt(Step(s, e), id, t)
  {
    if e.Redeem? {
      ConsumeKeepsExpiry(s.mgr, e.rt, e.clientId, e.at, id);
      assert Step(s, e).mgr == Consume(s.mgr, e.rt, e.clientId, e.at).0;
    }
  }

  lemma ConsumeKeepsExpiry(m: State, rt: string, clientId: string, at: Readings, id: string)
    ensures var m' := Consume(m, rt, clientId, at).0;
            id in m'.tokens <==> id in m.tokens
    ensures id in m.tokens ==> Consume(m, rt, clientId, at).0.tokens[id].expiresAt == m.tokens[id].expiresAt
  {
  }

  lemma {:induction false} StaysUntouched(s: Sys, later: seq<Event>, id: string, t: int)
    requires ExpiresAt(s, id, t)
    requires forall k | 0 <= k < |later| :: !(later[k].TouchToken? && later[k].id == id)
    ensures ExpiresAt(RunFrom(s, later), id, t)
    decreases |later|
  {
    if later != [] {
      var n := |later| - 1;
      StaysUntouched(s, later[..n], id, t);
      StepKeepsExpiry(RunFrom(s, later[..n]), later[n], id, t);
    }
  }

  /** Until it is touched, a minted token is valid exactly for one hour from its mint, unless an event ends it. */
  lemma ValidExactlyWhen(before: seq<Event>, e: Event, later: seq<Event>, now: int)
    requires Mints(Run(before), e)
    requires forall k | 0 <= k < |later| :: !(later[k].TouchToken? && later[k].id == e.id)
    ensures IsValid(RunFrom(Step(Run(before), e), later).mgr, e.id, now) <==>
            now < e.now + 3_600_000_000_000 && NeverEnds(Step(Run(before), e), later, e.id)
  {
    var s1 := Step(Run(before), e);
    ReachableInv(before);
    StepKeepsInv(Run(before), e);
    MintedToken(Run(before), e);
    LivesExactlyWhen(s1, later, e.id);
    StaysUntouched(s1, later, e.id, e.now + 3_600_000_000_000);
  }
}
