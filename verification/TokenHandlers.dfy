/** The handlers of the token endpoint, run without interruption, are runs of the two-step machine. */
module TokenHandlers {
  import opened Options
  import opened TokenModel
  import opened TokenRuns
  import opened TokenManager

  /** What a mint adds to the manager and to the ledger, told by the reply. */
  ghost predicate Minted(s: Sys, s2: Sys, m: State, reply: Reply, id: string) {
    && s2.mgr == m
    && (reply.Issued? <==> |s2.ledger| > |s.ledger|)
    && (reply.Issued? ==> s2.ledger[|s.ledger|].id == id && s2.ledger[|s.ledger|].scopes == reply.scopes)
  }

  lemma MintConcludes(s: Sys, s1: Sys, m1: State, r: ConsumeResult, clientId: string, g: nat,
                      requested: Option<seq<string>>, id: string, newRt: string, now: int)
    requires s1.mgr == m1 && s1.issued == s.issued && s1.ledger == s.ledger && s.calls in s1.pending && r.Redeemed?
    requires s1.pending[s.calls] == Pending(clientId, r.spent.scopes, r.spent.familyCreatedAt, Rotation(g))
    requires id !in s.issued && newRt !in s.issued && id != newRt && now > 0
    ensures var (m, reply) := AfterConsume(m1, r, clientId, requested, id, newRt, now);
            Minted(s, Step(s1, Mint(s.calls, requested, id, newRt, now)), m, reply, id)
  {
  }

  lemma NotRedeemed(s: Sys, rt: string, clientId: string, now: Readings)
    requires Inv(s) && !Consume(s.mgr, rt, clientId, now).1.Redeemed?
    ensures Step(s, Redeem(rt, clientId, now)) == s.(mgr := Consume(s.mgr, rt, clientId, now).0)
    ensures s.calls !in s.pending
  {
  }

  /** A refresh that nothing interrupts is a Redeem followed at once by a Mint. */
  lemma RefreshIsRedeemThenMint(s: Sys, rt: string, clientId: string, secret: string, requested: Option<seq<string>>,
                                id: string, newRt: string, now: Readings, mintedAt: int)
    requires Inv(s) && Authenticates(s.mgr, clientId, secret)
    requires id !in s.issued && newRt !in s.issued && id != newRt && mintedAt > 0
    ensures var s2 := Step(Step(s, Redeem(rt, clientId, now)), Mint(s.calls, requested, id, newRt, mintedAt));
            var (m, reply) := RefreshGrant(s.mgr, rt, clientId, secret, requested, id, newRt, now, mintedAt);
            Minted(s, s2, m, reply, id)
  {
    if Consume(s.mgr, rt, clientId, now).1.Redeemed? {
      var g := RedeemBegins(s, rt, clientId, now);
      var (m1, r) := Consume(s.mgr, rt, clientId, now);
      MintConcludes(s, Step(s, Redeem(rt, clientId, now)), m1, r, clientId, g, requested, id, newRt, mintedAt);
    } else {
      NotRedeemed(s, rt, clientId, now);
    }
  }

  /** A client credentials grant that nothing interrupts is a ValidateRoot followed at once by a Mint. */
  lemma CredentialsIsValidateThenMint(s: Sys, clientId: string, secret: string, requested: seq<string>,
                                      id: string, rt: string, now: int)
    requires Inv(s) && Authenticates(s.mgr, clientId, secret)
    requires id !in s.issued && rt !in s.issued && id != rt && now > 0
    ensures var scopes := DefaultScopes(s.mgr, clientId, requested);
            var s1 := Step(s, ValidateRoot(clientId, scopes));
            var s2 := Step(s1, Mint(s.calls, None, id, rt, now));
            var (m, reply) := CredentialsGrant(s.mgr, clientId, secret, requested, id, rt, now);
            && s2.mgr == m
            && (reply.Issued? <==> |s2.ledger| > |s.ledger|)
            && (reply.Issued? ==> s2.ledger[|s.ledger|].id == id && s2.ledger[|s.ledger|].scopes == reply.scopes)
  {
    var scopes := DefaultScopes(s.mgr, clientId, requested);
    var s1 := Step(s, ValidateRoot(clientId, scopes));
    if ScopesAllowed(s.mgr, clientId, scopes) {
      assert s1.pending[s.calls] == Pending(clientId, scopes, 0, Validated(s.mgr.clients[clientId].scopes));
    } else {
      assert s1 == s && s.calls !in s.pending;
    }
  }

  /** A token minted for a flow that has done its own checks: that client's, with those scopes, a family of its own. */
  lemma DirectIsBeginThenMint(s: Sys, clientId: string, scopes: seq<string>, id: string, rt: string, now: int)
    requires Inv(s) && id !in s.issued && rt !in s.issued && id != rt && now > 0
    ensures var s2 := Step(Step(s, BeginDirect(clientId, scopes)), Mint(s.calls, None, id, rt, now));
            && s2.mgr.tokens == s.mgr.tokens[id := Token(id, clientId, scopes, now, now + 3_600_000_000_000, false, rt,
                                                         now + s.mgr.refreshTTL, now)]
            && s2.mgr.refresh == s.mgr.refresh[rt := id] && s2.mgr.used == s.mgr.used && s2.pending == s.pending
  {
    var s1 := Step(s, BeginDirect(clientId, scopes));
    assert s1.pending[s.calls] == Pending(clientId, scopes, 0, Direct) && s.calls !in s.pending;
  }
}
