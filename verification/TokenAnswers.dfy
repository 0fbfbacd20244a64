/** What the token endpoint answers and stores, told by the caller's input and by what is stored. */
module TokenAnswers {
  import opened Options
  import opened TokenModel
  import opened TokenManager

  /** The refresh token is live, the stored token `was` carries it, and it is the caller's and twice in time. */
  ghost predicate Accepts(m: State, was: string, rt: string, clientId: string, now: Readings) {
    && rt in m.refresh && was in m.tokens && m.tokens[was].refreshToken == rt && m.tokens[was].clientId == clientId
    && (m.tokens[was].refreshExpiresAt == 0 || now.first <= m.tokens[was].refreshExpiresAt)
    && (m.tokens[was].familyCreatedAt == 0 || now.second <= m.tokens[was].familyCreatedAt + m.refreshMaxLife)
  }

  ghost predicate Within(requested: Option<seq<string>>, granted: seq<string>) {
    requested.Some? ==> forall s | s in requested.value :: s in granted
  }

  lemma AcceptedIsRedeemed(m: State, was: string, rt: string, clientId: string, now: Readings, issued: set<string>)
    requires Coherent(m, issued) && Accepts(m, was, rt, clientId, now)
    ensures m.refresh[rt] == was && rt !in m.used
    ensures Consume(m, rt, clientId, now) ==
            (m.(tokens := m.tokens[was := m.tokens[was].(revoked := true)],
                refresh := m.refresh - {rt}, used := m.used[rt := clientId]),
             Redeemed(m.tokens[was]))
  {
    assert m.refresh[rt] in m.tokens && m.tokens[m.refresh[rt]].refreshToken == rt;
  }

  lemma RedeemedIsAccepted(m: State, rt: string, clientId: string, now: Readings, issued: set<string>)
    requires Coherent(m, issued) && Consume(m, rt, clientId, now).1.Redeemed?
    ensures rt in m.refresh && Accepts(m, m.refresh[rt], rt, clientId, now)
  {
    RedeemsExactlyWhen(m, rt, clientId, now, issued);
  }

  /** A refresh gives tokens exactly for a known client with its secret, an accepted token and no wider scope. */
  lemma RefreshIssuesExactlyWhen(m: State, rt: string, clientId: string, secret: string,
                                 requested: Option<seq<string>>, id: string, newRt: string, now: Readings,
                                 mintedAt: int, issued: set<string>)
    requires Coherent(m, issued)
    ensures RefreshGrant(m, rt, clientId, secret, requested, id, newRt, now, mintedAt).1.Issued? <==>
            && clientId in m.clients && m.clients[clientId].secret == secret
            && exists was :: Accepts(m, was, rt, clientId, now) && Within(requested, m.tokens[was].scopes)
  {
    if was :| Accepts(m, was, rt, clientId, now) {
      AcceptedIsRedeemed(m, was, rt, clientId, now, issued);
      assert forall x | Accepts(m, x, rt, clientId, now) :: x == was;
    }
    if Consume(m, rt, clientId, now).1.Redeemed? {
      RedeemedIsAccepted(m, rt, clientId, now, issued);
    }
  }

  /**
    What it then makes: the new token has the scopes asked for, or all that were granted, lives one hour from the mint,
    its refresh token as long as configured, and it keeps the start of its family; the old token is revoked and its
    refresh token spent; nothing else changes.
  */
  lemma RefreshMakes(m: State, was: string, rt: string, clientId: string, secret: string,
                     requested: Option<seq<string>>, id: string, newRt: string, now: Readings, mintedAt: int,
                     issued: set<string>)
    requires Coherent(m, issued) && Accepts(m, was, rt, clientId, now)
    requires clientId in m.clients && m.clients[clientId].secret == secret
    requires Within(requested, m.tokens[was].scopes)
    ensures var old_ := m.tokens[was];
            var scopes := if requested.Some? then requested.value else old_.scopes;
            var (m', reply) := RefreshGrant(m, rt, clientId, secret, requested, id, newRt, now, mintedAt);
            && reply == Issued(id, newRt, scopes)
            && m'.tokens == m.tokens[was := old_.(revoked := true)][id :=
                 Token(id, clientId, scopes, mintedAt, mintedAt + 3_600_000_000_000, false, newRt,
                       mintedAt + m.refreshTTL, if old_.familyCreatedAt == 0 then mintedAt else old_.familyCreatedAt)]
            && m'.refresh == (m.refresh - {rt})[newRt := id] && m'.used == m.used[rt := clientId]
            && m'.clients == m.clients && m'.refreshTTL == m.refreshTTL && m'.refreshMaxLife == m.refreshMaxLife
  {
    AcceptedIsRedeemed(m, was, rt, clientId, now, issued);
  }

  /** Asking for a scope that was not granted spends the refresh token and gives nothing. */
  lemma WideningSpendsTheToken(m: State, was: string, rt: string, clientId: string, secret: string,
                               requested: Option<seq<string>>, id: string, newRt: string, now: Readings,
                               mintedAt: int, issued: set<string>)
    requires Coherent(m, issued) && Accepts(m, was, rt, clientId, now)
    requires clientId in m.clients && m.clients[clientId].secret == secret
    requires !Within(requested, m.tokens[was].scopes)
    ensures RefreshGrant(m, rt, clientId, secret, requested, id, newRt, now, mintedAt) ==
            (m.(tokens := m.tokens[was := m.tokens[was].(revoked := true)],
                refresh := m.refresh - {rt}, used := m.used[rt := clientId]),
             Denied(InvalidScope))
  {
    AcceptedIsRedeemed(m, was, rt, clientId, now, issued);
  }

  /** A live refresh token of the caller's, in time itself, whose family is past the maximum life. */
  ghost predicate FamilyIsOver(m: State, was: string, rt: string, clientId: string, now: Readings) {
    && rt in m.refresh && was in m.tokens && m.tokens[was].refreshToken == rt && m.tokens[was].clientId == clientId
    && (m.tokens[was].refreshExpiresAt == 0 || now.first <= m.tokens[was].refreshExpiresAt)
    && m.tokens[was].familyCreatedAt != 0 && now.second > m.tokens[was].familyCreatedAt + m.refreshMaxLife
  }

  lemma OverIsExpired(m: State, was: string, rt: string, clientId: string, now: Readings, issued: set<string>)
    requires Coherent(m, issued) && FamilyIsOver(m, was, rt, clientId, now)
    ensures Consume(m, rt, clientId, now) ==
            (RevokeFamily(m, clientId).(refresh := m.refresh - {rt}), FamilyExpired)
  {
    assert m.refresh[rt] in m.tokens && m.tokens[m.refresh[rt]].refreshToken == rt;
  }

  lemma ExpiredIsOver(m: State, rt: string, clientId: string, now: Readings, issued: set<string>)
    requires Coherent(m, issued) && Consume(m, rt, clientId, now).1.FamilyExpired?
    ensures rt in m.refresh && FamilyIsOver(m, m.refresh[rt], rt, clientId, now)
  {
  }

  /** The tokens of exactly these clients have become revoked, and nothing else about any token has changed. */
  ghost predicate RevokedOf(tokens: map<string, Token>, tokens': map<string, Token>, victims: set<string>) {
    && tokens'.Keys == tokens.Keys
    && forall id | id in tokens ::
         tokens'[id] == if tokens[id].clientId in victims then tokens[id].(revoked := true) else tokens[id]
  }

  lemma FamilyRevokesOne(m: State, victim: string, issued: set<string>)
    requires Coherent(m, issued)
    ensures RevokedOf(m.tokens, RevokeFamily(m, victim).tokens, {victim})
  {
    FamilyIsTheClient(m, victim, issued);
  }

  /** The clients whose tokens a refused refresh revokes. */
  ghost function Victims(m: State, rt: string, clientId: string, now: Readings): set<string> {
    if rt in m.used then {m.used[rt]}
    else if exists was :: FamilyIsOver(m, was, rt, clientId, now) then {clientId}
    else {}
  }

  ghost predicate RefusedTo(m: State, m': State, rt: string, clientId: string, now: Readings) {
    && RevokedOf(m.tokens, m'.tokens, Victims(m, rt, clientId, now)) && m'.used == m.used
    && m'.refresh == if rt in m.refresh && m.refresh[rt] in m.tokens && m.tokens[m.refresh[rt]].clientId == clientId
                     then m.refresh - {rt} else m.refresh
  }

  /**
    A refusal that is not about scopes revokes exactly the tokens of one client: the one that had spent the presented
    token before, or the caller when the family of its token is past the maximum life; otherwise it revokes none.  The
    caller's own refresh token, being late, is forgotten.
  */
  lemma RefusalRevokesExactly(m: State, rt: string, clientId: string, now: Readings, issued: set<string>)
    requires Coherent(m, issued) && !exists was :: Accepts(m, was, rt, clientId, now)
    ensures RefusedTo(m, Consume(m, rt, clientId, now).0, rt, clientId, now)
  {
    match Consume(m, rt, clientId, now).1
    case Reuse => ReplayRevokes(m, rt, clientId, now, issued);
    case FamilyExpired => OverRevokes(m, rt, clientId, now, issued);
    case Redeemed(_) =>
      RedeemedIsAccepted(m, rt, clientId, now, issued);
      assert false;
    case _ => OtherwiseNone(m, rt, clientId, now, issued);
  }

  lemma ReplayRevokes(m: State, rt: string, clientId: string, now: Readings, issued: set<string>)
    requires Coherent(m, issued) && Consume(m, rt, clientId, now).1.Reuse?
    ensures RefusedTo(m, Consume(m, rt, clientId, now).0, rt, clientId, now)
  {
    assert rt !in m.refresh;
    FamilyRevokesOne(m, m.used[rt], issued);
  }

  lemma OverRevokes(m: State, rt: string, clientId: string, now: Readings, issued: set<string>)
    requires Coherent(m, issued) && Consume(m, rt, clientId, now).1.FamilyExpired?
    ensures RefusedTo(m, Consume(m, rt, clientId, now).0, rt, clientId, now)
  {
    ExpiredIsOver(m, rt, clientId, now, issued);
    FamilyRevokesOne(m, clientId, issued);
  }

  lemma OtherwiseNone(m: State, rt: string, clientId: string, now: Readings, issued: set<string>)
    requires Coherent(m, issued)
    requires var r := Consume(m, rt, clientId, now).1; !(r.Reuse? || r.FamilyExpired? || r.Redeemed?)
    ensures RefusedTo(m, Consume(m, rt, clientId, now).0, rt, clientId, now)
  {
    assert Victims(m, rt, clientId, now) == {} by {
      NotOver(m, rt, clientId, now, issued);
    }
    NoneRevoked(m.tokens);
  }

  lemma NoneRevoked(tokens: map<string, Token>)
    ensures RevokedOf(tokens, tokens, {})
  {
  }

  lemma NotOver(m: State, rt: string, clientId: string, now: Readings, issued: set<string>)
    requires Coherent(m, issued)
    requires var r := Consume(m, rt, clientId, now).1; !r.FamilyExpired?
    ensures forall was :: !FamilyIsOver(m, was, rt, clientId, now)
  {
    forall was ensures !FamilyIsOver(m, was, rt, clientId, now) {
      if FamilyIsOver(m, was, rt, clientId, now) {
        OverIsExpired(m, was, rt, clientId, now, issued);
        assert false;
      }
    }
  }

  /** The answer to such a refusal, and what the manager is left with. */
  lemma RefreshRefuses(m: State, rt: string, clientId: string, secret: string, requested: Option<seq<string>>,
                       id: string, newRt: string, now: Readings, mintedAt: int, issued: set<string>)
    requires Coherent(m, issued) && !exists was :: Accepts(m, was, rt, clientId, now)
    ensures RefreshGrant(m, rt, clientId, secret, requested, id, newRt, now, mintedAt) ==
            if clientId in m.clients && m.clients[clientId].secret == secret
            then (Consume(m, rt, clientId, now).0, Denied(InvalidGrant))
            else (m, Denied(InvalidClient))
  {
    if Consume(m, rt, clientId, now).1.Redeemed? {
      RedeemedIsAccepted(m, rt, clientId, now, issued);
      assert false;
    }
  }

  /** The scopes of a client_credentials grant: those asked for, or all that are registered when none is. */
  function Asked(m: State, clientId: string, requested: seq<string>): seq<string>
    requires clientId in m.clients
  {
    if requested != [] then requested else m.clients[clientId].scopes
  }

  /**
    A client_credentials grant is answered with tokens exactly for a known client with its secret whose registration is
    empty or has every scope asked for; the token has these scopes and starts a family of its own.
  */
  lemma CredentialsAnswers(m: State, clientId: string, secret: string, requested: seq<string>,
                           id: string, rt: string, now: int)
    ensures var (m', reply) := CredentialsGrant(m, clientId, secret, requested, id, rt, now);
            && (reply == Denied(InvalidClient) <==> !(clientId in m.clients && m.clients[clientId].secret == secret))
            && (reply.Issued? <==>
                  && clientId in m.clients && m.clients[clientId].secret == secret
                  && (m.clients[clientId].scopes == []
                      || forall s | s in requested :: s in m.clients[clientId].scopes))
            && (!reply.Issued? ==> m' == m)
            && (reply.Issued? ==>
                  && reply == Issued(id, rt, Asked(m, clientId, requested))
                  && m'.tokens == m.tokens[id :=
                       Token(id, clientId, Asked(m, clientId, requested), now, now + 3_600_000_000_000, false, rt,
                             now + m.refreshTTL, now)]
                  && m'.refresh == m.refresh[rt := id] && m'.used == m.used && m'.clients == m.clients
                  && m'.refreshTTL == m.refreshTTL && m'.refreshMaxLife == m.refreshMaxLife)
  {
  }
}
