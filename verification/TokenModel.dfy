/**
  The token manager (internal/token/manager.go) as a value: its maps, and one function
  for every section of code that runs while the manager's lock is held.

  Times are integers in nanoseconds; 0 stands for Go's zero time.  Identifiers are strings,
  and the identifiers a mint generates are parameters that the caller keeps fresh.
*/
module TokenModel {
  import opened Options

  const HOUR: int := 3_600_000_000_000

  datatype Token = Token(
    id: string, clientId: string, scopes: seq<string>, createdAt: int, expiresAt: int,
    revoked: bool, refreshToken: string, refreshExpiresAt: int, familyCreatedAt: int)

  datatype Client = Client(id: string, secret: string, scopes: seq<string>, redirectUris: seq<string>)

  datatype State = State(
    tokens: map<string, Token>,          // token id -> token
    refresh: map<string, string>,        // live refresh token -> token id
    used: map<string, string>,           // redeemed refresh token -> client id
    families: map<string, seq<string>>,  // client id -> token ids, in mint order
    clients: map<string, Client>,
    refreshTTL: int,
    refreshMaxLife: int)

  /** The two readings of the clock that one section under the lock takes, in that order. */
  datatype Readings = Readings(first: int, second: int)

  function Listed(families: map<string, seq<string>>, clientId: string): seq<string> {
    if clientId in families then families[clientId] else []
  }

  function Family(m: State, clientId: string): seq<string> {
    Listed(m.families, clientId)
  }

  function RevokeListed(tokens: map<string, Token>, ids: seq<string>): map<string, Token> {
    map id | id in tokens :: if id in ids then tokens[id].(revoked := true) else tokens[id]
  }

  function RevokeFamily(m: State, clientId: string): State {
    m.(tokens := RevokeListed(m.tokens, Family(m, clientId)))
  }

  // ----- the refresh grant: the section under the lock -----

  datatype ConsumeResult =
    | Reuse           // already redeemed: the family has been revoked
    | NotFound
    | NotOwned        // belongs to another client
    | RefreshExpired
    | FamilyExpired   // past the absolute lifetime: the family has been revoked
    | Redeemed(spent: Token)

  function Consume(m: State, rt: string, clientId: string, now: Readings): (State, ConsumeResult) {
    if rt in m.used then
      (RevokeFamily(m, m.used[rt]), Reuse)
    else if rt !in m.refresh then
      (m, NotFound)
    else if m.refresh[rt] !in m.tokens || m.tokens[m.refresh[rt]].clientId != clientId then
      (m, NotOwned)
    else
      var spent := m.tokens[m.refresh[rt]];
      if spent.refreshExpiresAt != 0 && now.first > spent.refreshExpiresAt then
        (m.(refresh := m.refresh - {rt}), RefreshExpired)
      else if spent.familyCreatedAt != 0 && now.second > spent.familyCreatedAt + m.refreshMaxLife then
        (RevokeFamily(m, clientId).(refresh := m.refresh - {rt}), FamilyExpired)
      else
        (m.(tokens := m.tokens[m.refresh[rt] := spent.(revoked := true)],
            refresh := m.refresh - {rt},
            used := m.used[rt := clientId]),
         Redeemed(spent))
  }

  /** The narrowing of section 6 of RFC 6749; None when the request exceeds the grant. */
  function Narrow(granted: seq<string>, requested: Option<seq<string>>): Option<seq<string>> {
    match requested
    case None => Some(granted)
    case Some(scopes) => if forall s | s in scopes :: s in granted then Some(scopes) else None
  }

  // ----- minting -----

  function FamilyStart(familyCreated: int, now: int): int {
    if familyCreated == 0 then now else familyCreated
  }

  function NewToken(m: State, clientId: string, scopes: seq<string>, familyCreated: int,
                    id: string, rt: string, now: int): Token {
    Token(id, clientId, scopes, now, now + HOUR, false, rt, now + m.refreshTTL, FamilyStart(familyCreated, now))
  }

  function Store(m: State, tok: Token): State {
    m.(tokens := m.tokens[tok.id := tok],
       refresh := m.refresh[tok.refreshToken := tok.id],
       families := m.families[tok.clientId := Family(m, tok.clientId) + [tok.id]])
  }

  // ----- client credentials -----

  predicate Authenticates(m: State, clientId: string, secret: string) {
    clientId in m.clients && m.clients[clientId].secret == secret
  }

  function DefaultScopes(m: State, clientId: string, requested: seq<string>): seq<string> {
    if requested == [] && clientId in m.clients then m.clients[clientId].scopes else requested
  }

  predicate ScopesAllowed(m: State, clientId: string, requested: seq<string>) {
    && clientId in m.clients
    && (m.clients[clientId].scopes == [] || forall s | s in requested :: s in m.clients[clientId].scopes)
  }

  // ----- revocation, expiry, housekeeping -----

  function RevokeOne(m: State, id: string): State {
    if id in m.tokens then m.(tokens := m.tokens[id := m.tokens[id].(revoked := true)]) else m
  }

  /** Every token that carries the value as its refresh token. */
  function RevokeCarriers(tokens: map<string, Token>, value: string): map<string, Token> {
    map id | id in tokens :: if tokens[id].refreshToken == value then tokens[id].(revoked := true) else tokens[id]
  }

  /** The same with the tokens in `todo` still to be looked at. */
  function CarriersDone(tokens: map<string, Token>, todo: set<string>, value: string): map<string, Token> {
    map id | id in tokens ::
      if id !in todo && tokens[id].refreshToken == value then tokens[id].(revoked := true) else tokens[id]
  }

  lemma CarriersOneMore(tokens: map<string, Token>, todo: set<string>, value: string, id: string)
    requires id in tokens && id in todo
    ensures CarriersDone(tokens, todo, value)[id] == tokens[id]
    ensures CarriersDone(tokens, todo - {id}, value) ==
            if tokens[id].refreshToken == value
            then CarriersDone(tokens, todo, value)[id := tokens[id].(revoked := true)]
            else CarriersDone(tokens, todo, value)
  {
  }

  lemma RevokeBothWays(m: State, value: string)
    ensures RevokeValue(m, value, false) == RevokeOne(m, value)
    ensures RevokeValue(m, value, true).tokens == RevokeCarriers(RevokeOne(m, value).tokens, value)
  {
    assert RevokeValue(m, value, false).tokens == RevokeOne(m, value).tokens;
  }

  /** RFC 7009: the value is tried as an access token and, unless the hint rules it out, as a refresh token. */
  function RevokeValue(m: State, value: string, asRefresh: bool): State {
    m.(tokens := map id | id in m.tokens ::
        if id == value || (asRefresh && m.tokens[id].refreshToken == value)
        then m.tokens[id].(revoked := true) else m.tokens[id])
  }

  predicate IsValid(m: State, id: string, now: int) {
    id in m.tokens && !m.tokens[id].revoked && now < m.tokens[id].expiresAt
  }

  function Window(window: int): int {
    if window <= 0 then HOUR else window
  }

  predicate Touches(m: State, id: string, window: int, now: Readings) {
    id in m.tokens && !m.tokens[id].revoked && m.tokens[id].expiresAt - now.first < Window(window) / 2
  }

  function Touch(m: State, id: string, window: int, now: Readings): State {
    if Touches(m, id, window, now)
    then m.(tokens := m.tokens[id := m.tokens[id].(expiresAt := now.second + Window(window))])
    else m
  }

  predicate Dead(tok: Token, now: int) {
    tok.revoked || now > tok.expiresAt
  }

  function DeadIds(m: State, now: int): set<string> {
    set id | id in m.tokens && Dead(m.tokens[id], now)
  }

  function Cleanup(m: State, now: int): State {
    Without(m, DeadIds(m, now))
  }

  /** The tokens of a set removed, with the refresh entries they carry. */
  function Without(m: State, ids: set<string>): State {
    m.(tokens := m.tokens - ids, refresh := m.refresh - Carried(m.tokens, ids))
  }

  /** The refresh tokens that a set of stored tokens carries. */
  function Carried(tokens: map<string, Token>, ids: set<string>): set<string> {
    set id | id in ids && id in tokens :: tokens[id].refreshToken
  }

  function DeadAmong(m: State, ids: set<string>, now: int): set<string> {
    set id | id in ids && id in m.tokens && Dead(m.tokens[id], now)
  }

  lemma SweptOneMore(m: State, seen: set<string>, id: string, now: int)
    requires id in m.tokens && id !in seen
    ensures var gone := DeadAmong(m, seen, now);
            var gone' := DeadAmong(m, seen + {id}, now);
            && gone' == gone + (if Dead(m.tokens[id], now) then {id} else {})
            && |gone'| == |gone| + (if Dead(m.tokens[id], now) then 1 else 0)
            && id in Without(m, gone).tokens && Without(m, gone).tokens[id] == m.tokens[id]
            && Without(m, gone') ==
               if Dead(m.tokens[id], now) then Without(Without(m, gone), {id}) else Without(m, gone)
  {
    var gone := DeadAmong(m, seen, now);
    assert DeadAmong(m, seen + {id}, now) == gone + (if Dead(m.tokens[id], now) then {id} else {});
    WithoutOneMore(m, gone, id);
  }

  lemma WithoutOneMore(m: State, ids: set<string>, id: string)
    requires id in m.tokens && id !in ids
    ensures Without(m, ids + {id}) == Without(Without(m, ids), {id})
  {
    assert Carried(m.tokens, ids + {id}) == Carried(m.tokens, ids) + Carried(m.tokens - ids, {id});
  }

  /** The unrevoked tokens among the listed ones. */
  function ActiveAmong(tokens: map<string, Token>, ids: seq<string>): set<string> {
    set id | id in ids && id in tokens && !tokens[id].revoked
  }

  lemma ListedOneMore(tokens: map<string, Token>, ids: seq<string>, i: nat)
    requires i < |ids|
    ensures ActiveAmong(tokens, ids[..i + 1]) ==
            ActiveAmong(tokens, ids[..i]) + (if ids[i] in tokens && !tokens[ids[i]].revoked then {ids[i]} else {})
    ensures RevokeListed(tokens, ids[..i + 1]) ==
            if ids[i] in tokens then RevokeListed(tokens, ids[..i])[ids[i] := tokens[ids[i]].(revoked := true)]
            else RevokeListed(tokens, ids[..i])
    ensures Distinct(ids) ==> ids[i] !in ids[..i]
  {
    assert ids[..i + 1] == ids[..i] + [ids[i]];
  }

  function RevokedIds(m: State): set<string> {
    set id | id in m.tokens && m.tokens[id].revoked
  }

  function ExpiredIds(m: State, now: int): set<string> {
    set id | id in m.tokens && !m.tokens[id].revoked && now > m.tokens[id].expiresAt
  }

  /** The same among the tokens outside `todo`. */
  function RevokedBut(tokens: map<string, Token>, todo: set<string>): set<string> {
    set id | id in tokens && id !in todo && tokens[id].revoked
  }

  function ExpiredBut(tokens: map<string, Token>, todo: set<string>, now: int): set<string> {
    set id | id in tokens && id !in todo && !tokens[id].revoked && now > tokens[id].expiresAt
  }

  lemma CountOneMore(tokens: map<string, Token>, todo: set<string>, id: string, now: int)
    requires id in tokens && id in todo
    ensures |RevokedBut(tokens, todo - {id})| == |RevokedBut(tokens, todo)| + if tokens[id].revoked then 1 else 0
    ensures |ExpiredBut(tokens, todo - {id}, now)| ==
            |ExpiredBut(tokens, todo, now)| + if !tokens[id].revoked && now > tokens[id].expiresAt then 1 else 0
  {
    if tokens[id].revoked {
      assert RevokedBut(tokens, todo - {id}) == RevokedBut(tokens, todo) + {id};
    } else {
      assert RevokedBut(tokens, todo - {id}) == RevokedBut(tokens, todo);
    }
    if !tokens[id].revoked && now > tokens[id].expiresAt {
      assert ExpiredBut(tokens, todo - {id}, now) == ExpiredBut(tokens, todo, now) + {id};
    } else {
      assert ExpiredBut(tokens, todo - {id}, now) == ExpiredBut(tokens, todo, now);
    }
  }

  lemma CountAll(m: State, now: int)
    ensures RevokedBut(m.tokens, m.tokens.Keys) == {} == ExpiredBut(m.tokens, m.tokens.Keys, now)
    ensures RevokedBut(m.tokens, {}) == RevokedIds(m) && ExpiredBut(m.tokens, {}, now) == ExpiredIds(m, now)
  {
  }

  function ActiveOf(m: State, clientId: string): set<string> {
    set id | id in m.tokens && m.tokens[id].clientId == clientId && !m.tokens[id].revoked
  }

  // ----- coherence of the four maps -----

  ghost predicate Distinct(ids: seq<string>) {
    forall i, j | 0 <= i < j < |ids| :: ids[i] != ids[j]
  }

  ghost predicate TokensCoherent(tokens: map<string, Token>, families: map<string, seq<string>>,
                                 issued: set<string>) {
    && (forall id | id in tokens :: tokens[id].id == id && id in issued && tokens[id].refreshToken in issued)
    && (forall id | id in tokens :: id in Listed(families, tokens[id].clientId))
    && (forall a, b | a in tokens && b in tokens && tokens[a].refreshToken == tokens[b].refreshToken :: a == b)
  }

  ghost predicate RefreshCoherent(refresh: map<string, string>, used: map<string, string>,
                                  tokens: map<string, Token>, issued: set<string>) {
    && (forall rt | rt in refresh ::
          && rt in issued && rt !in used
          && refresh[rt] in tokens && tokens[refresh[rt]].refreshToken == rt)
    && (forall rt | rt in used :: rt in issued)
  }

  ghost predicate FamiliesCoherent(families: map<string, seq<string>>, tokens: map<string, Token>,
                                   issued: set<string>) {
    forall c | c in families ::
      && Distinct(families[c])
      && (forall id | id in families[c] :: id in issued && (id in tokens ==> tokens[id].clientId == c))
  }

  /** Index coherence: what every operation keeps.  `issued` is the set of all identifiers ever generated. */
  ghost predicate Coherent(m: State, issued: set<string>) {
    && TokensCoherent(m.tokens, m.families, issued)
    && RefreshCoherent(m.refresh, m.used, m.tokens, issued)
    && FamiliesCoherent(m.families, m.tokens, issued)
  }

  /** Two states that differ only in the Revoked and ExpiresAt fields of their tokens. */
  ghost predicate SameButFlags(m: State, m': State) {
    && m'.tokens.Keys == m.tokens.Keys
    && (forall id | id in m.tokens ::
          m'.tokens[id] == m.tokens[id].(revoked := m'.tokens[id].revoked, expiresAt := m'.tokens[id].expiresAt))
    && m' == m.(tokens := m'.tokens)
  }

  lemma FlagsKeepCoherence(m: State, m': State, issued: set<string>)
    requires Coherent(m, issued) && SameButFlags(m, m')
    ensures Coherent(m', issued)
  {
  }

  lemma SmallerKeepsCoherence(m: State, gone: set<string>, dropped: set<string>, issued: set<string>)
    requires Coherent(m, issued)
    requires forall id | id in gone && id in m.tokens :: m.tokens[id].refreshToken in dropped
    ensures Coherent(m.(tokens := m.tokens - gone, refresh := m.refresh - dropped), issued)
  {
  }

  lemma RevokeFamilyKeepsCoherence(m: State, clientId: string, issued: set<string>)
    requires Coherent(m, issued)
    ensures Coherent(RevokeFamily(m, clientId), issued)
  {
    FlagsKeepCoherence(m, RevokeFamily(m, clientId), issued);
  }

  lemma RevokeOneKeepsCoherence(m: State, id: string, issued: set<string>)
    requires Coherent(m, issued)
    ensures Coherent(RevokeOne(m, id), issued)
  {
    if id in m.tokens {
      assert SameButFlags(m, RevokeOne(m, id));
      FlagsKeepCoherence(m, RevokeOne(m, id), issued);
    }
  }

  lemma RevokeValueKeepsCoherence(m: State, value: string, asRefresh: bool, issued: set<string>)
    requires Coherent(m, issued)
    ensures Coherent(RevokeValue(m, value, asRefresh), issued)
  {
    FlagsKeepCoherence(m, RevokeValue(m, value, asRefresh), issued);
  }

  lemma SpendKeepsCoherence(m: State, rt: string, clientId: string, issued: set<string>)
    requires Coherent(m, issued) && rt in m.refresh
    ensures Coherent(m.(refresh := m.refresh - {rt}, used := m.used[rt := clientId]), issued)
  {
  }

  lemma DropKeepsCoherence(m: State, rt: string, issued: set<string>)
    requires Coherent(m, issued)
    ensures Coherent(m.(refresh := m.refresh - {rt}), issued)
  {
  }

  lemma ConsumeKeepsCoherence(m: State, rt: string, clientId: string, now: Readings, issued: set<string>)
    requires Coherent(m, issued)
    ensures Coherent(Consume(m, rt, clientId, now).0, issued)
  {
    var (m', r) := Consume(m, rt, clientId, now);
    match r
    case Reuse => RevokeFamilyKeepsCoherence(m, m.used[rt], issued);
    case NotFound =>
    case NotOwned =>
    case RefreshExpired =>
      DropKeepsCoherence(m, rt, issued);
    case FamilyExpired =>
      RevokeFamilyKeepsCoherence(m, clientId, issued);
      DropKeepsCoherence(RevokeFamily(m, clientId), rt, issued);
    case Redeemed(_) =>
      RevokeOneKeepsCoherence(m, m.refresh[rt], issued);
      SpendKeepsCoherence(RevokeOne(m, m.refresh[rt]), rt, clientId, issued);
  }

  lemma StoreKeepsCoherence(m: State, tok: Token, issued: set<string>)
    requires Coherent(m, issued)
    requires tok.id !in issued && tok.refreshToken !in issued
    ensures Coherent(Store(m, tok), issued + {tok.id, tok.refreshToken})
  {
    StoreKeepsTokens(m, tok, issued);
    StoreKeepsRefresh(m, tok, issued);
    StoreKeepsFamilies(m, tok, issued);
  }

  lemma StoreKeepsTokens(m: State, tok: Token, issued: set<string>)
    requires TokensCoherent(m.tokens, m.families, issued)
    requires tok.id !in issued && tok.refreshToken !in issued
    ensures TokensCoherent(Store(m, tok).tokens, Store(m, tok).families, issued + {tok.id, tok.refreshToken})
  {
    var m' := Store(m, tok);
    forall id | id in m'.tokens ensures id in Listed(m'.families, m'.tokens[id].clientId) {
      if id != tok.id {
        assert id in Listed(m.families, m.tokens[id].clientId);
      }
    }
  }

  lemma StoreKeepsRefresh(m: State, tok: Token, issued: set<string>)
    requires RefreshCoherent(m.refresh, m.used, m.tokens, issued)
    requires tok.id !in issued && tok.refreshToken !in issued
    requires forall id | id in m.tokens :: id in issued
    ensures RefreshCoherent(Store(m, tok).refresh, m.used, Store(m, tok).tokens, issued + {tok.id, tok.refreshToken})
  {
  }

  lemma StoreKeepsFamilies(m: State, tok: Token, issued: set<string>)
    requires FamiliesCoherent(m.families, m.tokens, issued)
    requires tok.id !in issued && tok.refreshToken !in issued
    ensures FamiliesCoherent(Store(m, tok).families, Store(m, tok).tokens, issued + {tok.id, tok.refreshToken})
  {
    var m' := Store(m, tok);
    forall c | c in m'.families
      ensures Distinct(m'.families[c])
      ensures forall id | id in m'.families[c] ::
                id in issued + {tok.id, tok.refreshToken} && (id in m'.tokens ==> m'.tokens[id].clientId == c)
    {
      assert forall id | id in Listed(m.families, c) :: id in issued;
      assert Distinct(Listed(m.families, c));
    }
  }

  lemma TouchKeepsCoherence(m: State, id: string, window: int, now: Readings, issued: set<string>)
    requires Coherent(m, issued)
    ensures Coherent(Touch(m, id, window, now), issued)
  {
    if Touches(m, id, window, now) {
      assert SameButFlags(m, Touch(m, id, window, now));
      FlagsKeepCoherence(m, Touch(m, id, window, now), issued);
    }
  }

  lemma CleanupKeepsCoherence(m: State, now: int, issued: set<string>)
    requires Coherent(m, issued)
    ensures Coherent(Cleanup(m, now), issued)
  {
    SmallerKeepsCoherence(m, DeadIds(m, now), Carried(m.tokens, DeadIds(m, now)), issued);
  }

  // ----- what the coherent maps mean for the callers -----

  /** The grant succeeds exactly when the token is live, unexpired, young enough and owned by the caller. */
  lemma RedeemsExactlyWhen(m: State, rt: string, clientId: string, now: Readings, issued: set<string>)
    requires Coherent(m, issued)
    ensures Consume(m, rt, clientId, now).1.Redeemed? <==>
            exists id :: id in m.tokens && rt in m.refresh && m.refresh[rt] == id
                         && m.tokens[id].refreshToken == rt && m.tokens[id].clientId == clientId
                         && (m.tokens[id].refreshExpiresAt == 0 || now.first <= m.tokens[id].refreshExpiresAt)
                         && (m.tokens[id].familyCreatedAt == 0
                             || now.second <= m.tokens[id].familyCreatedAt + m.refreshMaxLife)
  {
    if rt in m.refresh {
      var id := m.refresh[rt];
      assert id in m.tokens && m.tokens[id].refreshToken == rt;
    }
  }

  /** RevokeFamily reaches every stored token of the client and no other token. */
  lemma FamilyIsTheClient(m: State, clientId: string, issued: set<string>)
    requires Coherent(m, issued)
    ensures forall id | id in m.tokens ::
              RevokeFamily(m, clientId).tokens[id] ==
              if m.tokens[id].clientId == clientId then m.tokens[id].(revoked := true) else m.tokens[id]
  {
    forall id | id in m.tokens
      ensures id in Family(m, clientId) <==> m.tokens[id].clientId == clientId
    {
      if id in Family(m, clientId) {
        assert clientId in m.families;
      }
    }
  }

  /** Revocation alone does not end a refresh token: the grant never reads the Revoked field. */
  lemma RefreshIgnoresRevocation(m: State, revoked: State, rt: string, clientId: string, now: Readings)
    requires SameButFlags(m, revoked)
    ensures Consume(revoked, rt, clientId, now).1.Redeemed? <==> Consume(m, rt, clientId, now).1.Redeemed?
  {
  }

  lemma CleanupDropsRefresh(m: State, rt: string, swept: int, issued: set<string>)
    requires Coherent(m, issued)
    ensures rt in m.refresh ==> m.refresh[rt] in m.tokens
    ensures var m' := Cleanup(m, swept);
            && (rt in m'.refresh <==> rt in m.refresh && !Dead(m.tokens[m.refresh[rt]], swept))
            && (rt in m'.refresh ==>
                  m'.refresh[rt] == m.refresh[rt] && m.refresh[rt] in m'.tokens
                  && m'.tokens[m.refresh[rt]] == m.tokens[m.refresh[rt]])
  {
    var gone := DeadIds(m, swept);
    if rt in m.refresh {
      assert m.tokens[m.refresh[rt]].refreshToken == rt;
      assert rt in Carried(m.tokens, gone) <==> m.refresh[rt] in gone;
    }
  }

  /**
    Cleanup takes a refresh token away together with the access token it was issued with: it can still be
    redeemed afterwards exactly when it could be before and that access token was neither revoked nor
    expired, however long the refresh token itself had left.
  */
  lemma RefreshSurvivesCleanupExactlyWhen(m: State, rt: string, clientId: string, swept: int, now: Readings,
                                          issued: set<string>)
    requires Coherent(m, issued)
    ensures Consume(Cleanup(m, swept), rt, clientId, now).1.Redeemed? <==>
            Consume(m, rt, clientId, now).1.Redeemed? && rt in m.refresh && !Dead(m.tokens[m.refresh[rt]], swept)
  {
    CleanupDropsRefresh(m, rt, swept, issued);
  }

  /** For the access token itself cleanup is invisible: no validity answer from then on changes. */
  lemma CleanupKeepsValidity(m: State, swept: int, id: string, now: int)
    requires swept <= now
    ensures IsValid(Cleanup(m, swept), id, now) <==> IsValid(m, id, now)
  {
  }

  /**
    Revoking a refresh token as RFC 7009 describes does not by itself stop it from being redeemed; the
    next cleanup does.
  */
  lemma RevokedRefreshEndsWithCleanup(m: State, rt: string, clientId: string, swept: int, now: Readings,
                                      issued: set<string>)
    requires Coherent(m, issued)
    ensures Consume(RevokeValue(m, rt, true), rt, clientId, now).1.Redeemed? <==>
            Consume(m, rt, clientId, now).1.Redeemed?
    ensures !Consume(Cleanup(RevokeValue(m, rt, true), swept), rt, clientId, now).1.Redeemed?
  {
    var revoked := RevokeValue(m, rt, true);
    RefreshIgnoresRevocation(m, revoked, rt, clientId, now);
    RevokeValueKeepsCoherence(m, rt, true, issued);
    RefreshSurvivesCleanupExactlyWhen(revoked, rt, clientId, swept, now, issued);
    if rt in m.refresh {
      assert m.tokens[m.refresh[rt]].refreshToken == rt;
    }
  }

  /** The unrevoked tokens that RevokeByClient finds in the family list are exactly the client's. */
  lemma FamilyListsActive(m: State, clientId: string, issued: set<string>)
    requires Coherent(m, issued)
    ensures ActiveOf(m, clientId) == ActiveAmong(m.tokens, Family(m, clientId))
    ensures Distinct(Family(m, clientId))
    ensures ActiveOf(RevokeFamily(m, clientId), clientId) == {}
  {
    FamilyIsTheClient(m, clientId, issued);
    assert clientId in m.families ==> Distinct(m.families[clientId]);
  }

  /** Revoking a client and then cleaning up leaves it no stored token and no live refresh entry. */
  lemma RevokeThenCleanup(m: State, clientId: string, now: int, issued: set<string>)
    requires Coherent(m, issued)
    ensures var m' := Cleanup(RevokeFamily(m, clientId), now);
            && (forall id | id in m'.tokens :: m'.tokens[id].clientId != clientId)
            && (forall rt | rt in m'.refresh ::
                  m'.refresh[rt] in m'.tokens && m'.tokens[m'.refresh[rt]].clientId != clientId)
            && (forall id | id in m.tokens && m.tokens[id].clientId != clientId && !Dead(m.tokens[id], now) ::
                  id in m'.tokens && m'.tokens[id] == m.tokens[id])
  {
    FamilyIsTheClient(m, clientId, issued);
    RevokeFamilyKeepsCoherence(m, clientId, issued);
    CleanupKeepsCoherence(RevokeFamily(m, clientId), now, issued);
  }

  /** Cleanup removes exactly what Stats counts as revoked or expired, and keeps coherence. */
  lemma CleanupMatchesStats(m: State, now: int)
    ensures |m.tokens| - |Cleanup(m, now).tokens| == |DeadIds(m, now)| == |RevokedIds(m)| + |ExpiredIds(m, now)|
    ensures RevokedIds(Cleanup(m, now)) == {} && ExpiredIds(Cleanup(m, now), now) == {}
  {
    assert DeadIds(m, now) == RevokedIds(m) + ExpiredIds(m, now);
    assert RevokedIds(m) !! ExpiredIds(m, now);
    assert Cleanup(m, now).tokens.Keys == m.tokens.Keys - DeadIds(m, now);
    assert |m.tokens| == |m.tokens.Keys| && |Cleanup(m, now).tokens| == |Cleanup(m, now).tokens.Keys|;
  }

  /** TouchToken can bring back a token that has expired, but never one that is revoked. */
  lemma TouchRevivesExpiredOnly(m: State, id: string, window: int, now: Readings)
    requires id in m.tokens && m.tokens[id].expiresAt <= now.first <= now.second
    ensures IsValid(Touch(m, id, window, now), id, now.second) <==>
            !m.tokens[id].revoked && (Window(window) > 1 || now.first > m.tokens[id].expiresAt)
  {
  }
}
