/**
  Whole runs of the token manager.  One event is one section under the manager's lock, so a
  refresh is two events: Redeem consumes the refresh token, and a later Mint creates the new
  one.  Any other events may come in between.  Sys adds to the manager's maps the calls that
  have consumed but not yet minted, and a ledger of everything that was ever minted.
*/
module TokenRuns {
  import opened Options
  import opened TokenModel

  // ----- history -----

  datatype Cause =
    | Rotation(parent: nat)              // ledger position of the token whose refresh token was redeemed
    | Validated(allowed: seq<string>)    // client credentials; the client's registered scopes at validation
    | Direct                             // CreateTokenForClient

  datatype Grant = Grant(
    id: string, clientId: string, scopes: seq<string>, createdAt: int,
    refreshToken: string, refreshExpiresAt: int, familyCreatedAt: int, cause: Cause)

  /** A call that may mint: what it read under the lock before releasing it. */
  datatype Pending = Pending(clientId: string, scopes: seq<string>, familyCreated: int, cause: Cause)

  datatype Redemption = Redemption(refreshToken: string, grant: nat, at: Readings, maxLife: int)

  datatype Sys = Sys(
    mgr: State,
    issued: set<string>,
    ledger: seq<Grant>,
    position: map<string, nat>,     // token id -> ledger position
    pending: map<nat, Pending>,
    calls: nat,
    redemptions: seq<Redemption>)

  datatype Event =
    | Register(client: Client)
    | SetRefreshTTL(ttl: int, maxLife: int)
    | ValidateRoot(clientId: string, scopes: seq<string>)
    | BeginDirect(clientId: string, scopes: seq<string>)
    | Redeem(rt: string, clientId: string, at: Readings)
    | Mint(call: nat, requested: Option<seq<string>>, id: string, rt: string, now: int)
    | RevokeToken(id: string)
    | RevokeRFC7009(value: string, asRefresh: bool)
    | RevokeByClient(clientId: string)
    | TouchToken(id: string, window: int, at: Readings)
    | CleanupPass(now: int)

  function Begin(s: Sys, p: Pending): Sys {
    s.(pending := s.pending[s.calls := p], calls := s.calls + 1)
  }

  function RedeemStep(s: Sys, rt: string, clientId: string, now: Readings): Sys {
    var (m', r) := Consume(s.mgr, rt, clientId, now);
    if r.Redeemed? && r.spent.id in s.position then
      var g := s.position[r.spent.id];
      Begin(s.(mgr := m', redemptions := s.redemptions + [Redemption(rt, g, now, s.mgr.refreshMaxLife)]),
            Pending(clientId, r.spent.scopes, r.spent.familyCreatedAt, Rotation(g)))
    else
      s.(mgr := m')
  }

  function GrantOf(tok: Token, cause: Cause): Grant {
    Grant(tok.id, tok.clientId, tok.scopes, tok.createdAt, tok.refreshToken,
          tok.refreshExpiresAt, tok.familyCreatedAt, cause)
  }

  /** A root is minted as validated; only a rotation reads the request's scope parameter. */
  function MintScopes(p: Pending, requested: Option<seq<string>>): Option<seq<string>> {
    if p.cause.Rotation? then Narrow(p.scopes, requested) else Some(p.scopes)
  }

  function MintStep(s: Sys, call: nat, requested: Option<seq<string>>, id: string, rt: string, now: int): Sys
    requires call in s.pending
  {
    var p := s.pending[call];
    var s' := s.(pending := s.pending - {call});
    match MintScopes(p, requested)
    case None => s'
    case Some(scopes) =>
      var tok := NewToken(s.mgr, p.clientId, scopes, p.familyCreated, id, rt, now);
      s'.(mgr := Store(s.mgr, tok),
          issued := s.issued + {id, rt},
          position := s.position[id := |s.ledger|],
          ledger := s.ledger + [GrantOf(tok, p.cause)])
  }

  /** An event that cannot occur (a generated identifier that is not fresh, an unknown call) changes nothing. */
  function Step(s: Sys, e: Event): Sys {
    match e
    case Register(client) => s.(mgr := s.mgr.(clients := s.mgr.clients[client.id := client]))
    case SetRefreshTTL(ttl, maxLife) => s.(mgr := s.mgr.(refreshTTL := ttl, refreshMaxLife := maxLife))
    case ValidateRoot(clientId, scopes) =>
      if ScopesAllowed(s.mgr, clientId, scopes)
      then Begin(s, Pending(clientId, scopes, 0, Validated(s.mgr.clients[clientId].scopes)))
      else s
    case BeginDirect(clientId, scopes) => Begin(s, Pending(clientId, scopes, 0, Direct))
    case Redeem(rt, clientId, now) => RedeemStep(s, rt, clientId, now)
    case Mint(call, requested, id, rt, now) =>
      if call in s.pending && id !in s.issued && rt !in s.issued && id != rt && now > 0
      then MintStep(s, call, requested, id, rt, now)
      else s
    case RevokeToken(id) => s.(mgr := RevokeOne(s.mgr, id))
    case RevokeRFC7009(value, asRefresh) => s.(mgr := RevokeValue(s.mgr, value, asRefresh))
    case RevokeByClient(clientId) => s.(mgr := RevokeFamily(s.mgr, clientId))
    case TouchToken(id, window, now) => s.(mgr := Touch(s.mgr, id, window, now))
    case CleanupPass(now) => s.(mgr := Cleanup(s.mgr, now))
  }

  const INITIAL: Sys :=
    Sys(State(map[], map[], map[], map[], map[], 30 * 24 * HOUR, 90 * 24 * HOUR), {}, [], map[], map[], 0, [])

  function RunFrom(s: Sys, events: seq<Event>): Sys
    decreases |events|
  {
    if events == [] then s else Step(RunFrom(s, events[..|events| - 1]), events[|events| - 1])
  }

  function Run(events: seq<Event>): Sys {
    RunFrom(INITIAL, events)
  }

  // ----- the invariant -----

  /** The ledger and its index agree, and no identifier was minted twice. */
  ghost predicate LedgerIndexed(ledger: seq<Grant>, position: map<string, nat>, issued: set<string>) {
    && (forall id | id in position :: position[id] < |ledger| && ledger[position[id]].id == id)
    && (forall i | 0 <= i < |ledger| ::
          && ledger[i].id in position && position[ledger[i].id] == i
          && ledger[i].id in issued && ledger[i].refreshToken in issued)
    && (forall i, j | 0 <= i < j < |ledger| :: ledger[i].refreshToken != ledger[j].refreshToken)
  }

  /** A stored token is what the ledger says was minted, up to its Revoked and ExpiresAt fields. */
  ghost predicate StoredAsMinted(tokens: map<string, Token>, ledger: seq<Grant>, position: map<string, nat>) {
    forall id | id in tokens ::
      && id in position && position[id] < |ledger|
      && ledger[position[id]] == GrantOf(tokens[id], ledger[position[id]].cause)
  }

  ghost predicate RedeemedIsRevoked(tokens: map<string, Token>, used: map<string, string>) {
    forall id | id in tokens :: tokens[id].refreshToken in used ==> tokens[id].revoked
  }

  /** What a rotation hands down. */
  ghost predicate HandsDown(parent: Grant, clientId: string, scopes: seq<string>, familyCreated: int) {
    && clientId == parent.clientId && familyCreated == parent.familyCreatedAt
    && forall x | x in scopes :: x in parent.scopes
  }

  ghost predicate RotationSound(ledger: seq<Grant>, used: map<string, string>, i: nat)
    requires i < |ledger| && ledger[i].cause.Rotation?
  {
    var p := ledger[i].cause.parent;
    && p < i
    && ledger[p].refreshToken in used
    && HandsDown(ledger[p], ledger[i].clientId, ledger[i].scopes, ledger[i].familyCreatedAt)
  }

  ghost predicate RotationsSound(ledger: seq<Grant>, used: map<string, string>) {
    && (forall i | 0 <= i < |ledger| && ledger[i].cause.Rotation? :: RotationSound(ledger, used, i))
    && (forall i, j | 0 <= i < j < |ledger| && ledger[i].cause.Rotation? && ledger[j].cause.Rotation? ::
          ledger[i].cause.parent != ledger[j].cause.parent)
  }

  ghost predicate WithinAllowed(allowed: seq<string>, scopes: seq<string>) {
    allowed == [] || forall x | x in scopes :: x in allowed
  }

  ghost predicate RootsSound(ledger: seq<Grant>) {
    forall i | 0 <= i < |ledger| ::
      && ledger[i].familyCreatedAt > 0
      && (!ledger[i].cause.Rotation? ==> ledger[i].familyCreatedAt == ledger[i].createdAt)
      && (ledger[i].cause.Validated? ==> WithinAllowed(ledger[i].cause.allowed, ledger[i].scopes))
  }

  ghost predicate CallSound(p: Pending, ledger: seq<Grant>, used: map<string, string>) {
    match p.cause
    case Rotation(g) =>
      g < |ledger| && ledger[g].refreshToken in used && HandsDown(ledger[g], p.clientId, p.scopes, p.familyCreated)
    case Validated(allowed) => p.familyCreated == 0 && WithinAllowed(allowed, p.scopes)
    case Direct => p.familyCreated == 0
  }

  ghost predicate PendingSound(pending: map<nat, Pending>, calls: nat, ledger: seq<Grant>, used: map<string, string>) {
    forall c | c in pending :: c < calls && CallSound(pending[c], ledger, used)
  }

  /** A redeemed token has at most one successor, counting the calls that have not minted yet. */
  ghost predicate PendingUnique(pending: map<nat, Pending>, ledger: seq<Grant>) {
    && (forall c, i | c in pending && pending[c].cause.Rotation? && 0 <= i < |ledger| && ledger[i].cause.Rotation? ::
          pending[c].cause.parent != ledger[i].cause.parent)
    && (forall c, d | c in pending && d in pending && c != d
                      && pending[c].cause.Rotation? && pending[d].cause.Rotation? ::
          pending[c].cause.parent != pending[d].cause.parent)
  }

  ghost predicate RedemptionSound(r: Redemption, ledger: seq<Grant>, used: map<string, string>) {
    && r.grant < |ledger| && ledger[r.grant].refreshToken == r.refreshToken
    && r.refreshToken in used && used[r.refreshToken] == ledger[r.grant].clientId
    && r.at.second <= ledger[r.grant].familyCreatedAt + r.maxLife
    && (ledger[r.grant].refreshExpiresAt != 0 ==> r.at.first <= ledger[r.grant].refreshExpiresAt)
  }

  ghost predicate RedemptionsSound(redemptions: seq<Redemption>, ledger: seq<Grant>, used: map<string, string>) {
    && (forall k | 0 <= k < |redemptions| :: RedemptionSound(redemptions[k], ledger, used))
    && (forall k, l | 0 <= k < l < |redemptions| :: redemptions[k].refreshToken != redemptions[l].refreshToken)
  }

  /** The part of the invariant that relates the manager's maps to the history. */
  ghost predicate Linked(s: Sys) {
    && LedgerIndexed(s.ledger, s.position, s.issued)
    && StoredAsMinted(s.mgr.tokens, s.ledger, s.position)
    && RedeemedIsRevoked(s.mgr.tokens, s.mgr.used)
    && RotationsSound(s.ledger, s.mgr.used)
    && RootsSound(s.ledger)
    && PendingSound(s.pending, s.calls, s.ledger, s.mgr.used)
    && PendingUnique(s.pending, s.ledger)
    && RedemptionsSound(s.redemptions, s.ledger, s.mgr.used)
  }

  ghost predicate Inv(s: Sys) {
    Coherent(s.mgr, s.issued) && Linked(s)
  }

  // ----- every event keeps it -----

  /** A change of the manager that mints nothing, redeems nothing and un-revokes nothing. */
  ghost predicate OnlyTokensLost(m: State, m': State) {
    && m'.used == m.used
    && forall id | id in m'.tokens ::
         && id in m.tokens
         && (m.tokens[id].revoked ==> m'.tokens[id].revoked)
         && m'.tokens[id] == m.tokens[id].(revoked := m'.tokens[id].revoked, expiresAt := m'.tokens[id].expiresAt)
  }

  lemma ManagerOnlyKeepsLinks(s: Sys, m': State)
    requires Linked(s) && OnlyTokensLost(s.mgr, m')
    ensures Linked(s.(mgr := m'))
  {
  }

  lemma BeginKeepsLinks(s: Sys, p: Pending)
    requires Linked(s) && CallSound(p, s.ledger, s.mgr.used)
    requires p.cause.Rotation? ==>
               && (forall i | 0 <= i < |s.ledger| && s.ledger[i].cause.Rotation? ::
                     s.ledger[i].cause.parent != p.cause.parent)
               && (forall c | c in s.pending && s.pending[c].cause.Rotation? ::
                     s.pending[c].cause.parent != p.cause.parent)
    ensures Linked(Begin(s, p))
  {
  }

  /** Recording rt as redeemed, once the token that carries it is revoked. */
  lemma SpendKeepsLinks(s: Sys, rt: string, clientId: string)
    requires Linked(s)
    requires rt !in s.mgr.used
    requires forall id | id in s.mgr.tokens && s.mgr.tokens[id].refreshToken == rt :: s.mgr.tokens[id].revoked
    ensures Linked(s.(mgr := s.mgr.(used := s.mgr.used[rt := clientId])))
  {
    var used' := s.mgr.used[rt := clientId];
    forall i: nat | i < |s.ledger| && s.ledger[i].cause.Rotation? ensures RotationSound(s.ledger, used', i) {
      assert RotationSound(s.ledger, s.mgr.used, i);
    }
    forall k | 0 <= k < |s.redemptions| ensures RedemptionSound(s.redemptions[k], s.ledger, used') {
      assert RedemptionSound(s.redemptions[k], s.ledger, s.mgr.used);
    }
    forall c | c in s.pending ensures CallSound(s.pending[c], s.ledger, used') {
      assert CallSound(s.pending[c], s.ledger, s.mgr.used);
    }
  }

  /** While a refresh token is unredeemed, nothing has been minted or begun from its token. */
  lemma UnredeemedHasNoSuccessor(s: Sys, g: nat)
    requires Linked(s) && g < |s.ledger| && s.ledger[g].refreshToken !in s.mgr.used
    ensures forall i | 0 <= i < |s.ledger| && s.ledger[i].cause.Rotation? :: s.ledger[i].cause.parent != g
    ensures forall c | c in s.pending && s.pending[c].cause.Rotation? :: s.pending[c].cause.parent != g
    ensures forall k | 0 <= k < |s.redemptions| :: s.redemptions[k].refreshToken != s.ledger[g].refreshToken
  {
    forall i: nat | i < |s.ledger| && s.ledger[i].cause.Rotation? ensures s.ledger[i].cause.parent != g {
      assert RotationSound(s.ledger, s.mgr.used, i);
    }
    forall c | c in s.pending && s.pending[c].cause.Rotation? ensures s.pending[c].cause.parent != g {
      assert CallSound(s.pending[c], s.ledger, s.mgr.used);
    }
    forall k | 0 <= k < |s.redemptions| ensures s.redemptions[k].refreshToken != s.ledger[g].refreshToken {
      assert RedemptionSound(s.redemptions[k], s.ledger, s.mgr.used);
    }
  }

  lemma RecordKeepsLinks(s: Sys, r: Redemption)
    requires Linked(s) && RedemptionSound(r, s.ledger, s.mgr.used)
    requires forall k | 0 <= k < |s.redemptions| :: s.redemptions[k].refreshToken != r.refreshToken
    ensures Linked(s.(redemptions := s.redemptions + [r]))
  {
  }

  /** The token that a redeemable refresh token belongs to, and its place in the ledger. */
  lemma RedeemedToken(s: Sys, rt: string, clientId: string, now: Readings) returns (id: string, g: nat)
    requires Inv(s) && Consume(s.mgr, rt, clientId, now).1.Redeemed?
    ensures id in s.mgr.tokens && s.mgr.tokens[id].id == id && s.mgr.tokens[id].refreshToken == rt
    ensures rt in s.mgr.refresh && s.mgr.refresh[rt] == id && rt !in s.mgr.used
    ensures id in s.position && s.position[id] == g < |s.ledger|
    ensures s.ledger[g] == GrantOf(s.mgr.tokens[id], s.ledger[g].cause)
    ensures RedemptionSound(Redemption(rt, g, now, s.mgr.refreshMaxLife), s.ledger, s.mgr.used[rt := clientId])
    ensures s.mgr.tokens[id].clientId == clientId
  {
    id := s.mgr.refresh[rt];
    g := s.position[id];
  }

  lemma RedeemStepIs(s: Sys, rt: string, clientId: string, now: Readings)
    requires Consume(s.mgr, rt, clientId, now).1.Redeemed? && rt in s.mgr.refresh && rt !in s.mgr.used
    requires s.mgr.refresh[rt] in s.mgr.tokens && s.mgr.tokens[s.mgr.refresh[rt]].id == s.mgr.refresh[rt]
    requires s.mgr.refresh[rt] in s.position
    ensures var id := s.mgr.refresh[rt];
            var spent, g := s.mgr.tokens[id], s.position[id];
            RedeemStep(s, rt, clientId, now) ==
            Begin(Spent(s, id, rt, clientId, Redemption(rt, g, now, s.mgr.refreshMaxLife)),
                  Pending(clientId, spent.scopes, spent.familyCreatedAt, Rotation(g)))
  {
  }

  /** A successful Redeem leaves a call that will mint with what the spent token hands down. */
  lemma RedeemBegins(s: Sys, rt: string, clientId: string, now: Readings) returns (g: nat)
    requires Inv(s) && Consume(s.mgr, rt, clientId, now).1.Redeemed?
    ensures var s1 := Step(s, Redeem(rt, clientId, now));
            var (m1, r) := Consume(s.mgr, rt, clientId, now);
            && s1.mgr == m1 && s1.issued == s.issued && s1.ledger == s.ledger
            && s.calls in s1.pending
            && s1.pending[s.calls] == Pending(clientId, r.spent.scopes, r.spent.familyCreatedAt, Rotation(g))
  {
    var id;
    id, g := RedeemedToken(s, rt, clientId, now);
  }

  function Spent(s: Sys, id: string, rt: string, clientId: string, red: Redemption): Sys {
    var m := RevokeOne(s.mgr, id);
    s.(mgr := m.(refresh := m.refresh - {rt}, used := m.used[rt := clientId]), redemptions := s.redemptions + [red])
  }

  /**
    A successful Redeem, as smaller changes: revoke and forget the refresh entry, record the use, note
    the redemption.
  */
  lemma SpentKeepsLinks(s: Sys, id: string, rt: string, clientId: string, g: nat, red: Redemption)
    requires Linked(s) && id in s.mgr.tokens && g < |s.ledger|
    requires s.ledger[g].refreshToken == rt == red.refreshToken && rt !in s.mgr.used
    requires forall x | x in s.mgr.tokens && s.mgr.tokens[x].refreshToken == rt :: x == id
    requires RedemptionSound(red, s.ledger, s.mgr.used[rt := clientId])
    ensures Linked(Spent(s, id, rt, clientId, red))
  {
    var m := RevokeOne(s.mgr, id);
    var s1 := s.(mgr := m.(refresh := m.refresh - {rt}));
    ManagerOnlyKeepsLinks(s, s1.mgr);
    UnredeemedHasNoSuccessor(s1, g);
    SpendKeepsLinks(s1, rt, clientId);
    RecordKeepsLinks(s1.(mgr := s1.mgr.(used := s1.mgr.used[rt := clientId])), red);
  }

  lemma RedeemedKeepsLinks(s: Sys, rt: string, clientId: string, now: Readings) returns (s1: Sys, call: Pending)
    requires Inv(s) && Consume(s.mgr, rt, clientId, now).1.Redeemed?
    ensures Linked(Begin(s1, call)) && RedeemStep(s, rt, clientId, now) == Begin(s1, call)
  {
    var id, g := RedeemedToken(s, rt, clientId, now);
    var red := Redemption(rt, g, now, s.mgr.refreshMaxLife);
    var spent := s.mgr.tokens[id];
    s1 := Spent(s, id, rt, clientId, red);
    RedeemStepIs(s, rt, clientId, now);
    SpentKeepsLinks(s, id, rt, clientId, g, red);
    UnredeemedHasNoSuccessor(s, g);
    call := Pending(clientId, spent.scopes, spent.familyCreatedAt, Rotation(g));
    BeginKeepsLinks(s1, call);
  }

  lemma FailedConsumeOnlyLoses(m: State, rt: string, clientId: string, now: Readings)
    requires !Consume(m, rt, clientId, now).1.Redeemed?
    ensures OnlyTokensLost(m, Consume(m, rt, clientId, now).0)
  {
  }

  lemma RedeemKeepsInv(s: Sys, rt: string, clientId: string, now: Readings)
    requires Inv(s)
    ensures Inv(RedeemStep(s, rt, clientId, now))
  {
    var (m', r) := Consume(s.mgr, rt, clientId, now);
    var s' := RedeemStep(s, rt, clientId, now);
    assert s'.mgr == m' && s'.issued == s.issued;
    assert Coherent(m', s.issued) by {
      ConsumeKeepsCoherence(s.mgr, rt, clientId, now, s.issued);
    }
    assert Linked(s') by {
      if r.Redeemed? {
        var s3, call := RedeemedKeepsLinks(s, rt, clientId, now);
      } else {
        FailedConsumeOnlyLoses(s.mgr, rt, clientId, now);
        ManagerOnlyKeepsLinks(s, m');
      }
    }
  }

  lemma DropCallKeepsLinks(s: Sys, call: nat)
    requires Linked(s)
    ensures Linked(s.(pending := s.pending - {call}))
  {
  }

  /** Growing the ledger leaves what was said about its older entries. */
  lemma LongerLedgerKeepsLinks(s: Sys, g: Grant)
    requires Linked(s)
    requires g.cause.Rotation? ==>
               && g.cause.parent < |s.ledger| && s.ledger[g.cause.parent].refreshToken in s.mgr.used
               && HandsDown(s.ledger[g.cause.parent], g.clientId, g.scopes, g.familyCreatedAt)
               && (forall i | 0 <= i < |s.ledger| && s.ledger[i].cause.Rotation? ::
                     s.ledger[i].cause.parent != g.cause.parent)
    ensures RotationsSound(s.ledger + [g], s.mgr.used)
    ensures PendingSound(s.pending, s.calls, s.ledger + [g], s.mgr.used)
    ensures RedemptionsSound(s.redemptions, s.ledger + [g], s.mgr.used)
  {
    var ledger' := s.ledger + [g];
    forall i: nat | i < |ledger'| && ledger'[i].cause.Rotation? ensures RotationSound(ledger', s.mgr.used, i) {
      if i < |s.ledger| {
        assert RotationSound(s.ledger, s.mgr.used, i);
      }
    }
    forall c | c in s.pending ensures CallSound(s.pending[c], ledger', s.mgr.used) {
      assert CallSound(s.pending[c], s.ledger, s.mgr.used);
    }
    forall k | 0 <= k < |s.redemptions| ensures RedemptionSound(s.redemptions[k], ledger', s.mgr.used) {
      assert RedemptionSound(s.redemptions[k], s.ledger, s.mgr.used);
    }
  }

  ghost predicate MintedFrom(p: Pending, tok: Token) {
    && tok.clientId == p.clientId && (forall x | x in tok.scopes :: x in p.scopes)
    && (!p.cause.Rotation? ==> tok.scopes == p.scopes)
    && tok.createdAt > 0 && tok.familyCreatedAt == FamilyStart(p.familyCreated, tok.createdAt)
  }

  ghost predicate NoSuccessor(s: Sys, p: Pending) {
    p.cause.Rotation? ==>
      && (forall i | 0 <= i < |s.ledger| && s.ledger[i].cause.Rotation? ::
            s.ledger[i].cause.parent != p.cause.parent)
      && (forall c | c in s.pending && s.pending[c].cause.Rotation? ::
            s.pending[c].cause.parent != p.cause.parent)
  }

  function Minted(s: Sys, p: Pending, tok: Token): Sys {
    s.(mgr := Store(s.mgr, tok),
       issued := s.issued + {tok.id, tok.refreshToken},
       position := s.position[tok.id := |s.ledger|],
       ledger := s.ledger + [GrantOf(tok, p.cause)])
  }

  lemma MintedIsIndexed(s: Sys, p: Pending, tok: Token)
    requires LedgerIndexed(s.ledger, s.position, s.issued)
    requires StoredAsMinted(s.mgr.tokens, s.ledger, s.position)
    requires tok.id !in s.issued && tok.refreshToken !in s.issued
    ensures LedgerIndexed(Minted(s, p, tok).ledger, Minted(s, p, tok).position, Minted(s, p, tok).issued)
    ensures StoredAsMinted(Minted(s, p, tok).mgr.tokens, Minted(s, p, tok).ledger, Minted(s, p, tok).position)
  {
  }

  /** Storing a minted token and appending it to the ledger. */
  lemma MintedKeepsLinks(s: Sys, p: Pending, tok: Token)
    requires Linked(s)
    requires CallSound(p, s.ledger, s.mgr.used) && NoSuccessor(s, p) && MintedFrom(p, tok)
    requires tok.id !in s.issued && tok.refreshToken !in s.issued && tok.refreshToken !in s.mgr.used
    ensures Linked(Minted(s, p, tok))
  {
    assert p.cause.Rotation? ==> p.familyCreated > 0;
    MintedIsIndexed(s, p, tok);
    LongerLedgerKeepsLinks(s, GrantOf(tok, p.cause));
  }

  lemma MintKeepsInv(s: Sys, call: nat, requested: Option<seq<string>>, id: string, rt: string, now: int)
    requires Inv(s)
    requires call in s.pending && id !in s.issued && rt !in s.issued && id != rt && now > 0
    ensures Inv(MintStep(s, call, requested, id, rt, now))
  {
    var p := s.pending[call];
    var s1 := s.(pending := s.pending - {call});
    assert Linked(s1) by {
      DropCallKeepsLinks(s, call);
    }
    var narrowed := MintScopes(p, requested);
    if narrowed.Some? {
      var tok := NewToken(s.mgr, p.clientId, narrowed.value, p.familyCreated, id, rt, now);
      assert Coherent(Store(s.mgr, tok), s.issued + {id, rt}) by {
        StoreKeepsCoherence(s.mgr, tok, s.issued);
      }
      assert Linked(Minted(s1, p, tok)) by {
        MintedKeepsLinks(s1, p, tok);
      }
      assert MintStep(s, call, requested, id, rt, now) == Minted(s1, p, tok);
    }
  }

  /** The events that neither mint nor redeem: they only rewrite the manager's maps. */
  predicate Housekeeping(e: Event) {
    !(e.ValidateRoot? || e.BeginDirect? || e.Redeem? || e.Mint?)
  }

  lemma HousekeepingOnlyLoses(s: Sys, e: Event)
    requires Housekeeping(e)
    ensures OnlyTokensLost(s.mgr, Step(s, e).mgr)
    ensures Step(s, e) == s.(mgr := Step(s, e).mgr)
  {
  }

  lemma HousekeepingKeepsCoherence(s: Sys, e: Event)
    requires Coherent(s.mgr, s.issued) && Housekeeping(e)
    ensures Coherent(Step(s, e).mgr, s.issued)
  {
    match e
    case Register(_) =>
    case SetRefreshTTL(_, _) =>
    case RevokeToken(id) => RevokeOneKeepsCoherence(s.mgr, id, s.issued);
    case RevokeRFC7009(value, asRefresh) => RevokeValueKeepsCoherence(s.mgr, value, asRefresh, s.issued);
    case RevokeByClient(clientId) => RevokeFamilyKeepsCoherence(s.mgr, clientId, s.issued);
    case TouchToken(id, window, now) => TouchKeepsCoherence(s.mgr, id, window, now, s.issued);
    case CleanupPass(now) => CleanupKeepsCoherence(s.mgr, now, s.issued);
  }

  /** The invariant is kept by every event, in every state. */
  lemma StepKeepsInv(s: Sys, e: Event)
    requires Inv(s)
    ensures Inv(Step(s, e))
  {
    if Housekeeping(e) {
      HousekeepingOnlyLoses(s, e);
      HousekeepingKeepsCoherence(s, e);
      ManagerOnlyKeepsLinks(s, Step(s, e).mgr);
    } else if e.ValidateRoot? && ScopesAllowed(s.mgr, e.clientId, e.scopes) {
      BeginKeepsLinks(s, Pending(e.clientId, e.scopes, 0, Validated(s.mgr.clients[e.clientId].scopes)));
    } else if e.BeginDirect? {
      BeginKeepsLinks(s, Pending(e.clientId, e.scopes, 0, Direct));
    } else if e.Redeem? {
      RedeemKeepsInv(s, e.rt, e.clientId, e.at);
    } else if e.Mint? && Step(s, e) != s {
      MintKeepsInv(s, e.call, e.requested, e.id, e.rt, e.now);
    }
  }

  lemma {:induction false} RunKeepsInv(s: Sys, events: seq<Event>)
    requires Inv(s)
    ensures Inv(RunFrom(s, events))
    decreases |events|
  {
    if events != [] {
      RunKeepsInv(s, events[..|events| - 1]);
      StepKeepsInv(RunFrom(s, events[..|events| - 1]), events[|events| - 1]);
    }
  }
}
