/**
  The token manager as the object it is: tokens are records on the heap whose Revoked and
  ExpiresAt fields change in place, and the maps are fields that the methods reassign.  Every
  method is tied to the function of TokenModel that says what its lock section does.
*/
module TokenManager {
  import opened Options
  import M = TokenModel

  class TokenRecord {
    const id: string
    const clientId: string
    const scopes: seq<string>
    const createdAt: int
    const refreshToken: string
    const refreshExpiresAt: int
    const familyCreatedAt: int
    var expiresAt: int
    var revoked: bool

    constructor (tok: M.Token)
      ensures View() == tok
    {
      id, clientId, scopes, createdAt := tok.id, tok.clientId, tok.scopes, tok.createdAt;
      refreshToken, refreshExpiresAt := tok.refreshToken, tok.refreshExpiresAt;
      familyCreatedAt := tok.familyCreatedAt;
      expiresAt, revoked := tok.expiresAt, tok.revoked;
    }

    function View(): M.Token
      reads this
    {
      M.Token(id, clientId, scopes, createdAt, expiresAt, revoked, refreshToken, refreshExpiresAt, familyCreatedAt)
    }
  }

  datatype Error = InvalidClient | InvalidScope | InvalidGrant
  datatype Reply = Issued(accessToken: string, refreshToken: string, scopes: seq<string>) | Denied(error: Error)

  /**
    The whole refresh grant.  The reply is an error exactly when authentication, the redemption or
    the narrowing fails; a failed narrowing has already spent the refresh token.
  */
  function RefreshGrant(m: M.State, rt: string, clientId: string, secret: string, requested: Option<seq<string>>,
                        id: string, newRt: string, now: M.Readings, mintedAt: int): (M.State, Reply)
  {
    if !M.Authenticates(m, clientId, secret) then (m, Denied(InvalidClient))
    else
      var (m1, r) := M.Consume(m, rt, clientId, now);
      AfterConsume(m1, r, clientId, requested, id, newRt, mintedAt)
  }

  function AfterConsume(m: M.State, r: M.ConsumeResult, clientId: string, requested: Option<seq<string>>,
                        id: string, newRt: string, now: int): (M.State, Reply)
  {
    if !r.Redeemed? then (m, Denied(InvalidGrant))
    else
      match M.Narrow(r.spent.scopes, requested)
      case None => (m, Denied(InvalidScope))
      case Some(scopes) =>
        (M.Store(m, M.NewToken(m, clientId, scopes, r.spent.familyCreatedAt, id, newRt, now)),
         Issued(id, newRt, scopes))
  }

  /** The client credentials grant; an empty request defaults to the registered scopes. */
  function CredentialsGrant(m: M.State, clientId: string, secret: string, requested: seq<string>,
                            id: string, rt: string, now: int): (M.State, Reply)
  {
    if !M.Authenticates(m, clientId, secret) then (m, Denied(InvalidClient))
    else RootGrant(m, clientId, M.DefaultScopes(m, clientId, requested), id, rt, now)
  }

  function RootGrant(m: M.State, clientId: string, scopes: seq<string>, id: string, rt: string, now: int)
    : (M.State, Reply)
  {
    if !M.ScopesAllowed(m, clientId, scopes) then (m, Denied(InvalidScope))
    else (M.Store(m, M.NewToken(m, clientId, scopes, 0, id, rt, now)), Issued(id, rt, scopes))
  }

  class Manager {
    var tokens: map<string, TokenRecord>
    var refresh: map<string, string>
    var used: map<string, string>
    var families: map<string, seq<string>>
    var clients: map<string, M.Client>
    var refreshTTL: int
    var refreshMaxLife: int
    ghost var issued: set<string>  // every identifier ever generated

    ghost function Tokens(): map<string, M.Token>
      reads this`tokens, tokens.Values
    {
      map id | id in tokens :: tokens[id].View()
    }

    ghost function View(): M.State
      reads this, tokens.Values
    {
      M.State(Tokens(), refresh, used, families, clients, refreshTTL, refreshMaxLife)
    }

    /** Every record is stored under its own identifier, so no two keys share a record. */
    ghost predicate Keyed()
      reads this`tokens
    {
      forall id | id in tokens :: tokens[id].id == id
    }

    ghost predicate Valid()
      reads this, tokens.Values
    {
      Keyed() && M.Coherent(View(), issued)
    }

    constructor ()
      ensures Valid()
      ensures View() == M.State(map[], map[], map[], map[], map[], 30 * 24 * M.HOUR, 90 * 24 * M.HOUR)
      ensures issued == {}
    {
      tokens, refresh, used, families, clients := map[], map[], map[], map[], map[];
      refreshTTL, refreshMaxLife := 30 * 24 * M.HOUR, 90 * 24 * M.HOUR;
      issued := {};
    }

    method RegisterClient(client: M.Client)
      requires Valid()
      modifies this`clients
      ensures Valid()
      ensures View() == old(View()).(clients := old(clients)[client.id := client])
    {
      clients := clients[client.id := client];
    }

    method AuthenticateClient(clientId: string, secret: string) returns (ok: bool)
      ensures ok <==> clientId in clients && clients[clientId].secret == secret
      ensures ok <==> M.Authenticates(View(), clientId, secret)
    {
      ok := clientId in clients && clients[clientId].secret == secret;
    }

    method ValidateScopes(clientId: string, requested: seq<string>) returns (ok: bool)
      ensures ok <==> && clientId in clients
                      && (clients[clientId].scopes == [] || forall s | s in requested :: s in clients[clientId].scopes)
      ensures ok <==> M.ScopesAllowed(View(), clientId, requested)
    {
      if clientId !in clients {
        return false;
      }
      if clients[clientId].scopes == [] {
        return true;
      }
      var allowed := set s | s in clients[clientId].scopes;
      for i := 0 to |requested|
        invariant forall j | 0 <= j < i :: requested[j] in clients[clientId].scopes
      {
        if requested[i] !in allowed {
          return false;
        }
      }
      return true;
    }

    /** Of an unknown client no redirect is valid. */
    method ValidateRedirectURI(clientId: string, uri: string) returns (ok: bool)
      ensures ok <==> var m := View(); clientId in m.clients && uri in m.clients[clientId].redirectUris
    {
      if clientId !in clients || clients[clientId].redirectUris == [] {
        return false;
      }
      var registered := clients[clientId].redirectUris;
      for i := 0 to |registered|
        invariant uri !in registered[..i]
      {
        if registered[i] == uri {
          return true;
        }
      }
      return false;
    }

    method IsValidToken(tokenId: string, now: int) returns (ok: bool)
      ensures ok <==> tokenId in tokens && !tokens[tokenId].revoked && now < tokens[tokenId].expiresAt
      ensures ok <==> M.IsValid(View(), tokenId, now)
    {
      ok := tokenId in tokens && !tokens[tokenId].revoked && now < tokens[tokenId].expiresAt;
    }

    /** Marking one record revoked changes one entry of the abstract map. */
    method Mark(id: string)
      requires Keyed() && id in tokens
      modifies tokens[id]
      ensures Tokens() == old(Tokens())[id := old(Tokens())[id].(revoked := true)]
    {
      tokens[id].revoked := true;
    }

    method RevokeListed(ids: seq<string>)
      requires Keyed()
      modifies tokens.Values
      ensures Tokens() == M.RevokeListed(old(Tokens()), ids)
    {
      ghost var before := Tokens();
      for i := 0 to |ids|
        invariant Tokens() == M.RevokeListed(before, ids[..i])
      {
        M.ListedOneMore(before, ids, i);
        if ids[i] in tokens {
          Mark(ids[i]);
        }
      }
      assert ids[..|ids|] == ids;
    }

    method RevokeFamily(clientId: string)
      requires Valid()
      modifies tokens.Values
      ensures View() == M.RevokeFamily(old(View()), clientId) && Valid()
    {
      M.RevokeFamilyKeepsCoherence(View(), clientId, issued);
      RevokeListed(if clientId in families then families[clientId] else []);
    }

    method RevokeListedCounting(ids: seq<string>) returns (count: nat)
      requires Keyed() && M.Distinct(ids)
      modifies tokens.Values
      ensures Tokens() == M.RevokeListed(old(Tokens()), ids)
      ensures count == |M.ActiveAmong(old(Tokens()), ids)|
    {
      ghost var before := Tokens();
      count := 0;
      for i := 0 to |ids|
        invariant Tokens() == M.RevokeListed(before, ids[..i])
        invariant count == |M.ActiveAmong(before, ids[..i])|
      {
        M.ListedOneMore(before, ids, i);
        assert ids[i] in tokens ==> Tokens()[ids[i]] == before[ids[i]];
        if ids[i] in tokens && !tokens[ids[i]].revoked {
          Mark(ids[i]);
          count := count + 1;
        }
      }
      assert ids[..|ids|] == ids;
    }

    /** Returns how many tokens of the client were not revoked before; afterwards there are none. */
    method RevokeByClient(clientId: string) returns (count: nat)
      requires Valid()
      modifies tokens.Values
      ensures View() == M.RevokeFamily(old(View()), clientId) && Valid()
      ensures forall id | id in old(Tokens()) ::
                && id in Tokens()
                && Tokens()[id] == if old(Tokens())[id].clientId == clientId then old(Tokens())[id].(revoked := true)
                                   else old(Tokens())[id]
      ensures count == |M.ActiveOf(old(View()), clientId)|
    {
      ghost var before := View();
      M.RevokeFamilyKeepsCoherence(before, clientId, issued);
      M.FamilyListsActive(before, clientId, issued);
      M.FamilyIsTheClient(before, clientId, issued);
      count := RevokeListedCounting(if clientId in families then families[clientId] else []);
    }

    method RevokeToken(id: string)
      requires Valid()
      modifies tokens.Values
      ensures View() == M.RevokeOne(old(View()), id) && Valid()
    {
      M.RevokeOneKeepsCoherence(View(), id, issued);
      if id in tokens {
        Mark(id);
      }
    }

    /** The form of RFC 7009: first as an access token, then by scanning for the refresh token. */
    method RevokeRFC7009(clientId: string, secret: string, value: string, hint: string) returns (ok: bool)
      requires Valid()
      modifies tokens.Values
      ensures ok <==> clientId == "" || (clientId in clients && clients[clientId].secret == secret)
      ensures !ok || value == "" ==> View() == old(View())
      ensures ok && value != "" ==>
                forall id | id in old(Tokens()) ::
                  && id in Tokens()
                  && Tokens()[id] ==
                     if id == value
                        || ((hint == "refresh_token" || hint == "") && old(Tokens())[id].refreshToken == value)
                     then old(Tokens())[id].(revoked := true) else old(Tokens())[id]
      ensures View() == (if ok && value != ""
                         then M.RevokeValue(old(View()), value, hint == "refresh_token" || hint == "")
                         else old(View()))
      ensures Valid()
    {
      ok := true;
      if clientId != "" {
        ok := AuthenticateClient(clientId, secret);
      }
      if ok && value != "" {
        RevokeValue(value, hint == "refresh_token" || hint == "");
      }
    }

    method RevokeValue(value: string, asRefresh: bool)
      requires Valid()
      modifies tokens.Values
      ensures Valid() && View() == M.RevokeValue(old(View()), value, asRefresh)
    {
      M.RevokeValueKeepsCoherence(View(), value, asRefresh, issued);
      RevokeMatching(value, asRefresh);
    }

    method RevokeMatching(value: string, asRefresh: bool)
      requires Keyed()
      modifies tokens.Values
      ensures View() == M.RevokeValue(old(View()), value, asRefresh)
    {
      if value in tokens {
        Mark(value);
      }
      ghost var middle := Tokens();
      assert middle == M.RevokeOne(old(View()), value).tokens;
      if asRefresh {
        RevokeCarriers(value);
      }
      M.RevokeBothWays(old(View()), value);
    }

    method RevokeCarriers(value: string)
      requires Keyed()
      modifies tokens.Values
      ensures Tokens() == M.RevokeCarriers(old(Tokens()), value)
    {
      ghost var before := Tokens();
      var todo := tokens.Keys;
      while todo != {}
        invariant todo <= tokens.Keys
        invariant Tokens() == M.CarriersDone(before, todo, value)
      {
        var id :| id in todo;
        M.CarriersOneMore(before, todo, value, id);
        assert Tokens()[id] == tokens[id].View();
        if tokens[id].refreshToken == value {
          Mark(id);
        }
        todo := todo - {id};
      }
    }

    method TouchToken(id: string, window: int, now: M.Readings) returns (extended: bool)
      requires Valid()
      modifies tokens.Values
      ensures var w := if window <= 0 then 3_600_000_000_000 else window;
              && (extended <==> && id in old(Tokens()) && !old(Tokens())[id].revoked
                                && old(Tokens())[id].expiresAt - now.first < w / 2)
              && Tokens() == if extended then old(Tokens())[id := old(Tokens())[id].(expiresAt := now.second + w)]
                             else old(Tokens())
      ensures View() == M.Touch(old(View()), id, window, now) && Valid()
    {
      M.TouchKeepsCoherence(View(), id, window, now, issued);
      extended := Slide(id, window, now);
    }

    method Slide(id: string, window: int, now: M.Readings) returns (extended: bool)
      requires Keyed()
      modifies tokens.Values
      ensures extended <==> M.Touches(old(View()), id, window, now)
      ensures View() == M.Touch(old(View()), id, window, now)
    {
      var w := if window <= 0 then M.HOUR else window;
      if id !in tokens || tokens[id].revoked {
        return false;
      }
      var remaining := tokens[id].expiresAt - now.first;
      if remaining < w / 2 {
        Extend(id, now.second + w);
        return true;
      }
      return false;
    }

    method Extend(id: string, expiresAt: int)
      requires Keyed() && id in tokens
      modifies tokens[id]
      ensures Tokens() == old(Tokens())[id := old(Tokens())[id].(expiresAt := expiresAt)]
    {
      tokens[id].expiresAt := expiresAt;
    }

    /** Removes the revoked and the expired; the count is what Stats reports for the two together. */
    method Cleanup(now: int) returns (removed: nat)
      requires Valid()
      modifies this`tokens, this`refresh
      ensures View() == M.Cleanup(old(View()), now) && Valid()
      ensures forall id | id in old(Tokens()) ::
                id in Tokens() <==> !old(Tokens())[id].revoked && now <= old(Tokens())[id].expiresAt
      ensures removed == |M.RevokedIds(old(View()))| + |M.ExpiredIds(old(View()), now)|
    {
      M.CleanupKeepsCoherence(View(), now, issued);
      M.CleanupMatchesStats(View(), now);
      removed := Sweep(now);
    }

    method Sweep(now: int) returns (removed: nat)
      requires Keyed()
      modifies this`tokens, this`refresh
      ensures View() == M.Cleanup(old(View()), now) && Keyed()
      ensures removed == |M.DeadIds(old(View()), now)|
    {
      ghost var before := View();
      ghost var seen: set<string> := {};
      var todo := tokens.Keys;
      removed := 0;
      while todo != {}
        invariant Keyed() && todo <= tokens.Keys && todo <= before.tokens.Keys
        invariant forall id | id in before.tokens :: id in seen <==> id !in todo
        invariant View() == M.Without(before, M.DeadAmong(before, seen, now))
        invariant removed == |M.DeadAmong(before, seen, now)|
      {
        var id :| id in todo;
        M.SweptOneMore(before, seen, id, now);
        var dead := DropIfDead(id, now);
        if dead {
          removed := removed + 1;
        }
        todo, seen := todo - {id}, seen + {id};
      }
      assert M.DeadAmong(before, seen, now) == M.DeadIds(before, now);
    }

    method DropIfDead(id: string, now: int) returns (dead: bool)
      requires Keyed() && id in tokens
      modifies this`tokens, this`refresh
      ensures dead <==> M.Dead(old(View()).tokens[id], now)
      ensures Keyed() && tokens.Keys == old(tokens).Keys - (if dead then {id} else {})
      ensures View() == if dead then M.Without(old(View()), {id}) else old(View())
    {
      dead := tokens[id].revoked || now > tokens[id].expiresAt;
      if dead {
        Drop(id);
      }
    }

    method Drop(id: string)
      requires Keyed() && id in tokens
      modifies this`tokens, this`refresh
      ensures Keyed() && tokens == old(tokens) - {id}
      ensures View() == M.Without(old(View()), {id})
    {
      ghost var before := Tokens();
      refresh := refresh - {tokens[id].refreshToken};
      tokens := tokens - {id};
      assert M.Carried(before, {id}) == {before[id].refreshToken};
      assert Tokens() == before - {id};
    }

    /** One count per kind; the three kinds partition the stored tokens. */
    method Stats(now: int) returns (active: nat, revoked: nat, expired: nat)
      ensures revoked == |set id | id in Tokens() && Tokens()[id].revoked|
      ensures expired == |set id | id in Tokens() && !Tokens()[id].revoked && now > Tokens()[id].expiresAt|
      ensures revoked == |M.RevokedIds(View())| && expired == |M.ExpiredIds(View(), now)|
      ensures active + revoked + expired == |tokens|
    {
      active, revoked, expired := 0, 0, 0;
      M.CountAll(View(), now);
      var todo := tokens.Keys;
      while todo != {}
        invariant todo <= tokens.Keys
        invariant revoked == |M.RevokedBut(Tokens(), todo)| && expired == |M.ExpiredBut(Tokens(), todo, now)|
        invariant active + revoked + expired + |todo| == |tokens.Keys|
      {
        var id :| id in todo;
        M.CountOneMore(Tokens(), todo, id, now);
        assert Tokens()[id] == tokens[id].View();
        if tokens[id].revoked {
          revoked := revoked + 1;
        } else if now > tokens[id].expiresAt {
          expired := expired + 1;
        } else {
          active := active + 1;
        }
        todo := todo - {id};
      }
    }

    /** Lookup, as introspection uses it: the token's fields, or None. */
    method Lookup(id: string) returns (found: Option<M.Token>)
      ensures found == if id in tokens then Some(View().tokens[id]) else None
    {
      if id in tokens {
        found := Some(tokens[id].View());
      } else {
        found := None;
      }
    }

    /** Mints a token: id and rt are the two identifiers generated for it. */
    method CreateTokenWithFamily(clientId: string, scopes: seq<string>, familyCreated: int,
                                 id: string, rt: string, now: int)
      returns (tok: TokenRecord)
      requires Valid() && id !in issued && rt !in issued
      modifies this
      ensures Valid() && issued == old(issued) + {id, rt}
      ensures tok.View() == M.Token(id, clientId, scopes, now, now + 3_600_000_000_000, false, rt, now + refreshTTL,
                                    if familyCreated == 0 then now else familyCreated)
      ensures fresh(tok) && tok.View() == M.NewToken(old(View()), clientId, scopes, familyCreated, id, rt, now)
      ensures View() == M.Store(old(View()), M.NewToken(old(View()), clientId, scopes, familyCreated, id, rt, now))
    {
      ghost var spec := M.NewToken(View(), clientId, scopes, familyCreated, id, rt, now);
      M.StoreKeepsCoherence(View(), spec, issued);
      assert id !in Tokens();
      tok := Install(clientId, scopes, familyCreated, id, rt, now, M.Store(View(), spec), issued + {id, rt});
    }

    method Install(clientId: string, scopes: seq<string>, familyCreated: int, id: string, rt: string, now: int,
                   ghost stored: M.State, ghost nowIssued: set<string>)
      returns (tok: TokenRecord)
      requires Keyed() && id !in tokens
      requires stored == M.Store(View(), M.NewToken(View(), clientId, scopes, familyCreated, id, rt, now))
      requires M.Coherent(stored, nowIssued)
      modifies this`tokens, this`refresh, this`families, this`issued
      ensures View() == stored && issued == nowIssued && Valid()
      ensures fresh(tok) && tok.View() == M.NewToken(old(View()), clientId, scopes, familyCreated, id, rt, now)
    {
      tok := Insert(clientId, scopes, familyCreated, id, rt, now, nowIssued);
    }

    method Insert(clientId: string, scopes: seq<string>, familyCreated: int, id: string, rt: string, now: int,
                  ghost nowIssued: set<string>)
      returns (tok: TokenRecord)
      requires Keyed() && id !in tokens
      modifies this`tokens, this`refresh, this`families, this`issued
      ensures Keyed() && issued == nowIssued
      ensures fresh(tok) && tok.View() == M.NewToken(old(View()), clientId, scopes, familyCreated, id, rt, now)
      ensures View() == M.Store(old(View()), M.NewToken(old(View()), clientId, scopes, familyCreated, id, rt, now))
    {
      var start := if familyCreated == 0 then now else familyCreated;
      tok := new TokenRecord(M.Token(id, clientId, scopes, now, now + M.HOUR, false, rt, now + refreshTTL, start));
      Place(tok, nowIssued);
    }

    /** The new record enters the three indexes. */
    method Place(tok: TokenRecord, ghost nowIssued: set<string>)
      requires Keyed() && tok.id !in tokens
      modifies this`tokens, this`refresh, this`families, this`issued
      ensures Keyed() && issued == nowIssued
      ensures View() == M.Store(old(View()), tok.View())
    {
      ghost var before := Tokens();
      tokens := tokens[tok.id := tok];
      assert Tokens() == before[tok.id := tok.View()];
      PlaceIndexes(tok, nowIssued);
    }

    method PlaceIndexes(tok: TokenRecord, ghost nowIssued: set<string>)
      modifies this`refresh, this`families, this`issued
      ensures issued == nowIssued && refresh == old(refresh)[tok.refreshToken := tok.id]
      ensures families == old(families)[tok.clientId :=
                (if tok.clientId in old(families) then old(families)[tok.clientId] else []) + [tok.id]]
    {
      issued := nowIssued;
      refresh := refresh[tok.refreshToken := tok.id];
      var family := if tok.clientId in families then families[tok.clientId] else [];
      families := families[tok.clientId := family + [tok.id]];
    }

    /** The section of the refresh grant that runs under the lock. */
    method ConsumeRefresh(rt: string, clientId: string, now: M.Readings) returns (r: M.ConsumeResult)
      requires Valid()
      modifies this`refresh, this`used, tokens.Values
      ensures View() == M.Consume(old(View()), rt, clientId, now).0 && Valid()
      ensures r == M.Consume(old(View()), rt, clientId, now).1
    {
      M.ConsumeKeepsCoherence(View(), rt, clientId, now, issued);
      r := Consume(rt, clientId, now);
    }

    method Consume(rt: string, clientId: string, now: M.Readings) returns (r: M.ConsumeResult)
      requires Keyed()
      modifies this`refresh, this`used, tokens.Values
      ensures View() == M.Consume(old(View()), rt, clientId, now).0
      ensures r == M.Consume(old(View()), rt, clientId, now).1
    {
      if rt in used {
        RevokeListed(if used[rt] in families then families[used[rt]] else []);
        return M.Reuse;
      }
      if rt !in refresh {
        return M.NotFound;
      }
      if refresh[rt] !in tokens || tokens[refresh[rt]].clientId != clientId {
        return M.NotOwned;
      }
      r := Rotate(rt, clientId, now);
    }

    method Rotate(rt: string, clientId: string, now: M.Readings) returns (r: M.ConsumeResult)
      requires Keyed()
      requires rt !in used && rt in refresh && refresh[rt] in tokens && tokens[refresh[rt]].clientId == clientId
      modifies this`refresh, this`used, tokens.Values
      ensures View() == M.Consume(old(View()), rt, clientId, now).0
      ensures r == M.Consume(old(View()), rt, clientId, now).1
    {
      var id := refresh[rt];
      var spent := tokens[id].View();
      assert Tokens()[id] == spent;
      if spent.refreshExpiresAt != 0 && now.first > spent.refreshExpiresAt {
        refresh := refresh - {rt};
        return M.RefreshExpired;
      }
      if spent.familyCreatedAt != 0 && now.second > spent.familyCreatedAt + refreshMaxLife {
        RevokeListed(if clientId in families then families[clientId] else []);
        refresh := refresh - {rt};
        return M.FamilyExpired;
      }
      Spend(id, rt, clientId);
      return M.Redeemed(spent);
    }

    method Spend(id: string, rt: string, clientId: string)
      requires Keyed() && id in tokens
      modifies this`refresh, this`used, tokens[id]
      ensures View() == old(View()).(tokens := old(Tokens())[id := old(Tokens())[id].(revoked := true)],
                                     refresh := old(refresh) - {rt}, used := old(used)[rt := clientId])
    {
      Mark(id);
      refresh := refresh - {rt};
      used := used[rt := clientId];
    }

    /** A scope request may only narrow; the map of allowed scopes is built first, then every request is looked up. */
    method Narrow(granted: seq<string>, requested: Option<seq<string>>) returns (scopes: Option<seq<string>>)
      ensures scopes == M.Narrow(granted, requested)
    {
      if requested == None {
        return Some(granted);
      }
      var allowed := set s | s in granted;
      for i := 0 to |requested.value|
        invariant forall j | 0 <= j < i :: requested.value[j] in granted
      {
        if requested.value[i] !in allowed {
          return None;
        }
      }
      return requested;
    }

    /** Mint, and answer with what was minted. */
    method Answer(clientId: string, scopes: seq<string>, familyCreated: int, id: string, rt: string, now: int)
      returns (reply: Reply)
      requires Valid() && id !in issued && rt !in issued
      modifies this
      ensures Valid() && reply == Issued(id, rt, scopes)
      ensures View() == M.Store(old(View()), M.NewToken(old(View()), clientId, scopes, familyCreated, id, rt, now))
    {
      var tok := CreateTokenWithFamily(clientId, scopes, familyCreated, id, rt, now);
      return Issued(tok.View().id, rt, tok.View().scopes);
    }

    method HandleRefreshToken(rt: string, clientId: string, secret: string, requested: Option<seq<string>>,
                              id: string, newRt: string, now: M.Readings, mintedAt: int) returns (reply: Reply)
      requires Valid() && id !in issued && newRt !in issued
      modifies this, tokens.Values
      ensures Valid()
      ensures (View(), reply) == RefreshGrant(old(View()), rt, clientId, secret, requested, id, newRt, now, mintedAt)
    {
      var authentic := AuthenticateClient(clientId, secret);
      if !authentic {
        return Denied(InvalidClient);
      }
      var r := ConsumeRefresh(rt, clientId, now);
      reply := Conclude(r, clientId, requested, id, newRt, mintedAt);
    }

    /** The part of the refresh grant after the lock is released: narrow, and mint. */
    method Conclude(r: M.ConsumeResult, clientId: string, requested: Option<seq<string>>,
                    id: string, newRt: string, now: int) returns (reply: Reply)
      requires Valid() && id !in issued && newRt !in issued
      modifies this
      ensures Valid()
      ensures (View(), reply) == AfterConsume(old(View()), r, clientId, requested, id, newRt, now)
    {
      if !r.Redeemed? {
        return Denied(InvalidGrant);
      }
      var scopes := Narrow(r.spent.scopes, requested);
      if scopes == None {
        return Denied(InvalidScope);
      }
      reply := Answer(clientId, scopes.value, r.spent.familyCreatedAt, id, newRt, now);
    }

    method HandleClientCredentials(clientId: string, secret: string, requested: seq<string>,
                                   id: string, rt: string, now: int) returns (reply: Reply)
      requires Valid() && id !in issued && rt !in issued
      modifies this
      ensures Valid()
      ensures (View(), reply) == CredentialsGrant(old(View()), clientId, secret, requested, id, rt, now)
    {
      var authentic := AuthenticateClient(clientId, secret);
      if !authentic {
        return Denied(InvalidClient);
      }
      var scopes := requested;
      if |scopes| == 0 && |clients[clientId].scopes| > 0 {
        scopes := clients[clientId].scopes;
      }
      reply := GrantIfAllowed(clientId, scopes, id, rt, now);
    }

    method GrantIfAllowed(clientId: string, scopes: seq<string>, id: string, rt: string, now: int)
      returns (reply: Reply)
      requires Valid() && id !in issued && rt !in issued
      modifies this
      ensures Valid()
      ensures (View(), reply) == RootGrant(old(View()), clientId, scopes, id, rt, now)
    {
      var allowed := ValidateScopes(clientId, scopes);
      if !allowed {
        return Denied(InvalidScope);
      }
      reply := Answer(clientId, scopes, 0, id, rt, now);
    }
  }
}
