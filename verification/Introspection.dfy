/**
  Token introspection (internal/introspect/handler.go): the adapter over the token manager,
  and a TTL cache in front of it.

  A cached lookup reads the cache under its lock, then asks the manager, then stores the answer
  with the time of the store.  These are three separate events below, and any event of the
  manager may come between them.
*/
module Introspection {
  import opened Options
  import opened TokenModel
  import opened TokenRuns
  import opened TokenTheorems
  import opened TokenManager

  datatype Response = Inactive | Active(scopes: seq<string>, clientId: string, expiresAt: int, issuedAt: int)

  /** ManagerAdapter.Introspect */
  function Adapter(m: State, id: string, now: int): Response {
    if id !in m.tokens || m.tokens[id].revoked || now > m.tokens[id].expiresAt then Inactive
    else
      var tok := m.tokens[id];
      Active(tok.scopes, tok.clientId, tok.expiresAt, tok.createdAt)
  }

  /** The adapter and IsValid disagree at one instant only: the moment of expiry itself. */
  lemma AdapterAgreesWithIsValid(m: State, id: string, now: int)
    ensures Adapter(m, id, now).Active? <==>
            IsValid(m, id, now) || (id in m.tokens && !m.tokens[id].revoked && now == m.tokens[id].expiresAt)
  {
  }

  /** The answer describes the stored token while it is neither revoked nor past its expiry, and nothing otherwise. */
  ghost predicate TellsOf(r: Response, m: State, id: string, now: int) {
    if id in m.tokens && !m.tokens[id].revoked && now <= m.tokens[id].expiresAt
    then && r.Active? && r.scopes == m.tokens[id].scopes && r.clientId == m.tokens[id].clientId
         && r.expiresAt == m.tokens[id].expiresAt && r.issuedAt == m.tokens[id].createdAt
    else r == Inactive
  }

  // ----- the cache -----

  datatype Entry = Entry(response: Response, at: int)

  predicate Fresh(cache: map<string, Entry>, id: string, ttl: int, now: int) {
    id in cache && now - cache[id].at < ttl
  }

  class CachedLookup {
    const ttl: int
    var cache: map<string, Entry>

    constructor (ttl: int)
      ensures this.ttl == (if ttl <= 0 then 30_000_000_000 else ttl) && cache == map[]
    {
      this.ttl := if ttl <= 0 then 30_000_000_000 else ttl;
      cache := map[];
    }

    /** One call, with nothing in between: a fresh entry answers; otherwise the manager does, and is remembered. */
    method Introspect(manager: Manager, id: string, now: int, storedAt: int) returns (response: Response)
      requires manager.Valid()
      modifies this`cache
      ensures id in old(cache) && now - old(cache)[id].at < ttl ==>
                response == old(cache)[id].response && cache == old(cache)
      ensures !(id in old(cache) && now - old(cache)[id].at < ttl) ==>
                TellsOf(response, manager.View(), id, now) && cache == old(cache)[id := Entry(response, storedAt)]
      ensures Fresh(old(cache), id, ttl, now) ==> response == old(cache)[id].response && cache == old(cache)
      ensures !Fresh(old(cache), id, ttl, now) ==>
                && response == Adapter(manager.View(), id, now)
                && cache == old(cache)[id := Entry(response, storedAt)]
    {
      if id in cache && now - cache[id].at < ttl {
        return cache[id].response;
      }
      var found := manager.Lookup(id);
      if found.None? || found.value.revoked || now > found.value.expiresAt {
        response := Inactive;
      } else {
        response := Active(found.value.scopes, found.value.clientId, found.value.expiresAt, found.value.createdAt);
      }
      cache := cache[id := Entry(response, storedAt)];
    }
  }

  // ----- runs of manager and cache together -----

  /** A lookup that has read the manager and not yet stored what it read. */
  datatype Flight = Flight(id: string, response: Response)

  datatype Answer = Answer(id: string, response: Response, at: int)

  datatype System = System(
    sys: Sys, ttl: int, cache: map<string, Entry>, inflight: map<nat, Flight>, calls: nat,
    clock: int, answers: seq<Answer>)

  datatype Happening =
    | Manage(event: Event, now: int)
    | Peek(id: string, now: int)       // the cache is read; a fresh entry is the answer
    | Read(id: string, now: int)       // the manager is read
    | Finish(call: nat, now: int)      // the answer is stored and returned

  function HappeningStep(s: System, h: Happening): System {
    if h.now < s.clock then s   // the clock does not run backwards
    else
      var t := s.(clock := h.now);
      match h
      case Manage(e, _) => t.(sys := Step(s.sys, e))
      case Peek(id, now) =>
        if Fresh(s.cache, id, s.ttl, now)
        then t.(answers := s.answers + [Answer(id, s.cache[id].response, now)])
        else t
      case Read(id, now) =>
        t.(inflight := s.inflight[s.calls := Flight(id, Adapter(s.sys.mgr, id, now))], calls := s.calls + 1)
      case Finish(call, now) =>
        if call in s.inflight then
          var f := s.inflight[call];
          t.(inflight := s.inflight - {call},
             cache := s.cache[f.id := Entry(f.response, now)],
             answers := s.answers + [Answer(f.id, f.response, now)])
        else t
  }

  function Happen(s: System, hs: seq<Happening>): System
    decreases |hs|
  {
    if hs == [] then s else HappeningStep(Happen(s, hs[..|hs| - 1]), hs[|hs| - 1])
  }

  /** Entries and calls are no younger than the clock, and call numbers are unused ones. */
  ghost predicate Timely(s: System) {
    && s.ttl > 0
    && (forall id | id in s.cache :: s.cache[id].at <= s.clock)
    && (forall c | c in s.inflight :: c < s.calls)
  }

  lemma {:induction false} StaysTimely(s: System, hs: seq<Happening>)
    requires Timely(s)
    ensures Timely(Happen(s, hs)) && Happen(s, hs).clock >= s.clock
    decreases |hs|
  {
    if hs != [] {
      StaysTimely(s, hs[..|hs| - 1]);
    }
  }

  /** No lookup in flight is about to report id as active. */
  predicate NoStaleFlight(s: System, id: string) {
    forall c | c in s.inflight && s.inflight[c].id == id :: s.inflight[c].response == Inactive
  }

  /** No answer about id from time t on says active; `from` is how many answers precede the period. */
  ghost predicate ReportedInactiveSince(s: System, id: string, from: nat, t: int) {
    forall k | from <= k < |s.answers| && s.answers[k].id == id && s.answers[k].at >= t ::
      s.answers[k].response == Inactive
  }

  /** What holds from the moment r on at which id is gone and no stale lookup is in flight. */
  ghost predicate Settled(s: System, id: string, from: nat, r: int) {
    && Timely(s) && s.clock >= r && Gone(s.sys, id) && from <= |s.answers|
    && NoStaleFlight(s, id)
    && (id in s.cache ==> s.cache[id].response == Inactive || s.cache[id].at <= r)
    && ReportedInactiveSince(s, id, from, r + s.ttl)
  }

  lemma StepStaysSettled(s: System, h: Happening, id: string, from: nat, r: int)
    requires Settled(s, id, from, r)
    ensures Settled(HappeningStep(s, h), id, from, r)
  {
    if h.now >= s.clock && h.Manage? {
      StepKeepsGone(s.sys, h.event, id);
    }
  }

  lemma {:induction false} StaysSettled(s: System, hs: seq<Happening>, id: string, from: nat, r: int)
    requires Settled(s, id, from, r)
    ensures Settled(Happen(s, hs), id, from, r)
    decreases |hs|
  {
    if hs != [] {
      StaysSettled(s, hs[..|hs| - 1], id, from, r);
      StepStaysSettled(Happen(s, hs[..|hs| - 1]), hs[|hs| - 1], id, from, r);
    }
  }

  ghost predicate AlwaysInactiveAfterTtl(s: System, id: string) {
    forall hs :: ReportedInactiveSince(Happen(s, hs), id, |s.answers|, s.clock + s.ttl)
  }

  /**
    Once a token is gone, with the clock at r, every answer at r + ttl or later is inactive, in every
    continuation and whatever was cached, exactly when no lookup that read the token as active is
    still on its way to the cache.
  */
  lemma RevocationReachesTheCacheExactlyWhen(s: System, id: string)
    requires Timely(s) && Gone(s.sys, id)
    ensures AlwaysInactiveAfterTtl(s, id) <==> NoStaleFlight(s, id)
  {
    if NoStaleFlight(s, id) {
      forall hs ensures ReportedInactiveSince(Happen(s, hs), id, |s.answers|, s.clock + s.ttl) {
        StaysSettled(s, hs, id, |s.answers|, s.clock);
        StaysTtl(s, hs);
      }
    } else {
      var c :| c in s.inflight && s.inflight[c].id == id && s.inflight[c].response != Inactive;
      var hs := [Finish(c, s.clock + s.ttl)];
      assert hs[..|hs| - 1] == [];
      assert Happen(s, []) == s;
      var s' := Happen(s, hs);
      var k := |s.answers|;
      assert s'.answers[k] == Answer(id, s.inflight[c].response, s.clock + s.ttl);
      assert !ReportedInactiveSince(Happen(s, hs), id, |s.answers|, s.clock + s.ttl);
    }
  }

  // ----- a run that gets there -----

  function Start(ttl: int): System {
    System(INITIAL, ttl, map[], map[], 0, 0, [])
  }

  /** A token is minted, a lookup reads it as active, and before the answer is stored the token is revoked. */
  const STALE: seq<Happening> :=
    [] + [Manage(BeginDirect("client", []), 0)] + [Manage(Mint(0, None, "token", "refresh", 1), 1)]
    + [Read("token", 1)] + [Manage(RevokeToken("token"), 1)]

  lemma HappenMore(s: System, hs: seq<Happening>, h: Happening)
    ensures Happen(s, hs + [h]) == HappeningStep(Happen(s, hs), h)
  {
    assert (hs + [h])[..|hs|] == hs;
  }

  lemma StaleUnfolds(ttl: int)
    ensures Happen(Start(ttl), STALE) ==
            HappeningStep(HappeningStep(HappeningStep(HappeningStep(Start(ttl),
              Manage(BeginDirect("client", []), 0)), Manage(Mint(0, None, "token", "refresh", 1), 1)),
              Read("token", 1)), Manage(RevokeToken("token"), 1))
  {
    var h1, h2 := Manage(BeginDirect("client", []), 0), Manage(Mint(0, None, "token", "refresh", 1), 1);
    HappenMore(Start(ttl), [], h1);
    HappenMore(Start(ttl), [] + [h1], h2);
    HappenMore(Start(ttl), [] + [h1] + [h2], Read("token", 1));
    HappenMore(Start(ttl), [] + [h1] + [h2] + [Read("token", 1)], Manage(RevokeToken("token"), 1));
  }

  lemma StaleFlightFlies(ttl: int)
    ensures var s := Happen(Start(ttl), STALE);
            && Gone(s.sys, "token") && 0 in s.inflight && s.inflight[0].id == "token" && s.inflight[0].response.Active?
  {
    StaleUnfolds(ttl);
    var s1 := HappeningStep(Start(ttl), Manage(BeginDirect("client", []), 0));
    assert s1.sys.pending == map[0 := Pending("client", [], 0, Direct)];
    var s2 := HappeningStep(s1, Manage(Mint(0, None, "token", "refresh", 1), 1));
    assert s2.sys.mgr.tokens.Keys == {"token"} && !s2.sys.mgr.tokens["token"].revoked;
    assert s2.sys.mgr.tokens["token"].expiresAt == 1 + HOUR;
  }

  /** The failure is one the code can reach: from this state on the bound of one time to live does not hold. */
  lemma StaleFlightIsReachable(ttl: int)
    requires ttl > 0
    ensures var s := Happen(Start(ttl), STALE);
            Timely(s) && Gone(s.sys, "token") && !AlwaysInactiveAfterTtl(s, "token")
  {
    var s := Happen(Start(ttl), STALE);
    StaysTimely(Start(ttl), STALE);
    StaleFlightFlies(ttl);
    assert !NoStaleFlight(s, "token");
    RevocationReachesTheCacheExactlyWhen(s, "token");
  }

  // ----- where an answer comes from -----

  /** Event b read the manager, and the response describes what it found. */
  ghost predicate ReadAt(ttl: int, hs: seq<Happening>, b: nat, id: string, r: Response) {
    && b < |hs| && hs[b].Read? && hs[b].id == id
    && TellsOf(r, Happen(Start(ttl), hs[..b]).sys.mgr, id, hs[b].now)
  }

  lemma ReadEarlier(ttl: int, hs: seq<Happening>, b: nat, id: string, r: Response)
    requires hs != [] && ReadAt(ttl, hs[..|hs| - 1], b, id, r)
    ensures ReadAt(ttl, hs, b, id, r)
  {
    assert hs[..|hs| - 1][..b] == hs[..b];
  }

  lemma {:induction false} FlightFrom(ttl: int, hs: seq<Happening>, call: nat) returns (b: nat)
    requires call in Happen(Start(ttl), hs).inflight
    ensures var f := Happen(Start(ttl), hs).inflight[call]; ReadAt(ttl, hs, b, f.id, f.response)
    decreases |hs|
  {
    var n := |hs| - 1;
    var s := Happen(Start(ttl), hs[..n]);
    var f := Happen(Start(ttl), hs).inflight[call];
    if call in s.inflight && s.inflight[call] == f {
      b := FlightFrom(ttl, hs[..n], call);
      ReadEarlier(ttl, hs, b, f.id, f.response);
    } else {
      b := n;
    }
  }

  /** Event c stored and returned what event b before it had read. */
  ghost predicate StoredAt(ttl: int, hs: seq<Happening>, b: nat, c: nat, id: string, r: Response, at: int) {
    b < c < |hs| && ReadAt(ttl, hs, b, id, r) && hs[c].Finish? && hs[c].now == at
  }

  lemma StoredEarlier(ttl: int, hs: seq<Happening>, b: nat, c: nat, id: string, r: Response, at: int)
    requires hs != [] && StoredAt(ttl, hs[..|hs| - 1], b, c, id, r, at)
    ensures StoredAt(ttl, hs, b, c, id, r, at)
  {
    ReadEarlier(ttl, hs, b, id, r);
  }

  lemma {:induction false} EntryFrom(ttl: int, hs: seq<Happening>, id: string) returns (b: nat, c: nat)
    requires id in Happen(Start(ttl), hs).cache
    ensures var e := Happen(Start(ttl), hs).cache[id]; StoredAt(ttl, hs, b, c, id, e.response, e.at)
    decreases |hs|
  {
    var n := |hs| - 1;
    var s := Happen(Start(ttl), hs[..n]);
    var e := Happen(Start(ttl), hs).cache[id];
    if id in s.cache && s.cache[id] == e {
      b, c := EntryFrom(ttl, hs[..n], id);
      StoredEarlier(ttl, hs, b, c, id, e.response, e.at);
    } else {
      b := FlightFrom(ttl, hs[..n], hs[n].call);
      ReadEarlier(ttl, hs, b, id, e.response);
      c := n;
    }
  }

  /**
    Every answer, in every run, describes what the manager held when some earlier call read it, and is given less than
    one time to live after that call stored it.
  */
  lemma {:induction false} AnswersWereRead(ttl: int, hs: seq<Happening>, k: nat) returns (b: nat, c: nat)
    requires ttl > 0 && k < |Happen(Start(ttl), hs).answers|
    ensures var a := Happen(Start(ttl), hs).answers[k];
            && b < c < |hs| && StoredAt(ttl, hs, b, c, a.id, a.response, hs[c].now)
            && a.at - hs[c].now < ttl
    decreases |hs|
  {
    var n := |hs| - 1;
    var s := Happen(Start(ttl), hs[..n]);
    var a := Happen(Start(ttl), hs).answers[k];
    StaysTtl(Start(ttl), hs[..n]);
    if k < |s.answers| {
      b, c := AnswersWereRead(ttl, hs[..n], k);
      StoredEarlier(ttl, hs, b, c, a.id, a.response, hs[c].now);
    } else if hs[n].Peek? {
      b, c := EntryFrom(ttl, hs[..n], a.id);
      StoredEarlier(ttl, hs, b, c, a.id, a.response, hs[c].now);
    } else {
      b := FlightFrom(ttl, hs[..n], hs[n].call);
      ReadEarlier(ttl, hs, b, a.id, a.response);
      c := n;
    }
  }

  lemma {:induction false} StaysTtl(s: System, hs: seq<Happening>)
    ensures Happen(s, hs).ttl == s.ttl
    decreases |hs|
  {
    if hs != [] {
      StaysTtl(s, hs[..|hs| - 1]);
    }
  }

  /** In particular: with calls run one at a time nothing is in flight between them, and the bound holds outright. */
  lemma RevokedIsInactiveAfterTtl(s: System, hs: seq<Happening>, id: string)
    requires Timely(s) && Gone(s.sys, id) && s.inflight == map[]
    ensures ReportedInactiveSince(Happen(s, hs), id, |s.answers|, s.clock + s.ttl)
    ensures forall now :: !IsValid(Happen(s, hs).sys.mgr, id, now)
  {
    RevocationReachesTheCacheExactlyWhen(s, id);
    assert AlwaysInactiveAfterTtl(s, id);
    StaysSettled(s, hs, id, |s.answers|, s.clock);
  }

  /** CachedLookup.Introspect run alone is a Peek that hits, or a Read followed at once by its Finish. */
  lemma OneCallAlone(s: System, id: string, now: int, storedAt: int)
    requires Timely(s) && s.clock <= now <= storedAt
    ensures id in s.cache && now - s.cache[id].at < s.ttl ==>
              var s' := HappeningStep(s, Peek(id, now));
              s'.cache == s.cache && s'.answers == s.answers + [Answer(id, s.cache[id].response, now)]
    ensures !(id in s.cache && now - s.cache[id].at < s.ttl) ==>
              var response := Adapter(s.sys.mgr, id, now);
              var s' := HappeningStep(HappeningStep(s, Read(id, now)), Finish(s.calls, storedAt));
              && s'.cache == s.cache[id := Entry(response, storedAt)]
              && s'.answers == s.answers + [Answer(id, response, storedAt)]
              && s'.inflight == s.inflight
  {
    assert s.calls !in s.inflight;
  }
}
