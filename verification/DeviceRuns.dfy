/** Whole runs of the device flow: with one handler at a time, and with overlapping polls. */
module DeviceRuns {
  import opened Options
  import opened Device

  // ----- one handler at a time -----

  datatype Event =
    | Request(dc: string, uc: string, clientId: string, scopes: seq<string>, now: int)
    | Decide(uc: string, deny: bool)
    | Poll(dc: string, now: int)
    | Clean(now: int)

  datatype Token = Token(dc: string, clientId: string, scopes: seq<string>, at: int)

  datatype State = State(
    store: Store,
    started: map<string, Code>,    // every code ever requested, as it was then
    userCodes: set<string>,        // every user code ever generated
    approvals: set<string>, denials: set<string>,   // device codes for which a decision was stored
    issued: seq<Token>)

  const INITIAL: State := State(Store(map[], map[]), map[], {}, {}, {}, [])

  function Step(s: State, e: Event): State {
    match e
    case Request(dc, uc, clientId, scopes, now) =>
      if dc in s.started || uc in s.userCodes || clientId == "" then s   // generated codes are fresh
      else
        s.(store := Requested(s.store, dc, uc, clientId, scopes, now), userCodes := s.userCodes + {uc},
           started := s.started[dc := Code(uc, clientId, scopes, now + TEN_MINUTES, false, false)])
    case Decide(uc, deny) =>
      if uc !in s.store.byUser then s
      else
        s.(store := Decided(s.store, uc, deny),
           approvals := s.approvals + (if deny then {} else {s.store.byUser[uc]}),
           denials := s.denials + (if deny then {s.store.byUser[uc]} else {}))
    case Poll(dc, now) =>
      var (store, r) := Polled(s.store, dc, now);
      s.(store := store, issued := s.issued + if r.Issue? then [Token(dc, r.clientId, r.scopes, now)] else [])
    case Clean(now) => s.(store := Cleaned(s.store, now))
  }

  function Run(events: seq<Event>): State
    decreases |events|
  {
    if events == [] then INITIAL else Step(Run(events[..|events| - 1]), events[|events| - 1])
  }

  ghost predicate StoreSound(s: State) {
    && SameRecords(s.store)
    && AsDecided(s.store.codes, s.started, s.approvals, s.denials)
    && (forall dc | dc in s.started :: s.started[dc].userCode in s.userCodes)
    && s.approvals <= s.started.Keys && s.denials <= s.started.Keys
  }

  ghost predicate IssuedSound(s: State) {
    && (forall k | 0 <= k < |s.issued| ::
          var t := s.issued[k];
          && t.dc in s.started && t.dc !in s.store.codes && t.dc in s.approvals && t.dc !in s.denials
          && t.clientId == s.started[t.dc].clientId && t.scopes == s.started[t.dc].scopes
          && t.at <= s.started[t.dc].expiresAt)
    && (forall k, l | 0 <= k < l < |s.issued| :: s.issued[k].dc != s.issued[l].dc)
  }

  lemma StepKeepsSameRecords(s: State, e: Event)
    requires StoreSound(s)
    ensures SameRecords(Step(s, e).store)
  {
    match e
    case Request(dc, uc, clientId, scopes, now) =>
      if dc !in s.started && uc !in s.userCodes {
        assert uc !in s.store.byUser;
        RequestKeepsSameRecords(s.store, dc, uc, clientId, scopes, now);
      }
    case Decide(uc, deny) => OthersKeepSameRecords(s.store, "", uc, deny, 0);
    case Poll(dc, now) => OthersKeepSameRecords(s.store, dc, "", false, now);
    case Clean(now) => OthersKeepSameRecords(s.store, "", "", false, now);
  }

  /** A stored record is the one that was requested, with the flags that were decided since. */
  ghost predicate AsDecided(codes: map<string, Code>, started: map<string, Code>,
                            approvals: set<string>, denials: set<string>) {
    forall dc | dc in codes ::
      dc in started && codes[dc] == started[dc].(approved := dc in approvals, denied := dc in denials)
  }

  lemma StepKeepsAsDecided(s: State, e: Event)
    requires AsDecided(s.store.codes, s.started, s.approvals, s.denials)
    requires s.approvals <= s.started.Keys && s.denials <= s.started.Keys
    ensures AsDecided(Step(s, e).store.codes, Step(s, e).started, Step(s, e).approvals, Step(s, e).denials)
  {
  }

  lemma StepKeepsStore(s: State, e: Event)
    requires StoreSound(s)
    ensures StoreSound(Step(s, e))
  {
    StepKeepsSameRecords(s, e);
    StepKeepsAsDecided(s, e);
  }

  lemma StepKeepsIssued(s: State, e: Event)
    requires StoreSound(s) && IssuedSound(s)
    ensures IssuedSound(Step(s, e))
  {
  }

  /**
    With handlers run one at a time: both indexes always hold the same records; a device code issues at
    most once, only after an approval and before it expires, for the client and scopes it was requested
    with; and a code for which a denial is ever stored has not issued.
  */
  lemma {:induction false} DeviceCodeIssuesOnce(events: seq<Event>)
    ensures StoreSound(Run(events)) && IssuedSound(Run(events))
    decreases |events|
  {
    if events != [] {
      var s := Run(events[..|events| - 1]);
      DeviceCodeIssuesOnce(events[..|events| - 1]);
      StepKeepsStore(s, events[|events| - 1]);
      StepKeepsIssued(s, events[|events| - 1]);
    }
  }

  // ----- overlapping polls -----

  /** How far a PollToken call has come with the record it fetched. */
  datatype Phase = Fetched | NotDenied | Issued | Deleted | Refused

  datatype PollCall = PollCall(dc: string, phase: Phase, fetchedAt: nat, deletedAt: Option<nat>)

  /** The records are objects: a call keeps the one it fetched even after the indexes have dropped it. */
  datatype Machine = Machine(
    records: map<string, Code>,
    userCodes: set<string>,         // every user code ever generated
    live: set<string>,              // the device codes in the index
    byUser: map<string, string>,
    calls: seq<PollCall>,
    clock: nat)                     // number of steps taken

  const IDLE: Machine := Machine(map[], {}, {}, map[], [], 0)

  datatype Action =
    | NewCode(dc: string, uc: string, clientId: string, scopes: seq<string>, now: int)
    | UserDecides(uc: string, deny: bool)
    | Fetch(dc: string)
    | ReadDenied(call: nat, now: int)
    | ReadApproved(call: nat)
    | Delete(call: nat)
    | Sweep(now: int)

  function SetPhase(m: Machine, i: nat, phase: Phase): Machine
    requires i < |m.calls|
  {
    m.(calls := m.calls[i := m.calls[i].(phase := phase)])
  }

  function Act(m: Machine, a: Action): Machine {
    var t := m.(clock := m.clock + 1);
    match a
    case NewCode(dc, uc, clientId, scopes, now) =>
      if dc in m.records || uc in m.userCodes || clientId == "" then t   // generated codes are fresh
      else
        t.(userCodes := m.userCodes + {uc},
           records := m.records[dc := Code(uc, clientId, scopes, now + TEN_MINUTES, false, false)],
           live := m.live + {dc}, byUser := m.byUser[uc := dc])
    case UserDecides(uc, deny) =>
      if uc in m.byUser && m.byUser[uc] in m.records
      then t.(records := m.records[m.byUser[uc] := Decision(m.records[m.byUser[uc]], deny)])
      else t
    case Fetch(dc) =>
      if dc in m.live then t.(calls := m.calls + [PollCall(dc, Fetched, m.clock, None)]) else t
    case ReadDenied(i, now) =>
      if i < |m.calls| && m.calls[i].phase == Fetched && m.calls[i].dc in m.records then
        var c := m.records[m.calls[i].dc];
        SetPhase(t, i, if now > c.expiresAt || c.denied then Refused else NotDenied)
      else t
    case ReadApproved(i) =>
      if i < |m.calls| && m.calls[i].phase == NotDenied && m.calls[i].dc in m.records then
        SetPhase(t, i, if m.records[m.calls[i].dc].approved then Issued else Refused)
      else t
    case Delete(i) =>
      if i < |m.calls| && m.calls[i].phase == Issued && m.calls[i].dc in m.records then
        var dc := m.calls[i].dc;
        t.(live := m.live - {dc}, byUser := m.byUser - {m.records[dc].userCode},
           calls := m.calls[i := m.calls[i].(phase := Deleted, deletedAt := Some(m.clock))])
      else t
    case Sweep(now) =>
      var expired := set dc | dc in m.live && dc in m.records && now > m.records[dc].expiresAt;
      t.(live := m.live - expired,
         byUser := m.byUser - (set dc | dc in expired && dc in m.records :: m.records[dc].userCode))
  }

  function Acts(m: Machine, actions: seq<Action>): Machine
    decreases |actions|
  {
    if actions == [] then m else Act(Acts(m, actions[..|actions| - 1]), actions[|actions| - 1])
  }

  /** The two indexes hold the same records: each user code names a live record that carries it, and conversely. */
  ghost predicate IndexesAgree(records: map<string, Code>, live: set<string>, byUser: map<string, string>) {
    && live <= records.Keys
    && (forall dc | dc in live :: records[dc].userCode in byUser && byUser[records[dc].userCode] == dc)
    && (forall uc | uc in byUser :: byUser[uc] in live && records[byUser[uc]].userCode == uc)
  }

  ghost predicate UserCodesUnique(records: map<string, Code>, userCodes: set<string>) {
    && (forall dc | dc in records :: records[dc].userCode in userCodes)
    && (forall a, b | a in records && b in records && records[a].userCode == records[b].userCode :: a == b)
  }

  predicate HasIssued(c: PollCall) {
    c.phase == Issued || c.phase == Deleted
  }

  /** A call that has deleted its code ended the code: whoever else holds it fetched it before. */
  ghost predicate CallsSound(calls: seq<PollCall>, live: set<string>, records: map<string, Code>, clock: nat) {
    && (forall i | 0 <= i < |calls| ::
          && calls[i].dc in records && calls[i].fetchedAt < clock
          && (calls[i].phase == Deleted <==> calls[i].deletedAt.Some?)
          && (calls[i].phase == Deleted ==> calls[i].dc !in live && calls[i].deletedAt.value < clock))
    && (forall i, j | 0 <= i < |calls| && 0 <= j < |calls| && calls[i].phase == Deleted && calls[j].dc == calls[i].dc ::
          calls[j].fetchedAt < calls[i].deletedAt.value)
  }

  ghost predicate MachineSound(m: Machine) {
    && IndexesAgree(m.records, m.live, m.byUser)
    && UserCodesUnique(m.records, m.userCodes)
    && CallsSound(m.calls, m.live, m.records, m.clock)
  }

  lemma NewKeepsIndexes(records: map<string, Code>, live: set<string>, byUser: map<string, string>, dc: string, c: Code)
    requires IndexesAgree(records, live, byUser) && dc !in records && c.userCode !in byUser
    ensures IndexesAgree(records[dc := c], live + {dc}, byUser[c.userCode := dc])
  {
  }

  lemma DroppingKeepsIndexes(m: Machine, gone: set<string>)
    requires IndexesAgree(m.records, m.live, m.byUser) && UserCodesUnique(m.records, m.userCodes)
    ensures IndexesAgree(m.records, m.live - gone,
                         m.byUser - (set dc | dc in gone && dc in m.records :: m.records[dc].userCode))
  {
  }

  lemma ActKeepsIndexes(m: Machine, a: Action)
    requires IndexesAgree(m.records, m.live, m.byUser) && UserCodesUnique(m.records, m.userCodes)
    ensures var m' := Act(m, a); IndexesAgree(m'.records, m'.live, m'.byUser)
  {
    match a
    case NewCode(dc, uc, clientId, scopes, now) =>
      if dc !in m.records && uc !in m.userCodes {
        NewKeepsIndexes(m.records, m.live, m.byUser, dc, Code(uc, clientId, scopes, now + TEN_MINUTES, false, false));
      }
    case Delete(i) =>
      if i < |m.calls| && m.calls[i].dc in m.records {
        var dc := m.calls[i].dc;
        DroppingKeepsIndexes(m, {dc});
        assert (set x | x in {dc} && x in m.records :: m.records[x].userCode) == {m.records[dc].userCode};
      }
    case Sweep(now) =>
      DroppingKeepsIndexes(m, set dc | dc in m.live && dc in m.records && now > m.records[dc].expiresAt);
    case _ =>
  }

  lemma ActKeepsUserCodes(m: Machine, a: Action)
    requires UserCodesUnique(m.records, m.userCodes)
    ensures UserCodesUnique(Act(m, a).records, Act(m, a).userCodes)
  {
  }

  /** Calls stay sound while records are added or rewritten and only new codes come alive. */
  lemma SameCallsStaySound(calls: seq<PollCall>, live: set<string>, records: map<string, Code>, clock: nat,
                           live': set<string>, records': map<string, Code>)
    requires CallsSound(calls, live, records, clock) && records.Keys <= records'.Keys
    requires forall dc | dc in live' && dc !in live :: dc !in records
    ensures CallsSound(calls, live', records', clock + 1)
  {
  }

  lemma FetchKeepsCalls(calls: seq<PollCall>, live: set<string>, records: map<string, Code>, clock: nat, dc: string)
    requires CallsSound(calls, live, records, clock) && dc in live && dc in records
    ensures CallsSound(calls + [PollCall(dc, Fetched, clock, None)], live, records, clock + 1)
  {
  }

  lemma PhaseKeepsCalls(calls: seq<PollCall>, live: set<string>, records: map<string, Code>, clock: nat,
                        i: nat, phase: Phase)
    requires CallsSound(calls, live, records, clock)
    requires i < |calls| && calls[i].phase != Deleted && phase != Deleted
    ensures CallsSound(calls[i := calls[i].(phase := phase)], live, records, clock + 1)
  {
  }

  lemma DeleteKeepsCalls(calls: seq<PollCall>, live: set<string>, records: map<string, Code>, clock: nat, i: nat)
    requires CallsSound(calls, live, records, clock) && i < |calls| && calls[i].phase != Deleted
    ensures CallsSound(calls[i := calls[i].(phase := Deleted, deletedAt := Some(clock))], live - {calls[i].dc},
                       records, clock + 1)
  {
  }

  lemma ActKeepsCalls(m: Machine, a: Action)
    requires m.live <= m.records.Keys && CallsSound(m.calls, m.live, m.records, m.clock)
    ensures var m' := Act(m, a); CallsSound(m'.calls, m'.live, m'.records, m'.clock)
  {
    var m' := Act(m, a);
    if m'.calls == m.calls {
      SameCallsStaySound(m.calls, m.live, m.records, m.clock, m'.live, m'.records);
    } else {
      match a
      case Fetch(dc) => FetchKeepsCalls(m.calls, m.live, m.records, m.clock, dc);
      case ReadDenied(i, now) =>
        PhaseKeepsCalls(m.calls, m.live, m.records, m.clock, i, m'.calls[i].phase);
      case ReadApproved(i) =>
        PhaseKeepsCalls(m.calls, m.live, m.records, m.clock, i, m'.calls[i].phase);
      case Delete(i) => DeleteKeepsCalls(m.calls, m.live, m.records, m.clock, i);
      case _ =>
    }
  }

  /** However polls overlap, the two indexes always hold the same records. */
  lemma {:induction false} IndexesAlwaysAgree(actions: seq<Action>)
    ensures MachineSound(Acts(IDLE, actions))
    decreases |actions|
  {
    if actions != [] {
      var m := Acts(IDLE, actions[..|actions| - 1]);
      IndexesAlwaysAgree(actions[..|actions| - 1]);
      ActKeepsIndexes(m, actions[|actions| - 1]);
      ActKeepsUserCodes(m, actions[|actions| - 1]);
      ActKeepsCalls(m, actions[|actions| - 1]);
    }
  }

  /** i had deleted its code before j fetched, or the other way round: the two calls did not overlap. */
  predicate Apart(a: PollCall, b: PollCall) {
    (a.deletedAt.Some? && a.deletedAt.value <= b.fetchedAt) || (b.deletedAt.Some? && b.deletedAt.value <= a.fetchedAt)
  }

  /** However polls overlap, two calls that both issue for one device code did overlap. */
  lemma IssuesTwiceOnlyIfOverlapping(actions: seq<Action>, i: nat, j: nat)
    requires i != j && i < |Acts(IDLE, actions).calls| && j < |Acts(IDLE, actions).calls|
    requires var calls := Acts(IDLE, actions).calls;
             HasIssued(calls[i]) && HasIssued(calls[j]) && calls[i].dc == calls[j].dc
    ensures !Apart(Acts(IDLE, actions).calls[i], Acts(IDLE, actions).calls[j])
  {
    IndexesAlwaysAgree(actions);
  }

  /** The steps of one poll up to its call of the issuer. */
  function UpToIssue(m: Machine, i: nat, now: int): Machine {
    Act(Act(m, ReadDenied(i, now)), ReadApproved(i))
  }

  /** Two polls fetch the code, and then both run up to the issuer. */
  function TwoPolls(m: Machine, dc: string, now: int): Machine {
    UpToIssue(UpToIssue(Act(Act(m, Fetch(dc)), Fetch(dc)), |m.calls|, now), |m.calls| + 1, now)
  }

  predicate CanPoll(m: Machine, dc: string, now: int) {
    && dc in m.live && dc in m.records
    && m.records[dc].approved && !m.records[dc].denied && now <= m.records[dc].expiresAt
  }

  predicate BothIssued(m: Machine, i: nat, dc: string) {
    && |m.calls| == i + 2 && m.calls[i].dc == dc == m.calls[i + 1].dc
    && m.calls[i].phase == Issued && m.calls[i + 1].phase == Issued
  }

  /**
    From any state with an approved, live, unexpired code, two overlapping polls do both issue: nothing
    stops the second between its fetch and the first one's delete.
  */
  lemma OverlappingPollsBothIssue(m: Machine, dc: string, now: int)
    requires CanPoll(m, dc, now)
    ensures BothIssued(TwoPolls(m, dc, now), |m.calls|, dc)
  {
    var i := |m.calls|;
    var m2 := Act(Act(m, Fetch(dc)), Fetch(dc));
    assert m2.calls == m.calls + [PollCall(dc, Fetched, m.clock, None), PollCall(dc, Fetched, m.clock + 1, None)];
    ApprovedGoesThrough(m2, i, now);
    ApprovedGoesThrough(UpToIssue(m2, i, now), i + 1, now);
  }

  lemma ApprovedGoesThrough(m: Machine, i: nat, now: int)
    requires i < |m.calls| && m.calls[i].phase == Fetched && m.calls[i].dc in m.records
    requires var c := m.records[m.calls[i].dc]; c.approved && !c.denied && now <= c.expiresAt
    ensures var m' := UpToIssue(m, i, now);
            m'.calls == m.calls[i := m.calls[i].(phase := Issued)] && m'.records == m.records && m'.live == m.live
  {
  }

  // ----- the two models agree -----

  /** Such a run from the start: one code, approved, and two polls that fetch it before either has deleted it. */
  const READY: seq<Action> := [] + [NewCode("device", "user", "client", [], 0)] + [UserDecides("user", false)]

  const FETCHED: seq<Action> := READY + [Fetch("device")] + [Fetch("device")]

  const OVERLAP: seq<Action> :=
    FETCHED + [ReadDenied(0, 0)] + [ReadApproved(0)] + [ReadDenied(1, 0)] + [ReadApproved(1)]

  lemma ActsMore(m: Machine, before: seq<Action>, a: Action)
    ensures Acts(m, before + [a]) == Act(Acts(m, before), a)
  {
    assert (before + [a])[..|before|] == before;
  }

  lemma ActsTwo(m: Machine, before: seq<Action>, a: Action, b: Action)
    ensures Acts(m, before + [a] + [b]) == Act(Act(Acts(m, before), a), b)
  {
    ActsMore(m, before, a);
    ActsMore(m, before + [a], b);
  }

  lemma ReadyToPoll()
    ensures var m := Acts(IDLE, READY);
            m.calls == [] && CanPoll(m, "device", 0)
  {
    ActsTwo(IDLE, [], NewCode("device", "user", "client", [], 0), UserDecides("user", false));
  }

  lemma OverlapUnfolds()
    ensures Acts(IDLE, OVERLAP) == TwoPolls(Acts(IDLE, READY), "device", 0)
  {
    ReadyToPoll();
    ActsTwo(IDLE, READY, Fetch("device"), Fetch("device"));
    ActsTwo(IDLE, FETCHED, ReadDenied(0, 0), ReadApproved(0));
    ActsTwo(IDLE, FETCHED + [ReadDenied(0, 0)] + [ReadApproved(0)], ReadDenied(1, 0), ReadApproved(1));
  }

  /** The failure is one that the handler can reach. */
  lemma OverlapIsReachable()
    ensures BothIssued(Acts(IDLE, OVERLAP), 0, "device")
  {
    OverlapUnfolds();
    ReadyThenBoth(Acts(IDLE, READY));
  }

  lemma ReadyThenBoth(m: Machine)
    requires m == Acts(IDLE, READY)
    ensures BothIssued(TwoPolls(m, "device", 0), 0, "device")
  {
    ReadyToPoll();
    OverlappingPollsBothIssue(m, "device", 0);
  }

  // ----- what an issuing call saw -----

  /** At step p the call read its record as not denied and in time. */
  ghost predicate SawUndenied(actions: seq<Action>, p: nat, i: nat, dc: string) {
    p < |actions| && actions[p].ReadDenied? && actions[p].call == i &&
    var records := Acts(IDLE, actions[..p]).records;
    dc in records && !records[dc].denied && actions[p].now <= records[dc].expiresAt
  }

  /** At step q the call read its record as approved. */
  ghost predicate SawApproved(actions: seq<Action>, q: nat, i: nat, dc: string) {
    q < |actions| && actions[q] == ReadApproved(i) &&
    var records := Acts(IDLE, actions[..q]).records;
    dc in records && records[dc].approved
  }

  lemma SawEarlier(actions: seq<Action>, n: nat, p: nat, i: nat, dc: string)
    requires n <= |actions|
    ensures SawUndenied(actions[..n], p, i, dc) ==> SawUndenied(actions, p, i, dc)
    ensures SawApproved(actions[..n], p, i, dc) ==> SawApproved(actions, p, i, dc)
  {
    if p < n {
      assert actions[..n][..p] == actions[..p];
    }
  }

  predicate Passed(c: PollCall) {
    c.phase == NotDenied || HasIssued(c)
  }

  /** The one action that lets a call pass its check for a denial, and the one that lets it issue. */
  lemma PassesAtReadDenied(m: Machine, a: Action, i: nat)
    requires i < |Act(m, a).calls| && Passed(Act(m, a).calls[i])
    ensures i < |m.calls| && Act(m, a).calls[i].dc == m.calls[i].dc
    ensures Passed(m.calls[i])
            || (a.ReadDenied? && a.call == i && m.calls[i].dc in m.records
                && !m.records[m.calls[i].dc].denied && a.now <= m.records[m.calls[i].dc].expiresAt)
  {
  }

  lemma IssuesAtReadApproved(m: Machine, a: Action, i: nat)
    requires i < |Act(m, a).calls| && HasIssued(Act(m, a).calls[i])
    ensures i < |m.calls| && Act(m, a).calls[i].dc == m.calls[i].dc
    ensures HasIssued(m.calls[i])
            || (a == ReadApproved(i) && Passed(m.calls[i]) && m.calls[i].dc in m.records
                && m.records[m.calls[i].dc].approved)
  {
  }

  lemma {:induction false} PassingCallSaw(actions: seq<Action>, i: nat) returns (p: nat)
    requires i < |Acts(IDLE, actions).calls| && Passed(Acts(IDLE, actions).calls[i])
    ensures SawUndenied(actions, p, i, Acts(IDLE, actions).calls[i].dc)
    decreases |actions|
  {
    var k := |actions| - 1;
    var m := Acts(IDLE, actions[..k]);
    PassesAtReadDenied(m, actions[k], i);
    if Passed(m.calls[i]) {
      p := PassingCallSaw(actions[..k], i);
      SawEarlier(actions, k, p, i, m.calls[i].dc);
    } else {
      p := k;
    }
  }

  /**
    However polls overlap, a call that issues had read its code first as not denied and in time, and at a
    later step as approved.
  */
  lemma {:induction false} IssuingCallSaw(actions: seq<Action>, i: nat) returns (p: nat, q: nat)
    requires i < |Acts(IDLE, actions).calls| && HasIssued(Acts(IDLE, actions).calls[i])
    ensures p < q
    ensures SawUndenied(actions, p, i, Acts(IDLE, actions).calls[i].dc)
    ensures SawApproved(actions, q, i, Acts(IDLE, actions).calls[i].dc)
    decreases |actions|
  {
    var k := |actions| - 1;
    var m := Acts(IDLE, actions[..k]);
    IssuesAtReadApproved(m, actions[k], i);
    if HasIssued(m.calls[i]) {
      p, q := IssuingCallSaw(actions[..k], i);
      SawEarlier(actions, k, q, i, m.calls[i].dc);
    } else {
      p := PassingCallSaw(actions[..k], i);
      q := k;
    }
    SawEarlier(actions, k, p, i, m.calls[i].dc);
  }

  // ----- when a stored denial is honoured -----

  ghost predicate CanIssue(m: Machine, i: nat) {
    exists later :: i < |Acts(m, later).calls| && HasIssued(Acts(m, later).calls[i])
  }

  /** The call has its check for a denial still ahead, or failed it, and its code is denied. */
  predicate Stuck(m: Machine, i: nat) {
    && i < |m.calls| && (m.calls[i].phase == Fetched || m.calls[i].phase == Refused)
    && m.calls[i].dc in m.records && m.records[m.calls[i].dc].denied
  }

  lemma {:induction false} StaysStuck(m: Machine, i: nat, later: seq<Action>)
    requires Stuck(m, i)
    ensures Stuck(Acts(m, later), i)
    decreases |later|
  {
    if later != [] {
      StaysStuck(m, i, later[..|later| - 1]);
    }
  }

  /** Storing a denial stops exactly the calls that had not yet passed their check for one. */
  lemma DenialStopsExactlyWhen(m: Machine, uc: string, i: nat)
    requires MachineSound(m) && uc in m.byUser && i < |m.calls| && m.calls[i].dc == m.byUser[uc]
    ensures !CanIssue(Act(m, UserDecides(uc, true)), i) <==>
            m.calls[i].phase == Fetched || m.calls[i].phase == Refused
  {
    var m' := Act(m, UserDecides(uc, true));
    if m.calls[i].phase == Fetched || m.calls[i].phase == Refused {
      forall later ensures !(i < |Acts(m', later).calls| && HasIssued(Acts(m', later).calls[i])) {
        StaysStuck(m', i, later);
      }
    } else if m.calls[i].phase == NotDenied {
      IssuesAfterTwo(m', UserDecides(uc, false), ReadApproved(i), i);
    } else {
      assert HasIssued(Acts(m', []).calls[i]);
    }
  }

  lemma IssuesAfterTwo(m: Machine, a: Action, b: Action, i: nat)
    requires i < |Act(Act(m, a), b).calls| && HasIssued(Act(Act(m, a), b).calls[i])
    ensures CanIssue(m, i)
  {
    ActsTwo(m, [], a, b);
    assert Acts(m, [] + [a] + [b]) == Act(Act(m, a), b);
  }

  function Indexed(m: Machine): Store {
    Store(map dc | dc in m.live && dc in m.records :: m.records[dc], m.byUser)
  }

  /** A poll whose four steps are not interrupted is the handler's poll. */
  lemma UninterruptedPoll(m: Machine, dc: string, now: int)
    requires IndexesAgree(m.records, m.live, m.byUser)
    ensures var i := |m.calls|;
            var m' := Act(Act(Act(Act(m, Fetch(dc)), ReadDenied(i, now)), ReadApproved(i)), Delete(i));
            && Indexed(m') == Polled(Indexed(m), dc, now).0
            && (Polled(Indexed(m), dc, now).1.Issue? <==> i < |m'.calls| && m'.calls[i].phase == Deleted)
  {
    var i := |m.calls|;
    var m1 := Act(m, Fetch(dc));
    if dc in m.live {
      assert m1.calls[i] == PollCall(dc, Fetched, m.clock, None);
    } else {
      assert m1.calls == m.calls;
    }
  }
}
