/**
  What holds of every run of the token manager, under every interleaving of its events:
  rotation and reuse detection, linear lineages, scope attenuation, the absolute lifetime,
  and the permanence of revocation.
*/
module TokenTheorems {
  import opened TokenModel
  import opened TokenRuns

  // ----- runs -----

  lemma {:induction false} RunSplits(s: Sys, before: seq<Event>, after: seq<Event>)
    ensures RunFrom(s, before + after) == RunFrom(RunFrom(s, before), after)
    decreases |after|
  {
    if after == [] {
      assert before + after == before;
    } else {
      var k := |after| - 1;
      assert (before + after)[..|before + after| - 1] == before + after[..k];
      RunSplits(s, before, after[..k]);
    }
  }

  lemma InitialInv()
    ensures Inv(INITIAL)
  {
  }

  lemma ReachableInv(events: seq<Event>)
    ensures Inv(Run(events))
  {
    InitialInv();
    RunKeepsInv(INITIAL, events);
  }

  /** The history is append-only, and neither a redemption nor an issued identifier is ever forgotten. */
  ghost predicate Extends(s: Sys, s': Sys) {
    && s.ledger <= s'.ledger && s.redemptions <= s'.redemptions && s.issued <= s'.issued
    && (forall rt | rt in s.mgr.used :: rt in s'.mgr.used && s'.mgr.used[rt] == s.mgr.used[rt])
  }

  lemma StepExtends(s: Sys, e: Event)
    ensures Extends(s, Step(s, e))
  {
  }

  lemma {:induction false} RunExtends(s: Sys, events: seq<Event>)
    ensures Extends(s, RunFrom(s, events))
    decreases |events|
  {
    if events != [] {
      RunExtends(s, events[..|events| - 1]);
      StepExtends(RunFrom(s, events[..|events| - 1]), events[|events| - 1]);
    }
  }

  // ----- lineages -----

  function Root(ledger: seq<Grant>, i: nat): (r: nat)
    requires i < |ledger|
    ensures r <= i
    decreases i
  {
    if ledger[i].cause.Rotation? && ledger[i].cause.parent < i then Root(ledger, ledger[i].cause.parent) else i
  }

  /** d was obtained from a by zero or more rotations. */
  predicate Descends(ledger: seq<Grant>, a: nat, d: nat)
    requires d < |ledger|
    decreases d
  {
    a == d
    || (ledger[d].cause.Rotation? && ledger[d].cause.parent < d && Descends(ledger, a, ledger[d].cause.parent))
  }

  lemma {:induction false} DescendsFromRoot(ledger: seq<Grant>, i: nat)
    requires i < |ledger|
    ensures Descends(ledger, Root(ledger, i), i)
    ensures !(ledger[Root(ledger, i)].cause.Rotation? && ledger[Root(ledger, i)].cause.parent < Root(ledger, i))
    decreases i
  {
    if ledger[i].cause.Rotation? && ledger[i].cause.parent < i {
      DescendsFromRoot(ledger, ledger[i].cause.parent);
    }
  }

  /** A strict ancestor has a child on the way down. */
  lemma {:induction false} ChildTowards(ledger: seq<Grant>, a: nat, d: nat) returns (c: nat)
    requires d < |ledger| && Descends(ledger, a, d) && a != d
    ensures c <= d && a < c && ledger[c].cause == Rotation(a)
    decreases d
  {
    if ledger[d].cause.parent == a {
      c := d;
    } else {
      c := ChildTowards(ledger, a, ledger[d].cause.parent);
    }
  }

  /** Two grants of one lineage are one above the other, in mint order: the lineage never branches. */
  lemma {:induction false} LineageIsChain(ledger: seq<Grant>, used: map<string, string>, i: nat, j: nat)
    requires RotationsSound(ledger, used)
    requires i <= j < |ledger| && Root(ledger, i) == Root(ledger, j)
    ensures Descends(ledger, i, j)
    decreases j
  {
    if i < j {
      DescendsFromRoot(ledger, i);
      DescendsFromRoot(ledger, j);
      assert ledger[j].cause.Rotation? && ledger[j].cause.parent < j;
      var p := ledger[j].cause.parent;
      if i <= p {
        LineageIsChain(ledger, used, i, p);
      } else {
        LineageIsChain(ledger, used, p, i);
        var c := ChildTowards(ledger, p, i);
        assert false;
      }
    }
  }

  /** A grant with a descendant has been redeemed. */
  lemma AncestorIsRedeemed(s: Sys, a: nat, d: nat)
    requires Inv(s) && a < d < |s.ledger| && Descends(s.ledger, a, d)
    ensures s.ledger[a].refreshToken in s.mgr.used
  {
    var c := ChildTowards(s.ledger, a, d);
    assert RotationSound(s.ledger, s.mgr.used, c);
  }

  // ----- redemption and reuse -----

  predicate Redeems(s: Sys, e: Event) {
    e.Redeem? && Consume(s.mgr, e.rt, e.clientId, e.at).1.Redeemed?
  }

  /** A refresh token is redeemed at most once: any later attempt, whatever happened in between, is a reuse. */
  lemma RedeemedAtMostOnce(events: seq<Event>, i: nat, j: nat)
    requires i < j < |events|
    requires Redeems(Run(events[..i]), events[i])
    requires events[j].Redeem? && events[j].rt == events[i].rt
    ensures Consume(Run(events[..j]).mgr, events[j].rt, events[j].clientId, events[j].at).1 == Reuse
    ensures !Redeems(Run(events[..j]), events[j])
  {
    var s := Run(events[..i]);
    assert events[..i + 1][..i] == events[..i];
    var s1 := Run(events[..i + 1]);
    assert s1 == Step(s, events[i]);
    assert events[i].rt in s1.mgr.used;
    assert events[..j] == events[..i + 1] + events[i + 1..j];
    RunSplits(INITIAL, events[..i + 1], events[i + 1..j]);
    RunExtends(s1, events[i + 1..j]);
  }

  /**
    Replaying a redeemed refresh token, at any later point and by any authenticated client: nothing
    is granted, every stored token of the client it was issued to is revoked by that very step, and
    no other token changes.
  */
  lemma ReplayRevokesTheClient(events: seq<Event>, k: nat, clientId: string, now: Readings)
    requires k < |Run(events).redemptions|
    ensures var s := Run(events);
            var r := s.redemptions[k];
            var s' := Step(s, Redeem(r.refreshToken, clientId, now));
            && r.grant < |s.ledger|
            && s'.redemptions == s.redemptions && s'.pending == s.pending && s'.ledger == s.ledger
            && s'.mgr.refresh == s.mgr.refresh && s'.mgr.tokens.Keys == s.mgr.tokens.Keys
            && forall id | id in s.mgr.tokens ::
                 s'.mgr.tokens[id] ==
                 if s.mgr.tokens[id].clientId == s.ledger[r.grant].clientId
                 then s.mgr.tokens[id].(revoked := true) else s.mgr.tokens[id]
  {
    ReachableInv(events);
    var s := Run(events);
    assert RedemptionSound(s.redemptions[k], s.ledger, s.mgr.used);
    FamilyIsTheClient(s.mgr, s.ledger[s.redemptions[k].grant].clientId, s.issued);
  }

  /** Of the tokens of one lineage that are stored, at most one is not revoked. */
  lemma AtMostOneUnrevokedPerLineage(events: seq<Event>, a: string, b: string)
    requires var m := Run(events).mgr;
             a in m.tokens && b in m.tokens && !m.tokens[a].revoked && !m.tokens[b].revoked
    ensures var s := Run(events);
            && a in s.position && s.position[a] < |s.ledger| && b in s.position && s.position[b] < |s.ledger|
            && (Root(s.ledger, s.position[a]) == Root(s.ledger, s.position[b]) ==> a == b)
  {
    ReachableInv(events);
    var s := Run(events);
    var i, j := s.position[a], s.position[b];
    if Root(s.ledger, i) == Root(s.ledger, j) && a != b {
      assert s.ledger[i].id == a && s.ledger[j].id == b;
      var lo, hi := if i < j then i else j, if i < j then j else i;
      LineageIsChain(s.ledger, s.mgr.used, lo, hi);
      AncestorIsRedeemed(s, lo, hi);
    }
  }

  /** Between the two steps of a refresh, the lineage it rotates has no unrevoked token at all. */
  lemma PendingLineageIsRevoked(events: seq<Event>, call: nat, id: string)
    requires var s := Run(events);
             call in s.pending && s.pending[call].cause.Rotation? && id in s.mgr.tokens
    ensures var s := Run(events);
            && s.pending[call].cause.parent < |s.ledger| && id in s.position && s.position[id] < |s.ledger|
            && (Root(s.ledger, s.position[id]) == Root(s.ledger, s.pending[call].cause.parent)
                ==> s.mgr.tokens[id].revoked)
  {
    ReachableInv(events);
    var s := Run(events);
    var i, g := s.position[id], s.pending[call].cause.parent;
    assert CallSound(s.pending[call], s.ledger, s.mgr.used);
    if Root(s.ledger, i) == Root(s.ledger, g) && i != g {
      var lo, hi := if i < g then i else g, if i < g then g else i;
      LineageIsChain(s.ledger, s.mgr.used, lo, hi);
      if i < g {
        AncestorIsRedeemed(s, i, g);
      } else {
        var c := ChildTowards(s.ledger, g, i);
        assert false;
      }
    }
  }

  // ----- what a lineage hands down -----

  /** Along a chain of any length the client and the family start are unchanged and the scopes never grow. */
  lemma {:induction false} ChainHandsDown(s: Sys, a: nat, d: nat)
    requires Inv(s) && d < |s.ledger| && Descends(s.ledger, a, d)
    ensures a < |s.ledger|
    ensures HandsDown(s.ledger[a], s.ledger[d].clientId, s.ledger[d].scopes, s.ledger[d].familyCreatedAt)
    decreases d
  {
    if a != d {
      assert RotationSound(s.ledger, s.mgr.used, d);
      ChainHandsDown(s, a, s.ledger[d].cause.parent);
    }
  }

  lemma ScopesAttenuate(events: seq<Event>, a: nat, d: nat)
    requires d < |Run(events).ledger| && Descends(Run(events).ledger, a, d)
    ensures a < |Run(events).ledger|
    ensures forall x | x in Run(events).ledger[d].scopes :: x in Run(events).ledger[a].scopes
  {
    ReachableInv(events);
    ChainHandsDown(Run(events), a, d);
  }

  /** Every token descending from a client_credentials grant stays within what that client had registered. */
  lemma ScopesWithinRegistration(events: seq<Event>, i: nat)
    requires i < |Run(events).ledger|
    ensures var ledger := Run(events).ledger;
            var root := ledger[Root(ledger, i)];
            && !root.cause.Rotation?
            && (root.cause.Validated? && root.cause.allowed != [] ==>
                  forall x | x in ledger[i].scopes :: x in root.cause.allowed)
  {
    ReachableInv(events);
    var s := Run(events);
    DescendsFromRoot(s.ledger, i);
    ChainHandsDown(s, Root(s.ledger, i), i);
  }

  /** The scopes recorded as allowed are the client's registered scopes at the moment of validation. */
  lemma ValidationReadsRegistration(s: Sys, clientId: string, scopes: seq<string>)
    ensures var s' := Step(s, ValidateRoot(clientId, scopes));
            s' != s <==>
              && clientId in s.mgr.clients
              && (s.mgr.clients[clientId].scopes == []
                  || forall x | x in scopes :: x in s.mgr.clients[clientId].scopes)
              && s'.pending ==
                 s.pending[s.calls := Pending(clientId, scopes, 0, Validated(s.mgr.clients[clientId].scopes))]
              && s'.calls == s.calls + 1
  {
  }

  /** The family start that a lineage hands down is the creation of its root. */
  lemma StartOfLineage(s: Sys, g: nat)
    requires Inv(s) && g < |s.ledger|
    ensures s.ledger[g].familyCreatedAt == s.ledger[Root(s.ledger, g)].createdAt
  {
    DescendsFromRoot(s.ledger, g);
    ChainHandsDown(s, Root(s.ledger, g), g);
    RootIsNoRotation(s, g);
  }

  lemma ParentsAreEarlier(ledger: seq<Grant>, used: map<string, string>)
    requires RotationsSound(ledger, used)
    ensures forall i | 0 <= i < |ledger| && ledger[i].cause.Rotation? :: ledger[i].cause.parent < i
  {
    forall i: nat | i < |ledger| && ledger[i].cause.Rotation? ensures ledger[i].cause.parent < i {
      assert RotationSound(ledger, used, i);
    }
  }

  lemma RootIsNoRotation(s: Sys, g: nat)
    requires Inv(s) && g < |s.ledger|
    ensures !s.ledger[Root(s.ledger, g)].cause.Rotation?
  {
    DescendsFromRoot(s.ledger, g);
    ParentsAreEarlier(s.ledger, s.mgr.used);
  }

  /** The lifetimes that bound the redemption of the token minted at position g. */
  ghost predicate InTime(s: Sys, g: nat, rt: string, clientId: string, at: Readings) {
    && g < |s.ledger| && s.ledger[g].refreshToken == rt && s.ledger[g].clientId == clientId
    && at.second <= s.ledger[Root(s.ledger, g)].createdAt + s.mgr.refreshMaxLife
    && (s.ledger[g].refreshExpiresAt != 0 ==> at.first <= s.ledger[g].refreshExpiresAt)
  }

  lemma RedeemedInTime(s: Sys, rt: string, clientId: string, at: Readings)
    requires Inv(s) && Consume(s.mgr, rt, clientId, at).1.Redeemed?
    ensures rt in s.mgr.refresh && s.mgr.refresh[rt] in s.position
    ensures InTime(s, s.position[s.mgr.refresh[rt]], rt, clientId, at)
  {
    var id, g := RedeemedToken(s, rt, clientId, at);
    StartOfLineage(s, g);
  }

  /**
    Every accepted refresh happens within refreshMaxLife of the creation of the root of its lineage,
    however many rotations lie between them, and before the presented refresh token's own expiry.
  */
  lemma AbsoluteLifetime(events: seq<Event>, i: nat)
    requires i < |events| && Redeems(Run(events[..i]), events[i])
    ensures var s := Run(events[..i]);
            && events[i].rt in s.mgr.refresh && s.mgr.refresh[events[i].rt] in s.position
            && InTime(s, s.position[s.mgr.refresh[events[i].rt]], events[i].rt, events[i].clientId, events[i].at)
  {
    ReachableInv(events[..i]);
    RedeemedInTime(Run(events[..i]), events[i].rt, events[i].clientId, events[i].at);
  }

  // ----- revocation is permanent -----

  /** Issued, and either no longer stored or stored as revoked. */
  ghost predicate Gone(s: Sys, id: string) {
    id in s.issued && (id in s.mgr.tokens ==> s.mgr.tokens[id].revoked)
  }

  lemma StepKeepsGone(s: Sys, e: Event, id: string)
    requires Gone(s, id)
    ensures Gone(Step(s, e), id)
  {
    if Housekeeping(e) {
      HousekeepingOnlyLoses(s, e);
    } else if e.Redeem? && !Redeems(s, e) {
      FailedConsumeOnlyLoses(s.mgr, e.rt, e.clientId, e.at);
    }
  }

  lemma {:induction false} RevocationIsPermanent(s: Sys, events: seq<Event>, id: string)
    requires Gone(s, id)
    ensures Gone(RunFrom(s, events), id)
    ensures forall now :: !IsValid(RunFrom(s, events).mgr, id, now)
    decreases |events|
  {
    if events != [] {
      var k := |events| - 1;
      RevocationIsPermanent(s, events[..k], id);
      StepKeepsGone(RunFrom(s, events[..k]), events[k], id);
    }
  }
}
