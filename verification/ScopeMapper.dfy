/**
  Scope to backend-role resolution (internal/scope/mapper.go), and what it means for a
  refresh chain: the roles a token resolves to never grow.
*/
module ScopeMapper {
  import opened TokenRuns
  import opened TokenTheorems

  /** scope -> backend roles, in configuration order */
  type Mapping = map<string, seq<string>>

  /** All the roles the scopes lead to, in order, repetitions included. */
  function AllRoles(scopes: seq<string>, mapping: Mapping): seq<string> {
    if scopes == [] then []
    else
      var s := scopes[|scopes| - 1];
      AllRoles(scopes[..|scopes| - 1], mapping) + (if s in mapping then mapping[s] else [])
  }

  /** First occurrences only. */
  function Firsts(xs: seq<string>): (r: seq<string>)
    ensures forall x :: x in r <==> x in xs
    ensures forall i, j | 0 <= i < j < |r| :: r[i] != r[j]
  {
    if xs == [] then []
    else
      var rest := Firsts(xs[..|xs| - 1]);
      var x := xs[|xs| - 1];
      assert xs == xs[..|xs| - 1] + [x];
      if x in rest then rest else rest + [x]
  }

  /** The first occurrences are in the order in which they occur. */
  lemma {:induction false} FirstsInOrder(xs: seq<string>, i: nat, j: nat) returns (p: nat)
    requires i < j < |Firsts(xs)|
    ensures p < |xs| && xs[p] == Firsts(xs)[i] && Firsts(xs)[j] !in xs[..p + 1]
  {
    var n := |xs| - 1;
    var rest := Firsts(xs[..n]);
    if j < |rest| {
      p := FirstsInOrder(xs[..n], i, j);
      assert xs[..n][..p + 1] == xs[..p + 1];
    } else {
      assert rest[i] in xs[..n];
      p :| 0 <= p < n && xs[..n][p] == rest[i];
      assert xs[..p + 1] <= xs[..n];
    }
  }

  /** The roles of two lists of scopes are those of the first and then those of the second. */
  lemma {:induction false} AllRolesInOrder(before: seq<string>, after: seq<string>, mapping: Mapping)
    ensures AllRoles(before + after, mapping) == AllRoles(before, mapping) + AllRoles(after, mapping)
    decreases |after|
  {
    if after == [] {
      assert before + after == before;
    } else {
      var k := |after| - 1;
      assert (before + after)[..|before + after| - 1] == before + after[..k];
      AllRolesInOrder(before, after[..k], mapping);
      Regrouped(AllRoles(before, mapping), AllRoles(after[..k], mapping),
                if after[k] in mapping then mapping[after[k]] else []);
    }
  }

  lemma Regrouped(a: seq<string>, b: seq<string>, c: seq<string>)
    ensures a + b + c == a + (b + c)
  {
  }

  lemma RolesOfOne(s: string, mapping: Mapping)
    ensures AllRoles([s], mapping) == if s in mapping then mapping[s] else []
  {
    assert [s][..0] == [];
  }

  lemma FirstsOfOneMore(met: seq<string>, backend: seq<string>, j: nat)
    requires j < |backend|
    ensures Firsts(met + backend[..j + 1]) ==
            var rest := Firsts(met + backend[..j]);
            if backend[j] in rest then rest else rest + [backend[j]]
  {
    assert (met + backend[..j + 1])[..|met| + j] == met + backend[..j];
  }

  lemma {:induction false} AllRolesAre(scopes: seq<string>, mapping: Mapping, role: string)
    ensures role in AllRoles(scopes, mapping) <==> exists s | s in scopes :: s in mapping && role in mapping[s]
  {
    if scopes != [] {
      var k := |scopes| - 1;
      AllRolesAre(scopes[..k], mapping, role);
      assert scopes == scopes[..k] + [scopes[k]];
      assert forall s :: s in scopes <==> s in scopes[..k] || s == scopes[k];
    }
  }

  class Mapper {
    const global: Mapping
    const tenants: map<string, Mapping>  // issuer -> mapping, only for tenants that map something

    constructor (global: Mapping, tenants: map<string, Mapping>)
      ensures this.global == global
      ensures this.tenants == map i | i in tenants && tenants[i] != map[] :: tenants[i]
    {
      this.global := global;
      this.tenants := map i | i in tenants && |tenants[i]| > 0 :: tenants[i];
    }

    function MappingFor(issuer: string): Mapping {
      if issuer in tenants then tenants[issuer] else global
    }

    /** The roles of an issuer's mapping that some scope leads to, each once, in order of first occurrence. */
    method MapForIssuer(issuer: string, scopes: seq<string>) returns (roles: seq<string>)
      ensures roles == Firsts(AllRoles(scopes, MappingFor(issuer)))
      ensures var mapping := if issuer in tenants then tenants[issuer] else global;
              forall r :: r in roles <==> exists s | s in scopes :: s in mapping && r in mapping[s]
    {
      if issuer in tenants {
        roles := Resolve(scopes, tenants[issuer]);
      } else {
        roles := Resolve(scopes, global);
      }
      forall r ensures r in AllRoles(scopes, MappingFor(issuer)) <==>
                       exists s | s in scopes :: s in MappingFor(issuer) && r in MappingFor(issuer)[s] {
        AllRolesAre(scopes, MappingFor(issuer), r);
      }
    }

    method Resolve(scopes: seq<string>, mapping: Mapping) returns (roles: seq<string>)
      ensures roles == Firsts(AllRoles(scopes, mapping))
    {
      roles := [];
      var seen: set<string> := {};
      for i := 0 to |scopes|
        invariant roles == Firsts(AllRoles(scopes[..i], mapping))
        invariant forall r :: r in seen <==> r in roles
      {
        assert scopes[..i + 1][..i] == scopes[..i];
        if scopes[i] in mapping {
          roles, seen := AddNew(AllRoles(scopes[..i], mapping), roles, seen, mapping[scopes[i]]);
        } else {
          assert AllRoles(scopes[..i], mapping) + [] == AllRoles(scopes[..i], mapping);
        }
      }
      assert scopes[..|scopes|] == scopes;
    }

    /** The inner loop: the backend roles not seen before are appended. */
    static method AddNew(ghost met: seq<string>, roles0: seq<string>, seen0: set<string>, backend: seq<string>)
      returns (roles: seq<string>, seen: set<string>)
      requires roles0 == Firsts(met) && forall r :: r in seen0 <==> r in roles0
      ensures roles == Firsts(met + backend) && forall r :: r in seen <==> r in roles
    {
      roles, seen := roles0, seen0;
      assert met + backend[..0] == met;
      for j := 0 to |backend|
        invariant roles == Firsts(met + backend[..j])
        invariant forall r :: r in seen <==> r in roles
      {
        FirstsOfOneMore(met, backend, j);
        if backend[j] !in seen {
          roles := roles + [backend[j]];
          seen := seen + {backend[j]};
        }
      }
      assert backend[..|backend|] == backend;
    }
  }

  /** For a fixed mapping, the roles resolved along a refresh chain of any length never grow. */
  lemma RolesNeverGrow(events: seq<Event>, a: nat, d: nat, mapping: Mapping, role: string)
    requires d < |Run(events).ledger| && Descends(Run(events).ledger, a, d)
    ensures a < |Run(events).ledger|
    ensures role in Firsts(AllRoles(Run(events).ledger[d].scopes, mapping)) ==>
            role in Firsts(AllRoles(Run(events).ledger[a].scopes, mapping))
  {
    ScopesAttenuate(events, a, d);
    AllRolesAre(Run(events).ledger[d].scopes, mapping, role);
    AllRolesAre(Run(events).ledger[a].scopes, mapping, role);
  }
}
