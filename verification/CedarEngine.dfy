/** The policy engine: targets, conditions and forbid-overrides evaluation. */
module CedarEngine {
  import opened Text

  const PERMIT := "permit"
  const FORBID := "forbid"

  datatype Match = Match(any: bool, equals: string, pattern: string)

  datatype Condition = Condition(field: string, op: string, value: string)

  datatype Policy = Policy(
    id: string, effect: string,
    principal: Match, action: Match, resource: Match,
    whens: seq<Condition>, unlesses: seq<Condition>)

  datatype Request = Request(principal: map<string, string>, action: string, resource: map<string, string>)

  datatype Decision = Decision(allowed: bool, reason: string, policy: string)

  /** Reading a Go map: an absent key reads as the empty string. */
  function Get(m: map<string, string>, k: string): string {
    if k in m then m[k] else ""
  }

  // ----- targets -----

  function GlobMatch(pattern: string, value: string): bool {
    if pattern == "*" then true
    else if !Contains(pattern, "*") then pattern == value
    else
      var parts := Split(pattern, "*");
      |parts| == 2 && HasPrefix(value, parts[0]) && HasSuffix(value, parts[1])
  }

  function MatchesTarget(m: Match, value: string): bool {
    if m.any then true
    else if m.equals != "" then m.equals == value
    else if m.pattern != "" then GlobMatch(m.pattern, value)
    else false
  }

  /** What a star stands for: any text between the part before it and the part after it. */
  ghost predicate Wildcard(pre: string, suf: string, value: string) {
    exists mid :: value == pre + mid + suf
  }

  /** The end of the part before the star is also the beginning of the part after it. */
  ghost predicate Overlap(pre: string, suf: string, k: nat) {
    1 <= k <= |pre| && k <= |suf| && pre[|pre| - k..] == suf[..k]
  }

  lemma OneStar(pre: string, suf: string, value: string)
    requires '*' !in pre && '*' !in suf
    ensures GlobMatch(pre + "*" + suf, value) <==> HasPrefix(value, pre) && HasSuffix(value, suf)
  {
    var pattern := pre + "*" + suf;
    IndexOfChar(pre, '*', suf);
    NoIndexOfChar(suf, '*');
    assert pattern[..|pre|] == pre && pattern[|pre| + 1..] == suf;
    assert Split(suf, "*") == [suf];
    assert Split(pattern, "*") == [pre, suf];
    if pattern == "*" {
      assert pre == "" && suf == "";
    }
  }

  lemma SplitAround(pre: string, suf: string, value: string)
    ensures Wildcard(pre, suf, value) <==>
            HasPrefix(value, pre) && HasSuffix(value, suf) && |value| >= |pre| + |suf|
  {
    if HasPrefix(value, pre) && HasSuffix(value, suf) && |value| >= |pre| + |suf| {
      assert value == pre + value[|pre|..|value| - |suf|] + suf;
    }
    if Wildcard(pre, suf, value) {
      var mid :| value == pre + mid + suf;
      assert value[|value| - |suf|..] == suf;
    }
  }

  lemma OverlapMatches(pre: string, suf: string, k: nat)
    requires '*' !in pre && '*' !in suf && Overlap(pre, suf, k)
    ensures GlobMatch(pre + "*" + suf, pre + suf[k..]) && !Wildcard(pre, suf, pre + suf[k..])
  {
    var value := pre + suf[k..];
    OneStar(pre, suf, value);
    SplitAround(pre, suf, value);
    assert suf == suf[..k] + suf[k..];
    assert value == pre[..|pre| - k] + pre[|pre| - k..] + suf[k..];
    assert value[|value| - |suf|..] == suf;
  }

  lemma ShortMatchOverlaps(pre: string, suf: string, value: string)
    requires HasPrefix(value, pre) && HasSuffix(value, suf) && |value| < |pre| + |suf|
    ensures Overlap(pre, suf, |pre| + |suf| - |value|)
  {
    var k := |pre| + |suf| - |value|;
    forall i | 0 <= i < k ensures pre[|pre| - k + i] == suf[i] {
      assert pre[|pre| - k + i] == value[|pre| - k + i];
      assert suf[i] == value[|value| - |suf| + i];
    }
    assert pre[|pre| - k..] == suf[..k];
  }

  /**
   * The two halves of a one-star pattern are looked for apart from each other, so they may match overlapping text. The
   * pattern means what a star means, for every value, exactly when its halves cannot overlap.
   */
  lemma GlobIsWildcardExactlyWhen(pre: string, suf: string)
    requires '*' !in pre && '*' !in suf
    ensures (forall value :: GlobMatch(pre + "*" + suf, value) <==> Wildcard(pre, suf, value))
            <==> forall k :: !Overlap(pre, suf, k)
  {
    if k :| Overlap(pre, suf, k) {
      OverlapMatches(pre, suf, k);
    } else {
      forall value ensures GlobMatch(pre + "*" + suf, value) <==> Wildcard(pre, suf, value) {
        OneStar(pre, suf, value);
        SplitAround(pre, suf, value);
        if HasPrefix(value, pre) && HasSuffix(value, suf) && |value| < |pre| + |suf| {
          ShortMatchOverlaps(pre, suf, value);
          assert false;
        }
      }
    }
  }

  // ----- conditions -----

  function ResolveField(field: string, req: Request): string {
    var parts := SplitN(field, ".", 2);
    if |parts| == 1 then
      if field == "action" then req.action
      else if field in req.principal then req.principal[field]
      else if field in req.resource then req.resource[field]
      else ""
    else if parts[0] == "principal" then Get(req.principal, parts[1])
    else if parts[0] == "resource" then Get(req.resource, parts[1])
    else if parts[0] == "action" then req.action
    else ""
  }

  predicate Listed(value: string, list: string) {
    exists i | 0 <= i < |Split(list, ",")| :: TrimSpace(Split(list, ",")[i]) == value
  }

  /** What one condition asks of the request. An operator the engine does not know never holds. */
  predicate Holds(c: Condition, req: Request) {
    var value := ResolveField(c.field, req);
    match c.op
    case "==" => value == c.value
    case "!=" => value != c.value
    case "contains" => Contains(value, c.value)
    case "in" => Listed(value, c.value)
    case _ => false
  }

  /** The conditions that are looked at: those up to the first "in". */
  predicate Reached(conds: seq<Condition>, i: nat) {
    i < |conds| && forall j | 0 <= j < i :: conds[j].op != "in"
  }

  ghost predicate ReachedHold(conds: seq<Condition>, req: Request) {
    forall i: nat | Reached(conds, i) :: Holds(conds[i], req)
  }

  ghost predicate AllHold(conds: seq<Condition>, req: Request) {
    forall i | 0 <= i < |conds| :: Holds(conds[i], req)
  }

  method EvalConditions(conds: seq<Condition>, req: Request) returns (ok: bool)
    ensures ok <==> ReachedHold(conds, req)
  {
    for n := 0 to |conds|
      invariant forall i | 0 <= i < n :: Holds(conds[i], req) && conds[i].op != "in"
    {
      var c := conds[n];
      var value := ResolveField(c.field, req);
      assert Reached(conds, n);
      match c.op
      case "==" =>
        if value != c.value {
          return false;
        }
      case "!=" =>
        if value == c.value {
          return false;
        }
      case "contains" =>
        if !Contains(value, c.value) {
          return false;
        }
      case "in" =>
        var found := InList(value, c.value);
        if found {
          assert forall i: nat | Reached(conds, i) :: i <= n;
        }
        return found;
      case _ =>
        return false;
    }
    return true;
  }

  method InList(value: string, list: string) returns (found: bool)
    ensures found <==> Listed(value, list)
  {
    var items := Split(list, ",");
    for i := 0 to |items|
      invariant forall j | 0 <= j < i :: TrimSpace(items[j]) != value
    {
      if TrimSpace(items[i]) == value {
        return true;
      }
    }
    return false;
  }

  // ----- what ending the list at "in" costs -----

  predicate HasOps(conds: seq<Condition>, ops: seq<string>) {
    |conds| == |ops| && forall i | 0 <= i < |ops| :: conds[i].op == ops[i]
  }

  predicate Known(op: string) {
    op == "==" || op == "!=" || op == "contains" || op == "in"
  }

  /** An "in" that can be reached and has conditions after it. */
  predicate CutsOff(ops: seq<string>, k: nat) {
    k + 1 < |ops| && ops[k] == "in" && forall j | 0 <= j < k :: Known(ops[j])
  }

  lemma {:induction false} ReachedInBefore(conds: seq<Condition>, i: nat) returns (j: nat)
    requires i < |conds| && !Reached(conds, i)
    ensures j < i && conds[j].op == "in" && Reached(conds, j)
  {
    j :| j < i && conds[j].op == "in";
    if !Reached(conds, j) {
      j := ReachedInBefore(conds, j);
    }
  }

  lemma NoCutNoLoss(conds: seq<Condition>, ops: seq<string>, req: Request)
    requires HasOps(conds, ops) && forall k :: !CutsOff(ops, k)
    ensures ReachedHold(conds, req) <==> AllHold(conds, req)
  {
    if ReachedHold(conds, req) {
      forall i | 0 <= i < |conds| ensures Holds(conds[i], req) {
        if !Reached(conds, i) {
          var j := ReachedInBefore(conds, i);
          forall m | 0 <= m < j ensures Known(ops[m]) {
            assert Reached(conds, m);
          }
          assert CutsOff(ops, j);
        }
      }
    }
  }

  const PROBE := Request(map[], "a", map[])

  /** A condition with this operator that holds of the probe, and one that does not. */
  function Yes(op: string): Condition {
    Condition("action", op, if op == "==" || op == "in" then "a" else "")
  }

  function No(op: string): Condition {
    Condition("action", op, if op == "!=" then "a" else if op == "contains" then "b" else "")
  }

  lemma ProbeField()
    ensures ResolveField("action", PROBE) == "a"
    ensures Split("a", ",") == ["a"] && Split("", ",") == [""]
    ensures TrimSpace("a") == "a" && TrimSpace("") == ""
    ensures Contains("a", "") && !Contains("a", "b")
  {
    NoIndexOfChar("action", '.');
    assert At("a", "", 0);
    NoIndexOfChar("a", 'b');
    NoIndexOfChar("a", ',');
    NoIndexOfChar("", ',');
    TrimmedStays("a");
    TrimmedStays("");
  }

  lemma ProbeAnswers(op: string)
    ensures Known(op) ==> Holds(Yes(op), PROBE)
    ensures !Holds(No(op), PROBE)
  {
    ProbeField();
    assert TrimSpace(Split("a", ",")[0]) == "a";
  }

  function Probing(ops: seq<string>, k: nat): (conds: seq<Condition>)
    ensures HasOps(conds, ops)
    ensures forall i | 0 <= i < |ops| :: conds[i] == if i <= k then Yes(ops[i]) else No(ops[i])
  {
    seq(|ops|, i requires 0 <= i < |ops| => if i <= k then Yes(ops[i]) else No(ops[i]))
  }

  lemma CutLoses(ops: seq<string>, k: nat) returns (conds: seq<Condition>)
    requires CutsOff(ops, k)
    ensures HasOps(conds, ops) && ReachedHold(conds, PROBE) && !AllHold(conds, PROBE)
  {
    conds := Probing(ops, k);
    assert conds[k].op == "in";
    forall i: nat | Reached(conds, i) ensures Holds(conds[i], PROBE) {
      ProbeAnswers(ops[i]);
    }
    ProbeAnswers(ops[k + 1]);
    assert !Holds(conds[k + 1], PROBE);
  }

  /**
   * A matching "in" ends the list, so what follows it is ignored. Whatever their fields and values, conditions with
   * these operators mean their conjunction exactly when no "in" that can be reached has a condition after it.
   */
  lemma ConjunctionExactlyWhen(ops: seq<string>)
    ensures (forall conds, req | HasOps(conds, ops) :: ReachedHold(conds, req) <==> AllHold(conds, req))
            <==> forall k :: !CutsOff(ops, k)
  {
    if k :| CutsOff(ops, k) {
      var conds := CutLoses(ops, k);
    } else {
      forall conds, req | HasOps(conds, ops) ensures ReachedHold(conds, req) <==> AllHold(conds, req) {
        NoCutNoLoss(conds, ops, req);
      }
    }
  }

  // ----- evaluation -----

  ghost predicate Applies(p: Policy, req: Request) {
    && MatchesTarget(p.principal, Get(req.principal, "sub"))
    && MatchesTarget(p.action, req.action)
    && MatchesTarget(p.resource, Get(req.resource, "index"))
    && ReachedHold(p.whens, req)
    && !(p.unlesses != [] && ReachedHold(p.unlesses, req))
  }

  ghost predicate Forbids(p: Policy, req: Request) {
    p.effect == FORBID && Applies(p, req)
  }

  /** Any other effect acts as a permit. */
  ghost predicate Permits(p: Policy, req: Request) {
    p.effect != FORBID && Applies(p, req)
  }

  ghost predicate Allowed(policies: seq<Policy>, req: Request) {
    && (exists i | 0 <= i < |policies| :: Permits(policies[i], req))
    && (forall i | 0 <= i < |policies| :: !Forbids(policies[i], req))
  }

  ghost predicate FirstForbid(policies: seq<Policy>, req: Request, i: nat) {
    i < |policies| && Forbids(policies[i], req) && forall j | 0 <= j < i :: !Forbids(policies[j], req)
  }

  ghost predicate FirstPermit(policies: seq<Policy>, req: Request, i: nat) {
    i < |policies| && Permits(policies[i], req) && forall j | 0 <= j < i :: !Permits(policies[j], req)
  }

  /** The first policy in order with the given role names the decision. */
  ghost predicate DecidedBy(d: Decision, policies: seq<Policy>, req: Request) {
    if exists i | 0 <= i < |policies| :: Forbids(policies[i], req) then
      && d.reason == "denied by policy"
      && (exists i: nat | FirstForbid(policies, req, i) :: d.policy == policies[i].id)
    else if exists i | 0 <= i < |policies| :: Permits(policies[i], req) then
      && d.reason == "permitted"
      && (exists i: nat | FirstPermit(policies, req, i) :: d.policy == policies[i].id)
    else
      d.reason == "no matching permit policy" && d.policy == ""
  }

  /** The order of the policies does not matter to the verdict. */
  lemma OrderIsIrrelevant(a: seq<Policy>, b: seq<Policy>, req: Request)
    requires multiset(a) == multiset(b)
    ensures Allowed(a, req) <==> Allowed(b, req)
  {
    forall p ensures p in a <==> p in b {
      assert p in multiset(a) <==> p in multiset(b);
    }
    AllowedByMembers(a, req);
    AllowedByMembers(b, req);
  }

  lemma AllowedByMembers(policies: seq<Policy>, req: Request)
    ensures Allowed(policies, req) <==>
            (exists p | p in policies :: Permits(p, req)) && (forall p | p in policies :: !Forbids(p, req))
  {
    if p :| p in policies && Permits(p, req) {
      var i :| 0 <= i < |policies| && policies[i] == p;
      assert Permits(policies[i], req);
    }
    if p :| p in policies && Forbids(p, req) {
      var i :| 0 <= i < |policies| && policies[i] == p;
      assert Forbids(policies[i], req);
    }
    if i :| 0 <= i < |policies| && Permits(policies[i], req) {
      assert policies[i] in policies;
    }
    if i :| 0 <= i < |policies| && Forbids(policies[i], req) {
      assert policies[i] in policies;
    }
  }

  /** A new forbid takes away exactly the requests it applies to; a new permit adds those that nothing forbids. */
  lemma AddingPolicies(policies: seq<Policy>, p: Policy, req: Request)
    ensures p.effect == FORBID ==> (Allowed(policies + [p], req) <==> Allowed(policies, req) && !Applies(p, req))
    ensures p.effect != FORBID ==>
            (Allowed(policies + [p], req) <==>
             Allowed(policies, req)
             || (Applies(p, req) && forall i | 0 <= i < |policies| :: !Forbids(policies[i], req)))
  {
    var more := policies + [p];
    assert more[|policies|] == p;
    assert forall i | 0 <= i < |policies| :: more[i] == policies[i];
    AllowedByMembers(policies, req);
    AllowedByMembers(more, req);
    forall i | 0 <= i < |policies| ensures policies[i] in policies {}
  }

  // ----- changing the set of policies -----

  /** The first policy with this id, or the number of policies. */
  function First(policies: seq<Policy>, id: string): (k: nat)
    ensures k <= |policies|
    ensures forall j | 0 <= j < k :: policies[j].id != id
    ensures k < |policies| ==> policies[k].id == id
  {
    if policies == [] || policies[0].id == id then 0 else 1 + First(policies[1..], id)
  }

  function Without(policies: seq<Policy>, id: string): seq<Policy> {
    var k := First(policies, id);
    if k < |policies| then policies[..k] + policies[k + 1..] else policies
  }

  /**
   * Adding a policy and removing its id gives the policies back, and so every decision, exactly when every policy
   * from the first with that id on is the added one; in particular when the id was unused.
   */
  lemma AddRemoveRestoresExactlyWhen(policies: seq<Policy>, p: Policy)
    ensures Without(policies + [p], p.id) == policies
            <==> forall i | First(policies, p.id) <= i < |policies| :: policies[i] == p
  {
    var k := First(policies, p.id);
    FirstIs(policies + [p], p.id, k);
    var removed := (policies + [p])[..k] + (policies + [p])[k + 1..];
    assert Without(policies + [p], p.id) == removed;
    if removed == policies {
      ShiftedAllEqual(policies, p, k);
    }
    if forall i | k <= i < |policies| :: policies[i] == p {
      AllEqualShifted(policies, p, k);
    }
  }

  lemma AllEqualShifted(policies: seq<Policy>, p: Policy, k: nat)
    requires k <= |policies| && forall i | k <= i < |policies| :: policies[i] == p
    ensures (policies + [p])[..k] + (policies + [p])[k + 1..] == policies
  {
    var removed := (policies + [p])[..k] + (policies + [p])[k + 1..];
    assert |removed| == |policies|;
    assert forall i | 0 <= i < |policies| :: removed[i] == policies[i];
  }

  lemma FirstIs(policies: seq<Policy>, id: string, k: nat)
    requires k < |policies| && policies[k].id == id && forall j | 0 <= j < k :: policies[j].id != id
    ensures First(policies, id) == k
  {
  }

  lemma ShiftedAllEqual(policies: seq<Policy>, p: Policy, k: nat)
    requires k <= |policies| && (policies + [p])[..k] + (policies + [p])[k + 1..] == policies
    ensures forall i | k <= i < |policies| :: policies[i] == p
  {
    var more := policies + [p];
    var removed := more[..k] + more[k + 1..];
    var i := |policies|;
    while i > k
      invariant k <= i <= |policies|
      invariant forall j | i <= j < |policies| :: policies[j] == p
    {
      assert removed[i - 1] == more[i] == p;
      i := i - 1;
    }
  }

  class Engine {
    var policies: seq<Policy>

    constructor (initial: seq<Policy>)
      ensures policies == initial
    {
      policies := initial;
    }

    /** The loop stops at the first forbid that applies and remembers the first permit it passed. */
    method Evaluate(req: Request) returns (d: Decision)
      ensures d.allowed <==> Allowed(policies, req)
      ensures DecidedBy(d, policies, req)
    {
      var permitMatch := -1;
      for i := 0 to |policies|
        invariant -1 <= permitMatch < i
        invariant forall j | 0 <= j < i :: !Forbids(policies[j], req)
        invariant permitMatch >= 0 ==> Permits(policies[permitMatch], req)
        invariant forall j | 0 <= j < (if permitMatch >= 0 then permitMatch else i) :: !Permits(policies[j], req)
      {
        var p := policies[i];
        if !MatchesTarget(p.principal, Get(req.principal, "sub")) {
          continue;
        }
        if !MatchesTarget(p.action, req.action) {
          continue;
        }
        if !MatchesTarget(p.resource, Get(req.resource, "index")) {
          continue;
        }
        var whens := EvalConditions(p.whens, req);
        if !whens {
          continue;
        }
        if |p.unlesses| > 0 {
          var unlesses := EvalConditions(p.unlesses, req);
          if unlesses {
            continue;
          }
        }
        assert Applies(policies[i], req);
        if p.effect == FORBID {
          assert Forbids(policies[i], req);
          assert FirstForbid(policies, req, i);
          return Decision(false, "denied by policy", p.id);
        }
        if permitMatch < 0 {
          permitMatch := i;
        }
      }
      if permitMatch >= 0 {
        assert FirstPermit(policies, req, permitMatch);
        return Decision(true, "permitted", policies[permitMatch].id);
      }
      return Decision(false, "no matching permit policy", "");
    }

    method AddPolicy(p: Policy)
      modifies this
      ensures policies == old(policies) + [p]
    {
      policies := policies + [p];
    }

    method RemovePolicy(id: string) returns (found: bool)
      modifies this
      ensures policies == Without(old(policies), id)
      ensures found <==> exists i | 0 <= i < |old(policies)| :: old(policies)[i].id == id
    {
      for i := 0 to |policies|
        invariant policies == old(policies)
        invariant forall j | 0 <= j < i :: policies[j].id != id
      {
        if policies[i].id == id {
          FirstIs(policies, id, i);
          policies := policies[..i] + policies[i + 1..];
          return true;
        }
      }
      return false;
    }
  }
}
