/** What a written policy means for a request: which attributes it reads, and what it decides. */
module CedarMeaning {
  import opened Text
  import opened Substrings
  import opened CedarEngine
  import opened CedarGlob
  import opened CedarParser
  import opened CedarConditions
  import opened CedarPrinter
  import opened CedarRoundTrip
  import opened CedarTail

  // ----- what a field reads -----

  function ValueOf(attributes: map<string, string>, k: string): string {
    if k in attributes then attributes[k] else ""
  }

  /** The value that a field stands for: the attribute after the dot, or the first of action, principal and resource. */
  ghost predicate Reads(field: string, req: Request, x: string) {
    || (exists k :: field == "principal." + k && x == ValueOf(req.principal, k))
    || (exists k :: field == "resource." + k && x == ValueOf(req.resource, k))
    || (exists k :: field == "action." + k && x == req.action)
    || (exists scope, k :: Unscoped(scope) && field == scope + "." + k && x == "")
    || ('.' !in field && x == if field == "action" then req.action
                              else if field in req.principal then req.principal[field]
                              else ValueOf(req.resource, field))
  }

  predicate Unscoped(scope: string) {
    '.' !in scope && scope != "principal" && scope != "resource" && scope != "action"
  }

  lemma DottedField(scope: string, k: string)
    requires '.' !in scope
    ensures SplitN(scope + "." + k, ".", 2) == [scope, k]
  {
    IndexOfChar(scope, '.', k);
    var s := scope + "." + k;
    assert s[..|scope|] == scope && s[|scope| + 1..] == k;
  }

  lemma ScopeReads(scope: string, k: string, req: Request)
    requires '.' !in scope
    ensures ResolveField(scope + "." + k, req) ==
            if scope == "principal" then ValueOf(req.principal, k)
            else if scope == "resource" then ValueOf(req.resource, k)
            else if scope == "action" then req.action else ""
  {
    DottedField(scope, k);
  }

  lemma PrincipalReads(k: string, req: Request)
    ensures ResolveField("principal." + k, req) == ValueOf(req.principal, k)
  {
    ScopeReads("principal", k, req);
    assert "principal" + "." == "principal.";
  }

  lemma ResourceReads(k: string, req: Request)
    ensures ResolveField("resource." + k, req) == ValueOf(req.resource, k)
  {
    ScopeReads("resource", k, req);
    assert "resource" + "." == "resource.";
  }

  lemma ActionReads(k: string, req: Request)
    ensures ResolveField("action." + k, req) == req.action
  {
    ScopeReads("action", k, req);
    assert "action" + "." == "action.";
  }

  lemma ReadIsResolved(field: string, req: Request, x: string)
    requires Reads(field, req, x)
    ensures ResolveField(field, req) == x
  {
    if '.' !in field && x == (if field == "action" then req.action
                              else if field in req.principal then req.principal[field]
                              else ValueOf(req.resource, field)) {
      NoIndexOfChar(field, '.');
    } else if scope, k :| Unscoped(scope) && field == scope + "." + k && x == "" {
      ScopeReads(scope, k, req);
    } else if k :| field == "principal." + k && x == ValueOf(req.principal, k) {
      PrincipalReads(k, req);
    } else if k :| field == "resource." + k && x == ValueOf(req.resource, k) {
      ResourceReads(k, req);
    } else {
      var k :| field == "action." + k && x == req.action;
      ActionReads(k, req);
    }
  }

  /** Every field reads something. */
  lemma EveryFieldReads(field: string, req: Request) returns (x: string)
    ensures Reads(field, req, x)
  {
    var i := Index(field, ".");
    if i < 0 {
      NoDot(field);
      x := if field == "action" then req.action
           else if field in req.principal then req.principal[field]
           else ValueOf(req.resource, field);
    } else {
      var scope, k := field[..i], field[i + 1..];
      Cut(field, ".", i);
      DotsAfter(field, i);
      x := if scope == "principal" then ValueOf(req.principal, k)
           else if scope == "resource" then ValueOf(req.resource, k)
           else if scope == "action" then req.action else "";
      assert "principal" + "." == "principal." && "resource" + "." == "resource." && "action" + "." == "action.";
    }
  }

  lemma NoDot(s: string)
    requires Index(s, ".") < 0
    ensures '.' !in s
  {
    forall i | 0 <= i < |s| ensures s[i] != '.' {
      AtChar(s, '.', i);
    }
  }

  lemma DotsAfter(s: string, i: nat)
    requires i == Index(s, ".") && i < |s|
    ensures '.' !in s[..i]
  {
    forall j | 0 <= j < i ensures s[j] != '.' {
      AtChar(s, '.', j);
    }
  }

  // ----- what a condition asks -----

  lemma {:induction false} TrimRightSplits(s: string)
    ensures |TrimRight(s)| <= |s| && s == TrimRight(s) + s[|TrimRight(s)|..] && Blank(s[|TrimRight(s)|..])
  {
    if s != "" && IsSpace(s[|s| - 1]) {
      var before := s[..|s| - 1];
      TrimRightSplits(before);
      assert s[|TrimRight(s)|..] == before[|TrimRight(s)|..] + [s[|s| - 1]];
    }
  }

  lemma {:induction false} TrimRightBlank(s: string, gap: string)
    requires Blank(gap)
    ensures TrimRight(s + gap) == TrimRight(s)
    decreases |gap|
  {
    if gap == "" {
      assert s + gap == s;
    } else {
      var k := |gap| - 1;
      assert (s + gap)[..|s + gap| - 1] == s + gap[..k];
      TrimRightBlank(s, gap[..k]);
    }
  }

  /** The text is x with space around it, and x has none at its ends. */
  ghost predicate Padded(s: string, x: string) {
    Trimmed(x) && exists g, h :: Blank(g) && Blank(h) && s == g + x + h
  }

  lemma TrimmedExactlyWhen(s: string, x: string)
    ensures TrimSpace(s) == x <==> Padded(s, x)
  {
    var left := TrimLeft(s);
    if TrimSpace(s) == x {
      TrimSpaceShortens(s);
      TrimLeftSplits(s);
      TrimRightSplits(left);
      var g, h := s[..|s| - |left|], left[|x|..];
      assert Blank(g) && Blank(h) && s == g + x + h;
    }
    if Padded(s, x) {
      var g, h :| Blank(g) && Blank(h) && s == g + x + h;
      PaddingTrims(g, x, h);
    }
  }

  lemma PaddingTrims(g: string, x: string, h: string)
    requires Blank(g) && Blank(h) && Trimmed(x)
    ensures TrimSpace(g + x + h) == x
  {
    assert g + x + h == g + (x + h);
    TrimLeftBlank(g, x + h);
    if x == "" {
      TrimLeftBlank(h, "");
      assert h + "" == h && x + h == h;
    } else {
      assert TrimLeft(x + h) == x + h;
      TrimRightBlank(x, h);
    }
  }

  /** One of the items of a comma-separated list. */
  ghost predicate ListHas(list: string, x: string) {
    exists items: seq<string>, i :: IsList(items, list) && 0 <= i < |items| && Padded(items[i], x)
  }

  predicate IsList(items: seq<string>, list: string) {
    items != [] && (forall i | 0 <= i < |items| :: ',' !in items[i]) && list == Join(items, ",")
  }

  /** What the condition demands of the value it reads.  An operator other than these four is never satisfied. */
  ghost predicate Satisfies(x: string, op: string, v: string) {
    || (op == "==" && x == v)
    || (op == "!=" && x != v)
    || (op == "contains" && exists a, b :: x == a + v + b)
    || (op == "in" && ListHas(v, x))
  }

  lemma ContainsExactlyWhen(s: string, sub: string)
    ensures Contains(s, sub) <==> exists a, b :: s == a + sub + b
  {
    if Contains(s, sub) {
      Cut(s, sub, Index(s, sub));
    }
    if a, b :| s == a + sub + b {
      assert s[|a|..|a| + |sub|] == sub;
      OccurrenceIn(s, sub, |a|);
    }
  }

  lemma SplitIsList(list: string)
    ensures IsList(Split(list, ","), list)
  {
    JoinSplit(list, ",");
    SplitParts(list, ",");
    var items := Split(list, ",");
    forall i | 0 <= i < |items| ensures ',' !in items[i] {
      assert PartOf(items[i], list, ",");
      NoComma(items[i]);
    }
  }

  lemma NoComma(s: string)
    requires !Contains(s, ",")
    ensures ',' !in s
  {
    forall i | 0 <= i < |s| ensures s[i] != ',' {
      AtChar(s, ',', i);
    }
  }

  lemma ListedExactlyWhen(x: string, list: string)
    ensures Listed(x, list) <==> ListHas(list, x)
  {
    if Listed(x, list) {
      var items := Split(list, ",");
      var i :| 0 <= i < |items| && TrimSpace(items[i]) == x;
      SplitIsList(list);
      TrimmedExactlyWhen(items[i], x);
    }
    if ListHas(list, x) {
      var items: seq<string>, i :| IsList(items, list) && 0 <= i < |items| && Padded(items[i], x);
      SplitJoinChar(items, ',');
      TrimmedExactlyWhen(items[i], x);
      assert TrimSpace(Split(list, ",")[i]) == x;
    }
  }

  /** A condition holds exactly when the value that its field reads satisfies it. */
  lemma HoldsExactlyWhen(c: Condition, req: Request, x: string)
    requires Reads(c.field, req, x)
    ensures Holds(c, req) <==> Satisfies(x, c.op, c.value)
  {
    ReadIsResolved(c.field, req, x);
    ContainsExactlyWhen(x, c.value);
    ListedExactlyWhen(x, c.value);
  }

  // ----- the verdict on one condition -----

  function Only(id: string, effect: string, whens: seq<Condition>, unlesses: seq<Condition>): Policy {
    Policy(id, effect, ANY, ANY, ANY, whens, unlesses)
  }

  lemma OnlyApplies(id: string, effect: string, c: Condition, req: Request)
    ensures Applies(Only(id, effect, [c], []), req) <==> Holds(c, req)
    ensures Applies(Only(id, effect, [], [c]), req) <==> !Holds(c, req)
    ensures Applies(Only(id, effect, [], []), req)
  {
    assert Reached([c], 0);
    assert forall i: nat :: Reached([c], i) ==> i == 0;
  }

  lemma AllowedAlone(p: Policy, req: Request)
    requires p.effect != FORBID
    ensures Allowed([p], req) <==> Applies(p, req)
  {
    assert [p][0] == p;
    if Applies(p, req) {
      assert Permits([p][0], req);
    }
  }

  /**
    A lone permit with one condition, in `when` or in `unless`, and a forbid with one beside a permit of everything:
    each allows exactly as the value that the field reads demands.
  */
  lemma OneConditionVerdict(id: string, other: string, c: Condition, req: Request, x: string)
    requires Reads(c.field, req, x)
    ensures Allowed([Only(id, "permit", [c], [])], req) <==> Satisfies(x, c.op, c.value)
    ensures Allowed([Only(id, "permit", [], [c])], req) <==> !Satisfies(x, c.op, c.value)
    ensures Allowed([Only(other, "permit", [], [])] + [Only(id, "forbid", [c], [])], req) <==>
            !Satisfies(x, c.op, c.value)
  {
    HoldsExactlyWhen(c, req, x);
    OnlyApplies(id, "permit", c, req);
    OnlyApplies(id, "forbid", c, req);
    OnlyApplies(other, "permit", c, req);
    AllowedAlone(Only(id, "permit", [c], []), req);
    AllowedAlone(Only(id, "permit", [], [c]), req);
    AllowedAlone(Only(other, "permit", [], []), req);
    AddingPolicies([Only(other, "permit", [], [])], Only(id, "forbid", [c], []), req);
  }

  // ----- from the text to the verdict -----

  function When(keyword: string, field: string, op: string, v: string): string {
    "permit(*, *, *) " + keyword + " { " + field + " " + op + " \"" + v + "\" };"
  }

  lemma BlockPrinted(keyword: string, c: Condition)
    ensures PrintBlock(keyword, [c]) ==
            " " + keyword + (" {" + (" " + (c.field + " " + c.op + " \"" + c.value + "\"") + " ") + "}")
  {
    assert PrintBody([c]) == PrintPart(c);
  }

  lemma AnyTargetsPrinted(whens: seq<Condition>, unlesses: seq<Condition>, id: string)
    ensures PrintTargets(Only(id, "permit", whens, unlesses)) == "*" + ", " + "*" + ", " + "*"
  {
  }

  lemma Regrouped(keyword: string, inner: string)
    ensures "permit" + ("(" + ("*" + ", " + "*" + ", " + "*") + ")"
                        + ((" " + keyword + (" {" + (" " + inner + " ") + "}")) + ";")) ==
            "permit(*, *, *) " + keyword + " { " + inner + " };"
  {
  }

  lemma Flattened(keyword: string, field: string, op: string, v: string)
    ensures "permit(*, *, *) " + keyword + " { " + (field + " " + op + " \"" + v + "\"") + " };" ==
            When(keyword, field, op, v)
  {
  }

  lemma EmptyFirst(s: string)
    ensures "" + s == s
  {
  }

  lemma WhenIsPrinted(id: string, c: Condition)
    ensures Print(Only(id, "permit", [c], [])) == When("when", c.field, c.op, c.value)
    ensures Print(Only(id, "permit", [], [c])) == When("unless", c.field, c.op, c.value)
  {
    var inner := c.field + " " + c.op + " \"" + c.value + "\"";
    BlockPrinted("when", c);
    BlockPrinted("unless", c);
    AnyTargetsPrinted([c], [], id);
    AnyTargetsPrinted([], [c], id);
    Regrouped("when", inner);
    Regrouped("unless", inner);
    Flattened("when", c.field, c.op, c.value);
    Flattened("unless", c.field, c.op, c.value);
    EmptyFirst(";");
    EmptyFirst(PrintBlock("unless", [c]) + ";");
  }

  /**
    A written permit with one condition, parsed and then evaluated, allows exactly the requests whose value for the
    field satisfies it.  The field and value are such that the condition can be written at all.
  */
  lemma WrittenConditionMeans(id: string, c: Condition, req: Request, x: string)
    requires SafeCondition(c) && CondPrintable(c) && Reads(c.field, req, x)
    ensures var r := Parse(id, When("when", c.field, c.op, c.value));
            r.Ok? && (Allowed([r.value], req) <==> Satisfies(x, c.op, c.value))
    ensures var r := Parse(id, When("unless", c.field, c.op, c.value));
            r.Ok? && (Allowed([r.value], req) <==> !Satisfies(x, c.op, c.value))
  {
    var p, q := Only(id, "permit", [c], []), Only(id, "permit", [], [c]);
    WhenIsPrinted(id, c);
    UnconditionalPrints(id, ";");
    assert Printable(p) && Printable(q);
    RoundTripExactlyWhen(p);
    RoundTripExactlyWhen(q);
    OneConditionVerdict(id, id, c, req, x);
  }

  // ----- targets -----

  /** A written target matches as its stars mean, for all values, exactly when it is not empty and its pattern does. */
  lemma TargetMeansStarsExactlyWhen(text: string)
    ensures (forall value :: MatchesTarget(ParseMatch(text), value) <==> Stars(text, value))
            <==> text != "" && MeansStars(text)
  {
    GlobMeansStarsExactlyWhen(text);
    NotIn(text);
    if text == "" {
      assert Stars("", "") && !MatchesTarget(ParseMatch(""), "");
    } else {
      forall value ensures MatchesTarget(ParseMatch(text), value) <==> GlobMatch(text, value) {
      }
    }
  }

  function Targets(a: string, b: string, c: string): string {
    "permit(" + a + ", " + b + ", " + c + ");"
  }

  function Targeted(id: string, a: string, b: string, c: string): Policy {
    Policy(id, "permit", ParseMatch(a), ParseMatch(b), ParseMatch(c), [], [])
  }

  lemma TargetsPrinted(id: string, a: string, b: string, c: string)
    ensures Print(Targeted(id, a, b, c)) == Targets(a, b, c)
  {
    ParsedMatch(a);
    ParsedMatch(b);
    ParsedMatch(c);
    assert "(" + (a + ", " + b + ", " + c) + ")" + ("" + ("" + ";")) == "(" + a + ", " + b + ", " + c + ");";
  }

  ghost predicate Writable(target: string) {
    target != "" && Trimmed(target) && ')' !in target && MeansStars(target)
  }

  /**
    A written permit with three targets, parsed and then evaluated, allows exactly the requests whose principal has a
    `sub`, whose action and whose resource has an `index` that match them as their stars mean.
  */
  lemma WrittenTargetsMean(id: string, a: string, b: string, c: string, req: Request)
    requires Writable(a) && Writable(b) && Writable(c) && ',' !in a && ',' !in b
    ensures var r := Parse(id, Targets(a, b, c));
            r.Ok? && (Allowed([r.value], req) <==>
                      && Stars(a, ValueOf(req.principal, "sub")) && Stars(b, req.action)
                      && Stars(c, ValueOf(req.resource, "index")))
  {
    TargetsParse(id, a, b, c);
    AllowedAlone(Targeted(id, a, b, c), req);
    TargetMeansStarsExactlyWhen(a);
    TargetMeansStarsExactlyWhen(b);
    TargetMeansStarsExactlyWhen(c);
    NoConditions(id, a, b, c, req);
  }

  lemma TargetsParse(id: string, a: string, b: string, c: string)
    requires Writable(a) && Writable(b) && Writable(c) && ',' !in a && ',' !in b
    ensures Parse(id, Targets(a, b, c)) == Ok(Targeted(id, a, b, c))
  {
    ParsedMatch(a);
    ParsedMatch(b);
    ParsedMatch(c);
    TargetsPrinted(id, a, b, c);
    RoundTripExactlyWhen(Targeted(id, a, b, c));
  }

  lemma NoConditions(id: string, a: string, b: string, c: string, req: Request)
    ensures Applies(Targeted(id, a, b, c), req) <==>
            && MatchesTarget(ParseMatch(a), ValueOf(req.principal, "sub"))
            && MatchesTarget(ParseMatch(b), req.action)
            && MatchesTarget(ParseMatch(c), ValueOf(req.resource, "index"))
  {
  }
}
