/** Printing a policy in the documented format and parsing it back. */
module CedarPrinter {
  import opened Text
  import opened Substrings
  import opened CedarEngine
  import opened CedarParser
  import opened CedarConditions

  // ----- the printer -----

  function PrintMatch(m: Match): string {
    if m.any then "*" else if m.pattern != "" then m.pattern else m.equals
  }

  function PrintTargets(p: Policy): string {
    PrintMatch(p.principal) + ", " + PrintMatch(p.action) + ", " + PrintMatch(p.resource)
  }

  function PrintPart(c: Condition): string {
    " " + PrintCondition(c) + " "
  }

  function PrintParts(conds: seq<Condition>): (parts: seq<string>)
    ensures |parts| == |conds| && forall i | 0 <= i < |conds| :: parts[i] == PrintPart(conds[i])
  {
    seq(|conds|, i requires 0 <= i < |conds| => PrintPart(conds[i]))
  }

  function PrintBody(conds: seq<Condition>): string {
    Join(PrintParts(conds), "&&")
  }

  function PrintBlock(keyword: string, conds: seq<Condition>): string {
    if conds == [] then "" else " " + keyword + (" {" + PrintBody(conds) + "}")
  }

  /** effect(principal, action, resource) when { ... && ... } unless { ... && ... } and then whatever follows. */
  function PrintWith(p: Policy, tail: string): string {
    p.effect + ("(" + PrintTargets(p) + ")"
                + (PrintBlock("when", p.whens) + (PrintBlock("unless", p.unlesses) + tail)))
  }

  /** The documented format ends with a semicolon. */
  function Print(p: Policy): string {
    PrintWith(p, ";")
  }

  // ----- what can be printed -----

  predicate CanonicalMatch(m: Match) {
    if m.any then m.equals == "" && m.pattern == ""
    else if m.pattern != "" then m.equals == "" && Contains(m.pattern, "*") && m.pattern != "*"
    else !Contains(m.equals, "*")
  }

  predicate SafeTarget(m: Match) {
    CanonicalMatch(m) && Trimmed(PrintMatch(m)) && ')' !in PrintMatch(m)
  }

  /** Text that can stand inside a block without ending it or one of its parts. */
  predicate Clear(s: string) {
    '}' !in s && !Contains(s, "&&")
  }

  predicate SafeCondition(c: Condition) {
    Known(c.op) && Clear(c.field) && Clear(c.value)
  }

  predicate SafeConditions(conds: seq<Condition>) {
    forall i | 0 <= i < |conds| :: SafeCondition(conds[i])
  }

  /** The targets, fields and values keep clear of the delimiters of the grammar. */
  predicate Delimited(p: Policy) {
    && (p.effect == PERMIT || p.effect == FORBID)
    && SafeTarget(p.principal) && ',' !in PrintMatch(p.principal)
    && SafeTarget(p.action) && ',' !in PrintMatch(p.action)
    && SafeTarget(p.resource)
    && SafeConditions(p.whens) && SafeConditions(p.unlesses)
  }

  predicate AllPrintable(conds: seq<Condition>) {
    forall i | 0 <= i < |conds| :: CondPrintable(conds[i])
  }

  predicate Printable(p: Policy) {
    Delimited(p) && AllPrintable(p.whens) && AllPrintable(p.unlesses)
  }

  lemma MatchRoundTripExactlyWhen(m: Match)
    ensures ParseMatch(PrintMatch(m)) == m <==> CanonicalMatch(m)
  {
    ContainsSameLength("*", "*");
  }

  lemma ParsedMatch(s: string)
    ensures PrintMatch(ParseMatch(s)) == s && CanonicalMatch(ParseMatch(s))
  {
    ContainsSameLength("*", "*");
    ContainsSameLength("", "*");
  }

  // ----- the conditions of a block -----

  lemma {:induction false} TrimLeftTrailing(s: string)
    requires s != "" && !IsSpace(s[|s| - 1])
    ensures TrimLeft(s) != "" && TrimLeft(s)[|TrimLeft(s)| - 1] == s[|s| - 1]
    ensures TrimLeft(s + " ") == TrimLeft(s) + " "
  {
    assert (s + " ")[0] == s[0];
    if IsSpace(s[0]) {
      assert (s + " ")[1..] == s[1..] + " ";
      TrimLeftTrailing(s[1..]);
    }
  }

  lemma PartTrims(c: Condition)
    ensures TrimSpace(PrintPart(c)) == TrimSpace(PrintCondition(c)) != ""
  {
    var s := PrintCondition(c);
    assert s[|s| - 1] == '"';
    TrimLeftTrailing(s);
    var t := TrimLeft(s);
    assert (t + " ")[..|t + " "| - 1] == t;
    assert PrintPart(c) == " " + (s + " ");
    TrimLeadingSpace(s + " ");
  }

  /** Reading all the printed parts gives the conditions back exactly when each of them is printable. */
  lemma {:induction false} ReadAllExactlyWhen(conds: seq<Condition>)
    ensures ParseConditions(PrintParts(conds)) == Ok(conds) <==> AllPrintable(conds)
    ensures ParseConditions(PrintParts(conds)).Ok? ==> |ParseConditions(PrintParts(conds)).value| == |conds|
    decreases |conds|
  {
    if conds != [] {
      var before, last := conds[..|conds| - 1], conds[|conds| - 1];
      assert conds == before + [last];
      ReadAllExactlyWhen(before);
      ReadOneMore(before, last);
      ConditionRoundTripExactlyWhen(last);
    }
  }

  /** The last part is read after all the others have been. */
  lemma ReadOneMore(before: seq<Condition>, last: Condition)
    ensures ParseConditions(PrintParts(before + [last])) ==
            match ParseConditions(PrintParts(before))
            case Err(e) => Err(e)
            case Ok(cs) =>
              match ReadCondition(PrintCondition(last))
              case Err(e) => Err(e)
              case Ok(c) => Ok(cs + [c])
  {
    var parts := PrintParts(before + [last]);
    assert parts[..|parts| - 1] == PrintParts(before) && parts[|parts| - 1] == PrintPart(last);
    PartTrims(last);
  }

  // ----- the text of a block -----

  lemma ClearAcross(a: string, x: char, b: string)
    requires Clear(a) && Clear(b) && x != '}' && x != '&'
    ensures Clear(a + [x] + b)
  {
    ContainsAcross(a, x, b, "&&");
  }

  lemma PartShape(c: Condition)
    ensures PrintPart(c) ==
            ("" + [' '] + c.field) + [' '] + (((c.op + [' '] + "") + ['"'] + c.value) + ['"'] + ("" + [' '] + ""))
  {
  }

  lemma PartIsClear(c: Condition)
    requires SafeCondition(c)
    ensures Clear(PrintPart(c))
  {
    ContainsFirstChar(c.op, "&&");
    ContainsSameLength("", "&&");
    ClearAcross("", ' ', c.field);
    ClearAcross(c.op, ' ', "");
    ClearAcross(c.op + [' '] + "", '"', c.value);
    ClearAcross("", ' ', "");
    ClearAcross((c.op + [' '] + "") + ['"'] + c.value, '"', "" + [' '] + "");
    ClearAcross("" + [' '] + c.field, ' ', ((c.op + [' '] + "") + ['"'] + c.value) + ['"'] + ("" + [' '] + ""));
    PartShape(c);
  }

  /** A part that the separator can follow without being mistaken. */
  predicate PartOk(part: string) {
    part != "" && part[|part| - 1] == ' ' && !Contains(part, "&&")
  }

  lemma AmpAfter(part: string, rest: string)
    requires PartOk(part)
    ensures Index(part + "&&" + rest, "&&") == |part|
  {
    var s := part + "&&" + rest;
    forall j | 0 <= j < |part| ensures !At(s, "&&", j) {
      if j + 2 <= |part| {
        assert s[j..j + 2] == part[j..j + 2];
        assert !At(part, "&&", j);
      } else {
        assert s[j..j + 2][0] == ' ';
      }
    }
    assert s[|part|..|part| + 2] == "&&";
    IndexIs(s, "&&", |part|);
  }

  lemma SplitFirst(part: string, rest: string)
    requires PartOk(part)
    ensures Split(part + "&&" + rest, "&&") == [part] + Split(rest, "&&")
  {
    AmpAfter(part, rest);
    var s := part + "&&" + rest;
    assert s[..|part|] == part && s[|part| + 2..] == rest;
  }

  lemma {:induction false} SplitBody(parts: seq<string>)
    requires parts != [] && forall i | 0 <= i < |parts| :: PartOk(parts[i])
    ensures Split(Join(parts, "&&"), "&&") == parts
  {
    if |parts| == 1 {
      assert PartOk(parts[0]);
    } else {
      var first, others := parts[0], parts[1..];
      assert parts == [first] + others;
      SplitBody(others);
      SplitFirst(first, Join(others, "&&"));
    }
  }

  lemma {:induction false} JoinAvoids(parts: seq<string>, c: char, sep: string)
    requires c !in sep && forall i | 0 <= i < |parts| :: c !in parts[i]
    ensures c !in Join(parts, sep)
  {
    if |parts| > 1 {
      JoinAvoids(parts[1..], c, sep);
    }
  }

  lemma BodyIsClear(conds: seq<Condition>)
    requires conds != [] && SafeConditions(conds)
    ensures '}' !in PrintBody(conds) && Split(PrintBody(conds), "&&") == PrintParts(conds)
  {
    var parts := PrintParts(conds);
    forall i | 0 <= i < |parts|
      ensures PartOk(parts[i]) && '}' !in parts[i]
    {
      PartIsClear(conds[i]);
    }
    JoinAvoids(parts, '}', "&&");
    SplitBody(parts);
  }

  /** Nothing to trim at the end, as when the text ends with the semicolon. */
  predicate EndsSolid(s: string) {
    s != "" && !IsSpace(s[|s| - 1])
  }

  function ReadInto(conds: seq<Condition>, rest: string): Result<Block> {
    match ParseConditions(PrintParts(conds))
    case Err(e) => Err(e)
    case Ok(cs) => Ok(Block(cs, TrimSpace(rest)))
  }

  lemma BracesFound(body: string, rest: string)
    requires '}' !in body && EndsSolid(rest)
    ensures var s := "{" + body + "}" + rest;
            TrimSpace(" " + s) == s && HasPrefix(s, "{") && Index(s, "}") == |body| + 1
            && s[1..|body| + 1] == body && s[|body| + 2..] == rest
  {
    var s := "{" + body + "}" + rest;
    assert s[|s| - 1] == rest[|rest| - 1];
    TrimLeadingSpace(s);
    TrimmedStays(s);
    IndexOfChar("{" + body, '}', rest);
  }

  lemma BlockParses(conds: seq<Condition>, rest: string)
    requires conds != [] && SafeConditions(conds) && EndsSolid(rest)
    ensures ParseBlock(" {" + PrintBody(conds) + "}" + rest) == ReadInto(conds, rest)
  {
    var body := PrintBody(conds);
    BodyIsClear(conds);
    BracedBlockParses(body, rest);
    BracedText(body, rest);
  }

  lemma BracedText(body: string, rest: string)
    ensures " {" + body + "}" + rest == " " + ("{" + body + "}" + rest)
  {
  }

  lemma BracedBlockParses(body: string, rest: string)
    requires '}' !in body && EndsSolid(rest)
    ensures ParseBlock(" " + ("{" + body + "}" + rest)) ==
            match ParseConditions(Split(body, "&&"))
            case Err(e) => Err(e)
            case Ok(cs) => Ok(Block(cs, TrimSpace(rest)))
  {
    BracesFound(body, rest);
  }

  lemma SolidAfter(a: string, rest: string)
    requires EndsSolid(rest)
    ensures EndsSolid(a + rest)
  {
    assert (a + rest)[|a + rest| - 1] == rest[|rest| - 1];
  }
}
