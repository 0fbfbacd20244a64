/** The parser is a left inverse of the printer, exactly on the printable policies. */
module CedarRoundTrip {
  import opened Text
  import opened Substrings
  import opened CedarEngine
  import opened CedarParser
  import opened CedarConditions
  import opened CedarPrinter

  // ----- parsing what was printed -----

  lemma TrimTwice(s: string)
    ensures TrimSpace(TrimSpace(s)) == TrimSpace(s)
  {
    TrimSpaceShortens(s);
    TrimmedStays(TrimSpace(s));
  }

  lemma ParseBlocksTrims(p: Policy, s: string)
    ensures ParseBlocks(p, TrimSpace(s)) == ParseBlocks(p, s)
    ensures ParseBlocks(p, " " + s) == ParseBlocks(p, s)
  {
    TrimTwice(s);
    TrimLeadingSpace(s);
  }

  lemma KeywordTrims(keyword: string, s: string)
    requires keyword == "when" || keyword == "unless"
    requires EndsSolid(s)
    ensures TrimSpace(" " + (keyword + s)) == keyword + s
    ensures keyword + s != ";" && HasPrefix(keyword + s, keyword) && (keyword + s)[|keyword|..] == s
    ensures keyword == "unless" ==> !HasPrefix(keyword + s, "when")
  {
    var t := keyword + s;
    assert t[|t| - 1] == s[|s| - 1] && t[0] == keyword[0];
    TrimLeadingSpace(t);
    TrimmedStays(t);
    if keyword == "unless" {
      assert "when"[0] != t[0];
    }
  }

  /** What the parser makes of the when block, or of the unless block, followed by more text. */
  function AfterWhen(p: Policy, whens: seq<Condition>, rest: string): Result<Policy> {
    if whens == [] then ParseBlocks(p, rest)
    else match ParseConditions(PrintParts(whens))
         case Err(e) => Err("when: " + e)
         case Ok(cs) => ParseBlocks(p.(whens := cs), rest)
  }

  function AfterUnless(p: Policy, unlesses: seq<Condition>, rest: string): Result<Policy> {
    if unlesses == [] then ParseBlocks(p, rest)
    else match ParseConditions(PrintParts(unlesses))
         case Err(e) => Err("unless: " + e)
         case Ok(cs) => ParseBlocks(p.(unlesses := cs), rest)
  }

  lemma WhenParses(p: Policy, whens: seq<Condition>, rest: string)
    requires SafeConditions(whens) && EndsSolid(rest)
    ensures ParseBlocks(p, PrintBlock("when", whens) + rest) == AfterWhen(p, whens, rest)
  {
    if whens == [] {
      assert PrintBlock("when", whens) + rest == rest;
    } else {
      var s := " {" + PrintBody(whens) + "}" + rest;
      assert PrintBlock("when", whens) + rest == " " + ("when" + s);
      KeywordTrims("when", s);
      BlockParses(whens, rest);
      forall q: Policy ensures ParseBlocks(q, TrimSpace(rest)) == ParseBlocks(q, rest) {
        ParseBlocksTrims(q, rest);
      }
    }
  }

  lemma OnlySemicolon(p: Policy)
    ensures ParseBlocks(p, ";") == Ok(p)
  {
    TrimmedStays(";");
  }

  lemma UnlessParses(p: Policy, unlesses: seq<Condition>, rest: string)
    requires SafeConditions(unlesses) && EndsSolid(rest)
    ensures ParseBlocks(p, PrintBlock("unless", unlesses) + rest) == AfterUnless(p, unlesses, rest)
  {
    if unlesses == [] {
      assert PrintBlock("unless", unlesses) + rest == rest;
    } else {
      var s := " {" + PrintBody(unlesses) + "}" + rest;
      assert PrintBlock("unless", unlesses) + rest == " " + ("unless" + s);
      KeywordTrims("unless", s);
      BlockParses(unlesses, rest);
      forall q: Policy ensures ParseBlocks(q, TrimSpace(rest)) == ParseBlocks(q, rest) {
        ParseBlocksTrims(q, rest);
      }
    }
  }

  lemma SplitTargets(a: string, b: string, c: string)
    requires ',' !in a && ',' !in b
    ensures SplitN(a + ", " + b + ", " + c, ",", 3) == [a, " " + b, " " + c]
  {
    var second, third := " " + b, " " + c;
    TargetsText(a, b, c);
    SplitOnce(a, second + [','] + third, 3);
    SplitOnce(second, third, 2);
  }

  lemma TargetsText(a: string, b: string, c: string)
    ensures a + ", " + b + ", " + c == a + [','] + ((" " + b) + [','] + (" " + c))
  {
  }

  lemma SplitOnce(a: string, rest: string, n: nat)
    requires n >= 2 && ',' !in a
    ensures SplitN(a + [','] + rest, ",", n) == [a] + SplitN(rest, ",", n - 1)
  {
    var s := a + [','] + rest;
    IndexOfChar(a, ',', rest);
    assert s[..|a|] == a && s[|a| + 1..] == rest;
  }

  lemma TargetsRead(p: Policy)
    requires Delimited(p)
    ensures ')' !in PrintTargets(p)
    ensures var targets := SplitN(PrintTargets(p), ",", 3);
            |targets| == 3
            && WithTargets(p.id, p.effect, targets) == p.(whens := [], unlesses := [])
  {
    var a, b, c := PrintMatch(p.principal), PrintMatch(p.action), PrintMatch(p.resource);
    SplitTargets(a, b, c);
    TrimmedStays(a);
    TrimmedStays(b);
    TrimmedStays(c);
    TrimLeadingSpace(b);
    TrimLeadingSpace(c);
    MatchRoundTripExactlyWhen(p.principal);
    MatchRoundTripExactlyWhen(p.action);
    MatchRoundTripExactlyWhen(p.resource);
  }

  lemma ParenthesesFound(inner: string, rest: string)
    requires ')' !in inner && EndsSolid(rest)
    ensures var s := "(" + inner + ")" + rest;
            TrimSpace(s) == s && HasPrefix(s, "(") && Index(s, ")") == |inner| + 1
            && s[1..|inner| + 1] == inner && s[|inner| + 2..] == rest
  {
    var s := "(" + inner + ")" + rest;
    assert s[|s| - 1] == rest[|rest| - 1];
    TrimmedStays(s);
    IndexOfChar("(" + inner, ')', rest);
  }

  lemma EffectFound(id: string, effect: string, s: string)
    requires effect == PERMIT || effect == FORBID
    requires EndsSolid(s)
    ensures Parse(id, effect + s) == ParseTargets(id, effect, s)
  {
    var t := effect + s;
    assert t[|t| - 1] == s[|s| - 1] && t[0] == effect[0];
    TrimmedStays(t);
    assert t[..6] == effect && t[6..] == s;
  }

  lemma TargetsParse(p: Policy, blocks: string)
    requires Delimited(p) && EndsSolid(blocks)
    ensures ParseTargets(p.id, p.effect, "(" + PrintTargets(p) + ")" + blocks)
            == ParseBlocks(p.(whens := [], unlesses := []), blocks)
  {
    TargetsRead(p);
    ParenthesesFound(PrintTargets(p), blocks);
    ParseBlocksTrims(p.(whens := [], unlesses := []), blocks);
  }

  /** Parsing a printed policy, whatever follows it, comes down to reading its conditions and then what follows. */
  lemma PrintedParses(p: Policy, tail: string)
    requires Delimited(p) && EndsSolid(tail)
    ensures Parse(p.id, PrintWith(p, tail)) ==
            AfterWhen(p.(whens := [], unlesses := []), p.whens, PrintBlock("unless", p.unlesses) + tail)
  {
    var rest := PrintBlock("unless", p.unlesses) + tail;
    SolidAfter(PrintBlock("unless", p.unlesses), tail);
    SolidAfter(PrintBlock("when", p.whens), rest);
    HeadParses(p, PrintBlock("when", p.whens) + rest);
    WhenParses(p.(whens := [], unlesses := []), p.whens, rest);
  }

  lemma HeadParses(p: Policy, blocks: string)
    requires Delimited(p) && EndsSolid(blocks)
    ensures Parse(p.id, p.effect + ("(" + PrintTargets(p) + ")" + blocks)) ==
            ParseBlocks(p.(whens := [], unlesses := []), blocks)
  {
    SolidAfter("(" + PrintTargets(p) + ")", blocks);
    EffectFound(p.id, p.effect, "(" + PrintTargets(p) + ")" + blocks);
    TargetsParse(p, blocks);
  }

  // ----- what the parser can return -----

  lemma ReadIsSafe(part: string, conds: seq<Condition>)
    requires Clear(part) && SafeConditions(conds) && AddCondition(conds, TrimSpace(part)).Ok?
    ensures SafeConditions(AddCondition(conds, TrimSpace(part)).value)
  {
    var s := TrimSpace(part);
    TrimWithin(part);
    if s != "" {
      ConditionWithin(s);
      ReadShape(s);
      var c := ParseCondition(s).value;
      ClearWithin(c.field, s, part);
      ClearWithin(c.value, s, part);
    }
  }

  lemma ClearWithin(a: string, b: string, s: string)
    requires Within(a, b) && Within(b, s) && Clear(s)
    ensures Clear(a)
  {
    WithinTransitive(a, b, s);
    if Contains(a, "&&") {
      WithinContains(a, s, "&&");
    }
  }

  lemma ConditionAtWithin(s: string, i: nat, sep: string, op: string)
    requires i + |sep| <= |s|
    ensures Within(ConditionAt(s, i, sep, op).field, s) && Within(ConditionAt(s, i, sep, op).value, s)
  {
    var left, right := s[..i], s[i + |sep|..];
    WithinIs(s, 0, i);
    WithinIs(s, i + |sep|, |s|);
    TrimWithin(left);
    TrimWithin(right);
    TrimQuotesWithin(TrimSpace(right));
    WithinTransitive(TrimSpace(left), left, s);
    WithinTransitive(TrimSpace(right), right, s);
    WithinTransitive(TrimQuotes(TrimSpace(right)), TrimSpace(right), s);
  }

  lemma ConditionWithin(s: string)
    requires ParseCondition(s).Ok?
    ensures Within(ParseCondition(s).value.field, s) && Within(ParseCondition(s).value.value, s)
  {
    if Contains(s, "!=") {
      ConditionAtWithin(s, Index(s, "!="), "!=", "!=");
    } else if Contains(s, "==") {
      ConditionAtWithin(s, Index(s, "=="), "==", "==");
    } else if Contains(s, " contains ") {
      ConditionAtWithin(s, Index(s, " contains "), " contains ", "contains");
    } else {
      ConditionAtWithin(s, Index(s, " in "), " in ", "in");
    }
  }

  lemma {:induction false} ParsedConditionsAreSafe(parts: seq<string>)
    requires forall i | 0 <= i < |parts| :: Clear(parts[i])
    requires ParseConditions(parts).Ok?
    ensures SafeConditions(ParseConditions(parts).value)
    decreases |parts|
  {
    if parts != [] {
      var before := parts[..|parts| - 1];
      ParsedConditionsAreSafe(before);
      ReadIsSafe(parts[|parts| - 1], ParseConditions(before).value);
    }
  }

  lemma ParsedBlockIsSafe(text: string)
    requires ParseBlock(text).Ok?
    ensures SafeConditions(ParseBlock(text).value.conds)
  {
    var t := TrimSpace(text);
    var end := Index(t, "}");
    BeforeFirst(t, "}");
    BraceFirst(t, '{', '}');
    var body := t[1..end];
    forall i | 0 <= i < |body| ensures body[i] != '}' {
      assert body[i] == t[..end][i + 1];
      AtChar(t[..end], '}', i + 1);
    }
    SplitParts(body, "&&");
    var parts := Split(body, "&&");
    forall i | 0 <= i < |parts| ensures Clear(parts[i]) {
      WithinChar(parts[i], body, '}');
    }
    ParsedConditionsAreSafe(parts);
  }

  lemma {:induction false} BlocksKeep(p: Policy, text: string)
    requires ParseBlocks(p, text).Ok? && SafeConditions(p.whens) && SafeConditions(p.unlesses)
    ensures var q := ParseBlocks(p, text).value;
            q == p.(whens := q.whens, unlesses := q.unlesses)
            && SafeConditions(q.whens) && SafeConditions(q.unlesses)
    decreases |text|
  {
    var t := TrimSpace(text);
    TrimSpaceShortens(text);
    if t == ";" || t == "" {
    } else if HasPrefix(t, "when") {
      ParsedBlockIsSafe(t[4..]);
      var b := ParseBlock(t[4..]).value;
      BlocksKeep(p.(whens := b.conds), b.rest);
    } else if HasPrefix(t, "unless") {
      ParsedBlockIsSafe(t[6..]);
      var b := ParseBlock(t[6..]).value;
      BlocksKeep(p.(unlesses := b.conds), b.rest);
    }
  }

  lemma CharBeforeFirst(t: string, c: char, end: nat)
    requires Index(t, [c]) == end
    ensures c !in t[..end]
  {
    forall i | 0 <= i < end ensures t[i] != c {
      AtChar(t, c, i);
    }
  }

  /** Of the three targets the first two have no comma, and all of them are pieces of the text. */
  lemma TargetsSplit(s: string)
    requires |SplitN(s, ",", 3)| == 3
    ensures var parts := SplitN(s, ",", 3);
            ',' !in parts[0] && ',' !in parts[1]
            && Within(parts[0], s) && Within(parts[1], s) && Within(parts[2], s)
  {
    var i := Index(s, ",");
    var rest := s[i + 1..];
    var j := Index(rest, ",");
    CharBeforeFirst(s, ',', i);
    CharBeforeFirst(rest, ',', j);
    WithinIs(s, 0, i);
    WithinIs(s, i + 1, |s|);
    WithinIs(rest, 0, j);
    WithinIs(rest, j + 1, |rest|);
    WithinTransitive(rest[..j], rest, s);
    WithinTransitive(rest[j + 1..], rest, s);
  }

  lemma ParsedTargetIsSafe(part: string, inner: string)
    requires Within(part, inner) && ')' !in inner
    ensures SafeTarget(ParseMatch(TrimSpace(part)))
    ensures ',' !in part ==> ',' !in PrintMatch(ParseMatch(TrimSpace(part)))
  {
    var s := TrimSpace(part);
    ParsedMatch(s);
    TrimSpaceShortens(part);
    TrimWithin(part);
    WithinTransitive(s, part, inner);
    WithinChar(s, inner, ')');
  }

  lemma ParsedTargetsAreDelimited(id: string, effect: string, inner: string)
    requires effect == PERMIT || effect == FORBID
    requires ')' !in inner && |SplitN(inner, ",", 3)| == 3
    ensures Delimited(WithTargets(id, effect, SplitN(inner, ",", 3)))
  {
    var parts := SplitN(inner, ",", 3);
    TargetsSplit(inner);
    ParsedTargetIsSafe(parts[0], inner);
    ParsedTargetIsSafe(parts[1], inner);
    ParsedTargetIsSafe(parts[2], inner);
  }

  lemma ParsedTargetsThenBlocks(id: string, effect: string, text: string)
    requires effect == PERMIT || effect == FORBID
    requires ParseTargets(id, effect, text).Ok?
    ensures Delimited(ParseTargets(id, effect, text).value) && ParseTargets(id, effect, text).value.id == id
  {
    var t := TrimSpace(text);
    var end := Index(t, ")");
    BraceFirst(t, '(', ')');
    CharBeforeFirst(t, ')', end);
    var inner := t[1..end];
    assert forall i | 0 <= i < |inner| :: inner[i] == t[..end][i + 1];
    ParsedTargetsAreDelimited(id, effect, inner);
    BlocksKeep(WithTargets(id, effect, SplitN(inner, ",", 3)), TrimSpace(t[end + 1..]));
  }

  /** Whatever the parser accepts keeps clear of the delimiters. */
  lemma ParsedIsDelimited(id: string, text: string)
    requires Parse(id, text).Ok?
    ensures Delimited(Parse(id, text).value) && Parse(id, text).value.id == id
  {
    var t := TrimSpace(text);
    ParsedTargetsThenBlocks(id, if HasPrefix(t, "permit") then PERMIT else FORBID, t[6..]);
  }

  // ----- the theorem -----

  /** A printable policy is read as itself, and parsing goes on with what follows it. */
  lemma PrintableParses(p: Policy, tail: string)
    requires Printable(p) && EndsSolid(tail)
    ensures Parse(p.id, PrintWith(p, tail)) == ParseBlocks(p, tail)
  {
    PrintedParses(p, tail);
    ReadAllExactlyWhen(p.whens);
    ReadAllExactlyWhen(p.unlesses);
    UnlessParses(p.(unlesses := []), p.unlesses, tail);
  }

  lemma PolicyReadBackIsPrintable(p: Policy)
    requires Parse(p.id, Print(p)) == Ok(p)
    ensures Printable(p)
  {
    ParsedIsDelimited(p.id, Print(p));
    PrintedParses(p, ";");
    ReadAllExactlyWhen(p.whens);
    ReadAllExactlyWhen(p.unlesses);
    var read := if p.whens == [] then [] else ParseConditions(PrintParts(p.whens)).value;
    var bare := p.(whens := read, unlesses := []);
    UnlessParses(bare, p.unlesses, ";");
    OnlySemicolon(bare);
    if p.unlesses != [] && ParseConditions(PrintParts(p.unlesses)).Ok? {
      OnlySemicolon(bare.(unlesses := ParseConditions(PrintParts(p.unlesses)).value));
    }
  }

  /** Printing a policy and parsing it gives the same policy exactly when the policy is printable. */
  lemma RoundTripExactlyWhen(p: Policy)
    ensures Parse(p.id, Print(p)) == Ok(p) <==> Printable(p)
  {
    if Printable(p) {
      PrintableParses(p, ";");
      OnlySemicolon(p);
    }
    if Parse(p.id, Print(p)) == Ok(p) {
      PolicyReadBackIsPrintable(p);
    }
  }

  // ----- repeated blocks -----

  lemma RepeatedWhenReplaces(p: Policy, first: seq<Condition>, second: seq<Condition>, rest: string)
    requires second != [] && EndsSolid(rest)
    requires SafeConditions(first) && AllPrintable(first) && SafeConditions(second) && AllPrintable(second)
    ensures ParseBlocks(p, PrintBlock("when", first) + (PrintBlock("when", second) + rest))
            == ParseBlocks(p.(whens := second), rest)
  {
    ReadAllExactlyWhen(first);
    ReadAllExactlyWhen(second);
    SolidAfter(PrintBlock("when", second), rest);
    WhenParses(p, first, PrintBlock("when", second) + rest);
    WhenParses(p, second, rest);
    WhenParses(p.(whens := first), second, rest);
  }

  lemma RepeatedUnlessReplaces(p: Policy, first: seq<Condition>, second: seq<Condition>, rest: string)
    requires second != [] && EndsSolid(rest)
    requires SafeConditions(first) && AllPrintable(first) && SafeConditions(second) && AllPrintable(second)
    ensures ParseBlocks(p, PrintBlock("unless", first) + (PrintBlock("unless", second) + rest))
            == ParseBlocks(p.(unlesses := second), rest)
  {
    ReadAllExactlyWhen(first);
    ReadAllExactlyWhen(second);
    SolidAfter(PrintBlock("unless", second), rest);
    UnlessParses(p, first, PrintBlock("unless", second) + rest);
    UnlessParses(p, second, rest);
    UnlessParses(p.(unlesses := first), second, rest);
  }

  /** A second block with the same keyword takes the place of the first; the conditions are not put together. */
  lemma RepeatedBlockReplaces(p: Policy, first: seq<Condition>, second: seq<Condition>, rest: string)
    requires second != [] && EndsSolid(rest)
    requires SafeConditions(first) && AllPrintable(first) && SafeConditions(second) && AllPrintable(second)
    ensures ParseBlocks(p, PrintBlock("when", first) + (PrintBlock("when", second) + rest))
            == ParseBlocks(p.(whens := second), rest)
    ensures ParseBlocks(p, PrintBlock("unless", first) + (PrintBlock("unless", second) + rest))
            == ParseBlocks(p.(unlesses := second), rest)
  {
    RepeatedWhenReplaces(p, first, second, rest);
    RepeatedUnlessReplaces(p, first, second, rest);
  }

  /** Nothing is lost, of either kind, exactly when the first block is empty. */
  lemma RepeatedBlockKeepsAllExactlyWhen(p: Policy, first: seq<Condition>, second: seq<Condition>)
    requires second != []
    requires SafeConditions(first) && AllPrintable(first) && SafeConditions(second) && AllPrintable(second)
    ensures var two := PrintBlock("when", first) + (PrintBlock("when", second) + ";");
            ParseBlocks(p, two) == Ok(p.(whens := first + second)) <==> first == []
    ensures var two := PrintBlock("unless", first) + (PrintBlock("unless", second) + ";");
            ParseBlocks(p, two) == Ok(p.(unlesses := first + second)) <==> first == []
  {
    RepeatedBlockReplaces(p, first, second, ";");
    OnlySemicolon(p.(whens := second));
    OnlySemicolon(p.(unlesses := second));
    assert |first + second| == |second| <==> first == [];
    assert first == [] ==> first + second == second;
  }
}
