/** The hand-written policy parser: an effect, three targets, then when and unless blocks until none is left. */
module CedarParser {
  import opened Text
  import opened CedarEngine

  datatype Result<+T> = Ok(value: T) | Err(error: string)

  datatype Block = Block(conds: seq<Condition>, rest: string)

  function ParseMatch(s: string): Match {
    if s == "*" then Match(true, "", "")
    else if Contains(s, "*") then Match(false, "", s)
    else Match(false, s, "")
  }

  // ----- conditions -----

  function ConditionAt(s: string, i: nat, sep: string, op: string): Condition
    requires i + |sep| <= |s|
  {
    Condition(TrimSpace(s[..i]), op, TrimQuotes(TrimSpace(s[i + |sep|..])))
  }

  /** The operators are tried in this order, anywhere in the text. */
  function ParseCondition(s: string): Result<Condition> {
    if Contains(s, "!=") then Ok(ConditionAt(s, Index(s, "!="), "!=", "!="))
    else if Contains(s, "==") then Ok(ConditionAt(s, Index(s, "=="), "==", "=="))
    else if Contains(s, " contains ") then Ok(ConditionAt(s, Index(s, " contains "), " contains ", "contains"))
    else if Contains(s, " in ") then Ok(ConditionAt(s, Index(s, " in "), " in ", "in"))
    else Err("unsupported condition: " + s)
  }

  /** The first part that is not a condition makes the whole list fail; parts that are only space are skipped. */
  function ParseConditions(parts: seq<string>): Result<seq<Condition>>
    decreases |parts|
  {
    if parts == [] then Ok([])
    else
      match ParseConditions(parts[..|parts| - 1])
      case Err(e) => Err(e)
      case Ok(conds) => AddCondition(conds, TrimSpace(parts[|parts| - 1]))
  }

  function AddCondition(conds: seq<Condition>, part: string): Result<seq<Condition>> {
    if part == "" then Ok(conds)
    else match ParseCondition(part)
         case Err(e) => Err(e)
         case Ok(c) => Ok(conds + [c])
  }

  // ----- blocks -----

  lemma BraceFirst(t: string, open: char, close: char)
    requires t != "" && t[0] == open && open != close
    ensures Index(t, [close]) != 0
    ensures Index(t, [close]) < |t|
  {
    AtChar(t, close, 0);
  }

  /** What is left after a block is shorter than the text the block was taken from. */
  function ParseBlock(text: string): (r: Result<Block>)
    ensures r.Ok? ==> |r.value.rest| < |text|
  {
    var t := TrimSpace(text);
    TrimSpaceShortens(text);
    if !HasPrefix(t, "{") then Err("expected {")
    else
      var end := Index(t, "}");
      BraceFirst(t, '{', '}');
      if end < 0 then Err("missing }")
      else
        TrimSpaceShortens(t[end + 1..]);
        match ParseConditions(Split(t[1..end], "&&"))
        case Err(e) => Err(e)
        case Ok(conds) => Ok(Block(conds, TrimSpace(t[end + 1..])))
  }

  function ParseBlocks(p: Policy, text: string): Result<Policy>
    decreases |text|
  {
    var t := TrimSpace(text);
    TrimSpaceShortens(text);
    if t == ";" || t == "" then Ok(p)
    else if HasPrefix(t, "when") then
      match ParseBlock(t[4..])
      case Err(e) => Err("when: " + e)
      case Ok(b) => ParseBlocks(p.(whens := b.conds), b.rest)
    else if HasPrefix(t, "unless") then
      match ParseBlock(t[6..])
      case Err(e) => Err("unless: " + e)
      case Ok(b) => ParseBlocks(p.(unlesses := b.conds), b.rest)
    else Ok(p)
  }

  // ----- the whole policy -----

  function ParseTargets(id: string, effect: string, text: string): Result<Policy> {
    var t := TrimSpace(text);
    if !HasPrefix(t, "(") then Err("expected ( after effect")
    else
      var end := Index(t, ")");
      BraceFirst(t, '(', ')');
      if end < 0 then Err("missing )")
      else
        var targets := SplitN(t[1..end], ",", 3);
        if |targets| != 3 then Err("expected 3 targets: principal, action, resource")
        else
          ParseBlocks(WithTargets(id, effect, targets), TrimSpace(t[end + 1..]))
  }

  function WithTargets(id: string, effect: string, targets: seq<string>): Policy
    requires |targets| == 3
  {
    Policy(id, effect,
           ParseMatch(TrimSpace(targets[0])), ParseMatch(TrimSpace(targets[1])), ParseMatch(TrimSpace(targets[2])),
           [], [])
  }

  function Parse(id: string, text: string): Result<Policy> {
    var t := TrimSpace(text);
    if HasPrefix(t, "permit") then ParseTargets(id, PERMIT, t[6..])
    else if HasPrefix(t, "forbid") then ParseTargets(id, FORBID, t[6..])
    else Err("policy must start with permit or forbid")
  }

  // ----- the code -----

  lemma {:induction false} ErrorStays(parts: seq<string>, n: nat)
    requires n <= |parts| && ParseConditions(parts[..n]).Err?
    ensures ParseConditions(parts) == ParseConditions(parts[..n])
    decreases |parts| - n
  {
    if n < |parts| {
      assert parts[..n + 1][..n] == parts[..n];
      ErrorStays(parts, n + 1);
    } else {
      assert parts[..n] == parts;
    }
  }

  /** The loop over the parts of a block. */
  method ParseParts(parts: seq<string>) returns (r: Result<seq<Condition>>)
    ensures r == ParseConditions(parts)
  {
    var conds: seq<Condition> := [];
    for i := 0 to |parts|
      invariant ParseConditions(parts[..i]) == Ok(conds)
    {
      var part := TrimSpace(parts[i]);
      assert parts[..i + 1][..i] == parts[..i];
      if part == "" {
        continue;
      }
      var c := ParseCondition(part);
      if c.Err? {
        ErrorStays(parts, i + 1);
        return Err(c.error);
      }
      conds := conds + [c.value];
    }
    assert parts[..|parts|] == parts;
    return Ok(conds);
  }

  method ParseConditionBlock(text: string) returns (r: Result<Block>)
    ensures r == ParseBlock(text)
  {
    var t := TrimSpace(text);
    if !HasPrefix(t, "{") {
      return Err("expected {");
    }
    var end := Index(t, "}");
    BraceFirst(t, '{', '}');
    if end < 0 {
      return Err("missing }");
    }
    var body := t[1..end];
    var rest := TrimSpace(t[end + 1..]);
    var conds := ParseParts(Split(body, "&&"));
    if conds.Err? {
      return Err(conds.error);
    }
    return Ok(Block(conds.value, rest));
  }

  /** The loop over the blocks ends because every block it takes shortens the text. */
  method ParseRest(bare: Policy, blocks: string) returns (r: Result<Policy>)
    ensures r == ParseBlocks(bare, blocks)
  {
    var p, text := bare, blocks;
    while |text| > 0
      invariant ParseBlocks(p, text) == ParseBlocks(bare, blocks)
      decreases |text|
    {
      TrimSpaceShortens(text);
      TrimmedStays(TrimSpace(text));
      text := TrimSpace(text);
      if text == ";" || text == "" {
        break;
      }
      if HasPrefix(text, "when") {
        var b := ParseConditionBlock(text[4..]);
        if b.Err? {
          return Err("when: " + b.error);
        }
        p, text := p.(whens := b.value.conds), b.value.rest;
      } else if HasPrefix(text, "unless") {
        var b := ParseConditionBlock(text[6..]);
        if b.Err? {
          return Err("unless: " + b.error);
        }
        p, text := p.(unlesses := b.value.conds), b.value.rest;
      } else {
        break;
      }
    }
    return Ok(p);
  }

  method ParsePolicy(id: string, input: string) returns (r: Result<Policy>)
    ensures r == Parse(id, input)
  {
    var text := TrimSpace(input);
    var effect: string;
    if HasPrefix(text, "permit") {
      effect := PERMIT;
    } else if HasPrefix(text, "forbid") {
      effect := FORBID;
    } else {
      return Err("policy must start with permit or forbid");
    }
    text := TrimSpace(text[6..]);
    if !HasPrefix(text, "(") {
      return Err("expected ( after effect");
    }
    var end := Index(text, ")");
    BraceFirst(text, '(', ')');
    if end < 0 {
      return Err("missing )");
    }
    var targets := SplitN(text[1..end], ",", 3);
    if |targets| != 3 {
      return Err("expected 3 targets: principal, action, resource");
    }
    r := ParseRest(WithTargets(id, effect, targets), TrimSpace(text[end + 1..]));
  }
}
