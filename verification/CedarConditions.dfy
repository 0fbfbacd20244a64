/** Printing one condition and reading it back. */
module CedarConditions {
  import opened Text
  import opened Substrings
  import opened CedarEngine
  import opened CedarParser

  function PrintCondition(c: Condition): string {
    c.field + " " + c.op + " \"" + c.value + "\""
  }

  /** A block trims each part before it looks for an operator. */
  function ReadCondition(part: string): Result<Condition> {
    ParseCondition(TrimSpace(part))
  }

  predicate Symbolic(e: string) {
    e == "!=" || e == "=="
  }

  /** The operator is found neither in the field, followed by its space, nor in the value. */
  predicate Avoids(c: Condition, e: string) {
    !Contains(c.field + " ", e) && !Contains(c.value, e)
  }

  /**
   * The field is trimmed and the value has no quote at either end; the field does not have the operator, and neither
   * has an operator that is tried before it.
   */
  predicate CondPrintable(c: Condition) {
    && Trimmed(c.field)
    && Unquoted(c.value)
    && match c.op
       case "!=" => !Contains(c.field + " ", "!=")
       case "==" => Avoids(c, "!=") && !Contains(c.field + " ", "==")
       case "contains" =>
         && c.field != "" && Avoids(c, "!=") && Avoids(c, "==")
         && !Contains(c.field + " ", " contains ")
       case "in" =>
         && c.field != "" && Avoids(c, "!=") && Avoids(c, "==") && Avoids(c, " contains ")
         && !Contains(c.field + " ", " in ")
       case _ => false
  }

  // ----- the printed text, trimmed: lead, operator, quoted value -----

  function Lead(c: Condition): string {
    if c.field == "" then "" else c.field + " "
  }

  function Head(c: Condition): string {
    Lead(c) + c.op + " "
  }

  function Tail(c: Condition): string {
    "\"" + c.value + "\""
  }

  predicate Plain(c: Condition) {
    Trimmed(c.field) && Known(c.op)
  }

  lemma PrintedTrims(c: Condition)
    requires Plain(c)
    ensures TrimSpace(PrintCondition(c)) == Head(c) + Tail(c)
    ensures Trimmed(Head(c) + Tail(c))
  {
    var s := Head(c) + Tail(c);
    assert s[|s| - 1] == '"';
    if c.field == "" {
      assert s[0] == c.op[0];
      assert PrintCondition(c) == " " + s;
      TrimLeadingSpace(s);
    } else {
      assert s[0] == c.field[0];
      assert PrintCondition(c) == s;
    }
    TrimmedStays(s);
  }

  /** An operator occurs in the printed text only in the lead and operator or in the value. */
  lemma ContainsPrinted(c: Condition, e: string)
    requires e != "" && '"' !in e
    ensures Contains(Head(c) + Tail(c), e) <==> Contains(Head(c), e) || Contains(c.value, e)
  {
    var rest := c.value + "\"";
    assert Head(c) + Tail(c) == Head(c) + ['"'] + rest;
    ContainsAcross(Head(c), '"', rest, e);
    assert rest == c.value + ['"'] + "";
    ContainsAcross(c.value, '"', "", e);
    ContainsSameLength("", e);
  }

  lemma FieldSpace(f: string, e: string)
    requires e != "" && ' ' !in e
    ensures Contains(f + " ", e) <==> Contains(f, e)
  {
    assert f + " " == f + [' '] + "";
    ContainsAcross(f, ' ', "", e);
    ContainsSameLength("", e);
  }

  lemma SymbolInOp(op: string, e: string)
    requires Known(op) && Symbolic(e)
    ensures Contains(op, e) <==> op == e
  {
    if op == "contains" || op == "in" {
      ContainsFirstChar(op, e);
    } else {
      ContainsSameLength(op, e);
    }
  }

  lemma SymbolInHead(c: Condition, e: string)
    requires Plain(c) && Symbolic(e)
    ensures Contains(Head(c), e) <==> Contains(c.field + " ", e) || c.op == e
  {
    SymbolInOp(c.op, e);
    FieldSpace(c.op, e);
    FieldSpace(c.field, e);
    if c.field == "" {
      assert Head(c) == c.op + " ";
      ContainsSameLength("", e);
    } else {
      assert Head(c) == c.field + [' '] + (c.op + " ");
      ContainsAcross(c.field, ' ', c.op + " ", e);
    }
  }

  lemma HeadChars(c: Condition)
    requires Plain(c) && c.field != ""
    ensures var h, n := Head(c), |c.field|;
            && |h| == n + |c.op| + 2 && h[|h| - 1] == ' '
            && h[..n + 1] == c.field + " "
            && h[n + 1..n + 1 + |c.op|] == c.op && ' ' !in c.op
  {
  }

  lemma Differs(s: string, e: string, i: nat, k: nat)
    requires k < |e| && i + |e| <= |s| && s[i + k] != e[k]
    ensures !At(s, e, i)
  {
    assert s[i..i + |e|][k] == s[i + k];
  }

  lemma WordAtOperator(c: Condition, word: string)
    requires Plain(c) && c.field != "" && ' ' !in word && |word| <= |c.op|
    ensures At(Head(c), " " + word + " ", |c.field|) <==> c.op == word
  {
    var h, e, n := Head(c), " " + word + " ", |c.field|;
    HeadChars(c);
    assert h[n] == (c.field + " ")[n];
    if |word| < |c.op| {
      assert h[n + 1 + |word|] == c.op[|word|];
      Differs(h, e, n, |word| + 1);
    } else {
      assert h[n..n + |e|] == " " + c.op + " ";
      assert (" " + c.op + " ")[1..|e| - 1] == c.op && e[1..|e| - 1] == word;
    }
  }

  /** In the lead and operator, a word between spaces is either the operator or ends with the field. */
  lemma WordInHead(c: Condition, word: string, i: int)
    requires Plain(c) && c.field != "" && word != "" && ' ' !in word
    ensures At(Head(c), " " + word + " ", i) <==>
            At(c.field + " ", " " + word + " ", i) || (i == |c.field| && c.op == word)
  {
    var h, e, n := Head(c), " " + word + " ", |c.field|;
    HeadChars(c);
    if 0 <= i && i + |e| <= n + 1 {
      SliceOfSlice(h, 0, n + 1, i, i + |e|);
    } else if 0 <= i < n && i + |e| <= |h| {
      assert h[n] == (c.field + " ")[n] == ' ' && e[n - i] == word[n - i - 1];
      Differs(h, e, i, n - i);
    } else if i == n && i + |e| <= |h| {
      WordAtOperator(c, word);
    } else if i > n && i + |e| <= |h| {
      assert h[i] == c.op[i - n - 1];
      Differs(h, e, i, 0);
    }
  }

  lemma WordContains(c: Condition, word: string)
    requires Plain(c) && c.field != "" && word != "" && ' ' !in word && '"' !in word
    ensures Contains(Head(c) + Tail(c), " " + word + " ") <==>
            Contains(c.field + " ", " " + word + " ") || c.op == word || Contains(c.value, " " + word + " ")
  {
    var e := " " + word + " ";
    ContainsPrinted(c, e);
    if Contains(Head(c), e) {
      WordInHead(c, word, Index(Head(c), e));
    }
    if Contains(c.field + " ", e) {
      WordInHead(c, word, Index(c.field + " ", e));
    }
    if c.op == word {
      WordInHead(c, word, |c.field|);
    }
  }

  lemma ContainsInIn(c: Condition)
    requires Plain(c) && c.op == "in" && c.field != ""
    ensures Contains(Head(c) + Tail(c), " contains ") <==> !Avoids(c, " contains ")
  {
    assert " " + "contains" + " " == " contains ";
    WordContains(c, "contains");
  }

  lemma SymbolContains(c: Condition, e: string)
    requires Plain(c) && Symbolic(e)
    ensures Contains(Head(c) + Tail(c), e) <==>
            Contains(c.field + " ", e) || c.op == e || Contains(c.value, e)
  {
    ContainsPrinted(c, e);
    SymbolInHead(c, e);
  }

  // ----- printable conditions come back -----

  lemma SymbolFirst(c: Condition)
    requires Plain(c) && Symbolic(c.op) && !Contains(c.field + " ", c.op)
    ensures Index(Head(c) + Tail(c), c.op) == |Lead(c)|
  {
    var s := Head(c) + Tail(c);
    assert s[|Lead(c)|..|Lead(c)| + |c.op|] == c.op;
    if c.field != "" {
      FieldSpace(c.field, c.op);
      var rest := c.op + " " + Tail(c);
      assert s == c.field + [' '] + rest;
      forall j | 0 <= j < |Lead(c)| ensures !At(s, c.op, j) {
        AtAcross(c.field, ' ', rest, c.op, j);
      }
    }
    IndexIs(s, c.op, |Lead(c)|);
  }

  lemma WordFirst(c: Condition)
    requires Plain(c) && !Symbolic(c.op) && c.field != "" && !Contains(c.field + " ", " " + c.op + " ")
    ensures Index(Head(c) + Tail(c), " " + c.op + " ") == |c.field|
  {
    var s, e := Head(c) + Tail(c), " " + c.op + " ";
    var rest := c.value + "\"";
    assert s == Head(c) + ['"'] + rest;
    forall j | 0 <= j <= |c.field| ensures At(s, e, j) <==> j == |c.field| {
      AtAcross(Head(c), '"', rest, e, j);
      WordInHead(c, c.op, j);
    }
    IndexIs(s, e, |c.field|);
  }

  lemma SymbolRead(c: Condition)
    requires Plain(c) && Symbolic(c.op) && Unquoted(c.value)
    ensures ConditionAt(Head(c) + Tail(c), |Lead(c)|, c.op, c.op) == c
  {
    var s, n := Head(c) + Tail(c), |Lead(c)|;
    assert s[..n] == Lead(c);
    assert s[n + |c.op|..] == " " + Tail(c);
    if c.field != "" {
      TrimTrailingSpace(c.field);
    }
    TrimLeadingSpace(Tail(c));
    TrimmedStays(Tail(c));
    QuotesRoundTripExactlyWhen(c.value);
  }

  lemma WordRead(c: Condition)
    requires Plain(c) && !Symbolic(c.op) && c.field != "" && Unquoted(c.value)
    ensures ConditionAt(Head(c) + Tail(c), |c.field|, " " + c.op + " ", c.op) == c
  {
    var s, n := Head(c) + Tail(c), |c.field|;
    assert s[..n] == c.field;
    assert s[n + |c.op| + 2..] == Tail(c);
    TrimmedStays(c.field);
    TrimmedStays(Tail(c));
    QuotesRoundTripExactlyWhen(c.value);
  }

  lemma PrintedSymbolParses(c: Condition)
    requires CondPrintable(c) && Symbolic(c.op)
    ensures ParseCondition(Head(c) + Tail(c)) == Ok(c)
  {
    SymbolContains(c, "!=");
    SymbolFirst(c);
    SymbolRead(c);
  }

  lemma NoSymbol(c: Condition, e: string)
    requires Plain(c) && Symbolic(e) && Avoids(c, e) && c.op != e
    ensures !Contains(Head(c) + Tail(c), e)
  {
    SymbolContains(c, e);
  }

  lemma PrintedContainsParses(c: Condition)
    requires CondPrintable(c) && c.op == "contains"
    ensures ParseCondition(Head(c) + Tail(c)) == Ok(c)
  {
    NoSymbol(c, "!=");
    NoSymbol(c, "==");
    assert " " + c.op + " " == " contains ";
    WordFirst(c);
    WordRead(c);
  }

  lemma PrintedInParses(c: Condition)
    requires CondPrintable(c) && c.op == "in"
    ensures ParseCondition(Head(c) + Tail(c)) == Ok(c)
  {
    NoSymbol(c, "!=");
    NoSymbol(c, "==");
    ContainsInIn(c);
    assert " " + c.op + " " == " in ";
    WordFirst(c);
    WordRead(c);
  }

  lemma PrintedConditionParses(c: Condition)
    requires CondPrintable(c)
    ensures ReadCondition(PrintCondition(c)) == Ok(c)
  {
    PrintedTrims(c);
    match c.op
    case "contains" => PrintedContainsParses(c);
    case "in" => PrintedInParses(c);
    case _ => PrintedSymbolParses(c);
  }

  // ----- only printable conditions come back -----

  lemma {:induction false} TrimRightKeeps(t: string)
    requires t != "" && !IsSpace(t[0])
    ensures TrimRight(t) != ""
  {
    if IsSpace(t[|t| - 1]) {
      TrimRightKeeps(t[..|t| - 1]);
    }
  }

  /** Whatever is read has a trimmed field, an unquoted value and one of the four operators. */
  lemma ReadShape(s: string)
    requires ParseCondition(s).Ok?
    ensures var c := ParseCondition(s).value; Trimmed(c.field) && Known(c.op) && Unquoted(c.value)
  {
    var i := Index(s, "!=");
    forall i: nat, sep, op | i + |sep| <= |s|
      ensures Trimmed(ConditionAt(s, i, sep, op).field) && Unquoted(ConditionAt(s, i, sep, op).value)
    {
      TrimSpaceShortens(s[..i]);
      TrimQuotesWithin(TrimSpace(s[i + |sep|..]));
    }
  }

  lemma LeadIsPrefix(c: Condition)
    requires c.field != ""
    ensures HasPrefix(Head(c) + Tail(c), c.field + " ")
  {
  }

  lemma WordNeedsField(c: Condition, sep: string)
    requires Plain(c) && !Symbolic(c.op) && sep != "" && sep[0] == ' '
    requires Index(Head(c) + Tail(c), sep) >= 0
    requires TrimSpace((Head(c) + Tail(c))[..Index(Head(c) + Tail(c), sep)]) == c.field
    ensures c.field != ""
  {
    var s := Head(c) + Tail(c);
    var i := Index(s, sep);
    if c.field == "" {
      assert s[0] == c.op[0];
      assert s[i..i + |sep|][0] == s[i];
      TrimRightKeeps(s[..i]);
    }
  }

  lemma AvoidsUnread(c: Condition, e: string)
    requires Plain(c) && Symbolic(e) && !Contains(Head(c) + Tail(c), e)
    ensures Avoids(c, e)
  {
    SymbolContains(c, e);
  }

  lemma SymbolReadBack(c: Condition)
    requires Plain(c) && Unquoted(c.value) && Symbolic(c.op) && ParseCondition(Head(c) + Tail(c)) == Ok(c)
    ensures CondPrintable(c)
  {
    if c.op == "==" {
      AvoidsUnread(c, "!=");
    }
    if c.field == "" {
      ContainsFirstChar(" ", c.op);
    } else {
      LeadIsPrefix(c);
      FieldLacks(Head(c) + Tail(c), c.field, c.op);
    }
  }

  lemma ContainsReadBack(c: Condition)
    requires Plain(c) && Unquoted(c.value) && c.op == "contains" && ParseCondition(Head(c) + Tail(c)) == Ok(c)
    ensures CondPrintable(c)
  {
    AvoidsUnread(c, "!=");
    AvoidsUnread(c, "==");
    WordNeedsField(c, " contains ");
    LeadIsPrefix(c);
    FieldLacks(Head(c) + Tail(c), c.field, " contains ");
  }

  lemma InReadBack(c: Condition)
    requires Plain(c) && Unquoted(c.value) && c.op == "in" && ParseCondition(Head(c) + Tail(c)) == Ok(c)
    ensures CondPrintable(c)
  {
    AvoidsUnread(c, "!=");
    AvoidsUnread(c, "==");
    WordNeedsField(c, " in ");
    LeadIsPrefix(c);
    FieldLacks(Head(c) + Tail(c), c.field, " in ");
    ContainsInIn(c);
  }

  lemma ReadBackIsPrintable(c: Condition)
    requires ReadCondition(PrintCondition(c)) == Ok(c)
    ensures CondPrintable(c)
  {
    ReadShape(TrimSpace(PrintCondition(c)));
    PrintedTrims(c);
    match c.op
    case "contains" => ContainsReadBack(c);
    case "in" => InReadBack(c);
    case _ => SymbolReadBack(c);
  }

  /** A condition survives being printed and read back exactly when it is printable. */
  lemma ConditionRoundTripExactlyWhen(c: Condition)
    ensures ReadCondition(PrintCondition(c)) == Ok(c) <==> CondPrintable(c)
  {
    if CondPrintable(c) {
      PrintedConditionParses(c);
    }
    if ReadCondition(PrintCondition(c)) == Ok(c) {
      ReadBackIsPrintable(c);
    }
  }
}
