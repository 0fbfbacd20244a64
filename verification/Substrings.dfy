/** Where a pattern can occur in text put together from pieces. */
module Substrings {
  import opened Text

  ghost predicate Within(a: string, s: string) {
    exists i, j | 0 <= i <= j <= |s| :: a == s[i..j]
  }

  lemma WithinIs(s: string, i: nat, j: nat)
    requires i <= j <= |s|
    ensures Within(s[i..j], s)
  {
  }

  lemma SliceOfSlice(s: string, i: nat, j: nat, k: nat, m: nat)
    requires i <= j <= |s| && k <= m <= j - i
    ensures s[i..j][k..m] == s[i + k..i + m]
  {
    var a, b := s[i..j][k..m], s[i + k..i + m];
    assert |a| == |b| == m - k;
    assert forall n | 0 <= n < m - k :: a[n] == b[n];
  }

  lemma WithinTransitive(a: string, b: string, s: string)
    requires Within(a, b) && Within(b, s)
    ensures Within(a, s)
  {
    var i, j :| 0 <= i <= j <= |b| && a == b[i..j];
    var k, m :| 0 <= k <= m <= |s| && b == s[k..m];
    SliceOfSlice(s, k, m, i, j);
  }

  lemma WithinContains(a: string, s: string, e: string)
    requires Within(a, s) && Contains(a, e)
    ensures Contains(s, e)
  {
    var i, j :| 0 <= i <= j <= |s| && a == s[i..j];
    var k := Index(a, e);
    SliceOfSlice(s, i, j, k, k + |e|);
    OccurrenceIn(s, e, i + k);
  }

  lemma WithinChar(a: string, s: string, c: char)
    requires Within(a, s) && c !in s
    ensures c !in a
  {
  }

  lemma TrimWithin(s: string)
    ensures Within(TrimSpace(s), s)
  {
    TrimLeftEnds(s);
    TrimRightEnds(TrimLeft(s));
    var k := |s| - |TrimLeft(s)|;
    assert TrimSpace(s) == s[k..k + |TrimSpace(s)|];
  }

  lemma TrimQuotesWithin(s: string)
    ensures Within(TrimQuotes(s), s) && Unquoted(TrimQuotes(s))
  {
    TrimQuotesLeftEnds(s);
    var left := TrimQuotesLeft(s);
    TrimQuotesEnds(s);
    TrimQuotesEnds(left);
    var k := |s| - |left|;
    assert TrimQuotes(s) == s[k..k + |TrimQuotes(s)|];
  }

  lemma {:induction false} TrimQuotesLeftEnds(s: string)
    ensures |TrimQuotesLeft(s)| <= |s| && s[|s| - |TrimQuotesLeft(s)|..] == TrimQuotesLeft(s)
  {
    if s != "" && s[0] == '"' {
      TrimQuotesLeftEnds(s[1..]);
    }
  }

  /** A pattern cannot reach across a character it does not have. */
  lemma AtAcross(a: string, x: char, b: string, e: string, i: int)
    requires e != "" && x !in e
    ensures At(a + [x] + b, e, i) <==> At(a, e, i) || At(b, e, i - |a| - 1)
  {
    var s := a + [x] + b;
    if 0 <= i && i + |e| <= |a| {
      assert s[i..i + |e|] == a[i..i + |e|];
    } else if |a| < i && i + |e| <= |s| {
      assert s[i..i + |e|] == b[i - |a| - 1..i - |a| - 1 + |e|];
    } else if 0 <= i <= |a| && i + |e| <= |s| {
      assert s[i..i + |e|][|a| - i] == x;
    }
  }

  lemma ContainsAcross(a: string, x: char, b: string, e: string)
    requires e != "" && x !in e
    ensures Contains(a + [x] + b, e) <==> Contains(a, e) || Contains(b, e)
  {
    var s := a + [x] + b;
    if Contains(s, e) {
      AtAcross(a, x, b, e, Index(s, e));
    }
    if Contains(a, e) {
      AtAcross(a, x, b, e, Index(a, e));
    }
    if Contains(b, e) {
      AtAcross(a, x, b, e, Index(b, e) + |a| + 1);
    }
  }

  lemma ContainsSameLength(s: string, e: string)
    requires |s| <= |e|
    ensures Contains(s, e) <==> s == e
  {
    if Contains(s, e) {
      assert s[0..|e|] == s;
    } else {
      assert !At(s, e, 0);
      assert |s| == |e| ==> s[0..|e|] == s;
    }
  }

  lemma ContainsFirstChar(s: string, e: string)
    requires e != "" && e[0] !in s
    ensures !Contains(s, e)
  {
    forall i ensures !At(s, e, i) {
      if 0 <= i && i + |e| <= |s| {
        assert s[i..i + |e|][0] == s[i];
      }
    }
  }

  /** Text before the first occurrence does not have the pattern. */
  lemma BeforeFirst(s: string, e: string)
    requires Index(s, e) >= 0 && e != ""
    ensures !Contains(s[..Index(s, e)], e)
  {
    var a := s[..Index(s, e)];
    if Contains(a, e) {
      var i := Index(a, e);
      assert a[i..i + |e|] == s[i..i + |e|];
      assert At(s, e, i);
    }
  }

  /** A piece at the front that ends before the first occurrence does not have the pattern. */
  lemma FrontLacks(s: string, front: string, e: string)
    requires HasPrefix(s, front) && e != "" && Index(s, e) >= 0 && Index(s, e) + |e| > |front|
    ensures !Contains(front, e)
  {
    forall j ensures !At(front, e, j) {
      if 0 <= j && j + |e| <= |front| {
        SliceOfSlice(s, 0, |front|, j, j + |e|);
        assert !At(s, e, j);
      }
    }
  }

  /** If what precedes the first occurrence trims to the field, the field and its space lack the pattern. */
  lemma FieldLacks(s: string, field: string, e: string)
    requires HasPrefix(s, field + " ") && |e| >= 2 && Index(s, e) >= 0
    requires TrimSpace(s[..Index(s, e)]) == field
    ensures !Contains(field + " ", e)
  {
    TrimSpaceShortens(s[..Index(s, e)]);
    FrontLacks(s, field + " ", e);
  }

  ghost predicate PartOf(a: string, s: string, sep: string) {
    !Contains(a, sep) && Within(a, s)
  }

  ghost predicate PartsOf(parts: seq<string>, s: string, sep: string) {
    forall i | 0 <= i < |parts| :: PartOf(parts[i], s, sep)
  }

  /** No part of a split text has the separator, and every part is a piece of the text. */
  lemma {:induction false} SplitParts(s: string, sep: string)
    requires sep != ""
    ensures PartsOf(Split(s, sep), s, sep)
    decreases |s|
  {
    var k := Index(s, sep);
    if k < 0 {
      WithinIs(s, 0, |s|);
      assert s[0..|s|] == s;
    } else {
      var rest := s[k + |sep|..];
      SplitParts(rest, sep);
      BeforeFirst(s, sep);
      WithinIs(s, 0, k);
      WithinIs(s, k + |sep|, |s|);
      PartsWiden(s[..k], Split(rest, sep), rest, s, sep);
    }
  }

  lemma PartsWiden(first: string, parts: seq<string>, piece: string, s: string, sep: string)
    requires PartOf(first, s, sep) && PartsOf(parts, piece, sep) && Within(piece, s)
    ensures PartsOf([first] + parts, s, sep)
  {
    forall i | 0 <= i < |parts| ensures PartOf(parts[i], s, sep) {
      assert PartOf(parts[i], piece, sep);
      WithinTransitive(parts[i], piece, s);
    }
  }
}
