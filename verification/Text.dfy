/** The parts of Go's strings package that the repository relies on, with what is needed to reason about them. */
module Text {

  // ----- occurrences -----

  predicate At(s: string, sub: string, i: int) {
    0 <= i && i + |sub| <= |s| && s[i..i + |sub|] == sub
  }

  lemma AtInTail(s: string, sub: string, i: int)
    requires s != "" && i >= 1
    ensures At(s, sub, i) <==> At(s[1..], sub, i - 1)
  {
    if i + |sub| <= |s| {
      var a, b := s[i..i + |sub|], s[1..][i - 1..i - 1 + |sub|];
      assert |a| == |b| && forall k | 0 <= k < |sub| :: a[k] == b[k];
    }
  }

  lemma AtInTails(s: string, sub: string)
    requires s != ""
    ensures forall i | 1 <= i :: At(s, sub, i) <==> At(s[1..], sub, i - 1)
  {
    forall i | 1 <= i ensures At(s, sub, i) <==> At(s[1..], sub, i - 1) {
      AtInTail(s, sub, i);
    }
  }

  /** The first occurrence, or -1. */
  function Index(s: string, sub: string): (r: int)
    ensures r == -1 || (At(s, sub, r) && forall i | 0 <= i < r :: !At(s, sub, i))
    ensures r == -1 ==> forall i :: !At(s, sub, i)
    decreases |s|
  {
    if At(s, sub, 0) then 0
    else if s == "" then assert forall i :: !At(s, sub, i); -1
    else
      AtInTails(s, sub);
      var r := Index(s[1..], sub);
      if r == -1 then -1 else
        assert At(s, sub, r + 1) by { AtInTail(s, sub, r + 1); }
        r + 1
  }

  predicate Contains(s: string, sub: string) {
    Index(s, sub) >= 0
  }

  predicate HasPrefix(s: string, p: string) {
    |p| <= |s| && s[..|p|] == p
  }

  predicate HasSuffix(s: string, p: string) {
    |p| <= |s| && s[|s| - |p|..] == p
  }

  /** An occurrence that nothing precedes is the first. */
  lemma IndexIs(s: string, sub: string, i: nat)
    requires At(s, sub, i) && forall j | 0 <= j < i :: !At(s, sub, j)
    ensures Index(s, sub) == i
  {
  }

  lemma OccurrenceIn(s: string, sub: string, i: int)
    requires At(s, sub, i)
    ensures Contains(s, sub)
  {
  }

  lemma AtChar(s: string, c: char, i: int)
    ensures At(s, [c], i) <==> 0 <= i < |s| && s[i] == c
  {
    if 0 <= i < |s| {
      assert s[i..i + 1] == [s[i]];
    }
  }

  /** A character that is not in the text before it first occurs right after. */
  lemma IndexOfChar(a: string, c: char, b: string)
    requires c !in a
    ensures Index(a + [c] + b, [c]) == |a|
  {
    var s := a + [c] + b;
    AtChar(s, c, |a|);
    forall j | 0 <= j < |a| ensures !At(s, [c], j) {
      AtChar(s, c, j);
      assert s[j] == a[j];
    }
    IndexIs(s, [c], |a|);
  }

  lemma NoIndexOfChar(a: string, c: char)
    requires c !in a
    ensures Index(a, [c]) == -1
  {
    forall i ensures !At(a, [c], i) {
      AtChar(a, c, i);
    }
  }

  // ----- trimming -----

  /** unicode.IsSpace, which strings.TrimSpace uses. */
  predicate IsSpace(c: char) {
    var u := c as int;
    || 9 <= u <= 13 || u == 0x20 || u == 0x85 || u == 0xA0 || u == 0x1680
    || 0x2000 <= u <= 0x200A || u == 0x2028 || u == 0x2029 || u == 0x202F || u == 0x205F || u == 0x3000
  }

  function TrimLeft(s: string): string {
    if s != "" && IsSpace(s[0]) then TrimLeft(s[1..]) else s
  }

  function TrimRight(s: string): string {
    if s != "" && IsSpace(s[|s| - 1]) then TrimRight(s[..|s| - 1]) else s
  }

  function TrimSpace(s: string): string {
    TrimRight(TrimLeft(s))
  }

  predicate Trimmed(s: string) {
    s == "" || (!IsSpace(s[0]) && !IsSpace(s[|s| - 1]))
  }

  lemma {:induction false} TrimRightEnds(s: string)
    ensures TrimRight(s) <= s
    ensures TrimRight(s) == "" || !IsSpace(TrimRight(s)[|TrimRight(s)| - 1])
  {
    if s != "" && IsSpace(s[|s| - 1]) {
      TrimRightEnds(s[..|s| - 1]);
    }
  }

  lemma {:induction false} TrimLeftEnds(s: string)
    ensures |TrimLeft(s)| <= |s| && s[|s| - |TrimLeft(s)|..] == TrimLeft(s)
    ensures TrimLeft(s) == "" || !IsSpace(TrimLeft(s)[0])
  {
    if s != "" && IsSpace(s[0]) {
      TrimLeftEnds(s[1..]);
    }
  }

  lemma TrimSpaceShortens(s: string)
    ensures |TrimSpace(s)| <= |s| && Trimmed(TrimSpace(s))
  {
    TrimLeftEnds(s);
    TrimRightEnds(TrimLeft(s));
  }

  lemma TrimmedStays(s: string)
    requires Trimmed(s)
    ensures TrimSpace(s) == s
  {
  }

  lemma TrimLeadingSpace(s: string)
    ensures TrimSpace(" " + s) == TrimSpace(s)
  {
    assert (" " + s)[1..] == s;
  }

  lemma TrimTrailingSpace(s: string)
    requires s != "" && Trimmed(s)
    ensures TrimSpace(s + " ") == s
  {
    var t := s + " ";
    assert t[0] == s[0] && TrimLeft(t) == t;
    assert t[..|t| - 1] == s && TrimRight(t) == TrimRight(s) == s;
  }

  // ----- stripping a set of characters, here the double quote -----

  function TrimQuotesLeft(s: string): string {
    if s != "" && s[0] == '"' then TrimQuotesLeft(s[1..]) else s
  }

  function TrimQuotesRight(s: string): string {
    if s != "" && s[|s| - 1] == '"' then TrimQuotesRight(s[..|s| - 1]) else s
  }

  /** strings.Trim(s, "\"") */
  function TrimQuotes(s: string): string {
    TrimQuotesRight(TrimQuotesLeft(s))
  }

  predicate Unquoted(s: string) {
    s == "" || (s[0] != '"' && s[|s| - 1] != '"')
  }

  lemma {:induction false} TrimQuotesEnds(s: string)
    ensures TrimQuotesLeft(s) == "" || TrimQuotesLeft(s)[0] != '"'
    ensures TrimQuotesRight(s) == "" || TrimQuotesRight(s)[|TrimQuotesRight(s)| - 1] != '"'
    ensures TrimQuotesRight(s) <= s
  {
    if s != "" && s[0] == '"' {
      TrimQuotesEnds(s[1..]);
    }
    if s != "" && s[|s| - 1] == '"' {
      TrimQuotesEnds(s[..|s| - 1]);
    }
  }

  /** Quoting and stripping quotes gives the value back exactly when the value has no quote at either end. */
  lemma QuotesRoundTripExactlyWhen(v: string)
    ensures TrimQuotes("\"" + v + "\"") == v <==> Unquoted(v)
  {
    var q := "\"" + v + "\"";
    assert q[1..] == v + "\"";
    var left := TrimQuotesLeft(v + "\"");
    TrimQuotesEnds(v + "\"");
    TrimQuotesEnds(left);
    if Unquoted(v) {
      if v == "" {
        assert (v + "\"")[1..] == "";
      } else {
        assert left == v + "\"";
        assert left[..|left| - 1] == v;
      }
    }
  }

  // ----- splitting and joining -----

  function Split(s: string, sep: string): (parts: seq<string>)
    requires sep != ""
    ensures |parts| >= 1
    decreases |s|
  {
    var i := Index(s, sep);
    if i < 0 then [s] else [s[..i]] + Split(s[i + |sep|..], sep)
  }

  /** strings.SplitN for n >= 1 */
  function SplitN(s: string, sep: string, n: nat): (parts: seq<string>)
    requires sep != "" && n >= 1
    ensures 1 <= |parts| <= n
    decreases n
  {
    var i := Index(s, sep);
    if n == 1 || i < 0 then [s] else [s[..i]] + SplitN(s[i + |sep|..], sep, n - 1)
  }

  function Join(parts: seq<string>, sep: string): string {
    if parts == [] then ""
    else if |parts| == 1 then parts[0]
    else parts[0] + sep + Join(parts[1..], sep)
  }

  /** Splitting on one character undoes joining, when no part contains it. */
  lemma {:induction false} SplitJoinChar(parts: seq<string>, c: char)
    requires parts != [] && forall i | 0 <= i < |parts| :: c !in parts[i]
    ensures Split(Join(parts, [c]), [c]) == parts
  {
    if |parts| == 1 {
      NoIndexOfChar(parts[0], c);
    } else {
      var rest := Join(parts[1..], [c]);
      IndexOfChar(parts[0], c, rest);
      var s := parts[0] + [c] + rest;
      assert s[..|parts[0]|] == parts[0] && s[|parts[0]| + 1..] == rest;
      SplitJoinChar(parts[1..], c);
    }
  }

  lemma ConcatAssociative(a: string, b: string, c: string)
    ensures a + b + c == a + (b + c)
  {
  }

  lemma Cut(s: string, sep: string, i: int)
    requires At(s, sep, i)
    ensures s == s[..i] + sep + s[i + |sep|..]
  {
    assert s == s[..i] + s[i..i + |sep|] + s[i + |sep|..];
  }

  lemma JoinMore(first: string, rest: seq<string>, sep: string)
    requires rest != []
    ensures Join([first] + rest, sep) == first + sep + Join(rest, sep)
  {
    assert ([first] + rest)[1..] == rest;
  }

  /** Joining undoes splitting, always. */
  lemma {:induction false} JoinSplit(s: string, sep: string)
    requires sep != ""
    ensures Join(Split(s, sep), sep) == s
    decreases |s|
  {
    var i := Index(s, sep);
    if i >= 0 {
      Cut(s, sep, i);
      JoinSplit(s[i + |sep|..], sep);
      JoinMore(s[..i], Split(s[i + |sep|..], sep), sep);
    }
  }

  // ----- scope lists -----

  /** The maximal runs of characters other than the space, in order. */
  function Words(s: string): (words: seq<string>)
    decreases |s|
  {
    if s == "" then []
    else if s[|s| - 1] == ' ' then Words(s[..|s| - 1])
    else
      var k := WordStart(s);
      Words(s[..k]) + [s[k..]]
  }

  /** Where the word that ends the text begins. */
  function WordStart(s: string): (k: nat)
    requires s != "" && s[|s| - 1] != ' '
    ensures k < |s| && (forall i | k <= i < |s| :: s[i] != ' ') && (k > 0 ==> s[k - 1] == ' ')
  {
    if |s| == 1 || s[|s| - 2] == ' ' then |s| - 1
    else
      var k := WordStart(s[..|s| - 1]);
      k
  }

  predicate IsWord(w: string) {
    w != "" && ' ' !in w
  }

  lemma {:induction false} WordsAreWords(s: string)
    ensures forall i | 0 <= i < |Words(s)| :: IsWord(Words(s)[i])
    decreases |s|
  {
    if s != "" {
      if s[|s| - 1] == ' ' {
        WordsAreWords(s[..|s| - 1]);
      } else {
        WordsAreWords(s[..WordStart(s)]);
      }
    }
  }

  lemma WordStartIs(s: string, k: nat)
    requires k < |s| && (forall i | k <= i < |s| :: s[i] != ' ') && (k > 0 ==> s[k - 1] == ' ')
    ensures WordStart(s) == k
  {
  }

  lemma WordsAppend(s: string, w: string)
    requires IsWord(w)
    ensures Words(s + " " + w) == Words(s) + [w]
  {
    var head := s + " ";
    WordStartIs(head + w, |head|);
    assert (head + w)[..|head|] == head && (head + w)[|head|..] == w;
    assert head[..|head| - 1] == s;
  }

  /** Join with a space, seen from the last part. */
  function JoinLast(words: seq<string>): string
    decreases |words|
  {
    if words == [] then ""
    else if |words| == 1 then words[0]
    else JoinLast(words[..|words| - 1]) + " " + words[|words| - 1]
  }

  lemma {:induction false} JoinLastIsJoin(words: seq<string>)
    ensures JoinLast(words) == Join(words, " ")
    decreases |words|
  {
    if |words| >= 2 {
      JoinLastIsJoin(words[..|words| - 1]);
      JoinAppend(words[..|words| - 1], words[|words| - 1]);
      assert words == words[..|words| - 1] + [words[|words| - 1]];
    }
  }

  lemma {:induction false} JoinAppend(words: seq<string>, w: string)
    requires words != []
    ensures Join(words + [w], " ") == Join(words, " ") + " " + w
  {
    if |words| > 1 {
      JoinAppend(words[1..], w);
      assert (words + [w])[1..] == words[1..] + [w];
    } else {
      assert (words + [w])[1..] == [w];
    }
  }

  lemma {:induction false} WordsOfJoinLast(words: seq<string>)
    requires forall i | 0 <= i < |words| :: IsWord(words[i])
    ensures Words(JoinLast(words)) == words
    decreases |words|
  {
    if words != [] {
      var before, w := words[..|words| - 1], words[|words| - 1];
      WordsOfJoinLast(before);
      if before == [] {
        WordStartIs(w, 0);
        assert w[..0] == "" && w[0..] == w;
      } else {
        WordsAppend(JoinLast(before), w);
      }
    }
  }

  /** A scope list survives being joined with spaces, as the token endpoint writes it, and split again. */
  lemma WordsOfJoined(words: seq<string>)
    requires forall i | 0 <= i < |words| :: IsWord(words[i])
    ensures Words(Join(words, " ")) == words
  {
    WordsOfJoinLast(words);
    JoinLastIsJoin(words);
  }

  predicate Spaces(s: string) {
    forall i | 0 <= i < |s| :: s[i] == ' '
  }

  /** Words with spaces around and between them: gaps[i] comes before words[i], and the last gap at the end. */
  function Spread(gaps: seq<string>, words: seq<string>): string
    requires |gaps| == |words| + 1
    decreases |words|
  {
    if words == [] then gaps[0]
    else
      var k := |words| - 1;
      Spread(gaps[..k + 1], words[..k]) + words[k] + gaps[k + 1]
  }

  lemma {:induction false} WordsIgnoreTrailing(s: string, gap: string)
    requires Spaces(gap)
    ensures Words(s + gap) == Words(s)
    decreases |gap|
  {
    if gap == "" {
      assert s + gap == s;
    } else {
      var k := |gap| - 1;
      assert (s + gap)[..|s + gap| - 1] == s + gap[..k];
      WordsIgnoreTrailing(s, gap[..k]);
    }
  }

  lemma WordAtEnd(s: string, w: string)
    requires IsWord(w) && (s == "" || s[|s| - 1] == ' ')
    ensures Words(s + w) == Words(s) + [w]
  {
    WordStartIs(s + w, |s|);
    assert (s + w)[..|s|] == s && (s + w)[|s|..] == w;
  }

  lemma SpreadEnds(gaps: seq<string>, words: seq<string>)
    requires |gaps| == |words| + 1 && (forall i | 0 <= i < |gaps| :: Spaces(gaps[i]))
    requires words != [] ==> gaps[|words|] != ""
    ensures Spread(gaps, words) == "" || Spread(gaps, words)[|Spread(gaps, words)| - 1] == ' '
  {
  }

  /** However many spaces there are before, between and after the words, exactly the words are found, in order. */
  lemma {:induction false} WordsOfSpread(gaps: seq<string>, words: seq<string>)
    requires |gaps| == |words| + 1 && (forall i | 0 <= i < |gaps| :: Spaces(gaps[i]))
    requires forall i | 0 < i < |words| :: gaps[i] != ""
    requires forall i | 0 <= i < |words| :: IsWord(words[i])
    ensures Words(Spread(gaps, words)) == words
    decreases |words|
  {
    if words == [] {
      WordsIgnoreTrailing("", gaps[0]);
      assert "" + gaps[0] == gaps[0];
    } else {
      var k := |words| - 1;
      var before := Spread(gaps[..k + 1], words[..k]);
      WordsOfSpread(gaps[..k + 1], words[..k]);
      SpreadEnds(gaps[..k + 1], words[..k]);
      WordAtEnd(before, words[k]);
      WordsIgnoreTrailing(before + words[k], gaps[k + 1]);
      assert words == words[..k] + [words[k]];
    }
  }

  /** pkce.split and ciba.splitScope: one pass with an index and the start of the current word. */
  method SplitWords(s: string) returns (words: seq<string>)
    ensures words == Words(s)
    ensures forall i | 0 <= i < |words| :: IsWord(words[i])
  {
    words := [];
    var start := 0;
    for i := 0 to |s|
      invariant 0 <= start <= i
      invariant forall j | start <= j < i :: s[j] != ' '
      invariant start > 0 ==> s[start - 1] == ' '
      invariant words == Words(s[..start])
    {
      if s[i] == ' ' {
        var before := s[..i];
        assert s[..i + 1][..i] == before;
        if i > start {
          WordStartIs(before, start);
          assert before[..start] == s[..start] && before[start..] == s[start..i];
          words := words + [s[start..i]];
        }
        assert Words(s[..i + 1]) == Words(before);
        start := i + 1;
      }
    }
    if start < |s| {
      WordStartIs(s, start);
      words := words + [s[start..]];
    }
    assert s[..|s|] == s;
    WordsAreWords(s);
  }
}
