/** What the engine's patterns match, compared with what stars mean. */
module CedarGlob {
  import opened Text
  import opened CedarEngine

  /** A star stands for any text, every other character for itself. */
  ghost predicate Stars(pattern: string, value: string)
    decreases |pattern|
  {
    if pattern == "" then value == ""
    else if pattern[0] == '*' then exists k | 0 <= k <= |value| :: Stars(pattern[1..], value[k..])
    else value != "" && value[0] == pattern[0] && Stars(pattern[1..], value[1..])
  }

  lemma {:induction false} StarsPlain(pattern: string, value: string)
    requires '*' !in pattern
    ensures Stars(pattern, value) <==> pattern == value
  {
    if pattern != "" && value != "" {
      StarsPlain(pattern[1..], value[1..]);
      assert pattern == [pattern[0]] + pattern[1..] && value == [value[0]] + value[1..];
    }
  }

  lemma {:induction false} StarsAfter(pre: string, rest: string, value: string)
    requires '*' !in pre
    ensures Stars(pre + rest, value) <==> HasPrefix(value, pre) && Stars(rest, value[|pre|..])
  {
    if pre == "" {
      assert pre + rest == rest && value[0..] == value && value[..0] == "";
    } else {
      assert (pre + rest)[1..] == pre[1..] + rest;
      if value != "" {
        StarsAfter(pre[1..], rest, value[1..]);
        if |pre| <= |value| {
          assert value[1..][|pre| - 1..] == value[|pre|..];
          assert value[..|pre|] == [value[0]] + value[1..][..|pre| - 1] && pre == [pre[0]] + pre[1..];
        }
      }
    }
  }

  /** With one star, the value is the first half, anything, and the second half. */
  lemma StarsOne(pre: string, suf: string, value: string)
    requires '*' !in pre && '*' !in suf
    ensures Stars(pre + "*" + suf, value) <==> Wildcard(pre, suf, value)
  {
    assert pre + "*" + suf == pre + ("*" + suf) && ("*" + suf)[1..] == suf;
    StarsAfter(pre, "*" + suf, value);
    SplitAround(pre, suf, value);
    if HasPrefix(value, pre) {
      var tail := value[|pre|..];
      forall k | 0 <= k <= |tail| ensures Stars(suf, tail[k..]) <==> suf == tail[k..] {
        StarsPlain(suf, tail[k..]);
      }
      if |value| >= |pre| + |suf| && HasSuffix(value, suf) {
        assert tail[|tail| - |suf|..] == suf;
      }
      if k :| 0 <= k <= |tail| && suf == tail[k..] {
        assert value[|value| - |suf|..] == suf;
      }
    }
  }

  /** The pattern with every star taken for the empty text. */
  function Starless(pattern: string): string {
    if pattern == "" then ""
    else if pattern[0] == '*' then Starless(pattern[1..])
    else [pattern[0]] + Starless(pattern[1..])
  }

  lemma {:induction false} StarlessMatches(pattern: string)
    ensures Stars(pattern, Starless(pattern))
  {
    if pattern != "" {
      StarlessMatches(pattern[1..]);
      var value := Starless(pattern);
      if pattern[0] == '*' {
        assert value[0..] == Starless(pattern[1..]);
      } else {
        assert value[1..] == Starless(pattern[1..]);
      }
    }
  }

  lemma NotIn(s: string)
    ensures Index(s, "*") < 0 ==> '*' !in s
    ensures Index(s, "*") >= 0 ==> '*' !in s[..Index(s, "*")] && s[Index(s, "*")] == '*'
  {
    forall i ensures At(s, "*", i) <==> 0 <= i < |s| && s[i] == '*' {
      AtChar(s, '*', i);
    }
  }

  /** The pattern is compared as stars mean: it has at most one, and its halves cannot overlap. */
  ghost predicate MeansStars(pattern: string) {
    var parts := Split(pattern, "*");
    |parts| == 1 || (|parts| == 2 && forall k :: !Overlap(parts[0], parts[1], k))
  }

  lemma OneStarExactlyWhen(pre: string, suf: string)
    requires '*' !in pre && '*' !in suf
    ensures (forall value :: GlobMatch(pre + "*" + suf, value) <==> Stars(pre + "*" + suf, value))
            <==> forall k :: !Overlap(pre, suf, k)
  {
    forall value ensures Stars(pre + "*" + suf, value) <==> Wildcard(pre, suf, value) {
      StarsOne(pre, suf, value);
    }
    GlobIsWildcardExactlyWhen(pre, suf);
  }

  lemma NoStarAgrees(pattern: string)
    requires '*' !in pattern
    ensures forall value :: GlobMatch(pattern, value) <==> Stars(pattern, value)
    ensures MeansStars(pattern)
  {
    NoIndexOfChar(pattern, '*');
    forall value ensures GlobMatch(pattern, value) <==> Stars(pattern, value) {
      StarsPlain(pattern, value);
    }
  }

  /** A pattern with more than one star matches no value at all. */
  lemma MoreStarsNeverMatch(pattern: string, value: string)
    requires |Split(pattern, "*")| > 2
    ensures !GlobMatch(pattern, value)
  {
    StarAlone();
  }

  lemma StarAlone()
    ensures Split("*", "*") == ["", ""]
  {
    NoIndexOfChar("", '*');
    AtChar("*", '*', 0);
    assert Index("*", "*") == 0 && "*"[1..] == "";
  }

  /**
    The engine matches a pattern against every value as its stars mean, exactly when the pattern has at
    most one star and no end of the part before it begins the part after it.
  */
  lemma GlobMeansStarsExactlyWhen(pattern: string)
    ensures (forall value :: GlobMatch(pattern, value) <==> Stars(pattern, value)) <==> MeansStars(pattern)
  {
    NotIn(pattern);
    var i := Index(pattern, "*");
    if i < 0 {
      NoStarAgrees(pattern);
    } else {
      var pre, suf := pattern[..i], pattern[i + 1..];
      SplitAtStar(pattern, i);
      NotIn(suf);
      if Index(suf, "*") < 0 {
        OneStarExactlyWhen(pre, suf);
      } else {
        MoreStarsNeverMatch(pattern, Starless(pattern));
        StarlessMatches(pattern);
      }
    }
  }

  lemma SplitAtStar(pattern: string, i: nat)
    requires i == Index(pattern, "*") && i < |pattern| && pattern[i] == '*'
    ensures var suf := pattern[i + 1..];
            && pattern == pattern[..i] + "*" + suf
            && (if Index(suf, "*") < 0 then Split(pattern, "*") == [pattern[..i], suf]
                else |Split(pattern, "*")| > 2)
  {
    var suf := pattern[i + 1..];
    assert pattern == pattern[..i] + [pattern[i]] + suf;
    assert Split(pattern, "*") == [pattern[..i]] + Split(suf, "*");
  }
}
