/** How much of an accepted text the parser reads, and what becomes of the rest. */
module CedarTail {
  import opened Text
  import opened CedarEngine
  import opened CedarParser
  import opened CedarPrinter
  import opened CedarRoundTrip

  predicate StartsBlock(t: string) {
    HasPrefix(t, "when") || HasPrefix(t, "unless")
  }

  /** The text at which the loop over the blocks stops. */
  function Unread(text: string): string
    decreases |text|
  {
    var t := TrimSpace(text);
    TrimSpaceShortens(text);
    if HasPrefix(t, "when") && ParseBlock(t[4..]).Ok? then Unread(ParseBlock(t[4..]).value.rest)
    else if !HasPrefix(t, "when") && HasPrefix(t, "unless") && ParseBlock(t[6..]).Ok? then
      Unread(ParseBlock(t[6..]).value.rest)
    else t
  }

  predicate ReadToEnd(text: string) {
    Unread(text) == "" || Unread(text) == ";"
  }

  // ----- the texts that are read to the end -----

  /** A block as it is written: the keyword, space, the text in braces, space. */
  datatype Piece = Piece(keyword: string, gap: string, body: string, after: string)

  predicate Blank(s: string) {
    forall i | 0 <= i < |s| :: IsSpace(s[i])
  }

  predicate IsBlock(p: Piece) {
    (p.keyword == "when" || p.keyword == "unless") && Blank(p.gap) && '}' !in p.body && Blank(p.after)
  }

  predicate AreBlocks(pieces: seq<Piece>) {
    forall i | 0 <= i < |pieces| :: IsBlock(pieces[i])
  }

  function Braced(p: Piece, rest: string): string {
    "{" + p.body + "}" + (p.after + rest)
  }

  function Written(pieces: seq<Piece>, tail: string): string {
    if pieces == [] then tail
    else pieces[0].keyword + (pieces[0].gap + Braced(pieces[0], Written(pieces[1..], tail)))
  }

  /** Nothing but blocks, and then nothing or the semicolon. */
  ghost predicate OnlyBlocks(t: string) {
    exists pieces, tail :: AreBlocks(pieces) && (tail == "" || tail == ";") && t == Written(pieces, tail)
  }

  lemma {:induction false} TrimLeftBlank(gap: string, s: string)
    requires Blank(gap)
    ensures TrimLeft(gap + s) == TrimLeft(s)
  {
    if gap == "" {
      assert gap + s == s;
    } else {
      assert (gap + s)[1..] == gap[1..] + s;
      TrimLeftBlank(gap[1..], s);
    }
  }

  lemma {:induction false} TrimLeftSplits(s: string)
    ensures |TrimLeft(s)| <= |s| && s == s[..|s| - |TrimLeft(s)|] + TrimLeft(s)
    ensures Blank(s[..|s| - |TrimLeft(s)|])
  {
    if s != "" && IsSpace(s[0]) {
      TrimLeftSplits(s[1..]);
      var k := |s| - |TrimLeft(s)|;
      assert s[..k] == [s[0]] + s[1..][..k - 1];
    }
  }

  /** Text with nothing to trim at the end loses only what is blank at the front. */
  lemma SolidTrim(s: string)
    requires s == "" || EndsSolid(s)
    ensures TrimSpace(s) == TrimLeft(s) && Trimmed(TrimLeft(s))
  {
    TrimLeftEnds(s);
    var t := TrimLeft(s);
    if t != "" {
      assert t[|t| - 1] == s[|s| - 1];
    }
  }

  lemma SolidEnd(a: string, b: string)
    requires EndsSolid(a + b) && b != ""
    ensures EndsSolid(b)
  {
    assert (a + b)[|a + b| - 1] == b[|b| - 1];
  }

  /** What the block parser makes of text that is a gap, braces and a rest. */
  lemma BracesParse(x: string, p: Piece, rest: string)
    requires IsBlock(p) && x == p.gap + Braced(p, rest) && EndsSolid(x) && ParseBlock(x).Ok?
    requires rest == "" || Trimmed(rest)
    ensures ParseBlock(x).value.rest == rest
  {
    var t := Braced(p, rest);
    SolidEnd(p.gap, t);
    SolidTrim(x);
    TrimLeftBlank(p.gap, t);
    assert TrimSpace(x) == t;
    BraceAt(p, rest);
    RestTrims(p.after, rest);
  }

  lemma BraceAt(p: Piece, rest: string)
    requires '}' !in p.body
    ensures var t := Braced(p, rest);
            Index(t, "}") == |p.body| + 1 && t[|p.body| + 2..] == p.after + rest && t[0] == '{'
  {
    IndexOfChar("{" + p.body, '}', p.after + rest);
    assert Braced(p, rest) == "{" + p.body + ['}'] + (p.after + rest);
  }

  lemma RestTrims(after: string, rest: string)
    requires Blank(after) && Trimmed(rest)
    ensures TrimSpace(after + rest) == rest
  {
    TrimLeftBlank(after, rest);
    TrimmedStays(rest);
  }

  /** A written list of blocks is trimmed when the text it ends is. */
  lemma WrittenTrimmed(a: string, pieces: seq<Piece>, tail: string)
    requires AreBlocks(pieces) && (tail == "" || tail == ";")
    requires EndsSolid(a + Written(pieces, tail))
    ensures Trimmed(Written(pieces, tail))
  {
    var w := Written(pieces, tail);
    if w != "" {
      SolidEnd(a, w);
      if pieces != [] {
        assert IsBlock(pieces[0]) && w[0] == pieces[0].keyword[0];
      }
    }
  }

  lemma KeywordTells(pieces: seq<Piece>, tail: string)
    requires pieces != [] && IsBlock(pieces[0])
    ensures var t, k := Written(pieces, tail), pieces[0].keyword;
            && HasPrefix(t, k) && t[|k|..] == pieces[0].gap + Braced(pieces[0], Written(pieces[1..], tail))
            && (k == "unless" ==> !HasPrefix(t, "when")) && t != ";" && t != ""
  {
    var t, k := Written(pieces, tail), pieces[0].keyword;
    assert t == k + (pieces[0].gap + Braced(pieces[0], Written(pieces[1..], tail)));
    assert t[0] == k[0];
  }

  /** An accepted text that is only blocks is read to the end. */
  lemma {:induction false} BlocksAreRead(p: Policy, text: string, pieces: seq<Piece>, tail: string)
    requires ParseBlocks(p, text).Ok? && AreBlocks(pieces) && (tail == "" || tail == ";")
    requires TrimSpace(text) == Written(pieces, tail)
    ensures Unread(text) == tail
    decreases |pieces|
  {
    var t := TrimSpace(text);
    if pieces != [] {
      var piece, rest := pieces[0], Written(pieces[1..], tail);
      KeywordTells(pieces, tail);
      TrimSpaceShortens(text);
      var x := t[|piece.keyword|..];
      SolidEnd(piece.keyword, x);
      OneBlockRead(p, text, piece, rest, pieces[1..], tail);
      var q := if piece.keyword == "when" then p.(whens := ParseBlock(x).value.conds)
               else p.(unlesses := ParseBlock(x).value.conds);
      TrimmedStays(rest);
      BlocksAreRead(q, rest, pieces[1..], tail);
    }
  }

  lemma OneBlockRead(p: Policy, text: string, piece: Piece, rest: string, others: seq<Piece>, tail: string)
    requires ParseBlocks(p, text).Ok? && IsBlock(piece) && AreBlocks(others) && (tail == "" || tail == ";")
    requires rest == Written(others, tail)
    requires TrimSpace(text) == piece.keyword + (piece.gap + Braced(piece, rest))
    ensures Trimmed(rest)
    ensures var x := piece.gap + Braced(piece, rest);
            && ParseBlock(x).Ok? && ParseBlock(x).value.rest == rest && Unread(text) == Unread(rest)
            && ParseBlocks(p, text) ==
               ParseBlocks(if piece.keyword == "when" then p.(whens := ParseBlock(x).value.conds)
                           else p.(unlesses := ParseBlock(x).value.conds), rest)
  {
    var t, x := TrimSpace(text), piece.gap + Braced(piece, rest);
    KeywordTells([piece] + others, tail);
    assert ([piece] + others)[1..] == others;
    TrimSpaceShortens(text);
    SolidEnd(piece.keyword, x);
    BracedSolid(piece, rest, others, tail);
    BracesParse(x, piece, rest);
  }

  lemma BracedSolid(piece: Piece, rest: string, others: seq<Piece>, tail: string)
    requires AreBlocks(others) && (tail == "" || tail == ";") && rest == Written(others, tail)
    requires EndsSolid(piece.gap + Braced(piece, rest))
    ensures Trimmed(rest)
  {
    var a := piece.gap + ("{" + piece.body + "}" + piece.after);
    assert piece.gap + Braced(piece, rest) == a + rest;
    WrittenTrimmed(a, others, tail);
  }

  /** Every accepted text is blocks and then what is left unread. */
  lemma {:induction false} PiecesOf(p: Policy, text: string) returns (pieces: seq<Piece>)
    requires ParseBlocks(p, text).Ok?
    ensures AreBlocks(pieces) && TrimSpace(text) == Written(pieces, Unread(text))
    decreases |text|
  {
    var t := TrimSpace(text);
    TrimSpaceShortens(text);
    if t == ";" || t == "" || !StartsBlock(t) {
      pieces := [];
    } else {
      var keyword := if HasPrefix(t, "when") then "when" else "unless";
      var b := ParseBlock(t[|keyword|..]).value;
      var q := if keyword == "when" then p.(whens := b.conds) else p.(unlesses := b.conds);
      var others := PiecesOf(q, b.rest);
      var piece := PieceOf(keyword, t);
      TrimTwice(t[|keyword|..]);
      pieces := [piece] + others;
      assert pieces[1..] == others;
      assert TrimSpace(b.rest) == b.rest by {
        RestIsTrimmed(t[|keyword|..]);
      }
    }
  }

  lemma RestIsTrimmed(x: string)
    requires ParseBlock(x).Ok?
    ensures TrimSpace(ParseBlock(x).value.rest) == ParseBlock(x).value.rest
  {
    var t := TrimSpace(x);
    TrimTwice(t[Index(t, "}") + 1..]);
  }

  lemma BlankSplit(s: string) returns (gap: string)
    requires s == "" || EndsSolid(s)
    ensures Blank(gap) && s == gap + TrimSpace(s)
  {
    SolidTrim(s);
    TrimLeftSplits(s);
    gap := s[..|s| - |TrimLeft(s)|];
  }

  lemma BracesSplit(t: string) returns (body: string, after: string)
    requires HasPrefix(t, "{") && Index(t, "}") >= 0
    ensures '}' !in body && after == t[Index(t, "}") + 1..] && t == "{" + body + "}" + after
  {
    var end := Index(t, "}");
    BraceFirst(t, '{', '}');
    CharBeforeFirst(t, '}', end);
    body, after := t[1..end], t[end + 1..];
    assert forall i | 0 <= i < |body| :: body[i] == t[..end][i + 1];
    assert t[..1] == "{" && t[end..end + 1] == "}";
    assert t == t[..1] + t[1..end] + t[end..end + 1] + t[end + 1..];
  }

  lemma PieceOf(keyword: string, t: string) returns (piece: Piece)
    requires (keyword == "when" || keyword == "unless") && HasPrefix(t, keyword) && Trimmed(t)
    requires ParseBlock(t[|keyword|..]).Ok?
    ensures IsBlock(piece) && piece.keyword == keyword
    ensures t == keyword + (piece.gap + Braced(piece, ParseBlock(t[|keyword|..]).value.rest))
  {
    var x := t[|keyword|..];
    PrefixSplits(t, keyword);
    if x != "" {
      SolidEnd(keyword, x);
    }
    BlockIsBraced(x);
    SolidTrim(x);
    var gap := BlankSplit(x);
    var body, gap' := BracedPiece(TrimSpace(x));
    piece := Piece(keyword, gap, body, gap');
  }

  function AfterBrace(t: string): string
    requires Index(t, "}") >= 0
  {
    TrimSpace(t[Index(t, "}") + 1..])
  }

  lemma BlockIsBraced(x: string)
    requires ParseBlock(x).Ok?
    ensures HasPrefix(TrimSpace(x), "{") && Index(TrimSpace(x), "}") >= 0
    ensures ParseBlock(x).value.rest == AfterBrace(TrimSpace(x))
  {
  }

  lemma PrefixSplits(t: string, p: string)
    requires HasPrefix(t, p)
    ensures t == p + t[|p|..]
  {
    assert t == t[..|p|] + t[|p|..];
  }

  lemma BracedPiece(t: string) returns (body: string, gap: string)
    requires Trimmed(t) && HasPrefix(t, "{") && Index(t, "}") >= 0
    ensures '}' !in body && Blank(gap)
    ensures t == "{" + body + "}" + (gap + AfterBrace(t))
  {
    var after;
    body, after := BracesSplit(t);
    if after != "" {
      SolidEnd("{" + body + "}", after);
    }
    gap := BlankSplit(after);
  }

  /** An accepted text is read to the end exactly when it is nothing but blocks, and then nothing or the semicolon. */
  lemma ReadToEndExactlyWhen(p: Policy, text: string)
    requires ParseBlocks(p, text).Ok?
    ensures ReadToEnd(text) <==> OnlyBlocks(TrimSpace(text))
  {
    if ReadToEnd(text) {
      var pieces := PiecesOf(p, text);
    }
    if OnlyBlocks(TrimSpace(text)) {
      var pieces, tail :| AreBlocks(pieces) && (tail == "" || tail == ";") && TrimSpace(text) == Written(pieces, tail);
      BlocksAreRead(p, text, pieces, tail);
    }
  }

  // ----- what becomes of the rest -----

  /** Whatever follows a printed policy is dropped without a word when it starts with neither keyword. */
  lemma TailIsDropped(p: Policy, tail: string)
    requires Printable(p) && EndsSolid(tail) && !StartsBlock(TrimSpace(tail))
    ensures Parse(p.id, PrintWith(p, tail)) == Ok(p)
  {
    PrintableParses(p, tail);
  }

  const ANY: Match := Match(true, "", "")

  function Unconditional(id: string): Policy {
    Policy(id, PERMIT, ANY, ANY, ANY, [], [])
  }

  lemma UnconditionalPrints(id: string, tail: string)
    ensures Printable(Unconditional(id))
    ensures PrintWith(Unconditional(id), tail) == "permit" + ("(*, *, *)" + tail)
  {
    assert "(" + PrintTargets(Unconditional(id)) + ")" == "(*, *, *)";
    assert "" + ("" + tail) == tail;
  }

  /** So a misspelt keyword turns a restricted permit into an unrestricted one. */
  lemma MisspeltUnlessIsDropped(id: string, body: string)
    ensures Parse(id, "permit" + ("(*, *, *)" + (" unles {" + body + "};"))) == Ok(Unconditional(id))
  {
    UnconditionalPrints(id, " unles {" + body + "};");
    MisspeltStartsNothing(body);
    TailIsDropped(Unconditional(id), " unles {" + body + "};");
  }

  lemma PrefixChar(t: string, p: string, i: nat)
    requires HasPrefix(t, p) && i < |p|
    ensures i < |t| && t[i] == p[i]
  {
    assert t[..|p|][i] == t[i];
  }

  lemma MisspeltStartsNothing(body: string)
    ensures EndsSolid(" unles {" + body + "};") && !StartsBlock(TrimSpace(" unles {" + body + "};"))
  {
    var t := "unles {" + body + "};";
    assert " unles {" + body + "};" == " " + t;
    assert t[|t| - 1] == ';' && t[0] == 'u' && t[5] == ' ';
    TrimLeadingSpace(t);
    TrimmedStays(t);
    if HasPrefix(t, "unless") {
      PrefixChar(t, "unless", 5);
      assert false;
    }
    if HasPrefix(t, "when") {
      PrefixChar(t, "when", 0);
      assert false;
    }
  }
}
