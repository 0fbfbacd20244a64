/** The canonical strings of an AWS Signature Version 4 request. A string is its bytes, one character below 256 each. */
module SigV4 {
  import opened Text

  predicate IsBytes(s: string) {
    forall i | 0 <= i < |s| :: (s[i] as int) < 256
  }

  predicate Unreserved(c: char) {
    'A' <= c <= 'Z' || 'a' <= c <= 'z' || '0' <= c <= '9' || c == '_' || c == '-' || c == '~' || c == '.'
  }

  function HexDigit(d: nat): char
    requires d < 16
  {
    "0123456789ABCDEF"[d]
  }

  // ----- percent encoding -----

  predicate Kept(c: char, encodeSlash: bool) {
    Unreserved(c) || (c == '/' && !encodeSlash)
  }

  function EncodeByte(c: char, encodeSlash: bool): string
    requires (c as int) < 256
  {
    if Kept(c, encodeSlash) then [c]
    else ['%', HexDigit(c as int / 16), HexDigit(c as int % 16)]
  }

  function Encode(s: string, encodeSlash: bool): string
    requires IsBytes(s)
  {
    if s == "" then "" else EncodeByte(s[0], encodeSlash) + Encode(s[1..], encodeSlash)
  }

  lemma {:induction false} EncodeConcat(a: string, b: string, encodeSlash: bool)
    requires IsBytes(a) && IsBytes(b)
    ensures Encode(a + b, encodeSlash) == Encode(a, encodeSlash) + Encode(b, encodeSlash)
  {
    if a == "" {
      assert a + b == b;
    } else {
      assert (a + b)[1..] == a[1..] + b;
      EncodeConcat(a[1..], b, encodeSlash);
    }
  }

  method UriEncode(s: string, encodeSlash: bool) returns (out: string)
    requires IsBytes(s)
    ensures out == Encode(s, encodeSlash)
  {
    out := "";
    for i := 0 to |s|
      invariant out == Encode(s[..i], encodeSlash)
    {
      var c := s[i];
      EncodeConcat(s[..i], [c], encodeSlash);
      assert s[..i + 1] == s[..i] + [c];
      assert [c][1..] == "";
      if 'A' <= c <= 'Z' || 'a' <= c <= 'z' || '0' <= c <= '9' || c == '_' || c == '-' || c == '~' || c == '.' {
        out := out + [c];
      } else if c == '/' && !encodeSlash {
        out := out + [c];
      } else {
        out := out + ['%', HexDigit(c as int / 16), HexDigit(c as int % 16)];
      }
    }
    assert s[..|s|] == s;
  }

  // ----- percent decoding, section 2.1 of RFC 3986 -----

  function HexValue(c: char): (d: nat)
    ensures d < 16
  {
    if '0' <= c <= '9' then c as int - '0' as int
    else if 'A' <= c <= 'F' then c as int - 'A' as int + 10
    else if 'a' <= c <= 'f' then c as int - 'a' as int + 10
    else 0
  }

  function Decode(s: string): string {
    if s == "" then ""
    else if s[0] == '%' && |s| >= 3 then
      [(16 * HexValue(s[1]) + HexValue(s[2])) as char] + Decode(s[3..])
    else [s[0]] + Decode(s[1..])
  }

  lemma DecodeByte(c: char, encodeSlash: bool, rest: string)
    requires (c as int) < 256
    ensures Decode(EncodeByte(c, encodeSlash) + rest) == [c] + Decode(rest)
  {
    var s := EncodeByte(c, encodeSlash) + rest;
    if Kept(c, encodeSlash) {
      assert s[0] == c && s[1..] == rest;
    } else {
      assert s[3..] == rest;
      HexRoundTrip(c as int / 16);
      HexRoundTrip(c as int % 16);
    }
  }

  lemma HexRoundTrip(d: nat)
    requires d < 16
    ensures HexValue(HexDigit(d)) == d
  {
  }

  /** Decoding gives the bytes back, whichever way slashes were treated. */
  lemma {:induction false} DecodeEncode(s: string, encodeSlash: bool)
    requires IsBytes(s)
    ensures Decode(Encode(s, encodeSlash)) == s
  {
    if s != "" {
      DecodeByte(s[0], encodeSlash, Encode(s[1..], encodeSlash));
      DecodeEncode(s[1..], encodeSlash);
    }
  }

  lemma EncodeInjective(s: string, t: string, encodeSlash: bool)
    requires IsBytes(s) && IsBytes(t)
    ensures Encode(s, encodeSlash) == Encode(t, encodeSlash) <==> s == t
  {
    DecodeEncode(s, encodeSlash);
    DecodeEncode(t, encodeSlash);
  }

  /** The unreserved characters of section 2.3 of RFC 3986, one by one. */
  predicate InUnreserved(c: char) {
    || c in "ABCDEFGHIJKLM" || c in "NOPQRSTUVWXYZ" || c in "abcdefghijklm" || c in "nopqrstuvwxyz"
    || c in "0123456789" || c in "-._~"
  }

  lemma UpperAre(c: char)
    ensures 'A' <= c <= 'Z' <==> c in "ABCDEFGHIJKLM" || c in "NOPQRSTUVWXYZ"
  {
    if 'A' <= c <= 'M' {
      assert "ABCDEFGHIJKLM"[c as int - 'A' as int] == c;
    } else if 'N' <= c <= 'Z' {
      assert "NOPQRSTUVWXYZ"[c as int - 'N' as int] == c;
    }
  }

  lemma LowerAre(c: char)
    ensures 'a' <= c <= 'z' <==> c in "abcdefghijklm" || c in "nopqrstuvwxyz"
  {
    if 'a' <= c <= 'm' {
      assert "abcdefghijklm"[c as int - 'a' as int] == c;
    } else if 'n' <= c <= 'z' {
      assert "nopqrstuvwxyz"[c as int - 'n' as int] == c;
    }
  }

  lemma DigitsAre(c: char)
    ensures '0' <= c <= '9' <==> c in "0123456789"
  {
    if '0' <= c <= '9' {
      assert "0123456789"[c as int - '0' as int] == c;
    }
  }

  lemma UnreservedAre(c: char)
    ensures Unreserved(c) <==> InUnreserved(c)
  {
    UpperAre(c);
    LowerAre(c);
    DigitsAre(c);
  }

  /**
    Each byte is encoded by itself, wherever it stands: an unreserved character (section 2.3 of RFC 3986) and a slash
    that is kept as they are, every other byte as a percent sign and two upper-case hexadecimal digits, the high one
    first.
  */
  lemma EachByteIsWritten(before: string, c: char, after: string, encodeSlash: bool)
    requires IsBytes(before) && (c as int) < 256 && IsBytes(after)
    ensures Encode(before + [c] + after, encodeSlash) ==
            Encode(before, encodeSlash)
            + (if InUnreserved(c) || (c == '/' && !encodeSlash) then [c]
               else ['%', "0123456789ABCDEF"[c as int / 16], "0123456789ABCDEF"[c as int % 16]])
            + Encode(after, encodeSlash)
  {
    EncodeConcat(before + [c], after, encodeSlash);
    EncodeConcat(before, [c], encodeSlash);
    OneByteIsWritten(c, encodeSlash);
  }

  lemma OneByteIsWritten(c: char, encodeSlash: bool)
    requires (c as int) < 256
    ensures Encode([c], encodeSlash) ==
            if InUnreserved(c) || (c == '/' && !encodeSlash) then [c]
            else ['%', "0123456789ABCDEF"[c as int / 16], "0123456789ABCDEF"[c as int % 16]]
  {
    UnreservedAre(c);
    assert [c][1..] == "" && Encode([c], encodeSlash) == EncodeByte(c, encodeSlash) + "";
  }

  lemma {:induction false} EncodedKeeps(s: string, encodeSlash: bool, c: char)
    requires IsBytes(s) && c in Encode(s, encodeSlash)
    ensures Kept(c, encodeSlash) || c == '%'
  {
    if s != "" && c !in EncodeByte(s[0], encodeSlash) {
      EncodedKeeps(s[1..], encodeSlash, c);
    }
  }

  /** The output is made of unreserved characters, percent signs and, when it is kept, the slash. */
  lemma EncodedAlphabet(s: string, encodeSlash: bool, c: char)
    requires IsBytes(s) && c in Encode(s, encodeSlash)
    ensures InUnreserved(c) || c == '%' || (c == '/' && !encodeSlash)
  {
    EncodedKeeps(s, encodeSlash, c);
    UnreservedAre(c);
  }

  // ----- the path -----

  function CanonicalPath(path: string): string
    requires IsBytes(path)
  {
    if path == "" then "/" else Encode(path, false)
  }

  function EncodeAll(segments: seq<string>): (out: seq<string>)
    requires forall i | 0 <= i < |segments| :: IsBytes(segments[i])
    ensures |out| == |segments|
  {
    if segments == [] then [] else [Encode(segments[0], false)] + EncodeAll(segments[1..])
  }

  lemma {:induction false} SplitIsBytes(s: string, sep: string)
    requires sep != "" && IsBytes(s)
    ensures forall i | 0 <= i < |Split(s, sep)| :: IsBytes(Split(s, sep)[i])
    decreases |s|
  {
    if Index(s, sep) >= 0 {
      SplitIsBytes(s[Index(s, sep) + |sep|..], sep);
    }
  }

  lemma {:induction false} EncodeJoined(segments: seq<string>)
    requires forall i | 0 <= i < |segments| :: IsBytes(segments[i])
    ensures IsBytes(Join(segments, "/"))
    ensures Encode(Join(segments, "/"), false) == Join(EncodeAll(segments), "/")
  {
    if |segments| >= 2 {
      var rest := Join(segments[1..], "/");
      EncodeJoined(segments[1..]);
      EncodeConcat(segments[0], "/" + rest, false);
      EncodeConcat("/", rest, false);
      assert "/"[1..] == "";
      assert Encode("/", false) == "/";
      ConcatAssociative(segments[0], "/", rest);
      ConcatAssociative(Encode(segments[0], false), "/", Encode(rest, false));
      JoinMore(Encode(segments[0], false), EncodeAll(segments[1..]), "/");
    }
  }

  lemma {:induction false} EncodeAllAppend(segments: seq<string>, s: string)
    requires IsBytes(s) && forall i | 0 <= i < |segments| :: IsBytes(segments[i])
    ensures EncodeAll(segments + [s]) == EncodeAll(segments) + [Encode(s, false)]
  {
    if segments == [] {
      assert [s][1..] == [];
    } else {
      assert (segments + [s])[1..] == segments[1..] + [s];
      EncodeAllAppend(segments[1..], s);
    }
  }

  /** Encoding the segments between slashes one at a time encodes the whole path with its slashes kept. */
  method CanonicalURI(urlPath: string) returns (out: string)
    requires IsBytes(urlPath)
    ensures out == CanonicalPath(urlPath)
    ensures out == if urlPath == "" then "/" else Encode(urlPath, false)
  {
    var path := if urlPath == "" then "/" else urlPath;
    var segments := Split(path, "/");
    SplitIsBytes(path, "/");
    var encoded: seq<string> := [];
    for i := 0 to |segments|
      invariant encoded == EncodeAll(segments[..i])
    {
      var e := UriEncode(segments[i], false);
      EncodeAllAppend(segments[..i], segments[i]);
      assert segments[..i + 1] == segments[..i] + [segments[i]];
      encoded := encoded + [e];
    }
    assert segments[..|segments|] == segments;
    out := Join(encoded, "/");
    JoinSplit(path, "/");
    EncodeJoined(segments);
    if urlPath == "" {
      assert "/"[1..] == "";
    }
  }

  /** Two paths have the same canonical form exactly when they are the same path, the empty one standing for "/". */
  lemma CanonicalPathDetermines(p: string, q: string)
    requires IsBytes(p) && IsBytes(q)
    ensures CanonicalPath(p) == CanonicalPath(q) <==> p == q || (p in {"", "/"} && q in {"", "/"})
  {
    assert "/"[1..] == "";
    assert Encode("/", false) == "/";
    EncodeInjective(p, q, false);
    EncodeInjective(p, "/", false);
    EncodeInjective("/", q, false);
  }
}
