/** The canonical query string of an AWS Signature Version 4 request. */
module SigV4Query {
  import opened Text
  import opened SigV4

  // ----- byte order on strings -----

  predicate Le(a: string, b: string) {
    a == "" || (b != "" && (a[0] < b[0] || (a[0] == b[0] && Le(a[1..], b[1..]))))
  }

  lemma {:induction false} LeIsTotalOrder(a: string, b: string)
    ensures Le(a, b) || Le(b, a)
    ensures Le(a, b) && Le(b, a) ==> a == b
  {
    if a != "" && b != "" && a[0] == b[0] {
      LeIsTotalOrder(a[1..], b[1..]);
      assert a == [a[0]] + a[1..] && b == [b[0]] + b[1..];
    }
  }

  /** The first n bytes agree, and there the first string ends or has the smaller byte. */
  predicate PrecedesAt(a: string, b: string, n: nat) {
    n <= |a| && n <= |b| && a[..n] == b[..n] && (n == |a| || (n < |b| && a[n] < b[n]))
  }

  lemma {:induction false} LeIsBytewise(a: string, b: string)
    ensures Le(a, b) <==> exists n: nat :: PrecedesAt(a, b, n)
  {
    if a == "" {
      assert PrecedesAt(a, b, 0);
    } else if b != "" {
      LeIsBytewise(a[1..], b[1..]);
      if n: nat :| PrecedesAt(a[1..], b[1..], n) && a[0] == b[0] {
        assert a[..n + 1] == [a[0]] + a[1..][..n] && b[..n + 1] == [b[0]] + b[1..][..n];
        assert PrecedesAt(a, b, n + 1);
      }
      if a[0] < b[0] {
        assert PrecedesAt(a, b, 0);
      }
      if n: nat :| PrecedesAt(a, b, n) && n > 0 {
        assert a[0] == a[..n][0] == b[..n][0] == b[0];
        assert a[1..][..n - 1] == a[..n][1..] && b[1..][..n - 1] == b[..n][1..];
        assert PrecedesAt(a[1..], b[1..], n - 1);
      }
    }
  }

  lemma {:induction false} LeTransitive(a: string, b: string, c: string)
    requires Le(a, b) && Le(b, c)
    ensures Le(a, c)
  {
    if a != "" && b != "" && c != "" && a[0] == b[0] == c[0] {
      LeTransitive(a[1..], b[1..], c[1..]);
    }
  }

  predicate SortedStrings(s: seq<string>) {
    forall i, j | 0 <= i < j < |s| :: Le(s[i], s[j])
  }

  /** sort.Strings: any sort gives the same list. */
  function Sort(s: seq<string>): (r: seq<string>)
    ensures SortedStrings(r) && multiset(r) == multiset(s) && |r| == |s|
  {
    if s == [] then [] else
      assert s == [s[0]] + s[1..];
      Insert(s[0], Sort(s[1..]))
  }

  function Insert(x: string, s: seq<string>): (r: seq<string>)
    requires SortedStrings(s)
    ensures SortedStrings(r) && multiset(r) == multiset{x} + multiset(s) && |r| == |s| + 1
  {
    if s == [] then [x]
    else if Le(x, s[0]) then
      assert forall i | 0 <= i < |s| :: Le(x, s[i]) by {
        forall i | 0 < i < |s| ensures Le(x, s[i]) { LeTransitive(x, s[0], s[i]); }
      }
      [x] + s
    else
      var rest := Insert(x, s[1..]);
      assert s == [s[0]] + s[1..];
      assert forall i | 0 <= i < |rest| :: Le(s[0], rest[i]) by {
        LeIsTotalOrder(x, s[0]);
        forall i | 0 <= i < |rest| ensures Le(s[0], rest[i]) {
          assert rest[i] in multiset(rest);
          if rest[i] != x { assert rest[i] in s[1..]; }
        }
      }
      [s[0]] + rest
  }

  // ----- parameters -----

  datatype Pair = Pair(key: string, value: string)

  predicate LePair(p: Pair, q: Pair) {
    if p.key == q.key then Le(p.value, q.value) else Le(p.key, q.key)
  }

  predicate SortedPairs(s: seq<Pair>) {
    forall i, j | 0 <= i < j < |s| :: LePair(s[i], s[j])
  }

  /** How many times the request carries this value for this key. */
  function Times(params: map<string, seq<string>>, p: Pair): nat {
    if p.key in params then multiset(params[p.key])[p.value] else 0
  }

  /** The pairs of the request with their multiplicity, in any order. */
  ghost predicate Lists(params: map<string, seq<string>>, pairs: seq<Pair>) {
    forall p :: multiset(pairs)[p] == Times(params, p)
  }

  predicate PairIsBytes(p: Pair) {
    IsBytes(p.key) && IsBytes(p.value)
  }

  function EncodePair(p: Pair): string
    requires PairIsBytes(p)
  {
    Encode(p.key, true) + "=" + Encode(p.value, true)
  }

  function EncodePairs(pairs: seq<Pair>): (out: seq<string>)
    requires forall i | 0 <= i < |pairs| :: PairIsBytes(pairs[i])
    ensures |out| == |pairs| && forall i | 0 <= i < |pairs| :: out[i] == EncodePair(pairs[i])
  {
    if pairs == [] then [] else [EncodePair(pairs[0])] + EncodePairs(pairs[1..])
  }

  predicate ParamsAreBytes(params: map<string, seq<string>>) {
    forall k | k in params :: IsBytes(k) && forall i | 0 <= i < |params[k]| :: IsBytes(params[k][i])
  }

  /** The pairs in order, encoded, "=" between key and value and "&" between pairs. */
  ghost predicate IsCanonicalQuery(params: map<string, seq<string>>, out: string)
    requires ParamsAreBytes(params)
  {
    exists pairs :: Lists(params, pairs) && SortedPairs(pairs) && IsWritten(pairs, out)
  }

  predicate IsWritten(pairs: seq<Pair>, out: string) {
    (forall i | 0 <= i < |pairs| :: PairIsBytes(pairs[i])) && out == Join(EncodePairs(pairs), "&")
  }

  // ----- sorted lists of pairs are determined by their contents -----

  lemma LePairAntisymmetric(p: Pair, q: Pair)
    requires LePair(p, q) && LePair(q, p)
    ensures p == q
  {
    LeIsTotalOrder(p.key, q.key);
    LeIsTotalOrder(p.value, q.value);
  }

  lemma SamePairFirst(a: seq<Pair>, b: seq<Pair>)
    requires SortedPairs(a) && SortedPairs(b) && multiset(a) == multiset(b) && a != [] && b != []
    ensures a[0] == b[0]
  {
    if a[0] != b[0] {
      assert a[0] in multiset(b) && b[0] in multiset(a);
      FirstIsLeast(a, b[0]);
      FirstIsLeast(b, a[0]);
      LePairAntisymmetric(a[0], b[0]);
    }
  }

  lemma {:induction false} SortedPairsUnique(a: seq<Pair>, b: seq<Pair>)
    requires SortedPairs(a) && SortedPairs(b) && multiset(a) == multiset(b)
    ensures a == b
  {
    if a == [] {
      assert |multiset(b)| == 0;
    } else {
      assert |multiset(b)| == |a|;
      SamePairFirst(a, b);
      assert a == [a[0]] + a[1..] && b == [b[0]] + b[1..];
      assert multiset(a[1..]) == multiset(a) - multiset{a[0]};
      assert multiset(b[1..]) == multiset(b) - multiset{b[0]};
      SortedPairsUnique(a[1..], b[1..]);
    }
  }

  lemma FirstIsLeast(a: seq<Pair>, p: Pair)
    requires a != [] && SortedPairs(a) && p in multiset(a) && p != a[0]
    ensures LePair(a[0], p)
  {
    assert p in a;
  }

  // ----- the encoding is reversible -----

  lemma EncodedAvoids(s: string, c: char)
    requires IsBytes(s) && c in "=&"
    ensures c !in Encode(s, true)
  {
    if c in Encode(s, true) {
      EncodedKeeps(s, true, c);
      assert false;
    }
  }

  lemma EncodePairShape(p: Pair)
    requires PairIsBytes(p)
    ensures EncodePair(p) != "" && '&' !in EncodePair(p)
    ensures Index(EncodePair(p), "=") == |Encode(p.key, true)|
  {
    EncodedAvoids(p.key, '=');
    EncodedAvoids(p.key, '&');
    EncodedAvoids(p.value, '&');
    IndexOfChar(Encode(p.key, true), '=', Encode(p.value, true));
  }

  lemma EncodePairInjective(p: Pair, q: Pair)
    requires PairIsBytes(p) && PairIsBytes(q) && EncodePair(p) == EncodePair(q)
    ensures p == q
  {
    EncodePairShape(p);
    EncodePairShape(q);
    var n := |Encode(p.key, true)|;
    assert EncodePair(p)[..n] == Encode(p.key, true) && EncodePair(q)[..n] == Encode(q.key, true);
    assert EncodePair(p)[n + 1..] == Encode(p.value, true) && EncodePair(q)[n + 1..] == Encode(q.value, true);
    EncodeInjective(p.key, q.key, true);
    EncodeInjective(p.value, q.value, true);
  }

  lemma WrittenEmpty(pairs: seq<Pair>, out: string)
    requires IsWritten(pairs, out)
    ensures out == "" <==> pairs == []
    ensures pairs != [] ==> Split(out, "&") == EncodePairs(pairs)
  {
    if pairs != [] {
      forall i | 0 <= i < |pairs| ensures '&' !in EncodePairs(pairs)[i] { EncodePairShape(pairs[i]); }
      EncodePairShape(pairs[0]);
      SplitJoinChar(EncodePairs(pairs), '&');
    }
  }

  lemma WrittenDetermines(a: seq<Pair>, b: seq<Pair>, out: string)
    requires IsWritten(a, out) && IsWritten(b, out)
    ensures a == b
  {
    WrittenEmpty(a, out);
    WrittenEmpty(b, out);
    if a != [] {
      assert EncodePairs(a) == EncodePairs(b);
      forall i | 0 <= i < |a| ensures a[i] == b[i] {
        assert EncodePairs(a)[i] == EncodePairs(b)[i];
        EncodePairInjective(a[i], b[i]);
      }
    }
  }

  ghost predicate SameParams(p: map<string, seq<string>>, q: map<string, seq<string>>) {
    forall pair :: Times(p, pair) == Times(q, pair)
  }

  lemma ListedSame(p: map<string, seq<string>>, q: map<string, seq<string>>, a: seq<Pair>, b: seq<Pair>)
    requires Lists(p, a) && Lists(q, b)
    ensures SameParams(p, q) <==> multiset(a) == multiset(b)
  {
    forall pair ensures Times(p, pair) == multiset(a)[pair] && Times(q, pair) == multiset(b)[pair] {
    }
    if SameParams(p, q) {
      forall pair ensures multiset(a)[pair] == multiset(b)[pair] {
        assert Times(p, pair) == Times(q, pair);
      }
    }
  }

  lemma ListingsDetermine(p: map<string, seq<string>>, q: map<string, seq<string>>,
                          a: seq<Pair>, b: seq<Pair>, x: string, y: string)
    requires Lists(p, a) && SortedPairs(a) && IsWritten(a, x)
    requires Lists(q, b) && SortedPairs(b) && IsWritten(b, y)
    ensures x == y <==> SameParams(p, q)
  {
    ListedSame(p, q, a, b);
    if x == y {
      WrittenDetermines(a, b, x);
    }
    if SameParams(p, q) {
      SortedPairsUnique(a, b);
    }
  }

  /**
   * The canonical query string depends on the multiset of parameters and on nothing else, neither the order of the
   * values nor the order in which the map is walked, and it determines that multiset.
   */
  lemma CanonicalQueryDetermines(p: map<string, seq<string>>, q: map<string, seq<string>>, x: string, y: string)
    requires ParamsAreBytes(p) && ParamsAreBytes(q)
    requires IsCanonicalQuery(p, x) && IsCanonicalQuery(q, y)
    ensures x == y <==> SameParams(p, q)
  {
    var a :| Lists(p, a) && SortedPairs(a) && IsWritten(a, x);
    var b :| Lists(q, b) && SortedPairs(b) && IsWritten(b, y);
    ListingsDetermine(p, q, a, b, x, y);
  }

  /** p is written before q: by its key, byte by byte, and for the same key by its value. */
  ghost predicate Precedes(p: Pair, q: Pair) {
    if p.key == q.key then exists n: nat :: PrecedesAt(p.value, q.value, n)
    else exists n: nat :: PrecedesAt(p.key, q.key, n)
  }

  ghost predicate ListsTwo(params: map<string, seq<string>>, p: Pair, q: Pair) {
    forall pair :: Times(params, pair) == multiset{p, q}[pair]
  }

  /** Two parameters are written in byte order, "=" after the key and "&" between them. */
  lemma TwoParametersAreWritten(params: map<string, seq<string>>, p: Pair, q: Pair, out: string)
    requires ParamsAreBytes(params) && PairIsBytes(p) && PairIsBytes(q) && ListsTwo(params, p, q)
    requires Precedes(p, q) && IsCanonicalQuery(params, out)
    ensures out == Encode(p.key, true) + "=" + Encode(p.value, true)
                   + "&" + (Encode(q.key, true) + "=" + Encode(q.value, true))
  {
    LeIsBytewise(p.key, q.key);
    LeIsBytewise(p.value, q.value);
    var pairs :| Lists(params, pairs) && SortedPairs(pairs) && IsWritten(pairs, out);
    SameListing(params, pairs, p, q);
    SortedPairsUnique(pairs, [p, q]);
    TwoEncoded(p, q);
  }

  lemma SameListing(params: map<string, seq<string>>, pairs: seq<Pair>, p: Pair, q: Pair)
    requires Lists(params, pairs) && ListsTwo(params, p, q)
    ensures multiset(pairs) == multiset([p, q])
  {
    forall pair ensures multiset(pairs)[pair] == multiset{p, q}[pair] {
      assert multiset(pairs)[pair] == Times(params, pair);
    }
    assert multiset([p, q]) == multiset{p, q};
  }

  lemma TwoEncoded(p: Pair, q: Pair)
    requires PairIsBytes(p) && PairIsBytes(q)
    ensures Join(EncodePairs([p, q]), "&") == EncodePair(p) + "&" + EncodePair(q)
  {
    var parts := EncodePairs([p, q]);
    assert parts[0] == EncodePair(p) && parts[1..] == [EncodePair(q)];
  }

  // ----- the code -----

  function PairsOf(key: string, values: seq<string>): (pairs: seq<Pair>)
    ensures |pairs| == |values| && forall i | 0 <= i < |values| :: pairs[i] == Pair(key, values[i])
  {
    if values == [] then [] else PairsOf(key, values[..|values| - 1]) + [Pair(key, values[|values| - 1])]
  }

  lemma {:induction false} CountPairsOf(key: string, values: seq<string>, p: Pair)
    ensures multiset(PairsOf(key, values))[p] == if p.key == key then multiset(values)[p.value] else 0
  {
    if values != [] {
      var before, last := values[..|values| - 1], values[|values| - 1];
      CountPairsOf(key, before, p);
      assert values == before + [last];
    }
  }

  lemma AppendKey(keys: seq<string>, pairs: seq<Pair>, key: string, values: seq<string>)
    requires SortedPairs(pairs) && SortedStrings(values) && FromKeys(keys, pairs)
    requires key !in keys && forall k | k in keys :: Le(k, key)
    ensures SortedPairs(pairs + PairsOf(key, values))
  {
  }

  lemma EncodePairsConcat(a: seq<Pair>, b: seq<Pair>)
    requires forall i | 0 <= i < |a| :: PairIsBytes(a[i])
    requires forall i | 0 <= i < |b| :: PairIsBytes(b[i])
    ensures EncodePairs(a + b) == EncodePairs(a) + EncodePairs(b)
  {
  }

  method EncodeValues(key: string, values: seq<string>) returns (parts: seq<string>)
    requires IsBytes(key) && forall i | 0 <= i < |values| :: IsBytes(values[i])
    ensures parts == EncodePairs(PairsOf(key, values))
  {
    parts := [];
    for i := 0 to |values|
      invariant |parts| == i && forall j | 0 <= j < i :: parts[j] == EncodePair(Pair(key, values[j]))
    {
      var k := UriEncode(key, true);
      var v := UriEncode(values[i], true);
      parts := parts + [k + "=" + v];
    }
  }

  /** What the loop has gathered once it has handled the first n keys. */
  ghost predicate Gathered(params: map<string, seq<string>>, keys: seq<string>, n: nat, pairs: seq<Pair>)
    requires n <= |keys|
  {
    SortedPairs(pairs) && FromKeys(keys[..n], pairs) && CountsOf(params, keys[..n], pairs)
  }

  predicate FromKeys(keys: seq<string>, pairs: seq<Pair>) {
    forall i | 0 <= i < |pairs| :: PairIsBytes(pairs[i]) && pairs[i].key in keys
  }

  ghost predicate CountsOf(params: map<string, seq<string>>, keys: seq<string>, pairs: seq<Pair>) {
    forall p: Pair :: multiset(pairs)[p] == if p.key in keys then Times(params, p) else 0
  }

  predicate Distinct(keys: seq<string>) {
    forall i, j | 0 <= i < j < |keys| :: keys[i] != keys[j]
  }

  predicate InParams(params: map<string, seq<string>>, key: string, values: seq<string>) {
    key in params && multiset(values) == multiset(params[key])
  }

  lemma ValuesAreBytes(params: map<string, seq<string>>, key: string, values: seq<string>)
    requires ParamsAreBytes(params) && InParams(params, key, values)
    ensures IsBytes(key) && forall i | 0 <= i < |values| :: IsBytes(values[i])
  {
    forall i | 0 <= i < |values| ensures IsBytes(values[i]) {
      assert values[i] in multiset(params[key]);
      assert values[i] in params[key];
    }
  }

  lemma FromKeysAppend(keys: seq<string>, key: string, pairs: seq<Pair>, values: seq<string>)
    requires FromKeys(keys, pairs) && IsBytes(key) && forall i | 0 <= i < |values| :: IsBytes(values[i])
    ensures FromKeys(keys + [key], pairs + PairsOf(key, values))
  {
  }

  lemma CountsAppend(params: map<string, seq<string>>, keys: seq<string>, key: string, pairs: seq<Pair>,
                     values: seq<string>)
    requires CountsOf(params, keys, pairs) && InParams(params, key, values) && key !in keys
    ensures CountsOf(params, keys + [key], pairs + PairsOf(key, values))
  {
    var all := pairs + PairsOf(key, values);
    forall p: Pair ensures multiset(all)[p] == if p.key in keys + [key] then Times(params, p) else 0 {
      CountPairsOf(key, values, p);
      assert multiset(all)[p] == multiset(pairs)[p] + multiset(PairsOf(key, values))[p];
    }
  }

  lemma EarlierKeys(keys: seq<string>, n: nat)
    requires n < |keys| && SortedStrings(keys) && Distinct(keys)
    ensures keys[n] !in keys[..n] && forall k | k in keys[..n] :: Le(k, keys[n])
  {
  }

  lemma OneMore(keys: seq<string>, n: nat)
    requires n < |keys|
    ensures keys[..n + 1] == keys[..n] + [keys[n]]
  {
  }

  lemma GatherKey(params: map<string, seq<string>>, keys: seq<string>, n: nat, pairs: seq<Pair>, values: seq<string>)
    requires n < |keys| && ParamsAreBytes(params) && Gathered(params, keys, n, pairs)
    requires SortedStrings(keys) && Distinct(keys)
    requires SortedStrings(values) && InParams(params, keys[n], values)
    ensures IsBytes(keys[n]) && forall i | 0 <= i < |values| :: IsBytes(values[i])
    ensures Gathered(params, keys, n + 1, pairs + PairsOf(keys[n], values))
  {
    OneMore(keys, n);
    EarlierKeys(keys, n);
    ValuesAreBytes(params, keys[n], values);
    AppendKey(keys[..n], pairs, keys[n], values);
    FromKeysAppend(keys[..n], keys[n], pairs, values);
    CountsAppend(params, keys[..n], keys[n], pairs, values);
  }

  method CanonicalQueryString(params: map<string, seq<string>>) returns (out: string)
    requires ParamsAreBytes(params)
    ensures IsCanonicalQuery(params, out)
  {
    if |params| == 0 {
      assert Lists(params, []) && SortedPairs([]) && IsWritten([], "");
      return "";
    }
    var keys := CollectKeys(params);
    var parts: seq<string> := [];
    ghost var pairs: seq<Pair> := [];
    for i := 0 to |keys|
      invariant Gathered(params, keys, i, pairs)
      invariant parts == EncodePairs(pairs)
    {
      var k := keys[i];
      var vs := Sort(params[k]);
      GatherKey(params, keys, i, pairs, vs);
      var more := EncodeValues(k, vs);
      EncodePairsConcat(pairs, PairsOf(k, vs));
      parts := parts + more;
      pairs := pairs + PairsOf(k, vs);
    }
    assert keys[..|keys|] == keys;
    out := Join(parts, "&");
    assert Lists(params, pairs) && IsWritten(pairs, out);
  }

  /** The keys of the map, met in any order, then sorted. */
  method CollectKeys(params: map<string, seq<string>>) returns (keys: seq<string>)
    ensures SortedStrings(keys) && Distinct(keys) && forall k :: k in keys <==> k in params
  {
    var found: seq<string> := [];
    var todo := params.Keys;
    while todo != {}
      invariant Distinct(found) && forall k :: k in params <==> k in found || k in todo
      invariant forall k | k in found :: k !in todo
      decreases |todo|
    {
      var k :| k in todo;
      found := found + [k];
      todo := todo - {k};
    }
    keys := Sort(found);
    SortKeepsDistinct(found);
  }

  lemma SortKeepsDistinct(s: seq<string>)
    requires Distinct(s)
    ensures Distinct(Sort(s)) && forall k :: k in Sort(s) <==> k in s
  {
    var r := Sort(s);
    forall k ensures k in r <==> k in s {
      assert k in multiset(r) <==> k in multiset(s);
    }
    DistinctByCount(s);
    CountByDistinct(r);
  }

  lemma {:induction false} DistinctByCount(s: seq<string>)
    requires Distinct(s)
    ensures forall k :: multiset(s)[k] <= 1
  {
    if s != [] {
      assert s == [s[0]] + s[1..];
      DistinctByCount(s[1..]);
      assert s[0] !in s[1..];
    }
  }

  lemma CountByDistinct(s: seq<string>)
    requires forall k :: multiset(s)[k] <= 1
    ensures Distinct(s)
  {
    forall i, j | 0 <= i < j < |s| ensures s[i] != s[j] {
      assert s == s[..i] + [s[i]] + s[i + 1..j] + [s[j]] + s[j + 1..];
      assert multiset(s)[s[i]] <= 1;
    }
  }
}
