/**
 Request URIs: the client appends its query parameters, in whatever order its
 hash map yields them; the server splits them off again.
 */
module Uri {
  import opened Prelude

  // str::split on one character: never empty, and no part holds the separator.
  function Split(s: string, sep: char): (parts: seq<string>)
    ensures |parts| >= 1
  {
    if s == "" then [""] else PutBefore(s[0], Split(s[1..], sep), sep)
  }

  // One more character in front: it starts a new part or joins the first one.
  function PutBefore(c: char, parts: seq<string>, sep: char): seq<string>
    requires |parts| >= 1
  {
    if c == sep then [""] + parts else [[c] + parts[0]] + parts[1..]
  }

  function Join(parts: seq<string>, sep: char): string {
    if parts == [] then ""
    else if |parts| == 1 then parts[0]
    else parts[0] + [sep] + Join(parts[1..], sep)
  }

  function Insert(m: map<string, string>, pair: string): map<string, string> {
    var parts := Split(pair, '=');
    if |parts| >= 2 then m[parts[0] := parts[1]] else m
  }

  // Inserting the pairs one after the other; a later pair wins.
  function InsertAll(m: map<string, string>, pairs: seq<string>): map<string, string>
    decreases |pairs|
  {
    if pairs == [] then m else InsertAll(Insert(m, pairs[0]), pairs[1..])
  }

  function QueryParams(uri: string): map<string, string> {
    var parts := Split(uri, '?');
    if |parts| < 2 then map[] else InsertAll(map[], Split(parts[1], '&'))
  }

  function Path(uri: string): string {
    Split(uri, '?')[0]
  }

  function Pairs(params: map<string, string>, order: seq<string>): seq<string>
    requires forall k :: k in order ==> k in params
  {
    seq(|order|, i requires 0 <= i < |order| => order[i] + "=" + params[order[i]])
  }

  function Seam(uri: string): string {
    if '?' in uri then (if uri[|uri| - 1] == '?' then "" else "&") else "?"
  }

  // An order in which a hash map may enumerate its keys.
  ghost predicate Enumerates(order: seq<string>, params: map<string, string>) {
    Distinct(order) && forall k :: k in order <==> k in params
  }

  function BuiltUri(uri: string, params: map<string, string>, order: seq<string>): string
    requires forall k :: k in order ==> k in params
  {
    if order == [] then uri else uri + Seam(uri) + Join(Pairs(params, order), '&')
  }

  // Text that the query syntax can carry.
  ghost predicate Clean(s: string) {
    '?' !in s && '&' !in s && '=' !in s
  }

  ghost predicate CleanParams(params: map<string, string>) {
    forall k :: k in params ==> Clean(k) && Clean(params[k])
  }

  /** The request under construction. */
  class RequestBuilder {
    var uri: string
    var queryParams: map<string, string>

    constructor (uri: string)
      ensures this.uri == uri && queryParams == map[]
    {
      this.uri := uri;
      queryParams := map[];
    }

    method Query(key: string, value: string)
      modifies this`queryParams
      ensures queryParams == old(queryParams)[key := value]
    {
      queryParams := queryParams[key := value];
    }

    method Queries(params: map<string, string>)
      modifies this`queryParams
      ensures queryParams == old(queryParams) + params
    {
      queryParams := queryParams + params;
    }

    // `order` is the order in which the hash map happens to yield its keys.
    method BuildUri(order: seq<string>) returns (result: string)
      requires Enumerates(order, queryParams)
      ensures result == BuiltUri(uri, queryParams, order)
    {
      result := uri;
      if order != [] {
        if '?' in result {
          if result[|result| - 1] != '?' {
            result := result + ['&'];
          }
        } else {
          result := result + ['?'];
        }
        assert result == uri + Seam(uri);
        var pairs: seq<string> := [];
        for i := 0 to |order|
          invariant pairs == Pairs(queryParams, order[..i])
        {
          pairs := pairs + [order[i] + "=" + queryParams[order[i]]];
        }
        assert order[..|order|] == order;
        result := result + Join(pairs, '&');
      }
    }
  }

  // The server's loop over the query string.
  method ParseQuery(uri: string) returns (params: map<string, string>)
    ensures params == QueryParams(uri)
  {
    params := map[];
    var segments := Split(uri, '?');
    if |segments| < 2 {
      return;
    }
    var pairs := Split(segments[1], '&');
    for i := 0 to |pairs|
      invariant InsertAll(params, pairs[i..]) == QueryParams(uri)
    {
      var parts := Split(pairs[i], '=');
      assert pairs[i..][1..] == pairs[i + 1..];
      if |parts| >= 2 {
        params := params[parts[0] := parts[1]];
      }
    }
  }

  function TrimEnd(base: string): string {
    if base != "" && base[|base| - 1] == '/' then base[..|base| - 1] else base
  }

  function TrimStart(url: string): string {
    if "/" <= url then url[1..] else url
  }

  // Joins a relative URL to the base with exactly one '/' at the seam.
  method ResolveUrl(base: Option<string>, url: string) returns (resolved: string)
    ensures "http://" <= url || "https://" <= url || base == None ==> resolved == url
    ensures !("http://" <= url) && !("https://" <= url) && base.Some? ==>
              resolved == TrimEnd(base.value) + "/" + TrimStart(url)
    ensures !("http://" <= url) && !("https://" <= url) && base.Some? ==>
              var slash := base.value != "" && base.value[|base.value| - 1] == '/';
              && (slash && "/" <= url ==> resolved == base.value + url[1..])
              && (slash != ("/" <= url) ==> resolved == base.value + url)
              && (!slash && !("/" <= url) ==> resolved == base.value + "/" + url)
  {
    if "http://" <= url || "https://" <= url || base == None {
      return url;
    }
    resolved := base.value;
    var slash := resolved != "" && resolved[|resolved| - 1] == '/';
    if !slash && !("/" <= url) {
      resolved := resolved + ['/'];
    } else if slash && "/" <= url {
      resolved := resolved[..|resolved| - 1];
    }
    resolved := resolved + url;
    assert resolved == TrimEnd(base.value) + "/" + TrimStart(url);
  }

  lemma {:induction false} SplitWhole(s: string, sep: char)
    requires sep !in s
    ensures Split(s, sep) == [s]
  {
    if s != "" {
      SplitWhole(s[1..], sep);
      assert [s[0]] + s[1..] == s;
    }
  }

  lemma {:induction false} SplitAtSeparator(a: string, b: string, sep: char)
    ensures Split(a + [sep] + b, sep) == Split(a, sep) + Split(b, sep)
  {
    var s := a + [sep] + b;
    if a == "" {
      assert s[1..] == b;
    } else {
      assert s[1..] == a[1..] + [sep] + b;
      SplitAtSeparator(a[1..], b, sep);
    }
  }

  lemma {:induction false} SplitParts(s: string, sep: char)
    ensures forall p :: p in Split(s, sep) ==> sep !in p
    ensures forall p, c :: p in Split(s, sep) && c in p ==> c in s
  {
    if s != "" {
      SplitParts(s[1..], sep);
      assert forall c :: c in s[1..] ==> c in s;
      assert Split(s[1..], sep)[0] in Split(s[1..], sep);
    }
  }

  lemma {:induction false} SplitJoin(parts: seq<string>, sep: char)
    requires parts != [] && forall p :: p in parts ==> sep !in p
    ensures Split(Join(parts, sep), sep) == parts
  {
    SplitWhole(parts[0], sep);
    if |parts| > 1 {
      SplitJoin(parts[1..], sep);
      SplitAtSeparator(parts[0], Join(parts[1..], sep), sep);
    }
  }

  lemma {:induction false} JoinAvoids(parts: seq<string>, sep: char, c: char)
    requires c != sep && forall p :: p in parts ==> c !in p
    ensures c !in Join(parts, sep)
  {
    if |parts| > 1 {
      JoinAvoids(parts[1..], sep, c);
    }
  }

  lemma {:induction false} InsertAllConcat(m: map<string, string>, a: seq<string>, b: seq<string>)
    ensures InsertAll(m, a + b) == InsertAll(InsertAll(m, a), b)
    decreases |a|
  {
    if a == [] {
      assert a + b == b;
    } else {
      assert (a + b)[1..] == a[1..] + b;
      InsertAllConcat(Insert(m, a[0]), a[1..], b);
    }
  }

  lemma InsertCleanPair(m: map<string, string>, k: string, v: string)
    requires Clean(k) && Clean(v)
    ensures Insert(m, k + "=" + v) == m[k := v]
  {
    SplitAtSeparator(k, v, '=');
    SplitWhole(k, '=');
    SplitWhole(v, '=');
  }

  function Restrict(params: map<string, string>, order: seq<string>): map<string, string> {
    map k | k in order && k in params :: params[k]
  }

  lemma RestrictStep(m: map<string, string>, params: map<string, string>, order: seq<string>)
    requires Distinct(order) && order != [] && order[0] in params
    ensures m[order[0] := params[order[0]]] + Restrict(params, order[1..]) == m + Restrict(params, order)
  {
    assert forall x :: x in order <==> x == order[0] || x in order[1..];
  }

  // Inserting the pairs of clean parameters, in any order, overrides with them.
  lemma {:induction false} InsertPairs(m: map<string, string>, params: map<string, string>, order: seq<string>)
    requires Distinct(order) && CleanParams(params)
    requires forall k :: k in order ==> k in params
    ensures InsertAll(m, Pairs(params, order)) == m + Restrict(params, order)
    decreases |order|
  {
    if order != [] {
      var k := order[0];
      InsertCleanPair(m, k, params[k]);
      assert Pairs(params, order)[0] == k + "=" + params[k];
      assert Pairs(params, order)[1..] == Pairs(params, order[1..]);
      InsertPairs(m[k := params[k]], params, order[1..]);
      RestrictStep(m, params, order);
    }
  }

  // The pairs of clean parameters hold neither '?' nor '&'.
  lemma PairsAvoid(params: map<string, string>, order: seq<string>)
    requires CleanParams(params) && forall k :: k in order ==> k in params
    ensures forall p :: p in Pairs(params, order) ==> '?' !in p && '&' !in p
  {
    forall p | p in Pairs(params, order) ensures '?' !in p && '&' !in p {
      var i :| 0 <= i < |order| && p == Pairs(params, order)[i];
      assert p == order[i] + ['='] + params[order[i]];
      assert order[i] in order && Clean(order[i]) && Clean(params[order[i]]);
    }
  }

  // Everything a query string can be parsed into is clean.
  lemma ParsedIsClean(uri: string)
    ensures CleanParams(QueryParams(uri))
  {
    var parts := Split(uri, '?');
    SplitParts(uri, '?');
    if |parts| >= 2 {
      assert parts[1] in parts;
      SplitParts(parts[1], '&');
      InsertedIsClean(map[], Split(parts[1], '&'));
    }
  }

  lemma {:induction false} InsertedIsClean(m: map<string, string>, pairs: seq<string>)
    requires CleanParams(m) && forall p :: p in pairs ==> '?' !in p && '&' !in p
    ensures CleanParams(InsertAll(m, pairs))
    decreases |pairs|
  {
    if pairs != [] {
      var parts := Split(pairs[0], '=');
      SplitParts(pairs[0], '=');
      assert pairs[0] in pairs && parts[0] in parts;
      if |parts| >= 2 { assert parts[1] in parts; }
      InsertedIsClean(Insert(m, pairs[0]), pairs[1..]);
    }
  }

  // The number of '?' in a URI is one less than its number of segments.
  function Segments(uri: string): nat {
    |Split(uri, '?')|
  }

  lemma {:induction false} SegmentsOf(uri: string)
    ensures Segments(uri) == 1 <==> '?' !in uri
  {
    if uri != "" {
      SegmentsOf(uri[1..]);
    }
  }

  // Text appended to a URI goes to its last segment.
  lemma {:induction false} AppendKeepsSegments(uri: string, more: string)
    ensures var a := Split(uri, '?');
      Split(uri + more, '?') == a[..|a| - 1] + Split(a[|a| - 1] + more, '?')
  {
    if uri == "" {
      assert uri + more == more && "" + more == more;
    } else {
      AppendKeepsSegments(uri[1..], more);
      assert (uri + more)[1..] == uri[1..] + more;
      AppendKeepsStep(uri[0], Split(uri[1..], '?'), Split(uri[1..] + more, '?'), more);
    }
  }

  lemma AppendKeepsStep(c: char, a': seq<string>, b': seq<string>, more: string)
    requires |a'| >= 1 && b' == a'[..|a'| - 1] + Split(a'[|a'| - 1] + more, '?')
    ensures var a := PutBefore(c, a', '?');
      PutBefore(c, b', '?') == a[..|a| - 1] + Split(a[|a| - 1] + more, '?')
  {
    if c == '?' {
      var a := [""] + a';
      assert a[..|a| - 1] == [""] + a'[..|a'| - 1];
    } else if |a'| == 1 {
      OnePartGrows(c, a'[0], more);
      assert b' == Split(a'[0] + more, '?');
    } else {
      FirstPartGrows(c, a', b');
    }
  }

  lemma OnePartGrows(c: char, part: string, more: string)
    requires c != '?'
    ensures Split([c] + part + more, '?') == PutBefore(c, Split(part + more, '?'), '?')
  {
    assert ([c] + part + more)[1..] == part + more;
  }

  lemma FirstPartGrows(c: char, a': seq<string>, b': seq<string>)
    requires c != '?' && |a'| >= 2 && |b'| >= |a'| - 1 && b'[..|a'| - 1] == a'[..|a'| - 1]
    ensures var a, b := PutBefore(c, a', '?'), PutBefore(c, b', '?');
      && a[|a| - 1] == a'[|a'| - 1]
      && b == a[..|a| - 1] + b'[|a'| - 1..]
  {
    assert b'[0] == a'[0];
    var n := |a'| - 1;
    assert b' == a'[..n] + b'[n..];
    assert a'[..n] == [a'[0]] + a'[1..n];
    assert b'[1..] == a'[1..n] + b'[n..];
  }

  predicate EndsEmpty(parts: seq<string>)
    requires |parts| >= 1
  {
    parts[|parts| - 1] == ""
  }

  lemma {:induction false} LastSegment(uri: string)
    requires uri != ""
    ensures uri[|uri| - 1] == '?' <==> EndsEmpty(Split(uri, '?'))
  {
    if |uri| > 1 {
      var rest := uri[1..];
      LastSegment(rest);
      NotOneEmptyPart(rest);
      LastOfPut(uri[0], Split(rest, '?'));
      assert rest[|rest| - 1] == uri[|uri| - 1];
    } else {
      assert uri[1..] == "";
    }
  }

  lemma NotOneEmptyPart(s: string)
    requires s != ""
    ensures var parts := Split(s, '?'); !(|parts| == 1 && parts[0] == "")
  {
    assert Split(s, '?') == PutBefore(s[0], Split(s[1..], '?'), '?');
  }

  lemma LastOfPut(c: char, parts: seq<string>)
    requires |parts| >= 1 && !(|parts| == 1 && parts[0] == "")
    ensures EndsEmpty(PutBefore(c, parts, '?')) <==> EndsEmpty(parts)
  {}

  lemma EmptyQuery()
    ensures InsertAll(map[], Split("", '&')) == map[]
  {
    assert Split("", '&') == [""];
    assert [""][1..] == [];
    assert Insert(map[], "") == map[];
  }

  // The text that clean parameters are appended as: it has no '?' and splits
  // into their pairs, which override whatever came before.
  lemma QueryText(m: map<string, string>, params: map<string, string>, order: seq<string>)
    requires Enumerates(order, params) && order != [] && CleanParams(params)
    ensures var query := Join(Pairs(params, order), '&');
      '?' !in query && InsertAll(m, Split(query, '&')) == m + params
  {
    var pairs := Pairs(params, order);
    PairsAvoid(params, order);
    SplitJoin(pairs, '&');
    JoinAvoids(pairs, '&', '?');
    InsertPairs(m, params, order);
    assert params == Restrict(params, order);
  }

  lemma QueryAfterPath(path: string, query: string)
    requires '?' !in path && '?' !in query
    ensures QueryParams(path + "?" + query) == InsertAll(map[], Split(query, '&'))
  {
    SplitAtSeparator(path, query, '?');
    SplitWhole(path, '?');
    SplitWhole(query, '?');
  }

  lemma QueryAfterQuery(uri: string, query: string)
    requires Segments(uri) == 2 && '?' !in query
    ensures QueryParams(uri + Seam(uri) + query)
         == InsertAll(QueryParams(uri), Split(query, '&'))
  {
    var own := Split(uri, '?');
    var more := Seam(uri) + query;
    assert uri + Seam(uri) + query == uri + more;
    SegmentsOf(uri);
    LastSegment(uri);
    SplitParts(uri, '?');
    AppendKeepsSegments(uri, more);
    var q := own[1];
    assert q in own && '?' !in q + more;
    SplitWhole(q + more, '?');
    assert Split(uri + more, '?')[1] == q + more;
    if q == "" {
      assert q + more == query;
      EmptyQuery();
    } else {
      assert q + more == q + ['&'] + query;
      SplitAtSeparator(q, query, '&');
      InsertAllConcat(map[], Split(q, '&'), Split(query, '&'));
    }
  }

  // Parsing the built URI, whatever the enumeration order, when the URI has at
  // most one '?' and the parameters are clean: the URI's own parameters
  // overridden by the map.
  lemma CleanRoundTrip(uri: string, params: map<string, string>, order: seq<string>)
    requires Enumerates(order, params) && order != [] && CleanParams(params) && Segments(uri) <= 2
    ensures QueryParams(BuiltUri(uri, params, order)) == QueryParams(uri) + params
  {
    var query := Join(Pairs(params, order), '&');
    QueryText(QueryParams(uri), params, order);
    SegmentsOf(uri);
    if Segments(uri) == 1 {
      QueryAfterPath(uri, query);
      assert QueryParams(uri) == map[];
    } else {
      QueryAfterQuery(uri, query);
    }
  }

  // With two or more '?' everything appended falls behind the second one.
  lemma SecondQuestionMarkHides(uri: string, params: map<string, string>, order: seq<string>)
    requires Enumerates(order, params) && Segments(uri) > 2
    ensures QueryParams(BuiltUri(uri, params, order)) == QueryParams(uri)
  {
    if order != [] {
      var more := Seam(uri) + Join(Pairs(params, order), '&');
      assert BuiltUri(uri, params, order) == uri + more;
      AppendKeepsSegments(uri, more);
    }
  }

  // The parameters arrive exactly when there are none, or the URI has at most one
  // '?' and every key and value is clean, or they were in the URI already.
  lemma ParametersArriveIff(uri: string, params: map<string, string>, order: seq<string>)
    requires Enumerates(order, params)
    ensures QueryParams(BuiltUri(uri, params, order)) == QueryParams(uri) + params
       <==> || params == map[]
            || (Segments(uri) <= 2 && CleanParams(params))
            || (Segments(uri) > 2 && QueryParams(uri) + params == QueryParams(uri))
  {
    if order == [] {
      assert params == map[];
      assert QueryParams(uri) + params == QueryParams(uri);
    } else {
      assert order[0] in params;
      ParsedIsClean(BuiltUri(uri, params, order));
      if Segments(uri) > 2 {
        SecondQuestionMarkHides(uri, params, order);
      } else if CleanParams(params) {
        CleanRoundTrip(uri, params, order);
      } else {
        var k :| k in params && !(Clean(k) && Clean(params[k]));
        assert k in QueryParams(uri) + params && (QueryParams(uri) + params)[k] == params[k];
      }
    }
  }

  // The path is never changed, whatever the parameters.
  lemma PathUnchanged(uri: string, params: map<string, string>, order: seq<string>)
    requires Enumerates(order, params)
    ensures Path(BuiltUri(uri, params, order)) == Path(uri)
  {
    if order != [] {
      var query := Join(Pairs(params, order), '&');
      var more := Seam(uri) + query;
      assert BuiltUri(uri, params, order) == uri + more;
      AppendKeepsSegments(uri, more);
      SegmentsOf(uri);
      if '?' !in uri {
        SplitWhole(uri, '?');
        assert uri + more == uri + ['?'] + query;
        SplitAtSeparator(uri, query, '?');
      }
    }
  }

  // ------------------------------------------------- what is read out of a URI

  // The path is the part before the first '?'.
  lemma {:induction false} PathIsFirstPart(uri: string)
    ensures Path(uri) <= uri && '?' !in Path(uri)
    ensures |Path(uri)| < |uri| ==> uri[|Path(uri)|] == '?'
  {
    if uri != "" {
      PathIsFirstPart(uri[1..]);
    }
  }

  lemma NoQueryNoParameters(uri: string)
    requires '?' !in uri
    ensures QueryParams(uri) == map[]
  {
    SplitWhole(uri, '?');
  }

  // Only what stands between the first two '?' is read.
  lemma SecondQueryIgnored(path: string, query: string, more: string)
    requires '?' !in path && '?' !in query
    ensures QueryParams(path + "?" + query + "?" + more) == QueryParams(path + "?" + query)
  {
    QueryAfterPath(path, query);
    SplitAtSeparator(path, query + ['?'] + more, '?');
    SplitAtSeparator(query, more, '?');
    SplitWhole(path, '?');
    SplitWhole(query, '?');
    assert path + "?" + query + "?" + more == path + ['?'] + (query + ['?'] + more);
  }

  lemma {:induction false} InsertAllOver(m: map<string, string>, pairs: seq<string>)
    ensures InsertAll(m, pairs) == m + InsertAll(map[], pairs)
    decreases |pairs|
  {
    if pairs != [] {
      InsertAllOver(Insert(m, pairs[0]), pairs[1..]);
      InsertAllOver(Insert(map[], pairs[0]), pairs[1..]);
      assert Insert(m, pairs[0]) == m + Insert(map[], pairs[0]);
    }
  }

  // Parameters are read from left to right, a later one winning.
  lemma LaterParametersWin(path: string, first: string, second: string)
    requires '?' !in path && '?' !in first && '?' !in second
    ensures QueryParams(path + "?" + first + "&" + second)
         == QueryParams(path + "?" + first) + QueryParams(path + "?" + second)
  {
    var both := first + ['&'] + second;
    QueryAfterPath(path, first);
    QueryAfterPath(path, second);
    QueryAfterPath(path, both);
    SplitAtSeparator(first, second, '&');
    InsertAllConcat(map[], Split(first, '&'), Split(second, '&'));
    InsertAllOver(InsertAll(map[], Split(first, '&')), Split(second, '&'));
    assert path + "?" + first + "&" + second == path + "?" + both;
  }

  lemma PairParts(key: string, value: string, more: string)
    requires Clean(key) && Clean(value) && (more == "" || more[0] == '=')
    ensures var parts := Split(key + ['='] + (value + more), '=');
      |parts| >= 2 && parts[0] == key && parts[1] == value
  {
    SplitAtSeparator(key, value + more, '=');
    SplitWhole(key, '=');
    SplitWhole(value, '=');
    if more == "" {
      assert value + more == value;
    } else {
      SplitAtSeparator(value, more[1..], '=');
      assert value + more == value + ['='] + more[1..];
    }
  }

  // One parameter: the key before the first '=', the value up to the next one.
  lemma OneParameter(path: string, key: string, value: string, more: string)
    requires '?' !in path && Clean(key) && Clean(value)
    requires more == "" || (more[0] == '=' && '?' !in more && '&' !in more)
    ensures QueryParams(path + "?" + key + "=" + value + more) == map[key := value]
  {
    var pair := key + ['='] + (value + more);
    assert path + "?" + key + "=" + value + more == path + "?" + pair;
    QueryAfterPath(path, pair);
    SplitWhole(pair, '&');
    PairParts(key, value, more);
    OnePairInserted(pair);
  }

  lemma OnePairInserted(pair: string)
    ensures InsertAll(map[], [pair]) == Insert(map[], pair)
  {
    assert [pair][1..] == [];
  }

  // Without '=' there is none.
  lemma NoParameter(path: string, text: string)
    requires '?' !in path && Clean(text)
    ensures QueryParams(path + "?" + text) == map[]
  {
    QueryAfterPath(path, text);
    SplitWhole(text, '&');
    SplitWhole(text, '=');
    assert [text][1..] == [];
  }

  // The text that is built: the URI, what separates its own query from the new
  // one, and key=value pairs with '&' in between.
  lemma FirstPairBuilt(uri: string, params: map<string, string>, key: string)
    requires key in params
    ensures BuiltUri(uri, params, [key])
         == uri + (if '?' !in uri then "?" else if uri[|uri| - 1] == '?' then "" else "&") + key + "=" + params[key]
  {
    assert Pairs(params, [key]) == [key + "=" + params[key]];
  }

  lemma {:induction false} JoinSnoc(parts: seq<string>, last: string, sep: char)
    requires parts != []
    ensures Join(parts + [last], sep) == Join(parts, sep) + [sep] + last
  {
    if |parts| == 1 {
      assert (parts + [last])[1..] == [last];
    } else {
      assert (parts + [last])[1..] == parts[1..] + [last];
      JoinSnoc(parts[1..], last, sep);
    }
  }

  lemma NextPairBuilt(uri: string, params: map<string, string>, order: seq<string>, key: string)
    requires order != [] && (forall k :: k in order ==> k in params) && key in params
    ensures BuiltUri(uri, params, order + [key]) == BuiltUri(uri, params, order) + "&" + key + "=" + params[key]
  {
    assert Pairs(params, order + [key]) == Pairs(params, order) + [key + "=" + params[key]];
    JoinSnoc(Pairs(params, order), key + "=" + params[key], '&');
  }
}
