/** requestData (script.js:36-54): the URI of a request to the proxy endpoint, and a reader of
    that URI's query string as a server sees it, to state that no caller value can add or alter a
    parameter. The fetch itself is done by the caller (DbCache.LoadDb) through a `server`
    collaborator. */
module ProxyClient {
  import opened Wrappers
  import opened Errors
  import opened UriEncoding

  const ApiAddress: string := "https://plex.aleph0.com/chjones/admin/proxy.cgi"
  const DebugMode: bool := true

  /** The URI requestData fetches for arguments that pass its guard; DebugMode is always on, so
      "&debug" always ends it. */
  function RequestUri(appName: string, apiPath: string, query: string): string
  {
    ApiAddress + "?appName=" + Encode(appName) + "&apiPath=" + Encode(apiPath)
    + (if query != "" then "&query=" + Encode(query) else "")
    + "&debug"
  }

  /** requestData: rejects a falsy (empty) appName or apiPath before anything is built, then
      builds the URI step by step. A query of "" (the default, and what loadDb passes) is left
      out. */
  method RequestData(appName: string, apiPath: string, query: string) returns (r: Result<string, Error>)
    ensures r.Failure? <==> appName == "" || apiPath == ""
    ensures r.Failure? ==> r.error == MissingArguments
    ensures r.Failure? ==> Message(r.error) == "request requires appName and apiPath"
    ensures r.Success? ==> r.value == RequestUri(appName, apiPath, query)
  {
    if appName == "" || apiPath == "" {
      return Failure(MissingArguments);
    }
    var app := Encode(appName);
    var path := Encode(apiPath);
    var uri := ApiAddress + "?appName=" + app + "&apiPath=" + path;
    if query != "" {
      var q := Encode(query);
      uri := uri + "&query=" + q;
    }
    if DebugMode {
      uri := uri + "&debug";
    }
    r := Success(uri);
  }

  /** One `name=value` pair of a query string, as written (still percent-encoded); `value` is
      None for a bare `name`. */
  datatype Param = Param(name: string, value: Option<string>)

  /** The pieces of `s` between occurrences of `sep`. */
  function Split(s: string, sep: char): (parts: seq<string>)
    ensures |parts| >= 1
  {
    if s == [] then [[]]
    else if s[0] == sep then [[]] + Split(s[1..], sep)
    else
      var rest := Split(s[1..], sep);
      [[s[0]] + rest[0]] + rest[1..]
  }

  /** `s` cut at its first `sep`, if it has one. */
  function SplitOnce(s: string, sep: char): Option<(string, string)>
  {
    if s == [] then None
    else if s[0] == sep then Some(([], s[1..]))
    else match SplitOnce(s[1..], sep)
      case None => None
      case Some((before, after)) => Some(([s[0]] + before, after))
  }

  /** One piece of a query string, cut at its first '='. */
  function ReadParam(piece: string): Param
  {
    match SplitOnce(piece, '=')
    case None => Param(piece, None)
    case Some((name, value)) => Param(name, Some(value))
  }

  /** The parameters a server finds in the query string of `uri`, the part after its first '?'. */
  function ReadParams(uri: string): seq<Param>
  {
    match SplitOnce(uri, '?')
    case None => []
    case Some((_, query)) => seq(|Split(query, '&')|, i requires 0 <= i < |Split(query, '&')| => ReadParam(Split(query, '&')[i]))
  }

  lemma {:induction false} SplitAfter(x: string, sep: char, y: string)
    requires sep !in x
    ensures Split(x + [sep] + y, sep) == [x] + Split(y, sep)
  {
    if x != [] {
      assert (x + [sep] + y)[1..] == x[1..] + [sep] + y;
      SplitAfter(x[1..], sep, y);
      assert [x[0]] + x[1..] == x;
    }
  }

  lemma {:induction false} SplitWhole(x: string, sep: char)
    requires sep !in x
    ensures Split(x, sep) == [x]
  {
    if x != [] {
      SplitWhole(x[1..], sep);
      assert [x[0]] + x[1..] == x;
    }
  }

  lemma {:induction false} SplitOnceAt(x: string, sep: char, y: string)
    requires sep !in x
    ensures SplitOnce(x + [sep] + y, sep) == Some((x, y))
  {
    if x != [] {
      assert (x + [sep] + y)[1..] == x[1..] + [sep] + y;
      SplitOnceAt(x[1..], sep, y);
      assert [x[0]] + x[1..] == x;
    }
  }

  lemma {:induction false} SplitOnceNone(x: string, sep: char)
    requires sep !in x
    ensures SplitOnce(x, sep) == None
  {
    if x != [] {
      SplitOnceNone(x[1..], sep);
    }
  }

  lemma AddressHasNoQuery()
    ensures '?' !in ApiAddress
  {
    var scheme, rest := "https://plex.aleph0.com/", "chjones/admin/proxy.cgi";
    assert '?' !in scheme && '?' !in rest;
    assert ApiAddress == scheme + rest;
  }

  /** The query string for values already encoded as `a`, `p` and `q`. */
  function QueryOf(a: string, p: string, q: string, hasQuery: bool): string
  {
    "appName=" + a + "&apiPath=" + p + (if hasQuery then "&query=" + q else "") + "&debug"
  }

  /** The pieces QueryOf is made of. */
  function PiecesOf(a: string, p: string, q: string, hasQuery: bool): seq<string>
  {
    ["appName=" + a, "apiPath=" + p] + (if hasQuery then ["query=" + q] else []) + ["debug"]
  }

  lemma UriShape(a: string, p: string, q: string, hasQuery: bool)
    ensures ApiAddress + "?appName=" + a + "&apiPath=" + p + (if hasQuery then "&query=" + q else "") + "&debug"
         == ApiAddress + ['?'] + QueryOf(a, p, q, hasQuery)
  {
    assert "?appName=" == ['?'] + "appName=";
  }

  lemma QueryOfIsRequestQuery(appName: string, apiPath: string, query: string)
    ensures RequestUri(appName, apiPath, query) ==
      ApiAddress + ['?'] + QueryOf(Encode(appName), Encode(apiPath), Encode(query), query != "")
  {
    UriShape(Encode(appName), Encode(apiPath), Encode(query), query != "");
  }

  /** When no value holds an '&', the query string splits into exactly one piece per parameter. */
  lemma {:induction false} QueryOfPieces(a: string, p: string, q: string, hasQuery: bool)
    requires '&' !in a && '&' !in p && '&' !in q
    ensures Split(QueryOf(a, p, q, hasQuery), '&') == PiecesOf(a, p, q, hasQuery)
  {
    var piece1, piece2, piece3 := "appName=" + a, "apiPath=" + p, "query=" + q;
    var tail := if hasQuery then piece3 + ['&'] + "debug" else "debug";
    assert QueryOf(a, p, q, hasQuery) == piece1 + ['&'] + (piece2 + ['&'] + tail);
    assert '&' !in piece1;
    assert '&' !in piece2;
    SplitWhole("debug", '&');
    SplitAfter(piece1, '&', piece2 + ['&'] + tail);
    SplitAfter(piece2, '&', tail);
    if hasQuery {
      assert '&' !in piece3;
      SplitAfter(piece3, '&', "debug");
    }
  }

  lemma ReadNameValue(name: string, value: string)
    requires '=' !in name
    ensures ReadParam(name + "=" + value) == Param(name, Some(value))
  {
    SplitOnceAt(name, '=', value);
  }

  /** What a server finds in the query string requestData builds: the encoded values. */
  function EncodedParams(appName: string, apiPath: string, query: string): seq<Param>
  {
    [Param("appName", Some(Encode(appName))), Param("apiPath", Some(Encode(apiPath)))]
    + (if query != "" then [Param("query", Some(Encode(query)))] else [])
    + [Param("debug", None)]
  }

  /** The parameters of a query string whose values hold no '&'. */
  lemma {:induction false} ReadQueryOf(a: string, p: string, q: string, hasQuery: bool)
    requires '&' !in a && '&' !in p && '&' !in q
    ensures ReadParams(ApiAddress + ['?'] + QueryOf(a, p, q, hasQuery)) ==
      [Param("appName", Some(a)), Param("apiPath", Some(p))]
      + (if hasQuery then [Param("query", Some(q))] else [])
      + [Param("debug", None)]
  {
    AddressHasNoQuery();
    SplitOnceAt(ApiAddress, '?', QueryOf(a, p, q, hasQuery));
    QueryOfPieces(a, p, q, hasQuery);
    var pieces := PiecesOf(a, p, q, hasQuery);
    var params := [Param("appName", Some(a)), Param("apiPath", Some(p))]
      + (if hasQuery then [Param("query", Some(q))] else [])
      + [Param("debug", None)];
    assert |pieces| == |params|;
    forall i | 0 <= i < |pieces|
      ensures ReadParam(pieces[i]) == params[i]
    {
      if i == |pieces| - 1 {
        assert pieces[i] == "debug" && params[i] == Param("debug", None);
        SplitOnceNone("debug", '=');
      } else if i == 0 {
        assert pieces[i] == "appName=" + a && params[i] == Param("appName", Some(a));
        assert "appName=" + a == "appName" + "=" + a;
        ReadNameValue("appName", a);
      } else if i == 1 {
        assert pieces[i] == "apiPath=" + p && params[i] == Param("apiPath", Some(p));
        assert "apiPath=" + p == "apiPath" + "=" + p;
        ReadNameValue("apiPath", p);
      } else {
        assert pieces[i] == "query=" + q && params[i] == Param("query", Some(q));
        assert "query=" + q == "query" + "=" + q;
        ReadNameValue("query", q);
      }
    }
  }

  /** A server reading the built URI finds exactly the parameters appName, apiPath, query (only
      when the query is non-empty) and debug, in that order, each value the encoding of the
      caller's argument. */
  lemma RequestUriParams(appName: string, apiPath: string, query: string)
    ensures ReadParams(RequestUri(appName, apiPath, query)) == EncodedParams(appName, apiPath, query)
  {
    QueryOfIsRequestQuery(appName, apiPath, query);
    EncodeHasNo(appName, '&');
    EncodeHasNo(apiPath, '&');
    EncodeHasNo(query, '&');
    ReadQueryOf(Encode(appName), Encode(apiPath), Encode(query), query != "");
  }

  /** No caller value can add, drop or alter a parameter: the parameters of the built URI are
      appName, apiPath, the query when non-empty, and debug, and decoding each value gives back
      the caller's argument exactly. */
  lemma NoParameterInjection(appName: string, apiPath: string, query: string)
    ensures var ps := ReadParams(RequestUri(appName, apiPath, query));
      && |ps| == (if query != "" then 4 else 3)
      && ps[0].name == "appName" && ps[0].value.Some? && Decode(ps[0].value.value) == Some(appName)
      && ps[1].name == "apiPath" && ps[1].value.Some? && Decode(ps[1].value.value) == Some(apiPath)
      && (query != "" ==> ps[2].name == "query" && ps[2].value.Some? && Decode(ps[2].value.value) == Some(query))
      && ps[|ps| - 1] == Param("debug", None)
  {
    RequestUriParams(appName, apiPath, query);
    DecodeEncode(appName);
    DecodeEncode(apiPath);
    DecodeEncode(query);
  }
}
