/** loadDb and getDb (script.js:5-9, 105-139): the table of databases, and the `dbs` cache that
    getDb reads and loadDb fills. The host's fetch is a parameter, `server`, from the requested URI
    to a transport response (None when the fetch itself rejects). */
module DbCache {
  import opened Wrappers
  import opened Errors
  import opened UriEncoding
  import opened ProxyClient
  import opened Envelope

  /** The app and API path a database is requested from. */
  datatype Target = Target(appName: string, apiPath: string)

  /** The switch of loadDb: the two loadable databases, "downloads" that has no loader yet, and
      every other name. */
  function TargetOf(name: string): (r: Result<Target, Error>)
    ensures r.Success? ==> r.value.appName != "" && r.value.apiPath != ""
    ensures r.Failure? ==> r.error == NotImplemented || r.error == NoDatabase(name)
  {
    if name == "shows" then Success(Target("sonarr", "/api/v3/series"))
    else if name == "movies" then Success(Target("radarr", "/api/v3/movie"))
    else if name == "downloads" then Failure(NotImplemented)
    else Failure(NoDatabase(name))
  }

  /** The URI loadDb requests for `name`, if it requests one at all; loadDb passes no query. */
  function Requested(name: string): Option<string>
  {
    match TargetOf(name)
    case Success(t) => Some(RequestUri(t.appName, t.apiPath, ""))
    case Failure(_) => None
  }

  /** What loadDb makes of the fetch's outcome: a rejection, or processResponse of the response. */
  function Fetched(outcome: Option<Response>, parse: string -> Parsed, collate: (string, string) -> int,
                   now: int): Result<Db, Error>
  {
    match outcome
    case None => Failure(FetchRejected)
    case Some(response) => Processed(response, parse, collate, now)
  }

  /** The outcome of loadDb, as a specification: the table, the request, then processResponse. */
  function Loaded(name: string, server: string -> Option<Response>, parse: string -> Parsed,
                  collate: (string, string) -> int, now: int): Result<Db, Error>
  {
    match TargetOf(name)
    case Failure(e) => Failure(e)
    case Success(t) => Fetched(server(RequestUri(t.appName, t.apiPath, "")), parse, collate, now)
  }

  /** A successful fetch yields an array payload. */
  lemma FetchedArray(outcome: Option<Response>, parse: string -> Parsed, collate: (string, string) -> int,
                     now: int)
    ensures var r := Fetched(outcome, parse, collate, now);
      r.Success? ==> r.value.json.response.Array?
  {
    if outcome.Some? {
      ProcessedFailures(outcome.value, parse, collate, now);
    }
  }

  /** `uri` is a request whose parameters are exactly appName, apiPath and debug, with the two
      values decoding to `appName` and `apiPath`. */
  predicate RequestFor(uri: Option<string>, appName: string, apiPath: string)
  {
    && uri.Some?
    && var ps := ReadParams(uri.value);
    && |ps| == 3
    && ps[0].name == "appName" && ps[0].value.Some? && Decode(ps[0].value.value) == Some(appName)
    && ps[1].name == "apiPath" && ps[1].value.Some? && Decode(ps[1].value.value) == Some(apiPath)
    && ps[2] == Param("debug", None)
  }

  /** The table: "shows" is sonarr's series and "movies" radarr's movies, each requested with no
      query; "downloads" fails as not yet implemented and any other name as unknown, and neither
      issues a request. */
  lemma LoadTable(name: string)
    ensures name == "shows" ==> RequestFor(Requested(name), "sonarr", "/api/v3/series")
    ensures name == "movies" ==> RequestFor(Requested(name), "radarr", "/api/v3/movie")
    ensures name == "downloads" ==> Requested(name) == None && TargetOf(name) == Failure(NotImplemented)
    ensures name != "shows" && name != "movies" && name != "downloads" ==>
      Requested(name) == None && TargetOf(name) == Failure(NoDatabase(name))
  {
    if name == "shows" {
      NoParameterInjection("sonarr", "/api/v3/series", "");
    } else if name == "movies" {
      NoParameterInjection("radarr", "/api/v3/movie", "");
    }
  }

  /** The messages of the table's failures: "Not yet implemented." for downloads, and the
      unknown name quoted for every other name that is not loadable. */
  lemma LoadFailureMessages(name: string)
    requires TargetOf(name).Failure?
    ensures name == "downloads" ==> Message(TargetOf(name).error) == "Not yet implemented."
    ensures name != "downloads" ==> Message(TargetOf(name).error) == "No database '" + name + "' to load."
  {
  }

  /** A load succeeds only for "shows" and "movies", and only with an array payload. */
  lemma LoadedSuccess(name: string, server: string -> Option<Response>, parse: string -> Parsed,
                      collate: (string, string) -> int, now: int)
    ensures var r := Loaded(name, server, parse, collate, now);
      r.Success? ==> Loadable(name) && r.value.json.response.Array?
  {
    var target := TargetOf(name);
    if target.Success? {
      FetchedArray(server(RequestUri(target.value.appName, target.value.apiPath, "")), parse, collate, now);
    }
  }

  /** The databases the cache may hold. */
  predicate Loadable(name: string)
  {
    name == "shows" || name == "movies"
  }

  /** Only loaded databases are stored, each with an array payload. */
  ghost predicate ValidStore(dbs: map<string, Db>)
  {
    forall name :: name in dbs ==> Loadable(name) && dbs[name].json.response.Array?
  }

  /** Storing a loaded database keeps the store valid. */
  lemma StoreLoaded(dbs: map<string, Db>, name: string, db: Db)
    requires ValidStore(dbs)
    requires Loadable(name) && db.json.response.Array?
    ensures ValidStore(dbs[name := db])
  {
  }

  /** The `dbs` dictionary. An entry of `null` (the initial value of all three names) reads as
      absent: the cache holds exactly the entries getDb treats as hits. */
  class Cache {
    var dbs: map<string, Db>

    ghost predicate Valid()
      reads this
    {
      ValidStore(dbs)
    }

    constructor ()
      ensures Valid()
      ensures dbs == map[]
    {
      dbs := map[];
    }

    /** loadDb: the table, then requestData, the fetch and processResponse, and the store of the
        result under `name` only once all of them succeeded. `fetched` is the URI requested, None
        when no request is issued. */
    method LoadDb(name: string, server: string -> Option<Response>, parse: string -> Parsed,
                  collate: (string, string) -> int, now: int)
      returns (r: Result<Db, Error>, fetched: Option<string>)
      requires Valid()
      modifies this
      ensures Valid()
      ensures r.Success? ==> Loadable(name) && r.value.json.response.Array?
      ensures r == Loaded(name, server, parse, collate, now)
      ensures fetched == Requested(name)
      ensures dbs == if r.Success? then old(dbs)[name := r.value] else old(dbs)
    {
      var target := TargetOf(name);
      if target.Failure? {
        return Failure(target.error), None;
      }
      var request := RequestData(target.value.appName, target.value.apiPath, "");
      assert request.Success?;
      fetched := Some(request.value);
      assert fetched == Requested(name);
      var response := server(request.value);
      if response == None {
        return Failure(FetchRejected), fetched;
      }
      r := ProcessResponse(response.value, parse, collate, now);
      assert r == Loaded(name, server, parse, collate, now);
      if r.Success? {
        LoadedSuccess(name, server, parse, collate, now);
        StoreLoaded(dbs, name, r.value);
        dbs := dbs[name := r.value];
      }
    }

    /** getDb: a stored database is returned as is, with no request and nothing changed; any other
        name is loaded. */
    method GetDb(name: string, server: string -> Option<Response>, parse: string -> Parsed,
                 collate: (string, string) -> int, now: int)
      returns (r: Result<Db, Error>, fetched: Option<string>)
      requires Valid()
      modifies this
      ensures Valid()
      ensures r.Success? ==> Loadable(name) && r.value.json.response.Array?
      ensures name in old(dbs) ==> r == Success(old(dbs)[name]) && fetched == None && dbs == old(dbs)
      ensures name !in old(dbs) ==>
        && r == Loaded(name, server, parse, collate, now)
        && fetched == Requested(name)
        && dbs == if r.Success? then old(dbs)[name := r.value] else old(dbs)
    {
      if name in dbs {
        return Success(dbs[name]), None;
      }
      r, fetched := LoadDb(name, server, parse, collate, now);
    }

    /** Two sequential getDb calls for the same name: once the first has succeeded, the second
        issues no request and returns the same database, whatever the server would now answer. */
    method GetDbTwice(name: string, server: string -> Option<Response>, server2: string -> Option<Response>,
                      parse: string -> Parsed, collate: (string, string) -> int, now: int, later: int)
      returns (first: Result<Db, Error>, second: Result<Db, Error>, fetched: Option<string>)
      requires Valid()
      modifies this
      ensures Valid()
      ensures first.Success? ==> second == first && fetched == None
    {
      var firstFetched;
      first, firstFetched := GetDb(name, server, parse, collate, now);
      second, fetched := GetDb(name, server2, parse, collate, later);
    }
  }
}
