# plex-admin request, validate and cache pipeline

This project models the core of the plex-admin dashboard script (`script.js`) in Dafny. That core is:

- **requestData** builds the URI of a request to the one proxy endpoint. It refuses an empty `appName` or `apiPath`. It percent-encodes every value with `encodeURIComponent` and always ends with `&debug`, because `debugMode` is the constant `true`.
- **processResponse** validates the proxy's envelope `{ response, error, debug }` in a fixed order: transport status, JSON parse, null envelope, `error`, then `response`. It sorts the payload in place with `arrSort` and wraps it with the transport response and a time stamp.
- **loadDb** is a static table from `shows`, `movies` and `downloads` to an app and API path, or to an error. It requests, validates, and stores the result in the `dbs` dictionary.
- **getDb** answers from `dbs` on a hit and calls loadDb on a miss.
- **arrSort** compares records by the first of `sortTitle`, `cleanTitle`, `titleSlug` and `title` that is truthy on both. Otherwise it falls back to what the default `Array.prototype.sort` does with the two-element arrays `[a, b]` and `[b, a]`.

Modules, one per file:

| module | file | what it holds |
|---|---|---|
| `Wrappers` | `wrappers.dfy` | `Option` and `Result` |
| `Errors` | `errors.dfy` | one error per `throw` site, with the thrown message (for the host's TypeErrors, the V8 engine's wording) |
| `UriEncoding` | `uri_encoding.dfy` | `encodeURIComponent` (UTF-8, then `%XY` with uppercase hex, as in section 2.1 of RFC 3986), and `decodeURIComponent` as its reference inverse |
| `ProxyClient` | `proxy_client.dfy` | requestData, and a reader of the query string as a server sees it |
| `Sorting` | `sorting.dfy` | an insertion sort, specified on sequences and run in place on an array |
| `RecordOrder` | `record_order.dfy` | arrSort, including the default-sort fallback on UTF-16 code units |
| `Envelope` | `envelope.dfy` | processResponse, as a specification function and as a method that sorts an array |
| `DbCache` | `db_cache.dfy` | the loadDb table and the `Cache` class over the `dbs` map, with loadDb and getDb |

The host's collaborators are parameters:

- `server` stands for fetch: it maps a URI to a transport response, or to None when fetch rejects.
- `parse` stands for `JSON.parse`.
- `collate` stands for `localeCompare`.
- `now` stands for `Date.now()`.

Behaviours of the script the model keeps:

- **An empty array is a valid payload.** The `response` check is JavaScript truthiness, so an empty array `response` succeeds. An empty string `response` fails.
- **The remote error text is not returned.** A truthy `error` raises the fixed message "Error from request. See console for more info.", and the remote text only goes to the console.
- **The stored payload is the sorted one.** processResponse sorts `json.response` in place before wrapping it, so the cached array is in arrSort order.
- **The table's targets.** `shows` is requested from sonarr's `/api/v3/series`, and `movies` from radarr's `/api/v3/movie`, both without a query.
- **Only truthy keys count.** A title key whose value is absent or the empty string on either side is skipped.
- **The fallback is not a strict weak order.**
  - A value compared with itself gives 1 (`RecordOrder.SelfComparisonIsOne`).
  - Two values that are not `===` but have the same string form give 0 (`RecordOrder.SameStringNotIdenticalIsZero`).
  - Switching between keys can produce a cycle (`RecordOrder.ArrSortCycle`).
  - The payload is therefore proved sorted only where arrSort is consistent, for example when every record has a `sortTitle` (`Envelope.SortedBySortTitle`).
- **getDb has no guard against concurrent loads.** The model covers sequential calls only: a second call after a success issues no request.
- **Non-array payloads are an error path.** A truthy `response` that is not an array has no callable `sort`, so it fails with the host's TypeError (`NotSortable`).
- **A `null` envelope is an error path.** It fails when `error` is read (`NullEnvelope`).

## Model

| member | source | states |
|---|---|---|
| `UriEncoding.Utf8` | script.js:40-41 | the UTF-8 form of a character is 1 to 4 octets: a lead octet that announces the length, then continuation octets |
| `UriEncoding.Utf8RoundTrip` | script.js:40-41 | decoding the UTF-8 octets of a character gives that character back |
| `UriEncoding.Encode` | script.js:40-45 | an encoded value is at least as long as the original and holds only unreserved characters and the `%` of escapes |
| `UriEncoding.EncodeHasNo` | script.js:40-45 | no character outside the unreserved set and `%` (so no `&`, `=`, `?` or `#`) occurs in an encoded value |
| `UriEncoding.EncodeUnreserved` | script.js:40-41 | text made only of `A-Z a-z 0-9 - _ . ! ~ * ' ( )` is left unchanged |
| `UriEncoding.DecodeEncode` | script.js:40-45 | decodeURIComponent of encodeURIComponent of any string gives the string back |
| `ProxyClient.RequestData` | script.js:36-50 | fails with MissingArguments, whose message is "request requires appName and apiPath", exactly when appName or apiPath is empty; otherwise returns the base, `?appName=`, the encoded appName, `&apiPath=`, the encoded apiPath, `&query=` and the encoded query only when the query is non-empty, then `&debug` |
| `ProxyClient.AddressHasNoQuery` | script.js:3 | the fixed proxy address holds no `?`, so the query string starts where requestData puts it |
| `ProxyClient.ReadQueryOf` | script.js:42-49 | a query string built from values without `&` reads back as exactly the parameters appName, apiPath, query (only when present) and debug, in that order, with those values |
| `ProxyClient.RequestUriParams` | script.js:40-49 | a server reading the built URI finds exactly appName, apiPath, query (only when non-empty) and a bare debug, each value the encoding of the argument |
| `ProxyClient.NoParameterInjection` | script.js:29-50 | no argument can add, drop or alter a parameter: there are 4 parameters with a non-empty query and 3 otherwise, the names are fixed, each value decodes to the caller's argument, and the last is a bare debug |
| `Sorting.InsertAt` | script.js:97 | one step of the in-place sort: the prefix up to `i` becomes the insertion of the old `a[i]` into the old prefix, and the rest of the array is unchanged |
| `Sorting.SortInPlace` | script.js:97 | the array after sorting in place is the insertion sort of its old contents |
| `Sorting.SortPermutation` | script.js:97 | sorting is a permutation: the multiset of elements is unchanged |
| `Sorting.InsertSorted` | script.js:97 | inserting into a sorted sequence keeps it sorted, for a comparator that is a total preorder on the elements |
| `Sorting.SortSorted` | script.js:97 | the result is sorted for any comparator that is a total preorder on the elements |
| `RecordOrder.FirstShared` | script.js:198-199 | the index found is that of a key truthy on both records, and no earlier key is truthy on both; it is past the list when there is none |
| `RecordOrder.ArrSortKeyCase` | script.js:197-202 | for two objects, arrSort is the collation of the values of the first key of sortTitle, cleanTitle, titleSlug and title that is truthy on both |
| `RecordOrder.ArrSortFallbackCase` | script.js:204-208 | with no shared truthy key, or a non-object argument, arrSort is 1 when b's default-sort string comes before a's or a === b, otherwise -1 when a's comes before b's, otherwise 0 |
| `RecordOrder.DistinctObjectsWithoutKeyAreEqual` | script.js:204-208 | two distinct objects with no shared truthy key compare as 0 |
| `RecordOrder.SameStringNotIdenticalIsZero` | script.js:204-208 | two values that are not `===` but have the same string form (two distinct nested arrays `[1]`, say) compare as 0 when no title decides |
| `RecordOrder.SelfComparisonIsOne` | script.js:204-205 | a value compared with itself through the fallback gives 1, not 0 |
| `RecordOrder.ArrSortCycle` | script.js:196-209 | three objects can compare a < b by sortTitle, b < c by title, and a > c by title, so arrSort is not transitive |
| `RecordOrder.SortTitleConsistent` | script.js:198-200 | on records that all have a sortTitle, arrSort is a total preorder whenever the collation is |
| `RecordOrder.SortTitleOrder` | script.js:198-200 | a sequence in arrSort order whose records all have a sortTitle is in collation order of the sortTitles |
| `RecordOrder.SortBySortTitle` | script.js:97 | sorting records that all have a sortTitle gives a permutation of them in sortTitle order |
| `Envelope.ProcessResponse` | script.js:61-99 | processResponse performs the checks in the source's order and sorts the payload in an array; the outcome is the one its specification function gives |
| `Envelope.ProcessedFailures` | script.js:62-96 | each failure happens exactly when every earlier check passed and its own failed: a non-ok status, then an unparsable body, then a null envelope, then a truthy error (whatever the response), then a falsy response, then a non-array response; success happens exactly when all pass |
| `Envelope.ProcessedSuccess` | script.js:97-98 | on success the payload is a permutation of the decoded array, the error member is kept, and the result carries the original transport response and the time given |
| `Envelope.ProcessedSorted` | script.js:97 | on success the payload is in arrSort order whenever arrSort is consistent on the decoded records |
| `Envelope.SortedBySortTitle` | script.js:97 | when every decoded record has a sortTitle and the collation is a total preorder, the stored payload is a permutation in sortTitle order |
| `DbCache.TargetOf` | script.js:110-126 | a database found in the table has a non-empty app and path, so requestData cannot refuse it; any other name fails as not implemented or as unknown |
| `DbCache.LoadTable` | script.js:110-126 | shows requests sonarr's `/api/v3/series` and movies requests radarr's `/api/v3/movie`, each with exactly the parameters appName, apiPath and debug; downloads fails with "Not yet implemented." and any other name with "No database '…' to load.", and neither issues a request |
| `DbCache.LoadFailureMessages` | script.js:119-124 | a name the table refuses fails with "Not yet implemented." when it is downloads, and with "No database '" + name + "' to load." otherwise |
| `DbCache.FetchedArray` | script.js:126-128 | when the fetch resolves and processResponse succeeds, the database to store has an array payload |
| `DbCache.LoadedSuccess` | script.js:105-129 | a load succeeds only for shows and movies, and only with an array payload |
| `DbCache.Cache.constructor` | script.js:5-9 | the cache starts with no database stored |
| `DbCache.Cache.LoadDb` | script.js:105-129 | loadDb requests exactly the URI of its table entry (or none); the outcome is the specified load; the cache gains the entry for the name on success, and is unchanged on failure; a success is always shows or movies with an array payload |
| `DbCache.Cache.GetDb` | script.js:136-139 | on a hit getDb returns the stored database, issues no request and changes nothing; on a miss it behaves as loadDb; whatever it returns on success is shows or movies with an array payload |
| `DbCache.Cache.GetDbTwice` | script.js:136-139 | after a successful getDb, a second getDb for the same name issues no request and returns the same database, whatever the server would now answer |

## Left out

- fetch with credentials is the `server` parameter. A failure while reading the body with `response.text()` is not modelled, because the body is part of the transport value.
- JSON.parse is the `parse` parameter. A top-level JSON value that is not an object is read through the `error` and `response` members it lacks, so `parse` must map it to `Body(None, Falsy)`.
- An envelope `error` member that is not a string (a number, an object) is not represented. Only its truthiness matters to the script, and the model has a string of the same truthiness for it.
- Console logging and debug output are side effects only and are left out.
- `Envelope.Body` keeps only the `error` and `response` members. The script stores the whole parsed envelope, including the `debug` member that the always-sent `&debug` asks the proxy for. That member is carried as data in the script, but it is not in the model.
- `Date.now()` is the parameter `now`.
- The collation inside `localeCompare` is the parameter `collate`. Title fields are strings only, so the `toString()` of a non-string title value is not modelled.
- `Array.prototype.sort` leaves its algorithm to the host. It is modelled by a stable insertion sort. With an inconsistent comparator, the host's order may differ from the model's.
- `null` array elements are not represented: `Record` has no case for them. In the script a `null` element is of type "object". arrSort throws a TypeError on it only when it is the first argument and the other is of type "object" too, or when it is the second argument against an object with a truthy title key. Otherwise the fallback compares it as the string "null", and an array holding a single `null` is never compared at all. Payloads with `null` elements on which no comparison throws are sorted successfully by the script, and are outside the model.
- A record, or an element of a nested array, with a `toString` member of its own is not represented. JSON cannot make that member a function, so in the script the fallback's default sort finds no callable `toString` and throws a TypeError, and processResponse rejects. The model compares such an object as `[object Object]`.
- Nested arrays are `List` records that carry their string form as given. The model does not compute that string from the array's elements.
- Numbers and booleans in the payload are `Primitive` records, represented by their string form. `===` between a number and the string of the same digits is therefore not distinguished.
- A string with a lone surrogate, on which encodeURIComponent throws, is not a Dafny `string` value.
- `dbs` entries inherited from `Object.prototype` are not modelled. In the script, `getDb("toString")` finds an inherited function. The model's map holds only stored databases, and the initial `null` entries read as absent.
- loadShows, loadMovies, loadDownloads and getMovieCalendar are not part of this model. They are DOM rendering, placeholders that only throw, and a network call with console output.
- The unused `processes` dictionary is not part of this model.
- Concurrency is not modelled: there is no single-flight guard to model. Calls are sequential.
