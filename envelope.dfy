/** processResponse (script.js:61-99): checks the transport status and the proxy's envelope
    `{ response, error, debug }` in a fixed order, sorts the payload with arrSort and wraps it.
    Reading the body and JSON.parse belong to the host: the body is part of the transport value and
    parsing is a parameter, `parse`; the clock read Date.now() is the parameter `now`. */
module Envelope {
  import opened Wrappers
  import opened Errors
  import opened RecordOrder
  import opened Sorting

  /** The transport response: its `ok` status and the text of its body. */
  datatype Response = Response(ok: bool, text: string)

  /** The envelope's `response` member: falsy (absent, null, false, 0 or ""), an array of
      records, or any other truthy value. */
  datatype Payload = Falsy | Array(records: seq<Record>) | OtherTruthy

  /** A decoded envelope. `error` is the envelope's `error` member when it is a string, None when
      it is absent. */
  datatype Body = Body(error: Option<string>, response: Payload)

  /** What JSON.parse makes of the body text: it throws, it yields `null`, or it yields a value
      whose `error` and `response` members are read (a non-object value reads as Body(None, Falsy)). */
  datatype Parsed = NotJson | JsonNull | Json(body: Body)

  /** What processResponse resolves with: the envelope with its payload sorted, the transport
      response, and the time of processing. */
  datatype Db = Db(json: Body, response: Response, time: int)

  /** The outcome of processResponse, as a specification: the checks in the source's order, then
      the payload sorted by arrSort. */
  function Processed(response: Response, parse: string -> Parsed, collate: (string, string) -> int,
                     now: int): Result<Db, Error>
  {
    if !response.ok then Failure(DownloadFailed)
    else match parse(response.text)
      case NotJson => Failure(Unparsable)
      case JsonNull => Failure(NullEnvelope)
      case Json(body) =>
        if Truthy(body.error) then Failure(RemoteFailed)
        else match body.response
          case Falsy => Failure(NoResponse)
          case OtherTruthy => Failure(NotSortable)
          case Array(records) =>
            Success(Db(Body(body.error, Array(InsertionSort(records, Comparator(collate)))), response, now))
  }

  /** processResponse: the same checks, and the payload sorted in place in an array. */
  method ProcessResponse(response: Response, parse: string -> Parsed, collate: (string, string) -> int,
                         now: int) returns (r: Result<Db, Error>)
    ensures r == Processed(response, parse, collate, now)
  {
    if !response.ok {
      return Failure(DownloadFailed);
    }
    var parsed := parse(response.text);
    if parsed.NotJson? {
      return Failure(Unparsable);
    }
    if parsed.JsonNull? {
      return Failure(NullEnvelope);
    }
    var json := parsed.body;
    if Truthy(json.error) {
      return Failure(RemoteFailed);
    }
    match json.response
    case Falsy =>
      return Failure(NoResponse);
    case OtherTruthy =>
      return Failure(NotSortable);
    case Array(records) =>
      var a := new Record[|records|](i requires 0 <= i < |records| => records[i]);
      assert a[..] == records;
      SortInPlace(a, Comparator(collate));
      r := Success(Db(Body(json.error, Array(a[..])), response, now));
  }

  /** The failure cases, each exactly when every earlier check passed and its own failed: a non-ok
      status; then a body that does not parse; then a `null` envelope; then a truthy `error`, whatever
      the `response`; then a falsy `response`; then a `response` that is not an array. */
  lemma ProcessedFailures(response: Response, parse: string -> Parsed, collate: (string, string) -> int,
                          now: int)
    ensures var r := Processed(response, parse, collate, now);
      var p := parse(response.text);
      && (r == Failure(DownloadFailed) <==> !response.ok)
      && (r == Failure(Unparsable) <==> response.ok && p.NotJson?)
      && (r == Failure(NullEnvelope) <==> response.ok && p.JsonNull?)
      && (r == Failure(RemoteFailed) <==> response.ok && p.Json? && Truthy(p.body.error))
      && (r == Failure(NoResponse) <==> response.ok && p.Json? && !Truthy(p.body.error) && p.body.response.Falsy?)
      && (r == Failure(NotSortable) <==> response.ok && p.Json? && !Truthy(p.body.error) && p.body.response.OtherTruthy?)
      && (r.Success? <==> response.ok && p.Json? && !Truthy(p.body.error) && p.body.response.Array?)
  {
  }

  /** On success the payload is a permutation of the decoded array, the envelope's other member is
      kept, and the result carries the original transport response and the given time. */
  lemma {:induction false} ProcessedSuccess(response: Response, parse: string -> Parsed,
                                            collate: (string, string) -> int, now: int)
    requires Processed(response, parse, collate, now).Success?
    ensures var db := Processed(response, parse, collate, now).value;
      var body := parse(response.text).body;
      && db.response == response
      && db.time == now
      && db.json.error == body.error
      && db.json.response.Array?
      && multiset(db.json.response.records) == multiset(body.response.records)
  {
    SortPermutation(parse(response.text).body.response.records, Comparator(collate));
  }

  /** On success the payload is ordered by arrSort whenever arrSort is consistent on its records. */
  lemma {:induction false} ProcessedSorted(response: Response, parse: string -> Parsed,
                                           collate: (string, string) -> int, now: int)
    requires Processed(response, parse, collate, now).Success?
    requires Consistent(Comparator(collate), parse(response.text).body.response.records)
    ensures var records := Processed(response, parse, collate, now).value.json.response.records;
      forall i, j :: 0 <= i < j < |records| ==> ArrSort(records[i], records[j], collate) <= 0
  {
    var records := parse(response.text).body.response.records;
    SortSorted(records, Comparator(collate), records);
  }

  /** When every decoded record has a sortTitle and the collation is a total preorder, the stored
      payload is a permutation of the decoded one in sortTitle order. */
  lemma SortedBySortTitle(response: Response, parse: string -> Parsed,
                          collate: (string, string) -> int, now: int)
    requires Processed(response, parse, collate, now).Success?
    requires TotalPreorder(collate)
    requires forall r :: r in parse(response.text).body.response.records ==> HasSortTitle(r)
    ensures var records := Processed(response, parse, collate, now).value.json.response.records;
      multiset(records) == multiset(parse(response.text).body.response.records)
      && InSortTitleOrder(records, collate)
  {
    var decoded := parse(response.text).body.response.records;
    assert Processed(response, parse, collate, now).value.json.response.records
        == InsertionSort(decoded, Comparator(collate)) by {
      assert response.ok && parse(response.text).Json?;
    }
    SortBySortTitle(decoded, collate);
  }
}
