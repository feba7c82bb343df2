/** The errors the request/validate/cache pipeline of script.js throws, one constructor per
    `throw` site. */
module Errors {

  datatype Error =
    // requestData: a falsy appName or apiPath
    | MissingArguments
    // processResponse: transport status not ok
    | DownloadFailed
    // processResponse: JSON.parse threw
    | Unparsable
    // processResponse: the body parsed to `null`, so reading `json.error` throws a TypeError
    | NullEnvelope
    // processResponse: the envelope's `error` field is truthy
    | RemoteFailed
    // processResponse: no error, but the envelope's `response` field is falsy
    | NoResponse
    // processResponse: the `response` field is truthy but not an array, so it has no `sort`
    | NotSortable
    // requestData: the host's fetch rejected (no transport response at all)
    | FetchRejected
    // loadDb: "downloads" is a known name that has no loader yet
    | NotImplemented
    // loadDb: a name the switch does not know
    | NoDatabase(name: string)

  /** The message of the Error object the script throws. NullEnvelope, NotSortable and
      FetchRejected are raised by the host (a TypeError each); their messages here are the wording
      of the V8 engine (Chrome), and other engines word them differently. */
  function Message(e: Error): string
  {
    match e
    case MissingArguments => "request requires appName and apiPath"
    case DownloadFailed => "Error downloading"
    case Unparsable => "Unable to parse JSON.\tSee console for more info."
    case NullEnvelope => "Cannot read properties of null (reading 'error')"
    case RemoteFailed => "Error from request. See console for more info."
    case NoResponse => "Invalid response from; see console for more info."
    case NotSortable => "json.response.sort is not a function"
    case FetchRejected => "Failed to fetch"
    case NotImplemented => "Not yet implemented."
    case NoDatabase(name) => "No database '" + name + "' to load."
  }
}
