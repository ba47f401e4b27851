/** Requests and responses as the parsers build them and the printers read them. */
module Messages {
  import opened Bytes
  import opened Headers

  datatype Method = Get | Head | Post | Put | Delete | Options | Unknown

  datatype Request = Request(
    verb: Method, target: string, minorVersion: nat, headers: seq<Header>, body: string)

  datatype Response = Response(
    status: int, reason: string, headers: seq<Header>, body: string,
    closeConnection: bool, alreadyWritten: bool)

  const EMPTY_REQUEST := Request(Unknown, "", 1, [], "")
  const EMPTY_RESPONSE := Response(200, "OK", [], "", false, false)

  function MethodName(m: Method): (s: string)
    ensures ValidName(s)
    ensures ParseMethod(s) == m
  {
    match m
    case Get => "GET"
    case Head => "HEAD"
    case Post => "POST"
    case Put => "PUT"
    case Delete => "DELETE"
    case Options => "OPTIONS"
    case Unknown => "UNKNOWN"
  }

  function ParseMethod(s: string): Method {
    if s == "GET" then Get
    else if s == "HEAD" then Head
    else if s == "POST" then Post
    else if s == "PUT" then Put
    else if s == "DELETE" then Delete
    else if s == "OPTIONS" then Options
    else Unknown
  }

  /** 1xx, 204 and 304 responses have no body. */
  predicate NoBodyStatus(status: int) {
    100 <= status <= 199 || status == 204 || status == 304
  }
}
