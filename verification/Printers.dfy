/** The printers of the gateway: complete responses, the head and the chunks of a
    streamed response, and the request sent upstream. */
module Printers {
  import opened Bytes
  import opened Headers
  import opened Messages

  // ------------------------------------------------------------- header blocks

  function HeaderLine(h: Header): string { h.name + ": " + h.value }

  function PrintHeaders(hs: seq<Header>): string {
    if hs == [] then [] else HeaderLine(hs[0]) + CRLF + PrintHeaders(hs[1..])
  }

  lemma {:induction false} PrintHeadersAppend(xs: seq<Header>, ys: seq<Header>)
    ensures PrintHeaders(xs + ys) == PrintHeaders(xs) + PrintHeaders(ys)
  {
    if xs == [] {
      assert xs + ys == ys;
      Concat(PrintHeaders(ys), [], []);
    } else {
      assert (xs + ys)[1..] == xs[1..] + ys;
      PrintHeadersAppend(xs[1..], ys);
      Concat(HeaderLine(xs[0]) + CRLF, PrintHeaders(xs[1..]), PrintHeaders(ys));
    }
  }

  /** A header that survives printing and parsing; its name may have capitals. */
  predicate Printable(h: Header) {
    ValidName(h.name) && ValidValue(h.value) && Trimmed(h.value)
  }

  predicate AllPrintable(hs: seq<Header>) { forall i | 0 <= i < |hs| :: Printable(hs[i]) }

  /** The header as a parser stores it. */
  function Normal(h: Header): Header { Header(Lower(h.name), h.value) }

  function Normals(hs: seq<Header>): (r: seq<Header>)
    ensures |r| == |hs|
    ensures AllPrintable(hs) ==> AllClean(r)
  {
    if hs == [] then [] else
    NormalIsClean(hs[0]);
    var rest := Normals(hs[1..]);
    assert AllPrintable(hs) ==> AllPrintable(hs[1..]);
    [Normal(hs[0])] + rest
  }

  lemma NormalIsClean(h: Header)
    ensures Printable(h) ==> Clean(Normal(h))
  {
    LowerIdentity(h.name);
    assert ValidName(h.name) ==> ValidName(Lower(h.name));
  }

  lemma {:induction false} NormalsOfClean(hs: seq<Header>)
    requires AllClean(hs)
    ensures Normals(hs) == hs && AllPrintable(hs)
  {
    if hs != [] {
      NormalsOfClean(hs[1..]);
      LowerIdentity(hs[0].name);
      assert hs == [hs[0]] + hs[1..];
    }
  }

  lemma {:induction false} NormalsAppend(xs: seq<Header>, ys: seq<Header>)
    ensures Normals(xs + ys) == Normals(xs) + Normals(ys)
  {
    if xs == [] {
      assert xs + ys == ys;
    } else {
      assert (xs + ys)[1..] == xs[1..] + ys;
      NormalsAppend(xs[1..], ys);
      assert [Normal(xs[0])] + (Normals(xs[1..]) + Normals(ys)) == Normals(xs) + Normals(ys);
    }
  }

  lemma NameHasNoColon(name: string)
    requires ValidName(name)
    ensures forall i | 0 <= i < |name| :: name[i] != ':' && name[i] != '\r'
  {
    forall i | 0 <= i < |name| ensures name[i] != ':' && name[i] != '\r' {
      assert IsTokenChar(name[i]);
    }
  }

  lemma SplitAtColon(name: string, value: string, line: string)
    requires forall i | 0 <= i < |name| :: name[i] != ':'
    requires line == name + ": " + value
    ensures Find(line, ':') == |name|
    ensures line[..|name|] == name && line[|name| + 1..] == " " + value
  {
    FindIs(line, ':', |name|);
  }

  lemma ParsePieces(line: string, name: string, padded: string, value: string)
    requires Find(line, ':') == |name| < |line|
    requires line[..|name|] == name && line[|name| + 1..] == padded && Trim(padded) == value
    requires ValidName(name) && ValidValue(value)
    ensures ParseHeaderLine(line) == Some(Header(Lower(name), value))
  {
    hide Find; hide Trim; hide Lower; hide ValidName; hide ValidValue;
  }

  lemma NoCr(h: Header)
    requires Printable(h)
    ensures '\r' !in HeaderLine(h)
  {
    NameHasNoColon(h.name);
    assert '\r' !in h.name && '\r' !in ": " && '\r' !in h.value;
  }

  /** A printed header line parses back to the normal form of the header. */
  lemma HeaderLineRoundTrip(h: Header)
    requires Printable(h)
    ensures ParseHeaderLine(HeaderLine(h)) == Some(Normal(h))
  {
    hide Find; hide Trim; hide Lower; hide ValidName; hide ValidValue; hide ParseHeaderLine;
    hide Trimmed; hide IsLower;
    var line, name, padded := HeaderLine(h), h.name, " " + h.value;
    assert Find(line, ':') == |name| < |line| && line[..|name|] == name && line[|name| + 1..] == padded by {
      NameHasNoColon(name);
      SplitAtColon(name, h.value, line);
    }
    assert Trim(padded) == h.value by { TrimUndoesPadding(h.value); }
    ParsePieces(line, name, padded, h.value);
  }

  // ------------------------------------------------------------------ filtering

  /** Names every printer writes itself. */
  function Keep(hs: seq<Header>, dropped: set<string>): (r: seq<Header>)
    ensures forall i | 0 <= i < |r| :: r[i].name !in dropped && r[i] in hs
  {
    if hs == [] then []
    else if hs[0].name in dropped then Keep(hs[1..], dropped)
    else [hs[0]] + Keep(hs[1..], dropped)
  }

  lemma {:induction false} KeepAll(hs: seq<Header>, dropped: set<string>)
    requires forall i | 0 <= i < |hs| :: hs[i].name !in dropped
    ensures Keep(hs, dropped) == hs
  {
    if hs != [] {
      KeepAll(hs[1..], dropped);
      assert hs == [hs[0]] + hs[1..];
    }
  }

  lemma KeepClean(hs: seq<Header>, dropped: set<string>)
    requires AllClean(hs)
    ensures AllClean(Keep(hs, dropped))
  {
    var kept := Keep(hs, dropped);
    forall i | 0 <= i < |kept| ensures Clean(kept[i]) {
      assert kept[i] in hs;
    }
  }

  /** `std::to_string` of a status code. */
  function Decimal(n: int): string {
    if n < 0 then "-" + Digits(10, -n) else Digits(10, n)
  }

  function StatusLineText(status: int, reason: string): string {
    "HTTP/1.1 " + Decimal(status) + " " + reason
  }

  // ----------------------------------------------------------- whole responses

  const RESPONSE_OWN := {"content-length", "connection"}

  function ResponseTail(r: Response): seq<Header> {
    [Header("Content-Length", Digits(10, |r.body|)),
     Header("Connection", if r.closeConnection then "close" else "keep-alive")]
  }

  /** The headers `serialize` writes, in order. */
  function PrintedHeaders(r: Response): seq<Header> {
    Keep(r.headers, RESPONSE_OWN) + ResponseTail(r)
  }

  function ResponseHead(r: Response): string {
    StatusLineText(r.status, r.reason) + CRLF + PrintHeaders(PrintedHeaders(r)) + CRLF
  }

  predicate HeadersPrint(hs: seq<Header>) {
    forall i | 0 <= i < |hs| :: ValidName(hs[i].name) && ValidValue(hs[i].value)
  }

  /** `HttpResponse::serialize`; None stands for the exception it throws. */
  function Serialize(r: Response, headRequest: bool): (bytes: Option<string>) {
    if r.status < 100 || r.status > 999 || r.reason == [] || !ValidValue(r.reason) then None
    else if !HeadersPrint(Keep(r.headers, RESPONSE_OWN)) then None
    else Some(ResponseHead(r) + if headRequest then [] else r.body)
  }

  // ------------------------------------------------------------- hop by hop

  const HOP_BY_HOP := {
    "connection", "keep-alive", "proxy-authenticate", "proxy-authorization",
    "te", "trailer", "transfer-encoding", "upgrade"}

  /** Names the gateway rebuilds on the way. */
  const REBUILT := {
    "host", "content-length", "x-forwarded-for", "x-forwarded-proto", "x-request-id"}

  predicate Nominated(connections: seq<string>, name: string) {
    exists i | 0 <= i < |connections| :: ContainsToken(connections[i], name)
  }

  predicate HopByHop(name: string, connections: seq<string>) {
    name in HOP_BY_HOP || Nominated(connections, name) || name in REBUILT
  }

  /** The headers not hop by hop for the given Connection values, in order. */
  function Passing(hs: seq<Header>, connections: seq<string>): (r: seq<Header>)
    ensures forall i | 0 <= i < |r| :: !HopByHop(r[i].name, connections) && r[i] in hs
  {
    if hs == [] then []
    else if HopByHop(hs[0].name, connections) then Passing(hs[1..], connections)
    else [hs[0]] + Passing(hs[1..], connections)
  }

  /** The end-to-end headers of a message. */
  function EndToEnd(hs: seq<Header>): (r: seq<Header>)
    ensures forall i | 0 <= i < |r| :: r[i].name !in HOP_BY_HOP && r[i].name !in REBUILT
    ensures AllClean(hs) ==> AllClean(r)
  {
    Passing(hs, Values(hs, "connection"))
  }

  lemma {:induction false} PassingAll(hs: seq<Header>, connections: seq<string>)
    requires forall i | 0 <= i < |hs| :: !HopByHop(hs[i].name, connections)
    ensures Passing(hs, connections) == hs
  {
    if hs != [] {
      PassingAll(hs[1..], connections);
      assert hs == [hs[0]] + hs[1..];
    }
  }

  lemma {:induction false} PassingNone(hs: seq<Header>, connections: seq<string>)
    requires forall i | 0 <= i < |hs| :: HopByHop(hs[i].name, connections)
    ensures Passing(hs, connections) == []
  {
    if hs != [] { PassingNone(hs[1..], connections); }
  }

  lemma {:induction false} PassingAppend(
      xs: seq<Header>, ys: seq<Header>, connections: seq<string>)
    ensures Passing(xs + ys, connections) == Passing(xs, connections) + Passing(ys, connections)
  {
    if xs == [] {
      assert xs + ys == ys;
    } else {
      assert (xs + ys)[1..] == xs[1..] + ys;
      PassingAppend(xs[1..], ys, connections);
    }
  }

  // --------------------------------------------------------- streamed responses

  function StreamingTail(requestId: string): seq<Header> {
    [Header("X-Request-Id", requestId), Header("Transfer-Encoding", "chunked"),
     Header("Connection", "keep-alive")]
  }

  /** The headers of a streamed head. `sanitizeUpstreamResponse` has already taken
      out everything hop by hop, and with it the three names skipped here. */
  function StreamedHeaders(hs: seq<Header>, requestId: string): seq<Header> {
    Keep(EndToEnd(hs), {"content-length", "connection", "transfer-encoding"})
      + StreamingTail(requestId)
  }

  /** `serializeStreamingHead` of the sanitized response. */
  function StreamingHead(r: Response, requestId: string): string {
    StatusLineText(r.status, r.reason) + CRLF
      + PrintHeaders(StreamedHeaders(r.headers, requestId)) + CRLF
  }

  function ChunkFrame(data: string): string {
    Digits(16, |data|) + CRLF + (data + CRLF)
  }

  function ChunkFrames(parts: seq<string>): string {
    if parts == [] then [] else ChunkFrame(parts[0]) + ChunkFrames(parts[1..])
  }

  lemma {:induction false} ChunkFramesAppend(parts: seq<string>, data: string)
    ensures ChunkFrames(parts + [data]) == ChunkFrames(parts) + ChunkFrame(data)
  {
    if parts == [] {
      assert parts + [data] == [data] && [data][1..] == [];
      Concat(ChunkFrame(data), [], []);
    } else {
      assert (parts + [data])[1..] == parts[1..] + [data];
      ChunkFramesAppend(parts[1..], data);
      Concat(ChunkFrame(parts[0]), ChunkFrames(parts[1..]), ChunkFrame(data));
    }
  }

  const TERMINATOR: string := "0\r\n\r\n"

  // ---------------------------------------------------------- upstream requests

  /** What the gateway adds: the upstream's authority, the client's address and
      the id of the request. */
  datatype Forwarding = Forwarding(host: string, service: string, peer: string, requestId: string)
  {
    function Authority(): string {
      if Find(host, ':') == |host| then host + ":" + service else "[" + host + "]:" + service
    }

    predicate Printable() {
      && ValidValue(Authority()) && Trimmed(Authority())
      && ValidValue(peer) && Trimmed(peer)
      && ValidValue(requestId) && Trimmed(requestId)
    }
  }

  /** The six headers rebuilt for the upstream. */
  function RebuiltHeaders(r: Request, f: Forwarding): seq<Header> {
    [Header("Host", f.Authority()), Header("X-Forwarded-For", f.peer),
     Header("X-Forwarded-Proto", "http"), Header("X-Request-Id", f.requestId),
     Header("Content-Length", Digits(10, |r.body|)), Header("Connection", "keep-alive")]
  }

  function RequestLineText(r: Request): string {
    MethodName(r.verb) + " " + (if r.target == [] then "/" else r.target) + " HTTP/1.1"
  }

  function ForwardedHeaders(r: Request, f: Forwarding): seq<Header> {
    EndToEnd(r.headers) + RebuiltHeaders(r, f)
  }

  /** `serializeUpstreamRequest`. */
  function UpstreamRequest(r: Request, f: Forwarding): string {
    RequestLineText(r) + CRLF + PrintHeaders(ForwardedHeaders(r, f)) + CRLF + r.body
  }

  // ---------------------------------------------------------- names and values

  lemma LowerNames()
    ensures Lower("content-length") == "content-length"
    ensures Lower("transfer-encoding") == "transfer-encoding"
    ensures Lower("connection") == "connection"
    ensures Lower("host") == "host"
  {}

  lemma LowerCapitals()
    ensures Lower("Content-Length") == "content-length"
    ensures Lower("Transfer-Encoding") == "transfer-encoding"
    ensures Lower("Connection") == "connection"
    ensures Lower("X-Request-Id") == "x-request-id"
  {}

  lemma LowerForwarding()
    ensures Lower("Host") == "host"
    ensures Lower("X-Forwarded-For") == "x-forwarded-for"
    ensures Lower("X-Forwarded-Proto") == "x-forwarded-proto"
  {}

  lemma NamesAreValid()
    ensures ValidName("Content-Length") && ValidName("Transfer-Encoding")
    ensures ValidName("Connection") && ValidName("X-Request-Id")
    ensures ValidName("Host") && ValidName("X-Forwarded-For") && ValidName("X-Forwarded-Proto")
  {}

  lemma ValuesAreValid(n: nat)
    ensures ValidValue("close") && Trimmed("close")
    ensures ValidValue("keep-alive") && Trimmed("keep-alive")
    ensures ValidValue("chunked") && Trimmed("chunked")
    ensures ValidValue("http") && Trimmed("http")
    ensures ValidValue(Digits(10, n)) && Trimmed(Digits(10, n))
  {
    var digits := Digits(10, n);
    forall i | 0 <= i < |digits|
      ensures digits[i] != '\r' && digits[i] != '\n' && digits[i] != '\0' && !IsBlank(digits[i])
    {
      assert digits[i] in digits;
    }
  }

  lemma ChunkedIsAToken()
    ensures ContainsToken("chunked", "chunked")
  {
    SingleToken("chunked", "chunked");
  }

  lemma NoValues(hs: seq<Header>, name: string)
    requires forall i | 0 <= i < |hs| :: hs[i].name != Lower(name)
    ensures Values(hs, name) == []
  {}

  // --------------------------------------------------------------- the loops

  /** The header loop of `HttpResponse::serialize`: append every header that is
      not written separately, and stop at the first invalid one. */
  method AppendHeaders(head: string, hs: seq<Header>) returns (valid: bool, text: string)
    ensures valid <==> HeadersPrint(Keep(hs, RESPONSE_OWN))
    ensures valid ==> text == head + PrintHeaders(Keep(hs, RESPONSE_OWN))
  {
    text := head;
    var rest := hs;
    ghost var done: seq<Header> := [];
    Concat(head, [], []);
    while rest != []
      invariant Keep(hs, RESPONSE_OWN) == done + Keep(rest, RESPONSE_OWN)
      invariant HeadersPrint(done)
      invariant text == head + PrintHeaders(done)
      decreases |rest|
    {
      var h := rest[0];
      if h.name != "content-length" && h.name != "connection" {
        if !ValidName(h.name) || !ValidValue(h.value) {
          KeepNext(done, rest);
          assert (done + [h] + Keep(rest[1..], RESPONSE_OWN))[|done|] == h;
          return false, text;
        }
        PrintOneMore(done, h);
        Concat(head, PrintHeaders(done), HeaderLine(h) + CRLF);
        text := text + (h.name + ": " + h.value + CRLF);
        KeepNext(done, rest);
        done := done + [h];
      }
      rest := rest[1..];
    }
    assert done + [] == done;
    valid := true;
  }

  lemma KeepNext(done: seq<Header>, rest: seq<Header>)
    requires rest != [] && rest[0].name !in RESPONSE_OWN
    ensures done + Keep(rest, RESPONSE_OWN) == done + [rest[0]] + Keep(rest[1..], RESPONSE_OWN)
  {}

  /** `HttpResponse::serialize` as it is written, appending to a local string. */
  method SerializeResponse(r: Response, headRequest: bool) returns (bytes: Option<string>)
    ensures bytes == Serialize(r, headRequest)
  {
    if r.status < 100 || r.status > 999 || r.reason == [] || !ValidValue(r.reason) { return None; }
    var head := StatusLineText(r.status, r.reason) + CRLF;
    var valid, text := AppendHeaders(head, r.headers);
    if !valid { return None; }
    SerializedParts(r, head, Keep(r.headers, RESPONSE_OWN));
    text := text + PrintHeaders(ResponseTail(r)) + CRLF;
    return Some(text + if headRequest then [] else r.body);
  }

  lemma SerializedParts(r: Response, head: string, done: seq<Header>)
    requires head == StatusLineText(r.status, r.reason) + CRLF
    requires done == Keep(r.headers, RESPONSE_OWN)
    ensures ResponseHead(r) == head + PrintHeaders(done) + PrintHeaders(ResponseTail(r)) + CRLF
  {
    PrintHeadersAppend(done, ResponseTail(r));
    Concat(head, PrintHeaders(done), PrintHeaders(ResponseTail(r)));
  }

  lemma PrintOneMore(hs: seq<Header>, h: Header)
    ensures PrintHeaders(hs + [h]) == PrintHeaders(hs) + (HeaderLine(h) + CRLF)
  {
    PrintHeadersAppend(hs, [h]);
    assert [h][1..] == [];
    Concat(HeaderLine(h) + CRLF, [], []);
  }
}
