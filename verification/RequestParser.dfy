/** The incremental request parser, as a function of its fields and the unread
    bytes. `Step` is one pass through the loop of `parse`, `Run` the whole call;
    the class in RequestParserObject.dfy performs it in place. */
module RequestParser {
  import opened Bytes
  import opened Headers
  import opened Messages

  datatype Limits = Limits(
    maxRequestLine: nat, maxHeaderBytes: nat, maxHeaderCount: nat, maxHeaderLine: nat,
    maxBody: nat)
  {
    /** What the constructor of the parser accepts. */
    predicate Valid() {
      && 0 < maxRequestLine <= 16 * 1024
      && 0 < maxHeaderBytes <= 64 * 1024
      && 0 < maxHeaderCount <= 256
      && 0 < maxHeaderLine
      && 0 < maxBody <= 16 * 1024 * 1024
    }
  }

  datatype State = RequestLine | Headers | Body | Complete | Error

  datatype Code = BadRequest | HeaderTooLarge | BodyTooLarge | UnsupportedTransferEncoding

  datatype Parser = Parser(
    state: State, request: Request, expectedBody: nat, headerBytes: nat, headerCount: nat,
    error: Code)
  {
    predicate Active() { state != Complete && state != Error }
  }

  /** The parser after construction, and after `reset`. */
  const INITIAL := Parser(RequestLine, EMPTY_REQUEST, 0, 0, 0, BadRequest)

  predicate ValidTarget(t: string) {
    t != [] && forall i | 0 <= i < |t| :: t[i] > ' ' && t[i] != 127 as char
  }

  /** Invariant of the fields between two calls. */
  predicate Inv(lim: Limits, p: Parser) {
    && AllClean(p.request.headers)
    && p.request.minorVersion <= 1
    && (p.state == Headers || p.state == Body || p.state == Complete ==>
          ValidTarget(p.request.target))
    && (p.state == Headers ==> p.headerBytes <= lim.maxHeaderBytes)
    && (p.state == Body ==> 0 < p.expectedBody <= lim.maxBody)
    && |p.request.body| <= lim.maxBody
    && (p.state != Complete ==> p.request.body == [])
  }

  // --------------------------------------------------------------- single lines

  /** Method, target and version, separated by exactly two spaces. */
  function ParseRequestLine(line: string): (r: Option<(Method, string, nat)>)
    ensures r.Some? ==> ValidTarget(r.value.1) && r.value.2 <= 1
  {
    var first := Find(line, ' ');
    if first == |line| then None else
    var tail := line[first + 1..];
    var second := Find(tail, ' ');
    if second == |tail| || ' ' in tail[second + 1..] then None else
    var verb, target, version := line[..first], tail[..second], tail[second + 1..];
    if !ValidName(verb) || !ValidTarget(target) then None
    else if version == "HTTP/1.1" then Some((ParseMethod(verb), target, 1))
    else if version == "HTTP/1.0" then Some((ParseMethod(verb), target, 0))
    else None
  }

  // ---------------------------------------------------------------- transitions

  datatype Next = Go(p: Parser) | Fail(p: Parser, code: Code)

  function Failing(p: Parser, code: Code): Next {
    Fail(p.(state := Error, error := code), code)
  }

  /** The blank line after the headers decides how many body bytes follow. */
  function FinishHeaders(lim: Limits, p: Parser): (n: Next)
    requires Inv(lim, p) && p.state == Headers
    ensures n.Go? ==> Inv(lim, n.p) && (n.p.state == Body || n.p.state == Complete)
    ensures n.Fail? ==> n.p.state == Error && n.p.error == n.code
  {
    if p.request.minorVersion == 1 && !Contains(p.request.headers, "host") then
      Failing(p, BadRequest)
    else if Contains(p.request.headers, "transfer-encoding") then
      Failing(p, UnsupportedTransferEncoding)
    else
      var lengths := Values(p.request.headers, "content-length");
      if lengths == [] then Go(p.(expectedBody := 0, state := Complete))
      else if |lengths| != 1 then Failing(p, BadRequest)
      else
        var length := ParseSize(10, lengths[0]);
        if length.None? then Failing(p, BadRequest)
        else if length.value > lim.maxBody then Failing(p, BodyTooLarge)
        else Go(p.(expectedBody := length.value,
                   state := if length.value == 0 then Complete else Body))
  }

  /** `parseHeader`, given what the line parses to. */
  function AddHeader(lim: Limits, p: Parser, header: Option<Header>): (n: Next)
    requires Inv(lim, p) && p.state == Headers
    requires header.Some? ==> Clean(header.value)
    ensures n.Go? ==> Inv(lim, n.p) && n.p.state == Headers
    ensures n.Fail? ==> n.p.state == Error && n.p.error == n.code
  {
    var q := p.(headerCount := p.headerCount + 1);
    if q.headerCount > lim.maxHeaderCount then Failing(q, HeaderTooLarge)
    else if header.None? then Failing(q, BadRequest)
    else
      CleanAppend(q.request.headers, header.value);
      Go(q.(request := q.request.(headers := q.request.headers + [header.value])))
  }

  predicate LineState(s: State) { s == RequestLine || s == Headers }

  /** What one complete line does before the body. */
  function OnLine(lim: Limits, p: Parser, line: string): (n: Next)
    requires Inv(lim, p) && LineState(p.state)
    ensures n.Go? ==> Inv(lim, n.p) && n.p.state != Error
    ensures n.Fail? ==> n.p.state == Error && n.p.error == n.code
  {
    if p.state == RequestLine then
      if |line| > lim.maxRequestLine || |line| + 2 > lim.maxHeaderBytes then
        Failing(p, HeaderTooLarge)
      else
        var parsed := ParseRequestLine(line);
        if parsed.None? then Failing(p, BadRequest) else
        var (verb, target, minor) := parsed.value;
        Go(p.(request := p.request.(verb := verb, target := target, minorVersion := minor),
              state := Headers, headerBytes := |line| + 2))
    else if |line| > lim.maxHeaderLine || p.headerBytes + |line| + 2 > lim.maxHeaderBytes then
      Failing(p, HeaderTooLarge)
    else
      var q := p.(headerBytes := p.headerBytes + |line| + 2);
      if line == [] then FinishHeaders(lim, q) else AddHeader(lim, q, ParseHeaderLine(line))
  }

  /** How one call of `parse` ends. `rest` is what stays unread. */
  datatype Outcome =
    | More(p: Parser, rest: string)
    | Done(p: Parser, rest: string)
    | Failed(p: Parser, code: Code)

  datatype Pass = Continue(p: Parser, rest: string) | Stop(o: Outcome)

  function AfterLine(n: Next, rest: string): Pass {
    if n.Fail? then Stop(Failed(n.p, n.code))
    else if n.p.state == Complete then Stop(Done(n.p, rest))
    else Continue(n.p, rest)
  }

  predicate PendingTooLarge(lim: Limits, p: Parser, pending: nat) {
    || (p.state == RequestLine && pending > lim.maxRequestLine)
    || (p.state == Headers && p.headerBytes + pending > lim.maxHeaderBytes)
  }

  /** The unread bytes of an unfinished message stay under the limit of the part
      that is being read. */
  predicate Bounded(lim: Limits, p: Parser, pending: nat) {
    match p.state
    case RequestLine => pending <= lim.maxRequestLine
    case Headers => p.headerBytes + pending <= lim.maxHeaderBytes
    case _ => pending < p.expectedBody <= lim.maxBody
  }

  /** A pass in a state that reads lines. */
  function StepLine(lim: Limits, p: Parser, buf: string): (r: Pass)
    requires Inv(lim, p) && LineState(p.state)
    ensures r.Continue? ==> Inv(lim, r.p) && r.p.Active()
    ensures r.Continue? ==> |r.rest| < |buf| && r.rest == buf[|buf| - |r.rest|..]
    ensures r.Stop? && r.o.More? ==> r.o == More(p, buf) && Bounded(lim, p, |buf|)
    ensures r.Stop? && r.o.Done? ==>
              Inv(lim, r.o.p) && r.o.p.state == Complete && |r.o.rest| < |buf|
  {
    var i := FindCrlf(buf);
    if i == |buf| then
      if PendingTooLarge(lim, p, |buf|) then AfterLine(Failing(p, HeaderTooLarge), buf)
      else Stop(More(p, buf))
    else
      assert CrlfAt(buf, i);
      AfterLine(OnLine(lim, p, buf[..i]), buf[i + 2..])
  }

  /** One pass through the loop of `parse`. */
  function Step(lim: Limits, p: Parser, buf: string): (r: Pass)
    requires Inv(lim, p) && p.Active()
    ensures r.Continue? ==> Inv(lim, r.p) && r.p.Active()
    ensures r.Continue? ==> |r.rest| < |buf| && r.rest == buf[|buf| - |r.rest|..]
    ensures r.Stop? && r.o.More? ==> r.o == More(p, buf) && Bounded(lim, p, |buf|)
    ensures r.Stop? && r.o.Done? ==>
              Inv(lim, r.o.p) && r.o.p.state == Complete && |r.o.rest| < |buf|
  {
    if p.state == Body then
      if |buf| < p.expectedBody then Stop(More(p, buf))
      else Stop(Done(p.(request := p.request.(body := buf[..p.expectedBody]), state := Complete),
                     buf[p.expectedBody..]))
    else
      StepLine(lim, p, buf)
  }

  /** One call of `parse` on an unfinished parser. */
  function Run(lim: Limits, p: Parser, buf: string): (o: Outcome)
    requires Inv(lim, p) && p.Active()
    ensures o.More? ==> Inv(lim, o.p) && o.p.Active() && Bounded(lim, o.p, |o.rest|)
    ensures o.Done? ==> Inv(lim, o.p) && o.p.state == Complete && |o.rest| < |buf|
    decreases |buf|
  {
    var r := Step(lim, p, buf);
    if r.Continue? then Run(lim, r.p, r.rest) else r.o
  }
}
