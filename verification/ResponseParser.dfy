/** The incremental upstream response parser, as a function of its fields and the
    unread bytes. `Step` is one pass through the loop of `parse`, `Run` the whole
    call; the class in ResponseParserObject.dfy performs it in place. */
module ResponseParser {
  import opened Bytes
  import opened Headers
  import opened Messages

  datatype Limits = Limits(
    maxStatusLine: nat, maxHeaderBytes: nat, maxHeaderCount: nat, maxBody: nat)
  {
    /** What the constructor of the parser accepts. */
    predicate Valid() {
      && 0 < maxStatusLine && 0 < maxHeaderCount
      && 0 < maxHeaderBytes <= 64 * 1024
      && 0 < maxBody <= 16 * 1024 * 1024
    }
  }

  datatype State =
    | StatusLine | Headers | FixedBody | ChunkSize | ChunkBody | Trailers | EofBody
    | Complete | Error

  datatype Code =
    | BadResponse | HeaderTooLarge | BodyTooLarge | UnsupportedTransferEncoding | PrematureEof

  datatype Parser = Parser(
    state: State, response: Response, expectedBody: nat, chunkBytes: nat,
    headerBytes: nat, headerCount: nat, headRequest: bool, chunked: bool,
    eofDelimited: bool, error: Code)
  {
    predicate Active() { state != Complete && state != Error }

    predicate HeaderComplete() { state != StatusLine && state != Headers && state != Error }

    predicate Reusable() { state == Complete && !eofDelimited && !response.closeConnection }
  }

  /** The parser after construction, and after `reset`. */
  function Initial(headRequest: bool): Parser {
    Parser(StatusLine, EMPTY_RESPONSE, 0, 0, 0, 0, headRequest, false, false, BadResponse)
  }

  /** Invariant of the fields between two calls. */
  predicate Inv(lim: Limits, p: Parser) {
    && AllClean(p.response.headers)
    && p.response.reason != [] && ValidValue(p.response.reason)
    && -99 <= p.response.status <= 999
    && (p.HeaderComplete() ==> !(100 <= p.response.status <= 199))
    && (p.state == StatusLine || p.state == Headers ==> p.response.body == [])
    && (p.state == FixedBody ==> |p.response.body| < p.expectedBody <= lim.maxBody)
    && (p.state == ChunkBody ==> p.chunkBytes > 0)
    && |p.response.body| <= lim.maxBody
  }

  // --------------------------------------------------------------- single lines

  /** `std::from_chars` into `int` over the three status characters. */
  function ParseStatusText(t: string): (r: Option<int>)
    requires |t| == 3
    ensures r.Some? ==> -99 <= r.value <= 999
  {
    if t[0] == '-' then
      if AllDigits(10, t[1..]) then TwoDigits(t[1..]); var v: int := Value(10, t[1..]); Some(-v) else None
    else if AllDigits(10, t) then ThreeDigits(t); Some(Value(10, t)) else None
  }

  lemma TwoDigits(t: string)
    requires |t| == 2 && AllDigits(10, t)
    ensures Value(10, t) == 10 * DigitValue(10, t[0]) + DigitValue(10, t[1])
  {
    assert t == [t[0]] + [t[1]] && [t[0]] == [] + [t[0]];
    ValueAppend(10, [], t[0]);
    ValueAppend(10, [t[0]], t[1]);
  }

  lemma ThreeDigits(t: string)
    requires |t| == 3 && AllDigits(10, t)
    ensures Value(10, t) ==
            100 * DigitValue(10, t[0]) + 10 * DigitValue(10, t[1]) + DigitValue(10, t[2])
  {
    TwoDigits(t[..2]);
    assert t == t[..2] + [t[2]];
    ValueAppend(10, t[..2], t[2]);
  }

  function ParseStatusLine(line: string): (r: Option<(int, string)>)
    ensures r.Some? ==> r.value.1 != [] && ValidValue(r.value.1) && -99 <= r.value.0 <= 999
  {
    if !("HTTP/1." <= line) then None else
    var first := Find(line, ' ');
    if first == |line| || |line| < first + 5 then None else
    var status := ParseStatusText(line[first + 1..first + 4]);
    if status.None? || line[first + 4] != ' ' then None else
    var reason := line[first + 5..];
    if reason == [] || !ValidValue(reason) then None else Some((status.value, reason))
  }

  /** The chunk size in front of any extension: at most 16 hexadecimal digits. */
  function ParseChunkSize(line: string): (r: Option<nat>)
    ensures r.Some? ==> r.value < SIZE_LIMIT
  {
    var value := line[..Find(line, ';')];
    if |value| > 16 then None else ParseSize(16, value)
  }

  // ---------------------------------------------------------------- transitions

  datatype Next = Go(p: Parser) | Fail(p: Parser, code: Code)

  function Failing(p: Parser, code: Code): Next {
    Fail(p.(state := Error, error := code), code)
  }

  /** An interim response starts over. */
  lemma RestartKeepsInv(lim: Limits, p: Parser)
    requires Inv(lim, p)
    ensures Inv(lim, p.(response := EMPTY_RESPONSE, expectedBody := 0, headerCount := 0,
                        headerBytes := 0, state := StatusLine))
  {}

  /** Choosing the framing of a final response. */
  lemma FramedKeepsInv(lim: Limits, p: Parser, q: Parser)
    requires Inv(lim, p) && p.state == Headers && !(100 <= p.response.status <= 199)
    requires q.response == p.response.(closeConnection := q.response.closeConnection)
    requires q.state == FixedBody ==> 0 < q.expectedBody <= lim.maxBody
    requires q.state != ChunkBody
    ensures Inv(lim, q)
  {}

  /** The blank line after the headers decides the framing of the body. */
  function FinishHeaders(lim: Limits, p: Parser): (n: Next)
    requires Inv(lim, p) && p.state == Headers
    ensures n.Go? ==> Inv(lim, n.p) && n.p.state != Error
    ensures n.Fail? ==> n.p.state == Error && n.p.error == n.code
  {
    hide Values; hide ContainsToken; hide ParseSize; hide Inv;
    var transfers := Values(p.response.headers, "transfer-encoding");
    var lengths := Values(p.response.headers, "content-length");
    if transfers != [] && lengths != [] then Failing(p, BadResponse)
    else if |transfers| > 1 || (transfers != [] && !ContainsToken(transfers[0], "chunked")) then
      Failing(p, UnsupportedTransferEncoding)
    else if 100 <= p.response.status <= 199 && p.response.status != 101 then
      RestartKeepsInv(lim, p);
      Go(p.(response := EMPTY_RESPONSE, expectedBody := 0, headerCount := 0, headerBytes := 0,
            state := StatusLine))
    else if p.response.status == 101 then Failing(p, UnsupportedTransferEncoding)
    else if p.headRequest || NoBodyStatus(p.response.status) then
      FramedKeepsInv(lim, p, p.(state := Complete));
      Go(p.(state := Complete))
    else if transfers != [] then
      FramedKeepsInv(lim, p, p.(chunked := true, state := ChunkSize));
      Go(p.(chunked := true, state := ChunkSize))
    else if lengths == [] then
      FramedKeepsInv(lim, p, p.(eofDelimited := true, state := EofBody,
                                response := p.response.(closeConnection := true)));
      Go(p.(eofDelimited := true, response := p.response.(closeConnection := true),
            state := EofBody))
    else if |lengths| != 1 then Failing(p, BadResponse)
    else
      var length := ParseSize(10, lengths[0]);
      if length.None? then Failing(p, BadResponse)
      else if length.value > lim.maxBody then Failing(p, BodyTooLarge)
      else
        FramedKeepsInv(lim, p, p.(expectedBody := length.value,
                                  state := if length.value == 0 then Complete else FixedBody));
        Go(p.(expectedBody := length.value,
              state := if length.value == 0 then Complete else FixedBody))
  }

  /** The framing headers of a message a recipient may act on: one chunked coding
      and no length, or one readable length and no coding, or neither. */
  predicate Unambiguous(lim: Limits, codings: seq<string>, lengths: seq<string>) {
    || (lengths == [] && |codings| == 1 && ContainsToken(codings[0], "chunked"))
    || (codings == [] && |lengths| == 1 && ParseSize(10, lengths[0]).Some?
        && ParseSize(10, lengths[0]).value <= lim.maxBody)
    || (codings == [] && lengths == [])
  }

  /** A final response that may have a body is accepted exactly when its framing is
      unambiguous, and never waits for two kinds of body at once; a coding beside a
      length, or an unknown coding, fails whatever the status. */
  lemma FramingIsUnambiguous(lim: Limits, p: Parser)
    requires Inv(lim, p) && p.state == Headers
    ensures var codings := Values(p.response.headers, "transfer-encoding");
            var lengths := Values(p.response.headers, "content-length");
            var n := FinishHeaders(lim, p);
            && (!p.headRequest && !NoBodyStatus(p.response.status) ==>
                  (n.Go? <==> Unambiguous(lim, codings, lengths)))
            && (codings != [] && (lengths != [] || !Unambiguous(lim, codings, lengths)) ==> n.Fail?)
            && (n.Go? && n.p.state == ChunkSize ==> codings != [] && lengths == [])
            && (n.Go? && n.p.state == FixedBody ==> codings == [] && lengths != [])
            && (n.Go? && n.p.state == EofBody ==> codings == [] && lengths == [])
  {
    hide Values; hide ContainsToken; hide ParseSize; hide Inv;
  }

  predicate LineState(s: State) {
    s == StatusLine || s == Headers || s == ChunkSize || s == Trailers
  }

  /** What one complete line does in a state that reads lines. */
  function OnLine(lim: Limits, p: Parser, line: string): (n: Next)
    requires Inv(lim, p) && LineState(p.state)
    ensures n.Go? ==> Inv(lim, n.p) && n.p.state != Error
    ensures n.Fail? ==> n.p.state == Error && n.p.error == n.code
  {
    hide ParseStatusLine; hide FinishHeaders; hide AddHeader; hide ParseHeaderLine;
    hide ParseChunkSize; hide AllClean; hide ValidValue; hide ValidName;
    if p.state == StatusLine then
      if |line| > lim.maxStatusLine then Failing(p, HeaderTooLarge) else
      var parsed := ParseStatusLine(line);
      if parsed.None? then Failing(p, BadResponse) else
      Go(p.(response := p.response.(status := parsed.value.0, reason := parsed.value.1),
            state := Headers, headerBytes := |line| + 2))
    else if p.state == ChunkSize then
      var size := ParseChunkSize(line);
      if size.None? then Failing(p, BadResponse) else
      Go(p.(chunkBytes := size.value, state := if size.value == 0 then Trailers else ChunkBody))
    else
      var q := p.(headerBytes := p.headerBytes + |line| + 2);
      if q.headerBytes > lim.maxHeaderBytes then Failing(q, HeaderTooLarge)
      else if p.state == Trailers then
        if line == [] then Go(q.(state := Complete))
        else if !ValidName(line[..Find(line, ':')]) then Failing(q, BadResponse)
        else Go(q)
      else if line == [] then FinishHeaders(lim, q)
      else AddHeader(lim, q, ParseHeaderLine(line))
  }

  /** `parseHeader`, given what the line parses to. */
  function AddHeader(lim: Limits, p: Parser, header: Option<Header>): (n: Next)
    requires Inv(lim, p) && p.state == Headers
    requires header.Some? ==> Clean(header.value)
    ensures n.Go? ==> Inv(lim, n.p) && n.p.state == Headers
    ensures n.Fail? ==> n.p.state == Error && n.p.error == n.code
  {
    var q := p.(headerCount := p.headerCount + 1);
    if q.headerCount > lim.maxHeaderCount then Failing(q, HeaderTooLarge)
    else if header.None? then Failing(q, BadResponse)
    else
      CleanAppend(q.response.headers, header.value);
      Go(q.(response := q.response.(headers := q.response.headers + [header.value])))
  }

  /** How one call of `parse` ends. `rest` is what stays unread. */
  datatype Outcome =
    | More(p: Parser, rest: string)
    | Done(p: Parser, rest: string)
    | Failed(p: Parser, code: Code)

  datatype Pass = Continue(p: Parser, rest: string) | Stop(o: Outcome)

  function AppendBody(p: Parser, bytes: string): Parser {
    p.(response := p.response.(body := p.response.body + bytes))
  }

  predicate PendingTooLarge(lim: Limits, p: Parser, pending: nat) {
    || (p.state == StatusLine && pending > lim.maxStatusLine)
    || ((p.state == Headers || p.state == Trailers)
        && p.headerBytes + pending > lim.maxHeaderBytes)
  }

  /** A pass in a state that reads lines. */
  function StepLine(lim: Limits, p: Parser, buf: string): (r: Pass)
    requires Inv(lim, p) && LineState(p.state)
    ensures r.Continue? ==> Inv(lim, r.p) && r.p.Active()
    ensures r.Continue? ==> |r.rest| < |buf| && r.rest == buf[|buf| - |r.rest|..]
    ensures r.Stop? && !r.o.Failed? ==> Inv(lim, r.o.p)
    ensures r.Stop? && r.o.More? ==> r == Stop(More(p, buf))
    ensures r.Stop? && r.o.Done? ==> r.o.p.state == Complete
  {
    var i := FindCrlf(buf);
    if i == |buf| then
      if PendingTooLarge(lim, p, |buf|) then FailPass(Failing(p, HeaderTooLarge))
      else Stop(More(p, buf))
    else
      assert CrlfAt(buf, i);
      AfterLine(OnLine(lim, p, buf[..i]), buf[i + 2..])
  }

  function AfterLine(n: Next, rest: string): Pass {
    if n.Fail? then FailPass(n)
    else if n.p.state == Complete then Stop(Done(n.p, rest))
    else Continue(n.p, rest)
  }

  /** One pass through the loop of `parse`. */
  function Step(lim: Limits, p: Parser, buf: string): (r: Pass)
    requires Inv(lim, p) && p.Active()
    ensures r.Continue? ==> Inv(lim, r.p) && r.p.Active()
    ensures r.Continue? ==> |r.rest| < |buf| && r.rest == buf[|buf| - |r.rest|..]
    ensures r.Stop? && r.o.More? ==> Inv(lim, r.o.p) && r.o.p.Active()
    ensures r.Stop? && r.o.Done? ==> Inv(lim, r.o.p) && r.o.p.state == Complete
  {
    if p.state == FixedBody then
      var remaining := p.expectedBody - |p.response.body|;
      var count := if remaining < |buf| then remaining else |buf|;
      var q := AppendBody(p, buf[..count]);
      if |q.response.body| == q.expectedBody then Stop(Done(q.(state := Complete), buf[count..]))
      else Stop(More(q, buf[count..]))
    else if p.state == ChunkBody then
      if |buf| < p.chunkBytes + 2 then Stop(More(p, buf))
      else if buf[p.chunkBytes] != '\r' || buf[p.chunkBytes + 1] != '\n' then
        FailPass(Failing(p, BadResponse))
      else if p.chunkBytes > lim.maxBody - |p.response.body| then
        FailPass(Failing(p, BodyTooLarge))
      else
        Continue(AppendBody(p, buf[..p.chunkBytes]).(state := ChunkSize), buf[p.chunkBytes + 2..])
    else if p.state == EofBody then
      if |buf| > lim.maxBody - |p.response.body| then FailPass(Failing(p, BodyTooLarge))
      else Stop(More(AppendBody(p, buf), []))
    else
      StepLine(lim, p, buf)
  }

  function FailPass(n: Next): Pass
    requires n.Fail?
  {
    Stop(Failed(n.p, n.code))
  }

  /** One call of `parse` on an unfinished parser. */
  function Run(lim: Limits, p: Parser, buf: string): (o: Outcome)
    requires Inv(lim, p) && p.Active()
    ensures o.More? ==> Inv(lim, o.p) && o.p.Active()
    ensures o.Done? ==> Inv(lim, o.p) && o.p.state == Complete
    decreases |buf|
  {
    var r := Step(lim, p, buf);
    if r.Continue? then Run(lim, r.p, r.rest) else r.o
  }

  /** `finishOnEof`: end of stream is a valid end only for an EOF-delimited body. */
  function FinishOnEof(p: Parser, rest: string): Outcome
    requires p.Active()
  {
    if p.state == EofBody then Done(p.(state := Complete), rest)
    else Failed(p.(state := Error, error := PrematureEof), PrematureEof)
  }
}
