/** Parsing the request the gateway sends upstream. */
module RequestRoundTrip {
  import opened Bytes
  import opened Headers
  import opened Messages
  import opened Printers
  import opened RequestParser
  import opened RequestFraming

  // --------------------------------------------------------------- request line

  lemma TargetHasNoBlank(t: string)
    requires ValidTarget(t)
    ensures forall i | 0 <= i < |t| :: t[i] != ' ' && t[i] != '\r'
  {}

  lemma RequestLinePieces(verb: string, target: string, line: string)
    requires forall i | 0 <= i < |verb| :: verb[i] != ' '
    requires forall i | 0 <= i < |target| :: target[i] != ' '
    requires line == verb + " " + target + " HTTP/1.1"
    ensures Find(line, ' ') == |verb| < |line|
    ensures line[..|verb|] == verb
    ensures var tail := line[|verb| + 1..];
            && Find(tail, ' ') == |target| < |tail|
            && tail[..|target|] == target && tail[|target| + 1..] == "HTTP/1.1"
  {
    var tail := target + " HTTP/1.1";
    assert verb + " " + target + " HTTP/1.1" == verb + " " + tail;
    SplitAtBlank(verb, tail, line);
    assert " HTTP/1.1" == " " + "HTTP/1.1";
    assert tail == target + " " + "HTTP/1.1";
    SplitAtBlank(target, "HTTP/1.1", tail);
  }

  lemma SplitAtBlank(word: string, tail: string, line: string)
    requires forall i | 0 <= i < |word| :: word[i] != ' '
    requires line == word + " " + tail
    ensures Find(line, ' ') == |word| < |line|
    ensures line[..|word|] == word && line[|word| + 1..] == tail
  {
    assert forall j | 0 <= j < |word| :: line[j] == word[j];
    FindIs(line, ' ', |word|);
  }

  lemma VerbHasNoBlank(m: Method)
    ensures forall i | 0 <= i < |MethodName(m)| ::
              MethodName(m)[i] != ' ' && MethodName(m)[i] != '\r'
  {
    forall i | 0 <= i < |MethodName(m)|
      ensures MethodName(m)[i] != ' ' && MethodName(m)[i] != '\r'
    {
      assert IsTokenChar(MethodName(m)[i]);
    }
  }

  lemma ParsePieces(line: string, verb: string, target: string, tail: string)
    requires Find(line, ' ') == |verb| < |line| && line[..|verb|] == verb
    requires tail == line[|verb| + 1..] && Find(tail, ' ') == |target| < |tail|
    requires tail[..|target|] == target && tail[|target| + 1..] == "HTTP/1.1"
    requires ValidName(verb) && ValidTarget(target)
    ensures ParseRequestLine(line) == Some((ParseMethod(verb), target, 1))
  {
    hide ParseMethod; hide ValidName; hide ValidTarget; hide Find;
  }

  lemma RequestLineRoundTrip(r: Request)
    requires ValidTarget(r.target)
    ensures ParseRequestLine(RequestLineText(r)) == Some((r.verb, r.target, 1))
    ensures '\r' !in RequestLineText(r)
  {
    hide MethodName; hide ParseRequestLine; hide ParseMethod;
    VerbHasNoBlank(r.verb);
    TargetHasNoBlank(r.target);
    var line, verb := RequestLineText(r), MethodName(r.verb);
    RequestLinePieces(verb, r.target, line);
    ParsePieces(line, verb, r.target, line[|verb| + 1..]);
    NoCrIn(verb, r.target);
  }

  lemma NoCrIn(verb: string, target: string)
    requires forall i | 0 <= i < |verb| :: verb[i] != '\r'
    requires forall i | 0 <= i < |target| :: target[i] != '\r'
    ensures '\r' !in verb + " " + target + " HTTP/1.1"
  {
    assert '\r' !in verb && '\r' !in target && '\r' !in " HTTP/1.1";
  }

  // --------------------------------------------------------------------- lines

  lemma TakeLine(lim: Limits, p: Parser, line: string, rest: string)
    requires Inv(lim, p) && LineState(p.state) && '\r' !in line
    ensures Step(lim, p, line + CRLF + rest) == AfterLine(OnLine(lim, p, line), rest)
  {
    hide OnLine;
    var s := line + CRLF + rest;
    FindCrlfLine(line, rest);
    assert s[..|line|] == line && s[|line| + 2..] == rest;
    LineOf(lim, p, s, |line|, line, rest);
  }

  function Resume(lim: Limits, r: Pass): Outcome
    requires r.Continue? ==> Inv(lim, r.p) && r.p.Active()
  {
    if r.Continue? then Run(lim, r.p, r.rest) else r.o
  }

  lemma RunIsResume(lim: Limits, p: Parser, s: string, r: Pass)
    requires Inv(lim, p) && p.Active() && Step(lim, p, s) == r
    ensures Run(lim, p, s) == Resume(lim, r)
  {
    hide Step;
  }

  // -------------------------------------------------------------- header block

  function WithHeader(p: Parser, h: Header, lineBytes: nat): Parser {
    p.(request := p.request.(headers := p.request.headers + [h]),
       headerBytes := p.headerBytes + lineBytes + 2, headerCount := p.headerCount + 1)
  }

  function WithHeaders(p: Parser, hs: seq<Header>): Parser {
    p.(request := p.request.(headers := p.request.headers + Normals(hs)),
       headerBytes := p.headerBytes + |PrintHeaders(hs)|,
       headerCount := p.headerCount + |hs|)
  }

  predicate LinesFit(lim: Limits, hs: seq<Header>) {
    forall i | 0 <= i < |hs| :: |HeaderLine(hs[i])| <= lim.maxHeaderLine
  }

  predicate HeadersFit(lim: Limits, p: Parser, hs: seq<Header>) {
    && p.headerBytes + |PrintHeaders(hs)| <= lim.maxHeaderBytes
    && p.headerCount + |hs| <= lim.maxHeaderCount
    && LinesFit(lim, hs)
  }

  lemma OnHeaderLine(lim: Limits, p: Parser, line: string, parsed: Option<Header>, q: Parser)
    requires Inv(lim, p) && p.state == State.Headers && line != []
    requires parsed == ParseHeaderLine(line) && |line| <= lim.maxHeaderLine
    requires q == p.(headerBytes := p.headerBytes + |line| + 2)
    requires q.headerBytes <= lim.maxHeaderBytes
    ensures Inv(lim, q) && OnLine(lim, p, line) == AddHeader(lim, q, parsed)
  {
    hide ParseHeaderLine; hide AddHeader; hide FinishHeaders; hide ParseRequestLine;
  }

  lemma OneHeader(lim: Limits, p: Parser, h: Header, line: string, rest: string)
    requires Inv(lim, p) && p.state == State.Headers && Printable(h) && line == HeaderLine(h)
    requires |line| <= lim.maxHeaderLine
    requires p.headerBytes + |line| + 2 <= lim.maxHeaderBytes
    requires p.headerCount + 1 <= lim.maxHeaderCount
    ensures Inv(lim, WithHeader(p, Normal(h), |line|))
    ensures Run(lim, p, line + CRLF + rest) == Run(lim, WithHeader(p, Normal(h), |line|), rest)
  {
    hide ParseHeaderLine; hide OnLine;
    NoCr(h);
    HeaderLineRoundTrip(h);
    OnHeaderLine(lim, p, line, Some(Normal(h)), p.(headerBytes := p.headerBytes + |line| + 2));
    TakeLine(lim, p, line, rest);
    RunContinues(lim, p, line + CRLF + rest, WithHeader(p, Normal(h), |line|), rest);
  }

  /** A printed header block is read back header by header. */
  lemma {:induction false} HeadersRoundTrip(lim: Limits, p: Parser, hs: seq<Header>, rest: string)
    requires Inv(lim, p) && p.state == State.Headers && AllPrintable(hs) && HeadersFit(lim, p, hs)
    ensures Inv(lim, WithHeaders(p, hs))
    ensures Run(lim, p, PrintHeaders(hs) + rest) == Run(lim, WithHeaders(p, hs), rest)
    decreases |hs|
  {
    hide Step; hide Inv; hide HeaderLine;
    if hs == [] {
      assert p.request.headers + [] == p.request.headers;
      Concat(rest, [], []);
    } else {
      var h, others := hs[0], hs[1..];
      var line := HeaderLine(h);
      Concat(line + CRLF, PrintHeaders(others), rest);
      OneHeader(lim, p, h, line, PrintHeaders(others) + rest);
      var q := WithHeader(p, Normal(h), |line|);
      HeadersRoundTrip(lim, q, others, rest);
      WithMoreHeaders(p, h, others);
      assert hs == [h] + others;
    }
  }

  lemma WithMoreHeaders(p: Parser, h: Header, others: seq<Header>)
    ensures WithHeaders(p, [h] + others) ==
            WithHeaders(WithHeader(p, Normal(h), |HeaderLine(h)|), others)
  {
    var hs := [h] + others;
    assert hs[1..] == others;
    assert (p.request.headers + [Normal(h)]) + Normals(others)
        == p.request.headers + ([Normal(h)] + Normals(others));
  }

  // ------------------------------------------------------------------- the head

  function RequestHead(r: Request, hs: seq<Header>): string {
    RequestLineText(r) + CRLF + PrintHeaders(hs) + CRLF
  }

  predicate HeadFits(lim: Limits, r: Request, hs: seq<Header>) {
    && |RequestLineText(r)| <= lim.maxRequestLine
    && |RequestHead(r, hs)| <= lim.maxHeaderBytes
    && |hs| <= lim.maxHeaderCount
    && LinesFit(lim, hs)
  }

  /** The parser at the blank line after a printed head. */
  function AtBlankLine(r: Request, hs: seq<Header>): Parser {
    INITIAL.(state := State.Headers, request := Request(r.verb, r.target, 1, Normals(hs), []),
             headerBytes := |RequestHead(r, hs)|, headerCount := |hs|)
  }

  lemma HeadRoundTrip(lim: Limits, r: Request, hs: seq<Header>, rest: string)
    requires ValidTarget(r.target) && AllPrintable(hs) && HeadFits(lim, r, hs)
    ensures Inv(lim, AtBlankLine(r, hs))
    ensures Run(lim, INITIAL, RequestHead(r, hs) + rest) ==
            Resume(lim, AfterLine(FinishHeaders(lim, AtBlankLine(r, hs)), rest))
  {
    hide Step; hide FinishHeaders; hide RequestLineText;
    var line, block := RequestLineText(r), PrintHeaders(hs);
    HeadPieces(line, block, rest);
    var q := AfterRequestLine(lim, r, block + (CRLF + rest));
    HeadersRoundTrip(lim, q, hs, CRLF + rest);
    assert [] + Normals(hs) == Normals(hs);
    BlankLine(lim, WithHeaders(q, hs), AtBlankLine(r, hs), rest);
  }

  lemma AfterRequestLine(lim: Limits, r: Request, rest: string) returns (q: Parser)
    requires ValidTarget(r.target) && |RequestLineText(r)| <= lim.maxRequestLine
    requires |RequestLineText(r)| + 2 <= lim.maxHeaderBytes
    ensures q == INITIAL.(request := Request(r.verb, r.target, 1, [], []),
                          state := State.Headers, headerBytes := |RequestLineText(r)| + 2)
    ensures Inv(lim, q)
    ensures Run(lim, INITIAL, RequestLineText(r) + CRLF + rest) == Run(lim, q, rest)
  {
    hide RequestLineText; hide Step; hide ParseRequestLine; hide FinishHeaders;
    hide ParseHeaderLine;
    var line := RequestLineText(r);
    RequestLineRoundTrip(r);
    TakeLine(lim, INITIAL, line, rest);
    q := OnLine(lim, INITIAL, line).p;
    RunContinues(lim, INITIAL, line + CRLF + rest, q, rest);
  }

  lemma BlankLine(lim: Limits, p: Parser, q: Parser, rest: string)
    requires Inv(lim, p) && p.state == State.Headers
    requires q == p.(headerBytes := p.headerBytes + 2) && q.headerBytes <= lim.maxHeaderBytes
    ensures Inv(lim, q)
    ensures Run(lim, p, CRLF + rest) == Resume(lim, AfterLine(FinishHeaders(lim, q), rest))
  {
    hide FinishHeaders; hide Step; hide OnLine;
    TakeLine(lim, p, [], rest);
    Concat(CRLF, [], []);
    OnBlank(lim, p, [], q);
    RunIsResume(lim, p, CRLF + rest, AfterLine(FinishHeaders(lim, q), rest));
  }

  lemma OnBlank(lim: Limits, p: Parser, line: string, q: Parser)
    requires Inv(lim, p) && p.state == State.Headers && line == []
    requires q == p.(headerBytes := p.headerBytes + 2) && q.headerBytes <= lim.maxHeaderBytes
    ensures Inv(lim, q) && OnLine(lim, p, line) == FinishHeaders(lim, q)
  {
    hide ParseHeaderLine; hide AddHeader; hide FinishHeaders; hide ParseRequestLine;
  }

  // ----------------------------------------------------------- forwarded headers

  /** The headers the upstream finds: the end-to-end headers of the client, in
      order, and the six rebuilt ones. */
  function ReceivedHeaders(r: Request, f: Forwarding): seq<Header> {
    EndToEnd(r.headers) + ReceivedTail(r, f)
  }

  function ReceivedTail(r: Request, f: Forwarding): seq<Header> {
    [Header("host", f.Authority()), Header("x-forwarded-for", f.peer),
     Header("x-forwarded-proto", "http"), Header("x-request-id", f.requestId),
     Header("content-length", Digits(10, |r.body|)), Header("connection", "keep-alive")]
  }

  lemma TailIsPrintable(r: Request, f: Forwarding)
    requires f.Printable()
    ensures AllPrintable(RebuiltHeaders(r, f))
  {
    hide ValidName; hide ValidValue; hide Trimmed; hide Digits;
    NamesAreValid();
    ValuesAreValid(|r.body|);
  }

  lemma NormalsSplit(a: Header, hs: seq<Header>)
    ensures Normals([a] + hs) == [Normal(a)] + Normals(hs)
  {
    assert ([a] + hs)[1..] == hs;
  }

  lemma TailNormals(r: Request, f: Forwarding)
    ensures Normals(RebuiltHeaders(r, f)) == ReceivedTail(r, f)
  {
    hide Normals; hide Digits;
    var t := RebuiltHeaders(r, f);
    LowerCapitals();
    LowerForwarding();
    assert t == [t[0]] + ([t[1]] + ([t[2]] + ([t[3]] + ([t[4]] + ([t[5]] + [])))));
    NormalsSplit(t[0], [t[1]] + ([t[2]] + ([t[3]] + ([t[4]] + ([t[5]] + [])))));
    NormalsSplit(t[1], [t[2]] + ([t[3]] + ([t[4]] + ([t[5]] + []))));
    NormalsSplit(t[2], [t[3]] + ([t[4]] + ([t[5]] + [])));
    NormalsSplit(t[3], [t[4]] + ([t[5]] + []));
    NormalsSplit(t[4], [t[5]] + []);
    NormalsSplit(t[5], []);
    NormalsOfNothing();
  }

  lemma NormalsOfNothing()
    ensures Normals([]) == []
  {}

  /** The host is there, no transfer coding is, and the length counts the body. */
  lemma FramingOfForwarded(r: Request, f: Forwarding)
    ensures Values(ReceivedHeaders(r, f), "host") == [f.Authority()]
    ensures Values(ReceivedHeaders(r, f), "transfer-encoding") == []
    ensures Values(ReceivedHeaders(r, f), "content-length") == [Digits(10, |r.body|)]
    ensures Values(ReceivedHeaders(r, f), "connection") == ["keep-alive"]
  {
    hide Digits; hide EndToEnd; hide ReceivedTail;
    var passed, tail := EndToEnd(r.headers), ReceivedTail(r, f);
    LowerNames();
    TailNames(r, f);
    TailValues(passed, tail, "host", 0);
    TailValues(passed, tail, "content-length", 4);
    TailValues(passed, tail, "connection", 5);
    ValuesAppend(passed, tail, "transfer-encoding");
    NoValues(passed, "transfer-encoding");
    NoValues(tail, "transfer-encoding");
  }

  lemma TailNames(r: Request, f: Forwarding)
    ensures var t := ReceivedTail(r, f);
            && |t| == 6 && t[0] == Header("host", f.Authority())
            && t[4] == Header("content-length", Digits(10, |r.body|))
            && t[5] == Header("connection", "keep-alive")
            && (forall i | 0 <= i < 6 && i != 0 :: t[i].name != "host")
            && (forall i | 0 <= i < 6 && i != 4 :: t[i].name != "content-length")
            && (forall i | 0 <= i < 6 && i != 5 :: t[i].name != "connection")
            && (forall i | 0 <= i < 6 :: t[i].name != "transfer-encoding")
            && (forall i | 0 <= i < 6 :: t[i].name in HOP_BY_HOP || t[i].name in REBUILT)
  {
    hide Digits;
  }

  /** A name that occurs once, at a given place of the tail. */
  lemma TailValues(passed: seq<Header>, tail: seq<Header>, name: string, k: nat)
    requires k < |tail| && tail[k].name == Lower(name)
    requires forall i | 0 <= i < |passed| :: passed[i].name != Lower(name)
    requires forall i | 0 <= i < |tail| && i != k :: tail[i].name != Lower(name)
    ensures Values(passed + tail, name) == [tail[k].value]
  {
    ValuesAppend(passed, tail, name);
    NoValues(passed, name);
    assert tail == tail[..k] + ([tail[k]] + tail[k + 1..]);
    ValuesAppend(tail[..k], [tail[k]] + tail[k + 1..], name);
    ValuesAppend([tail[k]], tail[k + 1..], name);
    NoValues(tail[..k], name);
    NoValues(tail[k + 1..], name);
    assert [tail[k]][1..] == [];
  }

  // ------------------------------------------------------------------ theorems

  predicate ForwardFits(lim: Limits, r: Request, f: Forwarding) {
    lim.Valid() && HeadFits(lim, r, ForwardedHeaders(r, f)) && |r.body| <= lim.maxBody
  }

  /** The request as the upstream reads it. */
  function Received(r: Request, f: Forwarding): Request {
    Request(r.verb, r.target, 1, ReceivedHeaders(r, f), r.body)
  }

  lemma ForwardedNormals(r: Request, f: Forwarding)
    requires AllClean(r.headers) && f.Printable()
    ensures AllPrintable(ForwardedHeaders(r, f))
    ensures Normals(ForwardedHeaders(r, f)) == ReceivedHeaders(r, f)
  {
    hide RebuiltHeaders; hide ReceivedTail;
    NormalsOfClean(EndToEnd(r.headers));
    NormalsAppend(EndToEnd(r.headers), RebuiltHeaders(r, f));
    TailIsPrintable(r, f);
    TailNormals(r, f);
  }

  /** Parsing a forwarded request, followed by any bytes, completes with the same
      method, target and body, the end-to-end headers in order and the six rebuilt
      ones, and leaves exactly the bytes after it. */
  lemma ForwardedRequestParsesBack(lim: Limits, r: Request, f: Forwarding, suffix: string)
    requires ValidTarget(r.target) && AllClean(r.headers) && f.Printable()
    requires ForwardFits(lim, r, f)
    ensures var o := Run(lim, INITIAL, UpstreamRequest(r, f) + suffix);
            o.Done? && o.p.request == Received(r, f) && o.rest == suffix
  {
    hide Run; hide FinishHeaders; hide RequestLineText; hide ForwardedHeaders;
    hide ReceivedHeaders; hide PrintHeaders;
    var hs := ForwardedHeaders(r, f);
    ForwardedNormals(r, f);
    HeadRoundTrip(lim, r, hs, r.body + suffix);
    Concat(RequestHead(r, hs), r.body, suffix);
    FramingOfForwarded(r, f);
    SizeRoundTrip(10, |r.body|);
    CountedBody(lim, r, f, AtBlankLine(r, hs), suffix);
  }

  lemma CountedBody(lim: Limits, r: Request, f: Forwarding, q: Parser, suffix: string)
    requires Inv(lim, q) && q.state == State.Headers && |r.body| <= lim.maxBody
    requires q.request == Request(r.verb, r.target, 1, ReceivedHeaders(r, f), [])
    requires Values(q.request.headers, "host") != []
    requires Values(q.request.headers, "transfer-encoding") == []
    requires Values(q.request.headers, "content-length") == [Digits(10, |r.body|)]
    requires ParseSize(10, Digits(10, |r.body|)) == Some(|r.body|)
    ensures var o := Resume(lim, AfterLine(FinishHeaders(lim, q), r.body + suffix));
            o.Done? && o.p.request == Received(r, f) && o.rest == suffix
  {
    hide ReceivedHeaders; hide Digits; hide ParseSize; hide Values; hide AllClean;
    if r.body == [] {
      Concat(suffix, [], []);
    } else {
      CutLeft(r.body, suffix, |r.body|);
      assert r.body[|r.body|..] + suffix == suffix && r.body[..|r.body|] == r.body;
    }
  }

  /** Forwarding twice: the end-to-end headers are unchanged, and the same gateway
      would send the very same bytes again. */
  lemma ForwardingIsIdempotent(r: Request, f: Forwarding)
    requires AllClean(r.headers)
    ensures EndToEnd(Received(r, f).headers) == EndToEnd(r.headers)
    ensures UpstreamRequest(Received(r, f), f) == UpstreamRequest(r, f)
  {
    hide Digits; hide MethodName; hide ReceivedTail; hide Values; hide PrintHeaders;
    var passed, tail := EndToEnd(r.headers), ReceivedTail(r, f);
    FramingOfForwarded(r, f);
    TailNames(r, f);
    var connections := ["keep-alive"];
    forall i | 0 <= i < |passed| ensures !HopByHop(passed[i].name, connections) {
      KeepAliveNominatesItself(passed[i].name);
    }
    PassingAppend(passed, tail, connections);
    PassingAll(passed, connections);
    PassingNone(tail, connections);
    assert passed + [] == passed;
  }

  lemma KeepAliveNominatesItself(name: string)
    requires IsLower(name) && name !in HOP_BY_HOP
    ensures !Nominated(["keep-alive"], name)
  {
    LowerIdentity(name);
    LowerIdentity("keep-alive");
    SingleToken("keep-alive", name);
  }
}
