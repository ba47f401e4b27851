/** What each part of the request parser does, said without it: which heads are accepted,
    how long the body is, what every refusal is called, and that the limits hold. */
module RequestExact {
  import opened Bytes
  import opened Headers
  import opened Messages
  import opened Grammar
  import Printers
  import opened RequestParser
  import opened RequestFraming
  import opened RequestRoundTrip

  // ------------------------------------------------------------------ the decision

  function Hosts(hs: seq<Header>): seq<string> { Values(hs, "host") }

  function Codings(hs: seq<Header>): seq<string> { Values(hs, "transfer-encoding") }

  function Lengths(hs: seq<Header>): seq<string> { Values(hs, "content-length") }

  /** Exactly one Content-Length, and it is a size. */
  predicate OneLength(hs: seq<Header>) {
    |Lengths(hs)| == 1 && ParseSize(10, Lengths(hs)[0]).Some?
  }

  /** The bytes of the body that these headers announce. */
  function Announced(hs: seq<Header>): nat {
    if OneLength(hs) then ParseSize(10, Lengths(hs)[0]).value else 0
  }

  predicate Acceptable(lim: Limits, minor: nat, hs: seq<Header>) {
    && (minor == 1 ==> Hosts(hs) != [])
    && Codings(hs) == []
    && (Lengths(hs) == [] || OneLength(hs))
    && Announced(hs) <= lim.maxBody
  }

  /** What is wrong with a head that is not acceptable. */
  function Complaint(lim: Limits, minor: nat, hs: seq<Header>): Code {
    if minor == 1 && Hosts(hs) == [] then BadRequest
    else if Codings(hs) != [] then UnsupportedTransferEncoding
    else if OneLength(hs) then BodyTooLarge
    else BadRequest
  }

  /** The framing decision, for every parser at the blank line. */
  lemma RequestFramingExactly(lim: Limits, p: Parser)
    requires Inv(lim, p) && p.state == State.Headers
    ensures var n, hs, minor := FinishHeaders(lim, p), p.request.headers, p.request.minorVersion;
            if Acceptable(lim, minor, hs) then
              n == Go(p.(expectedBody := Announced(hs),
                         state := if Announced(hs) == 0 then Complete else Body))
            else n.Fail? && n.code == Complaint(lim, minor, hs)
  {
    hide Values; hide ParseSize; hide AllClean;
  }

  // --------------------------------------------------------------------- whole heads

  function StartLine(verb: string, target: string, minor: nat): string {
    verb + " " + target + " " + Version(minor)
  }

  function Version(minor: nat): string { if minor == 1 then "HTTP/1.1" else "HTTP/1.0" }

  function Head(verb: string, target: string, minor: nat, hs: seq<Header>): string {
    StartLine(verb, target, minor) + CRLF + Printers.PrintHeaders(hs) + CRLF
  }

  /** A head that the parser can read, with headers in the form it keeps. */
  predicate Readable(lim: Limits, verb: string, target: string, minor: nat, hs: seq<Header>) {
    && Token(verb) && Target(target) && minor <= 1 && AllClean(hs)
    && |StartLine(verb, target, minor)| <= lim.maxRequestLine
    && |Head(verb, target, minor, hs)| <= lim.maxHeaderBytes
    && |hs| <= lim.maxHeaderCount && LinesFit(lim, hs)
  }

  function AtBlank(verb: string, target: string, minor: nat, hs: seq<Header>): Parser {
    INITIAL.(state := State.Headers,
             request := Request(ParseMethod(verb), target, minor, hs, []),
             headerBytes := |Head(verb, target, minor, hs)|, headerCount := |hs|)
  }

  function AfterStart(verb: string, target: string, minor: nat): Parser {
    INITIAL.(state := State.Headers,
             request := Request(ParseMethod(verb), target, minor, [], []),
             headerBytes := |StartLine(verb, target, minor)| + 2)
  }

  lemma StartLineHasNoCr(verb: string, target: string, minor: nat)
    requires Token(verb) && Target(target)
    ensures '\r' !in StartLine(verb, target, minor) && NoSpace(verb) && NoSpace(target)
  {
    assert '\r' !in verb && ' ' !in verb;
    assert '\r' !in target && ' ' !in target;
    assert '\r' !in " " && '\r' !in "HTTP/1.1" && '\r' !in "HTTP/1.0";
  }

  lemma StartLineParses(verb: string, target: string, minor: nat)
    requires Token(verb) && Target(target) && minor <= 1
    ensures ParseRequestLine(StartLine(verb, target, minor)) == Some((ParseMethod(verb), target, minor))
  {
    StartLineHasNoCr(verb, target, minor);
    hide ParseRequestLine; hide Token; hide Target; hide ParseMethod;
    RequestLineExactly(verb, target, Version(minor));
  }

  lemma OnStartLine(lim: Limits, line: string, verb: Method, target: string, minor: nat)
    requires ParseRequestLine(line) == Some((verb, target, minor))
    requires |line| <= lim.maxRequestLine && |line| + 2 <= lim.maxHeaderBytes
    ensures OnLine(lim, INITIAL, line) == Go(INITIAL.(
              state := State.Headers, request := Request(verb, target, minor, [], []),
              headerBytes := |line| + 2))
  {
    hide ParseRequestLine; hide FinishHeaders; hide AddHeader; hide ParseHeaderLine;
  }

  lemma ReadStart(lim: Limits, verb: string, target: string, minor: nat, rest: string)
    requires Token(verb) && Target(target) && minor <= 1
    requires |StartLine(verb, target, minor)| <= lim.maxRequestLine
    requires |StartLine(verb, target, minor)| + 2 <= lim.maxHeaderBytes
    ensures Inv(lim, AfterStart(verb, target, minor))
    ensures Run(lim, INITIAL, StartLine(verb, target, minor) + CRLF + rest)
         == Run(lim, AfterStart(verb, target, minor), rest)
  {
    var line, q := StartLine(verb, target, minor), AfterStart(verb, target, minor);
    StartLineHasNoCr(verb, target, minor);
    StartLineParses(verb, target, minor);
    ValidTargetIsTarget(target);
    hide StartLine; hide Token; hide Target; hide ParseRequestLine; hide Step; hide OnLine;
    hide ParseMethod; hide ValidTarget; hide Run; hide Inv;
    TakeStart(lim, line, ParseMethod(verb), target, minor, q, rest);
  }

  lemma TakeStart(lim: Limits, line: string, verb: Method, target: string, minor: nat, q: Parser,
                  rest: string)
    requires ParseRequestLine(line) == Some((verb, target, minor)) && '\r' !in line
    requires |line| <= lim.maxRequestLine && |line| + 2 <= lim.maxHeaderBytes
    requires q == INITIAL.(state := State.Headers, request := Request(verb, target, minor, [], []),
                           headerBytes := |line| + 2)
    ensures Inv(lim, q) && Run(lim, INITIAL, line + CRLF + rest) == Run(lim, q, rest)
  {
    hide ParseRequestLine; hide Step; hide OnLine; hide ValidTarget;
    OnStartLine(lim, line, verb, target, minor);
    TakeLine(lim, INITIAL, line, rest);
    RunContinues(lim, INITIAL, line + CRLF + rest, q, rest);
  }

  lemma ReadHead(lim: Limits, verb: string, target: string, minor: nat, hs: seq<Header>,
                 rest: string)
    requires Readable(lim, verb, target, minor, hs)
    ensures var q := AtBlank(verb, target, minor, hs);
            && Inv(lim, q) && q.state == State.Headers
            && q.request == Request(ParseMethod(verb), target, minor, hs, [])
    ensures Run(lim, INITIAL, Head(verb, target, minor, hs) + rest)
         == Resume(lim, AfterLine(FinishHeaders(lim, AtBlank(verb, target, minor, hs)), rest))
  {
    hide Step; hide FinishHeaders; hide StartLine; hide Run; hide Token; hide Target; hide AllClean;
    hide Printers.PrintHeaders; hide LinesFit;
    Printers.NormalsOfClean(hs);
    var line, block := StartLine(verb, target, minor), Printers.PrintHeaders(hs);
    HeadPieces(line, block, rest);
    ReadStart(lim, verb, target, minor, block + (CRLF + rest));
    var q := AfterStart(verb, target, minor);
    HeadersRoundTrip(lim, q, hs, CRLF + rest);
    assert [] + hs == hs;
    BlankLine(lim, WithHeaders(q, hs), AtBlank(verb, target, minor, hs), rest);
  }

  /** Every head: it is accepted exactly when it is acceptable, its body is exactly the
      announced bytes, and what follows them is left for the next request. */
  lemma RequestExactly(lim: Limits, verb: string, target: string, minor: nat, hs: seq<Header>,
                       rest: string)
    requires Readable(lim, verb, target, minor, hs)
    ensures var o, n := Run(lim, INITIAL, Head(verb, target, minor, hs) + rest), Announced(hs);
            if !Acceptable(lim, minor, hs) then o.Failed? && o.code == Complaint(lim, minor, hs)
            else if |rest| < n then o.More? && o.rest == rest
            else
              && o.Done? && o.rest == rest[n..]
              && o.p.request == Request(ParseMethod(verb), target, minor, hs, rest[..n])
  {
    hide *;
    ReadHead(lim, verb, target, minor, hs, rest);
    BlankOutcome(lim, AtBlank(verb, target, minor, hs), rest);
  }

  lemma BlankOutcome(lim: Limits, q: Parser, rest: string)
    requires Inv(lim, q) && q.state == State.Headers
    ensures var o := Resume(lim, AfterLine(FinishHeaders(lim, q), rest));
            var hs, minor := q.request.headers, q.request.minorVersion;
            if !Acceptable(lim, minor, hs) then o.Failed? && o.code == Complaint(lim, minor, hs)
            else if |rest| < Announced(hs) then o.More? && o.rest == rest
            else
              && o.Done? && o.rest == rest[Announced(hs)..]
              && o.p.request == q.request.(body := rest[..Announced(hs)])
  {
    RequestFramingExactly(lim, q);
    hide FinishHeaders; hide Acceptable; hide Announced; hide AllClean; hide ValidTarget;
  }

  // ------------------------------------------------------------------------- limits

  /** A line over its limit, or one header too many. */
  predicate Oversized(lim: Limits, p: Parser, line: string) {
    if p.state == RequestLine then |line| > lim.maxRequestLine || |line| + 2 > lim.maxHeaderBytes
    else
      || |line| > lim.maxHeaderLine || p.headerBytes + |line| + 2 > lim.maxHeaderBytes
      || (line != [] && p.headerCount >= lim.maxHeaderCount)
  }

  /** Such a line is refused under that name, and so are pending bytes that can only belong
      to one. */
  lemma OversizedExactly(lim: Limits, p: Parser, line: string, rest: string)
    requires Inv(lim, p) && LineState(p.state) && '\r' !in line
    ensures Oversized(lim, p, line) ==>
              var o := Run(lim, p, line + CRLF + rest); o.Failed? && o.code == HeaderTooLarge
    ensures var o := Run(lim, p, line);
            if |line| > (if p.state == RequestLine then lim.maxRequestLine
                         else lim.maxHeaderBytes - p.headerBytes)
            then o.Failed? && o.code == HeaderTooLarge else o == More(p, line)
  {
    if Oversized(lim, p, line) {
      TakeLine(lim, p, line, rest);
      OversizedLine(lim, p, line);
    }
    NoCrlfIn(line);
    hide OnLine; hide FindCrlf; hide ValidTarget; hide AllClean;
  }

  lemma NoCrlfIn(line: string)
    requires '\r' !in line
    ensures FindCrlf(line) == |line|
  {
    hide FindCrlf;
  }

  lemma OversizedLine(lim: Limits, p: Parser, line: string)
    requires Inv(lim, p) && LineState(p.state) && Oversized(lim, p, line)
    ensures OnLine(lim, p, line).Fail? && OnLine(lim, p, line).code == HeaderTooLarge
  {
    hide ParseRequestLine; hide ParseHeaderLine; hide FinishHeaders; hide ValidTarget; hide AllClean;
  }

  /** What the parser has counted covers what it holds. */
  predicate Counted(lim: Limits, p: Parser) {
    match p.state
    case RequestLine => p.request.headers == [] && p.headerCount == 0
    case Error => true
    case _ =>
      && p.headerCount == |p.request.headers| <= lim.maxHeaderCount
      && HeaderCost(p.request.headers) <= p.headerBytes
      && p.headerBytes <= lim.maxHeaderBytes
  }

  lemma HeaderLineCounts(lim: Limits, p: Parser, line: string)
    requires Inv(lim, p) && p.state == State.Headers && Counted(lim, p) && line != []
    ensures var n := OnLine(lim, p, line); n.Go? ==> Counted(lim, n.p)
  {
    hide ParseHeaderLine; hide FinishHeaders; hide AllClean;
    if OnLine(lim, p, line).Go? {
      HeaderLineLength(line);
      CostSnoc(p.request.headers, ParseHeaderLine(line).value);
    }
  }

  lemma LineCounts(lim: Limits, p: Parser, line: string)
    requires Inv(lim, p) && LineState(p.state) && Counted(lim, p)
    ensures var n := OnLine(lim, p, line); n.Go? ==> Counted(lim, n.p)
  {
    hide ParseRequestLine; hide AllClean; hide AddHeader; hide HeaderCost; hide FinishHeaders;
    if p.state == State.Headers {
      if line == [] {
        var q := p.(headerBytes := p.headerBytes + 2);
        if q.headerBytes <= lim.maxHeaderBytes { RequestFramingExactly(lim, q); }
      } else {
        HeaderLineCounts(lim, p, line);
      }
    } else {
      NoCost();
    }
  }

  lemma StepCounts(lim: Limits, p: Parser, buf: string)
    requires Inv(lim, p) && p.Active() && Counted(lim, p)
    ensures var r := Step(lim, p, buf);
            && (r.Continue? ==> Counted(lim, r.p))
            && (r.Stop? && !r.o.Failed? ==> Counted(lim, r.o.p))
  {
    hide OnLine; hide FindCrlf; hide AllClean; hide HeaderCost;
    if LineState(p.state) && FindCrlf(buf) < |buf| {
      assert CrlfAt(buf, FindCrlf(buf));
      LineCounts(lim, p, buf[..FindCrlf(buf)]);
    }
  }

  lemma {:induction false} RunCounts(lim: Limits, p: Parser, buf: string)
    requires Inv(lim, p) && p.Active() && Counted(lim, p)
    ensures var o := Run(lim, p, buf); !o.Failed? ==> Counted(lim, o.p)
    decreases |buf|
  {
    hide Step; hide Inv; hide Counted;
    StepCounts(lim, p, buf);
    var r := Step(lim, p, buf);
    if r.Continue? { RunCounts(lim, r.p, r.rest); }
  }

  /** No request is completed unless it keeps the limits. */
  lemma AcceptedWithinLimits(lim: Limits, s: string)
    ensures var o := Run(lim, INITIAL, s);
            o.Done? ==>
              && |o.p.request.headers| <= lim.maxHeaderCount
              && HeaderCost(o.p.request.headers) <= lim.maxHeaderBytes
              && |o.p.request.body| <= lim.maxBody
  {
    hide Run; hide HeaderCost;
    NoCost();
    RunCounts(lim, INITIAL, s);
  }

  lemma NoCost()
    ensures HeaderCost([]) == 0
  {}

  // ------------------------------------------------------------- what was accepted

  /** The framing of every request that was ever completed, whatever bytes came: its
      headers were acceptable, and its body has the announced length. */
  predicate Framed(lim: Limits, p: Parser) {
    match p.state
    case RequestLine => true
    case Headers => true
    case Error => true
    case _ =>
      && Acceptable(lim, p.request.minorVersion, p.request.headers)
      && p.expectedBody == Announced(p.request.headers)
      && (p.state == Complete ==> |p.request.body| == p.expectedBody)
  }

  lemma LineFrames(lim: Limits, p: Parser, line: string)
    requires Inv(lim, p) && LineState(p.state)
    ensures var n := OnLine(lim, p, line); n.Go? ==> Framed(lim, n.p)
  {
    hide ParseRequestLine; hide AllClean; hide AddHeader; hide FinishHeaders; hide Acceptable;
    hide Announced;
    if p.state == State.Headers && line == [] {
      var q := p.(headerBytes := p.headerBytes + 2);
      if q.headerBytes <= lim.maxHeaderBytes { RequestFramingExactly(lim, q); }
    }
  }

  lemma StepFrames(lim: Limits, p: Parser, buf: string)
    requires Inv(lim, p) && p.Active() && Framed(lim, p)
    ensures var r := Step(lim, p, buf);
            && (r.Continue? ==> Framed(lim, r.p))
            && (r.Stop? && r.o.Done? ==> Framed(lim, r.o.p))
  {
    hide OnLine; hide FindCrlf; hide AllClean; hide Acceptable; hide Announced;
    if LineState(p.state) && FindCrlf(buf) < |buf| {
      assert CrlfAt(buf, FindCrlf(buf));
      LineFrames(lim, p, buf[..FindCrlf(buf)]);
    }
  }

  lemma {:induction false} RunFrames(lim: Limits, p: Parser, buf: string)
    requires Inv(lim, p) && p.Active() && Framed(lim, p)
    ensures var o := Run(lim, p, buf); o.Done? ==> Framed(lim, o.p)
    decreases |buf|
  {
    hide Step; hide Inv; hide Framed;
    StepFrames(lim, p, buf);
    var r := Step(lim, p, buf);
    if r.Continue? { RunFrames(lim, r.p, r.rest); }
  }

  /** Whatever bytes arrive, a completed request has a Host if it is of HTTP/1.1, no
      transfer coding, at most one Content-Length, and exactly that many body bytes. */
  lemma CompletedIsFramed(lim: Limits, s: string)
    ensures var o := Run(lim, INITIAL, s);
            o.Done? ==>
              && Acceptable(lim, o.p.request.minorVersion, o.p.request.headers)
              && |o.p.request.body| == Announced(o.p.request.headers)
  {
    hide Run; hide Acceptable; hide Announced;
    RunFrames(lim, INITIAL, s);
  }
}
