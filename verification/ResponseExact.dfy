/** What each part of the response parser does, said without it: where the body is,
    what is skipped, what is refused, and that the limits hold. */
module ResponseExact {
  import opened Bytes
  import opened Headers
  import opened Messages
  import opened Printers
  import opened ResponseParser
  import opened ResponseFraming
  import opened ResponseRoundTrip

  // ------------------------------------------------------------------- printed heads

  /** A head that the parser can read, with headers in the form it keeps. */
  predicate Readable(lim: Limits, status: int, reason: string, hs: seq<Header>) {
    && PrintsAsThree(status) && reason != [] && ValidValue(reason) && AllClean(hs)
    && HeadFits(lim, status, reason, hs)
  }

  function Codings(hs: seq<Header>): seq<string> { Values(hs, "transfer-encoding") }

  function Lengths(hs: seq<Header>): seq<string> { Values(hs, "content-length") }

  /** The first call of `parse`. */
  function FromStart(lim: Limits, head: bool, s: string): Outcome { Run(lim, Initial(head), s) }

  lemma ReadHead(lim: Limits, status: int, reason: string, hs: seq<Header>, rest: string,
                 head: bool)
    requires Readable(lim, status, reason, hs)
    ensures var q := AtBlankLine(status, reason, hs, head);
            && Inv(lim, q) && q.response == Response(status, reason, hs, [], false, false)
            && q.state == State.Headers && q.headRequest == head
            && FromStart(lim, head, PrintedHead(status, reason, hs) + rest)
                 == Resume(lim, AfterLine(FinishHeaders(lim, q), rest))
  {
    hide Run; hide FinishHeaders; hide AllClean; hide AllPrintable;
    NormalsOfClean(hs);
    HeadRoundTrip(lim, status, reason, hs, rest, head);
  }

  // --------------------------------------------------------- bodies ended by the stream

  /** A final response with neither coding nor length: every byte after the head, up to
      the end of the stream, is the body; and a body over the limit is refused. The
      connection of such a response is never used again. */
  lemma EofBodyIsEverything(lim: Limits, status: int, reason: string, hs: seq<Header>, body: string)
    requires Readable(lim, status, reason, hs) && Codings(hs) == [] && Lengths(hs) == []
    requires !(100 <= status <= 199) && status != 204 && status != 304
    ensures var s := PrintedHead(status, reason, hs) + body;
            var closed, open := OneShot(lim, Initial(false), s, true), OneShot(lim, Initial(false), s, false);
            if |body| <= lim.maxBody then
              && closed.Done? && closed.rest == [] && !closed.p.Reusable()
              && closed.p.response == Response(status, reason, hs, body, true, false)
              && open.More? && open.rest == [] && open.p.response == closed.p.response
            else
              && closed.Failed? && closed.code == BodyTooLarge && open == closed
  {
    hide Values; hide AllClean; hide ValidValue;
    ReadHead(lim, status, reason, hs, body, false);
    var q := AtBlankLine(status, reason, hs, false);
    hide PrintedHead; hide Readable;
    var p := q.(eofDelimited := true, response := q.response.(closeConnection := true),
                state := EofBody);
    assert FinishHeaders(lim, q) == Go(p);
    assert Resume(lim, AfterLine(Go(p), body)) == Run(lim, p, body);
    assert [] + body == body;
  }

  /** The end of the stream completes a body that it ends, and nothing else. */
  lemma EndOfStreamExactly(p: Parser, rest: string)
    requires p.Active()
    ensures var o := Ended(More(p, rest), true);
            if p.state == EofBody then o == Done(p.(state := Complete), rest)
            else o.Failed? && o.code == PrematureEof
    ensures Ended(More(p, rest), false) == More(p, rest)
  {}

  // ------------------------------------------------------------------ counted bodies

  /** A counted body takes exactly the bytes still missing. */
  lemma FixedBodyExactly(lim: Limits, p: Parser, s: string)
    requires Inv(lim, p) && p.state == FixedBody
    ensures var missing := p.expectedBody - |p.response.body|;
            var o := Run(lim, p, s);
            if |s| >= missing then
              o == Done(AppendedTo(p, s[..missing]).(state := Complete), s[missing..])
            else o == More(AppendedTo(p, s), [])
  {
    hide AllClean; hide ValidValue;
    if |s| < p.expectedBody - |p.response.body| { assert s[..|s|] == s && s[|s|..] == []; }
  }

  function AppendedTo(p: Parser, bytes: string): Parser {
    p.(response := p.response.(body := p.response.body + bytes))
  }

  /** A chunk ends in CRLF, and must fit beside the chunks before it. */
  lemma ChunkExactly(lim: Limits, p: Parser, data: string, x: char, y: char, rest: string)
    requires Inv(lim, p) && p.state == ChunkBody && |data| == p.chunkBytes
    ensures var o := Step(lim, p, data + [x, y] + rest);
            if x != '\r' || y != '\n' then o.Stop? && o.o.Failed? && o.o.code == BadResponse
            else if |p.response.body| + |data| > lim.maxBody then
              o.Stop? && o.o.Failed? && o.o.code == BodyTooLarge
            else o == Continue(AppendedTo(p, data).(state := ChunkSize), rest)
  {
    hide StepLine; hide AllClean; hide ValidValue;
    var s := data + [x, y] + rest;
    assert s[..|data|] == data && s[|data|] == x && s[|data| + 1] == y && s[|data| + 2..] == rest;
  }

  lemma PartialChunkWaits(lim: Limits, p: Parser, s: string)
    requires Inv(lim, p) && p.state == ChunkBody && |s| < p.chunkBytes + 2
    ensures Run(lim, p, s) == More(p, s)
  {
    hide StepLine; hide AllClean; hide ValidValue;
  }

  /** A trailer section is read past and leaves the response as it is. */
  lemma {:induction false} TrailerLines(lim: Limits, p: Parser, ts: seq<Header>, rest: string)
    requires Inv(lim, p) && p.state == Trailers && AllPrintable(ts)
    requires p.headerBytes + |PrintHeaders(ts)| + 2 <= lim.maxHeaderBytes
    ensures Run(lim, p, PrintHeaders(ts) + (CRLF + rest)) ==
            Done(p.(state := Complete, headerBytes := p.headerBytes + |PrintHeaders(ts)| + 2), rest)
    decreases |ts|
  {
    hide Run; hide Step; hide HeaderLine; hide Inv;
    if ts == [] {
      Concat(CRLF + rest, [], []);
      LastLine(lim, p, rest);
    } else {
      var h, others := ts[0], ts[1..];
      var line, tail := HeaderLine(h), PrintHeaders(others) + (CRLF + rest);
      Concat(line + CRLF, PrintHeaders(others), CRLF + rest);
      TrailerLine(lim, p, h, line);
      NoCr(h);
      TakeLine(lim, p, line, tail);
      var q := p.(headerBytes := p.headerBytes + |line| + 2);
      RunContinues(lim, p, line + CRLF + tail, q, tail);
      assert AllPrintable(others) by { assert forall i | 0 <= i < |others| :: others[i] == ts[i + 1]; }
      TrailerLines(lim, q, others, rest);
    }
  }

  lemma TrailerLine(lim: Limits, p: Parser, h: Header, line: string)
    requires Inv(lim, p) && p.state == Trailers && Printable(h) && line == HeaderLine(h)
    requires p.headerBytes + |line| + 2 <= lim.maxHeaderBytes
    ensures OnLine(lim, p, line) == Go(p.(headerBytes := p.headerBytes + |line| + 2))
    ensures Inv(lim, p.(headerBytes := p.headerBytes + |line| + 2)) && line != []
  {
    NameHasNoColon(h.name);
    SplitAtColon(h.name, h.value, line);
    hide Find; hide ValidName; hide AllClean; hide ValidValue; hide Trimmed;
  }

  /** The last chunk with any trailers completes the message; the trailers are dropped. */
  lemma TrailersAreDropped(lim: Limits, p: Parser, ts: seq<Header>, rest: string)
    requires Inv(lim, p) && p.state == ChunkSize && AllPrintable(ts)
    requires p.headerBytes + |PrintHeaders(ts)| + 2 <= lim.maxHeaderBytes
    ensures var o := Run(lim, p, "0" + CRLF + PrintHeaders(ts) + CRLF + rest);
            o.Done? && o.rest == rest && o.p.response == p.response
  {
    hide Run; hide Step; hide PrintHeaders;
    SizeLine(0);
    var tail := PrintHeaders(ts) + (CRLF + rest);
    assert Digits(16, 0) == "0";
    Concat("0" + CRLF + PrintHeaders(ts), CRLF, rest);
    Concat("0" + CRLF, PrintHeaders(ts), CRLF + rest);
    TakeLine(lim, p, "0", tail);
    LastChunk(lim, p, "0");
    var q := p.(chunkBytes := 0, state := Trailers);
    RunContinues(lim, p, "0" + CRLF + tail, q, tail);
    TrailerLines(lim, q, ts, rest);
  }

  lemma LastChunk(lim: Limits, p: Parser, line: string)
    requires Inv(lim, p) && p.state == ChunkSize && ParseChunkSize(line) == Some(0)
    ensures var q := p.(chunkBytes := 0, state := Trailers);
            OnLine(lim, p, line) == Go(q) && Inv(lim, q)
  {
    hide ParseChunkSize; hide ParseStatusLine; hide FinishHeaders; hide AddHeader; hide ParseHeaderLine;
  }

  // --------------------------------------------------------------- the framing decision

  /** A status whose response may have a body. */
  predicate MayHaveBody(status: int) { !(100 <= status <= 199) && status != 204 && status != 304 }

  predicate OneChunked(codings: seq<string>) {
    |codings| == 1 && ContainsToken(codings[0], "chunked")
  }

  /** Exactly one Content-Length, and it is a size. */
  predicate OneLength(lengths: seq<string>) { |lengths| == 1 && ParseSize(10, lengths[0]).Some? }

  /** What is wrong with framing headers that are not accepted. */
  function Complaint(codings: seq<string>, lengths: seq<string>): Code {
    if codings != [] && lengths != [] then BadResponse
    else if codings != [] then UnsupportedTransferEncoding
    else if OneLength(lengths) then BodyTooLarge
    else BadResponse
  }

  /** Which body follows a head, for every final response that may have one, and what every
      refusal is called. */
  lemma ResponseFramingExactly(lim: Limits, p: Parser)
    requires Inv(lim, p) && p.state == State.Headers && !p.headRequest
    requires MayHaveBody(p.response.status)
    ensures var n, codings, lengths :=
              FinishHeaders(lim, p), Codings(p.response.headers), Lengths(p.response.headers);
            if OneChunked(codings) && lengths == [] then n == Go(p.(chunked := true, state := ChunkSize))
            else if codings == [] && lengths == [] then
              n == Go(p.(eofDelimited := true, response := p.response.(closeConnection := true),
                         state := EofBody))
            else if codings == [] && OneLength(lengths) && ParseSize(10, lengths[0]).value <= lim.maxBody then
              var size := ParseSize(10, lengths[0]).value;
              n == Go(p.(expectedBody := size, state := if size == 0 then Complete else FixedBody))
            else n.Fail? && n.code == Complaint(codings, lengths)
  {
    hide Values; hide ContainsToken; hide ParseSize; hide AllClean; hide ValidValue;
  }

  /** The body of an announced length is exactly that many bytes, and what follows them is
      left; an announcement over the limit is refused at the blank line. */
  lemma CountedBodyExactly(lim: Limits, status: int, reason: string, hs: seq<Header>, body: string)
    requires Readable(lim, status, reason, hs) && MayHaveBody(status)
    requires Codings(hs) == [] && OneLength(Lengths(hs))
    ensures var o := FromStart(lim, false, PrintedHead(status, reason, hs) + body);
            var n := ParseSize(10, Lengths(hs)[0]).value;
            if n > lim.maxBody then o.Failed? && o.code == BodyTooLarge
            else if |body| < n then
              o.More? && o.rest == [] && o.p.response == Response(status, reason, hs, body, false, false)
            else
              && o.Done? && o.rest == body[n..] && o.p.Reusable()
              && o.p.response == Response(status, reason, hs, body[..n], false, false)
  {
    hide *;
    ReadHead(lim, status, reason, hs, body, false);
    AtBlankIs(status, reason, hs, false);
    CountedOutcome(lim, AtBlankLine(status, reason, hs, false), body);
  }

  lemma AtBlankIs(status: int, reason: string, hs: seq<Header>, head: bool)
    ensures var q := AtBlankLine(status, reason, hs, head);
            !q.eofDelimited && q.response.body == [] && q.headRequest == head
  {}

  lemma CountedOutcome(lim: Limits, q: Parser, body: string)
    requires Inv(lim, q) && q.state == State.Headers && !q.headRequest && !q.eofDelimited
    requires !q.response.closeConnection && MayHaveBody(q.response.status)
    requires Codings(q.response.headers) == [] && OneLength(Lengths(q.response.headers))
    ensures var o := Resume(lim, AfterLine(FinishHeaders(lim, q), body));
            var n := ParseSize(10, Lengths(q.response.headers)[0]).value;
            if n > lim.maxBody then o.Failed? && o.code == BodyTooLarge
            else if |body| < n then
              o.More? && o.rest == [] && o.p.response == q.response.(body := body)
            else
              && o.Done? && o.rest == body[n..] && o.p.Reusable()
              && o.p.response == q.response.(body := body[..n])
  {
    ResponseFramingExactly(lim, q);
    var n := ParseSize(10, Lengths(q.response.headers)[0]).value;
    assert q.response.body == [];
    if 0 < n <= lim.maxBody {
      FixedBodyExactly(lim, q.(expectedBody := n, state := FixedBody), body);
      assert [] + body == body && (|body| >= n ==> [] + body[..n] == body[..n]);
    }
    hide FinishHeaders; hide Run; hide ParseSize; hide Codings; hide Lengths; hide AllClean; hide ValidValue;
  }

  /** A chunked body is the contents of its chunks, one after the other. */
  lemma ChunkedBodyExactly(lim: Limits, status: int, reason: string, hs: seq<Header>,
                           parts: seq<string>, rest: string)
    requires Readable(lim, status, reason, hs) && MayHaveBody(status)
    requires OneChunked(Codings(hs)) && Lengths(hs) == []
    requires (forall i | 0 <= i < |parts| :: parts[i] != []) && |Flatten(parts)| <= lim.maxBody
    requires lim.Valid() && |PrintedHead(status, reason, hs)| + 2 <= lim.maxHeaderBytes
    ensures var o := FromStart(lim, false,
                         PrintedHead(status, reason, hs) + (ChunkFrames(parts) + (TERMINATOR + rest)));
            && o.Done? && o.rest == rest && o.p.Reusable()
            && o.p.response == Response(status, reason, hs, Flatten(parts), false, false)
  {
    hide *;
    var s := ChunkFrames(parts) + (TERMINATOR + rest);
    ReadHead(lim, status, reason, hs, s, false);
    AtBlankIs(status, reason, hs, false);
    HeadBytes(status, reason, hs);
    ChunkedOutcome(lim, AtBlankLine(status, reason, hs, false), parts, rest);
  }

  lemma HeadBytes(status: int, reason: string, hs: seq<Header>)
    ensures AtBlankLine(status, reason, hs, false).headerBytes == |PrintedHead(status, reason, hs)|
  {
    hide PrintHeaders; hide StatusLineText;
  }

  lemma BodyLimit(lim: Limits)
    requires lim.Valid()
    ensures lim.maxBody < SIZE_LIMIT
  {}

  lemma ChunkedOutcome(lim: Limits, q: Parser, parts: seq<string>, rest: string)
    requires Inv(lim, q) && q.state == State.Headers && !q.headRequest && !q.eofDelimited
    requires !q.response.closeConnection && MayHaveBody(q.response.status) && q.response.body == []
    requires OneChunked(Codings(q.response.headers)) && Lengths(q.response.headers) == []
    requires (forall i | 0 <= i < |parts| :: parts[i] != []) && |Flatten(parts)| <= lim.maxBody
    requires lim.Valid() && q.headerBytes + 2 <= lim.maxHeaderBytes
    ensures var o := Resume(lim, AfterLine(FinishHeaders(lim, q), ChunkFrames(parts) + (TERMINATOR + rest)));
            && o.Done? && o.rest == rest && o.p.Reusable()
            && o.p.response == q.response.(body := Flatten(parts))
  {
    var start := q.(chunked := true, state := ChunkSize);
    ChunkedStarts(lim, q, start, ChunkFrames(parts) + (TERMINATOR + rest));
    hide FinishHeaders; hide Run; hide OneChunked; hide Codings; hide Lengths; hide Inv;
    hide ChunkFrames; hide Limits.Valid; hide Flatten; hide AfterLine; hide Resume;
    FromFirstChunk(lim, start, parts, rest);
  }

  lemma ChunkedStarts(lim: Limits, q: Parser, start: Parser, s: string)
    requires Inv(lim, q) && q.state == State.Headers && !q.headRequest
    requires MayHaveBody(q.response.status)
    requires OneChunked(Codings(q.response.headers)) && Lengths(q.response.headers) == []
    requires start == q.(chunked := true, state := ChunkSize)
    ensures Inv(lim, start)
    ensures Resume(lim, AfterLine(FinishHeaders(lim, q), s)) == Run(lim, start, s)
  {
    ResponseFramingExactly(lim, q);
    hide FinishHeaders; hide Run; hide OneChunked; hide Codings; hide Lengths; hide AllClean;
    hide ValidValue;
  }

  lemma FromFirstChunk(lim: Limits, start: Parser, parts: seq<string>, rest: string)
    requires Inv(lim, start) && start.state == ChunkSize && start.response.body == []
    requires (forall i | 0 <= i < |parts| :: parts[i] != []) && |Flatten(parts)| <= lim.maxBody
    requires lim.Valid() && start.headerBytes + 2 <= lim.maxHeaderBytes
    ensures var o := Run(lim, start, ChunkFrames(parts) + (TERMINATOR + rest));
            && o.Done? && o.rest == rest && o.p.state == Complete
            && o.p.eofDelimited == start.eofDelimited
            && o.p.response == start.response.(body := Flatten(parts))
  {
    BodyLimit(lim);
    hide Run; hide Inv; hide ChunkFrames; hide Limits.Valid;
    var last := ChunksRoundTrip(lim, start, parts, TERMINATOR + rest);
    TerminatorRoundTrip(lim, last, rest);
    Concat([], Flatten(parts), []);
    assert [] + Flatten(parts) == Flatten(parts);
  }

  // -------------------------------------------------- interim, upgrade and no body

  /** Framing headers that contradict nothing: no coding, or one chunked coding and no
      length. */
  predicate Consistent(hs: seq<Header>) {
    Codings(hs) == [] || (OneChunked(Codings(hs)) && Lengths(hs) == [])
  }

  /** An interim response is skipped, headers and all: what follows is read as if it had
      never been there. */
  lemma InterimIsSkipped(lim: Limits, status: int, reason: string, hs: seq<Header>, rest: string,
                         head: bool)
    requires Readable(lim, status, reason, hs) && Consistent(hs)
    requires 100 <= status <= 199 && status != 101
    ensures FromStart(lim, head, PrintedHead(status, reason, hs) + rest) == FromStart(lim, head, rest)
  {
    hide Values; hide AllClean; hide ValidValue; hide Run; hide ContainsToken;
    ReadHead(lim, status, reason, hs, rest, head);
    var q := AtBlankLine(status, reason, hs, head);
    hide PrintedHead; hide Readable;
    assert FinishHeaders(lim, q) == Go(Initial(head));
  }

  /** Switching protocols is refused. */
  lemma UpgradeIsRefused(lim: Limits, reason: string, hs: seq<Header>, rest: string, head: bool)
    requires Readable(lim, 101, reason, hs) && Consistent(hs)
    ensures var o := FromStart(lim, head, PrintedHead(101, reason, hs) + rest);
            o.Failed? && o.code == UnsupportedTransferEncoding
  {
    hide Values; hide AllClean; hide ValidValue; hide Run; hide ContainsToken;
    ReadHead(lim, 101, reason, hs, rest, head);
    hide PrintedHead; hide Readable;
  }

  /** The answer to a HEAD request, and a 204 or 304, ends with its head, whatever length
      it announces. */
  lemma NoBodyEndsAtHead(lim: Limits, status: int, reason: string, hs: seq<Header>, rest: string,
                         head: bool)
    requires Readable(lim, status, reason, hs) && Consistent(hs) && !(100 <= status <= 199)
    requires head || status == 204 || status == 304
    ensures EndsThere(FromStart(lim, head, PrintedHead(status, reason, hs) + rest),
                      Response(status, reason, hs, [], false, false), rest)
  {
    hide *;
    ReadHead(lim, status, reason, hs, rest, head);
    NoBodyOutcome(lim, AtBlankLine(status, reason, hs, head), rest);
  }

  predicate EndsThere(o: Outcome, r: Response, rest: string) {
    o.Done? && o.rest == rest && o.p.response == r
  }

  lemma NoBodyOutcome(lim: Limits, q: Parser, rest: string)
    requires Inv(lim, q) && q.state == State.Headers && Consistent(q.response.headers)
    requires !(100 <= q.response.status <= 199)
    requires q.headRequest || q.response.status == 204 || q.response.status == 304
    ensures EndsThere(Resume(lim, AfterLine(FinishHeaders(lim, q), rest)), q.response, rest)
  {
    hide Values; hide AllClean; hide ValidValue; hide ContainsToken; hide ParseSize; hide Run;
    assert FinishHeaders(lim, q) == Go(q.(state := Complete));
  }

  // ------------------------------------------------------------------------- reuse

  /** Only a body that the stream ends marks the connection. */
  predicate Marked(p: Parser) {
    if p.state == EofBody then p.eofDelimited else !p.eofDelimited && !p.response.closeConnection
  }

  lemma LineMarks(lim: Limits, p: Parser, line: string)
    requires Inv(lim, p) && LineState(p.state) && Marked(p)
    ensures var n := OnLine(lim, p, line); n.Go? ==> Marked(n.p)
  {
    hide ParseStatusLine; hide ParseChunkSize; hide ParseHeaderLine; hide AllClean; hide ValidValue;
    hide FinishHeaders;
    if p.state == State.Headers && line == [] {
      var q := p.(headerBytes := p.headerBytes + 2);
      if q.headerBytes <= lim.maxHeaderBytes { BlankMarks(lim, q); }
    }
  }

  lemma BlankMarks(lim: Limits, q: Parser)
    requires Inv(lim, q) && q.state == State.Headers && Marked(q)
    ensures var n := FinishHeaders(lim, q); n.Go? ==> Marked(n.p)
  {
    hide ParseSize; hide Values; hide ContainsToken; hide AllClean; hide ValidValue;
  }

  lemma StepMarks(lim: Limits, p: Parser, buf: string)
    requires Inv(lim, p) && p.Active() && Marked(p)
    ensures var r := Step(lim, p, buf);
            && (r.Continue? ==> Marked(r.p))
            && (r.Stop? && !r.o.Failed? ==> Marked(r.o.p))
  {
    hide OnLine; hide FindCrlf; hide AllClean; hide ValidValue;
    if LineState(p.state) && FindCrlf(buf) < |buf| {
      assert CrlfAt(buf, FindCrlf(buf));
      LineMarks(lim, p, buf[..FindCrlf(buf)]);
    }
  }

  lemma {:induction false} RunMarks(lim: Limits, p: Parser, buf: string)
    requires Inv(lim, p) && p.Active() && Marked(p)
    ensures var o := Run(lim, p, buf); !o.Failed? ==> Marked(o.p)
    decreases |buf|
  {
    hide Step; hide Inv; hide Marked;
    StepMarks(lim, p, buf);
    var r := Step(lim, p, buf);
    if r.Continue? { RunMarks(lim, r.p, r.rest); }
  }

  /** A connection is reported reusable exactly when its response was complete before the
      end of the stream, whatever its headers say. */
  lemma ReuseExactly(lim: Limits, head: bool, s: string, closed: bool)
    ensures var o := OneShot(lim, Initial(head), s, closed);
            o.Done? ==> (o.p.Reusable() <==> FromStart(lim, head, s).Done?)
  {
    hide Run;
    RunMarks(lim, Initial(head), s);
  }

  /** A response that asks for its connection to be closed. */
  const CLOSING: seq<Header> := [Header("connection", "close"), Header("content-length", "0")]

  /** So a declared close is not heard. */
  lemma CloseIsNotHeard(lim: Limits, rest: string)
    requires Readable(lim, 200, "OK", CLOSING)
    ensures var o := FromStart(lim, false, PrintedHead(200, "OK", CLOSING) + rest);
            o.Done? && o.p.response.headers == CLOSING && o.p.Reusable()
  {
    ClosingFraming();
    hide *;
    CountedBodyExactly(lim, 200, "OK", CLOSING, rest);
  }

  lemma ClosingFraming()
    ensures Codings(CLOSING) == [] && Lengths(CLOSING) == ["0"]
    ensures OneLength(["0"]) && ParseSize(10, "0") == Some(0) && MayHaveBody(200)
  {
    LowerNames();
    assert CLOSING[1..] == [CLOSING[1]] && [CLOSING[1]][1..] == [];
    SizeRoundTrip(10, 0);
    assert Digits(10, 0) == "0";
  }

  // ------------------------------------------------------------------------- limits

  /** A status line or head over its limit, or one header too many. */
  predicate Oversized(lim: Limits, p: Parser, line: string) {
    match p.state
    case StatusLine => |line| > lim.maxStatusLine
    case Headers =>
      || p.headerBytes + |line| + 2 > lim.maxHeaderBytes
      || (line != [] && p.headerCount >= lim.maxHeaderCount)
    case Trailers => p.headerBytes + |line| + 2 > lim.maxHeaderBytes
    case _ => false
  }

  /** Such a line is refused under that name. */
  lemma OversizedIsRefused(lim: Limits, p: Parser, line: string, rest: string)
    requires Inv(lim, p) && LineState(p.state) && '\r' !in line && Oversized(lim, p, line)
    ensures var o := Run(lim, p, line + CRLF + rest); o.Failed? && o.code == HeaderTooLarge
  {
    TakeLine(lim, p, line, rest);
    OversizedLine(lim, p, line);
    hide OnLine; hide Step;
  }

  lemma OversizedLine(lim: Limits, p: Parser, line: string)
    requires Inv(lim, p) && LineState(p.state) && Oversized(lim, p, line)
    ensures OnLine(lim, p, line).Fail? && OnLine(lim, p, line).code == HeaderTooLarge
  {
    hide ParseStatusLine; hide ParseHeaderLine; hide FinishHeaders; hide ParseChunkSize; hide AllClean;
    hide ValidValue;
  }

  /** What the parser has counted covers what it holds. */
  predicate Counted(lim: Limits, p: Parser) {
    match p.state
    case StatusLine => p.response.headers == [] && p.headerCount == 0
    case Error => true
    case _ =>
      && p.headerCount == |p.response.headers| <= lim.maxHeaderCount
      && HeaderCost(p.response.headers) <= p.headerBytes
      && (p.state != Headers ==> p.headerBytes <= lim.maxHeaderBytes)
  }

  lemma HeaderLineCounts(lim: Limits, p: Parser, line: string)
    requires Inv(lim, p) && p.state == State.Headers && Counted(lim, p) && line != []
    ensures var n := OnLine(lim, p, line); n.Go? ==> Counted(lim, n.p)
  {
    hide ParseHeaderLine; hide FinishHeaders; hide AllClean;
    if OnLine(lim, p, line).Go? {
      HeaderLineLength(line);
      CostSnoc(p.response.headers, ParseHeaderLine(line).value);
    }
  }

  lemma BlankLineCounts(lim: Limits, p: Parser)
    requires Inv(lim, p) && p.state == State.Headers && Counted(lim, p)
    requires p.headerBytes <= lim.maxHeaderBytes
    ensures var n := FinishHeaders(lim, p); n.Go? ==> Counted(lim, n.p)
  {
    hide ParseSize; hide Values; hide ContainsToken; hide AllClean; hide HeaderCost;
  }

  lemma LineCounts(lim: Limits, p: Parser, line: string)
    requires Inv(lim, p) && LineState(p.state) && Counted(lim, p)
    ensures var n := OnLine(lim, p, line); n.Go? ==> Counted(lim, n.p)
  {
    hide FinishHeaders; hide ParseStatusLine; hide ParseChunkSize; hide AllClean; hide AddHeader;
    if p.state == State.Headers {
      if line == [] {
        var q := p.(headerBytes := p.headerBytes + 2);
        if q.headerBytes <= lim.maxHeaderBytes { BlankLineCounts(lim, q); }
      } else {
        HeaderLineCounts(lim, p, line);
      }
    }
  }

  lemma StepCounts(lim: Limits, p: Parser, buf: string)
    requires Inv(lim, p) && p.Active() && Counted(lim, p)
    ensures var r := Step(lim, p, buf);
            && (r.Continue? ==> Counted(lim, r.p))
            && (r.Stop? && !r.o.Failed? ==> Counted(lim, r.o.p))
  {
    hide OnLine; hide FindCrlf; hide AllClean; hide HeaderCost;
    if LineState(p.state) && FindCrlf(buf) < |buf| {
      assert CrlfAt(buf, FindCrlf(buf));
      LineCounts(lim, p, buf[..FindCrlf(buf)]);
    }
  }

  lemma {:induction false} RunCounts(lim: Limits, p: Parser, buf: string)
    requires Inv(lim, p) && p.Active() && Counted(lim, p)
    ensures var o := Run(lim, p, buf); !o.Failed? ==> Counted(lim, o.p)
    decreases |buf|
  {
    hide Step; hide Inv; hide Counted;
    StepCounts(lim, p, buf);
    var r := Step(lim, p, buf);
    if r.Continue? { RunCounts(lim, r.p, r.rest); }
  }

  /** No response gets past its headers unless it keeps the limits. */
  lemma AcceptedWithinLimits(lim: Limits, head: bool, s: string)
    ensures var o := FromStart(lim, head, s);
            !o.Failed? && o.p.HeaderComplete() ==>
              && |o.p.response.headers| <= lim.maxHeaderCount
              && HeaderCost(o.p.response.headers) <= lim.maxHeaderBytes
              && |o.p.response.body| <= lim.maxBody
  {
    hide Run; hide HeaderCost;
    assert HeaderCost([]) == 0 by { NoCost(); }
    RunCounts(lim, Initial(head), s);
  }

  lemma NoCost()
    ensures HeaderCost([]) == 0
  {}
}
