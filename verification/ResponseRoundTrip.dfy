/** Parsing what the gateway prints: complete responses, streamed heads, chunk
    frames and the last chunk. */
module ResponseRoundTrip {
  import opened Bytes
  import opened Headers
  import opened Messages
  import opened Printers
  import opened ResponseParser
  import opened ResponseFraming

  // ---------------------------------------------------------------- status line

  /** Statuses that print as three characters, which is what the parser reads. */
  predicate PrintsAsThree(status: int) { -99 <= status <= -10 || 100 <= status <= 999 }

  lemma TwoDigitText(n: nat)
    requires 10 <= n <= 99
    ensures |Digits(10, n)| == 2
  {
    assert Digits(10, n / 10) == [Digit(n / 10)];
  }

  lemma ThreeDigitText(n: nat)
    requires 100 <= n <= 999
    ensures |Digits(10, n)| == 3
  {
    TwoDigitText(n / 10);
  }

  lemma DecimalLength(status: int)
    requires -99 <= status <= 999
    ensures |Decimal(status)| == 3 <==> PrintsAsThree(status)
    ensures |Decimal(status)| <= 3
  {
    if -9 <= status <= 9 { OneDigitText(if status < 0 then -status else status); }
    hide Digits;
    if status <= -10 { TwoDigitText(-status); }
    else if 10 <= status <= 99 { TwoDigitText(status); }
    else if 100 <= status { ThreeDigitText(status); }
  }

  lemma OneDigitText(n: nat)
    requires n <= 9
    ensures |Digits(10, n)| == 1
  {}

  lemma StatusTextRoundTrip(status: int)
    requires PrintsAsThree(status)
    ensures |Decimal(status)| == 3
    ensures ParseStatusText(Decimal(status)) == Some(status)
  {
    DecimalLength(status);
    if status < 0 {
      ValueOfDigits(10, -status);
      NegativeText(Decimal(status), Digits(10, -status));
    } else {
      ValueOfDigits(10, status);
      DigitsStart(status);
      PositiveText(Decimal(status));
    }
  }

  lemma PositiveText(t: string)
    requires |t| == 3 && t[0] != '-' && AllDigits(10, t)
    ensures ParseStatusText(t) == Some(Value(10, t))
  {}

  lemma NegativeText(t: string, digits: string)
    requires |t| == 3 && t == "-" + digits && AllDigits(10, digits)
    ensures ParseStatusText(t) == Some(-(Value(10, digits) as int))
  {
    assert t[1..] == digits;
  }

  lemma DigitsStart(n: nat)
    ensures Digits(10, n)[0] != '-'
  {
    assert DigitValue(10, Digits(10, n)[0]) >= 0;
  }

  /** Where the pieces of a printed status line are. */
  lemma StatusLinePieces(text: string, reason: string)
    ensures var line := "HTTP/1.1 " + text + " " + reason;
            && "HTTP/1." <= line && Find(line, ' ') == 8
            && |line| == 10 + |text| + |reason|
            && line[9 + |text|] == ' '
            && line[9..9 + |text|] == text && line[10 + |text|..] == reason
  {
    var line := "HTTP/1.1 " + text + " " + reason;
    assert line[..9] == "HTTP/1.1 ";
    assert forall j | 0 <= j < 8 :: line[j] == "HTTP/1.1 "[j];
    FindIs(line, ' ', 8);
  }

  lemma StatusLineRoundTrip(status: int, reason: string)
    requires PrintsAsThree(status) && reason != [] && ValidValue(reason)
    ensures ParseStatusLine(StatusLineText(status, reason)) == Some((status, reason))
  {
    StatusLinePieces(Decimal(status), reason);
    StatusTextRoundTrip(status);
  }

  lemma StatusLineNoCr(status: int, reason: string)
    requires ValidValue(reason)
    ensures '\r' !in StatusLineText(status, reason)
  {
    assert '\r' !in Decimal(status) && '\r' !in "HTTP/1.1 " && '\r' !in reason;
  }

  /** A status of one or two characters puts a space where a digit must be. */
  lemma ShortStatusIsRejected(status: int, reason: string)
    requires -99 <= status <= 999 && !PrintsAsThree(status)
    ensures ParseStatusLine(StatusLineText(status, reason)) == None
  {
    var text := Decimal(status);
    StatusLinePieces(text, reason);
    DecimalLength(status);
    var line := StatusLineText(status, reason);
    if |line| >= 13 {
      assert line[9..12][|text|] == ' ';
      SpaceIsNoDigit(line[9..12], |text|);
    }
  }

  lemma SpaceIsNoDigit(t: string, i: nat)
    requires |t| == 3 && i < 3 && t[i] == ' '
    ensures ParseStatusText(t) == None
  {
    assert DigitValue(10, t[i]) == -1;
    if i > 0 { assert t[1..][i - 1] == ' '; }
  }

  // --------------------------------------------------------------------- lines

  lemma TakeLine(lim: Limits, p: Parser, line: string, rest: string)
    requires Inv(lim, p) && LineState(p.state) && '\r' !in line
    ensures Step(lim, p, line + CRLF + rest) == AfterLine(OnLine(lim, p, line), rest)
  {
    var s := line + CRLF + rest;
    FindCrlfLine(line, rest);
    assert s[..|line|] == line && s[|line| + 2..] == rest;
    LineOf(lim, p, s, |line|, line, rest);
  }

  /** What follows a pass. */
  function Resume(lim: Limits, r: Pass): Outcome
    requires r.Continue? ==> Inv(lim, r.p) && r.p.Active()
  {
    if r.Continue? then Run(lim, r.p, r.rest) else r.o
  }

  lemma RunIsResume(lim: Limits, p: Parser, s: string, r: Pass)
    requires Inv(lim, p) && p.Active() && Step(lim, p, s) == r
    ensures Run(lim, p, s) == Resume(lim, r)
  {}

  // -------------------------------------------------------------- header block

  function WithHeaders(p: Parser, hs: seq<Header>): Parser {
    p.(response := p.response.(headers := p.response.headers + Normals(hs)),
       headerBytes := p.headerBytes + |PrintHeaders(hs)|,
       headerCount := p.headerCount + |hs|)
  }

  predicate HeadersFit(lim: Limits, p: Parser, hs: seq<Header>) {
    && p.headerBytes + |PrintHeaders(hs)| <= lim.maxHeaderBytes
    && p.headerCount + |hs| <= lim.maxHeaderCount
  }

  function WithHeader(p: Parser, h: Header, lineBytes: nat): Parser {
    p.(response := p.response.(headers := p.response.headers + [h]),
       headerBytes := p.headerBytes + lineBytes + 2, headerCount := p.headerCount + 1)
  }

  lemma OnHeaderLine(lim: Limits, p: Parser, line: string, parsed: Option<Header>, q: Parser)
    requires Inv(lim, p) && p.state == State.Headers && line != []
    requires parsed == ParseHeaderLine(line)
    requires q == p.(headerBytes := p.headerBytes + |line| + 2)
    requires q.headerBytes <= lim.maxHeaderBytes
    ensures Inv(lim, q) && OnLine(lim, p, line) == AddHeader(lim, q, parsed)
  {
    hide ParseHeaderLine;
    hide AddHeader;
    hide FinishHeaders;
    hide ParseStatusLine;
    hide ParseChunkSize;
  }

  lemma OneHeader(lim: Limits, p: Parser, h: Header, line: string, rest: string)
    requires Inv(lim, p) && p.state == State.Headers && Printable(h) && line == HeaderLine(h)
    requires p.headerBytes + |line| + 2 <= lim.maxHeaderBytes
    requires p.headerCount + 1 <= lim.maxHeaderCount
    ensures Inv(lim, WithHeader(p, Normal(h), |line|))
    ensures Run(lim, p, line + CRLF + rest) == Run(lim, WithHeader(p, Normal(h), |line|), rest)
  {
    hide ParseHeaderLine;
    hide OnLine;
    NoCr(h);
    HeaderLineRoundTrip(h);
    OnHeaderLine(lim, p, line, Some(Normal(h)), p.(headerBytes := p.headerBytes + |line| + 2));
    TakeLine(lim, p, line, rest);
    RunContinues(lim, p, line + CRLF + rest, WithHeader(p, Normal(h), |line|), rest);
  }

  /** A printed header block is read back header by header. */
  lemma {:induction false} HeadersRoundTrip(lim: Limits, p: Parser, hs: seq<Header>, rest: string)
    requires Inv(lim, p) && p.state == State.Headers && AllPrintable(hs) && HeadersFit(lim, p, hs)
    ensures Inv(lim, WithHeaders(p, hs))
    ensures Run(lim, p, PrintHeaders(hs) + rest) == Run(lim, WithHeaders(p, hs), rest)
    decreases |hs|
  {
    hide Step;
    hide Inv;
    hide HeaderLine;
    if hs == [] {
      assert p.response.headers + [] == p.response.headers;
      Concat(rest, [], []);
    } else {
      var h, others := hs[0], hs[1..];
      var line := HeaderLine(h);
      Concat(line + CRLF, PrintHeaders(others), rest);
      OneHeader(lim, p, h, line, PrintHeaders(others) + rest);
      var q := WithHeader(p, Normal(h), |line|);
      HeadersRoundTrip(lim, q, others, rest);
      WithMoreHeaders(p, h, others);
      assert hs == [h] + others;
    }
  }

  lemma WithMoreHeaders(p: Parser, h: Header, others: seq<Header>)
    ensures WithHeaders(p, [h] + others) ==
            WithHeaders(WithHeader(p, Normal(h), |HeaderLine(h)|), others)
  {
    var hs := [h] + others;
    assert hs[1..] == others;
    assert (p.response.headers + [Normal(h)]) + Normals(others)
        == p.response.headers + ([Normal(h)] + Normals(others));
  }

  // ------------------------------------------------------------------- the head

  function PrintedHead(status: int, reason: string, hs: seq<Header>): string {
    StatusLineText(status, reason) + CRLF + PrintHeaders(hs) + CRLF
  }

  predicate HeadFits(lim: Limits, status: int, reason: string, hs: seq<Header>) {
    && |StatusLineText(status, reason)| <= lim.maxStatusLine
    && |PrintedHead(status, reason, hs)| <= lim.maxHeaderBytes
    && |hs| <= lim.maxHeaderCount
  }

  /** The parser at the blank line after a printed head. */
  function AtBlankLine(
    status: int, reason: string, hs: seq<Header>, headRequest: bool := false): Parser
  {
    var p := Initial(headRequest);
    p.(state := State.Headers,
       response := Response(status, reason, Normals(hs), [], false, false),
       headerBytes := |PrintedHead(status, reason, hs)|, headerCount := |hs|)
  }

  /** A printed head brings the parser to its blank line with every field read. */
  lemma HeadRoundTrip(lim: Limits, status: int, reason: string, hs: seq<Header>, rest: string,
                      headRequest: bool := false)
    requires PrintsAsThree(status) && reason != [] && ValidValue(reason) && AllPrintable(hs)
    requires HeadFits(lim, status, reason, hs)
    ensures Inv(lim, AtBlankLine(status, reason, hs, headRequest))
    ensures Run(lim, Initial(headRequest), PrintedHead(status, reason, hs) + rest) ==
            Resume(lim, AfterLine(
              FinishHeaders(lim, AtBlankLine(status, reason, hs, headRequest)), rest))
  {
    var line := StatusLineText(status, reason);
    var body := PrintHeaders(hs) + (CRLF + rest);
    HeadPieces(line, PrintHeaders(hs), rest);
    var q := AfterStatusLine(lim, status, reason, body, headRequest);
    HeadersRoundTrip(lim, q, hs, CRLF + rest);
    assert [] + Normals(hs) == Normals(hs);
    BlankLine(lim, WithHeaders(q, hs), AtBlankLine(status, reason, hs, headRequest), rest);
  }

  lemma AfterStatusLine(lim: Limits, status: int, reason: string, rest: string,
                        headRequest: bool := false)
      returns (q: Parser)
    requires PrintsAsThree(status) && reason != [] && ValidValue(reason)
    requires |StatusLineText(status, reason)| <= lim.maxStatusLine
    ensures q == Initial(headRequest).(
                   response := Response(status, reason, [], [], false, false),
                   state := State.Headers, headerBytes := |StatusLineText(status, reason)| + 2)
    ensures Inv(lim, q)
    ensures Run(lim, Initial(headRequest), StatusLineText(status, reason) + CRLF + rest) ==
            Run(lim, q, rest)
  {
    var line := StatusLineText(status, reason);
    StatusLineRoundTrip(status, reason);
    StatusLineNoCr(status, reason);
    TakeLine(lim, Initial(headRequest), line, rest);
    q := OnLine(lim, Initial(headRequest), line).p;
    hide StatusLineText; hide ParseStatusLine; hide Run; hide Step; hide FinishHeaders;
    RunContinues(lim, Initial(headRequest), line + CRLF + rest, q, rest);
  }

  lemma BlankLine(lim: Limits, p: Parser, q: Parser, rest: string)
    requires Inv(lim, p) && p.state == State.Headers
    requires q == p.(headerBytes := p.headerBytes + 2) && q.headerBytes <= lim.maxHeaderBytes
    ensures Inv(lim, q)
    ensures Run(lim, p, CRLF + rest) == Resume(lim, AfterLine(FinishHeaders(lim, q), rest))
  {
    TakeLine(lim, p, [], rest);
    Concat(CRLF, [], []);
    OnBlank(lim, p, [], q);
    RunIsResume(lim, p, CRLF + rest, AfterLine(FinishHeaders(lim, q), rest));
  }

  lemma OnBlank(lim: Limits, p: Parser, line: string, q: Parser)
    requires Inv(lim, p) && p.state == State.Headers && line == []
    requires q == p.(headerBytes := p.headerBytes + 2) && q.headerBytes <= lim.maxHeaderBytes
    ensures Inv(lim, q) && OnLine(lim, p, line) == FinishHeaders(lim, q)
  {
    hide ParseHeaderLine;
    hide AddHeader;
    hide FinishHeaders;
    hide ParseStatusLine;
    hide ParseChunkSize;
  }

  // --------------------------------------------------------------------- chunks

  /** One chunk frame is read back as its data. */
  lemma ChunkRoundTrip(lim: Limits, p: Parser, data: string, rest: string)
    requires Inv(lim, p) && p.state == ChunkSize && data != []
    requires |p.response.body| + |data| <= lim.maxBody < SIZE_LIMIT
    ensures var q := AppendBody(p.(chunkBytes := |data|), data);
            && Inv(lim, q)
            && Run(lim, p, ChunkFrame(data) + rest) == Run(lim, q, rest)
  {
    var size := Digits(16, |data|);
    var tail := (data + CRLF) + rest;
    Concat(size + CRLF, data + CRLF, rest);
    SizeLine(|data|);
    TakeLine(lim, p, size, tail);
    var mid := p.(chunkBytes := |data|, state := ChunkBody);
    RunContinues(lim, p, size + CRLF + tail, mid, tail);
    ChunkData(lim, mid, data, rest);
    RunContinues(lim, mid, tail, AppendBody(p.(chunkBytes := |data|), data), rest);
  }

  lemma SizeLine(n: nat)
    requires n < SIZE_LIMIT
    ensures '\r' !in Digits(16, n)
    ensures ParseChunkSize(Digits(16, n)) == Some(n)
  {
    var size := Digits(16, n);
    HexLength(n);
    SizeRoundTrip(16, n);
    assert Find(size, ';') == |size|;
    assert size[..|size|] == size;
  }

  lemma ChunkData(lim: Limits, p: Parser, data: string, rest: string)
    requires Inv(lim, p) && p.state == ChunkBody && p.chunkBytes == |data|
    requires |p.response.body| + |data| <= lim.maxBody
    ensures Step(lim, p, (data + CRLF) + rest) ==
            Continue(AppendBody(p, data).(state := ChunkSize), rest)
  {
    var s := (data + CRLF) + rest;
    assert s[..|data|] == data && s[|data| + 2..] == rest;
  }

  /** The frames of a cut body are read back as the whole body. */
  lemma {:induction false} ChunksRoundTrip(
      lim: Limits, p: Parser, parts: seq<string>, rest: string) returns (q: Parser)
    requires Inv(lim, p) && p.state == ChunkSize
    requires forall i | 0 <= i < |parts| :: parts[i] != []
    requires |p.response.body| + |Flatten(parts)| <= lim.maxBody < SIZE_LIMIT
    ensures Inv(lim, q)
    ensures q == AppendBody(p, Flatten(parts)).(chunkBytes := q.chunkBytes)
    ensures Run(lim, p, ChunkFrames(parts) + rest) == Run(lim, q, rest)
    decreases |parts|
  {
    if parts == [] {
      q := p;
      Concat(rest, [], []);
      Concat(p.response.body, [], []);
    } else {
      var data, others := parts[0], parts[1..];
      Concat(ChunkFrame(data), ChunkFrames(others), rest);
      ChunkRoundTrip(lim, p, data, ChunkFrames(others) + rest);
      var mid := AppendBody(p.(chunkBytes := |data|), data);
      q := ChunksRoundTrip(lim, mid, others, rest);
      AppendTwice(p, data, Flatten(others));
    }
  }

  /** The last chunk, with no trailers, completes the message. */
  lemma TerminatorRoundTrip(lim: Limits, p: Parser, rest: string)
    requires Inv(lim, p) && p.state == ChunkSize && p.headerBytes + 2 <= lim.maxHeaderBytes
    ensures Run(lim, p, TERMINATOR + rest) ==
            Done(p.(chunkBytes := 0, state := Complete, headerBytes := p.headerBytes + 2), rest)
  {
    SizeLine(0);
    var tail := CRLF + rest;
    assert TERMINATOR + rest == Digits(16, 0) + CRLF + tail;
    TakeLine(lim, p, Digits(16, 0), tail);
    var mid := p.(chunkBytes := 0, state := Trailers);
    RunContinues(lim, p, TERMINATOR + rest, mid, tail);
    LastLine(lim, mid, rest);
  }

  lemma LastLine(lim: Limits, p: Parser, rest: string)
    requires Inv(lim, p) && p.state == Trailers && p.headerBytes + 2 <= lim.maxHeaderBytes
    ensures Run(lim, p, CRLF + rest) ==
            Done(p.(state := Complete, headerBytes := p.headerBytes + 2), rest)
  {
    TakeLine(lim, p, [], rest);
    Concat(CRLF, [], []);
    OnLastLine(lim, p, []);
    RunIsResume(lim, p, CRLF + rest,
                Stop(Done(p.(state := Complete, headerBytes := p.headerBytes + 2), rest)));
  }

  lemma OnLastLine(lim: Limits, p: Parser, line: string)
    requires Inv(lim, p) && p.state == Trailers && line == []
    requires p.headerBytes + 2 <= lim.maxHeaderBytes
    ensures OnLine(lim, p, line) == Go(p.(state := Complete, headerBytes := p.headerBytes + 2))
  {}
}
