/** Printing a response and parsing it again, whole or streamed in chunks. */
module ResponseTheorems {
  import opened Bytes
  import opened Headers
  import opened Messages
  import opened Printers
  import opened ResponseParser
  import opened ResponseFraming
  import opened ResponseRoundTrip

  // ------------------------------------------------------------ whole responses

  /** The headers a parser finds in a printed response: the original ones without
      Content-Length and Connection, in order, and the two rebuilt ones. */
  function ReparsedHeaders(r: Response): seq<Header> {
    Keep(r.headers, RESPONSE_OWN)
      + [Header("content-length", Digits(10, |r.body|)),
         Header("connection", if r.closeConnection then "close" else "keep-alive")]
  }

  lemma PrintedNormals(r: Response)
    requires AllClean(r.headers)
    ensures AllPrintable(PrintedHeaders(r))
    ensures Normals(PrintedHeaders(r)) == ReparsedHeaders(r)
  {
    var kept, tail := Keep(r.headers, RESPONSE_OWN), ResponseTail(r);
    KeepClean(r.headers, RESPONSE_OWN);
    NormalsOfClean(kept);
    NormalsAppend(kept, tail);
    LowerCapitals();
    NamesAreValid();
    ValuesAreValid(|r.body|);
    NormalsOfTwo(tail[0], tail[1]);
  }

  lemma NormalsOfTwo(a: Header, b: Header)
    ensures Normals([a, b]) == [Normal(a), Normal(b)]
  {
    assert [a, b][1..] == [b] && [b][1..] == [];
  }

  lemma FramingOfPrinted(r: Response)
    requires Values(r.headers, "transfer-encoding") == []
    ensures Values(ReparsedHeaders(r), "transfer-encoding") == []
    ensures Values(ReparsedHeaders(r), "content-length") == [Digits(10, |r.body|)]
  {
    hide Digits;
    LowerNames();
    var kept := Keep(r.headers, RESPONSE_OWN);
    var length := Header("content-length", Digits(10, |r.body|));
    var connection := Header("connection", if r.closeConnection then "close" else "keep-alive");
    assert ReparsedHeaders(r) == kept + [length, connection];
    forall i | 0 <= i < |kept| ensures kept[i].name != "transfer-encoding" {
      assert kept[i] in r.headers;
    }
    NoValues(kept, "transfer-encoding");
    NoValues(kept, "content-length");
    ValuesAppend(kept, [length, connection], "transfer-encoding");
    ValuesAppend(kept, [length, connection], "content-length");
    assert [length, connection][1..] == [connection] && [connection][1..] == [];
    NoValues([connection], "content-length");
    NoValues([length, connection], "transfer-encoding");
  }

  predicate ResponseFits(lim: Limits, r: Response) {
    && lim.Valid()
    && HeadFits(lim, r.status, r.reason, PrintedHeaders(r))
    && |r.body| <= lim.maxBody
  }

  /** What the parser makes of a printed response. */
  predicate ParsedBack(r: Response, o: Outcome, suffix: string) {
    && o.Done? && o.rest == suffix && o.p.Reusable()
    && o.p.response == Response(r.status, r.reason, ReparsedHeaders(r), r.body, false, false)
  }

  /** Parsing a printed response followed by any bytes gives the same status,
      reason, headers and body and leaves exactly those bytes; with status 204 or
      304, if and only if there is no body. */
  lemma PrintedResponseParsesBack(lim: Limits, r: Response, suffix: string)
    requires AllClean(r.headers) && Values(r.headers, "transfer-encoding") == []
    requires 200 <= r.status <= 999 && Serialize(r, false).Some? && ResponseFits(lim, r)
    ensures var o := Run(lim, Initial(false), Serialize(r, false).value + suffix);
            ParsedBack(r, o, suffix) <==> (!NoBodyStatus(r.status) || r.body == [])
  {
    hide Run; hide FinishHeaders; hide StatusLineText; hide PrintedHeaders; hide ReparsedHeaders;
    PrintedNormals(r);
    HeadRoundTrip(lim, r.status, r.reason, PrintedHeaders(r), r.body + suffix);
    Concat(ResponseHead(r), r.body, suffix);
    var q := AtBlankLine(r.status, r.reason, PrintedHeaders(r));
    FramingOfPrinted(r);
    SizeRoundTrip(10, |r.body|);
    CountedBody(lim, r, q, suffix);
  }

  lemma CountedBody(lim: Limits, r: Response, q: Parser, suffix: string)
    requires Inv(lim, q) && q.state == State.Headers && !q.headRequest && !q.eofDelimited
    requires 200 <= r.status <= 999 && |r.body| <= lim.maxBody
    requires q.response == Response(r.status, r.reason, ReparsedHeaders(r), [], false, false)
    requires Values(q.response.headers, "transfer-encoding") == []
    requires Values(q.response.headers, "content-length") == [Digits(10, |r.body|)]
    requires ParseSize(10, Digits(10, |r.body|)) == Some(|r.body|)
    ensures ParsedBack(r, Resume(lim, AfterLine(FinishHeaders(lim, q), r.body + suffix)), suffix)
            <==> (!NoBodyStatus(r.status) || r.body == [])
  {
    hide ReparsedHeaders; hide Digits; hide ParseSize; hide Values; hide AllClean;
    if NoBodyStatus(r.status) {
      assert r.body == [] ==> r.body + suffix == suffix;
    } else if r.body == [] {
      Concat(suffix, [], []);
    } else {
      var body := q.(expectedBody := |r.body|, state := FixedBody);
      FixedPass(lim, body, r.body + suffix, r.body, suffix);
      Concat(r.body, [], []);
    }
  }

  /** The boundary of FragmentationIndependence is real: with a limit of 15, the
      status line "HTTP/1.1 200 OK" is accepted when it arrives whole and rejected
      when a read stops after its CR. */
  lemma BoundaryExample(rest: string)
    ensures var lim, line := Limits(15, 1000, 10, 1000), StatusLineText(200, "OK");
            && line == "HTTP/1.1 200 OK"
            && Step(lim, Initial(false), line + CRLF + rest).Continue?
            && TooLarge(Run(lim, Initial(false), line + "\r"))
  {
    hide Step; hide ParseStatusLine; hide OnLine;
    var lim, line := Limits(15, 1000, 10, 1000), StatusLineText(200, "OK");
    ExampleLine();
    StatusLineNoCr(200, "OK");
    TakeLine(lim, Initial(false), line, rest);
    ExampleAccepted(lim, line);
    FindCrlfLine(line, rest);
    BoundaryHere(lim, Initial(false), line + CRLF + rest);
    assert (line + CRLF + rest)[..16] == line + "\r";
  }

  lemma ExampleLine()
    ensures StatusLineText(200, "OK") == "HTTP/1.1 200 OK"
    ensures ParseStatusLine(StatusLineText(200, "OK")).Some?
  {
    hide ParseStatusLine;
    StatusLineRoundTrip(200, "OK");
    assert Digits(10, 20) == "20" && Digits(10, 200) == "200";
  }

  lemma ExampleAccepted(lim: Limits, line: string)
    requires ParseStatusLine(line).Some? && |line| <= lim.maxStatusLine
    ensures var n := OnLine(lim, Initial(false), line); n.Go? && n.p.state == State.Headers
  {
    hide ParseStatusLine; hide ParseHeaderLine; hide FinishHeaders; hide ParseChunkSize;
  }

  // ---------------------------------------------------------- streamed responses

  /** The headers a parser finds in a streamed response: the end-to-end headers of
      the upstream response, in order, and the three of the gateway. */
  function RestreamedHeaders(hs: seq<Header>, requestId: string): seq<Header> {
    EndToEnd(hs) + [Header("x-request-id", requestId),
                    Header("transfer-encoding", "chunked"), Header("connection", "keep-alive")]
  }

  lemma StreamedNormals(hs: seq<Header>, requestId: string)
    requires AllClean(hs) && ValidValue(requestId) && Trimmed(requestId)
    ensures AllPrintable(StreamedHeaders(hs, requestId))
    ensures Normals(StreamedHeaders(hs, requestId)) == RestreamedHeaders(hs, requestId)
  {
    var passed, tail := EndToEnd(hs), StreamingTail(requestId);
    KeepAll(passed, {"content-length", "connection", "transfer-encoding"});
    NormalsOfClean(passed);
    NormalsAppend(passed, tail);
    StreamingTailNormals(requestId);
  }

  lemma StreamingTailNormals(requestId: string)
    requires ValidValue(requestId) && Trimmed(requestId)
    ensures var tail := StreamingTail(requestId);
            && AllPrintable(tail)
            && Normals(tail) == [Header("x-request-id", requestId),
                                 Header("transfer-encoding", "chunked"),
                                 Header("connection", "keep-alive")]
  {
    var tail := StreamingTail(requestId);
    LowerCapitals();
    NamesAreValid();
    ValuesAreValid(0);
    assert tail[1..] == [tail[1], tail[2]];
    NormalsOfTwo(tail[1], tail[2]);
  }

  lemma FramingOfStreamed(hs: seq<Header>, requestId: string)
    ensures Values(RestreamedHeaders(hs, requestId), "transfer-encoding") == ["chunked"]
    ensures Values(RestreamedHeaders(hs, requestId), "content-length") == []
  {
    LowerNames();
    var passed := EndToEnd(hs);
    var id := Header("x-request-id", requestId);
    var chunked, connection :=
      Header("transfer-encoding", "chunked"), Header("connection", "keep-alive");
    var tail := [id, chunked, connection];
    ValuesAppend(passed, tail, "transfer-encoding");
    ValuesAppend(passed, tail, "content-length");
    NoValues(passed, "transfer-encoding");
    NoValues(passed, "content-length");
    NoValues(tail, "content-length");
    assert tail[1..] == [chunked, connection] && [chunked, connection][1..] == [connection];
    NoValues([connection], "transfer-encoding");
  }

  /** The limits of the parser at the other end leave room for the response. */
  predicate StreamFits(lim: Limits, r: Response, requestId: string, bodyBytes: nat) {
    && lim.Valid()
    && HeadFits(lim, r.status, r.reason, StreamedHeaders(r.headers, requestId))
    && |StreamingHead(r, requestId)| + 2 <= lim.maxHeaderBytes
    && bodyBytes <= lim.maxBody
  }

  /** Everything a streamed response puts on the wire. */
  function StreamedBytes(r: Response, requestId: string, parts: seq<string>): string {
    StreamingHead(r, requestId) + (ChunkFrames(parts) + TERMINATOR)
  }

  predicate Decoded(r: Response, requestId: string, body: string, o: Outcome, suffix: string) {
    && o.Done? && o.rest == suffix
    && o.p.response ==
       Response(r.status, r.reason, RestreamedHeaders(r.headers, requestId), body, false, false)
  }

  /** A streamed response decodes to the same status, reason, end-to-end headers
      and body, and leaves exactly the bytes after it, if and only if its status
      prints as three characters and is neither 204 nor 304. (The parser never
      completes a 1xx response, so no such status is streamed.) */
  lemma StreamedResponseDecodes(
      lim: Limits, r: Response, requestId: string, parts: seq<string>, suffix: string)
    requires AllClean(r.headers) && r.reason != [] && ValidValue(r.reason)
    requires -99 <= r.status <= 999 && !(100 <= r.status <= 199)
    requires ValidValue(requestId) && Trimmed(requestId)
    requires forall i | 0 <= i < |parts| :: parts[i] != []
    requires StreamFits(lim, r, requestId, |Flatten(parts)|)
    ensures Decoded(r, requestId, Flatten(parts),
                    Run(lim, Initial(false), StreamedBytes(r, requestId, parts) + suffix), suffix)
            <==> (PrintsAsThree(r.status) && r.status != 204 && r.status != 304)
  {
    hide Run; hide FinishHeaders; hide StatusLineText; hide StreamedHeaders;
    hide RestreamedHeaders; hide ChunkFrames; hide Step;
    var body := ChunkFrames(parts) + TERMINATOR;
    var hs := StreamedHeaders(r.headers, requestId);
    Concat(StreamingHead(r, requestId), body, suffix);
    if PrintsAsThree(r.status) {
      StreamedNormals(r.headers, requestId);
      HeadRoundTrip(lim, r.status, r.reason, hs, body + suffix);
      FramingOfStreamed(r.headers, requestId);
      var q := AtBlankLine(r.status, r.reason, hs);
      ChunkedBody(lim, r, requestId, parts, q, suffix);
    } else {
      RejectedHead(lim, r, hs, body + suffix);
    }
  }

  lemma RejectedHead(lim: Limits, r: Response, hs: seq<Header>, rest: string)
    requires -99 <= r.status <= 999 && !PrintsAsThree(r.status) && ValidValue(r.reason)
    ensures Run(lim, Initial(false), PrintedHead(r.status, r.reason, hs) + rest).Failed?
  {
    hide FinishHeaders;
    var line := StatusLineText(r.status, r.reason);
    HeadPieces(line, PrintHeaders(hs), rest);
    ShortStatusIsRejected(r.status, r.reason);
    StatusLineNoCr(r.status, r.reason);
    TakeLine(lim, Initial(false), line, PrintHeaders(hs) + (CRLF + rest));
    NoHead(lim, line);
  }

  lemma NoHead(lim: Limits, line: string)
    requires ParseStatusLine(line) == None
    ensures OnLine(lim, Initial(false), line).Fail?
  {
    hide ParseStatusLine; hide FinishHeaders; hide ParseHeaderLine; hide ParseChunkSize;
  }

  lemma ChunkedBody(lim: Limits, r: Response, requestId: string, parts: seq<string>,
                    q: Parser, suffix: string)
    requires Inv(lim, q) && q.state == State.Headers && !q.headRequest
    requires -99 <= r.status <= 999 && !(100 <= r.status <= 199) && lim.Valid()
    requires q.response == Response(r.status, r.reason, RestreamedHeaders(r.headers, requestId),
                                    [], false, false)
    requires Values(q.response.headers, "transfer-encoding") == ["chunked"]
    requires Values(q.response.headers, "content-length") == []
    requires forall i | 0 <= i < |parts| :: parts[i] != []
    requires |Flatten(parts)| <= lim.maxBody && q.headerBytes + 2 <= lim.maxHeaderBytes
    ensures Decoded(r, requestId, Flatten(parts),
                    Resume(lim, AfterLine(FinishHeaders(lim, q),
                                          (ChunkFrames(parts) + TERMINATOR) + suffix)), suffix)
            <==> (r.status != 204 && r.status != 304)
  {
    hide Run; hide Step; hide RestreamedHeaders; hide Values; hide ContainsToken; hide AllClean;
    ChunkedIsAToken();
    if r.status != 204 && r.status != 304 {
      var start := q.(chunked := true, state := ChunkSize);
      Concat(ChunkFrames(parts), TERMINATOR, suffix);
      var last := ChunksRoundTrip(lim, start, parts, TERMINATOR + suffix);
      TerminatorRoundTrip(lim, last, suffix);
      Concat(Flatten(parts), [], []);
    }
  }
}
