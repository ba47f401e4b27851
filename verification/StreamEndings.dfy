/** What every run of `forwardResponse` has read and written when it ends, however it
    ends; and when what it wrote does not begin with a head. */
module StreamEndings {
  import opened Bytes
  import opened Headers
  import opened Messages
  import opened Printers
  import opened ResponseParser
  import opened ResponseFraming
  import opened ResponseRoundTrip
  import opened ResponseTheorems
  import opened ResponseExact
  import opened Streaming

  // ---------------------------------------------------------------------- one parse

  /** The head, if it was sent, and the body in chunks. */
  function Partial(started: bool, r: Response, requestId: string, parts: seq<string>): string {
    (if started then StreamingHead(r, requestId) else []) + ChunkFrames(parts)
  }

  predicate NoneEmpty(parts: seq<string>) { forall i | 0 <= i < |parts| :: parts[i] != [] }

  /** The stream holds the head and these chunks, and no terminator. */
  predicate Wrote(s: Stream, r: Response, requestId: string, parts: seq<string>) {
    NoneEmpty(parts) && Flatten(s.written) == Partial(s.started, r, requestId, parts)
  }

  lemma SentWrote(s: Stream, p: Parser, requestId: string, parts: seq<string>)
    requires BodyAfterHead(p) && p.state != Error && Sent(s, p, requestId, parts)
    ensures Wrote(s, p.response, requestId, parts)
  {
    hide StreamingHead;
    FlattenNothing(parts);
    Concat([], [], []);
  }

  lemma FlattenNothing(parts: seq<string>)
    requires NoneEmpty(parts)
    ensures Flatten(parts) == [] <==> parts == []
  {}

  /** Before the headers are complete there is no body. */
  predicate BodyAfterHead(p: Parser) { !p.HeaderComplete() && p.state != Error ==> p.response.body == [] }

  lemma InvHasBodyAfterHead(lim: Limits, p: Parser)
    requires Inv(lim, p) && p.state != Error
    ensures BodyAfterHead(p)
  {}

  /** A failing parse, or a client that is gone, leaves the head and whole chunks. */
  lemma PumpWrote(lim: Limits, p: Parser, buf: string, s: Stream, requestId: string,
                  parts: seq<string>) returns (more: seq<string>)
    requires Inv(lim, p) && p.Active() && Sent(s, p, requestId, parts)
    requires var o := Run(lim, p, buf); o.Failed? || !Pump(s, o.p, requestId).alive
    ensures var o := Run(lim, p, buf);
            var sent := Pump(s, o.p, requestId);
            && Wrote(sent.s, o.p.response, requestId, more)
            && (o.Failed? ==> sent.s.started == s.started)
            && (sent.alive ==> Flatten(more) == o.p.response.body)
            && (!sent.alive ==> sent.s.budget == 0 && Flatten(more) <= o.p.response.body
                                && (!sent.s.started ==> more == []))
  {
    hide Run; hide StreamingHead; hide ChunkFrame; hide Inv;
    var q := Run(lim, p, buf).p;
    assert BodyAfterHead(p) by { InvHasBodyAfterHead(lim, p); }
    SentWrote(s, p, requestId, parts);
    if Run(lim, p, buf).Failed? { FailedIsError(lim, p, buf); }
    if s.started {
      RunExtends(lim, p, buf);
      SameHead(q.response, p.response, requestId);
      more := ChunkWrote(s, q, requestId, parts);
    } else {
      NothingSent(s, p, requestId, parts);
      var head := SendHead(s, q, requestId);
      if !head.alive {
        more := [];
      } else if head.s.started {
        FlattenOne(s.written, StreamingHead(q.response, requestId));
        Concat(StreamingHead(q.response, requestId), [], []);
        more := ChunkWrote(head.s, q, requestId, []);
      } else {
        more := ChunkWrote(s, q, requestId, []);
      }
    }
  }

  lemma NothingSent(s: Stream, p: Parser, requestId: string, parts: seq<string>)
    requires BodyAfterHead(p) && p.Active() && Sent(s, p, requestId, parts) && !s.started
    ensures parts == [] && s.forwarded == 0 && Flatten(s.written) == [] && Flatten([]) == []
    ensures Partial(false, p.response, requestId, []) == []
  {
    FlattenNothing(parts);
  }

  lemma {:induction false} FailedIsError(lim: Limits, p: Parser, buf: string)
    requires Inv(lim, p) && p.Active() && Run(lim, p, buf).Failed?
    ensures Run(lim, p, buf).p.state == Error
    decreases |buf|
  {
    hide Inv; hide StepLine; hide FailPass;
    var r := Step(lim, p, buf);
    if r.Continue? { FailedIsError(lim, r.p, r.rest); } else { FailedStep(lim, p, buf); }
  }

  lemma FailedStep(lim: Limits, p: Parser, buf: string)
    requires Inv(lim, p) && p.Active()
    ensures var r := Step(lim, p, buf); r.Stop? && r.o.Failed? ==> r.o.p.state == Error
  {
    hide OnLine; hide AllClean; hide ValidValue;
    if LineState(p.state) && FindCrlf(buf) < |buf| { assert CrlfAt(buf, FindCrlf(buf)); }
  }

  /** The chunk after what was written so far. */
  lemma ChunkWrote(s: Stream, q: Parser, requestId: string, parts: seq<string>)
      returns (more: seq<string>)
    requires Wrote(s, q.response, requestId, parts)
    requires s.forwarded == |Flatten(parts)| && Flatten(parts) <= q.response.body
    ensures var sent := SendBody(s, q);
            && Wrote(sent.s, q.response, requestId, more) && sent.s.started == s.started
            && (sent.alive ==> Flatten(more) == q.response.body)
            && (!sent.alive ==> sent.s.budget == 0 && more == parts)
  {
    hide StreamingHead; hide ChunkFrame;
    var body := q.response.body;
    if |body| > s.forwarded && CanWrite(s) {
      var data := body[s.forwarded..];
      more := parts + [data];
      FlattenOne(s.written, ChunkFrame(data));
      FlattenOne(parts, data);
      ChunkFramesAppend(parts, data);
      Concat(if s.started then StreamingHead(q.response, requestId) else [],
             ChunkFrames(parts), ChunkFrame(data));
      assert body == Flatten(parts) + data;
    } else {
      more := parts;
    }
  }

  // ---------------------------------------------------------------------- whole runs

  /** What went downstream is the head and the whole body decoded so far, in chunks. */
  ghost predicate UpToDate(s: Stream, r: Response, requestId: string, parts: seq<string>) {
    Wrote(s, r, requestId, parts) && Flatten(parts) == r.body
  }

  /** What each ending means, given what a plain read loop makes of the same reads. Only a
      complete response ever gets its terminator; a failure, a stop and a wait have sent all
      that was decoded; and only a client that took no more writes is given up on. */
  ghost predicate Accounted(o: Outcome, requestId: string, parts: seq<string>, ending: Ending,
                            s: Stream)
  {
    var r := o.p.response;
    match ending
    case Completed(reusable, status, terminated) =>
      && o.Done? && reusable == (o.p.Reusable() && o.rest == []) && status == r.status
      && NoneEmpty(parts) && Flatten(parts) == r.body && s.started
      && Flatten(s.written)
           == Partial(true, r, requestId, parts) + (if terminated then TERMINATOR else [])
      && (!terminated ==> s.budget == 0)
    case DownstreamClosed =>
      && s.budget == 0 && Wrote(s, r, requestId, parts) && Flatten(parts) <= r.body
      && (!s.started ==> parts == [])
    case UpstreamFailed(code, started) =>
      o.Failed? && code == o.code && started == s.started && UpToDate(s, r, requestId, parts)
    case Stopped(started) =>
      && o.More? && started == s.started == o.p.HeaderComplete()
      && UpToDate(s, r, requestId, parts) && (!s.started ==> parts == [])
    case Waiting =>
      && o.More? && s.started == o.p.HeaderComplete()
      && UpToDate(s, r, requestId, parts) && (!s.started ==> parts == [])
  }

  /** Which of the reads the run used. */
  ghost predicate Used(ending: Ending, arrivals: seq<Read>, frags: seq<string>, closed: bool) {
    match ending
    case Waiting => !closed && arrivals == AsReads(frags, false)
    case Stopped(_) => !closed && AsReads(frags, false) + [Cancelled] <= arrivals
    case _ => AsReads(frags, closed) <= arrivals
  }

  lemma UsedOneMore(ending: Ending, arrivals: seq<Read>, bytes: string, frags: seq<string>,
                    closed: bool)
    requires arrivals != [] && arrivals[0] == Data(bytes)
    requires Used(ending, arrivals[1..], frags, closed)
    ensures Used(ending, arrivals, [bytes] + frags, closed)
  {
    assert ([bytes] + frags)[1..] == frags;
    assert arrivals == [arrivals[0]] + arrivals[1..];
    assert AsReads([bytes] + frags, closed) == [Data(bytes)] + AsReads(frags, closed);
    assert AsReads([bytes] + frags, false) == [Data(bytes)] + AsReads(frags, false);
    assert [Data(bytes)] + AsReads(frags, false) + [Cancelled]
        == [Data(bytes)] + (AsReads(frags, false) + [Cancelled]);
  }

  lemma FinishAccount(o: Outcome, s: Stream, requestId: string, parts: seq<string>)
    requires o.Done? && o.p.HeaderComplete() && Sent(s, o.p, requestId, parts)
    ensures Accounted(o, requestId, parts, Finish(o, s).0, Finish(o, s).1)
  {
    hide StreamingHead;
    assert Flatten(s.written) == Partial(true, o.p.response, requestId, parts);
    if CanWrite(s) {
      FlattenOne(s.written, TERMINATOR);
    } else {
      assert Partial(true, o.p.response, requestId, parts) + []
          == Partial(true, o.p.response, requestId, parts);
    }
  }

  /** While more is needed, everything decoded has been sent. */
  lemma WaitAccount(lim: Limits, p: Parser, rest: string, s: Stream, requestId: string,
                    parts: seq<string>)
    requires Inv(lim, p) && p.Active() && Sent(s, p, requestId, parts)
    ensures Accounted(More(p, rest), requestId, parts, Waiting, s)
    ensures Accounted(More(p, rest), requestId, parts, Stopped(s.started), s)
  {
    hide Inv; hide StreamingHead; hide Partial;
    InvHasBodyAfterHead(lim, p);
    SentWrote(s, p, requestId, parts);
    if !s.started { NothingSent(s, p, requestId, parts); }
  }

  lemma EofAccount(lim: Limits, p: Parser, rest: string, s: Stream, requestId: string,
                   parts: seq<string>, arrivals: seq<Read>)
    requires Inv(lim, p) && p.Active() && Sent(s, p, requestId, parts)
    requires p.state == EofBody && Inv(lim, p.(state := Complete))
    ensures var (ending, t) := Forward(lim, p.(state := Complete), rest, s, arrivals, requestId);
            Accounted(Ended(More(p, rest), true), requestId, parts, ending, t) && ending.Completed?
  {
    hide Inv; hide StreamingHead; hide Accounted; hide Pump;
    var q := p.(state := Complete);
    NothingToPump(s, q, requestId);
    assert Sent(s, q, requestId, parts);
    FinishAccount(Done(q, rest), s, requestId, parts);
  }

  /** Every run of `forwardResponse`, however it ends, has done with the bytes it read
      exactly what `Accounted` says. */
  lemma {:induction false} EveryEndingIsAccounted(
      lim: Limits, p: Parser, buf: string, s: Stream, arrivals: seq<Read>, requestId: string,
      parts: seq<string>)
      returns (frags: seq<string>, closed: bool, pieces: seq<string>)
    requires Inv(lim, p) && p.Active() && Sent(s, p, requestId, parts)
    ensures var (ending, t) := Forward(lim, p, buf, s, arrivals, requestId);
            && Used(ending, arrivals, frags, closed)
            && Accounted(Feed(lim, p, buf, frags, closed), requestId, pieces, ending, t)
    decreases |arrivals|
  {
    hide Sent; hide Run; hide Pump; hide Inv; hide Accounted; hide Used;
    var o := Parse(lim, p, buf);
    var sent := Pump(s, o.p, requestId);
    frags, closed := [], false;
    NoReads(arrivals);
    if !sent.alive || o.Failed? {
      pieces := PumpWrote(lim, p, buf, s, requestId, parts);
      GaveUp(o, sent.s, requestId, pieces, sent.alive);
    } else {
      pieces := PumpKeepsSent(lim, p, buf, s, requestId, parts);
      if o.Done? {
        FinishAccount(o, sent.s, requestId, pieces);
        FinishUsed(o, sent.s, arrivals);
      } else if arrivals == [] || arrivals[0].Cancelled? {
        WaitAccount(lim, o.p, o.rest, sent.s, requestId, pieces);
      } else if arrivals[0].Data? {
        var bytes, now := arrivals[0].bytes, pieces;
        frags, closed, pieces := EveryEndingIsAccounted(
          lim, o.p, o.rest + bytes, sent.s, arrivals[1..], requestId, now);
        FeedOneMore(lim, p, buf, bytes, frags, closed);
        UsedOneMore(Forward(lim, p, buf, s, arrivals, requestId).0, arrivals, bytes, frags, closed);
        frags := [bytes] + frags;
      } else {
        closed := true;
        ClosedReads(arrivals);
        if o.p.state == EofBody {
          CompleteIsSound(lim, o.p);
          EofAccount(lim, o.p, o.rest, sent.s, requestId, pieces, arrivals[1..]);
        } else {
          PrematureAccount(lim, o.p, o.rest, sent.s, requestId, pieces);
        }
      }
    }
  }

  lemma CompleteIsSound(lim: Limits, p: Parser)
    requires Inv(lim, p) && p.state == EofBody
    ensures Inv(lim, p.(state := Complete))
  {}

  lemma NoReads(arrivals: seq<Read>)
    ensures forall ending: Ending | !ending.Waiting? && !ending.Stopped? ::
              Used(ending, arrivals, [], false)
    ensures arrivals == [] ==> Used(Waiting, arrivals, [], false)
    ensures arrivals != [] && arrivals[0].Cancelled? ==>
              forall started :: Used(Stopped(started), arrivals, [], false)
  {
    assert [] + [Cancelled] == [Cancelled];
  }

  lemma ClosedReads(arrivals: seq<Read>)
    requires arrivals != [] && arrivals[0].Closed?
    ensures forall ending: Ending | !ending.Waiting? && !ending.Stopped? ::
              Used(ending, arrivals, [], true)
  {}

  lemma FinishUsed(o: Outcome, s: Stream, arrivals: seq<Read>)
    requires o.Done?
    ensures Finish(o, s).0.Completed?
  {}

  lemma GaveUp(o: Outcome, s: Stream, requestId: string, parts: seq<string>, alive: bool)
    requires Wrote(s, o.p.response, requestId, parts)
    requires if alive then o.Failed? && Flatten(parts) == o.p.response.body
             else s.budget == 0 && Flatten(parts) <= o.p.response.body && (!s.started ==> parts == [])
    ensures alive ==> Accounted(o, requestId, parts, UpstreamFailed(o.code, s.started), s)
    ensures !alive ==> Accounted(o, requestId, parts, DownstreamClosed, s)
  {
    hide StreamingHead; hide Partial;
  }

  lemma PrematureAccount(lim: Limits, p: Parser, rest: string, s: Stream, requestId: string,
                         parts: seq<string>)
    requires Inv(lim, p) && p.Active() && p.state != EofBody && Sent(s, p, requestId, parts)
    ensures Accounted(Ended(More(p, rest), true), requestId, parts,
                      UpstreamFailed(PrematureEof, s.started), s)
  {
    hide Inv; hide StreamingHead; hide Partial;
    InvHasBodyAfterHead(lim, p);
    SentWrote(s, p, requestId, parts);
  }

  // ------------------------------------------------------------------ the head comes first

  /** Nothing, or a response head and more. */
  predicate HeadFirst(bytes: string) { bytes == [] || "HTTP/1.1 " <= bytes }

  lemma HeadOpens(r: Response, requestId: string, more: string)
    ensures HeadFirst(StreamingHead(r, requestId) + more)
  {
    hide PrintHeaders; hide StreamedHeaders; hide Decimal;
    var rest := Decimal(r.status) + " " + r.reason;
    assert StatusLineText(r.status, r.reason) == "HTTP/1.1 " + rest;
    var block := PrintHeaders(StreamedHeaders(r.headers, requestId));
    assert StreamingHead(r, requestId) + more == "HTTP/1.1 " + (rest + CRLF + block + CRLF + more);
  }

  lemma ChunkOpens(parts: seq<string>)
    requires NoneEmpty(parts)
    ensures HeadFirst(ChunkFrames(parts)) <==> parts == []
  {
    if parts != [] {
      var size := Digits(16, |parts[0]|);
      assert ChunkFrames(parts)[0] == size[0];
      assert DigitValue(16, size[0]) >= 0 && DigitValue(16, 'H') < 0;
      hide ChunkFrames; hide Digits;
    } else {
      assert ChunkFrames(parts) == [];
    }
  }

  /** Does what goes downstream begin with the head? Always, but for one case: a parse
      that fails in the very call that found the headers complete, after decoding some of
      the body. Then the error state hides the headers, and the body goes out bare. */
  lemma HeadComesFirstExactly(lim: Limits, unread: string, arrivals: seq<Read>, budget: nat,
                              requestId: string) returns (frags: seq<string>, closed: bool)
    ensures var (ending, s) := Forward(lim, Initial(false), unread, Begin(budget), arrivals, requestId);
            var o := Feed(lim, Initial(false), unread, frags, closed);
            && Used(ending, arrivals, frags, closed)
            && (HeadFirst(Flatten(s.written)) <==>
                  !(ending.UpstreamFailed? && !ending.started && o.p.response.body != []))
  {
    hide Run; hide Forward; hide Feed; hide StreamingHead; hide ChunkFrames; hide HeadFirst; hide Used;
    NothingBegun(budget, requestId);
    var pieces;
    frags, closed, pieces := EveryEndingIsAccounted(
      lim, Initial(false), unread, Begin(budget), arrivals, requestId, []);
    var o := Feed(lim, Initial(false), unread, frags, closed);
    var (ending, s) := Forward(lim, Initial(false), unread, Begin(budget), arrivals, requestId);
    HeadFirstOf(o, requestId, pieces, ending, s);
  }

  lemma NothingBegun(budget: nat, requestId: string)
    ensures Sent(Begin(budget), Initial(false), requestId, [])
  {}

  lemma HeadFirstOf(o: Outcome, requestId: string, parts: seq<string>, ending: Ending, s: Stream)
    requires Accounted(o, requestId, parts, ending, s)
    ensures HeadFirst(Flatten(s.written)) <==>
              !(ending.UpstreamFailed? && !ending.started && o.p.response.body != [])
  {
    hide StreamingHead; hide HeadFirst;
    FlattenNothing(parts);
    ChunkOpens(parts);
    Concat([], ChunkFrames(parts), []);
    hide ChunkFrames;
    var frames := ChunkFrames(parts);
    HeadOpens(o.p.response, requestId, frames);
    HeadOpens(o.p.response, requestId, frames + TERMINATOR);
    Concat(StreamingHead(o.p.response, requestId), frames, TERMINATOR);
    assert StreamingHead(o.p.response, requestId) + frames + []
        == StreamingHead(o.p.response, requestId) + frames;
    assert [] + frames == frames;
  }

  /** `forwardResponse` with these bytes in the buffer. */
  function Forwarded(lim: Limits, bytes: string, budget: nat, arrivals: seq<Read>,
                     requestId: string): (Ending, Stream)
  {
    Forward(lim, Initial(false), bytes, Begin(budget), arrivals, requestId)
  }

  /** The bare chunk, for every chunked head, every chunk and every line that is no chunk
      size: read in one piece, they make the gateway write the chunk and no head. */
  lemma BareChunk(lim: Limits, status: int, reason: string, hs: seq<Header>, data: string,
                  bad: string, budget: nat, arrivals: seq<Read>, requestId: string)
    requires Readable(lim, status, reason, hs) && MayHaveBody(status)
    requires OneChunked(Codings(hs)) && Lengths(hs) == []
    requires data != [] && |data| <= lim.maxBody && lim.Valid() && budget > 0
    requires '\r' !in bad && ParseChunkSize(bad) == None
    ensures var bytes := PrintedHead(status, reason, hs) + (ChunkFrame(data) + (bad + CRLF));
            Forwarded(lim, bytes, budget, arrivals, requestId)
              == (UpstreamFailed(BadResponse, false), Stream(false, |data|, [ChunkFrame(data)], budget - 1))
  {
    hide *;
    var rest := ChunkFrame(data) + (bad + CRLF);
    ReadHead(lim, status, reason, hs, rest, false);
    AtBlankIs(status, reason, hs, false);
    var o := FromStart(lim, false, PrintedHead(status, reason, hs) + rest);
    BadAfterChunk(lim, AtBlankLine(status, reason, hs, false), data, bad);
    BareOutcome(lim, PrintedHead(status, reason, hs) + rest, data, budget, arrivals, requestId, o);
  }

  lemma BadAfterChunk(lim: Limits, q: Parser, data: string, bad: string)
    requires Inv(lim, q) && q.state == State.Headers && !q.headRequest && q.response.body == []
    requires MayHaveBody(q.response.status)
    requires OneChunked(Codings(q.response.headers)) && Lengths(q.response.headers) == []
    requires data != [] && |data| <= lim.maxBody && lim.Valid()
    requires '\r' !in bad && ParseChunkSize(bad) == None
    ensures var o := Resume(lim, AfterLine(FinishHeaders(lim, q), ChunkFrame(data) + (bad + CRLF)));
            o.Failed? && o.code == BadResponse && o.p.response.body == data && o.p.state == Error
  {
    var start := q.(chunked := true, state := ChunkSize);
    ChunkedStarts(lim, q, start, ChunkFrame(data) + (bad + CRLF));
    hide FinishHeaders; hide Run; hide OneChunked; hide Codings; hide Lengths; hide Inv;
    hide ChunkFrame; hide Limits.Valid; hide ParseChunkSize; hide AfterLine; hide Resume;
    BadAfterFirst(lim, start, data, bad);
  }

  lemma BadAfterFirst(lim: Limits, start: Parser, data: string, bad: string)
    requires Inv(lim, start) && start.state == ChunkSize && start.response.body == []
    requires data != [] && |data| <= lim.maxBody && lim.Valid()
    requires '\r' !in bad && ParseChunkSize(bad) == None
    ensures var o := Run(lim, start, ChunkFrame(data) + (bad + CRLF));
            o.Failed? && o.code == BadResponse && o.p.response.body == data && o.p.state == Error
  {
    BodyLimit(lim);
    hide Run; hide Step; hide Inv; hide ChunkFrame; hide Limits.Valid; hide ParseChunkSize; hide OnLine;
    ChunkRoundTrip(lim, start, data, bad + CRLF);
    var p := AppendBody(start.(chunkBytes := |data|), data);
    assert [] + data == data;
    Concat(bad + CRLF, [], []);
    TakeLine(lim, p, bad, []);
    BadSize(lim, p, bad);
    RunIsResume(lim, p, bad + CRLF, AfterLine(OnLine(lim, p, bad), []));
  }

  lemma BadSize(lim: Limits, p: Parser, line: string)
    requires Inv(lim, p) && p.state == ChunkSize && ParseChunkSize(line) == None
    ensures OnLine(lim, p, line) == Failing(p, BadResponse)
  {
    hide ParseChunkSize; hide ParseStatusLine; hide FinishHeaders; hide AddHeader; hide ParseHeaderLine;
  }

  lemma BareOutcome(lim: Limits, bytes: string, data: string, budget: nat, arrivals: seq<Read>,
                    requestId: string, o: Outcome)
    requires o == FromStart(lim, false, bytes) && data != [] && budget > 0
    requires o.Failed? && o.code == BadResponse && o.p.response.body == data && o.p.state == Error
    ensures Forwarded(lim, bytes, budget, arrivals, requestId)
         == (UpstreamFailed(BadResponse, false), Stream(false, |data|, [ChunkFrame(data)], budget - 1))
  {
    hide Run; hide StreamingHead; hide ChunkFrame;
    assert data[0..] == data;
    assert [] + [ChunkFrame(data)] == [ChunkFrame(data)];
  }
}
