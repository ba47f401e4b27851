/** `forwardResponse`: the streaming transformer that decodes the upstream framing
    and emits a chunked response downstream while it is still reading. */
module Streaming {
  import opened Bytes
  import opened Headers
  import opened Messages
  import opened Printers
  import opened ResponseParser
  import opened ResponseFraming
  import opened ResponseRoundTrip
  import opened ResponseTheorems

  /** What one read from the upstream socket brings: bytes, the end of the stream,
      or an error after the transaction was cancelled. */
  datatype Read = Data(bytes: string) | Closed | Cancelled

  /** The local variables of the loop, what went downstream, and how many more
      writes will succeed before the client is gone. */
  datatype Stream = Stream(started: bool, forwarded: nat, written: seq<string>, budget: nat)

  datatype Ending =
    | Completed(reusable: bool, status: int, terminated: bool)
    | DownstreamClosed
    | UpstreamFailed(code: Code, started: bool)
    | Stopped(started: bool)
    | Waiting

  function Begin(budget: nat): Stream { Stream(false, 0, [], budget) }

  predicate CanWrite(s: Stream) { s.budget > 0 }

  function Write(s: Stream, bytes: string): Stream
    requires CanWrite(s)
  {
    s.(written := s.written + [bytes], budget := s.budget - 1)
  }

  /** The stream after an attempt to write, and whether the client is still there. */
  datatype Pumped = Pumped(s: Stream, alive: bool)

  /** The head goes out once, as soon as the parser has the headers. */
  function SendHead(s: Stream, p: Parser, requestId: string): Pumped {
    if p.HeaderComplete() && !s.started then
      if CanWrite(s) then
        Pumped(Write(s, StreamingHead(p.response, requestId)).(started := true), true)
      else Pumped(s, false)
    else Pumped(s, true)
  }

  /** Then the body bytes decoded since the last time, as one chunk. */
  function SendBody(s: Stream, p: Parser): Pumped {
    if |p.response.body| > s.forwarded then
      if CanWrite(s) then
        Pumped(Write(s, ChunkFrame(p.response.body[s.forwarded..]))
               .(forwarded := |p.response.body|), true)
      else Pumped(s, false)
    else Pumped(s, true)
  }

  /** Both writes after a parse. */
  function Pump(s: Stream, p: Parser, requestId: string): Pumped {
    var head := SendHead(s, p, requestId);
    if !head.alive then head else SendBody(head.s, p)
  }

  /** `parse`, including its answer for a parser that is already complete. */
  function Parse(lim: Limits, p: Parser, buf: string): (o: Outcome)
    requires Inv(lim, p) && p.state != Error
    ensures !o.Failed? ==> Inv(lim, o.p)
    ensures o.More? ==> o.p.Active()
    ensures o.Done? ==> o.p.state == Complete
  {
    if p.state == Complete then Done(p, buf) else Run(lim, p, buf)
  }

  /** The loop of `forwardResponse` over the reads still to come. */
  function Forward(lim: Limits, p: Parser, buf: string, s: Stream, arrivals: seq<Read>,
                   requestId: string): (Ending, Stream)
    requires Inv(lim, p) && p.state != Error
    decreases |arrivals|
  {
    var o := Parse(lim, p, buf);
    var sent := Pump(s, o.p, requestId);
    if !sent.alive then (DownstreamClosed, sent.s)
    else if o.Done? then Finish(o, sent.s)
    else if o.Failed? then (UpstreamFailed(o.code, sent.s.started), sent.s)
    else if arrivals == [] then (Waiting, sent.s)
    else if arrivals[0].Cancelled? then (Stopped(sent.s.started), sent.s)
    else if arrivals[0].Data? then
      Forward(lim, o.p, o.rest + arrivals[0].bytes, sent.s, arrivals[1..], requestId)
    else if o.p.state == EofBody then
      Forward(lim, o.p.(state := Complete), o.rest, sent.s, arrivals[1..], requestId)
    else (UpstreamFailed(PrematureEof, sent.s.started), sent.s)
  }

  /** A complete message is closed with the last chunk. */
  function Finish(o: Outcome, s: Stream): (Ending, Stream)
    requires o.Done?
  {
    var reusable := o.p.Reusable() && o.rest == [];
    if CanWrite(s) then
      (Completed(reusable, o.p.response.status, true), Write(s, TERMINATOR))
    else (Completed(reusable, o.p.response.status, false), s)
  }

  // ------------------------------------------------------------ loop invariants

  /** The parser only adds to a response whose headers are complete. */
  predicate Extends(q: Response, r: Response) {
    q == r.(body := q.body) && r.body <= q.body
  }

  lemma LineExtends(lim: Limits, p: Parser, line: string)
    requires Inv(lim, p) && (p.state == ChunkSize || p.state == Trailers)
    ensures var n := OnLine(lim, p, line);
            n.p.response == p.response && (n.Go? ==> n.p.HeaderComplete())
  {
    hide ParseStatusLine; hide FinishHeaders; hide ParseHeaderLine; hide ParseChunkSize;
    hide AddHeader;
  }

  /** What a pass may do to a response whose headers are complete. */
  predicate PassExtends(r: Pass, p: Parser) {
    var q := if r.Continue? then r.p else r.o.p;
    && (r.Continue? ==> q.HeaderComplete())
    && (r.Stop? && !r.o.Failed? ==> q.HeaderComplete())
    && Extends(q.response, p.response)
  }

  lemma StepLineExtends(lim: Limits, p: Parser, buf: string)
    requires Inv(lim, p) && (p.state == ChunkSize || p.state == Trailers)
    ensures PassExtends(StepLine(lim, p, buf), p)
  {
    hide OnLine; hide AllClean; hide FindCrlf;
    if FindCrlf(buf) < |buf| {
      assert CrlfAt(buf, FindCrlf(buf));
      LineExtends(lim, p, buf[..FindCrlf(buf)]);
    }
  }

  lemma StepExtends(lim: Limits, p: Parser, buf: string)
    requires Inv(lim, p) && p.Active() && p.HeaderComplete()
    ensures PassExtends(Step(lim, p, buf), p)
  {
    hide StepLine; hide AllClean; hide ValidValue;
    if p.state == ChunkSize || p.state == Trailers { StepLineExtends(lim, p, buf); }
  }

  lemma {:induction false} RunExtends(lim: Limits, p: Parser, buf: string)
    requires Inv(lim, p) && p.Active() && p.HeaderComplete()
    ensures var o := Run(lim, p, buf);
            (!o.Failed? ==> o.p.HeaderComplete()) && Extends(o.p.response, p.response)
    decreases |buf|
  {
    hide Step; hide Inv;
    StepExtends(lim, p, buf);
    var r := Step(lim, p, buf);
    if r.Continue? { RunExtends(lim, r.p, r.rest); }
  }

  /** Everything decoded so far has been sent: nothing before the headers are
      complete, then the head and the body so far cut into `parts`. */
  predicate Sent(s: Stream, p: Parser, requestId: string, parts: seq<string>) {
    && (forall i | 0 <= i < |parts| :: parts[i] != [])
    && s.started == p.HeaderComplete()
    && s.forwarded == |p.response.body|
    && Flatten(parts) == p.response.body
    && Flatten(s.written) ==
       if s.started then StreamingHead(p.response, requestId) + ChunkFrames(parts) else []
  }

  /** Parsing and pumping keep the invariant. */
  lemma PumpKeepsSent(lim: Limits, p: Parser, buf: string, s: Stream, requestId: string,
                      parts: seq<string>) returns (more: seq<string>)
    requires Inv(lim, p) && p.state != Error && Sent(s, p, requestId, parts)
    requires !Parse(lim, p, buf).Failed?
    requires Pump(s, Parse(lim, p, buf).p, requestId).alive
    ensures Sent(Pump(s, Parse(lim, p, buf).p, requestId).s, Parse(lim, p, buf).p,
                 requestId, more)
  {
    hide Run; hide StreamingHead; hide ChunkFrame;
    var q := Parse(lim, p, buf).p;
    if p.HeaderComplete() {
      if p.state != Complete { RunExtends(lim, p, buf); }
      SameHead(q.response, p.response, requestId);
      more := BodySent(s, p, q, requestId, parts);
    } else {
      assert p.response.body == [];
      assert s.forwarded == 0 && Flatten(s.written) == [];
      if q.HeaderComplete() {
        var head := SendHead(s, q, requestId).s;
        FlattenOne(s.written, StreamingHead(q.response, requestId));
        Concat(StreamingHead(q.response, requestId), [], []);
        var start := q.(response := q.response.(body := []));
        SameHead(q.response, start.response, requestId);
        more := BodySent(head, start, q, requestId, []);
      } else {
        more := parts;
      }
    }
  }

  lemma SameHead(q: Response, r: Response, requestId: string)
    requires q == r.(body := q.body)
    ensures StreamingHead(q, requestId) == StreamingHead(r, requestId)
  {}

  lemma FlattenOne(written: seq<string>, bytes: string)
    ensures Flatten(written + [bytes]) == Flatten(written) + bytes
  {
    FlattenAppend(written, [bytes]);
    assert [bytes][1..] == [];
    Concat(bytes, [], []);
  }

  lemma BodySent(s: Stream, p: Parser, q: Parser, requestId: string, parts: seq<string>)
      returns (more: seq<string>)
    requires s.started && Sent(s, p, requestId, parts) && q.HeaderComplete()
    requires Extends(q.response, p.response)
    requires StreamingHead(q.response, requestId) == StreamingHead(p.response, requestId)
    requires SendBody(s, q).alive
    ensures Sent(SendBody(s, q).s, q, requestId, more)
  {
    hide StreamingHead; hide ChunkFrame;
    var body, before := q.response.body, p.response.body;
    if |body| > s.forwarded {
      var data := body[s.forwarded..];
      more := parts + [data];
      FlattenOne(s.written, ChunkFrame(data));
      FlattenOne(parts, data);
      ChunkFramesAppend(parts, data);
      Concat(StreamingHead(q.response, requestId), ChunkFrames(parts), ChunkFrame(data));
      assert body == before + data;
    } else {
      more := parts;
      assert body == before;
    }
  }

  // ------------------------------------------------------------------ theorems

  function AsReads(frags: seq<string>, closed: bool): seq<Read> {
    if frags == [] then (if closed then [Closed] else [])
    else [Data(frags[0])] + AsReads(frags[1..], closed)
  }

  /** What a run that closes its response normally has done, for the reads it used
      and the pieces of body it sent. */
  ghost predicate Faithful(lim: Limits, p: Parser, buf: string, frags: seq<string>, closed: bool,
                           requestId: string, parts: seq<string>, ending: Ending, s: Stream)
    requires Inv(lim, p) && p.Active()
  {
    var o := Feed(lim, p, buf, frags, closed);
    && o.Done? && Inv(lim, o.p) && o.p.HeaderComplete()
    && ending == Completed(o.p.Reusable() && o.rest == [], o.p.response.status, true)
    && Flatten(parts) == o.p.response.body
    && (forall i | 0 <= i < |parts| :: parts[i] != [])
    && Flatten(s.written) == StreamedBytes(o.p.response, requestId, parts)
  }

  lemma FinishedStream(o: Outcome, s: Stream, requestId: string, parts: seq<string>)
    requires o.Done? && Sent(s, o.p, requestId, parts) && s.started
    requires Finish(o, s).0.terminated
    ensures Flatten(Finish(o, s).1.written) == StreamedBytes(o.p.response, requestId, parts)
  {
    hide StreamingHead; hide ChunkFrames;
    FlattenOne(s.written, TERMINATOR);
    Concat(StreamingHead(o.p.response, requestId), ChunkFrames(parts), TERMINATOR);
  }

  /** A run that completes has read what a plain read loop would read, and has
      emitted the streamed form of the very same response. */
  lemma {:induction false} CompletedRunIsFaithful(
      lim: Limits, p: Parser, buf: string, s: Stream, arrivals: seq<Read>, requestId: string,
      parts: seq<string>)
      returns (frags: seq<string>, closed: bool, pieces: seq<string>)
    requires Inv(lim, p) && p.Active() && Sent(s, p, requestId, parts)
    requires Forward(lim, p, buf, s, arrivals, requestId).0.Completed?
    requires Forward(lim, p, buf, s, arrivals, requestId).0.terminated
    ensures AsReads(frags, closed) <= arrivals
    ensures Faithful(lim, p, buf, frags, closed, requestId, pieces,
                     Forward(lim, p, buf, s, arrivals, requestId).0,
                     Forward(lim, p, buf, s, arrivals, requestId).1)
    decreases |arrivals|
  {
    hide Sent;
    hide Run; hide Pump; hide StreamedBytes; hide Inv;
    var o := Parse(lim, p, buf);
    var sent := Pump(s, o.p, requestId).s;
    if o.Done? {
      frags, closed := [], false;
      pieces := CompletesNow(lim, p, buf, s, arrivals, requestId, parts);
    } else if arrivals[0].Data? {
      pieces := PumpKeepsSent(lim, p, buf, s, requestId, parts);
      var others;
      others, closed, pieces := CompletedRunIsFaithful(
        lim, o.p, o.rest + arrivals[0].bytes, sent, arrivals[1..], requestId, pieces);
      frags := [arrivals[0].bytes] + others;
      FeedOneMore(lim, p, buf, arrivals[0].bytes, others, closed);
      assert arrivals == [arrivals[0]] + arrivals[1..];
    } else {
      frags, closed := [], true;
      pieces := EndOfStream(lim, p, buf, s, arrivals, requestId, parts);
      assert AsReads(frags, closed) == [arrivals[0]];
    }
  }

  lemma CompletesNow(lim: Limits, p: Parser, buf: string, s: Stream, arrivals: seq<Read>,
                     requestId: string, parts: seq<string>) returns (pieces: seq<string>)
    requires Inv(lim, p) && p.Active() && Sent(s, p, requestId, parts)
    requires Run(lim, p, buf).Done?
    requires Forward(lim, p, buf, s, arrivals, requestId).0.Completed?
    requires Forward(lim, p, buf, s, arrivals, requestId).0.terminated
    ensures Faithful(lim, p, buf, [], false, requestId, pieces,
                     Forward(lim, p, buf, s, arrivals, requestId).0,
                     Forward(lim, p, buf, s, arrivals, requestId).1)
  {
    hide Run; hide Pump; hide StreamedBytes; hide Inv;
    var o := Run(lim, p, buf);
    pieces := PumpKeepsSent(lim, p, buf, s, requestId, parts);
    FinishedStream(o, Pump(s, o.p, requestId).s, requestId, pieces);
  }

  /** One more read in front of a read loop. */
  lemma FeedOneMore(lim: Limits, p: Parser, buf: string, bytes: string, others: seq<string>,
                    closed: bool)
    requires Inv(lim, p) && p.Active() && Run(lim, p, buf).More?
    ensures var o := Run(lim, p, buf);
            && Feed(lim, p, buf, [bytes] + others, closed)
               == Feed(lim, o.p, o.rest + bytes, others, closed)
            && AsReads([bytes] + others, closed) == [Data(bytes)] + AsReads(others, closed)
  {
    hide Run;
    assert ([bytes] + others)[1..] == others;
  }

  /** The upstream closing an EOF-delimited body completes the run. */
  lemma EndOfStream(lim: Limits, p: Parser, buf: string, s: Stream, arrivals: seq<Read>,
                    requestId: string, parts: seq<string>) returns (pieces: seq<string>)
    requires Inv(lim, p) && p.Active() && Sent(s, p, requestId, parts)
    requires Run(lim, p, buf).More? && arrivals != [] && arrivals[0].Closed?
    requires Forward(lim, p, buf, s, arrivals, requestId).0.Completed?
    requires Forward(lim, p, buf, s, arrivals, requestId).0.terminated
    ensures Faithful(lim, p, buf, [], true, requestId, pieces,
                     Forward(lim, p, buf, s, arrivals, requestId).0,
                     Forward(lim, p, buf, s, arrivals, requestId).1)
  {
    hide Run; hide Pump; hide StreamedBytes; hide StreamingHead;
    var o := Run(lim, p, buf);
    var sent := Pump(s, o.p, requestId).s;
    pieces := PumpKeepsSent(lim, p, buf, s, requestId, parts);
    var q := o.p.(state := Complete);
    assert Sent(sent, q, requestId, pieces);
    NothingToPump(sent, q, requestId);
    FinishedStream(Done(q, o.rest), sent, requestId, pieces);
  }

  lemma NothingToPump(s: Stream, p: Parser, requestId: string)
    requires s.started && s.forwarded == |p.response.body|
    ensures Pump(s, p, requestId) == Pumped(s, true)
  {}

  /** Streaming preserves meaning. For every upstream byte stream and every split
      into reads, the first part being in the buffer already, a run that ends complete
      with all writes accepted has emitted bytes that a response parser decodes to the
      status, reason, end-to-end headers and body of the one-shot parse of the same
      upstream bytes, exactly when the status is one that can be streamed. */
  lemma StreamingPreservesMeaning(lim: Limits, down: Limits, unread: string, arrivals: seq<Read>,
                                  budget: nat, requestId: string, suffix: string)
      returns (frags: seq<string>, closed: bool)
    requires ValidValue(requestId) && Trimmed(requestId)
    requires Forward(lim, Initial(false), unread, Begin(budget), arrivals, requestId).0.Completed?
    requires Forward(lim, Initial(false), unread, Begin(budget), arrivals, requestId).0.terminated
    ensures AsReads(frags, closed) <= arrivals
    ensures var (ending, s) :=
              Forward(lim, Initial(false), unread, Begin(budget), arrivals, requestId);
            var whole := OneShot(lim, Initial(false), unread + Flatten(frags), closed);
            && whole.Done? && ending.status == whole.p.response.status
            && ending.reusable == (whole.p.Reusable() && whole.rest == [])
            && (StreamFits(down, whole.p.response, requestId, |whole.p.response.body|) ==>
                  (Decoded(whole.p.response, requestId, whole.p.response.body,
                           Run(down, Initial(false), Flatten(s.written) + suffix), suffix)
                   <==> (PrintsAsThree(whole.p.response.status)
                         && whole.p.response.status != 204 && whole.p.response.status != 304)))
  {
    hide Run; hide Forward; hide StreamedBytes; hide Decoded; hide StreamFits;
    assert Sent(Begin(budget), Initial(false), requestId, []);
    var pieces;
    frags, closed, pieces := CompletedRunIsFaithful(
      lim, Initial(false), unread, Begin(budget), arrivals, requestId, []);
    CompletedRunIsOneShot(lim, Initial(false), unread, frags, closed);
    var r := OneShot(lim, Initial(false), unread + Flatten(frags), closed).p.response;
    if StreamFits(down, r, requestId, |r.body|) {
      StreamedResponseDecodes(down, r, requestId, pieces, suffix);
    }
  }
}
