/** `forwardResponse` as the proxy session runs it: a loop over its own parser,
    its own buffer and the local counters, proved to be the function `Forward`. */
module Proxy {
  import opened Bytes
  import opened Headers
  import opened Messages
  import opened ByteBuffer
  import opened Printers
  import opened ResponseParser
  import opened ResponseParserObject
  import opened Streaming

  datatype Arrived = Got(read: Read, left: seq<Read>) | Full | Pending

  datatype ProxyEnd = Ended(ending: Ending) | BufferFull

  /** What the upstream connection gives, one byte or event at a time. */
  datatype Signal = Byte(char) | EndOfBytes | Abort

  function SignalsOf(read: Read): seq<Signal> {
    match read
    case Data(bytes) => seq(|bytes|, i requires 0 <= i < |bytes| => Byte(bytes[i]))
    case Closed => [EndOfBytes]
    case Cancelled => [Abort]
  }

  function Signals(arrived: seq<Read>): seq<Signal> {
    if arrived == [] then [] else SignalsOf(arrived[0]) + Signals(arrived[1..])
  }

  lemma NoSignals()
    ensures Signals([]) == []
  {}

  lemma {:induction false} SignalsSnoc(arrived: seq<Read>, read: Read)
    ensures Signals(arrived + [read]) == Signals(arrived) + SignalsOf(read)
  {
    if arrived == [] {
      assert arrived + [read] == [read] && [read][1..] == [];
      assert Signals([read]) == SignalsOf(read) + Signals([]);
    } else {
      assert (arrived + [read])[1..] == arrived[1..] + [read];
      SignalsSnoc(arrived[1..], read);
    }
  }

  class ProxySession {
    const limits: Limits
    const readChunk: nat
    const input: Buffer
    const parser: HttpResponseParser

    ghost predicate Valid()
      reads this, input, parser
    {
      && readChunk > 0 && parser.limits == limits && parser.Valid()
      && input.Valid() && (parser.Fields().Active() ==> input.preparedBytes == 0)
    }

    constructor (lim: Limits, chunk: nat, maxBuffer: nat)
      requires lim.Valid() && 0 < chunk <= maxBuffer
      ensures Valid() && limits == lim && readChunk == chunk && input.Readable() == []
      ensures fresh(input) && fresh(parser) && fresh(input.storage)
    {
      limits, readChunk := lim, chunk;
      input := new Buffer(chunk, maxBuffer);
      parser := new HttpResponseParser(lim, false);
    }

    /** One read from the upstream: up to the prepared span of the next piece. */
    method ReadMore(arrivals: seq<Read>) returns (got: Arrived)
      requires Valid() && input.preparedBytes == 0
      modifies input, input.storage
      ensures input.Valid() && (input.storage == old(input.storage) || fresh(input.storage))
      ensures got.Full? <==> |old(input.Readable())| + readChunk > input.maximumSize
      ensures got.Pending? ==> arrivals == []
      ensures got.Got? ==> Next(arrivals, got.read, got.left)
      ensures got.Got? && got.read.Data? ==>
                input.preparedBytes == 0 && input.Readable() == old(input.Readable()) + got.read.bytes
      ensures !(got.Got? && got.read.Data?) ==> input.Readable() == old(input.Readable())
    {
      hide Inv; hide HttpResponseParser.Valid; hide Next;
      var status := input.Prepare(readChunk);
      if status != Ok { return Full; }
      if arrivals == [] { return Pending; }
      match arrivals[0] {
        case Cancelled =>
          NextEvent(arrivals);
          return Got(Cancelled, arrivals[1..]);
        case Closed =>
          NextEvent(arrivals);
          return Got(Closed, arrivals[1..]);
        case Data(piece) =>
          NextEvent(arrivals);
          var n := if |piece| <= input.preparedBytes then |piece| else input.preparedBytes;
          input.Fill(piece[..n]);
          status := input.Commit(n);
          if n == |piece| {
            assert piece[..n] == piece;
            return Got(Data(piece), arrivals[1..]);
          }
          NextPart(arrivals, piece, n);
          return Got(Data(piece[..n]), [Data(piece[n..])] + arrivals[1..]);
      }
    }

    /** What one read may take: the next event, or the first part of its bytes. */
    ghost predicate Next(arrivals: seq<Read>, read: Read, left: seq<Read>) {
      && arrivals != []
      && (|| (read == arrivals[0] && left == arrivals[1..])
          || (exists back: string ::
                && read.Data? && read.bytes != [] && back != []
                && arrivals[0] == Data(read.bytes + back)
                && left == [Data(back)] + arrivals[1..]))
    }

    lemma NextEvent(arrivals: seq<Read>)
      requires arrivals != []
      ensures Next(arrivals, arrivals[0], arrivals[1..])
    {}

    lemma NextPart(arrivals: seq<Read>, piece: string, n: nat)
      requires arrivals != [] && arrivals[0] == Data(piece) && 0 < n < |piece|
      ensures Next(arrivals, Data(piece[..n]), [Data(piece[n..])] + arrivals[1..])
    {
      assert piece == piece[..n] + piece[n..];
    }

    /** A sequence of reads, and what stays in the socket: the same bytes and the same
        events in the same order. */
    ghost predicate Takes(arrivals: seq<Read>, taken: seq<Read>, left: seq<Read>)
      decreases |taken|
    {
      if taken == [] then left == arrivals
      else
        var n := |taken| - 1;
        exists middle: seq<Read> ::
          Takes(arrivals, taken[..n], middle) && Next(middle, taken[n], left)
    }

    lemma TakesNothing(arrivals: seq<Read>)
      ensures Takes(arrivals, [], arrivals)
    {}

    lemma TakesOneMore(arrivals: seq<Read>, taken: seq<Read>, middle: seq<Read>, read: Read,
                       left: seq<Read>)
      requires Takes(arrivals, taken, middle) && Next(middle, read, left)
      ensures Takes(arrivals, taken + [read], left)
    {
      hide Next;
      assert (taken + [read])[..|taken|] == taken;
    }

    /** The same signals come out of the socket, however the reads cut the bytes. */
    lemma {:induction false} TakesConserves(arrivals: seq<Read>, taken: seq<Read>, left: seq<Read>)
      requires Takes(arrivals, taken, left)
      ensures Signals(taken) + Signals(left) == Signals(arrivals)
      decreases |taken|
    {
      hide Next; hide Signals;
      NoSignals();
      if taken == [] {
        assert [] + Signals(left) == Signals(left);
      } else {
        var n := |taken| - 1;
        var middle: seq<Read> :|
          Takes(arrivals, taken[..n], middle) && Next(middle, taken[n], left);
        TakesConserves(arrivals, taken[..n], middle);
        NextConserves(middle, taken[n], left);
        SignalsSnoc(taken[..n], taken[n]);
        assert taken == taken[..n] + [taken[n]];
        assert Signals(taken[..n]) + SignalsOf(taken[n]) + Signals(left)
            == Signals(taken[..n]) + (SignalsOf(taken[n]) + Signals(left));
      }
    }

    lemma NextConserves(arrivals: seq<Read>, read: Read, left: seq<Read>)
      requires Next(arrivals, read, left)
      ensures SignalsOf(read) + Signals(left) == Signals(arrivals)
    {
      if !(read == arrivals[0] && left == arrivals[1..]) {
        var back: string :|
          && read.Data? && read.bytes != [] && back != []
          && arrivals[0] == Data(read.bytes + back) && left == [Data(back)] + arrivals[1..];
        assert left[1..] == arrivals[1..];
        assert SignalsOf(read) + (SignalsOf(Data(back)) + Signals(arrivals[1..]))
            == SignalsOf(arrivals[0]) + Signals(arrivals[1..]) by {
          assert SignalsOf(read) + SignalsOf(Data(back)) == SignalsOf(arrivals[0]);
        }
      }
    }

    ghost function Weight(arrivals: seq<Read>): nat {
      if arrivals == [] then 0
      else 1 + (if arrivals[0].Data? then |arrivals[0].bytes| else 0) + Weight(arrivals[1..])
    }

    lemma NextIsLighter(arrivals: seq<Read>, read: Read, left: seq<Read>)
      requires Next(arrivals, read, left)
      ensures Weight(left) < Weight(arrivals)
    {
      if !(read == arrivals[0] && left == arrivals[1..]) {
        var back: string :|
          && read.Data? && read.bytes != [] && back != []
          && arrivals[0] == Data(read.bytes + back) && left == [Data(back)] + arrivals[1..];
        assert left[1..] == arrivals[1..];
      }
    }

    /** The writes after a parse: the head once, then the new part of the body. */
    method PumpDownstream(before: Stream, requestId: string) returns (r: Pumped)
      ensures r == Pump(before, parser.Fields(), requestId)
    {
      hide StreamingHead; hide ChunkFrame;
      var s := before;
      if !s.started && parser.state != StatusLine && parser.state != State.Headers
         && parser.state != Error {
        if s.budget == 0 { return Pumped(s, false); }
        s := Write(s, StreamingHead(parser.response, requestId)).(started := true);
      }
      if |parser.response.body| > s.forwarded {
        if s.budget == 0 { return Pumped(s, false); }
        s := Write(s, ChunkFrame(parser.response.body[s.forwarded..]))
             .(forwarded := |parser.response.body|);
      }
      return Pumped(s, true);
    }

    /** The loop, with its locals and what it wrote in `s`. The run is the function
        `Forward` of the reads it took; it takes no more reads than that needs, it
        waits only when nothing has arrived that it did not take, and it stops with a
        full buffer exactly when it needs a read that does not fit. */
    method ForwardResponse(arrivals: seq<Read>, budget: nat, requestId: string)
        returns (end: ProxyEnd, s: Stream, ghost taken: seq<Read>, ghost left: seq<Read>)
      requires Valid() && input.preparedBytes == 0
      modifies input, input.storage, parser
      ensures Taken(arrivals, taken, left, old(input.Readable()), Begin(budget), requestId)
      ensures (if end.Ended? then end.ending else Waiting, s) ==
                Forward(limits, Initial(false), old(input.Readable()), Begin(budget), taken,
                        requestId)
      ensures end == Ended(Waiting) ==> left == []
      ensures input.Valid()
      ensures end == BufferFull ==> |input.Readable()| + readChunk > input.maximumSize
    {
      hide Inv; hide Run; hide Forward; hide Pump; hide Write; hide Finish;
      hide Running; hide Next; hide Weight; hide Taken;
      parser.Reset(false);
      var coming := arrivals;
      s, taken, left := Begin(budget), [], arrivals;
      ghost var unread := input.Readable();
      RunningStart(unread, s, requestId);
      TakenNothing(arrivals, unread, s, requestId);
      while true
        invariant Valid() && parser.state != Error && left == coming
        invariant input.storage == old(input.storage) || fresh(input.storage)
        invariant Taken(arrivals, taken, coming, unread, Begin(budget), requestId)
        invariant Running(unread, Begin(budget), taken, requestId, parser.Fields(),
                          input.Readable(), s)
        decreases Weight(coming)
      {
        ghost var p, buf := parser.Fields(), input.Readable();
        var parsed := parser.Parse(input);
        RunningNow(unread, Begin(budget), taken, requestId, p, buf, s);
        ghost var before := s;
        var sent := PumpDownstream(s, requestId);
        s := sent.s;
        if !sent.alive { return Ended(DownstreamClosed), s, taken, left; }
        if parsed.Finished? {
          var ending;
          ending, s := CloseStream(s);
          return Ended(ending), s, taken, left;
        }
        if parsed.Rejected? { return Ended(UpstreamFailed(parsed.code, s.started)), s, taken, left; }
        var got := ReadMore(coming);
        if got.Full? { return BufferFull, s, taken, left; }
        if got.Pending? { return Ended(Waiting), s, taken, left; }
        NextIsLighter(coming, got.read, got.left);
        RunningMore(unread, Begin(budget), taken, requestId, p, buf, before, s, got.read);
        TakenOneMore(arrivals, taken, coming, unread, Begin(budget), requestId, got.read, got.left);
        taken, coming, left := taken + [got.read], got.left, got.left;
        if got.read.Cancelled? { return Ended(Stopped(s.started)), s, taken, left; }
        if got.read.Closed? {
          var eof := parser.EndOfStream();
          if !eof.Finished? {
            return Ended(UpstreamFailed(PrematureEof, s.started)), s, taken, left;
          }
        }
      }
    }

    /** After these reads the run cannot end without another. */
    ghost predicate NeedsRead(unread: string, s0: Stream, taken: seq<Read>, requestId: string) {
      Whole(unread, s0, taken, requestId).0 == Waiting
    }

    /** The reads come from the socket in order, and none of them was one too many. */
    ghost predicate Taken(arrivals: seq<Read>, taken: seq<Read>, left: seq<Read>,
                          unread: string, s0: Stream, requestId: string)
    {
      && Takes(arrivals, taken, left)
      && forall k | 0 <= k < |taken| :: NeedsRead(unread, s0, taken[..k], requestId)
    }

    lemma TakenNothing(arrivals: seq<Read>, unread: string, s0: Stream, requestId: string)
      ensures Taken(arrivals, [], arrivals, unread, s0, requestId)
    {
      TakesNothing(arrivals);
    }

    lemma TakenOneMore(arrivals: seq<Read>, taken: seq<Read>, middle: seq<Read>, unread: string,
                       s0: Stream, requestId: string, read: Read, left: seq<Read>)
      requires Taken(arrivals, taken, middle, unread, s0, requestId) && Next(middle, read, left)
      requires Whole(unread, s0, taken, requestId).0 == Waiting
      ensures Taken(arrivals, taken + [read], left, unread, s0, requestId)
    {
      hide Next; hide Whole;
      TakesOneMore(arrivals, taken, middle, read, left);
      NeedsSoFar(unread, s0, taken, requestId, read);
    }

    lemma NeedsSoFar(unread: string, s0: Stream, taken: seq<Read>, requestId: string, read: Read)
      requires NeedsRead(unread, s0, taken, requestId)
      requires forall k | 0 <= k < |taken| :: NeedsRead(unread, s0, taken[..k], requestId)
      ensures forall k | 0 <= k < |taken + [read]| ::
                NeedsRead(unread, s0, (taken + [read])[..k], requestId)
    {
      hide NeedsRead;
      forall k | 0 <= k < |taken + [read]|
        ensures NeedsRead(unread, s0, (taken + [read])[..k], requestId)
      {
        if k < |taken| {
          assert (taken + [read])[..k] == taken[..k];
        } else {
          assert (taken + [read])[..k] == taken;
        }
      }
    }

    /** The last chunk, and whether the upstream connection can be used again. */
    method CloseStream(before: Stream) returns (ending: Ending, s: Stream)
      requires Valid() && parser.state == State.Complete
      ensures (ending, s) == Finish(Done(parser.Fields(), input.Readable()), before)
      ensures ending.Completed?
    {
      s := before;
      var remaining := input.ReadableBytes();
      var reusable := !parser.eofDelimited && !parser.response.closeConnection && remaining == 0;
      if s.budget > 0 {
        s := Write(s, TERMINATOR);
        return Completed(reusable, parser.response.status, true), s;
      }
      return Completed(reusable, parser.response.status, false), s;
    }

    /** The whole run over these reads. */
    ghost function Whole(unread: string, s0: Stream, arrived: seq<Read>, requestId: string)
        : (Ending, Stream)
    {
      Forward(limits, Initial(false), unread, s0, arrived, requestId)
    }

    /** Forwarding from here is forwarding from the start. */
    ghost predicate Running(unread: string, s0: Stream, taken: seq<Read>, requestId: string,
                            p: Parser, buf: string, s: Stream)
    {
      && Inv(limits, p) && p.state != Error
      && forall more: seq<Read> ::
           Whole(unread, s0, taken + more, requestId)
           == Forward(limits, p, buf, s, more, requestId)
    }

    lemma RunningStart(unread: string, s: Stream, requestId: string)
      ensures Running(unread, s, [], requestId, Initial(false), unread, s)
    {
      hide Forward;
      forall more: seq<Read>
        ensures Whole(unread, s, [] + more, requestId)
                == Whole(unread, s, more, requestId)
      {
        assert [] + more == more;
      }
    }

    /** How the run ends when it does not need another read. */
    lemma RunningNow(unread: string, s0: Stream, taken: seq<Read>, requestId: string,
                     p: Parser, buf: string, s: Stream)
      requires Running(unread, s0, taken, requestId, p, buf, s)
      ensures var o := Parse(limits, p, buf);
              var sent := Pump(s, o.p, requestId);
              Whole(unread, s0, taken, requestId) ==
                if !sent.alive then (DownstreamClosed, sent.s)
                else if o.Done? then Finish(o, sent.s)
                else if o.Failed? then (UpstreamFailed(o.code, sent.s.started), sent.s)
                else (Waiting, sent.s)
    {
      hide Pump; hide Run; hide Finish; hide Whole;
      assert taken + [] == taken;
      assert Whole(unread, s0, taken + [], requestId)
          == Forward(limits, p, buf, s, [], requestId);
    }

    /** One more read, after a parse that asked for it and the writes it led to. */
    lemma RunningMore(unread: string, s0: Stream, taken: seq<Read>, requestId: string,
                      p: Parser, buf: string, s: Stream, last: Stream, read: Read)
      requires Running(unread, s0, taken, requestId, p, buf, s)
      requires Parse(limits, p, buf).More?
      requires Pump(s, Parse(limits, p, buf).p, requestId) == Pumped(last, true)
      ensures var o := Parse(limits, p, buf);
              var result := Whole(unread, s0, taken + [read], requestId);
              match read
              case Data(bytes) =>
                Running(unread, s0, taken + [read], requestId, o.p, o.rest + bytes, last)
              case Cancelled => result == (Stopped(last.started), last)
              case Closed =>
                if o.p.state == EofBody then
                  Running(unread, s0, taken + [read], requestId, o.p.(state := Complete),
                          o.rest, last)
                else result == (UpstreamFailed(PrematureEof, last.started), last)
    {
      hide Pump; hide Run; hide Whole;
      var o := Parse(limits, p, buf);
      forall more: seq<Read>
        ensures Whole(unread, s0, taken + [read] + more, requestId)
                == Forward(limits, p, buf, s, [read] + more, requestId)
        ensures ([read] + more)[1..] == more
      {
        assert taken + [read] + more == taken + ([read] + more);
      }
      assert taken + [read] + [] == taken + [read];
    }
  }
}
