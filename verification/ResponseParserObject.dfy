/** The response parser as the object the proxy holds: `parse` updates its fields
    and consumes the buffer in place, and does exactly what `Run` says. */
module ResponseParserObject {
  import opened Bytes
  import opened Headers
  import opened Messages
  import opened ByteBuffer
  import opened ResponseParser

  datatype Result = NeedMore | Finished | Rejected(code: Code)

  class HttpResponseParser {
    const limits: Limits
    var state: State
    var response: Response
    var expectedBody: nat
    var chunkBytes: nat
    var headerBytes: nat
    var headerCount: nat
    var headRequest: bool
    var chunked: bool
    var eofDelimited: bool
    var error: Code

    ghost function Fields(): Parser
      reads this
    {
      Parser(state, response, expectedBody, chunkBytes, headerBytes, headerCount, headRequest,
             chunked, eofDelimited, error)
    }

    ghost predicate Valid()
      reads this
    {
      state == Error || Inv(limits, Fields())
    }

    constructor (lim: Limits, head: bool)
      requires lim.Valid()
      ensures limits == lim && Valid() && Fields() == Initial(head)
    {
      limits := lim;
      state, response, expectedBody, chunkBytes := StatusLine, EMPTY_RESPONSE, 0, 0;
      headerBytes, headerCount, headRequest := 0, 0, head;
      chunked, eofDelimited, error := false, false, BadResponse;
    }

    method Reset(head: bool)
      modifies this
      ensures Valid() && Fields() == Initial(head)
    {
      state, response, expectedBody, chunkBytes := StatusLine, EMPTY_RESPONSE, 0, 0;
      headerBytes, headerCount, headRequest := 0, 0, head;
      chunked, eofDelimited, error := false, false, BadResponse;
    }

    /** How the fields, the buffer and the result show an outcome. */
    ghost predicate Shows(o: Outcome, rest: string, result: Result)
      reads this
    {
      && Fields() == o.p
      && match o
         case More(_, left) => result == NeedMore && rest == left
         case Done(_, left) => result == Finished && rest == left
         case Failed(_, code) => result == Rejected(code)
    }

    method Parse(input: Buffer) returns (result: Result)
      requires Valid() && input.Valid()
      requires Fields().Active() ==> input.preparedBytes == 0
      modifies this, input`readIndex, input`writeIndex, input`preparedBytes
      ensures Valid() && input.Valid() && input.preparedBytes == old(input.preparedBytes)
      ensures old(state) == Complete ==>
                result == Finished && Fields() == old(Fields())
                && input.Readable() == old(input.Readable())
      ensures old(state) == Error ==>
                result == Rejected(old(error)) && Fields() == old(Fields())
      ensures old(Fields()).Active() ==>
                Shows(Run(limits, old(Fields()), old(input.Readable())), input.Readable(), result)
    {
      hide Step; hide Inv;
      if state == Complete { return Finished; }
      if state == Error { return Rejected(error); }
      while true
        invariant state != Error && Valid() && Fields().Active()
        invariant input.Valid() && input.preparedBytes == 0
        invariant Run(limits, old(Fields()), old(input.Readable()))
                  == Run(limits, Fields(), input.Readable())
        decreases |input.Readable()|
      {
        var stop;
        stop, result := OnePass(input);
        if stop { return; }
      }
    }

    /** One pass through the loop. */
    method OnePass(input: Buffer) returns (stop: bool, result: Result)
      requires Inv(limits, Fields()) && Fields().Active()
      requires input.Valid() && input.preparedBytes == 0
      modifies this, input`readIndex, input`writeIndex, input`preparedBytes
      ensures input.Valid() && input.preparedBytes == 0
      ensures var r := Step(limits, old(Fields()), old(input.Readable()));
              if r.Continue? then !stop && Fields() == r.p && input.Readable() == r.rest
              else stop && Shows(r.o, input.Readable(), result)
      ensures Valid()
    {
      hide Step; hide Inv;
      if state == FixedBody {
        stop, result := FixedBodyPass(input);
      } else if state == ChunkBody {
        stop, result := ChunkBodyPass(input);
      } else if state == EofBody {
        stop, result := EofBodyPass(input);
      } else {
        stop, result := LinePass(input);
      }
    }

    /** What a pass over body bytes needs to know. */
    lemma BodyFacts()
      requires Inv(limits, Fields())
      ensures |response.body| <= limits.maxBody
      ensures state == FixedBody ==> |response.body| < expectedBody
      ensures state == ChunkBody ==> chunkBytes > 0
    {}

    method FixedBodyPass(input: Buffer) returns (stop: bool, result: Result)
      requires Inv(limits, Fields()) && state == FixedBody
      requires input.Valid() && input.preparedBytes == 0
      modifies this, input`readIndex, input`writeIndex, input`preparedBytes
      ensures input.Valid() && input.preparedBytes == 0
      ensures var r := Step(limits, old(Fields()), old(input.Readable()));
              if r.Continue? then !stop && Fields() == r.p && input.Readable() == r.rest
              else stop && Shows(r.o, input.Readable(), result)
      ensures Valid()
    {
      BodyFacts();
      hide StepLine; hide Inv;
      var available := input.ReadableBytes();
      var view := input.ReadableView();
      var remaining := expectedBody - |response.body|;
      var count := if remaining < available then remaining else available;
      AppendToBody(view[..count]);
      var _ := input.Consume(count);
      if |response.body| == expectedBody {
        state := Complete;
        return true, Finished;
      }
      return true, NeedMore;
    }

    method ChunkBodyPass(input: Buffer) returns (stop: bool, result: Result)
      requires Inv(limits, Fields()) && state == ChunkBody
      requires input.Valid() && input.preparedBytes == 0
      modifies this, input`readIndex, input`writeIndex, input`preparedBytes
      ensures input.Valid() && input.preparedBytes == 0
      ensures var r := Step(limits, old(Fields()), old(input.Readable()));
              if r.Continue? then !stop && Fields() == r.p && input.Readable() == r.rest
              else stop && Shows(r.o, input.Readable(), result)
      ensures Valid()
    {
      BodyFacts();
      hide StepLine; hide Inv;
      var available := input.ReadableBytes();
      if available < chunkBytes + 2 { return true, NeedMore; }
      var view := input.ReadableView();
      if view[chunkBytes] != '\r' || view[chunkBytes + 1] != '\n' {
        result := Reject(BadResponse);
        return true, result;
      }
      if chunkBytes > limits.maxBody - |response.body| {
        result := Reject(BodyTooLarge);
        return true, result;
      }
      AppendToBody(view[..chunkBytes]);
      var _ := input.Consume(chunkBytes + 2);
      state := ChunkSize;
      return false, NeedMore;
    }

    method EofBodyPass(input: Buffer) returns (stop: bool, result: Result)
      requires Inv(limits, Fields()) && state == EofBody
      requires input.Valid() && input.preparedBytes == 0
      modifies this, input`readIndex, input`writeIndex, input`preparedBytes
      ensures input.Valid() && input.preparedBytes == 0
      ensures var r := Step(limits, old(Fields()), old(input.Readable()));
              if r.Continue? then !stop && Fields() == r.p && input.Readable() == r.rest
              else stop && Shows(r.o, input.Readable(), result)
      ensures Valid()
    {
      BodyFacts();
      hide StepLine; hide Inv;
      var available := input.ReadableBytes();
      if available > limits.maxBody - |response.body| {
        result := Reject(BodyTooLarge);
        return true, result;
      }
      var view := input.ReadableView();
      AppendToBody(view);
      var _ := input.Consume(available);
      return true, NeedMore;
    }

    method AppendToBody(bytes: string)
      modifies this`response
      ensures Fields() == AppendBody(old(Fields()), bytes)
    {
      response := response.(body := response.body + bytes);
    }

    method Reject(code: Code) returns (result: Result)
      modifies this`state, this`error
      ensures result == Rejected(code)
      ensures Fields() == old(Fields()).(state := Error, error := code)
    {
      state, error := Error, code;
      return Rejected(code);
    }

    /** A pass in a state that reads lines. */
    method LinePass(input: Buffer) returns (stop: bool, result: Result)
      requires Inv(limits, Fields()) && LineState(state)
      requires input.Valid() && input.preparedBytes == 0
      modifies this, input`readIndex, input`writeIndex, input`preparedBytes
      ensures input.Valid() && input.preparedBytes == 0
      ensures var r := Step(limits, old(Fields()), old(input.Readable()));
              if r.Continue? then !stop && Fields() == r.p && input.Readable() == r.rest
              else stop && Shows(r.o, input.Readable(), result)
      ensures Valid()
    {
      hide OnLine; hide AllClean;
      var available := input.ReadableBytes();
      var crlf := input.LocateCrlf();
      if crlf == available {
        if (state == StatusLine && available > limits.maxStatusLine)
           || ((state == State.Headers || state == Trailers)
               && headerBytes + available > limits.maxHeaderBytes) {
          result := Reject(HeaderTooLarge);
          return true, result;
        }
        return true, NeedMore;
      }
      var view := input.ReadableView();
      assert CrlfAt(view, crlf);
      var _ := input.Consume(crlf + 2);
      result := TakeLine(view[..crlf]);
      stop := result.Rejected? || state == Complete;
    }

    /** What one complete line does to the fields. */
    method TakeLine(line: string) returns (result: Result)
      requires Inv(limits, Fields()) && LineState(state)
      modifies this
      ensures Valid()
      ensures var n := OnLine(limits, old(Fields()), line);
              && Fields() == n.p
              && result == if n.Fail? then Rejected(n.code)
                           else if n.p.state == Complete then Finished else NeedMore
    {
      hide ParseStatusLine; hide FinishHeaders; hide ParseHeaderLine; hide ParseChunkSize;
      hide AddHeader; hide AllClean; hide ValidValue; hide ValidName; hide Find;
      if state == StatusLine {
        result := TakeStatusLine(line);
      } else if state == ChunkSize {
        result := TakeChunkSize(line);
      } else {
        headerBytes := headerBytes + |line| + 2;
        if headerBytes > limits.maxHeaderBytes {
          result := Reject(HeaderTooLarge);
        } else if state == Trailers {
          result := TakeTrailer(line);
        } else if line == [] {
          result := EndHeaders();
        } else {
          result := TakeHeader(line);
        }
      }
    }

    method TakeChunkSize(line: string) returns (result: Result)
      requires state == ChunkSize
      modifies this`state, this`error, this`chunkBytes
      ensures var p, size := old(Fields()), ParseChunkSize(line);
              if size.None? then
                Fields() == Failing(p, BadResponse).p && result == Rejected(BadResponse)
              else
                && Fields() == p.(chunkBytes := size.value,
                                  state := if size.value == 0 then Trailers else ChunkBody)
                && result == NeedMore
    {
      hide ParseChunkSize;
      var size := ParseChunkSize(line);
      if size.None? {
        result := Reject(BadResponse);
      } else {
        chunkBytes := size.value;
        state := if size.value == 0 then Trailers else ChunkBody;
        result := NeedMore;
      }
    }

    method TakeTrailer(line: string) returns (result: Result)
      requires state == Trailers
      modifies this`state, this`error
      ensures var p := old(Fields());
              if line == [] then Fields() == p.(state := Complete) && result == Finished
              else if !ValidName(line[..Find(line, ':')]) then
                Fields() == Failing(p, BadResponse).p && result == Rejected(BadResponse)
              else Fields() == p && result == NeedMore
    {
      hide ValidName; hide Find;
      if line == [] {
        state := Complete;
        return Finished;
      }
      if !ValidName(line[..Find(line, ':')]) {
        result := Reject(BadResponse);
      } else {
        result := NeedMore;
      }
    }

    method TakeStatusLine(line: string) returns (result: Result)
      requires Inv(limits, Fields()) && state == StatusLine
      modifies this
      ensures Valid()
      ensures var n := OnLine(limits, old(Fields()), line);
              Fields() == n.p && result == if n.Fail? then Rejected(n.code) else NeedMore
    {
      hide ParseStatusLine; hide FinishHeaders; hide ParseHeaderLine; hide ParseChunkSize;
      hide AddHeader; hide AllClean;
      if |line| > limits.maxStatusLine {
        result := Reject(HeaderTooLarge);
      } else {
        var parsed := ParseStatusLine(line);
        if parsed.None? {
          result := Reject(BadResponse);
        } else {
          response := response.(status := parsed.value.0, reason := parsed.value.1);
          state, headerBytes := State.Headers, |line| + 2;
          result := NeedMore;
        }
      }
    }

    method TakeHeader(line: string) returns (result: Result)
      requires Inv(limits, Fields()) && state == State.Headers
      modifies this
      ensures Valid()
      ensures var n := AddHeader(limits, old(Fields()), ParseHeaderLine(line));
              Fields() == n.p && result == if n.Fail? then Rejected(n.code) else NeedMore
    {
      hide ParseHeaderLine;
      headerCount := headerCount + 1;
      var header := ParseHeaderLine(line);
      if headerCount > limits.maxHeaderCount {
        result := Reject(HeaderTooLarge);
      } else if header.None? {
        result := Reject(BadResponse);
      } else {
        response := response.(headers := response.headers + [header.value]);
        result := NeedMore;
      }
    }

    /** The blank line: pick the framing of the body. */
    method EndHeaders() returns (result: Result)
      requires Inv(limits, Fields()) && state == State.Headers
      modifies this
      ensures var n := FinishHeaders(limits, old(Fields()));
              && Fields() == n.p
              && result == if n.Fail? then Rejected(n.code)
                           else if n.p.state == Complete then Finished else NeedMore
      ensures Valid()
    {
      hide Values; hide ContainsToken; hide ParseSize; hide Inv;
      var transfers := Values(response.headers, "transfer-encoding");
      var lengths := Values(response.headers, "content-length");
      result := NeedMore;
      if transfers != [] && lengths != [] {
        result := Reject(BadResponse);
      } else if |transfers| > 1 || (transfers != [] && !ContainsToken(transfers[0], "chunked")) {
        result := Reject(UnsupportedTransferEncoding);
      } else if 100 <= response.status <= 199 && response.status != 101 {
        response, expectedBody, headerCount, headerBytes := EMPTY_RESPONSE, 0, 0, 0;
        state := StatusLine;
      } else if response.status == 101 {
        result := Reject(UnsupportedTransferEncoding);
      } else if headRequest || NoBodyStatus(response.status) {
        state := Complete;
        return Finished;
      } else if transfers != [] {
        chunked, state := true, ChunkSize;
      } else if lengths == [] {
        eofDelimited := true;
        response := response.(closeConnection := true);
        state := EofBody;
      } else {
        result := CountBody(lengths);
      }
    }

    method CountBody(lengths: seq<string>) returns (result: Result)
      requires lengths != []
      modifies this`state, this`error, this`expectedBody
      ensures var p := old(Fields());
              if |lengths| != 1 || ParseSize(10, lengths[0]).None? then
                Fields() == Failing(p, BadResponse).p && result == Rejected(BadResponse)
              else
                var n := ParseSize(10, lengths[0]).value;
                if n > limits.maxBody then
                  Fields() == Failing(p, BodyTooLarge).p && result == Rejected(BodyTooLarge)
                else
                  && Fields() == p.(expectedBody := n,
                                    state := if n == 0 then Complete else FixedBody)
                  && result == if n == 0 then Finished else NeedMore
    {
      hide ParseSize;
      if |lengths| != 1 {
        result := Reject(BadResponse);
        return;
      }
      var length := ParseSize(10, lengths[0]);
      if length.None? {
        result := Reject(BadResponse);
      } else if length.value > limits.maxBody {
        result := Reject(BodyTooLarge);
      } else {
        expectedBody := length.value;
        state := if length.value == 0 then Complete else FixedBody;
        result := if length.value == 0 then Finished else NeedMore;
      }
    }

    /** The upstream closed the connection. */
    method EndOfStream() returns (result: Result)
      requires Valid()
      modifies this`state, this`error
      ensures Valid()
      ensures old(state) == Complete ==> result == Finished && Fields() == old(Fields())
      ensures old(state) == Error ==> result == Rejected(PrematureEof)
      ensures old(Fields()).Active() ==>
                Shows(FinishOnEof(old(Fields()), []), [], result)
    {
      if state == EofBody {
        state := Complete;
        return Finished;
      }
      if state == Complete { return Finished; }
      result := Reject(PrematureEof);
    }
  }
}
