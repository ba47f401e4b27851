/** The request parser as the object a session holds: `parse` updates its fields
    and consumes the buffer in place, and does exactly what `Run` says. */
module RequestParserObject {
  import opened Bytes
  import opened Headers
  import opened Messages
  import opened ByteBuffer
  import opened RequestParser

  datatype Result = NeedMore | Finished | Rejected(code: Code)

  class HttpParser {
    const limits: Limits
    var state: State
    var request: Request
    var expectedBody: nat
    var headerBytes: nat
    var headerCount: nat
    var error: Code

    ghost function Fields(): Parser
      reads this
    {
      Parser(state, request, expectedBody, headerBytes, headerCount, error)
    }

    ghost predicate Valid()
      reads this
    {
      state == Error || Inv(limits, Fields())
    }

    constructor (lim: Limits)
      requires lim.Valid()
      ensures limits == lim && Valid() && Fields() == INITIAL
    {
      limits := lim;
      state, request, expectedBody := RequestLine, EMPTY_REQUEST, 0;
      headerBytes, headerCount, error := 0, 0, BadRequest;
    }

    method Reset()
      modifies this
      ensures Valid() && Fields() == INITIAL
    {
      state, request, expectedBody := RequestLine, EMPTY_REQUEST, 0;
      headerBytes, headerCount, error := 0, 0, BadRequest;
    }

    /** How the fields, the buffer and the result show an outcome. */
    ghost predicate Shows(o: Outcome, rest: string, result: Result)
      reads this
    {
      && Fields() == o.p
      && match o
         case More(_, left) => result == NeedMore && rest == left
         case Done(_, left) => result == Finished && rest == left
         case Failed(_, code) => result == Rejected(code)
    }

    method Parse(input: Buffer) returns (result: Result)
      requires Valid() && input.Valid()
      requires Fields().Active() ==> input.preparedBytes == 0
      modifies this, input`readIndex, input`writeIndex, input`preparedBytes
      ensures Valid() && input.Valid() && input.preparedBytes == old(input.preparedBytes)
      ensures old(state) == Complete ==>
                result == Finished && Fields() == old(Fields())
                && input.Readable() == old(input.Readable())
      ensures old(state) == Error ==>
                result == Rejected(old(error)) && Fields() == old(Fields())
      ensures old(Fields()).Active() ==>
                Shows(Run(limits, old(Fields()), old(input.Readable())), input.Readable(), result)
    {
      hide Step; hide Inv;
      if state == Complete { return Finished; }
      if state == Error { return Rejected(error); }
      while true
        invariant state != Error && Valid() && Fields().Active()
        invariant input.Valid() && input.preparedBytes == 0
        invariant Run(limits, old(Fields()), old(input.Readable()))
                  == Run(limits, Fields(), input.Readable())
        decreases |input.Readable()|
      {
        var stop;
        stop, result := OnePass(input);
        if stop { return; }
      }
    }

    /** One pass through the loop. */
    method OnePass(input: Buffer) returns (stop: bool, result: Result)
      requires Inv(limits, Fields()) && Fields().Active()
      requires input.Valid() && input.preparedBytes == 0
      modifies this, input`readIndex, input`writeIndex, input`preparedBytes
      ensures Valid() && input.Valid() && input.preparedBytes == 0
      ensures var r := Step(limits, old(Fields()), old(input.Readable()));
              if r.Continue? then !stop && Fields() == r.p && input.Readable() == r.rest
              else stop && Shows(r.o, input.Readable(), result)
    {
      hide StepLine; hide AllClean;
      if state == Body {
        var available := input.ReadableBytes();
        if available < expectedBody { return true, NeedMore; }
        var _, body := input.TakeString(expectedBody);
        assert old(input.Readable())[..expectedBody] == body;
        request, state := request.(body := body), Complete;
        return true, Finished;
      }
      stop, result := LinePass(input);
    }

    method Reject(code: Code) returns (result: Result)
      modifies this`state, this`error
      ensures result == Rejected(code)
      ensures Fields() == old(Fields()).(state := Error, error := code)
    {
      state, error := Error, code;
      return Rejected(code);
    }

    /** A pass in a state that reads lines. */
    method LinePass(input: Buffer) returns (stop: bool, result: Result)
      requires Inv(limits, Fields()) && LineState(state)
      requires input.Valid() && input.preparedBytes == 0
      modifies this, input`readIndex, input`writeIndex, input`preparedBytes
      ensures Valid() && input.Valid() && input.preparedBytes == 0
      ensures var r := StepLine(limits, old(Fields()), old(input.Readable()));
              if r.Continue? then !stop && Fields() == r.p && input.Readable() == r.rest
              else stop && Shows(r.o, input.Readable(), result)
    {
      hide OnLine; hide AllClean;
      var pending := input.ReadableBytes();
      var crlf := input.LocateCrlf();
      if crlf == pending {
        if (state == RequestLine && pending > limits.maxRequestLine)
           || (state == State.Headers && headerBytes + pending > limits.maxHeaderBytes) {
          result := Reject(HeaderTooLarge);
          return true, result;
        }
        return true, NeedMore;
      }
      var view := input.ReadableView();
      assert CrlfAt(view, crlf);
      var _ := input.Consume(crlf + 2);
      result := TakeLine(view[..crlf]);
      stop := result.Rejected? || state == Complete;
    }

    /** What one complete line does to the fields. The size checks come before
        the line is consumed in the source; a rejected line is never read again. */
    method TakeLine(line: string) returns (result: Result)
      requires Inv(limits, Fields()) && LineState(state)
      modifies this
      ensures var n := OnLine(limits, old(Fields()), line);
              && Fields() == n.p
              && result == if n.Fail? then Rejected(n.code)
                           else if n.p.state == Complete then Finished else NeedMore
      ensures Valid()
    {
      hide ParseRequestLine; hide FinishHeaders; hide ParseHeaderLine; hide AddHeader;
      result := NeedMore;
      if state == RequestLine {
        if |line| > limits.maxRequestLine || |line| + 2 > limits.maxHeaderBytes {
          result := Reject(HeaderTooLarge);
          return;
        }
        var parsed := ParseRequestLine(line);
        if parsed.None? {
          result := Reject(BadRequest);
          return;
        }
        var (verb, target, minor) := parsed.value;
        request := request.(verb := verb, target := target, minorVersion := minor);
        state, headerBytes := State.Headers, |line| + 2;
      } else if |line| > limits.maxHeaderLine
             || headerBytes + |line| + 2 > limits.maxHeaderBytes {
        result := Reject(HeaderTooLarge);
      } else {
        headerBytes := headerBytes + |line| + 2;
        if line == [] { result := EndHeaders(); } else { result := TakeHeader(line); }
      }
    }

    method TakeHeader(line: string) returns (result: Result)
      requires Inv(limits, Fields()) && state == State.Headers
      modifies this
      ensures var n := AddHeader(limits, old(Fields()), ParseHeaderLine(line));
              Fields() == n.p && result == if n.Fail? then Rejected(n.code) else NeedMore
      ensures Valid()
    {
      hide ParseHeaderLine;
      headerCount := headerCount + 1;
      var header := ParseHeaderLine(line);
      if headerCount > limits.maxHeaderCount {
        result := Reject(HeaderTooLarge);
      } else if header.None? {
        result := Reject(BadRequest);
      } else {
        request := request.(headers := request.headers + [header.value]);
        result := NeedMore;
      }
    }

    /** The blank line: how many body bytes follow. */
    method EndHeaders() returns (result: Result)
      requires Inv(limits, Fields()) && state == State.Headers
      modifies this
      ensures var n := FinishHeaders(limits, old(Fields()));
              && Fields() == n.p
              && result == if n.Fail? then Rejected(n.code)
                           else if n.p.state == Complete then Finished else NeedMore
      ensures Valid()
    {
      hide Values; hide ParseSize; hide Inv;
      if request.minorVersion == 1 && !Contains(request.headers, "host") {
        result := Reject(BadRequest);
        return;
      }
      if Contains(request.headers, "transfer-encoding") {
        result := Reject(UnsupportedTransferEncoding);
        return;
      }
      var lengths := Values(request.headers, "content-length");
      if lengths == [] {
        expectedBody, state := 0, Complete;
        return Finished;
      }
      if |lengths| != 1 {
        result := Reject(BadRequest);
        return;
      }
      var length := ParseSize(10, lengths[0]);
      if length.None? {
        result := Reject(BadRequest);
      } else if length.value > limits.maxBody {
        result := Reject(BodyTooLarge);
      } else {
        expectedBody := length.value;
        state := if length.value == 0 then Complete else Body;
        result := if length.value == 0 then Finished else NeedMore;
      }
    }
  }
}
