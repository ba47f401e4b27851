/** The session read loop over its real buffer: it never overflows, and whatever
    the sizes of the reads it delivers the requests of the byte stream. */
module Session {
  import opened Bytes
  import opened Messages
  import opened ByteBuffer
  import opened RequestParser
  import opened RequestParserObject
  import opened RequestFraming
  import opened RequestResidue

  datatype SessionLimits = SessionLimits(parser: Limits, readChunk: nat, maxBuffer: nat)
  {
    /** What the session constructor checks. */
    predicate Valid() {
      && parser.Valid() && readChunk > 0
      && maxBuffer >= readChunk && maxBuffer >= parser.maxHeaderBytes + parser.maxBody
    }

    /** Room for the residue and one more read. */
    predicate Roomy() { maxBuffer >= Residue(parser) + readChunk }
  }

  /** After every unfinished request there is room for the next read. */
  ghost predicate AlwaysRoom(lim: SessionLimits) {
    forall buf: string | Run(lim.parser, INITIAL, buf).More? ::
      |Run(lim.parser, INITIAL, buf).rest| + lim.readChunk <= lim.maxBuffer
  }

  /** Which limits are safe: exactly those with room for the residue and a read. The
      constructor does not check this. */
  lemma RoomExactly(lim: SessionLimits)
    requires lim.Valid()
    ensures AlwaysRoom(lim) <==> lim.Roomy()
  {
    hide Run; hide Residue;
    var bound := lim.maxBuffer - lim.readChunk;
    ResidueIsExact(lim.parser, bound);
    if NeverLeavesMore(lim.parser, bound) {
      forall buf: string | Run(lim.parser, INITIAL, buf).More?
        ensures |Run(lim.parser, INITIAL, buf).rest| + lim.readChunk <= lim.maxBuffer
      {}
    }
    if AlwaysRoom(lim) {
      forall buf: string | Run(lim.parser, INITIAL, buf).More?
        ensures |Run(lim.parser, INITIAL, buf).rest| <= bound
      {}
    }
  }

  /** Limits the constructor accepts, under which a long request line leaves no place
      for the next read. */
  lemma ValidNeedNotBeRoomy()
    ensures var lim := SessionLimits(Limits(100, 100, 1, 100, 100), 200, 200);
            lim.Valid() && !lim.Roomy() && !AlwaysRoom(lim)
  {
    var lim := SessionLimits(Limits(100, 100, 1, 100, 100), 200, 200);
    RoomExactly(lim);
  }

  /** How `readRequest` returns: a request, a parse error, the peer closing, the
      exception of a full buffer, or still waiting for the next read. */
  datatype ReadEnd =
    | Ready(request: Request)
    | ProtocolError(code: Code)
    | PeerClosed
    | BufferFull
    | Waiting

  /** One read takes a first part of the next piece, or all of it. */
  ghost predicate NextPiece(arrivals: seq<string>, bytes: string, left: seq<string>) {
    && arrivals != [] && bytes != []
    && exists back: string ::
         && arrivals[0] == bytes + back
         && left == (if back == [] then [] else [back]) + arrivals[1..]
  }

  /** A sequence of reads, and what stays in the socket. */
  ghost predicate Takes(arrivals: seq<string>, taken: seq<string>, left: seq<string>)
    decreases |taken|
  {
    if taken == [] then left == arrivals
    else
      var n := |taken| - 1;
      exists middle: seq<string> ::
        Takes(arrivals, taken[..n], middle) && NextPiece(middle, taken[n], left)
  }

  lemma TakesOneMore(arrivals: seq<string>, taken: seq<string>, middle: seq<string>,
                     bytes: string, left: seq<string>)
    requires Takes(arrivals, taken, middle) && NextPiece(middle, bytes, left)
    ensures Takes(arrivals, taken + [bytes], left)
  {
    hide NextPiece;
    assert (taken + [bytes])[..|taken|] == taken;
  }

  lemma PieceConserves(arrivals: seq<string>, bytes: string, left: seq<string>)
    requires NextPiece(arrivals, bytes, left)
    ensures bytes + Flatten(left) == Flatten(arrivals) && |Flatten(left)| < |Flatten(arrivals)|
  {
    var back: string :|
      && arrivals[0] == bytes + back
      && left == (if back == [] then [] else [back]) + arrivals[1..];
    var others := arrivals[1..];
    Concat(bytes, back, Flatten(others));
    if back == [] {
      assert left == others && bytes + [] == bytes;
    } else {
      assert left[1..] == others;
    }
  }

  /** No byte is lost or reordered: what was read and what is left is what arrived. */
  lemma {:induction false} TakesConserves(
      arrivals: seq<string>, taken: seq<string>, left: seq<string>)
    requires Takes(arrivals, taken, left)
    ensures Flatten(taken) + Flatten(left) == Flatten(arrivals)
    decreases |taken|
  {
    hide NextPiece; hide Flatten;
    if taken == [] {
      assert Flatten([]) == [] by { FlattenNothing(); }
      Concat(Flatten(left), [], []);
    } else {
      var n := |taken| - 1;
      var middle: seq<string> :|
        Takes(arrivals, taken[..n], middle) && NextPiece(middle, taken[n], left);
      TakesConserves(arrivals, taken[..n], middle);
      PieceConserves(middle, taken[n], left);
      FlattenLast(taken[..n], taken[n], Flatten(left));
      assert taken == taken[..n] + [taken[n]];
    }
  }

  lemma FlattenNothing()
    ensures Flatten([]) == []
  {}

  lemma FlattenLast(taken: seq<string>, bytes: string, rest: string)
    ensures Flatten(taken + [bytes]) + rest == Flatten(taken) + (bytes + rest)
  {
    FlattenAppend(taken, [bytes]);
    assert [bytes][1..] == [];
    Concat(bytes, [], []);
    Concat(Flatten(taken), bytes, rest);
  }

  /** At most `space` bytes of the next piece, and what stays in the socket. */
  function TakePiece(arrivals: seq<string>, space: nat): (r: (string, seq<string>))
    requires arrivals != [] && arrivals[0] != [] && space > 0
    ensures |r.0| <= space && NextPiece(arrivals, r.0, r.1)
  {
    var piece, others := arrivals[0], arrivals[1..];
    if |piece| <= space then
      assert piece == piece + [] && others == [] + others;
      (piece, others)
    else
      var front, back := piece[..space], piece[space..];
      assert front + back == piece;
      (front, [back] + others)
  }

  datatype Got = Bytes | Full | Closed | Pending

  class HttpSession {
    const limits: SessionLimits
    const input: Buffer
    const parser: HttpParser

    ghost predicate Valid()
      reads this, input, parser
    {
      && limits.Valid() && parser.limits == limits.parser
      && input.Valid() && input.preparedBytes == 0 && input.maximumSize == limits.maxBuffer
      && parser.Valid() && Paid(limits.parser, parser.Fields())
    }

    constructor (lim: SessionLimits)
      requires lim.Valid()
      ensures limits == lim && Valid() && fresh(input) && fresh(parser) && fresh(input.storage)
      ensures parser.Fields() == INITIAL && input.Readable() == []
    {
      limits := lim;
      input := new Buffer(lim.readChunk, lim.maxBuffer);
      parser := new HttpParser(lim.parser);
    }

    /** One read: make room, and take what the socket has, up to the prepared
        span; the rest of it stays in the socket. */
    method ReadMore(arrivals: seq<string>) returns (got: Got, bytes: string, left: seq<string>)
      requires Valid()
      modifies input, input.storage
      ensures input.Valid() && (input.storage == old(input.storage) || fresh(input.storage))
      ensures got == Full <==> |old(input.Readable())| + limits.readChunk > limits.maxBuffer
      ensures got == Pending ==> arrivals == []
      ensures got == Closed ==> arrivals != [] && arrivals[0] == []
      ensures got == Bytes ==>
                && NextPiece(arrivals, bytes, left)
                && Valid() && input.Readable() == old(input.Readable()) + bytes
      ensures got != Bytes ==> left == arrivals && input.Readable() == old(input.Readable())
    {
      hide Inv; hide Paid; hide NextPiece;
      bytes, left := [], arrivals;
      var status := input.Prepare(limits.readChunk);
      if status != Ok { return Full, bytes, left; }
      if arrivals == [] { return Pending, bytes, left; }
      if arrivals[0] == [] { return Closed, bytes, left; }
      var taken := TakePiece(arrivals, input.preparedBytes);
      bytes, left := taken.0, taken.1;
      input.Fill(bytes);
      status := input.Commit(|bytes|);
      return Bytes, bytes, left;
    }

    /** `readRequest` over the bytes the socket will deliver, in pieces; an empty
        piece is the peer closing. The result is what the bytes it took deliver, it
        takes no more reads than that needs, it waits only when nothing is left, and
        the buffer is full exactly when the next read does not fit, which never
        happens in a roomy session. */
    method ReadRequest(arrivals: seq<string>)
        returns (end: ReadEnd, left: seq<string>, ghost taken: seq<string>)
      requires Valid() && parser.Fields().Active()
      modifies input, input.storage, parser
      ensures input.Valid() && (end.Ready? ==> Valid())
      ensures Takes(arrivals, taken, left)
      ensures Delivered(old(parser.Fields()), old(input.Readable()), taken, end, input.Readable())
      ensures forall k | 0 <= k < |taken| ::
                Unfinished(old(parser.Fields()), old(input.Readable()), taken[..k])
      ensures end.Waiting? ==> left == []
      ensures end.PeerClosed? ==> left != [] && left[0] == []
      ensures limits.Roomy() ==> end != BufferFull
    {
      hide Inv; hide Run; hide Serve; hide Takes; hide NextPiece; hide Flatten; hide Paid; hide Residue;
      left, taken := arrivals, [];
      ghost var start, unread := parser.Fields(), input.Readable();
      ResumedStart(start, unread);
      assert Takes(arrivals, [], arrivals) by { TakesNothing(arrivals); }
      while true
        invariant Valid() && parser.Fields().Active() && parser.state != State.Error
        invariant input.storage == old(input.storage) || fresh(input.storage)
        invariant Takes(arrivals, taken, left)
        invariant Resumed(start, unread, taken, parser.Fields(), input.Readable())
        invariant forall k | 0 <= k < |taken| :: Unfinished(start, unread, taken[..k])
        decreases |Flatten(left)|
      {
        ghost var p, buf := parser.Fields(), input.Readable();
        var result := parser.Parse(input);
        ResumedEnd(start, unread, taken, p, buf);
        if result.Finished? {
          CompleteIsPaid(limits.parser, parser.Fields());
          return Ready(parser.request), left, taken;
        }
        if result.Rejected? { return ProtocolError(result.code), left, taken; }
        RunPays(limits.parser, p, buf);
        var got, bytes, later := ReadMore(left);
        if got == Full { return BufferFull, left, taken; }
        if got == Closed { return PeerClosed, left, taken; }
        if got == Pending { return Waiting, left, taken; }
        ResumedMore(start, unread, taken, p, buf, bytes);
        UnfinishedSoFar(start, unread, taken, bytes);
        TakesOneMore(arrivals, taken, left, bytes, later);
        PieceConserves(left, bytes, later);
        left, taken := later, taken + [bytes];
      }
    }

    lemma TakesNothing(arrivals: seq<string>)
      ensures Takes(arrivals, [], arrivals)
    {}

    /** After these reads the request is still incomplete, nothing is wrong, and the
        next read fits. */
    ghost predicate Unfinished(p: Parser, buf: string, taken: seq<string>) {
      && Inv(limits.parser, p) && p.Active()
      && var d := Serve(limits.parser, p, buf, taken);
      && d.requests == [] && d.last.More?
      && |d.last.rest| + limits.readChunk <= limits.maxBuffer
    }

    lemma UnfinishedSoFar(p: Parser, buf: string, taken: seq<string>, bytes: string)
      requires Unfinished(p, buf, taken)
      requires forall k | 0 <= k < |taken| :: Unfinished(p, buf, taken[..k])
      ensures forall k | 0 <= k < |taken + [bytes]| :: Unfinished(p, buf, (taken + [bytes])[..k])
    {
      hide Unfinished;
      forall k | 0 <= k < |taken + [bytes]| ensures Unfinished(p, buf, (taken + [bytes])[..k]) {
        if k < |taken| {
          assert (taken + [bytes])[..k] == taken[..k];
        } else {
          assert (taken + [bytes])[..k] == taken;
        }
      }
    }

    lemma ResumedStart(p: Parser, buf: string)
      requires Inv(limits.parser, p) && p.Active()
      ensures Resumed(p, buf, [], p, buf)
    {
      hide Run; hide Inv; hide Serve;
      forall more: seq<string>
        ensures Serve(limits.parser, p, buf, [] + more) == Serve(limits.parser, p, buf, more)
      {
        assert [] + more == more;
      }
    }

    /** The parser after the reads so far: parsing on from here is parsing the
        whole stream. */
    ghost predicate Resumed(p: Parser, buf: string, taken: seq<string>, q: Parser, rest: string)
    {
      && Inv(limits.parser, p) && p.Active() && Inv(limits.parser, q) && q.Active()
      && forall more: seq<string> ::
           Serve(limits.parser, p, buf, taken + more) == Serve(limits.parser, q, rest, more)
    }

    lemma ResumedMore(p: Parser, buf: string, taken: seq<string>, q: Parser, rest: string,
                      bytes: string)
      requires Resumed(p, buf, taken, q, rest) && Run(limits.parser, q, rest).More?
      ensures var o := Run(limits.parser, q, rest);
              Resumed(p, buf, taken + [bytes], o.p, o.rest + bytes)
    {
      hide Run; hide Inv;
      var o := Run(limits.parser, q, rest);
      forall more: seq<string>
        ensures Serve(limits.parser, p, buf, taken + [bytes] + more)
                == Serve(limits.parser, o.p, o.rest + bytes, more)
      {
        assert taken + [bytes] + more == taken + ([bytes] + more);
        assert ([bytes] + more)[1..] == more;
      }
    }

    /** What the caller sees, and what stays unread, is what the bytes deliver. */
    ghost predicate Delivered(p: Parser, buf: string, taken: seq<string>, end: ReadEnd,
                              unread: string)
    {
      && Inv(limits.parser, p) && p.Active()
      && var d := Serve(limits.parser, p, buf, taken);
         match end
         case Ready(request) =>
           d == Prepend(request, Serve(limits.parser, INITIAL, unread, []))
         case ProtocolError(code) => d.requests == [] && d.last.Failed? && d.last.code == code
         case _ =>
           && d.requests == [] && d.last.More? && d.last.rest == unread
           && (end == BufferFull <==> |unread| + limits.readChunk > limits.maxBuffer)
    }

    lemma ResumedEnd(p: Parser, buf: string, taken: seq<string>, q: Parser, rest: string)
      requires Resumed(p, buf, taken, q, rest)
      ensures Inv(limits.parser, p) && p.Active()
      ensures var o, d := Run(limits.parser, q, rest), Serve(limits.parser, p, buf, taken);
              match o
              case Done(r, unread) =>
                d == Prepend(r.request, Serve(limits.parser, INITIAL, unread, []))
              case _ => d == Delivery([], o)
    {
      hide Run; hide Inv;
      assert taken + [] == taken;
      assert Serve(limits.parser, p, buf, taken + []) == Serve(limits.parser, q, rest, []);
    }
  }
}
