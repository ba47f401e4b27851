/** How the client's bytes are cut into reads changes neither the requests nor
    where a pipeline stops, except at one boundary of the request-line limit,
    which is stated exactly; and pipelined requests come out one by one. */
module RequestFraming {
  import opened Bytes
  import opened Messages
  import opened RequestParser

  /** What a keep-alive connection delivers: the requests in order, and how the
      last, unfinished parse stands. */
  datatype Delivery = Delivery(requests: seq<Request>, last: Outcome)

  function Prepend(r: Request, d: Delivery): Delivery {
    Delivery([r] + d.requests, d.last)
  }

  /** The session read loop: parse; on Complete hand the request over and reset,
      keeping the unread bytes; on NeedMore append the next fragment. */
  function Serve(lim: Limits, p: Parser, buf: string, frags: seq<string>): (d: Delivery)
    requires Inv(lim, p) && p.Active()
    decreases |frags|, |buf|
  {
    var o := Run(lim, p, buf);
    if o.Done? then Prepend(o.p.request, Serve(lim, INITIAL, o.rest, frags))
    else if o.Failed? || frags == [] then Delivery([], o)
    else Serve(lim, o.p, o.rest + frags[0], frags[1..])
  }

  /** The same requests and the same standing of the last parse: the result code
      and, unless it is an error, the parser fields and the unread bytes. */
  predicate Agree(x: Delivery, y: Delivery) {
    x.requests == y.requests && SameOutcome(x.last, y.last)
  }

  predicate SameOutcome(x: Outcome, y: Outcome) {
    x == y || (x.Failed? && y.Failed? && x.code == y.code)
  }

  predicate TooLarge(o: Outcome) { o.Failed? && o.code == HeaderTooLarge }

  /** The next message has a request line of exactly the maximum length, which
      only a read that ends right after its CR rejects. */
  predicate MeetsBoundary(lim: Limits, p: Parser, s: string) {
    && p.state == RequestLine && FindCrlf(s) < |s|
    && FindCrlf(s) == lim.maxRequestLine && lim.maxRequestLine + 2 <= lim.maxHeaderBytes
  }

  /** Some message of the pipeline meets the boundary and is not too large anyway. */
  predicate CutMatters(lim: Limits, p: Parser, s: string)
    requires Inv(lim, p) && p.Active()
    decreases |s|
  {
    var o := Run(lim, p, s);
    || (MeetsBoundary(lim, p, s) && !TooLarge(o))
    || (o.Done? && CutMatters(lim, INITIAL, o.rest))
  }

  // ------------------------------------------------------------- one more read

  /** A pass with `b` appended to the bytes it leaves. */
  function Followed(r: Pass, b: string): Pass {
    if r.Continue? then Continue(r.p, r.rest + b)
    else if r.o.Done? then Stop(Done(r.o.p, r.o.rest + b))
    else r
  }

  lemma AfterLineFollowed(n: Next, rest: string, b: string)
    ensures AfterLine(n, rest + b) == Followed(AfterLine(n, rest), b)
  {}

  lemma LineOf(lim: Limits, p: Parser, s: string, i: nat, line: string, rest: string)
    requires Inv(lim, p) && LineState(p.state)
    requires i == FindCrlf(s) && i + 2 <= |s| && line == s[..i] && rest == s[i + 2..]
    ensures StepLine(lim, p, s) == AfterLine(OnLine(lim, p, line), rest)
  {}

  /** A pass that found its line is not changed by later bytes. */
  lemma LineAppend(lim: Limits, p: Parser, a: string, b: string)
    requires Inv(lim, p) && LineState(p.state) && FindCrlf(a) < |a|
    ensures StepLine(lim, p, a + b) == Followed(StepLine(lim, p, a), b)
  {
    var i := FindCrlf(a);
    assert CrlfAt(a, i);
    FindCrlfPrefix(a, b);
    CutLeft(a, b, i);
    CutLeft(a, b, i + 2);
    hide OnLine; hide Inv; hide StepLine; hide FindCrlf;
    LineOf(lim, p, a, i, a[..i], a[i + 2..]);
    LineOf(lim, p, a + b, i, a[..i], a[i + 2..] + b);
    AfterLineFollowed(OnLine(lim, p, a[..i]), a[i + 2..], b);
  }

  /** Later bytes change only a pass that was waiting for them, or one that
      rejected a pending request line. */
  lemma StepAppend(lim: Limits, p: Parser, a: string, b: string)
    requires Inv(lim, p) && p.Active()
    ensures var r := Step(lim, p, a);
            || Step(lim, p, a + b) == Followed(r, b)
            || r == Stop(More(p, a))
            || (r.Stop? && TooLarge(r.o)
                && (MeetsBoundary(lim, p, a + b) || TooLarge(Run(lim, p, a + b))))
  {
    if p.state == Body {
      if |a| >= p.expectedBody { CutLeft(a, b, p.expectedBody); }
    } else if FindCrlf(a) < |a| {
      LineAppend(lim, p, a, b);
    } else {
      FindCrlfPending(a, b);
      var j := FindCrlf(a + b);
      if j < |a + b| { assert CrlfAt(a + b, j); }
    }
  }

  /** One call on `a + b` against a call on `a` followed by the bytes `b`. */
  lemma {:induction false} RunAppend(lim: Limits, p: Parser, a: string, b: string)
    requires Inv(lim, p) && p.Active()
    ensures var o := Run(lim, p, a);
            match o
            case Done(q, rest) => Run(lim, p, a + b) == Done(q, rest + b)
            case Failed(_, _) =>
              || SameOutcome(Run(lim, p, a + b), o)
              || (TooLarge(o) && MeetsBoundary(lim, p, a + b))
            case More(q, rest) =>
              && Run(lim, p, a + b) == Run(lim, q, rest + b)
              && (MeetsBoundary(lim, q, rest + b) ==> MeetsBoundary(lim, p, a + b))
    decreases |a|
  {
    var r := Step(lim, p, a);
    StepAppend(lim, p, a, b);
    if r.Continue? {
      RunAppend(lim, r.p, r.rest, b);
      LaterPassesAreHeaders(lim, p, a);
    }
  }

  /** Only the first pass of a message reads its request line. */
  lemma LaterPassesAreHeaders(lim: Limits, p: Parser, s: string)
    requires Inv(lim, p) && p.Active() && Step(lim, p, s).Continue?
    ensures Step(lim, p, s).p.state != RequestLine
  {}

  // --------------------------------------------------------------- all reads

  /** Every fragmentation agrees with the one-shot parse unless the cut matters. */
  lemma {:induction false} ServeAgainstOneShot(
      lim: Limits, p: Parser, buf: string, frags: seq<string>)
    requires Inv(lim, p) && p.Active()
    requires !CutMatters(lim, p, buf + Flatten(frags))
    ensures Agree(Serve(lim, p, buf, frags), Serve(lim, p, buf + Flatten(frags), []))
    decreases |frags|, |buf|
  {
    var all := Flatten(frags);
    var o := Run(lim, p, buf);
    if frags == [] {
      Concat(buf, [], []);
    } else {
      RunAppend(lim, p, buf, all);
      if o.Done? {
        ServeAgainstOneShot(lim, INITIAL, o.rest, frags);
      } else if o.More? {
        Concat(o.rest, frags[0], Flatten(frags[1..]));
        SameRun(lim, p, buf + all, o.p, o.rest + all);
        ServeAgainstOneShot(lim, o.p, o.rest + frags[0], frags[1..]);
      }
    }
  }

  /** Two parsers whose calls end alike serve alike. */
  lemma SameRun(lim: Limits, p: Parser, s: string, q: Parser, t: string)
    requires Inv(lim, p) && p.Active() && Inv(lim, q) && q.Active()
    requires Run(lim, p, s) == Run(lim, q, t)
    ensures Serve(lim, p, s, []) == Serve(lim, q, t, [])
    ensures (MeetsBoundary(lim, q, t) ==> MeetsBoundary(lim, p, s)) ==>
              (CutMatters(lim, q, t) ==> CutMatters(lim, p, s))
  {}

  lemma RunContinues(lim: Limits, p: Parser, s: string, q: Parser, rest: string)
    requires Inv(lim, p) && p.Active() && Step(lim, p, s) == Continue(q, rest)
    ensures Run(lim, p, s) == Run(lim, q, rest)
  {}

  /** A pass that goes on, or completes, depends only on the bytes it consumes. */
  lemma StepLocal(lim: Limits, p: Parser, head: string, rest: string)
    requires Inv(lim, p) && p.Active()
    requires var r := Step(lim, p, head + rest);
             (r.Continue? && r.rest == rest) || (r.Stop? && r.o.Done? && r.o.rest == rest)
    ensures Step(lim, p, head + rest) == Followed(Step(lim, p, head), rest)
    ensures var r := Step(lim, p, head);
            (r.Continue? && r.rest == []) || (r.Stop? && r.o.Done? && r.o.rest == [])
  {
    var s := head + rest;
    if p.state == Body {
      CutLeft(head, rest, p.expectedBody);
    } else {
      var i := FindCrlf(s);
      assert CrlfAt(s, i) && i + 2 == |head|;
      forall j: nat | j < i ensures !CrlfAt(head, j) { assert !CrlfAt(s, j); }
      FindCrlfIs(head, i);
      LineAppend(lim, p, head, rest);
    }
  }

  /** A completed parse depends only on the bytes of its message. */
  lemma {:induction false} MessageOf(lim: Limits, p: Parser, s: string) returns (head: string)
    requires Inv(lim, p) && p.Active() && Run(lim, p, s).Done?
    ensures s == head + Run(lim, p, s).rest
    ensures Run(lim, p, head) == Done(Run(lim, p, s).p, [])
    decreases |s|
  {
    var r := Step(lim, p, s);
    if r.Continue? {
      var tail := MessageOf(lim, r.p, r.rest);
      head := ExtendMessage(lim, p, s, r.p, tail, Run(lim, r.p, r.rest).rest);
    } else {
      head := s[..|s| - |r.o.rest|];
      LastPass(lim, p, s);
      assert s == head + r.o.rest;
      StepLocal(lim, p, head, r.o.rest);
    }
  }

  lemma LastPass(lim: Limits, p: Parser, s: string)
    requires Inv(lim, p) && p.Active()
    requires Step(lim, p, s).Stop? && Step(lim, p, s).o.Done?
    ensures var rest := Step(lim, p, s).o.rest; |rest| <= |s| && rest == s[|s| - |rest|..]
  {}

  /** Cutting the stream later than a pass reads does not change the pass. */
  lemma RunPrefix(lim: Limits, p: Parser, head: string, rest: string, q: Parser, front: string)
    requires Inv(lim, p) && p.Active() && Step(lim, p, head + rest) == Continue(q, rest)
    ensures Run(lim, p, head + front) == Run(lim, q, front)
  {
    StepLocal(lim, p, head, rest);
    StepAppend(lim, p, head, front);
    Concat(front, [], []);
    RunContinues(lim, p, head + front, q, front);
  }

  lemma ExtendMessage(lim: Limits, p: Parser, s: string, q: Parser, tail: string, back: string)
      returns (head: string)
    requires Inv(lim, p) && p.Active() && Step(lim, p, s) == Continue(q, tail + back)
    ensures s == head + back
    ensures Run(lim, p, head) == Run(lim, q, tail)
  {
    var front := s[..|s| - |tail + back|];
    head := front + tail;
    Concat(front, tail, back);
    assert front + (tail + back) == s;
    RunPrefix(lim, p, front, tail + back, q, tail);
  }

  /** A pending request line one byte over the limit is rejected, CR or not. */
  lemma BoundaryHere(lim: Limits, p: Parser, s: string)
    requires Inv(lim, p) && MeetsBoundary(lim, p, s)
    ensures lim.maxRequestLine < |s|
    ensures TooLarge(Run(lim, p, s[..lim.maxRequestLine + 1]))
  {
    var i := FindCrlf(s);
    assert CrlfAt(s, i);
    var t := s[..i + 1];
    NoCrlfBefore(s, i);
    hide OnLine; hide Inv; hide FindCrlf;
    assert Step(lim, p, t) == AfterLine(Failing(p, HeaderTooLarge), t);
  }

  lemma NoCrlfBefore(s: string, i: nat)
    requires i == FindCrlf(s) < |s|
    ensures FindCrlf(s[..i + 1]) == i + 1
  {
    var t := s[..i + 1];
    forall j: nat | j < |t| ensures !CrlfAt(t, j) {
      if j < i { assert !CrlfAt(s, j); }
    }
  }

  /** Where to cut so that the cut shows. */
  lemma {:induction false} FailingCut(lim: Limits, p: Parser, s: string)
      returns (front: string, back: string)
    requires Inv(lim, p) && p.Active() && CutMatters(lim, p, s)
    ensures s == front + back
    ensures !Agree(Serve(lim, p, front, [back]), Serve(lim, p, s, []))
    decreases |s|
  {
    hide Run;
    var o := Run(lim, p, s);
    if MeetsBoundary(lim, p, s) && !TooLarge(o) {
      BoundaryHere(lim, p, s);
      front, back := s[..lim.maxRequestLine + 1], s[lim.maxRequestLine + 1..];
      FailsEarly(lim, p, front, back, s);
    } else {
      hide Serve; hide MeetsBoundary; hide Agree;
      var head := MessageOf(lim, p, s);
      var tail;
      tail, back := FailingCut(lim, INITIAL, o.rest);
      front := head + tail;
      Concat(head, tail, back);
      CutLater(lim, p, s, head, o.p, o.rest, tail, back);
    }
  }

  lemma FailsEarly(lim: Limits, p: Parser, front: string, back: string, s: string)
    requires Inv(lim, p) && p.Active()
    requires TooLarge(Run(lim, p, front)) && !TooLarge(Run(lim, p, s))
    ensures !Agree(Serve(lim, p, front, [back]), Serve(lim, p, s, []))
  {
    hide Run; hide Inv;
  }

  lemma CutLater(lim: Limits, p: Parser, s: string, head: string, q: Parser, rest: string,
                 tail: string, back: string)
    requires Inv(lim, p) && p.Active()
    requires Run(lim, p, s) == Done(q, rest) && Run(lim, p, head) == Done(q, [])
    requires !Agree(Serve(lim, INITIAL, tail, [back]), Serve(lim, INITIAL, rest, []))
    ensures !Agree(Serve(lim, p, head + tail, [back]), Serve(lim, p, s, []))
  {
    RunAppend(lim, p, head, tail);
    Concat(tail, [], []);
    var x, y := Serve(lim, INITIAL, tail, [back]), Serve(lim, INITIAL, rest, []);
    assert ([q.request] + x.requests)[1..] == x.requests;
    assert ([q.request] + y.requests)[1..] == y.requests;
  }

  ghost predicate IndependentOfFragmentation(lim: Limits, p: Parser, s: string)
    requires Inv(lim, p) && p.Active()
  {
    forall frags: seq<string> | Flatten(frags) == s ::
      Agree(Serve(lim, p, [], frags), Serve(lim, p, s, []))
  }

  /** Exactly when the cut into reads cannot matter for a whole pipeline: every
      message with a request line of exactly the maximum length is too large in
      any case. */
  lemma FragmentationIndependence(lim: Limits, p: Parser, s: string)
    requires Inv(lim, p) && p.Active()
    ensures IndependentOfFragmentation(lim, p, s) <==> !CutMatters(lim, p, s)
  {
    if !CutMatters(lim, p, s) {
      forall frags: seq<string> | Flatten(frags) == s
        ensures Agree(Serve(lim, p, [], frags), Serve(lim, p, s, []))
      {
        Concat(s, [], []);
        ServeAgainstOneShot(lim, p, [], frags);
      }
    } else {
      var front, back := FailingCut(lim, p, s);
      FirstRead(lim, p, front, back);
      FlattenTwo(front, back);
      assert !Agree(Serve(lim, p, [], [front, back]), Serve(lim, p, s, []));
    }
  }

  /** With nothing unread the loop asks for the first fragment. */
  lemma FirstRead(lim: Limits, p: Parser, front: string, back: string)
    requires Inv(lim, p) && p.Active()
    ensures Serve(lim, p, [], [front, back]) == Serve(lim, p, front, [back])
  {
    assert Run(lim, p, []) == More(p, []);
    Concat(front, [], []);
    assert [front, back][1..] == [back];
  }

  // ------------------------------------------------ a condition on the bytes alone

  /** Every line of `s` that ends in CRLF, wherever it is taken to begin, has fewer
      than `n` bytes. A request may begin right after a body, so any place may begin a
      line. */
  predicate LinesBelow(s: string, n: nat) { forall i: nat | i <= |s| :: !EndsAfter(s, i, n) }

  /** The text from `i` on reaches its first CRLF after exactly `n` bytes. */
  predicate EndsAfter(s: string, i: nat, n: nat)
    requires i <= |s|
  {
    FindCrlf(s[i..]) == n < |s| - i
  }

  lemma LinesBelowSuffix(head: string, rest: string, n: nat)
    requires LinesBelow(head + rest, n)
    ensures LinesBelow(rest, n)
  {
    var s := head + rest;
    forall i: nat | i <= |rest| ensures !EndsAfter(rest, i, n) {
      assert s[|head| + i..] == rest[i..];
      assert !EndsAfter(s, |head| + i, n);
    }
  }

  lemma {:induction false} NoCutMatters(lim: Limits, p: Parser, s: string)
    requires Inv(lim, p) && p.Active() && LinesBelow(s, lim.maxRequestLine)
    ensures !CutMatters(lim, p, s)
    decreases |s|
  {
    hide Run;
    assert s[0..] == s && !EndsAfter(s, 0, lim.maxRequestLine);
    hide LinesBelow;
    var o := Run(lim, p, s);
    if o.Done? {
      var head := MessageOf(lim, p, s);
      LinesBelowSuffix(head, o.rest, lim.maxRequestLine);
      NoCutMatters(lim, INITIAL, o.rest);
    }
  }

  /** What a caller can check without parsing: if all lines of the stream are shorter
      than the maximum, the cut into reads cannot matter. */
  lemma ShortLinesAreSafe(lim: Limits, p: Parser, s: string)
    requires Inv(lim, p) && p.Active() && LinesBelow(s, lim.maxRequestLine)
    ensures IndependentOfFragmentation(lim, p, s)
  {
    hide IndependentOfFragmentation; hide CutMatters; hide LinesBelow;
    NoCutMatters(lim, p, s);
    FragmentationIndependence(lim, p, s);
  }

  // ---------------------------------------------------------------- pipelining

  /** A byte string that is exactly one complete request. */
  predicate IsMessage(lim: Limits, m: string) {
    var o := Run(lim, INITIAL, m);
    o.Done? && o.rest == []
  }

  function RequestOf(lim: Limits, m: string): Request
    requires IsMessage(lim, m)
  {
    Run(lim, INITIAL, m).p.request
  }

  function RequestsOf(lim: Limits, messages: seq<string>): seq<Request>
    requires forall i | 0 <= i < |messages| :: IsMessage(lim, messages[i])
  {
    if messages == [] then []
    else [RequestOf(lim, messages[0])] + RequestsOf(lim, messages[1..])
  }

  /** Parsing n complete requests in a row, with a reset between them, yields
      those n requests in order, and then goes on with the bytes after them. */
  lemma {:induction false} PipelineKeepsRequests(
      lim: Limits, messages: seq<string>, suffix: string)
    requires forall i | 0 <= i < |messages| :: IsMessage(lim, messages[i])
    ensures Serve(lim, INITIAL, Flatten(messages) + suffix, []) ==
            Then(RequestsOf(lim, messages), Serve(lim, INITIAL, suffix, []))
    decreases |messages|
  {
    if messages == [] {
      Concat(suffix, [], []);
      ThenNothing(Serve(lim, INITIAL, suffix, []));
    } else {
      var m, others := messages[0], messages[1..];
      assert forall i | 0 <= i < |others| :: others[i] == messages[i + 1];
      PipelineKeepsRequests(lim, others, suffix);
      MessageThen(lim, m, Flatten(others), suffix, RequestsOf(lim, others));
    }
  }

  lemma ThenNothing(d: Delivery)
    ensures Then([], d) == d
  {
    assert [] + d.requests == d.requests;
  }

  lemma MessageThen(
      lim: Limits, m: string, middle: string, suffix: string, requests: seq<Request>)
    requires IsMessage(lim, m)
    requires Serve(lim, INITIAL, middle + suffix, []) ==
             Then(requests, Serve(lim, INITIAL, suffix, []))
    ensures Serve(lim, INITIAL, (m + middle) + suffix, []) ==
            Then([RequestOf(lim, m)] + requests, Serve(lim, INITIAL, suffix, []))
  {
    Concat(m, middle, suffix);
    NextMessage(lim, m, middle + suffix);
    PrependThen(RequestOf(lim, m), requests, Serve(lim, INITIAL, suffix, []));
  }

  /** `requests` delivered before `d`. */
  function Then(requests: seq<Request>, d: Delivery): Delivery {
    Delivery(requests + d.requests, d.last)
  }

  lemma PrependThen(r: Request, requests: seq<Request>, d: Delivery)
    ensures Prepend(r, Then(requests, d)) == Then([r] + requests, d)
  {
    assert ([r] + requests) + d.requests == [r] + (requests + d.requests);
  }

  lemma NextMessage(lim: Limits, m: string, suffix: string)
    requires IsMessage(lim, m)
    ensures Serve(lim, INITIAL, m + suffix, []) ==
            Prepend(RequestOf(lim, m), Serve(lim, INITIAL, suffix, []))
  {
    RunAppend(lim, INITIAL, m, suffix);
    Concat(suffix, [], []);
  }
}
