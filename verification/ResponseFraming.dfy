/** How the upstream's bytes are cut into reads does not change what is parsed,
    except at one boundary of the status-line limit, which is stated exactly. */
module ResponseFraming {
  import opened Bytes
  import opened ResponseParser

  /** What the caller makes of an outcome once no more bytes will be read. */
  function Ended(o: Outcome, closed: bool): Outcome
    requires o.More? ==> o.p.Active()
  {
    if o.More? && closed then FinishOnEof(o.p, o.rest) else o
  }

  /** The whole stream in one read. `closed` tells whether the upstream ends the
      stream after it. */
  function OneShot(lim: Limits, p: Parser, s: string, closed: bool): Outcome
    requires Inv(lim, p) && p.Active()
  {
    Ended(Run(lim, p, s), closed)
  }

  /** The read loop: parse, and on NeedMore append the next fragment. */
  function Feed(lim: Limits, p: Parser, buf: string, frags: seq<string>, closed: bool): (o: Outcome)
    requires Inv(lim, p) && p.Active()
    decreases |frags|
  {
    var o := Run(lim, p, buf);
    if frags == [] then Ended(o, closed)
    else if o.Done? then Done(o.p, o.rest + Flatten(frags))
    else if o.Failed? then o
    else Feed(lim, o.p, o.rest + frags[0], frags[1..], closed)
  }

  /** The same result code and, unless it is an error, the same parser fields,
      response included, and the same unread bytes. */
  predicate Agree(x: Outcome, y: Outcome) {
    x == y || (x.Failed? && y.Failed? && x.code == y.code)
  }

  predicate TooLarge(o: Outcome) { o.Failed? && o.code == HeaderTooLarge }

  /** Parsing the whole stream meets a status line of exactly the maximum length. */
  predicate MeetsBoundary(lim: Limits, p: Parser, s: string)
    requires Inv(lim, p) && p.Active()
    decreases |s|
  {
    || (p.state == StatusLine && FindCrlf(s) < |s| && FindCrlf(s) == lim.maxStatusLine)
    || (var r := Step(lim, p, s); r.Continue? && MeetsBoundary(lim, r.p, r.rest))
  }

  // ------------------------------------------------------------- one more read

  /** A pass with `b` appended to the bytes it leaves. */
  function Followed(r: Pass, b: string): Pass {
    if r.Continue? then Continue(r.p, r.rest + b)
    else if r.o.Done? then Stop(Done(r.o.p, r.o.rest + b))
    else r
  }

  lemma AfterLineFollowed(n: Next, rest: string, b: string)
    ensures AfterLine(n, rest + b) == Followed(AfterLine(n, rest), b)
  {}

  lemma LineOf(lim: Limits, p: Parser, s: string, i: nat, line: string, rest: string)
    requires Inv(lim, p) && LineState(p.state)
    requires i == FindCrlf(s) && i + 2 <= |s| && line == s[..i] && rest == s[i + 2..]
    ensures StepLine(lim, p, s) == AfterLine(OnLine(lim, p, line), rest)
  {}

  /** A pass that found its line is not changed by later bytes. */
  lemma LineAppend(lim: Limits, p: Parser, a: string, b: string)
    requires Inv(lim, p) && LineState(p.state) && FindCrlf(a) < |a|
    ensures StepLine(lim, p, a + b) == Followed(StepLine(lim, p, a), b)
  {
    var i := FindCrlf(a);
    assert CrlfAt(a, i);
    FindCrlfPrefix(a, b);
    CutLeft(a, b, i);
    CutLeft(a, b, i + 2);
    LineOf(lim, p, a, i, a[..i], a[i + 2..]);
    LineOf(lim, p, a + b, i, a[..i], a[i + 2..] + b);
    AfterLineFollowed(OnLine(lim, p, a[..i]), a[i + 2..], b);
  }

  /** A pass that goes on reads only bytes that are already there. */
  lemma StepContinues(lim: Limits, p: Parser, a: string, b: string)
    requires Inv(lim, p) && p.Active()
    requires Step(lim, p, a).Continue?
    ensures Step(lim, p, a + b) == Followed(Step(lim, p, a), b)
  {
    if p.state == ChunkBody {
      CutLeft(a, b, p.chunkBytes);
      CutLeft(a, b, p.chunkBytes + 2);
    } else {
      LineAppend(lim, p, a, b);
    }
  }

  lemma StepCompletes(lim: Limits, p: Parser, a: string, b: string)
    requires Inv(lim, p) && p.Active()
    requires Step(lim, p, a).Stop? && Step(lim, p, a).o.Done?
    ensures Step(lim, p, a + b) == Followed(Step(lim, p, a), b)
  {
    if p.state == FixedBody {
      CutLeft(a, b, p.expectedBody - |p.response.body|);
    } else {
      LineAppend(lim, p, a, b);
    }
  }

  /** A failing pass fails the same way with more bytes, unless it rejected a
      pending status line that turns out to have exactly the maximum length. */
  lemma StepFails(lim: Limits, p: Parser, a: string, b: string)
    requires Inv(lim, p) && p.Active()
    requires Step(lim, p, a).Stop? && Step(lim, p, a).o.Failed?
    ensures Agree(Run(lim, p, a + b), Step(lim, p, a).o)
            || (TooLarge(Step(lim, p, a).o) && MeetsBoundary(lim, p, a + b))
  {
    if LineState(p.state) {
      if FindCrlf(a) < |a| {
        LineAppend(lim, p, a, b);
      } else {
        FindCrlfPending(a, b);
        var j := FindCrlf(a + b);
        if j < |a + b| { assert CrlfAt(a + b, j); }
      }
    }
  }

  /** After NeedMore, resuming with the next bytes is the same as having had
      them from the start. */
  lemma StepResumes(lim: Limits, p: Parser, a: string, b: string)
    requires Inv(lim, p) && p.Active()
    requires Step(lim, p, a).Stop? && Step(lim, p, a).o.More?
    ensures var o := Step(lim, p, a).o;
            && Agree(Run(lim, p, a + b), Run(lim, o.p, o.rest + b))
            && (MeetsBoundary(lim, o.p, o.rest + b) ==> MeetsBoundary(lim, p, a + b))
  {
    if p.state == FixedBody {
      FixedBodyResumes(lim, p, a, b);
      Concat(b, [], []);
    } else if p.state == EofBody {
      AppendTwice(p, a, b);
      Concat(b, [], []);
    }
  }

  lemma FixedBodyResumes(lim: Limits, p: Parser, a: string, b: string)
    requires Inv(lim, p) && p.state == FixedBody
    requires |p.response.body| + |a| < p.expectedBody
    ensures Step(lim, p, a) == Stop(More(AppendBody(p, a), []))
    ensures Step(lim, p, a + b) == Step(lim, AppendBody(p, a), b)
  {
    FixedPass(lim, p, a, a, []);
    var m := p.expectedBody - |p.response.body| - |a|;
    var taken, rest := if |b| < m then b else b[..m], if |b| < m then [] else b[m..];
    assert b == taken + rest;
    FixedPass(lim, AppendBody(p, a), b, taken, rest);
    Concat(a, taken, rest);
    FixedPass(lim, p, a + b, a + taken, rest);
    AppendTwice(p, a, taken);
  }

  /** A pass over a counted body takes the bytes still missing, or all there are. */
  lemma FixedPass(lim: Limits, p: Parser, s: string, taken: string, rest: string)
    requires Inv(lim, p) && p.state == FixedBody && s == taken + rest
    requires |p.response.body| + |taken| <= p.expectedBody
    requires rest == [] || |p.response.body| + |taken| == p.expectedBody
    ensures var q := AppendBody(p, taken);
            Step(lim, p, s) ==
              if |p.response.body| + |taken| == p.expectedBody
              then Stop(Done(q.(state := Complete), rest))
              else Stop(More(q, rest))
  {
    CutLeft(taken, rest, |taken|);
    Concat(taken, [], []);
  }

  lemma AppendTwice(p: Parser, a: string, b: string)
    ensures AppendBody(AppendBody(p, a), b) == AppendBody(p, a + b)
  {
    Concat(p.response.body, a, b);
  }

  /** One call on `a + b` against a call on `a` followed by the bytes `b`. */
  lemma {:induction false} RunAppend(lim: Limits, p: Parser, a: string, b: string)
    requires Inv(lim, p) && p.Active()
    ensures var o := Run(lim, p, a);
            match o
            case Done(q, rest) => Run(lim, p, a + b) == Done(q, rest + b)
            case Failed(_, _) =>
              Agree(Run(lim, p, a + b), o) || (TooLarge(o) && MeetsBoundary(lim, p, a + b))
            case More(q, rest) =>
              && Agree(Run(lim, p, a + b), Run(lim, q, rest + b))
              && (MeetsBoundary(lim, q, rest + b) ==> MeetsBoundary(lim, p, a + b))
    decreases |a|
  {
    var r := Step(lim, p, a);
    if r.Continue? {
      StepContinues(lim, p, a, b);
      RunAppend(lim, r.p, r.rest, b);
    } else if r.o.Done? {
      StepCompletes(lim, p, a, b);
    } else if r.o.Failed? {
      StepFails(lim, p, a, b);
    } else {
      StepResumes(lim, p, a, b);
    }
  }

  // --------------------------------------------------------------- all reads

  /** Every fragmentation agrees with the one-shot parse, or hits the boundary. */
  lemma {:induction false} FeedAgainstOneShot(
      lim: Limits, p: Parser, buf: string, frags: seq<string>, closed: bool)
    requires Inv(lim, p) && p.Active()
    ensures var o := Feed(lim, p, buf, frags, closed);
            || Agree(o, OneShot(lim, p, buf + Flatten(frags), closed))
            || (TooLarge(o) && MeetsBoundary(lim, p, buf + Flatten(frags)))
    decreases |frags|
  {
    var all := Flatten(frags);
    if frags == [] {
      Concat(buf, [], []);
    } else {
      RunAppend(lim, p, buf, all);
      var o := Run(lim, p, buf);
      if o.More? {
        FeedAgainstOneShot(lim, o.p, o.rest + frags[0], frags[1..], closed);
        Concat(o.rest, frags[0], Flatten(frags[1..]));
      }
    }
  }

  /** A pending status line one byte over the limit is rejected, CR or not. */
  lemma BoundaryHere(lim: Limits, p: Parser, s: string)
    requires Inv(lim, p) && p.state == StatusLine
    requires FindCrlf(s) < |s| && FindCrlf(s) == lim.maxStatusLine
    ensures lim.maxStatusLine < |s|
    ensures TooLarge(Run(lim, p, s[..lim.maxStatusLine + 1]))
  {
    var i := FindCrlf(s);
    assert CrlfAt(s, i);
    var t := s[..i + 1];
    assert forall j: nat | j < |t| :: CrlfAt(t, j) ==> CrlfAt(s, j);
    assert FindCrlf(t) < |t| ==> CrlfAt(t, FindCrlf(t));
    assert FindCrlf(t) == |t|;
  }

  lemma RunContinues(lim: Limits, p: Parser, s: string, q: Parser, rest: string)
    requires Inv(lim, p) && p.Active() && Step(lim, p, s) == Continue(q, rest)
    ensures Run(lim, p, s) == Run(lim, q, rest)
  {}

  /** A pass that goes on depends only on the bytes it consumes. */
  lemma StepLocal(lim: Limits, p: Parser, head: string, rest: string, q: Parser)
    requires Inv(lim, p) && p.Active() && Step(lim, p, head + rest) == Continue(q, rest)
    ensures Step(lim, p, head) == Continue(q, [])
  {
    var s := head + rest;
    if p.state == ChunkBody {
      CutLeft(head, rest, p.chunkBytes);
    } else {
      var i := FindCrlf(s);
      assert CrlfAt(s, i) && i + 2 == |head|;
      forall j: nat | j < i ensures !CrlfAt(head, j) { assert !CrlfAt(s, j); }
      FindCrlfIs(head, i);
      CutLeft(head, rest, i);
      LineOf(lim, p, head, i, s[..i], head[i + 2..]);
    }
  }

  /** Cutting the stream later than a pass reads does not change the pass. */
  lemma RunPrefix(lim: Limits, p: Parser, head: string, rest: string, q: Parser, front: string)
    requires Inv(lim, p) && p.Active() && Step(lim, p, head + rest) == Continue(q, rest)
    ensures Run(lim, p, head + front) == Run(lim, q, front)
  {
    StepLocal(lim, p, head, rest, q);
    StepContinues(lim, p, head, front);
    Concat(front, [], []);
    RunContinues(lim, p, head + front, q, front);
  }

  /** A boundary line is rejected when a read ends right after its CR. */
  lemma {:induction false} BoundarySplit(lim: Limits, p: Parser, s: string)
      returns (front: string, back: string)
    requires Inv(lim, p) && p.Active() && MeetsBoundary(lim, p, s)
    ensures s == front + back
    ensures TooLarge(Run(lim, p, front))
    decreases |s|
  {
    if p.state == StatusLine && FindCrlf(s) < |s| && FindCrlf(s) == lim.maxStatusLine {
      BoundaryHere(lim, p, s);
      front, back := s[..lim.maxStatusLine + 1], s[lim.maxStatusLine + 1..];
    } else {
      var r := Step(lim, p, s);
      var tail;
      tail, back := BoundarySplit(lim, r.p, r.rest);
      front := BoundaryLater(lim, p, s, r.p, tail, back);
    }
  }

  lemma BoundaryLater(lim: Limits, p: Parser, s: string, q: Parser, tail: string, back: string)
      returns (front: string)
    requires Inv(lim, p) && p.Active() && Step(lim, p, s) == Continue(q, tail + back)
    requires TooLarge(Run(lim, q, tail))
    ensures s == front + back && TooLarge(Run(lim, p, front))
  {
    var head := s[..|s| - |tail + back|];
    front := head + tail;
    Concat(head, tail, back);
    assert head + (tail + back) == s;
    RunPrefix(lim, p, head, tail + back, q, tail);
  }

  ghost predicate IndependentOfFragmentation(lim: Limits, p: Parser, s: string, closed: bool)
    requires Inv(lim, p) && p.Active()
  {
    forall frags: seq<string> | Flatten(frags) == s ::
      Agree(Feed(lim, p, [], frags, closed), OneShot(lim, p, s, closed))
  }

  /** Exactly when the cut into reads cannot matter: no status line of exactly
      the maximum length is met, or the whole stream is too large anyway. */
  lemma FragmentationIndependence(lim: Limits, p: Parser, s: string, closed: bool)
    requires Inv(lim, p) && p.Active()
    ensures IndependentOfFragmentation(lim, p, s, closed) <==>
            (!MeetsBoundary(lim, p, s) || TooLarge(OneShot(lim, p, s, closed)))
  {
    if !MeetsBoundary(lim, p, s) || TooLarge(OneShot(lim, p, s, closed)) {
      forall frags: seq<string> | Flatten(frags) == s
        ensures Agree(Feed(lim, p, [], frags, closed), OneShot(lim, p, s, closed))
      {
        FeedAgainstOneShot(lim, p, [], frags, closed);
        Concat(s, [], []);
      }
    } else {
      var frags := FailingSplit(lim, p, s, closed);
      assert !Agree(Feed(lim, p, [], frags, closed), OneShot(lim, p, s, closed));
    }
  }

  lemma FailingSplit(lim: Limits, p: Parser, s: string, closed: bool) returns (frags: seq<string>)
    requires Inv(lim, p) && p.Active() && MeetsBoundary(lim, p, s)
    ensures Flatten(frags) == s
    ensures TooLarge(Feed(lim, p, [], frags, closed))
  {
    var front, back := BoundarySplit(lim, p, s);
    frags := [front, back];
    FlattenTwo(front, back);
    FirstRead(lim, p, frags, closed);
  }

  /** An empty buffer asks for the first read; a failing first read ends the run. */
  lemma FirstRead(lim: Limits, p: Parser, frags: seq<string>, closed: bool)
    requires Inv(lim, p) && p.Active() && frags != []
    requires TooLarge(Run(lim, p, frags[0]))
    ensures TooLarge(Feed(lim, p, [], frags, closed))
  {
    RunAppend(lim, p, [], frags[0]);
    assert [] + frags[0] == frags[0];
    var o := Run(lim, p, []);
    if o.More? {
      var next := Run(lim, o.p, o.rest + frags[0]);
      assert Agree(Run(lim, p, frags[0]), next);
    }
  }

  /** A run that completes agrees with the one-shot parse of the same bytes, with
      no premise: the boundary can only turn success into an error. */
  lemma CompletedRunIsOneShot(
      lim: Limits, p: Parser, unread: string, frags: seq<string>, closed: bool)
    requires Inv(lim, p) && p.Active()
    requires Feed(lim, p, unread, frags, closed).Done?
    ensures Feed(lim, p, unread, frags, closed) == OneShot(lim, p, unread + Flatten(frags), closed)
  {
    FeedAgainstOneShot(lim, p, unread, frags, closed);
  }

  // ------------------------------------------------ a condition on the bytes alone

  ghost predicate LineStart(s: string, i: nat) { i == 0 || (i >= 2 && CrlfAt(s, i - 2)) }

  /** No line of `s` that ends in CRLF has exactly `n` bytes. */
  ghost predicate NoLineOf(s: string, n: nat) {
    forall i: nat | i <= |s| && LineStart(s, i) :: !EndsAfter(s, i, n)
  }

  /** The text from `i` on reaches its first CRLF after exactly `n` bytes. */
  predicate EndsAfter(s: string, i: nat, n: nat)
    requires i <= |s|
  {
    FindCrlf(s[i..]) == n < |s| - i
  }

  /** A pass that goes on has consumed up to the end of a line. */
  lemma PassEndsLine(lim: Limits, p: Parser, s: string)
    requires Inv(lim, p) && p.Active() && Step(lim, p, s).Continue?
    ensures var k := |s| - |Step(lim, p, s).rest|; k >= 2 && CrlfAt(s, k - 2)
  {
    hide OnLine; hide Inv;
    if LineState(p.state) { assert CrlfAt(s, FindCrlf(s)); }
  }

  lemma NoLineInSuffix(s: string, k: nat, n: nat)
    requires NoLineOf(s, n) && 2 <= k <= |s| && CrlfAt(s, k - 2)
    ensures NoLineOf(s[k..], n)
  {
    var t := s[k..];
    forall i: nat | i <= |t| && LineStart(t, i) ensures !EndsAfter(t, i, n) {
      assert t[i..] == s[k + i..];
      assert i >= 2 ==> CrlfAt(s, k + i - 2);
      assert LineStart(s, k + i) && !EndsAfter(s, k + i, n);
    }
  }

  lemma {:induction false} NoBoundary(lim: Limits, p: Parser, s: string)
    requires Inv(lim, p) && p.Active() && NoLineOf(s, lim.maxStatusLine)
    ensures !MeetsBoundary(lim, p, s)
    decreases |s|
  {
    hide Step; hide Inv; hide NoLineOf;
    FirstLine(s, lim.maxStatusLine);
    var r := Step(lim, p, s);
    if r.Continue? {
      PassEndsLine(lim, p, s);
      NoLineInSuffix(s, |s| - |r.rest|, lim.maxStatusLine);
      NoBoundary(lim, r.p, r.rest);
    }
  }

  lemma FirstLine(s: string, n: nat)
    requires NoLineOf(s, n)
    ensures !(FindCrlf(s) == n < |s|)
  {
    assert s[0..] == s;
    assert LineStart(s, 0) && !EndsAfter(s, 0, n);
  }

  /** What a caller can check without parsing: if no line of the stream has exactly the
      maximum length, the cut into reads cannot matter. */
  lemma NoSuchLineIsSafe(lim: Limits, p: Parser, s: string, closed: bool)
    requires Inv(lim, p) && p.Active() && NoLineOf(s, lim.maxStatusLine)
    ensures IndependentOfFragmentation(lim, p, s, closed)
  {
    hide IndependentOfFragmentation; hide MeetsBoundary; hide NoLineOf; hide OneShot;
    NoBoundary(lim, p, s);
    FragmentationIndependence(lim, p, s, closed);
  }
}
