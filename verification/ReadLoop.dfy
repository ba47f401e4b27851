/** The room of the read loop: some reads end in a full buffer exactly when the limits
    leave no room for the residue and one more read. One corner is different: with reads
    of a single byte and request lines limited to the shortest, every request line is
    cut after its CR and none gets through. */
module ReadLoop {
  import opened Bytes
  import opened Messages
  import opened RequestParser
  import opened RequestFraming
  import opened RequestResidue
  import opened Session

  /** After these reads the request is still incomplete, and nothing is wrong. */
  ghost predicate StillWaiting(lim: SessionLimits, arrived: seq<string>) {
    var d := Serve(lim.parser, INITIAL, [], arrived);
    d.requests == [] && d.last.More?
  }

  ghost predicate HasRoom(lim: SessionLimits, arrived: seq<string>)
    requires StillWaiting(lim, arrived)
  {
    |Serve(lim.parser, INITIAL, [], arrived).last.rest| + lim.readChunk <= lim.maxBuffer
  }

  /** A run of the loop that ends with a full buffer: reads of at most one chunk, each
      of which fits, and after the last of them the next one does not. */
  ghost predicate FillsUp(lim: SessionLimits, arrived: seq<string>) {
    && Chunks(lim, arrived)
    && (forall k | 0 <= k <= |arrived| :: StillWaiting(lim, arrived[..k]))
    && (forall k | 0 <= k < |arrived| :: HasRoom(lim, arrived[..k]))
    && StillWaiting(lim, arrived) && !HasRoom(lim, arrived)
  }

  predicate Chunks(lim: SessionLimits, arrived: seq<string>) {
    forall k | 0 <= k < |arrived| :: 0 < |arrived[k]| <= lim.readChunk
  }

  // ------------------------------------------------------------- never beyond

  lemma {:induction false} ServePays(lim: Limits, p: Parser, buf: string, frags: seq<string>)
    requires Inv(lim, p) && p.Active() && Paid(lim, p)
    ensures var d := Serve(lim, p, buf, frags);
            d.requests == [] && d.last.More? ==> |d.last.rest| <= Residue(lim)
    decreases |frags|
  {
    hide Run; hide Inv; hide Paid; hide Residue;
    RunPays(lim, p, buf);
    var o := Run(lim, p, buf);
    if o.More? && frags != [] { ServePays(lim, o.p, o.rest + frags[0], frags[1..]); }
  }

  // -------------------------------------------------------------- one by one

  function Singles(s: string): (r: seq<string>)
    ensures |r| == |s|
  {
    seq(|s|, i requires 0 <= i < |s| => [s[i]])
  }

  lemma {:induction false} FlattenSingles(s: string, k: nat)
    requires k <= |s|
    ensures Flatten(Singles(s)[..k]) == s[..k]
  {
    if k > 0 {
      FlattenSingles(s, k - 1);
      var front := Singles(s)[..k - 1];
      assert Singles(s)[..k] == front + [[s[k - 1]]];
      FlattenLast(front, [s[k - 1]], []);
      Concat(Flatten(front + [[s[k - 1]]]), [], []);
      Concat([s[k - 1]], [], []);
      assert s[..k] == s[..k - 1] + [s[k - 1]];
    }
  }

  /** Bytes whose cut cannot matter: there is no request line of maximum length. */
  predicate CutFree(lim: Limits, p: Parser, t: string) {
    p.state == RequestLine ==> !(FindCrlf(t) == lim.maxRequestLine < |t|)
  }

  /** If a text leaves the parser waiting, so does every part of it, however it comes. */
  lemma PrefixWaits(lim: Limits, p: Parser, t: string, k: nat, frags: seq<string>)
    requires Inv(lim, p) && p.Active() && Run(lim, p, t).More? && CutFree(lim, p, t)
    requires k <= |t| && Flatten(frags) == t[..k]
    ensures Run(lim, p, t[..k]).More?
    ensures Serve(lim, p, [], frags) == Delivery([], Run(lim, p, t[..k]))
  {
    hide Run; hide Inv; hide FindCrlf;
    var a, b := t[..k], t[k..];
    assert t == a + b;
    RunAppend(lim, p, a, b);
    NoLongLine(lim, p, a, b);
    assert !CutMatters(lim, p, a);
    Concat(a, [], []);
    ServeAgainstOneShot(lim, p, [], frags);
  }

  lemma NoLongLine(lim: Limits, p: Parser, a: string, b: string)
    requires CutFree(lim, p, a + b)
    ensures CutFree(lim, p, a)
  {
    hide FindCrlf;
    if FindCrlf(a) < |a| { FindCrlfPrefix(a, b); }
  }

  /** Serving in two parts. */
  lemma {:induction false} ServeSplit(lim: Limits, p: Parser, buf: string, front: seq<string>,
                                      q: Parser, rest: string, back: seq<string>)
    requires Inv(lim, p) && p.Active() && back != []
    requires Serve(lim, p, buf, front) == Delivery([], More(q, rest))
    ensures Inv(lim, q) && q.Active()
    ensures Serve(lim, p, buf, front + back) == Serve(lim, q, rest + back[0], back[1..])
    decreases |front|
  {
    hide Run; hide Inv;
    var o := Run(lim, p, buf);
    if front == [] {
      assert front + back == back;
    } else {
      assert (front + back)[1..] == front[1..] + back;
      ServeSplit(lim, o.p, o.rest + front[0], front[1..], q, rest, back);
    }
  }

  // ---------------------------------------------------------------- the witnesses

  /** Reads of one byte, and request lines limited to the shortest. */
  predicate TooFine(lim: SessionLimits) {
    lim.readChunk == 1 && lim.parser.maxRequestLine == SHORTEST_LINE
  }

  /** Everything up to here waits, and this is what is left. */
  ghost predicate AllWait(lim: SessionLimits, arrived: seq<string>, left: nat) {
    && Chunks(lim, arrived)
    && (forall k | 0 <= k <= |arrived| :: StillWaiting(lim, arrived[..k]))
    && StillWaiting(lim, arrived)
    && |Serve(lim.parser, INITIAL, [], arrived).last.rest| == left
  }

  lemma LongLineArrives(lim: SessionLimits) returns (arrived: seq<string>)
    requires lim.Valid()
    ensures AllWait(lim, arrived, lim.parser.maxRequestLine)
  {
    hide Run; hide Serve; hide FindCrlf;
    var n := lim.parser.maxRequestLine;
    var t := Repeat('a', n);
    NoCrlf(n);
    LongLineWaits(lim.parser);
    arrived := Singles(t);
    forall k | 0 <= k <= |arrived| ensures StillWaiting(lim, arrived[..k]) {
      FlattenSingles(t, k);
      PrefixWaits(lim.parser, INITIAL, t, k, arrived[..k]);
    }
    FlattenSingles(t, n);
    assert arrived[..n] == arrived && t[..n] == t;
    PrefixWaits(lim.parser, INITIAL, t, n, arrived);
  }

  /** The shortest request line byte by byte, its line end in one read, and then `t`
      byte by byte. */
  function AfterLineReads(t: string): seq<string> { Singles(OLD_LINE) + [CRLF] + Singles(t) }

  lemma LineWaits(lim: Limits)
    requires LineFits(lim)
    ensures Run(lim, INITIAL, OLD_LINE) == More(INITIAL, OLD_LINE) && FindCrlf(OLD_LINE) == |OLD_LINE|
  {
    hide Run; hide FindCrlf; hide ParseRequestLine;
    ShortestParses();
    TextWaits(lim, OLD_LINE);
  }

  /** A text without CR that is not too long for a request line waits for more. */
  lemma TextWaits(lim: Limits, s: string)
    requires '\r' !in s && |s| <= lim.maxRequestLine
    ensures Run(lim, INITIAL, s) == More(INITIAL, s) && FindCrlf(s) == |s|
  {
    hide OnLine;
    assert forall j: nat | j < |s| :: !CrlfAt(s, j);
  }

  lemma BackAtHeaders(lim: Limits, frags: seq<string>)
    requires LineFits(lim)
    ensures Inv(lim, AfterShortest())
    ensures Serve(lim, INITIAL, OLD_LINE + CRLF, frags) == Serve(lim, AfterShortest(), [], frags)
  {
    hide Run;
    AfterLineOne(lim, []);
    Concat(OLD_LINE + CRLF, [], []);
    assert Run(lim, AfterShortest(), []) == Run(lim, INITIAL, OLD_LINE + CRLF);
    EmptyWaits(lim, AfterShortest());
  }

  lemma EmptyWaits(lim: Limits, p: Parser)
    requires Inv(lim, p) && p.Active() && p.state == State.Headers
    ensures Run(lim, p, []) == More(p, [])
  {}

  lemma AfterLineArrives(lim: SessionLimits, t: string) returns (arrived: seq<string>)
    requires lim.Valid() && !TooFine(lim) && LineFits(lim.parser)
    requires Inv(lim.parser, AfterShortest()) && Run(lim.parser, AfterShortest(), t).More?
    ensures AllWait(lim, arrived, |Run(lim.parser, AfterShortest(), t).rest|)
  {
    if lim.parser.maxRequestLine == 12 {
      arrived := PairedArrives(lim, t);
    } else {
      arrived := SinglesArrive(lim, t);
    }
  }

  /** Longer request lines are allowed: every byte may come alone. */
  lemma SinglesArrive(lim: SessionLimits, t: string) returns (arrived: seq<string>)
    requires lim.Valid() && LineFits(lim.parser) && lim.parser.maxRequestLine != 12
    requires Inv(lim.parser, AfterShortest()) && Run(lim.parser, AfterShortest(), t).More?
    ensures AllWait(lim, arrived, |Run(lim.parser, AfterShortest(), t).rest|)
  {
    hide Run; hide Serve; hide FindCrlf; hide Flatten;
    var text := OLD_LINE + CRLF + t;
    AfterLineOne(lim.parser, t);
    assert FindCrlf(text) == 12 by { FindCrlfLine(OLD_LINE, t); }
    arrived := Singles(text);
    forall k | 0 <= k <= |arrived| ensures StillWaiting(lim, arrived[..k]) {
      FlattenSingles(text, k);
      PrefixWaits(lim.parser, INITIAL, text, k, arrived[..k]);
    }
    FlattenSingles(text, |text|);
    assert arrived[..|text|] == arrived && text[..|text|] == text;
    PrefixWaits(lim.parser, INITIAL, text, |text|, arrived);
  }

  /** The line end comes in one read. */
  lemma PairedArrives(lim: SessionLimits, t: string) returns (arrived: seq<string>)
    requires lim.Valid() && lim.readChunk >= 2 && LineFits(lim.parser)
    requires Inv(lim.parser, AfterShortest()) && Run(lim.parser, AfterShortest(), t).More?
    ensures AllWait(lim, arrived, |Run(lim.parser, AfterShortest(), t).rest|)
  {
    hide Run; hide Serve; hide FindCrlf; hide Inv; hide Singles; hide Flatten;
    arrived := AfterLineReads(t);
    ChunksOfReads(lim, t);
    forall k | 0 <= k <= |arrived| ensures StillWaiting(lim, arrived[..k]) {
      if k <= 12 {
        WaitInLine(lim, t, k);
      } else {
        WaitAfterLine(lim, t, k - 13);
      }
    }
    WaitAfterLine(lim, t, |t|);
    assert arrived[..13 + |t|] == arrived && t[..|t|] == t;
  }

  lemma ChunksOfReads(lim: SessionLimits, t: string)
    requires lim.readChunk >= 2
    ensures Chunks(lim, AfterLineReads(t)) && |AfterLineReads(t)| == 13 + |t|
  {}

  lemma WaitInLine(lim: SessionLimits, t: string, k: nat)
    requires lim.Valid() && LineFits(lim.parser) && k <= 12
    ensures k <= |AfterLineReads(t)| && StillWaiting(lim, AfterLineReads(t)[..k])
  {
    hide Run; hide Serve; hide FindCrlf; hide Flatten;
    LineWaits(lim.parser);
    FlattenSingles(OLD_LINE, k);
    assert AfterLineReads(t)[..k] == Singles(OLD_LINE)[..k];
    PrefixWaits(lim.parser, INITIAL, OLD_LINE, k, Singles(OLD_LINE)[..k]);
  }

  lemma WaitAfterLine(lim: SessionLimits, t: string, k: nat)
    requires lim.Valid() && LineFits(lim.parser) && k <= |t|
    requires Inv(lim.parser, AfterShortest()) && Run(lim.parser, AfterShortest(), t).More?
    ensures 13 + k <= |AfterLineReads(t)| && StillWaiting(lim, AfterLineReads(t)[..13 + k])
    ensures Serve(lim.parser, INITIAL, [], AfterLineReads(t)[..13 + k])
         == Delivery([], Run(lim.parser, AfterShortest(), t[..k]))
  {
    hide Run; hide Serve; hide FindCrlf; hide Inv; hide Flatten;
    var line, back := Singles(OLD_LINE), [CRLF] + Singles(t)[..k];
    assert AfterLineReads(t)[..13 + k] == line + back;
    LineWaits(lim.parser);
    FlattenSingles(OLD_LINE, 12);
    assert line[..12] == line && OLD_LINE[..12] == OLD_LINE;
    PrefixWaits(lim.parser, INITIAL, OLD_LINE, 12, line);
    ServeSplit(lim.parser, INITIAL, [], line, INITIAL, OLD_LINE, back);
    assert back[1..] == Singles(t)[..k];
    BackAtHeaders(lim.parser, Singles(t)[..k]);
    FlattenSingles(t, k);
    PrefixWaits(lim.parser, AfterShortest(), t, k, Singles(t)[..k]);
  }

  // ------------------------------------------------------------- the first full one

  /** Cutting a waiting run where the room first runs out. */
  lemma {:induction false} FirstFull(lim: SessionLimits, arrived: seq<string>)
      returns (full: seq<string>)
    requires Chunks(lim, arrived) && StillWaiting(lim, arrived) && !HasRoom(lim, arrived)
    requires forall k | 0 <= k <= |arrived| :: StillWaiting(lim, arrived[..k])
    ensures FillsUp(lim, full)
    decreases |arrived|
  {
    hide StillWaiting; hide HasRoom;
    if forall k | 0 <= k < |arrived| :: HasRoom(lim, arrived[..k]) {
      full := arrived;
    } else {
      var k :| 0 <= k < |arrived| && !HasRoom(lim, arrived[..k]);
      forall i | 0 <= i <= k ensures StillWaiting(lim, arrived[..k][..i]) {
        assert arrived[..k][..i] == arrived[..i];
      }
      full := FirstFull(lim, arrived[..k]);
    }
  }

  lemma ResidueArrives(lim: SessionLimits) returns (arrived: seq<string>)
    requires lim.Valid()
    ensures AllWait(lim, arrived, LoopResidue(lim))
  {
    hide Run; hide LongestBody; hide AllWait;
    var p := lim.parser;
    if LoopResidue(lim) == p.maxRequestLine {
      arrived := LongLineArrives(lim);
    } else if LongestBody(p) > 0 && Residue(p) == LongestBody(p) - 1 {
      var t := BodyAfterLine(p);
      arrived := AfterLineArrives(lim, t);
    } else {
      var t := Repeat('a', p.maxHeaderBytes - 14);
      LongHeaderWaits(p);
      AfterLineOne(p, t);
      arrived := AfterLineArrives(lim, t);
    }
  }

  lemma BodyAfterLine(p: Limits) returns (t: string)
    requires p.Valid() && LongestBody(p) > 0
    ensures LineFits(p) && Inv(p, AfterShortest()) && Run(p, AfterShortest(), t).More?
    ensures |Run(p, AfterShortest(), t).rest| == LongestBody(p) - 1
  {
    hide Run; hide Pow;
    assert LineFits(p);
    var buf;
    buf, t := LongBodyWaits(p, LongestBody(p));
    AfterLineOne(p, t);
  }

  // ------------------------------------------------------------- the fine corner

  /** One more byte of a line that is too short to end. */
  lemma OneMoreByte(lim: Limits, buf: string)
    requires lim.Valid() && lim.maxRequestLine == 12 && |buf| <= 13
    requires |buf| > 0 ==> FindCrlf(buf[..|buf| - 1]) == |buf| - 1
    ensures var o := Run(lim, INITIAL, buf);
            !o.Done? && (o.More? ==> o == More(INITIAL, buf) && |buf| <= 12 && FindCrlf(buf) == |buf|)
  {
    hide ParseRequestLine;
    var i := FindCrlf(buf);
    if i < |buf| {
      assert CrlfAt(buf, i);
      var front := buf[..|buf| - 1];
      assert buf == front + [buf[|buf| - 1]];
      FindCrlfPending(front, [buf[|buf| - 1]]);
      assert |buf[..i]| <= 11;
      if ParseRequestLine(buf[..i]).Some? { RequestLineLength(buf[..i]); }
      assert ParseRequestLine(buf[..i]).None?;
    }
  }

  lemma {:induction false} FineServe(lim: Limits, buf: string, frags: seq<string>)
    requires lim.Valid() && lim.maxRequestLine == 12 && |buf| <= 13
    requires |buf| > 0 ==> FindCrlf(buf[..|buf| - 1]) == |buf| - 1
    requires forall k | 0 <= k < |frags| :: |frags[k]| == 1
    ensures var d := Serve(lim, INITIAL, buf, frags);
            d.last.More? ==> |d.last.rest| <= 12
    decreases |frags|
  {
    hide Run; hide FindCrlf;
    OneMoreByte(lim, buf);
    var o := Run(lim, INITIAL, buf);
    if o.More? && frags != [] {
      var more := buf + frags[0];
      assert more[..|more| - 1] == buf;
      FineServe(lim, more, frags[1..]);
    }
  }

  // ---------------------------------------------------------------------- exactly

  /** The residue as the loop can reach it. */
  function LoopResidue(lim: SessionLimits): nat {
    if TooFine(lim) then lim.parser.maxRequestLine else Residue(lim.parser)
  }

  lemma LoopBound(lim: SessionLimits, arrived: seq<string>)
    requires lim.Valid() && Chunks(lim, arrived) && StillWaiting(lim, arrived)
    ensures |Serve(lim.parser, INITIAL, [], arrived).last.rest| <= LoopResidue(lim)
  {
    hide Run; hide Residue; hide Serve;
    if TooFine(lim) {
      FineServe(lim.parser, [], arrived);
    } else {
      ServePays(lim.parser, INITIAL, [], arrived);
    }
  }

  /** Some reads of at most one chunk end in a full buffer if and only if the limits do
      not leave room for what an unfinished request can leave and one more read. */
  lemma LoopRoomExactly(lim: SessionLimits)
    requires lim.Valid()
    ensures (exists arrived :: FillsUp(lim, arrived)) <==>
              lim.maxBuffer < LoopResidue(lim) + lim.readChunk
    ensures !TooFine(lim) ==> ((exists arrived :: FillsUp(lim, arrived)) <==> !lim.Roomy())
  {
    hide Run; hide Residue; hide Serve;
    if lim.maxBuffer < LoopResidue(lim) + lim.readChunk {
      var arrived := ResidueArrives(lim);
      var full := FirstFull(lim, arrived);
    } else {
      forall arrived ensures !FillsUp(lim, arrived) {
        if FillsUp(lim, arrived) { LoopBound(lim, arrived); }
      }
    }
  }
}
