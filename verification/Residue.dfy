/** The most bytes an unfinished request can leave unread, in closed form. */
module RequestResidue {
  import opened Bytes
  import opened Headers
  import opened Messages
  import opened RequestParser
  import opened RequestFraming
  import opened RequestRoundTrip
  import Printers

  function Max(a: nat, b: nat): nat { if a < b then b else a }

  function Min(a: nat, b: nat): nat { if a < b then a else b }

  /** The shortest request line, such as `G / HTTP/1.1`, has twelve bytes. */
  const SHORTEST_LINE: nat := 12

  predicate LineFits(lim: Limits) {
    SHORTEST_LINE <= lim.maxRequestLine && SHORTEST_LINE + 2 <= lim.maxHeaderBytes
  }

  /** How many digits a Content-Length can have at most: a line of fifteen bytes more,
      after the shortest request line and before the blank line. */
  function LengthDigits(lim: Limits): int {
    var byHead, byLine := lim.maxHeaderBytes - 33, lim.maxHeaderLine - 15;
    if byHead < byLine then byHead else byLine
  }

  /** The longest body that a request can announce. */
  function LongestBody(lim: Limits): nat {
    if lim.maxRequestLine < SHORTEST_LINE || LengthDigits(lim) < 1 then 0
    else Min(lim.maxBody, Pow(10, LengthDigits(lim)) - 1)
  }

  function Residue(lim: Limits): nat {
    Max(lim.maxRequestLine,
        Max(if LineFits(lim) then lim.maxHeaderBytes - SHORTEST_LINE - 2 else 0,
            if LongestBody(lim) > 0 then LongestBody(lim) - 1 else 0))
  }

  // ------------------------------------------------------- what a head has cost

  predicate HeadersFitLines(lim: Limits, hs: seq<Header>) {
    forall i | 0 <= i < |hs| :: |hs[i].name| + 1 + |hs[i].value| <= lim.maxHeaderLine
  }

  /** A parser between two calls, reached from the initial one: the bytes it has
      counted pay for what it holds. */
  predicate Paid(lim: Limits, p: Parser) {
    match p.state
    case RequestLine => p.request.headers == []
    case Headers =>
      && LineFits(lim) && HeadersFitLines(lim, p.request.headers)
      && SHORTEST_LINE + 2 + HeaderCost(p.request.headers) <= p.headerBytes <= lim.maxHeaderBytes
    case Body => p.expectedBody <= LongestBody(lim)
    case _ => true
  }

  lemma CompleteIsPaid(lim: Limits, p: Parser)
    requires p.state == Complete
    ensures Paid(lim, p)
  {}

  lemma RequestLineLength(line: string)
    requires ParseRequestLine(line).Some?
    ensures |line| >= SHORTEST_LINE
  {
    hide ValidTarget; hide ParseMethod;
    var first := Find(line, ' ');
    var tail := line[first + 1..];
    var second := Find(tail, ' ');
    assert line[..first] != [];
    assert ValidTarget(tail[..second]);
    TargetIsNotEmpty(tail[..second]);
    assert |tail[second + 1..]| == 8;
  }

  lemma TargetIsNotEmpty(t: string)
    requires ValidTarget(t)
    ensures |t| >= 1
  {}

  /** A value among the headers was paid for, with its name. */
  lemma {:induction false} ValueCost(lim: Limits, hs: seq<Header>, name: string)
    requires HeadersFitLines(lim, hs)
    ensures forall v | v in Values(hs, name) ::
              |name| + |v| + 3 <= HeaderCost(hs) && |name| + 1 + |v| <= lim.maxHeaderLine
  {
    if hs != [] {
      var n := |hs| - 1;
      assert hs == hs[..n] + [hs[n]];
      ValueCost(lim, hs[..n], name);
      ValuesAppend(hs[..n], [hs[n]], name);
      assert [hs[n]][1..] == [];
      assert Values([hs[n]], name) == if hs[n].name == Lower(name) then [hs[n].value] else [];
    }
  }

  lemma {:induction false} ValueBelow(s: string)
    requires AllDigits(10, s)
    ensures Value(10, s) < Pow(10, |s|)
  {
    if s != [] { ValueBelow(s[..|s| - 1]); }
  }

  lemma {:induction false} PowGrows(a: nat, b: nat)
    requires a <= b
    ensures Pow(10, a) <= Pow(10, b)
  {
    if a < b { PowGrows(a, b - 1); }
  }

  // ------------------------------------------------------------- the upper bound

  lemma RequestLinePays(lim: Limits, p: Parser, line: string)
    requires Inv(lim, p) && p.state == RequestLine && Paid(lim, p)
    ensures var n := OnLine(lim, p, line); n.Go? ==> Paid(lim, n.p)
  {
    hide ParseRequestLine;
    if OnLine(lim, p, line).Go? { RequestLineLength(line); }
  }

  lemma HeaderLinePays(lim: Limits, p: Parser, line: string)
    requires Inv(lim, p) && p.state == State.Headers && Paid(lim, p) && line != []
    ensures var n := OnLine(lim, p, line); n.Go? ==> Paid(lim, n.p)
  {
    hide ParseHeaderLine; hide FinishHeaders;
    var n, parsed := OnLine(lim, p, line), ParseHeaderLine(line);
    if n.Go? {
      HeaderLineLength(line);
      CostSnoc(p.request.headers, parsed.value);
    }
  }

  lemma BlankLinePays(lim: Limits, p: Parser)
    requires Inv(lim, p) && p.state == State.Headers && Paid(lim, p)
    requires SHORTEST_LINE + 2 + HeaderCost(p.request.headers) + 2 <= p.headerBytes
    ensures var n := FinishHeaders(lim, p); n.Go? ==> Paid(lim, n.p)
  {
    hide ParseSize; hide Pow;
    var n := FinishHeaders(lim, p);
    if n.Go? && n.p.state == Body {
      var lengths := Values(p.request.headers, "content-length");
      ValueCost(lim, p.request.headers, "content-length");
      assert lengths[0] in lengths;
      LengthPays(lim, lengths[0]);
    }
  }

  lemma LengthPays(lim: Limits, v: string)
    requires ParseSize(10, v).Some? && ParseSize(10, v).value <= lim.maxBody
    requires SHORTEST_LINE <= lim.maxRequestLine
    requires 33 + |v| <= lim.maxHeaderBytes && 15 + |v| <= lim.maxHeaderLine
    ensures ParseSize(10, v).value <= LongestBody(lim)
  {
    ValueBelow(v);
    PowGrows(|v|, LengthDigits(lim));
  }

  lemma StepPays(lim: Limits, p: Parser, buf: string)
    requires Inv(lim, p) && p.Active() && Paid(lim, p)
    ensures var r := Step(lim, p, buf); r.Continue? ==> Paid(lim, r.p)
  {
    hide OnLine; hide Inv; hide FindCrlf;
    var r := Step(lim, p, buf);
    if r.Continue? {
      var line := buf[..FindCrlf(buf)];
      if p.state == RequestLine {
        RequestLinePays(lim, p, line);
      } else if line != [] {
        HeaderLinePays(lim, p, line);
      } else {
        OnBlankPays(lim, p);
      }
    }
  }

  lemma OnBlankPays(lim: Limits, p: Parser)
    requires Inv(lim, p) && p.state == State.Headers && Paid(lim, p)
    ensures var n := OnLine(lim, p, []); n.Go? ==> Paid(lim, n.p)
  {
    hide FinishHeaders;
    var q := p.(headerBytes := p.headerBytes + 2);
    if q.headerBytes <= lim.maxHeaderBytes && 0 <= lim.maxHeaderLine { BlankLinePays(lim, q); }
  }

  /** Whenever a call asks for more, the unread bytes are within the residue. */
  lemma {:induction false} RunPays(lim: Limits, p: Parser, buf: string)
    requires Inv(lim, p) && p.Active() && Paid(lim, p)
    ensures var o := Run(lim, p, buf);
            o.More? ==> Paid(lim, o.p) && |o.rest| <= Residue(lim)
    decreases |buf|
  {
    hide Step; hide Inv; hide LongestBody;
    StepPays(lim, p, buf);
    var r := Step(lim, p, buf);
    if r.Continue? { RunPays(lim, r.p, r.rest); }
  }

  // ------------------------------------------------------------------- witnesses

  function Repeat(c: char, n: nat): (s: string)
    ensures |s| == n && forall i | 0 <= i < n :: s[i] == c
  {
    seq(n, _ => c)
  }

  lemma NoCrlf(n: nat)
    ensures FindCrlf(Repeat('a', n)) == n && '\r' !in Repeat('a', n)
  {
    var s := Repeat('a', n);
    assert forall j: nat | j < |s| :: !CrlfAt(s, j);
  }

  /** A request line of exactly the maximum length that has not ended yet. */
  lemma LongLineWaits(lim: Limits)
    ensures Run(lim, INITIAL, Repeat('a', lim.maxRequestLine))
              == More(INITIAL, Repeat('a', lim.maxRequestLine))
  {
    hide OnLine;
    NoCrlf(lim.maxRequestLine);
  }

  const OLD_LINE: string := "G / HTTP/1.0"

  /** The parser after the shortest request line. */
  function AfterShortest(): Parser {
    INITIAL.(request := Request(Unknown, "/", 0, [], []), state := State.Headers, headerBytes := 14)
  }

  lemma ParseOld(line: string, verb: string, target: string, tail: string)
    requires Find(line, ' ') == |verb| < |line| && line[..|verb|] == verb
    requires tail == line[|verb| + 1..] && Find(tail, ' ') == |target| < |tail|
    requires tail[..|target|] == target && tail[|target| + 1..] == "HTTP/1.0"
    requires ValidName(verb) && ValidTarget(target)
    ensures ParseRequestLine(line) == Some((ParseMethod(verb), target, 0))
  {
    hide ParseMethod; hide ValidName; hide ValidTarget; hide Find;
  }

  lemma ShortestParses()
    ensures ParseRequestLine(OLD_LINE) == Some((Unknown, "/", 0)) && '\r' !in OLD_LINE
  {
    hide ParseRequestLine;
    var line, tail := OLD_LINE, "/ HTTP/1.0";
    FindIs(line, ' ', 1);
    FindIs(tail, ' ', 1);
    assert line[2..] == tail && line[..1] == "G" && tail[..1] == "/" && tail[2..] == "HTTP/1.0";
    assert IsTokenChar("G"[0]) && ValidName("G") && ValidTarget("/");
    ParseOld(line, "G", "/", tail);
  }

  lemma AfterLineOne(lim: Limits, rest: string)
    requires LineFits(lim)
    ensures Inv(lim, AfterShortest())
    ensures Run(lim, INITIAL, OLD_LINE + CRLF + rest) == Run(lim, AfterShortest(), rest)
  {
    hide ParseRequestLine;
    ShortestParses();
    TakeLine(lim, INITIAL, OLD_LINE, rest);
    assert OnLine(lim, INITIAL, OLD_LINE) == Go(AfterShortest());
    RunContinues(lim, INITIAL, OLD_LINE + CRLF + rest, AfterShortest(), rest);
  }

  /** A header line that fills the head and has not ended yet. */
  lemma LongHeaderWaits(lim: Limits)
    requires LineFits(lim)
    ensures var rest := Repeat('a', lim.maxHeaderBytes - 14);
            && Inv(lim, AfterShortest())
            && Run(lim, INITIAL, OLD_LINE + CRLF + rest) == More(AfterShortest(), rest)
  {
    hide OnLine;
    var rest := Repeat('a', lim.maxHeaderBytes - 14);
    AfterLineOne(lim, rest);
    NoCrlf(lim.maxHeaderBytes - 14);
  }

  const LENGTH_NAME: string := "content-length"

  function LengthLine(n: nat): string { LENGTH_NAME + ":" + Digits(10, n) }

  lemma NoTrimming(s: string)
    requires forall c | c in s :: !IsBlank(c)
    ensures Trim(s) == s
  {
    if s != [] { assert s[0] in s && s[|s| - 1] in s; }
    assert TrimLeft(s) == s;
    assert TrimRight(s) == s;
  }

  lemma LengthLineParses(n: nat)
    ensures ParseHeaderLine(LengthLine(n)) == Some(Header(LENGTH_NAME, Digits(10, n)))
    ensures '\r' !in LengthLine(n)
  {
    hide Digits; hide Find; hide Trim; hide Lower; hide ValidName; hide ValidValue;
    hide ParseHeaderLine;
    var line, digits := LengthLine(n), Digits(10, n);
    assert Find(line, ':') == 14 < |line| && line[..14] == LENGTH_NAME && line[15..] == digits
           && ValidName(LENGTH_NAME) && Lower(LENGTH_NAME) == LENGTH_NAME by {
      NameFacts();
      SplitName(LENGTH_NAME, digits, line);
    }
    assert Trim(digits) == digits && ValidValue(digits) && '\r' !in digits by {
      PlainDigits(n);
    }
    assert '\r' !in line by { NameFacts(); }
    Printers.ParsePieces(line, LENGTH_NAME, digits, digits);
  }

  lemma PlainDigits(n: nat)
    ensures var s := Digits(10, n); Trim(s) == s && ValidValue(s) && '\r' !in s
  {
    hide Digits; hide Trim;
    NoTrimming(Digits(10, n));
  }

  lemma SplitName(name: string, tail: string, line: string)
    requires ':' !in name && line == name + ":" + tail
    ensures Find(line, ':') == |name| < |line|
    ensures line[..|name|] == name && line[|name| + 1..] == tail
  {
    assert forall j | 0 <= j < |name| :: line[j] == name[j];
    FindIs(line, ':', |name|);
  }

  lemma NameFacts()
    ensures |LENGTH_NAME| == 14 && ValidName(LENGTH_NAME) && Lower(LENGTH_NAME) == LENGTH_NAME
    ensures ':' !in LENGTH_NAME && '\r' !in LENGTH_NAME
  {}

  /** The parser that waits for a body of `n` bytes, announced as briefly as can be. */
  function AwaitingBody(n: nat): Parser {
    AfterShortest().(
      request := Request(Unknown, "/", 0, [Header(LENGTH_NAME, Digits(10, n))], []),
      headerBytes := 33 + |Digits(10, n)|, headerCount := 1, expectedBody := n,
      state := Body)
  }

  /** The same parser, before the blank line. */
  function AtBlank(n: nat): Parser {
    AwaitingBody(n).(expectedBody := 0, state := State.Headers, headerBytes := 31 + |Digits(10, n)|)
  }

  lemma OneLength(v: string)
    ensures var hs := [Header(LENGTH_NAME, v)];
            && Values(hs, "content-length") == [v] && !Contains(hs, "transfer-encoding")
  {
    var hs := [Header(LENGTH_NAME, v)];
    assert hs[1..] == [];
    assert Lower("content-length") == LENGTH_NAME;
    assert |Lower("transfer-encoding")| != |LENGTH_NAME|;
  }

  lemma LengthLineTaken(lim: Limits, n: nat, rest: string)
    requires lim.Valid() && 15 + |Digits(10, n)| <= lim.maxHeaderLine
    requires 31 + |Digits(10, n)| <= lim.maxHeaderBytes
    ensures Inv(lim, AfterShortest()) && Inv(lim, AtBlank(n))
    ensures Run(lim, AfterShortest(), LengthLine(n) + CRLF + rest) == Run(lim, AtBlank(n), rest)
  {
    hide ParseHeaderLine; hide OnLine; hide Digits; hide ValidName;
    var p, line, h := AfterShortest(), LengthLine(n), Header(LENGTH_NAME, Digits(10, n));
    LengthLineParses(n);
    NameFacts();
    assert Inv(lim, p) && Clean(h) && |line| == 15 + |Digits(10, n)|;
    TakeLine(lim, p, line, rest);
    OnHeaderLine(lim, p, line, Some(h), p.(headerBytes := p.headerBytes + |line| + 2));
    assert [] + [h] == [h];
    assert OnLine(lim, p, line) == Go(AtBlank(n));
    hide Inv; hide ParseHeaderLine;
    RunContinues(lim, p, line + CRLF + rest, AtBlank(n), rest);
  }

  lemma HeadEnds(lim: Limits, n: nat, rest: string)
    requires lim.Valid() && 0 < n <= lim.maxBody && Inv(lim, AtBlank(n))
    requires 33 + |Digits(10, n)| <= lim.maxHeaderBytes
    ensures Inv(lim, AwaitingBody(n))
    ensures Run(lim, AtBlank(n), CRLF + rest) == Run(lim, AwaitingBody(n), rest)
  {
    hide ParseHeaderLine;
    var q := AtBlank(n);
    TakeLine(lim, q, [], rest);
    Concat(CRLF, rest, []);
    assert [] + CRLF + rest == CRLF + rest;
    OneLength(Digits(10, n));
    SizeRoundTrip(10, n);
    hide ParseSize; hide Values; hide Digits;
    assert OnLine(lim, q, []) == Go(AwaitingBody(n));
    RunContinues(lim, q, CRLF + rest, AwaitingBody(n), rest);
  }

  /** A body that lacks its last byte. */
  lemma LongBodyWaits(lim: Limits, n: nat) returns (buf: string, afterLine: string)
    requires lim.Valid() && 0 < n <= LongestBody(lim)
    ensures Inv(lim, AwaitingBody(n)) && buf == OLD_LINE + CRLF + afterLine
    ensures Run(lim, INITIAL, buf) == More(AwaitingBody(n), Repeat('a', n - 1))
  {
    hide Pow;
    DigitsLength(10, n, LengthDigits(lim));
    var rest := Repeat('a', n - 1);
    afterLine := LengthLine(n) + CRLF + (CRLF + rest);
    buf := OLD_LINE + CRLF + afterLine;
    AfterLineOne(lim, afterLine);
    LengthLineTaken(lim, n, CRLF + rest);
    HeadEnds(lim, n, rest);
    assert Run(lim, AwaitingBody(n), rest) == More(AwaitingBody(n), rest);
  }

  // ---------------------------------------------------------------------- exactly

  /** No unfinished request leaves more than `bound` bytes unread. */
  ghost predicate NeverLeavesMore(lim: Limits, bound: int) {
    forall buf: string | Run(lim, INITIAL, buf).More? :: |Run(lim, INITIAL, buf).rest| <= bound
  }

  /** The residue is the least such bound. */
  lemma ResidueIsExact(lim: Limits, bound: int)
    requires lim.Valid()
    ensures NeverLeavesMore(lim, bound) <==> Residue(lim) <= bound
  {
    hide Run; hide LongestBody;
    if Residue(lim) <= bound {
      forall buf: string | Run(lim, INITIAL, buf).More?
        ensures |Run(lim, INITIAL, buf).rest| <= bound
      {
        RunPays(lim, INITIAL, buf);
      }
    }
    if NeverLeavesMore(lim, bound) {
      LongLineWaits(lim);
      if LineFits(lim) { LongHeaderWaits(lim); }
      if LongestBody(lim) > 0 {
        var buf, _ := LongBodyWaits(lim, LongestBody(lim));
      }
    }
  }
}
