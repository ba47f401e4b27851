/** Which headers travel with a message, and which the printers write themselves, said
    with the names written out. */
module ForwardExact {
  import opened Bytes
  import opened Headers
  import opened Messages
  import opened Printers
  import opened Grammar
  import RequestParser
  import RequestRoundTrip
  import ResponseParser
  import ResponseTheorems

  // -------------------------------------------------------------------- the rule

  /** Names that never travel: those of one connection, and those the gateway writes. */
  predicate NeverTravels(name: string) {
    || name == "connection" || name == "keep-alive" || name == "proxy-authenticate"
    || name == "proxy-authorization" || name == "te" || name == "trailer"
    || name == "transfer-encoding" || name == "upgrade"
    || name == "host" || name == "content-length" || name == "x-forwarded-for"
    || name == "x-forwarded-proto" || name == "x-request-id"
  }

  /** Some Connection header lists the name. */
  ghost predicate Listed(hs: seq<Header>, name: string) {
    exists i | 0 <= i < |hs| :: hs[i].name == "connection" && HasToken(CommaParts(hs[i].value), name)
  }

  /** The first headers of a message that travel, in order. */
  ghost function Travelling(hs: seq<Header>, message: seq<Header>): (r: seq<Header>) {
    if hs == [] then [] else
    var n := |hs| - 1;
    Travelling(hs[..n], message)
      + if NeverTravels(hs[n].name) || Listed(message, hs[n].name) then [] else [hs[n]]
  }

  lemma {:induction false} ListedByValue(hs: seq<Header>, name: string)
    ensures Nominated(Values(hs, "connection"), name) <==> Listed(hs, name)
  {
    hide ContainsToken; hide HasToken; hide CommaParts; hide Lower;
    assert Lower("connection") == "connection" by { LowerNames(); }
    if hs != [] {
      var n := |hs| - 1;
      var front, last := hs[..n], hs[n];
      assert hs == front + [last];
      ListedByValue(front, name);
      ValuesExactly(front, last, "connection");
      ContainsTokenIsMembership(last.value, name);
      hide Values;
      NominatedOneMore(Values(front, "connection"), last.value, name);
      ListedOneMore(front, last, name);
    } else {
      assert !Nominated([], name);
    }
  }

  lemma NominatedOneMore(values: seq<string>, value: string, name: string)
    ensures Nominated(values + [value], name) <==> Nominated(values, name) || ContainsToken(value, name)
  {
    hide ContainsToken;
    var all := values + [value];
    if ContainsToken(value, name) { assert ContainsToken(all[|values|], name); }
    if Nominated(values, name) {
      var i :| 0 <= i < |values| && ContainsToken(values[i], name);
      assert ContainsToken(all[i], name);
    }
  }

  lemma ListedOneMore(hs: seq<Header>, h: Header, name: string)
    ensures Listed(hs + [h], name) <==>
              Listed(hs, name) || (h.name == "connection" && HasToken(CommaParts(h.value), name))
  {
    hide HasToken; hide CommaParts;
    var all := hs + [h];
    if h.name == "connection" && HasToken(CommaParts(h.value), name) {
      assert all[|hs|] == h;
    }
    if Listed(hs, name) {
      var i :| 0 <= i < |hs| && hs[i].name == "connection" && HasToken(CommaParts(hs[i].value), name);
      assert all[i] == hs[i];
    }
  }

  lemma NeverTravelsExactly(name: string)
    ensures NeverTravels(name) <==> name in HOP_BY_HOP || name in REBUILT
  {}

  lemma {:induction false} PassingIsTravelling(hs: seq<Header>, message: seq<Header>)
    ensures Passing(hs, Values(message, "connection")) == Travelling(hs, message)
  {
    if hs != [] {
      var n := |hs| - 1;
      var h := hs[n];
      assert hs == hs[..n] + [h];
      var connections := Values(message, "connection");
      PassingIsTravelling(hs[..n], message);
      PassingAppend(hs[..n], [h], connections);
      NeverTravelsExactly(h.name);
      ListedByValue(message, h.name);
      hide NeverTravels; hide Nominated; hide Listed; hide Values;
      if HopByHop(h.name, connections) {
        PassingNone([h], connections);
      } else {
        PassingAll([h], connections);
      }
    }
  }

  /** A header travels exactly when its name is none of the thirteen and no member of a
      Connection value equals it; those that do keep their order and multiplicity. */
  lemma TravelsExactly(hs: seq<Header>)
    ensures EndToEnd(hs) == Travelling(hs, hs)
  {
    PassingIsTravelling(hs, hs);
  }

  // ------------------------------------------------------------------- the messages

  /** An address with a colon, such as an IPv6 address, is put in brackets. */
  lemma AuthorityExactly(f: Forwarding)
    ensures f.Authority() == if ':' in f.host then "[" + f.host + "]:" + f.service
                             else f.host + ":" + f.service
  {
    var i := Find(f.host, ':');
    if ':' in f.host {
      var j :| 0 <= j < |f.host| && f.host[j] == ':';
      assert i <= j;
    }
  }

  /** What the upstream reads, header by header. */
  lemma UpstreamReadsExactly(lim: RequestParser.Limits, r: Request, f: Forwarding, suffix: string)
    requires RequestParser.ValidTarget(r.target) && AllClean(r.headers) && f.Printable()
    requires RequestRoundTrip.ForwardFits(lim, r, f)
    ensures var o := RequestParser.Run(lim, RequestParser.INITIAL, UpstreamRequest(r, f) + suffix);
            && o.Done? && o.rest == suffix
            && o.p.request == Request(r.verb, r.target, 1,
                 Travelling(r.headers, r.headers) + [
                   Header("host", if ':' in f.host then "[" + f.host + "]:" + f.service
                                  else f.host + ":" + f.service),
                   Header("x-forwarded-for", f.peer), Header("x-forwarded-proto", "http"),
                   Header("x-request-id", f.requestId),
                   Header("content-length", Digits(10, |r.body|)),
                   Header("connection", "keep-alive")],
                 r.body)
  {
    hide *;
    RequestRoundTrip.ForwardedRequestParsesBack(lim, r, f, suffix);
    TravelsExactly(r.headers);
    ReceivedExactly(r, f);
  }

  lemma ReceivedExactly(r: Request, f: Forwarding)
    ensures RequestRoundTrip.Received(r, f) == Request(r.verb, r.target, 1,
              EndToEnd(r.headers) + [
                Header("host", if ':' in f.host then "[" + f.host + "]:" + f.service
                               else f.host + ":" + f.service),
                Header("x-forwarded-for", f.peer), Header("x-forwarded-proto", "http"),
                Header("x-request-id", f.requestId),
                Header("content-length", Digits(10, |r.body|)),
                Header("connection", "keep-alive")],
              r.body)
  {
    hide Digits; hide EndToEnd;
    AuthorityExactly(f);
  }

  /** What the client reads of a streamed response, header by header. */
  lemma ClientReadsExactly(lim: ResponseParser.Limits, r: Response, requestId: string,
                           parts: seq<string>, suffix: string)
    requires AllClean(r.headers) && r.reason != [] && ValidValue(r.reason)
    requires 200 <= r.status <= 999 && r.status != 204 && r.status != 304
    requires ValidValue(requestId) && Trimmed(requestId)
    requires forall i | 0 <= i < |parts| :: parts[i] != []
    requires ResponseTheorems.StreamFits(lim, r, requestId, |Flatten(parts)|)
    ensures var o := ResponseParser.Run(lim, ResponseParser.Initial(false),
                       ResponseTheorems.StreamedBytes(r, requestId, parts) + suffix);
            && o.Done? && o.rest == suffix
            && o.p.response == Response(r.status, r.reason,
                 Travelling(r.headers, r.headers) + [
                   Header("x-request-id", requestId), Header("transfer-encoding", "chunked"),
                   Header("connection", "keep-alive")],
                 Flatten(parts), false, false)
  {
    hide ResponseParser.Run; hide ResponseTheorems.StreamedBytes; hide ResponseTheorems.StreamFits;
    hide AllClean; hide ValidValue; hide Travelling; hide EndToEnd; hide ResponseParser.Initial;
    ResponseTheorems.StreamedResponseDecodes(lim, r, requestId, parts, suffix);
    TravelsExactly(r.headers);
  }

  // -------------------------------------------------------------- complete responses

  /** The headers of a complete response: all but the two that are written afresh. */
  lemma KeptExactly(hs: seq<Header>, h: Header)
    ensures Keep([], RESPONSE_OWN) == []
    ensures Keep(hs + [h], RESPONSE_OWN) ==
              if h.name == "content-length" || h.name == "connection" then Keep(hs, RESPONSE_OWN)
              else Keep(hs, RESPONSE_OWN) + [h]
  {
    KeepAppend(hs, [h], RESPONSE_OWN);
    assert [h][1..] == [];
  }

  lemma {:induction false} KeepAppend(xs: seq<Header>, ys: seq<Header>, dropped: set<string>)
    ensures Keep(xs + ys, dropped) == Keep(xs, dropped) + Keep(ys, dropped)
  {
    if xs == [] {
      assert xs + ys == ys;
    } else {
      assert (xs + ys)[1..] == xs[1..] + ys;
      KeepAppend(xs[1..], ys, dropped);
    }
  }

  /** A response is refused exactly for a status that is not three digits, a reason that
      is empty or not one line, or a header to be written that is no token and one line. */
  lemma SerializeExactly(r: Response, headRequest: bool)
    ensures Serialize(r, headRequest).Some? <==>
              && 100 <= r.status <= 999 && r.reason != [] && OneLine(r.reason)
              && forall h | h in r.headers && h.name != "content-length" && h.name != "connection" ::
                   Token(h.name) && OneLine(h.value)
  {
    ValidValueIsOneLine(r.reason);
    forall h: Header
      ensures ValidName(h.name) && ValidValue(h.value) <==> Token(h.name) && OneLine(h.value)
    {
      ValidNameIsToken(h.name);
      ValidValueIsOneLine(h.value);
    }
    KeptMembers(r.headers);
    hide ValidName; hide ValidValue; hide Token; hide OneLine; hide Keep;
    var kept := Keep(r.headers, RESPONSE_OWN);
    assert HeadersPrint(kept) <==> forall h | h in kept :: Token(h.name) && OneLine(h.value);
  }

  lemma {:induction false} KeptMembers(hs: seq<Header>)
    ensures forall h :: h in Keep(hs, RESPONSE_OWN) <==>
              h in hs && h.name != "content-length" && h.name != "connection"
  {
    if hs != [] { KeptMembers(hs[1..]); }
  }

  /** The answer to a HEAD request is the same head, with the length of the body that is
      left out. */
  lemma HeadAnswerIsTheHead(r: Response)
    requires Serialize(r, false).Some?
    ensures Serialize(r, true).Some?
    ensures Serialize(r, false).value == Serialize(r, true).value + r.body
    ensures Header("Content-Length", Digits(10, |r.body|)) in PrintedHeaders(r)
  {
    hide Digits; hide Keep; hide PrintHeaders; hide ValidName; hide ValidValue;
    assert ResponseHead(r) + [] == ResponseHead(r);
    assert ResponseTail(r)[0] == Header("Content-Length", Digits(10, |r.body|));
  }
}
