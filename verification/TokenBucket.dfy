/** The token bucket: one number and one time stamp, equivalent to checking every
    window of the call history. `double` is modelled by `real`, and time points by
    seconds since an arbitrary origin. */
module TokenBuckets {

  datatype Bucket = Bucket(rate: real, capacity: real, tokens: real, last: real)
  {
    predicate Valid() { rate > 0.0 && 0.0 <= tokens <= capacity && capacity > 0.0 }
  }

  /** A new bucket is full. */
  function Fresh(rate: real, burst: real, now: real): Bucket { Bucket(rate, burst, burst, now) }

  function Min(a: real, b: real): real { if a < b then a else b }

  function Later(a: real, b: real): real { if a < b then b else a }

  function Refill(b: Bucket, now: real): (r: Bucket)
    requires b.Valid()
    ensures r.Valid() && r.last == Later(b.last, now) && r.tokens >= b.tokens
    ensures r == b.(tokens := r.tokens, last := r.last)
  {
    if now <= b.last then b else
    var gained := (now - b.last) * b.rate;
    assert gained >= 0.0 by { Positive(now - b.last, b.rate); }
    b.(tokens := Min(b.capacity, b.tokens + gained), last := now)
  }

  lemma Positive(x: real, y: real)
    requires x >= 0.0 && y > 0.0
    ensures x * y >= 0.0
  {}

  function Allow(b: Bucket, tokens: real, now: real): (r: (Bucket, bool))
    requires b.Valid() && tokens > 0.0
    ensures r.0.Valid()
  {
    var full := Refill(b, now);
    if tokens > full.tokens then (full, false)
    else (full.(tokens := full.tokens - tokens), true)
  }

  function Ceiling(x: real): (n: int)
    ensures n as real - 1.0 < x <= n as real
  {
    -(-x).Floor
  }

  /** Milliseconds until `tokens` are there, rounded up; the refill stays. */
  function RetryAfter(b: Bucket, tokens: real, now: real): (r: (Bucket, int))
    requires b.Valid() && tokens > 0.0
    ensures r.0.Valid()
  {
    var full := Refill(b, now);
    if tokens <= full.tokens then (full, 0)
    else (full, Ceiling((tokens - full.tokens) / full.rate * 1000.0))
  }

  // ------------------------------------------------------- the all-windows rule

  /** One call in the history: its effective time, which never runs backwards, and
      the tokens it was granted. The first event is the creation. */
  datatype Event = Event(time: real, granted: real)

  function GrantedSince(h: seq<Event>, j: nat): (g: real)
    requires j <= |h|
    decreases |h| - j
  {
    if j == |h| then 0.0 else h[j].granted + GrantedSince(h, j + 1)
  }

  function Now(h: seq<Event>): real
    requires h != []
  {
    h[|h| - 1].time
  }

  /** What the window that starts at event `j` still has to give at `time`. */
  function Room(rate: real, burst: real, h: seq<Event>, j: nat, time: real): real
    requires j < |h|
  {
    burst + rate * (time - h[j].time) - GrantedSince(h, j)
  }

  /** Granting `tokens` at `now` keeps every window, from any earlier call or the
      creation up to now, within burst + rate x elapsed; and so does the window of
      this call alone. */
  ghost predicate WithinAllWindows(
    rate: real, burst: real, h: seq<Event>, tokens: real, now: real)
    requires h != []
  {
    && tokens <= burst
    && forall j: nat | j < |h| :: tokens <= Room(rate, burst, h, j, Later(Now(h), now))
  }

  /** The bucket holds exactly the room of its tightest window. */
  ghost predicate Tight(b: Bucket, h: seq<Event>)
  {
    && b.Valid() && h != [] && b.last == Now(h)
    && (forall j: nat | j < |h| :: b.tokens <= Room(b.rate, b.capacity, h, j, b.last))
    && (exists j: nat :: j < |h| && b.tokens == Room(b.rate, b.capacity, h, j, b.last))
  }

  lemma FreshIsTight(rate: real, burst: real, now: real)
    requires rate > 0.0 && burst > 0.0
    ensures Tight(Fresh(rate, burst, now), [Event(now, 0.0)])
  {
    var h := [Event(now, 0.0)];
    assert GrantedSince(h, 1) == 0.0 && GrantedSince(h, 0) == 0.0;
    RoomNow(rate, burst, h, 0, now);
    assert Room(rate, burst, h, 0, now) == burst;
  }

  lemma RoomNow(rate: real, burst: real, h: seq<Event>, j: nat, time: real)
    requires j < |h| && h[j].time == time
    ensures Room(rate, burst, h, j, time) == burst - GrantedSince(h, j)
  {}

  lemma {:induction false} GrantedAppend(h: seq<Event>, e: Event, j: nat)
    requires j <= |h|
    ensures GrantedSince(h + [e], j) == GrantedSince(h, j) + e.granted
    decreases |h| - j
  {
    if j < |h| {
      GrantedAppend(h, e, j + 1);
    } else {
      assert GrantedSince(h + [e], |h| + 1) == 0.0;
    }
  }

  lemma Distribute(rate: real, a: real, b: real, c: real)
    ensures rate * (a - c) == rate * (b - c) + rate * (a - b)
  {}

  /** A later time and a grant move the room of every older window alike. */
  lemma RoomAppend(rate: real, burst: real, h: seq<Event>, e: Event, j: nat, before: real)
    requires j < |h|
    ensures Room(rate, burst, h + [e], j, e.time) ==
            Room(rate, burst, h, j, before) + rate * (e.time - before) - e.granted
  {
    GrantedAppend(h, e, j);
    Distribute(rate, e.time, before, h[j].time);
  }

  /** The window of the latest event alone. */
  lemma NewestWindow(rate: real, burst: real, h: seq<Event>, e: Event)
    ensures Room(rate, burst, h + [e], |h|, e.time) == burst - e.granted
  {
    assert GrantedSince(h + [e], |h| + 1) == 0.0;
    RoomNow(rate, burst, h + [e], |h|, e.time);
  }

  /** Refilling raises the stored number exactly as time raises every window. */
  lemma RefillTracksWindows(b: Bucket, h: seq<Event>, now: real)
    requires Tight(b, h)
    ensures var time := Later(b.last, now);
            && Refill(b, now).tokens ==
               Min(b.capacity, b.tokens + b.rate * (time - b.last))
            && forall j: nat | j < |h| ::
                 Room(b.rate, b.capacity, h, j, time)
                 == Room(b.rate, b.capacity, h, j, b.last) + b.rate * (time - b.last)
  {
    var time := Later(b.last, now);
    assert now <= b.last ==> b.rate * (time - b.last) == 0.0;
    forall j: nat | j < |h|
      ensures Room(b.rate, b.capacity, h, j, time)
              == Room(b.rate, b.capacity, h, j, b.last) + b.rate * (time - b.last)
    {
      Distribute(b.rate, time, b.last, h[j].time);
    }
  }

  /** One call decides by the all-windows rule. */
  lemma AllowIsWindowRule(b: Bucket, h: seq<Event>, tokens: real, now: real)
    requires Tight(b, h) && tokens > 0.0
    ensures Allow(b, tokens, now).1 <==> WithinAllWindows(b.rate, b.capacity, h, tokens, now)
  {
    RefillTracksWindows(b, h, now);
    var time := Later(b.last, now);
    var j: nat :| j < |h| && b.tokens == Room(b.rate, b.capacity, h, j, b.last);
    assert Room(b.rate, b.capacity, h, j, time) == b.tokens + b.rate * (time - b.last);
  }

  /** After a refill and a grant, the bucket is tight for the longer history. */
  lemma TightAfter(b: Bucket, h: seq<Event>, now: real, granted: real)
    requires Tight(b, h) && 0.0 <= granted <= Refill(b, now).tokens
    ensures var full := Refill(b, now);
            Tight(full.(tokens := full.tokens - granted),
                  h + [Event(Later(b.last, now), granted)])
  {
    var full := Refill(b, now);
    var e := Event(Later(b.last, now), granted);
    var h', c := h + [e], full.(tokens := full.tokens - granted);
    RefillTracksWindows(b, h, now);
    NewestWindow(b.rate, b.capacity, h, e);
    hide Room; hide Refill;
    var gained := b.rate * (e.time - b.last);
    forall j: nat | j < |h'| ensures c.tokens <= Room(b.rate, b.capacity, h', j, e.time) {
      if j < |h| {
        RoomAppend(b.rate, b.capacity, h, e, j, b.last);
        assert b.tokens <= Room(b.rate, b.capacity, h, j, b.last);
      }
    }
    if b.tokens + gained <= b.capacity {
      var j: nat :| j < |h| && b.tokens == Room(b.rate, b.capacity, h, j, b.last);
      RoomAppend(b.rate, b.capacity, h, e, j, b.last);
      assert c.tokens == Room(b.rate, b.capacity, h', j, e.time);
    } else {
      assert c.tokens == Room(b.rate, b.capacity, h', |h|, e.time);
    }
  }

  // ------------------------------------------------------------- all call runs

  datatype Call = Ask(tokens: real, now: real) | Wait(tokens: real, now: real)

  predicate AllPositive(calls: seq<Call>) { forall i | 0 <= i < |calls| :: calls[i].tokens > 0.0 }

  /** The answers of the bucket to the `allow` calls of a run. */
  function Decisions(b: Bucket, calls: seq<Call>): seq<bool>
    requires b.Valid() && AllPositive(calls)
    decreases |calls|
  {
    if calls == [] then []
    else match calls[0]
      case Ask(tokens, now) =>
        var (c, ok) := Allow(b, tokens, now);
        [ok] + Decisions(c, calls[1..])
      case Wait(tokens, now) =>
        Decisions(RetryAfter(b, tokens, now).0, calls[1..])
  }

  /** The answers of the all-windows rule, which only keeps the history. */
  ghost function WindowDecisions(rate: real, burst: real, h: seq<Event>, calls: seq<Call>)
      : seq<bool>
    requires h != []
    decreases |calls|
  {
    if calls == [] then []
    else match calls[0]
      case Ask(tokens, now) =>
        var ok := WithinAllWindows(rate, burst, h, tokens, now);
        var e := Event(Later(Now(h), now), if ok then tokens else 0.0);
        [ok] + WindowDecisions(rate, burst, h + [e], calls[1..])
      case Wait(_, now) =>
        WindowDecisions(rate, burst, h + [Event(Later(Now(h), now), 0.0)], calls[1..])
  }

  lemma {:induction false} TightRunsAgree(b: Bucket, h: seq<Event>, calls: seq<Call>)
    requires Tight(b, h) && AllPositive(calls)
    ensures Decisions(b, calls) == WindowDecisions(b.rate, b.capacity, h, calls)
    decreases |calls|
  {
    hide Tight; hide WithinAllWindows;
    if calls != [] {
      TightIsValid(b, h);
      match calls[0] {
        case Ask(tokens, now) =>
          AllowIsWindowRule(b, h, tokens, now);
          var (c, ok) := Allow(b, tokens, now);
          TightAfter(b, h, now, if ok then tokens else 0.0);
          TightRunsAgree(c, h + [Event(Later(b.last, now), if ok then tokens else 0.0)], calls[1..]);
        case Wait(tokens, now) =>
          TightAfter(b, h, now, 0.0);
          TightRunsAgree(RetryAfter(b, tokens, now).0, h + [Event(Later(b.last, now), 0.0)],
                         calls[1..]);
      }
    }
  }

  lemma TightIsValid(b: Bucket, h: seq<Event>)
    requires Tight(b, h)
    ensures b.Valid() && h != [] && b.last == Now(h)
  {}

  /** Over every run of calls at any times, the bucket refuses exactly when the
      grant would overdraw some window. */
  lemma BucketIsWindowRule(rate: real, burst: real, start: real, calls: seq<Call>)
    requires rate > 0.0 && burst > 0.0 && AllPositive(calls)
    ensures Decisions(Fresh(rate, burst, start), calls) ==
            WindowDecisions(rate, burst, [Event(start, 0.0)], calls)
  {
    hide Tight; hide Decisions; hide WindowDecisions;
    FreshIsTight(rate, burst, start);
    TightRunsAgree(Fresh(rate, burst, start), [Event(start, 0.0)], calls);
  }

  // ---------------------------------------------------------------- retry after

  lemma Scale(x: real, y: real, rate: real)
    requires rate > 0.0
    ensures x <= y <==> x * rate <= y * rate
    ensures x < y <==> x * rate < y * rate
  {}

  lemma Quotient(x: real, rate: real)
    requires rate > 0.0
    ensures x / rate * rate == x
  {}

  /** The answer of `allow` after a wait with no grant in between. */
  lemma AllowedAfter(b: Bucket, tokens: real, now: real, wait: real)
    requires b.Valid() && 0.0 < tokens <= b.capacity && now >= b.last && wait >= 0.0
    ensures var full := RetryAfter(b, tokens, now).0;
            Allow(full, tokens, now + wait).1 <==>
              tokens <= full.tokens || (tokens - full.tokens) / full.rate <= wait
  {
    hide Refill;
    var full := Refill(b, now);
    RefilledAfter(full, now, wait);
    Positive(wait, full.rate);
    WaitIsEnough(tokens - full.tokens, full.rate, wait);
  }

  lemma WaitIsEnough(missing: real, rate: real, wait: real)
    requires rate > 0.0
    ensures missing <= wait * rate <==> missing / rate <= wait
  {
    Quotient(missing, rate);
    Scale(missing / rate, wait, rate);
  }

  lemma RefilledAfter(b: Bucket, now: real, wait: real)
    requires b.Valid() && b.last == now && wait >= 0.0
    ensures Refill(b, now + wait).tokens == Min(b.capacity, b.tokens + wait * b.rate)
  {
    assert (now + wait) - now == wait;
    assert wait == 0.0 ==> wait * b.rate == 0.0;
  }

  /** Whole milliseconds as seconds. */
  function Millis(v: int): real { v as real / 1000.0 }

  /** With no grant in between, `retryAfter` is the least whole-millisecond wait
      after which the request succeeds. */
  lemma RetryAfterIsLeast(b: Bucket, tokens: real, now: real)
    requires b.Valid() && 0.0 < tokens <= b.capacity && now >= b.last
    ensures var (full, wait) := RetryAfter(b, tokens, now);
            && wait >= 0
            && Allow(full, tokens, now + Millis(wait)).1
            && forall v: int | 0 <= v < wait :: !Allow(full, tokens, now + Millis(v)).1
  {
    hide Allow;
    var (full, wait) := RetryAfter(b, tokens, now);
    var need := (tokens - full.tokens) / full.rate;
    if tokens > full.tokens {
      Quotient(tokens - full.tokens, full.rate);
      Scale(0.0, need, full.rate);
      assert need > 0.0;
    }
    AllowedAfter(b, tokens, now, Millis(wait));
    forall v: int | 0 <= v < wait ensures !Allow(full, tokens, now + Millis(v)).1 {
      AllowedAfter(b, tokens, now, Millis(v));
    }
  }

  /** A request above the burst never succeeds, whatever `retryAfter` says. */
  lemma NeverAboveBurst(b: Bucket, tokens: real, now: real)
    requires b.Valid() && tokens > b.capacity
    ensures !Allow(b, tokens, now).1
  {}

  // ------------------------------------------------------------------ the object

  class TokenBucket {
    const rate: real
    const capacity: real
    var availableTokens: real
    var lastRefill: real

    ghost function Value(): Bucket
      reads this
    {
      Bucket(rate, capacity, availableTokens, lastRefill)
    }

    constructor (ratePerSecond: real, burst: real, initial: real)
      requires ratePerSecond > 0.0 && burst > 0.0
      ensures Value() == Fresh(ratePerSecond, burst, initial) && Value().Valid()
    {
      rate, capacity := ratePerSecond, burst;
      availableTokens, lastRefill := burst, initial;
    }

    method RefillNow(now: real)
      requires Value().Valid()
      modifies this
      ensures Value() == Refill(old(Value()), now)
    {
      if now <= lastRefill { return; }
      var filled := availableTokens + (now - lastRefill) * rate;
      availableTokens := if capacity < filled then capacity else filled;
      lastRefill := now;
    }

    method AllowNow(tokens: real, now: real) returns (allowed: bool)
      requires Value().Valid() && tokens > 0.0
      modifies this
      ensures (Value(), allowed) == Allow(old(Value()), tokens, now) && Value().Valid()
    {
      RefillNow(now);
      if tokens > availableTokens { return false; }
      availableTokens := availableTokens - tokens;
      return true;
    }

    method RetryAfterNow(tokens: real, now: real) returns (milliseconds: int)
      requires Value().Valid() && tokens > 0.0
      modifies this
      ensures (Value(), milliseconds) == RetryAfter(old(Value()), tokens, now) && Value().Valid()
    {
      RefillNow(now);
      if tokens <= availableTokens { return 0; }
      return Ceiling((tokens - availableTokens) / rate * 1000.0);
    }
  }
}
