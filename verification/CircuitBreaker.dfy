/** The circuit breaker of one upstream. Runs are arbitrary sequences of calls, so
    outcomes may come late, twice or not at all. Times are whole clock ticks. */
module CircuitBreaking {

  datatype Limits = Limits(threshold: nat, cooldown: int, maxProbes: nat)
  {
    predicate Valid() { threshold > 0 && cooldown > 0 && maxProbes > 0 }
  }

  datatype State = Closed | Open | HalfOpen

  datatype Breaker = Breaker(state: State, failures: nat, probes: nat, retryAt: int)

  datatype Call = Allow(now: int) | Success | Failure(now: int) | Neutral

  const INITIAL := Breaker(Closed, 0, 0, 0)

  function Opened(limits: Limits, now: int): Breaker { Breaker(Open, 0, 0, now + limits.cooldown) }

  /** One call: the breaker after it, and whether it admitted a request. */
  function Step(limits: Limits, b: Breaker, call: Call): (Breaker, bool) {
    match call
    case Allow(now) =>
      if b.state == Open && now < b.retryAt then (b, false) else
      var c := if b.state == Open then b.(state := HalfOpen, probes := 0) else b;
      if c.state == HalfOpen then
        if c.probes >= limits.maxProbes then (c, false) else (c.(probes := c.probes + 1), true)
      else (c, true)
    case Success => (INITIAL, false)
    case Failure(now) =>
      if b.state == HalfOpen then (Opened(limits, now), false)
      else if b.state == Open then (b, false)
      else if b.failures + 1 >= limits.threshold then (Opened(limits, now), false)
      else (b.(failures := b.failures + 1), false)
    case Neutral =>
      if b.state == HalfOpen && b.probes > 0 then (b.(probes := b.probes - 1), false)
      else (b, false)
  }

  /** The breaker after a run. */
  function After(limits: Limits, calls: seq<Call>): Breaker {
    if calls == [] then INITIAL
    else Step(limits, After(limits, calls[..|calls| - 1]), calls[|calls| - 1]).0
  }

  /** The call at position `i` of the run was admitted. */
  predicate Admitted(limits: Limits, calls: seq<Call>, i: nat)
    requires i < |calls|
  {
    Step(limits, After(limits, calls[..i]), calls[i]).1
  }

  // ------------------------------------------------------------- closed and open

  /** All failures reported since the last success, whatever the state was. */
  function FailuresSinceSuccess(calls: seq<Call>): nat {
    if calls == [] then 0 else
    var before := calls[..|calls| - 1];
    match calls[|calls| - 1]
    case Success => 0
    case Failure(_) => FailuresSinceSuccess(before) + 1
    case _ => FailuresSinceSuccess(before)
  }

  /** The breaker is closed exactly while fewer failures than the threshold have
      been reported since the last success: it opens at the threshold-th. */
  lemma {:induction false} ClosedBelowThreshold(limits: Limits, calls: seq<Call>)
    requires limits.Valid()
    ensures After(limits, calls).state == Closed <==>
              FailuresSinceSuccess(calls) < limits.threshold
    ensures After(limits, calls).state == Closed ==>
              After(limits, calls).failures == FailuresSinceSuccess(calls)
  {
    if calls != [] { ClosedBelowThreshold(limits, calls[..|calls| - 1]); }
  }

  /** Neither a success nor a request at or after the retry time. */
  predicate Waits(call: Call, retryAt: int) {
    call != Success && (call.Allow? ==> call.now < retryAt)
  }

  predicate AllWait(calls: seq<Call>, from: nat, to: nat, retryAt: int)
    requires to <= |calls|
  {
    forall i | from <= i < to :: Waits(calls[i], retryAt)
  }

  /** Open and untouched since position `from`. */
  lemma {:induction false} OpenAdmitsNothing(limits: Limits, calls: seq<Call>, from: nat, i: nat)
    requires limits.Valid() && from <= i <= |calls|
    requires After(limits, calls[..from]).state == Open
    requires AllWait(calls, from, i, After(limits, calls[..from]).retryAt)
    ensures After(limits, calls[..i]) == After(limits, calls[..from])
    ensures forall j | from <= j < i :: !Admitted(limits, calls, j)
  {
    if from < i {
      assert calls[..i][..i - 1] == calls[..i - 1];
      OpenAdmitsNothing(limits, calls, from, i - 1);
      assert Waits(calls[i - 1], After(limits, calls[..from]).retryAt);
    }
  }

  /** An open breaker was opened by some failure, a cooldown before its retry time:
      the threshold-th since the last success, or one in a half-open episode. Since
      then nothing came but calls that keep it open. */
  lemma {:induction false} OpenedBy(limits: Limits, calls: seq<Call>) returns (at: nat)
    requires limits.Valid() && After(limits, calls).state == Open
    ensures at < |calls| && calls[at].Failure?
    ensures After(limits, calls).retryAt == calls[at].now + limits.cooldown
    ensures After(limits, calls[..at]).state == HalfOpen
            || FailuresSinceSuccess(calls[..at + 1]) == limits.threshold
    ensures AllWait(calls, at + 1, |calls|, After(limits, calls).retryAt)
  {
    var n := |calls| - 1;
    var before := After(limits, calls[..n]);
    if before.state == Open {
      at := OpenedBy(limits, calls[..n]);
      assert calls[..n][..at] == calls[..at] && calls[..n][..at + 1] == calls[..at + 1];
      forall i | at + 1 <= i < |calls| ensures Waits(calls[i], before.retryAt) {
        if i < n { assert calls[i] == calls[..n][i]; }
      }
    } else {
      at := n;
      assert calls[..n + 1] == calls;
      if before.state == Closed {
        ClosedBelowThreshold(limits, calls[..n]);
        ClosedBelowThreshold(limits, calls);
      }
    }
  }

  // ---------------------------------------------------------- half-open episodes

  /** Calls `from` up to `to` form one half-open episode, from the call that left the
      open state on. */
  ghost predicate Episode(limits: Limits, calls: seq<Call>, from: nat, to: nat) {
    && from < to <= |calls| && After(limits, calls[..from]).state == Open
    && forall k | from < k <= to :: After(limits, calls[..k]).state == HalfOpen
  }

  function AdmittedIn(limits: Limits, calls: seq<Call>, from: nat, to: nat): nat
    requires from <= to <= |calls|
  {
    if from == to then 0
    else AdmittedIn(limits, calls, from, to - 1) + if Admitted(limits, calls, to - 1) then 1 else 0
  }

  function NeutralsIn(calls: seq<Call>, from: nat, to: nat): nat
    requires from <= to <= |calls|
  {
    if from == to then 0
    else NeutralsIn(calls, from, to - 1) + if calls[to - 1] == Neutral then 1 else 0
  }

  /** The probes in flight pay for the admissions not yet given back. */
  lemma {:induction false} EpisodeAccount(limits: Limits, calls: seq<Call>, from: nat, to: nat)
    requires limits.Valid() && Episode(limits, calls, from, to)
    ensures After(limits, calls[..to]).probes <= limits.maxProbes
    ensures AdmittedIn(limits, calls, from, to)
              <= After(limits, calls[..to]).probes + NeutralsIn(calls, from, to)
  {
    var n := to - 1;
    assert calls[..to][..n] == calls[..n];
    if n > from {
      EpisodeAccount(limits, calls, from, n);
      assert After(limits, calls[..n]).state == HalfOpen;
    } else {
      assert AdmittedIn(limits, calls, from, n) == 0 && NeutralsIn(calls, from, n) == 0;
    }
    assert After(limits, calls[..to]).state == HalfOpen;
  }

  /** Within one half-open episode the admissions are at most the probe budget and
      one more for each neutral outcome. */
  lemma EpisodeBound(limits: Limits, calls: seq<Call>, from: nat, to: nat)
    requires limits.Valid() && Episode(limits, calls, from, to)
    ensures AdmittedIn(limits, calls, from, to) <= limits.maxProbes + NeutralsIn(calls, from, to)
    ensures Admitted(limits, calls, from)
  {
    EpisodeAccount(limits, calls, from, to);
    assert After(limits, calls[..from + 1]).state == HalfOpen;
    assert calls[..from + 1][..from] == calls[..from];
  }

  /** The probes an episode should have in flight: each request takes a free place,
      each neutral outcome gives a taken one back. */
  function Outstanding(limits: Limits, calls: seq<Call>, from: nat, to: nat): nat
    requires from <= to <= |calls|
  {
    if from == to then 0 else
    var before := Outstanding(limits, calls, from, to - 1);
    match calls[to - 1]
    case Allow(_) => if before < limits.maxProbes then before + 1 else before
    case Neutral => if before > 0 then before - 1 else 0
    case _ => before
  }

  /** The breaker counts exactly those, and admits the next request of the episode
      exactly when a place is free. */
  lemma {:induction false} EpisodeAdmitsExactly(limits: Limits, calls: seq<Call>, from: nat, to: nat)
    requires limits.Valid() && Episode(limits, calls, from, to)
    ensures After(limits, calls[..to]).probes == Outstanding(limits, calls, from, to)
    ensures to < |calls| && calls[to].Allow? ==>
              (Admitted(limits, calls, to) <==> Outstanding(limits, calls, from, to) < limits.maxProbes)
  {
    var n := to - 1;
    assert calls[..to][..n] == calls[..n];
    assert After(limits, calls[..to]).state == HalfOpen;
    if n > from {
      EpisodeAdmitsExactly(limits, calls, from, n);
      assert After(limits, calls[..n]).state == HalfOpen;
    } else {
      assert Outstanding(limits, calls, from, n) == 0;
    }
  }

  /** Every half-open state lies in such an episode. */
  lemma {:induction false} HalfOpenIsEpisode(limits: Limits, calls: seq<Call>, to: nat)
      returns (from: nat)
    requires to <= |calls| && After(limits, calls[..to]).state == HalfOpen
    ensures Episode(limits, calls, from, to)
  {
    var n := to - 1;
    assert calls[..to][..n] == calls[..n];
    if After(limits, calls[..n]).state == HalfOpen {
      from := HalfOpenIsEpisode(limits, calls, n);
    } else {
      from := n;
    }
  }

  // ---------------------------------------------------------------- every admission

  /** A request is admitted exactly when the breaker is closed, when it is open and the
      cooldown since the failure that opened it is over, or when it is half open and the
      episode has a probe left. */
  lemma AdmittedExactly(limits: Limits, calls: seq<Call>, i: nat) returns (from: nat)
    requires limits.Valid() && i < |calls| && calls[i].Allow?
    ensures match After(limits, calls[..i]).state
            case Closed => Admitted(limits, calls, i)
            case Open =>
              && from < i && calls[from].Failure?
              && (Admitted(limits, calls, i) <==> calls[i].now >= calls[from].now + limits.cooldown)
            case HalfOpen =>
              && from < i && Episode(limits, calls, from, i)
              && (Admitted(limits, calls, i) <==>
                    Outstanding(limits, calls, from, i) < limits.maxProbes)
  {
    var before := calls[..i];
    match After(limits, before).state
    case Closed => from := 0;
    case Open => from := OpenedBy(limits, before);
    case HalfOpen =>
      from := HalfOpenIsEpisode(limits, calls, i);
      EpisodeAdmitsExactly(limits, calls, from, i);
  }

  /** What ends each state: the threshold-th failure since the last success opens a closed
      breaker, the first request after the cooldown is the first probe of a half-open one,
      and there any failure opens it anew and any success closes it. */
  lemma TransitionsExactly(limits: Limits, calls: seq<Call>, i: nat)
    requires limits.Valid() && i < |calls|
    ensures var b, c, call := After(limits, calls[..i]), After(limits, calls[..i + 1]), calls[i];
            && (c.state == Closed <==>
                  call == Success || (b.state == Closed &&
                    (call.Failure? ==> FailuresSinceSuccess(calls[..i]) + 1 < limits.threshold)))
            && (c.state == Open <==>
                  || (b.state == Open && Waits(call, b.retryAt))
                  || (call.Failure? && (b.state == HalfOpen || (b.state == Closed &&
                        FailuresSinceSuccess(calls[..i]) + 1 >= limits.threshold))))
            && (c.state == Open ==>
                  c.retryAt == if b.state == Open then b.retryAt else call.now + limits.cooldown)
            && (b.state == Open && c.state == HalfOpen ==> Admitted(limits, calls, i) && c.probes == 1)
  {
    assert calls[..i + 1][..i] == calls[..i];
    ClosedBelowThreshold(limits, calls[..i]);
  }

  // ------------------------------------------------------------------ the object

  class CircuitBreaker {
    const limits: Limits
    var state: State
    var consecutiveFailures: nat
    var probesInFlight: nat
    var retryAt: int

    function Value(): Breaker
      reads this
    {
      Breaker(state, consecutiveFailures, probesInFlight, retryAt)
    }

    constructor (l: Limits)
      requires l.Valid()
      ensures limits == l && Value() == INITIAL
    {
      limits := l;
      state, consecutiveFailures, probesInFlight, retryAt := Closed, 0, 0, 0;
    }

    method AllowRequest(now: int) returns (admitted: bool)
      modifies this
      ensures (Value(), admitted) == Step(limits, old(Value()), Allow(now))
    {
      if state == Open {
        if now < retryAt { return false; }
        state := HalfOpen;
        probesInFlight := 0;
      }
      if state == HalfOpen {
        if probesInFlight >= limits.maxProbes { return false; }
        probesInFlight := probesInFlight + 1;
      }
      return true;
    }

    method RecordSuccess()
      modifies this
      ensures Value() == Step(limits, old(Value()), Success).0
    {
      consecutiveFailures := 0;
      probesInFlight := 0;
      state := Closed;
      retryAt := 0;
    }

    method RecordFailure(now: int)
      modifies this
      ensures Value() == Step(limits, old(Value()), Failure(now)).0
    {
      if state == HalfOpen {
        OpenCircuit(now);
        return;
      }
      if state == Open { return; }
      consecutiveFailures := consecutiveFailures + 1;
      if consecutiveFailures >= limits.threshold { OpenCircuit(now); }
    }

    method RecordNeutral()
      modifies this
      ensures Value() == Step(limits, old(Value()), Neutral).0
    {
      if state == HalfOpen && probesInFlight > 0 { probesInFlight := probesInFlight - 1; }
    }

    method OpenCircuit(now: int)
      modifies this
      ensures Value() == Opened(limits, now)
    {
      state := Open;
      consecutiveFailures := 0;
      probesInFlight := 0;
      retryAt := now + limits.cooldown;
    }
  }
}
