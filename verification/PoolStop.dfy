/** Whom a stop calls. The stop loop as written reads the front slot of the queue after
    it was overwritten; here is exactly when that shows, and that the loop which copies
    the pointer first keeps the promise. */
module PoolStop {
  import opened Bytes
  import opened PoolPolicy
  import opened PoolProtocol
  import opened PoolTheorems

  // ---------------------------------------------------------------- when it slips

  /** Step `k` of the run is a stop that calls the wrong handlers: the first stop to
      run, with two or more waiters. */
  ghost predicate SlipsAt(s: State, a: Action) {
    a.Run? && a.at < |s.bag| && Slips(s.pool, s.bag[a.at])
  }

  lemma StepFacts(limits: Limits, s: State, a: Action, s': State)
    requires Next(limits, s, a, s')
    ensures s'.pool.loop == s.pool.loop && (s.pool.stopping ==> s'.pool.stopping)
    ensures s.dropped <= s'.dropped && s.doubled <= s'.doubled
    ensures SlipsAt(s, a) ==>
              && s'.pool.stopping && s'.dropped == s.dropped + multiset{s.pool.waiters[0]}
              && s'.doubled == s.doubled + multiset{s.pool.waiters[|s.pool.waiters| - 1]}
    ensures !SlipsAt(s, a) ==> s'.doubled == s.doubled
  {
    hide Swap; hide Handle; hide GrantsIn; hide OnCleanup; hide OnTimer; hide LeaseOf;
    match a
    case Run(at) => HandleFacts(limits, s.pool, s.bag[at], s.clock);
    case FireTimer(h) => TimerFacts(s.pool, h);
    case CleanUp => CleanupFacts(limits, s.pool, s.clock);
    case _ =>
  }

  lemma HandleFacts(limits: Limits, pool: Pool, m: Parcel, now: int)
    requires m.OnStrand()
    ensures var next := Handle(limits, pool, m, now).0;
            && next.loop == pool.loop && (pool.stopping ==> next.stopping)
            && (Slips(pool, m) ==> next.stopping)
  {
    hide Acquire; hide Release; hide Without; hide AbortReplies; hide Members; hide Called;
    match m
    case AcquireMsg(h) =>
    case ReleaseMsg(lease) =>
    case DiscardMsg(lease) =>
    case StopMsg =>
  }

  lemma TimerFacts(pool: Pool, h: nat)
    ensures OnTimer(pool, h).0.loop == pool.loop && OnTimer(pool, h).0.stopping == pool.stopping
  {}

  lemma CleanupFacts(limits: Limits, pool: Pool, now: int)
    ensures var next := OnCleanup(limits, pool, now);
            next.loop == pool.loop && next.stopping == pool.stopping
  {}

  lemma {:induction false} LoopIsFixed(
      limits: Limits, states: seq<State>, actions: seq<Action>, i: nat)
    requires IsRun(limits, states, actions) && i < |states|
    ensures states[i].pool.loop == states[0].pool.loop
  {
    hide Next; hide Init;
    if i > 0 {
      LoopIsFixed(limits, states, actions, i - 1);
      StepFacts(limits, states[i - 1], actions[i - 1], states[i]);
    }
  }

  /** A handler has been answered twice exactly when some earlier step slipped, and no
      run slips twice. */
  lemma {:induction false} DoubledExactly(
      limits: Limits, states: seq<State>, actions: seq<Action>, i: nat)
    requires IsRun(limits, states, actions) && i < |states|
    ensures states[i].doubled != multiset{} <==>
              exists k :: 0 <= k < i && SlipsAt(states[k], actions[k])
    ensures |states[i].doubled| <= 1
  {
    hide Next; hide SlipsAt;
    if i > 0 {
      var s, a, s' := states[i - 1], actions[i - 1], states[i];
      DoubledExactly(limits, states, actions, i - 1);
      StepFacts(limits, s, a, s');
      CallsAccounted(limits, states, actions, i - 1, 0);
      if SlipsAt(s, a) { NotYetStopping(s, a); }
    }
  }

  lemma NotYetStopping(s: State, a: Action)
    requires SlipsAt(s, a)
    ensures !s.pool.stopping && |s.pool.waiters| >= 2
  {}

  /** Per run: as long as the first stop finds at most one waiter, every acquire is in
      exactly one place and its handler is called at most once. */
  lemma CompletesOnce(limits: Limits, states: seq<State>, actions: seq<Action>, i: nat, h: nat)
    requires IsRun(limits, states, actions) && i < |states|
    requires forall k | 0 <= k < i :: !SlipsAt(states[k], actions[k])
    ensures states[i].completed[h] <= 1
    ensures h < states[i].nextHandler ==>
              multiset(Handlers(states[i].bag))[h] + multiset(states[i].pool.waiters)[h]
              + states[i].completed[h] + states[i].dropped[h] == 1
  {
    hide Next; hide Init; hide SlipsAt; hide Handlers;
    DoubledExactly(limits, states, actions, i);
    CallsAccounted(limits, states, actions, i, h);
  }

  /** The loop that copies the pointer never slips, so its handlers are called at most
      once in every run. */
  lemma CopyingCompletesOnce(
      limits: Limits, states: seq<State>, actions: seq<Action>, i: nat, h: nat)
    requires IsRun(limits, states, actions) && i < |states| && states[0].pool.loop == Copying
    ensures states[i].completed[h] <= 1
    ensures h < states[i].nextHandler ==>
              multiset(Handlers(states[i].bag))[h] + multiset(states[i].pool.waiters)[h]
              + states[i].completed[h] + states[i].dropped[h] == 1
  {
    hide Next; hide Init; hide Handlers;
    forall k | 0 <= k < i ensures !SlipsAt(states[k], actions[k]) {
      LoopIsFixed(limits, states, actions, k);
    }
    CompletesOnce(limits, states, actions, i, h);
  }

  // ---------------------------------------------------------- what a slip does

  lemma {:induction false} OnceAndForAll(
      limits: Limits, states: seq<State>, actions: seq<Action>, i: nat, j: nat)
    requires IsRun(limits, states, actions) && i <= j < |states|
    ensures states[i].dropped <= states[j].dropped && states[i].doubled <= states[j].doubled
    ensures states[i].nextHandler <= states[j].nextHandler
  {
    hide Init; hide Next;
    if i < j {
      OnceAndForAll(limits, states, actions, i, j - 1);
      StepFacts(limits, states[j - 1], actions[j - 1], states[j]);
      HandlersGrow(limits, states[j - 1], actions[j - 1], states[j]);
    }
  }

  lemma HandlersGrow(limits: Limits, s: State, a: Action, s': State)
    requires Next(limits, s, a, s')
    ensures s.nextHandler <= s'.nextHandler
  {
    hide Swap; hide Handle; hide OnTimer; hide OnCleanup;
  }

  /** A stop that slips answers the last waiter twice, and the first never: in no
      continuation of the run is the first one's handler called. */
  lemma SlipForgetsTheFirst(
      limits: Limits, states: seq<State>, actions: seq<Action>, k: nat, i: nat)
    requires IsRun(limits, states, actions) && k < i < |states| && SlipsAt(states[k], actions[k])
    ensures var waiters := states[k].pool.waiters;
            && |waiters| >= 2 && waiters[0] != waiters[|waiters| - 1]
            && states[i].completed[waiters[0]] == 0
            && states[i].doubled == multiset{waiters[|waiters| - 1]}
  {
    hide Next; hide Init; hide Inv; hide Handlers;
    var s, w := states[k], states[k].pool.waiters;
    var first, last := w[0], w[|w| - 1];
    RunKeepsInv(limits, states, actions, k);
    EndsDiffer(limits, s);
    StepFacts(limits, s, actions[k], states[k + 1]);
    OnceAndForAll(limits, states, actions, k + 1, i);
    DoubledExactly(limits, states, actions, i);
    OnlyOne(states[i].doubled, last);
    OnceAndForAll(limits, states, actions, k, i);
    CallsAccounted(limits, states, actions, i, first);
    assert states[i].dropped[first] >= states[k + 1].dropped[first] >= 1;
  }

  lemma OnlyOne(m: multiset<nat>, h: nat)
    requires |m| <= 1 && h in m
    ensures m == multiset{h}
  {
    assert |m - multiset{h}| == |m| - 1;
  }

  lemma EndsDiffer(limits: Limits, s: State)
    requires Inv(limits, s) && |s.pool.waiters| >= 2
    ensures s.pool.waiters[0] != s.pool.waiters[|s.pool.waiters| - 1]
    ensures s.pool.waiters[0] < s.nextHandler
  {
    hide Ledger; hide Conns; hide Handlers;
    var w := s.pool.waiters;
    DistinctWaiters(s);
    var rest: seq<nat> := w[1..];
    assert w == [w[0]] + rest && w[|w| - 1] == rest[|rest| - 1];
    assert multiset(w)[w[0]] == 1 + multiset(rest)[w[0]];
    assert Tracked(s)[w[0]] >= 1;
  }

  // -------------------------------------------------------------- building a run

  lemma Extend(limits: Limits, states: seq<State>, actions: seq<Action>, a: Action, s': State)
    requires IsRun(limits, states, actions) && Next(limits, states[|states| - 1], a, s')
    ensures IsRun(limits, states + [s'], actions + [a])
  {
    hide Next; hide Init;
    var more, acts := states + [s'], actions + [a];
    forall i | 0 <= i < |acts| ensures Next(limits, more[i], acts[i], more[i + 1]) {
      if i < |actions| { assert more[i] == states[i] && more[i + 1] == states[i + 1]; }
    }
  }

  function Last(states: seq<State>): State
    requires states != []
  {
    states[|states| - 1]
  }

  /** An acquire that starts and runs at once. */
  lemma AcquireNow(limits: Limits, states: seq<State>, actions: seq<Action>)
      returns (more: seq<State>, acts: seq<Action>)
    requires IsRun(limits, states, actions)
    ensures IsRun(limits, more, acts)
    ensures var s, t := Last(states), Last(more);
            var (pool, posted) := OnAcquire(limits, s.pool, s.nextHandler, s.clock);
            && t.pool == pool && t.bag == s.bag + posted
            && t.nextHandler == s.nextHandler + 1 && t.completed == s.completed && t.clock == s.clock
  {
    hide Init; hide OnAcquire; hide GrantsIn;
    var s := Last(states);
    var m := AcquireMsg(s.nextHandler);
    var s1 := s.(bag := s.bag + [m], nextHandler := s.nextHandler + 1);
    Extend(limits, states, actions, StartAcquire, s1);
    var at := |s.bag|;
    assert s1.bag[at] == m;
    var (pool, posted) := Handle(limits, s1.pool, m, s1.clock);
    var s2 := s1.(pool := pool, bag := Swap(s1.bag, at, posted),
                  handouts := s1.handouts + GrantsIn(posted),
                  dropped := s1.dropped + Forgotten(s1.pool, m),
                  doubled := s1.doubled + Twice(s1.pool, m));
    Extend(limits, states + [s1], actions + [StartAcquire], Run(at), s2);
    assert s1.bag[..at] == s.bag && s1.bag[at + 1..] == [];
    more, acts := states + [s1] + [s2], actions + [StartAcquire] + [Run(at)];
    assert Last(more) == s2 && s2.bag == s.bag + [] + posted;
  }

  /** All connections handed out, one by one. */
  lemma {:induction false} UseConnections(limits: Limits, n: nat, loop: StopLoop)
      returns (states: seq<State>, actions: seq<Action>)
    requires limits.Valid() && n <= limits.maxConnections
    ensures IsRun(limits, states, actions)
    ensures var s := Last(states);
            s.pool.policy.idle == [] && s.pool.policy.busy == n && s.completed == multiset{}
            && s.pool == NewPool(loop).(policy := s.pool.policy)
  {
    if n == 0 {
      var s := State(NewPool(loop), [], 0, 0, multiset{}, multiset{}, multiset{}, multiset{});
      states, actions := [s], [];
    } else {
      hide Next; hide Init;
      var before, acts := UseConnections(limits, n - 1, loop);
      states, actions := AcquireNow(limits, before, acts);
    }
  }

  /** A run with two waiters. */
  lemma TwoWaiters(limits: Limits, loop: StopLoop)
      returns (states: seq<State>, actions: seq<Action>)
    requires limits.Valid() && limits.maxWaiters >= 2
    ensures IsRun(limits, states, actions)
    ensures var s := Last(states);
            |s.pool.waiters| == 2 && !s.pool.stopping && s.pool.loop == loop
            && s.completed == multiset{}
  {
    hide Next; hide Init;
    states, actions := UseConnections(limits, limits.maxConnections, loop);
    states, actions := AcquireNow(limits, states, actions);
    states, actions := AcquireNow(limits, states, actions);
  }

  /** A stop, and the two replies it posts to one handler, delivered. */
  lemma StopAndDeliver(limits: Limits, before: seq<State>, acts: seq<Action>)
      returns (states: seq<State>, actions: seq<Action>)
    requires IsRun(limits, before, acts)
    requires var s := Last(before);
             |s.pool.waiters| == 2 && !s.pool.stopping && s.pool.loop == AsWritten
             && s.completed == multiset{}
    ensures IsRun(limits, states, actions) && states[0] == before[0]
    ensures Last(states).completed[Last(before).pool.waiters[1]] == 2
  {
    hide Init; hide GrantsIn; hide Forgotten; hide Twice; hide Members;
    var s, h := Last(before), Last(before).pool.waiters[1];
    var s1 := s.(bag := s.bag + [StopMsg]);
    Extend(limits, before, acts, CallStop, s1);
    var at := |s.bag|;
    var (pool, posted) := Handle(limits, s1.pool, StopMsg, s1.clock);
    TwoReplies(s1.pool);
    var s2 := s1.(pool := pool, bag := Swap(s1.bag, at, posted),
                  handouts := s1.handouts + GrantsIn(posted),
                  dropped := s1.dropped + Forgotten(s1.pool, StopMsg),
                  doubled := s1.doubled + Twice(s1.pool, StopMsg));
    Extend(limits, before + [s1], acts + [CallStop], Run(at), s2);
    var r := Reply(h, Aborted);
    assert s2.bag == s.bag + [r, r] by { assert s1.bag[..at] == s.bag && s1.bag[at + 1..] == []; }
    var s3 := s2.(bag := s.bag + [r], completed := multiset{h});
    assert Swap(s2.bag, at, []) == s.bag + [r];
    Extend(limits, before + [s1] + [s2], acts + [CallStop] + [Run(at)], Deliver(at), s3);
    var s4 := s3.(bag := s.bag, completed := multiset{h} + multiset{h});
    assert Swap(s3.bag, at, []) == s.bag;
    Extend(limits, before + [s1] + [s2] + [s3], acts + [CallStop] + [Run(at)] + [Deliver(at)],
           Deliver(at), s4);
    states := before + [s1] + [s2] + [s3] + [s4];
    actions := acts + [CallStop] + [Run(at)] + [Deliver(at)] + [Deliver(at)];
    assert Last(states) == s4 && states[0] == before[0];
  }

  lemma TwoReplies(pool: Pool)
    requires |pool.waiters| == 2 && !pool.stopping && pool.loop == AsWritten
    ensures var r := Reply(pool.waiters[1], Aborted); OnStop(pool).1 == [r, r]
  {
    var h := pool.waiters[1];
    assert Called(pool.loop, pool.waiters) == [h, h];
    assert [h, h][1..] == [h] && [h][1..] == [];
    assert AbortReplies([h]) == [Reply(h, Aborted)];
  }

  // ------------------------------------------------------------------- exactly

  /** No run of the loop as written calls a handler twice. */
  ghost predicate NeverTwice(limits: Limits) {
    forall states: seq<State>, actions: seq<Action>, i: nat, h: nat |
      IsRun(limits, states, actions) && 0 <= i < |states| && states[0].pool.loop == AsWritten ::
      states[i].completed[h] <= 1
  }

  /** The code as written calls every handler at most once, in all runs, if and only if
      at most one waiter may queue. */
  lemma NeverTwiceExactly(limits: Limits)
    requires limits.Valid()
    ensures NeverTwice(limits) <==> limits.maxWaiters <= 1
  {
    hide Next; hide Init;
    if limits.maxWaiters <= 1 {
      forall states: seq<State>, actions: seq<Action>, i: nat, h: nat |
        IsRun(limits, states, actions) && 0 <= i < |states| && states[0].pool.loop == AsWritten
        ensures states[i].completed[h] <= 1
      {
        forall k | 0 <= k < i ensures !SlipsAt(states[k], actions[k]) {
          WaitersBounded(limits, states, actions, k);
        }
        CompletesOnce(limits, states, actions, i, h);
      }
    } else {
      var before, acts := TwoWaiters(limits, AsWritten);
      LoopIsFixed(limits, before, acts, |before| - 1);
      var states, actions := StopAndDeliver(limits, before, acts);
      var i, h := |states| - 1, Last(before).pool.waiters[1];
      assert states[i].completed[h] == 2;
    }
  }
}
