/** What every run of the upstream pool keeps. */
module PoolTheorems {
  import opened Bytes
  import opened PoolPolicy
  import opened PoolProtocol

  /** What is gone in `s` is gone in `s'` and was not granted in between. */
  ghost predicate GoneForGood(s: State, s': State) {
    forall id | Gone(s.pool.policy, Conns(s.bag), id) ::
      Gone(s'.pool.policy, Conns(s'.bag), id) && s'.handouts[id] == s.handouts[id]
  }

  // ----------------------------------------------------------- ownership, per step

  lemma MoveOne(limits: Limits, p: Policy, a: seq<Connection>, cs: seq<Connection>,
                b: seq<Connection>, handouts: multiset<nat>)
    requires |cs| <= 1 && Ledger(limits, p, a + cs + b, handouts)
    ensures Ledger(limits, p, a + b + cs, handouts) && Ids(a + b + cs) == Ids(a + cs + b)
  {
    hide Ledger; hide Ids;
    if cs == [] {
      assert a + cs + b == a + b == a + b + cs;
    } else {
      assert cs == [cs[0]];
      MoveHeld(limits, p, a, cs[0], b, handouts);
    }
  }

  /** A parcel is replaced by one with the same connection. */
  lemma OwnedMove(limits: Limits, s: State, at: nat, posted: seq<Parcel>, s': State)
    requires Owned(limits, s) && at < |s.bag| && Conns(posted) == ConnOf(s.bag[at])
    requires s'.pool == s.pool && s'.bag == Swap(s.bag, at, posted) && s'.handouts == s.handouts
    ensures Owned(limits, s') && GoneForGood(s, s')
  {
    hide Ledger; hide Conns; hide ConnOf; hide Ids; hide Swap;
    SwapConns(s.bag, at, posted);
    MoveOne(limits, s.pool.policy, Conns(s.bag[..at]), ConnOf(s.bag[at]),
            Conns(s.bag[at + 1..]), s.handouts);
  }

  /** A parcel without a connection is added. */
  lemma OwnedAdd(limits: Limits, s: State, posted: seq<Parcel>, s': State)
    requires Owned(limits, s) && Conns(posted) == []
    requires s'.pool.policy == s.pool.policy && s'.bag == s.bag + posted
    requires s'.handouts == s.handouts
    ensures Owned(limits, s') && GoneForGood(s, s')
  {
    hide Ledger; hide Conns; hide Ids;
    ConnsAppend(s.bag, posted);
    assert Conns(s.bag) + [] == Conns(s.bag);
  }

  lemma OwnedRun(limits: Limits, s: State, at: nat, s': State)
    requires limits.Valid() && Inv(limits, s) && Next(limits, s, Run(at), s')
    ensures Owned(limits, s') && GoneForGood(s, s')
  {
    hide Ledger; hide Conns; hide ConnOf; hide Ids; hide Handle; hide Gone; hide Swap; hide Conserved;
    hide Waiting; hide NotYetRun; hide GrantsIn;
    var (pool, posted) := Handle(limits, s.pool, s.bag[at], s.clock);
    SwapConns(s.bag, at, posted);
    HandleSettles(limits, s.pool, s.bag[at], s.clock,
                  Conns(s.bag[..at]), Conns(s.bag[at + 1..]), s.handouts);
  }

  lemma OwnedCleanUp(limits: Limits, s: State, s': State)
    requires Owned(limits, s) && Next(limits, s, CleanUp, s')
    ensures Owned(limits, s') && GoneForGood(s, s')
  {
    hide Ledger; hide Conns; hide Ids; hide Pruned;
    var p := s.pool.policy;
    PrunedIds(limits, p.idle, s.clock);
    PrunedKeepsReusable(limits, p.idle, s.clock);
    ShrinkIdle(limits, p, Conns(s.bag), s.handouts, Pruned(limits, p.idle, s.clock));
  }

  lemma LeaseOfOne(h: nat, outcome: Outcome, delivered: bool)
    ensures Conns(LeaseOf(outcome, delivered)) == ConnOf(Reply(h, outcome))
    ensures Handlers(LeaseOf(outcome, delivered)) == [] && Quiet(LeaseOf(outcome, delivered))
  {
    One(StopMsg);
    if outcome.Granted? { One(LeaseOf(outcome, delivered)[0]); }
  }

  lemma OwnedReturn(limits: Limits, s: State, at: nat, reuse: bool, s': State)
    requires Owned(limits, s) && Next(limits, s, ReturnLease(at, reuse), s')
    ensures Owned(limits, s') && GoneForGood(s, s')
  {
    hide Conns; hide Ledger; hide Swap; hide GoneForGood;
    var m := if reuse then ReleaseMsg(Some(s.bag[at].connection))
             else DiscardMsg(Some(s.bag[at].connection));
    One(m);
    OwnedMove(limits, s, at, [m], s');
  }

  lemma OwnedReply(limits: Limits, s: State, at: nat, delivered: bool, s': State)
    requires Owned(limits, s)
    requires Next(limits, s, if delivered then Deliver(at) else DestroyReply(at), s')
    ensures Owned(limits, s') && GoneForGood(s, s')
  {
    hide Conns; hide Ledger; hide Swap; hide GoneForGood; hide LeaseOf;
    LeaseOfOne(s.bag[at].handler, s.bag[at].outcome, delivered);
    OwnedMove(limits, s, at, LeaseOf(s.bag[at].outcome, delivered), s');
  }

  lemma OwnedDestroy(limits: Limits, s: State, at: nat, s': State)
    requires Owned(limits, s) && Next(limits, s, DestroyRelease(at), s')
    ensures Owned(limits, s') && GoneForGood(s, s')
  {
    hide Conns; hide Ledger; hide Swap; hide GoneForGood;
    One(DiscardMsg(s.bag[at].returned));
    OwnedMove(limits, s, at, [DiscardMsg(s.bag[at].returned)], s');
  }

  lemma OwnedForget(limits: Limits, s: State, at: nat, s': State)
    requires Owned(limits, s) && Next(limits, s, DestroyAcquire(at), s')
    ensures Owned(limits, s') && GoneForGood(s, s')
  {
    hide Conns; hide Ledger; hide Swap; hide GoneForGood;
    One(StopMsg);
    OwnedMove(limits, s, at, [], s');
  }

  lemma OwnedTimer(limits: Limits, s: State, h: nat, s': State)
    requires Owned(limits, s) && Next(limits, s, FireTimer(h), s')
    ensures Owned(limits, s') && GoneForGood(s, s')
  {
    hide Conns; hide Ledger; hide GoneForGood;
    One(StopMsg);
    One(Reply(h, TimedOut));
    OwnedAdd(limits, s, OnTimer(s.pool, h).1, s');
  }

  lemma OwnedNext(limits: Limits, s: State, a: Action, s': State)
    requires limits.Valid() && Inv(limits, s) && Next(limits, s, a, s')
    ensures Owned(limits, s') && GoneForGood(s, s')
  {
    hide Ledger; hide Conns; hide Ids; hide Handle; hide Swap; hide Conserved; hide Waiting;
    hide NotYetRun; hide GoneForGood; hide LeaseOf; hide OnCleanup; hide OnTimer; hide Owned;
    match a
    case StartAcquire => OwnedPost(limits, s, AcquireMsg(s.nextHandler), s');
    case CallStop => OwnedPost(limits, s, StopMsg, s');
    case ReturnNothing(reuse) =>
      OwnedPost(limits, s, if reuse then ReleaseMsg(None) else DiscardMsg(None), s');
    case ReturnLease(at, reuse) => OwnedReturn(limits, s, at, reuse, s');
    case DestroyAcquire(at) => OwnedForget(limits, s, at, s');
    case DestroyRelease(at) => OwnedDestroy(limits, s, at, s');
    case Deliver(at) => OwnedReply(limits, s, at, true, s');
    case DestroyReply(at) => OwnedReply(limits, s, at, false, s');
    case Run(at) => OwnedRun(limits, s, at, s');
    case FireTimer(h) => OwnedTimer(limits, s, h, s');
    case CleanUp => OwnedCleanUp(limits, s, s');
    case Tick(now) => SameGone(limits, s, s');
  }

  lemma SameGone(limits: Limits, s: State, s': State)
    requires s'.pool == s.pool && s'.bag == s.bag && s'.handouts == s.handouts
    ensures GoneForGood(s, s') && (Owned(limits, s) ==> Owned(limits, s'))
  {}

  lemma OwnedPost(limits: Limits, s: State, p: Parcel, s': State)
    requires Owned(limits, s) && ConnOf(p) == [] && s'.bag == s.bag + [p]
    requires s'.pool.policy == s.pool.policy && s'.handouts == s.handouts
    ensures Owned(limits, s') && GoneForGood(s, s')
  {
    hide Conns; hide Ledger; hide GoneForGood;
    One(p);
    OwnedAdd(limits, s, [p], s');
  }

  // ---------------------------------------------------------- acquires, per step

  lemma Cancel(before: multiset<nat>, after: multiset<nat>, taken: multiset<nat>,
               posted: multiset<nat>, waiting: multiset<nat>, waiting': multiset<nat>,
               twice: multiset<nat>, forgotten: multiset<nat>)
    requires after + taken == before + posted
    requires taken + waiting + twice == posted + waiting' + forgotten
    ensures after + waiting' + forgotten == before + waiting + twice
  {
    forall h: nat ensures (after + waiting' + forgotten)[h] == (before + waiting + twice)[h] {
      assert (after + taken)[h] == (before + posted)[h];
      assert (taken + waiting + twice)[h] == (posted + waiting' + forgotten)[h];
    }
  }

  lemma DistinctWaiters(s: State)
    requires Conserved(s) && (s.pool.stopping ==> s.pool.waiters == [])
    ensures Distinct(s.pool.waiters)
    ensures forall h | h in Handlers(s.bag) :: h !in s.pool.waiters
  {
    if s.pool.stopping { return; }
    forall h: nat ensures multiset(s.pool.waiters)[h] <= 1 { assert Tracked(s)[h] <= 1; }
    forall h | h in Handlers(s.bag) ensures h !in s.pool.waiters {
      assert Tracked(s)[h] <= 1;
      assert multiset(Handlers(s.bag))[h] >= 1;
    }
  }

  /** `s'` tracks the same acquires as `s`. */
  lemma SameTracked(s: State, s': State)
    requires Conserved(s) && Tracked(s') == Tracked(s) && s'.nextHandler == s.nextHandler
    requires s'.doubled == s.doubled && (s.pool.stopping ==> s'.pool.stopping)
    ensures Conserved(s')
  {}

  lemma Parts(all: multiset<nat>, part: multiset<nat>, other: multiset<nat>, h: nat)
    requires part + other == all && all[h] <= 1 && h in part
    ensures h !in other
  {
    assert (part + other)[h] == part[h] + other[h];
  }

  /** An acquire message left in the bag is not the one just run and not a waiter. */
  lemma OtherAcquire(s: State, at: nat, posted: seq<Parcel>, p: Parcel)
    requires Conserved(s) && !s.pool.stopping && at < |s.bag| && Quiet(posted)
    requires p in Swap(s.bag, at, posted) && p.AcquireMsg?
    ensures p in s.bag && p.handler !in s.pool.waiters && p.handler !in HandlerOf(s.bag[at])
  {
    hide Handlers;
    SwapMembers(s.bag, at, posted);
    assert p.handler in HandlerOf(p);
    MemberHandler(s.bag, p);
    DistinctWaiters(s);
    var others := Swap(s.bag, at, []);
    assert p in others;
    MemberHandler(others, p);
    assert Tracked(s)[p.handler] <= 1;
    hide Swap; hide Conserved;
    SwapHandlers(s.bag, at, []);
    One(StopMsg);
    assert multiset(Handlers([])) == multiset{};
    Parts(multiset(Handlers(s.bag)), multiset(Handlers(others)), multiset(HandlerOf(s.bag[at])),
          p.handler);
  }

  lemma RunFacts(limits: Limits, s: State, at: nat)
    requires Inv(limits, s) && at < |s.bag| && s.bag[at].OnStrand()
    ensures var (pool, posted) := Handle(limits, s.pool, s.bag[at], s.clock);
            && Keeps(s.pool, s.bag[at], pool, posted) && Waiting(limits, pool) && Quiet(posted)
            && pool.done <= s.pool.done + Members(s.pool.waiters)
            && pool.timers <= s.pool.timers + (set h | h in HandlerOf(s.bag[at]))
            && (s.pool.stopping ==> pool.stopping && pool.timers == s.pool.timers)
            && (Slips(s.pool, s.bag[at]) ==> pool.stopping)
  {
    assert s.pool.stopping ==> s.pool.waiters == [];
    hide Handle; hide Handlers; hide Ledger; hide Conns; hide Conserved; hide Waiting; hide Keeps;
    DistinctWaiters(s);
    assert s.bag[at] in s.bag;
    HandleConserves(limits, s.pool, s.bag[at], s.clock);
  }

  lemma RunConserves(limits: Limits, s: State, at: nat, s': State)
    requires Inv(limits, s) && Next(limits, s, Run(at), s')
    ensures Conserved(s') && Waiting(limits, s'.pool)
  {
    hide Handle; hide Handlers; hide Swap; hide Ledger; hide Conns; hide Waiting; hide NotYetRun;
    hide Conserved;
    var (pool, posted) := Handle(limits, s.pool, s.bag[at], s.clock);
    RunFacts(limits, s, at);
    SwapHandlers(s.bag, at, posted);
    var twice, forgotten := Twice(s.pool, s.bag[at]), Forgotten(s.pool, s.bag[at]);
    Cancel(multiset(Handlers(s.bag)), multiset(Handlers(s'.bag)), multiset(HandlerOf(s.bag[at])),
           multiset(Handlers(posted)), multiset(s.pool.waiters), multiset(pool.waiters),
           twice, forgotten);
    Rearrange(multiset(Handlers(s.bag)), multiset(Handlers(s'.bag)), multiset(s.pool.waiters),
              multiset(pool.waiters), s.completed, s.dropped, twice, forgotten);
    OneMoreTwice(s, s', twice);
  }

  lemma Rearrange(bag: multiset<nat>, bag': multiset<nat>, waiting: multiset<nat>,
                  waiting': multiset<nat>, completed: multiset<nat>, dropped: multiset<nat>,
                  twice: multiset<nat>, forgotten: multiset<nat>)
    requires bag' + waiting' + forgotten == bag + waiting + twice
    ensures bag' + waiting' + completed + (dropped + forgotten)
         == bag + waiting + completed + dropped + twice
  {
    assert bag' + waiting' + completed + (dropped + forgotten)
        == (bag' + waiting' + forgotten) + (completed + dropped);
    assert bag + waiting + completed + dropped + twice
        == (bag + waiting + twice) + (completed + dropped);
  }

  lemma OneMoreTwice(s: State, s': State, twice: multiset<nat>)
    requires Conserved(s) && Tracked(s') == Tracked(s) + twice && s'.nextHandler == s.nextHandler
    requires s'.doubled == s.doubled + twice
    requires (s.pool.stopping || twice != multiset{}) ==> s'.pool.stopping
    ensures Conserved(s')
  {
    hide Tracked;
    forall h: nat
      ensures Tracked(s')[h] == (if h < s'.nextHandler then 1 else 0) + s'.doubled[h]
    {
      assert Tracked(s)[h] == (if h < s.nextHandler then 1 else 0) + s.doubled[h];
    }
  }

  lemma RunNotYet(limits: Limits, s: State, at: nat, s': State)
    requires Inv(limits, s) && Next(limits, s, Run(at), s')
    ensures NotYetRun(s')
  {
    hide Handle; hide Handlers; hide Ledger; hide Conns; hide Waiting; hide Conserved; hide Keeps;
    hide Swap;
    RunFacts(limits, s, at);
    var posted := Handle(limits, s.pool, s.bag[at], s.clock).1;
    StoppingHasNoWaiters(limits, s);
    forall p | p in s'.bag && p.AcquireMsg?
      ensures p.handler !in s'.pool.done && p.handler !in s'.pool.timers
    {
      if s.pool.stopping {
        SwapMembers(s.bag, at, posted);
      } else {
        OtherAcquire(s, at, posted, p);
      }
    }
    forall h | h in s'.pool.done || h in s'.pool.timers ensures h < s.nextHandler {
      if !s.pool.stopping && (h in s.pool.waiters || h in HandlerOf(s.bag[at])) {
        TrackedIsOld(s, at, h);
      }
    }
  }

  lemma StoppingHasNoWaiters(limits: Limits, s: State)
    requires Waiting(limits, s.pool)
    ensures s.pool.stopping ==> s.pool.waiters == []
  {}

  lemma TrackedIsOld(s: State, at: nat, h: nat)
    requires Conserved(s) && at < |s.bag| && !s.pool.stopping
    requires h in s.pool.waiters || h in HandlerOf(s.bag[at])
    ensures h < s.nextHandler
  {
    if h in HandlerOf(s.bag[at]) {
      assert s.bag[at] in s.bag;
      MemberHandler(s.bag, s.bag[at]);
    }
    hide Handlers;
    assert Tracked(s)[h] >= 1;
  }

  lemma LateTimer(limits: Limits, s: State, h: nat, s': State)
    requires Inv(limits, s) && h in s.pool.done && Next(limits, s, FireTimer(h), s')
    ensures Conserved(s') && Waiting(limits, s'.pool) && NotYetRun(s')
  {
    hide Handlers; hide Ledger; hide Conns;
    assert s'.bag == s.bag;
    assert Tracked(s') == Tracked(s);
  }

  lemma TimeOut(limits: Limits, s: State, h: nat, s': State)
    requires Inv(limits, s) && h !in s.pool.done && Next(limits, s, FireTimer(h), s')
    ensures Conserved(s') && Waiting(limits, s'.pool) && NotYetRun(s')
  {
    hide Handlers; hide Ledger; hide Conns;
    assert h in s.pool.waiters && !s.pool.stopping && h < s.nextHandler;
    DistinctWaiters(s);
    assert s.pool.timers - {h} + {h} == s.pool.timers;
    CompleteConserves(limits, s.pool.(timers := s.pool.timers - {h}), h, TimedOut);
    assert s'.pool.done == s.pool.done + {h} && s'.bag == s.bag + [Reply(h, TimedOut)];
    assert NotYetRun(s') by {
      hide Conserved; hide Waiting; hide Complete;
      forall p | p in s'.bag && p.AcquireMsg?
        ensures p.handler !in s'.pool.done && p.handler !in s'.pool.timers
      {
        assert p.handler in HandlerOf(p);
        MemberHandler(s.bag, p);
      }
    }
    hide Waiting; hide Complete; hide NotYetRun; hide Conserved;
    HandlersAppend(s.bag, [Reply(h, TimedOut)]);
    assert Tracked(s') == Tracked(s);
    SameTracked(s, s');
  }

  lemma SameSum(before: multiset<nat>, after: multiset<nat>, taken: multiset<nat>,
                waiting: multiset<nat>, ended: multiset<nat>, ended': multiset<nat>)
    requires after + taken == before && ended' == ended + taken
    ensures after + waiting + ended' == before + waiting + ended
  {}

  /** A parcel is replaced by `posted`; its handler, if any, has ended. */
  lemma MoveKeeps(limits: Limits, s: State, at: nat, posted: seq<Parcel>, s': State)
    requires Inv(limits, s) && at < |s.bag| && Handlers(posted) == [] && Quiet(posted)
    requires s'.pool == s.pool && s'.bag == Swap(s.bag, at, posted)
    requires s'.nextHandler == s.nextHandler && s'.doubled == s.doubled
    requires s'.completed + s'.dropped
          == s.completed + s.dropped + multiset(HandlerOf(s.bag[at]))
    ensures Conserved(s') && Waiting(limits, s'.pool) && NotYetRun(s')
  {
    hide Handlers; hide Ledger; hide Conns; hide Swap; hide Conserved; hide Waiting;
    SwapHandlers(s.bag, at, posted);
    SwapMembers(s.bag, at, posted);
    assert multiset(Handlers(posted)) == multiset{};
    SameSum(multiset(Handlers(s.bag)), multiset(Handlers(s'.bag)), multiset(HandlerOf(s.bag[at])),
            multiset(s.pool.waiters), s.completed + s.dropped, s'.completed + s'.dropped);
    SplitTracked(s);
    SplitTracked(s');
    SameTracked(s, s');
  }

  lemma SplitTracked(s: State)
    ensures Tracked(s)
         == multiset(Handlers(s.bag)) + multiset(s.pool.waiters) + (s.completed + s.dropped)
  {}

  /** A parcel with no handler is added. */
  lemma PostKeeps(limits: Limits, s: State, p: Parcel, s': State)
    requires Inv(limits, s) && HandlerOf(p) == []
    requires s' == s.(bag := s.bag + [p])
    ensures Conserved(s') && Waiting(limits, s'.pool) && NotYetRun(s')
  {
    hide Handlers; hide Ledger; hide Conns; hide Conserved; hide Waiting;
    HandlersAppend(s.bag, [p]);
    One(p);
    assert s'.bag == s.bag + [p];
    assert Handlers(s'.bag) == Handlers(s.bag);
    SameTracked(s, s');
  }

  lemma StartKeeps(limits: Limits, s: State, s': State)
    requires Inv(limits, s) && Next(limits, s, StartAcquire, s')
    ensures Conserved(s') && Waiting(limits, s'.pool) && NotYetRun(s')
  {
    hide Handlers; hide Ledger; hide Conns; hide Waiting;
    var p := AcquireMsg(s.nextHandler);
    HandlersAppend(s.bag, [p]);
    One(p);
    assert Tracked(s') == Tracked(s) + multiset{s.nextHandler};
    assert s.nextHandler !in s.pool.done && s.nextHandler !in s.pool.timers;
  }

  lemma ReturnKeeps(limits: Limits, s: State, at: nat, reuse: bool, s': State)
    requires Inv(limits, s) && Next(limits, s, ReturnLease(at, reuse), s')
    ensures Conserved(s') && Waiting(limits, s'.pool) && NotYetRun(s')
  {
    hide Handlers; hide Swap; hide Inv; hide Conserved; hide Waiting; hide NotYetRun;
    var m := if reuse then ReleaseMsg(Some(s.bag[at].connection))
             else DiscardMsg(Some(s.bag[at].connection));
    One(m);
    MoveKeeps(limits, s, at, [m], s');
  }

  lemma ForgetKeeps(limits: Limits, s: State, at: nat, s': State)
    requires Inv(limits, s) && Next(limits, s, DestroyAcquire(at), s')
    ensures Conserved(s') && Waiting(limits, s'.pool) && NotYetRun(s')
  {
    hide Handlers; hide Swap; hide Inv; hide Conserved; hide Waiting; hide NotYetRun;
    One(StopMsg);
    MoveKeeps(limits, s, at, [], s');
  }

  lemma DestroyKeeps(limits: Limits, s: State, at: nat, s': State)
    requires Inv(limits, s) && Next(limits, s, DestroyRelease(at), s')
    ensures Conserved(s') && Waiting(limits, s'.pool) && NotYetRun(s')
  {
    hide Handlers; hide Swap; hide Inv; hide Conserved; hide Waiting; hide NotYetRun;
    One(DiscardMsg(s.bag[at].returned));
    MoveKeeps(limits, s, at, [DiscardMsg(s.bag[at].returned)], s');
  }

  lemma ReplyKeeps(limits: Limits, s: State, at: nat, delivered: bool, s': State)
    requires Inv(limits, s)
    requires Next(limits, s, if delivered then Deliver(at) else DestroyReply(at), s')
    ensures Conserved(s') && Waiting(limits, s'.pool) && NotYetRun(s')
  {
    hide Handlers; hide Swap; hide Inv; hide Conserved; hide Waiting; hide NotYetRun; hide LeaseOf;
    LeaseOfOne(s.bag[at].handler, s.bag[at].outcome, delivered);
    MoveKeeps(limits, s, at, LeaseOf(s.bag[at].outcome, delivered), s');
  }

  lemma CallsNext(limits: Limits, s: State, a: Action, s': State)
    requires Inv(limits, s) && Next(limits, s, a, s')
    ensures Conserved(s') && Waiting(limits, s'.pool) && NotYetRun(s')
  {
    hide Ledger; hide Conns; hide Handlers; hide Handle; hide Swap; hide Inv; hide Conserved;
    hide Waiting; hide NotYetRun; hide LeaseOf;
    match a
    case StartAcquire => StartKeeps(limits, s, s');
    case CallStop => PostKeeps(limits, s, StopMsg, s');
    case ReturnNothing(reuse) =>
      PostKeeps(limits, s, if reuse then ReleaseMsg(None) else DiscardMsg(None), s');
    case ReturnLease(at, reuse) => ReturnKeeps(limits, s, at, reuse, s');
    case DestroyAcquire(at) => ForgetKeeps(limits, s, at, s');
    case DestroyRelease(at) => DestroyKeeps(limits, s, at, s');
    case Deliver(at) => ReplyKeeps(limits, s, at, true, s');
    case DestroyReply(at) => ReplyKeeps(limits, s, at, false, s');
    case Run(at) =>
      RunConserves(limits, s, at, s');
      RunNotYet(limits, s, at, s');
    case FireTimer(h) =>
      if h in s.pool.done { LateTimer(limits, s, h, s'); } else { TimeOut(limits, s, h, s'); }
    case CleanUp => SamePlaces(limits, s, s');
    case Tick(now) => SamePlaces(limits, s, s');
  }

  lemma SamePlaces(limits: Limits, s: State, s': State)
    requires Inv(limits, s)
    requires s'.pool == s.pool.(policy := s'.pool.policy) && s'.bag == s.bag
    requires s'.nextHandler == s.nextHandler
    requires s'.completed == s.completed && s'.dropped == s.dropped && s'.doubled == s.doubled
    ensures Conserved(s') && Waiting(limits, s'.pool) && NotYetRun(s')
  {
    assert Tracked(s') == Tracked(s);
  }

  // ------------------------------------------------------------------ every run

  /** Every reachable state satisfies the invariant. */
  lemma {:induction false} RunKeepsInv(
      limits: Limits, states: seq<State>, actions: seq<Action>, i: nat)
    requires IsRun(limits, states, actions) && i < |states|
    ensures Inv(limits, states[i])
  {
    if i == 0 {
      InitIsSound(limits, states[0]);
    } else {
      hide Inv; hide Ledger; hide Conns; hide Handle; hide Next; hide Init;
      RunKeepsInv(limits, states, actions, i - 1);
      assert Next(limits, states[i - 1], actions[i - 1], states[i]);
      OwnedNext(limits, states[i - 1], actions[i - 1], states[i]);
      CallsNext(limits, states[i - 1], actions[i - 1], states[i]);
      Together(limits, states[i]);
    }
  }

  lemma InitIsSound(limits: Limits, s: State)
    requires limits.Valid() && Init(s)
    ensures Inv(limits, s)
  {
    EmptyLedger(limits);
    One(StopMsg);
  }

  lemma Together(limits: Limits, s: State)
    requires Owned(limits, s) && Conserved(s) && Waiting(limits, s.pool) && NotYetRun(s)
    ensures Inv(limits, s)
  {}

  /** Lease exclusivity: no connection id is in two places at once, whether idle, in
      a live lease, in a reply or in a queued return. */
  lemma OnePlace(limits: Limits, states: seq<State>, actions: seq<Action>, i: nat)
    requires IsRun(limits, states, actions) && i < |states|
    ensures var s := states[i];
            && (forall id: nat :: (Ids(s.pool.policy.idle) + Ids(Conns(s.bag)))[id] <= 1)
            && s.pool.policy.busy == |Conns(s.bag)|
            && s.pool.policy.busy + |s.pool.policy.idle| <= limits.maxConnections
            && |s.pool.policy.idle| <= limits.maxIdle
            && (forall id: nat :: s.handouts[id] <= limits.maxReuses)
  {
    hide Conns; hide Ids;
    RunKeepsInv(limits, states, actions, i);
    assert CountsOk(limits, states[i].pool.policy.nextId, states[i].handouts);
  }

  /** Two different parcels never carry the same connection. */
  lemma OneHolder(limits: Limits, s: State, i: nat, j: nat)
    requires Owned(limits, s) && i < j < |s.bag|
    ensures forall c, d | c in ConnOf(s.bag[i]) && d in ConnOf(s.bag[j]) :: c.id != d.id
  {
    hide Conns; hide Ledger;
    forall c, d | c in ConnOf(s.bag[i]) && d in ConnOf(s.bag[j]) ensures c.id != d.id {
      var a, b := Conns(s.bag[..i]), Conns(s.bag[i + 1..]);
      SwapConns(s.bag, i, []);
      DropHeld(limits, s.pool.policy, a, c, b, s.handouts);
      SwapConns(s.bag[i + 1..], j - i - 1, []);
      assert s.bag[i + 1..][j - i - 1] == s.bag[j];
      assert d in b && d in a + b;
    }
  }

  /** The account of every acquire: it is in exactly one of the bag, the queue, the
      called and the destroyed, and in one more for each time a stop answered it twice. */
  lemma CallsAccounted(limits: Limits, states: seq<State>, actions: seq<Action>, i: nat, h: nat)
    requires IsRun(limits, states, actions) && i < |states|
    ensures states[i].completed[h] <= 1 + states[i].doubled[h]
    ensures h < states[i].nextHandler ==>
              multiset(Handlers(states[i].bag))[h] + multiset(states[i].pool.waiters)[h]
              + states[i].completed[h] + states[i].dropped[h] == 1 + states[i].doubled[h]
    ensures states[i].doubled != multiset{} ==> states[i].pool.stopping
  {
    hide Handlers; hide Ledger; hide Conns;
    RunKeepsInv(limits, states, actions, i);
    assert Tracked(states[i])[h] <= 1 + states[i].doubled[h];
  }

  /** The waiter queue is bounded, every waiter still has its timer, and once stopping
      there is no waiter. */
  lemma WaitersBounded(limits: Limits, states: seq<State>, actions: seq<Action>, i: nat)
    requires IsRun(limits, states, actions) && i < |states|
    ensures |states[i].pool.waiters| <= limits.maxWaiters
    ensures states[i].pool.stopping ==> states[i].pool.waiters == []
    ensures forall h | h in states[i].pool.waiters :: h in states[i].pool.timers
  {
    hide Ledger; hide Conns; hide Handlers;
    RunKeepsInv(limits, states, actions, i);
  }

  /** Stopping is for good, so no waiter is ever added after it. */
  lemma {:induction false} StopsForGood(
      limits: Limits, states: seq<State>, actions: seq<Action>, i: nat, j: nat)
    requires IsRun(limits, states, actions) && i <= j < |states| && states[i].pool.stopping
    ensures states[j].pool.stopping && states[j].pool.waiters == []
  {
    hide Ledger; hide Conns; hide Handlers;
    if i < j {
      StopsForGood(limits, states, actions, i, j - 1);
      assert Next(limits, states[j - 1], actions[j - 1], states[j]);
    }
    hide Next; hide Init; hide Inv;
    WaitersBounded(limits, states, actions, j);
  }

  /** A return of a connection always serves the waiter at the front. */
  lemma ReleaseServesFront(limits: Limits, s: State, at: nat, s': State)
    requires limits.Valid() && Inv(limits, s) && Next(limits, s, Run(at), s')
    requires s.bag[at].ReleaseMsg? && s.bag[at].returned.Some? && s.pool.waiters != []
    ensures s'.pool.waiters == s.pool.waiters[1..]
    ensures exists c :: s'.bag == Swap(s.bag, at, [Reply(s.pool.waiters[0], Granted(c))])
  {
    hide Ledger; hide Conns; hide Handlers; hide Acquire; hide Release; hide Conserved; hide Swap;
    var c, now := s.bag[at].returned.value, s.clock;
    var a, b := Conns(s.bag[..at]), Conns(s.bag[at + 1..]);
    SwapConns(s.bag, at, []);
    ReleaseKeepsLedger(limits, s.pool.policy, a, c, b, s.handouts, now);
    var p := Release(limits, s.pool.policy, Some(c), now);
    AcquireSucceeds(limits, p, now);
    DistinctWaiters(s);
    WithoutOne(s.pool.waiters, s.pool.waiters[0]);
  }

  // ------------------------------------------------------------- after a discard

  /** The connection is on its way out: discarded already, or its discard is queued. */
  ghost predicate Discarding(s: State, c: Connection) {
    Gone(s.pool.policy, Conns(s.bag), c.id) || DiscardMsg(Some(c)) in s.bag
  }

  lemma {:induction false} ConnInConns(bag: seq<Parcel>, p: Parcel)
    requires p in bag
    ensures forall c | c in ConnOf(p) :: c in Conns(bag)
  {
    if bag[0] != p { ConnInConns(bag[1..], p); }
  }

  /** Once discarded, never handed out again, one step. */
  lemma DiscardingNext(limits: Limits, s: State, a: Action, s': State, c: Connection)
    requires limits.Valid() && Inv(limits, s) && Next(limits, s, a, s') && Discarding(s, c)
    ensures Discarding(s', c) && s'.handouts[c.id] == s.handouts[c.id]
  {
    hide Ledger; hide Conns; hide Handlers; hide Handle; hide Conserved; hide Waiting; hide NotYetRun;
    hide Gone;
    OwnedNext(limits, s, a, s');
    if !Gone(s.pool.policy, Conns(s.bag), c.id) {
      var m := DiscardMsg(Some(c));
      var k :| 0 <= k < |s.bag| && s.bag[k] == m;
      if a == Run(k) {
        RunDiscard(limits, s, k, c, s');
      } else {
        StaysQueued(s, a, s', limits, k);
        if a.Run? { RunGrantsOther(limits, s, a.at, k, c); }
      }
    }
  }

  lemma RunDiscard(limits: Limits, s: State, k: nat, c: Connection, s': State)
    requires limits.Valid() && Inv(limits, s) && k < |s.bag| && s.bag[k] == DiscardMsg(Some(c))
    requires Next(limits, s, Run(k), s')
    ensures Gone(s'.pool.policy, Conns(s'.bag), c.id) && s'.handouts == s.handouts
  {
    hide Ledger; hide Conns; hide Handlers; hide Swap; hide Gone;
    One(StopMsg);
    SwapConns(s.bag, k, []);
    DiscardKeepsLedger(limits, s.pool.policy, Conns(s.bag[..k]), c, Conns(s.bag[k + 1..]), s.handouts);
    assert Conns(s'.bag) == Conns(s.bag[..k]) + Conns(s.bag[k + 1..]);
  }

  lemma StaysQueued(s: State, a: Action, s': State, limits: Limits, k: nat)
    requires Next(limits, s, a, s') && k < |s.bag| && s.bag[k].DiscardMsg? && a != Run(k)
    ensures s.bag[k] in s'.bag
  {
    hide Handle;
    if a.ReturnLease? || a.DestroyAcquire? || a.DestroyRelease? || a.Deliver? || a.DestroyReply? || a.Run? {
      assert k != a.at;
      assert s.bag[k] in s.bag[..a.at] || s.bag[k] in s.bag[a.at + 1..] by {
        if k < a.at { assert s.bag[k] == s.bag[..a.at][k]; }
        else { assert s.bag[k] == s.bag[a.at + 1..][k - a.at - 1]; }
      }
    } else {
      assert s.bag[k] == s'.bag[k];
    }
  }

  /** A message other than the queued discard grants some other connection. */
  lemma RunGrantsOther(limits: Limits, s: State, at: nat, k: nat, c: Connection)
    requires limits.Valid() && Inv(limits, s) && at < |s.bag| && k < |s.bag| && at != k
    requires s.bag[at].OnStrand() && s.bag[k] == DiscardMsg(Some(c))
    ensures GrantsIn(Handle(limits, s.pool, s.bag[at], s.clock).1)[c.id] == 0
  {
    hide Ledger; hide Conns; hide Handlers; hide Handle; hide Conserved; hide NotYetRun; hide Waiting;
    var m := s.bag[at];
    var a, b := Conns(s.bag[..at]), Conns(s.bag[at + 1..]);
    SwapConns(s.bag, at, []);
    HandleSettles(limits, s.pool, m, s.clock, a, b, s.handouts);
    var (pool, posted) := Handle(limits, s.pool, m, s.clock);
    assert c in a + b by {
      if k < at {
        assert s.bag[k] == s.bag[..at][k];
        ConnInConns(s.bag[..at], s.bag[k]);
      } else {
        assert s.bag[k] == s.bag[at + 1..][k - at - 1];
        ConnInConns(s.bag[at + 1..], s.bag[k]);
      }
    }
    HeldTwice(limits, s.pool.policy, a + ConnOf(m) + b, s.handouts,
              pool.policy, a + b + Conns(posted), s.handouts + GrantsIn(posted), c);
  }

  /** A connection held unchanged on both sides of a step was not handed out in it. */
  lemma HeldTwice(limits: Limits, p: Policy, held: seq<Connection>, handouts: multiset<nat>,
                  p': Policy, held': seq<Connection>, handouts': multiset<nat>, c: Connection)
    requires Ledger(limits, p, held, handouts) && Ledger(limits, p', held', handouts')
    requires c in held && c in held'
    ensures handouts'[c.id] == handouts[c.id]
  {
    assert HeldOk(limits, p.nextId, handouts, c) && HeldOk(limits, p'.nextId, handouts', c);
  }

  /** After a discard call the connection is never handed out again, in any run. */
  lemma {:induction false} NeverAgain(limits: Limits, states: seq<State>, actions: seq<Action>,
                                      i: nat, j: nat, c: Connection)
    requires IsRun(limits, states, actions) && i <= j < |states| && Discarding(states[i], c)
    ensures Discarding(states[j], c) && states[j].handouts[c.id] == states[i].handouts[c.id]
  {
    hide Next; hide Init; hide Inv; hide Discarding;
    if i < j {
      NeverAgain(limits, states, actions, i, j - 1, c);
      RunKeepsInv(limits, states, actions, j - 1);
      DiscardingNext(limits, states[j - 1], actions[j - 1], states[j], c);
    }
  }
}
