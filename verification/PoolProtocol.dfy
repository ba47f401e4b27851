/** The upstream pool as a transition system: handlers posted to its strand, replies
    posted back, held leases, timers and a clock that never goes back. Messages run
    in any order, a timer may fire at any moment, even after its waiter was served,
    and the closures of acquires, releases and replies may be destroyed instead of
    run. */
module PoolProtocol {
  import opened Bytes
  import opened PoolPolicy

  datatype Outcome = Granted(lease: Connection) | Aborted | NoSpace | TimedOut

  /** Whatever is under way outside the pool object. */
  datatype Parcel =
    | AcquireMsg(handler: nat)
    | ReleaseMsg(returned: Option<Connection>)
    | DiscardMsg(discarded: Option<Connection>)
    | StopMsg
    | Reply(handler: nat, outcome: Outcome)
    | Lease(connection: Connection)
  {
    predicate OnStrand() { AcquireMsg? || ReleaseMsg? || DiscardMsg? || StopMsg? }
  }

  /** The stop loop of the source hands `completeWaiter` a reference to the front slot
      of the queue, and reads it again after that slot was overwritten. The other loop
      copies the pointer first, as the release path does. */
  datatype StopLoop = AsWritten | Copying

  /** A waiter is known by its handler; `done` are the completed ones and `timers`
      those whose timer has not fired. */
  datatype Pool = Pool(
    policy: Policy, stopping: bool, waiters: seq<nat>, done: set<nat>, timers: set<nat>,
    loop: StopLoop)

  function NewPool(loop: StopLoop): Pool { Pool(EMPTY, false, [], {}, {}, loop) }

  // -------------------------------------------------------- handlers on the strand

  function Without(waiters: seq<nat>, h: nat): (r: seq<nat>)
    ensures h !in r && |r| <= |waiters|
    ensures forall x :: x in r <==> x in waiters && x != h
  {
    if waiters == [] then []
    else (if waiters[0] == h then [] else [waiters[0]]) + Without(waiters[1..], h)
  }

  /** A lease offered to a completed waiter is abandoned, and so discarded. */
  function Complete(pool: Pool, h: nat, outcome: Outcome): (Pool, seq<Parcel>) {
    if h in pool.done then
      (pool, if outcome.Granted? then [DiscardMsg(Some(outcome.lease))] else [])
    else
      (pool.(done := pool.done + {h}, waiters := Without(pool.waiters, h)), [Reply(h, outcome)])
  }

  function SatisfyOne(limits: Limits, pool: Pool, now: int): (Pool, seq<Parcel>) {
    if pool.waiters == [] then (pool, []) else
    var (p, lease) := Acquire(limits, pool.policy, now);
    match lease
    case None => (pool.(policy := p), [])
    case Some(c) => Complete(pool.(policy := p), pool.waiters[0], Granted(c))
  }

  function OnAcquire(limits: Limits, pool: Pool, h: nat, now: int): (Pool, seq<Parcel>) {
    if pool.stopping then (pool, [Reply(h, Aborted)]) else
    var (p, lease) := Acquire(limits, pool.policy, now);
    var next := pool.(policy := p);
    if lease.Some? then (next, [Reply(h, Granted(lease.value))])
    else if |pool.waiters| >= limits.maxWaiters then (next, [Reply(h, NoSpace)])
    else (next.(waiters := pool.waiters + [h], timers := pool.timers + {h}), [])
  }

  function OnRelease(limits: Limits, pool: Pool, lease: Option<Connection>, now: int)
      : (Pool, seq<Parcel>)
  {
    SatisfyOne(limits, pool.(policy := Release(limits, pool.policy, lease, now)), now)
  }

  function OnDiscard(pool: Pool, lease: Option<Connection>): (Pool, seq<Parcel>) {
    (pool.(policy := Discard(pool.policy, lease)), [])
  }

  function AbortReplies(waiters: seq<nat>): seq<Parcel> {
    if waiters == [] then [] else [Reply(waiters[0], Aborted)] + AbortReplies(waiters[1..])
  }

  function Members(waiters: seq<nat>): set<nat> { set h | h in waiters }

  /** Whose handlers the stop loop calls. As written, each round erases the front and
      then calls whatever the front slot holds: the next waiter, and in the last round
      what the destroyed slot still holds, which is the last waiter. */
  function Called(loop: StopLoop, waiters: seq<nat>): seq<nat> {
    if loop == Copying || waiters == [] then waiters
    else waiters[1..] + [waiters[|waiters| - 1]]
  }

  /** Stopping marks every waiter done. */
  function OnStop(pool: Pool): (Pool, seq<Parcel>) {
    if pool.stopping then (pool, [])
    else
      (pool.(stopping := true, waiters := [], done := pool.done + Members(pool.waiters)),
       AbortReplies(Called(pool.loop, pool.waiters)))
  }

  /** A stop that calls the wrong handlers. */
  predicate Slips(pool: Pool, m: Parcel) {
    m.StopMsg? && !pool.stopping && pool.loop == AsWritten && |pool.waiters| >= 2
  }

  /** The waiter that such a stop forgets, and the one that it calls twice. */
  function Forgotten(pool: Pool, m: Parcel): multiset<nat> {
    if Slips(pool, m) then multiset{pool.waiters[0]} else multiset{}
  }

  function Twice(pool: Pool, m: Parcel): multiset<nat> {
    if Slips(pool, m) then multiset{pool.waiters[|pool.waiters| - 1]} else multiset{}
  }

  function OnTimer(pool: Pool, h: nat): (Pool, seq<Parcel>) {
    Complete(pool.(timers := pool.timers - {h}), h, TimedOut)
  }

  function OnCleanup(limits: Limits, pool: Pool, now: int): Pool {
    pool.(policy := pool.policy.(idle := Pruned(limits, pool.policy.idle, now)))
  }

  function Handle(limits: Limits, pool: Pool, m: Parcel, now: int): (Pool, seq<Parcel>)
    requires m.OnStrand()
  {
    match m
    case AcquireMsg(h) => OnAcquire(limits, pool, h, now)
    case ReleaseMsg(lease) => OnRelease(limits, pool, lease, now)
    case DiscardMsg(lease) => OnDiscard(pool, lease)
    case StopMsg => OnStop(pool)
  }

  // ------------------------------------------------------------ transition system

  /** `completed` and `dropped` record which handlers were called, or destroyed without
      a call; `handouts` how often each connection id was granted; `doubled` which
      handlers a stop answered twice. */
  datatype State = State(
    pool: Pool, bag: seq<Parcel>, clock: int, nextHandler: nat,
    completed: multiset<nat>, dropped: multiset<nat>, handouts: multiset<nat>,
    doubled: multiset<nat>)

  datatype Action =
    | StartAcquire
    | CallStop
    | ReturnNothing(reuse: bool)
    | ReturnLease(at: nat, reuse: bool)
    | DestroyAcquire(at: nat)
    | DestroyRelease(at: nat)
    | Deliver(at: nat)
    | DestroyReply(at: nat)
    | Run(at: nat)
    | FireTimer(handler: nat)
    | CleanUp
    | Tick(now: int)

  ghost predicate Init(s: State) {
    s == State(NewPool(s.pool.loop), [], s.clock, 0, multiset{}, multiset{}, multiset{}, multiset{})
  }

  function Swap(bag: seq<Parcel>, at: nat, posted: seq<Parcel>): seq<Parcel>
    requires at < |bag|
  {
    bag[..at] + bag[at + 1..] + posted
  }

  /** The connection a parcel carries, as a list of at most one. */
  function ConnOf(p: Parcel): (cs: seq<Connection>)
    ensures |cs| <= 1
  {
    match p
    case ReleaseMsg(Some(c)) => [c]
    case DiscardMsg(Some(c)) => [c]
    case Reply(_, Granted(c)) => [c]
    case Lease(c) => [c]
    case _ => []
  }

  function Conns(bag: seq<Parcel>): seq<Connection> {
    if bag == [] then [] else ConnOf(bag[0]) + Conns(bag[1..])
  }

  /** The acquire a parcel belongs to. */
  function HandlerOf(p: Parcel): (hs: seq<nat>)
    ensures |hs| <= 1
  {
    match p
    case AcquireMsg(h) => [h]
    case Reply(h, _) => [h]
    case _ => []
  }

  function Handlers(bag: seq<Parcel>): seq<nat> {
    if bag == [] then [] else HandlerOf(bag[0]) + Handlers(bag[1..])
  }

  function GrantsIn(posted: seq<Parcel>): multiset<nat> {
    if posted == [] then multiset{}
    else
      (if posted[0].Reply? && posted[0].outcome.Granted? then multiset{posted[0].outcome.lease.id}
       else multiset{})
      + GrantsIn(posted[1..])
  }

  /** What a reply leaves behind: the lease goes to the caller, or is abandoned. */
  function LeaseOf(outcome: Outcome, delivered: bool): seq<Parcel> {
    if !outcome.Granted? then []
    else if delivered then [Lease(outcome.lease)]
    else [DiscardMsg(Some(outcome.lease))]
  }

  ghost predicate Next(limits: Limits, s: State, a: Action, s': State) {
    match a
    case StartAcquire =>
      s' == s.(bag := s.bag + [AcquireMsg(s.nextHandler)], nextHandler := s.nextHandler + 1)
    case CallStop => s' == s.(bag := s.bag + [StopMsg])
    case ReturnNothing(reuse) =>
      s' == s.(bag := s.bag + [if reuse then ReleaseMsg(None) else DiscardMsg(None)])
    case ReturnLease(at, reuse) =>
      && at < |s.bag| && s.bag[at].Lease?
      && var lease := Some(s.bag[at].connection);
      s' == s.(bag := Swap(s.bag, at, [if reuse then ReleaseMsg(lease) else DiscardMsg(lease)]))
    case DestroyAcquire(at) =>
      && at < |s.bag| && s.bag[at].AcquireMsg?
      && s' == s.(bag := Swap(s.bag, at, []), dropped := s.dropped + multiset{s.bag[at].handler})
    case DestroyRelease(at) =>
      && at < |s.bag| && s.bag[at].ReleaseMsg?
      && s' == s.(bag := Swap(s.bag, at, [DiscardMsg(s.bag[at].returned)]))
    case Deliver(at) =>
      && at < |s.bag| && s.bag[at].Reply?
      && s' == s.(bag := Swap(s.bag, at, LeaseOf(s.bag[at].outcome, true)),
                  completed := s.completed + multiset{s.bag[at].handler})
    case DestroyReply(at) =>
      && at < |s.bag| && s.bag[at].Reply?
      && s' == s.(bag := Swap(s.bag, at, LeaseOf(s.bag[at].outcome, false)),
                  dropped := s.dropped + multiset{s.bag[at].handler})
    case Run(at) =>
      && at < |s.bag| && s.bag[at].OnStrand()
      && var (pool, posted) := Handle(limits, s.pool, s.bag[at], s.clock);
      s' == s.(pool := pool, bag := Swap(s.bag, at, posted),
               handouts := s.handouts + GrantsIn(posted),
               dropped := s.dropped + Forgotten(s.pool, s.bag[at]),
               doubled := s.doubled + Twice(s.pool, s.bag[at]))
    case FireTimer(h) =>
      && h in s.pool.timers
      && var (pool, posted) := OnTimer(s.pool, h);
      s' == s.(pool := pool, bag := s.bag + posted)
    case CleanUp => s' == s.(pool := OnCleanup(limits, s.pool, s.clock))
    case Tick(now) => s.clock <= now && s' == s.(clock := now)
  }

  ghost predicate IsRun(limits: Limits, states: seq<State>, actions: seq<Action>) {
    && limits.Valid() && |states| == |actions| + 1 && Init(states[0])
    && forall i | 0 <= i < |actions| :: Next(limits, states[i], actions[i], states[i + 1])
  }

  // -------------------------------------------------------------------- invariants

  ghost predicate Owned(limits: Limits, s: State) {
    Ledger(limits, s.pool.policy, Conns(s.bag), s.handouts)
  }

  /** Where each acquire is: under way, waiting, completed or destroyed. */
  function Tracked(s: State): multiset<nat> {
    multiset(Handlers(s.bag)) + multiset(s.pool.waiters) + s.completed + s.dropped
  }

  /** Each acquire ever started is in exactly one of these places, and in two if a stop
      answered it twice, after which nothing waits. */
  ghost predicate Conserved(s: State) {
    && (forall h: nat :: Tracked(s)[h] == (if h < s.nextHandler then 1 else 0) + s.doubled[h])
    && (s.doubled != multiset{} ==> s.pool.stopping)
  }

  ghost predicate Waiting(limits: Limits, pool: Pool) {
    && |pool.waiters| <= limits.maxWaiters && (pool.stopping ==> pool.waiters == [])
    && (forall h | h in pool.waiters :: h !in pool.done && h in pool.timers)
    && (forall h | h in pool.timers :: h in pool.done || h in pool.waiters)
  }

  /** An acquire that has not run yet has no waiter. */
  ghost predicate NotYetRun(s: State) {
    && (forall p | p in s.bag && p.AcquireMsg? ::
          p.handler !in s.pool.done && p.handler !in s.pool.timers)
    && (forall h | h in s.pool.done || h in s.pool.timers :: h < s.nextHandler)
  }

  ghost predicate Inv(limits: Limits, s: State) {
    Owned(limits, s) && Conserved(s) && Waiting(limits, s.pool) && NotYetRun(s)
  }

  // ----------------------------------------------------------------- bag lemmas

  lemma {:induction false} ConnsAppend(a: seq<Parcel>, b: seq<Parcel>)
    ensures Conns(a + b) == Conns(a) + Conns(b)
  {
    if a == [] {
      assert a + b == b;
    } else {
      assert (a + b)[1..] == a[1..] + b;
      ConnsAppend(a[1..], b);
    }
  }

  lemma {:induction false} HandlersAppend(a: seq<Parcel>, b: seq<Parcel>)
    ensures Handlers(a + b) == Handlers(a) + Handlers(b)
  {
    if a == [] {
      assert a + b == b;
    } else {
      assert (a + b)[1..] == a[1..] + b;
      HandlersAppend(a[1..], b);
    }
  }

  lemma One(p: Parcel)
    ensures Conns([p]) == ConnOf(p) && Handlers([p]) == HandlerOf(p)
    ensures Conns([]) == [] && Handlers([]) == [] && GrantsIn([]) == multiset{}
    ensures GrantsIn([p]) == if p.Reply? && p.outcome.Granted? then multiset{p.outcome.lease.id} else multiset{}
  {
    assert [p][1..] == [];
  }

  /** The connections around position `at`, before and after a swap. */
  lemma SwapConns(bag: seq<Parcel>, at: nat, posted: seq<Parcel>)
    requires at < |bag|
    ensures Conns(bag) == Conns(bag[..at]) + ConnOf(bag[at]) + Conns(bag[at + 1..])
    ensures Conns(Swap(bag, at, posted))
              == Conns(bag[..at]) + Conns(bag[at + 1..]) + Conns(posted)
  {
    hide Conns;
    assert bag == bag[..at] + [bag[at]] + bag[at + 1..];
    ConnsAppend(bag[..at] + [bag[at]], bag[at + 1..]);
    ConnsAppend(bag[..at], [bag[at]]);
    One(bag[at]);
    ConnsAppend(bag[..at] + bag[at + 1..], posted);
    ConnsAppend(bag[..at], bag[at + 1..]);
  }

  lemma SwapHandlers(bag: seq<Parcel>, at: nat, posted: seq<Parcel>)
    requires at < |bag|
    ensures multiset(Handlers(Swap(bag, at, posted))) + multiset(HandlerOf(bag[at]))
              == multiset(Handlers(bag)) + multiset(Handlers(posted))
  {
    hide Handlers;
    assert bag == bag[..at] + [bag[at]] + bag[at + 1..];
    HandlersAppend(bag[..at] + [bag[at]], bag[at + 1..]);
    HandlersAppend(bag[..at], [bag[at]]);
    One(bag[at]);
    HandlersAppend(bag[..at] + bag[at + 1..], posted);
    HandlersAppend(bag[..at], bag[at + 1..]);
  }

  lemma SwapMembers(bag: seq<Parcel>, at: nat, posted: seq<Parcel>)
    requires at < |bag|
    ensures forall p | p in Swap(bag, at, posted) :: p in bag || p in posted
  {}

  lemma {:induction false} MemberHandler(bag: seq<Parcel>, p: Parcel)
    requires p in bag
    ensures forall h | h in HandlerOf(p) :: h in Handlers(bag)
  {
    if bag[0] != p { MemberHandler(bag[1..], p); }
  }

  // ------------------------------------------------------------ who holds what

  /** The ledger after a step that posts `posted`. */
  ghost predicate Settled(limits: Limits, p: Policy, held: seq<Connection>,
                          handouts: multiset<nat>, posted: seq<Parcel>)
  {
    Ledger(limits, p, held + Conns(posted), handouts + GrantsIn(posted))
  }

  /** What is gone stays gone, and is not granted. */
  ghost predicate StaysGone(p: Policy, held: seq<Connection>, p': Policy, held': seq<Connection>,
                            granted: multiset<nat>)
  {
    forall id | Gone(p, held, id) :: Gone(p', held', id) && granted[id] == 0
  }

  lemma NothingPosted(limits: Limits, p: Policy, held: seq<Connection>, handouts: multiset<nat>,
                      posted: seq<Parcel>)
    requires Conns(posted) == [] && GrantsIn(posted) == multiset{}
    requires Ledger(limits, p, held, handouts)
    ensures Settled(limits, p, held, handouts, posted)
    ensures held + Conns(posted) == held
  {
    assert held + [] == held && handouts + multiset{} == handouts;
  }

  lemma SatisfySettles(limits: Limits, pool: Pool, held: seq<Connection>,
                       handouts: multiset<nat>, now: int)
    requires limits.Valid() && Ledger(limits, pool.policy, held, handouts)
    requires Waiting(limits, pool)
    ensures var (next, posted) := SatisfyOne(limits, pool, now);
            && Settled(limits, next.policy, held, handouts, posted)
            && StaysGone(pool.policy, held, next.policy, held + Conns(posted), GrantsIn(posted))
  {
    hide Ledger; hide Gone; hide Acquire;
    var posted := SatisfyOne(limits, pool, now).1;
    if pool.waiters == [] {
      One(StopMsg);
      NothingPosted(limits, pool.policy, held, handouts, []);
    } else {
      var front := pool.waiters[0];
      AcquireKeepsLedger(limits, pool.policy, held, handouts, now);
      var (p, lease) := Acquire(limits, pool.policy, now);
      match lease
      case None =>
        One(StopMsg);
        NothingPosted(limits, p, held, handouts, []);
      case Some(c) =>
        assert front !in pool.done;
        One(Reply(front, Granted(c)));
    }
  }

  lemma AcquireSettles(limits: Limits, pool: Pool, h: nat, held: seq<Connection>,
                       handouts: multiset<nat>, now: int)
    requires limits.Valid() && Ledger(limits, pool.policy, held, handouts)
    ensures var (next, posted) := OnAcquire(limits, pool, h, now);
            && Settled(limits, next.policy, held, handouts, posted)
            && StaysGone(pool.policy, held, next.policy, held + Conns(posted), GrantsIn(posted))
  {
    hide Ledger; hide Gone; hide Acquire;
    One(StopMsg);
    if pool.stopping {
      One(Reply(h, Aborted));
      NothingPosted(limits, pool.policy, held, handouts, [Reply(h, Aborted)]);
    } else {
      AcquireKeepsLedger(limits, pool.policy, held, handouts, now);
      var (p, lease) := Acquire(limits, pool.policy, now);
      if lease.Some? {
        One(Reply(h, Granted(lease.value)));
      } else {
        One(Reply(h, NoSpace));
        NothingPosted(limits, p, held, handouts, OnAcquire(limits, pool, h, now).1);
      }
    }
  }

  lemma ReleaseNothing(limits: Limits, p: Policy, now: int)
    ensures Release(limits, p, None, now) == p
  {}

  lemma {:induction false} AbortsCarryNothing(waiters: seq<nat>)
    ensures Conns(AbortReplies(waiters)) == [] && GrantsIn(AbortReplies(waiters)) == multiset{}
    ensures Handlers(AbortReplies(waiters)) == waiters
    ensures forall p | p in AbortReplies(waiters) :: p.Reply?
  {
    if waiters != [] { AbortsCarryNothing(waiters[1..]); }
  }

  /** A message that carries `ConnOf(m)` between `a` and `b` is handled: what it
      posts comes last. */
  lemma HandleSettles(limits: Limits, pool: Pool, m: Parcel, now: int,
                      a: seq<Connection>, b: seq<Connection>, handouts: multiset<nat>)
    requires limits.Valid() && m.OnStrand() && Waiting(limits, pool)
    requires Ledger(limits, pool.policy, a + ConnOf(m) + b, handouts)
    ensures var (next, posted) := Handle(limits, pool, m, now);
            && Settled(limits, next.policy, a + b, handouts, posted)
            && StaysGone(pool.policy, a + ConnOf(m) + b,
                         next.policy, a + b + Conns(posted), GrantsIn(posted))
  {
    hide Ledger; hide Gone; hide Settled; hide SatisfyOne; hide OnAcquire; hide Release;
    One(StopMsg);
    assert a + [] + b == a + b;
    match m
    case AcquireMsg(h) => AcquireSettles(limits, pool, h, a + b, handouts, now);
    case ReleaseMsg(lease) =>
      match lease {
        case None =>
          ReleaseNothing(limits, pool.policy, now);
          SatisfySettles(limits, pool, a + b, handouts, now);
        case Some(c) =>
          ReleaseKeepsLedger(limits, pool.policy, a, c, b, handouts, now);
          var p := Release(limits, pool.policy, lease, now);
          SatisfySettles(limits, pool.(policy := p), a + b, handouts, now);
      }
    case DiscardMsg(lease) =>
      match lease {
        case None =>
        case Some(c) => DiscardKeepsLedger(limits, pool.policy, a, c, b, handouts);
      }
      NothingPosted(limits, Discard(pool.policy, lease), a + b, handouts, []);
    case StopMsg =>
      AbortsCarryNothing(Called(pool.loop, pool.waiters));
      NothingPosted(limits, pool.policy, a + b, handouts, OnStop(pool).1);
  }

  // ------------------------------------------------------------ where acquires are

  ghost predicate Distinct(waiters: seq<nat>) { forall h: nat :: multiset(waiters)[h] <= 1 }

  lemma {:induction false} WithoutOne(waiters: seq<nat>, h: nat)
    requires Distinct(waiters) && h in waiters
    ensures multiset(waiters) == multiset(Without(waiters, h)) + multiset{h}
    ensures waiters[0] == h ==> Without(waiters, h) == waiters[1..]
  {
    var head: nat := waiters[0];
    var rest: seq<nat> := waiters[1..];
    assert waiters == [head] + rest;
    assert multiset(waiters) == multiset{head} + multiset(rest);
    forall x: nat ensures multiset(rest)[x] <= 1 {
      assert multiset(waiters)[x] <= 1;
    }
    if head == h {
      assert multiset(waiters)[h] == 1 + multiset(rest)[h];
      WithoutNone(rest, h);
    } else {
      WithoutOne(rest, h);
    }
  }

  lemma {:induction false} WithoutNone(waiters: seq<nat>, h: nat)
    requires h !in waiters
    ensures Without(waiters, h) == waiters
  {
    if waiters != [] { WithoutNone(waiters[1..], h); }
  }

  /** Completing a waiter turns it into one reply. */
  lemma CompleteConserves(limits: Limits, pool: Pool, h: nat, outcome: Outcome)
    requires Waiting(limits, pool.(timers := pool.timers + {h})) && Distinct(pool.waiters)
    requires h in pool.waiters
    ensures var (next, posted) := Complete(pool, h, outcome);
            && posted == [Reply(h, outcome)] && Waiting(limits, next)
            && multiset(pool.waiters) == multiset(Handlers(posted)) + multiset(next.waiters)
  {
    WithoutOne(pool.waiters, h);
    One(Reply(h, outcome));
  }

  /** A handled message moves acquires about and loses none, but for a stop that slips. */
  ghost predicate Keeps(pool: Pool, m: Parcel, next: Pool, posted: seq<Parcel>) {
    multiset(HandlerOf(m)) + multiset(pool.waiters) + Twice(pool, m)
      == multiset(Handlers(posted)) + multiset(next.waiters) + Forgotten(pool, m)
  }

  ghost predicate Quiet(posted: seq<Parcel>) { forall p | p in posted :: !p.AcquireMsg? }

  lemma SatisfyConserves(limits: Limits, pool: Pool, now: int)
    requires Waiting(limits, pool) && Distinct(pool.waiters)
    ensures var (next, posted) := SatisfyOne(limits, pool, now);
            && Keeps(pool, ReleaseMsg(None), next, posted) && Waiting(limits, next) && Quiet(posted)
            && next.done <= pool.done + Members(pool.waiters) && next.timers == pool.timers
            && next.stopping == pool.stopping
  {
    hide Acquire;
    One(StopMsg);
    if pool.waiters != [] {
      var front := pool.waiters[0];
      var (p, lease) := Acquire(limits, pool.policy, now);
      if lease.Some? {
        assert pool.timers + {front} == pool.timers;
        CompleteConserves(limits, pool.(policy := p), front, Granted(lease.value));
        hide Complete; hide Handlers;
      }
    }
  }

  lemma AcquireConserves(limits: Limits, pool: Pool, h: nat, now: int)
    requires Waiting(limits, pool) && h !in pool.done && h !in pool.timers
    ensures var (next, posted) := OnAcquire(limits, pool, h, now);
            && Keeps(pool, AcquireMsg(h), next, posted) && Waiting(limits, next) && Quiet(posted)
            && next.done == pool.done && next.timers <= pool.timers + {h}
            && next.stopping == pool.stopping && (pool.stopping ==> next.timers == pool.timers)
  {
    hide Acquire; hide Keeps; hide Waiting; hide Quiet;
    var (p, lease) := Acquire(limits, pool.policy, now);
    if pool.stopping {
      Answered(limits, pool, pool.policy, h, Aborted);
    } else if lease.Some? {
      Answered(limits, pool, p, h, Granted(lease.value));
    } else if |pool.waiters| >= limits.maxWaiters {
      Answered(limits, pool, p, h, NoSpace);
    } else {
      Enqueued(limits, pool, p, h);
    }
  }

  lemma Answered(limits: Limits, pool: Pool, p: Policy, h: nat, outcome: Outcome)
    requires Waiting(limits, pool)
    ensures var posted := [Reply(h, outcome)];
            && Waiting(limits, pool.(policy := p)) && Quiet(posted)
            && Keeps(pool, AcquireMsg(h), pool.(policy := p), posted)
  {
    One(Reply(h, outcome));
  }

  lemma Enqueued(limits: Limits, pool: Pool, p: Policy, h: nat)
    requires Waiting(limits, pool) && h !in pool.done && !pool.stopping
    requires |pool.waiters| < limits.maxWaiters
    ensures var next := pool.(policy := p).(waiters := pool.waiters + [h], timers := pool.timers + {h});
            Waiting(limits, next) && Keeps(pool, AcquireMsg(h), next, []) && Quiet([])
  {
    One(StopMsg);
    assert multiset(pool.waiters + [h]) == multiset(pool.waiters) + multiset([h]);
  }

  lemma StopConserves(limits: Limits, pool: Pool)
    requires Waiting(limits, pool)
    ensures var (next, posted) := OnStop(pool);
            && Keeps(pool, StopMsg, next, posted) && Waiting(limits, next) && Quiet(posted)
            && next.done <= pool.done + Members(pool.waiters) && next.timers == pool.timers
            && next.stopping
  {
    One(StopMsg);
    if pool.stopping {
      assert Keeps(pool, StopMsg, pool, []);
    } else {
      StopKeeps(pool);
      hide Keeps; hide Called;
      AbortsCarryNothing(Called(pool.loop, pool.waiters));
    }
  }

  lemma StopKeeps(pool: Pool)
    requires !pool.stopping
    ensures Keeps(pool, StopMsg, OnStop(pool).0, OnStop(pool).1)
  {
    hide Handlers;
    var called := Called(pool.loop, pool.waiters);
    AbortsCarryNothing(called);
    CalledAccount(pool.loop, pool.waiters);
    hide Called; hide AbortReplies;
    assert multiset(HandlerOf(StopMsg)) == multiset{} && multiset(OnStop(pool).0.waiters) == multiset{};
    Sides(multiset(pool.waiters), multiset(called), Twice(pool, StopMsg), Forgotten(pool, StopMsg));
  }

  lemma Sides(waiting: multiset<nat>, called: multiset<nat>, twice: multiset<nat>,
              forgotten: multiset<nat>)
    requires waiting + twice == called + forgotten
    ensures multiset{} + waiting + twice == called + multiset{} + forgotten
  {
    assert multiset{} + waiting == waiting && called + multiset{} == called;
  }

  /** The handlers called are the waiters, with one exchanged for another if the loop
      slips. */
  lemma CalledAccount(loop: StopLoop, waiters: seq<nat>)
    ensures var called := multiset(Called(loop, waiters));
            if loop == Copying || |waiters| < 2 then called == multiset(waiters)
            else
              called + multiset{waiters[0]}
              == multiset(waiters) + multiset{waiters[|waiters| - 1]}
  {
    if waiters != [] {
      assert waiters == [waiters[0]] + waiters[1..];
      assert multiset(waiters) == multiset{waiters[0]} + multiset(waiters[1..]);
    }
  }

  lemma ReleaseConserves(limits: Limits, pool: Pool, lease: Option<Connection>, now: int)
    requires Waiting(limits, pool) && Distinct(pool.waiters)
    ensures var (next, posted) := OnRelease(limits, pool, lease, now);
            && Keeps(pool, ReleaseMsg(lease), next, posted) && Waiting(limits, next) && Quiet(posted)
            && next.done <= pool.done + Members(pool.waiters) && next.timers == pool.timers
            && next.stopping == pool.stopping
  {
    hide SatisfyOne; hide Release; hide Members;
    SatisfyConserves(limits, pool.(policy := Release(limits, pool.policy, lease, now)), now);
  }

  lemma DiscardConserves(limits: Limits, pool: Pool, lease: Option<Connection>)
    requires Waiting(limits, pool)
    ensures var (next, posted) := OnDiscard(pool, lease);
            && Keeps(pool, DiscardMsg(lease), next, posted) && Waiting(limits, next) && Quiet(posted)
            && next.done == pool.done && next.timers == pool.timers
            && next.stopping == pool.stopping
  {
    One(StopMsg);
  }

  lemma HandleConserves(limits: Limits, pool: Pool, m: Parcel, now: int)
    requires m.OnStrand() && Waiting(limits, pool) && Distinct(pool.waiters)
    requires m.AcquireMsg? ==> m.handler !in pool.done && m.handler !in pool.timers
    ensures var (next, posted) := Handle(limits, pool, m, now);
            && Keeps(pool, m, next, posted) && Waiting(limits, next) && Quiet(posted)
            && next.done <= pool.done + Members(pool.waiters)
            && next.timers <= pool.timers + (set h | h in HandlerOf(m))
            && (pool.stopping ==> next.stopping && next.timers == pool.timers)
            && (Slips(pool, m) ==> next.stopping)
  {
    hide SatisfyOne; hide Release; hide OnAcquire; hide OnStop; hide Waiting; hide Keeps; hide Quiet;
    hide Members;
    match m
    case AcquireMsg(h) => AcquireConserves(limits, pool, h, now);
    case ReleaseMsg(lease) => ReleaseConserves(limits, pool, lease, now);
    case DiscardMsg(lease) => DiscardConserves(limits, pool, lease);
    case StopMsg => StopConserves(limits, pool);
  }
}
