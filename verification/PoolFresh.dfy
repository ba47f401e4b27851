/** Over every run: what is granted is fresh, and what each answer to an acquire means. */
module PoolFresh {
  import opened Bytes
  import opened PoolPolicy
  import opened PoolProtocol
  import opened PoolTheorems

  // --------------------------------------------------------- where idle ones come from

  /** Step `k` put the connection back: its owner had returned it, and the strand ran
      the return at the time the connection still carries. */
  ghost predicate PutBack(states: seq<State>, actions: seq<Action>, k: nat, c: Connection) {
    && k < |actions| && k < |states| && actions[k].Run?
    && var s, at := states[k], actions[k].at;
    && at < |s.bag| && s.bag[at].ReleaseMsg? && s.bag[at].returned.Some?
    && var d := s.bag[at].returned.value;
    c == Connection(d.id, d.reuseCount + 1, d.createdAt, s.clock, d.open)
  }

  lemma ReleaseAdds(limits: Limits, p: Policy, lease: Option<Connection>, now: int)
    ensures forall c | c in Release(limits, p, lease, now).idle ::
              c in p.idle || (lease.Some? && c == lease.value.(reuseCount := lease.value.reuseCount + 1,
                                                               lastUsedAt := now))
  {
    hide Reusable;
  }

  lemma AcquireTakes(limits: Limits, p: Policy, now: int)
    ensures forall c | c in Acquire(limits, p, now).0.idle :: c in p.idle
  {
    hide Reusable;
  }

  /** A message brings in at most the connection that it returns. */
  lemma HandleAdds(limits: Limits, pool: Pool, m: Parcel, now: int)
    requires m.OnStrand()
    ensures forall c | c in Handle(limits, pool, m, now).0.policy.idle ::
              || c in pool.policy.idle
              || (m.ReleaseMsg? && m.returned.Some? &&
                  c == m.returned.value.(reuseCount := m.returned.value.reuseCount + 1,
                                         lastUsedAt := now))
  {
    hide Acquire; hide Release;
    match m
    case AcquireMsg(h) => AcquireTakes(limits, pool.policy, now);
    case ReleaseMsg(lease) =>
      ReleaseAdds(limits, pool.policy, lease, now);
      AcquireTakes(limits, Release(limits, pool.policy, lease, now), now);
    case DiscardMsg(lease) =>
    case StopMsg =>
  }

  lemma StepAdds(limits: Limits, s: State, a: Action, s': State, c: Connection)
    requires Next(limits, s, a, s') && c in s'.pool.policy.idle && c !in s.pool.policy.idle
    ensures PutBack([s, s'], [a], 0, c)
  {
    hide Handle; hide Swap; hide Pruned; hide GrantsIn; hide Forgotten; hide Twice; hide LeaseOf;
    match a
    case Run(at) => HandleAdds(limits, s.pool, s.bag[at], s.clock);
    case CleanUp => PrunedKeepsReusable(limits, s.pool.policy.idle, s.clock);
    case FireTimer(h) =>
    case _ =>
  }

  /** Every idle connection was put back by some earlier step. */
  lemma {:induction false} IdleWasPutBack(
      limits: Limits, states: seq<State>, actions: seq<Action>, i: nat, c: Connection)
      returns (k: nat)
    requires IsRun(limits, states, actions) && i < |states| && c in states[i].pool.policy.idle
    ensures k < i && PutBack(states, actions, k, c)
  {
    hide Next; hide PutBack;
    if i == 0 {
      assert false;
    }
    assert Next(limits, states[i - 1], actions[i - 1], states[i]);
    if c in states[i - 1].pool.policy.idle {
      k := IdleWasPutBack(limits, states, actions, i - 1, c);
    } else {
      k := i - 1;
      StepAdds(limits, states[i - 1], actions[i - 1], states[i], c);
      SameStep(states, actions, k, c);
    }
  }

  lemma SameStep(states: seq<State>, actions: seq<Action>, k: nat, c: Connection)
    requires k < |actions| && k + 1 < |states| && PutBack([states[k], states[k + 1]], [actions[k]], 0, c)
    ensures PutBack(states, actions, k, c)
  {}

  // ---------------------------------------------------------------- what is granted

  /** The connection a step hands out, if any. */
  ghost predicate Grants(limits: Limits, s: State, a: Action, c: Connection) {
    && a.Run? && a.at < |s.bag| && s.bag[a.at].OnStrand()
    && exists h :: Reply(h, Granted(c)) in Handle(limits, s.pool, s.bag[a.at], s.clock).1
  }

  /** The connection is neither new nor was it stale at the time. */
  ghost predicate WasFresh(limits: Limits, idle: seq<Connection>, c: Connection, now: int) {
    exists k | 0 <= k < |idle| :: !Stale(limits, idle[k], now) && c == idle[k].(lastUsedAt := now)
  }

  lemma AcquireGrants(limits: Limits, p: Policy, now: int)
    ensures var lease := Acquire(limits, p, now).1;
            lease.Some? ==> lease.value == Connection(p.nextId, 0, now, now, true)
                            || WasFresh(limits, p.idle, lease.value, now)
  {
    if Acquire(limits, p, now).1.Some? {
      var k := NoneStaleIsGranted(limits, p, now);
      hide Acquire; hide Stale;
    }
  }

  lemma {:induction false} AbortsGrantNothing(waiters: seq<nat>)
    ensures forall h, c :: Reply(h, Granted(c)) !in AbortReplies(waiters)
  {
    if waiters != [] { AbortsGrantNothing(waiters[1..]); }
  }

  lemma CompleteGrants(pool: Pool, h: nat, outcome: Outcome)
    ensures forall g, c | Reply(g, Granted(c)) in Complete(pool, h, outcome).1 :: Granted(c) == outcome
  {}

  /** Where the connections come from that a message may hand out. */
  function Offered(limits: Limits, p: Policy, m: Parcel, now: int): Policy {
    if m.ReleaseMsg? then Release(limits, p, m.returned, now) else p
  }

  lemma HandleGrants(limits: Limits, pool: Pool, m: Parcel, now: int, h: nat, c: Connection)
    requires m.OnStrand() && Reply(h, Granted(c)) in Handle(limits, pool, m, now).1
    ensures var p := Offered(limits, pool.policy, m, now);
            Acquire(limits, p, now).1 == Some(c)
  {
    hide Acquire; hide Release; hide Complete; hide AbortReplies; hide Called;
    match m
    case AcquireMsg(g) =>
    case ReleaseMsg(lease) =>
      var p := Release(limits, pool.policy, lease, now);
      var (q, offered) := Acquire(limits, p, now);
      if pool.waiters != [] && offered.Some? {
        CompleteGrants(pool.(policy := q), pool.waiters[0], Granted(offered.value));
        assert pool.(policy := p).(policy := q) == pool.(policy := q);
      }
    case DiscardMsg(lease) =>
    case StopMsg => AbortsGrantNothing(Called(pool.loop, pool.waiters));
  }

  lemma OfferedIsOld(limits: Limits, s: State, a: Action, c: Connection)
    requires a.Run? && a.at < |s.bag| && s.bag[a.at].OnStrand()
    requires c in Offered(limits, s.pool.policy, s.bag[a.at], s.clock).idle
    ensures c in s.pool.policy.idle || PutBack([s], [a], 0, c)
  {
    hide Release;
    if s.bag[a.at].ReleaseMsg? {
      ReleaseAdds(limits, s.pool.policy, s.bag[a.at].returned, s.clock);
    }
  }

  /** Over every run, a connection that is handed out is open and new, or it was returned
      less than the idle time ago, was opened less than the lifetime ago, and has been
      used less often than the limit. */
  lemma GrantedIsFresh(limits: Limits, states: seq<State>, actions: seq<Action>, i: nat,
                       c: Connection) returns (k: nat)
    requires IsRun(limits, states, actions) && i < |actions| && Grants(limits, states[i], actions[i], c)
    ensures var now := states[i].clock;
            || c == Connection(states[i].pool.policy.nextId, 0, now, now, true)
            || (&& k <= i && PutBack(states, actions, k, c.(lastUsedAt := states[k].clock))
                && now - states[k].clock < limits.idleTimeout
                && now - c.createdAt < limits.maxLifetime
                && c.reuseCount < limits.maxReuses && c.open && c.lastUsedAt == now)
  {
    hide Next; hide Handle; hide PutBack; hide Init; hide Offered; hide Acquire; hide Stale; hide WasFresh;
    k := 0;
    var s, a, now := states[i], actions[i], states[i].clock;
    var h :| Reply(h, Granted(c)) in Handle(limits, s.pool, s.bag[a.at], now).1;
    HandleGrants(limits, s.pool, s.bag[a.at], now, h, c);
    var p := Offered(limits, s.pool.policy, s.bag[a.at], now);
    AcquireGrants(limits, p, now);
    OfferedNextId(limits, s.pool.policy, s.bag[a.at], now);
    if WasFresh(limits, p.idle, c, now) {
      var idle := FreshOne(limits, p.idle, c, now);
      OfferedIsOld(limits, s, a, idle);
      if idle in s.pool.policy.idle {
        k := IdleWasPutBack(limits, states, actions, i, idle);
      } else {
        k := i;
        HereIsHere(states, actions, k, idle);
      }
      assert idle.lastUsedAt == states[k].clock by { PutBackClock(states, actions, k, idle); }
    }
  }

  lemma FreshOne(limits: Limits, idle: seq<Connection>, c: Connection, now: int)
      returns (d: Connection)
    requires WasFresh(limits, idle, c, now)
    ensures d in idle && !Stale(limits, d, now) && c == d.(lastUsedAt := now)
    ensures d.open && d.reuseCount < limits.maxReuses
    ensures now - d.createdAt < limits.maxLifetime && now - d.lastUsedAt < limits.idleTimeout
    ensures d == c.(lastUsedAt := d.lastUsedAt)
  {
    var k :| 0 <= k < |idle| && !Stale(limits, idle[k], now) && c == idle[k].(lastUsedAt := now);
    d := idle[k];
  }

  lemma OfferedNextId(limits: Limits, p: Policy, m: Parcel, now: int)
    ensures Offered(limits, p, m, now).nextId == p.nextId
  {
    hide Reusable;
  }

  lemma HereIsHere(states: seq<State>, actions: seq<Action>, k: nat, c: Connection)
    requires k < |actions| && k < |states| && PutBack([states[k]], [actions[k]], 0, c)
    ensures PutBack(states, actions, k, c)
  {}

  lemma PutBackClock(states: seq<State>, actions: seq<Action>, k: nat, c: Connection)
    requires PutBack(states, actions, k, c)
    ensures k < |states| && c.lastUsedAt == states[k].clock
  {}

  // ---------------------------------------------------------------- what answers mean

  /** No idle connection can be used, and no more may be opened. */
  predicate Exhausted(limits: Limits, p: Policy, now: int) {
    p.busy >= limits.maxConnections && forall j | 0 <= j < |p.idle| :: Stale(limits, p.idle[j], now)
  }

  /** Each answer to an acquire, and when it is given: aborted when stopping, no space when
      all connections are busy and the queue is full, a wait at the back of the queue when
      it is not, and a connection whenever there can be one. */
  lemma AcquireAnswers(limits: Limits, pool: Pool, h: nat, now: int)
    ensures var (next, posted) := OnAcquire(limits, pool, h, now);
            var exhausted := Exhausted(limits, pool.policy, now);
            && (posted == [Reply(h, Aborted)] <==> pool.stopping)
            && (posted == [Reply(h, NoSpace)] <==>
                  !pool.stopping && exhausted && |pool.waiters| >= limits.maxWaiters)
            && (posted == [] <==> !pool.stopping && exhausted && |pool.waiters| < limits.maxWaiters)
            && (posted == [] ==> next.waiters == pool.waiters + [h] && h in next.timers)
            && (posted != [] ==> next.waiters == pool.waiters && next.timers == pool.timers)
            && (!pool.stopping && !exhausted ==>
                  exists c :: posted == [Reply(h, Granted(c))]
                              && Some(c) == Acquire(limits, pool.policy, now).1)
  {
    StaleEverywhere(limits, pool.policy.idle, now);
    hide Stale; hide Reusable;
    var b := Below(limits, pool.policy.idle, now);
    if b >= 0 { assert !Stale(limits, pool.policy.idle[b], now); }
    assert Acquire(limits, pool.policy, now).1.Some? <==> !Exhausted(limits, pool.policy, now);
    hide Acquire;
    var (p, lease) := Acquire(limits, pool.policy, now);
    if !pool.stopping && lease.Some? {
      assert OnAcquire(limits, pool, h, now).1 == [Reply(h, Granted(lease.value))];
    }
  }

  /** A timer that finds its waiter waiting takes it out of the queue and answers it; the
      others keep their order. */
  lemma TimerExactly(pool: Pool, before: seq<nat>, h: nat, after: seq<nat>)
    requires pool.waiters == before + [h] + after && h !in before && h !in after
    requires h !in pool.done
    ensures var (next, posted) := OnTimer(pool, h);
            && posted == [Reply(h, TimedOut)] && next.waiters == before + after
            && h in next.done && h !in next.timers
  {
    WithoutMiddle(before, h, after);
    hide Without;
  }

  lemma WithoutMiddle(before: seq<nat>, h: nat, after: seq<nat>)
    requires h !in before && h !in after
    ensures Without(before + [h] + after, h) == before + after
  {
    hide Without;
    assert before + [h] + after == before + ([h] + after);
    WithoutAppend(before, [h] + after, h);
    WithoutCons(h, after, h);
    assert [] + after == after;
    WithoutNone(before, h);
    WithoutNone(after, h);
  }

  lemma WithoutCons(x: nat, rest: seq<nat>, h: nat)
    ensures Without([x] + rest, h) == (if x == h then [] else [x]) + Without(rest, h)
  {
    assert ([x] + rest)[1..] == rest;
  }

  lemma {:induction false} WithoutAppend(xs: seq<nat>, ys: seq<nat>, h: nat)
    ensures Without(xs + ys, h) == Without(xs, h) + Without(ys, h)
  {
    if xs == [] {
      assert xs + ys == ys;
    } else {
      hide Without;
      var x, rest: seq<nat> := xs[0], xs[1..];
      assert xs == [x] + rest && xs + ys == [x] + (rest + ys);
      WithoutAppend(rest, ys, h);
      WithoutCons(x, rest, h);
      WithoutCons(x, rest + ys, h);
    }
  }
}
