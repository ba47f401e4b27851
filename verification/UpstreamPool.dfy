/** The pool objects: each strand handler updates the fields in place and is proved
    equal to the handler of the transition system. `now` stands for every clock
    reading inside one handler; the handlers return the closures they post. */
module UpstreamPools {
  import opened Bytes
  import opened PoolPolicy
  import opened PoolProtocol

  class UpstreamPoolPolicy {
    const limits: Limits
    var idle: seq<Connection>
    var busy: int
    var nextId: nat

    ghost function Value(): Policy
      reads this
    {
      Policy(idle, busy, nextId)
    }

    constructor (l: Limits)
      requires l.Valid()
      ensures limits == l && Value() == EMPTY
    {
      limits, idle, busy, nextId := l, [], 0, 1;
    }

    /** Pops from the back until a connection is reusable. */
    method AcquireLease(now: int) returns (lease: Option<Connection>)
      modifies this
      ensures (Value(), lease) == Acquire(limits, old(Value()), now)
    {
      hide Reusable; hide Below;
      while idle != []
        invariant |idle| <= |old(idle)| && idle == old(idle)[..|idle|]
        invariant Below(limits, idle, now) == Below(limits, old(idle), now)
        invariant busy == old(busy) && nextId == old(nextId)
        decreases |idle|
      {
        BelowStep(limits, idle, now);
        var connection := idle[|idle| - 1];
        idle := idle[..|idle| - 1];
        assert idle == old(idle)[..|idle|] && connection == old(idle)[|idle|];
        if Reusable(limits, connection, now) {
          busy := busy + 1;
          return Some(connection.(lastUsedAt := now));
        }
      }
      if busy + |idle| >= limits.maxConnections { return None; }
      lease := Some(Connection(nextId, 0, now, now, true));
      nextId := nextId + 1;
      busy := busy + 1;
    }

    method ReleaseReusable(lease: Option<Connection>, now: int)
      modifies this
      ensures Value() == Release(limits, old(Value()), lease, now)
    {
      if lease.None? { return; }
      busy := busy - 1;
      var connection := lease.value;
      connection := connection.(reuseCount := connection.reuseCount + 1);
      connection := connection.(lastUsedAt := now);
      if Reusable(limits, connection, now) && |idle| < limits.maxIdle {
        idle := idle + [connection];
      }
    }

    method DiscardLease(lease: Option<Connection>)
      modifies this
      ensures Value() == Discard(old(Value()), lease)
    {
      if lease.None? { return; }
      busy := busy - 1;
    }

    method PruneIdle(now: int)
      modifies this
      ensures Value() == old(Value()).(idle := Pruned(limits, old(idle), now))
    {
      hide Reusable;
      var kept := [];
      for i := 0 to |idle|
        invariant kept == Pruned(limits, idle[..i], now)
        invariant Value() == old(Value())
      {
        assert idle[..i + 1][..i] == idle[..i];
        if Reusable(limits, idle[i], now) { kept := kept + [idle[i]]; }
      }
      assert idle[..|idle|] == idle;
      idle := kept;
    }
  }

  class UpstreamPool {
    const policy: UpstreamPoolPolicy
    ghost const loop: StopLoop
    var stopping: bool
    var waiters: seq<nat>
    var done: set<nat>
    var timers: set<nat>

    ghost function Value(): Pool
      reads this, policy
    {
      Pool(policy.Value(), stopping, waiters, done, timers, loop)
    }

    /** `which` says which of the two stop handlers below this pool runs. */
    constructor (l: Limits, ghost which: StopLoop)
      requires l.Valid()
      ensures fresh(policy) && policy.limits == l && Value() == NewPool(which)
    {
      loop := which;
      policy := new UpstreamPoolPolicy(l);
      stopping, waiters, done, timers := false, [], {}, {};
    }

    method CompleteWaiter(h: nat, outcome: Outcome) returns (posted: seq<Parcel>)
      modifies this`waiters, this`done
      ensures (Value(), posted) == Complete(old(Value()), h, outcome)
    {
      if h in done {
        return if outcome.Granted? then [DiscardMsg(Some(outcome.lease))] else [];
      }
      done := done + {h};
      waiters := Without(waiters, h);
      return [Reply(h, outcome)];
    }

    method SatisfyOneWaiter(now: int) returns (posted: seq<Parcel>)
      modifies this, policy
      ensures (Value(), posted) == SatisfyOne(policy.limits, old(Value()), now)
    {
      if waiters == [] { return []; }
      var front := waiters[0];
      var lease := policy.AcquireLease(now);
      if lease.None? { return []; }
      posted := CompleteWaiter(front, Granted(lease.value));
    }

    /** The handler that `asyncAcquire` posts. */
    method HandleAcquire(h: nat, now: int) returns (posted: seq<Parcel>)
      modifies this, policy
      ensures (Value(), posted) == OnAcquire(policy.limits, old(Value()), h, now)
    {
      if stopping { return [Reply(h, Aborted)]; }
      var lease := policy.AcquireLease(now);
      if lease.Some? { return [Reply(h, Granted(lease.value))]; }
      if |waiters| >= policy.limits.maxWaiters { return [Reply(h, NoSpace)]; }
      timers := timers + {h};
      waiters := waiters + [h];
      return [];
    }

    method HandleRelease(lease: Option<Connection>, now: int) returns (posted: seq<Parcel>)
      modifies this, policy
      ensures (Value(), posted) == OnRelease(policy.limits, old(Value()), lease, now)
    {
      policy.ReleaseReusable(lease, now);
      posted := SatisfyOneWaiter(now);
    }

    method HandleDiscard(lease: Option<Connection>) returns (posted: seq<Parcel>)
      modifies this, policy
      ensures (Value(), posted) == OnDiscard(old(Value()), lease)
    {
      policy.DiscardLease(lease);
      return [];
    }

    /** The stop handler as written. */
    method HandleStop() returns (posted: seq<Parcel>)
      requires Waiting(policy.limits, Value()) && Distinct(waiters) && loop == AsWritten
      modifies this
      ensures (Value(), posted) == OnStop(old(Value()))
    {
      if stopping { return []; }
      stopping := true;
      posted := AbortWaiters();
    }

    /** The stop loop as written ends, because no queued waiter is already done, and
        marks every waiter done; whom it calls is another matter. */
    method AbortWaiters() returns (posted: seq<Parcel>)
      requires Distinct(waiters) && forall h | h in waiters :: h !in done
      modifies this`waiters, this`done
      ensures waiters == [] && done == old(done) + Members(old(waiters))
      ensures posted == AbortReplies(Called(AsWritten, old(waiters)))
    {
      posted := [];
      while waiters != []
        invariant Distinct(waiters) && forall h | h in waiters :: h !in done
        invariant posted + AbortReplies(Called(AsWritten, waiters))
               == AbortReplies(Called(AsWritten, old(waiters)))
        invariant done + Members(waiters) == old(done) + Members(old(waiters))
        decreases |waiters|
      {
        var reply := CompleteFront(Aborted);
        posted := posted + reply;
      }
    }

    /** `completeWaiter` with a reference to the front slot for its waiter. Erasing moves
        the next waiter into that slot, or destroys the slot, which is taken to keep what
        it held; the last line reads the slot again. */
    method CompleteFront(outcome: Outcome) returns (reply: seq<Parcel>)
      requires Distinct(waiters) && (forall h | h in waiters :: h !in done) && waiters != []
      modifies this`waiters, this`done
      ensures Distinct(waiters) && (forall h | h in waiters :: h !in done)
      ensures waiters == old(waiters)[1..] && done == old(done) + {old(waiters)[0]}
      ensures reply == [Reply(if |old(waiters)| > 1 then old(waiters)[1] else old(waiters)[0], outcome)]
      ensures outcome == Aborted ==>
                reply + AbortReplies(Called(AsWritten, waiters))
                == AbortReplies(Called(AsWritten, old(waiters)))
      ensures done + Members(waiters) == old(done) + Members(old(waiters))
    {
      DistinctTail(waiters);
      WithoutOne(waiters, waiters[0]);
      AbortFirst(waiters);
      CalledFirst(waiters);
      hide AbortReplies; hide Members; hide Distinct; hide Called;
      var slot := waiters[0];
      done := done + {slot};
      waiters := Without(waiters, slot);
      if waiters != [] { slot := waiters[0]; }
      return [Reply(slot, outcome)];
    }

    /** A stop handler that copies the front pointer, as the release path does. */
    method HandleStopCopying() returns (posted: seq<Parcel>)
      requires Waiting(policy.limits, Value()) && Distinct(waiters) && loop == Copying
      modifies this
      ensures (Value(), posted) == OnStop(old(Value()))
    {
      if stopping { return []; }
      stopping := true;
      posted := AbortWaitersCopying();
    }

    /** With the copy the loop aborts every waiter once, in order. */
    method AbortWaitersCopying() returns (posted: seq<Parcel>)
      requires Distinct(waiters) && forall h | h in waiters :: h !in done
      modifies this`waiters, this`done
      ensures waiters == [] && done == old(done) + Members(old(waiters))
      ensures posted == AbortReplies(old(waiters))
    {
      posted := [];
      while waiters != []
        invariant Distinct(waiters) && forall h | h in waiters :: h !in done
        invariant posted + AbortReplies(waiters) == AbortReplies(old(waiters))
        invariant done + Members(waiters) == old(done) + Members(old(waiters))
        decreases |waiters|
      {
        var reply := AbortFront();
        posted := posted + reply;
      }
    }

    /** One round of that loop. */
    method AbortFront() returns (reply: seq<Parcel>)
      requires Distinct(waiters) && (forall h | h in waiters :: h !in done) && waiters != []
      modifies this`waiters, this`done
      ensures Distinct(waiters) && (forall h | h in waiters :: h !in done)
      ensures waiters == old(waiters)[1..]
      ensures reply + AbortReplies(waiters) == AbortReplies(old(waiters))
      ensures done + Members(waiters) == old(done) + Members(old(waiters))
    {
      DistinctTail(waiters);
      WithoutOne(waiters, waiters[0]);
      AbortFirst(waiters);
      hide AbortReplies; hide Members; hide Distinct;
      reply := CompleteWaiter(waiters[0], Aborted);
    }

    /** The timer handler of a waiter, run when it was not cancelled in time. */
    method HandleTimer(h: nat) returns (posted: seq<Parcel>)
      modifies this
      ensures (Value(), posted) == OnTimer(old(Value()), h)
    {
      timers := timers - {h};
      posted := CompleteWaiter(h, TimedOut);
    }

    method HandleCleanup(now: int)
      modifies policy
      ensures Value() == OnCleanup(policy.limits, old(Value()), now)
    {
      policy.PruneIdle(now);
    }
  }

  lemma AbortFirst(waiters: seq<nat>)
    requires waiters != []
    ensures AbortReplies(waiters) == [Reply(waiters[0], Aborted)] + AbortReplies(waiters[1..])
    ensures Members(waiters) == {waiters[0]} + Members(waiters[1..])
  {}

  /** Each round of the loop as written calls the next waiter, the last one its own. */
  lemma CalledFirst(waiters: seq<nat>)
    requires waiters != []
    ensures var next := if |waiters| > 1 then waiters[1] else waiters[0];
            AbortReplies(Called(AsWritten, waiters))
              == [Reply(next, Aborted)] + AbortReplies(Called(AsWritten, waiters[1..]))
  {
    var next := if |waiters| > 1 then waiters[1] else waiters[0];
    var called, rest := Called(AsWritten, waiters), Called(AsWritten, waiters[1..]);
    assert called == [next] + rest;
    assert called[1..] == rest;
  }

  lemma BelowStep(limits: Limits, idle: seq<Connection>, now: int)
    requires idle != []
    ensures var n := |idle| - 1;
            Below(limits, idle, now)
              == if Reusable(limits, idle[n], now) then n else Below(limits, idle[..n], now)
  {}

  lemma DistinctTail(waiters: seq<nat>)
    requires waiters != [] && Distinct(waiters)
    ensures Distinct(waiters[1..]) && waiters[0] !in waiters[1..]
  {
    var rest: seq<nat> := waiters[1..];
    assert waiters == [waiters[0]] + rest;
    forall h: nat ensures multiset(rest)[h] <= 1 { assert multiset(waiters)[h] <= 1; }
    assert multiset(waiters)[waiters[0]] == 1 + multiset(rest)[waiters[0]];
  }
}
