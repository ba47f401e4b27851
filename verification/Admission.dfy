/** The proxy's in-flight counter as a transition system: any number of threads,
    each at some point of the load / compare-exchange loop, one atomic access per
    step. A relaxed load, and a failed weak exchange, may report any value the
    counter has ever had. */
module InFlightAdmission {

  datatype Thread = Observed(value: int) | Holding | Overloaded | Finished

  datatype State = State(count: int, past: set<int>, threads: map<nat, Thread>)

  datatype Action =
    | Load(t: nat, value: int)
    | Exchange(t: nat)
    | FailExchange(t: nat, value: int)
    | Reject(t: nat)
    | Release(t: nat)

  ghost predicate Init(s: State) { s == State(0, {0}, map[]) }

  predicate At(s: State, t: nat, p: Thread) { t in s.threads && s.threads[t] == p }

  predicate Observes(s: State, t: nat) { t in s.threads && s.threads[t].Observed? }

  function Counted(s: State, count: int, t: nat, p: Thread): State {
    State(count, s.past + {count}, s.threads[t := p])
  }

  /** One atomic step of one thread. */
  ghost predicate Next(max: nat, s: State, a: Action, s': State) {
    match a
    case Load(t, v) =>
      t !in s.threads && v in s.past && s' == s.(threads := s.threads[t := Observed(v)])
    case Exchange(t) =>
      && Observes(s, t) && s.threads[t].value < max && s.threads[t].value == s.count
      && s' == Counted(s, s.count + 1, t, Holding)
    case FailExchange(t, v) =>
      && Observes(s, t) && s.threads[t].value < max && v in s.past
      && s' == s.(threads := s.threads[t := Observed(v)])
    case Reject(t) =>
      && Observes(s, t) && s.threads[t].value >= max
      && s' == s.(threads := s.threads[t := Overloaded])
    case Release(t) =>
      At(s, t, Holding) && s' == Counted(s, s.count - 1, t, Finished)
  }

  ghost predicate IsRun(max: nat, states: seq<State>, actions: seq<Action>) {
    && |states| == |actions| + 1 && Init(states[0])
    && forall i | 0 <= i < |actions| :: Next(max, states[i], actions[i], states[i + 1])
  }

  function Holders(threads: map<nat, Thread>): set<nat> {
    set t | t in threads && threads[t] == Holding
  }

  ghost predicate Inv(max: nat, s: State) {
    && s.count == |Holders(s.threads)| <= max
    && (forall v | v in s.past :: 0 <= v <= max) && s.count in s.past
    && (forall t | t in s.threads ::
          && (s.threads[t].Observed? ==> s.threads[t].value in s.past)
          && (s.threads[t].Overloaded? ==> max in s.past))
  }

  lemma HoldersAfter(threads: map<nat, Thread>, t: nat, p: Thread)
    ensures |Holders(threads[t := p])| ==
              |Holders(threads)| + (if p == Holding then 1 else 0)
              - (if t in threads && threads[t] == Holding then 1 else 0)
  {
    var was, now := Holders(threads), Holders(threads[t := p]);
    assert now - {t} == was - {t};
    assert |now| == |now - {t}| + if t in now then 1 else 0;
    assert |was| == |was - {t}| + if t in was then 1 else 0;
  }

  lemma NextKeepsInv(max: nat, s: State, a: Action, s': State)
    requires Inv(max, s) && Next(max, s, a, s')
    ensures Inv(max, s')
  {
    hide Holders;
    HoldersAfter(s.threads, a.t, s'.threads[a.t]);
  }

  /** At every step of every run, with any number of threads and any spurious
      failures, the counter is the number of holders, never above the limit and
      never below zero; and a request is turned away only if the counter has been
      at the limit. */
  lemma {:induction false} CounterIsHolders(
      max: nat, states: seq<State>, actions: seq<Action>, i: nat)
    requires IsRun(max, states, actions) && i < |states|
    ensures states[i].count == |Holders(states[i].threads)| <= max
    ensures (exists t :: At(states[i], t, Overloaded)) ==> max in states[i].past
    ensures Inv(max, states[i])
  {
    hide Holders;
    if i > 0 {
      hide Inv;
      CounterIsHolders(max, states, actions, i - 1);
      NextKeepsInv(max, states[i - 1], actions[i - 1], states[i]);
      InvFacts(max, states[i]);
    } else {
      assert Holders(map[]) == {} by { NoHolders(); }
    }
  }

  lemma NoHolders()
    ensures Holders(map[]) == {}
  {}

  lemma InvFacts(max: nat, s: State)
    requires Inv(max, s)
    ensures s.count == |Holders(s.threads)| <= max
    ensures (exists t :: At(s, t, Overloaded)) ==> max in s.past
  {}

  /** What `past` holds: the counter values of the run so far, and no others. */
  lemma {:induction false} PastIsHistory(
      max: nat, states: seq<State>, actions: seq<Action>, i: nat, v: int)
    requires IsRun(max, states, actions) && i < |states|
    ensures v in states[i].past <==> exists j | 0 <= j <= i :: states[j].count == v
  {
    if i > 0 {
      PastIsHistory(max, states, actions, i - 1, v);
      assert Next(max, states[i - 1], actions[i - 1], states[i]);
      assert v in states[i].past <==> v in states[i - 1].past || states[i].count == v by {
        PastIsHistory(max, states, actions, i - 1, states[i - 1].count);
        assert states[i - 1].count in states[i - 1].past;
      }
    }
  }
}

/** The rate limiter's key counter: threads in different shards erase, reserve and
    store keys at once, one atomic access or one change of a locked shard per step. */
module KeyAdmission {

  type Key = string

  /** Every point but `Outside` holds the lock of its shard. */
  datatype Thread =
    | Outside
    | Pruning(shard: nat, key: Key)
    | Erased(shard: nat, key: Key)
    | Observed(shard: nat, key: Key, value: int)
    | Reserved(shard: nat, key: Key)
  {
    /** A key counted but not stored. */
    predicate Pending() { Erased? || Reserved? }

    /** Between the failed lookup and the store. */
    predicate Absent() { Observed? || Reserved? }
  }

  datatype State = State(
    count: int, past: set<int>, shards: seq<set<Key>>, threads: map<nat, Thread>, exhausted: bool)

  datatype Action =
    | Lock(t: nat, shard: nat, key: Key)
    | Erase(t: nat, key: Key)
    | Decrement(t: nat)
    | UseStored(t: nat)
    | Load(t: nat, value: int)
    | Exchange(t: nat)
    | FailExchange(t: nat, value: int)
    | Reject(t: nat)
    | Emplace(t: nat)
    | Throw(t: nat)

  ghost predicate Init(shardCount: nat, s: State) {
    s == State(0, {0}, seq(shardCount, _ => {}), map[], false)
  }

  predicate Holds(p: Thread, shard: nat) { !p.Outside? && p.shard == shard }

  ghost predicate Unlocked(s: State, shard: nat) {
    forall t | t in s.threads :: !Holds(s.threads[t], shard)
  }

  function Moved(s: State, t: nat, p: Thread): State { s.(threads := s.threads[t := p]) }

  function Counted(s: State, count: int, t: nat, p: Thread): State {
    s.(count := count, past := s.past + {count}, threads := s.threads[t := p])
  }

  predicate Inside(s: State, t: nat) {
    t in s.threads && !s.threads[t].Outside? && s.threads[t].shard < |s.shards|
  }

  ghost predicate Next(max: nat, s: State, a: Action, s': State) {
    if a.Lock? then
      && a.shard < |s.shards| && (a.t in s.threads ==> s.threads[a.t].Outside?)
      && Unlocked(s, a.shard) && s' == Moved(s, a.t, Pruning(a.shard, a.key))
    else
      Inside(s, a.t) && Inner(max, s, a, s.threads[a.t], s')
  }

  /** A step of a thread that holds a lock and stands at `p`. */
  ghost predicate Inner(max: nat, s: State, a: Action, p: Thread, s': State)
    requires !a.Lock? && Inside(s, a.t) && p == s.threads[a.t]
  {
    var t, i := a.t, p.shard;
    match a
    case Erase(_, key) =>
      && p.Pruning? && key in s.shards[i]
      && s' == Moved(s, t, Erased(i, p.key)).(shards := s.shards[i := s.shards[i] - {key}])
    case Decrement(_) => p.Erased? && s' == Counted(s, s.count - 1, t, Pruning(i, p.key))
    case UseStored(_) => p.Pruning? && p.key in s.shards[i] && s' == Moved(s, t, Outside)
    case Load(_, v) =>
      && p.Pruning? && p.key !in s.shards[i] && v in s.past
      && s' == Moved(s, t, Observed(i, p.key, v))
    case Exchange(_) =>
      && p.Observed? && p.value < max && p.value == s.count
      && s' == Counted(s, s.count + 1, t, Reserved(i, p.key))
    case FailExchange(_, v) =>
      && p.Observed? && p.value < max && v in s.past && s' == Moved(s, t, Observed(i, p.key, v))
    case Reject(_) =>
      p.Observed? && p.value >= max && s' == Moved(s, t, Outside).(exhausted := true)
    case Emplace(_) =>
      && p.Reserved?
      && s' == Moved(s, t, Outside).(shards := s.shards[i := s.shards[i] + {p.key}])
    case Throw(_) => p.Reserved? && s' == Counted(s, s.count - 1, t, Outside)
  }

  ghost predicate IsRun(max: nat, shardCount: nat, states: seq<State>, actions: seq<Action>) {
    && |states| == |actions| + 1 && Init(shardCount, states[0])
    && forall i | 0 <= i < |actions| :: Next(max, states[i], actions[i], states[i + 1])
  }

  // ------------------------------------------------------------------- counting

  function Stored(shards: seq<set<Key>>): nat {
    if shards == [] then 0 else |shards[0]| + Stored(shards[1..])
  }

  lemma {:induction false} StoredUpdate(shards: seq<set<Key>>, i: nat, keys: set<Key>)
    requires i < |shards|
    ensures Stored(shards[i := keys]) + |shards[i]| == Stored(shards) + |keys|
  {
    if i == 0 {
      assert shards[0 := keys][1..] == shards[1..];
    } else {
      assert shards[i := keys][1..] == shards[1..][i - 1 := keys];
      StoredUpdate(shards[1..], i - 1, keys);
    }
  }

  function Pending(threads: map<nat, Thread>): set<nat> {
    set t | t in threads && threads[t].Pending()
  }

  lemma PendingAfter(threads: map<nat, Thread>, t: nat, p: Thread)
    ensures |Pending(threads[t := p])| ==
              |Pending(threads)| + (if p.Pending() then 1 else 0)
              - (if t in threads && threads[t].Pending() then 1 else 0)
  {
    var was, now := Pending(threads), Pending(threads[t := p]);
    assert now - {t} == was - {t};
    assert |now| == |now - {t}| + if t in now then 1 else 0;
    assert |was| == |was - {t}| + if t in was then 1 else 0;
  }

  // ------------------------------------------------------------------ invariant

  /** The counter is the stored keys, plus those erased but not yet subtracted, plus
      those reserved but not yet stored. */
  ghost predicate Accounts(max: nat, s: State) {
    && s.count == Stored(s.shards) + |Pending(s.threads)| <= max
    && (forall v | v in s.past :: v <= max) && s.count in s.past
    && (s.exhausted ==> max in s.past)
  }

  ghost predicate ThreadOk(s: State, t: nat)
    requires t in s.threads
  {
    var p := s.threads[t];
    && (!p.Outside? ==> p.shard < |s.shards|)
    && (p.Absent() && p.shard < |s.shards| ==> p.key !in s.shards[p.shard])
    && (p.Observed? ==> p.value in s.past)
  }

  /** One holder per lock. */
  ghost predicate Exclusive(threads: map<nat, Thread>) {
    forall t, u | t in threads && u in threads && t != u ::
      threads[t].Outside? || !Holds(threads[u], threads[t].shard)
  }

  ghost predicate Inv(max: nat, s: State) {
    Accounts(max, s) && Exclusive(s.threads) && forall t | t in s.threads :: ThreadOk(s, t)
  }

  lemma LocksKept(s: State, t: nat, p: Thread)
    requires Exclusive(s.threads)
    requires p.Outside? || (t in s.threads && Holds(s.threads[t], p.shard)) || Unlocked(s, p.shard)
    ensures Exclusive(s.threads[t := p])
  {}

  /** Other threads are undisturbed by a change of thread `t` in its own shard. */
  lemma OthersOk(s: State, t: nat, s': State, shard: nat, u: nat)
    requires u in s.threads && u != t && ThreadOk(s, u) && !Holds(s.threads[u], shard)
    requires |s'.shards| == |s.shards| && s.past <= s'.past
    requires u in s'.threads && s'.threads[u] == s.threads[u]
    requires forall j | 0 <= j < |s.shards| && j != shard :: s'.shards[j] == s.shards[j]
    ensures ThreadOk(s', u)
  {}

  lemma LockKeepsInv(max: nat, s: State, a: Action, s': State)
    requires Inv(max, s) && a.Lock? && Next(max, s, a, s')
    ensures Inv(max, s')
  {
    PendingAfter(s.threads, a.t, Pruning(a.shard, a.key));
    LocksKept(s, a.t, Pruning(a.shard, a.key));
    forall u | u in s'.threads ensures ThreadOk(s', u) {
      if u != a.t { OthersOk(s, a.t, s', a.shard, u); }
    }
  }

  lemma InnerAccounts(max: nat, s: State, a: Action, p: Thread, s': State)
    requires Inv(max, s) && !a.Lock? && Inside(s, a.t) && p == s.threads[a.t]
    requires Inner(max, s, a, p, s')
    ensures Accounts(max, s')
  {
    hide Stored; hide Exclusive; hide Pending;
    PendingAfter(s.threads, a.t, s'.threads[a.t]);
    assert ThreadOk(s, a.t);
    match a
    case Erase(_, key) => StoredUpdate(s.shards, p.shard, s.shards[p.shard] - {key});
    case Emplace(_) => StoredUpdate(s.shards, p.shard, s.shards[p.shard] + {p.key});
    case _ =>
  }

  lemma InnerKeepsInv(max: nat, s: State, a: Action, p: Thread, s': State)
    requires Inv(max, s) && !a.Lock? && Inside(s, a.t) && p == s.threads[a.t]
    requires Inner(max, s, a, p, s')
    ensures Inv(max, s')
  {
    InnerAccounts(max, s, a, p, s');
    hide Accounts; hide Stored; hide Pending;
    LocksKept(s, a.t, s'.threads[a.t]);
    assert ThreadOk(s, a.t);
    forall u | u in s'.threads ensures ThreadOk(s', u) {
      if u != a.t {
        assert ThreadOk(s, u);
        OthersOk(s, a.t, s', p.shard, u);
      }
    }
  }

  /** At every step of every run, including between an erase and its subtraction, the
      stored keys are at most the counter and the counter is at most the limit; no
      subtraction goes below zero; and exhaustion is reported only if the counter has
      been at the limit. */
  lemma {:induction false} KeysWithinLimit(
      max: nat, shardCount: nat, states: seq<State>, actions: seq<Action>, i: nat)
    requires IsRun(max, shardCount, states, actions) && i < |states|
    ensures 0 <= Stored(states[i].shards) <= states[i].count <= max
    ensures states[i].exhausted ==> max in states[i].past
    ensures Inv(max, states[i])
  {
    if i > 0 {
      hide Inner; hide ThreadOk; hide Exclusive;
      KeysWithinLimit(max, shardCount, states, actions, i - 1);
      var s, a := states[i - 1], actions[i - 1];
      assert Next(max, s, a, states[i]);
      if a.Lock? {
        LockKeepsInv(max, s, a, states[i]);
      } else {
        InnerKeepsInv(max, s, a, s.threads[a.t], states[i]);
      }
    } else {
      NothingStored(states[0].shards);
    }
  }

  lemma {:induction false} NothingStored(shards: seq<set<Key>>)
    requires forall i | 0 <= i < |shards| :: shards[i] == {}
    ensures Stored(shards) == 0
  {
    if shards != [] { NothingStored(shards[1..]); }
  }

  /** With every thread outside, the counter is exactly the number of stored keys. */
  lemma QuietCounterIsExact(
      max: nat, shardCount: nat, states: seq<State>, actions: seq<Action>, i: nat)
    requires IsRun(max, shardCount, states, actions) && i < |states|
    requires forall t | t in states[i].threads :: states[i].threads[t].Outside?
    ensures states[i].count == Stored(states[i].shards)
  {
    KeysWithinLimit(max, shardCount, states, actions, i);
    assert Pending(states[i].threads) == {};
  }
}
