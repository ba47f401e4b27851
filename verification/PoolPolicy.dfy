/** The policy half of the upstream pool: idle connections, the busy count and
    connection ids. A lease is the connection it carries. The busy count is an
    integer here, so that it never goes below zero is a theorem. */
module PoolPolicy {

  import opened Bytes

  datatype Limits = Limits(
    maxConnections: nat, maxIdle: nat, maxReuses: nat, maxWaiters: nat,
    idleTimeout: int, maxLifetime: int)
  {
    /** What the constructor insists on. */
    predicate Valid() {
      && 0 < maxIdle <= maxConnections && 0 < maxReuses && 0 < idleTimeout && 0 < maxLifetime
    }
  }

  datatype Connection = Connection(
    id: nat, reuseCount: nat, createdAt: int, lastUsedAt: int, open: bool)

  datatype Policy = Policy(idle: seq<Connection>, busy: int, nextId: nat)

  const EMPTY := Policy([], 0, 1)

  predicate Reusable(limits: Limits, c: Connection, now: int) {
    && c.open && c.reuseCount < limits.maxReuses
    && now - c.createdAt < limits.maxLifetime && now - c.lastUsedAt < limits.idleTimeout
  }

  /** How many idle connections are left below the newest reusable one; all of them
      go when none is reusable. */
  function Below(limits: Limits, idle: seq<Connection>, now: int): (k: int)
    ensures -1 <= k < |idle|
    ensures k >= 0 ==> Reusable(limits, idle[k], now)
    ensures forall j | k < j < |idle| :: !Reusable(limits, idle[j], now)
  {
    if idle == [] then -1
    else if Reusable(limits, idle[|idle| - 1], now) then |idle| - 1
    else Below(limits, idle[..|idle| - 1], now)
  }

  function Acquire(limits: Limits, p: Policy, now: int): (Policy, Option<Connection>) {
    var k := Below(limits, p.idle, now);
    if k >= 0 then
      (Policy(p.idle[..k], p.busy + 1, p.nextId), Some(p.idle[k].(lastUsedAt := now)))
    else if p.busy >= limits.maxConnections then (p.(idle := []), None)
    else
      (Policy([], p.busy + 1, p.nextId + 1), Some(Connection(p.nextId, 0, now, now, true)))
  }

  function Release(limits: Limits, p: Policy, lease: Option<Connection>, now: int): Policy {
    if lease.None? then p else
    var c := lease.value.(reuseCount := lease.value.reuseCount + 1, lastUsedAt := now);
    var idle := if Reusable(limits, c, now) && |p.idle| < limits.maxIdle then p.idle + [c] else p.idle;
    Policy(idle, p.busy - 1, p.nextId)
  }

  function Discard(p: Policy, lease: Option<Connection>): Policy {
    if lease.None? then p else p.(busy := p.busy - 1)
  }

  function Pruned(limits: Limits, idle: seq<Connection>, now: int): seq<Connection> {
    if idle == [] then []
    else
      var n := |idle| - 1;
      Pruned(limits, idle[..n], now) + if Reusable(limits, idle[n], now) then [idle[n]] else []
  }

  // ----------------------------------------------------------------- the ledger

  /** How often each id occurs. */
  function Ids(cs: seq<Connection>): (ids: multiset<nat>)
    ensures |ids| == |cs|
    ensures forall c | c in cs :: c.id in ids
  {
    if cs == [] then multiset{} else multiset{cs[0].id} + Ids(cs[1..])
  }

  lemma {:induction false} IdsAppend(xs: seq<Connection>, ys: seq<Connection>)
    ensures Ids(xs + ys) == Ids(xs) + Ids(ys)
  {
    if xs == [] {
      assert xs + ys == ys;
    } else {
      assert (xs + ys)[1..] == xs[1..] + ys;
      IdsAppend(xs[1..], ys);
    }
  }

  lemma IdsOne(c: Connection)
    ensures Ids([c]) == multiset{c.id}
  {
    assert [c][1..] == [];
  }

  /** A connection somewhere outside the idle list: in a lease or in a message. */
  ghost predicate HeldOk(limits: Limits, nextId: nat, handouts: multiset<nat>, c: Connection) {
    && 1 <= c.id < nextId && c.reuseCount < limits.maxReuses
    && handouts[c.id] == c.reuseCount + 1
  }

  ghost predicate IdleOk(limits: Limits, nextId: nat, handouts: multiset<nat>, c: Connection) {
    && 1 <= c.id < nextId && c.reuseCount < limits.maxReuses
    && handouts[c.id] == c.reuseCount
  }

  ghost predicate AtMostOnce(ids: multiset<nat>) { forall id: nat :: ids[id] <= 1 }

  lemma OnceFewer(a: multiset<nat>, b: multiset<nat>)
    requires AtMostOnce(b) && a <= b
    ensures AtMostOnce(a)
  {}

  lemma OnceMore(a: multiset<nat>, id: nat)
    requires AtMostOnce(a) && id !in a
    ensures AtMostOnce(a + multiset{id})
  {}

  ghost predicate CountsOk(limits: Limits, nextId: nat, handouts: multiset<nat>) {
    forall id: nat :: handouts[id] <= if id < nextId then limits.maxReuses else 0
  }

  lemma CountsAfter(limits: Limits, nextId: nat, nextId': nat, handouts: multiset<nat>, id: nat)
    requires CountsOk(limits, nextId, handouts) && nextId <= nextId'
    requires id < nextId' && handouts[id] < limits.maxReuses
    ensures CountsOk(limits, nextId', handouts + multiset{id})
  {}

  lemma NoIds()
    ensures Ids([]) == multiset{}
  {}

  ghost predicate AllHeld(
    limits: Limits, nextId: nat, handouts: multiset<nat>, held: seq<Connection>)
  {
    forall c | c in held :: HeldOk(limits, nextId, handouts, c)
  }

  ghost predicate AllIdle(
    limits: Limits, nextId: nat, handouts: multiset<nat>, idle: seq<Connection>)
  {
    forall c | c in idle :: IdleOk(limits, nextId, handouts, c)
  }

  /** Every connection is in one place, the busy count is the number held, and the
      limits are kept. `handouts` counts how often each id was handed out. */
  ghost predicate Ledger(
    limits: Limits, p: Policy, held: seq<Connection>, handouts: multiset<nat>)
  {
    && AtMostOnce(Ids(p.idle) + Ids(held))
    && p.busy == |held| && |p.idle| <= limits.maxIdle && p.busy + |p.idle| <= limits.maxConnections
    && AllHeld(limits, p.nextId, handouts, held) && AllIdle(limits, p.nextId, handouts, p.idle)
    && CountsOk(limits, p.nextId, handouts) && p.nextId >= 1
  }

  /** Handing out another id does not touch the accounts of these connections. */
  lemma OtherHandout(limits: Limits, nextId: nat, nextId': nat, handouts: multiset<nat>, id: nat,
                     held: seq<Connection>, idle: seq<Connection>)
    requires AllHeld(limits, nextId, handouts, held) && AllIdle(limits, nextId, handouts, idle)
    requires nextId <= nextId' && id !in Ids(held) && id !in Ids(idle)
    ensures AllHeld(limits, nextId', handouts + multiset{id}, held)
    ensures AllIdle(limits, nextId', handouts + multiset{id}, idle)
  {
    forall c | c in held ensures HeldOk(limits, nextId', handouts + multiset{id}, c) {
      assert c.id in Ids(held) && HeldOk(limits, nextId, handouts, c);
    }
    forall c | c in idle ensures IdleOk(limits, nextId', handouts + multiset{id}, c) {
      assert c.id in Ids(idle) && IdleOk(limits, nextId, handouts, c);
    }
  }

  lemma OneMoreHeld(limits: Limits, nextId: nat, handouts: multiset<nat>,
                    held: seq<Connection>, c: Connection)
    requires AllHeld(limits, nextId, handouts, held) && HeldOk(limits, nextId, handouts, c)
    ensures AllHeld(limits, nextId, handouts, held + [c])
  {}

  lemma OneMoreIdle(limits: Limits, nextId: nat, handouts: multiset<nat>,
                    idle: seq<Connection>, c: Connection)
    requires AllIdle(limits, nextId, handouts, idle) && IdleOk(limits, nextId, handouts, c)
    ensures AllIdle(limits, nextId, handouts, idle + [c])
  {}

  /** `id` was given out once and is nowhere any more. */
  ghost predicate Gone(p: Policy, held: seq<Connection>, id: nat) {
    id < p.nextId && id !in Ids(p.idle) && id !in Ids(held)
  }

  lemma EmptyLedger(limits: Limits)
    requires limits.Valid()
    ensures Ledger(limits, EMPTY, [], multiset{})
  {}

  lemma {:induction false} IdsOfPrefix(cs: seq<Connection>, k: nat)
    requires k <= |cs|
    ensures Ids(cs[..k]) <= Ids(cs)
    ensures k < |cs| ==> Ids(cs[..k]) + multiset{cs[k].id} <= Ids(cs)
  {
    var front, back := cs[..k], cs[k..];
    assert front + back == cs;
    if k < |cs| {
      assert back == [cs[k]] + cs[k + 1..];
      IdsOne(cs[k]);
      IdsAppend([cs[k]], cs[k + 1..]);
    }
    hide Ids;
    IdsAppend(front, back);
  }

  lemma ShrinkIdle(limits: Limits, p: Policy, held: seq<Connection>, handouts: multiset<nat>,
                   idle: seq<Connection>)
    requires Ledger(limits, p, held, handouts)
    requires Ids(idle) <= Ids(p.idle) && forall c | c in idle :: c in p.idle
    ensures Ledger(limits, p.(idle := idle), held, handouts)
    ensures forall id | Gone(p, held, id) :: Gone(p.(idle := idle), held, id)
  {
    hide HeldOk; hide IdleOk; hide CountsOk; hide AtMostOnce; hide AllHeld;
    SmallerBag(Ids(idle), Ids(p.idle));
    OnceFewer(Ids(idle) + Ids(held), Ids(p.idle) + Ids(held));
  }

  lemma SmallerBag(a: multiset<nat>, b: multiset<nat>)
    requires a <= b
    ensures |a| <= |b|
  {
    assert b == a + (b - a);
  }

  /** Handing out a connection that was idle. */
  lemma HandOutIdle(limits: Limits, p: Policy, held: seq<Connection>, handouts: multiset<nat>,
                    k: nat, now: int)
    requires Ledger(limits, p, held, handouts) && k < |p.idle|
    ensures var c := p.idle[k].(lastUsedAt := now);
            var q := Policy(p.idle[..k], p.busy + 1, p.nextId);
            && Ledger(limits, q, held + [c], handouts + multiset{c.id})
            && (forall id | Gone(p, held, id) :: Gone(q, held + [c], id) && id != c.id)
  {
    hide Ids;
    var c, idle := p.idle[k].(lastUsedAt := now), p.idle[..k];
    var n, out := p.nextId, handouts + multiset{c.id};
    IdsOfPrefix(p.idle, k);
    IdsAppend(held, [c]);
    IdsOne(c);
    UniqueId(p.idle, held, k);
    assert IdleOk(limits, n, handouts, p.idle[k]);
    assert HeldOk(limits, n, out, c);
    assert AllIdle(limits, n, handouts, idle);
    CountsAfter(limits, n, n, handouts, c.id);
    hide IdleOk; hide HeldOk; hide CountsOk; hide AllIdle; hide AllHeld;
    OtherHandout(limits, n, n, handouts, c.id, held, idle);
    OneMoreHeld(limits, n, out, held, c);
    hide AtMostOnce;
    assert Ids(idle) + Ids(held + [c]) == Ids(idle) + multiset{c.id} + Ids(held);
    OnceFewer(Ids(idle) + Ids(held + [c]), Ids(p.idle) + Ids(held));
  }

  lemma UniqueId(idle: seq<Connection>, held: seq<Connection>, k: nat)
    requires AtMostOnce(Ids(idle) + Ids(held)) && k < |idle|
    ensures idle[k].id !in Ids(idle[..k]) && idle[k].id !in Ids(held)
  {
    IdsOfPrefix(idle, k);
    var id := idle[k].id;
    assert (Ids(idle) + Ids(held))[id] == Ids(idle)[id] + Ids(held)[id] <= 1;
    assert Ids(idle)[id] >= (Ids(idle[..k]) + multiset{id})[id];
  }

  /** Handing out a new connection. */
  lemma HandOutNew(limits: Limits, p: Policy, held: seq<Connection>, handouts: multiset<nat>,
                   now: int)
    requires limits.Valid() && Ledger(limits, p, held, handouts) && p.busy < limits.maxConnections
    ensures var c := Connection(p.nextId, 0, now, now, true);
            var q := Policy([], p.busy + 1, p.nextId + 1);
            && Ledger(limits, q, held + [c], handouts + multiset{c.id})
            && (forall id | Gone(p, held, id) :: Gone(q, held + [c], id) && id != c.id)
  {
    hide Ids;
    var c, n := Connection(p.nextId, 0, now, now, true), p.nextId;
    var out := handouts + multiset{n};
    IdsAppend(held, [c]);
    IdsOne(c);
    OldIds(limits, p, held, handouts);
    assert handouts[n] == 0;
    assert HeldOk(limits, n + 1, out, c);
    CountsAfter(limits, n, n + 1, handouts, n);
    hide IdleOk; hide HeldOk; hide CountsOk;
    assert AllIdle(limits, n, handouts, []);
    hide AllIdle; hide AllHeld;
    OtherHandout(limits, n, n + 1, handouts, n, held, []);
    OneMoreHeld(limits, n + 1, out, held, c);
    hide AtMostOnce;
    OnceFewer(Ids(held), Ids(p.idle) + Ids(held));
    OnceMore(Ids(held), n);
    NoIds();
    assert Ids([]) + Ids(held + [c]) == Ids(held) + multiset{n};
  }

  lemma {:induction false} IdInIds(cs: seq<Connection>, id: nat) returns (c: Connection)
    requires id in Ids(cs)
    ensures c in cs && c.id == id
  {
    if cs[0].id == id { c := cs[0]; } else { c := IdInIds(cs[1..], id); }
  }

  lemma OldIds(limits: Limits, p: Policy, held: seq<Connection>, handouts: multiset<nat>)
    requires Ledger(limits, p, held, handouts)
    ensures forall id | id in Ids(held) :: id < p.nextId
    ensures forall id | id in Ids(p.idle) :: id < p.nextId
  {
    forall id | id in Ids(held) ensures id < p.nextId {
      var c := IdInIds(held, id);
      assert HeldOk(limits, p.nextId, handouts, c);
    }
    forall id | id in Ids(p.idle) ensures id < p.nextId {
      var c := IdInIds(p.idle, id);
      assert IdleOk(limits, p.nextId, handouts, c);
    }
  }

  /** `acquire` keeps the ledger; a connection it returns is one more handout. */
  lemma AcquireKeepsLedger(limits: Limits, p: Policy, held: seq<Connection>,
                           handouts: multiset<nat>, now: int)
    requires limits.Valid() && Ledger(limits, p, held, handouts)
    ensures var (q, lease) := Acquire(limits, p, now);
            && (lease.None? ==> Ledger(limits, q, held, handouts) && p.busy == limits.maxConnections)
            && (lease.Some? ==>
                  Ledger(limits, q, held + [lease.value], handouts + multiset{lease.value.id}))
            && (forall id | Gone(p, held, id) ::
                  if lease.None? then Gone(q, held, id)
                  else Gone(q, held + [lease.value], id) && id != lease.value.id)
  {
    hide Ledger;
    var k := Below(limits, p.idle, now);
    if k >= 0 {
      HandOutIdle(limits, p, held, handouts, k, now);
    } else if p.busy >= limits.maxConnections {
      LedgerBusy(limits, p, held, handouts);
      ShrinkIdle(limits, p, held, handouts, []);
    } else {
      HandOutNew(limits, p, held, handouts, now);
    }
  }

  lemma LedgerBusy(limits: Limits, p: Policy, held: seq<Connection>, handouts: multiset<nat>)
    requires Ledger(limits, p, held, handouts)
    ensures 0 <= p.busy == |held| && p.busy + |p.idle| <= limits.maxConnections
    ensures |p.idle| <= limits.maxIdle
  {}

  lemma IdsAround(a: seq<Connection>, c: Connection, b: seq<Connection>)
    ensures Ids(a + [c] + b) == Ids(a + b) + multiset{c.id}
    ensures Ids(a + b + [c]) == Ids(a + b) + multiset{c.id}
  {
    hide Ids;
    IdsAppend(a + [c], b);
    IdsAppend(a, [c]);
    IdsAppend(a, b);
    IdsAppend(a + b, [c]);
    IdsOne(c);
  }

  lemma HeldAround(limits: Limits, nextId: nat, handouts: multiset<nat>,
                   a: seq<Connection>, c: Connection, b: seq<Connection>)
    requires AllHeld(limits, nextId, handouts, a + [c] + b)
    ensures AllHeld(limits, nextId, handouts, a + b) && HeldOk(limits, nextId, handouts, c)
    ensures AllHeld(limits, nextId, handouts, a + b + [c])
  {
    hide HeldOk;
    var held := a + [c] + b;
    assert c in held && (forall d | d in a + b :: d in held);
  }

  /** Taking one held connection out and lowering the busy count. */
  lemma DropHeld(limits: Limits, p: Policy, a: seq<Connection>, c: Connection, b: seq<Connection>,
                 handouts: multiset<nat>)
    requires Ledger(limits, p, a + [c] + b, handouts)
    ensures Ledger(limits, p.(busy := p.busy - 1), a + b, handouts)
    ensures HeldOk(limits, p.nextId, handouts, c)
    ensures c.id !in Ids(p.idle) && c.id !in Ids(a + b)
    ensures Ids(a + [c] + b) == Ids(a + b) + multiset{c.id}
  {
    hide HeldOk; hide AllHeld; hide AllIdle; hide CountsOk;
    IdsAround(a, c, b);
    HeldAround(limits, p.nextId, handouts, a, c, b);
    var all := Ids(p.idle) + Ids(a + [c] + b);
    assert all[c.id] == Ids(p.idle)[c.id] + Ids(a + b)[c.id] + 1;
    hide AtMostOnce;
    OnceFewer(Ids(p.idle) + Ids(a + b), all);
  }

  /** A held connection may change its place among the held ones. */
  lemma MoveHeld(limits: Limits, p: Policy, a: seq<Connection>, c: Connection, b: seq<Connection>,
                 handouts: multiset<nat>)
    requires Ledger(limits, p, a + [c] + b, handouts)
    ensures Ledger(limits, p, a + b + [c], handouts)
    ensures Ids(a + b + [c]) == Ids(a + [c] + b)
  {
    hide HeldOk; hide AllHeld; hide AllIdle; hide CountsOk; hide AtMostOnce;
    IdsAround(a, c, b);
    HeldAround(limits, p.nextId, handouts, a, c, b);
  }

  /** `releaseReusable` keeps the ledger without the released connection. */
  lemma ReleaseKeepsLedger(limits: Limits, p: Policy, a: seq<Connection>, c: Connection,
                           b: seq<Connection>, handouts: multiset<nat>, now: int)
    requires limits.Valid() && Ledger(limits, p, a + [c] + b, handouts)
    ensures var q := Release(limits, p, Some(c), now);
            && Ledger(limits, q, a + b, handouts) && q.busy < limits.maxConnections
            && (forall id | Gone(p, a + [c] + b, id) :: Gone(q, a + b, id))
  {
    hide HeldOk; hide AllHeld; hide AllIdle; hide CountsOk; hide IdleOk; hide AtMostOnce; hide Ids;
    DropHeld(limits, p, a, c, b, handouts);
    var d := c.(reuseCount := c.reuseCount + 1, lastUsedAt := now);
    if Reusable(limits, d, now) && |p.idle| < limits.maxIdle {
      HeldToIdle(limits, p.nextId, handouts, c, now);
      OneMoreIdle(limits, p.nextId, handouts, p.idle, d);
      IdsAppend(p.idle, [d]);
      IdsOne(d);
      OnceMore(Ids(p.idle) + Ids(a + b), d.id);
      assert Ids(p.idle + [d]) + Ids(a + b) == Ids(p.idle) + Ids(a + b) + multiset{d.id};
    }
  }

  lemma HeldToIdle(limits: Limits, nextId: nat, handouts: multiset<nat>, c: Connection, now: int)
    requires HeldOk(limits, nextId, handouts, c) && c.reuseCount + 1 < limits.maxReuses
    ensures IdleOk(limits, nextId, handouts, c.(reuseCount := c.reuseCount + 1, lastUsedAt := now))
  {}

  lemma DiscardKeepsLedger(limits: Limits, p: Policy, a: seq<Connection>, c: Connection,
                           b: seq<Connection>, handouts: multiset<nat>)
    requires Ledger(limits, p, a + [c] + b, handouts)
    ensures Ledger(limits, Discard(p, Some(c)), a + b, handouts)
    ensures Gone(Discard(p, Some(c)), a + b, c.id)
    ensures forall id | Gone(p, a + [c] + b, id) :: Gone(Discard(p, Some(c)), a + b, id)
  {
    DropHeld(limits, p, a, c, b, handouts);
  }

  // ---------------------------------------------------------- which are handed out

  /** A connection that must not be used again: closed, used up, too old, or idle for
      too long. */
  predicate Stale(limits: Limits, c: Connection, now: int) {
    || !c.open
    || c.reuseCount >= limits.maxReuses
    || now - c.createdAt >= limits.maxLifetime
    || now - c.lastUsedAt >= limits.idleTimeout
  }

  lemma StaleExactly(limits: Limits, c: Connection, now: int)
    ensures Stale(limits, c, now) <==> !Reusable(limits, c, now)
  {}

  /** Pruning takes away exactly the stale connections. */
  lemma {:induction false} PrunedKeepsReusable(limits: Limits, idle: seq<Connection>, now: int)
    ensures forall c :: c in Pruned(limits, idle, now) <==> c in idle && !Stale(limits, c, now)
  {
    hide Reusable; hide Stale;
    if idle != [] {
      var n := |idle| - 1;
      PrunedKeepsReusable(limits, idle[..n], now);
      StaleExactly(limits, idle[n], now);
      assert idle == idle[..n] + [idle[n]];
    }
  }

  /** And it leaves the others in order. */
  lemma {:induction false} PrunedInOrder(
      limits: Limits, xs: seq<Connection>, ys: seq<Connection>, now: int)
    ensures Pruned(limits, xs + ys, now) == Pruned(limits, xs, now) + Pruned(limits, ys, now)
  {
    hide Reusable;
    if ys == [] {
      assert xs + ys == xs;
    } else {
      var n := |ys| - 1;
      assert (xs + ys)[..|xs + ys| - 1] == xs + ys[..n];
      PrunedInOrder(limits, xs, ys[..n], now);
    }
  }

  lemma {:induction false} PrunedIds(limits: Limits, idle: seq<Connection>, now: int)
    ensures Ids(Pruned(limits, idle, now)) <= Ids(idle)
  {
    hide Reusable; hide Ids;
    if idle == [] {
      NoIds();
    } else {
      var n := |idle| - 1;
      var kept := Pruned(limits, idle[..n], now);
      PrunedIds(limits, idle[..n], now);
      IdsAppend(idle[..n], [idle[n]]);
      IdsAppend(kept, [idle[n]]);
      assert idle == idle[..n] + [idle[n]];
      assert kept + [] == kept;
    }
  }

  /** The most recently returned connection that is not stale. */
  ghost predicate NewestFresh(limits: Limits, idle: seq<Connection>, now: int, k: nat) {
    && k < |idle| && !Stale(limits, idle[k], now)
    && forall j | k < j < |idle| :: Stale(limits, idle[j], now)
  }

  /** `acquire` takes the most recently returned connection that is not stale, and drops
      the stale ones above it; it opens a new one only if all are stale, and fails only
      if then the limit is reached. */
  lemma AcquireExactly(limits: Limits, p: Policy, now: int)
    ensures var (q, lease) := Acquire(limits, p, now);
            && (forall k: nat | NewestFresh(limits, p.idle, now, k) ::
                  && lease == Some(p.idle[k].(lastUsedAt := now))
                  && q == Policy(p.idle[..k], p.busy + 1, p.nextId))
            && ((forall j | 0 <= j < |p.idle| :: Stale(limits, p.idle[j], now)) ==>
                  if p.busy < limits.maxConnections then
                    && lease == Some(Connection(p.nextId, 0, now, now, true))
                    && q == Policy([], p.busy + 1, p.nextId + 1)
                  else lease == None && q == p.(idle := []))
  {
    StaleEverywhere(limits, p.idle, now);
    hide Reusable; hide Stale;
    var b := Below(limits, p.idle, now);
    forall k: nat | NewestFresh(limits, p.idle, now, k) ensures b == k {
      assert !Stale(limits, p.idle[k], now);
      assert b >= 0 ==> !Stale(limits, p.idle[b], now);
    }
  }

  lemma StaleEverywhere(limits: Limits, idle: seq<Connection>, now: int)
    ensures forall j | 0 <= j < |idle| :: Stale(limits, idle[j], now) <==> !Reusable(limits, idle[j], now)
  {}

  /** No connection that is handed out is stale: it is a new one, or one of the idle. */
  lemma NoneStaleIsGranted(limits: Limits, p: Policy, now: int) returns (k: int)
    requires Acquire(limits, p, now).1.Some?
    ensures var lease := Acquire(limits, p, now).1.value;
            || lease == Connection(p.nextId, 0, now, now, true)
            || (0 <= k < |p.idle| && !Stale(limits, p.idle[k], now)
                && lease == p.idle[k].(lastUsedAt := now))
  {
    StaleEverywhere(limits, p.idle, now);
    k := Below(limits, p.idle, now);
  }

  /** A returned connection is kept exactly when it is open, below its reuse and age
      limits and there is room, and then it is the newest, used once more and just now. */
  lemma ReleaseExactly(limits: Limits, p: Policy, c: Connection, now: int)
    requires limits.Valid()
    ensures var kept := c.open && c.reuseCount + 1 < limits.maxReuses
                        && now - c.createdAt < limits.maxLifetime && |p.idle| < limits.maxIdle;
            Release(limits, p, Some(c), now) ==
              Policy(if kept then p.idle + [Connection(c.id, c.reuseCount + 1, c.createdAt, now, c.open)]
                     else p.idle,
                     p.busy - 1, p.nextId)
  {}

  /** After a release there is always something to acquire. */
  lemma AcquireSucceeds(limits: Limits, p: Policy, now: int)
    requires p.busy < limits.maxConnections
    ensures Acquire(limits, p, now).1.Some?
  {}
}
