/** The per-client rate limiter: a sharded table of token buckets with eviction of
    idle clients and a bound on the number of keys. */
module RateLimiting {
  import opened TokenBuckets

  datatype Config = Config(
    rate: real, burst: real, shardCount: nat, maxKeys: nat, idleTtl: real)
  {
    predicate Valid() {
      rate > 0.0 && burst > 0.0 && shardCount > 0 && maxKeys > 0 && idleTtl > 0.0
    }
  }

  datatype Entry = Entry(bucket: Bucket, lastSeen: real)

  type Shard = map<string, Entry>

  datatype Table = Table(shards: seq<Shard>, keyCount: nat)

  datatype Decision = Decision(allowed: bool, retryAfter: int, exhausted: bool)

  function KeyOf(client: string): string { if client == "" then "unknown" else client }

  /** The sum of the shard sizes. */
  function Total(shards: seq<Shard>): nat {
    if shards == [] then 0 else |shards[0]| + Total(shards[1..])
  }

  lemma {:induction false} TotalUpdate(shards: seq<Shard>, i: nat, s: Shard)
    requires i < |shards|
    ensures Total(shards[i := s]) + |shards[i]| == Total(shards) + |s|
  {
    if i == 0 {
      assert shards[0 := s][1..] == shards[1..];
    } else {
      assert shards[i := s][1..] == shards[1..][i - 1 := s];
      TotalUpdate(shards[1..], i - 1, s);
    }
  }

  /** A bucket with the configured limits; one too small for a whole token is always
      full. */
  predicate Matching(cfg: Config, b: Bucket) {
    && b.Valid() && b.rate == cfg.rate && b.capacity == cfg.burst
    && (cfg.burst < 1.0 ==> b.tokens == cfg.burst)
  }

  /** Clients in their own shard, and valid buckets with the configured limits. */
  ghost predicate ShardOk(cfg: Config, hash: string -> nat, i: nat, s: Shard)
    requires cfg.shardCount > 0
  {
    forall k | k in s :: hash(k) % cfg.shardCount == i && Matching(cfg, s[k].bucket)
  }

  /** Sound shards, and a counter that is exactly the number of stored keys. */
  ghost predicate Inv(cfg: Config, hash: string -> nat, t: Table) {
    && cfg.Valid() && |t.shards| == cfg.shardCount
    && t.keyCount == Total(t.shards) <= cfg.maxKeys
    && forall i | 0 <= i < |t.shards| :: ShardOk(cfg, hash, i, t.shards[i])
  }

  function Empty(cfg: Config): Table { Table(seq(cfg.shardCount, _ => map[]), 0) }

  predicate Expired(cfg: Config, e: Entry, now: real) { now - e.lastSeen >= cfg.idleTtl }

  function Prune(cfg: Config, s: Shard, now: real): (r: Shard)
    ensures |r| <= |s|
  {
    var r := map k | k in s && !Expired(cfg, s[k], now) :: s[k];
    Smaller(r, s);
    r
  }

  lemma Smaller(r: Shard, s: Shard)
    requires r.Keys <= s.Keys
    ensures |r| <= |s|
  {
    SubsetSize(r.Keys, s.Keys);
  }

  lemma {:induction false} SubsetSize<T>(a: set<T>, b: set<T>)
    requires a <= b
    ensures |a| <= |b|
  {
    if a != {} {
      var x :| x in a;
      SubsetSize(a - {x}, b - {x});
    }
  }

  /** The bucket after one request, and the answer. */
  function Charge(b: Bucket, now: real): (r: (Bucket, Decision))
    requires b.Valid()
    ensures r.0.Valid() && r.0 == b.(tokens := r.0.tokens, last := r.0.last)
    ensures r.0.last == Later(b.last, now)
  {
    var (c, ok) := Allow(b, 1.0, now);
    if ok then (c, Decision(true, 0, false))
    else
      var (d, wait) := RetryAfter(c, 1.0, now);
      (d, Decision(false, wait, false))
  }

  lemma ChargeMatches(cfg: Config, b: Bucket, now: real)
    requires Matching(cfg, b)
    ensures Matching(cfg, Charge(b, now).0)
  {}

  /** The bucket a shard charges for `key`: the stored one or a new one. */
  function BucketFor(cfg: Config, s: Shard, key: string, now: real): Bucket {
    if key in s then s[key].bucket else Fresh(cfg.rate, cfg.burst, now)
  }

  lemma BucketForMatches(cfg: Config, hash: string -> nat, i: nat, s: Shard, key: string, now: real)
    requires cfg.Valid() && ShardOk(cfg, hash, i, s)
    ensures Matching(cfg, BucketFor(cfg, s, key, now))
    ensures ShardOk(cfg, hash, i, Prune(cfg, s, now))
  {}

  /** `checkClient`. */
  function Check(cfg: Config, hash: string -> nat, t: Table, client: string, now: real)
      : (Table, Decision)
    requires Inv(cfg, hash, t)
  {
    var key := KeyOf(client);
    var i := hash(key) % cfg.shardCount;
    var pruned := Prune(cfg, t.shards[i], now);
    TotalUpdate(t.shards, i, pruned);
    var count := t.keyCount - (|t.shards[i]| - |pruned|);
    if key !in pruned && count >= cfg.maxKeys then
      (Table(t.shards[i := pruned], count), Decision(false, 1000, true))
    else
      BucketForMatches(cfg, hash, i, t.shards[i], key, now);
      BucketForMatches(cfg, hash, i, pruned, key, now);
      var (b, d) := Charge(BucketFor(cfg, pruned, key, now), now);
      (Table(t.shards[i := pruned[key := Entry(b, now)]],
             if key in pruned then count else count + 1), d)
  }

  lemma CheckKeepsInv(cfg: Config, hash: string -> nat, t: Table, client: string, now: real)
    requires Inv(cfg, hash, t)
    ensures Inv(cfg, hash, Check(cfg, hash, t, client, now).0)
  {
    hide Charge; hide Prune; hide BucketFor; hide Check; hide Total;
    var key := KeyOf(client);
    var i := hash(key) % cfg.shardCount;
    var pruned := Prune(cfg, t.shards[i], now);
    CheckShape(cfg, hash, t, client, now, i, pruned);
    BucketForMatches(cfg, hash, i, t.shards[i], key, now);
    TotalUpdate(t.shards, i, pruned);
    ChargeMatches(cfg, BucketFor(cfg, pruned, key, now), now);
    var (b, _) := Charge(BucketFor(cfg, pruned, key, now), now);
    var updated := pruned[key := Entry(b, now)];
    TotalUpdate(t.shards, i, updated);
    assert updated.Keys == pruned.Keys + {key};
  }

  // --------------------------------------------------------- the simple table

  /** Never evicted, never full. */
  type Reference = map<string, Bucket>

  ghost predicate AllMatch(cfg: Config, r: Reference) { forall k | k in r :: Matching(cfg, r[k]) }

  function ReferenceBucket(cfg: Config, r: Reference, key: string, now: real): (b: Bucket)
    requires cfg.Valid() && AllMatch(cfg, r)
    ensures Matching(cfg, b)
  {
    assert key in r ==> Matching(cfg, r[key]);
    if key in r then r[key] else Fresh(cfg.rate, cfg.burst, now)
  }

  function ReferenceCheck(cfg: Config, r: Reference, client: string, now: real)
      : (Reference, Decision)
    requires cfg.Valid() && AllMatch(cfg, r)
  {
    var key := KeyOf(client);
    var (c, d) := Charge(ReferenceBucket(cfg, r, key, now), now);
    (r[key := c], d)
  }

  lemma ReferenceMatches(cfg: Config, r: Reference, client: string, now: real)
    requires cfg.Valid() && AllMatch(cfg, r)
    ensures AllMatch(cfg, ReferenceCheck(cfg, r, client, now).0)
  {
    hide Charge;
    ChargeMatches(cfg, ReferenceBucket(cfg, r, KeyOf(client), now), now);
  }

  ghost predicate Mirrors(s: Shard, r: Reference) {
    forall k | k in s :: k in r && s[k] == Entry(r[k], r[k].last)
  }

  /** The stored buckets are the reference ones, stamped with their last use; a
      client that is not stored has been idle for the time to live. */
  ghost predicate Agreeing(
    cfg: Config, hash: string -> nat, shards: seq<Shard>, r: Reference, clock: real)
    requires cfg.Valid() && |shards| == cfg.shardCount
  {
    && AllMatch(cfg, r) && (forall k | k in r :: r[k].last <= clock)
    && (forall i | 0 <= i < |shards| :: Mirrors(shards[i], r))
    && (forall k | k in r && k !in shards[hash(k) % cfg.shardCount] ::
          r[k].last + cfg.idleTtl <= clock)
  }

  ghost predicate Coupled(
    cfg: Config, hash: string -> nat, t: Table, r: Reference, clock: real)
  {
    Inv(cfg, hash, t) && Agreeing(cfg, hash, t.shards, r, clock)
  }

  /** An idle client has a full bucket, or its bucket never gives anything. */
  predicate TtlRefills(cfg: Config) { cfg.burst < 1.0 || cfg.burst <= cfg.rate * cfg.idleTtl }

  /** An idle bucket has filled up: charging it is charging a new one. */
  lemma IdleIsFresh(cfg: Config, b: Bucket, now: real)
    requires cfg.Valid() && Matching(cfg, b) && b.last + cfg.idleTtl <= now
    requires TtlRefills(cfg)
    ensures Charge(b, now) == Charge(Fresh(cfg.rate, cfg.burst, now), now)
  {
    hide Charge; hide Refill;
    var elapsed := now - b.last;
    Enough(b.tokens, elapsed, cfg.idleTtl, cfg.rate, cfg.burst);
    RefillTo(b, now, elapsed, cfg.rate);
    assert Refill(b, now) == Fresh(cfg.rate, cfg.burst, now);
    ChargeIsOfRefilled(b, now);
    ChargeIsOfRefilled(Fresh(cfg.rate, cfg.burst, now), now);
    RefillNow(cfg.rate, cfg.burst, now);
  }

  lemma RefillNow(rate: real, burst: real, now: real)
    requires rate > 0.0 && burst > 0.0
    ensures Refill(Fresh(rate, burst, now), now) == Fresh(rate, burst, now)
  {}

  lemma ChargeIsOfRefilled(b: Bucket, now: real)
    requires b.Valid()
    ensures Charge(b, now) == Charge(Refill(b, now), now)
  {}

  lemma RefillTo(b: Bucket, now: real, elapsed: real, rate: real)
    requires b.Valid() && b.last < now && elapsed == now - b.last && rate == b.rate
    ensures Refill(b, now) == b.(tokens := Min(b.capacity, b.tokens + elapsed * rate), last := now)
  {}

  lemma Enough(tokens: real, elapsed: real, ttl: real, rate: real, burst: real)
    requires rate > 0.0 && 0.0 <= tokens && 0.0 < ttl <= elapsed
    requires burst <= rate * ttl || tokens == burst
    ensures tokens + elapsed * rate >= burst
  {
    Positive(elapsed, rate);
    if burst <= rate * ttl { FillsUp(elapsed, ttl, rate, burst); }
  }

  lemma FillsUp(elapsed: real, ttl: real, rate: real, burst: real)
    requires elapsed >= ttl && rate > 0.0 && burst <= rate * ttl
    ensures elapsed * rate >= burst
  {
    Scale(ttl, elapsed, rate);
  }

  predicate Flagged(d: Decision) { d.exhausted }

  /** One request keeps the coupling and, unless flagged, gets the same answer. */
  lemma CheckTracksReference(cfg: Config, hash: string -> nat, t: Table, r: Reference,
                             clock: real, client: string, now: real)
    requires Coupled(cfg, hash, t, r, clock) && clock <= now
    requires TtlRefills(cfg)
    ensures var (t', d) := Check(cfg, hash, t, client, now);
            var (r', e) := ReferenceCheck(cfg, r, client, now);
            if Flagged(d) then Coupled(cfg, hash, t', r, now)
            else d == e && Coupled(cfg, hash, t', r', now)
  {
    hide Charge; hide Total; hide Prune;
    hide Inv; hide Agreeing; hide Check;
    CheckKeepsInv(cfg, hash, t, client, now);
    InvFacts(cfg, hash, t);
    var key := KeyOf(client);
    var i := hash(key) % cfg.shardCount;
    var pruned := Prune(cfg, t.shards[i], now);
    PruneCoupled(cfg, hash, t, r, clock, i, now);
    CheckShape(cfg, hash, t, client, now, i, pruned);
    if !Flagged(Check(cfg, hash, t, client, now).1) {
      SameCharge(cfg, hash, t.shards[i := pruned], r, key, now);
      ChargeMatches(cfg, BucketFor(cfg, pruned, key, now), now);
      var c := Charge(BucketFor(cfg, pruned, key, now), now).0;
      UpdateCoupled(cfg, hash, t.shards[i := pruned], r, i, key, c, now);
      assert t.shards[i := pruned][i := pruned[key := Entry(c, now)]]
          == t.shards[i := pruned[key := Entry(c, now)]];
    }
  }

  lemma InvFacts(cfg: Config, hash: string -> nat, t: Table)
    requires Inv(cfg, hash, t)
    ensures cfg.Valid() && |t.shards| == cfg.shardCount
    ensures forall i | 0 <= i < |t.shards| :: ShardOk(cfg, hash, i, t.shards[i])
  {}

  lemma CheckShape(cfg: Config, hash: string -> nat, t: Table, client: string, now: real,
                   i: nat, pruned: Shard)
    requires Inv(cfg, hash, t) && i == hash(KeyOf(client)) % cfg.shardCount
    requires pruned == Prune(cfg, t.shards[i], now)
    ensures Matching(cfg, BucketFor(cfg, pruned, KeyOf(client), now))
    ensures |t.shards[i]| <= t.keyCount
    ensures var key := KeyOf(client);
            var (t', d) := Check(cfg, hash, t, client, now);
            var count := t.keyCount - (|t.shards[i]| - |pruned|);
            && (Flagged(d) <==> key !in pruned && count >= cfg.maxKeys)
            && if Flagged(d) then
                 d == Decision(false, 1000, true) && t' == Table(t.shards[i := pruned], count)
               else
                 var (c, e) := Charge(BucketFor(cfg, pruned, key, now), now);
                 d == e && t' == Table(t.shards[i := pruned[key := Entry(c, now)]],
                                       if key in pruned then count else count + 1)
  {
    hide Charge; hide Prune; hide BucketFor;
    SizeInTotal(t.shards, i);
    BucketForMatches(cfg, hash, i, t.shards[i], KeyOf(client), now);
    BucketForMatches(cfg, hash, i, pruned, KeyOf(client), now);
    ChargeIsNotFlagged(BucketFor(cfg, pruned, KeyOf(client), now), now);
  }

  lemma ChargeIsNotFlagged(b: Bucket, now: real)
    requires b.Valid()
    ensures !Flagged(Charge(b, now).1)
  {}

  lemma PruneCoupled(cfg: Config, hash: string -> nat, t: Table, r: Reference, clock: real,
                     i: nat, now: real)
    requires Coupled(cfg, hash, t, r, clock) && clock <= now && i < |t.shards|
    ensures ShardOk(cfg, hash, i, Prune(cfg, t.shards[i], now))
    ensures Agreeing(cfg, hash, t.shards[i := Prune(cfg, t.shards[i], now)], r, now)
  {
    assert ShardOk(cfg, hash, i, t.shards[i]) && Mirrors(t.shards[i], r);
  }

  lemma UpdateCoupled(cfg: Config, hash: string -> nat, shards: seq<Shard>, r: Reference,
                      i: nat, key: string, c: Bucket, now: real)
    requires cfg.Valid() && |shards| == cfg.shardCount && i == hash(key) % cfg.shardCount
    requires forall j | 0 <= j < |shards| :: ShardOk(cfg, hash, j, shards[j])
    requires Agreeing(cfg, hash, shards, r, now)
    requires Matching(cfg, c) && c.last == now
    ensures Agreeing(cfg, hash, shards[i := shards[i][key := Entry(c, now)]], r[key := c], now)
  {
    var shards', r' := shards[i := shards[i][key := Entry(c, now)]], r[key := c];
    forall j | 0 <= j < |shards'| ensures Mirrors(shards'[j], r') {
      assert Mirrors(shards[j], r) && ShardOk(cfg, hash, j, shards[j]);
    }
  }

  /** Stored or idle, the limiter and the reference charge alike. */
  lemma SameCharge(cfg: Config, hash: string -> nat, shards: seq<Shard>, r: Reference,
                   key: string, now: real)
    requires cfg.Valid() && |shards| == cfg.shardCount && Agreeing(cfg, hash, shards, r, now)
    requires TtlRefills(cfg)
    ensures var b := BucketFor(cfg, shards[hash(key) % cfg.shardCount], key, now);
            && Matching(cfg, b) && b.last <= now
            && Charge(b, now) == Charge(ReferenceBucket(cfg, r, key, now), now)
  {
    hide Charge;
    var s := shards[hash(key) % cfg.shardCount];
    assert Mirrors(s, r);
    if key in s {
      assert Matching(cfg, r[key]);
    } else if key in r {
      IdleIsFresh(cfg, r[key], now);
    }
  }

  // ----------------------------------------------------------------- whole runs

  datatype Request = Request(client: string, now: real)

  predicate InOrder(clock: real, requests: seq<Request>) {
    && (forall i | 0 <= i < |requests| :: clock <= requests[i].now)
    && (forall i, j | 0 <= i < j < |requests| :: requests[i].now <= requests[j].now)
  }

  /** The answers of the limiter. */
  ghost function Answers(cfg: Config, hash: string -> nat, t: Table, requests: seq<Request>)
      : (d: seq<Decision>)
    requires Inv(cfg, hash, t)
    ensures |d| == |requests|
    decreases |requests|
  {
    if requests == [] then [] else
    CheckKeepsInv(cfg, hash, t, requests[0].client, requests[0].now);
    var (t', d) := Check(cfg, hash, t, requests[0].client, requests[0].now);
    [d] + Answers(cfg, hash, t', requests[1..])
  }

  /** The answers of the unbounded table to the same run; requests the limiter
      turned away for lack of space take no token there either. */
  ghost function ReferenceAnswers(
    cfg: Config, r: Reference, requests: seq<Request>, skip: seq<bool>): (d: seq<Decision>)
    requires cfg.Valid() && |skip| == |requests|
    requires AllMatch(cfg, r)
    ensures |d| == |requests|
    decreases |requests|
  {
    if requests == [] then []
    else if skip[0] then
      [Decision(false, 1000, true)] + ReferenceAnswers(cfg, r, requests[1..], skip[1..])
    else
      var (r', d) := ReferenceCheck(cfg, r, requests[0].client, requests[0].now);
      ReferenceMatches(cfg, r, requests[0].client, requests[0].now);
      [d] + ReferenceAnswers(cfg, r', requests[1..], skip[1..])
  }

  function Flags(ds: seq<Decision>): (r: seq<bool>)
    ensures |r| == |ds|
  {
    if ds == [] then [] else [Flagged(ds[0])] + Flags(ds[1..])
  }

  /** The two lists of answers agree wherever the limiter had space. */
  predicate SameUnlessFlagged(ds: seq<Decision>, es: seq<Decision>) {
    |ds| == |es| && forall i | 0 <= i < |ds| :: Flagged(ds[i]) || ds[i] == es[i]
  }

  lemma {:induction false} RunsAgree(cfg: Config, hash: string -> nat, t: Table, r: Reference,
                                     clock: real, requests: seq<Request>)
    requires Coupled(cfg, hash, t, r, clock) && InOrder(clock, requests)
    requires TtlRefills(cfg)
    ensures var ds := Answers(cfg, hash, t, requests);
            var es := ReferenceAnswers(cfg, r, requests, Flags(ds));
            SameUnlessFlagged(ds, es)
    decreases |requests|
  {
    hide Coupled; hide Check; hide ReferenceCheck;
    if requests != [] {
      CoupledIsInv(cfg, hash, t, r, clock);
      var q, others := requests[0], requests[1..];
      CheckTracksReference(cfg, hash, t, r, clock, q.client, q.now);
      var (t', d) := Check(cfg, hash, t, q.client, q.now);
      var (r', e) := ReferenceCheck(cfg, r, q.client, q.now);
      assert InOrder(q.now, others);
      var r'' := if Flagged(d) then r else r';
      CoupledIsInv(cfg, hash, t', r'', q.now);
      RunsAgree(cfg, hash, t', r'', q.now, others);
      var later := Answers(cfg, hash, t', others);
      assert Answers(cfg, hash, t, requests) == [d] + later;
      FlagsCons(d, later);
      var es := ReferenceAnswers(cfg, r'', others, Flags(later));
      SameCons(d, if Flagged(d) then Decision(false, 1000, true) else e, later, es);
    }
  }

  lemma FlagsCons(d: Decision, ds: seq<Decision>)
    ensures Flags([d] + ds) == [Flagged(d)] + Flags(ds)
  {
    assert ([d] + ds)[1..] == ds;
  }

  lemma SameCons(d: Decision, e: Decision, ds: seq<Decision>, es: seq<Decision>)
    requires SameUnlessFlagged(ds, es) && (Flagged(d) || d == e)
    ensures SameUnlessFlagged([d] + ds, [e] + es)
  {}

  lemma CoupledIsInv(cfg: Config, hash: string -> nat, t: Table, r: Reference, clock: real)
    requires Coupled(cfg, hash, t, r, clock)
    ensures Inv(cfg, hash, t) && AllMatch(cfg, r)
  {}

  lemma EmptyIsCoupled(cfg: Config, hash: string -> nat, clock: real)
    requires cfg.Valid()
    ensures Coupled(cfg, hash, Empty(cfg), map[], clock)
  {
    TotalOfEmpty(Empty(cfg).shards);
  }

  lemma {:induction false} TotalOfEmpty(shards: seq<Shard>)
    requires forall i | 0 <= i < |shards| :: shards[i] == map[]
    ensures Total(shards) == 0
  {
    if shards != [] { TotalOfEmpty(shards[1..]); }
  }

  /** Eviction is invisible: with times in order and a time to live that refills
      the burst, every answer not flagged as out of space is the answer of a table
      that never evicts, for any shard count and any hash. */
  lemma EvictionIsInvisible(
      cfg: Config, hash: string -> nat, start: real, requests: seq<Request>)
    requires cfg.Valid() && InOrder(start, requests)
    requires TtlRefills(cfg)
    ensures Inv(cfg, hash, Empty(cfg))
    ensures var ds := Answers(cfg, hash, Empty(cfg), requests);
            var es := ReferenceAnswers(cfg, map[], requests, Flags(ds));
            SameUnlessFlagged(ds, es)
  {
    hide Answers; hide ReferenceAnswers; hide Coupled;
    EmptyIsCoupled(cfg, hash, start);
    CoupledIsInv(cfg, hash, Empty(cfg), map[], start);
    RunsAgree(cfg, hash, Empty(cfg), map[], start, requests);
  }

  // ------------------------------------------------------------------ the object

  class RateLimiter {
    const config: Config
    const hash: string -> nat
    var shards: seq<Shard>
    var keyCount: nat

    ghost function Value(): Table
      reads this
    {
      Table(shards, keyCount)
    }

    constructor (cfg: Config, h: string -> nat)
      requires cfg.Valid()
      ensures config == cfg && hash == h && Value() == Empty(cfg) && Inv(cfg, h, Value())
    {
      config, hash := cfg, h;
      shards, keyCount := seq(cfg.shardCount, _ => map[]), 0;
      new;
      TotalOfEmpty(shards);
    }

    /** The erase-while-iterating loop; the iteration order is arbitrary. */
    method PruneExpired(i: nat, now: real)
      requires i < |shards| && |shards[i]| <= keyCount
      modifies this
      ensures shards == old(shards)[i := Prune(config, old(shards)[i], now)]
      ensures keyCount == old(keyCount) - (|old(shards)[i]| - |shards[i]|)
    {
      var s, pending := shards[i], shards[i].Keys;
      while pending != {}
        invariant pending <= s.Keys <= old(shards)[i].Keys
        invariant forall k | k in s :: s[k] == old(shards)[i][k]
        invariant forall k | k in old(shards)[i] && k !in pending ::
                    k in s <==> !Expired(config, old(shards)[i][k], now)
        invariant |s| <= keyCount && keyCount == old(keyCount) - (|old(shards)[i]| - |s|)
        invariant shards == old(shards)
        decreases |pending|
      {
        var k :| k in pending;
        pending := pending - {k};
        if Expired(config, s[k], now) {
          assert (s - {k}).Keys == s.Keys - {k};
          s := s - {k};
          keyCount := keyCount - 1;
        }
      }
      shards := shards[i := s];
      assert s == Prune(config, old(shards)[i], now);
    }

    method CheckClient(client: string, now: real) returns (d: Decision)
      requires Inv(config, hash, Value())
      modifies this
      ensures (Value(), d) == Check(config, hash, old(Value()), client, now)
      ensures Inv(config, hash, Value())
    {
      CheckKeepsInv(config, hash, Value(), client, now);
      hide Charge; hide Prune; hide Inv; hide Total; hide ShardOk; hide BucketFor; hide Check;
      var key := KeyOf(client);
      var i := hash(key) % config.shardCount;
      InvFacts(config, hash, Value());
      CheckShape(config, hash, Value(), client, now, i, Prune(config, shards[i], now));
      ghost var was := shards;
      PruneExpired(i, now);
      var s := shards[i];
      if key !in s {
        if keyCount >= config.maxKeys { return Decision(false, 1000, true); }
        keyCount := keyCount + 1;
      }
      var (b, answer) := Charge(BucketFor(config, s, key, now), now);
      shards := shards[i := s[key := Entry(b, now)]];
      assert shards == was[i := s[key := Entry(b, now)]];
      d := answer;
    }
  }

  lemma {:induction false} SizeInTotal(shards: seq<Shard>, i: nat)
    requires i < |shards|
    ensures |shards[i]| <= Total(shards)
  {
    if i > 0 { SizeInTotal(shards[1..], i - 1); }
  }
}
