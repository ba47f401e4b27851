/** Each client is judged by its own requests alone, and told the least wait. */
module LimiterExact {
  import opened TokenBuckets
  import opened RateLimiting

  /** One client: the same name, where no name stands for `unknown`. */
  predicate SameClient(a: string, b: string) {
    a == b || (a in {"", "unknown"} && b in {"", "unknown"})
  }

  lemma SameClientExactly(a: string, b: string)
    ensures SameClient(a, b) <==> KeyOf(a) == KeyOf(b)
  {}

  // ---------------------------------------------------------------- one bucket a client

  /** The bucket of a client at its next request: full if there was none. */
  function Ready(cfg: Config, b: Slot, now: real): (r: Bucket)
    requires cfg.Valid() && (b.Kept? ==> b.bucket.Valid())
    ensures r.Valid()
  {
    match b case Absent => Fresh(cfg.rate, cfg.burst, now) case Kept(c) => c
  }

  datatype Slot = Absent | Kept(bucket: Bucket)

  /** What a client's own requests make of its bucket; requests of other clients, and those
      that were turned away for lack of space, are passed over. */
  function Own(cfg: Config, b: Slot, requests: seq<Request>, skip: seq<bool>, client: string)
      : (r: Slot)
    requires cfg.Valid() && (b.Kept? ==> b.bucket.Valid()) && |skip| == |requests|
    ensures r.Kept? ==> r.bucket.Valid()
    decreases |requests|
  {
    if requests == [] then b else
    var q := requests[0];
    var c := if skip[0] || !SameClient(q.client, client) then b
             else Kept(Allow(Ready(cfg, b, q.now), 1.0, q.now).0);
    Own(cfg, c, requests[1..], skip[1..], client)
  }

  function SlotOf(r: Reference, key: string): Slot {
    if key in r then Kept(r[key]) else Absent
  }

  lemma EntryIsValid(cfg: Config, r: Reference, key: string)
    requires AllMatch(cfg, r)
    ensures SlotOf(r, key).Kept? ==> SlotOf(r, key).bucket.Valid()
  {}

  /** Asking for the wait leaves the bucket as the refusal left it. */
  lemma ChargeTakesOne(b: Bucket, now: real)
    requires b.Valid()
    ensures var (c, ok) := Allow(b, 1.0, now);
            Charge(b, now) == (c, Decision(ok, if ok then 0 else RetryAfter(c, 1.0, now).1, false))
  {
    var (c, ok) := Allow(b, 1.0, now);
    if !ok { assert Refill(c, now) == c; }
  }

  lemma RefusedIsRefilled(b: Bucket, now: real)
    requires b.Valid() && !Allow(b, 1.0, now).1
    ensures var c := Allow(b, 1.0, now).0; c.capacity == b.capacity && now <= c.last
    ensures RetryAfter(Allow(b, 1.0, now).0, 1.0, now).0 == Allow(b, 1.0, now).0
  {
    assert Refill(Refill(b, now), now) == Refill(b, now);
  }

  /** The decision on a bucket: allowed if it has a token, and if not, the least whole
      number of milliseconds after which it has one, should there ever be one. */
  ghost predicate Judged(b: Bucket, now: real, d: Decision)
    requires b.Valid()
  {
    var (c, ok) := Allow(b, 1.0, now);
    && d.allowed == ok && !d.exhausted
    && (ok ==> d.retryAfter == 0)
    && (!ok && b.capacity >= 1.0 && now >= b.last ==> Least(c, now, d.retryAfter))
  }

  ghost predicate Least(c: Bucket, now: real, wait: int)
    requires c.Valid()
  {
    && wait > 0 && Allow(c, 1.0, now + Millis(wait)).1
    && forall v: int | 0 <= v < wait :: !Allow(c, 1.0, now + Millis(v)).1
  }

  lemma ChargeIsJudged(b: Bucket, now: real)
    requires b.Valid()
    ensures Judged(b, now, Charge(b, now).1)
  {
    ChargeTakesOne(b, now);
    var (c, ok) := Allow(b, 1.0, now);
    if !ok && b.capacity >= 1.0 && now >= b.last {
      RefusedIsRefilled(b, now);
      RefilledNow(b, now);
      RetryAfterIsLeast(c, 1.0, now);
      assert RetryAfter(c, 1.0, now).1 != 0 by {
        assert now + Millis(0) == now;
      }
    }
  }

  lemma RefilledNow(b: Bucket, now: real)
    requires b.Valid() && !Allow(b, 1.0, now).1 && now >= b.last
    ensures var c := Allow(b, 1.0, now).0; c.last == now && !Allow(c, 1.0, now).1
  {
    assert Refill(Refill(b, now), now) == Refill(b, now);
  }

  // --------------------------------------------------------------------------- runs

  lemma StepOwn(cfg: Config, r: Reference, q: Request, key: string)
    requires cfg.Valid() && AllMatch(cfg, r)
    ensures var (r', d) := ReferenceCheck(cfg, r, q.client, q.now);
            && AllMatch(cfg, r')
            && Matching(cfg, ReferenceBucket(cfg, r, KeyOf(q.client), q.now))
            && SlotOf(r', key) ==
                 (if key == KeyOf(q.client)
                  then Kept(Allow(ReferenceBucket(cfg, r, key, q.now), 1.0, q.now).0)
                  else SlotOf(r, key))
            && d == Charge(ReferenceBucket(cfg, r, KeyOf(q.client), q.now), q.now).1
  {
    ReferenceMatches(cfg, r, q.client, q.now);
    ChargeTakesOne(ReferenceBucket(cfg, r, KeyOf(q.client), q.now), q.now);
    hide Charge;
  }

  /** In the table without eviction the answer depends on the client's own bucket only. */
  lemma {:induction false} OwnDecides(cfg: Config, r: Reference, requests: seq<Request>,
                                      skip: seq<bool>, i: nat)
    requires cfg.Valid() && AllMatch(cfg, r) && |skip| == |requests| && i < |requests| && !skip[i]
    ensures var q := requests[i];
            && (SlotOf(r, KeyOf(q.client)).Kept? ==> SlotOf(r, KeyOf(q.client)).bucket.Valid())
            && var b := Ready(cfg, Own(cfg, SlotOf(r, KeyOf(q.client)), requests[..i], skip[..i],
                                       q.client), q.now);
            Judged(b, q.now, ReferenceAnswers(cfg, r, requests, skip)[i])
    decreases |requests|
  {
    hide Charge; hide Judged; hide ReferenceCheck;
    var q, first := requests[i], requests[0];
    var key := KeyOf(q.client);
    EntryIsValid(cfg, r, key);
    StepOwn(cfg, r, first, key);
    if i == 0 {
      ChargeIsJudged(ReferenceBucket(cfg, r, key, q.now), q.now);
    } else {
      var r' := if skip[0] then r else ReferenceCheck(cfg, r, first.client, first.now).0;
      OwnDecides(cfg, r', requests[1..], skip[1..], i - 1);
      EntryIsValid(cfg, r', key);
      SameClientExactly(first.client, q.client);
      assert requests[..i][0] == first && skip[..i][0] == skip[0];
      assert requests[..i][1..] == requests[1..][..i - 1] && skip[..i][1..] == skip[1..][..i - 1];
    }
  }

  /** Every answer of the limiter that is not flagged is the one that the client's own
      earlier requests give, whatever the other clients did and whatever was evicted, with
      the least wait. */
  lemma EachClientIsJudgedAlone(cfg: Config, hash: string -> nat, start: real,
                                requests: seq<Request>, i: nat)
    requires cfg.Valid() && InOrder(start, requests) && TtlRefills(cfg) && i < |requests|
    ensures Inv(cfg, hash, Empty(cfg))
    ensures var ds, q := Answers(cfg, hash, Empty(cfg), requests), requests[i];
            !Flagged(ds[i]) ==>
              var b := Ready(cfg, Own(cfg, Absent, requests[..i], Flags(ds)[..i], q.client), q.now);
              Judged(b, q.now, ds[i]) && b.last <= q.now && b.capacity == cfg.burst
  {
    hide Judged; hide Answers; hide ReferenceAnswers; hide Inv; hide Own;
    EvictionIsInvisible(cfg, hash, start, requests);
    var ds := Answers(cfg, hash, Empty(cfg), requests);
    if !Flagged(ds[i]) {
      FlagsAt(ds, i);
      var none: Reference := map[];
      OwnDecides(cfg, none, requests, Flags(ds), i);
      OwnIsEarlier(cfg, Absent, requests[..i], Flags(ds)[..i], requests[i].client, requests[i].now);
      assert SlotOf(none, KeyOf(requests[i].client)) == Absent;
    }
  }

  lemma {:induction false} OwnIsEarlier(cfg: Config, b: Slot, requests: seq<Request>,
                                        skip: seq<bool>, client: string, until: real)
    requires cfg.Valid() && (b.Kept? ==> b.bucket.Valid()) && |skip| == |requests|
    requires b.Kept? ==> b.bucket.last <= until && b.bucket.capacity == cfg.burst
    requires forall i | 0 <= i < |requests| :: requests[i].now <= until
    ensures var c := Own(cfg, b, requests, skip, client);
            c.Kept? ==> c.bucket.last <= until && c.bucket.capacity == cfg.burst
    decreases |requests|
  {
    if requests != [] {
      var q := requests[0];
      var c := if skip[0] || !SameClient(q.client, client) then b
               else Kept(Allow(Ready(cfg, b, q.now), 1.0, q.now).0);
      OwnIsEarlier(cfg, c, requests[1..], skip[1..], client, until);
    }
  }

  lemma {:induction false} FlagsAt(ds: seq<Decision>, i: nat)
    requires i < |ds|
    ensures Flags(ds)[i] == Flagged(ds[i])
  {
    if i > 0 { FlagsAt(ds[1..], i - 1); }
  }

  /** A request is turned away for lack of space exactly when its client is not stored, or
      was idle for the time to live, and the keys that are left, without the idle ones of
      that shard, fill the table. It is told to wait a second, and takes no place. */
  lemma FullExactly(cfg: Config, hash: string -> nat, t: Table, client: string, now: real)
    requires Inv(cfg, hash, t)
    ensures var key := if client == "" then "unknown" else client;
            var i := hash(key) % cfg.shardCount;
            var s := t.shards[i];
            var left := t.shards[i := map k | k in s && now - s[k].lastSeen < cfg.idleTtl :: s[k]];
            var (t', d) := Check(cfg, hash, t, client, now);
            && (d.exhausted <==> key !in left[i] && Total(left) >= cfg.maxKeys)
            && (d.exhausted ==> d == Decision(false, 1000, true) && t' == Table(left, Total(left)))
  {
    var key := KeyOf(client);
    var i := hash(key) % cfg.shardCount;
    var pruned := Prune(cfg, t.shards[i], now);
    CheckShape(cfg, hash, t, client, now, i, pruned);
    TotalUpdate(t.shards, i, pruned);
    var s := t.shards[i];
    assert pruned == map k | k in s && now - s[k].lastSeen < cfg.idleTtl :: s[k];
    hide Check; hide Charge; hide Prune; hide Total;
  }
}
