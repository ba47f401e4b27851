/** When a lookup finds an entry, over every run and in both directions; what an entry is
    charged; and what may be stored at all. */
module CacheExact {
  import opened Bytes
  import opened Headers
  import opened Messages
  import opened Caching

  // ------------------------------------------------------------------- the reference

  /** A store of the key that is small enough for the key's shard. */
  predicate AcceptedPut(cfg: Config, hash: Hash, op: Op, key: string)
    requires cfg.shardCount > 0
  {
    op.Put? && op.key == key && Charge(key, op.response) <= Limit(cfg, hash(key) % cfg.shardCount)
  }

  /** A lookup at or after the deadline throws the entry away. */
  predicate ThrownAway(op: Op, key: string, deadline: int) {
    op.Get? && op.key == key && deadline <= op.now
  }

  /** The store of another key at `j` has no room for this one. */
  ghost predicate Displaced(cfg: Config, hash: Hash, ops: seq<Op>, key: string, j: nat)
    requires cfg.shardCount > 0 && j < |ops|
  {
    PushedOut(cfg, hash, After(cfg, hash, ops[..j])[ShardOf(cfg, hash, key)], ops[j], key)
  }

  /** The store at `p` is the last accepted one of the key, and nothing took it out. */
  ghost predicate Lasts(cfg: Config, hash: Hash, ops: seq<Op>, key: string, p: nat)
    requires cfg.shardCount > 0
  {
    && p < |ops| && AcceptedPut(cfg, hash, ops[p], key)
    && forall j | p < j < |ops| ::
         && !AcceptedPut(cfg, hash, ops[j], key)
         && !ThrownAway(ops[j], key, ops[p].now + cfg.ttl)
         && !Displaced(cfg, hash, ops, key, j)
  }

  // ------------------------------------------------------------------------ one step

  lemma {:induction false} FirstIndex(items: Lru, n: nat, key: string)
    requires n <= |items| && IndexOf(items, key) >= n
    ensures !HasKey(items[..n], key)
  {
    if n > 0 {
      FirstIndex(items[1..], n - 1, key);
      assert items[..n] == [items[0]] + items[1..][..n - 1];
      HasKeyCons(items[0], items[1..][..n - 1], key);
    }
  }

  lemma PrefixWeights(items: Lru, j: nat, k: nat)
    requires j <= k <= |items|
    ensures Weight(items[..j]) <= Weight(items[..k])
  {
    WeightOfPrefix(items[..k], j);
    assert items[..k][..j] == items[..j];
  }

  lemma FittingStops(items: Lru, room: nat, p: nat)
    requires p < |items| && Weight(items[..p + 1]) > room
    ensures Fitting(items, room) <= p
  {
    hide Weight;
    var k := Fitting(items, room);
    if p < k { PrefixWeights(items, p + 1, k); }
  }

  /** What is displaced is gone. */
  lemma DisplacedIsGone(cfg: Config, hash: Hash, shards: seq<Lru>, op: Op, key: string)
    requires cfg.shardCount > 0 && |shards| == cfg.shardCount
    requires PushedOut(cfg, hash, shards[ShardOf(cfg, hash, key)], op, key)
    ensures !HasKey(Apply(cfg, hash, shards, op).0[ShardOf(cfg, hash, key)], key)
  {
    hide Weight; hide HasKey; hide Limit; hide Charge;
    var i := ShardOf(cfg, hash, key);
    var others := Without(shards[i], op.key);
    var item := ItemOf(cfg, op.key, op.response, op.now);
    var room := Limit(cfg, i) - item.entry.charge;
    var k, p := Fitting(others, room), IndexOf(others, key);
    FittingStops(others, room, p);
    FirstIndex(others, k, key);
    HasKeyCons(item, others[..k], key);
  }

  lemma ThrownAwayIsGone(cfg: Config, hash: Hash, shards: seq<Lru>, op: Op, key: string)
    requires cfg.shardCount > 0 && |shards| == cfg.shardCount
    requires var items := shards[ShardOf(cfg, hash, key)];
             HasKey(items, key) && ThrownAway(op, key, items[IndexOf(items, key)].entry.expiresAt)
    ensures !HasKey(Apply(cfg, hash, shards, op).0[ShardOf(cfg, hash, key)], key)
  {
    hide HasKey;
  }

  /** No operation but an accepted store of the key brings it in. */
  lemma NothingElseAdds(cfg: Config, hash: Hash, shards: seq<Lru>, op: Op, key: string)
    requires cfg.shardCount > 0 && |shards| == cfg.shardCount
    requires !HasKey(shards[ShardOf(cfg, hash, key)], key) && !AcceptedPut(cfg, hash, op, key)
    ensures !HasKey(Apply(cfg, hash, shards, op).0[ShardOf(cfg, hash, key)], key)
  {
    hide HasKey; hide Weight; hide Limit; hide Charge;
    var i := ShardOf(cfg, hash, key);
    var items, others := shards[i], Without(shards[i], op.key);
    if op.key != key && ShardOf(cfg, hash, op.key) == i {
      HasKeyWithout(items, op.key, key);
      match op
      case Get(k, now) =>
        var p := IndexOf(items, k);
        if p < |items| { HasKeyCons(items[p], others, key); }
      case Put(k, response, now) =>
        if Fits(cfg, hash, k, response) {
          var item := ItemOf(cfg, k, response, now);
          var n := Fitting(others, Limit(cfg, i) - item.entry.charge);
          PrefixLacksKey(others, n, key);
          HasKeyCons(item, others[..n], key);
        }
    }
  }

  lemma StoreIsPresent(cfg: Config, hash: Hash, shards: seq<Lru>, op: Op, key: string)
    requires cfg.shardCount > 0 && |shards| == cfg.shardCount && AcceptedPut(cfg, hash, op, key)
    ensures HasKey(Apply(cfg, hash, shards, op).0[ShardOf(cfg, hash, key)], key)
  {
    hide HasKey; hide Weight; hide Limit; hide Charge;
    var i := ShardOf(cfg, hash, key);
    var others := Without(shards[i], key);
    var item := ItemOf(cfg, key, op.response, op.now);
    HasKeyCons(item, others[..Fitting(others, Limit(cfg, i) - item.entry.charge)], key);
  }

  // ------------------------------------------------------------------------ whole runs

  lemma {:induction false} LastPutIsStored(cfg: Config, hash: Hash, ops: seq<Op>, key: string, p: nat)
    requires cfg.shardCount > 0 && p < |ops| && AcceptedPut(cfg, hash, ops[p], key)
    requires forall j | p < j < |ops| :: !AcceptedPut(cfg, hash, ops[j], key)
    ensures LastStored(cfg, hash, ops, key)
         == Some(Entry(ops[p].response, ops[p].now + cfg.ttl, Charge(key, ops[p].response)))
  {
    hide Charge; hide Limit;
    var n := |ops| - 1;
    if p < n {
      assert !AcceptedPut(cfg, hash, ops[n], key);
      LastPutIsStored(cfg, hash, ops[..n], key, p);
    }
  }

  /** The entry found is the one of the last accepted store. */
  lemma PresentEntry(cfg: Config, hash: Hash, ops: seq<Op>, key: string, items: Lru)
    requires cfg.shardCount > 0 && items == After(cfg, hash, ops)[ShardOf(cfg, hash, key)]
    requires HasKey(items, key)
    ensures LastStored(cfg, hash, ops, key) == Some(items[IndexOf(items, key)].entry)
  {
    hide LastStored; hide After; hide HasKey; hide Weight; hide Limit; hide Faithful;
    RunIsFaithful(cfg, hash, ops, ShardOf(cfg, hash, key));
    FaithfulFacts(cfg, hash, ops, ShardOf(cfg, hash, key), items);
  }

  lemma LastsOneMore(cfg: Config, hash: Hash, ops: seq<Op>, key: string, p: nat)
    requires cfg.shardCount > 0 && p < |ops| - 1
    ensures Lasts(cfg, hash, ops, key, p) <==>
              var n := |ops| - 1;
              && Lasts(cfg, hash, ops[..n], key, p)
              && !AcceptedPut(cfg, hash, ops[n], key)
              && !ThrownAway(ops[n], key, ops[p].now + cfg.ttl)
              && !Displaced(cfg, hash, ops, key, n)
  {
    hide AcceptedPut; hide PushedOut; hide After;
    var n := |ops| - 1;
    forall j | 0 <= j < n
      ensures Displaced(cfg, hash, ops[..n], key, j) == Displaced(cfg, hash, ops, key, j)
      ensures ops[..n][j] == ops[j]
    {
      assert ops[..n][..j] == ops[..j];
    }
    hide Displaced;
    if Lasts(cfg, hash, ops, key, p) {
      forall j | p < j < n
        ensures !AcceptedPut(cfg, hash, ops[..n][j], key)
        ensures !ThrownAway(ops[..n][j], key, ops[p].now + cfg.ttl)
        ensures !Displaced(cfg, hash, ops[..n], key, j)
      {
        assert ops[..n][j] == ops[j];
      }
    }
  }

  /** If the key is in its shard, some store lasts. */
  lemma {:induction false} PresentLasts(cfg: Config, hash: Hash, ops: seq<Op>, key: string)
      returns (p: nat)
    requires cfg.shardCount > 0
    requires HasKey(After(cfg, hash, ops)[ShardOf(cfg, hash, key)], key)
    ensures Lasts(cfg, hash, ops, key, p)
  {
    hide AcceptedPut; hide Apply; hide PushedOut; hide HasKey; hide Lasts;
    var i := ShardOf(cfg, hash, key);
    if ops == [] {
      NoKey(key);
      assert false;
    }
    var n := |ops| - 1;
    var op, shards := ops[n], After(cfg, hash, ops[..n]);
    if AcceptedPut(cfg, hash, op, key) {
      p := n;
      assert Lasts(cfg, hash, ops, key, n) by { JustStored(cfg, hash, ops, key); }
    } else {
      if !HasKey(shards[i], key) { NothingElseAdds(cfg, hash, shards, op, key); assert false; }
      p := PresentLasts(cfg, hash, ops[..n], key);
      EntryOfLasting(cfg, hash, ops[..n], key, p);
      assert ops[..n][p] == ops[p] by { LastsInside(cfg, hash, ops[..n], key, p); }
      if ThrownAway(op, key, ops[p].now + cfg.ttl) {
        ThrownAwayIsGone(cfg, hash, shards, op, key);
        assert false;
      }
      if Displaced(cfg, hash, ops, key, n) {
        DisplacedIsGone(cfg, hash, shards, op, key);
        assert false;
      }
      LastsInside(cfg, hash, ops[..n], key, p);
      LastsOneMore(cfg, hash, ops, key, p);
    }
  }

  lemma NoKey(key: string)
    ensures !HasKey([], key)
  {}

  lemma JustStored(cfg: Config, hash: Hash, ops: seq<Op>, key: string)
    requires cfg.shardCount > 0 && ops != [] && AcceptedPut(cfg, hash, ops[|ops| - 1], key)
    ensures Lasts(cfg, hash, ops, key, |ops| - 1)
  {}

  lemma LastsInside(cfg: Config, hash: Hash, ops: seq<Op>, key: string, p: nat)
    requires cfg.shardCount > 0 && Lasts(cfg, hash, ops, key, p)
    ensures p < |ops| && ops[p].Put?
  {}

  /** While a store lasts and the key is present, the entry is the one stored there. */
  lemma EntryOfLasting(cfg: Config, hash: Hash, ops: seq<Op>, key: string, p: nat)
    requires cfg.shardCount > 0 && Lasts(cfg, hash, ops, key, p)
    requires HasKey(After(cfg, hash, ops)[ShardOf(cfg, hash, key)], key)
    ensures var items := After(cfg, hash, ops)[ShardOf(cfg, hash, key)];
            && p < |ops| && ops[p].Put?
            && items[IndexOf(items, key)].entry.expiresAt == ops[p].now + cfg.ttl
            && items[IndexOf(items, key)].entry.response == ops[p].response
  {
    assert p < |ops| && AcceptedPut(cfg, hash, ops[p], key)
           && forall j | p < j < |ops| :: !AcceptedPut(cfg, hash, ops[j], key) by {
      hide Displaced; hide ThrownAway;
    }
    hide Lasts; hide HasKey; hide After; hide LastStored; hide AcceptedPut;
    assert ops[p].Put? by { LastsInside(cfg, hash, ops, key, p); }
    LastPutIsStored(cfg, hash, ops, key, p);
    PresentEntry(cfg, hash, ops, key, After(cfg, hash, ops)[ShardOf(cfg, hash, key)]);
  }

  /** If a store lasts, the key is in its shard. */
  lemma {:induction false} LastsPresent(cfg: Config, hash: Hash, ops: seq<Op>, key: string, p: nat)
    requires cfg.shardCount > 0 && Lasts(cfg, hash, ops, key, p)
    ensures HasKey(After(cfg, hash, ops)[ShardOf(cfg, hash, key)], key)
  {
    hide Apply; hide PushedOut; hide HasKey; hide Lasts; hide Displaced; hide AcceptedPut;
    LastsInside(cfg, hash, ops, key, p);
    var i, n := ShardOf(cfg, hash, key), |ops| - 1;
    var op, shards := ops[n], After(cfg, hash, ops[..n]);
    if p == n {
      LastsStored(cfg, hash, ops, key, p);
      StoreIsPresent(cfg, hash, shards, op, key);
    } else {
      LastsOneMore(cfg, hash, ops, key, p);
      LastsPresent(cfg, hash, ops[..n], key, p);
      EntryOfLasting(cfg, hash, ops[..n], key, p);
      DisplacedAt(cfg, hash, ops, key, n, shards[i]);
      if !HasKey(After(cfg, hash, ops)[i], key) {
        var e := shards[i][IndexOf(shards[i], key)].entry;
        RemovalHasReason(cfg, hash, shards, op, key, e);
        assert false;
      }
    }
  }

  lemma LastsStored(cfg: Config, hash: Hash, ops: seq<Op>, key: string, p: nat)
    requires cfg.shardCount > 0 && Lasts(cfg, hash, ops, key, p)
    ensures p < |ops| && AcceptedPut(cfg, hash, ops[p], key)
  {}

  lemma DisplacedAt(cfg: Config, hash: Hash, ops: seq<Op>, key: string, n: nat, items: Lru)
    requires cfg.shardCount > 0 && n < |ops|
    requires items == After(cfg, hash, ops[..n])[ShardOf(cfg, hash, key)]
    ensures Displaced(cfg, hash, ops, key, n) <==> PushedOut(cfg, hash, items, ops[n], key)
  {}

  /** A lookup finds a response exactly when the last accepted store of the key stored it
      less than the time to live ago, no lookup in between saw it expired, and no store
      in between pushed it out. */
  lemma HitExactly(cfg: Config, hash: Hash, ops: seq<Op>, key: string, now: int, r: Response)
    requires cfg.shardCount > 0
    ensures Apply(cfg, hash, After(cfg, hash, ops), Op.Get(key, now)).1 == Found(r) <==>
              exists p: nat ::
                && Lasts(cfg, hash, ops, key, p)
                && ops[p].response == r && now < ops[p].now + cfg.ttl
  {
    hide After; hide HasKey; hide Lasts;
    var items := After(cfg, hash, ops)[ShardOf(cfg, hash, key)];
    var outcome := Apply(cfg, hash, After(cfg, hash, ops), Op.Get(key, now)).1;
    if HasKey(items, key) {
      var p := PresentLasts(cfg, hash, ops, key);
      EntryOfLasting(cfg, hash, ops, key, p);
      forall q: nat | Lasts(cfg, hash, ops, key, q)
        ensures q < |ops| && ops[q].Put?
        ensures ops[q].now + cfg.ttl == ops[p].now + cfg.ttl && ops[q].response == ops[p].response
      {
        EntryOfLasting(cfg, hash, ops, key, q);
      }
    } else {
      forall q: nat | Lasts(cfg, hash, ops, key, q) ensures false {
        LastsPresent(cfg, hash, ops, key, q);
      }
    }
  }

  /** An accepted store is found at once and until its time to live has passed, if nothing
      happens in between; a refused one changes nothing. */
  lemma StoreThenLookup(cfg: Config, hash: Hash, ops: seq<Op>, key: string, r: Response,
                        stored: int, now: int)
    requires cfg.shardCount > 0
    ensures var was, put := After(cfg, hash, ops), Op.Put(key, r, stored);
            var (shards, outcome) := Apply(cfg, hash, was, put);
            if Charge(key, r) <= Limit(cfg, hash(key) % cfg.shardCount) then
              && outcome == Accepted
              && (Apply(cfg, hash, shards, Op.Get(key, now)).1 == Found(r) <==> now < stored + cfg.ttl)
            else outcome == Refused && shards == was
  {
    hide Charge; hide Limit; hide Lasts; hide After;
    var op := Op.Put(key, r, stored);
    var all := ops + [op];
    var (shards, outcome) := Apply(cfg, hash, After(cfg, hash, ops), op);
    if AcceptedPut(cfg, hash, op, key) {
      assert After(cfg, hash, all) == shards by { AfterOneMore(cfg, hash, ops, op); }
      JustStored(cfg, hash, all, key);
      var p := |ops|;
      HitExactly(cfg, hash, all, key, now, r);
      forall q: nat | Lasts(cfg, hash, all, key, q) ensures q == p { SameStore(cfg, hash, all, key, p, q); }
    }
  }

  lemma SameStore(cfg: Config, hash: Hash, ops: seq<Op>, key: string, p: nat, q: nat)
    requires cfg.shardCount > 0 && Lasts(cfg, hash, ops, key, p) && Lasts(cfg, hash, ops, key, q)
    ensures p == q
  {
    hide AcceptedPut; hide Displaced; hide ThrownAway;
  }

  lemma AfterOneMore(cfg: Config, hash: Hash, ops: seq<Op>, op: Op)
    requires cfg.shardCount > 0
    ensures After(cfg, hash, ops + [op]) == Apply(cfg, hash, After(cfg, hash, ops), op).0
  {
    assert (ops + [op])[..|ops|] == ops;
  }

  // -------------------------------------------------------------------- sizes and shares

  /** What one more header adds to the charge, and what there is without any. */
  lemma ChargeExactly(key: string, r: Response, hs: seq<Header>, h: Header)
    ensures var most := 0xFFFF_FFFF_FFFF_FFFF;
            && Charge(key, r.(headers := [])) == Least(|key| + |r.reason| + |r.body|, most)
            && Charge(key, r.(headers := hs + [h]))
                 == Least(Charge(key, r.(headers := hs)) + |h.name| + |h.value|, most)
  {
    assert (hs + [h])[..|hs|] == hs;
  }

  function Least(a: nat, b: nat): nat { if a < b then a else b }

  /** The shares of the shards differ by at most one byte, the earlier ones having more. */
  lemma SharesAreEven(cfg: Config, i: nat, j: nat)
    requires cfg.Valid() && i <= j < cfg.shardCount
    ensures Limit(cfg, j) <= Limit(cfg, i) <= Limit(cfg, j) + 1
  {}
}
