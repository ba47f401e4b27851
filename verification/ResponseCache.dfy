/** The response cache: shards with a byte budget, each a list in order of use and an
    index into it. A list node is identified with its key and entry, so the index
    maps a key to the node it points at. Times are whole clock ticks. */
module Caching {
  import opened Bytes
  import opened Headers
  import opened Messages

  datatype Config = Config(
    ttl: int, maxEntryBytes: nat, maxBytes: nat, shardCount: nat, varyHeaders: seq<string>)
  {
    /** What the constructor insists on. */
    predicate Valid() {
      && ttl > 0 && 0 < maxEntryBytes <= maxBytes && 0 < shardCount <= maxBytes
      && maxEntryBytes <= maxBytes / shardCount
    }
  }

  datatype Entry = Entry(response: Response, expiresAt: int, charge: nat)

  datatype Item = Item(key: string, entry: Entry)

  /** Most recently used first. */
  type Lru = seq<Item>

  // ----------------------------------------------------------- charges and limits

  function HeaderBytes(hs: seq<Header>): nat {
    if hs == [] then 0 else HeaderBytes(hs[..|hs| - 1]) + |hs[|hs| - 1].name| + |hs[|hs| - 1].value|
  }

  /** The bytes of an entry, at most the largest `std::size_t`. */
  function Charge(key: string, r: Response): nat {
    var exact := |key| + |r.reason| + |r.body| + HeaderBytes(r.headers);
    if exact < SIZE_LIMIT then exact else SIZE_LIMIT - 1
  }

  lemma {:induction false} HeaderBytesGrow(hs: seq<Header>, i: nat)
    requires i <= |hs|
    ensures HeaderBytes(hs[..i]) <= HeaderBytes(hs)
    decreases |hs| - i
  {
    if i < |hs| {
      assert hs[..i + 1][..i] == hs[..i];
      HeaderBytesGrow(hs, i + 1);
    } else {
      assert hs[..i] == hs;
    }
  }

  /** The overflow-checked sum never wraps and is the exact sum capped. */
  method ComputeCharge(key: string, r: Response) returns (total: nat)
    requires |key| < SIZE_LIMIT && |r.reason| < SIZE_LIMIT && |r.body| < SIZE_LIMIT
    requires forall h | h in r.headers :: |h.name| < SIZE_LIMIT && |h.value| < SIZE_LIMIT
    ensures total == Charge(key, r) < SIZE_LIMIT
  {
    var max := SIZE_LIMIT - 1;
    if |key| > max - |r.reason| || |r.body| > max - |key| - |r.reason| { return max; }
    total := |key| + |r.reason| + |r.body|;
    for i := 0 to |r.headers|
      invariant total == |key| + |r.reason| + |r.body| + HeaderBytes(r.headers[..i]) < SIZE_LIMIT
    {
      var h := r.headers[i];
      assert r.headers[..i + 1][..i] == r.headers[..i];
      if |h.name| > max - total || |h.value| > max - total - |h.name| {
        HeaderBytesGrow(r.headers, i + 1);
        return max;
      }
      total := total + |h.name| + |h.value|;
    }
    assert r.headers[..|r.headers|] == r.headers;
  }

  /** The byte limit of shard `i`: an even share, and the remainder one byte each. */
  function Limit(cfg: Config, i: nat): nat
    requires cfg.shardCount > 0
  {
    cfg.maxBytes / cfg.shardCount + if i < cfg.maxBytes % cfg.shardCount then 1 else 0
  }

  function SumOfLimits(cfg: Config, n: nat): nat
    requires cfg.shardCount > 0
  {
    if n == 0 then 0 else SumOfLimits(cfg, n - 1) + Limit(cfg, n - 1)
  }

  lemma {:induction false} SumOfLimitsIs(cfg: Config, n: nat)
    requires cfg.shardCount > 0
    ensures SumOfLimits(cfg, n) == n * (cfg.maxBytes / cfg.shardCount)
              + if n < cfg.maxBytes % cfg.shardCount then n else cfg.maxBytes % cfg.shardCount
  {
    if n > 0 {
      SumOfLimitsIs(cfg, n - 1);
      OneMoreTime(n, cfg.maxBytes / cfg.shardCount);
    }
  }

  lemma OneMoreTime(n: nat, share: nat)
    requires n > 0
    ensures n * share == (n - 1) * share + share
  {}

  /** No byte of the budget is lost or handed out twice. */
  lemma LimitsAreTheBudget(cfg: Config)
    requires cfg.Valid()
    ensures SumOfLimits(cfg, cfg.shardCount) == cfg.maxBytes
    ensures forall i: nat :: cfg.maxEntryBytes <= Limit(cfg, i)
  {
    SumOfLimitsIs(cfg, cfg.shardCount);
    Euclid(cfg.maxBytes, cfg.shardCount);
  }

  lemma Euclid(n: nat, d: nat)
    requires d > 0
    ensures d * (n / d) + n % d == n
  {}

  // ------------------------------------------------------------- one shard's list

  function Weight(items: Lru): nat {
    if items == [] then 0 else items[0].entry.charge + Weight(items[1..])
  }

  predicate DistinctKeys(items: Lru) {
    forall i, j | 0 <= i < j < |items| :: items[i].key != items[j].key
  }

  predicate HasKey(items: Lru, key: string) { exists i | 0 <= i < |items| :: items[i].key == key }

  function Without(items: Lru, key: string): (r: Lru)
    ensures !HasKey(r, key)
    ensures forall x | x in r :: x in items
    ensures DistinctKeys(items) ==> DistinctKeys(r)
  {
    if items == [] then []
    else if items[0].key == key then Without(items[1..], key)
    else
      var others := Without(items[1..], key);
      assert forall i | 0 <= i < |others| :: others[i] in items[1..];
      [items[0]] + others
  }

  lemma {:induction false} WithoutAbsent(items: Lru, key: string)
    requires !HasKey(items, key)
    ensures Without(items, key) == items
  {
    if items != [] {
      assert items[0].key != key;
      forall i | 0 <= i < |items[1..]| ensures items[1..][i].key != key { assert items[i + 1].key != key; }
      WithoutAbsent(items[1..], key);
    }
  }

  /** Erasing the node at position `p` is erasing its key. */
  lemma {:induction false} EraseIsWithout(items: Lru, p: nat)
    requires DistinctKeys(items) && p < |items|
    ensures Without(items, items[p].key) == items[..p] + items[p + 1..]
    ensures Weight(items) == Weight(items[..p] + items[p + 1..]) + items[p].entry.charge
  {
    if p == 0 {
      WithoutAbsent(items[1..], items[0].key);
    } else {
      EraseIsWithout(items[1..], p - 1);
      assert items[..p] + items[p + 1..] == [items[0]] + (items[1..][..p - 1] + items[1..][p..]);
    }
  }

  lemma {:induction false} WeightOfPrefix(items: Lru, k: nat)
    requires k <= |items|
    ensures Weight(items[..k]) <= Weight(items)
  {
    if k > 0 {
      assert items[..k][1..] == items[1..][..k - 1];
      WeightOfPrefix(items[1..], k - 1);
    }
  }

  /** How many of the most recently used items fit in `room`. */
  function Fitting(items: Lru, room: nat): (k: nat)
    ensures k <= |items| && Weight(items[..k]) <= room
    ensures forall j | k < j <= |items| :: Weight(items[..j]) > room
  {
    if Weight(items) <= room then assert items[..|items|] == items; |items|
    else
      var n := |items| - 1;
      var k := Fitting(items[..n], room);
      assert forall j | 0 <= j <= n :: items[..n][..j] == items[..j];
      assert items[..n + 1] == items;
      k
  }

  /** The list that a store leaves: the new item, then the longest run of most
      recently used other items that fits beside it. */
  function Stored(items: Lru, limit: nat, item: Item): Lru
    requires item.entry.charge <= limit
  {
    var others := Without(items, item.key);
    [item] + others[..Fitting(others, limit - item.entry.charge)]
  }

  /** The position of a key, or the length of the list. */
  function IndexOf(items: Lru, key: string): (p: nat)
    ensures p <= |items|
    ensures p < |items| <==> HasKey(items, key)
    ensures p < |items| ==> items[p].key == key
  {
    if items == [] then 0
    else if items[0].key == key then 0
    else
      var p := IndexOf(items[1..], key);
      assert forall i | 0 < i < |items| :: items[i] == items[1..][i - 1];
      assert p < |items[1..]| ==> items[p + 1].key == key;
      p + 1
  }

  /** The list after a lookup: an expired item goes, a live one moves to the front. */
  function Touched(items: Lru, key: string, now: int): Lru {
    var p := IndexOf(items, key);
    if p == |items| then items
    else if items[p].entry.expiresAt <= now then Without(items, key)
    else [items[p]] + Without(items, key)
  }

  function Answer(items: Lru, key: string, now: int): Option<Response> {
    var p := IndexOf(items, key);
    if p == |items| || items[p].entry.expiresAt <= now then None
    else Some(items[p].entry.response)
  }

  // ------------------------------------------------------------------ the cache

  datatype Op =
    | Get(key: string, now: int)
    | Put(key: string, response: Response, now: int)

  datatype Outcome = Found(response: Response) | Missing | Accepted | Refused

  type Hash = string -> nat

  function ShardOf(cfg: Config, hash: Hash, key: string): (i: nat)
    requires cfg.shardCount > 0
    ensures i < cfg.shardCount
  {
    hash(key) % cfg.shardCount
  }

  function ItemOf(cfg: Config, key: string, r: Response, now: int): Item {
    Item(key, Entry(r, now + cfg.ttl, Charge(key, r)))
  }

  predicate Fits(cfg: Config, hash: Hash, key: string, r: Response)
    requires cfg.shardCount > 0
  {
    Charge(key, r) <= Limit(cfg, ShardOf(cfg, hash, key))
  }

  function Apply(cfg: Config, hash: Hash, shards: seq<Lru>, op: Op): (r: (seq<Lru>, Outcome))
    requires cfg.shardCount > 0 && |shards| == cfg.shardCount
    ensures |r.0| == cfg.shardCount
  {
    var i := ShardOf(cfg, hash, op.key);
    match op
    case Get(key, now) =>
      (shards[i := Touched(shards[i], key, now)],
       match Answer(shards[i], key, now) case Some(r) => Found(r) case None => Missing)
    case Put(key, response, now) =>
      if !Fits(cfg, hash, key, response) then (shards, Refused)
      else
        (shards[i := Stored(shards[i], Limit(cfg, i), ItemOf(cfg, key, response, now))], Accepted)
  }

  /** The cache after a run from the empty one. */
  function After(cfg: Config, hash: Hash, ops: seq<Op>): (shards: seq<Lru>)
    requires cfg.shardCount > 0
    ensures |shards| == cfg.shardCount
  {
    if ops == [] then seq(cfg.shardCount, _ => [])
    else Apply(cfg, hash, After(cfg, hash, ops[..|ops| - 1]), ops[|ops| - 1]).0
  }

  // --------------------------------------------------- what a run should remember

  /** The entry of the last store of `key` that was accepted. */
  function LastStored(cfg: Config, hash: Hash, ops: seq<Op>, key: string): Option<Entry>
    requires cfg.shardCount > 0
  {
    if ops == [] then None else
    var op := ops[|ops| - 1];
    if op.Put? && op.key == key && Fits(cfg, hash, key, op.response)
    then Some(ItemOf(cfg, key, op.response, op.now).entry)
    else LastStored(cfg, hash, ops[..|ops| - 1], key)
  }

  /** One more than the index of the last lookup or accepted store of `key`. */
  function LastUse(cfg: Config, hash: Hash, ops: seq<Op>, key: string): (n: nat)
    requires cfg.shardCount > 0
    ensures n <= |ops|
  {
    if ops == [] then 0 else
    var op := ops[|ops| - 1];
    if op.key == key && (op.Get? || Fits(cfg, hash, key, op.response)) then |ops|
    else LastUse(cfg, hash, ops[..|ops| - 1], key)
  }

  ghost predicate Remembers(cfg: Config, hash: Hash, ops: seq<Op>, i: nat, items: Lru)
    requires cfg.shardCount > 0
  {
    forall p | 0 <= p < |items| ::
      && ShardOf(cfg, hash, items[p].key) == i
      && LastStored(cfg, hash, ops, items[p].key) == Some(items[p].entry)
  }

  ghost predicate InOrderOfUse(cfg: Config, hash: Hash, ops: seq<Op>, items: Lru)
    requires cfg.shardCount > 0
  {
    forall p, q | 0 <= p < q < |items| ::
      LastUse(cfg, hash, ops, items[p].key) > LastUse(cfg, hash, ops, items[q].key)
  }

  /** The list of one shard after a run. */
  ghost predicate Faithful(cfg: Config, hash: Hash, ops: seq<Op>, i: nat, items: Lru)
    requires cfg.shardCount > 0
  {
    && Remembers(cfg, hash, ops, i, items) && InOrderOfUse(cfg, hash, ops, items)
    && DistinctKeys(items) && Weight(items) <= Limit(cfg, i)
  }

  /** An operation on another key changes nothing that is remembered of `key`. */
  lemma OtherKey(cfg: Config, hash: Hash, ops: seq<Op>, op: Op, key: string)
    requires cfg.shardCount > 0 && key != op.key
    ensures LastStored(cfg, hash, ops + [op], key) == LastStored(cfg, hash, ops, key)
    ensures LastUse(cfg, hash, ops + [op], key) == LastUse(cfg, hash, ops, key)
  {
    assert (ops + [op])[..|ops|] == ops;
  }

  lemma KeepOthers(cfg: Config, hash: Hash, ops: seq<Op>, op: Op, i: nat, items: Lru)
    requires cfg.shardCount > 0 && Faithful(cfg, hash, ops, i, items) && !HasKey(items, op.key)
    ensures Faithful(cfg, hash, ops + [op], i, items)
    ensures forall p | 0 <= p < |items| :: LastUse(cfg, hash, ops + [op], items[p].key) <= |ops|
  {
    hide LastStored; hide LastUse; hide Limit; hide Weight;
    forall p | 0 <= p < |items|
      ensures LastStored(cfg, hash, ops + [op], items[p].key) == LastStored(cfg, hash, ops, items[p].key)
      ensures LastUse(cfg, hash, ops + [op], items[p].key) == LastUse(cfg, hash, ops, items[p].key)
    {
      OtherKey(cfg, hash, ops, op, items[p].key);
    }
  }

  lemma KeepErased(cfg: Config, hash: Hash, ops: seq<Op>, i: nat, items: Lru, key: string)
    requires cfg.shardCount > 0 && Faithful(cfg, hash, ops, i, items)
    ensures Faithful(cfg, hash, ops, i, Without(items, key))
    ensures var p := IndexOf(items, key);
            p < |items| ==> Weight(items) == Weight(Without(items, key)) + items[p].entry.charge
  {
    hide LastStored; hide LastUse; hide Limit; hide Weight;
    var p := IndexOf(items, key);
    if p < |items| {
      EraseIsWithout(items, p);
      var others := Without(items, key);
      forall q | 0 <= q < |others|
        ensures others[q] == items[if q < p then q else q + 1]
      {}
    } else {
      WithoutAbsent(items, key);
    }
  }

  lemma KeepPrefix(cfg: Config, hash: Hash, ops: seq<Op>, i: nat, items: Lru, k: nat)
    requires cfg.shardCount > 0 && Faithful(cfg, hash, ops, i, items) && k <= |items|
    ensures Faithful(cfg, hash, ops, i, items[..k])
  {
    WeightOfPrefix(items, k);
  }

  lemma KeepFront(cfg: Config, hash: Hash, ops: seq<Op>, i: nat, item: Item, items: Lru)
    requires cfg.shardCount > 0 && Faithful(cfg, hash, ops, i, items) && !HasKey(items, item.key)
    requires Remembers(cfg, hash, ops, i, [item])
    requires LastUse(cfg, hash, ops, item.key) == |ops|
    requires forall p | 0 <= p < |items| :: LastUse(cfg, hash, ops, items[p].key) < |ops|
    requires item.entry.charge + Weight(items) <= Limit(cfg, i)
    ensures Faithful(cfg, hash, ops, i, [item] + items)
  {
    hide LastStored; hide LastUse; hide Limit;
    var all := [item] + items;
    assert [item][0] == item;
    assert Weight(all) == item.entry.charge + Weight(items) by { assert all[1..] == items; }
    hide Weight; hide HasKey;
    assert Remembers(cfg, hash, ops, i, all);
    assert InOrderOfUse(cfg, hash, ops, all) by { hide Remembers; hide DistinctKeys; }
    assert DistinctKeys(all) by {
      hide Remembers; hide InOrderOfUse;
      FrontIsNew(item, items);
    }
  }

  lemma FrontIsNew(item: Item, items: Lru)
    requires DistinctKeys(items) && !HasKey(items, item.key)
    ensures DistinctKeys([item] + items)
  {}

  lemma FaithfulGet(cfg: Config, hash: Hash, ops: seq<Op>, op: Op, i: nat, items: Lru)
    requires cfg.shardCount > 0 && Faithful(cfg, hash, ops, i, items)
    requires op.Get? && ShardOf(cfg, hash, op.key) == i
    ensures Faithful(cfg, hash, ops + [op], i, Touched(items, op.key, op.now))
  {
    hide Faithful; hide Limit; hide Weight; hide LastStored; hide LastUse;
    var p, others := IndexOf(items, op.key), Without(items, op.key);
    KeepErased(cfg, hash, ops, i, items, op.key);
    KeepOthers(cfg, hash, ops, op, i, others);
    if p == |items| {
      WithoutAbsent(items, op.key);
    } else if op.now < items[p].entry.expiresAt {
      FaithfulFacts(cfg, hash, ops, i, items);
      UseOf(cfg, hash, ops, op);
      KeepFront(cfg, hash, ops + [op], i, items[p], others);
    }
  }

  lemma FaithfulFacts(cfg: Config, hash: Hash, ops: seq<Op>, i: nat, items: Lru)
    requires cfg.shardCount > 0 && Faithful(cfg, hash, ops, i, items)
    ensures Remembers(cfg, hash, ops, i, items) && Weight(items) <= Limit(cfg, i) && DistinctKeys(items)
  {}

  lemma UseOf(cfg: Config, hash: Hash, ops: seq<Op>, op: Op)
    requires cfg.shardCount > 0
    ensures op.Get? ==> LastUse(cfg, hash, ops + [op], op.key) == |ops| + 1
    ensures op.Get? ==>
              LastStored(cfg, hash, ops + [op], op.key) == LastStored(cfg, hash, ops, op.key)
    ensures op.Put? && Fits(cfg, hash, op.key, op.response) ==>
              && LastUse(cfg, hash, ops + [op], op.key) == |ops| + 1
              && LastStored(cfg, hash, ops + [op], op.key)
                   == Some(ItemOf(cfg, op.key, op.response, op.now).entry)
    ensures op.Put? && !Fits(cfg, hash, op.key, op.response) ==>
              forall key | key == op.key ::
                && LastUse(cfg, hash, ops + [op], key) == LastUse(cfg, hash, ops, key)
                && LastStored(cfg, hash, ops + [op], key) == LastStored(cfg, hash, ops, key)
  {
    assert (ops + [op])[..|ops|] == ops;
  }

  lemma FaithfulPut(cfg: Config, hash: Hash, ops: seq<Op>, op: Op, i: nat, items: Lru)
    requires cfg.shardCount > 0 && Faithful(cfg, hash, ops, i, items)
    requires op.Put? && ShardOf(cfg, hash, op.key) == i && Fits(cfg, hash, op.key, op.response)
    ensures Faithful(cfg, hash, ops + [op], i,
                     Stored(items, Limit(cfg, i), ItemOf(cfg, op.key, op.response, op.now)))
  {
    hide Faithful; hide Limit; hide Weight; hide LastStored; hide LastUse; hide Charge;
    var item := ItemOf(cfg, op.key, op.response, op.now);
    var others := Without(items, op.key);
    var k := Fitting(others, Limit(cfg, i) - item.entry.charge);
    KeepErased(cfg, hash, ops, i, items, op.key);
    KeepPrefix(cfg, hash, ops, i, others, k);
    KeepOthers(cfg, hash, ops, op, i, others[..k]);
    UseOf(cfg, hash, ops, op);
    KeepFront(cfg, hash, ops + [op], i, item, others[..k]);
  }

  /** A refused store leaves the memory of every key as it was. */
  lemma FaithfulRefused(cfg: Config, hash: Hash, ops: seq<Op>, op: Op, i: nat, items: Lru)
    requires cfg.shardCount > 0 && Faithful(cfg, hash, ops, i, items)
    requires op.Put? && !Fits(cfg, hash, op.key, op.response)
    ensures Faithful(cfg, hash, ops + [op], i, items)
  {
    hide LastStored; hide LastUse; hide Limit; hide Weight; hide Fits;
    forall p | 0 <= p < |items|
      ensures LastStored(cfg, hash, ops + [op], items[p].key) == LastStored(cfg, hash, ops, items[p].key)
      ensures LastUse(cfg, hash, ops + [op], items[p].key) == LastUse(cfg, hash, ops, items[p].key)
    {
      UseOf(cfg, hash, ops, op);
      if items[p].key != op.key { OtherKey(cfg, hash, ops, op, items[p].key); }
    }
  }

  /** After every run every shard holds last-stored entries only, in order of last
      use, each key once, and within the shard's limit. */
  lemma {:induction false} RunIsFaithful(cfg: Config, hash: Hash, ops: seq<Op>, i: nat)
    requires cfg.shardCount > 0 && i < cfg.shardCount
    ensures Faithful(cfg, hash, ops, i, After(cfg, hash, ops)[i])
  {
    hide Limit; hide LastStored; hide LastUse;
    if ops != [] {
      hide Faithful; hide Touched; hide Stored; hide Fits;
      var before, op := ops[..|ops| - 1], ops[|ops| - 1];
      assert before + [op] == ops;
      RunIsFaithful(cfg, hash, before, i);
      var items := After(cfg, hash, before)[i];
      if op.Put? && !Fits(cfg, hash, op.key, op.response) {
        FaithfulRefused(cfg, hash, before, op, i, items);
      } else if ShardOf(cfg, hash, op.key) != i {
        FaithfulFacts(cfg, hash, before, i, items);
        KeepOthers(cfg, hash, before, op, i, items);
      } else if op.Get? {
        FaithfulGet(cfg, hash, before, op, i, items);
      } else {
        FaithfulPut(cfg, hash, before, op, i, items);
      }
    }
  }

  /** A hit returns the last accepted store of that key, and only before its expiry. */
  lemma HitIsLastStored(cfg: Config, hash: Hash, ops: seq<Op>, key: string, now: int)
    requires cfg.shardCount > 0
    ensures var outcome := Apply(cfg, hash, After(cfg, hash, ops), Op.Get(key, now)).1;
            outcome.Found? ==>
              exists e :: LastStored(cfg, hash, ops, key) == Some(e)
                          && e.response == outcome.response && now < e.expiresAt
  {
    hide Faithful; hide LastStored; hide Touched; hide LastUse;
    var i := ShardOf(cfg, hash, key);
    var items := After(cfg, hash, ops)[i];
    RunIsFaithful(cfg, hash, ops, i);
    FaithfulFacts(cfg, hash, ops, i, items);
    var p := IndexOf(items, key);
    if p < |items| && now < items[p].entry.expiresAt {
      assert LastStored(cfg, hash, ops, key) == Some(items[p].entry);
    }
  }

  /** What `LastStored` reads off a run: an accepted store of this key at some
      position, and no accepted store of it later. */
  lemma {:induction false} LastStoredIsLast(
      cfg: Config, hash: Hash, ops: seq<Op>, key: string) returns (at: nat)
    requires cfg.shardCount > 0 && LastStored(cfg, hash, ops, key).Some?
    ensures at < |ops| && ops[at].Put? && ops[at].key == key
    ensures LastStored(cfg, hash, ops, key)
              == Some(ItemOf(cfg, key, ops[at].response, ops[at].now).entry)
    ensures forall j | at < j < |ops| && ops[j].Put? && ops[j].key == key ::
              !Fits(cfg, hash, key, ops[j].response)
  {
    hide Fits;
    var op := ops[|ops| - 1];
    if op.Put? && op.key == key && Fits(cfg, hash, key, op.response) {
      at := |ops| - 1;
    } else {
      at := LastStoredIsLast(cfg, hash, ops[..|ops| - 1], key);
      assert forall j | 0 <= j < |ops| - 1 :: ops[..|ops| - 1][j] == ops[j];
    }
  }

  /** The bytes of all shards together. */
  function Load(shards: seq<Lru>, n: nat): nat
    requires n <= |shards|
  {
    if n == 0 then 0 else Load(shards, n - 1) + Weight(shards[n - 1])
  }

  lemma {:induction false} LoadWithinLimits(cfg: Config, hash: Hash, ops: seq<Op>, n: nat)
    requires cfg.shardCount > 0 && n <= cfg.shardCount
    ensures Load(After(cfg, hash, ops), n) <= SumOfLimits(cfg, n)
  {
    hide After; hide Limit;
    if n > 0 {
      LoadWithinLimits(cfg, hash, ops, n - 1);
      RunIsFaithful(cfg, hash, ops, n - 1);
      FaithfulFacts(cfg, hash, ops, n - 1, After(cfg, hash, ops)[n - 1]);
    }
  }

  /** The cache never holds more than its byte budget. */
  lemma WithinBudget(cfg: Config, hash: Hash, ops: seq<Op>)
    requires cfg.Valid()
    ensures Load(After(cfg, hash, ops), cfg.shardCount) <= cfg.maxBytes
  {
    LoadWithinLimits(cfg, hash, ops, cfg.shardCount);
    LimitsAreTheBudget(cfg);
  }

  // ---------------------------------------------------------- misses have a reason

  /** A lookup of `key` that came at or after the expiry of its entry. */
  predicate SawExpiry(op: Op, key: string, e: Entry) {
    op.Get? && op.key == key && e.expiresAt <= op.now
  }

  /** A store of another key beside which `key` and the items used after it did not
      fit in the shard. */
  ghost predicate PushedOut(cfg: Config, hash: Hash, items: Lru, op: Op, key: string)
    requires cfg.shardCount > 0
  {
    && op.Put? && op.key != key && ShardOf(cfg, hash, op.key) == ShardOf(cfg, hash, key)
    && Fits(cfg, hash, op.key, op.response)
    && var others := Without(items, op.key);
    var p := IndexOf(others, key);
    && p < |others|
    && Weight(others[..p + 1]) + Charge(op.key, op.response)
         > Limit(cfg, ShardOf(cfg, hash, key))
  }

  lemma {:induction false} HasKeyWithout(items: Lru, other: string, key: string)
    requires other != key
    ensures HasKey(Without(items, other), key) <==> HasKey(items, key)
  {
    if items != [] {
      HasKeyWithout(items[1..], other, key);
      HasKeyCons(items[0], items[1..], key);
      assert items == [items[0]] + items[1..];
      if items[0].key != other { HasKeyCons(items[0], Without(items[1..], other), key); }
    }
  }

  lemma HasKeyCons(item: Item, items: Lru, key: string)
    ensures HasKey([item] + items, key) <==> item.key == key || HasKey(items, key)
  {
    var all := [item] + items;
    if item.key == key { assert all[0].key == key; }
    if HasKey(items, key) {
      var i :| 0 <= i < |items| && items[i].key == key;
      assert all[i + 1].key == key;
    }
    if HasKey(all, key) {
      var i :| 0 <= i < |all| && all[i].key == key;
      assert i > 0 ==> items[i - 1].key == key;
    }
  }

  /** The operation that takes a key out of its shard. */
  lemma RemovalHasReason(cfg: Config, hash: Hash, shards: seq<Lru>, op: Op, key: string, e: Entry)
    requires cfg.shardCount > 0 && |shards| == cfg.shardCount
    requires var items := shards[ShardOf(cfg, hash, key)];
             HasKey(items, key) && items[IndexOf(items, key)].entry == e
    requires !HasKey(Apply(cfg, hash, shards, op).0[ShardOf(cfg, hash, key)], key)
    ensures SawExpiry(op, key, e)
            || PushedOut(cfg, hash, shards[ShardOf(cfg, hash, key)], op, key)
  {
    hide Limit; hide Charge; hide Weight; hide HasKey;
    var i := ShardOf(cfg, hash, key);
    var items := shards[i];
    assert ShardOf(cfg, hash, op.key) == i;
    var others := Without(items, op.key);
    if op.key != key { HasKeyWithout(items, op.key, key); }
    match op
    case Get(k, now) =>
      var p := IndexOf(items, k);
      if p < |items| { HasKeyCons(items[p], others, key); }
    case Put(k, response, now) =>
      var item := ItemOf(cfg, k, response, now);
      var n := Fitting(others, Limit(cfg, i) - item.entry.charge);
      HasKeyCons(item, others[..n], key);
      var p := IndexOf(others, key);
      if p < n { PrefixHasKey(others, n, p); }
  }

  lemma PrefixHasKey(items: Lru, n: nat, p: nat)
    requires p < n <= |items|
    ensures HasKey(items[..n], items[p].key)
  {
    assert items[..n][p].key == items[p].key;
  }

  lemma PrefixLacksKey(items: Lru, n: nat, key: string)
    requires n <= |items| && !HasKey(items, key)
    ensures !HasKey(items[..n], key)
  {}

  /** No needless miss: if the last stored entry of a key is not in the cache, then
      since that store a lookup saw it expired, or a store pushed it out because it
      and everything used after it did not fit beside the new entry. */
  lemma {:induction false} MissHasReason(
      cfg: Config, hash: Hash, ops: seq<Op>, key: string, e: Entry) returns (j: nat)
    requires cfg.shardCount > 0 && LastStored(cfg, hash, ops, key) == Some(e)
    requires !HasKey(After(cfg, hash, ops)[ShardOf(cfg, hash, key)], key)
    ensures j < |ops| && LastStored(cfg, hash, ops[..j], key) == Some(e)
    ensures SawExpiry(ops[j], key, e)
            || PushedOut(cfg, hash, After(cfg, hash, ops[..j])[ShardOf(cfg, hash, key)], ops[j], key)
  {
    hide Limit; hide Charge; hide HasKey; hide Weight; hide PushedOut;
    var n := |ops| - 1;
    var before, op, i := ops[..n], ops[n], ShardOf(cfg, hash, key);
    if op.Put? && op.key == key && Fits(cfg, hash, key, op.response) {
      var item := ItemOf(cfg, key, op.response, op.now);
      var others := Without(After(cfg, hash, before)[i], key);
      HasKeyCons(item, others[..Fitting(others, Limit(cfg, i) - item.entry.charge)], key);
      assert false;
    }
    var items := After(cfg, hash, before)[i];
    if HasKey(items, key) {
      j := n;
      RunIsFaithful(cfg, hash, before, i);
      FaithfulFacts(cfg, hash, before, i, items);
      RemovalHasReason(cfg, hash, After(cfg, hash, before), op, key, e);
    } else {
      j := MissHasReason(cfg, hash, before, key, e);
      assert before[..j] == ops[..j];
    }
  }

  // ------------------------------------------------------------------- the object

  datatype Shard = Shard(lru: Lru, index: map<string, Item>, currentBytes: nat, maxBytes: nat)
  {
    /** List and index agree, and the byte counter is the sum of the charges. */
    ghost predicate Valid() {
      DistinctKeys(lru) && Agree(lru, index) && currentBytes == Weight(lru) <= maxBytes
    }
  }

  lemma IndexFinds(s: Shard, key: string)
    requires s.Valid()
    ensures key in s.index <==> HasKey(s.lru, key)
    ensures key in s.index ==> s.index[key] == s.lru[IndexOf(s.lru, key)]
  {
    hide Weight;
    if HasKey(s.lru, key) { assert s.lru[IndexOf(s.lru, key)] in s.lru; }
  }

  /** Each listed node is indexed under its key, and each indexed key is listed. */
  ghost predicate Agree(lru: Lru, index: map<string, Item>) {
    && (forall x | x in lru :: x.key in index && index[x.key] == x)
    && (forall k | k in index :: HasKey(lru, k))
  }

  lemma MemberHasKey(items: Lru, x: Item)
    requires x in items
    ensures HasKey(items, x.key)
  {
    var p :| 0 <= p < |items| && items[p] == x;
  }

  lemma AgreeErase(lru: Lru, index: map<string, Item>, key: string)
    requires Agree(lru, index)
    ensures Agree(Without(lru, key), index - {key})
  {
    hide HasKey;
    forall x | x in Without(lru, key) ensures x.key in index - {key} && index[x.key] == x {
      MemberHasKey(Without(lru, key), x);
    }
    forall k | k in index - {key} ensures HasKey(Without(lru, key), k) {
      HasKeyWithout(lru, key, k);
    }
  }

  lemma AgreeCons(lru: Lru, index: map<string, Item>, item: Item)
    requires Agree(lru, index) && !HasKey(lru, item.key)
    ensures Agree([item] + lru, index[item.key := item])
  {
    hide HasKey;
    forall x | x in [item] + lru
      ensures x.key in index[item.key := item] && index[item.key := item][x.key] == x
    {
      if x != item { MemberHasKey(lru, x); }
    }
    forall k | k in index[item.key := item] ensures HasKey([item] + lru, k) {
      HasKeyCons(item, lru, k);
    }
  }

  /** A shard without the node at position `p`. */
  function Erased(s: Shard, p: nat): Shard
    requires p < |s.lru| && s.lru[p].entry.charge <= s.currentBytes
  {
    Shard(s.lru[..p] + s.lru[p + 1..], s.index - {s.lru[p].key},
          s.currentBytes - s.lru[p].entry.charge, s.maxBytes)
  }

  lemma ErasedIsValid(s: Shard, p: nat)
    requires s.Valid() && p < |s.lru|
    ensures s.lru[p].entry.charge <= s.currentBytes
    ensures Erased(s, p).Valid() && Erased(s, p).lru == Without(s.lru, s.lru[p].key)
  {
    EraseIsWithout(s.lru, p);
    hide Weight; hide Agree; hide DistinctKeys;
    AgreeErase(s.lru, s.index, s.lru[p].key);
  }

  lemma SpliceIsValid(s: Shard, p: nat)
    requires s.Valid() && p < |s.lru|
    ensures s.(lru := [s.lru[p]] + Without(s.lru, s.lru[p].key)).Valid()
  {
    EraseIsWithout(s.lru, p);
    var item := s.lru[p];
    var others := Without(s.lru, item.key);
    assert Weight([item] + others) == Weight(s.lru) by { assert ([item] + others)[1..] == others; }
    assert s.index == (s.index - {item.key})[item.key := item];
    hide Weight; hide Agree; hide DistinctKeys;
    AgreeErase(s.lru, s.index, item.key);
    AgreeCons(others, s.index - {item.key}, item);
    FrontIsNew(item, others);
  }

  lemma EmplaceIsValid(s: Shard, item: Item)
    requires s.Valid() && !HasKey(s.lru, item.key)
    requires s.currentBytes + item.entry.charge <= s.maxBytes
    ensures Shard([item] + s.lru, s.index[item.key := item],
                  s.currentBytes + item.entry.charge, s.maxBytes).Valid()
  {
    assert ([item] + s.lru)[1..] == s.lru;
    assert Weight([item] + s.lru) == item.entry.charge + Weight(s.lru);
    hide Weight; hide Agree; hide DistinctKeys;
    FrontIsNew(item, s.lru);
    AgreeCons(s.lru, s.index, item);
  }

  class ResponseCache {
    const config: Config
    const hash: Hash
    var shards: seq<Shard>

    ghost predicate Valid()
      reads this
    {
      && config.Valid() && |shards| == config.shardCount
      && forall i | 0 <= i < |shards| :: shards[i].Valid() && shards[i].maxBytes == Limit(config, i)
    }

    ghost function Lists(): (r: seq<Lru>)
      reads this
      ensures |r| == |shards|
    {
      seq(|shards|, i requires 0 <= i < |shards| reads this => shards[i].lru)
    }

    constructor (cfg: Config, h: Hash)
      requires cfg.Valid()
      ensures config == cfg && hash == h && Valid()
      ensures Lists() == After(cfg, h, [])
    {
      config, hash := cfg, h;
      shards := seq(cfg.shardCount, i requires 0 <= i => Shard([], map[], 0, Limit(cfg, i)));
    }

    /** Unlinks one node from the list, the index and the byte count. */
    method Erase(i: nat, item: Item)
      requires i < |shards| && shards[i].Valid() && item in shards[i].lru
      modifies this
      ensures |shards| == |old(shards)| && shards == old(shards)[i := shards[i]]
      ensures shards[i].Valid()
      ensures shards[i].lru == Without(old(shards)[i].lru, item.key)
      ensures shards[i].maxBytes == old(shards)[i].maxBytes
      ensures shards[i].currentBytes == old(shards)[i].currentBytes - item.entry.charge
    {
      hide Shard.Valid; hide Without;
      var s := shards[i];
      var p :| 0 <= p < |s.lru| && s.lru[p] == item;
      ErasedIsValid(s, p);
      shards := shards[i := Erased(s, p)];
    }

    method Get(key: string, now: int) returns (found: Option<Response>)
      requires Valid()
      modifies this
      ensures Lists() == Apply(config, hash, old(Lists()), Op.Get(key, now)).0
      ensures Apply(config, hash, old(Lists()), Op.Get(key, now)).1
                == match found case Some(r) => Found(r) case None => Missing
      ensures Valid()
    {
      hide Weight; hide Limit; hide DistinctKeys; hide HasKey;
      var i := ShardOf(config, hash, key);
      var s := shards[i];
      IndexFinds(s, key);
      if key !in s.index {
        assert Lists() == old(Lists())[i := s.lru];
        return None;
      }
      var item := s.index[key];
      if item.entry.expiresAt <= now {
        Erase(i, item);
        assert Lists() == old(Lists())[i := shards[i].lru];
        return None;
      }
      SpliceIsValid(s, IndexOf(s.lru, key));
      shards := shards[i := s.(lru := [item] + Without(s.lru, key))];
      assert Lists() == old(Lists())[i := shards[i].lru];
      return Some(shards[i].lru[0].entry.response);
    }

    method Put(key: string, response: Response, now: int) returns (stored: bool)
      requires Valid()
      modifies this
      ensures Lists() == Apply(config, hash, old(Lists()), Op.Put(key, response, now)).0
      ensures Apply(config, hash, old(Lists()), Op.Put(key, response, now)).1
                == if stored then Accepted else Refused
      ensures Valid()
    {
      hide Weight; hide Limit; hide DistinctKeys; hide HasKey; hide Charge; hide Agree;
      hide Without; hide Fitting;
      var charge := Charge(key, response);
      var i := ShardOf(config, hash, key);
      if charge > shards[i].maxBytes { return false; }
      IndexFinds(shards[i], key);
      ghost var others := Without(shards[i].lru, key);
      if key in shards[i].index {
        Erase(i, shards[i].index[key]);
      } else {
        WithoutAbsent(shards[i].lru, key);
      }
      EvictUntil(i, charge);
      var item := Item(key, Entry(response, now + config.ttl, charge));
      var s := shards[i];
      PrefixLacksKey(others, |s.lru|, key);
      EmplaceIsValid(s, item);
      shards := shards[i := Shard([item] + s.lru, s.index[key := item],
                                  s.currentBytes + charge, s.maxBytes)];
      assert Lists() == old(Lists())[i := shards[i].lru];
      return true;
    }

    /** The eviction loop: drops from the back until the new entry fits. */
    method EvictUntil(i: nat, charge: nat)
      requires i < |shards| && shards[i].Valid() && charge <= shards[i].maxBytes
      modifies this
      ensures |shards| == |old(shards)| && shards == old(shards)[i := shards[i]]
      ensures shards[i].Valid()
      ensures shards[i].maxBytes == old(shards)[i].maxBytes
      ensures shards[i].currentBytes + charge <= shards[i].maxBytes
      ensures var items := old(shards)[i].lru;
              shards[i].lru == items[..Fitting(items, shards[i].maxBytes - charge)]
    {
      hide DistinctKeys; hide HasKey; hide Agree; hide Without;
      ghost var items := shards[i].lru;
      var room := shards[i].maxBytes - charge;
      while shards[i].lru != [] && shards[i].currentBytes > room
        invariant |shards| == |old(shards)| && shards == old(shards)[i := shards[i]]
        invariant shards[i].Valid()
        invariant shards[i].maxBytes == old(shards)[i].maxBytes
        invariant |shards[i].lru| <= |items| && shards[i].lru == items[..|shards[i].lru|]
        invariant forall j | |shards[i].lru| < j <= |items| :: Weight(items[..j]) > room
        decreases |shards[i].lru|
      {
        var here := shards[i].lru;
        var n := |here| - 1;
        EraseIsWithout(here, n);
        hide Weight;
        Erase(i, here[n]);
        assert shards[i].lru == here[..n] == items[..n];
      }
    }
  }
}
