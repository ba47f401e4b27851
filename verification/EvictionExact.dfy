/** Eviction is invisible exactly when idle clients have filled up: whenever the time
    to live is too short for that, one client can tell the difference. */
module EvictionExact {
  import opened TokenBuckets
  import opened RateLimiting

  const CLIENT: string := "c"

  /** The requests `requests` after `clock` tell the limiter from the table without
      eviction. */
  ghost predicate Tells(cfg: Config, hash: string -> nat, t: Table, r: Reference, clock: real,
                        requests: seq<Request>)
    requires cfg.Valid() && Inv(cfg, hash, t) && AllMatch(cfg, r)
  {
    && InOrder(clock, requests)
    && var ds := Answers(cfg, hash, t, requests);
    !SameUnlessFlagged(ds, ReferenceAnswers(cfg, r, requests, Flags(ds)))
  }

  /** Some run tells them apart. */
  ghost predicate Visible(cfg: Config, hash: string -> nat, t: Table, r: Reference, clock: real) {
    && cfg.Valid() && Inv(cfg, hash, t) && AllMatch(cfg, r)
    && exists requests :: Tells(cfg, hash, t, r, clock, requests)
  }

  // ------------------------------------------------------------ one client's table

  /** The table in which only `CLIENT` is stored. */
  function Single(cfg: Config, hash: string -> nat, b: Bucket, last: real): Table
    requires cfg.Valid()
  {
    Table(Empty(cfg).shards[hash(CLIENT) % cfg.shardCount := map[CLIENT := Entry(b, last)]], 1)
  }

  lemma SingleIsSound(cfg: Config, hash: string -> nat, b: Bucket, last: real)
    requires cfg.Valid() && Matching(cfg, b)
    ensures Inv(cfg, hash, Single(cfg, hash, b, last))
    ensures Inv(cfg, hash, Empty(cfg))
  {
    var i := hash(CLIENT) % cfg.shardCount;
    TotalOfEmpty(Empty(cfg).shards);
    TotalUpdate(Empty(cfg).shards, i, map[CLIENT := Entry(b, last)]);
    assert |map[CLIENT := Entry(b, last)]| == 1;
  }

  /** What the limiter charges the client at `now`. */
  function Charged(cfg: Config, b: Bucket, now: real): Bucket {
    if now - b.last >= cfg.idleTtl then Fresh(cfg.rate, cfg.burst, now) else b
  }

  lemma CheckSingle(cfg: Config, hash: string -> nat, b: Bucket, now: real)
    requires cfg.Valid() && Matching(cfg, b) && b.last <= now
    ensures Inv(cfg, hash, Single(cfg, hash, b, b.last)) && Matching(cfg, Charged(cfg, b, now))
    ensures var (c, d) := Charge(Charged(cfg, b, now), now);
            Check(cfg, hash, Single(cfg, hash, b, b.last), CLIENT, now)
              == (Single(cfg, hash, c, now), d)
  {
    SingleIsSound(cfg, hash, b, b.last);
    var t, i := Single(cfg, hash, b, b.last), hash(CLIENT) % cfg.shardCount;
    var pruned := Prune(cfg, t.shards[i], now);
    CheckShape(cfg, hash, t, CLIENT, now, i, pruned);
    assert t.shards[i] == map[CLIENT := Entry(b, b.last)] && |t.shards[i]| == 1;
    hide Check; hide Charge; hide Inv; hide Total;
    var c := Charge(Charged(cfg, b, now), now).0;
    if now - b.last >= cfg.idleTtl {
      assert pruned == map[];
    } else {
      assert pruned == t.shards[i];
    }
    assert pruned[CLIENT := Entry(c, now)] == map[CLIENT := Entry(c, now)];
    assert t.shards[i := map[CLIENT := Entry(c, now)]] == Single(cfg, hash, c, now).shards;
  }

  // ------------------------------------------------------------ one request at a time

  lemma Unfold(cfg: Config, hash: string -> nat, t: Table, r: Reference, now: real,
               others: seq<Request>)
    requires cfg.Valid() && Inv(cfg, hash, t) && AllMatch(cfg, r)
    requires !Flagged(Check(cfg, hash, t, CLIENT, now).1)
    ensures var (t', d) := Check(cfg, hash, t, CLIENT, now);
            var (r', e) := ReferenceCheck(cfg, r, CLIENT, now);
            var requests := [Request(CLIENT, now)] + others;
            && Inv(cfg, hash, t') && AllMatch(cfg, r')
            && var later := Answers(cfg, hash, t', others);
            && Answers(cfg, hash, t, requests) == [d] + later
            && ReferenceAnswers(cfg, r, requests, Flags([d] + later))
                 == [e] + ReferenceAnswers(cfg, r', others, Flags(later))
  {
    hide Check; hide ReferenceCheck; hide Inv; hide AllMatch;
    CheckKeepsInv(cfg, hash, t, CLIENT, now);
    ReferenceMatches(cfg, r, CLIENT, now);
    var (t', d) := Check(cfg, hash, t, CLIENT, now);
    var requests := [Request(CLIENT, now)] + others;
    assert requests[1..] == others;
    var later := Answers(cfg, hash, t', others);
    FlagsCons(d, later);
    assert Flags([d] + later)[1..] == Flags(later);
  }

  /** A request answered differently shows, and so does a difference that shows
      after it. */
  lemma Ask(cfg: Config, hash: string -> nat, t: Table, r: Reference, clock: real, now: real)
    requires cfg.Valid() && Inv(cfg, hash, t) && AllMatch(cfg, r) && clock <= now
    requires var (t', d) := Check(cfg, hash, t, CLIENT, now);
             var (r', e) := ReferenceCheck(cfg, r, CLIENT, now);
             !Flagged(d) && (d != e || Visible(cfg, hash, t', r', now))
    ensures Visible(cfg, hash, t, r, clock)
  {
    hide Check; hide ReferenceCheck; hide Inv; hide AllMatch; hide Answers; hide ReferenceAnswers;
    var (t', d) := Check(cfg, hash, t, CLIENT, now);
    var (r', e) := ReferenceCheck(cfg, r, CLIENT, now);
    var q := Request(CLIENT, now);
    var others: seq<Request> := [];
    if d == e { others :| Tells(cfg, hash, t', r', now, others); }
    Unfold(cfg, hash, t, r, now, others);
    var later := Answers(cfg, hash, t', others);
    var es := ReferenceAnswers(cfg, r', others, Flags(later));
    InOrderCons(clock, q, others);
    Differ(d, e, later, es);
    assert Tells(cfg, hash, t, r, clock, [q] + others);
  }

  lemma InOrderCons(clock: real, q: Request, others: seq<Request>)
    requires clock <= q.now && InOrder(q.now, others)
    ensures InOrder(clock, [q] + others)
  {}

  lemma Differ(d: Decision, e: Decision, ds: seq<Decision>, es: seq<Decision>)
    requires !Flagged(d) && (d != e || !SameUnlessFlagged(ds, es))
    ensures !SameUnlessFlagged([d] + ds, [e] + es)
  {
    var xs, ys := [d] + ds, [e] + es;
    if SameUnlessFlagged(xs, ys) {
      assert Flagged(xs[0]) || xs[0] == ys[0];
      forall i | 0 <= i < |ds| ensures Flagged(ds[i]) || ds[i] == es[i] {
        assert Flagged(xs[i + 1]) || xs[i + 1] == ys[i + 1];
      }
    }
  }

  // ------------------------------------------------------- the client's two buckets

  /** Buckets of the client, in the limiter and in the table without eviction. */
  ghost predicate Pair(cfg: Config, a: Bucket, b: Bucket) {
    cfg.Valid() && Matching(cfg, a) && Matching(cfg, b) && a.last == b.last
  }

  ghost predicate PairVisible(cfg: Config, hash: string -> nat, a: Bucket, b: Bucket)
    requires cfg.Valid()
  {
    Visible(cfg, hash, Single(cfg, hash, a, a.last), map[CLIENT := b], a.last)
  }

  lemma AskPair(cfg: Config, hash: string -> nat, a: Bucket, b: Bucket, now: real)
    requires Pair(cfg, a, b) && a.last <= now
    requires Matching(cfg, Charged(cfg, a, now)) &&
             var (a', d) := Charge(Charged(cfg, a, now), now);
             var (b', e) := Charge(b, now);
             d != e || PairVisible(cfg, hash, a', b')
    ensures PairVisible(cfg, hash, a, b)
  {
    hide Check; hide Charge; hide Single; hide Inv; hide Visible;
    CheckSingle(cfg, hash, a, now);
    ChargeIsNotFlagged(Charged(cfg, a, now), now);
    var r: Reference := map[CLIENT := b];
    var (b', e) := Charge(b, now);
    ReferenceOne(cfg, b, now);
    assert Charge(Charged(cfg, a, now), now).0.last == now;
    Ask(cfg, hash, Single(cfg, hash, a, a.last), r, a.last, now);
  }

  lemma ReferenceOne(cfg: Config, b: Bucket, now: real)
    requires cfg.Valid() && Matching(cfg, b)
    ensures var r: Reference := map[CLIENT := b];
            var (b', e) := Charge(b, now);
            && AllMatch(cfg, r)
            && ReferenceCheck(cfg, r, CLIENT, now) == (map[CLIENT := b'], e)
  {
    hide Charge;
    var r: Reference := map[CLIENT := b];
    var b' := Charge(b, now).0;
    assert r[CLIENT := b'] == map[CLIENT := b'];
  }

  lemma ChargeNow(b: Bucket)
    requires b.Valid()
    ensures var (c, d) := Charge(b, b.last);
            && (b.tokens >= 1.0 ==>
                  c == b.(tokens := b.tokens - 1.0) && d == Decision(true, 0, false))
            && (b.tokens < 1.0 ==> !d.allowed)
  {}

  /** The wait after which a bucket with less than one token has exactly one. */
  function WaitForOne(b: Bucket): real
    requires b.Valid()
  {
    (1.0 - b.tokens) / b.rate
  }

  lemma WaitIsRight(b: Bucket)
    requires b.Valid() && b.tokens < 1.0
    ensures WaitForOne(b) > 0.0 && WaitForOne(b) * b.rate == 1.0 - b.tokens
  {}

  lemma ChargeAfterWait(a: Bucket, b: Bucket, wait: real)
    requires a.Valid() && b.Valid() && a.rate == b.rate && b.capacity >= 1.0
    requires a.tokens < 1.0 && b.tokens <= a.tokens && wait == WaitForOne(a)
    ensures var (c, d) := Charge(b, b.last + wait);
            && (b.tokens == a.tokens ==>
                  c == b.(tokens := 0.0, last := b.last + wait) && d == Decision(true, 0, false))
            && (b.tokens < a.tokens ==> !d.allowed)
  {
    WaitIsRight(a);
    var now := b.last + wait;
    assert now - b.last == wait;
    assert Refill(b, now).tokens == Min(b.capacity, b.tokens + 1.0 - a.tokens);
  }

  /** With more in the limiter's bucket, the difference comes out. */
  lemma {:induction false} MoreShows(cfg: Config, hash: string -> nat, a: Bucket, b: Bucket)
    requires Pair(cfg, a, b) && cfg.burst >= 1.0 && b.tokens < a.tokens
    ensures PairVisible(cfg, hash, a, b)
    decreases b.tokens.Floor
  {
    hide Visible; hide Charge; hide Single;
    var now := a.last;
    if a.tokens >= 1.0 {
      ChargeNow(a);
      ChargeNow(b);
      if b.tokens >= 1.0 {
        MoreShows(cfg, hash, a.(tokens := a.tokens - 1.0), b.(tokens := b.tokens - 1.0));
      }
      AskPair(cfg, hash, a, b, now);
    } else {
      var wait := WaitForOne(a);
      WaitIsRight(a);
      ChargeAfterWait(a, a, wait);
      ChargeAfterWait(a, b, wait);
      ChargeNow(Fresh(cfg.rate, cfg.burst, now + wait));
      AskPair(cfg, hash, a, b, now + wait);
    }
  }

  /** Two empty buckets, and a time to live that refills less than the burst. */
  lemma EmptyShows(cfg: Config, hash: string -> nat, b: Bucket)
    requires Pair(cfg, b, b) && b.tokens == 0.0 && !TtlRefills(cfg)
    ensures PairVisible(cfg, hash, b, b)
  {
    hide Visible; hide Charge; hide Single;
    var now := b.last + cfg.idleTtl;
    var full := Fresh(cfg.rate, cfg.burst, now);
    var c := Refill(b, now);
    assert now - b.last == cfg.idleTtl;
    assert c.tokens == cfg.idleTtl * cfg.rate < cfg.burst;
    ChargeIsOfRefilled(b, now);
    ChargeNow(c);
    ChargeNow(full);
    if c.tokens >= 1.0 {
      MoreShows(cfg, hash, full.(tokens := full.tokens - 1.0), c.(tokens := c.tokens - 1.0));
    }
    AskPair(cfg, hash, b, b, now);
  }

  /** From any common bucket: spend it, wait for one more token, spend that. */
  lemma {:induction false} EqualShows(cfg: Config, hash: string -> nat, b: Bucket)
    requires Pair(cfg, b, b) && !TtlRefills(cfg)
    ensures PairVisible(cfg, hash, b, b)
    decreases b.tokens.Floor
  {
    hide Visible; hide Charge; hide Single;
    if b.tokens >= 1.0 {
      ChargeNow(b);
      EqualShows(cfg, hash, b.(tokens := b.tokens - 1.0));
      AskPair(cfg, hash, b, b, b.last);
    } else {
      var wait := WaitForOne(b);
      WaitIsRight(b);
      var now := b.last + wait;
      ChargeAfterWait(b, b, wait);
      var spent := b.(tokens := 0.0, last := now);
      if wait >= cfg.idleTtl {
        var full := Fresh(cfg.rate, cfg.burst, now);
        ChargeNow(full);
        if cfg.burst > 1.0 {
          MoreShows(cfg, hash, full.(tokens := full.tokens - 1.0), spent);
        } else {
          EmptyShows(cfg, hash, spent);
        }
      } else {
        EmptyShows(cfg, hash, spent);
      }
      AskPair(cfg, hash, b, b, now);
    }
  }

  // --------------------------------------------------------------------- the result

  /** No run tells the limiter from the table without eviction. */
  ghost predicate Invisible(cfg: Config, hash: string -> nat)
    requires cfg.Valid() && Inv(cfg, hash, Empty(cfg))
  {
    forall start, requests | InOrder(start, requests) ::
      !Tells(cfg, hash, Empty(cfg), map[], start, requests)
  }

  lemma ShortTtlShows(cfg: Config, hash: string -> nat)
    requires cfg.Valid() && !TtlRefills(cfg)
    ensures Inv(cfg, hash, Empty(cfg)) && Visible(cfg, hash, Empty(cfg), map[], 0.0)
  {
    hide Visible; hide Charge;
    var full := Fresh(cfg.rate, cfg.burst, 0.0);
    SingleIsSound(cfg, hash, full, 0.0);
    CheckFirst(cfg, hash);
    ChargeNow(full);
    EqualShows(cfg, hash, full.(tokens := full.tokens - 1.0));
    Ask(cfg, hash, Empty(cfg), map[], 0.0, 0.0);
  }

  lemma CheckFirst(cfg: Config, hash: string -> nat)
    requires cfg.Valid()
    ensures var full := Fresh(cfg.rate, cfg.burst, 0.0);
            var (c, d) := Charge(full, 0.0);
            && Inv(cfg, hash, Empty(cfg)) && AllMatch(cfg, map[])
            && Check(cfg, hash, Empty(cfg), CLIENT, 0.0) == (Single(cfg, hash, c, 0.0), d)
            && ReferenceCheck(cfg, map[], CLIENT, 0.0) == (map[CLIENT := c], d)
  {
    var full := Fresh(cfg.rate, cfg.burst, 0.0);
    SingleIsSound(cfg, hash, full, 0.0);
    var t, i := Empty(cfg), hash(CLIENT) % cfg.shardCount;
    var pruned := Prune(cfg, t.shards[i], 0.0);
    assert t.shards[i] == map[] && pruned == map[];
    CheckShape(cfg, hash, t, CLIENT, 0.0, i, pruned);
    hide Check; hide Charge; hide Inv; hide Total;
    var c := Charge(full, 0.0).0;
    assert pruned[CLIENT := Entry(c, 0.0)] == map[CLIENT := Entry(c, 0.0)];
  }

  /** Eviction is invisible if and only if the burst is below one token or the time
      to live refills it. */
  lemma InvisibleExactly(cfg: Config, hash: string -> nat)
    requires cfg.Valid()
    ensures Inv(cfg, hash, Empty(cfg))
    ensures Invisible(cfg, hash) <==> TtlRefills(cfg)
  {
    hide Inv; hide Answers; hide ReferenceAnswers; hide TtlRefills;
    SingleIsSound(cfg, hash, Fresh(cfg.rate, cfg.burst, 0.0), 0.0);
    if TtlRefills(cfg) {
      forall start, requests | InOrder(start, requests)
        ensures !Tells(cfg, hash, Empty(cfg), map[], start, requests)
      {
        EvictionIsInvisible(cfg, hash, start, requests);
      }
    } else {
      ShortTtlShows(cfg, hash);
      var requests :| Tells(cfg, hash, Empty(cfg), map[], 0.0, requests);
    }
  }
}
