/** The cache path of the router: which requests and responses may be cached, and
    what every hit promises over a whole run. */
module Routing {
  import opened Bytes
  import opened Headers
  import opened Messages
  import opened Caching
  import opened VaryKeys

  // -------------------------------------------------------------- what is cacheable

  predicate CacheableRequest(q: Request) {
    && (q.verb == Method.Get || q.verb == Method.Head)
    && !Contains(q.headers, "authorization") && !Contains(q.headers, "cookie")
  }

  /** The name of a directive: the text before any `=`. */
  function DirectiveName(part: string): string {
    var item := Trim(part);
    Lower(Trim(item[..Find(item, '=')]))
  }

  predicate HasDirective(value: string, directive: string) {
    var parts := CommaParts(value);
    exists i | 0 <= i < |parts| :: DirectiveName(parts[i]) == directive
  }

  predicate Sensitive(hs: seq<Header>) {
    || Contains(hs, "set-cookie")
    || var values := Values(hs, "cache-control");
       exists i | 0 <= i < |values| ::
         HasDirective(values[i], "no-store") || HasDirective(values[i], "private")
  }

  predicate CoveredName(name: string, names: seq<string>) {
    ValidName(name) && name != "*" && name in names
  }

  predicate PartsCovered(parts: seq<string>, names: seq<string>) {
    forall i | 0 <= i < |parts| :: CoveredName(Lower(Trim(parts[i])), names)
  }

  /** Every name the response varies on is a configured one. */
  predicate VaryCovered(hs: seq<Header>, names: seq<string>) {
    var values := Values(hs, "vary");
    forall i | 0 <= i < |values| :: PartsCovered(CommaParts(values[i]), names)
  }

  lemma PartsCoveredStep(value: string, names: seq<string>)
    requires value != []
    ensures var c := Find(value, ',');
            PartsCovered(CommaParts(value), names) <==>
              CoveredName(Lower(Trim(value[..c])), names)
              && (c == |value| || PartsCovered(CommaParts(value[c + 1..]), names))
  {
    hide CoveredName; hide PartsCovered; hide Trim; hide Lower; hide CommaParts; hide Find;
    NothingToCover(names);
    FirstMember(value);
    var c := Find(value, ',');
    if c == |value| {
      PartsCoveredCons(value[..c], [], names);
    } else {
      PartsCoveredCons(value[..c], CommaParts(value[c + 1..]), names);
    }
  }

  lemma PartsCoveredCons(part: string, parts: seq<string>, names: seq<string>)
    ensures PartsCovered([part] + parts, names) <==>
              CoveredName(Lower(Trim(part)), names) && PartsCovered(parts, names)
  {
    hide CoveredName; hide Lower; hide Trim;
    var all := [part] + parts;
    assert all[0] == part;
    if PartsCovered(all, names) {
      forall i | 0 <= i < |parts| ensures CoveredName(Lower(Trim(parts[i])), names) {
        assert parts[i] == all[i + 1];
      }
    }
    if CoveredName(Lower(Trim(part)), names) && PartsCovered(parts, names) {
      forall i | 0 <= i < |all| ensures CoveredName(Lower(Trim(all[i])), names) {
        if i > 0 { assert all[i] == parts[i - 1]; }
      }
    }
  }

  /** The scanning loops of the Vary check. */
  method VaryIsCovered(hs: seq<Header>, names: seq<string>) returns (covered: bool)
    ensures covered <==> VaryCovered(hs, names)
  {
    hide PartsCovered; hide CommaParts;
    var values := Values(hs, "vary");
    for i := 0 to |values|
      invariant forall j | 0 <= j < i :: PartsCovered(CommaParts(values[j]), names)
    {
      var one := ValueIsCovered(values[i], names);
      if !one { return false; }
    }
    return true;
  }

  method ValueIsCovered(value: string, names: seq<string>) returns (covered: bool)
    ensures covered <==> PartsCovered(CommaParts(value), names)
  {
    hide PartsCovered; hide CommaParts; hide ValidName; hide Lower; hide Trim;
    var pending := value;
    while pending != []
      invariant PartsCovered(CommaParts(value), names) <==> PartsCovered(CommaParts(pending), names)
      decreases |pending|
    {
      PartsCoveredStep(pending, names);
      var comma := Find(pending, ',');
      var name := Lower(Trim(pending[..comma]));
      if !ValidName(name) || name == "*" || name !in names { return false; }
      if comma == |pending| { return true; }
      pending := pending[comma + 1..];
    }
    assert PartsCovered(CommaParts(pending), names) by { NothingToCover(names); }
    return true;
  }

  lemma NothingToCover(names: seq<string>)
    ensures PartsCovered(CommaParts([]), names) && PartsCovered([], names)
  {}

  predicate CacheableResponse(r: Response, cfg: Config) {
    && r.status == 200 && !r.alreadyWritten && |r.body| < cfg.maxEntryBytes
    && !Sensitive(r.headers) && VaryCovered(r.headers, cfg.varyHeaders)
  }

  /** `name` is one of the names a response says it varies on. */
  ghost predicate VariesOn(hs: seq<Header>, name: string) {
    var values := Values(hs, "vary");
    exists i, j | 0 <= i < |values| && 0 <= j < |CommaParts(values[i])| ::
      Lower(Trim(CommaParts(values[i])[j])) == name
  }

  /** Section 4.1 of RFC 9111: the request that stored the response and the one it is
      served to have the same values under every name the response varies on. */
  ghost predicate VaryMatches(r: Response, stored: Request, served: Request) {
    forall name | VariesOn(r.headers, name) ::
      Values(stored.headers, name) == Values(served.headers, name)
  }

  lemma CoveredMatches(names: seq<string>, r: Response, stored: Request, served: Request)
    requires VaryCovered(r.headers, names) && Alike(names, stored, served)
    ensures VaryMatches(r, stored, served)
  {
    forall name | VariesOn(r.headers, name)
      ensures Values(stored.headers, name) == Values(served.headers, name)
    {
      var values := Values(r.headers, "vary");
      var i, j :| 0 <= i < |values| && 0 <= j < |CommaParts(values[i])| &&
                  Lower(Trim(CommaParts(values[i])[j])) == name;
      assert PartsCovered(CommaParts(values[i]), names);
      assert CoveredName(name, names);
      var k :| 0 <= k < |names| && names[k] == name;
    }
  }

  // ---------------------------------------------------------------- whole runs

  /** A request reaching the cache, and a handler's response coming back. Other
      requests may come in between. */
  datatype Event =
    | Ask(request: Request, now: int)
    | Fill(request: Request, response: Response, now: int)

  predicate Stores(cfg: Config, e: Event) {
    && e.Fill? && CacheableRequest(e.request) && e.request.verb == Method.Get
    && CacheableResponse(e.response, cfg)
  }

  /** The cache operation of an event, if any. */
  function OpOf(cfg: Config, e: Event): seq<Op> {
    if e.Ask? && CacheableRequest(e.request) then [Op.Get(Key(cfg.varyHeaders, e.request), e.now)]
    else if Stores(cfg, e) then
      [Op.Put(Key(cfg.varyHeaders, e.request), e.response, e.now)]
    else []
  }

  function OpsOf(cfg: Config, events: seq<Event>): seq<Op> {
    if events == [] then []
    else OpsOf(cfg, events[..|events| - 1]) + OpOf(cfg, events[|events| - 1])
  }

  /** Every store in the cache's history comes from the fill of a cacheable
      response to a cacheable GET. */
  lemma {:induction false} PutComesFromFill(cfg: Config, events: seq<Event>, p: nat)
      returns (at: nat)
    requires p < |OpsOf(cfg, events)| && OpsOf(cfg, events)[p].Put?
    ensures at < |events| && Stores(cfg, events[at])
    ensures OpsOf(cfg, events)[p] == Op.Put(
              Key(cfg.varyHeaders, events[at].request), events[at].response, events[at].now)
  {
    hide CacheableResponse; hide CacheableRequest; hide Key;
    var n := |events| - 1;
    var before := OpsOf(cfg, events[..n]);
    if p < |before| {
      at := PutComesFromFill(cfg, events[..n], p);
    } else {
      at := n;
    }
  }

  /** The stored response, the request that stored it, and the moment. */
  ghost predicate Justifies(cfg: Config, e: Event, q: Request, r: Response, now: int) {
    && Stores(cfg, e) && e.response == r
    && Alike(cfg.varyHeaders, e.request, q) && VaryMatches(r, e.request, q)
    && now < e.now + cfg.ttl
  }

  /** What a lookup finds after a run. */
  function Lookup(cfg: Config, hash: Hash, events: seq<Event>, q: Request, now: int): Outcome
    requires cfg.Valid()
  {
    Apply(cfg, hash, After(cfg, hash, OpsOf(cfg, events)),
          Op.Get(Key(cfg.varyHeaders, q), now)).1
  }

  /** Every hit serves an unexpired response that some earlier cacheable GET with the
      same key stored. */
  lemma HitIsStored(cfg: Config, hash: Hash, events: seq<Event>, q: Request, now: int)
      returns (at: nat)
    requires cfg.Valid() && Lookup(cfg, hash, events, q, now).Found?
    ensures at < |events| && Stores(cfg, events[at])
    ensures events[at].response == Lookup(cfg, hash, events, q, now).response
    ensures Key(cfg.varyHeaders, events[at].request) == Key(cfg.varyHeaders, q)
    ensures now < events[at].now + cfg.ttl
  {
    hide Key; hide Apply; hide After; hide OpsOf; hide LastStored; hide Fits; hide Stores;
    var key, ops := Key(cfg.varyHeaders, q), OpsOf(cfg, events);
    HitIsLastStored(cfg, hash, ops, key, now);
    var p := LastStoredIsLast(cfg, hash, ops, key);
    at := PutComesFromFill(cfg, events, p);
  }

  // ------------------------------------------------------------------ the router

  function Marked(r: Response, status: string): Response {
    r.(headers := Set(r.headers, "X-Cache", status))
  }

  function Identified(r: Response, id: string): Response {
    r.(headers := Set(r.headers, "X-Request-Id", id))
  }

  lemma MarkedStatus(r: Response, status: string, id: string)
    ensures Values(Identified(Marked(r, status), id).headers, "x-cache") == [status]
    ensures Values(Identified(Marked(r, status), id).headers, "x-request-id") == [id]
  {
    hide Values; hide Set;
    LowerLiterals();
    SetIsUpdate(r.headers, "X-Cache", status, "x-cache");
    SetIsUpdate(Marked(r, status).headers, "X-Request-Id", id, "x-cache");
    ValuesLower(Set(r.headers, "X-Cache", status), "X-Cache", "x-cache");
    ValuesLower(Identified(Marked(r, status), id).headers, "X-Request-Id", "x-request-id");
  }

  lemma LowerLiterals()
    ensures Lower("X-Cache") == "x-cache" == Lower("x-cache")
    ensures Lower("X-Request-Id") == "x-request-id" == Lower("x-request-id")
  {}

  lemma {:induction false} ValuesLower(hs: seq<Header>, a: string, b: string)
    requires Lower(a) == Lower(b)
    ensures Values(hs, a) == Values(hs, b)
  {
    if hs != [] { ValuesLower(hs[1..], a, b); }
  }

  class CachedRoute {
    const cache: ResponseCache
    ghost var events: seq<Event>

    ghost predicate Valid()
      reads this, cache
    {
      && cache.Valid() && ValidNames(cache.config.varyHeaders)
      && cache.Lists() == After(cache.config, cache.hash, OpsOf(cache.config, events))
    }

    constructor (cfg: Config, hash: Hash)
      requires cfg.Valid() && ValidNames(cfg.varyHeaders)
      ensures Valid() && fresh(cache) && events == [] && cache.config == cfg
    {
      cache := new ResponseCache(cfg, hash);
      events := [];
    }

    /** Before the handler: answers from the cache when it can. */
    method BeforeHandler(q: Request, id: string, now: int) returns (hit: Option<Response>)
      requires Valid()
      modifies this, cache
      ensures Valid() && events == old(events) + [Ask(q, now)]
      ensures hit.Some? <==>
                CacheableRequest(q) &&
                Lookup(cache.config, cache.hash, old(events), q, now).Found?
      ensures hit.Some? ==>
                hit.value == Identified(Marked(
                  Lookup(cache.config, cache.hash, old(events), q, now).response, "HIT"), id)
    {
      hide Apply; hide Key; hide After; hide CacheableRequest; hide OpsOf; hide Marked; hide Identified;
      OpsOfSnoc(cache.config, events, Ask(q, now));
      events := events + [Ask(q, now)];
      if !CacheableRequest(q) { return None; }
      var key := MakeKey(cache.config.varyHeaders, q);
      AfterSnoc(cache.config, cache.hash, OpsOf(cache.config, old(events)), Op.Get(key, now));
      var found := cache.Get(key, now);
      if found.None? { return None; }
      hit := Some(Identified(Marked(found.value, "HIT"), id));
    }

    /** After the handler: stores what may be stored and marks the response. */
    method AfterHandler(q: Request, response: Response, id: string, now: int)
        returns (out: Response)
      requires Valid()
      modifies this, cache
      ensures Valid() && events == old(events) + [Fill(q, response, now)]
      ensures var cfg := cache.config;
              var kept := Stores(cfg, Fill(q, response, now))
                          && Fits(cfg, cache.hash, Key(cfg.varyHeaders, q), response);
              out == Identified(Marked(response, if kept then "MISS" else "BYPASS"), id)
    {
      hide Key; hide After; hide CacheableRequest; hide CacheableResponse; hide OpsOf;
      hide Marked; hide Identified; hide Fits; hide Stored;
      var e := Fill(q, response, now);
      OpsOfSnoc(cache.config, events, e);
      events := events + [e];
      var status := "BYPASS";
      if CacheableRequest(q) && q.verb == Method.Get && CacheableResponse(response, cache.config) {
        var key := MakeKey(cache.config.varyHeaders, q);
        AfterSnoc(cache.config, cache.hash, OpsOf(cache.config, old(events)),
                  Op.Put(key, response, now));
        var stored := cache.Put(key, response, now);
        if stored { status := "MISS"; }
      }
      out := Identified(Marked(response, status), id);
    }
  }

  lemma OpsOfSnoc(cfg: Config, events: seq<Event>, e: Event)
    ensures OpsOf(cfg, events + [e]) == OpsOf(cfg, events) + OpOf(cfg, e)
    ensures OpOf(cfg, e) == [] ==> OpsOf(cfg, events + [e]) == OpsOf(cfg, events)
  {
    assert (events + [e])[..|events|] == events;
  }

  lemma AfterSnoc(cfg: Config, hash: Hash, ops: seq<Op>, op: Op)
    requires cfg.shardCount > 0
    ensures After(cfg, hash, ops + [op]) == Apply(cfg, hash, After(cfg, hash, ops), op).0
  {
    assert (ops + [op])[..|ops|] == ops;
  }
}
