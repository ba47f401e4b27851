/** When every hit respects Vary: exactly when at most one varying header can occur in
    a request that is looked up at all. */
module HitExact {
  import opened Bytes
  import opened Headers
  import opened Messages
  import opened Caching
  import opened VaryKeys
  import opened Routing

  /** A header that a cacheable request may carry. */
  predicate Usable(name: string) { name != "authorization" && name != "cookie" }

  predicate AtMostOneUsable(names: seq<string>) {
    forall i, j | 0 <= i < j < |names| :: !Usable(names[i]) || !Usable(names[j])
  }

  /** The headers of a cacheable request: nothing under the unusable names. */
  predicate Plain(hs: seq<Header>) {
    Values(hs, "authorization") == [] && Values(hs, "cookie") == []
  }

  // --------------------------------------------------------------- no wrong hit

  lemma AtMostOneTail(names: seq<string>)
    requires names != [] && AtMostOneUsable(names)
    ensures AtMostOneUsable(names[1..])
    ensures Usable(names[0]) ==> forall i | 0 <= i < |names[1..]| :: !Usable(names[1..][i])
  {
    hide Usable;
    var rest := names[1..];
    forall i, j | 0 <= i < j < |rest| ensures !Usable(rest[i]) || !Usable(rest[j]) {
      assert rest[i] == names[i + 1] && rest[j] == names[j + 1];
    }
    if Usable(names[0]) {
      forall i | 0 <= i < |rest| ensures !Usable(rest[i]) { assert rest[i] == names[i + 1]; }
    }
  }

  lemma {:induction false} UnusableFields(names: seq<string>, xs: seq<Header>, ys: seq<Header>)
    requires Plain(xs) && Plain(ys) && forall i | 0 <= i < |names| :: !Usable(names[i])
    ensures AlikeOn(names, xs, ys)
  {}

  /** With one usable header the fields of plain requests determine all values. */
  lemma {:induction false} FieldsDetermineUsable(
      names: seq<string>, xs: seq<Header>, ys: seq<Header>)
    requires Plain(xs) && Plain(ys) && AtMostOneUsable(names)
    requires VaryFields(names, xs) == VaryFields(names, ys)
    ensures AlikeOn(names, xs, ys)
  {
    hide Plain; hide Values;
    if names != [] {
      AtMostOneTail(names);
      var a, b, rest := Values(xs, names[0]), Values(ys, names[0]), names[1..];
      var x, y := VaryFields(rest, xs), VaryFields(rest, ys);
      SameTail([names[0]], a + [""] + x, b + [""] + y);
      Concat3([names[0]], a, x);
      Concat3([names[0]], b, y);
      if Usable(names[0]) {
        UnusableFields(rest, xs, ys);
        AlikeFields(rest, xs, ys);
        SameFront(a, b, x);
      } else {
        UnusableIsEmpty(names[0], xs);
        UnusableIsEmpty(names[0], ys);
        SameTail([] + [""], x, y);
        FieldsDetermineUsable(rest, xs, ys);
      }
      AlikeOnCons(names, xs, ys);
    }
  }

  lemma UnusableIsEmpty(name: string, hs: seq<Header>)
    requires Plain(hs) && !Usable(name)
    ensures Values(hs, name) == []
  {}

  lemma Concat3(head: seq<string>, values: seq<string>, tail: seq<string>)
    ensures head + values + [""] + tail == head + (values + [""] + tail)
  {}

  lemma SameFront(a: seq<string>, b: seq<string>, tail: seq<string>)
    requires a + [""] + tail == b + [""] + tail
    ensures a == b
  {
    assert |a| == |b|;
    assert (a + [""] + tail)[..|a|] == a && (b + [""] + tail)[..|b|] == b;
  }

  lemma SameTail(front: seq<string>, x: seq<string>, y: seq<string>)
    ensures front + x == front + y ==> x == y
  {
    assert (front + x)[|front|..] == x && (front + y)[|front|..] == y;
  }

  lemma CacheableIsPlain(q: Request)
    requires CacheableRequest(q)
    ensures Plain(q.headers)
  {}

  /** A hit: the router looks up cacheable requests only. */
  predicate Hit(cfg: Config, hash: Hash, events: seq<Event>, q: Request, now: int)
    requires cfg.Valid()
  {
    CacheableRequest(q) && Lookup(cfg, hash, events, q, now).Found?
  }

  /** Every hit serves what some earlier cacheable GET stored for the same host, path
      and query and the same values of every header the response varies on. */
  lemma HitIsJustified(cfg: Config, hash: Hash, events: seq<Event>, q: Request, now: int)
      returns (at: nat)
    requires cfg.Valid() && ValidNames(cfg.varyHeaders) && Hit(cfg, hash, events, q, now)
    requires AtMostOneUsable(cfg.varyHeaders) || NoBlankVary(cfg.varyHeaders, q.headers)
    ensures at < |events|
    ensures Justifies(cfg, events[at], q, Lookup(cfg, hash, events, q, now).response, now)
  {
    hide Key; hide Apply; hide After; hide VaryMatches; hide OpsOf; hide LastStored;
    hide Fits; hide CacheableRequest; hide VaryCovered; hide CacheableResponse;
    var names := cfg.varyHeaders;
    at := HitIsStored(cfg, hash, events, q, now);
    var stored := events[at].request;
    if AtMostOneUsable(names) {
      SplitKey(names, stored, q);
      CacheableIsPlain(stored);
      CacheableIsPlain(q);
      FieldsDetermineUsable(names, stored.headers, q.headers);
    } else {
      FewNames(names);
      EqualKeysAreAlike(names, stored, q);
    }
    assert VaryCovered(events[at].response.headers, names) by { StoredIsCovered(cfg, events[at]); }
    CoveredMatches(names, events[at].response, stored, q);
  }

  lemma StoredIsCovered(cfg: Config, e: Event)
    requires Stores(cfg, e)
    ensures VaryCovered(e.response.headers, cfg.varyHeaders)
  {
    hide VaryCovered;
  }

  lemma FewNames(names: seq<string>)
    requires !AtMostOneUsable(names)
    ensures |names| > 1
  {}

  // ------------------------------------------------------------------ a wrong hit

  /** The name the response of the wrong hit varies on. */
  function Blamed(names: seq<string>, i: nat, j: nat): string
    requires i < j < |names|
  {
    if names[i] == "*" then names[j] else names[i]
  }

  function Varying(name: string): Response {
    Response(200, "OK", [Header("vary", name)], "", false, false)
  }

  /** The cache has room for the entry of the wrong hit. */
  predicate HasRoom(cfg: Config, hash: Hash, i: nat, j: nat)
    requires cfg.Valid() && i < j < |cfg.varyHeaders|
  {
    var names := cfg.varyHeaders;
    Fits(cfg, hash, Key(names, Spelling(names[j], Gap(names, i, j))), Varying(Blamed(names, i, j)))
  }

  lemma OneVary(name: string)
    ensures var hs := [Header("vary", name)];
            && Values(hs, "vary") == [name] && Values(hs, "set-cookie") == []
            && Values(hs, "cache-control") == []
  {
    var hs := [Header("vary", name)];
    assert hs[1..] == [];
    assert Lower("vary") == "vary";
    assert |Lower("set-cookie")| != 4 && |Lower("cache-control")| != 4;
  }

  lemma OnePart(name: string)
    requires ValidName(name) && IsLower(name)
    ensures CommaParts(name) == [name] && Lower(Trim(name)) == name
  {
    forall k | 0 <= k < |name| ensures name[k] != ',' && !IsBlank(name[k]) {
      assert IsTokenChar(name[k]);
    }
    assert Find(name, ',') == |name|;
    assert name[..|name|] == name;
    assert TrimLeft(name) == name && TrimRight(name) == name;
    LowerIdentity(name);
  }

  lemma VaryingIsCacheable(cfg: Config, name: string)
    requires cfg.Valid() && name in cfg.varyHeaders && name != "*"
    requires ValidName(name) && IsLower(name)
    ensures CacheableResponse(Varying(name), cfg) && VariesOn(Varying(name).headers, name)
  {
    OneVary(name);
    OnePart(name);
    hide Values; hide CommaParts; hide ValidName;
    var hs := Varying(name).headers;
    assert PartsCovered([name], cfg.varyHeaders);
    assert VaryCovered(hs, cfg.varyHeaders);
    var values := Values(hs, "vary");
    assert Lower(Trim(CommaParts(values[0])[0])) == name;
  }

  lemma SpellingIsCacheable(name: string, values: seq<string>)
    requires IsLower(name) && Usable(name)
    ensures CacheableRequest(Spelling(name, values))
  {
    ValuesUnder(name, values, "authorization");
    ValuesUnder(name, values, "cookie");
    assert Lower("authorization") == "authorization" && Lower("cookie") == "cookie";
  }

  lemma FoundAfterStore(cfg: Config, hash: Hash, key: string, r: Response)
    requires cfg.Valid() && Fits(cfg, hash, key, r)
    ensures Apply(cfg, hash, After(cfg, hash, [Op.Put(key, r, 0)]), Op.Get(key, 0)).1 == Found(r)
  {
    var op, i := Op.Put(key, r, 0), ShardOf(cfg, hash, key);
    assert [op][..0] == [];
    var empty := After(cfg, hash, []);
    assert empty[i] == [];
    var item := ItemOf(cfg, key, r, 0);
    hide Fits; hide Charge;
    var items := After(cfg, hash, [op])[i];
    assert Without([], key) == [];
    assert items == Stored([], Limit(cfg, i), item);
    assert items[0] == item;
  }

  /** One store and one lookup: a hit for a request that differs from the storing one
      in a header the response varies on. */
  lemma WrongHit(cfg: Config, hash: Hash, i: nat, j: nat) returns (e: Event, q: Request)
    requires cfg.Valid() && ValidNames(cfg.varyHeaders) && i < j < |cfg.varyHeaders|
    requires Usable(cfg.varyHeaders[i]) && Usable(cfg.varyHeaders[j]) && HasRoom(cfg, hash, i, j)
    ensures Stores(cfg, e) && Hit(cfg, hash, [e], q, 0)
    ensures Lookup(cfg, hash, [e], q, 0) == Found(e.response)
    ensures !VaryMatches(e.response, e.request, q)
  {
    var names, gap := cfg.varyHeaders, Gap(cfg.varyHeaders, i, j);
    var name := Blamed(names, i, j);
    var stored := Spelling(names[j], gap);
    q, e := Spelling(names[i], gap), Fill(stored, Varying(name), 0);
    Pieces(names, i, j);
    assert Stores(cfg, e) && VariesOn(e.response.headers, name) && CacheableRequest(q) by {
      SpellingIsCacheable(names[i], gap);
      SpellingIsCacheable(names[j], gap);
      VaryingIsCacheable(cfg, name);
    }
    Collision(names, i, j);
    hide Key; hide CacheableRequest; hide Stores; hide Gap; hide Values; hide VariesOn; hide Lookup;
    hide Spelling; hide Alike;
    StoredIsFound(cfg, hash, e, q);
    assert Values(stored.headers, name) != Values(q.headers, name);
  }

  lemma StoredIsFound(cfg: Config, hash: Hash, e: Event, q: Request)
    requires cfg.Valid() && Stores(cfg, e) && e.now == 0
    requires Fits(cfg, hash, Key(cfg.varyHeaders, e.request), e.response)
    requires Key(cfg.varyHeaders, q) == Key(cfg.varyHeaders, e.request)
    ensures Lookup(cfg, hash, [e], q, 0) == Found(e.response)
  {
    hide Key; hide Stores; hide After; hide Apply; hide Fits;
    var key := Key(cfg.varyHeaders, e.request);
    assert [e][..0] == [];
    assert e.Fill? by { StoresFill(cfg, e); }
    assert OpsOf(cfg, []) == [] && OpsOf(cfg, [e]) == [] + OpOf(cfg, e);
    assert OpsOf(cfg, [e]) == [Op.Put(key, e.response, 0)];
    FoundAfterStore(cfg, hash, key, e.response);
  }

  lemma StoresFill(cfg: Config, e: Event)
    requires Stores(cfg, e)
    ensures e.Fill?
  {}

  // ---------------------------------------------------------------------- exactly

  ghost predicate EveryHitJustified(cfg: Config, hash: Hash)
    requires cfg.Valid()
  {
    forall events, q, now | Hit(cfg, hash, events, q, now) ::
      exists at: nat :: at < |events| && JustifiedBy(cfg, hash, events, q, now, at)
  }

  ghost predicate JustifiedBy(cfg: Config, hash: Hash, events: seq<Event>, q: Request, now: int,
                              at: nat)
    requires cfg.Valid() && at < |events| && Hit(cfg, hash, events, q, now)
  {
    Justifies(cfg, events[at], q, Lookup(cfg, hash, events, q, now).response, now)
  }

  /** Over all runs every hit is justified if and only if at most one configured header
      is other than Authorization and Cookie, given room for the small entries of the
      wrong hits. */
  lemma HitsRespectVaryExactly(cfg: Config, hash: Hash)
    requires cfg.Valid() && ValidNames(cfg.varyHeaders)
    requires forall i, j | 0 <= i < j < |cfg.varyHeaders| :: HasRoom(cfg, hash, i, j)
    ensures EveryHitJustified(cfg, hash) <==> AtMostOneUsable(cfg.varyHeaders)
  {
    hide Hit; hide Justifies; hide Lookup; hide HasRoom; hide Usable; hide ValidNames;
    if AtMostOneUsable(cfg.varyHeaders) {
      forall events, q, now | Hit(cfg, hash, events, q, now)
        ensures exists at: nat :: at < |events| && JustifiedBy(cfg, hash, events, q, now, at)
      {
        var at := HitIsJustified(cfg, hash, events, q, now);
        assert JustifiedBy(cfg, hash, events, q, now, at);
      }
    } else {
      var i, j :| 0 <= i < j < |cfg.varyHeaders|
                  && Usable(cfg.varyHeaders[i]) && Usable(cfg.varyHeaders[j]);
      var e, q := WrongHit(cfg, hash, i, j);
      NotJustified(cfg, hash, [e], q, e.response);
    }
  }

  lemma NotJustified(cfg: Config, hash: Hash, events: seq<Event>, q: Request, r: Response)
    requires cfg.Valid() && Hit(cfg, hash, events, q, 0)
    requires Lookup(cfg, hash, events, q, 0) == Found(r)
    requires forall at: nat | at < |events| :: !VaryMatches(r, events[at].request, q)
    ensures !EveryHitJustified(cfg, hash)
  {
    hide Hit; hide Lookup; hide VaryMatches;
    assert forall at: nat | at < |events| :: !JustifiedBy(cfg, hash, events, q, 0, at);
  }
}
