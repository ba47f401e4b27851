/** Cache keys, the Vary check, and what a hit through the router promises. */
module VaryKeys {
  import opened Bytes
  import opened Headers
  import opened Messages
  import opened Caching

  // ------------------------------------------------------------ configured names

  predicate ValidNames(names: seq<string>) {
    && (forall i | 0 <= i < |names| :: ValidName(names[i]) && IsLower(names[i]))
    && (forall i, j | 0 <= i < j < |names| :: names[i] != names[j])
  }

  /** The order of `std::string`. */
  predicate Before(a: string, b: string) {
    b != [] && (a == [] || a[0] < b[0] || (a[0] == b[0] && Before(a[1..], b[1..])))
  }

  function Insert(names: seq<string>, name: string): (r: seq<string>)
    requires ValidNames(names) && ValidName(name) && IsLower(name)
    ensures ValidNames(r)
    ensures forall x :: x in r <==> x in names || x == name
  {
    if name in names then names else InsertNew(names, name)
  }

  function InsertNew(names: seq<string>, name: string): (r: seq<string>)
    requires ValidNames(names) && ValidName(name) && IsLower(name) && name !in names
    ensures ValidNames(r)
    ensures forall x :: x in r <==> x in names || x == name
  {
    hide ValidName; hide IsLower;
    if names == [] || Before(name, names[0]) then [name] + names
    else
      var others := InsertNew(names[1..], name);
      assert names[0] !in names[1..];
      assert forall i | 0 <= i < |others| :: others[i] in others;
      [names[0]] + others
  }

  /** Lower-cased, sorted, each name once. */
  function Normalized(raw: seq<string>): (r: seq<string>)
    requires forall i | 0 <= i < |raw| :: ValidName(Lower(raw[i]))
    ensures ValidNames(r)
    ensures forall x :: x in r <==> Listed(raw, x)
  {
    if raw == [] then [] else
    hide ValidNames; hide ValidName; hide Listed; hide IsLower;
    var n := |raw| - 1;
    var others := Normalized(raw[..n]);
    LowerIdentity(raw[n]);
    ListedSnoc(raw);
    Insert(others, Lower(raw[n]))
  }

  ghost predicate Listed(raw: seq<string>, name: string) {
    exists i :: 0 <= i < |raw| && Lower(raw[i]) == name
  }

  lemma ListedSnoc(raw: seq<string>)
    requires raw != []
    ensures forall x :: Listed(raw, x) <==> Listed(raw[..|raw| - 1], x) || x == Lower(raw[|raw| - 1])
  {
    forall x
      ensures Listed(raw, x) <==> Listed(raw[..|raw| - 1], x) || x == Lower(raw[|raw| - 1])
    {
      if Listed(raw[..|raw| - 1], x) {
        var i :| 0 <= i < |raw| - 1 && Lower(raw[..|raw| - 1][i]) == x;
        assert Lower(raw[i]) == x;
      }
      if Listed(raw, x) {
        var i :| 0 <= i < |raw| && Lower(raw[i]) == x;
        assert i < |raw| - 1 ==> Lower(raw[..|raw| - 1][i]) == x;
      }
    }
  }

  /** What the constructor makes of a configuration, or its refusal. */
  function Accept(raw: Config): (r: Option<Config>)
    ensures r.Some? ==> r.value.Valid() && ValidNames(r.value.varyHeaders)
    ensures r.Some? ==>
              forall x :: x in r.value.varyHeaders <==> Listed(raw.varyHeaders, x)
  {
    if !raw.Valid() || exists i | 0 <= i < |raw.varyHeaders| :: !ValidName(Lower(raw.varyHeaders[i]))
    then None
    else Some(raw.(varyHeaders := Normalized(raw.varyHeaders)))
  }

  // --------------------------------------------------- length-prefixed encoding

  function Field(value: string): string { Digits(10, |value|) + ":" + value + "|" }

  function Encode(fields: seq<string>): string {
    if fields == [] then [] else Field(fields[0]) + Encode(fields[1..])
  }

  lemma {:induction false} EncodeAppend(xs: seq<string>, ys: seq<string>)
    ensures Encode(xs + ys) == Encode(xs) + Encode(ys)
  {
    if xs == [] {
      assert xs + ys == ys;
    } else {
      assert (xs + ys)[1..] == xs[1..] + ys;
      EncodeAppend(xs[1..], ys);
    }
  }

  lemma EncodeSnoc(fields: seq<string>, value: string)
    ensures Encode(fields + [value]) == Encode(fields) + Field(value)
  {
    assert [value][1..] == [];
    EncodeAppend(fields, [value]);
  }

  /** The digits of a length end at the first colon. */
  lemma FieldLength(value: string, rest: string)
    ensures Find(Field(value) + rest, ':') == |Digits(10, |value|)|
  {
    var digits, s := Digits(10, |value|), Field(value) + rest;
    forall j | 0 <= j < |digits| ensures s[j] != ':' {
      assert s[j] == digits[j];
      assert DigitValue(10, digits[j]) >= 0;
    }
    FindIs(s, ':', |digits|);
  }

  /** A field can be read back off the front of any text. */
  lemma FieldPrefix(a: string, b: string, x: string, y: string)
    requires Field(a) + x == Field(b) + y
    ensures a == b && x == y
  {
    FieldLength(a, x);
    FieldLength(b, y);
    var s, n := Field(a) + x, |Digits(10, |a|)|;
    assert s[..n] == Digits(10, |a|) && s[..n] == Digits(10, |b|);
    ValueOfDigits(10, |a|);
    ValueOfDigits(10, |b|);
    assert s[n + 1..][..|a|] == a && s[n + 1..][..|b|] == b;
    assert s[n + 1..][|a| + 1..] == x && s[n + 1..][|b| + 1..] == y;
  }

  /** Different field lists never give the same text. */
  lemma {:induction false} EncodeIsInjective(xs: seq<string>, ys: seq<string>)
    requires Encode(xs) == Encode(ys)
    ensures xs == ys
  {
    if xs != [] && ys != [] {
      FieldPrefix(xs[0], ys[0], Encode(xs[1..]), Encode(ys[1..]));
      EncodeIsInjective(xs[1..], ys[1..]);
      assert xs == [xs[0]] + xs[1..] && ys == [ys[0]] + ys[1..];
    }
  }

  // ----------------------------------------------------------------- the key

  function HostOf(request: Request): string {
    var hosts := Values(request.headers, "host");
    if hosts == [] then "" else hosts[0]
  }

  function PathOf(target: string): string {
    var path := target[..Find(target, '?')];
    if path == [] then "/" else path
  }

  function QueryOf(target: string): string {
    var q := Find(target, '?');
    if q == |target| then "" else target[q + 1..]
  }

  /** Per configured header: its name, its values, and an empty field. */
  function VaryFields(names: seq<string>, hs: seq<Header>): seq<string> {
    if names == [] then []
    else [names[0]] + Values(hs, names[0]) + [""] + VaryFields(names[1..], hs)
  }

  function KeyFields(names: seq<string>, request: Request): seq<string> {
    ["http", Lower(HostOf(request)), PathOf(request.target), QueryOf(request.target)]
    + VaryFields(names, request.headers)
  }

  function Key(names: seq<string>, request: Request): string { Encode(KeyFields(names, request)) }

  lemma {:induction false} VaryFieldsSnoc(names: seq<string>, hs: seq<Header>, name: string)
    ensures VaryFields(names + [name], hs)
              == VaryFields(names, hs) + ([name] + Values(hs, name) + [""])
  {
    if names == [] {
      assert names + [name] == [name] && [name][1..] == [];
    } else {
      assert (names + [name])[1..] == names[1..] + [name];
      VaryFieldsSnoc(names[1..], hs, name);
    }
  }

  lemma EncodeFour(a: string, b: string, c: string, d: string)
    ensures Encode([a, b, c, d]) == Field(a) + Field(b) + Field(c) + Field(d)
  {
    hide Field;
    EncodeSnoc([], a);
    EncodeSnoc([a], b);
    EncodeSnoc([a, b], c);
    EncodeSnoc([a, b, c], d);
    assert [] + [a] == [a] && [a] + [b] == [a, b] && [a, b] + [c] == [a, b, c];
    assert [a, b, c] + [d] == [a, b, c, d];
  }

  /** The appending loops build the key. */
  method MakeKey(names: seq<string>, request: Request) returns (key: string)
    ensures key == Key(names, request)
  {
    hide Field; hide Encode;
    var host, path, query := Lower(HostOf(request)), PathOf(request.target), QueryOf(request.target);
    key := Field("http") + Field(host) + Field(path) + Field(query);
    ghost var fixed := ["http", host, path, query];
    EncodeFour("http", host, path, query);
    assert fixed + VaryFields(names[..0], request.headers) == fixed;
    for i := 0 to |names|
      invariant key == Encode(fixed + VaryFields(names[..i], request.headers))
    {
      ghost var fields := fixed + VaryFields(names[..i], request.headers);
      var values := Values(request.headers, names[i]);
      key := AppendVary(key, fields, names[i], values);
      VaryFieldsSnoc(names[..i], request.headers, names[i]);
      assert names[..i + 1] == names[..i] + [names[i]];
      assert fields + ([names[i]] + values + [""])
          == fixed + VaryFields(names[..i + 1], request.headers);
    }
    assert names[..|names|] == names;
  }

  method AppendVary(start: string, ghost fields: seq<string>, name: string, values: seq<string>)
      returns (key: string)
    requires start == Encode(fields)
    ensures key == Encode(fields + ([name] + values + [""]))
  {
    hide Field; hide Encode;
    EncodeSnoc(fields, name);
    key := start + Field(name);
    ghost var before := fields + [name];
    assert before + values[..0] == before;
    for j := 0 to |values|
      invariant key == Encode(before + values[..j])
    {
      EncodeSnoc(before + values[..j], values[j]);
      assert before + values[..j] + [values[j]] == before + values[..j + 1];
      key := key + Field(values[j]);
    }
    assert values[..|values|] == values;
    EncodeSnoc(before + values, "");
    key := key + Field("");
    assert before + values + [""] == fields + ([name] + values + [""]);
  }

  // ------------------------------------------------------ what a key determines

  /** The two requests are the same to the cache: one host, one resource, and the same
      values of the varying headers. */
  ghost predicate Alike(names: seq<string>, a: Request, b: Request) {
    && SameHost(Values(a.headers, "host"), Values(b.headers, "host"))
    && SameResource(a.target, b.target)
    && AlikeOn(names, a.headers, b.headers)
  }

  /** The first Host values are equal without regard to case; no Host is an empty one. */
  ghost predicate SameHost(xs: seq<string>, ys: seq<string>) {
    if xs == [] || ys == [] then
      (xs == [] || xs[0] == "") && (ys == [] || ys[0] == "")
    else Lower(xs[0]) == Lower(ys[0])
  }

  /** The target is a path without question mark and, after the first one, a query. */
  ghost predicate Splits(target: string, path: string, query: string) {
    '?' !in path && (target == path + "?" + query || (target == path && query == ""))
  }

  /** The targets have the same query and the same path, where no path is `/`. */
  ghost predicate SameResource(s: string, t: string) {
    exists p, q, query | Splits(s, p, query) && Splits(t, q, query) ::
      p == q || (p == "" && q == "/") || (p == "/" && q == "")
  }

  ghost predicate AlikeOn(names: seq<string>, xs: seq<Header>, ys: seq<Header>) {
    forall i | 0 <= i < |names| :: Values(xs, names[i]) == Values(ys, names[i])
  }

  /** The varying headers of the request have no empty value. */
  predicate NoBlankVary(names: seq<string>, hs: seq<Header>) {
    forall i | 0 <= i < |names| :: "" !in Values(hs, names[i])
  }

  function Blanks(fields: seq<string>): nat {
    if fields == [] then 0 else (if fields[0] == "" then 1 else 0) + Blanks(fields[1..])
  }

  lemma {:induction false} BlanksAppend(xs: seq<string>, ys: seq<string>)
    ensures Blanks(xs + ys) == Blanks(xs) + Blanks(ys)
  {
    if xs == [] {
      assert xs + ys == ys;
    } else {
      assert (xs + ys)[1..] == xs[1..] + ys;
      BlanksAppend(xs[1..], ys);
    }
  }

  lemma {:induction false} NoBlanks(xs: seq<string>)
    ensures Blanks(xs) == 0 <==> "" !in xs
  {
    if xs != [] { NoBlanks(xs[1..]); }
  }

  /** One blank closes each header; any further blank is a blank value. */
  lemma {:induction false} BlanksOfVary(names: seq<string>, hs: seq<Header>)
    requires ValidNames(names)
    ensures Blanks(VaryFields(names, hs)) >= |names|
    ensures Blanks(VaryFields(names, hs)) == |names| <==> NoBlankVary(names, hs)
  {
    if names != [] {
      var values, others := Values(hs, names[0]), VaryFields(names[1..], hs);
      BlanksOfVary(names[1..], hs);
      BlanksAppend([names[0]] + values + [""], others);
      BlanksAppend([names[0]] + values, [""]);
      BlanksAppend([names[0]], values);
      NoBlanks(values);
      assert [names[0]][1..] == [] && [""][1..] == [];
      NoBlankVaryCons(names, hs);
    }
  }

  lemma NoBlankVaryCons(names: seq<string>, hs: seq<Header>)
    requires names != []
    ensures NoBlankVary(names, hs) <==> "" !in Values(hs, names[0]) && NoBlankVary(names[1..], hs)
  {
    if "" !in Values(hs, names[0]) && NoBlankVary(names[1..], hs) {
      forall i | 0 <= i < |names| ensures "" !in Values(hs, names[i]) {
        if i > 0 { assert names[i] == names[1..][i - 1]; }
      }
    }
  }

  lemma BlankNotBefore(xs: seq<string>, ys: seq<string>, x: seq<string>, y: seq<string>)
    requires "" !in ys && xs + [""] + x == ys + [""] + y
    ensures |xs| >= |ys|
  {
    assert (xs + [""] + x)[|xs|] == "";
    assert forall i | 0 <= i < |ys| :: (ys + [""] + y)[i] == ys[i];
  }

  /** Cutting at the first blank. */
  lemma FirstBlank(xs: seq<string>, ys: seq<string>, x: seq<string>, y: seq<string>)
    requires "" !in xs && "" !in ys && xs + [""] + x == ys + [""] + y
    ensures xs == ys && x == y
  {
    BlankNotBefore(xs, ys, x, y);
    BlankNotBefore(ys, xs, y, x);
    var s := xs + [""] + x;
    assert s[..|xs|] == xs && s[..|ys|] == ys;
    assert s[|xs| + 1..] == x && s[|ys| + 1..] == y;
  }

  /** Where neither request has a blank value, the fields determine the values. */
  lemma {:induction false} FieldsDetermineValues(names: seq<string>, xs: seq<Header>, ys: seq<Header>)
    requires NoBlankVary(names, xs) && NoBlankVary(names, ys)
    requires VaryFields(names, xs) == VaryFields(names, ys)
    ensures AlikeOn(names, xs, ys)
  {
    if names != [] {
      var a, b := Values(xs, names[0]), Values(ys, names[0]);
      var x, y := VaryFields(names[1..], xs), VaryFields(names[1..], ys);
      assert VaryFields(names, xs)[1..] == a + [""] + x;
      assert VaryFields(names, ys)[1..] == b + [""] + y;
      FirstBlank(a, b, x, y);
      NoBlankVaryCons(names, xs);
      NoBlankVaryCons(names, ys);
      FieldsDetermineValues(names[1..], xs, ys);
      AlikeOnCons(names, xs, ys);
    }
  }

  lemma AlikeOnCons(names: seq<string>, xs: seq<Header>, ys: seq<Header>)
    requires names != []
    requires Values(xs, names[0]) == Values(ys, names[0]) && AlikeOn(names[1..], xs, ys)
    ensures AlikeOn(names, xs, ys)
  {
    forall i | 0 <= i < |names| ensures Values(xs, names[i]) == Values(ys, names[i]) {
      if i > 0 { assert names[i] == names[1..][i - 1]; }
    }
  }

  /** Every target splits in exactly one way. */
  lemma SplitsExactly(target: string, path: string, query: string)
    ensures Splits(target, path, query) <==>
              path == target[..Find(target, '?')] && query == QueryOf(target)
  {
    var i := Find(target, '?');
    if i < |target| { assert target == target[..i] + "?" + target[i + 1..]; }
    if Splits(target, path, query) {
      assert forall j | 0 <= j < |path| :: target[j] == path[j];
      if target == path + "?" + query {
        FindIs(target, '?', |path|);
        assert target[..|path|] == path && target[|path| + 1..] == query;
      }
    }
  }

  lemma ResourceExactly(s: string, t: string)
    ensures SameResource(s, t) <==> PathOf(s) == PathOf(t) && QueryOf(s) == QueryOf(t)
  {
    var p, q := s[..Find(s, '?')], t[..Find(t, '?')];
    SplitsExactly(s, p, QueryOf(s));
    SplitsExactly(t, q, QueryOf(t));
    hide Splits; hide QueryOf;
    if SameResource(s, t) {
      var a, b, query :| Splits(s, a, query) && Splits(t, b, query) &&
                         (a == b || (a == "" && b == "/") || (a == "/" && b == ""));
      SplitsExactly(s, a, query);
      SplitsExactly(t, b, query);
    }
  }

  lemma HostExactly(a: Request, b: Request)
    ensures SameHost(Values(a.headers, "host"), Values(b.headers, "host"))
            <==> Lower(HostOf(a)) == Lower(HostOf(b))
  {
    hide Values;
  }

  /** The fixed fields of the key are equal for one host and one resource only. */
  lemma FixedFieldsExactly(a: Request, b: Request)
    ensures Lower(HostOf(a)) == Lower(HostOf(b))
            && PathOf(a.target) == PathOf(b.target) && QueryOf(a.target) == QueryOf(b.target)
        <==> SameHost(Values(a.headers, "host"), Values(b.headers, "host"))
             && SameResource(a.target, b.target)
  {
    HostExactly(a, b);
    ResourceExactly(a.target, b.target);
  }

  lemma SplitKey(names: seq<string>, a: Request, b: Request)
    requires Key(names, a) == Key(names, b)
    ensures SameHost(Values(a.headers, "host"), Values(b.headers, "host"))
    ensures SameResource(a.target, b.target)
    ensures VaryFields(names, a.headers) == VaryFields(names, b.headers)
  {
    FixedFieldsExactly(a, b);
    hide SameHost; hide SameResource; hide PathOf; hide QueryOf; hide HostOf; hide Lower;
    var f, g := KeyFields(names, a), KeyFields(names, b);
    EncodeIsInjective(f, g);
    assert f[1] == g[1] && f[2] == g[2] && f[3] == g[3];
    assert f[4..] == VaryFields(names, a.headers) && g[4..] == VaryFields(names, b.headers);
  }

  /** Equal keys mean alike requests, if one of the two has no blank value under a
      varying header or there is at most one varying header. */
  lemma EqualKeysAreAlike(names: seq<string>, a: Request, b: Request)
    requires ValidNames(names) && Key(names, a) == Key(names, b)
    requires |names| <= 1 || NoBlankVary(names, a.headers) || NoBlankVary(names, b.headers)
    ensures Alike(names, a, b)
  {
    hide Key; hide Blanks; hide SameHost; hide SameResource;
    SplitKey(names, a, b);
    if |names| > 1 {
      BlanksOfVary(names, a.headers);
      BlanksOfVary(names, b.headers);
      FieldsDetermineValues(names, a.headers, b.headers);
    } else if |names| == 1 {
      var x, y := Values(a.headers, names[0]), Values(b.headers, names[0]);
      assert VaryFields(names, a.headers) == [names[0]] + x + [""];
      assert VaryFields(names, b.headers) == [names[0]] + y + [""];
      assert x == ([names[0]] + x + [""])[1..|x| + 1] && y == ([names[0]] + y + [""])[1..|y| + 1];
    }
  }

  /** The converse: alike requests share their key. */
  lemma {:induction false} AlikeFields(names: seq<string>, xs: seq<Header>, ys: seq<Header>)
    requires AlikeOn(names, xs, ys)
    ensures VaryFields(names, xs) == VaryFields(names, ys)
  {
    if names != [] {
      assert Values(xs, names[0]) == Values(ys, names[0]);
      forall i | 0 <= i < |names[1..]|
        ensures Values(xs, names[1..][i]) == Values(ys, names[1..][i])
      {
        assert names[1..][i] == names[i + 1];
      }
      AlikeFields(names[1..], xs, ys);
    }
  }

  lemma AlikeSharesKey(names: seq<string>, a: Request, b: Request)
    requires Alike(names, a, b)
    ensures Key(names, a) == Key(names, b)
  {
    FixedFieldsExactly(a, b);
    hide SameHost; hide SameResource; hide PathOf; hide QueryOf; hide HostOf;
    AlikeFields(names, a.headers, b.headers);
  }

  // ------------------------------------------- two varying headers can collide

  /** A request with these values under one header and no other header. */
  function Spelling(name: string, values: seq<string>): Request {
    Request(Method.Get, "/", 0, Under(name, values), "")
  }

  function Under(name: string, values: seq<string>): seq<Header> {
    if values == [] then [] else [Header(name, values[0])] + Under(name, values[1..])
  }

  lemma {:induction false} ValuesUnder(name: string, values: seq<string>, other: string)
    requires IsLower(name)
    ensures Values(Under(name, values), other) == if Lower(other) == name then values else []
  {
    if values != [] { ValuesUnder(name, values[1..], other); }
  }

  lemma {:induction false} VaryFieldsAppend(xs: seq<string>, ys: seq<string>, hs: seq<Header>)
    ensures VaryFields(xs + ys, hs) == VaryFields(xs, hs) + VaryFields(ys, hs)
  {
    hide Values;
    if xs == [] {
      assert xs + ys == ys;
    } else {
      assert (xs + ys)[1..] == xs[1..] + ys;
      VaryFieldsAppend(xs[1..], ys, hs);
    }
  }

  /** Headers that are not there leave only their names in the key. */
  lemma {:induction false} FieldsOfAbsent(names: seq<string>, name: string, values: seq<string>)
    requires IsLower(name) && name !in names
    requires forall i | 0 <= i < |names| :: IsLower(names[i])
    ensures VaryFields(names, Under(name, values)) == VaryFields(names, [])
  {
    if names != [] {
      ValuesUnder(name, values, names[0]);
      LowerIdentity(names[0]);
      forall i | 0 <= i < |names[1..]| ensures IsLower(names[1..][i]) {
        assert names[1..][i] == names[i + 1];
      }
      FieldsOfAbsent(names[1..], name, values);
    }
  }

  /** Values that spell what the key has between two headers: an empty field, the
      names between them, and the second name. */
  function Gap(names: seq<string>, i: nat, j: nat): seq<string>
    requires i < j < |names|
  {
    [""] + VaryFields(names[i + 1..j], []) + [names[j]]
  }

  lemma CollidingFields(names: seq<string>, i: nat, j: nat)
    requires ValidNames(names) && i < j < |names|
    ensures VaryFields(names, Under(names[i], Gap(names, i, j)))
         == VaryFields(names, Under(names[j], Gap(names, i, j)))
  {
    var a, p, b, q, c := names[..i], names[i], names[i + 1..j], names[j], names[j + 1..];
    var gap := Gap(names, i, j);
    Pieces(names, i, j);
    FieldsAround(a, p, b, q, c, Under(p, gap));
    FieldsAround(a, p, b, q, c, Under(q, gap));
    ValuesUnder(p, gap, p);
    ValuesUnder(p, gap, q);
    ValuesUnder(q, gap, p);
    ValuesUnder(q, gap, q);
    LowerIdentity(p);
    LowerIdentity(q);
    FieldsOfAbsent(a, p, gap);
    FieldsOfAbsent(b, p, gap);
    FieldsOfAbsent(c, p, gap);
    FieldsOfAbsent(a, q, gap);
    FieldsOfAbsent(b, q, gap);
    FieldsOfAbsent(c, q, gap);
    hide VaryFields; hide Under; hide Values; hide ValidNames;
    Regroup(VaryFields(a, []), p, VaryFields(b, []), q, VaryFields(c, []));
  }

  lemma Pieces(names: seq<string>, i: nat, j: nat)
    requires ValidNames(names) && i < j < |names|
    ensures names == names[..i] + [names[i]] + names[i + 1..j] + [names[j]] + names[j + 1..]
    ensures Others(names[..i], names[i], names[j]) && Others(names[i + 1..j], names[i], names[j])
    ensures Others(names[j + 1..], names[i], names[j])
    ensures IsLower(names[i]) && IsLower(names[j]) && names[i] != names[j]
  {
    hide ValidName; hide IsLower;
    assert names == names[..i] + [names[i]] + names[i + 1..j] + [names[j]] + names[j + 1..];
    OthersSlice(names, i, j, 0, i);
    OthersSlice(names, i, j, i + 1, j);
    OthersSlice(names, i, j, j + 1, |names|);
    assert names[0..i] == names[..i] && names[j + 1..|names|] == names[j + 1..];
  }

  /** Lower-case names, and neither of the two. */
  ghost predicate Others(names: seq<string>, p: string, q: string) {
    forall k | 0 <= k < |names| :: names[k] != p && names[k] != q && IsLower(names[k])
  }

  lemma OthersSlice(names: seq<string>, i: nat, j: nat, from: nat, to: nat)
    requires ValidNames(names) && i < |names| && j < |names| && from <= to <= |names|
    requires !(from <= i < to) && !(from <= j < to)
    ensures Others(names[from..to], names[i], names[j])
  {
    hide ValidName; hide IsLower;
    forall k | 0 <= k < to - from
      ensures var x := names[from..to][k]; x != names[i] && x != names[j] && IsLower(x)
    {
      assert names[from..to][k] == names[from + k];
    }
  }

  lemma FieldsAround(a: seq<string>, p: string, b: seq<string>, q: string, c: seq<string>,
                     hs: seq<Header>)
    ensures VaryFields(a + [p] + b + [q] + c, hs)
         == VaryFields(a, hs) + ([p] + Values(hs, p) + [""]) + VaryFields(b, hs)
            + ([q] + Values(hs, q) + [""]) + VaryFields(c, hs)
  {
    hide Values;
    VaryFieldsAppend(a + [p] + b + [q], c, hs);
    VaryFieldsAppend(a + [p] + b, [q], hs);
    VaryFieldsAppend(a + [p], b, hs);
    VaryFieldsAppend(a, [p], hs);
    OneField(p, hs);
    OneField(q, hs);
  }

  lemma OneField(name: string, hs: seq<Header>)
    ensures VaryFields([name], hs) == [name] + Values(hs, name) + [""]
  {
    assert [name][1..] == [];
  }

  lemma Regroup(a: seq<string>, p: string, b: seq<string>, q: string, c: seq<string>)
    ensures a + ([p] + ([""] + b + [q]) + [""]) + b + ([q] + [] + [""]) + c
         == a + ([p] + [] + [""]) + b + ([q] + ([""] + b + [q]) + [""]) + c
  {
    var gap := [""] + b + [q];
    assert ([p] + gap + [""]) + b + ([q] + [] + [""]) == ([p] + [] + [""]) + b + ([q] + gap + [""]);
  }

  /** For any two varying headers, two unlike requests with one key: the values that
      spell the gap, once under the first header and once under the second. */
  lemma Collision(names: seq<string>, i: nat, j: nat)
    requires ValidNames(names) && i < j < |names|
    ensures var gap := Gap(names, i, j);
            var a, b := Spelling(names[i], gap), Spelling(names[j], gap);
            && Key(names, a) == Key(names, b) && !Alike(names, a, b)
            && Values(a.headers, names[i]) == gap && Values(b.headers, names[i]) == []
            && Values(a.headers, names[j]) == [] && Values(b.headers, names[j]) == gap
            && gap != []
  {
    var p, q, gap := names[i], names[j], Gap(names, i, j);
    var a, b := Spelling(p, gap), Spelling(q, gap);
    CollidingFields(names, i, j);
    Pieces(names, i, j);
    LowerIdentity(p);
    LowerIdentity(q);
    ValuesUnder(p, gap, p);
    ValuesUnder(q, gap, p);
    ValuesUnder(p, gap, q);
    ValuesUnder(q, gap, q);
    ValuesUnder(p, gap, "host");
    ValuesUnder(q, gap, "host");
    assert gap[0] == "";
    hide Values; hide VaryFields; hide Encode; hide ValidNames; hide Under; hide Gap;
    assert HostOf(a) == "" && HostOf(b) == "";
    assert Values(a.headers, names[i]) != Values(b.headers, names[i]);
  }

  /** The key separates all requests that are not alike exactly when at most one
      varying header is configured. */
  lemma KeyIsExact(names: seq<string>)
    requires ValidNames(names)
    ensures (forall a, b | Key(names, a) == Key(names, b) :: Alike(names, a, b)) <==> |names| <= 1
  {
    hide Key; hide Alike;
    if |names| <= 1 {
      forall a, b | Key(names, a) == Key(names, b) ensures Alike(names, a, b) {
        EqualKeysAreAlike(names, a, b);
      }
    } else {
      Collision(names, 0, 1);
    }
  }
}
