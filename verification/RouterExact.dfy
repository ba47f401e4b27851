/** What may be looked up and what may be stored, spelled out header by header. */
module RouterExact {
  import opened Bytes
  import opened Headers
  import opened Messages
  import opened Caching
  import opened Routing

  predicate Named(hs: seq<Header>, name: string) { exists h | h in hs :: h.name == name }

  lemma {:induction false} ValuesAreNamed(hs: seq<Header>, name: string)
    requires IsLower(name)
    ensures Values(hs, name) != [] <==> Named(hs, name)
    ensures forall v :: v in Values(hs, name) <==> Header(name, v) in hs
  {
    LowerIdentity(name);
    if hs != [] {
      ValuesAreNamed(hs[1..], name);
      assert hs == [hs[0]] + hs[1..];
      assert forall h :: h in hs <==> h == hs[0] || h in hs[1..];
    }
  }

  /** A request is looked up exactly if it is a GET or a HEAD without credentials. */
  lemma LookedUpExactly(q: Request)
    ensures CacheableRequest(q) <==>
              && (q.verb == Method.Get || q.verb == Method.Head)
              && !Named(q.headers, "authorization") && !Named(q.headers, "cookie")
  {
    ValuesAreNamed(q.headers, "authorization");
    ValuesAreNamed(q.headers, "cookie");
    hide Values; hide Named;
  }

  /** A member of a Cache-Control value is the directive, with or without an argument. */
  ghost predicate IsDirective(part: string, directive: string) {
    exists name, argument | '=' !in name && Lower(Trim(name)) == directive ::
      Reads(Trim(part), name, argument)
  }

  /** A name, or a name and an argument. */
  predicate Reads(item: string, name: string, argument: string) {
    item == name || item == name + ("=" + argument)
  }

  lemma DirectiveExactly(part: string, directive: string)
    ensures DirectiveName(part) == directive <==> IsDirective(part, directive)
  {
    var item := Trim(part);
    var e := Find(item, '=');
    FindSplits(item, '=');
    hide Trim; hide Lower; hide Find;
    var front, rest := item[..e], if e < |item| then item[e + 1..] else [];
    assert Reads(item, front, rest);
    assert DirectiveName(part) == Lower(Trim(front));
    if DirectiveName(part) == directive { DirectiveBy(part, directive, front, rest); }
    if IsDirective(part, directive) {
      var name, argument :| '=' !in name && Lower(Trim(name)) == directive &&
                            Reads(item, name, argument);
      CutAtEquals(item, name, argument);
    }
  }

  lemma DirectiveBy(part: string, directive: string, name: string, argument: string)
    requires '=' !in name && Lower(Trim(name)) == directive
    requires Reads(Trim(part), name, argument)
    ensures IsDirective(part, directive)
  {
    hide Trim; hide Lower; hide Reads;
  }

  lemma CutAtEquals(item: string, name: string, argument: string)
    requires '=' !in name && (item == name || item == name + ("=" + argument))
    ensures item[..Find(item, '=')] == name
  {
    assert forall j | 0 <= j < |name| :: item[j] == name[j];
    if item == name {
      assert Find(item, '=') == |item|;
      assert item[..|item|] == item;
    } else {
      FindIs(item, '=', |name|);
      assert item[..|name|] == name;
    }
  }

  /** Some Cache-Control header has the directive. */
  ghost predicate Directed(hs: seq<Header>, directive: string) {
    exists v, part | Header("cache-control", v) in hs && part in CommaParts(v) ::
      IsDirective(part, directive)
  }

  lemma SensitiveExactly(hs: seq<Header>)
    ensures Sensitive(hs) <==>
              || Named(hs, "set-cookie") || Directed(hs, "no-store") || Directed(hs, "private")
  {
    ValuesAreNamed(hs, "set-cookie");
    ValuesAreNamed(hs, "cache-control");
    var values := Values(hs, "cache-control");
    DirectedByValue(hs, values, "no-store");
    DirectedByValue(hs, values, "private");
    hide Values; hide CommaParts; hide DirectiveName; hide IsDirective; hide Named; hide Directed;
    hide HasDirective;
  }

  lemma DirectedByValue(hs: seq<Header>, values: seq<string>, directive: string)
    requires forall v :: v in values <==> Header("cache-control", v) in hs
    ensures Directed(hs, directive) <==>
              exists i | 0 <= i < |values| :: HasDirective(values[i], directive)
  {
    hide CommaParts; hide DirectiveName; hide IsDirective;
    if Directed(hs, directive) {
      var v, part :| Header("cache-control", v) in hs && part in CommaParts(v) &&
                     IsDirective(part, directive);
      DirectiveExactly(part, directive);
      var i :| 0 <= i < |values| && values[i] == v;
      var j :| 0 <= j < |CommaParts(v)| && CommaParts(v)[j] == part;
      assert HasDirective(values[i], directive);
    }
    if exists i | 0 <= i < |values| :: HasDirective(values[i], directive) {
      var i :| 0 <= i < |values| && HasDirective(values[i], directive);
      var parts := CommaParts(values[i]);
      var j :| 0 <= j < |parts| && DirectiveName(parts[j]) == directive;
      DirectiveExactly(parts[j], directive);
      assert Header("cache-control", values[i]) in hs && parts[j] in parts;
    }
  }

  /** Every member of every Vary header is the name of a configured header. */
  ghost predicate VariesWithin(hs: seq<Header>, names: seq<string>) {
    forall v, part | Header("vary", v) in hs && part in CommaParts(v) ::
      var name := Lower(Trim(part));
      ValidName(name) && name != "*" && name in names
  }

  lemma VaryExactly(hs: seq<Header>, names: seq<string>)
    ensures VaryCovered(hs, names) <==> VariesWithin(hs, names)
  {
    ValuesAreNamed(hs, "vary");
    hide Values; hide CommaParts; hide ValidName; hide Lower; hide Trim;
    var values := Values(hs, "vary");
    if VaryCovered(hs, names) {
      forall v, part | Header("vary", v) in hs && part in CommaParts(v)
        ensures CoveredName(Lower(Trim(part)), names)
      {
        var i :| 0 <= i < |values| && values[i] == v;
        assert PartsCovered(CommaParts(values[i]), names);
      }
    }
    if VariesWithin(hs, names) {
      forall i | 0 <= i < |values| ensures PartsCovered(CommaParts(values[i]), names) {
        assert Header("vary", values[i]) in hs;
      }
    }
  }

  /** A response is stored exactly if it is a 200 that was not written yet, its body is
      below the limit of an entry, it sets no cookie, it forbids no storing, and it varies
      on configured headers only. */
  lemma StoredExactly(r: Response, cfg: Config)
    ensures CacheableResponse(r, cfg) <==>
              && r.status == 200 && !r.alreadyWritten && |r.body| < cfg.maxEntryBytes
              && !Named(r.headers, "set-cookie")
              && !Directed(r.headers, "no-store") && !Directed(r.headers, "private")
              && VariesWithin(r.headers, cfg.varyHeaders)
  {
    hide Sensitive; hide VaryCovered; hide Named; hide Directed; hide VariesWithin;
    SensitiveExactly(r.headers);
    VaryExactly(r.headers, cfg.varyHeaders);
  }
}
