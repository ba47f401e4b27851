/** Header lists. A list travels by value inside its message, so it is a sequence
    and the mutators return the new list. Stored names are always lower case. */
module Headers {
  import opened Bytes

  datatype Header = Header(name: string, value: string)

  // ----------------------------------------------------------------- validity

  predicate IsTokenChar(c: char) {
    '0' <= c <= '9' || 'a' <= c <= 'z' || 'A' <= c <= 'Z' || c in "!#$%&'*+-.^_`|~"
  }

  predicate ValidName(name: string) {
    name != [] && forall i | 0 <= i < |name| :: IsTokenChar(name[i])
  }

  predicate ValidValue(value: string) {
    forall i | 0 <= i < |value| :: value[i] != '\r' && value[i] != '\n' && value[i] != '\0'
  }

  /** What every parsed header satisfies, and what printing needs. */
  predicate Clean(h: Header) {
    ValidName(h.name) && IsLower(h.name) && ValidValue(h.value) && Trimmed(h.value)
  }

  predicate AllClean(hs: seq<Header>) { forall i | 0 <= i < |hs| :: Clean(hs[i]) }

  lemma CleanAppend(hs: seq<Header>, h: Header)
    requires AllClean(hs) && Clean(h)
    ensures AllClean(hs + [h])
  {}

  // --------------------------------------------------------------- operations

  function Add(hs: seq<Header>, name: string, value: string): (r: seq<Header>)
    ensures ValidName(name) && ValidValue(value) && Trimmed(value) && AllClean(hs) ==> AllClean(r)
  {
    LowerIdentity(name);
    assert ValidName(name) ==> ValidName(Lower(name));
    hs + [Header(Lower(name), value)]
  }

  function Erase(hs: seq<Header>, name: string): (r: seq<Header>)
    ensures forall i | 0 <= i < |r| :: r[i].name != Lower(name)
  {
    if hs == [] then []
    else if hs[0].name == Lower(name) then Erase(hs[1..], name)
    else [hs[0]] + Erase(hs[1..], name)
  }

  function Set(hs: seq<Header>, name: string, value: string): seq<Header> {
    Add(Erase(hs, name), name, value)
  }

  function Values(hs: seq<Header>, name: string): (r: seq<string>)
    ensures r == [] <==> forall i | 0 <= i < |hs| :: hs[i].name != Lower(name)
  {
    if hs == [] then []
    else if hs[0].name == Lower(name) then [hs[0].value] + Values(hs[1..], name)
    else Values(hs[1..], name)
  }

  predicate Contains(hs: seq<Header>, name: string) { Values(hs, name) != [] }

  lemma {:induction false} ValuesAppend(xs: seq<Header>, ys: seq<Header>, name: string)
    ensures Values(xs + ys, name) == Values(xs, name) + Values(ys, name)
  {
    if xs == [] {
      assert xs + ys == ys;
    } else {
      assert (xs + ys)[1..] == xs[1..] + ys;
      ValuesAppend(xs[1..], ys, name);
    }
  }

  /** Replacing a header leaves every other name's values alone. */
  lemma {:induction false} ErasePreservesValues(hs: seq<Header>, name: string, other: string)
    requires Lower(other) != Lower(name)
    ensures Values(Erase(hs, name), other) == Values(hs, other)
  {
    if hs != [] {
      ErasePreservesValues(hs[1..], name, other);
      if hs[0].name != Lower(name) {
        assert Erase(hs, name)[1..] == Erase(hs[1..], name);
      }
    }
  }

  /** `set` leaves exactly one value under its name and every other name alone. */
  lemma SetIsUpdate(hs: seq<Header>, name: string, value: string, other: string)
    ensures Values(Set(hs, name, value), name) == [value]
    ensures Lower(other) != Lower(name) ==> Values(Set(hs, name, value), other) == Values(hs, other)
  {
    var kept, last := Erase(hs, name), [Header(Lower(name), value)];
    assert Set(hs, name, value) == kept + last;
    assert last[1..] == [];
    ValuesAppend(kept, last, name);
    ValuesAppend(kept, last, other);
    if Lower(other) != Lower(name) { ErasePreservesValues(hs, name, other); }
  }

  /** The bytes of the lines that gave these headers, at least. */
  function HeaderCost(hs: seq<Header>): nat {
    if hs == [] then 0
    else HeaderCost(hs[..|hs| - 1]) + |hs[|hs| - 1].name| + |hs[|hs| - 1].value| + 3
  }

  lemma CostSnoc(hs: seq<Header>, h: Header)
    ensures HeaderCost(hs + [h]) == HeaderCost(hs) + |h.name| + |h.value| + 3
  {
    assert (hs + [h])[..|hs|] == hs;
  }

  // -------------------------------------------------------------- header lines

  lemma AddedIsClean(name: string, value: string)
    requires ValidName(name) && ValidValue(value) && Trimmed(value)
    ensures Clean(Header(Lower(name), value)) && Add([], name, value) == [Header(Lower(name), value)]
  {
    var added := Add([], name, value);
    assert AllClean([]);
    assert Clean(added[0]);
  }

  /** One header line: name, colon, optional blanks, value. */
  function ParseHeaderLine(line: string): (r: Option<Header>)
    ensures r.Some? ==> Clean(r.value)
  {
    var colon := Find(line, ':');
    if colon == |line| then None else
    var name, value := line[..colon], Trim(line[colon + 1..]);
    if !ValidName(name) || !ValidValue(value) then None else
    AddedIsClean(name, value);
    Some(Header(Lower(name), value))
  }

  lemma HeaderLineLength(line: string)
    requires ParseHeaderLine(line).Some?
    ensures var h := ParseHeaderLine(line).value; |h.name| + 1 + |h.value| <= |line|
  {
    hide ValidName; hide ValidValue;
    var colon := Find(line, ':');
    TrimShortens(line[colon + 1..]);
  }

  lemma TrimShortens(s: string)
    ensures |Trim(s)| <= |s|
  {}

  // -------------------------------------------------------------- token lists

  /** The comma-separated members of a field value, untrimmed. */
  function CommaParts(v: string): (parts: seq<string>)
    decreases |v|
  {
    if v == [] then [] else
    var c := Find(v, ',');
    [v[..c]] + (if c == |v| then [] else CommaParts(v[c + 1..]))
  }

  ghost predicate HasToken(parts: seq<string>, token: string) {
    exists i | 0 <= i < |parts| :: Lower(Trim(parts[i])) == Lower(token)
  }

  predicate ContainsToken(v: string, token: string)
    decreases |v|
  {
    v != [] &&
    var c := Find(v, ',');
    Lower(Trim(v[..c])) == Lower(token) || (c < |v| && ContainsToken(v[c + 1..], token))
  }

  /** The scan finds a token exactly when some trimmed list member equals it,
      ignoring case. */
  lemma {:induction false} ContainsTokenIsMembership(v: string, token: string)
    ensures ContainsToken(v, token) <==> HasToken(CommaParts(v), token)
    decreases |v|
  {
    hide Trim; hide Lower; hide HasToken; hide ContainsToken; hide CommaParts; hide Find;
    NoToken(token);
    if v != [] {
      FirstPart(v, token);
      FirstMember(v);
      var c := Find(v, ',');
      if c < |v| {
        ContainsTokenIsMembership(v[c + 1..], token);
        HasTokenCons(v[..c], CommaParts(v[c + 1..]), token);
      } else {
        HasTokenCons(v[..c], [], token);
      }
    }
  }

  lemma NoToken(token: string)
    ensures !HasToken([], token) && CommaParts([]) == [] && !ContainsToken([], token)
  {}

  /** The scan, cut at the first comma. */
  lemma FirstPart(v: string, token: string)
    requires v != []
    ensures var c := Find(v, ',');
            ContainsToken(v, token) <==>
              || Lower(Trim(v[..c])) == Lower(token)
              || (c < |v| && ContainsToken(v[c + 1..], token))
  {
    hide Trim; hide Lower; hide Find;
  }

  /** The list, cut at the first comma. */
  lemma FirstMember(v: string)
    requires v != []
    ensures var c := Find(v, ',');
            CommaParts(v) == [v[..c]] + (if c == |v| then [] else CommaParts(v[c + 1..]))
  {
    hide Find;
  }

  lemma HasTokenCons(part: string, parts: seq<string>, token: string)
    ensures HasToken([part] + parts, token) <==>
              Lower(Trim(part)) == Lower(token) || HasToken(parts, token)
  {
    hide Trim; hide Lower;
    var all := [part] + parts;
    if Lower(Trim(part)) == Lower(token) {
      assert Lower(Trim(all[0])) == Lower(token);
    }
    if HasToken(parts, token) {
      var i :| 0 <= i < |parts| && Lower(Trim(parts[i])) == Lower(token);
      assert all[i + 1] == parts[i];
    }
    if HasToken(all, token) {
      var i :| 0 <= i < |all| && Lower(Trim(all[i])) == Lower(token);
      assert i > 0 ==> all[i] == parts[i - 1];
    }
  }

  /** A value with a single member contains that member and nothing else. */
  lemma SingleToken(v: string, token: string)
    requires v != [] && Trimmed(v) && forall i | 0 <= i < |v| :: v[i] != ','
    ensures ContainsToken(v, token) <==> Lower(v) == Lower(token)
  {
    assert Find(v, ',') == |v|;
    assert v[..|v|] == v && TrimLeft(v) == v && TrimRight(v) == v;
  }

  /** The scanning loop over a shrinking view. */
  method ScanForToken(value: string, token: string) returns (found: bool)
    ensures found <==> HasToken(CommaParts(value), token)
  {
    hide Trim; hide Lower; hide HasToken; hide CommaParts; hide ContainsToken; hide Find;
    ContainsTokenIsMembership(value, token);
    NoToken(token);
    var view := value;
    while view != []
      invariant ContainsToken(view, token) == ContainsToken(value, token)
      decreases |view|
    {
      FirstPart(view, token);
      var comma := Find(view, ',');
      var part := Trim(view[..comma]);
      if Lower(part) == Lower(token) { return true; }
      if comma == |view| { return false; }
      view := view[comma + 1..];
    }
    return false;
  }
}
