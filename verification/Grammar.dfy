/** The grammar of single lines, written out character by character, and what the line
    parsers make of every line. Section 5.6.2 of RFC 9110 defines tokens; section 3, 4
    and 7.1 of RFC 9112 define request lines, status lines and chunk sizes. */
module Grammar {
  import opened Bytes
  import opened Headers
  import opened Messages
  import RequestParser
  import ResponseParser

  // -------------------------------------------------------------- characters

  /** A token: visible ASCII without the delimiters. */
  predicate Token(s: string) {
    s != [] && forall i | 0 <= i < |s| ::
      33 as char <= s[i] <= 126 as char && s[i] !in "\"(),/:;<=>?@[\\]{}"
  }

  lemma TokenCharExactly(c: char)
    ensures IsTokenChar(c) <==>
              33 as char <= c <= 126 as char && c !in "\"(),/:;<=>?@[\\]{}"
  {}

  lemma ValidNameIsToken(s: string)
    ensures ValidName(s) <==> Token(s)
  {
    forall c: char
      ensures IsTokenChar(c) <==> 33 as char <= c <= 126 as char && c !in "\"(),/:;<=>?@[\\]{}"
    {
      TokenCharExactly(c);
    }
    hide IsTokenChar;
  }

  /** One line of text: no CR, LF or NUL. */
  predicate OneLine(s: string) { '\r' !in s && '\n' !in s && '\0' !in s }

  lemma ValidValueIsOneLine(s: string)
    ensures ValidValue(s) <==> OneLine(s)
  {}

  predicate Blanks(s: string) { forall i | 0 <= i < |s| :: s[i] == ' ' || s[i] == '\t' }

  predicate NoBlankEnds(s: string) {
    s == [] || (s[0] != ' ' && s[0] != '\t' && s[|s| - 1] != ' ' && s[|s| - 1] != '\t')
  }

  /** Trimming takes away exactly the spaces and tabs at both ends. */
  lemma TrimExactly(a: string, v: string, b: string)
    requires Blanks(a) && Blanks(b) && NoBlankEnds(v)
    ensures Trim(a + v + b) == v
  {
    assert a + v + b == a + (v + b);
    if v == [] {
      assert a + (v + b) == (a + b) + [];
      AllBlank(a + b);
    } else {
      DropFront(a, v + b);
      DropBack(v, b);
    }
  }

  lemma {:induction false} AllBlank(s: string)
    requires Blanks(s)
    ensures TrimLeft(s) == [] && Trim(s) == []
  {
    if s != [] { AllBlank(s[1..]); }
  }

  lemma {:induction false} DropFront(a: string, s: string)
    requires Blanks(a) && (s == [] || (s[0] != ' ' && s[0] != '\t'))
    ensures TrimLeft(a + s) == s
  {
    if a == [] {
      assert a + s == s;
    } else {
      assert (a + s)[1..] == a[1..] + s;
      DropFront(a[1..], s);
    }
  }

  lemma {:induction false} DropBack(s: string, b: string)
    requires Blanks(b) && (s == [] || (s[|s| - 1] != ' ' && s[|s| - 1] != '\t'))
    ensures TrimRight(s + b) == s
  {
    if b == [] {
      assert s + b == s;
    } else {
      var n := |b| - 1;
      assert (s + b)[..|s + b| - 1] == s + b[..n];
      assert (s + b)[|s + b| - 1] == b[n];
      DropBack(s, b[..n]);
    }
  }

  const CAPITALS: string := "ABCDEFGHIJKLMNOPQRSTUVWXYZ"
  const SMALLS: string := "abcdefghijklmnopqrstuvwxyz"

  /** Lower case maps the 26 capitals, and nothing else. */
  lemma LowerExactly(c: char)
    ensures forall i | 0 <= i < 26 :: LowerChar(CAPITALS[i]) == SMALLS[i]
    ensures c !in CAPITALS ==> LowerChar(c) == c
  {
    if 'A' <= c <= 'Z' {
      var i := (c as int) - ('A' as int);
      assert CAPITALS[i] == c;
    }
  }

  const HEX: string := "0123456789abcdef"
  const UPPER_HEX: string := "0123456789ABCDEF"

  /** The digits and what they count. */
  lemma DigitsExactly(c: char)
    ensures forall i | 0 <= i < 16 ::
              DigitValue(16, HEX[i]) == i && DigitValue(16, UPPER_HEX[i]) == i
    ensures forall i | 0 <= i < 10 :: DigitValue(10, HEX[i]) == i
    ensures c !in HEX && c !in UPPER_HEX ==> DigitValue(16, c) == -1
    ensures c !in HEX[..10] ==> DigitValue(10, c) == -1
  {
    if '0' <= c <= '9' { assert HEX[..10][(c as int) - ('0' as int)] == c; }
    if 'a' <= c <= 'f' { assert HEX[(c as int) - ('a' as int) + 10] == c; }
    if 'A' <= c <= 'F' { assert UPPER_HEX[(c as int) - ('A' as int) + 10] == c; }
  }

  /** A size is read from digits only, most significant first, and only if it fits. */
  lemma SizeExactly(base: nat, s: string, c: char)
    requires base == 10 || base == 16
    ensures ParseSize(base, []) == None
    ensures DigitValue(base, c) < 0 ==> ParseSize(base, s + [c]) == None
    ensures s == [] && DigitValue(base, c) >= 0 ==> ParseSize(base, s + [c]) == Some(DigitValue(base, c))
    ensures s != [] && DigitValue(base, c) >= 0 ==>
              ParseSize(base, s + [c]) ==
                match ParseSize(base, s)
                case None => None
                case Some(n) =>
                  if n * base + DigitValue(base, c) < 0x1_0000_0000_0000_0000
                  then Some(n * base + DigitValue(base, c)) else None
  {
    var t := s + [c];
    assert t[..|s|] == s && t[|s|] == c;
    if DigitValue(base, c) >= 0 {
      assert AllDigits(base, t) <==> AllDigits(base, s) by {
        if AllDigits(base, t) {
          forall i | 0 <= i < |s| ensures DigitValue(base, s[i]) >= 0 { assert t[i] == s[i]; }
        }
      }
      if AllDigits(base, s) { ValueAppend(base, s, c); }
    }
  }

  // --------------------------------------------------------------- header lines

  /** Every header line: a token, a colon, and a value between blanks. */
  lemma HeaderLineExactly(name: string, rest: string)
    requires ':' !in name
    ensures ParseHeaderLine(name + ":" + rest) ==
              if Token(name) && OneLine(Trim(rest)) then Some(Header(Lower(name), Trim(rest))) else None
    ensures ParseHeaderLine(name) == None
  {
    var line := name + ":" + rest;
    assert forall j | 0 <= j < |name| :: line[j] == name[j];
    FindIs(line, ':', |name|);
    assert line[..|name|] == name && line[|name| + 1..] == rest;
    ValidNameIsToken(name);
    ValidValueIsOneLine(Trim(rest));
    assert Find(name, ':') == |name|;
    hide ValidName; hide ValidValue; hide Token; hide OneLine; hide Trim; hide Lower; hide Find;
  }

  /** The values of a name: those of the headers of that name, in order. */
  lemma ValuesExactly(hs: seq<Header>, h: Header, name: string)
    ensures Values([], name) == []
    ensures Values(hs + [h], name) ==
              if h.name == Lower(name) then Values(hs, name) + [h.value] else Values(hs, name)
  {
    ValuesAppend(hs, [h], name);
    assert [h][1..] == [];
    assert Values([h], name) == if h.name == Lower(name) then [h.value] else [];
  }

  function Join(parts: seq<string>): string {
    if parts == [] then ""
    else if |parts| == 1 then parts[0]
    else parts[0] + "," + Join(parts[1..])
  }

  /** No comma in any part. */
  predicate CommaFree(parts: seq<string>) { forall i | 0 <= i < |parts| :: ',' !in parts[i] }

  /** The text between commas, with or without a comma at the very end. */
  predicate Rejoins(v: string, parts: seq<string>) { v == Join(parts) || v == Join(parts) + "," }

  lemma JoinOneMore(first: string, parts: seq<string>, v: string)
    requires ',' !in first && CommaFree(parts) && Rejoins(v, parts)
    ensures CommaFree([first] + parts)
    ensures parts != [] ==> Rejoins(first + "," + v, [first] + parts)
    ensures parts == [] && v == [] ==> Rejoins(first + "," + v, [first] + parts)
  {
    var all := [first] + parts;
    assert all[1..] == parts;
    if parts != [] {
      assert Join(all) == first + "," + Join(parts);
      assert first + "," + (Join(parts) + ",") == first + "," + Join(parts) + ",";
    } else {
      assert first + "," + [] == first + ",";
    }
  }

  /** The members of a list are the texts between its commas; a comma at the very end
      adds no member. */
  lemma {:induction false} PartsExactly(v: string)
    ensures CommaFree(CommaParts(v)) && Rejoins(v, CommaParts(v))
    ensures CommaParts(v) == [] <==> v == []
    decreases |v|
  {
    if v == [] {
      NoPart();
    } else {
      FirstMember(v);
      FirstHasNoComma(v);
      hide CommaParts; hide Find; hide Join; hide CommaFree; hide Rejoins;
      var c := Find(v, ',');
      if c < |v| {
        var rest := v[c + 1..];
        PartsExactly(rest);
        JoinOneMore(v[..c], CommaParts(rest), rest);
      } else {
        SinglePart(v);
      }
    }
  }

  lemma NoPart()
    ensures CommaParts([]) == [] && CommaFree([]) && Rejoins([], [])
  {}

  lemma FirstHasNoComma(v: string)
    ensures var c := Find(v, ',');
            && ',' !in v[..c] && (c < |v| ==> v == v[..c] + "," + v[c + 1..])
            && (c == |v| ==> v[..c] == v)
  {
    FindSplits(v, ',');
    hide Find;
    var c := Find(v, ',');
    if c < |v| { assert v[..c] + ([','] + v[c + 1..]) == v[..c] + "," + v[c + 1..]; }
  }

  lemma SinglePart(v: string)
    requires ',' !in v
    ensures CommaFree([v]) && Rejoins(v, [v]) && [v] + [] == [v]
  {}

  // ------------------------------------------------------------------ start lines

  predicate NoSpace(s: string) { ' ' !in s }

  /** A request target: not empty, and no character up to the space, and no DEL. */
  predicate Target(s: string) {
    s != [] && forall i | 0 <= i < |s| :: s[i] > 32 as char && s[i] != 127 as char
  }

  lemma ValidTargetIsTarget(s: string)
    ensures RequestParser.ValidTarget(s) <==> Target(s)
  {}

  lemma MethodsExactly(s: string)
    ensures ParseMethod("GET") == Get && ParseMethod("HEAD") == Head && ParseMethod("POST") == Post
    ensures ParseMethod("PUT") == Put && ParseMethod("DELETE") == Delete
    ensures ParseMethod("OPTIONS") == Options
    ensures s !in {"GET", "HEAD", "POST", "PUT", "DELETE", "OPTIONS"} ==> ParseMethod(s) == Unknown
    ensures MethodName(Get) == "GET" && MethodName(Head) == "HEAD" && MethodName(Post) == "POST"
    ensures MethodName(Put) == "PUT" && MethodName(Delete) == "DELETE"
    ensures MethodName(Options) == "OPTIONS" && MethodName(Unknown) == "UNKNOWN"
  {}

  lemma FindSpace(word: string, tail: string)
    requires NoSpace(word)
    ensures var line := word + " " + tail;
            && Find(line, ' ') == |word| < |line|
            && line[..|word|] == word && line[|word| + 1..] == tail
  {
    var line := word + " " + tail;
    assert forall j | 0 <= j < |word| :: line[j] == word[j];
    FindIs(line, ' ', |word|);
  }

  /** Every request line of three words. */
  lemma RequestLineExactly(verb: string, target: string, version: string)
    requires NoSpace(verb) && NoSpace(target)
    ensures RequestParser.ParseRequestLine(verb + " " + target + " " + version) ==
              if !Token(verb) || !Target(target) then None
              else if version == "HTTP/1.1" then Some((ParseMethod(verb), target, 1))
              else if version == "HTTP/1.0" then Some((ParseMethod(verb), target, 0))
              else None
  {
    hide *;
    var tail := target + " " + version;
    Words(verb, target, version);
    FindSpace(verb, tail);
    FindSpace(target, version);
    VersionsHaveNoSpace(version);
    ValidNameIsToken(verb);
    ValidTargetIsTarget(target);
    ThreeWords(verb + " " + tail, verb, target, version, tail);
  }

  lemma Words(verb: string, target: string, version: string)
    ensures verb + " " + target + " " + version == verb + " " + (target + " " + version)
  {}

  lemma ThreeWords(line: string, verb: string, target: string, version: string, tail: string)
    requires Find(line, ' ') == |verb| < |line| && line[..|verb|] == verb
    requires tail == line[|verb| + 1..] && Find(tail, ' ') == |target| < |tail|
    requires tail[..|target|] == target && tail[|target| + 1..] == version
    requires ' ' in version ==> version != "HTTP/1.1" && version != "HTTP/1.0"
    ensures RequestParser.ParseRequestLine(line) ==
              if !ValidName(verb) || !RequestParser.ValidTarget(target) then None
              else if version == "HTTP/1.1" then Some((ParseMethod(verb), target, 1))
              else if version == "HTTP/1.0" then Some((ParseMethod(verb), target, 0))
              else None
  {
    hide ValidName; hide ParseMethod; hide RequestParser.ValidTarget; hide Find;
  }

  lemma VersionsHaveNoSpace(version: string)
    ensures version == "HTTP/1.1" || version == "HTTP/1.0" ==> ' ' !in version
  {}

  /** A line of fewer words is no request line. */
  lemma NoRequestLine(verb: string, rest: string)
    requires NoSpace(verb) && NoSpace(rest)
    ensures RequestParser.ParseRequestLine(verb) == None
    ensures RequestParser.ParseRequestLine(verb + " " + rest) == None
  {
    FindSpace(verb, rest);
    assert Find(verb, ' ') == |verb| && Find(rest, ' ') == |rest|;
    hide Find; hide ValidName; hide ParseMethod; hide RequestParser.ValidTarget;
  }

  predicate Decimals(s: string) { forall i | 0 <= i < |s| :: '0' <= s[i] <= '9' }

  function DigitAt(s: string, i: nat): int
    requires i < |s|
  {
    s[i] as int - '0' as int
  }

  /** Three characters as an integer: three digits, or a minus and two. */
  lemma StatusTextExactly(t: string)
    requires |t| == 3
    ensures ResponseParser.ParseStatusText(t) ==
              if Decimals(t) then Some(100 * DigitAt(t, 0) + 10 * DigitAt(t, 1) + DigitAt(t, 2))
              else if t[0] == '-' && Decimals(t[1..]) then Some(-(10 * DigitAt(t, 1) + DigitAt(t, 2)))
              else None
  {
    DecimalsAreDigits(t);
    DecimalsAreDigits(t[1..]);
    if AllDigits(10, t) { ResponseParser.ThreeDigits(t); }
    if AllDigits(10, t[1..]) { ResponseParser.TwoDigits(t[1..]); }
  }

  lemma DecimalsAreDigits(s: string)
    ensures AllDigits(10, s) <==> Decimals(s)
  {}

  /** Every status line of a version, three characters and a reason. */
  lemma StatusLineExactly(version: string, text: string, reason: string)
    requires NoSpace(version) && |text| == 3
    ensures ResponseParser.ParseStatusLine(version + " " + text + " " + reason) ==
              match ResponseParser.ParseStatusText(text)
              case None => None
              case Some(status) =>
                if "HTTP/1." <= version && reason != [] && OneLine(reason)
                then Some((status, reason)) else None
  {
    var tail := text + " " + reason;
    var line := version + " " + tail;
    assert version + " " + text + " " + reason == line;
    FindSpace(version, tail);
    var first := |version|;
    assert line[first + 1..first + 4] == text && line[first + 4] == ' ';
    assert line[first + 5..] == reason;
    ValidValueIsOneLine(reason);
    PrefixOfVersion(version, tail);
    hide Find; hide ValidValue; hide OneLine; hide ResponseParser.ParseStatusText;
  }

  lemma PrefixOfVersion(version: string, tail: string)
    requires NoSpace(version)
    ensures "HTTP/1." <= version + " " + tail <==> "HTTP/1." <= version
  {
    var line := version + " " + tail;
    assert forall j | 0 <= j < 7 :: "HTTP/1."[j] != ' ';
    assert |version| < 7 ==> line[|version|] == ' ';
    assert |version| >= 7 ==> line[..7] == version[..7];
  }

  /** A line with no space, or too short after it, or without the second space in its
      place, is no status line. */
  lemma NoStatusLine(version: string, tail: string)
    requires NoSpace(version) && (|tail| < 4 || tail[3] != ' ')
    ensures ResponseParser.ParseStatusLine(version) == None
    ensures ResponseParser.ParseStatusLine(version + " " + tail) == None
  {
    FindSpace(version, tail);
    assert Find(version, ' ') == |version|;
    var line := version + " " + tail;
    if |tail| >= 4 { assert line[|version| + 4] == tail[3]; }
    hide Find; hide ValidValue; hide ResponseParser.ParseStatusText;
  }

  /** A chunk size line: at most sixteen hexadecimal digits, and any extension. */
  lemma ChunkSizeExactly(size: string, extension: string)
    requires ';' !in size && (extension == [] || extension[0] == ';')
    ensures ResponseParser.ParseChunkSize(size + extension) ==
              if |size| <= 16 then ParseSize(16, size) else None
  {
    var line := size + extension;
    assert forall j | 0 <= j < |size| :: line[j] == size[j];
    if extension == [] {
      assert line == size;
    } else {
      FindIs(line, ';', |size|);
    }
    assert line[..|size|] == size;
  }
}
