/** Byte-string helpers shared by every parser and printer of the gateway.
    A byte is modelled as the `char` with the same code, so `string` plays the
    part of `std::string` and `std::string_view`. */
module Bytes {

  datatype Option<+T> = None | Some(value: T)

  const CRLF: string := "\r\n"

  /** One past the largest `std::size_t`. */
  const SIZE_LIMIT: nat := 0x1_0000_0000_0000_0000

  // ---------------------------------------------------------------- searching

  /** Position of the first `c`, or `|s|` when there is none. */
  function Find(s: string, c: char): (i: nat)
    ensures i <= |s|
    ensures forall j | 0 <= j < i :: s[j] != c
    ensures i < |s| ==> s[i] == c
  {
    if s == [] || s[0] == c then 0 else
    var k := Find(s[1..], c);
    assert forall j | 1 <= j < k + 1 :: s[j] == s[1..][j - 1];
    k + 1
  }

  lemma FindIs(s: string, c: char, i: nat)
    requires i < |s| && s[i] == c
    requires forall j | 0 <= j < i :: s[j] != c
    ensures Find(s, c) == i
  {}

  /** Cutting at the first `c`. */
  lemma FindSplits(s: string, c: char)
    ensures var i := Find(s, c);
            && c !in s[..i]
            && (if i < |s| then s == s[..i] + ([c] + s[i + 1..]) else s == s[..i])
  {
    var i := Find(s, c);
    NotBefore(s, c, i);
    hide Find;
    if i < |s| { CutAt(s, i); } else { assert s[..i] == s; }
  }

  lemma NotBefore(s: string, c: char, i: nat)
    requires i <= |s| && forall j | 0 <= j < i :: s[j] != c
    ensures c !in s[..i]
  {}

  lemma CutAt(s: string, i: nat)
    requires i < |s|
    ensures s == s[..i] + ([s[i]] + s[i + 1..])
  {}

  ghost predicate CrlfAt(s: string, i: nat) {
    i + 1 < |s| && s[i] == '\r' && s[i + 1] == '\n'
  }

  /** Position of the first CRLF, or `|s|` when there is none. */
  function FindCrlf(s: string): (i: nat)
    ensures i <= |s|
    ensures i < |s| ==> CrlfAt(s, i)
    ensures forall j: nat | j < i :: !CrlfAt(s, j)
  {
    if |s| < 2 then |s|
    else if s[0] == '\r' && s[1] == '\n' then 0
    else
      var k := FindCrlf(s[1..]);
      assert forall j: nat | 1 <= j < k + 1 :: CrlfAt(s, j) == CrlfAt(s[1..], j - 1);
      k + 1
  }

  lemma FindCrlfIs(s: string, i: nat)
    requires CrlfAt(s, i)
    requires forall j: nat | j < i :: !CrlfAt(s, j)
    ensures FindCrlf(s) == i
  {
    var k := FindCrlf(s);
    assert k == |s| || CrlfAt(s, k);
  }

  /** Bytes arriving later never move a CRLF that is already there. */
  lemma FindCrlfPrefix(a: string, b: string)
    requires FindCrlf(a) < |a|
    ensures FindCrlf(a + b) == FindCrlf(a)
  {
    var i := FindCrlf(a);
    assert CrlfAt(a, i);
    assert CrlfAt(a + b, i);
    forall j: nat | j < i ensures !CrlfAt(a + b, j) {
      assert !CrlfAt(a, j);
    }
    FindCrlfIs(a + b, i);
  }

  /** With no CRLF yet, the next one ends in the new bytes: a pending CR counts
      as the last byte of the pending line. */
  lemma FindCrlfPending(a: string, b: string)
    requires FindCrlf(a) == |a|
    ensures FindCrlf(a + b) + 1 >= |a|
  {
    var i := FindCrlf(a + b);
    assert i + 1 < |a| ==> CrlfAt(a, i);
  }

  /** A line without CR is found again in front of its own CRLF. */
  lemma FindCrlfLine(line: string, rest: string)
    requires '\r' !in line
    ensures FindCrlf(line + CRLF + rest) == |line|
  {
    var s := line + CRLF + rest;
    forall j: nat | j < |line| ensures !CrlfAt(s, j) {
      assert s[j] == line[j];
    }
    FindCrlfIs(s, |line|);
  }

  // ----------------------------------------------------------------- trimming

  predicate IsBlank(c: char) { c == ' ' || c == '\t' }

  function TrimLeft(s: string): (r: string)
    ensures r != [] ==> !IsBlank(r[0])
    ensures |r| <= |s| && r == s[|s| - |r|..]
  {
    if s != [] && IsBlank(s[0]) then TrimLeft(s[1..]) else s
  }

  function TrimRight(s: string): (r: string)
    ensures r != [] ==> !IsBlank(r[|r| - 1])
    ensures |r| <= |s| && r == s[..|r|]
  {
    if s != [] && IsBlank(s[|s| - 1]) then TrimRight(s[..|s| - 1]) else s
  }

  predicate Trimmed(s: string) {
    s == [] || (!IsBlank(s[0]) && !IsBlank(s[|s| - 1]))
  }

  function Trim(s: string): (r: string)
    ensures Trimmed(r)
    ensures forall c | c in r :: c in s
  {
    TrimRight(TrimLeft(s))
  }

  /** Printing puts one space after the colon; trimming takes it away again. */
  lemma TrimUndoesPadding(v: string)
    requires Trimmed(v)
    ensures Trim(" " + v) == v
  {
    assert (" " + v)[1..] == v;
    assert TrimLeft(v) == v;
    assert TrimLeft(" " + v) == v;
    assert TrimRight(v) == v;
  }

  // --------------------------------------------------------------------- case

  function LowerChar(c: char): (r: char)
    ensures !('A' <= r <= 'Z')
  {
    if 'A' <= c <= 'Z' then c + (32 as char) else c
  }

  function Lower(s: string): (r: string)
    ensures |r| == |s|
    ensures forall i | 0 <= i < |s| :: r[i] == LowerChar(s[i])
  {
    seq(|s|, i requires 0 <= i < |s| => LowerChar(s[i]))
  }

  predicate IsLower(s: string) { forall i | 0 <= i < |s| :: LowerChar(s[i]) == s[i] }

  lemma LowerIdentity(s: string)
    ensures IsLower(s) <==> Lower(s) == s
    ensures IsLower(Lower(s))
  {
    if Lower(s) == s {
      forall i | 0 <= i < |s| ensures LowerChar(s[i]) == s[i] { assert Lower(s)[i] == s[i]; }
    }
  }

  // ------------------------------------------------------------------ numbers

  function Digit(d: nat): (c: char)
    requires d < 16
    ensures DigitValue(16, c) == d
    ensures d < 10 ==> DigitValue(10, c) == d
  {
    "0123456789abcdef"[d]
  }

  /** Value of one digit as `std::from_chars` reads it, or -1. */
  function DigitValue(base: nat, c: char): (d: int)
    requires base == 10 || base == 16
    ensures -1 <= d < base
  {
    if '0' <= c <= '9' then c as int - '0' as int
    else if base == 16 && 'a' <= c <= 'f' then c as int - 'a' as int + 10
    else if base == 16 && 'A' <= c <= 'F' then c as int - 'A' as int + 10
    else -1
  }

  predicate AllDigits(base: nat, s: string)
    requires base == 10 || base == 16
  {
    forall i | 0 <= i < |s| :: DigitValue(base, s[i]) >= 0
  }

  function Value(base: nat, s: string): nat
    requires base == 10 || base == 16
    requires AllDigits(base, s)
  {
    if s == [] then 0
    else Value(base, s[..|s| - 1]) * base + DigitValue(base, s[|s| - 1])
  }

  /** `std::from_chars` into `std::size_t`, followed by the check that the whole
      text was used: at least one digit, nothing else, and no overflow. */
  function ParseSize(base: nat, s: string): (r: Option<nat>)
    requires base == 10 || base == 16
    ensures r.Some? ==> s != [] && r.value < SIZE_LIMIT
  {
    if s == [] || !AllDigits(base, s) || Value(base, s) >= SIZE_LIMIT then None
    else Some(Value(base, s))
  }

  /** `std::to_string`, and `std::hex` output for base 16. */
  function Digits(base: nat, n: nat): (s: string)
    requires base == 10 || base == 16
    ensures s != [] && AllDigits(base, s)
    ensures forall c | c in s :: c != '\r' && c != '\n' && c != '\0' && c != ';' && !IsBlank(c)
    decreases n
  {
    if n < base then [Digit(n)] else Digits(base, n / base) + [Digit(n % base)]
  }

  lemma ValueAppend(base: nat, s: string, c: char)
    requires base == 10 || base == 16
    requires AllDigits(base, s) && DigitValue(base, c) >= 0
    ensures AllDigits(base, s + [c])
    ensures Value(base, s + [c]) == Value(base, s) * base + DigitValue(base, c)
  {
    assert (s + [c])[..|s|] == s;
  }

  lemma DivMod(base: nat, n: nat)
    requires base == 10 || base == 16
    ensures n == n / base * base + n % base
  {}

  lemma {:induction false} ValueOfDigits(base: nat, n: nat)
    requires base == 10 || base == 16
    ensures Value(base, Digits(base, n)) == n
    decreases n
  {
    if n < base {
      ValueAppend(base, [], Digit(n));
      assert [] + [Digit(n)] == Digits(base, n);
    } else {
      ValueOfDigits(base, n / base);
      ValueAppend(base, Digits(base, n / base), Digit(n % base));
      DivMod(base, n);
    }
  }

  lemma SizeRoundTrip(base: nat, n: nat)
    requires base == 10 || base == 16
    requires n < SIZE_LIMIT
    ensures ParseSize(base, Digits(base, n)) == Some(n)
  {
    ValueOfDigits(base, n);
  }

  function Pow(base: nat, k: nat): (p: nat)
    requires base > 0
    ensures p > 0
  {
    if k == 0 then 1 else base * Pow(base, k - 1)
  }

  lemma {:induction false} DigitsLength(base: nat, n: nat, k: nat)
    requires base == 10 || base == 16
    requires k > 0 && n < Pow(base, k)
    ensures |Digits(base, n)| <= k
    decreases n
  {
    if n >= base {
      assert Pow(base, k) == base * Pow(base, k - 1);
      assert Pow(base, 0) == 1;
      assert n / base < Pow(base, k - 1);
      DigitsLength(base, n / base, k - 1);
    }
  }

  /** A size always prints as at most 16 hexadecimal digits. */
  lemma HexLength(n: nat)
    requires n < SIZE_LIMIT
    ensures |Digits(16, n)| <= 16
  {
    assert Pow(16, 4) == 0x1_0000 by {
      assert Pow(16, 1) == 16 && Pow(16, 2) == 256;
    }
    assert Pow(16, 8) == 0x1_0000_0000 by { assert Pow(16, 6) == 0x100_0000; }
    assert Pow(16, 12) == 0x1_0000_0000_0000 by { assert Pow(16, 10) == 0x100_0000_0000; }
    assert Pow(16, 16) == SIZE_LIMIT by { assert Pow(16, 14) == 0x100_0000_0000_0000; }
    DigitsLength(16, n, 16);
  }

  // ------------------------------------------------------------- byte streams

  lemma Concat(a: string, b: string, c: string)
    ensures (a + b) + c == a + (b + c)
    ensures a + [] == a && [] + a == a
  {}

  /** Cutting `a + b` inside `a`. */
  lemma CutLeft(a: string, b: string, i: nat)
    requires i <= |a|
    ensures (a + b)[..i] == a[..i]
    ensures (a + b)[i..] == a[i..] + b
  {}

  function Flatten(parts: seq<string>): (s: string)
  {
    if parts == [] then [] else parts[0] + Flatten(parts[1..])
  }

  lemma {:induction false} FlattenAppend(xs: seq<string>, ys: seq<string>)
    ensures Flatten(xs + ys) == Flatten(xs) + Flatten(ys)
  {
    if xs == [] {
      assert xs + ys == ys;
    } else {
      assert (xs + ys)[1..] == xs[1..] + ys;
      FlattenAppend(xs[1..], ys);
    }
  }

  lemma FlattenTwo(a: string, b: string)
    ensures Flatten([a, b]) == a + b
  {
    assert [a, b][1..] == [b] && [b][1..] == [];
    assert Flatten([b]) == b + Flatten([]);
  }

  /** A message head, cut after its first line. */
  lemma HeadPieces(line: string, block: string, rest: string)
    ensures (line + CRLF + block + CRLF) + rest == line + CRLF + (block + (CRLF + rest))
  {
    Concat(line + CRLF, block, CRLF);
    Concat(line + CRLF, block + CRLF, rest);
    Concat(block, CRLF, rest);
  }
}
