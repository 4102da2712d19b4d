/** The parts of Python's `str` semantics the station manager relies on:
    whitespace, stripping, case mapping, substring search, `replace`,
    `splitlines`, `int()` and `str()` of integers. */
module PyStr {

  datatype Option<+T> = None | Some(value: T) {
    function GetOr(default: T): T {
      match this
      case Some(v) => v
      case None => default
    }
  }

  /** A byte, as produced by `str.encode('latin-1')` or read from a socket. */
  type byte = b: int | 0 <= b < 256

  // ---------------------------------------------------------------------------
  // Whitespace

  /** `c.isspace()`, which is also what `\s` matches in a `str` pattern. */
  predicate IsSpace(c: char) {
    c == ' ' || ('\t' <= c <= '\r') || ('\U{1C}' <= c <= '\U{1F}')
    || c == '\U{85}' || c == '\U{A0}' || c == '\U{1680}'
    || ('\U{2000}' <= c <= '\U{200A}') || c == '\U{2028}' || c == '\U{2029}'
    || c == '\U{202F}' || c == '\U{205F}' || c == '\U{3000}'
  }

  /** The characters at which `str.splitlines` breaks a line. */
  predicate IsLineBreak(c: char) {
    ('\n' <= c <= '\r') || ('\U{1C}' <= c <= '\U{1E}')
    || c == '\U{85}' || c == '\U{2028}' || c == '\U{2029}'
  }

  lemma LineBreakIsSpace(c: char)
    ensures IsLineBreak(c) ==> IsSpace(c)
  {
  }

  predicate NoSpace(s: string) {
    forall i :: 0 <= i < |s| ==> !IsSpace(s[i])
  }

  /** `s.lstrip()`: the longest suffix of `s` that does not start with whitespace. */
  function LStrip(s: string): (r: string)
    ensures |r| <= |s|
    ensures r == s[|s| - |r|..]
    ensures r == [] || !IsSpace(r[0])
    ensures forall i :: 0 <= i < |s| - |r| ==> IsSpace(s[i])
  {
    if s != [] && IsSpace(s[0]) then LStrip(s[1..]) else s
  }

  /** `s.rstrip()`: the longest prefix of `s` that does not end with whitespace. */
  function RStrip(s: string): (r: string)
    ensures |r| <= |s|
    ensures r == s[..|r|]
    ensures r == [] || !IsSpace(r[|r| - 1])
    ensures forall i :: |r| <= i < |s| ==> IsSpace(s[i])
  {
    if s != [] && IsSpace(s[|s| - 1]) then RStrip(s[..|s| - 1]) else s
  }

  /** No whitespace at either end. */
  predicate Trimmed(s: string) {
    s == [] || (!IsSpace(s[0]) && !IsSpace(s[|s| - 1]))
  }

  /** `s.strip()`: whitespace dropped from both ends. */
  function Strip(s: string): (r: string)
    ensures Trimmed(r)
    ensures |r| <= |s|
    decreases |s|
  {
    if s != [] && IsSpace(s[0]) then Strip(s[1..])
    else if s != [] && IsSpace(s[|s| - 1]) then Strip(s[..|s| - 1])
    else s
  }

  /** `strip()` is `rstrip()` after `lstrip()`. */
  lemma {:induction false} StripIsBothStrips(s: string)
    ensures Strip(s) == RStrip(LStrip(s))
    decreases |s|
  {
    if s != [] && IsSpace(s[0]) {
      StripIsBothStrips(s[1..]);
    } else if s != [] && IsSpace(s[|s| - 1]) {
      var t := s[..|s| - 1];
      StripIsBothStrips(t);
      assert t != [] && t[0] == s[0];
      assert LStrip(t) == t;
    }
  }

  /** A string with no whitespace at either end is its own `strip()`. */
  lemma StripTrimmed(s: string)
    requires Trimmed(s)
    ensures Strip(s) == s
  {
  }

  /** `strip()` is idempotent. */
  lemma StripIdempotent(s: string)
    ensures Strip(Strip(s)) == Strip(s)
  {
    StripTrimmed(Strip(s));
  }

  /** `s.lstrip(c)` for a single character `c`. */
  function LStripChar(s: string, c: char): (r: string)
    ensures |r| <= |s|
    ensures r == s[|s| - |r|..]
    ensures r == [] || r[0] != c
    ensures forall i :: 0 <= i < |s| - |r| ==> s[i] == c
  {
    if s != [] && s[0] == c then
      var r := LStripChar(s[1..], c);
      assert s[1..][|s| - 1 - |r|..] == s[|s| - |r|..];
      assert forall i :: 1 <= i < |s| - |r| ==> s[i] == s[1..][i - 1];
      r
    else s
  }

  // ---------------------------------------------------------------------------
  // Case mapping (ASCII, the Latin-1 letters U+00C0..U+00FE and Cyrillic U+0400..U+045F)

  function LowerChar(c: char): char {
    if 'A' <= c <= 'Z' then (c as int + 32) as char
    else if '\U{C0}' <= c <= '\U{DE}' && c != '\U{D7}' then (c as int + 32) as char
    else if '\U{410}' <= c <= '\U{42F}' then (c as int + 32) as char
    else if '\U{400}' <= c <= '\U{40F}' then (c as int + 80) as char
    else c
  }

  function UpperChar(c: char): char {
    if 'a' <= c <= 'z' then (c as int - 32) as char
    else if '\U{E0}' <= c <= '\U{FE}' && c != '\U{F7}' then (c as int - 32) as char
    else if '\U{430}' <= c <= '\U{44F}' then (c as int - 32) as char
    else if '\U{450}' <= c <= '\U{45F}' then (c as int - 80) as char
    else c
  }

  /** `s.lower()`. */
  function Lower(s: string): (r: string)
    ensures |r| == |s|
  {
    seq(|s|, i requires 0 <= i < |s| => LowerChar(s[i]))
  }

  /** `s.upper()`. */
  function Upper(s: string): (r: string)
    ensures |r| == |s|
  {
    seq(|s|, i requires 0 <= i < |s| => UpperChar(s[i]))
  }

  /** Case mapping never turns a non-space into a space or back. */
  lemma CaseKeepsSpace(c: char)
    ensures IsSpace(LowerChar(c)) == IsSpace(c)
    ensures IsSpace(UpperChar(c)) == IsSpace(c)
  {
  }

  // ---------------------------------------------------------------------------
  // Searching

  /** `s.startswith(p)`. */
  predicate StartsWith(s: string, p: string) {
    |p| <= |s| && s[..|p|] == p
  }

  /** `s.endswith(p)`. */
  predicate EndsWith(s: string, p: string) {
    |p| <= |s| && s[|s| - |p|..] == p
  }

  /** `p in s` for a string `p`. */
  predicate Contains(s: string, p: string)
    decreases |s|
  {
    StartsWith(s, p) || (s != [] && Contains(s[1..], p))
  }

  /** `Contains` holds exactly when `p` occurs at some offset of `s`. */
  lemma {:induction false} ContainsAt(s: string, p: string, k: nat)
    requires k + |p| <= |s| && s[k..k + |p|] == p
    ensures Contains(s, p)
  {
    if k > 0 {
      assert s[1..][k - 1..k - 1 + |p|] == s[k..k + |p|];
      ContainsAt(s[1..], p, k - 1);
    }
  }

  lemma {:induction false} ContainsWitness(s: string, p: string) returns (k: nat)
    requires Contains(s, p)
    ensures k + |p| <= |s| && s[k..k + |p|] == p
    decreases |s|
  {
    if StartsWith(s, p) {
      k := 0;
    } else {
      var j := ContainsWitness(s[1..], p);
      assert s[1..][j..j + |p|] == s[j + 1..j + 1 + |p|];
      k := j + 1;
    }
  }

  /** Index of the first occurrence of `c`, if any. */
  function IndexOf(s: string, c: char): (r: Option<nat>)
    ensures r.None? <==> c !in s
    ensures r.Some? ==> r.value < |s| && s[r.value] == c && c !in s[..r.value]
  {
    if s == [] then None
    else if s[0] == c then Some(0)
    else match IndexOf(s[1..], c)
      case None => None
      case Some(k) => assert s[..k + 1] == [s[0]] + s[1..][..k]; Some(k + 1)
  }

  /** Index of the last occurrence of `c`, if any. */
  function LastIndexOf(s: string, c: char): (r: Option<nat>)
    ensures r.None? <==> c !in s
    ensures r.Some? ==> r.value < |s| && s[r.value] == c && c !in s[r.value + 1..]
  {
    if s == [] then None
    else if s[|s| - 1] == c then Some(|s| - 1)
    else
      var k := LastIndexOf(s[..|s| - 1], c);
      assert k.Some? ==> s[k.value + 1..] == s[..|s| - 1][k.value + 1..] + [s[|s| - 1]];
      k
  }

  /** `s.split(c)[-1]`: the text after the last `c` (all of `s` if none). */
  function AfterLast(s: string, c: char): (r: string)
    ensures c !in r
    ensures EndsWith(s, r)
    ensures r == s || (|r| < |s| && s[|s| - |r| - 1] == c)
  {
    match LastIndexOf(s, c)
    case None => s
    case Some(k) => s[k + 1..]
  }

  /** `s.split(c)[0]`: the text before the first `c` (all of `s` if none). */
  function BeforeFirst(s: string, c: char): (r: string)
    ensures c !in r
    ensures StartsWith(s, r)
    ensures r == s || (|r| < |s| && s[|r|] == c)
  {
    match IndexOf(s, c)
    case None => s
    case Some(k) => s[..k]
  }

  lemma AfterLastAt(s: string, c: char, k: nat)
    requires k < |s| && s[k] == c && c !in s[k + 1..]
    ensures AfterLast(s, c) == s[k + 1..]
  {
  }

  /** The first occurrence is the one with no `c` before it. */
  lemma IndexOfAt(s: string, c: char, k: nat)
    requires k < |s| && s[k] == c && c !in s[..k]
    ensures IndexOf(s, c) == Some(k)
  {
  }

  lemma BeforeFirstAt(s: string, c: char, k: nat)
    requires k < |s| && s[k] == c && c !in s[..k]
    ensures BeforeFirst(s, c) == s[..k]
  {
  }

  /** `s.count(p)` for a non-empty `p`: non-overlapping occurrences, from the left. */
  function Count(s: string, p: string): nat
    requires p != []
    decreases |s|
  {
    if |s| < |p| then 0
    else if StartsWith(s, p) then 1 + Count(s[|p|..], p)
    else Count(s[1..], p)
  }

  /** `s.replace(p, q)` for a non-empty `p`: every non-overlapping occurrence, from the left. */
  function Replace(s: string, p: string, q: string): string
    requires p != []
    decreases |s|
  {
    if |s| < |p| then s
    else if StartsWith(s, p) then q + Replace(s[|p|..], p, q)
    else [s[0]] + Replace(s[1..], p, q)
  }

  /** Replacing a pattern that does not occur changes nothing. */
  lemma {:induction false} ReplaceAbsent(s: string, p: string, q: string)
    requires p != [] && !Contains(s, p)
    ensures Replace(s, p, q) == s
    decreases |s|
  {
    if |s| >= |p| {
      assert !StartsWith(s, p);
      ReplaceAbsent(s[1..], p, q);
    }
  }

  /** No occurrence of `p` can begin in `s` and end in `rest`. */
  predicate NoStraddle(s: string, rest: string, p: string) {
    forall k :: 0 < k < |p| && k <= |s| ==> !(s[|s| - k..] == p[..k] && StartsWith(rest, p[k..]))
  }

  lemma NoStraddleSuffix(s: string, rest: string, p: string, j: nat)
    requires j <= |s| && NoStraddle(s, rest, p)
    ensures NoStraddle(s[j..], rest, p)
  {
    forall k | 0 < k < |p| && k <= |s| - j
      ensures !(s[j..][|s| - j - k..] == p[..k] && StartsWith(rest, p[k..]))
    {
      assert s[j..][|s| - j - k..] == s[|s| - k..];
    }
  }

  lemma PrefixStraddles(s: string, rest: string, p: string)
    requires 0 < |s| < |p| && StartsWith(s + rest, p)
    ensures !NoStraddle(s, rest, p)
  {
    var k := |s|;
    assert s[|s| - k..] == s == p[..k];
    assert rest[..|p| - k] == (s + rest)[k..|p|];
  }

  /** The step of `ReplaceSplit` where `s` begins with the pattern. */
  lemma ReplaceSplitMatch(s: string, rest: string, p: string, q: string)
    requires p != [] && |s| >= |p| && StartsWith(s, p)
    requires Replace(s[|p|..] + rest, p, q) == Replace(s[|p|..], p, q) + Replace(rest, p, q)
    ensures Replace(s + rest, p, q) == Replace(s, p, q) + Replace(rest, p, q)
  {
    assert (s + rest)[..|p|] == s[..|p|];
    assert (s + rest)[|p|..] == s[|p|..] + rest;
  }

  /** `Replace` on a text the pattern does not begin keeps its first character. */
  lemma ReplaceKeepsFirst(t: string, p: string, q: string)
    requires p != [] && t != [] && (|t| < |p| || !StartsWith(t, p))
    ensures Replace(t, p, q) == [t[0]] + Replace(t[1..], p, q)
  {
    if |t| < |p| {
      assert Replace(t[1..], p, q) == t[1..];
      assert t == [t[0]] + t[1..];
    }
  }

  /** A text at least as long as the pattern begins with it exactly when any extension does. */
  lemma StartsWithExtended(s: string, rest: string, p: string)
    requires |s| >= |p|
    ensures StartsWith(s + rest, p) == StartsWith(s, p)
  {
    assert (s + rest)[..|p|] == s[..|p|];
  }

  /** The step of `ReplaceSplit` where the pattern does not begin the text. */
  lemma ReplaceSplitSkip(s: string, rest: string, p: string, q: string)
    requires p != [] && s != [] && |s + rest| >= |p| && !StartsWith(s + rest, p)
    requires Replace(s[1..] + rest, p, q) == Replace(s[1..], p, q) + Replace(rest, p, q)
    ensures Replace(s + rest, p, q) == Replace(s, p, q) + Replace(rest, p, q)
  {
    ConcatFirst(s, rest);
    ReplaceKeepsFirst(s + rest, p, q);
    if |s| >= |p| {
      StartsWithExtended(s, rest, p);
    }
    ReplaceKeepsFirst(s, p, q);
    ConcatAssoc([s[0]], Replace(s[1..], p, q), Replace(rest, p, q));
  }

  lemma ConcatFirst(s: string, rest: string)
    requires s != []
    ensures (s + rest)[0] == s[0] && (s + rest)[1..] == s[1..] + rest
  {
  }

  lemma LastSplit<T>(s: seq<T>)
    requires s != []
    ensures s[..|s| - 1] + [s[|s| - 1]] == s
  {
  }

  /** Some element of a non-empty list satisfies `p` exactly when one before the last
      does, or the last one does. */
  lemma ExistsSnoc<T>(s: seq<T>, front: seq<T>, p: T -> bool)
    requires s != [] && front == s[..|s| - 1]
    ensures (exists j :: 0 <= j < |s| && p(s[j]))
      <==> (exists j :: 0 <= j < |front| && p(front[j])) || p(s[|s| - 1])
  {
    if exists j :: 0 <= j < |s| && p(s[j]) {
      var j :| 0 <= j < |s| && p(s[j]);
      if j < |front| {
        assert front[j] == s[j];
      }
    }
    if exists j :: 0 <= j < |front| && p(front[j]) {
      var j :| 0 <= j < |front| && p(front[j]);
      assert s[j] == front[j];
    }
  }

  lemma MemberConcat<T>(a: seq<T>, b: seq<T>, x: T)
    ensures x in a + b <==> x in a || x in b
  {
  }

  lemma ConcatPrefix(a: string, b: string)
    ensures StartsWith(a + b, a) && (a + b)[|a|..] == b
  {
    assert (a + b)[..|a|] == a;
  }

  lemma ConcatAssoc(a: string, b: string, c: string)
    ensures a + (b + c) == (a + b) + c
  {
  }

  /** Replacing in a concatenation is replacing in each part, when no occurrence straddles them. */
  lemma {:induction false} ReplaceSplit(s: string, rest: string, p: string, q: string)
    requires p != [] && NoStraddle(s, rest, p)
    ensures Replace(s + rest, p, q) == Replace(s, p, q) + Replace(rest, p, q)
    decreases |s|
  {
    if s == [] {
      assert s + rest == rest;
    } else if |s + rest| < |p| {
      assert |rest| < |p|;
    } else if StartsWith(s + rest, p) {
      if |s| >= |p| {
        assert StartsWith(s, p) by {
          assert s[..|p|] == (s + rest)[..|p|];
        }
        NoStraddleSuffix(s, rest, p, |p|);
        ReplaceSplit(s[|p|..], rest, p, q);
        ReplaceSplitMatch(s, rest, p, q);
      } else {
        PrefixStraddles(s, rest, p);
        assert false;
      }
    } else {
      NoStraddleSuffix(s, rest, p, 1);
      ReplaceSplit(s[1..], rest, p, q);
      ReplaceSplitSkip(s, rest, p, q);
    }
  }

  /** A text without the first character of `p` has nothing to replace. */
  lemma {:induction false} ReplaceWithoutFirst(s: string, p: string, q: string)
    requires p != [] && p[0] !in s
    ensures Replace(s, p, q) == s
    decreases |s|
  {
    if |s| >= |p| {
      assert s[0] != p[0];
      ReplaceWithoutFirst(s[1..], p, q);
    }
  }

  lemma ReplaceWhole(p: string, q: string)
    requires p != []
    ensures Replace(p, p, q) == q
  {
    assert p[|p|..] == [];
  }

  /** `s.replace(c, '')` for a single character `c`: every `c` dropped, the rest kept in order. */
  function RemoveChar(s: string, c: char): (r: string)
    ensures |r| <= |s|
    ensures c !in r
    ensures forall x :: x != c ==> (x in r <==> x in s)
    ensures c !in s ==> r == s
  {
    if s == [] then [] else (if s[0] == c then [] else [s[0]]) + RemoveChar(s[1..], c)
  }

  /** `RemoveChar` is what `replace` does with a one-character pattern and an empty replacement. */
  lemma {:induction false} ReplaceOneChar(s: string, c: char)
    ensures Replace(s, [c], "") == RemoveChar(s, c)
    decreases |s|
  {
    if s != [] {
      ReplaceOneChar(s[1..], c);
      assert StartsWith(s, [c]) <==> s[0] == c by {
        assert |s[..1]| == 1 && s[..1][0] == s[0];
      }
    }
  }

  // ---------------------------------------------------------------------------
  // Lines

  /** Index of the first line break in `s`, or `|s|`. */
  function LineEnd(s: string): (k: nat)
    ensures k <= |s|
    ensures forall j :: 0 <= j < k ==> !IsLineBreak(s[j])
    ensures k < |s| ==> IsLineBreak(s[k])
  {
    if s == [] || IsLineBreak(s[0]) then 0 else 1 + LineEnd(s[1..])
  }

  /** `s.splitlines()`: `\r\n` counts as one break, and a final break adds no empty line. */
  function SplitLines(s: string): seq<string>
    decreases |s|
  {
    if s == [] then []
    else
      var k := LineEnd(s);
      if k == |s| then [s]
      else
        var width := if s[k] == '\r' && k + 1 < |s| && s[k + 1] == '\n' then 2 else 1;
        [s[..k]] + SplitLines(s[k + width..])
  }

  /** A line without breaks, ended by CRLF, comes back as one line. */
  lemma SplitLinesCrlf(line: string, rest: string)
    requires forall j :: 0 <= j < |line| ==> !IsLineBreak(line[j])
    ensures SplitLines(line + "\r\n" + rest) == [line] + SplitLines(rest)
  {
    var s := line + "\r\n" + rest;
    assert s == line + ("\r\n" + rest);
    LineEndAt(line, "\r\n" + rest);
    assert LineEnd(s) == |line|;
    assert s[|line|] == '\r' && s[|line| + 1] == '\n';
    assert s[..|line|] == line;
    assert s[|line| + 2..] == rest;
  }

  lemma {:induction false} LineEndAt(line: string, rest: string)
    requires forall j :: 0 <= j < |line| ==> !IsLineBreak(line[j])
    requires rest != [] && IsLineBreak(rest[0])
    ensures LineEnd(line + rest) == |line|
    decreases |line|
  {
    if line != [] {
      assert (line + rest)[1..] == line[1..] + rest;
      LineEndAt(line[1..], rest);
    }
  }

  // ---------------------------------------------------------------------------
  // Integers

  predicate IsDigit(c: char) {
    '0' <= c <= '9'
  }

  predicate AllDigits(s: string) {
    forall i :: 0 <= i < |s| ==> IsDigit(s[i])
  }

  /** The value of a string of decimal digits. */
  function DigitsValue(s: string): nat
    requires AllDigits(s)
  {
    if s == [] then 0 else 10 * DigitsValue(s[..|s| - 1]) + (s[|s| - 1] as int - '0' as int)
  }

  /** `str(n)` for a natural number. */
  function NatToString(n: nat): (r: string)
    ensures r != [] && AllDigits(r)
  {
    if n < 10 then ['0' + n as char] else NatToString(n / 10) + ['0' + (n % 10) as char]
  }

  /** `str(v)` for an integer. */
  function IntToString(v: int): (r: string)
    ensures r != [] && NoSpace(r)
    ensures r[0] == '-' || IsDigit(r[0])
  {
    if v < 0 then "-" + NatToString(-v) else NatToString(v)
  }

  /** `int(s)`: optional surrounding whitespace, an optional sign, then decimal digits. */
  function PyInt(s: string): (r: Option<int>)
    ensures r.Some? ==> Strip(s) != []
  {
    var t := Strip(s);
    if t == [] then None
    else if t[0] == '-' || t[0] == '+' then
      if |t| > 1 && AllDigits(t[1..]) then
        Some(if t[0] == '-' then -(DigitsValue(t[1..]) as int) else DigitsValue(t[1..]))
      else None
    else if AllDigits(t) then Some(DigitsValue(t))
    else None
  }

  lemma {:induction false} NatToStringValue(n: nat)
    ensures DigitsValue(NatToString(n)) == n
  {
    if n >= 10 {
      var s := NatToString(n);
      assert s[..|s| - 1] == NatToString(n / 10);
      NatToStringValue(n / 10);
    }
  }

  /** `int(str(v)) == v`. */
  lemma IntRoundTrip(v: int)
    ensures PyInt(IntToString(v)) == Some(v)
  {
    var s := IntToString(v);
    StripTrimmed(s);
    if v < 0 {
      NatToStringValue(-v);
      assert s[1..] == NatToString(-v);
    } else {
      NatToStringValue(v);
    }
  }
}
