/** The handful of Python `str` operations the crawler relies on: `find`,
    `rfind`, `startswith`, `endswith`, `in`, `strip`, ASCII `lower`, and the
    filename sanitiser `re.sub(r"[^A-Za-z0-9._-]", "_", s)`. */
module Text {

  datatype Option<T> = None | Some(value: T)

  /** The characters the filename sanitiser keeps: `[A-Za-z0-9._-]`. */
  predicate IsSafeChar(c: char) {
    'A' <= c <= 'Z' || 'a' <= c <= 'z' || '0' <= c <= '9' || c == '.' || c == '_' || c == '-'
  }

  predicate AllSafe(s: string) {
    forall i | 0 <= i < |s| :: IsSafeChar(s[i])
  }

  /** Lower-case hexadecimal digits, as produced by `hexdigest()`. */
  predicate IsLowerHex(c: char) {
    '0' <= c <= '9' || 'a' <= c <= 'f'
  }

  predicate IsAsciiLetter(c: char) {
    'A' <= c <= 'Z' || 'a' <= c <= 'z'
  }

  /** `str.isspace()` for one character: the Unicode whitespace set Python uses. */
  predicate IsSpace(c: char) {
    c == ' ' || '\t' <= c <= '\r' || '\U{1C}' <= c <= '\U{1F}' || c == '\U{85}' || c == '\U{A0}'
    || c == '\U{1680}' || '\U{2000}' <= c <= '\U{200A}' || c == '\U{2028}' || c == '\U{2029}'
    || c == '\U{202F}' || c == '\U{205F}' || c == '\U{3000}'
  }

  function LowerChar(c: char): (d: char)
    ensures 'A' <= c <= 'Z' ==> 'a' <= d <= 'z' && d as int == c as int + 32
    ensures !('A' <= c <= 'Z') ==> d == c
  {
    if 'A' <= c <= 'Z' then (c as int + 32) as char else c
  }

  /** ASCII `str.lower()`: every upper-case letter is mapped to its lower-case
      form, position by position, and nothing else changes. */
  function Lower(s: string): (r: string)
    ensures |r| == |s|
    ensures forall i | 0 <= i < |s| :: r[i] == LowerChar(s[i])
  {
    if s == [] then [] else [LowerChar(s[0])] + Lower(s[1..])
  }

  predicate StartsWith(s: string, p: string) {
    |p| <= |s| && s[..|p|] == p
  }

  predicate EndsWith(s: string, p: string) {
    |p| <= |s| && s[|s| - |p|..] == p
  }

  /** `t in s`: `t` occurs as a contiguous substring of `s`. */
  predicate Contains(s: string, t: string)
    decreases |s|
  {
    StartsWith(s, t) || (s != [] && Contains(s[1..], t))
  }

  /** `s.find(c, start)` generalised to a set of characters: the first index
      at or after `start` holding one of `cs`, with "not found" given as `|s|`
      instead of -1. */
  function FindFrom(s: string, cs: set<char>, start: nat): (k: nat)
    requires start <= |s|
    ensures start <= k <= |s|
    ensures k < |s| ==> s[k] in cs
    ensures forall i | start <= i < k :: s[i] !in cs
    decreases |s| - start
  {
    if start == |s| then start else if s[start] in cs then start else FindFrom(s, cs, start + 1)
  }

  /** `find` is determined by its contract. */
  lemma FindFromIs(s: string, cs: set<char>, start: nat, k: nat)
    requires start <= k <= |s| && (k < |s| ==> s[k] in cs)
    requires forall i | start <= i < k :: s[i] !in cs
    ensures FindFrom(s, cs, start) == k
  {
  }

  /** Searching a prefix finds the same index, or runs off its end. */
  lemma FindFromPrefix(s: string, cs: set<char>, start: nat, m: nat)
    requires start <= m <= |s|
    ensures FindFrom(s[..m], cs, start) == if FindFrom(s, cs, start) < m then FindFrom(s, cs, start) else m
  {
    var k := FindFrom(s, cs, start);
    FindFromIs(s[..m], cs, start, if k < m then k else m);
  }

  /** `s.rfind(c)`: the last index holding `c`, or -1. */
  function RFind(s: string, c: char): (k: int)
    ensures -1 <= k < |s|
    ensures k >= 0 ==> s[k] == c
    ensures forall i | k < i < |s| :: s[i] != c
  {
    if s == [] then -1 else if s[|s| - 1] == c then |s| - 1 else RFind(s[..|s| - 1], c)
  }

  /** `rfind` is determined by its contract: the last occurrence, or -1. */
  lemma RFindIs(s: string, c: char, k: int)
    requires -1 <= k < |s| && (k >= 0 ==> s[k] == c)
    requires forall i | k < i < |s| :: s[i] != c
    ensures RFind(s, c) == k
  {
  }

  /** The number of whitespace characters `s.lstrip()` removes. */
  function LeadingSpace(s: string): (n: nat)
    ensures n <= |s|
    ensures forall i | 0 <= i < n :: IsSpace(s[i])
    ensures n < |s| ==> !IsSpace(s[n])
  {
    if s != [] && IsSpace(s[0]) then 1 + LeadingSpace(s[1..]) else 0
  }

  /** The length `s.rstrip()` keeps. */
  function TrailingStart(s: string): (n: nat)
    ensures n <= |s|
    ensures forall i | n <= i < |s| :: IsSpace(s[i])
    ensures n > 0 ==> !IsSpace(s[n - 1])
  {
    if s != [] && IsSpace(s[|s| - 1]) then TrailingStart(s[..|s| - 1]) else |s|
  }

  /** `s.strip()`: the slice of `s` between its leading and its trailing
      whitespace; it neither starts nor ends with whitespace. */
  function Strip(s: string): (r: string)
    ensures r != [] ==> !IsSpace(r[0]) && !IsSpace(r[|r| - 1])
    ensures LeadingSpace(s) + |r| <= |s|
    ensures r == s[LeadingSpace(s)..LeadingSpace(s) + |r|]
    ensures forall i | LeadingSpace(s) + |r| <= i < |s| :: IsSpace(s[i])
  {
    var a, b := LeadingSpace(s), TrailingStart(s);
    if a == |s| then "" else
      assert a < b;
      s[a..b]
  }

  /** A string with no surrounding whitespace is its own strip. */
  lemma StripNoSpace(s: string)
    requires s != [] ==> !IsSpace(s[0]) && !IsSpace(s[|s| - 1])
    ensures Strip(s) == s
  {
    if s != [] {
      assert LeadingSpace(s) == 0;
      assert TrailingStart(s) == |s|;
    }
  }

  /** `re.sub(r"[^A-Za-z0-9._-]", "_", s)`: every unsafe character becomes `_`,
      every safe one is kept, and the length does not change. */
  function Sanitize(s: string): (r: string)
    ensures |r| == |s|
    ensures AllSafe(r)
    ensures forall i | 0 <= i < |s| :: IsSafeChar(s[i]) ==> r[i] == s[i]
    ensures forall i | 0 <= i < |s| :: !IsSafeChar(s[i]) ==> r[i] == '_'
  {
    if s == [] then [] else [if IsSafeChar(s[0]) then s[0] else '_'] + Sanitize(s[1..])
  }

  /** Sanitising works character by character, so it distributes over `+`. */
  lemma {:induction false} SanitizeAppend(a: string, b: string)
    ensures Sanitize(a + b) == Sanitize(a) + Sanitize(b)
  {
    var l, la, lb := Sanitize(a + b), Sanitize(a), Sanitize(b);
    assert |l| == |la + lb|;
    forall i | 0 <= i < |l| ensures l[i] == (la + lb)[i] {
      if i < |a| { assert (a + b)[i] == a[i]; } else { assert (a + b)[i] == b[i - |a|]; }
    }
  }

  /** A string that is already safe is left as it is; so sanitising twice is
      the same as sanitising once. */
  lemma SanitizeSafe(s: string)
    requires AllSafe(s)
    ensures Sanitize(s) == s
  {
    var r := Sanitize(s);
    assert forall i | 0 <= i < |s| :: r[i] == s[i];
  }
}
