/**
 * Character classes and string scanning shared by every extractor.
 *
 * The extractors of background.js are regular expressions; here each one is an
 * explicit scanner. `FirstMatch` is the leftmost-match loop of a regex engine
 * (try position `from`, then `from + 1`, ...), and the per-position tests are
 * written out next to each extractor.
 */
module Text {

  datatype Option<+T> = None | Some(value: T)

  /** The JavaScript class `\s`, which is also what `String.prototype.trim` removes:
    * the WhiteSpace and LineTerminator code points of ECMA-262. */
  predicate IsSpace(c: char) {
    c == '\t' || c == '\n' || c == '\U{000B}' || c == '\U{000C}' || c == '\r' || c == ' '
    || c == '\U{00A0}' || c == '\U{1680}' || ('\U{2000}' <= c <= '\U{200A}')
    || c == '\U{2028}' || c == '\U{2029}' || c == '\U{202F}' || c == '\U{205F}'
    || c == '\U{3000}' || c == '\U{FEFF}'
  }

  /** The JavaScript class `\d`: ASCII digits only. */
  predicate IsDigit(c: char) {
    '0' <= c <= '9'
  }

  /** ASCII lower-casing, which is all the `i` flag does for the ASCII patterns used here. */
  function Lower(c: char): (r: char)
    ensures IsDigit(c) ==> r == c
  {
    if 'A' <= c <= 'Z' then (c as int + 32) as char else c
  }

  /** `pat` occurs in `s` starting at `i`. */
  predicate At(s: string, i: nat, pat: string) {
    i + |pat| <= |s| && s[i..i + |pat|] == pat
  }

  /** `pat` (written in lower case) occurs in `s` at `i`, ignoring ASCII case. */
  predicate AtCI(s: string, i: nat, pat: string) {
    i + |pat| <= |s| && forall k :: 0 <= k < |pat| ==> Lower(s[i + k]) == pat[k]
  }

  /** `s.indexOf(pat, from)`: the first occurrence of `pat` at or after `from`. */
  function IndexOf(s: string, pat: string, from: nat): (r: Option<nat>)
    decreases |s| - from
    ensures r.Some? ==> from <= r.value && At(s, r.value, pat)
    ensures r.Some? ==> forall j :: from <= j < r.value ==> !At(s, j, pat)
    ensures r.None? ==> forall j :: from <= j ==> !At(s, j, pat)
  {
    if from + |pat| > |s| then None
    else if At(s, from, pat) then Some(from)
    else IndexOf(s, pat, from + 1)
  }

  /** The first occurrence of `pat` at or after `from`, ignoring ASCII case. */
  function IndexOfCI(s: string, pat: string, from: nat): (r: Option<nat>)
    decreases |s| - from
    ensures r.Some? ==> from <= r.value && AtCI(s, r.value, pat)
    ensures r.Some? ==> forall j :: from <= j < r.value ==> !AtCI(s, j, pat)
    ensures r.None? ==> forall j :: from <= j ==> !AtCI(s, j, pat)
  {
    if from + |pat| > |s| then None
    else if AtCI(s, from, pat) then Some(from)
    else IndexOfCI(s, pat, from + 1)
  }

  /** A one-character pattern occurs at `m` exactly when that character is there. */
  lemma AtSingle(s: string, m: nat, c: char)
    ensures At(s, m, [c]) <==> m < |s| && s[m] == c
  {
    if m < |s| {
      assert s[m..m + 1] == [s[m]];
    }
  }

  /** A pattern does not occur where one of its characters is missing. */
  lemma NotAtMismatch(s: string, j: nat, pat: string, d: nat)
    requires d < |pat| && j + d < |s| && s[j + d] != pat[d]
    ensures !At(s, j, pat)
  {
    if j + |pat| <= |s| {
      assert s[j..j + |pat|][d] == s[j + d];
    }
  }

  /** The character `c` occurs at no position in [a, b). */
  predicate CharAbsent(s: string, c: char, a: nat, b: nat) {
    forall m :: a <= m < b && m < |s| ==> s[m] != c
  }

  /** `pat` occurs, ignoring ASCII case, at no position in [a, b). */
  predicate NoneCIBetween(s: string, pat: string, a: nat, b: nat) {
    forall m :: a <= m < b ==> !AtCI(s, m, pat)
  }

  /** Every character in [a, b) is a space. */
  predicate AllSpaces(s: string, a: nat, b: nat) {
    forall m :: a <= m < b && m < |s| ==> IsSpace(s[m])
  }

  /** An occurrence with none before it (from `from` on) is what `indexOf` finds. */
  lemma IndexOfIs(s: string, pat: string, from: nat, j: nat)
    requires from <= j && At(s, j, pat)
    requires forall m :: from <= m < j ==> !At(s, m, pat)
    ensures IndexOf(s, pat, from) == Some(j)
  {
  }

  /** The same for the case-insensitive search. */
  lemma IndexOfCIIs(s: string, pat: string, from: nat, j: nat)
    requires from <= j && AtCI(s, j, pat)
    requires NoneCIBetween(s, pat, from, j)
    ensures IndexOfCI(s, pat, from) == Some(j)
  {
  }

  /** An occurrence inside a slice is an occurrence in the whole text, and the
    * other way round. */
  lemma AtInSlice(s: string, a: nat, b: nat, j: nat, pat: string)
    requires a <= b <= |s| && j + |pat| <= b - a
    ensures At(s[a..b], j, pat) <==> At(s, a + j, pat)
  {
    var u := s[a..b][j..j + |pat|];
    var w := s[a + j..a + j + |pat|];
    forall k | 0 <= k < |u|
      ensures u[k] == w[k]
    {
    }
    assert u == w;
  }

  /** Concatenation regroups freely. Loops that prepend or append one element at a
    * time call this to relate their accumulator to its specification. */
  lemma ConcatAssoc<T>(x: seq<T>, y: seq<T>, z: seq<T>)
    ensures x + (y + z) == (x + y) + z
  {
  }

  /** `s.includes(pat)`. */
  function Contains(s: string, pat: string): (b: bool)
    ensures b <==> exists j: nat :: At(s, j, pat)
  {
    IndexOf(s, pat, 0).Some?
  }

  /**
   * The leftmost position in [from, to) at which `at` matches, with what it
   * matched: how a non-global `match` or `exec` picks its result.
   */
  function FirstMatch<T>(from: nat, to: nat, at: nat -> Option<T>): (r: Option<(nat, T)>)
    decreases to - from
    ensures r.Some? ==> from <= r.value.0 < to && at(r.value.0) == Some(r.value.1)
    ensures r.Some? ==> forall j :: from <= j < r.value.0 ==> at(j).None?
    ensures r.None? ==> forall j :: from <= j < to ==> at(j).None?
  {
    if from >= to then None
    else match at(from)
      case Some(v) => Some((from, v))
      case None => FirstMatch(from + 1, to, at)
  }

  /** Length of the run of characters satisfying `p` that starts at `q`. */
  function RunLength(s: string, q: nat, p: char -> bool): (n: nat)
    decreases |s| - q
    ensures q + n <= |s| || n == 0
    ensures forall k :: q <= k < q + n ==> p(s[k])
    ensures q + n < |s| ==> !p(s[q + n])
  {
    if q >= |s| || !p(s[q]) then 0 else 1 + RunLength(s, q + 1, p)
  }

  /** A run of `n` characters satisfying `p` that ends the text or is followed by
    * one that does not is the whole run. */
  lemma RunLengthIs(s: string, q: nat, p: char -> bool, n: nat)
    requires q + n <= |s|
    requires forall k :: q <= k < q + n ==> p(s[k])
    requires q + n == |s| || !p(s[q + n])
    ensures RunLength(s, q, p) == n
  {
  }

  /** Length of the `\s` run starting at `q`. */
  function SpaceRun(s: string, q: nat): (n: nat)
    ensures q + n <= |s| || n == 0
    ensures forall k :: q <= k < q + n ==> IsSpace(s[k])
    ensures q + n < |s| ==> !IsSpace(s[q + n])
  {
    RunLength(s, q, IsSpace)
  }

  /** Spaces up to `q + n` and no space there: the run is `n` long. */
  lemma SpaceRunIs(s: string, q: nat, n: nat)
    requires q + n < |s| && AllSpaces(s, q, q + n) && !IsSpace(s[q + n])
    ensures SpaceRun(s, q) == n
  {
    RunLengthIs(s, q, IsSpace, n);
  }

  /** No character of `s` is a space at either end. */
  predicate Trimmed(s: string) {
    |s| == 0 || (!IsSpace(s[0]) && !IsSpace(s[|s| - 1]))
  }

  /** Length of the `\s` run that ends `s`. */
  function TrailingSpaces(s: string): (n: nat)
    decreases |s|
    ensures n <= |s|
    ensures forall k :: |s| - n <= k < |s| ==> IsSpace(s[k])
    ensures n < |s| ==> !IsSpace(s[|s| - 1 - n])
  {
    if |s| > 0 && IsSpace(s[|s| - 1]) then 1 + TrailingSpaces(s[..|s| - 1]) else 0
  }

  /** No two neighbouring characters of `s` are both spaces. */
  predicate NoAdjacentSpaces(s: string) {
    forall k :: 0 <= k < |s| - 1 ==> !(IsSpace(s[k]) && IsSpace(s[k + 1]))
  }

  /** Every space character of `s` is the plain space U+0020. */
  predicate OnlyPlainSpaces(s: string) {
    forall k :: 0 <= k < |s| && IsSpace(s[k]) ==> s[k] == ' '
  }

  /** How many leading spaces `trim` drops. */
  function TrimOffset(s: string): (n: nat)
    ensures n <= |s|
    ensures forall k :: 0 <= k < n ==> IsSpace(s[k])
    ensures n < |s| ==> !IsSpace(s[n])
  {
    SpaceRun(s, 0)
  }

  /** `String.prototype.trim`: drops the spaces at both ends and nothing else, so
    * text already trimmed is returned as it is. */
  function Trim(s: string): (r: string)
    ensures Trimmed(r) && |r| <= |s|
    ensures TrimOffset(s) + |r| <= |s| && r == s[TrimOffset(s)..TrimOffset(s) + |r|]
    ensures forall k :: 0 <= k < |s| && !(TrimOffset(s) <= k < TrimOffset(s) + |r|) ==> IsSpace(s[k])
    ensures Trimmed(s) ==> r == s
  {
    var a := TrimOffset(s);
    if a == |s| then []
    else
      var n := TrailingSpaces(s);
      assert a < |s| - n;
      s[a..|s| - n]
  }

  /** Text that is only spaces trims to the empty string. */
  lemma TrimAllSpaces(s: string)
    requires forall k :: 0 <= k < |s| ==> IsSpace(s[k])
    ensures Trim(s) == []
  {
  }

  /** Trimming keeps single spacing and plain spaces, being a substring. */
  lemma TrimKeepsSpacing(s: string)
    ensures NoAdjacentSpaces(s) ==> NoAdjacentSpaces(Trim(s))
    ensures OnlyPlainSpaces(s) ==> OnlyPlainSpaces(Trim(s))
  {
    var r := Trim(s);
    var off := TrimOffset(s);
    assert forall k :: 0 <= k < |r| ==> r[k] == s[off + k];
  }

  /** `s.slice(a, b)` for non-negative arguments: both ends are clamped to the length. */
  function Slice(s: string, a: nat, b: nat): (r: string)
    ensures |r| <= |s|
    ensures a <= b <= |s| ==> r == s[a..b]
  {
    var from := if a < |s| then a else |s|;
    var to := if b < |s| then b else |s|;
    if from < to then s[from..to] else ""
  }

  /** The first `n` elements, or all of them: `xs.slice(0, n)`. */
  function Take<T>(xs: seq<T>, n: nat): (r: seq<T>)
    ensures |r| <= n && |r| <= |xs|
    ensures |r| == n || |r| == |xs|
    ensures r == xs[..|r|]
  {
    if |xs| <= n then xs else xs[..n]
  }

  /** `s.replace(/\./g, "-")`. */
  function DotsToDashes(s: string): (r: string)
    ensures |r| == |s|
    ensures forall k :: 0 <= k < |s| ==> r[k] == (if s[k] == '.' then '-' else s[k])
  {
    if s == [] then [] else [if s[0] == '.' then '-' else s[0]] + DotsToDashes(s[1..])
  }

  /** A token matching `\d{4}[.\-]\d{2}[.\-]\d{2}`. */
  predicate IsDateToken(t: string) {
    |t| == 10
    && IsDigit(t[0]) && IsDigit(t[1]) && IsDigit(t[2]) && IsDigit(t[3])
    && (t[4] == '.' || t[4] == '-')
    && IsDigit(t[5]) && IsDigit(t[6])
    && (t[7] == '.' || t[7] == '-')
    && IsDigit(t[8]) && IsDigit(t[9])
  }

  /** A date written `DDDD-DD-DD`. */
  predicate IsIsoDate(d: string) {
    |d| == 10
    && IsDigit(d[0]) && IsDigit(d[1]) && IsDigit(d[2]) && IsDigit(d[3]) && d[4] == '-'
    && IsDigit(d[5]) && IsDigit(d[6]) && d[7] == '-' && IsDigit(d[8]) && IsDigit(d[9])
  }

  /** The date token starting at `i`, if there is one. */
  function DateTokenAt(s: string, i: nat): (r: Option<string>)
    ensures r.Some? <==> i + 10 <= |s| && IsDateToken(s[i..i + 10])
    ensures r.Some? ==> r.value == s[i..i + 10]
  {
    if i + 10 <= |s| && IsDateToken(s[i..i + 10]) then Some(s[i..i + 10]) else None
  }

  /** Rewriting the dots of a date token gives an ISO-like date, and both
    * separators are accepted in any mix (`2024.05-01` becomes `2024-05-01`). */
  lemma DateTokenNormalises(t: string)
    requires IsDateToken(t)
    ensures IsIsoDate(DotsToDashes(t))
    ensures forall k :: 0 <= k < 10 && k != 4 && k != 7 ==> DotsToDashes(t)[k] == t[k]
  {
  }
}
