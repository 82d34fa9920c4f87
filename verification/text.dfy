/**
 * The JavaScript string primitives the resolver leans on, written out:
 * the character classes of regular expressions (`\d`, `\s`, `\W`, `[a-z]`
 * and the characters `.` refuses), ASCII `toLowerCase`, `trim`,
 * `startsWith`, `parseInt` on a run of decimal digits and the decimal
 * rendering of a number inside a template literal.
 */
module Text {

  /** `\d`: an ASCII decimal digit. */
  predicate IsDigit(c: char) {
    '0' <= c <= '9'
  }

  /** `[a-z]` under the `i` flag: an ASCII letter of either case. */
  predicate IsAsciiLetter(c: char) {
    'a' <= c <= 'z' || 'A' <= c <= 'Z'
  }

  /** `\w`: letter, digit or underscore; `\W` is its complement. */
  predicate IsWordChar(c: char) {
    IsAsciiLetter(c) || IsDigit(c) || c == '_'
  }

  predicate IsNonWordChar(c: char) {
    !IsWordChar(c)
  }

  /** The line terminators that `.` does not match. */
  predicate IsLineTerminator(c: char) {
    c == '\n' || c == '\r' || c == '\U{2028}' || c == '\U{2029}'
  }

  /** `\s`, which is also the set of characters `trim` removes: white space and line terminators. */
  predicate IsSpace(c: char) {
    || c == ' ' || c == '\t' || c == '\U{000B}' || c == '\U{000C}'
    || c == '\U{00A0}' || c == '\U{1680}' || ('\U{2000}' <= c <= '\U{200A}')
    || c == '\U{202F}' || c == '\U{205F}' || c == '\U{3000}' || c == '\U{FEFF}'
    || IsLineTerminator(c)
  }

  predicate AllDigits(s: string) {
    forall i | 0 <= i < |s| :: IsDigit(s[i])
  }

  predicate AllSpaces(s: string) {
    forall i | 0 <= i < |s| :: IsSpace(s[i])
  }

  /** `toLowerCase`, restricted to ASCII: upper-case ASCII letters map to lower case, everything else stays. */
  function LowerChar(c: char): (d: char)
    ensures IsAsciiLetter(c) <==> IsAsciiLetter(d)
    ensures IsAsciiLetter(c) ==> 'a' <= d <= 'z'
    ensures !IsAsciiLetter(c) ==> d == c
  {
    if 'A' <= c <= 'Z' then (c as int - 'A' as int + 'a' as int) as char else c
  }

  function Lower(s: string): (r: string)
    ensures |r| == |s|
    ensures forall i | 0 <= i < |s| :: r[i] == LowerChar(s[i])
  {
    if s == [] then [] else [LowerChar(s[0])] + Lower(s[1..])
  }

  lemma LowerAppend(a: string, b: string)
    ensures Lower(a + b) == Lower(a) + Lower(b)
  {
    assert forall i | 0 <= i < |a + b| :: Lower(a + b)[i] == (Lower(a) + Lower(b))[i];
  }

  /** No upper-case ASCII letter: `toLowerCase` (restricted to ASCII) leaves it alone. */
  predicate IsLowerCase(s: string) {
    forall i | 0 <= i < |s| :: !('A' <= s[i] <= 'Z')
  }

  lemma LowerIsLowerCase(s: string)
    ensures IsLowerCase(Lower(s))
  {
  }

  lemma LowerOfLowerCase(s: string)
    requires IsLowerCase(s)
    ensures Lower(s) == s
  {
  }

  /** Trimming a lower-case string leaves it lower case, so a second `toLowerCase` changes nothing. */
  lemma TrimOfLowerCase(s: string)
    requires IsLowerCase(s)
    ensures IsLowerCase(Trim(s)) && Lower(Trim(s)) == Trim(s)
  {
    var t := TrimStart(s);
    var r := TrimEnd(t);
    assert r == t[..|r|];
    forall i | 0 <= i < |r| ensures !('A' <= r[i] <= 'Z') {
      assert r[i] == s[Span(s, IsSpace) + i];
    }
    LowerOfLowerCase(r);
  }

  /** The length of the longest prefix of `s` whose characters all satisfy `p`: a greedy `p*`. */
  function Span(s: string, p: char -> bool): (n: nat)
    ensures n <= |s|
    ensures forall i | 0 <= i < n :: p(s[i])
    ensures n < |s| ==> !p(s[n])
  {
    if s != [] && p(s[0]) then 1 + Span(s[1..], p) else 0
  }

  /** A greedy run is the only run of `p` characters that is followed by a character failing `p` (or by the end). */
  lemma {:induction false} SpanUnique(s: string, p: char -> bool, n: nat)
    requires n <= |s|
    requires forall i | 0 <= i < n :: p(s[i])
    requires n < |s| ==> !p(s[n])
    ensures Span(s, p) == n
  {
    if n > 0 {
      SpanUnique(s[1..], p, n - 1);
    }
  }

  /** `s.startsWith(prefix)`. */
  predicate StartsWith(s: string, prefix: string) {
    |prefix| <= |s| && s[..|prefix|] == prefix
  }

  function DigitValue(c: char): (d: nat)
    requires IsDigit(c)
    ensures d < 10
  {
    c as int - '0' as int
  }

  function DigitChar(d: nat): (c: char)
    requires d < 10
    ensures IsDigit(c) && DigitValue(c) == d
  {
    ('0' as int + d) as char
  }

  /** `parseInt` applied to a run of decimal digits. */
  function DecimalValue(s: string): nat
    requires AllDigits(s)
  {
    if s == [] then 0 else 10 * DecimalValue(s[..|s| - 1]) + DigitValue(s[|s| - 1])
  }

  /** The decimal rendering of a natural number, without leading zeros. */
  function DecimalString(n: nat): (s: string)
    ensures s != [] && AllDigits(s)
    ensures n > 0 ==> s[0] != '0'
  {
    if n < 10 then [DigitChar(n)] else DecimalString(n / 10) + [DigitChar(n % 10)]
  }

  /** Rendering a number and reading it back gives the number. */
  lemma {:induction false} DecimalRoundTrip(n: nat)
    ensures DecimalValue(DecimalString(n)) == n
  {
    var s := DecimalString(n);
    if n >= 10 {
      DecimalRoundTrip(n / 10);
      assert s[..|s| - 1] == DecimalString(n / 10);
    }
  }

  /** The rendering of a number inside a template literal (`${n}`) for integers. */
  function NumberToString(n: int): (s: string)
    ensures n >= 0 ==> s == DecimalString(n)
    ensures n < 0 ==> s == "-" + DecimalString(-n)
  {
    if n < 0 then "-" + DecimalString(-n) else DecimalString(n)
  }

  /** Removes the leading characters that `trim` removes. */
  function TrimStart(s: string): (r: string)
    ensures |r| <= |s| && r == s[|s| - |r|..]
    ensures r != [] ==> !IsSpace(r[0])
    ensures forall i | 0 <= i < |s| - |r| :: IsSpace(s[i])
  {
    s[Span(s, IsSpace)..]
  }

  lemma TrimStartUnchanged(s: string)
    requires s == [] || !IsSpace(s[0])
    ensures TrimStart(s) == s
  {
    SpanUnique(s, IsSpace, 0);
  }

  /** Removes the trailing characters that `trim` removes. */
  function TrimEnd(s: string): (r: string)
    ensures StartsWith(s, r)
    ensures r != [] ==> !IsSpace(r[|r| - 1])
    ensures forall i | |r| <= i < |s| :: IsSpace(s[i])
  {
    if s != [] && IsSpace(s[|s| - 1]) then TrimEnd(s[..|s| - 1]) else s
  }

  /** `trim`. */
  function Trim(s: string): (r: string)
    ensures r != [] ==> !IsSpace(r[0]) && !IsSpace(r[|r| - 1])
  {
    TrimEnd(TrimStart(s))
  }

  /** A string that neither starts nor ends with white space is its own trim. */
  lemma TrimUnchanged(s: string)
    requires s == [] || (!IsSpace(s[0]) && !IsSpace(s[|s| - 1]))
    ensures Trim(s) == s
  {
    TrimStartUnchanged(s);
  }

  lemma {:induction false} TrimEndAppendSpaces(s: string, gap: string)
    requires AllSpaces(gap)
    ensures TrimEnd(s + gap) == TrimEnd(s)
    decreases |gap|
  {
    if gap != [] {
      var g := gap[..|gap| - 1];
      assert (s + gap)[..|s + gap| - 1] == s + g;
      assert IsSpace((s + gap)[|s + gap| - 1]);
      assert TrimEnd(s + gap) == TrimEnd(s + g);
      TrimEndAppendSpaces(s, g);
    } else {
      assert s + gap == s;
    }
  }

  /** White space appended to a string with some non-space character is removed again by `trim`. */
  lemma TrimAppendSpaces(s: string, gap: string, k: nat)
    requires k < |s| && !IsSpace(s[k])
    requires AllSpaces(gap)
    ensures Trim(s + gap) == Trim(s)
  {
    var n := Span(s, IsSpace);
    SpanUnique(s + gap, IsSpace, n);
    assert TrimStart(s + gap) == TrimStart(s) + gap;
    TrimEndAppendSpaces(TrimStart(s), gap);
  }
}
