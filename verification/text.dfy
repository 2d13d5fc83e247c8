/** Character classes and the `str` methods the scripts use: `strip`, `lstrip`,
`rstrip`, `startswith`, `lower` and argument-less `split`.

Strings are sequences of Unicode scalar values, as in Python 3.
 */
module Text {

  /** Python's `str.isspace`, which is also what `\s` in a `str` pattern matches
      and what `strip()` with no argument removes. */
  predicate IsSpace(c: char) {
    || c == ' '
    || ('\t' <= c <= '\r')                 // tab, line feed, vertical tab, form feed, carriage return
    || ('\U{1C}' <= c <= '\U{1F}')         // file, group, record and unit separators
    || c == '\U{85}' || c == '\U{A0}' || c == '\U{1680}'
    || ('\U{2000}' <= c <= '\U{200A}')
    || c == '\U{2028}' || c == '\U{2029}' || c == '\U{202F}' || c == '\U{205F}' || c == '\U{3000}'
  }

  /** `\d`, restricted to the ASCII digits. */
  predicate IsDigit(c: char) {
    '0' <= c <= '9'
  }

  predicate AllDigits(s: string) {
    forall k :: 0 <= k < |s| ==> IsDigit(s[k])
  }

  /** A non-empty run of digits: what `\d+` matches. */
  predicate IsDigitRun(s: string) {
    |s| > 0 && AllDigits(s)
  }

  /** `\w`, restricted to ASCII letters, digits and the underscore. */
  predicate IsWordChar(c: char) {
    IsDigit(c) || ('a' <= c <= 'z') || ('A' <= c <= 'Z') || c == '_'
  }

  predicate NoSpace(s: string) {
    forall k :: 0 <= k < |s| ==> !IsSpace(s[k])
  }

  predicate StartsWith(s: string, prefix: string) {
    |prefix| <= |s| && s[..|prefix|] == prefix
  }

  predicate AllSpace(s: string) {
    forall k :: 0 <= k < |s| ==> IsSpace(s[k])
  }

  /** End of the run of spaces that starts at `i`. */
  function SpaceRunEnd(s: string, i: nat): (j: nat)
    requires i <= |s|
    ensures i <= j <= |s|
    ensures forall k :: i <= k < j ==> IsSpace(s[k])
    ensures j < |s| ==> !IsSpace(s[j])
    decreases |s| - i
  {
    if i < |s| && IsSpace(s[i]) then SpaceRunEnd(s, i + 1) else i
  }

  /** Start of the run of spaces that ends at `j`. */
  function SpaceRunStart(s: string, j: nat): (i: nat)
    requires j <= |s|
    ensures i <= j
    ensures forall k :: i <= k < j ==> IsSpace(s[k])
    ensures i > 0 ==> !IsSpace(s[i - 1])
  {
    if j > 0 && IsSpace(s[j - 1]) then SpaceRunStart(s, j - 1) else j
  }

  lemma StartsWithChar(s: string, prefix: string, k: nat)
    requires StartsWith(s, prefix) && k < |prefix|
    ensures s[k] == prefix[k]
  {
    assert s[..|prefix|][k] == s[k];
  }

  /** `s.lstrip()` */
  function LStrip(s: string): (r: string)
    ensures |r| <= |s|
    ensures forall k :: 0 <= k < |s| - |r| ==> IsSpace(s[k])
    ensures r == [] || !IsSpace(r[0])
  {
    s[SpaceRunEnd(s, 0)..]
  }

  /** `s.rstrip()` */
  function RStrip(s: string): (r: string)
    ensures |r| <= |s|
    ensures forall k :: |r| <= k < |s| ==> IsSpace(s[k])
    ensures r == [] || !IsSpace(r[|r| - 1])
  {
    s[..SpaceRunStart(s, |s|)]
  }

  /** `s.strip()` */
  function Strip(s: string): (r: string)
    ensures r == [] || (!IsSpace(r[0]) && !IsSpace(r[|r| - 1]))
    ensures AllSpace(s) <==> r == []
  {
    RStrip(LStrip(s))
  }

  /** `lstrip` removes exactly the leading run of spaces. */
  lemma LStripUnique(s: string, n: nat)
    requires n <= |s|
    requires forall k :: 0 <= k < n ==> IsSpace(s[k])
    requires n == |s| || !IsSpace(s[n])
    ensures LStrip(s) == s[n..]
  {
  }

  /** `rstrip` removes exactly the trailing run of spaces. */
  lemma RStripUnique(s: string, n: nat)
    requires n <= |s|
    requires forall k :: n <= k < |s| ==> IsSpace(s[k])
    requires n == 0 || !IsSpace(s[n - 1])
    ensures RStrip(s) == s[..n]
  {
  }

  /** Leading spaces do not survive `lstrip`. */
  lemma LStripAfterSpaces(t: string, s: string)
    requires AllSpace(t)
    ensures LStrip(t + s) == LStrip(s)
  {
    var n := SpaceRunEnd(s, 0);
    var u := t + s;
    forall k | 0 <= k < |t| + n ensures IsSpace(u[k]) {
      if k >= |t| { assert u[k] == s[k - |t|]; }
    }
    if |t| + n < |u| { assert u[|t| + n] == s[n]; }
    LStripUnique(u, |t| + n);
    assert u[|t| + n..] == s[n..];
  }

  /** Trailing spaces do not survive `rstrip`. */
  lemma RStripBeforeSpaces(s: string, t: string)
    requires AllSpace(t)
    ensures RStrip(s + t) == RStrip(s)
  {
    var n := SpaceRunStart(s, |s|);
    var u := s + t;
    forall k | n <= k < |u| ensures IsSpace(u[k]) {
      if k < |s| { assert u[k] == s[k]; } else { assert u[k] == t[k - |s|]; }
    }
    if n > 0 { assert u[n - 1] == s[n - 1]; }
    RStripUnique(u, n);
    assert u[..n] == s[..n];
  }

  /** Text in front of a part that is not all spaces is untouched by `rstrip`. */
  lemma RStripAfterText(p: string, q: string)
    requires !AllSpace(q)
    ensures RStrip(p + q) == p + RStrip(q)
  {
    var n := SpaceRunStart(q, |q|);
    var u := p + q;
    assert n > 0;
    forall k | |p| + n <= k < |u| ensures IsSpace(u[k]) {
      assert u[k] == q[k - |p|];
    }
    assert u[|p| + n - 1] == q[n - 1];
    RStripUnique(u, |p| + n);
    assert u[..|p| + n] == p + q[..n];
  }

  /** A string with no space at either end is its own strip. */
  lemma StripOfTrimmed(s: string)
    requires s == [] || (!IsSpace(s[0]) && !IsSpace(s[|s| - 1]))
    ensures Strip(s) == s
  {
  }

  /** Stripping a string that ends in a line feed removes it: `Strip` never leaves a
      trailing "\n", which is why `$` in a pattern behaves as end-of-string on a
      stripped value. */
  lemma StripNeverEndsInNewline(s: string)
    ensures var r := Strip(s); r == [] || r[|r| - 1] != '\n'
  {
  }

  /** `c.lower()` on ASCII letters; every other character is left alone. */
  function LowerChar(c: char): (r: char)
    ensures 'A' <= c <= 'Z' ==> 'a' <= r <= 'z'
    ensures !('A' <= c <= 'Z') ==> r == c
  {
    if 'A' <= c <= 'Z' then (c as int - 'A' as int + 'a' as int) as char else c
  }

  function Lower(s: string): (r: string)
    ensures |r| == |s|
    ensures forall k :: 0 <= k < |s| ==> r[k] == LowerChar(s[k])
  {
    if s == [] then [] else [LowerChar(s[0])] + Lower(s[1..])
  }

  /** `s.split()` with no argument: the maximal runs of non-space characters, in order. */
  function Words(s: string): (r: seq<string>)
    ensures forall w :: w in r ==> w != [] && NoSpace(w)
    decreases |s|
  {
    var l := LStrip(s);
    if l == [] then []
    else
      var n := WordLength(l);
      [l[..n]] + Words(l[n..])
  }

  /** Length of the run of non-space characters at the start of `s`. */
  function WordLength(s: string): (n: nat)
    ensures n <= |s|
    ensures NoSpace(s[..n])
    ensures n < |s| ==> IsSpace(s[n])
    ensures s != [] && !IsSpace(s[0]) ==> n > 0
  {
    if s == [] || IsSpace(s[0]) then 0 else 1 + WordLength(s[1..])
  }
}
