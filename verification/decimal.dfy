/** Decimal numerals: Python's `int(digits)` and `str(n)` on non-negative integers.

Python integers are unbounded, so `nat` models them without wrap-around.
 */
module Decimal {
  import opened Text

  function DigitChar(d: nat): (c: char)
    requires d < 10
    ensures IsDigit(c)
  {
    ('0' as int + d) as char
  }

  function DigitValue(c: char): (d: nat)
    requires IsDigit(c)
    ensures d < 10 && DigitChar(d) == c
  {
    c as int - '0' as int
  }

  /** `int(s)` for a run of ASCII digits (leading zeros allowed, as in Python). */
  function DigitsToNat(s: string): nat
    requires AllDigits(s)
  {
    if s == [] then 0 else 10 * DigitsToNat(s[..|s| - 1]) + DigitValue(s[|s| - 1])
  }

  /** The numeral `str(n)` produces: digits only and no leading zero. */
  predicate Canonical(s: string) {
    IsDigitRun(s) && (s[0] == '0' ==> |s| == 1)
  }

  /** `str(n)` */
  function NatToString(n: nat): (r: string)
    ensures Canonical(r)
  {
    if n < 10 then [DigitChar(n)] else NatToString(n / 10) + [DigitChar(n % 10)]
  }

  /** `int(str(n)) == n` */
  lemma {:induction false} ParseShow(n: nat)
    ensures DigitsToNat(NatToString(n)) == n
  {
    if n >= 10 {
      var s := NatToString(n);
      ParseShow(n / 10);
      assert s[..|s| - 1] == NatToString(n / 10);
    }
  }

  lemma {:induction false} PositiveLeadingDigit(s: string)
    requires IsDigitRun(s) && s[0] != '0'
    ensures DigitsToNat(s) > 0
    decreases |s|
  {
    if |s| > 1 {
      PositiveLeadingDigit(s[..|s| - 1]);
    }
  }

  /** `str(int(s)) == s` exactly for canonical numerals: a numeral with a leading zero
      is not what `str` would print. */
  lemma {:induction false} ShowParse(s: string)
    requires Canonical(s)
    ensures NatToString(DigitsToNat(s)) == s
    decreases |s|
  {
    if |s| > 1 {
      var t := s[..|s| - 1];
      var d := DigitValue(s[|s| - 1]);
      ShowParse(t);
      PositiveLeadingDigit(t);
      var n := DigitsToNat(s);
      assert n == 10 * DigitsToNat(t) + d;
      assert n / 10 == DigitsToNat(t) && n % 10 == d;
      assert s == t + [s[|s| - 1]];
    }
  }

  /** A leading zero changes nothing: `int("0" + s) == int(s)`. */
  lemma {:induction false} ZeroPrefix(s: string)
    requires AllDigits(s)
    ensures AllDigits("0" + s) && DigitsToNat("0" + s) == DigitsToNat(s)
    decreases |s|
  {
    var t := "0" + s;
    if s != [] {
      assert t[..|t| - 1] == "0" + s[..|s| - 1];
      ZeroPrefix(s[..|s| - 1]);
    }
  }
}
