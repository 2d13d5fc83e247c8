/** Semantic versions as the release script understands them: `SEMVER_RE`,
`validate_version` and `bump_version` (scripts/release.py).
 */
module SemVer {
  import opened Outcomes
  import opened Text
  import opened Decimal

  /** The three capture groups of `SEMVER_RE`, as text. */
  datatype Groups = Groups(major: string, minor: string, patch: string)

  /** A version triple; Python integers are unbounded. */
  datatype Version = Version(major: nat, minor: nat, patch: nat)

  /** Each group is a non-empty run of digits. */
  predicate WellFormed(g: Groups) {
    IsDigitRun(g.major) && IsDigitRun(g.minor) && IsDigitRun(g.patch)
  }

  /** The text `M.m.p` made of the three groups. */
  function Dotted(g: Groups): string {
    g.major + "." + g.minor + "." + g.patch
  }

  /** "Three dot-separated non-empty digit runs", and nothing else. */
  ghost predicate SemVerShaped(s: string) {
    exists g :: WellFormed(g) && s == Dotted(g)
  }

  /** End of the maximal run of digits that starts at `i`. */
  function DigitRunEnd(s: string, i: nat): (j: nat)
    requires i <= |s|
    ensures i <= j <= |s|
    ensures AllDigits(s[i..j])
    ensures j < |s| ==> !IsDigit(s[j])
    decreases |s| - i
  {
    if i < |s| && IsDigit(s[i]) then DigitRunEnd(s, i + 1) else i
  }

  /** `(\d+)\.(\d+)\.(\d+)` against the whole of `s`. Each `\d+` is greedy and is
      followed by a dot or by the end, neither of which is a digit, so backtracking
      can never produce a different split: taking maximal digit runs is exact. */
  function MatchExact(s: string): (r: Option<Groups>)
    ensures r.Some? ==> WellFormed(r.value) && s == Dotted(r.value)
  {
    var a := DigitRunEnd(s, 0);
    if a == 0 || a == |s| || s[a] != '.' then None
    else
      var b := DigitRunEnd(s, a + 1);
      if b == a + 1 || b == |s| || s[b] != '.' then None
      else
        var c := DigitRunEnd(s, b + 1);
        if c == b + 1 || c != |s| then None
        else
          var g := Groups(s[..a], s[a + 1..b], s[b + 1..]);
          assert s[b + 1..] == s[b + 1..c];
          assert s == s[..a] + "." + s[a + 1..b] + "." + s[b + 1..];
          Some(g)
  }

  /** `SEMVER_RE.match(s)` for `^(\d+)\.(\d+)\.(\d+)$`. Without MULTILINE, Python's `$`
      matches at the end of the string and also just before a single final "\n",
      so "1.2.3\n" matches with the same groups as "1.2.3". */
  function MatchSemVer(s: string): Option<Groups> {
    match MatchExact(s)
    case Some(g) => Some(g)
    case None => if |s| > 0 && s[|s| - 1] == '\n' then MatchExact(s[..|s| - 1]) else None
  }

  lemma {:induction false} DigitRunEndOver(x: string, rest: string, i: nat)
    requires i <= |x| && AllDigits(x[i..])
    requires rest == [] || !IsDigit(rest[0])
    ensures DigitRunEnd(x + rest, i) == |x|
    decreases |x| - i
  {
    var s := x + rest;
    if i < |x| {
      assert s[i] == x[i] && x[i + 1..] == x[i..][1..];
      DigitRunEndOver(x, rest, i + 1);
    } else if rest != [] {
      assert s[i] == rest[0];
    }
  }

  lemma MatchExactComplete(g: Groups)
    requires WellFormed(g)
    ensures MatchExact(Dotted(g)) == Some(g)
  {
    var s := Dotted(g);
    var a, b := |g.major|, |g.major| + 1 + |g.minor|;
    RunEnds(g);
    MatchExactAt(s, a, b);
    assert s[..a] == g.major;
    assert s == (g.major + "." + g.minor) + ("." + g.patch);
    assert s[a + 1..b] == (g.major + "." + g.minor)[a + 1..];
    assert s[a + 1..b] == g.minor;
    assert s[b + 1..] == g.patch;
  }

  /** Where the three digit runs of `Dotted(g)` end. */
  lemma RunEnds(g: Groups)
    requires WellFormed(g)
    ensures var s, a, b := Dotted(g), |g.major|, |g.major| + 1 + |g.minor|;
      && b + 1 < |s| && s[a] == '.' && s[b] == '.'
      && DigitRunEnd(s, 0) == a && DigitRunEnd(s, a + 1) == b && DigitRunEnd(s, b + 1) == |s|
  {
    RunEndsBefore(g, "");
    assert Dotted(g) + "" == Dotted(g);
  }

  /** Where the three digit runs of `Dotted(g)` end when it is followed by a `post`
      that does not start with a digit. */
  lemma RunEndsBefore(g: Groups, post: string)
    requires WellFormed(g)
    requires post == [] || !IsDigit(post[0])
    ensures var s, a, b := Dotted(g) + post, |g.major|, |g.major| + 1 + |g.minor|;
      && b + 1 < |Dotted(g)| <= |s| && s[a] == '.' && s[b] == '.'
      && DigitRunEnd(s, 0) == a && DigitRunEnd(s, a + 1) == b && DigitRunEnd(s, b + 1) == |Dotted(g)|
  {
    FirstRunEnd(g, post);
    SecondRunEnd(g, post);
    ThirdRunEnd(g, post);
    DotsOf(g, post);
  }

  lemma FirstRunEnd(g: Groups, post: string)
    requires AllDigits(g.major)
    ensures DigitRunEnd(Dotted(g) + post, 0) == |g.major|
  {
    DigitRunBetween(Dotted(g) + post, [], g.major, "." + g.minor + "." + g.patch + post);
  }

  lemma SecondRunEnd(g: Groups, post: string)
    requires AllDigits(g.minor)
    ensures DigitRunEnd(Dotted(g) + post, |g.major| + 1) == |g.major| + 1 + |g.minor|
  {
    DigitRunBetween(Dotted(g) + post, g.major + ".", g.minor, "." + g.patch + post);
  }

  lemma ThirdRunEnd(g: Groups, post: string)
    requires AllDigits(g.patch)
    requires post == [] || !IsDigit(post[0])
    ensures DigitRunEnd(Dotted(g) + post, |g.major| + 1 + |g.minor| + 1) == |Dotted(g)|
  {
    DigitRunBetween(Dotted(g) + post, g.major + "." + g.minor + ".", g.patch, post);
  }

  lemma DotsOf(g: Groups, post: string)
    requires |g.patch| > 0
    ensures var s := Dotted(g) + post;
      && |g.major| + 1 + |g.minor| + 1 < |Dotted(g)| <= |s|
      && s[|g.major|] == '.' && s[|g.major| + 1 + |g.minor|] == '.'
  {
    var x2 := g.major + "." + g.minor;
    assert Dotted(g) + post == (x2 + "." + g.patch) + post;
    assert (Dotted(g) + post)[|g.major|] == x2[|g.major|];
  }

  /** A run of digits `d` placed after `p` and before a `rest` that does not start
      with a digit ends exactly where `d` ends. */
  lemma DigitRunBetween(s: string, p: string, d: string, rest: string)
    requires s == p + d + rest
    requires AllDigits(d)
    requires rest == [] || !IsDigit(rest[0])
    ensures DigitRunEnd(s, |p|) == |p| + |d|
  {
    assert (p + d)[|p|..] == d;
    DigitRunEndOver(p + d, rest, |p|);
  }

  lemma MatchExactAt(s: string, a: nat, b: nat)
    requires 0 < a && a + 1 < b && b + 1 < |s| && s[a] == '.' && s[b] == '.'
    requires DigitRunEnd(s, 0) == a && DigitRunEnd(s, a + 1) == b && DigitRunEnd(s, b + 1) == |s|
    ensures MatchExact(s) == Some(Groups(s[..a], s[a + 1..b], s[b + 1..]))
  {
  }

  lemma DigitRunEndTail(s: string, i: nat)
    requires i <= |s| && AllDigits(s[i..])
    ensures DigitRunEnd(s, i) == |s|
  {
    DigitRunEndOver(s, [], i);
    assert s + [] == s;
  }

  /** The pattern matches exactly the three-digit-runs shape. */
  lemma MatchExactIff(s: string)
    ensures MatchExact(s).Some? <==> SemVerShaped(s)
  {
    if SemVerShaped(s) {
      var g :| WellFormed(g) && s == Dotted(g);
      MatchExactComplete(g);
    }
  }

  /** Both directions of what `SEMVER_RE.match(s)` accepts: `s` is `M.m.p` built from
      the returned groups, optionally followed by one "\n", and every such string
      matches with exactly those groups. */
  lemma MatchSemVerIff(s: string, g: Groups)
    ensures MatchSemVer(s) == Some(g) <==> WellFormed(g) && (s == Dotted(g) || s == Dotted(g) + "\n")
  {
    MatchExactLastDigit(s);
    if WellFormed(g) && s == Dotted(g) + "\n" {
      assert s[..|s| - 1] == Dotted(g);
      MatchExactComplete(g);
    } else if WellFormed(g) && s == Dotted(g) {
      MatchExactComplete(g);
    } else if MatchExact(s).None? && |s| > 0 && s[|s| - 1] == '\n' {
      var t := s[..|s| - 1];
      assert s == t + "\n";
    }
  }

  /** A text the pattern matches in full ends in a digit. */
  lemma MatchExactLastDigit(s: string)
    ensures MatchExact(s).Some? ==> |s| > 0 && IsDigit(s[|s| - 1])
  {
    if MatchExact(s).Some? {
      var h := MatchExact(s).value;
      assert s == (h.major + "." + h.minor + ".") + h.patch;
      assert s[|s| - 1] == h.patch[|h.patch| - 1];
    }
  }

  /** What `SEMVER_RE.match` accepts, in terms of the shape alone. */
  lemma MatchSemVerShape(s: string)
    ensures MatchSemVer(s).Some? <==> SemVerShaped(s) || (|s| > 0 && s[|s| - 1] == '\n' && SemVerShaped(s[..|s| - 1]))
  {
    MatchExactIff(s);
    if |s| > 0 {
      MatchExactIff(s[..|s| - 1]);
    }
  }

  /** The numbers the groups spell, as `map(int, m.groups())` computes them. */
  function ToVersion(g: Groups): Version
    requires WellFormed(g)
  {
    Version(DigitsToNat(g.major), DigitsToNat(g.minor), DigitsToNat(g.patch))
  }

  /** The version a string spells, when `SEMVER_RE` matches it. */
  function ParseVersion(s: string): (r: Option<Version>)
    ensures r.Some? <==> MatchSemVer(s).Some?
  {
    match MatchSemVer(s)
    case Some(g) =>
      MatchSemVerIff(s, g);
      Some(ToVersion(g))
    case None => None
  }

  /** `f"{major}.{minor}.{patch}"` */
  function Show(v: Version): string {
    NatToString(v.major) + "." + NatToString(v.minor) + "." + NatToString(v.patch)
  }

  /** A rendered version matches `SEMVER_RE`, every group is a canonical numeral, and
      it parses back to the same triple. */
  lemma {:induction false} ShowParses(v: Version)
    ensures MatchExact(Show(v)) == Some(Groups(NatToString(v.major), NatToString(v.minor), NatToString(v.patch)))
    ensures MatchSemVer(Show(v)) == MatchExact(Show(v))
    ensures ParseVersion(Show(v)) == Some(v)
  {
    var g := Groups(NatToString(v.major), NatToString(v.minor), NatToString(v.patch));
    assert Show(v) == Dotted(g);
    MatchExactComplete(g);
    ParseShow(v.major);
    ParseShow(v.minor);
    ParseShow(v.patch);
  }

  /** Lexicographic order on triples. */
  predicate Less(a: Version, b: Version) {
    || a.major < b.major
    || (a.major == b.major && a.minor < b.minor)
    || (a.major == b.major && a.minor == b.minor && a.patch < b.patch)
  }

  /** `validate_version(v)`: `v` itself when `SEMVER_RE` matches, otherwise a stop
      naming the rejected value. */
  function ValidateVersion(v: string): (r: Outcome<string>)
    ensures r.Ok? ==> r.value == v
    ensures r.Ok? <==> SemVerShaped(v) || (|v| > 0 && v[|v| - 1] == '\n' && SemVerShaped(v[..|v| - 1]))
    ensures r.Fatal? ==> r.halt == Exit("Invalid VERSION '" + v + "'. Expected SemVer: X.Y.Z")
  {
    MatchSemVerShape(v);
    if MatchSemVer(v).Some? then Ok(v)
    else Fatal(Exit("Invalid VERSION '" + v + "'. Expected SemVer: X.Y.Z"))
  }

  /** `bump_version(cur, bump)`. A current version `SEMVER_RE` does not match stops the
      run; otherwise "major" gives (M+1, 0, 0), "minor" gives (M, m+1, 0) and every
      other bump string gives (M, m, p+1), rendered without leading zeros. */
  function BumpVersion(cur: string, bump: string): (r: Outcome<string>)
    ensures r.Ok? <==> ParseVersion(cur).Some?
    ensures r.Fatal? ==> r.halt == Exit("Cannot parse current version '" + cur + "' as SemVer")
    ensures r.Ok? ==>
      var was := ParseVersion(cur).value;
      && ParseVersion(r.value).Some?
      && var now := ParseVersion(r.value).value;
      && (bump == "major" ==> now == Version(was.major + 1, 0, 0))
      && (bump == "minor" ==> now == Version(was.major, was.minor + 1, 0))
      && (bump != "major" && bump != "minor" ==> now == Version(was.major, was.minor, was.patch + 1))
  {
    match MatchSemVer(cur)
    case None => Fatal(Exit("Cannot parse current version '" + cur + "' as SemVer"))
    case Some(g) =>
      MatchSemVerIff(cur, g);
      var w := Bumped(ToVersion(g), bump);
      ShowParses(w);
      Ok(Show(w))
  }

  /** The triple `bump_version` computes from the parsed current one. */
  function Bumped(v: Version, bump: string): (w: Version)
    ensures Less(v, w)
  {
    if bump == "major" then Version(v.major + 1, 0, 0)
    else if bump == "minor" then Version(v.major, v.minor + 1, 0)
    else Version(v.major, v.minor, v.patch + 1)
  }

  /** Whatever the bump, a successful result is a well-formed version with canonical
      numerals (no leading zeros), matches `SEMVER_RE` without needing the trailing
      "\n" allowance, and is strictly greater than the current version. */
  lemma BumpResultIsCanonicalAndGreater(cur: string, bump: string)
    requires BumpVersion(cur, bump).Ok?
    ensures var s := BumpVersion(cur, bump).value;
      && MatchExact(s).Some?
      && Canonical(MatchExact(s).value.major)
      && Canonical(MatchExact(s).value.minor)
      && Canonical(MatchExact(s).value.patch)
      && Less(ParseVersion(cur).value, ParseVersion(s).value)
  {
    var w := Bumped(ToVersion(MatchSemVer(cur).value), bump);
    ShowParses(w);
  }

  /** Values `validate_version` rejects: two components, a leading "v", and a
      pre-release suffix. */
  lemma ValidateVersionRejects()
    ensures ValidateVersion("1.2").Fatal?
    ensures ValidateVersion("v1.2.3").Fatal?
    ensures ValidateVersion("1.2.3-rc1").Fatal?
  {
    RejectTwoParts();
    RejectLeadingV();
    RejectSuffix();
  }

  lemma RejectTwoParts() ensures MatchSemVer("1.2").None? {
    assert DigitRunEnd("1.2", 2) == 3;
  }

  lemma RejectLeadingV() ensures MatchSemVer("v1.2.3").None? {
    assert DigitRunEnd("v1.2.3", 0) == 0;
  }

  lemma RejectSuffix() ensures MatchSemVer("1.2.3-rc1").None? {
    var s := "1.2.3-rc1";
    assert DigitRunEnd(s, 4) == 5;
  }

  /** Leading zeros are accepted, and the bump prints the numbers without them. */
  lemma LeadingZerosAccepted()
    ensures ValidateVersion("01.02.03") == Ok("01.02.03")
    ensures BumpVersion("01.02.03", "patch") == Ok("1.2.4")
  {
    var g := Groups("01", "02", "03");
    assert Dotted(g) == "01.02.03";
    MatchExactComplete(g);
    MatchSemVerIff("01.02.03", g);
    PaddedValues();
    assert Show(Version(1, 2, 4)) == "1.2.4";
  }

  lemma PaddedValues()
    ensures WellFormed(Groups("01", "02", "03")) && ToVersion(Groups("01", "02", "03")) == Version(1, 2, 3)
  {
    ZeroPrefix("1");
    ZeroPrefix("2");
    ZeroPrefix("3");
    assert "0" + "1" == "01" && "0" + "2" == "02" && "0" + "3" == "03";
    assert "1"[..0] == "2"[..0] == "3"[..0] == [];
  }
}
