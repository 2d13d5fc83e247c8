/** Deciding the versions of a release: `get_current_version` and the resolution in
`main` (scripts/release.py), where a `VERSION` override wins over any bump. */
module Versioning {
  import opened Outcomes
  import opened Text
  import opened Lines
  import opened Decimal
  import opened Shell
  import opened SemVer
  import opened BumpChoice
  import opened Changelog

  const DescribeTag: Argv := ["git", "describe", "--tags", "--abbrev=0"]

  /** The version assumed when there is neither a tag nor a changelog header. */
  const Initial: string := "0.0.0"

  /** `tag[1:] if tag.startswith("v") else tag`: exactly one leading "v" goes. */
  function DropV(tag: string): (r: string)
    ensures StartsWith(tag, "v") ==> "v" + r == tag
    ensures !StartsWith(tag, "v") ==> r == tag
  {
    if StartsWith(tag, "v") then
      assert tag == tag[..1] + tag[1..];
      tag[1..]
    else tag
  }

  /** Only one "v" is removed: "vv1.2.3" gives "v1.2.3", and an untagged-looking
      "1.2.3" is kept as it is. */
  lemma DropOneV()
    ensures DropV("v1.2.3") == "1.2.3"
    ensures DropV("vv1.2.3") == "v1.2.3"
    ensures DropV("1.2.3") == "1.2.3"
  {
    assert "v" + "1.2.3" == "v1.2.3";
    assert "v" + "v1.2.3" == "vv1.2.3";
    assert "1.2.3"[..1] == "1";
  }

  /** Lines 68-75: the first changelog line `^##\s+(\d+\.\d+\.\d+)\b` matches, or
      "0.0.0" when there is no changelog or no such line. Either way the result is
      three digit runs. */
  function ChangelogVersion(changelog: Option<string>): (r: string)
    ensures MatchExact(r).Some?
    ensures changelog.None? ==> r == Initial
    ensures changelog.Some? ==> r == FirstHeaderVersion(SplitLines(changelog.value)).GetOr(Initial)
  {
    InitialIsSemVer();
    match changelog
    case None => Initial
    case Some(text) => FirstHeaderVersion(SplitLines(text)).GetOr(Initial)
  }

  lemma InitialIsSemVer()
    ensures MatchExact(Initial) == Some(Groups("0", "0", "0"))
  {
    assert Dotted(Groups("0", "0", "0")) == Initial;
    MatchExactComplete(Groups("0", "0", "0"));
  }

  /** `get_current_version()`. `changelog` is the text of CHANGELOG.md, None when the
      file does not exist. A failing `git describe` is caught, so this step never fails. */
  function CurrentVersion(h: Host, trace: seq<Argv>, changelog: Option<string>): (s: Step<string>)
    ensures s.trace == trace + [DescribeTag]
    ensures s.result.Ok?
    ensures var reply := h.answer(trace, DescribeTag);
      && (reply.code == 0 ==> s.result.value == DropV(Strip(reply.out)))
      && (reply.code != 0 ==> s.result.value == ChangelogVersion(changelog))
  {
    var d := Run(h, trace, DescribeTag, true, true);
    match d.result
    case Ok(tag) => Step(d.trace, Ok(DropV(tag)))
    case Fatal(_) => Step(d.trace, Ok(ChangelogVersion(changelog)))
  }

  /** Without a tag the current version is always one `bump_version` can parse, so the
      bump cannot fail on it. */
  lemma UntaggedVersionBumps(h: Host, trace: seq<Argv>, changelog: Option<string>, bump: string)
    requires h.answer(trace, DescribeTag).code != 0
    ensures BumpVersion(CurrentVersion(h, trace, changelog).result.value, bump).Ok?
  {
    var v := ChangelogVersion(changelog);
    MatchSemVerIff(v, MatchExact(v).value);
  }

  /** A repository with no tag and no changelog starts from 0.0.0, and its first patch
      release is 0.0.1. */
  lemma FirstReleaseIsPatchOne(h: Host, trace: seq<Argv>)
    requires h.answer(trace, DescribeTag).code != 0
    ensures CurrentVersion(h, trace, None).result.value == Initial
    ensures BumpVersion(Initial, "patch") == Ok("0.0.1")
  {
    InitialIsSemVer();
    MatchSemVerIff(Initial, Groups("0", "0", "0"));
    ShowParses(Version(0, 0, 1));
    assert DigitsToNat("0") == 0;
    assert Show(Version(0, 0, 1)) == "0.0.1";
  }

  /** Without a tag, the version the last release wrote into the changelog is found
      again, so consecutive untagged runs keep counting up. */
  lemma UntaggedVersionIsLastWritten(h: Host, trace: seq<Argv>, existing: Option<string>, g: Groups, today: string, notes: seq<string>)
    requires h.answer(trace, DescribeTag).code != 0
    requires WellFormed(g)
    requires NoBreaks(Dotted(g)) && NoBreaks(today) && LinesWithoutBreaks(notes)
    ensures CurrentVersion(h, trace, Some(UpdateChangelog(existing, Dotted(g), today, notes))).result.value == Dotted(g)
  {
    UpdateThenFallback(existing, g, today, notes);
  }

  /** Lines 235-240. `versionEnv` is `VERSION`, the other parameters are what
      `choose_bump` reads. A non-blank `VERSION` is validated and used as it is;
      otherwise the chosen bump is applied to the current version. */
  function ResolveNewVersion(current: string, versionEnv: Option<string>, bumpEnv: Option<string>, interactive: bool, typed: Option<string>): (r: Outcome<string>)
    ensures r.Fatal? ==> r.halt.Exit?
    ensures var env := Strip(versionEnv.GetOr(""));
      env != "" ==> (r.Ok? <==> MatchExact(env).Some?) && (r.Ok? ==> r.value == env)
    ensures Strip(versionEnv.GetOr("")) == "" ==>
      (r.Ok? <==> ChooseBump(bumpEnv, interactive, typed).Ok? && ParseVersion(current).Some?)
    ensures Strip(versionEnv.GetOr("")) == "" && ChooseBump(bumpEnv, interactive, typed).Ok? ==>
      r == BumpVersion(current, ChooseBump(bumpEnv, interactive, typed).value.Name())
  {
    var env := Strip(versionEnv.GetOr(""));
    StripNeverEndsInNewline(versionEnv.GetOr(""));
    MatchExactIff(env);
    if env != "" then ValidateVersion(env)
    else
      match ChooseBump(bumpEnv, interactive, typed)
      case Fatal(e) => Fatal(e)
      case Ok(b) => BumpVersion(current, b.Name())
  }

  /** With no tag, no changelog, neither `VERSION` nor `BUMP` set and no terminal, the
      first release is 0.0.1. */
  lemma UnattendedFirstReleaseIsPatchOne(h: Host, trace: seq<Argv>, typed: Option<string>)
    requires h.answer(trace, DescribeTag).code != 0
    ensures ResolveNewVersion(CurrentVersion(h, trace, None).result.value, None, None, false, typed) == Ok("0.0.1")
  {
    assert Strip("") == "";
    FirstReleaseIsPatchOne(h, trace);
  }

  /** A `VERSION` override bypasses the bump: the current version, `BUMP`, the terminal
      and the typed answer make no difference. */
  lemma OverrideBypassesBump(current: string, current2: string, versionEnv: Option<string>,
                             bumpEnv: Option<string>, interactive: bool, typed: Option<string>,
                             bumpEnv2: Option<string>, interactive2: bool, typed2: Option<string>)
    requires Strip(versionEnv.GetOr("")) != ""
    ensures ResolveNewVersion(current, versionEnv, bumpEnv, interactive, typed)
         == ResolveNewVersion(current2, versionEnv, bumpEnv2, interactive2, typed2)
  {
  }

  /** Whichever way it was found, a resolved version is exactly three digit runs: the
      override is stripped before it is validated, so the "\n" allowance of `$` never
      lets a line feed through, and a bump renders a fresh version. */
  lemma ResolvedIsSemVer(current: string, versionEnv: Option<string>, bumpEnv: Option<string>, interactive: bool, typed: Option<string>)
    requires ResolveNewVersion(current, versionEnv, bumpEnv, interactive, typed).Ok?
    ensures MatchExact(ResolveNewVersion(current, versionEnv, bumpEnv, interactive, typed).value).Some?
  {
    var env := Strip(versionEnv.GetOr(""));
    var v := ResolveNewVersion(current, versionEnv, bumpEnv, interactive, typed).value;
    if env != "" {
      StripNeverEndsInNewline(versionEnv.GetOr(""));
      MatchExactIff(env);
    } else {
      var b := ChooseBump(bumpEnv, interactive, typed).value;
      BumpResultIsCanonicalAndGreater(current, b.Name());
    }
  }

  /** Without an override, a resolved version is strictly greater than the current one. */
  lemma BumpedIsGreater(current: string, bumpEnv: Option<string>, interactive: bool, typed: Option<string>)
    requires ResolveNewVersion(current, None, bumpEnv, interactive, typed).Ok?
    ensures var v := ResolveNewVersion(current, None, bumpEnv, interactive, typed).value;
      ParseVersion(current).Some? && ParseVersion(v).Some? && Less(ParseVersion(current).value, ParseVersion(v).value)
  {
    var b := ChooseBump(bumpEnv, interactive, typed).value;
    assert Strip("") == "";
    BumpResultIsCanonicalAndGreater(current, b.Name());
  }
}
