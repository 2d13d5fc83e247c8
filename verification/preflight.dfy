/** The checks `main` makes before it changes anything: `ensure_deps` and
`ensure_repo_state` (scripts/release.py). */
module Preflight {
  import opened Outcomes
  import opened Text
  import opened Decimal
  import opened Shell

  const RevParseHead: Argv := ["git", "rev-parse", "--abbrev-ref", "HEAD"]
  const UpstreamCheck: Argv := ["git", "rev-parse", "--verify", "--quiet", "@{u}"]
  const Fetch: Argv := ["git", "fetch", "-p", "origin"]
  const CountCommits: Argv := ["git", "rev-list", "--left-right", "--count", "@{u}...HEAD"]
  const FastForward: Argv := ["git", "pull", "--ff-only"]

  /** Every command the checks may issue. */
  const PreflightCommands: set<Argv> := {RevParseHead, UpstreamCheck, Fetch, CountCommits, FastForward}

  const DefaultBranch: string := "master"
  const BehindMessage: string := "Local branch is behind remote. Please pull/reconcile before releasing."

  function MissingMessage(dep: string): string {
    "Missing dependency: " + dep + ". Please install it."
  }

  function WrongBranchMessage(cur: string, branch: string): string {
    "You are on '" + cur + "'. Switch to '" + branch + "' to release (set RELEASE_BRANCH to override)."
  }

  /** `ensure_deps()`: git, then gh, must be found on `PATH`; the first one missing
      stops the run. */
  function EnsureDeps(onPath: string -> bool): (r: Outcome<()>)
    ensures r.Ok? <==> onPath("git") && onPath("gh")
    ensures !onPath("git") ==> r == Fatal(Exit(MissingMessage("git")))
    ensures onPath("git") && !onPath("gh") ==> r == Fatal(Exit(MissingMessage("gh")))
  {
    if !onPath("git") then Fatal(Exit(MissingMessage("git")))
    else if !onPath("gh") then Fatal(Exit(MissingMessage("gh")))
    else Ok(())
  }

  /** `behind, ahead = [int(x) for x in counts.split()]`: exactly two fields, each a
      run of ASCII digits; anything else raises `ValueError`, which nothing catches. */
  function ParseCounts(counts: string): (r: Outcome<(nat, nat)>)
    ensures r.Ok? ==> |Words(counts)| == 2
    ensures r.Fatal? ==> r.halt.Crash?
  {
    var w := Words(counts);
    if |w| == 2 && IsDigitRun(w[0]) && IsDigitRun(w[1]) then Ok((DigitsToNat(w[0]), DigitsToNat(w[1])))
    else Fatal(Crash("ValueError: cannot read commit counts from '" + counts + "'"))
  }

  /** `git rev-list --left-right --count` prints the two counts separated by a tab; they
      read back as the same pair. */
  lemma ParseCountsOfOutput(behind: nat, ahead: nat)
    ensures ParseCounts(NatToString(behind) + "\t" + NatToString(ahead)) == Ok((behind, ahead))
  {
    var x := NatToString(behind);
    var y := NatToString(ahead);
    NumeralHasNoSpace(x);
    NumeralHasNoSpace(y);
    WordsOfTwo(x, "\t", y);
    ParseShow(behind);
    ParseShow(ahead);
  }

  lemma NumeralHasNoSpace(s: string)
    requires IsDigitRun(s)
    ensures s != [] && NoSpace(s)
  {
  }

  /** Two words with spaces between them split into exactly those two words. */
  lemma WordsOfTwo(x: string, sep: string, y: string)
    requires x != [] && NoSpace(x) && y != [] && NoSpace(y)
    requires sep != [] && AllSpace(sep)
    ensures Words(x + sep + y) == [x, y]
  {
    WordsFront(x, sep + y);
    assert x + sep + y == x + (sep + y);
    WordsAfterSpaces(sep, y);
  }

  /** A word followed by a space, or by nothing, is the first word. */
  lemma WordsFront(x: string, rest: string)
    requires x != [] && NoSpace(x)
    requires rest == [] || IsSpace(rest[0])
    ensures Words(x + rest) == [x] + Words(rest)
  {
    var s := x + rest;
    LStripUnique(s, 0);
    WordLengthOf(x, rest);
    assert s[..|x|] == x;
    assert s[|x|..] == rest;
  }

  lemma WordsAfterSpaces(sep: string, y: string)
    requires y != [] && NoSpace(y)
    requires AllSpace(sep)
    ensures Words(sep + y) == [y]
  {
    LStripAfterSpaces(sep, y);
    LStripUnique(y, 0);
    WordsFront(y, []);
    assert y + [] == y;
  }

  /** The word at the front of `x + rest` is `x` when `rest` starts with a space. */
  lemma {:induction false} WordLengthOf(x: string, rest: string)
    requires NoSpace(x)
    requires rest == [] || IsSpace(rest[0])
    ensures WordLength(x + rest) == |x|
    decreases |x|
  {
    if x != [] {
      assert (x + rest)[1..] == x[1..] + rest;
      WordLengthOf(x[1..], rest);
    } else {
      assert x + rest == rest;
    }
  }

  /** The counts command and its parse (lines 51-52 and 56-57). */
  function Count(h: Host, trace: seq<Argv>): (s: Step<(nat, nat)>)
    ensures s.trace == trace + [CountCommits]
  {
    var c := Run(h, trace, CountCommits, true, true);
    match c.result
    case Fatal(e) => Step(c.trace, Fatal(e))
    case Ok(out) => Step(c.trace, ParseCounts(out))
  }

  /** The final gate: still behind stops the run. */
  function BehindGate(behind: nat): (r: Outcome<()>)
    ensures r.Ok? <==> behind == 0
    ensures r.Fatal? ==> r.halt == Exit(BehindMessage)
  {
    if behind > 0 then Fatal(Exit(BehindMessage)) else Ok(())
  }

  /** `ensure_repo_state()`. `releaseBranch` is `RELEASE_BRANCH` (None when unset). */
  function EnsureRepoState(h: Host, trace: seq<Argv>, releaseBranch: Option<string>): (s: Step<()>)
    ensures Grows(trace, s.trace)
    ensures forall k :: |trace| <= k < |s.trace| ==> s.trace[k] in PreflightCommands
  {
    var branch := releaseBranch.GetOr(DefaultBranch);
    var cur := Run(h, trace, RevParseHead, true, true);
    match cur.result
    case Fatal(e) => Step(cur.trace, Fatal(e))
    case Ok(name) =>
      if name != branch then Step(cur.trace, Fatal(Exit(WrongBranchMessage(name, branch))))
      else
        var rest := CheckUpstream(h, cur.trace);
        PreflightThen(trace, RevParseHead, rest.trace);
        rest
  }

  /** One preflight command followed by preflight commands only. */
  lemma PreflightThen(trace: seq<Argv>, argv: Argv, after: seq<Argv>)
    requires argv in PreflightCommands
    requires Grows(trace + [argv], after)
    requires forall k :: |trace| + 1 <= k < |after| ==> after[k] in PreflightCommands
    ensures Grows(trace, after)
    ensures forall k :: |trace| <= k < |after| ==> after[k] in PreflightCommands
  {
    assert after[..|trace|] == (trace + [argv])[..|trace|] == trace;
    assert after[|trace|] == (trace + [argv])[|trace|] == argv;
  }

  /** Lines 38-59, on the release branch: no upstream passes; otherwise fetch and sync. */
  function CheckUpstream(h: Host, trace: seq<Argv>): (s: Step<()>)
    ensures Grows(trace, s.trace)
    ensures forall k :: |trace| <= k < |s.trace| ==> s.trace[k] in PreflightCommands
  {
    var up := Run(h, trace, UpstreamCheck, true, false);
    if up.result.Fatal? then Step(up.trace, Ok(()))
    else
      var fetched := Run(h, up.trace, Fetch, false, false).trace;
      var synced := SyncWithUpstream(h, fetched);
      SyncIssues(trace, fetched, synced.trace);
      synced
  }

  /** Every way the sync can go issues only preflight commands. */
  lemma SyncIssues(trace: seq<Argv>, fetched: seq<Argv>, after: seq<Argv>)
    requires fetched == trace + [UpstreamCheck] + [Fetch]
    requires || after == fetched + [CountCommits]
             || after == fetched + [CountCommits] + [FastForward]
             || after == fetched + [CountCommits] + [FastForward] + [CountCommits]
    ensures Grows(trace, after)
    ensures forall k :: |trace| <= k < |after| ==> after[k] in PreflightCommands
  {
    var tail := after[|trace|..];
    assert after == trace + tail;
    assert after[..|trace|] == trace;
    forall k | |trace| <= k < |after| ensures after[k] in PreflightCommands {
      assert after[k] == tail[k - |trace|];
      assert k - |trace| < 2 ==> after[k] == [UpstreamCheck, Fetch][k - |trace|];
    }
  }

  /** Lines 51-59, once the fetch is done: fast-forward when only behind, then recount;
      still behind is fatal. */
  function SyncWithUpstream(h: Host, trace: seq<Argv>): (s: Step<()>)
    ensures || s.trace == trace + [CountCommits]
            || s.trace == trace + [CountCommits] + [FastForward]
            || s.trace == trace + [CountCommits] + [FastForward] + [CountCommits]
  {
    var first := Count(h, trace);
    match first.result
    case Fatal(e) => Step(first.trace, Fatal(e))
    case Ok(c) =>
      if c.0 > 0 && c.1 == 0 then
        var pull := Run(h, first.trace, FastForward, true, false);
        if pull.result.Fatal? then Step(pull.trace, Fatal(pull.result.halt))
        else
          var again := Count(h, pull.trace);
          match again.result
          case Fatal(e) => Step(again.trace, Fatal(e))
          case Ok(c2) => Step(again.trace, BehindGate(c2.0))
      else Step(first.trace, BehindGate(c.0))
  }

  /** On the wrong branch the run stops after one command, naming both branches. */
  lemma WrongBranchIsFatal(h: Host, trace: seq<Argv>, releaseBranch: Option<string>)
    requires h.answer(trace, RevParseHead).code == 0
    requires Strip(h.answer(trace, RevParseHead).out) != releaseBranch.GetOr(DefaultBranch)
    ensures EnsureRepoState(h, trace, releaseBranch)
         == Step(trace + [RevParseHead],
                 Fatal(Exit(WrongBranchMessage(Strip(h.answer(trace, RevParseHead).out), releaseBranch.GetOr(DefaultBranch)))))
  {
  }

  /** The checks pass only on the release branch ("master" unless overridden). */
  lemma PassesOnlyOnReleaseBranch(h: Host, trace: seq<Argv>, releaseBranch: Option<string>)
    requires EnsureRepoState(h, trace, releaseBranch).result.Ok?
    ensures h.answer(trace, RevParseHead).code == 0
    ensures Strip(h.answer(trace, RevParseHead).out) == releaseBranch.GetOr(DefaultBranch)
  {
  }

  /** Without an upstream the checks pass at once: nothing is fetched or counted. */
  lemma NoUpstreamPasses(h: Host, trace: seq<Argv>, releaseBranch: Option<string>)
    requires h.answer(trace, RevParseHead).code == 0
    requires Strip(h.answer(trace, RevParseHead).out) == releaseBranch.GetOr(DefaultBranch)
    requires h.answer(trace + [RevParseHead], UpstreamCheck).code != 0
    ensures EnsureRepoState(h, trace, releaseBranch) == Step(trace + [RevParseHead, UpstreamCheck], Ok(()))
  {
    assert trace + [RevParseHead] + [UpstreamCheck] == trace + [RevParseHead, UpstreamCheck];
  }

  /** With an upstream, the fetch happens whatever it exits with, and then the counts
      decide. */
  lemma UpstreamFetchesThenSyncs(h: Host, trace: seq<Argv>, releaseBranch: Option<string>)
    requires h.answer(trace, RevParseHead).code == 0
    requires Strip(h.answer(trace, RevParseHead).out) == releaseBranch.GetOr(DefaultBranch)
    requires h.answer(trace + [RevParseHead], UpstreamCheck).code == 0
    ensures EnsureRepoState(h, trace, releaseBranch) == SyncWithUpstream(h, trace + [RevParseHead, UpstreamCheck, Fetch])
  {
    assert trace + [RevParseHead] + [UpstreamCheck] + [Fetch] == trace + [RevParseHead, UpstreamCheck, Fetch];
  }

  /** Neither behind nor only-behind: no fast-forward is tried, and the run stops exactly
      when the branch is behind (it has diverged). */
  lemma NoFastForwardUnlessOnlyBehind(h: Host, trace: seq<Argv>, behind: nat, ahead: nat)
    requires h.answer(trace, CountCommits).code == 0
    requires ParseCounts(Strip(h.answer(trace, CountCommits).out)) == Ok((behind, ahead))
    requires !(behind > 0 && ahead == 0)
    ensures SyncWithUpstream(h, trace) == Step(trace + [CountCommits], BehindGate(behind))
    ensures SyncWithUpstream(h, trace).result.Fatal? <==> behind > 0
  {
  }

  /** Only behind: one fast-forward, one recount, and the run stops exactly when the
      branch is still behind after it. */
  lemma FastForwardOnceWhenOnlyBehind(h: Host, trace: seq<Argv>, behind: nat, after: nat, ahead: nat)
    requires h.answer(trace, CountCommits).code == 0
    requires ParseCounts(Strip(h.answer(trace, CountCommits).out)) == Ok((behind, 0))
    requires behind > 0
    requires h.answer(trace + [CountCommits], FastForward).code == 0
    requires h.answer(trace + [CountCommits] + [FastForward], CountCommits).code == 0
    requires ParseCounts(Strip(h.answer(trace + [CountCommits] + [FastForward], CountCommits).out)) == Ok((after, ahead))
    ensures SyncWithUpstream(h, trace).trace == trace + [CountCommits] + [FastForward] + [CountCommits]
    ensures SyncWithUpstream(h, trace).result.Fatal? <==> after > 0
  {
  }

  /** A failing fast-forward is not retried: its failure ends the run. */
  lemma FailedFastForwardIsFatal(h: Host, trace: seq<Argv>, behind: nat)
    requires h.answer(trace, CountCommits).code == 0
    requires ParseCounts(Strip(h.answer(trace, CountCommits).out)) == Ok((behind, 0))
    requires behind > 0
    requires h.answer(trace + [CountCommits], FastForward).code != 0
    ensures SyncWithUpstream(h, trace)
         == Step(trace + [CountCommits] + [FastForward],
                 Fatal(CommandFailed(FastForward, h.answer(trace + [CountCommits], FastForward).code)))
  {
  }
}
