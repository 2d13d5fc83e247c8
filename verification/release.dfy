/** `main()` of scripts/release.py: the whole release run over a `Host`.

The environment variables, the terminal and the typed answer are an `Env`; the text of
CHANGELOG.md as it stands after preflight is `changelog` (None when the file does not
exist); `today` is `date.today().isoformat()`; `notesPath` is the name of the temporary notes file.
The progress lines `main` prints are not modelled.
 */
module Release {
  import opened Outcomes
  import opened Text
  import opened Lines
  import opened Shell
  import opened SemVer
  import opened Changelog
  import opened Preflight
  import opened Versioning
  import opened Publish
  import opened ReleaseNotes

  datatype Env = Env(
    releaseBranch: Option<string>,   // RELEASE_BRANCH
    version: Option<string>,         // VERSION
    bump: Option<string>,            // BUMP
    interactive: bool,               // stdin and stdout are both terminals
    typed: Option<string>)           // the answer typed at the prompt; None on end of input

  /** What a successful run leaves behind: the version it started from, the version it
      released, the notes it wrote, the new CHANGELOG.md and the GitHub release notes. */
  datatype Released = Released(previous: string, version: string, entries: seq<string>, changelog: string, published: string)

  function PrepareMessage(version: string): string { "chore: prepare release v" + version }
  function ChangelogMessage(version: string): string { "docs(changelog): " + version }

  /** `main()` */
  function RunRelease(h: Host, env: Env, changelog: Option<string>, today: string, notesPath: string): (s: Step<Released>)
  {
    match EnsureDeps(h.onPath)
    case Fatal(e) => Step([], Fatal(e))
    case Ok(_) =>
      var repo := EnsureRepoState(h, [], env.releaseBranch);
      if repo.result.Fatal? then Step(repo.trace, Fatal(repo.result.halt))
      else
        var cur := CurrentVersion(h, repo.trace, changelog);
        match ResolveNewVersion(cur.result.value, env.version, env.bump, env.interactive, env.typed)
        case Fatal(e) => Step(cur.trace, Fatal(e))
        case Ok(v) => Finish(h, cur.trace, changelog, cur.result.value, v, today, notesPath)
  }

  /** Lines 246-251: commit outstanding work, write the changelog and commit it. The
      value is the notes and the new changelog text. */
  function Record(h: Host, trace: seq<Argv>, changelog: Option<string>, version: string, today: string): (s: Step<(seq<string>, string)>)
    ensures Grows(trace, s.trace) && NoTagCreated(trace, s.trace)
    ensures s.result.Ok? ==>
      && AreNotes(s.result.value.0)
      && s.result.value.1 == UpdateChangelog(changelog, version, today, s.result.value.0)
    ensures s.result.Ok? ==>
      var prep := CommitAllChanges(h, trace, PrepareMessage(version));
      && prep.result.Ok?
      && var notes := CollectNotes(h, prep.trace);
      && notes.result.Ok?
      && s.result.value.0 == notes.result.value
      && s.trace == notes.trace + [AddChangelog, Commit(ChangelogMessage(version))]
  {
    var prep := CommitAllChanges(h, trace, PrepareMessage(version));
    if prep.result.Fatal? then Step(prep.trace, Fatal(prep.result.halt))
    else
      var notes := CollectNotes(h, prep.trace);
      NoTagCreatedTrans(trace, prep.trace, notes.trace);
      if notes.result.Fatal? then Step(notes.trace, Fatal(notes.result.halt))
      else
        var committed := CommitChangelog(h, notes.trace, version);
        NoTagCreatedTrans(trace, notes.trace, committed.trace);
        if committed.result.Fatal? then Step(committed.trace, Fatal(committed.result.halt))
        else Step(committed.trace, Ok((notes.result.value, UpdateChangelog(changelog, version, today, notes.result.value))))
  }

  /** Lines 250-251. */
  function CommitChangelog(h: Host, trace: seq<Argv>, version: string): (s: Step<()>)
    ensures Grows(trace, s.trace) && NoTagCreated(trace, s.trace)
    ensures s.result.Ok? ==> s.trace == trace + [AddChangelog, Commit(ChangelogMessage(version))]
  {
    var added := Run(h, trace, AddChangelog, true, false);
    if added.result.Fatal? then Step(added.trace, Fatal(added.result.halt))
    else
      var committed := Run(h, added.trace, Commit(ChangelogMessage(version)), true, false);
      assert committed.trace == trace + [AddChangelog, Commit(ChangelogMessage(version))];
      Step(committed.trace, Done(committed.result))
  }

  /** Lines 254-266: push the branch, tag, and publish the release. The value is the
      published notes. */
  function Ship(h: Host, trace: seq<Argv>, version: string, text: string, notesPath: string): (s: Step<string>)
    ensures Grows(trace, s.trace)
    ensures s.result.Ok? ==> s.result.value == PublishedNotes(text, version)
    ensures s.result.Ok? ==> TagCreate("v" + version) in s.trace
  {
    var pushed := PushBranch(h, trace);
    if pushed.result.Fatal? then Step(pushed.trace, Fatal(pushed.result.halt))
    else
      var tagged := TagAndPush(h, pushed.trace, version);
      GrowsTrans(trace, pushed.trace, tagged.trace);
      if tagged.result.Fatal? then Step(tagged.trace, Fatal(tagged.result.halt))
      else
        var rel := UpsertRelease(h, tagged.trace, version, text, notesPath);
        GrowsTrans(trace, tagged.trace, rel.trace);
        TagAndPushCreates(h, pushed.trace, version);
        assert rel.trace[|pushed.trace| + 1] == tagged.trace[|pushed.trace| + 1];
        match rel.result
        case Fatal(e) => Step(rel.trace, Fatal(e))
        case Ok(published) => Step(rel.trace, Ok(published))
  }

  /** A tag step that succeeds has created the tag. */
  lemma TagAndPushCreates(h: Host, trace: seq<Argv>, version: string)
    requires TagAndPush(h, trace, version).result.Ok?
    ensures var t := TagAndPush(h, trace, version).trace;
      |t| > |trace| + 1 && t[|trace| + 1] == TagCreate("v" + version)
  {
  }

  /** Everything after the version is known. */
  function Finish(h: Host, trace: seq<Argv>, changelog: Option<string>, previous: string, version: string, today: string, notesPath: string): (s: Step<Released>)
    ensures Grows(trace, s.trace)
    ensures s.result.Ok? ==>
      && s.result.value.previous == previous
      && s.result.value.version == version
      && AreNotes(s.result.value.entries)
      && s.result.value.changelog == UpdateChangelog(changelog, version, today, s.result.value.entries)
      && s.result.value.published == PublishedNotes(s.result.value.changelog, version)
      && TagCreate("v" + version) in s.trace
    ensures s.result.Ok? ==>
      var prep := CommitAllChanges(h, trace, PrepareMessage(version));
      && prep.result.Ok?
      && CollectNotes(h, prep.trace).result.Ok?
      && s.result.value.entries == CollectNotes(h, prep.trace).result.value
      && Grows(CollectNotes(h, prep.trace).trace, s.trace)
  {
    var rec := Record(h, trace, changelog, version, today);
    match rec.result
    case Fatal(e) => Step(rec.trace, Fatal(e))
    case Ok(r) =>
      var shipped := Ship(h, rec.trace, version, r.1, notesPath);
      GrowsTrans(trace, rec.trace, shipped.trace);
      var notes := CollectNotes(h, CommitAllChanges(h, trace, PrepareMessage(version)).trace);
      assert rec.trace[..|notes.trace|] == notes.trace;
      GrowsTrans(notes.trace, rec.trace, shipped.trace);
      match shipped.result
      case Fatal(e) => Step(shipped.trace, Fatal(e))
      case Ok(published) => Step(shipped.trace, Ok(Released(previous, version, r.0, r.1, published)))
  }

  /** A missing git or gh stops the run before any command is issued. */
  lemma MissingDependencyIssuesNothing(h: Host, env: Env, changelog: Option<string>, today: string, notesPath: string)
    requires !h.onPath("git") || !h.onPath("gh")
    ensures var s := RunRelease(h, env, changelog, today, notesPath);
      s.trace == [] && s.result.Fatal? && s.result.halt.Exit?
  {
  }

  /** A version that cannot be resolved (a bad `VERSION`, a bad `BUMP` or answer, an
      unparsable current version) stops the run after the checks and the `git describe`,
      before anything is committed, pushed or tagged. */
  lemma UnresolvedVersionChangesNothing(h: Host, env: Env, changelog: Option<string>, today: string, notesPath: string)
    requires EnsureDeps(h.onPath).Ok?
    requires EnsureRepoState(h, [], env.releaseBranch).result.Ok?
    requires var cur := CurrentVersion(h, EnsureRepoState(h, [], env.releaseBranch).trace, changelog);
      ResolveNewVersion(cur.result.value, env.version, env.bump, env.interactive, env.typed).Fatal?
    ensures var s := RunRelease(h, env, changelog, today, notesPath);
      && s.result.Fatal?
      && s.trace == EnsureRepoState(h, [], env.releaseBranch).trace + [DescribeTag]
      && forall k :: 0 <= k < |s.trace| ==> s.trace[k] in PreflightCommands || s.trace[k] == DescribeTag
  {
  }

  /** The tag guard holds for every run, whatever the host answers: a `git tag -a` is
      only ever issued right after a successful `git tag --list` that did not show the
      tag. */
  lemma TagNeverRecreated(h: Host, env: Env, changelog: Option<string>, today: string, notesPath: string)
    ensures TagCreatedOnlyWhenAbsent(h, RunRelease(h, env, changelog, today, notesPath).trace)
  {
    var t := RunRelease(h, env, changelog, today, notesPath).trace;
    if EnsureDeps(h.onPath).Ok? {
      var repo := EnsureRepoState(h, [], env.releaseBranch);
      PreflightCreatesNoTag(repo.trace);
      GuardKept(h, [], repo.trace);
      if repo.result.Ok? {
        var cur := CurrentVersion(h, repo.trace, changelog);
        GuardKept(h, repo.trace, cur.trace);
        var r := ResolveNewVersion(cur.result.value, env.version, env.bump, env.interactive, env.typed);
        if r.Ok? {
          FinishKeepsGuard(h, cur.trace, changelog, cur.result.value, r.value, today, notesPath);
          assert t == Finish(h, cur.trace, changelog, cur.result.value, r.value, today, notesPath).trace;
        } else {
          assert t == cur.trace;
        }
      } else {
        assert t == repo.trace;
      }
    } else {
      assert t == [];
    }
  }

  lemma PreflightCreatesNoTag(trace: seq<Argv>)
    requires forall k :: 0 <= k < |trace| ==> trace[k] in PreflightCommands
    ensures NoTagCreated([], trace)
  {
    forall k | 0 <= k < |trace| ensures !IsTagCreate(trace[k]) {
      assert trace[k] in PreflightCommands;
    }
  }

  lemma FinishKeepsGuard(h: Host, trace: seq<Argv>, changelog: Option<string>, previous: string, version: string, today: string, notesPath: string)
    requires TagCreatedOnlyWhenAbsent(h, trace)
    ensures TagCreatedOnlyWhenAbsent(h, Finish(h, trace, changelog, previous, version, today, notesPath).trace)
  {
    var rec := Record(h, trace, changelog, version, today);
    GuardKept(h, trace, rec.trace);
    if rec.result.Ok? {
      ShipKeepsGuard(h, rec.trace, version, rec.result.value.1, notesPath);
    }
  }

  lemma ShipKeepsGuard(h: Host, trace: seq<Argv>, version: string, text: string, notesPath: string)
    requires TagCreatedOnlyWhenAbsent(h, trace)
    ensures TagCreatedOnlyWhenAbsent(h, Ship(h, trace, version, text, notesPath).trace)
  {
    var pushed := PushBranch(h, trace);
    GuardKept(h, trace, pushed.trace);
    if pushed.result.Ok? {
      var tagged := TagAndPush(h, pushed.trace, version);
      TagAndPushKeepsGuard(h, pushed.trace, version);
      if tagged.result.Ok? {
        var rel := UpsertRelease(h, tagged.trace, version, text, notesPath);
        GuardKept(h, tagged.trace, rel.trace);
      }
    }
  }

  /** After a successful run the new CHANGELOG.md leads with the released version, so
      a later run without tags resumes from it, and the GitHub release carries exactly
      that version's notes under "### Changed". The old changelog is assumed to start
      (after its title) with a version heading, or to be empty or absent. */
  lemma SuccessfulRunRecordsRelease(h: Host, env: Env, changelog: Option<string>, today: string, notesPath: string)
    requires NoBreaks(today)
    requires Retained(changelog) == [] || IsHeading(Retained(changelog)[0])
    requires RunRelease(h, env, changelog, today, notesPath).result.Ok?
    ensures var r := RunRelease(h, env, changelog, today, notesPath).result.value;
      && FirstHeaderVersion(SplitLines(r.changelog)) == Some(r.version)
      && r.published == "### Changed\n" + RStrip(JoinLines(r.entries))
      && TagCreate("v" + r.version) in RunRelease(h, env, changelog, today, notesPath).trace
  {
    var repo := EnsureRepoState(h, [], env.releaseBranch);
    var cur := CurrentVersion(h, repo.trace, changelog);
    RunReleaseFinishes(h, env, changelog, today, notesPath);
    var v := ResolveNewVersion(cur.result.value, env.version, env.bump, env.interactive, env.typed).value;
    ResolvedIsSemVer(cur.result.value, env.version, env.bump, env.interactive, env.typed);
    FinishRecordsRelease(h, cur.trace, changelog, cur.result.value, v, today, notesPath);
  }

  /** A successful run is the checks, the `git describe`, and `Finish` with the
      resolved version. */
  lemma RunReleaseFinishes(h: Host, env: Env, changelog: Option<string>, today: string, notesPath: string)
    requires RunRelease(h, env, changelog, today, notesPath).result.Ok?
    ensures var repo := EnsureRepoState(h, [], env.releaseBranch);
      var cur := CurrentVersion(h, repo.trace, changelog);
      var v := ResolveNewVersion(cur.result.value, env.version, env.bump, env.interactive, env.typed);
      && v.Ok?
      && RunRelease(h, env, changelog, today, notesPath) == Finish(h, cur.trace, changelog, cur.result.value, v.value, today, notesPath)
  {
  }

  /** The notes a successful run writes into the changelog are the notes of the subjects
      that a `git log` it issued reported. */
  lemma RecordedNotesAreLogged(h: Host, env: Env, changelog: Option<string>, today: string, notesPath: string)
    requires RunRelease(h, env, changelog, today, notesPath).result.Ok?
    ensures var s := RunRelease(h, env, changelog, today, notesPath);
      exists k :: 0 <= k < |s.trace| && IsSubjectLog(s.trace[k])
        && s.result.value.entries == NotesFromLog(Strip(h.answer(s.trace[..k], s.trace[k]).out))
  {
    var repo := EnsureRepoState(h, [], env.releaseBranch);
    var cur := CurrentVersion(h, repo.trace, changelog);
    RunReleaseFinishes(h, env, changelog, today, notesPath);
    var v := ResolveNewVersion(cur.result.value, env.version, env.bump, env.interactive, env.typed).value;
    FinishNotesAreLogged(h, cur.trace, changelog, cur.result.value, v, today, notesPath);
  }

  lemma FinishNotesAreLogged(h: Host, trace: seq<Argv>, changelog: Option<string>, previous: string, version: string, today: string, notesPath: string)
    requires Finish(h, trace, changelog, previous, version, today, notesPath).result.Ok?
    ensures var s := Finish(h, trace, changelog, previous, version, today, notesPath);
      exists k :: 0 <= k < |s.trace| && IsSubjectLog(s.trace[k])
        && s.result.value.entries == NotesFromLog(Strip(h.answer(s.trace[..k], s.trace[k]).out))
  {
    var s := Finish(h, trace, changelog, previous, version, today, notesPath);
    var notes := CollectNotes(h, CommitAllChanges(h, trace, PrepareMessage(version)).trace);
    var k := |notes.trace| - 1;
    assert s.trace[..k] == s.trace[..|notes.trace|][..k] == notes.trace[..k];
    assert s.trace[k] == s.trace[..|notes.trace|][k] == notes.trace[k];
  }

  lemma FinishRecordsRelease(h: Host, trace: seq<Argv>, changelog: Option<string>, previous: string, version: string, today: string, notesPath: string)
    requires NoBreaks(today)
    requires Retained(changelog) == [] || IsHeading(Retained(changelog)[0])
    requires MatchExact(version).Some?
    requires Finish(h, trace, changelog, previous, version, today, notesPath).result.Ok?
    ensures var r := Finish(h, trace, changelog, previous, version, today, notesPath).result.value;
      && FirstHeaderVersion(SplitLines(r.changelog)) == Some(r.version)
      && r.published == "### Changed\n" + RStrip(JoinLines(r.entries))
  {
    var r := Finish(h, trace, changelog, previous, version, today, notesPath).result.value;
    var g := MatchExact(version).value;
    DottedHasNoBreaks(g);
    UpdateThenFallback(changelog, g, today, r.entries);
    UpdateThenExtract(changelog, version, today, r.entries);
  }

  /** A version string holds no line break. */
  lemma DottedHasNoBreaks(g: Groups)
    requires WellFormed(g)
    ensures NoBreaks(Dotted(g))
  {
    var s := Dotted(g);
    forall k | 0 <= k < |s| ensures !IsLineBreak(s[k]) {
      assert s[k] == '.' || IsDigit(s[k]) by { DottedChars(g, k); }
    }
  }

  lemma DottedChars(g: Groups, k: nat)
    requires WellFormed(g) && k < |Dotted(g)|
    ensures Dotted(g)[k] == '.' || IsDigit(Dotted(g)[k])
  {
    var a := g.major + ".";
    var b := a + g.minor + ".";
    assert Dotted(g) == b + g.patch;
    if k < |g.major| {
      assert Dotted(g)[k] == g.major[k];
    } else if k < |a| {
    } else if k < |a| + |g.minor| {
      assert Dotted(g)[k] == g.minor[k - |a|];
    } else if k < |b| {
    } else {
      assert Dotted(g)[k] == g.patch[k - |b|];
    }
  }
}
