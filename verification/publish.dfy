/** The steps of a release after the version is known (scripts/release.py): committing
outstanding work, gathering the notes, pushing the branch, the tag guard and the
GitHub release. */
module Publish {
  import opened Outcomes
  import opened Text
  import opened Lines
  import opened Shell
  import opened ReleaseNotes
  import opened Changelog

  const DiffUnstaged: Argv := ["git", "diff", "--quiet"]
  const DiffStaged: Argv := ["git", "diff", "--cached", "--quiet"]
  const AddAll: Argv := ["git", "add", "-A"]
  const RootCommits: Argv := ["git", "rev-list", "--max-parents=0", "HEAD"]
  const AddChangelog: Argv := ["git", "add", "CHANGELOG.md"]
  const PlainPush: Argv := ["git", "push"]
  const PushSetUpstream: Argv := ["git", "push", "-u", "origin", "HEAD"]
  const PushTags: Argv := ["git", "push", "--follow-tags", "origin", "HEAD"]
  const UpstreamProbe: Argv := ["git", "rev-parse", "--verify", "--quiet", "@{u}"]
  const LastTag: Argv := ["git", "describe", "--tags", "--abbrev=0"]

  function Commit(msg: string): Argv { ["git", "commit", "-m", msg] }
  function LogSubjects(range: string): Argv { ["git", "log", "--no-merges", "--pretty=format:%s", range] }
  function TagList(tag: string): Argv { ["git", "tag", "--list", tag] }
  function TagCreate(tag: string): Argv { ["git", "tag", "-a", tag, "-m", tag] }
  function ReleaseView(tag: string): Argv { ["gh", "release", "view", tag] }
  function ReleaseEdit(tag: string, path: string): Argv { ["gh", "release", "edit", tag, "--title", tag, "--notes-file", path] }
  function ReleaseCreate(tag: string, path: string): Argv { ["gh", "release", "create", tag, "--title", tag, "--notes-file", path] }

  /** A `git tag -a` command. */
  predicate IsTagCreate(argv: Argv) {
    |argv| > 3 && argv[0] == "git" && argv[1] == "tag" && argv[2] == "-a"
  }

  /** No command issued between `before` and `after` creates a tag. */
  predicate NoTagCreated(before: seq<Argv>, after: seq<Argv>) {
    forall k :: |before| <= k < |after| ==> !IsTagCreate(after[k])
  }

  /** The tag guard as a property of a whole trace: every `git tag -a T` comes right
      after a `git tag --list T` that succeeded and did not answer T. */
  predicate TagCreatedOnlyWhenAbsent(h: Host, trace: seq<Argv>) {
    forall i :: 0 <= i < |trace| && IsTagCreate(trace[i]) ==>
      && i > 0
      && trace[i - 1] == TagList(trace[i][3])
      && h.answer(trace[..i - 1], trace[i - 1]).code == 0
      && Strip(h.answer(trace[..i - 1], trace[i - 1]).out) != trace[i][3]
  }

  /** Commands that create no tag keep the guard property. */
  lemma GuardKept(h: Host, before: seq<Argv>, after: seq<Argv>)
    requires TagCreatedOnlyWhenAbsent(h, before)
    requires Grows(before, after) && NoTagCreated(before, after)
    ensures TagCreatedOnlyWhenAbsent(h, after)
  {
    forall i | 0 <= i < |after| && IsTagCreate(after[i])
      ensures i > 0 && after[i - 1] == TagList(after[i][3])
      ensures h.answer(after[..i - 1], after[i - 1]).code == 0
      ensures Strip(h.answer(after[..i - 1], after[i - 1]).out) != after[i][3]
    {
      assert i < |before|;
      assert after[i] == before[i];
      assert after[i - 1] == before[i - 1];
      assert after[..i - 1] == before[..i - 1];
    }
  }

  lemma NoTagCreatedTrans(a: seq<Argv>, b: seq<Argv>, c: seq<Argv>)
    requires Grows(a, b) && Grows(b, c)
    requires NoTagCreated(a, b) && NoTagCreated(b, c)
    ensures Grows(a, c) && NoTagCreated(a, c)
  {
    GrowsTrans(a, b, c);
    forall k | |a| <= k < |c| ensures !IsTagCreate(c[k]) {
      if k < |b| { assert c[k] == c[..|b|][k]; }
    }
  }

  /** The outcome of a step whose value is not needed. */
  function Done<T>(o: Outcome<T>): (r: Outcome<()>)
    ensures r.Ok? <==> o.Ok?
    ensures o.Fatal? ==> r == Fatal(o.halt)
  {
    match o
    case Ok(_) => Ok(())
    case Fatal(e) => Fatal(e)
  }

  /** `commit_all_changes(msg)`: both diffs are probed, and only when one of them
      reports a change are everything staged and committed. */
  function CommitAllChanges(h: Host, trace: seq<Argv>, msg: string): (s: Step<()>)
    ensures Grows(trace, s.trace) && NoTagCreated(trace, s.trace)
  {
    var unstaged := ExitStatus(h, trace, DiffUnstaged);
    var staged := ExitStatus(h, unstaged.trace, DiffStaged);
    if unstaged.result.value != 0 || staged.result.value != 0 then
      var add := Run(h, staged.trace, AddAll, true, false);
      if add.result.Fatal? then Step(add.trace, Fatal(add.result.halt))
      else
        var commit := Run(h, add.trace, Commit(msg), true, false);
        Step(commit.trace, Done(commit.result))
    else Step(staged.trace, Ok(()))
  }

  /** A clean tree and index commit nothing: the two probes are all that is issued. */
  lemma CleanTreeCommitsNothing(h: Host, trace: seq<Argv>, msg: string)
    requires h.answer(trace, DiffUnstaged).code == 0
    requires h.answer(trace + [DiffUnstaged], DiffStaged).code == 0
    ensures CommitAllChanges(h, trace, msg) == Step(trace + [DiffUnstaged, DiffStaged], Ok(()))
  {
    assert trace + [DiffUnstaged] + [DiffStaged] == trace + [DiffUnstaged, DiffStaged];
  }

  /** A change in either place is staged and committed with the given message; both
      probes always run first. */
  lemma DirtyTreeIsCommitted(h: Host, trace: seq<Argv>, msg: string)
    requires h.answer(trace, DiffUnstaged).code != 0 || h.answer(trace + [DiffUnstaged], DiffStaged).code != 0
    requires h.answer(trace + [DiffUnstaged, DiffStaged], AddAll).code == 0
    ensures var s := CommitAllChanges(h, trace, msg);
      && s.trace == trace + [DiffUnstaged, DiffStaged, AddAll, Commit(msg)]
      && (s.result.Ok? <==> h.answer(trace + [DiffUnstaged, DiffStaged, AddAll], Commit(msg)).code == 0)
  {
    assert trace + [DiffUnstaged] + [DiffStaged] == trace + [DiffUnstaged, DiffStaged];
    assert trace + [DiffUnstaged, DiffStaged] + [AddAll] == trace + [DiffUnstaged, DiffStaged, AddAll];
    assert trace + [DiffUnstaged, DiffStaged, AddAll] + [Commit(msg)] == trace + [DiffUnstaged, DiffStaged, AddAll, Commit(msg)];
  }

  /** Changelog notes: at least one, each a single line starting with "- ". */
  predicate AreNotes(lines: seq<string>) {
    && lines != []
    && LinesWithoutBreaks(lines)
    && forall k :: 0 <= k < |lines| ==> StartsWith(lines[k], "- ")
  }

  /** A `git log` of commit subjects, over some range. */
  predicate IsSubjectLog(argv: Argv) {
    |argv| == 5 && argv == LogSubjects(argv[4])
  }

  /** `collect_notes_since_last_tag()`: the subjects since the last tag, or since the
      root commit when there is no tag, turned into notes. */
  function CollectNotes(h: Host, trace: seq<Argv>): (s: Step<seq<string>>)
    ensures Grows(trace, s.trace) && NoTagCreated(trace, s.trace)
    ensures s.result.Ok? ==> AreNotes(s.result.value)
    ensures s.result.Ok? ==>
      && |s.trace| > |trace|
      && IsSubjectLog(s.trace[|s.trace| - 1])
      && s.result.value == NotesFromLog(Strip(h.answer(s.trace[..|s.trace| - 1], s.trace[|s.trace| - 1]).out))
  {
    var from := LogStart(h, trace);
    match from.result
    case Fatal(e) => Step(from.trace, Fatal(e))
    case Ok(start) =>
      var log := Run(h, from.trace, LogSubjects(start + "..HEAD"), true, true);
      OneCommandKeepsGuard(from.trace, LogSubjects(start + "..HEAD"));
      NoTagCreatedTrans(trace, from.trace, log.trace);
      match log.result
      case Fatal(e) => Step(log.trace, Fatal(e))
      case Ok(text) => Step(log.trace, Ok(NotesFromLog(text)))
  }

  /** A command other than `git tag -a` extends the trace without creating a tag. */
  lemma OneCommandKeepsGuard(trace: seq<Argv>, argv: Argv)
    requires !IsTagCreate(argv)
    ensures Grows(trace, trace + [argv]) && NoTagCreated(trace, trace + [argv])
  {
    assert (trace + [argv])[..|trace|] == trace;
  }

  /** Lines 143-148: where the log starts. */
  function LogStart(h: Host, trace: seq<Argv>): (s: Step<string>)
    ensures Grows(trace, s.trace) && NoTagCreated(trace, s.trace)
  {
    var d := Run(h, trace, LastTag, true, true);
    OneCommandKeepsGuard(trace, LastTag);
    match d.result
    case Ok(tag) => Step(d.trace, Ok(tag))
    case Fatal(_) =>
      OneCommandKeepsGuard(d.trace, RootCommits);
      NoTagCreatedTrans(trace, d.trace, d.trace + [RootCommits]);
      Run(h, d.trace, RootCommits, true, true)
  }

  /** With a tag, the notes are exactly those of the subjects logged since it. */
  lemma NotesSinceTag(h: Host, trace: seq<Argv>)
    requires h.answer(trace, LastTag).code == 0
    requires h.answer(trace + [LastTag], LogSubjects(Strip(h.answer(trace, LastTag).out) + "..HEAD")).code == 0
    ensures var range := Strip(h.answer(trace, LastTag).out) + "..HEAD";
      var log := h.answer(trace + [LastTag], LogSubjects(range));
      CollectNotes(h, trace) == Step(trace + [LastTag, LogSubjects(range)], Ok(Notes(SplitLines(Strip(log.out)))))
  {
    var range := Strip(h.answer(trace, LastTag).out) + "..HEAD";
    assert trace + [LastTag] + [LogSubjects(range)] == trace + [LastTag, LogSubjects(range)];
  }

  /** Without a tag, the log starts from the root commit reported by `git rev-list`. */
  lemma NotesSinceRoot(h: Host, trace: seq<Argv>)
    requires h.answer(trace, LastTag).code != 0
    requires h.answer(trace + [LastTag], RootCommits).code == 0
    ensures var range := Strip(h.answer(trace + [LastTag], RootCommits).out) + "..HEAD";
      CollectNotes(h, trace).trace == trace + [LastTag, RootCommits, LogSubjects(range)]
  {
    var range := Strip(h.answer(trace + [LastTag], RootCommits).out) + "..HEAD";
    assert trace + [LastTag] + [RootCommits] == trace + [LastTag, RootCommits];
    assert trace + [LastTag, RootCommits] + [LogSubjects(range)] == trace + [LastTag, RootCommits, LogSubjects(range)];
  }

  /** `push_branch()`. The `except` around both commands catches a failing plain push
      as well as a missing upstream: either leads to `git push -u origin HEAD`. */
  function PushBranch(h: Host, trace: seq<Argv>): (s: Step<()>)
    ensures Grows(trace, s.trace) && NoTagCreated(trace, s.trace)
  {
    var up := Run(h, trace, UpstreamProbe, true, false);
    var tried := if up.result.Fatal? then up else Run(h, up.trace, PlainPush, true, false);
    if tried.result.Fatal? then
      var retry := Run(h, tried.trace, PushSetUpstream, true, false);
      Step(retry.trace, Done(retry.result))
    else Step(tried.trace, Ok(()))
  }

  /** With an upstream and a working push, the branch is pushed plainly. */
  lemma PushWithUpstream(h: Host, trace: seq<Argv>)
    requires h.answer(trace, UpstreamProbe).code == 0
    requires h.answer(trace + [UpstreamProbe], PlainPush).code == 0
    ensures PushBranch(h, trace) == Step(trace + [UpstreamProbe, PlainPush], Ok(()))
  {
    assert trace + [UpstreamProbe] + [PlainPush] == trace + [UpstreamProbe, PlainPush];
  }

  /** Without an upstream, the plain push is skipped and the upstream is set instead. */
  lemma PushWithoutUpstream(h: Host, trace: seq<Argv>)
    requires h.answer(trace, UpstreamProbe).code != 0
    ensures PushBranch(h, trace).trace == trace + [UpstreamProbe, PushSetUpstream]
    ensures PushBranch(h, trace).result.Ok? <==> h.answer(trace + [UpstreamProbe], PushSetUpstream).code == 0
  {
    assert trace + [UpstreamProbe] + [PushSetUpstream] == trace + [UpstreamProbe, PushSetUpstream];
  }

  /** A plain push that fails is retried once as `git push -u origin HEAD`. */
  lemma FailedPushRetriesWithUpstream(h: Host, trace: seq<Argv>)
    requires h.answer(trace, UpstreamProbe).code == 0
    requires h.answer(trace + [UpstreamProbe], PlainPush).code != 0
    ensures PushBranch(h, trace).trace == trace + [UpstreamProbe, PlainPush, PushSetUpstream]
    ensures PushBranch(h, trace).result.Ok? <==> h.answer(trace + [UpstreamProbe, PlainPush], PushSetUpstream).code == 0
  {
    assert trace + [UpstreamProbe] + [PlainPush] == trace + [UpstreamProbe, PlainPush];
    assert trace + [UpstreamProbe, PlainPush] + [PushSetUpstream] == trace + [UpstreamProbe, PlainPush, PushSetUpstream];
  }

  function TagExistsMessage(tag: string): string {
    "Tag '" + tag + "' already exists."
  }

  /** Lines 257-263: list the tag, stop if it is already there, otherwise create it
      and push it. */
  function TagAndPush(h: Host, trace: seq<Argv>, version: string): (s: Step<()>)
    ensures Grows(trace, s.trace)
  {
    var tag := "v" + version;
    var listed := Run(h, trace, TagList(tag), true, true);
    match listed.result
    case Fatal(e) => Step(listed.trace, Fatal(e))
    case Ok(existing) =>
      if Strip(existing) == tag then Step(listed.trace, Fatal(Exit(TagExistsMessage(tag))))
      else
        var created := Run(h, listed.trace, TagCreate(tag), true, false);
        if created.result.Fatal? then Step(created.trace, Fatal(created.result.halt))
        else
          var pushed := Run(h, created.trace, PushTags, true, false);
          Step(pushed.trace, Done(pushed.result))
  }

  /** Whatever the answers, the tag step keeps the guard property of the trace. */
  lemma TagAndPushKeepsGuard(h: Host, trace: seq<Argv>, version: string)
    requires TagCreatedOnlyWhenAbsent(h, trace)
    ensures TagCreatedOnlyWhenAbsent(h, TagAndPush(h, trace, version).trace)
  {
    var tag := "v" + version;
    var reply := h.answer(trace, TagList(tag));
    var s := TagAndPush(h, trace, version);
    if reply.code != 0 || Strip(Strip(reply.out)) == tag {
      assert s.trace == trace + [TagList(tag)];
      GuardKept(h, trace, s.trace);
    } else {
      TagCreateGuarded(h, trace, tag);
      var t2 := trace + [TagList(tag), TagCreate(tag)];
      assert trace + [TagList(tag)] + [TagCreate(tag)] == t2;
      if h.answer(trace + [TagList(tag)], TagCreate(tag)).code != 0 {
        assert s.trace == t2;
      } else {
        assert s.trace == t2 + [PushTags];
        PushKeepsGuard(h, t2);
      }
    }
  }

  /** Issuing `git tag -a` right after a listing that did not show the tag keeps the
      guard property. */
  lemma TagCreateGuarded(h: Host, trace: seq<Argv>, tag: string)
    requires h.answer(trace, TagList(tag)).code == 0
    requires Strip(Strip(h.answer(trace, TagList(tag)).out)) != tag
    ensures TagCreatedOnlyWhenAbsent(h, trace) ==> TagCreatedOnlyWhenAbsent(h, trace + [TagList(tag), TagCreate(tag)])
  {
    var out := h.answer(trace, TagList(tag)).out;
    StripOfTrimmed(Strip(out));
    var after := trace + [TagList(tag), TagCreate(tag)];
    if TagCreatedOnlyWhenAbsent(h, trace) {
      assert after[..|trace|] == trace;
      assert after[|trace|] == TagList(tag);
      assert !IsTagCreate(after[|trace|]);
      forall i | 0 <= i < |after| && IsTagCreate(after[i])
        ensures i > 0 && after[i - 1] == TagList(after[i][3])
        ensures h.answer(after[..i - 1], after[i - 1]).code == 0
        ensures Strip(h.answer(after[..i - 1], after[i - 1]).out) != after[i][3]
      {
        if i < |trace| {
          assert after[..i - 1] == trace[..i - 1];
        } else {
          assert i == |trace| + 1;
          assert after[..i - 1] == trace;
        }
      }
    }
  }

  lemma PushKeepsGuard(h: Host, trace: seq<Argv>)
    ensures TagCreatedOnlyWhenAbsent(h, trace) ==> TagCreatedOnlyWhenAbsent(h, trace + [PushTags])
  {
    if TagCreatedOnlyWhenAbsent(h, trace) {
      GuardKept(h, trace, trace + [PushTags]);
    }
  }

  /** An existing tag stops the run before any `git tag -a` is issued. */
  lemma ExistingTagStops(h: Host, trace: seq<Argv>, version: string)
    requires h.answer(trace, TagList("v" + version)).code == 0
    requires Strip(h.answer(trace, TagList("v" + version)).out) == "v" + version
    ensures TagAndPush(h, trace, version)
         == Step(trace + [TagList("v" + version)], Fatal(Exit(TagExistsMessage("v" + version))))
  {
    StripOfTrimmed(Strip(h.answer(trace, TagList("v" + version)).out));
  }

  /** A new tag is created with itself as message and pushed with the branch. */
  lemma NewTagIsCreated(h: Host, trace: seq<Argv>, version: string)
    requires h.answer(trace, TagList("v" + version)).code == 0
    requires Strip(h.answer(trace, TagList("v" + version)).out) != "v" + version
    requires h.answer(trace + [TagList("v" + version)], TagCreate("v" + version)).code == 0
    ensures TagAndPush(h, trace, version).trace
         == trace + [TagList("v" + version), TagCreate("v" + version), PushTags]
  {
    var tag := "v" + version;
    StripOfTrimmed(Strip(h.answer(trace, TagList(tag)).out));
    assert trace + [TagList(tag)] + [TagCreate(tag)] == trace + [TagList(tag), TagCreate(tag)];
    assert trace + [TagList(tag), TagCreate(tag)] + [PushTags] == trace + [TagList(tag), TagCreate(tag), PushTags];
  }

  /** Line 210: the notes published with the release, never empty. */
  function PublishedNotes(changelog: string, version: string): (r: string)
    ensures r != []
    ensures ExtractReleaseNotes(changelog, version) != "" ==> r == ExtractReleaseNotes(changelog, version)
    ensures ExtractReleaseNotes(changelog, version) == "" ==> r == "Release " + version
  {
    var n := ExtractReleaseNotes(changelog, version);
    if n == "" then "Release " + version else n
  }

  /** `upsert_github_release(version)`. The notes go through a temporary file whose
      name is `notesPath`; the value is the text written to it. Any nonzero exit of
      `gh release view` counts as "no release yet". */
  function UpsertRelease(h: Host, trace: seq<Argv>, version: string, changelog: string, notesPath: string): (s: Step<string>)
    ensures Grows(trace, s.trace) && NoTagCreated(trace, s.trace)
  {
    var tag := "v" + version;
    var view := ExitStatus(h, trace, ReleaseView(tag));
    var cmd := if view.result.value == 0 then ReleaseEdit(tag, notesPath) else ReleaseCreate(tag, notesPath);
    var done := Run(h, view.trace, cmd, true, false);
    match done.result
    case Fatal(e) => Step(done.trace, Fatal(e))
    case Ok(_) => Step(done.trace, Ok(PublishedNotes(changelog, version)))
  }

  /** An existing release is edited and a missing one created, never both. */
  lemma UpsertEditsOrCreates(h: Host, trace: seq<Argv>, version: string, changelog: string, notesPath: string)
    ensures var tag := "v" + version;
      var s := UpsertRelease(h, trace, version, changelog, notesPath);
      var found := h.answer(trace, ReleaseView(tag)).code == 0;
      && (found ==> s.trace == trace + [ReleaseView(tag), ReleaseEdit(tag, notesPath)])
      && (!found ==> s.trace == trace + [ReleaseView(tag), ReleaseCreate(tag, notesPath)])
  {
    var tag := "v" + version;
    assert trace + [ReleaseView(tag)] + [ReleaseEdit(tag, notesPath)] == trace + [ReleaseView(tag), ReleaseEdit(tag, notesPath)];
    assert trace + [ReleaseView(tag)] + [ReleaseCreate(tag, notesPath)] == trace + [ReleaseView(tag), ReleaseCreate(tag, notesPath)];
  }
}
