/** Turning commit subjects into changelog notes: the filter in
`collect_notes_since_last_tag` (scripts/release.py).
 */
module ReleaseNotes {
  import opened Text
  import opened Lines

  /** The note written when no subject survives: "- No changes recorded since last
      version.", assembled from short pieces so that facts about it stay cheap. */
  const Placeholder: string := "- No " + "changes " + "recorded " + "since " + "last " + "version."

  /** Under `re.IGNORECASE`, the subject character `c` matches the pattern character
      `p` (a lower-case letter or punctuation). Besides ASCII case, Python's matcher
      treats U+017F LATIN SMALL LETTER LONG S as equal to `s`; no other character
      folds onto a letter of the exclusion pattern. */
  predicate FoldEq(c: char, p: char) {
    LowerChar(c) == p || (p == 's' && c == '\U{17F}')
  }

  predicate StartsWithFolded(s: string, p: string) {
    |p| <= |s| && forall k :: 0 <= k < |p| ==> FoldEq(s[k], p[k])
  }

  /** `^(Merge( pull request)?|chore(\(|:)|docs\(changelog\))` with IGNORECASE, via
      `re.match`. The optional group after "Merge" can only lengthen a match, never
      decide one, so the alternative is the bare prefix "merge". */
  predicate Excluded(subject: string) {
    || StartsWithFolded(subject, "merge")
    || StartsWithFolded(subject, "chore(")
    || StartsWithFolded(subject, "chore:")
    || StartsWithFolded(subject, "docs(changelog)")
  }

  /** A log line becomes a note when it is not blank (`m.strip()` is non-empty,
      see `Text.Strip`) and not maintenance. */
  predicate Kept(subject: string) {
    !AllSpace(subject) && !Excluded(subject)
  }

  /** The log lines that become notes, in log order. */
  function Survivors(subjects: seq<string>): (r: seq<string>)
    ensures |r| <= |subjects|
    ensures forall m :: m in r <==> m in subjects && Kept(m)
  {
    if subjects == [] then []
    else if Kept(subjects[0]) then [subjects[0]] + Survivors(subjects[1..])
    else Survivors(subjects[1..])
  }

  lemma SurvivorsCons(a: seq<string>, b: seq<string>)
    requires a != []
    ensures Survivors(a + b) == (if Kept(a[0]) then [a[0]] else []) + Survivors(a[1..] + b)
  {
    assert (a + b)[0] == a[0];
    assert (a + b)[1..] == a[1..] + b;
  }

  /** The filter commutes with concatenation, so it keeps the log's order. */
  lemma {:induction false} SurvivorsAppend(a: seq<string>, b: seq<string>)
    ensures Survivors(a + b) == Survivors(a) + Survivors(b)
    decreases |a|
  {
    if a == [] {
      assert a + b == b;
    } else {
      var head := if Kept(a[0]) then [a[0]] else [];
      SurvivorsCons(a, b);
      SurvivorsAppend(a[1..], b);
      assert Survivors(a) == head + Survivors(a[1..]);
      assert head + (Survivors(a[1..]) + Survivors(b)) == (head + Survivors(a[1..])) + Survivors(b);
    }
  }

  /** The notes `collect_notes_since_last_tag` returns for the given log lines: each
      survivor prefixed with "- ", or the single placeholder when none survives. */
  function Notes(subjects: seq<string>): (r: seq<string>)
    ensures |r| > 0
    ensures forall k :: 0 <= k < |r| ==> StartsWith(r[k], "- ")
    ensures Survivors(subjects) == [] ==> r == [Placeholder]
    ensures Survivors(subjects) != [] ==>
      |r| == |Survivors(subjects)| && forall k :: 0 <= k < |r| ==> r[k] == "- " + Survivors(subjects)[k]
  {
    var s := Survivors(subjects);
    if s == [] then
      assert Placeholder[0] == '-' && Placeholder[1] == ' ';
      [Placeholder]
    else
      var r := seq(|s|, k requires 0 <= k < |s| => "- " + s[k]);
      assert forall k :: 0 <= k < |r| ==> r[k][..2] == "- ";
      r
  }

  /** Notes built from single lines are single lines. */
  lemma NotesHaveNoBreaks(subjects: seq<string>)
    requires forall k :: 0 <= k < |subjects| ==> NoBreaks(subjects[k])
    ensures forall k :: 0 <= k < |Notes(subjects)| ==> NoBreaks(Notes(subjects)[k])
  {
    var s := Survivors(subjects);
    var r := Notes(subjects);
    if s == [] {
      PlaceholderHasNoBreaks();
    } else {
      forall k | 0 <= k < |r| ensures NoBreaks(r[k]) {
        assert r[k] == "- " + s[k];
        SurvivorHasNoBreaks(subjects, s[k]);
        PrefixedHasNoBreaks(s[k]);
      }
    }
  }

  lemma PlaceholderHasNoBreaks()
    ensures NoBreaks(Placeholder)
  {
    var p := ["- No ", "changes ", "recorded ", "since ", "last ", "version."];
    assert forall i :: 0 <= i < |p| ==> NoBreaks(p[i]);
    JoinedHasNoBreaks(p[0], p[1]);
    JoinedHasNoBreaks(p[0] + p[1], p[2]);
    JoinedHasNoBreaks(p[0] + p[1] + p[2], p[3]);
    JoinedHasNoBreaks(p[0] + p[1] + p[2] + p[3], p[4]);
    JoinedHasNoBreaks(p[0] + p[1] + p[2] + p[3] + p[4], p[5]);
  }

  lemma JoinedHasNoBreaks(a: string, b: string)
    requires NoBreaks(a) && NoBreaks(b)
    ensures NoBreaks(a + b)
  {
    forall k | 0 <= k < |a + b| ensures !IsLineBreak((a + b)[k]) {
      if k >= |a| { assert (a + b)[k] == b[k - |a|]; }
    }
  }

  lemma SurvivorHasNoBreaks(subjects: seq<string>, m: string)
    requires forall k :: 0 <= k < |subjects| ==> NoBreaks(subjects[k])
    requires m in Survivors(subjects)
    ensures NoBreaks(m)
  {
    var j :| 0 <= j < |subjects| && subjects[j] == m;
  }

  lemma PrefixedHasNoBreaks(m: string)
    requires NoBreaks(m)
    ensures NoBreaks("- " + m)
  {
    forall k | 0 <= k < |"- " + m| ensures !IsLineBreak(("- " + m)[k]) {
      if k >= 2 { assert ("- " + m)[k] == m[k - 2]; }
    }
  }

  /** Notes for the output of `git log --pretty=format:%s`, split into lines. */
  function NotesFromLog(log: string): (r: seq<string>)
    ensures |r| > 0
    ensures forall k :: 0 <= k < |r| ==> StartsWith(r[k], "- ") && NoBreaks(r[k])
  {
    NotesHaveNoBreaks(SplitLines(log));
    Notes(SplitLines(log))
  }

  /** Example: of a fix, a chore, a pull-request merge, a changelog commit
      and a feature, only the fix and the feature become notes. */
  lemma ExclusionExample(subjects: seq<string>)
    requires subjects == ["fix: bug", "chore: cleanup", "Merge pull request #1", "docs(changelog): 1.2.3", "feat: thing"]
    ensures Notes(subjects) == ["- fix: bug", "- feat: thing"]
  {
    ExampleSurvivors();
    NotesOfTwo(subjects, "fix: bug", "feat: thing");
    ExampleNoteTexts();
  }

  lemma ExampleNoteTexts()
    ensures ["- " + "fix: bug", "- " + "feat: thing"] == ["- fix: bug", "- feat: thing"]
  {
    assert "- " + "fix: bug" == "- fix: bug";
    assert "- " + "feat: thing" == "- feat: thing";
  }

  lemma NotesOfTwo(subjects: seq<string>, a: string, b: string)
    requires Survivors(subjects) == [a, b]
    ensures Notes(subjects) == ["- " + a, "- " + b]
  {
  }

  lemma ExampleSurvivors()
    ensures Survivors(["fix: bug", "chore: cleanup", "Merge pull request #1", "docs(changelog): 1.2.3", "feat: thing"])
         == ["fix: bug", "feat: thing"]
  {
    ExampleVerdicts();
    KeepFirstAndLast("fix: bug", "chore: cleanup", "Merge pull request #1", "docs(changelog): 1.2.3", "feat: thing");
  }

  lemma KeepFirstAndLast(a: string, b: string, c: string, d: string, e: string)
    requires Kept(a) && !Kept(b) && !Kept(c) && !Kept(d) && Kept(e)
    ensures Survivors([a, b, c, d, e]) == [a, e]
  {
    assert [e][1..] == [];
    assert Survivors([e]) == [e];
    assert [d, e][1..] == [e];
    assert Survivors([d, e]) == [e];
    assert [c, d, e][1..] == [d, e];
    assert Survivors([c, d, e]) == [e];
    assert [b, c, d, e][1..] == [c, d, e];
    assert Survivors([b, c, d, e]) == [e];
    assert [a, b, c, d, e][1..] == [b, c, d, e];
  }

  lemma ExampleVerdicts()
    ensures Kept("fix: bug") && Kept("feat: thing")
    ensures !Kept("chore: cleanup") && !Kept("Merge pull request #1") && !Kept("docs(changelog): 1.2.3")
  {
    NotMaintenance("fix: bug");
    NotMaintenance("feat: thing");
    ChoreExcluded();
    MergeExcluded();
    ChangelogCommitExcluded();
  }

  lemma ChoreExcluded() ensures Excluded("chore: cleanup") {
    assert StartsWithFolded("chore: cleanup", "chore:");
  }

  lemma MergeExcluded() ensures Excluded("Merge pull request #1") {
    assert StartsWithFolded("Merge pull request #1", "merge");
  }

  lemma ChangelogCommitExcluded() ensures Excluded("docs(changelog): 1.2.3") {
    assert StartsWithFolded("docs(changelog): 1.2.3", "docs(changelog)");
  }

  /** A subject starting with `f` is kept. */
  lemma NotMaintenance(subject: string)
    requires |subject| > 0 && subject[0] == 'f'
    ensures Kept(subject)
  {
    assert !FoldEq(subject[0], "merge"[0]);
    assert !FoldEq(subject[0], "chore("[0]);
    assert !FoldEq(subject[0], "docs(changelog)"[0]);
    assert !IsSpace(subject[0]);
  }

  /** Case does not save a maintenance commit: "CHORE: x", "merge branch" and a long-s
      spelling of "docs(changelog)" are all excluded, while "chores are done" is not. */
  lemma ExclusionIgnoresCase()
    ensures Excluded("CHORE: bump deps")
    ensures Excluded("merge branch 'x'")
    ensures Excluded("Doc\U{17F}(Changelog): 2.0.0")
    ensures !Excluded("chores are done")
  {
    UpperChoreExcluded();
    LowerMergeExcluded();
    LongSExcluded();
    ChoresKept();
  }

  lemma UpperChoreExcluded() ensures Excluded("CHORE: bump deps") {
    assert StartsWithFolded("CHORE: bump deps", "chore:");
  }

  lemma LowerMergeExcluded() ensures Excluded("merge branch 'x'") {
    assert StartsWithFolded("merge branch 'x'", "merge");
  }

  lemma LongSExcluded() ensures Excluded("Doc\U{17F}(Changelog): 2.0.0") {
    assert StartsWithFolded("Doc\U{17F}(Changelog): 2.0.0", "docs(changelog)");
  }

  lemma ChoresKept() ensures !Excluded("chores are done") {
    var c := "chores are done";
    assert !FoldEq(c[0], "merge"[0]);
    assert !FoldEq(c[5], "chore("[5]) && !FoldEq(c[5], "chore:"[5]);
    assert !FoldEq(c[0], "docs(changelog)"[0]);
  }
}
