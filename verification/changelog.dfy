/** The changelog file: how `update_changelog` rewrites it, how
`extract_release_notes` reads one section back, and the version-header pattern
`get_current_version` falls back to (scripts/release.py).

The file is a string (`None` when it does not exist) and today's date is the
string `date.today().isoformat()` returns.
 */
module Changelog {
  import opened Outcomes
  import opened Text
  import opened Lines
  import opened SemVer

  const Title: string := "# Changelog"

  /** `line.lstrip().startswith("# Changelog")` */
  predicate IsTitle(line: string) {
    StartsWith(LStrip(line), Title)
  }

  /** What `update_changelog` keeps of the prior file's lines: all of them, except that a
      title on the first line is dropped, and with it a blank line right after it. */
  function DropTitle(prior: seq<string>): (r: seq<string>)
    ensures |r| <= |prior| && r == prior[|prior| - |r|..]
    ensures |prior| - |r| <= 2
    ensures |prior| - |r| >= 1 <==> prior != [] && IsTitle(prior[0])
    ensures |prior| - |r| == 2 <==> |prior| >= 2 && IsTitle(prior[0]) && AllSpace(prior[1])
  {
    if prior != [] && IsTitle(prior[0]) then
      var rest := prior[1..];
      if rest != [] && Strip(rest[0]) == "" then rest[1..] else rest
    else prior
  }

  /** `f"## {new_version} ({today})"` */
  function SectionHeader(version: string, today: string): string {
    "## " + version + " (" + today + ")"
  }

  /** The lines `update_changelog` puts in front of whatever it keeps. */
  function NewEntry(version: string, today: string, notes: seq<string>): seq<string> {
    [Title, "", SectionHeader(version, today), "", "### Changed"] + notes + [""]
  }

  /** The prior lines kept after the new entry; none when there is no file. */
  function Retained(existing: Option<string>): seq<string> {
    match existing
    case None => []
    case Some(text) => DropTitle(SplitLines(text))
  }

  /** `update_changelog(new_version)`: the new content of CHANGELOG.md, given the prior
      content (None when the file does not exist), today's date and the notes. */
  function UpdateChangelog(existing: Option<string>, version: string, today: string, notes: seq<string>): (r: string)
    ensures |r| > 0 && r[|r| - 1] == '\n'
  {
    Render(NewEntry(version, today, notes) + Retained(existing))
  }

  predicate LinesWithoutBreaks(lines: seq<string>) {
    forall k :: 0 <= k < |lines| ==> NoBreaks(lines[k])
  }

  /** Reading the written file back line by line gives the new entry followed by the
      kept prior lines, as long as the version, the date and the notes are single lines. */
  lemma UpdateChangelogLines(existing: Option<string>, version: string, today: string, notes: seq<string>)
    requires NoBreaks(version) && NoBreaks(today) && LinesWithoutBreaks(notes)
    ensures SplitLines(UpdateChangelog(existing, version, today, notes)) == NewEntry(version, today, notes) + Retained(existing)
  {
    var lines := NewEntry(version, today, notes) + Retained(existing);
    EntryNoBreaks(version, today, notes);
    RetainedNoBreaks(existing);
    AppendNoBreaks(NewEntry(version, today, notes), Retained(existing));
    SplitRender(lines);
  }

  lemma AppendNoBreaks(a: seq<string>, b: seq<string>)
    requires LinesWithoutBreaks(a) && LinesWithoutBreaks(b)
    ensures LinesWithoutBreaks(a + b)
  {
    forall k | 0 <= k < |a + b| ensures NoBreaks((a + b)[k]) {
      if k < |a| { assert (a + b)[k] == a[k]; } else { assert (a + b)[k] == b[k - |a|]; }
    }
  }

  lemma HeaderNoBreaks(version: string, today: string)
    requires NoBreaks(version) && NoBreaks(today)
    ensures NoBreaks(SectionHeader(version, today))
  {
    var header := SectionHeader(version, today);
    forall k | 0 <= k < |header| ensures !IsLineBreak(header[k]) {
      if k < 3 { assert header[k] == "## "[k]; }
      else if k < 3 + |version| { assert header[k] == version[k - 3]; }
      else if k < 5 + |version| { assert header[k] == " ("[k - 3 - |version|]; }
      else if k < 5 + |version| + |today| { assert header[k] == today[k - 5 - |version|]; }
      else { assert header[k] == ')'; }
    }
  }

  lemma EntryNoBreaks(version: string, today: string, notes: seq<string>)
    requires NoBreaks(version) && NoBreaks(today) && LinesWithoutBreaks(notes)
    ensures LinesWithoutBreaks(NewEntry(version, today, notes))
  {
    HeaderNoBreaks(version, today);
    var front := [Title, "", SectionHeader(version, today), "", "### Changed"];
    assert LinesWithoutBreaks(front) by {
      assert LinesWithoutBreaks([Title, ""]);
      assert LinesWithoutBreaks(["", "### Changed"]);
    }
    AppendNoBreaks(front, notes);
    AppendNoBreaks(front + notes, [""]);
  }

  lemma RetainedNoBreaks(existing: Option<string>)
    ensures LinesWithoutBreaks(Retained(existing))
  {
    if existing.Some? {
      SuffixNoBreaks(SplitLines(existing.value), Retained(existing));
    }
  }

  lemma SuffixNoBreaks(lines: seq<string>, tail: seq<string>)
    requires LinesWithoutBreaks(lines)
    requires |tail| <= |lines| && tail == lines[|lines| - |tail|..]
    ensures LinesWithoutBreaks(tail)
  {
    forall k | 0 <= k < |tail| ensures NoBreaks(tail[k]) {
      assert tail[k] == lines[k + |lines| - |tail|];
    }
  }

  /** A line is a title only when it starts, after spaces, with "# Changelog"; none of
      the written entry's other lines does. */
  predicate TitleOnlyFirst(lines: seq<string>) {
    forall k :: 0 < k < |lines| ==> !IsTitle(lines[k])
  }

  lemma NotTitleByFirstChar(line: string)
    requires line != [] && !IsSpace(line[0]) && line[0] != '#'
    ensures !IsTitle(line)
  {
    TrimmedTitle(line);
    if StartsWith(line, Title) {
      StartsWithChar(line, Title, 0);
    }
  }

  lemma NotTitleBySecondChar(line: string)
    requires |line| >= 2 && line[0] == '#' && line[1] == '#'
    ensures !IsTitle(line)
  {
    TrimmedTitle(line);
    if StartsWith(line, Title) {
      TitleSecondChar();
      StartsWithChar(line, Title, 1);
    }
  }

  lemma TitleSecondChar() ensures Title[1] == ' ' {}

  /** For a line that does not start with a space, being a title is starting with it. */
  lemma TrimmedTitle(line: string)
    requires line != [] && !IsSpace(line[0])
    ensures IsTitle(line) <==> StartsWith(line, Title)
  {
    LStripOfTrimmed(line);
  }

  lemma LStripOfTrimmed(line: string)
    requires line != [] && !IsSpace(line[0])
    ensures LStrip(line) == line
  {
    LStripUnique(line, 0);
    assert line[0..] == line;
  }

  /** Whenever the prior file has a title on its first line at most, so does the new one,
      and the new one always starts with the title: the title never piles up. */
  lemma UpdateKeepsSingleTitle(existing: Option<string>, version: string, today: string, notes: seq<string>)
    requires NoBreaks(version) && NoBreaks(today) && LinesWithoutBreaks(notes)
    requires forall k :: 0 <= k < |notes| ==> StartsWith(notes[k], "- ")
    requires existing.Some? ==> TitleOnlyFirst(SplitLines(existing.value))
    ensures var out := SplitLines(UpdateChangelog(existing, version, today, notes));
      out != [] && out[0] == Title && TitleOnlyFirst(out)
  {
    UpdateChangelogLines(existing, version, today, notes);
    if existing.Some? {
      KeptHasNoTitle(SplitLines(existing.value));
    }
    EntryThenKept(version, today, notes, Retained(existing));
  }

  lemma EntryThenKept(version: string, today: string, notes: seq<string>, kept: seq<string>)
    requires forall k :: 0 <= k < |notes| ==> StartsWith(notes[k], "- ")
    requires NoTitle(kept)
    ensures var out := NewEntry(version, today, notes) + kept;
      out != [] && out[0] == Title && TitleOnlyFirst(out)
  {
    var entry := NewEntry(version, today, notes);
    EntryHasOneTitle(version, today, notes);
    var out := entry + kept;
    assert out[1..] == entry[1..] + kept;
    AppendNoTitle(entry[1..], kept);
    TitleOnlyAtFront(out);
  }

  lemma TitleOnlyAtFront(lines: seq<string>)
    requires lines != [] && NoTitle(lines[1..])
    ensures TitleOnlyFirst(lines)
  {
    forall k | 0 < k < |lines| ensures !IsTitle(lines[k]) {
      assert lines[k] == lines[1..][k - 1];
    }
  }

  /** No line is a title. */
  predicate NoTitle(lines: seq<string>) {
    forall k :: 0 <= k < |lines| ==> !IsTitle(lines[k])
  }

  lemma AppendNoTitle(a: seq<string>, b: seq<string>)
    requires NoTitle(a) && NoTitle(b)
    ensures NoTitle(a + b)
  {
    forall k | 0 <= k < |a + b| ensures !IsTitle((a + b)[k]) {
      if k < |a| { assert (a + b)[k] == a[k]; } else { assert (a + b)[k] == b[k - |a|]; }
    }
  }

  /** The written entry has the title on its first line and nowhere else. */
  lemma EntryHasOneTitle(version: string, today: string, notes: seq<string>)
    requires forall k :: 0 <= k < |notes| ==> StartsWith(notes[k], "- ")
    ensures var entry := NewEntry(version, today, notes);
      entry[0] == Title && NoTitle(entry[1..])
  {
    var entry := NewEntry(version, today, notes);
    var header := SectionHeader(version, today);
    assert !IsTitle("") by { LStripUnique("", 0); }
    NotTitleBySecondChar(header);
    NotTitleBySecondChar("### Changed");
    var front := ["", header, "", "### Changed"];
    assert NoTitle(front);
    assert NoTitle(notes) by {
      forall k | 0 <= k < |notes| ensures !IsTitle(notes[k]) {
        StartsWithChar(notes[k], "- ", 0);
        NotTitleByFirstChar(notes[k]);
      }
    }
    AppendNoTitle(front, notes);
    AppendNoTitle(front + notes, [""]);
    assert entry[1..] == front + notes + [""];
  }

  /** What is kept of a file with a title on its first line at most has no title. */
  lemma KeptHasNoTitle(prior: seq<string>)
    requires TitleOnlyFirst(prior)
    ensures NoTitle(DropTitle(prior))
  {
    var kept := DropTitle(prior);
    SuffixHasNoTitle(prior, |prior| - |kept|);
  }

  lemma SuffixHasNoTitle(prior: seq<string>, d: nat)
    requires d <= |prior| && TitleOnlyFirst(prior)
    requires d == 0 ==> prior == [] || !IsTitle(prior[0])
    ensures NoTitle(prior[d..])
  {
    forall k | 0 <= k < |prior| - d ensures !IsTitle(prior[d..][k]) {
      assert prior[d..][k] == prior[k + d];
    }
  }

  /** Two releases in a row starting from no changelog leave exactly one title, on the
      first line. */
  lemma UpdateTwiceSingleTitle(v1: string, v2: string, today1: string, today2: string, notes1: seq<string>, notes2: seq<string>)
    requires NoBreaks(v1) && NoBreaks(today1) && LinesWithoutBreaks(notes1)
    requires NoBreaks(v2) && NoBreaks(today2) && LinesWithoutBreaks(notes2)
    requires forall k :: 0 <= k < |notes1| ==> StartsWith(notes1[k], "- ")
    requires forall k :: 0 <= k < |notes2| ==> StartsWith(notes2[k], "- ")
    ensures var first := UpdateChangelog(None, v1, today1, notes1);
      var out := SplitLines(UpdateChangelog(Some(first), v2, today2, notes2));
      out != [] && out[0] == Title && TitleOnlyFirst(out)
  {
    var first := UpdateChangelog(None, v1, today1, notes1);
    UpdateKeepsSingleTitle(None, v1, today1, notes1);
    UpdateKeepsSingleTitle(Some(first), v2, today2, notes2);
  }

  /** A file the script wrote loses exactly its title and the blank line after it on
      the next run, so each release's entry is stacked on top of the previous ones. */
  lemma UpdateStacksEntries(v1: string, v2: string, today1: string, today2: string, notes1: seq<string>, notes2: seq<string>, kept: seq<string>)
    requires NoBreaks(v1) && NoBreaks(today1) && LinesWithoutBreaks(notes1) && LinesWithoutBreaks(kept)
    requires NoBreaks(v2) && NoBreaks(today2) && LinesWithoutBreaks(notes2)
    ensures var first := Render(NewEntry(v1, today1, notes1) + kept);
      SplitLines(UpdateChangelog(Some(first), v2, today2, notes2))
        == NewEntry(v2, today2, notes2) + NewEntry(v1, today1, notes1)[2..] + kept
  {
    var e1 := NewEntry(v1, today1, notes1);
    var prior := e1 + kept;
    var first := Render(prior);
    EntryNoBreaks(v1, today1, notes1);
    AppendNoBreaks(e1, kept);
    SplitRender(prior);
    DropEntryTitle(e1, kept);
    UpdateChangelogLines(Some(first), v2, today2, notes2);
  }

  /** The title and blank line an entry starts with are what the next run drops. */
  lemma DropEntryTitle(e: seq<string>, kept: seq<string>)
    requires |e| >= 2 && e[0] == Title && e[1] == ""
    ensures DropTitle(e + kept) == e[2..] + kept
  {
    var prior := e + kept;
    assert IsTitle(Title) by { LStripUnique(Title, 0); }
    assert prior[0] == Title && prior[1] == "";
    assert prior[2..] == e[2..] + kept;
  }

  /** A line that starts a section, for `extract_release_notes`. */
  predicate IsHeading(line: string) {
    StartsWith(line, "## ")
  }

  /** A line whose `k`-th character is not that of "## " is no heading. */
  lemma NotHeading(line: string, k: nat)
    requires k < 3 && (k >= |line| || line[k] != "## "[k])
    ensures !IsHeading(line)
  {
    if IsHeading(line) {
      StartsWithChar(line, "## ", k);
    }
  }

  /** The heading of the section for `version`: "## {version} " starts it, or it is
      exactly "## {version}" once stripped. */
  predicate HeadingMatches(line: string, version: string) {
    StartsWith(line, "## " + version + " ") || Strip(line) == "## " + version
  }

  /** The loop of `extract_release_notes`: `inSection` is its flag. A heading ends the
      section being collected, or else decides whether the next one is collected. */
  function Scan(lines: seq<string>, version: string, inSection: bool): seq<string> {
    if lines == [] then []
    else if IsHeading(lines[0]) then
      if inSection then [] else Scan(lines[1..], version, HeadingMatches(lines[0], version))
    else (if inSection then [lines[0]] else []) + Scan(lines[1..], version, inSection)
  }

  /** `extract_release_notes(version)` on the text of the changelog. */
  function ExtractReleaseNotes(text: string, version: string): (r: string)
    ensures r == [] || (!IsSpace(r[0]) && !IsSpace(r[|r| - 1]))
  {
    Strip(JoinLines(Scan(SplitLines(text), version, false)))
  }

  /** Index of the first heading in `lines`, or `|lines|` when there is none. */
  function NextHeading(lines: seq<string>): (i: nat)
    ensures i <= |lines|
    ensures forall k :: 0 <= k < i ==> !IsHeading(lines[k])
    ensures i < |lines| ==> IsHeading(lines[i])
  {
    if lines == [] || IsHeading(lines[0]) then 0 else 1 + NextHeading(lines[1..])
  }

  /** Index of the first heading for `version`, or `|lines|` when there is none. */
  function FirstMatch(lines: seq<string>, version: string): (i: nat)
    ensures i <= |lines|
    ensures forall k :: 0 <= k < i ==> !(IsHeading(lines[k]) && HeadingMatches(lines[k], version))
    ensures i < |lines| ==> IsHeading(lines[i]) && HeadingMatches(lines[i], version)
  {
    if lines == [] || (IsHeading(lines[0]) && HeadingMatches(lines[0], version)) then 0
    else 1 + FirstMatch(lines[1..], version)
  }

  /** Inside a section the loop collects every line up to the next heading. */
  lemma {:induction false} ScanInSection(lines: seq<string>, version: string)
    ensures Scan(lines, version, true) == lines[..NextHeading(lines)]
    decreases |lines|
  {
    if lines != [] && !IsHeading(lines[0]) {
      ScanInSection(lines[1..], version);
      assert lines[..NextHeading(lines)] == [lines[0]] + lines[1..][..NextHeading(lines[1..])];
    }
  }

  /** The section collected is the one under the first heading for `version`, up to
      the next heading; nothing when no heading is for `version`. */
  lemma {:induction false} ScanSeeks(lines: seq<string>, version: string)
    ensures var i := FirstMatch(lines, version);
      Scan(lines, version, false) == if i == |lines| then [] else lines[i + 1..][..NextHeading(lines[i + 1..])]
    decreases |lines|
  {
    if lines != [] {
      if IsHeading(lines[0]) && HeadingMatches(lines[0], version) {
        ScanInSection(lines[1..], version);
      } else {
        assert Scan(lines, version, false) == Scan(lines[1..], version, false);
        assert FirstMatch(lines, version) == 1 + FirstMatch(lines[1..], version);
        ScanSeeks(lines[1..], version);
        var i := FirstMatch(lines[1..], version);
        if i < |lines[1..]| {
          assert lines[1..][i + 1..] == lines[i + 2..];
        }
      }
    }
  }

  /** The heading the script writes is the heading for its version. */
  lemma WrittenHeadingMatches(version: string, today: string)
    ensures IsHeading(SectionHeader(version, today)) && HeadingMatches(SectionHeader(version, today), version)
  {
    var h := SectionHeader(version, today);
    assert h == ("## " + version + " ") + ("(" + today + ")");
    assert h == "## " + (version + " (" + today + ")");
  }

  /** The heading written for one version is not the heading of another, as long as
      neither contains a space: "## 1.2.30 (...)" is not the section of 1.2.3. */
  lemma OtherHeadingDoesNotMatch(v: string, w: string, today: string)
    requires v != w && NoSpace(v) && NoSpace(w)
    ensures !HeadingMatches(SectionHeader(w, today), v)
  {
    var h := SectionHeader(w, today);
    var p := "## " + v + " ";
    assert !StartsWith(h, p) by {
      if StartsWith(h, p) {
        if |v| < |w| {
          StartsWithChar(h, p, 3 + |v|);
        } else if |v| > |w| {
          StartsWithChar(h, p, 3 + |w|);
        } else {
          forall k | 0 <= k < |v| ensures v[k] == w[k] {
            StartsWithChar(h, p, 3 + k);
            assert h[3 + k] == w[k] && p[3 + k] == v[k];
          }
        }
      }
    }
    assert Strip(h) != "## " + v by {
      assert h[0] == '#' && h[|h| - 1] == ')';
      StripOfTrimmed(h);
      assert h[3 + |w|] == ' ';
    }
  }

  /** The two versions the release notes are easiest to confuse. */
  lemma LongerPatchIsAnotherSection(today: string)
    ensures !HeadingMatches(SectionHeader("1.2.30", today), "1.2.3")
  {
    OtherHeadingDoesNotMatch("1.2.3", "1.2.30", today);
  }

  /** `release notes` read back right after `update_changelog` wrote them: the new
      entry's section runs from the "### Changed" line through the notes, provided
      what was kept of the prior file starts with a heading (or is empty), as a file
      this script wrote does. */
  lemma UpdateThenExtract(existing: Option<string>, version: string, today: string, notes: seq<string>)
    requires NoBreaks(version) && NoBreaks(today) && LinesWithoutBreaks(notes)
    requires notes != [] && forall k :: 0 <= k < |notes| ==> StartsWith(notes[k], "- ")
    requires Retained(existing) == [] || IsHeading(Retained(existing)[0])
    ensures ExtractReleaseNotes(UpdateChangelog(existing, version, today, notes), version)
         == "### Changed\n" + RStrip(JoinLines(notes))
  {
    var u := UpdateChangelog(existing, version, today, notes);
    var body := ["", "### Changed"] + notes + [""];
    UpdateChangelogLines(existing, version, today, notes);
    EntrySection(version, today, notes, Retained(existing));
    assert Scan(SplitLines(u), version, false) == body;
    StartsWithChar(notes[0], "- ", 0);
    JoinSection(notes);
  }

  lemma EntrySection(version: string, today: string, notes: seq<string>, kept: seq<string>)
    requires forall k :: 0 <= k < |notes| ==> StartsWith(notes[k], "- ")
    requires kept == [] || IsHeading(kept[0])
    ensures Scan(NewEntry(version, today, notes) + kept, version, false) == ["", "### Changed"] + notes + [""]
  {
    var lines := NewEntry(version, today, notes) + kept;
    var body := ["", "### Changed"] + notes + [""];
    EntryFront(version, today, notes, kept);
    ScanPastHeader(lines, version, today);
    BodyHasNoHeading(notes);
    NextHeadingAfter(body, kept);
    ScanInSection(body + kept, version);
    assert (body + kept)[..|body|] == body;
  }

  /** The loop skips the title and the blank line and enters the section at the header. */
  lemma ScanPastHeader(lines: seq<string>, version: string, today: string)
    requires |lines| > 3 && lines[0] == Title && lines[1] == "" && lines[2] == SectionHeader(version, today)
    ensures Scan(lines, version, false) == Scan(lines[3..], version, true)
  {
    WrittenHeadingMatches(version, today);
    TitleSecondChar();
    NotHeading(Title, 1);
    NotHeading("", 0);
    assert lines[1..][0] == "" && lines[1..][1..] == lines[2..] && lines[2..][1..] == lines[3..];
    assert Scan(lines, version, false) == Scan(lines[1..], version, false);
    assert Scan(lines[1..], version, false) == Scan(lines[2..], version, false);
  }

  lemma BodyHasNoHeading(notes: seq<string>)
    requires forall k :: 0 <= k < |notes| ==> StartsWith(notes[k], "- ")
    ensures var body := ["", "### Changed"] + notes + [""];
      forall k :: 0 <= k < |body| ==> !IsHeading(body[k])
  {
    var body := ["", "### Changed"] + notes + [""];
    NotHeading("", 0);
    NotHeading("### Changed", 2);
    forall k | 0 <= k < |body| ensures !IsHeading(body[k]) {
      if 2 <= k < 2 + |notes| {
        assert body[k] == notes[k - 2];
        StartsWithChar(notes[k - 2], "- ", 1);
        NotHeading(notes[k - 2], 1);
      } else if k < 2 {
        assert body[k] == ["", "### Changed"][k];
      } else {
        assert body[k] == "";
      }
    }
  }

  lemma NextHeadingAfter(body: seq<string>, kept: seq<string>)
    requires forall k :: 0 <= k < |body| ==> !IsHeading(body[k])
    requires kept == [] || IsHeading(kept[0])
    ensures NextHeading(body + kept) == |body|
  {
    assert forall k :: 0 <= k < |body| ==> (body + kept)[k] == body[k];
    assert kept != [] ==> (body + kept)[|body|] == kept[0];
  }

  /** `"\n".join(["", "### Changed", *notes, ""]).strip()` */
  lemma JoinSection(notes: seq<string>)
    requires notes != [] && StartsWith(notes[0], "- ")
    ensures Strip(JoinLines(["", "### Changed"] + notes + [""])) == "### Changed\n" + RStrip(JoinLines(notes))
  {
    var j := JoinLines(notes);
    var inner := "### Changed\n" + j;
    JoinedBody(notes);
    assert LStrip("\n" + (inner + "\n")) == inner + "\n" by {
      LStripAfterSpaces("\n", inner + "\n");
      assert (inner + "\n")[0] == '#';
      LStripUnique(inner + "\n", 0);
      assert (inner + "\n")[0..] == inner + "\n";
    }
    assert RStrip(inner + "\n") == RStrip(inner) by {
      RStripBeforeSpaces(inner, "\n");
    }
    assert !AllSpace(j) by {
      JoinFirstChar(notes);
      StartsWithChar(notes[0], "- ", 0);
      assert j[0] == '-';
    }
    RStripAfterText("### Changed\n", j);
  }

  lemma JoinedBody(notes: seq<string>)
    requires notes != []
    ensures JoinLines(["", "### Changed"] + notes + [""]) == "\n" + (("### Changed\n" + JoinLines(notes)) + "\n")
  {
    JoinLinesAppend(["", "### Changed"], notes + [""]);
    JoinLinesAppend(notes, [""]);
    assert ["", "### Changed"] + notes + [""] == ["", "### Changed"] + (notes + [""]);
    assert JoinLines(["", "### Changed"]) == "" + "\n" + "### Changed";
  }

  lemma JoinFirstChar(notes: seq<string>)
    requires notes != [] && notes[0] != []
    ensures JoinLines(notes) != [] && JoinLines(notes)[0] == notes[0][0]
  {
    if |notes| > 1 {
      assert JoinLines(notes) == notes[0] + ("\n" + JoinLines(notes[1..]));
    }
  }

  /** `re.match(r"^##\s+(\d+\.\d+\.\d+)\b", line)`: the captured version, if any.
      `\s+` is greedy and followed by a digit, so it takes the whole run of spaces.
      Whatever it captures is a version `SEMVER_RE` accepts. */
  function HeaderVersion(line: string): (r: Option<string>)
    ensures r.Some? ==> StartsWith(line, "##") && MatchExact(r.value).Some?
  {
    if !StartsWith(line, "##") then None
    else
      var n := SpaceRunEnd(line, 2);
      if n == 2 then None else LeadingVersion(line[n..])
  }

  /** `(\d+\.\d+\.\d+)\b` at the start of `t`. Each `\d+` is maximal for the same
      reason as in `SEMVER_RE`, and a shorter last run would end between two digits,
      where `\b` cannot hold. */
  function LeadingVersion(t: string): (r: Option<string>)
    ensures r.Some? ==> MatchExact(r.value).Some? && StartsWith(t, r.value)
    ensures r.Some? ==> |r.value| == |t| || !IsWordChar(t[|r.value|])
  {
    var a := DigitRunEnd(t, 0);
    if a == 0 || a == |t| || t[a] != '.' then None
    else
      var b := DigitRunEnd(t, a + 1);
      if b == a + 1 || b == |t| || t[b] != '.' then None
      else
        var c := DigitRunEnd(t, b + 1);
        if c == b + 1 || (c < |t| && IsWordChar(t[c])) then None
        else
          var v := t[..c];
          DigitRunEndPrefix(t, 0, c);
          DigitRunEndPrefix(t, a + 1, c);
          DigitRunEndPrefix(t, b + 1, c);
          MatchExactAt(v, a, b);
          Some(v)
  }

  /** Cutting the text after the end of a digit run does not move the end. */
  lemma {:induction false} DigitRunEndPrefix(s: string, i: nat, m: nat)
    requires i <= m <= |s| && DigitRunEnd(s, i) <= m
    ensures DigitRunEnd(s[..m], i) == DigitRunEnd(s, i)
    decreases m - i
  {
    if i < m {
      assert s[..m][i] == s[i];
      if IsDigit(s[i]) {
        DigitRunEndPrefix(s, i + 1, m);
      }
    }
  }

  /** A version followed by something other than a word character is captured whole. */
  lemma LeadingVersionOf(g: Groups, post: string)
    requires WellFormed(g)
    requires post == [] || !IsWordChar(post[0])
    ensures LeadingVersion(Dotted(g) + post) == Some(Dotted(g))
  {
    var t := Dotted(g) + post;
    var c := |Dotted(g)|;
    RunEndsBefore(g, post);
    assert c < |t| ==> t[c] == post[0];
    LeadingVersionAt(t, |g.major|, |g.major| + 1 + |g.minor|, c);
    assert t[..c] == Dotted(g);
  }

  lemma LeadingVersionAt(t: string, a: nat, b: nat, c: nat)
    requires 0 < a && a + 1 < b && b + 1 < c <= |t| && t[a] == '.' && t[b] == '.'
    requires DigitRunEnd(t, 0) == a && DigitRunEnd(t, a + 1) == b && DigitRunEnd(t, b + 1) == c
    requires c == |t| || !IsWordChar(t[c])
    ensures LeadingVersion(t) == Some(t[..c])
  {
    assert !(a == 0 || a == |t| || t[a] != '.');
    assert !(b == a + 1 || b == |t| || t[b] != '.');
    assert !(c == b + 1 || (c < |t| && IsWordChar(t[c])));
  }

  /** The section header the script writes for `Dotted(g)` yields `Dotted(g)` back. */
  lemma HeaderVersionOfSection(g: Groups, today: string)
    requires WellFormed(g)
    ensures HeaderVersion(SectionHeader(Dotted(g), today)) == Some(Dotted(g))
  {
    var post := " (" + today + ")";
    var t := Dotted(g) + post;
    var line := SectionHeader(Dotted(g), today);
    HeaderShape(Dotted(g), today);
    assert line == "## " + t;
    LeadingVersionOf(g, post);
    DottedStartsWithDigit(g, post);
    SpacesThenText(t);
    assert HeaderVersion(line) == LeadingVersion(t);
  }

  /** Where a header's version sits: after "##" and at least one whitespace, at the
      end of the whitespace run, and followed by a non-word character or nothing. */
  lemma HeaderVersionAt(line: string)
    requires HeaderVersion(line).Some?
    ensures var v := HeaderVersion(line).value;
      var n := SpaceRunEnd(line, 2);
      && StartsWith(line, "##") && 2 < n <= |line| && IsSpace(line[2])
      && StartsWith(line[n..], v)
      && (n + |v| == |line| || !IsWordChar(line[n + |v|]))
  {
  }

  /** Any non-empty run of whitespace may follow "##": a hand-written "##\t1.2.3 x"
      is read as well as the written "## 1.2.3 (date)". */
  lemma HeaderVersionAfterSpaces(sp: string, g: Groups, post: string)
    requires sp != [] && AllSpace(sp)
    requires WellFormed(g)
    requires post == [] || !IsWordChar(post[0])
    ensures HeaderVersion("##" + sp + Dotted(g) + post) == Some(Dotted(g))
  {
    var t := Dotted(g) + post;
    var line := "##" + sp + Dotted(g) + post;
    assert line == "##" + sp + t;
    assert line[..2] == "##";
    DottedStartsWithDigit(g, post);
    SpaceRunOver(line, 2, 2 + |sp|);
    assert line[2 + |sp|..] == t;
    LeadingVersionOf(g, post);
  }

  /** `\s+` needs at least one whitespace: "##1.2.3" is no header. */
  lemma HeaderVersionNeedsSpace(g: Groups, post: string)
    requires WellFormed(g)
    ensures HeaderVersion("##" + Dotted(g) + post).None?
  {
    var line := "##" + Dotted(g) + post;
    DottedStartsWithDigit(g, post);
    assert line[2] == (Dotted(g) + post)[0];
  }

  /** A run of whitespace from `i` up to a non-space at `j` ends at `j`. */
  lemma {:induction false} SpaceRunOver(s: string, i: nat, j: nat)
    requires i <= j < |s| && !IsSpace(s[j])
    requires forall k :: i <= k < j ==> IsSpace(s[k])
    ensures SpaceRunEnd(s, i) == j
    decreases j - i
  {
    if i < j {
      SpaceRunOver(s, i + 1, j);
    }
  }

  lemma DottedStartsWithDigit(g: Groups, post: string)
    requires WellFormed(g)
    ensures Dotted(g) + post != [] && IsDigit((Dotted(g) + post)[0])
  {
    assert Dotted(g) + post == g.major + ("." + g.minor + "." + g.patch + post);
  }

  lemma HeaderShape(v: string, today: string)
    ensures SectionHeader(v, today) == "## " + (v + (" (" + today + ")"))
  {
  }

  /** In "## " followed by text not starting with a space, the spaces after "##" are
      exactly the one written. */
  lemma SpacesThenText(t: string)
    requires t != [] && !IsSpace(t[0])
    ensures var line := "## " + t;
      StartsWith(line, "##") && SpaceRunEnd(line, 2) == 3 && line[3..] == t
  {
    var line := "## " + t;
    assert line[..2] == "##";
    assert line[2] == ' ' && line[3] == t[0];
    assert line[3..] == t;
  }

  /** What `f` finds in the first line of `lines` where it finds anything: the
      `for ... if m: return` loop. */
  function FirstFound(lines: seq<string>, f: string -> Option<string>): (r: Option<string>)
    ensures r.Some? ==> exists k :: 0 <= k < |lines| && f(lines[k]) == r
    ensures r.None? ==> forall k :: 0 <= k < |lines| ==> f(lines[k]).None?
  {
    if lines == [] then None
    else match f(lines[0])
      case Some(v) => Some(v)
      case None =>
        var r := FirstFound(lines[1..], f);
        assert forall k :: 1 <= k < |lines| ==> lines[k] == lines[1..][k - 1];
        r
  }

  /** The first line where `f` finds something decides. */
  lemma {:induction false} FirstFoundAt(lines: seq<string>, f: string -> Option<string>, k: nat)
    requires k < |lines| && f(lines[k]).Some?
    requires forall j :: 0 <= j < k ==> f(lines[j]).None?
    ensures FirstFound(lines, f) == f(lines[k])
    decreases k
  {
    if k > 0 {
      assert forall j :: 0 <= j < k - 1 ==> lines[1..][j] == lines[j + 1];
      assert lines[1..][k - 1] == lines[k];
      FirstFoundAt(lines[1..], f, k - 1);
    }
  }

  /** The version in the first line of `lines` that the header pattern matches. */
  function FirstHeaderVersion(lines: seq<string>): (r: Option<string>)
    ensures r.Some? ==> exists k :: 0 <= k < |lines| && HeaderVersion(lines[k]) == r
    ensures r.None? ==> forall k :: 0 <= k < |lines| ==> HeaderVersion(lines[k]).None?
  {
    FirstFound(lines, HeaderVersion)
  }

  /** After a release writes the changelog, the fallback of `get_current_version` finds
      the version just written. */
  lemma UpdateThenFallback(existing: Option<string>, g: Groups, today: string, notes: seq<string>)
    requires WellFormed(g)
    requires NoBreaks(Dotted(g)) && NoBreaks(today) && LinesWithoutBreaks(notes)
    ensures FirstHeaderVersion(SplitLines(UpdateChangelog(existing, Dotted(g), today, notes))) == Some(Dotted(g))
  {
    UpdateChangelogLines(existing, Dotted(g), today, notes);
    EntryHeaderVersion(g, today, notes, Retained(existing));
  }

  lemma EntryHeaderVersion(g: Groups, today: string, notes: seq<string>, kept: seq<string>)
    requires WellFormed(g)
    ensures FirstHeaderVersion(NewEntry(Dotted(g), today, notes) + kept) == Some(Dotted(g))
  {
    var lines := NewEntry(Dotted(g), today, notes) + kept;
    EntryFront(Dotted(g), today, notes, kept);
    HeaderVersionOfSection(g, today);
    TitleHasNoVersion();
    FirstHeaderVersionSkip(lines);
    FirstHeaderVersionSkip(lines[1..]);
    assert lines[1..][1..] == lines[2..];
  }

  lemma TitleHasNoVersion()
    ensures HeaderVersion(Title).None? && HeaderVersion("").None?
  {
    TitleSecondChar();
    if StartsWith(Title, "##") {
      StartsWithChar(Title, "##", 1);
    }
  }

  /** The first line the header pattern matches decides: later matching lines are
      never read. */
  lemma FirstHeaderAt(lines: seq<string>, k: nat)
    requires k < |lines| && HeaderVersion(lines[k]).Some?
    requires forall j :: 0 <= j < k ==> HeaderVersion(lines[j]).None?
    ensures FirstHeaderVersion(lines) == HeaderVersion(lines[k])
  {
    FirstFoundAt(lines, HeaderVersion, k);
  }

  lemma FirstHeaderVersionSkip(lines: seq<string>)
    requires lines != [] && HeaderVersion(lines[0]).None?
    ensures FirstHeaderVersion(lines) == FirstHeaderVersion(lines[1..])
  {
  }

  /** The first three lines of what the writer writes, and the rest. */
  lemma EntryFront(version: string, today: string, notes: seq<string>, kept: seq<string>)
    ensures var lines := NewEntry(version, today, notes) + kept;
      && |lines| > 3 && lines[0] == Title && lines[1] == "" && lines[2] == SectionHeader(version, today)
      && lines[3..] == ["", "### Changed"] + notes + [""] + kept
  {
    var front := [Title, "", SectionHeader(version, today), "", "### Changed"];
    var lines := NewEntry(version, today, notes) + kept;
    assert lines == front + (notes + [""] + kept);
    assert lines[3..] == front[3..] + (notes + [""] + kept);
  }
}
