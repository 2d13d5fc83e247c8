# Release script and environment setup of lib_bash, modelled in Dafny

This project models two Python helpers of the lib_bash repository:

- `scripts/release.py` cuts a release of a git repository. It checks that `git` and `gh` are installed, that the branch is the release branch and not behind its upstream, finds the current version (latest tag, else the first `## X.Y.Z` changelog header, else `0.0.0`), decides the new version (a `VERSION` override or a major/minor/patch bump), commits outstanding work, prepends a dated section of commit-subject notes to `CHANGELOG.md`, pushes, refuses to re-create an existing tag, tags, and creates or edits the GitHub release with the section's notes.
- `libs/setupenv.py` reads a requirements file, appends extra packages, and installs each package that cannot be imported, upgrading pip once before the first install.

Every external program is reached through a `Host` (module `Shell`). Its `answer` gives the exit code and output of a command, given the commands issued before it; its `onPath` says which programs are installed. Each operation takes the trace of commands issued so far and returns a `Step`: the longer trace and an `Outcome`. The outcome is `Ok(value)` or `Fatal(halt)`. A halt is one of:

- `Exit(message)`: a `sys.exit` with that message.
- `CommandFailed(argv, code)`: a `CalledProcessError`.
- `Crash(message)`: another uncaught exception.

The text of `CHANGELOG.md` as it stands after preflight, today's date, the environment variables, the terminal state and the typed answer are parameters. The new changelog text is part of the result.

Modules, one file each:

- `Outcomes` (outcome.dfy): `Option`, `Outcome` and `Halt`.
- `Text` (text.dfy): Python's `str.isspace`, `strip`, `lstrip`, `rstrip`, `split()` and `lower()`.
- `Lines` (lines.dfy): `str.splitlines()` and `"\n".join`.
- `Decimal` (decimal.dfy): `int()` of a digit run and `str()` of a number.
- `SemVer` (semver.dfy): `SEMVER_RE`, `validate_version` and `bump_version`.
- `BumpChoice` (bumpchoice.dfy): `choose_bump`.
- `ReleaseNotes` (notes.dfy): the commit-subject filter.
- `Changelog` (changelog.dfy): `update_changelog`, `extract_release_notes` and the changelog fallback of `get_current_version`.
- `Shell` (shell.dfy): `run` and the `Host`.
- `Preflight` (preflight.dfy): `ensure_deps` and `ensure_repo_state`.
- `Versioning` (versioning.dfy): `get_current_version` and the version resolution in `main`.
- `Publish` (publish.dfy): `commit_all_changes`, `collect_notes_since_last_tag`, `push_branch`, tagging and `upsert_github_release`.
- `Release` (release.dfy): `main`.
- `SetupEnv` (setupenv.dfy): `read_requirements_file`, `install_and_import` and the package handling of `setup`.

## Behaviour worth noting

- Without a tag, the notes range is `<root commit>..HEAD` (scripts/release.py:147-148). The root commit's own subject is therefore not in the log.
- In `push_branch`, a failing plain `git push` raises inside the `try`. It is therefore followed by `git push -u origin HEAD`, exactly as when there is no upstream (`Publish.FailedPushRetriesWithUpstream`).
- Any nonzero exit of `gh release view` leads to `gh release create`, because the code only compares the exit code with 0 (`Publish.UpsertEditsOrCreates`). A `gh release view` failure other than not-found therefore also leads to `gh release create`.

## Model

| member | source | states |
|---|---|---|
| Shell.CheckFailsExactlyOnNonzeroStatus | scripts/release.py:15-21 | A checked run fails exactly when the command's exit status is nonzero, and then names the command and that status. An unchecked run never fails, and a checked run that succeeds gives the same as an unchecked one. |
| Shell.CapturedIsStripped | scripts/release.py:18 | A captured value has no whitespace at either end, so stripping it again changes nothing. |
| Text.Strip | scripts/release.py:88 | The result has no whitespace (Python `isspace`) at either end, and it is empty exactly when the input is all whitespace. |
| Text.Words | scripts/release.py:52 | Every field of `split()` is non-empty and holds no whitespace. |
| Text.Lower | scripts/release.py:93 | The lower-cased answer has the same length, and each character is lower-cased on its own. |
| Lines.SplitLines | scripts/release.py:71 | No line holds a line break, and there are no lines exactly when the text is empty. |
| Lines.SplitRender | scripts/release.py:173-181 | Reading back a written changelog (`"\n".join(lines) + "\n"`, then `splitlines()`) gives the same lines, when no line holds a break. |
| Lines.JoinLinesAppend | scripts/release.py:181 | Joining two non-empty line lists is joining each and putting one line feed between them. |
| Decimal.NatToString | scripts/release.py:125 | The decimal rendering of a number is a digit run without leading zeros. |
| Decimal.ParseShow | scripts/release.py:115 | Reading back a rendered number gives the same number. |
| Decimal.ShowParse | scripts/release.py:115 | Rendering the value of a canonical digit run gives the same digits back. |
| Preflight.EnsureDeps | scripts/release.py:24-27 | The check passes exactly when both git and gh are on PATH. git is checked first, and the first missing one is named in the exit message. |
| Preflight.ParseCounts | scripts/release.py:52 | A successful parse found exactly two fields; anything else is an uncaught exception. |
| Preflight.ParseCountsOfOutput | scripts/release.py:52 | The tab-separated pair git prints for behind/ahead parses back to that same pair. |
| Preflight.BehindGate | scripts/release.py:58-59 | The gate passes exactly when the branch is not behind, and otherwise exits with the "behind remote" message. |
| Preflight.EnsureRepoState | scripts/release.py:30-59 | The trace only grows, and every command added is one of the five preflight git commands. |
| Preflight.CheckUpstream | scripts/release.py:38-59 | With the branch checked, the upstream probe, fetch and sync only grow the trace, with preflight commands. |
| Preflight.SyncWithUpstream | scripts/release.py:51-59 | After the fetch, the sync issues a count, optionally one fast-forward, and then at most one recount. |
| Preflight.WrongBranchIsFatal | scripts/release.py:31-35 | On a branch other than RELEASE_BRANCH (default master), the run exits right after `rev-parse`, naming both branches. |
| Preflight.PassesOnlyOnReleaseBranch | scripts/release.py:31-35 | A passing preflight implies the current branch is the release branch. |
| Preflight.NoUpstreamPasses | scripts/release.py:38-44 | On the release branch, with no upstream, the gate passes after the probe, without fetching. |
| Preflight.UpstreamFetchesThenSyncs | scripts/release.py:44-51 | With an upstream, a fetch follows, whose failure is ignored, and then the sync. |
| Preflight.NoFastForwardUnlessOnlyBehind | scripts/release.py:51-59 | Unless the branch is behind and not ahead, nothing is pulled, and the gate is fatal exactly when behind. |
| Preflight.FastForwardOnceWhenOnlyBehind | scripts/release.py:53-59 | When only behind, exactly one fast-forward and one recount happen, and the gate is fatal exactly when still behind after it. |
| Preflight.FailedFastForwardIsFatal | scripts/release.py:53-55 | A failing `pull --ff-only` ends the run with that command's failure, and it is not retried. |
| SemVer.MatchExact | scripts/release.py:78 | A match splits the string into three non-empty digit runs joined by dots. |
| SemVer.MatchExactComplete | scripts/release.py:78 | Every three-digit-run string matches, with exactly those groups. |
| SemVer.MatchExactIff | scripts/release.py:78 | Matching without the trailing-newline allowance holds exactly for three dot-separated digit runs. |
| SemVer.MatchSemVerIff | scripts/release.py:78 | `SEMVER_RE.match` gives groups g exactly for the dotted g, or the dotted g followed by one line feed (the `$` rule). |
| SemVer.MatchSemVerShape | scripts/release.py:78 | `SEMVER_RE` accepts exactly three dot-separated digit runs, optionally followed by one line feed. |
| SemVer.ParseVersion | scripts/release.py:112-115 | A version triple is read exactly when the regex matches. |
| SemVer.ShowParses | scripts/release.py:125 | A rendered version matches `SEMVER_RE` with canonical groups and parses back to the same triple. |
| SemVer.ValidateVersion | scripts/release.py:81-84 | The version is returned unchanged exactly when it is three digit runs, optionally followed by a line feed. Otherwise the run exits with the "Invalid VERSION" message. |
| SemVer.ValidateVersionRejects | scripts/release.py:81-84 | "1.2", "v1.2.3" and "1.2.3-rc1" are rejected. |
| SemVer.BumpVersion | scripts/release.py:111-125 | The bump succeeds exactly when the current version parses; otherwise it exits with the "Cannot parse" message. A major bump gives (M+1,0,0), a minor one (M,m+1,0), and any other bump string (M,m,p+1). |
| SemVer.Bumped | scripts/release.py:116-124 | The bumped triple is strictly greater, in lexicographic order. |
| SemVer.BumpResultIsCanonicalAndGreater | scripts/release.py:111-125 | A bumped version matches `SEMVER_RE`, has no leading zeros in any group, and is strictly greater than the current one. |
| SemVer.LeadingZerosAccepted | scripts/release.py:111-125 | "01.02.03" is a valid version, and its patch bump is printed as "1.2.4". |
| BumpChoice.BumpNamed | scripts/release.py:106-108 | A name denotes a kind exactly when it is major, minor or patch, and the kind's name is that name. |
| BumpChoice.ChooseBump | scripts/release.py:87-108 | A non-blank BUMP succeeds exactly when it is one of the three kinds; otherwise it exits. Blank BUMP off a terminal gives patch. On a terminal, the stripped, lower-cased answer picks m/major, n/minor or ""/p/patch; any other answer exits, naming it. |
| BumpChoice.AnswerChoice | scripts/release.py:96-103 | An answer is accepted exactly when it is one of the seven accepted answers, and it names the bump the prompt promises. |
| ReleaseNotes.Survivors | scripts/release.py:151-158 | A subject survives exactly when it is in the log, is not blank and is not maintenance. |
| ReleaseNotes.SurvivorsAppend | scripts/release.py:151-158 | Filtering commutes with concatenation, so survivors keep their log order. |
| ReleaseNotes.Notes | scripts/release.py:158-161 | There is one "- " note per survivor, in order, or the single placeholder note when nothing survives. |
| ReleaseNotes.NotesHaveNoBreaks | scripts/release.py:158-161 | Notes built from single-line subjects are single lines. |
| ReleaseNotes.NotesFromLog | scripts/release.py:150-161 | The notes for a log are non-empty, and each is a single line starting with "- ". |
| ReleaseNotes.ExclusionExample | scripts/release.py:153-160 | Of a fix, a chore, a PR merge, a changelog commit and a feature, only the fix and the feature become notes. |
| ReleaseNotes.ExclusionIgnoresCase | scripts/release.py:157 | "CHORE:", lower-case "merge" and a long-s spelling of "docs(changelog)" are excluded; "chores are done" is kept. |
| ReleaseNotes.NotMaintenance | scripts/release.py:157 | A subject starting with "f" is never excluded. |
| Changelog.DropTitle | scripts/release.py:175-179 | At most two leading lines are dropped. The first goes exactly when its lstrip starts with "# Changelog", and the second exactly when it also goes and is blank. |
| Changelog.UpdateChangelog | scripts/release.py:164-181 | The written text ends in a line feed. |
| Changelog.UpdateChangelogLines | scripts/release.py:164-181 | The file's lines are the title, a blank, the dated header, a blank, "### Changed", the notes and a blank, followed by the old lines minus an old title and one blank after it. |
| Changelog.UpdateKeepsSingleTitle | scripts/release.py:164-181 | If the old file has no title below its first line, the new file has the title on its first line and nowhere else. |
| Changelog.UpdateTwiceSingleTitle | scripts/release.py:164-181 | Two releases in a row, from no changelog, leave exactly one title, on the first line. |
| Changelog.UpdateStacksEntries | scripts/release.py:164-181 | A second release puts its entry above the first one's, which loses only its title and blank line. |
| Changelog.ExtractReleaseNotes | scripts/release.py:184-196 | The extracted notes are empty or have no whitespace at either end. |
| Changelog.NextHeading | scripts/release.py:189-191 | This is the index of the first "## " line, or the end when there is none. |
| Changelog.FirstMatch | scripts/release.py:189-192 | This is the index of the first "## " line that names the version, or the end when there is none. |
| Changelog.ScanInSection | scripts/release.py:188-195 | Inside the section, the scan collects exactly the lines before the next "## " line. |
| Changelog.ScanSeeks | scripts/release.py:188-195 | The section collected is the lines after the first matching header, up to the next header, or nothing when no header matches. |
| Changelog.WrittenHeadingMatches | scripts/release.py:168 | The header `update_changelog` writes for a version opens that version's section. |
| Changelog.OtherHeadingDoesNotMatch | scripts/release.py:192 | A header for another version without spaces does not open the section. |
| Changelog.LongerPatchIsAnotherSection | scripts/release.py:192 | "## 1.2.30 (...)" does not open the section of 1.2.3. |
| Changelog.UpdateThenExtract | scripts/release.py:164-196 | After writing a version's entry above a file that starts with a "## " header, or is empty, extraction gives "### Changed" and the written notes. |
| Changelog.HeaderVersion | scripts/release.py:72 | A version found on a line comes from a "##" line and is three digit runs. |
| Changelog.HeaderVersionAt | scripts/release.py:72 | A found version sits right after "##" and a run of at least one whitespace, and is followed by a non-word character or the end of the line. |
| Changelog.HeaderVersionAfterSpaces | scripts/release.py:72 | "##", any non-empty whitespace run, a version and then nothing or a non-word character yields that version. |
| Changelog.HeaderVersionNeedsSpace | scripts/release.py:72 | "##" directly followed by a version is not a header. |
| Changelog.LeadingVersion | scripts/release.py:72 | The version found is a prefix of three digit runs, followed by the end or a non-word character (`\b`). |
| Changelog.LeadingVersionOf | scripts/release.py:72 | A dotted version followed by the end or a non-word character is found, and in full. |
| Changelog.HeaderVersionOfSection | scripts/release.py:72 | The header written for a version yields that version back. |
| Changelog.FirstHeaderVersion | scripts/release.py:71-74 | A version found comes from a line the header pattern matches, and no version is found exactly when no line matches. |
| Changelog.FirstHeaderAt | scripts/release.py:71-74 | When line k matches and no earlier line does, the version found is line k's: the loop returns at the first match, and later matching lines are never read. |
| Changelog.UpdateThenFallback | scripts/release.py:62-75 | After a release writes version V, the changelog fallback reads V back. |
| Versioning.DropV | scripts/release.py:65 | A leading "v" is removed exactly once. A tag without one is kept. |
| Versioning.DropOneV | scripts/release.py:65 | "v1.2.3" gives "1.2.3", "vv1.2.3" gives "v1.2.3", and "1.2.3" is unchanged. |
| Versioning.ChangelogVersion | scripts/release.py:68-75 | The fallback is always three digit runs. With no file it is "0.0.0"; otherwise it is the first header version, or "0.0.0". |
| Versioning.CurrentVersion | scripts/release.py:62-75 | Only `git describe` is issued, and the step never fails. A tag gives the tag without its "v"; otherwise the changelog fallback applies. |
| Versioning.UntaggedVersionBumps | scripts/release.py:62-75 | Without a tag, the current version can always be bumped. |
| Versioning.UntaggedVersionIsLastWritten | scripts/release.py:62-75 | Without a tag, the current version is the one the last release wrote into the changelog. |
| Versioning.FirstReleaseIsPatchOne | scripts/release.py:75 | With no tag and no changelog, the current version is 0.0.0, and its patch bump is 0.0.1. |
| Versioning.ResolveNewVersion | scripts/release.py:235-240 | Every failure is a `sys.exit`. A non-blank VERSION succeeds exactly when its strip is three digit runs, and is then used as stripped. Otherwise resolution succeeds exactly when a bump is chosen and the current version parses, and the new version is `bump_version` of the current one with the chosen kind. |
| Versioning.UnattendedFirstReleaseIsPatchOne | scripts/release.py:235-240 | With no tag, no changelog, VERSION and BUMP unset and no terminal, the new version is 0.0.1. |
| Versioning.OverrideBypassesBump | scripts/release.py:235-237 | With a non-blank VERSION, the current version, BUMP, the terminal and the answer make no difference. |
| Versioning.ResolvedIsSemVer | scripts/release.py:235-240 | A resolved new version is exactly three digit runs; the stripping before validation keeps the line-feed allowance out. |
| Versioning.BumpedIsGreater | scripts/release.py:238-240 | Without an override, the new version is strictly greater than the current one. |
| Publish.CommitAllChanges | scripts/release.py:128-139 | Committing outstanding work only grows the trace and creates no tag. |
| Publish.CleanTreeCommitsNothing | scripts/release.py:128-139 | With nothing unstaged or staged, only the two `git diff --quiet` probes are issued. |
| Publish.DirtyTreeIsCommitted | scripts/release.py:128-139 | With any change, `git add -A` and the commit follow. The step succeeds exactly when the commit does. |
| Publish.CollectNotes | scripts/release.py:142-161 | Collecting notes creates no tag. The notes are non-empty single lines starting with "- ". On success the last command issued is a `git log` of subjects, and the notes are made from its stripped output. |
| Publish.NotesSinceTag | scripts/release.py:143-150 | With a tag, the notes are those of the subjects logged in `<tag>..HEAD`. |
| Publish.NotesSinceRoot | scripts/release.py:146-150 | Without a tag, the log covers `<root>..HEAD`. |
| Publish.PushBranch | scripts/release.py:199-205 | Pushing only grows the trace and creates no tag. |
| Publish.PushWithUpstream | scripts/release.py:199-203 | With an upstream and a working push, exactly the probe and `git push` are issued. |
| Publish.PushWithoutUpstream | scripts/release.py:204-205 | Without an upstream, `git push -u origin HEAD` is issued, and the step succeeds exactly when it does. |
| Publish.FailedPushRetriesWithUpstream | scripts/release.py:201-205 | A failing plain push is followed by `git push -u origin HEAD`. |
| Publish.TagAndPush | scripts/release.py:257-263 | Tagging only grows the trace. |
| Publish.TagAndPushKeepsGuard | scripts/release.py:259-262 | Tagging keeps the guard: a `git tag -a T` always comes right after a `git tag --list T` that succeeded and did not print T. |
| Publish.TagCreateGuarded | scripts/release.py:259-262 | Listing a tag that is absent and then creating it keeps the guard. |
| Publish.ExistingTagStops | scripts/release.py:259-261 | An existing tag stops the run with "already exists" right after the listing, before any `git tag -a`. |
| Publish.NewTagIsCreated | scripts/release.py:259-263 | An absent tag is listed, created and pushed with `--follow-tags`, in that order. |
| Publish.PublishedNotes | scripts/release.py:210 | The release notes are never empty: the extracted section, or "Release V" when it is empty. |
| Publish.UpsertRelease | scripts/release.py:208-221 | Publishing only grows the trace and creates no tag. |
| Publish.UpsertEditsOrCreates | scripts/release.py:217-221 | A zero exit of `gh release view` leads to an edit; any other exit leads to a create, with the same title and notes file. |
| Release.Record | scripts/release.py:246-251 | Committing and writing the changelog create no tag. On success the outstanding work was committed, the notes are exactly what `collect_notes_since_last_tag` returned after that commit, the new changelog is `update_changelog` of those notes, and the changelog add and commit are the last commands. |
| Release.CommitChangelog | scripts/release.py:250-251 | A successful step issues exactly `git add CHANGELOG.md` and the "docs(changelog): V" commit. |
| Release.Ship | scripts/release.py:254-266 | A successful ship has created tag vV and published the extracted notes, or the default text. |
| Release.Finish | scripts/release.py:246-266 | After the version is known, a successful run keeps both versions. It writes the changelog from the notes `collect_notes_since_last_tag` returned after the preparatory commit, publishes that changelog's section and creates the tag. |
| Release.MissingDependencyIssuesNothing | scripts/release.py:230 | A missing git or gh exits before any command is issued. |
| Release.UnresolvedVersionChangesNothing | scripts/release.py:233-240 | A version that cannot be resolved stops the run after the preflight commands and `git describe`: nothing is committed, pushed or tagged. |
| Release.TagNeverRecreated | scripts/release.py:229-266 | In every run, whatever git answers, each `git tag -a T` comes right after a successful `git tag --list T` that did not print T. |
| Release.RunReleaseFinishes | scripts/release.py:229-240 | A successful run passed preflight, resolved a version, and then finished with it. |
| Release.FinishNotesAreLogged | scripts/release.py:245-248 | Once the version is known, the notes a successful run writes are the notes of the output of a `git log` of subjects that it issued. |
| Release.RecordedNotesAreLogged | scripts/release.py:245-248 | The notes a successful run writes are the notes of the output of a `git log` of subjects that the run issued. |
| Release.SuccessfulRunRecordsRelease | scripts/release.py:229-266 | After a successful run, the changelog fallback reads the new version back, the published notes are "### Changed" and the run's notes, and tag vV was created. |
| SetupEnv.FileLines | libs/setupenv.py:41-42 | Iterating a file gives non-empty lines. Each line holds no line feed except a final one, which every line but the last has. |
| SetupEnv.FileLinesConcat | libs/setupenv.py:41-42 | The lines of a file concatenate back to its text. |
| SetupEnv.Requirements | libs/setupenv.py:42 | There are no more entries than lines, and every entry is non-empty with no whitespace at either end. |
| SetupEnv.RequirementsMembers | libs/setupenv.py:42 | An entry is exactly the strip of a line that is not blank and whose raw text does not start with "#". |
| SetupEnv.RequirementsAppend | libs/setupenv.py:42 | Reading commutes with concatenation, so entries keep the file's order. |
| SetupEnv.EntriesAreStripped | libs/setupenv.py:42 | Every entry is non-empty and already stripped. |
| SetupEnv.CommentDropped | libs/setupenv.py:42 | A line whose raw text starts with "#" is dropped. |
| SetupEnv.BlankDropped | libs/setupenv.py:42 | A blank line is dropped. |
| SetupEnv.IndentedHashKept | libs/setupenv.py:42 | An indented "  # x" line is kept, as "# x". |
| SetupEnv.ReadLineByLine | libs/setupenv.py:41-42 | A file is read one line at a time: its first line contributes its own entry, if any, in front of the rest. |
| SetupEnv.ReadRequirementsFile | libs/setupenv.py:38-42 | A missing file raises "Requirements file '...' not found."; otherwise the result is the entries of its lines. |
| SetupEnv.LoadPackages | libs/setupenv.py:78-87 | The list is the additional packages alone when the path is `Path("")` or the file is missing; otherwise the file's entries come first. Order and duplicates are kept. |
| SetupEnv.PackagesKeepEveryAddition | libs/setupenv.py:87 | The additional packages always end the list, in order. |
| SetupEnv.InstallAndImport | libs/setupenv.py:45-56 | An importable package issues nothing. A missing one issues `pip install <package>`, preceded by the pip upgrade when pip was not yet upgraded. The upgraded flag is then set. |
| SetupEnv.InstallAll | libs/setupenv.py:93-94 | Only the pip upgrade and installs of listed packages are issued. The upgrade comes at most once, first, and only when pip was not upgraded before. A flag once set stays set. A run that ends with the flag down issued nothing, and one that raised the flag issued something. |
| SetupEnv.UpgradeImmediatelyBeforeFirstInstall | libs/setupenv.py:51-56 | Starting with pip not upgraded, a successful run that issues anything issues the pip upgrade first and an install immediately after it. |
| SetupEnv.ImportableInstallsNothing | libs/setupenv.py:47-48 | When every package imports, no pip command is issued, and the upgraded flag is unchanged. |
| SetupEnv.Setup | libs/setupenv.py:78-94 | Within a virtual environment, setup issues only installs of loaded packages, plus at most one pip upgrade, as its first command and only when the module flag was down. The flag comes back raised exactly when it was raised before or a command was issued. |
| SetupEnv.SetupTwiceUpgradesOnce | libs/setupenv.py:52-54 | `_pip_updated` is a module global, so two calls in one process, the second seeing the flag the first left, upgrade pip at most once between them, as the very first command. |

## Left out

- Processes, git and gh are the `Host` oracle. Their standard error is merged into the captured output, as `run` does. The model cannot predict their effects on the repository.
- File contents are parameters: `CHANGELOG.md` as it stands after preflight, and the requirements file as text after universal-newline translation. The UTF-8 decoding, and writing the new changelog (returned as text instead), are not modelled.
- The effect of preflight's `git pull --ff-only` on CHANGELOG.md is not modelled (the pull at scripts/release.py:53-55, the read at scripts/release.py:69-71). The changelog parameter is the file as it stands after the pull, and nothing ties it to the host's replies.
- The temporary notes file is left out: its name is the `notesPath` parameter, and its creation, writing and deletion are not modelled (scripts/release.py:211-226).
- Turning an uncaught exception into an exit status is left out (scripts/release.py:270-276).
- `date.today()`, the terminal test and `input()` are parameters.
- Progress printing in `release.py` and all debug printing in `setupenv.py` are left out.
- `executed_in_virtualenv`, `create_virtualenv`, `activate_virtualenv`, `shutil.rmtree` and `os.execv` are left out (libs/setupenv.py:16-35, 70-76). This is environment plumbing. `SetupEnv.Setup` models only the run inside the virtual environment.
- `importlib.import_module` is the `importable` oracle, and `sys.executable` is a parameter.
- sample.py is not part of this model: it only calls `setup` with fixed arguments.
- SemVer.MatchExact: `\d` is taken as the ASCII digits. Python's `\d` and `int()` also accept other Unicode decimal digits, which the model rejects.
- Changelog.LeadingVersion: `\b` uses ASCII letters, digits and `_` as word characters. Python's `\w` is wider (all Unicode letters and digits).
- Preflight.ParseCounts: it accepts exactly two ASCII digit fields and otherwise stops with a `Crash`. Python's `int()` also takes a sign, underscores and non-ASCII digits. Its contract is weaker than its body: it states only the field count and the kind of failure, and `Preflight.ParseCountsOfOutput` covers the output git actually prints.
- Text.Lower: it lower-cases ASCII letters only, one character for one. Python's `lower()` also lower-cases other letters and can lengthen a string ("İ" becomes two characters), so "same length" holds for the model, not for Python.
- BumpChoice.ChooseBump: `lower()` is ASCII only. No non-ASCII character lower-cases to one of the accepted answers, so the accepted set is the same. The "Unknown choice" message shows an answer with non-ASCII capitals unchanged, where Python lower-cases them.
- Changelog.UpdateChangelog: its own contract states only the trailing line feed. The content is stated by `Changelog.UpdateChangelogLines`, and the title and section properties by the lemmas after it.
- Changelog.ExtractReleaseNotes: its own contract states only that the result is stripped. What it extracts is stated by `Changelog.ScanSeeks` and `Changelog.UpdateThenExtract`.
- Publish.TagAndPush: its own contract states only that the trace grows. The tag guard is `Publish.TagAndPushKeepsGuard`, and the two outcomes are `Publish.ExistingTagStops` and `Publish.NewTagIsCreated`.
- Release.RunRelease has no contract of its own. Its properties are the `Release` lemmas.
