/** The package-installation half of libs/setupenv.py: reading a requirements file,
assembling the package list in `setup`, and `install_and_import`, which upgrades pip
once per process before the first install.

The file system is a parameter: a requirements file is its text (None when the path
is not a regular file), already decoded with Python's universal newlines, so "\r\n"
and "\r" have become "\n". Whether a package imports is an oracle that may depend on
the pip commands issued so far, since installing one package can bring in another.
 */
module SetupEnv {
  import opened Outcomes
  import opened Text
  import opened Shell

  // ---- read_requirements_file ----

  /** Index just past the first line feed of `text`, or `|text|` when there is none. */
  function LineEnd(text: string): (n: nat)
    ensures n <= |text|
    ensures text != [] ==> n > 0
    ensures forall j :: 0 <= j < n - 1 ==> text[j] != '\n'
    ensures n < |text| ==> text[n - 1] == '\n'
  {
    if text == [] then 0
    else if text[0] == '\n' then 1
    else 1 + LineEnd(text[1..])
  }

  /** The flattening of a list of lines. */
  function Concat(lines: seq<string>): string {
    if lines == [] then [] else lines[0] + Concat(lines[1..])
  }

  /** `for line in f`: each line keeps its "\n"; a last line without one is kept too. */
  function FileLines(text: string): (r: seq<string>)
    ensures forall k :: 0 <= k < |r| ==> r[k] != []
    ensures forall k :: 0 <= k < |r| ==> forall j :: 0 <= j < |r[k]| - 1 ==> r[k][j] != '\n'
    ensures forall k :: 0 <= k < |r| - 1 ==> r[k][|r[k]| - 1] == '\n'
    decreases |text|
  {
    if text == [] then []
    else
      var n := LineEnd(text);
      var rest := FileLines(text[n..]);
      assert forall k :: 1 <= k < |[text[..n]] + rest| ==> ([text[..n]] + rest)[k] == rest[k - 1];
      [text[..n]] + rest
  }

  /** Reading by lines loses nothing: the lines put back together are the file. */
  lemma {:induction false} FileLinesConcat(text: string)
    ensures Concat(FileLines(text)) == text
    decreases |text|
  {
    if text != [] {
      var n := LineEnd(text);
      FileLinesConcat(text[n..]);
      assert ([text[..n]] + FileLines(text[n..]))[1..] == FileLines(text[n..]);
      assert text[..n] + text[n..] == text;
    }
  }

  /** The filter of line 42: a line counts when it is not blank once stripped and its
      raw text does not start with "#" (so an indented "  # x" counts, as "# x"). */
  predicate IsRequirement(line: string) {
    Strip(line) != [] && !StartsWith(line, "#")
  }

  /** No space at either end, and not empty: what `strip` leaves of a non-blank line. */
  predicate Trimmed(s: string) {
    s != [] && !IsSpace(s[0]) && !IsSpace(s[|s| - 1])
  }

  /** `[line.strip() for line in lines if line.strip() and not line.startswith("#")]` */
  function Requirements(lines: seq<string>): (r: seq<string>)
    ensures |r| <= |lines|
    ensures forall x :: x in r ==> Trimmed(x)
  {
    if lines == [] then []
    else
      var rest := Requirements(lines[1..]);
      if IsRequirement(lines[0]) then [Strip(lines[0])] + rest else rest
  }

  /** Entries are already stripped: stripping them again changes nothing. */
  lemma EntriesAreStripped(lines: seq<string>)
    ensures forall x :: x in Requirements(lines) ==> x != [] && Strip(x) == x
  {
    forall x | x in Requirements(lines) ensures Strip(x) == x {
      StripOfTrimmed(x);
    }
  }

  /** The filter keeps file order: it commutes with concatenation. */
  lemma {:induction false} RequirementsAppend(a: seq<string>, b: seq<string>)
    ensures Requirements(a + b) == Requirements(a) + Requirements(b)
    decreases |a|
  {
    if a == [] {
      assert a + b == b;
    } else {
      assert (a + b)[0] == a[0];
      assert (a + b)[1..] == a[1..] + b;
      RequirementsAppend(a[1..], b);
    }
  }

  /** An entry is the stripped text of some requirement line, and every requirement
      line yields its entry. */
  lemma {:induction false} RequirementsMembers(lines: seq<string>, x: string)
    ensures x in Requirements(lines) <==> exists k :: 0 <= k < |lines| && IsRequirement(lines[k]) && Strip(lines[k]) == x
    decreases |lines|
  {
    if lines != [] {
      RequirementsMembers(lines[1..], x);
      if x in Requirements(lines[1..]) {
        var k :| 0 <= k < |lines[1..]| && IsRequirement(lines[1..][k]) && Strip(lines[1..][k]) == x;
        assert lines[k + 1] == lines[1..][k];
      }
      if exists k :: 0 <= k < |lines| && IsRequirement(lines[k]) && Strip(lines[k]) == x {
        var k :| 0 <= k < |lines| && IsRequirement(lines[k]) && Strip(lines[k]) == x;
        if k > 0 {
          assert lines[1..][k - 1] == lines[k];
        }
      }
    }
  }

  function NotFoundMessage(path: string): string {
    "Requirements file '" + path + "' not found."
  }

  /** `read_requirements_file(path)`. `file` is the text of `path`, None when it is
      not a regular file, which raises `FileNotFoundError`. */
  function ReadRequirementsFile(path: string, file: Option<string>): (r: Outcome<seq<string>>)
    ensures file.None? <==> r.Fatal?
    ensures r.Fatal? ==> r.halt == Crash(NotFoundMessage(path))
    ensures r.Ok? ==> r.value == Requirements(FileLines(file.value))
  {
    match file
    case None => Fatal(Crash(NotFoundMessage(path)))
    case Some(text) => Ok(Requirements(FileLines(text)))
  }

  /** Reading a file line by line: the first line's entry, if any, comes first and
      the rest of the file follows in order. */
  lemma ReadLineByLine(line: string, rest: string)
    requires forall j :: 0 <= j < |line| ==> line[j] != '\n'
    ensures Requirements(FileLines(line + "\n" + rest))
         == (if IsRequirement(line + "\n") then [Strip(line + "\n")] else []) + Requirements(FileLines(rest))
  {
    LinesOfOne(line, rest);
    var lines := [line + "\n"] + FileLines(rest);
    assert lines[1..] == FileLines(rest);
  }

  /** A line whose raw text starts with "#" is a comment and is dropped. */
  lemma CommentDropped(line: string)
    requires StartsWith(line, "#")
    ensures !IsRequirement(line)
  {
  }

  /** A blank line is dropped. */
  lemma BlankDropped(line: string)
    requires AllSpace(line)
    ensures !IsRequirement(line)
  {
  }

  /** An indented "#" line is not a comment: it is kept, as the "#" text without the
      indentation and line ending. */
  lemma IndentedHashKept(indent: string, text: string)
    requires indent != [] && AllSpace(indent)
    requires Trimmed(text) && text[0] == '#'
    ensures IsRequirement(indent + text + "\n")
    ensures Strip(indent + text + "\n") == text
  {
    StripAround(indent, text, "\n");
    assert (indent + text + "\n")[0] == indent[0];
  }

  /** A line without a line feed, its line feed, then the rest of the file. */
  lemma LinesOfOne(line: string, rest: string)
    requires forall j :: 0 <= j < |line| ==> line[j] != '\n'
    ensures FileLines(line + "\n" + rest) == [line + "\n"] + FileLines(rest)
  {
    var text := line + "\n" + rest;
    LineEndAfter(line, rest);
    assert text[..|line| + 1] == line + "\n";
    assert text[|line| + 1..] == rest;
  }

  lemma {:induction false} LineEndAfter(line: string, rest: string)
    requires forall j :: 0 <= j < |line| ==> line[j] != '\n'
    ensures LineEnd(line + "\n" + rest) == |line| + 1
    decreases |line|
  {
    if line != [] {
      assert (line + "\n" + rest)[1..] == line[1..] + "\n" + rest;
      LineEndAfter(line[1..], rest);
    }
  }

  /** Spaces around a trimmed text are what `strip` removes. */
  lemma StripAround(pre: string, mid: string, post: string)
    requires AllSpace(pre) && AllSpace(post)
    requires mid != [] && !IsSpace(mid[0]) && !IsSpace(mid[|mid| - 1])
    ensures Strip(pre + mid + post) == mid
  {
    LStripAfterSpaces(pre, mid + post);
    assert pre + mid + post == pre + (mid + post);
    LStripUnique(mid + post, 0);
    RStripBeforeSpaces(mid, post);
    RStripUnique(mid, |mid|);
  }

  // ---- setup: the package list ----

  /** `requirements_path != Path("")` is false exactly for the paths `pathlib` reads
      as the current directory: "", ".", "./", "./." and the like, made of "." parts
      and slashes, not starting with a slash, with no ".." part. */
  predicate NamesCurrentDir(path: string) {
    && (path == [] || path[0] == '.')
    && (forall k :: 0 <= k < |path| ==> path[k] == '.' || path[k] == '/')
    && (forall k :: 0 <= k < |path| - 1 ==> !(path[k] == '.' && path[k + 1] == '.'))
  }

  /** Lines 78-87: the requirements (none when the path is the empty path or the file
      is missing, which is reported and otherwise ignored), then the additional
      packages, in order and without removing duplicates. */
  function LoadPackages(requirementsPath: string, file: Option<string>, additional: seq<string>): (r: seq<string>)
    ensures NamesCurrentDir(requirementsPath) || file.None? ==> r == additional
    ensures !NamesCurrentDir(requirementsPath) && file.Some? ==>
      r == Requirements(FileLines(file.value)) + additional
  {
    var fromFile :=
      if NamesCurrentDir(requirementsPath) then []
      else match ReadRequirementsFile(requirementsPath, file)
        case Ok(lines) => lines
        case Fatal(_) => [];
    fromFile + additional
  }

  /** Every package listed is installed-or-imported: the list is the requirements
      followed by every additional package, a duplicate included. */
  lemma PackagesKeepEveryAddition(requirementsPath: string, file: Option<string>, additional: seq<string>)
    ensures var r := LoadPackages(requirementsPath, file, additional);
      |r| >= |additional| && r[|r| - |additional|..] == additional
  {
  }

  // ---- install_and_import ----

  function UpgradePip(python: string): Argv { [python, "-m", "pip", "install", "--upgrade", "pip"] }
  function PipInstall(python: string, package: string): Argv { [python, "-m", "pip", "install", package] }

  /** `pip install <package>` for some package of `packages`. */
  predicate InstallsOneOf(python: string, argv: Argv, packages: seq<string>) {
    exists k :: 0 <= k < |packages| && argv == PipInstall(python, packages[k])
  }

  /** `install_and_import(package)`. `importable(trace, p)` says whether
      `import_module(p)` succeeds after the pip commands in `trace`; `updated` is
      `_pip_updated` and the value is its new state. `check_call` raises on a nonzero
      exit, which nothing here catches. */
  function InstallAndImport(h: Host, importable: (seq<Argv>, string) -> bool, python: string,
                            updated: bool, trace: seq<Argv>, package: string): (s: Step<bool>)
    ensures Grows(trace, s.trace)
    ensures importable(trace, package) ==> s == Step(trace, Ok(updated))
    ensures !importable(trace, package) && updated ==>
      s.trace == trace + [PipInstall(python, package)]
    ensures !importable(trace, package) && !updated ==>
      s.trace == trace + [UpgradePip(python)] || s.trace == trace + [UpgradePip(python), PipInstall(python, package)]
    ensures !importable(trace, package) && !updated && s.result.Ok? ==>
      s.trace == trace + [UpgradePip(python), PipInstall(python, package)]
    ensures s.result.Ok? ==> (s.result.value <==> updated || !importable(trace, package))
  {
    if importable(trace, package) then Step(trace, Ok(updated))
    else
      var up := if updated then Step(trace, Ok("")) else Run(h, trace, UpgradePip(python), true, false);
      if up.result.Fatal? then Step(up.trace, Fatal(up.result.halt))
      else
        var inst := Run(h, up.trace, PipInstall(python, package), true, false);
        assert !updated ==> inst.trace == trace + [UpgradePip(python), PipInstall(python, package)];
        Step(inst.trace, if inst.result.Fatal? then Fatal(inst.result.halt) else Ok(true))
  }

  /** Lines 93-94: `install_and_import` for each package in turn. */
  function InstallAll(h: Host, importable: (seq<Argv>, string) -> bool, python: string,
                      updated: bool, trace: seq<Argv>, packages: seq<string>): (s: Step<bool>)
    ensures Grows(trace, s.trace)
    ensures forall k :: |trace| <= k < |s.trace| ==>
      s.trace[k] == UpgradePip(python) || InstallsOneOf(python, s.trace[k], packages)
    ensures forall k :: |trace| <= k < |s.trace| && s.trace[k] == UpgradePip(python) ==> !updated && k == |trace|
    ensures updated && s.result.Ok? ==> s.result.value
    ensures s.result.Ok? && !s.result.value ==> s.trace == trace
    ensures s.result.Ok? && s.result.value && !updated ==> |s.trace| > |trace|
    decreases |packages|
  {
    if packages == [] then Step(trace, Ok(updated))
    else
      var first := InstallAndImport(h, importable, python, updated, trace, packages[0]);
      match first.result
      case Fatal(e) => Step(first.trace, Fatal(e))
      case Ok(now) =>
        var rest := InstallAll(h, importable, python, now, first.trace, packages[1..]);
        GrowsTrans(trace, first.trace, rest.trace);
        RestInstallsOneOf(python, packages, rest.trace, |first.trace|);
        UpgradeOnlyFirst(python, updated, now, trace, first.trace, rest.trace);
        rest
  }

  /** Commands for the tail of the list are commands for the list. */
  lemma RestInstallsOneOf(python: string, packages: seq<string>, t: seq<Argv>, from: nat)
    requires packages != []
    requires forall k :: from <= k < |t| ==> t[k] == UpgradePip(python) || InstallsOneOf(python, t[k], packages[1..])
    ensures forall k :: from <= k < |t| ==> t[k] == UpgradePip(python) || InstallsOneOf(python, t[k], packages)
  {
    forall k | from <= k < |t| && t[k] != UpgradePip(python)
      ensures InstallsOneOf(python, t[k], packages)
    {
      var j :| 0 <= j < |packages[1..]| && t[k] == PipInstall(python, packages[1..][j]);
      assert packages[1..][j] == packages[j + 1];
    }
  }

  /** Once the flag is set no later upgrade is issued, and the only upgrade is the
      first command of the run. */
  lemma UpgradeOnlyFirst(python: string, updated: bool, now: bool, t0: seq<Argv>, t1: seq<Argv>, t2: seq<Argv>)
    requires Grows(t0, t1) && Grows(t1, t2)
    requires forall k :: |t0| <= k < |t1| && t1[k] == UpgradePip(python) ==> !updated && k == |t0|
    requires forall k :: |t1| <= k < |t2| && t2[k] == UpgradePip(python) ==> !now && k == |t1|
    requires now || t1 == t0
    requires updated ==> now
    ensures forall k :: |t0| <= k < |t2| && t2[k] == UpgradePip(python) ==> !updated && k == |t0|
  {
    forall k | |t0| <= k < |t2| && t2[k] == UpgradePip(python)
      ensures !updated && k == |t0|
    {
      if k < |t1| {
        assert t2[k] == t2[..|t1|][k];
      } else {
        assert !now && k == |t1|;
      }
    }
  }

  /** Starting with the flag clear, a run that issues anything and succeeds begins with
      the one pip upgrade, immediately followed by the first install. */
  lemma {:induction false} UpgradeImmediatelyBeforeFirstInstall(h: Host, importable: (seq<Argv>, string) -> bool, python: string,
                                                                trace: seq<Argv>, packages: seq<string>)
    requires InstallAll(h, importable, python, false, trace, packages).result.Ok?
    requires |InstallAll(h, importable, python, false, trace, packages).trace| > |trace|
    ensures var t := InstallAll(h, importable, python, false, trace, packages).trace;
      && |t| > |trace| + 1
      && t[|trace|] == UpgradePip(python)
      && InstallsOneOf(python, t[|trace| + 1], packages)
    decreases |packages|
  {
    var t := InstallAll(h, importable, python, false, trace, packages).trace;
    assert packages != [];
    var first := InstallAndImport(h, importable, python, false, trace, packages[0]);
    if importable(trace, packages[0]) {
      UpgradeImmediatelyBeforeFirstInstall(h, importable, python, trace, packages[1..]);
      var j :| 0 <= j < |packages[1..]| && t[|trace| + 1] == PipInstall(python, packages[1..][j]);
      assert packages[1..][j] == packages[j + 1];
    } else {
      var rest := InstallAll(h, importable, python, true, first.trace, packages[1..]);
      assert t == rest.trace;
      assert first.trace == trace + [UpgradePip(python), PipInstall(python, packages[0])];
      assert t[|trace|] == t[..|first.trace|][|trace|];
      assert t[|trace| + 1] == t[..|first.trace|][|trace| + 1];
    }
  }

  /** Packages that already import cause no pip command at all. */
  lemma {:induction false} ImportableInstallsNothing(h: Host, importable: (seq<Argv>, string) -> bool, python: string,
                                                     updated: bool, trace: seq<Argv>, packages: seq<string>)
    requires forall k :: 0 <= k < |packages| ==> importable(trace, packages[k])
    ensures InstallAll(h, importable, python, updated, trace, packages) == Step(trace, Ok(updated))
    decreases |packages|
  {
    if packages != [] {
      assert forall k :: 0 <= k < |packages[1..]| ==> packages[1..][k] == packages[k + 1];
      ImportableInstallsNothing(h, importable, python, updated, trace, packages[1..]);
    }
  }

  /** Lines 78-94, once inside the virtual environment: load the package list and
      install what does not import. `updated` is `_pip_updated` as the call finds it,
      `trace` the pip commands issued before, and the value is the flag as the call
      leaves it; the flag is a module global, so it outlives the call. */
  function Setup(h: Host, importable: (seq<Argv>, string) -> bool, python: string, updated: bool, trace: seq<Argv>,
                 requirementsPath: string, file: Option<string>, additional: seq<string>): (s: Step<bool>)
    ensures Grows(trace, s.trace)
    ensures forall k :: |trace| <= k < |s.trace| && s.trace[k] == UpgradePip(python) ==> !updated && k == |trace|
    ensures forall k :: |trace| <= k < |s.trace| ==>
      s.trace[k] == UpgradePip(python) || InstallsOneOf(python, s.trace[k], LoadPackages(requirementsPath, file, additional))
    ensures s.result.Ok? ==> (s.result.value <==> updated || |s.trace| > |trace|)
  {
    InstallAll(h, importable, python, updated, trace, LoadPackages(requirementsPath, file, additional))
  }

  /** Two `setup` calls in one process, the second finding the flag the first left:
      pip is upgraded at most once over both, as the very first command. */
  lemma SetupTwiceUpgradesOnce(h: Host, importable: (seq<Argv>, string) -> bool, python: string,
                               path1: string, file1: Option<string>, additional1: seq<string>,
                               path2: string, file2: Option<string>, additional2: seq<string>)
    requires Setup(h, importable, python, false, [], path1, file1, additional1).result.Ok?
    ensures var first := Setup(h, importable, python, false, [], path1, file1, additional1);
      var second := Setup(h, importable, python, first.result.value, first.trace, path2, file2, additional2);
      forall k :: 0 <= k < |second.trace| && second.trace[k] == UpgradePip(python) ==> k == 0
  {
    var first := Setup(h, importable, python, false, [], path1, file1, additional1);
    var second := Setup(h, importable, python, first.result.value, first.trace, path2, file2, additional2);
    forall k | 0 <= k < |second.trace| && second.trace[k] == UpgradePip(python)
      ensures k == 0
    {
      if k < |first.trace| {
        assert first.trace[k] == second.trace[..|first.trace|][k];
      }
    }
  }
}
