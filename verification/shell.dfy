/** Running external commands: the `run` helper of scripts/release.py and the bare
`subprocess.run(...).returncode` probes.

Git and the GitHub CLI are not modelled; a `Host` answers every command instead. Its
answer may depend on everything issued before, so a host can play any repository
state. Every command issued is appended to a trace, and properties of the script
are stated about that trace.
 */
module Shell {
  import opened Outcomes
  import opened Text

  type Argv = seq<string>

  /** What a finished command gives back: its exit status and its output (standard
      error merged into standard output, as `run(capture=True)` asks). */
  datatype Reply = Reply(code: int, out: string)

  /** The world outside the script: the reply to each command given the commands
      issued before it, and whether a program is found on `PATH`. */
  datatype Host = Host(answer: (seq<Argv>, Argv) -> Reply, onPath: string -> bool)

  /** The commands issued so far and the outcome of a step. */
  datatype Step<+T> = Step(trace: seq<Argv>, result: Outcome<T>)

  /** `run(cmd, check, capture)`: issue `argv`. With `check`, a nonzero exit raises
      `CalledProcessError`, a failure naming the command; otherwise the result is the
      stripped output when captured and "" when not. */
  function Run(h: Host, trace: seq<Argv>, argv: Argv, check: bool, capture: bool): (s: Step<string>)
    ensures s.trace == trace + [argv]
  {
    var reply := h.answer(trace, argv);
    var next := trace + [argv];
    if check && reply.code != 0 then Step(next, Fatal(CommandFailed(argv, reply.code)))
    else if capture then Step(next, Ok(Strip(reply.out)))
    else Step(next, Ok(""))
  }

  /** `subprocess.run(argv).returncode`: issue `argv` and keep only its exit status. */
  function ExitStatus(h: Host, trace: seq<Argv>, argv: Argv): (s: Step<int>)
    ensures s.trace == trace + [argv]
    ensures s.result == Ok(h.answer(trace, argv).code)
  {
    Step(trace + [argv], Ok(h.answer(trace, argv).code))
  }

  /** `after` is `before` with more commands issued. */
  predicate Grows(before: seq<Argv>, after: seq<Argv>) {
    |before| <= |after| && after[..|before|] == before
  }

  lemma GrowsTrans(a: seq<Argv>, b: seq<Argv>, c: seq<Argv>)
    requires Grows(a, b) && Grows(b, c)
    ensures Grows(a, c)
  {
    assert c[..|a|] == c[..|b|][..|a|];
  }

  /** `check` only turns a nonzero exit status, as the bare probe reports it, into a
      failure naming the command: an unchecked run never fails, and a checked one that
      succeeds gives what the unchecked one gives. */
  lemma CheckFailsExactlyOnNonzeroStatus(h: Host, trace: seq<Argv>, argv: Argv, capture: bool)
    ensures var status := ExitStatus(h, trace, argv).result.value;
      && (Run(h, trace, argv, true, capture).result.Fatal? <==> status != 0)
      && (Run(h, trace, argv, true, capture).result.Fatal? ==>
            Run(h, trace, argv, true, capture).result.halt == CommandFailed(argv, status))
    ensures Run(h, trace, argv, false, capture).result.Ok?
    ensures Run(h, trace, argv, true, capture).result.Ok? ==>
      Run(h, trace, argv, true, capture) == Run(h, trace, argv, false, capture)
  {
  }

  /** A captured output never has spaces at either end, so stripping it again changes
      nothing. */
  lemma CapturedIsStripped(h: Host, trace: seq<Argv>, argv: Argv, check: bool)
    requires Run(h, trace, argv, check, true).result.Ok?
    ensures var v := Run(h, trace, argv, check, true).result.value; Strip(v) == v
  {
    var v := Run(h, trace, argv, check, true).result.value;
    StripOfTrimmed(v);
  }
}
