/** Choosing the kind of version bump: `choose_bump` (scripts/release.py).

The environment variable, whether both standard streams are terminals, and the line
the user types at the prompt are all parameters.
 */
module BumpChoice {
  import opened Outcomes
  import opened Text

  datatype Bump = Major | Minor | Patch {
    /** The string `choose_bump` returns for this kind. */
    function Name(): string {
      match this
      case Major => "major"
      case Minor => "minor"
      case Patch => "patch"
    }
  }

  /** The three strings `BUMP` may hold. */
  const BumpNames: set<string> := {"major", "minor", "patch"}

  /** The answers the interactive prompt accepts (after stripping and lower-casing). */
  const Answers: map<string, Bump> :=
    map["m" := Major, "major" := Major, "n" := Minor, "minor" := Minor, "" := Patch, "p" := Patch, "patch" := Patch]

  const BadBumpMessage: string := "BUMP must be one of: major, minor, patch"

  /** The kind named by `name`, if it names one. */
  function BumpNamed(name: string): (r: Option<Bump>)
    ensures r.Some? <==> name in BumpNames
    ensures r.Some? ==> r.value.Name() == name
  {
    if name == "major" then Some(Major)
    else if name == "minor" then Some(Minor)
    else if name == "patch" then Some(Patch)
    else None
  }

  /** `choose_bump()`. `bumpEnv` is `BUMP` (None when unset), `interactive` says whether
      stdin and stdout are both terminals, `typed` is the line `input()` returns at the
      prompt (None when it raises EOFError).

      Lower-casing is ASCII-only here. Python's `lower()` also lower-cases other
      letters, but no non-ASCII character lower-cases to exactly one ASCII letter that
      occurs in an accepted answer, so the set of accepted answers is the same. */
  function ChooseBump(bumpEnv: Option<string>, interactive: bool, typed: Option<string>): (r: Outcome<Bump>)
    ensures var b := Strip(bumpEnv.GetOr(""));
      && (b != "" ==> (r.Ok? <==> b in BumpNames))
      && (b != "" && r.Ok? ==> r.value.Name() == b)
      && (b != "" && r.Fatal? ==> r.halt == Exit(BadBumpMessage))
      && (b == "" && !interactive ==> r == Ok(Patch))
    ensures var b := Strip(bumpEnv.GetOr(""));
      var ans := Lower(Strip(typed.GetOr("")));
      b == "" && interactive ==>
        && (r.Ok? <==> ans in Answers)
        && (r.Ok? ==> r.value == Answers[ans])
        && (r.Fatal? ==> r.halt == Exit("Unknown choice '" + ans + "'"))
  {
    var bump := Strip(bumpEnv.GetOr(""));
    var chosen: Outcome<string> :=
      if bump != "" then Ok(bump)
      else if interactive then AnswerChoice(Lower(Strip(typed.GetOr(""))))
      else Ok("patch");
    match chosen
    case Fatal(h) => Fatal(h)
    case Ok(name) =>
      match BumpNamed(name)
      case Some(k) => Ok(k)
      case None => Fatal(Exit(BadBumpMessage))
  }

  /** The prompt's answer, already stripped and lower-cased, as a bump name. */
  function AnswerChoice(ans: string): (r: Outcome<string>)
    ensures r.Ok? <==> ans in Answers
    ensures r.Ok? ==> BumpNamed(r.value) == Some(Answers[ans])
    ensures r.Fatal? ==> r.halt == Exit("Unknown choice '" + ans + "'")
  {
    if ans == "m" || ans == "major" then Ok("major")
    else if ans == "n" || ans == "minor" then Ok("minor")
    else if ans == "" || ans == "p" || ans == "patch" then Ok("patch")
    else Fatal(Exit("Unknown choice '" + ans + "'"))
  }
}
