/** Failure-carrying result types shared by every module of the release tool.

The Python scripts stop in two ways: `sys.exit(message)` (a deliberate stop with a
diagnostic) and an uncaught `CalledProcessError` raised by a checked external command,
which the entry point reports as the failing command line. `Halt` keeps the two apart;
a third case covers a Python exception the scripts never catch (a malformed number,
a missing file).
 */
module Outcomes {

  datatype Option<+T> = None | Some(value: T) {
    function GetOr(default: T): T {
      match this
      case Some(v) => v
      case None => default
    }
  }

  /** Why a run stopped. */
  datatype Halt =
    | Exit(msg: string)                        // sys.exit(msg)
    | CommandFailed(argv: seq<string>, code: int) // CalledProcessError from a checked command
    | Crash(msg: string)                       // any other uncaught exception

  datatype Outcome<+T> = Ok(value: T) | Fatal(halt: Halt)
}
