/**
 * `create_pdf_from_code`: how the outcome of running the generated program
 * as a child process is turned into the `(result, error)` pair, and whether
 * the temporary script file is removed on the way.
 *
 * Writing the script file, launching the interpreter, the 60-second
 * deadline and deleting the script are operating-system behaviour. The
 * outcome is therefore an input, in one of three forms. Either
 * `subprocess.run` returned and the script was deleted, or the run timed
 * out, or an exception was raised. The exception may come from writing the
 * script, from launching the child, or from `os.unlink`.
 */
module Executor {
  import opened Wrappers
  import opened Text

  /** How the child process run ended. */
  datatype ChildOutcome =
    | Exited(returncode: int, stdout: string, stderr: string)  // `subprocess.run` returned and the script was deleted
    | TimedOut                                                   // `subprocess.TimeoutExpired`
    | Raised(message: string)                                    // any other exception, `str(e)`

  /** What `subprocess.run` returns when it returns. */
  datatype CompletedProcess = CompletedProcess(returncode: int, stdout: string, stderr: string)

  /** The pair `(result, error)`, and whether the temporary script was deleted. */
  datatype Execution = Execution(result: Option<CompletedProcess>, error: Option<string>, tempRemoved: bool)

  const MissingModule: string := "ModuleNotFoundError"
  const InstallTip: string :=
    "\n\n\U{1F4A1} Tip: The code requires additional libraries. Please install them using: pip install reportlab Pillow"
  const TimeoutMessage: string := "PDF generation timed out. The code might be stuck in an infinite loop."
  const ErrorPrefix: string := "Error creating PDF: "

  /** The error text for a non-zero exit: the captured stderr, followed by the
      installation tip exactly when stderr names a missing module. */
  function ExitErrorMessage(stderr: string): (m: string)
    ensures |stderr| <= |m| && m[..|stderr|] == stderr
    ensures m == stderr || m == stderr + InstallTip
    ensures m == stderr + InstallTip <==> Contains(stderr, MissingModule)
  {
    if Contains(stderr, MissingModule) then stderr + InstallTip else stderr
  }

  /** The classification of the child's outcome. Exactly one of `result` and
      `error` is present; a result is present exactly on exit code zero; the
      temporary file is removed exactly when `subprocess.run` returned,
      whatever the exit code. */
  function CreatePdfFromCode(outcome: ChildOutcome): (r: Execution)
    ensures r.result.None? != r.error.None?
    ensures r.result.Some? <==> outcome.Exited? && outcome.returncode == 0
    ensures r.tempRemoved <==> outcome.Exited?
    ensures r.result.Some? ==> r.result.value == CompletedProcess(outcome.returncode, outcome.stdout, outcome.stderr)
    ensures outcome.Exited? && outcome.returncode != 0 ==> r.error == Some(ExitErrorMessage(outcome.stderr))
    ensures outcome.TimedOut? ==> r.error == Some(TimeoutMessage)
    ensures outcome.Raised? ==> r.error == Some(ErrorPrefix + outcome.message)
  {
    match outcome
    case Exited(code, out, err) =>
      if code != 0 then Execution(None, Some(ExitErrorMessage(err)), true)
      else Execution(Some(CompletedProcess(code, out, err)), None, true)
    case TimedOut =>
      Execution(None, Some(TimeoutMessage), false)
    case Raised(msg) =>
      Execution(None, Some(ErrorPrefix + msg), false)
  }
}
