/** What the unprivileged side concludes from a finished helper process. */
module Verdict {
  import opened Text

  const EXIT_SUCCESS: int := 0
  const EXIT_FAILED: int := 1
  const EXIT_USAGE: int := 2
  const EXIT_CANCELLED: int := 3
  const PKEXEC_DISMISSED: int := 126

  datatype HelperRun = HelperRun(
    crashed: bool,
    exitCode: int,
    sawVersion: bool,
    versionAccepted: bool,
    killRequested: bool,
    location: Text)

  /** Wording is not modelled, only whether there is any. */
  datatype HelperVerdict = Succeeded | Cancelled | Failed(explained: bool)

  /** Whether an exit code comes with an explanation. */
  predicate ExitIsExplained(exitCode: int)
  {
    exitCode != EXIT_SUCCESS && exitCode != EXIT_CANCELLED
  }

  function JudgeHelperRun(run: HelperRun): HelperVerdict
  {
    if run.killRequested && !run.sawVersion && (run.crashed || run.exitCode == PKEXEC_DISMISSED) then Cancelled
    else if run.crashed then Failed(true)
    // The refusal has a text of its own, or else that of a usage error.
    else if run.sawVersion && !run.versionAccepted then Failed(ExitIsExplained(EXIT_USAGE))
    else if !run.sawVersion then
      var claimsFinished := run.exitCode == EXIT_SUCCESS || run.exitCode == EXIT_CANCELLED;
      Failed(ExitIsExplained(if claimsFinished then EXIT_USAGE else run.exitCode))
    else if run.exitCode == EXIT_CANCELLED then Cancelled
    else if run.exitCode != EXIT_SUCCESS then Failed(ExitIsExplained(run.exitCode))
    else if run.location == [] then Failed(true)
    else Succeeded
  }

  /** A failure always says something, so it is never taken for a cancellation. */
  lemma FailuresAreExplained(run: HelperRun)
    ensures JudgeHelperRun(run).Failed? ==> JudgeHelperRun(run).explained
  {}

  /** A helper that was seen and refused is never believed, and a silent one only if it was killed. */
  lemma OnlyAcceptedHelpersAreBelieved(run: HelperRun)
    ensures JudgeHelperRun(run) == Succeeded <==>
              !run.crashed && run.sawVersion && run.versionAccepted && run.exitCode == EXIT_SUCCESS && run.location != []
    ensures JudgeHelperRun(run) == Cancelled <==>
              || (!run.crashed && run.sawVersion && run.versionAccepted && run.exitCode == EXIT_CANCELLED)
              || (run.killRequested && !run.sawVersion && (run.crashed || run.exitCode == PKEXEC_DISMISSED))
  {}

  // ----- the worker -----

  datatype WorkerOutcome = Finished | WasCancelled | HasFailed

  /** How a backend's answer is read: no text and a wish to stop make a cancellation of a failure. */
  function ConcludeRestore(restored: bool, cancelRequested: bool, errorIsEmpty: bool): WorkerOutcome
  {
    if restored then Finished else if cancelRequested && errorIsEmpty then WasCancelled else HasFailed
  }

  /** What the worker makes of a verdict: a cancellation carries no text. */
  function ConcludeVerdict(verdict: HelperVerdict, cancelRequested: bool): WorkerOutcome
  {
    match verdict
    case Succeeded => ConcludeRestore(true, cancelRequested, true)
    case Cancelled => ConcludeRestore(false, cancelRequested, true)
    case Failed(explained) => ConcludeRestore(false, cancelRequested, !explained)
  }
}
