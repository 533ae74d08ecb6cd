/** The worker that runs a restore for the user interface: it passes on a wish to stop,
    counts the steps, and says how it all ended. */
module RestoreWorker {
  import opened ErrorText
  import opened Verdict

  class RestoreWorker {
    const totalSteps: nat
    var step: nat
    // Set from the user interface at any time, and never taken back.
    var cancelRequested: bool
    // What it has said each time it was asked.
    ghost var answers: seq<bool>

    ghost predicate Valid()
      reads this
    {
      step <= totalSteps
    }

    constructor (totalSteps: nat)
      ensures Valid() && this.totalSteps == totalSteps && step == 0 && !cancelRequested && answers == []
    {
      this.totalSteps := totalSteps;
      step, cancelRequested, answers := 0, false, [];
    }

    method RequestCancel()
      modifies this`cancelRequested
      ensures cancelRequested
    {
      cancelRequested := true;
    }

    /** The user may have asked to stop since the last look. */
    method CancelRequested() returns (answer: bool)
      modifies this`cancelRequested, this`answers
      ensures answers == old(answers) + [answer]
      ensures answer == cancelRequested && (old(cancelRequested) ==> cancelRequested)
    {
      var pressed: bool := *;
      if pressed {
        RequestCancel();
      }
      answer := cancelRequested;
      answers := answers + [answer];
    }

    /** The progress shown for the next step, never past the last. */
    method Step() returns (progress: nat)
      requires Valid()
      modifies this`step
      ensures Valid() && progress == step == if old(step) < totalSteps then old(step) + 1 else totalSteps
    {
      step := if step + 1 < totalSteps then step + 1 else totalSteps;
      progress := step;
    }

    /** A failure is a cancellation if it has no text and the user has asked to stop, be it only by now. */
    method Conclude(restored: bool, error: ErrorText) returns (outcome: WorkerOutcome)
      modifies this`cancelRequested, this`answers
      ensures old(cancelRequested) ==> cancelRequested
      ensures outcome == ConcludeRestore(restored, cancelRequested, error.NoText?)
    {
      if restored {
        return Finished;
      }
      var asked := CancelRequested();
      if asked && error.NoText? {
        return WasCancelled;
      }
      return HasFailed;
    }
  }
}
