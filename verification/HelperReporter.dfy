/** What the root helper tells its caller and hears from it: numbered steps out, and a
    request to stop that may arrive in pieces. */
module HelperReporter {
  import opened Bytes
  import opened Text
  import opened RestorePlan
  import opened ProtocolLines

  // "cancel" and a newline, and the word alone
  const CANCEL_TOKEN: Text := [0x63, 0x61, 0x6E, 0x63, 0x65, 0x6C]
  const CANCEL_LINE: Text := [0x63, 0x61, 0x6E, 0x63, 0x65, 0x6C, 0x0A]
  // What the helper reads at a time, at most.
  const READ_BYTES: nat := 63

  /** Once asked to stop the helper stays asked; else it looks at what little it reads now. */
  predicate HelperCancelled(request: Text)
  {
    Contains(request, CANCEL_TOKEN)
  }

  class HelperReporter {
    const isTerminal: bool
    // Everything the caller will ever have written to this helper.
    const input: Text
    var step: nat
    var request: Text
    var cancelled: bool
    // What it has said each time it was asked.
    ghost var answers: seq<bool>

    /** Cancelled exactly when all that was ever read holds the token, wherever the reads were cut. */
    ghost predicate Valid()
      reads this
    {
      && cancelled == HelperCancelled(request) && step <= |LINUX_PLAN|
      && request <= input && (isTerminal ==> request == [])
    }

    constructor (isTerminal: bool, input: Text)
      ensures Valid() && this.isTerminal == isTerminal && this.input == input
      ensures step == 0 && request == [] && !cancelled && answers == []
    {
      this.isTerminal, this.input := isTerminal, input;
      step, request, cancelled, answers := 0, [], false, [];
      TokenIsNotEmpty();
    }

    /** The line for the next step; never numbered past the plan. */
    method ReportStep(message: Text) returns (line: Text)
      requires Valid()
      modifies this`step
      ensures Valid() && step == Min(old(step) + 1, |LINUX_PLAN|)
      ensures line == Encoded(Step(step, |LINUX_PLAN|, message))
    {
      step := Min(step + 1, |LINUX_PLAN|);
      line := Encoded(Step(step, |LINUX_PLAN|, message));
    }

    /** Looks at what has arrived and was not read yet, which may be nothing. A terminal is never read, and
        nothing readable is no request. */
    method CancelRequested() returns (answer: bool, ghost readable: Text)
      requires Valid()
      modifies this`request, this`cancelled, this`answers
      ensures Valid() && answer == cancelled && answers == old(answers) + [answer]
      ensures old(request) + readable <= input
      ensures old(cancelled) ==> cancelled
      ensures request == if old(cancelled) || isTerminal then old(request)
                         else old(request) + readable[..Min(|readable|, READ_BYTES)]
    {
      hide HelperCancelled;
      var arrived: nat :| |request| <= arrived <= |input|;
      var waiting := input[|request|..arrived];
      readable := waiting;
      assert request + waiting == input[..arrived];
      if cancelled {
        answers := answers + [true];
        return true, waiting;
      }
      if isTerminal || waiting == [] {
        assert request + waiting[..0] == request;
        answers := answers + [false];
        return false, waiting;
      }
      var count := Min(|waiting|, READ_BYTES);
      assert request + waiting[..count] == input[..|request| + count];
      request := request + waiting[..count];
      cancelled := HelperCancelled(request);
      answer := cancelled;
      answers := answers + [answer];
    }
  }

  lemma TokenIsNotEmpty()
    ensures !HelperCancelled([])
  {
    forall k: nat | k <= 0
      ensures !FoundAt([], CANCEL_TOKEN, k)
    {
    }
  }

  /** The token counts once it has been read in whole, however many reads that took; later reads change nothing. */
  lemma TokenIsNoticed(before: Text, after: Text)
    ensures HelperCancelled(before + CANCEL_TOKEN + after)
    ensures HelperCancelled(before) ==> HelperCancelled(before + after)
  {
    var t := before + CANCEL_TOKEN;
    assert t[|before|..|before| + |CANCEL_TOKEN|] == CANCEL_TOKEN;
    assert FoundAt(t, CANCEL_TOKEN, |before|);
    ContainsMore(t, CANCEL_TOKEN, after);
    if HelperCancelled(before) {
      ContainsMore(before, CANCEL_TOKEN, after);
    }
  }
}
