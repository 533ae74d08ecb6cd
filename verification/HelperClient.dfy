/** The unprivileged side's bookkeeping while the helper runs, field by field. */
module HelperClient {
  import opened Wrappers
  import opened Text
  import opened RestorePlan
  import opened ProtocolLines
  import opened LineStream
  import opened Verdict
  import opened HelperReporter
  import opened RestoreProtocol

  class HelperClient {
    const reader: LineReader
    var sawVersion: bool
    var versionAccepted: bool
    var cancelTokenWritten: bool
    var killRequested: bool
    var location: Text
    var displayFailure: Text
    // Everything written to the helper so far.
    var written: Text

    /** The same as a value of the protocol. */
    function Standing(): Client
      reads this
    {
      Client(sawVersion, versionAccepted, cancelTokenWritten, killRequested, location, displayFailure, None)
    }

    /** The token is written once or not at all. */
    ghost predicate Valid()
      reads this
    {
      written == if cancelTokenWritten then CANCEL_LINE else []
    }

    constructor ()
      ensures Valid() && Standing() == NEW_CLIENT && fresh(reader) && reader.buffer == []
    {
      reader := new LineReader();
      sawVersion, versionAccepted, cancelTokenWritten, killRequested := false, false, false, false;
      location, displayFailure, written := [], [], [];
    }

    method AskHelperToStop()
      requires Valid()
      modifies this`cancelTokenWritten, this`written
      ensures Valid() && cancelTokenWritten
    {
      if cancelTokenWritten {
        return;
      }
      cancelTokenWritten := true;
      written := written + CANCEL_LINE;
    }

    /** Takes in one line. */
    method ConsumeLine(line: Text)
      requires Valid()
      modifies this
      ensures Valid() && Standing() == Heard(old(Standing()), line)
    {
      hide Parsed, AcceptsAnnouncement;
      PlansTurnDestructiveAtFive(FIRST_DESTRUCTIVE_STEP);
      var parsed := Parsed(line);
      match parsed
      case Version(_, _, _, _) =>
        versionAccepted := !sawVersion && AcceptsAnnouncement(parsed, LINUX_PLAN, FIRST_DESTRUCTIVE_STEP);
        sawVersion := true;
        if !versionAccepted {
          AskHelperToStop();
        }
      case Failure(text) =>
        if versionAccepted && displayFailure == [] && text != [] {
          displayFailure := text;
        }
      case Result(text) => location := text;
      case _ =>
    }

    method Consume(lines: seq<Text>)
      requires Valid()
      modifies this
      ensures Valid() && Standing() == HeardAll(old(Standing()), lines)
    {
      hide Heard;
      for k := 0 to |lines|
        invariant Valid() && Standing() == HeardAll(old(Standing()), lines[..k])
      {
        assert lines[..k + 1][..k] == lines[..k];
        // An empty line says nothing.
        if lines[k] == [] {
          EmptyLineIsNothing(Standing());
          continue;
        }
        ConsumeLine(lines[k]);
      }
      assert lines[..|lines|] == lines;
    }

    /** Takes in whatever has arrived, cut anywhere. */
    method Receive(chunk: Text)
      requires Valid()
      modifies this, reader
      ensures Valid()
      ensures var buffer := old(reader.buffer) + chunk;
              && Standing() == HeardAll(old(Standing()), TrimmedLines(LinesOf(buffer)) + Overflow(RestOf(buffer)))
              && reader.buffer == if Overflow(RestOf(buffer)) == [] then RestOf(buffer) else []
    {
      hide Heard, HeardAll, LinesOf, RestOf, Overflow, TrimmedLines;
      reader.buffer := reader.buffer + chunk;
      var lines := reader.TakeCompleteLines();
      Consume(lines);
    }

    /** The user wants to stop: a helper that has spoken is asked, one that has not is to be killed. */
    method React() returns (kill: bool)
      requires Valid()
      modifies this
      ensures Valid()
      ensures old(cancelTokenWritten) ==> Standing() == old(Standing()) && !kill
      ensures !old(cancelTokenWritten) && old(sawVersion) ==> Standing() == old(Standing()).(tokenWritten := true) && !kill
      ensures !old(cancelTokenWritten) && !old(sawVersion) ==>
                Standing() == old(Standing()).(killRequested := true) && kill == !old(killRequested)
    {
      kill := false;
      if !cancelTokenWritten {
        if sawVersion {
          AskHelperToStop();
        } else if !killRequested {
          killRequested := true;
          kill := true;
        }
      }
    }

    /** The process has ended: what is left in the buffer counts as a line, and then all is judged. */
    method Conclude(crashed: bool, exitCode: int) returns (verdict: HelperVerdict)
      requires Valid()
      modifies this
      ensures Valid()
      ensures Standing() == if reader.buffer == [] then old(Standing()) else Heard(old(Standing()), Trimmed(reader.buffer))
      ensures verdict == JudgeHelperRun(HelperRun(crashed, exitCode, sawVersion, versionAccepted, killRequested, location))
    {
      hide Heard, Trimmed;
      if reader.buffer != [] {
        ConsumeLine(Trimmed(reader.buffer));
      }
      verdict := JudgeHelperRun(HelperRun(crashed, exitCode, sawVersion, versionAccepted, killRequested, location));
    }
  }

  lemma EmptyLineIsNothing(client: Client)
    ensures Heard(client, []) == client
  {
    TrimmedKeeps([]);
    assert Parsed([]) == Unknown;
  }

  lemma TrimmedIsHeardAlike(client: Client, line: Text)
    ensures Heard(client, Trimmed(line)) == Heard(client, line)
  {
    TrimmedTwice(line);
    hide Parsed, Trimmed, AcceptsAnnouncement;
  }

  lemma {:induction false} TrimmedLinesAreHeardAlike(client: Client, lines: seq<Text>)
    ensures HeardAll(client, TrimmedLines(lines)) == HeardAll(client, lines)
    decreases |lines|
  {
    hide Heard, Trimmed;
    if lines != [] {
      var rest, trimmed := lines[..|lines| - 1], TrimmedLines(lines);
      TrimmedLinesAreHeardAlike(client, rest);
      assert trimmed[..|trimmed| - 1] == TrimmedLines(rest);
      TrimmedIsHeardAlike(HeardAll(client, rest), lines[|lines| - 1]);
    }
  }

  /** Chunk after chunk, the client hears the lines the chunks hold. */
  method ReceiveAll(client: HelperClient, chunks: seq<Text>)
    requires client.Valid() && client.reader.buffer == []
    modifies client, client.reader
    ensures client.Valid() && client.Standing() == HeardAll(old(client.Standing()), Read(chunks).lines)
    ensures client.reader.buffer == Read(chunks).buffer
  {
    hide Heard, HeardAll, LinesOf, RestOf, Overflow, TrimmedLines;
    NothingHeard(client.Standing());
    for i := 0 to |chunks|
      invariant client.Valid() && client.Standing() == HeardAll(old(client.Standing()), Read(chunks[..i]).lines)
      invariant client.reader.buffer == Read(chunks[..i]).buffer
    {
      assert chunks[..i + 1][..i] == chunks[..i];
      ghost var before := Read(chunks[..i]);
      ghost var more := TrimmedLines(LinesOf(before.buffer + chunks[i])) + Overflow(RestOf(before.buffer + chunks[i]));
      client.Receive(chunks[i]);
      HeardInParts(old(client.Standing()), before.lines, more);
      assert Read(chunks[..i + 1]).lines == before.lines + more;
    }
    assert chunks[..|chunks|] == chunks;
  }

  /** At any moment of a run, whatever part of the output has arrived and however it was cut: the client stands where
      hearing some of the first lines leaves it, and holds the beginning of the next. */
  lemma PartIsHeardAsLines(client: Client, messages: seq<ProtocolLine>, chunks: seq<Text>) returns (k: nat)
    requires forall i :: 0 <= i < |messages| ==> IsSendable(messages[i])
    requires Concatenated(chunks) <= StreamOf(EncodedLines(messages))
    ensures k <= |messages|
    ensures HeardAll(client, Read(chunks).lines) == HeardAll(client, EncodedLines(messages)[..k])
    ensures var rest := Read(chunks).buffer; if k < |messages| then rest <= EncodedLines(messages)[k] else rest == []
    ensures Concatenated(chunks) == StreamOf(EncodedLines(messages)[..k]) + Read(chunks).buffer
  {
    hide Heard, HeardAll, Encoded, TrimmedLines, Read, Concatenated, StreamOf;
    EncodedAreLines(messages);
    k := PartIsRead(EncodedLines(messages), LINE_LIMIT, chunks);
    TrimmedLinesAreHeardAlike(client, EncodedLines(messages)[..k]);
  }

  /** When the helper is gone, perhaps in the middle of a line: the rest of its output, cut anywhere, leaves the
      client where the protocol has it judge. */
  lemma CutOutputIsJudged(s: State, messages: seq<ProtocolLine>, chunks: seq<Text>)
    requires s.process.Ended() && (forall i :: 0 <= i < |messages| ==> IsSendable(messages[i]))
    requires s.stdout == EncodedLines(messages) && NEWLINE !in s.fragment && |s.fragment| <= LINE_LIMIT
    requires Concatenated(chunks) == StreamOf(s.stdout) + s.fragment
    ensures var heard, rest := HeardAll(s.client, Read(chunks).lines), Read(chunks).buffer;
            var last := if rest == [] then heard else Heard(heard, Trimmed(rest));
            Judged(s) == last.(verdict := Judged(s).verdict)
            && Judged(s).verdict == Some(JudgeHelperRun(HelperRun(
                 s.process.Crashed?, if s.process.Exited? then s.process.exitCode else 0, last.sawVersion,
                 last.versionAccepted, last.killRequested, last.location)))
  {
    hide Heard, HeardAll, Encoded, TrimmedLines, Read, Concatenated, StreamOf, Trimmed, JudgeHelperRun;
    EncodedAreLines(messages);
    CutStreamIsRead(s.stdout, LINE_LIMIT, s.fragment, chunks);
    TrimmedLinesAreHeardAlike(s.client, s.stdout);
    TrimmedIsHeardAlike(HeardAll(s.client, s.stdout), s.fragment);
  }

  /** However the helper's output is cut on its way, the client ends up where hearing its lines would leave it,
      with nothing left over. */
  lemma ChunksAreHeardAsLines(client: Client, messages: seq<ProtocolLine>, chunks: seq<Text>)
    requires forall k :: 0 <= k < |messages| ==> IsSendable(messages[k])
    requires Concatenated(chunks) == StreamOf(EncodedLines(messages))
    ensures HeardAll(client, Read(chunks).lines) == HeardAll(client, EncodedLines(messages))
    ensures Read(chunks).buffer == []
  {
    hide Heard, HeardAll, Encoded, TrimmedLines, Read, Concatenated, StreamOf;
    var lines := EncodedLines(messages);
    EncodedAreLines(messages);
    StreamIsRead(lines, LINE_LIMIT, chunks);
    TrimmedLinesAreHeardAlike(client, lines);
  }
}
