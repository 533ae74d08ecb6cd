/** Every log a restore can leave, and every exit the helper can make after it, occurs
    in a run of the protocol: what the program does, the protocol allows. */
module HelperRuns {
  import opened Bytes
  import opened Wrappers
  import opened Text
  import opened RestoreScript
  import opened LinuxImage
  import opened Layout
  import opened ProtocolLines
  import opened Verdict
  import opened HelperReporter
  import opened RestoreProtocol

  /** A run that ends with the helper at work, having done what the log says. Unless it was asked to stop, nobody
      has written to it. */
  ghost predicate WorksUpTo(c: Config, disk: seq<Byte>, actions: seq<Action>, log: seq<Event>)
    requires c.Valid()
  {
    Run(c, disk, actions).Some? &&
    var s := Run(c, disk, actions).value;
    && s.process == Restoring && s.announced && s.log == log && s.client.verdict.None?
    && (if Walk(c.Script(), log) == Stopping(true) then HelperCancelled(s.request)
        else s.request == [] && s.stdin == [] && !s.client.sawVersion && !s.client.tokenWritten)
  }

  /** A run that ends with the helper's exit, with this log and the disk it accounts for. */
  ghost predicate ExitsWith(c: Config, disk: seq<Byte>, actions: seq<Action>, log: seq<Event>, exitCode: int)
  {
    c.Valid() && Run(c, disk, actions).Some? &&
    var s := Run(c, disk, actions).value;
    s.process == Exited(exitCode) && s.log == log && s.disk == Replay(disk, log)
  }

  /** An exit code the helper may give a restore that left this log. */
  predicate ExitAllowed(table: TableRequest, log: seq<Event>, exitCode: int)
  {
    || (exitCode == EXIT_SUCCESS && Completes(LinuxScript(table), log))
    || (exitCode == EXIT_CANCELLED && Walk(LinuxScript(table), log) == Stopping(true))
    || (exitCode == EXIT_FAILED && (log == [] || Walk(LinuxScript(table), log) == Stopping(false)))
    || (exitCode == EXIT_USAGE && log == [])
  }

  // ----- working -----

  lemma FollowsSoFar(script: seq<Task>, log: seq<Event>)
    requires log != [] && Follows(script, log)
    ensures Follows(script, log[..|log| - 1])
    ensures log[|log| - 1].Asked? ==> Walk(script, log[..|log| - 1]).Running?
    ensures Walk(script, log) == Stopping(true) && Walk(script, log[..|log| - 1]) != Stopping(true) ==>
              log[|log| - 1] == Asked(true)
    ensures log[|log| - 1] == Asked(true) ==> Walk(script, log) == Stopping(true)
    ensures Walk(script, log[..|log| - 1]) == Stopping(true) ==> Walk(script, log) == Stopping(true)
  {
    var before, last := Walk(script, log[..|log| - 1]), log[|log| - 1];
    assert Walk(script, log) == Advance(script, before, last);
    hide Walk, Advance;
    OneStep(script, before, last);
  }

  lemma OneStep(script: seq<Task>, position: Position, event: Event)
    requires !Advance(script, position, event).OffScript?
    ensures !position.OffScript? && (event.Asked? ==> position.Running?)
    ensures event == Asked(true) ==> Advance(script, position, event) == Stopping(true)
    ensures Advance(script, position, event) == Stopping(true) ==> position == Stopping(true) || event == Asked(true)
    ensures position == Stopping(true) ==> Advance(script, position, event) == Stopping(true)
  {}

  /** Anything but a question is simply done. */
  lemma WorkGoesOn(c: Config, disk: seq<Byte>, before: seq<Action>, log: seq<Event>, event: Event)
    requires c.Valid() && WorksUpTo(c, disk, before, log)
    requires !event.Asked? && Follows(c.Script(), log + [event])
    requires Walk(c.Script(), log + [event]) == Stopping(true) <==> Walk(c.Script(), log) == Stopping(true)
    ensures WorksUpTo(c, disk, before + [HelperWorks(event, [])], log + [event])
  {
    hide LinuxScript, Walk, ReportLines, HelperCancelled, Replay;
    OneMoreAction(c, disk, before, HelperWorks(event, []));
  }

  /** A question that finds nothing to read is answered with no. */
  lemma SilenceIsNo(c: Config, disk: seq<Byte>, before: seq<Action>, log: seq<Event>)
    requires c.Valid() && WorksUpTo(c, disk, before, log) && Walk(c.Script(), log) != Stopping(true)
    requires Follows(c.Script(), log + [Asked(false)]) && Walk(c.Script(), log + [Asked(false)]) != Stopping(true)
    ensures WorksUpTo(c, disk, before + [HelperReads(0)], log + [Asked(false)])
  {
    hide LinuxScript, Walk, HelperCancelled, Replay;
    TokenIsNotEmpty();
    var s := Run(c, disk, before).value;
    assert s.request + s.stdin[..0] == [] && s.stdin[0..] == [];
    OneMoreAction(c, disk, before, HelperReads(0));
  }

  lemma TokenInLine()
    ensures HelperCancelled(CANCEL_LINE) && |CANCEL_LINE| == 7
  {
    assert CANCEL_LINE[0..6] == CANCEL_TOKEN;
    assert FoundAt(CANCEL_LINE, CANCEL_TOKEN, 0);
  }

  /** A client that has heard the helper announce itself: one that refuses the helper asks it to stop at once. */
  ghost predicate HasHeard(c: Config, disk: seq<Byte>, actions: seq<Action>, log: seq<Event>)
    requires c.Valid()
  {
    Run(c, disk, actions).Some? &&
    var s := Run(c, disk, actions).value;
    && s.process == Restoring && s.announced && s.log == log && s.client.verdict.None?
    && s.request == [] && s.client.sawVersion
    && s.stdin == (if s.client.tokenWritten then CANCEL_LINE else []) && s.client.tokenWritten == !c.Agreed()
  }

  lemma ClientHears(c: Config, disk: seq<Byte>, before: seq<Action>, log: seq<Event>)
    requires c.Valid() && WorksUpTo(c, disk, before, log) && Walk(c.Script(), log) != Stopping(true)
    ensures HasHeard(c, disk, before + [ClientPolls(1)], log)
  {
    hide LinuxScript, Walk, HelperCancelled, Replay, Parsed, Encoded, AcceptsAnnouncement, HeardAll, NoAnnouncement;
    hide Heard;
    hide Run, Enabled, RestoreProtocol.Apply, Inv;
    EveryRunHolds(c, disk, before);
    var s := Run(c, disk, before).value;
    InvariantParts(c, disk, s);
    assert s.stdout != [] && s.stdout[0] == Encoded(c.announcement);
    PollingReaches(c, s);
    OneMoreAction(c, disk, before, ClientPolls(1));
  }

  /** A client that takes in the announcement knows whether it agrees, and asks a helper it refuses to stop. */
  lemma PollingReaches(c: Config, s: State)
    requires c.Valid() && s.client.verdict.None? && !s.client.sawVersion && !s.client.tokenWritten && s.stdin == []
    requires s.stdout != [] && s.stdout[0] == Encoded(c.announcement)
    ensures Enabled(c, s, ClientPolls(1))
    ensures var after := RestoreProtocol.Apply(c, s, ClientPolls(1));
            && after == s.(client := after.client, stdout := after.stdout, stdin := after.stdin)
            && after.client.verdict.None? && after.client.sawVersion && after.client.tokenWritten == !c.Agreed()
            && after.stdin == (if after.client.tokenWritten then CANCEL_LINE else [])
  {
    hide LinuxScript, Walk, Parsed, Encoded, AcceptsAnnouncement, HeardAll, NoAnnouncement, Heard;
    assert s.stdout[..1] == [s.stdout[0]];
    NoOthers(s.stdout);
    AnnouncementIsHeard(c, s.client, s.stdout[..1]);
    assert [] + CANCEL_LINE == CANCEL_LINE;
  }

  lemma NoOthers(lines: seq<Text>)
    requires lines != []
    ensures NoAnnouncement(lines[..1][1..])
  {
    hide Parsed;
  }

  /** Whatever it made of the helper, the client can have asked it to stop. */
  lemma ClientAsks(c: Config, disk: seq<Byte>, before: seq<Action>, log: seq<Event>) returns (actions: seq<Action>)
    requires c.Valid() && HasHeard(c, disk, before, log)
    ensures Run(c, disk, actions).Some?
    ensures var s := Run(c, disk, actions).value;
            && s.process == Restoring && s.announced && s.log == log && s.client.verdict.None?
            && s.request == [] && s.stdin == CANCEL_LINE
  {
    hide LinuxScript, AcceptsAnnouncement, Run, Enabled, RestoreProtocol.Apply;
    if c.Agreed() {
      var wanting := before + [UserCancels];
      var s := Run(c, disk, before).value;
      CancellingReaches(c, s);
      OneMoreAction(c, disk, before, UserCancels);
      OneMoreAction(c, disk, wanting, ClientReacts(false));
      actions := wanting + [ClientReacts(false)];
    } else {
      actions := before;
    }
  }

  /** The user wants to stop, and a client that has heard the helper asks it. */
  lemma CancellingReaches(c: Config, s: State)
    requires c.Valid() && s.client.verdict.None? && s.client.sawVersion && !s.client.tokenWritten && s.stdin == []
    ensures Enabled(c, s, UserCancels) && RestoreProtocol.Apply(c, s, UserCancels) == s.(userCancelled := true)
    ensures var wanting := s.(userCancelled := true);
            && Enabled(c, wanting, ClientReacts(false))
            && RestoreProtocol.Apply(c, wanting, ClientReacts(false))
               == wanting.(client := s.client.(tokenWritten := true), stdin := CANCEL_LINE)
  {
    hide LinuxScript, Walk;
    assert [] + CANCEL_LINE == CANCEL_LINE;
  }

  /** A question can be answered with yes: the client has asked by then. */
  lemma RequestIsYes(c: Config, disk: seq<Byte>, before: seq<Action>, log: seq<Event>) returns (actions: seq<Action>)
    requires c.Valid() && WorksUpTo(c, disk, before, log) && Walk(c.Script(), log) != Stopping(true)
    requires Walk(c.Script(), log + [Asked(true)]) == Stopping(true)
    ensures WorksUpTo(c, disk, actions, log + [Asked(true)])
  {
    hide LinuxScript, Walk, HelperCancelled, Replay, HasHeard, AcceptsAnnouncement, HeardAll;
    ClientHears(c, disk, before, log);
    var asking := ClientAsks(c, disk, before + [ClientPolls(1)], log);
    TokenInLine();
    var s := Run(c, disk, asking).value;
    assert s.request + s.stdin[..7] == CANCEL_LINE;
    OneMoreAction(c, disk, asking, HelperReads(7));
    actions := asking + [HelperReads(7)];
  }

  /** Every log that follows the script is the log of some run. */
  lemma {:induction false} LogIsOfRun(c: Config, disk: seq<Byte>, log: seq<Event>) returns (actions: seq<Action>)
    requires c.Valid() && Follows(c.Script(), log)
    ensures WorksUpTo(c, disk, actions, log)
    decreases |log|
  {
    hide WorksUpTo, LinuxScript, Walk;
    if log == [] {
      OpeningWorks(c, disk);
      actions := OPENING;
    } else {
      var rest, event := log[..|log| - 1], log[|log| - 1];
      FollowsSoFar(c.Script(), log);
      assert log == rest + [event];
      var before := LogIsOfRun(c, disk, rest);
      if event == Asked(true) {
        actions := RequestIsYes(c, disk, before, rest);
      } else if event == Asked(false) {
        SilenceIsNo(c, disk, before, rest);
        actions := before + [HelperReads(0)];
      } else {
        WorkGoesOn(c, disk, before, rest, event);
        actions := before + [HelperWorks(event, [])];
      }
    }
  }

  lemma OpeningWorks(c: Config, disk: seq<Byte>)
    requires c.Valid()
    ensures WorksUpTo(c, disk, OPENING, [])
  {
    OpeningReachesHelper(c, disk);
    OpeningLogsNothing(c, disk);
    hide LinuxScript, Encoded;
  }

  lemma OpeningLogsNothing(c: Config, disk: seq<Byte>)
    requires c.Valid()
    ensures Run(c, disk, OPENING[..2]).Some? && Run(c, disk, OPENING).Some?
    ensures Run(c, disk, OPENING[..2]).value.process == Vetting && Run(c, disk, OPENING[..2]).value.log == []
    ensures Run(c, disk, OPENING).value.log == []
  {
    hide LinuxScript, Encoded;
    assert OPENING[..2][..1][..0] == [] && OPENING[..2][..1] == [AuthenticationGranted];
    assert OPENING[..2] == [AuthenticationGranted, HelperAnnounces];
    assert Run(c, disk, []) == Some(Initial(disk));
    assert Run(c, disk, OPENING[..2][..1]).Some?;
    assert Run(c, disk, OPENING[..2]).Some?;
  }

  // ----- and exiting -----

  /** Whatever log a restore leaves and whichever exit the helper makes of it, some run of the protocol shows both,
      on the same disk. */
  lemma ExitIsOfRun(c: Config, disk: seq<Byte>, log: seq<Event>, exitCode: int) returns (actions: seq<Action>)
    requires c.Valid() && ExitAllowed(c.table, log, exitCode)
    ensures ExitsWith(c, disk, actions, log, exitCode)
  {
    hide LinuxScript, Walk, Enabled, RestoreProtocol.Apply, Replay, HelperCancelled;
    var last: Action;
    if log == [] {
      EmptyLogIsRefused(c, exitCode);
      OpeningLogsNothing(c, disk);
      actions, last := OPENING[..2], HelperRefuses(exitCode, None);
      RefusalIsPossible(c, Run(c, disk, actions).value, exitCode);
    } else {
      actions := LogIsOfRun(c, disk, log);
      last := if exitCode == EXIT_SUCCESS then HelperFinishes([]) else HelperEnds(0, None);
      EndIsPossible(c, Run(c, disk, actions).value, exitCode);
    }
    OneMoreAction(c, disk, actions, last);
    actions := actions + [last];
    EveryRunHolds(c, disk, actions);
  }

  lemma EmptyLogIsRefused(c: Config, exitCode: int)
    requires ExitAllowed(c.table, [], exitCode)
    ensures exitCode in {EXIT_FAILED, EXIT_USAGE}
  {
    ScriptTasks(c.table);
    hide LinuxScript;
  }

  lemma RefusalIsPossible(c: Config, s: State, exitCode: int)
    requires c.Valid() && s.process == Vetting && exitCode in {EXIT_FAILED, EXIT_USAGE}
    ensures Enabled(c, s, HelperRefuses(exitCode, None))
    ensures var after := RestoreProtocol.Apply(c, s, HelperRefuses(exitCode, None));
            after.process == Exited(exitCode) && after.log == s.log
  {
    hide LinuxScript, Walk;
  }

  lemma EndIsPossible(c: Config, s: State, exitCode: int)
    requires c.Valid() && s.process == Restoring && s.log != [] && ExitAllowed(c.table, s.log, exitCode)
    requires Walk(c.Script(), s.log) == Stopping(true) ==> HelperCancelled(s.request)
    ensures var last := if exitCode == EXIT_SUCCESS then HelperFinishes([]) else HelperEnds(0, None);
            && Enabled(c, s, last) && RestoreProtocol.Apply(c, s, last).process == Exited(exitCode)
            && RestoreProtocol.Apply(c, s, last).log == s.log
  {
    hide LinuxScript, Walk, Encoded, HelperCancelled, ErrorIsEmpty;
    if exitCode != EXIT_SUCCESS {
      SilenceMeansCancelled(c.Script(), s.log);
      assert s.request + s.stdin[..0] == s.request;
    }
  }
}
