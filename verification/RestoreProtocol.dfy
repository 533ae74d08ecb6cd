/** The restore as a protocol: a user, the unprivileged client, pkexec, the root
    helper, the two pipes between them and the disk, taking steps in any order. */
module RestoreProtocol {
  import opened Bytes
  import opened Wrappers
  import opened Text
  import opened Sanitizer
  import opened Layout
  import opened RestorePlan
  import opened RestoreScript
  import opened LinuxImage
  import opened ProtocolLines
  import opened Verdict
  import opened HelperReporter

  const FIRST_DESTRUCTIVE_STEP: nat := 5

  /** What stays the same in a run: the table the helper would write, and how it announces itself. */
  datatype Config = Config(table: TableRequest, announcement: ProtocolLine)
  {
    predicate Valid() { announcement.Version? && IsSendable(announcement) }

    function Script(): seq<Task> { LinuxScript(table) }

    /** Whether this client and this helper agree on the protocol. */
    predicate Agreed()
    {
      PlansTurnDestructiveAtFive(FIRST_DESTRUCTIVE_STEP);
      AcceptsAnnouncement(Received(announcement), LINUX_PLAN, FIRST_DESTRUCTIVE_STEP)
    }
  }

  datatype Process =
    // pkexec asks for a password; only now does a kill reach anyone.
    | Dialog
    // The helper has replaced pkexec, and has not yet said anything.
    | Announcing
    | Vetting
    | Restoring
    | Exited(exitCode: int)
    | Crashed
  {
    predicate Ended() { Exited? || Crashed? }
  }

  datatype Client = Client(
    sawVersion: bool,
    versionAccepted: bool,
    tokenWritten: bool,
    killRequested: bool,
    location: Text,
    displayFailure: Text,
    verdict: Option<HelperVerdict>)

  datatype State = State(
    disk: seq<Byte>,
    log: seq<Event>,
    process: Process,
    announced: bool,
    // Complete lines the client has not read yet, and a last one that was cut short.
    stdout: seq<Text>,
    fragment: Text,
    // What the helper has not read yet, and what it has read.
    stdin: Text,
    request: Text,
    userCancelled: bool,
    client: Client)

  const NEW_CLIENT := Client(false, false, false, false, [], [], None)

  function Initial(disk: seq<Byte>): State
  {
    State(disk, [], Dialog, false, [], [], [], [], false, NEW_CLIENT)
  }

  // ----- the helper -----

  /** Whether a restore with that log, once it has stopped, leaves no text behind. */
  predicate ErrorIsEmpty(log: seq<Event>)
  {
    forall i :: 0 <= i < |log| ==> log[i] != GaveUp(true)
  }

  /** The code for a restore that stopped: cancelled only if the helper has been asked to, as far as it has read by
      then, and there is no error to show. */
  function StoppedExit(request: Text, log: seq<Event>): int
  {
    if HelperCancelled(request) && ErrorIsEmpty(log) then EXIT_CANCELLED else EXIT_FAILED
  }

  // ----- the client -----

  /** One line of the helper's output. */
  function Heard(client: Client, line: Text): Client
  {
    PlansTurnDestructiveAtFive(FIRST_DESTRUCTIVE_STEP);
    var parsed := Parsed(line);
    match parsed
    case Version(_, _, _, _) =>
      // Once refused stays refused, whatever is announced later.
      var accepted := !client.sawVersion && AcceptsAnnouncement(parsed, LINUX_PLAN, FIRST_DESTRUCTIVE_STEP);
      client.(sawVersion := true, versionAccepted := accepted, tokenWritten := client.tokenWritten || !accepted)
    case Failure(text) =>
      if client.versionAccepted && client.displayFailure == [] then client.(displayFailure := text) else client
    case Result(text) => client.(location := text)
    case _ => client
  }

  function HeardAll(client: Client, lines: seq<Text>): Client
    decreases |lines|
  {
    if lines == [] then client else Heard(HeardAll(client, lines[..|lines| - 1]), lines[|lines| - 1])
  }

  /** What the client has written to the helper when it decides to ask it to stop. */
  function Asking(before: Client, after: Client, stdin: Text): Text
  {
    if after.tokenWritten && !before.tokenWritten then stdin + CANCEL_LINE else stdin
  }

  /** The remaining lines, the cut one too if there is one, and the verdict on it all. */
  function Judged(s: State): Client
    requires s.process.Ended()
  {
    var heard := HeardAll(s.client, s.stdout);
    var last := if s.fragment == [] then heard else Heard(heard, s.fragment);
    var run := HelperRun(s.process.Crashed?, if s.process.Exited? then s.process.exitCode else 0, last.sawVersion,
                         last.versionAccepted, last.killRequested, last.location);
    last.(verdict := Some(JudgeHelperRun(run)))
  }

  // ----- steps -----

  datatype Action =
    | UserCancels
    | AuthenticationGranted
    | PkexecExits(exitCode: int)
    | HelperAnnounces
    | HelperRefuses(exitCode: int, failure: Option<Text>)
    | HelperStarts
    | HelperWorks(event: Event, text: Text)
    | HelperDetails(text: Text)
    | HelperReads(count: nat)
    | HelperEnds(count: nat, failure: Option<Text>)
    | HelperFinishes(location: Text)
    | HelperDies(line: Text)
    | ClientPolls(count: nat)
    | ClientReacts(killWorks: bool)
    | ClientJudges

  function FailureLines(failure: Option<Text>): seq<Text>
  {
    match failure
    case None => []
    case Some(text) => [Encoded(Failure(text))]
  }

  /** The line that goes with an event: a step is reported with its number. */
  function ReportLines(log: seq<Event>, event: Event, text: Text): seq<Text>
  {
    var number := Min(|StepsReported(log)| + 1, |LINUX_PLAN|);
    if event.Reported? then [Encoded(Step(number, |LINUX_PLAN|, text))] else []
  }

  predicate Enabled(c: Config, s: State, a: Action)
    requires c.Valid()
  {
    match a
    case UserCancels => true
    case AuthenticationGranted => s.process == Dialog
    case PkexecExits(_) => s.process == Dialog
    case HelperAnnounces => s.process == Announcing
    case HelperRefuses(exitCode, _) => s.process == Vetting && exitCode in {EXIT_FAILED, EXIT_USAGE}
    case HelperStarts => s.process == Vetting
    // Questions are asked by reading; all else the script allows may happen.
    case HelperWorks(event, _) => s.process == Restoring && !event.Asked? && Follows(c.Script(), s.log + [event])
    case HelperDetails(_) => s.process == Restoring
    case HelperReads(count) =>
      && s.process == Restoring && count <= |s.stdin| && count <= READ_BYTES
      && Follows(c.Script(), s.log + [Asked(HelperCancelled(s.request + s.stdin[..count]))])
    // A restore that stopped is followed by one more look at what the client may have asked.
    case HelperEnds(count, _) =>
      s.process == Restoring && Walk(c.Script(), s.log).Stopping? && count <= |s.stdin| && count <= READ_BYTES
    case HelperFinishes(location) => s.process == Restoring && Completes(c.Script(), s.log)
    // At any moment after the exec, with a line perhaps half written.
    case HelperDies(_) => s.process in {Announcing, Vetting, Restoring}
    case ClientPolls(count) => s.client.verdict.None? && count <= |s.stdout|
    case ClientReacts(_) => s.client.verdict.None? && s.userCancelled && !s.client.tokenWritten
    case ClientJudges => s.client.verdict.None? && s.process.Ended()
  }

  /** The client sees that the user wants to stop: it asks the helper, or kills what has not spoken yet. The kill
      can only work while pkexec is still asking for the password. */
  function Reacted(s: State, killWorks: bool): State
  {
    if s.client.sawVersion then
      s.(client := s.client.(tokenWritten := true), stdin := s.stdin + CANCEL_LINE)
    else if !s.client.killRequested then
      s.(client := s.client.(killRequested := true), process := if killWorks && s.process == Dialog then Crashed else s.process)
    else s
  }

  function Logging(s: State, event: Event): State
  {
    s.(log := s.log + [event], disk := if event.Writes() then Laid(s.disk, event.offset, event.data) else s.disk)
  }

  function Apply(c: Config, s: State, a: Action): State
    requires c.Valid() && Enabled(c, s, a)
  {
    match a
    case UserCancels => s.(userCancelled := true)
    case AuthenticationGranted => s.(process := Announcing)
    case PkexecExits(exitCode) => s.(process := Exited(exitCode))
    case HelperAnnounces => s.(process := Vetting, announced := true, stdout := s.stdout + [Encoded(c.announcement)])
    case HelperRefuses(exitCode, failure) => s.(process := Exited(exitCode), stdout := s.stdout + FailureLines(failure))
    case HelperStarts => s.(process := Restoring)
    case HelperWorks(event, text) => Logging(s, event).(stdout := s.stdout + ReportLines(s.log, event, text))
    case HelperDetails(text) => s.(stdout := s.stdout + [Encoded(Detail(text))])
    case HelperReads(count) =>
      var request := s.request + s.stdin[..count];
      Logging(s, Asked(HelperCancelled(request))).(request := request, stdin := s.stdin[count..])
    case HelperEnds(count, failure) => Ended(s, count, failure)
    case HelperFinishes(location) =>
      s.(process := Exited(EXIT_SUCCESS), stdout := s.stdout + [Encoded(Result(location))])
    case HelperDies(line) => s.(process := Crashed, fragment := line)
    case ClientPolls(count) =>
      var client := HeardAll(s.client, s.stdout[..count]);
      s.(client := client, stdout := s.stdout[count..], stdin := Asking(s.client, client, s.stdin))
    case ClientReacts(killWorks) => Reacted(s, killWorks)
    case ClientJudges => s.(client := Judged(s))
  }

  /** The helper's exit after a restore that stopped: a failure is explained, a cancellation is not. */
  function Ended(s: State, count: nat, failure: Option<Text>): State
    requires count <= |s.stdin|
  {
    var request := s.request + s.stdin[..count];
    var exitCode := StoppedExit(request, s.log);
    s.(process := Exited(exitCode), request := request, stdin := s.stdin[count..],
       stdout := s.stdout + if exitCode == EXIT_CANCELLED then [] else FailureLines(failure))
  }

  /** The state after a series of steps, if each was possible. */
  function Run(c: Config, disk: seq<Byte>, actions: seq<Action>): Option<State>
    requires c.Valid()
    decreases |actions|
  {
    if actions == [] then Some(Initial(disk))
    else
      match Run(c, disk, actions[..|actions| - 1])
      case None => None
      case Some(s) =>
        var a := actions[|actions| - 1];
        if Enabled(c, s, a) then Some(Apply(c, s, a)) else None
  }

  // ----- what the client makes of the lines -----

  /** No line but the first of a helper is an announcement. */
  predicate NoAnnouncement(lines: seq<Text>)
  {
    forall k :: 0 <= k < |lines| ==> !Parsed(lines[k]).Version?
  }

  lemma ReportIsNoAnnouncement(message: ProtocolLine)
    requires IsSendable(message) && !message.Version?
    ensures NoAnnouncement([Encoded(message)])
  {
    hide Parsed, Encoded;
    EncodedIsRead(message);
  }

  lemma {:induction false} HeardInParts(client: Client, a: seq<Text>, b: seq<Text>)
    ensures HeardAll(client, a + b) == HeardAll(HeardAll(client, a), b)
    decreases |b|
  {
    hide Heard;
    if b == [] {
      assert a + b == a;
    } else {
      HeardInParts(client, a, b[..|b| - 1]);
      assert (a + b)[..|a + b| - 1] == a + b[..|b| - 1];
    }
  }

  /** What reports leave alone. */
  predicate SameStanding(a: Client, b: Client)
  {
    && a.sawVersion == b.sawVersion && a.versionAccepted == b.versionAccepted && a.tokenWritten == b.tokenWritten
    && a.killRequested == b.killRequested && a.verdict == b.verdict
  }

  lemma {:induction false} ReportsChangeNoStanding(client: Client, lines: seq<Text>)
    requires NoAnnouncement(lines)
    ensures SameStanding(client, HeardAll(client, lines))
    decreases |lines|
  {
    hide Parsed;
    if lines != [] {
      ReportsChangeNoStanding(client, lines[..|lines| - 1]);
    }
  }

  lemma HeardOne(client: Client, line: Text)
    ensures HeardAll(client, [line]) == Heard(client, line)
  {
    var lines := [line];
    assert lines[..0] == [];
    assert HeardAll(client, []) == client;
  }

  /** Hearing the announcement first, and then reports. */
  lemma AnnouncementIsHeard(c: Config, client: Client, lines: seq<Text>)
    requires c.Valid() && !client.sawVersion
    requires lines != [] && lines[0] == Encoded(c.announcement) && NoAnnouncement(lines[1..])
    ensures var after := HeardAll(client, lines);
            && after.sawVersion && after.versionAccepted == c.Agreed()
            && after.tokenWritten == (client.tokenWritten || !c.Agreed())
            && after.killRequested == client.killRequested && after.verdict == client.verdict
  {
    hide Parsed, Encoded;
    EncodedIsRead(c.announcement);
    assert lines == [lines[0]] + lines[1..];
    HeardInParts(client, [lines[0]], lines[1..]);
    var first := HeardAll(client, [lines[0]]);
    HeardOne(client, lines[0]);
    ReportsChangeNoStanding(first, lines[1..]);
  }

  // ----- what holds in every state -----

  /** The disk is what the log says, and the log follows the script. */
  ghost predicate DiskIsLogged(c: Config, disk: seq<Byte>, s: State)
  {
    s.disk == Replay(disk, s.log) && Follows(c.Script(), s.log)
  }

  /** Nothing is done before the helper has announced itself. */
  predicate AnnouncedFirst(s: State)
  {
    && (s.process in {Dialog, Announcing} ==> !s.announced)
    && (s.process in {Vetting, Restoring} ==> s.announced)
    && (!s.announced ==> s.log == [] && s.stdout == [])
    && (s.process == Vetting ==> s.log == [])
    && (s.fragment != [] ==> s.process == Crashed)
  }

  /** The announcement is the first line, and either in the pipe or heard; it settles whether the helper is accepted. */
  predicate PipeInOrder(c: Config, s: State)
    requires c.Valid()
  {
    s.client.verdict.None? ==>
      && (!s.announced ==> !s.client.sawVersion)
      && (s.announced && !s.client.sawVersion ==>
            s.stdout != [] && s.stdout[0] == Encoded(c.announcement) && NoAnnouncement(s.stdout[1..]))
      && (s.client.sawVersion ==> NoAnnouncement(s.stdout))
      && s.client.versionAccepted == (s.client.sawVersion && c.Agreed())
  }

  /** The helper can only have read what the client wrote, and the client wrote for a reason. */
  predicate AskedForAReason(c: Config, s: State)
    requires c.Valid()
  {
    && (s.request + s.stdin != [] ==> s.client.tokenWritten)
    && (s.client.killRequested ==> s.userCancelled)
    && (s.client.verdict.None? && s.client.tokenWritten ==> s.userCancelled || (s.client.sawVersion && !c.Agreed()))
    && (Walk(c.Script(), s.log) == Stopping(true) ==> s.request != [])
  }

  /** An exit code of the helper tells how the restore ended. */
  predicate ExitIsTruthful(c: Config, s: State)
  {
    s.process.Exited? && s.announced ==>
      && (s.process.exitCode == EXIT_SUCCESS ==> Completes(c.Script(), s.log))
      && (s.process.exitCode == EXIT_CANCELLED ==>
            Walk(c.Script(), s.log) == Stopping(true) && HelperCancelled(s.request))
  }

  /** A verdict is true of the disk. */
  ghost predicate VerdictIsTrue(c: Config, disk: seq<Byte>, s: State)
    requires c.Valid()
  {
    s.client.verdict.Some? ==>
      && s.process.Ended()
      && (s.client.verdict.value == Cancelled ==> s.disk == disk && s.userCancelled && (c.Agreed() || s.log == []))
      && (s.client.verdict.value == Succeeded ==> Completes(c.Script(), s.log) && c.Agreed() && s.client.location != [])
      && (s.client.verdict.value.Failed? ==> s.client.verdict.value.explained)
  }

  ghost predicate Inv(c: Config, disk: seq<Byte>, s: State)
    requires c.Valid()
  {
    && DiskIsLogged(c, disk, s) && AnnouncedFirst(s) && PipeInOrder(c, s) && AskedForAReason(c, s)
    && ExitIsTruthful(c, s) && VerdictIsTrue(c, disk, s)
  }

  lemma StartHolds(c: Config, disk: seq<Byte>)
    requires c.Valid()
    ensures Inv(c, disk, Initial(disk))
  {
    hide LinuxScript;
  }

  // ----- every step keeps it -----

  /** Another line of the helper, not an announcement, behind those in the pipe. */
  lemma PipeTakesReports(c: Config, s: State, lines: seq<Text>)
    requires c.Valid() && PipeInOrder(c, s) && s.announced && NoAnnouncement(lines)
    ensures PipeInOrder(c, s.(stdout := s.stdout + lines))
  {
    hide Parsed, Encoded;
    if s.client.verdict.None? && !s.client.sawVersion {
      assert (s.stdout + lines)[1..] == s.stdout[1..] + lines;
    }
  }

  /** The order in the pipe is a matter of what is in it and of the client. */
  lemma PipeAlike(c: Config, s: State, after: State)
    requires c.Valid() && after.stdout == s.stdout && after.client == s.client && after.announced == s.announced
    ensures PipeInOrder(c, after) <==> PipeInOrder(c, s)
  {
    hide Parsed, Encoded, AcceptsAnnouncement, NoAnnouncement;
  }

  lemma FailureIsReport(failure: Option<Text>)
    ensures NoAnnouncement(FailureLines(failure))
  {
    hide Parsed, Encoded;
    match failure
    case None =>
    case Some(text) => ReportIsNoAnnouncement(Failure(text));
  }

  lemma WorkIsReport(log: seq<Event>, event: Event, text: Text)
    ensures NoAnnouncement(ReportLines(log, event, text))
  {
    hide Parsed, Encoded, StepsReported;
    var number := Min(|StepsReported(log)| + 1, |LINUX_PLAN|);
    ReportIsNoAnnouncement(Step(number, |LINUX_PLAN|, text));
  }

  /** What the helper logs while it works or asks. */
  lemma LoggingKeeps(c: Config, disk: seq<Byte>, s: State, event: Event)
    requires DiskIsLogged(c, disk, s) && Follows(c.Script(), s.log + [event])
    ensures DiskIsLogged(c, disk, Logging(s, event))
  {
    hide LinuxScript, Walk;
    Logged(c.Script(), disk, s.log, event);
  }

  /** Only a question answered with yes makes a run stop as cancelled. */
  lemma CancelledByAnswer(script: seq<Task>, log: seq<Event>, event: Event)
    requires Walk(script, log + [event]) == Stopping(true)
    ensures Walk(script, log) == Stopping(true) || event == Asked(true)
  {
    hide Walk, Advance, StepsReported, Replay;
    Logged(script, [], log, event);
    OnlyYesCancels(script, Walk(script, log), event);
  }

  lemma OnlyYesCancels(script: seq<Task>, position: Position, event: Event)
    requires Advance(script, position, event) == Stopping(true)
    ensures position == Stopping(true) || event == Asked(true)
  {}

  lemma TokenIsRead(request: Text)
    ensures HelperCancelled(request) ==> request != []
  {}

  /** A restore that stopped without a word was cancelled: giving up always leaves a text. */
  lemma {:induction false} SilenceMeansCancelled(script: seq<Task>, log: seq<Event>)
    requires Walk(script, log).Stopping?
    ensures ErrorIsEmpty(log) <==> Walk(script, log) == Stopping(true)
    decreases |log|
  {
    var rest, last := log[..|log| - 1], log[|log| - 1];
    if Walk(script, rest).Stopping? {
      SilenceMeansCancelled(script, rest);
      assert last != GaveUp(true);
      assert forall i :: 0 <= i < |rest| ==> log[i] == rest[i];
    } else {
      RunningIsSilent(script, rest);
      StopsAtOnce(script, Walk(script, rest), last);
      assert forall i :: 0 <= i < |rest| ==> log[i] == rest[i];
    }
  }

  lemma {:induction false} RunningIsSilent(script: seq<Task>, log: seq<Event>)
    requires Walk(script, log).Running?
    ensures ErrorIsEmpty(log)
    decreases |log|
  {
    if log != [] {
      RunningIsSilent(script, log[..|log| - 1]);
      GivingUpStops(script, Walk(script, log[..|log| - 1]), log[|log| - 1]);
    }
  }

  lemma GivingUpStops(script: seq<Task>, position: Position, event: Event)
    requires Advance(script, position, event).Running?
    ensures position.Running? && event != GaveUp(true)
  {}

  lemma StopsAtOnce(script: seq<Task>, position: Position, event: Event)
    requires !position.Stopping? && Advance(script, position, event).Stopping?
    ensures position.Running?
    ensures event == GaveUp(true) <==> Advance(script, position, event) == Stopping(false)
  {}

  lemma HelperStepHolds(c: Config, disk: seq<Byte>, s: State, a: Action)
    requires c.Valid() && Inv(c, disk, s) && Enabled(c, s, a)
    requires a.HelperWorks? || a.HelperDetails?
    ensures Inv(c, disk, Apply(c, s, a))
  {
    hide LinuxScript, Walk, Parsed, Encoded, Heard, HelperCancelled, NoAnnouncement, Replay, ReportLines, StepsReported;
    match a
    case HelperWorks(event, text) =>
      LoggingKeeps(c, disk, s, event);
      if Walk(c.Script(), s.log + [event]) == Stopping(true) {
        CancelledByAnswer(c.Script(), s.log, event);
      }
      WorkIsReport(s.log, event, text);
      PipeTakesReports(c, s, ReportLines(s.log, event, text));
    case HelperDetails(text) =>
      ReportIsNoAnnouncement(Detail(text));
      PipeTakesReports(c, s, [Encoded(Detail(text))]);
    case _ =>
  }

  lemma HelperAsksHolds(c: Config, disk: seq<Byte>, s: State, count: nat)
    requires c.Valid() && Inv(c, disk, s) && Enabled(c, s, HelperReads(count))
    ensures Inv(c, disk, Apply(c, s, HelperReads(count)))
  {
    hide LinuxScript, Walk, HelperCancelled, Replay, AcceptsAnnouncement, PipeInOrder, Completes;
    PipeAlike(c, s, Apply(c, s, HelperReads(count)));
    var request := s.request + s.stdin[..count];
    var event := Asked(HelperCancelled(request));
    LoggingKeeps(c, disk, s, event);
    TokenIsRead(request);
    if Walk(c.Script(), s.log + [event]) == Stopping(true) {
      CancelledByAnswer(c.Script(), s.log, event);
    }
    assert request + s.stdin[count..] == s.request + s.stdin;
  }

  lemma HelperEndHolds(c: Config, disk: seq<Byte>, s: State, a: Action)
    requires c.Valid() && Inv(c, disk, s) && Enabled(c, s, a)
    requires a.HelperRefuses? || a.HelperFinishes? || a.HelperDies?
    ensures Inv(c, disk, Apply(c, s, a))
  {
    hide LinuxScript, Walk, Parsed, Encoded, Heard, NoAnnouncement, Replay, FailureLines;
    match a
    case HelperRefuses(_, failure) =>
      FailureIsReport(failure);
      PipeTakesReports(c, s, FailureLines(failure));
    case HelperFinishes(location) =>
      ReportIsNoAnnouncement(Result(location));
      PipeTakesReports(c, s, [Encoded(Result(location))]);
    case _ =>
  }

  /** After a restore that stopped, the exit code is 3 exactly for a cancellation that was asked for. */
  lemma StoppedEndHolds(c: Config, disk: seq<Byte>, s: State, count: nat, failure: Option<Text>)
    requires c.Valid() && Inv(c, disk, s) && Enabled(c, s, HelperEnds(count, failure))
    ensures Inv(c, disk, Apply(c, s, HelperEnds(count, failure)))
  {
    hide LinuxScript, Walk, Parsed, Encoded, Heard, NoAnnouncement, Replay, FailureLines, ErrorIsEmpty, HelperCancelled;
    hide StoppedExit, AcceptsAnnouncement, Completes, PipeInOrder;
    var request := s.request + s.stdin[..count];
    var code := StoppedExit(request, s.log);
    var lines := if code == EXIT_CANCELLED then [] else FailureLines(failure);
    StoppedExitMeans(c.Script(), s.log, request);
    FailureIsReport(failure);
    NothingIsReport();
    PipeTakesReports(c, s, lines);
    PipeAlike(c, s.(stdout := s.stdout + lines), Apply(c, s, HelperEnds(count, failure)));
    assert request + s.stdin[count..] == s.request + s.stdin;
    TokenIsRead(request);
  }

  lemma StoppedExitMeans(script: seq<Task>, log: seq<Event>, request: Text)
    requires Walk(script, log).Stopping?
    ensures StoppedExit(request, log) in {EXIT_CANCELLED, EXIT_FAILED}
    ensures StoppedExit(request, log) == EXIT_CANCELLED <==>
              HelperCancelled(request) && Walk(script, log) == Stopping(true)
  {
    hide Walk, HelperCancelled, ErrorIsEmpty;
    SilenceMeansCancelled(script, log);
  }

  lemma NothingIsReport()
    ensures NoAnnouncement([])
  {}

  lemma BeginningHolds(c: Config, disk: seq<Byte>, s: State, a: Action)
    requires c.Valid() && Inv(c, disk, s) && Enabled(c, s, a)
    requires a.UserCancels? || a.AuthenticationGranted? || a.PkexecExits? || a.HelperAnnounces? || a.HelperStarts?
             || a.ClientReacts?
    ensures Inv(c, disk, Apply(c, s, a))
  {
    hide LinuxScript, Walk, Parsed, Encoded, Heard, Replay;
  }

  /** The client after it has read some of the lines. */
  lemma ReadingKeepsOrder(c: Config, s: State, count: nat)
    requires c.Valid() && AnnouncedFirst(s) && PipeInOrder(c, s) && s.client.verdict.None? && count <= |s.stdout|
    ensures var client := HeardAll(s.client, s.stdout[..count]);
            && client.verdict.None? && client.killRequested == s.client.killRequested
            && (client.sawVersion ==> s.announced)
            && PipeInOrder(c, s.(client := client, stdout := s.stdout[count..]))
            && (client.tokenWritten ==> s.client.tokenWritten || (client.sawVersion && !c.Agreed()))
            && (s.client.tokenWritten ==> client.tokenWritten)
            && (s.client.sawVersion ==> client.sawVersion)
            && (s.announced && count == |s.stdout| ==> client.sawVersion)
  {
    hide Parsed, Encoded, Heard, HeardAll, AcceptsAnnouncement;
    var lines, rest := s.stdout[..count], s.stdout[count..];
    if s.client.sawVersion {
      assert NoAnnouncement(lines) && NoAnnouncement(rest);
      ReportsChangeNoStanding(s.client, lines);
    } else if count == 0 {
      NothingHeard(s.client);
      assert lines == [] && rest == s.stdout;
    } else {
      assert lines[1..] == s.stdout[1..][..count - 1] && rest == s.stdout[1..][count - 1..];
      AnnouncementIsHeard(c, s.client, lines);
    }
  }

  lemma NothingHeard(client: Client)
    ensures HeardAll(client, []) == client
  {}

  lemma PollHolds(c: Config, disk: seq<Byte>, s: State, count: nat)
    requires c.Valid() && Inv(c, disk, s) && Enabled(c, s, ClientPolls(count))
    ensures Inv(c, disk, Apply(c, s, ClientPolls(count)))
  {
    hide LinuxScript, Walk, Parsed, Encoded, Heard, HeardAll, Replay, AcceptsAnnouncement, NoAnnouncement;
    ReadingKeepsOrder(c, s, count);
  }

  /** Hearing a line forgets neither an announcement nor a request to stop. */
  lemma HeardForgetsNothing(client: Client, line: Text)
    ensures var after := Heard(client, line);
            && (client.sawVersion ==> after.sawVersion) && (client.tokenWritten ==> after.tokenWritten)
            && after.killRequested == client.killRequested
  {
    hide Parsed, AcceptsAnnouncement;
  }

  /** The client that judges, after all lines: it has seen an announcement if there was one. */
  lemma JudgedClient(c: Config, s: State)
    requires c.Valid() && AnnouncedFirst(s) && PipeInOrder(c, s) && s.client.verdict.None? && s.process.Ended()
    ensures var judged := Judged(s);
            && (s.announced ==> judged.sawVersion)
            && (s.process.Exited? && judged.sawVersion ==> s.announced && judged.versionAccepted == c.Agreed())
            && judged.killRequested == s.client.killRequested
            && (s.client.tokenWritten ==> judged.tokenWritten)
            && judged.verdict == Some(JudgeHelperRun(HelperRun(s.process.Crashed?,
                 if s.process.Exited? then s.process.exitCode else 0, judged.sawVersion, judged.versionAccepted,
                 judged.killRequested, judged.location)))
  {
    hide Parsed, Encoded, Heard, HeardAll, JudgeHelperRun;
    var heard := HeardAll(s.client, s.stdout);
    assert s.stdout[..|s.stdout|] == s.stdout;
    ReadingKeepsOrder(c, s, |s.stdout|);
    if s.fragment != [] {
      HeardForgetsNothing(heard, s.fragment);
    }
  }

  lemma JudgeHolds(c: Config, disk: seq<Byte>, s: State)
    requires c.Valid() && Inv(c, disk, s) && Enabled(c, s, ClientJudges)
    ensures Inv(c, disk, Apply(c, s, ClientJudges))
  {
    hide LinuxScript, Walk, Judged, AcceptsAnnouncement, Replay;
    var judged := Judged(s);
    JudgedClient(c, s);
    var run := HelperRun(s.process.Crashed?, if s.process.Exited? then s.process.exitCode else 0, judged.sawVersion,
                         judged.versionAccepted, judged.killRequested, judged.location);
    FailuresAreExplained(run);
    OnlyAcceptedHelpersAreBelieved(run);
    hide JudgeHelperRun;
    if JudgeHelperRun(run) == Cancelled {
      CancellationIsTrue(c, disk, s);
    }
  }

  /** Neither a run that stopped when asked nor one that never began has changed the disk. */
  lemma CancellationIsTrue(c: Config, disk: seq<Byte>, s: State)
    requires DiskIsLogged(c, disk, s)
    requires s.log == [] || Walk(c.Script(), s.log) == Stopping(true)
    ensures s.disk == disk
  {
    hide LinuxScript, Walk;
    if s.log != [] {
      CancelledScriptWroteNothing(c.table, s.log);
    }
    QuietReplay(disk, s.log);
  }

  lemma StepHolds(c: Config, disk: seq<Byte>, s: State, a: Action)
    requires c.Valid() && Inv(c, disk, s) && Enabled(c, s, a)
    ensures Inv(c, disk, Apply(c, s, a))
  {
    hide Inv, Enabled, Apply;
    match a
    case HelperWorks(_, _) => HelperStepHolds(c, disk, s, a);
    case HelperDetails(_) => HelperStepHolds(c, disk, s, a);
    case HelperReads(count) => HelperAsksHolds(c, disk, s, count);
    case HelperRefuses(_, _) => HelperEndHolds(c, disk, s, a);
    case HelperEnds(count, failure) => StoppedEndHolds(c, disk, s, count, failure);
    case HelperFinishes(_) => HelperEndHolds(c, disk, s, a);
    case HelperDies(_) => HelperEndHolds(c, disk, s, a);
    case ClientPolls(count) => PollHolds(c, disk, s, count);
    case ClientJudges => JudgeHolds(c, disk, s);
    case _ => BeginningHolds(c, disk, s, a);
  }

  // ----- every run -----

  /** Whatever the order of the steps, the invariant holds in every state a run can reach. */
  lemma {:induction false} EveryRunHolds(c: Config, disk: seq<Byte>, actions: seq<Action>)
    requires c.Valid() && Run(c, disk, actions).Some?
    ensures Inv(c, disk, Run(c, disk, actions).value)
    decreases |actions|
  {
    hide Inv, Enabled, Apply;
    if actions == [] {
      StartHolds(c, disk);
    } else {
      var rest := actions[..|actions| - 1];
      EveryRunHolds(c, disk, rest);
      StepHolds(c, disk, Run(c, disk, rest).value, actions[|actions| - 1]);
    }
  }

  /** If a run is judged cancelled, no byte of the disk has changed, and the user had asked for it. */
  lemma CancelledMeansUntouched(c: Config, disk: seq<Byte>, actions: seq<Action>)
    requires c.Valid() && Run(c, disk, actions).Some?
    ensures var s := Run(c, disk, actions).value;
            s.client.verdict == Some(Cancelled) ==> s.disk == disk && s.userCancelled
  {
    EveryRunHolds(c, disk, actions);
    hide Run, LinuxScript, Walk;
  }

  /** If a run is judged succeeded, the whole script was done; on a calculated layout the disk then holds the
      intended tables, and a scan finds the requested style. */
  lemma SucceededMeansRestored(c: Config, disk: seq<Byte>, actions: seq<Action>)
    requires c.Valid() && Run(c, disk, actions).Some?
    ensures var s := Run(c, disk, actions).value;
            s.client.verdict == Some(Succeeded) ==>
              && Completes(LinuxScript(c.table), s.log) && StepsReported(s.log) <= LINUX_PLAN
              && (Calculated(c.table) && |disk| == c.table.diskSize ==>
                    && StepsReported(s.log) == LINUX_PLAN && HoldsImage(c.table, disk, s.disk)
                    && DetectPartitionStyle(s.disk, c.table.sectorSize) == c.table.style)
  {
    EveryRunHolds(c, disk, actions);
    hide Run, LinuxScript, Walk, Replay, Calculated, HoldsImage, StepsReported, StepsPlanned, Completes;
    var s := Run(c, disk, actions).value;
    if s.client.verdict == Some(Succeeded) {
      ScriptReportsPlan(c.table);
      StepsFollowPlan(c.Script(), s.log);
      if Calculated(c.table) && |disk| == c.table.diskSize {
        CalculatedIsGated(c.table);
        FinalImage(c.table, disk, s.log);
        FinalStyleIsDetected(c.table, disk, s.log);
      }
    }
  }

  /** A failure always carries text, so the worker reports a cancellation exactly when that is the verdict, and
      success exactly when that is. */
  lemma WorkerTellsTheTruth(c: Config, disk: seq<Byte>, actions: seq<Action>)
    requires c.Valid() && Run(c, disk, actions).Some?
    ensures var s := Run(c, disk, actions).value;
            s.client.verdict.Some? ==>
              var outcome := ConcludeVerdict(s.client.verdict.value, s.userCancelled);
              && (outcome == WasCancelled <==> s.client.verdict.value == Cancelled)
              && (outcome == Finished <==> s.client.verdict.value == Succeeded)
              && (outcome == WasCancelled ==> s.disk == disk)
  {
    EveryRunHolds(c, disk, actions);
    hide Run, LinuxScript, Walk;
  }

  /** The helper exits as cancelled only once it has read the client's request to stop, with the disk untouched. */
  lemma CancelledExitWasAskedFor(c: Config, disk: seq<Byte>, actions: seq<Action>)
    requires c.Valid() && Run(c, disk, actions).Some?
    ensures var s := Run(c, disk, actions).value;
            s.announced && s.process == Exited(EXIT_CANCELLED) ==>
              HelperCancelled(s.request) && s.client.tokenWritten && s.disk == disk
  {
    EveryRunHolds(c, disk, actions);
    hide Run, LinuxScript, Walk, HelperCancelled;
    var s := Run(c, disk, actions).value;
    if s.announced && s.process == Exited(EXIT_CANCELLED) {
      TokenIsRead(s.request);
      CancellationIsTrue(c, disk, s);
    }
  }

  /** A helper that does not agree on the protocol is never believed: if the run counts as cancelled at all, it
      was killed before it had done anything. */
  lemma RefusedHelperIsNotBelieved(c: Config, disk: seq<Byte>, actions: seq<Action>)
    requires c.Valid() && !c.Agreed() && Run(c, disk, actions).Some?
    ensures var s := Run(c, disk, actions).value;
            s.client.verdict.Some? ==>
              s.client.verdict.value != Succeeded && (s.client.verdict.value == Cancelled ==> s.log == [])
  {
    EveryRunHolds(c, disk, actions);
    hide Run, LinuxScript, Walk;
  }

  /** In no state has anything been written before the warning was reported. */
  lemma WarnedInEveryRun(c: Config, disk: seq<Byte>, actions: seq<Action>, i: nat)
    requires c.Valid() && Run(c, disk, actions).Some?
    ensures var s := Run(c, disk, actions).value;
            i < |s.log| && s.log[i].Writes() ==> exists j :: 0 <= j < i && s.log[j] == Reported(ClearSignatures)
  {
    hide Run, LinuxScript, Walk, PipeInOrder, AnnouncedFirst, AskedForAReason, ExitIsTruthful, VerdictIsTrue;
    EveryRunHolds(c, disk, actions);
    var s := Run(c, disk, actions).value;
    if i < |s.log| && s.log[i].Writes() {
      ScriptWarnsFirst(c.table, s.log, i);
    }
  }

  // ----- some run gets there -----

  /** The action that does a task in one go. */
  function Doing(task: Task): Action
  {
    match task
    case Report(step) => HelperWorks(Reported(step), [])
    case Identify => HelperWorks(Identified, [])
    case Checkpoint => HelperReads(0)
    case Store(offset, data) => HelperWorks(Stored(offset, data), [])
    case Foreign(_, _) => HelperWorks(ForeignDone, [])
    case Release => HelperWorks(Released, [])
    case Flush => HelperWorks(Flushed, [])
    case Reread => HelperWorks(RereadDone, [])
  }

  function DoingAll(script: seq<Task>): (actions: seq<Action>)
    ensures |actions| == |script|
    decreases |script|
  {
    if script == [] then [] else DoingAll(script[..|script| - 1]) + [Doing(script[|script| - 1])]
  }

  const OPENING: seq<Action> := [AuthenticationGranted, HelperAnnounces, HelperStarts]

  /** A helper undisturbed at the beginning of a task. */
  predicate UndisturbedAt(c: Config, s: State, task: nat)
  {
    && s.process == Restoring && s.announced && s.request == [] && s.stdin == []
    && s.client == NEW_CLIENT && s.fragment == [] && !s.userCancelled
    && Walk(c.Script(), s.log) == Running(task, 0)
  }

  lemma OpeningReachesHelper(c: Config, disk: seq<Byte>)
    requires c.Valid()
    ensures Run(c, disk, OPENING).Some? && UndisturbedAt(c, Run(c, disk, OPENING).value, 0)
  {
    hide LinuxScript, Encoded;
    assert OPENING[..2][..1][..0] == [] && OPENING[..2][..1] == [AuthenticationGranted];
    assert OPENING[..2] == [AuthenticationGranted, HelperAnnounces];
    assert Run(c, disk, []) == Some(Initial(disk));
    assert Run(c, disk, OPENING[..2][..1]).Some?;
    assert Run(c, disk, OPENING[..2]).Some?;
  }

  /** The event a task is done with in one go. */
  function DoneWith(task: Task): Event
  {
    match task
    case Report(step) => Reported(step)
    case Identify => Identified
    case Checkpoint => Asked(false)
    case Store(offset, data) => Stored(offset, data)
    case Foreign(_, _) => ForeignDone
    case Release => Released
    case Flush => Flushed
    case Reread => RereadDone
  }

  lemma OneEventDoes(script: seq<Task>, log: seq<Event>, task: nat)
    requires Walk(script, log) == Running(task, 0) && task < |script|
    requires script[task].Store? ==> script[task].data != []
    ensures Walk(script, log + [DoneWith(script[task])]) == Running(task + 1, 0)
  {
    hide Advance, DoneWith;
    Logged(script, [], log, DoneWith(script[task]));
    OneEventAdvances(script, task);
  }

  lemma OneEventAdvances(script: seq<Task>, task: nat)
    requires task < |script| && (script[task].Store? ==> script[task].data != [])
    ensures Advance(script, Running(task, 0), DoneWith(script[task])) == Running(task + 1, 0)
  {
    match script[task]
    case Store(offset, data) => assert data[0..] == data;
    case _ =>
  }

  lemma DoingOneTask(c: Config, s: State, task: nat)
    requires c.Valid() && UndisturbedAt(c, s, task) && task < |c.Script()|
    requires c.Script()[task].Store? ==> c.Script()[task].data != []
    ensures Enabled(c, s, Doing(c.Script()[task]))
    ensures UndisturbedAt(c, Apply(c, s, Doing(c.Script()[task])), task + 1)
  {
    hide LinuxScript, Walk, Encoded, HelperCancelled, ReportLines;
    TokenIsNotEmpty();
    OneEventDoes(c.Script(), s.log, task);
    assert s.stdin[..0] == [] && s.stdin[0..] == [] && s.request + [] == [];
  }

  lemma {:induction false} DoingReaches(c: Config, disk: seq<Byte>, k: nat)
    requires c.Valid() && k <= |c.Script()|
    requires forall j :: 0 <= j < |c.Script()| && c.Script()[j].Store? ==> c.Script()[j].data != []
    ensures var actions := OPENING + DoingAll(c.Script()[..k]);
            Run(c, disk, actions).Some? && UndisturbedAt(c, Run(c, disk, actions).value, k)
  {
    hide LinuxScript, UndisturbedAt, Enabled, Apply;
    var actions := OPENING + DoingAll(c.Script()[..k]);
    if k == 0 {
      assert actions == OPENING;
      OpeningReachesHelper(c, disk);
    } else {
      DoingReaches(c, disk, k - 1);
      var before := OPENING + DoingAll(c.Script()[..k - 1]);
      assert c.Script()[..k][..k - 1] == c.Script()[..k - 1];
      assert actions[..|actions| - 1] == before && actions[|actions| - 1] == Doing(c.Script()[k - 1]);
      DoingOneTask(c, Run(c, disk, before).value, k - 1);
    }
  }

  /** Hearing the result last leaves its location. */
  lemma LocationIsHeard(client: Client, lines: seq<Text>, location: Text)
    requires lines != [] && lines[|lines| - 1] == Encoded(Result(location))
    ensures HeardAll(client, lines).location == Sanitized(location)
  {
    hide Parsed, Encoded, Sanitized;
    EncodedIsRead(Result(location));
  }

  lemma RootPathIsClean()
    ensures Sanitized([0x2F]) == [0x2F]
  {
    var t: Text := [0x2F];
    assert Tidy(t);
    TidyIsNormal(t, 1);
    assert t[..1] == t;
    hide Scan;
  }

  /** Two sides that agree can bring every calculated restore to a success: the theorems above are not empty. */
  lemma SomeRunSucceeds(c: Config, disk: seq<Byte>) returns (actions: seq<Action>)
    requires c.Valid() && c.Agreed() && Calculated(c.table)
    ensures Run(c, disk, actions).Some? && Run(c, disk, actions).value.client.verdict == Some(Succeeded)
  {
    hide LinuxScript, Enabled, Apply, Inv, AcceptsAnnouncement, Judged, PipeInOrder, AnnouncedFirst;
    ScriptStoresFit(c.table);
    DoingReaches(c, disk, |c.Script()|);
    assert c.Script()[..|c.Script()|] == c.Script();
    var worked := OPENING + DoingAll(c.Script());
    EveryRunHolds(c, disk, worked);
    actions := worked + [HelperFinishes([0x2F])] + [ClientJudges];
    FinishingSucceeds(c, disk, worked);
  }

  lemma FinishingSucceeds(c: Config, disk: seq<Byte>, worked: seq<Action>)
    requires c.Valid() && c.Agreed() && Run(c, disk, worked).Some? && Inv(c, disk, Run(c, disk, worked).value)
    requires UndisturbedAt(c, Run(c, disk, worked).value, |c.Script()|)
    ensures var actions := worked + [HelperFinishes([0x2F])] + [ClientJudges];
            Run(c, disk, actions).Some? && Run(c, disk, actions).value.client.verdict == Some(Succeeded)
  {
    hide LinuxScript, Enabled, Apply, Inv, AcceptsAnnouncement, Judged, PipeInOrder, AnnouncedFirst, UndisturbedAt;
    var s, finish := Run(c, disk, worked).value, HelperFinishes([0x2F]);
    FinishedIsJudged(c, s);
    StepHolds(c, disk, s, finish);
    OneMoreAction(c, disk, worked, finish);
    OneMoreAction(c, disk, worked + [finish], ClientJudges);
    var finished := Apply(c, s, finish);
    InvariantParts(c, disk, finished);
    SuccessIsJudged(c, finished);
    JudgingIsPossible(c, finished);
  }

  lemma OneMoreAction(c: Config, disk: seq<Byte>, actions: seq<Action>, a: Action)
    requires c.Valid() && Run(c, disk, actions).Some?
    ensures var s := Run(c, disk, actions).value;
            Run(c, disk, actions + [a]) == if Enabled(c, s, a) then Some(Apply(c, s, a)) else None
  {
    hide Enabled, Apply;
    assert (actions + [a])[..|actions|] == actions;
  }

  lemma InvariantParts(c: Config, disk: seq<Byte>, s: State)
    requires c.Valid() && Inv(c, disk, s)
    ensures AnnouncedFirst(s) && PipeInOrder(c, s)
  {
    hide LinuxScript, Walk, PipeInOrder, AnnouncedFirst;
  }

  lemma JudgingIsPossible(c: Config, s: State)
    requires c.Valid() && s.process.Ended() && s.client.verdict.None?
    ensures Enabled(c, s, ClientJudges) && Apply(c, s, ClientJudges) == s.(client := Judged(s))
  {
    hide Judged;
  }

  lemma FinishedIsJudged(c: Config, s: State)
    requires c.Valid() && UndisturbedAt(c, s, |c.Script()|)
    ensures Enabled(c, s, HelperFinishes([0x2F]))
    ensures var finished := Apply(c, s, HelperFinishes([0x2F]));
            && finished.process == Exited(EXIT_SUCCESS) && finished.client == NEW_CLIENT && finished.announced
            && finished.fragment == [] && finished.stdout != []
            && finished.stdout[|finished.stdout| - 1] == Encoded(Result([0x2F]))
  {
    hide LinuxScript, Walk, Encoded;
  }

  lemma SuccessIsJudged(c: Config, s: State)
    requires c.Valid() && c.Agreed() && AnnouncedFirst(s) && PipeInOrder(c, s)
    requires s.process == Exited(EXIT_SUCCESS) && s.client == NEW_CLIENT && s.announced && s.fragment == []
    requires s.stdout != [] && s.stdout[|s.stdout| - 1] == Encoded(Result([0x2F]))
    ensures Judged(s).verdict == Some(Succeeded)
  {
    hide Encoded, HeardAll, Judged, JudgeHelperRun, AnnouncedFirst, PipeInOrder, Sanitized;
    var judged := Judged(s);
    JudgedClient(c, s);
    LastLineIsLocation(s, [0x2F]);
    RootPathIsClean();
    OnlyAcceptedHelpersAreBelieved(HelperRun(false, EXIT_SUCCESS, judged.sawVersion, judged.versionAccepted,
                                             judged.killRequested, judged.location));
  }

  lemma LastLineIsLocation(s: State, location: Text)
    requires s.process.Ended() && s.fragment == []
    requires s.stdout != [] && s.stdout[|s.stdout| - 1] == Encoded(Result(location))
    ensures Judged(s).location == Sanitized(location)
  {
    hide Encoded, HeardAll, Judged, Sanitized;
    JudgedLocation(s);
    LocationIsHeard(s.client, s.stdout, location);
  }

  lemma JudgedLocation(s: State)
    requires s.process.Ended() && s.fragment == []
    ensures Judged(s).location == HeardAll(s.client, s.stdout).location
  {
    hide HeardAll, JudgeHelperRun;
  }
}
