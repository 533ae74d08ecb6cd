/** The root helper as a program: it announces itself, checks what it was asked, runs
    the restore, and turns what became of it into an exit code. */
module HelperProcess {
  import opened Bytes
  import opened Wrappers
  import opened Text
  import opened Layout
  import opened RestorePlan
  import opened RestoreScript
  import opened LinuxImage
  import opened RestoreTarget
  import opened RestoreArguments
  import opened ProtocolLines
  import opened Verdict
  import opened ErrorText
  import opened Machine
  import opened HelperReporter
  import opened LinuxRestore
  import opened HelperRuns
  import RestoreProtocol

  // "--protocol-version"
  const PROTOCOL_VERSION_FLAG: Text :=
    [0x2D, 0x2D, 0x70, 0x72, 0x6F, 0x74, 0x6F, 0x63, 0x6F,
     0x6C, 0x2D, 0x76, 0x65, 0x72, 0x73, 0x69, 0x6F, 0x6E]

  /** How this helper announces itself. */
  function Announcement(appVersion: Text): ProtocolLine
  {
    Version(PROTOCOL_VERSION, appVersion, |LINUX_PLAN|, RestoreProtocol.FIRST_DESTRUCTIVE_STEP)
  }

  /** The table an accepted command line leads to, with what the system says about the disk. */
  function TableAsked(parsed: RestoreArguments, disk: DiskInfo, guard: RestoreGuard, again: DiskInfo,
                      diskGuid: seq<Byte>, partitionGuid: seq<Byte>): TableRequest
  {
    TableFor(RequestMade(parsed, disk, guard), again, diskGuid, partitionGuid)
  }

  /** The restore an accepted command line asks for. */
  function RequestMade(parsed: RestoreArguments, disk: DiskInfo, guard: RestoreGuard): RestoreRequest
  {
    RestoreRequest(disk, guard, parsed.style, parsed.fileSystem, parsed.volumeLabel)
  }

  /** A helper asked to restore the disk it finds, which is safe, is the claimed one and can be restored. */
  ghost predicate CanServe(machine: System, arguments: seq<Text>, isRoot: bool, found: Option<DiskInfo>, again: Option<DiskInfo>,
                           guard: RestoreGuard, diskGuid: seq<Byte>, partitionGuid: seq<Byte>, unicode: Unicode)
  {
    && arguments != [PROTOCOL_VERSION_FLAG] && isRoot && ParsedArguments(arguments).Some? && found.Some?
    && IsSafeRestoreTarget(found.value, guard, unicode)
    && IsSameRestoreTarget(ParsedArguments(arguments).value.expected, found.value, unicode)
    && CanSucceed(machine, RequestMade(ParsedArguments(arguments).value, found.value, guard), again,
                  diskGuid, partitionGuid, unicode)
  }

  // What a helper that refuses its arguments would have written: nothing.
  const NO_TABLE := TableRequest(UnknownStyle, ExFat, 0, 0, NO_LAYOUT, [], [], [])

  /** The helper announces itself before anything else, and its exit code is true of the disk: 0 after the whole
      script, 3 exactly when the restore ended on a request, and no restore at all for anything it
      refuses. Log, disk and exit code are those of a run of the protocol.
      `found` and `again` are what the system says about the claimed device, when first looked up and when the
      restore looks again; `reporter` holds what the caller writes. */
  method HelperMain(machine: System, reporter: HelperReporter, arguments: seq<Text>, isRoot: bool, found: Option<DiskInfo>,
                    again: Option<DiskInfo>, guard: RestoreGuard, diskGuid: seq<Byte>, partitionGuid: seq<Byte>,
                    appVersion: Text, unicode: Unicode)
    returns (exitCode: int, firstLine: Text, ghost c: RestoreProtocol.Config, ghost actions: seq<RestoreProtocol.Action>)
    requires machine.Valid() && machine.log == [] && reporter.Valid()
    modifies machine, reporter`request, reporter`cancelled, reporter`answers
    ensures machine.Valid() && machine.descriptors == old(machine.descriptors) && reporter.Valid()
    ensures firstLine == Encoded(Announcement(appVersion)) && c.announcement == Announcement(appVersion)
    ensures exitCode in {EXIT_SUCCESS, EXIT_FAILED, EXIT_USAGE, EXIT_CANCELLED}
    ensures arguments != [PROTOCOL_VERSION_FLAG] && (!isRoot || ParsedArguments(arguments).None?) ==> exitCode == EXIT_USAGE
    ensures exitCode == EXIT_SUCCESS && arguments != [PROTOCOL_VERSION_FLAG] ==>
              && ParsedArguments(arguments).Some? && found.Some? && again.Some?
              && IsSafeRestoreTarget(found.value, guard, unicode)
              && IsSameRestoreTarget(ParsedArguments(arguments).value.expected, found.value, unicode)
              && c.table == TableAsked(ParsedArguments(arguments).value, found.value, guard, again.value, diskGuid, partitionGuid)
              && HoldsRequest(RequestMade(ParsedArguments(arguments).value, found.value, guard), again.value,
                              diskGuid, partitionGuid, machine.disk)
    ensures exitCode == EXIT_CANCELLED ==>
              machine.disk == old(machine.disk) && HelperCancelled(reporter.request) && !reporter.isTerminal
    ensures arguments != [PROTOCOL_VERSION_FLAG] ==> ExitsWith(c, old(machine.disk), actions, machine.log, exitCode)
    ensures true in Answers(machine.log) <==> exitCode == EXIT_CANCELLED
    ensures old(reporter.cancelled) && arguments != [PROTOCOL_VERSION_FLAG] ==>
              exitCode != EXIT_SUCCESS && machine.disk == old(machine.disk)
    ensures CanServe(machine, arguments, isRoot, found, again, guard, diskGuid, partitionGuid, unicode) ==>
              exitCode in {EXIT_SUCCESS, EXIT_CANCELLED} || machine.hindered
    ensures exitCode == EXIT_USAGE || (exitCode == EXIT_SUCCESS && arguments == [PROTOCOL_VERSION_FLAG]) ==>
              machine.log == [] && machine.disk == old(machine.disk)
  {
    hide CanSucceed, HoldsRequest, ParsedArguments, IsSafeRestoreTarget, IsSameRestoreTarget, Encoded, Replay;
    hide ExitsWith, HelperCancelled, LinuxScript, Walk;
    firstLine := Encoded(Announcement(appVersion));
    c, actions := RestoreProtocol.Config(NO_TABLE, Announcement(appVersion)), [];
    StartsAtInitial(machine);
    TokenIsNotEmpty();
    if arguments == [PROTOCOL_VERSION_FLAG] {
      exitCode := EXIT_SUCCESS;
      return;
    }
    if !isRoot {
      exitCode := EXIT_USAGE;
      actions := ExitIsOfRun(c, machine.disk, machine.log, exitCode);
      return;
    }
    var parsed := ParseRestoreArguments(arguments);
    if parsed.None? {
      exitCode := EXIT_USAGE;
      actions := ExitIsOfRun(c, machine.disk, machine.log, exitCode);
      return;
    }
    if found.None? || !IsSafeRestoreTarget(found.value, guard, unicode)
       || !IsSameRestoreTarget(parsed.value.expected, found.value, unicode)
    {
      exitCode := EXIT_FAILED;
      actions := ExitIsOfRun(c, machine.disk, machine.log, exitCode);
      return;
    }
    c := c.(table := TableAsked(parsed.value, found.value, guard, again.GetOr(found.value), diskGuid, partitionGuid));
    ghost var before := machine.disk;
    exitCode := RestoreFound(machine, reporter, parsed.value, found.value, again, guard, diskGuid, partitionGuid, unicode);
    actions := ExitIsOfRun(c, before, machine.log, exitCode);
  }

  /** The restore proper. It counts as cancelled if the caller has asked to stop by now and there is no error to
      show, which is so exactly when the restore stopped at a question answered with yes. */
  method RestoreFound(machine: System, reporter: HelperReporter, parsed: RestoreArguments, disk: DiskInfo,
                      again: Option<DiskInfo>, guard: RestoreGuard, diskGuid: seq<Byte>, partitionGuid: seq<Byte>,
                      unicode: Unicode)
    returns (exitCode: int)
    requires machine.Valid() && machine.log == [] && reporter.Valid()
    modifies machine, reporter`request, reporter`cancelled, reporter`answers
    ensures machine.Valid() && machine.descriptors == old(machine.descriptors) && reporter.Valid()
    ensures exitCode in {EXIT_SUCCESS, EXIT_FAILED, EXIT_CANCELLED}
    ensures exitCode == EXIT_SUCCESS ==> again.Some?
    ensures exitCode == EXIT_SUCCESS ==>
              HoldsRequest(RequestMade(parsed, disk, guard), again.value, diskGuid, partitionGuid, machine.disk)
    ensures exitCode == EXIT_CANCELLED ==> machine.disk == old(machine.disk) && reporter.cancelled
    ensures true in Answers(machine.log) <==> exitCode == EXIT_CANCELLED
    ensures old(reporter.cancelled) ==> exitCode != EXIT_SUCCESS && machine.disk == old(machine.disk)
    ensures CanSucceed(machine, RequestMade(parsed, disk, guard), again, diskGuid, partitionGuid, unicode) ==>
              exitCode in {EXIT_SUCCESS, EXIT_CANCELLED} || machine.hindered
    ensures var script := LinuxScript(TableAsked(parsed, disk, guard, again.GetOr(disk), diskGuid, partitionGuid));
            && (exitCode == EXIT_SUCCESS ==> Completes(script, machine.log))
            && (exitCode == EXIT_CANCELLED <==> Walk(script, machine.log) == Stopping(true))
            && (exitCode == EXIT_FAILED <==> Walk(script, machine.log) == Stopping(false))
  {
    hide PassesChecks, CanSucceed, HoldsRequest, Replay, LinuxScript, Walk, Calculated, HoldsImage, StepsReported;
    hide WarnedFirst;
    hide HelperCancelled, IdentifiedFirst, FlushedFirst, Answers;
    var request := RequestMade(parsed, disk, guard);
    var ok, error := PerformLinuxRestore(machine, reporter, request, again, diskGuid, partitionGuid, unicode);
    if ok {
      RefreshedIsThere(request, again, unicode);
      return EXIT_SUCCESS;
    }
    var asked, waiting := reporter.CancelRequested();
    if asked && error.NoText? {
      return EXIT_CANCELLED;
    }
    return EXIT_FAILED;
  }

  /** This helper's announcement is the one this client accepts. */
  lemma AnnouncementIsAccepted(appVersion: Text)
    ensures IsFirstDestructive(LINUX_PLAN, RestoreProtocol.FIRST_DESTRUCTIVE_STEP)
    ensures AcceptsAnnouncement(Parsed(Encoded(Announcement(appVersion))), LINUX_PLAN, RestoreProtocol.FIRST_DESTRUCTIVE_STEP)
  {
    hide Parsed, Encoded;
    PlansTurnDestructiveAtFive(RestoreProtocol.FIRST_DESTRUCTIVE_STEP);
    EncodedIsRead(Announcement(appVersion));
  }
}
