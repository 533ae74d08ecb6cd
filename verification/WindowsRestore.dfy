/** The restore on Windows: the same discipline of steps and cancellation, with the
    tables and the format left to Windows, which may write anywhere on the disk. */
module WindowsRestore {
  import opened Bytes
  import opened Wrappers
  import opened Text
  import opened Layout
  import opened Fat32
  import opened RestoreTarget
  import opened RestorePlan
  import opened RestoreScript
  import opened Stores
  import opened LinuxImage
  import opened Machine
  import opened RawDisk
  import opened Run
  import opened ErrorText
  import opened Verdict
  import opened RestoreWorker

  const MAXIMUM_FAT32_VOLUME_BYTES: int := 32 * ONE_GIB

  const HARMLESS: seq<Task> :=
    [ Report(VerifyDisk), Report(OpenDrive), Identify, Checkpoint,
      Report(RefreshMetadata), Report(DetachDriveLetters), Checkpoint, Identify ]

  function DeleteTasks(diskSize: nat): seq<Task>
  {
    [Report(DeletePartitions), Foreign(0, diskSize), Report(LockDrive), Identify, Report(ClearSignatures)]
  }

  function RebuildTasks(diskSize: nat): seq<Task>
  {
    [ Report(ResetToRaw), Foreign(0, diskSize), Report(CreatePartition), Foreign(0, diskSize), Report(WaitForVolume),
      Report(RefreshNewVolume), Identify, Report(AssignDriveLetter), Report(FormatVolume), Identify,
      Foreign(0, diskSize), Report(Complete) ]
  }

  function WindowsScript(diskSize: U64, sectorSize: U32): seq<Task>
  {
    HARMLESS + DeleteTasks(diskSize) + ClearTasks(diskSize, sectorSize) + RebuildTasks(diskSize)
  }

  // ----- the shape of the script -----

  lemma StepsOfDelete(diskSize: nat)
    ensures StepsPlanned(DeleteTasks(diskSize)) == [DeletePartitions, LockDrive, ClearSignatures]
  {
    hide StepsPlanned;
    var t := DeleteTasks(diskSize);
    StepsOfPair(t[0], t[1]);
    StepsOfPair(t[2], t[3]);
    StepsOfPair(t[4], t[4]);
    StepsOfConcatenation([t[0], t[1]], [t[2], t[3]]);
    StepsOfConcatenation([t[0], t[1]] + [t[2], t[3]], [t[4]]);
    assert t == [t[0], t[1]] + [t[2], t[3]] + [t[4]];
  }

  lemma StepsOfHarmless()
    ensures StepsPlanned(HARMLESS) == [VerifyDisk, OpenDrive, RefreshMetadata, DetachDriveLetters]
  {
    hide StepsPlanned;
    var t := HARMLESS;
    StepsOfFour(t[0], t[1], t[2], t[3]);
    StepsOfFour(t[4], t[5], t[6], t[7]);
    StepsOfConcatenation([t[0], t[1]] + [t[2], t[3]], [t[4], t[5]] + [t[6], t[7]]);
    assert t == ([t[0], t[1]] + [t[2], t[3]]) + ([t[4], t[5]] + [t[6], t[7]]);
  }

  lemma StepsOfRebuild(diskSize: nat)
    ensures StepsPlanned(RebuildTasks(diskSize))
         == [ResetToRaw, CreatePartition, WaitForVolume, RefreshNewVolume, AssignDriveLetter, FormatVolume, Complete]
  {
    hide StepsPlanned;
    var t := RebuildTasks(diskSize);
    var first, second, third := [t[0], t[1]] + [t[2], t[3]], [t[4], t[5]] + [t[6], t[7]], [t[8], t[9]] + [t[10], t[11]];
    StepsOfFour(t[0], t[1], t[2], t[3]);
    StepsOfFour(t[4], t[5], t[6], t[7]);
    StepsOfFour(t[8], t[9], t[10], t[11]);
    StepsOfConcatenation(first, second);
    StepsOfConcatenation(first + second, third);
    assert t == first + second + third;
  }

  /** The script reports exactly the published plan. */
  lemma WindowsScriptReportsPlan(diskSize: U64, sectorSize: U32)
    ensures StepsPlanned(WindowsScript(diskSize, sectorSize)) == WINDOWS_PLAN
  {
    hide StepsPlanned, SignatureClearRange;
    var clear := ClearTasks(diskSize, sectorSize);
    StepsOfHarmless();
    StepsOfDelete(diskSize);
    StepsOfStores(clear);
    StepsOfRebuild(diskSize);
    StepsOfConcatenation(HARMLESS, DeleteTasks(diskSize));
    StepsOfConcatenation(HARMLESS + DeleteTasks(diskSize), clear);
    StepsOfConcatenation(HARMLESS + DeleteTasks(diskSize) + clear, RebuildTasks(diskSize));
  }

  lemma WindowsTaskPlaces(diskSize: U64, sectorSize: U32)
    ensures var script, clear, rebuild := WindowsScript(diskSize, sectorSize), ClearTasks(diskSize, sectorSize), RebuildTasks(diskSize);
            && HARMLESS <= script && |script| == 25 + |clear|
            && (forall k :: 8 <= k < 13 ==> script[k] == DeleteTasks(diskSize)[k - 8])
            && (forall k :: 13 <= k < 13 + |clear| ==> script[k] == clear[k - 13])
            && (forall k :: 13 + |clear| <= k < 25 + |clear| ==> script[k] == rebuild[k - 13 - |clear|])
  {
    hide ClearTasks;
  }

  /** The tasks until it has been asked for the last time. */
  lemma HarmlessFirst(diskSize: U64, sectorSize: U32)
    ensures var script := WindowsScript(diskSize, sectorSize);
            && HARMLESS <= script && script[1] == Report(OpenDrive) && script[2] == Identify && script[3] == Checkpoint
            && script[6] == Checkpoint
  {
    hide WindowsScript;
    WindowsTaskPlaces(diskSize, sectorSize);
  }

  /** Cancellation ends, and writing begins, with the report that the partitions are being deleted. */
  lemma WindowsScriptTurnsDestructive(diskSize: U64, sectorSize: U32)
    ensures TurnsDestructiveAt(WindowsScript(diskSize, sectorSize), 8)
    ensures WindowsScript(diskSize, sectorSize)[8] == Report(DeletePartitions)
    ensures WindowsScript(diskSize, sectorSize)[7] == Identify
  {
    hide SignatureClearRange;
    var script, rest := WindowsScript(diskSize, sectorSize),
                        DeleteTasks(diskSize) + ClearTasks(diskSize, sectorSize) + RebuildTasks(diskSize);
    assert script == HARMLESS + rest;
    assert forall k :: 0 <= k < |rest| ==> rest[k] != Checkpoint;
    assert forall k :: 8 <= k < |script| ==> script[k] == rest[k - 8];
  }

  // ----- the restore -----

  /** Windows formats FAT32 exactly up to 32 GiB and where some unit is legal, and ext4 not at all. */
  ghost predicate WindowsFormats(fileSystem: FileSystemType, diskSize: U64, sectorSize: U32)
  {
    var length := CalculateGptLayout(diskSize, sectorSize).length;
    && fileSystem != Ext4
    && (fileSystem == Fat32 ==> && IsSupportedSectorSize(sectorSize) && length <= 32 * 1024 * 1024 * 1024
                                && exists unit: U32 :: LegalUnit(length, sectorSize, unit))
  }

  method CanFormatFileSystem(fileSystem: FileSystemType, diskSize: U64, sectorSize: U32)
    returns (ok: bool, reason: ErrorText)
    ensures ok <==> reason.NoText?
    ensures ok <==> WindowsFormats(fileSystem, diskSize, sectorSize)
  {
    hide CalculateGptLayout, LegalUnit;
    match fileSystem
    case ExFat => return true, NoText;
    case Ntfs => return true, NoText;
    case Fat32 =>
      var length := CalculateGptLayout(diskSize, sectorSize).length;
      if length > MAXIMUM_FAT32_VOLUME_BYTES {
        return false, SomeText;
      }
      var unit := AllocationUnitSize(length, sectorSize, MAXIMUM_FAT32_VOLUME_BYTES);
      OfferedMeansLegal(length, sectorSize, unit);
      return unit != 0, Wording(unit != 0);
    case Ext4 => return false, SomeText;
  }

  lemma OfferedMeansLegal(length: U64, sectorSize: U32, unit: U32)
    requires !IsSupportedSectorSize(sectorSize) || length == 0 ==> unit == 0
    requires IsSupportedSectorSize(sectorSize) && length > 0 ==>
               IsBestUnit(length, sectorSize, PreferredUnit(length), ALLOCATION_UNIT_SIZES, unit)
    ensures unit != 0 <==> IsSupportedSectorSize(sectorSize) && exists u: U32 :: LegalUnit(length, sectorSize, u)
  {
    hide IsBestUnit, PreferredUnit;
    if IsSupportedSectorSize(sectorSize) && length > 0 {
      BestMeansLegal(length, sectorSize, PreferredUnit(length), unit);
    }
  }

  /** A call to the volume manager: where it fails it may or may not say why. */
  method VolumeCall(machine: System) returns (ok: bool, failure: ErrorText)
    modifies machine`hindered
    ensures machine.hindered == (old(machine.hindered) || !ok)
  {
    ok := machine.Succeeds();
    failure := *;
  }

  /** Windows, or a part of it, does something to the disk that may write anywhere. */
  method WindowsWrites(run: Run, raw: RawDisk, ghost task: nat) returns (ok: bool)
    requires run.At(task) && run.machine == raw.machine && raw.Valid()
    requires task < |run.script| && run.script[task] == Foreign(0, |run.machine.disk|)
    modifies run.machine`disk, run.machine`log, run.machine`hindered
    ensures raw.Valid() && |run.machine.disk| == |old(run.machine.disk)|
    ensures run.At(task) && (!ok ==> run.machine.hindered)
  {
    hide Walk, StepsReported, Answers, Replay;
    ghost var log := run.machine.log;
    ok := run.machine.RunConfined(0, |run.machine.disk|);
    ForeignWalks(run.script, log, run.machine.log, task);
  }

  /** All Windows had to write for one task; a failure is put into words here. */
  method ForeignTask(run: Run, raw: RawDisk, ghost task: nat) returns (ok: bool, error: ErrorText)
    requires run.At(task) && run.machine == raw.machine && raw.Valid()
    requires task < |run.script| && run.script[task] == Foreign(0, |run.machine.disk|)
    modifies run.machine`disk, run.machine`log, run.machine`hindered
    ensures raw.Valid() && |run.machine.disk| == |old(run.machine.disk)|
    ensures (ok <==> error.NoText?) && (!ok ==> run.machine.hindered)
    ensures if ok then run.At(task + 1) else run.Working()
  {
    hide Walk, StepsReported, Answers, Replay;
    ok := WindowsWrites(run, raw, task);
    var failure: ErrorText := *;
    error := if ok then NoText else Around(failure);
    if ok {
      TaskDone(run.script, run.machine.log, task);
      run.machine.Note(ForeignDone);
    }
  }

  /** An empty table through the verified handle, and then up to twenty looks until Windows lists no partition. */
  method ReplaceLayoutWithEmptyGpt(run: Run, raw: RawDisk, ghost task: nat) returns (ok: bool, error: ErrorText)
    requires run.At(task) && run.machine == raw.machine && raw.Valid()
    requires task < |run.script| && run.script[task] == Foreign(0, |run.machine.disk|)
    modifies run.machine`disk, run.machine`log, run.machine`hindered
    ensures raw.Valid() && |run.machine.disk| == |old(run.machine.disk)|
    ensures (ok <==> error.NoText?) && (!ok ==> run.machine.hindered)
    ensures if ok then run.At(task + 1) else run.Working()
  {
    hide Walk, StepsReported, Answers, Replay;
    ok := WindowsWrites(run, raw, task);
    if !ok {
      return false, SomeText;
    }
    var readError := NoText;
    var isEmpty := false;
    var attempt := 0;
    while attempt < 20 && !isEmpty
      invariant run.At(task) && raw.Valid() && |run.machine.disk| == |old(run.machine.disk)|
      invariant attempt > 0 && !isEmpty ==> run.machine.hindered
    {
      readError := NoText;
      var read := run.machine.Succeeds();
      if read {
        isEmpty := run.machine.Succeeds();
      } else {
        readError := SomeText;
      }
      attempt := attempt + 1;
    }
    if !isEmpty {
      return false, Unless(readError);
    }
    TaskDone(run.script, run.machine.log, task);
    run.machine.Note(ForeignDone);
    ok, error := true, NoText;
  }

  method ZeroRawTask(run: Run, raw: RawDisk, offset: U64, bytes: U64, sectorSize: U32, ghost task: nat)
    returns (ok: bool, error: ErrorText)
    requires run.At(task) && run.machine == raw.machine && raw.Valid() && bytes > 0
    requires task < |run.script| && run.script[task] == Store(offset, Zeros(bytes))
    modifies run.machine`disk, run.machine`log, run.machine`hindered, raw`pointer, raw`writeAccepted
    modifies raw`notReadyRetries, raw`retriedLate, raw`refusals
    ensures raw.Valid() && |run.machine.disk| == |old(run.machine.disk)|
    ensures ok <==> error.NoText?
    ensures !ok && IsAlignedZeroRange(offset, bytes, sectorSize) ==> run.machine.hindered
    ensures if ok then run.At(task + 1) else run.Working()
  {
    hide Walk, StepsReported, Answers, Replay, Stores.Wrote;
    ghost var disk, log := run.machine.disk, run.machine.log;
    ghost var stored;
    ok, error, stored := raw.WriteZeros(offset, bytes, sectorSize);
    assert Zeros(stored) == Zeros(bytes)[..stored];
    assert Zeros(bytes)[0] == 0;
    StoreWalks(run.script, disk, log, run.machine.disk, run.machine.log, task, stored);
  }

  /** Both ends of the disk; a disk too small to clear is refused. */
  method ClearPartitionSignatures(run: Run, raw: RawDisk, diskSize: U64, sectorSize: U32)
    returns (ok: bool, error: ErrorText)
    requires run.At(13) && run.machine == raw.machine && raw.Valid()
    requires run.script == WindowsScript(diskSize, sectorSize)
    modifies run.machine`disk, run.machine`log, run.machine`hindered, raw`pointer, raw`writeAccepted
    modifies raw`notReadyRetries, raw`retriedLate, raw`refusals
    ensures raw.Valid() && |run.machine.disk| == |old(run.machine.disk)|
    ensures ok <==> error.NoText?
    ensures !ok && diskSize >= MINIMUM_RESTORE_TARGET_BYTES ==> run.machine.hindered
    ensures if ok then run.At(13 + |ClearTasks(diskSize, sectorSize)|) else run.Working()
  {
    hide Walk, StepsReported, Answers, Replay, SignatureClearRange, WindowsScript, IsAlignedZeroRange;
    WindowsTaskPlaces(diskSize, sectorSize);
    ClearsWholeSectors(diskSize, sectorSize);
    var clear := SignatureClearRange(diskSize, sectorSize);
    if clear.bytes == 0 {
      return false, SomeText;
    }
    ghost var tasks := ClearTasks(diskSize, sectorSize);
    assert run.script[13] == tasks[0] && run.script[14] == tasks[1];
    ok, error := ZeroRawTask(run, raw, 0, clear.bytes, clear.sectorSize, 13);
    if ok {
      ok, error := ZeroRawTask(run, raw, clear.tailOffset, clear.bytes, clear.sectorSize, 14);
    }
  }

  /** The partitions are deleted, and the empty table removes what could not be deleted. */
  method DeletePartitionRecords(run: Run, raw: RawDisk) returns (ok: bool, error: ErrorText)
    requires run.At(9) && run.machine == raw.machine && raw.Valid()
    requires 9 < |run.script| && run.script[9] == Foreign(0, |run.machine.disk|)
    modifies run.machine`disk, run.machine`log, run.machine`hindered
    ensures raw.Valid() && |run.machine.disk| == |old(run.machine.disk)|
    ensures (ok <==> error.NoText?) && (!ok ==> run.machine.hindered)
    ensures if ok then run.At(10) else run.Working()
  {
    hide Walk, StepsReported, Answers, Replay;
    ok := WindowsWrites(run, raw, 9);
    if !ok {
      var failure: ErrorText := *;
      return false, Around(failure);
    }
    ok, error := ReplaceLayoutWithEmptyGpt(run, raw, 9);
  }

  /** The handle still holds the selected disk. */
  method IdentifyTask(run: Run, raw: RawDisk, disk: DiskInfo, unicode: Unicode, ghost task: nat)
    returns (ok: bool, error: ErrorText)
    requires run.At(task) && task < |run.script| && run.script[task] == Identify
    requires run.machine == raw.machine && raw.Valid()
    modifies run.machine`log, run.machine`hindered
    ensures raw.Valid() && (ok <==> error.NoText?)
    ensures if ok then run.At(task + 1) else run.At(task)
    ensures (!ok && raw.handle >= 0 && HoldsDisk(run.machine, disk)) || old(run.machine.hindered) ==> run.machine.hindered
    ensures ok && disk.size != 0 ==> |run.machine.disk| == disk.size
  {
    hide Walk, StepsReported, Answers, HandleIdentifies, HoldsDisk;
    TaskDone(run.script, run.machine.log, task);
    ghost var log := run.machine.log;
    ghost var seen;
    ok, error, seen := raw.VerifyIdentity(disk, unicode);
    assert log + [] == log;
  }

  /** The disk can be identified and is large enough to restore: then only a call that fails, or a wish to stop, can
      end the run early. */
  ghost predicate CanBeDone(machine: System, disk: DiskInfo)
  {
    HoldsDisk(machine, disk) && disk.size >= MINIMUM_RESTORE_TARGET_BYTES
  }

  /** From the last question to the cleared disk. */
  method EraseDisk(run: Run, raw: RawDisk, disk: DiskInfo, unicode: Unicode) returns (ok: bool, error: ErrorText)
    requires run.At(7) && run.machine == raw.machine && raw.Valid() && raw.handle >= 0 && disk.size > 0
    requires run.script == WindowsScript(disk.size, disk.sectorSize)
    modifies run`outOfOrder, run.steps`done, run.machine`disk, run.machine`log, run.machine`hindered
    modifies raw`pointer, raw`writeAccepted, raw`notReadyRetries, raw`retriedLate, raw`refusals
    ensures raw.Valid() && (ok ==> |run.machine.disk| == disk.size)
    ensures (ok <==> error.NoText?) && (!ok && CanBeDone(run.machine, disk) ==> run.machine.hindered)
    ensures if ok then run.At(13 + |ClearTasks(disk.size, disk.sectorSize)|) else run.Working()
  {
    hide Walk, StepsReported, Answers, Replay, WindowsScript, ClearTasks;
    WindowsTaskPlaces(disk.size, disk.sectorSize);
    // The disk is addressed by number next, so the handle is checked once more.
    ok, error := IdentifyTask(run, raw, disk, unicode, 7);
    if !ok {
      return;
    }
    run.Report(DeletePartitions, 8);
    ok, error := DeletePartitionRecords(run, raw);
    if ok {
      ok, error := LockAndClear(run, raw, disk, unicode);
    }
  }

  /** A lock that is refused is passed over. */
  method LockAndClear(run: Run, raw: RawDisk, disk: DiskInfo, unicode: Unicode) returns (ok: bool, error: ErrorText)
    requires run.At(10) && run.machine == raw.machine && raw.Valid() && raw.handle >= 0 && disk.size > 0
    requires run.script == WindowsScript(disk.size, disk.sectorSize)
    modifies run`outOfOrder, run.steps`done, run.machine`disk, run.machine`log, run.machine`hindered
    modifies raw`pointer, raw`writeAccepted, raw`notReadyRetries, raw`retriedLate, raw`refusals
    ensures raw.Valid() && (ok ==> |run.machine.disk| == disk.size)
    ensures (ok <==> error.NoText?) && (!ok && CanBeDone(run.machine, disk) ==> run.machine.hindered)
    ensures if ok then run.At(13 + |ClearTasks(disk.size, disk.sectorSize)|) else run.Working()
  {
    hide Walk, StepsReported, Answers, Replay, WindowsScript, ClearTasks;
    WindowsTaskPlaces(disk.size, disk.sectorSize);
    run.Report(LockDrive, 10);
    ok, error := IdentifyTask(run, raw, disk, unicode, 11);
    if ok {
      run.Report(ClearSignatures, 12);
      ok, error := ClearPartitionSignatures(run, raw, disk.size, disk.sectorSize);
    }
  }

  lemma RebuildPlaces(script: seq<Task>, diskSize: nat, first: nat)
    requires Holds(script, first, RebuildTasks(diskSize))
    ensures first + 12 <= |script| && script[first] == Report(ResetToRaw) && script[first + 1] == Foreign(0, diskSize)
    ensures script[first + 2] == Report(CreatePartition) && script[first + 3] == Foreign(0, diskSize)
    ensures script[first + 4] == Report(WaitForVolume) && script[first + 5] == Report(RefreshNewVolume)
    ensures script[first + 6] == Identify && script[first + 7] == Report(AssignDriveLetter)
  {
    assert forall k :: 0 <= k < 8 ==> script[first + k] == RebuildTasks(diskSize)[k];
  }

  /** Partition, volume and drive letter. */
  method RebuildDisk(run: Run, raw: RawDisk, disk: DiskInfo, unicode: Unicode, ghost first: nat)
    returns (ok: bool, error: ErrorText)
    requires run.At(first) && run.machine == raw.machine && raw.Valid() && raw.handle >= 0
    requires |run.machine.disk| == disk.size && Holds(run.script, first, RebuildTasks(disk.size))
    modifies run`outOfOrder, run.steps`done, run.machine`disk, run.machine`log, run.machine`hindered
    ensures raw.Valid() && (ok ==> |run.machine.disk| == disk.size)
    ensures (ok <==> error.NoText?) && (!ok && CanBeDone(run.machine, disk) ==> run.machine.hindered)
    ensures if ok then run.At(first + 8) else run.Working()
  {
    hide Walk, StepsReported, Answers, Replay, Holds;
    RebuildPlaces(run.script, disk.size, first);
    run.Report(ResetToRaw, first);
    ok, error := ForeignTask(run, raw, first + 1);
    if ok {
      run.Report(CreatePartition, first + 2);
      ok, error := ForeignTask(run, raw, first + 3);
    }
    if ok {
      ok, error := AwaitVolume(run, raw, disk, unicode, first + 4);
    }
  }

  /** The disk behind the handle is still the selected one; a refusal becomes part of a longer sentence. */
  method ConfirmStillSelected(run: Run, raw: RawDisk, disk: DiskInfo, unicode: Unicode, ghost task: nat)
    returns (ok: bool, error: ErrorText)
    requires run.At(task) && task < |run.script| && run.script[task] == Identify
    requires run.machine == raw.machine && raw.Valid() && raw.handle >= 0
    modifies run.machine`log, run.machine`hindered
    ensures raw.Valid() && (ok <==> error.NoText?) && (!ok && HoldsDisk(run.machine, disk) ==> run.machine.hindered)
    ensures if ok then run.At(task + 1) else run.At(task)
  {
    hide Walk, StepsReported, Answers, HoldsDisk;
    var reason;
    ok, reason := IdentifyTask(run, raw, disk, unicode, task);
    error := if ok then NoText else Around(reason);
  }

  method AwaitVolume(run: Run, raw: RawDisk, disk: DiskInfo, unicode: Unicode, ghost first: nat)
    returns (ok: bool, error: ErrorText)
    requires run.At(first) && run.machine == raw.machine && raw.Valid() && raw.handle >= 0
    requires first + 4 <= |run.script| && run.script[first] == Report(WaitForVolume)
    requires run.script[first + 1] == Report(RefreshNewVolume) && run.script[first + 2] == Identify
    requires run.script[first + 3] == Report(AssignDriveLetter)
    modifies run`outOfOrder, run.steps`done, run.machine`log, run.machine`hindered
    ensures raw.Valid() && (if ok then run.At(first + 4) else run.Working())
    ensures (ok <==> error.NoText?) && (!ok && HoldsDisk(run.machine, disk) ==> run.machine.hindered)
  {
    hide Walk, StepsReported, Answers, Replay, HoldsDisk;
    var failure;
    run.Report(WaitForVolume, first);
    ok, failure := VolumeCall(run.machine);
    if !ok {
      return false, Around(failure);
    }
    run.Report(RefreshNewVolume, first + 1);
    ok, failure := VolumeCall(run.machine);
    if !ok {
      return false, Around(failure);
    }
    ok, error := ConfirmStillSelected(run, raw, disk, unicode, first + 2);
    if !ok {
      return;
    }
    run.Report(AssignDriveLetter, first + 3);
    ok, failure := VolumeCall(run.machine);
    error := if ok then NoText else Around(failure);
  }

  method FormatNewVolume(run: Run, raw: RawDisk, disk: DiskInfo, unicode: Unicode, ghost first: nat)
    returns (ok: bool, error: ErrorText)
    requires run.At(first) && run.machine == raw.machine && raw.Valid() && raw.handle >= 0
    requires |run.machine.disk| == disk.size
    requires first + 4 <= |run.script| && run.script[first] == Report(FormatVolume) && run.script[first + 1] == Identify
    requires run.script[first + 2] == Foreign(0, disk.size) && run.script[first + 3] == Report(Complete)
    modifies run`outOfOrder, run.steps`done, run.machine`disk, run.machine`log, run.machine`hindered
    ensures raw.Valid() && (if ok then run.At(first + 4) else run.Working())
    ensures (ok <==> error.NoText?) && (!ok && HoldsDisk(run.machine, disk) ==> run.machine.hindered)
  {
    hide Walk, StepsReported, Answers, Replay, HoldsDisk;
    run.Report(FormatVolume, first);
    ok, error := ConfirmStillSelected(run, raw, disk, unicode, first + 1);
    if ok {
      ok, error := ForeignTask(run, raw, first + 2);
    }
    if ok {
      run.Report(Complete, first + 3);
    }
  }

  /** Everything after the last place to stop. */
  method RestoreErased(run: Run, raw: RawDisk, disk: DiskInfo, unicode: Unicode) returns (ok: bool, error: ErrorText)
    requires run.At(7) && run.machine == raw.machine && raw.Valid() && raw.handle >= 0 && disk.size > 0
    requires run.script == WindowsScript(disk.size, disk.sectorSize)
    modifies run`outOfOrder, run.steps`done, run.machine`disk, run.machine`log, run.machine`hindered
    modifies raw`pointer, raw`writeAccepted, raw`notReadyRetries, raw`retriedLate, raw`refusals
    ensures raw.Valid()
    ensures (ok <==> error.NoText?) && (!ok && CanBeDone(run.machine, disk) ==> run.machine.hindered)
    ensures if ok then run.At(|WindowsScript(disk.size, disk.sectorSize)|) else run.Working()
  {
    hide Walk, StepsReported, Answers, Replay, WindowsScript, ClearTasks;
    WindowsTaskPlaces(disk.size, disk.sectorSize);
    ghost var first := 13 + |ClearTasks(disk.size, disk.sectorSize)|;
    ok, error := EraseDisk(run, raw, disk, unicode);
    if ok {
      ok, error := RebuildDisk(run, raw, disk, unicode, first);
    }
    if ok {
      ok, error := FormatNewVolume(run, raw, disk, unicode, first + 8);
    }
  }

  method DetachVolumes(run: Run) returns (ok: bool, error: ErrorText)
    requires HARMLESS <= run.script && run.At(4)
    modifies run`outOfOrder, run.steps`done, run.machine`log, run.machine`hindered
    ensures (ok <==> error.NoText?) && (!ok ==> run.machine.hindered)
    ensures if ok then run.At(6) else run.Working()
  {
    hide Walk, StepsReported, Answers, Replay;
    var failure;
    run.Report(RefreshMetadata, 4);
    ok, failure := VolumeCall(run.machine);
    if !ok {
      return false, Around(failure);
    }
    run.Report(DetachDriveLetters, 5);
    ok, failure := VolumeCall(run.machine);
    error := if ok then NoText else Around(failure);
  }

  /** A failure without a text only after the user has asked to stop. */
  ghost predicate Heeded(worker: RestoreWorker, ok: bool, error: ErrorText)
    reads worker
  {
    (ok ==> error.NoText?) && (!ok && error.NoText? ==> worker.cancelRequested)
  }

  /** The run knows every answer that was given. */
  ghost predicate Heard(run: Run, worker: RestoreWorker)
    reads run, worker
  {
    worker.answers == run.earlier + run.answers
  }

  /** From the detached volumes to the last place to stop, and on. */
  method RestoreOpened(run: Run, worker: RestoreWorker, raw: RawDisk, disk: DiskInfo, unicode: Unicode)
    returns (ok: bool, error: ErrorText)
    requires run.At(4) && run.machine == raw.machine && raw.Valid() && raw.handle >= 0 && disk.size > 0
    requires Heard(run, worker)
    requires run.script == WindowsScript(disk.size, disk.sectorSize)
    modifies run`outOfOrder, run`answers, run.steps`done, run.machine`disk, run.machine`log, run.machine`hindered
    modifies worker`cancelRequested, worker`answers
    modifies raw`pointer, raw`writeAccepted, raw`notReadyRetries, raw`retriedLate, raw`refusals
    ensures raw.Valid()
    ensures if ok then run.At(|WindowsScript(disk.size, disk.sectorSize)|) else run.Stopped(error.NoText?)
    ensures Heard(run, worker) && Heeded(worker, ok, error)
    ensures error.SomeText? && CanBeDone(run.machine, disk) ==> run.machine.hindered
  {
    hide Walk, StepsReported, Answers, Replay, WindowsScript, CanBeDone;
    HarmlessFirst(disk.size, disk.sectorSize);
    ok, error := DetachVolumes(run);
    if ok {
      var cancelled := worker.CancelRequested();
      run.Answered(cancelled, 6);
      if cancelled {
        return false, NoText;
      }
      ok, error := RestoreErased(run, raw, disk, unicode);
    }
    if !ok {
      run.GiveUp(error);
    }
  }

  method OpenVerified(run: Run, raw: RawDisk, disk: DiskInfo, unicode: Unicode) returns (ok: bool, error: ErrorText)
    requires HARMLESS <= run.script && run.At(2) && run.machine == raw.machine
    requires raw.Valid() && raw.handle < 0
    modifies raw`handle, raw.machine`descriptors, run.machine`log, run.machine`hindered
    ensures raw.Valid() && (ok <==> error.NoText?) && (ok ==> raw.handle >= 0)
    ensures if ok then run.At(3) else run.Working()
    ensures !ok && HoldsDisk(run.machine, disk) ==> run.machine.hindered
    ensures raw.machine.descriptors == old(raw.machine.descriptors) + raw.Owned()
    ensures raw.Owned() !! old(raw.machine.descriptors)
  {
    hide Walk, StepsReported, Answers, Replay, HoldsDisk;
    ok, error := raw.Open();
    if ok {
      ok, error := IdentifyTask(run, raw, disk, unicode, 2);
    }
  }

  method RestoreDrive(run: Run, worker: RestoreWorker, raw: RawDisk, disk: DiskInfo, unicode: Unicode)
    returns (ok: bool, error: ErrorText)
    requires run.At(1) && run.machine == raw.machine && raw.Valid() && raw.handle < 0 && disk.size > 0
    requires Heard(run, worker)
    requires run.script == WindowsScript(disk.size, disk.sectorSize)
    modifies run`outOfOrder, run`answers, run.steps`done, raw, worker`cancelRequested, worker`answers
    modifies run.machine`disk, run.machine`log, run.machine`hindered, run.machine`descriptors
    ensures raw.Valid()
    ensures run.machine.descriptors == old(run.machine.descriptors) + raw.Owned()
    ensures raw.Owned() !! old(run.machine.descriptors)
    ensures if ok then run.At(|WindowsScript(disk.size, disk.sectorSize)|) else run.Stopped(error.NoText?)
    ensures old(worker.cancelRequested) && old(run.answers) == [] ==> run.answers == [] || run.answers == [true]
    ensures Heard(run, worker) && Heeded(worker, ok, error)
    ensures error.SomeText? && CanBeDone(run.machine, disk) ==> run.machine.hindered
  {
    hide Walk, StepsReported, Answers, Replay, WindowsScript, HoldsDisk;
    HarmlessFirst(disk.size, disk.sectorSize);
    run.Report(OpenDrive, 1);
    ok, error := OpenVerified(run, raw, disk, unicode);
    if !ok {
      run.GiveUp(error);
      return;
    }
    var cancelled := worker.CancelRequested();
    run.Answered(cancelled, 3);
    assert old(run.answers) + [cancelled] == run.answers;
    if cancelled {
      return false, NoText;
    }
    ok, error := RestoreOpened(run, worker, raw, disk, unicode);
  }

  /** The disk selected is safe and can be laid out, and so it is as it is now; Windows can format it. */
  ghost predicate PassesChecks(request: RestoreRequest, refreshed: Option<DiskInfo>, unicode: Unicode)
  {
    && refreshed.Some? && IsSafeRestoreTarget(request.disk, request.guard, unicode)
    && CanCreatePartitionLayout(request.style, request.disk.size, request.disk.sectorSize)
    && var current := refreshed.value;
    && IsSameRestoreTarget(request.disk, current, unicode)
    && IsSafeRestoreTarget(current, request.guard, unicode)
    && CanCreatePartitionLayout(request.style, current.size, current.sectorSize)
    && WindowsFormats(request.fileSystem, current.size, current.sectorSize)
  }

  /** Every check that needs no more than a look at the disk. */
  method VetDisk(run: Run, request: RestoreRequest, refreshed: Option<DiskInfo>, unicode: Unicode)
    returns (ok: bool, error: ErrorText)
    requires HARMLESS <= run.script && run.At(0)
    modifies run`outOfOrder, run.steps`done, run.machine`log, run.machine`hindered
    ensures ok <==> error.NoText?
    ensures if ok then run.At(1) else run.Working()
    ensures ok <==> PassesChecks(request, refreshed, unicode)
  {
    hide Walk, StepsReported, Answers, Replay, WindowsFormats, SafetyCheck, CanCreatePartitionLayout;
    hide IsSameRestoreTarget, CalculateGptLayout;
    // What went wrong in the current step, if it said so.
    var failure;
    var safe := CheckRestoreTarget(request.disk, request.guard, unicode);
    failure := Wording(safe == Safe);
    if failure.NoText? {
      failure := Wording(CanCreatePartitionLayout(request.style, request.disk.size, request.disk.sectorSize));
    }
    if failure.SomeText? {
      return false, failure;
    }
    failure := NoText;
    run.Report(VerifyDisk, 0);
    if refreshed.None? {
      failure := *;
      return false, Around(failure);
    }
    failure := Wording(IsSameRestoreTarget(request.disk, refreshed.value, unicode));
    if failure.NoText? {
      safe := CheckRestoreTarget(refreshed.value, request.guard, unicode);
      failure := Wording(safe == Safe);
    }
    if failure.NoText? {
      failure := Wording(CanCreatePartitionLayout(request.style, refreshed.value.size, refreshed.value.sectorSize));
    }
    if failure.NoText? {
      ok, failure := CanFormatFileSystem(request.fileSystem, refreshed.value.size, refreshed.value.sectorSize);
    }
    return failure.NoText?, failure;
  }

  /** What holds after any restore: done in full, or stopped, and without a text only if it was cancelled. */
  ghost predicate Outcome(machine: System, script: seq<Task>, ok: bool, error: ErrorText)
    reads machine
  {
    && machine.Valid()
    && (ok ==> Completes(script, machine.log))
    && (!ok ==> Walk(script, machine.log) == Stopping(error.NoText?))
  }

  /** Nothing but a failing call or a wish to stop can keep this restore from succeeding. */
  ghost predicate CanSucceed(machine: System, request: RestoreRequest, refreshed: Option<DiskInfo>, unicode: Unicode)
  {
    PassesChecks(request, refreshed, unicode) && HoldsDisk(machine, refreshed.value)
  }

  lemma CheckedDiskIsLarge(request: RestoreRequest, refreshed: Option<DiskInfo>, unicode: Unicode)
    requires PassesChecks(request, refreshed, unicode)
    ensures refreshed.Some? && refreshed.value.size >= MINIMUM_RESTORE_TARGET_BYTES
  {
    SafeDiskHasLayout(refreshed.value, request.guard, unicode);
    hide SafetyCheck, WindowsFormats, CanCreatePartitionLayout, IsSameRestoreTarget;
  }

  /** From the first check to the drive letter. `refreshed` is what a fresh query for the disk number reports, if
      it is still a USB disk. */
  method AttemptRestore(machine: System, worker: RestoreWorker, request: RestoreRequest, number: nat,
                        refreshed: Option<DiskInfo>, unicode: Unicode)
    returns (ok: bool, error: ErrorText)
    requires machine.Valid() && machine.log == []
    modifies machine, worker`cancelRequested, worker`answers
    ensures machine.descriptors == old(machine.descriptors)
    ensures var current := refreshed.GetOr(request.disk);
            Outcome(machine, WindowsScript(current.size, current.sectorSize), ok, error)
    ensures Heeded(worker, ok, error)
    ensures worker.answers == old(worker.answers) + Answers(machine.log)
    ensures old(worker.cancelRequested) ==> Answers(machine.log) == [] || Answers(machine.log) == [true]
    ensures Answers(machine.log) != [] ==> PassesChecks(request, refreshed, unicode)
    ensures ok ==> PassesChecks(request, refreshed, unicode)
    ensures error.SomeText? && CanSucceed(machine, request, refreshed, unicode) ==> machine.hindered
  {
    hide WindowsScript, Walk, StepsReported, Answers, Replay, PassesChecks, HoldsDisk;
    var current := refreshed.GetOr(request.disk);
    WindowsScriptReportsPlan(current.size, current.sectorSize);
    WindowsTaskPlaces(current.size, current.sectorSize);
    var run := new Run(machine, WINDOWS_PLAN, WindowsScript(current.size, current.sectorSize), worker.answers);
    ok, error := VetDisk(run, request, refreshed, unicode);
    if !ok {
      run.GiveUp(error);
      return;
    }
    CheckedDiskIsLarge(request, refreshed, unicode);
    var raw := new RawDisk(machine, number);
    ok, error := RestoreDrive(run, worker, raw, current, unicode);
    raw.Close();
  }

  // ----- what every restore guarantees -----

  /** Every write comes after the user was told that the partitions are being deleted. */
  ghost predicate WarnedFirst(log: seq<Event>)
  {
    forall i :: 0 <= i < |log| && log[i].Writes() ==> exists j :: 0 <= j < i && log[j] == Reported(DeletePartitions)
  }

  /** However a run ends, it has reported the beginning of the plan and warned before writing. */
  lemma EveryWindowsRunWarns(machine: System, diskSize: U64, sectorSize: U32, ok: bool, error: ErrorText)
    requires Outcome(machine, WindowsScript(diskSize, sectorSize), ok, error)
    ensures StepsReported(machine.log) <= WINDOWS_PLAN && (ok ==> StepsReported(machine.log) == WINDOWS_PLAN)
    ensures WarnedFirst(machine.log)
  {
    hide WindowsScript, Walk, StepsReported, Answers, Replay;
    var script, log := WindowsScript(diskSize, sectorSize), machine.log;
    WindowsScriptReportsPlan(diskSize, sectorSize);
    StepsFollowPlan(script, log);
    WindowsScriptTurnsDestructive(diskSize, sectorSize);
    forall i | 0 <= i < |log| && log[i].Writes()
      ensures exists j :: 0 <= j < i && log[j] == Reported(DeletePartitions)
    {
      WritesComeAfterWarning(script, 8, log, i);
    }
  }

  /** A run that failed without a text was asked to stop, and has changed nothing. */
  lemma CancelledWindowsRunChangedNothing(machine: System, diskSize: U64, sectorSize: U32)
    requires Outcome(machine, WindowsScript(diskSize, sectorSize), false, NoText)
    ensures machine.disk == machine.initial
  {
    hide WindowsScript, Walk, Replay;
    WindowsScriptTurnsDestructive(diskSize, sectorSize);
    CancelledWroteNothing(WindowsScript(diskSize, sectorSize), 8, machine.log);
    QuietReplay(machine.initial, machine.log);
  }

  /** The script asks twice. */
  lemma WindowsScriptAsks(diskSize: U64, sectorSize: U32)
    ensures Questions(WindowsScript(diskSize, sectorSize)) == 2
  {
    hide WindowsScript;
    var script := WindowsScript(diskSize, sectorSize);
    WindowsScriptTurnsDestructive(diskSize, sectorSize);
    WindowsTaskPlaces(diskSize, sectorSize);
    HarmlessAsks();
    hide Questions;
    assert script == HARMLESS + script[8..];
    QuestionsInTurn(HARMLESS, script[8..]);
    AsksNothing(script[8..]);
  }

  lemma HarmlessAsks()
    ensures Questions(HARMLESS) == 2
  {
    AsksOnce(HARMLESS[..3]);
    AsksOnce(HARMLESS[4..6]);
    AsksNothing(HARMLESS[7..]);
    hide Questions;
    var first, second := HARMLESS[..3] + [Checkpoint], HARMLESS[4..6] + [Checkpoint];
    assert HARMLESS == first + second + HARMLESS[7..];
    QuestionsInTurn(first, second);
    QuestionsInTurn(first + second, HARMLESS[7..]);
  }

  /** Every answer is obeyed: a run fails without a text exactly if it was told to stop, and one that has changed the
      disk, or is done, was told twice to go on. */
  lemma EveryWindowsAnswerIsObeyed(machine: System, diskSize: U64, sectorSize: U32, ok: bool, error: ErrorText)
    requires Outcome(machine, WindowsScript(diskSize, sectorSize), ok, error)
    ensures true in Answers(machine.log) <==> !ok && error.NoText?
    ensures ok || machine.disk != machine.initial ==> Answers(machine.log) == [false, false]
  {
    hide WindowsScript, Walk, Replay, Answers, WritesNothing, Questions;
    var script := WindowsScript(diskSize, sectorSize);
    WindowsScriptTurnsDestructive(diskSize, sectorSize);
    WindowsScriptAsks(diskSize, sectorSize);
    YesIsObeyed(script, machine.log);
    assert Noes(2) == [false, false];
    if !WritesNothing(machine.log) {
      WritersWereToldNo(script, 8, machine.log);
    } else {
      QuietReplay(machine.initial, machine.log);
    }
    if ok {
      RunningWasTold(script, machine.log);
      assert script[..|script|] == script;
    }
  }

  /** However a run ends, it has looked again before it let Windows change anything. */
  lemma EveryWindowsRunLooksFirst(machine: System, diskSize: U64, sectorSize: U32, ok: bool, error: ErrorText)
    requires Outcome(machine, WindowsScript(diskSize, sectorSize), ok, error)
    ensures IdentifiedFirst(machine.log)
  {
    hide WindowsScript, Walk, Replay;
    var script, log := WindowsScript(diskSize, sectorSize), machine.log;
    WindowsScriptTurnsDestructive(diskSize, sectorSize);
    forall i | 0 <= i < |log| && log[i].Writes()
      ensures exists j :: 0 <= j < i && log[j] == Identified && forall k :: j < k < i ==> !log[k].Asked?
    {
      IdentifiedBeforeWriting(script, 8, log, i);
    }
  }

  lemma OutcomeIsValid(machine: System, script: seq<Task>, ok: bool, error: ErrorText)
    requires Outcome(machine, script, ok, error)
    ensures machine.Valid()
  {
    hide Walk;
  }

  /** However a restore ends, every handle is closed, the beginning of the plan was reported, and no write came
      before the warning and a last look at the disk, nor on a disk that failed a check. Success means all of the plan
      on a disk that passed every check. Every answer is obeyed: after a yes, or if the user had asked to stop
      beforehand, the restore fails and nothing has changed. And it fails for no other reason than an answer, a call
      that failed, or a disk that cannot be restored. */
  method PerformWindowsRestore(machine: System, worker: RestoreWorker, request: RestoreRequest, number: nat,
                               refreshed: Option<DiskInfo>, unicode: Unicode)
    returns (ok: bool, error: ErrorText)
    requires machine.Valid() && machine.log == []
    modifies machine, worker`cancelRequested, worker`answers
    ensures machine.Valid() && machine.descriptors == old(machine.descriptors)
    ensures StepsReported(machine.log) <= WINDOWS_PLAN && WarnedFirst(machine.log) && IdentifiedFirst(machine.log)
    ensures ok ==> StepsReported(machine.log) == WINDOWS_PLAN && Answers(machine.log) == [false, false]
                   && PassesChecks(request, refreshed, unicode)
    ensures machine.disk != old(machine.disk) ==> PassesChecks(request, refreshed, unicode)
    ensures worker.answers == old(worker.answers) + Answers(machine.log)
    ensures true in Answers(machine.log) <==> !ok && error.NoText?
    ensures true in Answers(machine.log) || old(worker.cancelRequested) ==> !ok && machine.disk == old(machine.disk)
    ensures !ok && error.NoText? ==> machine.disk == old(machine.disk) && worker.cancelRequested
    ensures CanSucceed(machine, request, refreshed, unicode) ==> ok || machine.hindered || true in Answers(machine.log)
  {
    hide Outcome, PassesChecks, CanSucceed, StepsReported, WarnedFirst, IdentifiedFirst, Replay, WindowsScript, Answers;
    var current := refreshed.GetOr(request.disk);
    StartsAtInitial(machine);
    ok, error := AttemptRestore(machine, worker, request, number, refreshed, unicode);
    OutcomeIsValid(machine, WindowsScript(current.size, current.sectorSize), ok, error);
    EveryWindowsRunWarns(machine, current.size, current.sectorSize, ok, error);
    EveryWindowsRunLooksFirst(machine, current.size, current.sectorSize, ok, error);
    EveryWindowsAnswerIsObeyed(machine, current.size, current.sectorSize, ok, error);
    if ok {
      assert Answers(machine.log)[1] == false;
    } else if error.NoText? {
      CancelledWindowsRunChangedNothing(machine, current.size, current.sectorSize);
    }
  }

  /** The worker's whole job on Windows. What it announces is true of the disk: finished after the whole plan, a
      cancellation only of a disk nobody touched, and a failure always with a text to show. */
  method RunWorker(worker: RestoreWorker, machine: System, request: RestoreRequest, number: nat,
                   refreshed: Option<DiskInfo>, unicode: Unicode)
    returns (outcome: WorkerOutcome, shown: ErrorText)
    requires machine.Valid() && machine.log == []
    modifies machine, worker`cancelRequested, worker`answers
    ensures outcome == Finished ==> StepsReported(machine.log) == WINDOWS_PLAN
    ensures outcome == WasCancelled ==> worker.cancelRequested && machine.disk == old(machine.disk)
    ensures outcome == HasFailed ==> shown.SomeText?
    ensures old(worker.cancelRequested) ==> outcome != Finished && machine.disk == old(machine.disk)
    ensures outcome == WasCancelled <==> true in Answers(machine.log)
    ensures CanSucceed(machine, request, refreshed, unicode) ==>
              outcome in {Finished, WasCancelled} || machine.hindered
  {
    hide StepsReported, Answers, WarnedFirst, IdentifiedFirst, PassesChecks, CanSucceed, Replay;
    var ok, error := PerformWindowsRestore(machine, worker, request, number, refreshed, unicode);
    outcome := worker.Conclude(ok, error);
    shown := error;
  }
}
