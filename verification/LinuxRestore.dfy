/** The destructive run on Linux, from the first check to the new partition. Every
    system call and every foreign answer may fail; whatever happens, what is done
    follows the script, and every descriptor is closed. */
module LinuxRestore {
  import opened Bytes
  import opened Wrappers
  import opened Text
  import opened Layout
  import opened Fat32
  import opened PartitionTable
  import opened RestoreTarget
  import opened RestorePlan
  import opened RestoreScript
  import opened Stores
  import opened LinuxImage
  import opened Machine
  import opened BlockDevice
  import opened LoopDevice
  import opened Run
  import opened ErrorText
  import opened HelperReporter

  /** Of what was logged since, a release comes before any flush or re-read. */
  ghost predicate ReleasedFirst(before: seq<Event>, log: seq<Event>)
  {
    && before <= log
    && exists j :: |before| <= j < |log| && log[j] == Released && NoFlush(log, |before|, j)
  }

  predicate NoFlush(log: seq<Event>, lo: nat, hi: nat)
    requires hi <= |log|
  {
    forall k :: lo <= k < hi ==> log[k] !in {Flushed, RereadDone}
  }

  lemma ReleasedNow(before: seq<Event>, log: seq<Event>)
    requires before <= log && NoFlush(log, |before|, |log|)
    ensures ReleasedFirst(before, log + [Released])
  {
    var after := log + [Released];
    assert after[|log|] == Released && NoFlush(after, |before|, |log|);
  }

  lemma ReleasedStays(before: seq<Event>, log: seq<Event>, after: seq<Event>)
    requires ReleasedFirst(before, log) && log <= after
    ensures ReleasedFirst(before, after)
  {
    var j :| |before| <= j < |log| && log[j] == Released && NoFlush(log, |before|, j);
    assert after[j] == Released && NoFlush(after, |before|, j);
  }

  // ----- single tasks -----

  /** The device still holds the selected disk. */
  method IdentifyTask(run: Run, device: BlockDevice, disk: DiskInfo, unicode: Unicode, ghost task: nat)
    returns (ok: bool, error: ErrorText)
    requires run.At(task) && task < |run.script| && run.script[task] == Identify
    requires run.machine == device.machine && device.Valid()
    modifies run.machine`log, run.machine`hindered
    ensures device.Valid() && (ok <==> error.NoText?)
    ensures if ok then run.At(task + 1) else run.At(task)
    ensures (!ok && device.fd >= 0 && IsThere(run.machine, disk)) || old(run.machine.hindered) ==> run.machine.hindered
    ensures ok ==> disk.deviceSequence.Some? && (disk.size != 0 ==> |run.machine.disk| == disk.size)
  {
    hide Walk, StepsReported, Identifies, IsThere, Answers;
    TaskDone(run.script, run.machine.log, task);
    ghost var log := run.machine.log;
    ghost var seen;
    ok, error, seen := device.VerifyIdentity(disk, unicode);
    assert log + [] == log;
  }

  method FlushTask(run: Run, device: BlockDevice, ghost task: nat) returns (ok: bool, error: ErrorText)
    requires run.At(task) && task < |run.script| && run.script[task] == Flush
    requires run.machine == device.machine && device.Valid() && device.fd >= 0
    modifies run.machine`log, run.machine`hindered
    ensures device.Valid() && old(run.machine.log) <= run.machine.log && (ok <==> error.NoText?)
    ensures if ok then run.At(task + 1) else run.At(task)
    ensures (!ok && device.fd >= 0) || old(run.machine.hindered) ==> run.machine.hindered
  {
    hide Walk, StepsReported, Answers, Replay;
    TaskDone(run.script, run.machine.log, task);
    ok, error := device.Flush();
  }

  method RereadTask(run: Run, device: BlockDevice, ghost task: nat) returns (ok: bool, error: ErrorText)
    requires run.At(task) && task < |run.script| && run.script[task] == Reread
    requires run.machine == device.machine && device.Valid()
    modifies run.machine`log, run.machine`hindered
    ensures device.Valid() && old(run.machine.log) <= run.machine.log && (ok <==> error.NoText?)
    ensures if ok then run.At(task + 1) else run.At(task)
    ensures (!ok && device.fd >= 0) || old(run.machine.hindered) ==> run.machine.hindered
  {
    hide Walk, StepsReported, Answers, Replay;
    TaskDone(run.script, run.machine.log, task);
    ok, error := device.RereadPartitionTable();
  }

  /** Releases the mapping as the script asks; it is gone even if that fails. */
  method ReleaseTask(run: Run, formatter: LoopDevice, ghost task: nat) returns (ok: bool, error: ErrorText)
    requires run.At(task) && task < |run.script| && run.script[task] == Release
    requires run.machine == formatter.machine && formatter.Valid() && formatter.Mapped()
    modifies run.machine`log, run.machine`hindered, run.machine`descriptors, formatter
    ensures run.At(task + 1) && (ok <==> error.NoText?)
    ensures !ok || old(run.machine.hindered) ==> run.machine.hindered
    ensures formatter.Valid() && !formatter.Mapped() && formatter.Owned() == {}
    ensures run.machine.descriptors == old(run.machine.descriptors) - old(formatter.Owned())
    ensures run.machine.log == old(run.machine.log) + [Released]
  {
    hide Walk, StepsReported, Answers, Replay;
    TaskDone(run.script, run.machine.log, task);
    ok, error := formatter.Detach();
  }

  /** Releases whatever is still mapped once the run has failed. */
  method ReleaseStopped(run: Run, formatter: LoopDevice, ghost cancelled: bool)
    requires run.Stopped(cancelled)
    requires run.machine == formatter.machine && formatter.Valid()
    modifies run.machine`log, run.machine`hindered, run.machine`descriptors, formatter
    ensures run.Stopped(cancelled) && (old(run.machine.hindered) ==> run.machine.hindered)
    ensures formatter.Valid() && !formatter.Mapped() && formatter.Owned() == {}
    ensures run.machine.descriptors == old(run.machine.descriptors) - old(formatter.Owned())
    ensures run.machine.log == if old(formatter.Mapped()) then old(run.machine.log) + [Released] else old(run.machine.log)
  {
    hide Walk, StepsReported, Answers, Replay;
    CleanedUp(run.script, run.machine.log, Released);
    // Whatever this says is dropped.
    var released, unheard := formatter.Detach();
  }

  /** Lets the kernel forget the old partitions of a disk that already has the new table. */
  method RereadStopped(run: Run, device: BlockDevice)
    requires run.Stopped(false)
    requires run.machine == device.machine && device.Valid()
    modifies run.machine`log, run.machine`hindered
    ensures run.Stopped(false) && device.Valid() && (old(run.machine.hindered) ==> run.machine.hindered)
    ensures old(run.machine.log) <= run.machine.log
  {
    hide Walk, StepsReported, Answers, Replay;
    CleanedUp(run.script, run.machine.log, Flushed);
    var flushed, rereadError := device.Flush();
    if flushed {
      CleanedUp(run.script, run.machine.log, RereadDone);
      var reread;
      // Shown as a detail only.
      reread, rereadError := device.RereadPartitionTable();
    }
  }

  // ----- formatting -----

  /** The formatter, once: it may fail to start, to end in time, or at its job. */
  method RunFormatter(run: Run, formatter: LoopDevice, ghost task: nat) returns (finished: bool, ok: bool)
    requires run.At(task) && run.machine == formatter.machine && formatter.Valid() && formatter.Mapped()
    requires task < |run.script| && run.script[task] == Foreign(formatter.offset, formatter.offset + formatter.length)
    modifies run.machine`disk, run.machine`log, run.machine`hindered
    ensures formatter.Valid() && run.At(task)
    ensures old(run.machine.log) <= run.machine.log
    ensures forall k :: |old(run.machine.log)| <= k < |run.machine.log| ==> run.machine.log[k].ForeignWrote?
    ensures !finished || !ok || old(run.machine.hindered) ==> run.machine.hindered
  {
    hide Walk, StepsReported, Replay, Answers;
    ok := false;
    finished := run.machine.Succeeds();
    if finished {
      ghost var log := run.machine.log;
      ok := run.machine.RunConfined(formatter.offset, formatter.offset + formatter.length);
      ForeignWalks(run.script, log, run.machine.log, task);
      finished := run.machine.Succeeds();
    }
  }

  /** The formatter, run through the mapping; a second dialect only if the first looks like a wrong option. */
  method FormatLinuxPartition(run: Run, formatter: LoopDevice, fileSystem: FileSystemType, ghost task: nat)
    returns (ok: bool, error: ErrorText)
    requires run.At(task) && run.machine == formatter.machine && formatter.Valid() && formatter.Mapped()
    requires task < |run.script| && run.script[task] == Foreign(formatter.offset, formatter.offset + formatter.length)
    modifies run.machine`disk, run.machine`log, run.machine`hindered
    ensures formatter.Valid() && (ok <==> error.NoText?)
    ensures old(run.machine.log) <= run.machine.log
    ensures NoFlush(run.machine.log, |old(run.machine.log)|, |run.machine.log|)
    ensures if ok then run.At(task + 1) else run.At(task)
    ensures !ok ==> run.machine.hindered
  {
    hide Walk, StepsReported, Replay, Answers;
    var machine := run.machine;
    var attempts := if fileSystem == ExFat then 2 else 1;
    var lastOutput := NoText;
    while attempts > 0
      invariant run.At(task) && formatter.Valid()
      invariant attempts == (if fileSystem == ExFat then 2 else 1) || machine.hindered
      invariant old(machine.log) <= machine.log
      invariant forall k :: |old(machine.log)| <= k < |machine.log| ==> machine.log[k].ForeignWrote?
    {
      var finished;
      finished, ok := RunFormatter(run, formatter, task);
      if !finished {
        return false, SomeText;
      }
      lastOutput := *;
      if ok {
        TaskDone(run.script, machine.log, task);
        machine.Note(ForeignDone);
        return true, NoText;
      }
      var wrongOption: bool := *;
      if !wrongOption {
        break;
      }
      attempts := attempts - 1;
    }
    // The formatter may have failed without a word of its own.
    ok, error := false, Around(lastOutput);
  }

  /** The tasks from the report of formatting to the re-read table. */
  predicate FormattingTasks(script: seq<Task>, first: nat, lo: nat, hi: nat)
  {
    && first + 6 <= |script|
    && script[first] == Report(FormatVolume) && script[first + 1] == Foreign(lo, hi) && script[first + 2] == Release
    && script[first + 3] == Report(RereadPartitionTable) && script[first + 4] == Flush && script[first + 5] == Reread
  }

  /** Prepares, formats and releases. On failure the mapping is released all the same. */
  method FormatMapped(run: Run, formatter: LoopDevice, fileSystem: FileSystemType, ghost first: nat)
    returns (ok: bool, error: ErrorText)
    requires run.At(first) && run.machine == formatter.machine && formatter.Valid() && formatter.Mapped()
    requires FormattingTasks(run.script, first, formatter.offset, formatter.offset + formatter.length)
    modifies run`outOfOrder, run.steps`done, formatter
    modifies run.machine`disk, run.machine`log, run.machine`hindered, run.machine`descriptors
    ensures formatter.Valid() && !formatter.Mapped() && formatter.Owned() == {}
    ensures run.machine.descriptors == old(run.machine.descriptors) - old(formatter.Owned())
    ensures if ok then run.At(first + 3) else run.Stopped(false)
    ensures (ok <==> error.NoText?) && (!ok ==> run.machine.hindered)
    ensures ReleasedFirst(old(run.machine.log), run.machine.log)
  {
    hide Walk, StepsReported, Answers, Replay, ReleasedFirst;
    run.Report(FormatVolume, first);
    ok, error := formatter.PrepareForFormatting();
    if ok {
      ok, error := FormatLinuxPartition(run, formatter, fileSystem, first + 1);
    }
    ok, error := ReleaseFormatted(run, formatter, ok, error, old(run.machine.log), first);
  }

  method ReleaseFormatted(run: Run, formatter: LoopDevice, formatted: bool, problem: ErrorText, ghost start: seq<Event>,
                          ghost first: nat)
    returns (ok: bool, error: ErrorText)
    requires (formatted <==> problem.NoText?) && (!formatted ==> run.machine.hindered)
    requires if formatted then run.At(first + 2) else run.Working()
    requires run.machine == formatter.machine && formatter.Valid() && formatter.Mapped()
    requires first + 3 <= |run.script| && run.script[first + 2] == Release
    requires start <= run.machine.log && NoFlush(run.machine.log, |start|, |run.machine.log|)
    modifies formatter, run.machine`log, run.machine`hindered, run.machine`descriptors
    ensures formatter.Valid() && !formatter.Mapped() && formatter.Owned() == {}
    ensures run.machine.descriptors == old(run.machine.descriptors) - old(formatter.Owned())
    ensures if ok then run.At(first + 3) else run.Stopped(false)
    ensures (ok <==> error.NoText?) && (!ok ==> run.machine.hindered)
    ensures ReleasedFirst(start, run.machine.log)
  {
    hide Walk, StepsReported, Answers, Replay, ReleasedFirst;
    ok, error := formatted, problem;
    if ok {
      ReleasedNow(start, run.machine.log);
      ok, error := ReleaseTask(run, formatter, first + 2);
      if ok {
        return;
      }
      ReleasedStays(start, run.machine.log, run.machine.log + [GaveUp(true)]);
      run.GiveUp(error);
    } else {
      run.GiveUp(error);
      ReleasedNow(start, run.machine.log);
    }
    ReleaseStopped(run, formatter, false);
  }

  /** Formats and re-reads. The mapping is gone afterwards either way, and its release is attempted before the
      disk is flushed and the table read again, which happens on failure too. */
  method FormatAndRereadPartitionTable(run: Run, device: BlockDevice, formatter: LoopDevice, fileSystem: FileSystemType,
                                       ghost first: nat)
    returns (ok: bool, error: ErrorText, diskSequence: Option<U64>)
    requires run.At(first) && run.machine == device.machine == formatter.machine
    requires device.Valid() && device.fd >= 0 && formatter.Valid() && formatter.Mapped()
    requires device.Owned() !! formatter.Owned()
    requires FormattingTasks(run.script, first, formatter.offset, formatter.offset + formatter.length)
    modifies run`outOfOrder, run.steps`done, formatter
    modifies run.machine`disk, run.machine`log, run.machine`hindered, run.machine`descriptors
    ensures device.Valid() && formatter.Valid() && !formatter.Mapped() && formatter.Owned() == {}
    ensures run.machine.descriptors == old(run.machine.descriptors) - old(formatter.Owned())
    ensures if ok then run.At(first + 6) else run.Stopped(false)
    ensures (ok <==> error.NoText?) && (ok ==> diskSequence.Some?) && (!ok ==> run.machine.hindered)
    ensures ReleasedFirst(old(run.machine.log), run.machine.log)
  {
    hide Walk, StepsReported, Answers, Replay, ReleasedFirst;
    diskSequence := None;
    ok, error := FormatMapped(run, formatter, fileSystem, first);
    ghost var log := run.machine.log;
    if ok {
      ok, error, diskSequence := RereadNewTable(run, device, first + 3);
    } else {
      RereadStopped(run, device);
    }
    ReleasedStays(old(run.machine.log), log, run.machine.log);
  }

  method RereadNewTable(run: Run, device: BlockDevice, ghost first: nat)
    returns (ok: bool, error: ErrorText, diskSequence: Option<U64>)
    requires run.At(first) && run.machine == device.machine && device.Valid() && device.fd >= 0
    requires first + 3 <= |run.script| && run.script[first] == Report(RereadPartitionTable)
    requires run.script[first + 1] == Flush && run.script[first + 2] == Reread
    modifies run`outOfOrder, run.steps`done, run.machine`log, run.machine`hindered
    ensures device.Valid() && (if ok then run.At(first + 3) else run.Stopped(false))
    ensures (ok <==> error.NoText?) && (ok ==> diskSequence.Some?) && (!ok ==> run.machine.hindered)
    ensures old(run.machine.log) <= run.machine.log
  {
    hide Walk, StepsReported, Answers, Replay;
    diskSequence := None;
    run.Report(RereadPartitionTable, first);
    ok, error := FlushTask(run, device, first + 1);
    if ok {
      ok, error := RereadTask(run, device, first + 2);
    }
    if ok {
      // Asked for only now: the partition is looked for on this one.
      diskSequence := device.DiskSequence();
      ok := diskSequence.Some?;
      error := if ok then NoText else SomeText;
    }
    if !ok {
      run.GiveUp(error);
    }
  }

  // ----- erasing and writing -----

  method ZeroTask(run: Run, device: BlockDevice, offset: U64, bytes: U64, sectorSize: U32, ghost task: nat)
    returns (ok: bool, error: ErrorText)
    requires run.At(task) && run.machine == device.machine && device.Valid() && bytes > 0
    requires task < |run.script| && run.script[task] == Store(offset, Zeros(bytes))
    modifies run.machine`disk, run.machine`log, run.machine`hindered, run.machine`interruptions
    ensures device.Valid() && (ok <==> error.NoText?)
    ensures if ok then run.At(task + 1) else run.Working()
    ensures !ok && device.fd >= 0 ==> run.machine.hindered || !IsAlignedZeroRange(offset, bytes, sectorSize)
  {
    hide Walk, StepsReported, Answers, Replay, Wrote;
    ghost var disk, log := run.machine.disk, run.machine.log;
    ghost var stored;
    ok, error, stored := device.WriteZeros(offset, bytes, sectorSize);
    assert Zeros(stored) == Zeros(bytes)[..stored];
    assert Zeros(bytes)[0] == 0;
    StoreWalks(run.script, disk, log, run.machine.disk, run.machine.log, task, stored);
  }

  method WriteTask(run: Run, device: BlockDevice, offset: nat, data: seq<Byte>, ghost task: nat)
    returns (ok: bool, error: ErrorText)
    requires run.At(task) && run.machine == device.machine && device.Valid() && data != []
    requires task < |run.script| && run.script[task] == Store(offset, data)
    modifies run.machine`disk, run.machine`log, run.machine`hindered, run.machine`interruptions
    ensures device.Valid() && (ok <==> error.NoText?)
    ensures if ok then run.At(task + 1) else run.Working()
    ensures !ok && device.fd >= 0 ==> run.machine.hindered
  {
    hide Walk, StepsReported, Answers, Replay, Wrote;
    ghost var disk, log := run.machine.disk, run.machine.log;
    ghost var stored;
    ok, error, stored := device.WriteAt(offset, data);
    StoreWalks(run.script, disk, log, run.machine.disk, run.machine.log, task, stored);
  }

  /** Both ends of the disk; a disk too small to clear is refused. */
  method ClearSignaturesOn(run: Run, device: BlockDevice, diskSize: U64, sectorSize: U32, ghost first: nat)
    returns (ok: bool, error: ErrorText)
    requires run.At(first) && run.machine == device.machine && device.Valid()
    requires Holds(run.script, first, ClearTasks(diskSize, sectorSize))
    modifies run.machine`disk, run.machine`log, run.machine`hindered, run.machine`interruptions
    ensures device.Valid() && (ok <==> error.NoText?)
    ensures if ok then run.At(first + |ClearTasks(diskSize, sectorSize)|) else run.Working()
    ensures !ok && device.fd >= 0 && diskSize >= MINIMUM_RESTORE_TARGET_BYTES ==> run.machine.hindered
  {
    hide Walk, StepsReported, Answers, Replay, SignatureClearRange, IsAlignedZeroRange;
    var clear := SignatureClearRange(diskSize, sectorSize);
    ClearsWholeSectors(diskSize, sectorSize);
    if clear.bytes == 0 {
      return false, SomeText;
    }
    ghost var tasks := ClearTasks(diskSize, sectorSize);
    assert run.script[first] == tasks[0] && run.script[first + 1] == tasks[1];
    ok, error := ZeroTask(run, device, 0, clear.bytes, clear.sectorSize, first);
    if ok {
      ok, error := ZeroTask(run, device, clear.tailOffset, clear.bytes, clear.sectorSize, first + 1);
    }
  }

  method WriteTable(run: Run, device: BlockDevice, table: TableRequest, ghost first: nat)
    returns (ok: bool, error: ErrorText)
    requires Gated(table) && run.At(first) && run.machine == device.machine && device.Valid()
    requires Holds(run.script, first, TableTasks(table))
    modifies run.machine`disk, run.machine`log, run.machine`hindered, run.machine`interruptions
    ensures device.Valid() && (ok <==> error.NoText?)
    ensures if ok then run.At(first + |TableTasks(table)|) else run.Working()
    ensures !ok && device.fd >= 0 ==> run.machine.hindered
  {
    hide Gated, GptPrimary, GptBackup, GptBackupOffset, MbrImage, Walk, StepsReported, Answers, Replay, Geometry;
    GateChecks(table);
    ghost var tasks := TableTasks(table);
    assert run.script[first] == tasks[0];
    if table.style == Gpt {
      assert run.script[first + 1] == tasks[1];
      var primary := BuildGptPrimary(table);
      ok, error := WriteTask(run, device, 0, primary, first);
      if ok {
        var backup := BuildGptBackup(table);
        ok, error := WriteTask(run, device, GptBackupOffset(table), backup, first + 1);
      }
    } else {
      var mbr := BuildMbr(table);
      ok, error := WriteTask(run, device, 0, mbr[..], first);
    }
  }

  /** Where the tasks of a gated request stand in its script. */
  lemma TaskPlaces(table: TableRequest)
    requires Gated(table)
    ensures var script, clear, write := LinuxScript(table), ClearTasks(table.diskSize, table.sectorSize), TableTasks(table);
            var end := 12 + |clear| + |write|;
            && end == 11 + |WritingTasks(table)| && |script| == end + 9
            && script[8] == Checkpoint && script[9] == Identify && script[10] == Report(ClearSignatures)
            && Holds(script, 11, clear) && script[11 + |clear|] == Report(WritePartitionTable)
            && Holds(script, 12 + |clear|, write) && script[end] == Flush
            && FormattingTasks(script, end + 1, table.layout.startOffset, table.layout.startOffset + table.layout.length)
            && script[end + 7] == Report(WaitForPartition) && script[end + 8] == Report(Complete)
  {
    hide Gated, LinuxScript, ClearTasks, TableTasks, Holds;
    ScriptTasks(table);
    HoldsInTurn(LinuxScript(table), 11, ClearTasks(table.diskSize, table.sectorSize), Report(WritePartitionTable),
                TableTasks(table), WritingTasks(table));
  }

  lemma HoldsInTurn(script: seq<Task>, first: nat, a: seq<Task>, between: Task, b: seq<Task>, all: seq<Task>)
    requires all == a + [between] + b && first + |all| <= |script|
    requires forall k :: first <= k < first + |all| ==> script[k] == all[k - first]
    ensures Holds(script, first, a) && script[first + |a|] == between && Holds(script, first + |a| + 1, b)
  {
    forall k | first + |a| + 1 <= k < first + |all|
      ensures script[k] == b[k - (first + |a| + 1)]
    {
      assert script[k] == all[k - first];
    }
  }

  lemma FormattingPlace(table: TableRequest)
    requires Gated(table)
    ensures var script, first := LinuxScript(table), 12 + |WritingTasks(table)|;
            && |script| == first + 8 && script[8] == Checkpoint && script[9] == Identify
            && FormattingTasks(script, first, table.layout.startOffset, table.layout.startOffset + table.layout.length)
  {
    hide Gated, LinuxScript, ClearTasks, TableTasks, WritingTasks, Holds, FormattingTasks;
    TaskPlaces(table);
  }

  /** From the last warning to the flushed table. */
  method EraseAndWrite(run: Run, device: BlockDevice, table: TableRequest) returns (ok: bool, error: ErrorText)
    requires Gated(table) && run.script == LinuxScript(table) && run.At(10)
    requires run.machine == device.machine && device.Valid() && device.fd >= 0
    modifies run`outOfOrder, run.steps`done, run.machine`disk, run.machine`log, run.machine`hindered
    modifies run.machine`interruptions
    ensures device.Valid() && (ok <==> error.NoText?)
    ensures if ok then run.At(12 + |WritingTasks(table)|) else run.Working()
    ensures !ok && table.diskSize >= MINIMUM_RESTORE_TARGET_BYTES ==> run.machine.hindered
  {
    hide Gated, LinuxScript, ClearTasks, TableTasks, WritingTasks, Holds, FormattingTasks, Walk, StepsReported;
    hide Answers, Replay;
    TaskPlaces(table);
    ghost var clear, write := |ClearTasks(table.diskSize, table.sectorSize)|, |TableTasks(table)|;
    run.Report(ClearSignatures, 10);
    ok, error := ClearSignaturesOn(run, device, table.diskSize, table.sectorSize, 11);
    if ok {
      run.Report(WritePartitionTable, 11 + clear);
      ok, error := WriteTable(run, device, table, 12 + clear);
    }
    if ok {
      ok, error := FlushTask(run, device, 12 + clear + write);
    }
  }

  /** Once more the disk is the selected one, and then it is erased. */
  method EraseVerified(run: Run, device: BlockDevice, table: TableRequest, disk: DiskInfo, unicode: Unicode)
    returns (ok: bool, error: ErrorText)
    requires Gated(table) && run.script == LinuxScript(table) && run.At(9)
    requires run.machine == device.machine && device.Valid() && device.fd >= 0
    modifies run`outOfOrder, run.steps`done, run.machine`disk, run.machine`log, run.machine`hindered
    modifies run.machine`interruptions
    ensures device.Valid() && (ok <==> error.NoText?)
    ensures if ok then run.At(12 + |WritingTasks(table)|) else run.Working()
    ensures !ok && table.diskSize >= MINIMUM_RESTORE_TARGET_BYTES && IsThere(run.machine, disk) ==> run.machine.hindered
  {
    hide Gated, LinuxScript, WritingTasks, FormattingTasks, Walk, StepsReported, Answers, Replay, IsThere;
    FormattingPlace(table);
    ok, error := IdentifyTask(run, device, disk, unicode, 9);
    if ok {
      ok, error := EraseAndWrite(run, device, table);
    }
  }

  /** What the run still knows about the disk it is to write: the selection, and the table made for it. */
  predicate TableOf(table: TableRequest, disk: DiskInfo)
  {
    table.diskSize == disk.size && table.sectorSize == disk.sectorSize
  }

  /** The disk is there, and the table is one that fits it: then only a call that fails, or a wish to stop, can end
      the run early. */
  ghost predicate CanBeDone(machine: System, table: TableRequest, disk: DiskInfo)
  {
    IsThere(machine, disk) && Calculated(table)
  }

  /** The run knows every answer that was given, and has given no more text than there was reason to. */
  ghost predicate Heard(run: Run, reporter: HelperReporter)
    reads run, reporter
  {
    reporter.Valid() && reporter.answers == run.earlier + run.answers
  }

  /** Once the partition is mapped: the last chance to cancel, then everything destructive. */
  method RestoreMapped(run: Run, reporter: HelperReporter, device: BlockDevice, formatter: LoopDevice, table: TableRequest,
                       disk: DiskInfo, unicode: Unicode)
    returns (ok: bool, error: ErrorText, diskSequence: Option<U64>)
    requires Gated(table) && run.script == LinuxScript(table) && run.At(8) && TableOf(table, disk)
    requires run.machine == device.machine == formatter.machine && Heard(run, reporter)
    requires device.Valid() && device.fd >= 0 && formatter.Valid() && formatter.Mapped()
    requires device.Owned() !! formatter.Owned()
    requires formatter.offset == table.layout.startOffset && formatter.length == table.layout.length
    modifies run`outOfOrder, run`answers, run.steps`done, formatter, reporter`request, reporter`cancelled
    modifies reporter`answers
    modifies run.machine`disk, run.machine`log, run.machine`hindered, run.machine`interruptions, run.machine`descriptors
    ensures device.Valid() && formatter.Valid() && !formatter.Mapped() && formatter.Owned() == {}
    ensures run.machine.descriptors == old(run.machine.descriptors) - old(formatter.Owned())
    ensures if ok then run.At(18 + |WritingTasks(table)|) else run.Stopped(error.NoText?)
    ensures Heard(run, reporter) && Heeded(reporter, ok, error) && (ok ==> diskSequence.Some?)
    ensures error.SomeText? && CanBeDone(run.machine, table, disk) ==> run.machine.hindered
  {
    hide Gated, LinuxScript, WritingTasks, Walk, StepsReported, Replay, FormattingTasks, CanBeDone, Answers;
    FormattingPlace(table);
    ok, error, diskSequence := false, NoText, None;
    var cancelled, waiting := reporter.CancelRequested();
    run.Answered(cancelled, 8);
    if cancelled {
      ReleaseStopped(run, formatter, true);
      return;
    }
    ok, error, diskSequence := RestoreUnasked(run, device, formatter, table, disk, unicode);
  }

  /** Nobody is asked any more: everything destructive, and the mapping gone whatever happens. */
  method RestoreUnasked(run: Run, device: BlockDevice, formatter: LoopDevice, table: TableRequest, disk: DiskInfo,
                        unicode: Unicode)
    returns (ok: bool, error: ErrorText, diskSequence: Option<U64>)
    requires Gated(table) && run.script == LinuxScript(table) && run.At(9) && TableOf(table, disk)
    requires run.machine == device.machine == formatter.machine
    requires device.Valid() && device.fd >= 0 && formatter.Valid() && formatter.Mapped()
    requires device.Owned() !! formatter.Owned()
    requires formatter.offset == table.layout.startOffset && formatter.length == table.layout.length
    modifies run`outOfOrder, run.steps`done, formatter
    modifies run.machine`disk, run.machine`log, run.machine`hindered, run.machine`interruptions, run.machine`descriptors
    ensures device.Valid() && formatter.Valid() && !formatter.Mapped() && formatter.Owned() == {}
    ensures run.machine.descriptors == old(run.machine.descriptors) - old(formatter.Owned())
    ensures if ok then run.At(18 + |WritingTasks(table)|) else run.Stopped(false)
    ensures (ok <==> error.NoText?) && (ok ==> diskSequence.Some?)
    ensures !ok && CanBeDone(run.machine, table, disk) ==> run.machine.hindered
  {
    hide Gated, LinuxScript, WritingTasks, Walk, StepsReported, Replay, ReleasedFirst, FormattingTasks, IsThere;
    hide CalculateGptLayout, Answers;
    FormattingPlace(table);
    diskSequence := None;
    ok, error := EraseVerified(run, device, table, disk, unicode);
    if !ok {
      run.GiveUp(error);
      ReleaseStopped(run, formatter, false);
      return;
    }
    ok, error, diskSequence :=
      FormatAndRereadPartitionTable(run, device, formatter, table.fileSystem, 12 + |WritingTasks(table)|);
  }

  // ----- before the point of no return -----

  /** A failure without a text only after the caller has asked to stop. */
  ghost predicate Heeded(reporter: HelperReporter, ok: bool, error: ErrorText)
    reads reporter
  {
    (ok ==> error.NoText?) && (!ok && error.NoText? ==> reporter.cancelled)
  }

  /** Unmounting, and any other foreign call that words its own failures. */
  method OtherCall(machine: System) returns (ok: bool, error: ErrorText)
    modifies machine`hindered
    ensures ok <==> error.NoText?
    ensures machine.hindered == (old(machine.hindered) || !ok)
  {
    ok := machine.Succeeds();
    error := Wording(ok);
  }

  /** Unmounts, and opens the device exclusively; the automounter may be quicker, so three times at most. */
  method OpenExclusively(run: Run, device: BlockDevice) returns (ok: bool, error: ErrorText)
    requires PREPARATION <= run.script && run.At(4)
    requires run.machine == device.machine && device.Valid() && device.fd < 0
    modifies run`outOfOrder, run.steps`done, run.machine`log, run.machine`hindered, run.machine`descriptors, device`fd
    ensures device.Valid() && (ok ==> device.fd >= 0) && (ok <==> error.NoText?)
    ensures run.machine.descriptors == old(run.machine.descriptors) + device.Owned()
    ensures device.Owned() !! old(run.machine.descriptors)
    ensures if ok then run.At(6) else run.Working()
    ensures !ok ==> run.machine.hindered
  {
    hide Walk, StepsReported, Answers, Replay;
    run.Report(Unmount, 4);
    ok, error := OtherCall(run.machine);
    if !ok {
      return;
    }
    run.Report(OpenExclusive, 5);
    var openError := NoText;
    var isOpen := false;
    var attempt := 0;
    while attempt < 3 && !isOpen
      invariant run.At(6) && device.Valid() && isOpen == (device.fd >= 0) && attempt <= 3
      invariant attempt > 0 && !isOpen ==> openError.SomeText? && run.machine.hindered
      invariant run.machine.descriptors == old(run.machine.descriptors) + device.Owned()
      invariant device.Owned() !! old(run.machine.descriptors)
    {
      if attempt > 0 {
        ok, error := OtherCall(run.machine);
        if !ok {
          return;
        }
      }
      openError := NoText;
      isOpen, openError := device.Open();
      attempt := attempt + 1;
    }
    if !isOpen {
      return false, openError;
    }
    ok, error := true, NoText;
  }

  /** A first, read-only look at the device. */
  method Inspect(run: Run, disk: DiskInfo, unicode: Unicode) returns (ok: bool, error: ErrorText)
    requires PREPARATION <= run.script && run.At(1)
    modifies run`outOfOrder, run.steps`done, run.machine`log, run.machine`hindered, run.machine`descriptors
    ensures run.machine.descriptors == old(run.machine.descriptors)
    ensures (if ok then run.At(3) else run.Working()) && (ok <==> error.NoText?)
    ensures !ok && IsThere(run.machine, disk) ==> run.machine.hindered
  {
    hide Walk, StepsReported, Answers, Replay, IsThere;
    run.Report(IdentifyDevice, 1);
    var inspect := new BlockDevice(run.machine);
    ok, error := inspect.Open();
    if ok {
      ok, error := IdentifyTask(run, inspect, disk, unicode, 2);
    }
    inspect.Close();
  }

  lemma PartitionIsOnDisk(machine: System, table: TableRequest, disk: DiskInfo)
    requires machine.Valid() && CanBeDone(machine, table, disk) && TableOf(table, disk)
    ensures IsValidDeviceRange(|machine.disk|, table.layout.startOffset, table.layout.length, table.sectorSize)
  {
    CalculatedLayoutIsDisjoint(table);
    CalculatedLayoutBounds(table.diskSize, table.sectorSize);
    GateChecks(table);
    hide Gated, CalculateGptLayout, Replay;
  }

  /** Maps the partition-to-be and restores through it. */
  method RestoreGated(run: Run, reporter: HelperReporter, device: BlockDevice, table: TableRequest, disk: DiskInfo,
                      unicode: Unicode)
    returns (ok: bool, error: ErrorText, diskSequence: Option<U64>)
    requires Gated(table) && run.script == LinuxScript(table) && run.At(8) && TableOf(table, disk)
    requires run.machine == device.machine && device.Valid() && device.fd >= 0 && Heard(run, reporter)
    modifies run`outOfOrder, run`answers, run.steps`done, reporter`request, reporter`cancelled, reporter`answers
    modifies run.machine`disk, run.machine`log, run.machine`hindered, run.machine`interruptions, run.machine`descriptors
    ensures device.Valid()
    ensures run.machine.descriptors == old(run.machine.descriptors)
    ensures if ok then run.At(18 + |WritingTasks(table)|) else run.Stopped(error.NoText?)
    ensures Heard(run, reporter) && Heeded(reporter, ok, error) && (ok ==> diskSequence.Some?)
    ensures error.SomeText? && CanBeDone(run.machine, table, disk) ==> run.machine.hindered
  {
    hide Gated, LinuxScript, WritingTasks, Walk, StepsReported, Replay, IsThere, CalculateGptLayout;
    hide IsValidDeviceRange, Answers;
    diskSequence := None;
    if CanBeDone(run.machine, table, disk) {
      PartitionIsOnDisk(run.machine, table, disk);
    }
    var formatter := new LoopDevice(run.machine);
    ok, error := formatter.Configure(table.layout.startOffset, table.layout.length, table.sectorSize);
    if !ok {
      run.GiveUp(error);
      return;
    }
    ok, error, diskSequence := RestoreMapped(run, reporter, device, formatter, table, disk, unicode);
  }

  /** Everything done through the exclusively opened device. */
  method RestoreOpened(run: Run, reporter: HelperReporter, device: BlockDevice, table: TableRequest, disk: DiskInfo,
                       unicode: Unicode)
    returns (ok: bool, error: ErrorText, diskSequence: Option<U64>)
    requires run.script == LinuxScript(table) && run.At(6) && TableOf(table, disk)
    requires run.machine == device.machine && device.Valid() && device.fd >= 0 && Heard(run, reporter)
    modifies run`outOfOrder, run`answers, run.steps`done, reporter`request, reporter`cancelled, reporter`answers
    modifies run.machine`disk, run.machine`log, run.machine`hindered, run.machine`interruptions, run.machine`descriptors
    ensures device.Valid()
    ensures run.machine.descriptors == old(run.machine.descriptors)
    ensures ok ==> Gated(table) && run.At(18 + |WritingTasks(table)|)
    ensures ok ==> disk.deviceSequence.Some? && (table.diskSize != 0 ==> |run.machine.disk| == table.diskSize)
    ensures !ok ==> run.Stopped(error.NoText?)
    ensures Heard(run, reporter) && Heeded(reporter, ok, error) && (ok ==> diskSequence.Some?)
    ensures error.SomeText? && CanBeDone(run.machine, table, disk) ==> run.machine.hindered
  {
    hide LinuxScript, WritingTasks, Walk, StepsReported, Replay, Gated, WriteGate, IsThere, CalculateGptLayout, Answers;
    ScriptTasks(table);
    diskSequence := None;
    ok, error := IdentifyTask(run, device, disk, unicode, 6);
    if !ok {
      run.GiveUp(error);
      return;
    }
    assert table.diskSize != 0 ==> |run.machine.initial| == table.diskSize;
    var cancelled, waiting := reporter.CancelRequested();
    run.Answered(cancelled, 7);
    if cancelled {
      return false, NoText, None;
    }
    error := Wording(Gated(table));
    if error.SomeText? {
      run.GiveUp(error);
      return false, error, None;
    }
    ok, error, diskSequence := RestoreGated(run, reporter, device, table, disk, unicode);
  }

  // ----- the whole restore -----

  /** The table a restore would write on a disk. */
  function TableFor(request: RestoreRequest, disk: DiskInfo, diskGuid: seq<Byte>, partitionGuid: seq<Byte>): TableRequest
  {
    TableRequest(request.style, request.fileSystem, disk.size, disk.sectorSize,
                 CalculateGptLayout(disk.size, disk.sectorSize), diskGuid, partitionGuid, request.volumeLabel)
  }

  /** The disk as the system reports it now passes every check the selected one passed. */
  predicate StillRestorable(request: RestoreRequest, current: DiskInfo, unicode: Unicode)
  {
    && IsSameRestoreTarget(request.disk, current, unicode)
    && IsSafeRestoreTarget(current, request.guard, unicode)
    && CanCreatePartitionLayout(request.style, current.size, current.sectorSize)
    && CanCreateFileSystemOn(request.fileSystem, current.size, current.sectorSize)
  }

  /** From the exclusive open to the new partition. */
  method RestoreVerified(run: Run, reporter: HelperReporter, table: TableRequest, disk: DiskInfo, unicode: Unicode)
    returns (ok: bool, error: ErrorText)
    requires run.script == LinuxScript(table) && run.At(4) && TableOf(table, disk) && Heard(run, reporter)
    requires table.diskSize > 0
    modifies run`outOfOrder, run`answers, run.steps`done, reporter`request, reporter`cancelled, reporter`answers
    modifies run.machine`disk, run.machine`log, run.machine`hindered, run.machine`interruptions, run.machine`descriptors
    ensures run.machine.descriptors == old(run.machine.descriptors)
    ensures ok ==> Gated(table) && run.At(|LinuxScript(table)|) && |run.machine.disk| == table.diskSize
    ensures ok ==> disk.deviceSequence.Some?
    ensures !ok ==> run.Stopped(error.NoText?)
    ensures Heard(run, reporter) && Heeded(reporter, ok, error)
    ensures error.SomeText? && CanBeDone(run.machine, table, disk) ==> run.machine.hindered
  {
    hide LinuxScript, WritingTasks, FormatTasks, Walk, StepsReported, Replay, Gated, CanBeDone, TableOf, Answers;
    hide Heeded;
    ScriptTasks(table);
    var device := new BlockDevice(run.machine);
    var diskSequence := None;
    ok, error := OpenExclusively(run, device);
    if ok {
      ok, error, diskSequence := RestoreOpened(run, reporter, device, table, disk, unicode);
    } else {
      run.GiveUp(error);
      HeededAnyway(reporter, ok, error);
    }
    device.Close();
    if ok {
      ok, error := AwaitPartition(run, table, diskSequence);
      HeededAnyway(reporter, ok, error);
    }
  }

  lemma HeededAnyway(reporter: HelperReporter, ok: bool, error: ErrorText)
    requires ok <==> error.NoText?
    ensures Heeded(reporter, ok, error)
  {}

  lemma LastPlaces(table: TableRequest)
    requires Gated(table)
    ensures var script, first := LinuxScript(table), 18 + |WritingTasks(table)|;
            |script| == first + 2 && script[first] == Report(WaitForPartition) && script[first + 1] == Report(Complete)
  {
    hide Gated, LinuxScript, ClearTasks, TableTasks, WritingTasks, Holds, FormattingTasks;
    TaskPlaces(table);
  }

  /** The new partition has appeared and belongs to the disk just written. */
  method AwaitPartition(run: Run, table: TableRequest, diskSequence: Option<U64>) returns (ok: bool, error: ErrorText)
    requires Gated(table) && run.script == LinuxScript(table) && run.At(18 + |WritingTasks(table)|)
    modifies run`outOfOrder, run.steps`done, run.machine`log, run.machine`hindered, run.machine`descriptors
    ensures run.machine.descriptors == old(run.machine.descriptors)
    ensures if ok then run.At(|LinuxScript(table)|) else run.Stopped(false)
    ensures (ok <==> error.NoText?) && (!ok ==> run.machine.hindered)
  {
    hide LinuxScript, WritingTasks, Walk, StepsReported, Answers, Replay, Gated;
    LastPlaces(table);
    run.Report(WaitForPartition, 18 + |WritingTasks(table)|);
    // The node appears in time, or is missed.
    ok, error := OtherCall(run.machine);
    var partition := new BlockDevice(run.machine);
    if ok {
      ok, error := partition.Open();
    }
    if ok {
      ghost var number, listed, sequence;
      ok, error, number, listed, sequence := partition.VerifyPartitionOf(diskSequence);
    }
    partition.Close();
    if ok {
      run.Report(Complete, 19 + |WritingTasks(table)|);
    } else {
      run.GiveUp(error);
    }
  }

  /** The disk selected is safe, and so it is as it is now. */
  predicate PassesChecks(request: RestoreRequest, refreshed: Option<DiskInfo>, unicode: Unicode)
  {
    && refreshed.Some? && IsSafeRestoreTarget(request.disk, request.guard, unicode)
    && StillRestorable(request, refreshed.value, unicode)
  }

  /** Every check that needs no more than a look at the disk; nothing else is refused unless a call is. */
  method VetDisk(run: Run, request: RestoreRequest, refreshed: Option<DiskInfo>, unicode: Unicode)
    returns (ok: bool, error: ErrorText)
    requires PREPARATION <= run.script && run.At(0)
    modifies run`outOfOrder, run.steps`done, run.machine`log, run.machine`hindered, run.machine`descriptors
    ensures run.machine.descriptors == old(run.machine.descriptors)
    ensures if ok then run.At(3) else run.Working()
    ensures ok <==> error.NoText?
    ensures ok ==> PassesChecks(request, refreshed, unicode)
    ensures !ok && PassesChecks(request, refreshed, unicode) && IsThere(run.machine, refreshed.value) ==> run.machine.hindered
  {
    hide Walk, StepsReported, Answers, Replay, IsThere, SafetyCheck, CanCreatePartitionLayout, CanCreateFileSystemOn;
    hide IsSameRestoreTarget;
    ok := false;
    var safe := CheckRestoreTarget(request.disk, request.guard, unicode);
    error := Wording(safe == Safe);
    if error.SomeText? {
      return;
    }
    // The formatter is looked for before anything is overwritten.
    ok, error := OtherCall(run.machine);
    if !ok {
      return;
    }
    run.Report(VerifyDisk, 0);
    ok := false;
    if refreshed.None? {
      return false, SomeText;
    }
    error := Wording(IsSameRestoreTarget(request.disk, refreshed.value, unicode));
    if error.NoText? {
      safe := CheckRestoreTarget(refreshed.value, request.guard, unicode);
      error := Wording(safe == Safe);
    }
    if error.NoText? {
      error := Wording(CanCreatePartitionLayout(request.style, refreshed.value.size, refreshed.value.sectorSize));
    }
    if error.NoText? {
      error := Wording(CanCreateFileSystemOn(request.fileSystem, refreshed.value.size, refreshed.value.sectorSize));
    }
    if error.SomeText? {
      return;
    }
    ok, error := Inspect(run, refreshed.value, unicode);
  }

  /** What holds after any restore, with the table it would have written: done in full, or stopped, and without a
      text only if it was cancelled. */
  ghost predicate Outcome(machine: System, table: TableRequest, ok: bool, error: ErrorText)
    reads machine
  {
    && machine.Valid()
    && (ok ==> Calculated(table) && |machine.disk| == table.diskSize && Completes(LinuxScript(table), machine.log))
    && (!ok ==> Walk(LinuxScript(table), machine.log) == Stopping(error.NoText?))
  }

  lemma FailedOutcome(run: Run, table: TableRequest, error: ErrorText)
    requires run.Stopped(error.NoText?) && run.script == LinuxScript(table)
    ensures Outcome(run.machine, table, false, error)
  {
    hide LinuxScript, Walk, StepsReported, Answers, Replay, Calculated;
  }

  lemma DoneOutcome(run: Run, table: TableRequest, error: ErrorText)
    requires run.script == LinuxScript(table) && run.At(|LinuxScript(table)|)
    requires Gated(table) && table.layout == CalculateGptLayout(table.diskSize, table.sectorSize)
    requires |run.machine.disk| == table.diskSize >= MINIMUM_RESTORE_TARGET_BYTES
    ensures Outcome(run.machine, table, true, error)
  {
    hide LinuxScript, Walk, StepsReported, Answers, Replay, Gated, CalculateGptLayout;
  }

  lemma ScriptBegins(table: TableRequest)
    ensures PREPARATION <= LinuxScript(table) && StepsPlanned(LinuxScript(table)) <= LINUX_PLAN
  {
    hide LinuxScript, Gated;
    ScriptReportsPlan(table);
    ScriptTasks(table);
  }

  /** Nothing but a failing call or a wish to stop can keep this restore from succeeding: the disk passes every
      check and is there, and the identifiers have the shape identifiers have. */
  ghost predicate CanSucceed(machine: System, request: RestoreRequest, refreshed: Option<DiskInfo>,
                             diskGuid: seq<Byte>, partitionGuid: seq<Byte>, unicode: Unicode)
  {
    && PassesChecks(request, refreshed, unicode) && IsThere(machine, refreshed.value)
    && |diskGuid| == |partitionGuid| == 16
  }

  /** From the first check to the new partition. `refreshed` is what a fresh look at the device reports, if it is
      still there; the identifiers are random. */
  method AttemptRestore(machine: System, reporter: HelperReporter, request: RestoreRequest, refreshed: Option<DiskInfo>,
                        diskGuid: seq<Byte>, partitionGuid: seq<Byte>, unicode: Unicode)
    returns (ok: bool, error: ErrorText)
    requires machine.Valid() && machine.log == [] && reporter.Valid()
    modifies machine, reporter`request, reporter`cancelled, reporter`answers
    ensures machine.descriptors == old(machine.descriptors) && reporter.Valid()
    ensures Outcome(machine, TableFor(request, refreshed.GetOr(request.disk), diskGuid, partitionGuid), ok, error)
    ensures Heeded(reporter, ok, error)
    ensures reporter.answers == old(reporter.answers) + Answers(machine.log)
    ensures old(reporter.cancelled) ==> Answers(machine.log) == [] || Answers(machine.log) == [true]
    ensures Answers(machine.log) != [] ==> PassesChecks(request, refreshed, unicode)
    ensures ok ==> PassesChecks(request, refreshed, unicode) && refreshed.value.deviceSequence.Some?
    ensures error.SomeText? && CanSucceed(machine, request, refreshed, diskGuid, partitionGuid, unicode) ==> machine.hindered
  {
    hide Outcome, LinuxScript, Walk, StepsReported, Replay, Gated, CalculateGptLayout, StillRestorable;
    hide IsSafeRestoreTarget;
    hide IsThere, Answers;
    ghost var table := TableFor(request, refreshed.GetOr(request.disk), diskGuid, partitionGuid);
    ScriptBegins(table);
    var run := new Run(machine, LINUX_PLAN, LinuxScript(table), reporter.answers);
    ok, error := VetDisk(run, request, refreshed, unicode);
    if !ok {
      run.GiveUp(error);
      FailedOutcome(run, table, error);
      return;
    }
    var cancelled, waiting := reporter.CancelRequested();
    run.Answered(cancelled, 3);
    assert run.answers == [cancelled];
    if cancelled {
      FailedOutcome(run, table, NoText);
      return false, NoText;
    }
    SafeNow(request, refreshed.value, unicode);
    if CanSucceed(machine, request, refreshed, diskGuid, partitionGuid, unicode) {
      RestorableIsCalculated(request, refreshed.value, diskGuid, partitionGuid, unicode);
    }
    ok, error := RestoreVerified(run, reporter, TableFor(request, refreshed.value, diskGuid, partitionGuid), refreshed.value,
                                 unicode);
    if ok {
      DoneOutcome(run, table, error);
    } else {
      FailedOutcome(run, table, error);
    }
  }

  lemma SafeNow(request: RestoreRequest, current: DiskInfo, unicode: Unicode)
    requires StillRestorable(request, current, unicode)
    ensures current.size >= MINIMUM_RESTORE_TARGET_BYTES && IsSupportedSectorSize(current.sectorSize)
  {
    hide SafetyCheck, CanCreatePartitionLayout, CanCreateFileSystemOn, IsSameRestoreTarget;
    SafeDiskHasLayout(current, request.guard, unicode);
  }

  /** After the checks the write gate has nothing left to refuse: the table of a disk that passed them is always
      accepted, on the calculated layout. */
  lemma RestorableIsCalculated(request: RestoreRequest, current: DiskInfo, diskGuid: seq<Byte>, partitionGuid: seq<Byte>,
                               unicode: Unicode)
    requires StillRestorable(request, current, unicode) && |diskGuid| == |partitionGuid| == 16
    ensures Calculated(TableFor(request, current, diskGuid, partitionGuid))
  {
    SafeNow(request, current, unicode);
    hide CalculateGptLayout, IsSameRestoreTarget, SafetyCheck, Gated, CanCreatePartitionLayout, CanCreateFileSystemOn;
    PreflightAgreesWithGate(TableFor(request, current, diskGuid, partitionGuid));
  }

  // ----- what every restore guarantees -----

  /** Every write comes after the user was told that the signatures are being cleared. */
  ghost predicate WarnedFirst(log: seq<Event>)
  {
    forall i :: 0 <= i < |log| && log[i].Writes() ==> exists j :: 0 <= j < i && log[j] == Reported(ClearSignatures)
  }

  /** However a run ends, it has reported the beginning of the plan and warned before writing. */
  lemma EveryRunWarns(machine: System, table: TableRequest, ok: bool, error: ErrorText)
    requires Outcome(machine, table, ok, error)
    ensures StepsReported(machine.log) <= LINUX_PLAN && (ok ==> StepsReported(machine.log) == LINUX_PLAN)
    ensures WarnedFirst(machine.log)
  {
    hide Calculated, LinuxScript, Walk, StepsReported, Answers, Replay, Gated;
    var script, log := LinuxScript(table), machine.log;
    assert ok ==> Gated(table) by {
      CalculatedIsGated(table);
    }
    ScriptReportsPlan(table);
    StepsFollowPlan(script, log);
    forall i | 0 <= i < |log| && log[i].Writes()
      ensures exists j :: 0 <= j < i && log[j] == Reported(ClearSignatures)
    {
      ScriptWarnsFirst(table, log, i);
    }
  }

  /** A run that failed without a text was asked to stop, and has changed nothing. */
  lemma CancelledRunChangedNothing(machine: System, table: TableRequest)
    requires Outcome(machine, table, false, NoText)
    ensures machine.disk == machine.initial
  {
    hide Calculated, LinuxScript, Walk;
    CancelledScriptWroteNothing(table, machine.log);
    QuietReplay(machine.initial, machine.log);
  }

  /** Every answer is obeyed: a run fails without a text exactly if it was told to stop, it has the last word then, and
      one that has changed the disk, or is done, was told three times to go on. */
  lemma EveryAnswerIsObeyed(machine: System, table: TableRequest, ok: bool, error: ErrorText)
    requires Outcome(machine, table, ok, error)
    ensures true in Answers(machine.log) <==> !ok && error.NoText?
    ensures ok || machine.disk != machine.initial ==> Answers(machine.log) == [false, false, false]
  {
    hide LinuxScript, Walk, Gated, CalculateGptLayout, Replay, Answers, WritesNothing;
    YesIsObeyed(LinuxScript(table), machine.log);
    ScriptWritersWereToldNo(table, machine.log);
    if WritesNothing(machine.log) {
      QuietReplay(machine.initial, machine.log);
    }
  }

  /** The formatter writes only after the tables have been flushed, and nothing of the run's own is stored later. */
  ghost predicate FlushedFirst(log: seq<Event>)
  {
    forall i :: 0 <= i < |log| && log[i].ForeignWrote? ==>
      exists j :: 0 <= j < i && log[j] == Flushed && forall k :: j < k < i ==> !log[k].Stored?
  }

  /** However a run ends, it has looked again before it wrote, and flushed before it let the formatter write. */
  lemma EveryRunLooksFirst(machine: System, table: TableRequest, ok: bool, error: ErrorText)
    requires Outcome(machine, table, ok, error)
    ensures IdentifiedFirst(machine.log) && FlushedFirst(machine.log)
  {
    hide Calculated, LinuxScript, Walk, Replay, Gated;
    var log := machine.log;
    forall i | 0 <= i < |log| && log[i].Writes()
      ensures exists j :: 0 <= j < i && log[j] == Identified && forall k :: j < k < i ==> !log[k].Asked?
    {
      ScriptIdentifiesFirst(table, log, i);
    }
    forall i | 0 <= i < |log| && log[i].ForeignWrote?
      ensures exists j :: 0 <= j < i && log[j] == Flushed && forall k :: j < k < i ==> !log[k].Stored?
    {
      ScriptFlushesFirst(table, log, i);
    }
  }

  /** A restore that succeeds leaves the intended disk: the tables padded with zeros on every whole sector outside
      the partition, everything past the last whole sector as it was, and the requested style for a scan to find. */
  lemma SuccessfulRunWroteImage(machine: System, table: TableRequest, error: ErrorText)
    requires Outcome(machine, table, true, error)
    ensures HoldsImage(table, machine.initial, machine.disk)
    ensures DetectPartitionStyle(machine.disk, table.sectorSize) == table.style
  {
    hide Gated, LinuxScript, Completes, Replay, IntendedByte, InPartition, CalculateGptLayout;
    FinalImage(table, machine.initial, machine.log);
    FinalStyleIsDetected(table, machine.initial, machine.log);
  }

  /** The disk reads as what was asked for. */
  ghost predicate HoldsRequest(request: RestoreRequest, current: DiskInfo, diskGuid: seq<Byte>, partitionGuid: seq<Byte>,
                               disk: seq<Byte>)
  {
    && (request.style == Gpt ==>
          ReadsAsGpt(disk, current.size, current.sectorSize, request.fileSystem, request.volumeLabel, diskGuid, partitionGuid))
    && (request.style == Mbr ==>
          ReadsAsMbr(disk, current.size, current.sectorSize, request.fileSystem, diskGuid))
  }

  lemma SuccessfulRunIsRead(machine: System, request: RestoreRequest, current: DiskInfo, diskGuid: seq<Byte>,
                            partitionGuid: seq<Byte>, error: ErrorText)
    requires Outcome(machine, TableFor(request, current, diskGuid, partitionGuid), true, error)
    ensures HoldsRequest(request, current, diskGuid, partitionGuid, machine.disk)
  {
    hide Gated, LinuxScript, Completes, Replay, CalculateGptLayout, ReadsAsGpt, ReadsAsMbr;
    FinalDiskReads(TableFor(request, current, diskGuid, partitionGuid), machine.initial, machine.log);
  }

  /** However a restore ends, every descriptor is closed, the beginning of the plan was reported, and no write came
      before the warning and a last look at the disk, nor on a disk that failed a check. Success means all of the plan,
      the intended disk, which reads as what was asked for, and one that passed every check. Every answer is obeyed:
      after a yes, or if the caller had asked to stop beforehand, the restore fails and nothing has changed. And it
      fails for no other reason than an answer, a call that failed, or a disk that cannot be restored. */
  method PerformLinuxRestore(machine: System, reporter: HelperReporter, request: RestoreRequest, refreshed: Option<DiskInfo>,
                             diskGuid: seq<Byte>, partitionGuid: seq<Byte>, unicode: Unicode)
    returns (ok: bool, error: ErrorText)
    requires machine.Valid() && machine.log == [] && reporter.Valid()
    modifies machine, reporter`request, reporter`cancelled, reporter`answers
    ensures machine.Valid() && machine.descriptors == old(machine.descriptors)
    ensures StepsReported(machine.log) <= LINUX_PLAN && WarnedFirst(machine.log)
    ensures IdentifiedFirst(machine.log) && FlushedFirst(machine.log)
    ensures ok ==>
              && StepsReported(machine.log) == LINUX_PLAN && Answers(machine.log) == [false, false, false]
              && PassesChecks(request, refreshed, unicode) && refreshed.value.deviceSequence.Some?
              && HoldsImage(TableFor(request, refreshed.value, diskGuid, partitionGuid), old(machine.disk), machine.disk)
              && HoldsRequest(request, refreshed.value, diskGuid, partitionGuid, machine.disk)
              && DetectPartitionStyle(machine.disk, refreshed.value.sectorSize) == request.style
    ensures machine.disk != old(machine.disk) ==> PassesChecks(request, refreshed, unicode)
    ensures reporter.answers == old(reporter.answers) + Answers(machine.log)
    ensures true in Answers(machine.log) <==> !ok && error.NoText?
    ensures true in Answers(machine.log) || old(reporter.cancelled) ==> !ok && machine.disk == old(machine.disk)
    ensures !ok && error.NoText? ==> machine.disk == old(machine.disk) && reporter.cancelled
    ensures CanSucceed(machine, request, refreshed, diskGuid, partitionGuid, unicode) ==>
              ok || machine.hindered || true in Answers(machine.log)
    ensures reporter.Valid()
    ensures Outcome(machine, TableFor(request, refreshed.GetOr(request.disk), diskGuid, partitionGuid), ok, error)
  {
    hide Outcome, PassesChecks, CanSucceed, HoldsImage, HoldsRequest, DetectPartitionStyle, StepsReported;
    hide WarnedFirst, Replay;
    hide IdentifiedFirst, FlushedFirst, Answers;
    ghost var table := TableFor(request, refreshed.GetOr(request.disk), diskGuid, partitionGuid);
    StartsAtInitial(machine);
    ok, error := AttemptRestore(machine, reporter, request, refreshed, diskGuid, partitionGuid, unicode);
    OutcomeIsValid(machine, table, ok, error);
    EveryRunWarns(machine, table, ok, error);
    EveryRunLooksFirst(machine, table, ok, error);
    EveryAnswerIsObeyed(machine, table, ok, error);
    if ok {
      assert Answers(machine.log)[1] == false;
      RefreshedIsThere(request, refreshed, unicode);
      SuccessfulRunWroteImage(machine, table, error);
      SuccessfulRunIsRead(machine, request, refreshed.value, diskGuid, partitionGuid, error);
    } else if error.NoText? {
      CancelledRunChangedNothing(machine, table);
    }
  }

  lemma RefreshedIsThere(request: RestoreRequest, refreshed: Option<DiskInfo>, unicode: Unicode)
    requires PassesChecks(request, refreshed, unicode)
    ensures refreshed.Some?
  {}

  lemma OutcomeIsValid(machine: System, table: TableRequest, ok: bool, error: ErrorText)
    requires Outcome(machine, table, ok, error)
    ensures machine.Valid()
  {
    hide Calculated, LinuxScript, Completes;
  }
}
