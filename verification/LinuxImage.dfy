/** The tasks of a Linux restore and the disk they leave behind. */
module LinuxImage {
  import opened Bytes
  import opened Wrappers
  import opened Layout
  import opened PartitionTable
  import opened TableReader
  import opened MbrReader
  import opened RestorePlan
  import opened RestoreScript
  import Crc32

  /** Up to the write gate. */
  const PREPARATION: seq<Task> :=
    [ Report(VerifyDisk), Report(IdentifyDevice), Identify, Checkpoint,
      Report(Unmount), Report(OpenExclusive), Identify, Checkpoint ]

  /** The last place to stop, a last look, and the warning that comes after it. */
  const WARNING: seq<Task> := [Checkpoint, Identify, Report(ClearSignatures)]

  function ClearTasks(diskSize: U64, sectorSize: U32): seq<Task>
  {
    var clear := SignatureClearRange(diskSize, sectorSize);
    if clear.bytes == 0 then [] else [Store(0, Zeros(clear.bytes)), Store(clear.tailOffset, Zeros(clear.bytes))]
  }

  function TableTasks(table: TableRequest): seq<Task>
    requires Gated(table)
  {
    GateChecks(table);
    if table.style == Gpt then [Store(0, GptPrimary(table)), Store(GptBackupOffset(table), GptBackup(table))]
    else [Store(0, MbrImage(table))]
  }

  function FormatTasks(table: TableRequest): seq<Task>
  {
    [ Flush, Report(FormatVolume), Foreign(table.layout.startOffset, table.layout.startOffset + table.layout.length),
      Release, Report(RereadPartitionTable), Flush, Reread, Report(WaitForPartition), Report(Complete) ]
  }

  function WritingTasks(table: TableRequest): seq<Task>
    requires Gated(table)
  {
    ClearTasks(table.diskSize, table.sectorSize) + [Report(WritePartitionTable)] + TableTasks(table)
  }

  /** Everything a Linux restore does; a request the gate refuses is given up after the preparation. */
  function LinuxScript(table: TableRequest): seq<Task>
  {
    if Gated(table) then PREPARATION + WARNING + WritingTasks(table) + FormatTasks(table) else PREPARATION
  }

  // ----- the shape of the script -----

  lemma {:induction false} StepsOfConcatenation(a: seq<Task>, b: seq<Task>)
    ensures StepsPlanned(a + b) == StepsPlanned(a) + StepsPlanned(b)
    decreases |b|
  {
    if b == [] {
      assert a + b == a;
    } else {
      StepsOfConcatenation(a, b[..|b| - 1]);
      assert (a + b)[..|a + b| - 1] == a + b[..|b| - 1];
    }
  }

  lemma {:induction false} StepsOfStores(tasks: seq<Task>)
    requires forall k :: 0 <= k < |tasks| ==> tasks[k].Store?
    ensures StepsPlanned(tasks) == []
    decreases |tasks|
  {
    if tasks != [] {
      StepsOfStores(tasks[..|tasks| - 1]);
    }
  }

  lemma StepsOfPair(a: Task, b: Task)
    ensures StepsPlanned([a, b]) == StepsOf(a) + StepsOf(b)
    ensures StepsPlanned([a]) == StepsOf(a)
  {
    assert [a, b][..1] == [a] && [a][..0] == [];
    assert StepsPlanned([]) == [];
    assert StepsPlanned([a]) == StepsOf(a);
  }

  function StepsOf(task: Task): seq<RestoreStep>
  {
    if task.Report? then [task.step] else []
  }

  lemma StepsOfPreparation()
    ensures StepsPlanned(PREPARATION) == [VerifyDisk, IdentifyDevice, Unmount, OpenExclusive]
  {
    hide StepsPlanned;
    var t := PREPARATION;
    StepsOfFour(t[0], t[1], t[2], t[3]);
    StepsOfFour(t[4], t[5], t[6], t[7]);
    StepsOfConcatenation([t[0], t[1]] + [t[2], t[3]], [t[4], t[5]] + [t[6], t[7]]);
    assert t == ([t[0], t[1]] + [t[2], t[3]]) + ([t[4], t[5]] + [t[6], t[7]]);
  }

  lemma StepsOfFour(a: Task, b: Task, c: Task, d: Task)
    ensures StepsPlanned([a, b] + [c, d]) == StepsOf(a) + StepsOf(b) + StepsOf(c) + StepsOf(d)
  {
    hide StepsPlanned, StepsOf;
    StepsOfPair(a, b);
    StepsOfPair(c, d);
    StepsOfConcatenation([a, b], [c, d]);
  }

  lemma StepsOfWarning()
    ensures StepsPlanned(WARNING) == [ClearSignatures]
  {
    hide StepsPlanned;
    StepsOfPair(WARNING[0], WARNING[1]);
    StepsOfPair(WARNING[2], WARNING[2]);
    StepsOfConcatenation([WARNING[0], WARNING[1]], [WARNING[2]]);
    assert WARNING == [WARNING[0], WARNING[1]] + [WARNING[2]];
  }

  lemma StepsOfFormat(table: TableRequest)
    ensures StepsPlanned(FormatTasks(table)) == [FormatVolume, RereadPartitionTable, WaitForPartition, Complete]
  {
    var tasks := FormatTasks(table);
    StepsOfPair(tasks[0], tasks[1]);
    StepsOfPair(tasks[2], tasks[3]);
    StepsOfPair(tasks[4], tasks[5]);
    StepsOfPair(tasks[6], tasks[7]);
    StepsOfPair(tasks[8], tasks[8]);
    hide StepsPlanned;
    StepsOfConcatenation([tasks[0], tasks[1]], [tasks[2], tasks[3]]);
    StepsOfConcatenation([tasks[0], tasks[1]] + [tasks[2], tasks[3]], [tasks[4], tasks[5]]);
    StepsOfConcatenation([tasks[0], tasks[1]] + [tasks[2], tasks[3]] + [tasks[4], tasks[5]], [tasks[6], tasks[7]]);
    StepsOfConcatenation([tasks[0], tasks[1]] + [tasks[2], tasks[3]] + [tasks[4], tasks[5]] + [tasks[6], tasks[7]], [tasks[8]]);
    assert tasks == [tasks[0], tasks[1]] + [tasks[2], tasks[3]] + [tasks[4], tasks[5]] + [tasks[6], tasks[7]] + [tasks[8]];
  }

  lemma WritingIsStores(table: TableRequest)
    requires Gated(table)
    ensures forall task :: task in ClearTasks(table.diskSize, table.sectorSize) ==> task.Store?
    ensures forall task :: task in TableTasks(table) ==> task.Store?
  {
    hide Gated, GptPrimary, GptBackup, GptBackupOffset, MbrImage, SignatureClearRange;
  }

  lemma StepsOfWriting(table: TableRequest)
    requires Gated(table)
    ensures StepsPlanned(WritingTasks(table)) == [WritePartitionTable]
  {
    hide Gated, ClearTasks, TableTasks, StepsPlanned;
    var clear, write := ClearTasks(table.diskSize, table.sectorSize), TableTasks(table);
    WritingIsStores(table);
    StepsOfStores(clear);
    StepsOfStores(write);
    StepsOfPair(Report(WritePartitionTable), Checkpoint);
    StepsOfConcatenation(clear, [Report(WritePartitionTable)]);
    StepsOfConcatenation(clear + [Report(WritePartitionTable)], write);
  }

  /** The script of a gated request reports exactly the published plan; any other reports its beginning. */
  lemma ScriptReportsPlan(table: TableRequest)
    ensures StepsPlanned(LinuxScript(table)) <= LINUX_PLAN
    ensures Gated(table) ==> StepsPlanned(LinuxScript(table)) == LINUX_PLAN
  {
    StepsOfPreparation();
    hide Gated, WritingTasks, FormatTasks;
    if Gated(table) {
      StepsOfWriting(table);
      StepsOfFormat(table);
      StepsOfWarning();
      hide StepsPlanned;
      StepsOfConcatenation(PREPARATION, WARNING);
      StepsOfConcatenation(PREPARATION + WARNING, WritingTasks(table));
      StepsOfConcatenation(PREPARATION + WARNING + WritingTasks(table), FormatTasks(table));
    }
  }

  /** The tasks of the script, by number. */
  lemma ScriptTasks(table: TableRequest)
    ensures PREPARATION <= LinuxScript(table)
    ensures !Gated(table) ==> LinuxScript(table) == PREPARATION
    ensures Gated(table) ==>
              var script, writing, end := LinuxScript(table), WritingTasks(table), FormatTasks(table);
              && |script| == 11 + |writing| + |end|
              && script[8] == Checkpoint && script[9] == Identify && script[10] == Report(ClearSignatures)
              && (forall k :: 11 <= k < 11 + |writing| ==> script[k] == writing[k - 11])
              && (forall k :: 11 + |writing| <= k < |script| ==> script[k] == end[k - 11 - |writing|])
  {
    hide Gated, WritingTasks, FormatTasks;
  }

  // ----- the point of no return -----

  /** Cancellation ends, and writing begins, with the report that the signatures are being cleared. */
  lemma ScriptTurnsDestructive(table: TableRequest)
    requires Gated(table)
    ensures TurnsDestructiveAt(LinuxScript(table), 10)
    ensures LinuxScript(table)[10] == Report(ClearSignatures) && LinuxScript(table)[9] == Identify
  {
    hide Gated, LinuxScript, WritingTasks;
    ScriptTasks(table);
    WritingNeverAsks(table);
    var script, end := LinuxScript(table), FormatTasks(table);
    assert forall k :: 0 <= k < 8 ==> script[k] == PREPARATION[k];
    assert forall k :: 0 <= k < |end| ==> end[k] != Checkpoint;
    forall k | 10 <= k < |script|
      ensures script[k] != Checkpoint
    {
      if 11 <= k < 11 + |WritingTasks(table)| {
        assert script[k] == WritingTasks(table)[k - 11];
      } else if 11 <= k {
        assert script[k] == end[k - 11 - |WritingTasks(table)|];
      }
    }
  }

  lemma WritingNeverAsks(table: TableRequest)
    requires Gated(table)
    ensures forall k :: 0 <= k < |WritingTasks(table)| ==> WritingTasks(table)[k] != Checkpoint
  {
    hide Gated, ClearTasks, TableTasks;
    WritingIsStores(table);
    var writing := WritingTasks(table);
    forall k | 0 <= k < |writing|
      ensures writing[k] != Checkpoint
    {
      assert writing[k] in ClearTasks(table.diskSize, table.sectorSize) + [Report(WritePartitionTable)] + TableTasks(table);
    }
  }

  /** Whatever the request, every write comes after the warning. */
  lemma ScriptWarnsFirst(table: TableRequest, log: seq<Event>, i: nat)
    requires Follows(LinuxScript(table), log) && i < |log| && log[i].Writes()
    ensures exists j :: 0 <= j < i && log[j] == Reported(ClearSignatures)
  {
    hide LinuxScript, Walk, Gated;
    if Gated(table) {
      ScriptTurnsDestructive(table);
      WritesComeAfterWarning(LinuxScript(table), 10, log, i);
    } else {
      ScriptTasks(table);
      QuietScript(LinuxScript(table), log);
    }
  }

  /** A run stopped at a checkpoint has written nothing, whatever the request. */
  lemma CancelledScriptWroteNothing(table: TableRequest, log: seq<Event>)
    requires Walk(LinuxScript(table), log) == Stopping(true)
    ensures WritesNothing(log)
  {
    hide LinuxScript, Walk, Gated;
    if Gated(table) {
      ScriptTurnsDestructive(table);
      CancelledWroteNothing(LinuxScript(table), 10, log);
    } else {
      ScriptTasks(table);
      QuietScript(LinuxScript(table), log);
    }
  }

  lemma {:induction false} QuestionsInTurn(a: seq<Task>, b: seq<Task>)
    ensures Questions(a + b) == Questions(a) + Questions(b)
    decreases |b|
  {
    if b == [] {
      assert a + b == a;
    } else {
      QuestionsInTurn(a, b[..|b| - 1]);
      assert (a + b)[..|a + b| - 1] == a + b[..|b| - 1];
    }
  }

  lemma {:induction false} AsksNothing(tasks: seq<Task>)
    requires forall k :: 0 <= k < |tasks| ==> tasks[k] != Checkpoint
    ensures Questions(tasks) == 0
    decreases |tasks|
  {
    if tasks != [] {
      AsksNothing(tasks[..|tasks| - 1]);
    }
  }

  /** The script asks three times; that of a refused request has no third time. */
  lemma ScriptAsks(table: TableRequest)
    ensures Questions(LinuxScript(table)) == if Gated(table) then 3 else 2
  {
    hide Gated, WritingTasks, FormatTasks;
    BeginningAsks();
    if Gated(table) {
      WritingNeverAsks(table);
      FormattingNeverAsks(table);
      hide Questions;
      AsksNothing(WritingTasks(table));
      AsksNothing(FormatTasks(table));
      QuestionsInTurn(PREPARATION, WARNING);
      QuestionsInTurn(PREPARATION + WARNING, WritingTasks(table));
      QuestionsInTurn(PREPARATION + WARNING + WritingTasks(table), FormatTasks(table));
    }
  }

  lemma FormattingNeverAsks(table: TableRequest)
    ensures forall k :: 0 <= k < |FormatTasks(table)| ==> FormatTasks(table)[k] != Checkpoint
  {}

  lemma AsksOnce(before: seq<Task>)
    requires forall k :: 0 <= k < |before| ==> before[k] != Checkpoint
    ensures Questions(before + [Checkpoint]) == 1
  {
    AsksNothing(before);
    assert (before + [Checkpoint])[..|before|] == before;
  }

  lemma BeginningAsks()
    ensures Questions(PREPARATION) == 2 && Questions(WARNING) == 1
  {
    AsksOnce(PREPARATION[..3]);
    AsksOnce(PREPARATION[4..7]);
    AsksOnce([]);
    AsksNothing(WARNING[1..]);
    hide Questions;
    assert PREPARATION == (PREPARATION[..3] + [Checkpoint]) + (PREPARATION[4..7] + [Checkpoint]);
    assert WARNING == ([] + [Checkpoint]) + WARNING[1..];
    QuestionsInTurn(PREPARATION[..3] + [Checkpoint], PREPARATION[4..7] + [Checkpoint]);
    QuestionsInTurn([] + [Checkpoint], WARNING[1..]);
  }

  /** Whatever the request, whoever has written anything was told three times to go on. */
  lemma ScriptWritersWereToldNo(table: TableRequest, log: seq<Event>)
    requires Follows(LinuxScript(table), log)
    ensures !WritesNothing(log) || (Completes(LinuxScript(table), log) && Gated(table)) ==>
              Answers(log) == [false, false, false]
  {
    hide LinuxScript, Walk, Gated, Questions, WritesNothing;
    ScriptAsks(table);
    assert Noes(3) == [false, false, false];
    if Gated(table) {
      ScriptTurnsDestructive(table);
      if !WritesNothing(log) {
        WritersWereToldNo(LinuxScript(table), 10, log);
      } else if Completes(LinuxScript(table), log) {
        RunningWasTold(LinuxScript(table), log);
        assert LinuxScript(table)[..|LinuxScript(table)|] == LinuxScript(table);
      }
    } else {
      ScriptTasks(table);
      QuietScript(LinuxScript(table), log);
    }
  }

  /** Whatever the request, every write comes after the disk was identified once more, with no question since. */
  lemma ScriptIdentifiesFirst(table: TableRequest, log: seq<Event>, i: nat)
    requires Follows(LinuxScript(table), log) && i < |log| && log[i].Writes()
    ensures exists j :: 0 <= j < i && log[j] == Identified && forall k :: j < k < i ==> !log[k].Asked?
  {
    hide LinuxScript, Walk, Gated;
    if Gated(table) {
      ScriptTurnsDestructive(table);
      IdentifiedBeforeWriting(LinuxScript(table), 10, log, i);
    } else {
      ScriptTasks(table);
      QuietScript(LinuxScript(table), log);
    }
  }

  /** Whatever the request, the formatter finds the tables stored and flushed, and nothing is stored after it. */
  lemma ScriptFlushesFirst(table: TableRequest, log: seq<Event>, i: nat)
    requires Follows(LinuxScript(table), log) && i < |log| && log[i].ForeignWrote?
    ensures exists j :: 0 <= j < i && log[j] == Flushed && forall k :: j < k < i ==> !log[k].Stored?
  {
    hide LinuxScript, Walk, Gated, WritingTasks;
    ScriptTasks(table);
    if Gated(table) {
      FlushStandsBetween(table);
      FlushedBeforeOthersWrite(LinuxScript(table), 11 + |WritingTasks(table)|, log, i);
    } else {
      QuietScript(LinuxScript(table), log);
    }
  }

  lemma FlushStandsBetween(table: TableRequest)
    requires Gated(table)
    ensures var script, flush := LinuxScript(table), 11 + |WritingTasks(table)|;
            && flush < |script| && script[flush] == Flush
            && (forall k :: 0 <= k < flush ==> !script[k].Foreign?)
            && (forall k :: flush < k < |script| ==> !script[k].Store?)
  {
    hide LinuxScript, Gated, WritingTasks;
    ScriptTasks(table);
    WritingIsOwn(table);
    var script, writing, end := LinuxScript(table), WritingTasks(table), FormatTasks(table);
    forall k | 0 <= k < 11 + |writing|
      ensures !script[k].Foreign?
    {
      if k < 8 {
        assert script[k] == PREPARATION[k];
      } else if 11 <= k {
        assert script[k] == writing[k - 11];
      }
    }
    forall k | 11 + |writing| < k < |script|
      ensures !script[k].Store?
    {
      assert script[k] == end[k - 11 - |writing|];
    }
  }

  lemma WritingIsOwn(table: TableRequest)
    requires Gated(table)
    ensures forall k :: 0 <= k < |WritingTasks(table)| ==> !WritingTasks(table)[k].Foreign?
  {
    hide Gated, ClearTasks, TableTasks;
    WritingIsStores(table);
    var writing := WritingTasks(table);
    forall k | 0 <= k < |writing|
      ensures !writing[k].Foreign?
    {
      assert writing[k] in ClearTasks(table.diskSize, table.sectorSize) + [Report(WritePartitionTable)] + TableTasks(table);
    }
  }

  // ----- the disk afterwards -----

  lemma {:induction false} PerformedInTurn(disk: seq<Byte>, a: seq<Task>, b: seq<Task>)
    ensures Performed(disk, a + b) == Performed(Performed(disk, a), b)
    decreases |b|
  {
    if b == [] {
      assert a + b == a;
    } else {
      PerformedInTurn(disk, a, b[..|b| - 1]);
      assert (a + b)[..|a + b| - 1] == a + b[..|b| - 1];
    }
  }

  lemma {:induction false} StorelessPerforms(disk: seq<Byte>, tasks: seq<Task>)
    requires forall k :: 0 <= k < |tasks| ==> !tasks[k].Store?
    ensures Performed(disk, tasks) == disk
    decreases |tasks|
  {
    if tasks != [] {
      StorelessPerforms(disk, tasks[..|tasks| - 1]);
    }
  }

  lemma StoresPerform(disk: seq<Byte>, a: Task, b: Task)
    requires a.Store? && b.Store?
    ensures Performed(disk, [a]) == Laid(disk, a.offset, a.data)
    ensures Performed(disk, [a, b]) == Laid(Laid(disk, a.offset, a.data), b.offset, b.data)
  {
    assert [a, b][..1] == [a] && [a][..0] == [];
    assert Performed(disk, []) == disk;
    assert Performed(disk, [a]) == Laid(disk, a.offset, a.data);
  }

  /** Only the stores of a script matter to the disk. */
  lemma ScriptPerforms(disk: seq<Byte>, table: TableRequest)
    requires Gated(table)
    ensures Performed(disk, LinuxScript(table))
         == Performed(Performed(disk, ClearTasks(table.diskSize, table.sectorSize)), TableTasks(table))
  {
    hide Gated, Performed, ClearTasks, TableTasks, FormatTasks;
    var clear, write := ClearTasks(table.diskSize, table.sectorSize), TableTasks(table);
    var start, note, end := PREPARATION + WARNING, [Report(WritePartitionTable)], FormatTasks(table);
    FormattingStoresNothing(table);
    StorelessPerforms(disk, start);
    PerformedInTurn(disk, start, WritingTasks(table));
    PerformedInTurn(disk, start + WritingTasks(table), end);
    StorelessPerforms(Performed(disk, start + WritingTasks(table)), end);
    WritingPerforms(disk, clear, note, write);
  }

  lemma FormattingStoresNothing(table: TableRequest)
    ensures forall k :: 0 <= k < |FormatTasks(table)| ==> !FormatTasks(table)[k].Store?
  {}

  lemma WritingPerforms(disk: seq<Byte>, clear: seq<Task>, note: seq<Task>, write: seq<Task>)
    requires forall k :: 0 <= k < |note| ==> !note[k].Store?
    ensures Performed(disk, clear + note + write) == Performed(Performed(disk, clear), write)
  {
    hide Performed;
    StorelessPerforms(Performed(disk, clear), note);
    PerformedInTurn(disk, clear, note);
    PerformedInTurn(disk, clear + note, write);
  }

  /** What a byte outside the partition is meant to be: the table where it lies, zero elsewhere. */
  function IntendedByte(table: TableRequest, i: nat): Byte
    requires Gated(table)
  {
    GateChecks(table);
    var primary := if table.style == Gpt then GptPrimary(table) else MbrImage(table);
    if i < |primary| then primary[i]
    else if table.style == Gpt && GptBackupOffset(table) <= i < GptBackupOffset(table) + |GptBackup(table)|
    then GptBackup(table)[i - GptBackupOffset(table)]
    else 0
  }

  predicate InPartition(table: TableRequest, i: nat)
  {
    table.layout.startOffset <= i < table.layout.startOffset + table.layout.length
  }

  /** The request a restore builds: the calculated layout of a disk large enough to restore. */
  predicate Calculated(table: TableRequest)
  {
    && table.layout == CalculateGptLayout(table.diskSize, table.sectorSize)
    && table.diskSize >= MINIMUM_RESTORE_TARGET_BYTES
    && Gated(table)
  }

  lemma CalculatedIsGated(table: TableRequest)
    ensures Calculated(table) ==> Gated(table)
  {
    hide Gated;
  }

  /** Zeros over both ends of a disk, up to `whole`, cover all but what lies between the two. */
  lemma BothEndsZeroed(disk: seq<Byte>, bytes: nat, tailOffset: nat, whole: nat)
    requires tailOffset + bytes == whole <= |disk|
    ensures var r := Laid(Laid(disk, 0, Zeros(bytes)), tailOffset, Zeros(bytes));
            && (forall i :: 0 <= i < whole && (i < bytes || tailOffset <= i) ==> r[i] == 0)
            && (forall i :: whole <= i < |disk| ==> r[i] == disk[i])
  {}

  /** Clearing both ends leaves zeros on every whole sector outside the partition. */
  lemma ClearedOutsidePartition(disk: seq<Byte>, table: TableRequest)
    requires Calculated(table) && |disk| == table.diskSize
    ensures var cleared := Performed(disk, ClearTasks(table.diskSize, table.sectorSize));
            && (forall i: nat :: i < table.WholeSectors() && !InPartition(table, i) ==> cleared[i] == 0)
            && (forall i: nat :: table.WholeSectors() <= i < |disk| ==> cleared[i] == disk[i])
  {
    var clear := SignatureClearRange(table.diskSize, table.sectorSize);
    GateChecks(table);
    ClearRangeInSectors(table.diskSize, table.sectorSize);
    ClearedEndsMeetPartition(table.diskSize, table.sectorSize);
    assert ClearTasks(table.diskSize, table.sectorSize)
        == [Store(0, Zeros(clear.bytes)), Store(clear.tailOffset, Zeros(clear.bytes))];
    assert clear.tailOffset + clear.bytes == table.WholeSectors();
    hide SignatureClearRange, CalculateGptLayout, Gated, Performed, ClearTasks, Laid, Zeros;
    StoresPerform(disk, Store(0, Zeros(clear.bytes)), Store(clear.tailOffset, Zeros(clear.bytes)));
    BothEndsZeroed(disk, clear.bytes, clear.tailOffset, table.WholeSectors());
  }

  /** The bytes of each table, and where they lie. */
  lemma TablesFit(table: TableRequest)
    requires Calculated(table)
    ensures table.style == Mbr ==>
              IsSupportedSectorSize(table.sectorSize) && |MbrImage(table)| <= table.layout.startOffset
    ensures table.style == Gpt ==>
              && CanHoldHeaders(table)
              && |GptPrimary(table)| <= table.layout.startOffset
              && table.layout.startOffset + table.layout.length <= GptBackupOffset(table)
              && GptBackupOffset(table) + |GptBackup(table)| == table.WholeSectors()
  {
    CalculatedLayoutIsDisjoint(table);
    GateChecks(table);
    hide Gated, CalculateGptLayout, GptBackupOffset, Geometry, EntryArray, Header, ProtectiveMbr;
  }

  lemma LaidApart(before: seq<Byte>, a: seq<Byte>, offset: nat, b: seq<Byte>, i: nat)
    requires |a| <= offset && offset + |b| <= |before| && i < |before|
    ensures Laid(Laid(before, 0, a), offset, b)[i]
         == if i < |a| then a[i] else if offset <= i < offset + |b| then b[i - offset] else before[i]
  {}

  /** The tables, laid over anything. */
  lemma TablesPerform(before: seq<Byte>, table: TableRequest)
    requires Gated(table)
    ensures CanHoldHeaders(table) || table.style != Gpt
    ensures IsSupportedSectorSize(table.sectorSize)
    ensures table.style == Gpt ==>
              Performed(before, TableTasks(table))
              == Laid(Laid(before, 0, GptPrimary(table)), GptBackupOffset(table), GptBackup(table))
    ensures table.style != Gpt ==> Performed(before, TableTasks(table)) == Laid(before, 0, MbrImage(table))
  {
    GateChecks(table);
    hide Gated, Performed, GptPrimary, GptBackup, GptBackupOffset, MbrImage, Laid;
    if table.style == Gpt {
      StoresPerform(before, Store(0, GptPrimary(table)), Store(GptBackupOffset(table), GptBackup(table)));
    } else {
      StoresPerform(before, Store(0, MbrImage(table)), Store(0, MbrImage(table)));
    }
  }

  lemma LaidOnce(before: seq<Byte>, a: seq<Byte>, i: nat)
    requires |a| <= |before| && i < |before|
    ensures Laid(before, 0, a)[i] == if i < |a| then a[i] else before[i]
  {}

  /** One byte once the tables are laid: the intended one, or what was there before where zero is intended. */
  lemma TableByte(before: seq<Byte>, after: seq<Byte>, table: TableRequest, i: nat, intended: Byte)
    requires Calculated(table) && after == Performed(before, TableTasks(table))
    requires |before| == table.diskSize && i < |before| && intended == IntendedByte(table, i)
    ensures after[i] == intended || (intended == 0 && after[i] == before[i])
    ensures table.WholeSectors() <= i ==> after[i] == before[i]
  {
    hide Gated, Performed, TableTasks, GptPrimary, GptBackup, GptBackupOffset, MbrImage, Laid, Geometry;
    hide IsSupportedSectorSize, CanHoldHeaders, GptRangesDisjoint, CalculateGptLayout;
    TablesFit(table);
    TablesPerform(before, table);
    StyleIsChosen(table);
    CalculatedLayoutIsDisjoint(table);
    if table.style == Gpt {
      LaidApart(before, GptPrimary(table), GptBackupOffset(table), GptBackup(table), i);
    } else {
      LaidOnce(before, MbrImage(table), i);
    }
  }

  /** Laying the tables over zeros gives the intended bytes; all else stays. */
  lemma TablesLaid(before: seq<Byte>, table: TableRequest)
    requires Calculated(table) && |before| == table.diskSize
    requires forall i: nat :: i < table.WholeSectors() && !InPartition(table, i) ==> before[i] == 0
    ensures var after := Performed(before, TableTasks(table));
            && (forall i: nat :: i < table.WholeSectors() && !InPartition(table, i) ==> after[i] == IntendedByte(table, i))
            && (forall i: nat :: table.WholeSectors() <= i < |before| ==> after[i] == before[i])
  {
    var after := Performed(before, TableTasks(table));
    assert Gated(table);
    hide Calculated, Gated, Performed, TableTasks, IntendedByte;
    forall i: nat | i < |before|
      ensures i < table.WholeSectors() && !InPartition(table, i) ==> after[i] == IntendedByte(table, i)
      ensures table.WholeSectors() <= i ==> after[i] == before[i]
    {
      TableByte(before, after, table, i, IntendedByte(table, i));
    }
  }

  lemma OthersOnlyInPartition(table: TableRequest, i: nat)
    requires Gated(table) && !InPartition(table, i)
    ensures !OpenToOthers(LinuxScript(table), i)
  {
    hide Gated, GptPrimary, GptBackup, GptBackupOffset, MbrImage, SignatureClearRange;
    forall k | 0 <= k < |LinuxScript(table)| && LinuxScript(table)[k].Foreign?
      ensures LinuxScript(table)[k] == Foreign(table.layout.startOffset, table.layout.startOffset + table.layout.length)
    {
    }
  }

  lemma ClearTasksFit(diskSize: U64, sectorSize: U32)
    ensures StoresFit(ClearTasks(diskSize, sectorSize), diskSize)
  {
    var clear := SignatureClearRange(diskSize, sectorSize);
    ClearRangeInSectors(diskSize, sectorSize);
    SectorsRoundDown(clear.sectorSize, diskSize);
    hide SignatureClearRange;
    assert clear.bytes > 0 ==> Zeros(clear.bytes)[0] == 0;
  }

  lemma StyleIsChosen(table: TableRequest)
    requires Gated(table)
    ensures table.style == Gpt || table.style == Mbr
    ensures table.sectorSize >= 512
  {
    GateChecks(table);
    hide Gated;
  }

  lemma TableTasksFit(table: TableRequest)
    requires Calculated(table)
    ensures StoresFit(TableTasks(table), table.diskSize)
  {
    hide Gated, CalculateGptLayout, GptBackupOffset, GptPrimary, GptBackup, MbrImage, Geometry;
    hide GptRangesDisjoint, PrimaryBytes, GptEntryArraySectors;
    TablesFit(table);
    StyleIsChosen(table);
    CalculatedLayoutIsDisjoint(table);
  }

  lemma StoresFitTogether(a: seq<Task>, b: seq<Task>, size: nat)
    requires StoresFit(a, size) && StoresFit(b, size)
    ensures StoresFit(a + b, size)
  {
    var both := a + b;
    forall k | 0 <= k < |both| && both[k].Store?
      ensures both[k].data != [] && both[k].offset + |both[k].data| <= size
    {
      if k < |a| {
        assert both[k] == a[k];
      } else {
        assert both[k] == b[k - |a|];
      }
    }
  }

  lemma OtherTasksFit(table: TableRequest)
    ensures StoresFit(PREPARATION + WARNING, table.diskSize) && StoresFit(FormatTasks(table), table.diskSize)
    ensures StoresFit([Report(WritePartitionTable)], table.diskSize)
  {}

  lemma ScriptStoresFit(table: TableRequest)
    requires Calculated(table)
    ensures StoresFit(LinuxScript(table), table.diskSize)
  {
    hide Gated, ClearTasks, TableTasks, CalculateGptLayout, StoresFit;
    ClearTasksFit(table.diskSize, table.sectorSize);
    TableTasksFit(table);
    OtherTasksFit(table);
    var clear, write := ClearTasks(table.diskSize, table.sectorSize), TableTasks(table);
    StoresFitTogether(clear, [Report(WritePartitionTable)], table.diskSize);
    StoresFitTogether(clear + [Report(WritePartitionTable)], write, table.diskSize);
    StoresFitTogether(PREPARATION + WARNING, WritingTasks(table), table.diskSize);
    StoresFitTogether(PREPARATION + WARNING + WritingTasks(table), FormatTasks(table), table.diskSize);
  }

  /** The disk a restore is meant to leave: the tables padded with zeros on every whole sector outside the
      partition, and what was there before past the last whole sector. */
  ghost predicate HoldsImage(table: TableRequest, before: seq<Byte>, disk: seq<Byte>)
  {
    && Calculated(table) && |disk| == |before| == table.diskSize
    && (forall i: nat :: i < table.WholeSectors() && !InPartition(table, i) ==> disk[i] == IntendedByte(table, i))
    && (forall i: nat :: table.WholeSectors() <= i < |disk| ==> disk[i] == before[i])
  }

  /** After a completed restore every whole-sector byte outside the partition is the table padded with zeros,
      and the bytes past the last whole sector are untouched, whatever the formatter did. */
  lemma FinalImage(table: TableRequest, disk: seq<Byte>, log: seq<Event>)
    requires Calculated(table) && |disk| == table.diskSize
    requires Completes(LinuxScript(table), log)
    ensures HoldsImage(table, disk, Replay(disk, log))
  {
    CalculatedLayoutIsDisjoint(table);
    ScriptStoresFit(table);
    ScriptPerforms(disk, table);
    ClearedOutsidePartition(disk, table);
    TablesLaid(Performed(disk, ClearTasks(table.diskSize, table.sectorSize)), table);
    assert Gated(table);
    hide Calculated, Gated, Performed, IntendedByte, LinuxScript, StoresFit, Replay, Completes;
    forall i: nat | i < |disk| && !InPartition(table, i)
      ensures Replay(disk, log)[i] == Performed(disk, LinuxScript(table))[i]
    {
      OthersOnlyInPartition(table, i);
      CompletedLeaves(LinuxScript(table), disk, log, i);
    }
  }

  // ----- reading the disk back -----

  function BytesFrom(disk: seq<Byte>, offset: nat, count: nat): seq<Byte>
  {
    if offset >= |disk| then [] else disk[offset..Min(offset + count, |disk|)]
  }

  /** The style a scan reports for a disk it can open. */
  function DetectPartitionStyle(disk: seq<Byte>, sectorSize: U32): PartitionStyle
  {
    var sector := EffectiveSectorSize(sectorSize);
    var first := BytesFrom(disk, 0, sector);
    if |first| < 512 then UnknownStyle
    // The boot signature alone would say MBR of a GPT disk too.
    else if BytesFrom(disk, sector, 8) == GPT_SIGNATURE then Gpt
    else if first[510] == 0x55 && first[511] == 0xAA then Mbr
    else UnknownStyle
  }

  /** A part of the intended disk, outside the partition. */
  ghost predicate IntendsBytes(table: TableRequest, offset: nat, bytes: seq<Byte>)
    requires Gated(table)
  {
    forall j: nat :: offset <= j < offset + |bytes| ==> !InPartition(table, j) && IntendedByte(table, j) == bytes[j - offset]
  }

  lemma IntendedGpt(table: TableRequest)
    requires Calculated(table) && table.style == Gpt
    ensures CanHoldHeaders(table)
    ensures IntendsBytes(table, 0, GptPrimary(table))
    ensures IntendsBytes(table, GptBackupOffset(table), GptBackup(table))
  {
    hide Gated, CalculateGptLayout, GptBackupOffset, GptPrimary, GptBackup, MbrImage, Geometry, CanHoldHeaders;
    TablesFit(table);
  }

  /** The boot sector, and zeros where a GPT header would be. */
  lemma IntendedMbr(table: TableRequest)
    requires Calculated(table) && table.style == Mbr
    ensures IsSupportedSectorSize(table.sectorSize)
    ensures IntendsBytes(table, 0, MbrImage(table)) && IntendsBytes(table, table.sectorSize, Zeros(8))
  {
    hide Gated, CalculateGptLayout, GptBackupOffset, GptPrimary, GptBackup, MbrImage, Geometry, CanHoldHeaders;
    TablesFit(table);
    StyleIsChosen(table);
    CalculatedLayoutBounds(table.diskSize, table.sectorSize);
  }

  lemma IntendedFound(table: TableRequest, disk: seq<Byte>, final: seq<Byte>, offset: nat, bytes: seq<Byte>)
    requires Gated(table) && |final| == table.diskSize
    requires forall i: nat :: i < table.WholeSectors() && !InPartition(table, i) ==> final[i] == IntendedByte(table, i)
    requires IntendsBytes(table, offset, bytes) && offset + |bytes| <= table.WholeSectors()
    ensures offset + |bytes| <= |final| && final[offset..offset + |bytes|] == bytes
  {
    hide Gated, IntendedByte, InPartition;
    assert forall j: nat :: offset <= j < offset + |bytes| ==> final[j] == bytes[j - offset];
  }

  /** A GPT restore leaves a disk that a GPT reader accepts and finds the requested partition on. */
  lemma FinalGptReadsBack(table: TableRequest, disk: seq<Byte>, log: seq<Event>)
    requires Calculated(table) && table.style == Gpt && |disk| == table.diskSize
    requires Completes(LinuxScript(table), log)
    ensures table.sectorSize >= 512
    ensures ReadGpt(Replay(disk, log), table.sectorSize) == Some(ExpectedDisk(table))
  {
    hide Gated, CalculateGptLayout, GptBackupOffset, GptPrimary, GptBackup, Geometry, IntendedByte, Replay, Completes;
    hide ReadGpt, CanHoldHeaders, InPartition, IsSupportedSectorSize;
    StyleIsChosen(table);
    TablesFit(table);
    CalculatedLayoutIsDisjoint(table);
    FinalImage(table, disk, log);
    IntendedGpt(table);
    hide IntendsBytes;
    var final := Replay(disk, log);
    IntendedFound(table, disk, final, 0, GptPrimary(table));
    IntendedFound(table, disk, final, GptBackupOffset(table), GptBackup(table));
    assert final[..|GptPrimary(table)|] == final[0..|GptPrimary(table)|];
    GptIsReadBack(final, table);
  }

  /** An MBR restore leaves a boot sector whose one record is the requested partition. */
  lemma FinalMbrReadsBack(table: TableRequest, disk: seq<Byte>, log: seq<Event>)
    requires Calculated(table) && table.style == Mbr && |disk| == table.diskSize
    requires Completes(LinuxScript(table), log)
    ensures |table.diskGuid| >= 4 && 512 <= table.sectorSize <= |disk|
    ensures ReadMbr(Replay(disk, log)[..table.sectorSize]) == Some(ExpectedRecord(table))
  {
    hide CalculateGptLayout, MbrImage, IntendedByte, Replay, Completes, ReadMbr, InPartition, Gated;
    StyleIsChosen(table);
    TablesFit(table);
    CalculatedLayoutIsDisjoint(table);
    FinalImage(table, disk, log);
    IntendedMbr(table);
    GatedMbrIsReadBack(table);
    IntendedFound(table, disk, Replay(disk, log), 0, MbrImage(table));
    assert Replay(disk, log)[..table.sectorSize] == Replay(disk, log)[0..table.sectorSize];
  }

  lemma GptSignatureRead(table: TableRequest)
    requires CanHoldHeaders(table)
    ensures GptPrimary(table)[table.sectorSize..table.sectorSize + 8] == GPT_SIGNATURE
  {
    hide Header, EntryArray, ProtectiveMbr, Geometry;
    HeaderStartsWithSignature(table);
    var sector := table.sectorSize;
    assert GptPrimary(table)[sector..sector + 8] == Header(table, true)[0..8];
  }

  lemma HeaderStartsWithSignature(table: TableRequest)
    requires CanHoldHeaders(table)
    ensures Header(table, true)[0..8] == GPT_SIGNATURE
  {
    hide HeaderWrites, Apply, Header, UnsignedHeader, EntryArray, Geometry, Ascending, FitIn;
    UnsignedStartsWithSignature(table, Crc32.Crc(EntryArray(table)));
    SignedHeaderFields(table, true);
  }

  lemma UnsignedStartsWithSignature(table: TableRequest, crc: U32)
    requires CanHoldHeaders(table)
    ensures UnsignedHeader(table, crc, true)[0..8] == GPT_SIGNATURE
  {
    hide HeaderWrites, Apply, Geometry, Ascending, FitIn, LittleEndian;
    HeaderWritesFit(table, crc, true);
    HeaderWritesAscend(table, crc, true);
    HeaderWritesFirst(table, crc, true);
    AscendingFields(Zeros(table.sectorSize), HeaderWrites(table, crc, true));
  }

  lemma GptIsDetected(table: TableRequest, before: seq<Byte>, disk: seq<Byte>)
    requires HoldsImage(table, before, disk) && table.style == Gpt
    ensures DetectPartitionStyle(disk, table.sectorSize) == Gpt
  {
    hide Gated, CalculateGptLayout, GptPrimary, GptBackup, GptBackupOffset, IntendedByte, InPartition, Geometry;
    hide IntendsBytes;
    var sector := table.sectorSize;
    StyleIsChosen(table);
    TablesFit(table);
    CalculatedLayoutIsDisjoint(table);
    IntendedGpt(table);
    GptSignatureRead(table);
    IntendedFound(table, before, disk, 0, GptPrimary(table));
    SliceOfSlice(disk, 0, |GptPrimary(table)|, sector, sector + 8);
  }

  lemma MbrIsDetected(table: TableRequest, before: seq<Byte>, disk: seq<Byte>)
    requires HoldsImage(table, before, disk) && table.style == Mbr
    ensures DetectPartitionStyle(disk, table.sectorSize) == Mbr
  {
    hide Gated, CalculateGptLayout, MbrImage, IntendedByte, InPartition, IntendsBytes;
    var sector := table.sectorSize;
    StyleIsChosen(table);
    TablesFit(table);
    CalculatedLayoutIsDisjoint(table);
    CalculatedLayoutBounds(table.diskSize, table.sectorSize);
    IntendedMbr(table);
    MbrEndsWithSignature(table);
    IntendedFound(table, before, disk, 0, MbrImage(table));
    assert disk[510] == MbrImage(table)[510] && disk[511] == MbrImage(table)[511];
    IntendedFound(table, before, disk, sector, Zeros(8));
    assert disk[sector] == disk[sector..sector + 8][0] == 0;
    assert BytesFrom(disk, sector, 8)[0] == 0;
  }

  /** A scan of the restored disk reports the style that was asked for. */
  lemma FinalStyleIsDetected(table: TableRequest, disk: seq<Byte>, log: seq<Event>)
    requires Calculated(table) && |disk| == table.diskSize
    requires Completes(LinuxScript(table), log)
    ensures DetectPartitionStyle(Replay(disk, log), table.sectorSize) == table.style
  {
    hide LinuxScript, Completes, Replay, HoldsImage, DetectPartitionStyle, Gated, CalculateGptLayout;
    FinalImage(table, disk, log);
    StyleIsChosen(table);
    if table.style == Gpt {
      GptIsDetected(table, disk, Replay(disk, log));
    } else {
      MbrIsDetected(table, disk, Replay(disk, log));
    }
  }

  lemma MbrEndsWithSignature(table: TableRequest)
    requires IsSupportedSectorSize(table.sectorSize)
    ensures MbrImage(table)[510] == 0x55 && MbrImage(table)[511] == 0xAA
  {
    var writes, zeros := MbrWrites(table), Zeros(table.sectorSize);
    MbrWritesFit(table);
    assert MbrImage(table) == Apply(zeros, writes);
    hide MbrWrites, Apply, MbrImage, FitIn;
    AppliedField(zeros, writes, 7);
    assert MbrImage(table)[510..512] == BOOT_SIGNATURE;
    assert MbrImage(table)[510] == MbrImage(table)[510..512][0] && MbrImage(table)[511] == MbrImage(table)[510..512][1];
  }

  // ----- what was asked for -----

  /** A partition of some whole mebibytes that starts at 1 MiB and is the longest to leave room for a backup table. */
  ghost predicate IsLongest(start: int, length: int, diskSize: nat, sectorSize: nat)
  {
    && start == 0x10_0000 && length > 0 && length % 0x10_0000 == 0
    && start + length + 0x4000 + sectorSize <= diskSize < start + length + 0x4000 + sectorSize + 0x10_0000
  }

  /** A GPT reader finds one partition, of that type and name, where a restore is to put it. */
  ghost predicate ReadsAsGpt(disk: seq<Byte>, diskSize: nat, sectorSize: nat, fileSystem: FileSystemType,
                             name: seq<U16>, diskGuid: seq<Byte>, partitionGuid: seq<Byte>)
  {
    && 512 <= sectorSize
    && var read := ReadGpt(disk, sectorSize);
    && read.Some? && read.value.diskGuid == diskGuid && |read.value.entries| == 1
    && var entry := read.value.entries[0];
    && entry.typeGuid == TypeAsked(fileSystem) && entry.uniqueGuid == partitionGuid && entry.name == NameField(name)
    && IsLongest(entry.firstLba * sectorSize, (entry.lastLba + 1 - entry.firstLba) * sectorSize, diskSize, sectorSize)
  }

  /** The boot sector holds one record, of that type, for a partition where a restore is to put it. */
  ghost predicate ReadsAsMbr(disk: seq<Byte>, diskSize: nat, sectorSize: nat, fileSystem: FileSystemType, diskGuid: seq<Byte>)
  {
    && 512 <= sectorSize <= |disk| && |diskGuid| >= 4
    && var read := ReadMbr(disk[..sectorSize]);
    && read.Some? && read.value.diskSignature == diskGuid[..4] && !read.value.bootable
    && read.value.partitionType == TypeByteAsked(fileSystem)
    && IsLongest(read.value.firstLba * sectorSize, read.value.sectorCount * sectorSize, diskSize, sectorSize)
  }

  lemma SectorsOfLayout(table: TableRequest)
    requires Calculated(table)
    ensures table.Sector() == table.sectorSize
    ensures FirstLba(table) == table.layout.startOffset / table.sectorSize
    ensures LastLba(table) + 1 - FirstLba(table) == table.layout.length / table.sectorSize
    ensures table.layout.startOffset / table.sectorSize * table.sectorSize == table.layout.startOffset
    ensures table.layout.length / table.sectorSize * table.sectorSize == table.layout.length
  {
    CalculatedLayoutIsDisjoint(table);
    GateChecks(table);
    GatedSector(table);
    LastLbaInSectors(table);
    hide Gated, CalculateGptLayout, LastLba, Geometry;
    GatedInSectors(table);
  }

  lemma LayoutIsLongest(table: TableRequest)
    requires Calculated(table)
    ensures IsLongest(table.layout.startOffset, table.layout.length, table.diskSize, table.sectorSize)
  {
    CalculatedLayoutBounds(table.diskSize, table.sectorSize);
    GateChecks(table);
    hide Gated, CalculateGptLayout, Geometry;
  }

  lemma GptReadsAs(table: TableRequest, disk: seq<Byte>)
    requires Calculated(table) && table.sectorSize >= 512 && ReadGpt(disk, table.sectorSize) == Some(ExpectedDisk(table))
    ensures ReadsAsGpt(disk, table.diskSize, table.sectorSize, table.fileSystem, table.partitionName,
                       table.diskGuid, table.partitionGuid)
  {
    hide Calculated, ReadGpt, FirstLba, LastLba, IsLongest, TypeAsked, NameField, GptEntryArraySectors;
    EntryIsLongest(table);
    var entry := ExpectedEntry(table);
    assert ExpectedDisk(table).entries == [entry] && ExpectedDisk(table).diskGuid == table.diskGuid;
    assert entry.firstLba == FirstLba(table) && entry.lastLba == LastLba(table);
  }

  lemma EntryIsLongest(table: TableRequest)
    requires Calculated(table)
    ensures IsLongest(FirstLba(table) * table.sectorSize, (LastLba(table) + 1 - FirstLba(table)) * table.sectorSize,
                      table.diskSize, table.sectorSize)
  {
    SectorsOfLayout(table);
    LayoutIsLongest(table);
    hide Calculated, FirstLba, LastLba, IsLongest;
  }

  lemma MbrReadsAs(table: TableRequest, disk: seq<Byte>)
    requires Calculated(table) && |table.diskGuid| >= 4 && 512 <= table.sectorSize <= |disk|
    requires ReadMbr(disk[..table.sectorSize]) == Some(ExpectedRecord(table))
    ensures ReadsAsMbr(disk, table.diskSize, table.sectorSize, table.fileSystem, table.diskGuid)
  {
    SectorsOfLayout(table);
    LayoutIsLongest(table);
    hide Gated, CalculateGptLayout, ReadMbr, FirstLba, LastLba, IsLongest, Geometry, TypeByteAsked, Wrap64;
  }

  /** A restore leaves what was asked for, for any reader to find. */
  lemma FinalDiskReads(table: TableRequest, disk: seq<Byte>, log: seq<Event>)
    requires Calculated(table) && |disk| == table.diskSize
    requires Completes(LinuxScript(table), log)
    ensures table.style == Gpt ==>
              ReadsAsGpt(Replay(disk, log), table.diskSize, table.sectorSize, table.fileSystem, table.partitionName,
                         table.diskGuid, table.partitionGuid)
    ensures table.style == Mbr ==>
              ReadsAsMbr(Replay(disk, log), table.diskSize, table.sectorSize, table.fileSystem, table.diskGuid)
  {
    hide Gated, CalculateGptLayout, Replay, Completes, ReadGpt, ReadMbr, LinuxScript, ReadsAsGpt, ReadsAsMbr;
    hide ExpectedDisk, ExpectedRecord;
    if table.style == Gpt {
      FinalGptReadsBack(table, disk, log);
      GptReadsAs(table, Replay(disk, log));
    } else if table.style == Mbr {
      FinalMbrReadsBack(table, disk, log);
      MbrReadsAs(table, Replay(disk, log));
    }
  }
}
