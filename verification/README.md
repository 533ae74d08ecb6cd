# A model of the USB restore

The program erases a USB disk and gives it one fresh partition. An unprivileged program asks, a root helper
(on Linux) or the program itself (on Windows) writes. The hard questions are what ends up on the disk, until when a
run may still stop, and what the asking side may conclude from what it saw. This project models those parts and
proves them for every input, every outcome of a system call and every order of steps.

## How it is built

**The restore as a script.** `RestoreScript` describes a restore as a list of tasks (report, identify the disk,
checkpoint, store, leave a range to another program, release, flush, re-read) and a run as a log of events; `Walk` is the
automaton that says which logs a script allows. Whatever a log does, `StepsFollowPlan`, `WritesComeAfterWarning`,
`IdentifiedBeforeWriting`, `FlushedBeforeOthersWrite`, `YesIsObeyed`, `WritersWereToldNo` and `CompletedLeaves` hold. `LinuxImage` and `WindowsRestore` give the scripts of the two
backends.

**The machine.** `Machine.System` is the disk, the open descriptors and the log. Its methods choose their outcome
freely: a positioned write may be short, accept nothing, be interrupted or fail after storing some bytes; another
program may write anything in the range it was given; any other call may fail. `BlockDevice`, `LoopDevice`, `RawDisk`
are the classes of the source with their fields, and their write loops are proved against that machine. The log is
ghost state which only the machine's own calls and the run extend, and `System.Valid` ties it to the disk: replaying
the log over the initial disk gives the current one. The machine also records whether any call failed or was answered
in a way no restore can go on with (`hindered`), so that a restore can be proved to succeed where nothing hindered it.

**The backends.** `LinuxRestore` and `WindowsRestore` are the two `restore` procedures, step for step. They are proved
to follow their scripts whatever happens, and the theorems about scripts then speak about every run of them. Every
failing call hands back an error text or none (`ErrorText`), and the text is carried the way the source carries it:
through the retried open, the failure variable of a Windows step, the texts that are dropped and the ones put into
longer sentences. That a failure without a text means a cancellation is therefore proved of the two procedures, not
assumed. Whoever is asked whether to stop keeps a list of its answers, and the questions in the log are exactly those:
a yes that was heard cannot be dropped, and a question cannot be left out. The contracts of `PerformLinuxRestore`,
`PerformWindowsRestore` and `HelperMain` say when a restore must fail, when it must succeed, and what any reader finds on
the disk then.

**The decisions.** What counts as a safe disk, as the same disk, as a device node, a label, a mount point or a command
line is characterised field by field and character by character (`RestoreTarget.SafeMeans`, `RestoreTarget.SameMeans`,
`RestoreArguments.AcceptedMeans`, `RestoreArguments.ClaimsMean`, `MountPaths.NormalizedMeans`), apart from the chains of
tests that decide it.

**The image.** `Layout`, `PartitionTable` and `Crc32` are the layout arithmetic, the write gate, the builders that fill
buffers in place and the table-driven checksum. Each builder is proved equal to a list of field writes. `TableReader`
and `MbrReader` are independent readers written from sections 5.2.1, 5.2.3, 5.3.2 and 5.3.3 of the UEFI
Specification 2.10; they are partners of the builders, not inverses computed from them. `CrcDivision` says what the
checksum is: a remainder of polynomials over the field of two elements, with the generator given by its powers. 64-bit arithmetic wraps
explicitly (`Wrap64`), everything else is unbounded.

**The protocol.** `RestoreProtocol` is a transition system: the user, the client, pkexec, the helper, both pipes and
the disk, with every interleaving. The helper works through the script; the client reads, asks, kills and judges. A
kill works only while pkexec is still asking for the password. One invariant (`Inv`) is kept by every step, and the
verdict theorems follow. After a restore that stopped the helper exits as the source has it: 3 if it has been asked
to stop by then and no error text is left, else 1. `HelperReporter`, `HelperProcess`, `HelperClient` and `RestoreWorker`
are the programs on the two sides, field by field. They are tied to the transition system: whatever log, disk and exit
code the helper leaves, some run of the protocol shows them (`HelperRuns.ExitIsOfRun`), and whatever part of the output
has arrived in whatever pieces, the client stands where the protocol has it stand (`HelperClient.PartIsHeardAsLines`,
`HelperClient.CutOutputIsJudged`).

**The wire.** `Sanitizer`, `ProtocolLines`, `LineStream`, `RestoreArguments` are the sanitiser, encoders and parser, line
splitter and argument printer and parser. Text is a sequence of UTF-16 code units.

**Geometry.** `Fat32` is the binary search over cluster counts, the unit chooser built on it and the independently
computed minimum. `CountMeans` says what is counted: the most clusters a volume can be laid out with.

## What turned out not to hold

Five statements one would expect are false of the code as it stands. Each is given with a concrete input and the exact
condition under which the code does meet it.

- The write gate adds start and length in 64 bits, so it accepts layouts whose end wraps
  (`Layout.GateAcceptsWrappedLayout`). Three statements hold of a gated request exactly when the end does not wrap:
  the partition keeps clear of both GPT tables (`Layout.GatedGptIsDisjoint`), a GPT reader accepts the disk
  (`TableReader.GptIsReadBack`), and the MBR record is not clamped (`MbrReader.GatedMbrIsReadBack`). The layout a restore
  computes never wraps (`Layout.CalculatedLayoutIsDisjoint`).
- A volume with a few bytes more can hold no clusters at all: the cluster count is zero for a volume that is not a whole
  number of sectors (`Fat32.UnalignedVolumeHoldsNothing`). `Fat32.CountGrowsWithVolume` and
  `Fat32.CountShrinksWithUnit` say when monotony holds and what happens otherwise.
- Sanitising twice can cut more than sanitising once when the text holds lone surrogate halves
  (`Sanitizer.LoneHalvesShrink`). It does so exactly if what the loop has collected ends in two high halves, so that the
  branch that cuts one off leaves another for the next time (`Sanitizer.SanitizedTwice`). A text with no two high halves
  next to each other, separators not counted, is safe (`Sanitizer.HighsApartIsEnough`), and any two that are next to
  each other show in the text that ends with them (`Sanitizer.HighsTogetherShow`). On well-formed text there are none
  (`Sanitizer.SanitizedIsWellFormed`).
- The protective record always ends in all ones in CHS. Section 5.2.3 asks for that only where CHS cannot name the last
  address of the disk, so the record is as asked exactly on disks past that reach (`MbrReader.ProtectiveRecordEnds`); the
  smallest disk that may be restored is not one (`MbrReader.SmallDiskEndsOtherwise`). Readers usually ignore the field,
  and so does `TableReader.ReadGpt`; `MbrReader.GptIsReadStrictly` says what a reader makes of the disk that does not.
- An unchosen partition style does not survive the command line: it arrives as GPT, and a drive instance of zero is sent
  but refused. `RestoreArguments.ArgumentsRoundTrip` states both, for all inputs.

## Model

| member | source | states |
|---|---|---|
| RestoreProtocol.EveryRunHolds | src/linux/helper_client.cpp:169-274 | in every state that any order of steps of user, client, pkexec, helper and pipes reaches, the invariant holds: the disk is what the log says, the log follows the script, the announcement is first in the pipe, the helper reads only what the client wrote, exit codes and verdicts are true |
| RestoreProtocol.StepHolds | src/helper/main.cpp:161-236 | each single step keeps that invariant |
| RestoreProtocol.CancelledMeansUntouched | src/core/restore_protocol.cpp:325-385 | a run judged cancelled has not changed a byte of the disk, and the user had asked for it |
| RestoreProtocol.SucceededMeansRestored | src/core/restore_protocol.cpp:325-385 | a run judged succeeded did the whole script; on a calculated layout all steps of the plan were reported, the disk holds the intended image and a scan finds the requested style |
| RestoreProtocol.WorkerTellsTheTruth | src/platform/restore_worker.cpp:24-50 | the worker announces a cancellation exactly for that verdict, success exactly for that one, and an announced cancellation means an unchanged disk |
| RestoreProtocol.CancelledExitWasAskedFor | src/helper/main.cpp:220-230 | the helper exits as cancelled only once it has read the token the client wrote, with the disk unchanged |
| RestoreProtocol.SilenceMeansCancelled | src/helper/main.cpp:220-230 | a restore that stopped has left no error text exactly if it stopped at a checkpoint |
| RestoreProtocol.RefusedHelperIsNotBelieved | src/linux/helper_client.cpp:169-215 | a helper of another protocol is never judged to have succeeded, and counts as cancelled only if it was killed before doing anything |
| RestoreProtocol.WarnedInEveryRun | src/platform/disk_service.h:45-54 | in no reachable state has a write come before the report that signatures are being cleared |
| RestoreProtocol.AnnouncementIsHeard | src/linux/helper_client.cpp:169-215 | hearing the announcement and then reports leaves the client with an accepted helper exactly when the two agree, and with the token written when they do not |
| RestoreProtocol.SomeRunSucceeds | src/linux/helper_client.cpp:93-277 | two sides that agree can bring every calculated restore to a verdict of success |
| HelperProcess.HelperMain | src/helper/main.cpp:132-237 | the announcement comes first; 0 only after the whole script on a disk that is safe and is the claimed one, and the disk then reads as what was asked for; 3 exactly if some question was answered with yes, with the token read and the disk unchanged; a request made beforehand is never a success and changes nothing; a command line that can be served is served unless a call fails or the caller stops it; usage errors touch nothing; log, disk and exit code are those of a run of the protocol |
| HelperProcess.RestoreFound | src/helper/main.cpp:200-236 | decided by the request to stop and the error text, the exit is 3 exactly if the restore stopped at a checkpoint, which is exactly if it was told to, 1 exactly if it gave up, 0 only if it was completed |
| HelperRuns.LogIsOfRun | src/linux/linux_restore.cpp:435-656 | every log that follows the script is the log of some run of the protocol |
| HelperRuns.ExitIsOfRun | src/helper/main.cpp:161-236 | whatever log a restore leaves and whichever exit the helper makes of it, some run of the protocol shows both, on the same disk |
| HelperReporter.HelperReporter.ReportStep | src/helper/main.cpp:74-79 | the line carries the next step number, never past the plan |
| HelperReporter.HelperReporter.CancelRequested | src/helper/main.cpp:93-124 | cancelled exactly when all that was ever read holds the token; sticky, reads at most 63 units of what has arrived, never a terminal; every answer is kept |
| HelperReporter.TokenIsNoticed | src/helper/main.cpp:93-124 | a token counts however the reads cut it, and later reads change nothing |
| HelperProcess.AnnouncementIsAccepted | src/helper/main.cpp:47-54 | this helper's own announcement, whatever application version it names, is accepted by this client |
| HelperClient.HelperClient.ConsumeLine | src/linux/helper_client.cpp:169-215 | one line moves the client's fields exactly as in the transition system, and the token is written at most once |
| HelperClient.HelperClient.Consume | src/linux/helper_client.cpp:169-215 | a list of lines, empty ones skipped, leaves the client where hearing each would |
| HelperClient.HelperClient.Receive | src/linux/helper_client.cpp:216-219 | a chunk is split, its complete lines heard, and the rest kept unless it overflows |
| HelperClient.HelperClient.React | src/linux/helper_client.cpp:221-230 | a helper that has spoken is asked once, one that has not is killed once |
| HelperClient.HelperClient.Conclude | src/linux/helper_client.cpp:233-252 | the cut last line is heard too, then everything seen is judged |
| HelperClient.ReceiveAll | src/linux/helper_client.cpp:216-219 | chunk after chunk, the client hears exactly the lines the chunks hold |
| HelperClient.PartIsHeardAsLines | src/linux/helper_client.cpp:216-231 | at any moment, whatever part of the output has arrived and however it was cut, the client has heard some of the first lines and holds the beginning of the next |
| HelperClient.CutOutputIsJudged | src/linux/helper_client.cpp:233-252 | when the helper is gone, perhaps in the middle of a line, the client judges what the protocol judges |
| HelperClient.ChunksAreHeardAsLines | src/linux/helper_client.cpp:216-238 | however the whole output is cut, the client ends where hearing its lines would leave it, with nothing left over |
| Verdict.FailuresAreExplained | src/core/restore_protocol.cpp:325-385 | a failure always carries text |
| Verdict.OnlyAcceptedHelpersAreBelieved | src/core/restore_protocol.cpp:325-385 | exactly when a run is judged succeeded, and exactly when cancelled |
| RestoreWorker.RestoreWorker.Step | src/platform/restore_worker.cpp:52-58 | progress moves on by one and never past the last step |
| RestoreScript.StepsFollowPlan | src/linux/linux_restore.cpp:455-655 | every log a script allows reports a prefix of the steps planned, all of them on completion |
| RestoreScript.WritesComeAfterWarning | src/platform/disk_service.h:45-54 | every write in an allowed log comes after the report of the first destructive step |
| RestoreScript.CancelledWroteNothing | src/platform/disk_service.h:45-54 | an allowed log that ends in a cancellation holds no write |
| RestoreScript.YesIsObeyed | src/linux/linux_restore.cpp:486-561 | a run stops for an answer exactly if some answer was yes, and that answer is the last one asked for |
| RestoreScript.WritersWereToldNo | src/platform/disk_service.h:40-42 | a log with a write in it was told no at every question of its script |
| RestoreScript.IdentifiedBeforeWriting | src/linux/linux_restore.cpp:559-564 | every write comes after the disk was identified, with no question asked in between |
| RestoreScript.FlushedBeforeOthersWrite | src/linux/linux_restore.cpp:598-613 | other programs write only after all own stores and a flush that follows them |
| RestoreScript.CompletedLeaves | src/linux/linux_restore.cpp:532-613 | after a completed log every byte no other program may write is what the stores in order put there, however they were split |
| RestorePlan.FirstDestructiveStepOf | src/core/restore_message.cpp:158-166 | the 1-based number of the first step that changes the disk, or one past the plan |
| RestorePlan.PlansTurnDestructiveAtFive | src/core/restore_message.cpp:90-156 | on both systems exactly the fifth step is the first destructive one |
| RestorePlan.InOrderMeansPrefix | src/core/restore_message.cpp:168-178 | no call is out of order exactly when the calls are a prefix of the plan |
| LinuxImage.ScriptReportsPlan | src/core/restore_message.cpp:120-135 | the Linux script reports exactly the published plan; that of a refused request reports its beginning |
| LinuxImage.ScriptTurnsDestructive | src/linux/linux_restore.cpp:559-584 | the last checkpoint stands before, and the first write after, the report that signatures are being cleared |
| LinuxImage.ScriptWarnsFirst | src/linux/linux_restore.cpp:559-596 | whatever the request, every write of an allowed log comes after that report |
| LinuxImage.CancelledScriptWroteNothing | src/linux/linux_restore.cpp:455-567 | whatever the request, a log that stopped when asked to holds no write |
| LinuxImage.ScriptWritersWereToldNo | src/linux/linux_restore.cpp:486-561 | whatever the request, a log with a write, or a completed one, was told no exactly three times |
| LinuxImage.ScriptIdentifiesFirst | src/linux/linux_restore.cpp:559-564 | whatever the request, every write comes after a look at the disk that follows the last question |
| LinuxImage.ScriptFlushesFirst | src/linux/linux_restore.cpp:598-613 | whatever the request, the formatter finds the tables stored and flushed, and nothing is stored after it |
| LinuxImage.FinalImage | src/linux/linux_restore.cpp:532-613 | after a completed restore every whole-sector byte outside the partition is the built table padded with zeros, the bytes past the last whole sector are unchanged, whatever the formatter wrote |
| LinuxImage.FinalGptReadsBack | src/linux/linux_restore.cpp:566-600 | the final disk of a GPT restore is accepted by a GPT reader, which finds the requested partition |
| LinuxImage.FinalMbrReadsBack | src/linux/linux_restore.cpp:566-600 | the boot sector of an MBR restore reads back as the requested record |
| LinuxImage.FinalStyleIsDetected | src/linux/sysfs.cpp:311-337 | a scan of the final disk reports the style that was asked for |
| LinuxImage.FinalDiskReads | src/linux/linux_restore.cpp:532-600 | a reader of the final disk finds one partition of the requested type and name and with the given identifiers, which starts at 1 MiB and is the longest of whole mebibytes to leave room for a backup table |
| LinuxRestore.PerformLinuxRestore | src/linux/linux_restore.cpp:435-656 | every descriptor is closed, a prefix of the plan was reported, no write came before the warning and a last look at the disk; success means all of the plan, three answers of no, a disk that passed every check, the intended image, and that it reads as the request; the questions in the log are exactly the answers given, and after a yes, or a request made beforehand, the restore fails with the disk unchanged; a disk that can be restored is restored unless a call fails or the caller stops it |
| LinuxRestore.AttemptRestore | src/linux/linux_restore.cpp:435-656 | the procedure follows the script of the table it would write, whatever each call answers, and fails without an error text exactly if it stopped at a checkpoint |
| LinuxRestore.EveryRunWarns | src/platform/disk_service.h:45-54 | however a run ends it has reported a prefix of the plan, all of it on success, and warned before writing |
| LinuxRestore.CancelledRunChangedNothing | src/platform/disk_service.h:45-54 | a failed run without an error text left the disk as it was |
| LinuxRestore.EveryAnswerIsObeyed | src/linux/linux_restore.cpp:486-561 | a run fails without an error text exactly if it was told to stop; one that is done or has changed the disk was told three times to go on |
| LinuxRestore.EveryRunLooksFirst | src/linux/linux_restore.cpp:559-613 | however a run ends, it identified the disk after the last question and before any write, and flushed before the formatter wrote |
| LinuxRestore.SuccessfulRunWroteImage | src/linux/linux_restore.cpp:532-613 | a successful run leaves the intended image, and a scan finds the requested style |
| LinuxRestore.SuccessfulRunIsRead | src/linux/linux_restore.cpp:532-613 | a successful run leaves a disk that reads as the file system, name and style of the request, for any table reader |
| LinuxRestore.VetDisk | src/linux/linux_restore.cpp:442-489 | passing means the selected disk and the one found again are safe and the same, and the latter has room for layout and file system; such disks pass unless a call fails |
| LinuxRestore.RestorableIsCalculated | src/linux/linux_restore.cpp:461-545 | once the checks have passed, the write gate accepts the calculated layout of every such disk |
| LinuxRestore.FormatLinuxPartition | src/linux/linux_restore.cpp:145-285 | whatever the formatter and its second dialect write stays inside the mapped range, with neither flush nor re-read meanwhile |
| LinuxRestore.FormatAndRereadPartitionTable | src/linux/linux_restore.cpp:383-433 | the mapping is always gone afterwards, and its release is attempted before any flush or re-read, on failure as on success |
| LinuxRestore.ClearSignaturesOn | src/linux/linux_restore.cpp:566-584 | both ends are zeroed, or the run stops part of the way |
| LinuxRestore.WriteTable | src/linux/linux_restore.cpp:586-596 | primary then backup, or the MBR, at the offsets the layout gives |
| LinuxRestore.OpenExclusively | src/linux/linux_restore.cpp:495-523 | unmounted and exclusively open on success; however many attempts it took, the one descriptor the device owns is the only new one; it fails only if a call did |
| WindowsRestore.PerformWindowsRestore | src/win/windows_disk_service.cpp:137-368 | every handle is closed, a prefix of the plan was reported, no write came before the warning and a last look at the disk; success means the whole plan, two answers of no and a disk that passed every check; the questions in the log are exactly the answers given, and after a yes, or a request made beforehand, the restore fails with the disk unchanged; a disk that can be restored is restored unless a call fails or the user stops it |
| WindowsRestore.AttemptRestore | src/win/windows_disk_service.cpp:137-368 | the procedure follows the Windows script, whatever each call answers, and fails without an error text exactly if it stopped at a checkpoint |
| WindowsRestore.RunWorker | src/platform/restore_worker.cpp:24-50 | what the worker announces is true: finished after the whole plan, cancelled exactly if told to and with the disk unchanged, failed always with a text; a request made beforehand never ends in success |
| WindowsRestore.ReplaceLayoutWithEmptyGpt | src/win/raw_disk.cpp:341-372 | up to twenty looks at the new layout; a failure always has a text, that of the last look or one of its own |
| WindowsRestore.WindowsScriptReportsPlan | src/core/restore_message.cpp:137-156 | the Windows script reports exactly the published plan |
| WindowsRestore.WindowsScriptTurnsDestructive | src/win/windows_disk_service.cpp:217-262 | cancellation ends, and writing begins, with the report that the partitions are being deleted |
| WindowsRestore.EveryWindowsRunWarns | src/platform/disk_service.h:45-54 | however a run ends it has reported a prefix of the plan, all of it on success, and warned before writing |
| WindowsRestore.CancelledWindowsRunChangedNothing | src/platform/disk_service.h:45-54 | a failed run without an error text left the disk as it was |
| WindowsRestore.EveryWindowsAnswerIsObeyed | src/win/windows_disk_service.cpp:217-243 | a run fails without an error text exactly if it was told to stop; one that is done or has changed the disk was told twice to go on |
| WindowsRestore.EveryWindowsRunLooksFirst | src/win/windows_disk_service.cpp:239-248 | however a run ends, the disk behind the handle was identified after the last question and before anything was changed |
| WindowsRestore.CanFormatFileSystem | src/win/windows_disk_service.cpp:98-130 | FAT32 exactly on supported sectors up to 32 GiB where some unit is legal, exFAT and NTFS always, ext4 never |
| WindowsRestore.ClearPartitionSignatures | src/win/raw_disk.cpp:300-324 | both ends are zeroed, or the run stops part of the way |
| Machine.System.Pwrite | src/linux/block_device.cpp:347-392 | what a positioned write may do: store a prefix at the offset, report less, be interrupted or fail |
| Machine.System.RunConfined | src/linux/linux_restore.cpp:145-285 | what a formatter may do: anything, any number of times, inside the mapped range |
| Stores.WroteExactly | src/linux/block_device.cpp:347-425 | between the two states of a write loop the disk differs in the stored range only, and holds the data there |
| Stores.StreamWalks | src/linux/block_device.cpp:347-392 | however a store was split into parts, the script comes as far as the bytes stored |
| BlockDevice.BlockDevice.Open | src/linux/block_device.cpp:100-128 | the old descriptor is closed, and a new one owned exactly on success |
| BlockDevice.BlockDevice.Close | src/linux/block_device.cpp:92-98 | the owned descriptor and no other is closed |
| BlockDevice.BlockDevice.WriteAt | src/linux/block_device.cpp:347-392 | all data stored on success, a prefix of it on failure, nothing else touched, against any short write or interruption; an open device fails only if a call did |
| BlockDevice.BlockDevice.WriteZeros | src/linux/block_device.cpp:394-425 | the range is zero on success, only bytes of it changed on failure, a misaligned range refused untouched |
| BlockDevice.BlockDevice.Flush | src/linux/block_device.cpp:427-446 | a closed device counts as flushed; otherwise success means it was flushed |
| BlockDevice.BlockDevice.RereadPartitionTable | src/linux/block_device.cpp:448-474 | success means the table was read again; needs an open device |
| BlockDevice.BlockDevice.VerifyIdentity | src/linux/block_device.cpp:178-279 | passing means exactly that everything seen agrees: node number, drive instance, size, sector size, write protection, bus, and the selection field by field; a disk that is there passes unless the system speaks against it |
| BlockDevice.BlockDevice.VerifyPartitionOf | src/linux/block_device.cpp:296-345 | passing means exactly that the node is the partition listed for the disk, on the instance the table was written to |
| LoopDevice.LoopDevice.Configure | src/linux/block_device.cpp:534-656 | maps exactly the range asked for, which lies on the disk in whole sectors, or leaves nothing mapped and nothing open; refuses a second mapping, and a range on the disk only if a call fails |
| LoopDevice.LoopDevice.PrepareForFormatting | src/linux/block_device.cpp:658-673 | the exclusive claim goes, the mapping stays |
| LoopDevice.LoopDevice.ReleaseClaim | src/linux/block_device.cpp:675-681 | closes the claim if there is one |
| LoopDevice.LoopDevice.Detach | src/linux/block_device.cpp:683-720 | whatever fails, nothing is mapped and every owned descriptor is closed once |
| LoopDevice.WholeLifetime | src/linux/block_device.cpp:529-720 | over any sequence of calls and outcomes, up to destruction, exactly the descriptors that were opened are closed and the disk is left alone |
| RawDisk.RawDisk.WriteFile | src/win/raw_disk.cpp:638-680 | what a write at the file position may do |
| RawDisk.RawDisk.WriteZeros | src/win/raw_disk.cpp:604-685 | the range is zero on success with the file position behind it, only bytes of it changed on failure; at most ten retries in the object's life and none after a write was accepted |
| RawDisk.RawDisk.VerifyIdentity | src/win/raw_disk.cpp:149-247 | passing means exactly that everything seen agrees: device type and number, bus, serial number, size, sector size where known, and write access |
| RawDisk.SerialsAgreeBothWays | src/win/raw_disk.cpp:51-73 | serial numbers agree exactly if one is missing or is a part of the other, letters and digits alone counted; which one is reported makes no difference |
| Crc32.Checksum | src/core/partition_table.cpp:163-182 | the table-driven loop computes the bit-by-bit shift register, for every byte string |
| CrcDivision.CrcIsRemainder | src/core/partition_table.cpp:163-182 | for every message the checksum is the one number whose bits are the complement of the remainder of a long division, over the field of two elements, by x^32 + x^26 + x^23 + x^22 + x^16 + x^12 + x^11 + x^10 + x^8 + x^7 + x^5 + x^4 + x^2 + x + 1 |
| Crc32.LookupFeedsByte | src/core/partition_table.cpp:163-182 | one table lookup advances the register by the eight bits of a byte |
| Crc32.ClocksLinear | src/core/partition_table.cpp:163-182 | the register step is linear over exclusive or |
| Crc32.ClocksInjective | src/core/partition_table.cpp:163-182 | the register step loses nothing |
| Crc32.BurstsAreDetected | src/core/partition_table.cpp:163-182 | messages that differ only within four consecutive bytes have different checksums |
| Layout.GptEntryArraySectors | src/core/safety.cpp:435-440 | the entry array in whole sectors, exactly 16 KiB for every supported size |
| Layout.CalculatedLayoutBounds | src/core/safety.cpp:442-464 | the longest layout that starts at 1 MiB, ends on a whole MiB and leaves room for the backup; none exactly below 2 MiB and the backup |
| Layout.PreflightMeans | src/core/safety.cpp:357-388 | a style can be laid out exactly on a supported sector size, from 2 MiB and a backup table on, and as an MBR only where 32-bit addresses reach the end of the partition |
| Layout.CalculatedLayoutIsDisjoint | src/core/safety.cpp:442-464 | the computed layout keeps clear of both tables and never wraps |
| Layout.ClearRangeInSectors | src/core/safety.cpp:161-173 | both cleared ends are whole sectors, as long as allowed, the second ending with the last whole sector |
| Layout.ClearedEndsMeetPartition | src/core/safety.cpp:161-173 | on a disk large enough to restore the cleared ends reach the partition from both sides |
| Layout.GateMeans | src/core/partition_table.cpp:219-269 | a request whose end does not wrap passes the gate exactly if its partition is whole sectors on the disk, clear of both tables of a GPT with whole identifiers, or within the 32-bit addresses of an MBR with a signature |
| Layout.PreflightAgreesWithGate | src/core/partition_table.cpp:219-269 | on the calculated layout the preflight and the write gate agree for every disk size, sector size and style |
| Layout.GatedGptIsDisjoint | src/core/partition_table.cpp:219-269 | a gated GPT layout keeps primary, partition and backup apart, with the backup ending on the last whole sector, exactly when its end does not wrap |
| Layout.GateAcceptsWrappedLayout | src/core/partition_table.cpp:219-269 | the gate does accept a layout that wraps |
| PartitionTable.WriteLittleEndian | src/core/partition_table.cpp:19-37 | the bytes of the number, lowest first, and nothing else in the buffer |
| PartitionTable.WriteBytes | src/core/partition_table.cpp:39-45 | at most the given number of bytes, and nothing else in the buffer |
| PartitionTable.WriteChs | src/core/partition_table.cpp:138-153 | the three packed bytes of an address |
| PartitionTable.BuildEntryArray | src/core/partition_table.cpp:85-107 | the buffer is the entry array of the request |
| PartitionTable.BuildHeader | src/core/partition_table.cpp:109-136 | the buffer is the header with its own checksum filled in last |
| PartitionTable.BuildProtectiveMbr | src/core/partition_table.cpp:271-302 | the protective boot sector of the request |
| PartitionTable.BuildGptPrimary | src/core/partition_table.cpp:271-302 | boot sector, header and entries |
| PartitionTable.BuildGptBackup | src/core/partition_table.cpp:304-317 | entries and then the header |
| PartitionTable.BuildMbr | src/core/partition_table.cpp:329-352 | the boot sector with one record |
| TableReader.HeaderIsRead | src/core/partition_table.cpp:109-136 | a reader accepts either built header, checksum included, and finds in it the addresses of the geometry |
| TableReader.EntryIsRead | src/core/partition_table.cpp:85-107 | the entry decodes to type, identifiers, first and last address and the first 36 units of the name |
| TableReader.TypesAreAsked | src/core/partition_table.cpp:184-203 | the type bytes are those of the two published identifiers, in stored order: a Linux file system for ext4, basic data for the others |
| TableReader.OneUsedEntry | src/core/partition_table.cpp:85-107 | the array holds that entry and no other |
| TableReader.TablePlaces | src/core/partition_table.cpp:319-327 | the backup offset in bytes is where its header says, and header and array end with the last whole sector |
| TableReader.GptIsReadBack | src/core/partition_table.cpp:271-327 | a disk with both images reads back as the request, checksums and cross-references included, exactly when the end does not wrap |
| MbrReader.ChsRoundTrip | src/core/partition_table.cpp:138-153 | decoding gives the address, or the last one CHS can name |
| MbrReader.ProtectiveRecordEnds | src/core/partition_table.cpp:280-290 | the protective record ends as section 5.2.3 asks exactly on disks too long for CHS |
| MbrReader.GptIsReadStrictly | src/core/partition_table.cpp:271-327 | a reader that insists on that accepts the disk exactly there, if the end does not wrap |
| MbrReader.SmallDiskEndsOtherwise | src/core/partition_table.cpp:280-290 | the smallest disk that may be restored does not get the ending asked for |
| MbrReader.MbrIsRead | src/core/partition_table.cpp:329-352 | the record reads back, with addresses past 32 bits clamped |
| MbrReader.GatedMbrIsReadBack | src/core/safety.cpp:368-373 | start and length of a gated request come back unclamped exactly when the end does not wrap |
| Fat32.DataClusterCount | src/core/safety.cpp:63-98 | the binary search terminates with the largest count that fits, on every volume of sectors of four bytes and up, and of smaller ones up to 2 to the 60 sectors |
| Fat32.CountIsLargest | src/core/safety.cpp:63-98 | a positive number of clusters fits exactly when it is at most the count |
| Fat32.CountMeans | src/core/safety.cpp:63-98 | the count is the most clusters with which a volume can be laid out: 32 sectors, two FATs of some length with four bytes for each cluster and two entries more, and the data |
| Fat32.RequiredFitsMachine | src/core/safety.cpp:63-98 | nothing the search computes on such volumes wraps 64 bits |
| Fat32.CountGrowsWithVolume | src/core/safety.cpp:63-98 | monotone in the volume size for whole sectors, zero otherwise |
| Fat32.CountShrinksWithUnit | src/core/safety.cpp:63-98 | antitone in the allocation unit where the smaller one is a positive number of whole sectors, zero for any other |
| Fat32.UnalignedVolumeHoldsNothing | src/core/safety.cpp:63-98 | one byte more than whole sectors, and nothing fits |
| Fat32.AllocationUnitSize | src/core/safety.cpp:466-526 | the largest legal unit not above the preferred one, else the smallest legal one, and 0 exactly when none is legal |
| Fat32.LegalMeans | src/core/safety.cpp:466-526 | a unit is legal exactly if it is a power of two from 512 bytes to 256 KiB, to 64 KiB on 512-byte sectors, makes whole sectors and gives 65527 to 4177917 clusters |
| Fat32.LegalUnitsAreContiguous | src/core/safety.cpp:466-526 | between two legal units every allowed one is legal |
| Fat32.LegalUnitExists | src/core/safety.cpp:466-526 | a unit is legal exactly when the smallest gives enough clusters and the largest few enough |
| Fat32.BareMinimumIsTight | src/core/safety.cpp:528-549 | the independently computed minimum is exactly where the search begins to find 65525 clusters |
| Fat32.Fat32IsOfferedExactly | src/linux/linux_restore.cpp:340-381 | FAT32 is offered exactly where the partition has 65525 clusters by the search and a 32-bit sector count |
| Fat32.OthersAreOffered | src/linux/linux_restore.cpp:340-352 | every other file system is offered on every disk |
| MountPaths.NormalizedMountPoint | src/core/safety.cpp:30-46 | the loop computes one spelling per mount point |
| MountPaths.NormalizedMeans | src/core/safety.cpp:20-46 | the spelling is nothing for blank text, the upper-case letter of a drive, and else the one text with plain slashes, and none at its end, that the path begins with |
| MountPaths.CleanIsNormal | src/core/safety.cpp:30-46 | normalising leaves a clean path as it is |
| MountPaths.IsProtectedMountPoint | src/core/safety.cpp:102-127 | the loop decides whether some guarded place is the candidate or lies below it |
| MountPaths.ProtectedMeansAbove | src/core/safety.cpp:102-127 | a clean path is protected exactly when its components begin those of a guarded place |
| MountPaths.DriveLetterGuards | src/core/safety.cpp:20-46 | a guarded letter protects exactly the drive of that letter, in either case, however the mount point goes on |
| MountPaths.DriveGuardedByItself | src/core/safety.cpp:102-127 | a drive is protected exactly by places on the same drive, whatever paths are guarded |
| MountPaths.UnescapeMountField | src/linux/sysfs.cpp:41-58 | the index loop undoes octal escapes from left to right |
| MountPaths.EscapeRoundTrip | src/linux/sysfs.cpp:133-163 | unescaping an escaped path gives the path back |
| MountPaths.EscapedIsOneField | src/linux/sysfs.cpp:133-163 | an escaped path holds none of the characters that separate fields |
| RestoreTarget.SafeDiskHasLayout | src/core/safety.cpp:204-275 | the last refusal can never happen, and a safe disk can be given a GPT |
| RestoreTarget.SafeMeans | src/core/safety.cpp:204-275 | a disk is safe exactly if it has a path, is on the USB bus, is no guarded device, neither boots nor runs the system, is mounted nowhere above a guarded place, is online and writable, holds 8 MiB and has one of four sector sizes |
| RestoreTarget.SameMeans | src/core/safety.cpp:277-332 | a disk is the selected one exactly if path and size are the same, the drive instance where one was selected, and no sector size, serial number, unique id, path or name known on both sides differs |
| RestoreTarget.ContainsProtectedMountPoint | src/core/safety.cpp:131-139 | whether any mount point of the disk is protected |
| Sanitizer.SanitizeProtocolText | src/core/restore_protocol.cpp:387-418 | the loop that stops early computes the normalised text cut at 2000 units |
| Sanitizer.SanitizedIsTidy | src/core/restore_protocol.cpp:387-418 | a prefix of the normalised text of at most 2000 units, without controls or leading, trailing or doubled spaces; all of it where it fits and ends in no high surrogate half, else at most three units short of the bound |
| Sanitizer.NormalisedKeepsWords | src/core/restore_protocol.cpp:387-418 | the normalised text is the words of the text, in order, with one space between each two |
| Sanitizer.SanitizedTwice | src/core/restore_protocol.cpp:387-418 | a second application changes nothing exactly unless what the loop collected ends in two high surrogate halves |
| Sanitizer.HighsApartIsEnough | src/core/restore_protocol.cpp:387-418 | a text with no two high halves next to each other, separators not counted, is left alone by a second application |
| Sanitizer.HighsTogetherShow | src/core/restore_protocol.cpp:387-418 | two high halves next to each other make the second application cut, in the text that ends with them |
| Sanitizer.SanitizedIsWellFormed | src/core/restore_protocol.cpp:387-418 | well-formed text stays well-formed, and a second application changes nothing |
| Sanitizer.LoneHalvesShrink | src/core/restore_protocol.cpp:387-418 | on lone halves a second application can cut more |
| ProtocolLines.EncodedIsRead | src/core/restore_protocol.cpp:420-542 | every message is parsed back as it was sent, with its text sanitised |
| ProtocolLines.ParseVersionFields | src/core/restore_protocol.cpp:467-500 | the loop over the details of a version line; a repeated or malformed one voids them all |
| ProtocolLines.AnnouncementIsJudged | src/core/restore_protocol.cpp:544-581 | an announcement is accepted exactly when version, number of steps and destructive boundary agree |
| LineStream.LineReader.TakeCompleteLines | src/linux/helper_client.cpp:62-77 | complete lines leave the buffer trimmed, a partial one stays, an oversized one is flushed |
| LineStream.ReadChunks | src/linux/helper_client.cpp:216-238 | chunk after chunk through the line reader |
| LineStream.StreamIsRead | src/linux/helper_client.cpp:62-77 | short lines come back whole however the stream is cut, and the overflow rule never applies |
| LineStream.PartIsRead | src/linux/helper_client.cpp:62-77 | any part of a stream in any chunks gives its first lines, and the beginning of the next is left over |
| LineStream.CutStreamIsRead | src/linux/helper_client.cpp:62-77 | a stream whose last line was cut short gives all whole lines, and the cut one is left over |
| LineStream.EncodedIsOneLine | src/core/restore_protocol.cpp:420-448 | no message holds a newline, and every line stays far below the 64 KiB bound |
| LineStream.MessagesArrive | src/core/restore_protocol.cpp:420-542 | any messages, encoded and cut into any chunks, arrive as those messages with sanitised text, in order, none forged, nothing left over |
| RestoreArguments.ParseDecimal | src/core/restore_protocol.cpp:42-61 | plain digits with a value up to the maximum, without overflow on the way |
| RestoreArguments.ParseRestoreArguments | src/core/restore_protocol.cpp:156-261 | the loop over flag pairs accepts exactly the command lines of the specification; the device accepted is a plain name of 1 to 64 letters, digits, underscores or hyphens directly under /dev, and the label one of 1 to 11 that may also hold spaces, with no space at an edge and no hyphen in front |
| RestoreArguments.ClaimsMean | src/core/restore_protocol.cpp:156-216 | flags are taken exactly if each is known, stands there once and has a value allowed where it stands; claimed is then exactly the value after each flag |
| RestoreArguments.AcceptedMeans | src/core/restore_protocol.cpp:218-261 | claims are accepted exactly if device and label are such names, style, file system and language are words of the lists, and both sizes are plain numbers from 1 up |
| RestoreArguments.DeviceNodeStaysInDev | src/core/restore_protocol.cpp:71-94 | the path of an accepted device has exactly two components, and the second is neither "." nor ".." |
| RestoreArguments.ArgumentsRoundTrip | src/core/restore_protocol.cpp:117-261 | parsing what was built succeeds exactly for requests that can be asked, and recovers style, file system, name, every claim and the language the preference came to |
| RestoreArguments.ResolvedMeans | src/core/language.cpp:49-65 | the language passed on is German exactly if it was chosen, or is the first known one of the system |
| RestoreArguments.ReorderedArguments | src/core/restore_protocol.cpp:156-261 | flag pairs in another order give the same result or the same refusal |
| RestoreArguments.ClaimsJudgeAlike | src/core/safety.cpp:277-332 | the parsed claims judge every current disk as the selection itself would |
| RestoreArguments.ClaimsAreNeverSafe | src/core/safety.cpp:204-275 | whatever a command line claims, the claimed disk alone never passes the safety check |

## Left out

- Wording, translations and widgets: a message is empty or not; no decision depends on more.
- WMI, COM, volumes and drive letters on Windows: each call may succeed or fail and, once the disk is being changed, may
  write anything anywhere. Windows writes the partition table itself, so there is no statement about the final image
  there; dismounting and locking volumes is taken not to change the disk.
- The kernel, polkit and the formatters: free outcomes within the limits stated in `Machine`. A failed write may have
  stored any prefix; a write refused as not ready stores nothing. Interruptions by signals may come any number of times
  but not for ever, since the loop in the source would then not end either.
- Caches, durability after a flush, and wall-clock timeouts: a timeout is one more way to fail.
- Conversion to and from UTF-8: texts, and the pieces the stream is cut into, are code units. Byte counts appear only
  where the 64 KiB bound needs them.
- Case folding, upper case and the notion of a letter: parameters (`Unicode`), so the proofs hold for any tables.
- Random identifiers and the partition name under /dev: parameters. Identifiers of a shape other than 16 bytes are
  refused by the gate.
- How serial numbers, device numbers and the drive instance come about: what the system reports is arbitrary, and is
  compared as the source compares it.
- Which mounts are unmounted, and waiting for the new partition to appear: each is one call that may fail. On Linux as on
  Windows, unmounting is taken not to change the disk, although a system may write back what it still holds of an old
  file system then, which is before the last two checkpoints.
- What an error text says: that a message built around a literal sentence is not empty is taken from the source, and so
  is that the pure checks word each refusal. Texts of the volume manager on Windows may be missing.
- The probe of the helper before a run, the names of locales, the desktop owner handed to the formatter, stall
  notices and logging: no decision about the disk depends on them.
- The death of the client: the helper outlives it, and then nobody judges.
- A formatter that keeps running after the helper died: a helper's death ends the run in the protocol.
- The helper's output is a sequence of whole lines and one line that was cut, instead of bytes in a pipe;
  `PartIsHeardAsLines` and `CutOutputIsJudged` say why that loses nothing.
- DataClusterCount: nothing is said about volumes of more than 2 to the 60 sectors of one to three bytes, where the sums
  may wrap; the source's callers only pass supported sizes.
- Configure: the number of attempts is that of the source, but which loop node is free is the kernel's answer. That a
  busy node is followed by another attempt is not promised, since a refused call already counts as a hindrance.
- OpenExclusively: for the same reason it is not promised that a refused open is tried again, only that it is tried three
  times at most.
- CancelRequested: how much of what the caller writes has arrived at each look is arbitrary; polling itself is not
  modelled.
- Errors of closing a descriptor: closing always releases it, as on Linux.
