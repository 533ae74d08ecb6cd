/** The Linux side of raw disk access: one descriptor, and writes that are carried
    through short counts and interruptions or reported as failed. */
module BlockDevice {
  import opened Bytes
  import opened Wrappers
  import opened Layout
  import opened RestoreScript
  import opened Stores
  import opened Machine
  import opened ErrorText
  import opened Text
  import opened RestoreTarget

  const WRITE_CHUNK_BYTES: int := 4 * ONE_MIB

  /** What the kernel and /sys say about an open node, as far as they were asked. */
  datatype Observation = Observation(
    // The number of the node, if it is a disk device, and the number /sys lists for the whole disk.
    number: Option<nat>,
    listed: Option<nat>,
    sequence: Option<U64>,
    size: nat,
    sectorSize: U32,
    isWriteProtected: bool,
    isUsb: bool,
    current: DiskInfo)

  /** The open node is the whole disk that was selected: the same instance of the same drive, unchanged, writable
      and on the USB bus. */
  predicate Identifies(expected: DiskInfo, seen: Observation, unicode: Unicode)
  {
    && seen.number.Some? && seen.number == seen.listed
    && IsSameDeviceSequence(expected.deviceSequence, seen.sequence)
    && seen.size != 0 && (expected.size != 0 ==> seen.size == expected.size)
    && seen.sectorSize != 0 && seen.sectorSize == expected.sectorSize
    && !seen.isWriteProtected && seen.isUsb
    && IsSameRestoreTarget(expected, seen.current, unicode)
  }

  /** What has to be so for the disk of a machine to be identified as the selected one at all. */
  ghost predicate IsThere(machine: System, disk: DiskInfo)
  {
    && |machine.initial| == disk.size != 0 && machine.sectorSize == disk.sectorSize != 0
    && disk.deviceSequence.Some? && disk.deviceSequence.value != 0
  }

  class BlockDevice {
    const machine: System
    var fd: int

    /** The descriptors this object has to close. */
    ghost function Owned(): set<nat>
      reads this
    {
      if fd >= 0 then {fd} else {}
    }

    ghost predicate Valid()
      reads this, machine
    {
      machine.Valid() && Owned() <= machine.descriptors
    }

    constructor (machine: System)
      requires machine.Valid()
      ensures Valid() && this.machine == machine && Owned() == {}
    {
      this.machine := machine;
      fd := -1;
    }

    method Close()
      requires Valid()
      modifies this`fd, machine`descriptors
      ensures Valid() && Owned() == {}
      ensures machine.descriptors == old(machine.descriptors) - old(Owned())
    {
      if fd >= 0 {
        machine.Close(fd);
        fd := -1;
      }
    }

    method Open() returns (ok: bool, error: ErrorText)
      requires Valid()
      modifies this`fd, machine`descriptors, machine`hindered
      ensures machine.hindered == (old(machine.hindered) || !ok)
      ensures Valid() && ok == (fd >= 0) && (ok <==> error.NoText?)
      ensures machine.descriptors == (old(machine.descriptors) - old(Owned())) + Owned()
      ensures Owned() !! (old(machine.descriptors) - old(Owned()))
    {
      Close();
      var busy;
      fd, busy := machine.Open();
      ok := fd >= 0;
      error := if ok then NoText else SomeText;
    }

    /** Success means all the data was stored, failure that some prefix of it was; an open device fails only if
        a call did. */
    method WriteAt(offset: nat, data: seq<Byte>) returns (ok: bool, error: ErrorText, ghost stored: nat)
      requires Valid()
      modifies machine`disk, machine`log, machine`interruptions, machine`hindered
      ensures Valid() && (ok <==> error.NoText?)
      ensures (!ok && fd >= 0) || old(machine.hindered) ==> machine.hindered
      ensures stored <= |data| && (ok ==> fd >= 0 && stored == |data|)
      ensures Wrote(old(machine.disk), old(machine.log), machine.disk, machine.log, offset, data[..stored])
    {
      hide Wrote, Laid;
      stored := 0;
      WroteNothing(machine.disk, machine.log, offset);
      if fd < 0 {
        return false, SomeText, 0;
      }
      var written: nat := 0;
      while written < |data|
        invariant Valid() && written == stored <= |data| && (old(machine.hindered) ==> machine.hindered)
        invariant Wrote(old(machine.disk), old(machine.log), machine.disk, machine.log, offset, data[..stored])
        decreases |data| - written, machine.interruptions
      {
        ghost var disk, log := machine.disk, machine.log;
        var result;
        ghost var landed;
        result, landed := machine.Pwrite(fd, offset + written, data[written..]);
        WroteMore(old(machine.disk), old(machine.log), disk, log, machine.disk, machine.log, offset, data, written, landed);
        stored := stored + landed;
        if result.Interrupted? {
          continue;
        }
        if result.WriteFailed? || result.count == 0 {
          return false, SomeText, stored;
        }
        written := written + result.count;
      }
      ok, error := true, NoText;
    }

    /** Success means the whole range reads zero; failure changes bytes of the range only. */
    method WriteZeros(offset: U64, bytes: U64, sectorSize: U32) returns (ok: bool, error: ErrorText, ghost stored: nat)
      requires Valid()
      modifies machine`disk, machine`log, machine`interruptions, machine`hindered
      ensures Valid() && (ok <==> error.NoText?)
      ensures (!ok && fd >= 0 && IsAlignedZeroRange(offset, bytes, sectorSize)) || old(machine.hindered) ==> machine.hindered
      ensures bytes == 0 ==> ok
      ensures bytes > 0 && !IsAlignedZeroRange(offset, bytes, sectorSize) ==> !ok && stored == 0
      ensures stored <= bytes && (ok ==> stored == bytes)
      ensures Wrote(old(machine.disk), old(machine.log), machine.disk, machine.log, offset, Zeros(stored))
    {
      hide Wrote, Laid;
      stored := 0;
      WroteNothing(machine.disk, machine.log, offset);
      if bytes == 0 {
        return true, NoText, 0;
      }
      // Decided by whether the check has something to say.
      error := Wording(IsAlignedZeroRange(offset, bytes, sectorSize));
      if error.SomeText? {
        return false, error, 0;
      }
      var sector: nat := SectorOr512(sectorSize);
      hide SectorOr512, IsAlignedZeroRange;
      var chunk := Min(WRITE_CHUNK_BYTES, bytes) / sector * sector;
      var zeros := Zeros(if chunk > 0 then chunk else sector);
      var remaining: nat, cursor: nat := bytes, offset;
      while remaining > 0
        invariant Valid() && remaining + stored == bytes && cursor == offset + stored
        invariant old(machine.hindered) ==> machine.hindered
        invariant Wrote(old(machine.disk), old(machine.log), machine.disk, machine.log, offset, Zeros(stored))
      {
        ghost var disk, log := machine.disk, machine.log;
        var count := Min(remaining, |zeros|);
        var part := if count == |zeros| then zeros else zeros[..count];
        ghost var more;
        ok, error, more := WriteAt(cursor, part);
        assert part[..more] == Zeros(more);
        WroteJoin(old(machine.disk), old(machine.log), disk, log, machine.disk, machine.log,
                  offset, Zeros(stored), Zeros(more));
        assert Zeros(stored) + Zeros(more) == Zeros(stored + more);
        stored := stored + more;
        if !ok {
          return;
        }
        cursor := cursor + count;
        remaining := remaining - count;
      }
      ok, error := true, NoText;
    }

    /** Nothing to flush on a closed device counts as flushed. */
    method Flush() returns (ok: bool, error: ErrorText)
      requires Valid()
      modifies machine`log, machine`hindered
      ensures machine.hindered == (old(machine.hindered) || !ok)
      ensures Valid() && (ok <==> error.NoText?)
      ensures fd < 0 ==> ok && machine.log == old(machine.log)
      ensures fd >= 0 && ok ==> machine.log == old(machine.log) + [Flushed]
      ensures !ok ==> machine.log == old(machine.log)
    {
      if fd < 0 {
        return true, NoText;
      }
      ok := machine.Succeeds();
      if !ok {
        return false, SomeText;
      }
      machine.Note(Flushed);
      error := NoText;
    }

    method RereadPartitionTable() returns (ok: bool, error: ErrorText)
      requires Valid()
      modifies machine`log, machine`hindered
      ensures machine.hindered == (old(machine.hindered) || (!ok && fd >= 0))
      ensures Valid() && (ok ==> fd >= 0) && (ok <==> error.NoText?)
      ensures machine.log == if ok then old(machine.log) + [RereadDone] else old(machine.log)
    {
      if fd < 0 {
        return false, SomeText;
      }
      ok := machine.Succeeds();
      if !ok {
        return false, SomeText;
      }
      machine.Note(RereadDone);
      error := NoText;
    }

    method SizeInBytes() returns (size: nat)
      requires Valid()
      modifies machine`hindered
      ensures (size == 0 && fd >= 0 && |machine.disk| > 0) || old(machine.hindered) ==> machine.hindered
      ensures size == 0 || (fd >= 0 && size == |machine.disk|)
    {
      if fd < 0 {
        return 0;
      }
      var answered := machine.Succeeds();
      size := if answered then |machine.disk| else 0;
    }

    method LogicalSectorSize() returns (size: U32)
      requires Valid()
      modifies machine`hindered
      ensures (size == 0 && fd >= 0 && machine.sectorSize > 0) || old(machine.hindered) ==> machine.hindered
      ensures size == 0 || (fd >= 0 && size == machine.sectorSize)
    {
      if fd < 0 {
        return 0;
      }
      var answered := machine.Succeeds();
      size := if answered then machine.sectorSize else 0;
    }

    /** The number of the open node, if it is a disk device. */
    method BlockDeviceNumber() returns (number: Option<nat>, error: ErrorText)
      modifies machine`hindered
      ensures number.Some? <==> error.NoText?
      ensures machine.hindered == (old(machine.hindered) || number.None?)
    {
      number := *;
      match number
      case None =>
        error := SomeText;
        machine.Hinder();
      case Some(_) => error := NoText;
    }

    /** Passing means exactly that what was seen identifies the disk that was selected. It is recorded, and an open
        device passes if the disk is there unless the system speaks against it. */
    method VerifyIdentity(expected: DiskInfo, unicode: Unicode)
      returns (ok: bool, error: ErrorText, ghost seen: Observation)
      requires Valid()
      modifies machine`log, machine`hindered
      ensures Valid() && machine.log == old(machine.log) + if ok then [Identified] else []
      ensures (!ok && fd >= 0 && IsThere(machine, expected)) || old(machine.hindered) ==> machine.hindered
      ensures ok <==> error.NoText?
      ensures ok <==> fd >= 0 && Identifies(expected, seen, unicode)
      ensures ok ==> seen.size == |machine.disk| && seen.sectorSize == machine.sectorSize == expected.sectorSize
      ensures ok ==> expected.deviceSequence.Some? && (expected.size != 0 ==> |machine.disk| == expected.size)
    {
      hide IsSameRestoreTarget;
      ok, error := false, SomeText;
      seen := Observation(None, None, None, 0, 0, true, false, expected);
      if fd < 0 {
        return;
      }
      var number;
      number, error := BlockDeviceNumber();
      seen := seen.(number := number);
      if number.None? {
        return;
      }
      error := SomeText;
      var sequence := DiskSequence();
      seen := seen.(sequence := sequence);
      if expected.deviceSequence.None? || sequence.None? {
        return;
      }
      if !IsSameDeviceSequence(expected.deviceSequence, sequence) {
        machine.Hinder();
        return;
      }
      var listed: Option<nat> := *;
      seen := seen.(listed := listed);
      if listed.None? || number != listed {
        machine.Hinder();
        return;
      }
      var reportedSize := SizeInBytes();
      seen := seen.(size := reportedSize);
      if reportedSize == 0 || (expected.size != 0 && reportedSize != expected.size) {
        return;
      }
      var reportedSector := LogicalSectorSize();
      seen := seen.(sectorSize := reportedSector);
      if reportedSector == 0 || reportedSector != expected.sectorSize {
        return;
      }
      ok, error, seen := VerifyListing(expected, seen, unicode);
      if ok {
        machine.Note(Identified);
      }
    }

    /** What /sys says about the disk now, compared with the selection field by field. */
    method VerifyListing(expected: DiskInfo, ghost before: Observation, unicode: Unicode)
      returns (ok: bool, error: ErrorText, ghost seen: Observation)
      modifies machine`hindered
      ensures machine.hindered == (old(machine.hindered) || !ok)
      ensures ok <==> error.NoText?
      ensures seen == before.(isWriteProtected := seen.isWriteProtected, isUsb := seen.isUsb, current := seen.current)
      ensures ok <==> !seen.isWriteProtected && seen.isUsb && IsSameRestoreTarget(expected, seen.current, unicode)
    {
      hide IsSameRestoreTarget;
      ok, error := false, SomeText;
      var isWriteProtected: bool := *;
      seen := before.(isWriteProtected := isWriteProtected, isUsb := false);
      if isWriteProtected {
        machine.Hinder();
        return;
      }
      var isUsb: bool := *;
      seen := seen.(isUsb := isUsb);
      if !isUsb {
        machine.Hinder();
        return;
      }
      var current: DiskInfo := *;
      seen := seen.(current := current);
      ok := IsSameRestoreTarget(expected, current, unicode);
      error := Wording(ok);
      if !ok {
        machine.Hinder();
      }
    }

    method DiskSequence() returns (sequence: Option<U64>)
      requires Valid()
      modifies machine`hindered
      ensures (sequence.None? && fd >= 0) || old(machine.hindered) ==> machine.hindered
      ensures sequence.Some? ==> fd >= 0 && sequence.value != 0
    {
      if fd < 0 {
        return None;
      }
      var value: U64 := *;
      sequence := if value == 0 then None else Some(value);
      if value == 0 {
        machine.Hinder();
      }
    }

    /** Passing means exactly that the node is the partition /sys lists for the disk, on the instance the table was
        written to if that is known. */
    method VerifyPartitionOf(expectedSequence: Option<U64>)
      returns (ok: bool, error: ErrorText, ghost number: Option<nat>, ghost listed: Option<nat>, ghost sequence: Option<U64>)
      requires Valid()
      modifies machine`hindered
      ensures (!ok && fd >= 0) || old(machine.hindered) ==> machine.hindered
      ensures ok <==> error.NoText?
      ensures ok <==> fd >= 0 && number.Some? && number == listed && (expectedSequence.Some? ==> sequence == expectedSequence)
    {
      ok, error, number, listed, sequence := false, SomeText, None, None, None;
      if fd < 0 {
        return;
      }
      var actual;
      actual, error := BlockDeviceNumber();
      number := actual;
      if actual.None? {
        return;
      }
      error := SomeText;
      var expected: Option<nat> := *;
      listed := expected;
      if expected.None? || actual != expected {
        machine.Hinder();
        return;
      }
      if expectedSequence.Some? {
        var reported := DiskSequence();
        sequence := reported;
        if reported != expectedSequence {
          machine.Hinder();
          return;
        }
      }
      ok, error := true, NoText;
    }
  }
}
