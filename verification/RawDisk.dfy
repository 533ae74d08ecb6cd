/** The Windows side of raw disk access: writes go where the file pointer stands, may
    be short, and are retried a bounded number of times while Windows is still
    removing an old volume. */
module RawDisk {
  import opened Bytes
  import opened Layout
  import opened RestoreScript
  import opened Stores
  import opened Machine
  import opened Wrappers
  import opened Text
  import opened ErrorText
  import opened RestoreTarget

  const MAX_NOT_READY_RETRIES: nat := 10

  datatype WriteOutcome = Wrote(count: nat) | NotReady | OtherError

  /** A mebibyte in whole sectors, or one sector if that is longer. */
  function BufferBytes(sectorSize: U32): (bytes: nat)
    ensures bytes > 0
  {
    var sector: nat := EffectiveSectorSize(sectorSize);
    var aligned := ONE_MIB / sector * sector;
    if aligned > 0 then aligned else sector
  }

  // ----- which disk a handle holds -----

  function NormalizedSerial(value: Text, unicode: Unicode): Text
  {
    if value == [] then []
    else
      var rest, last := NormalizedSerial(value[..|value| - 1], unicode), value[|value| - 1];
      if unicode.isLetterOrNumber(last) then rest + [unicode.upperUnit(last)] else rest
  }

  /** One serial number may be a part of the other, and letters and digits are all that counts; a missing one
      contradicts nothing. */
  predicate SerialsAgree(reported: Text, expected: Text, unicode: Unicode)
  {
    var a, b := NormalizedSerial(reported, unicode), NormalizedSerial(expected, unicode);
    a == [] || b == [] || a == b || Contains(a, b) || Contains(b, a)
  }

  /** Which of the two is the reported one makes no difference, and a serial number agrees with every text it is a
      part of, whatever else but letters and digits stands there and in whichever case. */
  lemma SerialsAgreeBothWays(a: Text, b: Text, unicode: Unicode)
    ensures SerialsAgree(a, b, unicode) == SerialsAgree(b, a, unicode)
    ensures SerialsAgree(a, b, unicode) <==>
              var x, y := NormalizedSerial(a, unicode), NormalizedSerial(b, unicode);
              || x == [] || y == []
              || (exists before, after :: x == before + y + after)
              || (exists before, after :: y == before + x + after)
  {
    ContainsMeans(NormalizedSerial(a, unicode), NormalizedSerial(b, unicode));
    ContainsMeans(NormalizedSerial(b, unicode), NormalizedSerial(a, unicode));
    hide Contains;
    var x := NormalizedSerial(a, unicode);
    assert x == [] + x + [];
  }

  lemma ContainsMeans(t: Text, part: Text)
    ensures Contains(t, part) <==> exists before, after :: t == before + part + after
  {
    if Contains(t, part) {
      var k: nat :| k <= |t| && FoundAt(t, part, k);
      assert t == t[..k] + part + t[k + |part|..];
    }
    if before, after :| t == before + part + after {
      assert FoundAt(t, part, |before|);
    }
  }

  datatype DeviceNumber = DeviceNumber(isDisk: bool, number: nat, partition: int)
  datatype Descriptor = Descriptor(busType: U32, serial: Text)

  /** What Windows says about an open handle, as far as it was asked; nothing where a call failed. */
  datatype HandleFacts = HandleFacts(
    device: Option<DeviceNumber>,
    descriptor: Option<Descriptor>,
    size: Option<nat>,
    sectorSize: Option<U32>,
    isWritable: bool)

  /** The handle holds the whole of the disk with that number: on the USB bus, with the serial number and the size
      that were selected, and writable. Only an unknown sector size is let pass. */
  predicate HandleIdentifies(expected: DiskInfo, number: nat, seen: HandleFacts, unicode: Unicode)
  {
    && seen.device.Some? && seen.device.value.isDisk && seen.device.value.number == number && seen.device.value.partition <= 0
    && seen.descriptor.Some? && seen.descriptor.value.busType == USB_BUS_TYPE
    && SerialsAgree(seen.descriptor.value.serial, expected.serialNumber, unicode)
    && seen.size.Some? && (expected.size != 0 ==> seen.size.value == expected.size)
    && (seen.sectorSize.Some? && seen.sectorSize.value != 0 && expected.sectorSize != 0 ==>
          seen.sectorSize.value == expected.sectorSize)
    && seen.isWritable
  }

  /** What has to be so for a handle on the disk of a machine to be identified as the selected one at all. */
  ghost predicate HoldsDisk(machine: System, disk: DiskInfo)
  {
    |machine.initial| == disk.size && machine.sectorSize == disk.sectorSize
  }

  class RawDisk {
    const machine: System
    const number: nat
    var handle: int
    var pointer: nat
    var writeAccepted: bool
    var notReadyRetries: nat
    // Set by a retry that came after a write had been accepted.
    ghost var retriedLate: bool
    // How often Windows has said that it was not ready.
    ghost var refusals: nat

    /** The handles this object has to close. */
    ghost function Owned(): set<nat>
      reads this
    {
      if handle >= 0 then {handle} else {}
    }

    /** However often it is used, the object never retries more than ten times, and never once a write was accepted. */
    ghost predicate Valid()
      reads this, machine
    {
      machine.Valid() && Owned() <= machine.descriptors && !retriedLate
      && notReadyRetries <= MAX_NOT_READY_RETRIES && notReadyRetries <= refusals
    }

    constructor (machine: System, number: nat)
      requires machine.Valid()
      ensures Valid() && this.machine == machine && this.number == number
      ensures Owned() == {} && notReadyRetries == refusals == 0 && !writeAccepted
    {
      this.machine, this.number := machine, number;
      handle, pointer, writeAccepted, notReadyRetries, retriedLate, refusals := -1, 0, false, 0, false, 0;
    }

    method Open() returns (ok: bool, error: ErrorText)
      requires Valid() && handle < 0
      modifies this`handle, machine`descriptors, machine`hindered
      ensures machine.hindered == (old(machine.hindered) || !ok)
      ensures Valid() && ok == (handle >= 0) && (ok <==> error.NoText?)
      ensures machine.descriptors == old(machine.descriptors) + Owned()
      ensures Owned() !! old(machine.descriptors)
    {
      var busy;
      handle, busy := machine.Open();
      ok := handle >= 0;
      error := if ok then NoText else SomeText;
    }

    /** What the destructor does. */
    method Close()
      requires Valid()
      modifies this`handle, machine`descriptors
      ensures Valid() && Owned() == {}
      ensures machine.descriptors == old(machine.descriptors) - old(Owned())
    {
      if handle >= 0 {
        machine.Close(handle);
        handle := -1;
      }
    }

    /** Passing means exactly that what was seen identifies the disk that was selected. It is recorded, and an open
        handle passes if it holds the disk unless the system speaks against it. */
    method VerifyIdentity(expected: DiskInfo, unicode: Unicode)
      returns (ok: bool, error: ErrorText, ghost seen: HandleFacts)
      requires Valid()
      modifies machine`log, machine`hindered
      ensures Valid() && machine.log == old(machine.log) + if ok then [Identified] else []
      ensures (!ok && handle >= 0 && HoldsDisk(machine, expected)) || old(machine.hindered) ==> machine.hindered
      ensures ok <==> error.NoText?
      ensures ok <==> handle >= 0 && HandleIdentifies(expected, number, seen, unicode)
      ensures ok ==> seen.size == Some(|machine.disk|) && (expected.size != 0 ==> |machine.disk| == expected.size)
    {
      hide SerialsAgree;
      ok, error := false, SomeText;
      seen := HandleFacts(None, None, None, None, false);
      if handle < 0 {
        return;
      }
      var device: Option<DeviceNumber> := *;
      seen := seen.(device := device);
      match device
      case None =>
        machine.Hinder();
        return;
      case Some(d) =>
        if !d.isDisk || d.number != number || d.partition > 0 {
          machine.Hinder();
          return;
        }
      var descriptor: Option<Descriptor> := *;
      seen := seen.(descriptor := descriptor);
      match descriptor
      case None =>
        machine.Hinder();
        return;
      case Some(d) =>
        if d.busType != USB_BUS_TYPE || !SerialsAgree(d.serial, expected.serialNumber, unicode) {
          machine.Hinder();
          return;
        }
      ok, error, seen := VerifySizes(expected, seen);
      if ok {
        machine.Note(Identified);
      }
    }

    /** The sizes and whether the disk can be written. */
    method VerifySizes(expected: DiskInfo, ghost before: HandleFacts)
      returns (ok: bool, error: ErrorText, ghost seen: HandleFacts)
      requires Valid()
      modifies machine`hindered
      ensures (!ok && HoldsDisk(machine, expected)) || old(machine.hindered) ==> machine.hindered
      ensures ok <==> error.NoText?
      ensures seen == before.(size := seen.size, sectorSize := seen.sectorSize, isWritable := seen.isWritable)
      ensures ok <==>
                && seen.size.Some? && (expected.size != 0 ==> seen.size.value == expected.size)
                && (seen.sectorSize.Some? && seen.sectorSize.value != 0 && expected.sectorSize != 0 ==>
                      seen.sectorSize.value == expected.sectorSize)
                && seen.isWritable
      ensures ok ==> seen.size == Some(|machine.disk|)
    {
      ok, error := false, SomeText;
      seen := before.(size := None, sectorSize := None, isWritable := false);
      var sized := machine.Succeeds();
      if !sized {
        return;
      }
      seen := seen.(size := Some(|machine.disk|));
      if expected.size != 0 && |machine.disk| != expected.size {
        return;
      }
      var geometry := machine.Succeeds();
      if geometry {
        seen := seen.(sectorSize := Some(machine.sectorSize));
        if machine.sectorSize != 0 && expected.sectorSize != 0 && machine.sectorSize != expected.sectorSize {
          return;
        }
      }
      ok := machine.Succeeds();
      seen := seen.(isWritable := ok);
      error := Wording(ok);
    }

    method SetFilePointer(offset: nat) returns (ok: bool)
      modifies this`pointer, machine`hindered
      ensures machine.hindered == (old(machine.hindered) || !ok)
      ensures ok ==> pointer == offset
    {
      ok := machine.Succeeds();
      if ok {
        pointer := offset;
      } else {
        pointer := *;
      }
    }

    /** A write at the file pointer. A disk that is not ready takes nothing, which is no hindrance yet but for the
        eleventh time or once it had been ready; after any failure the pointer may be anywhere. */
    method WriteFile(data: seq<Byte>) returns (outcome: WriteOutcome, ghost landed: nat)
      requires Valid() && data != []
      modifies this`pointer, this`refusals, machine`disk, machine`log, machine`hindered
      ensures Valid() && refusals == old(refusals) + if outcome.NotReady? then 1 else 0
      ensures machine.hindered <==>
                || old(machine.hindered) || outcome == Wrote(0) || outcome.OtherError?
                || (outcome.NotReady? && (writeAccepted || refusals > 10))
      ensures landed <= |data|
      ensures Stores.Wrote(old(machine.disk), old(machine.log), machine.disk, machine.log, old(pointer), data[..landed])
      ensures outcome.Wrote? ==> outcome.count == landed && pointer == old(pointer) + landed
      ensures outcome.NotReady? ==> landed == 0
    {
      hide Stores.Wrote, Replay;
      landed := 0;
      WroteNothing(machine.disk, machine.log, pointer);
      assert data[..0] == [];
      var notReady: bool := *;
      if notReady {
        pointer := *;
        refusals := refusals + 1;
        if writeAccepted || refusals > 10 {
          machine.Hinder();
        }
        return NotReady, 0;
      }
      var room := if pointer < |machine.disk| then |machine.disk| - pointer else 0;
      var accepted: nat :| accepted <= |data| && accepted <= room;
      ghost var disk, log := machine.disk, machine.log;
      if accepted > 0 {
        machine.Lay(pointer, data[..accepted], false);
        WroteOnce(disk, log, machine.disk, machine.log, pointer, data[..accepted]);
      }
      landed := accepted;
      var failed: bool := *;
      if failed || accepted == 0 {
        machine.Hinder();
      }
      if failed {
        pointer := *;
        return OtherError, landed;
      }
      pointer := pointer + accepted;
      outcome := Wrote(accepted);
    }

    /** Success means the whole range reads zero; failure changes bytes of the range only. Retries stop for good
        once a write has been accepted, and it takes eleven refusals to fail for want of readiness. */
    method WriteZeros(offset: U64, bytes: U64, sectorSize: U32) returns (ok: bool, error: ErrorText, ghost stored: nat)
      requires Valid()
      modifies this`pointer, this`writeAccepted, this`notReadyRetries, this`retriedLate, this`refusals, machine`disk
      modifies machine`log, machine`hindered
      ensures Valid() && (ok <==> error.NoText?)
      ensures (!ok && IsAlignedZeroRange(offset, bytes, sectorSize)) || old(machine.hindered) ==> machine.hindered
      ensures bytes == 0 ==> ok
      ensures bytes > 0 && !IsAlignedZeroRange(offset, bytes, sectorSize) ==> !ok && stored == 0
      ensures stored <= bytes && (ok ==> stored == bytes)
      ensures ok && bytes > 0 ==> pointer == offset + bytes
      ensures Stores.Wrote(old(machine.disk), old(machine.log), machine.disk, machine.log, offset, Zeros(stored))
      ensures old(notReadyRetries) <= notReadyRetries
      ensures old(writeAccepted) ==> writeAccepted && notReadyRetries == old(notReadyRetries)
      ensures ok && bytes > 0 ==> writeAccepted
    {
      hide Stores.Wrote, Laid, Replay, BufferBytes, IsAlignedZeroRange;
      stored := 0;
      WroteNothing(machine.disk, machine.log, offset);
      if bytes == 0 {
        return true, NoText, 0;
      }
      // Decided by whether the check has something to say, which is then put into a sentence.
      var unaligned := Wording(IsAlignedZeroRange(offset, bytes, sectorSize));
      if unaligned.SomeText? {
        return false, Around(unaligned), 0;
      }
      ok := SetFilePointer(offset);
      if !ok {
        return false, SomeText, 0;
      }
      var buffer := Zeros(BufferBytes(sectorSize));
      var remaining: nat := bytes;
      while remaining > 0
        invariant Valid() && remaining + stored == bytes && pointer == offset + stored
        invariant old(machine.hindered) ==> machine.hindered
        invariant Stores.Wrote(old(machine.disk), old(machine.log), machine.disk, machine.log, offset, Zeros(stored))
        invariant old(notReadyRetries) <= notReadyRetries
        invariant old(writeAccepted) ==> writeAccepted && notReadyRetries == old(notReadyRetries)
        invariant stored > 0 ==> writeAccepted
        decreases remaining, MAX_NOT_READY_RETRIES - notReadyRetries
      {
        ghost var disk, log := machine.disk, machine.log;
        var toWrite := Min(remaining, |buffer|);
        var outcome;
        ghost var landed;
        outcome, landed := WriteFile(buffer[..toWrite]);
        assert buffer[..toWrite][..landed] == Zeros(landed);
        WroteJoin(old(machine.disk), old(machine.log), disk, log, machine.disk, machine.log,
                  offset, Zeros(stored), Zeros(landed));
        assert Zeros(stored) + Zeros(landed) == Zeros(stored + landed);
        stored := stored + landed;
        if !outcome.Wrote? {
          if outcome.NotReady? && !writeAccepted && notReadyRetries < MAX_NOT_READY_RETRIES {
            retriedLate := retriedLate || writeAccepted;
            notReadyRetries := notReadyRetries + 1;
            ok := SetFilePointer(offset + (bytes - remaining));
            if !ok {
              return false, SomeText, stored;
            }
            continue;
          }
          return false, SomeText, stored;
        }
        if outcome.count == 0 {
          return false, SomeText, stored;
        }
        writeAccepted := true;
        remaining := remaining - outcome.count;
      }
      ok, error := true, NoText;
    }
  }
}
