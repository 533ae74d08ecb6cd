/** The loop mapping a formatter works through: a mapping descriptor, an exclusive
    claim held until formatting starts, and the path of the loop node. */
module LoopDevice {
  import opened Bytes
  import opened Wrappers
  import opened Layout
  import opened RestoreScript
  import opened Machine
  import opened ErrorText

  const ATTEMPTS: nat := 8

  class LoopDevice {
    const machine: System
    var fd: int
    var claimFd: int
    // The number of the loop node, or none.
    var path: Option<nat>
    // The mapped range, while there is a mapping.
    var offset: nat
    var length: nat

    /** The descriptors this object has to close. */
    ghost function Owned(): set<nat>
      reads this
    {
      (if fd >= 0 then {fd} else {}) + (if claimFd >= 0 then {claimFd} else {})
    }

    predicate Mapped()
      reads this
    {
      fd >= 0
    }

    /** There is a path exactly while there is a mapping, and a claim only then. */
    ghost predicate Valid()
      reads this, machine
    {
      && machine.Valid()
      && Owned() <= machine.descriptors
      && (fd >= 0 && claimFd >= 0 ==> fd != claimFd)
      && (path.Some? <==> Mapped())
      && (claimFd >= 0 ==> Mapped())
      && (Mapped() ==> offset + length <= |machine.disk| && length > 0)
    }

    constructor (machine: System)
      requires machine.Valid()
      ensures Valid() && this.machine == machine && !Mapped() && Owned() == {}
    {
      this.machine := machine;
      fd, claimFd, path := -1, -1, None;
      offset, length := 0, 0;
    }

    /** One loop node, claimed, configured and opened; whether the next attempt should ask for a new node. */
    method Attempt(number: nat, offset: U64, length: U64) returns (mapped: bool, busy: bool)
      requires machine.Valid() && fd < 0 && claimFd < 0
      requires length > 0 && offset + length <= |machine.disk|
      modifies this, machine`descriptors, machine`hindered
      ensures machine.Valid()
      ensures !mapped || old(machine.hindered) ==> machine.hindered
      ensures mapped ==> Valid() && Mapped() && this.offset == offset && this.length == length
      ensures !mapped ==> fd < 0 && claimFd < 0
      ensures machine.descriptors == old(machine.descriptors) + Owned()
      ensures Owned() !! old(machine.descriptors)
    {
      mapped := false;
      path := Some(number);
      claimFd, busy := machine.Open();
      if claimFd < 0 {
        return;
      }
      var configured := machine.Succeeds();
      if configured {
        fd, busy := machine.Open();
        if fd >= 0 {
          this.offset, this.length := offset, length;
          return true, false;
        }
        busy := false;
        // Undo the configuration, keeping the claim until it is undone.
        var cleared := machine.Succeeds();
        machine.Close(claimFd);
        claimFd := -1;
        return;
      }
      machine.Close(claimFd);
      claimFd := -1;
      busy := *;
    }

    /** Maps a range of the disk, or leaves everything as it was; a range on the disk is only refused if a call was. */
    method Configure(offset: U64, length: U64, sectorSize: U32) returns (ok: bool, error: ErrorText)
      requires Valid()
      modifies this, machine`descriptors, machine`hindered
      ensures !ok && old(Owned()) == {} && IsValidDeviceRange(|machine.disk|, offset, length, sectorSize) ==> machine.hindered
      ensures Valid() && (ok <==> error.NoText?)
      ensures old(Mapped()) ==> !ok && Owned() == old(Owned()) && fd == old(fd) && path == old(path)
      ensures ok ==> Mapped() && this.offset == offset && this.length == length
                     && IsValidDeviceRange(|machine.disk|, offset, length, sectorSize)
      ensures !ok && !old(Mapped()) ==> !Mapped() && Owned() == {}
      ensures machine.descriptors == (old(machine.descriptors) - old(Owned())) + Owned()
      ensures Owned() !! (old(machine.descriptors) - old(Owned()))
    {
      if fd >= 0 || claimFd >= 0 {
        return false, SomeText;
      }
      var sized := machine.Succeeds();
      if !sized {
        return false, SomeText;
      }
      if !IsValidDeviceRange(|machine.disk|, offset, length, sectorSize) {
        return false, SomeText;
      }
      var control, refused := machine.Open();
      if control < 0 {
        return false, SomeText;
      }
      var busy := false;
      var attempt := 0;
      while attempt < ATTEMPTS
        invariant machine.Valid() && !Mapped() && claimFd < 0 && 0 <= attempt <= ATTEMPTS
        invariant machine.descriptors == old(machine.descriptors) + {control}
        invariant attempt > 0 ==> machine.hindered
      {
        // After a busy node a new one is asked for, else the lowest free one; either answer is arbitrary.
        var answered := machine.Succeeds();
        if !answered {
          break;
        }
        var number: nat := *;
        var mapped;
        mapped, busy := Attempt(number, offset, length);
        if mapped {
          machine.Close(control);
          return true, NoText;
        }
        if !busy {
          break;
        }
        attempt := attempt + 1;
      }
      machine.Close(control);
      path := None;
      ok, error := false, SomeText;
    }

    method ReleaseClaim()
      requires Valid()
      modifies this`claimFd, machine`descriptors
      ensures Valid() && claimFd < 0
      ensures machine.descriptors == (old(machine.descriptors) - old(Owned())) + Owned()
    {
      if claimFd >= 0 {
        machine.Close(claimFd);
        claimFd := -1;
      }
    }

    /** Gives the formatter access: from here on the claim is gone but the mapping stays. */
    method PrepareForFormatting() returns (ok: bool, error: ErrorText)
      requires Valid()
      modifies this`claimFd, machine`descriptors, machine`hindered
      ensures !ok && Mapped() ==> machine.hindered
      ensures Valid() && (ok <==> error.NoText?)
      ensures ok ==> Mapped() && claimFd < 0
      ensures !ok ==> claimFd == old(claimFd) && machine.descriptors == old(machine.descriptors)
      ensures machine.descriptors == (old(machine.descriptors) - old(Owned())) + Owned()
    {
      if fd < 0 {
        return false, SomeText;
      }
      ok := machine.Succeeds();
      if !ok {
        return false, SomeText;
      }
      ReleaseClaim();
      error := NoText;
    }

    /** Whatever fails, the mapping is released and every descriptor is closed, once. */
    method Detach() returns (ok: bool, error: ErrorText)
      requires Valid()
      modifies this, machine`descriptors, machine`log, machine`hindered
      ensures !ok || old(machine.hindered) ==> machine.hindered
      ensures Valid() && !Mapped() && Owned() == {} && (ok <==> error.NoText?)
      ensures machine.descriptors == old(machine.descriptors) - old(Owned())
      ensures machine.log == if old(Mapped()) then old(machine.log) + [Released] else old(machine.log)
      ensures !old(Mapped()) ==> ok
    {
      hide Replay;
      if fd < 0 {
        ReleaseClaim();
        return true, NoText;
      }
      ok := machine.Succeeds();
      error := if ok then NoText else SomeText;
      ReleaseClaim();
      var cleared := machine.Succeeds();
      // An earlier failure keeps its text.
      if !cleared && ok {
        ok, error := false, SomeText;
      }
      machine.Note(Released);
      machine.Close(fd);
      fd := -1;
      path := None;
    }
  }

  datatype LoopCall = Configuring(offset: U64, length: U64, sectorSize: U32) | Preparing | Detaching

  /** However the object is used before it is destroyed, and whatever each call meets, every descriptor it
      opened is closed again and no other is touched; the disk is left alone. */
  method WholeLifetime(machine: System, calls: seq<LoopCall>)
    requires machine.Valid()
    modifies machine`descriptors, machine`log, machine`hindered
    ensures machine.Valid()
    ensures machine.descriptors == old(machine.descriptors)
    ensures machine.disk == old(machine.disk)
  {
    var device := new LoopDevice(machine);
    for i := 0 to |calls|
      invariant device.Valid() && device.machine == machine
      invariant machine.descriptors == old(machine.descriptors) + device.Owned()
      invariant device.Owned() !! old(machine.descriptors)
    {
      var ok, error;
      match calls[i]
      case Configuring(offset, length, sectorSize) => ok, error := device.Configure(offset, length, sectorSize);
      case Preparing => ok, error := device.PrepareForFormatting();
      case Detaching => ok, error := device.Detach();
    }
    var released, problem := device.Detach();
  }
}
