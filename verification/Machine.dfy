/** The machine a restore runs on: the disk behind its descriptors, the answers its
    system calls may give, and a record of everything done to the disk. */
module Machine {
  import opened Bytes
  import opened RestoreScript

  datatype WriteResult = Interrupted | WriteFailed | Accepted(count: nat)

  lemma {:induction false} FreshDescriptor(descriptors: set<nat>) returns (fd: nat)
    ensures fd !in descriptors
    ensures forall d :: d in descriptors ==> d < fd
    decreases |descriptors|
  {
    if descriptors == {} {
      fd := 0;
    } else {
      var d :| d in descriptors;
      var rest := FreshDescriptor(descriptors - {d});
      fd := Max(rest, d + 1);
      assert forall e :: e in descriptors ==> e == d || e in descriptors - {d};
    }
  }

  class System {
    const sectorSize: U32
    var disk: seq<Byte>
    var descriptors: set<nat>
    // System calls that will still be cut short by a signal: any number, but not for ever.
    var interruptions: nat
    ghost const initial: seq<Byte>
    ghost var log: seq<Event>
    // Whether any call has failed, or was answered in a way no restore can go on with.
    ghost var hindered: bool

    /** The log accounts for every change to the disk. */
    ghost predicate Valid()
      reads this
    {
      && disk == Replay(initial, log)
      && |disk| < TWO_TO_64
    }

    constructor (disk: seq<Byte>, sectorSize: U32, interruptions: nat)
      requires |disk| < TWO_TO_64
      ensures Valid() && this.disk == initial == disk && this.sectorSize == sectorSize
      ensures descriptors == {} && log == [] && !hindered
    {
      this.disk, this.initial, this.sectorSize := disk, disk, sectorSize;
      this.interruptions, this.descriptors := interruptions, {};
      log, hindered := [], false;
    }

    /** What the system said stands in the way of a restore. */
    ghost method Hinder()
      modifies this`hindered
      ensures hindered
    {
      hindered := true;
    }

    /** Something worth recording happened that leaves the disk as it is. */
    ghost method Note(event: Event)
      requires Valid() && !event.Writes()
      modifies this`log
      ensures Valid() && log == old(log) + [event]
    {
      Logged([], initial, log, event);
      log := log + [event];
    }

    /** A new descriptor, or a refusal that may say the device is busy. */
    method Open() returns (fd: int, busy: bool)
      modifies this`descriptors, this`hindered
      ensures hindered == (old(hindered) || fd < 0)
      ensures fd < 0 ==> descriptors == old(descriptors)
      ensures fd >= 0 ==> fd !in old(descriptors) && descriptors == old(descriptors) + {fd} && !busy
    {
      var refused: bool := *;
      if refused {
        fd, busy := -1, *;
        hindered := true;
      } else {
        ghost var unused := FreshDescriptor(descriptors);
        assert unused !in descriptors;
        var lowest: nat :| lowest !in descriptors;
        fd, busy := lowest, false;
        descriptors := descriptors + {lowest};
      }
    }

    method Close(fd: nat)
      requires fd in descriptors
      modifies this`descriptors
      ensures descriptors == old(descriptors) - {fd}
    {
      descriptors := descriptors - {fd};
    }

    /** Any call whose answer is not modelled. */
    method Succeeds() returns (ok: bool)
      modifies this`hindered
      ensures hindered == (old(hindered) || !ok)
    {
      ok := *;
      hindered := hindered || !ok;
    }

    /** Lays data over the disk and records who wrote it. */
    method Lay(offset: nat, data: seq<Byte>, ghost foreign: bool)
      requires Valid() && offset + |data| <= |disk|
      modifies this`disk, this`log
      ensures Valid()
      ensures disk == Splice(old(disk), offset, data)
      ensures log == old(log) + [if foreign then ForeignWrote(offset, data) else Stored(offset, data)]
    {
      ghost var event := if foreign then ForeignWrote(offset, data) else Stored(offset, data);
      Logged([], initial, log, event);
      disk := Splice(disk, offset, data);
      log := log + [event];
    }

    /** A positioned write. It may be cut short, accept nothing, or fail after some bytes have landed;
        whatever lands is a prefix of the data, at the offset asked for. */
    method Pwrite(fd: nat, offset: nat, data: seq<Byte>) returns (result: WriteResult, ghost landed: nat)
      requires Valid() && fd in descriptors && data != []
      modifies this`disk, this`log, this`interruptions, this`hindered
      ensures Valid()
      ensures hindered == (old(hindered) || result.WriteFailed? || result == Accepted(0))
      ensures landed <= |data| && disk == Laid(old(disk), offset, data[..landed])
      ensures landed > 0 ==> offset + landed <= |disk|
      ensures log == old(log) + if landed == 0 then [] else [Stored(offset, data[..landed])]
      ensures result.Interrupted? ==> landed == 0 && interruptions < old(interruptions)
      ensures result.Accepted? ==> result.count == landed
      ensures interruptions <= old(interruptions)
    {
      hide Replay;
      landed := 0;
      if interruptions > 0 {
        var interrupted: bool := *;
        if interrupted {
          interruptions := interruptions - 1;
          return Interrupted, 0;
        }
      }
      var room := if offset < |disk| then |disk| - offset else 0;
      var accepted: nat :| accepted <= |data| && accepted <= room;
      if accepted > 0 {
        Lay(offset, data[..accepted], false);
      }
      landed := accepted;
      var failed: bool := *;
      result := if failed then WriteFailed else Accepted(accepted);
      hindered := hindered || failed || accepted == 0;
    }

    /** Another program, allowed to write anywhere in a range, as often and whatever it likes. */
    method RunConfined(lo: nat, hi: nat) returns (ok: bool)
      requires Valid() && lo <= hi <= |disk|
      modifies this`disk, this`log, this`hindered
      ensures hindered == (old(hindered) || !ok)
      ensures Valid() && |disk| == |old(disk)|
      ensures forall i :: 0 <= i < |disk| && !(lo <= i < hi) ==> disk[i] == old(disk)[i]
      ensures old(log) <= log
      ensures forall k :: |old(log)| <= k < |log| ==>
                log[k].ForeignWrote? && lo <= log[k].offset && log[k].offset + |log[k].data| <= hi
    {
      var writes: nat := *;
      while writes > 0
        invariant Valid() && |disk| == |old(disk)|
        invariant forall i :: 0 <= i < |disk| && !(lo <= i < hi) ==> disk[i] == old(disk)[i]
        invariant old(log) <= log && hindered == old(hindered)
        invariant forall k :: |old(log)| <= k < |log| ==>
                    log[k].ForeignWrote? && lo <= log[k].offset && log[k].offset + |log[k].data| <= hi
      {
        var offset: nat, data: seq<Byte> := *, *;
        if lo <= offset && offset + |data| <= hi {
          Lay(offset, data, true);
        }
        writes := writes - 1;
      }
      ok := *;
      hindered := hindered || !ok;
    }
  }

  lemma StartsAtInitial(machine: System)
    requires machine.Valid() && machine.log == []
    ensures machine.disk == machine.initial
  {}
}
