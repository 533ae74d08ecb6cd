/** Which disks may be restored, and whether a disk is still the one that was selected. */
module RestoreTarget {
  import opened Bytes
  import opened Wrappers
  import opened Text
  import opened Layout
  import opened MountPaths

  const USB_BUS_TYPE: U32 := 7

  datatype DiskInfo = DiskInfo(
    deviceId: Text,
    displayId: Text,
    busType: U32,
    name: Text,
    uniqueId: Text,
    serialNumber: Text,
    path: Text,
    deviceSequence: Option<U64>,
    size: U64,
    sectorSize: U32,
    mountPoints: seq<Text>,
    isBoot: bool,
    isSystem: bool,
    isReadOnly: bool,
    isOffline: bool)

  datatype RestoreGuard = RestoreGuard(mountPoints: seq<Text>, deviceIds: seq<Text>)

  /** What the user asked for. */
  datatype RestoreRequest = RestoreRequest(
    disk: DiskInfo,
    guard: RestoreGuard,
    style: PartitionStyle,
    fileSystem: FileSystemType,
    volumeLabel: Text)

  // ----- comparing identifiers -----

  function Identity(value: Text, unicode: Unicode): Text
  {
    unicode.caseFold(Trimmed(value))
  }

  predicate BothKnownAndEqual(left: Text, right: Text, unicode: Unicode)
  {
    var a, b := Identity(left, unicode), Identity(right, unicode);
    a != [] && b != [] && a == b
  }

  /** Two known identifiers that contradict each other; one that is missing contradicts nothing. */
  predicate BothKnownAndDifferent(left: Text, right: Text, unicode: Unicode)
  {
    var a, b := Identity(left, unicode), Identity(right, unicode);
    a != [] && b != [] && a != b
  }

  predicate IsSameDeviceSequence(expected: Option<U64>, current: Option<U64>)
  {
    expected.Some? && current.Some? && expected.value != 0 && expected.value == current.value
  }

  datatype IdentityCheck =
    | Moved
    | SizeDiffers
    | SequenceDiffers
    | SectorSizeDiffers
    | SerialDiffers
    | UniqueIdDiffers
    | PathDiffers
    | NameDiffers
    | Same

  /** What, if anything, has changed since a disk was selected. Identifiers are compared where both are known;
      a drive instance the selection names must match. */
  function CompareTarget(selected: DiskInfo, current: DiskInfo, unicode: Unicode): IdentityCheck
  {
    if Identity(selected.deviceId, unicode) != Identity(current.deviceId, unicode) then Moved
    else if selected.size != current.size then SizeDiffers
    else if selected.deviceSequence.Some? && !IsSameDeviceSequence(selected.deviceSequence, current.deviceSequence)
    then SequenceDiffers
    else if selected.sectorSize != 0 && current.sectorSize != 0 && selected.sectorSize != current.sectorSize
    then SectorSizeDiffers
    else if BothKnownAndDifferent(selected.serialNumber, current.serialNumber, unicode) then SerialDiffers
    else if BothKnownAndDifferent(selected.uniqueId, current.uniqueId, unicode) then UniqueIdDiffers
    else if BothKnownAndDifferent(selected.path, current.path, unicode) then PathDiffers
    else if BothKnownAndDifferent(selected.name, current.name, unicode) then NameDiffers
    else Same
  }

  predicate IsSameRestoreTarget(selected: DiskInfo, current: DiskInfo, unicode: Unicode)
  {
    CompareTarget(selected, current, unicode) == Same
  }

  /** One identifier is missing, or both are the same but for case and surrounding space. */
  predicate DoNotContradict(left: Text, right: Text, unicode: Unicode)
  {
    var a, b := unicode.caseFold(Trimmed(left)), unicode.caseFold(Trimmed(right));
    a == [] || b == [] || a == b
  }

  /** A disk is the selected one exactly if it is found under the same path with the same size, on the drive instance
      selected where there is one, and no sector size or identifier known on both sides speaks against it. */
  lemma SameMeans(selected: DiskInfo, current: DiskInfo, unicode: Unicode)
    ensures IsSameRestoreTarget(selected, current, unicode) <==>
              && unicode.caseFold(Trimmed(selected.deviceId)) == unicode.caseFold(Trimmed(current.deviceId))
              && selected.size == current.size
              && (selected.deviceSequence == None
                  || (selected.deviceSequence == current.deviceSequence && selected.deviceSequence != Some(0)))
              && (selected.sectorSize == 0 || current.sectorSize == 0 || selected.sectorSize == current.sectorSize)
              && DoNotContradict(selected.serialNumber, current.serialNumber, unicode)
              && DoNotContradict(selected.uniqueId, current.uniqueId, unicode)
              && DoNotContradict(selected.path, current.path, unicode)
              && DoNotContradict(selected.name, current.name, unicode)
  {
    hide Trimmed;
  }

  // ----- the safety rules -----

  datatype SafetyRefusal =
    | NoDevicePath
    | NotUsb
    | ProtectedDevice
    | BootOrSystemDisk
    | HoldsProtectedPlace
    | Offline
    | ReadOnly
    | NoMedia
    | TooSmall
    | BadSectorSize
    | NoRoomForLayout
    | Safe

  predicate HoldsProtectedMount(disk: DiskInfo, guard: RestoreGuard, unicode: Unicode)
  {
    exists k :: 0 <= k < |disk.mountPoints| && IsProtected(disk.mountPoints[k], guard.mountPoints, unicode)
  }

  method ContainsProtectedMountPoint(disk: DiskInfo, guard: RestoreGuard, unicode: Unicode) returns (found: bool)
    ensures found == HoldsProtectedMount(disk, guard, unicode)
  {
    hide IsProtected;
    for k := 0 to |disk.mountPoints|
      invariant forall j :: 0 <= j < k ==> !IsProtected(disk.mountPoints[j], guard.mountPoints, unicode)
    {
      var protect := IsProtectedMountPoint(disk.mountPoints[k], guard.mountPoints, unicode);
      if protect {
        return true;
      }
    }
    return false;
  }

  predicate IsGuardedDevice(disk: DiskInfo, guard: RestoreGuard, unicode: Unicode)
  {
    exists k :: 0 <= k < |guard.deviceIds| && BothKnownAndEqual(disk.deviceId, guard.deviceIds[k], unicode)
  }

  method FindGuardedDevice(disk: DiskInfo, guard: RestoreGuard, unicode: Unicode) returns (found: bool)
    ensures found == IsGuardedDevice(disk, guard, unicode)
  {
    hide BothKnownAndEqual;
    for k := 0 to |guard.deviceIds|
      invariant forall j :: 0 <= j < k ==> !BothKnownAndEqual(disk.deviceId, guard.deviceIds[j], unicode)
    {
      if BothKnownAndEqual(disk.deviceId, guard.deviceIds[k], unicode) {
        return true;
      }
    }
    return false;
  }

  /** The first reason to refuse a disk, if there is one. */
  function SafetyCheck(disk: DiskInfo, guard: RestoreGuard, unicode: Unicode): SafetyRefusal
  {
    if Trimmed(disk.deviceId) == [] then NoDevicePath
    else if disk.busType != USB_BUS_TYPE then NotUsb
    else if IsGuardedDevice(disk, guard, unicode) then ProtectedDevice
    else if disk.isBoot || disk.isSystem then BootOrSystemDisk
    else if HoldsProtectedMount(disk, guard, unicode) then HoldsProtectedPlace
    else if disk.isOffline then Offline
    else if disk.isReadOnly then ReadOnly
    else if disk.size == 0 then NoMedia
    else if disk.size < MINIMUM_RESTORE_TARGET_BYTES then TooSmall
    else if !IsSupportedSectorSize(disk.sectorSize) then BadSectorSize
    else if CalculateGptLayout(disk.size, disk.sectorSize).length == 0 then NoRoomForLayout
    else Safe
  }

  predicate IsSafeRestoreTarget(disk: DiskInfo, guard: RestoreGuard, unicode: Unicode)
  {
    SafetyCheck(disk, guard, unicode) == Safe
  }

  method CheckRestoreTarget(disk: DiskInfo, guard: RestoreGuard, unicode: Unicode) returns (result: SafetyRefusal)
    ensures result == SafetyCheck(disk, guard, unicode)
  {
    hide HoldsProtectedMount, IsGuardedDevice, CalculateGptLayout, Trimmed;
    if Trimmed(disk.deviceId) == [] {
      return NoDevicePath;
    }
    if disk.busType != USB_BUS_TYPE {
      return NotUsb;
    }
    var guarded := FindGuardedDevice(disk, guard, unicode);
    if guarded {
      return ProtectedDevice;
    }
    if disk.isBoot || disk.isSystem {
      return BootOrSystemDisk;
    }
    var holdsProtected := ContainsProtectedMountPoint(disk, guard, unicode);
    if holdsProtected {
      return HoldsProtectedPlace;
    }
    if disk.isOffline {
      return Offline;
    }
    if disk.isReadOnly {
      return ReadOnly;
    }
    if disk.size == 0 {
      return NoMedia;
    }
    if disk.size < MINIMUM_RESTORE_TARGET_BYTES {
      return TooSmall;
    }
    if !IsSupportedSectorSize(disk.sectorSize) {
      return BadSectorSize;
    }
    if CalculateGptLayout(disk.size, disk.sectorSize).length == 0 {
      return NoRoomForLayout;
    }
    return Safe;
  }

  /** The last refusal never happens, and a safe disk can always be given a GPT. */
  lemma SafeDiskHasLayout(disk: DiskInfo, guard: RestoreGuard, unicode: Unicode)
    ensures SafetyCheck(disk, guard, unicode) != NoRoomForLayout
    ensures IsSafeRestoreTarget(disk, guard, unicode) ==>
              && disk.size >= MINIMUM_RESTORE_TARGET_BYTES && IsSupportedSectorSize(disk.sectorSize)
              && CanCreatePartitionLayout(Gpt, disk.size, disk.sectorSize)
  {
    hide HoldsProtectedMount, IsGuardedDevice, Trimmed;
    CalculatedLayoutBounds(disk.size, disk.sectorSize);
    hide CalculateGptLayout;
  }

  /** A disk is safe to restore exactly if it has a path, is on the USB bus, is none of the guarded devices, neither
      boots nor runs the system, is mounted nowhere above a guarded place, is online and writable, holds 8 MiB and
      has one of four sector sizes. */
  lemma SafeMeans(disk: DiskInfo, guard: RestoreGuard, unicode: Unicode)
    ensures IsSafeRestoreTarget(disk, guard, unicode) <==>
              && Trimmed(disk.deviceId) != []
              && disk.busType == 7
              && (forall id :: id in guard.deviceIds ==>
                    var own, guarded := unicode.caseFold(Trimmed(disk.deviceId)), unicode.caseFold(Trimmed(id));
                    own == [] || own != guarded)
              && !disk.isBoot && !disk.isSystem
              && (forall mount :: mount in disk.mountPoints ==> !IsProtected(mount, guard.mountPoints, unicode))
              && !disk.isOffline && !disk.isReadOnly
              && disk.size >= 8 * 1024 * 1024
              && disk.sectorSize in {512, 1024, 2048, 4096}
  {
    hide IsProtected, CalculateGptLayout, Trimmed;
    SafeDiskHasLayout(disk, guard, unicode);
    if IsGuardedDevice(disk, guard, unicode) {
      var k :| 0 <= k < |guard.deviceIds| && BothKnownAndEqual(disk.deviceId, guard.deviceIds[k], unicode);
      assert guard.deviceIds[k] in guard.deviceIds;
    }
    if HoldsProtectedMount(disk, guard, unicode) {
      var k :| 0 <= k < |disk.mountPoints| && IsProtected(disk.mountPoints[k], guard.mountPoints, unicode);
      assert disk.mountPoints[k] in disk.mountPoints;
    }
  }
}
