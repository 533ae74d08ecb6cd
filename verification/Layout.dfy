/** Where a restore puts things: sector sizes, the one-partition layout, the write
    gate and the ranges cleared beforehand. All quantities are byte or sector
    counts; 64-bit wrap-around is written out where the source can reach it. */
module Layout {
  import opened Bytes

  const ONE_MIB: int := 1024 * 1024
  const SIGNATURE_CLEAR_BYTES: int := 4 * ONE_MIB
  const MINIMUM_RESTORE_TARGET_BYTES: int := 8 * ONE_MIB
  const GPT_ENTRY_COUNT: int := 128
  const GPT_ENTRY_SIZE: int := 128

  datatype PartitionStyle = UnknownStyle | Mbr | Gpt
  datatype FileSystemType = ExFat | Fat32 | Ntfs | Ext4

  predicate IsSupportedSectorSize(sectorSize: U32)
  {
    sectorSize == 512 || sectorSize == 1024 || sectorSize == 2048 || sectorSize == 4096
  }

  function EffectiveSectorSize(sectorSize: U32): (sector: U32)
    ensures sector > 0
  {
    if sectorSize == 0 then 512 else sectorSize
  }

  /** The size the arithmetic uses: unsupported sizes count as 512. */
  function SectorOr512(sectorSize: U32): (sector: U32)
    ensures IsSupportedSectorSize(sector)
  {
    if IsSupportedSectorSize(sectorSize) then sectorSize else 512
  }

  /** Whole sectors added to or taken from a byte count come off its sector count. */
  lemma SectorsShift(sector: U32, bytes: nat, k: int)
    requires IsSupportedSectorSize(sector)
    ensures (bytes + k * sector) / sector == bytes / sector + k
    ensures (bytes + k * sector) % sector == bytes % sector
  {}

  lemma SectorsRoundDown(sector: U32, bytes: nat)
    requires IsSupportedSectorSize(sector)
    ensures bytes / sector * sector <= bytes < bytes / sector * sector + sector
    ensures 0 <= bytes / sector <= bytes
    ensures (bytes / sector * sector) % sector == 0
    ensures bytes % sector == 0 ==> bytes / sector * sector == bytes
  {}

  lemma SectorsMonotone(sector: U32, a: nat, b: nat)
    requires IsSupportedSectorSize(sector) && a <= b
    ensures a / sector <= b / sector
  {}

  lemma SectorsAdd(sector: U32, a: nat, b: nat)
    requires IsSupportedSectorSize(sector) && a % sector == 0
    ensures (a + b) / sector == a / sector + b / sector
    ensures (a + b) % sector == b % sector
  {
    SectorsRoundDown(sector, a);
    SectorsShift(sector, b, a / sector);
  }

  /** Sector counts compare as the byte counts they stand for. */
  lemma ScaleBySector(sector: U32, a: int, b: int)
    requires IsSupportedSectorSize(sector)
    ensures a <= b <==> a * sector <= b * sector
  {}

  /** A MiB is a whole number of sectors of every supported size. */
  lemma MibInSectors(sector: U32, mib: nat)
    requires IsSupportedSectorSize(sector)
    ensures (mib * ONE_MIB) % sector == 0
    ensures mib * ONE_MIB / sector == mib * (ONE_MIB / sector)
  {
    var k := mib * (ONE_MIB / sector);
    assert k * sector == mib * ONE_MIB by {
      if sector == 512 {
        assert ONE_MIB / sector == 2048;
      } else if sector == 1024 {
        assert ONE_MIB / sector == 1024;
      } else if sector == 2048 {
        assert ONE_MIB / sector == 512;
      } else {
        assert ONE_MIB / sector == 256;
      }
    }
    SectorsShift(sector, 0, k);
  }

  function GptEntryArraySectors(sectorSize: U32): (count: U32)
    ensures count in {32, 16, 8, 4}
    ensures count * SectorOr512(sectorSize) == GPT_ENTRY_COUNT * GPT_ENTRY_SIZE
  {
    (GPT_ENTRY_COUNT * GPT_ENTRY_SIZE + SectorOr512(sectorSize) - 1) / SectorOr512(sectorSize)
  }

  /** Everything from the last sector on that the backup table needs. */
  function BackupBytes(sectorSize: U32): (bytes: nat)
    ensures bytes == GPT_ENTRY_COUNT * GPT_ENTRY_SIZE + SectorOr512(sectorSize)
  {
    (GptEntryArraySectors(sectorSize) + 1) * SectorOr512(sectorSize)
  }

  datatype GptLayout = GptLayout(startOffset: U64, length: U64)

  const NO_LAYOUT := GptLayout(0, 0)

  /** One partition from 1 MiB on, ending on a whole MiB before the backup table. */
  function CalculateGptLayout(diskSize: U64, sectorSize: U32): GptLayout
  {
    var sector := SectorOr512(sectorSize);
    var start := (ONE_MIB + sector - 1) / sector * sector;
    var backup := BackupBytes(sectorSize);
    if diskSize <= start + backup + sector then NO_LAYOUT
    else
      var alignment := Max(ONE_MIB, sector);
      var length := (diskSize - start - backup) / alignment * alignment;
      if length == 0 then NO_LAYOUT else GptLayout(start, length)
  }

  /** The layout is the longest that starts at 1 MiB, ends on a whole MiB and leaves room for the backup. */
  lemma CalculatedLayoutBounds(diskSize: U64, sectorSize: U32)
    ensures var layout, backup := CalculateGptLayout(diskSize, sectorSize), BackupBytes(sectorSize);
            && (layout == NO_LAYOUT <==> diskSize < 2 * ONE_MIB + backup)
            && (layout != NO_LAYOUT ==>
                  && layout.startOffset == ONE_MIB
                  && layout.length > 0 && layout.length % ONE_MIB == 0
                  && layout.startOffset + layout.length + backup <= diskSize
                  && diskSize < layout.startOffset + layout.length + backup + ONE_MIB)
  {
    var sector := SectorOr512(sectorSize);
    assert (ONE_MIB + sector - 1) / sector * sector == ONE_MIB by {
      MibInSectors(sector, 1);
      if sector == 512 {
      } else if sector == 1024 {
      } else if sector == 2048 {
      } else {
      }
    }
    assert Max(ONE_MIB, sector) == ONE_MIB;
    hide BackupBytes;
  }

  // ----- clearing old signatures -----

  datatype ClearRange = ClearRange(bytes: U64, tailOffset: U64, sectorSize: U32)

  function SignatureClearRange(diskSize: U64, sectorSize: U32): ClearRange
  {
    var sector := SectorOr512(sectorSize);
    var bytes := Min(diskSize / 4, SIGNATURE_CLEAR_BYTES) / sector * sector;
    ClearRange(bytes, if bytes > 0 then (diskSize - bytes) / sector * sector else 0, sector)
  }

  /** Both cleared ends are whole sectors; the second ends where the whole sectors of the disk end. */
  lemma ClearRangeInSectors(diskSize: U64, sectorSize: U32)
    ensures var range := SignatureClearRange(diskSize, sectorSize);
            && IsSupportedSectorSize(range.sectorSize)
            && range.bytes % range.sectorSize == 0 && range.tailOffset % range.sectorSize == 0
            && range.bytes <= Min(diskSize / 4, 4 * 1024 * 1024) < range.bytes + range.sectorSize
            && (range.bytes > 0 ==> range.tailOffset + range.bytes == diskSize / range.sectorSize * range.sectorSize)
  {
    var sector := SectorOr512(sectorSize);
    var quarter := Min(diskSize / 4, SIGNATURE_CLEAR_BYTES);
    var k := quarter / sector;
    SectorsRoundDown(sector, quarter);
    SectorsRoundDown(sector, diskSize - k * sector);
    TailMeetsEnd(sector, diskSize, k);
  }

  lemma TailMeetsEnd(sector: U32, size: nat, k: nat)
    requires IsSupportedSectorSize(sector) && k * sector <= size
    ensures (size - k * sector) / sector * sector + k * sector == size / sector * sector
  {
    var rest := size - k * sector;
    SectorsShift(sector, rest, k);
    assert (rest / sector + k) * sector == rest / sector * sector + k * sector;
  }

  // ----- the write gate -----

  datatype TableRequest = TableRequest(
    style: PartitionStyle,
    fileSystem: FileSystemType,
    diskSize: U64,
    sectorSize: U32,
    layout: GptLayout,
    diskGuid: seq<Byte>,
    partitionGuid: seq<Byte>,
    partitionName: seq<U16>)
  {
    function Sector(): (sector: U32)
      ensures sector > 0
    {
      EffectiveSectorSize(sectorSize)
    }

    function SectorCount(): U64 { diskSize / Sector() }

    /** The byte after the last whole sector. */
    function WholeSectors(): (bytes: nat)
      ensures bytes <= diskSize
    {
      SectorCount() * Sector()
    }

    /** The end of the partition as 64-bit arithmetic sees it. */
    function MachineEnd(): U64 { Wrap64(layout.startOffset + layout.length) }

    predicate EndFits() { layout.startOffset + layout.length < TWO_TO_64 }
  }

  datatype GptGeometry = Fits(
    arraySectors: U32,
    lastLba: U64,
    backupEntryLba: U64,
    firstUsableLba: U64,
    lastUsableLba: U64)
                       | DoesNotFit

  function Geometry(request: TableRequest): GptGeometry
  {
    var arraySectors := GptEntryArraySectors(request.sectorSize);
    var sectors := request.SectorCount();
    if sectors < arraySectors * 2 + 3 then DoesNotFit
    else Fits(arraySectors, sectors - 1, sectors - 1 - arraySectors, 2 + arraySectors, sectors - 2 - arraySectors)
  }

  /** Why a layout or a request is refused, in the order the checks are made. */
  datatype Refusal =
    | UnsupportedSectorSize
    | NoRoomForPartition
    | NoStyleChosen
    | BeyondMbrReach
    | NotSectorAligned
    | PastEndOfDisk
    | NoRoomForHeaders
    | MissingIdentifiers
    | OverlapsHeaders
    | Accepted

  function PartitionLayoutError(style: PartitionStyle, layout: GptLayout, sectorSize: U32): Refusal
  {
    if !IsSupportedSectorSize(sectorSize) then UnsupportedSectorSize
    else if layout.length == 0 then NoRoomForPartition
    else if style == UnknownStyle then NoStyleChosen
    else if style == Mbr && Wrap64(layout.startOffset + layout.length) / sectorSize > U32_MAX then BeyondMbrReach
    else Accepted
  }

  /** The preflight both user interfaces run before anything is opened. */
  predicate CanCreatePartitionLayout(style: PartitionStyle, diskSize: U64, sectorSize: U32)
  {
    PartitionLayoutError(style, CalculateGptLayout(diskSize, sectorSize), sectorSize) == Accepted
  }

  /** The last check before the table is written. */
  function WriteGate(request: TableRequest): Refusal
  {
    var failure := PartitionLayoutError(request.style, request.layout, request.sectorSize);
    if failure != Accepted then failure
    else
      var sector := request.sectorSize;
      var endLba := request.MachineEnd() / sector;
      if request.layout.startOffset % sector != 0 || request.layout.length % sector != 0 then NotSectorAligned
      else if request.SectorCount() == 0 || endLba > request.SectorCount() then PastEndOfDisk
      else if request.style == Gpt then
        match Geometry(request)
        case DoesNotFit => NoRoomForHeaders
        case Fits(_, _, _, firstUsableLba, lastUsableLba) =>
          if |request.diskGuid| != 16 || |request.partitionGuid| != 16 then MissingIdentifiers
          else if request.layout.startOffset / sector < firstUsableLba || Wrap64(endLba - 1) > lastUsableLba
          then OverlapsHeaders
          else Accepted
      else if |request.diskGuid| < 4 then MissingIdentifiers
      else Accepted
  }

  predicate Gated(request: TableRequest)
  {
    WriteGate(request) == Accepted
  }

  /** The bytes the primary table occupies from the start of the disk. */
  function PrimaryBytes(request: TableRequest): nat
  {
    if request.style == Gpt
    then 2 * request.Sector() + GptEntryArraySectors(request.sectorSize) * request.Sector()
    else request.Sector()
  }

  lemma WholeSectorsFit(request: TableRequest, lba: nat)
    requires lba <= request.SectorCount()
    ensures lba * request.Sector() <= request.diskSize
  {
    assert request.SectorCount() * request.Sector() <= request.diskSize;
    assert lba * request.Sector() <= request.SectorCount() * request.Sector();
  }

  function GptBackupOffset(request: TableRequest): U64
  {
    match Geometry(request)
    case DoesNotFit => 0
    case Fits(_, _, backupEntryLba, _, _) =>
      WholeSectorsFit(request, backupEntryLba);
      backupEntryLba * request.Sector()
  }

  // ----- what the gate guarantees -----

  /** The calculated layout in sectors: it ends before the sectors the backup table takes. */
  lemma CalculatedLayoutInSectors(diskSize: U64, sectorSize: U32)
    requires IsSupportedSectorSize(sectorSize)
    requires CalculateGptLayout(diskSize, sectorSize) != NO_LAYOUT
    ensures var layout, arraySectors := CalculateGptLayout(diskSize, sectorSize), GptEntryArraySectors(sectorSize);
            && layout.startOffset % sectorSize == 0 && layout.length % sectorSize == 0
            && 2 + arraySectors <= layout.startOffset / sectorSize < (layout.startOffset + layout.length) / sectorSize
            && (layout.startOffset + layout.length) / sectorSize + arraySectors + 1 <= diskSize / sectorSize
  {
    var layout, arraySectors := CalculateGptLayout(diskSize, sectorSize), GptEntryArraySectors(sectorSize);
    CalculatedLayoutBounds(diskSize, sectorSize);
    hide CalculateGptLayout;
    StartInSectors(sectorSize);
    MibInSectors(sectorSize, layout.length / ONE_MIB);
    EndInSectors(sectorSize, layout.startOffset, layout.length);
    EndLeavesRoom(sectorSize, layout.startOffset + layout.length, arraySectors + 1, diskSize);
  }

  lemma StartInSectors(sectorSize: U32)
    requires IsSupportedSectorSize(sectorSize)
    ensures ONE_MIB % sectorSize == 0
    ensures 2 + GptEntryArraySectors(sectorSize) <= ONE_MIB / sectorSize
  {}

  lemma EndLeavesRoom(sector: U32, end: nat, k: nat, size: nat)
    requires IsSupportedSectorSize(sector) && end + k * sector <= size
    ensures end / sector + k <= size / sector
  {
    SectorsShift(sector, end, k);
    SectorsMonotone(sector, end + k * sector, size);
  }

  /** On the calculated layout the preflight and the gate give the same answer. */
  lemma PreflightAgreesWithGate(request: TableRequest)
    requires request.layout == CalculateGptLayout(request.diskSize, request.sectorSize)
    requires |request.diskGuid| == 16 && |request.partitionGuid| == 16
    ensures Gated(request) <==> CanCreatePartitionLayout(request.style, request.diskSize, request.sectorSize)
  {
    if CanCreatePartitionLayout(request.style, request.diskSize, request.sectorSize) {
      CalculatedLayoutBounds(request.diskSize, request.sectorSize);
      CalculatedLayoutInSectors(request.diskSize, request.sectorSize);
      hide CalculateGptLayout, GptEntryArraySectors, BackupBytes;
      assert PartitionLayoutError(request.style, request.layout, request.sectorSize) == Accepted;
      hide IsSupportedSectorSize, PartitionLayoutError;
      PreflightPassesGate(request);
    }
  }

  /** The preflight passes exactly if the sector size is one of four, the disk holds 2 MiB and a backup table, and a
      style was chosen whose addresses reach the end of the partition. */
  lemma PreflightMeans(style: PartitionStyle, diskSize: U64, sectorSize: U32)
    ensures CanCreatePartitionLayout(style, diskSize, sectorSize) <==>
              && sectorSize in {512, 1024, 2048, 4096}
              && diskSize >= 0x20_0000 + 0x4000 + sectorSize
              && (style == Gpt ||
                  (style == Mbr && (diskSize - 0x4000 - sectorSize) / 0x10_0000 * 0x10_0000 / sectorSize <= 0xFFFF_FFFF))
  {
    CalculatedLayoutBounds(diskSize, sectorSize);
    var layout := CalculateGptLayout(diskSize, sectorSize);
    hide CalculateGptLayout, GptEntryArraySectors;
    if layout != NO_LAYOUT && IsSupportedSectorSize(sectorSize) {
      assert BackupBytes(sectorSize) == 0x4000 + sectorSize;
      EndsOnMib(layout.startOffset + layout.length, diskSize - 0x4000 - sectorSize);
      WrapKeeps(layout.startOffset + layout.length);
    }
  }

  lemma EndsOnMib(end: nat, room: nat)
    requires end % 0x10_0000 == 0 && end <= room < end + 0x10_0000
    ensures room / 0x10_0000 * 0x10_0000 == end
  {}

  /** A partition of whole sectors from one on, as long as the address space reaches. */
  predicate IsWholePartition(request: TableRequest)
  {
    && request.sectorSize in {512, 1024, 2048, 4096} && request.layout.length > 0 && request.EndFits()
    && request.layout.startOffset % request.sectorSize == 0 && request.layout.length % request.sectorSize == 0
  }

  lemma ReachesInSectors(sector: U32, lba: nat, size: nat)
    requires IsSupportedSectorSize(sector)
    ensures lba * sector <= size <==> lba <= size / sector
  {
    SectorsRoundDown(sector, size);
    ScaleBySector(sector, lba, size / sector);
    ScaleBySector(sector, size / sector + 1, lba);
  }

  /** Start and end of such a partition, in sectors. */
  lemma WholeInSectors(request: TableRequest)
    requires IsWholePartition(request)
    ensures var sector, start, end: int := request.sectorSize, request.layout.startOffset,
                                           request.layout.startOffset + request.layout.length;
            && IsSupportedSectorSize(sector) && request.Sector() == sector && request.MachineEnd() == end
            && start / sector * sector == start && end / sector * sector == end && 0 <= start / sector < end / sector
  {
    hide Wrap64;
    var sector, start, length := request.sectorSize, request.layout.startOffset, request.layout.length;
    WrapKeeps(start + length);
    SectorsAdd(sector, start, length);
    SectorsRoundDown(sector, start);
    SectorsRoundDown(sector, start + length);
    SectorsRoundDown(sector, length);
  }

  /** The numbers of sectors the gate compares, in bytes. */
  lemma GateInBytes(sector: U32, start: nat, end: nat, sectors: nat)
    requires IsSupportedSectorSize(sector) && start / sector * sector == start && end / sector * sector == end
    ensures var arraySectors := GptEntryArraySectors(sector);
            && (start >= 2 * sector + 0x4000 <==> start / sector >= 2 + arraySectors)
            && (end + 0x4000 + sector <= sectors * sector <==> end / sector + arraySectors + 1 <= sectors)
  {
    hide GptEntryArraySectors;
    var arraySectors := GptEntryArraySectors(sector);
    assert arraySectors * sector == 0x4000;
    ScaleBySector(sector, 2 + arraySectors, start / sector);
    ScaleBySector(sector, end / sector + arraySectors + 1, sectors);
  }

  lemma GateInSectors(request: TableRequest)
    requires IsWholePartition(request)
    ensures var sector, arraySectors, sectors := request.sectorSize, GptEntryArraySectors(request.sectorSize), request.SectorCount();
            var first, end: int := request.layout.startOffset / sector, request.MachineEnd() / sector;
            Gated(request) <==>
              || (request.style == Gpt && |request.diskGuid| == |request.partitionGuid| == 16
                  && first >= 2 + arraySectors && end + arraySectors + 1 <= sectors)
              || (request.style == Mbr && |request.diskGuid| >= 4 && end <= sectors && end <= 0xFFFF_FFFF)
  {
    hide GptEntryArraySectors, Wrap64;
    WholeInSectors(request);
    WrapBelowEnd(request.MachineEnd() / request.sectorSize);
  }

  /** The write gate lets a request pass exactly if its partition is whole sectors on the disk, clear of both tables of
      a GPT with identifiers of 16 bytes, or within the 32-bit addresses of an MBR with a signature. */
  lemma GateMeans(request: TableRequest)
    requires IsWholePartition(request)
    ensures var start, end, sector: int :=
              request.layout.startOffset, request.layout.startOffset + request.layout.length, request.sectorSize;
            Gated(request) <==>
              || (request.style == Gpt && |request.diskGuid| == |request.partitionGuid| == 16
                  && start >= 2 * sector + 0x4000 && end + 0x4000 + sector <= request.WholeSectors())
              || (request.style == Mbr && |request.diskGuid| >= 4 && end <= request.diskSize && end / sector <= 0xFFFF_FFFF)
  {
    hide Gated, GptEntryArraySectors, IsSupportedSectorSize;
    var start, end := request.layout.startOffset, request.layout.startOffset + request.layout.length;
    GateInSectors(request);
    WholeInSectors(request);
    GateInBytes(request.sectorSize, start, end, request.SectorCount());
    ReachesInSectors(request.sectorSize, end / request.sectorSize, request.diskSize);
  }

  lemma WrapBelowEnd(x: nat)
    requires 0 < x < TWO_TO_64
    ensures Wrap64(x - 1) == x - 1
  {}

  lemma PreflightPassesGate(request: TableRequest)
    requires PartitionLayoutError(request.style, request.layout, request.sectorSize) == Accepted
    requires request.sectorSize > 0 && request.EndFits()
    requires |request.diskGuid| == 16 && |request.partitionGuid| == 16
    requires request.layout.startOffset % request.sectorSize == 0 && request.layout.length % request.sectorSize == 0
    requires var first, end := request.layout.startOffset / request.sectorSize,
                               (request.layout.startOffset + request.layout.length) / request.sectorSize;
             && 2 + GptEntryArraySectors(request.sectorSize) <= first < end
             && end + GptEntryArraySectors(request.sectorSize) + 1 <= request.SectorCount()
    ensures Gated(request)
  {
    hide PartitionLayoutError, GptEntryArraySectors, IsSupportedSectorSize, Wrap64;
    var end := (request.layout.startOffset + request.layout.length) / request.sectorSize;
    WrapKeeps(request.layout.startOffset + request.layout.length);
    assert request.MachineEnd() / request.sectorSize == end;
    WrapKeeps(end - 1);
  }

  /** The three ranges a GPT disk is divided into do not meet. */
  predicate GptRangesDisjoint(request: TableRequest)
  {
    && PrimaryBytes(request) <= request.layout.startOffset
    && request.layout.startOffset + request.layout.length <= GptBackupOffset(request)
    && GptBackupOffset(request) + BackupBytes(request.sectorSize) == request.WholeSectors()
  }

  /** What the gate checked, with wrap-around as the gate sees it. */
  lemma GateChecks(request: TableRequest)
    requires Gated(request)
    ensures var sector, layout := request.sectorSize, request.layout;
            && IsSupportedSectorSize(sector) && layout.length > 0
            && layout.startOffset % sector == 0 && layout.length % sector == 0
            && request.MachineEnd() / sector <= request.SectorCount()
            && (request.style == Gpt ==>
                  && Geometry(request).Fits?
                  && |request.diskGuid| == |request.partitionGuid| == 16
                  && 2 + GptEntryArraySectors(sector) <= layout.startOffset / sector
                  && Wrap64(request.MachineEnd() / sector - 1) <= request.SectorCount() - 2 - GptEntryArraySectors(sector))
            && (request.style != Gpt ==>
                  && request.style == Mbr
                  && |request.diskGuid| >= 4
                  && request.MachineEnd() / sector <= U32_MAX)
  {
    hide GptEntryArraySectors, CalculateGptLayout, Wrap64;
  }

  /** What the gate checked, in sectors and without wrap-around. */
  lemma GatedInSectors(request: TableRequest)
    requires Gated(request) && request.EndFits()
    ensures var sector, layout := request.sectorSize, request.layout;
            && layout.startOffset / sector * sector == layout.startOffset
            && layout.length / sector * sector == layout.length
            && layout.length / sector > 0
            && layout.startOffset / sector + layout.length / sector <= request.SectorCount()
            && (request.style == Gpt ==>
                  && Geometry(request).Fits?
                  && 2 + GptEntryArraySectors(sector) <= layout.startOffset / sector
                  && layout.startOffset / sector + layout.length / sector + GptEntryArraySectors(sector) + 1
                     <= request.SectorCount())
            && (request.style != Gpt ==> layout.startOffset / sector + layout.length / sector <= U32_MAX)
  {
    hide WriteGate, Gated, GptEntryArraySectors, Geometry, Wrap64, IsSupportedSectorSize;
    var sector, layout := request.sectorSize, request.layout;
    GateChecks(request);
    WrapKeeps(layout.startOffset + layout.length);
    EndInSectors(sector, layout.startOffset, layout.length);
  }

  lemma EndInSectors(sector: U32, start: U64, length: U64)
    requires IsSupportedSectorSize(sector) && length > 0
    requires start % sector == 0 && length % sector == 0 && start + length < TWO_TO_64
    ensures start / sector * sector == start && length / sector * sector == length
    ensures length / sector > 0
    ensures (start + length) / sector == start / sector + length / sector
    ensures Wrap64((start + length) / sector - 1) == start / sector + length / sector - 1
  {
    hide Wrap64;
    var a, b := start / sector, length / sector;
    SectorsAdd(sector, start, length);
    SectorsRoundDown(sector, start);
    SectorsRoundDown(sector, length);
    ScaleBySector(sector, b, 0);
    SectorsRoundDown(sector, start + length);
    WrapKeeps(a + b - 1);
  }

  lemma WrapKeeps(x: int)
    requires 0 <= x < TWO_TO_64
    ensures Wrap64(x) == x
  {}

  /** A gated GPT layout keeps clear of both tables exactly when its end does not wrap 64 bits. */
  lemma GatedGptIsDisjoint(request: TableRequest)
    requires Gated(request) && request.style == Gpt
    ensures GptRangesDisjoint(request) <==> request.EndFits()
  {
    if request.EndFits() {
      var sector, arraySectors := request.sectorSize, GptEntryArraySectors(request.sectorSize);
      var first, count := request.layout.startOffset / sector, request.layout.length / sector;
      GatedInSectors(request);
      hide WriteGate, Gated, GptEntryArraySectors;
      ScaleBySector(sector, 2 + arraySectors, first);
      ScaleBySector(sector, first + count, request.SectorCount() - 1 - arraySectors);
    }
  }

  /** The gate does accept layouts that wrap: this one starts at the top of the address space. */
  lemma GateAcceptsWrappedLayout()
    ensures exists request :: Gated(request) && request.style == Gpt && !request.EndFits()
  {
    var request := TableRequest(Gpt, ExFat, 1024 * ONE_MIB, 512,
                                GptLayout(TWO_TO_64 - 512, 1024), Zeros(16), Zeros(16), []);
    assert Gated(request) && request.style == Gpt && !request.EndFits();
  }

  /** The layout the restore computes always keeps clear of the tables. */
  lemma CalculatedLayoutIsDisjoint(request: TableRequest)
    requires request.layout == CalculateGptLayout(request.diskSize, request.sectorSize)
    requires Gated(request)
    ensures request.EndFits()
    ensures PrimaryBytes(request) <= request.layout.startOffset
    ensures request.layout.startOffset + request.layout.length <= request.WholeSectors()
    ensures request.style == Gpt ==> GptRangesDisjoint(request)
  {
    hide CalculateGptLayout, WriteGate, Gated, GptEntryArraySectors, BackupBytes;
    CalculatedLayoutBounds(request.diskSize, request.sectorSize);
    GateChecks(request);
    GatedInSectors(request);
    if request.style == Gpt {
      GatedGptIsDisjoint(request);
    } else {
      ScaleBySector(request.sectorSize,
                    request.layout.startOffset / request.sectorSize + request.layout.length / request.sectorSize,
                    request.SectorCount());
    }
  }

  /** On a disk large enough to restore, the cleared ends reach the partition from both sides. */
  lemma ClearedEndsMeetPartition(diskSize: U64, sectorSize: U32)
    requires diskSize >= MINIMUM_RESTORE_TARGET_BYTES && IsSupportedSectorSize(sectorSize)
    ensures var range, layout := SignatureClearRange(diskSize, sectorSize), CalculateGptLayout(diskSize, sectorSize);
            && range.bytes > 0
            && layout != NO_LAYOUT
            && layout.startOffset <= range.bytes
            && range.tailOffset <= layout.startOffset + layout.length
  {
    ClearRangeInSectors(diskSize, sectorSize);
    CalculatedLayoutBounds(diskSize, sectorSize);
    SectorsRoundDown(sectorSize, diskSize);
    var range, layout := SignatureClearRange(diskSize, sectorSize), CalculateGptLayout(diskSize, sectorSize);
    assert range.sectorSize == sectorSize;
    hide SignatureClearRange, CalculateGptLayout;
  }

  predicate IsValidDeviceRange(size: U64, offset: U64, length: U64, sectorSize: U32)
  {
    && IsSupportedSectorSize(sectorSize)
    && length > 0 && offset <= size && length <= size - offset
    && offset % sectorSize == 0 && length % sectorSize == 0
  }

  predicate IsAlignedZeroRange(offset: U64, bytes: U64, sectorSize: U32)
  {
    offset % SectorOr512(sectorSize) == 0 && bytes % SectorOr512(sectorSize) == 0
  }

  /** What is cleared is refused by no check of alignment, and there is something to clear on a large enough disk. */
  lemma ClearsWholeSectors(diskSize: U64, sectorSize: U32)
    ensures var clear := SignatureClearRange(diskSize, sectorSize);
            && (diskSize >= MINIMUM_RESTORE_TARGET_BYTES ==> clear.bytes > 0)
            && IsAlignedZeroRange(0, clear.bytes, clear.sectorSize)
            && IsAlignedZeroRange(clear.tailOffset, clear.bytes, clear.sectorSize)
  {
    ClearRangeInSectors(diskSize, sectorSize);
  }
}
