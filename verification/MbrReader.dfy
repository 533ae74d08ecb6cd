/** A reader of legacy partition records, written from section 5.2.1 of the UEFI
    Specification, version 2.10, and what it finds in the records the builder writes. */
module MbrReader {
  import opened Bytes
  import opened Layout
  import opened Wrappers
  import opened PartitionTable
  import opened TableReader

  /** The last address three CHS bytes can name. */
  const LAST_CHS_LBA: int := 1024 * MBR_HEADS * MBR_SECTORS_PER_TRACK - 1

  function DecodeChs(chs: seq<Byte>): int
    requires |chs| == 3
  {
    var middle: int := chs[1];
    var cylinder := chs[2] as int + middle / 64 * 256;
    var head: int := chs[0];
    var sector := middle % 64;
    (cylinder * MBR_HEADS + head) * MBR_SECTORS_PER_TRACK + sector - 1
  }

  lemma PackedChs(cylinder: nat, sector: nat)
    requires cylinder <= 1023 && 1 <= sector <= 63
    ensures var middle := sector % 64 + cylinder / 4 / 64 % 4 * 64;
            middle % 64 == sector && cylinder % 256 + middle / 64 * 256 == cylinder
  {
    assert cylinder / 4 / 64 == cylinder / 256;
  }

  /** An address survives CHS up to the last one it can name; all later ones read as that one. */
  lemma ChsRoundTrip(lba: U64)
    ensures DecodeChs(ChsBytes(lba)) == Min(lba, LAST_CHS_LBA)
  {
    var track, cylinder := lba / MBR_SECTORS_PER_TRACK, lba / (MBR_HEADS * MBR_SECTORS_PER_TRACK);
    if cylinder <= 1023 {
      assert track / MBR_HEADS == cylinder;
      PackedChs(cylinder, lba % MBR_SECTORS_PER_TRACK + 1);
    }
  }

  datatype MbrRecord = MbrRecord(
    diskSignature: seq<Byte>,
    bootable: bool,
    partitionType: Byte,
    firstChs: int,
    lastChs: int,
    firstLba: int,
    sectorCount: int)

  /** The first record of a boot sector that holds no other. */
  function ReadMbr(block: seq<Byte>): Option<MbrRecord>
    requires |block| >= 512
  {
    if block[510..512] != [0x55, 0xAA] || block[462..510] != Zeros(48) then None
    else
      Some(MbrRecord(block[440..444], block[446] == 0x80, block[450],
                     DecodeChs(block[447..450]), DecodeChs(block[451..454]),
                     FromLittleEndian(block[454..458]), FromLittleEndian(block[458..462])))
  }

  lemma MbrFields(request: TableRequest)
    requires IsSupportedSectorSize(request.sectorSize) && |request.diskGuid| >= 4
    ensures var m := MbrImage(request);
            && m[440..444] == request.diskGuid[..4]
            && m[446..447] == [0x00]
            && m[447..450] == ChsBytes(FirstLba(request))
            && m[450..451] == [MbrPartitionType(request.fileSystem)]
            && m[451..454] == ChsBytes(Wrap64(FirstLba(request) + SectorSpan(request) - 1))
            && m[454..458] == LittleEndian(Min(FirstLba(request), U32_MAX), 4)
            && m[458..462] == LittleEndian(Min(SectorSpan(request), U32_MAX), 4)
            && m[510..512] == BOOT_SIGNATURE
            && (forall i :: 462 <= i < 510 ==> m[i] == 0)
  {
    var writes, zeros := MbrWrites(request), Zeros(request.sectorSize);
    MbrWritesFit(request);
    MbrRecordWrites(request);
    assert MbrImage(request) == Apply(zeros, writes);
    hide MbrWrites, Apply, MbrImage, LittleEndian, ChsBytes, FirstLba, SectorSpan, MbrPartitionType, Wrap64, FitIn;
    assert Ascending(writes);
    AscendingFields(zeros, writes);
    forall i | 462 <= i < 510
      ensures MbrImage(request)[i] == 0
    {
      assert !Covered(writes, i);
      AppliedElsewhere(zeros, writes, i);
    }
  }

  /** The type byte readers know a file system by: 07 for exFAT and NTFS, 0C for FAT32 with LBA, 83 for Linux. */
  function TypeByteAsked(fileSystem: FileSystemType): Byte
  {
    if fileSystem == Ext4 then 0x83 else if fileSystem == Fat32 then 0x0C else 0x07
  }

  lemma TypeBytesAreAsked(fileSystem: FileSystemType)
    ensures MbrPartitionType(fileSystem) == TypeByteAsked(fileSystem)
  {}

  function ExpectedRecord(request: TableRequest): MbrRecord
    requires |request.diskGuid| >= 4
  {
    var sector := request.Sector();
    var start: int, length: int := request.layout.startOffset, request.layout.length;
    var first, count := start / sector, length / sector;
    MbrRecord(request.diskGuid[..4], false, TypeByteAsked(request.fileSystem),
              Min(first, LAST_CHS_LBA), Min(Wrap64(first + count - 1), LAST_CHS_LBA), first, count)
  }

  /** The record holds what was asked for, except that addresses past 32 bits are clamped. */
  lemma MbrIsRead(request: TableRequest)
    requires IsSupportedSectorSize(request.sectorSize) && |request.diskGuid| >= 4
    ensures var expected := ExpectedRecord(request);
            ReadMbr(MbrImage(request)) == Some(expected.(firstLba := Min(expected.firstLba, U32_MAX),
                                                         sectorCount := Min(expected.sectorCount, U32_MAX)))
  {
    hide MbrImage, LittleEndian, FromLittleEndian, ChsBytes, DecodeChs, MbrPartitionType, TypeByteAsked, Wrap64;
    var m := MbrImage(request);
    MbrFields(request);
    Le32RoundTrip(Min(FirstLba(request), U32_MAX));
    Le32RoundTrip(Min(SectorSpan(request), U32_MAX));
    ChsRoundTrip(FirstLba(request));
    ChsRoundTrip(Wrap64(FirstLba(request) + SectorSpan(request) - 1));
    assert m[446] == m[446..447][0] && m[450] == m[450..451][0];
    assert m[462..510] == Zeros(48);
    TypeBytesAreAsked(request.fileSystem);
  }

  /** Start and length of a gated request are never clamped unless its end wraps 64 bits, and then one always is. */
  lemma GatedMbrIsReadBack(request: TableRequest)
    requires Gated(request) && request.style == Mbr
    ensures IsSupportedSectorSize(request.sectorSize) && |request.diskGuid| >= 4
    ensures ReadMbr(MbrImage(request)) == Some(ExpectedRecord(request)) <==> request.EndFits()
  {
    GateChecks(request);
    MbrIsRead(request);
    if request.EndFits() {
      GatedInSectors(request);
    } else {
      WrapNeedsClamp(request.sectorSize, request.layout.startOffset, request.layout.length);
    }
    hide MbrImage, ReadMbr, MbrPartitionType, Wrap64, WriteGate, Gated;
  }

  lemma WrapNeedsClamp(sector: U32, start: U64, length: U64)
    requires IsSupportedSectorSize(sector) && start + length >= TWO_TO_64
    ensures start / sector > U32_MAX || length / sector > U32_MAX
  {}

  // ----- section 5.2.3: where the protective record ends -----

  /** The end of the protective record in CHS: the last address of the disk, or all ones if CHS cannot name it. */
  predicate EndsAsAsked(chs: seq<Byte>, lastLba: nat)
    requires |chs| == 3
  {
    if lastLba <= LAST_CHS_LBA then DecodeChs(chs) == lastLba else chs == [0xFF, 0xFF, 0xFF]
  }

  /** A reader that insists on that too. */
  function ReadGptStrictly(disk: seq<Byte>, sector: nat): Option<GptDisk>
    requires sector >= 512
  {
    if |disk| < 512 || !EndsAsAsked(disk[451..454], Max(|disk| / sector - 1, 0)) then None else ReadGpt(disk, sector)
  }

  /** The record is written with all ones in that place, which is what is asked for only past the reach of CHS. */
  lemma ProtectiveRecordEnds(request: TableRequest)
    requires CanHoldHeaders(request)
    ensures EndsAsAsked(ProtectiveMbr(request)[451..454], request.SectorCount() - 1)
       <==> request.SectorCount() - 1 > LAST_CHS_LBA
  {
    var m := ProtectiveMbr(request);
    ProtectiveFields(request);
    assert request.SectorCount() > 0;
    hide ProtectiveMbr, LittleEndian, Geometry;
    SliceOfSlice(m, 446, 454, 5, 8);
    assert m[451..454] == PROTECTIVE_RECORD[5..8] == [0xFF, 0xFF, 0xFF];
  }

  /** A strict reader accepts a gated disk exactly when the end of the partition does not wrap and the disk is too
      long for CHS. */
  lemma GptIsReadStrictly(disk: seq<Byte>, request: TableRequest)
    requires Gated(request) && request.style == Gpt
    requires CanHoldHeaders(request) && HoldsGpt(disk, request)
    ensures ReadGptStrictly(disk, request.sectorSize)
         == if request.EndFits() && request.SectorCount() - 1 > LAST_CHS_LBA then Some(ExpectedDisk(request)) else None
  {
    hide Gated, ReadGpt, HoldsGpt, ExpectedDisk, EndsAsAsked, ProtectiveMbr, Header, EntryArray, HasProtectiveMbr;
    hide CanHoldHeaders;
    GptIsReadBack(disk, request);
    ProtectiveRecordEnds(request);
    ReadableDisk(disk, request);
    PrimaryOnDisk(disk, request);
    GatedSector(request);
    PrimaryHeaderPlace(request);
    SliceOfSlice(disk, 0, request.sectorSize, 451, 454);
    assert disk[..request.sectorSize] == disk[0..request.sectorSize];
  }

  /** The smallest disk that may be restored is not long enough. */
  lemma SmallDiskEndsOtherwise() returns (request: TableRequest)
    ensures request.style == Gpt && request.diskSize == MINIMUM_RESTORE_TARGET_BYTES && Gated(request)
    ensures request.layout == CalculateGptLayout(request.diskSize, request.sectorSize) && CanHoldHeaders(request)
    ensures !EndsAsAsked(ProtectiveMbr(request)[451..454], request.SectorCount() - 1)
  {
    hide ProtectiveMbr, EndsAsAsked, Gated;
    var size: U64 := MINIMUM_RESTORE_TARGET_BYTES;
    request := TableRequest(Gpt, ExFat, size, 512, CalculateGptLayout(size, 512), Zeros(16), Zeros(16), []);
    PreflightAgreesWithGate(request);
    GateChecks(request);
    assert request.SectorCount() == 16384;
    ProtectiveRecordEnds(request);
  }
}
