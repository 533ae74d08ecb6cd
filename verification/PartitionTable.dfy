/** The bytes of the partition tables: the specification of every image, and the
    builders that fill buffers in place to produce it. */
module PartitionTable {
  import opened Bytes
  import opened Layout
  import opened Crc32

  const GPT_HEADER_SIZE: int := 92
  const ENTRY_ARRAY_BYTES: int := 16384
  const MBR_HEADS: int := 255
  const MBR_SECTORS_PER_TRACK: int := 63

  // "EFI PART"
  const GPT_SIGNATURE: seq<Byte> := [0x45, 0x46, 0x49, 0x20, 0x50, 0x41, 0x52, 0x54]
  // EBD0A0A2-B9E5-4433-87C0-68B6B72699C7 the way GPT stores it
  const BASIC_DATA_TYPE: seq<Byte> :=
    [0xA2, 0xA0, 0xD0, 0xEB, 0xE5, 0xB9, 0x33, 0x44, 0x87, 0xC0, 0x68, 0xB6, 0xB7, 0x26, 0x99, 0xC7]
  // 0FC63DAF-8483-4772-8E79-3D69D8477DE4
  const LINUX_FILESYSTEM_TYPE: seq<Byte> :=
    [0xAF, 0x3D, 0xC6, 0x0F, 0x83, 0x84, 0x72, 0x47, 0x8E, 0x79, 0x3D, 0x69, 0xD8, 0x47, 0x7D, 0xE4]
  const PROTECTIVE_RECORD: seq<Byte> := [0x00, 0x00, 0x02, 0x00, 0xEE, 0xFF, 0xFF, 0xFF]
  const BOOT_SIGNATURE: seq<Byte> := [0x55, 0xAA]

  function GptPartitionType(fileSystem: FileSystemType): (guid: seq<Byte>)
    ensures |guid| == 16
  {
    if fileSystem == Ext4 then LINUX_FILESYSTEM_TYPE else BASIC_DATA_TYPE
  }

  function MbrPartitionType(fileSystem: FileSystemType): Byte
  {
    match fileSystem
    case Fat32 => 0x0C
    case Ext4 => 0x83
    case ExFat => 0x07
    case Ntfs => 0x07
  }

  function Left<T>(s: seq<T>, count: nat): seq<T>
  {
    if |s| <= count then s else s[..count]
  }

  // ----- the images -----

  function NameBytes(name: seq<U16>): (s: seq<Byte>)
    ensures |s| == 2 * |name|
  {
    if name == [] then [] else NameBytes(name[..|name| - 1]) + LittleEndian(name[|name| - 1], 2)
  }

  function FirstLba(request: TableRequest): U64
  {
    request.layout.startOffset / request.Sector()
  }

  /** The last address that still belongs to the partition. */
  function LastLba(request: TableRequest): U64
  {
    Wrap64(request.MachineEnd() / request.Sector() - 1)
  }

  function EntryWrites(request: TableRequest): seq<Write>
  {
    [ Write(0, GptPartitionType(request.fileSystem)),
      Write(16, Left(request.partitionGuid, 16)),
      Write(32, LittleEndian(FirstLba(request), 8)),
      Write(40, LittleEndian(LastLba(request), 8)),
      Write(48, LittleEndian(0, 8)),
      Write(56, NameBytes(Left(request.partitionName, 36))) ]
  }

  function EntryArray(request: TableRequest): (s: seq<Byte>)
    ensures |s| == ENTRY_ARRAY_BYTES
  {
    Apply(Zeros(ENTRY_ARRAY_BYTES), EntryWrites(request))
  }

  predicate CanHoldHeaders(request: TableRequest)
  {
    IsSupportedSectorSize(request.sectorSize) && Geometry(request).Fits?
  }

  function HeaderWrites(request: TableRequest, entriesCrc: U32, primary: bool): seq<Write>
    requires CanHoldHeaders(request)
  {
    var g := Geometry(request);
    [ Write(0, GPT_SIGNATURE),
      Write(8, LittleEndian(0x0001_0000, 4)),
      Write(12, LittleEndian(GPT_HEADER_SIZE, 4)),
      Write(16, LittleEndian(0, 4)),
      Write(20, LittleEndian(0, 4)),
      Write(24, LittleEndian(if primary then 1 else g.lastLba, 8)),
      Write(32, LittleEndian(if primary then g.lastLba else 1, 8)),
      Write(40, LittleEndian(g.firstUsableLba, 8)),
      Write(48, LittleEndian(g.lastUsableLba, 8)),
      Write(56, Left(request.diskGuid, 16)),
      Write(72, LittleEndian(if primary then 2 else g.backupEntryLba, 8)),
      Write(80, LittleEndian(GPT_ENTRY_COUNT, 4)),
      Write(84, LittleEndian(GPT_ENTRY_SIZE, 4)),
      Write(88, LittleEndian(entriesCrc, 4)) ]
  }

  /** The header before it is signed with its own checksum. */
  function UnsignedHeader(request: TableRequest, entriesCrc: U32, primary: bool): (s: seq<Byte>)
    requires CanHoldHeaders(request)
    ensures |s| == request.sectorSize
  {
    hide HeaderWrites, FitIn;
    HeaderWritesFit(request, entriesCrc, primary);
    Apply(Zeros(request.sectorSize), HeaderWrites(request, entriesCrc, primary))
  }

  function Header(request: TableRequest, primary: bool): (s: seq<Byte>)
    requires CanHoldHeaders(request)
    ensures |s| == request.sectorSize
  {
    var unsigned := UnsignedHeader(request, Crc(EntryArray(request)), primary);
    Splice(unsigned, 16, LittleEndian(Crc(unsigned[..GPT_HEADER_SIZE]), 4))
  }

  function ProtectiveWrites(request: TableRequest): seq<Write>
  {
    [ Write(446, PROTECTIVE_RECORD),
      Write(454, LittleEndian(1, 4)),
      Write(458, LittleEndian(Min(Wrap64(request.SectorCount() - 1), U32_MAX), 4)),
      Write(510, BOOT_SIGNATURE) ]
  }

  function ProtectiveMbr(request: TableRequest): (s: seq<Byte>)
    requires IsSupportedSectorSize(request.sectorSize)
    ensures |s| == request.sectorSize
  {
    Apply(Zeros(request.sectorSize), ProtectiveWrites(request))
  }

  /** What goes to the beginning of the disk. */
  function GptPrimary(request: TableRequest): (s: seq<Byte>)
    requires CanHoldHeaders(request)
    ensures |s| == 2 * request.sectorSize + ENTRY_ARRAY_BYTES
  {
    ProtectiveMbr(request) + Header(request, true) + EntryArray(request)
  }

  /** Written at the backup offset. */
  function GptBackup(request: TableRequest): (s: seq<Byte>)
    requires CanHoldHeaders(request)
    ensures |s| == request.sectorSize + ENTRY_ARRAY_BYTES
  {
    EntryArray(request) + Header(request, false)
  }

  /** Cylinder, head and sector of an address, or the all-ones marker past their reach. */
  function ChsBytes(lba: U64): (s: seq<Byte>)
    ensures |s| == 3
  {
    var cylinder := lba / (MBR_HEADS * MBR_SECTORS_PER_TRACK);
    if cylinder > 1023 then [0xFE, 0xFF, 0xFF]
    else
      var head := lba / MBR_SECTORS_PER_TRACK % MBR_HEADS;
      var sector := lba % MBR_SECTORS_PER_TRACK + 1;
      [head % 256, sector % 64 + cylinder / 4 / 64 % 4 * 64, cylinder % 256]
  }

  function SectorSpan(request: TableRequest): U64
  {
    request.layout.length / request.Sector()
  }

  function MbrWrites(request: TableRequest): seq<Write>
  {
    [ Write(440, if |request.diskGuid| >= 4 then request.diskGuid[..4] else []),
      Write(446, [0x00]),
      Write(447, ChsBytes(FirstLba(request))),
      Write(450, [MbrPartitionType(request.fileSystem)]),
      Write(451, ChsBytes(Wrap64(FirstLba(request) + SectorSpan(request) - 1))),
      Write(454, LittleEndian(Min(FirstLba(request), U32_MAX), 4)),
      Write(458, LittleEndian(Min(SectorSpan(request), U32_MAX), 4)),
      Write(510, BOOT_SIGNATURE) ]
  }

  function MbrImage(request: TableRequest): (s: seq<Byte>)
    requires IsSupportedSectorSize(request.sectorSize)
    ensures |s| == request.sectorSize
  {
    Apply(Zeros(request.sectorSize), MbrWrites(request))
  }

  // ----- the builders -----

  lemma NothingSpliced(s: seq<Byte>, offset: nat, value: seq<Byte>)
    requires offset <= |s|
    ensures Splice(s, offset, value[..0]) == s
  {}

  lemma SplicedByte(s: seq<Byte>, offset: nat, value: seq<Byte>, i: nat)
    requires i < |value| && offset + i < |s|
    ensures Splice(s, offset, value[..i])[offset + i := value[i]] == Splice(s, offset, value[..i + 1])
  {}

  method WriteLittleEndian(buffer: array<Byte>, offset: nat, value: nat, width: nat)
    requires offset + width <= buffer.Length
    modifies buffer
    ensures buffer[..] == Splice(old(buffer[..]), offset, LittleEndian(value, width))
  {
    hide Splice;
    ghost var was := buffer[..];
    ghost var digits := LittleEndian(value, width);
    NothingSpliced(was, offset, digits);
    var rest := value;
    for i := 0 to width
      invariant digits[i..] == LittleEndian(rest, width - i)
      invariant buffer[..] == Splice(was, offset, digits[..i])
    {
      assert digits[i] == rest % 256 && digits[i + 1..] == digits[i..][1..];
      ghost var before := buffer[..];
      buffer[offset + i] := rest % 256;
      assert buffer[..] == before[offset + i := digits[i]];
      SplicedByte(was, offset, digits, i);
      rest := rest / 256;
    }
    assert digits[..width] == digits;
  }

  method WriteBytes(buffer: array<Byte>, offset: nat, value: seq<Byte>, length: nat)
    requires offset + length <= buffer.Length
    modifies buffer
    ensures buffer[..] == Splice(old(buffer[..]), offset, Left(value, length))
  {
    hide Splice;
    ghost var was := buffer[..];
    NothingSpliced(was, offset, value);
    var count := if length < |value| then length else |value|;
    for i := 0 to count
      invariant buffer[..] == Splice(was, offset, value[..i])
    {
      ghost var before := buffer[..];
      buffer[offset + i] := value[i];
      assert buffer[..] == before[offset + i := value[i]];
      SplicedByte(was, offset, value, i);
    }
    assert value[..count] == Left(value, length);
  }

  /** Two pieces laid down behind one another are one piece. */
  lemma SplicedTwice(s: seq<Byte>, offset: nat, a: seq<Byte>, b: seq<Byte>)
    requires offset + |a| + |b| <= |s|
    ensures Splice(Splice(s, offset, a), offset + |a|, b) == Splice(s, offset, a + b)
  {}

  method WriteName(buffer: array<Byte>, offset: nat, name: seq<U16>)
    requires offset + 2 * |name| <= buffer.Length
    modifies buffer
    ensures buffer[..] == Splice(old(buffer[..]), offset, NameBytes(name))
  {
    ghost var was := buffer[..];
    for i := 0 to |name|
      invariant buffer[..] == Splice(was, offset, NameBytes(name[..i]))
    {
      assert name[..i + 1][..i] == name[..i];
      WriteLittleEndian(buffer, offset + i * 2, name[i], 2);
      SplicedTwice(was, offset, NameBytes(name[..i]), LittleEndian(name[i], 2));
    }
    assert name[..|name|] == name;
  }

  lemma NextWrite(s: seq<Byte>, writes: seq<Write>, k: nat)
    requires k < |writes| && FitIn(writes, |s|)
    ensures FitIn(writes[..k], |s|) && FitIn(writes[..k + 1], |s|)
    ensures Apply(s, writes[..k + 1]) == Splice(Apply(s, writes[..k]), writes[k].offset, writes[k].data)
  {
    hide Splice;
    var part := writes[..k + 1];
    assert part[..k] == writes[..k] && part[k] == writes[k];
  }

  /** An image under construction: the buffer holds the first `k` writes of its specification. */
  ghost predicate Progress(buffer: array<Byte>, writes: seq<Write>, k: nat)
    reads buffer
  {
    && k <= |writes| && FitIn(writes, buffer.Length)
    && buffer[..] == Apply(Zeros(buffer.Length), writes[..k])
  }

  lemma Started(buffer: array<Byte>, writes: seq<Write>)
    requires FitIn(writes, buffer.Length)
    requires forall i :: 0 <= i < buffer.Length ==> buffer[i] == 0
    ensures Progress(buffer, writes, 0)
  {
    assert buffer[..] == Zeros(buffer.Length);
  }

  lemma Finished(buffer: array<Byte>, writes: seq<Write>)
    requires Progress(buffer, writes, |writes|)
    ensures FitIn(writes, buffer.Length) && buffer[..] == Apply(Zeros(buffer.Length), writes)
  {
    assert writes[..|writes|] == writes;
  }

  /** The number that is write `k` of an image under construction. */
  method WriteNumberField(buffer: array<Byte>, offset: nat, value: nat, width: nat, ghost writes: seq<Write>, ghost k: nat)
    requires k < |writes| && writes[k] == Write(offset, LittleEndian(value, width))
    requires Progress(buffer, writes, k)
    modifies buffer
    ensures Progress(buffer, writes, k + 1)
  {
    NextWrite(Zeros(buffer.Length), writes, k);
    assert offset + width == writes[k].End();
    WriteLittleEndian(buffer, offset, value, width);
  }

  /** The bytes that are write `k` of an image under construction. */
  method WriteBytesField(buffer: array<Byte>, offset: nat, value: seq<Byte>, length: nat, ghost writes: seq<Write>, ghost k: nat)
    requires offset + length <= buffer.Length
    requires k < |writes| && writes[k] == Write(offset, Left(value, length))
    requires Progress(buffer, writes, k)
    modifies buffer
    ensures Progress(buffer, writes, k + 1)
  {
    NextWrite(Zeros(buffer.Length), writes, k);
    WriteBytes(buffer, offset, value, length);
  }

  method WriteNameField(buffer: array<Byte>, offset: nat, name: seq<U16>, ghost writes: seq<Write>, ghost k: nat)
    requires k < |writes| && writes[k] == Write(offset, NameBytes(name))
    requires Progress(buffer, writes, k)
    modifies buffer
    ensures Progress(buffer, writes, k + 1)
  {
    NextWrite(Zeros(buffer.Length), writes, k);
    assert offset + 2 * |name| == writes[k].End();
    WriteName(buffer, offset, name);
  }

  lemma EntryWritesFit(request: TableRequest)
    ensures var w := EntryWrites(request);
            && |w| == 6 && FitIn(w, ENTRY_ARRAY_BYTES)
            && w[0] == Write(0, Left(GptPartitionType(request.fileSystem), 16))
            && w[1] == Write(16, Left(request.partitionGuid, 16))
            && w[2] == Write(32, LittleEndian(FirstLba(request), 8))
            && w[3] == Write(40, LittleEndian(LastLba(request), 8))
            && w[4] == Write(48, LittleEndian(0, 8))
            && w[5] == Write(56, NameBytes(Left(request.partitionName, 36)))
  {
    hide LittleEndian, NameBytes, FirstLba, LastLba;
  }

  method BuildEntryArray(request: TableRequest) returns (entries: array<Byte>)
    ensures fresh(entries) && entries[..] == EntryArray(request)
  {
    entries := new Byte[ENTRY_ARRAY_BYTES](_ => 0);
    ghost var writes := EntryWrites(request);
    EntryWritesFit(request);
    Started(entries, writes);
    hide Progress, LittleEndian, NameBytes, FirstLba, LastLba, GptPartitionType, EntryWrites, FitIn;
    WriteBytesField(entries, 0, GptPartitionType(request.fileSystem), 16, writes, 0);
    WriteBytesField(entries, 16, request.partitionGuid, 16, writes, 1);
    FillExtent(entries, FirstLba(request), LastLba(request), writes);
    WriteNameField(entries, 56, Left(request.partitionName, 36), writes, 5);
    Finished(entries, writes);
  }

  /** First and last address of the partition, and its attributes. */
  method FillExtent(entries: array<Byte>, firstLba: U64, lastLba: U64, ghost writes: seq<Write>)
    requires |writes| == 6 && Progress(entries, writes, 2)
    requires writes[2] == Write(32, LittleEndian(firstLba, 8)) && writes[3] == Write(40, LittleEndian(lastLba, 8))
    requires writes[4] == Write(48, LittleEndian(0, 8))
    modifies entries
    ensures Progress(entries, writes, 5)
  {
    hide Progress, LittleEndian;
    WriteNumberField(entries, 32, firstLba, 8, writes, 2);
    WriteNumberField(entries, 40, lastLba, 8, writes, 3);
    WriteNumberField(entries, 48, 0, 8, writes, 4);
  }

  method BuildHeader(request: TableRequest, entries: seq<Byte>, primary: bool) returns (header: array<Byte>)
    requires CanHoldHeaders(request)
    requires entries == EntryArray(request)
    ensures fresh(header) && header[..] == Header(request, primary)
  {
    hide Apply, LittleEndian, Crc, HeaderWrites, EntryArray, Geometry, Splice, Progress, FitIn;
    header := new Byte[request.sectorSize](_ => 0);
    var entriesCrc := Checksum(entries);
    ghost var writes := HeaderWrites(request, entriesCrc, primary);
    HeaderWritesFit(request, entriesCrc, primary);
    Started(header, writes);
    FillHeader(request, entriesCrc, primary, header, writes);
    Finished(header, writes);
    var headerCrc := Checksum(header[..GPT_HEADER_SIZE]);
    WriteLittleEndian(header, 16, headerCrc, 4);
  }

  lemma HeaderWritesFit(request: TableRequest, entriesCrc: U32, primary: bool)
    requires CanHoldHeaders(request)
    ensures |HeaderWrites(request, entriesCrc, primary)| == 14
    ensures FitIn(HeaderWrites(request, entriesCrc, primary), request.sectorSize)
  {
    hide Geometry, LittleEndian;
  }

  lemma HeaderWritesFirst(request: TableRequest, entriesCrc: U32, primary: bool)
    requires CanHoldHeaders(request)
    ensures var w, g := HeaderWrites(request, entriesCrc, primary), Geometry(request);
            && w[0] == Write(0, Left(GPT_SIGNATURE, 8))
            && w[1] == Write(8, LittleEndian(0x0001_0000, 4))
            && w[2] == Write(12, LittleEndian(GPT_HEADER_SIZE, 4))
            && w[3] == Write(16, LittleEndian(0, 4))
            && w[4] == Write(20, LittleEndian(0, 4))
            && w[5] == Write(24, LittleEndian(if primary then 1 else g.lastLba, 8))
            && w[6] == Write(32, LittleEndian(if primary then g.lastLba else 1, 8))
  {
    hide Geometry, LittleEndian;
  }

  lemma HeaderWritesLast(request: TableRequest, entriesCrc: U32, primary: bool)
    requires CanHoldHeaders(request)
    ensures var w, g := HeaderWrites(request, entriesCrc, primary), Geometry(request);
            && w[7] == Write(40, LittleEndian(g.firstUsableLba, 8))
            && w[8] == Write(48, LittleEndian(g.lastUsableLba, 8))
            && w[9] == Write(56, Left(request.diskGuid, 16))
            && w[10] == Write(72, LittleEndian(if primary then 2 else g.backupEntryLba, 8))
            && w[11] == Write(80, LittleEndian(GPT_ENTRY_COUNT, 4))
            && w[12] == Write(84, LittleEndian(GPT_ENTRY_SIZE, 4))
            && w[13] == Write(88, LittleEndian(entriesCrc, 4))
  {
    hide Geometry, LittleEndian;
  }

  method FillHeader(request: TableRequest, entriesCrc: U32, primary: bool, header: array<Byte>, ghost writes: seq<Write>)
    requires CanHoldHeaders(request) && header.Length >= GPT_HEADER_SIZE
    requires |writes| == 14 && writes == HeaderWrites(request, entriesCrc, primary)
    requires Progress(header, writes, 0)
    modifies header
    ensures Progress(header, writes, 14)
  {
    HeaderWritesFirst(request, entriesCrc, primary);
    HeaderWritesLast(request, entriesCrc, primary);
    hide Progress, LittleEndian, Geometry, HeaderWrites, FitIn;
    var geometry := Geometry(request);
    FillIdentity(header, writes);
    FillAddresses(header, if primary then 1 else geometry.lastLba, if primary then geometry.lastLba else 1,
                  geometry.firstUsableLba, geometry.lastUsableLba, writes);
    WriteBytesField(header, 56, request.diskGuid, 16, writes, 9);
    FillEntryArray(header, if primary then 2 else geometry.backupEntryLba, entriesCrc, writes);
  }

  /** Signature, revision, size, and the checksum and reserved fields as zero. */
  method FillIdentity(header: array<Byte>, ghost writes: seq<Write>)
    requires |writes| == 14 && Progress(header, writes, 0) && header.Length >= GPT_HEADER_SIZE
    requires writes[0] == Write(0, Left(GPT_SIGNATURE, 8))
    requires writes[1] == Write(8, LittleEndian(0x0001_0000, 4))
    requires writes[2] == Write(12, LittleEndian(GPT_HEADER_SIZE, 4))
    requires writes[3] == Write(16, LittleEndian(0, 4)) && writes[4] == Write(20, LittleEndian(0, 4))
    modifies header
    ensures Progress(header, writes, 5)
  {
    hide Progress, LittleEndian;
    WriteBytesField(header, 0, GPT_SIGNATURE, 8, writes, 0);
    WriteNumberField(header, 8, 0x0001_0000, 4, writes, 1);
    WriteNumberField(header, 12, GPT_HEADER_SIZE, 4, writes, 2);
    WriteNumberField(header, 16, 0, 4, writes, 3);
    WriteNumberField(header, 20, 0, 4, writes, 4);
  }

  method FillAddresses(header: array<Byte>, myLba: U64, alternateLba: U64, firstUsableLba: U64, lastUsableLba: U64,
                       ghost writes: seq<Write>)
    requires |writes| == 14 && Progress(header, writes, 5)
    requires writes[5] == Write(24, LittleEndian(myLba, 8)) && writes[6] == Write(32, LittleEndian(alternateLba, 8))
    requires writes[7] == Write(40, LittleEndian(firstUsableLba, 8))
    requires writes[8] == Write(48, LittleEndian(lastUsableLba, 8))
    modifies header
    ensures Progress(header, writes, 9)
  {
    hide Progress, LittleEndian;
    WriteNumberField(header, 24, myLba, 8, writes, 5);
    WriteNumberField(header, 32, alternateLba, 8, writes, 6);
    WriteNumberField(header, 40, firstUsableLba, 8, writes, 7);
    WriteNumberField(header, 48, lastUsableLba, 8, writes, 8);
  }

  method FillEntryArray(header: array<Byte>, entryLba: U64, entriesCrc: U32, ghost writes: seq<Write>)
    requires |writes| == 14 && Progress(header, writes, 10)
    requires writes[10] == Write(72, LittleEndian(entryLba, 8))
    requires writes[11] == Write(80, LittleEndian(GPT_ENTRY_COUNT, 4))
    requires writes[12] == Write(84, LittleEndian(GPT_ENTRY_SIZE, 4))
    requires writes[13] == Write(88, LittleEndian(entriesCrc, 4))
    modifies header
    ensures Progress(header, writes, 14)
  {
    hide Progress, LittleEndian;
    WriteNumberField(header, 72, entryLba, 8, writes, 10);
    WriteNumberField(header, 80, GPT_ENTRY_COUNT, 4, writes, 11);
    WriteNumberField(header, 84, GPT_ENTRY_SIZE, 4, writes, 12);
    WriteNumberField(header, 88, entriesCrc, 4, writes, 13);
  }

  method BuildProtectiveMbr(request: TableRequest) returns (mbr: array<Byte>)
    requires IsSupportedSectorSize(request.sectorSize)
    ensures fresh(mbr) && mbr[..] == ProtectiveMbr(request)
  {
    hide Progress, LittleEndian, Wrap64, FitIn, Apply;
    mbr := new Byte[request.sectorSize](_ => 0);
    ghost var writes := ProtectiveWrites(request);
    ProtectiveWritesFitSector(request);
    Started(mbr, writes);
    WriteBytesField(mbr, 446, PROTECTIVE_RECORD, 8, writes, 0);
    WriteNumberField(mbr, 454, 1, 4, writes, 1);
    WriteNumberField(mbr, 458, Min(Wrap64(request.SectorCount() - 1), U32_MAX), 4, writes, 2);
    WriteBytesField(mbr, 510, BOOT_SIGNATURE, 2, writes, 3);
    Finished(mbr, writes);
  }

  lemma ProtectiveWritesFitSector(request: TableRequest)
    requires IsSupportedSectorSize(request.sectorSize)
    ensures FitIn(ProtectiveWrites(request), request.sectorSize) && request.sectorSize >= 512
  {
    hide LittleEndian, Wrap64;
  }

  lemma PaddingIsEmpty(request: TableRequest)
    requires CanHoldHeaders(request)
    ensures GptEntryArraySectors(request.sectorSize) * request.sectorSize - ENTRY_ARRAY_BYTES == 0
  {}

  method BuildGptPrimary(request: TableRequest) returns (image: seq<Byte>)
    requires CanHoldHeaders(request)
    ensures image == GptPrimary(request)
  {
    hide ProtectiveMbr, Header, EntryArray, GptEntryArraySectors, Geometry;
    var entries := BuildEntryArray(request);
    var header := BuildHeader(request, entries[..], true);
    var protectiveMbr := BuildProtectiveMbr(request);
    image := protectiveMbr[..] + header[..] + entries[..];
    // Pad to whole sectors, which supported sizes already fill.
    assert entries.Length == |entries[..]|;
    PaddingIsEmpty(request);
    image := image + Zeros(GptEntryArraySectors(request.sectorSize) * request.sectorSize - entries.Length);
  }

  method BuildGptBackup(request: TableRequest) returns (image: seq<Byte>)
    requires CanHoldHeaders(request)
    ensures image == GptBackup(request)
  {
    hide Header, EntryArray, GptEntryArraySectors, Geometry;
    var entries := BuildEntryArray(request);
    var header := BuildHeader(request, entries[..], false);
    assert entries.Length == |entries[..]|;
    PaddingIsEmpty(request);
    image := entries[..] + Zeros(GptEntryArraySectors(request.sectorSize) * request.sectorSize - entries.Length);
    image := image + header[..];
  }

  method WriteChs(buffer: array<Byte>, offset: nat, lba: U64)
    requires offset + 3 <= buffer.Length
    modifies buffer
    ensures buffer[..] == Splice(old(buffer[..]), offset, ChsBytes(lba))
  {
    var cylinder := lba / (MBR_HEADS * MBR_SECTORS_PER_TRACK);
    if cylinder > 1023 {
      buffer[offset], buffer[offset + 1], buffer[offset + 2] := 0xFE, 0xFF, 0xFF;
      return;
    }
    var head := lba / MBR_SECTORS_PER_TRACK % MBR_HEADS;
    var sector := lba % MBR_SECTORS_PER_TRACK + 1;
    buffer[offset] := head % 256;
    buffer[offset + 1] := sector % 64 + cylinder / 4 / 64 % 4 * 64;
    buffer[offset + 2] := cylinder % 256;
  }

  method WriteChsField(buffer: array<Byte>, offset: nat, lba: U64, ghost writes: seq<Write>, ghost k: nat)
    requires k < |writes| && writes[k] == Write(offset, ChsBytes(lba))
    requires Progress(buffer, writes, k)
    modifies buffer
    ensures Progress(buffer, writes, k + 1)
  {
    NextWrite(Zeros(buffer.Length), writes, k);
    assert offset + 3 == writes[k].End();
    WriteChs(buffer, offset, lba);
  }

  lemma MbrWritesFit(request: TableRequest)
    ensures var w := MbrWrites(request);
            && |w| == 8 && FitIn(w, 512)
            && w[0] == Write(440, if |request.diskGuid| >= 4 then Left(request.diskGuid[..4], 4) else [])
            && w[1] == Write(446, Left([0x00], 1))
            && w[7] == Write(510, Left(BOOT_SIGNATURE, 2))
  {
    hide LittleEndian, ChsBytes, FirstLba, SectorSpan, MbrPartitionType;
  }

  lemma MbrRecordWrites(request: TableRequest)
    ensures var w := MbrWrites(request);
            && w[2] == Write(447, ChsBytes(FirstLba(request)))
            && w[3] == Write(450, [MbrPartitionType(request.fileSystem)])
            && w[4] == Write(451, ChsBytes(Wrap64(FirstLba(request) + SectorSpan(request) - 1)))
            && w[5] == Write(454, LittleEndian(Min(FirstLba(request), U32_MAX), 4))
            && w[6] == Write(458, LittleEndian(Min(SectorSpan(request), U32_MAX), 4))
  {
    hide LittleEndian, ChsBytes, FirstLba, SectorSpan, MbrPartitionType;
  }

  method BuildMbr(request: TableRequest) returns (mbr: array<Byte>)
    requires IsSupportedSectorSize(request.sectorSize)
    ensures fresh(mbr) && mbr[..] == MbrImage(request)
  {
    mbr := new Byte[request.sectorSize](_ => 0);
    ghost var writes := MbrWrites(request);
    MbrWritesFit(request);
    MbrRecordWrites(request);
    Started(mbr, writes);
    FillDiskSignature(mbr, request.diskGuid, writes);
    hide Progress, LittleEndian, ChsBytes, FirstLba, SectorSpan, MbrPartitionType, MbrWrites, FitIn, Wrap64;
    WriteBytesField(mbr, 446, [0x00], 1, writes, 1);
    FillMbrRecord(mbr, FirstLba(request), Wrap64(FirstLba(request) + SectorSpan(request) - 1),
                  MbrPartitionType(request.fileSystem), SectorSpan(request), writes);
    WriteBytesField(mbr, 510, BOOT_SIGNATURE, 2, writes, 7);
    Finished(mbr, writes);
  }

  /** Four bytes of the disk identifier, or none when there are fewer. */
  method FillDiskSignature(mbr: array<Byte>, diskGuid: seq<Byte>, ghost writes: seq<Write>)
    requires |writes| == 8 && Progress(mbr, writes, 0) && mbr.Length >= 512
    requires writes[0] == Write(440, if |diskGuid| >= 4 then Left(diskGuid[..4], 4) else [])
    modifies mbr
    ensures Progress(mbr, writes, 1)
  {
    if |diskGuid| >= 4 {
      WriteBytesField(mbr, 440, diskGuid[..4], 4, writes, 0);
    } else {
      NextWrite(Zeros(mbr.Length), writes, 0);
    }
  }

  /** The partition record: both ends in CHS, type, start and length. */
  method FillMbrRecord(mbr: array<Byte>, firstLba: U64, lastLba: U64, partitionType: Byte, sectorSpan: U64,
                       ghost writes: seq<Write>)
    requires |writes| == 8 && Progress(mbr, writes, 2) && mbr.Length >= 512
    requires writes[2] == Write(447, ChsBytes(firstLba)) && writes[3] == Write(450, [partitionType])
    requires writes[4] == Write(451, ChsBytes(lastLba))
    requires writes[5] == Write(454, LittleEndian(Min(firstLba, U32_MAX), 4))
    requires writes[6] == Write(458, LittleEndian(Min(sectorSpan, U32_MAX), 4))
    modifies mbr
    ensures Progress(mbr, writes, 7)
  {
    hide Progress, LittleEndian, ChsBytes;
    WriteChsField(mbr, 447, firstLba, writes, 2);
    WriteBytesField(mbr, 450, [partitionType], 1, writes, 3);
    WriteChsField(mbr, 451, lastLba, writes, 4);
    WriteNumberField(mbr, 454, Min(firstLba, U32_MAX), 4, writes, 5);
    WriteNumberField(mbr, 458, Min(sectorSpan, U32_MAX), 4, writes, 6);
  }
}
