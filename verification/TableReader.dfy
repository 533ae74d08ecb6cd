/** A reader of partition tables, written from sections 5.2.1, 5.2.3, 5.3.2 and
    5.3.3 of the UEFI Specification, version 2.10, and the proof that it accepts
    and decodes what the builders write. */
module TableReader {
  import opened Bytes
  import opened Layout
  import opened Crc32
  import opened Wrappers
  import opened PartitionTable

  function Number(s: seq<Byte>, offset: nat, width: nat): nat
    requires offset + width <= |s|
  {
    FromLittleEndian(s[offset..offset + width])
  }

  // ----- section 5.3.2: the header -----

  datatype GptHeader = GptHeader(
    myLba: nat,
    alternateLba: nat,
    firstUsableLba: nat,
    lastUsableLba: nat,
    diskGuid: seq<Byte>,
    entryLba: nat,
    entryCount: nat,
    entrySize: nat,
    entriesCrc: nat)

  predicate HasValidChecksum(block: seq<Byte>)
    requires |block| >= 92
  {
    var size := Number(block, 12, 4);
    && 92 <= size <= |block|
    && Number(block, 16, 4) == Crc(Splice(block[..size], 16, Zeros(4)))
  }

  function ReadHeader(block: seq<Byte>): Option<GptHeader>
    requires |block| >= 92
  {
    if block[0..8] != [0x45, 0x46, 0x49, 0x20, 0x50, 0x41, 0x52, 0x54] then None
    else if Number(block, 8, 4) != 0x0001_0000 then None
    else if !HasValidChecksum(block) then None
    else if Number(block, 20, 4) != 0 then None
    else
      Some(GptHeader(Number(block, 24, 8), Number(block, 32, 8), Number(block, 40, 8), Number(block, 48, 8),
                     block[56..72], Number(block, 72, 8), Number(block, 80, 4), Number(block, 84, 4), Number(block, 88, 4)))
  }

  // ----- section 5.3.3: the entries -----

  datatype GptEntry = GptEntry(
    typeGuid: seq<Byte>,
    uniqueGuid: seq<Byte>,
    firstLba: nat,
    lastLba: nat,
    attributes: nat,
    name: seq<nat>)

  function ReadName(raw: seq<Byte>, units: nat): (name: seq<nat>)
    requires 2 * units <= |raw|
    ensures |name| == units
  {
    seq(units, i requires 0 <= i < units => Number(raw, 2 * i, 2))
  }

  function ReadEntry(raw: seq<Byte>): GptEntry
    requires |raw| >= 128
  {
    GptEntry(raw[0..16], raw[16..32], Number(raw, 32, 8), Number(raw, 40, 8), Number(raw, 48, 8),
             ReadName(raw[56..128], 36))
  }

  /** The entry in a slot; one with an all-zero type is unused. */
  function UsedSlot(entries: seq<Byte>, size: nat, k: nat): seq<GptEntry>
    requires size >= 128 && k * size + size <= |entries|
  {
    var raw := entries[k * size..k * size + size];
    if raw[0..16] == Zeros(16) then [] else [ReadEntry(raw)]
  }

  function UsedEntries(entries: seq<Byte>, size: nat, count: nat): seq<GptEntry>
    requires size >= 128 && count * size <= |entries|
  {
    if count == 0 then [] else UsedEntries(entries, size, count - 1) + UsedSlot(entries, size, count - 1)
  }

  function Product(a: nat, b: nat): nat
  {
    a * b
  }

  datatype GptTable = GptTable(header: GptHeader, rawEntries: seq<Byte>)

  /** The header at an address and the entry array it points at, if both checksums hold. */
  function ReadTable(disk: seq<Byte>, sector: nat, lba: nat): Option<GptTable>
    requires sector >= 512
  {
    var at := Product(lba, sector);
    if at + sector > |disk| then None
    else
      match ReadHeader(disk[at..at + sector])
      case None => None
      case Some(header) =>
        var start := Product(header.entryLba, sector);
        var length := Product(header.entryCount, header.entrySize);
        if header.myLba != lba || start + length > |disk| then None
        else if Crc(disk[start..start + length]) != header.entriesCrc then None
        else Some(GptTable(header, disk[start..start + length]))
  }

  // ----- section 5.2.3: the protective MBR -----

  predicate HasProtectiveMbr(disk: seq<Byte>, sector: nat)
    requires sector >= 512 && |disk| >= 512
  {
    && disk[510..512] == [0x55, 0xAA]
    && disk[446..450] == [0x00, 0x00, 0x02, 0x00]
    && disk[450..451] == [0xEE]
    && Number(disk, 454, 4) == 1
    && Number(disk, 458, 4) == Min(|disk| / sector - 1, 0xFFFF_FFFF)
    && disk[462..510] == Zeros(48)
  }

  datatype GptDisk = GptDisk(diskGuid: seq<Byte>, firstUsableLba: int, lastUsableLba: int, entries: seq<GptEntry>)

  /** Both tables agree and name each other. */
  predicate TablesAgree(primary: GptTable, backup: GptTable, lastLba: nat)
  {
    var p, b := primary.header, backup.header;
    && p.alternateLba == lastLba && b.alternateLba == 1
    && p.firstUsableLba == b.firstUsableLba && p.lastUsableLba == b.lastUsableLba
    && p.diskGuid == b.diskGuid
    && p.entryCount == b.entryCount && p.entrySize == b.entrySize && p.entriesCrc == b.entriesCrc
    && primary.rawEntries == backup.rawEntries
  }

  /** The tables lie outside the usable addresses. */
  predicate UsableBetweenTables(primary: GptHeader, backup: GptHeader, sector: nat)
  {
    var arrayBytes := primary.entryCount * primary.entrySize;
    && primary.entryLba * sector + arrayBytes <= primary.firstUsableLba * sector
    && primary.firstUsableLba <= primary.lastUsableLba < backup.entryLba
    && backup.entryLba * sector + arrayBytes <= backup.myLba * sector
  }

  /** Every entry lies inside the usable addresses. */
  predicate EntriesUsable(entries: seq<GptEntry>, firstUsableLba: int, lastUsableLba: int)
  {
    forall k :: 0 <= k < |entries| ==> firstUsableLba <= entries[k].firstLba <= entries[k].lastLba <= lastUsableLba
  }

  /** What two agreeing tables say, if the entries are placed where the headers allow them. */
  function ReadTables(primary: GptTable, backup: GptTable, lastLba: nat, sector: nat): Option<GptDisk>
  {
    var header := primary.header;
    if !TablesAgree(primary, backup, lastLba) || !UsableBetweenTables(header, backup.header, sector) then None
    else if header.entrySize < 128 || Product(header.entryCount, header.entrySize) > |primary.rawEntries| then None
    else
      var entries := UsedEntries(primary.rawEntries, header.entrySize, header.entryCount);
      if !EntriesUsable(entries, header.firstUsableLba, header.lastUsableLba) then None
      else Some(GptDisk(header.diskGuid, header.firstUsableLba, header.lastUsableLba, entries))
  }

  function ReadGpt(disk: seq<Byte>, sector: nat): Option<GptDisk>
    requires sector >= 512
  {
    if |disk| < 512 || !HasProtectiveMbr(disk, sector) then None
    else
      match ReadTable(disk, sector, 1)
      case None => None
      case Some(primary) =>
        match ReadTable(disk, sector, primary.header.alternateLba)
        case None => None
        case Some(backup) => ReadTables(primary, backup, |disk| / sector - 1, sector)
  }

  // ----- the header the builders write -----

  lemma FieldKept(s: seq<Byte>, offset: nat, data: seq<Byte>, a: nat, b: nat)
    requires offset + |data| <= |s| && a <= b <= |s|
    requires b <= offset || offset + |data| <= a
    ensures Splice(s, offset, data)[a..b] == s[a..b]
  {}

  lemma HeaderWritesAscend(request: TableRequest, entriesCrc: U32, primary: bool)
    requires CanHoldHeaders(request)
    ensures Ascending(HeaderWrites(request, entriesCrc, primary))
  {
    hide Geometry, LittleEndian;
  }

  function ExpectedHeader(request: TableRequest, primary: bool): GptHeader
    requires CanHoldHeaders(request)
  {
    var lastLba, arraySectors := request.SectorCount() - 1, GptEntryArraySectors(request.sectorSize);
    GptHeader(if primary then 1 else lastLba, if primary then lastLba else 1,
              2 + arraySectors, lastLba - 1 - arraySectors, request.diskGuid,
              if primary then 2 else lastLba - arraySectors, 128, 128, Crc(EntryArray(request)))
  }

  lemma UnsignedHeaderFields(request: TableRequest, crc: U32, primary: bool)
    requires CanHoldHeaders(request) && |request.diskGuid| == 16
    ensures var h, g := UnsignedHeader(request, crc, primary), Geometry(request);
            && h[0..8] == GPT_SIGNATURE
            && h[8..12] == LittleEndian(0x0001_0000, 4)
            && h[12..16] == LittleEndian(GPT_HEADER_SIZE, 4)
            && h[16..20] == LittleEndian(0, 4) && h[20..24] == LittleEndian(0, 4)
            && h[24..32] == LittleEndian(if primary then 1 else g.lastLba, 8)
            && h[32..40] == LittleEndian(if primary then g.lastLba else 1, 8)
  {
    var zeros, writes := Zeros(request.sectorSize), HeaderWrites(request, crc, primary);
    HeaderWritesFit(request, crc, primary);
    HeaderWritesFirst(request, crc, primary);
    HeaderWritesAscend(request, crc, primary);
    hide HeaderWrites, Apply, LittleEndian, Geometry, Ascending, FitIn;
    AscendingFields(zeros, writes);
  }

  lemma UnsignedHeaderRest(request: TableRequest, crc: U32, primary: bool)
    requires CanHoldHeaders(request) && |request.diskGuid| == 16
    ensures var h, g := UnsignedHeader(request, crc, primary), Geometry(request);
            && h[40..48] == LittleEndian(g.firstUsableLba, 8)
            && h[48..56] == LittleEndian(g.lastUsableLba, 8)
            && h[56..72] == request.diskGuid
            && h[72..80] == LittleEndian(if primary then 2 else g.backupEntryLba, 8)
            && h[80..84] == LittleEndian(GPT_ENTRY_COUNT, 4)
            && h[84..88] == LittleEndian(GPT_ENTRY_SIZE, 4)
            && h[88..92] == LittleEndian(crc, 4)
  {
    var zeros, writes := Zeros(request.sectorSize), HeaderWrites(request, crc, primary);
    HeaderWritesFit(request, crc, primary);
    HeaderWritesLast(request, crc, primary);
    HeaderWritesAscend(request, crc, primary);
    hide HeaderWrites, Apply, LittleEndian, Geometry, Ascending, FitIn;
    AscendingFields(zeros, writes);
  }

  /** The finished header differs from the unsigned one in the checksum field alone. */
  lemma SignedHeaderFields(request: TableRequest, primary: bool)
    requires CanHoldHeaders(request)
    ensures var h, u := Header(request, primary), UnsignedHeader(request, Crc(EntryArray(request)), primary);
            && h[16..20] == LittleEndian(Crc(u[..92]), 4)
            && (forall a, b :: 0 <= a <= b <= 16 || 20 <= a <= b <= |u| ==> h[a..b] == u[a..b])
            && (u[16..20] == LittleEndian(0, 4) ==> Splice(h[..92], 16, Zeros(4)) == u[..92])
  {
    hide UnsignedHeader, EntryArray, Crc, Geometry, LittleEndian;
    var u := UnsignedHeader(request, Crc(EntryArray(request)), primary);
    var signature := LittleEndian(Crc(u[..92]), 4);
    var h := Header(request, primary);
    assert |u| >= 92 by {
      HeaderSize(request, primary);
    }
    assert h == Splice(u, 16, signature);
    hide Header;
    forall a, b | 0 <= a <= b <= 16 || 20 <= a <= b <= |u|
      ensures h[a..b] == u[a..b]
    {
      FieldKept(u, 16, signature, a, b);
    }
    UnsignedAgain(u, signature);
  }

  /** Blanking the checksum of a signed header gives the unsigned one. */
  lemma UnsignedAgain(u: seq<Byte>, signature: seq<Byte>)
    requires |u| >= 92 && |signature| == 4
    ensures Splice(u, 16, signature)[16..20] == signature
    ensures u[16..20] == LittleEndian(0, 4) ==> Splice(Splice(u, 16, signature)[..92], 16, Zeros(4)) == u[..92]
  {
    ZeroField();
    hide LittleEndian;
    if u[16..20] == LittleEndian(0, 4) {
      assert forall i :: 16 <= i < 20 ==> u[i] == u[16..20][i - 16] == 0;
    }
  }

  lemma ZeroField()
    ensures LittleEndian(0, 4) == Zeros(4) && LittleEndian(0, 8) == Zeros(8)
  {
    assert LittleEndian(0, 4) == [0] + ([0] + ([0] + ([0] + LittleEndian(0, 0))));
    assert LittleEndian(0, 8) == [0] + ([0] + ([0] + ([0] + LittleEndian(0, 4))));
  }

  lemma HeaderNumbersFirst(request: TableRequest, primary: bool)
    requires CanHoldHeaders(request) && |request.diskGuid| == 16
    ensures var h, e := Header(request, primary), ExpectedHeader(request, primary);
            && h[0..8] == GPT_SIGNATURE
            && Number(h, 8, 4) == 0x0001_0000 && Number(h, 20, 4) == 0
            && Number(h, 24, 8) == e.myLba && Number(h, 32, 8) == e.alternateLba
  {
    hide Header, UnsignedHeader, EntryArray, Crc, LittleEndian, FromLittleEndian, GptEntryArraySectors, HeaderWrites;
    var crc := Crc(EntryArray(request));
    var h, u, g := Header(request, primary), UnsignedHeader(request, crc, primary), Geometry(request);
    UnsignedHeaderFields(request, crc, primary);
    SignedHeaderFields(request, primary);
    assert h[0..8] == u[0..8] && h[8..12] == u[8..12] && h[20..24] == u[20..24];
    Le32RoundTrip(0x0001_0000);
    Le32RoundTrip(0);
    Le64RoundTrip(if primary then 1 else g.lastLba);
    Le64RoundTrip(if primary then g.lastLba else 1);
  }

  lemma HeaderNumbersLast(request: TableRequest, primary: bool)
    requires CanHoldHeaders(request) && |request.diskGuid| == 16
    ensures var h, e := Header(request, primary), ExpectedHeader(request, primary);
            && Number(h, 40, 8) == e.firstUsableLba && Number(h, 48, 8) == e.lastUsableLba
            && h[56..72] == e.diskGuid
            && Number(h, 72, 8) == e.entryLba
            && Number(h, 80, 4) == e.entryCount && Number(h, 84, 4) == e.entrySize
            && Number(h, 88, 4) == e.entriesCrc
  {
    var crc := Crc(EntryArray(request));
    var h, u, g := Header(request, primary), UnsignedHeader(request, crc, primary), Geometry(request);
    UnsignedHeaderRest(request, crc, primary);
    SignedHeaderFields(request, primary);
    hide Header, UnsignedHeader, EntryArray, Crc, LittleEndian, FromLittleEndian, GptEntryArraySectors;
    Le64RoundTrip(g.firstUsableLba);
    Le64RoundTrip(g.lastUsableLba);
    Le64RoundTrip(if primary then 2 else g.backupEntryLba);
    Le32RoundTrip(GPT_ENTRY_COUNT);
    Le32RoundTrip(GPT_ENTRY_SIZE);
    Le32RoundTrip(crc);
  }

  lemma ReadFromFields(block: seq<Byte>, header: GptHeader)
    requires |block| >= 92
    requires block[0..8] == GPT_SIGNATURE && Number(block, 8, 4) == 0x0001_0000
    requires HasValidChecksum(block) && Number(block, 20, 4) == 0
    requires Number(block, 24, 8) == header.myLba && Number(block, 32, 8) == header.alternateLba
    requires Number(block, 40, 8) == header.firstUsableLba && Number(block, 48, 8) == header.lastUsableLba
    requires block[56..72] == header.diskGuid && Number(block, 72, 8) == header.entryLba
    requires Number(block, 80, 4) == header.entryCount && Number(block, 84, 4) == header.entrySize
    requires Number(block, 88, 4) == header.entriesCrc
    ensures ReadHeader(block) == Some(header)
  {
    hide Number, HasValidChecksum;
  }

  /** The reader accepts a built header and finds in it what the geometry says. */
  lemma HeaderIsRead(request: TableRequest, primary: bool)
    requires CanHoldHeaders(request) && |request.diskGuid| == 16
    ensures ReadHeader(Header(request, primary)) == Some(ExpectedHeader(request, primary))
  {
    hide Header, ExpectedHeader, Number, HasValidChecksum, CanHoldHeaders, ReadHeader;
    HeaderSize(request, primary);
    HeaderNumbersFirst(request, primary);
    HeaderNumbersLast(request, primary);
    HeaderChecksum(request, primary, Header(request, primary));
    ReadFromFields(Header(request, primary), ExpectedHeader(request, primary));
  }

  lemma HeaderSize(request: TableRequest, primary: bool)
    requires CanHoldHeaders(request)
    ensures |Header(request, primary)| == request.sectorSize >= 512
  {}

  lemma HeaderChecksum(request: TableRequest, primary: bool, h: seq<Byte>)
    requires CanHoldHeaders(request) && |request.diskGuid| == 16
    requires h == Header(request, primary)
    ensures HasValidChecksum(h)
  {
    var u := UnsignedHeader(request, Crc(EntryArray(request)), primary);
    UnsignedHeaderFields(request, Crc(EntryArray(request)), primary);
    SignedHeaderFields(request, primary);
    hide Header, UnsignedHeader, EntryArray, Crc, LittleEndian, FromLittleEndian, Geometry;
    assert h[12..16] == u[12..16];
    Le32RoundTrip(GPT_HEADER_SIZE);
    Le32RoundTrip(Crc(u[..92]));
  }

  // ----- the entry array the builders write -----

  /** The name field: the first 36 units of the requested name, padded with zeros. */
  function NameField(name: seq<U16>): (units: seq<nat>)
    ensures |units| == 36
  {
    seq(36, i requires 0 <= i < 36 => if i < |name| then name[i] else 0)
  }

  /** An identifier as it is stored, by appendix A: three numbers, lowest byte first, and eight bytes as they are. */
  function StoredGuid(first: U32, second: U16, third: U16, rest: seq<Byte>): (guid: seq<Byte>)
    ensures |guid| == 8 + |rest|
  {
    LittleEndian(first, 4) + LittleEndian(second, 2) + LittleEndian(third, 2) + rest
  }

  /** EBD0A0A2-B9E5-4433-87C0-68B6B72699C7 for what Windows calls basic data, and
      0FC63DAF-8483-4772-8E79-3D69D8477DE4 for a Linux file system. */
  function TypeAsked(fileSystem: FileSystemType): (guid: seq<Byte>)
    ensures |guid| == 16
  {
    match fileSystem
    case Ext4 => StoredGuid(0x0FC6_3DAF, 0x8483, 0x4772, [0x8E, 0x79, 0x3D, 0x69, 0xD8, 0x47, 0x7D, 0xE4])
    case _ => StoredGuid(0xEBD0_A0A2, 0xB9E5, 0x4433, [0x87, 0xC0, 0x68, 0xB6, 0xB7, 0x26, 0x99, 0xC7])
  }

  lemma LowestByteFirst(value: nat, width: nat)
    ensures LittleEndian(value, width + 1) == [value % 256] + LittleEndian(value / 256, width)
  {}

  lemma TwoBytes(value: nat, width: nat)
    ensures LittleEndian(value, width + 2) == [value % 256, value / 256 % 256] + LittleEndian(value / 0x1_0000, width)
  {
    hide LittleEndian;
    LowestByteFirst(value, width + 1);
    LowestByteFirst(value / 256, width);
    assert value / 256 / 256 == value / 0x1_0000;
  }

  lemma FourBytes(value: nat)
    ensures LittleEndian(value, 4) == [value % 256, value / 256 % 256, value / 0x1_0000 % 256, value / 0x1_0000 / 256 % 256]
    ensures LittleEndian(value, 2) == [value % 256, value / 256 % 256]
  {
    hide LittleEndian;
    TwoBytes(value, 2);
    TwoBytes(value / 0x1_0000, 0);
    TwoBytes(value, 0);
  }

  lemma LinuxTypeIsAsked()
    ensures TypeAsked(Ext4) == LINUX_FILESYSTEM_TYPE
  {
    hide LittleEndian;
    FourBytes(0x0FC6_3DAF);
    FourBytes(0x8483);
    FourBytes(0x4772);
  }

  lemma BasicTypeIsAsked()
    ensures TypeAsked(Ntfs) == BASIC_DATA_TYPE
  {
    hide LittleEndian;
    FourBytes(0xEBD0_A0A2);
    FourBytes(0xB9E5);
    FourBytes(0x4433);
  }

  /** The type identifiers are written down in the order they are stored in. */
  lemma TypesAreAsked(fileSystem: FileSystemType)
    ensures GptPartitionType(fileSystem) == TypeAsked(fileSystem) != Zeros(16)
  {
    hide StoredGuid;
    LinuxTypeIsAsked();
    BasicTypeIsAsked();
    assert GptPartitionType(fileSystem)[0] != 0;
  }

  function ExpectedEntry(request: TableRequest): GptEntry
  {
    GptEntry(TypeAsked(request.fileSystem), request.partitionGuid, FirstLba(request), LastLba(request), 0,
             NameField(request.partitionName))
  }

  lemma {:induction false} NameUnit(name: seq<U16>, i: nat)
    requires i < |name|
    ensures NameBytes(name)[2 * i..2 * i + 2] == LittleEndian(name[i], 2)
  {
    var rest := name[..|name| - 1];
    if i < |rest| {
      NameUnit(rest, i);
      assert NameBytes(name)[2 * i..2 * i + 2] == NameBytes(rest)[2 * i..2 * i + 2];
    }
  }

  lemma EntryFields(request: TableRequest)
    requires |request.partitionGuid| == 16
    ensures var e, name := EntryArray(request), Left(request.partitionName, 36);
            && e[0..16] == GptPartitionType(request.fileSystem)
            && e[16..32] == request.partitionGuid
            && e[32..40] == LittleEndian(FirstLba(request), 8)
            && e[40..48] == LittleEndian(LastLba(request), 8)
            && e[48..56] == LittleEndian(0, 8)
            && e[56..56 + 2 * |name|] == NameBytes(name)
  {
    var zeros, writes := Zeros(ENTRY_ARRAY_BYTES), EntryWrites(request);
    EntryWritesFit(request);
    assert Ascending(writes);
    hide EntryWrites, Apply, LittleEndian, NameBytes, FirstLba, LastLba, Ascending, FitIn;
    AscendingFields(zeros, writes);
  }

  lemma EntryPadding(request: TableRequest, i: nat)
    requires 56 + 2 * |Left(request.partitionName, 36)| <= i < ENTRY_ARRAY_BYTES
    ensures EntryArray(request)[i] == 0
  {
    var writes := EntryWrites(request);
    EntryWritesFit(request);
    assert EntryArray(request) == Apply(Zeros(ENTRY_ARRAY_BYTES), writes);
    hide LittleEndian, FirstLba, LastLba, GptPartitionType, EntryWrites;
    assert |writes[5].data| == 2 * |Left(request.partitionName, 36)|;
    assert forall k :: 0 <= k < 6 ==> writes[k].End() <= i;
    AppliedElsewhere(Zeros(ENTRY_ARRAY_BYTES), writes, i);
  }

  lemma ZeroPair(s: seq<Byte>)
    requires |s| == 2 && s[0] == 0 && s[1] == 0
    ensures FromLittleEndian(s) == 0
  {
    assert s[1..][1..] == [];
    assert FromLittleEndian(s[1..]) == s[1] + 256 * FromLittleEndian([]);
  }

  lemma EntryName(request: TableRequest, i: nat)
    requires |request.partitionGuid| == 16 && i < 36
    ensures FromLittleEndian(EntryArray(request)[56 + 2 * i..58 + 2 * i]) == NameField(request.partitionName)[i]
  {
    hide EntryArray, LittleEndian, FromLittleEndian, FirstLba, LastLba, NameBytes, GptPartitionType;
    var e, name := EntryArray(request), Left(request.partitionName, 36);
    if i < |name| {
      EntryFields(request);
      NameUnitRead(name, i);
      SliceOfSlice(e, 56, 56 + 2 * |name|, 2 * i, 2 * i + 2);
    } else {
      EntryPadding(request, 56 + 2 * i);
      EntryPadding(request, 57 + 2 * i);
      ZeroPair(e[56 + 2 * i..58 + 2 * i]);
    }
  }

  lemma NameUnitRead(name: seq<U16>, i: nat)
    requires i < |name|
    ensures FromLittleEndian(NameBytes(name)[2 * i..2 * i + 2]) == name[i]
  {
    NameUnit(name, i);
    FieldBounds();
    LittleEndianRoundTrip(name[i], 2);
  }

  lemma EntryIsRead(request: TableRequest)
    requires |request.partitionGuid| == 16
    ensures ReadEntry(EntryArray(request)[0..128]) == ExpectedEntry(request)
  {
    var e := EntryArray(request);
    var raw := e[0..128];
    EntryFields(request);
    hide EntryArray, LittleEndian, FromLittleEndian, FirstLba, LastLba, NameBytes, GptPartitionType, TypeAsked;
    assert raw[0..16] == e[0..16] && raw[16..32] == e[16..32];
    assert raw[32..40] == e[32..40] && raw[40..48] == e[40..48] && raw[48..56] == e[48..56];
    Le64RoundTrip(FirstLba(request));
    Le64RoundTrip(LastLba(request));
    Le64RoundTrip(0);
    TypesAreAsked(request.fileSystem);
    EntryNameIsRead(request);
  }

  lemma SliceOfSlice(s: seq<Byte>, lo: nat, hi: nat, a: nat, b: nat)
    requires lo <= hi <= |s| && a <= b <= hi - lo
    ensures s[lo..hi][a..b] == s[lo + a..lo + b]
  {
    var whole, part := s[lo..hi], s[lo + a..lo + b];
    assert forall i :: 0 <= i < b - a ==> whole[a..b][i] == whole[a + i] == s[lo + a + i] == part[i];
  }

  lemma EntryNameIsRead(request: TableRequest)
    requires |request.partitionGuid| == 16
    ensures ReadName(EntryArray(request)[0..128][56..128], 36) == NameField(request.partitionName)
  {
    var e := EntryArray(request);
    var field := e[56..128];
    assert e[0..128][56..128] == field;
    hide EntryArray, FromLittleEndian;
    forall i | 0 <= i < 36
      ensures ReadName(field, 36)[i] == NameField(request.partitionName)[i]
    {
      EntryName(request, i);
      SliceOfSlice(e, 56, 128, 2 * i, 2 * i + 2);
    }
  }

  lemma FirstSlotIsUsed(request: TableRequest)
    requires |request.partitionGuid| == 16
    ensures UsedSlot(EntryArray(request), 128, 0) == [ExpectedEntry(request)]
  {
    var e := EntryArray(request);
    EntryIsRead(request);
    EntryFields(request);
    hide EntryArray, ReadEntry, ExpectedEntry, NameBytes, LittleEndian, FirstLba, LastLba;
    SliceOfSlice(e, 0, 128, 0, 16);
    assert e[0..16][0] != 0;
  }

  lemma LaterSlotIsUnused(request: TableRequest, k: nat)
    requires 1 <= k < 128
    ensures UsedSlot(EntryArray(request), 128, k) == []
  {
    var e := EntryArray(request);
    hide EntryArray, ReadEntry;
    forall i | k * 128 <= i < k * 128 + 16
      ensures e[i] == 0
    {
      EntryPadding(request, i);
    }
    SliceOfSlice(e, k * 128, k * 128 + 128, 0, 16);
    assert e[k * 128..k * 128 + 16] == Zeros(16);
  }

  /** The array holds the requested entry and no other. */
  lemma {:induction false} OneUsedEntry(request: TableRequest, count: nat)
    requires |request.partitionGuid| == 16 && 1 <= count <= 128
    ensures UsedEntries(EntryArray(request), 128, count) == [ExpectedEntry(request)]
  {
    hide EntryArray, ExpectedEntry, UsedSlot;
    if count == 1 {
      FirstSlotIsUsed(request);
      assert UsedEntries(EntryArray(request), 128, 0) == [];
    } else {
      OneUsedEntry(request, count - 1);
      LaterSlotIsUnused(request, count - 1);
    }
  }

  // ----- the whole disk -----

  /** A disk with both images of a request where the restore puts them. */
  ghost predicate HoldsGpt(disk: seq<Byte>, request: TableRequest)
    requires CanHoldHeaders(request)
  {
    var primary, backup, offset := GptPrimary(request), GptBackup(request), GptBackupOffset(request);
    && |disk| == request.diskSize
    && |primary| <= |disk| && disk[..|primary|] == primary
    && offset + |backup| <= |disk| && disk[offset..offset + |backup|] == backup
  }

  /** Where the tables lie, in bytes. */
  lemma TablePlaces(request: TableRequest)
    requires CanHoldHeaders(request)
    ensures var sector, arrayBytes, lastLba := request.sectorSize, ENTRY_ARRAY_BYTES, request.SectorCount() - 1;
            var arraySectors := GptEntryArraySectors(sector);
            && lastLba * sector + sector <= request.diskSize
            && arraySectors * sector == arrayBytes
            && GptBackupOffset(request) == (lastLba - arraySectors) * sector
            && GptBackupOffset(request) + arrayBytes == lastLba * sector
            && 2 * sector + arrayBytes == (2 + arraySectors) * sector
  {
    var sector, lastLba, arraySectors := request.sectorSize, request.SectorCount() - 1, GptEntryArraySectors(request.sectorSize);
    assert GptBackupOffset(request) == (lastLba - arraySectors) * sector;
    WholeSectorsFit(request, lastLba + 1);
    hide GptBackupOffset, GptEntryArraySectors, Geometry;
    assert (lastLba - arraySectors) * sector + arraySectors * sector == lastLba * sector;
    assert (lastLba + 1) * sector == lastLba * sector + sector;
    assert (2 + arraySectors) * sector == 2 * sector + arraySectors * sector;
  }

  /** Three parts of an image found at an offset are found behind one another. */
  lemma PartsOnDisk(disk: seq<Byte>, offset: nat, a: seq<Byte>, b: seq<Byte>, c: seq<Byte>)
    requires offset + |a| + |b| + |c| <= |disk|
    requires disk[offset..offset + |a| + |b| + |c|] == a + b + c
    ensures disk[offset..offset + |a|] == a
    ensures disk[offset + |a|..offset + |a| + |b|] == b
    ensures disk[offset + |a| + |b|..offset + |a| + |b| + |c|] == c
  {
    var image := a + b + c;
    assert image[0..|a|] == a && image[|a|..|a| + |b|] == b && image[|a| + |b|..|image|] == c;
    SliceOfSlice(disk, offset, offset + |image|, 0, |a|);
    SliceOfSlice(disk, offset, offset + |image|, |a|, |a| + |b|);
    SliceOfSlice(disk, offset, offset + |image|, |a| + |b|, |image|);
  }

  lemma PrimaryOnDisk(disk: seq<Byte>, request: TableRequest)
    requires CanHoldHeaders(request) && HoldsGpt(disk, request)
    ensures var sector := request.sectorSize;
            && 2 * sector + ENTRY_ARRAY_BYTES <= |disk|
            && disk[..sector] == ProtectiveMbr(request)
            && disk[sector..2 * sector] == Header(request, true)
            && disk[2 * sector..2 * sector + ENTRY_ARRAY_BYTES] == EntryArray(request)
  {
    hide ProtectiveMbr, Header, EntryArray, GptBackup, GptBackupOffset, Geometry, IsSupportedSectorSize;
    var sector, primary := request.sectorSize, GptPrimary(request);
    assert disk[..|primary|] == disk[0..|primary|];
    assert primary == ProtectiveMbr(request) + Header(request, true) + EntryArray(request);
    hide GptPrimary, HoldsGpt;
    PartsOnDisk(disk, 0, ProtectiveMbr(request), Header(request, true), EntryArray(request));
    assert disk[0..sector] == disk[..sector];
  }

  lemma BackupOnDisk(disk: seq<Byte>, request: TableRequest)
    requires CanHoldHeaders(request) && HoldsGpt(disk, request)
    ensures var sector, offset := request.sectorSize, GptBackupOffset(request);
            && offset + ENTRY_ARRAY_BYTES + sector <= |disk|
            && disk[offset..offset + ENTRY_ARRAY_BYTES] == EntryArray(request)
            && disk[offset + ENTRY_ARRAY_BYTES..offset + ENTRY_ARRAY_BYTES + sector] == Header(request, false)
  {
    hide Header, EntryArray, GptPrimary, GptBackupOffset, Geometry, IsSupportedSectorSize;
    var backup := GptBackup(request);
    assert backup == EntryArray(request) + Header(request, false) + [];
    hide GptBackup, HoldsGpt;
    PartsOnDisk(disk, GptBackupOffset(request), EntryArray(request), Header(request, false), []);
  }

  /** A header that reads well, at the address it names, with the array it names. */
  lemma TableIsRead(disk: seq<Byte>, sector: nat, lba: nat, header: GptHeader, at: nat, start: nat, length: nat)
    requires sector >= 512 && lba * sector == at && at + sector <= |disk|
    requires ReadHeader(disk[at..at + sector]) == Some(header) && header.myLba == lba
    requires header.entryLba * sector == start && header.entryCount * header.entrySize == length
    requires start + length <= |disk| && Crc(disk[start..start + length]) == header.entriesCrc
    ensures ReadTable(disk, sector, lba) == Some(GptTable(header, disk[start..start + length]))
  {
    hide ReadHeader, Crc;
  }

  lemma PrimaryIsRead(disk: seq<Byte>, request: TableRequest)
    requires CanHoldHeaders(request) && |request.diskGuid| == 16 && HoldsGpt(disk, request)
    ensures ReadTable(disk, request.sectorSize, 1)
         == Some(GptTable(ExpectedHeader(request, true), EntryArray(request)))
  {
    var sector := request.sectorSize;
    PrimaryOnDisk(disk, request);
    HeaderIsRead(request, true);
    hide HoldsGpt, Header, EntryArray, ReadHeader, ReadTable, Crc, ProtectiveMbr, Geometry;
    TableIsRead(disk, sector, 1, ExpectedHeader(request, true), sector, 2 * sector, ENTRY_ARRAY_BYTES);
  }

  lemma BackupIsRead(disk: seq<Byte>, request: TableRequest)
    requires CanHoldHeaders(request) && |request.diskGuid| == 16 && HoldsGpt(disk, request)
    ensures ReadTable(disk, request.sectorSize, request.SectorCount() - 1)
         == Some(GptTable(ExpectedHeader(request, false), EntryArray(request)))
  {
    hide HoldsGpt, Header, EntryArray, ReadHeader, ReadTable, Crc, GptBackupOffset, Geometry, GptEntryArraySectors;
    hide ExpectedHeader;
    var offset := GptBackupOffset(request);
    BackupOnDisk(disk, request);
    HeaderIsRead(request, false);
    BackupPlaces(request);
    TableIsRead(disk, request.sectorSize, request.SectorCount() - 1, ExpectedHeader(request, false),
                offset + ENTRY_ARRAY_BYTES, offset, ENTRY_ARRAY_BYTES);
  }

  /** What the backup header says about places, in bytes. */
  lemma BackupPlaces(request: TableRequest)
    requires CanHoldHeaders(request)
    ensures var header, offset := ExpectedHeader(request, false), GptBackupOffset(request);
            && header.myLba == request.SectorCount() - 1 >= 0 && header.entriesCrc == Crc(EntryArray(request))
            && (request.SectorCount() - 1) * request.sectorSize == offset + ENTRY_ARRAY_BYTES
            && header.entryLba * request.sectorSize == offset
            && header.entryCount * header.entrySize == ENTRY_ARRAY_BYTES
  {
    TablePlaces(request);
    hide EntryArray, Crc, GptBackupOffset, Geometry, GptEntryArraySectors;
  }

  lemma ProtectiveWritesFit(request: TableRequest)
    requires CanHoldHeaders(request)
    ensures var w := ProtectiveWrites(request);
            && |w| == 4 && FitIn(w, request.sectorSize) && Ascending(w)
            && w[0] == Write(446, PROTECTIVE_RECORD) && w[1] == Write(454, LittleEndian(1, 4))
            && w[2] == Write(458, LittleEndian(Min(request.SectorCount() - 1, U32_MAX), 4))
            && w[3] == Write(510, BOOT_SIGNATURE)
            && |PROTECTIVE_RECORD| == 8 && |BOOT_SIGNATURE| == 2
  {
    assert request.SectorCount() > 0;
    hide LittleEndian, Wrap64, Geometry;
    WrapKeeps(request.SectorCount() - 1);
  }

  lemma ProtectiveFields(request: TableRequest)
    requires CanHoldHeaders(request)
    ensures var m := ProtectiveMbr(request);
            && m[446..454] == PROTECTIVE_RECORD
            && m[454..458] == LittleEndian(1, 4)
            && m[458..462] == LittleEndian(Min(request.SectorCount() - 1, U32_MAX), 4)
            && m[510..512] == BOOT_SIGNATURE
            && (forall i :: 462 <= i < 510 ==> m[i] == 0)
  {
    hide LittleEndian, Wrap64, Geometry, Apply, ProtectiveWrites, Ascending, FitIn;
    var writes, zeros := ProtectiveWrites(request), Zeros(request.sectorSize);
    ProtectiveWritesFit(request);
    AscendingFields(zeros, writes);
    forall i | 462 <= i < 510
      ensures Apply(zeros, writes)[i] == 0
    {
      AppliedElsewhere(zeros, writes, i);
    }
  }

  lemma ProtectiveRecordRead(disk: seq<Byte>, sector: nat, m: seq<Byte>, sectors: U32)
    requires 512 <= sector == |m| <= |disk| && disk[0..sector] == m
    requires m[446..454] == PROTECTIVE_RECORD && m[454..458] == LittleEndian(1, 4)
    requires m[458..462] == LittleEndian(sectors, 4) && m[510..512] == BOOT_SIGNATURE
    ensures disk[446..450] == [0x00, 0x00, 0x02, 0x00] && disk[450..451] == [0xEE] && disk[510..512] == [0x55, 0xAA]
    ensures Number(disk, 454, 4) == 1 && Number(disk, 458, 4) == sectors
  {
    hide LittleEndian, FromLittleEndian;
    var record: seq<Byte> := PROTECTIVE_RECORD;
    assert record[0..4] == [0x00, 0x00, 0x02, 0x00] && record[4..5] == [0xEE];
    Le32RoundTrip(1);
    Le32RoundTrip(sectors);
    SliceOfSlice(disk, 0, sector, 446, 454);
    SliceOfSlice(disk, 446, 454, 0, 4);
    SliceOfSlice(disk, 446, 454, 4, 5);
    SliceOfSlice(disk, 0, sector, 454, 458);
    SliceOfSlice(disk, 0, sector, 458, 462);
    SliceOfSlice(disk, 0, sector, 510, 512);
  }

  lemma ProtectiveIsRead(disk: seq<Byte>, request: TableRequest)
    requires CanHoldHeaders(request) && |disk| == request.diskSize
    requires request.sectorSize <= |disk| && disk[..request.sectorSize] == ProtectiveMbr(request)
    ensures |disk| >= 512 && HasProtectiveMbr(disk, request.sectorSize)
  {
    hide ProtectiveMbr, LittleEndian, FromLittleEndian, Geometry;
    var sector, m := request.sectorSize, ProtectiveMbr(request);
    ProtectiveFields(request);
    assert disk[..sector] == disk[0..sector];
    ProtectiveRecordRead(disk, sector, m, Min(request.SectorCount() - 1, U32_MAX));
    assert disk[462..510] == Zeros(48) by {
      assert forall i :: 462 <= i < 510 ==> disk[i] == m[i];
    }
    hide Number;
  }

  function ExpectedDisk(request: TableRequest): GptDisk
  {
    var arraySectors := GptEntryArraySectors(request.sectorSize);
    GptDisk(request.diskGuid, 2 + arraySectors, request.SectorCount() - 2 - arraySectors, [ExpectedEntry(request)])
  }

  lemma ExpectedTablesAgree(request: TableRequest)
    requires CanHoldHeaders(request)
    ensures TablesAgree(GptTable(ExpectedHeader(request, true), EntryArray(request)),
                        GptTable(ExpectedHeader(request, false), EntryArray(request)), request.SectorCount() - 1)
  {
    hide EntryArray, Crc, GptEntryArraySectors, Geometry;
  }

  lemma ExpectedTablesApart(request: TableRequest)
    requires CanHoldHeaders(request)
    requires 2 + GptEntryArraySectors(request.sectorSize) <= request.SectorCount() - 2 - GptEntryArraySectors(request.sectorSize)
    ensures UsableBetweenTables(ExpectedHeader(request, true), ExpectedHeader(request, false), request.sectorSize)
  {
    TablePlaces(request);
    hide EntryArray, Crc, GptEntryArraySectors, Geometry, GptBackupOffset;
  }

  lemma OneEntryUsable(entry: GptEntry, firstUsableLba: int, lastUsableLba: int)
    requires firstUsableLba <= entry.firstLba && entry.lastLba <= lastUsableLba
    ensures EntriesUsable([entry], firstUsableLba, lastUsableLba) <==> entry.firstLba <= entry.lastLba
  {
    assert [entry][0] == entry;
  }

  lemma AgreedTables(p: GptHeader, b: GptHeader, raw: seq<Byte>, lastLba: nat, sector: nat, entry: GptEntry)
    requires TablesAgree(GptTable(p, raw), GptTable(b, raw), lastLba)
    requires p.entrySize == p.entryCount == 128 && |raw| == ENTRY_ARRAY_BYTES && UsedEntries(raw, 128, 128) == [entry]
    requires EntriesUsable([entry], p.firstUsableLba, p.lastUsableLba) ==> UsableBetweenTables(p, b, sector)
    ensures ReadTables(GptTable(p, raw), GptTable(b, raw), lastLba, sector)
         == if !EntriesUsable([entry], p.firstUsableLba, p.lastUsableLba) then None
            else Some(GptDisk(p.diskGuid, p.firstUsableLba, p.lastUsableLba, [entry]))
  {
    hide TablesAgree, UsableBetweenTables, EntriesUsable, UsedEntries;
  }

  lemma WrappedEntryPlaced(request: TableRequest)
    requires Gated(request) && request.style == Gpt && !request.EndFits()
    ensures LastLba(request) < FirstLba(request)
    ensures LastLba(request) <= request.SectorCount() - 2 - GptEntryArraySectors(request.sectorSize)
  {
    var layout := request.layout;
    GateChecks(request);
    hide GptEntryArraySectors, Geometry, Gated, IsSupportedSectorSize;
    WrapOnce(layout.startOffset + layout.length);
    SectorsMonotone(request.sectorSize, request.MachineEnd(), layout.startOffset);
    WrapBelow(request.MachineEnd() / request.sectorSize);
  }

  /** The entry as the reader sees it, in sectors. */
  lemma EntryPlaced(request: TableRequest)
    requires Gated(request) && request.style == Gpt
    ensures var arraySectors := GptEntryArraySectors(request.sectorSize);
            && 2 + arraySectors <= FirstLba(request)
            && LastLba(request) <= request.SectorCount() - 2 - arraySectors
            && (FirstLba(request) <= LastLba(request) <==> request.EndFits())
  {
    hide GptEntryArraySectors, Geometry, Gated, IsSupportedSectorSize, Wrap64, FirstLba, LastLba;
    FirstLbaPlaced(request);
    if request.EndFits() {
      FittingEntryPlaced(request);
    } else {
      WrappedEntryPlaced(request);
    }
  }

  lemma FirstLbaPlaced(request: TableRequest)
    requires Gated(request) && request.style == Gpt
    ensures FirstLba(request) == request.layout.startOffset / request.sectorSize
    ensures 2 + GptEntryArraySectors(request.sectorSize) <= FirstLba(request)
  {
    GateChecks(request);
    hide GptEntryArraySectors, Geometry, Gated, WriteGate;
  }

  lemma FittingEntryPlaced(request: TableRequest)
    requires Gated(request) && request.style == Gpt && request.EndFits()
    ensures FirstLba(request) <= LastLba(request)
    ensures LastLba(request) <= request.SectorCount() - 2 - GptEntryArraySectors(request.sectorSize)
  {
    hide GptEntryArraySectors, Geometry, Gated, IsSupportedSectorSize, Wrap64, LastLba;
    FirstLbaPlaced(request);
    GatedInSectors(request);
    LastLbaInSectors(request);
  }

  lemma LastLbaInSectors(request: TableRequest)
    requires Gated(request) && request.EndFits()
    ensures LastLba(request) == request.layout.startOffset / request.sectorSize + request.layout.length / request.sectorSize - 1
  {
    hide Gated, Wrap64;
    LastLbaOfEnd(request);
    GateChecks(request);
    hide GptEntryArraySectors, Geometry, IsSupportedSectorSize;
    LastOfSectors(request.sectorSize, request.layout.startOffset, request.layout.length);
  }

  lemma LastLbaOfEnd(request: TableRequest)
    requires Gated(request) && request.EndFits()
    ensures LastLba(request) == Wrap64((request.layout.startOffset + request.layout.length) / request.sectorSize - 1)
  {
    hide Gated, Wrap64, Geometry, GptEntryArraySectors, WriteGate;
    WrapKeeps(request.layout.startOffset + request.layout.length);
    GatedSector(request);
  }

  lemma GatedSector(request: TableRequest)
    requires Gated(request)
    ensures request.Sector() == request.sectorSize >= 512
  {
    GateChecks(request);
    hide Gated, Wrap64, Geometry, GptEntryArraySectors, WriteGate;
  }

  lemma LastOfSectors(sector: U32, start: U64, length: U64)
    requires IsSupportedSectorSize(sector) && length > 0
    requires start % sector == 0 && length % sector == 0 && start + length < TWO_TO_64
    ensures Wrap64((start + length) / sector - 1) == start / sector + length / sector - 1
  {
    hide Wrap64, IsSupportedSectorSize;
    EndInSectors(sector, start, length);
  }

  lemma WrapOnce(x: int)
    requires TWO_TO_64 <= x < 2 * TWO_TO_64
    ensures Wrap64(x) == x - TWO_TO_64
  {}

  lemma WrapBelow(x: U64)
    ensures Wrap64(x - 1) == if x == 0 then TWO_TO_64 - 1 else x - 1
  {}

  lemma ExpectedContents(request: TableRequest)
    requires CanHoldHeaders(request)
    ensures var p := ExpectedHeader(request, true);
            && p.entrySize == p.entryCount == 128
            && ExpectedDisk(request) == GptDisk(p.diskGuid, p.firstUsableLba, p.lastUsableLba, [ExpectedEntry(request)])
  {
    hide ExpectedEntry, EntryArray, Crc, GptEntryArraySectors, Geometry;
  }

  lemma ExpectedEntryUsable(request: TableRequest)
    requires Gated(request) && request.style == Gpt && CanHoldHeaders(request)
    ensures var p := ExpectedHeader(request, true);
            && (EntriesUsable([ExpectedEntry(request)], p.firstUsableLba, p.lastUsableLba) <==> request.EndFits())
            && (request.EndFits() ==> UsableBetweenTables(p, ExpectedHeader(request, false), request.sectorSize))
  {
    var p := ExpectedHeader(request, true);
    EntryPlaced(request);
    hide Gated, EntryArray, Crc, GptEntryArraySectors, Geometry, FirstLba, LastLba, UsableBetweenTables, EntriesUsable;
    OneEntryUsable(ExpectedEntry(request), p.firstUsableLba, p.lastUsableLba);
    if request.EndFits() {
      ExpectedTablesApart(request);
    }
  }

  /** The two tables agree, and the entry is usable exactly when the end of the partition does not wrap. */
  lemma TablesAreRead(request: TableRequest)
    requires Gated(request) && request.style == Gpt && CanHoldHeaders(request)
    ensures var p, b := GptTable(ExpectedHeader(request, true), EntryArray(request)),
                        GptTable(ExpectedHeader(request, false), EntryArray(request));
            ReadTables(p, b, request.SectorCount() - 1, request.sectorSize)
            == if request.EndFits() then Some(ExpectedDisk(request)) else None
  {
    var p, b := ExpectedHeader(request, true), ExpectedHeader(request, false);
    ExpectedTablesAgree(request);
    OneUsedEntry(request, 128);
    ExpectedEntryUsable(request);
    ExpectedContents(request);
    hide Gated, CanHoldHeaders, EntryArray, ExpectedHeader, ExpectedEntry, ExpectedDisk, UsedEntries, ReadTables;
    hide TablesAgree, UsableBetweenTables, EntriesUsable;
    AgreedTables(p, b, EntryArray(request), request.SectorCount() - 1, request.sectorSize, ExpectedEntry(request));
  }

  /** A disk holding both images of a gated request reads back as that request exactly when its end does not wrap. */
  lemma GptIsReadBack(disk: seq<Byte>, request: TableRequest)
    requires Gated(request) && request.style == Gpt
    requires CanHoldHeaders(request) && HoldsGpt(disk, request)
    ensures ReadGpt(disk, request.sectorSize) == if request.EndFits() then Some(ExpectedDisk(request)) else None
  {
    hide Gated, ReadTable, ReadTables, HasProtectiveMbr, EntryArray, Geometry, ExpectedDisk, HoldsGpt, CanHoldHeaders;
    hide ProtectiveMbr, Header;
    ReadableDisk(disk, request);
    GateChecks(request);
    PrimaryIsRead(disk, request);
    BackupIsRead(disk, request);
    PrimaryHeaderPlace(request);
    TablesAreRead(request);
  }

  lemma ReadableDisk(disk: seq<Byte>, request: TableRequest)
    requires CanHoldHeaders(request) && HoldsGpt(disk, request)
    ensures request.sectorSize >= 512 && |disk| >= 512 && HasProtectiveMbr(disk, request.sectorSize)
    ensures |disk| / request.sectorSize == request.SectorCount()
  {
    hide HasProtectiveMbr, EntryArray, Geometry, ProtectiveMbr, Header, GptPrimary, GptBackup, GptBackupOffset;
    PrimaryOnDisk(disk, request);
    ProtectiveIsRead(disk, request);
  }

  lemma PrimaryHeaderPlace(request: TableRequest)
    requires CanHoldHeaders(request)
    ensures ExpectedHeader(request, true).alternateLba == request.SectorCount() - 1 >= 0
  {
    hide EntryArray, Crc, GptEntryArraySectors;
  }
}
