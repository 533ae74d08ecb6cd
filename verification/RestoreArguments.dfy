/** The helper's arguments: how a restore request is put on a command line, and what
    a command line is taken to claim. */
module RestoreArguments {
  import opened Bytes
  import opened Wrappers
  import opened MountPaths
  import opened Text
  import opened Layout
  import opened RestoreTarget

  const MAX_DEVICE_NAME: nat := 64
  const MAX_VOLUME_LABEL: nat := 11
  const U64_MAX: int := TWO_TO_64 - 1

  // "--device"
  const DEVICE: Text := [0x2D, 0x2D, 0x64, 0x65, 0x76, 0x69, 0x63, 0x65]
  // "--style"
  const STYLE: Text := [0x2D, 0x2D, 0x73, 0x74, 0x79, 0x6C, 0x65]
  // "--filesystem"
  const FILE_SYSTEM: Text := [0x2D, 0x2D, 0x66, 0x69, 0x6C, 0x65, 0x73, 0x79, 0x73, 0x74, 0x65, 0x6D]
  // "--label"
  const LABEL: Text := [0x2D, 0x2D, 0x6C, 0x61, 0x62, 0x65, 0x6C]
  // "--expect-size"
  const EXPECT_SIZE: Text := [0x2D, 0x2D, 0x65, 0x78, 0x70, 0x65, 0x63, 0x74, 0x2D, 0x73, 0x69, 0x7A, 0x65]
  // "--expect-sector-size"
  const EXPECT_SECTOR_SIZE: Text :=
    [0x2D, 0x2D, 0x65, 0x78, 0x70, 0x65, 0x63, 0x74, 0x2D, 0x73,
     0x65, 0x63, 0x74, 0x6F, 0x72, 0x2D, 0x73, 0x69, 0x7A, 0x65]
  // "--expect-sequence"
  const EXPECT_SEQUENCE: Text :=
    [0x2D, 0x2D, 0x65, 0x78, 0x70, 0x65, 0x63, 0x74,
     0x2D, 0x73, 0x65, 0x71, 0x75, 0x65, 0x6E, 0x63, 0x65]
  // "--expect-serial"
  const EXPECT_SERIAL: Text :=
    [0x2D, 0x2D, 0x65, 0x78, 0x70, 0x65, 0x63,
     0x74, 0x2D, 0x73, 0x65, 0x72, 0x69, 0x61, 0x6C]
  // "--expect-unique-id"
  const EXPECT_UNIQUE_ID: Text :=
    [0x2D, 0x2D, 0x65, 0x78, 0x70, 0x65, 0x63, 0x74, 0x2D,
     0x75, 0x6E, 0x69, 0x71, 0x75, 0x65, 0x2D, 0x69, 0x64]
  // "--expect-path"
  const EXPECT_PATH: Text := [0x2D, 0x2D, 0x65, 0x78, 0x70, 0x65, 0x63, 0x74, 0x2D, 0x70, 0x61, 0x74, 0x68]
  // "--expect-name"
  const EXPECT_NAME: Text := [0x2D, 0x2D, 0x65, 0x78, 0x70, 0x65, 0x63, 0x74, 0x2D, 0x6E, 0x61, 0x6D, 0x65]
  // "--language"
  const LANGUAGE: Text := [0x2D, 0x2D, 0x6C, 0x61, 0x6E, 0x67, 0x75, 0x61, 0x67, 0x65]
  // "mbr"
  const MBR_WORD: Text := [0x6D, 0x62, 0x72]
  // "gpt"
  const GPT_WORD: Text := [0x67, 0x70, 0x74]
  // "exfat"
  const EXFAT_WORD: Text := [0x65, 0x78, 0x66, 0x61, 0x74]
  // "fat32"
  const FAT32_WORD: Text := [0x66, 0x61, 0x74, 0x33, 0x32]
  // "ntfs"
  const NTFS_WORD: Text := [0x6E, 0x74, 0x66, 0x73]
  // "ext4"
  const EXT4_WORD: Text := [0x65, 0x78, 0x74, 0x34]
  // "de"
  const GERMAN_WORD: Text := [0x64, 0x65]
  // "en"
  const ENGLISH_WORD: Text := [0x65, 0x6E]

  datatype Language = English | German
  // What the user chose; following the system is a choice too.
  datatype LanguagePreference = FollowSystem | Fixed(language: Language)

  datatype Flag =
    | DeviceFlag
    | StyleFlag
    | FileSystemFlag
    | LabelFlag
    | SizeFlag
    | SectorSizeFlag
    | SequenceFlag
    | SerialFlag
    | UniqueIdFlag
    | PathFlag
    | NameFlag
    | LanguageFlag

  function Spelling(flag: Flag): Text
  {
    match flag
    case DeviceFlag => DEVICE
    case StyleFlag => STYLE
    case FileSystemFlag => FILE_SYSTEM
    case LabelFlag => LABEL
    case SizeFlag => EXPECT_SIZE
    case SectorSizeFlag => EXPECT_SECTOR_SIZE
    case SequenceFlag => EXPECT_SEQUENCE
    case SerialFlag => EXPECT_SERIAL
    case UniqueIdFlag => EXPECT_UNIQUE_ID
    case PathFlag => EXPECT_PATH
    case NameFlag => EXPECT_NAME
    case LanguageFlag => LANGUAGE
  }

  lemma SpellingFacts(flag: Flag)
    ensures |Spelling(flag)| == match flag
            case DeviceFlag => 8 case StyleFlag => 7 case FileSystemFlag => 12 case LabelFlag => 7 case SizeFlag => 13
            case SectorSizeFlag => 20 case SequenceFlag => 17 case SerialFlag => 15 case UniqueIdFlag => 18
            case PathFlag => 13 case NameFlag => 13 case LanguageFlag => 10
    ensures flag == StyleFlag ==> Spelling(flag)[2] == 0x73
    ensures flag == LabelFlag ==> Spelling(flag)[2] == 0x6C
    ensures flag == SizeFlag ==> Spelling(flag)[9] == 0x73
    ensures flag == PathFlag ==> Spelling(flag)[9] == 0x70
    ensures flag == NameFlag ==> Spelling(flag)[9] == 0x6E
  {}

  /** No two flags are spelled alike. */
  lemma SpellingsDiffer(a: Flag, b: Flag)
    ensures Spelling(a) == Spelling(b) ==> a == b
  {
    SpellingFacts(a);
    SpellingFacts(b);
    hide Spelling;
  }

  const ALL_FLAGS: seq<Flag> :=
    [ DeviceFlag, StyleFlag, FileSystemFlag, LabelFlag, SizeFlag, SectorSizeFlag, SequenceFlag, SerialFlag, UniqueIdFlag,
      PathFlag, NameFlag, LanguageFlag ]

  function FlagAmong(t: Text, flags: seq<Flag>): Option<Flag>
  {
    if flags == [] then None
    else if t == Spelling(flags[0]) then Some(flags[0])
    else FlagAmong(t, flags[1..])
  }

  function FlagOf(t: Text): Option<Flag>
  {
    FlagAmong(t, ALL_FLAGS)
  }

  lemma {:induction false} FlagIsFound(flag: Flag, flags: seq<Flag>)
    requires flag in flags
    ensures FlagAmong(Spelling(flag), flags) == Some(flag)
  {
    hide Spelling;
    SpellingsDiffer(flag, flags[0]);
    if flag != flags[0] {
      FlagIsFound(flag, flags[1..]);
    }
  }

  lemma FlagOfSpelling(flag: Flag)
    ensures FlagOf(Spelling(flag)) == Some(flag)
  {
    assert flag in ALL_FLAGS by {
      var k := match flag
               case DeviceFlag => 0 case StyleFlag => 1 case FileSystemFlag => 2 case LabelFlag => 3 case SizeFlag => 4
               case SectorSizeFlag => 5 case SequenceFlag => 6 case SerialFlag => 7 case UniqueIdFlag => 8
               case PathFlag => 9 case NameFlag => 10 case LanguageFlag => 11;
      assert ALL_FLAGS[k] == flag;
    }
    hide Spelling;
    FlagIsFound(flag, ALL_FLAGS);
  }

  // ----- values -----

  predicate AllDigits(t: Text)
  {
    forall i :: 0 <= i < |t| ==> IsDigit(t[i], 10)
  }

  /** Plain digits with a value up to `maximum`; no sign and no spaces. */
  function DecimalOf(t: Text, maximum: nat): Option<nat>
  {
    if t == [] || !AllDigits(t) || DigitsValue(t, 10) > maximum then None else Some(DigitsValue(t, 10))
  }

  lemma DecimalIsRead(n: nat, maximum: nat)
    ensures DecimalOf(Decimal(n), maximum) == if n <= maximum then Some(n) else None
  {
    DecimalValue(n);
    hide Decimal, DigitsValue;
  }

  lemma {:induction false} DigitsValueGrows(t: Text, k: nat)
    requires AllDigits(t) && k <= |t|
    ensures AllDigits(t[..k]) && DigitsValue(t[..k], 10) <= DigitsValue(t, 10)
    decreases |t| - k
  {
    if k < |t| {
      DigitsValueGrows(t, k + 1);
      assert t[..k + 1][..k] == t[..k];
    } else {
      assert t[..k] == t;
    }
  }

  method ParseDecimal(text: Text, maximum: nat) returns (value: Option<nat>)
    requires maximum >= 9
    ensures value == DecimalOf(text, maximum)
  {
    if text == [] {
      return None;
    }
    var result := 0;
    for k := 0 to |text|
      invariant AllDigits(text[..k]) && result == DigitsValue(text[..k], 10) <= maximum
    {
      if !IsDigit(text[k], 10) {
        return None;
      }
      var digit: nat := text[k] as int - 0x30;
      assert text[..k + 1][..k] == text[..k];
      if result > (maximum - digit) / 10 {
        if AllDigits(text) {
          DigitsValueGrows(text, k + 1);
        }
        return None;
      }
      result := result * 10 + digit;
    }
    assert text[..|text|] == text;
    return Some(result);
  }

  predicate IsAsciiLetterOrDigit(u: CodeUnit)
  {
    0x30 <= u <= 0x39 || 0x41 <= u <= 0x5A || 0x61 <= u <= 0x7A
  }

  // "/dev/"
  const DEVICE_PREFIX: Text := [0x2F, 0x64, 0x65, 0x76, 0x2F]

  predicate IsPlausibleDeviceNodePath(path: Text)
  {
    && DEVICE_PREFIX <= path
    && 0 < |path| - 5 <= MAX_DEVICE_NAME
    && forall i :: 5 <= i < |path| ==> IsAsciiLetterOrDigit(path[i]) || path[i] == 0x5F || path[i] == 0x2D
  }

  predicate IsValidVolumeLabel(volumeLabel: Text)
  {
    && 0 < |volumeLabel| <= MAX_VOLUME_LABEL && volumeLabel[0] != 0x2D && Trimmed(volumeLabel) == volumeLabel
    && forall i :: 0 <= i < |volumeLabel| ==> IsAsciiLetterOrDigit(volumeLabel[i]) || volumeLabel[i] == 0x20 || volumeLabel[i] == 0x5F || volumeLabel[i] == 0x2D
  }

  function StyleText(style: PartitionStyle): Text
  {
    if style == Mbr then MBR_WORD else GPT_WORD
  }

  function StyleOf(t: Text): Option<PartitionStyle>
  {
    if t == GPT_WORD then Some(Gpt) else if t == MBR_WORD then Some(Mbr) else None
  }

  function FileSystemToken(fileSystem: FileSystemType): Text
  {
    match fileSystem
    case ExFat => EXFAT_WORD
    case Fat32 => FAT32_WORD
    case Ntfs => NTFS_WORD
    case Ext4 => EXT4_WORD
  }

  function FileSystemOf(t: Text): Option<FileSystemType>
  {
    if t == EXFAT_WORD then Some(ExFat)
    else if t == FAT32_WORD then Some(Fat32)
    else if t == NTFS_WORD then Some(Ntfs)
    else if t == EXT4_WORD then Some(Ext4)
    else None
  }

  function LanguageText(language: Language): Text
  {
    if language == German then GERMAN_WORD else ENGLISH_WORD
  }

  function LanguageOf(t: Text): Option<Language>
  {
    if t == ENGLISH_WORD then Some(English) else if t == GERMAN_WORD then Some(German) else None
  }

  lemma WordsAreRead(style: PartitionStyle, fileSystem: FileSystemType, language: Language)
    ensures StyleOf(StyleText(style)) == Some(if style == Mbr then Mbr else Gpt)
    ensures FileSystemOf(FileSystemToken(fileSystem)) == Some(fileSystem)
    ensures LanguageOf(LanguageText(language)) == Some(language)
  {
    assert MBR_WORD[0] != GPT_WORD[0];
    assert ENGLISH_WORD[0] != GERMAN_WORD[0];
    assert EXFAT_WORD[0] != FAT32_WORD[0];
    assert NTFS_WORD[0] != EXT4_WORD[0];
    assert |EXFAT_WORD| == |FAT32_WORD| == 5 && |NTFS_WORD| == |EXT4_WORD| == 4;
  }

  // ----- reading a command line -----

  type Pair = (Text, Text)

  /** Values that are judged where they stand. */
  predicate IsAllowedValue(flag: Flag, value: Text)
  {
    match flag
    case SequenceFlag => DecimalOf(value, U64_MAX).Some? && DecimalOf(value, U64_MAX).value != 0
    case LanguageFlag => LanguageOf(value).Some?
    case _ => true
  }

  /** One more flag and value: unknown and repeated flags are refused. */
  function OneMoreClaim(claims: map<Flag, Text>, pair: Pair): Option<map<Flag, Text>>
  {
    match FlagOf(pair.0)
    case None => None
    case Some(flag) => if flag in claims || !IsAllowedValue(flag, pair.1) then None else Some(claims[flag := pair.1])
  }

  function Claims(pairs: seq<Pair>): Option<map<Flag, Text>>
    decreases |pairs|
  {
    if pairs == [] then Some(map[])
    else
      match Claims(pairs[..|pairs| - 1])
      case None => None
      case Some(claims) => OneMoreClaim(claims, pairs[|pairs| - 1])
  }

  function Claimed(claims: map<Flag, Text>, flag: Flag): Text
  {
    if flag in claims then claims[flag] else []
  }

  datatype RestoreArguments = RestoreArguments(
    expected: DiskInfo,
    style: PartitionStyle,
    fileSystem: FileSystemType,
    volumeLabel: Text,
    displayLanguage: Language)

  /** A disk known by claims alone: above all, not known to be on the USB bus. */
  function ClaimedDisk(claims: map<Flag, Text>, size: U64, sectorSize: U32): DiskInfo
  {
    var device := Claimed(claims, DeviceFlag);
    var sequence := match DecimalOf(Claimed(claims, SequenceFlag), U64_MAX)
                    case None => None
                    case Some(n) => Some(n as U64);
    DiskInfo(device, device, 0, Claimed(claims, NameFlag), Claimed(claims, UniqueIdFlag), Claimed(claims, SerialFlag),
             Claimed(claims, PathFlag), sequence, size, sectorSize, [], false, false, false, false)
  }

  /** The disk claimed, if its device is plausible and its sizes are given. */
  function AcceptedDisk(claims: map<Flag, Text>): Option<DiskInfo>
  {
    var size, sector := DecimalOf(Claimed(claims, SizeFlag), U64_MAX), DecimalOf(Claimed(claims, SectorSizeFlag), U32_MAX);
    if !IsPlausibleDeviceNodePath(Claimed(claims, DeviceFlag)) || size.None? || sector.None?
       || size.value == 0 || sector.value == 0
    then None
    else Some(ClaimedDisk(claims, size.value, sector.value))
  }

  function Assembled(disk: Option<DiskInfo>, style: Option<PartitionStyle>, fileSystem: Option<FileSystemType>,
                     name: Text, language: Option<Language>): Option<RestoreArguments>
  {
    match (disk, style, fileSystem, language)
    case (Some(d), Some(s), Some(f), Some(l)) => if IsValidVolumeLabel(name) then Some(RestoreArguments(d, s, f, name, l)) else None
    case _ => None
  }

  function Accepted(claims: map<Flag, Text>): Option<RestoreArguments>
  {
    Assembled(AcceptedDisk(claims), StyleOf(Claimed(claims, StyleFlag)), FileSystemOf(Claimed(claims, FileSystemFlag)),
              Claimed(claims, LabelFlag), LanguageOf(Claimed(claims, LanguageFlag)))
  }

  function PairsOf(arguments: seq<Text>): (pairs: seq<Pair>)
    ensures |pairs| == |arguments| / 2
  {
    seq(|arguments| / 2, k requires 0 <= k < |arguments| / 2 => (arguments[2 * k], arguments[2 * k + 1]))
  }

  function ParsedArguments(arguments: seq<Text>): Option<RestoreArguments>
  {
    if |arguments| % 2 != 0 then None
    else
      match Claims(PairsOf(arguments))
      case None => None
      case Some(claims) => Accepted(claims)
  }

  lemma {:induction false} RefusedStaysRefused(pairs: seq<Pair>, k: nat)
    requires k <= |pairs| && Claims(pairs[..k]) == None
    ensures Claims(pairs) == None
    decreases |pairs| - k
  {
    if k < |pairs| {
      assert pairs[..k + 1][..k] == pairs[..k];
      RefusedStaysRefused(pairs, k + 1);
    } else {
      assert pairs[..k] == pairs;
    }
  }

  // ----- what is accepted -----

  lemma {:induction false} FlagAmongSpells(t: Text, flags: seq<Flag>)
    ensures FlagAmong(t, flags).Some? ==> t == Spelling(FlagAmong(t, flags).value)
  {
    hide Spelling;
    if flags != [] {
      FlagAmongSpells(t, flags[1..]);
    }
  }

  lemma FlagIsSpelled(t: Text, flag: Flag)
    ensures FlagOf(t) == Some(flag) <==> t == Spelling(flag)
  {
    hide Spelling;
    FlagAmongSpells(t, ALL_FLAGS);
    if t == Spelling(flag) {
      FlagOfSpelling(flag);
    }
  }

  /** A known flag with a value allowed where it stands. */
  ghost predicate IsTaken(pair: Pair)
  {
    exists flag :: pair.0 == Spelling(flag) && IsAllowedValue(flag, pair.1)
  }

  ghost predicate AllTaken(pairs: seq<Pair>)
  {
    forall k :: 0 <= k < |pairs| ==> IsTaken(pairs[k])
  }

  ghost predicate FlagsDiffer(pairs: seq<Pair>)
  {
    forall j, k :: 0 <= j < k < |pairs| ==> pairs[j].0 != pairs[k].0
  }

  /** Claimed is exactly what stands after each flag. */
  ghost predicate ClaimsAre(claims: map<Flag, Text>, pairs: seq<Pair>)
  {
    forall flag, value :: (flag in claims && claims[flag] == value) <==> FlagPair(flag, value) in pairs
  }

  lemma TakenMeans(pair: Pair)
    ensures IsTaken(pair) <==> FlagOf(pair.0).Some? && IsAllowedValue(FlagOf(pair.0).value, pair.1)
  {
    hide Spelling, FlagOf, IsAllowedValue;
    if FlagOf(pair.0).Some? {
      FlagIsSpelled(pair.0, FlagOf(pair.0).value);
    }
    if IsTaken(pair) {
      var flag :| pair.0 == Spelling(flag) && IsAllowedValue(flag, pair.1);
      FlagIsSpelled(pair.0, flag);
    }
  }

  /** Flags and values are taken exactly if every flag is known and stands there once, with a value allowed where it
      stands; what is claimed under a flag is then the value after it, and nothing else is claimed. */
  lemma {:induction false} ClaimsMean(pairs: seq<Pair>)
    ensures Claims(pairs).Some? <==> AllTaken(pairs) && FlagsDiffer(pairs)
    ensures Claims(pairs).Some? ==> ClaimsAre(Claims(pairs).value, pairs)
    decreases |pairs|
  {
    hide Spelling, FlagOf, IsAllowedValue, AllTaken, FlagsDiffer, ClaimsAre, OneMoreClaim;
    if pairs == [] {
      assert AllTaken([]) && FlagsDiffer([]) && ClaimsAre(map[], []) by {
        NothingClaimed();
      }
    } else {
      var rest, last := pairs[..|pairs| - 1], pairs[|pairs| - 1];
      ClaimsMean(rest);
      assert pairs == rest + [last];
      OneMoreTaken(rest, last);
      if Claims(rest).Some? {
        OneMoreMeans(Claims(rest).value, rest, last);
      }
    }
  }

  lemma NothingClaimed()
    ensures AllTaken([]) && FlagsDiffer([]) && ClaimsAre(map[], [])
  {}

  lemma OneMoreTaken(rest: seq<Pair>, last: Pair)
    ensures AllTaken(rest + [last]) <==> AllTaken(rest) && IsTaken(last)
    ensures FlagsDiffer(rest + [last]) <==> FlagsDiffer(rest) && forall pair :: pair in rest ==> pair.0 != last.0
  {
    hide IsTaken;
    var pairs := rest + [last];
    assert pairs[|rest|] == last;
    assert forall k :: 0 <= k < |rest| ==> pairs[k] == rest[k];
    if FlagsDiffer(pairs) {
      forall pair | pair in rest
        ensures pair.0 != last.0
      {
        var k :| 0 <= k < |rest| && rest[k] == pair;
        assert pairs[k].0 != pairs[|rest|].0;
      }
    }
  }

  lemma OneMoreMeans(claims: map<Flag, Text>, rest: seq<Pair>, last: Pair)
    requires ClaimsAre(claims, rest) && AllTaken(rest)
    ensures OneMoreClaim(claims, last).Some? <==> IsTaken(last) && forall pair :: pair in rest ==> pair.0 != last.0
    ensures OneMoreClaim(claims, last).Some? ==> ClaimsAre(OneMoreClaim(claims, last).value, rest + [last])
  {
    hide Spelling, FlagOf, IsAllowedValue, IsTaken;
    TakenMeans(last);
    if FlagOf(last.0).Some? {
      var flag := FlagOf(last.0).value;
      FlagIsSpelled(last.0, flag);
      assert last == FlagPair(flag, last.1);
      if flag in claims {
        assert FlagPair(flag, claims[flag]) in rest;
      } else {
        NotClaimed(claims, rest, flag);
        ClaimAdds(claims, rest, flag, last.1);
      }
    }
  }

  lemma NotClaimed(claims: map<Flag, Text>, rest: seq<Pair>, flag: Flag)
    requires ClaimsAre(claims, rest) && flag !in claims
    ensures forall pair :: pair in rest ==> pair.0 != Spelling(flag)
  {
    hide Spelling;
    forall pair | pair in rest
      ensures pair.0 != Spelling(flag)
    {
      assert FlagPair(flag, pair.1) !in rest;
    }
  }

  lemma ClaimAdds(claims: map<Flag, Text>, rest: seq<Pair>, flag: Flag, value: Text)
    requires ClaimsAre(claims, rest) && flag !in claims
    ensures ClaimsAre(claims[flag := value], rest + [FlagPair(flag, value)])
  {
    hide Spelling;
    forall f, v
      ensures (f in claims[flag := value] && claims[flag := value][f] == v) <==> FlagPair(f, v) in rest + [FlagPair(flag, value)]
    {
      SpellingsDiffer(f, flag);
      assert FlagPair(f, v) in rest + [FlagPair(flag, value)] <==> FlagPair(f, v) in rest || FlagPair(f, v) == FlagPair(flag, value);
      assert f == flag ==> FlagPair(f, v) !in rest;
    }
  }

  // "dev"
  const DEV: Text := [0x64, 0x65, 0x76]

  /** An ASCII letter, a digit, an underscore, a hyphen or, if allowed, a space. */
  predicate IsPlainUnit(u: CodeUnit, spaces: bool)
  {
    0x61 <= u <= 0x7A || 0x41 <= u <= 0x5A || 0x30 <= u <= 0x39 || u in {0x5F, 0x2D} || (spaces && u == 0x20)
  }

  predicate IsPlainName(name: Text, longest: nat, spaces: bool)
  {
    1 <= |name| <= longest && forall i :: 0 <= i < |name| ==> IsPlainUnit(name[i], spaces)
  }

  /** A node directly under /dev with a plain name. */
  ghost predicate IsDeviceNode(path: Text)
  {
    exists name :: IsPlainName(name, 64, false) && path == Path([DEV, name])
  }

  /** A plain name that begins with neither a hyphen nor a space, and does not end in a space. */
  predicate IsPlainLabel(name: Text)
  {
    IsPlainName(name, 11, true) && name[0] !in {0x20, 0x2D} && name[|name| - 1] != 0x20
  }

  /** A number from 1 up, written in plain digits. */
  predicate IsCount(t: Text, maximum: nat)
  {
    t != [] && AllDigits(t) && 1 <= DigitsValue(t, 10) <= maximum
  }

  lemma PathOfNode(name: Text)
    ensures Path([DEV, name]) == DEVICE_PREFIX + name
  {
    assert [DEV, name][1..] == [name] && [name][1..] == [];
    assert Joined([]) == [] && Joined([name]) == [0x2F] + name;
  }

  lemma DeviceNodeMeans(path: Text)
    ensures IsPlausibleDeviceNodePath(path) <==> IsDeviceNode(path)
  {
    hide Path;
    if DEVICE_PREFIX <= path {
      var name := path[5..];
      PathOfNode(name);
      assert path == DEVICE_PREFIX + name;
      forall i | 5 <= i < |path|
        ensures path[i] == name[i - 5]
      {
      }
      if IsPlausibleDeviceNodePath(path) {
        forall i | 0 <= i < |name|
          ensures IsPlainUnit(name[i], false)
        {
          assert name[i] == path[i + 5];
        }
      }
    }
    if IsDeviceNode(path) {
      var name :| IsPlainName(name, 64, false) && path == Path([DEV, name]);
      PathOfNode(name);
      assert path[5..] == name;
      forall i | 5 <= i < |path|
        ensures IsAsciiLetterOrDigit(path[i]) || path[i] == 0x5F || path[i] == 0x2D
      {
        assert IsPlainUnit(name[i - 5], false);
      }
    }
  }

  lemma PlainHasNo(name: Text, u: CodeUnit)
    requires IsPlainName(name, 64, false) && !IsPlainUnit(u, false)
    ensures u !in name
  {}

  /** Such a node is what it seems: its path has two components, and the second is no way to somewhere else. */
  lemma DeviceNodeStaysInDev(name: Text, components: seq<Text>)
    requires IsPlainName(name, 64, false)
    requires forall k :: 0 <= k < |components| ==> IsComponent(components[k])
    requires Path(components) == Path([DEV, name])
    ensures components == [DEV, name] && name != [0x2E] && name != [0x2E, 0x2E]
  {
    PlainHasNo(name, SLASH);
    PlainHasNo(name, BACKSLASH);
    PlainHasNo(name, 0x2E);
    hide IsPlainName;
    assert IsComponent(name) && IsComponent(DEV);
    var node := [DEV, name];
    assert |Path(node)| > 1 by {
      PathOfNode(name);
    }
    assert components != [];
    hide IsComponent;
    JoinedInjective(components, node);
    assert [0x2E][0] == [0x2E, 0x2E][0] == 0x2E;
  }

  lemma PlainIsNoSpace(u: CodeUnit)
    requires IsPlainUnit(u, true) && u != 0x20
    ensures !IsSpace(u)
  {}

  lemma LabelUnits(name: Text)
    ensures (forall i :: 0 <= i < |name| ==> IsPlainUnit(name[i], true))
       <==> forall i :: 0 <= i < |name| ==> IsAsciiLetterOrDigit(name[i]) || name[i] == 0x20 || name[i] == 0x5F || name[i] == 0x2D
  {
    forall i | 0 <= i < |name|
      ensures IsPlainUnit(name[i], true) <==> IsAsciiLetterOrDigit(name[i]) || name[i] == 0x20 || name[i] == 0x5F || name[i] == 0x2D
    {
    }
  }

  lemma LabelMeans(name: Text)
    ensures IsValidVolumeLabel(name) <==> IsPlainLabel(name)
  {
    LabelUnits(name);
    assert IsSpace(0x20);
    hide IsSpace, IsPlainUnit, IsAsciiLetterOrDigit;
    if IsPlainLabel(name) {
      PlainIsNoSpace(name[0]);
      PlainIsNoSpace(name[|name| - 1]);
      TrimmedKeeps(name);
    }
    hide Trimmed;
  }

  lemma CountMeans(t: Text, maximum: nat)
    ensures IsCount(t, maximum) <==> DecimalOf(t, maximum).Some? && DecimalOf(t, maximum).value != 0
  {
    hide DigitsValue;
  }

  /** Claims are accepted exactly if they name a device node and a label as above, one of each list of words, and
      two sizes that are not zero. */
  lemma AcceptedMeans(claims: map<Flag, Text>)
    ensures Accepted(claims).Some? <==>
              && IsDeviceNode(Claimed(claims, DeviceFlag)) && IsPlainLabel(Claimed(claims, LabelFlag))
              && Claimed(claims, StyleFlag) in {MBR_WORD, GPT_WORD}
              && Claimed(claims, FileSystemFlag) in {EXFAT_WORD, FAT32_WORD, NTFS_WORD, EXT4_WORD}
              && Claimed(claims, LanguageFlag) in {GERMAN_WORD, ENGLISH_WORD}
              && IsCount(Claimed(claims, SizeFlag), 0xFFFF_FFFF_FFFF_FFFF)
              && IsCount(Claimed(claims, SectorSizeFlag), 0xFFFF_FFFF)
    ensures Accepted(claims).Some? ==>
              && Accepted(claims).value.expected.deviceId == Claimed(claims, DeviceFlag)
              && Accepted(claims).value.volumeLabel == Claimed(claims, LabelFlag)
  {
    hide IsDeviceNode, IsPlainLabel, IsPlausibleDeviceNodePath, IsValidVolumeLabel, IsCount, DecimalOf, Claimed;
    DeviceNodeMeans(Claimed(claims, DeviceFlag));
    LabelMeans(Claimed(claims, LabelFlag));
    CountMeans(Claimed(claims, SizeFlag), 0xFFFF_FFFF_FFFF_FFFF);
    CountMeans(Claimed(claims, SectorSizeFlag), 0xFFFF_FFFF);
  }

  /** A command line is read as flags and values, with none left over, and accepted exactly if they can be taken and
      what is claimed is accepted. Only nodes under /dev and plain labels get past. */
  method ParseRestoreArguments(arguments: seq<Text>) returns (parsed: Option<RestoreArguments>)
    ensures parsed == ParsedArguments(arguments)
    ensures parsed.Some? ==> IsDeviceNode(parsed.value.expected.deviceId) && IsPlainLabel(parsed.value.volumeLabel)
  {
    hide FlagOf, IsAllowedValue, Accepted, IsDeviceNode, IsPlainLabel;
    var claims: map<Flag, Text> := map[];
    ghost var pairs := PairsOf(arguments);
    var index := 0;
    while index < |arguments|
      invariant index % 2 == 0 && 0 <= index / 2 <= |pairs|
      invariant Claims(pairs[..index / 2]) == Some(claims)
    {
      if index + 1 >= |arguments| {
        return None;
      }
      ghost var k := index / 2;
      assert pairs[..k + 1][..k] == pairs[..k] && pairs[k] == (arguments[index], arguments[index + 1]);
      var flag := FlagOf(arguments[index]);
      if flag.None? || flag.value in claims || !IsAllowedValue(flag.value, arguments[index + 1]) {
        RefusedStaysRefused(pairs, k + 1);
        return None;
      }
      claims := claims[flag.value := arguments[index + 1]];
      index := index + 2;
    }
    assert pairs[..|pairs|] == pairs;
    AcceptedMeans(claims);
    parsed := Accepted(claims);
  }

  // ----- the order of the flags -----

  lemma {:induction false} ClaimsWithout(pairs: seq<Pair>, k: nat)
    requires k < |pairs| && Claims(pairs).Some?
    ensures FlagOf(pairs[k].0).Some? && IsAllowedValue(FlagOf(pairs[k].0).value, pairs[k].1)
    ensures var claims, flag := Claims(pairs).value, FlagOf(pairs[k].0).value;
            && flag in claims && claims[flag] == pairs[k].1
            && Claims(pairs[..k] + pairs[k + 1..]) == Some(claims - {flag})
    decreases |pairs|
  {
    hide FlagOf, IsAllowedValue;
    var rest, last := pairs[..|pairs| - 1], pairs[|pairs| - 1];
    var claims, lastFlag := Claims(pairs).value, FlagOf(last.0).value;
    if k == |pairs| - 1 {
      assert pairs[..k] + pairs[k + 1..] == rest;
      assert claims - {lastFlag} == Claims(rest).value;
    } else {
      ClaimsWithout(rest, k);
      var flag, others := FlagOf(pairs[k].0).value, pairs[..k] + pairs[k + 1..];
      assert rest[..k] + rest[k + 1..] == others[..|others| - 1];
      assert others[|others| - 1] == last;
      assert (Claims(rest).value - {flag})[lastFlag := last.1] == claims - {flag};
    }
  }

  lemma WithoutOne(pairs: seq<Pair>, k: nat)
    requires k < |pairs|
    ensures multiset(pairs[..k] + pairs[k + 1..]) == multiset(pairs) - multiset{pairs[k]}
  {
    assert pairs == pairs[..k] + [pairs[k]] + pairs[k + 1..];
  }

  lemma EmptyIsEmpty(pairs: seq<Pair>)
    requires multiset(pairs) == multiset([])
    ensures pairs == []
  {
    assert |multiset(pairs)| == |pairs|;
  }

  lemma LastClaim(pairs: seq<Pair>)
    requires pairs != [] && Claims(pairs[..|pairs| - 1]).Some?
    ensures Claims(pairs) == OneMoreClaim(Claims(pairs[..|pairs| - 1]).value, pairs[|pairs| - 1])
  {}

  /** Whether a command line is accepted, and what it claims, does not depend on the order of its flags. */
  lemma {:induction false} OrderDoesNotMatter(a: seq<Pair>, b: seq<Pair>)
    requires multiset(a) == multiset(b) && Claims(a).Some?
    ensures Claims(b) == Claims(a)
    decreases |b|
  {
    hide FlagOf, IsAllowedValue, Claims;
    if b == [] {
      EmptyIsEmpty(a);
    } else {
      var rest, last := b[..|b| - 1], b[|b| - 1];
      assert b == rest + [last];
      assert last in multiset(a);
      var k :| 0 <= k < |a| && a[k] == last;
      var others := a[..k] + a[k + 1..];
      ClaimsWithout(a, k);
      WithoutOne(a, k);
      assert multiset(others) == multiset(rest);
      OrderDoesNotMatter(others, rest);
      var claims, flag := Claims(a).value, FlagOf(last.0).value;
      assert (claims - {flag})[flag := last.1] == claims;
      LastClaim(b);
    }
  }

  /** The same flag pairs in another order are parsed to the same result, or refused alike. */
  lemma ReorderedArguments(a: seq<Text>, b: seq<Text>)
    requires |a| % 2 == |b| % 2 == 0
    requires multiset(PairsOf(a)) == multiset(PairsOf(b))
    ensures ParsedArguments(a) == ParsedArguments(b)
  {
    hide Claims, Accepted;
    if Claims(PairsOf(a)).Some? {
      OrderDoesNotMatter(PairsOf(a), PairsOf(b));
    } else if Claims(PairsOf(b)).Some? {
      OrderDoesNotMatter(PairsOf(b), PairsOf(a));
    }
  }

  // ----- writing a command line -----

  function Flattened(pairs: seq<Pair>): (arguments: seq<Text>)
    ensures |arguments| == 2 * |pairs|
    decreases |pairs|
  {
    if pairs == [] then []
    else Flattened(pairs[..|pairs| - 1]) + [pairs[|pairs| - 1].0, pairs[|pairs| - 1].1]
  }

  lemma {:induction false} FlattenedPairs(pairs: seq<Pair>)
    ensures PairsOf(Flattened(pairs)) == pairs
    decreases |pairs|
  {
    if pairs != [] {
      var rest, last := pairs[..|pairs| - 1], pairs[|pairs| - 1];
      FlattenedPairs(rest);
      var before, after := Flattened(rest), Flattened(pairs);
      forall k | 0 <= k < |pairs|
        ensures PairsOf(after)[k] == pairs[k]
      {
        if k < |rest| {
          assert PairsOf(before)[k] == rest[k];
        }
      }
    }
  }

  function FlagPair(flag: Flag, value: Text): Pair
  {
    (Spelling(flag), value)
  }

  /** An identifier is passed on only if it is known. */
  function KnownPair(flag: Flag, value: Text): seq<Pair>
  {
    if Trimmed(value) == [] then [] else [FlagPair(flag, value)]
  }

  function SequencePair(sequence: Option<U64>): seq<Pair>
  {
    match sequence
    case None => []
    case Some(n) => [FlagPair(SequenceFlag, Decimal(n))]
  }

  function RequiredPairs(disk: DiskInfo, style: PartitionStyle, fileSystem: FileSystemType, name: Text): seq<Pair>
  {
    [FlagPair(DeviceFlag, disk.deviceId)] + [FlagPair(StyleFlag, StyleText(style))]
    + [FlagPair(FileSystemFlag, FileSystemToken(fileSystem))] + [FlagPair(LabelFlag, name)]
    + [FlagPair(SizeFlag, Decimal(disk.size))] + [FlagPair(SectorSizeFlag, Decimal(disk.sectorSize))]
  }

  function BuiltPairs(disk: DiskInfo, style: PartitionStyle, fileSystem: FileSystemType, name: Text, language: Language)
    : seq<Pair>
  {
    RequiredPairs(disk, style, fileSystem, name) + SequencePair(disk.deviceSequence)
    + KnownPair(SerialFlag, disk.serialNumber) + KnownPair(UniqueIdFlag, disk.uniqueId)
    + KnownPair(PathFlag, disk.path) + KnownPair(NameFlag, disk.name)
    + [FlagPair(LanguageFlag, LanguageText(language))]
  }

  /** The first language of the user interface that there is a translation for, and English if there is none. */
  function FirstKnown(uiLanguages: seq<Option<Language>>): Language
  {
    if uiLanguages == [] then English
    else if uiLanguages[0].Some? then uiLanguages[0].value
    else FirstKnown(uiLanguages[1..])
  }

  /** A helper cannot ask the system itself, so the choice is settled before. */
  function Resolved(preference: LanguagePreference, uiLanguages: seq<Option<Language>>): Language
  {
    match preference
    case FollowSystem => FirstKnown(uiLanguages)
    case Fixed(language) => language
  }

  /** German exactly if it was chosen, or is the first of the system's languages that is known. */
  lemma ResolvedMeans(preference: LanguagePreference, uiLanguages: seq<Option<Language>>)
    ensures Resolved(preference, uiLanguages) == German <==>
              || preference == Fixed(German)
              || (preference == FollowSystem
                  && exists k :: 0 <= k < |uiLanguages| && uiLanguages[k] == Some(German)
                                 && forall j :: 0 <= j < k ==> uiLanguages[j] == None)
  {
    FirstKnownMeans(uiLanguages);
  }

  lemma {:induction false} FirstKnownMeans(uiLanguages: seq<Option<Language>>)
    ensures FirstKnown(uiLanguages) == German <==>
              exists k :: 0 <= k < |uiLanguages| && uiLanguages[k] == Some(German)
                          && forall j :: 0 <= j < k ==> uiLanguages[j] == None
  {
    if uiLanguages != [] {
      var rest := uiLanguages[1..];
      FirstKnownMeans(rest);
      if uiLanguages[0] == None {
        if k :| 0 <= k < |rest| && rest[k] == Some(German) && forall j :: 0 <= j < k ==> rest[j] == None {
          assert uiLanguages[k + 1] == Some(German);
        }
        if k :| 0 <= k < |uiLanguages| && uiLanguages[k] == Some(German) && forall j :: 0 <= j < k ==> uiLanguages[j] == None {
          assert rest[k - 1] == Some(German);
        }
      }
    }
  }

  function BuildRestoreArguments(disk: DiskInfo, style: PartitionStyle, fileSystem: FileSystemType, name: Text,
                                 preference: LanguagePreference, uiLanguages: seq<Option<Language>>): seq<Text>
  {
    Flattened(BuiltPairs(disk, style, fileSystem, name, Resolved(preference, uiLanguages)))
  }

  // ----- reading what was written -----

  /** What the selection may claim: an identifier that is blank is as good as none. */
  function KnownOrEmpty(value: Text): Text
  {
    if Trimmed(value) == [] then [] else value
  }

  function ExpectedClaims(disk: DiskInfo): DiskInfo
  {
    DiskInfo(disk.deviceId, disk.deviceId, 0, KnownOrEmpty(disk.name), KnownOrEmpty(disk.uniqueId),
             KnownOrEmpty(disk.serialNumber), KnownOrEmpty(disk.path), disk.deviceSequence, disk.size, disk.sectorSize,
             [], false, false, false, false)
  }

  /** A request the helper can be given. */
  ghost predicate CanBeAsked(disk: DiskInfo, name: Text)
  {
    && IsDeviceNode(disk.deviceId) && IsPlainLabel(name)
    && disk.size != 0 && disk.sectorSize != 0 && disk.deviceSequence != Some(0)
  }

  lemma ClaimAdded(pairs: seq<Pair>, claims: map<Flag, Text>, flag: Flag, value: Text)
    requires Claims(pairs) == Some(claims) && flag !in claims
    ensures Claims(pairs + [FlagPair(flag, value)])
         == if IsAllowedValue(flag, value) then Some(claims[flag := value]) else None
  {
    hide FlagOf, IsAllowedValue, Spelling;
    FlagOfSpelling(flag);
    assert (pairs + [FlagPair(flag, value)])[..|pairs|] == pairs;
  }

  function WithKnown(claims: map<Flag, Text>, flag: Flag, value: Text): map<Flag, Text>
  {
    if Trimmed(value) == [] then claims else claims[flag := value]
  }

  lemma KnownAdded(pairs: seq<Pair>, claims: map<Flag, Text>, flag: Flag, value: Text)
    requires Claims(pairs) == Some(claims) && flag !in claims && flag in {SerialFlag, UniqueIdFlag, PathFlag, NameFlag}
    ensures Claims(pairs + KnownPair(flag, value)) == Some(WithKnown(claims, flag, value))
  {
    hide Trimmed, Claims;
    if Trimmed(value) == [] {
      assert pairs + [] == pairs;
    } else {
      ClaimAdded(pairs, claims, flag, value);
    }
  }

  function RequiredClaims(disk: DiskInfo, style: PartitionStyle, fileSystem: FileSystemType, name: Text): map<Flag, Text>
  {
    map[][DeviceFlag := disk.deviceId][StyleFlag := StyleText(style)][FileSystemFlag := FileSystemToken(fileSystem)]
         [LabelFlag := name][SizeFlag := Decimal(disk.size)][SectorSizeFlag := Decimal(disk.sectorSize)]
  }

  lemma RequiredAreClaimed(disk: DiskInfo, style: PartitionStyle, fileSystem: FileSystemType, name: Text)
    ensures Claims(RequiredPairs(disk, style, fileSystem, name)) == Some(RequiredClaims(disk, style, fileSystem, name))
  {
    assert Claims([]) == Some(map[]);
    hide Claims, Spelling, Decimal, StyleText, FileSystemToken, FlagPair;
    var a := [FlagPair(DeviceFlag, disk.deviceId)];
    ClaimAdded([], map[], DeviceFlag, disk.deviceId);
    assert [] + a == a;
    var b := a + [FlagPair(StyleFlag, StyleText(style))];
    ClaimAdded(a, map[DeviceFlag := disk.deviceId], StyleFlag, StyleText(style));
    var c := b + [FlagPair(FileSystemFlag, FileSystemToken(fileSystem))];
    var claimed: map<Flag, Text> := map[DeviceFlag := disk.deviceId][StyleFlag := StyleText(style)];
    ClaimAdded(b, claimed, FileSystemFlag, FileSystemToken(fileSystem));
    LastRequired(c, claimed[FileSystemFlag := FileSystemToken(fileSystem)], disk, name);
  }

  lemma LastRequired(pairs: seq<Pair>, claims: map<Flag, Text>, disk: DiskInfo, name: Text)
    requires Claims(pairs) == Some(claims) && LabelFlag !in claims && SizeFlag !in claims && SectorSizeFlag !in claims
    ensures Claims(pairs + [FlagPair(LabelFlag, name)] + [FlagPair(SizeFlag, Decimal(disk.size))]
                   + [FlagPair(SectorSizeFlag, Decimal(disk.sectorSize))])
         == Some(claims[LabelFlag := name][SizeFlag := Decimal(disk.size)][SectorSizeFlag := Decimal(disk.sectorSize)])
  {
    hide Claims, Spelling, Decimal, FlagPair;
    var a := pairs + [FlagPair(LabelFlag, name)];
    ClaimAdded(pairs, claims, LabelFlag, name);
    ClaimAdded(a, claims[LabelFlag := name], SizeFlag, Decimal(disk.size));
    ClaimAdded(a + [FlagPair(SizeFlag, Decimal(disk.size))], claims[LabelFlag := name][SizeFlag := Decimal(disk.size)],
               SectorSizeFlag, Decimal(disk.sectorSize));
  }

  function WithSequence(claims: map<Flag, Text>, sequence: Option<U64>): map<Flag, Text>
  {
    match sequence
    case None => claims
    case Some(n) => claims[SequenceFlag := Decimal(n)]
  }

  /** A drive instance is passed on as it is; the helper refuses zero. */
  lemma SequenceAdded(pairs: seq<Pair>, claims: map<Flag, Text>, sequence: Option<U64>)
    requires Claims(pairs) == Some(claims) && SequenceFlag !in claims
    ensures Claims(pairs + SequencePair(sequence)) == if sequence == Some(0) then None else Some(WithSequence(claims, sequence))
  {
    hide Claims, Decimal;
    match sequence
    case None => assert pairs + [] == pairs;
    case Some(n) =>
      DecimalIsRead(n, U64_MAX);
      ClaimAdded(pairs, claims, SequenceFlag, Decimal(n));
  }

  function WithIdentifiers(claims: map<Flag, Text>, disk: DiskInfo): map<Flag, Text>
  {
    WithKnown(WithKnown(WithKnown(WithKnown(claims, SerialFlag, disk.serialNumber),
                                  UniqueIdFlag, disk.uniqueId), PathFlag, disk.path), NameFlag, disk.name)
  }

  /** Everything the arguments claim about an accepted request. */
  function BuiltClaims(disk: DiskInfo, style: PartitionStyle, fileSystem: FileSystemType, name: Text, language: Language)
    : map<Flag, Text>
  {
    WithIdentifiers(WithSequence(RequiredClaims(disk, style, fileSystem, name), disk.deviceSequence), disk)
    [LanguageFlag := LanguageText(language)]
  }

  lemma IdentifiersAdded(pairs: seq<Pair>, claims: map<Flag, Text>, disk: DiskInfo)
    requires Claims(pairs) == Some(claims)
    requires SerialFlag !in claims && UniqueIdFlag !in claims && PathFlag !in claims && NameFlag !in claims
    ensures Claims(pairs + KnownPair(SerialFlag, disk.serialNumber) + KnownPair(UniqueIdFlag, disk.uniqueId)
                   + KnownPair(PathFlag, disk.path) + KnownPair(NameFlag, disk.name))
         == Some(WithIdentifiers(claims, disk))
  {
    hide Claims, KnownPair, Trimmed;
    var a, m := pairs + KnownPair(SerialFlag, disk.serialNumber), WithKnown(claims, SerialFlag, disk.serialNumber);
    KnownAdded(pairs, claims, SerialFlag, disk.serialNumber);
    var b, n := a + KnownPair(UniqueIdFlag, disk.uniqueId), WithKnown(m, UniqueIdFlag, disk.uniqueId);
    KnownAdded(a, m, UniqueIdFlag, disk.uniqueId);
    KnownAdded(b, n, PathFlag, disk.path);
    KnownAdded(b + KnownPair(PathFlag, disk.path), WithKnown(n, PathFlag, disk.path), NameFlag, disk.name);
  }

  lemma RefusedBeginning(pairs: seq<Pair>, all: seq<Pair>)
    requires pairs <= all && Claims(pairs) == None
    ensures Claims(all) == None
  {
    hide Claims;
    assert all[..|pairs|] == pairs;
    RefusedStaysRefused(all, |pairs|);
  }

  lemma BuiltAreClaimed(disk: DiskInfo, style: PartitionStyle, fileSystem: FileSystemType, name: Text, language: Language)
    ensures Claims(BuiltPairs(disk, style, fileSystem, name, language))
         == if disk.deviceSequence == Some(0) then None
            else Some(BuiltClaims(disk, style, fileSystem, name, language))
  {
    hide Claims, KnownPair, SequencePair, RequiredPairs, Trimmed, Decimal, LanguageText;
    var required, claims := RequiredPairs(disk, style, fileSystem, name), RequiredClaims(disk, style, fileSystem, name);
    var sequenced := required + SequencePair(disk.deviceSequence);
    RequiredAreClaimed(disk, style, fileSystem, name);
    SequenceAdded(required, claims, disk.deviceSequence);
    var all := BuiltPairs(disk, style, fileSystem, name, language);
    if disk.deviceSequence == Some(0) {
      RefusedBeginning(sequenced, all);
    } else {
      IdentifiersAdded(sequenced, WithSequence(claims, disk.deviceSequence), disk);
      WordsAreRead(style, fileSystem, language);
      ClaimAdded(sequenced + KnownPair(SerialFlag, disk.serialNumber) + KnownPair(UniqueIdFlag, disk.uniqueId)
                 + KnownPair(PathFlag, disk.path) + KnownPair(NameFlag, disk.name),
                 WithIdentifiers(WithSequence(claims, disk.deviceSequence), disk), LanguageFlag, LanguageText(language));
    }
  }

  lemma WithKnownByFlag(claims: map<Flag, Text>, flag: Flag, value: Text, other: Flag)
    requires flag !in claims
    ensures Claimed(WithKnown(claims, flag, value), other) == if other == flag then KnownOrEmpty(value) else Claimed(claims, other)
    ensures other in WithKnown(claims, flag, value) ==> other == flag || other in claims
  {
    hide Trimmed;
  }

  lemma IdentifiersByFlag(claims: map<Flag, Text>, disk: DiskInfo, flag: Flag)
    requires SerialFlag !in claims && UniqueIdFlag !in claims && PathFlag !in claims && NameFlag !in claims
    ensures Claimed(WithIdentifiers(claims, disk), flag)
         == match flag
            case SerialFlag => KnownOrEmpty(disk.serialNumber)
            case UniqueIdFlag => KnownOrEmpty(disk.uniqueId)
            case PathFlag => KnownOrEmpty(disk.path)
            case NameFlag => KnownOrEmpty(disk.name)
            case _ => Claimed(claims, flag)
  {
    hide KnownOrEmpty, WithKnown, Claimed;
    var a := WithKnown(claims, SerialFlag, disk.serialNumber);
    var b := WithKnown(a, UniqueIdFlag, disk.uniqueId);
    var c := WithKnown(b, PathFlag, disk.path);
    WithKnownByFlag(claims, SerialFlag, disk.serialNumber, UniqueIdFlag);
    WithKnownByFlag(claims, SerialFlag, disk.serialNumber, PathFlag);
    WithKnownByFlag(claims, SerialFlag, disk.serialNumber, NameFlag);
    WithKnownByFlag(claims, SerialFlag, disk.serialNumber, flag);
    WithKnownByFlag(a, UniqueIdFlag, disk.uniqueId, PathFlag);
    WithKnownByFlag(a, UniqueIdFlag, disk.uniqueId, NameFlag);
    WithKnownByFlag(a, UniqueIdFlag, disk.uniqueId, flag);
    WithKnownByFlag(b, PathFlag, disk.path, NameFlag);
    WithKnownByFlag(b, PathFlag, disk.path, flag);
    WithKnownByFlag(c, NameFlag, disk.name, flag);
  }

  /** What is claimed under each flag. */
  function BuiltValue(disk: DiskInfo, style: PartitionStyle, fileSystem: FileSystemType, name: Text, language: Language,
                      flag: Flag): Text
  {
    match flag
    case DeviceFlag => disk.deviceId
    case StyleFlag => StyleText(style)
    case FileSystemFlag => FileSystemToken(fileSystem)
    case LabelFlag => name
    case SizeFlag => Decimal(disk.size)
    case SectorSizeFlag => Decimal(disk.sectorSize)
    case SequenceFlag => (match disk.deviceSequence case None => [] case Some(n) => Decimal(n))
    case SerialFlag => KnownOrEmpty(disk.serialNumber)
    case UniqueIdFlag => KnownOrEmpty(disk.uniqueId)
    case PathFlag => KnownOrEmpty(disk.path)
    case NameFlag => KnownOrEmpty(disk.name)
    case LanguageFlag => LanguageText(language)
  }

  lemma BuiltByFlag(disk: DiskInfo, style: PartitionStyle, fileSystem: FileSystemType, name: Text, language: Language,
                    flag: Flag)
    ensures Claimed(BuiltClaims(disk, style, fileSystem, name, language), flag)
         == BuiltValue(disk, style, fileSystem, name, language, flag)
  {
    hide Trimmed, Decimal, StyleText, FileSystemToken, LanguageText, KnownOrEmpty, WithIdentifiers;
    var base := WithSequence(RequiredClaims(disk, style, fileSystem, name), disk.deviceSequence);
    IdentifiersByFlag(base, disk, flag);
  }

  lemma SequenceIsRead(sequence: Option<U64>)
    ensures DecimalOf(match sequence case None => [] case Some(n) => Decimal(n), U64_MAX)
         == match sequence case None => None case Some(n) => Some(n as nat)
  {
    match sequence
    case None =>
    case Some(n) => DecimalIsRead(n, U64_MAX);
  }

  lemma ClaimedDiskIsRead(disk: DiskInfo, style: PartitionStyle, fileSystem: FileSystemType, name: Text, language: Language)
    ensures AcceptedDisk(BuiltClaims(disk, style, fileSystem, name, language))
         == if IsPlausibleDeviceNodePath(disk.deviceId) && disk.size != 0 && disk.sectorSize != 0
            then Some(ExpectedClaims(disk)) else None
  {
    hide BuiltClaims, Claimed, Decimal, IsPlausibleDeviceNodePath, KnownOrEmpty, DecimalOf;
    BuiltByFlag(disk, style, fileSystem, name, language, DeviceFlag);
    BuiltByFlag(disk, style, fileSystem, name, language, SizeFlag);
    BuiltByFlag(disk, style, fileSystem, name, language, SectorSizeFlag);
    BuiltByFlag(disk, style, fileSystem, name, language, SequenceFlag);
    BuiltByFlag(disk, style, fileSystem, name, language, SerialFlag);
    BuiltByFlag(disk, style, fileSystem, name, language, UniqueIdFlag);
    BuiltByFlag(disk, style, fileSystem, name, language, PathFlag);
    BuiltByFlag(disk, style, fileSystem, name, language, NameFlag);
    DecimalIsRead(disk.size, U64_MAX);
    DecimalIsRead(disk.sectorSize, U32_MAX);
    SequenceIsRead(disk.deviceSequence);
  }

  /** Parsing what was built gives back the request: it is accepted exactly when it can be asked, and then style,
      file system, name, the language settled on and every claim are recovered. An unchosen style is read as GPT. */
  lemma ArgumentsRoundTrip(disk: DiskInfo, style: PartitionStyle, fileSystem: FileSystemType, name: Text,
                           preference: LanguagePreference, uiLanguages: seq<Option<Language>>)
    ensures ParsedArguments(BuildRestoreArguments(disk, style, fileSystem, name, preference, uiLanguages))
         == if CanBeAsked(disk, name)
            then Some(RestoreArguments(ExpectedClaims(disk), if style == Mbr then Mbr else Gpt, fileSystem, name,
                                       Resolved(preference, uiLanguages)))
            else None
  {
    var language := Resolved(preference, uiLanguages);
    hide Claims, Flattened, BuiltPairs, BuiltClaims, AcceptedDisk, Claimed, IsPlausibleDeviceNodePath;
    hide IsValidVolumeLabel;
    hide Decimal, StyleText, FileSystemToken, LanguageText, StyleOf, FileSystemOf, LanguageOf, ExpectedClaims;
    hide IsDeviceNode, IsPlainLabel;
    DeviceNodeMeans(disk.deviceId);
    LabelMeans(name);
    FlattenedPairs(BuiltPairs(disk, style, fileSystem, name, language));
    BuiltAreClaimed(disk, style, fileSystem, name, language);
    ClaimedDiskIsRead(disk, style, fileSystem, name, language);
    BuiltByFlag(disk, style, fileSystem, name, language, StyleFlag);
    BuiltByFlag(disk, style, fileSystem, name, language, FileSystemFlag);
    BuiltByFlag(disk, style, fileSystem, name, language, LabelFlag);
    BuiltByFlag(disk, style, fileSystem, name, language, LanguageFlag);
    WordsAreRead(style, fileSystem, language);
  }

  // ----- what the claims are good for -----

  /** The claims judge every current disk as the selection itself would, although blank identifiers are left out. */
  lemma ClaimsJudgeAlike(disk: DiskInfo, current: DiskInfo, unicode: Unicode)
    ensures CompareTarget(ExpectedClaims(disk), current, unicode) == CompareTarget(disk, current, unicode)
  {
    SameIdentity(disk.name, unicode);
    SameIdentity(disk.uniqueId, unicode);
    SameIdentity(disk.serialNumber, unicode);
    SameIdentity(disk.path, unicode);
    hide Identity, KnownOrEmpty;
  }

  lemma SameIdentity(value: Text, unicode: Unicode)
    ensures Identity(KnownOrEmpty(value), unicode) == Identity(value, unicode)
  {
    if Trimmed(value) == [] {
      TrimmedKeeps([]);
    }
  }

  /** Whatever a command line claims, the claimed disk alone is never safe to restore. */
  lemma ClaimsAreNeverSafe(arguments: seq<Text>, guard: RestoreGuard, unicode: Unicode)
    ensures ParsedArguments(arguments).Some? ==>
              && ParsedArguments(arguments).value.expected.busType == 0
              && !IsSafeRestoreTarget(ParsedArguments(arguments).value.expected, guard, unicode)
  {
    hide Claims, DecimalOf, IsPlausibleDeviceNodePath, IsValidVolumeLabel, Trimmed, Claimed, StyleOf, FileSystemOf;
    hide LanguageOf;
    hide HoldsProtectedMount, IsGuardedDevice, CalculateGptLayout;
  }
}
