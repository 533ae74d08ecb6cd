/** FAT32 geometry: how many clusters a volume holds, which allocation unit it
    gets, and the size limits the formatter imposes. */
module Fat32 {
  import opened Bytes
  import opened Layout

  const RESERVED_SECTORS: int := 32
  const FAT_COUNT: int := 2
  const FAT_ENTRY_BYTES: int := 4

  // ----- what fits on a volume -----

  /** The sectors one FAT needs for `clusters` data clusters and its two reserved entries. */
  function FatSectors(sector: nat, clusters: nat): nat
    requires sector > 0
  {
    ((clusters + 2) * FAT_ENTRY_BYTES + sector - 1) / sector
  }

  /** The reserved area, both FATs and the data, in sectors. */
  function RequiredSectors(sector: nat, perCluster: nat, clusters: nat): nat
    requires sector > 0
  {
    RESERVED_SECTORS + FAT_COUNT * FatSectors(sector, clusters) + clusters * perCluster
  }

  predicate IsValidGeometry(volumeSize: nat, sector: nat, unit: nat)
  {
    && sector > 0 && sector <= unit && unit % sector == 0 && volumeSize % sector == 0
    && volumeSize / sector > RESERVED_SECTORS
  }

  /** Whether a volume has room for that many clusters. */
  predicate HasRoom(volumeSize: nat, sector: nat, unit: nat, clusters: nat)
    requires sector > 0
  {
    RequiredSectors(sector, unit / sector, clusters) <= volumeSize / sector
  }

  /** The largest number up to `bound` there is room for, found by trying each in turn. */
  function LargestUpTo(volumeSize: nat, sector: nat, unit: nat, bound: nat): (clusters: nat)
    requires sector > 0
    ensures clusters <= bound
    ensures clusters > 0 ==> HasRoom(volumeSize, sector, unit, clusters)
    decreases bound
  {
    if bound == 0 || HasRoom(volumeSize, sector, unit, bound) then bound
    else LargestUpTo(volumeSize, sector, unit, bound - 1)
  }

  /** The number of data clusters of a volume; none on an invalid geometry. */
  function ClusterCount(volumeSize: nat, sector: nat, unit: nat): nat
  {
    if !IsValidGeometry(volumeSize, sector, unit) then 0
    else LargestUpTo(volumeSize, sector, unit, volumeSize / sector)
  }

  // ----- products and quotients -----

  lemma ProductMonotone(a: nat, b: nat, k: nat)
    requires a <= b
    ensures a * k <= b * k && k * a <= k * b
  {
    assert b * k == a * k + (b - a) * k;
  }

  lemma QuotientMonotone(a: nat, b: nat, d: nat)
    requires a <= b && d > 0
    ensures a / d <= b / d
  {
    QuotientLeast(a, d, b / d);
  }

  lemma QuotientLeast(a: nat, d: nat, q: nat)
    requires d > 0 && a < q * d + d
    ensures a / d <= q
  {
    if a / d >= q + 1 {
      ProductMonotone(q + 1, a / d, d);
    }
  }

  lemma QuarterBound(a: nat, d: nat)
    requires d >= 4
    ensures a / d <= a / 4
  {
    ProductMonotone(4, d, a / d);
    hide *;
    var p: nat, product: nat := a / d, a / d * d;
    assert 4 * p <= product <= a;
  }

  // ----- the count is the largest that fits -----

  lemma RequiredMonotone(sector: nat, perCluster: nat, a: nat, b: nat)
    requires sector > 0 && a <= b
    ensures RequiredSectors(sector, perCluster, a) <= RequiredSectors(sector, perCluster, b)
  {
    QuotientMonotone((a + 2) * FAT_ENTRY_BYTES + sector - 1, (b + 2) * FAT_ENTRY_BYTES + sector - 1, sector);
    ProductMonotone(a, b, perCluster);
  }

  lemma {:induction false} LargestIsLargest(volumeSize: nat, sector: nat, unit: nat, bound: nat, n: nat)
    requires sector > 0 && n <= bound && HasRoom(volumeSize, sector, unit, n)
    ensures n <= LargestUpTo(volumeSize, sector, unit, bound)
    decreases bound
  {
    if n < bound && !HasRoom(volumeSize, sector, unit, bound) {
      LargestIsLargest(volumeSize, sector, unit, bound - 1, n);
    }
  }

  lemma PerClusterPositive(sector: nat, unit: nat)
    requires 0 < sector <= unit
    ensures unit / sector > 0
  {}

  /** More clusters than sectors never fit. */
  lemma RoomIsBounded(volumeSize: nat, sector: nat, unit: nat, n: nat)
    requires 0 < sector <= unit && HasRoom(volumeSize, sector, unit, n)
    ensures n <= volumeSize / sector
  {
    PerClusterPositive(sector, unit);
    ProductMonotone(1, unit / sector, n);
  }

  /** A positive number of clusters fits a valid geometry exactly when it is at most the count. */
  lemma CountIsLargest(volumeSize: nat, sector: nat, unit: nat, n: nat)
    requires IsValidGeometry(volumeSize, sector, unit) && n > 0
    ensures HasRoom(volumeSize, sector, unit, n) <==> n <= ClusterCount(volumeSize, sector, unit)
  {
    var count := ClusterCount(volumeSize, sector, unit);
    if HasRoom(volumeSize, sector, unit, n) {
      RoomIsBounded(volumeSize, sector, unit, n);
      LargestIsLargest(volumeSize, sector, unit, volumeSize / sector, n);
    }
    if n <= count {
      RequiredMonotone(sector, unit / sector, n, count);
    }
  }

  /** A FAT32 volume with that many clusters and FATs of that many sectors: 32 sectors, two FATs of four bytes for
      each cluster and two entries more, and the clusters. */
  predicate IsLaidOut(volumeSize: nat, sector: nat, unit: nat, clusters: nat, fatSectors: nat)
  {
    && 4 * (clusters + 2) <= fatSectors * sector
    && (32 + 2 * fatSectors) * sector + clusters * unit <= volumeSize
  }

  /** So many sectors hold so many bytes exactly if they are no fewer than the quotient, rounded up. */
  lemma RoundsUp(sector: nat, bytes: nat, sectors: nat)
    requires sector > 0
    ensures bytes <= sectors * sector <==> (bytes + sector - 1) / sector <= sectors
  {
    var up := (bytes + sector - 1) / sector;
    if up <= sectors {
      ProductMonotone(up, sectors, sector);
    } else {
      ProductMonotone(sectors + 1, up, sector);
    }
  }

  lemma InSectors(volumeSize: nat, sector: nat, unit: nat, clusters: nat, fatSectors: nat)
    requires sector > 0 && unit % sector == 0 && volumeSize % sector == 0
    ensures (32 + 2 * fatSectors) * sector + clusters * unit <= volumeSize
       <==> 32 + 2 * fatSectors + clusters * (unit / sector) <= volumeSize / sector
  {
    var per, total := unit / sector, volumeSize / sector;
    var sectors: nat := 32 + 2 * fatSectors + clusters * per;
    assert clusters * unit == clusters * per * sector by {
      assert unit == per * sector;
    }
    assert sectors * sector == (32 + 2 * fatSectors) * sector + clusters * per * sector;
    if sectors <= total {
      ProductMonotone(sectors, total, sector);
    } else {
      ProductMonotone(total + 1, sectors, sector);
    }
  }

  /** Laid out with larger FATs than needed, a volume could be laid out with the smallest as well. */
  lemma LaidOutMeans(volumeSize: nat, sector: nat, unit: nat, clusters: nat, fatSectors: nat)
    requires sector > 0 && unit % sector == 0 && volumeSize % sector == 0
    ensures IsLaidOut(volumeSize, sector, unit, clusters, fatSectors) <==>
              && FatSectors(sector, clusters) <= fatSectors
              && 32 + 2 * fatSectors + clusters * (unit / sector) <= volumeSize / sector
  {
    hide FatSectors;
    RoundsUp(sector, 4 * (clusters + 2), fatSectors);
    InSectors(volumeSize, sector, unit, clusters, fatSectors);
    LeastFat(sector, clusters);
  }

  lemma RoomMeans(volumeSize: nat, sector: nat, unit: nat, clusters: nat)
    requires sector > 0
    ensures HasRoom(volumeSize, sector, unit, clusters) <==>
              32 + 2 * FatSectors(sector, clusters) + clusters * (unit / sector) <= volumeSize / sector
  {
    hide FatSectors;
  }

  /** The count is the most clusters with which such a volume can be laid out in the space there is. */
  lemma CountMeans(volumeSize: nat, sector: nat, unit: nat, clusters: nat)
    requires 0 < sector <= unit && unit % sector == 0 && volumeSize % sector == 0 && clusters > 0
    ensures clusters <= ClusterCount(volumeSize, sector, unit)
       <==> exists fatSectors: nat :: IsLaidOut(volumeSize, sector, unit, clusters, fatSectors)
  {
    hide ClusterCount, FatSectors, IsLaidOut, HasRoom, IsValidGeometry;
    var least := FatSectors(sector, clusters);
    RoomMeans(volumeSize, sector, unit, clusters);
    LaidOutMeans(volumeSize, sector, unit, clusters, least);
    if IsValidGeometry(volumeSize, sector, unit) {
      CountIsLargest(volumeSize, sector, unit, clusters);
    } else {
      NothingCounted(volumeSize, sector, unit);
    }
    if fatSectors: nat :| IsLaidOut(volumeSize, sector, unit, clusters, fatSectors) {
      LaidOutMeans(volumeSize, sector, unit, clusters, fatSectors);
      GeometryIsValid(volumeSize, sector, unit, clusters * (unit / sector), fatSectors);
    }
  }

  lemma GeometryIsValid(volumeSize: nat, sector: nat, unit: nat, dataSectors: nat, fatSectors: nat)
    requires 0 < sector <= unit && unit % sector == 0 && volumeSize % sector == 0 && dataSectors > 0
    requires 32 + 2 * fatSectors + dataSectors <= volumeSize / sector
    ensures IsValidGeometry(volumeSize, sector, unit)
  {}

  lemma LeastFat(sector: nat, clusters: nat)
    requires sector > 0
    ensures FatSectors(sector, clusters) == (4 * (clusters + 2) + sector - 1) / sector
  {}

  lemma NothingCounted(volumeSize: nat, sector: nat, unit: nat)
    requires !IsValidGeometry(volumeSize, sector, unit)
    ensures ClusterCount(volumeSize, sector, unit) == 0
  {}

  // ----- the binary search -----

  /** The sectors needed as 64-bit arithmetic computes them. */
  function MachineRequired(sector: U32, perCluster: U64, clusters: U64): U64
    requires sector > 0
  {
    var fatBytes := Wrap64((clusters + 2) * FAT_ENTRY_BYTES);
    var fatSectors := Wrap64(fatBytes + sector - 1) / sector;
    Wrap64(RESERVED_SECTORS + FAT_COUNT * fatSectors + clusters * perCluster)
  }

  const MODEST_SECTORS: int := 0x1000_0000_0000_0000

  /** Where the 64-bit sums cannot wrap: from four-byte sectors on, which covers every supported size, on any volume;
      on smaller ones while the volume has at most 2 to the 60 sectors. */
  predicate KeepsTo64Bits(sector: nat, total: nat)
  {
    sector >= 4 || total <= MODEST_SECTORS
  }

  /** Nothing the search computes wraps there. */
  lemma RequiredFitsMachine(sector: U32, perCluster: U64, clusters: U64, total: U64)
    requires sector > 0 && KeepsTo64Bits(sector, total) && total <= (TWO_TO_64 - 1) / sector
    requires RESERVED_SECTORS + clusters * perCluster <= total && perCluster > 0
    ensures MachineRequired(sector, perCluster, clusters) == RequiredSectors(sector, perCluster, clusters)
  {
    ProductMonotone(1, perCluster, clusters);
    if sector >= 4 {
      QuarterBound(TWO_TO_64 - 1, sector);
      LiftBound(sector, clusters, total);
      NothingWraps(sector, perCluster, clusters, clusters * perCluster);
    } else {
      NothingWrapsBelow(sector, perCluster, clusters, clusters * perCluster);
    }
  }

  lemma NothingWrapsBelow(sector: U32, perCluster: U64, clusters: U64, dataSectors: nat)
    requires 0 < sector < 4 && clusters <= dataSectors == clusters * perCluster
    requires RESERVED_SECTORS + dataSectors <= MODEST_SECTORS
    ensures MachineRequired(sector, perCluster, clusters) == RequiredSectors(sector, perCluster, clusters)
  {
    var fatBytes := (clusters + 2) * FAT_ENTRY_BYTES;
    var fatSectors := (fatBytes + sector - 1) / sector;
    WrapKeeps(fatBytes);
    WrapKeeps(fatBytes + sector - 1);
    assert fatSectors <= fatBytes + sector - 1;
    WrapKeeps(RESERVED_SECTORS + FAT_COUNT * fatSectors + dataSectors);
    hide Wrap64;
  }

  lemma NothingWraps(sector: U32, perCluster: U64, clusters: U64, dataSectors: nat)
    requires sector >= 4 && dataSectors == clusters * perCluster
    requires RESERVED_SECTORS + dataSectors <= 0x3FFF_FFFF_FFFF_FFFF
    requires (clusters + 2) * FAT_ENTRY_BYTES + sector - 1 < TWO_TO_64
    ensures MachineRequired(sector, perCluster, clusters) == RequiredSectors(sector, perCluster, clusters)
  {
    var fatBytes := (clusters + 2) * FAT_ENTRY_BYTES;
    WrapKeeps(fatBytes);
    WrapKeeps(fatBytes + sector - 1);
    QuarterBound(fatBytes + sector - 1, sector);
    hide Wrap64;
    SumFits((fatBytes + sector - 1) / sector, dataSectors, fatBytes + sector - 1);
  }

  lemma SumFits(fatSectors: nat, dataSectors: nat, lifted: nat)
    requires fatSectors <= lifted / 4 && lifted < TWO_TO_64 && RESERVED_SECTORS + dataSectors <= 0x3FFF_FFFF_FFFF_FFFF
    ensures Wrap64(RESERVED_SECTORS + FAT_COUNT * fatSectors + dataSectors) == RESERVED_SECTORS + FAT_COUNT * fatSectors + dataSectors
  {}

  lemma LiftBound(sector: U32, clusters: nat, total: nat)
    requires sector >= 4 && total <= (TWO_TO_64 - 1) / sector && RESERVED_SECTORS + clusters <= total
    ensures (clusters + 2) * FAT_ENTRY_BYTES + sector - 1 < TWO_TO_64
  {
    ProductMonotone(4, sector, clusters + 2);
    ProductMonotone(clusters + 3, total, sector);
    assert (clusters + 3) * sector == (clusters + 2) * sector + sector;
    assert total * sector <= (TWO_TO_64 - 1) / sector * sector by {
      ProductMonotone(total, (TWO_TO_64 - 1) / sector, sector);
    }
  }

  lemma MiddleFits(total: nat, perCluster: nat, middle: nat)
    requires total > RESERVED_SECTORS && perCluster > 0 && middle <= (total - RESERVED_SECTORS) / perCluster
    ensures RESERVED_SECTORS + middle * perCluster <= total
  {
    ProductMonotone(middle, (total - RESERVED_SECTORS) / perCluster, perCluster);
  }

  /** What the search starts from: counts up to `most` keep the data within the volume. */
  ghost predicate SearchBounds(total: nat, sector: U32, perCluster: nat, most: nat)
  {
    && sector > 0 && total <= (TWO_TO_64 - 1) / sector
    && perCluster > 0 && RESERVED_SECTORS + most * perCluster <= total
  }

  /** The comparison the search makes is the question whether there is room. */
  lemma SearchStep(total: U64, sector: U32, perCluster: U64, most: nat, middle: U64)
    requires KeepsTo64Bits(sector, total) && SearchBounds(total, sector, perCluster, most) && middle <= most
    ensures MachineRequired(sector, perCluster, middle) == RequiredSectors(sector, perCluster, middle)
  {
    hide RequiredSectors, MachineRequired;
    ProductMonotone(middle, most, perCluster);
    RequiredFitsMachine(sector, perCluster, middle, total);
  }

  method Search(total: U64, sector: U32, perCluster: U64, most: U64) returns (low: U64)
    requires SearchBounds(total, sector, perCluster, most)
    ensures low <= most
    ensures KeepsTo64Bits(sector, total) && low > 0 ==> RequiredSectors(sector, perCluster, low) <= total
    ensures KeepsTo64Bits(sector, total) && low < most ==> total < RequiredSectors(sector, perCluster, low + 1)
  {
    assert sector > 0;
    hide SearchBounds, RequiredSectors, MachineRequired, Wrap64, KeepsTo64Bits;
    low := 0;
    var high: U64 := most;
    while low < high
      invariant low <= high <= most
      invariant KeepsTo64Bits(sector, total) && low > 0 ==> RequiredSectors(sector, perCluster, low) <= total
      invariant KeepsTo64Bits(sector, total) && high < most ==> total < RequiredSectors(sector, perCluster, high + 1)
    {
      var middle: U64 := low + (high - low + 1) / 2;
      if KeepsTo64Bits(sector, total) {
        SearchStep(total, sector, perCluster, most, middle);
      }
      if MachineRequired(sector, perCluster, middle) <= total {
        low := middle;
      } else {
        high := middle - 1;
      }
    }
  }

  /** A count that fits while the next does not is the largest. */
  lemma SearchedCount(volumeSize: nat, sector: nat, unit: nat, count: nat, most: nat)
    requires IsValidGeometry(volumeSize, sector, unit) && unit / sector > 0
    requires most == (volumeSize / sector - RESERVED_SECTORS) / (unit / sector) && count <= most
    requires count > 0 ==> HasRoom(volumeSize, sector, unit, count)
    requires count < most ==> !HasRoom(volumeSize, sector, unit, count + 1)
    ensures count == ClusterCount(volumeSize, sector, unit)
  {
    var perCluster := unit / sector;
    if count > 0 {
      CountIsLargest(volumeSize, sector, unit, count);
    }
    CountIsLargest(volumeSize, sector, unit, count + 1);
    PastMost(volumeSize / sector - RESERVED_SECTORS, perCluster, count + 1);
    hide FatSectors, ClusterCount;
  }

  lemma PastMost(room: nat, perCluster: nat, n: nat)
    requires perCluster > 0
    ensures n > room / perCluster ==> n * perCluster > room
  {
    if n > room / perCluster {
      ProductMonotone(room / perCluster + 1, n, perCluster);
      assert (room / perCluster + 1) * perCluster == room / perCluster * perCluster + perCluster;
    }
  }

  /** The search finds the largest count that fits. */
  method DataClusterCount(volumeSize: U64, sectorSize: U32, allocationUnitSize: U32) returns (clusters: U64)
    ensures sectorSize == 0 || KeepsTo64Bits(sectorSize, volumeSize / sectorSize) ==>
              clusters == ClusterCount(volumeSize, sectorSize, allocationUnitSize)
  {
    if sectorSize == 0 || allocationUnitSize < sectorSize || allocationUnitSize % sectorSize != 0
       || volumeSize % sectorSize != 0
    {
      return 0;
    }
    var totalSectors := volumeSize / sectorSize;
    if totalSectors <= RESERVED_SECTORS {
      return 0;
    }
    PerClusterPositive(sectorSize, allocationUnitSize);
    var sectorsPerCluster := allocationUnitSize / sectorSize;
    var most := (totalSectors - RESERVED_SECTORS) / sectorsPerCluster;
    MiddleFits(totalSectors, sectorsPerCluster, most);
    QuotientMonotone(volumeSize, TWO_TO_64 - 1, sectorSize);
    hide RequiredSectors, ClusterCount, KeepsTo64Bits;
    clusters := Search(totalSectors, sectorSize, sectorsPerCluster, most);
    if KeepsTo64Bits(sectorSize, totalSectors) {
      SearchedCount(volumeSize, sectorSize, allocationUnitSize, clusters, most);
    }
  }

  // ----- how the count moves -----

  lemma LargerVolumeHasRoom(a: nat, b: nat, sector: nat, unit: nat, n: nat)
    requires sector > 0 && a <= b && HasRoom(a, sector, unit, n)
    ensures HasRoom(b, sector, unit, n)
  {
    QuotientMonotone(a, b, sector);
  }

  lemma SmallerUnitHasRoom(volumeSize: nat, sector: nat, a: nat, b: nat, n: nat)
    requires sector > 0 && a <= b && HasRoom(volumeSize, sector, b, n)
    ensures HasRoom(volumeSize, sector, a, n)
  {
    QuotientMonotone(a, b, sector);
    ProductMonotone(a / sector, b / sector, n);
  }

  /** A larger volume never holds fewer clusters, unless it is not a whole number of sectors. */
  lemma CountGrowsWithVolume(a: nat, b: nat, sector: nat, unit: nat)
    requires a <= b
    ensures sector > 0 && b % sector == 0 ==> ClusterCount(a, sector, unit) <= ClusterCount(b, sector, unit)
    ensures sector > 0 && b % sector != 0 ==> ClusterCount(b, sector, unit) == 0
  {
    var count := ClusterCount(a, sector, unit);
    if sector > 0 && b % sector == 0 && count > 0 {
      QuotientMonotone(a, b, sector);
      CountIsLargest(a, sector, unit, count);
      LargerVolumeHasRoom(a, b, sector, unit, count);
      hide HasRoom, ClusterCount;
      CountIsLargest(b, sector, unit, count);
    }
  }

  /** A larger allocation unit never gives more clusters, if the smaller one is a whole number of sectors; with any
      other there are none. */
  lemma CountShrinksWithUnit(volumeSize: nat, sector: nat, a: nat, b: nat)
    requires a <= b
    ensures 0 < sector <= a && a % sector == 0 ==> ClusterCount(volumeSize, sector, b) <= ClusterCount(volumeSize, sector, a)
    ensures sector == 0 || a < sector || a % sector != 0 ==> ClusterCount(volumeSize, sector, a) == 0
  {
    var count := ClusterCount(volumeSize, sector, b);
    if 0 < sector <= a && a % sector == 0 && count > 0 {
      CountIsLargest(volumeSize, sector, b, count);
      SmallerUnitHasRoom(volumeSize, sector, a, b, count);
      hide HasRoom, ClusterCount;
      CountIsLargest(volumeSize, sector, a, count);
    }
  }

  /** One byte more than a whole number of sectors, and nothing fits. */
  lemma UnalignedVolumeHoldsNothing()
    ensures ClusterCount(64 * ONE_MIB, 512, 512) > 0 && ClusterCount(64 * ONE_MIB + 1, 512, 512) == 0
  {
    CountIsLargest(64 * ONE_MIB, 512, 512, 1);
  }

  /** Doubling the unit halves the count at worst. */
  lemma DoubledUnitHasRoom(volumeSize: nat, sector: nat, unit: nat, n: nat)
    requires 0 < sector <= unit && unit % sector == 0 && HasRoom(volumeSize, sector, unit, 2 * n)
    ensures HasRoom(volumeSize, sector, 2 * unit, n)
  {
    var perCluster := unit / sector;
    RequiredMonotone(sector, perCluster, n, 2 * n);
    QuotientMonotone((n + 2) * FAT_ENTRY_BYTES + sector - 1, (2 * n + 2) * FAT_ENTRY_BYTES + sector - 1, sector);
    DoubledUnit(sector, unit);
    assert (2 * n) * perCluster == n * (2 * perCluster);
    hide FatSectors;
  }

  lemma DoubledUnit(sector: nat, unit: nat)
    requires 0 < sector && unit % sector == 0
    ensures (2 * unit) / sector == 2 * (unit / sector) && (2 * unit) % sector == 0
  {
    var k := unit / sector;
    assert 2 * unit == (2 * k) * sector;
    WholeQuotient(2 * k, sector);
  }

  lemma WholeQuotient(k: nat, d: nat)
    requires d > 0
    ensures k * d / d == k && (k * d) % d == 0
  {
    QuotientLeast(k * d, d, k);
    if k * d / d < k {
      ProductMonotone(k * d / d + 1, k, d);
    }
  }

  // ----- choosing the allocation unit -----

  const MINIMUM_CLUSTERS: int := 65527
  const MAXIMUM_CLUSTERS: int := 4177917
  const ONE_GIB: int := 1024 * ONE_MIB
  const ALLOCATION_UNIT_SIZES: seq<U32> :=
    [512, 1024, 2048, 4096, 8192, 16 * 1024, 32 * 1024, 64 * 1024, 128 * 1024, 256 * 1024]

  function PreferredUnit(volumeSize: U64): U32
  {
    if volumeSize <= 64 * ONE_MIB then 512
    else if volumeSize <= 128 * ONE_MIB then 1024
    else if volumeSize <= 256 * ONE_MIB then 2048
    else if volumeSize <= 8 * ONE_GIB then 4096
    else if volumeSize <= 16 * ONE_GIB then 8 * 1024
    else if volumeSize <= 32 * ONE_GIB then 16 * 1024
    else 32 * 1024
  }

  /** The largest volume each unit is preferred for, where there is one. */
  lemma PreferredUpTo(volumeSize: U64)
    ensures var unit := PreferredUnit(volumeSize);
            || (unit == 0x200 && volumeSize <= 0x400_0000)
            || (unit == 0x400 && 0x400_0000 < volumeSize <= 0x800_0000)
            || (unit == 0x800 && 0x800_0000 < volumeSize <= 0x1000_0000)
            || (unit == 0x1000 && 0x1000_0000 < volumeSize <= 0x2_0000_0000)
            || (unit == 0x2000 && 0x2_0000_0000 < volumeSize <= 0x4_0000_0000)
            || (unit == 0x4000 && 0x4_0000_0000 < volumeSize <= 0x8_0000_0000)
            || (unit == 0x8000 && 0x8_0000_0000 < volumeSize)
  {}

  /** A unit is legal exactly if it is a power of two from 512 bytes to 256 KiB, but only to 64 KiB on 512-byte
      sectors, makes whole sectors, and gives a number of clusters Windows takes for FAT32. */
  lemma LegalMeans(volumeSize: U64, sectorSize: U32, unit: U32)
    requires sectorSize > 0
    ensures LegalUnit(volumeSize, sectorSize, unit) <==>
              && unit in {0x200, 0x400, 0x800, 0x1000, 0x2000, 0x4000, 0x8000, 0x1_0000, 0x2_0000, 0x4_0000}
              && (sectorSize == 512 ==> unit <= 0x1_0000) && sectorSize <= unit && unit % sectorSize == 0
              && 65527 <= ClusterCount(volumeSize, sectorSize, unit) <= 4177917
  {
    hide ClusterCount;
    assert unit in ALLOCATION_UNIT_SIZES <==>
             unit in {0x200, 0x400, 0x800, 0x1000, 0x2000, 0x4000, 0x8000, 0x1_0000, 0x2_0000, 0x4_0000} by {
      var units := ALLOCATION_UNIT_SIZES;
      assert units == [units[0], units[1], units[2], units[3], units[4], units[5], units[6], units[7], units[8], units[9]];
    }
  }

  /** The units a sector size allows; the two largest need sectors above 512 bytes. */
  predicate AllowedUnit(sectorSize: U32, unit: U32)
  {
    && unit in ALLOCATION_UNIT_SIZES
    && (unit > 64 * 1024 ==> sectorSize != 512)
    && sectorSize > 0 && sectorSize <= unit && unit % sectorSize == 0
  }

  predicate LegalUnit(volumeSize: U64, sectorSize: U32, unit: U32)
  {
    && AllowedUnit(sectorSize, unit)
    && MINIMUM_CLUSTERS <= ClusterCount(volumeSize, sectorSize, unit) <= MAXIMUM_CLUSTERS
  }

  /** The largest legal unit not above the preferred one, or the smallest legal one if there is none, or 0. */
  ghost predicate IsBestUnit(volumeSize: U64, sectorSize: U32, preferred: U32, among: seq<U32>, best: U32)
  {
    if best == 0 then forall u :: u in among ==> !LegalUnit(volumeSize, sectorSize, u)
    else
      && best in among && LegalUnit(volumeSize, sectorSize, best)
      && forall u :: u in among && LegalUnit(volumeSize, sectorSize, u) ==>
           if best <= preferred then u <= best || u > preferred else best <= u
  }

  lemma UnitsAscend(i: nat, j: nat)
    requires i < j < 10
    ensures |ALLOCATION_UNIT_SIZES| == 10
    ensures 0 < ALLOCATION_UNIT_SIZES[i] < ALLOCATION_UNIT_SIZES[j]
  {}

  lemma BestUnitStep(volumeSize: U64, sectorSize: U32, preferred: U32, i: nat, best: U32)
    requires i < |ALLOCATION_UNIT_SIZES|
    requires IsBestUnit(volumeSize, sectorSize, preferred, ALLOCATION_UNIT_SIZES[..i], best)
    ensures var unit := ALLOCATION_UNIT_SIZES[i];
            IsBestUnit(volumeSize, sectorSize, preferred, ALLOCATION_UNIT_SIZES[..i + 1],
                       if LegalUnit(volumeSize, sectorSize, unit) && (best == 0 || unit <= preferred) then unit else best)
  {
    hide LegalUnit;
    var units := ALLOCATION_UNIT_SIZES;
    var unit := units[i];
    assert units[..i + 1] == units[..i] + [unit];
    forall u | u in units[..i]
      ensures 0 < u < unit
    {
      var k :| 0 <= k < i && units[k] == u;
      UnitsAscend(k, i);
    }
    assert unit > 0;
  }

  lemma NoUnitsYet(volumeSize: U64, sectorSize: U32, preferred: U32)
    ensures IsBestUnit(volumeSize, sectorSize, preferred, ALLOCATION_UNIT_SIZES[..0], 0)
  {}

  /** The legal units are a contiguous run of the allowed ones. */
  lemma LegalUnitsAreContiguous(volumeSize: U64, sectorSize: U32, a: U32, b: U32, c: U32)
    requires LegalUnit(volumeSize, sectorSize, a) && LegalUnit(volumeSize, sectorSize, c)
    requires AllowedUnit(sectorSize, b) && a <= b <= c
    ensures LegalUnit(volumeSize, sectorSize, b)
  {
    hide ClusterCount;
    CountShrinksWithUnit(volumeSize, sectorSize, a, b);
    CountShrinksWithUnit(volumeSize, sectorSize, b, c);
  }

  function LargestUnit(sectorSize: U32): U32
  {
    if sectorSize == 512 then 64 * 1024 else 256 * 1024
  }

  lemma DoubledCount(volumeSize: nat, sector: nat, unit: nat)
    requires 0 < sector <= unit && unit % sector == 0 && ClusterCount(volumeSize, sector, unit) > MAXIMUM_CLUSTERS
    ensures ClusterCount(volumeSize, sector, 2 * unit) >= MINIMUM_CLUSTERS
  {
    var n := MINIMUM_CLUSTERS;
    CountIsLargest(volumeSize, sector, unit, 2 * n);
    DoubledUnitHasRoom(volumeSize, sector, unit, n);
    DoubledUnit(sector, unit);
    assert IsValidGeometry(volumeSize, sector, 2 * unit);
    hide ClusterCount, HasRoom, IsValidGeometry;
    CountIsLargest(volumeSize, sector, 2 * unit, n);
  }

  /** Going up from a unit with enough clusters to one with few enough, some unit on the way is legal. */
  lemma {:induction false} SomeUnitIsLegal(volumeSize: U64, sectorSize: U32, unit: U32)
    returns (legal: U32)
    requires IsSupportedSectorSize(sectorSize) && AllowedUnit(sectorSize, unit)
    requires ClusterCount(volumeSize, sectorSize, unit) >= MINIMUM_CLUSTERS
    requires ClusterCount(volumeSize, sectorSize, LargestUnit(sectorSize)) <= MAXIMUM_CLUSTERS
    ensures LegalUnit(volumeSize, sectorSize, legal)
    decreases LargestUnit(sectorSize) - unit
  {
    hide ClusterCount;
    if ClusterCount(volumeSize, sectorSize, unit) <= MAXIMUM_CLUSTERS {
      legal := unit;
    } else {
      DoubledCount(volumeSize, sectorSize, unit);
      NextUnit(sectorSize, unit);
      legal := SomeUnitIsLegal(volumeSize, sectorSize, 2 * unit);
    }
  }

  lemma NextUnit(sectorSize: U32, unit: U32)
    requires IsSupportedSectorSize(sectorSize) && AllowedUnit(sectorSize, unit)
    ensures unit <= LargestUnit(sectorSize)
    ensures unit < LargestUnit(sectorSize) ==> AllowedUnit(sectorSize, 2 * unit) && 2 * unit <= LargestUnit(sectorSize)
  {
    var units := ALLOCATION_UNIT_SIZES;
    var k :| 0 <= k < |units| && units[k] == unit;
    assert k < 9 ==> units[k + 1] == 2 * unit;
  }

  /** There is a legal unit exactly when the smallest unit gives enough clusters and the largest gives few enough. */
  lemma LegalUnitExists(volumeSize: U64, sectorSize: U32)
    requires IsSupportedSectorSize(sectorSize)
    ensures (exists unit: U32 :: LegalUnit(volumeSize, sectorSize, unit))
       <==> && ClusterCount(volumeSize, sectorSize, sectorSize) >= MINIMUM_CLUSTERS
            && ClusterCount(volumeSize, sectorSize, LargestUnit(sectorSize)) <= MAXIMUM_CLUSTERS
  {
    hide ClusterCount;
    if unit: U32 :| LegalUnit(volumeSize, sectorSize, unit) {
      NextUnit(sectorSize, unit);
      CountShrinksWithUnit(volumeSize, sectorSize, sectorSize, unit);
      CountShrinksWithUnit(volumeSize, sectorSize, unit, LargestUnit(sectorSize));
    }
    if && ClusterCount(volumeSize, sectorSize, sectorSize) >= MINIMUM_CLUSTERS
       && ClusterCount(volumeSize, sectorSize, LargestUnit(sectorSize)) <= MAXIMUM_CLUSTERS
    {
      var legal := SomeUnitIsLegal(volumeSize, sectorSize, sectorSize);
    }
  }

  lemma BestMeansLegal(volumeSize: U64, sectorSize: U32, preferred: U32, best: U32)
    requires IsBestUnit(volumeSize, sectorSize, preferred, ALLOCATION_UNIT_SIZES, best)
    ensures best != 0 <==> exists unit: U32 :: LegalUnit(volumeSize, sectorSize, unit)
  {
    hide ClusterCount;
    if best != 0 {
      assert LegalUnit(volumeSize, sectorSize, best);
    }
  }

  method AllocationUnitSize(volumeSize: U64, sectorSize: U32, maximumVolumeSize: U64) returns (best: U32)
    ensures !IsSupportedSectorSize(sectorSize) || volumeSize == 0 || volumeSize > maximumVolumeSize ==> best == 0
    ensures IsSupportedSectorSize(sectorSize) && 0 < volumeSize <= maximumVolumeSize ==>
              IsBestUnit(volumeSize, sectorSize, PreferredUnit(volumeSize), ALLOCATION_UNIT_SIZES, best)
    ensures IsSupportedSectorSize(sectorSize) && 0 < volumeSize <= maximumVolumeSize ==>
              (best != 0 <==> && ClusterCount(volumeSize, sectorSize, sectorSize) >= MINIMUM_CLUSTERS
                              && ClusterCount(volumeSize, sectorSize, LargestUnit(sectorSize)) <= MAXIMUM_CLUSTERS)
  {
    if !IsSupportedSectorSize(sectorSize) || volumeSize == 0 || volumeSize > maximumVolumeSize {
      return 0;
    }
    var preferred := PreferredUnit(volumeSize);
    best := 0;
    hide IsBestUnit, ClusterCount, PreferredUnit;
    NoUnitsYet(volumeSize, sectorSize, preferred);
    for i := 0 to |ALLOCATION_UNIT_SIZES|
      invariant IsBestUnit(volumeSize, sectorSize, preferred, ALLOCATION_UNIT_SIZES[..i], best)
    {
      var unit := ALLOCATION_UNIT_SIZES[i];
      BestUnitStep(volumeSize, sectorSize, preferred, i, best);
      if (unit > 64 * 1024 && sectorSize == 512) || unit < sectorSize || unit % sectorSize != 0 {
        continue;
      }
      var clusterCount := DataClusterCount(volumeSize, sectorSize, unit);
      if clusterCount < MINIMUM_CLUSTERS || clusterCount > MAXIMUM_CLUSTERS {
        continue;
      }
      if best == 0 || unit <= preferred {
        best := unit;
      }
    }
    assert ALLOCATION_UNIT_SIZES[..|ALLOCATION_UNIT_SIZES|] == ALLOCATION_UNIT_SIZES;
    BestMeansLegal(volumeSize, sectorSize, preferred, best);
    LegalUnitExists(volumeSize, sectorSize);
  }

  // ----- the formatter's limits -----

  const MKFS_MINIMUM_CLUSTERS: int := 65525

  /** The smallest volume with that many one-sector clusters, before rounding. */
  function BareMinimumBytes(sectorSize: U32): nat
    requires sectorSize > 0
  {
    var fatBytes := (MKFS_MINIMUM_CLUSTERS + 2) * FAT_ENTRY_BYTES;
    var fatSectors := (fatBytes + sectorSize - 1) / sectorSize;
    (RESERVED_SECTORS + FAT_COUNT * fatSectors + MKFS_MINIMUM_CLUSTERS) * sectorSize
  }

  function MinimumMkfsVolumeBytes(sectorSize: U32): nat
  {
    if !IsSupportedSectorSize(sectorSize) then 0
    else (BareMinimumBytes(sectorSize) + ONE_MIB - 1) / ONE_MIB * ONE_MIB
  }

  function MaximumMkfsVolumeBytes(sectorSize: U32): nat
  {
    if !IsSupportedSectorSize(sectorSize) then 0 else U32_MAX * sectorSize
  }

  /** The independently computed minimum is where the search starts to find enough clusters. */
  lemma BareMinimumIsTight(volumeSize: nat, sectorSize: U32)
    requires IsSupportedSectorSize(sectorSize) && volumeSize % sectorSize == 0
    ensures ClusterCount(volumeSize, sectorSize, sectorSize) >= 65525
       <==> volumeSize >= BareMinimumBytes(sectorSize)
  {
    var total := volumeSize / sectorSize;
    var needed := RequiredSectors(sectorSize, 1, MKFS_MINIMUM_CLUSTERS);
    assert sectorSize / sectorSize == 1 && sectorSize % sectorSize == 0;
    assert BareMinimumBytes(sectorSize) == needed * sectorSize;
    ScaleBySector(sectorSize, needed, total);
    SectorsRoundDown(sectorSize, volumeSize);
    if total > RESERVED_SECTORS {
      CountIsLargest(volumeSize, sectorSize, sectorSize, MKFS_MINIMUM_CLUSTERS);
    }
    hide FatSectors, LargestUpTo, BareMinimumBytes;
  }

  datatype FileSystemRefusal = NoFat32Sectors | TooLargeForFat32 | TooSmallForFat32 | FileSystemFits

  function FileSystemCheck(fileSystem: FileSystemType, diskSize: U64, sectorSize: U32): FileSystemRefusal
  {
    if fileSystem != Fat32 then FileSystemFits
    else
      var length := CalculateGptLayout(diskSize, sectorSize).length;
      var maximum := MaximumMkfsVolumeBytes(sectorSize);
      var minimum := MinimumMkfsVolumeBytes(sectorSize);
      if maximum == 0 || minimum == 0 then NoFat32Sectors
      else if length > maximum then TooLargeForFat32
      else if length < minimum then TooSmallForFat32
      else FileSystemFits
  }

  predicate CanCreateFileSystemOn(fileSystem: FileSystemType, diskSize: U64, sectorSize: U32)
  {
    FileSystemCheck(fileSystem, diskSize, sectorSize) == FileSystemFits
  }

  lemma WholeMibsReachMinimum(length: nat, bare: nat)
    requires length % ONE_MIB == 0
    ensures length >= (bare + ONE_MIB - 1) / ONE_MIB * ONE_MIB <==> length >= bare
  {}

  /** The other file systems are offered on every disk. */
  lemma OthersAreOffered(fileSystem: FileSystemType, diskSize: U64, sectorSize: U32)
    requires fileSystem != Fat32
    ensures CanCreateFileSystemOn(fileSystem, diskSize, sectorSize)
  {
    hide CalculateGptLayout;
  }

  /** FAT32 is offered exactly when the partition holds the 65525 clusters that make it FAT32 and its
      sectors can be counted in 32 bits. */
  lemma Fat32IsOfferedExactly(diskSize: U64, sectorSize: U32)
    requires IsSupportedSectorSize(sectorSize)
    ensures var length := CalculateGptLayout(diskSize, sectorSize).length;
            (CanCreateFileSystemOn(Fat32, diskSize, sectorSize)
             <==> && ClusterCount(length, sectorSize, sectorSize) >= 65525
                  && length / sectorSize <= 0xFFFF_FFFF)
  {
    hide CalculateGptLayout, ClusterCount, BareMinimumBytes, BackupBytes;
    var length := CalculateGptLayout(diskSize, sectorSize).length;
    CalculatedLayoutBounds(diskSize, sectorSize);
    MibInSectors(sectorSize, length / ONE_MIB);
    SectorsRoundDown(sectorSize, length);
    BareMinimumIsTight(length, sectorSize);
    WholeMibsReachMinimum(length, BareMinimumBytes(sectorSize));
    ScaleBySector(sectorSize, length / sectorSize, U32_MAX);
    MinimumIsPositive(sectorSize);
    hide IsSupportedSectorSize;
  }

  lemma MinimumIsPositive(sectorSize: U32)
    requires IsSupportedSectorSize(sectorSize)
    ensures MinimumMkfsVolumeBytes(sectorSize) > 0 && MaximumMkfsVolumeBytes(sectorSize) > 0
  {}
}
