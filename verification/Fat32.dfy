/** The FAT32 volume: BPB validation in `mount`, sector arithmetic, and single FAT lookups. */
module Fat32 {
  import opened Machine
  import opened Storage

  const FAT32_EOC: u32 := 0x0fff_fff8
  const FAT32_BAD_CLUSTER: u32 := 0x0fff_fff7
  const U32_LIMIT := 0x1_0000_0000
  const MIN_CLUSTERS := 65_525

  datatype FsError =
    | Device(cause: StorageError)
    | InvalidBootSector
    | UnsupportedVolume
    | InvalidCluster
    | CorruptFat
    | DirectoryLoop
    | NotFound
    | NotDirectory
    | IsDirectory
    | TruncatedFile

  datatype Volume = Volume(
    disk: Disk,
    sectorsPerCluster: u32,
    fatStart: u32,
    sectorsPerFat: u32,
    firstData: u32,
    root: u32,
    clusterCount: u32)
  {
    /** What every volume returned by Mount satisfies; the source's fields are private and never change. */
    ghost predicate WellFormed() {
      && 1 <= sectorsPerCluster < 0x100
      && 1 <= fatStart && 1 <= sectorsPerFat
      && fatStart + sectorsPerFat <= firstData
      && MIN_CLUSTERS <= clusterCount
      && DataEnd() <= SectorCount(disk)
      && DataEnd() < U32_LIMIT
      && IsValidCluster(root)
    }

    /** One past the last sector of the data area. */
    function DataEnd(): nat {
      firstData + Times(clusterCount, sectorsPerCluster)
    }

    // `cluster_count + 2` is a u32 sum in the source: AddTwoFits shows that it cannot overflow.
    predicate IsValidCluster(cluster: u32) {
      2 <= cluster < clusterCount + 2
    }

    function ClusterBytes(): nat {
      sectorsPerCluster * SECTOR_SIZE
    }
  }

  // ---------- mount ----------

  /** The boot sector fields that `mount` looks at. */
  datatype Bpb = Bpb(
    bytesPerSector: u16,
    sectorsPerCluster: byte,
    reserved: u16,
    fatCount: byte,
    rootEntries: u16,
    total16: u16,
    fatSize16: u16,
    total32: u32,
    sectorsPerFat: u32,
    root: u32)
  {
    function Total(): u32 {
      if total16 != 0 then total16 else total32
    }
  }

  function ParseBpb(sector: seq<byte>): Bpb
    requires |sector| == SECTOR_SIZE
  {
    Bpb(LeU16(sector, 11), sector[13], LeU16(sector, 14), sector[16], LeU16(sector, 17), LeU16(sector, 19),
        LeU16(sector, 22), LeU32(sector, 32), LeU32(sector, 36), LeU32(sector, 44))
  }

  predicate HasSignature(sector: seq<byte>)
    requires |sector| == SECTOR_SIZE
  {
    sector[510] == 0x55 && sector[511] == 0xaa
  }

  function FatSectors(b: Bpb): nat {
    Times(b.fatCount, b.sectorsPerFat)
  }

  function WholeClusters(sectors: u32, perCluster: u32): (n: u32)
    requires 0 < perCluster
    ensures Times(n, perCluster) <= sectors < Times(n, perCluster) + perCluster
  {
    QuotientBounds(sectors, perCluster);
    TimesAtLeast(Quotient(sectors, perCluster), perCluster);
    Quotient(sectors, perCluster)
  }

  predicate SupportedHeader(b: Bpb) {
    && b.bytesPerSector == SECTOR_SIZE
    && b.sectorsPerCluster != 0 && IsPowerOfTwo(b.sectorsPerCluster)
    && b.reserved != 0 && b.fatCount != 0 && b.fatSize16 == 0 && b.sectorsPerFat != 0
    && b.rootEntries == 0 && b.root >= 2
  }

  /** The sum `cluster_count + 2` in `mount` does not overflow, before any bound on it is checked. */
  lemma ClusterEndFits(b: Bpb, clusterCount: u32)
    requires SupportedHeader(b) && Times(clusterCount, b.sectorsPerCluster) <= b.Total() - b.reserved - FatSectors(b)
    ensures clusterCount + 2 < U32_LIMIT
  {
    TimesAtLeast(clusterCount, b.sectorsPerCluster);
    TimesStep(0, b.fatCount, b.sectorsPerFat);
  }

  /** The second half of `mount`: checked u32 arithmetic over the header's fields. */
  function CheckLayout(disk: Disk, b: Bpb): Result<Volume, FsError>
    requires SupportedHeader(b)
  {
    var fats := FatSectors(b);
    if fats >= U32_LIMIT || b.reserved + fats >= U32_LIMIT then Err(InvalidBootSector)
    else
      var firstData: u32 := b.reserved + fats;
      var total := b.Total();
      if total <= firstData || total > SectorCount(disk) then Err(InvalidBootSector)
      else
        var clusterCount := WholeClusters(total - firstData, b.sectorsPerCluster);
        ClusterEndFits(b, clusterCount);
        var clusterEnd: u32 := clusterCount + 2;
        if clusterCount < MIN_CLUSTERS || b.root >= clusterEnd then Err(UnsupportedVolume)
        else if b.root >= b.sectorsPerFat * SECTOR_SIZE / 4 then Err(InvalidBootSector)
        else Ok(Volume(disk, b.sectorsPerCluster, b.reserved, b.sectorsPerFat, firstData, b.root, clusterCount))
  }

  function CheckBpb(disk: Disk, b: Bpb): Result<Volume, FsError> {
    if !SupportedHeader(b) then Err(UnsupportedVolume) else CheckLayout(disk, b)
  }

  function Mount(disk: Disk): Result<Volume, FsError> {
    match SectorAt(disk, 0)
    case Err(e) => Err(Device(e))
    case Ok(sector) =>
      if !HasSignature(sector) then Err(InvalidBootSector) else CheckBpb(disk, ParseBpb(sector))
  }

  // The rules over the raw fields, in unbounded arithmetic.

  ghost predicate SupportedFields(b: Bpb) {
    && b.bytesPerSector == 512
    && b.sectorsPerCluster in {1, 2, 4, 8, 16, 32, 64, 128}
    && 1 <= b.reserved && 1 <= b.fatCount && 1 <= b.sectorsPerFat
    && b.fatSize16 == 0 && b.rootEntries == 0 && 2 <= b.root
  }

  /** The volume's length: the 16-bit field, or the 32-bit one where that is zero. */
  ghost predicate Declares(b: Bpb, total: nat) {
    (b.total16 != 0 && total == b.total16) || (b.total16 == 0 && total == b.total32)
  }

  /** The sectors before the data area. */
  ghost function Overhead(b: Bpb): nat {
    b.reserved + b.fatCount * b.sectorsPerFat
  }

  /** The FATs end before the volume does, and the volume fits the device. */
  ghost predicate FitsDevice(b: Bpb, sectors: nat) {
    exists total: nat :: Declares(b, total) && Overhead(b) < total <= sectors
  }

  /** At least 65,525 whole clusters follow the FATs, and the root directory's first cluster is one of them. */
  ghost predicate EnoughClusters(b: Bpb) {
    exists total: nat :: Declares(b, total)
      && Overhead(b) + 65_525 * b.sectorsPerCluster <= total
      && Overhead(b) + (b.root - 1) * b.sectorsPerCluster <= total
  }

  ghost predicate RootHasFatEntry(b: Bpb) {
    4 * b.root < b.sectorsPerFat * 512
  }

  ghost predicate SupportedLayout(b: Bpb, sectors: nat) {
    SupportedFields(b) && FitsDevice(b, sectors) && EnoughClusters(b) && RootHasFatEntry(b)
  }

  /** The accepted cluster sizes are exactly the powers of two. */
  lemma PowerOfTwoForms(n: nat)
    ensures IsPowerOfTwo(n) <==> exists k :: n == Pow2(k)
  {
    if IsPowerOfTwo(n) {
      var k := PowerOfTwoHasExponent(n);
    }
    if k :| n == Pow2(k) {
      Pow2IsPowerOfTwo(k);
    }
  }

  lemma BytePowersOfTwo(n: byte)
    ensures IsPowerOfTwo(n) <==> n in {1, 2, 4, 8, 16, 32, 64, 128}
  {
    assert Pow2(4) == 16 && Pow2(8) == 256;
    if IsPowerOfTwo(n) {
      var k := PowerOfTwoHasExponent(n);
      if 8 <= k {
        Pow2Monotone(8, k);
      }
      assert k in {0, 1, 2, 3, 4, 5, 6, 7};
    }
    assert IsPowerOfTwo(16);
  }

  /** The header test of `mount` is the rules over the raw fields. */
  lemma HeaderRules(b: Bpb)
    ensures SupportedHeader(b) <==> SupportedFields(b)
  {
    BytePowersOfTwo(b.sectorsPerCluster);
  }

  lemma LengthIsDeclared(b: Bpb)
    ensures Declares(b, b.Total())
    ensures forall total: nat :: Declares(b, total) ==> total == b.Total()
  {
  }

  lemma OverheadIsSum(b: Bpb)
    ensures Overhead(b) == b.reserved + FatSectors(b)
  {
    TimesIsProduct(b.fatCount, b.sectorsPerFat);
  }

  lemma ClusterRules(data: u32, perCluster: u32, root: u32)
    requires 0 < perCluster && 2 <= root
    ensures MIN_CLUSTERS <= WholeClusters(data, perCluster) <==> 65_525 * perCluster <= data
    ensures root < WholeClusters(data, perCluster) + 2 <==> (root - 1) * perCluster <= data
  {
    QuotientAtLeast(data, perCluster, MIN_CLUSTERS);
    QuotientAtLeast(data, perCluster, root - 1);
    TimesIsProduct(MIN_CLUSTERS, perCluster);
    TimesIsProduct(root - 1, perCluster);
  }

  lemma LayoutRules(b: Bpb, sectors: nat)
    ensures FitsDevice(b, sectors) <==> b.reserved + FatSectors(b) < b.Total() <= sectors
    ensures EnoughClusters(b) <==>
            && b.reserved + FatSectors(b) + 65_525 * b.sectorsPerCluster <= b.Total()
            && b.reserved + FatSectors(b) + (b.root - 1) * b.sectorsPerCluster <= b.Total()
  {
    LengthIsDeclared(b);
    OverheadIsSum(b);
    hide Declares, Overhead, FatSectors, Bpb.Total;
  }

  /** Each check of the layout fails on its own condition, in the order of the code. */
  lemma LayoutOutcome(disk: Disk, b: Bpb)
    requires SupportedHeader(b)
    ensures match CheckLayout(disk, b)
            case Ok(_) => FitsDevice(b, SectorCount(disk)) && EnoughClusters(b) && RootHasFatEntry(b)
            case Err(e) =>
              if !FitsDevice(b, SectorCount(disk)) then e == InvalidBootSector
              else if !EnoughClusters(b) then e == UnsupportedVolume
              else e == InvalidBootSector && !RootHasFatEntry(b)
  {
    hide Times, WholeClusters, FatSectors, IsPowerOfTwo;
    LayoutRules(b, SectorCount(disk));
    hide FitsDevice, EnoughClusters;
    var firstData := b.reserved + FatSectors(b);
    if firstData <= b.Total() {
      ClusterRules(b.Total() - firstData, b.sectorsPerCluster, b.root);
    }
  }

  /** `mount` accepts exactly the supported layouts that fit the device. */
  lemma MountAcceptsExactly(disk: Disk)
    requires 1 <= SectorCount(disk)
    ensures Mount(disk).Ok? <==>
            && disk[510] == 0x55 && disk[511] == 0xaa
            && SupportedLayout(ParseBpb(disk[..512]), SectorCount(disk))
  {
    assert SectorAt(disk, 0) == Ok(disk[..512]);
    var b := ParseBpb(disk[..512]);
    HeaderRules(b);
    hide ParseBpb, CheckLayout, FitsDevice, EnoughClusters, RootHasFatEntry;
    if SupportedHeader(b) {
      LayoutOutcome(disk, b);
    }
    hide SupportedHeader, SupportedFields;
  }

  /** Which error `mount` gives every disk that it rejects. */
  lemma MountRejectsExactly(disk: Disk)
    ensures Mount(disk) == Err(Device(SectorOutOfRange)) <==> SectorCount(disk) == 0
    ensures 1 <= SectorCount(disk) ==>
              var signed := disk[510] == 0x55 && disk[511] == 0xaa;
              var b := ParseBpb(disk[..512]);
              && (Mount(disk) == Err(InvalidBootSector) <==>
                  || !signed
                  || (SupportedFields(b) && !FitsDevice(b, SectorCount(disk)))
                  || (SupportedFields(b) && EnoughClusters(b) && !RootHasFatEntry(b)))
              && (Mount(disk) == Err(UnsupportedVolume) <==>
                  signed && (!SupportedFields(b) || (FitsDevice(b, SectorCount(disk)) && !EnoughClusters(b))))
  {
    if 1 <= SectorCount(disk) {
      assert SectorAt(disk, 0) == Ok(disk[..512]);
      var b := ParseBpb(disk[..512]);
      HeaderRules(b);
      hide ParseBpb, CheckLayout, FitsDevice, EnoughClusters, RootHasFatEntry;
      if SupportedHeader(b) {
        LayoutOutcome(disk, b);
      }
      hide SupportedHeader, SupportedFields;
    }
  }

  /** The volume that a boot sector with these fields describes on this disk. */
  ghost predicate Describes(b: Bpb, disk: Disk, v: Volume) {
    && v.disk == disk
    && v.sectorsPerCluster == b.sectorsPerCluster && 0 < v.sectorsPerCluster
    && v.fatStart == b.reserved && v.sectorsPerFat == b.sectorsPerFat && v.root == b.root
    && v.firstData == Overhead(b)
    && exists total: nat :: Declares(b, total)
         && v.firstData <= total && v.clusterCount == (total - v.firstData) / v.sectorsPerCluster
  }

  lemma CheckedIsWellFormed(disk: Disk, b: Bpb)
    requires CheckBpb(disk, b).Ok?
    ensures var v := CheckBpb(disk, b).value;
            && v.WellFormed() && Describes(b, disk, v)
            && v.DataEnd() <= b.Total() < v.DataEnd() + v.sectorsPerCluster
            && 4 * v.root < v.sectorsPerFat * SECTOR_SIZE
  {
    TimesStep(0, b.fatCount, b.sectorsPerFat);
    OverheadIsSum(b);
    LengthIsDeclared(b);
    QuotientIsDivision(b.Total() - Overhead(b), b.sectorsPerCluster);
    hide Overhead, IsPowerOfTwo, Times;
    assert Declares(b, b.Total());
  }

  /** A mounted volume has the boot sector's layout, is well formed, and holds every whole cluster after its FATs. */
  lemma MountedIsWellFormed(disk: Disk)
    requires Mount(disk).Ok?
    ensures 1 <= SectorCount(disk) && SectorAt(disk, 0).value == disk[..512]
    ensures var v, b := Mount(disk).value, ParseBpb(disk[..512]);
            && v.WellFormed() && Describes(b, disk, v)
            && v.DataEnd() <= b.Total() < v.DataEnd() + v.sectorsPerCluster
            && 4 * v.root < v.sectorsPerFat * SECTOR_SIZE
  {
    assert SectorAt(disk, 0) == Ok(disk[..512]);
    hide ParseBpb, CheckBpb, Volume.WellFormed, Describes;
    CheckedIsWellFormed(disk, ParseBpb(disk[..512]));
  }

  /** The u32 sum `cluster_count + 2` never overflows on a mounted volume. */
  lemma AddTwoFits(v: Volume)
    requires v.WellFormed()
    ensures v.clusterCount + 2 < U32_LIMIT
  {
    TimesAtLeast(v.clusterCount, v.sectorsPerCluster);
  }

  // ---------- the boot sector's fields ----------

  /** A sector that holds these fields where the FAT32 specification places them. */
  ghost predicate LaidOut(s: seq<byte>, b: Bpb)
    requires |s| == SECTOR_SIZE
  {
    && s[11..13] == Le2(b.bytesPerSector) && s[13] == b.sectorsPerCluster && s[14..16] == Le2(b.reserved)
    && s[16] == b.fatCount && s[17..19] == Le2(b.rootEntries) && s[19..21] == Le2(b.total16)
    && s[22..24] == Le2(b.fatSize16) && s[32..36] == Le4(b.total32) && s[36..40] == Le4(b.sectorsPerFat)
    && s[44..48] == Le4(b.root)
  }

  /** Parsing recovers exactly the fields that the sector holds, whatever its other bytes are. */
  lemma ParseReadsLayout(s: seq<byte>, b: Bpb)
    requires |s| == SECTOR_SIZE
    ensures ParseBpb(s) == b <==> LaidOut(s, b)
  {
    hide Le2, Le4, LeU16, LeU32;
    Le2RoundTrip(s, 11, b.bytesPerSector);
    Le2RoundTrip(s, 14, b.reserved);
    Le2RoundTrip(s, 17, b.rootEntries);
    Le2RoundTrip(s, 19, b.total16);
    Le2RoundTrip(s, 22, b.fatSize16);
    Le4RoundTrip(s, 32, b.total32);
    Le4RoundTrip(s, 36, b.sectorsPerFat);
    Le4RoundTrip(s, 44, b.root);
  }

  // ---------- sectors of clusters ----------

  /** `cluster_to_sector`, with each checked u32 operation spelled out. */
  function ClusterToSector(v: Volume, cluster: u32, index: u32): Result<u32, FsError> {
    if !v.IsValidCluster(cluster) || index >= v.sectorsPerCluster then Err(InvalidCluster)
    else
      var offset: nat := Times(cluster - 2, v.sectorsPerCluster);
      if offset >= U32_LIMIT then Err(InvalidCluster)
      else if v.firstData + offset >= U32_LIMIT then Err(InvalidCluster)
      else if v.firstData + offset + index >= U32_LIMIT then Err(InvalidCluster)
      else Ok(v.firstData + offset + index)
  }

  /** Every (cluster, index) pair of the volume names a readable sector of the data area. */
  lemma ClusterSectorInData(v: Volume, cluster: u32, index: u32)
    requires v.WellFormed() && v.IsValidCluster(cluster) && index < v.sectorsPerCluster
    ensures ClusterToSector(v, cluster, index) == Ok(v.firstData + Times(cluster - 2, v.sectorsPerCluster) + index)
    ensures v.firstData <= ClusterToSector(v, cluster, index).value < v.DataEnd()
    ensures SectorAt(v.disk, ClusterToSector(v, cluster, index).value).Ok?
  {
    TimesStep(cluster - 2, v.clusterCount, v.sectorsPerCluster);
  }

  /** Distinct (cluster, index) pairs name distinct sectors. */
  lemma ClusterToSectorInjective(v: Volume, c1: u32, i1: u32, c2: u32, i2: u32)
    requires v.WellFormed()
    requires ClusterToSector(v, c1, i1).Ok? && ClusterToSector(v, c1, i1) == ClusterToSector(v, c2, i2)
    ensures c1 == c2 && i1 == i2
  {
    BlockIsUnique(c1 - 2, i1, c2 - 2, i2, v.sectorsPerCluster);
  }

  // ---------- FAT entries ----------

  lemma Pow2Of28()
    ensures Pow2(28) == 0x1000_0000
  {
    assert Pow2(7) == 0x80;
    assert Pow2(14) == 0x4000;
    assert Pow2(21) == 0x20_0000;
  }

  lemma LowBits28(word: u32)
    ensures LowBits(word, 28) == word % 0x1000_0000 && Pow2(28) == 0x1000_0000
  {
    Pow2Of28();
    hide Pow2, LowBits, Times;
    var q := LowBitsIsRemainder(word, 28);
    TimesIsProduct(q, 0x1000_0000);
  }

  function Low28(word: u32): (r: u32)
    ensures r == word % 0x1000_0000
  {
    AndLowMask(word, 28);
    LowBits28(word);
    BitAnd(word, 0x0fff_ffff)
  }

  predicate HasFatEntry(v: Volume, cluster: u32) {
    4 * cluster < v.sectorsPerFat * SECTOR_SIZE
  }

  /** The 28-bit FAT entry of a cluster, addressed straight in the disk image. */
  function FatWord(v: Volume, cluster: u32): u32
    requires v.WellFormed() && HasFatEntry(v, cluster)
  {
    FatEntryInDisk(v, cluster);
    LeU32(v.disk, v.fatStart * SECTOR_SIZE + 4 * cluster) % 0x1000_0000
  }

  lemma FatEntryInDisk(v: Volume, cluster: u32)
    requires v.WellFormed() && HasFatEntry(v, cluster)
    ensures v.fatStart * SECTOR_SIZE + 4 * cluster + 4 <= |v.disk|
  {
    assert v.firstData <= v.DataEnd();
  }

  lemma EntryFitsSector(cluster: u32)
    ensures 4 * cluster % SECTOR_SIZE + 4 <= SECTOR_SIZE
  {
  }

  /** `next_cluster`: locate the FAT sector, read it, mask the entry. */
  function NextCluster(v: Volume, cluster: u32): Result<u32, FsError> {
    if !v.IsValidCluster(cluster) then Err(InvalidCluster)
    else
      var fatOffset: usize := 4 * cluster;
      var sectorOffset := fatOffset / SECTOR_SIZE;
      if sectorOffset >= v.sectorsPerFat then Err(CorruptFat)
      else if v.fatStart + sectorOffset >= U32_LIMIT then Err(CorruptFat)
      else
        match SectorAt(v.disk, v.fatStart + sectorOffset)
        case Err(e) => Err(Device(e))
        case Ok(sector) =>
          EntryFitsSector(cluster);
          Ok(Low28(LeU32(sector, fatOffset % SECTOR_SIZE)))
  }

  lemma LeU32OfSlice(bytes: seq<byte>, offset: nat)
    requires offset + 4 <= |bytes|
    ensures LeU32(bytes, offset) == LeU32(bytes[offset..offset + 4], 0)
  {
  }

  /** A 4-byte word read through its sector is the word at that place of the disk. */
  lemma WordInSector(disk: Disk, lba: u32, inner: nat)
    requires lba < SectorCount(disk) && inner + 4 <= SECTOR_SIZE
    ensures lba * SECTOR_SIZE + inner + 4 <= |disk|
    ensures LeU32(SectorAt(disk, lba).value, inner) == LeU32(disk, lba * SECTOR_SIZE + inner)
  {
    var start := lba * SECTOR_SIZE;
    assert SectorAt(disk, lba).value == disk[start..start + SECTOR_SIZE];
    hide SectorAt, LeU32;
    SliceOfSlice(disk, start, SECTOR_SIZE, inner, inner + 4);
    LeU32OfSlice(disk[start..start + SECTOR_SIZE], inner);
    LeU32OfSlice(disk, start + inner);
  }

  /** Splitting a FAT offset into a sector and a place in it loses nothing. */
  lemma FatOffsetSplits(fatStart: u32, cluster: u32)
    ensures (fatStart + 4 * cluster / SECTOR_SIZE) * SECTOR_SIZE + 4 * cluster % SECTOR_SIZE
         == fatStart * SECTOR_SIZE + 4 * cluster
  {
  }

  lemma EntryBeforeEnd(v: Volume, cluster: u32)
    ensures HasFatEntry(v, cluster) <==> 4 * cluster / SECTOR_SIZE < v.sectorsPerFat
  {
  }

  /** On a mounted volume a lookup reads the first FAT only, and fails only past that FAT's end. */
  lemma NextClusterIsFatWord(v: Volume, cluster: u32)
    requires v.WellFormed() && v.IsValidCluster(cluster)
    ensures HasFatEntry(v, cluster) <==> 4 * cluster / SECTOR_SIZE < v.sectorsPerFat
    ensures HasFatEntry(v, cluster) ==>
              v.fatStart <= v.fatStart + 4 * cluster / SECTOR_SIZE < v.fatStart + v.sectorsPerFat <= v.firstData
    ensures NextCluster(v, cluster) ==
            if HasFatEntry(v, cluster) then Ok(FatWord(v, cluster)) else Err(CorruptFat)
  {
    EntryBeforeEnd(v, cluster);
    if HasFatEntry(v, cluster) {
      FatEntryInDisk(v, cluster);
      FatOffsetSplits(v.fatStart, cluster);
      EntryFitsSector(cluster);
      hide LeU32, HasFatEntry, Times;
      WordInSector(v.disk, v.fatStart + 4 * cluster / SECTOR_SIZE, 4 * cluster % SECTOR_SIZE);
    }
  }

  /** In terms of the image alone: the FAT entry of a cluster is the word at its place after the reserved sectors. */
  lemma FatOfImage(disk: Disk, cluster: u32)
    requires Mount(disk).Ok? && Mount(disk).value.IsValidCluster(cluster)
    ensures 512 <= |disk|
    ensures var b := ParseBpb(disk[..512]);
            var at := b.reserved * 512 + 4 * cluster;
            if 4 * cluster < b.sectorsPerFat * 512
            then at + 4 <= |disk| && NextCluster(Mount(disk).value, cluster) == Ok(LeU32(disk, at) % 0x1000_0000)
            else NextCluster(Mount(disk).value, cluster) == Err(CorruptFat)
  {
    MountedIsWellFormed(disk);
    var v := Mount(disk).value;
    hide Mount, ParseBpb, Volume.WellFormed;
    NextClusterIsFatWord(v, cluster);
    if HasFatEntry(v, cluster) {
      FatEntryInDisk(v, cluster);
    }
  }

  function CheckedNextCluster(v: Volume, cluster: u32): Result<u32, FsError> {
    if cluster == FAT32_BAD_CLUSTER || !v.IsValidCluster(cluster) then Err(CorruptFat) else Ok(cluster)
  }
}
