/** The boot sector of a FAT32 volume and the arithmetic that follows from it
    (hal/src/fat.rs, "Boot Sector and BPB" of the FAT32 File System Specification 1.03). */
module BootSectors {
  import opened Bytes

  const SECTOR_BYTES := 512
  const FIRST_DATA_CLUSTER := 2
  const FAT32_MINIMUM_CLUSTERS := 65525
  const ENTRIES_PER_SECTOR := 128

  type Sector = s: seq<Byte> | |s| == SECTOR_BYTES witness seq(SECTOR_BYTES, _ => 0)

  datatype VolumeId = VolumeId(serial: U32, volumeLabel: seq<Byte>)

  datatype BootSectorError =
    | NoSignature(signature: U16)
    | SectorSize(bytes: U16)
    | SectorsPerCluster(sectors: Byte)
    | ReservedSectors(reserved: U16)
    | FatCount(tables: Byte)
    | NotFat32(sixteenBitFatSize: U16)
    | FatSize(size: U32)
    | RootCluster(root: U32)
    | NoDataRegion
    | TooFewClusters(found: U32)
    | FatTooSmall(entries: U64, needed: U32)

  predicate PowerOfTwo(n: Byte) {
    n == 1 || n == 2 || n == 4 || n == 8 || n == 16 || n == 32 || n == 64 || n == 128
  }

  datatype BootSector = BootSector(
    bytesPerSector: U16,
    sectorsPerCluster: Byte,
    reservedSectors: U16,
    fatCount: Byte,
    totalSectors: U32,
    sectorsPerFat: U32,
    rootCluster: U32,
    fsInfoSector: U16,
    backupBootSector: U16,
    clusters: U32,
    volumeId: Option<VolumeId>)
  {
    /** Sectors before the data region. */
    function BeforeData(): nat {
      reservedSectors + Times(fatCount, sectorsPerFat)
    }

    /** What a boot sector `Parse` accepted is known to satisfy. Everything that does
        arithmetic on a volume relies on this and re-checks nothing. */
    ghost predicate Accepted() {
      && bytesPerSector == SECTOR_BYTES
      && 1 <= sectorsPerCluster <= 128 && PowerOfTwo(sectorsPerCluster)
      && 1 <= reservedSectors
      && 1 <= fatCount <= 4
      && 1 <= sectorsPerFat
      && FIRST_DATA_CLUSTER <= rootCluster
      && BeforeData() + Times(clusters, sectorsPerCluster) <= totalSectors
      && totalSectors < BeforeData() + Times(clusters + 1, sectorsPerCluster)
      && FAT32_MINIMUM_CLUSTERS <= clusters
      && clusters + FIRST_DATA_CLUSTER <= sectorsPerFat * ENTRIES_PER_SECTOR
      && clusters + FIRST_DATA_CLUSTER < 0x1_0000_0000
    }

    function FirstFatSector(): U32 {
      reservedSectors
    }

    function FirstDataSector(): (r: U32)
      requires Accepted()
      ensures FirstFatSector() < r <= totalSectors
    {
      TablesFit(this);
      reservedSectors + Times(fatCount, sectorsPerFat)
    }

    predicate InRange(cluster: nat) {
      FIRST_DATA_CLUSTER <= cluster < FIRST_DATA_CLUSTER + clusters
    }

    /** Which sector a cluster begins at; `None` for a cluster the volume has not got. */
    function SectorOfCluster(cluster: U32): (r: Option<U32>)
      requires Accepted()
      ensures r.Some? <==> InRange(cluster)
      ensures r.Some? ==> FirstDataSector() <= r.value && r.value + sectorsPerCluster <= totalSectors
    {
      if cluster < FIRST_DATA_CLUSTER || cluster >= FIRST_DATA_CLUSTER + clusters then None
      else
        DataFits(this, cluster, 0);
        Some(FirstDataSector() + Times(cluster - FIRST_DATA_CLUSTER, sectorsPerCluster))
    }

    function ClusterBytes(): U32
      requires Accepted()
    {
      bytesPerSector * sectorsPerCluster
    }

    /** The sector of table copy `table` that holds the entry of `cluster`. */
    function TableSector(table: nat, cluster: nat): (r: U32)
      requires Accepted() && table < fatCount && InRange(cluster)
      ensures FirstFatSector() + Times(table, sectorsPerFat) <= r < FirstFatSector() + Times(table + 1, sectorsPerFat)
      ensures FirstFatSector() <= r < FirstDataSector()
    {
      TableFits(this, table, cluster);
      FirstFatSector() + Times(table, sectorsPerFat) + cluster / ENTRIES_PER_SECTOR
    }

    /** Sector `k` of the data of `cluster`. */
    function DataSector(cluster: nat, k: nat): (r: U32)
      requires Accepted() && InRange(cluster) && k < sectorsPerCluster
      ensures FirstDataSector() <= r < totalSectors
    {
      DataFits(this, cluster, k);
      FirstDataSector() + Times(cluster - FIRST_DATA_CLUSTER, sectorsPerCluster) + k
    }
  }

  lemma {:induction false} TablesFit(b: BootSector)
    requires b.Accepted()
    ensures b.reservedSectors < b.reservedSectors + Times(b.fatCount, b.sectorsPerFat) <= b.totalSectors
  {
    TimesGap(0, b.fatCount, b.sectorsPerFat);
  }

  lemma {:induction false} TableFits(b: BootSector, table: nat, cluster: nat)
    requires b.Accepted() && table < b.fatCount && b.InRange(cluster)
    ensures cluster / ENTRIES_PER_SECTOR < b.sectorsPerFat
    ensures Times(table, b.sectorsPerFat) + b.sectorsPerFat
            == Times(table + 1, b.sectorsPerFat) <= Times(b.fatCount, b.sectorsPerFat)
    ensures b.reservedSectors + Times(b.fatCount, b.sectorsPerFat) <= b.totalSectors
  {
    TablesFit(b);
    TimesGap(table, b.fatCount, b.sectorsPerFat);
  }

  lemma {:induction false} DataFits(b: BootSector, cluster: nat, k: nat)
    requires b.Accepted() && b.InRange(cluster) && k < b.sectorsPerCluster
    ensures Times(cluster - FIRST_DATA_CLUSTER, b.sectorsPerCluster) + b.sectorsPerCluster
            <= Times(b.clusters, b.sectorsPerCluster)
    ensures b.BeforeData() + Times(b.clusters, b.sectorsPerCluster) <= b.totalSectors
  {
    TimesGap(cluster - FIRST_DATA_CLUSTER, b.clusters, b.sectorsPerCluster);
  }

  /** Reads a boot sector, refusing it on the first thing that does not make sense. */
  function Parse(sector: Sector): (r: Result<BootSector, BootSectorError>)
    ensures r.Ok? ==> r.value.Accepted()
  {
    var signature := U16At(sector, 510);
    if signature != 0xAA55 then Err(NoSignature(signature))
    else Validate(U16At(sector, 11), sector[13], U16At(sector, 14), sector[16], U16At(sector, 22), U32At(sector, 36),
                  U32At(sector, 44), U32At(sector, 32), U16At(sector, 48), U16At(sector, 50),
                  if sector[66] == 0x29 then Some(VolumeId(U32At(sector, 67), sector[71..82])) else None)
  }

  /** The checks after the signature, in the order the numbers get used in. */
  function Validate(bytesPerSector: U16, sectorsPerCluster: Byte, reserved: U16, fatCount: Byte, sixteenBit: U16,
                    sectorsPerFat: U32, root: U32, total: U32, fsInfo: U16, backup: U16,
                    volumeId: Option<VolumeId>): (r: Result<BootSector, BootSectorError>)
    ensures r.Ok? ==> r.value.Accepted()
  {
    if bytesPerSector != SECTOR_BYTES then Err(SectorSize(bytesPerSector))
    else if sectorsPerCluster == 0 || !PowerOfTwo(sectorsPerCluster) then Err(SectorsPerCluster(sectorsPerCluster))
    else if reserved == 0 then Err(ReservedSectors(reserved))
    else if fatCount == 0 || fatCount > 4 then Err(FatCount(fatCount))
    else if sixteenBit != 0 then Err(NotFat32(sixteenBit))
    else if sectorsPerFat == 0 then Err(FatSize(sectorsPerFat))
    else if root < FIRST_DATA_CLUSTER then Err(RootCluster(root))
    else
      TimesIsProduct(fatCount, sectorsPerFat);
      assert sectorsPerFat <= fatCount * sectorsPerFat <= 4 * sectorsPerFat;
      var beforeData: U64 := reserved + fatCount * sectorsPerFat;
      if beforeData >= total then Err(NoDataRegion)
      else
        QuotientBounds(total - beforeData, sectorsPerCluster);
        var clusters: U32 := (total - beforeData) / sectorsPerCluster;
        if clusters < FAT32_MINIMUM_CLUSTERS then Err(TooFewClusters(clusters))
        else
          var entries: U64 := sectorsPerFat * 512 / 4;
          if entries < clusters + FIRST_DATA_CLUSTER then Err(FatTooSmall(entries, clusters))
          else
            Ok(BootSector(bytesPerSector, sectorsPerCluster, reserved, fatCount, total, sectorsPerFat, root,
                          fsInfo, backup, clusters, volumeId))
  }

  /** The fields of a FAT32 boot sector, where section "Boot Sector and BPB" puts them. */
  ghost predicate Describes(sector: Sector, b: BootSector) {
    && U16At(sector, 11) == b.bytesPerSector && sector[13] == b.sectorsPerCluster
    && U16At(sector, 14) == b.reservedSectors
    && sector[16] == b.fatCount && U16At(sector, 22) == 0 && U32At(sector, 32) == b.totalSectors
    && U32At(sector, 36) == b.sectorsPerFat
    && U32At(sector, 44) == b.rootCluster && U16At(sector, 48) == b.fsInfoSector
    && U16At(sector, 50) == b.backupBootSector
    && U16At(sector, 510) == 0xAA55
    && (b.volumeId.Some? <==> sector[66] == 0x29)
    && (b.volumeId.Some? ==> b.volumeId.value == VolumeId(U32At(sector, 67), sector[71..82]))
  }

  /** What a refusal says is so. */
  lemma {:induction false} ParseRefuses(sector: Sector)
    requires Parse(sector).Err?
    ensures match Parse(sector).error
      case NoSignature(found) => found == U16At(sector, 510) != 0xAA55
      case SectorSize(bytes) => bytes == U16At(sector, 11) != 512
      case SectorsPerCluster(n) => n == sector[13] && n !in {1, 2, 4, 8, 16, 32, 64, 128}
      case ReservedSectors(n) => n == U16At(sector, 14) == 0
      case FatCount(n) => n == sector[16] && n !in {1, 2, 3, 4}
      case NotFat32(n) => n == U16At(sector, 22) != 0
      case FatSize(n) => n == U32At(sector, 36) == 0
      case RootCluster(n) => n == U32At(sector, 44) < 2
      case NoDataRegion => TablesEnd(sector) >= U32At(sector, 32)
      case TooFewClusters(n) => n < 65525 && DataClusters(sector, n)
      case FatTooSmall(entries, needed) =>
        entries == U32At(sector, 36) * 128 < needed + 2 && DataClusters(sector, needed)
  {
    TimesIsProduct(sector[16], U32At(sector, 36));
    if TablesEnd(sector) < U32At(sector, 32) && PowerOfTwo(sector[13]) {
      Division(U32At(sector, 32) - TablesEnd(sector), sector[13]);
    }
  }

  /** The first sector after the tables. */
  function TablesEnd(sector: Sector): nat {
    U16At(sector, 14) as nat + Times(sector[16], U32At(sector, 36))
  }

  /** Between there and the end of the volume are `n` whole clusters and no more. */
  ghost predicate DataClusters(sector: Sector, n: nat) {
    && TablesEnd(sector) < U32At(sector, 32)
    && Times(n, sector[13]) <= U32At(sector, 32) - TablesEnd(sector) < Times(n, sector[13]) + sector[13]
  }

  /** A sector is accepted exactly when it describes a volume everything can rely on, and then it is
      read as that volume, of which there is only one. */
  lemma {:induction false} ParseExactly(sector: Sector)
    ensures Parse(sector).Ok? <==> exists b: BootSector :: b.Accepted() && Describes(sector, b)
    ensures forall b: BootSector | b.Accepted() && Describes(sector, b) :: Parse(sector) == Ok(b)
  {
    forall b: BootSector | b.Accepted() && Describes(sector, b) ensures Parse(sector) == Ok(b) {
      ParseComplete(sector, b);
    }
    if Parse(sector).Ok? {
      assert Parse(sector).value.Accepted() && Describes(sector, Parse(sector).value);
    }
  }

  lemma {:induction false} ParseComplete(sector: Sector, b: BootSector)
    requires b.Accepted() && Describes(sector, b)
    ensures Parse(sector) == Ok(b)
  {
    TimesIsProduct(b.fatCount, b.sectorsPerFat);
    TimesGap(0, b.clusters, b.sectorsPerCluster);
    QuotientIs(b.totalSectors - b.BeforeData(), b.sectorsPerCluster, b.clusters);
  }

  lemma {:induction false} QuotientIs(a: nat, n: nat, q: nat)
    requires n > 0 && Times(q, n) <= a < Times(q + 1, n)
    ensures a / n == q
  {
    Division(a, n);
    DivModUnique(q, a - Times(q, n), a / n, a % n, n);
  }

  lemma {:induction false} QuotientBounds(a: nat, n: Byte)
    requires PowerOfTwo(n)
    ensures 0 <= a / n <= a
    ensures Times(a / n, n) <= a < Times(a / n + 1, n)
  {
    Division(a, n);
    if
    case n == 1 => assert a / 1 <= a;
    case n == 2 => assert a / 2 <= a;
    case n == 4 => assert a / 4 <= a;
    case n == 8 => assert a / 8 <= a;
    case n == 16 => assert a / 16 <= a;
    case n == 32 => assert a / 32 <= a;
    case n == 64 => assert a / 64 <= a;
    case n == 128 => assert a / 128 <= a;
  }

  /** Where things are, as "FAT Data Structure" and "FAT Type Determination" of the FAT32 File System
      Specification 1.03 compute it: the tables follow the reserved sectors and the data the tables,
      a cluster's four bytes are number `cluster` of each table, and data clusters count from two. */
  lemma {:induction false} Geometry(b: BootSector, table: nat, cluster: nat, k: nat)
    requires b.Accepted() && table < b.fatCount && b.InRange(cluster) && k < b.sectorsPerCluster
    ensures 2 <= cluster < b.clusters + 2
    ensures b.TableSector(table, cluster) == b.reservedSectors + table * b.sectorsPerFat + cluster * 4 / 512
    ensures b.DataSector(cluster, k)
            == b.reservedSectors + b.fatCount as nat * b.sectorsPerFat as nat
               + (cluster - 2) * b.sectorsPerCluster as nat + k
    ensures cluster < 0x1_0000_0000 ==> b.SectorOfCluster(cluster) == Some(b.DataSector(cluster, 0))
  {
    TimesIsProduct(table, b.sectorsPerFat);
    TimesIsProduct(b.fatCount, b.sectorsPerFat);
    TimesIsProduct(cluster - FIRST_DATA_CLUSTER, b.sectorsPerCluster);
  }

  /** Table entries never collide: a sector and a place in it belong to one copy and one cluster. */
  lemma {:induction false} TableEntriesDistinct(b: BootSector, t: nat, c: nat, t': nat, c': nat)
    requires b.Accepted() && t < b.fatCount && t' < b.fatCount && b.InRange(c) && b.InRange(c')
    requires b.TableSector(t, c) == b.TableSector(t', c')
    ensures t == t' && c / ENTRIES_PER_SECTOR == c' / ENTRIES_PER_SECTOR
    ensures c % ENTRIES_PER_SECTOR == c' % ENTRIES_PER_SECTOR ==> c == c'
  {
    TableFits(b, t, c);
    TableFits(b, t', c');
    DivModUnique(t, c / ENTRIES_PER_SECTOR, t', c' / ENTRIES_PER_SECTOR, b.sectorsPerFat);
  }

  /** Distinct clusters never share a data sector. */
  lemma {:induction false} DataSectorsDistinct(b: BootSector, c: nat, k: nat, c': nat, k': nat)
    requires b.Accepted() && b.InRange(c) && b.InRange(c')
    requires k < b.sectorsPerCluster && k' < b.sectorsPerCluster
    requires b.DataSector(c, k) == b.DataSector(c', k')
    ensures c == c' && k == k'
  {
    DivModUnique(c - FIRST_DATA_CLUSTER, k, c' - FIRST_DATA_CLUSTER, k', b.sectorsPerCluster);
  }
}
