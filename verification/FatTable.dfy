/** The allocation table as it lies on the disk, in every copy, and what a write of one
    sector does to it ("FAT Data Structure" of the FAT32 File System Specification 1.03). */
module FatTable {
  import opened Bytes
  import opened BootSectors

  const ENTRY_MODULUS := 0x1000_0000
  const END_OF_CHAIN: U32 := 0x0FFF_FFFF

  type Disk = seq<Sector>

  /** What one entry of the table says about its cluster. */
  datatype Entry = Free | Reserved | Next(cluster: U32) | Bad | End

  /** Only the low 28 bits of an entry count; the top four belong to whoever wrote them. */
  function DecodeEntry(raw: U32): Entry {
    var low := raw % ENTRY_MODULUS;
    if low == 0 then Free
    else if low == 1 then Reserved
    else if low == 0x0FFF_FFF7 then Bad
    else if low >= 0x0FFF_FFF8 then End
    else Next(low)
  }

  /** Which 28 bits mean what: eight numbers end a chain, one marks a bad cluster, and what is
      neither of these, nor 0 nor 1, is the cluster that comes next. */
  lemma {:induction false} EntryMeans(raw: U32)
    ensures DecodeEntry(raw) == End <==> raw % 0x1000_0000 >= 0x0FFF_FFF8
    ensures DecodeEntry(raw) == Bad <==> raw % 0x1000_0000 == 0x0FFF_FFF7
    ensures DecodeEntry(raw) == Free <==> raw % 0x1000_0000 == 0
    ensures DecodeEntry(raw) == Reserved <==> raw % 0x1000_0000 == 1
    ensures forall c: U32 :: DecodeEntry(raw) == Next(c) <==> 2 <= c < 0x0FFF_FFF7 && raw % 0x1000_0000 == c
  {
  }

  /** A disk at least as big as its boot sector says. */
  ghost predicate Holds(b: BootSector, d: Disk) {
    b.Accepted() && b.totalSectors <= |d|
  }

  function EntryOffset(cluster: nat): (r: nat)
    ensures r + 4 <= SECTOR_BYTES
  {
    cluster % ENTRIES_PER_SECTOR * 4
  }

  /** Four bytes each, one after the other, from the start of the table. */
  lemma {:induction false} EntryPlace(cluster: nat)
    ensures cluster * 4 == cluster / ENTRIES_PER_SECTOR * 512 + EntryOffset(cluster)
  {
  }

  /** The 32 bits copy `table` holds for `cluster`. */
  ghost function RawEntry(b: BootSector, d: Disk, table: nat, cluster: nat): U32
    requires Holds(b, d) && table < b.fatCount && b.InRange(cluster)
  {
    U32At(d[b.TableSector(table, cluster)], EntryOffset(cluster))
  }

  /** What a reader learns about `cluster`: readers only look at the first copy. */
  ghost function EntryOf(b: BootSector, d: Disk, cluster: nat): Entry
    requires Holds(b, d) && b.InRange(cluster)
  {
    DecodeEntry(RawEntry(b, d, 0, cluster))
  }

  /** All copies agree on the 28 bits that mean something. */
  ghost predicate MirrorsAgree(b: BootSector, d: Disk)
    requires Holds(b, d)
  {
    forall c: nat, t: nat | b.InRange(c) && t < b.fatCount ::
      RawEntry(b, d, t, c) % ENTRY_MODULUS == RawEntry(b, d, 0, c) % ENTRY_MODULUS
  }

  // ---------------------------------------------------------------------
  // Frames: what a run of writes left alone
  // ---------------------------------------------------------------------

  ghost predicate DataSame(b: BootSector, d: Disk, d': Disk, c: nat)
    requires Holds(b, d) && Holds(b, d') && b.InRange(c)
  {
    forall k: nat | k < b.sectorsPerCluster :: d'[b.DataSector(c, k)] == d[b.DataSector(c, k)]
  }

  ghost predicate RawSame(b: BootSector, d: Disk, d': Disk, c: nat)
    requires Holds(b, d) && Holds(b, d') && b.InRange(c)
  {
    forall t: nat | t < b.fatCount :: RawEntry(b, d', t, c) == RawEntry(b, d, t, c)
  }

  /** From `d` to `d'` only the data of the clusters in `data` and the table entries of
      the clusters in `table` may have changed, and FSInfo among the reserved sectors. */
  ghost predicate Only(b: BootSector, d: Disk, d': Disk, data: set<nat>, table: set<nat>) {
    && Holds(b, d) && Holds(b, d') && |d| == |d'|
    && (forall c: nat | b.InRange(c) && c !in data :: DataSame(b, d, d', c))
    && (forall c: nat | b.InRange(c) && c !in table :: RawSame(b, d, d', c))
    && (forall s: nat | s < b.reservedSectors && s < |d| && s != b.fsInfoSector :: d'[s] == d[s])
  }

  /** The reserved sectors, FSInfo among them, are as they were. */
  ghost predicate ReservedSame(b: BootSector, d: Disk, d': Disk) {
    |d'| == |d| && forall s: nat | s < b.reservedSectors && s < |d| :: d'[s] == d[s]
  }

  lemma {:induction false} OnlyNothing(b: BootSector, d: Disk, data: set<nat>, table: set<nat>)
    requires Holds(b, d)
    ensures Only(b, d, d, data, table)
  {
  }

  lemma {:induction false} OnlyThen(b: BootSector, d: Disk, d': Disk, d'': Disk, data: set<nat>, table: set<nat>,
                 data': set<nat>, table': set<nat>)
    requires Only(b, d, d', data, table) && Only(b, d', d'', data', table')
    ensures Only(b, d, d'', data + data', table + table')
  {
    forall c: nat | b.InRange(c) && c !in data + data' ensures DataSame(b, d, d'', c) {
      assert DataSame(b, d, d', c) && DataSame(b, d', d'', c);
    }
    forall c: nat | b.InRange(c) && c !in table + table' ensures RawSame(b, d, d'', c) {
      assert RawSame(b, d, d', c) && RawSame(b, d', d'', c);
    }
  }

  lemma {:induction false} OnlyWider(b: BootSector, d: Disk, d': Disk, data: set<nat>, table: set<nat>,
                                     data': set<nat>, table': set<nat>)
    requires Only(b, d, d', data, table) && data <= data' && table <= table'
    ensures Only(b, d, d', data', table')
  {
  }

  /** A sector of one cluster's data: no table entry and no other cluster is in it. */
  lemma {:induction false} WriteDataSector(b: BootSector, d: Disk, c: nat, k: nat, bytes: Sector)
    requires Holds(b, d) && b.InRange(c) && k < b.sectorsPerCluster
    ensures Only(b, d, d[b.DataSector(c, k) := bytes], {c}, {})
    ensures forall j: nat | j < b.sectorsPerCluster && j != k ::
              d[b.DataSector(c, k) := bytes][b.DataSector(c, j)] == d[b.DataSector(c, j)]
  {
    var s := b.DataSector(c, k);
    var d' := d[s := bytes];
    forall c': nat | b.InRange(c') ensures RawSame(b, d, d', c') {
      forall t: nat | t < b.fatCount ensures RawEntry(b, d', t, c') == RawEntry(b, d, t, c') {
        assert b.TableSector(t, c') != s;
      }
    }
    forall c': nat | b.InRange(c') && c' != c ensures DataSame(b, d, d', c') {
      forall j: nat | j < b.sectorsPerCluster ensures d'[b.DataSector(c', j)] == d[b.DataSector(c', j)] {
        if b.DataSector(c', j) == s {
          DataSectorsDistinct(b, c, k, c', j);
        }
      }
    }
    forall j: nat | j < b.sectorsPerCluster && j != k ensures b.DataSector(c, j) != s {
      if b.DataSector(c, j) == s {
        DataSectorsDistinct(b, c, k, c, j);
      }
    }
  }

  /** The table sector `bytes` with the low 28 bits of one entry replaced. */
  function WithEntry(bytes: Sector, cluster: nat, entry: U32): (r: Sector)
    ensures U32At(r, EntryOffset(cluster)) % ENTRY_MODULUS == entry % ENTRY_MODULUS
    ensures U32At(r, EntryOffset(cluster)) / ENTRY_MODULUS == U32At(bytes, EntryOffset(cluster)) / ENTRY_MODULUS
  {
    var at := EntryOffset(cluster);
    var before := U32At(bytes, at);
    var value := before - before % ENTRY_MODULUS + entry % ENTRY_MODULUS;
    var r := Splice(bytes, at, LittleEndian32(value));
    assert r[at..at + 4] == LittleEndian32(value)[0..4];
    U32AtSame(r, at, LittleEndian32(value), 0);
    r
  }

  lemma {:induction false} WithEntryElsewhere(bytes: Sector, cluster: nat, entry: U32, other: nat)
    requires cluster % ENTRIES_PER_SECTOR != other % ENTRIES_PER_SECTOR
    ensures U32At(WithEntry(bytes, cluster, entry), EntryOffset(other)) == U32At(bytes, EntryOffset(other))
  {
    var r := WithEntry(bytes, cluster, entry);
    var at := EntryOffset(other);
    assert r[at..at + 4] == bytes[at..at + 4];
    U32AtSame(r, at, bytes, at);
  }

  /** Writing one entry in one copy changes that entry of that copy and nothing else. */
  lemma {:induction false} WriteTableEntry(b: BootSector, d: Disk, t: nat, c: nat, entry: U32)
    requires Holds(b, d) && t < b.fatCount && b.InRange(c)
    ensures var s := b.TableSector(t, c);
            var d' := d[s := WithEntry(d[s], c, entry)];
            && Only(b, d, d', {}, {c})
            && RawEntry(b, d', t, c) % ENTRY_MODULUS == entry % ENTRY_MODULUS
            && RawEntry(b, d', t, c) / ENTRY_MODULUS == RawEntry(b, d, t, c) / ENTRY_MODULUS
            && forall t': nat | t' < b.fatCount && t' != t :: RawEntry(b, d', t', c) == RawEntry(b, d, t', c)
  {
    var s := b.TableSector(t, c);
    var d' := d[s := WithEntry(d[s], c, entry)];
    forall c': nat, t': nat | b.InRange(c') && t' < b.fatCount && (c' != c || t' != t)
      ensures RawEntry(b, d', t', c') == RawEntry(b, d, t', c')
    {
      if b.TableSector(t', c') == s {
        TableEntriesDistinct(b, t, c, t', c');
        WithEntryElsewhere(d[s], c, entry, c');
      }
    }
    forall c': nat | b.InRange(c') ensures DataSame(b, d, d', c') {
      forall k: nat | k < b.sectorsPerCluster ensures d'[b.DataSector(c', k)] == d[b.DataSector(c', k)] {
        assert b.DataSector(c', k) != s;
      }
    }
    forall c': nat | b.InRange(c') && c' !in {c} ensures RawSame(b, d, d', c') {
    }
  }

  /** The FSInfo sector belongs to no table and to no cluster. */
  lemma {:induction false} WriteFsInfo(b: BootSector, d: Disk, bytes: Sector)
    requires Holds(b, d) && b.fsInfoSector < b.reservedSectors && b.fsInfoSector < |d|
    ensures Only(b, d, d[b.fsInfoSector := bytes], {}, {})
  {
    var d' := d[b.fsInfoSector as nat := bytes];
    forall c: nat | b.InRange(c) ensures RawSame(b, d, d', c) {
      forall t: nat | t < b.fatCount ensures RawEntry(b, d', t, c) == RawEntry(b, d, t, c) {
        assert b.TableSector(t, c) != b.fsInfoSector;
      }
    }
    forall c: nat | b.InRange(c) ensures DataSame(b, d, d', c) {
      forall k: nat | k < b.sectorsPerCluster ensures d'[b.DataSector(c, k)] == d[b.DataSector(c, k)] {
        assert b.DataSector(c, k) != b.fsInfoSector;
      }
    }
  }

  lemma {:induction false} OnlyHolds(b: BootSector, d: Disk, d': Disk, data: set<nat>, table: set<nat>)
    requires Only(b, d, d', data, table)
    ensures Holds(b, d) && Holds(b, d') && |d| == |d'|
  {
  }

  /** What was left alone still says the same to a reader. */
  lemma {:induction false} OnlyKeepsEntry(b: BootSector, d: Disk, d': Disk, data: set<nat>, table: set<nat>, c: nat)
    requires Only(b, d, d', data, table) && b.InRange(c) && c !in table
    ensures EntryOf(b, d', c) == EntryOf(b, d, c)
  {
    assert RawSame(b, d, d', c);
  }
}
