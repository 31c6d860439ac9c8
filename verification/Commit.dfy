/** The one sector write that makes a file appear: what it changes for a reader, and what it does not. */
module Commit {
  import opened Bytes
  import opened BootSectors
  import opened FatTable
  import opened Chains
  import opened VolumeState
  import Dir = Directory

  /** Slot `i` is a live entry stored under the bytes `encoded`, ignoring case. */
  ghost predicate StoredAs(d: Disk, sectors: seq<nat>, i: nat, encoded: seq<Byte>)
    requires OnDisk(d, sectors) && i < SLOTS_PER_SECTOR * |sectors|
  {
    SlotAt(d, sectors, i).Entry? && Dir.EqualIgnoringCase(SlotBytesAt(d, sectors, i)[..11], encoded)
  }

  /** A slot a new entry may go into: its entry was deleted, or it was never used. */
  ghost predicate Vacant(d: Disk, sectors: seq<nat>, i: nat)
    requires OnDisk(d, sectors) && i < SLOTS_PER_SECTOR * |sectors|
  {
    SlotBytesAt(d, sectors, i)[0] == Dir.DELETED || SlotBytesAt(d, sectors, i)[0] == Dir.NEVER_USED
  }

  /** The slot an entry for `encoded` goes into: the first one already stored under those bytes;
      when there is none before the end mark, the first vacant one, which is the first deleted
      one before the end mark, or the end mark. */
  ghost predicate Chosen(d: Disk, sectors: seq<nat>, encoded: seq<Byte>, j: nat, existing: Option<Dir.DirectoryEntry>)
    requires OnDisk(d, sectors)
  {
    && j < SLOTS_PER_SECTOR * |sectors|
    && (existing.Some? ==>
          && SlotAt(d, sectors, j) == Dir.Entry(existing.value) && StoredAs(d, sectors, j, encoded)
          && forall i | 0 <= i < j :: !SlotAt(d, sectors, i).End? && !StoredAs(d, sectors, i, encoded))
    && (existing.None? ==>
          && Vacant(d, sectors, j) && (forall i | 0 <= i < j :: !Vacant(d, sectors, i))
          && StoredSlot(d, sectors, encoded, 0) == None)
  }

  /** The first slot stored under `encoded`, from `i` on and before the end mark. */
  ghost function StoredSlot(d: Disk, sectors: seq<nat>, encoded: seq<Byte>, i: nat): (r: Option<nat>)
    requires OnDisk(d, sectors)
    ensures r.Some? ==> i <= r.value < SLOTS_PER_SECTOR * |sectors| && StoredAs(d, sectors, r.value, encoded)
    decreases SLOTS_PER_SECTOR * |sectors| - i
  {
    if i >= SLOTS_PER_SECTOR * |sectors| || SlotAt(d, sectors, i).End? then None
    else if StoredAs(d, sectors, i, encoded) then Some(i)
    else StoredSlot(d, sectors, encoded, i + 1)
  }

  /** Nothing before it is stored so, and the directory has not ended. */
  lemma {:induction false} StoredSlotFirst(d: Disk, sectors: seq<nat>, encoded: seq<Byte>, i: nat)
    requires OnDisk(d, sectors) && StoredSlot(d, sectors, encoded, i).Some?
    ensures forall k | i <= k < StoredSlot(d, sectors, encoded, i).value ::
              !SlotAt(d, sectors, k).End? && !StoredAs(d, sectors, k, encoded)
    decreases SLOTS_PER_SECTOR * |sectors| - i
  {
    hide SlotAt, StoredAs;
    if !StoredAs(d, sectors, i, encoded) {
      StoredSlotFirst(d, sectors, encoded, i + 1);
    }
  }

  /** The first vacant slot from `i` on. */
  ghost function VacantSlot(d: Disk, sectors: seq<nat>, i: nat): (r: Option<nat>)
    requires OnDisk(d, sectors)
    ensures r.Some? ==> i <= r.value < SLOTS_PER_SECTOR * |sectors| && Vacant(d, sectors, r.value)
    ensures r.Some? ==> forall k | i <= k < r.value :: !Vacant(d, sectors, k)
    ensures r.None? ==> forall k | i <= k < SLOTS_PER_SECTOR * |sectors| :: !Vacant(d, sectors, k)
    decreases SLOTS_PER_SECTOR * |sectors| - i
  {
    if i >= SLOTS_PER_SECTOR * |sectors| then None
    else if Vacant(d, sectors, i) then Some(i)
    else VacantSlot(d, sectors, i + 1)
  }

  /** Where an entry stored as `encoded` goes, as the directory stands. */
  ghost function TheSlot(d: Disk, sectors: seq<nat>, encoded: seq<Byte>): (r: Option<nat>)
    requires OnDisk(d, sectors)
    ensures r.Some? ==> r.value < SLOTS_PER_SECTOR * |sectors|
  {
    if StoredSlot(d, sectors, encoded, 0).Some? then StoredSlot(d, sectors, encoded, 0) else VacantSlot(d, sectors, 0)
  }

  /** The bytes of slot `i` are a live entry's, stored under `encoded`. */
  ghost predicate BytesStoredAs(d: Disk, sectors: seq<nat>, i: nat, encoded: seq<Byte>)
    requires OnDisk(d, sectors) && i < SLOTS_PER_SECTOR * |sectors|
  {
    var raw := SlotBytesAt(d, sectors, i);
    Dir.Live(raw) && Dir.EqualIgnoringCase(raw[..11], encoded)
  }

  /** Of the slots before the first never-used one, the first stored under `encoded` has the
      directory bit set. */
  ghost predicate StoredDirectory(d: Disk, sectors: seq<nat>, encoded: seq<Byte>)
    requires OnDisk(d, sectors)
  {
    exists j | 0 <= j < SLOTS_PER_SECTOR * |sectors| ::
      && BytesStoredAs(d, sectors, j, encoded) && Dir.DirectoryBit(SlotBytesAt(d, sectors, j))
      && forall i | 0 <= i < j :: SlotBytesAt(d, sectors, i)[0] != 0x00 && !BytesStoredAs(d, sectors, i, encoded)
  }

  lemma {:induction false} StoredAsBytes(d: Disk, sectors: seq<nat>, i: nat, encoded: seq<Byte>)
    requires OnDisk(d, sectors) && i < SLOTS_PER_SECTOR * |sectors|
    ensures StoredAs(d, sectors, i, encoded) <==> BytesStoredAs(d, sectors, i, encoded)
    ensures SlotAt(d, sectors, i).End? <==> SlotBytesAt(d, sectors, i)[0] == 0x00
    ensures StoredAs(d, sectors, i, encoded) ==>
              (SlotAt(d, sectors, i).entry.IsDirectory() <==> Dir.DirectoryBit(SlotBytesAt(d, sectors, i)))
  {
    hide SlotBytesAt, Dir.EqualIgnoringCase, Dir.SlotOf;
    Dir.SlotMeans(SlotBytesAt(d, sectors, i));
  }

  /** A directory is stored there exactly when the entry to be replaced is one. */
  lemma {:induction false} ChosenDirectory(d: Disk, sectors: seq<nat>, encoded: seq<Byte>, j: nat,
                                           existing: Option<Dir.DirectoryEntry>)
    requires OnDisk(d, sectors) && Chosen(d, sectors, encoded, j, existing)
    ensures StoredDirectory(d, sectors, encoded) <==> existing.Some? && existing.value.IsDirectory()
  {
    hide StoredAs, BytesStoredAs, SlotBytesAt, SlotAt;
    if existing.Some? {
      FirstStored(d, sectors, encoded, j);
    } else {
      NoDirectoryStored(d, sectors, encoded);
    }
  }

  lemma {:induction false} FirstStored(d: Disk, sectors: seq<nat>, encoded: seq<Byte>, j: nat)
    requires OnDisk(d, sectors) && j < SLOTS_PER_SECTOR * |sectors| && StoredAs(d, sectors, j, encoded)
    requires forall i | 0 <= i < j :: !SlotAt(d, sectors, i).End? && !StoredAs(d, sectors, i, encoded)
    ensures SlotAt(d, sectors, j).Entry?
    ensures StoredDirectory(d, sectors, encoded) <==> SlotAt(d, sectors, j).entry.IsDirectory()
  {
    assert SlotAt(d, sectors, j).Entry?;
    StoredAsBytes(d, sectors, j, encoded);
    forall i | 0 <= i < j ensures SlotBytesAt(d, sectors, i)[0] != 0x00 && !BytesStoredAs(d, sectors, i, encoded) {
      StoredAsBytes(d, sectors, i, encoded);
    }
    hide StoredAs, BytesStoredAs, SlotBytesAt, SlotAt;
    if StoredDirectory(d, sectors, encoded) {
      var k :| 0 <= k < SLOTS_PER_SECTOR * |sectors| && BytesStoredAs(d, sectors, k, encoded)
               && Dir.DirectoryBit(SlotBytesAt(d, sectors, k))
               && forall i | 0 <= i < k ::
                    SlotBytesAt(d, sectors, i)[0] != 0x00 && !BytesStoredAs(d, sectors, i, encoded);
      assert k == j;
    }
  }

  lemma {:induction false} NoDirectoryStored(d: Disk, sectors: seq<nat>, encoded: seq<Byte>)
    requires OnDisk(d, sectors) && StoredSlot(d, sectors, encoded, 0) == None
    ensures !StoredDirectory(d, sectors, encoded)
  {
    hide SlotBytesAt, SlotAt, StoredSlot;
    if StoredDirectory(d, sectors, encoded) {
      var k :| 0 <= k < SLOTS_PER_SECTOR * |sectors| && BytesStoredAs(d, sectors, k, encoded)
               && forall i | 0 <= i < k ::
                    SlotBytesAt(d, sectors, i)[0] != 0x00 && !BytesStoredAs(d, sectors, i, encoded);
      StoredAsBytes(d, sectors, k, encoded);
      forall i | 0 <= i < k ensures !SlotAt(d, sectors, i).End? && !StoredAs(d, sectors, i, encoded) {
        StoredAsBytes(d, sectors, i, encoded);
      }
      hide StoredAs, BytesStoredAs;
      StoredSlotIs(d, sectors, encoded, 0, k);
    }
  }

  lemma {:induction false} StoredSlotIs(d: Disk, sectors: seq<nat>, encoded: seq<Byte>, i: nat, j: nat)
    requires OnDisk(d, sectors) && i <= j < SLOTS_PER_SECTOR * |sectors| && StoredAs(d, sectors, j, encoded)
    requires forall k | i <= k < j :: !SlotAt(d, sectors, k).End? && !StoredAs(d, sectors, k, encoded)
    ensures StoredSlot(d, sectors, encoded, i) == Some(j)
    decreases j - i
  {
    hide SlotAt, SlotBytesAt;
    if i < j { StoredSlotIs(d, sectors, encoded, i + 1, j); }
  }

  /** Nothing is stored under `encoded` before an end mark, or before the end of the directory. */
  lemma {:induction false} NothingStored(d: Disk, sectors: seq<nat>, encoded: seq<Byte>, i: nat, end: nat)
    requires OnDisk(d, sectors) && i <= end <= SLOTS_PER_SECTOR * |sectors|
    requires end < SLOTS_PER_SECTOR * |sectors| ==> SlotAt(d, sectors, end).End?
    requires forall k | i <= k < end :: !StoredAs(d, sectors, k, encoded)
    ensures StoredSlot(d, sectors, encoded, i) == None
    decreases end - i
  {
    hide SlotAt, SlotBytesAt;
    if i < end && !SlotAt(d, sectors, i).End? { NothingStored(d, sectors, encoded, i + 1, end); }
  }

  /** The choice is made by the directory alone: one slot fits, and whether it is taken. */
  lemma {:induction false} ChosenIsTheSlot(d: Disk, sectors: seq<nat>, encoded: seq<Byte>, j: nat,
                                           existing: Option<Dir.DirectoryEntry>)
    requires OnDisk(d, sectors) && Chosen(d, sectors, encoded, j, existing)
    ensures TheSlot(d, sectors, encoded) == Some(j)
    ensures existing.Some? <==> StoredSlot(d, sectors, encoded, 0).Some?
    ensures existing.Some? ==> SlotAt(d, sectors, j) == Dir.Entry(existing.value)
  {
    hide SlotAt, SlotBytesAt, Vacant;
    if existing.Some? { StoredSlotIs(d, sectors, encoded, 0, j); }
  }

  /** Where the directory ends once nothing after the end mark is stored as anything. */
  lemma {:induction false} NoneStored(d: Disk, sectors: seq<nat>, encoded: seq<Byte>, i: nat, k: nat)
    requires OnDisk(d, sectors) && EndsOnce(d, sectors) && StoredSlot(d, sectors, encoded, i) == None
    requires i <= k < SLOTS_PER_SECTOR * |sectors|
    ensures !StoredAs(d, sectors, k, encoded)
    decreases k - i
  {
    hide SlotAt, SlotBytesAt;
    if i < k && !SlotAt(d, sectors, i).End? {
      NoneStored(d, sectors, encoded, i + 1, k);
    } else if i < k {
      assert SlotAt(d, sectors, k).End?;
    }
  }

  /** What the slot chosen holds. */
  lemma {:induction false} ChosenHolds(d: Disk, sectors: seq<nat>, encoded: seq<Byte>, j: nat,
                                       existing: Option<Dir.DirectoryEntry>)
    requires OnDisk(d, sectors) && Chosen(d, sectors, encoded, j, existing)
    ensures existing.Some? ==> SlotAt(d, sectors, j) == Dir.Entry(existing.value)
    ensures existing.None? ==> !SlotAt(d, sectors, j).Entry?
  {
    hide SlotAt, StoredSlot, SlotBytesAt, Vacant;
    VacantOrNot(d, sectors, j);
  }

  lemma {:induction false} VacantOrNot(d: Disk, sectors: seq<nat>, i: nat)
    requires OnDisk(d, sectors) && i < SLOTS_PER_SECTOR * |sectors|
    ensures SlotAt(d, sectors, i).End? ==> Vacant(d, sectors, i)
    ensures Vacant(d, sectors, i) ==> !SlotAt(d, sectors, i).Entry?
    ensures Vacant(d, sectors, i) && SlotBytesAt(d, sectors, i)[0] != Dir.DELETED ==> SlotAt(d, sectors, i).End?
  {
  }

  /** The layout once slot `j` names `chain`. */
  ghost function Renamed(lay: Layout, j: nat, chain: seq<nat>): Layout {
    Layout(lay.root, if chain == [] then lay.files - {j} else lay.files[j := chain])
  }

  /** The disk once slot `j` of the root holds `entry`. */
  ghost function WithSlot(d: Disk, sectors: seq<nat>, j: nat, entry: Dir.SlotBytes): Disk
    requires OnDisk(d, sectors) && j < SLOTS_PER_SECTOR * |sectors|
  {
    var s := sectors[j / SLOTS_PER_SECTOR];
    d[s := Splice(d[s], 32 * (j % SLOTS_PER_SECTOR), entry)]
  }

  lemma {:induction false} SpliceSlot(sector: Sector, j: nat, entry: Dir.SlotBytes, i: nat)
    requires i < SLOTS_PER_SECTOR && j < SLOTS_PER_SECTOR
    ensures SlotIn(Splice(sector, 32 * j, entry), i) == if i == j then entry else SlotIn(sector, i)
  {
    var r := Splice(sector, 32 * j, entry);
    assert i != j ==> forall k | 0 <= k < 32 :: SlotIn(r, i)[k] == SlotIn(sector, i)[k];
  }

  /** Exactly one slot of the directory changes. */
  lemma {:induction false} OneSlotChanges(d: Disk, sectors: seq<nat>, j: nat, entry: Dir.SlotBytes, i: nat)
    requires OnDisk(d, sectors) && Distinct(sectors)
    requires i < SLOTS_PER_SECTOR * |sectors| && j < SLOTS_PER_SECTOR * |sectors|
    ensures SlotBytesAt(WithSlot(d, sectors, j, entry), sectors, i)
            == if i == j then entry else SlotBytesAt(d, sectors, i)
  {
    var q, q' := i / SLOTS_PER_SECTOR, j / SLOTS_PER_SECTOR;
    if q == q' {
      SpliceSlot(d[sectors[q]], j % SLOTS_PER_SECTOR, entry, i % SLOTS_PER_SECTOR);
    } else {
      assert sectors[q] != sectors[q'];
    }
  }

  /** ... and nothing outside one cluster of the root. */
  lemma {:induction false} OneClusterChanges(b: BootSector, d: Disk, lay: Layout, j: nat, entry: Dir.SlotBytes)
    returns (c: nat)
    requires Sound(b, d, lay) && j < SLOTS_PER_SECTOR * |SectorsOf(b, lay.root)|
    ensures c in Members(lay.root)
    ensures Only(b, d, WithSlot(d, SectorsOf(b, lay.root), j, entry), {c}, {})
  {
    var sectors := SectorsOf(b, lay.root);
    var i, k := SectorsOfOwner(b, lay.root, j / SLOTS_PER_SECTOR);
    c := lay.root[i];
    assert c in Members(lay.root);
    WriteDataSector(b, d, c, k, Splice(d[sectors[j / SLOTS_PER_SECTOR]], 32 * (j % SLOTS_PER_SECTOR), entry));
  }

  /** The chain a new entry names, and what it holds. */
  ghost predicate Prepared(b: BootSector, d: Disk, lay: Layout, chain: seq<nat>, contents: seq<Byte>)
    requires Holds(b, d)
  {
    && lay.Apart(Members(chain))
    && (chain == [] ==> contents == [])
    && (chain != [] ==> IsChain(b, d, chain[0], chain))
    && |contents| <= Times(|chain|, b.sectorsPerCluster) * SECTOR_BYTES
    && |contents| < 0x1_0000_0000
    && FileBytes(b, d, First(chain), |contents|) == Some(contents)
  }

  lemma {:induction false} ChainsInRange(b: BootSector, d: Disk, lay: Layout, chain: seq<nat>, contents: seq<Byte>)
    requires Holds(b, d) && Prepared(b, d, lay, chain, contents)
    ensures AllInRange(b, chain) && |contents| < 0x1_0000_0000
  {
  }

  ghost function First(chain: seq<nat>): nat {
    if chain == [] then 0 else chain[0]
  }

  ghost function NewSlot(b: BootSector, name: seq<Byte>, chain: seq<nat>, contents: seq<Byte>): Dir.SlotBytes
    requires b.Accepted() && Dir.FitsEightAndThree(name) && AllInRange(b, chain) && |contents| < 0x1_0000_0000
  {
    assert chain != [] ==> b.InRange(chain[0]);
    Dir.NewEntry(Dir.EncodedName(name).value, First(chain), |contents|)
  }

  lemma {:induction false} RenamedDisjoint(lay: Layout, j: nat, chain: seq<nat>)
    requires lay.Disjoint() && lay.Apart(Members(chain))
    ensures Renamed(lay, j, chain).Disjoint()
  {
  }

  /** The slots of the directory after the switch, one by one. */
  lemma {:induction false} SlotsAfter(b: BootSector, d: Disk, lay: Layout, j: nat, entry: Dir.SlotBytes)
    requires Sound(b, d, lay) && j < SLOTS_PER_SECTOR * |SectorsOf(b, lay.root)|
    ensures var sectors := SectorsOf(b, lay.root);
            var d' := WithSlot(d, sectors, j, entry);
            OnDisk(d', sectors) && forall i: nat | i < SLOTS_PER_SECTOR * |sectors| ::
              SlotBytesAt(d', sectors, i) == if i == j then entry else SlotBytesAt(d, sectors, i)
  {
    var sectors := SectorsOf(b, lay.root);
    SectorsOfDistinct(b, lay.root);
    forall i: nat | i < SLOTS_PER_SECTOR * |sectors|
      ensures SlotBytesAt(WithSlot(d, sectors, j, entry), sectors, i)
              == if i == j then entry else SlotBytesAt(d, sectors, i)
    {
      OneSlotChanges(d, sectors, j, entry, i);
    }
  }

  /** The directory still ends once: a new entry goes in before the end mark or on it. */
  lemma {:induction false} StillEndsOnce(d: Disk, d': Disk, sectors: seq<nat>, encoded: seq<Byte>, j: nat,
                                         existing: Option<Dir.DirectoryEntry>)
    requires OnDisk(d, sectors) && OnDisk(d', sectors) && EndsOnce(d, sectors)
    requires Chosen(d, sectors, encoded, j, existing)
    requires forall i: nat | i < SLOTS_PER_SECTOR * |sectors| && i != j ::
               SlotBytesAt(d', sectors, i) == SlotBytesAt(d, sectors, i)
    requires SlotAt(d', sectors, j).Entry?
    ensures EndsOnce(d', sectors)
  {
    forall i, k | 0 <= i < k < SLOTS_PER_SECTOR * |sectors| && SlotAt(d', sectors, i).End?
      ensures SlotAt(d', sectors, k).End?
    {
      assert i != j;
      assert SlotBytesAt(d', sectors, i) == SlotBytesAt(d, sectors, i);
      assert SlotAt(d, sectors, i).End?;
      assert SlotAt(d, sectors, k).End?;
      VacantOrNot(d, sectors, i);
      assert k != j;
      assert SlotBytesAt(d', sectors, k) == SlotBytesAt(d, sectors, k);
    }
  }

  /** What holds just before the switch. */
  ghost predicate Ready(b: BootSector, d: Disk, lay: Layout, name: seq<Byte>, contents: seq<Byte>,
                        chain: seq<nat>, j: nat, existing: Option<Dir.DirectoryEntry>) {
    && Sound(b, d, lay) && Dir.FitsEightAndThree(name) && Prepared(b, d, lay, chain, contents)
    && Chosen(d, SectorsOf(b, lay.root), Dir.EncodedName(name).value, j, existing)
  }

  /** The disk just after it. */
  ghost function Switched(b: BootSector, d: Disk, lay: Layout, name: seq<Byte>, contents: seq<Byte>,
                          chain: seq<nat>, j: nat, existing: Option<Dir.DirectoryEntry>): Disk
    requires Ready(b, d, lay, name, contents, chain, j, existing)
  {
    WithSlot(d, SectorsOf(b, lay.root), j, NewSlot(b, name, chain, contents))
  }

  /** What every step below needs to know to speak about the directory at all. */
  lemma {:induction false} ReadyBasics(b: BootSector, d: Disk, lay: Layout, name: seq<Byte>, contents: seq<Byte>,
                                       chain: seq<nat>, j: nat, existing: Option<Dir.DirectoryEntry>)
    requires Ready(b, d, lay, name, contents, chain, j, existing)
    ensures Holds(b, d) && AllInRange(b, lay.root) && OnDisk(d, SectorsOf(b, lay.root))
    ensures EndsOnce(d, SectorsOf(b, lay.root))
    ensures j < SLOTS_PER_SECTOR * |SectorsOf(b, lay.root)| && Dir.FitsEightAndThree(name)
    ensures Sound(b, d, lay)
  {
  }

  lemma {:induction false} ReadyChosen(b: BootSector, d: Disk, lay: Layout, name: seq<Byte>, contents: seq<Byte>,
                                       chain: seq<nat>, j: nat, existing: Option<Dir.DirectoryEntry>)
    requires Ready(b, d, lay, name, contents, chain, j, existing)
    ensures Chosen(d, SectorsOf(b, lay.root), Dir.EncodedName(name).value, j, existing)
  {
  }

  /** What the directory holds after the switch. */
  lemma {:induction false} SwitchedSlots(b: BootSector, d: Disk, lay: Layout, name: seq<Byte>, contents: seq<Byte>,
                                         chain: seq<nat>, j: nat, existing: Option<Dir.DirectoryEntry>)
    requires Ready(b, d, lay, name, contents, chain, j, existing)
    ensures var sectors := SectorsOf(b, lay.root);
            var d' := Switched(b, d, lay, name, contents, chain, j, existing);
            && |d'| == |d| && Holds(b, d') && OnDisk(d', sectors) && EndsOnce(d', sectors)
            && SlotBytesAt(d', sectors, j) == NewSlot(b, name, chain, contents)
            && SlotAt(d', sectors, j)
               == Dir.Entry(Dir.DirectoryEntry(Dir.Canonical(name), Dir.ATTR_ARCHIVE, First(chain), |contents|))
            && forall i: nat | i < SLOTS_PER_SECTOR * |sectors| && i != j ::
                 SlotBytesAt(d', sectors, i) == SlotBytesAt(d, sectors, i)
  {
    hide Dir.SlotOf, Dir.NewEntry, WithSlot, Dir.EncodedName, Walk, Prepared, FileBytes;
    ChainsInRange(b, d, lay, chain, contents);
    var sectors := SectorsOf(b, lay.root);
    var entry := NewSlot(b, name, chain, contents);
    var d' := WithSlot(d, sectors, j, entry);
    SlotsAfter(b, d, lay, j, entry);
    var c := OneClusterChanges(b, d, lay, j, entry);
    Dir.EntryRoundTrip(name, First(chain), |contents|);
    assert SlotBytesAt(d', sectors, j) == entry;
    StillEndsOnce(d, d', sectors, Dir.EncodedName(name).value, j, existing);
  }

  /** No chain notices the switch: the root's, the new one, or any other slot's. */
  lemma {:induction false} SwitchedChains(b: BootSector, d: Disk, lay: Layout, name: seq<Byte>, contents: seq<Byte>,
                                          chain: seq<nat>, j: nat, existing: Option<Dir.DirectoryEntry>)
    requires Ready(b, d, lay, name, contents, chain, j, existing)
    ensures var sectors := SectorsOf(b, lay.root);
            var d' := Switched(b, d, lay, name, contents, chain, j, existing);
            && Holds(b, d')
            && IsChain(b, d', b.rootCluster, lay.root)
            && (chain != [] ==> IsChain(b, d', chain[0], chain))
            && FileBytes(b, d', First(chain), |contents|) == Some(contents)
            && forall i: nat | i < SLOTS_PER_SECTOR * |sectors| ::
                 && SlotSound(b, d', SlotAt(d, sectors, i), lay.ChainAt(i))
                 && (SlotAt(d, sectors, i).Entry? ==>
                       EntryView(b, d', SlotAt(d, sectors, i).entry) == EntryView(b, d, SlotAt(d, sectors, i).entry))
  {
    hide Dir.SlotOf, WithSlot, FileBytes, EntryView;
    var sectors := SectorsOf(b, lay.root);
    var d' := Switched(b, d, lay, name, contents, chain, j, existing);
    var c := OneClusterChanges(b, d, lay, j, NewSlot(b, name, chain, contents));
    ChainFrame(b, d, d', {c}, {}, b.rootCluster, lay.root);
    if chain != [] {
      ChainFrame(b, d, d', {c}, {}, chain[0], chain);
      FileBytesFrame(b, d, d', {c}, {}, chain[0], |contents|, chain);
    } else {
      EmptyFile(b, d', 0);
    }
    forall i: nat | i < SLOTS_PER_SECTOR * |sectors|
      ensures SlotSound(b, d', SlotAt(d, sectors, i), lay.ChainAt(i))
      ensures SlotAt(d, sectors, i).Entry? ==>
                EntryView(b, d', SlotAt(d, sectors, i).entry) == EntryView(b, d, SlotAt(d, sectors, i).entry)
    {
      SlotSoundFrame(b, d, d', {c}, {}, SlotAt(d, sectors, i), lay.ChainAt(i));
    }
  }

  /** The switch leaves a sound volume, with the new chain in and the replaced one out. */
  lemma {:induction false} SwitchSound(b: BootSector, d: Disk, lay: Layout, name: seq<Byte>, contents: seq<Byte>,
                                       chain: seq<nat>, j: nat, existing: Option<Dir.DirectoryEntry>)
    requires Ready(b, d, lay, name, contents, chain, j, existing)
    ensures Sound(b, Switched(b, d, lay, name, contents, chain, j, existing), Renamed(lay, j, chain))
  {
    hide Dir.SlotOf, Walk, Switched, FileBytes, Dir.EncodedName, Dir.Canonical;
    var sectors := SectorsOf(b, lay.root);
    var d' := Switched(b, d, lay, name, contents, chain, j, existing);
    var lay' := Renamed(lay, j, chain);
    SwitchedSlots(b, d, lay, name, contents, chain, j, existing);
    SwitchedChains(b, d, lay, name, contents, chain, j, existing);
    RenamedDisjoint(lay, j, chain);
    forall i: nat | i < SLOTS_PER_SECTOR * |sectors| ensures SlotSound(b, d', SlotAt(d', sectors, i), lay'.ChainAt(i)) {
      hide SlotSound, IsChain, Sound;
      if i != j {
        assert SlotBytesAt(d', sectors, i) == SlotBytesAt(d, sectors, i);
        assert lay'.ChainAt(i) == lay.ChainAt(i);
      } else {
        NewSlotSound(b, d', name, chain, contents);
        assert lay'.ChainAt(i) == chain;
      }
    }
  }

  lemma {:induction false} NewSlotSound(b: BootSector, d: Disk, name: seq<Byte>, chain: seq<nat>, contents: seq<Byte>)
    requires Holds(b, d) && Dir.FitsEightAndThree(name) && |contents| < 0x1_0000_0000
    requires chain != [] ==> IsChain(b, d, chain[0], chain)
    requires |contents| <= Times(|chain|, b.sectorsPerCluster) * SECTOR_BYTES
    ensures AllInRange(b, chain)
    ensures chain != [] ==> b.InRange(chain[0])
    ensures var entry := Dir.DirectoryEntry(Dir.Canonical(name), Dir.ATTR_ARCHIVE, First(chain), |contents|);
            SlotSound(b, d, Dir.Entry(entry), chain)
  {
  }

  // ---------------------------------------------------------------------
  // What a reader sees
  // ---------------------------------------------------------------------

  /** A slot stored under the bytes of `name` reads as `name` and as nothing else. */
  lemma {:induction false} StoredAsNamed(d: Disk, sectors: seq<nat>, i: nat, name: seq<Byte>, n: seq<Byte>)
    requires OnDisk(d, sectors) && i < SLOTS_PER_SECTOR * |sectors| && Dir.FitsEightAndThree(name)
    requires StoredAs(d, sectors, i, Dir.EncodedName(name).value)
    ensures Named(d, sectors, i, n) <==> Dir.EqualIgnoringCase(Dir.Canonical(name), n)
  {
    var raw, encoded := SlotBytesAt(d, sectors, i), Dir.EncodedName(name).value;
    assert raw[..11] == raw[..11][..11] && encoded == encoded[..11];
    Dir.StoredAlike(raw, encoded);
    Dir.StoredAscii(raw, encoded);
  }

  /** Every name but the one written reads as it did. */
  lemma {:induction false} SwitchOthers(b: BootSector, d: Disk, lay: Layout, name: seq<Byte>, contents: seq<Byte>,
                                        chain: seq<nat>, j: nat, existing: Option<Dir.DirectoryEntry>, n: seq<Byte>)
    requires Ready(b, d, lay, name, contents, chain, j, existing)
    requires !Dir.EqualIgnoringCase(Dir.Canonical(name), n)
    ensures Holds(b, Switched(b, d, lay, name, contents, chain, j, existing))
    ensures ViewOf(b, Switched(b, d, lay, name, contents, chain, j, existing), n) == ViewOf(b, d, n)
  {
    hide Ready, Sound, Dir.SlotOf, Switched, EntryView, Dir.EqualIgnoringCase, RootSectors, FindSlot, Dir.Canonical;
    ReadyBasics(b, d, lay, name, contents, chain, j, existing);
    var sectors := SectorsOf(b, lay.root);
    var d' := Switched(b, d, lay, name, contents, chain, j, existing);
    SwitchedSlots(b, d, lay, name, contents, chain, j, existing);
    SwitchedChains(b, d, lay, name, contents, chain, j, existing);
    SwitchSound(b, d, lay, name, contents, chain, j, existing);
    OldIsNamed(b, d, lay, name, contents, chain, j, existing, n);
    NewIsNamed(b, d, lay, name, contents, chain, j, existing, n);
    forall k | 0 <= k < SLOTS_PER_SECTOR * |sectors| ensures Named(d', sectors, k, n) <==> Named(d, sectors, k, n) {
      if k != j {
        assert SlotBytesAt(d', sectors, k) == SlotBytesAt(d, sectors, k);
      }
    }
    FindSlotAgrees(d, d', sectors, n);
    SoundRoot(b, d, lay);
    SoundRoot(b, d', Renamed(lay, j, chain));
    var i := FindSlot(d, sectors, n, 0);
    if i.Some? {
      assert i.value != j;
      assert SlotBytesAt(d', sectors, i.value) == SlotBytesAt(d, sectors, i.value);
    }
  }

  lemma {:induction false} OldIsNamed(b: BootSector, d: Disk, lay: Layout, name: seq<Byte>, contents: seq<Byte>,
                                      chain: seq<nat>, j: nat, existing: Option<Dir.DirectoryEntry>, n: seq<Byte>)
    requires Ready(b, d, lay, name, contents, chain, j, existing)
    requires !Dir.EqualIgnoringCase(Dir.Canonical(name), n)
    ensures !Named(d, SectorsOf(b, lay.root), j, n)
  {
    hide Sound, Dir.SlotOf, Prepared, Dir.Canonical, StoredSlot, Vacant;
    ReadyBasics(b, d, lay, name, contents, chain, j, existing);
    if existing.Some? {
      StoredAsNamed(d, SectorsOf(b, lay.root), j, name, n);
    } else {
      VacantOrNot(d, SectorsOf(b, lay.root), j);
    }
  }

  lemma {:induction false} NewIsNamed(b: BootSector, d: Disk, lay: Layout, name: seq<Byte>, contents: seq<Byte>,
                                      chain: seq<nat>, j: nat, existing: Option<Dir.DirectoryEntry>, n: seq<Byte>)
    requires Ready(b, d, lay, name, contents, chain, j, existing)
    ensures var d' := Switched(b, d, lay, name, contents, chain, j, existing);
            OnDisk(d', SectorsOf(b, lay.root)) &&
            (Named(d', SectorsOf(b, lay.root), j, n) <==> Dir.EqualIgnoringCase(Dir.Canonical(name), n))
  {
    hide Dir.SlotOf, Switched, Walk;
    SwitchedSlots(b, d, lay, name, contents, chain, j, existing);
    Dir.NameRoundTrip(name);
  }

  /** An entry that reads as `name` in front of slot `j`. */
  ghost predicate InFront(d: Disk, sectors: seq<nat>, name: seq<Byte>, j: nat)
    requires OnDisk(d, sectors) && j <= SLOTS_PER_SECTOR * |sectors| && Dir.FitsEightAndThree(name)
  {
    exists i | 0 <= i < j :: Named(d, sectors, i, Dir.Canonical(name))
  }

  /** As the directory stands, an entry that reads as `name` without being stored under its bytes
      is in front of the slot a new one would take: `find` stops at it and never reaches that. */
  ghost predicate Shadowed(d: Disk, sectors: seq<nat>, name: seq<Byte>)
    requires OnDisk(d, sectors) && Dir.FitsEightAndThree(name)
  {
    var j := TheSlot(d, sectors, Dir.EncodedName(name).value);
    j.Some? && InFront(d, sectors, name, j.value)
  }

  lemma {:induction false} ShadowedIs(d: Disk, sectors: seq<nat>, name: seq<Byte>, j: nat,
                                      existing: Option<Dir.DirectoryEntry>)
    requires OnDisk(d, sectors) && Dir.FitsEightAndThree(name)
    requires Chosen(d, sectors, Dir.EncodedName(name).value, j, existing)
    ensures j < SLOTS_PER_SECTOR * |sectors| && (Shadowed(d, sectors, name) <==> InFront(d, sectors, name, j))
  {
    hide SlotAt, Dir.Canonical, Dir.EncodedName, Dir.FitsEightAndThree, TheSlot, InFront;
    ChosenIsTheSlot(d, sectors, Dir.EncodedName(name).value, j, existing);
  }

  /** Where the name written is found afterwards. */
  lemma {:induction false} TargetSlot(b: BootSector, d: Disk, lay: Layout, name: seq<Byte>, contents: seq<Byte>,
                                      chain: seq<nat>, j: nat, existing: Option<Dir.DirectoryEntry>, n: seq<Byte>)
    requires Ready(b, d, lay, name, contents, chain, j, existing)
    requires Dir.EqualIgnoringCase(Dir.Canonical(name), n)
    ensures var sectors := SectorsOf(b, lay.root);
            var d' := Switched(b, d, lay, name, contents, chain, j, existing);
            && Holds(b, d') && OnDisk(d', sectors)
            && (!InFront(d, sectors, name, j) ==> FindSlot(d', sectors, n, 0) == Some(j))
            && (InFront(d, sectors, name, j) ==>
                  && FindSlot(d, sectors, n, 0).Some? && FindSlot(d, sectors, n, 0).value < j
                  && FindSlot(d', sectors, n, 0) == FindSlot(d, sectors, n, 0))
  {
    hide Dir.SlotOf, Walk, Switched, Dir.EncodedName, Dir.EqualIgnoringCase, FileBytes, SlotBytesAt, Prepared,
         FindSlot, Dir.Canonical;
    var sectors := SectorsOf(b, lay.root);
    var d' := Switched(b, d, lay, name, contents, chain, j, existing);
    SwitchedSlots(b, d, lay, name, contents, chain, j, existing);
    NewIsNamed(b, d, lay, name, contents, chain, j, existing, n);
    forall k | 0 <= k < SLOTS_PER_SECTOR * |sectors|
      ensures k != j ==> (Named(d', sectors, k, n) <==> Named(d, sectors, k, n))
      ensures Named(d, sectors, k, n) <==> Named(d, sectors, k, Dir.Canonical(name))
    {
      SameNameAlike(d, sectors, k, Dir.Canonical(name), n);
    }
    FindSlotAfter(d, d', sectors, n, j);
  }

  /** The name written is found in its new slot exactly when nothing shadows it, and then it
      reads as the new contents; otherwise it reads as before. */
  lemma {:induction false} SwitchTarget(b: BootSector, d: Disk, lay: Layout, name: seq<Byte>, contents: seq<Byte>,
                                        chain: seq<nat>, j: nat, existing: Option<Dir.DirectoryEntry>, n: seq<Byte>)
    requires Ready(b, d, lay, name, contents, chain, j, existing)
    requires Dir.EqualIgnoringCase(Dir.Canonical(name), n)
    ensures var sectors := SectorsOf(b, lay.root);
            var d' := Switched(b, d, lay, name, contents, chain, j, existing);
            && Holds(b, d') && OnDisk(d', sectors)
            && RootSectors(b, d') == Some(sectors)
            && (FindSlot(d', sectors, n, 0) == Some(j) <==> !Shadowed(d, sectors, name))
            && (!Shadowed(d, sectors, name) ==>
                  && SlotAt(d', sectors, j).Entry?
                  && ViewOf(b, d', n) == File(SlotAt(d', sectors, j).entry, contents))
            && (Shadowed(d, sectors, name) ==> ViewOf(b, d', n) == ViewOf(b, d, n))
  {
    hide Ready, Sound, Switched, SlotAt, Dir.EqualIgnoringCase, Shadowed, InFront, Chosen, FindSlot, ViewOf,
         Dir.Canonical, RootSectors, Dir.EncodedName;
    ReadyBasics(b, d, lay, name, contents, chain, j, existing);
    var sectors := SectorsOf(b, lay.root);
    var d' := Switched(b, d, lay, name, contents, chain, j, existing);
    TargetSlot(b, d, lay, name, contents, chain, j, existing, n);
    ReadyChosen(b, d, lay, name, contents, chain, j, existing);
    ShadowedIs(d, sectors, name, j, existing);
    SwitchSound(b, d, lay, name, contents, chain, j, existing);
    SoundRoot(b, d', Renamed(lay, j, chain));
    if Shadowed(d, sectors, name) {
      ShadowedReads(b, d, lay, name, contents, chain, j, existing, n, FindSlot(d, sectors, n, 0).value);
    } else {
      TargetReads(b, d, lay, name, contents, chain, j, existing, n);
    }
  }

  lemma {:induction false} TargetReads(b: BootSector, d: Disk, lay: Layout, name: seq<Byte>, contents: seq<Byte>,
                                       chain: seq<nat>, j: nat, existing: Option<Dir.DirectoryEntry>, n: seq<Byte>)
    requires Ready(b, d, lay, name, contents, chain, j, existing)
    requires var d' := Switched(b, d, lay, name, contents, chain, j, existing);
             Holds(b, d') && OnDisk(d', SectorsOf(b, lay.root)) && FindSlot(d', SectorsOf(b, lay.root), n, 0) == Some(j)
    ensures var d' := Switched(b, d, lay, name, contents, chain, j, existing);
            && SlotAt(d', SectorsOf(b, lay.root), j).Entry?
            && ViewOf(b, d', n) == File(SlotAt(d', SectorsOf(b, lay.root), j).entry, contents)
  {
    hide Ready, Sound, Switched, Dir.SlotOf, FindSlot, Dir.Canonical, RootSectors, FileBytes;
    ReadyBasics(b, d, lay, name, contents, chain, j, existing);
    var d' := Switched(b, d, lay, name, contents, chain, j, existing);
    SwitchedSlots(b, d, lay, name, contents, chain, j, existing);
    SwitchedChains(b, d, lay, name, contents, chain, j, existing);
    SwitchSound(b, d, lay, name, contents, chain, j, existing);
    SoundRoot(b, d', Renamed(lay, j, chain));
  }

  lemma {:induction false} ShadowedReads(b: BootSector, d: Disk, lay: Layout, name: seq<Byte>, contents: seq<Byte>,
                                         chain: seq<nat>, j: nat, existing: Option<Dir.DirectoryEntry>, n: seq<Byte>,
                                         i: nat)
    requires Ready(b, d, lay, name, contents, chain, j, existing)
    requires OnDisk(d, SectorsOf(b, lay.root)) && FindSlot(d, SectorsOf(b, lay.root), n, 0) == Some(i) && i != j
    requires var d' := Switched(b, d, lay, name, contents, chain, j, existing);
             Holds(b, d') && OnDisk(d', SectorsOf(b, lay.root)) && FindSlot(d', SectorsOf(b, lay.root), n, 0) == Some(i)
    ensures ViewOf(b, Switched(b, d, lay, name, contents, chain, j, existing), n) == ViewOf(b, d, n)
  {
    hide Ready, Sound, Switched, Dir.SlotOf, FindSlot, Dir.Canonical, RootSectors, EntryView;
    ReadyBasics(b, d, lay, name, contents, chain, j, existing);
    var sectors := SectorsOf(b, lay.root);
    var d' := Switched(b, d, lay, name, contents, chain, j, existing);
    SwitchedSlots(b, d, lay, name, contents, chain, j, existing);
    SwitchedChains(b, d, lay, name, contents, chain, j, existing);
    SwitchSound(b, d, lay, name, contents, chain, j, existing);
    SoundRoot(b, d, lay);
    SoundRoot(b, d', Renamed(lay, j, chain));
    assert SlotBytesAt(d', sectors, i) == SlotBytesAt(d, sectors, i);
  }

  lemma {:induction false} SameNameAlike(d: Disk, sectors: seq<nat>, k: nat, a: seq<Byte>, n: seq<Byte>)
    requires OnDisk(d, sectors) && k < SLOTS_PER_SECTOR * |sectors| && Dir.EqualIgnoringCase(a, n)
    ensures Named(d, sectors, k, n) <==> Named(d, sectors, k, a)
  {
    hide SlotAt;
  }
}
