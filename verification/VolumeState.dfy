/** What a volume holds, seen the way a reader sees it, and what keeps it readable. */
module VolumeState {
  import opened Bytes
  import opened BootSectors
  import opened FatTable
  import opened Chains
  import Dir = Directory

  const SLOTS_PER_SECTOR := 16

  // ---------------------------------------------------------------------
  // The root directory as a list of slots
  // ---------------------------------------------------------------------

  ghost predicate OnDisk(d: Disk, sectors: seq<nat>) {
    forall k :: 0 <= k < |sectors| ==> sectors[k] < |d|
  }

  function SlotIn(sector: Sector, index: nat): (r: Dir.SlotBytes)
    requires index < SLOTS_PER_SECTOR
  {
    sector[32 * index..32 * index + 32]
  }

  ghost function SlotBytesAt(d: Disk, sectors: seq<nat>, i: nat): Dir.SlotBytes
    requires OnDisk(d, sectors) && i < SLOTS_PER_SECTOR * |sectors|
  {
    SlotIn(d[sectors[i / SLOTS_PER_SECTOR]], i % SLOTS_PER_SECTOR)
  }

  ghost function SlotAt(d: Disk, sectors: seq<nat>, i: nat): Dir.Slot
    requires OnDisk(d, sectors) && i < SLOTS_PER_SECTOR * |sectors|
  {
    Dir.SlotOf(SlotBytesAt(d, sectors, i))
  }

  ghost predicate Named(d: Disk, sectors: seq<nat>, i: nat, name: seq<Byte>)
    requires OnDisk(d, sectors) && i < SLOTS_PER_SECTOR * |sectors|
  {
    SlotAt(d, sectors, i).Entry? && SlotAt(d, sectors, i).entry.IsNamed(name)
  }

  /** The first entry called `name`, looking from slot `i` on and never past the end mark. */
  ghost function FindSlot(d: Disk, sectors: seq<nat>, name: seq<Byte>, i: nat): (r: Option<nat>)
    requires OnDisk(d, sectors)
    ensures r.Some? ==> i <= r.value < SLOTS_PER_SECTOR * |sectors| && Named(d, sectors, r.value, name)
    decreases SLOTS_PER_SECTOR * |sectors| - i
  {
    if i >= SLOTS_PER_SECTOR * |sectors| || SlotAt(d, sectors, i).End? then None
    else if Named(d, sectors, i, name) then Some(i)
    else FindSlot(d, sectors, name, i + 1)
  }

  /** Every slot after the first never-used one is never-used too. */
  ghost predicate EndsOnce(d: Disk, sectors: seq<nat>)
    requires OnDisk(d, sectors)
  {
    forall i, k | 0 <= i < k < SLOTS_PER_SECTOR * |sectors| && SlotAt(d, sectors, i).End? :: SlotAt(d, sectors, k).End?
  }

  /** `FindSlot` is the lowest slot of that name, wherever the directory ends. */
  lemma {:induction false} FindSlotLowest(d: Disk, sectors: seq<nat>, name: seq<Byte>, i: nat)
    requires OnDisk(d, sectors) && EndsOnce(d, sectors)
    ensures FindSlot(d, sectors, name, i).None? ==>
              forall k | i <= k < SLOTS_PER_SECTOR * |sectors| :: !Named(d, sectors, k, name)
    ensures FindSlot(d, sectors, name, i).Some? ==>
              forall k | i <= k < FindSlot(d, sectors, name, i).value :: !Named(d, sectors, k, name)
    decreases SLOTS_PER_SECTOR * |sectors| - i
  {
    hide SlotAt;
    if i < SLOTS_PER_SECTOR * |sectors| && !SlotAt(d, sectors, i).End? && !Named(d, sectors, i, name) {
      FindSlotLowest(d, sectors, name, i + 1);
    }
  }

  /** Two directories that agree on which slots have a name agree on where it is found. */
  lemma {:induction false} FindSlotAgrees(d: Disk, d': Disk, sectors: seq<nat>, name: seq<Byte>)
    requires OnDisk(d, sectors) && OnDisk(d', sectors) && EndsOnce(d, sectors) && EndsOnce(d', sectors)
    requires forall k | 0 <= k < SLOTS_PER_SECTOR * |sectors| ::
               Named(d', sectors, k, name) <==> Named(d, sectors, k, name)
    ensures FindSlot(d', sectors, name, 0) == FindSlot(d, sectors, name, 0)
  {
    hide SlotAt;
    FindSlotLowest(d, sectors, name, 0);
    FindSlotLowest(d', sectors, name, 0);
  }

  /** One more slot of a name is found unless an earlier one is. */
  lemma {:induction false} FindSlotAfter(d: Disk, d': Disk, sectors: seq<nat>, name: seq<Byte>, j: nat)
    requires OnDisk(d, sectors) && OnDisk(d', sectors) && EndsOnce(d, sectors) && EndsOnce(d', sectors)
    requires j < SLOTS_PER_SECTOR * |sectors| && Named(d', sectors, j, name)
    requires forall k | 0 <= k < SLOTS_PER_SECTOR * |sectors| && k != j ::
               Named(d', sectors, k, name) <==> Named(d, sectors, k, name)
    ensures FindSlot(d', sectors, name, 0) ==
              if exists i | 0 <= i < j :: Named(d, sectors, i, name) then FindSlot(d, sectors, name, 0) else Some(j)
    ensures (exists i | 0 <= i < j :: Named(d, sectors, i, name)) ==>
              FindSlot(d, sectors, name, 0).Some? && FindSlot(d, sectors, name, 0).value < j
  {
    hide SlotAt;
    FindSlotLowest(d, sectors, name, 0);
    FindSlotLowest(d', sectors, name, 0);
  }

  // ---------------------------------------------------------------------
  // Views
  // ---------------------------------------------------------------------

  /** What looking a name up and reading it gives. */
  datatype View =
    | NoRoot
    | Absent
    | Directory(entry: Dir.DirectoryEntry)
    | Damaged(entry: Dir.DirectoryEntry)
    | File(entry: Dir.DirectoryEntry, bytes: seq<Byte>)

  ghost function RootSectors(b: BootSector, d: Disk): (r: Option<seq<nat>>)
    requires Holds(b, d)
    ensures r.Some? ==> OnDisk(d, r.value)
  {
    var root := ChainFrom(b, d, b.rootCluster, 1);
    if root.None? then None else
      ChainFromInRange(b, d, b.rootCluster, 1);
      Some(SectorsOf(b, root.value))
  }

  lemma {:induction false} ChainFromInRange(b: BootSector, d: Disk, first: nat, n: nat)
    requires Holds(b, d) && n > 0
    ensures ChainFrom(b, d, first, n).Some? ==> AllInRange(b, ChainFrom(b, d, first, n).value)
    decreases b.clusters as int + 1 - n
  {
    if n <= b.clusters && Walk(b, d, first, n).Some? && EntryOf(b, d, Walk(b, d, first, n).value[n - 1]) != End {
      ChainFromInRange(b, d, first, n + 1);
    }
  }

  ghost function EntryView(b: BootSector, d: Disk, entry: Dir.DirectoryEntry): View
    requires Holds(b, d)
  {
    if entry.IsDirectory() then Directory(entry)
    else
      var bytes := FileBytes(b, d, entry.firstCluster, entry.size);
      if bytes.None? then Damaged(entry) else File(entry, bytes.value)
  }

  ghost function ViewOf(b: BootSector, d: Disk, name: seq<Byte>): View
    requires Holds(b, d)
  {
    var sectors := RootSectors(b, d);
    if sectors.None? then NoRoot
    else
      var i := FindSlot(d, sectors.value, name, 0);
      if i.None? then Absent else EntryView(b, d, SlotAt(d, sectors.value, i.value).entry)
  }

  // ---------------------------------------------------------------------
  // Sound volumes
  // ---------------------------------------------------------------------

  /** Who owns which clusters: the root directory, and the chain each root slot names. */
  datatype Layout = Layout(root: seq<nat>, files: map<nat, seq<nat>>) {
    ghost predicate Apart(clusters: set<nat>) {
      && Members(root) !! clusters
      && forall i | i in files :: Members(files[i]) !! clusters
    }

    ghost predicate Disjoint() {
      && (forall i | i in files :: Members(files[i]) !! Members(root))
      && (forall i, k | i in files && k in files && i != k :: Members(files[i]) !! Members(files[k]))
    }

    ghost function ChainAt(i: nat): seq<nat> {
      if i in files then files[i] else []
    }
  }

  /** One slot and the chain it names fit together. */
  ghost predicate SlotSound(b: BootSector, d: Disk, slot: Dir.Slot, chain: seq<nat>)
    requires Holds(b, d)
  {
    && (chain != [] ==> slot.Entry? && slot.entry.firstCluster != 0 && IsChain(b, d, slot.entry.firstCluster, chain))
    && (slot.Entry? && slot.entry.firstCluster != 0 ==> chain != [])
    && (slot.Entry? && !slot.entry.IsDirectory() ==>
        slot.entry.size <= Times(|chain|, b.sectorsPerCluster) * SECTOR_BYTES)
  }

  /** Chains are whole, long enough and shared by nobody, and the directory ends once.
      The 28-bit limit keeps every cluster number apart from the marks. */
  ghost predicate Sound(b: BootSector, d: Disk, lay: Layout) {
    && Holds(b, d)
    && b.clusters + FIRST_DATA_CLUSTER <= 0x0FFF_FFF7
    && IsChain(b, d, b.rootCluster, lay.root)
    && lay.Disjoint()
    && EndsOnce(d, SectorsOf(b, lay.root))
    && (forall i | i in lay.files :: i < SLOTS_PER_SECTOR * |SectorsOf(b, lay.root)| && lay.files[i] != [])
    && (forall i: nat | i < SLOTS_PER_SECTOR * |SectorsOf(b, lay.root)| ::
          SlotSound(b, d, SlotAt(d, SectorsOf(b, lay.root), i), lay.ChainAt(i)))
  }

  ghost predicate SoundSomehow(b: BootSector, d: Disk) {
    exists lay :: Sound(b, d, lay)
  }

  lemma {:induction false} SoundRoot(b: BootSector, d: Disk, lay: Layout)
    requires Sound(b, d, lay)
    ensures RootSectors(b, d) == Some(SectorsOf(b, lay.root))
  {
    ChainFromFinds(b, d, b.rootCluster, lay.root, 1);
  }

  // ---------------------------------------------------------------------
  // Writes that touch nothing anybody names
  // ---------------------------------------------------------------------

  lemma {:induction false} SectorsFrame(b: BootSector, d: Disk, d': Disk, data: set<nat>, table: set<nat>, cs: seq<nat>)
    requires Only(b, d, d', data, table) && AllInRange(b, cs) && Members(cs) !! data
    ensures forall j | 0 <= j < |SectorsOf(b, cs)| :: d'[SectorsOf(b, cs)[j]] == d[SectorsOf(b, cs)[j]]
  {
    forall j | 0 <= j < |SectorsOf(b, cs)| ensures d'[SectorsOf(b, cs)[j]] == d[SectorsOf(b, cs)[j]] {
      var i, k := SectorsOfOwner(b, cs, j);
      assert cs[i] in Members(cs);
      assert DataSame(b, d, d', cs[i]);
    }
  }

  lemma {:induction false} SlotSoundFrame(b: BootSector, d: Disk, d': Disk, data: set<nat>, table: set<nat>,
                                          slot: Dir.Slot, chain: seq<nat>)
    requires Only(b, d, d', data, table) && SlotSound(b, d, slot, chain)
    requires Members(chain) !! data && Members(chain) !! table
    ensures SlotSound(b, d', slot, chain)
    ensures slot.Entry? ==> EntryView(b, d', slot.entry) == EntryView(b, d, slot.entry)
  {
    if chain != [] {
      var first := slot.entry.firstCluster;
      ChainFrame(b, d, d', data, table, first, chain);
      if !slot.entry.IsDirectory() {
        FileBytesFrame(b, d, d', data, table, first, slot.entry.size, chain);
      }
    } else if slot.Entry? && !slot.entry.IsDirectory() {
      assert slot.entry.size == 0;
      EmptyFile(b, d, slot.entry.firstCluster);
      EmptyFile(b, d', slot.entry.firstCluster);
    }
  }

  lemma {:induction false} EmptyFile(b: BootSector, d: Disk, first: nat)
    requires Holds(b, d)
    ensures FileBytes(b, d, first, 0) == Some([])
  {
  }

  /** Whatever is written to clusters nobody names, every name reads as it did. */
  lemma {:induction false} SoundFrame(b: BootSector, d: Disk, d': Disk, data: set<nat>, table: set<nat>, lay: Layout)
    requires Sound(b, d, lay) && Only(b, d, d', data, table) && lay.Apart(data) && lay.Apart(table)
    ensures Sound(b, d', lay)
    ensures forall n: seq<Byte> :: ViewOf(b, d', n) == ViewOf(b, d, n)
    ensures forall i | 0 <= i < SLOTS_PER_SECTOR * |SectorsOf(b, lay.root)| ::
              SlotBytesAt(d', SectorsOf(b, lay.root), i) == SlotBytesAt(d, SectorsOf(b, lay.root), i)
  {
    var sectors := SectorsOf(b, lay.root);
    ChainFrame(b, d, d', data, table, b.rootCluster, lay.root);
    SectorsFrame(b, d, d', data, table, lay.root);
    forall i: nat | i < SLOTS_PER_SECTOR * |sectors|
      ensures SlotBytesAt(d', sectors, i) == SlotBytesAt(d, sectors, i)
    {
    }
    forall i: nat | i < SLOTS_PER_SECTOR * |sectors|
      ensures SlotSound(b, d', SlotAt(d', sectors, i), lay.ChainAt(i))
      ensures SlotAt(d, sectors, i).Entry? ==>
                EntryView(b, d', SlotAt(d, sectors, i).entry) == EntryView(b, d, SlotAt(d, sectors, i).entry)
    {
      assert SlotBytesAt(d', sectors, i) == SlotBytesAt(d, sectors, i);
      SlotSoundFrame(b, d, d', data, table, SlotAt(d, sectors, i), lay.ChainAt(i));
    }
    assert EndsOnce(d', sectors);
    SoundRoot(b, d, lay);
    SoundRoot(b, d', lay);
    forall n: seq<Byte> ensures ViewOf(b, d', n) == ViewOf(b, d, n) {
      FindSlotAgrees(d, d', sectors, n);
    }
  }
}
