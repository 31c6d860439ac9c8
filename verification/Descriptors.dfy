/** What a process has open, and why a descriptor keeps reading the file it was opened on:
    kernel/src/process.rs, kernel/src/fs.rs and the file calls of kernel/src/user.rs. */
module Descriptors {
  import opened Bytes
  import opened BootSectors
  import opened FatTable
  import opened Chains
  import opened VolumeState
  import opened Commit
  import opened VolumeSteps
  import opened Replacement
  import opened Scheduling
  import Dir = Directory

  const MAX_OPEN := 4

  datatype OpenFile = OpenFile(entry: Dir.DirectoryEntry, position: U32)

  /** What one process has open: a descriptor is an index. */
  type Table = t: seq<Option<OpenFile>> | |t| == MAX_OPEN witness [None, None, None, None]

  /** What a watcher knows of a descriptor: the bytes the file held when it was opened, and what
      all its reads gave, end to end. */
  datatype Held = Held(bytes: seq<Byte>, read: seq<Byte>)

  type Account = a: seq<Option<Held>> | |a| == MAX_OPEN witness [None, None, None, None]

  const NOTHING_OPEN: Table := [None, None, None, None]
  const NOTHING_HELD: Account := [None, None, None, None]

  predicate HoldsName(table: Table, name: seq<Byte>) {
    exists f | 0 <= f < MAX_OPEN :: table[f].Some? && table[f].value.entry.IsNamed(name)
  }

  predicate AnyoneHasOpen(tables: seq<Table>, name: seq<Byte>) {
    exists p | 0 <= p < |tables| :: HoldsName(tables[p], name)
  }

  // ---------------------------------------------------------------------
  // What is true of every descriptor between two calls
  // ---------------------------------------------------------------------

  /** Its name still finds the very entry and bytes it was opened on; its position is inside them;
      and its reads so far are the bytes before its position. */
  ghost predicate FileOk(b: BootSector, d: Disk, file: OpenFile, held: Held)
    requires Holds(b, d)
  {
    && ViewOf(b, d, file.entry.Name()) == File(file.entry, held.bytes)
    && file.position <= file.entry.size == |held.bytes|
    && held.read == held.bytes[..file.position]
  }

  ghost predicate DescriptorOk(b: BootSector, d: Disk, file: Option<OpenFile>, held: Option<Held>)
    requires Holds(b, d)
  {
    file.Some? == held.Some? && (file.Some? ==> FileOk(b, d, file.value, held.value))
  }

  ghost predicate TableOk(b: BootSector, d: Disk, table: Table, account: Account, alive: bool)
    requires Holds(b, d)
  {
    && (forall f | 0 <= f < MAX_OPEN :: DescriptorOk(b, d, table[f], account[f]))
    && (!alive ==> table == NOTHING_OPEN)
  }

  ghost predicate TablesOk(b: BootSector, d: Disk, tables: seq<Table>, accounts: seq<Account>, alive: seq<bool>)
    requires Holds(b, d)
  {
    && |tables| == |accounts| == |alive| == MAX_PROCESSES
    && forall p | 0 <= p < MAX_PROCESSES :: TableOk(b, d, tables[p], accounts[p], alive[p])
  }

  // ---------------------------------------------------------------------
  // Opening
  // ---------------------------------------------------------------------

  /** The same name but for case finds the same slot. */
  lemma {:induction false} FindSlotAlike(d: Disk, sectors: seq<nat>, a: seq<Byte>, n: seq<Byte>, i: nat)
    requires OnDisk(d, sectors) && Dir.EqualIgnoringCase(a, n)
    ensures FindSlot(d, sectors, a, i) == FindSlot(d, sectors, n, i)
    decreases SLOTS_PER_SECTOR * |sectors| - i
  {
    hide SlotAt, Dir.EqualIgnoringCase, Named;
    if i < SLOTS_PER_SECTOR * |sectors| {
      SameNameAlike(d, sectors, i, a, n);
      FindSlotAlike(d, sectors, a, n, i + 1);
    }
  }

  lemma {:induction false} ViewAlike(b: BootSector, d: Disk, a: seq<Byte>, n: seq<Byte>)
    requires Holds(b, d) && Dir.EqualIgnoringCase(a, n)
    ensures ViewOf(b, d, a) == ViewOf(b, d, n)
  {
    hide RootSectors, EntryView, FindSlot, Dir.EqualIgnoringCase;
    if RootSectors(b, d).Some? { FindSlotAlike(d, RootSectors(b, d).value, a, n, 0); }
  }

  /** On a sound volume every file in the root can be read whole. */
  lemma {:induction false} SoundReads(b: BootSector, d: Disk, slot: Dir.Slot, chain: seq<nat>)
    requires Holds(b, d) && SlotSound(b, d, slot, chain) && slot.Entry? && !slot.entry.IsDirectory()
    ensures FileBytes(b, d, slot.entry.firstCluster, slot.entry.size).Some?
  {
    var size := slot.entry.size;
    if chain == [] {
      EmptyFile(b, d, slot.entry.firstCluster);
    } else {
      ClustersForFits(b, size, |chain|);
      DistinctIsShort(b, chain);
      WalkPrefix(b, d, slot.entry.firstCluster, ClustersFor(b, size), |chain|);
    }
  }

  /** What a look-up on a sound volume finds, if it is a file, is what its own name reads as. */
  lemma {:induction false} FoundReads(b: BootSector, d: Disk, lay: Layout, name: seq<Byte>, entry: Dir.DirectoryEntry)
    requires Sound(b, d, lay) && RootSectors(b, d).Some?
    requires Lookup(b, d, name) == Some(entry) && !entry.IsDirectory()
    ensures ViewOf(b, d, name).File? && ViewOf(b, d, name).entry == entry && |ViewOf(b, d, name).bytes| == entry.size
    ensures ViewOf(b, d, entry.Name()) == ViewOf(b, d, name)
  {
    SoundRoot(b, d, lay);
    var sectors := SectorsOf(b, lay.root);
    assert RootSectors(b, d) == Some(sectors);
    hide SlotAt, FileBytes, RootSectors, SlotSound, IsChain;
    var i := FindSlot(d, sectors, name, 0).value;
    assert Named(d, sectors, i, name) && SlotAt(d, sectors, i).entry == entry;
    SoundReads(b, d, SlotAt(d, sectors, i), lay.ChainAt(i));
    ViewAlike(b, d, entry.Name(), name);
  }

  // ---------------------------------------------------------------------
  // Writing
  // ---------------------------------------------------------------------

  lemma {:induction false} AlikeIsSymmetric(a: seq<Byte>, n: seq<Byte>)
    ensures Dir.EqualIgnoringCase(a, n) <==> Dir.EqualIgnoringCase(n, a)
  {
  }

  /** Whoever stopped half way or finished: while nobody has the name open that the file goes by
      afterwards, no descriptor notices the write. */
  lemma {:induction false} WriteKeeps(b: BootSector, d: Disk, h: Disk, name: seq<Byte>, contents: seq<Byte>,
                                      tables: seq<Table>, accounts: seq<Account>, alive: seq<bool>)
    requires Holds(b, d) && Dir.FitsEightAndThree(name) && CrashSafe(b, d, h, name, contents)
    requires TablesOk(b, d, tables, accounts, alive) && !AnyoneHasOpen(tables, Dir.Canonical(name))
    ensures Holds(b, h) && TablesOk(b, h, tables, accounts, alive)
  {
    hide ViewOf, Dir.Canonical, Dir.EqualIgnoringCase;
    forall p | 0 <= p < MAX_PROCESSES ensures TableOk(b, h, tables[p], accounts[p], alive[p]) {
      assert !HoldsName(tables[p], Dir.Canonical(name));
      forall f | 0 <= f < MAX_OPEN ensures DescriptorOk(b, h, tables[p][f], accounts[p][f]) {
        assert DescriptorOk(b, d, tables[p][f], accounts[p][f]);
        if tables[p][f].Some? { AlikeIsSymmetric(tables[p][f].value.entry.Name(), Dir.Canonical(name)); }
      }
    }
  }

  /** The guard before a write asks about the name as it was given. It covers every descriptor on
      the file that will be replaced exactly when the name does not end at its first dot. */
  lemma {:induction false} GuardCovers(name: seq<Byte>)
    requires Dir.FitsEightAndThree(name)
    ensures (forall tables: seq<Table> ::
               AnyoneHasOpen(tables, Dir.Canonical(name)) ==> AnyoneHasOpen(tables, name)) <==>
            !Dir.EndsAtItsFirstDot(name)
  {
    hide Dir.Canonical, Dir.FitsEightAndThree, AnyoneHasOpen, Dir.EndsAtItsFirstDot;
    if Dir.EndsAtItsFirstDot(name) {
      var tables := GuardMisses(name);
    } else {
      forall tables: seq<Table> | AnyoneHasOpen(tables, Dir.Canonical(name)) ensures AnyoneHasOpen(tables, name) {
        GuardSees(tables, name);
      }
    }
  }

  /** A file open as `FOO` while the guard is asked about `FOO.`: it sees nothing. */
  lemma {:induction false} GuardMisses(name: seq<Byte>) returns (tables: seq<Table>)
    requires Dir.FitsEightAndThree(name) && Dir.EndsAtItsFirstDot(name)
    ensures AnyoneHasOpen(tables, Dir.Canonical(name)) && !AnyoneHasOpen(tables, name)
  {
    Dir.NameRoundTrip(name);
    var canonical := Dir.Canonical(name);
    var entry := Dir.DirectoryEntry(canonical, Dir.ATTR_ARCHIVE, 0, 0);
    assert |canonical| < |name| && entry.Name() == canonical;
    hide Dir.Canonical, Dir.FitsEightAndThree, Dir.ValidUtf8, Dir.FirstDot;
    assert entry.IsNamed(canonical) && !entry.IsNamed(name);
    var table: Table := [Some(OpenFile(entry, 0)), None, None, None];
    tables := [table];
    assert table[0].value.entry.IsNamed(canonical);
    assert HoldsName(tables[0], canonical);
  }

  lemma {:induction false} GuardSees(tables: seq<Table>, name: seq<Byte>)
    requires Dir.FitsEightAndThree(name) && !Dir.EndsAtItsFirstDot(name)
    ensures AnyoneHasOpen(tables, Dir.Canonical(name)) ==> AnyoneHasOpen(tables, name)
  {
    Dir.NameRoundTrip(name);
    Dir.UpperIsIgnoringCase(name, name);
    var canonical := Dir.Canonical(name);
    hide Dir.Canonical, Dir.FitsEightAndThree, Dir.FirstDot;
    if AnyoneHasOpen(tables, canonical) {
      var p :| 0 <= p < |tables| && HoldsName(tables[p], canonical);
      var f :| 0 <= f < MAX_OPEN && tables[p][f].Some? && tables[p][f].value.entry.IsNamed(canonical);
      assert tables[p][f].value.entry.IsNamed(name);
      assert HoldsName(tables[p], name);
    }
  }
}
