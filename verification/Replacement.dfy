/** Replacing a file, phase by phase: what a reader sees in every state the disk goes through. */
module Replacement {
  import opened Bytes
  import opened BootSectors
  import opened FatTable
  import opened Chains
  import opened VolumeState
  import opened Commit
  import opened VolumeSteps
  import Dir = Directory

  /** What was decided before anything was written: the slot, what it held, and the clusters. */
  datatype Plan = Plan(j: nat, existing: Option<Dir.DirectoryEntry>, chain: seq<nat>)

  /** `h` still reads as `d` does, whatever the name. */
  ghost predicate AsBefore(b: BootSector, d: Disk, h: Disk, lay: Layout)
    requires Holds(b, d)
  {
    Sound(b, h, lay) && forall n: seq<Byte> :: ViewOf(b, h, n) == ViewOf(b, d, n)
  }

  /** `h` reads as `d` does for every name but the one written; that one reads as the new
      contents, or as it did when an entry in front of its slot shadows it. */
  ghost predicate AsAfter(b: BootSector, d: Disk, h: Disk, lay: Layout, name: seq<Byte>, contents: seq<Byte>,
                          shadowed: bool)
    requires Holds(b, d) && Dir.FitsEightAndThree(name)
  {
    && Sound(b, h, lay)
    && (forall n: seq<Byte> | !Dir.EqualIgnoringCase(Dir.Canonical(name), n) :: ViewOf(b, h, n) == ViewOf(b, d, n))
    && (forall n: seq<Byte> | Dir.EqualIgnoringCase(Dir.Canonical(name), n) ::
          if shadowed then ViewOf(b, h, n) == ViewOf(b, d, n)
          else ViewOf(b, h, n).File? && ViewOf(b, h, n).bytes == contents)
  }

  /** The promise a crash must not break: every other file reads exactly as before, and the
      one being written reads entirely as its old state or entirely as the new contents. */
  ghost predicate CrashSafe(b: BootSector, d: Disk, h: Disk, name: seq<Byte>, contents: seq<Byte>)
    requires Holds(b, d) && Dir.FitsEightAndThree(name)
  {
    && Holds(b, h) && SoundSomehow(b, h)
    && (forall n: seq<Byte> | !Dir.EqualIgnoringCase(Dir.Canonical(name), n) :: ViewOf(b, h, n) == ViewOf(b, d, n))
    && (forall n: seq<Byte> | Dir.EqualIgnoringCase(Dir.Canonical(name), n) ::
          || ViewOf(b, h, n) == ViewOf(b, d, n)
          || (ViewOf(b, h, n).File? && ViewOf(b, h, n).bytes == contents))
  }

  lemma {:induction false} BeforeIsSafe(b: BootSector, d: Disk, h: Disk, lay: Layout, name: seq<Byte>,
                                        contents: seq<Byte>)
    requires Holds(b, d) && Dir.FitsEightAndThree(name) && AsBefore(b, d, h, lay)
    ensures CrashSafe(b, d, h, name, contents)
  {
    hide ViewOf, Dir.EqualIgnoringCase;
    SoundHolds(b, h, lay);
  }

  lemma {:induction false} AfterIsSafe(b: BootSector, d: Disk, h: Disk, lay: Layout, name: seq<Byte>,
                                       contents: seq<Byte>, shadowed: bool)
    requires Holds(b, d) && Dir.FitsEightAndThree(name) && AsAfter(b, d, h, lay, name, contents, shadowed)
    ensures CrashSafe(b, d, h, name, contents)
  {
    hide ViewOf, Dir.EqualIgnoringCase;
    SoundHolds(b, h, lay);
  }

  lemma {:induction false} SoundHolds(b: BootSector, d: Disk, lay: Layout)
    requires Sound(b, d, lay)
    ensures Holds(b, d) && SoundSomehow(b, d) && b.clusters + FIRST_DATA_CLUSTER <= 0x0FFF_FFF7
    ensures AllInRange(b, lay.root) && OnDisk(d, SectorsOf(b, lay.root)) && EndsOnce(d, SectorsOf(b, lay.root))
  {
  }

  /** There is a slot for the name, and no directory in it. */
  ghost predicate HasSlot(b: BootSector, d: Disk, lay: Layout, name: seq<Byte>)
    requires Holds(b, d) && AllInRange(b, lay.root) && OnDisk(d, SectorsOf(b, lay.root)) && Dir.FitsEightAndThree(name)
  {
    exists j, existing: Option<Dir.DirectoryEntry> ::
      && Chosen(d, SectorsOf(b, lay.root), Dir.EncodedName(name).value, j, existing)
      && (existing.Some? ==> !existing.value.IsDirectory())
  }

  /** Why nothing was written to a sound volume: the device, or something the volume says. */
  ghost predicate PlanRefused(b: BootSector, d: Disk, lay: Layout, name: seq<Byte>, contents: seq<Byte>,
                              error: WriteError)
    requires Holds(b, d) && AllInRange(b, lay.root) && OnDisk(d, SectorsOf(b, lay.root)) && Dir.FitsEightAndThree(name)
  {
    match error
    case Reading(e) => e == DeviceRead
    case DirectoryFull => NoRoom(d, SectorsOf(b, lay.root), Dir.EncodedName(name).value)
    case IsADirectory => exists j, e ::
      Chosen(d, SectorsOf(b, lay.root), Dir.EncodedName(name).value, j, Some(e)) && e.IsDirectory()
    case TooManyClusters(n) => HasSlot(b, d, lay, name) && n == ClustersFor(b, |contents|) && n > MAX_FILE_CLUSTERS
    case Full(n, free) =>
      && HasSlot(b, d, lay, name) && n == ClustersFor(b, |contents|) <= MAX_FILE_CLUSTERS
      && free == |FreeSet(b, d)| && free < n
    case _ => false
  }

  // ---------------------------------------------------------------------
  // Before the switch
  // ---------------------------------------------------------------------

  /** A free cluster is in nobody's chain. */
  lemma {:induction false} FreeIsApart(b: BootSector, d: Disk, lay: Layout, clusters: set<nat>)
    requires Sound(b, d, lay) && clusters <= FreeSet(b, d)
    ensures lay.Apart(clusters)
  {
    hide EntryOf, SlotAt, Walk;
    ChainNotFree(b, d, b.rootCluster, lay.root);
    forall i | i in lay.files ensures Members(lay.files[i]) !! clusters {
      var slot := SlotAt(d, SectorsOf(b, lay.root), i);
      assert SlotSound(b, d, slot, lay.ChainAt(i));
      ChainNotFree(b, d, slot.entry.firstCluster, lay.files[i]);
    }
  }

  lemma {:induction false} ChainNotFree(b: BootSector, d: Disk, first: nat, chain: seq<nat>)
    requires Holds(b, d) && IsChain(b, d, first, chain)
    ensures Members(chain) !! FreeSet(b, d)
  {
    hide EntryOf;
    forall c | c in Members(chain) ensures c !in FreeSet(b, d) {
      var i: nat :| i < |chain| && chain[i] == c;
      NotFree(b, d, first, chain, i);
    }
  }

  /** While only clusters nothing named are written, nothing shows. */
  lemma {:induction false} NothingShows(b: BootSector, d: Disk, h: Disk, lay: Layout, chain: seq<nat>)
    requires Sound(b, d, lay) && Members(chain) <= FreeSet(b, d)
    requires Only(b, d, h, Members(chain), Members(chain))
    ensures AsBefore(b, d, h, lay)
    ensures AllInRange(b, lay.root) && OnDisk(d, SectorsOf(b, lay.root)) && OnDisk(h, SectorsOf(b, lay.root))
    ensures forall i | 0 <= i < SLOTS_PER_SECTOR * |SectorsOf(b, lay.root)| ::
              SlotBytesAt(h, SectorsOf(b, lay.root), i) == SlotBytesAt(d, SectorsOf(b, lay.root), i)
  {
    hide Sound, Only, FreeSet, ViewOf;
    SoundHolds(b, d, lay);
    FreeIsApart(b, d, lay, Members(chain));
    SoundFrame(b, d, h, Members(chain), Members(chain), lay);
    SoundHolds(b, h, lay);
  }

  /** Every slot of the directory holds the same bytes. */
  ghost predicate SameSlots(d: Disk, h: Disk, sectors: seq<nat>) {
    && OnDisk(d, sectors) && OnDisk(h, sectors)
    && forall i | 0 <= i < SLOTS_PER_SECTOR * |sectors| :: SlotBytesAt(h, sectors, i) == SlotBytesAt(d, sectors, i)
  }

  lemma {:induction false} StoredSlotSame(d: Disk, h: Disk, sectors: seq<nat>, encoded: seq<Byte>, i: nat)
    requires SameSlots(d, h, sectors)
    ensures StoredSlot(h, sectors, encoded, i) == StoredSlot(d, sectors, encoded, i)
    decreases SLOTS_PER_SECTOR * |sectors| - i
  {
    hide SlotBytesAt, Dir.SlotOf, Dir.EqualIgnoringCase;
    if i < SLOTS_PER_SECTOR * |sectors| {
      assert SlotBytesAt(h, sectors, i) == SlotBytesAt(d, sectors, i);
      StoredSlotSame(d, h, sectors, encoded, i + 1);
    }
  }

  lemma {:induction false} VacantSlotSame(d: Disk, h: Disk, sectors: seq<nat>, i: nat)
    requires SameSlots(d, h, sectors)
    ensures VacantSlot(h, sectors, i) == VacantSlot(d, sectors, i)
    decreases SLOTS_PER_SECTOR * |sectors| - i
  {
    hide SlotBytesAt;
    if i < SLOTS_PER_SECTOR * |sectors| {
      assert SlotBytesAt(h, sectors, i) == SlotBytesAt(d, sectors, i);
      VacantSlotSame(d, h, sectors, i + 1);
    }
  }

  lemma {:induction false} ChosenSame(d: Disk, h: Disk, sectors: seq<nat>, encoded: seq<Byte>, j: nat,
                                      existing: Option<Dir.DirectoryEntry>)
    requires SameSlots(d, h, sectors) && Chosen(d, sectors, encoded, j, existing)
    ensures Chosen(h, sectors, encoded, j, existing)
  {
    hide SlotBytesAt, Dir.SlotOf, Dir.EqualIgnoringCase, StoredSlot;
    StoredSlotSame(d, h, sectors, encoded, 0);
    forall i | 0 <= i < SLOTS_PER_SECTOR * |sectors|
      ensures SlotAt(h, sectors, i) == SlotAt(d, sectors, i)
      ensures StoredAs(h, sectors, i, encoded) <==> StoredAs(d, sectors, i, encoded)
      ensures Vacant(h, sectors, i) <==> Vacant(d, sectors, i)
    {
      assert SlotBytesAt(h, sectors, i) == SlotBytesAt(d, sectors, i);
    }
  }

  lemma {:induction false} ShadowedSame(d: Disk, h: Disk, sectors: seq<nat>, name: seq<Byte>)
    requires SameSlots(d, h, sectors) && Dir.FitsEightAndThree(name)
    ensures Shadowed(h, sectors, name) <==> Shadowed(d, sectors, name)
  {
    hide SlotBytesAt, Dir.SlotOf, Dir.Canonical, StoredSlot, VacantSlot, Dir.EncodedName;
    StoredSlotSame(d, h, sectors, Dir.EncodedName(name).value, 0);
    VacantSlotSame(d, h, sectors, 0);
    forall i | 0 <= i < SLOTS_PER_SECTOR * |sectors|
      ensures Named(h, sectors, i, Dir.Canonical(name)) <==> Named(d, sectors, i, Dir.Canonical(name))
    {
      assert SlotBytesAt(h, sectors, i) == SlotBytesAt(d, sectors, i);
    }
  }

  /** The new chain holds the contents once both have been written. */
  lemma {:induction false} ChainHolds(b: BootSector, d: Disk, h: Disk, chain: seq<nat>, contents: seq<Byte>)
    requires Holds(b, d) && AllInRange(b, chain) && |chain| == ClustersFor(b, |contents|)
    requires |chain| <= MAX_FILE_CLUSTERS
    requires HoldsChunks(d, SectorsOf(b, chain), contents, |SectorsOf(b, chain)|)
    requires Only(b, d, h, {}, Members(chain))
    requires chain != [] ==> IsChain(b, h, chain[0], chain)
    ensures Holds(b, h) && FileBytes(b, h, First(chain), |contents|) == Some(contents)
    ensures |contents| <= Times(|chain|, b.sectorsPerCluster) * SECTOR_BYTES && |contents| < 0x1_0000_0000
  {
    hide Walk, Only, Chunk, BytesOf;
    OnlyHolds(b, d, h, {}, Members(chain));
    var sectors := SectorsOf(b, chain);
    SixtyFourClusters(b, |chain|);
    if chain == [] {
      EmptyFile(b, h, 0);
    } else {
      SectorsFrame(b, d, h, {}, Members(chain), chain);
      ChunksAreBytes(h, sectors, contents);
    }
  }

  lemma {:induction false} SixtyFourClusters(b: BootSector, n: nat)
    requires b.Accepted() && n <= MAX_FILE_CLUSTERS
    ensures Times(n, b.sectorsPerCluster) * SECTOR_BYTES < 0x1_0000_0000
  {
    TimesIsProduct(n, b.sectorsPerCluster);
    assert n * b.sectorsPerCluster <= 64 * 128;
  }

  // ---------------------------------------------------------------------
  // The switch, and after it
  // ---------------------------------------------------------------------

  /** Everything is in place: the plan was made on `d`, and `h` is `d` with the new chain written. */
  ghost predicate InPlace(b: BootSector, d: Disk, h: Disk, lay: Layout, name: seq<Byte>, contents: seq<Byte>,
                          plan: Plan) {
    && Sound(b, d, lay) && Dir.FitsEightAndThree(name)
    && AllInRange(b, plan.chain) && Distinct(plan.chain)
    && Members(plan.chain) <= FreeSet(b, d) && Only(b, d, h, Members(plan.chain), Members(plan.chain))
    && Chosen(d, SectorsOf(b, lay.root), Dir.EncodedName(name).value, plan.j, plan.existing)
    && (plan.chain == [] ==> contents == [])
    && (plan.chain != [] ==> IsChain(b, h, plan.chain[0], plan.chain))
    && |contents| <= Times(|plan.chain|, b.sectorsPerCluster) * SECTOR_BYTES && |contents| < 0x1_0000_0000
    && FileBytes(b, h, First(plan.chain), |contents|) == Some(contents)
  }

  lemma {:induction false} InPlaceIsReady(b: BootSector, d: Disk, h: Disk, lay: Layout, name: seq<Byte>,
                                          contents: seq<Byte>, plan: Plan)
    requires InPlace(b, d, h, lay, name, contents, plan)
    ensures Ready(b, h, lay, name, contents, plan.chain, plan.j, plan.existing)
    ensures AsBefore(b, d, h, lay)
    ensures Shadowed(h, SectorsOf(b, lay.root), name) <==> Shadowed(d, SectorsOf(b, lay.root), name)
  {
    hide Sound, Only, FreeSet, ViewOf, Chosen, FileBytes, Shadowed, Dir.EncodedName;
    SoundHolds(b, d, lay);
    var sectors := SectorsOf(b, lay.root);
    NothingShows(b, d, h, lay, plan.chain);
    FreeIsApart(b, d, lay, Members(plan.chain));
    ChosenSame(d, h, sectors, Dir.EncodedName(name).value, plan.j, plan.existing);
    ChosenInside(d, sectors, Dir.EncodedName(name).value, plan.j, plan.existing);
    ShadowedSame(d, h, sectors, name);
  }

  lemma {:induction false} ChosenInside(d: Disk, sectors: seq<nat>, encoded: seq<Byte>, j: nat,
                                        existing: Option<Dir.DirectoryEntry>)
    requires OnDisk(d, sectors) && Chosen(d, sectors, encoded, j, existing)
    ensures j < SLOTS_PER_SECTOR * |sectors|
  {
  }

  /** The write of the directory sector is the switch from the old file to the new one. */
  lemma {:induction false} TheSwitch(b: BootSector, d: Disk, h: Disk, lay: Layout, name: seq<Byte>,
                                     contents: seq<Byte>, plan: Plan)
    requires InPlace(b, d, h, lay, name, contents, plan)
    ensures Ready(b, h, lay, name, contents, plan.chain, plan.j, plan.existing)
    ensures AsAfter(b, d, Switched(b, h, lay, name, contents, plan.chain, plan.j, plan.existing),
                    Renamed(lay, plan.j, plan.chain),
                    name, contents, Shadowed(d, SectorsOf(b, lay.root), name))
  {
    hide InPlace, Ready, Sound, ViewOf, Shadowed, Switched, Dir.EqualIgnoringCase, Dir.Canonical;
    InPlaceIsReady(b, d, h, lay, name, contents, plan);
    InPlaceBasics(b, d, h, lay, name, contents, plan);
    var chain, j, existing := plan.chain, plan.j, plan.existing;
    var h' := Switched(b, h, lay, name, contents, chain, j, existing);
    SwitchSound(b, h, lay, name, contents, chain, j, existing);
    SoundHolds(b, h', Renamed(lay, j, chain));
    forall n: seq<Byte> | !Dir.EqualIgnoringCase(Dir.Canonical(name), n) ensures ViewOf(b, h', n) == ViewOf(b, d, n) {
      SwitchOthers(b, h, lay, name, contents, chain, j, existing, n);
    }
    forall n: seq<Byte> | Dir.EqualIgnoringCase(Dir.Canonical(name), n)
      ensures if Shadowed(d, SectorsOf(b, lay.root), name) then ViewOf(b, h', n) == ViewOf(b, d, n)
              else ViewOf(b, h', n).File? && ViewOf(b, h', n).bytes == contents
    {
      SwitchTarget(b, h, lay, name, contents, chain, j, existing, n);
    }
  }

  lemma {:induction false} InPlaceBasics(b: BootSector, d: Disk, h: Disk, lay: Layout, name: seq<Byte>,
                                         contents: seq<Byte>, plan: Plan)
    requires InPlace(b, d, h, lay, name, contents, plan)
    ensures Sound(b, d, lay) && Holds(b, d) && Holds(b, h) && AllInRange(b, lay.root) && Dir.FitsEightAndThree(name)
    ensures OnDisk(d, SectorsOf(b, lay.root)) && OnDisk(h, SectorsOf(b, lay.root)) && |d| == |h|
    ensures plan.j < SLOTS_PER_SECTOR * |SectorsOf(b, lay.root)|
  {
  }

  /** Giving back what nobody names any more shows no more than writing it did. */
  lemma {:induction false} StillAfter(b: BootSector, d: Disk, h: Disk, h': Disk, lay: Layout, name: seq<Byte>,
                                      contents: seq<Byte>,
                                      shadowed: bool, freed: set<nat>)
    requires Holds(b, d) && Dir.FitsEightAndThree(name) && AsAfter(b, d, h, lay, name, contents, shadowed)
    requires Only(b, h, h', {}, freed) && lay.Apart(freed)
    ensures AsAfter(b, d, h', lay, name, contents, shadowed)
  {
    hide Sound, Only, ViewOf, Dir.EqualIgnoringCase, Dir.Canonical;
    SoundFrame(b, h, h', {}, freed, lay);
    SoundHolds(b, h, lay);
    SoundHolds(b, h', lay);
  }

  /** The replaced chain is nobody's once the switch is made. */
  lemma {:induction false} ReplacedIsApart(b: BootSector, d: Disk, lay: Layout, plan: Plan, freed: set<nat>)
    requires Sound(b, d, lay) && Members(plan.chain) <= FreeSet(b, d) && freed <= Members(lay.ChainAt(plan.j))
    ensures Renamed(lay, plan.j, plan.chain).Apart(freed)
  {
    FreeIsApart(b, d, lay, Members(plan.chain));
  }

  /** What `existing` named is still a whole chain right after the switch. */
  lemma {:induction false} ReplacedChain(b: BootSector, d: Disk, h: Disk, lay: Layout, name: seq<Byte>,
                                         contents: seq<Byte>, plan: Plan)
    requires InPlace(b, d, h, lay, name, contents, plan)
    ensures Ready(b, h, lay, name, contents, plan.chain, plan.j, plan.existing)
    ensures var h' := Switched(b, h, lay, name, contents, plan.chain, plan.j, plan.existing);
            var old' := lay.ChainAt(plan.j);
            && Holds(b, h')
            && (old' != [] ==> plan.existing.Some? && plan.existing.value.firstCluster != 0)
            && (plan.existing.Some? && plan.existing.value.firstCluster != 0 ==>
                  old' != [] && IsChain(b, h', plan.existing.value.firstCluster, old'))
    ensures Members(lay.ChainAt(plan.j)) !! Members(plan.chain)
  {
    hide InPlace, Ready, Sound, Switched, IsChain, SlotAt, Chosen;
    InPlaceIsReady(b, d, h, lay, name, contents, plan);
    InPlaceApart(b, d, h, lay, name, contents, plan);
    ReadyBasics(b, h, lay, name, contents, plan.chain, plan.j, plan.existing);
    ReadyChosen(b, h, lay, name, contents, plan.chain, plan.j, plan.existing);
    ChosenHolds(h, SectorsOf(b, lay.root), Dir.EncodedName(name).value, plan.j, plan.existing);
    SwitchedChains(b, h, lay, name, contents, plan.chain, plan.j, plan.existing);
    assert SlotSound(b, Switched(b, h, lay, name, contents, plan.chain, plan.j, plan.existing),
                     SlotAt(h, SectorsOf(b, lay.root), plan.j), lay.ChainAt(plan.j));
  }

  lemma {:induction false} InPlaceApart(b: BootSector, d: Disk, h: Disk, lay: Layout, name: seq<Byte>,
                                        contents: seq<Byte>, plan: Plan)
    requires InPlace(b, d, h, lay, name, contents, plan)
    ensures lay.Apart(Members(plan.chain))
  {
    hide Sound, Only, FreeSet, FileBytes, Chosen, IsChain;
    FreeIsApart(b, d, lay, Members(plan.chain));
  }

  lemma {:induction false} FreedWithin(b: BootSector, d: Disk, first: nat, chain: seq<nat>, freed: seq<nat>)
    requires Holds(b, d) && IsChain(b, d, first, chain) && Walk(b, d, first, |freed|) == Some(freed)
    ensures Members(freed) <= Members(chain)
  {
    hide EntryOf;
    if |freed| <= |chain| {
      WalkPrefix(b, d, first, |freed|, |chain|);
      forall c | c in Members(freed) ensures c in Members(chain) {
        var i: nat :| i < |freed| && freed[i] == c;
        assert chain[i] == c;
      }
    } else {
      WalkEndsHere(b, d, first, chain);
      WalkStops(b, d, first, |chain| + 1, |freed|);
    }
  }

  // ---------------------------------------------------------------------
  // Accounting
  // ---------------------------------------------------------------------

  /** The states a replacement goes through: the contents and the chain are in (`d1`), the entry
      is in (`d2`), the replaced chain is out (`d3`), FSInfo is rewritten (`d4`). */
  ghost predicate Stages(b: BootSector, d: Disk, d1: Disk, d2: Disk, d3: Disk, d4: Disk, taken: set<nat>,
                         root: set<nat>, freed: set<nat>) {
    && Only(b, d, d1, taken, taken) && Only(b, d1, d2, root, {}) && Only(b, d2, d3, {}, freed)
    && Only(b, d3, d4, {}, {})
    && taken !! freed
  }

  lemma {:induction false} StagesEntry(b: BootSector, d: Disk, d1: Disk, d2: Disk, d3: Disk, d4: Disk,
                                       taken: set<nat>, root: set<nat>, freed: set<nat>, c: nat)
    requires Stages(b, d, d1, d2, d3, d4, taken, root, freed) && b.InRange(c)
    ensures Holds(b, d) && Holds(b, d1) && Holds(b, d3) && Holds(b, d4)
    ensures c in taken ==> RawSame(b, d1, d4, c)
    ensures c in freed ==> RawSame(b, d3, d4, c)
    ensures c !in taken && c !in freed ==> RawSame(b, d, d4, c)
  {
    hide RawEntry;
    assert RawSame(b, d1, d2, c) && RawSame(b, d3, d4, c);
    assert c !in freed ==> RawSame(b, d2, d3, c);
    assert c !in taken ==> RawSame(b, d, d1, c);
  }

  /** Clusters are conserved: what was taken is used, what was replaced is free, and nothing
      else changed hands. All copies of the table still agree. */
  lemma {:induction false} Conserved(b: BootSector, d: Disk, d1: Disk, d2: Disk, d3: Disk, d4: Disk,
                                     taken: seq<nat>, root: set<nat>, freed: seq<nat>)
    requires Stages(b, d, d1, d2, d3, d4, Members(taken), root, Members(freed))
    requires Holds(b, d) && Holds(b, d1) && Holds(b, d3) && Holds(b, d4)
    requires Members(taken) <= FreeSet(b, d) && AllInRange(b, freed) && Members(freed) !! FreeSet(b, d)
    requires taken != [] ==> IsChain(b, d1, taken[0], taken)
    requires forall i | 0 <= i < |freed| :: LinkedAs(b, d3, freed[i], 0)
    ensures FreeSet(b, d4) == FreeSet(b, d) - Members(taken) + Members(freed)
  {
    hide RawEntry, Only, Walk;
    forall c: nat | b.InRange(c)
      ensures EntryOf(b, d4, c) == Free <==> c in FreeSet(b, d) - Members(taken) + Members(freed)
    {
      hide DecodeEntry;
      StagesEntry(b, d, d1, d2, d3, d4, Members(taken), root, Members(freed), c);
      if c in Members(taken) {
        ChainNotFree(b, d1, taken[0], taken);
        assert c in Interval(FIRST_DATA_CLUSTER, FIRST_DATA_CLUSTER + b.clusters);
      } else if c in Members(freed) {
        var i: nat :| i < |freed| && freed[i] == c;
        LinkedEntry(b, d3, freed[i], 0);
      }
    }
    forall c | c in Members(freed) ensures b.InRange(c) {
    }
  }

  lemma {:induction false} CountConserved(free: set<nat>, free': set<nat>, taken: seq<nat>, freed: seq<nat>)
    requires free' == free - Members(taken) + Members(freed)
    requires Members(taken) <= free && Members(freed) !! free && Distinct(taken) && Distinct(freed)
    ensures |free'| == |free| - |taken| + |freed|
  {
    MembersSize(taken);
    MembersSize(freed);
    assert |free| == |free - Members(taken)| + |Members(taken)| by {
      assert free == (free - Members(taken)) + Members(taken);
    }
  }

  lemma {:induction false} MirrorsKept(b: BootSector, d: Disk, d1: Disk, d2: Disk, d3: Disk, d4: Disk,
                                       taken: seq<nat>, root: set<nat>, freed: seq<nat>)
    requires Stages(b, d, d1, d2, d3, d4, Members(taken), root, Members(freed))
    requires Holds(b, d) && Holds(b, d1) && Holds(b, d3) && Holds(b, d4) && MirrorsAgree(b, d)
    requires AllInRange(b, taken) && AllInRange(b, freed)
    requires forall c, t: nat | c in Members(taken) && t < b.fatCount ::
               RawEntry(b, d1, t, c) % ENTRY_MODULUS == RawEntry(b, d1, 0, c) % ENTRY_MODULUS
    requires forall i | 0 <= i < |freed| :: LinkedAs(b, d3, freed[i], 0)
    ensures MirrorsAgree(b, d4)
  {
    hide RawEntry, Only;
    forall c: nat, t: nat | b.InRange(c) && t < b.fatCount
      ensures RawEntry(b, d4, t, c) % ENTRY_MODULUS == RawEntry(b, d4, 0, c) % ENTRY_MODULUS
    {
      StagesEntry(b, d, d1, d2, d3, d4, Members(taken), root, Members(freed), c);
      if c in Members(freed) {
        var i: nat :| i < |freed| && freed[i] == c;
        assert LinkedAs(b, d3, freed[i], 0);
      }
    }
  }

  // ---------------------------------------------------------------------
  // The whole of it
  // ---------------------------------------------------------------------

  ghost predicate PlanFits(b: BootSector, d: Disk, lay: Layout, name: seq<Byte>, plan: Plan)
    requires Sound(b, d, lay)
  {
    && Dir.FitsEightAndThree(name)
    && Chosen(d, SectorsOf(b, lay.root), Dir.EncodedName(name).value, plan.j, plan.existing)
  }

  /** Every state before write `switch` reads as the old volume, every one from it on as the new. */
  ghost predicate Switches(b: BootSector, d: Disk, before: seq<Disk>, after: seq<Disk>, lay: Layout,
                           name: seq<Byte>, contents: seq<Byte>, plan: Plan, switch: nat)
    requires Sound(b, d, lay)
  {
    && |before| <= switch
    && (forall i | |before| <= i < |after| && i < switch :: AsBefore(b, d, after[i], lay))
    && (switch < |after| ==> PlanFits(b, d, lay, name, plan))
    && (forall i | switch <= i < |after| ::
          AsAfter(b, d, after[i], Renamed(lay, plan.j, plan.chain), name, contents,
                  Shadowed(d, SectorsOf(b, lay.root), name)))
  }

  /** One slot of the root goes by the new name; every other holds the bytes it held. */
  ghost predicate RootAfter(b: BootSector, d: Disk, d': Disk, lay: Layout, name: seq<Byte>, j: nat)
    requires Dir.FitsEightAndThree(name)
  {
    && b.Accepted() && AllInRange(b, lay.root)
    && var sectors := SectorsOf(b, lay.root);
       && OnDisk(d, sectors) && OnDisk(d', sectors) && j < SLOTS_PER_SECTOR * |sectors|
       && SlotAt(d', sectors, j).Entry? && SlotAt(d', sectors, j).entry.name == Dir.Canonical(name)
       && forall i | 0 <= i < SLOTS_PER_SECTOR * |sectors| && i != j ::
            SlotBytesAt(d', sectors, i) == SlotBytesAt(d, sectors, i)
  }

  lemma {:induction false} OnlySizes(b: BootSector, d: Disk, d': Disk, data: set<nat>, table: set<nat>)
    requires Only(b, d, d', data, table)
    ensures |d'| == |d|
  {
  }

  lemma {:induction false} InPlaceSlots(b: BootSector, d: Disk, d1: Disk, lay: Layout, name: seq<Byte>,
                                        contents: seq<Byte>, plan: Plan)
    requires InPlace(b, d, d1, lay, name, contents, plan)
    ensures AllInRange(b, lay.root) && OnDisk(d, SectorsOf(b, lay.root)) && OnDisk(d1, SectorsOf(b, lay.root))
    ensures forall i | 0 <= i < SLOTS_PER_SECTOR * |SectorsOf(b, lay.root)| ::
              SlotBytesAt(d1, SectorsOf(b, lay.root), i) == SlotBytesAt(d, SectorsOf(b, lay.root), i)
  {
    hide Sound, Only, FreeSet, FileBytes, Chosen, Dir.EncodedName;
    NothingShows(b, d, d1, lay, plan.chain);
  }

  lemma {:induction false} RootReplaced(b: BootSector, d: Disk, d1: Disk, d2: Disk, d3: Disk, d4: Disk, lay: Layout,
                                        name: seq<Byte>, contents: seq<Byte>, plan: Plan, freed: set<nat>)
    requires InPlace(b, d, d1, lay, name, contents, plan)
    requires Ready(b, d1, lay, name, contents, plan.chain, plan.j, plan.existing)
    requires d2 == Switched(b, d1, lay, name, contents, plan.chain, plan.j, plan.existing)
    requires Only(b, d2, d3, {}, freed) && Only(b, d3, d4, {}, {})
    ensures RootAfter(b, d, d4, lay, name, plan.j)
  {
    hide InPlace, Ready, Switched, Only, Dir.SlotOf, Dir.Canonical, NewSlot, Dir.FitsEightAndThree, Sound;
    InPlaceBasics(b, d, d1, lay, name, contents, plan);
    InPlaceSlots(b, d, d1, lay, name, contents, plan);
    SwitchedSlots(b, d1, lay, name, contents, plan.chain, plan.j, plan.existing);
    OnlySizes(b, d2, d3, {}, freed);
    OnlySizes(b, d3, d4, {}, {});
    SectorsFrame(b, d2, d3, {}, freed, lay.root);
    SectorsFrame(b, d3, d4, {}, {}, lay.root);
    var sectors := SectorsOf(b, lay.root);
    forall i | 0 <= i < SLOTS_PER_SECTOR * |sectors|
      ensures SlotBytesAt(d4, sectors, i) == SlotBytesAt(d2, sectors, i)
    {
    }
  }

  /** No two entries of the directory go by the same name, ignoring case. */
  ghost predicate UniqueNames(d: Disk, sectors: seq<nat>)
    requires OnDisk(d, sectors)
  {
    forall i, k | 0 <= i < SLOTS_PER_SECTOR * |sectors| && 0 <= k < SLOTS_PER_SECTOR * |sectors| && i != k
                  && SlotAt(d, sectors, i).Entry? ::
      !Named(d, sectors, k, SlotAt(d, sectors, i).entry.Name())
  }

  /** Some other slot than `j` already reads as the name the file goes by. */
  ghost predicate Elsewhere(d: Disk, sectors: seq<nat>, name: seq<Byte>, j: nat)
    requires OnDisk(d, sectors) && Dir.FitsEightAndThree(name)
  {
    exists i | 0 <= i < SLOTS_PER_SECTOR * |sectors| && i != j :: Named(d, sectors, i, Dir.Canonical(name))
  }

  /** As the directory stands, a slot other than the one an entry for `name` would go into already
      reads as that name. */
  ghost predicate Aliased(d: Disk, sectors: seq<nat>, name: seq<Byte>)
    requires OnDisk(d, sectors) && Dir.FitsEightAndThree(name)
  {
    var j := TheSlot(d, sectors, Dir.EncodedName(name).value);
    j.Some? && Elsewhere(d, sectors, name, j.value)
  }

  /** Names stay unique exactly when no other slot already read as the name written. */
  lemma {:induction false} NamesStayUnique(b: BootSector, d: Disk, d': Disk, lay: Layout, name: seq<Byte>, plan: Plan)
    requires Sound(b, d, lay) && PlanFits(b, d, lay, name, plan) && RootAfter(b, d, d', lay, name, plan.j)
    requires UniqueNames(d, SectorsOf(b, lay.root))
    ensures UniqueNames(d', SectorsOf(b, lay.root)) <==> !Aliased(d, SectorsOf(b, lay.root), name)
  {
    var sectors := SectorsOf(b, lay.root);
    ChosenIsTheSlot(d, sectors, Dir.EncodedName(name).value, plan.j, plan.existing);
    OtherSlotsSame(b, d, d', lay, name, plan.j);
    hide Dir.Canonical, Dir.FitsEightAndThree, SlotAt, UniqueNames, Elsewhere, RootAfter, TheSlot, Sound, Chosen;
    if Elsewhere(d, sectors, name, plan.j) {
      NotUniqueAfter(d, d', sectors, name, plan.j);
    } else {
      UniqueAfter(d, d', sectors, name, plan.j);
    }
  }

  /** The same slots as before but for the one that goes by the new name. */
  ghost predicate OtherSlots(d: Disk, d': Disk, sectors: seq<nat>, name: seq<Byte>, j: nat)
    requires Dir.FitsEightAndThree(name)
  {
    && OnDisk(d, sectors) && OnDisk(d', sectors) && j < SLOTS_PER_SECTOR * |sectors|
    && SlotAt(d', sectors, j).Entry? && SlotAt(d', sectors, j).entry.Name() == Dir.Canonical(name)
    && forall i | 0 <= i < SLOTS_PER_SECTOR * |sectors| && i != j :: SlotAt(d', sectors, i) == SlotAt(d, sectors, i)
  }

  lemma {:induction false} OtherSlotsSame(b: BootSector, d: Disk, d': Disk, lay: Layout, name: seq<Byte>, j: nat)
    requires Dir.FitsEightAndThree(name) && RootAfter(b, d, d', lay, name, j)
    ensures AllInRange(b, lay.root) && OtherSlots(d, d', SectorsOf(b, lay.root), name, j)
  {
    Dir.NameRoundTrip(name);
    hide Dir.Canonical, Dir.ValidUtf8, Dir.SlotOf, Dir.FitsEightAndThree, SlotBytesAt;
    var sectors := SectorsOf(b, lay.root);
    forall i | 0 <= i < SLOTS_PER_SECTOR * |sectors| && i != j ensures SlotAt(d', sectors, i) == SlotAt(d, sectors, i) {
      assert SlotBytesAt(d', sectors, i) == SlotBytesAt(d, sectors, i);
    }
  }

  lemma {:induction false} NotUniqueAfter(d: Disk, d': Disk, sectors: seq<nat>, name: seq<Byte>, j: nat)
    requires Dir.FitsEightAndThree(name) && OtherSlots(d, d', sectors, name, j) && Elsewhere(d, sectors, name, j)
    ensures !UniqueNames(d', sectors)
  {
    hide Dir.Canonical, Dir.FitsEightAndThree, SlotAt, Dir.EqualIgnoringCase;
    var i :| 0 <= i < SLOTS_PER_SECTOR * |sectors| && i != j && Named(d, sectors, i, Dir.Canonical(name));
    assert Named(d', sectors, i, SlotAt(d', sectors, j).entry.Name());
  }

  lemma {:induction false} UniqueAfter(d: Disk, d': Disk, sectors: seq<nat>, name: seq<Byte>, j: nat)
    requires Dir.FitsEightAndThree(name) && OtherSlots(d, d', sectors, name, j) && UniqueNames(d, sectors)
    requires !Elsewhere(d, sectors, name, j)
    ensures UniqueNames(d', sectors)
  {
    forall i, k | 0 <= i < SLOTS_PER_SECTOR * |sectors| && 0 <= k < SLOTS_PER_SECTOR * |sectors| && i != k
                  && SlotAt(d', sectors, i).Entry?
      ensures !Named(d', sectors, k, SlotAt(d', sectors, i).entry.Name())
    {
      hide Dir.Canonical, Dir.FitsEightAndThree, SlotAt, UniqueNames, Elsewhere;
      UniquePair(d, d', sectors, name, j, i, k);
    }
    hide SlotAt;
  }

  lemma {:induction false} UniquePair(d: Disk, d': Disk, sectors: seq<nat>, name: seq<Byte>, j: nat, i: nat, k: nat)
    requires Dir.FitsEightAndThree(name) && OtherSlots(d, d', sectors, name, j) && UniqueNames(d, sectors)
    requires !Elsewhere(d, sectors, name, j)
    requires i < SLOTS_PER_SECTOR * |sectors| && k < SLOTS_PER_SECTOR * |sectors| && i != k
    requires SlotAt(d', sectors, i).Entry?
    ensures !Named(d', sectors, k, SlotAt(d', sectors, i).entry.Name())
  {
    hide Dir.Canonical, Dir.ValidUtf8, Dir.SlotOf, Dir.FitsEightAndThree, SlotAt;
    if k != j && i != j {
      assert !Named(d, sectors, k, SlotAt(d, sectors, i).entry.Name());
    } else if i == j {
      assert !Named(d, sectors, k, Dir.Canonical(name));
    } else {
      assert !Named(d, sectors, i, Dir.Canonical(name));
    }
  }

  /** Replacing the file stored under the name's own bytes never makes two of a name; creating one
      does exactly when the name, as the file will go by it, is found already. */
  lemma {:induction false} AliasedExactly(d: Disk, sectors: seq<nat>, name: seq<Byte>)
    requires OnDisk(d, sectors) && EndsOnce(d, sectors) && Dir.FitsEightAndThree(name) && UniqueNames(d, sectors)
    ensures Aliased(d, sectors, name) <==>
              && TheSlot(d, sectors, Dir.EncodedName(name).value).Some?
              && StoredSlot(d, sectors, Dir.EncodedName(name).value, 0).None?
              && FindSlot(d, sectors, Dir.Canonical(name), 0).Some?
  {
    var encoded := Dir.EncodedName(name).value;
    var j := TheSlot(d, sectors, encoded);
    FindSlotLowest(d, sectors, Dir.Canonical(name), 0);
    hide Dir.EncodedName, Dir.FitsEightAndThree, SlotAt, FindSlot, Vacant;
    if j.Some? && StoredSlot(d, sectors, encoded, 0).None? {
      VacantOrNot(d, sectors, j.value);
    } else if j.Some? {
      StoredAsNamed(d, sectors, j.value, name, Dir.Canonical(name));
      forall i | 0 <= i < SLOTS_PER_SECTOR * |sectors| && i != j.value
        ensures !Named(d, sectors, i, Dir.Canonical(name))
      {
        NotTwice(d, sectors, name, j.value, i);
      }
    }
    hide Dir.Canonical, StoredSlot;
  }

  lemma {:induction false} NotTwice(d: Disk, sectors: seq<nat>, name: seq<Byte>, j: nat, i: nat)
    requires OnDisk(d, sectors) && Dir.FitsEightAndThree(name) && UniqueNames(d, sectors)
    requires i < SLOTS_PER_SECTOR * |sectors| && j < SLOTS_PER_SECTOR * |sectors| && i != j
    requires Named(d, sectors, j, Dir.Canonical(name))
    ensures !Named(d, sectors, i, Dir.Canonical(name))
  {
    hide Dir.Canonical, Dir.ValidUtf8, Dir.SlotOf, SlotAt, Dir.FitsEightAndThree;
    assert !Named(d, sectors, i, SlotAt(d, sectors, j).entry.Name());
  }

  /** What a finished replacement leaves. */
  ghost predicate Replaced(b: BootSector, d: Disk, d': Disk, lay: Layout, name: seq<Byte>, contents: seq<Byte>,
                           plan: Plan,
                           entry: Dir.DirectoryEntry)
    requires Sound(b, d, lay)
  {
    && PlanFits(b, d, lay, name, plan)
    && AsAfter(b, d, d', Renamed(lay, plan.j, plan.chain), name, contents, Shadowed(d, SectorsOf(b, lay.root), name))
    && entry.name == Dir.Canonical(name) && entry.attributes == 0x20
    && entry.firstCluster == First(plan.chain) && entry.size == |contents|
    && |plan.chain| == ClustersFor(b, |contents|)
    && FreeSet(b, d') == FreeSet(b, d) - Members(plan.chain) + Members(lay.ChainAt(plan.j))
    && |FreeSet(b, d')| == |FreeSet(b, d)| - |plan.chain| + |lay.ChainAt(plan.j)|
    && (MirrorsAgree(b, d) ==> MirrorsAgree(b, d'))
    && (HasFsInfo(b, d) ==> HasFsInfo(b, d') && FsInfoTrue(b, d'))
    && RootAfter(b, d, d', lay, name, plan.j)
  }

  lemma {:induction false} SwitchesNothing(b: BootSector, d: Disk, h: seq<Disk>, lay: Layout, name: seq<Byte>,
                                           contents: seq<Byte>, plan: Plan)
    requires Sound(b, d, lay)
    ensures Switches(b, d, h, h, lay, name, contents, plan, |h|)
  {
  }

  lemma {:induction false} SwitchesIsSafe(b: BootSector, d: Disk, h: seq<Disk>, h': seq<Disk>, lay: Layout,
                                          name: seq<Byte>, contents: seq<Byte>, plan: Plan, switch: nat)
    requires Sound(b, d, lay) && Dir.FitsEightAndThree(name) && Switches(b, d, h, h', lay, name, contents, plan, switch)
    ensures forall i | |h| <= i < |h'| :: CrashSafe(b, d, h'[i], name, contents)
  {
    hide Sound, AsBefore, AsAfter, CrashSafe, Shadowed, Chosen;
    SoundHolds(b, d, lay);
    forall i | |h| <= i < |h'| ensures CrashSafe(b, d, h'[i], name, contents) {
      if i < switch {
        BeforeIsSafe(b, d, h'[i], lay, name, contents);
      } else {
        ChosenInside(d, SectorsOf(b, lay.root), Dir.EncodedName(name).value, plan.j, plan.existing);
        AfterIsSafe(b, d, h'[i], Renamed(lay, plan.j, plan.chain), name, contents,
                    Shadowed(d, SectorsOf(b, lay.root), name));
      }
    }
  }

  lemma {:induction false} SwitchesBefore(b: BootSector, h: seq<Disk>, d: Disk, h': seq<Disk>, d': Disk, lay: Layout,
                                          name: seq<Byte>, contents: seq<Byte>, plan: Plan)
    requires Sound(b, d, lay) && Members(plan.chain) <= FreeSet(b, d)
    requires Kept(b, h, d, h', d', Members(plan.chain), Members(plan.chain))
    ensures Switches(b, d, h, h', lay, name, contents, plan, |h'|)
  {
    hide Sound, AsBefore, Only, FreeSet;
    SoundHolds(b, d, lay);
    forall i | |h| <= i < |h'| ensures AsBefore(b, d, h'[i], lay) {
      NothingShows(b, d, h'[i], lay, plan.chain);
    }
  }

  lemma {:induction false} SmallEnough(b: BootSector, size: nat, n: nat)
    requires b.Accepted() && n == ClustersFor(b, size) && n <= MAX_FILE_CLUSTERS
    ensures size <= Times(n, b.sectorsPerCluster) * SECTOR_BYTES && size < 0x1_0000_0000
  {
    hide ClustersFor;
    SixtyFourClusters(b, n);
  }

  lemma {:induction false} FirstInRange(b: BootSector, chain: seq<nat>)
    requires b.Accepted() && AllInRange(b, chain)
    ensures chain != [] ==> b.InRange(chain[0])
  {
  }

  lemma {:induction false} PlanInPlace(b: BootSector, d: Disk, h: Disk, lay: Layout, name: seq<Byte>,
                                       contents: seq<Byte>, plan: Plan)
    requires Sound(b, d, lay) && Dir.FitsEightAndThree(name)
    requires AllInRange(b, plan.chain) && Distinct(plan.chain) && Members(plan.chain) <= FreeSet(b, d)
    requires Only(b, d, h, Members(plan.chain), Members(plan.chain))
    requires AllInRange(b, lay.root) && OnDisk(d, SectorsOf(b, lay.root))
    requires Chosen(d, SectorsOf(b, lay.root), Dir.EncodedName(name).value, plan.j, plan.existing)
    requires |plan.chain| == ClustersFor(b, |contents|) && |plan.chain| <= MAX_FILE_CLUSTERS
    requires Holds(b, h) && (b.clusters + FIRST_DATA_CLUSTER <= 0x0FFF_FFF7 ==>
               && (plan.chain != [] ==> IsChain(b, h, plan.chain[0], plan.chain))
               && FileBytes(b, h, First(plan.chain), |contents|) == Some(contents))
    ensures InPlace(b, d, h, lay, name, contents, plan)
  {
    hide Sound, Only, FreeSet, Chosen, FileBytes, IsChain, ClustersFor;
    SoundHolds(b, d, lay);
    SmallEnough(b, |contents|, |plan.chain|);
  }

  lemma {:induction false} PutIsSwitch(b: BootSector, d: Disk, d1: Disk, d2: Disk, lay: Layout, name: seq<Byte>,
                                       contents: seq<Byte>,
                                       plan: Plan, place: Place)
    requires InPlace(b, d, d1, lay, name, contents, plan)
    requires Ready(b, d1, lay, name, contents, plan.chain, plan.j, plan.existing)
    requires AllInRange(b, lay.root) && plan.j < SLOTS_PER_SECTOR * |SectorsOf(b, lay.root)|
    requires place == PlaceOf(SectorsOf(b, lay.root), plan.j) && place.0 < |d1| && place.1 + 32 <= SECTOR_BYTES
    requires plan.chain != [] ==> plan.chain[0] < 0x1_0000_0000
    requires |contents| < 0x1_0000_0000
    requires d2 == d1[place.0 := Splice(d1[place.0], place.1,
                                        Dir.NewEntry(Dir.EncodedName(name).value, First(plan.chain), |contents|))]
    ensures d2 == Switched(b, d1, lay, name, contents, plan.chain, plan.j, plan.existing)
  {
    hide InPlace, Sound, Dir.NewEntry, Dir.EncodedName, Splice;
    ReadyBasics(b, d1, lay, name, contents, plan.chain, plan.j, plan.existing);
  }

  /** Only the replaced chain is given back, or the part of it that was got to. */
  lemma {:induction false} FreedIsApart(b: BootSector, d: Disk, d1: Disk, d2: Disk, lay: Layout, name: seq<Byte>,
                                        contents: seq<Byte>,
                                        plan: Plan, freed: seq<nat>)
    requires InPlace(b, d, d1, lay, name, contents, plan)
    requires Ready(b, d1, lay, name, contents, plan.chain, plan.j, plan.existing)
    requires d2 == Switched(b, d1, lay, name, contents, plan.chain, plan.j, plan.existing) && Holds(b, d2)
    requires plan.existing.None? || plan.existing.value.firstCluster == 0 ==> freed == []
    requires plan.existing.Some? && plan.existing.value.firstCluster != 0 ==>
               Walk(b, d2, plan.existing.value.firstCluster, |freed|) == Some(freed)
    ensures Members(freed) <= Members(lay.ChainAt(plan.j))
    ensures Renamed(lay, plan.j, plan.chain).Apart(Members(freed))
  {
    hide Sound, Ready, Switched, Walk, FreeSet, FileBytes, Chosen;
    ReplacedChain(b, d, d1, lay, name, contents, plan);
    if plan.existing.Some? && plan.existing.value.firstCluster != 0 {
      FreedWithin(b, d2, plan.existing.value.firstCluster, lay.ChainAt(plan.j), freed);
    }
    ReplacedIsApart(b, d, lay, plan, Members(freed));
  }

  /** On a sound volume the replaced chain never leads out of it. */
  lemma {:induction false} FreedStaysInside(b: BootSector, d: Disk, d1: Disk, d2: Disk, lay: Layout, name: seq<Byte>,
                                            contents: seq<Byte>, plan: Plan, freed: seq<nat>)
    requires InPlace(b, d, d1, lay, name, contents, plan)
    requires Ready(b, d1, lay, name, contents, plan.chain, plan.j, plan.existing)
    requires d2 == Switched(b, d1, lay, name, contents, plan.chain, plan.j, plan.existing) && Holds(b, d2)
    requires plan.existing.Some? && plan.existing.value.firstCluster != 0
    requires Walk(b, d2, plan.existing.value.firstCluster, |freed|) == Some(freed)
    ensures !LeadsOut(b, d2, plan.existing.value.firstCluster, freed)
  {
    hide InPlace, Ready, Switched, Walk, IsChain, LeadsOut;
    ReplacedChain(b, d, d1, lay, name, contents, plan);
    ChainNeverLeadsOut(b, d2, plan.existing.value.firstCluster, lay.ChainAt(plan.j), freed);
  }

  lemma {:induction false} SwitchesAfter(b: BootSector, d: Disk, h: seq<Disk>, h1: seq<Disk>, d2: Disk, h3: seq<Disk>,
                                         d3: Disk, lay: Layout,
                                         name: seq<Byte>, contents: seq<Byte>, plan: Plan, freed: seq<nat>)
    requires Sound(b, d, lay) && Switches(b, d, h, h1, lay, name, contents, plan, |h1|) && h <= h1
    requires PlanFits(b, d, lay, name, plan)
    requires AsAfter(b, d, d2, Renamed(lay, plan.j, plan.chain), name, contents,
                     Shadowed(d, SectorsOf(b, lay.root), name))
    requires Kept(b, h1 + [d2], d2, h3, d3, {}, Members(freed))
    requires Renamed(lay, plan.j, plan.chain).Apart(Members(freed))
    ensures Switches(b, d, h, h3, lay, name, contents, plan, |h1|)
    ensures AsAfter(b, d, d3, Renamed(lay, plan.j, plan.chain), name, contents,
                    Shadowed(d, SectorsOf(b, lay.root), name))
  {
    hide Sound, AsBefore, AsAfter, Only, Shadowed, Chosen;
    SoundHolds(b, d, lay);
    ChosenInside(d, SectorsOf(b, lay.root), Dir.EncodedName(name).value, plan.j, plan.existing);
    var shadowed := Shadowed(d, SectorsOf(b, lay.root), name);
    var lay' := Renamed(lay, plan.j, plan.chain);
    StillAfter(b, d, d2, d3, lay', name, contents, shadowed, Members(freed));
    forall i | |h1| <= i < |h3| ensures AsAfter(b, d, h3[i], lay', name, contents, shadowed) {
      if i == |h1| {
        assert h3[i] == (h1 + [d2])[i];
      } else {
        StillAfter(b, d, d2, h3[i], lay', name, contents, shadowed, Members(freed));
      }
    }
    forall i | |h| <= i < |h1| ensures AsBefore(b, d, h3[i], lay) {
      assert h3[i] == (h1 + [d2])[i] == h1[i];
    }
  }

  lemma {:induction false} EntryOutsideReserved(b: BootSector, d: Disk, d1: Disk, d2: Disk, lay: Layout,
                                                name: seq<Byte>, contents: seq<Byte>,
                                                plan: Plan)
    requires InPlace(b, d, d1, lay, name, contents, plan)
    requires Ready(b, d1, lay, name, contents, plan.chain, plan.j, plan.existing)
    requires d2 == Switched(b, d1, lay, name, contents, plan.chain, plan.j, plan.existing)
    ensures ReservedSame(b, d1, d2)
  {
    hide InPlace, Sound, Splice, NewSlot;
    ReadyBasics(b, d1, lay, name, contents, plan.chain, plan.j, plan.existing);
    var i, k := SectorsOfOwner(b, lay.root, plan.j / SLOTS_PER_SECTOR);
  }

  /** The replaced chain is given back whole, and the books balance. */
  lemma {:induction false} ReplacedHolds(b: BootSector, d: Disk, d1: Disk, d2: Disk, d3: Disk, d4: Disk, lay: Layout,
                                         name: seq<Byte>, contents: seq<Byte>, plan: Plan, freed: seq<nat>,
                                         entry: Dir.DirectoryEntry)
    requires InPlace(b, d, d1, lay, name, contents, plan) && PlanFits(b, d, lay, name, plan)
    requires Ready(b, d1, lay, name, contents, plan.chain, plan.j, plan.existing)
    requires d2 == Switched(b, d1, lay, name, contents, plan.chain, plan.j, plan.existing) && Holds(b, d2)
    requires AsAfter(b, d, d4, Renamed(lay, plan.j, plan.chain), name, contents,
                     Shadowed(d, SectorsOf(b, lay.root), name))
    requires Only(b, d2, d3, {}, Members(freed)) && Only(b, d3, d4, {}, {})
    requires ReservedSame(b, d, d1) && ReservedSame(b, d1, d2) && ReservedSame(b, d2, d3)
    requires |plan.chain| == ClustersFor(b, |contents|)
    requires Distinct(freed) && AllInRange(b, freed) && Holds(b, d3)
    requires forall i | 0 <= i < |freed| :: LinkedAs(b, d3, freed[i], 0)
    requires Holds(b, d1) && forall c, t: nat | c in Members(plan.chain) && t < b.fatCount ::
               RawEntry(b, d1, t, c) % ENTRY_MODULUS == RawEntry(b, d1, 0, c) % ENTRY_MODULUS
    requires plan.existing.None? || plan.existing.value.firstCluster == 0 ==> freed == []
    requires plan.existing.Some? && plan.existing.value.firstCluster != 0 ==>
               && Walk(b, d2, plan.existing.value.firstCluster, |freed|) == Some(freed)
               && StopsAfter(b, d2, plan.existing.value.firstCluster, freed, plan.chain)
    requires HasFsInfo(b, d3) ==> Holds(b, d4) && HasFsInfo(b, d4) && FsInfoTrue(b, d4)
    requires entry == Dir.DirectoryEntry(Dir.Canonical(name), Dir.ATTR_ARCHIVE, First(plan.chain), |contents|)
    ensures Replaced(b, d, d4, lay, name, contents, plan, entry)
  {
    hide Sound, AsAfter, Only, FreeSet, Switched, Ready, Walk, IsChain, StopsAfter, FileBytes, Chosen, RawEntry,
         LinkedAs, FsInfoTrue, Shadowed,
         ClustersFor, MirrorsAgree, ReservedSame, RootAfter;
    var old' := lay.ChainAt(plan.j);
    FreedIsReplaced(b, d, d1, d2, lay, name, contents, plan, freed);
    Balanced(b, d, d1, d2, d3, d4, lay, name, contents, plan, freed);
    FsInfoSame(b, d, d1, d2, d3);
    RootReplaced(b, d, d1, d2, d3, d4, lay, name, contents, plan, Members(freed));
  }

  lemma {:induction false} FsInfoSame(b: BootSector, d: Disk, d1: Disk, d2: Disk, d3: Disk)
    requires Holds(b, d) && Holds(b, d3) && ReservedSame(b, d, d1) && ReservedSame(b, d1, d2) && ReservedSame(b, d2, d3)
    ensures HasFsInfo(b, d) <==> HasFsInfo(b, d3)
  {
  }

  lemma {:induction false} FreedIsReplaced(b: BootSector, d: Disk, d1: Disk, d2: Disk, lay: Layout, name: seq<Byte>,
                                           contents: seq<Byte>,
                                           plan: Plan, freed: seq<nat>)
    requires InPlace(b, d, d1, lay, name, contents, plan)
    requires Ready(b, d1, lay, name, contents, plan.chain, plan.j, plan.existing)
    requires d2 == Switched(b, d1, lay, name, contents, plan.chain, plan.j, plan.existing) && Holds(b, d2)
    requires Distinct(freed)
    requires plan.existing.None? || plan.existing.value.firstCluster == 0 ==> freed == []
    requires plan.existing.Some? && plan.existing.value.firstCluster != 0 ==>
               && Walk(b, d2, plan.existing.value.firstCluster, |freed|) == Some(freed)
               && AllInRange(b, freed) && StopsAfter(b, d2, plan.existing.value.firstCluster, freed, plan.chain)
    ensures freed == lay.ChainAt(plan.j)
    ensures Members(freed) !! Members(plan.chain) && Members(freed) !! FreeSet(b, d)
  {
    hide Sound, Only, Switched, Ready, Walk, StopsAfter, FileBytes, Chosen, SlotAt;
    ReplacedChain(b, d, d1, lay, name, contents, plan);
    var old' := lay.ChainAt(plan.j);
    if plan.existing.Some? && plan.existing.value.firstCluster != 0 {
      NoneKept(old', plan.chain);
      FreedIsChain(b, d2, plan.existing.value.firstCluster, old', freed, plan.chain);
    }
    LayNotFree(b, d, lay, plan.j);
  }

  lemma {:induction false} NoneKept(cs: seq<nat>, keep: seq<nat>)
    requires Members(cs) !! Members(keep)
    ensures forall i | 0 <= i < |cs| :: cs[i] !in keep
  {
    forall c | c in keep ensures c in Members(keep) {
    }
    forall i | 0 <= i < |cs| ensures cs[i] !in keep {
      InMembers(cs, i);
    }
  }

  lemma {:induction false} LayNotFree(b: BootSector, d: Disk, lay: Layout, j: nat)
    requires Sound(b, d, lay)
    ensures Members(lay.ChainAt(j)) !! FreeSet(b, d)
  {
    hide EntryOf;
    FreeIsApart(b, d, lay, FreeSet(b, d));
  }

  lemma {:induction false} Balanced(b: BootSector, d: Disk, d1: Disk, d2: Disk, d3: Disk, d4: Disk, lay: Layout,
                                    name: seq<Byte>, contents: seq<Byte>, plan: Plan, freed: seq<nat>)
    requires InPlace(b, d, d1, lay, name, contents, plan)
    requires Ready(b, d1, lay, name, contents, plan.chain, plan.j, plan.existing)
    requires d2 == Switched(b, d1, lay, name, contents, plan.chain, plan.j, plan.existing) && Holds(b, d2)
    requires Only(b, d2, d3, {}, Members(freed)) && Only(b, d3, d4, {}, {})
    requires Distinct(freed) && AllInRange(b, freed) && Holds(b, d3)
    requires forall i | 0 <= i < |freed| :: LinkedAs(b, d3, freed[i], 0)
    requires Holds(b, d1) && forall c, t: nat | c in Members(plan.chain) && t < b.fatCount ::
               RawEntry(b, d1, t, c) % ENTRY_MODULUS == RawEntry(b, d1, 0, c) % ENTRY_MODULUS
    requires freed == lay.ChainAt(plan.j) && Members(freed) !! Members(plan.chain) && Members(freed) !! FreeSet(b, d)
    ensures Holds(b, d) && Holds(b, d4)
    ensures FreeSet(b, d4) == FreeSet(b, d) - Members(plan.chain) + Members(freed)
    ensures |FreeSet(b, d4)| == |FreeSet(b, d)| - |plan.chain| + |freed|
    ensures MirrorsAgree(b, d) ==> MirrorsAgree(b, d4)
  {
    hide Sound, Only, FreeSet, Ready, Walk, FileBytes, Chosen, RawEntry, LinkedAs, MirrorsAgree, Members, NewSlot;
    ReadyBasics(b, d1, lay, name, contents, plan.chain, plan.j, plan.existing);
    ReadyRange(b, d1, lay, name, contents, plan.chain, plan.j, plan.existing);
    var c := OneClusterChanges(b, d1, lay, plan.j, NewSlot(b, name, plan.chain, contents));
    OnlyHolds(b, d, d1, Members(plan.chain), Members(plan.chain));
    OnlyHolds(b, d3, d4, {}, {});
    Conserved(b, d, d1, d2, d3, d4, plan.chain, {c}, freed);
    CountConserved(FreeSet(b, d), FreeSet(b, d4), plan.chain, freed);
    if MirrorsAgree(b, d) {
      MirrorsKept(b, d, d1, d2, d3, d4, plan.chain, {c}, freed);
    }
  }

  lemma {:induction false} ReadyRange(b: BootSector, d: Disk, lay: Layout, name: seq<Byte>, contents: seq<Byte>,
                                      chain: seq<nat>, j: nat, existing: Option<Dir.DirectoryEntry>)
    requires Ready(b, d, lay, name, contents, chain, j, existing)
    ensures AllInRange(b, chain) && |contents| < 0x1_0000_0000
  {
  }

  /** What a finished replacement reads as, for `find` and `read_file`. */
  lemma {:induction false} ReplacedReads(b: BootSector, d: Disk, d': Disk, lay: Layout, name: seq<Byte>,
                                         contents: seq<Byte>, plan: Plan,
                                         entry: Dir.DirectoryEntry)
    requires Sound(b, d, lay) && Replaced(b, d, d', lay, name, contents, plan, entry) && Holds(b, d')
    ensures Dir.FitsEightAndThree(name) && AllInRange(b, lay.root) && OnDisk(d, SectorsOf(b, lay.root))
    ensures RootSectors(b, d').Some?
    ensures if Shadowed(d, SectorsOf(b, lay.root), name) || Dir.EndsAtItsFirstDot(name)
            then ViewOf(b, d', name) == ViewOf(b, d, name)
            else ViewOf(b, d', name).File? && ViewOf(b, d', name).bytes == contents
  {
    hide Sound, Shadowed, FileBytes, Chosen, FindSlot, MirrorsAgree, FreeSet, HasFsInfo, FsInfoTrue, RootAfter,
         Dir.Canonical, Dir.EncodedName, Dir.FitsEightAndThree, ViewOf;
    SoundHolds(b, d, lay);
    SoundRoot(b, d', Renamed(lay, plan.j, plan.chain));
    Dir.NameRoundTrip(name);
    Dir.UpperIsIgnoringCase(name, name);
    assert Dir.EndsAtItsFirstDot(name) ==> |Dir.Canonical(name)| < |name|;
  }

  /** What a view of a file is to `find` and `read_file`. */
  lemma {:induction false} ViewIsLookup(b: BootSector, d: Disk, name: seq<Byte>)
    requires Holds(b, d) && RootSectors(b, d).Some?
    ensures ViewOf(b, d, name).File? ==>
              && Lookup(b, d, name).Some? && !Lookup(b, d, name).value.IsDirectory()
              && FileBytes(b, d, Lookup(b, d, name).value.firstCluster, Lookup(b, d, name).value.size)
                 == Some(ViewOf(b, d, name).bytes)
  {
    hide FileBytes, FindSlot, RootSectors;
  }

  // ---------------------------------------------------------------------
  // A directory in which it happens
  // ---------------------------------------------------------------------

  /** Slot `i` is a live entry stored under the bytes that only read as `EA`. */
  ghost predicate EaData(d: Disk, sectors: seq<nat>, i: nat)
    requires OnDisk(d, sectors)
  {
    i < SLOTS_PER_SECTOR * |sectors| && SlotAt(d, sectors, i).Entry? && SlotBytesAt(d, sectors, i)[..11] == Dir.EA_DATA
  }

  /** Such an entry goes by `EA` and is not stored as `EA` is. */
  lemma {:induction false} EaReadsAlike(d: Disk, sectors: seq<nat>, i: nat)
    requires OnDisk(d, sectors) && EaData(d, sectors, i)
    ensures Dir.FitsEightAndThree(Dir.EA) && Dir.Canonical(Dir.EA) == Dir.EA
    ensures Named(d, sectors, i, Dir.EA) && !StoredAs(d, sectors, i, Dir.EncodedName(Dir.EA).value)
  {
    Dir.ReadsAlikeStoredApart();
    var raw := SlotBytesAt(d, sectors, i);
    assert Dir.EA_DATA[..11] == Dir.EA_DATA;
    Dir.StoredNamePrefix(raw, Dir.EA_DATA);
    Dir.AsciiIsText(Dir.EA);
    hide Dir.EncodedName, Dir.Canonical, SlotBytesAt, Dir.StoredName, Dir.FitsEightAndThree, Dir.ValidUtf8;
  }

  /** In front of the slot a new `EA` would take it shadows it; anywhere it makes a second `EA`. */
  lemma {:induction false} EaShadows(d: Disk, sectors: seq<nat>, i: nat)
    requires OnDisk(d, sectors) && EaData(d, sectors, i) && Dir.FitsEightAndThree(Dir.EA)
    requires StoredSlot(d, sectors, Dir.EncodedName(Dir.EA).value, 0).None? && VacantSlot(d, sectors, 0).Some?
    ensures i < VacantSlot(d, sectors, 0).value ==> Shadowed(d, sectors, Dir.EA)
    ensures Aliased(d, sectors, Dir.EA)
  {
    EaReadsAlike(d, sectors, i);
    var j := VacantSlot(d, sectors, 0).value;
    VacantOrNot(d, sectors, j);
    hide SlotAt, SlotBytesAt, Named, Dir.EncodedName, Dir.Canonical, StoredSlot, VacantSlot, Dir.FitsEightAndThree;
    assert Named(d, sectors, i, Dir.Canonical(Dir.EA));
  }

  /** After a new `EA` has been written, `find` still answers the old entry. */
  lemma {:induction false} EaStaysHidden(b: BootSector, d: Disk, lay: Layout, contents: seq<Byte>, chain: seq<nat>,
                                         j: nat, i: nat)
    requires Ready(b, d, lay, Dir.EA, contents, chain, j, None) && Holds(b, d) && AllInRange(b, lay.root)
    requires OnDisk(d, SectorsOf(b, lay.root)) && EaData(d, SectorsOf(b, lay.root), i) && i < j
    ensures var d' := Switched(b, d, lay, Dir.EA, contents, chain, j, None);
            && Holds(b, d') && RootSectors(b, d').Some? && RootSectors(b, d).Some?
            && Lookup(b, d', Dir.EA) == Lookup(b, d, Dir.EA) && Lookup(b, d, Dir.EA).Some?
  {
    hide Ready, Switched, Sound, SlotBytesAt, Dir.SlotOf, FindSlot, RootSectors, Dir.EncodedName, Dir.Canonical,
         Chosen, EaData, Named;
    var sectors := SectorsOf(b, lay.root);
    var d' := Switched(b, d, lay, Dir.EA, contents, chain, j, None);
    ReadyBasics(b, d, lay, Dir.EA, contents, chain, j, None);
    ReadyChosen(b, d, lay, Dir.EA, contents, chain, j, None);
    EaReadsAlike(d, sectors, i);
    assert Named(d, sectors, i, Dir.Canonical(Dir.EA));
    ChosenInside(d, sectors, Dir.EncodedName(Dir.EA).value, j, None);
    assert InFront(d, sectors, Dir.EA, j);
    Dir.UpperIsIgnoringCase(Dir.EA, Dir.EA);
    TargetSlot(b, d, lay, Dir.EA, contents, chain, j, None, Dir.EA);
    SwitchedSlots(b, d, lay, Dir.EA, contents, chain, j, None);
    SwitchSound(b, d, lay, Dir.EA, contents, chain, j, None);
    SoundRoot(b, d, lay);
    SoundRoot(b, d', Renamed(lay, j, chain));
    var k := FindSlot(d, sectors, Dir.EA, 0).value;
    assert SlotBytesAt(d', sectors, k) == SlotBytesAt(d, sectors, k);
  }

  const EA_SECTOR: Sector := Dir.EA_DATA + [Dir.ATTR_ARCHIVE] + seq(500, _ => 0)

  /** And such a directory there is: one sector, with that entry and nothing else. */
  lemma {:induction false} EaDirectory(d: Disk, s: nat)
    requires s < |d| && d[s] == EA_SECTOR
    ensures OnDisk(d, [s]) && EndsOnce(d, [s]) && EaData(d, [s], 0) && Dir.FitsEightAndThree(Dir.EA)
    ensures TheSlot(d, [s], Dir.EncodedName(Dir.EA).value) == Some(1)
    ensures Shadowed(d, [s], Dir.EA) && Aliased(d, [s], Dir.EA)
  {
    var encoded := EaSlots(d, s);
    EaReadsAlike(d, [s], 0);
    NothingStored(d, [s], encoded, 0, 1);
    hide SlotBytesAt, SlotAt, Dir.EncodedName, Dir.FitsEightAndThree, Dir.Canonical, StoredAs, Named;
    assert VacantSlot(d, [s], 1) == Some(1);
    assert VacantSlot(d, [s], 0) == Some(1);
    EaShadows(d, [s], 0);
  }

  lemma {:induction false} EaSlots(d: Disk, s: nat) returns (encoded: seq<Byte>)
    requires s < |d| && d[s] == EA_SECTOR
    ensures Dir.FitsEightAndThree(Dir.EA) && encoded == Dir.EncodedName(Dir.EA).value
    ensures OnDisk(d, [s]) && EaData(d, [s], 0) && !Vacant(d, [s], 0)
    ensures forall i | 0 < i < SLOTS_PER_SECTOR :: SlotAt(d, [s], i).End? && Vacant(d, [s], i)
    ensures EndsOnce(d, [s])
  {
    Dir.ReadsAlikeStoredApart();
    encoded := Dir.EncodedName(Dir.EA).value;
    var raw := SlotBytesAt(d, [s], 0);
    assert raw[..11] == Dir.EA_DATA && raw[11] == Dir.ATTR_ARCHIVE;
    forall i | 0 < i < SLOTS_PER_SECTOR ensures SlotBytesAt(d, [s], i)[0] == Dir.NEVER_USED {
    }
    hide SlotBytesAt, Dir.EncodedName, Dir.FitsEightAndThree;
    assert SlotAt(d, [s], 0).Entry?;
  }
}
