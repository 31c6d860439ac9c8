/** What `write_file` answers on a sound volume, and why: said of the volume as it is before the
    call, and of the bytes of its directory. */
module Answers {
  import opened Bytes
  import opened BootSectors
  import opened FatTable
  import opened Chains
  import opened VolumeState
  import opened Commit
  import opened VolumeSteps
  import opened Replacement
  import Dir = Directory

  /** Why a file of that name and size cannot be written, if it cannot: a directory goes by the
      name; the root has no slot for it; it takes more clusters than one file may, or than are free. */
  ghost function WhyNot(b: BootSector, d: Disk, sectors: seq<nat>, name: seq<Byte>, size: nat): Option<WriteError>
    requires Holds(b, d) && OnDisk(d, sectors) && Dir.FitsEightAndThree(name)
  {
    var encoded, n, free := Dir.EncodedName(name).value, ClustersFor(b, size), |FreeSet(b, d)|;
    if StoredDirectory(d, sectors, encoded) then Some(IsADirectory)
    else if TheSlot(d, sectors, encoded).None? then Some(DirectoryFull)
    else if n > MAX_FILE_CLUSTERS then Some(TooManyClusters(n))
    else if n > free then Some(Full(n, free))
    else None
  }

  /** Every slot whose bytes are a directory's holds the same bytes. */
  ghost predicate DirectoriesKept(d: Disk, d': Disk, sectors: seq<nat>)
    requires OnDisk(d, sectors) && OnDisk(d', sectors)
  {
    forall i | 0 <= i < SLOTS_PER_SECTOR * |sectors| ::
      var raw := SlotBytesAt(d, sectors, i);
      Dir.Live(raw) && Dir.DirectoryBit(raw) ==> SlotBytesAt(d', sectors, i) == raw
  }

  /** The answer fits the volume `d` as it was; `d'` is what it became, `untouched` that nothing was
      written, and `steady` that the device never fails. */
  ghost predicate AnswerFits(b: BootSector, d: Disk, d': Disk, lay: Layout, name: seq<Byte>, size: nat,
                             r: Result<Dir.DirectoryEntry, WriteError>, untouched: bool, steady: bool)
    requires Holds(b, d) && Dir.FitsEightAndThree(name)
  {
    && AllInRange(b, lay.root)
    && var sectors, encoded := SectorsOf(b, lay.root), Dir.EncodedName(name).value;
       && OnDisk(d, sectors) && OnDisk(d', sectors)
       && (r == Err(IsADirectory) ==> StoredDirectory(d, sectors, encoded))
       && (StoredDirectory(d, sectors, encoded) ==> r.Err? && untouched)
       && (r.Ok? ==> DirectoriesKept(d, d', sectors))
       && var why := WhyNot(b, d, sectors, name, size);
          && (r.Ok? ==> why == None)
          && (steady ==> if why.Some? then r == Err(why.value) && untouched else r.Ok?)
  }

  /** A plan that was made can be carried out. */
  lemma {:induction false} PlannedCan(b: BootSector, d: Disk, sectors: seq<nat>, name: seq<Byte>, size: nat, j: nat,
                                      existing: Option<Dir.DirectoryEntry>, chain: seq<nat>)
    requires Holds(b, d) && OnDisk(d, sectors) && Dir.FitsEightAndThree(name)
    requires Chosen(d, sectors, Dir.EncodedName(name).value, j, existing)
    requires existing.Some? ==> !existing.value.IsDirectory()
    requires Distinct(chain) && Members(chain) <= FreeSet(b, d)
    requires |chain| == ClustersFor(b, size) && |chain| <= MAX_FILE_CLUSTERS
    ensures WhyNot(b, d, sectors, name, size) == None
  {
    hide Chosen, StoredDirectory, TheSlot, FreeSet, ClustersFor, Dir.EncodedName;
    ChosenIsTheSlot(d, sectors, Dir.EncodedName(name).value, j, existing);
    ChosenDirectory(d, sectors, Dir.EncodedName(name).value, j, existing);
    MembersSize(chain);
    SmallerSet(Members(chain), FreeSet(b, d));
  }

  lemma {:induction false} SmallerSet(a: set<nat>, c: set<nat>)
    requires a <= c
    ensures |a| <= |c|
  {
    assert c == a + (c - a);
  }

  /** What was refused before anything was written is what could not be written, unless the device
      failed. */
  lemma {:induction false} RefusedFits(b: BootSector, d: Disk, lay: Layout, name: seq<Byte>, contents: seq<Byte>,
                                       error: WriteError, steady: bool)
    requires Holds(b, d) && AllInRange(b, lay.root) && OnDisk(d, SectorsOf(b, lay.root)) && Dir.FitsEightAndThree(name)
    requires PlanRefused(b, d, lay, name, contents, error) && (steady ==> error != Reading(DeviceRead))
    ensures AnswerFits(b, d, d, lay, name, |contents|, Err(error), true, steady)
  {
    hide Chosen, StoredDirectory, TheSlot, FreeSet, ClustersFor, Dir.EncodedName, NoRoom, StoredSlot;
    var sectors, encoded := SectorsOf(b, lay.root), Dir.EncodedName(name).value;
    if error == IsADirectory {
      var j, e :| Chosen(d, sectors, encoded, j, Some(e)) && e.IsDirectory();
      ChosenDirectory(d, sectors, encoded, j, Some(e));
    } else if error == DirectoryFull {
      NoRoomExactly(d, sectors, encoded);
      NoSlotNoDirectory(d, sectors, encoded);
    } else if !error.Reading? {
      var j, existing :| Chosen(d, sectors, encoded, j, existing) && (existing.Some? ==> !existing.value.IsDirectory());
      ChosenDirectory(d, sectors, encoded, j, existing);
      ChosenIsTheSlot(d, sectors, encoded, j, existing);
    }
  }

  lemma {:induction false} NoSlotNoDirectory(d: Disk, sectors: seq<nat>, encoded: seq<Byte>)
    requires OnDisk(d, sectors) && TheSlot(d, sectors, encoded) == None
    ensures !StoredDirectory(d, sectors, encoded)
  {
    hide StoredSlot, StoredDirectory;
    NoDirectoryStored(d, sectors, encoded);
  }

  /** A device that failed part way explains any error. */
  lemma {:induction false} FailedFits(b: BootSector, d: Disk, d': Disk, lay: Layout, name: seq<Byte>, size: nat,
                                      error: WriteError, untouched: bool)
    requires Holds(b, d) && AllInRange(b, lay.root) && OnDisk(d, SectorsOf(b, lay.root)) && Dir.FitsEightAndThree(name)
    requires |d'| == |d| && error != IsADirectory && WhyNot(b, d, SectorsOf(b, lay.root), name, size) == None
    ensures AnswerFits(b, d, d', lay, name, size, Err(error), untouched, false)
  {
    hide StoredDirectory, TheSlot, FreeSet, ClustersFor, Dir.EncodedName;
  }

  /** Success, and no directory of the root was written over. */
  lemma {:induction false} DoneFits(b: BootSector, d: Disk, d': Disk, lay: Layout, name: seq<Byte>,
                                    contents: seq<Byte>, plan: Plan, entry: Dir.DirectoryEntry, untouched: bool,
                                    steady: bool)
    requires Sound(b, d, lay) && Replaced(b, d, d', lay, name, contents, plan, entry) && Holds(b, d)
    requires AllInRange(b, lay.root) && OnDisk(d, SectorsOf(b, lay.root)) && Dir.FitsEightAndThree(name)
    requires plan.existing.Some? ==> !plan.existing.value.IsDirectory()
    requires WhyNot(b, d, SectorsOf(b, lay.root), name, |contents|) == None
    ensures AnswerFits(b, d, d', lay, name, |contents|, Ok(entry), untouched, steady)
  {
    hide StoredDirectory, TheSlot, FreeSet, ClustersFor, Dir.EncodedName, Sound, SlotAt, SlotBytesAt, AsAfter,
         StoredSlot, HasFsInfo, FsInfoTrue, MirrorsAgree, Shadowed;
    TakenIsNoDirectory(d, SectorsOf(b, lay.root), Dir.EncodedName(name).value, plan.j, plan.existing);
  }

  /** The slot that is written to holds no directory. */
  lemma {:induction false} TakenIsNoDirectory(d: Disk, sectors: seq<nat>, encoded: seq<Byte>, j: nat,
                                              existing: Option<Dir.DirectoryEntry>)
    requires OnDisk(d, sectors) && Chosen(d, sectors, encoded, j, existing)
    requires existing.Some? ==> !existing.value.IsDirectory()
    ensures var raw := SlotBytesAt(d, sectors, j); !(Dir.Live(raw) && Dir.DirectoryBit(raw))
  {
    hide StoredSlot;
    Dir.SlotMeans(SlotBytesAt(d, sectors, j));
  }
}
