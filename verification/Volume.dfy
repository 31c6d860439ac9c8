/** A FAT32 volume over a device that hands out sectors: `Volume<S: Sectors>` of hal/src/fat.rs. */
module Volumes {
  import opened Bytes
  import opened BootSectors
  import opened FatTable
  import opened Chains
  import opened VolumeState
  import opened Commit
  import opened VolumeSteps
  import opened Replacement
  import opened Answers
  import Dir = Directory

  class Volume {
    const boot: BootSector
    /** The sectors that a read or a write may fail at, each time anew; at any other it never does. */
    const faulty: set<nat>
    /** The sectors, as the device holds them. A device smaller than its boot sector says is one
        whose reads past its end always fail. */
    var disk: Disk
    /** Every state the disk has been in since the volume was built, oldest first: the one it
        was found in, and one for each sector written. Stopping the machine leaves the disk in one of them. */
    ghost var history: seq<Disk>

    ghost predicate Valid()
      reads this
    {
      Holds(boot, disk) && Latest(history) == disk
    }

    /** `with_boot_sector`: the boot sector must have come from `Parse` on this very disk. */
    constructor (boot: BootSector, disk: Disk, faulty: set<nat>)
      requires Holds(boot, disk)
      ensures Valid() && this.boot == boot && this.faulty == faulty && this.disk == disk && history == [disk]
    {
      this.boot, this.faulty, this.disk, history := boot, faulty, disk, [disk];
    }

    method ReadSector(sector: U32) returns (r: Option<Sector>)
      requires Valid() && sector < boot.totalSectors
      ensures r.Some? ==> r.value == disk[sector]
      ensures r.None? ==> sector in faulty
    {
      r := Some(disk[sector]);
      if sector in faulty {
        if * { r := None; }
      }
    }

    /** What the table says follows `cluster`. */
    method NextCluster(cluster: U32) returns (r: Result<Entry, VolumeError>)
      requires Valid()
      ensures !boot.InRange(cluster) ==> r == Err(BadCluster(cluster))
      ensures boot.InRange(cluster) ==> r == Err(DeviceRead) || r == Ok(EntryOf(boot, disk, cluster))
      ensures r == Err(DeviceRead) ==> faulty != {}
    {
      if cluster < FIRST_DATA_CLUSTER || cluster >= FIRST_DATA_CLUSTER + boot.clusters {
        return Err(BadCluster(cluster));
      }
      var perSector: U32 := boot.bytesPerSector / 4;
      var offset: nat := cluster % perSector * 4;
      assert boot.TableSector(0, cluster) == boot.FirstFatSector() + cluster / ENTRIES_PER_SECTOR;
      var bytes := ReadSector(boot.FirstFatSector() + cluster / perSector);
      if bytes.None? {
        return Err(DeviceRead);
      }
      r := Ok(DecodeEntry(U32At(bytes.value, offset)));
    }

    /** The sixteen slots of one sector of a directory, handed to `each` one by one. When
        that is sector `q` of the directory `sectors`, the answer says how far it got. */
    method ScanSector(bytes: Sector, each: (nat, Dir.DirectoryEntry) -> bool, before: seq<Dir.DirectoryEntry>,
                      ghost known: bool, ghost sectors: seq<nat>, ghost q: nat)
      returns (visited: seq<Dir.DirectoryEntry>, more: bool)
      requires known ==> OnDisk(disk, sectors) && q < |sectors| && disk[sectors[q]] == bytes
      requires known ==> Scanned(disk, sectors, each, SLOTS_PER_SECTOR * q, before)
      ensures known && more ==> Scanned(disk, sectors, each, SLOTS_PER_SECTOR * q + SLOTS_PER_SECTOR, visited)
      ensures known && !more ==> Visited(disk, sectors, each, 0, 0) == visited && Stops(disk, sectors, each, 0, 0)
    {
      hide Dir.SlotOf, Visited, Stops, Scanned, Latest;
      visited, more := before, true;
      var index := 0;
      while index < SLOTS_PER_SECTOR
        invariant index <= SLOTS_PER_SECTOR
        invariant known ==> Scanned(disk, sectors, each, SLOTS_PER_SECTOR * q + index, visited)
      {
        var slot := Dir.DecodeSlot(SlotIn(bytes, index));
        if known {
          assert SlotAt(disk, sectors, SLOTS_PER_SECTOR * q + index) == slot;
          ScanSlot(disk, sectors, each, SLOTS_PER_SECTOR * q + index, visited);
        }
        match slot {
          case End =>
            more := false;
            return;
          case Skip =>
          case Entry(entry) =>
            more := each(|visited|, entry);
            visited := visited + [entry];
            if !more {
              return;
            }
        }
        index := index + 1;
      }
    }

    /** The sectors of one cluster of a directory. */
    method ScanCluster(first: U32, each: (nat, Dir.DirectoryEntry) -> bool, before: seq<Dir.DirectoryEntry>,
                       ghost known: bool, ghost sectors: seq<nat>, ghost q: nat)
      returns (r: Result<(seq<Dir.DirectoryEntry>, bool), VolumeError>)
      requires Valid() && first + boot.sectorsPerCluster <= boot.totalSectors
      requires known ==> OnDisk(disk, sectors) && q + boot.sectorsPerCluster <= |sectors|
      requires known ==> forall i | q <= i < q + boot.sectorsPerCluster :: sectors[i] == first + (i - q)
      requires known ==> Scanned(disk, sectors, each, SLOTS_PER_SECTOR * q, before)
      ensures r.Err? ==> r.error == DeviceRead
      ensures known && r.Ok? && r.value.1 ==>
                Scanned(disk, sectors, each, SLOTS_PER_SECTOR * (q + boot.sectorsPerCluster), r.value.0)
      ensures known && r.Ok? && !r.value.1 ==>
                Visited(disk, sectors, each, 0, 0) == r.value.0 && Stops(disk, sectors, each, 0, 0)
      ensures r == Err(DeviceRead) ==> faulty != {}
    {
      hide Visited, Stops, Scanned, Latest;
      var visited := before;
      var offset := 0;
      while offset < boot.sectorsPerCluster
        invariant 0 <= offset <= boot.sectorsPerCluster
        invariant known ==> Scanned(disk, sectors, each, SLOTS_PER_SECTOR * (q + offset), visited)
      {
        var bytes := ReadSector(first + offset);
        if bytes.None? {
          return Err(DeviceRead);
        }
        assert known ==> sectors[q + offset] == first + offset;
        var more;
        visited, more := ScanSector(bytes.value, each, visited, known, sectors, q + offset);
        if !more {
          return Ok((visited, false));
        }
        offset := offset + 1;
      }
      r := Ok((visited, true));
    }

    /** Hands the entries of the root to `each`, with how many went before, until it says to
        stop or the directory ends, and answers which ones those were. On any table: over the
        clusters the table leads to it answers those entries when the scan stops among them or
        the chain ends there, and only then. */
    method ReadRoot(each: (nat, Dir.DirectoryEntry) -> bool) returns (r: Result<seq<Dir.DirectoryEntry>, VolumeError>)
      requires Valid()
      ensures ReadsRoot(boot, disk, each, r)
      ensures RootSectors(boot, disk).Some? ==>
                r == Err(DeviceRead) || r == Ok(Visited(disk, RootSectors(boot, disk).value, each, 0, 0))
      ensures r == Err(ChainLoops) ==> Revisits(boot, disk, boot.rootCluster)
      ensures r == Err(DeviceRead) ==> faulty != {}
    {
      r := ScanRoot(each);
      if RootSectors(boot, disk).Some? {
        ReadsWholeRoot(boot, disk, each, r);
      }
    }

    method ScanRoot(each: (nat, Dir.DirectoryEntry) -> bool) returns (r: Result<seq<Dir.DirectoryEntry>, VolumeError>)
      requires Valid()
      ensures ReadsRoot(boot, disk, each, r)
      ensures r == Err(ChainLoops) ==> Revisits(boot, disk, boot.rootCluster)
      ensures r == Err(DeviceRead) ==> faulty != {}
    {
      FollowingStarts(boot, disk, boot.rootCluster);
      ReachOnDisk(boot, disk);
      ghost var sectors := SectorsOf(boot, Reach(boot, disk, boot.rootCluster, 0));
      hide SectorsOf, Visited, Scanned, Latest, Reach, Revisits, Following, ReadsRoot;
      var cluster, seen, visited := boot.rootCluster, 0, [];
      ghost var done: seq<nat> := [];
      ScannedNothing(disk, sectors, each);
      while true
        invariant seen == |done| <= boot.clusters && Following(boot, disk, boot.rootCluster, done, cluster)
        invariant Scanned(disk, sectors, each, SLOTS_PER_SECTOR * Times(|done|, boot.sectorsPerCluster), visited)
        decreases boot.clusters - seen
      {
        var over, next;
        over, visited, next := ScanRootAt(each, cluster, seen, visited, done);
        if over.Some? {
          return over.value;
        }
        done := done + [cluster];
        cluster, seen := next, seen + 1;
      }
    }

    /** One cluster of the root, and where the table leads from it. */
    method ScanRootAt(each: (nat, Dir.DirectoryEntry) -> bool, cluster: U32, seen: nat, before: seq<Dir.DirectoryEntry>,
                      ghost done: seq<nat>)
      returns (over: Option<Result<seq<Dir.DirectoryEntry>, VolumeError>>, visited: seq<Dir.DirectoryEntry>, next: U32)
      requires Valid() && OnDisk(disk, SectorsOf(boot, Reach(boot, disk, boot.rootCluster, 0)))
      requires seen == |done| <= boot.clusters && Following(boot, disk, boot.rootCluster, done, cluster)
      requires Scanned(disk, SectorsOf(boot, Reach(boot, disk, boot.rootCluster, 0)), each,
                       SLOTS_PER_SECTOR * Times(|done|, boot.sectorsPerCluster), before)
      ensures over.Some? ==> ReadsRoot(boot, disk, each, over.value)
      ensures over == Some(Err(ChainLoops)) ==> Revisits(boot, disk, boot.rootCluster)
      ensures over.None? ==>
                && |done| < boot.clusters && Following(boot, disk, boot.rootCluster, done + [cluster], next)
                && Scanned(disk, SectorsOf(boot, Reach(boot, disk, boot.rootCluster, 0)), each,
                           SLOTS_PER_SECTOR * Times(|done| + 1, boot.sectorsPerCluster), visited)
      ensures over == Some(Err(DeviceRead)) ==> faulty != {}
    {
      FollowingAt(boot, disk, boot.rootCluster, done, cluster);
      ghost var reach := Reach(boot, disk, boot.rootCluster, 0);
      ghost var sectors := SectorsOf(boot, reach);
      hide SectorsOf, Visited, Stops, Scanned, EntryOf, Latest, Walk, Reach, EndsAsChain, Revisits, Following,
           ReadsRoot, OnDisk, AllInRange, Times;
      visited, next := before, cluster;
      var first := boot.SectorOfCluster(cluster);
      if first.None? {
        ScannedAll(boot, disk, each, reach, visited);
        RootAnswer(boot, disk, each, sectors, Err(BadCluster(cluster)));
        return Some(Err(BadCluster(cluster))), visited, next;
      }
      ClusterBegins(boot, reach, |done|, first.value);
      var scan := ScanThere(first.value, each, visited, sectors, Times(|done|, boot.sectorsPerCluster),
                            Times(|done| + 1, boot.sectorsPerCluster));
      if scan.Err? {
        RootAnswer(boot, disk, each, sectors, Err(DeviceRead));
        return Some(Err(scan.error)), visited, next;
      }
      visited := scan.value.0;
      if !scan.value.1 {
        RootAnswer(boot, disk, each, sectors, Ok(visited));
        return Some(Ok(visited)), visited, next;
      }
      over, next := FollowRoot(each, cluster, seen, visited, done);
    }

    /** The entries of the cluster of the root that comes after `done`, whose sectors begin at `first`. */
    method ScanThere(first: U32, each: (nat, Dir.DirectoryEntry) -> bool, before: seq<Dir.DirectoryEntry>,
                     ghost sectors: seq<nat>, ghost q: nat, ghost end: nat)
      returns (r: Result<(seq<Dir.DirectoryEntry>, bool), VolumeError>)
      requires Valid() && OnDisk(disk, sectors) && first + boot.sectorsPerCluster <= boot.totalSectors
      requires q + boot.sectorsPerCluster == end <= |sectors|
      requires forall i | q <= i < q + boot.sectorsPerCluster :: sectors[i] == first + (i - q)
      requires Scanned(disk, sectors, each, SLOTS_PER_SECTOR * q, before)
      ensures r.Err? ==> r.error == DeviceRead
      ensures r.Ok? ==>
                if r.value.1 then Scanned(disk, sectors, each, SLOTS_PER_SECTOR * end, r.value.0)
                else Visited(disk, sectors, each, 0, 0) == r.value.0 && Stops(disk, sectors, each, 0, 0)
      ensures r == Err(DeviceRead) ==> faulty != {}
    {
      hide Visited, Stops, Scanned, Latest, OnDisk;
      r := ScanCluster(first, each, before, true, sectors, q);
    }

    method FollowRoot(each: (nat, Dir.DirectoryEntry) -> bool, cluster: U32, seen: nat,
                      visited: seq<Dir.DirectoryEntry>, ghost done: seq<nat>)
      returns (over: Option<Result<seq<Dir.DirectoryEntry>, VolumeError>>, next: U32)
      requires Valid() && OnDisk(disk, SectorsOf(boot, Reach(boot, disk, boot.rootCluster, 0))) && boot.InRange(cluster)
      requires seen == |done| <= boot.clusters && Following(boot, disk, boot.rootCluster, done, cluster)
      requires Scanned(disk, SectorsOf(boot, Reach(boot, disk, boot.rootCluster, 0)), each,
                       SLOTS_PER_SECTOR * Times(|done| + 1, boot.sectorsPerCluster), visited)
      ensures over.Some? ==> ReadsRoot(boot, disk, each, over.value)
      ensures over == Some(Err(ChainLoops)) ==> Revisits(boot, disk, boot.rootCluster)
      ensures over.None? ==> |done| < boot.clusters && Following(boot, disk, boot.rootCluster, done + [cluster], next)
      ensures over == Some(Err(DeviceRead)) ==> faulty != {}
    {
      FollowingStep(boot, disk, boot.rootCluster, done, cluster);
      ghost var reach := Reach(boot, disk, boot.rootCluster, 0);
      ghost var sectors := SectorsOf(boot, reach);
      hide SectorsOf, Visited, Stops, Scanned, EntryOf, Latest, Walk, Reach, EndsAsChain, Revisits, Following,
           ReadsRoot, OnDisk, AllInRange;
      next := cluster;
      if |done| + 1 == |reach| {
        ScannedAll(boot, disk, each, reach, visited);
      }
      if seen + 1 > boot.clusters {
        RootAnswer(boot, disk, each, sectors, Err(ChainLoops));
        return Some(Err(ChainLoops)), next;
      }
      var entry := NextCluster(cluster);
      if entry.Err? {
        RootAnswer(boot, disk, each, sectors, Err(DeviceRead));
        return Some(Err(entry.error)), next;
      }
      match entry.value {
        case Next(to) => over, next := None, to;
        case End =>
          RootAnswer(boot, disk, each, sectors, Ok(visited));
          over := Some(Ok(visited));
        case broken =>
          RootAnswer(boot, disk, each, sectors, Err(BrokenChain(cluster, broken)));
          over := Some(Err(BrokenChain(cluster, broken)));
      }
    }

    /** The root's chain and its sectors, when it has a whole one. */
    ghost method RootChain() returns (chain: seq<nat>, sectors: seq<nat>)
      requires Valid()
      ensures OnDisk(disk, sectors)
      ensures RootSectors(boot, disk).Some? ==>
                && 0 < |chain| <= boot.clusters && Walk(boot, disk, boot.rootCluster, |chain|) == Some(chain)
                && EntryOf(boot, disk, chain[|chain| - 1]) == End
                && sectors == SectorsOf(boot, chain) && RootSectors(boot, disk) == Some(sectors)
    {
      chain, sectors := [], [];
      if RootSectors(boot, disk).Some? {
        ChainFromIsWalk(boot, disk, boot.rootCluster, 1);
        chain, sectors := ChainFrom(boot, disk, boot.rootCluster, 1).value, RootSectors(boot, disk).value;
      }
    }

    /** `done` has been walked from `first` and the table leads on to `cluster`. */
    ghost predicate Reached(first: nat, done: seq<nat>, cluster: U32)
      requires Valid()
      reads this
    {
      && Walk(boot, disk, first, |done|) == Some(done)
      && (done == [] ==> cluster == first)
      && (done != [] ==> EntryOf(boot, disk, done[|done| - 1]) == Next(cluster))
    }

    /** The entry called `name` in the root directory, if it is there. */
    method Find(name: seq<Byte>) returns (r: Result<Option<Dir.DirectoryEntry>, VolumeError>)
      requires Valid()
      ensures FindsName(boot, disk, name, r)
      ensures RootSectors(boot, disk).Some? ==> r == Err(DeviceRead) || r == Ok(Lookup(boot, disk, name))
      ensures r == Err(ChainLoops) ==> Revisits(boot, disk, boot.rootCluster)
      ensures r == Err(DeviceRead) ==> faulty != {}
    {
      hide SlotAt, FindSlot, Visited, Dir.EqualIgnoringCase, Latest, ReadsRoot, FindsName;
      var visited := ReadRoot((k, e: Dir.DirectoryEntry) => !e.IsNamed(name));
      ReadsIsFinds(boot, disk, name, visited);
      if visited.Err? {
        return Err(visited.error);
      }
      if RootSectors(boot, disk).Some? {
        VisitedUntilNamed(disk, RootSectors(boot, disk).value, name, 0, 0);
      }
      var v := visited.value;
      r := Ok(if v != [] && v[|v| - 1].IsNamed(name) then Some(v[|v| - 1]) else None);
    }

    /** The sectors of one cluster, or of what is left of the file, into the buffer. */
    method ReadCluster(cluster: U32, first: U32, into: array<Byte>, before: nat, size: nat, ghost done: seq<nat>)
      returns (r: Option<nat>)
      requires Valid() && boot.InRange(cluster) && AllInRange(boot, done) && first == boot.DataSector(cluster, 0)
      requires before == SECTOR_BYTES * |SectorsOf(boot, done)| && before < size <= into.Length
      requires into[..before] == BytesOf(disk, SectorsOf(boot, done), before)
      modifies into
      ensures r.Some? ==> var sectors := SectorsOf(boot, done + [cluster]);
                          && r.value == Min(size, SECTOR_BYTES * |sectors|)
                          && r.value <= into.Length
                          && into[..r.value] == BytesOf(disk, sectors, r.value)
      ensures into[size..] == old(into[size..])
      ensures r.None? ==> faulty != {}
    {
      hide SectorsOf, BytesOf, Latest;
      ghost var sectors := SectorsOf(boot, done + [cluster]);
      ghost var q0 := |SectorsOf(boot, done)|;
      NextClusterOfChain(boot, disk, done, cluster, before);
      var written := before;
      var offset := 0;
      while offset < boot.sectorsPerCluster && written != size
        invariant 0 <= offset <= boot.sectorsPerCluster
        invariant written == Min(size, before + SECTOR_BYTES * offset)
        invariant into[..written] == BytesOf(disk, sectors, written)
        invariant into[size..] == old(into[size..])
      {
        assert sectors[q0 + offset] == first + offset;
        var bytes := ReadSector(first + offset);
        if bytes.None? {
          return None;
        }
        var taking := Min(size - written, SECTOR_BYTES);
        ghost var buffer := into[..];
        CopyInto(into, written, bytes.value, 0, taking);
        assert into[size..] == buffer[size..];
        BytesGrow(disk, sectors, buffer, written, into[..], taking, q0 + offset);
        written := written + taking;
        offset := offset + 1;
      }
      r := Some(written);
    }

    /** Reads a whole file into the front of `into`, following its chain. */
    method ReadFile(entry: Dir.DirectoryEntry, into: array<Byte>) returns (r: Result<nat, VolumeError>)
      requires Valid()
      modifies into
      ensures r.Ok? ==> r.value == entry.size && entry.size <= into.Length
                        && FileBytes(boot, disk, entry.firstCluster, entry.size) == Some(into[..entry.size])
      ensures r == Err(TooBig(entry.size)) <==> entry.size > into.Length
      ensures r.Err? && r.error.TooBig? ==> r.error == TooBig(entry.size)
      ensures r.Err? && r.error != DeviceRead && !r.error.TooBig? ==>
                FileBytes(boot, disk, entry.firstCluster, entry.size).None?
      ensures r == Err(ChainLoops) ==> Revisits(boot, disk, entry.firstCluster)
      ensures entry.size <= into.Length ==> into[entry.size..] == old(into[entry.size..])
      ensures r == Err(DeviceRead) ==> faulty != {}
    {
      hide SectorsOf, BytesOf, Walk, EntryOf, FileBytes, Latest;
      WalkNothing(boot, disk, entry.firstCluster);
      var size := entry.size;
      if size > into.Length {
        return Err(TooBig(entry.size));
      }
      var cluster := entry.firstCluster;
      var written := 0;
      var seen := 0;
      ghost var done: seq<nat> := [];
      while written < size
        invariant seen == |done| <= boot.clusters
        invariant Reached(entry.firstCluster, done, cluster)
        invariant written == SECTOR_BYTES * |SectorsOf(boot, done)| <= size && (size > 0 ==> written < size)
        invariant into[..written] == BytesOf(disk, SectorsOf(boot, done), written)
        invariant into[size..] == old(into[size..])
        decreases boot.clusters - seen
      {
        var first := boot.SectorOfCluster(cluster);
        if first.None? {
          WalkEndsHere(boot, disk, entry.firstCluster, done);
          NotAllThere(boot, disk, entry.firstCluster, size, |done|);
          return Err(BadCluster(cluster));
        }
        var read := ReadCluster(cluster, first.value, into, written, size, done);
        if read.None? {
          return Err(DeviceRead);
        }
        WalkExtends(boot, disk, entry.firstCluster, done, cluster);
        done := done + [cluster];
        written := read.value;
        if written == size {
          AllThere(boot, disk, entry.firstCluster, size, done, into[..size]);
          return Ok(written);
        }
        seen := seen + 1;
        if seen > boot.clusters {
          WalkTooLong(boot, disk, entry.firstCluster, done);
          NotAllThere(boot, disk, entry.firstCluster, size, |done|);
          return Err(ChainLoops);
        }
        var next := NextCluster(cluster);
        if next.Err? {
          return Err(next.error);
        }
        if !next.value.Next? {
          WalkEndsHere(boot, disk, entry.firstCluster, done);
          NotAllThere(boot, disk, entry.firstCluster, size, |done|);
          return Err(BrokenChain(cluster, next.value));
        }
        cluster := next.value.cluster;
      }
      EmptyFile(boot, disk, entry.firstCluster);
      assert into[..0] == [];
      r := Ok(written);
    }

    /** The bytes `read_at` should hand over, out of those a whole-file read gives. */
    ghost function Slice(bytes: seq<Byte>, offset: nat, room: nat): seq<Byte> {
      if offset >= |bytes| then [] else bytes[offset..Min(|bytes|, offset + room)]
    }

    /** Walks `steps` links from the first cluster of a file. */
    method WalkTo(firstCluster: U32, steps: nat, ghost file: seq<nat>) returns (r: Result<(U32, nat), VolumeError>,
                                                                                ghost done: seq<nat>)
      requires Valid() && Walk(boot, disk, firstCluster, |file|) == Some(file) && |file| <= boot.clusters + 1
      ensures r.Ok? ==> r.value.1 == steps == |done| <= boot.clusters && Reached(firstCluster, done, r.value.0)
      ensures steps < |file| ==> r == Err(DeviceRead) || r == Ok((file[steps], steps))
      ensures r == Err(ChainLoops) ==> Revisits(boot, disk, firstCluster) || LeavesVolume(boot, disk, firstCluster)
      ensures r == Err(DeviceRead) ==> faulty != {}
    {
      hide Walk, EntryOf, Latest, Revisits, LeavesVolume;
      WalkNothing(boot, disk, firstCluster);
      var cluster := firstCluster;
      var seen := 0;
      var i := 0;
      done := [];
      while i < steps
        invariant i <= steps && seen == i == |done| <= boot.clusters
        invariant i < |file| ==> file[i] == cluster
        invariant Reached(firstCluster, done, cluster)
      {
        seen := seen + 1;
        if seen > boot.clusters {
          GaveUp(boot, disk, firstCluster, done, cluster);
          return Err(ChainLoops), done;
        }
        var next := NextCluster(cluster);
        if next.Err? {
          return Err(next.error), done;
        }
        if i + 1 < |file| {
          WalkStep(boot, disk, firstCluster, file, i);
        }
        if !next.value.Next? {
          return Err(BrokenChain(cluster, next.value)), done;
        }
        WalkExtends(boot, disk, firstCluster, done, cluster);
        done := done + [cluster];
        cluster := next.value.cluster;
        i := i + 1;
      }
      r := Ok((cluster, seen));
    }

    /** What is wanted of one cluster, from byte `inside` of it on, into the buffer. */
    method ReadWithin(first: U32, inside: nat, into: array<Byte>, before: nat, want: nat,
                      ghost known: bool, ghost bytes: seq<Byte>, ghost offset: nat, ghost sectors: seq<nat>,
                      ghost q: nat)
      returns (r: Option<nat>)
      requires Valid() && first + boot.sectorsPerCluster <= boot.totalSectors
      requires before < want <= into.Length && inside < SECTOR_BYTES * boot.sectorsPerCluster
      requires known ==>
                 && OnDisk(disk, sectors) && |bytes| <= SECTOR_BYTES * |sectors|
                 && bytes == BytesOf(disk, sectors, |bytes|)
      requires known ==> q + boot.sectorsPerCluster <= |sectors| && offset + want <= |bytes|
      requires known ==> forall i | q <= i < q + boot.sectorsPerCluster :: sectors[i] == first + (i - q)
      requires known ==> SECTOR_BYTES * q + inside == offset + before
      requires known ==> into[..before] == bytes[offset..offset + before]
      modifies into
      ensures r.Some? ==> r.value == Min(want, before + (SECTOR_BYTES * boot.sectorsPerCluster - inside))
      ensures r.Some? && known ==> into[..r.value] == bytes[offset..offset + r.value]
      ensures into[want..] == old(into[want..])
      ensures r.None? ==> faulty != {}
    {
      hide BytesOf;
      var written := before;
      var sector := inside / SECTOR_BYTES;
      var within := inside % SECTOR_BYTES;
      while written < want && sector < boot.sectorsPerCluster
        invariant 0 <= sector <= boot.sectorsPerCluster && 0 <= within < SECTOR_BYTES
        invariant written < want && sector < boot.sectorsPerCluster ==>
                    SECTOR_BYTES * sector + within - inside == written - before
        invariant sector == boot.sectorsPerCluster || written == want ==>
                    written == Min(want, before + (SECTOR_BYTES * boot.sectorsPerCluster - inside))
        invariant before <= written <= want
        invariant known ==> into[..written] == bytes[offset..offset + written]
        invariant into[want..] == old(into[want..])
        decreases boot.sectorsPerCluster - sector
      {
        var got := ReadSector(first + sector);
        if got.None? {
          return None;
        }
        var taking := Min(want - written, SECTOR_BYTES - within);
        ghost var buffer := into[..];
        CopyInto(into, written, got.value, within, taking);
        if known {
          assert sectors[q + sector] == first + sector;
          SliceGrows(disk, sectors, bytes, offset, buffer, into[..], written, taking, q + sector, within);
        }
        written := written + taking;
        sector := sector + 1;
        within := 0;
      }
      r := Some(written);
    }

    /** Reads from `offset` bytes into a file, as much as fits or as there is: exactly the
        matching stretch of what `ReadFile` gives, whenever that gives anything. On any table it
        answers exactly when the table leads to the bytes asked for, and with those bytes. */
    method ReadAt(entry: Dir.DirectoryEntry, offset: U32, into: array<Byte>) returns (r: Result<nat, VolumeError>)
      requires Valid()
      modifies into
      ensures offset >= entry.size || into.Length == 0 ==> r == Ok(0)
      ensures r.Ok? ==> r.value <= into.Length && (r.value == 0 <==> offset >= entry.size || into.Length == 0)
      ensures r.Ok? ==> into[r.value..] == old(into[r.value..])
      ensures r.Ok? && r.value > 0 ==>
                && offset + r.value == Min(entry.size, offset + into.Length)
                && FileBytes(boot, disk, entry.firstCluster, offset + r.value).Some?
                && into[..r.value] == FileBytes(boot, disk, entry.firstCluster, offset + r.value).value[offset..]
      ensures FileBytes(boot, disk, entry.firstCluster, Min(entry.size, offset + into.Length)).Some? ==>
                r.Ok? || r == Err(DeviceRead)
      ensures FileBytes(boot, disk, entry.firstCluster, entry.size).Some? ==>
                || r == Err(DeviceRead)
                || (r.Ok?
                    && into[..r.value]
                       == Slice(FileBytes(boot, disk, entry.firstCluster, entry.size).value, offset, into.Length))
      ensures r == Err(ChainLoops) ==>
                Revisits(boot, disk, entry.firstCluster) || LeavesVolume(boot, disk, entry.firstCluster)
      ensures r == Err(DeviceRead) ==> faulty != {}
    {
      hide Walk, SectorsOf, BytesOf, FileBytes, Latest, Revisits, LeavesVolume;
      if offset >= entry.size {
        return Ok(0);
      }
      var want := Min(entry.size - offset, into.Length);
      if want == 0 {
        return Ok(0);
      }
      if FileBytes(boot, disk, entry.firstCluster, entry.size).Some? {
        FileBytesPrefix(boot, disk, entry.firstCluster, entry.size, offset + want);
      }
      r := ReadStretch(entry.(size := offset + want), offset, into, want);
    }

    /** Reads the bytes of a file from `offset` up to its end. */
    method ReadStretch(entry: Dir.DirectoryEntry, offset: U32, into: array<Byte>, want: nat)
      returns (r: Result<nat, VolumeError>)
      requires Valid() && 0 < want <= into.Length && offset + want == entry.size
      modifies into
      ensures r.Ok? ==> r.value == want && into[want..] == old(into[want..])
      ensures r.Ok? ==> FileBytes(boot, disk, entry.firstCluster, entry.size).Some?
      ensures FileBytes(boot, disk, entry.firstCluster, entry.size).Some? ==>
                var bytes := FileBytes(boot, disk, entry.firstCluster, entry.size).value;
                r == Err(DeviceRead) || (r.Ok? && into[..want] == bytes[offset..])
      ensures r == Err(ChainLoops) ==>
                Revisits(boot, disk, entry.firstCluster) || LeavesVolume(boot, disk, entry.firstCluster)
      ensures r == Err(DeviceRead) ==> faulty != {}
    {
      hide Walk, SectorsOf, BytesOf, FileBytes, Latest, Revisits, LeavesVolume, EntryOf, ClustersFor, OnDisk, Times;
      ghost var known := FileBytes(boot, disk, entry.firstCluster, entry.size).Some?;
      ghost var file, sectors, bytes := FileOf(entry);
      var k, inside := Split(offset, boot.sectorsPerCluster * SECTOR_BYTES);
      ghost var done;
      var walk;
      walk, done := WalkTo(entry.firstCluster, k, file);
      if known {
        ReachesOffset(boot, entry.size, offset, k, |file|);
      }
      if walk.Err? {
        return Err(walk.error);
      }
      r := ReadFrom(entry, walk.value.0, k, inside, offset, into, want, known, file, sectors, bytes, done);
      if known {
        assert bytes[offset..offset + want] == bytes[offset..];
      }
    }

    /** The rest of it, from byte `inside` of cluster `at` of the chain on. */
    method ReadFrom(entry: Dir.DirectoryEntry, start: U32, at: nat, inside': nat, offset: U32, into: array<Byte>,
                    want: nat,
                    ghost known: bool, ghost file: seq<nat>, ghost sectors: seq<nat>, ghost bytes: seq<Byte>,
                    ghost passed: seq<nat>)
      returns (r: Result<nat, VolumeError>)
      requires Valid() && 0 < want <= into.Length && offset + want == entry.size
      requires inside' < boot.sectorsPerCluster * SECTOR_BYTES
      requires Times(at, boot.sectorsPerCluster * SECTOR_BYTES) + inside' == offset
      requires |passed| == at <= boot.clusters && Reached(entry.firstCluster, passed, start)
      requires known ==> ReadableAs(entry, file, sectors, bytes) && |bytes| == entry.size
      requires known ==> at < |file| && start == file[at]
      modifies into
      ensures r.Ok? ==> r.value == want && into[want..] == old(into[want..])
      ensures r.Ok? ==> FileBytes(boot, disk, entry.firstCluster, entry.size).Some?
      ensures known ==> r == Err(DeviceRead) || (r.Ok? && into[..want] == bytes[offset..offset + want])
      ensures r == Err(ChainLoops) ==> Revisits(boot, disk, entry.firstCluster)
      ensures r == Err(DeviceRead) ==> faulty != {}
    {
      hide Walk, EntryOf, FileBytes, ReadableAs, Revisits;
      var cluster, seen, inside, written := start, at, inside', 0;
      ghost var done := passed;
      while written < want
        invariant written < want && 0 <= inside < boot.sectorsPerCluster * SECTOR_BYTES
        invariant at <= seen == |done| <= boot.clusters && Reached(entry.firstCluster, done, cluster)
        invariant Times(seen, boot.sectorsPerCluster * SECTOR_BYTES) + inside == offset + written
        invariant known ==> seen < |file| && cluster == file[seen]
        invariant known ==> into[..written] == bytes[offset..offset + written]
        invariant into[want..] == old(into[want..])
        decreases want - written
      {
        var read := ReadPart(entry, cluster, seen, inside, offset, into, written, want, known, file, sectors, bytes);
        if read.Err? {
          return Err(read.error);
        }
        WalkExtends(boot, disk, entry.firstCluster, done, cluster);
        if read.value == want {
          WalkIsFile(boot, disk, entry.firstCluster, done + [cluster], entry.size);
          written := want;
          break;
        }
        inside, written := 0, read.value;
        if known {
          FileGoesOn(entry, file, sectors, bytes, seen, offset + written);
        }
        done := done + [cluster];
        seen := seen + 1;
        var next := Onward(entry.firstCluster, cluster, seen, done);
        if next.Err? {
          return Err(next.error);
        }
        cluster := next.value;
      }
      r := Ok(written);
    }

    /** What one cluster of a file holds of the bytes that are wanted. */
    method ReadPart(entry: Dir.DirectoryEntry, cluster: U32, ghost seen: nat, inside: nat, ghost offset: nat,
                    into: array<Byte>, written: nat, want: nat,
                    ghost known: bool, ghost file: seq<nat>, ghost sectors: seq<nat>, ghost bytes: seq<Byte>)
      returns (r: Result<nat, VolumeError>)
      requires Valid() && written < want <= into.Length && offset + want == entry.size
      requires inside < boot.sectorsPerCluster * SECTOR_BYTES
      requires Times(seen, boot.sectorsPerCluster * SECTOR_BYTES) + inside == offset + written
      requires known ==> ReadableAs(entry, file, sectors, bytes) && |bytes| == entry.size
      requires known ==> seen < |file| && cluster == file[seen] && into[..written] == bytes[offset..offset + written]
      modifies into
      ensures r.Ok? ==> boot.InRange(cluster)
      ensures r.Ok? ==> r.value == Min(want, written + (SECTOR_BYTES * boot.sectorsPerCluster - inside))
      ensures r.Ok? && known ==> into[..r.value] == bytes[offset..offset + r.value]
      ensures r.Err? ==> r.error == DeviceRead || (r.error == BadCluster(cluster) && !known)
      ensures into[want..] == old(into[want..])
      ensures r == Err(DeviceRead) ==> faulty != {}
    {
      hide Walk, SectorsOf, BytesOf, ClustersFor;
      var first := boot.SectorOfCluster(cluster);
      if first.None? {
        return Err(BadCluster(cluster));
      }
      if known {
        ClusterBegins(boot, file, seen, first.value);
      }
      TimesOfBytes(seen, boot.sectorsPerCluster);
      var read := ReadWithin(first.value, inside, into, written, want, known, bytes, offset, sectors,
                             Times(seen, boot.sectorsPerCluster));
      r := if read.None? then Err(DeviceRead) else Ok(read.value);
    }

    /** A file that has more bytes has another cluster, and the table leads to it. */
    lemma {:induction false} FileGoesOn(entry: Dir.DirectoryEntry, file: seq<nat>, sectors: seq<nat>, bytes: seq<Byte>,
                                        seen: nat, position: nat)
      requires Valid() && ReadableAs(entry, file, sectors, bytes) && seen < |file| && boot.InRange(file[seen])
      requires Times(seen + 1, boot.sectorsPerCluster * SECTOR_BYTES) <= position < entry.size
      ensures seen + 1 < |file| <= boot.clusters + 1 && EntryOf(boot, disk, file[seen]) == Next(file[seen + 1])
    {
      hide SectorsOf, BytesOf, OnDisk;
      ReachesOffset(boot, entry.size, position, seen + 1, |file|);
      WalkStep(boot, disk, entry.firstCluster, file, seen);
    }

    /** The cluster after the `seen` that a reader has been through. */
    method Onward(ghost first: nat, cluster: U32, seen: nat, ghost done: seq<nat>) returns (r: Result<U32, VolumeError>)
      requires Valid() && 0 < seen == |done| <= boot.clusters + 1 && boot.InRange(cluster)
      requires Walk(boot, disk, first, |done|) == Some(done) && done[seen - 1] == cluster
      ensures r.Ok? ==>
                seen <= boot.clusters && EntryOf(boot, disk, cluster) == Next(r.value) && Reached(first, done, r.value)
      ensures r.Err? && r.error != DeviceRead ==> seen > boot.clusters || !EntryOf(boot, disk, cluster).Next?
      ensures r == Err(ChainLoops) ==> Revisits(boot, disk, first)
      ensures r == Err(DeviceRead) ==> faulty != {}
    {
      hide Walk, EntryOf, Revisits;
      if seen > boot.clusters {
        WalkTooLong(boot, disk, first, done);
        return Err(ChainLoops);
      }
      var next := NextCluster(cluster);
      if next.Err? {
        return Err(next.error);
      }
      if !next.value.Next? {
        return Err(BrokenChain(cluster, next.value));
      }
      r := Ok(next.value.cluster);
    }

    /** `file` is the clusters, `sectors` the sectors and `bytes` the bytes of `entry`. */
    ghost predicate ReadableAs(entry: Dir.DirectoryEntry, file: seq<nat>, sectors: seq<nat>, bytes: seq<Byte>)
      requires Valid()
      reads this
    {
      && |file| <= boot.clusters + 1 && Walk(boot, disk, entry.firstCluster, |file|) == Some(file)
      && |file| == ClustersFor(boot, entry.size) && sectors == SectorsOf(boot, file) && OnDisk(disk, sectors)
      && |bytes| == entry.size && |bytes| <= SECTOR_BYTES * |sectors| && bytes == BytesOf(disk, sectors, |bytes|)
    }

    /** The clusters, sectors and bytes of a file that can be read. */
    ghost method FileOf(entry: Dir.DirectoryEntry) returns (file: seq<nat>, sectors: seq<nat>, bytes: seq<Byte>)
      requires Valid()
      ensures Walk(boot, disk, entry.firstCluster, |file|) == Some(file) && |file| <= boot.clusters + 1
      ensures FileBytes(boot, disk, entry.firstCluster, entry.size).Some? ==>
                && ReadableAs(entry, file, sectors, bytes)
                && bytes == FileBytes(boot, disk, entry.firstCluster, entry.size).value
    {
      file, sectors, bytes := [], [], [];
      if FileBytes(boot, disk, entry.firstCluster, entry.size).Some? {
        file := Walk(boot, disk, entry.firstCluster, ClustersFor(boot, entry.size)).value;
        sectors := SectorsOf(boot, file);
        bytes := FileBytes(boot, disk, entry.firstCluster, entry.size).value;
      }
    }

    // -------------------------------------------------------------------
    // Writing
    // -------------------------------------------------------------------

    method WriteSector(sector: U32, bytes: Sector) returns (ok: bool)
      requires Valid() && sector < boot.totalSectors
      modifies this
      ensures Valid()
      ensures ok ==> disk == old(disk)[sector := bytes] && history == old(history) + [disk]
      ensures !ok ==> disk == old(disk) && history == old(history) && sector in faulty
    {
      if sector in faulty {
        if * { return false; }
      }
      disk := disk[sector := bytes];
      history := history + [disk];
      ok := true;
    }

    /** Writes one entry of the table, in every copy of it. */
    method SetNextCluster(cluster: U32, entry: U32) returns (r: Result<(), WriteError>)
      requires Valid()
      modifies this
      ensures Valid() && |disk| == |old(disk)| && ReservedSame(boot, old(disk), disk)
      ensures !boot.InRange(cluster) ==> r == Err(Reading(BadCluster(cluster)))
      ensures Kept(boot, old(history), old(disk), history, disk, {}, {cluster})
      ensures r.Ok? ==> boot.InRange(cluster) && LinkedAs(boot, disk, cluster, entry)
      // The top four bits of an entry are not this code's, and stay.
      ensures boot.InRange(cluster) ==> forall t: nat | t < boot.fatCount ::
                RawEntry(boot, disk, t, cluster) / ENTRY_MODULUS
                  == RawEntry(boot, old(disk), t, cluster) / ENTRY_MODULUS
      ensures r.Err? && boot.InRange(cluster) ==> r.error == Reading(DeviceRead) || r.error == DeviceWrite
      ensures r == Err(Reading(DeviceRead)) || r == Err(DeviceWrite) ==> faulty != {}
    {
      hide Only, Kept, RawEntry, Latest;
      KeptNothing(boot, history, disk, {}, {cluster as nat});
      if cluster < FIRST_DATA_CLUSTER || cluster >= FIRST_DATA_CLUSTER + boot.clusters {
        return Err(Reading(BadCluster(cluster)));
      }
      var table := 0;
      while table < boot.fatCount
        invariant 0 <= table <= boot.fatCount && Valid() && |disk| == |old(disk)| && ReservedSame(boot, old(disk), disk)
        invariant Kept(boot, old(history), old(disk), history, disk, {}, {cluster})
        invariant forall t: nat | t < table :: RawEntry(boot, disk, t, cluster) % ENTRY_MODULUS == entry % ENTRY_MODULUS
        invariant forall t: nat | t < boot.fatCount ::
                    RawEntry(boot, disk, t, cluster) / ENTRY_MODULUS
                    == RawEntry(boot, old(disk), t, cluster) / ENTRY_MODULUS
      {
        var sector := boot.TableSector(table, cluster);
        var bytes := ReadSector(sector);
        if bytes.None? {
          return Err(Reading(DeviceRead));
        }
        ghost var before, log := disk, history;
        WriteTableEntry(boot, disk, table, cluster, entry);
        var ok := WriteSector(sector, WithEntry(bytes.value, cluster, entry));
        if !ok {
          return Err(DeviceWrite);
        }
        KeptOne(boot, log, before, disk, {}, {cluster as nat});
        KeptThen(boot, old(history), old(disk), log, before, history, disk, {}, {cluster as nat}, {}, {cluster as nat});
        table := table + 1;
      }
      r := Ok(());
    }

    /** The first `count` free clusters, from the start of the table. Nothing is written. */
    method FreeClusters(count: nat) returns (r: Result<seq<nat>, WriteError>)
      requires Valid()
      ensures count > MAX_FILE_CLUSTERS ==> r == Err(TooManyClusters(count))
      ensures r.Ok? ==>
                && |r.value| == count && AllInRange(boot, r.value) && Distinct(r.value)
                && Members(r.value) <= FreeSet(boot, disk)
                && forall c, i | c in FreeSet(boot, disk) && 0 <= i < count && c < r.value[i] :: c in Members(r.value)
      ensures r.Err? && count <= MAX_FILE_CLUSTERS ==>
                r.error == Reading(DeviceRead)
                  || (r.error == Full(count, |FreeSet(boot, disk)|) && |FreeSet(boot, disk)| < count)
      ensures r == Err(Reading(DeviceRead)) || r == Err(DeviceWrite) ==> faulty != {}
    {
      hide EntryOf, FreeSet, Latest;
      if count > MAX_FILE_CLUSTERS {
        return Err(TooManyClusters(count));
      }
      var found: seq<nat> := [];
      var cluster: U32 := FIRST_DATA_CLUSTER;
      FreeBelowEnds(boot, disk);
      while |found| < count && cluster < FIRST_DATA_CLUSTER + boot.clusters
        invariant |found| <= count && FIRST_DATA_CLUSTER <= cluster <= FIRST_DATA_CLUSTER + boot.clusters
        invariant Members(found) == FreeBelow(boot, disk, cluster)
        invariant AllInRange(boot, found) && Distinct(found)
        invariant forall i | 0 <= i < |found| :: found[i] < cluster
      {
        var next := NextCluster(cluster);
        if next.Err? {
          return Err(Reading(next.error));
        }
        FreeBelowStep(boot, disk, cluster);
        if next.value == Free {
          MembersGrow(found, cluster);
          found := found + [cluster];
        }
        cluster := cluster + 1;
      }
      MembersSize(found);
      if |found| < count {
        return Err(Full(count, |found|));
      }
      r := Ok(found);
    }

    /** What of `contents` goes into cluster `index` of `chain`. */
    method WriteCluster(first: U32, start: nat, contents: seq<Byte>, ghost chain: seq<nat>, ghost index: nat)
      returns (ok: bool)
      requires start == Times(index, boot.sectorsPerCluster) * SECTOR_BYTES
      requires Valid() && AllInRange(boot, chain) && Distinct(chain) && index < |chain|
      requires first == boot.DataSector(chain[index], 0)
      requires HoldsChunks(disk, SectorsOf(boot, chain), contents, Times(index, boot.sectorsPerCluster))
      modifies this
      ensures Valid() && |disk| == |old(disk)| && ReservedSame(boot, old(disk), disk)
      ensures Kept(boot, old(history), old(disk), history, disk, Members(chain), {})
      ensures ok ==> HoldsChunks(disk, SectorsOf(boot, chain), contents, Times(index + 1, boot.sectorsPerCluster))
      ensures !ok ==> faulty != {}
    {
      hide Only, Kept, SectorsOf, Chunk, Members, Latest;
      ghost var sectors := SectorsOf(boot, chain);
      ghost var q0 := Times(index, boot.sectorsPerCluster);
      SectorsOfDistinct(boot, chain);
      ClusterOfChain(boot, chain, index);
      KeptNothing(boot, history, disk, Members(chain), {});
      var offset := 0;
      while offset < boot.sectorsPerCluster
        invariant 0 <= offset <= boot.sectorsPerCluster && Valid() && |disk| == |old(disk)|
        invariant ReservedSame(boot, old(disk), disk)
        invariant Kept(boot, old(history), old(disk), history, disk, Members(chain), {})
        invariant HoldsChunks(disk, sectors, contents, q0 + offset)
      {
        var at: nat := start + offset * SECTOR_BYTES;
        if at >= |contents| {
          break;
        }
        var taking := Min(|contents| - at, SECTOR_BYTES);
        var bytes: Sector := contents[at..at + taking] + seq(SECTOR_BYTES - taking, _ => 0);
        ChunkIs(contents, q0 + offset, taking);
        ghost var before, log := disk, history;
        assert sectors[q0 + offset] == first + offset == boot.DataSector(chain[index], offset);
        WriteDataSector(boot, disk, chain[index], offset, bytes);
        ok := WriteSector(first + offset, bytes);
        if !ok {
          return false;
        }
        InMembers(chain, index);
        OnlyWider(boot, before, disk, {chain[index]}, {}, Members(chain), {});
        KeptOne(boot, log, before, disk, Members(chain), {});
        KeptThen(boot, old(history), old(disk), log, before, history, disk, Members(chain), {}, Members(chain), {});
        ChunkWritten(before, sectors, contents, q0 + offset);
        offset := offset + 1;
      }
      ok := true;
    }

    method ClusterStart(index: nat) returns (start: nat)
      requires Valid()
      ensures start == Times(index, boot.sectorsPerCluster) * SECTOR_BYTES
    {
      TimesIsProduct(index, boot.ClusterBytes());
      TimesOfBytes(index, boot.sectorsPerCluster);
      start := index * boot.ClusterBytes();
    }

    /** Writes `contents` into the clusters of `chain`, zeroing the rest of the last sector. */
    method WriteClusters(chain: seq<nat>, contents: seq<Byte>) returns (r: Result<(), WriteError>)
      requires Valid() && AllInRange(boot, chain) && Distinct(chain)
      modifies this
      ensures Valid() && |disk| == |old(disk)| && ReservedSame(boot, old(disk), disk)
      ensures Kept(boot, old(history), old(disk), history, disk, Members(chain), {})
      ensures r.Err? ==> r.error == DeviceWrite
      ensures r.Ok? ==> HoldsChunks(disk, SectorsOf(boot, chain), contents, |SectorsOf(boot, chain)|)
      ensures r == Err(Reading(DeviceRead)) || r == Err(DeviceWrite) ==> faulty != {}
    {
      hide Only, Kept, SectorsOf, Chunk, Members, Latest;
      KeptNothing(boot, history, disk, Members(chain), {});
      var index := 0;
      while index < |chain|
        invariant index <= |chain| && Valid() && |disk| == |old(disk)| && ReservedSame(boot, old(disk), disk)
        invariant Kept(boot, old(history), old(disk), history, disk, Members(chain), {})
        invariant HoldsChunks(disk, SectorsOf(boot, chain), contents, Times(index, boot.sectorsPerCluster))
      {
        var first := boot.SectorOfCluster(chain[index]);
        ghost var before, log := disk, history;
        var start := ClusterStart(index);
        var ok := WriteCluster(first.value, start, contents, chain, index);
        KeptThen(boot, old(history), old(disk), log, before, history, disk, Members(chain), {}, Members(chain), {});
        if !ok {
          return Err(DeviceWrite);
        }
        index := index + 1;
      }
      r := Ok(());
    }

    /** Links the clusters of `chain` one to the next, the last to an end mark. */
    method LinkChain(chain: seq<nat>) returns (r: Result<(), WriteError>)
      requires Valid() && AllInRange(boot, chain) && Distinct(chain)
      modifies this
      ensures Valid() && |disk| == |old(disk)| && ReservedSame(boot, old(disk), disk)
      ensures Kept(boot, old(history), old(disk), history, disk, {}, Members(chain))
      ensures r.Err? ==> r.error == Reading(DeviceRead) || r.error == DeviceWrite
      ensures r.Ok? && chain != [] && boot.clusters + FIRST_DATA_CLUSTER <= 0x0FFF_FFF7 ==>
                IsChain(boot, disk, chain[0], chain)
      ensures r.Ok? ==> forall c, t: nat | c in Members(chain) && t < boot.fatCount ::
                RawEntry(boot, disk, t, c) % ENTRY_MODULUS == RawEntry(boot, disk, 0, c) % ENTRY_MODULUS
      ensures r == Err(Reading(DeviceRead)) || r == Err(DeviceWrite) ==> faulty != {}
    {
      hide Only, Kept, RawEntry, Members, Latest;
      KeptNothing(boot, history, disk, {}, Members(chain));
      var index := 0;
      while index < |chain|
        invariant index <= |chain| && Valid() && |disk| == |old(disk)| && ReservedSame(boot, old(disk), disk)
        invariant Kept(boot, old(history), old(disk), history, disk, {}, Members(chain))
        invariant forall i | 0 <= i < index :: LinkedAs(boot, disk, chain[i], LinkOf(chain, i))
      {
        var next: U32 := if index + 1 < |chain| then chain[index + 1] else END_OF_CHAIN;
        ghost var before, log := disk, history;
        r := SetNextCluster(chain[index], next);
        InMembers(chain, index);
        KeptWider(boot, log, before, history, disk, {}, {chain[index]}, {}, Members(chain));
        KeptThen(boot, old(history), old(disk), log, before, history, disk, {}, Members(chain), {}, Members(chain));
        if r.Err? {
          return;
        }
        forall i | 0 <= i < index ensures LinkedAs(boot, disk, chain[i], LinkOf(chain, i)) {
          KeptLink(boot, log, before, history, disk, chain[index], chain[i], LinkOf(chain, i));
        }
        index := index + 1;
      }
      LinkedIsChain(boot, disk, chain);
      r := Ok(());
    }

    /** Looks through the slots of one sector for `encoded`, or for where it would go. */
    method SearchSector(bytes: Sector, sector: U32, encoded: seq<Byte>, free0: Option<Place>,
                        ghost known: bool, ghost sectors: seq<nat>, ghost q: nat, ghost freeAt0: nat)
      returns (hit: Option<(Place, Option<Dir.DirectoryEntry>)>, free: Option<Place>, ghost j: nat, ghost freeAt: nat)
      requires sector < boot.totalSectors && (free0.Some? ==> InsideVolume(boot, free0.value))
      ensures (free.Some? ==> InsideVolume(boot, free.value)) && (hit.Some? ==> InsideVolume(boot, hit.value.0))
      requires known ==> OnDisk(disk, sectors) && q < |sectors| && sectors[q] == sector && disk[sector] == bytes
      requires known ==> Searched(disk, sectors, encoded, SLOTS_PER_SECTOR * q, free0, freeAt0)
      ensures known && hit.None? ==>
                Searched(disk, sectors, encoded, SLOTS_PER_SECTOR * q + SLOTS_PER_SECTOR, free, freeAt)
      ensures known && hit.Some? ==>
                Chosen(disk, sectors, encoded, j, hit.value.1) && hit.value.0 == PlaceOf(sectors, j)
    {
      hide Dir.SlotOf, Dir.EqualIgnoringCase, Chosen, Latest;
      hit, free, j, freeAt := None, free0, 0, freeAt0;
      var index := 0;
      while index < SLOTS_PER_SECTOR
        invariant index <= SLOTS_PER_SECTOR && (free.Some? ==> InsideVolume(boot, free.value))
        invariant known ==> Searched(disk, sectors, encoded, SLOTS_PER_SECTOR * q + index, free, freeAt)
      {
        var bytes' := SlotIn(bytes, index);
        var at := 32 * index;
        var slot := Dir.DecodeSlot(bytes');
        ghost var i := SLOTS_PER_SECTOR * q + index;
        assert known ==> SlotBytesAt(disk, sectors, i) == bytes' && PlaceOf(sectors, i) == (sector, at);
        match slot {
          case Entry(entry) =>
            if Dir.EqualIgnoringCase(bytes'[..11], encoded) {
              if known {
                MatchIsChosen(disk, sectors, encoded, i, free, freeAt);
              }
              hit, j := Some(((sector, at), Some(entry))), i;
              return;
            }
            EntryNotDeleted(bytes');
          case Skip =>
            if free.None? && bytes'[0] == Dir.DELETED {
              free, freeAt := Some((sector, at)), i;
            }
          case End =>
            if known {
              SearchedIsChosen(disk, sectors, encoded, i, free, freeAt);
            }
            j := if free.Some? then freeAt else i;
            hit := Some((if free.Some? then free.value else (sector, at), None));
            return;
        }
        index := index + 1;
      }
    }

    method SearchCluster(first: U32, encoded: seq<Byte>, free0: Option<Place>,
                         ghost known: bool, ghost sectors: seq<nat>, ghost q: nat, ghost freeAt0: nat)
      returns (ok: bool, hit: Option<(Place, Option<Dir.DirectoryEntry>)>, free: Option<Place>, ghost j: nat,
               ghost freeAt: nat)
      requires Valid() && first + boot.sectorsPerCluster <= boot.totalSectors
      requires free0.Some? ==> InsideVolume(boot, free0.value)
      ensures (free.Some? ==> InsideVolume(boot, free.value)) && (hit.Some? ==> InsideVolume(boot, hit.value.0))
      requires known ==> OnDisk(disk, sectors) && q + boot.sectorsPerCluster <= |sectors|
      requires known ==> forall i | q <= i < q + boot.sectorsPerCluster :: sectors[i] == first + (i - q)
      requires known ==> Searched(disk, sectors, encoded, SLOTS_PER_SECTOR * q, free0, freeAt0)
      ensures ok && known && hit.None? ==>
                Searched(disk, sectors, encoded, SLOTS_PER_SECTOR * (q + boot.sectorsPerCluster), free, freeAt)
      ensures ok && known && hit.Some? ==>
                Chosen(disk, sectors, encoded, j, hit.value.1) && hit.value.0 == PlaceOf(sectors, j)
      ensures !ok ==> faulty != {}
    {
      hide Chosen, Searched, Latest;
      ok, hit, free, j, freeAt := true, None, free0, 0, freeAt0;
      var offset := 0;
      while offset < boot.sectorsPerCluster
        invariant 0 <= offset <= boot.sectorsPerCluster && ok && hit.None?
        invariant (free.Some? ==> InsideVolume(boot, free.value))
        invariant known ==> Searched(disk, sectors, encoded, SLOTS_PER_SECTOR * (q + offset), free, freeAt)
      {
        var sector: U32 := first + offset;
        var bytes := ReadSector(sector);
        if bytes.None? {
          ok := false;
          return;
        }
        assert known ==> sectors[q + offset] == sector;
        hit, free, j, freeAt := SearchSector(bytes.value, sector, encoded, free, known, sectors, q + offset, freeAt);
        if hit.Some? {
          return;
        }
        offset := offset + 1;
      }
    }

    /** Where the entry stored as `encoded` is in the root, or where a new one would go. */
    method DirectorySlot(encoded: seq<Byte>)
      returns (r: Result<(Place, Option<Dir.DirectoryEntry>), WriteError>, ghost j: nat)
      requires Valid()
      ensures RootSectors(boot, disk).Some? ==> var sectors := RootSectors(boot, disk).value;
                && (r.Ok? ==> Chosen(disk, sectors, encoded, j, r.value.1) && r.value.0 == PlaceOf(sectors, j))
                && (r.Err? ==>
                      r.error == Reading(DeviceRead) || (r.error == DirectoryFull && NoRoom(disk, sectors, encoded)))
      ensures r == Err(Reading(ChainLoops)) ==> Revisits(boot, disk, boot.rootCluster)
      ensures r.Ok? ==> InsideVolume(boot, r.value.0)
      ensures r.Err? ==> r.error.Reading? || r.error == DirectoryFull
      ensures r == Err(Reading(DeviceRead)) || r == Err(DeviceWrite) ==> faulty != {}
    {
      hide SectorsOf, Chosen, Searched, ChainFrom, EntryOf, Latest;
      var cluster, seen := boot.rootCluster, 0;
      var free: Option<Place> := None;
      ghost var freeAt := 0;
      ghost var done: seq<nat> := [];
      ghost var known := RootSectors(boot, disk).Some?;
      ghost var chain, sectors := RootChain();
      SearchedNothing(disk, sectors, encoded);
      j := 0;
      while true
        invariant seen == |done| <= boot.clusters && (free.Some? ==> InsideVolume(boot, free.value))
        invariant Reached(boot.rootCluster, done, cluster)
        invariant known ==> |done| < |chain| && chain[|done|] == cluster
        invariant known ==>
                    Searched(disk, sectors, encoded, SLOTS_PER_SECTOR * Times(|done|, boot.sectorsPerCluster), free,
                             freeAt)
        decreases boot.clusters - seen
      {
        var first := boot.SectorOfCluster(cluster);
        if first.None? {
          return Err(Reading(BadCluster(cluster))), j;
        }
        if known {
          ClusterOfChain(boot, chain, |done|);
        }
        var ok, hit;
        ok, hit, free, j, freeAt := SearchCluster(first.value, encoded, free, known, sectors,
                                                  Times(|done|, boot.sectorsPerCluster), freeAt);
        if !ok {
          return Err(Reading(DeviceRead)), j;
        }
        if hit.Some? {
          return Ok(hit.value), j;
        }
        WalkExtends(boot, disk, boot.rootCluster, done, cluster);
        done := done + [cluster];
        seen := seen + 1;
        if seen > boot.clusters {
          WalkTooLong(boot, disk, boot.rootCluster, done);
          return Err(Reading(ChainLoops)), j;
        }
        var next := NextCluster(cluster);
        if next.Err? {
          return Err(Reading(next.error)), j;
        }
        if known && |done| < |chain| {
          WalkStep(boot, disk, boot.rootCluster, chain, |done| - 1);
        }
        if !next.value.Next? {
          break;
        }
        cluster := next.value.cluster;
      }
      if known {
        SearchOver(disk, sectors, encoded, free, freeAt);
      }
      if free.Some? {
        return Ok((free.value, None)), freeAt;
      }
      r := Err(DirectoryFull);
    }

    /** Marks the clusters of a chain free, except from the first one `keep` is using or that
        is free already. On any table whatever, it is never the loop check that stops it. */
    method FreeChain(first: U32, keep: seq<nat>) returns (r: Result<(), WriteError>, ghost freed: seq<nat>)
      requires Valid()
      modifies this
      ensures Valid() && |disk| == |old(disk)| && ReservedSame(boot, old(disk), disk)
      ensures Kept(boot, old(history), old(disk), history, disk, {}, Members(freed))
      ensures Walk(boot, old(disk), first, |freed|) == Some(freed) && Distinct(freed)
      ensures forall i | 0 <= i < |freed| :: freed[i] !in keep && EntryOf(boot, old(disk), freed[i]) != Free
      ensures r != Err(Reading(ChainLoops)) && (r.Err? ==> r.error.Reading? || r.error.DeviceWrite?)
      ensures r.Err? ==> faulty != {} || LeadsOut(boot, old(disk), first, freed)
      ensures r.Ok? ==>
                && (forall i | 0 <= i < |freed| :: LinkedAs(boot, disk, freed[i], 0))
                && StopsAfter(boot, old(disk), first, freed, keep)
      ensures r == Err(Reading(DeviceRead)) || r == Err(DeviceWrite) ==> faulty != {}
    {
      hide Walk, EntryOf, RawEntry, Only, Kept, Members, Latest;
      var cluster, seen := first, 0;
      freed := [];
      WalkNothing(boot, disk, first);
      KeptNothing(boot, history, disk, {}, Members(freed));
      while true
        invariant Valid() && |disk| == |old(disk)| && ReservedSame(boot, old(disk), disk)
        invariant seen == |freed| <= boot.clusters
        invariant Kept(boot, old(history), old(disk), history, disk, {}, Members(freed))
        invariant Walk(boot, old(disk), first, |freed|) == Some(freed) && Distinct(freed)
        invariant freed == [] ==> cluster == first
        invariant freed != [] ==> EntryOf(boot, old(disk), freed[|freed| - 1]) == Next(cluster)
        invariant forall i | 0 <= i < |freed| :: freed[i] !in keep && EntryOf(boot, old(disk), freed[i]) != Free
        invariant forall i | 0 <= i < |freed| :: LinkedAs(boot, disk, freed[i], 0)
        decreases boot.clusters - seen
      {
        var next := NextCluster(cluster);
        if next.Err? {
          return Err(Reading(next.error)), freed;
        }
        FreedOrAsBefore(boot, old(history), old(disk), history, disk, freed, cluster);
        if next.value == Free || cluster as nat in keep {
          return Ok(()), freed;
        }
        ghost var before, log := disk, history;
        var set' := SetNextCluster(cluster, 0);
        WalkExtends(boot, old(disk), first, freed, cluster);
        MembersGrow(freed, cluster);
        ghost var freed' := freed + [cluster as nat];
        KeptWider(boot, old(history), old(disk), log, before, {}, Members(freed), {}, Members(freed'));
        KeptThen(boot, old(history), old(disk), log, before, history, disk, {}, Members(freed'), {}, {cluster as nat});
        forall i | 0 <= i < |freed| ensures LinkedAs(boot, disk, freed[i], 0) {
          KeptLink(boot, log, before, history, disk, cluster, freed[i], 0);
        }
        freed := freed';
        if set'.Err? {
          return set', freed;
        }
        seen := seen + 1;
        DistinctIsShort(boot, freed);
        if seen > boot.clusters {
          return Err(Reading(ChainLoops)), freed;
        }
        if !next.value.Next? {
          return Ok(()), freed;
        }
        cluster := next.value.cluster;
      }
    }

    /** Rewrites the FSInfo sector from what the table says, a sector of it at a time. A sector
        that is not an FSInfo one is left alone. */
    method UpdateFsInfo() returns (r: Result<(), WriteError>)
      requires Valid()
      modifies this
      ensures Valid() && |disk| == |old(disk)|
      ensures Kept(boot, old(history), old(disk), history, disk, {}, {})
      ensures r.Err? ==> r.error == Reading(DeviceRead) || r.error == DeviceWrite
      ensures !HasFsInfo(boot, old(disk)) ==> disk == old(disk)
      ensures r.Ok? && HasFsInfo(boot, old(disk)) ==> HasFsInfo(boot, disk) && FsInfoTrue(boot, disk)
      ensures OnlyCounts(boot, old(disk), disk)
      ensures r == Err(Reading(DeviceRead)) || r == Err(DeviceWrite) ==> faulty != {}
    {
      assert OnlyCounts(boot, disk, disk);
      hide Only, Kept, EntryOf, RawEntry, FreeSet, Latest, OnlyCounts;
      KeptNothing(boot, history, disk, {}, {});
      var sector: U32 := boot.fsInfoSector;
      if sector == 0 || sector >= boot.reservedSectors {
        return Ok(());
      }
      TablesFit(boot);
      var bytes := ReadSector(sector);
      if bytes.None? {
        return Err(Reading(DeviceRead));
      }
      if U32At(bytes.value, 0) != FS_INFO_LEAD || U32At(bytes.value, 484) != FS_INFO_STRUCTURE {
        return Ok(());
      }
      var count := CountFree();
      if count.None? {
        return Err(Reading(DeviceRead));
      }
      var new' := WithCounts(bytes.value, count.value.0, count.value.1);
      ghost var before := disk;
      WriteFsInfo(boot, disk, new');
      CountsWritten(boot, disk, count.value.0, count.value.1);
      var ok := WriteSector(sector, new');
      if !ok {
        return Err(DeviceWrite);
      }
      KeptOne(boot, old(history), before, disk, {}, {});
      SameFreeSet(boot, before, disk);
      WithCountsFields(bytes.value, count.value.0, count.value.1);
      r := Ok(());
    }

    /** How many clusters are free and which is the lowest, looking at each sector of the
        table once. */
    method CountFree() returns (r: Option<(U32, U32)>)
      requires Valid()
      ensures r.Some? ==> r.value.0 == |FreeSet(boot, disk)| && IsLowest(FreeSet(boot, disk), r.value.1)
      ensures r.None? ==> faulty != {}
    {
      hide EntryOf, RawEntry, FreeSet, Latest;
      var last: U32 := FIRST_DATA_CLUSTER + boot.clusters - 1;
      var free: U32, firstFree: U32 := 0, 0;
      FreeBelowEnds(boot, disk);
      var sector := FIRST_DATA_CLUSTER / ENTRIES_PER_SECTOR;
      while sector <= last / ENTRIES_PER_SECTOR
        invariant 0 <= sector <= last / ENTRIES_PER_SECTOR + 1
        invariant Counted(boot, disk, Clamp(boot, sector * ENTRIES_PER_SECTOR), free, firstFree)
      {
        TableSectorOf(boot, sector);
        var bytes := ReadSector(boot.FirstFatSector() + sector);
        if bytes.None? {
          return None;
        }
        free, firstFree := CountSector(sector, last, bytes.value, free, firstFree);
        sector := sector + 1;
      }
      r := Some((free, firstFree));
    }

    /** Counts on through one sector of the table. */
    method CountSector(sector: nat, last: U32, bytes: Sector, before: U32, firstBefore: U32)
      returns (free: U32, firstFree: U32)
      requires Valid() && last == FIRST_DATA_CLUSTER + boot.clusters - 1 && sector <= last / ENTRIES_PER_SECTOR
      requires boot.FirstFatSector() + sector < |disk| && bytes == disk[boot.FirstFatSector() + sector]
      requires Counted(boot, disk, Clamp(boot, sector * ENTRIES_PER_SECTOR), before, firstBefore)
      ensures Counted(boot, disk, Clamp(boot, (sector + 1) * ENTRIES_PER_SECTOR), free, firstFree)
    {
      hide EntryOf, RawEntry, FreeBelow, IsLowest, U32At;
      free, firstFree := before, firstBefore;
      var at := 0;
      while at < ENTRIES_PER_SECTOR
        invariant 0 <= at <= ENTRIES_PER_SECTOR
        invariant Counted(boot, disk, Clamp(boot, sector * ENTRIES_PER_SECTOR + at), free, firstFree)
      {
        var cluster: U32 := sector * ENTRIES_PER_SECTOR + at;
        if FIRST_DATA_CLUSTER <= cluster <= last {
          CountedStep(boot, disk, cluster, free, firstFree, bytes);
          if U32At(bytes, 4 * at) % ENTRY_MODULUS == 0 {
            free := free + 1;
            if firstFree == 0 {
              firstFree := cluster;
            }
          }
        }
        at := at + 1;
      }
    }

    // -------------------------------------------------------------------
    // Replacing a file
    // -------------------------------------------------------------------

    method ClustersNeeded(size: nat) returns (needed: nat)
      requires Valid()
      ensures needed == ClustersFor(boot, size)
    {
      var perCluster: U32 := boot.ClusterBytes();
      var whole, rest := Split(size, perCluster);
      needed := if rest > 0 then whole + 1 else whole;
      TimesOfBytes(whole, boot.sectorsPerCluster);
      if needed > 0 {
        TimesOfBytes(needed - 1, boot.sectorsPerCluster);
        TimesOfBytes(needed, boot.sectorsPerCluster);
        ClustersForIs(boot, size, needed);
      }
    }

    /** The data, then the chain, in clusters nothing names. */
    method PutContents(chain: seq<nat>, contents: seq<Byte>) returns (r: Result<(), WriteError>)
      requires Valid() && AllInRange(boot, chain) && Distinct(chain)
      requires |chain| == ClustersFor(boot, |contents|) && |chain| <= MAX_FILE_CLUSTERS
      modifies this
      ensures Valid() && |disk| == |old(disk)| && ReservedSame(boot, old(disk), disk)
      ensures Kept(boot, old(history), old(disk), history, disk, Members(chain), Members(chain))
      ensures r.Err? ==> r.error == Reading(DeviceRead) || r.error == DeviceWrite
      ensures r.Ok? && boot.clusters + FIRST_DATA_CLUSTER <= 0x0FFF_FFF7 ==>
                && (chain != [] ==> IsChain(boot, disk, chain[0], chain))
                && FileBytes(boot, disk, First(chain), |contents|) == Some(contents)
      ensures r.Ok? ==> forall c, t: nat | c in Members(chain) && t < boot.fatCount ::
                RawEntry(boot, disk, t, c) % ENTRY_MODULUS == RawEntry(boot, disk, 0, c) % ENTRY_MODULUS
      ensures r == Err(Reading(DeviceRead)) || r == Err(DeviceWrite) ==> faulty != {}
    {
      hide Only, Kept, RawEntry, Members, SectorsOf, Walk, HoldsChunks, FileBytes, ClustersFor, Latest;
      r := WriteClusters(chain, contents);
      KeptWider(boot, old(history), old(disk), history, disk, Members(chain), {}, Members(chain), Members(chain));
      if r.Err? {
        return;
      }
      ghost var before, log := disk, history;
      r := LinkChain(chain);
      KeptThen(boot, old(history), old(disk), log, before, history, disk, Members(chain), Members(chain), {},
               Members(chain));
      if r.Ok? && boot.clusters + FIRST_DATA_CLUSTER <= 0x0FFF_FFF7 {
        KeptOnly(boot, log, before, history, disk, {}, Members(chain));
        ChainHolds(boot, before, disk, chain, contents);
      }
    }

    /** The entry, which is what makes it a file: one write of one sector. */
    method PutEntry(place: Place, entry: Dir.SlotBytes) returns (r: Result<(), WriteError>)
      requires Valid() && place.0 < boot.totalSectors && place.1 + 32 <= SECTOR_BYTES
      modifies this
      ensures Valid()
      ensures r.Err? ==>
                && disk == old(disk) && history == old(history)
                && (r.error == Reading(DeviceRead) || r.error == DeviceWrite)
      ensures r.Ok? ==>
                && disk == old(disk)[place.0 := Splice(old(disk)[place.0], place.1, entry)]
                && history == old(history) + [disk]
      ensures r == Err(Reading(DeviceRead)) || r == Err(DeviceWrite) ==> faulty != {}
    {
      var bytes := ReadSector(place.0);
      if bytes.None? {
        return Err(Reading(DeviceRead));
      }
      var ok := WriteSector(place.0, Splice(bytes.value, place.1, entry));
      r := if ok then Ok(()) else Err(DeviceWrite);
    }

    /** Everything that is decided before anything is written. */
    method MakePlan(name: seq<Byte>, contents: seq<Byte>, ghost lay: Layout)
      returns (r: Result<(Place, Option<Dir.DirectoryEntry>, seq<nat>), WriteError>, ghost j: nat)
      requires Valid() && Dir.FitsEightAndThree(name)
      ensures r.Ok? ==>
                && InsideVolume(boot, r.value.0)
                && AllInRange(boot, r.value.2) && Distinct(r.value.2) && Members(r.value.2) <= FreeSet(boot, disk)
                && |r.value.2| == ClustersFor(boot, |contents|) && |r.value.2| <= MAX_FILE_CLUSTERS
                && (r.value.1.Some? ==> !r.value.1.value.IsDirectory())
      ensures Sound(boot, disk, lay) ==> AllInRange(boot, lay.root) && OnDisk(disk, SectorsOf(boot, lay.root))
      ensures Sound(boot, disk, lay) && r.Ok? ==>
                && Chosen(disk, SectorsOf(boot, lay.root), Dir.EncodedName(name).value, j, r.value.1)
                && r.value.0 == PlaceOf(SectorsOf(boot, lay.root), j)
                && WhyNot(boot, disk, SectorsOf(boot, lay.root), name, |contents|) == None
      ensures Sound(boot, disk, lay) && r.Err? ==> PlanRefused(boot, disk, lay, name, contents, r.error)
      ensures r.Err? ==> !r.error.DeviceWrite? && r.error != BadName
      ensures r == Err(Reading(DeviceRead)) || r == Err(DeviceWrite) ==> faulty != {}
    {
      hide Sound, FreeSet, Members, Dir.EncodedName, Chosen, RootSectors, Latest, OnDisk, Distinct, EntryOf, SlotAt,
           Walk, Dir.FitsEightAndThree, SectorsOf, InsideVolume, WhyNot;
      var encoded := Dir.EncodeName(name);
      var needed := ClustersNeeded(|contents|);
      var slot;
      slot, j := DirectorySlot(encoded.value);
      ghost var sound := Sound(boot, disk, lay);
      if sound {
        SoundHolds(boot, disk, lay);
        SoundRoot(boot, disk, lay);
      }
      if slot.Err? {
        return Err(slot.error), j;
      }
      if slot.value.1.Some? && slot.value.1.value.IsDirectory() {
        return Err(IsADirectory), j;
      }
      var chain := FreeClusters(needed);
      if chain.Err? {
        return Err(chain.error), j;
      }
      if sound {
        PlannedCan(boot, disk, SectorsOf(boot, lay.root), name, |contents|, j, slot.value.1, chain.value);
      }
      r := Ok((slot.value.0, slot.value.1, chain.value));
    }

    /** Gives back what the replaced file used, and then rewrites the hint. */
    method Finish(existing: Option<Dir.DirectoryEntry>, chain: seq<nat>)
      returns (r: Result<(), WriteError>, ghost freed: seq<nat>, ghost middle: Disk)
      requires Valid()
      modifies this
      ensures Valid() && |disk| == |old(disk)|
      ensures Kept(boot, old(history), old(disk), history, disk, {}, Members(freed))
      ensures Distinct(freed)
      ensures existing.None? || existing.value.firstCluster == 0 ==> freed == []
      ensures existing.Some? && existing.value.firstCluster != 0 ==>
                Walk(boot, old(disk), existing.value.firstCluster, |freed|) == Some(freed)
      ensures r.Err? ==> r.error.DeviceWrite? || r.error.Reading?
      ensures r.Err? ==>
                || faulty != {}
                || (existing.Some? && existing.value.firstCluster != 0
                    && LeadsOut(boot, old(disk), existing.value.firstCluster, freed))
      ensures r.Ok? && existing.Some? && existing.value.firstCluster != 0 ==>
                AllInRange(boot, freed) && StopsAfter(boot, old(disk), existing.value.firstCluster, freed, chain)
      ensures r.Ok? ==>
                && Only(boot, old(disk), middle, {}, Members(freed)) && Only(boot, middle, disk, {}, {})
                && ReservedSame(boot, old(disk), middle)
                && AllInRange(boot, freed) && (forall i | 0 <= i < |freed| :: LinkedAs(boot, middle, freed[i], 0))
      ensures r.Ok? && HasFsInfo(boot, middle) ==> HasFsInfo(boot, disk) && FsInfoTrue(boot, disk)
      ensures r == Err(Reading(DeviceRead)) || r == Err(DeviceWrite) ==> faulty != {}
    {
      hide Only, Kept, RawEntry, Members, Walk, HasFsInfo, FsInfoTrue, EntryOf, FreeSet, Latest;
      freed := [];
      KeptNothing(boot, history, disk, {}, Members(freed));
      if existing.Some? && existing.value.firstCluster != 0 {
        r, freed := FreeChain(existing.value.firstCluster, chain);
        if r.Err? {
          middle := disk;
          return;
        }
      }
      KeptOnly(boot, old(history), old(disk), history, disk, {}, Members(freed));
      ghost var log := history;
      middle := disk;
      r := UpdateFsInfo();
      KeptThen(boot, old(history), old(disk), log, middle, history, disk, {}, Members(freed), {}, {});
      KeptOnly(boot, log, middle, history, disk, {}, {});
    }

    /** Creates `name` in the root with `contents`, or replaces what is there: the data and the
        chain in clusters nothing names, then in one write the entry, then the old chain goes.

        `plan` and `switch` say what was decided and which write made the new file appear. */
    method WriteFile(name: seq<Byte>, contents: seq<Byte>, ghost lay: Layout)
      returns (r: Result<Dir.DirectoryEntry, WriteError>, ghost plan: Plan, ghost switch: nat)
      requires Valid()
      modifies this
      ensures Valid() && |disk| == |old(disk)| && old(history) <= history
      ensures r == Err(BadName) <==> !Dir.FitsEightAndThree(name)
      // Refused for what it is: nothing has been written.
      ensures r.Err? && !r.error.Reading? && r.error != DeviceWrite ==> disk == old(disk) && history == old(history)
      // Stopped anywhere: the volume is readable, and nothing is ever half there.
      ensures Sound(boot, old(disk), lay) && Dir.FitsEightAndThree(name) ==>
                forall i | |old(history)| <= i < |history| :: CrashSafe(boot, old(disk), history[i], name, contents)
      ensures Sound(boot, old(disk), lay) && Dir.FitsEightAndThree(name) ==>
                Switches(boot, old(disk), old(history), history, lay, name, contents, plan, switch)
      // Finished.
      ensures Sound(boot, old(disk), lay) && r.Ok? ==>
                Replaced(boot, old(disk), disk, lay, name, contents, plan, r.value)
      // Refused exactly for what the volume says, when the device does not fail; and never over a directory.
      ensures Sound(boot, old(disk), lay) && Dir.FitsEightAndThree(name) ==>
                AnswerFits(boot, old(disk), disk, lay, name, |contents|, r,
                           disk == old(disk) && history == old(history), faulty == {})
      ensures r == Err(Reading(DeviceRead)) || r == Err(DeviceWrite) ==> faulty != {}
    {
      hide Latest, Sound, Only, Kept, FreeSet, Members, Chosen, Switches, Replaced, CrashSafe, InPlace, AsAfter, Walk,
           IsChain, FileBytes,
           Dir.EncodedName, Dir.NewEntry, ClustersFor, Dir.FitsEightAndThree, RawEntry, StopsAfter, HasFsInfo,
           FsInfoTrue, LinkedAs, SlotAt, OnDisk, Distinct, Times, EntryOf, BytesOf, Shadowed, AnswerFits, WhyNot,
           PlanRefused, LeadsOut;
      ghost var sound := Sound(boot, disk, lay);
      switch, plan := |history|, Plan(0, None, []);
      var encoded := Dir.EncodeName(name);
      if encoded.None? {
        return Err(BadName), plan, switch;
      }
      if sound {
        SwitchesNothing(boot, disk, history, lay, name, contents, plan);
        SwitchesIsSafe(boot, disk, history, history, lay, name, contents, plan, switch);
      }
      var planned, j := MakePlan(name, contents, lay);
      if planned.Err? {
        if sound {
          RefusedFits(boot, disk, lay, name, contents, planned.error, faulty == {});
        }
        return Err(planned.error), plan, switch;
      }
      var place, existing, chain := planned.value.0, planned.value.1, planned.value.2;
      plan := Plan(j, existing, chain);

      var put := PutContents(chain, contents);
      switch := |history|;
      KeptOnly(boot, old(history), old(disk), history, disk, Members(chain), Members(chain));
      if sound {
        SwitchesBefore(boot, old(history), old(disk), history, disk, lay, name, contents, plan);
        SwitchesIsSafe(boot, old(disk), old(history), history, lay, name, contents, plan, switch);
      }
      if put.Err? {
        if sound {
          FailedFits(boot, old(disk), disk, lay, name, |contents|, put.error,
                     disk == old(disk) && history == old(history));
        }
        return Err(put.error), plan, switch;
      }
      ghost var d1, h1 := disk, history;

      SmallEnough(boot, |contents|, |chain|);
      FirstInRange(boot, chain);
      var first: U32 := if chain == [] then 0 else chain[0];
      var entry := Dir.NewEntry(encoded.value, first, |contents|);
      if sound {
        ChosenInside(old(disk), SectorsOf(boot, lay.root), encoded.value, j, existing);
        PlanInPlace(boot, old(disk), d1, lay, name, contents, plan);
        TheSwitch(boot, old(disk), d1, lay, name, contents, plan);
      }
      put := PutEntry(place, entry);
      if put.Err? {
        if sound {
          FailedFits(boot, old(disk), disk, lay, name, |contents|, put.error,
                     disk == old(disk) && history == old(history));
        }
        return Err(put.error), plan, switch;
      }
      ghost var d2, h2 := disk, history;
      if sound {
        PutIsSwitch(boot, old(disk), d1, d2, lay, name, contents, plan, place);
        EntryOutsideReserved(boot, old(disk), d1, d2, lay, name, contents, plan);
      }

      ghost var freed, middle;
      put, freed, middle := Finish(existing, chain);
      KeptOnly(boot, h2, d2, history, disk, {}, Members(freed));
      if sound {
        FreedIsApart(boot, old(disk), d1, d2, lay, name, contents, plan, freed);
        SwitchesAfter(boot, old(disk), old(history), h1, d2, history, disk, lay, name, contents, plan, freed);
        SwitchesIsSafe(boot, old(disk), old(history), history, lay, name, contents, plan, switch);
        if existing.Some? && existing.value.firstCluster != 0 {
          FreedStaysInside(boot, old(disk), d1, d2, lay, name, contents, plan, freed);
        }
      }
      if put.Err? {
        if sound {
          FailedFits(boot, old(disk), disk, lay, name, |contents|, put.error,
                     disk == old(disk) && history == old(history));
        }
        return Err(put.error), plan, switch;
      }
      var written := Dir.DecodeSlot(entry);
      Dir.EntryRoundTrip(name, first, |contents|);
      if sound {
        ReplacedHolds(boot, old(disk), d1, d2, middle, disk, lay, name, contents, plan, freed, written.entry);
        DoneFits(boot, old(disk), disk, lay, name, contents, plan, written.entry,
                 disk == old(disk) && history == old(history), faulty == {});
      }
      r := match written
        case Entry(e) => Ok(e)
        case _ => Err(BadName);
    }

    /** Writing and reading back: `find` and `read_file` give exactly what was written, or the device
        failed, when the name does not end at its first dot and nothing shadowed it before the
        write; in every other case the name reads as it did before. */
    method WriteThenRead(name: seq<Byte>, contents: seq<Byte>, ghost lay: Layout)
      returns (wrote: bool, back: Result<Option<seq<Byte>>, VolumeError>)
      requires Valid() && Sound(boot, disk, lay)
      modifies this
      ensures Valid()
      ensures wrote ==>
                && Dir.FitsEightAndThree(name) && AllInRange(boot, lay.root)
                && OnDisk(old(disk), SectorsOf(boot, lay.root))
      ensures Dir.FitsEightAndThree(name) ==>
                && AllInRange(boot, lay.root) && OnDisk(old(disk), SectorsOf(boot, lay.root))
                && var why := WhyNot(boot, old(disk), SectorsOf(boot, lay.root), name, |contents|);
                   (wrote ==> why == None) && (faulty == {} && why == None ==> wrote)
      ensures wrote && !Shadowed(old(disk), SectorsOf(boot, lay.root), name) && !Dir.EndsAtItsFirstDot(name) ==>
                back == Ok(Some(contents)) || (back == Err(DeviceRead) && faulty != {})
      ensures wrote && (Shadowed(old(disk), SectorsOf(boot, lay.root), name) || Dir.EndsAtItsFirstDot(name)) ==>
                var was := ViewOf(boot, old(disk), name);
                && ViewOf(boot, disk, name) == was
                && (was.File? ==> back == Ok(Some(was.bytes)) || (back == Err(DeviceRead) && faulty != {}))
    {
      hide Sound, Replaced, Switches, CrashSafe, Shadowed, ViewOf, RootSectors, Lookup, FileBytes,
           Dir.EndsAtItsFirstDot, Latest, WhyNot;
      SoundHolds(boot, disk, lay);
      var r;
      ghost var switch, plan;
      wrote, back := false, Ok(None);
      r, plan, switch := WriteFile(name, contents, lay);
      if r.Err? { return; }
      wrote := true;
      ReplacedReads(boot, old(disk), disk, lay, name, contents, plan, r.value);
      back := ReadBack(name);
      ViewIsLookup(boot, disk, name);
    }

    /** `find` and then `read_file`, with a buffer of the file's own size. */
    method ReadBack(name: seq<Byte>) returns (back: Result<Option<seq<Byte>>, VolumeError>)
      requires Valid() && RootSectors(boot, disk).Some?
      ensures var found := Lookup(boot, disk, name);
        found.Some? && !found.value.IsDirectory()
          && FileBytes(boot, disk, found.value.firstCluster, found.value.size).Some? ==>
          || back == Ok(FileBytes(boot, disk, found.value.firstCluster, found.value.size))
          || (back == Err(DeviceRead) && faulty != {})
    {
      hide Lookup, RootSectors, FileBytes, Revisits, Latest;
      var found := Find(name);
      if found.Err? { return Err(found.error); }
      if found.value.None? { return Ok(None); }
      var entry := found.value.value;
      if entry.IsDirectory() { return Ok(None); }
      var into := new Byte[entry.size];
      var read := ReadFile(entry, into);
      if read.Err? { return Err(read.error); }
      back := Ok(Some(into[..read.value]));
    }
  }
}
