/** What the loops of a volume compute, step by step: walks, scans, searches and counts. */
module VolumeSteps {
  import opened Bytes
  import opened BootSectors
  import opened FatTable
  import opened Chains
  import opened VolumeState
  import opened Commit
  import Dir = Directory

  datatype VolumeError =
    | DeviceRead
    | BadCluster(cluster: U32)
    | BrokenChain(at: U32, entry: Entry)
    | ChainLoops
    | TooBig(size: U32)

  datatype WriteError =
    | Reading(error: VolumeError)
    | DeviceWrite
    | BadName
    | TooManyClusters(count: nat)
    | Full(needed: nat, free: nat)
    | DirectoryFull
    | IsADirectory

  const MAX_FILE_CLUSTERS := 64

  /** The last of a history of disks. */
  ghost function Latest(history: seq<Disk>): Disk {
    if history == [] then [] else history[|history| - 1]
  }

  /** From `d` to `d'`, and in every state written in between, only the data of the clusters
      in `data` and the table entries of those in `table` were touched. */
  ghost predicate Kept(b: BootSector, before: seq<Disk>, d: Disk, after: seq<Disk>, d': Disk, data: set<nat>,
                       table: set<nat>) {
    && before <= after
    && Only(b, d, d', data, table)
    && forall i | |before| <= i < |after| :: Only(b, d, after[i], data, table)
  }

  lemma {:induction false} KeptThen(b: BootSector, h: seq<Disk>, d: Disk, h': seq<Disk>, d': Disk, h'': seq<Disk>,
                                    d'': Disk,
                                    data: set<nat>, table: set<nat>, data': set<nat>, table': set<nat>)
    requires Kept(b, h, d, h', d', data, table) && Kept(b, h', d', h'', d'', data', table')
    requires data' <= data && table' <= table
    ensures Kept(b, h, d, h'', d'', data, table)
  {
    hide Only;
    OnlyThen(b, d, d', d'', data, table, data', table');
    assert data + data' == data && table + table' == table;
    forall i | |h| <= i < |h''| ensures Only(b, d, h''[i], data, table) {
      if i < |h'| {
        assert h''[i] == h'[i];
      } else {
        OnlyThen(b, d, d', h''[i], data, table, data', table');
      }
    }
  }

  lemma {:induction false} KeptWider(b: BootSector, h: seq<Disk>, d: Disk, h': seq<Disk>, d': Disk,
                                     data: set<nat>, table: set<nat>, data': set<nat>, table': set<nat>)
    requires Kept(b, h, d, h', d', data, table) && data <= data' && table <= table'
    ensures Kept(b, h, d, h', d', data', table')
  {
    OnlyWider(b, d, d', data, table, data', table');
    forall i | |h| <= i < |h'| ensures Only(b, d, h'[i], data', table') {
      OnlyWider(b, d, h'[i], data, table, data', table');
    }
  }

  lemma {:induction false} KeptNothing(b: BootSector, h: seq<Disk>, d: Disk, data: set<nat>, table: set<nat>)
    requires Holds(b, d)
    ensures Kept(b, h, d, h, d, data, table)
  {
    OnlyNothing(b, d, data, table);
  }

  lemma {:induction false} KeptOne(b: BootSector, h: seq<Disk>, d: Disk, d': Disk, data: set<nat>, table: set<nat>)
    requires Only(b, d, d', data, table)
    ensures Kept(b, h, d, h + [d'], d', data, table)
  {
    hide Only;
  }

  lemma {:induction false} KeptOnly(b: BootSector, h: seq<Disk>, d: Disk, h': seq<Disk>, d': Disk, data: set<nat>,
                                    table: set<nat>)
    requires Kept(b, h, d, h', d', data, table)
    ensures h <= h' && Only(b, d, d', data, table)
  {
  }

  /** The clusters nothing is using. */
  ghost function FreeSet(b: BootSector, d: Disk): set<nat>
    requires Holds(b, d)
  {
    set c | c in Interval(FIRST_DATA_CLUSTER, FIRST_DATA_CLUSTER + b.clusters) && b.InRange(c)
      && EntryOf(b, d, c) == Free
  }

  /** The free clusters below `limit`. */
  ghost function FreeBelow(b: BootSector, d: Disk, limit: nat): set<nat>
    requires Holds(b, d)
  {
    set c | c in FreeSet(b, d) && c < limit
  }

  /** The walk from `first` really comes back to a cluster it has been through. */
  ghost predicate Revisits(b: BootSector, d: Disk, first: nat)
    requires Holds(b, d)
  {
    exists n: nat :: Walk(b, d, first, n).Some? && !Distinct(Walk(b, d, first, n).value)
  }

  /** What looking `name` up in the root gives. */
  ghost function Lookup(b: BootSector, d: Disk, name: seq<Byte>): Option<Dir.DirectoryEntry>
    requires Holds(b, d) && RootSectors(b, d).Some?
  {
    var sectors := RootSectors(b, d).value;
    var i := FindSlot(d, sectors, name, 0);
    if i.None? then None else Some(SlotAt(d, sectors, i.value).entry)
  }

  /** The entries handed to `each` from slot `i` on, `count` of them having gone before:
      everything up to the end of the directory or the first one `each` stops at. */
  ghost function Visited(d: Disk, sectors: seq<nat>, each: (nat, Dir.DirectoryEntry) -> bool, i: nat, count: nat)
    : (r: seq<Dir.DirectoryEntry>)
    requires OnDisk(d, sectors)
    decreases SLOTS_PER_SECTOR * |sectors| - i
  {
    if i >= SLOTS_PER_SECTOR * |sectors| then []
    else
      match SlotAt(d, sectors, i)
      case End => []
      case Skip => Visited(d, sectors, each, i + 1, count)
      case Entry(entry) => [entry] + if each(count, entry) then Visited(d, sectors, each, i + 1, count + 1) else []
  }

  /** Whether that comes to an end mark, or to an entry `each` stops at, before the sectors run out. */
  ghost predicate Stops(d: Disk, sectors: seq<nat>, each: (nat, Dir.DirectoryEntry) -> bool, i: nat, count: nat)
    requires OnDisk(d, sectors)
    decreases SLOTS_PER_SECTOR * |sectors| - i
  {
    i < SLOTS_PER_SECTOR * |sectors| &&
      match SlotAt(d, sectors, i)
      case End => true
      case Skip => Stops(d, sectors, each, i + 1, count)
      case Entry(entry) => each(count, entry) ==> Stops(d, sectors, each, i + 1, count + 1)
  }

  /** After the slots before `i`, exactly `visited` has been handed over and nothing stopped. */
  ghost predicate Scanned(d: Disk, sectors: seq<nat>, each: (nat, Dir.DirectoryEntry) -> bool, i: nat,
                          visited: seq<Dir.DirectoryEntry>)
    requires OnDisk(d, sectors)
  {
    && Visited(d, sectors, each, 0, 0) == visited + Visited(d, sectors, each, i, |visited|)
    && (Stops(d, sectors, each, 0, 0) <==> Stops(d, sectors, each, i, |visited|))
  }

  /** One more slot: scanning goes on past it, or is over. */
  lemma {:induction false} ScanSlot(d: Disk, sectors: seq<nat>, each: (nat, Dir.DirectoryEntry) -> bool, i: nat,
                                    visited: seq<Dir.DirectoryEntry>)
    requires OnDisk(d, sectors) && i < SLOTS_PER_SECTOR * |sectors| && Scanned(d, sectors, each, i, visited)
    ensures var slot := SlotAt(d, sectors, i);
            && (slot.End? ==> Visited(d, sectors, each, 0, 0) == visited && Stops(d, sectors, each, 0, 0))
            && (slot.Skip? ==> Scanned(d, sectors, each, i + 1, visited))
            && (slot.Entry? && each(|visited|, slot.entry) ==> Scanned(d, sectors, each, i + 1, visited + [slot.entry]))
            && (slot.Entry? && !each(|visited|, slot.entry) ==>
                  Visited(d, sectors, each, 0, 0) == visited + [slot.entry] && Stops(d, sectors, each, 0, 0))
  {
    hide SlotAt;
    var slot := SlotAt(d, sectors, i);
    if slot.Entry? && each(|visited|, slot.entry) {
      var rest := Visited(d, sectors, each, i + 1, |visited| + 1);
      assert visited + ([slot.entry] + rest) == (visited + [slot.entry]) + rest;
    }
  }

  /** Past the last slot there is nothing left to hand over. */
  lemma {:induction false} ScanOver(d: Disk, sectors: seq<nat>, each: (nat, Dir.DirectoryEntry) -> bool,
                                    visited: seq<Dir.DirectoryEntry>)
    requires OnDisk(d, sectors) && Scanned(d, sectors, each, SLOTS_PER_SECTOR * |sectors|, visited)
    ensures Visited(d, sectors, each, 0, 0) == visited && !Stops(d, sectors, each, 0, 0)
  {
  }

  /** The clusters a reader can get to from `first`, of which the first `n` are known: it follows
      the table as far as that leads inside the volume, and at most once more than there are clusters. */
  ghost function Reach(b: BootSector, d: Disk, first: nat, n: nat): (r: seq<nat>)
    requires Holds(b, d) && Walk(b, d, first, n).Some? && n <= b.clusters + 1
    ensures n <= |r| <= b.clusters + 1 && Walk(b, d, first, |r|) == Some(r)
    ensures |r| <= b.clusters ==> Walk(b, d, first, |r| + 1).None?
    decreases b.clusters as int + 1 - n
  {
    if n <= b.clusters && Walk(b, d, first, n + 1).Some? then Reach(b, d, first, n + 1) else Walk(b, d, first, n).value
  }

  /** Every walk is the beginning of it. */
  lemma {:induction false} ReachIsLongest(b: BootSector, d: Disk, first: nat, cs: seq<nat>)
    requires Holds(b, d) && Walk(b, d, first, |cs|) == Some(cs) && |cs| <= b.clusters + 1
    ensures |cs| <= |Reach(b, d, first, 0)| && cs == Reach(b, d, first, 0)[..|cs|]
  {
    hide EntryOf, AllInRange;
    var r := Reach(b, d, first, 0);
    if |cs| <= |r| {
      WalkPrefix(b, d, first, |cs|, |r|);
    } else {
      WalkStops(b, d, first, |r| + 1, |cs|);
    }
  }

  /** The clusters got to end in an end mark, before the reader gives up. */
  ghost predicate EndsAsChain(b: BootSector, d: Disk, reach: seq<nat>)
    requires Holds(b, d) && AllInRange(b, reach)
  {
    0 < |reach| <= b.clusters && EntryOf(b, d, reach[|reach| - 1]) == End
  }

  /** After `done`, what the table says next is the next cluster to be got to, or there is none. */
  lemma {:induction false} ReachGoesOn(b: BootSector, d: Disk, first: nat, done: seq<nat>, next: Entry)
    requires Holds(b, d) && Walk(b, d, first, |done|) == Some(done) && 0 < |done| <= b.clusters
    requires next == EntryOf(b, d, done[|done| - 1])
    ensures var reach := Reach(b, d, first, 0);
      && |done| <= |reach| && done == reach[..|done|]
      && (|done| < |reach| <==> next.Next? && b.InRange(next.cluster))
      && (|done| < |reach| ==> reach[|done|] == next.cluster)
      && (|done| == |reach| ==> (EndsAsChain(b, d, reach) <==> next == End))
  {
    hide EntryOf;
    ReachIsLongest(b, d, first, done);
    var reach := Reach(b, d, first, 0);
    if next.Next? && b.InRange(next.cluster) {
      WalkExtends(b, d, first, done, next.cluster);
      ReachIsLongest(b, d, first, done + [next.cluster]);
    }
    if |done| < |reach| {
      WalkStep(b, d, first, reach, |done| - 1);
    } else {
      assert done == reach;
    }
  }

  /** A reader has been through `done` and is about to look at `cluster`. */
  ghost predicate Following(b: BootSector, d: Disk, first: nat, done: seq<nat>, cluster: U32)
    requires Holds(b, d)
  {
    var reach := Reach(b, d, first, 0);
    && |done| <= b.clusters && |done| <= |reach| && done == reach[..|done|]
    && (done == [] ==> cluster == first)
    && (done != [] ==> EntryOf(b, d, done[|done| - 1]) == Next(cluster))
    && (|done| < |reach| ==> reach[|done|] == cluster)
    && (|done| == |reach| ==> !b.InRange(cluster) && !EndsAsChain(b, d, reach))
  }

  lemma {:induction false} FollowingStarts(b: BootSector, d: Disk, first: U32)
    requires Holds(b, d)
    ensures Following(b, d, first, [], first)
  {
    hide EntryOf;
    var reach := Reach(b, d, first, 0);
    assert reach[..0] == [];
    if b.InRange(first) { ReachIsLongest(b, d, first, [first]); }
  }

  lemma {:induction false} FollowingAt(b: BootSector, d: Disk, first: nat, done: seq<nat>, cluster: U32)
    requires Holds(b, d) && Following(b, d, first, done, cluster)
    ensures var reach := Reach(b, d, first, 0);
      && AllInRange(b, reach) && |done| <= |reach| && (|done| < |reach| <==> b.InRange(cluster))
      && (|done| < |reach| ==> reach[|done|] == cluster)
      && (|done| == |reach| ==> !EndsAsChain(b, d, reach))
  {
    hide EntryOf, Reach, Walk, EndsAsChain;
  }

  /** After a cluster of the volume: the reader gives up, or goes where the table says, or stops. */
  lemma {:induction false} FollowingStep(b: BootSector, d: Disk, first: nat, done: seq<nat>, cluster: U32)
    requires Holds(b, d) && Following(b, d, first, done, cluster) && b.InRange(cluster)
    ensures var reach, next := Reach(b, d, first, 0), EntryOf(b, d, cluster);
      && |done| + 1 <= |reach| && AllInRange(b, reach)
      && (|done| + 1 > b.clusters ==> |done| + 1 == |reach| && !EndsAsChain(b, d, reach) && Revisits(b, d, first))
      && (|done| + 1 <= b.clusters && next.Next? ==> Following(b, d, first, done + [cluster], next.cluster))
      && (|done| + 1 <= b.clusters && !next.Next? ==>
          |done| + 1 == |reach| && (EndsAsChain(b, d, reach) <==> next == End))
  {
    hide EntryOf, Revisits;
    var reach := Reach(b, d, first, 0);
    var more := done + [cluster];
    assert more == reach[..|done| + 1];
    WalkPrefix(b, d, first, |more|, |reach|);
    if |more| > b.clusters {
      WalkTooLong(b, d, first, more);
    } else {
      ReachGoesOn(b, d, first, more, EntryOf(b, d, cluster));
    }
  }

  /** What reading the root answers, on any table: over the clusters the table leads to, the
      entries handed over when the scan stops among them or the chain ends there, and only then. */
  ghost predicate ReadsRoot(b: BootSector, d: Disk,
                            each: (nat, Dir.DirectoryEntry) -> bool, r: Result<seq<Dir.DirectoryEntry>, VolumeError>)
    requires Holds(b, d)
  {
    var reach := Reach(b, d, b.rootCluster, 0);
    var sectors := SectorsOf(b, reach);
    && OnDisk(d, sectors)
    && (r.Ok? ==> r.value == Visited(d, sectors, each, 0, 0))
    && (r.Ok? ==> Stops(d, sectors, each, 0, 0) || EndsAsChain(b, d, reach))
    && (Stops(d, sectors, each, 0, 0) || EndsAsChain(b, d, reach) ==> r.Ok? || r == Err(DeviceRead))
  }

  lemma {:induction false} ReachOnDisk(b: BootSector, d: Disk)
    requires Holds(b, d)
    ensures AllInRange(b, Reach(b, d, b.rootCluster, 0)) && OnDisk(d, SectorsOf(b, Reach(b, d, b.rootCluster, 0)))
  {
  }

  /** The scan is past the last cluster that can be got to. */
  lemma {:induction false} ScannedAll(b: BootSector, d: Disk,
                                      each: (nat, Dir.DirectoryEntry) -> bool, reach: seq<nat>,
                                      visited: seq<Dir.DirectoryEntry>)
    requires Holds(b, d) && AllInRange(b, reach) && OnDisk(d, SectorsOf(b, reach))
    requires Scanned(d, SectorsOf(b, reach), each, SLOTS_PER_SECTOR * Times(|reach|, b.sectorsPerCluster), visited)
    ensures Visited(d, SectorsOf(b, reach), each, 0, 0) == visited && !Stops(d, SectorsOf(b, reach), each, 0, 0)
  {
    hide Visited, Stops, Scanned;
    assert |SectorsOf(b, reach)| == Times(|reach|, b.sectorsPerCluster);
    ScanOver(d, SectorsOf(b, reach), each, visited);
  }

  lemma {:induction false} RootAnswer(b: BootSector, d: Disk,
                                      each: (nat, Dir.DirectoryEntry) -> bool, sectors: seq<nat>,
                                      r: Result<seq<Dir.DirectoryEntry>, VolumeError>)
    requires Holds(b, d) && sectors == SectorsOf(b, Reach(b, d, b.rootCluster, 0)) && OnDisk(d, sectors)
    requires r.Ok? ==> r.value == Visited(d, sectors, each, 0, 0)
    requires r == Err(DeviceRead)
             || (r.Ok? <==> Stops(d, sectors, each, 0, 0) || EndsAsChain(b, d, Reach(b, d, b.rootCluster, 0)))
    ensures ReadsRoot(b, d, each, r)
  {
    hide Visited, Stops, EndsAsChain, Reach, SectorsOf;
  }

  /** Of a root that is a whole chain it is everything up to the end, or to where `each` stops. */
  lemma {:induction false} ReadsWholeRoot(b: BootSector, d: Disk,
                                          each: (nat, Dir.DirectoryEntry) -> bool,
                                          r: Result<seq<Dir.DirectoryEntry>, VolumeError>)
    requires Holds(b, d) && ReadsRoot(b, d, each, r) && RootSectors(b, d).Some?
    ensures r == Err(DeviceRead) || r == Ok(Visited(d, RootSectors(b, d).value, each, 0, 0))
  {
    hide Visited, Stops, EntryOf;
    ChainFromIsWalk(b, d, b.rootCluster, 1);
    ReachIsChain(b, d, b.rootCluster, ChainFrom(b, d, b.rootCluster, 1).value);
    hide Reach, SectorsOf, ChainFrom;
  }

  /** A whole chain is all there is to get to. */
  lemma {:induction false} ReachIsChain(b: BootSector, d: Disk, first: nat, cs: seq<nat>)
    requires Holds(b, d) && 0 < |cs| <= b.clusters && Walk(b, d, first, |cs|) == Some(cs)
    requires EntryOf(b, d, cs[|cs| - 1]) == End
    ensures Reach(b, d, first, 0) == cs
  {
    var r := Reach(b, d, first, 0);
    ReachIsLongest(b, d, first, cs);
    if |r| > |cs| {
      WalkStep(b, d, first, r, |cs| - 1);
    } else {
      assert r[..|cs|] == r;
    }
  }

  /** The chain a reader finds is a walk of the table up to an end mark. */
  lemma {:induction false} ChainFromIsWalk(b: BootSector, d: Disk, first: nat, n: nat)
    requires Holds(b, d) && n > 0 && ChainFrom(b, d, first, n).Some?
    ensures var cs := ChainFrom(b, d, first, n).value;
            && n <= |cs| <= b.clusters && Walk(b, d, first, |cs|) == Some(cs) && EntryOf(b, d, cs[|cs| - 1]) == End
    decreases b.clusters as int + 1 - n
  {
    hide EntryOf;
    if EntryOf(b, d, Walk(b, d, first, n).value[n - 1]) != End {
      ChainFromIsWalk(b, d, first, n + 1);
    }
  }

  lemma {:induction false} WalkTooLong(b: BootSector, d: Disk, first: nat, cs: seq<nat>)
    requires Holds(b, d) && Walk(b, d, first, |cs|) == Some(cs) && |cs| > b.clusters
    ensures Revisits(b, d, first)
  {
    WalkRevisits(b, d, first, cs);
  }

  /** Stopping at the first entry called `name` is looking it up. */
  lemma {:induction false} VisitedUntilNamed(d: Disk, sectors: seq<nat>, name: seq<Byte>, i: nat, count: nat)
    requires OnDisk(d, sectors)
    ensures var v := Visited(d, sectors, (k, e: Dir.DirectoryEntry) => !e.IsNamed(name), i, count);
            var at := FindSlot(d, sectors, name, i);
            && (at.None? ==> v == [] || !v[|v| - 1].IsNamed(name))
            && (at.Some? ==> v != [] && v[|v| - 1] == SlotAt(d, sectors, at.value).entry && v[|v| - 1].IsNamed(name))
    decreases SLOTS_PER_SECTOR * |sectors| - i
  {
    hide SlotAt, Dir.EqualIgnoringCase;
    if i < SLOTS_PER_SECTOR * |sectors| {
      match SlotAt(d, sectors, i)
      case End =>
      case Skip => VisitedUntilNamed(d, sectors, name, i + 1, count);
      case Entry(entry) =>
        if !entry.IsNamed(name) {
          VisitedUntilNamed(d, sectors, name, i + 1, count + 1);
        }
    }
  }

  /** There is an end mark among the slots from `i` on. */
  ghost predicate HasEnd(d: Disk, sectors: seq<nat>, i: nat)
    requires OnDisk(d, sectors)
  {
    exists k | i <= k < SLOTS_PER_SECTOR * |sectors| :: SlotAt(d, sectors, k).End?
  }

  /** Looking for `name` stops exactly where it is found or the directory ends. */
  lemma {:induction false} StopsAtNamed(d: Disk, sectors: seq<nat>, name: seq<Byte>, i: nat, count: nat)
    requires OnDisk(d, sectors)
    ensures Stops(d, sectors, (k, e: Dir.DirectoryEntry) => !e.IsNamed(name), i, count) <==>
              FindSlot(d, sectors, name, i).Some? || HasEnd(d, sectors, i)
    decreases SLOTS_PER_SECTOR * |sectors| - i
  {
    hide SlotAt, Dir.EqualIgnoringCase;
    if i < SLOTS_PER_SECTOR * |sectors| {
      assert HasEnd(d, sectors, i) <==> SlotAt(d, sectors, i).End? || HasEnd(d, sectors, i + 1);
      match SlotAt(d, sectors, i)
      case End =>
      case Skip => StopsAtNamed(d, sectors, name, i + 1, count);
      case Entry(entry) => StopsAtNamed(d, sectors, name, i + 1, count + 1);
    }
  }

  /** What looking a name up answers, on any table: over the clusters the table leads to, the first
      entry of that name, or that there is none when the directory or its chain ends there. */
  ghost predicate FindsName(b: BootSector, d: Disk, name: seq<Byte>, r: Result<Option<Dir.DirectoryEntry>, VolumeError>)
    requires Holds(b, d)
  {
    var reach := Reach(b, d, b.rootCluster, 0);
    var sectors := SectorsOf(b, reach);
    && OnDisk(d, sectors)
    && var at := FindSlot(d, sectors, name, 0);
       && (r.Ok? ==> r.value == if at.Some? then Some(SlotAt(d, sectors, at.value).entry) else None)
       && (r.Ok? ==> at.Some? || HasEnd(d, sectors, 0) || EndsAsChain(b, d, reach))
       && (at.Some? || HasEnd(d, sectors, 0) || EndsAsChain(b, d, reach) ==> r.Ok? || r == Err(DeviceRead))
  }

  lemma {:induction false} ReadsIsFinds(b: BootSector, d: Disk, name: seq<Byte>,
                                        v: Result<seq<Dir.DirectoryEntry>, VolumeError>)
    requires Holds(b, d) && ReadsRoot(b, d, (k, e: Dir.DirectoryEntry) => !e.IsNamed(name), v)
    ensures v.Err? ==> FindsName(b, d, name, Err(v.error))
    ensures v.Ok? ==> FindsName(b, d, name, Ok(
              if v.value != [] && v.value[|v.value| - 1].IsNamed(name) then Some(v.value[|v.value| - 1]) else None))
  {
    var reach := Reach(b, d, b.rootCluster, 0);
    var sectors := SectorsOf(b, reach);
    hide Reach, SectorsOf, Visited, Stops, FindSlot, HasEnd, EndsAsChain, SlotAt, Dir.EqualIgnoringCase;
    StopsAtNamed(d, sectors, name, 0, 0);
    VisitedUntilNamed(d, sectors, name, 0, 0);
  }

  lemma {:induction false} ScannedNothing(d: Disk, sectors: seq<nat>, each: (nat, Dir.DirectoryEntry) -> bool)
    requires OnDisk(d, sectors)
    ensures Scanned(d, sectors, each, 0, [])
  {
  }

  /** The sectors of cluster `i` of a chain lie together in the chain's list. */
  lemma {:induction false} ClusterOfChain(b: BootSector, chain: seq<nat>, i: nat)
    requires b.Accepted() && AllInRange(b, chain) && i < |chain|
    ensures Times(i, b.sectorsPerCluster) + b.sectorsPerCluster
            == Times(i + 1, b.sectorsPerCluster) <= |SectorsOf(b, chain)|
    ensures forall q | Times(i, b.sectorsPerCluster) <= q < Times(i, b.sectorsPerCluster) + b.sectorsPerCluster ::
              SectorsOf(b, chain)[q] == b.DataSector(chain[i], 0) + (q - Times(i, b.sectorsPerCluster))
  {
    hide SectorsOf;
    TimesGap(i, |chain|, b.sectorsPerCluster);
    forall q | Times(i, b.sectorsPerCluster) <= q < Times(i, b.sectorsPerCluster) + b.sectorsPerCluster
      ensures SectorsOf(b, chain)[q] == b.DataSector(chain[i], 0) + (q - Times(i, b.sectorsPerCluster))
    {
      SectorsOfAt(b, chain, i, q - Times(i, b.sectorsPerCluster));
    }
  }

  /** The same, by the sector the cluster is said to begin at. */
  lemma {:induction false} ClusterBegins(b: BootSector, chain: seq<nat>, i: nat, first: U32)
    requires b.Accepted() && AllInRange(b, chain) && i < |chain| && chain[i] < 0x1_0000_0000
    requires b.SectorOfCluster(chain[i]) == Some(first)
    ensures first + b.sectorsPerCluster <= b.totalSectors
    ensures Times(i, b.sectorsPerCluster) + b.sectorsPerCluster
            == Times(i + 1, b.sectorsPerCluster) <= |SectorsOf(b, chain)|
    ensures forall q | Times(i, b.sectorsPerCluster) <= q < Times(i, b.sectorsPerCluster) + b.sectorsPerCluster ::
              SectorsOf(b, chain)[q] == first + (q - Times(i, b.sectorsPerCluster))
  {
    hide SectorsOf, Times;
    ClusterOfChain(b, chain, i);
    assert b.DataSector(chain[i], 0) == first;
  }

  lemma {:induction false} WalkExtends(b: BootSector, d: Disk, first: nat, done: seq<nat>, cluster: U32)
    requires Holds(b, d) && Walk(b, d, first, |done|) == Some(done) && b.InRange(cluster)
    requires done == [] ==> cluster == first
    requires done != [] ==> EntryOf(b, d, done[|done| - 1]) == Next(cluster)
    ensures Walk(b, d, first, |done| + 1) == Some(done + [cluster])
  {
    hide EntryOf;
    if done == [] {
      assert done + [cluster] == [first];
    }
  }

  lemma {:induction false} ClustersForIs(b: BootSector, size: nat, n: nat)
    requires b.Accepted() && n > 0
    requires Times(n - 1, b.sectorsPerCluster) * SECTOR_BYTES < size <= Times(n, b.sectorsPerCluster) * SECTOR_BYTES
    ensures ClustersFor(b, size) == n
  {
    hide ClustersFor;
    ClustersForFits(b, size, n);
    var m := ClustersFor(b, size);
    if m < n {
      if m < n - 1 {
        TimesGap(m, n - 1, b.sectorsPerCluster);
      }
    }
  }

  lemma {:induction false} WalkNothing(b: BootSector, d: Disk, first: nat)
    requires Holds(b, d)
    ensures Walk(b, d, first, 0) == Some([])
  {
  }

  lemma {:induction false} WalkEndsHere(b: BootSector, d: Disk, first: nat, done: seq<nat>)
    requires Holds(b, d) && Walk(b, d, first, |done|) == Some(done)
    requires done == [] ==> !b.InRange(first)
    requires done != [] ==> var e := EntryOf(b, d, done[|done| - 1]); !e.Next? || !b.InRange(e.cluster)
    ensures Walk(b, d, first, |done| + 1).None?
  {
    hide EntryOf;
  }

  /** A file of which more than the walk so far is needed cannot be read when the walk is over. */
  lemma {:induction false} NotAllThere(b: BootSector, d: Disk, first: nat, size: nat, n: nat)
    requires Holds(b, d) && size > Times(n, b.sectorsPerCluster) * SECTOR_BYTES
    requires Walk(b, d, first, n + 1).None? || n > b.clusters
    ensures FileBytes(b, d, first, size).None?
  {
    hide ClustersFor, Walk;
    var m := ClustersFor(b, size);
    if m <= n {
      if m < n {
        TimesGap(m, n, b.sectorsPerCluster);
      }
    } else if Walk(b, d, first, n + 1).None? {
      WalkStops(b, d, first, n + 1, m);
    }
  }

  /** A file whose last byte is in the last cluster walked is all there. */
  lemma {:induction false} AllThere(b: BootSector, d: Disk, first: nat, size: nat, cs: seq<nat>, bytes: seq<Byte>)
    requires Holds(b, d) && Walk(b, d, first, |cs|) == Some(cs) && 0 < |cs| <= b.clusters + 1
    requires Times(|cs| - 1, b.sectorsPerCluster) * SECTOR_BYTES < size
             <= Times(|cs|, b.sectorsPerCluster) * SECTOR_BYTES
    requires bytes == BytesOf(d, SectorsOf(b, cs), size)
    ensures FileBytes(b, d, first, size) == Some(bytes)
  {
    hide Walk;
    ClustersForIs(b, size, |cs|);
  }

  function Min(a: int, b: int): int {
    if a < b then a else b
  }

  /** How many whole `per`s there are in `offset`, and what is left over. */
  method Split(offset: nat, per: nat) returns (k: nat, inside: nat)
    requires per > 0
    ensures inside < per && Times(k, per) + inside == offset
  {
    Division(offset, per);
    k, inside := offset / per, offset % per;
  }

  /** Copies `count` bytes of a sector into a buffer. */
  method CopyInto(into: array<Byte>, at: nat, bytes: Sector, from: nat, count: nat)
    requires at + count <= into.Length && from + count <= SECTOR_BYTES
    modifies into
    ensures into[..at] == old(into[..at])
    ensures into[at..at + count] == bytes[from..from + count]
    ensures into[at + count..] == old(into[at + count..])
  {
    ghost var before := into[..];
    forall i | at <= i < at + count { into[i] := bytes[from + (i - at)]; }
    assert forall i | 0 <= i < into.Length ::
             into[i] == if at <= i < at + count then bytes[from + (i - at)] else before[i];
  }

  /** A buffer that holds the bytes of `q` sectors, and then some of the next. */
  lemma {:induction false} BytesGrow(d: Disk, sectors: seq<nat>, buffer: seq<Byte>, w: nat, buffer': seq<Byte>,
                                     taking: nat, q: nat)
    requires forall i :: 0 <= i < |sectors| ==> sectors[i] < |d|
    requires w == SECTOR_BYTES * q && taking <= SECTOR_BYTES && w + taking <= |buffer'| && w <= |buffer|
    requires q < |sectors|
    requires buffer[..w] == BytesOf(d, sectors, w) && buffer'[..w] == buffer[..w]
    requires buffer'[w..w + taking] == d[sectors[q]][..taking]
    ensures buffer'[..w + taking] == BytesOf(d, sectors, w + taking)
  {
    var r := BytesOf(d, sectors, w + taking);
    forall p | 0 <= p < w + taking ensures buffer'[p] == r[p] {
      if p < w {
        assert buffer'[p] == buffer'[..w][p] == BytesOf(d, sectors, w)[p];
      } else {
        assert buffer'[p] == buffer'[w..w + taking][p - w];
        assert p / SECTOR_BYTES == q && p % SECTOR_BYTES == p - w;
      }
    }
  }

  /** One more cluster: its sectors come after the others, whose bytes stay where they were. */
  lemma {:induction false} NextClusterOfChain(b: BootSector, d: Disk, done: seq<nat>, cluster: nat, size: nat)
    requires Holds(b, d) && AllInRange(b, done) && b.InRange(cluster) && size <= SECTOR_BYTES * |SectorsOf(b, done)|
    ensures var sectors := SectorsOf(b, done + [cluster]);
            && |sectors| == |SectorsOf(b, done)| + b.sectorsPerCluster
            && BytesOf(d, sectors, size) == BytesOf(d, SectorsOf(b, done), size)
            && forall q | |SectorsOf(b, done)| <= q < |sectors| ::
                 sectors[q] == b.DataSector(cluster, 0) + (q - |SectorsOf(b, done)|)
  {
    hide BytesOf;
    var cs := done + [cluster];
    assert cs[..|done|] == done && cs[|done|] == cluster;
    SectorsOfPrefix(b, cs, |done|);
    ClusterOfChain(b, cs, |done|);
    BytesOfPrefix(d, SectorsOf(b, done), SectorsOf(b, cs), size);
  }

  /** A buffer that holds a stretch of a file, and then what of one more sector follows it. */
  lemma {:induction false} SliceGrows(d: Disk, sectors: seq<nat>, bytes: seq<Byte>, offset: nat, buffer: seq<Byte>,
                                      buffer': seq<Byte>,
                                      w: nat, taking: nat, q: nat, within: nat)
    requires forall i :: 0 <= i < |sectors| ==> sectors[i] < |d|
    requires |bytes| <= SECTOR_BYTES * |sectors| && bytes == BytesOf(d, sectors, |bytes|)
    requires q < |sectors| && within + taking <= SECTOR_BYTES && offset + w == SECTOR_BYTES * q + within
    requires offset + w + taking <= |bytes| && w + taking <= |buffer'| && w <= |buffer|
    requires buffer[..w] == bytes[offset..offset + w] && buffer'[..w] == buffer[..w]
    requires buffer'[w..w + taking] == d[sectors[q]][within..within + taking]
    ensures buffer'[..w + taking] == bytes[offset..offset + w + taking]
  {
    forall p | 0 <= p < w + taking ensures buffer'[p] == bytes[offset + p] {
      if p < w {
        assert buffer'[p] == buffer'[..w][p] == bytes[offset..offset + w][p];
      } else {
        assert buffer'[p] == buffer'[w..w + taking][p - w];
        assert (offset + p) / SECTOR_BYTES == q && (offset + p) % SECTOR_BYTES == within + (p - w);
      }
    }
  }

  lemma {:induction false} TimesOfBytes(k: nat, n: nat)
    ensures Times(k, n * SECTOR_BYTES) == Times(k, n) * SECTOR_BYTES
  {
    if k > 0 {
      TimesOfBytes(k - 1, n);
    }
  }

  /** A byte of a file in its cluster `k`: the file has a cluster `k`. */
  lemma {:induction false} ReachesOffset(b: BootSector, size: nat, position: nat, k: nat, n: nat)
    requires b.Accepted() && n == ClustersFor(b, size)
    requires Times(k, b.sectorsPerCluster * SECTOR_BYTES) <= position < size
    ensures k < n
  {
    hide ClustersFor;
    TimesOfBytes(k, b.sectorsPerCluster);
    if n < k {
      TimesGap(n, k, b.sectorsPerCluster);
    }
  }

  lemma {:induction false} BytesOfPrefix(d: Disk, sectors: seq<nat>, sectors': seq<nat>, size: nat)
    requires sectors <= sectors' && size <= SECTOR_BYTES * |sectors|
    requires forall i :: 0 <= i < |sectors'| ==> sectors'[i] < |d|
    ensures forall i :: 0 <= i < |sectors| ==> sectors[i] < |d|
    ensures BytesOf(d, sectors', size) == BytesOf(d, sectors, size)
  {
    forall i | 0 <= i < |sectors| ensures sectors[i] < |d| {
      assert sectors'[i] == sectors[i];
    }
    forall p | 0 <= p < size ensures BytesOf(d, sectors', size)[p] == BytesOf(d, sectors, size)[p] {
      assert sectors'[p / SECTOR_BYTES] == sectors[p / SECTOR_BYTES];
    }
  }

  /** The first `m` bytes of a file that can be read are those of the file cut there. */
  lemma {:induction false} FileBytesPrefix(b: BootSector, d: Disk, first: nat, size: nat, m: nat)
    requires Holds(b, d) && m <= size && FileBytes(b, d, first, size).Some?
    ensures FileBytes(b, d, first, m) == Some(FileBytes(b, d, first, size).value[..m])
  {
    var n, k := ClustersFor(b, size), ClustersFor(b, m);
    ClustersForFits(b, m, n);
    WalkPrefix(b, d, first, k, n);
    var w := Walk(b, d, first, n).value;
    SectorsOfPrefix(b, w, k);
    hide Walk, ClustersFor, SectorsOf;
    var sectors, front := SectorsOf(b, w), SectorsOf(b, w[..k]);
    BytesOfPrefix(d, front, sectors, m);
    assert BytesOf(d, sectors, size)[..m] == BytesOf(d, sectors, m);
  }

  /** A walk that covers a file is all it takes to read it. */
  lemma {:induction false} WalkIsFile(b: BootSector, d: Disk, first: nat, cs: seq<nat>, size: nat)
    requires Holds(b, d) && Walk(b, d, first, |cs|) == Some(cs) && |cs| <= b.clusters + 1
    requires size <= Times(|cs|, b.sectorsPerCluster * SECTOR_BYTES)
    ensures FileBytes(b, d, first, size).Some?
  {
    TimesOfBytes(|cs|, b.sectorsPerCluster);
    ClustersForFits(b, size, |cs|);
    WalkPrefix(b, d, first, ClustersFor(b, size), |cs|);
    hide Walk, ClustersFor, SectorsOf, BytesOf;
  }

  /** The walk goes through as many clusters as the volume has and then points outside of it. */
  ghost predicate LeavesVolume(b: BootSector, d: Disk, first: nat)
    requires Holds(b, d)
  {
    b.clusters > 0 && Walk(b, d, first, b.clusters).Some?
    && var next := EntryOf(b, d, Walk(b, d, first, b.clusters).value[b.clusters - 1]);
       next.Next? && !b.InRange(next.cluster)
  }

  lemma {:induction false} GaveUp(b: BootSector, d: Disk, first: nat, done: seq<nat>, cluster: U32)
    requires Holds(b, d) && Walk(b, d, first, |done|) == Some(done) && |done| == b.clusters
    requires done != [] ==> EntryOf(b, d, done[|done| - 1]) == Next(cluster)
    ensures Revisits(b, d, first) || LeavesVolume(b, d, first)
  {
    hide EntryOf, Revisits;
    if b.InRange(cluster) {
      WalkExtends(b, d, first, done, cluster);
      WalkTooLong(b, d, first, done + [cluster]);
    }
  }

  lemma {:induction false} MembersSize(s: seq<nat>)
    requires Distinct(s)
    ensures |Members(s)| == |s|
  {
    if s != [] {
      var last := |s| - 1;
      MembersSize(s[..last]);
      MembersGrow(s[..last], s[last]);
      assert s[..last] + [s[last]] == s;
    }
  }

  lemma {:induction false} MembersGrow(s: seq<nat>, c: nat)
    ensures Members(s + [c]) == Members(s) + {c}
  {
    var r := s + [c];
    forall x | x in Members(s) + {c} ensures x in Members(r) {
      if x == c {
        assert r[|s|] == c;
      } else {
        var i: nat :| i < |s| && s[i] == x;
        assert r[i] == x;
      }
    }
  }

  lemma {:induction false} FreeBelowStep(b: BootSector, d: Disk, c: nat)
    requires Holds(b, d) && b.InRange(c)
    ensures FreeBelow(b, d, c + 1) == if EntryOf(b, d, c) == Free then FreeBelow(b, d, c) + {c} else FreeBelow(b, d, c)
  {
    hide EntryOf;
  }

  lemma {:induction false} FreeBelowEnds(b: BootSector, d: Disk)
    requires Holds(b, d)
    ensures FreeBelow(b, d, FIRST_DATA_CLUSTER) == {}
    ensures FreeBelow(b, d, FIRST_DATA_CLUSTER + b.clusters) == FreeSet(b, d)
  {
    hide EntryOf;
  }

  /** Sector `i` of a file that holds `contents`, what is left of the last one zeroed. */
  ghost function Chunk(contents: seq<Byte>, i: nat): (r: Sector) {
    seq(SECTOR_BYTES, k requires 0 <= k < SECTOR_BYTES =>
      if SECTOR_BYTES * i + k < |contents| then contents[SECTOR_BYTES * i + k] else 0)
  }

  /** The first `q` sectors of a list hold what they should of `contents`. */
  ghost predicate HoldsChunks(d: Disk, sectors: seq<nat>, contents: seq<Byte>, q: nat)
    requires OnDisk(d, sectors)
  {
    forall i | 0 <= i < q && i < |sectors| && SECTOR_BYTES * i < |contents| :: d[sectors[i]] == Chunk(contents, i)
  }

  lemma {:induction false} ChunksAreBytes(d: Disk, sectors: seq<nat>, contents: seq<Byte>)
    requires OnDisk(d, sectors) && |contents| <= SECTOR_BYTES * |sectors|
    requires HoldsChunks(d, sectors, contents, |sectors|)
    ensures BytesOf(d, sectors, |contents|) == contents
  {
    forall p | 0 <= p < |contents| ensures BytesOf(d, sectors, |contents|)[p] == contents[p] {
      assert d[sectors[p / SECTOR_BYTES]] == Chunk(contents, p / SECTOR_BYTES);
    }
  }

  lemma {:induction false} ChunkWritten(d: Disk, sectors: seq<nat>, contents: seq<Byte>, q: nat)
    requires OnDisk(d, sectors) && Distinct(sectors) && q < |sectors| && HoldsChunks(d, sectors, contents, q)
    ensures HoldsChunks(d[sectors[q] := Chunk(contents, q)], sectors, contents, q + 1)
  {
    hide Chunk;
  }

  lemma {:induction false} ChunkIs(contents: seq<Byte>, q: nat, taking: nat)
    requires SECTOR_BYTES * q < |contents| && taking == Min(|contents| - SECTOR_BYTES * q, SECTOR_BYTES)
    ensures Chunk(contents, q)
            == contents[SECTOR_BYTES * q..SECTOR_BYTES * q + taking] + seq(SECTOR_BYTES - taking, _ => 0)
  {
  }

  lemma {:induction false} InMembers(cs: seq<nat>, i: nat)
    requires i < |cs|
    ensures cs[i] in Members(cs)
  {
  }

  /** What entry `i` of a chain should say. */
  ghost function LinkOf(chain: seq<nat>, i: nat): nat
    requires i < |chain|
  {
    if i + 1 < |chain| then chain[i + 1] else END_OF_CHAIN
  }

  /** Every copy of the table says `value` for `c`. */
  ghost predicate LinkedAs(b: BootSector, d: Disk, c: nat, value: nat)
    requires Holds(b, d) && b.InRange(c)
  {
    forall t: nat | t < b.fatCount :: RawEntry(b, d, t, c) % ENTRY_MODULUS == value % ENTRY_MODULUS
  }

  lemma {:induction false} KeptLink(b: BootSector, h: seq<Disk>, d: Disk, h': seq<Disk>, d': Disk, c: nat, other: nat,
                                    value: nat)
    requires Kept(b, h, d, h', d', {}, {c}) && b.InRange(other) && other != c && LinkedAs(b, d, other, value)
    ensures LinkedAs(b, d', other, value)
  {
    hide RawEntry;
    assert RawSame(b, d, d', other);
  }

  lemma {:induction false} LinkedEntry(b: BootSector, d: Disk, c: nat, value: nat)
    requires Holds(b, d) && b.InRange(c) && LinkedAs(b, d, c, value)
    ensures 2 <= value < 0x0FFF_FFF7 ==> EntryOf(b, d, c) == Next(value)
    ensures value == END_OF_CHAIN ==> EntryOf(b, d, c) == End
    ensures value == 0 ==> EntryOf(b, d, c) == Free
  {
    hide RawEntry;
  }

  lemma {:induction false} LinkedIsChain(b: BootSector, d: Disk, chain: seq<nat>)
    requires Holds(b, d) && AllInRange(b, chain) && Distinct(chain)
    requires forall i | 0 <= i < |chain| :: LinkedAs(b, d, chain[i], LinkOf(chain, i))
    ensures chain != [] && b.clusters + FIRST_DATA_CLUSTER <= 0x0FFF_FFF7 ==> IsChain(b, d, chain[0], chain)
    ensures forall c, t: nat | c in Members(chain) && t < b.fatCount ::
              RawEntry(b, d, t, c) % ENTRY_MODULUS == RawEntry(b, d, 0, c) % ENTRY_MODULUS
  {
    hide RawEntry, EntryOf, DecodeEntry;
    if chain != [] && b.clusters + FIRST_DATA_CLUSTER <= 0x0FFF_FFF7 {
      forall i | 0 <= i < |chain| - 1 ensures EntryOf(b, d, chain[i]) == Next(chain[i + 1]) {
        LinkedEntry(b, d, chain[i], LinkOf(chain, i));
      }
      LinkedEntry(b, d, chain[|chain| - 1], LinkOf(chain, |chain| - 1));
      LinkedIsWalk(b, d, chain);
    }
    forall c, t: nat | c in Members(chain) && t < b.fatCount
      ensures RawEntry(b, d, t, c) % ENTRY_MODULUS == RawEntry(b, d, 0, c) % ENTRY_MODULUS
    {
      var i: nat :| i < |chain| && chain[i] == c;
      assert LinkedAs(b, d, chain[i], LinkOf(chain, i));
    }
  }

  /** Where a slot is: the sector it is in, and the byte it starts at. */
  type Place = (U32, nat)

  ghost predicate InsideVolume(b: BootSector, place: Place) {
    place.0 < b.totalSectors && place.1 + 32 <= SECTOR_BYTES
  }

  ghost function PlaceOf(sectors: seq<nat>, i: nat): (nat, nat)
    requires i < SLOTS_PER_SECTOR * |sectors|
  {
    (sectors[i / SLOTS_PER_SECTOR], 32 * (i % SLOTS_PER_SECTOR))
  }

  /** The slots before `i` hold neither an end mark nor an entry stored as `encoded`; `free` is
      the place of slot `freeAt`, the first deleted one among them, if there is one. */
  ghost predicate Searched(d: Disk, sectors: seq<nat>, encoded: seq<Byte>, i: nat, free: Option<Place>, freeAt: nat)
    requires OnDisk(d, sectors)
  {
    && i <= SLOTS_PER_SECTOR * |sectors|
    && (forall k | 0 <= k < i :: !SlotAt(d, sectors, k).End? && !StoredAs(d, sectors, k, encoded))
    && (free.Some? ==>
          && freeAt < i && free.value == PlaceOf(sectors, freeAt) && SlotBytesAt(d, sectors, freeAt)[0] == Dir.DELETED
          && forall k | 0 <= k < freeAt :: SlotBytesAt(d, sectors, k)[0] != Dir.DELETED)
    && (free.None? ==> forall k | 0 <= k < i :: SlotBytesAt(d, sectors, k)[0] != Dir.DELETED)
  }

  lemma {:induction false} SearchedIsChosen(d: Disk, sectors: seq<nat>, encoded: seq<Byte>, i: nat,
                                            free: Option<Place>, freeAt: nat)
    requires OnDisk(d, sectors) && Searched(d, sectors, encoded, i, free, freeAt)
    requires i == SLOTS_PER_SECTOR * |sectors| || SlotAt(d, sectors, i).End?
    ensures free.Some? ==> Chosen(d, sectors, encoded, freeAt, None)
    ensures free.None? && i < SLOTS_PER_SECTOR * |sectors| ==> Chosen(d, sectors, encoded, i, None)
  {
    hide SlotAt, SlotBytesAt, StoredSlot;
    NothingStored(d, sectors, encoded, 0, i);
    if i < SLOTS_PER_SECTOR * |sectors| { VacantOrNot(d, sectors, i); }
    forall k | 0 <= k < i ensures Vacant(d, sectors, k) <==> SlotBytesAt(d, sectors, k)[0] == Dir.DELETED {
      VacantOrNot(d, sectors, k);
    }
  }

  lemma {:induction false} MatchIsChosen(d: Disk, sectors: seq<nat>, encoded: seq<Byte>, i: nat, free: Option<Place>,
                                         freeAt: nat)
    requires OnDisk(d, sectors) && Searched(d, sectors, encoded, i, free, freeAt)
    requires i < SLOTS_PER_SECTOR * |sectors| && StoredAs(d, sectors, i, encoded)
    ensures Chosen(d, sectors, encoded, i, Some(SlotAt(d, sectors, i).entry))
  {
    hide SlotAt, SlotBytesAt;
  }

  /** There is nowhere to put an entry: no slot is stored under these bytes, deleted or an end mark. */
  ghost predicate NoRoom(d: Disk, sectors: seq<nat>, encoded: seq<Byte>)
    requires OnDisk(d, sectors)
  {
    Searched(d, sectors, encoded, SLOTS_PER_SECTOR * |sectors|, None, 0)
  }

  /** And that is exactly when the directory has no slot for it. */
  lemma {:induction false} NoRoomExactly(d: Disk, sectors: seq<nat>, encoded: seq<Byte>)
    requires OnDisk(d, sectors)
    ensures NoRoom(d, sectors, encoded) <==> TheSlot(d, sectors, encoded) == None
  {
    hide SlotAt, SlotBytesAt;
    if NoRoom(d, sectors, encoded) {
      NothingStored(d, sectors, encoded, 0, SLOTS_PER_SECTOR * |sectors|);
      var v := VacantSlot(d, sectors, 0);
      if v.Some? { VacantOrNot(d, sectors, v.value); }
    } else if TheSlot(d, sectors, encoded) == None {
      forall k | 0 <= k < SLOTS_PER_SECTOR * |sectors|
        ensures !SlotAt(d, sectors, k).End? && SlotBytesAt(d, sectors, k)[0] != Dir.DELETED
      {
        VacantOrNot(d, sectors, k);
        assert !Vacant(d, sectors, k);
      }
      NotStoredAnywhere(d, sectors, encoded, 0);
    }
  }

  lemma {:induction false} NotStoredAnywhere(d: Disk, sectors: seq<nat>, encoded: seq<Byte>, i: nat)
    requires OnDisk(d, sectors) && StoredSlot(d, sectors, encoded, i) == None
    requires forall k | i <= k < SLOTS_PER_SECTOR * |sectors| :: !SlotAt(d, sectors, k).End?
    ensures forall k | i <= k < SLOTS_PER_SECTOR * |sectors| :: !StoredAs(d, sectors, k, encoded)
    decreases SLOTS_PER_SECTOR * |sectors| - i
  {
    hide SlotAt, SlotBytesAt;
    if i < SLOTS_PER_SECTOR * |sectors| { NotStoredAnywhere(d, sectors, encoded, i + 1); }
  }

  lemma {:induction false} SearchedNothing(d: Disk, sectors: seq<nat>, encoded: seq<Byte>)
    requires OnDisk(d, sectors)
    ensures Searched(d, sectors, encoded, 0, None, 0)
  {
  }

  lemma {:induction false} SearchOver(d: Disk, sectors: seq<nat>, encoded: seq<Byte>, free: Option<Place>, freeAt: nat)
    requires OnDisk(d, sectors) && Searched(d, sectors, encoded, SLOTS_PER_SECTOR * |sectors|, free, freeAt)
    ensures free.Some? ==> Chosen(d, sectors, encoded, freeAt, None) && free.value == PlaceOf(sectors, freeAt)
    ensures free.None? ==> NoRoom(d, sectors, encoded)
  {
    SearchedIsChosen(d, sectors, encoded, SLOTS_PER_SECTOR * |sectors|, free, freeAt);
  }

  lemma {:induction false} EntryNotDeleted(bytes: Dir.SlotBytes)
    requires Dir.SlotOf(bytes).Entry?
    ensures bytes[0] != Dir.DELETED
  {
  }

  /** Why giving a chain back stopped where it did: there was no next cluster, or it was not
      this chain's to give back. */
  ghost predicate StopsAfter(b: BootSector, d: Disk, first: nat, freed: seq<nat>, keep: seq<nat>)
    requires Holds(b, d) && AllInRange(b, freed)
  {
    if freed == [] then b.InRange(first) && (first in keep || EntryOf(b, d, first) == Free)
    else
      var next := EntryOf(b, d, freed[|freed| - 1]);
      next.Next? ==> b.InRange(next.cluster)
                     && (next.cluster in keep || next.cluster in Members(freed) || EntryOf(b, d, next.cluster) == Free)
  }

  /** Whichever of the eight end marks the last cluster of a walk holds: it is a whole chain, and a
      file that begins there can be read exactly as far as its clusters go, whose bytes it is. */
  lemma {:induction false} EndMarkReads(b: BootSector, d: Disk, first: nat, cs: seq<nat>, size: nat)
    requires Holds(b, d) && 0 < |cs| <= b.clusters && Walk(b, d, first, |cs|) == Some(cs)
    requires RawEntry(b, d, 0, cs[|cs| - 1]) % 0x1000_0000 >= 0x0FFF_FFF8
    ensures Distinct(cs) ==> IsChain(b, d, first, cs)
    ensures FileBytes(b, d, first, size).Some? <==> size <= Times(|cs|, b.sectorsPerCluster) * SECTOR_BYTES
    ensures FileBytes(b, d, first, size).Some? ==>
              && ClustersFor(b, size) <= |cs| && size <= SECTOR_BYTES * |SectorsOf(b, cs[..ClustersFor(b, size)])|
              && OnDisk(d, SectorsOf(b, cs[..ClustersFor(b, size)]))
              && FileBytes(b, d, first, size).value == BytesOf(d, SectorsOf(b, cs[..ClustersFor(b, size)]), size)
  {
    hide RawEntry, DecodeEntry, ClustersFor, Walk, SectorsOf, BytesOf;
    EntryMeans(RawEntry(b, d, 0, cs[|cs| - 1]));
    assert EntryOf(b, d, cs[|cs| - 1]) == End;
    if size <= Times(|cs|, b.sectorsPerCluster) * SECTOR_BYTES {
      ClustersForFits(b, size, |cs|);
      WalkPrefix(b, d, first, ClustersFor(b, size), |cs|);
    } else {
      WalkEndsHere(b, d, first, cs);
      NotAllThere(b, d, first, size, |cs|);
    }
  }

  /** After `freed` the table leads to no cluster there is. */
  ghost predicate LeadsOut(b: BootSector, d: Disk, first: nat, freed: seq<nat>)
    requires Holds(b, d) && AllInRange(b, freed)
  {
    if freed == [] then !b.InRange(first)
    else
      var next := EntryOf(b, d, freed[|freed| - 1]);
      next.Next? && !b.InRange(next.cluster)
  }

  lemma {:induction false} ChainNeverLeadsOut(b: BootSector, d: Disk, first: nat, chain: seq<nat>, freed: seq<nat>)
    requires Holds(b, d) && IsChain(b, d, first, chain) && Walk(b, d, first, |freed|) == Some(freed)
    ensures !LeadsOut(b, d, first, freed)
  {
    hide EntryOf;
    if |freed| <= |chain| {
      WalkPrefix(b, d, first, |freed|, |chain|);
      assert freed == chain[..|freed|];
      if 0 < |freed| < |chain| { WalkStep(b, d, first, chain, |freed| - 1); }
    } else {
      WalkEndsHere(b, d, first, chain);
      WalkStops(b, d, first, |chain| + 1, |freed|);
    }
  }

  /** A cluster among those given back is free now; any other says what it said. */
  lemma {:induction false} FreedOrAsBefore(b: BootSector, h: seq<Disk>, d: Disk, h': seq<Disk>, d': Disk,
                                           freed: seq<nat>, c: nat)
    requires Kept(b, h, d, h', d', {}, Members(freed)) && b.InRange(c) && AllInRange(b, freed)
    requires forall i | 0 <= i < |freed| :: LinkedAs(b, d', freed[i], 0)
    ensures c in Members(freed) ==> EntryOf(b, d', c) == Free
    ensures c !in Members(freed) ==> EntryOf(b, d', c) == EntryOf(b, d, c)
    ensures c !in Members(freed) ==> forall i | 0 <= i < |freed| :: freed[i] != c
    ensures freed == [] ==> c !in Members(freed)
  {
    hide EntryOf, RawEntry, LinkedAs, Only;
    OnlyHolds(b, d, d', {}, Members(freed));
    if c in Members(freed) {
      var i: nat :| i < |freed| && freed[i] == c;
      LinkedEntry(b, d', freed[i], 0);
    } else {
      OnlyKeepsEntry(b, d, d', {}, Members(freed), c);
      forall i | 0 <= i < |freed| ensures freed[i] != c {
        InMembers(freed, i);
      }
    }
  }

  /** A whole chain nothing keeps a part of is given back whole. */
  lemma {:induction false} FreedIsChain(b: BootSector, d: Disk, first: nat, chain: seq<nat>, freed: seq<nat>,
                                        keep: seq<nat>)
    requires Holds(b, d) && IsChain(b, d, first, chain) && Walk(b, d, first, |freed|) == Some(freed) && Distinct(freed)
    requires StopsAfter(b, d, first, freed, keep)
    requires forall i | 0 <= i < |chain| :: chain[i] !in keep
    ensures freed == chain
  {
    var n, m := |freed|, |chain|;
    if n <= m {
      WalkPrefix(b, d, first, n, m);
      if n < m {
        DoesNotStopShort(b, d, first, chain, n, keep);
      } else {
        assert chain[..n] == chain;
      }
    } else {
      WalkEndsHere(b, d, first, chain);
      WalkStops(b, d, first, m + 1, n);
    }
  }

  lemma {:induction false} DoesNotStopShort(b: BootSector, d: Disk, first: nat, chain: seq<nat>, n: nat, keep: seq<nat>)
    requires Holds(b, d) && IsChain(b, d, first, chain) && n < |chain|
    requires forall i | 0 <= i < |chain| :: chain[i] !in keep
    ensures !StopsAfter(b, d, first, chain[..n], keep)
  {
    NotFree(b, d, first, chain, n);
    if n > 0 {
      WalkStep(b, d, first, chain, n - 1);
      assert chain[..n][n - 1] == chain[n - 1];
      assert chain[n] !in Members(chain[..n]);
    }
  }

  lemma {:induction false} NotFree(b: BootSector, d: Disk, first: nat, chain: seq<nat>, i: nat)
    requires Holds(b, d) && IsChain(b, d, first, chain) && i < |chain|
    ensures EntryOf(b, d, chain[i]) != Free
  {
    if i + 1 < |chain| {
      WalkStep(b, d, first, chain, i);
    }
  }

  const FS_INFO_LEAD: U32 := 0x4161_5252
  const FS_INFO_STRUCTURE: U32 := 0x6141_7272

  /** The sector the boot sector points at really is an FSInfo one. */
  ghost predicate HasFsInfo(b: BootSector, d: Disk)
    requires Holds(b, d)
  {
    && 0 < b.fsInfoSector < b.reservedSectors && b.fsInfoSector < |d|
    && U32At(d[b.fsInfoSector], 0) == 0x4161_5252 && U32At(d[b.fsInfoSector], 484) == 0x6141_7272
  }

  /** `x` is the lowest member of `s`, or zero when it has none. */
  ghost predicate IsLowest(s: set<nat>, x: nat) {
    if s == {} then x == 0 else x in s && forall c | c in s :: x <= c
  }

  /** FSInfo says how many clusters are free and which is the lowest. */
  ghost predicate FsInfoTrue(b: BootSector, d: Disk)
    requires Holds(b, d) && HasFsInfo(b, d)
  {
    && U32At(d[b.fsInfoSector], 488) == |FreeSet(b, d)|
    && IsLowest(FreeSet(b, d), U32At(d[b.fsInfoSector], 492))
  }

  /** Nothing on the disk has changed but the eight bytes of the two counts. */
  ghost predicate OnlyCounts(b: BootSector, d: Disk, d': Disk) {
    && |d'| == |d|
    && (forall s | 0 <= s < |d| && s != b.fsInfoSector :: d'[s] == d[s])
    && (b.fsInfoSector < |d| ==>
          forall i | 0 <= i < SECTOR_BYTES && !(488 <= i < 496) :: d'[b.fsInfoSector][i] == d[b.fsInfoSector][i])
  }

  lemma {:induction false} CountsWritten(b: BootSector, d: Disk, free: U32, firstFree: U32)
    requires b.fsInfoSector < |d|
    ensures OnlyCounts(b, d, d[b.fsInfoSector := WithCounts(d[b.fsInfoSector], free, firstFree)])
  {
    hide LittleEndian32;
  }

  function WithCounts(bytes: Sector, free: U32, firstFree: U32): Sector {
    Splice(Splice(bytes, 488, LittleEndian32(free)), 492, LittleEndian32(firstFree))
  }

  lemma {:induction false} WithCountsFields(bytes: Sector, free: U32, firstFree: U32)
    ensures var r := WithCounts(bytes, free, firstFree);
            && U32At(r, 0) == U32At(bytes, 0) && U32At(r, 484) == U32At(bytes, 484)
            && U32At(r, 488) == free && U32At(r, 492) == firstFree
  {
    hide LittleEndian32;
    var r := WithCounts(bytes, free, firstFree);
    assert r[0..4] == bytes[0..4];
    U32AtSame(r, 0, bytes, 0);
    assert r[484..488] == bytes[484..488];
    U32AtSame(r, 484, bytes, 484);
    assert r[488..492] == LittleEndian32(free)[0..4];
    U32AtSame(r, 488, LittleEndian32(free), 0);
    assert r[492..496] == LittleEndian32(firstFree)[0..4];
    U32AtSame(r, 492, LittleEndian32(firstFree), 0);
  }

  lemma {:induction false} SameFreeSet(b: BootSector, d: Disk, d': Disk)
    requires Only(b, d, d', {}, {})
    ensures FreeSet(b, d') == FreeSet(b, d)
  {
    hide EntryOf, Only;
    OnlyHolds(b, d, d', {}, {});
    forall c: nat | b.InRange(c) ensures EntryOf(b, d', c) == EntryOf(b, d, c) {
      OnlyKeepsEntry(b, d, d', {}, {}, c);
    }
  }

  /** The nearest cluster number the volume has to `x`, or one past the last. */
  function Clamp(b: BootSector, x: nat): nat {
    if x < FIRST_DATA_CLUSTER then FIRST_DATA_CLUSTER
    else if x > FIRST_DATA_CLUSTER + b.clusters then FIRST_DATA_CLUSTER + b.clusters
    else x
  }

  /** The count and the lowest of the free clusters below `limit`. */
  ghost predicate Counted(b: BootSector, d: Disk, limit: nat, free: nat, firstFree: nat)
    requires Holds(b, d)
  {
    && FIRST_DATA_CLUSTER <= limit <= FIRST_DATA_CLUSTER + b.clusters
    && free == |FreeBelow(b, d, limit)| && free + FIRST_DATA_CLUSTER <= limit
    && IsLowest(FreeBelow(b, d, limit), firstFree)
  }

  lemma {:induction false} CountedStep(b: BootSector, d: Disk, cluster: nat, free: nat, firstFree: nat, bytes: Sector)
    requires Holds(b, d) && b.InRange(cluster) && Counted(b, d, cluster, free, firstFree)
    requires b.FirstFatSector() + cluster / ENTRIES_PER_SECTOR < |d|
    requires bytes == d[b.FirstFatSector() + cluster / ENTRIES_PER_SECTOR]
    ensures var isFree := U32At(bytes, cluster % ENTRIES_PER_SECTOR * 4) % ENTRY_MODULUS == 0;
            Counted(b, d, cluster + 1, if isFree then free + 1 else free,
                    if isFree && firstFree == 0 then cluster else firstFree)
  {
    assert b.TableSector(0, cluster) == b.FirstFatSector() + cluster / ENTRIES_PER_SECTOR;
    assert EntryOf(b, d, cluster) == Free <==> U32At(bytes, cluster % ENTRIES_PER_SECTOR * 4) % ENTRY_MODULUS == 0;
    CountedNext(b, d, cluster, free, firstFree);
  }

  lemma {:induction false} CountedNext(b: BootSector, d: Disk, cluster: nat, free: nat, firstFree: nat)
    requires Holds(b, d) && b.InRange(cluster) && Counted(b, d, cluster, free, firstFree)
    ensures var isFree := EntryOf(b, d, cluster) == Free;
            Counted(b, d, cluster + 1, if isFree then free + 1 else free,
                    if isFree && firstFree == 0 then cluster else firstFree)
  {
    hide EntryOf, FreeSet;
    FreeBelowStep(b, d, cluster);
    FreeBelowAbove(b, d, cluster);
  }

  lemma {:induction false} FreeBelowAbove(b: BootSector, d: Disk, limit: nat)
    requires Holds(b, d)
    ensures forall c | c in FreeBelow(b, d, limit) :: FIRST_DATA_CLUSTER <= c < limit
  {
  }

  /** Sector `sector` of the first table is inside it. */
  lemma {:induction false} TableSectorOf(b: BootSector, sector: nat)
    requires b.Accepted() && sector <= (FIRST_DATA_CLUSTER + b.clusters - 1) / ENTRIES_PER_SECTOR
    ensures b.FirstFatSector() + sector < b.FirstDataSector() <= b.totalSectors
  {
    var cluster := if sector == 0 then FIRST_DATA_CLUSTER else sector * ENTRIES_PER_SECTOR;
    assert b.TableSector(0, cluster) == b.FirstFatSector() + sector;
  }
}
