/** Cluster chains: where a walk of the table goes, and the bytes it passes over. */
module Chains {
  import opened Bytes
  import opened BootSectors
  import opened FatTable

  /** The first `n` clusters of the walk that starts at `first`, when there are that many. */
  ghost function Walk(b: BootSector, d: Disk, first: nat, n: nat): (r: Option<seq<nat>>)
    requires Holds(b, d)
    ensures r.Some? ==> |r.value| == n && AllInRange(b, r.value)
    ensures r.Some? && n > 0 ==> r.value[0] == first
  {
    if n == 0 then Some([])
    else if n == 1 then (if b.InRange(first) then Some([first]) else None)
    else
      var before := Walk(b, d, first, n - 1);
      if before.None? then None
      else
        var entry := EntryOf(b, d, before.value[n - 2]);
        if entry.Next? && b.InRange(entry.cluster) then Some(before.value + [entry.cluster]) else None
  }

  ghost predicate AllInRange(b: BootSector, cs: seq<nat>) {
    forall i :: 0 <= i < |cs| ==> b.InRange(cs[i])
  }

  ghost predicate Distinct(cs: seq<nat>) {
    forall i, j :: 0 <= i < j < |cs| ==> cs[i] != cs[j]
  }

  ghost function Members(cs: seq<nat>): set<nat> {
    set i: nat | i < |cs| :: cs[i]
  }

  /** A whole chain: it starts at `first`, ends in an end mark and never comes back. */
  ghost predicate IsChain(b: BootSector, d: Disk, first: nat, cs: seq<nat>)
    requires Holds(b, d)
  {
    && |cs| > 0 && Walk(b, d, first, |cs|) == Some(cs)
    && EntryOf(b, d, cs[|cs| - 1]) == End
    && Distinct(cs)
  }

  lemma {:induction false} WalkPrefix(b: BootSector, d: Disk, first: nat, m: nat, n: nat)
    requires Holds(b, d) && m <= n && Walk(b, d, first, n).Some?
    ensures Walk(b, d, first, m) == Some(Walk(b, d, first, n).value[..m])
    decreases n
  {
    var w := Walk(b, d, first, n).value;
    if m == n {
      assert w[..m] == w;
    } else if n > 1 {
      WalkPrefix(b, d, first, m, n - 1);
      assert w[..n - 1] == Walk(b, d, first, n - 1).value;
      assert w[..n - 1][..m] == w[..m];
    }
  }

  lemma {:induction false} WalkStops(b: BootSector, d: Disk, first: nat, m: nat, n: nat)
    requires Holds(b, d) && m <= n && Walk(b, d, first, m).None?
    ensures Walk(b, d, first, n).None?
  {
    if Walk(b, d, first, n).Some? {
      WalkPrefix(b, d, first, m, n);
    }
  }

  /** One step of a walk is what the table says there. */
  lemma {:induction false} WalkStep(b: BootSector, d: Disk, first: nat, cs: seq<nat>, i: nat)
    requires Holds(b, d) && Walk(b, d, first, |cs|) == Some(cs) && i + 1 < |cs|
    ensures EntryOf(b, d, cs[i]) == Next(cs[i + 1])
  {
    WalkPrefix(b, d, first, i + 2, |cs|);
    WalkPrefix(b, d, first, i + 1, |cs|);
    assert cs[..i + 2][i + 1] == cs[i + 1];
    assert cs[..i + 1][i] == cs[i];
  }

  /** Following the links of `cs` one by one is walking. */
  lemma {:induction false} LinkedIsWalk(b: BootSector, d: Disk, cs: seq<nat>)
    requires Holds(b, d) && AllInRange(b, cs) && |cs| > 0
    requires forall i :: 0 <= i < |cs| - 1 ==> EntryOf(b, d, cs[i]) == Next(cs[i + 1])
    ensures Walk(b, d, cs[0], |cs|) == Some(cs)
  {
    var n := |cs|;
    if n == 1 {
      assert cs == [cs[0]];
    } else {
      LinkedIsWalk(b, d, cs[..n - 1]);
      assert cs[..n - 1] + [cs[n - 1]] == cs;
      assert EntryOf(b, d, cs[n - 2]) == Next(cs[n - 2 + 1]);
    }
  }

  /** A walk only depends on the entries of the clusters it goes through. */
  lemma {:induction false} WalkFrame(b: BootSector, d: Disk, d': Disk, data: set<nat>, table: set<nat>, first: nat,
                                     cs: seq<nat>)
    requires Only(b, d, d', data, table)
    requires Walk(b, d, first, |cs|) == Some(cs)
    requires Members(cs) !! table
    ensures Walk(b, d', first, |cs|) == Some(cs)
  {
    if |cs| > 0 {
      forall i | 0 <= i < |cs| - 1 ensures EntryOf(b, d', cs[i]) == Next(cs[i + 1]) {
        WalkStep(b, d, first, cs, i);
        assert cs[i] in Members(cs);
        OnlyKeepsEntry(b, d, d', data, table, cs[i]);
      }
      LinkedIsWalk(b, d', cs);
    }
  }

  lemma {:induction false} ChainFrame(b: BootSector, d: Disk, d': Disk, data: set<nat>, table: set<nat>, first: nat,
                                      cs: seq<nat>)
    requires Only(b, d, d', data, table)
    requires IsChain(b, d, first, cs)
    requires Members(cs) !! table
    ensures IsChain(b, d', first, cs)
  {
    WalkFrame(b, d, d', data, table, first, cs);
    assert cs[|cs| - 1] in Members(cs);
    OnlyKeepsEntry(b, d, d', data, table, cs[|cs| - 1]);
  }

  /** The pigeonhole behind every `seen > clusters` check: a walk of more clusters than the
      volume has passes one of them twice. */
  lemma {:induction false} WalkRevisits(b: BootSector, d: Disk, first: nat, cs: seq<nat>)
    requires Holds(b, d) && Walk(b, d, first, |cs|) == Some(cs) && |cs| > b.clusters
    ensures !Distinct(cs)
  {
    if Distinct(cs) {
      DistinctIsShort(b, cs);
    }
  }

  lemma {:induction false} DistinctIsShort(b: BootSector, cs: seq<nat>)
    requires AllInRange(b, cs) && Distinct(cs)
    ensures |cs| <= b.clusters
  {
    Pigeonhole(cs, Interval(FIRST_DATA_CLUSTER, FIRST_DATA_CLUSTER + b.clusters));
  }

  /** The walk that ends is the only one: the chain a reader finds, looking for its end
      from length `n` on, as long as the volume could hold it. */
  ghost function ChainFrom(b: BootSector, d: Disk, first: nat, n: nat): (r: Option<seq<nat>>)
    requires Holds(b, d) && n > 0
    decreases b.clusters as int + 1 - n
  {
    if n > b.clusters then None
    else
      var w := Walk(b, d, first, n);
      if w.None? then None
      else if EntryOf(b, d, w.value[n - 1]) == End then w
      else ChainFrom(b, d, first, n + 1)
  }

  lemma {:induction false} ChainFromFinds(b: BootSector, d: Disk, first: nat, cs: seq<nat>, n: nat)
    requires Holds(b, d) && IsChain(b, d, first, cs) && 0 < n <= |cs|
    ensures ChainFrom(b, d, first, n) == Some(cs)
    decreases |cs| - n
  {
    hide EntryOf;
    DistinctIsShort(b, cs);
    WalkPrefix(b, d, first, n, |cs|);
    if n < |cs| {
      WalkStep(b, d, first, cs, n - 1);
      assert cs[..n][n - 1] == cs[n - 1];
      ChainFromFinds(b, d, first, cs, n + 1);
    } else {
      assert cs[..n] == cs;
    }
  }

  // ---------------------------------------------------------------------
  // The bytes of a chain
  // ---------------------------------------------------------------------

  ghost function ClusterSectors(b: BootSector, c: nat): (r: seq<nat>)
    requires b.Accepted() && b.InRange(c)
    ensures |r| == b.sectorsPerCluster
    ensures forall k: nat | k < |r| :: r[k] == b.DataSector(c, k)
  {
    seq(b.sectorsPerCluster, k requires 0 <= k < b.sectorsPerCluster => b.DataSector(c, k))
  }

  /** The sectors of a list of clusters, in order. */
  ghost function SectorsOf(b: BootSector, cs: seq<nat>): (r: seq<nat>)
    requires b.Accepted() && AllInRange(b, cs)
    ensures |r| == Times(|cs|, b.sectorsPerCluster)
    ensures forall i :: 0 <= i < |r| ==> r[i] < b.totalSectors
  {
    if cs == [] then []
    else
      var last := |cs| - 1;
      SectorsOf(b, cs[..last]) + ClusterSectors(b, cs[last])
  }

  lemma {:induction false} SectorsOfPrefix(b: BootSector, cs: seq<nat>, n: nat)
    requires b.Accepted() && AllInRange(b, cs) && n <= |cs|
    ensures SectorsOf(b, cs[..n]) <= SectorsOf(b, cs)
  {
    if n == |cs| {
      assert cs[..n] == cs;
    } else {
      var last := |cs| - 1;
      SectorsOfPrefix(b, cs[..last], n);
      assert cs[..last][..n] == cs[..n];
    }
  }

  /** Where sector `i * sectorsPerCluster + k` of a chain is. */
  lemma {:induction false} SectorsOfAt(b: BootSector, cs: seq<nat>, i: nat, k: nat)
    requires b.Accepted() && AllInRange(b, cs) && i < |cs| && k < b.sectorsPerCluster
    ensures 0 <= Times(i, b.sectorsPerCluster) + k < |SectorsOf(b, cs)|
    ensures SectorsOf(b, cs)[Times(i, b.sectorsPerCluster) + k] == b.DataSector(cs[i], k)
  {
    TimesGap(i, |cs|, b.sectorsPerCluster);
    SectorsOfPrefix(b, cs, i + 1);
    var p := cs[..i + 1];
    assert p[..i] == cs[..i] && p[i] == cs[i];
    assert SectorsOf(b, p) == SectorsOf(b, cs[..i]) + ClusterSectors(b, cs[i]);
  }

  /** Every sector of a list of clusters belongs to one of them. */
  lemma {:induction false} SectorsOfOwner(b: BootSector, cs: seq<nat>, j: nat) returns (i: nat, k: nat)
    requires b.Accepted() && AllInRange(b, cs) && j < |SectorsOf(b, cs)|
    ensures i < |cs| && k < b.sectorsPerCluster && SectorsOf(b, cs)[j] == b.DataSector(cs[i], k)
    ensures j == Times(i, b.sectorsPerCluster) + k
  {
    var last := |cs| - 1;
    if j < |SectorsOf(b, cs[..last])| {
      i, k := SectorsOfOwner(b, cs[..last], j);
    } else {
      i, k := last, j - |SectorsOf(b, cs[..last])|;
    }
  }

  lemma {:induction false} SectorsOfDistinct(b: BootSector, cs: seq<nat>)
    requires b.Accepted() && AllInRange(b, cs) && Distinct(cs)
    ensures Distinct(SectorsOf(b, cs))
  {
    var r := SectorsOf(b, cs);
    forall x, y | 0 <= x < y < |r| ensures r[x] != r[y] {
      var i, k := SectorsOfOwner(b, cs, x);
      var i', k' := SectorsOfOwner(b, cs, y);
      if r[x] == r[y] {
        DataSectorsDistinct(b, cs[i], k, cs[i'], k');
      }
    }
  }

  /** The first `size` bytes held by a list of sectors. */
  ghost function BytesOf(d: Disk, sectors: seq<nat>, size: nat): (r: seq<Byte>)
    requires size <= SECTOR_BYTES * |sectors|
    requires forall i :: 0 <= i < |sectors| ==> sectors[i] < |d|
    ensures |r| == size
    ensures forall p | 0 <= p < size :: r[p] == d[sectors[p / SECTOR_BYTES]][p % SECTOR_BYTES]
  {
    seq(size, p requires 0 <= p < size => d[sectors[p / SECTOR_BYTES]][p % SECTOR_BYTES])
  }

  /** How many clusters `size` bytes take. */
  function ClustersFor(b: BootSector, size: nat): (n: nat)
    requires b.Accepted()
    ensures size <= Times(n, b.sectorsPerCluster) * SECTOR_BYTES
    ensures n == 0 <==> size == 0
    ensures n > 0 ==> Times(n - 1, b.sectorsPerCluster) * SECTOR_BYTES < size
  {
    if size == 0 then 0
    else if size <= SECTOR_BYTES * b.sectorsPerCluster then 1
    else 1 + ClustersFor(b, size - SECTOR_BYTES * b.sectorsPerCluster)
  }

  /** What a whole-file read of a chain should give: the first `size` bytes of the clusters
      it takes to hold them, or nothing when the table does not lead to that many. */
  ghost function FileBytes(b: BootSector, d: Disk, first: nat, size: nat): (r: Option<seq<Byte>>)
    requires Holds(b, d)
    ensures r.Some? ==> |r.value| == size
  {
    var n := ClustersFor(b, size);
    var w := Walk(b, d, first, n);
    if w.None? || n > b.clusters + 1 then None
    else
      assert |SectorsOf(b, w.value)| == Times(n, b.sectorsPerCluster);
      Some(BytesOf(d, SectorsOf(b, w.value), size))
  }

  /** A file's bytes only depend on the clusters it goes through. */
  lemma {:induction false} FileBytesFrame(b: BootSector, d: Disk, d': Disk, data: set<nat>, table: set<nat>,
                                          first: nat, size: nat, cs: seq<nat>)
    requires Only(b, d, d', data, table)
    requires IsChain(b, d, first, cs) && size <= Times(|cs|, b.sectorsPerCluster) * SECTOR_BYTES
    requires Members(cs) !! data && Members(cs) !! table
    ensures FileBytes(b, d, first, size).Some?
    ensures FileBytes(b, d', first, size) == FileBytes(b, d, first, size)
  {
    var n := ClustersFor(b, size);
    ClustersForFits(b, size, |cs|);
    DistinctIsShort(b, cs);
    WalkPrefix(b, d, first, n, |cs|);
    ChainFrame(b, d, d', data, table, first, cs);
    WalkPrefix(b, d', first, n, |cs|);
    var w := cs[..n];
    var sectors := SectorsOf(b, w);
    forall j: nat | j < |sectors| ensures d'[sectors[j]] == d[sectors[j]] {
      var i, k := SectorsOfOwner(b, w, j);
      assert w[i] == cs[i] && cs[i] in Members(cs);
      assert DataSame(b, d, d', w[i]);
    }
    assert BytesOf(d', sectors, size) == BytesOf(d, sectors, size);
  }

  lemma {:induction false} ClustersForFits(b: BootSector, size: nat, m: nat)
    requires b.Accepted() && size <= Times(m, b.sectorsPerCluster) * SECTOR_BYTES
    ensures ClustersFor(b, size) <= m
  {
    var n := ClustersFor(b, size);
    if m + 1 < n {
      TimesGap(m, n - 1, b.sectorsPerCluster);
    }
  }
}
