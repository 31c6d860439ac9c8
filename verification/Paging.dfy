/** Four-level page tables as a tree of 512-entry tables (arch/x86_64/src/paging.rs; section 4.5
    of the Intel Software Developer's Manual, volume 3). */
module Paging {
  import opened Bytes

  const ENTRIES := 512
  const PAGE := 4096
  const KERNEL_BASE := 0xFFFF_8000_0000_0000
  const KERNEL_SLOT := 256
  const LOWER_END := 0x8000_0000_0000

  /** A table entry, its bits by name. `address` is bits 12 to 51, in place. */
  datatype TableEntry = TableEntry(present: bool, writable: bool, user: bool, writeThrough: bool, cacheDisable: bool,
                                   huge: bool, noExecute: bool, address: nat)
  {
    /** Points at a table of the next level. */
    predicate Link() {
      present && !huge
    }
  }

  const EMPTY := TableEntry(false, false, false, false, false, false, false, 0)

  type Table = t: seq<TableEntry> | |t| == ENTRIES witness seq(ENTRIES, _ => EMPTY)
  const ZEROED: Table := seq(ENTRIES, _ => EMPTY)

  /** Physical memory, as far as it holds page tables: what is in the frame at each address. */
  type Memory = map<nat, Table>

  datatype Translation = Translation(phys: nat, writable: bool, pageSize: nat)

  /** Bits 48 to 63 repeat bit 47. */
  predicate IsCanonical(va: U64) {
    va < LOWER_END || va >= KERNEL_BASE
  }

  /** How much address space one entry of a table of each level covers. */
  function Span(level: nat): nat
    requires level < 4
  {
    match level
    case 0 => 0x80_0000_0000
    case 1 => 0x4000_0000
    case 2 => 0x20_0000
    case 3 => 0x1000
  }

  function Index(va: U64, level: nat): (r: nat)
    requires level < 4
    ensures r < ENTRIES
  {
    va / Span(level) % ENTRIES
  }

  /** Canonical is what bits 47 to 63 being all alike is. */
  lemma {:induction false} CanonicalMeans(va: U64)
    ensures IsCanonical(va) <==> va / 0x8000_0000_0000 == 0 || va / 0x8000_0000_0000 == 0x1_FFFF
  {
  }

  lemma {:induction false} SpanOver(level: nat)
    requires level < 4
    ensures if level == 3 then Span(level) == PAGE else Span(level) > PAGE
  {
  }

  /** The indices of `va`, in walk order. */
  function Path(va: U64): (p: seq<nat>)
    ensures |p| == 4 && forall l :: 0 <= l < 4 ==> p[l] == Index(va, l)
  {
    [Index(va, 0), Index(va, 1), Index(va, 2), Index(va, 3)]
  }

  /** The walk from table `t` of `level` down; a frame that holds no table maps nothing. */
  function Walk(mem: Memory, t: nat, level: nat, va: U64, writable: bool): Option<Translation>
    requires level < 4
    decreases 4 - level
  {
    if t !in mem then None
    else
      var entry := mem[t][Index(va, level)];
      if !entry.present || (level == 0 && entry.huge) then None
      else if level == 3 || entry.huge then
        var size := Span(level);
        Some(Translation(entry.address - entry.address % size + va % size, writable && entry.writable, size))
      else Walk(mem, entry.address, level + 1, va, writable && entry.writable)
  }

  /** What `va` resolves to under `root`. */
  function Translate(mem: Memory, root: nat, va: U64): Option<Translation> {
    if !IsCanonical(va) then None else Walk(mem, root, 0, va, true)
  }

  /** Every entry of the walk from table `t` of `level` down lets ring 3 through. */
  predicate UserWalk(mem: Memory, t: nat, level: nat, va: U64)
    requires level < 4
    decreases 4 - level
  {
    t in mem
    && var entry := mem[t][Index(va, level)];
       entry.present && entry.user && (level == 3 || entry.huge || UserWalk(mem, entry.address, level + 1, va))
  }

  /** No entry of the walk from table `t` of `level` down forbids running code. */
  predicate Executes(mem: Memory, t: nat, level: nat, va: U64)
    requires level < 4
    decreases 4 - level
  {
    t in mem
    && var entry := mem[t][Index(va, level)];
       entry.present && !entry.noExecute && (level == 3 || entry.huge || Executes(mem, entry.address, level + 1, va))
  }

  /** The entry that maps the page of `va`, if the walk from table `t` of `level` down gets to one. */
  function LeafOf(mem: Memory, t: nat, level: nat, va: U64): Option<TableEntry>
    requires level < 4
    decreases 4 - level
  {
    if t !in mem then None
    else
      var entry := mem[t][Index(va, level)];
      if !entry.present || (level == 0 && entry.huge) then None
      else if level == 3 || entry.huge then Some(entry)
      else LeafOf(mem, entry.address, level + 1, va)
  }

  /** No address of the kernel's half is reachable from ring 3. */
  ghost predicate KernelSealed(mem: Memory, root: nat) {
    forall va: U64 | va >= KERNEL_BASE :: !UserWalk(mem, root, 0, va)
  }

  // ---------------------------------------------------------------------
  // The tree
  // ---------------------------------------------------------------------

  /** `tab` says where each table of the tree under `root` hangs: the indices that lead to it. */
  ghost predicate Tree(mem: Memory, root: nat, tab: map<seq<nat>, nat>) {
    Shape(mem, root, tab) && forall p, i | p in tab && 0 <= i < ENTRIES :: EntryOk(mem, tab, p, i)
  }

  ghost predicate Shape(mem: Memory, root: nat, tab: map<seq<nat>, nat>) {
    && [] in tab && tab[[]] == root
    && (forall p | p in tab :: |p| <= 3 && tab[p] in mem)
    && (forall p, q | p in tab && q in tab && tab[p] == tab[q] :: p == q)
    && (forall p | p in tab && p != [] :: p[..|p| - 1] in tab && p[|p| - 1] < ENTRIES)
  }

  /** Entry `i` of the table at `p` is a link exactly when a table hangs there. */
  ghost predicate EntryOk(mem: Memory, tab: map<seq<nat>, nat>, p: seq<nat>, i: nat)
    requires p in tab && i < ENTRIES && tab[p] in mem
  {
    var entry := mem[tab[p]][i];
    && (|p| < 3 ==> (p + [i] in tab <==> entry.Link()) && (entry.Link() ==> entry.address == tab[p + [i]]))
    && (p == [] ==> entry.present ==> !entry.huge)
  }

  ghost predicate SameTranslations(mem: Memory, mem': Memory, root: nat) {
    forall va: U64 :: Translate(mem', root, va) == Translate(mem, root, va)
  }

  ghost predicate SameLeaves(mem: Memory, mem': Memory, root: nat) {
    forall va: U64 :: LeafOf(mem', root, 0, va) == LeafOf(mem, root, 0, va)
  }

  lemma {:induction false} TreeAt(mem: Memory, root: nat, tab: map<seq<nat>, nat>, p: seq<nat>, i: nat)
    requires Tree(mem, root, tab) && p in tab && i < ENTRIES
    ensures |p| <= 3 && tab[p] in mem && EntryOk(mem, tab, p, i)
    ensures forall q | q in tab && tab[q] == tab[p] :: q == p
  {
  }

  /** A walk goes through entry `i` of the table at `p` exactly when those are its first indices. */
  lemma {:induction false} Through(path: seq<nat>, p: seq<nat>, i: nat, level: nat)
    requires level < |path|
    ensures p == path[..level] && i == path[level] ==> p + [i] <= path
    ensures path[..level + 1] == path[..level] + [path[level]]
  {
  }

  /** Writing entry `i` of the table at `p` only concerns addresses whose walk goes through it. */
  lemma {:induction false} WalkFrame(mem: Memory, mem': Memory, root: nat, tab: map<seq<nat>, nat>, p: seq<nat>,
                                     i: nat, e: TableEntry,
                                     va: U64, level: nat, writable: bool)
    requires Tree(mem, root, tab) && p in tab && tab[p] in mem && i < ENTRIES && level < 4
    requires mem' == mem[tab[p] := mem[tab[p]][i := e]]
    requires !(p + [i] <= Path(va)) && Path(va)[..level] in tab
    ensures Walk(mem', tab[Path(va)[..level]], level, va, writable)
            == Walk(mem, tab[Path(va)[..level]], level, va, writable)
    ensures UserWalk(mem', tab[Path(va)[..level]], level, va) == UserWalk(mem, tab[Path(va)[..level]], level, va)
    ensures LeafOf(mem', tab[Path(va)[..level]], level, va) == LeafOf(mem, tab[Path(va)[..level]], level, va)
    decreases 4 - level
  {
    hide Index, Span, Tree;
    var q := Path(va)[..level];
    var t, k := tab[q], Path(va)[level];
    TreeAt(mem, root, tab, q, k);
    Through(Path(va), p, i, level);
    assert mem'[t][k] == mem[t][k];
    if level < 3 && mem[t][k].Link() {
      WalkFrame(mem, mem', root, tab, p, i, e, va, level + 1, writable && mem[t][k].writable);
    }
  }

  /** Writing a frame that is no table of the tree concerns no address at all. */
  lemma {:induction false} WalkOutside(mem: Memory, mem': Memory, root: nat, tab: map<seq<nat>, nat>, va: U64,
                                       level: nat, writable: bool)
    requires Tree(mem, root, tab) && level < 4
    requires forall p | p in tab && |p| >= level :: tab[p] in mem' && mem'[tab[p]] == mem[tab[p]]
    requires Path(va)[..level] in tab
    ensures Walk(mem', tab[Path(va)[..level]], level, va, writable)
            == Walk(mem, tab[Path(va)[..level]], level, va, writable)
    ensures UserWalk(mem', tab[Path(va)[..level]], level, va) == UserWalk(mem, tab[Path(va)[..level]], level, va)
    ensures Executes(mem', tab[Path(va)[..level]], level, va) == Executes(mem, tab[Path(va)[..level]], level, va)
    ensures LeafOf(mem', tab[Path(va)[..level]], level, va) == LeafOf(mem, tab[Path(va)[..level]], level, va)
    decreases 4 - level
  {
    hide Index, Span;
    var q := Path(va)[..level];
    var t, k := tab[q], Path(va)[level];
    assert EntryOk(mem, tab, q, k);
    if level < 3 && mem[t][k].Link() {
      assert Path(va)[..level + 1] == q + [k];
      WalkOutside(mem, mem', root, tab, va, level + 1, writable && mem[t][k].writable);
    }
  }

  /** The indices of two canonical addresses agree exactly when they are in the same page. */
  lemma {:induction false} SamePath(va: U64, va': U64)
    requires IsCanonical(va) && IsCanonical(va')
    ensures Path(va) == Path(va') <==> va / PAGE == va' / PAGE
  {
    if Path(va) == Path(va') {
      PathDecides(va);
      PathDecides(va');
      forall l | 0 <= l < 4 ensures Index(va, l) == Index(va', l) {
        assert Path(va)[l] == Path(va')[l];
      }
    }
    if va / PAGE == va' / PAGE {
      PageDecides(va, va');
    }
  }

  /** Page numbers, nine bits at a time. */
  lemma {:induction false} Shifts(va: U64)
    ensures var x := va / PAGE;
            && Index(va, 3) == x % 512 && Index(va, 2) == x / 512 % 512
            && Index(va, 1) == x / 512 / 512 % 512 && Index(va, 0) == x / 512 / 512 / 512 % 512
  {
    var x := va / PAGE;
    assert va / 0x20_0000 == x / 512;
    assert va / 0x4000_0000 == x / 512 / 512;
    assert va / 0x80_0000_0000 == x / 512 / 512 / 512;
  }

  lemma {:induction false} PathDecides(va: U64)
    requires IsCanonical(va)
    ensures va / PAGE == Index(va, 0) * 0x800_0000 + Index(va, 1) * 0x4_0000 + Index(va, 2) * 0x200 + Index(va, 3)
                         + if Index(va, 0) < KERNEL_SLOT then 0 else 0xF_FFF0_0000_0000
    ensures Index(va, 0) < KERNEL_SLOT <==> va < LOWER_END
  {
    hide Index, Span;
    Shifts(va);
    var x := va / PAGE;
    var y := x / 512;
    var z := y / 512;
    var w := z / 512;
    assert x == 512 * y + x % 512 && y == 512 * z + y % 512 && z == 512 * w + z % 512;
    if va < LOWER_END {
      assert x < 0x8_0000_0000 && y < 0x400_0000 && z < 0x2_0000 && w < 256;
      assert w % 512 == w;
    } else {
      assert 0xF_FFF8_0000_0000 <= x < 0x10_0000_0000_0000;
      assert 0x1FF_FF00 <= w < 0x200_0000;
      assert w % 512 == w - 0x1FF_FE00;
    }
  }

  lemma {:induction false} PageDecides(va: U64, va': U64)
    requires va / PAGE == va' / PAGE
    ensures Path(va) == Path(va')
  {
    hide Index;
    Shifts(va);
    Shifts(va');
  }

  // ---------------------------------------------------------------------
  // What each kind of write does
  // ---------------------------------------------------------------------

  /** The links of the first `level` steps of a walk all allow writing. */
  ghost predicate LinksWritable(mem: Memory, tab: map<seq<nat>, nat>, path: seq<nat>, level: nat)
    requires level <= |path|
  {
    level == 0 || (LinksWritable(mem, tab, path, level - 1)
                   && LinkWritable(mem, tab, path[..level - 1], path[level - 1]))
  }

  ghost predicate LinkWritable(mem: Memory, tab: map<seq<nat>, nat>, p: seq<nat>, i: nat) {
    p in tab && tab[p] in mem && i < ENTRIES && mem[tab[p]][i].writable
  }

  /** The walk of an address is, from some level on, the walk from the table it has reached. */
  lemma {:induction false} WalkDown(mem: Memory, root: nat, tab: map<seq<nat>, nat>, va: U64, level: nat)
    requires Tree(mem, root, tab) && level < 4 && Path(va)[..level] in tab
    ensures Walk(mem, root, 0, va, true)
            == Walk(mem, tab[Path(va)[..level]], level, va, LinksWritable(mem, tab, Path(va), level))
    ensures LeafOf(mem, root, 0, va) == LeafOf(mem, tab[Path(va)[..level]], level, va)
    decreases level
  {
    hide Index, Span, Tree;
    if level == 0 {
      TreeAt(mem, root, tab, [], 0);
      RootAt(mem, root, tab);
      assert Path(va)[..0] == [];
    } else {
      var q, k := Path(va)[..level - 1], Path(va)[level - 1];
      Through(Path(va), q, k, level - 1);
      TreePrefix(mem, root, tab, Path(va)[..level]);
      assert Path(va)[..level][..level - 1] == q;
      TreeAt(mem, root, tab, q, k);
      WalkDown(mem, root, tab, va, level - 1);
    }
  }

  lemma {:induction false} TreeTables(mem: Memory, root: nat, tab: map<seq<nat>, nat>)
    requires Tree(mem, root, tab)
    ensures forall p | p in tab :: tab[p] in mem && |p| <= 3
  {
  }

  lemma {:induction false} RootAt(mem: Memory, root: nat, tab: map<seq<nat>, nat>)
    requires Tree(mem, root, tab)
    ensures [] in tab && tab[[]] == root && root in mem
  {
  }

  lemma {:induction false} TreePrefix(mem: Memory, root: nat, tab: map<seq<nat>, nat>, p: seq<nat>)
    requires Tree(mem, root, tab) && p in tab && p != []
    ensures p[..|p| - 1] in tab && 0 <= p[|p| - 1] < ENTRIES
  {
  }

  /** Frames outside the tree can hold anything. */
  lemma {:induction false} OutsideTree(mem: Memory, mem': Memory, root: nat, tab: map<seq<nat>, nat>)
    requires Tree(mem, root, tab)
    requires forall p | p in tab :: tab[p] in mem' && mem'[tab[p]] == mem[tab[p]]
    ensures Tree(mem', root, tab) && SameTranslations(mem, mem', root) && SameLeaves(mem, mem', root)
  {
    assert Tree(mem', root, tab) by {
      forall p, i | p in tab && 0 <= i < ENTRIES ensures EntryOk(mem', tab, p, i) {
        assert EntryOk(mem, tab, p, i);
      }
    }
    forall va: U64
      ensures Translate(mem', root, va) == Translate(mem, root, va)
      ensures LeafOf(mem', root, 0, va) == LeafOf(mem, root, 0, va)
    {
      assert Path(va)[..0] == [];
      WalkOutside(mem, mem', root, tab, va, 0, true);
    }
  }

  /** Hanging a zeroed table where there was none: the tree grows and no address notices. */
  lemma {:induction false} LinkNew(mem: Memory, root: nat, tab: map<seq<nat>, nat>, p: seq<nat>, i: nat, f: nat,
                                   e: TableEntry)
    requires Tree(mem, root, tab) && p in tab && |p| < 3 && i < ENTRIES && tab[p] in mem && !mem[tab[p]][i].present
    requires f in mem && mem[f] == ZEROED && (forall q | q in tab :: tab[q] != f)
    requires e.Link() && e.address == f
    ensures var mem' := mem[tab[p] := mem[tab[p]][i := e]];
            Tree(mem', root, tab[p + [i] := f]) && SameTranslations(mem, mem', root) && SameLeaves(mem, mem', root)
  {
    var mem' := mem[tab[p] := mem[tab[p]][i := e]];
    LinkNewTree(mem, root, tab, p, i, f, e);
    forall va: U64
      ensures Translate(mem', root, va) == Translate(mem, root, va)
      ensures LeafOf(mem', root, 0, va) == LeafOf(mem, root, 0, va)
    {
      hide Tree, Index, Span;
      RootAt(mem, root, tab);
      assert Path(va)[..0] == [];
      if p + [i] <= Path(va) {
        PrefixParts(p, i, Path(va));
        WalkDown(mem, root, tab, va, |p|);
        PrefixKept(mem, mem', tab, tab[p + [i] := f], p, i, f);
        WalkDown(mem', root, tab[p + [i] := f], va, |p|);
      } else {
        WalkFrame(mem, mem', root, tab, p, i, e, va, 0, true);
      }
    }
  }

  lemma {:induction false} PrefixKept(mem: Memory, mem': Memory, tab: map<seq<nat>, nat>, tab': map<seq<nat>, nat>,
                                      p: seq<nat>, i: nat, f: nat)
    requires p in tab && tab' == tab[p + [i] := f]
    ensures p in tab' && tab'[p] == tab[p]
  {
    assert |p + [i]| != |p|;
  }

  lemma {:induction false} PrefixParts(p: seq<nat>, i: nat, path: seq<nat>)
    requires p + [i] <= path
    ensures |p| < |path| && path[..|p|] == p && path[|p|] == i
  {
    assert path[|p|] == (p + [i])[|p|];
    assert path[..|p|] == (p + [i])[..|p|] == p;
  }

  lemma {:induction false} NothingUnder(mem: Memory, root: nat, tab: map<seq<nat>, nat>, p: seq<nat>, i: nat)
    requires Tree(mem, root, tab) && p !in tab
    ensures p + [i] !in tab
  {
    assert (p + [i])[..|p|] == p;
  }

  lemma {:induction false} LinkNewTree(mem: Memory, root: nat, tab: map<seq<nat>, nat>, p: seq<nat>, i: nat, f: nat,
                                       e: TableEntry)
    requires Tree(mem, root, tab) && p in tab && |p| < 3 && i < ENTRIES && tab[p] in mem && !mem[tab[p]][i].present
    requires f in mem && mem[f] == ZEROED && (forall q | q in tab :: tab[q] != f)
    requires e.Link() && e.address == f
    ensures Tree(mem[tab[p] := mem[tab[p]][i := e]], root, tab[p + [i] := f])
  {
    var mem' := mem[tab[p] := mem[tab[p]][i := e]];
    var r := p + [i];
    TreeAt(mem, root, tab, p, i);
    GrowsShape(mem, mem', root, tab, p, i, f);
    var tab' := tab[r := f];
    forall q, k | q in tab' && 0 <= k < ENTRIES ensures EntryOk(mem', tab', q, k) {
      hide Tree, Shape, EntryOk;
      LinkNewEntry(mem, root, tab, p, i, f, e, q, k);
    }
  }

  lemma {:induction false} LinkNewEntry(mem: Memory, root: nat, tab: map<seq<nat>, nat>, p: seq<nat>, i: nat, f: nat,
                                        e: TableEntry, q: seq<nat>, k: nat)
    requires Tree(mem, root, tab) && p in tab && |p| < 3 && i < ENTRIES && tab[p] in mem && !mem[tab[p]][i].present
    requires f in mem && mem[f] == ZEROED && (forall q | q in tab :: tab[q] != f)
    requires e.Link() && e.address == f && (q in tab || q == p + [i]) && k < ENTRIES
    ensures var tab', mem' := tab[p + [i] := f], mem[tab[p] := mem[tab[p]][i := e]];
            tab'[q] in mem' && EntryOk(mem', tab', q, k)
  {
    hide Tree, Shape;
    TreeAt(mem, root, tab, p, i);
    if q == p + [i] {
      NothingUnder(mem, root, tab, p + [i], k);
      assert |q + [k]| != |p + [i]|;
    } else {
      TreeAt(mem, root, tab, q, k);
      NextDecides(q, k, p, i);
    }
  }

  lemma {:induction false} GrowsShape(mem: Memory, mem': Memory, root: nat, tab: map<seq<nat>, nat>, p: seq<nat>,
                                      i: nat, f: nat)
    requires Shape(mem, root, tab) && p in tab && |p| < 3 && i < ENTRIES && p + [i] !in tab
    requires f in mem' && mem.Keys <= mem'.Keys && (forall q | q in tab :: tab[q] != f)
    ensures Shape(mem', root, tab[p + [i] := f])
  {
    var r := p + [i];
    assert r[..|r| - 1] == p;
  }

  lemma {:induction false} NextDecides(q: seq<nat>, k: nat, p: seq<nat>, i: nat)
    ensures q + [k] == p + [i] <==> q == p && k == i
  {
    if q + [k] == p + [i] {
      assert q == (q + [k])[..|q|] && p == (p + [i])[..|p|];
      assert k == (q + [k])[|q|];
    }
  }

  /** The same tables, but for who may pass. */
  ghost predicate SameButUser(mem: Memory, mem': Memory) {
    && mem.Keys == mem'.Keys
    && forall t, i | t in mem && 0 <= i < ENTRIES :: mem'[t][i] == mem[t][i].(user := mem'[t][i].user)
  }

  lemma {:induction false} WalkIgnoresUser(mem: Memory, mem': Memory, t: nat, level: nat, va: U64, writable: bool)
    requires SameButUser(mem, mem') && level < 4
    ensures Walk(mem', t, level, va, writable) == Walk(mem, t, level, va, writable)
    decreases 4 - level
  {
    hide Index, Span;
    if t in mem {
      var entry := mem[t][Index(va, level)];
      assert mem'[t][Index(va, level)] == entry.(user := mem'[t][Index(va, level)].user);
      if level < 3 && entry.Link() {
        WalkIgnoresUser(mem, mem', entry.address, level + 1, va, writable && entry.writable);
      }
    }
  }

  /** Letting ring 3 through a link: the tree, every translation and every leaf stay. */
  lemma {:induction false} LetThrough(mem: Memory, root: nat, tab: map<seq<nat>, nat>, p: seq<nat>, i: nat)
    requires Tree(mem, root, tab) && p in tab && tab[p] in mem && i < ENTRIES && |p| < 3 && mem[tab[p]][i].Link()
    ensures var mem' := mem[tab[p] := mem[tab[p]][i := mem[tab[p]][i].(user := true)]];
            Tree(mem', root, tab) && SameTranslations(mem, mem', root) && SameLeaves(mem, mem', root)
  {
    var mem' := mem[tab[p] := mem[tab[p]][i := mem[tab[p]][i].(user := true)]];
    assert SameButUser(mem, mem');
    SameTree(mem, mem', root, tab);
    forall va: U64 ensures Translate(mem', root, va) == Translate(mem, root, va) {
      hide Tree, SameButUser;
      WalkIgnoresUser(mem, mem', root, 0, va, true);
    }
    forall va: U64 ensures LeafOf(mem', root, 0, va) == LeafOf(mem, root, 0, va) {
      hide Tree, SameButUser;
      RootAt(mem, root, tab);
      assert Path(va)[..0] == [];
      LeafLetThrough(mem, mem', root, tab, p, i, va, 0);
    }
  }

  lemma {:induction false} LeafLetThrough(mem: Memory, mem': Memory, root: nat, tab: map<seq<nat>, nat>, p: seq<nat>,
                                          i: nat, va: U64, level: nat)
    requires Tree(mem, root, tab) && p in tab && tab[p] in mem && i < ENTRIES && |p| < 3 && mem[tab[p]][i].Link()
    requires level < 4
    requires mem' == mem[tab[p] := mem[tab[p]][i := mem[tab[p]][i].(user := true)]] && Path(va)[..level] in tab
    ensures LeafOf(mem', tab[Path(va)[..level]], level, va) == LeafOf(mem, tab[Path(va)[..level]], level, va)
    decreases 4 - level
  {
    hide Index, Span, Tree;
    var q := Path(va)[..level];
    var t, k := tab[q], Path(va)[level];
    TreeAt(mem, root, tab, q, k);
    TreeAt(mem, root, tab, p, i);
    Through(Path(va), q, k, level);
    if level < 3 && mem[t][k].Link() {
      LeafLetThrough(mem, mem', root, tab, p, i, va, level + 1);
    }
  }

  lemma {:induction false} SameTree(mem: Memory, mem': Memory, root: nat, tab: map<seq<nat>, nat>)
    requires Tree(mem, root, tab) && SameButUser(mem, mem')
    ensures Tree(mem', root, tab)
  {
    forall q, k | q in tab && 0 <= k < ENTRIES ensures tab[q] in mem' && EntryOk(mem', tab, q, k) {
      assert EntryOk(mem, tab, q, k);
      assert mem'[tab[q]][k] == mem[tab[q]][k].(user := mem'[tab[q]][k].user);
    }
  }

  /** Writing a leaf: the tree stays, and only the page it is for translates differently. */
  lemma {:induction false} WriteLeaf(mem: Memory, root: nat, tab: map<seq<nat>, nat>, page: U64, e: TableEntry)
    requires Tree(mem, root, tab) && IsCanonical(page) && Path(page)[..3] in tab && tab[Path(page)[..3]] in mem
    requires e.address % PAGE == 0
    ensures var p, i := Path(page)[..3], Path(page)[3];
            var mem' := mem[tab[p] := mem[tab[p]][i := e]];
            && Tree(mem', root, tab)
            && (forall va: U64 | IsCanonical(va) && va / PAGE == page / PAGE ::
                  Translate(mem', root, va) == if e.present
                    then Some(Translation(e.address + va % PAGE,
                                          LinksWritable(mem, tab, Path(page), 3) && e.writable, PAGE))
                    else None)
            && (forall va: U64 | !(IsCanonical(va) && va / PAGE == page / PAGE) ::
                  Translate(mem', root, va) == Translate(mem, root, va))
            && (forall va: U64 | IsCanonical(va) ::
                  LeafOf(mem', root, 0, va)
                  == if va / PAGE != page / PAGE then LeafOf(mem, root, 0, va) else if e.present then Some(e) else None)
  {
    hide Tree, Index, Walk, LeafOf;
    var p, i := Path(page)[..3], Path(page)[3];
    var mem' := mem[tab[p] := mem[tab[p]][i := e]];
    LeafTree(mem, root, tab, p, i, e);
    forall va: U64 | IsCanonical(va)
      ensures Translate(mem', root, va) ==
        if va / PAGE != page / PAGE then Translate(mem, root, va)
        else if e.present
        then Some(Translation(e.address + va % PAGE, LinksWritable(mem, tab, Path(page), 3) && e.writable, PAGE))
        else None
      ensures LeafOf(mem', root, 0, va)
              == if va / PAGE != page / PAGE then LeafOf(mem, root, 0, va) else if e.present then Some(e) else None
    {
      if va / PAGE == page / PAGE {
        LeafRead(mem, root, tab, page, e, va);
      } else {
        LeafElsewhere(mem, root, tab, page, e, va);
      }
    }
  }

  lemma {:induction false} LeafTree(mem: Memory, root: nat, tab: map<seq<nat>, nat>, p: seq<nat>, i: nat, e: TableEntry)
    requires Tree(mem, root, tab) && p in tab && tab[p] in mem && |p| == 3 && i < ENTRIES
    ensures Tree(mem[tab[p] := mem[tab[p]][i := e]], root, tab)
  {
    var mem' := mem[tab[p] := mem[tab[p]][i := e]];
    forall q, k | q in tab && 0 <= k < ENTRIES ensures tab[q] in mem' && EntryOk(mem', tab, q, k) {
      assert EntryOk(mem, tab, q, k);
    }
  }

  lemma {:induction false} LeafRead(mem: Memory, root: nat, tab: map<seq<nat>, nat>, page: U64, e: TableEntry, va: U64)
    requires Tree(mem, root, tab) && Path(page)[..3] in tab && tab[Path(page)[..3]] in mem && e.address % PAGE == 0
    requires IsCanonical(page) && IsCanonical(va) && va / PAGE == page / PAGE
    ensures var p, i := Path(page)[..3], Path(page)[3];
            Translate(mem[tab[p] := mem[tab[p]][i := e]], root, va) == if e.present
              then Some(Translation(e.address + va % PAGE, LinksWritable(mem, tab, Path(page), 3) && e.writable, PAGE))
              else None
    ensures var p, i := Path(page)[..3], Path(page)[3];
            LeafOf(mem[tab[p] := mem[tab[p]][i := e]], root, 0, va) == if e.present then Some(e) else None
  {
    hide Tree, Index;
    var p, i := Path(page)[..3], Path(page)[3];
    var mem' := mem[tab[p] := mem[tab[p]][i := e]];
    LeafTree(mem, root, tab, p, i, e);
    LinksKept(mem, mem', root, tab, page, e, 3);
    SamePath(va, page);
    WalkDown(mem', root, tab, va, 3);
  }

  lemma {:induction false} LeafElsewhere(mem: Memory, root: nat, tab: map<seq<nat>, nat>, page: U64, e: TableEntry,
                                         va: U64)
    requires Tree(mem, root, tab) && Path(page)[..3] in tab && tab[Path(page)[..3]] in mem
    requires IsCanonical(page) && IsCanonical(va) && va / PAGE != page / PAGE
    ensures var p, i := Path(page)[..3], Path(page)[3];
            && Translate(mem[tab[p] := mem[tab[p]][i := e]], root, va) == Translate(mem, root, va)
            && LeafOf(mem[tab[p] := mem[tab[p]][i := e]], root, 0, va) == LeafOf(mem, root, 0, va)
  {
    hide Tree, Index, Walk;
    var p, i := Path(page)[..3], Path(page)[3];
    var mem' := mem[tab[p] := mem[tab[p]][i := e]];
    SamePath(va, page);
    assert Path(va) == Path(va)[..3] + [Path(va)[3]] && Path(page) == p + [i];
    if p + [i] <= Path(va) {
      PrefixParts(p, i, Path(va));
    }
    RootAt(mem, root, tab);
    assert Path(va)[..0] == [];
    WalkFrame(mem, mem', root, tab, p, i, e, va, 0, true);
  }

  lemma {:induction false} LinksKept(mem: Memory, mem': Memory, root: nat, tab: map<seq<nat>, nat>, page: U64,
                                     e: TableEntry, level: nat)
    requires Tree(mem, root, tab) && Path(page)[..3] in tab && tab[Path(page)[..3]] in mem && level <= 3
    requires mem' == mem[tab[Path(page)[..3]] := mem[tab[Path(page)[..3]]][Path(page)[3] := e]]
    ensures LinksWritable(mem', tab, Path(page), level) <==> LinksWritable(mem, tab, Path(page), level)
  {
    hide Index;
    if level > 0 {
      LinksKept(mem, mem', root, tab, page, e, level - 1);
      assert |Path(page)[..level - 1]| != |Path(page)[..3]|;
    }
  }

  /** A page is mapped whole or not at all. */
  lemma {:induction false} WholePage(mem: Memory, root: nat, va: U64, va': U64)
    requires IsCanonical(va) && IsCanonical(va') && va / PAGE == va' / PAGE
    ensures Translate(mem, root, va).None? <==> Translate(mem, root, va').None?
  {
    hide Index;
    SamePath(va, va');
    WholeWalk(mem, root, 0, va, va', true);
  }

  lemma {:induction false} WholeWalk(mem: Memory, t: nat, level: nat, va: U64, va': U64, writable: bool)
    requires level < 4 && Path(va) == Path(va')
    ensures Walk(mem, t, level, va, writable).None? <==> Walk(mem, t, level, va', writable).None?
    decreases 4 - level
  {
    hide Index, Span;
    assert Path(va)[level] == Path(va')[level];
    if t in mem && level < 3 && mem[t][Index(va, level)].Link() {
      WholeWalk(mem, mem[t][Index(va, level)].address, level + 1, va, va',
                writable && mem[t][Index(va, level)].writable);
    }
  }
}
