/** What the steps of mapping a page do to the tree, to every translation and to the frames. */
module PagingSteps {
  import opened Bytes
  import opened Paging

  /** Physical memory ends below this, so adding a window's base to a frame never wraps. */
  const FRAME_LIMIT := 0x4000_0000_0000

  datatype CachePolicy = WriteBack | Unspecified | WriteThrough | WriteCombining | Uncacheable

  datatype PageFlags = PageFlags(writable: bool, executable: bool, user: bool, cache: CachePolicy)

  datatype MapError = OutsideKernelSpace | AlreadyMapped | OutOfFrames | TableFrameNotWritable | HugePageInTheWay

  datatype UnmapError = UnmapOutsideKernelSpace | NotMapped | UnmapHugePageInTheWay

  /** The entry that links a table; with `user`, ring 3 may pass. */
  function LinkTo(table: nat, user: bool): TableEntry {
    TableEntry(true, true, user, false, false, false, false, table)
  }

  /** The entry that maps `frame` as `flags` ask; write-combining falls back to uncacheable. */
  function LeafFor(frame: nat, flags: PageFlags): TableEntry {
    var uncached := flags.cache.WriteCombining? || flags.cache.Uncacheable?;
    TableEntry(true, flags.writable, flags.user, uncached || flags.cache.WriteThrough?, uncached, false,
               !flags.executable, frame)
  }

  /** The write-through and cache-disable bits say so, as the processor reads them (section 4.9 of
      the Intel Software Developer's Manual, volume 3): neither is write-back, write-through alone is
      that, both are uncacheable, which is also what becomes of write-combining. */
  predicate CachedAs(leaf: TableEntry, policy: CachePolicy) {
    match policy
    case WriteBack | Unspecified => !leaf.writeThrough && !leaf.cacheDisable
    case WriteThrough => leaf.writeThrough && !leaf.cacheDisable
    case WriteCombining | Uncacheable => leaf.writeThrough && leaf.cacheDisable
  }

  /** The kernel's slots of the root never let ring 3 through. */
  ghost predicate RootSealed(mem: Memory, root: nat) {
    root in mem && forall i | KERNEL_SLOT <= i < ENTRIES :: mem[root][i].present ==> !mem[root][i].user
  }

  lemma {:induction false} SealedRootSealsKernel(mem: Memory, root: nat)
    requires RootSealed(mem, root)
    ensures KernelSealed(mem, root)
  {
    forall va: U64 | va >= KERNEL_BASE ensures !UserWalk(mem, root, 0, va) {
      hide Index;
      PathDecides(va);
    }
  }

  /** Which half of the address space a table or an entry reached by `p` belongs to. */
  ghost predicate Lower(p: seq<nat>) {
    p != [] && p[0] < KERNEL_SLOT
  }

  /** Every link of one half allows writing and running code. */
  ghost predicate PlainLinks(mem: Memory, tab: map<seq<nat>, nat>, lower: bool) {
    forall p, i | p in tab && 0 <= i < ENTRIES && |p| < 3 && Lower(p + [i]) == lower && tab[p] in mem
                  && mem[tab[p]][i].Link() ::
      mem[tab[p]][i].writable && !mem[tab[p]][i].noExecute
  }

  /** Every link of the lower half lets everything through: writes, ring 3 and running code. */
  ghost predicate OpenLinks(mem: Memory, tab: map<seq<nat>, nat>) {
    forall p, i | p in tab && 0 <= i < ENTRIES && |p| < 3 && Lower(p + [i]) && tab[p] in mem && mem[tab[p]][i].Link() ::
      mem[tab[p]][i].writable && mem[tab[p]][i].user && !mem[tab[p]][i].noExecute
  }

  lemma {:induction false} OpenAt(mem: Memory, tab: map<seq<nat>, nat>, p: seq<nat>, i: nat)
    requires OpenLinks(mem, tab) && p in tab && i < ENTRIES && |p| < 3 && Lower(p + [i]) && tab[p] in mem
    requires mem[tab[p]][i].Link()
    ensures mem[tab[p]][i].writable && mem[tab[p]][i].user && !mem[tab[p]][i].noExecute
  {
  }

  lemma {:induction false} OpenIsPlain(mem: Memory, tab: map<seq<nat>, nat>)
    requires OpenLinks(mem, tab)
    ensures PlainLinks(mem, tab, true)
  {
  }

  /** Where every link of a half is plain, the leaf alone says what may be done. */
  lemma {:induction false} LeafDecides(mem: Memory, root: nat, tab: map<seq<nat>, nat>, va: U64, level: nat,
                                       writable: bool)
    requires Tree(mem, root, tab) && PlainLinks(mem, tab, Index(va, 0) < KERNEL_SLOT) && level < 4
    requires Path(va)[..level] in tab
    requires var leaf := LeafOf(mem, tab[Path(va)[..level]], level, va); leaf.Some? ==> !leaf.value.huge
    ensures var leaf, t := LeafOf(mem, tab[Path(va)[..level]], level, va), tab[Path(va)[..level]];
      && (leaf.None? ==> Walk(mem, t, level, va, writable).None? && !Executes(mem, t, level, va))
      && (leaf.Some? ==>
            && Walk(mem, t, level, va, writable)
               == Some(Translation(leaf.value.address - leaf.value.address % PAGE + va % PAGE,
                                   writable && leaf.value.writable, PAGE))
            && Executes(mem, t, level, va) == !leaf.value.noExecute)
    decreases 4 - level
  {
    hide Index, Tree, PlainLinks;
    var q, k := Path(va)[..level], Path(va)[level];
    TreeAt(mem, root, tab, q, k);
    Through(Path(va), q, k, level);
    var entry := mem[tab[q]][k];
    if level < 3 && entry.Link() {
      assert (q + [k])[0] == Path(va)[0];
      PlainAt(mem, tab, Index(va, 0) < KERNEL_SLOT, q, k);
      LeafDecides(mem, root, tab, va, level + 1, writable && entry.writable);
    }
  }

  /** Where every link of the lower half is open, the leaf says who may pass. */
  lemma {:induction false} LeafAdmits(mem: Memory, root: nat, tab: map<seq<nat>, nat>, va: U64, level: nat)
    requires Tree(mem, root, tab) && OpenLinks(mem, tab) && level < 4 && Path(va)[..level] in tab
    requires Index(va, 0) < KERNEL_SLOT
    requires var leaf := LeafOf(mem, tab[Path(va)[..level]], level, va); leaf.Some? ==> !leaf.value.huge
    ensures var leaf := LeafOf(mem, tab[Path(va)[..level]], level, va);
      leaf.Some? ==> UserWalk(mem, tab[Path(va)[..level]], level, va) == leaf.value.user
    decreases 4 - level
  {
    hide Index, Tree, OpenLinks;
    var q, k := Path(va)[..level], Path(va)[level];
    TreeAt(mem, root, tab, q, k);
    Through(Path(va), q, k, level);
    var entry := mem[tab[q]][k];
    if level < 3 && entry.Link() {
      assert (q + [k])[0] == Path(va)[0];
      OpenAt(mem, tab, q, k);
      LeafAdmits(mem, root, tab, va, level + 1);
    }
  }

  /** What the leaf of a page grants, of the whole walk, in a half whose links are plain. */
  lemma {:induction false} LeafRules(mem: Memory, root: nat, tab: map<seq<nat>, nat>, va: U64)
    requires Tree(mem, root, tab) && IsCanonical(va) && PlainLinks(mem, tab, va < LOWER_END)
    requires var leaf := LeafOf(mem, root, 0, va); leaf.Some? ==> !leaf.value.huge
    ensures var leaf := LeafOf(mem, root, 0, va);
      && (leaf.None? ==> Translate(mem, root, va).None? && !Executes(mem, root, 0, va))
      && (leaf.Some? ==>
            && Translate(mem, root, va)
               == Some(Translation(leaf.value.address - leaf.value.address % PAGE + va % PAGE, leaf.value.writable,
                                   PAGE))
            && Executes(mem, root, 0, va) == !leaf.value.noExecute)
  {
    hide Tree, PlainLinks, Walk, LeafOf, Executes, Index;
    PathDecides(va);
    RootAt(mem, root, tab);
    assert Path(va)[..0] == [];
    LeafDecides(mem, root, tab, va, 0, true);
  }

  /** What the leaf of a lower-half page grants, of the whole walk, in a process space. */
  lemma {:induction false} LeafGrants(mem: Memory, root: nat, tab: map<seq<nat>, nat>, va: U64)
    requires Tree(mem, root, tab) && OpenLinks(mem, tab) && va < LOWER_END
    requires var leaf := LeafOf(mem, root, 0, va); leaf.Some? ==> !leaf.value.huge
    ensures var leaf := LeafOf(mem, root, 0, va);
      && (leaf.None? ==> Translate(mem, root, va).None?)
      && (leaf.Some? ==>
            && Translate(mem, root, va)
               == Some(Translation(leaf.value.address - leaf.value.address % PAGE + va % PAGE, leaf.value.writable,
                                   PAGE))
            && UserWalk(mem, root, 0, va) == leaf.value.user && Executes(mem, root, 0, va) == !leaf.value.noExecute)
  {
    hide Tree, OpenLinks, PlainLinks, Walk, LeafOf, UserWalk, Executes, Index, Translate;
    OpenIsPlain(mem, tab);
    LeafRules(mem, root, tab, va);
    PathDecides(va);
    RootAt(mem, root, tab);
    assert Path(va)[..0] == [];
    LeafAdmits(mem, root, tab, va, 0);
  }

  /** Nothing is mapped where nothing translates. */
  lemma {:induction false} NoLeaf(mem: Memory, t: nat, level: nat, va: U64, writable: bool)
    requires level < 4
    ensures Walk(mem, t, level, va, writable).None? <==> LeafOf(mem, t, level, va).None?
    decreases 4 - level
  {
    hide Index;
    if t in mem && level < 3 && mem[t][Index(va, level)].Link() {
      NoLeaf(mem, mem[t][Index(va, level)].address, level + 1, va, writable && mem[t][Index(va, level)].writable);
    }
  }

  lemma {:induction false} WritableAlong(mem: Memory, root: nat, tab: map<seq<nat>, nat>, va: U64, level: nat,
                                         lower: bool)
    requires Tree(mem, root, tab) && level <= 3 && Path(va)[..level] in tab && PlainLinks(mem, tab, lower)
    requires lower == (Index(va, 0) < KERNEL_SLOT)
    ensures LinksWritable(mem, tab, Path(va), level)
  {
    hide Index, Tree, PlainLinks;
    if level > 0 {
      var q, k := Path(va)[..level - 1], Path(va)[level - 1];
      Through(Path(va), q, k, level - 1);
      TreePrefix(mem, root, tab, Path(va)[..level]);
      assert Path(va)[..level][..level - 1] == q;
      WritableAlong(mem, root, tab, va, level - 1, lower);
      TreeAt(mem, root, tab, q, k);
      assert (q + [k])[0] == Path(va)[0];
      PlainAt(mem, tab, lower, q, k);
    }
  }

  lemma {:induction false} PlainAt(mem: Memory, tab: map<seq<nat>, nat>, lower: bool, p: seq<nat>, i: nat)
    requires PlainLinks(mem, tab, lower) && p in tab && i < ENTRIES && |p| < 3 && Lower(p + [i]) == lower
    requires tab[p] in mem && mem[tab[p]][i].Link()
    ensures mem[tab[p]][i].writable && !mem[tab[p]][i].noExecute
  {
  }

  /** What the steps of a mapping towards its leaf leave: every translation, and what was known
      about who may pass and what may be written. */
  ghost predicate Onward(mem: Memory, tab: map<seq<nat>, nat>, mem': Memory, tab': map<seq<nat>, nat>, root: nat) {
    && mem'.Keys == mem.Keys
    && SameTranslations(mem, mem', root) && SameLeaves(mem, mem', root)
    && (RootSealed(mem, root) ==> RootSealed(mem', root))
    && (PlainLinks(mem, tab, true) ==> PlainLinks(mem', tab', true))
    && (PlainLinks(mem, tab, false) ==> PlainLinks(mem', tab', false))
    && (OpenLinks(mem, tab) ==> OpenLinks(mem', tab'))
  }

  lemma {:induction false} OnwardNothing(mem: Memory, root: nat, tab: map<seq<nat>, nat>)
    ensures Onward(mem, tab, mem, tab, root)
  {
  }

  lemma {:induction false} OnwardThen(mem: Memory, tab: map<seq<nat>, nat>, mem': Memory, tab': map<seq<nat>, nat>,
                                      mem'': Memory, tab'': map<seq<nat>, nat>, root: nat)
    requires Onward(mem, tab, mem', tab', root) && Onward(mem', tab', mem'', tab'', root)
    ensures Onward(mem, tab, mem'', tab'', root)
  {
    hide Translate, LeafOf, RootSealed, PlainLinks, OpenLinks;
  }

  lemma {:induction false} OnwardSame(mem: Memory, tab: map<seq<nat>, nat>, mem': Memory, tab': map<seq<nat>, nat>,
                                      root: nat, va: U64)
    requires Onward(mem, tab, mem', tab', root)
    ensures Translate(mem', root, va) == Translate(mem, root, va)
  {
    hide Translate, LeafOf, RootSealed, PlainLinks, OpenLinks;
  }

  lemma {:induction false} OnwardOutside(mem: Memory, mem': Memory, root: nat, tab: map<seq<nat>, nat>)
    requires Tree(mem, root, tab) && mem'.Keys == mem.Keys
    requires forall p | p in tab :: tab[p] in mem' && mem'[tab[p]] == mem[tab[p]]
    ensures Onward(mem, tab, mem', tab, root)
  {
    hide Translate, LeafOf;
    OutsideTree(mem, mem', root, tab);
    RootAt(mem, root, tab);
  }

  lemma {:induction false} OnwardLetThrough(mem: Memory, root: nat, tab: map<seq<nat>, nat>, p: seq<nat>, i: nat)
    requires Tree(mem, root, tab) && p in tab && tab[p] in mem && i < ENTRIES && (p != [] || i < KERNEL_SLOT)
    requires |p| < 3 && mem[tab[p]][i].Link()
    ensures Onward(mem, tab, mem[tab[p] := mem[tab[p]][i := mem[tab[p]][i].(user := true)]], tab, root)
  {
    hide Translate, Tree, SameTranslations, SameLeaves;
    LetThrough(mem, root, tab, p, i);
    RootAt(mem, root, tab);
    TreeAt(mem, root, tab, p, i);
    SealedWrite(mem, root, tab, p, i, mem[tab[p]][i].(user := true));
    PlainWrite(mem, tab, p, i, mem[tab[p]][i].(user := true), true);
    PlainWrite(mem, tab, p, i, mem[tab[p]][i].(user := true), false);
    OpenWrite(mem, tab, p, i, mem[tab[p]][i].(user := true));
  }

  lemma {:induction false} OpenWrite(mem: Memory, tab: map<seq<nat>, nat>, p: seq<nat>, i: nat, e: TableEntry)
    requires p in tab && tab[p] in mem && i < ENTRIES
    requires forall q | q in tab && tab[q] == tab[p] :: q == p
    requires (Lower(p + [i]) ==> e.writable && e.user && !e.noExecute)
             || (mem[tab[p]][i].Link() && e == mem[tab[p]][i].(user := true))
    ensures OpenLinks(mem, tab) ==> OpenLinks(mem[tab[p] := mem[tab[p]][i := e]], tab)
  {
  }

  lemma {:induction false} OpenGrows(mem: Memory, root: nat, tab: map<seq<nat>, nat>, p: seq<nat>, i: nat, f: nat,
                                     e: TableEntry)
    requires Tree(mem, root, tab) && p in tab && tab[p] in mem && i < ENTRIES && e.writable && !e.noExecute
    requires (Lower(p + [i]) ==> e.user)
    requires f in mem && mem[f] == ZEROED && (forall q | q in tab :: tab[q] != f)
    ensures OpenLinks(mem, tab) ==> OpenLinks(mem[tab[p] := mem[tab[p]][i := e]], tab[p + [i] := f])
  {
    hide Tree;
    TreeAt(mem, root, tab, p, i);
    OpenWrite(mem, tab, p, i, e);
  }

  /** Only a kernel slot of the root that lets ring 3 through would unseal it. */
  lemma {:induction false} SealedWrite(mem: Memory, root: nat, tab: map<seq<nat>, nat>, p: seq<nat>, i: nat,
                                       e: TableEntry)
    requires [] in tab && tab[[]] == root && root in mem && p in tab && tab[p] in mem && i < ENTRIES
    requires forall q | q in tab && tab[q] == tab[p] :: q == p
    requires e.user ==> p != [] || i < KERNEL_SLOT
    ensures RootSealed(mem, root) ==> RootSealed(mem[tab[p] := mem[tab[p]][i := e]], root)
  {
  }

  lemma {:induction false} PlainWrite(mem: Memory, tab: map<seq<nat>, nat>, p: seq<nat>, i: nat, e: TableEntry,
                                      lower: bool)
    requires p in tab && tab[p] in mem && i < ENTRIES
    requires forall q | q in tab && tab[q] == tab[p] :: q == p
    requires e.Link() ==>
               (e.writable && !e.noExecute) || (mem[tab[p]][i].Link() && e == mem[tab[p]][i].(user := e.user))
    ensures PlainLinks(mem, tab, lower) ==> PlainLinks(mem[tab[p] := mem[tab[p]][i := e]], tab, lower)
  {
  }

  lemma {:induction false} OnwardLinkNew(mem: Memory, root: nat, tab: map<seq<nat>, nat>, p: seq<nat>, i: nat, f: nat,
                                         e: TableEntry)
    requires Tree(mem, root, tab) && p in tab && |p| < 3 && i < ENTRIES && tab[p] in mem && !mem[tab[p]][i].present
    requires f in mem && mem[f] == ZEROED && (forall q | q in tab :: tab[q] != f)
    requires e.Link() && e.address == f && e.writable && !e.noExecute && (e.user ==> p != [] || i < KERNEL_SLOT)
    requires (Lower(p + [i]) ==> e.user)
    ensures Onward(mem, tab, mem[tab[p] := mem[tab[p]][i := e]], tab[p + [i] := f], root)
  {
    hide Translate, Tree, SameTranslations, SameLeaves;
    LinkNew(mem, root, tab, p, i, f, e);
    RootAt(mem, root, tab);
    TreeAt(mem, root, tab, p, i);
    SealedWrite(mem, root, tab, p, i, e);
    PlainGrows(mem, root, tab, p, i, f, e, true);
    PlainGrows(mem, root, tab, p, i, f, e, false);
    OpenGrows(mem, root, tab, p, i, f, e);
  }

  lemma {:induction false} PlainGrows(mem: Memory, root: nat, tab: map<seq<nat>, nat>, p: seq<nat>, i: nat, f: nat,
                                         e: TableEntry, lower: bool)
    requires Tree(mem, root, tab) && p in tab && tab[p] in mem && i < ENTRIES && e.writable && !e.noExecute
    requires f in mem && mem[f] == ZEROED && (forall q | q in tab :: tab[q] != f)
    ensures PlainLinks(mem, tab, lower) ==> PlainLinks(mem[tab[p] := mem[tab[p]][i := e]], tab[p + [i] := f], lower)
  {
    hide Tree;
    TreeAt(mem, root, tab, p, i);
    PlainWrite(mem, tab, p, i, e, lower);
  }

  /** Nothing is mapped below an entry that is not there; something is where a page is. */
  lemma {:induction false} MissesBelow(mem: Memory, root: nat, tab: map<seq<nat>, nat>, page: U64, level: nat)
    requires Tree(mem, root, tab) && IsCanonical(page) && level < 4 && Path(page)[..level] in tab
    requires tab[Path(page)[..level]] in mem
    ensures var entry := mem[tab[Path(page)[..level]]][Index(page, level)];
            && (!entry.present ==> Translate(mem, root, page).None?)
            && (entry.present && (level == 3 || entry.huge) ==>
                  Translate(mem, root, page).Some? && Translate(mem, root, page).value.pageSize == Span(level))
  {
    hide Index, Tree;
    WalkDown(mem, root, tab, page, level);
    TreeAt(mem, root, tab, Path(page)[..level], Index(page, level));
    assert level == 0 ==> Path(page)[..level] == [];
  }

  lemma {:induction false} LeafIs(mem: Memory, root: nat, tab: map<seq<nat>, nat>, page: U64)
    requires Tree(mem, root, tab) && IsCanonical(page) && page % PAGE == 0
    requires Path(page)[..3] in tab && tab[Path(page)[..3]] in mem && mem[tab[Path(page)[..3]]][Index(page, 3)].present
    ensures var leaf := mem[tab[Path(page)[..3]]][Index(page, 3)];
            Translate(mem, root, page) == Some(Translation(leaf.address - leaf.address % PAGE,
                                                   LinksWritable(mem, tab, Path(page), 3) && leaf.writable, PAGE))
  {
    hide Index, Tree;
    WalkDown(mem, root, tab, page, 3);
  }

  /** A leaf is no link, and no business of the root's. */
  lemma {:induction false} LeafKeeps(mem: Memory, root: nat, tab: map<seq<nat>, nat>, p: seq<nat>, i: nat,
                                     e: TableEntry)
    requires Tree(mem, root, tab) && p in tab && |p| == 3 && i < ENTRIES && tab[p] in mem
    ensures var mem' := mem[tab[p] := mem[tab[p]][i := e]];
            && (RootSealed(mem, root) ==> RootSealed(mem', root))
            && (forall lower: bool :: PlainLinks(mem, tab, lower) ==> PlainLinks(mem', tab, lower))
            && (OpenLinks(mem, tab) ==> OpenLinks(mem', tab))
  {
    RootAt(mem, root, tab);
    TreeAt(mem, root, tab, p, i);
    assert p != [];
  }

  /** The tables on the way to a page. */
  ghost function Along(tab: map<seq<nat>, nat>, path: seq<nat>): set<nat> {
    set p | p in tab && p <= path :: tab[p]
  }

  /** Of the tables in use, only those on the way to a page were written. */
  ghost predicate Untouched(mem: Memory, mem': Memory, inUse: set<nat>, tab: map<seq<nat>, nat>, path: seq<nat>) {
    forall t | t in inUse && t in mem && t !in Along(tab, path) :: t in mem' && mem'[t] == mem[t]
  }

  ghost function Elements(s: seq<nat>): set<nat> {
    set i: nat | i < |s| :: s[i]
  }

  /** Every frame that went is a table of this space now, or was lost on the way. */
  ghost predicate Consumed(free: seq<nat>, free': seq<nat>, had: set<nat>, has: set<nat>) {
    && |free'| <= |free| && free' == free[|free| - |free'|..]
    && has == had + Elements(free[..|free| - |free'|])
  }

  lemma {:induction false} ConsumedNothing(free: seq<nat>, had: set<nat>)
    ensures Consumed(free, free, had, had)
  {
    assert free[0..] == free;
    assert free[..0] == [];
  }

  lemma {:induction false} ConsumedOne(free: seq<nat>, had: set<nat>)
    requires free != []
    ensures Consumed(free, free[1..], had, had + {free[0]})
  {
    assert free[..1] == [free[0]];
  }

  lemma {:induction false} ConsumedThen(free: seq<nat>, free': seq<nat>, free'': seq<nat>, a: set<nat>, b: set<nat>,
                                        c: set<nat>)
    requires Consumed(free, free', a, b) && Consumed(free', free'', b, c)
    ensures Consumed(free, free'', a, c)
  {
    var n, m := |free| - |free'|, |free'| - |free''|;
    assert free'[m..] == free[n + m..];
    ElementsConcat(free[..n], free'[..m]);
    assert free[..n] + free'[..m] == free[..n + m];
  }

  lemma {:induction false} ElementsConcat(s: seq<nat>, t: seq<nat>)
    ensures Elements(s + t) == Elements(s) + Elements(t)
  {
    forall x | x in Elements(s) + Elements(t) ensures x in Elements(s + t) {
      if x in Elements(s) {
        var i: nat :| i < |s| && s[i] == x;
        assert (s + t)[i] == x;
      } else {
        var i: nat :| i < |t| && t[i] == x;
        assert (s + t)[|s| + i] == x;
      }
    }
  }

  /** The frame is reached, writably, through the window. */
  ghost predicate Reachable(mem: Memory, root: nat, window: nat, frame: nat) {
    window + frame < 0x1_0000_0000_0000_0000
    && var t := Translate(mem, root, window + frame); t.Some? && t.value.phys == frame && t.value.writable
  }

  /** Of the frames that were to be handed out, one cannot be written through the window. */
  ghost predicate OutOfReach(free: seq<nat>, mem: Memory, root: nat, window: nat) {
    exists i | 0 <= i < |free| :: !Reachable(mem, root, window, free[i])
  }

  /** Frames are handed out from the front. */
  ghost predicate Left(free: seq<nat>, free': seq<nat>) {
    |free'| <= |free| && free' == free[|free| - |free'|..]
  }

  /** What is left of the frames that were to be handed out, and what an error says of them: that
      none is left, or that one is out of reach. */
  ghost predicate Spent(free: seq<nat>, free': seq<nat>, mem: Memory, root: nat, window: nat, error: Option<MapError>) {
    && Left(free, free')
    && (error == Some(OutOfFrames) ==> free' == [])
    && (error == Some(TableFrameNotWritable) ==> OutOfReach(free, mem, root, window))
  }

  function ErrorOf<T>(r: Result<T, MapError>): (error: Option<MapError>) {
    if r.Err? then Some(r.error) else None
  }

  lemma {:induction false} LeftAll(free: seq<nat>)
    ensures Left(free, free)
  {
    assert free[0..] == free;
  }

  lemma {:induction false} LeftThen(free: seq<nat>, free': seq<nat>, free'': seq<nat>)
    requires Left(free, free') && Left(free', free'')
    ensures Left(free, free'')
  {
    var n, m := |free| - |free'|, |free'| - |free''|;
    assert free'[m..] == free[n + m..];
  }

  lemma {:induction false} SpentThen(free: seq<nat>, free': seq<nat>, free'': seq<nat>, mem: Memory, root: nat,
                                     window: nat, error: Option<MapError>)
    requires Left(free, free') && Spent(free', free'', mem, root, window, error)
    ensures Spent(free, free'', mem, root, window, error)
  {
    LeftThen(free, free', free'');
    if error == Some(TableFrameNotWritable) {
      hide Reachable;
      var n := |free| - |free'|;
      var i :| 0 <= i < |free'| && !Reachable(mem, root, window, free'[i]);
      assert free[n + i] == free'[i];
    }
  }

  /** Everything a space's operations may change, at one moment. */
  datatype Moment = Moment(mem: Memory, tab: map<seq<nat>, nat>, taken: set<nat>, leaked: set<nat>, inUse: set<nat>,
                           free: seq<nat>)

  /** Steps towards the leaf of a walk: no translation changes, tables are only hung and written
      on the way, and every frame that went is accounted for. */
  ghost predicate Advance(s: Moment, s': Moment, root: nat, window: nat, path: seq<nat>) {
    && Onward(s.mem, s.tab, s'.mem, s'.tab, root)
    && Took(s.tab, s'.tab, s.taken, s'.taken, path)
    && Untouched(s.mem, s'.mem, s.inUse, s.tab, path)
    && Consumed(s.free, s'.free, s.taken + s.leaked, s'.taken + s'.leaked)
    && s.inUse <= s'.inUse && s.leaked <= s'.leaked
    && (forall p | p in s'.tab && p !in s.tab :: s'.tab[p] !in s.inUse)
    && (forall x | x in s'.taken - s.taken :: x !in s.inUse)
    && (s'.leaked != s.leaked ==> exists i | 0 <= i < |s.free| :: !Reachable(s.mem, root, window, s.free[i]))
  }

  lemma {:induction false} AdvanceNothing(s: Moment, root: nat, window: nat, path: seq<nat>)
    ensures Advance(s, s, root, window, path)
  {
    OnwardNothing(s.mem, root, s.tab);
    ConsumedNothing(s.free, s.taken + s.leaked);
  }

  lemma {:induction false} AdvanceThen(s: Moment, s': Moment, s'': Moment, root: nat, window: nat, path: seq<nat>)
    requires Advance(s, s', root, window, path) && Advance(s', s'', root, window, path)
    ensures Advance(s, s'', root, window, path)
  {
    hide Onward, Untouched, Consumed, Took, Reachable;
    OnwardThen(s.mem, s.tab, s'.mem, s'.tab, s''.mem, s''.tab, root);
    TookThen(s.tab, s'.tab, s''.tab, s.taken, s'.taken, s''.taken, path);
    UntouchedThen(s.mem, s'.mem, s''.mem, s.inUse, s'.inUse, s.tab, s'.tab, path, s.taken, s'.taken);
    ConsumedThen(s.free, s'.free, s''.free, s.taken + s.leaked, s'.taken + s'.leaked, s''.taken + s''.leaked);
    NewTablesFresh(s, s', s'', path);
    if s''.leaked != s.leaked && s'.leaked == s.leaked {
      var i :| 0 <= i < |s'.free| && !Reachable(s'.mem, root, window, s'.free[i]);
      SameReach(s.mem, s.tab, s'.mem, s'.tab, root, window, s'.free[i]);
      FreeBefore(s.free, s'.free, s.taken + s.leaked, s'.taken + s'.leaked, i);
    }
  }

  lemma {:induction false} NewTablesFresh(s: Moment, s': Moment, s'': Moment, path: seq<nat>)
    requires forall p | p in s'.tab && p !in s.tab :: s'.tab[p] !in s.inUse
    requires forall p | p in s''.tab && p !in s'.tab :: s''.tab[p] !in s'.inUse
    requires s.inUse <= s'.inUse && Took(s'.tab, s''.tab, s'.taken, s''.taken, path)
    ensures forall p | p in s''.tab && p !in s.tab :: s''.tab[p] !in s.inUse
  {
  }

  lemma {:induction false} SameReach(mem: Memory, tab: map<seq<nat>, nat>, mem': Memory, tab': map<seq<nat>, nat>,
                                     root: nat, window: nat, f: nat)
    requires Onward(mem, tab, mem', tab', root)
    ensures Reachable(mem', root, window, f) <==> Reachable(mem, root, window, f)
  {
    hide Translate;
  }

  lemma {:induction false} FreeBefore(free: seq<nat>, free': seq<nat>, had: set<nat>, has: set<nat>, i: nat)
    requires Consumed(free, free', had, has) && i < |free'|
    ensures 0 <= |free| - |free'| + i < |free| && free[|free| - |free'| + i] == free'[i]
  {
  }

  lemma {:induction false} AdvanceSame(s: Moment, s': Moment, root: nat, window: nat, path: seq<nat>, va: U64)
    requires Advance(s, s', root, window, path)
    ensures Translate(s'.mem, root, va) == Translate(s.mem, root, va)
    ensures SameTranslations(s.mem, s'.mem, root) && SameLeaves(s.mem, s'.mem, root)
  {
    OnwardSame(s.mem, s.tab, s'.mem, s'.tab, root, va);
  }

  lemma {:induction false} InAlong(tab: map<seq<nat>, nat>, path: seq<nat>, p: seq<nat>)
    requires p in tab && p <= path
    ensures tab[p] in Along(tab, path)
  {
  }

  lemma {:induction false} AdvanceWrite(s: Moment, s': Moment, root: nat, window: nat, path: seq<nat>, p: seq<nat>,
                                        i: nat)
    requires p in s.tab && p <= path && s.tab[p] in s.mem
    requires Onward(s.mem, s.tab, s'.mem, s.tab, root) && s' == s.(mem := s'.mem)
    requires s.tab[p] in s'.mem && s'.mem == s.mem[s.tab[p] := s'.mem[s.tab[p]]]
    ensures Advance(s, s', root, window, path)
  {
    hide Onward;
    InAlong(s.tab, path, p);
    ConsumedNothing(s.free, s.taken + s.leaked);
  }

  lemma {:induction false} AdvanceLost(s: Moment, s': Moment, root: nat, window: nat, path: seq<nat>)
    requires s'.mem == s.mem && s'.tab == s.tab && s'.taken == s.taken && s.inUse <= s'.inUse
    requires || (s'.leaked == s.leaked && s'.free == s.free)
             || (s.free != [] && s'.free == s.free[1..] && s'.leaked == s.leaked + {s.free[0]}
                 && !Reachable(s.mem, root, window, s.free[0]))
    ensures Advance(s, s', root, window, path)
  {
    hide Reachable, Consumed;
    OnwardNothing(s.mem, root, s.tab);
    if s'.free == s.free && s'.leaked == s.leaked {
      ConsumedNothing(s.free, s.taken + s.leaked);
    } else {
      ConsumedOne(s.free, s.taken + s.leaked);
      assert s.taken + s.leaked + {s.free[0]} == s'.taken + s'.leaked;
    }
  }

  lemma {:induction false} AdvanceGrow(s: Moment, s': Moment, root: nat, window: nat, path: seq<nat>, p: seq<nat>,
                                       i: nat, f: nat, e: TableEntry)
    requires Tree(s.mem, root, s.tab) && p in s.tab && |p| < 3 && i < ENTRIES && s.tab[p] in s.mem
    requires !s.mem[s.tab[p]][i].present
    requires s.free != [] && f == s.free[0] && f in s.mem && f !in s.inUse && s.tab.Values <= s.inUse
    requires e.Link() && e.address == f && e.writable && !e.noExecute && (e.user ==> p != [] || i < KERNEL_SLOT)
    requires (Lower(p + [i]) ==> e.user)
    requires p + [i] <= path
    requires s' == Moment(s.mem[f := ZEROED][s.tab[p] := s.mem[s.tab[p]][i := e]], s.tab[p + [i] := f], s.taken + {f},
                          s.leaked,
                          s.inUse + {f}, s.free[1..])
    ensures Advance(s, s', root, window, path)
  {
    hide Tree, Onward, Consumed, Reachable;
    var middle := s.mem[f := ZEROED];
    assert forall q | q in s.tab :: s.tab[q] in s.tab.Values;
    TreeTables(s.mem, root, s.tab);
    OutsideTree(s.mem, middle, root, s.tab);
    OnwardOutside(s.mem, middle, root, s.tab);
    OnwardLinkNew(middle, root, s.tab, p, i, f, e);
    OnwardThen(s.mem, s.tab, middle, s.tab, s'.mem, s'.tab, root);
    ConsumedOne(s.free, s.taken + s.leaked);
    assert s.taken + s.leaked + {f} == s'.taken + s'.leaked;
    PrefixParts(p, i, path);
    InAlong(s.tab, path, p);
    assert Took(s.tab, s'.tab, s.taken, s'.taken, path) by {
      NothingThere(s.mem, root, s.tab, p, i);
    }
    assert Untouched(s.mem, s'.mem, s.inUse, s.tab, path);
  }

  lemma {:induction false} NothingThere(mem: Memory, root: nat, tab: map<seq<nat>, nat>, p: seq<nat>, i: nat)
    requires Tree(mem, root, tab) && p in tab && |p| < 3 && i < ENTRIES && tab[p] in mem && !mem[tab[p]][i].present
    ensures p + [i] !in tab
  {
    TreeAt(mem, root, tab, p, i);
  }

  /** The account a mapping gives of itself, whether it worked or not. */
  ghost predicate Accounted(s: Moment, s': Moment, root: nat, window: nat, path: seq<nat>) {
    && s'.mem.Keys == s.mem.Keys
    && (RootSealed(s.mem, root) ==> RootSealed(s'.mem, root))
    && (forall lower: bool :: PlainLinks(s.mem, s.tab, lower) ==> PlainLinks(s'.mem, s'.tab, lower))
    && (OpenLinks(s.mem, s.tab) ==> OpenLinks(s'.mem, s'.tab))
    && Took(s.tab, s'.tab, s.taken, s'.taken, path)
    && Untouched(s.mem, s'.mem, s.inUse, s.tab, path)
    && Consumed(s.free, s'.free, s.taken + s.leaked, s'.taken + s'.leaked)
    && s.inUse <= s'.inUse && s.leaked <= s'.leaked
    && (forall x | x in s'.taken - s.taken :: x !in s.inUse)
    && (s'.leaked != s.leaked ==> exists i | 0 <= i < |s.free| :: !Reachable(s.mem, root, window, s.free[i]))
  }

  lemma {:induction false} AdvanceAccounted(s: Moment, s': Moment, root: nat, window: nat, path: seq<nat>)
    requires Advance(s, s', root, window, path)
    ensures Accounted(s, s', root, window, path)
  {
    hide Untouched, Consumed, Took, Reachable, RootSealed, PlainLinks, OpenLinks, SameTranslations, SameLeaves;
    forall lower: bool ensures PlainLinks(s.mem, s.tab, lower) ==> PlainLinks(s'.mem, s'.tab, lower) {
    }
  }

  /** A frame lost on the last step was out of reach from the start. */
  lemma {:induction false} AdvanceReach(s: Moment, s': Moment, s'': Moment, root: nat, window: nat, path: seq<nat>)
    requires Advance(s, s', root, window, path) && Advance(s, s'', root, window, path)
    ensures s'.leaked < s''.leaked ==> OutOfReach(s.free, s.mem, root, window)
  {
    hide Onward, Took, Untouched, Consumed, Reachable;
  }

  lemma {:induction false} LeafAccounted(s: Moment, s': Moment, root: nat, window: nat, page: U64, leaf: TableEntry)
    requires Advance(s, s', root, window, Path(page)) && Tree(s'.mem, root, s'.tab)
    requires Path(page)[..3] in s'.tab && s'.tab[Path(page)[..3]] in s'.mem
    ensures var t := s'.tab[Path(page)[..3]];
            var mem'' := s'.mem[t := s'.mem[t][Index(page, 3) := leaf]];
            && Accounted(s, s'.(mem := mem''), root, window, Path(page))
            && (forall va: U64 | !(IsCanonical(va) && va / PAGE == page / PAGE) ::
                  Translate(mem'', root, va) == Translate(s'.mem, root, va) ==>
                    Translate(mem'', root, va) == Translate(s.mem, root, va))
            && (forall va: U64 ::
                  LeafOf(mem'', root, 0, va) == LeafOf(s'.mem, root, 0, va) ==>
                  LeafOf(mem'', root, 0, va) == LeafOf(s.mem, root, 0, va))
  {
    hide Untouched, Consumed, Took, Reachable, RootSealed, PlainLinks, OpenLinks, Translate, LeafOf, Tree, Index;
    var p := Path(page)[..3];
    var t := s'.tab[p];
    var mem'' := s'.mem[t := s'.mem[t][Index(page, 3) := leaf]];
    AdvanceAccounted(s, s', root, window, Path(page));
    LeafKeeps(s'.mem, root, s'.tab, p, Index(page, 3), leaf);
    LeafUntouched(s, s', page, mem'', s'.mem[t][Index(page, 3) := leaf]);
  }

  lemma {:induction false} AccountedSealed(s: Moment, s': Moment, root: nat, window: nat, path: seq<nat>)
    requires Accounted(s, s', root, window, path) && RootSealed(s.mem, root)
    ensures RootSealed(s'.mem, root)
  {
    hide Untouched, Consumed, Took, Reachable, RootSealed, PlainLinks, OpenLinks;
  }

  lemma {:induction false} AccountedPlain(s: Moment, s': Moment, root: nat, window: nat, path: seq<nat>)
    requires Accounted(s, s', root, window, path)
    ensures forall lower: bool :: PlainLinks(s.mem, s.tab, lower) ==> PlainLinks(s'.mem, s'.tab, lower)
  {
    hide Untouched, Consumed, Took, Reachable, RootSealed, PlainLinks, OpenLinks;
  }

  /** What a mapping of `page` grants at `va`: the frame, to be written, run and cached as asked for. */
  ghost predicate Granted(mem: Memory, root: nat, va: U64, frame: nat, flags: PageFlags) {
    && Translate(mem, root, va) == Some(Translation(frame + va % PAGE, flags.writable, PAGE))
    && Executes(mem, root, 0, va) == flags.executable
    && LeafOf(mem, root, 0, va).Some? && CachedAs(LeafOf(mem, root, 0, va).value, flags.cache)
  }

  lemma {:induction false} MappedGranted(mem: Memory, root: nat, tab: map<seq<nat>, nat>, page: U64, frame: nat,
                                         flags: PageFlags, va: U64)
    requires Tree(mem, root, tab) && PlainLinks(mem, tab, page < KERNEL_BASE) && IsCanonical(page) && IsCanonical(va)
    requires va / PAGE == page / PAGE && frame % PAGE == 0 && LeafOf(mem, root, 0, va) == Some(LeafFor(frame, flags))
    ensures Granted(mem, root, va, frame, flags)
  {
    hide Tree, PlainLinks, LeafOf, Translate, Executes;
    LeafRules(mem, root, tab, va);
  }

  lemma {:induction false} LeafUntouched(s: Moment, s': Moment, page: U64, mem'': Memory, table: Table)
    requires Untouched(s.mem, s'.mem, s.inUse, s.tab, Path(page)) && Took(s.tab, s'.tab, s.taken, s'.taken, Path(page))
    requires Path(page)[..3] in s'.tab && mem'' == s'.mem[s'.tab[Path(page)[..3]] := table]
    requires forall p | p in s'.tab && p !in s.tab :: s'.tab[p] !in s.inUse
    ensures Untouched(s.mem, mem'', s.inUse, s.tab, Path(page))
  {
    var p := Path(page)[..3];
    if p in s.tab {
      InAlong(s.tab, Path(page), p);
    }
  }

  lemma {:induction false} UntouchedThen(mem: Memory, mem': Memory, mem'': Memory, inUse: set<nat>, inUse': set<nat>,
                                         tab: map<seq<nat>, nat>, tab': map<seq<nat>, nat>, path: seq<nat>,
                                         taken: set<nat>, taken': set<nat>)
    requires Untouched(mem, mem', inUse, tab, path) && Untouched(mem', mem'', inUse', tab', path)
    requires inUse <= inUse' && Took(tab, tab', taken, taken', path)
    requires forall p | p in tab' && p !in tab :: tab'[p] !in inUse
    ensures Untouched(mem, mem'', inUse, tab, path)
  {
    forall t | t in inUse && t in mem && t !in Along(tab, path) ensures t in mem'' && mem''[t] == mem[t] {
      assert t !in Along(tab', path);
    }
  }

  /** What a mapping took: the tables it hung, all of them on the way to its page. */
  ghost predicate Took(tab: map<seq<nat>, nat>, tab': map<seq<nat>, nat>, taken: set<nat>, taken': set<nat>,
                       path: seq<nat>) {
    && taken <= taken'
    && (forall p | p in tab :: p in tab' && tab'[p] == tab[p])
    && (forall p | p in tab' && p !in tab :: p != [] && p <= path && tab'[p] in taken')
  }

  lemma {:induction false} TookThen(tab: map<seq<nat>, nat>, tab': map<seq<nat>, nat>, tab'': map<seq<nat>, nat>,
                                    taken: set<nat>, taken': set<nat>, taken'': set<nat>, path: seq<nat>)
    requires Took(tab, tab', taken, taken', path) && Took(tab', tab'', taken', taken'', path)
    ensures Took(tab, tab'', taken, taken'', path)
  {
  }

  lemma {:induction false} ValuesGrow(tab: map<seq<nat>, nat>, p: seq<nat>, f: nat)
    requires p !in tab
    ensures tab[p := f].Values == tab.Values + {f}
  {
    var tab' := tab[p := f];
    forall v | v in tab.Values + {f} ensures v in tab'.Values {
      if v == f {
        assert tab'[p] == f;
      } else {
        var q :| q in tab && tab[q] == v;
        assert tab'[q] == v;
      }
    }
  }

  // ---------------------------------------------------------------------
  // Roots that share what hangs below
  // ---------------------------------------------------------------------

  /** The tree under a new root that took over the slots of another from `low` on. */
  ghost function Grafted(tab: map<seq<nat>, nat>, root: nat, low: nat): map<seq<nat>, nat> {
    map p | p in tab && (p == [] || p[0] >= low) :: if p == [] then root else tab[p]
  }

  ghost predicate TookOver(mem: Memory, root: nat, root': nat, low: nat) {
    root in mem && root' in mem && forall i | 0 <= i < ENTRIES ::
      mem[root'][i] == if i >= low then mem[root][i] else EMPTY
  }

  lemma {:induction false} GraftTree(mem: Memory, root: nat, root': nat, tab: map<seq<nat>, nat>, low: nat)
    requires Tree(mem, root, tab) && TookOver(mem, root, root', low) && root' !in tab.Values
    ensures Tree(mem, root', Grafted(tab, root', low))
  {
    hide Grafted;
    GraftShape(mem, root, root', tab, low);
    forall p, i | p in Grafted(tab, root', low) && 0 <= i < ENTRIES
      ensures EntryOk(mem, Grafted(tab, root', low), p, i)
    {
      hide Shape;
      GraftFrom(tab, root', low, p);
      GraftEntry(mem, root, root', tab, low, p, i);
    }
  }

  lemma {:induction false} GraftFrom(tab: map<seq<nat>, nat>, root': nat, low: nat, p: seq<nat>)
    requires p in Grafted(tab, root', low)
    ensures p in tab && Grafted(tab, root', low)[p] == (if p == [] then root' else tab[p]) && (p != [] ==> p[0] >= low)
  {
  }

  lemma {:induction false} GraftEntry(mem: Memory, root: nat, root': nat, tab: map<seq<nat>, nat>, low: nat,
                                      p: seq<nat>, i: nat)
    requires Shape(mem, root, tab) && TookOver(mem, root, root', low) && i < ENTRIES
    requires p in tab && p in Grafted(tab, root', low) && EntryOk(mem, tab, p, i)
    ensures EntryOk(mem, Grafted(tab, root', low), p, i)
  {
    var q := p + [i];
    assert q in Grafted(tab, root', low) <==> q in tab && q[0] >= low;
    assert p != [] ==> q[0] == p[0];
    hide Shape;
  }

  lemma {:induction false} GraftShape(mem: Memory, root: nat, root': nat, tab: map<seq<nat>, nat>, low: nat)
    requires Shape(mem, root, tab) && root' in mem && root' !in tab.Values
    ensures Shape(mem, root', Grafted(tab, root', low))
  {
    var tab' := Grafted(tab, root', low);
    GraftPrefix(mem, root, root', tab, low, []);
    forall p | p in tab'
      ensures |p| <= 3 && tab'[p] in mem && (p != [] ==> p[..|p| - 1] in tab' && p[|p| - 1] < ENTRIES)
    {
      GraftPrefix(mem, root, root', tab, low, p);
    }
    forall p, q | p in tab' && q in tab' && tab'[p] == tab'[q] ensures p == q {
      GraftOnce(mem, root, root', tab, low, p, q);
    }
    hide Grafted;
  }

  lemma {:induction false} GraftPrefix(mem: Memory, root: nat, root': nat, tab: map<seq<nat>, nat>, low: nat,
                                       p: seq<nat>)
    requires Shape(mem, root, tab) && root' in mem && (p == [] || p in Grafted(tab, root', low))
    ensures p in Grafted(tab, root', low) && |p| <= 3 && Grafted(tab, root', low)[p] in mem
    ensures p == [] ==> Grafted(tab, root', low)[p] == root'
    ensures p != [] ==> p[..|p| - 1] in Grafted(tab, root', low) && p[|p| - 1] < ENTRIES
  {
    if |p| > 1 {
      assert p[..|p| - 1][0] == p[0];
    } else if |p| == 1 {
      assert p[..|p| - 1] == [];
    }
  }

  lemma {:induction false} GraftOnce(mem: Memory, root: nat, root': nat, tab: map<seq<nat>, nat>, low: nat,
                                     p: seq<nat>, q: seq<nat>)
    requires Shape(mem, root, tab) && root' !in tab.Values
    requires p in Grafted(tab, root', low) && q in Grafted(tab, root', low)
    requires Grafted(tab, root', low)[p] == Grafted(tab, root', low)[q]
    ensures p == q
  {
    assert p != [] ==> tab[p] in tab.Values;
    assert q != [] ==> tab[q] in tab.Values;
  }

  /** What was taken over translates as it did; nothing else translates. */
  lemma {:induction false} GraftTranslates(mem: Memory, root: nat, root': nat, low: nat, va: U64)
    requires TookOver(mem, root, root', low)
    ensures Translate(mem, root', va) == if Index(va, 0) >= low then Translate(mem, root, va) else None
  {
    hide Index;
  }

  lemma {:induction false} GraftValues(tab: map<seq<nat>, nat>, root: nat, low: nat)
    requires [] in tab
    ensures Grafted(tab, root, low).Values == {root} + GraftedShared(tab, low)
  {
    var tab' := Grafted(tab, root, low);
    assert tab'[[]] == root;
    forall v | v in GraftedShared(tab, low) ensures v in tab'.Values {
      var p :| p in tab && p != [] && p[0] >= low && tab[p] == v;
      assert tab'[p] == v;
    }
  }

  /** The tables below the slots from `low` on. */
  ghost function GraftedShared(tab: map<seq<nat>, nat>, low: nat): set<nat> {
    set p | p in tab && p != [] && p[0] >= low :: tab[p]
  }

  /** A process's own tables are its root and those of the lower half; the rest it shares. */
  ghost predicate OwnLower(tab: map<seq<nat>, nat>, taken: set<nat>, shared: set<nat>) {
    forall p | p in tab :: if p == [] || Lower(p) then tab[p] in taken else tab[p] in shared
  }

  lemma {:induction false} AdoptSame(mem: Memory, mem': Memory, root: nat, tab: map<seq<nat>, nat>, va: U64)
    requires Tree(mem, root, tab) && forall p | p in tab :: tab[p] in mem' && mem'[tab[p]] == mem[tab[p]]
    ensures Translate(mem', root, va) == Translate(mem, root, va)
  {
    hide Translate;
    OutsideTree(mem, mem', root, tab);
  }

  lemma {:induction false} GraftOwnLower(mem: Memory, root: nat, root': nat, tab: map<seq<nat>, nat>)
    requires TookOver(mem, root, root', KERNEL_SLOT)
    ensures OwnLower(Grafted(tab, root', KERNEL_SLOT), {root'}, GraftedShared(tab, KERNEL_SLOT))
    ensures PlainLinks(mem, Grafted(tab, root', KERNEL_SLOT), true) && OpenLinks(mem, Grafted(tab, root', KERNEL_SLOT))
  {
    var tab' := Grafted(tab, root', KERNEL_SLOT);
    forall p, i | p in tab' && 0 <= i < ENTRIES && |p| < 3 && Lower(p + [i])
      ensures p == [] && !mem[tab'[p]][i].present
    {
      FirstOf(p, i);
    }
  }

  /** A space that takes over the kernel's slots takes over how plain their links are. */
  lemma {:induction false} GraftPlain(mem: Memory, root: nat, root': nat, tab: map<seq<nat>, nat>, low: nat)
    requires Tree(mem, root, tab) && TookOver(mem, root, root', low) && low <= KERNEL_SLOT
    ensures PlainLinks(mem, tab, false) ==> PlainLinks(mem, Grafted(tab, root', low), false)
  {
    hide Tree, TookOver, Grafted;
    var tab' := Grafted(tab, root', low);
    if PlainLinks(mem, tab, false) {
      forall p, i | p in tab' && 0 <= i < ENTRIES && |p| < 3 && !Lower(p + [i]) && tab'[p] in mem
                    && mem[tab'[p]][i].Link()
        ensures mem[tab'[p]][i].writable && !mem[tab'[p]][i].noExecute
      {
        hide PlainLinks;
        GraftPlainAt(mem, root, root', tab, low, p, i);
      }
    }
  }

  lemma {:induction false} GraftPlainAt(mem: Memory, root: nat, root': nat, tab: map<seq<nat>, nat>, low: nat,
                                        p: seq<nat>, i: nat)
    requires Tree(mem, root, tab) && TookOver(mem, root, root', low) && low <= KERNEL_SLOT
    requires PlainLinks(mem, tab, false)
    requires p in Grafted(tab, root', low) && i < ENTRIES && |p| < 3 && !Lower(p + [i])
    requires Grafted(tab, root', low)[p] in mem
    requires mem[Grafted(tab, root', low)[p]][i].Link()
    ensures mem[Grafted(tab, root', low)[p]][i].writable && !mem[Grafted(tab, root', low)[p]][i].noExecute
  {
    hide Tree, PlainLinks, Grafted;
    RootAt(mem, root, tab);
    GraftFrom(tab, root', low, p);
    FirstOf(p, i);
    TreeAt(mem, root, tab, p, i);
    PlainAt(mem, tab, false, p, i);
  }

  /** With no kernel slot in use there is no kernel link at all. */
  lemma {:induction false} NoKernelLinks(mem: Memory, root: nat, tab: map<seq<nat>, nat>)
    requires Tree(mem, root, tab) && !KernelSlotsInUse(mem, root)
    ensures PlainLinks(mem, tab, false)
  {
    RootAt(mem, root, tab);
    forall p, i | p in tab && 0 <= i < ENTRIES && |p| < 3 && !Lower(p + [i]) ensures !mem[tab[p]][i].Link() {
      hide Tree;
      FirstOf(p, i);
      if p != [] {
        HangsFrom(mem, root, tab, p[..1], p);
        assert [] + [p[0]] == p[..1];
        TreePrefix(mem, root, tab, p[..1]);
        TreeAt(mem, root, tab, [], p[0]);
      }
    }
  }

  /** Frames outside the tree do not matter to its links. */
  lemma {:induction false} PlainOutside(mem: Memory, mem': Memory, tab: map<seq<nat>, nat>, lower: bool)
    requires forall p | p in tab :: tab[p] in mem && tab[p] in mem' && mem'[tab[p]] == mem[tab[p]]
    ensures PlainLinks(mem, tab, lower) ==> PlainLinks(mem', tab, lower)
  {
  }

  lemma {:induction false} FirstOf(p: seq<nat>, i: nat)
    ensures (p + [i])[0] == if p == [] then i else p[0]
  {
  }

  lemma {:induction false} GraftSealed(mem: Memory, mem': Memory, root: nat, root': nat, tab: map<seq<nat>, nat>)
    requires TookOver(mem', root, root', KERNEL_SLOT) && root in mem && mem'[root] == mem[root]
    ensures RootSealed(mem, root) ==> RootSealed(mem', root')
  {
  }

  lemma {:induction false} SpaceTranslates(mem: Memory, mem': Memory, root: nat, root': nat, tab: map<seq<nat>, nat>)
    requires Tree(mem, root, tab) && (forall p | p in tab :: tab[p] in mem' && mem'[tab[p]] == mem[tab[p]])
    requires TookOver(mem', root, root', KERNEL_SLOT)
    ensures forall va: U64 :: Translate(mem', root', va) == if va >= KERNEL_BASE then Translate(mem, root, va) else None
  {
    forall va: U64 ensures Translate(mem', root', va) == if va >= KERNEL_BASE then Translate(mem, root, va) else None {
      hide Tree, Index, Walk;
      GraftTranslates(mem', root, root', KERNEL_SLOT, va);
      AdoptSame(mem, mem', root, tab, va);
      if IsCanonical(va) {
        PathDecides(va);
      }
    }
  }

  lemma {:induction false} AdoptTranslates(mem: Memory, mem': Memory, root: nat, root': nat, tab: map<seq<nat>, nat>)
    requires Tree(mem, root, tab) && (forall p | p in tab :: tab[p] in mem' && mem'[tab[p]] == mem[tab[p]])
    requires TookOver(mem', root, root', 0)
    ensures forall va: U64 :: Translate(mem', root', va) == Translate(mem, root, va)
  {
    forall va: U64 ensures Translate(mem', root', va) == Translate(mem, root, va) {
      hide Tree, Index, Walk;
      GraftTranslates(mem', root, root', 0, va);
      AdoptSame(mem, mem', root, tab, va);
    }
  }

  /** Something is mapped in the kernel's half already. */
  ghost predicate KernelSlotsInUse(mem: Memory, root: nat) {
    root in mem && exists i | KERNEL_SLOT <= i < ENTRIES :: mem[root][i].present
  }

  lemma {:induction false} AdoptSealed(mem: Memory, mem': Memory, root: nat, root': nat)
    requires root in mem && !KernelSlotsInUse(mem, root) && TookOver(mem', root, root', 0) && mem'[root] == mem[root]
    ensures RootSealed(mem', root')
  {
  }

  /** A process's space: the kernel's slots of `root` taken over by a fresh `root'`. */
  lemma {:induction false} ProcessSpace(mem: Memory, mem': Memory, root: nat, root': nat, tab: map<seq<nat>, nat>)
    requires Tree(mem, root, tab) && Tree(mem', root, tab) && root' !in tab.Values
    requires root' in mem' && mem' == mem[root' := mem'[root']] && TookOver(mem', root, root', KERNEL_SLOT)
    ensures var tab', shared := Grafted(tab, root', KERNEL_SLOT), GraftedShared(tab, KERNEL_SLOT);
      && Tree(mem', root', tab') && tab'.Values == {root'} + shared && shared <= tab.Values
      && OwnLower(tab', {root'}, shared) && PlainLinks(mem', tab', true) && OpenLinks(mem', tab')
      && (PlainLinks(mem, tab, false) ==> PlainLinks(mem', tab', false))
      && (RootSealed(mem, root) ==> RootSealed(mem', root'))
    ensures forall va: U64 :: Translate(mem', root', va) == if va >= KERNEL_BASE then Translate(mem, root, va) else None
  {
    hide Tree, Translate, PlainLinks, OpenLinks, RootSealed, Grafted, GraftedShared, TookOver, OwnLower;
    RootAt(mem, root, tab);
    TreeTables(mem, root, tab);
    assert forall p | p in tab :: tab[p] in tab.Values;
    GraftTree(mem', root, root', tab, KERNEL_SLOT);
    GraftValues(tab, root', KERNEL_SLOT);
    SharedIsPart(tab, KERNEL_SLOT);
    GraftOwnLower(mem', root, root', tab);
    GraftSealed(mem, mem', root, root', tab);
    SpaceTranslates(mem, mem', root, root', tab);
    PlainOutside(mem, mem', tab, false);
    GraftPlain(mem', root, root', tab, KERNEL_SLOT);
  }

  lemma {:induction false} SharedIsPart(tab: map<seq<nat>, nat>, low: nat)
    ensures GraftedShared(tab, low) <= tab.Values
  {
  }

  lemma {:induction false} RootIsTaken(tab: map<seq<nat>, nat>, taken: set<nat>, shared: set<nat>)
    requires [] in tab && OwnLower(tab, taken, shared)
    ensures tab[[]] in taken
  {
  }

  // ---------------------------------------------------------------------
  // Giving tables back
  // ---------------------------------------------------------------------

  /** The tables at `p` and below it. */
  ghost function Under(tab: map<seq<nat>, nat>, p: seq<nat>): set<nat> {
    set q | q in tab && p <= q :: tab[q]
  }

  /** The tables below the first `k` entries of the one at `p`. */
  ghost function UnderFirst(tab: map<seq<nat>, nat>, p: seq<nat>, k: nat): set<nat> {
    set q | q in tab && p <= q && |q| > |p| && q[|p|] < k :: tab[q]
  }

  /** `s` holds each member of `all` exactly once, and nothing else. */
  ghost predicate OnceEach(s: seq<nat>, all: set<nat>) {
    Elements(s) == all && forall i, j :: 0 <= i < j < |s| ==> s[i] != s[j]
  }

  lemma {:induction false} OnceConcat(s: seq<nat>, t: seq<nat>, a: set<nat>, b: set<nat>)
    requires OnceEach(s, a) && OnceEach(t, b) && a !! b
    ensures OnceEach(s + t, a + b)
  {
    ElementsConcat(s, t);
    var r := s + t;
    forall i, j | 0 <= i < j < |r| ensures r[i] != r[j] {
      if i < |s| && j >= |s| {
        assert s[i] in Elements(s) && t[j - |s|] in Elements(t);
      }
    }
  }

  lemma {:induction false} OnceOne(x: nat)
    ensures OnceEach([x], {x})
  {
    assert [x][0] == x;
  }

  lemma {:induction false} OnceNone()
    ensures OnceEach([], {})
  {
  }

  lemma {:induction false} RootNotUnder(mem: Memory, root: nat, tab: map<seq<nat>, nat>)
    requires Tree(mem, root, tab)
    ensures root !in UnderFirst(tab, [], KERNEL_SLOT)
  {
  }

  /** The lower half and the root are exactly what a process took. */
  lemma {:induction false} OwnIsLower(mem: Memory, root: nat, tab: map<seq<nat>, nat>, taken: set<nat>,
                                      shared: set<nat>)
    requires Tree(mem, root, tab) && OwnLower(tab, taken, shared) && tab.Values == taken + shared && taken !! shared
    ensures UnderFirst(tab, [], KERNEL_SLOT) + {root} == taken
  {
    hide EntryOk;
    RootAt(mem, root, tab);
    forall x | x in taken ensures x in UnderFirst(tab, [], KERNEL_SLOT) + {root} {
      var p :| p in tab && tab[p] == x;
    }
  }

  lemma {:induction false} OnceElements(s: seq<nat>, all: set<nat>)
    requires OnceEach(s, all)
    ensures Elements(s) == all && OnceEach(s, Elements(s))
  {
  }

  lemma {:induction false} SameAsItself(mem: Memory, root: nat)
    ensures SameTranslations(mem, mem, root)
  {
  }

  /** The moment a process space was made: the memory, the kernel's root, the tables in use and
      the free frames. */
  datatype Birth = Birth(mem: Memory, root: nat, inUse: set<nat>, free: seq<nat>)

  /** A process space since its birth: its tables are its own or the kernel's, nothing that was
      in use then has been written, the kernel's half translates as it did, and every frame
      that went is a table of this space or was lost for a reason. */
  ghost predicate Living(birth: Birth, s: Moment, root: nat, shared: set<nat>, window: nat) {
    && OwnLower(s.tab, s.taken, shared)
    && birth.inUse <= s.inUse && s.taken !! birth.inUse && birth.mem.Keys <= s.mem.Keys
    && (forall t | t in birth.inUse && t in birth.mem :: t in s.mem && s.mem[t] == birth.mem[t])
    && Consumed(birth.free, s.free, {}, s.taken + s.leaked) && s.taken !! s.leaked
    && (forall va: U64 | va >= KERNEL_BASE :: Translate(s.mem, root, va) == Translate(birth.mem, birth.root, va))
    && (s.leaked != {} && window >= KERNEL_BASE ==>
          exists k | 0 <= k < |birth.free| :: !Reachable(birth.mem, birth.root, window, birth.free[k]))
  }

  lemma {:induction false} Born(birth: Birth, s: Moment, root: nat, shared: set<nat>, window: nat)
    requires birth.free != [] && root == birth.free[0] && s.free == birth.free[1..] && s.taken == {root}
    requires s.leaked == {}
    requires OwnLower(s.tab, s.taken, shared) && root !in birth.inUse && s.inUse == birth.inUse + {root}
    requires root in s.mem && s.mem == birth.mem[root := s.mem[root]]
    requires forall va: U64 ::
               Translate(s.mem, root, va) == if va >= KERNEL_BASE then Translate(birth.mem, birth.root, va) else None
    ensures Living(birth, s, root, shared, window)
  {
    hide Translate, OwnLower, Reachable, Consumed;
    ConsumedOne(birth.free, {});
    assert {} + {birth.free[0]} == s.taken + s.leaked;
  }

  lemma {:induction false} LivingApart(birth: Birth, s: Moment, root: nat, shared: set<nat>, window: nat)
    requires Living(birth, s, root, shared, window)
    ensures OwnLower(s.tab, s.taken, shared)
    ensures birth.inUse <= s.inUse
    ensures s.taken !! birth.inUse && s.taken !! s.leaked && Consumed(birth.free, s.free, {}, s.taken + s.leaked)
    ensures forall t | t in birth.inUse && t in birth.mem :: t in s.mem && s.mem[t] == birth.mem[t]
    ensures s.leaked != {} && window >= KERNEL_BASE ==>
              exists k | 0 <= k < |birth.free| :: !Reachable(birth.mem, birth.root, window, birth.free[k])
  {
    hide Translate, OwnLower, Reachable, Consumed;
  }

  lemma {:induction false} KernelHalfKept(mem: Memory, mem': Memory, root: nat, page: U64)
    requires page < LOWER_END
    requires SameTranslations(mem, mem', root) || forall va: U64 | !(IsCanonical(va) && va / PAGE == page / PAGE) ::
               Translate(mem', root, va) == Translate(mem, root, va)
    ensures forall va: U64 | va >= KERNEL_BASE :: Translate(mem', root, va) == Translate(mem, root, va)
  {
    hide Translate;
    forall va: U64 | va >= KERNEL_BASE ensures Translate(mem', root, va) == Translate(mem, root, va) {
      assert va / PAGE != page / PAGE;
    }
  }

  /** Mapping a lower-half page of a process only takes and writes tables of its own. */
  lemma {:induction false} LivesOn(birth: Birth, s: Moment, s': Moment, root: nat, shared: set<nat>, window: nat,
                                   page: U64)
    requires Living(birth, s, root, shared, window) && Accounted(s, s', root, window, Path(page)) && page < LOWER_END
    requires s.tab.Values <= s.inUse && s'.taken + shared == s'.tab.Values && s'.taken !! shared
    requires s'.leaked !! s'.tab.Values
    requires forall va: U64 | va >= KERNEL_BASE :: Translate(s'.mem, root, va) == Translate(s.mem, root, va)
    ensures Living(birth, s', root, shared, window)
  {
    hide Translate, Reachable, Consumed, RootSealed, PlainLinks, OpenLinks, Index;
    LowerOnly(s, s', page, shared);
    ConsumedThen(birth.free, s.free, s'.free, {}, s.taken + s.leaked, s'.taken + s'.leaked);
    if s'.leaked != s.leaked && window >= KERNEL_BASE {
      var i :| 0 <= i < |s.free| && !Reachable(s.mem, root, window, s.free[i]);
      FreeBefore(birth.free, s.free, {}, s.taken + s.leaked, i);
      SameReachable(s.mem, root, birth.mem, birth.root, window, s.free[i]);
    }
  }

  lemma {:induction false} SameReachable(mem: Memory, root: nat, mem0: Memory, root0: nat, window: nat, frame: nat)
    requires window >= KERNEL_BASE
    requires forall va: U64 | va >= KERNEL_BASE :: Translate(mem, root, va) == Translate(mem0, root0, va)
    ensures Reachable(mem, root, window, frame) <==> Reachable(mem0, root0, window, frame)
  {
    hide Translate;
  }

  lemma {:induction false} LowerOnly(s: Moment, s': Moment, page: U64, shared: set<nat>)
    requires Took(s.tab, s'.tab, s.taken, s'.taken, Path(page)) && page < LOWER_END && OwnLower(s.tab, s.taken, shared)
    ensures OwnLower(s'.tab, s'.taken, shared) && Along(s.tab, Path(page)) <= s.taken
  {
    hide Index;
    PathDecides(page);
    assert Path(page)[0] < KERNEL_SLOT;
    forall p | p in s.tab && p <= Path(page) ensures s.tab[p] in s.taken {
      assert p != [] ==> p[0] == Path(page)[0];
    }
    forall p | p in s'.tab ensures if p == [] || Lower(p) then s'.tab[p] in s'.taken else s'.tab[p] in shared {
      if p !in s.tab {
        assert p[0] == Path(page)[0];
      }
    }
  }

  /** A table below `p + [k]` only hangs there if `p + [k]` does. */
  lemma {:induction false} HangsFrom(mem: Memory, root: nat, tab: map<seq<nat>, nat>, p: seq<nat>, q: seq<nat>)
    requires Tree(mem, root, tab) && q in tab && p <= q
    ensures p in tab
    decreases |q|
  {
    if p == q {
    } else {
      TreePrefix(mem, root, tab, q);
      HangsFrom(mem, root, tab, p, q[..|q| - 1]);
    }
  }

  lemma {:induction false} UnderStep(mem: Memory, root: nat, tab: map<seq<nat>, nat>, p: seq<nat>, k: nat)
    requires Tree(mem, root, tab) && p in tab
    ensures UnderFirst(tab, p, k + 1) == UnderFirst(tab, p, k) + Under(tab, p + [k])
    ensures UnderFirst(tab, p, k) !! Under(tab, p + [k])
    ensures p + [k] !in tab ==> UnderFirst(tab, p, k + 1) == UnderFirst(tab, p, k)
  {
    hide Tree;
    forall q | q in tab ensures p + [k] <= q <==> p <= q && |q| > |p| && q[|p|] == k {
      if p <= q && |q| > |p| && q[|p|] == k {
        assert q[..|p|] == p && q[..|p| + 1] == p + [k];
      }
      if p + [k] <= q {
        PrefixParts(p, k, q);
      }
    }
    if p + [k] !in tab {
      forall q | q in tab ensures !(p + [k] <= q) {
        if p + [k] <= q {
          HangsFrom(mem, root, tab, p + [k], q);
        }
      }
    }
    UnderApart(mem, root, tab, p, k);
  }

  lemma {:induction false} UnderApart(mem: Memory, root: nat, tab: map<seq<nat>, nat>, p: seq<nat>, k: nat)
    requires Tree(mem, root, tab) && p in tab
    ensures UnderFirst(tab, p, k) !! Under(tab, p + [k])
  {
    hide EntryOk;
    forall x | x in UnderFirst(tab, p, k) ensures x !in Under(tab, p + [k]) {
      var q :| q in tab && p <= q && |q| > |p| && q[|p|] < k && tab[q] == x;
      forall q' | q' in tab && p + [k] <= q' ensures tab[q'] != x {
        PrefixParts(p, k, q');
      }
    }
  }

  lemma {:induction false} UnderWhole(mem: Memory, root: nat, tab: map<seq<nat>, nat>, p: seq<nat>)
    requires Tree(mem, root, tab) && p in tab
    ensures Under(tab, p) == UnderFirst(tab, p, ENTRIES) + {tab[p]}
    ensures tab[p] !in UnderFirst(tab, p, ENTRIES)
    ensures UnderFirst(tab, p, 0) == {}
    ensures |p| == 3 ==> Under(tab, p) == {tab[p]}
  {
    forall q | q in tab && p <= q ensures q == p || (|q| > |p| && q[|p|] < ENTRIES) {
      if |q| > |p| {
        IndicesInside(mem, root, tab, q, |p|);
      } else {
        assert q[..|p|] == p;
      }
    }
    TreeTables(mem, root, tab);
    TreeAt(mem, root, tab, p, 0);
    hide Tree;
  }

  lemma {:induction false} IndicesInside(mem: Memory, root: nat, tab: map<seq<nat>, nat>, q: seq<nat>, i: nat)
    requires Tree(mem, root, tab) && q in tab && i < |q|
    ensures q[i] < ENTRIES
    decreases |q|
  {
    hide Tree;
    TreePrefix(mem, root, tab, q);
    if i < |q| - 1 {
      IndicesInside(mem, root, tab, q[..|q| - 1], i);
    }
  }
}
