/** Whole lower halves built aside and then put in place: what they translate, and why the rest
    stays (arch/x86_64/src/paging.rs). */
module PagingRebuild {
  import opened Bytes
  import opened Paging
  import opened PagingSteps

  const GIB := 0x4000_0000
  const LARGE_PAGE := 0x20_0000
  /** What one slot of the root covers. */
  const SLOT_BYTES := 0x80_0000_0000

  /** A stretch of physical memory and how it has to be mapped. */
  datatype MappedRange = MappedRange(start: U64, len: U64, writable: bool, executable: bool, cache: CachePolicy) {
    /** One past the last byte, saturating. */
    function End(): U64 {
      if start + len < 0x1_0000_0000_0000_0000 then start + len else 0xFFFF_FFFF_FFFF_FFFF
    }

    predicate Contains(address: nat) {
      start <= address < End()
    }

    predicate Overlaps(from: nat, end: nat) {
      from < End() && start < end
    }
  }

  // ---------------------------------------------------------------------
  // A tree with no root yet
  // ---------------------------------------------------------------------

  /** `sub` says where each table below and including `top` hangs; `height` levels of tables can
      hang below it. */
  ghost predicate Hung(mem: Memory, top: nat, sub: map<seq<nat>, nat>, height: nat) {
    HungShape(mem, top, sub, height) && forall p, i | p in sub && 0 <= i < ENTRIES :: HungEntry(mem, sub, p, i, height)
  }

  ghost predicate HungShape(mem: Memory, top: nat, sub: map<seq<nat>, nat>, height: nat) {
    && [] in sub && sub[[]] == top
    && (forall p | p in sub :: |p| <= height && sub[p] in mem)
    && Once(sub) && Prefixed(sub)
  }

  /** No table hangs in two places. */
  ghost predicate Once(sub: map<seq<nat>, nat>) {
    forall p, q | p in sub && q in sub && sub[p] == sub[q] :: p == q
  }

  /** A table only hangs from a table. */
  ghost predicate Prefixed(sub: map<seq<nat>, nat>) {
    forall p | p in sub && p != [] :: p[..|p| - 1] in sub && p[|p| - 1] < ENTRIES
  }

  ghost predicate HungEntry(mem: Memory, sub: map<seq<nat>, nat>, p: seq<nat>, i: nat, height: nat)
    requires p in sub && i < ENTRIES && sub[p] in mem
  {
    var entry := mem[sub[p]][i];
    |p| < height ==> (p + [i] in sub <==> entry.Link()) && (entry.Link() ==> entry.address == sub[p + [i]])
  }

  lemma {:induction false} HungAt(mem: Memory, top: nat, sub: map<seq<nat>, nat>, height: nat, p: seq<nat>, i: nat)
    requires Hung(mem, top, sub, height) && p in sub && i < ENTRIES
    ensures sub[p] in mem && HungEntry(mem, sub, p, i, height) && |p| <= height
    ensures forall q | q in sub && sub[q] == sub[p] :: q == p
  {
  }

  /** A tree is what hangs from its root, three levels deep, with no page mapped by the root. */
  lemma {:induction false} HungIsTree(mem: Memory, root: nat, tab: map<seq<nat>, nat>)
    requires Hung(mem, root, tab, 3) && forall i | 0 <= i < ENTRIES :: mem[root][i].present ==> !mem[root][i].huge
    ensures Tree(mem, root, tab)
  {
    forall p, i | p in tab && 0 <= i < ENTRIES ensures EntryOk(mem, tab, p, i) {
      assert HungEntry(mem, tab, p, i, 3);
    }
  }

  ghost function Alone(top: nat): map<seq<nat>, nat> {
    map[[] := top]
  }

  lemma {:induction false} AloneHas(top: nat)
    ensures Alone(top).Values == {top} && [] in Alone(top) && Alone(top)[[]] == top
  {
    assert Alone(top)[[]] == top;
  }

  /** A table nothing hangs from. */
  lemma {:induction false} HungAlone(mem: Memory, top: nat, height: nat)
    requires top in mem && (height == 0 || forall i | 0 <= i < ENTRIES :: !mem[top][i].Link())
    ensures Hung(mem, top, Alone(top), height)
  {
    forall i | 0 <= i < ENTRIES ensures HungEntry(mem, Alone(top), [], i, height) {
    }
  }

  lemma {:induction false} HungFrame(mem: Memory, mem': Memory, top: nat, sub: map<seq<nat>, nat>, height: nat)
    requires Hung(mem, top, sub, height) && forall p | p in sub :: sub[p] in mem' && mem'[sub[p]] == mem[sub[p]]
    ensures Hung(mem', top, sub, height)
  {
    forall p, i | p in sub && 0 <= i < ENTRIES ensures HungEntry(mem', sub, p, i, height) {
      assert HungEntry(mem, sub, p, i, height);
    }
  }

  /** Writing a page into the top table, where nothing hung and nothing will. */
  lemma {:induction false} HungLeaf(mem: Memory, top: nat, sub: map<seq<nat>, nat>, height: nat, i: nat, e: TableEntry)
    requires Hung(mem, top, sub, height) && i < ENTRIES && top in mem && !mem[top][i].Link() && !e.Link()
    ensures Hung(mem[top := mem[top][i := e]], top, sub, height)
  {
    var mem' := mem[top := mem[top][i := e]];
    assert HungShape(mem', top, sub, height);
    assert [] in sub && sub[[]] == top;
    forall p, k | p in sub && 0 <= k < ENTRIES ensures sub[p] in mem' && HungEntry(mem', sub, p, k, height) {
      hide Hung, HungShape;
      HungAt(mem, top, sub, height, p, k);
      HungAt(mem, top, sub, height, [], i);
    }
  }

  /** `sub` with all of `kid` hung at entry `i` of its top. */
  ghost function With(sub: map<seq<nat>, nat>, i: nat, kid: map<seq<nat>, nat>): map<seq<nat>, nat> {
    map p | p in sub.Keys + (set q | q in kid :: [i] + q) ::
      if p in sub then sub[p] else if p != [] && p[1..] in kid then kid[p[1..]] else 0
  }

  lemma {:induction false} WithHas(sub: map<seq<nat>, nat>, i: nat, kid: map<seq<nat>, nat>, p: seq<nat>)
    requires [] in sub
    ensures p in With(sub, i, kid) <==> p in sub || (p != [] && p[0] == i && p[1..] in kid)
    ensures p in With(sub, i, kid) ==> With(sub, i, kid)[p] == if p in sub then sub[p] else kid[p[1..]]
  {
    if p != [] && p[0] == i && p[1..] in kid {
      assert p == [i] + p[1..];
    }
    forall q | q in kid ensures ([i] + q)[1..] == q {
    }
  }

  lemma {:induction false} FirstHangs(mem: Memory, top: nat, sub: map<seq<nat>, nat>, height: nat, p: seq<nat>)
    requires HungShape(mem, top, sub, height) && p in sub && p != []
    ensures [p[0]] in sub
    decreases |p|
  {
    if |p| == 1 {
      assert p == [p[0]];
    } else {
      FirstHangs(mem, top, sub, height, p[..|p| - 1]);
    }
  }

  /** Hanging one finished tree from another's top. */
  lemma {:induction false} Attach(mem: Memory, top: nat, sub: map<seq<nat>, nat>, height: nat, i: nat, f: nat,
                                  kid: map<seq<nat>, nat>, e: TableEntry)
    requires height > 0 && Hung(mem, top, sub, height) && Hung(mem, f, kid, height - 1) && sub.Values !! kid.Values
    requires top in mem && i < ENTRIES && !mem[top][i].Link() && e.Link() && e.address == f
    ensures Hung(mem[top := mem[top][i := e]], top, With(sub, i, kid), height)
  {
    var mem' := mem[top := mem[top][i := e]];
    var all := With(sub, i, kid);
    HungAt(mem, top, sub, height, [], i);
    assert [] + [i] == [i];
    AttachShape(mem, mem', top, sub, height, i, f, kid);
    forall p, k | p in all && 0 <= k < ENTRIES ensures HungEntry(mem', all, p, k, height) {
      AttachEntry(mem, mem', top, sub, height, i, f, kid, e, p, k);
    }
  }

  lemma {:induction false} AttachShape(mem: Memory, mem': Memory, top: nat, sub: map<seq<nat>, nat>, height: nat,
                                       i: nat, f: nat, kid: map<seq<nat>, nat>)
    requires height > 0 && HungShape(mem, top, sub, height) && HungShape(mem, f, kid, height - 1)
    requires sub.Values !! kid.Values
    requires i < ENTRIES && [i] !in sub && mem.Keys <= mem'.Keys
    ensures HungShape(mem', top, With(sub, i, kid), height)
  {
    var all := With(sub, i, kid);
    WithHas(sub, i, kid, []);
    AttachedPrefixed(mem, mem', top, sub, height, i, f, kid);
    AttachedOnce(sub, i, kid);
    hide With, Once, Prefixed;
  }

  lemma {:induction false} AttachedPrefixed(mem: Memory, mem': Memory, top: nat, sub: map<seq<nat>, nat>, height: nat,
                                            i: nat, f: nat, kid: map<seq<nat>, nat>)
    requires height > 0 && HungShape(mem, top, sub, height) && HungShape(mem, f, kid, height - 1)
    requires i < ENTRIES && mem.Keys <= mem'.Keys
    ensures Prefixed(With(sub, i, kid))
    ensures forall p | p in With(sub, i, kid) :: |p| <= height && With(sub, i, kid)[p] in mem'
  {
    hide With, HungShape, Once;
    var all := With(sub, i, kid);
    forall p | p in all
      ensures |p| <= height && all[p] in mem' && (p != [] ==> p[..|p| - 1] in all && p[|p| - 1] < ENTRIES)
    {
      AttachPrefix(mem, top, sub, height, i, f, kid, p);
    }
  }

  lemma {:induction false} AttachedOnce(sub: map<seq<nat>, nat>, i: nat, kid: map<seq<nat>, nat>)
    requires [] in sub && Once(sub) && Once(kid) && sub.Values !! kid.Values
    ensures Once(With(sub, i, kid))
  {
    var all := With(sub, i, kid);
    forall p, q | p in all && q in all && all[p] == all[q] ensures p == q {
      WithHas(sub, i, kid, p);
      WithHas(sub, i, kid, q);
      hide With, Once;
      AttachOnce(sub, i, kid, p, q);
    }
    hide With;
  }

  lemma {:induction false} AttachPrefix(mem: Memory, top: nat, sub: map<seq<nat>, nat>, height: nat, i: nat, f: nat,
                                        kid: map<seq<nat>, nat>, p: seq<nat>)
    requires height > 0 && HungShape(mem, top, sub, height) && HungShape(mem, f, kid, height - 1) && i < ENTRIES
    requires p in With(sub, i, kid)
    ensures |p| <= height && With(sub, i, kid)[p] in mem
    ensures p != [] ==> p[|p| - 1] < ENTRIES && p[..|p| - 1] in With(sub, i, kid)
  {
    hide With, Once, Prefixed;
    WithHas(sub, i, kid, p);
    if p == [] {
    } else if p in sub {
      PrefixAt(sub, p);
      WithHas(sub, i, kid, p[..|p| - 1]);
    } else {
      var q := p[1..];
      PrefixAt(kid, q);
      WithHas(sub, i, kid, p[..|p| - 1]);
      if q == [] {
        assert p[..|p| - 1] == [];
      } else {
        assert q[..|q| - 1] == p[..|p| - 1][1..] && p[|p| - 1] == q[|q| - 1];
      }
    }
  }

  lemma {:induction false} PrefixAt(sub: map<seq<nat>, nat>, p: seq<nat>)
    requires Prefixed(sub) && p in sub
    ensures p != [] ==> p[..|p| - 1] in sub && p[|p| - 1] < ENTRIES
  {
  }

  lemma {:induction false} AttachOnce(sub: map<seq<nat>, nat>, i: nat, kid: map<seq<nat>, nat>, p: seq<nat>,
                                      q: seq<nat>)
    requires Once(sub) && Once(kid) && sub.Values !! kid.Values
    requires p in sub || (p != [] && p[0] == i && p[1..] in kid)
    requires q in sub || (q != [] && q[0] == i && q[1..] in kid)
    requires (if p in sub then sub[p] else kid[p[1..]]) == (if q in sub then sub[q] else kid[q[1..]])
    ensures p == q
  {
    assert p in sub ==> sub[p] in sub.Values;
    assert q in sub ==> sub[q] in sub.Values;
    if p !in sub {
      assert kid[p[1..]] in kid.Values && p == [i] + p[1..];
      assert q == [i] + q[1..];
    }
  }

  lemma {:induction false} AttachEntry(mem: Memory, mem': Memory, top: nat, sub: map<seq<nat>, nat>, height: nat,
                                       i: nat, f: nat,
                                       kid: map<seq<nat>, nat>, e: TableEntry, p: seq<nat>, k: nat)
    requires height > 0 && Hung(mem, top, sub, height) && Hung(mem, f, kid, height - 1) && sub.Values !! kid.Values
    requires top in mem && i < ENTRIES && !mem[top][i].Link() && e.Link() && e.address == f
    requires mem' == mem[top := mem[top][i := e]] && p in With(sub, i, kid) && k < ENTRIES
    requires With(sub, i, kid)[p] in mem'
    ensures HungEntry(mem', With(sub, i, kid), p, k, height)
  {
    var all := With(sub, i, kid);
    WithHas(sub, i, kid, p);
    WithHas(sub, i, kid, p + [k]);
    HungAt(mem, top, sub, height, [], i);
    assert [] + [i] == [i];
    assert HungShape(mem, top, sub, height) && [] in kid && kid[[]] == f;
    hide With, Hung;
    if p in sub {
      AttachOld(mem, mem', top, sub, height, i, f, kid, e, p, k);
    } else {
      AttachNew(mem, mem', top, sub, height, i, f, kid, e, p, k);
    }
  }

  lemma {:induction false} NothingBelow(mem: Memory, top: nat, sub: map<seq<nat>, nat>, height: nat, p: seq<nat>,
                                        k: nat)
    requires HungShape(mem, top, sub, height) && p !in sub
    ensures p + [k] !in sub
  {
    assert (p + [k])[..|p|] == p;
  }

  lemma {:induction false} AttachNew(mem: Memory, mem': Memory, top: nat, sub: map<seq<nat>, nat>, height: nat, i: nat,
                                     f: nat,
                                     kid: map<seq<nat>, nat>, e: TableEntry, p: seq<nat>, k: nat)
    requires height > 0 && HungShape(mem, top, sub, height) && Hung(mem, f, kid, height - 1) && sub.Values !! kid.Values
    requires [] in sub && top in mem && i < ENTRIES && [i] !in sub
    requires mem' == mem[top := mem[top][i := e]] && p !in sub && p in With(sub, i, kid) && k < ENTRIES
    requires With(sub, i, kid)[p] in mem'
    ensures HungEntry(mem', With(sub, i, kid), p, k, height)
  {
    hide With, Hung, HungShape;
    var all, q := With(sub, i, kid), p[1..];
    WithHas(sub, i, kid, p);
    assert all[p] == kid[q];
    assert all[p] != top by {
      TopIn(mem, top, sub, height);
      assert kid[q] in kid.Values;
    }
    assert mem'[all[p]] == mem[kid[q]];
    assert p + [k] in all <==> q + [k] in kid by {
      NothingBelow(mem, top, sub, height, p, k);
      WithHas(sub, i, kid, p + [k]);
      assert (p + [k])[1..] == q + [k];
    }
    assert q + [k] in kid ==> all[p + [k]] == kid[q + [k]] by {
      NothingBelow(mem, top, sub, height, p, k);
      WithHas(sub, i, kid, p + [k]);
      assert (p + [k])[1..] == q + [k];
    }
    HungAt(mem, f, kid, height - 1, q, k);
  }

  lemma {:induction false} TopIn(mem: Memory, top: nat, sub: map<seq<nat>, nat>, height: nat)
    requires HungShape(mem, top, sub, height)
    ensures [] in sub && sub[[]] == top && top in sub.Values
  {
  }

  lemma {:induction false} AttachOld(mem: Memory, mem': Memory, top: nat, sub: map<seq<nat>, nat>, height: nat, i: nat,
                                     f: nat,
                                     kid: map<seq<nat>, nat>, e: TableEntry, p: seq<nat>, k: nat)
    requires height > 0 && Hung(mem, top, sub, height) && [] in kid && kid[[]] == f
    requires [] in sub && sub[[]] == top && top in mem && i < ENTRIES && [i] !in sub && e.Link() && e.address == f
    requires mem' == mem[top := mem[top][i := e]] && p in sub && k < ENTRIES && p in With(sub, i, kid)
    requires With(sub, i, kid)[p] in mem'
    ensures HungEntry(mem', With(sub, i, kid), p, k, height)
  {
    hide With, Hung;
    var all := With(sub, i, kid);
    WithHas(sub, i, kid, p);
    WithHas(sub, i, kid, p + [k]);
    HungAt(mem, top, sub, height, p, k);
    assert all[p] == sub[p];
    if p == [] {
      assert p + [k] == [k] && [k][1..] == [];
    } else {
      assert sub[p] != top by { HungAt(mem, top, sub, height, [], 0); }
      assert (p + [k])[0] == p[0] != i by { NotUnder(mem, top, sub, height, i, p); }
    }
  }

  lemma {:induction false} NotUnder(mem: Memory, top: nat, sub: map<seq<nat>, nat>, height: nat, i: nat, p: seq<nat>)
    requires Hung(mem, top, sub, height) && [i] !in sub && p in sub && p != []
    ensures p[0] != i
  {
    FirstHangs(mem, top, sub, height, p);
  }

  // ---------------------------------------------------------------------
  // Putting a lower half in place
  // ---------------------------------------------------------------------

  /** The tables of a root that has the lower half of one tree and the kernel's half of another. */
  ghost function Halves(tab: map<seq<nat>, nat>, low: map<seq<nat>, nat>): map<seq<nat>, nat> {
    map p | p in tab.Keys + low.Keys && (if Lower(p) then p in low else p in tab) :: if Lower(p) then low[p] else tab[p]
  }

  /** `made` is `mem` with only a lower half under `root`, `mem'` is `mem` with that lower half put
      in place; ring 3 may be let through on the way. */
  ghost predicate PutInPlace(mem: Memory, made: Memory, mem': Memory, root: nat) {
    && root in mem && root in made && root in mem'
    && made == mem[root := made[root]] && mem' == mem[root := mem'[root]]
    && forall i | 0 <= i < ENTRIES ::
         mem'[root][i] == if i < KERNEL_SLOT then made[root][i].(user := mem'[root][i].user) else mem[root][i]
  }

  ghost predicate Separate(tab: map<seq<nat>, nat>, low: map<seq<nat>, nat>) {
    forall p | p in low && p != [] :: low[p] !in tab.Values
  }

  lemma {:induction false} HalvesShape(mem: Memory, made: Memory, mem': Memory, root: nat, tab: map<seq<nat>, nat>,
                                       low: map<seq<nat>, nat>)
    requires Shape(mem, root, tab) && Shape(made, root, low) && PutInPlace(mem, made, mem', root) && Separate(tab, low)
    ensures Shape(mem', root, Halves(tab, low))
  {
    hide PutInPlace;
    assert mem'.Keys == mem.Keys == made.Keys by { SameFrames(mem, made, mem', root); }
    var all := Halves(tab, low);
    forall p | p in all
      ensures |p| <= 3 && all[p] in mem' && (p != [] ==> p[..|p| - 1] in all && p[|p| - 1] < ENTRIES)
    {
      HalvesPrefix(mem, made, root, tab, low, p);
    }
    forall p, q | p in all && q in all && all[p] == all[q] ensures p == q {
      HalvesOnce(mem, made, root, tab, low, p, q);
    }
    HalvesPrefix(mem, made, root, tab, low, []);
    hide Halves;
  }

  lemma {:induction false} HalvesPrefix(mem: Memory, made: Memory, root: nat, tab: map<seq<nat>, nat>,
                                        low: map<seq<nat>, nat>, p: seq<nat>)
    requires Shape(mem, root, tab) && Shape(made, root, low) && (p == [] || p in Halves(tab, low))
    ensures p in Halves(tab, low) && |p| <= 3 && (Halves(tab, low)[p] in mem || Halves(tab, low)[p] in made)
    ensures p == [] ==> Halves(tab, low)[p] == root
    ensures p != [] ==> p[..|p| - 1] in Halves(tab, low) && p[|p| - 1] < ENTRIES
  {
    if |p| > 1 {
      assert p[..|p| - 1][0] == p[0];
    } else if |p| == 1 {
      assert p[..|p| - 1] == [];
    }
  }

  lemma {:induction false} HalvesOnce(mem: Memory, made: Memory, root: nat, tab: map<seq<nat>, nat>,
                                      low: map<seq<nat>, nat>, p: seq<nat>, q: seq<nat>)
    requires Shape(mem, root, tab) && Shape(made, root, low) && Separate(tab, low)
    requires p in Halves(tab, low) && q in Halves(tab, low) && Halves(tab, low)[p] == Halves(tab, low)[q]
    ensures p == q
  {
    assert !Lower(p) ==> tab[p] in tab.Values;
    assert !Lower(q) ==> tab[q] in tab.Values;
  }

  lemma {:induction false} SameFrames(mem: Memory, made: Memory, mem': Memory, root: nat)
    requires PutInPlace(mem, made, mem', root)
    ensures mem'.Keys == mem.Keys == made.Keys
  {
    hide Paging.Walk;
    assert mem[root := made[root]].Keys == mem.Keys;
    assert mem[root := mem'[root]].Keys == mem.Keys;
  }

  lemma {:induction false} HalvesTree(mem: Memory, made: Memory, mem': Memory, root: nat, tab: map<seq<nat>, nat>,
                                      low: map<seq<nat>, nat>)
    requires Tree(mem, root, tab) && Tree(made, root, low) && PutInPlace(mem, made, mem', root) && Separate(tab, low)
    ensures Tree(mem', root, Halves(tab, low))
  {
    HalvesShape(mem, made, mem', root, tab, low);
    var all := Halves(tab, low);
    RootAt(mem, root, tab);
    RootAt(made, root, low);
    forall p, i | p in all && 0 <= i < ENTRIES ensures EntryOk(mem', all, p, i) {
      hide Tree, Shape;
      FirstOf(p, i);
      if p == [] {
        TreeAt(mem, root, tab, p, i);
        TreeAt(made, root, low, p, i);
      } else if Lower(p) {
        TreeAt(made, root, low, p, i);
      } else {
        TreeAt(mem, root, tab, p, i);
      }
    }
  }

  /** The lower half is the new one, the kernel's half is what it was. */
  lemma {:induction false} HalvesTranslate(mem: Memory, made: Memory, mem': Memory, root: nat, tab: map<seq<nat>, nat>,
                                           low: map<seq<nat>, nat>, va: U64)
    requires Tree(mem, root, tab) && Tree(made, root, low) && PutInPlace(mem, made, mem', root)
    ensures Translate(mem', root, va) == if va < LOWER_END then Translate(made, root, va) else Translate(mem, root, va)
    ensures IsCanonical(va) ==>
              && Executes(mem', root, 0, va)
                 == (if va < LOWER_END then Executes(made, root, 0, va) else Executes(mem, root, 0, va))
              && LeafOf(mem', root, 0, va)
                 == (if va < LOWER_END then LeafOf(made, root, 0, va) else LeafOf(mem, root, 0, va))
  {
    hide Tree, Index, Span;
    if IsCanonical(va) {
      PathDecides(va);
      if va < LOWER_END {
        HalfWalk(made, mem', root, low, va);
      } else {
        HalfWalk(mem, mem', root, tab, va);
      }
    }
  }

  lemma {:induction false} HalfWalk(mem: Memory, mem': Memory, root: nat, tab: map<seq<nat>, nat>, va: U64)
    requires Tree(mem, root, tab) && root in mem && root in mem' && mem' == mem[root := mem'[root]]
    requires var k := Index(va, 0); mem'[root][k] == mem[root][k].(user := mem'[root][k].user)
    ensures Walk(mem', root, 0, va, true) == Walk(mem, root, 0, va, true)
    ensures Executes(mem', root, 0, va) == Executes(mem, root, 0, va)
    ensures LeafOf(mem', root, 0, va) == LeafOf(mem, root, 0, va)
  {
    hide Index, Span;
    var k := Index(va, 0);
    RootAt(mem, root, tab);
    TreeAt(mem, root, tab, [], k);
    var entry := mem[root][k];
    if entry.Link() {
      assert [] + [k] == [k] == Path(va)[..1];
      assert forall p | p in tab && |p| >= 1 ::
               tab[p] in mem' && mem'[tab[p]] == mem[tab[p]] by { TreeTables(mem, root, tab); }
      WalkOutside(mem, mem', root, tab, va, 1, entry.writable);
    }
  }

  // ---------------------------------------------------------------------
  // The identity map
  // ---------------------------------------------------------------------

  /** Some executable range meets the page. */
  predicate RunsCode(ranges: seq<MappedRange>, page: nat) {
    exists k | 0 <= k < |ranges| :: ranges[k].executable && ranges[k].Overlaps(page, page + PAGE)
  }

  /** One listed range covers the page, and no writable one touches it. */
  predicate ReadOnly(ranges: seq<MappedRange>, page: nat) {
    && (exists k | 0 <= k < |ranges| :: ranges[k].Contains(page) && ranges[k].End() >= page + PAGE)
    && !(exists k | 0 <= k < |ranges| :: ranges[k].writable && ranges[k].Overlaps(page, page + PAGE))
  }

  predicate Meets(ranges: seq<MappedRange>, from: nat, end: nat) {
    exists k | 0 <= k < |ranges| :: ranges[k].Overlaps(from, end)
  }

  /** A range that is not empty and ends where an address can meets another exactly when an address is
      in both. */
  lemma {:induction false} OverlapsMeans(range: MappedRange, from: nat, end: nat)
    requires range.len > 0 && range.start + range.len < 0x1_0000_0000_0000_0000 && from < end
    ensures range.Overlaps(from, end) <==> exists a: nat | from <= a < end :: range.Contains(a)
    ensures forall a: nat :: range.Contains(a) <==> range.start <= a < range.start + range.len
  {
    if range.Overlaps(from, end) {
      assert range.Contains(if from < range.start then range.start else from);
    }
  }

  ghost predicate HoldsPage(range: MappedRange, page: nat) {
    forall a: nat | page <= a < page + PAGE :: range.Contains(a)
  }

  ghost predicate TouchesPage(range: MappedRange, page: nat) {
    exists a: nat | page <= a < page + PAGE :: range.Contains(a)
  }

  /** A page is kept from being written exactly when all of it is in one listed range and none of it in
      a writable one, and may be run exactly when some of it is in an executable one. */
  lemma {:induction false} RangesMean(ranges: seq<MappedRange>, page: nat)
    requires forall k | 0 <= k < |ranges| ::
               ranges[k].len > 0 && ranges[k].start + ranges[k].len < 0x1_0000_0000_0000_0000
    ensures RunsCode(ranges, page) <==>
            exists k | 0 <= k < |ranges| :: ranges[k].executable && TouchesPage(ranges[k], page)
    ensures ReadOnly(ranges, page) <==>
            && (exists k | 0 <= k < |ranges| :: HoldsPage(ranges[k], page))
            && forall k | 0 <= k < |ranges| :: ranges[k].writable ==> !TouchesPage(ranges[k], page)
  {
    forall k | 0 <= k < |ranges|
      ensures ranges[k].Overlaps(page, page + PAGE) <==> TouchesPage(ranges[k], page)
      ensures ranges[k].Contains(page) && ranges[k].End() >= page + PAGE <==> HoldsPage(ranges[k], page)
    {
      OverlapsMeans(ranges[k], page, page + PAGE);
      if HoldsPage(ranges[k], page) {
        assert ranges[k].Contains(page) && ranges[k].Contains(page + PAGE - 1);
      }
    }
  }

  /** Two mebibytes that cannot be one page: the null page is in them, or something listed is. */
  predicate FineGrained(ranges: seq<MappedRange>, base: nat) {
    base == 0 || Meets(ranges, base, base + LARGE_PAGE)
  }

  function IdentityLeaf(ranges: seq<MappedRange>, page: nat): TableEntry {
    if page == 0 then EMPTY
    else TableEntry(true, !ReadOnly(ranges, page), false, false, false, false, !RunsCode(ranges, page), page)
  }

  function LargeLeaf(base: nat): TableEntry {
    TableEntry(true, true, false, false, false, true, true, base)
  }

  function IdentityTable(ranges: seq<MappedRange>, base: nat): (t: Table)
    ensures forall i | 0 <= i < ENTRIES :: t[i] == IdentityLeaf(ranges, base + i * PAGE)
  {
    seq(ENTRIES, i requires 0 <= i < ENTRIES => IdentityLeaf(ranges, base + i * PAGE))
  }

  /** One entry of a directory, for the two mebibytes at `base`. */
  ghost predicate PartMade(mem: Memory, entry: TableEntry, base: nat, ranges: seq<MappedRange>) {
    if FineGrained(ranges, base) then
      entry == LinkTo(entry.address, false) && entry.address in mem && mem[entry.address] == IdentityTable(ranges, base)
    else entry == LargeLeaf(base)
  }

  /** The first `n` entries of a directory, for the gibibyte at `base`; nothing is in the others. */
  ghost predicate DirectoryMade(mem: Memory, directory: nat, base: nat, ranges: seq<MappedRange>, n: nat) {
    && directory in mem
    && forall i | 0 <= i < ENTRIES ::
         if i < n then PartMade(mem, mem[directory][i], base + i * LARGE_PAGE, ranges) else mem[directory][i] == EMPTY
  }

  ghost predicate GibMade(mem: Memory, entry: TableEntry, base: nat, ranges: seq<MappedRange>) {
    entry == LinkTo(entry.address, false) && DirectoryMade(mem, entry.address, base, ranges, ENTRIES)
  }

  /** The first `n` gibibytes under a table of pointers; nothing is in its other entries. */
  ghost predicate PointersMade(mem: Memory, pointers: nat, ranges: seq<MappedRange>, n: nat) {
    && pointers in mem
    && forall i | 0 <= i < ENTRIES ::
         if i < n then GibMade(mem, mem[pointers][i], i * GIB, ranges) else mem[pointers][i] == EMPTY
  }

  /** Where an address below one slot of the root is: gibibyte, two mebibytes, page. */
  lemma {:induction false} Places(va: U64)
    requires va < SLOT_BYTES
    ensures Index(va, 0) == 0
    ensures Index(va, 1) == va / GIB
    ensures var base := Index(va, 1) * GIB + Index(va, 2) * LARGE_PAGE;
      base == va / LARGE_PAGE * LARGE_PAGE && base + Index(va, 3) * PAGE == va / PAGE * PAGE && va - base < LARGE_PAGE
  {
    Shifts(va);
    hide Index;
    var x := va / PAGE;
    var y := x / 512;
    var z := y / 512;
    assert x == 512 * y + x % 512 && y == 512 * z + y % 512;
    assert va / GIB == z && va / LARGE_PAGE == y && z < 512;
  }

  lemma {:induction false} LargeIsPlain(ranges: seq<MappedRange>, base: nat, page: nat)
    requires !FineGrained(ranges, base) && base <= page && page + PAGE <= base + LARGE_PAGE
    ensures !RunsCode(ranges, page) && !ReadOnly(ranges, page) && page != 0
  {
    forall k | 0 <= k < |ranges| ensures !ranges[k].Overlaps(page, page + PAGE) && !ranges[k].Contains(page) {
      assert !ranges[k].Overlaps(base, base + LARGE_PAGE);
    }
  }

  /** What the finished map does with every address of its slot. */
  lemma {:induction false} IdentityWalk(mem: Memory, pointers: nat, ranges: seq<MappedRange>, n: nat, va: U64)
    requires PointersMade(mem, pointers, ranges, n) && n <= ENTRIES && va < SLOT_BYTES
    ensures var page := va / PAGE * PAGE; var t := Walk(mem, pointers, 1, va, true);
      && (t.Some? <==> PAGE <= va < n * GIB)
      && (t.Some? ==> t.value.phys == va && t.value.writable == !ReadOnly(ranges, page))
      && (Executes(mem, pointers, 1, va) <==> PAGE <= va < n * GIB && RunsCode(ranges, page))
  {
    Places(va);
    var i, k := Index(va, 1), Index(va, 2);
    hide Index, RunsCode, ReadOnly, FineGrained;
    assert va < n * GIB <==> i < n;
    if i < n {
      assert GibMade(mem, mem[pointers][i], i * GIB, ranges);
      DirectoryWalk(mem, mem[pointers][i].address, i * GIB, ranges, va);
    }
  }

  lemma {:induction false} DirectoryWalk(mem: Memory, directory: nat, base: nat, ranges: seq<MappedRange>, va: U64)
    requires DirectoryMade(mem, directory, base, ranges, ENTRIES) && va < SLOT_BYTES && base == Index(va, 1) * GIB
    ensures var page := va / PAGE * PAGE; var t := Walk(mem, directory, 2, va, true);
      && (t.Some? <==> PAGE <= va)
      && (t.Some? ==> t.value.phys == va && t.value.writable == !ReadOnly(ranges, page))
      && (Executes(mem, directory, 2, va) <==> PAGE <= va && RunsCode(ranges, page))
  {
    Places(va);
    var k := Index(va, 2);
    var part, page := base + k * LARGE_PAGE, va / PAGE * PAGE;
    assert PartMade(mem, mem[directory][k], part, ranges);
    if FineGrained(ranges, part) {
      FineWalk(mem, mem[directory][k].address, part, ranges, va);
    } else {
      LargeIsPlain(ranges, part, page);
      Masked(va);
    }
    hide Index, RunsCode, ReadOnly, FineGrained;
  }

  lemma {:induction false} Masked(va: nat)
    ensures var base := va / LARGE_PAGE * LARGE_PAGE; base - base % LARGE_PAGE + va % LARGE_PAGE == va
    ensures var page := va / PAGE * PAGE; page - page % PAGE + va % PAGE == va
    ensures va / PAGE * PAGE == 0 <==> va < PAGE
  {
  }

  lemma {:induction false} FineWalk(mem: Memory, table: nat, part: nat, ranges: seq<MappedRange>, va: U64)
    requires table in mem && mem[table] == IdentityTable(ranges, part) && part + Index(va, 3) * PAGE == va / PAGE * PAGE
    ensures var page := va / PAGE * PAGE; var t := Walk(mem, table, 3, va, true);
      && (t.Some? <==> PAGE <= va)
      && (t.Some? ==> t.value.phys == va && t.value.writable == !ReadOnly(ranges, page))
      && (Executes(mem, table, 3, va) <==> PAGE <= va && RunsCode(ranges, page))
  {
    hide Index, RunsCode, ReadOnly;
    Masked(va);
    assert mem[table][Index(va, 3)] == IdentityLeaf(ranges, va / PAGE * PAGE);
  }

  /** Frames written elsewhere do not matter to what has been made. */
  lemma {:induction false} DirectoryFrame(mem: Memory, mem': Memory, directory: nat, kid: map<seq<nat>, nat>,
                                          base: nat, ranges: seq<MappedRange>, n: nat)
    requires Hung(mem, directory, kid, 1) && DirectoryMade(mem, directory, base, ranges, n)
    requires forall p | p in kid :: kid[p] in mem' && mem'[kid[p]] == mem[kid[p]]
    ensures DirectoryMade(mem', directory, base, ranges, n)
  {
    hide FineGrained, IdentityTable;
    assert [] in kid && kid[[]] == directory;
    forall i | 0 <= i < ENTRIES && i < n ensures PartMade(mem', mem'[directory][i], base + i * LARGE_PAGE, ranges) {
      assert PartMade(mem, mem[directory][i], base + i * LARGE_PAGE, ranges);
      HungAt(mem, directory, kid, 1, [], i);
    }
  }

  lemma {:induction false} PointersFrame(mem: Memory, mem': Memory, pointers: nat, sub: map<seq<nat>, nat>,
                                         ranges: seq<MappedRange>, n: nat)
    requires Hung(mem, pointers, sub, 2) && PointersMade(mem, pointers, ranges, n)
    requires forall p | p in sub :: sub[p] in mem' && mem'[sub[p]] == mem[sub[p]]
    ensures PointersMade(mem', pointers, ranges, n)
  {
    hide FineGrained, IdentityTable;
    assert [] in sub && sub[[]] == pointers;
    forall i | 0 <= i < ENTRIES && i < n ensures GibMade(mem', mem'[pointers][i], i * GIB, ranges) {
      GibFrame(mem, mem', pointers, sub, ranges, n, i);
    }
  }

  lemma {:induction false} GibFrame(mem: Memory, mem': Memory, pointers: nat, sub: map<seq<nat>, nat>,
                                    ranges: seq<MappedRange>, n: nat, i: nat)
    requires Hung(mem, pointers, sub, 2) && PointersMade(mem, pointers, ranges, n) && i < n && i < ENTRIES
    requires forall p | p in sub :: sub[p] in mem' && mem'[sub[p]] == mem[sub[p]]
    ensures pointers in mem' && GibMade(mem', mem'[pointers][i], i * GIB, ranges)
  {
    hide FineGrained, IdentityTable;
    assert [] in sub && sub[[]] == pointers && [] + [i] == [i];
    assert GibMade(mem, mem[pointers][i], i * GIB, ranges);
    HungAt(mem, pointers, sub, 2, [], i);
    var directory := mem[pointers][i].address;
    assert sub[[i]] == directory;
    forall k | 0 <= k < ENTRIES ensures PartMade(mem', mem'[directory][k], i * GIB + k * LARGE_PAGE, ranges) {
      hide Hung, PointersMade, GibMade;
      var base := i * GIB + k * LARGE_PAGE;
      assert PartMade(mem, mem[directory][k], base, ranges);
      HungAt(mem, pointers, sub, 2, [i], k);
      PartFrame(mem, mem', mem[directory][k], base, ranges);
    }
  }

  lemma {:induction false} PartFrame(mem: Memory, mem': Memory, entry: TableEntry, base: nat, ranges: seq<MappedRange>)
    requires PartMade(mem, entry, base, ranges)
    requires entry.Link() ==> entry.address in mem && entry.address in mem' && mem'[entry.address] == mem[entry.address]
    ensures PartMade(mem', entry, base, ranges)
  {
    hide FineGrained, IdentityTable;
  }

  // ---------------------------------------------------------------------
  // Building aside
  // ---------------------------------------------------------------------

  /** Nothing in use was written, and what is in use only grew. */
  ghost predicate Aside(mem: Memory, inUse: set<nat>, mem': Memory, inUse': set<nat>) {
    mem'.Keys == mem.Keys && inUse <= inUse' && forall t | t in inUse && t in mem :: mem'[t] == mem[t]
  }

  /** All tables of `sub` are in use now and were not before. */
  ghost predicate Newly(sub: map<seq<nat>, nat>, before: set<nat>, inUse: set<nat>) {
    forall p | p in sub :: sub[p] !in before && sub[p] in inUse
  }

  /** A root with nothing but a lower half under its first slot. */
  function LowerRoot(pointers: nat): (t: Table)
    ensures forall i | 0 <= i < ENTRIES :: t[i] == if i == 0 then LinkTo(pointers, false) else EMPTY
  {
    seq(ENTRIES, i requires 0 <= i < ENTRIES => if i == 0 then LinkTo(pointers, false) else EMPTY)
  }

  lemma {:induction false} DirectoryLarge(mem: Memory, directory: nat, kid: map<seq<nat>, nat>, base: nat,
                                          ranges: seq<MappedRange>, i: nat)
    requires Hung(mem, directory, kid, 1) && DirectoryMade(mem, directory, base, ranges, i) && i < ENTRIES
    requires !FineGrained(ranges, base + i * LARGE_PAGE)
    ensures var mem' := mem[directory := mem[directory][i := LargeLeaf(base + i * LARGE_PAGE)]];
      Hung(mem', directory, kid, 1) && DirectoryMade(mem', directory, base, ranges, i + 1)
  {
    hide FineGrained, IdentityTable;
    var e := LargeLeaf(base + i * LARGE_PAGE);
    var mem' := mem[directory := mem[directory][i := e]];
    HungLeaf(mem, directory, kid, 1, i, e);
    forall k | 0 <= k < i + 1 ensures PartMade(mem', mem'[directory][k], base + k * LARGE_PAGE, ranges) {
      hide Hung;
      if k < i { DirectoryPart(mem, mem', directory, kid, base, ranges, i, k); }
    }
  }

  lemma {:induction false} DirectoryPart(mem: Memory, mem': Memory, directory: nat, kid: map<seq<nat>, nat>, base: nat,
                                         ranges: seq<MappedRange>, i: nat, k: nat)
    requires Hung(mem, directory, kid, 1) && DirectoryMade(mem, directory, base, ranges, i) && k < i <= ENTRIES
    requires directory in mem' && mem' == mem[directory := mem'[directory]] && mem'[directory][k] == mem[directory][k]
    ensures PartMade(mem', mem'[directory][k], base + k * LARGE_PAGE, ranges)
  {
    hide FineGrained, IdentityTable;
    assert [] in kid && kid[[]] == directory && [] + [k] == [k];
    assert PartMade(mem, mem[directory][k], base + k * LARGE_PAGE, ranges);
    HungAt(mem, directory, kid, 1, [], k);
    assert mem[directory][k].Link() ==> kid[[k]] != directory by { HungAt(mem, directory, kid, 1, [], 0); }
    PartFrame(mem, mem', mem[directory][k], base + k * LARGE_PAGE, ranges);
  }

  lemma {:induction false} DirectoryFine(mem: Memory, directory: nat, kid: map<seq<nat>, nat>, base: nat,
                                         ranges: seq<MappedRange>, i: nat, table: nat)
    requires Hung(mem, directory, kid, 1) && DirectoryMade(mem, directory, base, ranges, i) && i < ENTRIES
    requires FineGrained(ranges, base + i * LARGE_PAGE) && table !in kid.Values
    requires table in mem && mem[table] == IdentityTable(ranges, base + i * LARGE_PAGE)
    ensures var mem' := mem[directory := mem[directory][i := LinkTo(table, false)]];
      Hung(mem', directory, With(kid, i, Alone(table)), 1) && DirectoryMade(mem', directory, base, ranges, i + 1)
  {
    hide FineGrained, IdentityTable;
    var mem' := mem[directory := mem[directory][i := LinkTo(table, false)]];
    HungAlone(mem, table, 0);
    AloneHas(table);
    Attach(mem, directory, kid, 1, i, table, Alone(table), LinkTo(table, false));
    assert directory in kid.Values by { assert kid[[]] == directory; }
    forall k | 0 <= k < i + 1 ensures PartMade(mem', mem'[directory][k], base + k * LARGE_PAGE, ranges) {
      hide Hung;
      if k < i { DirectoryPart(mem, mem', directory, kid, base, ranges, i, k); }
    }
  }

  lemma {:induction false} NewlyWith(sub: map<seq<nat>, nat>, i: nat, kid: map<seq<nat>, nat>, before: set<nat>,
                                     inUse: set<nat>)
    requires [] in sub && Newly(sub, before, inUse) && Newly(kid, before, inUse)
    ensures Newly(With(sub, i, kid), before, inUse)
  {
    forall p | p in With(sub, i, kid) ensures With(sub, i, kid)[p] !in before && With(sub, i, kid)[p] in inUse {
      WithHas(sub, i, kid, p);
    }
  }

  lemma {:induction false} PointersMore(mem: Memory, pointers: nat, sub: map<seq<nat>, nat>, ranges: seq<MappedRange>,
                                        n: nat, directory: nat, kid: map<seq<nat>, nat>)
    requires Hung(mem, pointers, sub, 2) && PointersMade(mem, pointers, ranges, n) && n < ENTRIES
    requires Hung(mem, directory, kid, 1) && DirectoryMade(mem, directory, n * GIB, ranges, ENTRIES)
    requires sub.Values !! kid.Values
    ensures var mem' := mem[pointers := mem[pointers][n := LinkTo(directory, false)]];
      Hung(mem', pointers, With(sub, n, kid), 2) && PointersMade(mem', pointers, ranges, n + 1)
  {
    hide FineGrained, IdentityTable, DirectoryMade, Hung;
    var mem' := mem[pointers := mem[pointers][n := LinkTo(directory, false)]];
    HungTables(mem, pointers, sub, 2);
    HungTables(mem, directory, kid, 1);
    InValues(sub);
    InValues(kid);
    Attach(mem, pointers, sub, 2, n, directory, kid, LinkTo(directory, false));
    DirectoryFrame(mem, mem', directory, kid, n * GIB, ranges, ENTRIES);
    forall i | 0 <= i < n ensures GibMade(mem', mem'[pointers][i], i * GIB, ranges) {
      GibKept(mem, mem', pointers, sub, ranges, n, i);
    }
  }

  lemma {:induction false} GibKept(mem: Memory, mem': Memory, pointers: nat, sub: map<seq<nat>, nat>,
                                   ranges: seq<MappedRange>, n: nat, i: nat)
    requires Hung(mem, pointers, sub, 2) && PointersMade(mem, pointers, ranges, n) && i < n < ENTRIES
    requires pointers in mem' && mem' == mem[pointers := mem'[pointers]] && mem'[pointers][i] == mem[pointers][i]
    ensures GibMade(mem', mem'[pointers][i], i * GIB, ranges)
  {
    hide FineGrained, IdentityTable;
    assert [] in sub && sub[[]] == pointers && [] + [i] == [i];
    assert GibMade(mem, mem[pointers][i], i * GIB, ranges);
    HungAt(mem, pointers, sub, 2, [], i);
    HungAt(mem, pointers, sub, 2, [], 0);
    var directory := mem[pointers][i].address;
    assert sub[[i]] == directory != pointers;
    forall k | 0 <= k < ENTRIES ensures PartMade(mem', mem'[directory][k], i * GIB + k * LARGE_PAGE, ranges) {
      hide Hung, PointersMade, GibMade;
      var base := i * GIB + k * LARGE_PAGE;
      assert PartMade(mem, mem[directory][k], base, ranges);
      HungAt(mem, pointers, sub, 2, [i], k);
      PartFrame(mem, mem', mem[directory][k], base, ranges);
    }
  }

  /** A finished lower half under a root of its own is a tree. */
  lemma {:induction false} LowerTree(mem: Memory, root: nat, pointers: nat, sub: map<seq<nat>, nat>)
    requires Hung(mem, pointers, sub, 2) && root in mem && root !in sub.Values
    ensures Tree(mem[root := LowerRoot(pointers)], root, With(Alone(root), 0, sub))
    ensures sub.Values + {root} >= With(Alone(root), 0, sub).Values
  {
    hide Hung, With, Tree;
    var empty, made := mem[root := ZEROED], mem[root := LowerRoot(pointers)];
    var low := With(Alone(root), 0, sub);
    InValues(sub);
    HungTables(mem, pointers, sub, 2);
    HungFrame(mem, empty, pointers, sub, 2);
    HungAlone(empty, root, 3);
    AloneHas(root);
    Attach(empty, root, Alone(root), 3, 0, pointers, sub, LinkTo(pointers, false));
    assert made == empty[root := empty[root][0 := LinkTo(pointers, false)]] by {
      assert LowerRoot(pointers) == ZEROED[0 := LinkTo(pointers, false)];
    }
    HungIsTree(made, root, low);
    forall p | p in low ensures low[p] in sub.Values + {root} {
      WithHas(Alone(root), 0, sub, p);
    }
  }

  lemma {:induction false} InValues(sub: map<seq<nat>, nat>)
    ensures forall p | p in sub :: sub[p] in sub.Values
  {
  }

  lemma {:induction false} HungTables(mem: Memory, top: nat, sub: map<seq<nat>, nat>, height: nat)
    requires Hung(mem, top, sub, height)
    ensures [] in sub && sub[[]] == top && top in mem && forall p | p in sub :: sub[p] in mem
  {
  }

  /** A zeroed directory is one with nothing made yet. */
  lemma {:induction false} NothingMade(mem: Memory, directory: nat, base: nat, ranges: seq<MappedRange>)
    requires directory in mem && mem[directory] == ZEROED
    ensures Hung(mem, directory, Alone(directory), 1) && DirectoryMade(mem, directory, base, ranges, 0)
    ensures Hung(mem, directory, Alone(directory), 2) && PointersMade(mem, directory, ranges, 0)
  {
    HungAlone(mem, directory, 1);
    HungAlone(mem, directory, 2);
  }

  lemma {:induction false} NewlyApart(sub: map<seq<nat>, nat>, kid: map<seq<nat>, nat>, before: set<nat>,
                                      used: set<nat>, inUse: set<nat>)
    requires Newly(sub, before, used) && Newly(kid, used, inUse) && before <= used <= inUse
    ensures sub.Values !! kid.Values && Newly(kid, before, inUse) && Newly(sub, before, inUse)
  {
  }

  lemma {:induction false} HalvesValues(tab: map<seq<nat>, nat>, low: map<seq<nat>, nat>)
    ensures Halves(tab, low).Values <= tab.Values + low.Values
  {
    InValues(tab);
    InValues(low);
  }

  /** A range that is there and ends within `limit`. */
  predicate Inside(range: MappedRange, limit: nat): (inside: bool)
    ensures limit <= SLOT_BYTES ==> (inside <==> 0 < range.len && range.start + range.len <= limit)
  {
    !(range.len == 0 || range.start >= limit || range.start + range.len >= 0x1_0000_0000_0000_0000
      || range.End() > limit)
  }

  /** What the identity map promises of one address. */
  ghost predicate IdentityMapped(mem: Memory, root: nat, ranges: seq<MappedRange>, limit: nat, va: U64) {
    var page := va / PAGE * PAGE;
    var t := Translate(mem, root, va);
    && (t.Some? <==> PAGE <= va < limit)
    && (t.Some? ==> t.value.phys == va && t.value.writable == !ReadOnly(ranges, page))
    && (Executes(mem, root, 0, va) <==> PAGE <= va < limit && RunsCode(ranges, page))
  }

  lemma {:induction false} RootIn(mem: Memory, root: nat, tab: map<seq<nat>, nat>)
    requires Tree(mem, root, tab)
    ensures root in tab.Values
  {
    assert tab[[]] == root;
  }

  lemma {:induction false} NewlyValues(sub: map<seq<nat>, nat>, before: set<nat>, inUse: set<nat>)
    requires Newly(sub, before, inUse)
    ensures sub.Values <= inUse && sub.Values !! before
  {
  }

  lemma {:induction false} LowerSeparate(root: nat, tab: map<seq<nat>, nat>, sub: map<seq<nat>, nat>, before: set<nat>,
                                         inUse: set<nat>)
    requires Newly(sub, before, inUse) && tab.Values <= before
    ensures Separate(tab, With(Alone(root), 0, sub))
  {
    AloneHas(root);
    forall p | p in With(Alone(root), 0, sub) && p != [] ensures With(Alone(root), 0, sub)[p] !in tab.Values {
      WithHas(Alone(root), 0, sub, p);
    }
  }

  /** Building aside moves nothing. */
  lemma {:induction false} AsideSame(mem: Memory, inUse: set<nat>, mem': Memory, inUse': set<nat>, root: nat,
                                     tab: map<seq<nat>, nat>)
    requires Tree(mem, root, tab) && tab.Values <= inUse && Aside(mem, inUse, mem', inUse')
    ensures AllAsItWas(mem, mem', root)
    ensures root in mem && root in mem' && mem'[root] == mem[root]
    ensures RootSealed(mem, root) ==> RootSealed(mem', root)
    ensures StaysPlain(mem, tab, mem', tab)
  {
    hide Tree, SameTranslations, AsItWas, PlainLinks;
    TreeTables(mem, root, tab);
    RootAt(mem, root, tab);
    InValues(tab);
    OutsideTree(mem, mem', root, tab);
    PlainOutside(mem, mem', tab, true);
    PlainOutside(mem, mem', tab, false);
    forall va: U64 ensures AsItWas(mem, mem', root, va) {
      OutsideAsWas(mem, mem', root, tab, va);
    }
  }

  lemma {:induction false} OutsideAsWas(mem: Memory, mem': Memory, root: nat, tab: map<seq<nat>, nat>, va: U64)
    requires Tree(mem, root, tab) && forall p | p in tab :: tab[p] in mem' && mem'[tab[p]] == mem[tab[p]]
    ensures AsItWas(mem, mem', root, va)
  {
    hide Tree, Walk, LeafOf, Executes, Index;
    RootAt(mem, root, tab);
    assert Path(va)[..0] == [];
    WalkOutside(mem, mem', root, tab, va, 0, true);
  }

  lemma {:induction false} IdentityHalf(mem: Memory, made: Memory, mem': Memory, root: nat, tab: map<seq<nat>, nat>,
                                        low: map<seq<nat>, nat>,
                                        pointers: nat, sub: map<seq<nat>, nat>, ranges: seq<MappedRange>, limit: nat)
    requires Tree(mem, root, tab) && Tree(made, root, low) && PutInPlace(mem, made, mem', root)
    requires made == mem[root := LowerRoot(pointers)]
    requires Hung(mem, pointers, sub, 2) && root !in sub.Values
    requires limit % GIB == 0 && limit <= SLOT_BYTES && PointersMade(mem, pointers, ranges, limit / GIB)
    ensures forall va: U64 | va < LOWER_END :: IdentityMapped(mem', root, ranges, limit, va)
  {
    hide Tree, Hung, PointersMade, PutInPlace, Translate, Executes, LowerRoot;
    InValues(sub);
    HungTables(mem, pointers, sub, 2);
    PointersFrame(mem, made, pointers, sub, ranges, limit / GIB);
    forall va: U64 | va < LOWER_END ensures IdentityMapped(mem', root, ranges, limit, va) {
      HalvesTranslate(mem, made, mem', root, tab, low, va);
      LowerWalk(made, root, pointers, ranges, limit, va);
      hide RunsCode, ReadOnly;
    }
  }

  /** All links of a finished identity map are plain. */
  lemma {:induction false} IdentityPlain(mem: Memory, root: nat, pointers: nat, sub: map<seq<nat>, nat>,
                                         ranges: seq<MappedRange>, n: nat)
    requires Hung(mem, pointers, sub, 2) && PointersMade(mem, pointers, ranges, n) && root in mem && root !in sub.Values
    ensures PlainLinks(mem[root := LowerRoot(pointers)], With(Alone(root), 0, sub), true)
  {
    var made, low := mem[root := LowerRoot(pointers)], With(Alone(root), 0, sub);
    forall p, i | p in low && 0 <= i < ENTRIES && |p| < 3 && Lower(p + [i]) && low[p] in made && made[low[p]][i].Link()
      ensures made[low[p]][i].writable && !made[low[p]][i].noExecute
    {
      IdentityEntry(mem, root, pointers, sub, ranges, n, p, i);
    }
  }

  lemma {:induction false} IdentityEntry(mem: Memory, root: nat, pointers: nat, sub: map<seq<nat>, nat>,
                                         ranges: seq<MappedRange>, n: nat,
                                         p: seq<nat>, i: nat)
    requires Hung(mem, pointers, sub, 2) && PointersMade(mem, pointers, ranges, n) && root in mem && root !in sub.Values
    requires p in With(Alone(root), 0, sub) && i < ENTRIES && |p| < 3
    requires var made, low := mem[root := LowerRoot(pointers)], With(Alone(root), 0, sub);
             low[p] in made && made[low[p]][i].Link()
    ensures var made, low := mem[root := LowerRoot(pointers)], With(Alone(root), 0, sub);
      made[low[p]][i].writable && !made[low[p]][i].noExecute
  {
    hide Hung, PointersMade, With, Alone, LowerRoot;
    AloneOnly(root);
    WithHas(Alone(root), 0, sub, p);
    InValues(sub);
    if p != [] {
      SubEntry(mem, pointers, sub, ranges, n, p[1..], i);
    }
  }

  lemma {:induction false} SubEntry(mem: Memory, pointers: nat, sub: map<seq<nat>, nat>, ranges: seq<MappedRange>,
                                    n: nat, q: seq<nat>, i: nat)
    requires Hung(mem, pointers, sub, 2) && PointersMade(mem, pointers, ranges, n) && q in sub && |q| < 2 && i < ENTRIES
    ensures sub[q] in mem && (mem[sub[q]][i].Link() ==> mem[sub[q]][i].writable && !mem[sub[q]][i].noExecute)
  {
    hide FineGrained, IdentityTable;
    HungTables(mem, pointers, sub, 2);
    if q == [] {
      if i < n { assert GibMade(mem, mem[pointers][i], i * GIB, ranges); }
    } else {
      var k := q[0];
      assert q == [k] && [] + [k] == [k];
      assert q[..0] == [];
      assert HungShape(mem, pointers, sub, 2) && k < ENTRIES;
      HungAt(mem, pointers, sub, 2, [], k);
      assert GibMade(mem, mem[pointers][k], k * GIB, ranges);
      assert PartMade(mem, mem[sub[q]][i], k * GIB + i * LARGE_PAGE, ranges);
    }
  }

  lemma {:induction false} LowerWalk(made: Memory, root: nat, pointers: nat, ranges: seq<MappedRange>, limit: nat,
                                     va: U64)
    requires root in made && made[root] == LowerRoot(pointers) && va < LOWER_END
    requires limit % GIB == 0 && limit <= SLOT_BYTES && PointersMade(made, pointers, ranges, limit / GIB)
    ensures IdentityMapped(made, root, ranges, limit, va)
  {
    hide PointersMade, RunsCode, ReadOnly;
    PathDecides(va);
    if va < SLOT_BYTES {
      Places(va);
      IdentityWalk(made, pointers, ranges, limit / GIB, va);
    } else {
      PastFirst(va);
    }
    hide Index, LowerRoot;
    assert limit / GIB * GIB == limit;
  }

  lemma {:induction false} PastFirst(va: U64)
    requires SLOT_BYTES <= va < LOWER_END
    ensures Index(va, 0) != 0
  {
  }

  /** What is mapped in the kernel's half: frames and how they are mapped, by page. */
  type Standing = map<nat, (nat, PageFlags)>

  /** Each of these pages has the leaf it was asked for. */
  ghost predicate Stands(mem: Memory, root: nat, standing: Standing) {
    && (forall page | page in standing :: page % PAGE == 0 && page >= KERNEL_BASE && standing[page].0 % PAGE == 0)
    && forall va: U64 | va >= KERNEL_BASE && va / PAGE * PAGE in standing ::
         LeafOf(mem, root, 0, va) == Some(LeafFor(standing[va / PAGE * PAGE].0, standing[va / PAGE * PAGE].1))
  }

  lemma {:induction false} StandsSame(mem: Memory, mem': Memory, root: nat, standing: Standing)
    requires Stands(mem, root, standing)
    requires forall va: U64 | va >= KERNEL_BASE :: LeafOf(mem', root, 0, va) == LeafOf(mem, root, 0, va)
    ensures Stands(mem', root, standing)
  {
    hide LeafOf;
  }

  lemma {:induction false} StandsMapped(mem: Memory, mem': Memory, root: nat, standing: Standing, page: U64, frame: nat,
                                        flags: PageFlags)
    requires Stands(mem, root, standing) && page % PAGE == 0 && page >= KERNEL_BASE && frame % PAGE == 0
    requires forall va: U64 | IsCanonical(va) ::
               LeafOf(mem', root, 0, va)
               == if va / PAGE == page / PAGE then Some(LeafFor(frame, flags)) else LeafOf(mem, root, 0, va)
    ensures Stands(mem', root, standing[page := (frame, flags)])
  {
    hide LeafOf;
    var standing' := standing[page := (frame, flags)];
    forall va: U64 | va >= KERNEL_BASE && va / PAGE * PAGE in standing'
      ensures LeafOf(mem', root, 0, va) == Some(LeafFor(standing'[va / PAGE * PAGE].0, standing'[va / PAGE * PAGE].1))
    {
      assert va / PAGE == page / PAGE <==> va / PAGE * PAGE == page;
    }
  }

  lemma {:induction false} StandsAfterMap(mem: Memory, mem': Memory, root: nat, standing: Standing, page: U64,
                                          frame: nat, flags: PageFlags)
    requires Stands(mem, root, standing) && page % PAGE == 0 && IsCanonical(page) && frame % PAGE == 0
    requires forall va: U64 | IsCanonical(va) ::
               LeafOf(mem', root, 0, va)
               == if va / PAGE == page / PAGE then Some(LeafFor(frame, flags)) else LeafOf(mem, root, 0, va)
    ensures Stands(mem', root, if page >= KERNEL_BASE then standing[page := (frame, flags)] else standing)
  {
    hide LeafOf;
    if page >= KERNEL_BASE {
      StandsMapped(mem, mem', root, standing, page, frame, flags);
    } else {
      StandsElsewhere(mem, mem', root, standing, page);
      if page in standing {} else { assert standing - {page} == standing; }
    }
  }

  lemma {:induction false} StandsAsItWas(mem: Memory, mem': Memory, root: nat, standing: Standing)
    requires Stands(mem, root, standing) && KernelAsItWas(mem, mem', root)
    ensures Stands(mem', root, standing)
  {
    forall va: U64 | va >= KERNEL_BASE ensures LeafOf(mem', root, 0, va) == LeafOf(mem, root, 0, va) {
      assert AsItWas(mem, mem', root, va);
    }
    hide LeafOf;
    StandsSame(mem, mem', root, standing);
  }

  /** A change of the lower half, or of pages that do not stand, is none to those that do. */
  lemma {:induction false} StandsElsewhere(mem: Memory, mem': Memory, root: nat, standing: Standing, page: U64)
    requires Stands(mem, root, standing) && page % PAGE == 0
    requires forall va: U64 | IsCanonical(va) && va / PAGE != page / PAGE ::
               LeafOf(mem', root, 0, va) == LeafOf(mem, root, 0, va)
    ensures Stands(mem', root, standing - {page})
  {
    hide LeafOf;
    forall va: U64 | va >= KERNEL_BASE && va / PAGE * PAGE in standing - {page}
      ensures LeafOf(mem', root, 0, va) == LeafOf(mem, root, 0, va)
    {
      assert va / PAGE == page / PAGE <==> va / PAGE * PAGE == page;
    }
  }

  /** An address of the window is new and leads to the memory behind it; any other is as it was. */
  ghost predicate Beside(mem: Memory, mem': Memory, root: nat, base: U64, limit: nat, va: U64) {
    if base <= va < base + limit then Translate(mem, root, va) == None && WindowMapped(mem', root, base, va)
    else Translate(mem', root, va) == Translate(mem, root, va) && (IsCanonical(va) ==> AsItWas(mem, mem', root, va))
  }

  ghost predicate WindowAlone(mem: Memory, mem': Memory, root: nat, base: U64, limit: nat) {
    forall va: U64 :: Beside(mem, mem', root, base, limit, va)
  }

  /** The window goes where nothing stands. */
  lemma {:induction false} StandsBesideWindow(mem: Memory, mem': Memory, root: nat, standing: Standing, base: U64,
                                              limit: nat)
    requires Stands(mem, root, standing) && base >= KERNEL_BASE && WindowAlone(mem, mem', root, base, limit)
    ensures Stands(mem', root, standing)
  {
    forall va: U64 | va >= KERNEL_BASE && va / PAGE * PAGE in standing
      ensures LeafOf(mem', root, 0, va) == LeafOf(mem, root, 0, va)
    {
      StandsTranslates(mem, root, standing, va);
      assert Beside(mem, mem', root, base, limit, va);
      hide LeafOf, Translate, WindowMapped, Executes, Stands;
    }
    hide LeafOf, Translate, WindowAlone;
  }

  lemma {:induction false} StandsTranslates(mem: Memory, root: nat, standing: Standing, va: U64)
    requires Stands(mem, root, standing) && va >= KERNEL_BASE && va / PAGE * PAGE in standing
    ensures Translate(mem, root, va) != None
  {
    NoLeaf(mem, root, 0, va, true);
  }

  /** What a page that stands grants. */
  lemma {:induction false} StandsGrants(mem: Memory, root: nat, tab: map<seq<nat>, nat>, standing: Standing, va: U64)
    requires Tree(mem, root, tab) && PlainLinks(mem, tab, false) && Stands(mem, root, standing)
    requires va >= KERNEL_BASE && va / PAGE * PAGE in standing
    ensures var s := standing[va / PAGE * PAGE]; Granted(mem, root, va, s.0, s.1)
  {
    hide Tree, PlainLinks, LeafOf, Translate, Executes;
    LeafRules(mem, root, tab, va);
  }

  /** An address translates, runs and is mapped as it did. */
  ghost predicate AsItWas(mem: Memory, mem': Memory, root: nat, va: U64) {
    && Translate(mem', root, va) == Translate(mem, root, va)
    && (Executes(mem', root, 0, va) <==> Executes(mem, root, 0, va))
    && LeafOf(mem', root, 0, va) == LeafOf(mem, root, 0, va)
  }

  ghost predicate AllAsItWas(mem: Memory, mem': Memory, root: nat) {
    forall va: U64 :: AsItWas(mem, mem', root, va)
  }

  ghost predicate KernelAsItWas(mem: Memory, mem': Memory, root: nat) {
    forall va: U64 | va >= KERNEL_BASE :: AsItWas(mem, mem', root, va)
  }

  /** Nothing is as it was without being so in the kernel's half. */
  lemma {:induction false} AllIsKernel(mem: Memory, mem': Memory, root: nat)
    ensures AllAsItWas(mem, mem', root) ==> KernelAsItWas(mem, mem', root)
    ensures AllAsItWas(mem, mem, root) && KernelAsItWas(mem, mem, root)
  {
    forall va: U64 ensures AsItWas(mem, mem, root, va) {
    }
    hide AsItWas;
  }

  /** Ring 3 reaches nothing of the lower half. */
  ghost predicate LowerUnseen(mem: Memory, root: nat) {
    forall va: U64 | va < LOWER_END :: !UserWalk(mem, root, 0, va)
  }

  /** Nothing is seen through slots that do not let ring 3 through. */
  lemma {:induction false} ClosedSlots(mem: Memory, root: nat)
    requires root in mem && forall i | 0 <= i < KERNEL_SLOT :: mem[root][i].present ==> !mem[root][i].user
    ensures LowerUnseen(mem, root)
  {
    forall va: U64 | va < LOWER_END ensures !UserWalk(mem, root, 0, va) {
      PathDecides(va);
      hide Index;
    }
  }

  /** Ring 3 gets to a page only through a leaf that lets it. */
  lemma {:induction false} SeenThroughLeaf(mem: Memory, t: nat, level: nat, va: U64)
    requires level < 4 && UserWalk(mem, t, level, va) && (level == 0 ==> !mem[t][Index(va, 0)].huge)
    ensures LeafOf(mem, t, level, va).Some? && LeafOf(mem, t, level, va).value.user
    decreases 4 - level
  {
    hide Index;
    if level < 3 && !mem[t][Index(va, level)].huge {
      SeenThroughLeaf(mem, mem[t][Index(va, level)].address, level + 1, va);
    }
  }

  /** Pages that were kept are not for ring 3. */
  lemma {:induction false} KeptUnseen(mem: Memory, root: nat, tab: map<seq<nat>, nat>, keep: seq<MappedRange>)
    requires Tree(mem, root, tab) && KeptAll(mem, root, keep, |keep|)
    ensures LowerUnseen(mem, root)
  {
    forall va: U64 | va < LOWER_END ensures !UserWalk(mem, root, 0, va) {
      hide Index, KeptBy;
      if UserWalk(mem, root, 0, va) {
        TreeAt(mem, root, tab, [], Index(va, 0));
        SeenThroughLeaf(mem, root, 0, va);
      }
    }
  }

  /** What was in reach still is when nothing translates differently. */
  lemma {:induction false} ReachAsItWas(mem: Memory, mem': Memory, root: nat, window: nat, free: seq<nat>)
    requires AllAsItWas(mem, mem', root)
    ensures OutOfReach(free, mem', root, window) ==> OutOfReach(free, mem, root, window)
  {
    hide Translate, Executes, LeafOf;
    if OutOfReach(free, mem', root, window) {
      var i :| 0 <= i < |free| && !Reachable(mem', root, window, free[i]);
      if window + free[i] < 0x1_0000_0000_0000_0000 {
        assert AsItWas(mem, mem', root, window + free[i]);
      }
      assert !Reachable(mem, root, window, free[i]);
    }
  }

  /** Neither half loses plain links. */
  ghost predicate StaysPlain(mem: Memory, tab: map<seq<nat>, nat>, mem': Memory, tab': map<seq<nat>, nat>) {
    && (PlainLinks(mem, tab, true) ==> PlainLinks(mem', tab', true))
    && (PlainLinks(mem, tab, false) ==> PlainLinks(mem', tab', false))
  }

  lemma {:induction false} KernelHalf(mem0: Memory, mem: Memory, made: Memory, mem': Memory, root: nat,
                                      tab: map<seq<nat>, nat>,
                                      low: map<seq<nat>, nat>)
    requires Tree(mem, root, tab) && Tree(made, root, low) && PutInPlace(mem, made, mem', root)
    requires AllAsItWas(mem0, mem, root) && root in mem0 && root in mem && mem[root] == mem0[root]
    ensures KernelAsItWas(mem0, mem', root)
    ensures RootSealed(mem0, root) ==> RootSealed(mem', root)
  {
    forall va: U64 | va >= KERNEL_BASE ensures AsItWas(mem0, mem', root, va) {
      HalvesTranslate(mem, made, mem', root, tab, low, va);
      hide Tree, Translate, PutInPlace, LeafOf, Executes;
      assert AsItWas(mem0, mem, root, va);
    }
    hide Tree, AsItWas;
  }

  /** Each half keeps how plain its links are. */
  lemma {:induction false} HalvesPlain(mem: Memory, made: Memory, mem': Memory, root: nat, tab: map<seq<nat>, nat>,
                                       low: map<seq<nat>, nat>)
    requires Tree(mem, root, tab) && Tree(made, root, low) && PutInPlace(mem, made, mem', root)
    ensures PlainLinks(made, low, true) ==> PlainLinks(mem', Halves(tab, low), true)
    ensures PlainLinks(mem, tab, false) ==> PlainLinks(mem', Halves(tab, low), false)
  {
    var all := Halves(tab, low);
    hide Tree, PutInPlace, Halves, PlainLinks;
    if PlainLinks(made, low, true) {
      forall p, i | p in all && 0 <= i < ENTRIES && |p| < 3 && Lower(p + [i]) && all[p] in mem'
                    && mem'[all[p]][i].Link()
        ensures mem'[all[p]][i].writable && !mem'[all[p]][i].noExecute
      {
        HalvesEntry(mem, made, mem', root, tab, low, p, i);
        PlainAt(made, low, true, p, i);
      }
      PlainIs(mem', all, true);
    }
    if PlainLinks(mem, tab, false) {
      forall p, i | p in all && 0 <= i < ENTRIES && |p| < 3 && !Lower(p + [i]) && all[p] in mem'
                    && mem'[all[p]][i].Link()
        ensures mem'[all[p]][i].writable && !mem'[all[p]][i].noExecute
      {
        HalvesEntry(mem, made, mem', root, tab, low, p, i);
        PlainAt(mem, tab, false, p, i);
      }
      PlainIs(mem', all, false);
    }
  }

  lemma {:induction false} PlainIs(mem: Memory, tab: map<seq<nat>, nat>, lower: bool)
    requires forall p, i | p in tab && 0 <= i < ENTRIES && |p| < 3 && Lower(p + [i]) == lower && tab[p] in mem
                           && mem[tab[p]][i].Link() ::
               mem[tab[p]][i].writable && !mem[tab[p]][i].noExecute
    ensures PlainLinks(mem, tab, lower)
  {
  }

  lemma {:induction false} HalvesEntry(mem: Memory, made: Memory, mem': Memory, root: nat, tab: map<seq<nat>, nat>,
                                       low: map<seq<nat>, nat>, p: seq<nat>, i: nat)
    requires Tree(mem, root, tab) && Tree(made, root, low) && PutInPlace(mem, made, mem', root)
    requires p in Halves(tab, low) && i < ENTRIES && |p| < 3 && Halves(tab, low)[p] in mem'
    ensures Lower(p + [i]) ==>
              && p in low && low[p] in made
              && mem'[Halves(tab, low)[p]][i] == made[low[p]][i].(user := mem'[Halves(tab, low)[p]][i].user)
    ensures !Lower(p + [i]) ==>
              p in tab && tab[p] in mem && mem'[Halves(tab, low)[p]][i] == mem[tab[p]][i]
  {
    hide Tree;
    FirstOf(p, i);
    RootAt(mem, root, tab);
    RootAt(made, root, low);
    if p in tab {
      TreeAt(mem, root, tab, p, i);
    }
    if p in low {
      TreeAt(made, root, low, p, i);
    }
  }

  // ---------------------------------------------------------------------
  // Keeping only some ranges
  // ---------------------------------------------------------------------

  /** The lower half under `pointers`, were it in place now. */
  ghost function Made(mem: Memory, root: nat, pointers: nat): Memory {
    mem[root := LowerRoot(pointers)]
  }

  /** No table but the last of a walk maps pages. */
  ghost predicate SmallPages(mem: Memory, low: map<seq<nat>, nat>) {
    forall p, i | p in low && |p| < 3 && 0 <= i < ENTRIES && low[p] in mem ::
      mem[low[p]][i].present ==> mem[low[p]][i].Link()
  }

  /** A lower half under construction: a tree of its own, all writable on the way to its pages,
      in tables nobody used before. */
  ghost predicate Keeping(mem: Memory, root: nat, pointers: nat, low: map<seq<nat>, nat>, before: set<nat>,
                          inUse: set<nat>) {
    && root in mem && root in before
    && Tree(Made(mem, root, pointers), root, low)
    && PlainLinks(Made(mem, root, pointers), low, true) && SmallPages(Made(mem, root, pointers), low)
    && (forall p | p in low && p != [] :: low[p] !in before && low[p] in inUse)
    && [0] in low && low[[0]] == pointers
  }

  lemma {:induction false} KeepingStarts(mem: Memory, root: nat, pointers: nat, before: set<nat>, inUse: set<nat>)
    requires root in mem && root in before && pointers in mem && mem[pointers] == ZEROED && pointers !in before
    requires pointers in inUse
    ensures Keeping(mem, root, pointers, With(Alone(root), 0, Alone(pointers)), before, inUse)
    ensures forall va: U64 | va < LOWER_END :: LeafOf(Made(mem, root, pointers), root, 0, va) == None
  {
    hide Tree, LeafOf, Hung, With, Alone;
    var low := With(Alone(root), 0, Alone(pointers));
    AloneHas(root);
    AloneHas(pointers);
    HungAlone(mem, pointers, 2);
    LowerTree(mem, root, pointers, Alone(pointers));
    StartsWith(root, pointers);
    forall va: U64 | va < LOWER_END ensures LeafOf(Made(mem, root, pointers), root, 0, va) == None {
      NothingKept(mem, root, pointers, va);
    }
  }

  lemma {:induction false} StartsWith(root: nat, pointers: nat)
    ensures var low := With(Alone(root), 0, Alone(pointers));
      && (forall p | p in low :: p == [] || p == [0])
      && [] in low && low[[]] == root && [0] in low && low[[0]] == pointers
  {
    hide With, Alone;
    AloneOnly(root);
    AloneOnly(pointers);
    var low := With(Alone(root), 0, Alone(pointers));
    WithHas(Alone(root), 0, Alone(pointers), []);
    WithHas(Alone(root), 0, Alone(pointers), [0]);
    assert [0][1..] == [];
    forall p | p in low ensures p == [] || p == [0] {
      WithHas(Alone(root), 0, Alone(pointers), p);
      assert p != [] && p[0] == 0 && p[1..] == [] ==> p == [0];
    }
  }

  lemma {:induction false} AloneOnly(top: nat)
    ensures [] in Alone(top) && Alone(top)[[]] == top && forall p | p in Alone(top) :: p == []
  {
  }

  lemma {:induction false} NothingKept(mem: Memory, root: nat, pointers: nat, va: U64)
    requires root in mem && root != pointers && pointers in mem && mem[pointers] == ZEROED
    ensures LeafOf(Made(mem, root, pointers), root, 0, va) == None
  {
    hide Index;
    var made := Made(mem, root, pointers);
    assert made[root][Index(va, 0)] == if Index(va, 0) == 0 then LinkTo(pointers, false) else EMPTY;
    assert made[pointers][Index(va, 1)] == EMPTY;
  }

  /** Hanging one more zeroed table. */
  lemma {:induction false} KeepGrow(mem: Memory, root: nat, pointers: nat, low: map<seq<nat>, nat>, before: set<nat>,
                                    inUse: set<nat>, p: seq<nat>, i: nat, f: nat)
    requires Keeping(mem, root, pointers, low, before, inUse) && p in low && 1 <= |p| < 3 && i < ENTRIES
    requires low[p] in mem && !mem[low[p]][i].present
    requires f in mem && f !in inUse && before <= inUse
    ensures var mem' := mem[f := ZEROED][low[p] := mem[low[p]][i := LinkTo(f, false)]];
      && Keeping(mem', root, pointers, low[p + [i] := f], before, inUse + {f})
      && SameLeaves(Made(mem, root, pointers), Made(mem', root, pointers), root)
  {
    hide Tree, Translate, PlainLinks, SmallPages, SameTranslations, OpenLinks, SameLeaves;
    var mem' := mem[f := ZEROED][low[p] := mem[low[p]][i := LinkTo(f, false)]];
    var made, middle, made' := Made(mem, root, pointers), Made(mem[f := ZEROED], root, pointers), Made(mem', root,
                                                                                                       pointers);
    TreeTables(made, root, low);
    RootAt(made, root, low);
    assert forall q | q in low :: low[q] != f;
    OutsideTree(made, middle, root, low);
    OnwardOutside(made, middle, root, low);
    assert low[p] != root;
    assert made' == middle[low[p] := middle[low[p]][i := LinkTo(f, false)]];
    LinkNew(middle, root, low, p, i, f, LinkTo(f, false));
    PlainGrows(middle, root, low, p, i, f, LinkTo(f, false), true);
    SameThen(made, middle, made', root);
    SmallGrows(made, middle, made', root, low, p, i, f);
    assert |p + [i]| > 1;
  }

  lemma {:induction false} SameThen(mem: Memory, mem': Memory, mem'': Memory, root: nat)
    requires SameLeaves(mem, mem', root) && SameLeaves(mem', mem'', root)
    ensures SameLeaves(mem, mem'', root)
  {
    hide LeafOf;
  }

  lemma {:induction false} SmallGrows(made: Memory, middle: Memory, made': Memory, root: nat, low: map<seq<nat>, nat>,
                                      p: seq<nat>, i: nat, f: nat)
    requires SmallPages(made, low) && Tree(made, root, low) && p in low && low[p] in middle && i < ENTRIES && f in made
    requires (forall q | q in low :: low[q] != f) && middle == made[f := ZEROED]
    requires made' == middle[low[p] := middle[low[p]][i := LinkTo(f, false)]]
    ensures SmallPages(made', low[p + [i] := f])
  {
    hide Tree;
    TreeTables(made, root, low);
  }

  /** Mapping one page, over whatever was there. */
  lemma {:induction false} KeepLeaf(mem: Memory, root: nat, pointers: nat, low: map<seq<nat>, nat>, before: set<nat>,
                                    inUse: set<nat>, page: U64, e: TableEntry)
    requires Keeping(mem, root, pointers, low, before, inUse) && page < SLOT_BYTES && page % PAGE == 0
    requires Path(page)[..3] in low && low[Path(page)[..3]] in mem && e.present && e.address == page
    ensures var t := low[Path(page)[..3]]; var mem' := mem[t := mem[t][Index(page, 3) := e]];
      && t != root && Keeping(mem', root, pointers, low, before, inUse)
      && forall va: U64 | va < LOWER_END ::
           LeafOf(Made(mem', root, pointers), root, 0, va)
           == if va / PAGE == page / PAGE then Some(e) else LeafOf(Made(mem, root, pointers), root, 0, va)
  {
    hide Tree, Translate, LeafOf, PlainLinks, OpenLinks, SmallPages, Index, LinksWritable, RootSealed;
    var p := Path(page)[..3];
    var t := low[p];
    var mem' := mem[t := mem[t][Index(page, 3) := e]];
    var made, made' := Made(mem, root, pointers), Made(mem', root, pointers);
    TreeTables(made, root, low);
    RootAt(made, root, low);
    assert t != root;
    assert made' == made[t := made[t][Index(page, 3) := e]];
    WriteLeaf(made, root, low, page, e);
    LeafKeeps(made, root, low, p, Index(page, 3), e);
    SmallKept(made, made', root, low, p, Index(page, 3), e);
  }

  lemma {:induction false} SmallKept(made: Memory, made': Memory, root: nat, low: map<seq<nat>, nat>, p: seq<nat>,
                                     i: nat, e: TableEntry)
    requires SmallPages(made, low) && Tree(made, root, low) && p in low && |p| == 3 && low[p] in made && i < ENTRIES
    requires made' == made[low[p] := made[low[p]][i := e]]
    ensures SmallPages(made', low)
  {
    TreeAt(made, root, low, p, i);
    hide Tree;
  }

  /** The last of the first `n` ranges that meets the page, if one does. */
  function KeptBy(keep: seq<MappedRange>, n: nat, page: nat): (range: Option<MappedRange>)
    requires n <= |keep|
    ensures range.Some? <==> exists k | 0 <= k < n :: keep[k].Overlaps(page, page + PAGE)
    ensures range.Some? ==> exists k | 0 <= k < n :: keep[k] == range.value && keep[k].Overlaps(page, page + PAGE)
                              && forall m | k < m < n :: !keep[m].Overlaps(page, page + PAGE)
  {
    if n == 0 then None
    else if keep[n - 1].Overlaps(page, page + PAGE) then Some(keep[n - 1])
    else KeptBy(keep, n - 1, page)
  }

  /** The leaf that `range` asks for at `page`. */
  function KeptLeaf(page: nat, range: MappedRange): TableEntry {
    LeafFor(page, PageFlags(range.writable, range.executable, false, range.cache))
  }

  /** The leaf of a page that is kept for `range`, if it is kept at all. */
  function LeafKept(page: nat, range: Option<MappedRange>): Option<TableEntry> {
    if range.None? then None else Some(KeptLeaf(page, range.value))
  }

  /** After the first `n` ranges, and of the next the pages before `upTo`. */
  ghost predicate KeptTo(made: Memory, root: nat, keep: seq<MappedRange>, n: nat, upTo: nat)
    requires n < |keep|
  {
    forall va: U64 | va < LOWER_END ::
      var page := va / PAGE * PAGE;
      LeafOf(made, root, 0, va) == LeafKept(page,
        if page < upTo && keep[n].Overlaps(page, page + PAGE) then Some(keep[n]) else KeptBy(keep, n, page))
  }

  /** Each page of the lower half has the leaf of the last of the first `n` ranges that meets it. */
  ghost predicate KeptAll(made: Memory, root: nat, keep: seq<MappedRange>, n: nat)
    requires n <= |keep|
  {
    forall va: U64 | va < LOWER_END ::
      LeafOf(made, root, 0, va) == LeafKept(va / PAGE * PAGE, KeptBy(keep, n, va / PAGE * PAGE))
  }

  /** What keeping promises of one address: mapped, to itself, exactly when its page meets a kept
      range, and to be written and run as the last such range says. */
  ghost predicate KeptMapped(mem: Memory, root: nat, keep: seq<MappedRange>, va: U64) {
    var range := KeptBy(keep, |keep|, va / PAGE * PAGE);
    && Translate(mem, root, va) == (if range.None? then None else Some(Translation(va, range.value.writable, PAGE)))
    && (Executes(mem, root, 0, va) <==> range.Some? && range.value.executable)
    && (range.Some? ==> LeafOf(mem, root, 0, va).Some? && CachedAs(LeafOf(mem, root, 0, va).value, range.value.cache))
  }

  lemma {:induction false} KeptRules(made: Memory, root: nat, low: map<seq<nat>, nat>, keep: seq<MappedRange>, va: U64)
    requires Tree(made, root, low) && PlainLinks(made, low, true) && KeptAll(made, root, keep, |keep|) && va < LOWER_END
    ensures KeptMapped(made, root, keep, va)
  {
    hide Tree, PlainLinks, LeafOf, Translate, Executes, KeptBy;
    LeafRules(made, root, low, va);
    Masked(va);
  }

  lemma {:induction false} MeetsWithin(range: MappedRange, page: nat)
    requires range.len > 0 && range.start + range.len < 0x1_0000_0000_0000_0000 && page % PAGE == 0
    ensures range.Overlaps(page, page + PAGE) <==> range.start / PAGE * PAGE <= page <= (range.End() - 1) / PAGE * PAGE
  {
  }

  lemma {:induction false} KeptStarts(made: Memory, root: nat, keep: seq<MappedRange>, n: nat)
    requires n < |keep| && keep[n].len > 0 && keep[n].start + keep[n].len < 0x1_0000_0000_0000_0000
    requires KeptAll(made, root, keep, n)
    ensures KeptTo(made, root, keep, n, keep[n].start / PAGE * PAGE)
  {
    hide LeafOf;
    forall va: U64 | va < LOWER_END
      ensures va / PAGE * PAGE < keep[n].start / PAGE * PAGE ==>
                !keep[n].Overlaps(va / PAGE * PAGE, va / PAGE * PAGE + PAGE)
    {
      MeetsWithin(keep[n], va / PAGE * PAGE);
    }
  }

  lemma {:induction false} KeptEnds(made: Memory, root: nat, keep: seq<MappedRange>, n: nat, upTo: nat)
    requires n < |keep| && keep[n].len > 0 && keep[n].start + keep[n].len < 0x1_0000_0000_0000_0000
    requires KeptTo(made, root, keep, n, upTo) && upTo > (keep[n].End() - 1) / PAGE * PAGE
    ensures KeptAll(made, root, keep, n + 1)
  {
    hide LeafOf, LeafKept;
    forall va: U64 | va < LOWER_END
      ensures LeafOf(made, root, 0, va) == LeafKept(va / PAGE * PAGE, KeptBy(keep, n + 1, va / PAGE * PAGE))
    {
      MeetsWithin(keep[n], va / PAGE * PAGE);
      assert KeptBy(keep, n + 1, va / PAGE * PAGE)
        == if keep[n].Overlaps(va / PAGE * PAGE, va / PAGE * PAGE + PAGE) then Some(keep[n])
           else KeptBy(keep, n, va / PAGE * PAGE);
    }
  }

  lemma {:induction false} KeptMore(made: Memory, made': Memory, root: nat, keep: seq<MappedRange>, n: nat, page: nat)
    requires n < |keep| && page % PAGE == 0 && keep[n].Overlaps(page, page + PAGE) && KeptTo(made, root, keep, n, page)
    requires forall va: U64 | va < LOWER_END ::
               LeafOf(made', root, 0, va)
               == if va / PAGE == page / PAGE then Some(KeptLeaf(page, keep[n])) else LeafOf(made, root, 0, va)
    ensures KeptTo(made', root, keep, n, page + PAGE)
  {
    hide LeafOf;
    forall va: U64 | va < LOWER_END ensures
      var at := va / PAGE * PAGE;
      LeafOf(made', root, 0, va) == LeafKept(at,
        if at < page + PAGE && keep[n].Overlaps(at, at + PAGE) then Some(keep[n]) else KeptBy(keep, n, at))
    {
      assert va / PAGE == page / PAGE <==> va / PAGE * PAGE == page;
    }
  }

  lemma {:induction false} KeepingAt(mem: Memory, root: nat, pointers: nat, low: map<seq<nat>, nat>, before: set<nat>,
                                     inUse: set<nat>, p: seq<nat>, i: nat)
    requires Keeping(mem, root, pointers, low, before, inUse) && p in low && 1 <= |p| && i < ENTRIES
    ensures low[p] in mem && low[p] != root && low[p] !in before && low[p] in inUse
    ensures |p| < 3 && mem[low[p]][i].present ==> p + [i] in low && low[p + [i]] == mem[low[p]][i].address
  {
    TreeAt(Made(mem, root, pointers), root, low, p, i);
    RootAt(Made(mem, root, pointers), root, low);
    hide Tree, PlainLinks;
    assert Made(mem, root, pointers)[low[p]] == mem[low[p]];
  }

  lemma {:induction false} KeepingRoot(mem: Memory, root: nat, pointers: nat, low: map<seq<nat>, nat>,
                                       before: set<nat>, inUse: set<nat>)
    requires Keeping(mem, root, pointers, low, before, inUse)
    ensures [0] in low && low[[0]] == pointers && root in mem
  {
    hide Tree;
  }

  lemma {:induction false} PathStarts(page: U64)
    requires page < SLOT_BYTES
    ensures Path(page)[..1] == [0]
  {
    Places(page);
    hide Index;
  }

  lemma {:induction false} KeepingApart(mem: Memory, root: nat, pointers: nat, low: map<seq<nat>, nat>,
                                        before: set<nat>, inUse: set<nat>, tab: map<seq<nat>, nat>, leaked: set<nat>)
    requires Keeping(mem, root, pointers, low, before, inUse) && tab.Values <= before && before <= inUse
    requires leaked <= before && root !in leaked
    ensures root in mem && Tree(mem[root := LowerRoot(pointers)], root, low)
    ensures PlainLinks(Made(mem, root, pointers), low, true)
    ensures Separate(tab, low) && low.Values <= inUse && leaked !! low.Values
  {
    RootAt(Made(mem, root, pointers), root, low);
    hide Tree;
  }

  /** The lower half in place is the one that was made; the kernel's is what it was. */
  lemma {:induction false} KeptHalf(mem: Memory, mem': Memory, root: nat, tab: map<seq<nat>, nat>,
                                    low: map<seq<nat>, nat>,
                                    pointers: nat, keep: seq<MappedRange>, va: U64)
    requires Tree(mem, root, tab) && Tree(Made(mem, root, pointers), root, low)
    requires PutInPlace(mem, Made(mem, root, pointers), mem', root)
    requires PlainLinks(Made(mem, root, pointers), low, true) && KeptAll(Made(mem, root, pointers), root, keep, |keep|)
    requires va < LOWER_END
    ensures KeptMapped(mem', root, keep, va)
    ensures LeafOf(mem', root, 0, va) == LeafKept(va / PAGE * PAGE, KeptBy(keep, |keep|, va / PAGE * PAGE))
  {
    hide Tree, Translate, Executes, LeafOf, PutInPlace, PlainLinks, KeptBy;
    var made := Made(mem, root, pointers);
    KeptRules(made, root, low, keep, va);
    HalvesTranslate(mem, made, mem', root, tab, low, va);
  }

  lemma {:induction false} KeptHalves(mem: Memory, mem': Memory, root: nat, tab: map<seq<nat>, nat>,
                                      low: map<seq<nat>, nat>,
                                      pointers: nat, keep: seq<MappedRange>)
    requires Tree(mem, root, tab) && Tree(Made(mem, root, pointers), root, low)
    requires PutInPlace(mem, Made(mem, root, pointers), mem', root)
    requires PlainLinks(Made(mem, root, pointers), low, true) && KeptAll(Made(mem, root, pointers), root, keep, |keep|)
    ensures (forall va: U64 | va < LOWER_END :: KeptMapped(mem', root, keep, va)) && KeptAll(mem', root, keep, |keep|)
  {
    hide Tree, Translate, Executes, LeafOf, PutInPlace, PlainLinks, KeptBy, KeptMapped, Made;
    forall va: U64 | va < LOWER_END
      ensures KeptMapped(mem', root, keep, va)
      ensures LeafOf(mem', root, 0, va) == LeafKept(va / PAGE * PAGE, KeptBy(keep, |keep|, va / PAGE * PAGE))
    {
      KeptHalf(mem, mem', root, tab, low, pointers, keep, va);
    }
  }

  /** A range that is there and below the end of the root's first slot. */
  predicate Keepable(range: MappedRange): (keepable: bool)
    ensures keepable <==> 0 < range.len && range.start + range.len <= SLOT_BYTES
  {
    !(range.len == 0 || range.start >= SLOT_BYTES || range.End() > SLOT_BYTES)
  }

  lemma {:induction false} AsideNothing(mem: Memory, inUse: set<nat>)
    ensures Aside(mem, inUse, mem, inUse)
  {
  }

  lemma {:induction false} AsideNew(mem: Memory, inUse: set<nat>, mem': Memory, inUse': set<nat>, f: nat)
    requires inUse <= inUse' && mem'.Keys == mem.Keys
    requires (mem' == mem || (f !in inUse && f in mem && mem' == mem[f := ZEROED]))
    ensures Aside(mem, inUse, mem', inUse')
  {
  }

  lemma {:induction false} AsideAgain(mem: Memory, inUse: set<nat>, mem': Memory, inUse': set<nat>, mem'': Memory,
                                      inUse'': set<nat>)
    requires Aside(mem, inUse, mem', inUse') && Aside(mem', inUse, mem'', inUse'')
    ensures Aside(mem, inUse, mem'', inUse'')
  {
  }

  lemma {:induction false} KeptNone(made: Memory, root: nat, keep: seq<MappedRange>)
    requires forall va: U64 | va < LOWER_END :: LeafOf(made, root, 0, va) == None
    ensures KeptAll(made, root, keep, 0)
  {
    hide LeafOf;
  }

  // ---------------------------------------------------------------------
  // The window onto physical memory
  // ---------------------------------------------------------------------

  /** The first `n` entries of a directory of the window, for the gibibyte at `base`. */
  ghost predicate WindowDirectory(mem: Memory, directory: nat, base: nat, n: nat) {
    && directory in mem
    && forall i | 0 <= i < ENTRIES :: mem[directory][i] == if i < n then LargeLeaf(base + i * LARGE_PAGE) else EMPTY
  }

  ghost predicate WindowGib(mem: Memory, entry: TableEntry, base: nat) {
    entry == LinkTo(entry.address, false) && WindowDirectory(mem, entry.address, base, ENTRIES)
  }

  /** The first `n` gibibytes of the window. */
  ghost predicate WindowMade(mem: Memory, pointers: nat, n: nat) {
    && pointers in mem
    && forall i | 0 <= i < ENTRIES ::
         if i < n then WindowGib(mem, mem[pointers][i], i * GIB) else mem[pointers][i] == EMPTY
  }

  lemma {:induction false} WindowStarts(mem: Memory, pointers: nat)
    requires pointers in mem && mem[pointers] == ZEROED
    ensures Hung(mem, pointers, Alone(pointers), 2) && WindowMade(mem, pointers, 0)
  {
    HungAlone(mem, pointers, 2);
  }

  lemma {:induction false} DirectoryAlone(mem: Memory, directory: nat, base: nat)
    requires WindowDirectory(mem, directory, base, ENTRIES)
    ensures Hung(mem, directory, Alone(directory), 1)
  {
    HungAlone(mem, directory, 1);
  }

  lemma {:induction false} WindowFrame(mem: Memory, mem': Memory, pointers: nat, sub: map<seq<nat>, nat>, n: nat)
    requires Hung(mem, pointers, sub, 2) && WindowMade(mem, pointers, n)
    requires forall p | p in sub :: sub[p] in mem' && mem'[sub[p]] == mem[sub[p]]
    ensures WindowMade(mem', pointers, n)
  {
    assert [] in sub && sub[[]] == pointers;
    forall i | 0 <= i < ENTRIES && i < n ensures WindowGib(mem', mem'[pointers][i], i * GIB) {
      WindowGibKept(mem, mem', pointers, sub, n, i);
    }
  }

  lemma {:induction false} WindowGibKept(mem: Memory, mem': Memory, pointers: nat, sub: map<seq<nat>, nat>, n: nat,
                                         i: nat)
    requires Hung(mem, pointers, sub, 2) && WindowMade(mem, pointers, n) && i < n && i < ENTRIES
    requires forall p | p in sub && p != [] :: sub[p] in mem' && mem'[sub[p]] == mem[sub[p]]
    requires pointers in mem' && mem'[pointers][i] == mem[pointers][i]
    ensures WindowGib(mem', mem'[pointers][i], i * GIB)
  {
    assert [] in sub && sub[[]] == pointers && [] + [i] == [i];
    assert WindowGib(mem, mem[pointers][i], i * GIB);
    HungAt(mem, pointers, sub, 2, [], i);
  }

  lemma {:induction false} WindowMore(mem: Memory, pointers: nat, sub: map<seq<nat>, nat>, n: nat, directory: nat)
    requires Hung(mem, pointers, sub, 2) && WindowMade(mem, pointers, n) && n < ENTRIES
    requires WindowDirectory(mem, directory, n * GIB, ENTRIES) && directory !in sub.Values
    ensures var mem' := mem[pointers := mem[pointers][n := LinkTo(directory, false)]];
      Hung(mem', pointers, With(sub, n, Alone(directory)), 2) && WindowMade(mem', pointers, n + 1)
  {
    hide Hung;
    var mem' := mem[pointers := mem[pointers][n := LinkTo(directory, false)]];
    DirectoryAlone(mem, directory, n * GIB);
    AloneHas(directory);
    HungTables(mem, pointers, sub, 2);
    InValues(sub);
    Attach(mem, pointers, sub, 2, n, directory, Alone(directory), LinkTo(directory, false));
    forall p | p in sub && p != [] ensures sub[p] in mem' && mem'[sub[p]] == mem[sub[p]] {
      HungAt(mem, pointers, sub, 2, [], 0);
    }
    forall i | 0 <= i < n ensures WindowGib(mem', mem'[pointers][i], i * GIB) {
      WindowGibKept(mem, mem', pointers, sub, n, i);
    }
  }

  lemma {:induction false} TreeIsHung(mem: Memory, root: nat, tab: map<seq<nat>, nat>)
    requires Tree(mem, root, tab)
    ensures Hung(mem, root, tab, 3)
    ensures forall i | 0 <= i < ENTRIES :: root in mem && (mem[root][i].present ==> !mem[root][i].huge)
  {
    forall p, i | p in tab && 0 <= i < ENTRIES ensures HungEntry(mem, tab, p, i, 3) {
      assert EntryOk(mem, tab, p, i);
    }
    forall i | 0 <= i < ENTRIES ensures root in mem && (mem[root][i].present ==> !mem[root][i].huge) {
      assert EntryOk(mem, tab, [], i);
    }
  }

  /** Hanging a finished half-terabyte from a free slot of the root. */
  lemma {:induction false} SlotTree(mem: Memory, root: nat, tab: map<seq<nat>, nat>, slot: nat, pointers: nat,
                                    sub: map<seq<nat>, nat>)
    requires Tree(mem, root, tab) && Hung(mem, pointers, sub, 2) && tab.Values !! sub.Values
    requires root in mem && slot < ENTRIES && !mem[root][slot].present
    ensures Tree(mem[root := mem[root][slot := LinkTo(pointers, false)]], root, With(tab, slot, sub))
  {
    TreeIsHung(mem, root, tab);
    hide Tree, Hung, With;
    Attach(mem, root, tab, 3, slot, pointers, sub, LinkTo(pointers, false));
    HungIsTree(mem[root := mem[root][slot := LinkTo(pointers, false)]], root, With(tab, slot, sub));
  }

  /** Where an address of the window is, and that only those are under its slot of the root. */
  lemma {:induction false} WindowPlaces(base: U64, va: U64)
    requires base >= KERNEL_BASE && base % SLOT_BYTES == 0 && IsCanonical(va)
    ensures Index(va, 0) == Index(base, 0) <==> base <= va < base + SLOT_BYTES
    ensures base <= va < base + SLOT_BYTES ==>
      var off := va - base;
      && Index(va, 1) == off / GIB && Index(va, 1) * GIB + Index(va, 2) * LARGE_PAGE == off / LARGE_PAGE * LARGE_PAGE
      && va % LARGE_PAGE == off % LARGE_PAGE
  {
    SlotOf(base, va);
    if base <= va < base + SLOT_BYTES {
      Places(va - base);
      WindowIndex(base, va - base);
    }
  }

  lemma {:induction false} SlotOf(base: U64, va: U64)
    requires base >= KERNEL_BASE && base % SLOT_BYTES == 0 && IsCanonical(va)
    ensures Index(va, 0) == Index(base, 0) <==> base <= va < base + SLOT_BYTES
  {
    var m, k := base / SLOT_BYTES, va / SLOT_BYTES;
    assert base == SLOT_BYTES * m;
    assert 0x1FF_FF00 <= m < 0x200_0000;
    assert m % 512 == m - 0x1FF_FE00;
    if va < LOWER_END {
      assert k < 256 && k % 512 == k;
    } else {
      assert 0x1FF_FF00 <= k < 0x200_0000 && k % 512 == k - 0x1FF_FE00;
    }
  }

  lemma {:induction false} WindowIndex(base: U64, off: nat)
    requires base % SLOT_BYTES == 0 && off < SLOT_BYTES && base + off < 0x1_0000_0000_0000_0000
    ensures Index(base + off, 1) == Index(off, 1) && Index(base + off, 2) == Index(off, 2)
    ensures (base + off) % LARGE_PAGE == off % LARGE_PAGE
  {
    var m := base / SLOT_BYTES;
    assert base == SLOT_BYTES * m;
    assert (base + off) / GIB == 512 * m + off / GIB;
    assert (base + off) / LARGE_PAGE == 512 * (512 * m) + off / LARGE_PAGE;
    assert (512 * m + off / GIB) % 512 == off / GIB % 512;
    assert (512 * (512 * m) + off / LARGE_PAGE) % 512 == off / LARGE_PAGE % 512;
  }

  /** What the window promises of one address. */
  ghost predicate WindowMapped(mem: Memory, root: nat, base: nat, va: U64)
    requires base <= va
  {
    Translate(mem, root, va) == Some(Translation(va - base, true, LARGE_PAGE)) && !Executes(mem, root, 0, va)
  }

  lemma {:induction false} WindowWalk(mem: Memory, pointers: nat, n: nat, base: U64, va: U64)
    requires WindowMade(mem, pointers, n) && n <= ENTRIES && base >= KERNEL_BASE && base % SLOT_BYTES == 0
    requires base <= va < base + SLOT_BYTES
    ensures Walk(mem, pointers, 1, va, true)
            == if va - base < n * GIB then Some(Translation(va - base, true, LARGE_PAGE)) else None
    ensures !Executes(mem, pointers, 1, va) && (va - base >= n * GIB ==> LeafOf(mem, pointers, 1, va) == None)
  {
    WindowPlaces(base, va);
    Masked(va - base);
    var i, k := Index(va, 1), Index(va, 2);
    hide Index;
    if i < n {
      assert WindowGib(mem, mem[pointers][i], i * GIB);
      assert mem[mem[pointers][i].address][k] == LargeLeaf(i * GIB + k * LARGE_PAGE);
    }
  }

  /** The window is there, and no other address notices. */
  lemma {:induction false} WindowHangs(mem: Memory, mem': Memory, root: nat, tab: map<seq<nat>, nat>, base: U64,
                                       limit: nat,
                                       pointers: nat, sub: map<seq<nat>, nat>, va: U64)
    requires Tree(mem, root, tab) && root in mem && base >= KERNEL_BASE && base % SLOT_BYTES == 0
    requires !mem[root][Index(base, 0)].present
    requires limit % GIB == 0 && limit <= SLOT_BYTES && Hung(mem, pointers, sub, 2)
    requires WindowMade(mem, pointers, limit / GIB) && root !in sub.Values
    requires mem' == mem[root := mem[root][Index(base, 0) := LinkTo(pointers, false)]]
    ensures if base <= va < base + limit then WindowMapped(mem', root, base, va)
            else Translate(mem', root, va) == Translate(mem, root, va)
                 && (IsCanonical(va) ==> AsItWas(mem, mem', root, va))
  {
    hide Tree, Hung;
    if IsCanonical(va) {
      WindowPlaces(base, va);
      if Index(va, 0) == Index(base, 0) {
        InValues(sub);
        HungTables(mem, pointers, sub, 2);
        WindowFrame(mem, mem', pointers, sub, limit / GIB);
        WindowWalk(mem', pointers, limit / GIB, base, va);
        hide Index, WindowMade;
        assert limit / GIB * GIB == limit;
      } else {
        hide Index, WindowMade;
        HalfWalk(mem, mem', root, tab, va);
      }
    }
  }

  lemma {:induction false} WindowValues(tab: map<seq<nat>, nat>, slot: nat, sub: map<seq<nat>, nat>, mem: Memory,
                                        root: nat, pointers: nat)
    requires Tree(mem, root, tab) && slot < ENTRIES && root in mem && !mem[root][slot].present
    ensures With(tab, slot, sub).Values == tab.Values + sub.Values
  {
    var all := With(tab, slot, sub);
    RootAt(mem, root, tab);
    TreeAt(mem, root, tab, [], slot);
    assert [] + [slot] == [slot];
    forall p | p in sub ensures sub[p] in all.Values {
      hide Tree;
      WithHas(tab, slot, sub, [slot] + p);
      NotHere(mem, root, tab, slot, p);
      assert ([slot] + p)[1..] == p;
      assert all[[slot] + p] == sub[p];
    }
    forall p | p in tab ensures tab[p] in all.Values {
      hide Tree;
      WithHas(tab, slot, sub, p);
      assert all[p] == tab[p];
    }
    forall p | p in all ensures all[p] in tab.Values + sub.Values {
      hide Tree;
      WithHas(tab, slot, sub, p);
    }
  }

  lemma {:induction false} NotHere(mem: Memory, root: nat, tab: map<seq<nat>, nat>, slot: nat, p: seq<nat>)
    requires Tree(mem, root, tab) && [slot] !in tab
    ensures [slot] + p !in tab
  {
    if [slot] + p in tab {
      hide Tree;
      HangsFrom(mem, root, tab, [slot], [slot] + p);
    }
  }

  lemma {:induction false} WindowSealed(mem: Memory, middle: Memory, mem': Memory, root: nat, slot: nat, pointers: nat)
    requires root in mem && root in middle && middle[root] == mem[root] && slot < ENTRIES
    requires mem' == middle[root := middle[root][slot := LinkTo(pointers, false)]]
    ensures RootSealed(mem, root) ==> RootSealed(mem', root)
  {
  }

  /** Hanging the window keeps how plain the links of each half are. */
  lemma {:induction false} WindowPlain(mem: Memory, root: nat, tab: map<seq<nat>, nat>, slot: nat, pointers: nat,
                                       sub: map<seq<nat>, nat>, n: nat, lower: bool)
    requires Tree(mem, root, tab) && Hung(mem, pointers, sub, 2) && WindowMade(mem, pointers, n)
    requires tab.Values !! sub.Values
    requires root in mem && KERNEL_SLOT <= slot < ENTRIES && !mem[root][slot].present
    ensures PlainLinks(mem, tab, lower) ==>
              PlainLinks(mem[root := mem[root][slot := LinkTo(pointers, false)]], With(tab, slot, sub), lower)
  {
    var mem', all := mem[root := mem[root][slot := LinkTo(pointers, false)]], With(tab, slot, sub);
    hide Tree, Hung, WindowMade, With, PlainLinks, LinkTo, Lower;
    if PlainLinks(mem, tab, lower) {
      forall p, i | p in all && 0 <= i < ENTRIES && |p| < 3 && Lower(p + [i]) == lower && all[p] in mem'
                    && mem'[all[p]][i].Link()
        ensures mem'[all[p]][i].writable && !mem'[all[p]][i].noExecute
      {
        WindowLinkPlain(mem, mem', root, tab, slot, pointers, sub, n, lower, p, i);
      }
      PlainIs(mem', all, lower);
    }
  }

  lemma {:induction false} WindowLinkPlain(mem: Memory, mem': Memory, root: nat, tab: map<seq<nat>, nat>, slot: nat,
                                           pointers: nat,
                                           sub: map<seq<nat>, nat>, n: nat, lower: bool, p: seq<nat>, i: nat)
    requires Tree(mem, root, tab) && Hung(mem, pointers, sub, 2) && WindowMade(mem, pointers, n)
    requires tab.Values !! sub.Values
    requires root in mem && slot < ENTRIES && mem' == mem[root := mem[root][slot := LinkTo(pointers, false)]]
    requires p in With(tab, slot, sub) && i < ENTRIES && |p| < 3 && PlainLinks(mem, tab, lower)
    requires Lower(p + [i]) == lower
    ensures var t := With(tab, slot, sub)[p];
            t in mem' && (mem'[t][i].Link() ==> mem'[t][i].writable && !mem'[t][i].noExecute)
  {
    hide Tree, Hung, WindowMade, With, PlainLinks;
    WindowLink(mem, root, tab, slot, pointers, sub, n, p, i);
    if p in tab && !(p == [] && i == slot) && mem[tab[p]][i].Link() { PlainAt(mem, tab, lower, p, i); }
  }

  lemma {:induction false} WindowLink(mem: Memory, root: nat, tab: map<seq<nat>, nat>, slot: nat, pointers: nat,
                                      sub: map<seq<nat>, nat>, n: nat, p: seq<nat>, i: nat)
    requires Tree(mem, root, tab) && Hung(mem, pointers, sub, 2) && WindowMade(mem, pointers, n)
    requires tab.Values !! sub.Values
    requires root in mem && slot < ENTRIES && p in With(tab, slot, sub) && i < ENTRIES && |p| < 3
    ensures var mem', all := mem[root := mem[root][slot := LinkTo(pointers, false)]], With(tab, slot, sub);
      && all[p] in mem'
      && (p in tab && !(p == [] && i == slot) ==> tab[p] in mem && mem'[all[p]][i] == mem[tab[p]][i])
      && (p !in tab || (p == [] && i == slot) ==> mem'[all[p]][i].Link() ==>
          mem'[all[p]][i].writable && !mem'[all[p]][i].noExecute)
  {
    hide Tree, Hung, WindowMade, With;
    RootAt(mem, root, tab);
    WithHas(tab, slot, sub, p);
    InValues(sub);
    InValues(tab);
    if p in tab {
      TreeAt(mem, root, tab, p, i);
    } else {
      WindowEntry(mem, pointers, sub, n, p[1..], i);
    }
  }

  lemma {:induction false} WindowEntry(mem: Memory, pointers: nat, sub: map<seq<nat>, nat>, n: nat, q: seq<nat>, i: nat)
    requires Hung(mem, pointers, sub, 2) && WindowMade(mem, pointers, n) && q in sub && |q| < 2 && i < ENTRIES
    ensures sub[q] in mem && (mem[sub[q]][i].Link() ==> mem[sub[q]][i].writable && !mem[sub[q]][i].noExecute)
  {
    HungTables(mem, pointers, sub, 2);
    if q == [] {
      if i < n { assert WindowGib(mem, mem[pointers][i], i * GIB); }
    } else {
      var k := q[0];
      assert q == [k] && [] + [k] == [k];
      assert q[..0] == [];
      assert HungShape(mem, pointers, sub, 2) && k < ENTRIES;
      HungAt(mem, pointers, sub, 2, [], k);
      assert WindowGib(mem, mem[pointers][k], k * GIB);
    }
  }

  /** Nothing translated where the window is put. */
  lemma {:induction false} WindowWasFree(mem: Memory, root: nat, tab: map<seq<nat>, nat>, base: U64, va: U64)
    requires Tree(mem, root, tab) && root in mem && base >= KERNEL_BASE && base % SLOT_BYTES == 0
    requires !mem[root][Index(base, 0)].present
    requires base <= va < base + SLOT_BYTES
    ensures Translate(mem, root, va) == None
  {
    hide Tree;
    SlotOf(base, va);
    RootAt(mem, root, tab);
  }

  lemma {:induction false} SlotIsKernel(base: U64)
    requires base >= KERNEL_BASE
    ensures KERNEL_SLOT <= Index(base, 0)
  {
    PathDecides(base);
    hide Index;
  }

  /** The window is there, nothing was there before, and everything else is as it was. */
  lemma {:induction false} WindowEverywhere(mem0: Memory, mem: Memory, mem': Memory, root: nat, tab: map<seq<nat>, nat>,
                                            base: U64,
                                            limit: nat, pointers: nat, sub: map<seq<nat>, nat>)
    requires Tree(mem, root, tab) && root in mem && base >= KERNEL_BASE && base % SLOT_BYTES == 0
    requires !mem[root][Index(base, 0)].present
    requires limit % GIB == 0 && limit <= SLOT_BYTES && Hung(mem, pointers, sub, 2)
    requires WindowMade(mem, pointers, limit / GIB) && root !in sub.Values
    requires mem' == mem[root := mem[root][Index(base, 0) := LinkTo(pointers, false)]] && AllAsItWas(mem0, mem, root)
    ensures WindowAlone(mem0, mem', root, base, limit)
  {
    hide Tree, Hung, WindowMade, Index, Translate, LeafOf, Executes, WindowMapped;
    forall va: U64 ensures Beside(mem0, mem', root, base, limit, va) {
      WindowHangs(mem, mem', root, tab, base, limit, pointers, sub, va);
      assert AsItWas(mem0, mem, root, va);
      if base <= va < base + limit { WindowWasFree(mem, root, tab, base, va); }
    }
  }
}
