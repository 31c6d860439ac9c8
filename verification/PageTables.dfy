/** `PageTables` of arch/x86_64/src/paging.rs: mapping, unmapping, process spaces and their end. */
module PageTables {
  import opened Bytes
  import opened Paging
  import opened PagingSteps
  import opened PagingRebuild

  datatype PagingError = KernelSpaceInUse | OutOfTableFrames | FrameNotWritable | BadIdentityLimit
    | RequiredRangeOutsideIdentityMap
    | WindowOutsideKernelSpace | WindowSlotTaken

  /** Physical memory, shared by every space, and which of its frames are tables of some space. */
  class PhysicalMemory {
    var tables: Memory
    ghost var inUse: set<nat>

    method Write(table: nat, index: nat, entry: TableEntry)
      requires table in tables && index < ENTRIES
      modifies this`tables
      ensures tables == old(tables)[table := old(tables)[table][index := entry]]
    {
      tables := tables[table := tables[table][index := entry]];
    }

    method Zero(table: nat)
      requires table in tables
      modifies this`tables
      ensures tables == old(tables)[table := ZEROED]
    {
      var index := 0;
      while index < ENTRIES
        invariant index <= ENTRIES && table in tables
        invariant tables == old(tables)[table := tables[table]]
        invariant forall i | 0 <= i < index :: tables[table][i] == EMPTY
      {
        Write(table, index, EMPTY);
        index := index + 1;
      }
      assert tables[table] == ZEROED;
    }
  }

  /** Where free frames come from. */
  class Frames {
    var free: seq<nat>

    ghost predicate Valid(memory: PhysicalMemory)
      reads this, memory
    {
      && (forall i | 0 <= i < |free| :: free[i] in memory.tables && free[i] !in memory.inUse)
      && (forall i | 0 <= i < |free| :: free[i] % PAGE == 0 && free[i] < FRAME_LIMIT)
      && (forall i, j | 0 <= i < j < |free| :: free[i] != free[j])
    }

    method Allocate(memory: PhysicalMemory) returns (r: Option<nat>)
      requires Valid(memory)
      modifies this
      ensures r.None? <==> old(free) == []
      ensures r.None? ==> free == old(free)
      ensures r.Some? ==> r.value == old(free)[0] && free == old(free)[1..]
      ensures r.Some? ==>
                r.value % PAGE == 0 && r.value < FRAME_LIMIT && r.value in memory.tables && r.value !in memory.inUse
      ensures r.Some? ==> r.value !in free
      ensures Valid(memory)
    {
      if free == [] {
        return None;
      }
      r := Some(free[0]);
      free := free[1..];
    }
  }

  /** One page a process asks for. */
  datatype Request = Request(page: U64, frame: nat, flags: PageFlags)

  ghost predicate LowerRequest(request: Request) {
    request.page % PAGE == 0 && request.page < LOWER_END && request.frame % PAGE == 0
  }

  datatype Operation =
    | MapPage(page: U64, frame: nat, flags: PageFlags)
    | UnmapPage(page: U64)
    | Rebuild(limit: U64, ranges: seq<MappedRange>)
    | Keep(ranges: seq<MappedRange>)
    | Window(base: U64, limit: U64)

  ghost predicate Sensible(operation: Operation) {
    match operation
    case MapPage(page, frame, _) => page % PAGE == 0 && IsCanonical(page) && frame % PAGE == 0
    case UnmapPage(page) => page % PAGE == 0 && IsCanonical(page)
    case _ => true
  }

  /** What stands in the kernel's half after one operation: mapping adds a page, unmapping takes it
      away, and neither the rebuilds nor a window touch any. */
  function After(standing: Standing, operation: Operation, ok: bool): Standing {
    match operation
    case MapPage(page, frame, flags) => if ok && page >= KERNEL_BASE then standing[page := (frame, flags)] else standing
    case UnmapPage(page) => if ok then standing - {page as nat} else standing
    case _ => standing
  }

  /** What stands after a run of them, given which were done. */
  function Mapped(operations: seq<Operation>, done: seq<bool>): Standing
    requires |operations| == |done|
  {
    if operations == [] then map[]
    else
      var n := |operations| - 1;
      After(Mapped(operations[..n], done[..n]), operations[n], done[n])
  }

  lemma {:induction false} MappedNothing(mem: Memory, root: nat)
    ensures Stands(mem, root, Mapped([], []))
  {
  }

  lemma {:induction false} MappedMore(operations: seq<Operation>, n: nat, done: seq<bool>)
    requires n < |operations| && |done| == n
    ensures forall ok: bool ::
              Mapped(operations[..n + 1], done + [ok]) == After(Mapped(operations[..n], done), operations[n], ok)
  {
    forall ok: bool
      ensures Mapped(operations[..n + 1], done + [ok]) == After(Mapped(operations[..n], done), operations[n], ok)
    {
      assert operations[..n + 1][..n] == operations[..n] && (done + [ok])[..n] == done;
    }
  }

  /** The places in `offered` whose frame was taken back. */
  function Accepted(offered: seq<nat>, accept: nat -> bool): set<nat> {
    set i: nat | i < |offered| && accept(offered[i])
  }

  method CountAccepted(offered: seq<nat>, accept: nat -> bool) returns (n: nat)
    ensures n == |Accepted(offered, accept)|
  {
    n := 0;
    var i := 0;
    assert Accepted(offered[..0], accept) == {};
    while i < |offered|
      invariant i <= |offered| && n == |Accepted(offered[..i], accept)|
    {
      assert offered[..i + 1][i] == offered[i];
      assert Accepted(offered[..i + 1], accept)
             == Accepted(offered[..i], accept) + if accept(offered[i]) then {i} else {};
      if accept(offered[i]) {
        n := n + 1;
      }
      i := i + 1;
    }
    assert offered[..i] == offered;
  }

  class PageTables {
    var root: nat
    const memory: PhysicalMemory
    /** What is added to a table's address to reach it. */
    const window: U64
    /** Where each table hangs; the tables this space took itself, those it shares, and the
        frames it took for a table and could not use. */
    ghost var tab: map<seq<nat>, nat>
    ghost var taken: set<nat>
    ghost var shared: set<nat>
    ghost var leaked: set<nat>

    constructor (root: nat, memory: PhysicalMemory, window: U64, ghost tab: map<seq<nat>, nat>, ghost taken: set<nat>,
                 ghost shared: set<nat>)
      ensures this.root == root && this.memory == memory && this.window == window
      ensures this.tab == tab && this.taken == taken && this.shared == shared && leaked == {}
    {
      this.root, this.memory, this.window := root, memory, window;
      this.tab, this.taken, this.shared, this.leaked := tab, taken, shared, {};
    }

    ghost predicate Valid()
      reads this, memory
    {
      && Tree(memory.tables, root, tab)
      && tab.Values <= memory.inUse
      && tab.Values == taken + shared && taken !! shared
      && window + FRAME_LIMIT <= 0x1_0000_0000_0000_0000
      && leaked !! tab.Values && leaked <= memory.inUse
    }

    /** `translate`: one entry per level, until one maps a page. */
    method TranslateAt(va: U64) returns (r: Option<Translation>)
      requires Valid()
      ensures r == Translate(memory.tables, root, va)
    {
      hide Index, Tree;
      if !IsCanonical(va) {
        return None;
      }
      var table, writable, level := root, true, 0;
      while level < 4
        invariant level <= 4
        invariant level < 4 ==>
                    Walk(memory.tables, root, 0, va, true) == Walk(memory.tables, table, level, va, writable)
        invariant level == 4 ==> Walk(memory.tables, root, 0, va, true) == None
      {
        if table !in memory.tables {
          return None;
        }
        var entry := memory.tables[table][Index(va, level)];
        if !entry.present || (level == 0 && entry.huge) {
          return None;
        }
        writable := writable && entry.writable;
        if level == 3 || entry.huge {
          var size := Span(level);
          return Some(Translation(entry.address - entry.address % size + va % size, writable, size));
        }
        table, level := entry.address, level + 1;
      }
      r := None;
    }

    ghost function Now(frames: Frames): Moment
      reads this, memory, frames
    {
      Moment(memory.tables, tab, taken, leaked, memory.inUse, frames.free)
    }

    /** A zeroed table in a fresh frame that can be written through the window. */
    method NewTable(frames: Frames) returns (r: Result<nat, MapError>)
      requires Valid() && frames.Valid(memory)
      modifies this`leaked, memory, frames
      ensures Valid() && frames.Valid(memory)
      ensures r.Err? ==> memory.tables == old(memory.tables)
      ensures r == Err(OutOfFrames) <==> old(frames.free) == []
      ensures r.Err? ==> r.error == OutOfFrames || r.error == TableFrameNotWritable
      ensures r.Err? && r.error == TableFrameNotWritable ==>
                && leaked == old(leaked) + {old(frames.free)[0]}
                && !old(Reachable(memory.tables, root, window, frames.free[0]))
      ensures r.Ok? || r == Err(OutOfFrames) ==> leaked == old(leaked)
      ensures r.Ok? ==> old(Reachable(memory.tables, root, window, frames.free[0]))
      ensures r.Ok? ==>
                && r.value == old(frames.free)[0]
                && r.value % PAGE == 0 && r.value !in old(memory.inUse) && memory.inUse == old(memory.inUse) + {r.value}
                && r.value in memory.tables && memory.tables == old(memory.tables)[r.value := ZEROED]
                && frames.free == old(frames.free)[1..]
      ensures old(memory.inUse) <= memory.inUse && memory.tables.Keys == old(memory.tables.Keys)
      ensures frames.free == old(frames.free) || (old(frames.free) != [] && frames.free == old(frames.free)[1..])
      ensures Spent(old(frames.free), frames.free, memory.tables, root, window, ErrorOf(r))
    {
      hide Tree, SameTranslations, Translate;
      var frame := frames.Allocate(memory);
      if frame.None? {
        return Err(OutOfFrames);
      }
      var t := TranslateAt(window + frame.value);
      memory.inUse := memory.inUse + {frame.value};
      if t.None? || t.value.phys != frame.value || !t.value.writable {
        leaked := leaked + {frame.value};
        return Err(TableFrameNotWritable);
      }
      ghost var before := memory.tables;
      memory.Zero(frame.value);
      TreeTables(before, root, tab);
      assert forall p | p in tab :: tab[p] in tab.Values;
      OutsideTree(before, memory.tables, root, tab);
      r := Ok(frame.value);
    }

    /** Maps `page` to `frame`, taking any tables that needs from `frames`. */
    method Map(page: U64, frame: nat, flags: PageFlags, frames: Frames) returns (r: Result<(), MapError>)
      requires Valid() && frames.Valid(memory)
      requires page % PAGE == 0 && IsCanonical(page) && frame % PAGE == 0
      modifies this`tab, this`taken, this`leaked, memory, frames
      ensures Valid() && frames.Valid(memory)
      ensures r == Err(OutsideKernelSpace) <==> flags.user != (page < KERNEL_BASE)
      // Every failure leaves every address where it was.
      ensures r.Err? ==> SameTranslations(old(memory.tables), memory.tables, root)
      // Success concerns exactly that page.
      ensures r.Ok? ==> forall va: U64 | IsCanonical(va) && va / PAGE == page / PAGE ::
                Translate(memory.tables, root, va)
                == Some(Translation(frame + va % PAGE,
                                    LinksWritable(memory.tables, tab, Path(page), 3) && flags.writable, PAGE))
      ensures r.Ok? ==> forall va: U64 | !(IsCanonical(va) && va / PAGE == page / PAGE) ::
                Translate(memory.tables, root, va) == old(Translate(memory.tables, root, va))
      // Where every link of the half is plain, as those this code hangs are, it is exactly what was asked for.
      ensures forall lower: bool :: old(PlainLinks(memory.tables, tab, lower)) ==> PlainLinks(memory.tables, tab, lower)
      ensures r.Ok? && old(PlainLinks(memory.tables, tab, page < KERNEL_BASE)) ==>
                forall va: U64 | IsCanonical(va) && va / PAGE == page / PAGE ::
                  Granted(memory.tables, root, va, frame, flags)
      // It is refused as taken exactly when something is mapped there.
      ensures r.Err? ==> SameLeaves(old(memory.tables), memory.tables, root)
      ensures r.Ok? ==> forall va: U64 | IsCanonical(va) ::
                LeafOf(memory.tables, root, 0, va)
                == if va / PAGE == page / PAGE then Some(LeafFor(frame, flags))
                   else LeafOf(old(memory.tables), root, 0, va)
      ensures flags.user == (page < KERNEL_BASE) ==>
                (r == Err(AlreadyMapped) || r == Err(HugePageInTheWay) <==>
                 old(Translate(memory.tables, root, page)).Some?)
      ensures r == Err(AlreadyMapped) ==> old(Translate(memory.tables, root, page)).value.pageSize == PAGE
      ensures r == Err(HugePageInTheWay) ==> old(Translate(memory.tables, root, page)).value.pageSize > PAGE
      // It takes no more than the three tables on the way, and fails for want of them only when it has to.
      ensures |frames.free| <= |old(frames.free)| <= |frames.free| + 3
      ensures r == Err(OutOfFrames) ==> frames.free == [] && |old(frames.free)| <= 2
      ensures r == Err(TableFrameNotWritable) ==> OutOfReach(old(frames.free), old(memory.tables), root, window)
      ensures Accounted(old(Now(frames)), Now(frames), root, window, Path(page))
    {
      hide Index, Span, Tree, Translate, Walk, LeafOf, PlainLinks, OpenLinks, RootSealed, LinksWritable, Advance,
           Accounted, Granted, Reachable;
      PathDecides(page);
      ghost var start := Now(frames);
      AdvanceNothing(start, root, window, Path(page));
      AdvanceAccounted(start, start, root, window, Path(page));
      AccountedPlain(start, start, root, window, Path(page));
      if flags.user != (page < KERNEL_BASE) {
        return Err(OutsideKernelSpace);
      }
      var to := WayTo(page, flags.user, frames);
      if to.Err? {
        AdvanceAccounted(start, Now(frames), root, window, Path(page));
        AccountedPlain(start, Now(frames), root, window, Path(page));
        AdvanceSame(start, Now(frames), root, window, Path(page), page);
        return Err(to.error);
      }
      var table := to.value;
      ghost var middle := Now(frames);
      MissesBelow(memory.tables, root, tab, page, 3);
      AdvanceSame(start, middle, root, window, Path(page), page);
      AdvanceAccounted(start, middle, root, window, Path(page));
      AccountedPlain(start, middle, root, window, Path(page));
      SpanOver(3);
      if memory.tables[table][Index(page, 3)].present {
        return Err(AlreadyMapped);
      }
      PutLeaf(page, table, LeafFor(frame, flags));
      LeafAccounted(start, middle, root, window, page, LeafFor(frame, flags));
      AccountedPlain(start, Now(frames), root, window, Path(page));
      if PlainLinks(start.mem, start.tab, page < KERNEL_BASE) {
        forall va: U64 | IsCanonical(va) && va / PAGE == page / PAGE
          ensures Granted(memory.tables, root, va, frame, flags)
        {
          MappedGranted(memory.tables, root, tab, page, frame, flags, va);
        }
      }
      r := Ok(());
    }

    /** The last table on the way to `page`, hanging what is missing. */
    method WayTo(page: U64, user: bool, frames: Frames) returns (r: Result<nat, MapError>)
      requires Valid() && frames.Valid(memory) && IsCanonical(page)
      requires user <==> Index(page, 0) < KERNEL_SLOT
      modifies this`tab, this`taken, this`leaked, memory, frames
      ensures Valid() && frames.Valid(memory)
      ensures Advance(old(Now(frames)), Now(frames), root, window, Path(page))
      ensures r.Ok? ==> Path(page)[..3] in tab && tab[Path(page)[..3]] == r.value && r.value in memory.tables
      ensures r.Err? ==> r.error == OutOfFrames || r.error == TableFrameNotWritable || r.error == HugePageInTheWay
      ensures r.Err? ==> (r.error == HugePageInTheWay <==> old(Translate(memory.tables, root, page)).Some?)
      ensures r == Err(HugePageInTheWay) ==> old(Translate(memory.tables, root, page)).value.pageSize > PAGE
      ensures |frames.free| <= |old(frames.free)| <= |frames.free| + 3
      ensures r == Err(OutOfFrames) ==> frames.free == [] && |old(frames.free)| <= 2
      ensures r == Err(TableFrameNotWritable) ==> OutOfReach(old(frames.free), old(memory.tables), root, window)
    {
      hide Index, Span, Tree, Translate, Walk, LeafOf, Advance, Reachable, OutOfReach;
      ghost var start := Now(frames);
      AdvanceNothing(start, root, window, Path(page));
      var table, level := root, 0;
      RootAt(memory.tables, root, tab);
      assert Path(page)[..0] == [];
      while level < 3
        invariant level <= 3 && Valid() && frames.Valid(memory)
        invariant Path(page)[..level] in tab && tab[Path(page)[..level]] == table && table in memory.tables
        invariant Advance(start, Now(frames), root, window, Path(page))
        invariant |frames.free| <= |start.free| <= |frames.free| + level
      {
        ghost var middle := Now(frames);
        AdvanceSame(start, middle, root, window, Path(page), page);
        var next := Descend(page, level, table, user, frames);
        AdvanceThen(start, middle, Now(frames), root, window, Path(page));
        if next.Err? {
          AdvanceReach(start, middle, Now(frames), root, window, Path(page));
          return Err(next.error);
        }
        table, level := next.value, level + 1;
      }
      r := Ok(table);
    }

    /** Writes the last entry of the walk of `page`. */
    method PutLeaf(page: U64, table: nat, leaf: TableEntry)
      requires Valid() && IsCanonical(page) && leaf.address % PAGE == 0
      requires Path(page)[..3] in tab && tab[Path(page)[..3]] == table && table in memory.tables
      modifies memory`tables
      ensures Valid() && memory.tables.Keys == old(memory.tables.Keys)
      ensures forall va: U64 | IsCanonical(va) && va / PAGE == page / PAGE ::
                Translate(memory.tables, root, va) == if leaf.present
                  then Some(Translation(leaf.address + va % PAGE,
                                        LinksWritable(memory.tables, tab, Path(page), 3) && leaf.writable, PAGE))
                  else None
      ensures forall va: U64 | !(IsCanonical(va) && va / PAGE == page / PAGE) ::
                Translate(memory.tables, root, va) == old(Translate(memory.tables, root, va))
      ensures forall va: U64 | IsCanonical(va) ::
                LeafOf(memory.tables, root, 0, va)
                == if va / PAGE != page / PAGE then LeafOf(old(memory.tables), root, 0, va)
                   else if leaf.present then Some(leaf) else None
      ensures LinksWritable(memory.tables, tab, Path(page), 3) == old(LinksWritable(memory.tables, tab, Path(page), 3))
      ensures old(RootSealed(memory.tables, root)) ==> RootSealed(memory.tables, root)
      ensures forall lower: bool :: old(PlainLinks(memory.tables, tab, lower)) ==> PlainLinks(memory.tables, tab, lower)
      ensures memory.tables == old(memory.tables)[table := old(memory.tables)[table][Index(page, 3) := leaf]]
    {
      hide Index, Span, Tree, Translate, LeafOf, PlainLinks, OpenLinks, RootSealed, LinksWritable;
      WriteLeaf(memory.tables, root, tab, page, leaf);
      LinksKept(memory.tables, memory.tables[table := memory.tables[table][Index(page, 3) := leaf]], root, tab, page,
                leaf, 3);
      LeafKeeps(memory.tables, root, tab, Path(page)[..3], Index(page, 3), leaf);
      memory.Write(table, Index(page, 3), leaf);
    }

    /** One level of the walk towards `page`: the table below, hung if it is missing. */
    method Descend(page: U64, level: nat, table: nat, user: bool, frames: Frames) returns (r: Result<nat, MapError>)
      requires Valid() && frames.Valid(memory) && level < 3 && IsCanonical(page)
      requires user <==> Index(page, 0) < KERNEL_SLOT
      requires Path(page)[..level] in tab && tab[Path(page)[..level]] == table && table in memory.tables
      modifies this`tab, this`taken, this`leaked, memory, frames
      ensures Valid() && frames.Valid(memory)
      ensures Advance(old(Now(frames)), Now(frames), root, window, Path(page))
      ensures r.Ok? ==>
                Path(page)[..level + 1] in tab && tab[Path(page)[..level + 1]] == r.value && r.value in memory.tables
      ensures r.Err? ==> r.error == OutOfFrames || r.error == TableFrameNotWritable || r.error == HugePageInTheWay
      ensures r.Err? ==> (r.error == HugePageInTheWay <==> old(Translate(memory.tables, root, page)).Some?)
      ensures r == Err(HugePageInTheWay) ==> old(Translate(memory.tables, root, page)).value.pageSize > PAGE
      ensures |frames.free| <= |old(frames.free)| <= |frames.free| + 1
      ensures r == Err(OutOfFrames) ==> old(frames.free) == []
      ensures r == Err(TableFrameNotWritable) ==> leaked != old(leaked)
      ensures old(leaked) <= leaked
    {
      hide Index, Span, Tree, SameTranslations, SameLeaves, Translate, Walk, PlainLinks, OpenLinks, RootSealed, Onward,
           Advance;
      ghost var p, start := Path(page)[..level], Now(frames);
      var index := Index(page, level);
      Through(Path(page), p, index, level);
      AdvanceNothing(start, root, window, Path(page));
      MissesBelow(memory.tables, root, tab, page, level);
      SpanOver(level);
      TreeAt(memory.tables, root, tab, p, index);
      var entry := memory.tables[table][index];
      if !entry.present {
        r := Grow(page, level, table, user, frames);
        TreeTables(memory.tables, root, tab);
      } else if entry.huge {
        r := Err(HugePageInTheWay);
      } else {
        TreeTables(memory.tables, root, tab);
        if user && !entry.user {
          LetThrough(memory.tables, root, tab, p, index);
          assert p == [] ==> index == Index(page, 0);
          OnwardLetThrough(memory.tables, root, tab, p, index);
          memory.Write(table, index, entry.(user := true));
          AdvanceWrite(start, Now(frames), root, window, Path(page), p, index);
        }
        r := Ok(entry.address);
      }
    }

    /** Hangs a new table under `table` on the way to `page`. */
    method Grow(page: U64, level: nat, table: nat, user: bool, frames: Frames) returns (r: Result<nat, MapError>)
      requires Valid() && frames.Valid(memory) && level < 3
      requires user <==> Index(page, 0) < KERNEL_SLOT
      requires Path(page)[..level] in tab && tab[Path(page)[..level]] == table && table in memory.tables
      requires !memory.tables[table][Index(page, level)].present
      modifies this`tab, this`taken, this`leaked, memory, frames
      ensures Valid() && frames.Valid(memory)
      ensures Advance(old(Now(frames)), Now(frames), root, window, Path(page))
      ensures r.Err? ==>
                tab == old(tab) && taken == old(taken) && (r.error == OutOfFrames || r.error == TableFrameNotWritable)
      ensures r.Ok? ==>
                Path(page)[..level + 1] in tab && Path(page)[..level + 1] == Path(page)[..level] + [Index(page, level)]
      ensures r.Ok? ==> tab == old(tab)[Path(page)[..level + 1] := r.value] && taken == old(taken) + {r.value}
                        && Path(page)[..level + 1] !in old(tab)
      ensures |frames.free| <= |old(frames.free)| <= |frames.free| + 1
      ensures r == Err(OutOfFrames) ==> old(frames.free) == []
      ensures r == Err(TableFrameNotWritable) ==> leaked != old(leaked)
      ensures old(leaked) <= leaked
    {
      hide Index, Span, Tree, SameTranslations, SameLeaves, Translate, PlainLinks, OpenLinks, RootSealed, Onward,
           Advance, Reachable, Left, OutOfReach;
      ghost var p, start := Path(page)[..level], Now(frames);
      Through(Path(page), p, Path(page)[level], level);
      var new' := NewTable(frames);
      if new'.Err? {
        AdvanceLost(start, Now(frames), root, window, Path(page));
        return Err(new'.error);
      }
      var f := new'.value;
      ghost var middle := memory.tables;
      InValues(tab);
      TreeTables(start.mem, root, tab);
      TreeAt(start.mem, root, tab, p, Index(page, level));
      LinkNew(middle, root, tab, p, Index(page, level), f, LinkTo(f, user));
      ghost var r' := p + [Index(page, level)];
      memory.Write(table, Index(page, level), LinkTo(f, user));
      tab, taken := tab[r' := f], taken + {f};
      ValuesGrow(start.tab, r', f);
      AdvanceGrow(start, Now(frames), root, window, Path(page), p, Index(page, level), f, LinkTo(f, user));
      r := Ok(f);
    }

    /** Removes the mapping of a kernel page and answers the frame it pointed to. */
    method Unmap(page: U64) returns (r: Result<nat, UnmapError>)
      requires Valid() && page % PAGE == 0 && IsCanonical(page)
      modifies memory`tables
      ensures Valid() && memory.tables.Keys == old(memory.tables.Keys)
      ensures page < KERNEL_BASE <==> r == Err(UnmapOutsideKernelSpace)
      ensures r.Err? ==> memory.tables == old(memory.tables)
      ensures page >= KERNEL_BASE ==> (r == Err(NotMapped) <==> Translate(old(memory.tables), root, page).None?)
      ensures r == Err(UnmapHugePageInTheWay) ==>
                && Translate(old(memory.tables), root, page).Some?
                && Translate(old(memory.tables), root, page).value.pageSize > PAGE
      ensures r.Ok? ==>
                && Translate(old(memory.tables), root, page).Some?
                && Translate(old(memory.tables), root, page).value.phys == r.value
                && Translate(old(memory.tables), root, page).value.pageSize == PAGE
      ensures r.Ok? ==>
                forall va: U64 | IsCanonical(va) && va / PAGE == page / PAGE :: Translate(memory.tables, root, va).None?
      ensures r.Ok? ==> forall va: U64 | !(IsCanonical(va) && va / PAGE == page / PAGE) ::
                Translate(memory.tables, root, va) == Translate(old(memory.tables), root, va)
      ensures r.Ok? ==> forall va: U64 | IsCanonical(va) && va / PAGE != page / PAGE ::
                LeafOf(memory.tables, root, 0, va) == LeafOf(old(memory.tables), root, 0, va)
      ensures old(RootSealed(memory.tables, root)) ==> RootSealed(memory.tables, root)
      ensures forall lower: bool :: old(PlainLinks(memory.tables, tab, lower)) ==> PlainLinks(memory.tables, tab, lower)
    {
      hide Index, Tree, Translate, Walk, LeafOf, RootSealed, PlainLinks;
      if page < KERNEL_BASE {
        return Err(UnmapOutsideKernelSpace);
      }
      var table, level := root, 0;
      RootAt(memory.tables, root, tab);
      assert Path(page)[..0] == [];
      while level < 3
        invariant level <= 3 && Valid() && memory.tables == old(memory.tables)
        invariant Path(page)[..level] in tab && tab[Path(page)[..level]] == table && table in memory.tables
      {
        var entry := memory.tables[table][Index(page, level)];
        Through(Path(page), Path(page)[..level], Path(page)[level], level);
        MissesBelow(memory.tables, root, tab, page, level);
        TreeAt(memory.tables, root, tab, Path(page)[..level], Index(page, level));
        if !entry.present {
          return Err(NotMapped);
        }
        if entry.huge {
          return Err(UnmapHugePageInTheWay);
        }
        TreeTables(memory.tables, root, tab);
        table, level := entry.address, level + 1;
      }
      var leaf := memory.tables[table][Index(page, 3)];
      MissesBelow(memory.tables, root, tab, page, 3);
      if !leaf.present {
        return Err(NotMapped);
      }
      LeafIs(memory.tables, root, tab, page);
      PutLeaf(page, table, EMPTY);
      r := Ok(leaf.address - leaf.address % PAGE);
    }

    /** `Unmap` is the exact inverse of `Map`. */
    method MapThenUnmap(page: U64, frame: nat, flags: PageFlags, frames: Frames)
      returns (mapped: bool, back: Result<nat, UnmapError>)
      requires Valid() && frames.Valid(memory)
      requires page % PAGE == 0 && IsCanonical(page) && page >= KERNEL_BASE && frame % PAGE == 0
      modifies this`tab, this`taken, this`leaked, memory, frames
      ensures Valid()
      ensures mapped ==> back == Ok(frame)
      ensures mapped ==> SameTranslations(old(memory.tables), memory.tables, root)
    {
      hide Tree, Translate, Accounted, LinksWritable;
      ghost var before := memory.tables;
      var r := Map(page, frame, flags, frames);
      mapped := r.Ok?;
      ghost var middle := memory.tables;
      assert mapped ==> Translate(middle, root, page).Some? && Translate(middle, root, page).value.phys == frame
                        && Translate(middle, root, page).value.pageSize == PAGE;
      back := Unmap(page);
      if mapped {
        assert Translate(before, root, page).None?;
        match back {
          case Ok(_) =>
          case Err(e) =>
            match e
            case UnmapOutsideKernelSpace =>
            case NotMapped =>
            case UnmapHugePageInTheWay =>
        }
        forall va: U64 ensures Translate(memory.tables, root, va) == Translate(before, root, va) {
          if IsCanonical(va) && va / PAGE == page / PAGE {
            WholePage(before, root, va, page);
            assert Translate(memory.tables, root, va) == None && Translate(before, root, va) == None;
          } else {
            assert Translate(memory.tables, root, va) == Translate(middle, root, va) == Translate(before, root, va);
          }
        }
      }
    }

    /** Copies the slots of this root from `low` on into `to`, which is no table of this tree. */
    method CopySlots(to: nat, low: nat)
      requires Valid() && to in memory.tables && memory.tables[to] == ZEROED && to !in tab.Values && low <= ENTRIES
      modifies memory`tables
      ensures Valid() && TookOver(memory.tables, root, to, low)
      ensures memory.tables == old(memory.tables)[to := memory.tables[to]]
    {
      hide Tree, SameTranslations;
      RootAt(memory.tables, root, tab);
      assert root in tab.Values by { assert tab[[]] == root; }
      ghost var before := memory.tables;
      var slot := low;
      while slot < ENTRIES
        invariant low <= slot <= ENTRIES && to in memory.tables && root in memory.tables
        invariant memory.tables == before[to := memory.tables[to]]
        invariant forall i | 0 <= i < ENTRIES ::
                    memory.tables[to][i] == if low <= i < slot then before[root][i] else EMPTY
      {
        var entry := memory.tables[root][slot];
        memory.Write(to, slot, entry);
        slot := slot + 1;
      }
      TreeTables(before, root, tab);
      assert forall p | p in tab :: tab[p] in tab.Values;
      OutsideTree(before, memory.tables, root, tab);
    }

    method KernelSlotsUsed() returns (used: bool)
      requires Valid()
      ensures used == KernelSlotsInUse(memory.tables, root)
    {
      RootAt(memory.tables, root, tab);
      hide Tree;
      var slot := KERNEL_SLOT;
      while slot < ENTRIES
        invariant KERNEL_SLOT <= slot <= ENTRIES
        invariant forall i | KERNEL_SLOT <= i < slot :: !memory.tables[root][i].present
      {
        if memory.tables[root][slot].present {
          return true;
        }
        slot := slot + 1;
      }
      used := false;
    }

    /** Tables of the kernel's own over what this root (the firmware's) maps: the same
        translations, everything below the root shared, and only the new root written. */
    method Adopt(frames: Frames) returns (r: Result<PageTables, PagingError>)
      requires Valid() && frames.Valid(memory)
      modifies this`leaked, memory, frames
      ensures Valid() && frames.Valid(memory)
      ensures r == Err(KernelSpaceInUse) <==> KernelSlotsInUse(old(memory.tables), root)
      ensures r.Err? ==> memory.tables == old(memory.tables)
      ensures r.Ok? ==>
                && fresh(r.value) && r.value.Valid() && r.value.memory == memory && r.value.root !in old(memory.inUse)
                && memory.tables == old(memory.tables)[r.value.root := memory.tables[r.value.root]]
                && RootSealed(memory.tables, r.value.root) && PlainLinks(memory.tables, r.value.tab, false)
                && forall va: U64 ::
                     Translate(memory.tables, r.value.root, va) == Translate(old(memory.tables), root, va)
      ensures r == Err(OutOfTableFrames) ==> frames.free == []
      ensures r == Err(FrameNotWritable) ==> OutOfReach(old(frames.free), old(memory.tables), root, window)
    {
      hide Tree, Translate, KernelSlotsInUse, RootSealed, Grafted, GraftedShared, TookOver, PlainLinks;
      RootAt(memory.tables, root, tab);
      var used := KernelSlotsUsed();
      if used {
        return Err(KernelSpaceInUse);
      }
      var new' := NewTable(frames);
      if new'.Err? {
        return Err(if new'.error == OutOfFrames then OutOfTableFrames else FrameNotWritable);
      }
      TreeTables(memory.tables, root, tab);
      assert forall p | p in tab :: tab[p] in tab.Values;
      CopySlots(new'.value, 0);
      GraftTree(memory.tables, root, new'.value, tab, 0);
      GraftValues(tab, new'.value, 0);
      SharedIsPart(tab, 0);
      ghost var shared' := GraftedShared(tab, 0);
      var space := new PageTables(new'.value, memory, window, Grafted(tab, new'.value, 0), {new'.value}, shared');
      r := Ok(space);
      AdoptTranslates(old(memory.tables), memory.tables, root, new'.value, tab);
      AdoptSealed(old(memory.tables), memory.tables, root, new'.value);
      NoKernelLinks(old(memory.tables), root, tab);
      PlainOutside(old(memory.tables), memory.tables, tab, false);
      GraftPlain(memory.tables, root, new'.value, tab, 0);
    }

    // -------------------------------------------------------------------
    // Whole lower halves
    // -------------------------------------------------------------------

    /** Writes a table that is no part of the tree. */
    method WriteAside(table: nat, index: nat, entry: TableEntry)
      requires Valid() && table in memory.tables && table !in tab.Values && index < ENTRIES
      modifies memory`tables
      ensures Valid() && memory.tables == old(memory.tables)[table := old(memory.tables)[table][index := entry]]
    {
      hide Tree, SameTranslations;
      ghost var before := memory.tables;
      TreeTables(before, root, tab);
      memory.Write(table, index, entry);
      InValues(tab);
      OutsideTree(before, memory.tables, root, tab);
    }

    /** A page table of 4 KiB pages for the two mebibytes at `base`. */
    method MakeTable(base: nat, ranges: seq<MappedRange>, frames: Frames) returns (r: Result<nat, MapError>)
      requires Valid() && frames.Valid(memory)
      modifies this`leaked, memory, frames
      ensures Valid() && frames.Valid(memory)
      ensures Aside(old(memory.tables), old(memory.inUse), memory.tables, memory.inUse)
      ensures r.Ok? ==> leaked == old(leaked)
      ensures r.Err? ==> r.error == OutOfFrames || r.error == TableFrameNotWritable
      ensures r.Ok? ==> r.value in memory.tables && r.value !in old(memory.inUse) && r.value in memory.inUse
      ensures r.Ok? ==> memory.tables[r.value] == IdentityTable(ranges, base)
      ensures Spent(old(frames.free), frames.free, memory.tables, root, window, ErrorOf(r))
    {
      hide Tree, Reachable, RunsCode, ReadOnly;
      r := NewTable(frames);
      if r.Err? { return; }
      var table := r.value;
      ghost var before := memory.tables;
      var index := 0;
      while index < ENTRIES
        modifies memory`tables
        invariant index <= ENTRIES && Valid() && frames.Valid(memory) && table in memory.tables && table !in tab.Values
        invariant memory.tables == before[table := memory.tables[table]]
        invariant forall i | 0 <= i < ENTRIES ::
                    memory.tables[table][i] == if i < index then IdentityLeaf(ranges, base + i * PAGE) else EMPTY
      {
        var page := base + index * PAGE;
        if page != 0 {
          var runs, only := RunsCode(ranges, page), ReadOnly(ranges, page);
          WriteAside(table, index, TableEntry(true, !only, false, false, false, false, !runs, page));
        }
        index := index + 1;
      }
    }

    /** The directory of the gibibyte at `base`. */
    method MakeDirectory(base: nat, ranges: seq<MappedRange>, frames: Frames)
      returns (r: Result<nat, MapError>, ghost kid: map<seq<nat>, nat>)
      requires Valid() && frames.Valid(memory)
      modifies this`leaked, memory, frames
      ensures Valid() && frames.Valid(memory)
      ensures Aside(old(memory.tables), old(memory.inUse), memory.tables, memory.inUse)
      ensures r.Ok? ==> leaked == old(leaked)
      ensures r.Err? ==> r.error == OutOfFrames || r.error == TableFrameNotWritable
      ensures r.Ok? ==> Hung(memory.tables, r.value, kid, 1) && Newly(kid, old(memory.inUse), memory.inUse)
      ensures r.Ok? ==> DirectoryMade(memory.tables, r.value, base, ranges, ENTRIES)
      ensures Spent(old(frames.free), frames.free, memory.tables, root, window, ErrorOf(r))
    {
      hide Tree, Reachable, FineGrained, Hung, DirectoryMade, IdentityTable, With, Translate, LargeLeaf, Left,
           OutOfReach;
      r := NewTable(frames);
      kid := map[];
      if r.Err? { return; }
      var directory := r.value;
      kid := Alone(directory);
      AloneHas(directory);
      NothingMade(memory.tables, directory, base, ranges);
      var entry := 0;
      while entry < ENTRIES
        invariant entry <= ENTRIES && Valid() && frames.Valid(memory) && leaked == old(leaked)
        invariant Aside(old(memory.tables), old(memory.inUse), memory.tables, memory.inUse)
        invariant Hung(memory.tables, directory, kid, 1) && Newly(kid, old(memory.inUse), memory.inUse)
        invariant DirectoryMade(memory.tables, directory, base, ranges, entry)
        invariant Left(old(frames.free), frames.free)
      {
        var part := base + entry * LARGE_PAGE;
        HungTables(memory.tables, directory, kid, 1);
        if !FineGrained(ranges, part) {
          DirectoryLarge(memory.tables, directory, kid, base, ranges, entry);
          WriteAside(directory, entry, LargeLeaf(part));
        } else {
          ghost var free := frames.free;
          var fine;
          fine, kid := MakeFine(directory, base, entry, ranges, frames, kid, old(memory.inUse));
          SpentThen(old(frames.free), free, frames.free, memory.tables, root, window, ErrorOf(fine));
          if fine.Err? { return Err(fine.error), kid; }
        }
        entry := entry + 1;
      }
    }

    /** Entry `entry` of a directory under construction: a table of 4 KiB pages. */
    method MakeFine(directory: nat, base: nat, entry: nat, ranges: seq<MappedRange>, frames: Frames,
                    ghost kid: map<seq<nat>, nat>, ghost first: set<nat>)
      returns (r: Result<(), MapError>, ghost kid': map<seq<nat>, nat>)
      requires Valid() && frames.Valid(memory) && entry < ENTRIES && FineGrained(ranges, base + entry * LARGE_PAGE)
      requires directory in memory.tables && directory !in tab.Values && directory in memory.inUse
      requires directory !in first && tab.Values <= first <= memory.inUse
      requires Hung(memory.tables, directory, kid, 1) && Newly(kid, first, memory.inUse)
      requires DirectoryMade(memory.tables, directory, base, ranges, entry)
      modifies this`leaked, memory, frames
      ensures Valid() && frames.Valid(memory) && Aside(old(memory.tables), first, memory.tables, memory.inUse)
      ensures r.Ok? ==> leaked == old(leaked)
      ensures r.Err? ==> r.error == OutOfFrames || r.error == TableFrameNotWritable
      ensures r.Ok? ==> Hung(memory.tables, directory, kid', 1) && Newly(kid', first, memory.inUse)
      ensures r.Ok? ==> DirectoryMade(memory.tables, directory, base, ranges, entry + 1)
      ensures Spent(old(frames.free), frames.free, memory.tables, root, window, ErrorOf(r))
    {
      hide Tree, Reachable, FineGrained, Hung, DirectoryMade, IdentityTable, With, Translate, Left, OutOfReach;
      kid' := kid;
      ghost var before := memory.tables;
      var table := MakeTable(base + entry * LARGE_PAGE, ranges, frames);
      if table.Err? { return Err(table.error), kid'; }
      HungTables(before, directory, kid, 1);
      HungFrame(before, memory.tables, directory, kid, 1);
      DirectoryFrame(before, memory.tables, directory, kid, base, ranges, entry);
      DirectoryFine(memory.tables, directory, kid, base, ranges, entry, table.value);
      AloneHas(table.value);
      NewlyWith(kid, entry, Alone(table.value), first, memory.inUse);
      WriteAside(directory, entry, LinkTo(table.value, false));
      kid' := With(kid, entry, Alone(table.value));
      r := Ok(());
    }

    /** The pointers of the first `n` gibibytes. */
    method MakeIdentity(n: nat, ranges: seq<MappedRange>, frames: Frames)
      returns (r: Result<nat, MapError>, ghost sub: map<seq<nat>, nat>)
      requires Valid() && frames.Valid(memory) && n <= ENTRIES
      modifies this`leaked, memory, frames
      ensures Valid() && frames.Valid(memory)
      ensures Aside(old(memory.tables), old(memory.inUse), memory.tables, memory.inUse)
      ensures r.Ok? ==> leaked == old(leaked)
      ensures r.Err? ==> r.error == OutOfFrames || r.error == TableFrameNotWritable
      ensures r.Ok? ==> Hung(memory.tables, r.value, sub, 2) && Newly(sub, old(memory.inUse), memory.inUse)
      ensures r.Ok? ==> PointersMade(memory.tables, r.value, ranges, n)
      ensures Spent(old(frames.free), frames.free, memory.tables, root, window, ErrorOf(r))
    {
      hide Tree, Reachable, FineGrained, Hung, DirectoryMade, PointersMade, With, Translate, Left, OutOfReach;
      r := NewTable(frames);
      sub := map[];
      if r.Err? { return; }
      var pointers := r.value;
      sub := Alone(pointers);
      AloneHas(pointers);
      NothingMade(memory.tables, pointers, 0, ranges);
      var slot := 0;
      while slot < n
        invariant slot <= n && Valid() && frames.Valid(memory) && leaked == old(leaked)
        invariant Aside(old(memory.tables), old(memory.inUse), memory.tables, memory.inUse)
        invariant Hung(memory.tables, pointers, sub, 2) && Newly(sub, old(memory.inUse), memory.inUse)
        invariant PointersMade(memory.tables, pointers, ranges, slot)
        invariant Left(old(frames.free), frames.free)
      {
        ghost var before, used, free := memory.tables, memory.inUse, frames.free;
        HungTables(before, pointers, sub, 2);
        ghost var kid;
        var directory;
        directory, kid := MakeDirectory(slot * GIB, ranges, frames);
        SpentThen(old(frames.free), free, frames.free, memory.tables, root, window, ErrorOf(directory));
        if directory.Err? { return Err(directory.error), sub; }
        HungFrame(before, memory.tables, pointers, sub, 2);
        PointersFrame(before, memory.tables, pointers, sub, ranges, slot);
        NewlyApart(sub, kid, old(memory.inUse), used, memory.inUse);
        PointersMore(memory.tables, pointers, sub, ranges, slot, directory.value, kid);
        NewlyWith(sub, slot, kid, old(memory.inUse), memory.inUse);
        WriteAside(pointers, slot, LinkTo(directory.value, false));
        sub := With(sub, slot, kid);
        slot := slot + 1;
      }
    }

    /** Puts a lower half in the root: its first slot leads to `pointers`, the rest of the half is
        emptied. What hung there before is dropped. */
    method PutHalf(pointers: nat, user: bool, ghost low: map<seq<nat>, nat>)
      requires Valid() && root in memory.tables
      requires Tree(memory.tables[root := LowerRoot(pointers)], root, low) && Separate(tab, low)
      requires low.Values <= memory.inUse && leaked !! low.Values
      modifies this`tab, this`taken, this`shared, memory`tables
      ensures Valid() && root in memory.tables && tab == Halves(old(tab), low)
      ensures PutInPlace(old(memory.tables), old(memory.tables)[root := LowerRoot(pointers)], memory.tables, root)
      ensures memory.tables[root][0].user == user && memory.tables.Keys == old(memory.tables.Keys)
      ensures forall i | 0 < i < KERNEL_SLOT :: !memory.tables[root][i].present
      ensures PlainLinks(old(memory.tables)[root := LowerRoot(pointers)], low, true) ==>
                PlainLinks(memory.tables, tab, true)
      ensures PlainLinks(old(memory.tables), old(tab), false) ==> PlainLinks(memory.tables, tab, false)
    {
      hide Tree, Halves, PlainLinks;
      ghost var before, made := memory.tables, memory.tables[root := LowerRoot(pointers)];
      RootAt(before, root, tab);
      memory.Write(root, 0, LinkTo(pointers, user));
      var slot := 1;
      while slot < KERNEL_SLOT
        modifies memory`tables
        invariant 1 <= slot <= KERNEL_SLOT && root in memory.tables
        invariant memory.tables == before[root := memory.tables[root]]
        invariant forall i | 0 <= i < ENTRIES ::
                    memory.tables[root][i]
                    == if i == 0 then LinkTo(pointers, user) else if i < slot then EMPTY else before[root][i]
      {
        memory.Write(root, slot, EMPTY);
        slot := slot + 1;
      }
      assert PutInPlace(before, made, memory.tables, root);
      HalvesTree(before, made, memory.tables, root, tab, low);
      HalvesPlain(before, made, memory.tables, root, tab, low);
      HalvesValues(tab, low);
      tab := Halves(tab, low);
      shared := shared * tab.Values;
      taken := tab.Values - shared;
    }

    /** A fresh identity map of `[0, limit)`, less its first page, as the whole lower half. On any
        error nothing translates differently. Otherwise each address of the lower half maps to
        itself exactly when it is in `[PAGE, limit)`, writable unless its page is wholly listed and
        nothing writable touches it, and runs code exactly when its page meets an executable range;
        the kernel's half is what it was. */
    method RebuildIdentity(frames: Frames, limit: U64, ranges: seq<MappedRange>) returns (r: Result<(), PagingError>)
      requires Valid() && frames.Valid(memory)
      modifies this`tab, this`taken, this`shared, this`leaked, memory, frames
      ensures Valid() && frames.Valid(memory)
      ensures r == Err(BadIdentityLimit) <==> limit == 0 || limit % GIB != 0 || limit > SLOT_BYTES
      ensures r == Err(RequiredRangeOutsideIdentityMap) <==>
              limit != 0 && limit % GIB == 0 && limit <= SLOT_BYTES
                && exists k | 0 <= k < |ranges| :: !Inside(ranges[k], limit)
      ensures r.Err? ==> AllAsItWas(old(memory.tables), memory.tables, root)
      ensures r.Ok? ==> forall va: U64 | va < LOWER_END :: IdentityMapped(memory.tables, root, ranges, limit, va)
      ensures KernelAsItWas(old(memory.tables), memory.tables, root)
      ensures RootSealed(old(memory.tables), root) ==> RootSealed(memory.tables, root)
      ensures r.Ok? ==> PlainLinks(memory.tables, tab, true)
      ensures PlainLinks(old(memory.tables), old(tab), false) ==> PlainLinks(memory.tables, tab, false)
      ensures r == Err(OutOfTableFrames) ==> frames.free == []
      ensures r == Err(FrameNotWritable) ==> OutOfReach(old(frames.free), old(memory.tables), root, window)
      ensures r.Ok? ==> LowerUnseen(memory.tables, root)
    {
      hide Tree, Translate, Hung, PointersMade, IdentityMapped, RootSealed, PutInPlace, With, Newly, Separate, Aside,
           LowerRoot, Halves, AllAsItWas, KernelAsItWas, PlainLinks,
           OutOfReach, Left, LowerUnseen;
      ghost var mem := memory.tables;
      AllIsKernel(mem, memory.tables, root);
      if limit == 0 || limit % GIB != 0 || limit > SLOT_BYTES { return Err(BadIdentityLimit); }
      if exists k | 0 <= k < |ranges| :: !Inside(ranges[k], limit) { return Err(RequiredRangeOutsideIdentityMap); }
      ghost var sub;
      var pointers;
      pointers, sub := MakeIdentity(limit / GIB, ranges, frames);
      AsideSame(mem, old(memory.inUse), memory.tables, memory.inUse, root, tab);
      ReachAsItWas(mem, memory.tables, root, window, old(frames.free));
      AllIsKernel(mem, memory.tables, root);
      if pointers.Err? { return Err(if pointers.error == OutOfFrames then OutOfTableFrames else FrameNotWritable); }
      PutIdentity(pointers.value, ranges, limit, sub, mem, old(memory.inUse));
      r := Ok(());
    }

    /** The identity map that was made aside becomes the lower half of a space that is otherwise
        as it was in `mem`. */
    method PutIdentity(pointers: nat, ranges: seq<MappedRange>, ghost limit: nat, ghost sub: map<seq<nat>, nat>,
                       ghost mem: Memory,
                       ghost before: set<nat>)
      requires Valid() && limit % GIB == 0 && limit <= SLOT_BYTES && tab.Values <= before && leaked <= before
      requires Hung(memory.tables, pointers, sub, 2) && Newly(sub, before, memory.inUse)
      requires PointersMade(memory.tables, pointers, ranges, limit / GIB)
      requires AllAsItWas(mem, memory.tables, root) && root in mem && root in memory.tables
      requires memory.tables[root] == mem[root]
      modifies this`tab, this`taken, this`shared, memory`tables
      ensures Valid() && memory.tables.Keys == old(memory.tables.Keys)
      ensures forall va: U64 | va < LOWER_END :: IdentityMapped(memory.tables, root, ranges, limit, va)
      ensures KernelAsItWas(mem, memory.tables, root) && (RootSealed(mem, root) ==> RootSealed(memory.tables, root))
      ensures PlainLinks(memory.tables, tab, true)
      ensures PlainLinks(old(memory.tables), old(tab), false) ==> PlainLinks(memory.tables, tab, false)
      ensures LowerUnseen(memory.tables, root)
    {
      hide Tree, Translate, Hung, PointersMade, IdentityMapped, RootSealed, PutInPlace, With, Newly, Separate,
           LowerRoot, Halves, AllAsItWas,
           KernelAsItWas, PlainLinks, LowerUnseen;
      ghost var middle, low, tab0 := memory.tables, With(Alone(root), 0, sub), tab;
      RootAt(middle, root, tab);
      RootIn(middle, root, tab);
      NewlyValues(sub, before, memory.inUse);
      LowerTree(middle, root, pointers, sub);
      LowerSeparate(root, tab, sub, before, memory.inUse);
      ghost var made := middle[root := LowerRoot(pointers)];
      IdentityPlain(middle, root, pointers, sub, ranges, limit / GIB);
      PutHalf(pointers, false, low);
      IdentityHalf(middle, made, memory.tables, root, tab0, low, pointers, sub, ranges, limit);
      KernelHalf(mem, middle, made, memory.tables, root, tab0, low);
      ClosedSlots(memory.tables, root);
    }

    /** A directory of 2 MiB pages of the window. */
    method MakeWindowDirectory(base: nat, frames: Frames) returns (r: Result<nat, MapError>)
      requires Valid() && frames.Valid(memory)
      modifies this`leaked, memory, frames
      ensures Valid() && frames.Valid(memory)
      ensures Aside(old(memory.tables), old(memory.inUse), memory.tables, memory.inUse)
      ensures r.Ok? ==> leaked == old(leaked)
      ensures r.Err? ==> r.error == OutOfFrames || r.error == TableFrameNotWritable
      ensures r.Ok? ==>
                && r.value !in old(memory.inUse) && r.value in memory.inUse
                && WindowDirectory(memory.tables, r.value, base, ENTRIES)
      ensures Spent(old(frames.free), frames.free, memory.tables, root, window, ErrorOf(r))
    {
      hide Tree, Reachable, Translate;
      r := NewTable(frames);
      if r.Err? { return; }
      var directory := r.value;
      ghost var before := memory.tables;
      var entry := 0;
      while entry < ENTRIES
        modifies memory`tables
        invariant entry <= ENTRIES && Valid() && frames.Valid(memory) && directory in memory.tables
        invariant directory !in tab.Values
        invariant memory.tables == before[directory := memory.tables[directory]]
        invariant WindowDirectory(memory.tables, directory, base, entry)
      {
        WriteAside(directory, entry, LargeLeaf(base + entry * LARGE_PAGE));
        entry := entry + 1;
      }
    }

    /** Maps `[0, limit)` of physical memory at `base`, writable and never to be run, in 2 MiB pages:
        all of it, and no other address notices; or, on any error, none. */
    method MapPhysicalWindow(frames: Frames, base: U64, limit: U64) returns (r: Result<(), PagingError>)
      requires Valid() && frames.Valid(memory)
      modifies this`tab, this`taken, this`leaked, memory, frames
      ensures Valid() && frames.Valid(memory)
      ensures r.Err? ==> AllAsItWas(old(memory.tables), memory.tables, root)
      ensures r == Err(BadIdentityLimit) <==> limit == 0 || limit % GIB != 0 || limit > SLOT_BYTES
      ensures r == Err(WindowOutsideKernelSpace) ==> base < KERNEL_BASE || base % SLOT_BYTES != 0
      ensures r == Err(WindowSlotTaken) ==>
                root in old(memory.tables) && old(memory.tables)[root][Index(base, 0)].present
      ensures r.Ok? ==> base >= KERNEL_BASE && WindowAlone(old(memory.tables), memory.tables, root, base, limit)
      ensures StaysPlain(old(memory.tables), old(tab), memory.tables, tab)
      ensures RootSealed(old(memory.tables), root) ==> RootSealed(memory.tables, root)
      ensures r == Err(OutOfTableFrames) ==> frames.free == []
      ensures r == Err(FrameNotWritable) ==> OutOfReach(old(frames.free), old(memory.tables), root, window)
    {
      hide Tree, Translate, Hung, With, WindowMade, WindowMapped, RootSealed, Aside, Newly, Index, AllAsItWas,
           KernelAsItWas, PlainLinks, WindowAlone,
           OutOfReach, Left;
      ghost var mem := memory.tables;
      AllIsKernel(mem, memory.tables, root);
      if limit == 0 || limit % GIB != 0 || limit > SLOT_BYTES { return Err(BadIdentityLimit); }
      if base < KERNEL_BASE || base % SLOT_BYTES != 0 { return Err(WindowOutsideKernelSpace); }
      RootAt(mem, root, tab);
      var slot := Index(base, 0);
      if memory.tables[root][slot].present { return Err(WindowSlotTaken); }
      ghost var sub;
      var pointers;
      pointers, sub := MakeWindow(limit / GIB, frames);
      AsideSame(mem, old(memory.inUse), memory.tables, memory.inUse, root, tab);
      ReachAsItWas(mem, memory.tables, root, window, old(frames.free));
      AllIsKernel(mem, memory.tables, root);
      if pointers.Err? { return Err(if pointers.error == OutOfFrames then OutOfTableFrames else FrameNotWritable); }
      PutWindow(pointers.value, base, limit, sub, mem, old(memory.inUse));
      r := Ok(());
    }

    /** The window that was made aside is hung in its slot of the root. */
    method PutWindow(pointers: nat, base: U64, ghost limit: nat, ghost sub: map<seq<nat>, nat>, ghost mem: Memory,
                     ghost before: set<nat>)
      requires Valid() && limit % GIB == 0 && limit <= SLOT_BYTES && tab.Values <= before && leaked <= before
      requires base >= KERNEL_BASE && base % SLOT_BYTES == 0
      requires Hung(memory.tables, pointers, sub, 2) && Newly(sub, before, memory.inUse)
      requires WindowMade(memory.tables, pointers, limit / GIB)
      requires AllAsItWas(mem, memory.tables, root) && root in mem && root in memory.tables
      requires memory.tables[root] == mem[root]
      requires !mem[root][Index(base, 0)].present
      modifies this`tab, this`taken, memory`tables
      ensures Valid() && memory.tables.Keys == old(memory.tables.Keys)
      ensures WindowAlone(mem, memory.tables, root, base, limit)
      ensures (RootSealed(mem, root) ==> RootSealed(memory.tables, root))
      ensures StaysPlain(old(memory.tables), old(tab), memory.tables, tab)
    {
      hide Tree, Translate, Hung, With, WindowMade, RootSealed, Newly, Index, AllAsItWas, PlainLinks, WindowAlone;
      ghost var middle, tab0 := memory.tables, tab;
      var slot := Index(base, 0);
      RootIn(middle, root, tab);
      NewlyValues(sub, before, memory.inUse);
      SlotTree(middle, root, tab, slot, pointers, sub);
      memory.Write(root, slot, LinkTo(pointers, false));
      WindowValues(tab, slot, sub, middle, root, pointers);
      tab, taken := With(tab, slot, sub), taken + sub.Values;
      SlotIsKernel(base);
      WindowPlain(middle, root, tab0, slot, pointers, sub, limit / GIB, true);
      WindowPlain(middle, root, tab0, slot, pointers, sub, limit / GIB, false);
      WindowEverywhere(mem, middle, memory.tables, root, tab0, base, limit, pointers, sub);
      WindowSealed(mem, middle, memory.tables, root, slot, pointers);
    }

    method MakeWindow(n: nat, frames: Frames) returns (r: Result<nat, MapError>, ghost sub: map<seq<nat>, nat>)
      requires Valid() && frames.Valid(memory) && n <= ENTRIES
      modifies this`leaked, memory, frames
      ensures Valid() && frames.Valid(memory)
      ensures Aside(old(memory.tables), old(memory.inUse), memory.tables, memory.inUse)
      ensures r.Ok? ==> leaked == old(leaked)
      ensures r.Err? ==> r.error == OutOfFrames || r.error == TableFrameNotWritable
      ensures r.Ok? ==> Hung(memory.tables, r.value, sub, 2) && Newly(sub, old(memory.inUse), memory.inUse)
      ensures r.Ok? ==> WindowMade(memory.tables, r.value, n)
      ensures Spent(old(frames.free), frames.free, memory.tables, root, window, ErrorOf(r))
    {
      hide Tree, Reachable, Hung, WindowDirectory, WindowMade, With, Translate, Left, OutOfReach;
      r := NewTable(frames);
      sub := map[];
      if r.Err? { return; }
      var pointers := r.value;
      sub := Alone(pointers);
      AloneHas(pointers);
      WindowStarts(memory.tables, pointers);
      var slot := 0;
      while slot < n
        invariant slot <= n && Valid() && frames.Valid(memory) && leaked == old(leaked)
        invariant Aside(old(memory.tables), old(memory.inUse), memory.tables, memory.inUse)
        invariant Hung(memory.tables, pointers, sub, 2) && Newly(sub, old(memory.inUse), memory.inUse)
        invariant WindowMade(memory.tables, pointers, slot)
        invariant Left(old(frames.free), frames.free)
      {
        ghost var before, used, free := memory.tables, memory.inUse, frames.free;
        HungTables(before, pointers, sub, 2);
        var directory := MakeWindowDirectory(slot * GIB, frames);
        SpentThen(old(frames.free), free, frames.free, memory.tables, root, window, ErrorOf(directory));
        if directory.Err? { return Err(directory.error), sub; }
        HungFrame(before, memory.tables, pointers, sub, 2);
        WindowFrame(before, memory.tables, pointers, sub, slot);
        AloneHas(directory.value);
        NewlyApart(sub, Alone(directory.value), old(memory.inUse), used, memory.inUse);
        WindowMore(memory.tables, pointers, sub, slot, directory.value);
        NewlyWith(sub, slot, Alone(directory.value), old(memory.inUse), memory.inUse);
        WriteAside(pointers, slot, LinkTo(directory.value, false));
        sub := With(sub, slot, Alone(directory.value));
        slot := slot + 1;
      }
    }

    /** One level down the lower half under construction, hanging a table where there is none. */
    method KeepStep(page: U64, level: nat, table: nat, pointers: nat, frames: Frames, ghost low: map<seq<nat>, nat>,
                    ghost before: set<nat>)
      returns (r: Result<nat, MapError>, ghost low': map<seq<nat>, nat>)
      requires Valid() && frames.Valid(memory) && 1 <= level < 3 && tab.Values <= before <= memory.inUse
      requires leaked <= before
      requires Keeping(memory.tables, root, pointers, low, before, memory.inUse) && Path(page)[..level] in low
      requires low[Path(page)[..level]] == table
      modifies this`leaked, memory, frames
      ensures Valid() && frames.Valid(memory) && Aside(old(memory.tables), before, memory.tables, memory.inUse)
      ensures r.Err? ==> r.error == OutOfFrames || r.error == TableFrameNotWritable
      ensures r.Ok? ==> leaked == old(leaked) && Keeping(memory.tables, root, pointers, low', before, memory.inUse)
      ensures r.Ok? ==> Path(page)[..level + 1] in low' && low'[Path(page)[..level + 1]] == r.value
      ensures r.Ok? ==> SameLeaves(Made(old(memory.tables), root, pointers), Made(memory.tables, root, pointers), root)
      ensures Spent(old(frames.free), frames.free, memory.tables, root, window, ErrorOf(r))
    {
      hide Tree, Translate, LeafOf, Index, Keeping, Made, Reachable;
      ghost var p := Path(page)[..level];
      var index := Index(page, level);
      Through(Path(page), p, index, level);
      KeepingAt(memory.tables, root, pointers, low, before, memory.inUse, p, index);
      low' := low;
      var entry := memory.tables[table][index];
      LeftAll(frames.free);
      if entry.present { return Ok(entry.address), low'; }
      ghost var mem, used := memory.tables, memory.inUse;
      r := NewTable(frames);
      if r.Err? { return; }
      KeepGrow(mem, root, pointers, low, before, used, p, index, r.value);
      assert r.value != table;
      WriteAside(table, index, LinkTo(r.value, false));
      low' := low[p + [index] := r.value];
    }

    /** Maps one page of the lower half under construction to itself. */
    method KeepPage(page: U64, code: MappedRange, pointers: nat, frames: Frames, ghost low: map<seq<nat>, nat>,
                    ghost before: set<nat>)
      returns (r: Result<(), MapError>, ghost low': map<seq<nat>, nat>)
      requires Valid() && frames.Valid(memory) && tab.Values <= before <= memory.inUse && leaked <= before
      requires Keeping(memory.tables, root, pointers, low, before, memory.inUse) && page < SLOT_BYTES
      requires page % PAGE == 0
      modifies this`leaked, memory, frames
      ensures Valid() && frames.Valid(memory) && Aside(old(memory.tables), before, memory.tables, memory.inUse)
      ensures r.Err? ==> r.error == OutOfFrames || r.error == TableFrameNotWritable
      ensures r.Ok? ==> leaked == old(leaked) && Keeping(memory.tables, root, pointers, low', before, memory.inUse)
      ensures r.Ok? ==> forall va: U64 | va < LOWER_END ::
                LeafOf(Made(memory.tables, root, pointers), root, 0, va)
                == if va / PAGE == page / PAGE then Some(KeptLeaf(page, code))
                   else LeafOf(Made(old(memory.tables), root, pointers), root, 0, va)
      ensures Spent(old(frames.free), frames.free, memory.tables, root, window, ErrorOf(r))
    {
      hide Tree, Translate, LeafOf, Index, Keeping, Made, Left, OutOfReach;
      low' := low;
      PathStarts(page);
      KeepingRoot(memory.tables, root, pointers, low, before, memory.inUse);
      ghost var mem := memory.tables;
      var next;
      next, low' := KeepStep(page, 1, pointers, pointers, frames, low', before);
      ghost var free := frames.free;
      if next.Err? { return Err(next.error), low'; }
      ghost var middle := memory.tables;
      next, low' := KeepStep(page, 2, next.value, pointers, frames, low', before);
      SpentThen(old(frames.free), free, frames.free, memory.tables, root, window, ErrorOf(next));
      if next.Err? { return Err(next.error), low'; }
      KeepingAt(memory.tables, root, pointers, low', before, memory.inUse, Path(page)[..3], 0);
      KeepLeaf(memory.tables, root, pointers, low', before, memory.inUse, page, KeptLeaf(page, code));
      WriteAside(next.value, Index(page, 3), KeptLeaf(page, code));
      r := Ok(());
    }

    /** Maps every page that one range meets. */
    method KeepRange(keep: seq<MappedRange>, n: nat, pointers: nat, frames: Frames, ghost low: map<seq<nat>, nat>,
                     ghost before: set<nat>)
      returns (r: Result<(), MapError>, ghost low': map<seq<nat>, nat>)
      requires Valid() && frames.Valid(memory) && tab.Values <= before <= memory.inUse && leaked <= before
      requires n < |keep| && Keepable(keep[n])
      requires Keeping(memory.tables, root, pointers, low, before, memory.inUse)
      requires KeptAll(Made(memory.tables, root, pointers), root, keep, n)
      modifies this`leaked, memory, frames
      ensures Valid() && frames.Valid(memory) && Aside(old(memory.tables), before, memory.tables, memory.inUse)
      ensures r.Err? ==> r.error == OutOfFrames || r.error == TableFrameNotWritable
      ensures r.Ok? ==> leaked == old(leaked) && Keeping(memory.tables, root, pointers, low', before, memory.inUse)
      ensures r.Ok? ==> KeptAll(Made(memory.tables, root, pointers), root, keep, n + 1)
      ensures Spent(old(frames.free), frames.free, memory.tables, root, window, ErrorOf(r))
    {
      hide Tree, Translate, LeafOf, Keeping, Made, KeptAll, KeptTo, Left, OutOfReach;
      LeftAll(frames.free);
      var page, last := keep[n].start / PAGE * PAGE, (keep[n].End() - 1) / PAGE * PAGE;
      low' := low;
      KeptStarts(Made(memory.tables, root, pointers), root, keep, n);
      while page <= last
        invariant keep[n].start / PAGE * PAGE <= page && page % PAGE == 0 && Valid() && frames.Valid(memory)
        invariant leaked == old(leaked)
        invariant before <= memory.inUse && Aside(old(memory.tables), before, memory.tables, memory.inUse)
        invariant Keeping(memory.tables, root, pointers, low', before, memory.inUse)
        invariant KeptTo(Made(memory.tables, root, pointers), root, keep, n, page)
        invariant Left(old(frames.free), frames.free)
      {
        ghost var free := frames.free;
        ghost var made := Made(memory.tables, root, pointers);
        MeetsWithin(keep[n], page);
        r, low' := KeepPage(page, keep[n], pointers, frames, low', before);
        SpentThen(old(frames.free), free, frames.free, memory.tables, root, window, ErrorOf(r));
        if r.Err? { return; }
        KeptMore(made, Made(memory.tables, root, pointers), root, keep, n, page);
        page := page + PAGE;
      }
      KeptEnds(Made(memory.tables, root, pointers), root, keep, n, page);
      r := Ok(());
    }

    /** Leaves the lower half with the pages that `keep` meets, each mapped to itself as the last
        range that meets it says, and nothing else. On any error nothing translates differently;
        the kernel's half is what it was. */
    method KeepOnly(frames: Frames, keep: seq<MappedRange>) returns (r: Result<(), PagingError>)
      requires Valid() && frames.Valid(memory)
      modifies this`tab, this`taken, this`shared, this`leaked, memory, frames
      ensures Valid() && frames.Valid(memory)
      ensures r == Err(RequiredRangeOutsideIdentityMap) <==> exists k | 0 <= k < |keep| :: !Keepable(keep[k])
      ensures r.Err? ==> AllAsItWas(old(memory.tables), memory.tables, root)
      ensures r.Ok? ==> forall va: U64 | va < LOWER_END :: KeptMapped(memory.tables, root, keep, va)
      ensures r.Ok? ==> KeptAll(memory.tables, root, keep, |keep|)
      ensures KernelAsItWas(old(memory.tables), memory.tables, root)
      ensures RootSealed(old(memory.tables), root) ==> RootSealed(memory.tables, root)
      ensures r.Ok? ==> PlainLinks(memory.tables, tab, true)
      ensures PlainLinks(old(memory.tables), old(tab), false) ==> PlainLinks(memory.tables, tab, false)
      ensures r == Err(OutOfTableFrames) ==> frames.free == []
      ensures r == Err(FrameNotWritable) ==> OutOfReach(old(frames.free), old(memory.tables), root, window)
      ensures r.Ok? ==> LowerUnseen(memory.tables, root)
    {
      hide Tree, Translate, LeafOf, Keeping, KeptTo, KeptAll, KeptMapped, RootSealed, PutInPlace, With, Separate, Aside,
           LowerRoot, Halves, AllAsItWas, KernelAsItWas, PlainLinks,
           OutOfReach, Left, LowerUnseen;
      ghost var mem, before := memory.tables, memory.inUse;
      AllIsKernel(mem, memory.tables, root);
      AsideNothing(mem, before);
      RootIn(mem, root, tab);
      if exists k | 0 <= k < |keep| :: !Keepable(keep[k]) { return Err(RequiredRangeOutsideIdentityMap); }
      var pointers := NewTable(frames);
      AsideNew(mem, before, memory.tables, memory.inUse, if pointers.Ok? then pointers.value else 0);
      AsideSame(mem, before, memory.tables, memory.inUse, root, tab);
      ReachAsItWas(mem, memory.tables, root, window, old(frames.free));
      AllIsKernel(mem, memory.tables, root);
      if pointers.Err? { return Err(if pointers.error == OutOfFrames then OutOfTableFrames else FrameNotWritable); }
      ghost var low := With(Alone(root), 0, Alone(pointers.value));
      KeepingStarts(memory.tables, root, pointers.value, before, memory.inUse);
      KeptNone(Made(memory.tables, root, pointers.value), root, keep);
      var n := 0;
      while n < |keep|
        invariant n <= |keep| && Valid() && frames.Valid(memory) && leaked == old(leaked) && tab == old(tab)
        invariant before <= memory.inUse && Aside(mem, before, memory.tables, memory.inUse)
        invariant Keeping(memory.tables, root, pointers.value, low, before, memory.inUse)
        invariant KeptAll(Made(memory.tables, root, pointers.value), root, keep, n)
        invariant Left(old(frames.free), frames.free)
      {
        ghost var middle, used, free := memory.tables, memory.inUse, frames.free;
        var kept;
        kept, low := KeepRange(keep, n, pointers.value, frames, low, before);
        SpentThen(old(frames.free), free, frames.free, memory.tables, root, window, ErrorOf(kept));
        AsideAgain(mem, before, middle, used, memory.tables, memory.inUse);
        if kept.Err? {
          AsideSame(mem, before, memory.tables, memory.inUse, root, tab);
          ReachAsItWas(mem, memory.tables, root, window, old(frames.free));
          AllIsKernel(mem, memory.tables, root);
          return Err(if kept.error == OutOfFrames then OutOfTableFrames else FrameNotWritable);
        }
        n := n + 1;
      }
      AsideSame(mem, before, memory.tables, memory.inUse, root, tab);
      PutKept(pointers.value, keep, low, mem, before);
      r := Ok(());
    }

    /** The pages that were kept aside become the lower half of a space that is otherwise as it was
        in `mem`. */
    method PutKept(pointers: nat, ghost keep: seq<MappedRange>, ghost low: map<seq<nat>, nat>, ghost mem: Memory,
                   ghost before: set<nat>)
      requires Valid() && tab.Values <= before <= memory.inUse && leaked <= before
      requires Keeping(memory.tables, root, pointers, low, before, memory.inUse)
      requires KeptAll(Made(memory.tables, root, pointers), root, keep, |keep|)
      requires AllAsItWas(mem, memory.tables, root) && root in mem && root in memory.tables
      requires memory.tables[root] == mem[root]
      modifies this`tab, this`taken, this`shared, memory`tables
      ensures Valid() && memory.tables.Keys == old(memory.tables.Keys)
      ensures (forall va: U64 | va < LOWER_END :: KeptMapped(memory.tables, root, keep, va))
      ensures KeptAll(memory.tables, root, keep, |keep|)
      ensures KernelAsItWas(mem, memory.tables, root) && (RootSealed(mem, root) ==> RootSealed(memory.tables, root))
      ensures PlainLinks(memory.tables, tab, true)
      ensures PlainLinks(old(memory.tables), old(tab), false) ==> PlainLinks(memory.tables, tab, false)
      ensures LowerUnseen(memory.tables, root)
    {
      hide Tree, Translate, LeafOf, Keeping, KeptAll, KeptMapped, RootSealed, PutInPlace, Separate, LowerRoot, Halves,
           AllAsItWas,
           KernelAsItWas, PlainLinks, LowerUnseen;
      ghost var middle, tab0 := memory.tables, tab;
      RootIn(middle, root, tab);
      KeepingApart(middle, root, pointers, low, before, memory.inUse, tab, leaked);
      PutHalf(pointers, true, low);
      KeptHalves(middle, memory.tables, root, tab0, low, pointers, keep);
      KernelHalf(mem, middle, Made(middle, root, pointers), memory.tables, root, tab0, low);
      KeptUnseen(memory.tables, root, tab, keep);
    }

    /** A new tree for a process: an empty lower half and this one's higher half, shared. */
    method NewProcessSpace(frames: Frames) returns (r: Result<PageTables, MapError>)
      requires Valid() && frames.Valid(memory)
      modifies this`leaked, memory, frames
      ensures Valid() && frames.Valid(memory)
      ensures r.Err? ==> memory.tables == old(memory.tables)
      ensures r.Err? ==>
                || (r.error == OutOfFrames && old(frames.free) == [] == frames.free)
                || (r.error == TableFrameNotWritable && OutOfReach(old(frames.free), old(memory.tables), root, window))
      ensures r.Ok? ==> leaked == old(leaked) && old(frames.free) != [] && frames.free == old(frames.free)[1..]
      ensures r.Ok? ==>
                && fresh(r.value) && r.value.Valid() && r.value.memory == memory && r.value.window == window
                && r.value.root == old(frames.free)[0] && r.value.root !in old(memory.inUse) && r.value.leaked == {}
                && memory.inUse == old(memory.inUse) + {r.value.root}
                && r.value.taken == {r.value.root} && OwnLower(r.value.tab, r.value.taken, r.value.shared)
                && r.value.tab == Grafted(tab, r.value.root, KERNEL_SLOT)
                && PlainLinks(memory.tables, r.value.tab, true) && OpenLinks(memory.tables, r.value.tab)
                && (PlainLinks(old(memory.tables), tab, false) ==> PlainLinks(memory.tables, r.value.tab, false))
                && (RootSealed(old(memory.tables), root) ==> RootSealed(memory.tables, r.value.root))
                && (forall va: U64 :: Translate(memory.tables, r.value.root, va) ==
                     if va >= KERNEL_BASE then Translate(old(memory.tables), root, va) else None)
      ensures r.Ok? ==> memory.tables == old(memory.tables)[r.value.root := memory.tables[r.value.root]]
    {
      hide Tree, Translate, PlainLinks, OpenLinks, RootSealed, Grafted, GraftedShared, TookOver, OwnLower;
      var new' := NewTable(frames);
      if new'.Err? {
        return Err(new'.error);
      }
      CopySlots(new'.value, KERNEL_SLOT);
      assert memory.tables == old(memory.tables)[new'.value := memory.tables[new'.value]];
      ProcessSpace(old(memory.tables), memory.tables, root, new'.value, tab);
      ghost var shared', tab' := GraftedShared(tab, KERNEL_SLOT), Grafted(tab, new'.value, KERNEL_SLOT);
      var space := new PageTables(new'.value, memory, window, tab', {new'.value}, shared');
      r := Ok(space);
    }

    /** Offers back the page tables of one directory, and then the directory. */
    method OfferDirectory(directory: nat, ghost mem: Memory, ghost p: seq<nat>) returns (offered: seq<nat>)
      requires Tree(mem, root, tab) && p in tab && |p| == 2 && tab[p] == directory
      requires directory in memory.tables && directory in mem && memory.tables[directory] == mem[directory]
      ensures OnceEach(offered, Under(tab, p))
    {
      hide Tree, Under, UnderFirst, OnceEach;
      UnderWhole(mem, root, tab, p);
      OnceNone();
      offered := [];
      var index := 0;
      while index < ENTRIES
        invariant index <= ENTRIES && OnceEach(offered, UnderFirst(tab, p, index))
      {
        var entry := memory.tables[directory][index];
        UnderStep(mem, root, tab, p, index);
        TreeAt(mem, root, tab, p, index);
        if entry.present && !entry.huge {
          UnderWhole(mem, root, tab, p + [index]);
          OnceOne(entry.address);
          OnceConcat(offered, [entry.address], UnderFirst(tab, p, index), Under(tab, p + [index]));
          offered := offered + [entry.address];
        }
        index := index + 1;
      }
      OnceOne(directory);
      OnceConcat(offered, [directory], UnderFirst(tab, p, ENTRIES), {directory});
      offered := offered + [directory];
    }

    /** Offers back every table below one slot of the root. */
    method OfferPointers(pointers: nat, ghost mem: Memory, ghost p: seq<nat>) returns (offered: seq<nat>)
      requires Tree(mem, root, tab) && p in tab && |p| == 1 && tab[p] == pointers
      requires forall q | q in tab && q != [] ::
                 tab[q] in memory.tables && tab[q] in mem && memory.tables[tab[q]] == mem[tab[q]]
      ensures OnceEach(offered, Under(tab, p))
    {
      hide Tree, Under, UnderFirst, OnceEach;
      UnderWhole(mem, root, tab, p);
      OnceNone();
      offered := [];
      var index := 0;
      while index < ENTRIES
        invariant index <= ENTRIES && OnceEach(offered, UnderFirst(tab, p, index))
      {
        var entry := memory.tables[pointers][index];
        UnderStep(mem, root, tab, p, index);
        TreeAt(mem, root, tab, p, index);
        if entry.present && !entry.huge {
          assert p + [index] in tab && p + [index] != [];
          var more := OfferDirectory(entry.address, mem, p + [index]);
          OnceConcat(offered, more, UnderFirst(tab, p, index), Under(tab, p + [index]));
          offered := offered + more;
        }
        index := index + 1;
      }
      OnceOne(pointers);
      OnceConcat(offered, [pointers], UnderFirst(tab, p, ENTRIES), {pointers});
      offered := offered + [pointers];
    }

    /** Offers back the tables of the lower half and then the root, and answers how many of them
        `accept` took. The kernel's slots of the root are left as they are. */
    method FreeLowerHalf(accept: nat -> bool) returns (freed: nat, offered: seq<nat>)
      requires Valid()
      modifies memory`tables
      ensures OnceEach(offered, UnderFirst(tab, [], KERNEL_SLOT) + {root})
      ensures OwnLower(tab, taken, shared) ==> OnceEach(offered, taken)
      ensures freed == |Accepted(offered, accept)|
      ensures root in old(memory.tables) && root in memory.tables
      ensures memory.tables == old(memory.tables)[root := memory.tables[root]]
      ensures forall i | 0 <= i < ENTRIES ::
                && memory.tables[root][i] == if i < KERNEL_SLOT
                && old(memory.tables)[root][i].present then EMPTY else old(memory.tables)[root][i]
    {
      hide Tree, UnderFirst, OnceEach, Under;
      ghost var mem := memory.tables;
      RootAt(mem, root, tab);
      TreeTables(mem, root, tab);
      UnderWhole(mem, root, tab, []);
      OnceNone();
      offered := [];
      var slot := 0;
      while slot < KERNEL_SLOT
        invariant slot <= KERNEL_SLOT && root in memory.tables
        invariant OnceEach(offered, UnderFirst(tab, [], slot))
        invariant memory.tables == mem[root := memory.tables[root]]
        invariant forall i | 0 <= i < ENTRIES ::
                    memory.tables[root][i] == if i < slot && mem[root][i].present then EMPTY else mem[root][i]
      {
        var entry := memory.tables[root][slot];
        UnderStep(mem, root, tab, [], slot);
        TreeAt(mem, root, tab, [], slot);
        assert [] + [slot] == [slot];
        if entry.present {
          forall q | q in tab && q != [] ensures memory.tables[tab[q]] == mem[tab[q]] {
            TreeAt(mem, root, tab, [], 0);
          }
          var more := OfferPointers(entry.address, mem, [slot]);
          OnceConcat(offered, more, UnderFirst(tab, [], slot), Under(tab, [slot]));
          offered := offered + more;
          memory.Write(root, slot, EMPTY);
        }
        slot := slot + 1;
      }
      RootNotUnder(mem, root, tab);
      OnceOne(root);
      OnceConcat(offered, [root], UnderFirst(tab, [], KERNEL_SLOT), {root});
      offered := offered + [root];
      freed := CountAccepted(offered, accept);
      if OwnLower(tab, taken, shared) {
        OwnIsLower(mem, root, tab, taken, shared);
      }
    }

    /** Any run of maps, unmaps, rebuilds and windows of this space: no address of the kernel's half
        is ever reachable from ring 3, and every kernel page that was mapped and not unmapped again
        is its frame, to be written and run exactly as was asked. */
    method Run(operations: seq<Operation>, frames: Frames) returns (done: seq<bool>)
      requires Valid() && frames.Valid(memory) && RootSealed(memory.tables, root)
      requires PlainLinks(memory.tables, tab, false)
      requires forall i | 0 <= i < |operations| :: Sensible(operations[i])
      modifies this`tab, this`taken, this`shared, this`leaked, memory, frames
      ensures Valid() && KernelSealed(memory.tables, root) && |done| == |operations|
      ensures forall va: U64 | va >= KERNEL_BASE && va / PAGE * PAGE in Mapped(operations, done) ::
                var s := Mapped(operations, done)[va / PAGE * PAGE];
                Granted(memory.tables, root, va, s.0, s.1)
    {
      hide Tree, RootSealed, KernelSealed, PlainLinks, Stands, Granted;
      done := [];
      MappedNothing(memory.tables, root);
      for n := 0 to |operations|
        invariant Valid() && frames.Valid(memory) && RootSealed(memory.tables, root)
        invariant PlainLinks(memory.tables, tab, false)
        invariant |done| == n && Stands(memory.tables, root, Mapped(operations[..n], done))
      {
        assert Sensible(operations[n]);
        MappedMore(operations, n, done);
        var ok := Step(operations[n], frames, Mapped(operations[..n], done));
        done := done + [ok];
      }
      assert operations[..|operations|] == operations;
      SealedRootSealsKernel(memory.tables, root);
      forall va: U64 | va >= KERNEL_BASE && va / PAGE * PAGE in Mapped(operations, done)
        ensures var s := Mapped(operations, done)[va / PAGE * PAGE]; Granted(memory.tables, root, va, s.0, s.1)
      {
        StandsGrants(memory.tables, root, tab, Mapped(operations, done), va);
      }
    }

    /** One operation of a run. */
    method Step(operation: Operation, frames: Frames, ghost standing: Standing) returns (ok: bool)
      requires Valid() && frames.Valid(memory) && RootSealed(memory.tables, root)
      requires PlainLinks(memory.tables, tab, false)
      requires Sensible(operation) && Stands(memory.tables, root, standing)
      modifies this`tab, this`taken, this`shared, this`leaked, memory, frames
      ensures Valid() && frames.Valid(memory) && RootSealed(memory.tables, root)
      ensures PlainLinks(memory.tables, tab, false)
      ensures Stands(memory.tables, root, After(standing, operation, ok))
    {
      hide Tree, Translate, RootSealed, Accounted, SameTranslations, LeafOf, IdentityMapped, KeptAll, KeptMapped,
           PlainLinks, LinksWritable,
           Granted, Stands, WindowMapped;
      ghost var before, mem := Now(frames), memory.tables;
      match operation {
        case MapPage(page, frame, flags) =>
          var r := Map(page, frame, flags, frames);
          AccountedSealed(before, Now(frames), root, window, Path(page));
          ok := r.Ok?;
          if ok {
            StandsAfterMap(mem, memory.tables, root, standing, page, frame, flags);
          } else {
            StandsSame(mem, memory.tables, root, standing);
          }
        case UnmapPage(page) =>
          var r := Unmap(page);
          assert frames.Valid(memory);
          ok := r.Ok?;
          if ok { StandsElsewhere(mem, memory.tables, root, standing, page); }
        case Rebuild(limit, ranges) =>
          var r := RebuildIdentity(frames, limit, ranges);
          ok := r.Ok?;
          StandsAsItWas(mem, memory.tables, root, standing);
        case Keep(ranges) =>
          var r := KeepOnly(frames, ranges);
          ok := r.Ok?;
          StandsAsItWas(mem, memory.tables, root, standing);
        case Window(base, limit) =>
          var r := MapPhysicalWindow(frames, base, limit);
          ok := r.Ok?;
          if ok {
            StandsBesideWindow(mem, memory.tables, root, standing, base, limit);
          } else {
            AllIsKernel(mem, memory.tables, root);
            StandsAsItWas(mem, memory.tables, root, standing);
          }
      }
    }

    /** The whole life of a process space: it is made, any pages are mapped in it, successfully
        or not, and it is destroyed. What comes back is what went, frame by frame, and the
        kernel and every other space translate as they did. */
    method Life(frames: Frames, requests: seq<Request>, accept: nat -> bool)
      returns (made: bool, offered: seq<nat>, ghost lost: set<nat>)
      requires Valid() && frames.Valid(memory)
      requires forall i | 0 <= i < |requests| :: LowerRequest(requests[i])
      modifies this`leaked, memory, frames
      ensures Valid()
      ensures forall t | t in old(memory.inUse) && t in old(memory.tables) ::
                t in memory.tables && memory.tables[t] == old(memory.tables)[t]
      ensures SameTranslations(old(memory.tables), memory.tables, root)
      ensures made ==> OnceEach(offered, Elements(offered)) && lost !! Elements(offered)
      ensures made ==> Consumed(old(frames.free), frames.free, {}, Elements(offered) + lost)
      ensures made && window >= KERNEL_BASE
              && (forall i | 0 <= i < |old(frames.free)| ::
                    Reachable(old(memory.tables), root, window, old(frames.free)[i])) ==>
                lost == {}
    {
      hide Tree, Translate, Reachable, Consumed, PlainLinks, RootSealed, OnceEach, Grafted, Living, OwnLower;
      made, offered, lost := false, [], {};
      ghost var mem0, free0 := memory.tables, frames.free;
      ghost var birth := Birth(mem0, root, memory.inUse, free0);
      SameAsItself(mem0, root);
      TreeTables(mem0, root, tab);
      assert forall p | p in tab :: tab[p] in tab.Values;
      var space := NewProcessSpace(frames);
      if space.Err? {
        return;
      }
      Born(birth, space.value.Now(frames), space.value.root, space.value.shared, window);
      made := true;
      offered, lost := space.value.LiveAndDie(requests, frames, accept, birth);
      OutsideTree(mem0, memory.tables, root, tab);
    }

    /** The life of this space from its first page on, and its end. */
    method LiveAndDie(requests: seq<Request>, frames: Frames, accept: nat -> bool, ghost birth: Birth)
      returns (offered: seq<nat>, ghost lost: set<nat>)
      requires Valid() && frames.Valid(memory) && Living(birth, Now(frames), root, shared, window)
      requires forall i | 0 <= i < |requests| :: LowerRequest(requests[i])
      modifies this`tab, this`taken, this`leaked, memory, frames
      ensures OnceEach(offered, Elements(offered)) && lost !! Elements(offered)
      ensures Consumed(birth.free, frames.free, {}, Elements(offered) + lost)
      ensures birth.inUse <= memory.inUse
      ensures forall t | t in birth.inUse && t in birth.mem :: t in memory.tables && memory.tables[t] == birth.mem[t]
      ensures lost != {} && window >= KERNEL_BASE ==>
                exists k | 0 <= k < |birth.free| :: !Reachable(birth.mem, birth.root, window, birth.free[k])
    {
      hide Tree, Translate, Reachable, Consumed, OnceEach, Living, OwnLower;
      MapAll(requests, frames, birth);
      LivingApart(birth, Now(frames), root, shared, window);
      lost := leaked;
      RootAt(memory.tables, root, tab);
      RootIsTaken(tab, taken, shared);
      var freed;
      freed, offered := FreeLowerHalf(accept);
      OnceElements(offered, taken);
    }

    /** Maps page after page of the lower half, whatever each one's answer. */
    method MapAll(requests: seq<Request>, frames: Frames, ghost birth: Birth)
      requires Valid() && frames.Valid(memory) && Living(birth, Now(frames), root, shared, window)
      requires forall i | 0 <= i < |requests| :: LowerRequest(requests[i])
      modifies this`tab, this`taken, this`leaked, memory, frames
      ensures Valid() && frames.Valid(memory) && Living(birth, Now(frames), root, shared, window)
    {
      hide Tree, Translate, Living, Accounted;
      var i := 0;
      while i < |requests|
        invariant i <= |requests| && Valid() && frames.Valid(memory) && Living(birth, Now(frames), root, shared, window)
      {
        ghost var before := Now(frames);
        assert LowerRequest(requests[i]);
        var r := Map(requests[i].page, requests[i].frame, requests[i].flags, frames);
        KernelHalfKept(before.mem, memory.tables, root, requests[i].page);
        LivesOn(birth, before, Now(frames), root, shared, window, requests[i].page);
        i := i + 1;
      }
    }
  }
}
