/** Building a process out of a program file: `Building`, `load` and `spawn_elf` of
    kernel/src/process.rs. The bytes behind a page are those of its frame; a frame arrives zeroed,
    and one that was handed out is never handed out again. */
module Loader {
  import opened Bytes
  import opened Paging
  import opened PagingSteps
  import opened PageTables
  import opened Elf
  import opened Loading

  datatype SpawnError =
    | OutOfMemory
    | NoSpace(space: MapError)
    | Mapping(mapping: MapError)
    | TooManyRanges
    | TooManyFrames
    | SegmentsShareAPage(page: nat)

  class Building {
    const space: PageTables
    /** What is in the frames behind the program's pages. */
    var bytes: map<nat, PageBytes>
    var owned: seq<Option<Range>>
    var writable: seq<Option<Range>>
    var taken: seq<nat>
    ghost var placed: map<nat, Placed>

    ghost predicate Valid(frames: Frames)
      reads this, space, space.memory, frames
    {
      && space.Valid() && frames.Valid(space.memory)
      && OpenLinks(space.memory.tables, space.tab)
      && Maps(space.memory.tables, space.root, placed) && PagesOk(placed, bytes)
      && (forall i | 0 <= i < |frames.free| :: frames.free[i] !in bytes)
      && |owned| == |writable| <= MAX_RANGES && |taken| <= MAX_FRAMES
      && RangesPlaced(placed, owned, false) && RangesPlaced(placed, writable, true)
    }

    /** Around a space with nothing in its lower half. */
    constructor (space: PageTables, frames: Frames)
      requires space.Valid() && frames.Valid(space.memory) && OpenLinks(space.memory.tables, space.tab)
      requires forall va: U64 | va < LOWER_END :: LeafOf(space.memory.tables, space.root, 0, va) == None
      ensures Valid(frames) && this.space == space && owned == [] && writable == [] && placed == map[] && taken == []
    {
      this.space := space;
      bytes, owned, writable, taken := map[], [], [], [];
      placed := map[];
    }

    /** A range becomes the process's, and whether it may write it is said with it. */
    method Own(range: Range, mayWrite: bool, frames: Frames) returns (r: Result<(), SpawnError>)
      requires Valid(frames) && range.End() <= LOWER_END && RangePlaced(placed, range, mayWrite)
      modifies this`owned, this`writable
      ensures Valid(frames)
      ensures r == Err(TooManyRanges) <==> |old(owned)| == MAX_RANGES
      ensures r.Err? ==> r.error == TooManyRanges && owned == old(owned) && writable == old(writable)
      ensures r.Ok? ==>
                && owned == old(owned) + [Some(range)]
                && writable == old(writable) + [if mayWrite then Some(range) else None]
    {
      hide Maps, PagesOk, OpenLinks, Tree;
      if |owned| == MAX_RANGES { return Err(TooManyRanges); }
      assert RangePlaced(placed, range, false);
      owned := owned + [Some(range)];
      writable := writable + [if mayWrite then Some(range) else None];
      return Ok(());
    }

    /** One page: a frame for it, `image` in the frame, and the mapping. */
    method PlacePage(page: U64, flags: PageFlags, image: PageBytes, frames: Frames)
      returns (r: Result<(), SpawnError>, ghost frame: nat)
      requires Valid(frames) && page % PAGE == 0 && page < LOWER_END && flags.user
      requires !(flags.writable && flags.executable)
      modifies this`bytes, this`taken, this`placed, space`tab, space`taken, space`leaked, space.memory, frames
      ensures space.Valid() && frames.Valid(space.memory) && owned == old(owned) && writable == old(writable)
      ensures r.Ok? ==>
                && Valid(frames) && page !in old(placed) && placed == old(placed)[page := Placed(frame, flags, image)]
                && Grew(old(placed), placed)
      ensures r.Ok? ==>
                && |taken| == |old(taken)| + 1 && Left(old(frames.free), frames.free)
                && |old(frames.free)| <= |frames.free| + 4
                && ReachKept(old(space.memory.tables), space.memory.tables, space.root, space.window)
      ensures r.Err? ==>
                PageRefused(r.error, page, old(placed), |old(taken)|, old(frames.free), frames.free,
                            old(space.memory.tables), space.root, space.window)
    {
      hide Maps, PagesOk, OpenLinks, Tree, RangesPlaced, Translate, LeafOf, Accounted, LinksWritable, Reachable,
           OutOfReach, ReachKept, Left;
      frame := 0;
      var got := frames.Allocate(space.memory);
      if got.None? { return Err(OutOfMemory), 0; }
      if |taken| == MAX_FRAMES { return Err(TooManyFrames), 0; }
      taken := taken + [got.value];
      frame := got.value;
      ghost var before, was := space.memory.tables, placed;
      ghost var p := Placed(got.value, flags, image);
      PagesGrow(placed, bytes, page, p);
      bytes := bytes[got.value := image];
      ghost var rest := frames.free;
      var mapped := MapPage(page, got.value, flags, frames, p);
      OutOfReachBefore(old(frames.free), before, space.root, space.window);
      if mapped.Err? { return Err(Mapping(mapped.error)), frame; }
      LeftOne(old(frames.free), rest, frames.free);
      placed := was[page := p];
      RangesStay(was, placed, owned, false);
      RangesStay(was, placed, writable, true);
      return Ok(()), frame;
    }

    /** The mapping of a page whose frame is at hand. */
    method MapPage(page: U64, frame: nat, flags: PageFlags, frames: Frames, ghost p: Placed)
      returns (r: Result<(), MapError>)
      requires space.Valid() && frames.Valid(space.memory) && OpenLinks(space.memory.tables, space.tab)
      requires Maps(space.memory.tables, space.root, placed) && p.frame == frame && p.flags == flags
      requires page % PAGE == 0 && page < LOWER_END && flags.user && frame % PAGE == 0
      modifies space`tab, space`taken, space`leaked, space.memory, frames
      ensures space.Valid() && frames.Valid(space.memory)
      ensures r.Ok? ==>
                && page !in placed && OpenLinks(space.memory.tables, space.tab)
                && Maps(space.memory.tables, space.root, placed[page := p])
      ensures r.Ok? ==>
                && Left(old(frames.free), frames.free) && |old(frames.free)| <= |frames.free| + 3
                && (forall i | 0 <= i < |frames.free| :: frames.free[i] in old(frames.free))
                && ReachKept(old(space.memory.tables), space.memory.tables, space.root, space.window)
      ensures r.Err? ==>
                || (r.error == OutOfFrames && |old(frames.free)| <= 2 && frames.free == [])
                || (r.error == TableFrameNotWritable
                    && OutOfReach(old(frames.free), old(space.memory.tables), space.root, space.window))
                || (r.error == AlreadyMapped && page in placed)
    {
      hide Maps, OpenLinks, Tree, Translate, LeafOf, Accounted, LinksWritable, Reachable, OutOfReach, ReachKept, Left;
      ghost var before, start := space.memory.tables, space.Now(frames);
      MappedIsPlaced(before, space.root, space.tab, placed, page);
      r := space.Map(page, frame, flags, frames);
      if r.Err? { return; }
      NotPlaced(before, space.root, placed, page);
      NewPageKeepsReach(before, space.memory.tables, space.root, space.window, placed, page);
      MapsMore(before, space.memory.tables, space.root, placed, page, p);
      AccountedOpen(start, space.Now(frames), space.root, space.window, Path(page));
      AccountedLeft(start, space.Now(frames), space.root, space.window, Path(page));
    }

    /** The pages of one segment, each with what the file carries of it, and then the range. */
    method LoadSegment(s: Segment, file: seq<Byte>, userSpaceEnd: U64, frames: Frames)
      returns (r: Result<(), SpawnError>)
      requires Valid(frames) && SegmentOk(file, userSpaceEnd, s) && userSpaceEnd <= LOWER_END
      modifies this`bytes, this`taken, this`placed, this`owned, this`writable, space`tab, space`taken, space`leaked,
               space.memory, frames
      ensures space.Valid() && frames.Valid(space.memory)
      ensures r.Ok? ==>
                && Valid(frames) && Grew(old(placed), placed) && InFile(file, s)
                && SegmentPlaced(placed, file, s, LOWER_END)
      ensures r.Ok? ==> s.End() <= LOWER_END && AddsPagesOf(old(placed), placed, s, LOWER_END)
      ensures r.Ok? ==> owned == old(owned) + [Some(Range(s.at, s.memorySize))]
      ensures r.Ok? ==> writable == old(writable) + [if s.Writable() then Some(Range(s.at, s.memorySize)) else None]
      ensures r.Ok? ==>
                && |taken| == |old(taken)| + PagesOf(s) && Left(old(frames.free), frames.free)
                && |old(frames.free)| <= |frames.free| + 4 * PagesOf(s)
                && ReachKept(old(space.memory.tables), space.memory.tables, space.root, space.window)
      ensures r.Err? ==>
                SegmentNotLoaded(r.error, s, old(placed), |old(taken)|, |old(owned)|, old(frames.free), frames.free,
                               old(space.memory.tables), space.root, space.window)
    {
      hide Maps, PagesOk, OpenLinks, Tree, RangesPlaced, SegmentPlaced, PageImage, RangePlaced, AddsPagesOf, ReachKept,
           Left, PageRefused, SegmentNotLoaded;
      ghost var mem, free := space.memory.tables, frames.free;
      ReachKeptAll(mem, space.root, space.window);
      LeftAll(free);
      ghost var done := 0;
      var page, last := s.at / PAGE * PAGE, (s.End() - 1) / PAGE * PAGE;
      NonePlaced(placed, file, s);
      AddsNone(placed, s);
      while page <= last
        invariant s.at / PAGE * PAGE <= page && page % PAGE == 0 && page <= LOWER_END && Valid(frames)
        invariant Grew(old(placed), placed) && owned == old(owned) && writable == old(writable)
        invariant SegmentPlaced(placed, file, s, page) && AddsPagesOf(old(placed), placed, s, page)
        invariant page == s.at / PAGE * PAGE + PAGE * done && done <= PagesOf(s) && |taken| == |old(taken)| + done
        invariant Left(free, frames.free) && |free| <= |frames.free| + 4 * done
        invariant ReachKept(mem, space.memory.tables, space.root, space.window)
        decreases last + PAGE - page
      {
        var image := MakeImage(file, s, page);
        ghost var before, frame := placed, 0;
        ghost var middle, rest := space.memory.tables, frames.free;
        r, frame := PlacePage(page, UserFlags(s.Writable(), s.Executable()), image, frames);
        PagesBefore(s, page, done);
        if r.Err? {
          RefusedThere(r.error, s, page, done, old(placed), before, |old(taken)|, |old(owned)|, free, rest, frames.free,
                       mem, middle, space.root, space.window);
          if r.error == Mapping(AlreadyMapped) { r := Err(SegmentsShareAPage(page)); }
          return;
        }
        SegmentGrows(before, placed, file, s, page, frame);
        AddsOne(old(placed), before, placed, s, page);
        LeftThen(free, rest, frames.free);
        ReachKeptThen(mem, middle, space.memory.tables, space.root, space.window);
        done := done + 1;
        page := page + PAGE;
      }
      PagesDone(s, page, done);
      AllPlaced(placed, file, s, page);
      AddsAll(old(placed), placed, s, page);
      RangeOfSegment(placed, file, s);
      r := Own(Range(s.at, s.memorySize), s.Writable(), frames);
      RangesRefused(s, old(placed), |old(taken)|, |old(owned)|, free, frames.free, mem, space.root, space.window);
    }

    /** Every segment, in order, and a page of stack. */
    method Load(program: Program, file: seq<Byte>, userSpaceEnd: U64, frames: Frames)
      returns (r: Result<(), SpawnError>)
      requires Valid(frames) && userSpaceEnd <= LOWER_END
      requires owned == [] && writable == [] && placed == map[] && taken == []
      requires forall k | 0 <= k < |program.segments| :: SegmentOk(file, userSpaceEnd, program.segments[k])
      modifies this`bytes, this`taken, this`placed, this`owned, this`writable, space`tab, space`taken, space`leaked,
               space.memory, frames
      ensures space.Valid() && frames.Valid(space.memory)
      ensures r.Ok? ==> Valid(frames) && AllSegmentsPlaced(placed, file, program.segments, |program.segments|)
      ensures r.Ok? ==>
                forall page: nat ::
                  page in placed <==> page == STACK_BASE || InSegments(program.segments, |program.segments|, page)
      ensures r.Ok? ==> owned == RangesOf(program.segments) + [Some(Range(STACK_BASE, PAGE))]
      ensures r.Ok? ==> writable == WritableOf(program.segments) + [Some(Range(STACK_BASE, PAGE))]
      ensures r.Ok? ==> Fits(program.segments) && StackPlaced(placed)
      ensures r.Err? ==>
                LoadRefused(r.error, program.segments, old(frames.free), old(space.memory.tables), space.root,
                            space.window)
                && (r.error == OutOfMemory || r.error == Mapping(OutOfFrames) ==> frames.free == [])
    {
      hide Maps, PagesOk, OpenLinks, Tree, RangesPlaced, SegmentPlaced, RangePlaced, SegmentOk, ReachKept, Left,
           PageRefused, LoadRefused, SegmentsApart, InSegments, PagesIn, Fits;
      ghost var mem, free := space.memory.tables, frames.free;
      r := LoadSegments(program, file, userSpaceEnd, frames);
      if r.Err? { return; }
      ghost var before, frame := placed, 0;
      ghost var middle, rest := space.memory.tables, frames.free;
      r, frame := PlacePage(STACK_BASE, UserFlags(true, false), seq(PAGE, _ => 0), frames);
      if r.Err? {
        StackRefusesLoad(r.error, program.segments, before, free, rest, frames.free, mem, middle, space.root,
                         space.window);
        return;
      }
      ItFits(program.segments, before);
      AllKept(before, placed, file, userSpaceEnd, program.segments, |program.segments|);
      RangeOfPage(placed, STACK_BASE);
      r := Own(Range(STACK_BASE, PAGE), true, frames);
      RangesRefuseLoad(program.segments, free, mem, space.root, space.window);
    }

    /** The segments alone. */
    method LoadSegments(program: Program, file: seq<Byte>, userSpaceEnd: U64, frames: Frames)
      returns (r: Result<(), SpawnError>)
      requires Valid(frames) && userSpaceEnd <= LOWER_END
      requires owned == [] && writable == [] && placed == map[] && taken == []
      requires forall k | 0 <= k < |program.segments| :: SegmentOk(file, userSpaceEnd, program.segments[k])
      modifies this`bytes, this`taken, this`placed, this`owned, this`writable, space`tab, space`taken, space`leaked,
               space.memory, frames
      ensures space.Valid() && frames.Valid(space.memory)
      ensures r.Ok? ==> Valid(frames) && AllSegmentsPlaced(placed, file, program.segments, |program.segments|)
      ensures r.Ok? ==>
                forall page: nat :: page in placed <==> InSegments(program.segments, |program.segments|, page)
      ensures r.Ok? ==> owned == RangesOf(program.segments) && writable == WritableOf(program.segments)
      ensures r.Ok? ==>
                && |taken| == PagesIn(program.segments, |program.segments|)
                && SegmentsApart(program.segments, |program.segments|)
                && Left(old(frames.free), frames.free)
                && |old(frames.free)| <= |frames.free| + 4 * PagesIn(program.segments, |program.segments|)
                && ReachKept(old(space.memory.tables), space.memory.tables, space.root, space.window)
      ensures r.Err? ==>
                LoadRefused(r.error, program.segments, old(frames.free), old(space.memory.tables), space.root,
                            space.window)
                && (r.error == OutOfMemory || r.error == Mapping(OutOfFrames) ==> frames.free == [])
    {
      hide Maps, PagesOk, OpenLinks, Tree, RangesPlaced, SegmentPlaced, RangePlaced, SegmentOk, AddsPagesOf, ReachKept,
           Left, PageRefused, SegmentNotLoaded, LoadRefused, MeetsPage, PagesOf, SegmentsApart;
      ghost var mem, free := space.memory.tables, frames.free;
      ReachKeptAll(mem, space.root, space.window);
      LeftAll(free);
      NoneShared(program.segments);
      for n := 0 to |program.segments|
        invariant Valid(frames) && AllSegmentsPlaced(placed, file, program.segments, n)
        invariant |owned| == n && |taken| == PagesIn(program.segments, n) && SegmentsApart(program.segments, n)
        invariant Left(free, frames.free) && |free| <= |frames.free| + 4 * PagesIn(program.segments, n)
        invariant ReachKept(mem, space.memory.tables, space.root, space.window)
        invariant forall page: nat :: page in placed <==> InSegments(program.segments, n, page)
        invariant owned == RangesOf(program.segments[..n]) && writable == WritableOf(program.segments[..n])
      {
        ghost var before, middle, rest := placed, space.memory.tables, frames.free;
        r := LoadSegment(program.segments[n], file, userSpaceEnd, frames);
        PagesInMore(program.segments, n + 1);
        if r.Err? {
          SegmentRefusesLoad(r.error, program.segments, n, before, free, rest, frames.free, mem, middle, space.root,
                             space.window);
          return;
        }
        LeftThen(free, rest, frames.free);
        ReachKeptThen(mem, middle, space.memory.tables, space.root, space.window);
        StillApart(before, placed, program.segments, n);
        AllStay(before, placed, file, userSpaceEnd, program.segments, n);
        InOneMore(before, placed, program.segments, n);
        RangesOfMore(program.segments, n);
      }
      assert program.segments[..|program.segments|] == program.segments;
      r := Ok(());
    }
  }

  /** What was in reach of the window still is. */
  ghost predicate ReachKept(mem: Memory, mem': Memory, root: nat, window: nat) {
    forall f: nat | Reachable(mem, root, window, f) :: Reachable(mem', root, window, f)
  }

  lemma {:induction false} ReachKeptAll(mem: Memory, root: nat, window: nat)
    ensures ReachKept(mem, mem, root, window)
  {
  }

  lemma {:induction false} ReachKeptThen(mem: Memory, mem': Memory, mem'': Memory, root: nat, window: nat)
    requires ReachKept(mem, mem', root, window) && ReachKept(mem', mem'', root, window)
    ensures ReachKept(mem, mem'', root, window)
  {
    hide Reachable;
  }

  /** Why one page was not placed: no frame is left, or the tables on its way took the last; a table's
      frame is out of reach; thirty-two frames are taken; or the page is placed already. */
  ghost predicate PageRefused(error: SpawnError, page: nat, placed: map<nat, Placed>, taken: nat, free: seq<nat>,
                              free': seq<nat>, mem: Memory, root: nat, window: nat) {
    match error
    case OutOfMemory => free == [] == free'
    case Mapping(OutOfFrames) => |free| < 4 && free' == []
    case Mapping(TableFrameNotWritable) => OutOfReach(free, mem, root, window)
    case Mapping(AlreadyMapped) => page in placed
    case TooManyFrames => taken == MAX_FRAMES
    case _ => false
  }

  /** How many pages hold some of the segment. */
  function PagesOf(s: Segment): nat {
    if s.memorySize == 0 then 0 else (s.End() - 1) / PAGE - s.at / PAGE + 1
  }

  function PagesIn(segments: seq<Segment>, n: nat): nat
    requires n <= |segments|
  {
    if n == 0 then 0 else PagesIn(segments, n - 1) + PagesOf(segments[n - 1])
  }

  /** Why a segment was not loaded. */
  ghost predicate SegmentNotLoaded(error: SpawnError, s: Segment, placed: map<nat, Placed>, taken: nat, owned: nat,
                                 free: seq<nat>, free': seq<nat>, mem: Memory, root: nat, window: nat) {
    match error
    case OutOfMemory | Mapping(OutOfFrames) => |free| < 4 * PagesOf(s) && free' == []
    case Mapping(TableFrameNotWritable) => OutOfReach(free, mem, root, window)
    case TooManyFrames => taken + PagesOf(s) > MAX_FRAMES
    case SegmentsShareAPage(page) => MeetsPage(s, page) && page in placed
    case TooManyRanges => owned == MAX_RANGES
    case _ => false
  }

  /** No two of the first `n` segments have a page in common. */
  ghost predicate SegmentsApart(segments: seq<Segment>, n: nat) {
    forall i, k, page: nat | 0 <= i < k < n && k < |segments| && MeetsPage(segments[i], page) ::
      !MeetsPage(segments[k], page)
  }

  /** The program fits: no page belongs to two segments, or to one and the stack, and the pages and the
      stack are no more than the frames a process may take. */
  ghost predicate Fits(segments: seq<Segment>) {
    && SegmentsApart(segments, |segments|) && !InSegments(segments, |segments|, STACK_BASE)
    && PagesIn(segments, |segments|) + 1 <= MAX_FRAMES && |segments| + 1 <= MAX_RANGES
  }

  /** Why a program was not loaded, said of its segments and of the frames there were: too few for
      every page to have one and three tables; one out of reach; too many pages; a page of two
      segments; a page of a segment and the stack. */
  ghost predicate LoadRefused(error: SpawnError, segments: seq<Segment>, free: seq<nat>, mem: Memory, root: nat,
                              window: nat) {
    match error
    case OutOfMemory | Mapping(OutOfFrames) => |free| < 4 * (PagesIn(segments, |segments|) + 1)
    case Mapping(TableFrameNotWritable) => OutOfReach(free, mem, root, window)
    case TooManyFrames => PagesIn(segments, |segments|) + 1 > MAX_FRAMES
    case SegmentsShareAPage(page) =>
      exists i, k | 0 <= i < k < |segments| :: MeetsPage(segments[i], page) && MeetsPage(segments[k], page)
    case Mapping(AlreadyMapped) => InSegments(segments, |segments|, STACK_BASE)
    case TooManyRanges => |segments| + 1 > MAX_RANGES
    case _ => false
  }

  lemma {:induction false} NoneShared(segments: seq<Segment>)
    ensures SegmentsApart(segments, 0)
  {
  }

  lemma {:induction false} StillApart(placed: map<nat, Placed>, placed': map<nat, Placed>, segments: seq<Segment>,
                                      n: nat)
    requires n < |segments| && SegmentsApart(segments, n) && AddsPagesOf(placed, placed', segments[n], LOWER_END)
    requires segments[n].End() <= LOWER_END
    requires forall page: nat :: page in placed <==> InSegments(segments, n, page)
    ensures SegmentsApart(segments, n + 1)
  {
    hide MeetsPage;
    forall i, k, page: nat | 0 <= i < k < n + 1 && MeetsPage(segments[i], page) ensures !MeetsPage(segments[k], page) {
      if k == n {
        assert InSegments(segments, n, page);
        Below(segments[n], page);
      }
    }
  }

  lemma {:induction false} ItFits(segments: seq<Segment>, placed: map<nat, Placed>)
    requires SegmentsApart(segments, |segments|) && STACK_BASE !in placed
    requires forall page: nat :: page in placed <==> InSegments(segments, |segments|, page)
    ensures PagesIn(segments, |segments|) + 1 <= MAX_FRAMES && |segments| + 1 <= MAX_RANGES ==> Fits(segments)
  {
  }

  lemma {:induction false} PagesInMore(segments: seq<Segment>, n: nat)
    requires n <= |segments|
    ensures PagesIn(segments, n) <= PagesIn(segments, |segments|)
    decreases |segments| - n
  {
    if n < |segments| { PagesInMore(segments, n + 1); }
  }

  /** What stopped one segment stopped the program. */
  lemma {:induction false} SegmentRefusesLoad(error: SpawnError, segments: seq<Segment>, n: nat,
                                              placed: map<nat, Placed>, free: seq<nat>, rest: seq<nat>,
                                              free': seq<nat>, mem: Memory, mem': Memory, root: nat, window: nat)
    requires n < |segments| && Left(free, rest) && |free| <= |rest| + 4 * PagesIn(segments, n)
    requires SegmentNotLoaded(error, segments[n], placed, PagesIn(segments, n), n, rest, free', mem', root, window)
    requires ReachKept(mem, mem', root, window) && forall page: nat :: page in placed <==> InSegments(segments, n, page)
    requires PagesIn(segments, n + 1) <= PagesIn(segments, |segments|)
    ensures LoadRefused(error, segments, free, mem, root, window)
    ensures error == OutOfMemory || error == Mapping(OutOfFrames) ==> free' == []
  {
    hide Reachable, MeetsPage, PagesOf;
    if error == Mapping(TableFrameNotWritable) {
      var i :| 0 <= i < |rest| && !Reachable(mem', root, window, rest[i]);
      assert free[|free| - |rest| + i] == rest[i];
    }
  }

  lemma {:induction false} StackRefusesLoad(error: SpawnError, segments: seq<Segment>, placed: map<nat, Placed>,
                                            free: seq<nat>, rest: seq<nat>, free': seq<nat>, mem: Memory, mem': Memory,
                                            root: nat, window: nat)
    requires Left(free, rest) && |free| <= |rest| + 4 * PagesIn(segments, |segments|)
    requires PageRefused(error, STACK_BASE, placed, PagesIn(segments, |segments|), rest, free', mem', root, window)
    requires ReachKept(mem, mem', root, window)
    requires forall page: nat :: page in placed <==> InSegments(segments, |segments|, page)
    ensures LoadRefused(error, segments, free, mem, root, window)
    ensures error == OutOfMemory || error == Mapping(OutOfFrames) ==> free' == []
  {
    hide Reachable, MeetsPage, PagesOf;
    if error == Mapping(TableFrameNotWritable) {
      var i :| 0 <= i < |rest| && !Reachable(mem', root, window, rest[i]);
      assert free[|free| - |rest| + i] == rest[i];
    }
  }

  lemma {:induction false} RangesRefuseLoad(segments: seq<Segment>, free: seq<nat>, mem: Memory, root: nat, window: nat)
    ensures |segments| + 1 > MAX_RANGES ==> LoadRefused(TooManyRanges, segments, free, mem, root, window)
  {
  }

  lemma {:induction false} RangesRefused(s: Segment, placed: map<nat, Placed>, taken: nat, owned: nat, free: seq<nat>,
                                         free': seq<nat>, mem: Memory, root: nat, window: nat)
    ensures owned == MAX_RANGES ==>
              SegmentNotLoaded(TooManyRanges, s, placed, taken, owned, free, free', mem, root, window)
  {
  }

  /** A page that could not be placed refuses its segment. */
  lemma {:induction false} RefusedThere(error: SpawnError, s: Segment, page: nat, done: nat, placed: map<nat, Placed>,
                                        placed': map<nat, Placed>, taken: nat, owned: nat, free: seq<nat>,
                                        rest: seq<nat>, free': seq<nat>, mem: Memory, mem': Memory, root: nat,
                                        window: nat)
    requires PageRefused(error, page, placed', taken + done, rest, free', mem', root, window)
    requires done < PagesOf(s) && MeetsPage(s, page) && AddsPagesOf(placed, placed', s, page)
    requires Left(free, rest) && |free| <= |rest| + 4 * done && ReachKept(mem, mem', root, window)
    ensures var why := if error == Mapping(AlreadyMapped) then SegmentsShareAPage(page) else error;
            SegmentNotLoaded(why, s, placed, taken, owned, free, free', mem, root, window)
  {
    hide Reachable, PagesOf;
    if error == Mapping(TableFrameNotWritable) {
      var i :| 0 <= i < |rest| && !Reachable(mem', root, window, rest[i]);
      assert free[|free| - |rest| + i] == rest[i];
    }
  }

  lemma {:induction false} PagesBefore(s: Segment, page: nat, done: nat)
    requires s.memorySize > 0 && page == s.at / PAGE * PAGE + PAGE * done && page <= (s.End() - 1) / PAGE * PAGE
    ensures done < PagesOf(s) && MeetsPage(s, page)
  {
  }

  lemma {:induction false} PagesDone(s: Segment, page: nat, done: nat)
    requires s.memorySize > 0 && page == s.at / PAGE * PAGE + PAGE * done && done <= PagesOf(s)
    requires page > (s.End() - 1) / PAGE * PAGE
    ensures done == PagesOf(s)
  {
  }

  lemma {:induction false} MappedIsPlaced(mem: Memory, root: nat, tab: map<seq<nat>, nat>, placed: map<nat, Placed>,
                                          page: U64)
    requires Tree(mem, root, tab) && OpenLinks(mem, tab) && Maps(mem, root, placed) && page < LOWER_END
    requires page % PAGE == 0
    ensures Translate(mem, root, page).Some? ==>
              page in placed && Translate(mem, root, page).value.pageSize == PAGE
  {
    assert PageOf(page) == page;
    assert LeafOf(mem, root, 0, page) == Expected(placed, PageOf(page));
    hide Tree, OpenLinks, Maps, LeafOf, Translate, UserWalk, Executes;
    LeafGrants(mem, root, tab, page);
  }

  lemma {:induction false} OutOfReachBefore(free: seq<nat>, mem: Memory, root: nat, window: nat)
    ensures free != [] && OutOfReach(free[1..], mem, root, window) ==> OutOfReach(free, mem, root, window)
  {
    hide Reachable;
    if free != [] && OutOfReach(free[1..], mem, root, window) {
      var i :| 0 <= i < |free| - 1 && !Reachable(mem, root, window, free[1..][i]);
      assert free[i + 1] == free[1..][i];
    }
  }

  lemma {:induction false} LeftOne(free: seq<nat>, rest: seq<nat>, free': seq<nat>)
    requires free != [] && rest == free[1..] && Left(rest, free')
    ensures Left(free, free')
  {
    LeftThen(free, rest, free');
  }

  lemma {:induction false} AccountedLeft(s: Moment, s': Moment, root: nat, window: nat, path: seq<nat>)
    requires Accounted(s, s', root, window, path)
    ensures Left(s.free, s'.free)
  {
    hide Untouched, Took, Reachable, RootSealed, PlainLinks, OpenLinks;
  }

  /** A page that was mapped where nothing was takes nothing out of reach. */
  lemma {:induction false} NewPageKeepsReach(mem: Memory, mem': Memory, root: nat, window: nat,
                                             placed: map<nat, Placed>, page: U64)
    requires Maps(mem, root, placed) && page !in placed && page % PAGE == 0 && page < LOWER_END
    requires forall va: U64 | !(IsCanonical(va) && va / PAGE == page / PAGE) ::
               Translate(mem', root, va) == Translate(mem, root, va)
    ensures ReachKept(mem, mem', root, window)
  {
    hide LeafOf, Walk;
    forall f: nat | Reachable(mem, root, window, f) ensures Reachable(mem', root, window, f) {
      var va: U64 := window + f;
      if IsCanonical(va) && va / PAGE == page / PAGE {
        assert PageOf(va) == page;
        assert LeafOf(mem, root, 0, va) == Expected(placed, PageOf(va));
        NoLeaf(mem, root, 0, va, true);
      }
    }
  }

  /** The page at `page` holds some of the segment. */
  predicate MeetsPage(s: Segment, page: nat) {
    page % PAGE == 0 && s.at < page + PAGE && page < s.End()
  }

  ghost predicate InSegments(segments: seq<Segment>, n: nat, page: nat) {
    exists k | 0 <= k < n && k < |segments| :: MeetsPage(segments[k], page)
  }

  /** The pages of the segment before `upTo` were placed, none of which was before, and no others. */
  ghost predicate AddsPagesOf(placed: map<nat, Placed>, placed': map<nat, Placed>, s: Segment, upTo: nat) {
    && (forall page: nat :: page in placed' <==> page in placed || (MeetsPage(s, page) && page < upTo))
    && (forall page: nat | MeetsPage(s, page) && page < upTo :: page !in placed)
  }

  lemma {:induction false} AddsNone(placed: map<nat, Placed>, s: Segment)
    ensures AddsPagesOf(placed, placed, s, s.at / PAGE * PAGE)
  {
  }

  lemma {:induction false} AddsOne(placed: map<nat, Placed>, placed': map<nat, Placed>, placed'': map<nat, Placed>,
                                   s: Segment, page: nat)
    requires AddsPagesOf(placed, placed', s, page) && MeetsPage(s, page) && page !in placed'
    requires page in placed'' && placed'' == placed'[page := placed''[page]]
    ensures AddsPagesOf(placed, placed'', s, page + PAGE)
  {
    forall x: nat | MeetsPage(s, x) && x < page + PAGE ensures x < page || x == page {
      Aligned(x, page);
    }
  }

  lemma {:induction false} AddsAll(placed: map<nat, Placed>, placed': map<nat, Placed>, s: Segment, page: nat)
    requires AddsPagesOf(placed, placed', s, page) && s.memorySize > 0 && page > (s.End() - 1) / PAGE * PAGE
    requires s.End() <= LOWER_END
    ensures AddsPagesOf(placed, placed', s, LOWER_END)
  {
    forall x: nat | MeetsPage(s, x) ensures x < page && x < LOWER_END {
      LastPage(x, s.End());
    }
    hide MeetsPage;
  }

  lemma {:induction false} LastPage(page: nat, end: nat)
    requires page % PAGE == 0 && page < end
    ensures page <= (end - 1) / PAGE * PAGE
  {
  }

  lemma {:induction false} InOneMore(placed: map<nat, Placed>, placed': map<nat, Placed>, segments: seq<Segment>,
                                     n: nat)
    requires n < |segments| && AddsPagesOf(placed, placed', segments[n], LOWER_END) && segments[n].End() <= LOWER_END
    requires forall page: nat :: page in placed <==> InSegments(segments, n, page)
    ensures forall page: nat :: page in placed' <==> InSegments(segments, n + 1, page)
  {
    hide MeetsPage;
    forall page: nat ensures page in placed' <==> InSegments(segments, n + 1, page) {
      Below(segments[n], page);
      if page in placed {
        var k :| 0 <= k < n && MeetsPage(segments[k], page);
      } else if MeetsPage(segments[n], page) {
        assert InSegments(segments, n + 1, page);
      }
    }
  }

  lemma {:induction false} Below(s: Segment, page: nat)
    requires s.End() <= LOWER_END
    ensures MeetsPage(s, page) ==> page < LOWER_END
  {
  }

  /** What a finished load promises: every byte of every segment is the file's or zero and may be
      written and run as the segment says, the stack is a page of zeros, nothing but
      the pages of the segments and the stack is mapped, no page may be
      both written and run, whatever the process is taken to own is mapped for ring 3, whatever it
      is taken to own and write is writable, and it starts inside a page that runs. */
  ghost predicate Loaded(mem: Memory, root: nat, bytes: map<nat, PageBytes>, owned: seq<Option<Range>>,
                         writable: seq<Option<Range>>,
                         program: Program, file: seq<Byte>) {
    && (forall k | 0 <= k < |program.segments| ::
          InFile(file, program.segments[k]) && Reads(mem, root, bytes, file, program.segments[k]))
    && StackReads(mem, root, bytes)
    && (forall va: U64 | va < LOWER_END ::
          Translate(mem, root, va).Some? <==>
            PageOf(va) == STACK_BASE || InSegments(program.segments, |program.segments|, PageOf(va)))
    && WriteXorExecute(mem, root)
    && Accepts(mem, root, Fixed(owned), false) && Accepts(mem, root, Fixed(writable), true)
    && (EntryInside(program.entry, program.segments) ==>
        UserWalk(mem, root, 0, program.entry) && Executes(mem, root, 0, program.entry))
  }

  lemma {:induction false} PlacedIsLoaded(mem: Memory, root: nat, tab: map<seq<nat>, nat>, placed: map<nat, Placed>,
                                          bytes: map<nat, PageBytes>,
                                          owned: seq<Option<Range>>, writable: seq<Option<Range>>, program: Program,
                                          file: seq<Byte>, userSpaceEnd: U64)
    requires Tree(mem, root, tab) && OpenLinks(mem, tab) && Maps(mem, root, placed) && PagesOk(placed, bytes)
    requires RangesPlaced(placed, owned, false) && RangesPlaced(placed, writable, true) && userSpaceEnd <= LOWER_END
    requires forall k | 0 <= k < |program.segments| :: SegmentOk(file, userSpaceEnd, program.segments[k])
    requires AllSegmentsPlaced(placed, file, program.segments, |program.segments|) && StackPlaced(placed)
    requires forall page: nat ::
               page in placed <==> page == STACK_BASE || InSegments(program.segments, |program.segments|, page)
    ensures Loaded(mem, root, bytes, owned, writable, program, file)
  {
    hide Tree, OpenLinks, Maps, PagesOk, RangesPlaced, SegmentPlaced, Reads, WriteXorExecute, Accepts, Translate,
         UserWalk, Executes,
         InSegments, ByteAt, StackReads, StackPlaced;
    StackIsRead(mem, root, tab, placed, bytes);
    forall k | 0 <= k < |program.segments|
      ensures InFile(file, program.segments[k]) && Reads(mem, root, bytes, file, program.segments[k])
    {
      SegmentReads(mem, root, tab, placed, bytes, file, program.segments[k], LOWER_END);
    }
    forall va: U64 | va < LOWER_END
      ensures Translate(mem, root, va).Some? <==>
              PageOf(va) == STACK_BASE || InSegments(program.segments, |program.segments|, PageOf(va))
    {
      PlacedReads(mem, root, tab, placed, bytes, va);
    }
    NeverBoth(mem, root, tab, placed, bytes);
    OwnedIsMapped(mem, root, tab, placed, bytes, owned, false);
    OwnedIsMapped(mem, root, tab, placed, bytes, writable, true);
    if EntryInside(program.entry, program.segments) {
      EntryRuns(mem, root, tab, placed, bytes, program, file, userSpaceEnd);
    }
  }

  lemma {:induction false} EntryRuns(mem: Memory, root: nat, tab: map<seq<nat>, nat>, placed: map<nat, Placed>,
                                     bytes: map<nat, PageBytes>,
                                     program: Program, file: seq<Byte>, userSpaceEnd: U64)
    requires Tree(mem, root, tab) && OpenLinks(mem, tab) && Maps(mem, root, placed) && PagesOk(placed, bytes)
    requires userSpaceEnd <= LOWER_END
    requires forall k | 0 <= k < |program.segments| :: SegmentOk(file, userSpaceEnd, program.segments[k])
    requires AllSegmentsPlaced(placed, file, program.segments, |program.segments|)
    requires EntryInside(program.entry, program.segments)
    ensures UserWalk(mem, root, 0, program.entry) && Executes(mem, root, 0, program.entry)
  {
    hide Tree, OpenLinks, Maps, PagesOk, Translate, UserWalk, Executes, PageImage, ByteAt;
    var k :| 0 <= k < |program.segments| && program.segments[k].at <= program.entry < program.segments[k].End()
             && program.segments[k].Executable();
    assert SegmentPlaced(placed, file, program.segments[k], LOWER_END);
    PlacedReads(mem, root, tab, placed, bytes, program.entry);
  }

  /** A process out of a file: parsed, given a space of its own, and loaded. On success memory is
      what the file says. */
  method SpawnElf(kernel: PageTables, frames: Frames, file: seq<Byte>, userSpaceEnd: U64)
    returns (r: Result<Building, Option<SpawnError>>)
    requires kernel.Valid() && frames.Valid(kernel.memory) && |file| < SLICE_LIMIT && userSpaceEnd <= LOWER_END
    modifies kernel`leaked, kernel.memory, frames
    ensures r == Err(None) <==> !WellFormed(file, userSpaceEnd)
    ensures r.Ok? ==> WellFormed(file, userSpaceEnd) && fresh(r.value) && r.value.Valid(frames)
    ensures r.Ok? ==> r.value.owned == RangesOf(Loads(file, HeaderCount(file))) + [Some(Range(STACK_BASE, PAGE))]
    ensures r.Ok? ==> r.value.writable == WritableOf(Loads(file, HeaderCount(file))) + [Some(Range(STACK_BASE, PAGE))]
    ensures r.Ok? ==>
              Loaded(r.value.space.memory.tables, r.value.space.root, r.value.bytes, r.value.owned, r.value.writable,
                             Program(U64At(file, 24), Loads(file, HeaderCount(file))), file)
    // A well-formed file is refused for what its segments are, or for want of frames, and for nothing else.
    ensures r.Ok? ==> Fits(Loads(file, HeaderCount(file)))
    ensures r.Err? && r.error.Some? ==>
              && WellFormed(file, userSpaceEnd)
              && SpawnRefused(r.error.value, Loads(file, HeaderCount(file)), old(frames.free),
                              old(kernel.memory.tables), kernel.root, kernel.window)
              && (r.error.value in {OutOfMemory, NoSpace(OutOfFrames), Mapping(OutOfFrames)} ==> frames.free == [])
    ensures WellFormed(file, userSpaceEnd) && r.Err? ==>
              !CanSpawn(Loads(file, HeaderCount(file)), old(frames.free), old(kernel.memory.tables), kernel.root,
                        kernel.window)
  {
    hide Tree, OpenLinks, Maps, PagesOk, RangesPlaced, Loaded, Translate, LeafOf, HeaderOk, Loads, EntryInside,
         AllSegmentsPlaced, PlainLinks, RootSealed, OwnLower, Grafted, SpawnRefused, CanSpawn, InReach, LoadRefused,
         Fits, Reachable, OutOfReach, PagesIn;
    ghost var mem, free := kernel.memory.tables, frames.free;
    var program := Parse(file, userSpaceEnd);
    if program.Err? { return Err(None); }
    var space := kernel.NewProcessSpace(frames);
    if space.Err? {
      SpaceRefusesSpawn(space.error, program.value.segments, free, mem, kernel.root, kernel.window);
      RefusedCannot(NoSpace(space.error), program.value.segments, free, mem, kernel.root, kernel.window);
      return Err(Some(NoSpace(space.error)));
    }
    ghost var start := space.value.memory.tables;
    forall va: U64 | va < LOWER_END ensures LeafOf(space.value.memory.tables, space.value.root, 0, va) == None {
      EmptyLeaf(space.value.memory.tables, space.value.root, va);
    }
    var b := new Building(space.value, frames);
    var loaded := b.Load(program.value, file, userSpaceEnd, frames);
    if loaded.Err? {
      LoadRefusesSpawn(loaded.error, program.value.segments, free, mem, kernel.root, start, space.value.root,
                       kernel.window);
      RefusedCannot(loaded.error, program.value.segments, free, mem, kernel.root, kernel.window);
      return Err(Some(loaded.error));
    }
    PlacedIsLoaded(b.space.memory.tables, b.space.root, b.space.tab, b.placed, b.bytes, b.owned, b.writable,
                   program.value, file, userSpaceEnd);
    return Ok(b);
  }

  /** Every frame that is to be handed out can be written through the window, in the kernel's half. */
  ghost predicate InReach(free: seq<nat>, mem: Memory, root: nat, window: nat) {
    forall i | 0 <= i < |free| :: window + free[i] >= KERNEL_BASE && Reachable(mem, root, window, free[i])
  }

  /** Why a well-formed program is not started, said of its segments and of the machine before: there
      are not frames enough for a root and for every page with three tables; one is out of reach; there
      are too many pages; two segments, or one and the stack, have a page in common. */
  ghost predicate SpawnRefused(error: SpawnError, segments: seq<Segment>, free: seq<nat>, mem: Memory, root: nat,
                               window: nat) {
    match error
    case OutOfMemory | NoSpace(OutOfFrames) | Mapping(OutOfFrames) =>
      |free| <= 4 * (PagesIn(segments, |segments|) + 1)
    case NoSpace(TableFrameNotWritable) | Mapping(TableFrameNotWritable) => !InReach(free, mem, root, window)
    case TooManyFrames => PagesIn(segments, |segments|) + 1 > MAX_FRAMES
    case SegmentsShareAPage(page) =>
      exists i, k | 0 <= i < k < |segments| :: MeetsPage(segments[i], page) && MeetsPage(segments[k], page)
    case Mapping(AlreadyMapped) => InSegments(segments, |segments|, STACK_BASE)
    case _ => false
  }

  /** The program fits, and there are frames enough, all of them in reach. */
  ghost predicate CanSpawn(segments: seq<Segment>, free: seq<nat>, mem: Memory, root: nat, window: nat) {
    Fits(segments) && |free| > 4 * (PagesIn(segments, |segments|) + 1) && InReach(free, mem, root, window)
  }

  lemma {:induction false} RefusedCannot(error: SpawnError, segments: seq<Segment>, free: seq<nat>, mem: Memory,
                                         root: nat, window: nat)
    requires SpawnRefused(error, segments, free, mem, root, window)
    ensures !CanSpawn(segments, free, mem, root, window)
  {
    hide InReach, MeetsPage, PagesIn;
  }

  lemma {:induction false} SpaceRefusesSpawn(error: MapError, segments: seq<Segment>, free: seq<nat>, mem: Memory,
                                             root: nat, window: nat)
    requires (error == OutOfFrames && free == [])
             || (error == TableFrameNotWritable && OutOfReach(free, mem, root, window))
    ensures SpawnRefused(NoSpace(error), segments, free, mem, root, window)
  {
    hide Reachable, PagesIn;
  }

  /** What stopped the load, in terms of the kernel's own space before. */
  lemma {:induction false} LoadRefusesSpawn(error: SpawnError, segments: seq<Segment>, free: seq<nat>, mem: Memory,
                                            root: nat, mem': Memory, root': nat, window: nat)
    requires free != [] && LoadRefused(error, segments, free[1..], mem', root', window) && |segments| < MAX_RANGES
    requires forall va: U64 ::
               Translate(mem', root', va) == if va >= KERNEL_BASE then Translate(mem, root, va) else None
    ensures SpawnRefused(error, segments, free, mem, root, window) && !error.NoSpace?
  {
    hide Translate, MeetsPage, PagesIn;
    if error == Mapping(TableFrameNotWritable) {
      var i :| 0 <= i < |free| - 1 && !Reachable(mem', root', window, free[1..][i]);
      assert free[i + 1] == free[1..][i];
      assert window + free[i + 1] >= KERNEL_BASE ==> !Reachable(mem, root, window, free[i + 1]);
    }
  }

  lemma {:induction false} EmptyLeaf(mem: Memory, root: nat, va: U64)
    requires va < LOWER_END && Translate(mem, root, va) == None
    ensures LeafOf(mem, root, 0, va) == None
  {
    NoLeaf(mem, root, 0, va, true);
  }

  /** The first `n` segments are all placed, as the file says. */
  ghost predicate AllSegmentsPlaced(placed: map<nat, Placed>, file: seq<Byte>, segments: seq<Segment>, n: nat) {
    forall k | 0 <= k < n && k < |segments| ::
      InFile(file, segments[k]) && SegmentPlaced(placed, file, segments[k], LOWER_END)
  }

  function RangesOf(segments: seq<Segment>): (r: seq<Option<Range>>) {
    seq(|segments|, k requires 0 <= k < |segments| => Some(Range(segments[k].at, segments[k].memorySize)))
  }

  function WritableOf(segments: seq<Segment>): (r: seq<Option<Range>>) {
    seq(|segments|, k requires 0 <= k < |segments| =>
          if segments[k].Writable() then Some(Range(segments[k].at, segments[k].memorySize)) else None)
  }

  lemma {:induction false} RangesOfMore(segments: seq<Segment>, n: nat)
    requires n < |segments|
    ensures WritableOf(segments[..n + 1])
            == WritableOf(segments[..n]) + [if segments[n].Writable()
                                            then Some(Range(segments[n].at, segments[n].memorySize)) else None]
    ensures RangesOf(segments[..n + 1])
            == RangesOf(segments[..n]) + [Some(Range(segments[n].at, segments[n].memorySize))]
  {
  }

  lemma {:induction false} AllKept(placed: map<nat, Placed>, placed': map<nat, Placed>, file: seq<Byte>,
                                   userSpaceEnd: U64, segments: seq<Segment>, n: nat)
    requires Grew(placed, placed') && AllSegmentsPlaced(placed, file, segments, n) && n <= |segments|
    requires forall k | 0 <= k < |segments| :: SegmentOk(file, userSpaceEnd, segments[k])
    ensures AllSegmentsPlaced(placed', file, segments, n)
  {
    hide SegmentPlaced, Grew;
    forall k | 0 <= k < n ensures SegmentPlaced(placed', file, segments[k], LOWER_END) {
      SegmentStays(placed, placed', file, segments[k], LOWER_END);
    }
  }

  lemma {:induction false} AllStay(placed: map<nat, Placed>, placed': map<nat, Placed>, file: seq<Byte>,
                                   userSpaceEnd: U64, segments: seq<Segment>, n: nat)
    requires Grew(placed, placed') && AllSegmentsPlaced(placed, file, segments, n) && n < |segments|
    requires forall k | 0 <= k < |segments| :: SegmentOk(file, userSpaceEnd, segments[k])
    requires InFile(file, segments[n]) && SegmentPlaced(placed', file, segments[n], LOWER_END)
    ensures AllSegmentsPlaced(placed', file, segments, n + 1)
  {
    AllKept(placed, placed', file, userSpaceEnd, segments, n);
    hide SegmentPlaced, Grew;
  }

  lemma {:induction false} AccountedOpen(s: Moment, s': Moment, root: nat, window: nat, path: seq<nat>)
    requires Accounted(s, s', root, window, path) && OpenLinks(s.mem, s.tab)
    ensures OpenLinks(s'.mem, s'.tab)
    ensures forall i | 0 <= i < |s'.free| :: s'.free[i] in s.free
  {
    hide OpenLinks;
    forall i | 0 <= i < |s'.free| ensures s'.free[i] in s.free {
      FreeBefore(s.free, s'.free, s.taken + s.leaked, s'.taken + s'.leaked, i);
    }
  }

  lemma {:induction false} NonePlaced(placed: map<nat, Placed>, file: seq<Byte>, s: Segment)
    requires InFile(file, s)
    ensures SegmentPlaced(placed, file, s, s.at / PAGE * PAGE)
  {
  }

  lemma {:induction false} AllPlaced(placed: map<nat, Placed>, file: seq<Byte>, s: Segment, page: nat)
    requires InFile(file, s) && s.memorySize > 0 && SegmentPlaced(placed, file, s, page)
    requires page > (s.End() - 1) / PAGE * PAGE
    ensures SegmentPlaced(placed, file, s, LOWER_END)
  {
    hide PageImage;
    forall va: U64 | s.at <= va < s.End() ensures PageOf(va) < page {
    }
    hide PageOf;
  }

  lemma {:induction false} RangeOfSegment(placed: map<nat, Placed>, file: seq<Byte>, s: Segment)
    requires InFile(file, s) && SegmentPlaced(placed, file, s, LOWER_END) && s.End() <= LOWER_END
    ensures RangePlaced(placed, Range(s.at, s.memorySize), s.Writable())
  {
    hide PageImage;
  }

  lemma {:induction false} RangeOfPage(placed: map<nat, Placed>, page: nat)
    requires page in placed && page % PAGE == 0 && page < LOWER_END && placed[page].flags.writable
    ensures RangePlaced(placed, Range(page, PAGE), true)
  {
    forall va: U64 | page <= va < page + PAGE ensures PageOf(va) == page {
    }
  }
}
