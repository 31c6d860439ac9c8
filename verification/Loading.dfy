/** What a loaded program looks like in memory, from kernel/src/process.rs. */
module Loading {
  import opened Bytes
  import opened Paging
  import opened PagingSteps
  import opened Elf

  const MAX_RANGES := 9
  const MAX_FRAMES := 32
  const STACK_BASE := 0x50_0000

  type PageBytes = b: seq<Byte> | |b| == PAGE witness seq(PAGE, _ => 0)

  /** Addresses a process owns. */
  datatype Range = Range(start: nat, len: nat) {
    function End(): nat {
      if start + len < 0x1_0000_0000_0000_0000 then start + len else 0xFFFF_FFFF_FFFF_FFFF
    }
  }

  /** What one page of the program is: the frame behind it, how it is mapped, and its bytes. */
  datatype Placed = Placed(frame: nat, flags: PageFlags, image: PageBytes)

  function UserFlags(writable: bool, executable: bool): PageFlags {
    PageFlags(writable, executable, true, WriteBack)
  }

  function PageOf(va: nat): (page: nat)
    ensures page % PAGE == 0 && page <= va < page + PAGE
  {
    va / PAGE * PAGE
  }

  // ---------------------------------------------------------------------
  // What the file promises
  // ---------------------------------------------------------------------

  predicate InFile(file: seq<Byte>, s: Segment) {
    s.fileOffset + s.fileSize <= |file| && s.fileSize <= s.memorySize
  }

  /** The byte a segment has at `va`: from the file as far as that goes, zero after it. */
  function FileByte(file: seq<Byte>, s: Segment, va: nat): Byte
    requires InFile(file, s)
  {
    if s.at <= va < s.at + s.fileSize then file[s.fileOffset + (va - s.at)] else 0
  }

  function PageImage(file: seq<Byte>, s: Segment, page: nat): (image: PageBytes)
    requires InFile(file, s)
    ensures forall i | 0 <= i < PAGE :: image[i] == FileByte(file, s, page + i)
  {
    seq(PAGE, i requires 0 <= i < PAGE => ByteIn(file, s, page, i))
  }

  function ByteIn(file: seq<Byte>, s: Segment, page: nat, i: nat): Byte
    requires InFile(file, s)
  {
    FileByte(file, s, page + i)
  }

  /** A zeroed page with what the file carries of it copied in. */
  method MakeImage(file: seq<Byte>, s: Segment, page: nat) returns (image: PageBytes)
    requires InFile(file, s)
    ensures image == PageImage(file, s, page)
  {
    image := seq(PAGE, _ => 0);
    var into, skip := if page < s.at then 0 else page - s.at, if s.at < page then 0 else s.at - page;
    if into < s.fileSize && skip < PAGE {
      var from, left := s.fileOffset + into, s.fileSize - into;
      var taking := if left < PAGE - skip then left else PAGE - skip;
      image := Splice(image, skip, file[from..from + taking]);
      forall i | 0 <= i < PAGE ensures image[i] == FileByte(file, s, page + i) {
      }
    } else {
      forall i | 0 <= i < PAGE ensures image[i] == FileByte(file, s, page + i) {
      }
    }
  }

  // ---------------------------------------------------------------------
  // What is in memory
  // ---------------------------------------------------------------------

  /** The byte a program reads at `va`. */
  function ByteAt(mem: Memory, root: nat, bytes: map<nat, PageBytes>, va: U64): Option<Byte> {
    var t := Translate(mem, root, va);
    if t.None? then None
    else
      var frame := t.value.phys - t.value.phys % PAGE;
      if frame in bytes then Some(bytes[frame][t.value.phys % PAGE]) else None
  }

  /** The leaf the page at `page` should have. */
  ghost function Expected(placed: map<nat, Placed>, page: nat): Option<TableEntry> {
    if page in placed then Some(LeafFor(placed[page].frame, placed[page].flags)) else None
  }

  /** The lower half maps the pages in `placed` and nothing else. */
  ghost predicate Maps(mem: Memory, root: nat, placed: map<nat, Placed>) {
    forall va: U64 | va < LOWER_END :: LeafOf(mem, root, 0, va) == Expected(placed, PageOf(va))
  }

  ghost predicate PageOk(placed: map<nat, Placed>, bytes: map<nat, PageBytes>, page: nat)
    requires page in placed
  {
    && placed[page].frame % PAGE == 0 && placed[page].frame in bytes && bytes[placed[page].frame] == placed[page].image
    && placed[page].flags.user && !(placed[page].flags.writable && placed[page].flags.executable)
  }

  ghost predicate PagesOk(placed: map<nat, Placed>, bytes: map<nat, PageBytes>) {
    forall page | page in placed :: PageOk(placed, bytes, page)
  }

  /** Every page of a segment that starts before `upTo` is placed, as the file says. */
  ghost predicate SegmentPlaced(placed: map<nat, Placed>, file: seq<Byte>, s: Segment, upTo: nat)
    requires InFile(file, s)
  {
    forall va: U64 | s.at <= va < s.End() && PageOf(va) < upTo ::
      && PageOf(va) in placed && placed[PageOf(va)].flags == UserFlags(s.Writable(), s.Executable())
      && placed[PageOf(va)].image == PageImage(file, s, PageOf(va))
  }

  /** Every address of a range is in a page that is placed, and writable if it has to be. */
  ghost predicate RangePlaced(placed: map<nat, Placed>, range: Range, writable: bool) {
    forall va: U64 | range.start <= va < range.End() ::
      PageOf(va) in placed && (writable ==> placed[PageOf(va)].flags.writable)
  }

  ghost predicate RangesPlaced(placed: map<nat, Placed>, owned: seq<Option<Range>>, writable: bool) {
    forall k | 0 <= k < |owned| ::
      owned[k].Some? ==> owned[k].value.End() <= LOWER_END && RangePlaced(placed, owned[k].value, writable)
  }

  /** Pages are only added. */
  ghost predicate Grew(placed: map<nat, Placed>, placed': map<nat, Placed>) {
    forall page | page in placed :: page in placed' && placed'[page] == placed[page]
  }

  lemma {:induction false} SegmentStays(placed: map<nat, Placed>, placed': map<nat, Placed>, file: seq<Byte>,
                                        s: Segment, upTo: nat)
    requires InFile(file, s) && Grew(placed, placed') && SegmentPlaced(placed, file, s, upTo)
    ensures SegmentPlaced(placed', file, s, upTo)
  {
    hide PageOf, PageImage;
  }

  lemma {:induction false} RangesStay(placed: map<nat, Placed>, placed': map<nat, Placed>, owned: seq<Option<Range>>,
                                      writable: bool)
    requires Grew(placed, placed') && RangesPlaced(placed, owned, writable)
    ensures RangesPlaced(placed', owned, writable)
  {
    hide PageOf;
    forall k | 0 <= k < |owned| && owned[k].Some? ensures RangePlaced(placed', owned[k].value, writable) {
      assert RangePlaced(placed, owned[k].value, writable);
    }
  }

  /** One page more of a segment. */
  lemma {:induction false} SegmentGrows(placed: map<nat, Placed>, placed': map<nat, Placed>, file: seq<Byte>,
                                        s: Segment, page: nat, frame: nat)
    requires InFile(file, s) && SegmentPlaced(placed, file, s, page) && page % PAGE == 0 && page !in placed
    requires placed' == placed[page := Placed(frame, UserFlags(s.Writable(), s.Executable()), PageImage(file, s, page))]
    ensures SegmentPlaced(placed', file, s, page + PAGE) && Grew(placed, placed')
  {
    hide PageImage;
    forall va: U64 | s.at <= va < s.End() && PageOf(va) < page + PAGE
      ensures PageOf(va) in placed' && placed'[PageOf(va)].flags == UserFlags(s.Writable(), s.Executable())
      ensures placed'[PageOf(va)].image == PageImage(file, s, PageOf(va))
    {
      Aligned(PageOf(va), page);
    }
  }

  lemma {:induction false} Aligned(a: nat, b: nat)
    requires a % PAGE == 0 && b % PAGE == 0 && a < b + PAGE
    ensures a < b || a == b
  {
  }

  lemma {:induction false} MapsMore(mem: Memory, mem': Memory, root: nat, placed: map<nat, Placed>, page: U64,
                                    p: Placed)
    requires Maps(mem, root, placed) && page % PAGE == 0 && page < LOWER_END
    requires forall va: U64 | IsCanonical(va) ::
               LeafOf(mem', root, 0, va)
               == if va / PAGE == page / PAGE then Some(LeafFor(p.frame, p.flags)) else LeafOf(mem, root, 0, va)
    ensures Maps(mem', root, placed[page := p])
  {
    hide LeafOf;
    forall va: U64 | va < LOWER_END ensures LeafOf(mem', root, 0, va) == Expected(placed[page := p], PageOf(va)) {
      assert va / PAGE == page / PAGE <==> PageOf(va) == page;
    }
  }

  /** A page that translates to nothing is not placed. */
  lemma {:induction false} NotPlaced(mem: Memory, root: nat, placed: map<nat, Placed>, page: U64)
    requires Maps(mem, root, placed) && page % PAGE == 0 && page < LOWER_END && Translate(mem, root, page).None?
    ensures page !in placed
  {
    hide LeafOf;
    NoLeaf(mem, root, 0, page, true);
    assert PageOf(page) == page;
  }

  lemma {:induction false} PagesGrow(placed: map<nat, Placed>, bytes: map<nat, PageBytes>, page: nat, p: Placed)
    requires PagesOk(placed, bytes) && p.frame !in bytes && p.frame % PAGE == 0 && p.flags.user
    requires !(p.flags.writable && p.flags.executable)
    ensures PagesOk(placed[page := p], bytes[p.frame := p.image])
  {
    var placed', bytes' := placed[page := p], bytes[p.frame := p.image];
    forall x | x in placed' ensures PageOk(placed', bytes', x) {
      if x != page { assert PageOk(placed, bytes, x); }
    }
  }

  // ---------------------------------------------------------------------
  // What that comes to
  // ---------------------------------------------------------------------

  /** What one placed address reads as and may be used for. */
  lemma {:induction false} PlacedReads(mem: Memory, root: nat, tab: map<seq<nat>, nat>, placed: map<nat, Placed>,
                                       bytes: map<nat, PageBytes>, va: U64)
    requires Tree(mem, root, tab) && OpenLinks(mem, tab) && Maps(mem, root, placed) && PagesOk(placed, bytes)
    requires va < LOWER_END
    ensures PageOf(va) !in placed ==> Translate(mem, root, va).None?
    ensures PageOf(va) in placed ==> var p := placed[PageOf(va)];
      && Translate(mem, root, va).Some? && Translate(mem, root, va).value.writable == p.flags.writable
      && UserWalk(mem, root, 0, va) && Executes(mem, root, 0, va) == p.flags.executable
      && ByteAt(mem, root, bytes, va) == Some(p.image[va - PageOf(va)])
  {
    hide Tree, OpenLinks, LeafOf, Translate, UserWalk, Executes;
    LeafGrants(mem, root, tab, va);
    if PageOf(va) in placed {
      assert PageOk(placed, bytes, PageOf(va));
      Inside(placed[PageOf(va)].frame, va);
    }
  }

  lemma {:induction false} Inside(frame: nat, va: nat)
    requires frame % PAGE == 0
    ensures var phys := frame - frame % PAGE + va % PAGE; phys - phys % PAGE == frame && phys % PAGE == va - PageOf(va)
  {
  }

  /** Ring 3 reads `byte` at `va`, and may write there, or run what is there, just if it says so. */
  ghost predicate ReadsAs(mem: Memory, root: nat, bytes: map<nat, PageBytes>, va: U64, byte: Byte, writable: bool,
                          executable: bool) {
    && ByteAt(mem, root, bytes, va) == Some(byte) && UserWalk(mem, root, 0, va)
    && Translate(mem, root, va).Some? && Translate(mem, root, va).value.writable == writable
    && Executes(mem, root, 0, va) == executable
  }

  /** Every address of a segment reads as the file says, and may be written and run as its flags say:
      bit 0 is running, bit 1 writing. */
  ghost predicate Reads(mem: Memory, root: nat, bytes: map<nat, PageBytes>, file: seq<Byte>, s: Segment)
    requires InFile(file, s)
  {
    forall va: U64 | s.at <= va < s.at + s.memorySize ::
      ReadsAs(mem, root, bytes, va, FileByte(file, s, va), s.flags / 2 % 2 == 1, s.flags % 2 == 1)
  }

  /** The page of stack: zeros, to be written and not run. */
  ghost predicate StackReads(mem: Memory, root: nat, bytes: map<nat, PageBytes>) {
    forall va: U64 | STACK_BASE <= va < STACK_BASE + PAGE :: ReadsAs(mem, root, bytes, va, 0, true, false)
  }

  ghost predicate StackPlaced(placed: map<nat, Placed>) {
    && STACK_BASE in placed && placed[STACK_BASE].flags == UserFlags(true, false)
    && placed[STACK_BASE].image == seq(PAGE, _ => 0)
  }

  lemma {:induction false} StackIsRead(mem: Memory, root: nat, tab: map<seq<nat>, nat>, placed: map<nat, Placed>,
                                       bytes: map<nat, PageBytes>)
    requires Tree(mem, root, tab) && OpenLinks(mem, tab) && Maps(mem, root, placed) && PagesOk(placed, bytes)
    requires StackPlaced(placed)
    ensures StackReads(mem, root, bytes)
  {
    hide Tree, OpenLinks, Maps, PagesOk, ByteAt, Translate, UserWalk, Executes;
    forall va: U64 | STACK_BASE <= va < STACK_BASE + PAGE ensures ReadsAs(mem, root, bytes, va, 0, true, false) {
      assert PageOf(va) == STACK_BASE;
      PlacedReads(mem, root, tab, placed, bytes, va);
    }
  }

  lemma {:induction false} SegmentReads(mem: Memory, root: nat, tab: map<seq<nat>, nat>, placed: map<nat, Placed>,
                                        bytes: map<nat, PageBytes>, file: seq<Byte>, s: Segment, upTo: nat)
    requires Tree(mem, root, tab) && OpenLinks(mem, tab) && Maps(mem, root, placed) && PagesOk(placed, bytes)
    requires InFile(file, s) && SegmentPlaced(placed, file, s, upTo) && s.End() <= LOWER_END && s.End() <= upTo
    ensures Reads(mem, root, bytes, file, s)
  {
    hide Tree, OpenLinks, Maps, PagesOk, ByteAt, FileByte, Translate, UserWalk, Executes;
    forall va: U64 | s.at <= va < s.at + s.memorySize
      ensures ReadsAs(mem, root, bytes, va, FileByte(file, s, va), s.flags / 2 % 2 == 1, s.flags % 2 == 1)
    {
      PlacedReads(mem, root, tab, placed, bytes, va);
      var i := va - PageOf(va);
      assert PageImage(file, s, PageOf(va))[i] == FileByte(file, s, PageOf(va) + i);
    }
  }

  /** No page of the program may be written and run. */
  ghost predicate WriteXorExecute(mem: Memory, root: nat) {
    forall va: U64 | va < LOWER_END && Translate(mem, root, va).Some? && Translate(mem, root, va).value.writable ::
      !Executes(mem, root, 0, va)
  }

  lemma {:induction false} NeverBoth(mem: Memory, root: nat, tab: map<seq<nat>, nat>, placed: map<nat, Placed>,
                                     bytes: map<nat, PageBytes>)
    requires Tree(mem, root, tab) && OpenLinks(mem, tab) && Maps(mem, root, placed) && PagesOk(placed, bytes)
    ensures WriteXorExecute(mem, root)
  {
    hide Tree, OpenLinks, Maps, Translate, Executes, ByteAt;
    forall va: U64 | va < LOWER_END && Translate(mem, root, va).Some? && Translate(mem, root, va).value.writable
      ensures !Executes(mem, root, 0, va)
    {
      PlacedReads(mem, root, tab, placed, bytes, va);
      if PageOf(va) in placed { assert PageOk(placed, bytes, PageOf(va)); }
    }
  }

  function Fixed(ranges: seq<Option<Range>>): (r: seq<Range>)
    ensures |r| == |ranges|
    ensures forall k | 0 <= k < |ranges| :: r[k] == if ranges[k].Some? then ranges[k].value else Range(0, 0)
  {
    seq(|ranges|, k requires 0 <= k < |ranges| => if ranges[k].Some? then ranges[k].value else Range(0, 0))
  }

  /** Whether `[ptr, ptr + len)` falls inside one of the ranges. */
  predicate OwnedBy(ranges: seq<Range>, ptr: U64, len: U64) {
    && len != 0 && ptr + len < 0x1_0000_0000_0000_0000
    && exists k | 0 <= k < |ranges| :: ranges[k].start <= ptr && ptr + len <= ranges[k].End()
  }

  predicate Covers(range: Range, va: nat) {
    range.start <= va < range.start + range.len
  }

  ghost predicate CoversAll(range: Range, ptr: nat, len: nat) {
    forall va: nat | ptr <= va < ptr + len :: Covers(range, va)
  }

  /** Accepted exactly when it is something, ends where an address can, and lies whole in one range. */
  lemma {:induction false} OwnedByMeans(ranges: seq<Range>, ptr: U64, len: U64)
    requires forall k | 0 <= k < |ranges| :: ranges[k].start + ranges[k].len < 0x1_0000_0000_0000_0000
    ensures OwnedBy(ranges, ptr, len) <==>
            && 0 < len < 0x1_0000_0000_0000_0000 - ptr
            && exists k | 0 <= k < |ranges| :: CoversAll(ranges[k], ptr, len)
  {
    if 0 < len < 0x1_0000_0000_0000_0000 - ptr {
      forall k | 0 <= k < |ranges|
        ensures ranges[k].start <= ptr && ptr + len <= ranges[k].End() <==> CoversAll(ranges[k], ptr, len)
      {
        CoversMeans(ranges[k], ptr, len);
      }
    }
  }

  lemma {:induction false} CoversMeans(range: Range, ptr: U64, len: U64)
    requires range.start + range.len < 0x1_0000_0000_0000_0000 && len > 0
    ensures range.start <= ptr && ptr + len <= range.End() <==>
            CoversAll(range, ptr, len)
  {
    if CoversAll(range, ptr, len) {
      var first: nat, last: nat := ptr, ptr + len - 1;
      assert Covers(range, first) && Covers(range, last);
    }
  }

  /** Whatever is accepted against these ranges is mapped for ring 3, and writable if it has to be. */
  ghost predicate Accepts(mem: Memory, root: nat, ranges: seq<Range>, writable: bool) {
    forall ptr: U64, len: U64, va: U64 | OwnedBy(ranges, ptr, len) && ptr <= va < ptr + len ::
      && UserWalk(mem, root, 0, va) && Translate(mem, root, va).Some?
      && (writable ==> Translate(mem, root, va).value.writable)
  }

  lemma {:induction false} OwnedIsMapped(mem: Memory, root: nat, tab: map<seq<nat>, nat>, placed: map<nat, Placed>,
                                         bytes: map<nat, PageBytes>, owned: seq<Option<Range>>, writable: bool)
    requires Tree(mem, root, tab) && OpenLinks(mem, tab) && Maps(mem, root, placed) && PagesOk(placed, bytes)
    requires RangesPlaced(placed, owned, writable)
    ensures Accepts(mem, root, Fixed(owned), writable)
  {
    hide Tree, OpenLinks, Maps, PagesOk, Translate, UserWalk, ByteAt;
    forall ptr: U64, len: U64, va: U64 | OwnedBy(Fixed(owned), ptr, len) && ptr <= va < ptr + len
      ensures UserWalk(mem, root, 0, va) && Translate(mem, root, va).Some?
      ensures (writable ==> Translate(mem, root, va).value.writable)
    {
      var k :| 0 <= k < |owned| && Fixed(owned)[k].start <= ptr && ptr + len <= Fixed(owned)[k].End();
      assert owned[k].Some? && RangePlaced(placed, owned[k].value, writable);
      PlacedReads(mem, root, tab, placed, bytes, va);
    }
  }
}
