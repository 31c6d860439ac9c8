/** Reading a program file, from hal/src/elf.rs (System V gABI, chapter 5, "Program Header"). */
module Elf {
  import opened Bytes

  const HEADER_BYTES := 64
  const PROGRAM_HEADER_BYTES := 56
  const MAX_SEGMENTS := 8
  /** What a slice can be at most. */
  const SLICE_LIMIT := 0x8000_0000_0000_0000

  datatype ElfError =
    | NotElf
    | NotSixtyFourBitLittleEndian(class_: Byte, data: Byte, version: Byte)
    | NotAStaticExecutable(kind: U16)
    | NotX86_64(machine: U16)
    | Truncated(needed: U64, length: nat)
    | BadProgramHeaders(entrySize: U16, count: U16)
    | SegmentOutsideFile(offset: U64, size: U64)
    | SegmentShrinks(fileSize: U64, memorySize: U64)
    | SegmentOfNothing(at: U64)
    | SegmentOutsideUserSpace(at: U64, size: U64)
    | SegmentWritableAndExecutable(at: U64)
    | TooManySegments(found: nat)
    | NoSegments
    | EntryOutsideSegments(entry: U64)

  datatype Segment = Segment(fileOffset: U64, fileSize: U64, at: U64, memorySize: U64, flags: U32) {
    predicate Executable() {
      flags % 2 == 1
    }

    predicate Writable() {
      flags / 2 % 2 == 1
    }

    function End(): nat {
      at + memorySize
    }
  }

  datatype Program = Program(entry: U64, segments: seq<Segment>)

  // ---------------------------------------------------------------------
  // What the file says
  // ---------------------------------------------------------------------

  function HeaderCount(file: seq<Byte>): U16
    requires |file| >= HEADER_BYTES
  {
    U16At(file, 56)
  }

  function TableAt(file: seq<Byte>): U64
    requires |file| >= HEADER_BYTES
  {
    U64At(file, 32)
  }

  predicate HeaderOk(file: seq<Byte>) {
    && |file| >= HEADER_BYTES && file[..4] == [0x7F, 0x45, 0x4C, 0x46]
    && file[4] == 2 && file[5] == 1 && file[6] == 1
    && U16At(file, 16) == 2 && U16At(file, 18) == 0x3E
    && U16At(file, 54) == PROGRAM_HEADER_BYTES && HeaderCount(file) > 0
    && TableAt(file) + PROGRAM_HEADER_BYTES * HeaderCount(file) <= |file|
  }

  function HeaderPlace(file: seq<Byte>, i: nat): (at: nat)
    requires HeaderOk(file) && i < HeaderCount(file)
    ensures at + PROGRAM_HEADER_BYTES <= |file|
  {
    TableAt(file) + PROGRAM_HEADER_BYTES * i
  }

  predicate IsLoad(file: seq<Byte>, i: nat)
    requires HeaderOk(file) && i < HeaderCount(file)
  {
    U32At(file, HeaderPlace(file, i)) == 1
  }

  function SegmentAt(file: seq<Byte>, i: nat): Segment
    requires HeaderOk(file) && i < HeaderCount(file)
  {
    var at := HeaderPlace(file, i);
    Segment(U64At(file, at + 8), U64At(file, at + 32), U64At(file, at + 16), U64At(file, at + 40), U32At(file, at + 4))
  }

  /** A segment is in the file, in user space, somewhere, and not both writable and executable. */
  predicate SegmentOk(file: seq<Byte>, userSpaceEnd: U64, s: Segment) {
    && s.fileOffset + s.fileSize <= |file|
    && s.fileSize <= s.memorySize && s.memorySize > 0
    && s.End() <= userSpaceEnd
    && !(s.Writable() && s.Executable())
  }

  /** The segments to load among the first `n` headers, in order. */
  function Loads(file: seq<Byte>, n: nat): (s: seq<Segment>)
    requires HeaderOk(file) && n <= HeaderCount(file)
  {
    if n == 0 then []
    else if IsLoad(file, n - 1) then Loads(file, n - 1) + [SegmentAt(file, n - 1)]
    else Loads(file, n - 1)
  }

  predicate EntryInside(entry: U64, segments: seq<Segment>) {
    exists k | 0 <= k < |segments| :: segments[k].at <= entry < segments[k].End() && segments[k].Executable()
  }

  predicate LoadsOk(file: seq<Byte>, userSpaceEnd: U64, n: nat)
    requires HeaderOk(file) && n <= HeaderCount(file)
  {
    && (forall i | 0 <= i < n && IsLoad(file, i) :: SegmentOk(file, userSpaceEnd, SegmentAt(file, i)))
    && |Loads(file, n)| <= MAX_SEGMENTS
  }

  /** A file that can be loaded. */
  predicate WellFormed(file: seq<Byte>, userSpaceEnd: U64) {
    && HeaderOk(file) && LoadsOk(file, userSpaceEnd, HeaderCount(file))
    && |Loads(file, HeaderCount(file))| > 0 && EntryInside(U64At(file, 24), Loads(file, HeaderCount(file)))
  }

  lemma {:induction false} LoadsAreOk(file: seq<Byte>, userSpaceEnd: U64, n: nat)
    requires HeaderOk(file) && n <= HeaderCount(file) && LoadsOk(file, userSpaceEnd, n)
    ensures forall k | 0 <= k < |Loads(file, n)| :: SegmentOk(file, userSpaceEnd, Loads(file, n)[k])
  {
    hide SegmentOk, IsLoad, SegmentAt;
    if n > 0 {
      LoadsGrow(file, n - 1, n);
      LoadsAreOk(file, userSpaceEnd, n - 1);
    }
  }

  lemma {:induction false} LoadsGrow(file: seq<Byte>, m: nat, n: nat)
    requires HeaderOk(file) && m <= n <= HeaderCount(file)
    ensures Loads(file, m) <= Loads(file, n)
  {
    hide IsLoad, SegmentAt;
    if m < n { LoadsGrow(file, m, n - 1); }
  }

  lemma {:induction false} LoadsOkNone(file: seq<Byte>, userSpaceEnd: U64)
    requires HeaderOk(file)
    ensures LoadsOk(file, userSpaceEnd, 0) && Loads(file, 0) == []
  {
  }

  /** One header more: what it takes to go on, and that the whole list is refused otherwise. */
  lemma {:induction false} LoadsOkStep(file: seq<Byte>, userSpaceEnd: U64, i: nat)
    requires HeaderOk(file) && i < HeaderCount(file) && LoadsOk(file, userSpaceEnd, i)
    ensures Loads(file, i + 1) == if IsLoad(file, i) then Loads(file, i) + [SegmentAt(file, i)] else Loads(file, i)
    ensures |Loads(file, i)| <= MAX_SEGMENTS
    ensures var fits := IsLoad(file, i) ==>
              SegmentOk(file, userSpaceEnd, SegmentAt(file, i)) && |Loads(file, i)| < MAX_SEGMENTS;
      (fits ==> LoadsOk(file, userSpaceEnd, i + 1)) && (!fits ==> !LoadsOk(file, userSpaceEnd, HeaderCount(file)))
  {
    hide SegmentOk, IsLoad, SegmentAt;
    LoadsGrow(file, i + 1, HeaderCount(file));
  }

  // ---------------------------------------------------------------------
  // Reading it
  // ---------------------------------------------------------------------

  /** What an error means: the first thing wrong with the header, something wrong with a segment to
      load, or with the segments as a whole. */
  ghost predicate Refused(file: seq<Byte>, userSpaceEnd: U64, error: ElfError) {
    match error
    case NotElf => |file| < HEADER_BYTES || file[..4] != [0x7F, 0x45, 0x4C, 0x46]
    case NotSixtyFourBitLittleEndian(c, d, v) =>
      |file| >= HEADER_BYTES && (c, d, v) == (file[4], file[5], file[6]) != (2, 1, 1)
    case NotAStaticExecutable(kind) => |file| >= HEADER_BYTES && kind == U16At(file, 16) != 2
    case NotX86_64(machine) => |file| >= HEADER_BYTES && machine == U16At(file, 18) != 0x3E
    case BadProgramHeaders(size, count) =>
      && |file| >= HEADER_BYTES && size == U16At(file, 54) && count == HeaderCount(file)
      && (size != PROGRAM_HEADER_BYTES || count == 0)
    case Truncated(needed, length) =>
      && length == |file| < needed && |file| >= HEADER_BYTES
      && TableAt(file) + PROGRAM_HEADER_BYTES * HeaderCount(file) > |file|
    case TooManySegments(found) =>
      found == MAX_SEGMENTS + 1 && HeaderOk(file) && |Loads(file, HeaderCount(file))| > MAX_SEGMENTS
    case NoSegments => HeaderOk(file) && Loads(file, HeaderCount(file)) == []
    case EntryOutsideSegments(entry) =>
      HeaderOk(file) && entry == U64At(file, 24) && !EntryInside(entry, Loads(file, HeaderCount(file)))
    case _ => HeaderOk(file) && exists i | 0 <= i < HeaderCount(file) ::
      IsLoad(file, i) && WrongWith(file, userSpaceEnd, SegmentAt(file, i), error)
  }

  /** What is wrong with one segment. */
  predicate WrongWith(file: seq<Byte>, userSpaceEnd: U64, s: Segment, error: ElfError) {
    match error
    case SegmentOutsideFile(offset, size) => offset == s.fileOffset && size == s.fileSize && offset + size > |file|
    case SegmentShrinks(fileSize, memorySize) => fileSize == s.fileSize > s.memorySize == memorySize
    case SegmentOfNothing(at) => at == s.at && s.memorySize == 0
    case SegmentOutsideUserSpace(at, size) => at == s.at && size == s.memorySize && at + size > userSpaceEnd
    case SegmentWritableAndExecutable(at) => at == s.at && s.Writable() && s.Executable()
    case _ => false
  }

  /** Reads a program: it is accepted exactly when the file is well formed, and then it is the
      entry and the loadable segments the file lists, every one of them checked. */
  method Parse(file: seq<Byte>, userSpaceEnd: U64) returns (r: Result<Program, ElfError>)
    requires |file| < SLICE_LIMIT
    ensures r.Ok? <==> WellFormed(file, userSpaceEnd)
    ensures r.Ok? ==> r.value == Program(U64At(file, 24), Loads(file, HeaderCount(file)))
    ensures r.Ok? ==> forall k | 0 <= k < |r.value.segments| :: SegmentOk(file, userSpaceEnd, r.value.segments[k])
    ensures r.Err? ==> Refused(file, userSpaceEnd, r.error)
    ensures HeaderOk(file) && (forall i | 0 <= i < HeaderCount(file) :: !IsLoad(file, i)) ==> r == Err(NoSegments)
  {
    var bad := BadHeader(file);
    if bad.Some? { return Err(bad.value); }
    LoadsOkNone(file, userSpaceEnd);
    hide IsLoad, SegmentAt, SegmentOk, HeaderOk, Loads, LoadsOk, EntryInside, Refused, WrongWith;
    var count := HeaderCount(file);
    var segments := [];
    var index := 0;
    while index < count
      invariant index <= count && segments == Loads(file, index) && LoadsOk(file, userSpaceEnd, index)
    {
      LoadsOkStep(file, userSpaceEnd, index);
      if IsLoad(file, index) {
        var segment := SegmentAt(file, index);
        var wrong := BadSegment(file, userSpaceEnd, segment);
        if wrong.Some? {
          SegmentRefused(file, userSpaceEnd, index, wrong.value);
          return Err(wrong.value);
        }
        if |segments| == MAX_SEGMENTS {
          TooMany(file, userSpaceEnd, index);
          return Err(TooManySegments(|segments| + 1));
        }
        segments := segments + [segment];
      }
      index := index + 1;
    }
    AtTheEnd(file, userSpaceEnd);
    NothingToLoad(file, count);
    if segments == [] { return Err(NoSegments); }
    var entry := EntryOf(file);
    if !EntryInside(entry, segments) { return Err(EntryOutsideSegments(entry)); }
    LoadsAreOk(file, userSpaceEnd, count);
    return Ok(Program(entry, segments));
  }

  lemma {:induction false} SegmentRefused(file: seq<Byte>, userSpaceEnd: U64, i: nat, error: ElfError)
    requires HeaderOk(file) && i < HeaderCount(file) && IsLoad(file, i)
    requires WrongWith(file, userSpaceEnd, SegmentAt(file, i), error)
    ensures Refused(file, userSpaceEnd, error)
  {
    hide HeaderOk, IsLoad, SegmentAt;
  }

  lemma {:induction false} TooMany(file: seq<Byte>, userSpaceEnd: U64, i: nat)
    requires HeaderOk(file) && i < HeaderCount(file) && IsLoad(file, i) && |Loads(file, i)| == MAX_SEGMENTS
    ensures Refused(file, userSpaceEnd, TooManySegments(MAX_SEGMENTS + 1))
  {
    LoadsGrow(file, i + 1, HeaderCount(file));
  }

  lemma {:induction false} NothingToLoad(file: seq<Byte>, n: nat)
    requires HeaderOk(file) && n <= HeaderCount(file)
    ensures (forall i | 0 <= i < n :: !IsLoad(file, i)) <==> Loads(file, n) == []
  {
    hide IsLoad, SegmentAt;
    if n > 0 { NothingToLoad(file, n - 1); }
  }

  lemma {:induction false} AtTheEnd(file: seq<Byte>, userSpaceEnd: U64)
    requires HeaderOk(file)
    ensures Loads(file, HeaderCount(file)) == [] ==> Refused(file, userSpaceEnd, NoSegments)
    ensures !EntryInside(U64At(file, 24), Loads(file, HeaderCount(file))) ==>
              Refused(file, userSpaceEnd, EntryOutsideSegments(U64At(file, 24)))
  {
  }

  function EntryOf(file: seq<Byte>): U64
    requires HeaderOk(file)
    ensures |file| >= HEADER_BYTES && EntryOf(file) == U64At(file, 24)
  {
    U64At(file, 24)
  }

  function SaturatingSum(a: U64, b: nat): U64 {
    if a + b < 0x1_0000_0000_0000_0000 then a + b else 0xFFFF_FFFF_FFFF_FFFF
  }

  /** What is wrong with the header, looked for in this order. */
  method BadHeader(file: seq<Byte>) returns (wrong: Option<ElfError>)
    requires |file| < SLICE_LIMIT
    ensures wrong == None <==> HeaderOk(file)
    ensures wrong.Some? ==> forall userSpaceEnd: U64 :: Refused(file, userSpaceEnd, wrong.value)
  {
    if |file| < HEADER_BYTES || file[..4] != [0x7F, 0x45, 0x4C, 0x46] { return Some(NotElf); }
    if file[4] != 2 || file[5] != 1 || file[6] != 1 {
      return Some(NotSixtyFourBitLittleEndian(file[4], file[5], file[6]));
    }
    var kind := U16At(file, 16);
    if kind != 2 { return Some(NotAStaticExecutable(kind)); }
    var machine := U16At(file, 18);
    if machine != 0x3E { return Some(NotX86_64(machine)); }
    var entrySize, count := U16At(file, 54), U16At(file, 56);
    if entrySize != PROGRAM_HEADER_BYTES || count == 0 { return Some(BadProgramHeaders(entrySize, count)); }
    var tableEnd := SaturatingSum(U64At(file, 32), count as int * entrySize as int);
    if tableEnd > |file| { return Some(Truncated(tableEnd, |file|)); }
    return None;
  }

  /** What is wrong with a segment, looked for in this order. */
  method BadSegment(file: seq<Byte>, userSpaceEnd: U64, s: Segment) returns (wrong: Option<ElfError>)
    requires |file| < SLICE_LIMIT
    ensures wrong == None <==> SegmentOk(file, userSpaceEnd, s)
    ensures wrong.Some? ==> WrongWith(file, userSpaceEnd, s, wrong.value)
  {
    if s.fileOffset + s.fileSize >= 0x1_0000_0000_0000_0000 || s.fileOffset + s.fileSize > |file| {
      return Some(SegmentOutsideFile(s.fileOffset, s.fileSize));
    }
    if s.memorySize < s.fileSize { return Some(SegmentShrinks(s.fileSize, s.memorySize)); }
    if s.memorySize == 0 { return Some(SegmentOfNothing(s.at)); }
    if s.at + s.memorySize >= 0x1_0000_0000_0000_0000 || s.at + s.memorySize > userSpaceEnd {
      return Some(SegmentOutsideUserSpace(s.at, s.memorySize));
    }
    if s.Writable() && s.Executable() { return Some(SegmentWritableAndExecutable(s.at)); }
    return None;
  }
}
