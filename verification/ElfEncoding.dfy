/** A program file written out field by field, as the System V gABI lays it out (chapter 4, "ELF
    Header"; chapter 5, "Program Header"), and read back by hal/src/elf.rs. */
module ElfEncoding {
  import opened Bytes
  import opened Elf

  function LittleEndian64(n: U64): (s: seq<Byte>)
    ensures |s| == 8 && U64At(s, 0) == n
  {
    var s := LittleEndian32(n % 0x1_0000_0000) + LittleEndian32(n / 0x1_0000_0000);
    U32AtSame(s, 0, LittleEndian32(n % 0x1_0000_0000), 0);
    assert s[4..8] == LittleEndian32(n / 0x1_0000_0000)[0..4];
    U32AtSame(s, 4, LittleEndian32(n / 0x1_0000_0000), 0);
    s
  }

  /** `p_type`, `p_flags`, `p_offset`, `p_vaddr`, `p_paddr`, `p_filesz`, `p_memsz`, `p_align`. */
  function ProgramHeader(s: Segment): (h: seq<Byte>)
    requires s.at + s.memorySize < 0x1_0000_0000_0000_0000
    ensures |h| == 56
  {
    LittleEndian32(1) + LittleEndian32(s.flags) + LittleEndian64(s.fileOffset) + LittleEndian64(s.at)
    + LittleEndian64(0) + LittleEndian64(s.fileSize) + LittleEndian64(s.memorySize) + LittleEndian64(0x1000)
  }

  /** `e_ident`, `e_type`, `e_machine`, `e_version`, `e_entry`, `e_phoff`, `e_shoff`, `e_flags`,
      `e_ehsize`, `e_phentsize`, `e_phnum`, `e_shentsize`, `e_shnum`, `e_shstrndx`. */
  function FileHeader(entry: U64, count: U16): (h: seq<Byte>)
    ensures |h| == 64
  {
    [0x7F, 0x45, 0x4C, 0x46, 2, 1, 1] + seq(9, _ => 0)
    + LittleEndian16(2) + LittleEndian16(0x3E) + LittleEndian32(1) + LittleEndian64(entry) + LittleEndian64(64)
    + LittleEndian64(0) + LittleEndian32(0) + LittleEndian16(64) + LittleEndian16(56) + LittleEndian16(count)
    + LittleEndian16(0) + LittleEndian16(0) + LittleEndian16(0)
  }

  function ProgramHeaders(segments: seq<Segment>): (h: seq<Byte>)
    requires forall k | 0 <= k < |segments| :: segments[k].at + segments[k].memorySize < 0x1_0000_0000_0000_0000
    ensures |h| == 56 * |segments|
  {
    if segments == [] then []
    else ProgramHeaders(segments[..|segments| - 1]) + ProgramHeader(segments[|segments| - 1])
  }

  /** The program and whatever follows its headers. */
  function Encode(program: Program, rest: seq<Byte>): (file: seq<Byte>)
    requires |program.segments| < 0x1_0000
    requires forall k | 0 <= k < |program.segments| ::
               program.segments[k].at + program.segments[k].memorySize < 0x1_0000_0000_0000_0000
    ensures |file| == 64 + 56 * |program.segments| + |rest|
  {
    FileHeader(program.entry, |program.segments|) + ProgramHeaders(program.segments) + rest
  }

  lemma {:induction false} U16AtSame(s: seq<Byte>, at: nat, r: seq<Byte>, from: nat)
    requires at + 2 <= |s| && from + 2 <= |r| && s[at..at + 2] == r[from..from + 2]
    ensures U16At(s, at) == U16At(r, from)
  {
    var x, y := s[at..at + 2], r[from..from + 2];
    assert x[0] == s[at] && x[1] == s[at + 1];
    assert y[0] == r[from] && y[1] == r[from + 1];
  }

  lemma {:induction false} U64AtSame(s: seq<Byte>, at: nat, r: seq<Byte>, from: nat)
    requires at + 8 <= |s| && from + 8 <= |r| && s[at..at + 8] == r[from..from + 8]
    ensures U64At(s, at) == U64At(r, from)
  {
    assert s[at..at + 4] == s[at..at + 8][..4] && r[from..from + 4] == r[from..from + 8][..4];
    assert s[at + 4..at + 8] == s[at..at + 8][4..] && r[from + 4..from + 8] == r[from..from + 8][4..];
    U32AtSame(s, at, r, from);
    U32AtSame(s, at + 4, r, from + 4);
  }

  /** The fields of a file header are where the reader looks. */
  lemma {:induction false} FileHeaderFields(entry: U64, count: U16)
    ensures var h := FileHeader(entry, count);
      && h[..4] == [0x7F, 0x45, 0x4C, 0x46] && h[4] == 2 && h[5] == 1 && h[6] == 1
      && U16At(h, 16) == 2 && U16At(h, 18) == 0x3E && U64At(h, 24) == entry && U64At(h, 32) == 64
      && U16At(h, 54) == 56 && U16At(h, 56) == count
  {
    var h := FileHeader(entry, count);
    hide LittleEndian64, LittleEndian32, LittleEndian16, U64At, U32At, U16At;
    assert h[16..18] == LittleEndian16(2)[0..2];
    U16AtSame(h, 16, LittleEndian16(2), 0);
    assert h[18..20] == LittleEndian16(0x3E)[0..2];
    U16AtSame(h, 18, LittleEndian16(0x3E), 0);
    assert h[24..32] == LittleEndian64(entry)[0..8];
    U64AtSame(h, 24, LittleEndian64(entry), 0);
    assert h[32..40] == LittleEndian64(64)[0..8];
    U64AtSame(h, 32, LittleEndian64(64), 0);
    assert h[54..56] == LittleEndian16(56)[0..2];
    U16AtSame(h, 54, LittleEndian16(56), 0);
    assert h[56..58] == LittleEndian16(count)[0..2];
    U16AtSame(h, 56, LittleEndian16(count), 0);
  }

  lemma {:induction false} ProgramHeaderFields(s: Segment)
    requires s.at + s.memorySize < 0x1_0000_0000_0000_0000
    ensures var h := ProgramHeader(s);
      && U32At(h, 0) == 1 && U32At(h, 4) == s.flags && U64At(h, 8) == s.fileOffset && U64At(h, 16) == s.at
      && U64At(h, 32) == s.fileSize && U64At(h, 40) == s.memorySize
  {
    var h := ProgramHeader(s);
    hide LittleEndian64, LittleEndian32, U64At, U32At;
    assert h[0..4] == LittleEndian32(1)[0..4];
    U32AtSame(h, 0, LittleEndian32(1), 0);
    assert h[4..8] == LittleEndian32(s.flags)[0..4];
    U32AtSame(h, 4, LittleEndian32(s.flags), 0);
    assert h[8..16] == LittleEndian64(s.fileOffset)[0..8];
    U64AtSame(h, 8, LittleEndian64(s.fileOffset), 0);
    assert h[16..24] == LittleEndian64(s.at)[0..8];
    U64AtSame(h, 16, LittleEndian64(s.at), 0);
    assert h[32..40] == LittleEndian64(s.fileSize)[0..8];
    U64AtSame(h, 32, LittleEndian64(s.fileSize), 0);
    assert h[40..48] == LittleEndian64(s.memorySize)[0..8];
    U64AtSame(h, 40, LittleEndian64(s.memorySize), 0);
  }

  lemma {:induction false} HeaderInPlace(segments: seq<Segment>, i: nat)
    requires forall k | 0 <= k < |segments| :: segments[k].at + segments[k].memorySize < 0x1_0000_0000_0000_0000
    requires i < |segments|
    ensures ProgramHeaders(segments)[56 * i..56 * i + 56] == ProgramHeader(segments[i])
  {
    hide ProgramHeader;
    if i < |segments| - 1 {
      HeaderInPlace(segments[..|segments| - 1], i);
      assert ProgramHeaders(segments)[56 * i..56 * i + 56]
             == ProgramHeaders(segments[..|segments| - 1])[56 * i..56 * i + 56];
    }
  }

  /** What is read of an encoded file is what was encoded. */
  lemma {:induction false} EncodedHeader(program: Program, rest: seq<Byte>)
    requires 0 < |program.segments| < 0x1_0000
    requires forall k | 0 <= k < |program.segments| ::
               program.segments[k].at + program.segments[k].memorySize < 0x1_0000_0000_0000_0000
    ensures var file := Encode(program, rest);
      HeaderOk(file) && HeaderCount(file) == |program.segments| && U64At(file, 24) == program.entry
        && TableAt(file) == 64
  {
    var file, h := Encode(program, rest), FileHeader(program.entry, |program.segments|);
    FileHeaderFields(program.entry, |program.segments|);
    hide FileHeader, ProgramHeaders, U64At, U16At;
    assert file[..64] == h;
    assert file[..4] == h[..4];
    assert file[4] == h[4] && file[5] == h[5] && file[6] == h[6];
    Field(file, h, 16, 2);
    U16AtSame(file, 16, h, 16);
    Field(file, h, 18, 2);
    U16AtSame(file, 18, h, 18);
    Field(file, h, 24, 8);
    U64AtSame(file, 24, h, 24);
    Field(file, h, 32, 8);
    U64AtSame(file, 32, h, 32);
    Field(file, h, 54, 2);
    U16AtSame(file, 54, h, 54);
    Field(file, h, 56, 2);
    U16AtSame(file, 56, h, 56);
  }

  lemma {:induction false} Field(file: seq<Byte>, h: seq<Byte>, at: nat, n: nat)
    requires |h| <= |file| && file[..|h|] == h && at + n <= |h|
    ensures file[at..at + n] == h[at..at + n]
  {
    assert file[..|h|][at..at + n] == file[at..at + n];
  }

  lemma {:induction false} SegmentInPlace(program: Program, rest: seq<Byte>, i: nat)
    requires |program.segments| < 0x1_0000 && i < |program.segments|
    requires forall k | 0 <= k < |program.segments| ::
               program.segments[k].at + program.segments[k].memorySize < 0x1_0000_0000_0000_0000
    ensures Encode(program, rest)[64 + 56 * i..64 + 56 * i + 56] == ProgramHeader(program.segments[i])
  {
    hide FileHeader, ProgramHeader, ProgramHeaders;
    var file, headers := Encode(program, rest), ProgramHeaders(program.segments);
    HeaderInPlace(program.segments, i);
    assert file[64..64 + |headers|] == headers;
    Part(file, headers, 64, 56 * i, 56);
  }

  lemma {:induction false} EncodedSegment(program: Program, rest: seq<Byte>, i: nat)
    requires |program.segments| < 0x1_0000 && i < |program.segments|
    requires forall k | 0 <= k < |program.segments| ::
               program.segments[k].at + program.segments[k].memorySize < 0x1_0000_0000_0000_0000
    requires HeaderOk(Encode(program, rest)) && HeaderCount(Encode(program, rest)) == |program.segments|
    requires TableAt(Encode(program, rest)) == 64
    ensures IsLoad(Encode(program, rest), i) && SegmentAt(Encode(program, rest), i) == program.segments[i]
  {
    hide Encode, ProgramHeader, U64At, U32At, U16At, HeaderOk, TableAt, HeaderCount;
    var file, h, at := Encode(program, rest), ProgramHeader(program.segments[i]), 64 + 56 * i;
    SegmentInPlace(program, rest, i);
    ProgramHeaderFields(program.segments[i]);
    assert HeaderPlace(file, i) == at;
    Part(file, h, at, 0, 4);
    U32AtSame(file, at, h, 0);
    Part(file, h, at, 4, 4);
    U32AtSame(file, at + 4, h, 4);
    Part(file, h, at, 8, 8);
    U64AtSame(file, at + 8, h, 8);
    Part(file, h, at, 16, 8);
    U64AtSame(file, at + 16, h, 16);
    Part(file, h, at, 32, 8);
    U64AtSame(file, at + 32, h, 32);
    Part(file, h, at, 40, 8);
    U64AtSame(file, at + 40, h, 40);
  }

  lemma {:induction false} Part(file: seq<Byte>, h: seq<Byte>, at: nat, from: nat, n: nat)
    requires at + |h| <= |file| && file[at..at + |h|] == h && from + n <= |h|
    ensures file[at + from..at + from + n] == h[from..from + n]
  {
    var whole, there, here := file[at..at + |h|], file[at + from..at + from + n], h[from..from + n];
    forall k | 0 <= k < n ensures there[k] == here[k] {
      assert whole[from + k] == file[at + (from + k)] == file[at + from + k] == there[k];
    }
  }

  lemma {:induction false} EncodedLoads(program: Program, rest: seq<Byte>, n: nat)
    requires 0 < |program.segments| < 0x1_0000 && n <= |program.segments|
    requires forall k | 0 <= k < |program.segments| ::
               program.segments[k].at + program.segments[k].memorySize < 0x1_0000_0000_0000_0000
    requires HeaderOk(Encode(program, rest)) && HeaderCount(Encode(program, rest)) == |program.segments|
    requires TableAt(Encode(program, rest)) == 64
    ensures Loads(Encode(program, rest), n) == program.segments[..n]
  {
    hide Encode, SegmentAt, IsLoad, HeaderOk;
    if n > 0 {
      EncodedLoads(program, rest, n - 1);
      EncodedSegment(program, rest, n - 1);
      assert program.segments[..n] == program.segments[..n - 1] + [program.segments[n - 1]];
    }
  }

  /** The segment is in a file of that length, in user space, not empty, and not both writable and
      executable. */
  predicate Acceptable(s: Segment, length: nat, userSpaceEnd: U64) {
    && s.fileOffset + s.fileSize <= length
    && s.fileSize <= s.memorySize && 0 < s.memorySize && s.at + s.memorySize <= userSpaceEnd
    && s.flags % 4 != 3
  }

  /** The entry is in one that runs. */
  predicate Enters(s: Segment, entry: U64) {
    s.at <= entry < s.at + s.memorySize && s.flags % 2 == 1
  }

  lemma {:induction false} SegmentMeans(file: seq<Byte>, s: Segment, userSpaceEnd: U64, entry: U64)
    ensures SegmentOk(file, userSpaceEnd, s) <==> Acceptable(s, |file|, userSpaceEnd)
    ensures s.at <= entry < s.End() && s.Executable() <==> Enters(s, entry)
  {
  }

  /** What is written out is well formed exactly for what its segments are. */
  lemma {:induction false} EncodedWellFormed(program: Program, rest: seq<Byte>, userSpaceEnd: U64)
    requires 0 < |program.segments| < 0x1_0000
    requires forall k | 0 <= k < |program.segments| ::
               program.segments[k].at + program.segments[k].memorySize < 0x1_0000_0000_0000_0000
    ensures var file := Encode(program, rest);
      && HeaderOk(file) && U64At(file, 24) == program.entry && Loads(file, HeaderCount(file)) == program.segments
      && (WellFormed(file, userSpaceEnd) <==>
            && |program.segments| <= 8
            && (forall k | 0 <= k < |program.segments| :: Acceptable(program.segments[k], |file|, userSpaceEnd))
            && (exists k | 0 <= k < |program.segments| :: Enters(program.segments[k], program.entry)))
  {
    hide Encode, Loads, SegmentAt, IsLoad, HeaderOk, SegmentOk, Acceptable, Enters, HeaderCount, TableAt, U64At;
    var file := Encode(program, rest);
    EncodedHeader(program, rest);
    EncodedLoads(program, rest, |program.segments|);
    assert program.segments[..|program.segments|] == program.segments;
    forall k | 0 <= k < |program.segments|
      ensures IsLoad(file, k) && SegmentAt(file, k) == program.segments[k]
      ensures SegmentOk(file, userSpaceEnd, program.segments[k]) <==>
              Acceptable(program.segments[k], |file|, userSpaceEnd)
      ensures program.segments[k].at <= program.entry < program.segments[k].End() && program.segments[k].Executable()
              <==> Enters(program.segments[k], program.entry)
    {
      EncodedSegment(program, rest, k);
      SegmentMeans(file, program.segments[k], userSpaceEnd, program.entry);
    }
  }

  /** A program written out and read back is the program, and it is accepted exactly when it has up to
      eight segments, each of them in the file, in user space and not both writable and executable, and
      starts inside one that runs. */
  method EncodeThenParse(program: Program, rest: seq<Byte>, userSpaceEnd: U64) returns (r: Result<Program, ElfError>)
    requires 0 < |program.segments| < 0x1_0000
    requires forall k | 0 <= k < |program.segments| ::
               program.segments[k].at + program.segments[k].memorySize < 0x1_0000_0000_0000_0000
    requires 64 + 56 * |program.segments| + |rest| < SLICE_LIMIT
    ensures r.Ok? ==> r.value == program
    ensures r.Ok? <==>
            && |program.segments| <= 8
            && (forall k | 0 <= k < |program.segments| ::
                  Acceptable(program.segments[k], 64 + 56 * |program.segments| + |rest|, userSpaceEnd))
            && (exists k | 0 <= k < |program.segments| :: Enters(program.segments[k], program.entry))
  {
    hide Encode, Loads, HeaderOk, Refused, WellFormed, Acceptable, Enters, SegmentOk;
    EncodedWellFormed(program, rest, userSpaceEnd);
    r := Parse(Encode(program, rest), userSpaceEnd);
  }
}
