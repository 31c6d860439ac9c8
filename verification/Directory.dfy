/** Directory slots and the 8.3 names they hold (hal/src/fat.rs). */
module Directory {
  import opened Bytes

  const DIRECTORY_ENTRY_BYTES := 32
  const SPACE: Byte := 0x20
  const DOT: Byte := 0x2E
  const NEVER_USED: Byte := 0x00
  const DELETED: Byte := 0xE5
  const ATTR_ARCHIVE: Byte := 0x20

  type SlotBytes = s: seq<Byte> | |s| == DIRECTORY_ENTRY_BYTES witness seq(DIRECTORY_ENTRY_BYTES, _ => 0)

  function Lower(b: Byte): Byte {
    if 0x41 <= b <= 0x5A then b + 0x20 else b
  }

  function Upper(b: Byte): Byte {
    if 0x61 <= b <= 0x7A then b - 0x20 else b
  }

  function UpperAll(s: seq<Byte>): (r: seq<Byte>)
    ensures |r| == |s| && forall i :: 0 <= i < |s| ==> r[i] == Upper(s[i])
  {
    seq(|s|, i requires 0 <= i < |s| => Upper(s[i]))
  }

  /** The twenty-six letters change case and nothing else does. */
  lemma {:induction false} CaseMeans(b: Byte, k: nat)
    requires k < 26
    ensures b == 0x41 + k || b == 0x61 + k ==> Upper(b) == 0x41 + k && Lower(b) == 0x61 + k
    ensures !(0x41 <= b < 0x41 + 26) && !(0x61 <= b < 0x61 + 26) ==> Upper(b) == Lower(b) == b
  {
  }

  predicate EqualIgnoringCase(a: seq<Byte>, b: seq<Byte>) {
    |a| == |b| && forall i :: 0 <= i < |a| ==> Lower(a[i]) == Lower(b[i])
  }

  predicate Continues(b: Byte) {
    0x80 <= b <= 0xBF
  }

  /** Whether bytes are text, as `core::str::from_utf8` decides it. */
  predicate ValidUtf8(s: seq<Byte>) {
    if s == [] then true
    else if s[0] < 0x80 then ValidUtf8(s[1..])
    else if 0xC2 <= s[0] <= 0xDF then |s| >= 2 && Continues(s[1]) && ValidUtf8(s[2..])
    else if 0xE0 <= s[0] <= 0xEF then
      && |s| >= 3 && Continues(s[1]) && Continues(s[2])
      && (s[0] == 0xE0 ==> 0xA0 <= s[1]) && (s[0] == 0xED ==> s[1] <= 0x9F)
      && ValidUtf8(s[3..])
    else
      && 0xF0 <= s[0] <= 0xF4
      && |s| >= 4 && Continues(s[1]) && Continues(s[2]) && Continues(s[3])
      && (s[0] == 0xF0 ==> 0x90 <= s[1]) && (s[0] == 0xF4 ==> s[1] <= 0x8F)
      && ValidUtf8(s[4..])
  }

  lemma {:induction false} AsciiIsText(s: seq<Byte>)
    requires forall i :: 0 <= i < |s| ==> s[i] < 0x80
    ensures ValidUtf8(s)
  {
    if s != [] {
      AsciiIsText(s[1..]);
    }
  }

  /** What a directory says about one of the things in it. */
  datatype DirectoryEntry = DirectoryEntry(name: seq<Byte>, attributes: Byte, firstCluster: U32, size: U32) {
    predicate IsDirectory() {
      attributes / 0x10 % 2 == 1
    }

    /** The name as text; a stored name that is not text reads as no name at all. */
    function Name(): seq<Byte> {
      if ValidUtf8(name) then name else []
    }

    predicate IsNamed(other: seq<Byte>) {
      EqualIgnoringCase(Name(), other)
    }
  }

  datatype Slot = Entry(entry: DirectoryEntry) | Skip | End

  /** The part of a padded field before its first space. */
  function UpToSpace(s: seq<Byte>): (r: seq<Byte>)
    ensures r <= s
    ensures forall i :: 0 <= i < |r| ==> r[i] != SPACE
    ensures |r| < |s| ==> s[|r|] == SPACE
  {
    if s == [] || s[0] == SPACE then [] else [s[0]] + UpToSpace(s[1..])
  }

  /** The name that eleven stored bytes spell: the dot is put back between the two fields. */
  function StoredName(raw: seq<Byte>): (r: seq<Byte>)
    requires |raw| >= 11
    ensures |r| <= 12
  {
    if raw[8] == SPACE then UpToSpace(raw[..8])
    else UpToSpace(raw[..8]) + [DOT] + UpToSpace(raw[8..11])
  }

  /** What one slot of a directory says. */
  function SlotOf(bytes: SlotBytes): Slot {
    if bytes[0] == NEVER_USED then End
    else if bytes[0] == DELETED then Skip
    else if bytes[11] % 0x10 == 0x0F || bytes[11] / 8 % 2 == 1 then Skip
    else Entry(DirectoryEntry(StoredName(bytes), bytes[11],
                              0x1_0000 * U16At(bytes, 20) + U16At(bytes, 26), U32At(bytes, 28)))
  }

  /** The raw bytes of a slot that names something: ever used, not deleted, and neither the volume's
      label nor a piece of a long name. */
  predicate Live(raw: SlotBytes) {
    raw[0] != 0x00 && raw[0] != 0xE5 && raw[11] % 0x10 < 8
  }

  /** Bit 4 of the attributes. */
  predicate DirectoryBit(raw: SlotBytes) {
    raw[11] % 0x20 >= 0x10
  }

  /** What the thirty-two bytes of a slot mean, byte by byte. */
  lemma {:induction false} SlotMeans(raw: SlotBytes)
    ensures SlotOf(raw).End? <==> raw[0] == 0x00
    ensures SlotOf(raw).Entry? <==> Live(raw)
    ensures Live(raw) ==> var entry := SlotOf(raw).entry;
              && (entry.IsDirectory() <==> DirectoryBit(raw))
              && entry.firstCluster == Number(raw[26], raw[27], raw[20], raw[21])
              && entry.size == Number(raw[28], raw[29], raw[30], raw[31])
  {
    AttributeBits(raw[11]);
    hide UpToSpace;
  }

  lemma {:induction false} AttributeBits(a: Byte)
    ensures a % 0x20 >= 0x10 <==> a / 0x10 % 2 == 1
    ensures a % 0x10 >= 8 <==> a / 8 % 2 == 1
    ensures a % 0x10 == 0x0F ==> a % 0x10 >= 8
  {
  }

  /** The number whose bytes these are, the lowest first. */
  function Number(a: int, b: int, c: int, d: int): int {
    a + 0x100 * b + 0x1_0000 * c + 0x100_0000 * d
  }

  lemma {:induction false} UpToSpaceSame(s: seq<Byte>, r: seq<Byte>)
    requires r <= s && (|r| == |s| || s[|r|] == SPACE)
    requires forall i :: 0 <= i < |r| ==> r[i] != SPACE
    ensures UpToSpace(s) == r
  {
    if r != [] {
      assert r[0] == s[0];
      UpToSpaceSame(s[1..], r[1..]);
    }
  }

  /** Copies a padded field into `name` at `at`, up to its first space. */
  method CopyField(field: seq<Byte>, name: array<Byte>, at: nat) returns (len: nat)
    requires at + |field| <= name.Length
    modifies name
    ensures len == at + |UpToSpace(field)|
    ensures name[..len] == old(name[..at]) + UpToSpace(field)
  {
    var i := 0;
    while i < |field| && field[i] != SPACE
      invariant i <= |field|
      invariant forall j | 0 <= j < i :: field[j] != SPACE
      invariant name[..at + i] == old(name[..at]) + field[..i]
    {
      name[at + i] := field[i];
      assert name[..at + i + 1] == name[..at + i] + [field[i]];
      i := i + 1;
    }
    UpToSpaceSame(field, field[..i]);
    len := at + i;
  }

  method DecodeName(bytes: SlotBytes) returns (r: seq<Byte>)
    ensures r == StoredName(bytes)
  {
    var base, extension := bytes[..8], bytes[8..11];
    var name := new Byte[12](_ => 0);
    var len := CopyField(base, name, 0);
    assert name[..len] == UpToSpace(base);
    if bytes[8] != SPACE {
      name[len] := DOT;
      assert name[..len + 1] == UpToSpace(base) + [DOT];
      len := CopyField(extension, name, len + 1);
    }
    r := name[..len];
  }

  /** `decode_slot`: fills a local name byte by byte. */
  method DecodeSlot(bytes: SlotBytes) returns (r: Slot)
    ensures r == SlotOf(bytes)
  {
    if bytes[0] == NEVER_USED {
      return End;
    }
    if bytes[0] == DELETED {
      return Skip;
    }
    var attributes := bytes[11];
    if attributes % 0x10 == 0x0F || attributes / 8 % 2 == 1 {
      return Skip;
    }
    var name := DecodeName(bytes);
    r := Entry(DirectoryEntry(name, attributes, 0x1_0000 * U16At(bytes, 20) + U16At(bytes, 26), U32At(bytes, 28)));
  }

  // ---------------------------------------------------------------------
  // Names going in
  // ---------------------------------------------------------------------

  /** What a short name may hold, upper-cased. */
  function AllowedInAName(b: Byte): (r: Option<Byte>)
    ensures r.Some? ==> 0x20 < r.value < 0x7F && r.value == Upper(b)
  {
    if b >= 0x80 || b < 0x20 || b == 0x7F
       || b in [0x22, 0x2A, 0x2F, 0x3A, 0x3C, 0x3E, 0x3F, 0x5C, 0x7C, 0x2B, 0x2C, 0x3B, 0x3D, 0x5B, 0x5D, 0x20]
    then None
    else Some(Upper(b))
  }

  /** The characters besides letters and digits: those that "Short Directory Entry Names" of the FAT32
      File System Specification lists, and the dot, since only the first one ends the base. */
  const PUNCTUATION: seq<Byte> :=
    [0x21, 0x23, 0x24, 0x25, 0x26, 0x27, 0x28, 0x29, 0x2D, 0x2E, 0x40, 0x5E, 0x5F, 0x60, 0x7B, 0x7D, 0x7E]

  /** Which characters a name may hold. */
  lemma {:induction false} AllowedMeans(b: Byte)
    ensures AllowedInAName(b).Some? <==>
            0x41 <= b < 0x41 + 26 || 0x61 <= b < 0x61 + 26 || 0x30 <= b < 0x30 + 10 || b in PUNCTUATION
  {
    if
    case b < 0x29 => AllowedLow(b);
    case 0x29 <= b < 0x30 => AllowedSigns(b);
    case 0x30 <= b < 0x5B => AllowedMiddle(b);
    case 0x5B <= b => AllowedHigh(b);
    hide AllowedInAName;
  }

  lemma {:induction false} AllowedLow(b: Byte)
    requires b < 0x29
    ensures AllowedInAName(b).Some? <==> b in PUNCTUATION
  {
  }

  lemma {:induction false} AllowedSigns(b: Byte)
    requires 0x29 <= b < 0x30
    ensures AllowedInAName(b).Some? <==> b in PUNCTUATION
  {
  }

  lemma {:induction false} AllowedMiddle(b: Byte)
    requires 0x30 <= b < 0x5B
    ensures AllowedInAName(b).Some? <==> 0x41 <= b < 0x41 + 26 || 0x30 <= b < 0x30 + 10 || b in PUNCTUATION
  {
  }

  lemma {:induction false} AllowedHigh(b: Byte)
    requires 0x5B <= b
    ensures AllowedInAName(b).Some? <==> 0x61 <= b < 0x61 + 26 || b in PUNCTUATION
  {
  }

  predicate AllAllowed(s: seq<Byte>) {
    forall i :: 0 <= i < |s| ==> AllowedInAName(s[i]).Some?
  }

  /** Where the first dot is, or the length when there is none. */
  function FirstDot(name: seq<Byte>): (r: nat)
    ensures r <= |name|
    ensures forall i :: 0 <= i < r ==> name[i] != DOT
    ensures r < |name| ==> name[r] == DOT
  {
    if name == [] || name[0] == DOT then 0 else 1 + FirstDot(name[1..])
  }

  function Base(name: seq<Byte>): seq<Byte> {
    name[..FirstDot(name)]
  }

  function Extension(name: seq<Byte>): seq<Byte> {
    var dot := FirstDot(name);
    if dot < |name| then name[dot + 1..] else []
  }

  /** A name whose first dot is its last byte, such as `LOG.`: the dot is not stored. */
  predicate EndsAtItsFirstDot(name: seq<Byte>) {
    FirstDot(name) + 1 == |name|
  }

  function Padded(s: seq<Byte>, width: nat): (r: seq<Byte>)
    requires |s| <= width
    ensures |r| == width
    ensures forall i | 0 <= i < width :: r[i] == if i < |s| then s[i] else SPACE
  {
    s + seq(width - |s|, _ => SPACE)
  }

  predicate FitsEightAndThree(name: seq<Byte>) {
    && 0 < |Base(name)| <= 8 && |Extension(name)| <= 3
    && AllAllowed(Base(name)) && AllAllowed(Extension(name))
  }

  /** What a name looks like in a directory entry, or `None` for one that would not fit. */
  function EncodedName(name: seq<Byte>): (r: Option<seq<Byte>>)
    ensures r.Some? <==> FitsEightAndThree(name)
    ensures r.Some? ==> |r.value| == 11 && r.value[0] != SPACE && r.value[0] != NEVER_USED && r.value[0] != DELETED
    ensures r.Some? ==> forall i :: 0 <= i < 11 ==> 0x20 <= r.value[i] < 0x7F
  {
    var base, extension := Base(name), Extension(name);
    if base == [] || |base| > 8 || |extension| > 3 then None
    else if !AllAllowed(base) || !AllAllowed(extension) then None
    else Some(Padded(UpperAll(base), 8) + Padded(UpperAll(extension), 3))
  }

  method PutField(field: seq<Byte>, encoded: array<Byte>, at: nat) returns (ok: bool)
    requires at + |field| <= encoded.Length
    modifies encoded
    ensures ok == AllAllowed(field)
    ensures ok ==> forall i | 0 <= i < encoded.Length ::
              encoded[i] == if at <= i < at + |field| then Upper(field[i - at]) else old(encoded[i])
  {
    var i := 0;
    while i < |field|
      invariant i <= |field|
      invariant AllAllowed(field[..i])
      invariant forall j | 0 <= j < encoded.Length ::
                  encoded[j] == if at <= j < at + i then Upper(field[j - at]) else old(encoded[j])
    {
      var allowed := AllowedInAName(field[i]);
      if allowed.None? {
        return false;
      }
      encoded[at + i] := allowed.value;
      i := i + 1;
    }
    assert field[..i] == field;
    ok := true;
  }

  method FindDot(name: seq<Byte>) returns (dot: nat)
    ensures dot == FirstDot(name)
  {
    dot := 0;
    while dot < |name| && name[dot] != DOT
      invariant dot <= |name|
      invariant forall i :: 0 <= i < dot ==> name[i] != DOT
    {
      dot := dot + 1;
    }
  }

  /** `encode_name`: fills eleven spaces field by field, giving up at the first byte it may not store. */
  method EncodeName(name: seq<Byte>) returns (r: Option<seq<Byte>>)
    ensures r == EncodedName(name)
  {
    var dot := FindDot(name);
    var base := name[..dot];
    var extension := if dot < |name| then name[dot + 1..] else [];
    if base == [] || |base| > 8 || |extension| > 3 {
      return None;
    }
    r := PutFields(base, extension);
    if r.Some? {
      EncodedFields(name, r.value);
    }
  }

  method PutFields(base: seq<Byte>, extension: seq<Byte>) returns (r: Option<seq<Byte>>)
    requires 0 < |base| <= 8 && |extension| <= 3
    ensures r.Some? <==> AllAllowed(base) && AllAllowed(extension)
    ensures r.Some? ==> |r.value| == 11
    ensures r.Some? ==> forall i | 0 <= i < 8 :: r.value[i] == if i < |base| then Upper(base[i]) else SPACE
    ensures r.Some? ==>
              forall i | 8 <= i < 11 :: r.value[i] == if i - 8 < |extension| then Upper(extension[i - 8]) else SPACE
  {
    var encoded := new Byte[11](_ => SPACE);
    var ok := PutField(base, encoded, 0);
    if !ok {
      return None;
    }
    ok := PutField(extension, encoded, 8);
    if !ok {
      return None;
    }
    assert AllowedInAName(base[0]).Some? && encoded[0] == Upper(base[0]);
    if encoded[0] == DELETED {
      return None;
    }
    r := Some(encoded[..]);
  }

  lemma {:induction false} EncodedFields(name: seq<Byte>, encoded: seq<Byte>)
    requires FitsEightAndThree(name) && |encoded| == 11
    requires forall i | 0 <= i < 8 :: encoded[i] == if i < |Base(name)| then Upper(Base(name)[i]) else SPACE
    requires forall i | 8 <= i < 11 ::
               encoded[i] == if i - 8 < |Extension(name)| then Upper(Extension(name)[i - 8]) else SPACE
    ensures EncodedName(name) == Some(encoded)
  {
    assert encoded[..8] == Padded(UpperAll(Base(name)), 8);
    assert encoded[8..] == Padded(UpperAll(Extension(name)), 3);
    assert encoded == encoded[..8] + encoded[8..];
  }

  // ---------------------------------------------------------------------
  // Round trips
  // ---------------------------------------------------------------------

  /** The name a file written as `name` goes by afterwards. */
  function Canonical(name: seq<Byte>): seq<Byte>
    requires FitsEightAndThree(name)
  {
    StoredName(EncodedName(name).value)
  }

  /** Encoding and reading back gives the upper-cased name, except that a dot with nothing
      after it is lost. */
  lemma {:induction false} NameRoundTrip(name: seq<Byte>)
    requires FitsEightAndThree(name)
    ensures Canonical(name) == if EndsAtItsFirstDot(name) then UpperAll(Base(name)) else UpperAll(name)
    ensures ValidUtf8(Canonical(name))
  {
    hide EncodedName, StoredName, UpperAll, FirstDot;
    CanonicalParts(name);
    SplitRoundTrip(name);
    AsciiIsText(Canonical(name));
  }

  lemma {:induction false} CanonicalParts(name: seq<Byte>)
    requires FitsEightAndThree(name)
    ensures var base, extension := UpperAll(Base(name)), UpperAll(Extension(name));
            Canonical(name) == if extension == [] then base else base + [DOT] + extension
    ensures forall i | 0 <= i < |Canonical(name)| :: Canonical(name)[i] < 0x80
  {
    hide FirstDot, UpToSpace;
    var raw := EncodedName(name).value;
    var base, extension := UpperAll(Base(name)), UpperAll(Extension(name));
    assert raw[..8] == Padded(base, 8) && raw[8..11] == Padded(extension, 3);
    FieldRoundTrip(Base(name), 8);
    FieldRoundTrip(Extension(name), 3);
    hide UpperAll, AllAllowed, EncodedName;
    assert raw[8] == raw[8..11][0];
  }

  /** Upper-casing the two halves and putting the dot back is upper-casing the name. */
  lemma {:induction false} SplitRoundTrip(name: seq<Byte>)
    ensures Extension(name) == [] && !EndsAtItsFirstDot(name) ==> Base(name) == name
    ensures EndsAtItsFirstDot(name) ==> Extension(name) == []
    ensures Extension(name) != [] ==> UpperAll(Base(name)) + [DOT] + UpperAll(Extension(name)) == UpperAll(name)
  {
    if Extension(name) != [] {
      assert name == Base(name) + [DOT] + Extension(name);
      UpperAllConcat(Base(name) + [DOT], Extension(name));
      UpperAllConcat(Base(name), [DOT]);
      assert UpperAll([DOT]) == [DOT];
    }
  }

  lemma {:induction false} UpperAllConcat(a: seq<Byte>, b: seq<Byte>)
    ensures UpperAll(a + b) == UpperAll(a) + UpperAll(b)
  {
  }

  lemma {:induction false} FieldRoundTrip(field: seq<Byte>, width: nat)
    requires AllAllowed(field) && |field| <= width
    ensures UpToSpace(Padded(UpperAll(field), width)) == UpperAll(field)
    ensures forall i :: 0 <= i < |field| ==> 0x20 < UpperAll(field)[i] < 0x7F
  {
    var u := UpperAll(field);
    forall i | 0 <= i < |field| ensures 0x20 < u[i] < 0x7F {
      assert AllowedInAName(field[i]).Some?;
    }
    var p := Padded(u, width);
    assert u <= p;
    UpToSpaceSame(p, u);
  }

  /** Ignoring case is what upper-casing forgets. */
  lemma {:induction false} UpperIsIgnoringCase(a: seq<Byte>, b: seq<Byte>)
    ensures UpperAll(a) == UpperAll(b) <==> EqualIgnoringCase(a, b)
    ensures EqualIgnoringCase(UpperAll(a), a)
  {
    if UpperAll(a) == UpperAll(b) {
      forall i | 0 <= i < |a| ensures Lower(a[i]) == Lower(b[i]) {
        assert UpperAll(a)[i] == UpperAll(b)[i];
      }
    }
    if EqualIgnoringCase(a, b) {
      forall i | 0 <= i < |a| ensures UpperAll(a)[i] == UpperAll(b)[i] {
        assert Lower(a[i]) == Lower(b[i]);
      }
    }
  }

  /** Two names are stored alike exactly when they are the same name ignoring case. */
  lemma {:induction false} EncodedAlike(a: seq<Byte>, b: seq<Byte>)
    requires FitsEightAndThree(a) && FitsEightAndThree(b)
    requires !EndsAtItsFirstDot(a) && !EndsAtItsFirstDot(b)
    ensures EncodedName(a) == EncodedName(b) <==> EqualIgnoringCase(a, b)
  {
    NameRoundTrip(a);
    NameRoundTrip(b);
    UpperIsIgnoringCase(a, b);
    if EqualIgnoringCase(a, b) {
      SameDot(a, b);
      UpperIsIgnoringCase(Base(a), Base(b));
      UpperIsIgnoringCase(Extension(a), Extension(b));
    }
  }

  lemma {:induction false} SameDot(a: seq<Byte>, b: seq<Byte>)
    requires EqualIgnoringCase(a, b)
    ensures FirstDot(a) == FirstDot(b)
    ensures EqualIgnoringCase(Base(a), Base(b)) && EqualIgnoringCase(Extension(a), Extension(b))
  {
    if a != [] {
      assert Lower(a[0]) == Lower(b[0]);
      if a[0] != DOT {
        SameDot(a[1..], b[1..]);
      }
    }
  }

  /** Slots that hold the same eleven bytes ignoring case hold the same name ignoring case. */
  lemma {:induction false} StoredAlike(raw: seq<Byte>, raw': seq<Byte>)
    requires |raw| >= 11 && |raw'| >= 11
    requires EqualIgnoringCase(raw[..11], raw'[..11])
    ensures EqualIgnoringCase(StoredName(raw), StoredName(raw'))
  {
    forall i | 0 <= i < 11 ensures Lower(raw[i]) == Lower(raw'[i]) {
      assert raw[..11][i] == raw[i] && raw'[..11][i] == raw'[i];
    }
    FieldAlike(raw[..8], raw'[..8]);
    FieldAlike(raw[8..11], raw'[8..11]);
    assert raw[8] == SPACE <==> raw'[8] == SPACE by { assert Lower(raw[8]) == Lower(raw'[8]); }
    AlikeJoined(UpToSpace(raw[..8]), UpToSpace(raw'[..8]), UpToSpace(raw[8..11]), UpToSpace(raw'[8..11]));
    hide UpToSpace, EqualIgnoringCase;
  }

  lemma {:induction false} AlikeJoined(a: seq<Byte>, a': seq<Byte>, b: seq<Byte>, b': seq<Byte>)
    requires EqualIgnoringCase(a, a') && EqualIgnoringCase(b, b')
    ensures EqualIgnoringCase(a + [DOT] + b, a' + [DOT] + b')
  {
  }

  /** ... and is text whenever the bytes it is compared with are. */
  lemma {:induction false} StoredAscii(raw: seq<Byte>, encoded: seq<Byte>)
    requires |raw| >= 11 && |encoded| == 11
    requires EqualIgnoringCase(raw[..11], encoded)
    requires forall i :: 0 <= i < 11 ==> encoded[i] < 0x80
    ensures ValidUtf8(StoredName(raw))
  {
    forall i | 0 <= i < 11 ensures raw[i] < 0x80 {
      assert raw[..11][i] == raw[i] && Lower(raw[..11][i]) == Lower(encoded[i]);
    }
    AsciiIsText(StoredName(raw));
  }

  lemma {:induction false} FieldAlike(s: seq<Byte>, s': seq<Byte>)
    requires EqualIgnoringCase(s, s')
    ensures EqualIgnoringCase(UpToSpace(s), UpToSpace(s'))
  {
    if s != [] {
      assert Lower(s[0]) == Lower(s'[0]);
      if s[0] != SPACE {
        FieldAlike(s[1..], s'[1..]);
      }
    }
  }

  /** The thirty-two bytes `write_file` puts in a slot. */
  function NewEntry(encoded: seq<Byte>, first: U32, size: U32): (r: SlotBytes)
    requires |encoded| == 11
  {
    encoded + [ATTR_ARCHIVE] + seq(8, _ => 0) + LittleEndian16(first / 0x1_0000) + seq(4, _ => 0)
    + LittleEndian16(first % 0x1_0000) + LittleEndian32(size)
  }

  lemma {:induction false} NewEntryFields(encoded: seq<Byte>, first: U32, size: U32)
    requires |encoded| == 11
    ensures var r := NewEntry(encoded, first, size);
            && r[..11] == encoded && r[11] == ATTR_ARCHIVE
            && 0x1_0000 * U16At(r, 20) + U16At(r, 26) == first && U32At(r, 28) == size
  {
    var r := NewEntry(encoded, first, size);
    var low, high := LittleEndian16(first % 0x1_0000), LittleEndian16(first / 0x1_0000);
    assert r[20] == high[0] && r[21] == high[1];
    assert r[26] == low[0] && r[27] == low[1];
    assert r[28..32] == LittleEndian32(size)[0..4];
    U32AtSame(r, 28, LittleEndian32(size), 0);
  }

  lemma {:induction false} StoredNamePrefix(raw: seq<Byte>, raw': seq<Byte>)
    requires |raw| >= 11 && |raw'| >= 11 && raw[..11] == raw'[..11]
    ensures StoredName(raw) == StoredName(raw')
  {
    assert raw[..8] == raw[..11][..8] && raw'[..8] == raw'[..11][..8];
    assert raw[8..11] == raw[..11][8..] && raw'[8..11] == raw'[..11][8..];
    assert raw[8] == raw[..11][8] && raw'[8] == raw'[..11][8];
  }

  /** What `write_file` stores is what a reader of the slot gets back. */
  lemma {:induction false} EntryRoundTrip(name: seq<Byte>, first: U32, size: U32)
    requires FitsEightAndThree(name)
    ensures var e := SlotOf(NewEntry(EncodedName(name).value, first, size));
            && e == Entry(DirectoryEntry(Canonical(name), 0x20, first, size))
            && !e.entry.IsDirectory()
            && forall n: seq<Byte> :: e.entry.IsNamed(n) <==> EqualIgnoringCase(Canonical(name), n)
  {
    hide StoredName, NewEntry, EncodedName, EqualIgnoringCase, UpToSpace;
    var encoded := EncodedName(name).value;
    var r := NewEntry(encoded, first, size);
    NewEntryFields(encoded, first, size);
    assert r[0] == r[..11][0];
    StoredNamePrefix(r, encoded);
    NameRoundTrip(name);
  }

  const EA: seq<Byte> := [0x45, 0x41]
  const EA_DATA: seq<Byte> := [0x45, 0x41, SPACE, 0x44, 0x41, 0x54, 0x41, SPACE, SPACE, 0x53, 0x46]

  /** Eleven bytes that read as `EA` without being stored as `EA` would be: what follows the first
      space of a field is not looked at. */
  lemma {:induction false} ReadsAlikeStoredApart()
    ensures FitsEightAndThree(EA) && StoredName(EA_DATA) == EA == Canonical(EA)
    ensures !EqualIgnoringCase(EA_DATA, EncodedName(EA).value)
  {
    PlainEa();
    hide EncodedName, FitsEightAndThree, UpToSpace, Canonical, UpperAll;
    assert StoredName(EA_DATA) == EA by {
      UpToSpaceSame(EA_DATA[..8], EA);
    }
    assert Lower(EA_DATA[3]) != Lower(SPACE);
  }

  lemma {:induction false} PlainEa()
    ensures FitsEightAndThree(EA) && Canonical(EA) == EA && EncodedName(EA).value[3] == SPACE
  {
    assert FirstDot(EA[1..]) == 1 && FirstDot(EA) == 2 by {
      assert EA[1..][1..] == [];
    }
    assert Base(EA) == EA && Extension(EA) == [];
    hide FirstDot, Canonical;
    NameRoundTrip(EA);
  }
}
