/** The file calls of every process on one mounted volume: kernel/src/fs.rs and the open, read,
    close and write_file arms of kernel/src/user.rs. Whether a buffer belongs to the caller is a
    parameter. */
module Files {
  import opened Bytes
  import opened BootSectors
  import opened FatTable
  import opened Chains
  import opened VolumeState
  import opened Commit
  import opened VolumeSteps
  import opened Replacement
  import opened Answers
  import opened Volumes
  import opened Scheduling
  import opened Descriptors
  import Dir = Directory

  const MAX_NAME := 12
  const MAX_READ := 4096

  datatype FileError =
    | NotTheirs
    | BadDescriptor
    | TooManyOpen
    | NameRefused
    | NoSuchFile
    | NotAFile
    | FileOpen
    | NotOurDisk
    | Unreadable(why: VolumeError)
    | Unwritable(how: WriteError)

  class FileCalls {
    const volume: Volume
    /** Whether this is a disk the kernel writes to. */
    const ours: bool
    var tables: seq<Table>
    var alive: seq<bool>
    ghost var accounts: seq<Account>

    /** The volume can be read and written safely, and every descriptor is on its file. */
    ghost predicate Valid()
      reads this, volume
    {
      && volume.Valid() && SoundSomehow(volume.boot, volume.disk)
      && |tables| == |accounts| == |alive| == MAX_PROCESSES
      && TablesOk(volume.boot, volume.disk, tables, accounts, alive)
    }

    /** A sound volume, and sixteen slots with nothing open. */
    constructor (volume: Volume, ours: bool)
      requires volume.Valid() && SoundSomehow(volume.boot, volume.disk)
      ensures Valid() && this.volume == volume && this.ours == ours
      ensures tables == seq(MAX_PROCESSES, _ => NOTHING_OPEN) && alive == seq(MAX_PROCESSES, _ => true)
    {
      this.volume, this.ours := volume, ours;
      tables := seq(MAX_PROCESSES, _ => NOTHING_OPEN);
      alive := seq(MAX_PROCESSES, _ => true);
      accounts := seq(MAX_PROCESSES, _ => NOTHING_HELD);
    }

    ghost predicate Unchanged(t: seq<Table>, a: seq<Account>, l: seq<bool>)
      reads this
    {
      tables == t && accounts == a && alive == l
    }

    /** `fs::find`: the entry of that name, when it is a file. */
    method Find(name: seq<Byte>) returns (r: Result<Dir.DirectoryEntry, FileError>)
      requires Valid()
      ensures r.Ok? ==> var v := ViewOf(volume.boot, volume.disk, name);
        && v.File? && v.entry == r.value && |v.bytes| == r.value.size
        && ViewOf(volume.boot, volume.disk, r.value.Name()) == v
      ensures r == Err(NameRefused) <==> !Dir.FitsEightAndThree(name)
      ensures r == Err(NoSuchFile) ==> ViewOf(volume.boot, volume.disk, name) == Absent
      ensures r == Err(NotAFile) ==> ViewOf(volume.boot, volume.disk, name).Directory?
      ensures r.Err? ==> r.error in {NameRefused, NoSuchFile, NotAFile, Unreadable(DeviceRead)}
      ensures r == Err(Unreadable(DeviceRead)) ==> volume.faulty != {}
    {
      var encoded := Dir.EncodeName(name);
      if encoded.None? { return Err(NameRefused); }
      ghost var lay :| Sound(volume.boot, volume.disk, lay);
      SoundRoot(volume.boot, volume.disk, lay);
      var found := volume.Find(name);
      hide Dir.FitsEightAndThree, Dir.EncodedName, Sound, TablesOk, FileBytes, FindSlot, RootSectors, SectorsOf;
      match found {
        case Err(why) => r := Err(Unreadable(why));
        case Ok(None) => r := Err(NoSuchFile);
        case Ok(Some(entry)) =>
          if entry.IsDirectory() { return Err(NotAFile); }
          FoundReads(volume.boot, volume.disk, lay, name, entry);
          r := Ok(entry);
      }
    }

    /** `open`: the lowest free descriptor now stands for the file as it is, from its first byte. */
    method Open(p: nat, name: seq<Byte>, owned: bool) returns (r: Result<nat, FileError>)
      requires Valid() && p < MAX_PROCESSES && alive[p]
      modifies this`tables, this`accounts
      ensures Valid()
      ensures r == Err(NotTheirs) <==> !owned || |name| > MAX_NAME || !Dir.ValidUtf8(name)
      ensures r == Err(NameRefused) <==>
                owned && |name| <= MAX_NAME && Dir.ValidUtf8(name) && !Dir.FitsEightAndThree(name)
      ensures r == Err(Unreadable(DeviceRead)) ==> volume.faulty != {}
      ensures match r
        case Err(why) =>
          && Unchanged(old(tables), old(accounts), alive)
          && NotOpened(ViewOf(volume.boot, volume.disk, name), tables[p], name, owned, why)
        case Ok(f) =>
          var v := ViewOf(volume.boot, volume.disk, name);
          && f < MAX_OPEN && old(tables)[p][f] == None && (forall g | 0 <= g < f :: tables[p][g].Some?) && v.File?
          && tables == old(tables)[p := old(tables)[p][f := Some(OpenFile(v.entry, 0))]]
          && accounts == old(accounts)[p := old(accounts)[p][f := Some(Held(v.bytes, []))]]
    {
      hide Dir.FitsEightAndThree, Dir.ValidUtf8, ViewOf, SoundSomehow, TablesOk, DescriptorOk, Latest,
           Dir.EqualIgnoringCase;
      if !owned || |name| > MAX_NAME || !Dir.ValidUtf8(name) { return Err(NotTheirs); }
      var found := Find(name);
      if found.Err? { return Err(found.error); }
      ghost var v := ViewOf(volume.boot, volume.disk, name);
      var table := tables[p];
      var f := 0;
      while f < MAX_OPEN && table[f].Some?
        invariant f <= MAX_OPEN && forall g | 0 <= g < f :: table[g].Some?
      {
        f := f + 1;
      }
      if f == MAX_OPEN { return Err(TooManyOpen); }
      FreshOk(volume.boot, volume.disk, OpenFile(found.value, 0), v.bytes);
      Change(p, f, Some(OpenFile(found.value, 0)), Some(Held(v.bytes, [])));
      return Ok(f);
    }

    /** One descriptor changes and nothing else does. */
    method Change(p: nat, f: nat, file: Option<OpenFile>, ghost held: Option<Held>)
      requires Valid() && p < MAX_PROCESSES && f < MAX_OPEN && alive[p]
      requires DescriptorOk(volume.boot, volume.disk, file, held)
      modifies this`tables, this`accounts
      ensures Valid()
      ensures tables == old(tables)[p := old(tables)[p][f := file]]
      ensures accounts == old(accounts)[p := old(accounts)[p][f := held]]
    {
      hide TablesOk, SoundSomehow, DescriptorOk, Latest;
      ChangeOk(volume.boot, volume.disk, tables, accounts, alive, p, f, file, held);
      tables := tables[p := tables[p][f := file]];
      accounts := accounts[p := accounts[p][f := held]];
    }

    /** `read`: the bytes at the descriptor's position, as many as fit or are left; the position
        moves by exactly as many. On any failure the descriptor stays where it was. */
    method Read(p: nat, f: nat, len: nat, owned: bool) returns (r: Result<seq<Byte>, FileError>)
      requires Valid() && p < MAX_PROCESSES && alive[p]
      modifies this`tables, this`accounts
      ensures Valid()
      ensures r.Err? ==>
                && Unchanged(old(tables), old(accounts), alive)
                && r.error in {NotTheirs, BadDescriptor, Unreadable(DeviceRead)}
      ensures r == Err(NotTheirs) <==> !owned || len > MAX_READ
      ensures r == Err(BadDescriptor) <==> owned && len <= MAX_READ && (f >= MAX_OPEN || old(tables)[p][f] == None)
      ensures r == Err(Unreadable(DeviceRead)) ==> volume.faulty != {}
      ensures r.Ok? ==> f < MAX_OPEN && old(tables)[p][f].Some? && old(accounts)[p][f].Some? && len <= MAX_READ
      ensures r.Ok? ==> var file, held := old(tables)[p][f].value, old(accounts)[p][f].value; var at := file.position;
        && r.value == Ahead(held.bytes, at, len)
        && tables == old(tables)[p := old(tables)[p][f := Some(OpenFile(file.entry, at + |r.value|))]]
        && accounts == old(accounts)[p := old(accounts)[p][f := Some(Held(held.bytes, held.read + r.value))]]
    {
      hide TablesOk, SoundSomehow, FileOk, FileBytes, DescriptorOk, Latest, Ahead;
      if !owned || len > MAX_READ { return Err(NotTheirs); }
      if f >= MAX_OPEN || tables[p][f].None? { return Err(BadDescriptor); }
      var file := tables[p][f].value;
      OnItsFile(volume.boot, volume.disk, tables, accounts, alive, p, f);
      ghost var held := accounts[p][f].value;
      var read := Fetch(file, held.bytes, len);
      if read.Err? { return Err(Unreadable(read.error)); }
      var n := |read.value|;
      MovedOk(volume.boot, volume.disk, file, held, read.value, len);
      var position := SaturatingAdd(file.position, n);
      Change(p, f, Some(OpenFile(file.entry, position)), Some(Held(held.bytes, held.read + read.value)));
      return Ok(read.value);
    }

    /** `fs::read_at` into a buffer of `len` bytes. */
    method Fetch(file: OpenFile, ghost bytes: seq<Byte>, len: nat) returns (r: Result<seq<Byte>, VolumeError>)
      requires volume.Valid() && file.position <= file.entry.size == |bytes|
      requires FileBytes(volume.boot, volume.disk, file.entry.firstCluster, file.entry.size) == Some(bytes)
      ensures r == Err(DeviceRead) || r == Ok(Ahead(bytes, file.position, len))
      ensures r == Err(DeviceRead) ==> volume.faulty != {}
    {
      hide FileBytes, Latest;
      var into := new Byte[len];
      var read := volume.ReadAt(file.entry, file.position, into);
      match read {
        case Err(why) => r := Err(why);
        case Ok(n) => r := Ok(into[..n]);
      }
    }

    method Close(p: nat, f: nat) returns (closed: bool)
      requires Valid() && p < MAX_PROCESSES && alive[p]
      modifies this`tables, this`accounts
      ensures Valid()
      ensures closed == (f < MAX_OPEN && old(tables)[p][f].Some?)
      ensures !closed ==> Unchanged(old(tables), old(accounts), alive)
      ensures closed ==>
        && tables == old(tables)[p := old(tables)[p][f := None]]
        && accounts == old(accounts)[p := old(accounts)[p][f := None]]
    {
      closed := f < MAX_OPEN && tables[p][f].Some?;
      if closed { Change(p, f, None, None); }
    }

    /** `exit` or a fault: whatever it had open is closed. */
    method End(p: nat)
      requires Valid() && p < MAX_PROCESSES
      modifies this
      ensures Valid()
      ensures tables == old(tables)[p := NOTHING_OPEN] && alive == old(alive)[p := false]
    {
      hide TablesOk, SoundSomehow, Latest;
      EndOk(volume.boot, volume.disk, tables, accounts, alive, p);
      tables, alive := tables[p := NOTHING_OPEN], alive[p := false];
      accounts := accounts[p := NOTHING_HELD];
    }

    /** `write_file`: refused while the name is open. Unless the name ends at its first dot and the
        file it will replace is open, every descriptor stays on its file, wherever the write stops. */
    method WriteFile(name: seq<Byte>, contents: seq<Byte>, owned: bool)
      returns (r: Result<Dir.DirectoryEntry, FileError>)
      requires Valid()
      modifies volume
      ensures volume.Valid() && SoundSomehow(volume.boot, volume.disk)
      ensures Escapes(tables, name) || Valid()
      // Each refusal for its own reason, in this order; any of them before anything is written.
      ensures r == Err(NotTheirs) <==> !Theirs(name, contents, owned)
      ensures r == Err(NotOurDisk) <==> Theirs(name, contents, owned) && !ours
      ensures r == Err(NameRefused) <==> Theirs(name, contents, owned) && ours && !Dir.FitsEightAndThree(name)
      ensures r == Err(FileOpen) <==>
                && Theirs(name, contents, owned) && ours && Dir.FitsEightAndThree(name)
                && AnyoneHasOpen(tables, name)
      ensures !ours || !owned ==>
                r.Err? && volume.disk == old(volume.disk) && volume.history == old(volume.history)
      // After them the volume decides.
      ensures Theirs(name, contents, owned) && ours && Dir.FitsEightAndThree(name) && !AnyoneHasOpen(tables, name) ==>
                Answered(volume.boot, old(volume.disk), volume.disk, name, |contents|, r,
                         volume.disk == old(volume.disk) && volume.history == old(volume.history),
                         volume.faulty == {})
      ensures r.Err? && !r.error.Unwritable? ==> volume.disk == old(volume.disk)
      ensures Dir.FitsEightAndThree(name) && volume.disk != old(volume.disk) ==>
                CrashSafe(volume.boot, old(volume.disk), volume.disk, name, contents)
      ensures r.Ok? ==> Wrote(volume.boot, old(volume.disk), volume.disk, name, contents, r.value)
    {
      hide TablesOk, AnyoneHasOpen, Dir.FitsEightAndThree, Dir.EncodedName, CrashSafe, SoundSomehow, Dir.ValidUtf8,
           Dir.EndsAtItsFirstDot, Wrote, Answered;
      if !owned || |name| > MAX_NAME || |contents| > MAX_WRITE || !Dir.ValidUtf8(name) {
        FitsIsText(name);
        return Err(NotTheirs);
      }
      if !ours { return Err(NotOurDisk); }
      var encoded := Dir.EncodeName(name);
      if encoded.None? { return Err(NameRefused); }
      if AnyoneHasOpen(tables, name) { return Err(FileOpen); }
      if !Dir.EndsAtItsFirstDot(name) { GuardSees(tables, name); }
      var written := Replace(name, contents);
      r := AsFileAnswer(written);
    }

    /** The write itself, with the guard behind it. */
    method Replace(name: seq<Byte>, contents: seq<Byte>) returns (r: Result<Dir.DirectoryEntry, WriteError>)
      requires Valid() && Dir.FitsEightAndThree(name)
      modifies volume
      ensures volume.Valid() && SoundSomehow(volume.boot, volume.disk)
      ensures AnyoneHasOpen(tables, Dir.Canonical(name)) || Valid()
      ensures r == Err(WriteError.IsADirectory) ==> volume.disk == old(volume.disk)
      ensures Answered(volume.boot, old(volume.disk), volume.disk, name, |contents|, AsFileAnswer(r),
                       volume.disk == old(volume.disk) && volume.history == old(volume.history), volume.faulty == {})
      ensures volume.disk != old(volume.disk) ==> CrashSafe(volume.boot, old(volume.disk), volume.disk, name, contents)
      ensures r.Ok? ==> Wrote(volume.boot, old(volume.disk), volume.disk, name, contents, r.value)
    {
      hide Sound, TablesOk, AnyoneHasOpen, Dir.FitsEightAndThree, Switches, Replaced, CrashSafe, AnswerFits, Answered,
           Wrote, AsFileAnswer;
      ghost var lay :| Sound(volume.boot, volume.disk, lay);
      ghost var before, h := volume.disk, volume.history;
      ghost var plan, switch;
      r, plan, switch := volume.WriteFile(name, contents, lay);
      AnsweredBy(volume.boot, before, volume.disk, lay, name, |contents|, r,
                 volume.disk == before && volume.history == h, volume.faulty == {});
      if r.Ok? { WroteBy(volume.boot, before, volume.disk, lay, name, contents, plan, r.value); }
      if volume.history != h {
        assert volume.history[|volume.history| - 1] == volume.disk;
        SafeIsSound(volume.boot, before, volume.disk, name, contents);
        if !AnyoneHasOpen(tables, Dir.Canonical(name)) {
          WriteKeeps(volume.boot, before, volume.disk, name, contents, tables, accounts, alive);
        }
      }
    }
  }

  /** Why a name could not be opened, its view being what it is. */
  ghost predicate NotOpened(v: View, table: Table, name: seq<Byte>, owned: bool, why: FileError) {
    match why
    case NotTheirs => !owned || |name| > MAX_NAME || !Dir.ValidUtf8(name)
    case NameRefused => !Dir.FitsEightAndThree(name)
    case NoSuchFile => v == Absent
    case NotAFile => v.Directory?
    case TooManyOpen => v.File? && forall f | 0 <= f < MAX_OPEN :: table[f].Some?
    case Unreadable(e) => e == DeviceRead
    case _ => false
  }

  /** The bytes and the name are the caller's and no longer than may be. */
  predicate Theirs(name: seq<Byte>, contents: seq<Byte>, owned: bool) {
    owned && |name| <= MAX_NAME && |contents| <= MAX_WRITE && Dir.ValidUtf8(name)
  }

  /** What `fs::write_file` makes of the volume's answer. */
  function AsFileAnswer(r: Result<Dir.DirectoryEntry, WriteError>): Result<Dir.DirectoryEntry, FileError> {
    match r
    case Ok(entry) => Ok(entry)
    case Err(IsADirectory) => Err(NotAFile)
    case Err(why) => Err(Unwritable(why))
  }

  /** The answer is the one the volume gives, a directory being `NotAFile`. */
  ghost predicate Answered(b: BootSector, d: Disk, d': Disk, name: seq<Byte>, size: nat,
                           r: Result<Dir.DirectoryEntry, FileError>, untouched: bool, steady: bool)
    requires Holds(b, d) && Dir.FitsEightAndThree(name)
  {
    exists lay: Layout, answer: Result<Dir.DirectoryEntry, WriteError> ::
      && Sound(b, d, lay) && AnswerFits(b, d, d', lay, name, size, answer, untouched, steady)
      && match r
         case Ok(entry) => answer == Ok(entry)
         case Err(NotAFile) => answer == Err(IsADirectory)
         case Err(Unwritable(why)) => answer == Err(why) && why != IsADirectory
         case _ => false
  }

  lemma {:induction false} AnsweredBy(b: BootSector, d: Disk, d': Disk, lay: Layout, name: seq<Byte>, size: nat,
                                      answer: Result<Dir.DirectoryEntry, WriteError>, untouched: bool, steady: bool)
    requires Holds(b, d) && Dir.FitsEightAndThree(name)
    requires Sound(b, d, lay) && AnswerFits(b, d, d', lay, name, size, answer, untouched, steady)
    ensures Answered(b, d, d', name, size, AsFileAnswer(answer), untouched, steady)
  {
    hide Sound, AnswerFits;
  }

  lemma {:induction false} WroteBy(b: BootSector, d: Disk, d': Disk, lay: Layout, name: seq<Byte>,
                                   contents: seq<Byte>, plan: Plan, entry: Dir.DirectoryEntry)
    requires Sound(b, d, lay) && Replaced(b, d, d', lay, name, contents, plan, entry)
    ensures Wrote(b, d, d', name, contents, entry)
  {
    hide Sound, Replaced;
  }

  /** The file was replaced, as `Replaced` says, on the volume as it was. */
  ghost predicate Wrote(b: BootSector, d: Disk, d': Disk, name: seq<Byte>, contents: seq<Byte>,
                        entry: Dir.DirectoryEntry) {
    exists lay: Layout, plan: Plan :: Sound(b, d, lay) && Replaced(b, d, d', lay, name, contents, plan, entry)
  }

  /** The most one write_file call may carry: as many bytes as the largest file takes in
      single-sector clusters. */
  const MAX_WRITE := MAX_FILE_CLUSTERS * SECTOR_BYTES

  /** The guard is asked about `FOO.` while what will be replaced is open as `FOO`. */
  predicate Escapes(tables: seq<Table>, name: seq<Byte>) {
    Dir.FitsEightAndThree(name) && Dir.EndsAtItsFirstDot(name) && AnyoneHasOpen(tables, Dir.Canonical(name))
  }

  function SaturatingAdd(position: U32, n: nat): U32 {
    if position + n > 0xFFFF_FFFF then 0xFFFF_FFFF else position + n
  }

  // ---------------------------------------------------------------------
  // Whole runs
  // ---------------------------------------------------------------------

  /** A call by the process in `slot`, or its end. */
  datatype Call =
    | CallOpen(slot: nat, name: seq<Byte>, owned: bool)
    | CallRead(slot: nat, descriptor: nat, len: nat, owned: bool)
    | CallClose(slot: nat, descriptor: nat)
    | CallWriteFile(slot: nat, name: seq<Byte>, contents: seq<Byte>, owned: bool)
    | Ends(slot: nat)

  predicate NoBareDot(call: Call) {
    call.CallWriteFile? ==> !Dir.EndsAtItsFirstDot(call.name)
  }

  /** Any interleaving of calls and ends, none writing a name that ends at its first dot: every
      descriptor's reads are, end to end, a prefix of what its file held when it was opened, as
      long as its position; the file still is that; who has ended holds nothing open; and a disk
      that is not the kernel's is never written. */
  method AnyRun(volume: Volume, ours: bool, script: seq<Call>)
    returns (tables: seq<Table>, alive: seq<bool>, ghost accounts: seq<Account>)
    requires volume.Valid() && SoundSomehow(volume.boot, volume.disk)
    requires forall i | 0 <= i < |script| :: NoBareDot(script[i])
    modifies volume
    ensures volume.Valid() && SoundSomehow(volume.boot, volume.disk)
    ensures |tables| == |accounts| == |alive| == MAX_PROCESSES
    ensures forall p, f | 0 <= p < MAX_PROCESSES && 0 <= f < MAX_OPEN && tables[p][f].Some? ::
      && accounts[p][f].Some? && accounts[p][f].value.read <= accounts[p][f].value.bytes
      && |accounts[p][f].value.read| == tables[p][f].value.position <= tables[p][f].value.entry.size
      && ViewOf(volume.boot, volume.disk, tables[p][f].value.entry.Name())
         == File(tables[p][f].value.entry, accounts[p][f].value.bytes)
    ensures forall p | 0 <= p < MAX_PROCESSES && !alive[p] :: tables[p] == NOTHING_OPEN
    ensures !ours ==> volume.disk == old(volume.disk) && volume.history == old(volume.history)
  {
    hide SoundSomehow, TablesOk, Latest, Dir.EndsAtItsFirstDot;
    var calls := new FileCalls(volume, ours);
    for n := 0 to |script|
      invariant calls.Valid() && fresh(calls) && calls.volume == volume && calls.ours == ours
      invariant !ours ==> volume.disk == old(volume.disk) && volume.history == old(volume.history)
    {
      Serve(calls, script[n]);
    }
    tables, alive, accounts := calls.tables, calls.alive, calls.accounts;
    Summary(volume.boot, volume.disk, tables, accounts, alive);
  }

  method Serve(calls: FileCalls, call: Call)
    requires calls.Valid() && NoBareDot(call)
    modifies calls, calls.volume
    ensures calls.Valid()
    ensures !calls.ours ==>
              calls.volume.disk == old(calls.volume.disk) && calls.volume.history == old(calls.volume.history)
  {
    hide SoundSomehow, TablesOk, Latest, ViewOf, CrashSafe, Dir.EndsAtItsFirstDot, Dir.FitsEightAndThree;
    if call.slot >= MAX_PROCESSES || !calls.alive[call.slot] { return; }
    match call {
      case CallOpen(slot, name, owned) => var _ := calls.Open(slot, name, owned);
      case CallRead(slot, f, len, owned) => var _ := calls.Read(slot, f, len, owned);
      case CallClose(slot, f) => var _ := calls.Close(slot, f);
      case CallWriteFile(_, name, contents, owned) => var _ := calls.WriteFile(name, contents, owned);
      case Ends(slot) => calls.End(slot);
    }
  }

  lemma {:induction false} Summary(b: BootSector, d: Disk, tables: seq<Table>, accounts: seq<Account>, alive: seq<bool>)
    requires Holds(b, d) && TablesOk(b, d, tables, accounts, alive)
    ensures |tables| == |accounts| == |alive| == MAX_PROCESSES
    ensures forall p, f | 0 <= p < MAX_PROCESSES && 0 <= f < MAX_OPEN && tables[p][f].Some? ::
      && accounts[p][f].Some? && accounts[p][f].value.read <= accounts[p][f].value.bytes
      && |accounts[p][f].value.read| == tables[p][f].value.position <= tables[p][f].value.entry.size
      && ViewOf(b, d, tables[p][f].value.entry.Name()) == File(tables[p][f].value.entry, accounts[p][f].value.bytes)
    ensures forall p | 0 <= p < MAX_PROCESSES && !alive[p] :: tables[p] == NOTHING_OPEN
  {
    hide ViewOf;
    forall p, f | 0 <= p < MAX_PROCESSES && 0 <= f < MAX_OPEN && tables[p][f].Some?
      ensures DescriptorOk(b, d, tables[p][f], accounts[p][f])
    {
      assert TableOk(b, d, tables[p], accounts[p], alive[p]);
    }
    forall p | 0 <= p < MAX_PROCESSES && !alive[p] ensures tables[p] == NOTHING_OPEN {
      assert TableOk(b, d, tables[p], accounts[p], alive[p]);
    }
  }

  /** What is left of `bytes` from `at` on, at most `len` of it. */
  function Ahead(bytes: seq<Byte>, at: nat, len: nat): (r: seq<Byte>)
    requires at <= |bytes|
    ensures |r| == 0 <==> at == |bytes| || len == 0
  {
    bytes[at..if at + len < |bytes| then at + len else |bytes|]
  }

  lemma {:induction false} FitsIsText(name: seq<Byte>)
    ensures Dir.FitsEightAndThree(name) ==> Dir.ValidUtf8(name)
  {
    if Dir.FitsEightAndThree(name) {
      forall i | 0 <= i < |name| ensures name[i] < 0x80 {
        FitsIsAscii(name, i);
      }
      Dir.AsciiIsText(name);
    }
  }

  lemma {:induction false} FitsIsAscii(name: seq<Byte>, i: nat)
    requires Dir.FitsEightAndThree(name) && i < |name|
    ensures name[i] < 0x80
  {
    var dot := Dir.FirstDot(name);
    if i < dot {
      assert Dir.Base(name)[i] == name[i] && Dir.AllowedInAName(Dir.Base(name)[i]).Some?;
    } else if i > dot {
      assert Dir.Extension(name)[i - dot - 1] == name[i] && Dir.AllowedInAName(Dir.Extension(name)[i - dot - 1]).Some?;
    }
  }

  lemma {:induction false} FreshOk(b: BootSector, d: Disk, file: OpenFile, bytes: seq<Byte>)
    requires Holds(b, d) && ViewOf(b, d, file.entry.Name()) == File(file.entry, bytes) && file.position == 0
    requires |bytes| == file.entry.size
    ensures DescriptorOk(b, d, Some(file), Some(Held(bytes, [])))
  {
  }

  lemma {:induction false} OnItsFile(b: BootSector, d: Disk, tables: seq<Table>, accounts: seq<Account>,
                                     alive: seq<bool>, p: nat, f: nat)
    requires Holds(b, d) && TablesOk(b, d, tables, accounts, alive) && p < MAX_PROCESSES && f < MAX_OPEN
    requires tables[p][f].Some?
    ensures accounts[p][f].Some?
    ensures var file, held := tables[p][f].value, accounts[p][f].value;
      && FileOk(b, d, file, held) && file.position <= file.entry.size == |held.bytes|
      && FileBytes(b, d, file.entry.firstCluster, file.entry.size) == Some(held.bytes)
  {
    hide FileBytes, FindSlot, RootSectors;
    assert TableOk(b, d, tables[p], accounts[p], alive[p]);
    assert DescriptorOk(b, d, tables[p][f], accounts[p][f]);
  }

  lemma {:induction false} MovedOk(b: BootSector, d: Disk, file: OpenFile, held: Held, bytes: seq<Byte>, len: nat)
    requires Holds(b, d) && FileOk(b, d, file, held) && bytes == Ahead(held.bytes, file.position, len)
    ensures file.position + |bytes| <= |held.bytes| == file.entry.size
    ensures DescriptorOk(b, d, Some(OpenFile(file.entry, file.position + |bytes|)),
                         Some(Held(held.bytes, held.read + bytes)))
  {
    hide ViewOf;
  }

  lemma {:induction false} ChangeOk(b: BootSector, d: Disk, tables: seq<Table>, accounts: seq<Account>,
                                    alive: seq<bool>,
                                    p: nat, f: nat, file: Option<OpenFile>, held: Option<Held>)
    requires Holds(b, d) && TablesOk(b, d, tables, accounts, alive) && p < MAX_PROCESSES && f < MAX_OPEN && alive[p]
    requires DescriptorOk(b, d, file, held)
    ensures TablesOk(b, d, tables[p := tables[p][f := file]], accounts[p := accounts[p][f := held]], alive)
  {
    hide DescriptorOk;
    assert TableOk(b, d, tables[p], accounts[p], alive[p]);
    assert TableOk(b, d, tables[p][f := file], accounts[p][f := held], alive[p]);
  }

  lemma {:induction false} EndOk(b: BootSector, d: Disk, tables: seq<Table>, accounts: seq<Account>, alive: seq<bool>,
                                 p: nat)
    requires Holds(b, d) && TablesOk(b, d, tables, accounts, alive) && p < MAX_PROCESSES
    ensures TablesOk(b, d, tables[p := NOTHING_OPEN], accounts[p := NOTHING_HELD], alive[p := false])
  {
    assert TableOk(b, d, NOTHING_OPEN, NOTHING_HELD, false);
    hide TableOk;
  }

  lemma {:induction false} SafeIsSound(b: BootSector, d: Disk, h: Disk, name: seq<Byte>, contents: seq<Byte>)
    requires Holds(b, d) && Dir.FitsEightAndThree(name) && CrashSafe(b, d, h, name, contents)
    ensures Holds(b, h) && SoundSomehow(b, h)
  {
  }
}
