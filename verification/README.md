# Verified models of a small x86_64 kernel

This project models, in Dafny, the parts of the kernel whose logic is separate from the hardware, and
proves what they promise. The model of each part takes the form of its source: what the kernel updates
in place is a class whose methods are proved against a specification, what it computes is a function,
and what interleaves is a step system.

| part | files |
|---|---|
| FAT32 volumes (`hal/src/fat.rs`) | `BootSector`, `FatTable`, `Chains`, `Directory`, `VolumeState`, `Commit`, `VolumeSteps`, `Replacement`, `Answers`, `Volume` |
| page tables (`arch/x86_64/src/paging.rs`) | `Paging`, `PagingSteps`, `PagingRebuild`, `PageTables` |
| scheduler and mailboxes (`kernel/src/scheduler.rs`, `ipc.rs`, `user.rs`) | `Mailbox`, `Scheduling`, `Scheduler` |
| open files (`kernel/src/process.rs`, `fs.rs`, `user.rs`) | `Descriptors`, `Files` |
| program files (`hal/src/elf.rs`, `kernel/src/process.rs`) | `Elf`, `ElfEncoding`, `Loading`, `Loader` |
| scancode queue (`arch/x86_64/src/keyboard.rs`) | `ScancodeQueue` |
| event log (`kernel/src/events.rs`) | `Events` |

`dafny verify dfyconfig.toml` checks everything.

## How to read it

*Volumes.* `Volume` holds a disk as a sequence of 512-byte sectors and a ghost `history` of every state
the disk has been in, one for each sector written; stopping the machine leaves the disk in one of them.
A read or a write may fail at the sectors in `faulty`, any set of them, and nowhere else, so that an
error of the device means that this set is not empty. What a reader sees under a name is `ViewOf`; `Sound`
says that chains are whole, long enough and shared by nobody, and that the directory ends once. `CrashSafe` relates a state
to the one before `WriteFile` began: every other name reads exactly as it did, and the one written reads
entirely as its old state or entirely as the new contents. Names need not be unique for that. Two short
names can read alike and be stored apart (`ReadsAlikeStoredApart`), so that a lookup may stop at an entry
the writer does not recognise; `Shadowed` and `Aliased` say exactly when, of the directory as it is before
the write, since the slot to be taken is a function of it (`TheSlot`). `SwitchTarget`, `NamesStayUnique` and
`AliasedExactly` prove both directions, `EaDirectory` gives such a directory. `WhyNot` is why a file cannot
be written, `StoredDirectory` that a directory goes by the name, said of the bytes of the slot. `Times` is
multiplication.

*Page tables.* Entries are records of the bits that matter. `Translate` is the walk; a tree of tables is a
ghost map `tab` from index paths to frames, and `Tree` says that the links in memory and the map agree.
A link is plain (`PlainLinks`) when it lets writes and running code through and leaves both to the leaf.
`Life` runs a process space from its first table to its last; `RebuildIdentity`,
`KeepOnly` and `MapPhysicalWindow` build aside and put what they built in place with the last writes.

*Processes.* A switch of stacks is an atomic transfer of control; what a process does next is its
`Continuation`. `Schedulers.AnyRun` and `Files.AnyRun` run any script of events.

*Program files.* `SpawnElf` parses a file, makes a space and loads it, over the same page tables; `Loaded`
states what is in memory afterwards in terms of the walk alone. `SpawnRefused` is what its errors mean and
`CanSpawn` when it succeeds.

*Queue and log.* Every load and store of the queue is a step of its own. The log theorem is over any
number of boots.

Where the code and its documentation disagree the code is followed. `docs/adr/0027-fase4-fat32-write.md` (point 9) and the
comments at `kernel/src/scheduler.rs:514-518` say that replacing a file reuses its chain; `write_file` always takes new clusters and
frees the old chain afterwards, which is what makes the replacement safe to stop anywhere.

## Model

| member | source | states |
|---|---|---|
| `BootSectors.Parse` | hal/src/fat.rs:148-252 | whatever is accepted satisfies `Accepted`: table and data arithmetic stays in 32 bits, the tables can describe every cluster, and the regions end inside the volume |
| `BootSectors.ParseExactly` | hal/src/fat.rs:148-252 | a sector is accepted if and only if it describes an acceptable volume, and then it is read as that one |
| `BootSectors.ParseRefuses` | hal/src/fat.rs:148-252 | every refusal is for the field or the number it names |
| `BootSectors.Geometry` | hal/src/fat.rs:254-275 | tables, entries and data are where the format computes them, as products |
| `BootSectors.BootSector.SectorOfCluster` | hal/src/fat.rs:267-275 | a sector exactly for the clusters there are, after the tables, with the whole cluster below the end of the volume |
| `BootSectors.BootSector.TableSector` | hal/src/fat.rs:845-853 | the entry of every cluster lies inside its own copy of the table, and before the data |
| `BootSectors.BootSector.DataSector` | hal/src/fat.rs:267-275 | data lies after the tables and below the end of the volume |
| `BootSectors.TableEntriesDistinct` | hal/src/fat.rs:845-853 | no two clusters and no two copies share a table entry |
| `BootSectors.DataSectorsDistinct` | hal/src/fat.rs:267-275 | no two clusters share a data sector |
| `Directory.DecodeSlot` | hal/src/fat.rs:389-434 | the loops over the two padded fields give the name, kind, first cluster and size that `SlotOf` defines |
| `Directory.SlotMeans` | hal/src/fat.rs:332-434 | byte by byte: which slots end the directory, name something, or name a directory, and the cluster and size they carry |
| `Directory.EncodeName` | hal/src/fat.rs:764-791 | accepts exactly the names that fit eight and three characters the format allows |
| `Directory.AllowedMeans` | hal/src/fat.rs:795-801 | the characters a name may hold, listed one by one |
| `Directory.CaseMeans` | hal/src/fat.rs:795-801 | twenty-six letters change case and nothing else does |
| `Directory.NameRoundTrip` | hal/src/fat.rs:764-801 | encoding and reading back upper-cases the name, and loses a dot exactly when the name ends at its first dot |
| `Directory.EncodedAlike` | hal/src/fat.rs:764-801 | two such names are stored alike if and only if they are equal ignoring case |
| `Directory.EntryRoundTrip` | hal/src/fat.rs:1057-1064 | the 32 bytes written for a file read back as its name, first cluster and size |
| `Directory.ReadsAlikeStoredApart` | hal/src/fat.rs:402-421 | a stored name that reads as `EA` without being stored as `EA` is |
| `Chains.WalkRevisits` | hal/src/fat.rs:552-589 | a walk longer than the volume has clusters comes back to one it passed |
| `Volumes.Volume.NextCluster` | hal/src/fat.rs:523-542 | the first table's entry of that cluster, or the cluster refused, or the device |
| `FatTable.EntryPlace` | hal/src/fat.rs:845-853 | four bytes for each cluster, one after the other from the start of a table |
| `FatTable.EntryMeans` | hal/src/fat.rs:299-325 | which 28 bits are free, reserved, bad, any of the eight end marks, or the next cluster |
| `VolumeSteps.EndMarkReads` | hal/src/fat.rs:612-661 | with any end mark a chain is whole, and a file is readable exactly as far as its clusters go, whose bytes it is |
| `Volumes.Volume.ReadRoot` | hal/src/fat.rs:548-590 | terminates on any table; over as many clusters as the table leads to inside the volume, hands over exactly the entries up to the end mark or where the caller stops, and succeeds, unless the device fails, exactly when one of these or the end of the chain is there; `ChainLoops` means that the chain revisits a cluster |
| `Volumes.Volume.Find` | hal/src/fat.rs:593-605 | on any table: the first entry of that name, ignoring case, among the clusters the table leads to; an answer exactly when the entry, the end mark or the end of the chain is there, unless the device fails |
| `Volumes.Volume.ReadFile` | hal/src/fat.rs:612-661 | the bytes of the chain, all of them, or an error that means they are not there; `ChainLoops` means that the chain revisits a cluster; nothing past the file is written |
| `Volumes.Volume.ReadAt` | hal/src/fat.rs:674-747 | as many bytes as are left or fit, equal to those of the chain there, whenever the chain has them; the matching slice of what a whole read gives; zero exactly at or past the end or for an empty buffer; `ChainLoops` means that the chain revisits a cluster or leaves the volume after visiting every one |
| `Volumes.Volume.SetNextCluster` | hal/src/fat.rs:840-872 | on success every copy holds the new 28 bits, and on any answer the old top four; every state on the way touches that entry only |
| `Volumes.Volume.FreeClusters` | hal/src/fat.rs:880-903 | that many distinct free clusters, the lowest ones, or an honest count of those there are |
| `Volumes.Volume.WriteClusters` | hal/src/fat.rs:908-937 | the contents, padded with zeros, in the sectors of the chain and nowhere else |
| `Volumes.Volume.LinkChain` | hal/src/fat.rs:1044-1050 | the clusters become one chain, in every copy of the table |
| `Volumes.Volume.DirectorySlot` | hal/src/fat.rs:945-1013 | the first slot stored under those bytes; else the first deleted one, if there is one before the end mark, else the end mark; else that there is none |
| `Volumes.Volume.FreeChain` | hal/src/fat.rs:1169-1189 | frees a chain's own clusters, each once, none of `keep`; never answers `ChainLoops` |
| `Volumes.Volume.CountFree` | hal/src/fat.rs:1124-1147 | the sector-at-a-time scan counts exactly the clusters whose entry is free, and finds the lowest |
| `Volumes.Volume.UpdateFsInfo` | hal/src/fat.rs:1104-1154 | a recognised FSInfo sector holds the true count and lowest free cluster afterwards and is otherwise as it was; any other is left alone |
| `Volumes.Volume.WriteFile` | hal/src/fat.rs:1025-1092 | every state of the disk on the way is `CrashSafe`; one write is the switch from the old file to the new, in the slot that `DirectorySlot` names; success leaves what `Replaced` says; and the answer fits the volume as it was (`AnswerFits`): unless the device fails it is refused exactly when, and as, `WhyNot` says, nothing being written; a slot whose bytes are a directory's is never replaced |
| `Answers.RefusedFits` | hal/src/fat.rs:1025-1050 | whatever was refused before a write, other than by the device, is refused for the directory, the full root, or the clusters that `WhyNot` names, read off the bytes of the disk |
| `Answers.DoneFits` | hal/src/fat.rs:1025-1092 | a write that succeeded could be made, and no slot whose bytes are a directory's has changed |
| `Commit.ChosenDirectory` | hal/src/fat.rs:1037-1039 | the entry to be replaced is a directory if and only if the first slot stored under those bytes has bit 4 of its attributes set |
| `Volumes.Volume.WriteThenRead` | hal/src/fat.rs:593-661 | a write that can be made is, unless the device fails; after it `find` and `read_file` give back exactly the contents, unless the name was shadowed before or ends at its first dot; then they give back what they gave before |
| `Commit.SwitchSound` | hal/src/fat.rs:1052-1067 | writing the directory sector keeps the volume sound |
| `Commit.SwitchOthers` | hal/src/fat.rs:1052-1067 | every other name reads as it did |
| `Commit.SwitchTarget` | hal/src/fat.rs:1052-1067 | the name reads as the new contents exactly when no entry in front of its slot shadowed it, and otherwise as before |
| `Commit.ChosenIsTheSlot` | hal/src/fat.rs:945-1013 | the slot taken is a function of the directory as it was: the one stored under those bytes, else the first vacant one |
| `Commit.StoredSlotFirst` | hal/src/fat.rs:956-985 | no slot before it is stored under those bytes, or ends the directory |
| `VolumeSteps.NoRoomExactly` | hal/src/fat.rs:993-1013 | the directory is full exactly when that function has no slot to give |
| `Replacement.NothingShows` | hal/src/fat.rs:1015-1050 | while only free clusters are written every name reads as it did |
| `Replacement.TheSwitch` | hal/src/fat.rs:1052-1067 | the one write after which the new file is there whole |
| `Replacement.StillAfter` | hal/src/fat.rs:1069-1081 | giving the old chain back shows no more than that |
| `Replacement.ReplacedHolds` | hal/src/fat.rs:1025-1092 | free clusters change by what was taken and what was replaced, table copies still agree, FSInfo is true, one directory slot changed |
| `Replacement.NamesStayUnique` | hal/src/fat.rs:945-1013 | names stay unique if and only if, before the write, no slot but the one taken read as the name written |
| `Replacement.AliasedExactly` | hal/src/fat.rs:945-1013 | which is so exactly when the name is found and is not stored under its own bytes, in the directory before the write |
| `Replacement.EaDirectory` | hal/src/fat.rs:402-421 | a directory sector in which `EA` is both shadowed and aliased |
| `Replacement.EaShadows` | hal/src/fat.rs:402-421 | so is it in every directory with such an entry before the slot that a new `EA` would take |
| `Replacement.EaStaysHidden` | hal/src/fat.rs:593-605 | there, after a new `EA` has been written, `find` still answers the old entry |
| `PageTables.PageTables.TranslateAt` | arch/x86_64/src/paging.rs:235-261 | the loop is the walk `Translate` |
| `Paging.PathDecides` | arch/x86_64/src/paging.rs:107-110 | the four indices are nine bits each of an address, and the first says which half it is in |
| `Paging.CanonicalMeans` | arch/x86_64/src/paging.rs:112-115 | canonical is what bits 47 to 63 being all alike is |
| `PageTables.PageTables.NewTable` | arch/x86_64/src/paging.rs:677-693 | a zeroed table in a fresh frame that the window reaches; or nothing written, because there is no frame or the window does not reach it |
| `PageTables.PageTables.Map` | arch/x86_64/src/paging.rs:263-327 | exactly that page comes to translate to the frame, with the leaf asked for; in a half whose links are all plain, as those this code hangs are, it may be written and run and is cached exactly as asked, and the links stay plain; every failure changes no translation and means what it says: something is mapped there, by a page of that size, no frame is left, or one is out of the window's reach; every frame that went is accounted for |
| `PageTables.PageTables.Unmap` | arch/x86_64/src/paging.rs:329-354 | exactly that page stops translating, and the answer is its frame; not mapped means not mapped; plain links stay plain |
| `PageTables.PageTables.MapThenUnmap` | arch/x86_64/src/paging.rs:263-354 | unmapping is the exact inverse of mapping, for every address |
| `PageTables.PageTables.Run` | arch/x86_64/src/paging.rs:263-588 | over any run of maps, unmaps, rebuilds and windows no kernel address is reachable from ring 3, and every kernel page mapped and not unmapped again is its frame, to be written, run and cached exactly as was asked |
| `PagingRebuild.StandsGrants` | arch/x86_64/src/paging.rs:263-327 | a kernel page whose leaf stands may be written and run and is cached as that leaf says, since every kernel link is plain |
| `PagingSteps.SealedRootSealsKernel` | arch/x86_64/src/paging.rs:263-327 | a root whose kernel slots never let ring 3 through lets it reach no kernel address; every operation keeps such a root |
| `PageTables.PageTables.Adopt` | arch/x86_64/src/paging.rs:207-233 | the same translations under a new root, only that root written, its kernel half sealed and its links plain; refused exactly when a kernel slot is in use; out of frames means none is left, not writable that one is out of the window's reach |
| `PageTables.PageTables.NewProcessSpace` | arch/x86_64/src/paging.rs:592-622 | the kernel's half as it is, an empty lower half, one frame taken, the kernel's tables shared, its links as plain as they were |
| `PageTables.PageTables.FreeLowerHalf` | arch/x86_64/src/paging.rs:630-669 | offers exactly the tables the space took, each once, root included, and no shared one; the kernel's slots of the root stay |
| `PageTables.PageTables.Life` | arch/x86_64/src/paging.rs:592-670 | over any run of mappings, what comes back at the end is every frame that went, less those the window did not reach; nobody else's tables were written |
| `PageTables.PageTables.RebuildIdentity` | arch/x86_64/src/paging.rs:360-467 | on any error every address translates, runs and is mapped as it did; otherwise each lower address maps to itself exactly in `[PAGE, limit)`, runs code exactly when its page meets an executable range, is read-only exactly when one range covers its page and no writable one touches it; the kernel's half translates, runs and is mapped as it did; links are plain below and stay so above; ring 3 reaches nothing below; out of frames means none is left, not writable that one is out of the window's reach |
| `PagingRebuild.RangesMean` | arch/x86_64/src/paging.rs:419-450 | address by address: a page runs when some of it is in an executable range, and is read-only when all of it is in one range and none of it in a writable one |
| `PageTables.PageTables.MapPhysicalWindow` | arch/x86_64/src/paging.rs:472-516 | on any error every address translates, runs and is mapped as it did; otherwise exactly the window translates anew, each address to its offset, writable and never to be run; plain links stay plain; out of frames means none is left, not writable that one is out of the window's reach |
| `PageTables.PageTables.KeepOnly` | arch/x86_64/src/paging.rs:525-588 | on any error every address translates, runs and is mapped as it did; otherwise a lower address is mapped, to itself, exactly when its page meets a kept range, written, run and cached as the last such range says; the kernel's half translates, runs and is mapped as it did; ring 3 reaches nothing below; out of frames means none is left, not writable that one is out of the window's reach |
| `PagingRebuild.IdentityWalk` | arch/x86_64/src/paging.rs:387-455 | what a finished set of tables does with every address below its slot |
| `PagingRebuild.HalvesTranslate` | arch/x86_64/src/paging.rs:456-459 | putting a half in place gives exactly that half and leaves the other |
| `PagingSteps.LeafGrants` | arch/x86_64/src/paging.rs:263-327 | in a process space the leaf alone says what may be done with a page |
| `Mailboxes.Mailbox.Deliver` | kernel/src/ipc.rs:75-92 | the whole message or nothing, the reason why not, and never over one that waits; what was delivered is what was taken and the one waiting |
| `Mailboxes.Mailbox.TakeInto` | kernel/src/ipc.rs:98-108 | out comes what went in, whole; on every error it stays and the buffer is untouched |
| `Mailboxes.Refusal` | kernel/src/ipc.rs:75-84 | nothing is refused exactly when the box is empty and the size fits |
| `Scheduling.NextIsNearest` | kernel/src/scheduler.rs:221-226 | the next process is there whenever anybody is able, and is nearer than every other able one |
| `Scheduling.BoundedWaiting` | kernel/src/scheduler.rs:221-226 | whatever the others do between hand-overs, a process that stays able gets the CPU within fifteen |
| `Scheduling.HandoverKeeps` | kernel/src/scheduler.rs:354-375 | a hand-over keeps every slot in order, and brings each process that waits its turn nearer to it |
| `Scheduling.ResumedOk` | kernel/src/user.rs:609-655 | a `recv` that waited and runs again answers exactly the message delivered to it, which is taken, when that fits its buffer, and otherwise is refused and leaves it: its loop ends on the second pass |
| `Schedulers.BlockedIsNeverBusy` | kernel/src/scheduler.rs:668-690 | a valid send to a process that waits is never refused, and makes it able to run |
| `Schedulers.Scheduler.Add` | kernel/src/scheduler.rs:109-113 | the first free slot, or that all sixteen are taken |
| `Schedulers.Scheduler.SwitchTo` | kernel/src/scheduler.rs:354-375 | control goes to an able slot, whose stack the CPU is told, and no switch stays under way |
| `Schedulers.Scheduler.SwitchToNext` | kernel/src/scheduler.rs:383-401 | the turn passes to the nearest able process, or stays when there is no other |
| `Schedulers.Scheduler.OnTick` | kernel/src/scheduler.rs:480-487 | moves the turn only while a process has the CPU |
| `Schedulers.Scheduler.Yield` | kernel/src/user.rs:549-554 | the turn passes, and the caller finds zero |
| `Schedulers.Scheduler.Resume` | kernel/src/scheduler.rs:543-560 | a process given the CPU runs, with its call come back, answered as `ComesBack` says |
| `Schedulers.Scheduler.Deliver` | kernel/src/scheduler.rs:668-690 | wakes a waiting receiver; refused exactly for nobody there, a full box or a message that is none |
| `Schedulers.Scheduler.Send` | kernel/src/user.rs:555-600 | the whole message waits for its receiver, or only the answer changes |
| `Schedulers.SendAnswer` | kernel/src/user.rs:555-600 | no such process, mailbox full, bad argument or sent, each exactly for its cause |
| `Schedulers.Undeliverable` | kernel/src/scheduler.rs:668-690 | nobody there, a message that waits, an empty or a long one, each exactly for its cause |
| `Schedulers.Scheduler.SendThenYield` | kernel/src/user.rs:555-656 | from one process to another that waits for it: when its turn comes the receiver has received what was sent and from whom |
| `Schedulers.Scheduler.Recv` | kernel/src/user.rs:601-656 | takes what waits, or parks, or is told that nobody could send |
| `Schedulers.Scheduler.WaitForMessage` | kernel/src/scheduler.rs:718-735 | parks exactly when somebody else is able |
| `Schedulers.Scheduler.End` | kernel/src/scheduler.rs:442-457 | the process is gone; the kernel has the CPU back only when nobody is able |
| `Schedulers.Scheduler.LeaveForTheKernel` | kernel/src/scheduler.rs:312-327 | `run_until_empty` returns with every occupied slot dead |
| `Schedulers.Scheduler.RunUntilEmpty` | kernel/src/scheduler.rs:289-312 | starts the lowest able slot; with none everything is dead already |
| `Schedulers.AnyRun` | kernel/src/scheduler.rs:289-735 | over any script: no switch under way, the CPU knows the current stack, only able slots were handed it, waiting processes have empty boxes, what a slot took is what was delivered to it less the one waiting, what it was answered as received is the last it took, waits are bounded |
| `Descriptors.WriteKeeps` | kernel/src/fs.rs:218-257 | no descriptor notices a write, finished or not, of a name nobody has open |
| `Descriptors.GuardCovers` | kernel/src/scheduler.rs:528-536 | asking about the name as given covers the file to be replaced if and only if the name does not end at its first dot |
| `Descriptors.GuardMisses` | kernel/src/scheduler.rs:528-536 | the tables the guard does not see |
| `Descriptors.FoundReads` | kernel/src/fs.rs:199-209 | what a lookup finds on a sound volume can be read whole, and under its own name |
| `Files.FileCalls.Find` | kernel/src/fs.rs:199-209 | the file as it is, or why not, the device failing only if it can |
| `Files.FileCalls.Open` | kernel/src/user.rs:657-709 | the lowest free descriptor stands for the file as it is, or nothing is opened and the error says why; not theirs and not a name exactly for their causes |
| `Files.FileCalls.Read` | kernel/src/user.rs:710-761 | the bytes at the position, as many as fit or are left, of the file as it was opened; the position moves by as many, or not at all; each refusal exactly for its cause |
| `Files.FileCalls.Close` | kernel/src/user.rs:762-777 | closes what was open, says whether it was |
| `Files.FileCalls.End` | kernel/src/scheduler.rs:142-147 | who has ended holds nothing open |
| `Files.FileCalls.WriteFile` | kernel/src/fs.rs:227-257 | not theirs, not our disk, not a name, open: each exactly for its cause, in this order, and nothing written; then as the volume answers; success replaces the file as `Replaced` says; every descriptor stays on its file wherever the write stops, except for a name that escapes the guard |
| `Files.AnyRun` | kernel/src/user.rs:657-827 | over any interleaving of calls by all processes: reads on a descriptor are a prefix of what the file held when opened, as long as its position; a disk that is not the kernel's is never written |
| `Elf.Parse` | hal/src/elf.rs:201-317 | accepted if and only if the file is well formed, as its entry and its loadable segments in order; every error means what it says |
| `ElfEncoding.EncodeThenParse` | hal/src/elf.rs:201-317 | a program written out field by field is read back as it was, and is accepted exactly when every segment is in the file, in user space, not empty, not both writable and executable, there are at most eight, and the entry is in one that runs |
| `Elf.BadSegment` | hal/src/elf.rs:256-289 | a segment is refused exactly when it is out of the file, shrinks, is empty, leaves user space or is writable and executable, and the error says which |
| `Loading.MakeImage` | kernel/src/process.rs:512-537 | a page holds what the file has for each of its addresses, and zeros elsewhere |
| `Loading.OwnedIsMapped` | kernel/src/process.rs:280-290 | whatever `owned_by` accepts is mapped for ring 3, and writable against the writable ranges |
| `Loading.OwnedByMeans` | kernel/src/process.rs:280-290 | accepted exactly when every address asked about lies in one and the same range |
| `Loader.Building.Own` | kernel/src/process.rs:217-227 | a range and whether it may be written are recorded together, nine at most |
| `Loader.Building.LoadSegment` | kernel/src/process.rs:501-564 | every page of the segment is mapped as the file says, and none that was placed before; a failure means too few frames, one out of reach, too many pages, or a page that is placed already |
| `Loader.Building.Load` | kernel/src/process.rs:495-589 | every segment and the stack are placed: the pages placed are exactly those that meet a segment, and the stack page; it fits, or the error says what does not |
| `Loader.PlacedIsLoaded` | kernel/src/process.rs:495-589 | every byte of every segment is the file's or zero, and ring 3 reads, writes and runs it exactly as the flags of the segment say; the stack is a page of zeros; nothing else is mapped, no page is writable and executable, owned memory is mapped, the entry runs |
| `Loader.SpawnElf` | kernel/src/process.rs:458-485 | a file becomes a process exactly as described, or is refused as not well formed exactly when it is not; a well-formed one is refused only for a page of two segments or of one and the stack, for more than thirty-two pages, for frames that ran out, or for a frame out of reach, and is started whenever it fits and there are frames enough in reach |
| `ScancodeQueue.PushStep` | arch/x86_64/src/keyboard.rs:97-108 | every load and store of a push keeps the queue's account |
| `ScancodeQueue.PopStep` | arch/x86_64/src/keyboard.rs:111-122 | and of a pop |
| `ScancodeQueue.QueueIsFifo` | arch/x86_64/src/keyboard.rs:72-123 | in every reachable state what was popped is a prefix of what went in, and that is what `push` was called with and admitted, in order; a push is refused exactly when 64 were outstanding at its load of the head, a pop is empty exactly when none was at its load of the tail, across the wrap of the counters |
| `ScancodeQueue.PushAppends` | arch/x86_64/src/keyboard.rs:97-108 | between a push and its answer exactly what it was called with goes in, if that is true, and nothing if it is false |
| `ScancodeQueue.PopTakes` | arch/x86_64/src/keyboard.rs:111-122 | between a pop and its answer exactly what it answers comes out |
| `ScancodeQueue.NeverStuck` | arch/x86_64/src/keyboard.rs:97-122 | neither side waits for the other |
| `ScancodeQueue.NoUnreadOverwritten` | arch/x86_64/src/keyboard.rs:97-108 | a push never stores over a value not yet read |
| `Events.Ring.WriteLine` | kernel/src/events.rs:183-194 | the newest line takes the place of the oldest, and what came out is not forgotten |
| `Events.Ring.CopyInto` | kernel/src/events.rs:281-301 | exactly the next whole lines that fit, oldest first, and no others marked as gone |
| `Events.FlushDelivers` | kernel/src/events.rs:308-315 | each line goes out at most once and in order; one is missed only after `EVENTS` newer ones |
| `Events.Session` | kernel/src/events.rs:183-315 | the same over any sequence of records and flushes, for the text itself |
| `Events.Join` | kernel/src/events.rs:335-350 | writes the joined text and nothing after it |
| `Events.JoinIsLongest` | kernel/src/events.rs:335-374 | when the new text fits and the old is whole lines, the longest suffix of the two that starts at a line start and fits |
| `Events.JoinIsLongestExactly` | kernel/src/events.rs:335-374 | for whole lines this holds if and only if the new text fits or no old line fits in what it leaves |
| `Events.JoinMayKeepAnOlderLine` | kernel/src/events.rs:342-343 | an input for which an old line is kept after a newer one is dropped |
| `Events.LogIsNewestOfEverything` | kernel/src/lib.rs:1412-1444 | over any number of boots the log is the newest whole lines of all that was ever said |

## Left out

- A sector is written whole or not at all; torn sectors are not modelled.
- Times and TimesIsProduct: multiplication written as repeated addition, an aid to the proofs.
- `Volume::mount`, `fs::adopt` and `is_ours`: reading the boot sector off the device and deciding whose disk it is; whether it is the kernel's is a parameter.
- BootSectors.Parse: the limit of 28 bits on cluster numbers is not checked by the code; `Sound` asks for it.
- `fs::entry_at`, `each_name`, the List call and `encode_entry`: a listing over `ReadRoot`.
- `take_over` and TLB flushes of the page tables, and the counts the rebuilds report.
- The bit layout of page-table entries: an entry is a record of named fields.
- Pages that are not canonical, and frames at or above 2^46.
- PageTables.PageTables.Life: a frame the window does not reach is lost; it is named, and none is when the window reaches all.
- Elf.Parse and Loader.SpawnElf: claimed for a user space that ends at or below 2^47; the kernel passes the base of its own half.
- Loader.SpawnElf: when there are too few frames is said with a bound, four for a page and one for the root; which tables the pages share is not counted.
- Writability of the buffer of `recv`: the code checks ownership only.
- Loader.Building.Load: what a failed load gives back is not modelled.
- The flat `spawn`, `destroy`, kernel stacks, and the frame allocator beyond handing out each frame once.
- Scheduling.HandoverKeeps: a slot holds the contents of its mailbox as a value; `Mailbox` is the box itself, updated in place, with the same refusals.
- Schedulers.Scheduler.Resume: registers and stacks are a continuation; the exit code, logging and the console calls are not modelled.
- Dead slots and reaping: a slot once taken stays taken, as in the source.
- `this_boot`, the layout of a line and lines longer than 72 bytes: a line is a string of bytes.
- Events.Ring.WriteLine: the counts of lines are unbounded; the source's would wrap after 2^64 of them.
- Reordering by weak memory, and more than one core.
