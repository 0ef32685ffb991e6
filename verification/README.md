# The lab 3 virtual machine monitor: memory, files and cold migration

The monitor boots a small guest inside one buffer of guest memory, serves the guest's file system
calls, and migrates the guest: it saves the virtual machine as one image, sends the image over a byte
stream, and restores it on another host, where the guest's files are reopened and their contents
replayed from guest memory. This project models that path from boot to restore and proves what it
keeps.

**Page tables inside guest memory** (`Words`, `WordBits`, `FrameAllocator`, `PageTables`, `Mapping`,
`MemoryMap`, `TableTree`, `MappingRuns`, `MappingLists`, `SpareFrames`, `StackPages`). `memory_map` writes 64-bit
little-endian entries of a four-level table (Intel SDM Volume 3A, section 4.5) into the guest's own
bytes, in frames a first-fit allocator hands out. The class `MemoryManager.Manager` does this on two
arrays, the memory and the in-use flags; its methods are proved equal to functions on
`Machine(mem, used)`, and the theorems are about those functions. Tables, data and free frames share
one buffer, so the invariant `Mapping.Inv` is about the shape of the heap: every reachable table is
inside memory and marked used; no frame is reached at two places (the tables form a tree under CR3);
free frames are all zero, because a new table is never cleared; and the frames of translations are
held. `RawWalk` tells a call and the walk once more in the bytes of guest memory, every address and every
constant written out. `DataWrites`, `IdentityMap`, `BootState`, `Boot` and `BootLayout` add the separation of tables
from data and the identity map that lets the system call handler index guest memory without a walk.

**The section loader** (`Sections`, `SectionSpill`, `ElfLoader.FileLoader`) maps the first page of each
section and copies the section, carrying `page_dico` and `new_page` from one section to the next. A
section may run on into frames nobody has reserved, and leave nonzero bytes in a frame that is still
free. So the loader, the boot and the methods of `Manager` ask for zeros only in the free frames below
a limit, in which their tables fit (`SpareFrames`): what lies from the limit on makes no difference to
them.

**The file table and cold migration** (`HostFiles`, `FileTable`, `FdTable`, `TableInvariant`, `Replay`,
`Restore`, `Migration`, `ColdMigration`, `MigrationChain`, `RenumberedChains`, `LaterOpens`, and the class
`SyscallHandler.Handler`). The host is a map from names to bytes and from descriptors to positions; its
descriptors are the standard streams and the guest's files, and the monitor's own (KVM, sockets, the
image file) are not in it. What it answers to `open` and `write` is a parameter of each call: any unused
descriptor or -1, any count of bytes written or -1. The handler's `regs.rax >= 0` is always true of an
unsigned register; the model follows the code, so a failed open still adds an entry and a failed write
still moves the offset. `RawCalls` states what each call leaves in rax, in the table and in the host's files
in numbers alone. A file is compared by its *view*: name, position, and the bytes up to the
position.

**The image and its transfer** (`Records`, `VmImages`, `ImageBytes`, `RawImage`, `Transfer`, `ShortCalls`,
`TransferRuns`, `Connections`). The image has two encodings, the padded C struct in a file and nine fields
one after the other in a stream; `RawImage` writes out their bytes. The transfer is a state machine whose
moves are single short writes and short reads in any order. The loops of `my_write` and `my_read` are
methods of `Connections.Connection`, which take what each system call answers as a parameter, and their
calls are moves of that machine. `EndToEnd` joins everything into one theorem.

## Conditions under which the code is right

Some promises do not hold for every input. Each is stated with the exact condition, and
`MemoryWitnesses` and `FileWitnesses` show inputs on which the main ones fail.

- Tables stay apart from data if and only if the target of a mapping is neither a table nor among the
  frames the same call hands out for tables (`SeparatedExactly`). `create_stack` does not reserve its
  frames first, so this is a condition on its caller; `load_file` reserves first. A stack at 0x2000 on
  the blank memory is its own page table (`StackOnItsOwnTable`).
- The page-table invariant survives a `memory_map` if and only if guest memory has a free frame for each
  missing table (`FrameBudgetExactly`): the allocator does not know the size of guest memory, and answers
  0 when it has nothing left. Four frames of memory are too few for one mapping (`TooLittleMemory`). A
  list of mappings fits if and only if there is a free frame for each table its pages lack, each counted
  once (`AllFitExactly`).
- `create_stack` ends if and only if the size is a multiple of 0x1000 (`LoopEnds`).
- A section is copied to its own address if and only if its page is new to `page_dico`, or is the page
  that was new last (`CopiedToItsAddressExactly`). `page_dico` outlives the call and `new_page` does not,
  so the second of two files that share a page is copied into frame 0 (`SharedPage`).
- `load_file` leaves every free frame zero if and only if each nonzero byte it copies lands in a frame that
  was reserved before or that a section begins in (`LoadKeepsInvExactly`). A section of 0x1340 bytes at
  0x9000, alone in its file, can be loaded and breaks this (`SpillingLoads`, `SpillingBreaksZero`). Contents,
  translations, separation and the identity map do not depend on it.
- The array of open files is a map from guest fd to entry after a step if and only if the step's open, if
  it makes one, succeeds (`StepKeepsFdsExactly`); one refused open leaves an entry for fd -1
  (`FailedOpenStays`). For the positions and names the replay needs, the
  condition is that the step is fair: opens and file writes succeed, the opened file is not open already,
  its path is shorter than 256 bytes, and no standard stream is closed (`StepKeepsTableExactly`,
  `PathKeptExactly`).
- The guest's buffers describe its files after a step if and only if the bytes just written follow, in
  guest memory, those written before them, and no earlier ones change (`StepKeepsReplayExactly`).
- A file shows the same after the restore if and only if its bytes are still at `start_addr`
  (`MigratedFileExactly`, `RestoreShowsExactly`). A guest that writes one buffer twice does not see its
  file again, whatever host it is restored on (`BufferWrittenTwice`).
- Any later run of writes agrees with the unmigrated machine on whatever host descriptors the files are
  reopened (`MigrationKeepsWrites`). Every later run of writes and closes agrees if and only if no saved
  guest descriptor is the new host descriptor of another file (`MigrationAgreesExactly`): close looks for
  `guest_fd` equal to the host descriptor. Three files, the first closed before the third is opened, with
  the lowest free numbers before and after, are enough to lose one (`CrossedNumbers`).
- In a restored machine an open shows the guest the new file on the new number, and nothing else new, if and
  only if each entry has that number as guest and host descriptor both, or as neither (`OpenSeenExactly`): an
  entry whose numbers differ stays in the table when it is closed (`CloseForgetsExactly`), and is found first.
- Restored in a new process, a guest cannot tell on any later fair run of writes, closes and opens if and only
  if each file is reopened on the number it had (`MigrationUnseenExactly`). One file on 4 instead of 3, closed,
  and an open that gets 3 again are enough, though no numbers cross (`NumberUsedAgain`).
- A further migration agrees if and only if, at its save, each entry's descriptor is at the entry's offset
  and its buffer still holds its bytes (`ChainAgreesExactly`); a write keeps an entry so if and only if its
  two numbers are the same (`WriteStaysUpToDateExactly`). A file that went from 3 to 4 and a byte written
  there lose that byte in the second migration (`ByteLostOnSecondMigration`); the sample output in
  `lab_3/README.md` has a file that went from 8 to 6.

Where the code and its documentation disagree the code is followed. `lab_3/README.md` prints a stream of
1002369 bytes, which leaves out the `flags` and `mode` of the 64 entries; the struct of today gives
1002009 bytes and the three register blocks. `lab_3/Report.md` says that host and guest descriptors may
differ after a restore; the searches of write and close assume that they do not.

## Model

| member | source | states |
|---|---|---|
| `FrameAllocator.AllocateIsFirstFit` | lab_3/memory_manager/memory.c:32-45 | the allocator answers with the least free frame from 2 to 0xFFFF, and with 0 exactly when none is free |
| `FrameAllocator.AllocateBelow` | lab_3/memory_manager/memory.c:32-45 | with a free frame below a limit, the frame handed out lies below it and one fewer is free there |
| `FrameAllocator.TakeNMarks` | lab_3/memory_manager/memory.c:32-45 | n allocations mark exactly the n least free frames |
| `WordBits.PresentBit` | lab_3/memory_manager/memory.c:47-50 | `entry & PRESENT` on the 64 bits is the parity the model tests |
| `WordBits.PageOfEntry` | lab_3/memory_manager/memory.c:15-18 | `entry & ~0xFFF` is the address of the entry's frame |
| `WordBits.FlaggedEntry` | lab_3/memory_manager/memory.c:62 | the page or-ed with PRESENT, USER and RW on the 64 bits is the model's entry with its flags |
| `WordBits.IndexMacros` | lab_3/memory_manager/memory.h:5-8 | the four shift-and-mask macros are the four indices of the address |
| `WordBits.TranslatedAddress` | lab_3/memory_manager/memory.c:146 | the entry's page or-ed with the offset is frame times 0x1000 plus offset |
| `PageTables.SplitIsPageNumber` | lab_3/memory_manager/memory.h:5-8 | the four indices are the base-512 digits of bits 12 to 47 of the address |
| `PageTables.SamePageIffSamePath` | lab_3/memory_manager/memory.h:5-8 | two addresses use the same four entries exactly when they agree on bits 12 to 47 |
| `PageTables.EntryAfterPut` | lab_3/memory_manager/memory.c:62 | a store to one table entry, as eight bytes of guest memory, is read back there and changes no other entry of any frame |
| `Mapping.LinkTables` | lab_3/memory_manager/memory.c:57-64 | giving an address its missing table puts the new frame at exactly the addresses that share the indices above, and moves no other table |
| `Mapping.LinkKeepsInv` | lab_3/memory_manager/memory.c:57-64 | a new table, in a frame that is never cleared, keeps the whole invariant: tree, inside memory, marked, free frames zero |
| `Mapping.LinkedNewTables` | lab_3/memory_manager/memory.c:57-83 | the tables after the descent are the old ones and exactly the frames handed out |
| `Mapping.LinkedLeaves` | lab_3/memory_manager/memory.c:57-83 | creating tables changes no translation |
| `MemoryMap.MappedPageUnchanged` | lab_3/memory_manager/memory.c:52-96 | on a page already mapped, memory and allocator are both unchanged, for any physical address |
| `MemoryMap.MapPageKeepsInv` | lab_3/memory_manager/memory.c:52-96 | one call keeps the page-table invariant when its tables fit, even with no frame left for the target |
| `MemoryMap.MapPageFrames` | lab_3/memory_manager/memory.c:52-96 | one call maps the page of the address to the target frame and no other page to anything new |
| `MemoryMap.MapPageWalk` | lab_3/memory_manager/memory.c:52-96 | afterwards every address of the page walks to the target frame at its own offset; every address differing in bits 12 to 47 walks as before |
| `MemoryMap.MapPageTables` | lab_3/memory_manager/memory.c:57-83 | the tables after a call are the old ones and the frames handed out for missing ones |
| `MemoryMap.MapPageMarks` | lab_3/memory_manager/memory.c:84-95 | the frames marked after a call: the old ones, those handed out, and the target |
| `MemoryMap.MapPageCount` | lab_3/memory_manager/memory.c:52-96 | exactly how many free frames a call leaves below any limit |
| `MemoryMap.SeparatedExactly` | lab_3/memory_manager/memory.c:59-95 | tables stay apart from data if and only if the target is neither a table nor handed out in the same call |
| `TableTree.OneParentEntry` | lab_3/memory_manager/memory.c:57-83 | each table has exactly one parent entry, and no entry points back to the root |
| `RawWalk.WalkInBytes` | lab_3/memory_manager/memory.c:110-147 | gva_to_gpa reads the word at 0x1000 + 8 * (bits 39 to 47), follows its page to three more, each address written out, and gives 0 where one of the four has bit 0 clear |
| `RawWalk.MapPageInBytes` | lab_3/memory_manager/memory.c:52-96 | on an unmapped page the same four words are present after a call; those that led on are unchanged, a new one is a page or-ed with 7, and the last is the physical address, or that of a page found for it, or-ed with 7 |
| `RawWalk.OtherPagesInBytes` | lab_3/memory_manager/memory.c:52-96 | an address that differs in bits 12 to 47 is followed, word by word, to where it led before |
| `RawWalk.MarksInBytes` | lab_3/memory_manager/memory.c:82-95 | marked frames stay marked; the frame of a new mapping is marked, and one found for it was free |
| `RawWalk.FrameZeroKept` | lab_3/memory_manager/memory.c:52-96 | a call writes no byte below 0x1000 |
| `RawWalk.FirstMapping` | lab_3/memory_manager/memory.c:57-64 | the first mapping in a blank memory enters its word at 0x1000 + 8 * (bits 39 to 47), and the bytes below 0x1000 stay zero |
| `TableTree.FrameBudgetExactly` | lab_3/memory_manager/memory.c:32-96 | the invariant survives, for any target, if and only if the missing tables fit in the free frames of guest memory |
| `MappingRuns.RunKeepsInv` | lab_3/memory_manager/memory.c:27-96 | every run of allocate_page, invalidate_page and memory_map keeps the invariant |
| `MappingRuns.StepGrants` | lab_3/memory_manager/memory.c:27-96 | a step hands out at most four frames, free before and marked after, exhaustion included; no frame is ever given back |
| `MappingRuns.NeverTwice` | lab_3/memory_manager/memory.c:32-45 | on any run no frame is handed out by two different steps |
| `MappingLists.MapAllFrames` | lab_3/memory_manager/memory.c:149-159 | after a list of mappings a page has its old frame, else the target first asked for it, else none |
| `MappingLists.MapAllKeepsInv` | lab_3/memory_manager/memory.c:149-159 | a list of mappings, each within its budget, keeps the invariant |
| `MappingLists.RoomIsEnough` | lab_3/memory_manager/memory.c:149-159 | a budget read off before the first call, one frame for each table the pages lack, is enough for every call of the list |
| `MappingLists.AllFitExactly` | lab_3/memory_manager/memory.c:57-83 | where targets take no frames of their own, all calls of a list fit if and only if there is a free frame for each table its pages lack |
| `MappingLists.TablesMadeExactly` | lab_3/memory_manager/memory.c:57-83 | a list creates each table its pages lack exactly once |
| `MappingLists.ThreeTablesPerRegion` | lab_3/memory_manager/memory.c:57-83 | the pages of a list lack at most three tables for each 2 MiB region that had none |
| `MappingLists.MapAllSeparated` | lab_3/memory_manager/memory.c:149-159 | a list whose tables fit below its targets keeps tables apart from data |
| `SpareFrames.MapPageCapped` | lab_3/memory_manager/memory.c:52-96 | a call whose frames fit below a limit does the same whatever is marked above it, and marks only its target there |
| `SpareFrames.MapPageKeepsShape` | lab_3/memory_manager/memory.c:52-96 | tables, translations and the zeros below the limit survive a call, with any bytes in the free frames above |
| `SpareFrames.MapAllKeepsShape` | lab_3/memory_manager/memory.c:149-159 | the same for a list of mappings |
| `SpareFrames.RoomExactly` | lab_3/memory_manager/memory.c:149-159 | for targets above the limit, the room the loader asks for below it is exactly what the calls need |
| `DataWrites.DataOnlyKeepsInv` | lab_3/load_manager/loader.c:74-83 | writes to data frames keep the invariant and the separation |
| `DataWrites.StoresKeepTranslations` | lab_3/memory_manager/memory.c:110-147 | any sequence of guest stores through translated addresses leaves every translation as it was |
| `IdentityMap.DirectIndexIsWalk` | lab_3/syscall_manager/syscall_handler.c:28-46 | on an identity map the walk of an address below 2^48 is the address itself when mapped, 0 when not |
| `IdentityMap.MapAllIdentity` | lab_3/load_manager/loader.c:66-72 | mappings of addresses to themselves keep every mapping the identity |
| `IdentityMap.SelfIsIdentity` | lab_3/load_manager/loader.c:68 | an unaligned address mapped to itself maps its page to itself |
| `StackPages.StackTranslations` | lab_3/memory_manager/memory.c:149-159 | create_stack leaves addr and exactly the size/0x1000 pages below it identity-mapped, every other address as before |
| `StackPages.StackKeeps` | lab_3/memory_manager/memory.c:149-159 | invariant, identity map and separation survive create_stack |
| `StackPages.LoopEnds` | lab_3/memory_manager/memory.c:154-158 | the loop, in 64-bit arithmetic, ends if and only if the size is a multiple of 0x1000 |
| `BootState.MapKeepsFrame` | lab_3/memory_manager/memory.c:52-96 | memory_map writes no byte of a data frame and does not turn it into a table |
| `BootState.BlankIsSound` | lab_3/vm_manager/manager.c:28-33 | the zeroed memory of a new machine satisfies the invariant |
| `Sections.CopiedToItsAddressExactly` | lab_3/load_manager/loader.c:63-75 | the copy address is sh_addr if and only if the page is new or was the last new one |
| `Sections.LoadedExactly` | lab_3/load_manager/loader.c:60 | a section is loaded if and only if bit 1 of sh_flags is set and sh_addr is not 0 |
| `Sections.SkippedUnchanged` | lab_3/load_manager/loader.c:57-61 | any other section leaves memory, flags, page_dico and new_page as they were |
| `Sections.SectionMapped` | lab_3/load_manager/loader.c:63-73 | a new page is mapped to itself, its frame and all other data frames keep their bytes, and the second mapping changes nothing |
| `Sections.OneSection` | lab_3/load_manager/loader.c:59-83 | one section, however far it runs over its page, lands at its address: byte k of it is byte sh_offset + k of the file, or 0 past its end or where bit 3 of sh_type is set; no other byte the call cannot allocate and no translation is disturbed |
| `Sections.LoadStep` | lab_3/load_manager/loader.c:57-84 | after one section the carried state is right for all the others |
| `Sections.LoadContent` | lab_3/load_manager/loader.c:57-84 | at the end every section with bit 1 of sh_flags and a nonzero address is in memory so, whatever was loaded after it, and the machine is sound below the limit |
| `Sections.LoadBytes` | lab_3/load_manager/loader.c:57-84 | a byte no section covers, in a frame the call cannot allocate, is not disturbed |
| `Sections.LoadFrames` | lab_3/load_manager/loader.c:63-73 | exactly the first pages of the sections become mapped, to themselves; mapped pages keep their frames |
| `SectionSpill.LoadKeepsInvExactly` | lab_3/load_manager/loader.c:63-82 | free frames stay zero if and only if every nonzero byte copied lands in a frame reserved before or by a section that begins there |
| `SectionSpill.MarksUpTo` | lab_3/load_manager/loader.c:63-73 | the frames above the limit reserved after n sections: the old ones, and those new sections begin in |
| `Boot.BootKeepsSound` | lab_3/vm_src/src/VMM_client.c:21-31 | any sequence of create_stack and load_file calls keeps tree, marks, separation and identity, whatever its sections spill |
| `Boot.OneLimitForAll` | lab_3/vm_src/src/VMM_client.c:21-31 | with one limit for the boot, the free frames below it stay zero and each call leaves the next what it needs |
| `BootLayout.HeadersSuffice` | lab_3/load_manager/loader.c:57-84 | sections in order, inside memory, above the limit and on new pages can be loaded when the tables they lack fit |
| `BootLayout.MonitorBoots` | lab_3/vm_src/src/VMM_client.c:5-31 | a stack of 0x3000 bytes at 0xE000 and any two files whose sections lie in order between 0x8000 and 0xF000 and begin on different pages boot in 0xF000 bytes; memory then holds the application, byte for byte from its file, and the boot code where that does not cover it |
| `Boot.DirectIndexingIsTranslation` | lab_3/syscall_manager/syscall_handler.c:28-46 | after any boot and any guest stores, indexing memory by a mapped guest address is the walk |
| `Boot.BlankStackFits` | lab_3/vm_src/src/VMM_client.c:22-24 | a stack in one 2 MiB region from frame 5 up, such as the monitor's own, meets create_stack's conditions |
| `MemoryManager.Manager.AllocatePage` | lab_3/memory_manager/memory.c:32-45 | the scan marks and returns the first free frame from 2 to 0xFFFF, 0 when there is none |
| `MemoryManager.Manager.InvalidatePage` | lab_3/memory_manager/memory.c:27-30 | marks the named frame and no other |
| `MemoryManager.Manager.FollowOrLink` | lab_3/memory_manager/memory.c:59-65 | follows an entry, or first stores a fresh table there, staying on the specified descent |
| `MemoryManager.Manager.MapMemory` | lab_3/memory_manager/memory.c:52-96 | in place, the new memory and flags are those of the mapping function, and the four words from 0x1000 on are those of `RawWalk.MapPageInBytes`; the invariant holds |
| `MemoryManager.Manager.SetLastEntry` | lab_3/memory_manager/memory.c:82-95 | the last block: zero address, allocated target or reserved target |
| `MemoryManager.Manager.GvaToGpa` | lab_3/memory_manager/memory.c:110-147 | computes the walk, the four words followed from 0x1000, reading only inside guest memory |
| `MemoryManager.Manager.GvaToHva` | lab_3/memory_manager/memory.c:98-108 | the index of the walk, null when the walk gives 0 |
| `MemoryManager.Manager.CreateStack` | lab_3/memory_manager/memory.c:149-159 | in place, the result of mapping addr and the pages below it to themselves |
| `ElfLoader.FileLoader.LoadFile` | lab_3/load_manager/loader.c:45-87 | in place, memory, flags and page_dico are those of the section loop's specification, and every loaded section is in memory byte for byte; the machine stays sound below the limit |
| `ElfLoader.FileLoader.MapNewPage` | lab_3/load_manager/loader.c:66-72 | reserve and map twice, as the code does |
| `HostFiles.WriteViews` | lab_3/syscall_manager/syscall_handler.c:53 | a write extends its own descriptor's view and changes none of another file |
| `HostFiles.OpenViews` | lab_3/syscall_manager/syscall_handler.c:79 | an opened descriptor starts at position 0; views of other files are unchanged |
| `FileTable.IntRoundTrip` | lab_3/syscall_manager/syscall_handler.c:79-83 | an int answer stored in rax and read back as an int field is itself |
| `FileTable.PathKeptExactly` | lab_3/syscall_manager/syscall_handler.c:88 | strncpy keeps the path if and only if it is shorter than 256 bytes |
| `RawCalls.WriteInFull` | lab_3/syscall_manager/syscall_handler.c:38-70 | rax is the count, or 0xFFFFFFFFFFFFFFFF for a number of no entry and for a write the host refuses; the first entry whose guest fd is the host fd has its offset moved by ret modulo 2^64 and, at offset 0, start_addr set to the low 32 bits; the host file has these bytes at its position and its others unchanged |
| `RawCalls.FailedWriteCounts` | lab_3/syscall_manager/syscall_handler.c:53-64 | a failed write leaves an offset n > 0 at n - 1, and 0 at 0xFFFFFFFFFFFFFFFF |
| `RawCalls.OpenInFull` | lab_3/syscall_manager/syscall_handler.c:71-92 | rax is the new number, or 0xFFFFFFFFFFFFFFFF at 64 entries and for an open the host refuses; below 64 there is one new entry, its path the first 256 bytes of the string, zeros behind; O_TRUNC (0x200) empties the file |
| `RawCalls.CloseInFull` | lab_3/syscall_manager/syscall_handler.c:93-115 | rax is 0, or 0xFFFFFFFFFFFFFFFF for a number of no entry and for one the host does not know; only a successful close moves the last entry into the place of the first whose guest fd is the host fd |
| `RawCalls.UnknownFd` | lab_3/syscall_manager/syscall_handler.c:46-52 | write and close of a number outside 0 to 2 that no entry has put 0xFFFFFFFFFFFFFFFF in rax and change nothing |
| `RawCalls.CStringIs` | lab_3/syscall_manager/syscall_handler.c:78 | the path is the one string at the address: the bytes up to the first NUL |
| `FdTable.HostFdIsGuestFd` | lab_3/syscall_manager/syscall_handler.c:146-162 | before a restore the lookup answers with the guest fd itself, or -1 |
| `FdTable.SwapRemoveIsRemoval` | lab_3/syscall_manager/syscall_handler.c:104-112 | swap-remove takes out exactly the named entry; every other lookup is unchanged |
| `FdTable.StepOnMap` | lab_3/syscall_manager/syscall_handler.c:38-115 | the array refines a map: a write, failed or not, advances one entry, an open adds one with these contents, a close removes one, all other lookups unchanged |
| `FdTable.StepKeepsFdsExactly` | lab_3/syscall_manager/syscall_handler.c:36-115 | one entry per guest fd, equal to an open host fd, survives a step if and only if its open succeeds |
| `FdTable.RunKeepsFds` | lab_3/syscall_manager/syscall_handler.c:36-115 | on every run whose opens succeed, with any paths, writes and closes: at most 64 entries, distinct guest fds equal to open host fds |
| `FdTable.RunKeepsEntry` | lab_3/syscall_manager/syscall_handler.c:36-115 | on such a run a guest fd no write or close names keeps its entry |
| `FdTable.LaunchedLookup` | lab_3/syscall_manager/syscall_handler.c:146-162 | from the launch on, on every such run, the lookup gives the guest fd itself or -1, and there are at most 64 entries |
| `TableInvariant.WriteKeepsTableExactly` | lab_3/syscall_manager/syscall_handler.c:53-68 | the table invariant survives a write if and only if it succeeds or reaches no entry |
| `TableInvariant.OpenKeepsTableExactly` | lab_3/syscall_manager/syscall_handler.c:71-92 | the table invariant survives an open if and only if the table is full, or the open succeeded on a new file with a short path |
| `TableInvariant.StepKeepsTableExactly` | lab_3/syscall_manager/syscall_handler.c:36-115 | any step keeps the table invariant if and only if it is fair |
| `TableInvariant.RunKeepsTable` | lab_3/syscall_manager/syscall_handler.c:36-115 | every fair run: each entry's descriptor is at the entry's file and offset, the files are distinct, and nothing else is open |
| `Replay.ContiguousFollows` | lab_3/syscall_manager/syscall_handler.c:59-64 | a write from just behind an entry's buffer is one of those the replay allows |
| `Replay.StepKeepsReplayExactly` | lab_3/syscall_manager/syscall_handler.c:53-90 | start_addr and offset describe every file's bytes after a step if and only if the step is steady; zero-length and short writes included |
| `Replay.RunKeepsReplay` | lab_3/syscall_manager/syscall_handler.c:53-90 | after every steady run each file's first offset bytes are guest memory from start_addr |
| `Replay.StartsAreFirstWrites` | lab_3/syscall_manager/syscall_handler.c:59-64 | on every fair run start_addr is the address of the first nonempty write since the open, and the offset is positive exactly when there was one |
| `Restore.ReopenedViews` | lab_3/syscall_manager/syscall_handler.c:303-310 | after each round every file reopened so far has its name, position and replayed bytes on its new descriptor |
| `Restore.ReopenedDistinct` | lab_3/syscall_manager/syscall_handler.c:303-310 | the reopened descriptors differ |
| `RawCalls.ReopenInFull` | lab_3/syscall_manager/syscall_handler.c:303-309 | one round: the file is opened with the saved flags, emptied if they have 0x200, and ret bytes of guest memory from start_addr on are written at its start; its other bytes, other files and other fields of the entry are unchanged |
| `RawCalls.RestoreKeepsTail` | lab_3/syscall_manager/syscall_handler.c:306-309 | without 0x200 in the flags a restore keeps the bytes of the host's file behind the replayed ones; with it the file is those alone |
| `Restore.MigratedFileExactly` | lab_3/syscall_manager/syscall_handler.c:303-310 | a migrated file is at its saved position, and shows the same bytes if and only if they were still at start_addr |
| `Migration.WriteKeepsPairs` | lab_3/syscall_manager/syscall_handler.c:54-66 | on any table a write keeps every guest-to-host pair |
| `Migration.WriteSeen` | lab_3/syscall_manager/syscall_handler.c:46-68 | after a restore on any numbers a write extends what its guest fd shows, changes no other, and answers alike |
| `Migration.CloseSeen` | lab_3/syscall_manager/syscall_handler.c:94-115 | on any table of distinct guest and host fds a close whose host fd is no other entry's guest fd closes its guest fd for the guest and no other |
| `Migration.OpenSeen` | lab_3/syscall_manager/syscall_handler.c:72-90 | after a restore an open on a number of no entry shows a new file at position 0, and changes no other view |
| `Migration.OpenSeenExactly` | lab_3/syscall_manager/syscall_handler.c:72-90 | an open shows the new file on its number and nothing else new if and only if each entry has the number as guest fd and host fd both, or as neither |
| `Migration.CloseKeepsPairsExactly` | lab_3/syscall_manager/syscall_handler.c:100-112 | with one entry for each guest fd, a close keeps all other pairs if and only if no other entry's guest fd is the closed host fd |
| `ColdMigration.RunSimulates` | lab_3/syscall_manager/syscall_handler.c:36-115 | two machines that look alike to the guest stay so through any matched run of writes, closes and opens, with equal return values |
| `ColdMigration.WritesMatch` | lab_3/syscall_manager/syscall_handler.c:38-70 | every run of writes is matched, on any numbers |
| `ColdMigration.WriteRunKeepsPairs` | lab_3/syscall_manager/syscall_handler.c:54-66 | any run of writes keeps every guest-to-host pair, on any table |
| `ColdMigration.RunKeepsPairs` | lab_3/syscall_manager/syscall_handler.c:93-112 | with one entry for each guest fd, any run of writes and clean closes keeps the pairs of the guest fds it does not close |
| `ColdMigration.RestoreShowsExactly` | lab_3/syscall_manager/syscall_handler.c:283-314 | for any machine, migrated before or not, the guest sees the same files after the restore if and only if every entry is at its descriptor's position and replayable |
| `ColdMigration.ColdMigrationSimulates` | lab_3/syscall_manager/syscall_handler.c:283-314 | after any steady run, save and restore on any numbers, every later matched run shows the guest the same files and return values as without migration |
| `ColdMigration.MigrationKeepsWrites` | lab_3/syscall_manager/syscall_handler.c:283-314 | the same for every later run of writes, on arbitrary host fds |
| `ColdMigration.MigrationKeepsCloses` | lab_3/syscall_manager/syscall_handler.c:283-314 | the same for every later run of writes and closes, when numbers do not cross |
| `ColdMigration.CrossingLosesAFile` | lab_3/syscall_manager/syscall_handler.c:93-112 | when a guest fd is another entry's new host fd, closing that other one takes the first from the migrated guest only |
| `ColdMigration.MigrationAgreesExactly` | lab_3/syscall_manager/syscall_handler.c:283-314 | migrated and unmigrated agree after every later run of writes and closes if and only if descriptors do not cross |
| `MigrationChain.RestoreKeepsInvariants` | lab_3/syscall_manager/syscall_handler.c:300-313 | with the saved numbers handed out again, a restored machine satisfies the invariants of one never migrated |
| `MigrationChain.RunKeepsSameFiles` | lab_3/syscall_manager/syscall_handler.c:36-135 | from the same files, any fair run, opens included, keeps the same files and gives the same answers |
| `MigrationChain.ManyMigrations` | lab_3/syscall_manager/syscall_handler.c:126-135 | a chain of migrations of any length on the saved numbers preserves table, positions and contents |
| `RenumberedChains.WriteStaysUpToDateExactly` | lab_3/syscall_manager/syscall_handler.c:54-66 | a write leaves the entry at its descriptor's position if and only if guest fd and host fd are the same |
| `RenumberedChains.CloseForgetsExactly` | lab_3/syscall_manager/syscall_handler.c:100-112 | a close removes its entry if and only if guest fd and host fd are the same |
| `RenumberedChains.ChainAgreesExactly` | lab_3/syscall_manager/syscall_handler.c:126-135 | on any numbers a machine that travels looks like one that stays after every migration if and only if at each save every entry is up to date and replayable |
| `LaterOpens.MigrationUnseenExactly` | lab_3/syscall_manager/syscall_handler.c:283-314 | restored in a new process, every later fair run, opens included, agrees with the unmigrated machine if and only if each file is reopened on its saved number |
| `LaterOpens.RenumberingTells` | lab_3/syscall_manager/syscall_handler.c:93-112 | a file reopened on another number tells: some later fair run of a close and an open shows it |
| `Records.LaidRoundTrip` | lab_3/syscall_manager/syscall_handler.h:50-59 | a C record with padding, read back by its layout, gives its fields whatever follows |
| `VmImages.SaveThenRestore` | lab_3/syscall_manager/syscall_handler.c:164-298 | save then restore reproduces registers, FPU, the MSRs 0xC0000080 to 0xC0000082, all of memory and the table, on any blank machine; other MSRs are left alone |
| `VmImages.SavedImage` | lab_3/syscall_manager/syscall_handler.c:164-222 | the image holds the register blocks, those three MSRs in its first three entries, the memory with its size and the base given, the entries in use, and zeros behind each |
| `VmImages.RestoredImage` | lab_3/syscall_manager/syscall_handler.c:265-298 | from any image a restore takes the register blocks, the MSRs its first nmsrs entries name, the first memory_size bytes of memory and the first n_open_files entries |
| `VmImages.FileRoundTrip` | lab_3/syscall_manager/syscall_handler.h:50-59 | an entry survives its struct encoding |
| `VmImages.EncodedFileSize` | lab_3/syscall_manager/syscall_handler.h:50-59 | the struct of an entry is 288 bytes, padding included |
| `RawImage.EntryLayout` | lab_3/syscall_manager/syscall_handler.h:50-59 | the bytes of an entry: four two's complement ints, start_addr, a gap of four bytes, the offset, the path, each low byte first |
| `RawImage.MsrsLayout` | lab_3/syscall_manager/syscall_handler.h:68-71 | the 520 bytes of msrs: the count, a gap of four bytes, entry i at 8 + 16 * i |
| `RawImage.FilesLayout` | lab_3/syscall_manager/syscall_handler.h:82-83 | entry i of open_files at 288 * i |
| `ImageBytes.FieldsRoundTrip` | lab_3/syscall_manager/syscall_handler.h:61-85 | the bytes of the nine fields determine the image |
| `ImageBytes.DumpRoundTrip` | lab_3/syscall_manager/syscall_handler.c:240-260 | loading the dumped struct gives back the image |
| `ImageBytes.StreamSize` | lab_3/vm_migration/migration.c:63-77 | the stream has the size of the nine fields: three register blocks and 1002009 bytes |
| `ImageBytes.SizesOfFields` | lab_3/vm_migration/migration.c:143-155 | sender and receiver agree on the nine sizes |
| `ImageBytes.StreamDeterminesImage` | lab_3/vm_migration/migration.c:63-75 | two images with the same stream are the same |
| `RawImage.StreamLayout` | lab_3/vm_migration/migration.c:63-75 | the stream is the nine fields in this order with nothing between them |
| `RawImage.DumpLayout` | lab_3/syscall_manager/syscall_handler.c:240-242 | the file is the nine fields in this order, with seven bytes between n_open_files and open_files, when the register blocks are whole 64-bit words |
| `Transfer.MoveDoesWork` | lab_3/vm_migration/migration.c:19-28 | every short write or short read keeps the FIFO invariant and decreases the work left |
| `Transfer.NothingLost` | lab_3/vm_migration/migration.c:63-75 | delivered, in flight and unsent bytes are always the serialized image |
| `Transfer.NeverStuck` | lab_3/vm_migration/migration.c:82-101 | a transfer that is not finished can always go on |
| `Transfer.ReceivedIsSent` | lab_3/vm_migration/migration.c:143-155 | a receiver with all its fields has those sent, and nothing is left over |
| `Transfer.EveryInterleaving` | lab_3/vm_migration/migration.c:11-101 | the four properties above for every interleaving, with a bound on its length |
| `ShortCalls.ThroughExactly` | lab_3/vm_migration/migration.c:19-28 | a loop that stops at the length or at an answer of 0 or less has succeeded exactly when the first answers, all positive, make the length |
| `TransferRuns.SenderRuns` | lab_3/vm_migration/migration.c:19-28 | the calls of the sender's loops are moves of the transfer, and every field is sent exactly when the answers are enough |
| `TransferRuns.ReceiverRuns` | lab_3/vm_migration/migration.c:90-98 | the calls of the receiver's loops are moves of the transfer, and every field is received exactly when the answers are enough |
| `Connections.Connection.MyWrite` | lab_3/vm_migration/migration.c:11-30 | given the answers of its system calls, the loop succeeds exactly when the first ones, all positive, make the length; else it stops at one of 0 or less; the stream grows by the bytes of the positive ones |
| `Connections.Connection.MyRead` | lab_3/vm_migration/migration.c:82-101 | given the answers of its system calls, the loop succeeds exactly when the first ones, all positive, make the length; else it stops at one of 0 or less; it takes the bytes of the positive ones off the front |
| `Connections.Connection.SendVmImage` | lab_3/vm_migration/migration.c:55-80 | the nine loops succeed exactly when the first answers, all positive, make the size of the image's stream, and append that many of its bytes in any case |
| `Connections.Connection.ReceiveVmImage` | lab_3/vm_migration/migration.c:140-162 | the nine loops succeed exactly when the first answers, all positive, make the size of the nine fields; if what they read is an image's stream, the result is that image |
| `Connections.SameNine` | lab_3/vm_migration/migration.c:143-155 | nine byte strings of the field sizes at the head of an image's stream are its fields |
| `SyscallHandler.Handler.GetHostFd` | lab_3/syscall_manager/syscall_handler.c:146-162 | the scan answers with the first entry's host fd, the standard streams' own numbers, or -1 |
| `SyscallHandler.Handler.WriteCall` | lab_3/syscall_manager/syscall_handler.c:38-70 | the table, the host and rax after a write, as the specification and as `RawCalls.WriteInFull` state them |
| `SyscallHandler.Handler.OpenCall` | lab_3/syscall_manager/syscall_handler.c:71-92 | the table, the host and rax after an open, as the specification and as `RawCalls.OpenInFull` state them |
| `SyscallHandler.Handler.CloseCall` | lab_3/syscall_manager/syscall_handler.c:93-115 | the table, the host and rax after a close, as the specification and as `RawCalls.CloseInFull` state them |
| `SyscallHandler.Handler.DumpOpenFiles` | lab_3/syscall_manager/syscall_handler.c:186-193 | the entries in use, the rest zero |
| `SyscallHandler.Handler.DumpMsrEntries` | lab_3/syscall_manager/syscall_handler.c:195-222 | the MSRs 0xC0000080, 0xC0000081 and 0xC0000082 with their values, then 29 zero entries |
| `SyscallHandler.Handler.SaveVmImage` | lab_3/syscall_manager/syscall_handler.c:229-238 | the image holds what `VmImages.SavedImage` says, the base given included |
| `SyscallHandler.Handler.Handle` | lab_3/syscall_manager/syscall_handler.c:12-144 | the dispatch on rax: each call's effect, exit, SAVE once ignored after a restore, everything else a no-op |
| `SyscallHandler.Handler.RestoreFromImage` | lab_3/syscall_manager/syscall_handler.c:283-314 | vCPU, memory, table and host after a restore, with any answers of the host, failures included |
| `SyscallHandler.Handler.ReopenFiles` | lab_3/syscall_manager/syscall_handler.c:301-310 | the loop reopens and replays the entries in order |
| `EndToEnd.SavedImageFits` | lab_3/syscall_manager/syscall_handler.c:229-246 | a machine whose table is in order has an image every field of which fits its C type |
| `EndToEnd.ReceivedImage` | lab_3/vm_migration/migration.c:140-162 | however the transfer is cut, the image received is the image sent |
| `EndToEnd.RestoredMachine` | lab_3/vm_src/src/VMM_server.c:14-26 | after transfer and restore onto a blank machine, memory, registers, EFER, STAR, LSTAR and the walk of every address are those at the save; the image received has the base and the memory size of the sender |
| `EndToEnd.WholeMigration` | lab_3/vm_src/src/VMM_server.c:10-30 | run, save, send, receive, restore, run on: through any matched run the guest sees the same files and return values as if it had stayed |
| `MemoryWitnesses.StackOnItsOwnTable` | lab_3/memory_manager/memory.c:149-159 | create_stack(0x2000, 0) on the blank memory makes frame 2 both a table and the stack page |
| `MemoryWitnesses.TooLittleMemory` | lab_3/memory_manager/memory.c:32-45 | one mapping in four frames of memory breaks the invariant |
| `MemoryWitnesses.SharedPage` | lab_3/load_manager/loader.c:44-75 | the second of two files with sections on one page is copied to its page offset in frame 0 |
| `MemoryWitnesses.SpillingLoads` | lab_3/load_manager/loader.c:57-84 | a section of two pages, the second unreserved, meets the loader's conditions |
| `MemoryWitnesses.SpillingBreaksZero` | lab_3/load_manager/loader.c:63-82 | with a nonzero byte in its second page it leaves a free frame that is not zero |
| `FileWitnesses.BufferWrittenTwice` | lab_3/syscall_manager/syscall_handler.c:59-64 | a launched guest that writes one buffer twice does not see its file again after any restore |
| `FileWitnesses.CrossedNumbers` | lab_3/syscall_manager/syscall_handler.c:93-112 | a launched guest opens, opens, closes, opens; after a restore on the lowest free numbers a close takes another file with it |
| `FileWitnesses.NumberUsedAgain` | lab_3/syscall_manager/syscall_handler.c:93-112 | a launched guest's file is reopened on 4 instead of 3; after a close and an open on 3 the migrated guest has nothing there |
| `FileWitnesses.CloseLeavesEntry` | lab_3/syscall_manager/syscall_handler.c:100-112 | in that machine the close leaves the entry in the table |
| `FileWitnesses.ByteLostOnSecondMigration` | lab_3/syscall_manager/syscall_handler.c:54-66 | a launched guest migrated twice, with a write on another number between, does not look like one that stayed |
| `FileWitnesses.FailedOpenStays` | lab_3/syscall_manager/syscall_handler.c:79-90 | a refused open adds an entry with guest fd -1 |

## Left out

- The KVM calls, the run loop and `create_bootstrap`: the vCPU is a record of its register blocks, read and set as a whole.
- Sizes of `kvm_regs`, `kvm_sregs` and `kvm_fpu`: `linux/kvm.h` is not part of this model, so they are parameters.
- Socket setup and retry, printing, `boot.asm`, linker scripts, and lab_1 and lab_2.
- Reading and checking the ELF header: the section headers and the bytes of the file are inputs of the loader.
- Sections.Content: takes offsets and sizes below 2^31; the narrowing of the 64-bit header fields to 32 bits and to `int` is not modelled.
- ElfLoader.FileLoader.LoadFile: asks that each loaded section begin below 0x1000000, the range of `page_dico`, which the code does not check.
- PageTables.Entry: reads 0 outside guest memory, where the code would read foreign memory; the invariant keeps every table inside.
- ColdMigration.ColdMigrationSimulates: takes hosts that reopen every file and take every byte; what a restore does otherwise is in `RestoreFromImage`.
- A host that answers the same later open with different numbers on the two machines: the guest would see the difference in rax.
- HostFiles.HostOpen: of the open flags only O_CREAT and O_TRUNC act; O_APPEND, access modes, permissions and two names for one file are not modelled.
- HostFiles.CloseAnswer: close of an open descriptor succeeds.
- Contents of a file beyond the saved position: the comparison of two machines does not cover them; what a restore does to them on one host is in `RestoreKeepsTail`.
- The allocator's flags are not part of the image, so nothing is claimed of mappings made after a restore.
- A vCPU whose MSRs cannot be read, and partial results of the MSR calls.
