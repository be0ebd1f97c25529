# LunariaOS: models and proofs

LunariaOS is a small x86 kernel with its own filesystem, demand pager, shell and editor, and a TinyCC that runs on it.
This project models the parts that carry state over long runs, in Dafny, and proves what each of them is for. To
verify: `dafny verify dfyconfig.toml`.

- **Filesystem** (`Bytes`, `Ata`, `Directory`, `FsSpec`, `DirectoryLists`, `Volume`, `OpenFiles`, `FileSessions`). The disk is an array of sectors whose
  every intermediate state is recorded and whose every transfer may fail. The abstract state is a map from names to
  (type, bytes). Each call is proved against that map, for complete, failed and interrupted runs; the open-file layer
  is proved against byte files with a position, and whole sessions against the files they leave.
- **Memory** (`Frames`, `BootMap`, `Paging`, `UserMemory`, `Pager`). Physical memory is an array of frames of 1024 words, page tables
  are frames in it, and a ghost owner map says what each allocated frame is for. Boot, creation, faults, stores by the
  program and destruction keep one invariant from which isolation and conservation of frames follow; what a program reads is what a
  plain memory would hold after its stores.
- **Line tables and debug strings** (`Leb128`, `LineProgram`, `LineTable`, `Strings`). Writers and readers as loops over
  bytes, and the theorem that looking up in the emitted bytes is looking up in the events.
- **i386 back end** (`Jumps`, `JumpRuns`, `AddressModes`, `AsmConstraints`, `AsmAllocation`, `AsmSafety`,
  `AsmRegisters`, `AsmRuns`). Jump lists threaded through the code, address-mode bytes against a decoder written from the Intel SDM, and
  the allocation of registers to inline assembly operands, as a specification the loops compute and as what its runs
  guarantee.
- **Section layout** (`Layout`), **64-bit helpers** (`Intrinsics`), **editor** (`Text`, `EditorSpec`, `EditorCommands`, `Editor`) and
  **program start** (`ProgramStart`, `FlatImage`).

`Arithmetic` and `Options` are shared helpers.

## What the code does differently from what it promises

The model follows the code; the contract or lemma named says when the promise holds.

- The sector count of `fs_write` wraps for sizes from 2^32 - 511 on (`Directory.SectorsCoverIffRoundable`); writes are
  modelled below that.
- Writing a file with an empty name reports success and creates nothing (`FsVolume.Volume.Write`). A write whose
  parent's list cannot be updated still reports success, and appending to a plain file turns it into a directory.
  Rewriting a file adds its line to the parent's list again, and the parent's to the list above
  (`DirectoryLists.EveryListGrows`).
- Rewriting a file within its old sectors is atomic over a crash only when no sector is written, or one is and neither
  size nor type changes (`FsSpec.InPlaceAtomicIff`). An error may be reported for a write that was stored.
- `fs_read_fd` returns the bytes it got before a device error without moving the position, so they are delivered again.
  `fs_open` with creation takes a device error in the search for a missing file.
- `in_usable` compares a signed difference (`Frames.CoversExactIff`), and `map_usable` adds the length after raising the
  base, once more in 32 bits (`BootMap.OvershootsIff`). An entry whose end wraps, such as RAM up to 4 GB, or whose end
  wraps when counted from 1 MB, such as RAM from zero to 1 MB below that, is counted as usable but never mapped
  (`BootMap.FreedIsMappedIff`, `BootMap.MemoryUpTo4GbIsNotMapped`, `BootMap.MemoryFromZeroIsNotMapped`), so the boot
  guarantee is given without such entries. The page loop runs past a limit in the last page
  (`BootMap.PageLoopEndsIff`, `BootMap.MemoryToTheEndLoops`).
- A lookup reports the file of the next line event (`LineTable.FileIsRightIff`). A repeated line number records no
  event, so addresses after the last recorded event are not found.
- The encoding of an address drops an esp index, and a short pc-relative displacement without a symbol is emitted as a
  plain number when there is a base register (`AddressModes.EncodingIsFaithfulIff`).
- An input tied to an operand that is itself tied gets no register (`AsmSafety.TiedGets`, `AsmRuns.TiedChain`), and the
  `%` modifier is skipped for the priority but refused at allocation (`AsmSafety.PercentIsRefused`,
  `AsmRuns.PercentExample`). The double-register flag is neither set at the start nor reset for an operand that is given
  memory, and an input tied to it then takes edx as well (`AsmRuns.FlagsAreHarmlessIff`, `AsmRuns.StaleFlag`).
- The editor's comment says a failed load leaves the buffer untouched; a read that breaks off leaves a mixture that is
  not marked as changed (`EditorSpec.RanStaysHonestIff`, `EditorSpec.BrokenReadIsSaved`).
- The flat-binary writer does not check that the entry lies inside the image (`ProgramStart.FlatRoundTrip`).

## Model

| member | source | states |
|---|---|---|
| `AtaDisk.Ata.WriteSector` | src/drivers/ata.c:52-119 | A successful sector write changes that sector and becomes the next recorded state of the disk; a failed one leaves the disk as it was or, since the last status check comes after the data, with the sector stored all the same |
| `Directory.SectorsCoverIffRoundable` | src/drivers/fs.c:395-396 | (size + 511) / 512 in 32 bits gives enough sectors for the bytes if and only if size + 511 does not wrap, and then no more than needed |
| `Directory.DecodeEncode` | src/headers/fs.h:38-44 | A directory record packed into its 32 bytes is unpacked to the same record |
| `Directory.EntryOnDisk` | src/headers/fs.h:38-44 | The directory on the disk: sixteen records of 32 bytes to a sector, the name first, then the type at byte 23, the first sector at byte 24 and the size at byte 28 |
| `Bytes.LowestByteFirst` | src/headers/fs.h:38-44 | A 32-bit word on the disk, in memory and in code has its lowest byte first |
| `Directory.ScanFinds` | src/drivers/fs.c:362-393 | One pass over the directory yields the first slot of the name, the first free slot and the highest live end at once |
| `Directory.ReplaceKeepsDirOk` | src/drivers/fs.c:342-447 | Putting a record in a slot keeps names distinct and extents in the data area and pairwise apart, when the record is of an unused or the same name and lies clear of the others |
| `Directory.SlotReplaced` | src/drivers/fs.c:418-436 | Rewriting one directory slot over unchanged data changes the map from names to files at that name only |
| `Directory.SlotFreed` | src/drivers/fs.c:316-340 | Clearing one slot removes exactly its name from the map and nothing else |
| `Directory.ExtentReadsBack` | src/drivers/fs.c:404-416 | Bytes written sector by sector with zero padding are the bytes of the extent |
| `Directory.ExtentTorn` | src/drivers/fs.c:404-416 | After n of the sectors of a rewrite the extent holds the new bytes up to that sector and the old ones beyond |
| `FsSpec.AncestorByParent` | src/drivers/fs.c:54-68 | The directories reached by cutting a path at its last slash again and again are exactly the proper non-empty prefixes that end before a slash |
| `FsSpec.WroteEffect` | src/drivers/fs.c:342-447 | After a write the target has the given type and bytes, every name that is neither the target nor one of its ancestors is unchanged, and an ancestor is unchanged or a directory whose old list is a proper prefix of the new one |
| `DirectoryLists.EveryListGrows` | src/drivers/fs.c:70-101 | A write adds to the list of the parent of every path on the way, from the target upwards until one has no room, that path and a newline behind the old list, and nothing beyond; room means a parent that exists, can be rewritten and keeps list and line below 2048 bytes |
| `DirectoryLists.ListOrOneLine` | src/drivers/fs.c:70-101 | With failing transfers, too, a list on the way is the old one or the old one with exactly that line |
| `DirectoryLists.RunKeepsLines` | src/drivers/fs.c:70-101 | Over any run of writes and deletes that does not name the directory itself, its list, cut at newlines, keeps every line it had, and every file written into it while there was room is a line of it |
| `FsSpec.WriteAllIsWrote` | src/drivers/fs.c:342-447 | The fully successful write, with every possible parent update done, is one of the outcomes the weaker description allows |
| `FsSpec.AppendNeverTears` | src/drivers/fs.c:70-101 | Rewriting a directory with one more line is never half visible, even in place: before the directory update the files are as before, after it the append is complete |
| `FsSpec.AllocatingWriteIsAtomic` | src/drivers/fs.c:404-436 | For a slash-free name that is new or outgrows its sectors, every state a cut or failure can leave is the old files or the new ones |
| `FsSpec.InPlaceAtomicIff` | src/drivers/fs.c:342-436 | A rewrite in place that fs_write does not refuse leaves the old files or a completed write, whatever the files, the data and the moment of the cut, if and only if no sector is written, or one is and neither the size nor the type changes |
| `FsSpec.TargetClear` | src/drivers/fs.c:362-402 | The extent fs_write picks, the old one or the highest live end, is clear of every other live extent |
| `FsSpec.PlacedSpace` | src/drivers/fs.c:362-402 | Rewriting a file within its sectors leaves it in place and does not raise the end of the data; any other write raises it by exactly the sectors of the data |
| `FsSpec.DataPhase` | src/drivers/fs.c:404-416 | While the data sectors are written the directory is sound and every file but an in-place target keeps its bytes |
| `FsSpec.EntryPhase` | src/drivers/fs.c:418-436 | The single directory-sector write turns the old map into the old map with the target replaced; with an empty name it changes no file |
| `FsSpec.ReachableElsewhere` | src/drivers/fs.c:342-447 | Whatever a completed or interrupted write leaves, names off the path have the file they had |
| `FsVolume.Volume.Lookup` | src/drivers/fs.c:244-266 | fs_find returns the record of the first live slot with the name, and fails only if there is none or the disk failed |
| `FsVolume.Volume.ReadFile` | src/drivers/fs.c:288-314 | fs_read delivers exactly the bytes of the file, or fails for a missing file, one larger than the buffer, or a device error, which leaves whole sectors of the file over what the buffer held |
| `FsVolume.Volume.WriteData` | src/drivers/fs.c:404-416 | The data loop leaves, after every single sector, exactly the prefix of the padded data in place and nothing else changed |
| `FsVolume.Volume.StoreEntry` | src/drivers/fs.c:418-436 | The directory update changes one slot by one sector write; when it fails the slot is the old or the new one |
| `FsVolume.Volume.Write` | src/drivers/fs.c:342-447 | fs_write keeps the directory invariant at every sector write, stores the file and updates the ancestors; an error leaves the old files, a torn in-place target, or the file stored with no ancestor updated (a directory write stored but reported as failed); without faults it succeeds exactly when the name and its parent allow it and a slot is there, and the parent's list, if it has room, is then the old list, the name and a newline |
| `FsVolume.Volume.Append` | src/drivers/fs.c:70-101 | fs_append adds the path and a newline to an existing directory whose list has room, as the lemmas on the lists spell out; refused, it changes nothing, and after a device error the list is the old or the new one; it ends because the path gets shorter |
| `FsVolume.Volume.ParentOf` | src/drivers/fs.c:54-68 | The copying loop yields the part before the last slash |
| `FsVolume.Volume.Delete` | src/drivers/fs.c:316-340 | fs_delete removes exactly the name and keeps every other record; an error means the files are the old ones or, when the disk failed after taking the sector, the name is gone |
| `OpenFileTable.ReadOfWriteOf` | src/drivers/fs.c:517-576 | Reading back from where a write started gives what was written |
| `OpenFileTable.WriteOfWriteOf` | src/drivers/fs.c:557-576 | Consecutive writes are one write of the concatenation, and bytes before the position stay |
| `FileSessions.OpensIff` | src/drivers/fs.c:451-512 | In raw flag bits: an open succeeds exactly when the name has at most 22 bytes, exists or bit 3 asks to create it, is no directory, a handle is free, and, to write, no writer is open and the bytes kept without bit 4 fit the 64K buffer |
| `FileSessions.SessionLeaves` | src/drivers/fs.c:499-515 | In raw flag bits: writing data to a freshly opened file leaves the data alone with bit 4, the old bytes and the data with bit 5, and the data over the front of the old bytes with neither |
| `FileSessions.PutAll` | src/drivers/fs.c:557-576 | Any number of writes to one handle is one write of all their bytes, and all go through exactly when the last byte fits 64K |
| `FileSessions.Save` | src/home/filetest.c:24-64 | open, any writes and close, without transfer errors: exactly when it can all be stored it is, and the file on the volume is then the data, the old bytes and the data, or the data over the old front, as the flag bits say; names off its path keep their files |
| `FileSessions.Fetch` | src/home/filetest.c:42-64 | open to read, read and close deliver the front of the stored file and change no file |
| `OpenFileTable.OpenFiles.Open` | src/drivers/fs.c:451-515 | fs_open yields the lowest free handle on the bytes and the position that `FileSessions.SessionLeaves` and `FileSessions.OpensIff` spell out; without faults it succeeds exactly when they say; a disk fault in the search makes an existing name look new, and so opens it as empty when creation was asked for |
| `OpenFileTable.OpenFiles.ReadFd` | src/drivers/fs.c:517-555 | fs_read_fd returns the model's bytes and moves the position; on a device error it returns what it has, or -1, and leaves the position |
| `OpenFileTable.OpenFiles.WriteFd` | src/drivers/fs.c:557-576 | fs_write_fd overwrites, extends and zero-fills a gap as the byte-file model does, also when nothing is written past the end; refused exactly for read handles and past 64K |
| `OpenFileTable.OpenFiles.Seek` | src/drivers/fs.c:578-599 | fs_seek moves the position to base plus offset, refused exactly for a negative sum, a bad handle or a bad origin |
| `OpenFileTable.OpenFiles.SeekOrigins` | src/drivers/fs.c:578-599 | The three origins are the start, the position and the end of the byte file |
| `OpenFileTable.OpenFiles.Close` | src/drivers/fs.c:601-612 | Closing a writable handle makes the volume hold the model's bytes under the name, or reports the error with what a failed fs_write leaves; the handle is released either way |
| `OpenFileTable.OpenFiles.CloseAll` | src/drivers/fs.c:614-619 | Afterwards no handle is in use and the volume is what writing back the one writable handle leaves |
| `OpenFileTable.OpenFiles.Unlink` | src/drivers/fs.c:621-624 | Deleting a name, also when an error is reported, leaves every open read handle of other names intact |
| `OpenFileTable.OpenFiles.WriteFile` | src/drivers/fs.c:342-447 | Writing a file leaves every open read handle of names off its path with the bytes it was opened on |
| `OpenFileTable.OpenFiles.IntactHandleReadsSnapshot` | src/drivers/fs.c:517-555 | Reads back the invariant that Open establishes and WriteFile, Unlink and Close keep: an intact read handle denotes the bytes it was opened on |
| `OpenFileTable.OpenFiles.AtMostOneWriter` | src/drivers/fs.c:486-512 | Reads back the invariant that Open keeps by refusing a second writer and every other call keeps too: at most one writable handle is open |
| `OpenFileTable.SnapshotKept` | src/drivers/fs.c:342-447 | An extent that is still in the directory with unchanged bytes serves the handles that remember it |
| `Frames.CoversExactIff` | src/kernel/memory.c:54-66 | in_usable decides membership rightly for every address if and only if the entry neither wraps nor is longer than 2 GB (or starts at 2 GB and covers the upper half) |
| `Frames.TopUsable` | src/kernel/memory.c:37-52 | Every address a usable entry describes lies below the returned top, the very last address apart, and the top is the end of such an entry or, for one that runs past 4 GB, the last address |
| `Frames.DescribedIsFree` | src/kernel/memory.c:107-135 | No usable memory is lost: a frame that an entry of at most 2 GB describes whole, at or above 1 MB, outside the ring-3 window and not the last of all, is freed by the first loop of memory_init |
| `Frames.BitmapPagesIff` | src/kernel/memory.c:137-146 | The frames memory_init takes back are exactly those with a byte of the bitmap in them |
| `Frames.IsUsable` | src/kernel/memory.c:54-66 | The scan answers whether some entry covers the address |
| `Frames.SetOneBit` | src/kernel/memory.c:68-81 | Setting a frame's bit changes that frame's state and no other's |
| `Frames.ClearOneBit` | src/kernel/memory.c:68-81 | Clearing a frame's bit changes that frame's state and no other's |
| `Frames.FrameAllocator.MemoryInit` | src/kernel/memory.c:107-147 | After memory_init a frame is free exactly when it is at or above 1 MB, outside the ring-3 window, usable by the memory map and not holding the bitmap, and the counter is the number of clear bits |
| `Frames.FrameAllocator.Alloc` | src/kernel/memory.c:83-95 | alloc_frame takes the lowest free frame, or returns 0 exactly when there is none |
| `Frames.FrameAllocator.FreeFrame` | src/kernel/memory.c:97-105 | free_frame makes the frame free, counts it once and ignores addresses beyond the top |
| `BootMap.OvershootsIff` | src/kernel/memory.c:189-204 | The mapped range runs past the end of the entry if and only if the entry starts below 1 MB and 1 MB plus its length fits 32 bits; when the entry starts below 1 MB and that sum wraps, and only then, the range ends before the entry does |
| `BootMap.UsableIsMapped` | src/kernel/memory.c:189-204 | When every entry is mapped in full, every frame memory_init frees lies in some range map_usable maps |
| `BootMap.FreedIsMappedIff` | src/kernel/memory.c:54-66 | For one usable entry, every frame memory_init can free lies in the range map_usable maps for it if and only if neither base + len nor, for a base below 1 MB, 1 MB + len wraps, or base + len wraps with at most the last page and memory below 1 MB in the entry |
| `BootMap.MemoryUpTo4GbIsNotMapped` | src/kernel/memory.c:189-204 | Usable RAM from 3 GB to 4 GB: frame 0xC0000 is free after memory_init and in no mapped range, although every loop of paging_init ends |
| `BootMap.MemoryFromZeroIsNotMapped` | src/kernel/memory.c:189-204 | Usable RAM from zero to 1 MB below 4 GB: base + len does not wrap, 1 MB + len does, frame 0x100 is free after memory_init and nothing is mapped, although every loop ends |
| `BootMap.PageLoopEndsIff` | src/kernel/memory.c:154-177 | The 32-bit page counter of map_range reaches its limit, from any start, if and only if the limit is at most 0xFFFFF000 |
| `BootMap.MemoryToTheEndLoops` | src/kernel/memory.c:189-204 | Usable RAM to the last byte below 4 GB: the limit is above that and the counter never reaches it |
| `BootMap.StrayIsFreed` | src/kernel/memory.c:189-204 | The frame that goes unmapped, for every other usable entry |
| `BootMap.AddTable` | src/kernel/memory.c:154-177 | Linking a zeroed frame as a page table keeps the kernel directory sound and every earlier mapping |
| `BootMap.BootOver` | src/kernel/memory.c:206-217 | When all usable ranges are mapped and frames remain, every remaining frame is identity-mapped and the window is absent, so address spaces can be created |
| `KernelPager.Pager.MapSupervisor` | src/kernel/memory.c:154-187 | Every page of the range outside the ring-3 window is identity-mapped for the supervisor, or all frames are used up |
| `KernelPager.Pager.PagingInit` | src/kernel/memory.c:206-217 | When map_usable maps every entry in full, every frame still free is identity-mapped supervisor-only, the window's directory entry is absent and no process exists; the kernel map is sound in any case, and while frames last the kernel's own megabyte is mapped at its address, writable, for the supervisor alone |
| `KernelPager.Pager.Boot` | src/kernel/memory.c:107-217 | memory_init followed by paging_init reaches the state the process calls need when every entry is mapped in full, and a sound kernel map for any memory map |
| `Paging.WindowIsOneDirectoryEntry` | src/kernel/memory.c:286-287 | An address is in the ring-3 window exactly when it uses directory entry 1 |
| `Paging.EntryBits` | src/kernel/memory.c:154-394 | The words stored for user and kernel entries are present, writable, user or supervisor, lead to the frame they were made from and have no other bit set (section 4.3 of the Intel SDM, volume 3A) |
| `Paging.UserTranslationsAreOwned` | src/kernel/memory.c:298-394 | A user-mode translation exists only inside the ring-3 window, only for a live process, is writable, and leads to a page that process owns at that very slot |
| `Paging.UserFramesAreDisjoint` | src/kernel/memory.c:298-394 | No frame is visible in user mode to two processes, or at two pages of one |
| `Paging.UserFramesHoldNoTables` | src/kernel/memory.c:298-394 | No user-visible frame is a directory or page table of any address space, so user stores cannot change a translation |
| `Paging.KernelReachesPool` | src/kernel/memory.c:298-394 | In every address space each allocatable frame is mapped at its physical address, writable, supervisor-only |
| `Paging.KernelMapIsShared` | src/kernel/memory.c:298-321 | Outside the window every process translates every address as the kernel does |
| `Paging.DataWrite` | src/kernel/memory.c:298-394 | Storing to a free frame or a user page changes no translation of any directory |
| `Paging.CreateStep` | src/kernel/memory.c:298-321 | A copied kernel directory with a fresh zero table in the window is a sound address space and leaves the others sound |
| `Paging.FaultStep` | src/kernel/memory.c:360-394 | Linking one zero frame into an empty slot keeps every address space sound |
| `Paging.DestroyStep` | src/kernel/memory.c:323-341 | Removing all frames of a process keeps the other address spaces sound |
| `Paging.FaultTranslations` | src/kernel/memory.c:360-394 | A served fault adds exactly one page to one process and changes no other translation |
| `Paging.FramesReturned` | src/kernel/memory.c:323-341 | The frames vm_destroy frees are exactly those the process owns |
| `KernelPager.Pager.Create` | src/kernel/memory.c:298-321 | vm_create takes two frames for a new address space, whose window has a table with no page in it yet, or fails exactly when fewer than two are free and then leaves every frame as it was; no page and no translation of another process changes |
| `KernelPager.Pager.Attach` | src/kernel/memory.c:343-347 | The CPU runs on the directory of a live process |
| `KernelPager.Pager.Fault` | src/kernel/memory.c:360-394 | vm_fault succeeds exactly for an unmapped window address of the current process with a frame left, and then maps one zero-filled frame there, for user reads and writes, and keeps every other page and translation; otherwise nothing changes |
| `KernelPager.Pager.UseFrame` | src/kernel/memory.c:376-394 | The zeroed frame becomes one page of the running process, the counter goes up by one and the whole invariant holds again |
| `KernelPager.Pager.UserStore` | src/kernel/memory.c:360-394 | A ring-3 store, which needs U/S and R/W in both entries, succeeds on every page the process has and on no other; that word of that process then reads as the value, and no other word of any process and no translation changes |
| `UserMemory.StoreIsSeen` | src/kernel/memory.c:298-394 | A write to the frame behind an address is seen at that word of that process and at no other word of any process |
| `UserMemory.FaultIsZeroFill` | src/kernel/memory.c:360-394 | A served fault makes one page of one process read as zeros, and no program can tell any other change |
| `UserMemory.KeptPagesKeepWords` | src/kernel/memory.c:298-358 | What creating, detaching and destroying keep, translations and pages, is all a program can read |
| `UserMemory.FaultKeepsReads` | src/kernel/memory.c:360-394 | Step of RunStores: filling in a page in the middle of a run of stores changes nothing the program reads |
| `KernelPager.Pager.StoreOnDemand` | src/kernel/syscall.c:153-162 | A store that faults is retried by the processor once vm_fault has served it, and then it succeeds and the word is the value; it fails only outside the window or when a page is needed and no frame is free |
| `KernelPager.Pager.RunStores` | src/kernel/memory.c:360-394 | Demand paging is invisible: after any run of stores every word of every page the program has reads as the last value stored there, or zero, as in a plain memory; other processes read what they read before, and at most 1024 faults were served |
| `KernelPager.Pager.Destroy` | src/kernel/memory.c:323-341 | vm_destroy returns every frame of the process and no other |
| `KernelPager.Pager.Detach` | src/kernel/memory.c:349-358 | CR3 is back on the kernel directory before the process's frames are freed |
| `KernelPager.CpuDirectory` | src/kernel/memory.c:293-394 | Reads back the invariant that Create, Attach, Fault, Destroy and Detach keep: CR3 names the kernel directory or that of a live process, never a freed one |
| `KernelPager.Pager.RunProgram` | src/kernel/memory.c:298-394 | Creating, any stores with the faults they cause, then detaching restores the free frames and the counter exactly, and every other process reads what it read before |
| `KernelPager.Pager.NothingLeaks` | src/kernel/memory.c:298-394 | Reads back the invariant that every call keeps, Destroy and Detach by giving back exactly what was owned: with no process alive exactly the pool is free, after any history |
| `Leb128.WriteU` | thirdparty/tinycc/tccdbg.c:757-765 | The do-while writer appends the unsigned encoding |
| `Leb128.WriteS` | thirdparty/tinycc/tccdbg.c:767-780 | The signed writer appends the signed encoding |
| `Leb128.SizeS` | thirdparty/tinycc/tccdbg.c:742-755 | dwarf_sleb128_size is the number of bytes the signed writer emits |
| `Leb128.ReadUleb128` | thirdparty/tinycc/tcc.h:1876-1890 | The reader's shift-and-or loop, ten bytes at most and zero past the end, computes the weighted sum of the groups modulo 2^64 |
| `Leb128.ReadSleb128` | thirdparty/tinycc/tcc.h:1891-1909 | The signed reader, which extends the sign only below bit 64, computes its sum as a two's complement word |
| `Leb128.UnsignedRoundTrip` | thirdparty/tinycc/tccdbg.c:757-765 | Every 64-bit unsigned value reads back from its encoding in any surroundings, consuming exactly those bytes, ten at most (section 7.6 of DWARF Version 5) |
| `Leb128.SignedRoundTrip` | thirdparty/tinycc/tccdbg.c:767-780 | The same for every 64-bit signed value, although the tenth group is read without sign extension |
| `LineProgram.DecodeAdvances` | thirdparty/tinycc/tccrun.c:1008-1115 | Every opcode moves the reader forward, so its loop ends on any bytes |
| `LineProgram.Search` | thirdparty/tinycc/tccrun.c:1008-1115 | For one unit after its header, with the header values the writer puts there, the opcode loop is the stepwise lookup: it stops at the first advance whose range holds the wanted address, before the line moves |
| `LineProgram.LineWriter.DebugLine` | thirdparty/tinycc/tccdbg.c:1472-1526 | tcc_debug_line appends the opcodes of one line event, or nothing for a repeated line number of the same file, and keeps its last pc, line and file in step with what was written |
| `LineProgram.LineWriter.FirstLineOfFile` | thirdparty/tinycc/tccdbg.c:1437-1486 | After a file is entered, left or renamed the next line event with a non-zero number is recorded for the new file, even when it repeats the last number |
| `LineProgram.LineWriter.WriteAdvance` | thirdparty/tinycc/tccdbg.c:1487-1523 | One special opcode when it fits, else the pc first and then the line |
| `LineProgram.LineWriter.DebugFunction` | thirdparty/tinycc/tccdbg.c:2325-2335 | The function-name opcode is appended |
| `LineProgram.LineWriter.DebugMark` | thirdparty/tinycc/tccdbg.c:2348-2356 | A prologue or epilogue mark is appended |
| `LineProgram.LineWriter.Finish` | thirdparty/tinycc/tccdbg.c:1393-1405 | The finished program, relocated to its base, is prologue, all recorded items in order and end of sequence |
| `LineTable.SpecialReads` | thirdparty/tinycc/tccdbg.c:1490-1500 | A special opcode moves pc and line by exactly the two deltas it was made from |
| `LineTable.LineReads` | thirdparty/tinycc/tccdbg.c:1511-1521 | A line-only step is looked up before the line moves when it is a special opcode and after when it is a long one |
| `LineTable.FunctionReads` | thirdparty/tinycc/tccdbg.c:2325-2335 | The function-name opcode hands the reader exactly that name and the current pc |
| `LineTable.LookupIsTableSearch` | thirdparty/tinycc/tccrun.c:1008-1124 | For every sequence of events, looking an address up in the emitted bytes gives what searching the events themselves gives |
| `LineTable.LookupFindsLine` | thirdparty/tinycc/tccrun.c:1008-1124 | An address after one event's offset and up to the next one's gets the earlier event's line and the last function named before, with the address where its name came (section 6.2.5 of DWARF Version 5), and the file register of the later event |
| `LineTable.FileIsRightIff` | thirdparty/tinycc/tccdbg.c:1492-1523 | The reported file is the one in force at the address if and only if the next event is of the same file, because the file opcode is emitted before the advance |
| `LineTable.ReachesEveryEvent` | thirdparty/tinycc/tccdbg.c:1487-1526 | After any sequence of events the reader's loop stands at exactly the last event's pc, line and file |
| `DebugStrings.StringSection.Intern` | thirdparty/tinycc/tccdbg.c:596-641 | The chain walks, the suffix search and the append are the table operation: an equal string of the bucket, else a longer one ending in it, else new bytes |
| `DebugStrings.StringSection.StrHash` | thirdparty/tinycc/tccdbg.c:587-594 | The hash loop in 32-bit arithmetic |
| `DebugStrings.InternOk` | thirdparty/tinycc/tccdbg.c:596-641 | Interning keeps every chain node a NUL-terminated string of its bucket, grows the section only at its end and returns an offset that reads back as the string |
| `DebugStrings.RunReadsBack` | thirdparty/tinycc/tccdbg.c:596-641 | After any run every offset ever returned still reads back as its string, shared suffixes included |
| `DebugStrings.RunIsStable` | thirdparty/tinycc/tccdbg.c:596-641 | A string interned anywhere in a run never changes the table again and always has the same offset |
| `DebugStrings.RunSize` | thirdparty/tinycc/tccdbg.c:596-641 | The section is never longer than if every string had been appended |
| `DebugStrings.SuffixBucket` | thirdparty/tinycc/tccdbg.c:587-594 | A string of seven bytes or more has the bucket of every longer string that ends in it, because seven steps shift everything before them out of the 32-bit hash |
| `DebugStrings.SuffixTakesNoSpace` | thirdparty/tinycc/tccdbg.c:613-625 | A string of any length takes no space when a known longer one of its bucket ends in it |
| `DebugStrings.EndingsAreShared` | thirdparty/tinycc/tccdbg.c:613-625 | At the end of any run a string of seven bytes or more in which one of the run's strings ends takes no space |
| `JumpLists.PatchedLands` | thirdparty/tinycc/i386-gen.c:151-160 | Patching a list of pairwise separate operands makes every one of its jumps land on the address modulo 2^32 and changes no other byte |
| `JumpLists.Appended` | thirdparty/tinycc/i386-gen.c:818-830 | Redirecting the last operand of one list to the head of another threads the concatenation |
| `JumpRuns.CodeGen.G` | thirdparty/tinycc/i386-gen.c:117-127 | g stores one byte at the position, or nothing when no code is wanted, and disturbs no list |
| `JumpRuns.CodeGen.Oad` | thirdparty/tinycc/i386-gen.c:162-172 | oad emits the opcode and the operand and returns where the operand is, or returns its argument when no code is wanted |
| `JumpRuns.CodeGen.Jump` | thirdparty/tinycc/i386-gen.c:788-791 | gjmp and gjmp_cond put a new jump in front of the list they are given, and its opcode joins the code that stands |
| `JumpRuns.CodeGen.Append` | thirdparty/tinycc/i386-gen.c:818-830 | gjmp_append returns the head of the first list followed by the second |
| `JumpRuns.CodeGen.Resolve` | thirdparty/tinycc/i386-gen.c:151-160 | gsym_addr ends, patches exactly the jumps of the list and keeps all other lists, the patched jumps and the code that stands |
| `JumpRuns.CodeGen.JumpTo` | thirdparty/tinycc/i386-gen.c:794-804 | gjmp_addr lands on its address with the short form when the distance fits a signed byte and the long form otherwise, and its bytes join the code that stands |
| `JumpRuns.StandingJumpLands` | thirdparty/tinycc/i386-gen.c:794-804 | A jump of gjmp_addr goes to its address in every later state: after any emitting, appending and resolving |
| `JumpRuns.CodeResolve` | thirdparty/tinycc/i386-gen.c:151-160 | Patching a whole list changes no byte of the code that stands |
| `JumpRuns.CodeAppend` | thirdparty/tinycc/i386-gen.c:818-830 | Neither does joining two lists |
| `JumpRuns.EachJumpOnce` | thirdparty/tinycc/i386-gen.c:151-172 | At any time an emitted jump waits in exactly one list or has been patched, never both |
| `JumpRuns.EmittedByJump` | thirdparty/tinycc/i386-gen.c:788-791 | Emitting adds exactly one jump |
| `JumpRuns.EmittedByAppend` | thirdparty/tinycc/i386-gen.c:818-830 | Appending loses no jump and adds none |
| `JumpRuns.EmittedByResolve` | thirdparty/tinycc/i386-gen.c:151-160 | Resolving loses no jump, gives those of the list their address and leaves earlier ones at theirs |
| `JumpRuns.ResolveKeeps` | thirdparty/tinycc/i386-gen.c:151-160 | After a whole list is patched all remaining lists are still threaded and all patched jumps land where they did |
| `JumpRuns.AppendKeeps` | thirdparty/tinycc/i386-gen.c:818-830 | After two lists are joined all lists are threaded and pairwise apart |
| `Intrinsics.DivMod` | src/home/tcc.c:194-226 | The word-at-a-time loop computes the exact quotient or remainder of any two 64-bit numbers, zero for a zero divisor |
| `Intrinsics.RoomToShift` | src/home/tcc.c:205-212 | The partial remainder never exceeds the prefix of the dividend, so shifting it loses no bit even for divisors above 2^63 |
| `Intrinsics.UDiv` | src/home/tcc.c:228-229 | __udivdi3 is integer division |
| `Intrinsics.UMod` | src/home/tcc.c:231-232 | __umoddi3 is the remainder |
| `Intrinsics.SignsAreRight` | src/home/tcc.c:234-254 | Dividing magnitudes and fixing signs discards the fraction and gives the remainder the dividend's sign (section 6.5.5 of ISO C99) |
| `Intrinsics.TruncatedIsUnique` | src/home/tcc.c:234-254 | Those two conditions leave no other quotient and remainder |
| `Intrinsics.Div` | src/home/tcc.c:234-243 | __divdi3 is truncating division, zero for a zero divisor, and the wrapped minimum for the minimum divided by -1 |
| `Intrinsics.Mod` | src/home/tcc.c:245-254 | __moddi3 is the remainder that goes with it |
| `Intrinsics.LShr` | src/home/tcc.c:256-273 | __lshrdi3 divides by a power of two |
| `Intrinsics.AShl` | src/home/tcc.c:275-292 | __ashldi3 multiplies by a power of two modulo 2^64 |
| `Intrinsics.AShr` | src/home/tcc.c:294-312 | __ashrdi3 divides the signed value by a power of two, rounding down |
| `SectionLayout.LayPlaces` | thirdparty/tinycc/tccrun.c:370-431 | A pass places the visited sections aligned, in order and pairwise apart, between its start and the end it returns |
| `SectionLayout.LayBound` | thirdparty/tinycc/tccrun.c:370-431 | A pass at any address ends no further than the pass at zero, counted from the page boundary at or above the address |
| `SectionLayout.SizeSuffices` | thirdparty/tinycc/tccrun.c:183-196 | The size the sizing pass returns holds the placed image: inside the block when it starts on a page, inside one page more for any start |
| `SectionLayout.SizeIsTight` | thirdparty/tinycc/tccrun.c:370-461 | In a block that starts on a page the sections follow one another, each less than its alignment behind the end of the one before, and the size leaves less than a page behind the last |
| `SectionLayout.UnitsApart` | thirdparty/tinycc/tccrun.c:411-424 | Bytes of an earlier group lie in lower 64-byte units than bytes of a later one, so code and data never share one |
| `SectionLayout.VisitsCover` | thirdparty/tinycc/tccrun.c:376-386 | Every allocatable section of the three groups but number zero gets a turn |
| `SectionLayout.VisitsDistinct` | thirdparty/tinycc/tccrun.c:376-386 | No section gets two |
| `SectionLayout.Linker.LayOut` | thirdparty/tinycc/tccrun.c:370-447 | The loops over groups and sections are that pass; thread-local data is refused |
| `SectionLayout.Linker.CopyOut` | thirdparty/tinycc/tccrun.c:396-408 | After copying, the memory at every section's address holds that section's bytes and memory between sections is untouched |
| `SectionLayout.Linker.RelocateAt` | thirdparty/tinycc/tccrun.c:183-196 | Sizing, placing and copying in one: the size is the sizing pass's, and the memory from the given address on holds every section of the image whole, aligned and apart from the others within that size (and what is missing to the next page), with nothing changed beyond |
| `SectionLayout.Linker.Relocate` | thirdparty/tinycc/tccrun.c:154-174 | The same in a block one page longer than the image, wherever the allocator puts it |
| `FlatImage.BuildAndLoad` | src/home/tcc.c:445-492 | The shell takes the file tcc writes exactly when linking worked, the image fits a writable file and the entry lies inside it; then the image it loads holds every section at its address |
| `AddressModes.AsmModrm` | thirdparty/tinycc/i386-asm.c:524-579 | The emitted and linked bytes decode to the operand's register (general, MMX or SSE) or base, index, scale and displacement and to the reg field, wherever the section is placed; an esp index decodes as none |
| `AddressModes.EncodingIsFaithfulIff` | thirdparty/tinycc/i386-asm.c:545-576 | The encoded address is the written one for all register contents and section addresses if and only if the index is not esp and the displacement is not a distance to a label without a symbol, fitting a byte, beside a base register |
| `AddressModes.GenModrm` | thirdparty/tinycc/i386-gen.c:285-299 | The compiler's references to fixed addresses, frame slots and registers decode to that address |
| `AddressModes.Expr32` | thirdparty/tinycc/i386-asm.c:487-495 | The word with its relocation becomes the value plus the symbol, less the section's address for a pc-relative expression, modulo 2^32 |
| `AddressModes.AddrPc32` | thirdparty/tinycc/i386-gen.c:231-236 | The word relocated by its distance from the symbol becomes the value plus the symbol less the address after the word |
| `TextLines.OwnColumn` | src/home/edit.c:62-104 | The position for a position's own column is that position: pos_for_col inverts col_of |
| `TextLines.NextColumn` | src/home/edit.c:78-89 | A line starts in column zero, a character takes one column and a tab goes to the next multiple of four |
| `TextLines.LineBeginIs` | src/home/edit.c:62-67 | line_begin is the only line start at or before the position with no newline in between |
| `EditorSpec.EraseUndoesTyping` | src/home/edit.c:117-142 | Typing a character and erasing it restores text and cursor unless the buffer was full |
| `EditorSpec.TypingInserts` | src/home/edit.c:387-425 | Characters typed one after the other, newlines among them, stand in the text in this order where the cursor was |
| `TextEditor.OneDown` | src/home/edit.c:155-171 | Moving the top one line down takes exactly one line off the distance to the cursor |
| `TextEditor.Editor.ColOf` | src/home/edit.c:78-89 | The column counts tabs to the next stop |
| `TextEditor.Editor.PosForCol` | src/home/edit.c:91-104 | The last position on the line that is not right of the target |
| `TextEditor.Editor.DoInsert` | src/home/edit.c:117-131 | The in-place shift is insertion into the text, or nothing when the buffer would be full |
| `TextEditor.Editor.DoBackspace` | src/home/edit.c:133-142 | The in-place shift is removal of the character before the cursor |
| `TextEditor.Editor.ScrollFix` | src/home/edit.c:148-180 | scroll_fix ends with the cursor's line at most 22 newlines below the top and the column among the 80 shown, moving the window no further than needed, and with the top at a line start when it was one or had to move |
| `TextEditor.Editor.LowerTop` | src/home/edit.c:155-171 | The forward loop stops at the first line from which the cursor's line is shown |
| `TextEditor.Editor.EditKey` | src/home/edit.c:387-425 | Each key does to text and cursor what it stands for, marks the text as changed exactly when its length changes, and escape opens an empty command line |
| `TextEditor.Editor.Press` | src/home/edit.c:507-521 | One round of the main loop: the key goes to the command line when it is open and to the text otherwise, and whatever key comes the cursor is on the screen afterwards |
| `TextEditor.Editor.Session` | src/home/edit.c:507-521 | After any sequence of keys and file-system answers the cursor is on the screen; when no file read broke off, an unmarked text is the one last loaded, saved or started, and if the editor ended with another text, the line typed before the last enter said, byte for byte and but for spaces around it, q!; nothing was stored unless a line typed said w, wq or w and a name |
| `TextEditor.Editor.LoadInto` | src/home/edit.c:272-284 | A loaded file is the text, with the window at its top; a missing file changes nothing, and a read that breaks off changes the bytes in the buffer only |
| `TextEditor.Editor.Startup` | src/home/edit.c:452-488 | Starting with a name loads that file, or an empty text that will be saved under it |
| `TextEditor.Editor.CmdKey` | src/home/edit.c:427-448 | Escape, enter, erasing an empty line and typing past 50 characters do to the command line what they should, and only enter runs a command |
| `TextEditor.Editor.RunCommand` | src/home/edit.c:315-385 | The line without its outer spaces runs as the command it spells, which `EditorCommands.CommandBytes` and the lemmas beside it give byte for byte |
| `EditorCommands.CommandBytes` | src/home/edit.c:315-385 | Whatever the spaces around it, a line is a quitting, saving, loading or starting command if and only if it is exactly q, q!, w, wq, n, or e or w, spaces and a name without spaces at its ends |
| `EditorCommands.EnterQuits` | src/home/edit.c:327-342 | By the bytes typed: q quits exactly when nothing is marked as changed, q! always, wq exactly when the text was stored, and no other line quits |
| `EditorCommands.EnterStores` | src/home/edit.c:286-385 | By the bytes typed: w and wq store the text under the name it has, w and a name under that name, and no other line stores anything |
| `EditorCommands.EnterLoads` | src/home/edit.c:343-385 | By the bytes typed: e and a name puts that file in place of an unchanged text, n an empty one, and no other line changes the text |
| `EditorCommands.TypedLine` | src/home/edit.c:427-448 | Escape and up to fifty printable characters leave exactly these on the command line |
| `TextEditor.Editor.TrimCommand` | src/home/edit.c:317-322 | Trimming in place gives the line without its outer spaces |
| `TextEditor.Editor.SaveFile` | src/home/edit.c:286-311 | A save that works stores the text under the name and clears the mark; any other changes nothing |
| `EditorSpec.RanStaysHonestIff` | src/home/edit.c:315-385 | Step of Session: a command leaves an unmarked text that is not the one last loaded, saved or started if and only if it opens a file whose read breaks off over different bytes |
| `EditorSpec.BrokenReadIsSaved` | src/home/edit.c:270-284 | The input: after one sector of another file has arrived the read fails, the text is a mixture without a mark, and the next save stores it under the old name |
| `EditorSpec.QuitIsSafe` | src/home/edit.c:327-342 | Step of Session: only q! ends the editor with text other than the one last loaded, saved or started, and after wq the text is stored under the name |
| `EditorSpec.ChangedTextSurvives` | src/home/edit.c:315-385 | One command of a session neither changes nor drops a text marked as changed, except q!, or wq after storing it |
| `EditorSpec.PressedStaysHonest` | src/home/edit.c:507-521 | Step of Session: one key of any kind keeps an unmarked text the one last loaded, saved or started as long as no read breaks off, and of the keys only the enter that runs q! quits with another text |
| `AsmConstraints.ConstraintPriority` | thirdparty/tinycc/i386-asm.c:1172-1214 | The largest priority among the letters; an error exactly for a letter that is no constraint |
| `AsmConstraints.Choose` | thirdparty/tinycc/i386-asm.c:1351-1465 | The first letter that can be met decides, and it gets what `AsmConstraints.TryIsAllowed` says it means, with the lowest free register where it has a choice; the two errors come exactly for a modifier on an input and for a string whose letters run out or end in an unknown one |
| `AsmConstraints.TryIsAllowed` | thirdparty/tinycc/i386-asm.c:1364-1460 | What a letter is given is what it means in register names: eax and edx for A, eax, ebx, ecx, edx, esi and edi for a, b, c, d, S and D, one of eax to edx for q, any register, a constant or memory (numbers from table 2-2 in section 2.1.5 of the Intel SDM, volume 2A) |
| `AsmConstraints.ReferenceNames` | thirdparty/tinycc/tccasm.c:1174-1209 | A reference in decimal digits names the operand of that number, one in brackets the first operand of that name |
| `AsmConstraints.TakesBothMask` | thirdparty/tinycc/i386-asm.c:1356-1363 | Whichever letter is granted, an operand with a leading plus or ampersand is granted it for input and output |
| `AsmAllocation.SortByPriority` | thirdparty/tinycc/i386-asm.c:1307-1317 | The exchange sort yields a permutation sorted by priority |
| `AsmAllocation.ReferenceStep` | thirdparty/tinycc/i386-asm.c:1283-1293 | A reference names an earlier operand that had no other reference |
| `AsmAllocation.AllocStep` | thirdparty/tinycc/i386-asm.c:1330-1470 | Granting one operand its register keeps every earlier grant valid, with the uses its letter and modifiers ask for, and apart, and no register is taken that no operand holds |
| `AsmAllocation.Allocator.Compute` | thirdparty/tinycc/i386-asm.c:1257-1490 | The loops compute the run of the specification; a successful one has processed all operands in sorted order and every operand that is not a reference holds a grant that one of its letters allows in register names, for the uses in force at that letter; a failed one names an operand and the reason, with every taken register reserved or held |
| `AsmAllocation.RunIsSound` | thirdparty/tinycc/i386-asm.c:1257-1490 | Those invariants hold of every run the specification describes |
| `AsmSafety.RegistersAreSafe` | thirdparty/tinycc/i386-asm.c:1319-1470 | Two operands that name different holders, neither tied to an operand that may hold an address and comes with its double-register flag set, have neither esp, ebp nor a clobbered register, and with intersecting uses no register in common, an A operand holding both eax and edx |
| `AsmSafety.BothIsAlone` | thirdparty/tinycc/i386-asm.c:1340-1363 | An early clobber, a read-write output and an operand with a tied input share no register with any operand but the one tied to them and those tied to a flagged address holder, except that a register holding an address may also be an output's |
| `AsmRegisters.LetterGetsItsRegister` | thirdparty/tinycc/i386-asm.c:1364-1391 | In every successful run an operand whose only letter is a, b, c, d, S or D holds eax, ebx, ecx, edx, esi or edi, and one whose only letter is A holds eax and edx |
| `AsmRegisters.NamedIsNotStarved` | thirdparty/tinycc/i386-asm.c:1172-1214 | What the priorities are for: an operand that asks for a named register is refused only when that is clobbered or held, for a use that meets its own, by an operand granted earlier that asks for named registers itself |
| `AsmRegisters.PlainAcceptedIff` | thirdparty/tinycc/i386-asm.c:1257-1490 | Operands that each ask for one named register are accepted if and only if none of those is clobbered, no two outputs and no two inputs ask for the same one, and an operand behind a frame pointer finds a register to load that pointer into |
| `AsmRegisters.SystemCallRegisters` | src/home/lib/user_api.h:110-157 | Every system call is compiled, with number and result in eax and the arguments in ebx, ecx and edx in this order |
| `AsmSafety.TiedOccupies` | thirdparty/tinycc/i386-asm.c:1466-1470 | A tied input occupies exactly what the operand it names does, or nothing when that one is tied itself, unless that operand may hold an address and comes with its flag set |
| `AsmRuns.FlagsAreHarmlessIff` | thirdparty/tinycc/i386-asm.c:1257-1470 | Operands that come with given double-register flags are allocated safely in every run, whatever they are and whatever is clobbered, if and only if no operand before the last has its flag set |
| `AsmRuns.WitnessIsUnsafe` | thirdparty/tinycc/i386-asm.c:1437-1470 | The input for every such flag: a memory input named x there and "[x]" last, with edx clobbered, are accepted and the last one takes edx |
| `AsmRuns.StaleFlag` | thirdparty/tinycc/i386-asm.c:1437-1470 | With nothing clobbered: operands "=m", "d" and "0" with the first one's flag set are accepted and both inputs occupy edx |
| `AsmSafety.TiedGets` | thirdparty/tinycc/i386-asm.c:1466-1470 | A tied input has the register of the operand its string names, unless that operand's own string is a reference, and then it has none |
| `AsmRuns.TiedChain` | thirdparty/tinycc/i386-asm.c:1283-1293 | The input: operands "=r", "0" and "1" are accepted, the first two share a register and the third has none |
| `AsmSafety.PercentIsRefused` | thirdparty/tinycc/i386-asm.c:1351-1465 | No run accepts an operand of its own with a percent sign among its leading modifiers |
| `AsmRuns.PercentExample` | thirdparty/tinycc/i386-asm.c:1222-1465 | The input: "%r" has the priority of "r" and ends the run as unsatisfiable |
| `AsmAllocation.Allocator.OutRegister` | thirdparty/tinycc/i386-asm.c:1473-1490 | The register for storing outputs through frame pointers is the lowest no output has |
| `ProgramStart.BuildUserArgs` | src/kernel/shell.c:128-167 | A program entered with the returned stack pointer finds exactly the given arguments, at most sixteen, through argc and argv, with both lists ended by NULL |
| `ProgramStart.ParseLine` | src/kernel/shell.c:402-421 | Cutting the line in place gives its first sixteen words |
| `ProgramStart.WordsOfSpread` | src/kernel/shell.c:402-421 | Any words with one or more spaces between them, and any number before and behind, are exactly the words found |
| `ProgramStart.Execute` | src/kernel/shell.c:105-483 | A line reaches shell_run_program exactly when it runs the command run with a file and no redirection among its first sixteen words, and the argument block then holds those words without the command |
| `ProgramStart.LoadFlat` | src/kernel/shell.c:199-230 | The loader takes a file as flat exactly when the magic, the sizes and the entry are in order |
| `ProgramStart.FlatRoundTrip` | src/home/tcc.c:462-492 | What the compiler writes is taken back as the same image and entry if and only if the entry lies inside the image |

## Left out

- The superblock: `fs_mount` is the constructor's precondition that the directory on the disk is sound.
- `fs_ls`, `fs_ls_buf`, `fs_cat`, terminal drawing, keyboard and port I/O, descriptor tables and TLB effects: formatting and hardware.
- `vm_sbrk` and `vm_note_load` only move the break inside the window; demand paging does not consult it.
- KernelPager.Pager.MapRange: models the supervisor calls only, since no caller asks for user pages.
- KernelPager.Pager.PagingInit: promises the process-ready state only when every entry is mapped in full, the condition of `BootMap.FreedIsMappedIff`; memory maps for which the page loop never reaches its limit (`BootMap.PageLoopEndsIff`) are left out, although the loop still stops there when frames run out.
- KernelPager.Pager.UserStore: stores of aligned words only; memory the bitmap itself occupies is a separate object, as its frames are never handed out.
- FsVolume.Volume.Write: sizes with size + 511 at or above 2^32 are excluded, because the sector count wraps to zero there.
- OpenFileTable.OpenFiles.Seek: base plus offset must fit an int, as the source adds two ints.
- AtaDisk.Ata.WriteSector: a sector is written completely or not at all; tearing inside a sector, and a drive that stores it only after the error was reported, are not modelled.
- LineProgram.LineWriter.FirstLineOfFile: which entry of the file table `dwarf_file` picks is a parameter.
- LineProgram.LineWriter.DebugLine: offsets do not go back and the special-opcode number fits an int, where the source's int arithmetic would otherwise overflow.
- LineProgram.Search: starts after the unit's header with the header values the writer puts there, one operation per instruction, and treats the deprecated define-file opcode as unknown.
- DebugStrings.StringSection.Intern: the relocation record that goes with each reference is not modelled.
- JumpRuns.CodeGen.Jump: callers use each list head once, as the code generator does; `gfunc_prolog` writing into space it reserved is left out.
- SectionLayout.Linker.RelocateAt: the caller provides memory for the image, as the source writes to the given address unchecked; symbol relocation, which rewrites bytes of the sections before they are copied, is left out.
- SectionLayout.Linker.Relocate: leaves out the same relocation of symbols.
- SectionLayout.Linker.LayOut: offsets are unbounded integers, so images that wrap the 32-bit address space are left out; page protection too.
- AddressModes.AsmModrm: the parser that makes operands out of text is left out, and so is its rule that a bracketed displacement forgets that it is pc-relative.
- AsmAllocation.Allocator.Compute: operands bound to register variables, the moves around the assembly text and operand numbers beyond an int are left out.
- TextEditor.Editor.RunCommand: messages are left out, and what the file system answers is a parameter.
- ProgramStart.Execute: the redirection branch, which writes the words to a file, and the other commands are left out; that shell_run_program can still refuse for lack of frames or for the file is in `KernelPager.Pager.Create`, `FsVolume.Volume.ReadFile` and `ProgramStart.LoadFlat`.
- ProgramStart.BuildUserArgs: the block must have room for the strings; the pages it touches are those `vm_fault` serves.
- DWARF header, types and abbreviations, stabs, coverage, backtrace printing, the preprocessor, the parser and the value stack of TinyCC, other targets, position-independent code and thread-local storage.
- `print_dec` in `src/home/tcc.c`: its buffer has no terminator, so no contract holds.
