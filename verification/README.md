# Vesper-OS: a verified model of the kernel's stateful core

Vesper-OS is a small 32-bit x86 kernel. This project models the parts of it that keep state across calls and proves
what they are for. Each part has a specification on values, with theorems over every run, and, where the C or
assembly changes things in place, imperative code proved against that specification.

| part | specification and theorems | code |
|---|---|---|
| VesperFS and file descriptors | `FsLayout`, `FsPlans`, `FsTheorems`, `FsRuns`, `FsRaw`, `Descriptors` | `FileSystem`, `Descriptors` |
| kernel heap | `HeapSpec` | `KernelHeap` |
| physical frames | `Frames` | `Pmm` |
| page directories and tables | `PageTables`, `AddressSpace`, `FrameBudget`, `IdentityMap` | `Paging` |
| ELF loading | `ElfImage`, `ElfBuild` | `ElfLoader` |
| processes and scheduling | `Scheduler` | `Processes` |
| ownership of directories and frames over `exec`, exit and kill | `Exec`, `FrameLoss`, `KernelReach`, `ProgramRuns` | `Shell` |
| isolation and protection of user memory, CR3 | `Isolation`, `Protection`, `ActiveDirectory` | `Shell` |
| context switch | `ContextSwitch` | `ProcessYield` |
| pipes | `PipeSpec` | `Pipes` |
| keyboard | `KeyboardSpec`, `KeyboardLayout` | `Keyboard` |

`Bytes` holds bytes, 32-bit words and C strings. `dafny verify dfyconfig.toml` checks everything.

How the parts are modelled:

- **Disk.** A sequence of 512-byte sectors; every sector read or write may fail. A call of the file system is a plan, a
  list of single-sector writes; a crash or a drive failure is a prefix of it. A disk denotes a map from names to bytes,
  and all file-system theorems are about that map.
- **Memory.** 8192 frames of 4096 bytes; page directories and tables are words stored in frames. A ghost map gives each
  frame that is not free its one role: directory, table, leaf, or lost. A frame is lost when a mapping replaces another
  one or goes through the shared kernel tables; the theorems say exactly when that happens.
- **Runs.** A run is any sequence of events. Scheduler events are interleaved with pipe calls, program starts and
  stack switches; interrupts run between any two accesses the keyboard consumer makes to the shared variables.
- **Arithmetic.** 32-bit sums wrap where the code lets them wrap; the theorems say from where on this matters.

Where the code does not do what its comments, its documentation or one's first guess say, the code is modelled and the
exact condition is proved:

- A name of more than 31 bytes is stored truncated and never found again under its own name (`FsRuns.LongNameIsLost`). If
  another file already has those 31 bytes as its name, the directory ends up with two live entries of one name and is no
  longer well formed; a file size within 511 of 2^32 succeeds, writes no data and breaks it as well
  (`FsRuns.WriteKeepsIff`, `FsRuns.OversizeWritesNothing`).
- `fs_init` does not format a disk without a superblock, although kernel/fs.h:55 says so (`FileSystem.FileSystem.Init`).
- A heap request above 0xFFFFFFFC is granted a block that is too small (`HeapSpec.GrantedIsEnough`). A block header takes
  16 bytes in the code; the repository's README says 12.
- Overlapping usable entries in the boot memory map make the free-frame counter too large (`Frames.InitCounterIff`); a
  usable entry strictly inside one page lowers the reported total by one (`Frames.DeltaIff`).
- The kernel touches frames at their physical addresses, through its own map of the first 8 MB. The frames a load takes
  are below 8 MB, as kernel/elf.c:158 assumes, if and only if as many frames as it takes are free there
  (`FrameLoss.LoadTakesLeast`). A `paging_map_page` call on a page where nothing lies yet can send the next program's
  directory into another frame (`KernelReach.RedirectedStart`), and a load segment below 8 MB overwrites the map itself
  (`IdentityMap.IdentityKeptIff`). All claims over runs of programs are about runs whose starts and mappings meet the
  exact conditions of `KernelReach`.
- The loaders test a bound that counts 32 bytes for each program header but step by `e_phentsize`
  (`ElfImage.TableInsideIff`, `ElfImage.LooseTablePasses`).
- An image whose pages overlap each other or the stack pages loses frames for good, even when it fails to start
  (`FrameLoss.ExecLossIff`, `FrameLoss.HarmlessWhen`).
- A process killed while it is current comes back to life when it next blocks (`Scheduler.ZombiePermanentIff`); a killed
  idle process comes back when nothing is ready (`Scheduler.FallbackRevives`).
- Exit, and a kill of the current process, free the directory the processor is translating through; CR3 names a free
  frame until the next switch, and at no other time (`ActiveDirectory.EventTarget`, `ActiveDirectory.Cr3Iff`).
- A reader of a closed pipe gets -1, as kernel/pipe.h:49 says, if and only if the slot, should it have been allocated again
  before the reader runs, has been closed and emptied again as well (`PipeSpec.CloseAnswersReader`).
- `keyboard_getchar` can sleep while a character waits, because its test and its block are two steps
  (`KeyboardSpec.MissesWakeUpIff`).

## Model

| member | source | states |
|---|---|---|
| `FsTheorems.WriteCrashAtomic` | kernel/fs.c:219-302 | For any name, long or short, and any size the format can hold: after any number of the sector writes of `fs_write_new` the disk satisfies the invariant and denotes the old name-to-bytes map up to the one directory sector that holds the slot, and the old map with the stored name updated past it; only the recorded file count lags. `FsRuns.WriteKeepsIff` shows that the condition is exact. |
| `FsTheorems.DeleteCrashAtomic` | kernel/fs.c:307-339 | The same for `fs_delete`: before its directory sector the old map, after it the map without that name. |
| `FsTheorems.DataInvisible` | kernel/fs.c:251-282 | Whatever is written from the first sector past every live extent on, files, directory and count stay the same. |
| `FsRuns.FormatEmpties` | kernel/fs.c:74-89 | From any disk contents the format plan leaves the invariant, the empty map and a count of zero. |
| `FsRuns.StepRefines` | kernel/fs.c:219-339 | One write or delete cut after any number of sector writes, of any name and of any size that meets the condition of `FsRuns.WriteKeepsIff`, keeps the invariant (unique live names, disjoint extents in the data area) and either does its map operation or changes no file. |
| `FsRuns.RunRefinesMap` | kernel/fs.c:219-339 | After every run of cut and uncut calls, each meeting the condition of `FsRuns.WriteKeepsIff` in the state it finds, the disk denotes the map obtained by applying exactly the calls that committed, in order. |
| `FsRuns.ErrorFreePut` | kernel/fs.c:219-302 | An uninterrupted write is map update under the stored name if the name has or can get a slot and the data fits on the disk, and changes nothing otherwise. |
| `FsRuns.ErrorFreeRemove` | kernel/fs.c:307-339 | An uninterrupted delete is map removal. |
| `FsRuns.ErrorFreeCount` | kernel/fs.c:297-333 | An uninterrupted call keeps `num_files` equal to the number of files in the map. |
| `FsRuns.ErrorFreeRun` | kernel/fs.c:74-339 | Over every error-free run from `fs_format` on, the disk denotes the map obtained from the calls that fit, in order, and `num_files` equals the number of files. |
| `FsRuns.FileCount` | kernel/fs.c:242-260 | The number of live directory slots is the size of the map. |
| `FsRuns.SlotIff` | kernel/fs.c:238-264 | A slot is found if and only if the name is already stored or fewer than 64 files are. |
| `FsRuns.LongNameIsLost` | kernel/fs.c:247-291 | After a finished write the name can be looked up if and only if it has at most 31 bytes: longer names are truncated when stored and compared in full. Its first 31 bytes can always be looked up. |
| `FsRuns.WriteKeepsIff` | kernel/fs.c:238-302 | After a finished write of any name and size the invariant holds if and only if `len + 511` does not wrap and a name of more than 31 bytes has first 31 bytes that no file has; the disk then denotes the old map updated under the stored name. |
| `FsRuns.OversizeWritesNothing` | kernel/fs.c:267-302 | A write of more than 0xFFFFFE00 bytes can always be carried out to its end, so it succeeds; it publishes an entry of that size, writes no byte of the data area, and breaks the invariant. |
| `FsRaw.FormattedRaw` | kernel/fs.h:15-18 | A file system is there exactly if sector 129 begins with the eight characters VESPERFS and the little-endian word 1; the next word is the file count. |
| `FsRaw.EntryRaw` | kernel/fs.h:20-42 | Entry i of the directory is the 64 bytes in sector 130 + i/8 at 64(i mod 8): name, first sector, size, flags, as little-endian words. |
| `FsRaw.FilesRaw` | kernel/fs.h:9-26 | What a disk denotes, off its raw bytes: a name is in the map exactly if some entry has these bytes and a NUL, is not empty and has flags other than 1; the file is the `size` bytes from its first sector on. |
| `FsRaw.FirstFile` | kernel/fs.c:238-256 | On a disk without files the next one starts at sector 138. |
| `FsRaw.FormatSpares` | kernel/fs.c:74-89 | However far `fs_format` gets, sectors 0 to 128, the boot sector and the kernel, are as before. |
| `FsRaw.RunSpares` | kernel/fs.h:29-29 | Over every run of writes and deletions, cut short anywhere, sectors 0 to 128 are as before. |
| `FsPlans.ScanFinds` | kernel/fs.c:242-260 | The directory scan ends on the live entry of that name if there is one, else on the first free slot, else on none. |
| `FsPlans.NextFree` | kernel/fs.c:251-256 | The sector chosen for new data is at or past the end of every live extent and of the directory. |
| `FsPlans.ContentOfData` | kernel/fs.c:266-282 | Reading an extent back after the sector-wise write gives the data, with the padding cut off. |
| `FsPlans.DirUpdate` | kernel/fs.c:284-295 | Replacing a free slot, or the slot of the same name, is an update of the map at that name only. |
| `FsPlans.DirRemove` | kernel/fs.c:322-326 | Marking the slot of a live file deleted is removal of its name from the map. |
| `FsPlans.DirPrefix` | kernel/fs.c:61-64 | After j of the eight directory sectors the directory read back is the old one until the sector of the changed slot is written, and the new one from then on. |
| `FsLayout.EntryRoundTrip` | kernel/fs.h:20-42 | A directory entry survives being stored as 64 bytes and decoded again. |
| `FileSystem.OpenIsLookup` | kernel/fs.c:143-163 | The name is in the map exactly if the search finds it, and the bytes behind the opened handle are those of the map. |
| `FileSystem.Disk.ReadSector` | kernel/ata.h:25-30 | A single-sector read delivers the sector or fails without effect. |
| `FileSystem.Disk.WriteSector` | kernel/ata.h:32-37 | A single-sector write stores the sector or fails without effect. |
| `FileSystem.FileSystem.ReadDir` | kernel/fs.c:56-59 | Reads the eight directory sectors in turn; on success `dir_buf` is the directory area of the disk. |
| `FileSystem.FileSystem.WriteDir` | kernel/fs.c:61-64 | Writes a prefix of the eight directory sectors from `dir_buf`, all of them on success. |
| `FileSystem.FileSystem.Format` | kernel/fs.c:74-89 | Carries out a prefix of the format plan, all of it when it returns 0. |
| `FileSystem.FileSystem.Init` | kernel/fs.c:94-101 | Answers whether magic and version are in place and writes nothing. |
| `FileSystem.FileSystem.NameEquals` | kernel/fs.c:154-154 | `strcmp` on a stored name is equality with the C string in its field. |
| `FileSystem.FileSystem.FindEntry` | kernel/fs.c:149-162 | The linear search of open and delete finds the first live entry of that name. |
| `FileSystem.FileSystem.Open` | kernel/fs.c:143-163 | On success the handle is at position 0 of the extent of that name; a failed call leaves the handle alone; with a healthy drive it succeeds exactly when the name is in the directory. |
| `FileSystem.FileSystem.ReadChunk` | kernel/fs.c:182-201 | One turn of the read loop: the bytes of the sector under the position, up to the sector end and the request. |
| `FileSystem.FileSystem.Read` | kernel/fs.c:168-204 | Returns the bytes of the file from the old position, as many as asked and left unless a sector read fails; `pos` advances by exactly that number even then. |
| `FileSystem.FileSystem.Fetch` | kernel/shell.c:520-538 | Opening a file and reading `size` bytes, as `cmd_exec` does: on a healthy drive it succeeds exactly if the name is in the map and the file fits the buffer, and gives exactly the bytes of the map; on a failing drive it gives a prefix. |
| `FileSystem.FileSystem.ScanDir` | kernel/fs.c:238-260 | The scan loop computes the specified slot, the overwrite flag and the first sector past all live extents. |
| `FileSystem.FileSystem.WriteData` | kernel/fs.c:266-282 | The data loop carries out a prefix of the data sectors of the plan. |
| `FileSystem.FileSystem.PublishEntry` | kernel/fs.c:284-295 | Builds the entry in `dir_buf` and writes the directory: a prefix of the publishing writes. |
| `FileSystem.FileSystem.Finish` | kernel/fs.c:297-301 | The superblock write that ends the plan, counting only new files. |
| `FileSystem.FileSystem.Store` | kernel/fs.c:262-302 | Data, directory and superblock in that order: always a prefix of the plan. |
| `FileSystem.FileSystem.WriteNew` | kernel/fs.c:219-302 | The whole call leaves the disk after a prefix of the write plan, the complete plan if and only if it returns 0, and changes nothing when it refuses. For a name and size the format can hold the map is the old one or the one updated under the stored name; the latter when it returns 0, the former when a healthy drive fails. |
| `FileSystem.FileSystem.LowerCount` | kernel/fs.c:328-333 | The count is lowered unless it is 0 or the superblock cannot be read. |
| `FileSystem.FileSystem.Kill` | kernel/fs.c:322-335 | Marks one slot deleted and publishes it: a prefix of the deletion plan. |
| `FileSystem.FileSystem.Delete` | kernel/fs.c:307-339 | The whole call leaves the disk after a prefix of the deletion plan; -1 with nothing changed when no live entry has the name. The map is the old one or the one without the name; the latter when it returns 0, which a healthy drive does exactly for a name that is there. |
| `Descriptors.StepKeepsOthers` | kernel/fs.c:219-339 | A write or delete, finished or cut, leaves the entry and the bytes of every file of another name alone; one that does not commit leaves every file alone. |
| `Descriptors.NextKeeps` | kernel/fd.c:23-77 | Every open, read, close and file-system change keeps every open descriptor consistent: what it delivered is the part of its file before its position. |
| `Descriptors.StreamsAreIndependent` | kernel/fd.c:23-77 | Over any interleaving of reads of any lengths through 16 descriptors, with drive failures and with writes and deletes of any files, what a descriptor delivered is exactly the first `pos` bytes of its file as opened, until a write or delete of that file commits. |
| `Descriptors.OthersLeaveAlone` | kernel/fd.c:49-77 | Over every run in which its owner neither reads nor closes, a descriptor keeps file, position and owner, whatever other processes open, read, close, write or delete. |
| `Descriptors.InitialGood` | kernel/fd.c:15-18 | With no descriptor in use every stream claim holds, so every run may start there. |
| `Descriptors.FdTable.Open` | kernel/fd.c:23-44 | The first unused slot is claimed for the caller, or -1; on a failed open nothing changes. |
| `Descriptors.FdTable.Read` | kernel/fd.c:49-60 | -1 unless the descriptor is between 0 and 15, in use and owned by the caller; the bytes come from the file of that descriptor and only its position moves; a healthy drive gives as many as are asked for and left; the count is returned as a signed int, negative from 2^31 on. |
| `Descriptors.FdTable.Close` | kernel/fd.c:65-77 | Only the owner closes; only that slot is released. |
| `HeapSpec.Canonical` | kernel/kmem.c:84-116 | Every tiling of the region without two neighbouring free blocks is the list rebuilt from its live blocks alone. |
| `HeapSpec.LiveDetermines` | kernel/kmem.c:84-116 | Two valid heaps with the same live blocks are the same block list. |
| `HeapSpec.CoalesceKeeps` | kernel/kmem.c:105-115 | Merging leaves the live blocks, tiles the same range and leaves no two free neighbours. |
| `HeapSpec.TakeKeeps` | kernel/kmem.c:52-73 | An allocation keeps the tiling and the merge law and adds one live block at its place. |
| `HeapSpec.ReleaseKeeps` | kernel/kmem.c:98-115 | A free keeps the tiling and the merge law and removes one live block. |
| `HeapSpec.TilesApart` | kernel/kmem.c:40-79 | Blocks never overlap. |
| `HeapSpec.FreeUndoesMalloc` | kernel/kmem.c:40-116 | `kfree` of the pointer `kmalloc` just returned restores the exact block list. |
| `HeapSpec.FreesCommute` | kernel/kmem.c:84-116 | The block list after two frees does not depend on their order. |
| `HeapSpec.FreeAllRestores` | kernel/kmem.c:84-116 | Freeing all live blocks in any order restores the single free block of 262128 bytes. |
| `HeapSpec.MallocGrants` | kernel/kmem.c:40-79 | NULL exactly when the request is 0 or no free block fits; otherwise a live block at least as large as the rounded request and at most 16 bytes larger, and every older live block stays. |
| `HeapSpec.LowestFit` | kernel/kmem.c:49-76 | First fit: no free block below the granted one was large enough. |
| `HeapSpec.MallocRoomyIff` | kernel/kmem.c:46-69 | `kmalloc` makes a block of less than four bytes if and only if a request above 0xFFFFFFFC splits the first free block. |
| `HeapSpec.RunRoomy` | kernel/kmem.c:28-116 | Over every run without such a request every block, free or in use, has at least four bytes. |
| `HeapSpec.GrantedIsEnough` | kernel/kmem.c:46-57 | A granted block can hold the request if and only if the request is at most 0xFFFFFFFC; above that the rounding wraps. |
| `HeapSpec.StepKeeps` | kernel/kmem.c:40-116 | Every call keeps the invariant, and a live block neither moves nor changes size before its own free. |
| `HeapSpec.ReachableCanonical` | kernel/kmem.c:28-116 | Every reachable heap is the canonical list of its live blocks. |
| `KernelHeap.Heap.constructor` | kernel/kmem.c:28-35 | `kmem_init` links one free block over the whole region. |
| `KernelHeap.Heap.Malloc` | kernel/kmem.c:40-79 | The list walk over linked headers gives the first fit of the specification and its block list. |
| `KernelHeap.Heap.TakeAt` | kernel/kmem.c:52-73 | Splitting and marking in place gives the specified list, with all links right. |
| `KernelHeap.Heap.Free` | kernel/kmem.c:84-116 | Marking and merging in place gives the specified list; anything that is not a live block is ignored. |
| `KernelHeap.Heap.Walk` | kernel/kmem.c:105-115 | The merging loop ends in the coalesced list. |
| `KernelHeap.Heap.Info` | kernel/kmem.c:121-136 | Used plus free plus 16 bytes for each block is the whole region, and used is the sum of the live blocks. |
| `Frames.SetBitEffect` | kernel/pmm.c:14-17 | Setting a bit of the bitmap sets that bit and no other. |
| `Frames.ClearBitEffect` | kernel/pmm.c:19-22 | Clearing a bit clears that bit and no other. |
| `Frames.FreedExact` | kernel/pmm.c:105-133 | The boot map frees exactly the tracked frames lying wholly inside one usable entry; an entry whose 64-bit end wraps frees nothing. |
| `Frames.ReservedExact` | kernel/pmm.c:32-45 | The frames `pmm_reserve_range` goes over are exactly the tracked frames that share a byte with the range up to its 64-bit end. |
| `Frames.CounterExactIff` | kernel/pmm.c:105-133 | While entries are processed the counter equals the number of clear bits if and only if no frame lies in two usable entries. |
| `Frames.InitCounterIff` | kernel/pmm.c:60-145 | After `pmm_init` the counter equals the number of free frames if and only if no frame lies in two usable entries. |
| `Frames.DeltaIff` | kernel/pmm.c:121-133 | An entry raises `pmm_total` by the number of its frames if and only if it is not usable or holds the start of a page; an entry strictly inside one page lowers it by one. |
| `Frames.TotalIff` | kernel/pmm.c:104-134 | `pmm_total`, before it is cut to 32 bits, is what `pmm_free` was raised by if and only if every usable entry holds the start of a page. |
| `Frames.TotalIsFrames` | kernel/pmm.c:104-134 | For disjoint entries of whole pages `pmm_total` is the number of frames freed. |
| `Frames.CounterStaysExact` | kernel/pmm.c:150-177 | Over every run of allocations and frees the counter is the number of free frames. |
| `Frames.ZeroMeansExhausted` | kernel/pmm.c:150-162 | Over every run that never frees frame 0, a zero result means exhaustion and nothing else. |
| `Frames.GrantsStayLow` | kernel/pmm.c:150-162 | k allocations in a row all stay below 8 MB if and only if at least k frames below 8 MB were free. |
| `Pmm.Pmm.constructor` | kernel/pmm.c:60-64 | The bitmap starts with every frame used. |
| `Pmm.Pmm.SetUsed` | kernel/pmm.c:14-17 | Removes exactly one frame from the free set. |
| `Pmm.Pmm.SetFree` | kernel/pmm.c:19-22 | Adds exactly one frame to the free set. |
| `Pmm.Pmm.ReserveRange` | kernel/pmm.c:32-55 | Takes the frames a range touches out of the free set, lowering the counter once for each that was free, but not below 0. |
| `Pmm.Pmm.MarkUsed` | kernel/pmm.c:47-54 | The loop over the frames of a range. |
| `Pmm.Pmm.FreeRange` | kernel/pmm.c:91-94 | Frees a range of frames and counts every one. |
| `Pmm.Pmm.FreeEntry` | kernel/pmm.c:105-134 | Frees the frames wholly inside one usable entry. |
| `Pmm.Pmm.FreeEntries` | kernel/pmm.c:104-134 | The loop over the boot map gives the specified free set, counter and total. |
| `Pmm.Pmm.Init` | kernel/pmm.c:60-145 | The free set, the counter and the total after boot are the specified ones; with an empty map frames 256 to 8191 are free, 7936 of 8192. |
| `Pmm.Pmm.AllocFrame` | kernel/pmm.c:150-162 | Returns the least free frame and takes it, or 0 and changes nothing. |
| `Pmm.Pmm.FreeFrame` | kernel/pmm.c:167-177 | Adds the frame of the address if it is tracked and was used; otherwise nothing changes. |
| `PageTables.KernelHalfAgrees` | kernel/paging.c:98-100 | In every valid state each live directory translates every page below 8 MB exactly as the kernel directory does. |
| `Protection.UserWalk` | kernel/paging.c:118-135 | By the page walk of the processor (section 4.3 of the Intel SDM, volume 3A) on the raw bytes, ring 3 reads and writes at or above 8 MB exactly where a page is mapped, in the frame of its entry: both levels are present, writable and open to it. |
| `Protection.KernelClosed` | kernel/paging.c:22-60 | In every valid state and every directory an access of ring 3 below 8 MB faults, whatever flags `paging_map_page` was given. |
| `Protection.KernelWalk` | kernel/paging.c:22-35 | While the identity map holds, an access of the kernel below 8 MB goes, in every directory, to the address it names. |
| `Protection.OwnLeavesOnly` | kernel/paging.c:105-139 | What ring 3 can reach through a directory is a leaf of that directory: no table, no free frame, no frame of another one. |
| `Protection.StoreIsolates` | kernel/paging.c:105-139 | Whatever byte a program stores wherever: ownership stays, and of all user pages of all directories only its own page changes, in that byte. |
| `PageTables.NewDirKeeps` | kernel/paging.c:88-103 | A new directory keeps every frame owned once, in its one role, and outside the free set. |
| `PageTables.NewTableKeeps` | kernel/paging.c:118-126 | So does a new page table. |
| `PageTables.NewLeafKeeps` | kernel/paging.c:128-135 | So does a new leaf; the frame it displaces, if any, is the one that is lost. |
| `PageTables.NewSharedKeeps` | kernel/paging.c:128-135 | So does a mapping through a shared kernel table, whose frame is lost at once. |
| `PageTables.FillKeeps` | kernel/elf.c:163-183 | Writing into a leaf frame disturbs no table. |
| `PageTables.DestroyKeeps` | kernel/paging.c:144-169 | Destroying a directory frees exactly the frames it owns and keeps the ownership of all others. |
| `AddressSpace.MapPageEffect` | kernel/paging.c:113-136 | One mapping fails only for want of frames and loses a frame exactly when the page is below 8 MB or already mapped. |
| `AddressSpace.MapPagePte` | kernel/paging.c:113-136 | After one mapping exactly that page is newly mapped, to a frame that was free; every other page of every directory is as before. |
| `AddressSpace.MapPagesLoss` | kernel/paging.c:108-139 | A run of mappings, even one that fails midway, loses frames exactly when it maps a page below 8 MB or a page twice. |
| `AddressSpace.MapPagesShow` | kernel/paging.c:108-139 | Mapping a list of pages leaves the bytes behind every page outside the list alone. |
| `FrameBudget.SpendIs` | kernel/paging.c:108-139 | Mapping a list of pages goes through exactly if the frames it needs are free, one for each page and one for each new table; otherwise it uses up all of them. |
| `FrameBudget.MapPagesCost` | kernel/paging.c:108-139 | The number of pages mapped is the number the free frames suffice for, and the frames taken are the least ones. |
| `FrameBudget.TookLowIff` | kernel/pmm.c:150-162 | Frames so taken all lie below 8 MB if and only if that many frames below 8 MB were free. |
| `FrameBudget.DestroyRestores` | kernel/paging.c:88-169 | Create, map any list of pages, destroy: the free set is the earlier one if and only if the pages that the free frames suffice for are distinct and at or above 8 MB. |
| `IdentityMap.IdentityKeptIff` | kernel/paging.c:108-139 | Mapping a list of pages keeps the identity map of the kernel if and only if no page that the free frames suffice for lies below 8 MB. |
| `AddressSpace.FillShows` | kernel/elf.c:163-183 | Writing into the frame of one page changes no translation and no other page. |
| `Paging.Paging.constructor` | kernel/paging.c:22-35 | `paging_init` maps the first 8 MB to themselves. |
| `Paging.Paging.CreatePd` | kernel/paging.c:88-103 | 0 and no change without frames; otherwise the specified new directory in the least free frame. |
| `Paging.Paging.EnsureTable` | kernel/paging.c:118-126 | The specified page table is added when the directory entry is not present. |
| `Paging.Paging.PlaceLeaf` | kernel/paging.c:128-135 | The specified leaf is added. |
| `Paging.Paging.AllocUserPages` | kernel/paging.c:108-139 | The page loop gives the specified state and returns 0 exactly if every page was mapped. |
| `Paging.Paging.FreeSlot` | kernel/paging.c:158-162 | One turn of the inner loop frees exactly the leaf in that slot. |
| `Paging.Paging.FreeTable` | kernel/paging.c:154-164 | Frees the leaves of a table and then the table. |
| `Paging.Paging.FreeEntry` | kernel/paging.c:149-165 | Skips absent entries, frees the table of a present one. |
| `Paging.Paging.DestroyPd` | kernel/paging.c:144-169 | The two loops free exactly the frames the directory owns, each once, with the counter exact. |
| `Paging.MapKernelKeeps` | kernel/paging.c:48-60 | `paging_map_page` changes one translation below 8 MB of the kernel directory and no ownership; at or above 8 MB it changes nothing. |
| `Paging.Paging.MapKernelPage` | kernel/paging.c:48-60 | The code stores the specified entry, with the frame, the present bit and bits 1 to 11 of the flags, or does nothing where no table is present. |
| `ElfImage.TableInsideWhen` | kernel/elf.c:118-130 | With headers of at most 32 bytes and no wrap, the bound that is tested keeps every header read inside the file. |
| `ElfImage.TableInsideIff` | kernel/elf.c:127-130 | The condition the loaders need is that every header they look at lies inside the file. |
| `ElfImage.LooseTablePasses` | kernel/elf.c:118-130 | A file of 116 bytes passes every test of the loaders although its second header lies outside it. |
| `ElfImage.LoadSegsRight` | kernel/elf.c:127-184 | After a successful load of page-disjoint segments every page of every segment holds its image. |
| `ElfImage.LoadedImage` | kernel/elf.c:101-188 | Reading any address in the pages of any load segment through the page tables gives the file byte below `p_vaddr + p_filesz` and zero everywhere else. |
| `ElfImage.LoadLeavesOthers` | kernel/elf.c:101-188 | Loading changes no user page of any other directory, whether or not it succeeds. |
| `ElfImage.LoadFlatRight` | kernel/elf.c:42-72 | Flat loading puts the same bytes at every address of every segment. |
| `ElfImage.LoadersAgree` | kernel/elf.c:7-188 | When both loaders succeed they return the same entry point and the same byte at every segment address. |
| `ElfImage.InSegExact` | kernel/elf.c:139-142 | The pages mapped for a segment are those it has an address in, no more and no fewer. |
| `ElfBuild.BuiltSegments` | kernel/elf.h:29-57 | For a file written field by field as the format lays it out, with any program headers, the loaders read exactly the entry point and the type, offset, address, file size and memory size that were written. |
| `ElfBuild.BuiltImage` | kernel/elf.c:101-188 | A successful load of such a file answers with its entry point and shows, for every load segment, the `p_filesz` bytes from `p_offset` on and zeros around them up to `p_memsz`. |
| `ElfBuild.LoadsOnlyElf` | kernel/elf.c:108-123 | Only a file with the ELF magic, 32-bit, little-endian, executable, for the 80386 and with program headers is ever loaded. |
| `ElfLoader.PhysOfVirt` | kernel/elf.c:85-99 | The two-level lookup gives the frame address in the entry of the page, 0 if there is none; for a mapped user page it is never 0. |
| `ElfLoader.CopyPage` | kernel/elf.c:150-184 | Zeroing the frame and copying the overlap leaves exactly the image of that page. |
| `ElfLoader.CopyPages` | kernel/elf.c:149-184 | The page loop fills every page of the segment. |
| `ElfLoader.LoadSegment` | kernel/elf.c:127-184 | One turn of the segment loop, with its two failure exits. |
| `ElfLoader.LoadUserImage` | kernel/elf.c:101-188 | The whole loader gives the specified state and entry point, 0 on every error path. |
| `ElfLoader.FlatMemory.LoadFlatImage` | kernel/elf.c:7-73 | The flat loader gives the specified memory and entry point. |
| `Scheduler.InitialOk` | kernel/process.c:30-43 | `process_init` leaves a well-formed table with the idle process ready in slot 0. |
| `Scheduler.NeverFallsBack` | kernel/process.c:231-251 | With a schedulable idle slot the search always finds a ready process. |
| `Scheduler.SwitchKeeps` | kernel/process.c:220-252 | A switch keeps the table well formed, runs exactly one process and revives no zombie. |
| `Scheduler.CreateKeeps` | kernel/process.c:48-126 | A new process takes the slot after the last used one and gets PID slot plus one; -1 exactly when 16 slots are used. |
| `Scheduler.KillHits` | kernel/process.c:168-184 | A kill succeeds exactly on the PID of a process that is not dead, and hits exactly its slot. |
| `Scheduler.KillKills` | kernel/process.c:168-184 | A kill answers 0 exactly for the PID of a process that is not dead; that process is then a ZOMBIE without a directory, and no other slot has changed. |
| `Scheduler.ExitKills` | kernel/process.c:151-163 | After `process_exit` the caller is a ZOMBIE without a directory and another process runs. |
| `Scheduler.BlockBlocks` | kernel/process.c:189-195 | After `process_block` the caller is BLOCKED and another process runs. |
| `Scheduler.WakeReadies` | kernel/process.c:200-205 | `process_wake` makes a blocked process READY and changes nothing else. |
| `Scheduler.StepKeeps` | kernel/process.c:82-252 | Every event that spares the idle process keeps: used slots are a prefix, PID is slot plus one, only the current slot can be RUNNING, the idle slot is READY or RUNNING. |
| `Scheduler.EventKeepsTable` | kernel/process.c:82-252 | Every event at all, also one that kills the idle process, keeps the table well formed. |
| `Scheduler.RunKeeps` | kernel/process.c:30-252 | The same over every run. |
| `Scheduler.ZombiePermanentIff` | kernel/process.c:168-195 | ZOMBIE is permanent across an event if and only if the event is not a `process_block` by a process that was killed while it was current. |
| `Scheduler.DeadStayDead` | kernel/process.c:151-252 | Over every run without such a block no zombie becomes anything else. |
| `Scheduler.DeadNeverRuns` | kernel/process.c:151-252 | Over every run that spares the idle process and in which no dead process blocks, a ZOMBIE stays one, is not current after the next switch, and its kill is answered with -1. |
| `Scheduler.KilledNeverRuns` | kernel/process.c:168-252 | So a process killed with answer 0 never runs again after the next switch, and a second kill of its PID is answered with -1. |
| `Scheduler.FallbackRevives` | kernel/process.c:249-251 | If the idle process was killed, a switch leaves it dead if and only if some process is ready. |
| `Scheduler.SwitchApproaches` | kernel/process.c:233-247 | A switch picks a ready process or moves the current slot strictly closer to it round the table. |
| `Scheduler.BoundedWaiting` | kernel/process.c:220-252 | A ready process that is not killed is current after some prefix of every run with as many switches as its distance, at most 16, whatever else the run does. |
| `Processes.ProcessTable.constructor` | kernel/process.c:30-43 | `process_init` builds the initial table. |
| `Processes.ProcessTable.AllocSlot` | kernel/process.c:48-56 | The first unused slot, or -1. |
| `Processes.ProcessTable.AddProcess` | kernel/process.c:82-126 | Creation gives the specified table and slot, with directory, `user_eip` and `user_esp` as given. |
| `Processes.ProcessTable.KillProcess` | kernel/process.c:168-184 | The kill loop gives the specified table and result, leaves the victim a ZOMBIE without a directory, and hands that over. |
| `Processes.ProcessTable.WakeProcess` | kernel/process.c:200-205 | Wakes one blocked process and nothing else. |
| `Processes.ProcessTable.WakeAllBlocked` | kernel/process.c:207-214 | Wakes every blocked process and nothing else. |
| `Processes.ProcessTable.SchedNext` | kernel/process.c:220-252 | The two search loops and the demotion give the specified switch. |
| `Processes.ProcessTable.FirstChoice` | kernel/process.c:222-231 | The bootstrap search. |
| `Processes.ProcessTable.NextReady` | kernel/process.c:239-251 | The round-robin search, slot 0 when nothing is ready. |
| `Processes.ProcessTable.BlockCurrent` | kernel/process.c:189-195 | Marks the caller blocked and switches. |
| `Processes.ProcessTable.RetireCurrent` | kernel/process.c:151-160 | Makes the caller a zombie without a directory. |
| `Processes.ProcessTable.ExitCurrent` | kernel/process.c:151-163 | The same, then the switch. |
| `ContextSwitch.YieldTransparent` | kernel/process.asm:41-76 | `process_yield` changes no context: every process keeps its callee-saved registers, continuation and stack contents; the caller will go on at its return address. |
| `ContextSwitch.ParkKeeps` | kernel/process.asm:42-66 | At the stack swap every process of the table is suspended with the context it had, whatever the C calls left below the stack pointer. |
| `ContextSwitch.NewStackStarts` | kernel/process.c:68-77 | The initial kernel stack reads back as four zero registers, the entry point and an empty stack. |
| `ContextSwitch.FirstSwitch` | kernel/process.asm:54-76 | The first switch of all, made with no current process from any well-formed table, resumes the process it picks, the idle one if that can run, and leaves every context as its stack has it. |
| `ContextSwitch.StepKeeps` | kernel/process.asm:41-76 | Any step of the current process on its own stack, any switch, creation, kill or wake-up leaves the context of every other process alone. |
| `ContextSwitch.AwayKeeps` | kernel/process.asm:41-76 | Over any run in which a process is not current nobody changes its context. |
| `ContextSwitch.ResumesAsLeft` | kernel/process.asm:41-76 | A process that yields, blocks or exits is resumed, after any run of the others, with the same registers, stack and stack pointer, at its return address. |
| `ContextSwitch.StartsFresh` | kernel/process.c:68-77 | A new process is first resumed with four zeros in its registers, at its entry, on an empty stack. |
| `ContextSwitch.ReadyResumes` | kernel/process.asm:41-76 | A ready process that is not killed is resumed with its own context in every run with enough switches. |
| `ContextSwitch.YieldReturns` | kernel/process.asm:41-76 | Every `process_yield` by a running process returns within 16 further switches, in the context it was called in, unless the process is killed. |
| `ProcessYield.Cpu.PushWord` | kernel/process.asm:43-46 | Stores below the stack pointer and moves it. |
| `ProcessYield.Cpu.PopWord` | kernel/process.asm:71-74 | Loads at the stack pointer and moves it. |
| `ProcessYield.Cpu.BuildInitialStack` | kernel/process.c:68-77 | The five stores and the saved stack pointer of a new process. |
| `ProcessYield.Cpu.CreateProcess` | kernel/process.c:82-126 | Creation with its initial stack is the specified step. |
| `ProcessYield.Cpu.SaveContext` | kernel/process.asm:42-52 | The pushes and the store of the stack pointer. |
| `ProcessYield.Cpu.ParkCurrent` | kernel/process.asm:42-65 | Save, choose and prepare, up to the swap. |
| `ProcessYield.Cpu.RestoreContext` | kernel/process.asm:67-76 | The swap, the pops and the return. |
| `ProcessYield.Cpu.YieldNow` | kernel/process.asm:41-76 | The whole routine is the specified switch. |
| `FrameLoss.PrepareIs` | kernel/shell.c:541-576 | The pages `cmd_exec` maps for a file, whether the program becomes ready and how many frames it takes are decided by the file and the number of free frames before the call. |
| `FrameLoss.LoadTakesLeast` | kernel/elf.c:157-162 | The frames a program start takes are the least free ones, as many as file and free frames say; all of them lie below 8 MB if and only if that many frames below 8 MB were free. |
| `FrameLoss.CleanImagePages` | kernel/elf.c:127-147 | An image whose segments share no page with each other or with the stack asks for no page twice; and a file that can be started and asks for no page twice is such an image. |
| `FrameLoss.HarmlessWhen` | kernel/shell.c:541-576 | Such an image is harmless whatever is free; with frames enough to start a file, only such an image is. |
| `FrameLoss.ExecLossIff` | kernel/shell.c:541-576 | A program start, successful or not, loses no frame if and only if it is harmless: no page that the free frames suffice for is asked for twice. |
| `FrameLoss.FailedExecRestores` | kernel/shell.c:541-576 | An `exec` that creates no process restores the exact free set if and only if it is harmless. |
| `Exec.HandOver` | kernel/shell.c:570-576 | A new process that takes over a new directory owns it, and nobody else does. |
| `Exec.ExecKeeps` | kernel/shell.c:541-576 | Every path through `cmd_exec` ends with every directory owned by exactly one process that is not dead, and conserves the frames. |
| `Exec.BuryKeeps` | kernel/process.c:151-184 | Exit and kill destroy what the process owns exactly once, lose nothing and leave every other owner alone. |
| `KernelReach.BootReaches` | kernel/paging.c:22-35 | After `paging_init` the map of the kernel leads to every frame below 8 MB. |
| `KernelReach.MapLowReachesIff` | kernel/paging.c:48-60 | `paging_map_page` leaves the map of the kernel leading to everything in use if and only if the page is at or above 8 MB, or nothing in use lies there, or it keeps its frame. |
| `KernelReach.PrepareReachesIff` | kernel/paging.c:88-139 | The frames a program start works on are reached through that map if and only if it leads to each of the least free frames, as many as the start takes. |
| `KernelReach.WithinIff` | kernel/elf.c:157-162 | While the map leads to the free frames below 8 MB, a start stays within it if and only if as many of them are free as it takes. |
| `KernelReach.RedirectedStart` | kernel/paging.c:48-103 | A failing input: a `paging_map_page` call that sends the page of the least free frame to another frame spares everything in use, and the directory of the next program would be written into that other frame. |
| `ProgramRuns.StepKeeps` | kernel/shell.c:541-576 | Every exec, kill, exit, mapping, block, wake-up and switch that meets its condition in the state it finds keeps one owner for each directory, keeps everything in use reached, and conserves the frames. |
| `ProgramRuns.ReachedOverRuns` | kernel/paging.c:88-169 | In every reachable state an access of the kernel at the address of a frame in use is an access to that frame. |
| `ProgramRuns.Run` | kernel/shell.c:541-576 | The same over every run whose events meet their conditions in the states they find. |
| `FrameLoss.StepLossIff` | kernel/shell.c:541-576 | One event loses no frame if and only if it is not the start of a harmful image. |
| `ProgramRuns.RunLossIff` | kernel/shell.c:541-576 | Over any such run no frame is lost if and only if every start in it is harmless in the state it meets. |
| `ProgramRuns.CleanRunsHarmless` | kernel/shell.c:541-576 | Such runs that start only images without shared pages lose nothing. |
| `ProgramRuns.AllDeadAllFree` | kernel/process.c:151-184 | After any such run in which no process owns a directory any more, every frame of the pool that was not lost before the run is free again if and only if every start of the run was harmless. |
| `ProgramRuns.BootGood` | kernel/paging.c:22-35 | After `paging_init` and `process_init` every run may start. |
| `ProgramRuns.KernelHalfOverRuns` | kernel/paging.c:48-169 | In every state reached by such a run the directory of every process translates every page below 8 MB exactly as the kernel directory does. |
| `Protection.ProtectedOverRuns` | kernel/paging.c:88-169 | In every state of a run, what the program of a process can reach from ring 3 is at or above 8 MB, not free, and in no frame that the program of another process can reach. |
| `Protection.ProgramReachesExactly` | kernel/shell.c:541-576 | From its start on, and after every run in which it keeps its directory, a program reaches from ring 3, to read as to write, exactly the pages in which its load segments have an address and the four pages below 0x1020000. |
| `ActiveDirectory.EventTarget` | kernel/process.c:151-184 | Between two switches CR3 stays right unless the current process exits or is killed itself; then it names a frame that is free. |
| `ActiveDirectory.Cr3Iff` | kernel/process.c:133-163 | After every run CR3 names the directory of the current process, the one of the kernel if it has none, if and only if the current process has not lost its directory since the last switch. |
| `ActiveDirectory.RunningIsProtected` | kernel/process.c:133-146 | Then the running program reaches, through CR3 itself, leaves of its own directory and nothing else. |
| `Isolation.PrepareIsolates` | kernel/shell.c:541-568 | Preparing a program changes no user page of any other directory, whether or not it succeeds. |
| `Isolation.StepIsolates` | kernel/shell.c:541-576 | One program start, kill, exit, kernel mapping or scheduler event that meets its condition leaves every user page of every process that keeps its directory as it was. |
| `Isolation.RunIsolates` | kernel/shell.c:541-576 | Isolation over every run whose events meet their conditions: a process that still has its directory has the same one, and every user page shows the same bytes. |
| `Isolation.ProgramKeepsItsImage` | kernel/shell.c:549-576 | A page-disjoint file that can be started with the frames that are free, within the map of the kernel, becomes a process that sees, at every address of its load segments outside the stack pages, the file byte or zero; and it goes on seeing it over every such run for as long as it keeps its directory. |
| `Isolation.ProgramKeepsItsStack` | kernel/shell.c:559-569 | A started program has the entry point of its file in `user_eip` and 0x1020000 in `user_esp`, with the 16384 bytes below mapped; that stays so over every run for as long as it keeps its directory. |
| `Shell.Kernel.PrepareProgram` | kernel/shell.c:541-568 | The calls of `cmd_exec` with the destruction on each failure branch give the specified memory and the entry point of the file; when they succeed 0x101C000 to 0x101FFFF are mapped. |
| `Shell.Kernel.ExecFile` | kernel/shell.c:541-576 | The whole command on the bytes of a file, if the start stays within the map of the kernel, is the specified step; the slot it returns is decided by the file, the free frames and the table. The new process has the entry point of the file, a mapped stack below `user_esp`, and sees the image if the segments are page-disjoint. |
| `Shell.Kernel.ExecNamed` | kernel/shell.c:508-576 | The whole command on a name: on a healthy drive a file of the map that fits the buffer is run and, if the start stays within the map of the kernel, the new process sees the image of `Files(disk)[name]`; with no such file nothing changes. |
| `Shell.Kernel.KillPid` | kernel/process.c:168-184 | `process_kill` on page tables and process table together is the specified step: 0 exactly for the PID of a process that is not dead, which is then a ZOMBIE without a directory. |
| `Shell.Kernel.ExitProcess` | kernel/process.c:151-160 | `process_exit` before its switch is the specified step: the caller is a ZOMBIE without a directory. |
| `Shell.Kernel.BeforeSwitch` | kernel/process.c:133-146 | CR3 is then the directory of the current process, the one of the kernel if it has none. |
| `Shell.Kernel.SwitchProcess` | kernel/process.asm:54-65 | Choosing the next process and loading its directory is the specified switch, with CR3 right. |
| `PipeSpec.PutAllAppends` | kernel/pipe.c:51-55 | `pipe_write` appends as many bytes as fit, in order, however the ring wraps. |
| `PipeSpec.GetAllTakes` | kernel/pipe.c:87-96 | `pipe_read` takes the oldest bytes, in order. |
| `PipeSpec.StepConserves` | kernel/pipe.c:26-111 | One step of any process: bytes buffered and bytes accepted are bytes delivered and bytes buffered, in that order. |
| `PipeSpec.RunConserves` | kernel/pipe.c:26-111 | The same over every interleaving of readers and writers between two allocations of the slot. |
| `PipeSpec.ReadAnswers` | kernel/pipe.c:68-98 | A read of an open pipe, or a reader that resumes, is answered with the oldest bytes: as many as asked for, or all there are if these are fewer; the others stay. |
| `PipeSpec.ReadRefused` | kernel/pipe.c:70-72 | A read of a slot that is not open, or of no slot, is answered with -1 and changes nothing. |
| `PipeSpec.WriteAnswers` | kernel/pipe.c:41-63 | A write is answered with the number of bytes that fit into 256, which are appended, and if there are any nobody is BLOCKED afterwards; -1 without effect if the slot is not open. |
| `PipeSpec.AllocAnswers` | kernel/pipe.c:26-36 | An allocation opens the first of the eight slots that is not open, empty, or is answered with -1. |
| `PipeSpec.StreamSinceAlloc` | kernel/pipe.c:26-98 | Since its `pipe_alloc`, everything accepted is what was read followed by what is buffered. |
| `PipeSpec.InitialInv` | kernel/pipe.c:18-21 | After `pipe_init` and `process_init` the invariant holds, so every run may start there. |
| `PipeSpec.StepKeeps` | kernel/pipe.c:26-111 | No reader sleeps past its wake-up: after every step a process BLOCKED inside `pipe_read` waits on an open, empty pipe. |
| `PipeSpec.Run` | kernel/pipe.c:26-111 | The same over every run of alloc, write, read, close, kill and switch. |
| `PipeSpec.CloseAnswersReader` | kernel/pipe.h:47-51 | A reader asleep on a pipe that is closed is woken; when it runs again, after any run of the others, it gets -1 if and only if, since the last allocation of the slot in that run or else since this close, the slot has been closed and everything accepted has been received. Otherwise it sleeps again or takes bytes, and the lemma says which. |
| `PipeSpec.ShutUntilReopened` | kernel/pipe.h:47-51 | Without a new allocation of the slot that condition always holds. |
| `PipeSpec.CloseThenAllocStrands` | kernel/pipe.h:47-51 | A failing run: close, allocate, switch; the reader of the closed pipe goes to sleep on the new one. |
| `Pipes.Ring.Reopen` | kernel/pipe.c:30-32 | Clears a slot and opens it. |
| `Pipes.Ring.Fill` | kernel/pipe.c:51-55 | The write loop is the specified append. |
| `Pipes.Ring.Drain` | kernel/pipe.c:87-96 | The read loop is the specified removal. |
| `Pipes.PipeTable.TakeOut` | kernel/pipe.c:87-96 | The copy out of one ring leaves every other ring alone. |
| `Pipes.PipeTable.constructor` | kernel/pipe.c:18-21 | Eight closed, empty rings. |
| `Pipes.PipeTable.AllocPipe` | kernel/pipe.c:26-36 | Opens the first closed slot, or -1. |
| `Pipes.PipeTable.WritePipe` | kernel/pipe.c:41-63 | The call is the specified step, wake-up included. |
| `Pipes.PipeTable.TryReadPipe` | kernel/pipe.c:77-98 | One look of a reader: -1, sleep, or the oldest bytes, no more than asked for. |
| `Pipes.PipeTable.ReadPipe` | kernel/pipe.c:68-98 | The call up to its first sleep; never more bytes than asked for. |
| `Pipes.PipeTable.ClosePipe` | kernel/pipe.c:103-111 | Closes the slot and wakes everybody. |
| `KeyboardSpec.StrikeDecodes` | kernel/keyboard.c:172-228 | Striking any key, with either shift key held if needed, decodes to its one character and leaves no mode behind. |
| `KeyboardSpec.TypedDecodes` | kernel/keyboard.c:172-228 | Any text typed key by key decodes to that text. |
| `KeyboardSpec.FullIff` | kernel/keyboard.c:150-151 | The test of `kb_push` drops exactly when 63 slots are occupied. |
| `KeyboardSpec.PushKeeps` | kernel/keyboard.c:148-157 | A push appends unless 63 slots are occupied, and leaves everything the consumer has already read true. |
| `KeyboardSpec.TickKeeps` | kernel/keyboard.c:246-260 | One access of the consumer keeps what it has read true and returns, when it returns, the oldest character. |
| `KeyboardSpec.StepKeeps` | kernel/keyboard.c:148-260 | One step of handler or consumer: characters waiting and accepted are characters returned and waiting, in that order. |
| `KeyboardSpec.ConsumerGetsAccepted` | kernel/keyboard.c:148-260 | With the handler run between any two accesses of the consumer, what is returned is exactly the accepted characters, in order, none lost and none twice. |
| `KeyboardSpec.AcceptsAllIff` | kernel/keyboard.c:148-228 | The accepted characters are the whole decoding of the scancode stream if and only if none of its characters arrives while 63 slots are occupied. |
| `KeyboardSpec.StartInv` | kernel/keyboard.c:234-239 | After `keyboard_init` the invariant holds and nothing waits. |
| `KeyboardSpec.TypedIsRead` | kernel/keyboard.c:148-260 | From `keyboard_init` on, text typed with either shift key in any interleaving with the consumer is what is returned followed by what waits, if the ring never overflowed. |
| `KeyboardLayout.AllPrinted` | kernel/keyboard.c:13-133 | The decoder gives, key by key, what is printed on the five rows of the keyboard, with and without shift. |
| `KeyboardLayout.LetterKeys` | kernel/keyboard.c:13-133 | A key that gives a small letter without shift gives the capital of that letter with it. |
| `KeyboardLayout.DigitKeys` | kernel/keyboard.c:16-25 | The digit keys give their digits without shift. |
| `KeyboardLayout.KeyForStrikes` | kernel/keyboard.c:13-133 | Every character from space to tilde, and newline, tab and backspace, is struck by the key it is printed on. |
| `KeyboardLayout.OneKeyEach` | kernel/keyboard.c:13-133 | No printable character is on two keys, except the star: on 8 with shift and on the keypad. |
| `KeyboardLayout.ShiftKeys` | kernel/keyboard.c:204-217 | Pressing either shift key sets the mode, releasing either clears it, no other code changes it. |
| `KeyboardLayout.ArrowKeys` | kernel/keyboard.c:178-202 | After the prefix 0xE0 the four arrow codes give their four characters and every other code none; shift stays as it is. |
| `KeyboardLayout.TextIsRead` | kernel/keyboard.c:148-260 | Any text of typable characters, struck key by key with either shift key while the consumer reads at any moments: what it has read and what waits is the text, if no character arrives while 63 are waiting. |
| `KeyboardSpec.MissesWakeUpIff` | kernel/keyboard.c:249-252 | A consumer that found the ring empty falls asleep with nothing waiting if and only if no character was decoded between its test and its block. |
| `KeyboardSpec.CharacterWakes` | kernel/keyboard.c:155-156 | An interrupt that decodes to a character leaves no consumer asleep; others stay where they are. |
| `KeyboardSpec.StillAsleep` | kernel/keyboard.c:148-228 | A sleeping consumer is still asleep after any scancodes if and only if none of them decoded to a character. |
| `Keyboard.Driver.constructor` | kernel/keyboard.c:234-239 | `keyboard_init` empties the ring and clears the modes. |
| `Keyboard.Driver.PushChar` | kernel/keyboard.c:148-157 | The push on the ring in place, and the wake-up. |
| `Keyboard.Driver.HandleIrq` | kernel/keyboard.c:172-228 | The handler is the specified decoding and push. |
| `Keyboard.Driver.Happen` | kernel/keyboard.c:148-228 | One interrupt, or one wake-up from elsewhere: the consumer stays where it is or is woken, and nothing is returned. |
| `Keyboard.Driver.ReadHead` | kernel/keyboard.c:249-258 | One read of `kb_head` is one step of the consumer. |
| `Keyboard.Driver.ReadTail` | kernel/keyboard.c:249-249 | One read of `kb_tail` is one step of the consumer. |
| `Keyboard.Driver.ReadSlot` | kernel/keyboard.c:257-257 | One read of the buffer is one step of the consumer. |
| `Keyboard.Driver.WriteHead` | kernel/keyboard.c:258-259 | The store of `kb_head` returns the character. |
| `Keyboard.Driver.Block` | kernel/keyboard.c:250-254 | The consumer sleeps until something wakes it. |
| `Keyboard.Driver.Await` | kernel/keyboard.c:249-255 | The loop, with anything happening between its accesses: it ends with a character waiting, or asleep. |
| `Keyboard.Driver.GetChar` | kernel/keyboard.c:246-260 | The whole call, with any interrupts before each of its accesses: it appends one character to those received since `keyboard_init`, or is asleep when nothing more happens. |

## Left out

- Port I/O and device timing (kernel/ata.c, kernel/pic.c, kernel/serial.c, kernel/rtc.c, kernel/timer.c): the disk keeps only single-sector reads and writes that may fail.
- Console output, line editing and command dispatch (kernel/vga.c and kernel/shell.c except `cmd_exec`), `fs_ls`, `process_print_all`.
- Descriptor tables and interrupt dispatch (kernel/gdt.c, kernel/idt.c, kernel/tss.c, kernel/isr.c) and the system-call switch (kernel/syscall.c): they set up fixed tables or forward arguments, and hold no state of their own.
- The boot loader and the build layout; the boot memory map is an input.
- The TLB, the kernel-stack field of the TSS and the interrupt flag.
- `user_mode_enter` and the ring transition.
- The context on the boot stack that makes the first switch: it is saved nowhere. Where that switch goes is `ContextSwitch.FirstSwitch`.
- NULL pointers passed where the source tests for them, except as the empty name, the zero directory and the zero address.
- Process names and `is_user`.
- FrameLoss.PrepareIs: what a start does when it stays within the map of the kernel, as `KernelReach.Within` says; outside it the source faults or writes into other frames, and the model says nothing. The same holds for the other members about a single start.
- KernelHeap.Heap.Free: requires NULL or a pointer behind a block header; for any other pointer the source tests a magic word in whatever bytes precede it, which the model does not have.
- ElfLoader.LoadUserImage: requires program headers inside the file, and load segments at or above 8 MB whose sums do not wrap; `ElfImage.TableInsideWhen` says when the tested bound gives the first.
- ElfImage.LoadedImage: page-disjoint segments only; a later segment that shares a page replaces the frame of the earlier one.
- ElfLoader.FlatMemory.LoadFlatImage: the source buffer does not overlap the loaded segments, and no address sum wraps.
- ProgramRuns.StepKeeps: programs as `ElfLoader.LoadUserImage` takes them; the same holds for every member about whole programs. A segment below 8 MB changes the map the kernel itself runs on, so what the loader does after it is not modelled; `IdentityMap.IdentityKeptIff` says when that happens.
- Shell.Kernel.ExecFile: without the final switch, which is a member of the scheduler.
- FsRuns.RunRefinesMap: the calls of a run meet the condition of `FsRuns.WriteKeepsIff`, which is exact; after a call that does not, the disk is no file system any more.
- Pipes.PipeTable.TryReadPipe: `pipe_read` is cut at its sleeps, because control passes to other processes there; check and block are one step.
- Isolation.RunIsolates: user programs' own stores are not events; the claim is about what the kernel does to their pages. `Protection.StoreIsolates` says what one store can do.
- ContextSwitch.ResumesAsLeft: memory is counted in words and the stacks have room for what is pushed; what the two C calls leave on the stack is an input.
