# QuadOS: a model of its storage, memory and library core

QuadOS is a 32-bit kernel with a small userland. This project models the parts of it that keep
invariants over long runs, in the form the C code has: objects whose methods change fields and
buffers in place, each proved against a specification, and lemmas about those specifications.

- **The FAT layer of FatFs** (`Bytes`, `FatTable`, `Chains`, `Tiling`, `Mount`, `Volume`, `FileView`,
  `FileObject`, `LongNames`, `Directory`), in the configuration the kernel compiles: 512-byte
  sectors, FAT12/16/32, a private sector buffer for each file, long names, no exFAT. It is a stack
  of refinements: a drive of sectors; the one-sector write-back window with the reflected second
  FAT, whose *logical drive* is what its readers see; the FAT as an array of entries; chains of
  clusters with allocation and freeing; a file as an array of bytes behind a dirty buffer.
- **Kernel memory** (`PhysAlloc`, `Paging`, `PageDirs`, `Zones`, `SharedMem`, `SharedObjects`,
  `HeapPages`, `Ownership`, `KernelRuns`): the frame bitmap, two-level page tables with OWNER bits and a kernel
  half copied into every directory in use, shared objects mapped into many address spaces, and the
  pages behind the heaps. `Ownership` says what it means for the whole to be in order, and `KernelRuns`
  has every operation on it, with the history of states: in every state of every run each frame in
  use has exactly one owner.
- **The split-and-merge heap** of the kernel and of the user library (`Heap`, `Malloc`) and the
  **round-robin scheduler** (`Scheduler`).
- **Library algorithms**: line drawing (`Line`), comb sort (`CombSort`), substring search (`MemMem`),
  printing and parsing numbers (`NumberText`).

`dafny verify dfyconfig.toml` checks the whole project.

## How the model reads the code

- Machine integers are `dword` and `word` where a sum can wrap: in the mount arithmetic, in
  `clst2sect`, in the rounding of a shared-memory size, in the gap of the sort and in the value the
  parser builds. Elsewhere the contracts keep the numbers in range and unbounded integers are used.
- Bit operations of the FAT code are written as division and remainder by powers of two; those of
  the frame bitmap as bit-vectors. A page-table entry is a record of its frame and flag bits.
- One C function with several stages is several methods here; each names its lines below.
- The drive never fails, as the RAM disk never does, so the disk-error exits are not reachable and
  not modelled.
- `kernel_assert` stops the machine. What it demands of a caller is a precondition. Running out of
  frames is an answer instead: the contracts then say that all managed frames are in use.
- A frame that has just been allocated, or is about to be freed, is `Held`; between operations none
  is.

## Where the code does less than its name says

Each of these is proved as an equivalence, with the code as it is.

- `f_getfree` counts entries 0 and 1 on FAT16 and FAT32, and on FAT12 stops at an entry of value 1,
  with an error but with the count so far in the cache. The answer is the number of free clusters
  exactly when the cached count was in range or, on FAT16 and FAT32, both entries are nonzero or, on
  FAT12, no free cluster lies behind an entry of value 1 (`Volume.FatFs.GetFree`,
  `Chains.ScanExactly`; `Chains.HiddenFree` and `Chains.CountsReserved` are tables that fail).
- The name buffer takes 255 characters, but the directory reader gives back at most 253 and the
  search finds at most 254 (`Directory.ReadsBack`, `Directory.FoundExactly`).
- The mount checks sums that may wrap: a mounted volume has a sound layout exactly when none did
  (`Mount.LayoutExactly`, `Mount.WrapBreaksLayout`).
- `sharedmem_destroy` skips the slot behind each mapping it removes: it is complete exactly when no
  pool has two neighbouring mappings of the object (`SharedObjects.SharedMemory.Destroy`,
  `KernelRuns.Kernel.DestroyShared`, `SharedMem.SweptClean`). A size above 0xFFFFF000 makes an object of no pages
  (`SharedObjects.SharedMemory.Create`).
- `sgfx_draw_line` draws 1000 points at most: it ends at the target exactly when the line is at most
  999 moves long (`Line.GraphicsContext.DrawLine`).
- The scheduler's search for a task ends exactly when no other task is alive or some slot is ready
  (`Scheduler.SearchEndsExactly`), and a table where it never ends is reached by creating a task that
  waits (`Scheduler.AllWaiting`, `Scheduler.WaitAtOnce`).
- A task that exits frees the directory that is in CR3. All that is in use stays sound, and CR3 names
  a directory in use exactly when another one was freed (`PageDirs.Memory.FreePageDir`).

## Model

| member | source | states |
|---|---|---|
| `FatTable.DecodeEncode` | kernel/fatfs/fatfs_ff.c:1139-1265 | for FAT12, FAT16 and FAT32: decoding the bytes of an entry after storing a value gives that value at the entry width |
| `FatTable.TopBitsKept` | kernel/fatfs/fatfs_ff.c:1254-1260 | a FAT32 store reads back the low 28 bits and leaves the reserved top four bits as they were |
| `FatTable.StoreIsUpdate` | kernel/fatfs/fatfs_ff.c:1216-1265 | seen as an array of entries, a store of entry c is exactly the update of cell c |
| `FatTable.StoreKeepsOther` | kernel/fatfs/fatfs_ff.c:1229-1241 | every other entry keeps its value, even the FAT12 neighbour that shares a byte |
| `FatTable.EntriesApart` | kernel/fatfs/fatfs_ff.c:1157-1172 | entries share no byte, except a FAT12 pair that begins at an even number |
| `FatTable.EntryInFat` | kernel/fatfs/fatfs_ff.c:1149-1172 | an entry in range lies inside the bytes of the FAT |
| `FatTable.WriteThroughFat` | kernel/fatfs/fatfs_ff.c:1039-1044 | writing a sector of the first FAT with its reflection changes only the FAT copies, keeps them equal and is what a reader of the FAT then sees |
| `FatTable.WriteThroughBytes` | kernel/fatfs/fatfs_ff.c:1039-1044 | the byte view of the FAT after one of its sectors is written |
| `FatTable.SameFat` | kernel/fatfs/fatfs_ff.c:1139-1172 | the entries depend on the sectors of the first FAT alone |
| `Volume.FatFs.Mount` | kernel/fatfs/fatfs_ff.c:3325-3397 | mounting a boot sector that passes the checks, without a 32-bit wrap, gives a valid volume that shows the drive unchanged; the hints are those of the FSInfo sector on FAT32 with sector 1 named and its three signatures right, otherwise unknown |
| `Volume.FatFs.LoadHints` | kernel/fatfs/fatfs_ff.c:3381-3397 | the hints become those of the sector if it has the FSInfo signatures, and stay otherwise |
| `Volume.FatFs.CopiesAgree` | kernel/fatfs/fatfs_ff.c:1039-1044 | while the FAT copies agree for readers, they agree on the drive at every sector except one the window holds unwritten |
| `Volume.FatFs.SyncWindow` | kernel/fatfs/fatfs_ff.c:1032-1050 | the physical drive becomes the logical one, the window is clean, and readers see no change |
| `Volume.FatFs.MoveWindow` | kernel/fatfs/fatfs_ff.c:1054-1075 | the logical drive never changes and the window then shows the requested sector of it |
| `Volume.FatFs.GetFat` | kernel/fatfs/fatfs_ff.c:1139-1206 | the value of the entry in the logical table, 1 for a number out of range, and no change for readers |
| `Volume.FatFs.GetFat12` | kernel/fatfs/fatfs_ff.c:1156-1163 | the FAT12 entry, read byte by byte through a window that may move between its two bytes |
| `Volume.FatFs.GetFat16` | kernel/fatfs/fatfs_ff.c:1165-1168 | the FAT16 entry of the logical table |
| `Volume.FatFs.GetFat32` | kernel/fatfs/fatfs_ff.c:1170-1173 | the FAT32 entry of the logical table without its top four bits |
| `Volume.FatFs.PutFat` | kernel/fatfs/fatfs_ff.c:1216-1265 | the logical table changes in one cell or, out of range, not at all; outside the FAT copies nothing changes and equal copies stay equal |
| `Volume.FatFs.PutFat12` | kernel/fatfs/fatfs_ff.c:1229-1241 | the FAT12 store, also where the entry straddles two sectors |
| `Volume.FatFs.PutFat16` | kernel/fatfs/fatfs_ff.c:1243-1248 | the FAT16 store |
| `Volume.FatFs.PutFat32` | kernel/fatfs/fatfs_ff.c:1250-1261 | the FAT32 store, top four bits kept |
| `Volume.FatFs.ReadSectors` | kernel/driver/ramdisk.c:56-65 | the sectors of the physical drive, one after the other |
| `Volume.FatFs.WriteSectors` | kernel/driver/ramdisk.c:67-74 | data sectors are replaced by the given bytes, on the physical and the logical drive alike |
| `FileView.ClstToSectIs` | kernel/fatfs/fatfs_ff.c:1122-1130 | every cluster number in range gives a sector inside the data area, every other number 0 |
| `Chains.RemoveFromCounts` | kernel/fatfs/fatfs_ff.c:1430-1463 | on any table, cyclic ones included, removal frees as many entries as it says and writes nothing but zeros |
| `Chains.RemoveStep` | kernel/fatfs/fatfs_ff.c:1431-1463 | one pass of removal frees one nonzero entry, which is why the loop ends |
| `Chains.FreeCountUpdate` | kernel/fatfs/fatfs_ff.c:1440-1443 | writing one entry moves the number of free clusters by at most one, and how |
| `Chains.SearchHitUnique` | kernel/fatfs/fatfs_ff.c:1550-1576 | the search for a free cluster has exactly one answer |
| `Chains.StopsExactly` | kernel/fatfs/fatfs_ff.c:1550-1576 | the search stops at a cluster if and only if some cluster is free or invalid, from every start and across the wrap-around |
| `Chains.CreateAllocates` | kernel/fatfs/fatfs_ff.c:1577-1586 | the allocating exit of create_chain meets its specification |
| `Chains.CreateRefuses` | kernel/fatfs/fatfs_ff.c:1511-1522 | the exits of create_chain that change nothing meet its specification |
| `Volume.FatFs.RemoveChain` | kernel/fatfs/fatfs_ff.c:1406-1492 | the table after the call, the cached count and the answer, for every argument and every table |
| `Volume.FatFs.FreeFrom` | kernel/fatfs/fatfs_ff.c:1431-1463 | the loop frees the chain that begins at the cluster, and terminates on every table |
| `Volume.FatFs.CreateChain` | kernel/fatfs/fatfs_ff.c:1501-1592 | the new table, hints and answer for every argument and table; a right free count stays right; only the FAT copies are written |
| `Volume.FatFs.AllocateFrom` | kernel/fatfs/fatfs_ff.c:1548-1592 | the searching and allocating part of create_chain, for every table and every usable start |
| `Volume.FatFs.FindFree` | kernel/fatfs/fatfs_ff.c:1550-1576 | the cluster at which the search stops, or that there is none |
| `Volume.FatFs.SearchFrom` | kernel/fatfs/fatfs_ff.c:1563-1576 | the cyclic part of the search |
| `Volume.FatFs.LinkCluster` | kernel/fatfs/fatfs_ff.c:1577-1581 | the new cluster ends its chain and the old end links to it |
| `Volume.FatFs.GetFree` | kernel/fatfs/fatfs_ff.c:4605-4685 | the answer, the result code and the new cached count for every table; given a right cached count, the answer is the number of free clusters if and only if the cache was in range or, on FAT12, no free cluster lies behind an entry of value 1 or, on FAT16 and FAT32, entries 0 and 1 are both nonzero |
| `Volume.FatFs.CountFree12` | kernel/fatfs/fatfs_ff.c:4628-4635 | the FAT12 scan counts the free clusters up to the first entry of value 1, where it ends with an error |
| `Chains.ScanExactly` | kernel/fatfs/fatfs_ff.c:4628-4635 | the FAT12 scan counts all free clusters if and only if none lies behind an entry of value 1 |
| `Chains.HiddenFree` | kernel/fatfs/fatfs_ff.c:4632-4679 | a FAT12 table with two free clusters of which the scan counts none; with that count cached every request for a cluster is refused as if the volume were full |
| `Tiling.TilesScan` | kernel/fatfs/fatfs_ff.c:4628-4635 | on a well-formed table the FAT12 scan meets no internal-error entry and counts every free cluster |
| `Volume.FatFs.CountFreeWords` | kernel/fatfs/fatfs_ff.c:4658-4676 | the FAT16 and FAT32 scan counts the zero entries, entries 0 and 1 included |
| `Chains.ZerosSplit` | kernel/fatfs/fatfs_ff.c:4658-4676 | zero entries are the free clusters plus the zero ones among entries 0 and 1 |
| `Chains.CountsReserved` | kernel/fatfs/fatfs_ff.c:4658-4676 | a FAT16 table with entry 1 zero, of which the scan counts one cluster too many |
| `Tiling.TilesMeaning` | kernel/fatfs/fatfs_ff.c:1406-1592 | in a well-formed table no cluster has two predecessors and every used entry links to a used cluster or ends a chain |
| `Tiling.StretchTiles` | kernel/fatfs/fatfs_ff.c:1577-1581 | stretching appends one previously free cluster to one chain and leaves the others |
| `Tiling.NewTiles` | kernel/fatfs/fatfs_ff.c:1577-1581 | a new chain takes one previously free cluster |
| `Tiling.RemoveExact` | kernel/fatfs/fatfs_ff.c:1430-1463 | removing a whole chain zeroes exactly its entries |
| `Tiling.TruncateTiles` | kernel/fatfs/fatfs_ff.c:1424-1463 | cutting a chain frees exactly the named tail; the head ends there and other chains stay |
| `Tiling.StepKeepsTiles` | kernel/fatfs/fatfs_ff.c:1406-1592 | every legal call keeps the used clusters a disjoint union of acyclic ended chains, keeps the free count right, and touches one chain |
| `Tiling.RunKeepsTiles` | kernel/fatfs/fatfs_ff.c:1406-1592 | after every call of any run of allocations and removals the table is a disjoint union of acyclic ended chains with a right count, and the chains before and after each call differ in at most one |
| `Tiling.UnnamedSurvives` | kernel/fatfs/fatfs_ff.c:1406-1592 | a chain that no call of a run frees from or stretches is there, cluster by cluster, after every call |
| `Tiling.AllocationComplete` | kernel/fatfs/fatfs_ff.c:1511-1576 | on a well-formed table allocation answers 0 if and only if no cluster is free, and never reports an internal error |
| `Mount.ReservedArea` | kernel/fatfs/fatfs_ff.c:3331-3359 | a volume mounts with one or two FATs, a cluster size that is a power of two, and a number of entries that fits its FAT type |
| `Mount.EntriesInside` | kernel/fatfs/fatfs_ff.c:3363-3374 | the size check admits no volume with an entry outside its FAT, whatever wraps |
| `Mount.LayoutExactly` | kernel/fatfs/fatfs_ff.c:3327-3372 | a volume that mounts has FATs, data and end of volume in order if and only if none of the 32-bit sums wrapped |
| `Mount.WrapBreaksLayout` | kernel/fatfs/fatfs_ff.c:3327-3372 | a concrete boot sector whose doubled FAT size wraps to 0 mounts with the data inside the FAT |
| `Mount.MountedIsOk` | kernel/fatfs/fatfs_ff.c:3325-3374 | without a wrap, on a drive that holds the volume, the layout is the one all other operations rely on |
| `FileObject.Fil.Write` | kernel/fatfs/fatfs_ff.c:3808-3920 | exactly the bytes from the position on are replaced by the first bw bytes of the data; bw is everything, up to 4 GiB less one, unless no cluster is free; errors only on an invalid FAT entry; clusters gained were free; nothing else on the volume changes; FAT copies that agreed still agree |
| `FileObject.Fil.WriteLoop` | kernel/fatfs/fatfs_ff.c:3832-3915 | the loop of f_write keeps the invariant of the open file and writes a prefix of the data; FAT copies that agreed still agree |
| `FileObject.Fil.WritePass` | kernel/fatfs/fatfs_ff.c:3832-3915 | one pass writes the next piece, to the buffer or straight to the drive |
| `FileObject.Fil.EnterForWrite` | kernel/fatfs/fatfs_ff.c:3836-3857 | at the first byte of a cluster the current cluster becomes that of the position, stretching or beginning the chain |
| `FileObject.Fil.WriteDirect` | kernel/fatfs/fatfs_ff.c:3869-3889 | whole sectors written past the buffer, which is refilled when it shows one of them |
| `FileObject.Fil.WritePart` | kernel/fatfs/fatfs_ff.c:3897-3914 | part of a sector written through the buffer |
| `FileObject.Fil.Read` | kernel/fatfs/fatfs_ff.c:3708-3798 | the bytes from the position on, as many as asked for or as the file has left; the content, the FAT and the rest of the volume are unchanged |
| `FileObject.Fil.ReadPass` | kernel/fatfs/fatfs_ff.c:3730-3795 | one pass returns the next bytes of the content |
| `FileObject.Fil.ReadDirect` | kernel/fatfs/fatfs_ff.c:3755-3773 | whole sectors from the drive, a dirty buffered one taken from the buffer |
| `FileObject.Fil.Seek` | kernel/fatfs/fatfs_ff.c:4298-4376 | the bytes of the file never change; inside the file, or without write access, only the position does; otherwise the file grows as far as the volume has room; FAT copies that agreed still agree |
| `FileObject.Fil.FollowClusters` | kernel/fatfs/fatfs_ff.c:4328-4348 | following clusters from wherever the seek begins arrives at the cluster of the target, or at the last one the volume has |
| `FileObject.Fil.SeekFirst` | kernel/fatfs/fatfs_ff.c:4309-4326 | the current cluster or the first one is a right place to seek on from |
| `FileObject.Clipped` | kernel/fatfs/fatfs_ff.c:3827-3830 | what the wrap-around test leaves of a write: all of it, or as much as makes the file one byte short of 4 GiB |
| `FileView.OtherFileKept` | kernel/fatfs/fatfs_ff.c:3808-3920 | whatever a file operation does, every file with other clusters keeps its chain and its content |
| `FileView.GrowFile` | kernel/fatfs/fatfs_ff.c:1501-1592 | what create_chain means for the file whose chain it follows or stretches |
| `FileView.DirectState` | kernel/fatfs/fatfs_ff.c:3869-3889 | whole sectors written past the buffer overwrite exactly those bytes of the file |
| `FileView.PartialState` | kernel/fatfs/fatfs_ff.c:3897-3914 | part of a sector written through the buffer overwrites exactly those bytes |
| `FileView.FlushState` | kernel/fatfs/fatfs_ff.c:3861-3864 | writing the dirty buffer back changes nothing for the file |
| `FileView.RunContent` | kernel/fatfs/fatfs_ff.c:3755-3773 | consecutive sectors of a cluster hold consecutive bytes of the file |
| `FileView.SeekFromHere` | kernel/fatfs/fatfs_ff.c:4310-4314 | for a seek to the same or a later cluster the current cluster is where following from the first would be |
| `FileView.OverwriteTwice` | kernel/fatfs/fatfs_ff.c:3832-3833 | two adjacent overwrites are one, which is how the passes of a write add up |
| `LongNames.PickLfn` | kernel/fatfs/fatfs_ff.c:1896-1925 | accepts an entry if and only if it is well formed and its characters and terminator fit below 255; then they are in place, and nothing outside its slots is touched |
| `LongNames.CmpLfn` | kernel/fatfs/fatfs_ff.c:1860-1888 | accepts an entry if and only if it is well formed and agrees with the name in the buffer up to case |
| `LongNames.PutLfn` | kernel/fatfs/fatfs_ff.c:1934-1959 | writes exactly piece ord of the name, marked as last when the name ends in it, and no other byte of the table |
| `Directory.SumSfn` | kernel/fatfs/fatfs_ff.c:2029-2040 | the checksum of the eleven bytes of a short name |
| `Directory.ChecksumSeparates` | kernel/fatfs/fatfs_ff.c:2029-2040 | short names that differ in exactly one byte have different checksums |
| `Directory.TrackLong` | kernel/fatfs/fatfs_ff.c:2364-2371 | the ordinal and checksum machine: its state stands for an open sequence if and only if there is one |
| `Directory.TrackEnd` | kernel/fatfs/fatfs_ff.c:2372-2376 | at a short entry the machine knows whether a complete long name with its checksum precedes it |
| `Directory.Dir.Read` | kernel/fatfs/fatfs_ff.c:2323-2391 | finds the next short entry; it is reported with a long name if and only if a complete sequence with its checksum precedes it, and then all pieces are in the buffer |
| `Directory.Dir.TakeLong` | kernel/fatfs/fatfs_ff.c:2364-2371 | one long-name entry taken in while reading |
| `Directory.Dir.Find` | kernel/fatfs/fatfs_ff.c:2401-2472 | finds the first entry with the long name sought or the short name; the block offset is the last beginning of a long name before it |
| `Directory.Dir.CompareLong` | kernel/fatfs/fatfs_ff.c:2448-2457 | one long-name entry compared while searching |
| `Directory.LastStartIs` | kernel/fatfs/fatfs_ff.c:2450-2454 | for an entry found by its long name the block offset is where that name begins |
| `Directory.Dir.Next` | kernel/fatfs/fatfs_ff.c:1721-1771 | the next entry of a table, or its end |
| `Directory.Dir.Sdi` | kernel/fatfs/fatfs_ff.c:1673-1712 | selects an entry of a table |
| `Directory.Dir.Alloc` | kernel/fatfs/fatfs_ff.c:1781-1812 | the first block of that many free entries, or that there is none |
| `Directory.Dir.PutPieces` | kernel/fatfs/fatfs_ff.c:2546-2555 | writes all pieces of the name in descending order |
| `Directory.Dir.PutSfn` | kernel/fatfs/fatfs_ff.c:2563-2573 | writes a short entry with nothing but its name and case flags |
| `Directory.Dir.Store` | kernel/fatfs/fatfs_ff.c:2541-2576 | registers the name in the first free block with room, changing nothing else, or reports that there is no such block |
| `Directory.ReadsBack` | kernel/fatfs/fatfs_ff.c:2358-2378 | a written name is recognised, and from its own first entry, if and only if it has at most 253 characters |
| `Directory.PickedIsName` | kernel/fatfs/fatfs_ff.c:1896-1925 | when all pieces are picked the buffer holds the name |
| `Directory.ReadYieldsName` | kernel/fatfs/fatfs_ff.c:2323-2391 | reading a registered name yields the whole name if and only if it has at most 253 characters |
| `Directory.FoundExactly` | kernel/fatfs/fatfs_ff.c:2401-2472 | a registered long name is found under exactly the names equal to it up to case, if and only if it has at most 254 characters |
| `Directory.StoreKeepsOthers` | kernel/fatfs/fatfs_ff.c:2541-2576 | registering a name in free entries leaves every registered name as it is |
| `Directory.StoreKeepsEnd` | kernel/fatfs/fatfs_ff.c:2541-2576 | registering a name in the first free block keeps every used entry before the end mark, the new ones included |
| `Directory.FindsStored` | kernel/fatfs/fatfs_ff.c:2401-2472 | a search from the start of the table finds a name of at most 254 characters that was just registered, at its own entries unless an earlier object answers to it |
| `Directory.ReadsStored` | kernel/fatfs/fatfs_ff.c:2323-2391 | reading on from an entry with only passed-over entries before a name just registered reports it, in full if and only if it has at most 253 characters |
| `Directory.StoreThenFind` | kernel/fatfs/fatfs_ff.c:2541-2576 | registering a name and searching for it, one call after the other |
| `Directory.StoreThenRead` | kernel/fatfs/fatfs_ff.c:2541-2576 | registering a name and reading it back, one call after the other |
| `PhysAlloc.SetBitIs` | kernel/physalloc.c:68-73 | setting or clearing one bit of a byte changes that bit alone |
| `PhysAlloc.OneBit` | kernel/physalloc.c:63-73 | setting or clearing the bit of a frame adds or removes that frame and no other |
| `PhysAlloc.FrameAllocator.First` | kernel/physalloc.c:27 | the first whole bitmap byte at or above the lower bound |
| `PhysAlloc.FrameAllocator.Last` | kernel/physalloc.c:28 | where the managed bytes end: at the upper bound when aligned, otherwise one to two bytes below it |
| `PhysAlloc.FrameAllocator.constructor` | kernel/physalloc.c:15-21 | all frames free, and every managed frame inside the memory given |
| `PhysAlloc.FrameAllocator.Alloc` | kernel/physalloc.c:23-51 | the lowest free managed frame becomes used and the count stays the number of used frames; none if and only if all managed frames are used |
| `PhysAlloc.FrameAllocator.TakeFrom` | kernel/physalloc.c:35-45 | the lowest free frame of a bitmap byte |
| `PhysAlloc.FrameAllocator.Free` | kernel/physalloc.c:53-61 | exactly that frame becomes free |
| `PageDirs.Memory.constructor` | kernel/memory.c:22-42 | after boot: no directory in use, no frame used, no page tables |
| `PageDirs.Memory.MapPage` | kernel/memory.c:81-134 | the page translates to the frame and no other page of any address space changes; a kernel page changes in all of them; a frame owned by the page passes to it; sound worlds stay sound |
| `PageDirs.Memory.MapHere` | kernel/memory.c:99-125 | the mapping in the current directory |
| `PageDirs.Memory.EnsureTable` | kernel/memory.c:109-121 | an absent table is allocated, owned by its entry, and empty, and no translation changes |
| `PageDirs.Memory.UnmapPage` | kernel/memory.c:137-210 | the page translates to nothing and no other page changes; an emptied table and an owned frame are freed |
| `PageDirs.Memory.UnmapHere` | kernel/memory.c:156-199 | the unmapping in the current directory |
| `PageDirs.Memory.SyncPageDirs` | kernel/memory.c:283-295 | the kernel half of every directory in use becomes the boot directory's with the OWNER bit cleared; nothing else changes |
| `PageDirs.Memory.PhysFromVirt` | kernel/memory.c:297-310 | the frame of a mapped page; no answer only when nothing in its slot is mapped |
| `PageDirs.Memory.AllocPageDir` | kernel/memory.c:212-240 | the first unused directory comes into use with an empty user half and the kernel half of the others |
| `PageDirs.Memory.FreePageDir` | kernel/memory.c:242-280 | the directory goes out of use, exactly its tables and the frames they own are free, and no other address space changes, also when it is the current one; CR3 still names a directory in use if and only if it was another |
| `PageDirs.Memory.ChangePageDirectory` | kernel/memory.c:44-52 | with a directory in use in CR3 the address spaces are as they were |
| `PageDirs.Memory.AllocFor` | kernel/physalloc.c:23-51 | a frame that was free gets the given owner |
| `PageDirs.Memory.FreeForeign` | kernel/physalloc.c:53-61 | a frame goes from its owner back to the free ones |
| `Paging.NewTableOwned` | kernel/memory.c:109-121 | installing a table keeps every frame with one owner |
| `Paging.SetPageOwned` | kernel/memory.c:123 | writing a page entry keeps every frame with one owner |
| `Paging.ClearPageOwned` | kernel/memory.c:166-169 | clearing a page entry keeps every frame with one owner |
| `Paging.DropTableOwned` | kernel/memory.c:182-191 | removing an empty table keeps every frame with one owner |
| `Paging.SetPageTranslate` | kernel/memory.c:123 | writing a page entry changes the translation of that page alone |
| `Paging.ClearPageTranslate` | kernel/memory.c:169 | clearing a page entry changes the translation of that page alone |
| `Paging.KernelTranslate` | kernel/memory.c:282-295 | all directories in use translate kernel pages alike |
| `Paging.KernelDone` | kernel/memory.c:127-133 | copying the kernel halves turns a change of the boot directory into the same change everywhere |
| `Paging.UserDone` | kernel/memory.c:81-134 | a change in the user half leaves the kernel halves in step |
| `Paging.Unmapped` | kernel/memory.c:166-199 | after unmapping every frame has one owner and no owned table is present but empty |
| `Paging.TableExactlyWhenUsed` | kernel/memory.c:173-192 | in a sound world a slot of a directory has a table if and only if some page of the slot is mapped |
| `Paging.UnmapUndoesMap` | kernel/memory.c:137-210 | unmapping the page just mapped brings back every translation of every address space, and the tables each directory had |
| `Paging.DirectoryDropped` | kernel/memory.c:242-280 | freeing a directory is sound and invisible to the others |
| `SharedMem.AddedMap` | kernel/sharedmem.c:96-113 | a mapping added behind the last keeps the pool ordered and disjoint and maps exactly the pages of the object |
| `SharedMem.RemovedMap` | kernel/sharedmem.c:115-121 | taking a mapping out keeps the order and unmaps exactly its pages |
| `SharedMem.Apart` | kernel/sharedmem.c:96-113 | no page lies in two mappings of a pool |
| `SharedMem.SweptClean` | kernel/sharedmem.c:61-65 | the loop over a pool removes all mappings of the object if and only if no two of them are neighbours |
| `SharedMem.SweepMissesNeighbour` | kernel/sharedmem.c:61-65 | of two neighbouring mappings the second survives the loop |
| `SharedMem.SweptCount` | kernel/sharedmem.c:61-65 | how many mappings the loop leaves: one for each hit it skips |
| `SharedObjects.SharedMemory.Create` | kernel/sharedmem.c:28-47 | the first free slot gets as many fresh frames as the size needs; the object exists if and only if rounding the size up does not wrap |
| `SharedObjects.SharedMemory.Map` | kernel/sharedmem.c:129-169 | the object is mapped behind the last mapping of the pool, and outside the shared ranges nothing changes |
| `SharedObjects.SharedMemory.InsertIntoPool` | kernel/sharedmem.c:96-113 | the new mapping begins where the last one ends |
| `SharedObjects.SharedMemory.Unmap` | kernel/sharedmem.c:171-215 | the first mapping of the object goes, the others keep their order and their pages |
| `SharedObjects.SharedMemory.RemoveFromPool` | kernel/sharedmem.c:115-121 | one mapping is taken out and the others close up |
| `SharedObjects.SharedMemory.Sweep` | kernel/sharedmem.c:61-65 | the loop of a destroy over one pool |
| `SharedObjects.SharedMemory.Destroy` | kernel/sharedmem.c:49-81 | every pool is swept and the frames are free; the invariant holds afterwards if and only if no pool had two neighbouring mappings of the object |
| `SharedObjects.MapLayout` | kernel/sharedmem.c:129-169 | mapping keeps all pools ordered, disjoint and mapped as they say |
| `SharedObjects.UnmapLayout` | kernel/sharedmem.c:171-215 | unmapping keeps all pools ordered, disjoint and mapped as they say |
| `SharedObjects.DestroyedLayout` | kernel/sharedmem.c:49-81 | what a destroy leaves is in order exactly when every sweep was complete |
| `HeapPages.KernelHeap.ChangeHeapSize` | kernel/kmalloc.c:152-169 | growing maps exactly the new pages to frames that were free and that the heap then owns; the old pages stay |
| `HeapPages.UserHeap.SetEnd` | kernel/userheap.c:13-42 | growing maps exactly the new pages of the current task to distinct frames that were free; nothing else moves |
| `HeapPages.UserHeap.GrowByPage` | kernel/userheap.c:25-32 | one new page, owning its frame |
| `Ownership.OneOwner` | kernel/memory.c:81-280 | each used frame has exactly one owner among OWNER directory entries, OWNER page entries, shared objects and the kernel heap; a free frame has none |
| `Ownership.BootOk` | kernel/memory.c:22-42 | the kernel is in order right after boot |
| `Ownership.NextKeeps` | kernel/memory.c:81-280 | a step that leaves its own part of the address space in order and the other parts alone keeps the whole kernel in order: all pools, the kernel heap, the heap of every task |
| `Ownership.RunOwnership` | kernel/sharedmem.c:28-81 | in every state of a run of such steps each used frame has exactly one owner and no free frame has one |
| `KernelRuns.Kernel.constructor` | kernel/memory.c:22-42 | right after boot the kernel is in order, and its history begins |
| `KernelRuns.Kernel.MapNewPage` | kernel/memory.c:81-134 | mapping a page of a stack, program or library to a new frame is one step of a run that keeps the kernel in order |
| `KernelRuns.Kernel.MapForeignPage` | kernel/graphics.c:30-37 | mapping a page to a frame that is not the page to own is one step of a run that keeps the kernel in order |
| `KernelRuns.Kernel.UnmapPage` | kernel/memory.c:137-210 | unmapping a page is one step of a run that keeps the kernel in order |
| `KernelRuns.Kernel.CreateShared` | kernel/sharedmem.c:28-47 | creating a shared object is one step of a run that keeps the kernel in order |
| `KernelRuns.Kernel.MapShared` | kernel/sharedmem.c:129-169 | mapping a shared object is one step of a run that keeps the kernel in order |
| `KernelRuns.Kernel.UnmapShared` | kernel/sharedmem.c:171-215 | unmapping a shared object is one step of a run that keeps the kernel in order |
| `KernelRuns.Kernel.DestroyShared` | kernel/sharedmem.c:49-81 | destroying a shared object keeps the kernel in order if and only if no pool has two neighbouring mappings of it |
| `KernelRuns.Kernel.GrowKernelHeap` | kernel/kmalloc.c:152-169 | growing the kernel heap is one step of a run that keeps the kernel in order |
| `KernelRuns.Kernel.SetHeapEnd` | kernel/userheap.c:13-42 | moving the heap end of the current task is one step of a run that keeps the kernel in order |
| `KernelRuns.Kernel.StartTask` | kernel/tasks.c:94-105 | a new task gets a directory, an empty heap and a mapped stack, in steps that keep the kernel in order |
| `KernelRuns.Kernel.OpenSpace` | kernel/memory.c:212-240 | the first of these steps |
| `KernelRuns.Kernel.MapStack` | kernel/tasks.c:102-105 | the other steps: sixteen pages of stack, each owning a new frame |
| `KernelRuns.Kernel.EndTask` | kernel/tasks.c:179-215 | ending a task, the running one too, keeps the kernel in order; the run goes on at once if and only if another task was running |
| `KernelRuns.Kernel.SwitchTo` | kernel/memory.c:44-52 | with a directory in use in CR3 the run goes on |
| `KernelRuns.Kernel.Ownership` | kernel/memory.c:81-280 | in every state of every run of these operations each used frame has exactly one owner and no free frame has one |
| `Heap.RealSize` | kernel/kmalloc.c:44-47 | the chunk size: header included, rounded up to 16, and less than 32 bytes more than asked for |
| `Heap.AllocatedIs` | kernel/kmalloc.c:59-90 | allocation adds exactly one block of the rounded size and keeps the heap canonical |
| `Heap.LiveDisjoint` | kernel/kmalloc.c:49-93 | blocks in use never overlap |
| `Heap.LiveInside` | kernel/kmalloc.c:49-93 | blocks in use are 16-aligned and inside the chunks |
| `Heap.MergedLive` | kernel/kmalloc.c:114-146 | merging leaves every block in use where it is |
| `Heap.MergedCanonical` | kernel/kmalloc.c:114-146 | after merging no two free chunks are neighbours and none stands before the end mark |
| `Heap.FreedLive` | kernel/kmalloc.c:99-112 | freeing takes exactly one block out of use |
| `Malloc.Arena.constructor` | kernel/kmalloc.c:28-38 | an empty heap is one end mark |
| `Malloc.Arena.Allocate` | userspace/api/src/malloc.c:55-110 | first fit: one block of the rounded size is added, the tiling stays canonical, and no word of a block in use is written |
| `Malloc.Arena.FindFit` | kernel/kmalloc.c:49-66 | the first chunk that fits, or the end mark; the heap grows as far as the search has to look |
| `Malloc.Arena.TakeAt` | kernel/kmalloc.c:59-90 | the header writes of an allocation |
| `Malloc.Arena.FreeBlock` | userspace/api/src/malloc.c:112-124 | exactly that block goes out of use, a free chunk stays free, and no word of the other blocks is written |
| `Malloc.Arena.MergeFreeChunks` | userspace/api/src/malloc.c:126-158 | the chunks become the merged ones; both loops end; blocks in use are untouched |
| `Malloc.Arena.Swallow` | kernel/kmalloc.c:121-139 | the inner loop of merging |
| `Scheduler.TaskTable.constructor` | kernel/tasks.c:30-42 | one task, idling in slot 0 |
| `Scheduler.TaskTable.CreateTask` | kernel/tasks.c:157-163 | the first free slot becomes a ready task with the id of the slot, and the count stays the number of tasks alive |
| `Scheduler.TaskTable.KillTask` | kernel/tasks.c:179-215 | the task goes and the count with it; the root task and dead slots stay |
| `Scheduler.TaskTable.SetState` | kernel/events.c:94 | a task begins to wait or becomes ready |
| `Scheduler.TaskTable.ChooseNextTask` | kernel/tasks.c:217-234 | the first ready slot behind the current one, cyclically, or slot 0 when no other task is alive |
| `Scheduler.TaskTable.Schedule` | kernel/tasks.c:236-249 | that slot becomes the current one |
| `Scheduler.PickApproaches` | kernel/tasks.c:217-234 | a pick brings the scheduler nearer to any ready slot |
| `Scheduler.BoundedWaiting` | kernel/tasks.c:217-249 | a slot that stays ready is picked within 64 calls, whatever happens to the other tasks in between |
| `Scheduler.NoneTwice` | kernel/tasks.c:217-249 | no other slot is picked twice before it |
| `Scheduler.SearchNeverEnds` | kernel/tasks.c:225-232 | without a ready slot every probe of the search fails |
| `Scheduler.SearchEndsExactly` | kernel/tasks.c:217-234 | a call of the scheduler answers if and only if no other task is alive or some slot is ready |
| `Scheduler.AllWaiting` | kernel/tasks.c:217-234 | with one more task alive that waits the table is in order and the search never ends |
| `Scheduler.WaitAtOnce` | kernel/events.c:92-97 | that table is reached by creating a task that begins to wait |
| `Line.GraphicsContext.Pixel` | sgfx/sgfx.c:169-175 | sets one pixel; points outside the frame are ignored |
| `Line.GraphicsContext.DrawLine` | sgfx/sgfx.c:177-198 | draws exactly the points of the line, at most 1000, and ends at the target if and only if it is at most 999 moves long |
| `Line.MoveIs` | sgfx/sgfx.c:188-196 | with the error of point k the two tests move exactly to point k + 1 |
| `Line.HalfPixel` | sgfx/sgfx.c:177-198 | every point is within half a pixel of the ideal line |
| `Line.ReachesTarget` | sgfx/sgfx.c:177-198 | the point after max(dx, dy) moves is the target |
| `Line.DrawnExactly` | sgfx/sgfx.c:177-198 | a pixel has the colour of the line exactly where one of the points is, and is unchanged elsewhere |
| `CombSort.GapShrinks` | userspace/libc/src/qsort.c:12-21 | the gap strictly shrinks until it is 1, despite the jump to 11 |
| `CombSort.SwapRemovesOne` | userspace/libc/src/qsort.c:38-44 | swapping neighbours in the wrong order takes away exactly one inversion |
| `CombSort.Pass` | userspace/libc/src/qsort.c:38-44 | one pass permutes the array; without a swap it is in order at that gap, and with gap 1 a swap lowers the inversions |
| `CombSort.Sort` | userspace/libc/src/qsort.c:23-46 | terminates and returns a sorted permutation, for any total preorder |
| `MemMem.Search` | userspace/libc/src/memmem.c:14-52 | the first occurrence of a non-empty needle, none if and only if there is none |
| `MemMem.SkipAfterMismatch` | userspace/libc/src/memmem.c:35-36 | the shift after a mismatch of the second byte passes over no occurrence |
| `MemMem.SkipAfterMatch` | userspace/libc/src/memmem.c:37-42 | the shift after a match of the second byte passes over no occurrence |
| `NumberText.Ui2a` | userspace/libc/src/tinyprintf.c:106-123 | the numeral of the number without leading zeros, with its terminator, inside the 12-byte buffer |
| `NumberText.Putchw` | userspace/libc/src/tinyprintf.c:170-217 | sign, prefix and digits, filled up on the left with spaces, or with zeros behind the prefix |
| `NumberText.FillLeft` | userspace/libc/src/tinyprintf.c:174-185 | how much fill the width leaves |
| `NumberText.Strntoumax` | userspace/libc/src/strntoumax.c:25-77 | white space, sign, base prefix and digits, in 64-bit arithmetic |
| `NumberText.TakeDigits` | userspace/libc/src/strntoumax.c:67-71 | the value of the longest run of digits, modulo 2 to the 64 |
| `NumberText.DigitBack` | userspace/libc/src/strntoumax.c:12-23 | reading a printed digit gives its value |
| `NumberText.RoundTrip` | userspace/libc/src/strntoumax.c:25-77 | what was printed is read back as the same number with the whole text used up, for every width, fill, prefix and base |
| `NumberText.PrintUnsigned` | userspace/libc/src/tinyprintf.c:271-311 | printing then parsing is the identity on 32-bit numbers in base 8, 10 and 16, and in base 0 with the alternate prefix |
| `NumberText.PrintSigned` | userspace/libc/src/tinyprintf.c:125-132 | printing then parsing is the identity on 32-bit signed numbers other than the smallest |

## Left out

- exFAT, fast seek, file locks and UTF-8 paths: compiled out. `f_mkfs` and `f_fdisk`: formatting code with little invariant structure.
- `f_open`, `f_close`, `f_sync`, `f_truncate`, `f_unlink`, path walking, short-name generation and volume labels: above the layer modelled here. A file object starts with a chain that holds its bytes and with a window that shows none of its sectors, nor one it may be given; the operations keep that.
- Several files open at once: one file object at a time is modelled; `FileView.OtherFileKept` says what it leaves alone.
- `sync_fs`, which writes the allocation hints back to FSInfo: the hints are fields here, and `fsi_flag` is reduced to whether they are to be written.
- `validate`, the volume lock and the mount identifier: a file object always belongs to its mounted volume.
- `check_fs`, the partition table and drive numbers: mounting begins with the sector of the boot record.
- Directory.Dir.Next: the directory is the table of entries its sectors form, behind a window that is proved transparent; following its clusters and stretching it are not modelled.
- Directory.Dir.Sdi: the same; an offset is looked up in the table, not along a cluster chain.
- Directory.Dir.Alloc: the same; a full directory is not stretched.
- Directory.Dir.Store: the same; a full directory answers that there is no room.
- The code-page tables and upper-casing: a function of one character that maps only the terminator to the terminator.
- `mem_num_vpages`, TLB invalidation, port I/O, interrupts and the context switch: hardware effects and counters. The current directory is a field.
- Frame contents other than page tables, so the clearing of new user pages: the model says which frames are mapped, not what is in them.
- Directory slot 1023 and 4 MB entries: the former maps the directory itself, the latter come from the boot code and are never mapped over.
- PageDirs.Memory.MapPage: not over a page that is already present, whose owned frame would leak; the callers do not do it.
- PageDirs.Memory.MapHere: the same.
- PageDirs.Memory.FreePageDir: not the boot directory, which kernel tasks share; each entry is cleared as its frame is freed, not all of them afterwards.
- PhysAlloc.FrameAllocator.constructor: memory sizes whose frames fit the bitmap.
- SharedObjects.SharedMemory.Map: not past the end of the range of the pool; the code does not check this.
- KernelRuns.Kernel.EndTask: the objects a task owns are destroyed by calls of their own; the owner of an object is not modelled.
- KernelRuns.Kernel.MapNewPage: the segments of a program and of libraries are pages mapped one by one; `elf.c` and `slib.c` decide which.
- Line.GraphicsContext.DrawLine: lines whose two extents add up to less than 2 to the 30; the error of longer ones could overflow.
- HeapPages.KernelHeap.ChangeHeapSize: growing only, as its callers do; the code notes a smaller size without unmapping anything.
- HeapPages.UserHeap.SetEnd: ends up to the stack; the code does not check this.
- The kernel-heap array that holds the frames of a shared object: a list here. Shared memory of kernel tasks in user ranges: they share one directory and do not map any.
- The debug system call, which takes a frame for nobody.
- Malloc.Arena.Allocate: requests that fit behind the last chunk inside the reserved range; `threshold`, which only feeds a statistic, is left out. Only the header words are modelled, so a word of a payload is any word at its offset.
- Malloc.Arena.FreeBlock: addresses that were handed out, freed already or not.
- Scheduler.TaskTable.KillTask: identifiers of table slots; freeing the task's memory is in `PageDirs`, and the interrupt nesting of the early returns is left out.
- The file, event, timer and library fields of a task.
- NumberText.PrintSigned: not the smallest integer, whose negation overflows.
- CombSort.Sort: the comparison function orders all elements totally; elements are values, not bytes.
- An empty needle, which `memmem` never finds.
- `vsscanf`, floating point, the arena allocator behind `os_malloc`, the GUI, the shell and the applications.
