# HrafnOS in Dafny

A model of the stateful cores of the HrafnOS kernel and of its shell's path handling, with proofs of
what they keep and compute.

* **munin**, the in-RAM filesystem: inode table, block bitmap, direct and single-indirect pointers,
  directories, paths, offset reads and writes, the sector image, and the descriptor layer above it
  (`Bytes`, `MuninState`, `MuninBlocks`, `MuninFiles`, `MuninReplace`, `MuninTree`, `MuninNames`,
  `MuninOps`, `MuninPaths`, `MuninData`, `Munin`, `MuninImage`, `MuninDisk`, `Vfs`). `Munin.Filesystem`
  has the kernel's arrays and loops; each method is proved to reach exactly the state of a function
  on values, and the laws are proved about those functions. The invariant (`MuninOps.Inv`) says that
  every set bitmap bit has exactly one owning pointer and every owned block its bit, that bytes beyond
  a file's size are zero, and that the directories form a tree in which each live inode has one name.
* **Memory and processes**: the frame allocator (`Pmm`), four-level page tables with the processor's
  walk (`PageTables`, `Translations`, `Vmm`), the kernel's own mappings (`KernelMap`), deep clone
  (`VmmClone`), program loading (`Elf`) and its arguments (`ExecArgs`), the kernel heap (`Heap`), and
  the scheduler's ring with spawn, fork, exec, wait, exit and reaping (`SchedRing`, `Sched`), from the
  state that start-up builds (`Boot`). `Sched.Scheduler.Valid` is kept by every operation, so what
  `FramesAccounted` and `HeapAccounted` say holds over every run.
* **The line rasteriser** (`GfxLine`) and **the shell's path normaliser** (`ShellPath`).

How the state is represented: physical memory is an array of 4 KiB frames, each typed as a table of
512 entries or as a page of bytes; an entry is a frame number and its twelve low flag bits. Ghost maps
name the space and indices each frame serves. Heap headers live in a map from address to header.
Tasks are objects that are never reused, each with the register frame it will resume with. The disk
is an array of 512-byte sectors that always succeeds. Addresses are unbounded except where a sum or a
bit width matters, and there the wrap is written out or excluded by a precondition.

Where the code and its comments disagree, the model follows the code:

* The comment on `munin_read_inode` promises up to `len` bytes from `offset`; the code stops at byte
  4096, while writes go on through the indirect block (`MuninData.ReadDeliversAllExactly`,
  `MuninData.WrittenButNotRead`).
* The comment on `munin_read` promises up to `len` bytes of the file; the code stops at the first
  hole (`Munin.Filesystem.Read`, `MuninData.HoleStopsRead`).
* `kmalloc` rounds the size up in 64 bits; above 2^64 - 8 that wraps to 0, and the block handed out is
  smaller than asked (`Heap.AllocLaw`, `Heap.WrappedRequest`).

Preconditions taken from what the code leaves unchecked: a frame for every page and missing table, and
heap, where allocation failure goes unnoticed (`next_table`, `elf_load`, clone, task creation), counted
exactly, a table shared by pages once; page-disjoint loadable segments below 2^48 and at or above 2^39
that stay inside the file and clear of the user stack; only live allocations freed; path buffers that
fit 128 bytes; line spans up to 715827883; the boot task neither dies, sleeps nor forks.

## Model

| member | source | states |
|---|---|---|
| `MuninBlocks.BlockForInv` | kernel/munin.cpp:59-94 | block_for with alloc keeps ownership exact, out of space included: each set bit has one owner, each owned block its bit; a block handed out belongs to that place, new data blocks read as zeros, and every other file and byte is unchanged |
| `MuninBlocks.BlockForLowest` | kernel/munin.cpp:27-94 | a block given to a file was free, and no lower one is left free |
| `MuninFiles.BlockForTwice` | kernel/munin.cpp:59-94 | asking twice is asking once, whether or not space was left |
| `Munin.Filesystem.AllocBlock` | kernel/munin.cpp:27-35 | returns the lowest free block and sets exactly its bit, or -1 and nothing when all are used |
| `Munin.Filesystem.FreeBlock` | kernel/munin.cpp:37-39 | clears exactly that block's bit |
| `Munin.Filesystem.AllocInode` | kernel/munin.cpp:41-53 | the lowest free inode becomes an empty one of the given type, every other inode untouched |
| `Munin.Filesystem.FindBlock` | kernel/munin.cpp:59-94 | block_for without alloc returns direct pointer b for b < 8, word b - 8 of the indirect block up to 136, and NO_BLOCK without an indirect block or out of range |
| `Munin.Filesystem.AllocateBlock` | kernel/munin.cpp:59-94 | the in-place allocation, indirect block included, reaches exactly the state and block of the specification whose laws are BlockForInv |
| `Munin.Filesystem.FreeInodeBlocks` | kernel/munin.cpp:260-275 | the in-place loops over direct and indirect pointers release exactly the inode's blocks and empty it |
| `MuninReplace.FreeInodeInv` | kernel/munin.cpp:260-275 | freeing an inode's blocks keeps ownership exact, disowns exactly that inode's blocks, leaves every other file's bytes alone, and the file then reads as zeros with no pointers |
| `MuninReplace.FreeCount` | kernel/munin.cpp:27-39 | free blocks plus owned blocks are always all 512 |
| `MuninReplace.OthersOwnTheSame` | kernel/munin.cpp:387-412 | whatever happens to one file's blocks, every other file owns the blocks it owned |
| `Bytes.BitsDetermine` | kernel/munin.cpp:22 | two bytes with the same eight bits are equal, so a bitmap is determined by which blocks are marked |
| `Bytes.UnmarkMark` | kernel/munin.cpp:27-39 | freeing a block right after allocating it gives back the same bitmap byte for byte |
| `Bytes.BitWeights` | kernel/munin.cpp:22 | bit k of a byte has the weight 2^k: the byte is the sum of the weights of its set bits |
| `Bytes.LittleEndian` | kernel/munin.cpp:83-92 | a stored 32-bit word has its k-th digit to base 256 at its k-th byte |
| `MuninFiles.WriteAllInv` | kernel/munin.cpp:387-412 | a write of any length keeps ownership exact, writes a prefix of the data and nothing else, and comes up short only at the capacity or when no block is free |
| `MuninFiles.WriteChunk` | kernel/munin.cpp:400-408 | copying a chunk within one block is that many single-byte writes, so the block loop refines the byte-at-a-time one |
| `MuninFiles.WriteAllConcat` | kernel/munin.cpp:387-412 | writing a + b is writing a and, if all of it fitted, b behind it |
| `MuninFiles.WriteInodeBytes` | kernel/munin.cpp:387-412 | exactly bytes [offset, offset + written) of the file's zero-padded byte function change, every other file and directory is unchanged, and the size becomes the larger of the old one and the end of the write |
| `MuninFiles.WriteInodeEffect` | kernel/munin.cpp:387-412 | the contents become the old ones spliced with the data, gaps reading as zeros; bytes beyond the size stay zero |
| `MuninFiles.ShortWriteStuck` | kernel/munin.cpp:398-409 | after a write that ran out of room a further write at the cursor writes nothing |
| `MuninFiles.CursorLaw` | kernel/vfs.cpp:62-71 | two writes through one cursor leave the same filesystem and count as one write of the concatenation, even out of space |
| `MuninFiles.CursorLawMany` | kernel/vfs.cpp:62-71 | any non-empty sequence of writes through one cursor equals one write of the concatenation, cursor included |
| `MuninData.WriteInodeLaw` | kernel/munin.cpp:387-412 | on every reachable filesystem: the whole invariant and every resolution are kept, -1 exactly for a non-file or an offset past the capacity, otherwise the splice |
| `MuninData.OneByteWritten` | kernel/munin.cpp:387-412 | with two free blocks a byte can be written anywhere below the capacity, and no other logical block of the file appears |
| `MuninData.ClampedWrite` | kernel/munin.cpp:392-394 | the clamp of len never changes what is written, so the 32-bit wrap of offset + len is harmless |
| `Munin.Filesystem.WriteInode` | kernel/munin.cpp:387-412 | the block-wise in-place loop, with its wrapping 32-bit clamp, reaches exactly the state and count of that specification, for every 32-bit length |
| `MuninReplace.AppendSucceeds` | kernel/munin.cpp:279-305 | filling a dense file succeeds exactly when the free blocks cover the data and pointer blocks still needed |
| `MuninReplace.WriteFileSucceedsExactly` | kernel/munin.cpp:279-305 | munin_write succeeds exactly when free blocks plus the file's own cover ceil(len / 512), plus one indirect block beyond eight; on success the contents are the data without holes, on failure the file is empty and its blocks are back in the pool |
| `MuninData.WriteFileLaw` | kernel/munin.cpp:279-305 | the same on every reachable filesystem, with the whole invariant and every resolution kept, and -1 with no change for a non-file or more than 69632 bytes |
| `Munin.Filesystem.Write` | kernel/munin.cpp:279-305 | munin_write in place is exactly that replacement of the file the path resolves to |
| `MuninData.TruncateLaw` | kernel/munin.cpp:345-351 | truncation empties a file, returns exactly its blocks, and keeps everything else |
| `Munin.Filesystem.Truncate` | kernel/munin.cpp:345-351 | munin_truncate in place is exactly that truncation |
| `Munin.Filesystem.Read` | kernel/munin.cpp:309-329 | munin_read delivers the file's bytes from its start up to min(size, len) or the first hole, whichever comes first, and touches no other byte of the buffer; no block it passes is missing, cut short it stops at the start of a missing one, and it delivers all min(size, len) bytes exactly when no block below them is missing |
| `MuninData.HoleStopsRead` | kernel/munin.cpp:307-329 | the failing case: one byte written at offset 512 of an empty file makes it 513 bytes long, and munin_read of any length returns 0 |
| `Munin.Filesystem.WriteThenRead` | kernel/munin.cpp:279-329 | after a successful munin_write of data, munin_read of m bytes returns exactly its first min(len, m) bytes |
| `Munin.Filesystem.ReadInode` | kernel/munin.cpp:355-382 | delivers the file's bytes from offset, holes as zeros, clipped to size and to byte 4096, and no other byte of the buffer changes |
| `MuninData.ReadCursorLaw` | kernel/vfs.cpp:51-60 | any sequence of reads through one cursor concatenates to one read of the total length |
| `MuninData.ReadDeliversAllExactly` | kernel/munin.cpp:353-382 | munin_read_inode returns all the bytes its comment promises exactly when the request stays below byte 4096, is empty, or starts at or past the end |
| `MuninData.WrittenButNotRead` | kernel/munin.cpp:370-370 | the failing case, on every reachable filesystem with two free blocks: one byte written at offset 4096 is in the file, and reading it back returns nothing |
| `Munin.Filesystem.Type` | kernel/munin.cpp:335-338 | the inode's type, -1 out of range |
| `Munin.Filesystem.Size` | kernel/munin.cpp:340-343 | the inode's size, -1 out of range |
| `MuninNames.EntryPutGet` | kernel/munin.cpp:131-135 | an entry written into a directory block reads back with its inode and its name |
| `MuninNames.EntryLayout` | kernel/munin.cpp:14-17 | entry k of a directory block lies at byte 36 * k: the inode number in four bytes, then the name and its NUL; the other entries' bytes stay |
| `MuninNames.AddFromEffect` | kernel/munin.cpp:114-142 | a successful add_dirent fills exactly one slot of the directory, the lowest empty one from the given block on; a failed one leaves every entry of every directory as it was, grown block or not |
| `MuninNames.AddedKeepsTree` | kernel/munin.cpp:114-142 | adding a fresh name for a fresh inode keeps the directories a tree with distinct names and sizes equal to the occupied slots |
| `Munin.Filesystem.AddDirent` | kernel/munin.cpp:114-142 | the in-place loops, growth included, reach exactly the specified state and answer |
| `Munin.Filesystem.DirLookup` | kernel/munin.cpp:98-111 | returns the child the directory names, -1 if it names none |
| `Munin.Filesystem.MatchName` | kernel/munin.cpp:105-107 | the byte comparison accepts exactly equal names |
| `MuninTree.ResolveFindsPath` | kernel/munin.cpp:196-219 | every live inode is found under its own path |
| `MuninTree.ResolveIsInverse` | kernel/munin.cpp:196-219 | a component sequence resolves to an inode exactly when it is that inode's path: resolution is a finite map and its inverse |
| `MuninTree.SameDirsKeepsTree` | kernel/munin.cpp:196-219 | the tree and its map depend only on the directories' entries |
| `MuninTree.FileChangeKeepsTree` | kernel/munin.cpp:387-412 | changing one file's blocks keeps the tree and every resolution |
| `Munin.Filesystem.ResolveN` | kernel/munin.cpp:196-219 | the in-place walk over the bytes of a path returns what the tree says about its components, and -1 for a path without a leading slash |
| `MuninPaths.ComponentsSplit` | kernel/munin.cpp:196-214 | cutting a path at any slash cuts its component sequence there |
| `MuninPaths.OneComponent` | kernel/munin.cpp:196-214 | a path without a slash is one component, itself; with the cut at slashes this fixes the components of every path |
| `MuninPaths.PathParts` | kernel/munin.cpp:221-240 | the parent part and last name that create and unlink cut out are exactly the components split before the last, repeated and trailing slashes included |
| `MuninOps.FormattedInv` | kernel/munin.cpp:144-150 | a fresh filesystem satisfies the invariant and resolves the root and nothing else |
| `Munin.Filesystem.Init` | kernel/munin.cpp:144-150 | formatting arrays with any contents gives a well-formed empty filesystem, fields of free inodes left as they were |
| `MuninOps.CreateInserts` | kernel/munin.cpp:152-167 | a successful create is exactly one insertion into the map from paths to inodes, of a free inode, and no other inode changes |
| `MuninOps.CreateFillsSlot` | kernel/munin.cpp:41-167 | what is created is the lowest free inode, of the given kind, empty and without blocks; its name goes into the lowest empty slot of the directory, and no other slot changes |
| `MuninOps.CreateFails` | kernel/munin.cpp:152-167 | a failed create changes nothing that can be observed and keeps the invariant |
| `MuninOps.CreateSucceedsExactly` | kernel/munin.cpp:152-167 | create succeeds exactly for a directory, a name of 1 to 31 bytes not in it, a free inode, and a free slot or a free block for one |
| `Munin.Filesystem.CreateIn` | kernel/munin.cpp:152-167 | munin_create in place is exactly that creation |
| `MuninPaths.CreatePathInserts` | kernel/munin.cpp:221-244 | munin_create_path inserts exactly the path's component sequence, or changes nothing observable; it succeeds exactly under the stated conditions |
| `MuninPaths.CreatePathSucceedsExactly` | kernel/munin.cpp:221-244 | munin_create_path succeeds exactly for an absolute path that does not exist, whose last name has at most 31 bytes and whose parent is a directory with room, while an inode is free |
| `MuninOps.RoomExactly` | kernel/munin.cpp:114-142 | room for a name: the block of the lowest empty slot is there, or some block is free |
| `Munin.Filesystem.CreatePath` | kernel/munin.cpp:221-244 | munin_create_path in place is exactly that, and keeps the invariant |
| `MuninOps.UnlinkDeletes` | kernel/munin.cpp:445-480 | a successful unlink is exactly one deletion from the map, of a file or empty directory, and returns exactly its blocks |
| `MuninOps.UnlinkEmptiesSlot` | kernel/munin.cpp:445-480 | the unlinked name's slot is empty afterwards, and every other slot of the directory holds the entry it held |
| `MuninOps.UnlinkSucceedsExactly` | kernel/munin.cpp:445-480 | unlink succeeds exactly when the path names something with nothing below it; otherwise it changes nothing at all |
| `MuninOps.EmptyExactly` | kernel/munin.cpp:469-470 | the size test for an empty directory is right: size 0 exactly when no path goes through it |
| `MuninPaths.UnlinkPathDeletes` | kernel/munin.cpp:445-480 | munin_unlink deletes exactly the path's component sequence, or changes nothing; the root cannot go |
| `MuninPaths.UnlinkPathSucceedsExactly` | kernel/munin.cpp:445-480 | munin_unlink succeeds exactly for an absolute path other than the root that exists and has nothing below it |
| `Munin.Filesystem.Unlink` | kernel/munin.cpp:445-480 | munin_unlink in place is exactly that, and keeps the invariant |
| `MuninTree.ListingCovers` | kernel/munin.cpp:418-440 | enumerating a directory by index meets every entry |
| `MuninTree.ListingEnds` | kernel/munin.cpp:418-440 | and answers 0 exactly from index size on |
| `Munin.Filesystem.Dirent` | kernel/munin.cpp:418-440 | munin_dirent delivers the index-th occupied slot's name, cut to the buffer, and its kind; 0 past the end with the buffer untouched |
| `MuninImage.DecodeEncode` | kernel/munin.cpp:531-562 | an inode's 44 bytes on disk decode to the same inode |
| `MuninImage.ImageLayout` | kernel/munin.cpp:486-545 | where everything lies on a flushed disk: the superblock's words, each field of each inode at its byte of the table from sector 1 on, bit b % 8 of byte b / 8 of sector 12 for block b, and block b in sector 13 + b |
| `MuninDisk.WriteBytes` | kernel/munin.cpp:503-515 | writes the bytes over consecutive sectors, pads the last one with zeros, and touches no other sector |
| `MuninDisk.ReadBytes` | kernel/munin.cpp:517-528 | reads back exactly the bytes that lie on consecutive sectors |
| `MuninDisk.Flush` | kernel/munin.cpp:531-545 | afterwards the disk holds superblock, inode table, bitmap and every used block, whatever it held before; sectors of unused blocks and beyond the image are untouched |
| `MuninDisk.Mount` | kernel/munin.cpp:549-562 | true exactly for a superblock with the magic number, version 2, 128 inodes and 512 blocks; then inodes, bitmap and used blocks are those on disk, else RAM is unchanged |
| `MuninImage.LoadRestores` | kernel/munin.cpp:531-562 | mounting a flushed image over any RAM restores inode table, bitmap and used blocks |
| `MuninImage.PersistenceRoundTrip` | kernel/munin.cpp:531-562 | flush then mount keeps the invariant, every resolution and every live inode's view |
| `MuninDisk.FlushThenMount` | kernel/munin.cpp:531-562 | munin_flush, then munin_mount into RAM that held anything: the mount succeeds and the filesystem there is well formed, with the same inodes, the same resolution of every path and the same contents |
| `Vfs.OpenedFile` | kernel/vfs.cpp:6-41 | what open does to the filesystem, for all flags: it finds an inode exactly when the path resolves or may be and can be created; a created file is empty, a file opened with O_TRUNC is emptied, a directory is left as it is; the path then resolves to the inode found, no other path changes its meaning and no other file its contents |
| `Vfs.Descriptors.Open` | kernel/vfs.cpp:6-41 | the lowest free slot from 3 on gets the inode, the cursor at the file's size for O_APPEND and at 0 otherwise and for a directory; -1 exactly when no inode is found or the table is full, and then the table stays |
| `Vfs.Descriptors.Close` | kernel/vfs.cpp:43-49 | frees exactly that slot; -1 for a descriptor that is not open |
| `Vfs.Descriptors.Read` | kernel/vfs.cpp:51-60 | reads at the cursor and advances it by what was read; the rest of the buffer, the table and the filesystem stay |
| `Vfs.Descriptors.Write` | kernel/vfs.cpp:62-71 | writes at the cursor and advances it by what was written; -1 leaves everything alone |
| `Vfs.Descriptors.OpenToAppend` | kernel/vfs.cpp:6-71 | a file opened with O_APPEND and written through the new descriptor is its old contents followed by the data stored |
| `Vfs.Descriptors.Readdir` | kernel/vfs.cpp:73-79 | the index-th occupied entry of an open directory, name and kind, 0 past the end; negative exactly for what is not an open directory |
| `Pmm.FrameAllocator.constructor` | kernel/pmm.cpp:61-102 | a frame is free exactly when it lies wholly inside an available region and touches none of the low 1 MiB, the kernel image and the bitmap; the counter is the number of set bits |
| `Pmm.FreeAtBootExactly` | kernel/pmm.cpp:61-102 | the same by address: a frame is free exactly inside a region of type 1, at or above 1 MiB, off the image [2 MiB, end) and off the bitmap on the page boundary behind it |
| `Pmm.FrameAllocator.MarkUsed` | kernel/pmm.cpp:36-42 | marks exactly the frames that share a byte with the range, each counted once |
| `Pmm.FrameAllocator.MarkFree` | kernel/pmm.cpp:44-50 | frees exactly the frames wholly inside the range |
| `Pmm.FrameAllocator.AllocFrame` | kernel/pmm.cpp:104-113 | hands out the lowest free frame and sets exactly its bit, 0 only when none is free; never the frame at address 0 |
| `Pmm.FrameAllocator.FreeFrame` | kernel/pmm.cpp:115-121 | a frame in use, at any address, becomes free and the counter stays exact; a free or out-of-range frame is ignored; the low megabyte stays reserved if the address lies above it |
| `Pmm.CountAfterChange` | kernel/pmm.cpp:36-50 | changing one bit moves the count of set bits by exactly that bit |
| `PageTables.IndicesOfAddress` | kernel/vmm.cpp:10-13 | the address rebuilt from four indices has those indices |
| `PageTables.IndicesExactly` | kernel/vmm.cpp:10-13 | the indices count 512 GiB, 1 GiB, 2 MiB and 4 KiB, nine bits each, and the lowest twelve bits do not matter |
| `PageTables.IndicesInjective` | kernel/vmm.cpp:10-13 | different pages below 2^48 differ in an index |
| `PageTables.FourLevels` | kernel/vmm.cpp:32-37 | four present entries in a row, none a huge page, translate to the last one's frame and flags, with the rights all four grant |
| `PageTables.AddChildInv` | kernel/vmm.cpp:21-37 | linking a fresh frame at an empty entry, or replacing a leaf, keeps the tables a tree per space whose frames have one owner each |
| `PageTables.OpenInv` | kernel/vmm.cpp:28-28 | OR-ing the user bit into an existing entry keeps them well formed |
| `PageTables.AddRootInv` | kernel/vmm.cpp:48-52 | a new root sharing the kernel's first entry keeps them well formed and disturbs no entry |
| `PageTables.RemoveSpaceInv` | kernel/vmm.cpp:79-88 | dropping a whole space keeps them well formed and disturbs no entry of another space |
| `PageTables.BootInv` | kernel/vmm.cpp:125-134 | the kernel space of vmm_init is well formed |
| `PageTables.BootWalk` | kernel/vmm.cpp:125-134 | the boot tables map the first GiB onto itself in 2 MiB pages, closed to user mode, and nothing else |
| `Translations.WalkFindsPages` | kernel/vmm.cpp:15-37 | the processor's walk (Intel SDM Vol. 3A, section 4.5) finds exactly the pages of a space's tree, and the user and writable rights left after four levels (section 4.6) are the leaf's own bits |
| `Translations.KernelRegionAgrees` | kernel/vmm.cpp:48-52 | below 2^39 every space translates every address as the kernel does |
| `Translations.KernelHalfClosed` | kernel/vmm.cpp:48-52 | in every reachable state, below 2^39 no walk of any space grants user mode anything |
| `Translations.MapIsPointUpdate` | kernel/vmm.cpp:32-46 | map_in changes the translation of the one page, from 2^39 on in the one space, below it in every space at once, and of no other page of any space |
| `Vmm.AddressSpaces.constructor` | kernel/vmm.cpp:125-134 | vmm_init builds a kernel space from three fresh frames, every used frame accounted for; the processor finds the first GiB mapped onto itself and nothing else |
| `Vmm.AddressSpaces.AllocTable` | kernel/vmm.cpp:15-19 | a free frame, now all zero entries and accounted for |
| `Vmm.AddressSpaces.NextTable` | kernel/vmm.cpp:21-30 | the next level's table exists afterwards, open to user mode if asked, made from a free frame only if it was missing |
| `Vmm.AddressSpaces.MapIn` | kernel/vmm.cpp:32-37 | the page is mapped to the given frame with the given flags, in the kernel's tables below 2^39 and in the space's own above, taking exactly one frame for each missing table; everything else stays in place with its contents |
| `Vmm.AddressSpaces.MapPageIn` | kernel/vmm.cpp:39-46 | vmm_map_page and vmm_map_page_in as the processor sees them: a one-point update of the map from spaces and pages to translations, in every space at once for a page below 2^39 |
| `Vmm.AddressSpaces.MapDevice` | kernel/vmm.cpp:39-42 | vmm_map_page of memory that no allocator hands out: that page translates to it in every space, for the kernel alone, and no other translation changes |
| `Vmm.AddressSpaces.CreateSpace` | kernel/vmm.cpp:48-52 | a root from a free frame that shares the kernel's half, all other spaces unchanged |
| `Vmm.AddressSpaces.FreePt` | kernel/vmm.cpp:57-61 | frees exactly the pages below that table |
| `Vmm.AddressSpaces.FreePd` | kernel/vmm.cpp:62-69 | frees exactly the tables and pages below that directory |
| `Vmm.AddressSpaces.FreePdpt` | kernel/vmm.cpp:70-77 | frees exactly the tables and pages below that pointer table |
| `Vmm.AddressSpaces.Destroy` | kernel/vmm.cpp:79-88 | clears exactly the bits of that space's frames, each once, and leaves every other space in place; null and the kernel space are left alone |
| `Vmm.AddressSpaces.UsedIsKnown` | kernel/vmm.cpp:15-88 | the used counter is exactly reserved plus owned plus handed-out frames: nothing leaks |
| `KernelMap.MapArena` | kernel/heap.cpp:20-25 | the loop of heap_init: each of the 512 arena pages is mapped in every space to a frame of its own, writable and closed to user mode, every other translation stays, and 512 frames and those of the missing tables are taken |
| `KernelMap.MapFramebuffer` | kernel/fb.cpp:60-70 | the loop of fb_init: by address, the framebuffer's pages are mapped one to one in every space, writable and closed to user mode, every other translation stays, and only tables take frames |
| `Boot.BringUp` | kernel/kernel.cpp:70-103 | vmm_init, heap_init and sched_init in their order reach a state in which every invariant holds and exactly 517 frames are taken; by address, the kernel then has the first GiB onto itself, the heap from 4 GiB on with a frame to each page, and nothing else |
| `VmmClone.Clone` | kernel/vmm.cpp:90-117 | for every page at or above 2^39 source and clone agree on being mapped, on the 12 flag bits and on all 4096 bytes; the clone's frames were free before, and everything that existed is untouched; the frames needed are exactly those of the nodes copied |
| `VmmClone.KeptSeen` | kernel/vmm.cpp:90-117 | what staying in place means to the processor: every page mapped in such a space keeps its frame, flags, rights and bytes |
| `VmmClone.CloneTranslates` | kernel/vmm.cpp:90-117 | the same as the processor sees it, with different frames behind the two spaces' pages |
| `VmmClone.CloneThenDestroy` | kernel/vmm.cpp:79-117 | destroying the clone restores the frame bitmap bit for bit, the counter and every space |
| `Elf.FillPage` | kernel/elf.cpp:60-69 | the zero loop and the copy loop leave each byte at address a equal to the file's byte at p_offset + (a - p_vaddr) for p_vaddr <= a < p_vaddr + p_filesz, and zero elsewhere |
| `Elf.FileHeader` | kernel/elf.cpp:6-21 | entry point, program header offset and count are read from their places in Elf64_Ehdr |
| `Elf.ProgramHeader` | kernel/elf.cpp:23-32 | type, offset, address, file size and memory size are read from their places in the i-th Elf64_Phdr |
| `Elf.LoadPage` | kernel/elf.cpp:59-73 | one page of a segment appears, user-writable with that content, and nothing else changes; one frame for it and one for each missing table suffice |
| `Elf.LoadSegment` | kernel/elf.cpp:52-74 | exactly the segment's pages appear with their image, within a budget that counts each table once |
| `Elf.ElfLoad` | kernel/elf.cpp:36-78 | null exactly for a bad magic or class; otherwise a new space holding exactly the image of all PT_LOAD segments and no other user page, every older space untouched; the frames needed are one for the root and one for each distinct table and page |
| `Elf.ImageSeen` | kernel/elf.cpp:49-78 | what the program sees on each page that a loadable segment reaches into: mapped user-writable, each byte the file's inside the segment's file part and zero elsewhere, .bss included |
| `Elf.NothingElseSeen` | kernel/elf.cpp:49-78 | a user page that no loadable segment reaches into is not mapped |
| `Elf.CoversExactly` | kernel/elf.cpp:53-57 | the pages mapped for a segment are those that share a byte with its memory, or for an empty one hold its start inside them |
| `Elf.MapStack` | kernel/sched.cpp:107-113 | exactly the four stack pages appear, user-writable, and what was mapped stays |
| `ExecArgs.CopyArguments` | kernel/sched.cpp:91-99 | argc is cut to 0..16, and each argument kept is the given one or, if that is longer, its first 63 characters |
| `ExecArgs.LayArguments` | kernel/sched.cpp:122-141 | the argument block lies in the topmost stack page: argv[i] points to argument i with its NUL, argv[argc] is null, the entry stack pointer is 16-aligned just below argv, and no byte under it changes |
| `ExecArgs.ArgvReads` | kernel/sched.cpp:122-141 | argv[i] points to a copy of the i-th argument kept with its NUL, argv[argc] is null |
| `ExecArgs.WriteArguments` | kernel/sched.cpp:117-141 | written through the new space's own translation of the stack top, the block is what that space finds there; no other page of any space changes |
| `ExecArgs.ArgumentSeen` | kernel/sched.cpp:117-141 | by the program's own loads, byte by byte through its page tables: the 64-bit word at argv + 8 * i is the address of the i-th argument and its NUL |
| `ExecArgs.NullSeen` | kernel/sched.cpp:138-138 | and the word at argv + 8 * argc is 0 |
| `Heap.CanonicalForm` | kernel/heap.cpp:11-16 | the block list is a function of the live allocations: two settled tilings of a range with the same live blocks are equal |
| `Heap.AllocLaw` | kernel/heap.cpp:34-55 | a successful kmalloc adds one block to the live set, 8-aligned, disjoint from every live block and inside the arena, less than 40 bytes larger than the rounded size; it is at least as large as asked exactly when the 64-bit rounding does not wrap; tiling and no two free neighbours are kept |
| `Heap.LowestGap` | kernel/heap.cpp:38-52 | first fit: for every gap between live allocations that holds the rounded size and a header, kmalloc succeeds at or below it |
| `Heap.SplitExactly` | kernel/heap.cpp:40-50 | of that gap it takes exactly the rounded size if a header and 16 bytes fit behind it, and otherwise all of it |
| `Heap.WrappedRequest` | kernel/heap.cpp:36-36 | the failing case: a request for 2^64 - 1 bytes gets a block of none |
| `Heap.AllocFailsExactly` | kernel/heap.cpp:34-55 | kmalloc returns null exactly for size 0 or when no gap between live allocations holds the rounded size and a header |
| `Heap.MergeLaw` | kernel/heap.cpp:58-67 | coalescing settles any tiling and touches no live block |
| `Heap.ReleaseLaw` | kernel/heap.cpp:69-73 | kfree removes exactly that allocation from the live set and keeps the heap well formed |
| `Heap.FreeUndoesAlloc` | kernel/heap.cpp:34-73 | kfree after kmalloc restores the block list exactly |
| `Heap.FreeOrderIrrelevant` | kernel/heap.cpp:58-73 | freeing a set of allocations gives the same list in every order |
| `Heap.FreeingEverything` | kernel/heap.cpp:20-73 | freeing all allocations leaves the one block the heap started with |
| `Heap.KernelHeap.constructor` | kernel/heap.cpp:20-32 | one free block spans the arena |
| `Heap.KernelHeap.Kmalloc` | kernel/heap.cpp:34-55 | for every 64-bit size, the walk and split on the linked headers reach exactly the list and pointer that LowestGap, SplitExactly and AllocFailsExactly fix |
| `Heap.KernelHeap.Coalesce` | kernel/heap.cpp:58-67 | the in-place merge loop reaches exactly the coalesced list |
| `Heap.KernelHeap.Kfree` | kernel/heap.cpp:69-73 | marking the header and merging reach exactly the specified list; null does nothing |
| `SchedRing.ReapMembers` | kernel/sched.cpp:216-234 | reaping leaves the current task and every task that was not dead, in order |
| `SchedRing.KeptInOrder` | kernel/sched.cpp:216-234 | reaping keeps the tasks left in their order |
| `SchedRing.ReapKeeps` | kernel/sched.cpp:216-234 | a task left WAITING still has a child in the ring: no wakeup is lost |
| `SchedRing.StepKeeps` | kernel/sched.cpp:237-255 | schedule keeps one simple cycle with its invariants and ends on a RUNNABLE task while boot is RUNNABLE |
| `SchedRing.StepReaps` | kernel/sched.cpp:237-255 | on return the ring holds the old current task and those that were alive, so at most the old current one is dead |
| `SchedRing.StepWakes` | kernel/sched.cpp:224-246 | a SLEEPING task is RUNNABLE after a call of schedule exactly if its wake tick is at most the clock, a WAITING one exactly if a dead child of its is reaped; the others keep their state |
| `SchedRing.StepPicks` | kernel/sched.cpp:248-250 | the task that runs next is the first RUNNABLE one behind the old current task in ring order, or that task itself |
| `SchedRing.StepProgress` | kernel/sched.cpp:249-251 | a RUNNABLE task that is not current is selected or strictly closer after each call |
| `SchedRing.RunKeeps` | kernel/sched.cpp:60-271 | over every run of schedule calls, deaths, sleeps, waits and new tasks the ring stays sound |
| `SchedRing.RunsWithin` | kernel/sched.cpp:237-255 | over every such run, a RUNNABLE task j hops away has been current by the time the calls of schedule outnumber the new tasks by j |
| `SchedRing.SleepsOn` | kernel/sched.cpp:242-263 | over every run, a sleeping task sleeps on while no call of schedule comes at or after its wake tick |
| `SchedRing.SleeperRuns` | kernel/sched.cpp:242-263 | the first call at or after its wake tick makes it RUNNABLE, and it is current once the later calls outnumber the new tasks by the other tasks in the ring |
| `SchedRing.InsertedKeeps` | kernel/sched.cpp:83-84 | linking a new task in after the current one keeps the cycle and its invariants |
| `SchedRing.WithCurrentKeeps` | kernel/sched.cpp:193-208 | the current task may die, sleep, or wait with a child, and the invariants stay |
| `Sched.Scheduler.constructor` | kernel/sched.cpp:20-31 | sched_init: the boot task alone in the ring, its struct the only heap block held |
| `Sched.Scheduler.CreateKernelTask` | kernel/sched.cpp:33-58 | a runnable task in the kernel space, linked right behind the current one, whose frame has rip at entry, cs 0x08, ss 0x10, interrupts on and rsp 8 below its stack top |
| `Sched.Scheduler.NewTask` | kernel/sched.cpp:60-86 | a runnable task with its own struct and kernel stack, 16-aligned stack top and the given frame to resume with, linked right behind the current one |
| `Sched.Scheduler.Spawn` | kernel/kernel.cpp:26-51 | exactly for a loadable ramdisk program a parentless task with its image and stack and no open descriptor appears right behind the current one, whose frame has rip at the entry point, cs 0x1B, ss 0x23, interrupts on and rsp at the stack top; every older space is untouched |
| `Sched.ProgramSeen` | kernel/kernel.cpp:26-51 | what a spawned or exec'ed program sees on the pages of its segments: user-writable, the file's bytes inside the file part and zeros elsewhere |
| `Sched.StackSeen` | kernel/sched.cpp:107-113 | of its other user pages exactly the 16 KiB below 0x8000100000 are mapped, user-writable |
| `Sched.Scheduler.Fork` | kernel/sched.cpp:161-191 | a runnable child right behind the caller, with the caller's pages copied to fresh frames, its descriptors, its registers but for a zero in rax, and the next process number |
| `Sched.Scheduler.Exec` | kernel/sched.cpp:88-157 | on success the caller runs in a fresh space holding exactly the image and the stack, its frame enters the program at the entry point in user mode with argc in rdi and in rsi an argv through which exactly the kept arguments are found, and its old private space is gone without a trace; every page and table of every other space keeps its frame and its content; the ring is unchanged; on failure nothing changes |
| `Sched.Scheduler.Wait` | kernel/sched.cpp:193-209 | blocks exactly when some other task in the ring is its child and not dead, otherwise returns with nothing changed; the caller resumes with 0 in rax |
| `Sched.Scheduler.Kill` | kernel/sched.cpp:265-265 | the current task is dead and still in the ring |
| `Sched.Scheduler.Exit` | kernel/sched.cpp:267-271 | the caller is dead, and one step of the scheduler is taken |
| `Sched.Scheduler.Sleep` | kernel/sched.cpp:259-263 | the caller's wake tick is now + n, and after the step of the scheduler it is SLEEPING, or RUNNABLE if n is 0; it resumes with the frame it went to sleep with |
| `Sched.Scheduler.Tick` | kernel/sched.cpp:211-211 | the clock advances by one |
| `Sched.Scheduler.ReapDead` | kernel/sched.cpp:216-234 | the in-place unlinking loop removes exactly the dead tasks behind the current one, wakes exactly their WAITING parents, and frees exactly their spaces, stacks and structs |
| `Sched.Scheduler.WakeSleepers` | kernel/sched.cpp:242-246 | every task in the ring is RUNNABLE if it was SLEEPING with a wake tick of at most the clock, and in the state it was in otherwise |
| `Sched.Scheduler.PickNext` | kernel/sched.cpp:248-250 | the search ends, on the first task behind the current one that is RUNNABLE; none that it passes is |
| `Sched.Scheduler.Schedule` | kernel/sched.cpp:237-255 | one call is exactly one step of the ring: the dead behind the current task leave it, due sleepers and parents of the reaped wake, the others keep their states; the task left keeps the frame it was stopped with and the chosen one resumes with its own; every page and table of every task still in the ring stays in place; the whole machine's invariant is kept |
| `Sched.Scheduler.FramesAccounted` | kernel/sched.cpp:60-255 | in every reachable state the allocated frames are the disjoint union of the reserved ones, the kernel's tables as built at start, and the private spaces of the tasks in the ring, no frame in two of them |
| `Sched.Scheduler.HeapAccounted` | kernel/sched.cpp:60-255 | in every reachable state the held heap pointers are exactly the structs and kernel stacks of the tasks in the ring, each for one task and large enough |
| `Sched.Scheduler.AllReturned` | kernel/sched.cpp:216-234 | when only boot is left, every frame and heap block handed out since start-up has come back |
| `GfxLine.LineShape` | kernel/gfx.cpp:41-54 | exactly max(dx, dy) + 1 points from the first endpoint to the second, each a king's move on, each with 2 * abs(dx * j - dy * i) at most max(dx, dy) |
| `GfxLine.LineNearest` | kernel/gfx.cpp:41-54 | each point is, among those as far along the longer side, the one nearest to the exact line, and of two equally near the one with fewer steps |
| `GfxLine.CloseIsNearest` | kernel/gfx.cpp:46-52 | the error term leaves one choice: the minor step count is the exact line rounded to nearest, ties down |
| `GfxLine.CloseStep` | kernel/gfx.cpp:50-52 | one round of the loop keeps the deviation within half the longer side, in all octants |
| `GfxLine.Turn` | kernel/gfx.cpp:48-52 | one whole round: the point moves as the line does, and every intermediate value fits 32 bits |
| `GfxLine.Surface.PutPixel` | kernel/gfx.cpp:5-8 | exactly pixel y * pitch + x changes, and none when (x, y) is off the surface |
| `GfxLine.Surface.DrawLine` | kernel/gfx.cpp:41-54 | the loop ends, draws those points in that order, and changes exactly the pixels showing one of them; for spans up to 715827883 neither the error term nor its double nor its updates leave 32 bits (no larger bound would do: `SpanIsLargest`) |
| `GfxLine.Surface.OnePixelEach` | kernel/gfx.cpp:5-8 | different points on the surface are different pixels |
| `ShellPath.ParsePrint` | huginn.cpp:71-100 | parsing a canonical path returns its stack of names |
| `ShellPath.PrintShape` | huginn.cpp:71-100 | a canonical path starts with a slash, has no empty component, and ends in a slash only when it is the root |
| `ShellPath.TargetClean` | huginn.cpp:71-100 | no component of the result is empty, "." or ".." |
| `ShellPath.Idempotent` | huginn.cpp:71-100 | normalising a normalised path gives it back, from any directory |
| `ShellPath.TwoMoves` | huginn.cpp:71-100 | following a and then b is following a/b |
| `ShellPath.OneMove` | huginn.cpp:82-96 | ".." goes up one directory and stays at the root, "." and nothing stay, a name goes down |
| `ShellPath.SlashMoves` | huginn.cpp:71-82 | a leading slash starts at the root and repeated slashes are one; with OneMove and TwoMoves this fixes the target of every path |
| `ShellPath.PrintResolves` | kernel/munin.cpp:196-219 | the filesystem finds under a canonical path what its stack of names leads to |
| `ShellPath.Shell.ResolvePath` | huginn.cpp:71-100 | the in-place buffer ends up holding the canonical spelling of pushing and popping the input's components onto the current directory's stack, or the empty one for an absolute path |
| `ShellPath.Shell.Pop` | huginn.cpp:86-91 | ".." cuts the last name and its slash off in place, and leaves the root alone |
| `ShellPath.Shell.Append` | huginn.cpp:92-96 | a name is appended behind exactly one slash |
| `ShellPath.Shell.Cd` | huginn.cpp:184-194 | cwd becomes the target exactly when munin resolves it to a directory and a descriptor is free, and stays otherwise; it is canonical always; filesystem and open descriptors are as before |

## Left out

- MuninOps.UnlinkDeletes: does not say what a descriptor still open on the removed inode refers to, because the kernel lets the inode be reused.
- MuninImage.PersistenceRoundTrip: says nothing about a crash during a flush; the superblock is written first and there is no journal.
- Elf.ElfLoad: requires segments at or above 2^39, since mapping below it would write the kernel's shared tables, and headers that lie inside the file, which the code does not check.
- Vmm.AddressSpaces.MapIn: excludes what no caller does: user rights below 2^39, a kernel mapping above it, and a page inside a huge page.
- KernelMap.MapFramebuffer: is not part of Boot.BringUp; whether fb_init runs, and where, depends on the boot loader's table.
- Sched.Scheduler.Exec: which program the first argument names is a parameter, as the ramdisk is not modelled; with no arguments the kernel looks up what an earlier call left in its buffer.
- Sched.Scheduler.Schedule: saving and restoring a frame is one assignment; the stack slot it lies in, TSS and CR3 are not modelled.
- Sched.Scheduler.Wait: compares parents by identity; in the kernel a freed task's address may be handed out again, and then a stranger can pass for a child.
- GfxLine.Surface.DrawLine: spans above 715827883 and surfaces of 2^31 pixels a side or more are excluded; beyond that span twice the error term can leave 32 bits.
- ShellPath.Shell.Cd: the shell's buffers are required to be large enough, which the code does not check.
- Allocation headers and page tables as raw bytes: payload writes that overrun into a header or table are not expressible.
- Padding bytes of an inode on disk are modelled as zero; the kernel writes whatever its struct padding holds.
- Null path pointers, vfs_mkdir, vfs_unlink, vfs_sync and munin_ls: thin wrappers or printing.
- TLB, interrupt entry and syscall dispatch: hardware state with no counterpart here.
- Port I/O, PCI, virtio, framebuffer drawing, console, fonts, windows, mouse, keyboard buffer, line editor, history, number printing and ramdisk lookup: device access, or code whose properties are easy beside these.
