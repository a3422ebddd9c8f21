# Verified models of a hobby kernel

This project models the parts of the kernel whose correctness rests on invariants over many steps, and
proves those invariants with Dafny. `dafny verify dfyconfig.toml` checks everything.

Structures that the kernel allocates live in maps from address to record, so that freeing removes an
address and every pointer that is followed is proved to point to something. Ghost sequences and
coordinates give the value that the pointers stand for. Each operation keeps the loops and the in-place
updates of its source and is proved against that value; the values then carry the theorems about whole
runs. Code that runs under a spinlock is one atomic step.

| files | what they model |
|---|---|
| `RadixView`, `RadixTree`, `RadixRuns` | the 64-way radix tree that grows, shrinks and frees empty nodes |
| `PageCache`, `FileMap`, `FileRuns` | the page cache on that tree and buffered file reads and writes on top |
| `FatDisk`, `FatVolume`, `FatEntries`, `Fat32`, `FatFile`, `FatIo`, `FatDir`, `FatCatalog`, `FatRuns` | FAT32 cluster chains, directory entries and file contents over a sector array |
| `Pmm`, `PageTables`, `Vmm`, `Mmio` | the frame bitmap, four-level page tables that own its frames, and the window for device memory |
| `HeapBlocks`, `Heap` | the first-fit coalescing heap |
| `MlfqSpec`, `Mlfq` | the multi-level feedback scheduler: an abstract machine on sequences, and the linked lists that refine it |
| `BufferCache` | the block buffer cache under interleaved threads |
| `PathSpec`, `Vfs` | the dentry cache, path walking and printing the current directory |
| `Bpf`, `BpfPrograms`, `Seccomp` | the filter interpreter, the verdicts of small filters in numbers, and filter chains shared between processes |
| `Pipe` | the pipe ring under interleaved readers and writers |
| `Checksum` | the Internet checksum |
| `Arith`, `Bits`, `Sequences` | machine words, bitwise operations and sequences shared by the others |

Where a property the code is meant to have fails for some inputs, the code is kept, the exact condition is
proved, and a failing input is given:

| property | holds exactly when | failing input |
|---|---|---|
| `i_size` reaches the end of a write (`GenericFileWrite`) | the end is below 2^64 | `WriteAtTheEnd` |
| freeing keeps hint and count right (`FreePage`, `FreePages`) | the frames were allocated | `FreeTwice`, `FreeRunTwice` |
| mapping keeps the tables a tree (`MapPage`, `Ioremap`) | the frames suffice for the missing tables | `MapWithoutFrames` |
| the block holds the size asked for (`Kmalloc`) | the size is at most 2^64 - 8 | `MallocHuge` |
| a filter goes forward (`ForwardIffTame`) | jumps stay in the int range, shifts below 32 | `Spins` |
| the printed path leads back (`RoundTrip`) | no newer dentry hides a name on it | `MkdirTwice` |
| the 32-bit sum gives the checksum (`MachineRight`) | no carry is lost, or they cancel | `LostCarry` |
| filter counts are exact (`ExactUntilCopied`) | no copy of a process with filters went uncounted | `CopyThenExit` |
| an exit frees no filter in use (`Exit`) | no filter it frees has another user | `CopyThenExit` |
| the current directory fits the buffer (`Getcwd`) | it is not the root, or the size is not 1 | `RootInOneByte` |
| a created file is found in its directory (`NewListed`) | its name does not begin with byte E5 | `MarkedName` |

A lost race in `getblk` frees the buffer without lowering `buffer_cache_count`; `CountLaw` states the count
with those losses in it. `process_fork` copies the filter pointer with the rest of the process and nothing
calls `seccomp_fork`; the runs have both steps.

## Model

| member | source | states |
|---|---|---|
| `RadixRuns.Replay` | kernel/lib/radix-tree.c:22-215 | every run of insert, lookup and delete from the empty tree is the run of a finite map, with node allocations failing in any of the inserts: the answers and the final map are those of the requests and of which inserts had an allocation fail, and an insert is refused exactly when its index is taken or an allocation of that very call failed; with plenty of memory none fails |
| `RadixRuns.Converge` | kernel/lib/radix-tree.c:22-65 | two runs that reach the same map without a failed allocation build trees that are equal node for node and count for count |
| `RadixView.CanonicalUnique` | kernel/lib/radix-tree.c:155-206 | two canonical trees (no empty node, counts equal to non-null slots, least height) with equal items have equal height and equal shape |
| `RadixView.CanonicalHeight` | kernel/lib/radix-tree.c:22-40 | in a canonical tree the height is determined by the keys |
| `RadixView.CanonicalCells` | kernel/lib/radix-tree.c:155-206 | canonical trees of equal height and items have nodes in the same places |
| `RadixTree.Tree.constructor` | kernel/lib/radix-tree.c:17-20 | the empty tree is well formed and holds nothing |
| `RadixTree.Tree.Insert` | kernel/lib/radix-tree.c:67-124 | returns 0 and adds exactly one key, or -1 and changes no item; -1 exactly when the key is present or an allocation of this call fails; well-formedness and, as long as no allocation has failed, canonicity are kept |
| `RadixTree.Tree.Lookup` | kernel/lib/radix-tree.c:126-153 | returns the item of the key, null if there is none |
| `RadixTree.Tree.Delete` | kernel/lib/radix-tree.c:155-215 | returns and removes exactly the item of the key, keeping every other item although nodes are freed and levels dropped; the 16-entry path arrays are never overrun |
| `RadixTree.Tree.Extend` | kernel/lib/radix-tree.c:42-65 | adds levels until the index fits, keeping all items; -1 exactly when an allocation of this call fails |
| `RadixTree.Tree.FittingHeight` | kernel/lib/radix-tree.c:47-49 | finds the least height from a start on that fits the index |
| `RadixTree.Tree.PushRoot` | kernel/lib/radix-tree.c:55-63 | a new root above the old one keeps all items |
| `RadixTree.Tree.DigitCount` | kernel/lib/radix-tree.c:74-81 | finds the least height, at least 1, that fits the index |
| `RadixTree.Tree.Grow` | kernel/lib/radix-tree.c:72-88 | the height fits the index afterwards and is no more than the items and the index need |
| `RadixTree.Tree.Prepare` | kernel/lib/radix-tree.c:72-96 | a root that covers the index exists afterwards, or else an allocation of this call failed; items are unchanged |
| `RadixTree.Tree.PlantRoot` | kernel/lib/radix-tree.c:93-96 | the first node of an empty tree keeps the tree empty |
| `RadixTree.Tree.StepDown` | kernel/lib/radix-tree.c:111-118 | one step of the descent reaches the child on the path of the index, creating it if missing, and changes no item; null exactly when its allocation fails |
| `RadixTree.Tree.PutItem` | kernel/lib/radix-tree.c:104-109 | fills the leaf slot unless it is taken |
| `RadixTree.Tree.Place` | kernel/lib/radix-tree.c:98-123 | the whole descent of insert adds exactly the one item, or changes none, which happens exactly when the index is taken or an allocation of this call fails |
| `RadixTree.Tree.Shrink` | kernel/lib/radix-tree.c:22-40 | dropping levels keeps every item and restores the least height |
| `RadixTree.Tree.Unwind` | kernel/lib/radix-tree.c:186-203 | freeing emptied nodes from the leaf up keeps every item and leaves no empty node |
| `RadixTree.Tree.FreeOnPath` | kernel/lib/radix-tree.c:190-196 | freeing one emptied node clears its parent slot and keeps every item and the rest of the path |
| `RadixTree.Tree.Remove` | kernel/lib/radix-tree.c:181-207 | clearing the leaf slot, unwinding and shrinking remove exactly one item |
| `RadixView.RaiseKeeps` | kernel/lib/radix-tree.c:59-62 | a level added on top keeps structure and items |
| `RadixView.SproutKeeps` | kernel/lib/radix-tree.c:111-116 | a zeroed child linked into a free slot keeps structure and items |
| `RadixView.StoreKeeps` | kernel/lib/radix-tree.c:106-107 | storing into a leaf slot changes exactly one key |
| `RadixView.PruneKeeps` | kernel/lib/radix-tree.c:191-195 | unlinking an empty node keeps structure and items |
| `RadixView.LowerKeeps` | kernel/lib/radix-tree.c:35-38 | dropping a root that only passes slot 0 on keeps structure and items |
| `RadixView.Descend` | kernel/lib/radix-tree.c:140-151 | following the six-bit digits of a key leads to the node of its prefix at every level |
| `PageCache.Mapping.FindGetPage` | kernel/mm/page_cache.c:6-18 | returns the page cached at the index, null if none |
| `PageCache.Mapping.AddToPageCache` | kernel/mm/page_cache.c:20-33 | caches the page at the index, or changes nothing, exactly when the page is null, the index is taken or a node allocation of this call fails; nrpages stays the number of cached indices and the index stays consistent exactly when the page was not cached already |
| `PageCache.Mapping.DeleteFromPageCache` | kernel/mm/page_cache.c:35-47 | uncaches exactly that page: its bytes read as zero, no other byte of the file changes |
| `FileRuns.Replay` | kernel/fs/filemap.c:9-130 | every run of reads and writes at any positions and lengths, with allocation failures anywhere, refines a flat zero-initialised byte array: each read returns the last bytes written, a call fails exactly when an allocation of that call does, the caller position moves by the count or stays, nrpages equals the number of cached indices, and i_size is the one computed from the writes |
| `FileRuns.SizeCovers` | kernel/fs/filemap.c:116-118 | over every run i_size is at least the end of every write whose end does not wrap around 2^64 |
| `FileRuns.SizeIsMax` | kernel/fs/filemap.c:116-118 | when no end wraps around, i_size after a run is the largest of the ends of its writes |
| `FileRuns.Step` | kernel/fs/filemap.c:9-130 | one read or write, failed or not, is one event of the flat file |
| `FileRuns.WriteThenRead` | kernel/fs/filemap.c:9-130 | with memory, what is written is what is read back at the same position, also across the end of the 64-bit positions, and the position moves by the length modulo 2^64 |
| `FileMap.GenericFileWrite` | kernel/fs/filemap.c:69-130 | overlays exactly the bytes written, circularly in the 64-bit position; it fails exactly when an allocation of this call does, leaving a prefix written and the caller position alone; i_size follows the chunk ends exactly, and reaches the end of the write exactly when that end does not wrap around 2^64 |
| `FileMap.WritePlain` | kernel/fs/filemap.c:69-130 | with memory and below 2^64: the bytes of the buffer are in the file from the position on, every other byte is as before, and i_size is the larger of its old value and the end of the write |
| `FileMap.WriteAtTheEnd` | kernel/fs/filemap.c:116-118 | with memory, two bytes written at 2^64 - 1 leave i_size at 1 |
| `FileMap.GenericFileRead` | kernel/fs/filemap.c:9-66 | returns the file bytes at the position and changes no byte of the file; it fails exactly when an allocation of this call does, and then leaves the caller position alone |
| `FileMap.WriteChunk` | kernel/fs/filemap.c:78-128 | one round of the write loop changes exactly its chunk within one page |
| `FileMap.ReadChunk` | kernel/fs/filemap.c:18-62 | one round of the read loop copies the bytes of one page |
| `FileMap.GrabPage` | kernel/fs/filemap.c:84-111 | finds or creates the page of an index without changing a byte of the file, except those of a new page about to be overwritten whole |
| `FileMap.CopyIn` | kernel/fs/filemap.c:113-116 | copying into a cached page changes exactly those bytes of the file |
| `FileMap.ChunkStep` | kernel/fs/filemap.c:78-82 | a chunk that stays within its page covers the next stretch of the circular range |
| `FatRuns.Replay` | kernel/fs/fat32.c:268-287 | every run of create, write and read in any of the directories, with or without memory for inodes, keeps all chains well formed and treats each file as a byte sequence of its own; creating fails exactly without memory or without room (no cluster free, or one and no free slot in the directory) and a write stops short only on a full disk; and every file made under a name that does not begin with the deletion mark stays listed: the entry that a search of its directory finds first keeps its place and, byte by byte, is that of a regular file, with its name, attribute 20h, its first cluster, its size modulo 2^32 and zeros elsewhere |
| `FatRuns.WriteContents` | kernel/fs/fat32.c:421-490 | a write overlays exactly its range on the contents of its file, with zeros in a gap past the end, and leaves the contents of every other file alone |
| `FatRuns.Create` | kernel/fs/fat32.c:268-287 | by bytes of the volume: the first slot of the directory that is free or deleted holds the name, attribute 20h without the directory bit, the first cluster in two halves, size 0 and zeros elsewhere, and no other byte of any directory or file changes; nothing changes exactly when no cluster is free, or one is and the directory has no free slot; without memory for the inode the entry and its cluster stay behind and no file is there |
| `FatRuns.Enter` | kernel/fs/fat32.c:268-280 | a free cluster and, in the first free slot, the bytes of a regular file that names it; or the disk as it was as far as any chain can see, exactly when there is no room |
| `FatRuns.Fresh` | kernel/fs/fat32.c:626-733 | a formatted and mounted empty volume of any size that fits is a state from which the runs start, with room in it from five clusters on |
| `FatCatalog.Decoded` | kernel/fs/fat32.c:240-247 | the driver reads back the first cluster, name, attribute and size it stored, and takes the entry as in use unless the name begins with the deletion mark |
| `FatCatalog.EnteredFile` | kernel/fs/fat32.c:238-247 | storing the entry of a new file fills the first slot whose first byte is 0 or E5h with the bytes of an empty regular file, attribute 20h, and changes no other byte of any chain |
| `FatCatalog.DirEntryBytes` | kernel/fs/fat32.c:242-247 | the 32 bytes stored: the name, 10h for a directory and 20h for a file, both halves of the cluster and the size low byte first, zeros elsewhere |
| `FatCatalog.NewListed` | kernel/fs/fat32.c:236-247 | the new file is the one a search finds under its first cluster if its name does not begin with the deletion mark; if it does, no search finds it |
| `FatRuns.MarkedName` | kernel/fs/fat32.c:240 | on an empty volume a file under a name that begins with the deletion mark is made, and no entry that a search of the directory finds names it |
| `FatCatalog.AddListed` | kernel/fs/fat32.c:234-256 | a new entry leaves every other listing as it is |
| `FatCatalog.WriteListed` | kernel/fs/fat32.c:473-476 | a write through the directory of the file brings its entry up to date and leaves every other listing as it is |
| `FatEntries.DirWroteAgain` | kernel/fs/fat32.c:473-476 | storing the size chunk after chunk leaves the directory as if only the last size had been stored |
| `FatRuns.DoRead` | kernel/fs/fat32.c:329-383 | a read returns the slice of the contents cut at the file size |
| `FatRuns.DoWrite` | kernel/fs/fat32.c:421-490 | a write that reports n bytes has overlaid exactly the first n bytes, and every listed file stays listed with its size |
| `FatRuns.Unalloc` | kernel/fs/fat32.c:116-118 | freeing a fresh one-cluster chain removes that chain only and changes no file |
| `FatIo.Write` | kernel/fs/fat32.c:421-490 | all bytes are written, or a prefix when the disk is full; -1 exactly when a count other than 0 meets a chain that ends before the offset on a full disk; the chain grows by no cluster that the write does not reach; the size grows to the end of the write, bytes past the size stay zero; the directory changes exactly in the size field of the first entry that names the file, when the file has grown, and no other file changes |
| `FatIo.Read` | kernel/fs/fat32.c:329-383 | copies the bytes of the file at the offset, as many as the unsigned comparison of the source allows, and leaves the rest of the buffer alone |
| `FatIo.ReadCountIs` | kernel/fs/fat32.c:334-335 | the number of bytes is the count cut at the end of the file when the count is not negative; a negative count that reaches back before the start asks for the whole rest of the file, as a 32-bit int |
| `FatIo.SizeBound` | kernel/fs/fat32.c:334-335 | a file is shorter than 2^45 bytes, so that the unsigned sum wraps around for negative counts only |
| `FatIo.Seek` | kernel/fs/fat32.c:428-441 | reaches the cluster of the offset, growing the chain by zeroed clusters; it fails only on a full disk |
| `FatIo.WriteLoop` | kernel/fs/fat32.c:443-487 | writes across sector and cluster boundaries until done or the disk is full, with the directory following the size |
| `FatIo.WriteCluster` | kernel/fs/fat32.c:445-477 | the sector loop writes exactly the part that falls into one cluster, with the directory following the size |
| `FatIo.PutChunk` | kernel/fs/fat32.c:456-476 | one sector write changes exactly its bytes; when the file grows, its size is stored in the first entry of the directory that names it, and no other byte of the directory changes |
| `FatIo.ReadLoop` | kernel/fs/fat32.c:349-380 | reads across sector and cluster boundaries exactly count bytes |
| `FatIo.SkipTo` | kernel/fs/fat32.c:340-347 | following links reaches the cluster of the offset |
| `FatIo.Reachable` | kernel/fs/fat32.c:340-347 | a position below the size lies inside the chain, so the end-of-chain test never cuts a read short |
| `FatFile.NextOrAlloc` | kernel/fs/fat32.c:434-438 | the next cluster of the chain, or one previously free zeroed cluster appended to it, or 0 on a full disk |
| `FatFile.UpdateInodeSize` | kernel/fs/fat32.c:385-419 | the size goes into the first directory entry that is in use and names the file; it fails, changing nothing, exactly when the directory ends before one; no other byte changes |
| `FatEntries.FirstIs` | kernel/fs/fat32.c:399-407 | the entry a search finds, by its bytes: the first byte neither 0 nor E5h, attribute not 0Fh, the two halves of the cluster equal to the one looked for, and before it neither a first byte 0 nor another such entry |
| `FatFile.HuntInCluster` | kernel/fs/fat32.c:394-415 | the sector loop finds the first such entry of a cluster, or the end of the directory |
| `FatDir.AddEntry` | kernel/fs/fat32.c:224-266 | the entry fills the first free slot and no other byte of any chain changes; the loop ends because a new directory cluster is all free slots; it fails, changing nothing, exactly when the disk is full and the directory has no free slot |
| `FatDir.AddInCluster` | kernel/fs/fat32.c:234-256 | the sector loop finds the first free slot of a cluster, if any |
| `Fat32.Driver.AllocCluster` | kernel/fs/fat32.c:120-146 | the lowest free cluster, zeroed and marked 0FFFFFFFh, extends exactly the chain of prev by one or starts a new chain; 0 exactly when none is free, and then nothing changes; all bytes of all files stay |
| `Fat32.Driver.FindFreeCluster` | kernel/fs/fat32.c:104-114 | the lowest cluster whose entry is free, 0 if there is none |
| `Fat32.Driver.WriteFatEntry` | kernel/fs/fat32.c:87-102 | replaces the low 28 bits of exactly one entry; the top four bits of every entry, all other entries and all data sectors stay |
| `Fat32.Driver.NextCluster` | kernel/fs/fat32.c:71-84 | returns the 28-bit entry of the cluster |
| `FatDisk.LinkOnDisk` | kernel/fs/fat32.c:71-84 | the link of cluster c is the low 28 bits of the four bytes, low byte first, at place c mod 128 of table sector c / 128 |
| `FatDisk.ChainOnDisk` | kernel/fs/fat32.c:71-84 | a chain starts at its first cluster, follows the links of the table, and ends at a link from 0FFFFFF8h on |
| `FatDisk.RangeIs` | kernel/fs/fat32.c:104-114 | the clusters that are searched are those from 2 on that lie whole within the total sectors |
| `Fat32.Driver.ZeroCluster` | kernel/fs/fat32.c:133-143 | clears exactly the sectors of the cluster |
| `FatDisk.ExtendChain` | kernel/fs/fat32.c:126-131 | linking a free cluster behind the last one keeps all chains acyclic, end-marked and pairwise disjoint |
| `FatDisk.NewChain` | kernel/fs/fat32.c:120-124 | an end-marked free cluster is a new chain disjoint from all others |
| `FatDisk.DropChain` | kernel/fs/fat32.c:116-118 | clearing the entry of a one-cluster chain leaves the other chains well formed |
| `FatDisk.PutEntry` | kernel/fs/fat32.c:95-96 | writing one table entry changes that entry only |
| `FatDisk.ClusterApart` | kernel/fs/fat32.c:67-69 | different sectors of different clusters are different disk sectors |
| `FatVolume.ByteOnDisk` | kernel/fs/fat32.c:67-69 | byte o of sector i of the k-th cluster of a file is byte o of disk sector data start + (cluster - 2) * sectors per cluster + i |
| `FatVolume.ByteBeyond` | kernel/fs/fat32.c:340-347 | past the last cluster of its chain a file has no bytes, which the model reads as zero |
| `FatVolume.SectorWrite` | kernel/fs/fat32.c:462-465 | writing one sector of a file changes the 512 bytes of that sector of that file and nothing else |
| `FatVolume.GrownBytes` | kernel/fs/fat32.c:133-145 | growing a chain by a zeroed cluster changes no byte of any file |
| `Pmm.Allocator.FindFirstFree` | kernel/memory/pmm.c:33-50 | the hinted search finds the lowest free frame of all, so it equals a scan from zero and its wrap-around loop never succeeds; -1 exactly when no frame is free |
| `Pmm.Allocator.AllocPage` | kernel/memory/pmm.c:273-300 | the lowest free frame becomes used, 0 exactly when none is free; every frame below the hint stays used and free_memory stays 4096 times the clear bits |
| `Pmm.Allocator.AllocPages` | kernel/memory/pmm.c:302-325 | the skip-ahead search returns the lowest free run of the given length, 0 exactly when there is none |
| `Pmm.Allocator.FreePage` | kernel/memory/pmm.c:327-337 | the frame is free again; hint and free count stay right exactly when the frame was in use and not frame 0, or the address is past the end |
| `Pmm.Allocator.FreePages` | kernel/memory/pmm.c:339-351 | the run is free again; hint and free count stay right exactly when all of it was allocated |
| `Pmm.FreeTwice` | kernel/memory/pmm.c:327-337 | freeing one frame twice leaves one free frame and a count of two |
| `Pmm.FreeRunTwice` | kernel/memory/pmm.c:339-351 | freeing overlapping runs leaves three free frames and a count of four |
| `Pmm.Allocator.SetBit` | kernel/memory/pmm.c:13-15 | sets exactly one flag of the bitmap |
| `Pmm.Allocator.ClearBit` | kernel/memory/pmm.c:17-19 | clears exactly one flag of the bitmap |
| `Pmm.BitSetIs` | kernel/memory/pmm.c:13-23 | frame n is bit n mod 8, counted from the low end, of its byte |
| `Pmm.Allocator.FreeStretch` | kernel/memory/pmm.c:307-314 | the inner loop measures the free stretch from a frame on |
| `Pmm.MarkedClear` | kernel/memory/pmm.c:317-320 | reserving a free run of n frames lowers the free count by exactly n |
| `Pmm.ReleasedClear` | kernel/memory/pmm.c:340-346 | releasing n frames raises the free count by exactly n if and only if all of them were in use |
| `Vmm.AddressSpace.MapPage` | kernel/memory/vmm.c:28-63 | exactly the entry of that page changes; the tables stay a tree of distinct frames, each marked used, exactly when the frame allocator can supply the missing tables, and then it loses exactly as many frames; otherwise a table went to frame 0, no frame is free, and no present entry of any table has changed |
| `Vmm.MapWithoutFrames` | kernel/memory/vmm.c:36-40 | with no frame left, mapping the first page of the upper half puts its tables into frame 0 |
| `Vmm.AddressSpace.UnmapPage` | kernel/memory/vmm.c:65-84 | exactly the entry of that page becomes 0 and no table goes away |
| `Vmm.AddressSpace.GetPte` | kernel/memory/vmm.c:108-126 | reads the map from page number to entry |
| `Vmm.AddressSpace.GetPhys` | kernel/memory/vmm.c:86-106 | returns the translation the map gives: bits 12 to 51 of the entry with the page offset, 0 for an entry with bit 0 clear |
| `Vmm.AddressSpace.FindTable` | kernel/memory/vmm.c:92-101 | the three lookups reach the last table of the page, or the page has no entry |
| `Vmm.AddressSpace.Child` | kernel/memory/vmm.c:36-42 | one level of the walk: the table below an entry, created in a fresh frame when it is missing |
| `Vmm.AddressSpace.AddTable` | kernel/memory/vmm.c:36-40 | a new zeroed table changes no page and takes one frame, and the entry above it holds its address plus 7; without a free frame it goes to frame 0; either way no present entry changes |
| `Vmm.AddressSpace.MakePath` | kernel/memory/vmm.c:34-58 | all tables of the path exist afterwards exactly when there were enough frames |
| `Vmm.Indices` | kernel/memory/vmm.c:29-32 | the four index fields of an address are the base-512 digits of its 36-bit page number |
| `PageTables.WithTableInv` | kernel/memory/vmm.c:36-40 | linking a zeroed table keeps the tree and every page entry |
| `PageTables.WithPteInv` | kernel/memory/vmm.c:58-60 | writing a last-level entry keeps the tree and changes exactly that page |
| `PageTables.Walk` | kernel/memory/vmm.c:36-42 | one step of a walk leads to the child table exactly when the entry is present |
| `PageTables.FlaggedFrame` | kernel/memory/vmm.c:39-42 | or-ing flags into an aligned frame address and masking them off again gives the frame |
| `Mmio.Window.Ioremap` | kernel/memory/vmm.c:178-191 | the new region lies above all earlier ones, so regions are pairwise disjoint, and takes as few pages as cover it; all of its pages are mapped if and only if the frames suffice for the tables it still needs, and then each entry is its physical page plus 3; every byte of the pages mapped, unaligned addresses included, and every byte of every earlier region is reached at its physical address by a walk through memory, even when the frames ran out; when they did not, all entries outside the region are as before |
| `Mmio.Window.MapRun` | kernel/memory/vmm.c:186-188 | the loop maps exactly the pages of the run to consecutive frames if and only if the frames suffice for the missing tables; otherwise it has mapped the pages before the first one without, and what the tables led to then is still reached |
| `Mmio.LackStep` | kernel/memory/vmm.c:186-188 | the tables missing for a run of pages are those missing for its first page and those still missing for the rest |
| `PageTables.HardwareIs` | kernel/memory/vmm.c:29-60 | in a well-formed tree the walk through memory that the processor makes finds the entry of the page |
| `PageTables.HardwareKept` | kernel/memory/vmm.c:36-42 | a walk that found a present entry still finds it while no present entry changes |
| `Heap.Replay` | kernel/memory/heap.c:48-121 | every run of kmalloc and kfree that frees only live pointers leaves exactly the block list of first-fit allocation and coalescing, tiling the heap, linked both ways and without neighbouring free blocks, with exactly the live pointers in use; with none left the heap is the single initial block |
| `Heap.Do` | kernel/memory/heap.c:48-121 | one request takes the first block that fits or frees and joins the block of a live pointer |
| `Heap.KernelHeap.constructor` | kernel/memory/heap.c:39-44 | one free block fills the heap |
| `Heap.KernelHeap.Kmalloc` | kernel/memory/heap.c:48-82 | takes the lowest free block that fits; with more than 56 bytes to spare it leaves a free block of the rest less 40 behind, else the whole block is taken, and no other block changes; 0 exactly for size 0 or when no block fits, and then nothing changes; the block handed out holds the size asked for if and only if that is at most 2^64 - 8 |
| `Heap.KernelHeap.Kfree` | kernel/memory/heap.c:84-121 | the block is free and joined with its free neighbours; a null pointer or a header without the magic number changes nothing |
| `Heap.KernelHeap.Split` | kernel/memory/heap.c:59-74 | the header writes of a split make the block list with the block cut in two |
| `Heap.KernelHeap.MergeNext` | kernel/memory/heap.c:103-109 | a free next block is absorbed |
| `Heap.KernelHeap.MergePrev` | kernel/memory/heap.c:111-118 | the block is absorbed by a free previous block |
| `Heap.KernelHeap.Absorb` | kernel/memory/heap.c:104-108 | absorbing the next block keeps next and prev mutually inverse |
| `Heap.AlignRoundsUp` | kernel/memory/heap.c:53 | alignment rounds up to a multiple of 8 exactly for sizes up to 2^64 - 8; larger ones wrap to 0 |
| `Heap.MallocHuge` | kernel/memory/heap.c:48-82 | a request for 2^64 - 1 bytes is served with a block of no bytes |
| `HeapBlocks.TakenGood` | kernel/memory/heap.c:59-74 | allocation keeps the blocks tiling the heap and no two neighbours free |
| `HeapBlocks.ReleasedGood` | kernel/memory/heap.c:101-118 | freeing keeps the blocks tiling the heap and no two neighbours free |
| `HeapBlocks.ReleaseUndoesTake` | kernel/memory/heap.c:57-118 | kfree straight after kmalloc restores the exact block list |
| `HeapBlocks.TakenUsed` | kernel/memory/heap.c:59-76 | allocation adds exactly the given block to those in use |
| `HeapBlocks.ReleasedUsed` | kernel/memory/heap.c:101-118 | freeing removes exactly that block from those in use |
| `HeapBlocks.UsedApart` | kernel/memory/heap.c:48-82 | blocks in use do not overlap |
| `HeapBlocks.NothingUsed` | kernel/memory/heap.c:84-121 | a heap with nothing in use is the single initial block |
| `MlfqSpec.ExactlyOnePlace` | kernel/process/process.c:252-355 | after every run the current process, the four ready queues and the sleep queue together hold each live process exactly once and nothing else |
| `MlfqSpec.StepGood` | kernel/process/process.c:252-488 | every step keeps each live process in exactly one place and its level and slice on schedule |
| `MlfqSpec.LevelByTicks` | kernel/process/process.c:256-269 | the level of a created process is a function of its CPU ticks alone (0 below 2, 1 below 7, 2 below 17, 3 from then on) and its slice is the distance to the next threshold, so yielding early never resets it |
| `MlfqSpec.PacedTick` | kernel/process/process.c:315-316 | a charged tick with the refill that may follow keeps level and slice on the schedule, for created and forked processes alike |
| `MlfqSpec.TickEffect` | kernel/process/process.c:306-355 | a tick adds one to the clock and to the CPU time of the current process and takes one off its slice; with the last tick it drops a level, as far as level 3, to a slice of 2, 5, 10 or 20; no other level, slice or CPU time changes |
| `MlfqSpec.YieldEffect` | kernel/process/process.c:256-269 | yielding keeps the rest of the slice and the level; only a used-up slice costs a level |
| `MlfqSpec.CreateEffect` | kernel/process/process.c:109-173 | a created process waits last at level 0 with two ticks and no CPU time, and nothing else changes |
| `MlfqSpec.ForkEffect` | kernel/process/process.c:410-460 | a forked process waits last at the level of its parent with a full slice and no CPU time, and nothing else changes |
| `MlfqSpec.ExitEffect` | kernel/process/process.c:403-405 | a process that exits is gone and no other task changes |
| `MlfqSpec.WakesAtNthTick` | kernel/process/process.c:474-488 | a process that sleeps n >= 1 ticks is asleep and not current in every run with fewer than n ticks and is awake at the n-th |
| `MlfqSpec.SleepEffect` | kernel/process/process.c:474-488 | a process that sleeps is the last of the sleepers until now + n modulo 2^64, and nothing else of any task changes |
| `MlfqSpec.WakeOrder` | kernel/process/process.c:328-346 | of two processes of one level that a tick wakes, the one that went to sleep first is ready first, both behind those that were ready |
| `MlfqSpec.SleepStep` | kernel/process/process.c:328-346 | a sleeper leaves the sleep queue exactly at the first tick that reaches its time |
| `MlfqSpec.NeverHalts` | kernel/process/process.c:282-289 | some ready queue is not empty whenever the scheduler picks, so the halt-and-return branch is unreachable |
| `MlfqSpec.Fifo` | kernel/process/sched_mlfq.c:9-70 | over every run each level is first in, first out: what was dispatched from it followed by what still waits is what waited at first followed by all that joined |
| `MlfqSpec.PicksLongestWaiting` | kernel/process/sched_mlfq.c:52-70 | after any run a pick takes, from the best level where anyone waits, the process that has waited longest: of the arrivals at that level those before it have been dispatched and those after it still wait, and at better levels all have been dispatched |
| `MlfqSpec.FifoStep` | kernel/process/process.c:252-355 | in one step a queue loses at most its head and gains at its tail |
| `Mlfq.Replay` | kernel/process/process.c:252-488 | every run of create, fork, yield, tick, sleep and exit from boot on the linked process structures ends in the state of the same run of the abstract scheduler, with all lists well formed despite the shared link |
| `Mlfq.Scheduler.constructor` | kernel/process/process.c:52-92 | process 0 runs and all queues are empty |
| `Mlfq.Scheduler.Create` | kernel/process/process.c:109-173 | the new process waits at the tail of level 0; without memory nothing is queued |
| `Mlfq.Scheduler.Fork` | kernel/process/process.c:410-460 | the child waits at the tail of its parent level with a full slice and no CPU time |
| `Mlfq.Scheduler.Schedule` | kernel/process/process.c:252-304 | requeues the running process, one level down when its slice is used up, and runs the head of the best non-empty level |
| `Mlfq.Scheduler.RequeueCurrent` | kernel/process/process.c:256-269 | the demotion and requeueing of the running process |
| `Mlfq.Scheduler.Tick` | kernel/process/process.c:306-355 | charges the current process, wakes the sleepers that are due, and schedules when the slice is used up |
| `Mlfq.Scheduler.WakeSleepers` | kernel/process/process.c:328-346 | the loop wakes exactly the sleepers that are due, in order, each to the tail of its level |
| `Mlfq.Scheduler.WakeUp` | kernel/process/process.c:333-341 | unlinking one sleeper and enqueueing it through the same link keeps all lists well formed |
| `Mlfq.Scheduler.Sleep` | kernel/process/process.c:474-488 | the current process goes to the tail of the sleep queue with its time modulo 2^64, and the next process runs |
| `Mlfq.Scheduler.LastSleeper` | kernel/process/process.c:478-483 | the walk reaches the tail of the sleep queue |
| `Mlfq.Scheduler.Exit` | kernel/process/process.c:403-405 | the current process leaves the live processes and the next one runs |
| `Mlfq.Scheduler.Yield` | kernel/process/process.c:357-359 | yielding is one scheduling step |
| `Mlfq.Scheduler.EnqueueTask` | kernel/process/sched_mlfq.c:9-25 | appends the process to the queue of its clamped level and changes nothing else but links |
| `Mlfq.Scheduler.PickNext` | kernel/process/sched_mlfq.c:52-70 | removes and returns the head of the best non-empty level, 0 exactly when all are empty |
| `Mlfq.Scheduler.DequeueTask` | kernel/process/sched_mlfq.c:27-50 | unlinks the process from the queue of its level wherever it stands, tail included; an unqueued process changes nothing |
| `BufferCache.Replay` | kernel/fs/buffer.c:29-124 | under every interleaving of any number of threads in find, allocate, re-check and insert, release and dirtying, each step has exactly the effect the step relation gives it, and: at most one cached buffer per device, block and size; every reference handed out is to a cached buffer and b_count equals the references; buffer_cache_count is the cached buffers plus the private ones plus the lost races |
| `BufferCache.CountLaw` | kernel/fs/buffer.c:66-120 | buffer_cache_count exceeds the cached buffers exactly by the buffers not yet inserted and the lost insertion races |
| `BufferCache.Do` | kernel/fs/buffer.c:29-124 | one atomic step of one thread changes references, private buffers, losses and threads exactly as the step relation says |
| `BufferCache.AtMostOne` | kernel/fs/buffer.c:84-99 | two cached buffers with the same device, block and size are the same buffer |
| `BufferCache.Cache.constructor` | kernel/fs/buffer.c:16-20 | the cache starts empty |
| `BufferCache.Cache.FindGet` | kernel/fs/buffer.c:29-44 | a new reference to the cached buffer, 0 exactly when the key is not cached |
| `BufferCache.Cache.Scan` | kernel/fs/buffer.c:84-94 | the chain scan finds the buffer exactly when it is cached |
| `BufferCache.Cache.Alloc` | kernel/fs/buffer.c:47-68 | a private buffer with one reference, counted at once |
| `BufferCache.Cache.Publish` | kernel/fs/buffer.c:79-103 | caches the private buffer exactly when nobody cached the key meanwhile; otherwise frees it and returns the other, leaving the count one too high |
| `BufferCache.Cache.Insert` | kernel/fs/buffer.c:96-99 | the new head of the chain is linked both ways |
| `BufferCache.Cache.Brelse` | kernel/fs/buffer.c:107-124 | one reference less; the buffer is freed exactly when that was the last one, it is clean and the count is above 1024; no other buffer changes |
| `BufferCache.Cache.Unlink` | kernel/fs/buffer.c:115-119 | the buffer leaves its chain and is freed; every chain is linked both ways again, the other chains and the keys, counts and flags of all other buffers stay |
| `BufferCache.Cache.SetDirty` | kernel/fs/buffer.c:201-215 | the dirty flag of a held buffer changes and nothing else |
| `BufferCache.InsertTable` | kernel/fs/buffer.c:96-99 | inserting at the head keeps every chain linked both ways, hashed right and without duplicates |
| `BufferCache.UnlinkTable` | kernel/fs/buffer.c:115-116 | unlinking through the back-pointer keeps every chain linked both ways, hashed right and without duplicates |
| `PathSpec.RoundTrip` | kernel/fs/vfs.c:205-283 | walking the printed path of a directory with plain names leads back to it if and only if no newer dentry hides it or one of its ancestors; then the walk changes nothing |
| `PathSpec.SplitText` | kernel/fs/vfs.c:226-234 | splitting printed names gives the names back |
| `PathSpec.BucketAgrees` | kernel/fs/vfs.c:116-132 | searching the slot of the hash finds what searching all hashed dentries newest first finds |
| `PathSpec.WalkBack` | kernel/fs/vfs.c:205-283 | along ancestors that nothing hides the walk reaches the dentry |
| `PathSpec.WalkHidden` | kernel/fs/vfs.c:205-283 | if a newer dentry hides an ancestor the walk ends elsewhere |
| `PathSpec.WalkUp` | kernel/fs/vfs.c:244-251 | from every dentry ".." leads to its parent, from the root it stays, and nothing changes |
| `PathSpec.WalkUps` | kernel/fs/vfs.c:244-251 | ".." k times over leads k levels up, as far as the root |
| `PathSpec.DotIgnored` | kernel/fs/vfs.c:240-243 | "." inserted anywhere changes no walk |
| `PathSpec.DownAndUp` | kernel/fs/vfs.c:225-278 | down through plain names and up again as often is back at the start, for every allocation list |
| `PathSpec.WalkTooLong` | kernel/fs/vfs.c:235-236 | a component of 256 bytes or more fails and changes nothing |
| `PathSpec.WalkMissing` | kernel/fs/vfs.c:253-272 | a plain name that no hashed child has becomes a negative dentry below its directory, the newest of all; it fails, changing nothing, exactly below something that is no directory or without memory |
| `PathSpec.SplitSlash` | kernel/fs/vfs.c:230-233 | a slash before a path adds no component, so that slashes in a row count as one |
| `PathSpec.FirstIs` | kernel/fs/vfs.c:116-132 | a lookup stops at the newest dentry with that parent and name |
| `PathSpec.HashValues` | kernel/fs/vfs.c:46-54 | the hash of "ab" is 31 * 97 + 98, bytes from 80h on count as negative, and the slot takes in the low 32 bits of the parent address |
| `Vfs.DHash` | kernel/fs/vfs.c:46-54 | the loop computes the name hash, mixed with the parent address, modulo 1024; the values in `PathSpec.HashValues` fix it |
| `Vfs.Namespace.AllocDentry` | kernel/fs/vfs.c:56-91 | a new dentry with its hash, in no slot yet, or nothing when memory is short |
| `Vfs.Namespace.DAdd` | kernel/fs/vfs.c:93-104 | the dentry becomes the newest of its slot and of all |
| `Vfs.Namespace.DLookup` | kernel/fs/vfs.c:116-132 | returns the newest hashed dentry with that parent and name, 0 if there is none |
| `Vfs.Namespace.PathWalk` | kernel/fs/vfs.c:205-283 | the byte-wise walk, from the root for a path with a leading slash and else from the current directory, does what walking the components one by one does, with the same allocations, the same new negative dentries and the same failures |
| `Vfs.Namespace.Enter` | kernel/fs/vfs.c:236-276 | one component does what the walk of that component does, which `WalkUp`, `DotIgnored`, `WalkTooLong`, `WalkMissing` and `FirstIs` state for each kind |
| `Vfs.Component` | kernel/fs/vfs.c:227-229 | the scan ends at the next slash or the end |
| `Vfs.Namespace.Chdir` | kernel/fs/vfs.c:588-604 | the current directory becomes what the path names, exactly when that is a directory |
| `Vfs.Visit` | kernel/fs/vfs.c:588-604 | from any directory, changing into a child and then to ".." ends in the directory it began in |
| `Vfs.Namespace.MakeNode` | kernel/fs/vfs.c:572-586 | always a new dentry, the newest under its parent and name even where there is one by that name; without memory no hashed dentry changes |
| `Vfs.Namespace.Mknod` | kernel/fs/ramfs.c:177-187 | the dentry gets its inode and is hashed as the newest exactly when it was not hashed before |
| `Vfs.MkdirTwice` | kernel/fs/vfs.c:572-586 | with memory, after the same mkdir twice the path of the first directory leads to the second |
| `Vfs.HiddenTwin` | kernel/fs/vfs.c:205-283 | of two directories of one name in the root, walking the path of either leads to the newer one |
| `Vfs.Namespace.Getcwd` | kernel/fs/vfs.c:727-775 | succeeds for a directory other than the root exactly when the sum of name lengths plus one each is at most size - 1, and prints a slash and a name per ancestor; the root prints as a slash; the text and its NUL fit in size bytes except for the root and a size of 1 |
| `Vfs.RootInOneByte` | kernel/fs/vfs.c:750-755 | in the root a buffer of one byte is answered with a text that takes two |
| `Vfs.Prepend` | kernel/fs/vfs.c:764-767 | a name and its slash are copied in front of the text so far |
| `Vfs.Namespace.Reopen` | kernel/fs/vfs.c:727-775 | vfs_getcwd then path_walk: the same directory exactly when nothing hides it or an ancestor |
| `Bpf.Halts` | kernel/security/seccomp.c:9-60 | a program whose unconditional jumps stay in the int range and whose shifts are below 32 ends within its length on all data |
| `Bpf.ForwardIffTame` | kernel/security/seccomp.c:20-57 | an instruction goes forward or ends the program, whatever the registers, if and only if its jump distance stays in the int range and its shift is below 32 |
| `Bpf.Spins` | kernel/security/seccomp.c:48 | a jump by 2^32 - 1 comes back to itself for ever |
| `Bpf.RunFilter` | kernel/security/seccomp.c:9-60 | the loop ends after at most as many instructions as the program has, with the verdict that `BpfPrograms` states in numbers |
| `Bpf.ComputedBits` | kernel/security/seccomp.c:34-43 | and, or, exclusive or and the shifts, bit by bit; subtraction undoes addition, negating or flipping twice changes nothing, and the quotient with 0 for a zero divisor |
| `Bpf.SharedBit` | kernel/security/seccomp.c:52 | the bit-test jump is taken if and only if accumulator and constant share a bit |
| `BpfPrograms.Arithmetic` | kernel/security/seccomp.c:34-44 | a filter that sets the accumulator to c, adds, subtracts, multiplies, divides by or loads k, or negates, and returns it has as its verdict that value modulo 2^32, and 0 for a division by 0 |
| `BpfPrograms.Bitwise` | kernel/security/seccomp.c:38-42 | the same filter with and, or, exclusive or and the shifts, bit by bit of its verdict |
| `BpfPrograms.Conditions` | kernel/security/seccomp.c:49-52 | a filter that sets the accumulator to c, tests it against k and returns one of two values returns the first exactly if c == k, c > k, c >= k, or c and k share a bit |
| `BpfPrograms.Targets` | kernel/security/seccomp.c:48-52 | before a table of 256 numbered returns, each conditional jump returns the number jt if its condition holds and jf if not, and an unconditional one its constant |
| `BpfPrograms.IndexBack` | kernel/security/seccomp.c:45-46 | what was moved to the index register comes back from it |
| `BpfPrograms.IndexKept` | kernel/security/seccomp.c:20-52 | loads, computations and jumps leave the index register as it is |
| `BpfPrograms.AccumulatorKept` | kernel/security/seccomp.c:45-52 | jumps and the move to the index register leave the accumulator as it is |
| `BpfPrograms.Loads` | kernel/security/seccomp.c:21-29 | a filter that loads at k and returns has the little-endian word of the data at k as its verdict, and kills for k from 64 on |
| `BpfPrograms.Returns` | kernel/security/seccomp.c:30-59 | a return gives its constant; an unknown instruction and the end of the filter kill |
| `Seccomp.Replay` | kernel/security/seccomp.c:91-136 | over every run of attach, fork, copy and exit, up to the first exit that frees a filter another process has: the chains and the uncounted copies are those the requests describe; each filter counts the processes whose chain contains it less its uncounted copies, which is at least one, and no prev link dangles, if and only if there is no such exit |
| `Seccomp.ExactUntilCopied` | kernel/process/process.c:414 | over every run each count is exactly the number of processes that have the filter if and only if no copy of a process with filters went uncounted, and until then no exit can free a filter in use |
| `Seccomp.Filters.Copy` | kernel/process/process.c:414 | copying the process copies the head of its chain and no count, so that each filter on it has one more uncounted copy |
| `Seccomp.CopyThenExit` | kernel/process/process.c:387 | attach, copy, exit: a process that is still there holds a freed filter |
| `Seccomp.NoDangling` | kernel/security/seccomp.c:91-136 | the prev link of a live filter is null or a live filter |
| `Seccomp.Filters.Check` | kernel/security/seccomp.c:62-89 | 0 exactly when every filter of the chain allows the call |
| `Seccomp.AllowsIs` | kernel/security/seccomp.c:74-75 | a filter lets a call pass exactly when bits 16 to 30 of its verdict are all set |
| `Seccomp.Data` | kernel/security/seccomp.c:67-70 | the word at 0 is the call number, the word at 4 is C000003Eh and the next eight bytes are 0 |
| `Seccomp.Filters.Attach` | kernel/security/seccomp.c:91-106 | a new filter with one reference in front of the chain of that process only |
| `Seccomp.Filters.AttachThenCheck` | kernel/security/seccomp.c:62-106 | attaching only narrows: the call passes afterwards exactly when it passed before and the new filter allows it |
| `Seccomp.Filters.Fork` | kernel/security/seccomp.c:108-122 | the child shares the chain and each filter on it counts one more |
| `Seccomp.Filters.Exit` | kernel/security/seccomp.c:124-136 | each filter of the chain counts one less and is freed exactly when its users are one more than its uncounted copies; all chains stay whole if and only if no filter freed so has another user |
| `Pipe.Replay` | kernel/ipc/pipe.c:86-150 | under every interleaving of any number of readers, writers and closes the ring ends in the state of the same steps on a plain queue: bytes removed followed by ring contents are the bytes inserted, write_pos is (read_pos + available) mod 4096, occupancy stays within 0..4096, each reader holds its share of the removed bytes, each writer has inserted a prefix of its data, and each call returns the number of its bytes, or -1 for a write that was cut short |
| `Pipe.WriteStops` | kernel/ipc/pipe.c:126-149 | in every run a write returns -1 exactly in a step of its own that finds 4096 bytes in the ring and no reader left, its length exactly in one that finds all data written, and nothing else ever |
| `Pipe.ReadStops` | kernel/ipc/pipe.c:93-116 | in every run a read returns exactly in a step of its own that finds it complete or finds the ring empty and no writer left, and then the number of its bytes |
| `Pipe.Waits` | kernel/ipc/pipe.c:96-138 | in every run a step of an unfinished call changes nothing exactly when it is a read on an empty ring with a writer left or a write on a full ring with a reader left |
| `Pipe.OneStream` | kernel/ipc/pipe.c:86-150 | with one reader and one writer the bytes read are a prefix of the data written and the ring holds what lies between |
| `Pipe.Ends.constructor` | kernel/ipc/pipe.c:21-33 | an empty ring with one end each |
| `Pipe.Ends.ReadByte` | kernel/ipc/pipe.c:94-113 | takes the oldest byte; end of file exactly when the ring is empty and no writer is left |
| `Pipe.Ends.WriteByte` | kernel/ipc/pipe.c:127-146 | stores the byte behind the newest; refused exactly when the ring is full, as a broken pipe when no reader is left |
| `Pipe.Ends.Close` | kernel/ipc/pipe.c:158-168 | one end less, the bytes stay, and the pipe is freed exactly when no end is left |
| `Pipe.Turn` | kernel/ipc/pipe.c:93-114 | one critical section of a call is one step on the queue; `WriteStops`, `ReadStops` and `Waits` state when that returns or waits |
| `Pipe.RingPut` | kernel/ipc/pipe.c:140-142 | storing at write_pos appends to the contents, across the wrap-around |
| `Pipe.RingGet` | kernel/ipc/pipe.c:107-109 | advancing read_pos drops the first of the contents, across the wrap-around |
| `Checksum.Fold` | kernel/net/ipv4/ip.c:20-22 | the folding loop ends with the ones' complement sum: the total modulo 65535 as 1 .. 65535, or 0 for 0 |
| `Checksum.IpChecksum` | kernel/net/ipv4/ip.c:11-24 | the complement of the ones' complement sum of the 32-bit total of all words and the odd byte |
| `Checksum.TotalIs` | kernel/net/ipv4/ip.c:13-19 | the total: two bytes more add the word of which they are the low and the high byte, an odd byte adds itself |
| `Checksum.IcmpChecksum` | kernel/net/ipv4/icmp.c:6-17 | the same value as ip_checksum on every buffer |
| `Checksum.MachineRight` | kernel/net/ipv4/ip.c:13-19 | the 32-bit accumulator gives the standard's value if and only if no carry was lost, or a multiple of 65535 of them with a remaining sum that is not 0 |
| `Checksum.ShortEnough` | kernel/net/ipv4/ip.c:11-24 | every buffer of up to 131074 bytes gets the standard's value |
| `Checksum.LostCarry` | kernel/net/ipv4/ip.c:13-19 | one byte more can be too many: 131075 bytes of ones get a wrong checksum |
| `Checksum.StoredChecks` | kernel/net/ipv4/ip.c:44-48 | storing the checksum in a zeroed, word-aligned field makes the checksum of the whole buffer 0 |
| `Checksum.ByteOrder` | kernel/net/ipv4/ip.c:12-16 | computed over little-endian words and stored low byte first, the checksum is byte for byte the one defined over network-order words |
| `Checksum.SendHeader` | kernel/net/ipv4/ip.c:33-48 | byte by byte: 45h, 0, the length high byte first, identification 1, no fragment, 64, the protocol, source and destination address in place, and a checksum with which the header checks to 0 |
| `Checksum.IcmpReply` | kernel/net/ipv4/icmp.c:19-33 | addresses swapped, type echo reply, both checksums right, and nothing else changed |
| `Checksum.Seal` | kernel/net/ipv4/icmp.c:29-33 | zeroing a check field and storing the checksum of its part makes that part check to 0 |

## Left out

- Drivers, interrupt and descriptor tables, context switching, assembly, sockets, ARP, DHCP, TCP, message queues, shared memory, cgroups, namespaces, signals, the module loader and exec: register access or lists that would only add easy members.
- Spinlocks: critical sections are atomic; the timeout that forces a lock open is not modelled. The unlocked increment of `buffer_cache_count` counts as atomic too.
- Reference counts of pages and dentries (`_count`, `d_count`), `readpage` hooks, list heads other than the hash lists, and inode contents behind a dentry apart from its kind.
- Sector reads and writes are taken to succeed; the buffer data transfer with its uptodate flag is not modelled.
- FAT32: the boot sector at mount, long names, the making of 11-byte names (which never begin with a zero byte), the entries "." and "..", lookup, readdir and mkdir.
- FAT32 volumes have a table slot and data sectors for every cluster below total sectors divided by sectors per cluster (`FatDisk.Fits`). That is the bound of the free-cluster search in the source, which counts the reserved sectors and the tables in, so that a real volume must have as many sectors to spare behind its data. Entries in use name an allocated chain, or cluster 0 or 1 (`FatCatalog.Tidy`).
- `pmm_init` and the multiboot map: the allocator starts from a bitmap of a whole number of bytes with frame 0 in use.
- PML4 slot 0, 2 MiB pages, `vmm_free_user_space`, TLB invalidation.
- Mount points in path walking, and the file operations of the VFS other than chdir and getcwd.
- Real-time and fair scheduling classes, priority changes, wait queues, CPU limits and the wake of a blocked parent at exit: no process is blocked in the runs that are modelled, so that branch is dead.
- Process identifiers, the process list, stacks and address spaces.
- The 32-bit width of reference counts (`b_count`, `ref_count`) and of `buffer_cache_count`: they are unbounded integers here.
- RadixTree.Tree.Insert: indices are below 2^60, because beyond height 10 the shift by 6 times the height is not defined in C; the page cache only uses 64-bit positions divided by 4096. Items are not null.
- FatIo.Write: offsets are below 2^32, the width of `target_pos`.
- Pmm.Allocator.AllocPages: counts are at most the number of frames; beyond that the bound of the source loop is an unsigned difference that wraps.
- Vmm.AddressSpace.MapPage: addresses whose PML4 slot is not 0; when frames run out the entries of frame 0 are left open.
- Mmio.Window.Ioremap: for calls that stay in the upper half and below 2^52 physical; after the first page without frames the remaining pages are not followed, as the source maps them through frame 0.
- Vmm.AddressSpace.UnmapPage: addresses whose PML4 slot is not 0.
- Vmm.AddressSpace.GetPte: addresses whose PML4 slot is not 0.
- Vmm.AddressSpace.GetPhys: addresses whose PML4 slot is not 0.
- Vmm.AddressSpace.FindTable: addresses whose PML4 slot is not 0.
- Heap.KernelHeap.Kfree: the pointer is null, live, or has a header without the magic number; other pointers are outside what the heap promises.
- Mlfq.Scheduler.Tick: the 64-bit tick counter does not wrap, and so neither does any CPU time.
- Mlfq.Scheduler.Sleep: not by process 0, which is what keeps a process ready at all times.
- Mlfq.Scheduler.Exit: not by process 0, for the same reason.
- BufferCache.Cache.Brelse: the caller holds a reference to the buffer.
- Vfs.Namespace.Getcwd: the final copy is the returned text, not the caller's buffer.
- Bpf.RunFilter: programs whose unconditional jumps stay in the int range and whose shifts are below 32; others need not end (`Bpf.Spins`), or have a step that C leaves undefined.
- Seccomp.Filters.Check: every program on the chain is sane in the sense of `Bpf.Sane`; for others the interpreter may not end.
- Seccomp.Filters.Fork: the child has no filter chain of its own yet.
- Seccomp.Filters.Attach: the copy of the program text always finds memory, as the source does not test for it.
- Pipe.Ends.Close: waiting calls are not woken.
- Seccomp.Replay: a run ends with the first exit that frees a filter another process has; from there on that process follows a dangling pointer.
- Pipe.Turn: sleeping and waking are not modelled; a call that cannot go on simply takes no step. The check of the open mode is left out.
