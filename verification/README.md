# Kernel storage, verified

A Dafny model of the storage side of a small 32-bit kernel: the block heap, the page tables built
from it, the byte streams over a sector disk, FAT16 on those streams, and the path parser, numeral
conversions and descriptor table next to them. `dafny verify dfyconfig.toml` checks all of it.

Code that changes state in the kernel changes state here: the heap, the streams, the file system,
the descriptor table, the parsed path and the string buffers are classes and arrays whose methods
keep the loops, branches, constants and 32-bit, 16-bit and 8-bit truncations of the C code. Each
method is proved against a function of the old state. Lemmas about those functions then say what
the code is for, over whole runs where it keeps state.

Files, in the order they build on each other:

- `Machine.dfy`: integer widths and wrap-around; `|` and `&` on naturals.
- `HeapTable.dfy`, `Heap.dfy`: the block table as a value with its runs, and the heap in memory.
- `PageTables.dfy`, `Paging.dfy`: the processor's two-level walk, and the tables built in heap blocks.
- `DiskStream.dfy`: streams that read, and read-modify-write, whole sectors of a flat disk.
- `FatVolume.dfy`, `FatChain.dfy`, `FatFiles.dfy`, `FatDisks.dfy`, `Fat16.dfy`: volume layout, cluster
  chains, files and the root directory as bytes of the flat disk, the disks that show where reads
  fail, and the file system class over three streams.
- `FatNames.dfy`, `Strings.dfy`, `PathParser.dfy`, `FileTable.dfy`: 8.3 lookup, C strings and
  numerals, the path parser with its linked list, the open-file table.

## Where the code departs from its intent

The model follows the code as written. Where a promise does not hold of it, the project proves
exactly when it does:

- Freeing an allocation of n >= 2 blocks releases n - 1 of them, and zeroes one. The lost block is
  never free again (`OrphansAreForever`); malloc then free restores the table exactly for
  one-block requests (`FreeUndoesMallocIff`).
- A request that rounds to zero bytes takes block 0 without anyone owning it; this is harmless
  exactly when block 0 already starts an allocation (`ZeroMallocKeepsInvIff`).
- A stream transfer is exact, for all disks and data, exactly when its sector count, computed
  without the in-sector offset and narrowed to 8 bits, covers it (`ReadExactIff`, `WriteExactIff`).
- The copy into or out of a stream's buffer runs into the heap block behind it exactly when the position
  is not sector-aligned and its offset does not fit behind the transfer in the buffer's last block
  (`CopyStaysInBufferIff`).
- A stream transfer of more than one block's bytes costs the heap a block, because its buffer is given
  back by that free (`BufferIsReturnedIff`).
- The recursive cluster read delivers the file's bytes, on every disk and for every file, exactly for
  one covered piece inside a cluster, or up to two clusters from the file's start
  (`ReadDeliversFileIff`); a read of many members is right exactly when each of them is
  (`MembersDeliverFileIff`). Everywhere else a disk is given on which a wrong byte comes back, with a
  whole file of different clusters as long as there are enough of them (`WholeFileReadIff`), the
  smallest being a chain of one-sector clusters (`SmallDiskIsReadWrong`). A repaired recursion is right
  for every request (`RepairedIsExact`). Dividing the cluster size is enough for a member size when
  clusters are a power of two of sectors, and not in general (`ThreeSectorClusterFails`).
- The FAT lookup multiplies where it should add. It reads a cluster's own entry exactly when
  (reserved - 1) * (cluster - 256) is 256, or 2^31 + 256 by way of a wrap (`LookupIsRightIff`,
  `ReadsOwnEntryIff`): for no cluster with one reserved sector, and for at most one cluster of any
  volume (`LookupExamples`, `AtMostOneIsRight`); on the kernel's own volume there is none
  (`KernelVolumeLayout`). The chain theorems hold for any lookup; the class
  uses the written one.
- The end marks of a chain are the 12-bit ones. A chain that the specification follows is followed by
  the kernel exactly when none of its clusters behind the first is numbered 0xFF0, 0xFF6, 0xFF7,
  0xFF8 or 0xFFF (`SpecChainIsChainIff`, `SpecFileIsFileIff`), and every 16-bit end mark but the free
  entry is taken for one more cluster (`EndMarkIsRead`).
- No first write marks its cluster as taken. The next new file gets the same cluster exactly when the
  new entry and data do not change, in passing, whether a cluster up to that one looks free
  (`SharesClusterIff`, and `RunSharesClusterIff` for whole runs). That is so, and the last file's data
  is what the cluster holds, when the lookups lie in front of the directory (`RunSharesCluster`), as they do below cluster 256 (`LowLookupsInFront`); on another volume
  the second file finds another cluster (`OverlappingVolumeFindsAnother`).
- On a full volume the narrowed error code becomes the new file's cluster (`FullVolumeIff`), and with a
  full root directory its entry goes into the data area (`EntryStaysInRootIff`).
- Reads combine both halves of an item's cluster number and writes take the low one, so data comes back
  exactly when the high half adds no bit (`StoredReadsBackIff`).
- Clusters stay clear of the root directory exactly when its entries fill whole sectors
  (`ClustersClearRootIff`).
- The test for deleted directory entries compares a signed `char` with 0xE5 and never fires, so the
  count is that of the entries in use exactly when no entry is deleted (`CountIsLiveIff`). A working
  test would make an append miss the end marker in just the other cases (`AppendNeedsDeadTest`).
- The kernel's 8.3 spelling is right exactly for bases of less than 8 characters with an
  extension that a pad, or an attribute byte that looks like one, ends (`FullNameIsShortNameIff`).
- Path parts but the last keep their slash. The list ends properly exactly when the text behind
  the drive starts with a slash, or has no double slash and no slash at its end other than its only
  one (`LinksBackIff`); otherwise its last two nodes form a cycle.
- `itoa` of the smallest integer writes only the sign and the terminator.
- Handle 1024 can be given out but is not looked up, so its slot is lost for good (`LastSlotIsLost`).

## Model

| member | source | states |
|---|---|---|
| HeapTable.AlignRequestCovers | src/lib/memory/heap.c:57-66 | rounding covers the request with less than a block to spare, and yields zero exactly for an empty request or one whose rounding wraps at 2^32 |
| HeapTable.RunEntryFlags | src/lib/memory/heap.c:139-151 | every block of a run is taken, FIRST is on the first only, HAS_NEXT on the strictly inner ones only; the entries are 0x41, 0x81 and 0x01 |
| HeapTable.FirstFit | src/lib/memory/heap.c:98-132 | the lowest start of a long-enough run of free blocks, and none exactly when there is no such run |
| HeapTable.MallocIsFirstFit | src/lib/memory/heap.c:122-153 | malloc panics exactly when no free run is long enough; otherwise it takes the lowest, apart from every live allocation |
| HeapTable.MallocStaysClear | src/lib/memory/heap.c:135-154 | malloc changes entries of free blocks only, so no live allocation's |
| HeapTable.MallocKeepsInv | src/lib/memory/heap.c:135-154 | a nonzero malloc keeps the split into live runs, free blocks and orphans, and the count of taken blocks |
| HeapTable.ZeroMallocKeepsInvIff | src/lib/memory/heap.c:89-96 | a malloc that rounds to zero keeps the heap sound if and only if block 0 starts a live allocation |
| HeapTable.FreeReleases | src/lib/memory/heap.c:174-186 | free panics exactly on a block that starts no live allocation, and releases all but the last of two or more blocks |
| HeapTable.FreeKeepsInv | src/lib/memory/heap.c:156-187 | free keeps the heap sound, with one more orphan when two or more blocks were freed |
| HeapTable.FreeStaysInside | src/lib/memory/heap.c:180-186 | free changes entries of the allocation being freed only, all but the last of two or more, and zeroes the words of its first block only |
| HeapTable.CreatedInv | src/lib/memory/heap.c:34-55 | a freshly created heap is sound |
| HeapTable.RunKeepsInv | src/lib/memory/heap.c:135-187 | every run of mallocs, frees and stores keeps a sound heap sound |
| HeapTable.RunFromCreate | src/lib/memory/heap.c:34-187 | in every run from creation live runs are in range and disjoint, a HAS_NEXT entry is exactly one strictly inside a live run, and taken blocks number the live ones plus past frees of two or more blocks |
| HeapTable.NextIffStrictlyInside | src/lib/memory/heap.c:144-148 | HAS_NEXT holds exactly strictly inside a live run before its last block, and that run is unique |
| HeapTable.FreeUndoesMallocIff | src/lib/memory/heap.c:135-187 | malloc then free restores the table exactly when the request rounds to one block |
| HeapTable.OrphansAreForever | src/lib/memory/heap.c:180-186 | a block lost by a free stays taken and unowned through every later run |
| HeapTable.FreedIsZeroIff | src/lib/memory/heap.c:182-183 | a freed buffer is all zero exactly when everything behind its first block already was; a one-block buffer always is |
| HeapTable.FreedBlockReadsZero | src/lib/memory/heap.c:182-183 | the first block of any freed buffer reads as zero |
| HeapTable.RunPreservesContents | src/lib/memory/heap.c:135-187 | through any run, an allocation nobody frees or stores into stays live with its contents |
| KernelHeap.Memset | src/lib/memory/memory.c:12-20 | sets exactly the whole words that fit the size and no other |
| KernelHeap.Heap.constructor | src/lib/memory/heap.c:47-54 | the new heap is sound and all free |
| KernelHeap.Heap.Create | src/lib/memory/heap.c:34-55 | refused exactly when the start is not on a block boundary, else an all-free heap |
| KernelHeap.Heap.RequestMemory | src/lib/memory/heap.c:88-133 | the scanning loop finds the first fit, or panics where there is none |
| KernelHeap.Heap.MarkBlocks | src/lib/memory/heap.c:139-151 | writes a whole run's entries and leaves all others |
| KernelHeap.Heap.ClearBlocks | src/lib/memory/heap.c:178-186 | frees entries while the next one has HAS_NEXT, and zeroes only the start block |
| KernelHeap.Heap.Malloc | src/lib/memory/heap.c:135-154 | the whole new state is the first-fit step; panics exactly where it does; contents unchanged; address on the found block |
| KernelHeap.Heap.Zalloc | src/lib/memory/memory.c:40-46 | malloc, with the requested bytes' whole words zeroed and nothing else written; an empty request only takes block 0 |
| KernelHeap.Heap.Free | src/lib/memory/heap.c:156-187 | succeeds exactly for addresses in the first block of a live allocation; new state is the release step, else nothing changes |
| PageTables.EntryParts | src/lib/memory/paging.c:18-23 | or-ing flags below a page address keeps the address, and masking recovers it |
| Bits.OrBits | src/lib/memory/paging.c:18-23 | a bit of the or is set if and only if it is set in one of the two, for every bit |
| Bits.AndBits | src/lib/memory/paging.c:70 | a bit of the and is set if and only if it is set in both |
| PageTables.DirectoryEntryParts | src/lib/memory/paging.c:23 | a directory entry's frame is its table's block; it is present exactly when the flags are |
| PageTables.DirectoryEntryKeepsFlags | src/lib/memory/paging.c:23 | a directory entry is its table's address with, below it, exactly the bits of the flags and the writable bit |
| PageTables.TableEntryParts | src/lib/memory/paging.c:18 | a table entry's frame is its own page; it is present exactly when the flags are |
| PageTables.KernelFlags | src/kernel.c:26 | with the flags the kernel passes every entry is an address plus 7 |
| PageTables.WalkReadsPageEntry | src/lib/memory/paging.c:69-72 | the processor's walk ends at the entry stored for the address's page |
| PageTables.IdentityMap | src/lib/memory/paging.c:10-30 | over filled tables every 32-bit address walks to itself with the given flags, or faults when they lack "present" |
| PageTables.IndexesAreBijective | src/lib/memory/paging.c:40-56 | splitting is a bijection between aligned addresses and index pairs below 1024 |
| PageTables.SetOverridesOnePage | src/lib/memory/paging.c:58-75 | an aligned set overrides exactly its page's entry; an unaligned one changes nothing and is reported |
| PageTables.SetAllRefinesPageMap | src/lib/memory/paging.c:58-75 | after any sequence of sets, each of the 2^20 pages holds its last aligned setting or its old entry, and the directory and its tables are intact |
| PageTables.WalkAfterSettings | src/lib/memory/paging.c:58-75 | after any sequence of sets the processor translates an address by its page's last aligned setting, or as before if there is none |
| PageTables.IdentityAfterSettings | src/lib/memory/paging.c:10-75 | on a created chunk with present pages, addresses of pages never set still map to themselves and the others go where the last setting says, or fault when it is not present |
| Paging.OneBlockMalloc | src/lib/memory/paging.c:15 | a one-block malloc succeeds exactly when some block is free, and makes one new block live |
| Paging.FillTable | src/lib/memory/paging.c:17-19 | the inner loop fills exactly its table's block with that table's 1024 pages |
| Paging.AddTable | src/lib/memory/paging.c:14-24 | one round adds a new, distinct table and its directory entry, and leaves older allocations alone; fails exactly when no block is free |
| Paging.AddTables | src/lib/memory/paging.c:14-24 | the loop builds all 1024 tables, exactly when 1024 blocks are free |
| Paging.AddRecord | src/lib/memory/paging.c:26-29 | the chunk record is a further new block that holds the directory's address |
| Paging.CreateChunk | src/lib/memory/paging.c:10-30 | from any sound heap: succeeds exactly with 1026 free blocks; directory, tables and record are distinct new blocks, every address maps to itself with the flags, every directory entry keeps all flags and is writable, older live allocations keep their contents |
| Paging.Set | src/lib/memory/paging.c:58-75 | the store through the directory is the page-map update, status included |
| DiskStreams.ReadExactIff | src/lib/fs/disk_stream.c:45-74 | a read delivers the flat disk's bytes for every disk that holds the range and any stale memory if and only if the sectors moved cover it |
| DiskStreams.WriteExactIff | src/lib/fs/disk_stream.c:76-113 | a write changes exactly its own bytes for every disk that holds the range and all data if and only if the sectors moved cover it |
| DiskStreams.WriteThenRead | src/lib/fs/disk_stream.c:45-113 | a covered write read back returns the data |
| DiskStreams.EntriesAreCovered | src/lib/fs/disk_stream.c:22-27 | 32-byte entries at 32-aligned positions are always exact |
| DiskStreams.PairsAreCovered | src/lib/fs/disk_stream.c:22-27 | 2-byte entries at even positions are always exact |
| DiskStreams.SectorsAreCoveredIff | src/lib/fs/disk_stream.c:22-27 | sector-aligned transfers are exact if and only if they take at most 255 sectors |
| DiskStreams.RefusedWrite | src/lib/fs/disk_stream.c:88-93 | a write that is refused would have changed nothing |
| DiskStreams.SectorsReach | src/lib/io/disk.c:93-107 | up to 255 sectors, the 8-bit count moves the whole transfer with less than a sector to spare |
| DiskStreams.TransferCounts | src/lib/fs/disk_stream.c:22-27 | a transfer is rounded up to sectors, moves that number modulo 256, and is refused if and only if that is none |
| DiskStreams.BufferIsReturnedIff | src/lib/fs/disk_stream.c:51-72 | allocating and freeing the buffer of a transfer restores the heap's table if and only if the transfer fits one block; otherwise one block is lost |
| DiskStreams.CopyStaysInBufferIff | src/lib/fs/disk_stream.c:51-67 | the copy stays in the blocks allocated for the buffer if and only if the position is sector-aligned or its offset fits behind the transfer in the last block |
| DiskStreams.OverrunReachesNextBlock | src/lib/fs/disk_stream.c:98-100 | otherwise it ends in the block right behind them |
| DiskStreams.Disk.ReadBlock | src/lib/io/disk.c:23-48 | delivers the sectors' bytes and leaves the rest of the buffer; zero sectors are refused |
| DiskStreams.Disk.WriteBlock | src/lib/io/disk.c:50-75 | overlays the sectors and changes no other byte; zero sectors are refused |
| DiskStreams.Copy | src/lib/fs/disk_stream.c:65-67 | the byte loop moves exactly its range |
| DiskStreams.DiskStream.Seek | src/lib/fs/disk_stream.c:33-37 | moves the cursor |
| DiskStreams.DiskStream.Read | src/lib/fs/disk_stream.c:45-74 | refines the flat read for any position and length, advances the cursor by n, changes the buffer's range only; refused exactly when no sector would move |
| DiskStreams.DiskStream.Write | src/lib/fs/disk_stream.c:76-113 | refines the flat write for any position and length, advances the cursor by n; refused, with the disk unchanged, exactly when no sector would move |
| FatVolume.ClusterPosInReach | src/lib/fs/fat16/fat16.c:328-331 | in reach, a cluster's position does not wrap and its last byte is below 2^32 |
| FatVolume.ClusterPosTurns | src/lib/fs/fat16/fat16.c:328-331 | in and out of reach the position is the cluster's but for whole turns of 2^32 |
| FatVolume.ClustersAreDisjoint | src/lib/fs/fat16/fat16.c:328-337 | distinct clusters occupy disjoint byte ranges behind the counted root sectors |
| FatVolume.RootFollowsFats | src/lib/fs/fat16/fat16.c:198-202 | the copies of the FAT lie one behind the other from the reserved sectors on, and the root directory begins where the last one ends |
| FatVolume.ClustersClearFats | src/lib/fs/fat16/fat16.c:328-331 | no cluster in reach lies in a copy of the FAT or in front of it |
| FatVolume.KernelVolumeLayout | src/boot/boot.asm:14-24 | on the volume of the kernel's own boot sector: root directory at sector 712, data from sector 716, clusters of 64 kB, and no cluster looked up at its own entry |
| FatVolume.ClustersClearRootIff | src/lib/fs/fat16/fat16.c:242 | all clusters clear the root directory, and with it all that lies in front, if and only if root entries fill whole sectors |
| FatVolume.LookupCovered | src/lib/fs/fat16/fat16.c:352-361 | the FAT lookup's two bytes never straddle a sector, wherever it seeks |
| FatVolume.LookupIsRightIff | src/lib/fs/fat16/fat16.c:352-354 | the lookup goes to the entry's place in the FAT if and only if the reserved sectors and the cluster satisfy a product equation |
| FatVolume.ReadsOwnEntryIff | src/lib/fs/fat16/fat16.c:343-367 | the value read is the cluster's own entry on every disk for exactly those clusters |
| FatVolume.AtMostOneIsRight | src/lib/fs/fat16/fat16.c:354 | no volume has two clusters that are looked up right |
| FatVolume.LookupExamples | src/lib/fs/fat16/fat16.c:354 | with one reserved sector no cluster is looked up right, with two only cluster 512 |
| FatChain.SpecChainIsChainIff | src/lib/fs/fat16/fat16.c:369-376 | a chain by the specification is followed to its end if and only if none of its further clusters has one of five numbers; then to the same cluster |
| FatChain.AdvanceIs | src/lib/fs/fat16/fat16.c:382-397 | along a chain the kernel follows it gets to that cluster of the chain, and otherwise to 0xFFFFFFCF, the error code taken for a cluster |
| FatChain.EndMarkIsRead | src/lib/fs/fat16/fat16.c:369-376 | at the specification's end of a chain the kernel goes on, into the mark itself, if and only if the mark is not a free entry |
| FatChain.ReadIsExactIff | src/lib/fs/fat16/fat16.c:399-431 | the recursive read is right on every long-enough chain of 16-bit entries if and only if it is one covered piece in a cluster, or up to two clusters from the start |
| FatChain.ExactReads | src/lib/fs/fat16/fat16.c:399-431 | under that condition every chain, by any lookup, is read right |
| FatChain.InexactRead | src/lib/fs/fat16/fat16.c:403-427 | outside it, a byte that is read from the wrong place along every long-enough track of clusters |
| FatChain.MembersAreExactIff | src/lib/fs/fat16/fat16.c:709-731 | a read of nmemb members is right on every long-enough chain of 16-bit entries if and only if each member is |
| FatChain.ThirdPieceAt | src/lib/fs/fat16/fat16.c:403-427 | the third piece of any read from a file's start comes from the chain's fourth cluster |
| FatChain.ExactMembers | src/lib/fs/fat16/fat16.c:721-728 | exact members join into the file's bytes, none missing or doubled |
| FatChain.DivisorOfPowerOfTwo | src/lib/fs/fat16/fat16.c:333-337 | a size dividing a power-of-two cluster is itself a power of two |
| FatChain.DividingMembersAreExact | src/lib/fs/fat16/fat16.c:709-731 | members of a size dividing a power-of-two cluster, from a multiple of it, are all exact |
| FatChain.ThreeSectorClusterFails | src/lib/fs/fat16/fat16.c:709-731 | with three-sector clusters a dividing member size is not enough |
| FatChain.RepairedIsExact | src/lib/fs/fat16/fat16.c:399-431 | the repaired recursion delivers the file's bytes for every offset and length |
| FatFiles.LayoutIsSound | src/lib/fs/fat16/fat16.c:328-337 | every cluster position is sector-aligned, and in-reach clusters end below 2^32 |
| FatFiles.ContentsAt | src/lib/fs/fat16/fat16.c:382-397 | byte p of the concatenated clusters is byte p mod size of chain cluster p div size |
| FatFiles.ExpectedIsSlice | src/lib/fs/fat16/fat16.c:399-431 | bytes delivered from the right sources are that slice of the concatenated clusters |
| FatFiles.SpecFileIsFileIff | src/lib/fs/fat16/fat16.c:369-397 | a file by the specification is one to the kernel if and only if none of its further clusters is misread |
| FatFiles.WithLowCluster | src/lib/fs/fat16/fat16.c:757 | storing a cluster number in an item changes bytes 26 and 27 only, to its low and its high byte |
| FatFiles.ClusterBytes | src/lib/fs/fat16/fat16.c:79-82 | the halves of an item's cluster number are its bytes 20 and 21, and 26 and 27 |
| FatFiles.SizeBytes | src/lib/fs/fat16/fat16.c:83 | the file size is bytes 28 to 31, the lowest first |
| FatFiles.EndClusterIff | src/lib/fs/fat16/fat16.c:572-577 | unless it wraps, the end cluster is the first one that does not end within as many sectors as the volume has |
| FatFiles.KernelVolumeEnd | src/boot/boot.asm:24 | on the kernel's own volume it is 61037 |
| FatFiles.SlotsClearFats | src/lib/fs/fat16/fat16.c:734-742 | every slot of the root directory lies behind every copy of the FAT |
| FatFiles.LowestFreeIsLowest | src/lib/fs/fat16/fat16.c:579-609 | the search yields a cluster if and only if it is the lowest free one |
| FatFiles.PlacedAppends | src/lib/fs/fat16/fat16.c:734-763 | a store at the end marker appends one entry and keeps all others and everything in front |
| FatFiles.FirstWriteAppends | src/lib/fs/fat16/fat16.c:744-779 | the first write of a new file, of any length and refused or not, takes the lowest free cluster from 3 on, appends its entry and keeps all others; up to 255 sectors of data are all there |
| FatFiles.DataCovered | src/lib/fs/fat16/fat16.c:766-776 | data written at a cluster gets to the disk in full if and only if it takes at most 255 sectors |
| FatFiles.RunKeepsDirectory | src/lib/fs/fat16/fat16.c:734-779 | every run of first writes of any lengths keeps the directory well formed, changes nothing in front of the old end marker, and adds the new entries in order |
| FatFiles.CacheStaysPrefix | src/lib/fs/fat16/fat16.c:204-245 | the part of the cached directory that the stream did read, all of it up to 255 sectors, stays the front of the one on disk through every run of first writes |
| FatFiles.CachedSlotIff | src/lib/fs/fat16/fat16.c:229-235 | a cached slot is the one on disk, whatever lay in memory, if and only if the sectors moved hold it |
| FatFiles.RunSharesCluster | src/lib/fs/fat16/fat16.c:757-773 | when the lookups lie in front of the directory, all new files of a run are given one cluster, which holds the latest data |
| FatFiles.SharesClusterIff | src/lib/fs/fat16/fat16.c:744-779 | after a first write the next new file gets the same cluster if and only if the new entry and data change no lookup up to that cluster between zero and nonzero |
| FatFiles.DisturbedIsMet | src/lib/fs/fat16/fat16.c:343-367 | a lookup changed in that way reads from the new entry or the new data |
| FatFiles.RunSharesClusterIff | src/lib/fs/fat16/fat16.c:744-779 | all new files of a run get one cluster if and only if no write of the run does that |
| FatFiles.EntryHidesCluster | src/lib/fs/fat16/fat16.c:756-764 | where the entry lands on its cluster's own lookup, the next new file gets another cluster |
| FatFiles.LowLookupsInFront | src/lib/fs/fat16/fat16.c:352-354 | below cluster 256 all lookups lie in front of the root directory, on any volume |
| FatFiles.OverlappingVolumeFindsAnother | src/lib/fs/fat16/fat16.c:744-779 | a volume and disk on which the second new file gets another cluster |
| FatFiles.WriteKeepsOtherFiles | src/lib/fs/fat16/fat16.c:766-773 | a write of any length leaves the contents of every file that has no cluster among those the data spills over |
| FatFiles.FirstWriteKeepsOtherFiles | src/lib/fs/fat16/fat16.c:744-779 | so does the first write of a new file, its directory entry included |
| FatFiles.SmallVolumeHasRoom | src/lib/fs/fat16/fat16.c:572-609 | a formatted eight-sector volume meets the conditions of the write results: it has a directory, room, and cluster 3 lowest free |
| FatFiles.WriteReadRoundTrip | src/lib/fs/fat16/fat16.c:399-431 | up to a cluster of data, written to a cluster and read through the recursion, comes back unchanged |
| FatFiles.ClusterBehindRoot | src/lib/fs/fat16/fat16.c:242 | clusters in reach lie behind a root directory of whole sectors |
| FatDisks.ReadDeliversFileIff | src/lib/fs/fat16/fat16.c:399-431 | a read returns the file's bytes, for every volume with such clusters, every disk, file and stale memory, if and only if it is one covered piece in a cluster, or up to two clusters from the start |
| FatDisks.MembersDeliverFileIff | src/lib/fs/fat16/fat16.c:709-731 | the same for reads of members: if and only if each member is exact |
| FatDisks.WholeFileReadIff | src/lib/fs/fat16/fat16.c:399-431 | the same if and only if with whole files of different clusters that end in an end mark, as far as a volume has enough clusters |
| FatDisks.WholeFileMembersIff | src/lib/fs/fat16/fat16.c:709-731 | the same for reads of members |
| FatDisks.WrongRead | src/lib/fs/fat16/fat16.c:399-431 | outside the condition, a volume, a disk and a file of which a wrong byte is delivered |
| FatDisks.TrackDiskHasTrack | src/lib/fs/fat16/fat16.c:343-367 | the kernel's own lookups find the chain on that disk |
| FatDisks.TrackIsWholeFile | src/lib/fs/fat16/fat16.c:343-367 | a chain that does not close is a whole file of different clusters by the specification |
| FatDisks.RoundTripIff | src/lib/fs/fat16/fat16.c:323-325 | up to a cluster of data comes back on every disk if and only if reads look for it at the cluster it was written to |
| FatDisks.ThreeClustersAreReadWrong | src/lib/fs/fat16/fat16.c:403-427 | on any volume of one-sector clusters with the chain 3, 4, 5, 6, a three-cluster read returns cluster 6 where the file has cluster 5 |
| FatDisks.SmallDiskIsReadWrong | src/lib/fs/fat16/fat16.c:403-427 | an eight-sector disk on which the file has a one and every such read returns a zero |
| Fat16.CountIsLiveIff | src/lib/fs/fat16/fat16.c:187-192 | the slots in front of the end marker number those in use if and only if none of them is marked deleted |
| Fat16.AppendNeedsDeadTest | src/lib/fs/fat16/fat16.c:734-742 | an append at the number of slots in use would hit the end marker if and only if none is deleted, and a slot in front of it otherwise |
| Fat16.FullVolumeIff | src/lib/fs/fat16/fat16.c:594-597 | a new file gets cluster 0xFFCF, the narrowed error code, if and only if the lowest free cluster lies behind the volume's end or is that one |
| Fat16.EntryStaysInRootIff | src/lib/fs/fat16/fat16.c:734-742 | a new entry goes into the root directory if and only if a slot is left; otherwise inside a cluster of the data area |
| Fat16.EntryIsOnDisk | src/lib/fs/fat16/fat16.c:757-763 | in either case the item lies there afterwards |
| Fat16.StoredReadsBackIff | src/lib/fs/fat16/fat16.c:323-325 | data written to a file's cluster comes back on every disk if and only if the high half of the cluster number adds no bit to the low one |
| Fat16.PieceDelivers | src/lib/fs/fat16/fat16.c:411-421 | one seek and stream read delivers the bytes of that part of the cluster as far as the sectors moved reach |
| Fat16.MembersAreSlice | src/lib/fs/fat16/fat16.c:709-731 | exact members deliver exactly bytes [pos, pos + size * nmemb) of the concatenated clusters |
| Fat16.DividingMembersAreSlice | src/lib/fs/fat16/fat16.c:709-731 | on power-of-two clusters, members of a dividing size read from a multiple of it deliver that slice, for any chain and any nmemb |
| Fat16.WriteIsFirstWrite | src/lib/fs/fat16/fat16.c:744-779 | what the write method leaves for a new file, for data of any length and where the transfer is refused, is the step that the run theorems are about |
| Fat16.WriteThenRead | src/lib/fs/fat16/fat16.c:709-779 | through one descriptor at position 0, up to a cluster written and read back is unchanged |
| Fat16.FirstClusterFits | src/lib/fs/fat16/fat16.c:323-325 | the or of the two halves stays a 16-bit cluster |
| Fat16.FirstClusterBits | src/lib/fs/fat16/fat16.c:323-325 | each bit of the first cluster is the or of the bits of two bytes of the item, and no other byte matters |
| Fat16.FirstClusterOfLow | src/lib/fs/fat16/fat16.c:323-325 | with bytes 20 and 21 zero it is the number in bytes 26 and 27 |
| Fat16.FileSystem.constructor | src/lib/fs/fat16/fat16.c:153-157 | three separate streams on one disk, with a sound cluster layout |
| Fat16.FileSystem.GetFatEntry | src/lib/fs/fat16/fat16.c:343-367 | reads exactly the two bytes at the computed position, for every cluster number |
| Fat16.FileSystem.GetClusterForOffset | src/lib/fs/fat16/fat16.c:382-397 | follows the chain that many entries, or yields the error that the caller takes for a cluster |
| Fat16.FileSystem.ReadInternal | src/lib/fs/fat16/fat16.c:399-431 | delivers the recursion's sources byte by byte and leaves the rest of the output |
| Fat16.FileSystem.ReadMembers | src/lib/fs/fat16/fat16.c:718-730 | the loop places the members one behind the other; fails exactly for empty members |
| Fat16.FileSystem.FirstPiece | src/lib/fs/fat16/fat16.c:403-421 | one activation finds its cluster and reads its piece |
| Fat16.FileSystem.Read | src/lib/fs/fat16/fat16.c:709-731 | delivers all members from the descriptor's position; refused exactly for a directory, and fails exactly for empty members |
| Fat16.FileSystem.GetTotalItems | src/lib/fs/fat16/fat16.c:164-196 | counts the slots in front of the end marker, which is the number in use if and only if none is deleted |
| Fat16.FileSystem.LoadRoot | src/lib/fs/fat16/fat16.c:204-245 | caches the count and what the stream delivers for the whole directory, which up to 255 sectors is its very bytes |
| Fat16.FileSystem.GetFreeCluster | src/lib/fs/fat16/fat16.c:579-609 | the lowest free cluster from 3 on, or the narrowed error code when it lies behind the volume's end |
| Fat16.FileSystem.SearchFree | src/lib/fs/fat16/fat16.c:585-608 | the loop finds the lowest free cluster whatever number is required |
| Fat16.FileSystem.Write | src/lib/fs/fat16/fat16.c:744-779 | a file with a cluster keeps its item, and the data goes to that cluster; otherwise a cluster and an entry come first; refused transfers write no data; nothing else changes; directories are refused |
| Fat16.FileSystem.Allocate | src/lib/fs/fat16/fat16.c:756-764 | the first write gives the item a cluster and stores the item at the end marker |
| Fat16.FileSystem.WriteCluster | src/lib/fs/fat16/fat16.c:766-778 | the data goes to the cluster's place; fails, with the disk unchanged, exactly when no sector would move |
| Fat16.FileSystem.AppendEntry | src/lib/fs/fat16/fat16.c:734-763 | the item is written at the slot of the end marker |
| Fat16.FileSystem.Seek | src/lib/fs/fat16/fat16.c:781-816 | succeeds exactly for a file, an offset and a sum inside it; a moved position is inside the file, else it stays |
| FatNames.RunIsField | src/lib/fs/fat16/fat16.c:295-308 | a copy that does not stop inside its field runs on into what lies behind it |
| FatNames.FullNameIsShortNameIff | src/lib/fs/fat16/fat16.c:310-321 | the spelled name is the 8.3 name if and only if base and extension end in time |
| FatNames.NameIs | src/lib/fs/fat16/fat16.c:295-321 | an item with a base of less than 8 characters and an extension that end in time is spelled as the base, a dot and the extension, and without the dot if there is no extension |
| FatNames.AnswersIff | src/lib/fs/fat16/fat16.c:557-559 | it answers to a name if and only if the two are of one length and equal but for the case of ASCII letters |
| FatNames.ToProperString | src/lib/fs/fat16/fat16.c:295-308 | copies up to the first zero or space, and terminates only behind a space |
| FatNames.FullRelativeName | src/lib/fs/fat16/fat16.c:310-321 | the buffer holds the spelled name as a string |
| FatNames.FindItem | src/lib/fs/fat16/fat16.c:548-566 | finds an item exactly when one answers to the name up to ASCII case, and copies the last such one |
| FatNames.AnswersByShortName | src/lib/fs/fat16/fat16.c:548-566 | for items spelled right the lookup is by 8.3 name up to case |
| Strings.CLenIs | src/lib/string.c:7-15 | the length is the index of the first zero |
| Strings.StrLen | src/lib/string.c:7-15 | counts to the first zero |
| Strings.StrRefCopy | src/lib/string.c:169-179 | copies the string and its terminator and nothing else |
| Strings.Itoa | src/lib/string.c:17-64 | the buffer is exactly the canonical numeral and its terminator; of the smallest integer only the sign and the terminator of twelve bytes are set |
| Strings.WriteNumeral | src/lib/string.c:31-63 | the buffer has room for sign, digits and terminator, and is filled for every positive number |
| Strings.CountDigits | src/lib/string.c:31-39 | the computed length is the number of digits |
| Strings.WriteDigits | src/lib/string.c:51-59 | the digits fill exactly their places, from the right |
| Strings.DropDigit | src/lib/string.c:54-59 | each step of the loop takes the last of the digits left |
| Strings.NumeralIsCanonical | src/lib/string.c:17-64 | digits only but for a minus sign in front of exactly the negative numbers, no leading zero, and "0" for zero |
| Strings.DigitsGrow | src/lib/string.c:54-59 | the digits of 10 * m + d are those of m and d |
| Strings.ValueAppend | src/lib/string.c:91-97 | a further digit makes ten times the value and itself |
| Strings.DigitsValue | src/lib/string.c:54-59 | the digits of n stand for n |
| Strings.Atoi | src/lib/string.c:75-106 | reads the text as specified, and panics if and only if a character is neither a digit nor a minus sign |
| Strings.AtoiPanicsIff | src/lib/string.c:85-98 | the same of the specification, whatever was read before |
| Strings.AtoiMeans | src/lib/string.c:75-106 | any accepted text stands for its digits' value, negative if there is a minus sign anywhere in it, brought into the range of int by turns of 2^32 |
| Strings.AtoiOfItoa | src/lib/string.c:17-106 | atoi undoes itoa for every integer but the smallest |
| Strings.ToLowerIdentifiesCase | src/lib/string.c:108-122 | despite its dead test, two characters are mapped alike exactly when equal up to ASCII case, letters to the small one |
| Strings.StrIcmp | src/lib/string.c:145-167 | zero exactly for strings equal up to ASCII case; otherwise length decides, then the first character that differs |
| PathParser.StrSlice | src/lib/string.c:201-215 | both ends included, then a terminator; the whole string for bounds in the wrong order |
| PathParser.StrCopy | src/lib/string.c:181-199 | a new buffer with the same text |
| PathParser.IndexOfSlash | src/lib/string.c:217-231 | the first slash, or -1 exactly when there is none |
| PathParser.IsPathValid | src/lib/fs/path_parser.c:8-22 | true exactly for at most 256 characters starting with one of 48 to 57, then 58 and 47 |
| PathParser.LinksBackIff | src/lib/fs/path_parser.c:39-88 | the last node links back, closing a cycle, if and only if the text does not start with a slash and has a double slash or a final slash besides its first |
| PathParser.IsProperIff | src/lib/fs/path_parser.c:39-88 | that condition on the bytes: no 47, or one in front, or neither two in a row nor one at the end behind another |
| PathParser.NamesMakeUpText | src/lib/fs/path_parser.c:39-88 | the names of the parts join to the parsed text, for every text |
| PathParser.NamesAreCut | src/lib/fs/path_parser.c:44-88 | every name but the last ends at its only slash, behind something; the last starts with one, has none, or ends at its only one |
| PathParser.NamesOfComponents | src/lib/fs/path_parser.c:44-88 | k components give k parts, each the component with its slash except the last |
| PathParser.ComponentsAreProper | src/lib/fs/path_parser.c:39-88 | such a path's list is acyclic |
| PathParser.PathOfComponents | src/lib/fs/path_parser.c:24-96 | "d:/c1/.../ck" within the limit is valid and gives exactly k parts that join to the text behind ":/" |
| PathParser.Round | src/lib/fs/path_parser.c:39-76 | one round adds one node at the end, keeps the others' names, and leaves the remaining text |
| PathParser.ParseLoop | src/lib/fs/path_parser.c:39-76 | the loop ends for every text, with distinct, linked nodes that hold all names but what remains for a last one |
| PathParser.FinalPart | src/lib/fs/path_parser.c:80-88 | a nonempty remainder becomes the last name and ends the list in null; an empty one leaves the link back unless the node is alone |
| PathParser.ParsePath | src/lib/fs/path_parser.c:24-96 | null unless the text is a digit, a colon, a slash and more, of at most 256 characters; then the drive and distinct nodes with the names in order, ending in null exactly for proper paths |
| FileTable.FileStaysOpen | src/lib/fs/file.c:22-63 | in every run an open file keeps its slot until its handle is closed, and no open is given that handle meanwhile |
| FileTable.HandleResolves | src/lib/fs/file.c:57-63 | in every run a handle below 1024 resolves to its own file until closed; 1024 never does |
| FileTable.ClosedStaysClosed | src/lib/fs/file.c:40-63 | in every run a handle below 1024 that was closed resolves to nothing, and its slot is free, until an open is given it again |
| FileTable.TakenAreOpen | src/lib/fs/file.c:22-55 | in every run from the empty table the taken slots are those of the handles given out and not given back |
| FileTable.OpenFailsIff | src/lib/fs/file.c:22-38 | an open fails if and only if all 1024 handles are open, and otherwise is given the lowest that is not |
| FileTable.OpenFailsByCount | src/lib/fs/file.c:22-55 | that is, if and only if the opens exceed the closes that gave a handle back by 1024 |
| FileTable.LastSlotIsLost | src/lib/fs/file.c:58-60 | the last slot, once given out, stays taken through every run |
| FileTable.Descriptors.constructor | src/lib/fs/file.c:80-82 | all slots empty |
| FileTable.Descriptors.NewDescriptor | src/lib/fs/file.c:22-38 | the lowest free slot gets the descriptor with its number, null exactly when none is free |
| FileTable.Descriptors.FindDescriptor | src/lib/fs/file.c:57-63 | null exactly when the handle does not resolve, else the descriptor carrying that very handle |
| FileTable.Descriptors.FreeDescriptor | src/lib/fs/file.c:40-55 | empties exactly its slot, or reports why not |
| FileTable.Descriptors.Open | src/lib/fs/file.c:98-134 | a resolved name is put into the lowest free slot and given its number, or 0 if there is none; a failed name leaves the table alone |
| FileTable.Descriptors.Close | src/lib/fs/file.c:188-202 | empties exactly the slot of a handle from 1 to 1023, if the file system agrees |

## Left out

- Port I/O, boot code, interrupts, the terminal, loading CR3 and enabling paging: foreign code without a modelled algorithm; the disk is an array of bytes and the walk is a function.
- `panic` does not return; the model shows it as `None` or `false`, with the state of the moment.
- Positions past the disk's end read as zero and writes there are lost; the hardware would not answer.
- The check of table size against the address range in `heap_create` is taken to succeed, and its table's blocks to lie apart from the heap's.
- Branches for NULL from malloc: heap exhaustion panics before them.
- Stream buffers, path buffers and descriptors are arrays and objects of their own, not blocks of the heap model; `PathParser.Malloc` and `PathParser.Free` restate what the parser needs of them.
- Subdirectories and multi-level lookup, mounting with its signature check, stat, FAT chain and file size updates: not realised by the code, or plain field copies.
- Timestamps, volume labels, append mode, several disks, `str_cmp`, `memcpy`, seeking by sector, closing and resetting streams, freeing a parsed path.
- KernelHeap.Heap.Free: addresses behind the heap's last block are excluded, and so is the last block when the word behind the table reads as HAS_NEXT, because the code then changes words behind the table.
- KernelHeap.Heap.Zalloc: requests whose rounding wraps to zero are excluded, because the code then writes through a null pointer.
- DiskStreams.DiskStream.Read: for more than 2^32 - 4096 bytes the buffer's size wraps to zero and the code works on a null pointer; the contract describes the transfer as if the buffer were there.
- DiskStreams.DiskStream.Write: as for Read, transfers of more than 2^32 - 4096 bytes, whose buffer the heap cannot give; where the copy leaves the buffer (CopyStaysInBufferIff) the damage to the block behind it is not modelled.
- PathParser.IsPathValid: the code slices two characters and a terminator into a two-byte buffer on the stack; the model compares the two characters and has no third byte to overwrite.
- Fat16.FileSystem.Read: reads whose end would wrap at 2^32 are excluded; ghost parameters name the disk and its FAT before the call; nothing is said of bytes of clusters whose position leaves the 32-bit range.
- Fat16.FileSystem.ReadInternal: as for Read, requests whose end would wrap.
- Fat16.FileSystem.ReadMembers: as for Read, member runs whose end would wrap.
- Fat16.FileSystem.GetTotalItems: an end marker below position 2^32 is required, because the loop does not end without one.
- Fat16.FileSystem.LoadRoot: as for GetTotalItems, an end marker is required; the bytes beyond 255 sectors are those the 8-bit count leaves in memory.
- Fat16.FileSystem.GetFreeCluster: a free 16-bit cluster from 3 on is required, because the search wraps around without one and need not end.
- Fat16.FileSystem.SearchFree: as for GetFreeCluster.
- Fat16.FileSystem.Allocate: requires that both searches above come to an end.
- Fat16.FileSystem.AppendEntry: requires an end marker, as GetTotalItems does.
- Fat16.FileSystem.Write: for a first write requires that both searches above come to an end.
- Fat16.WriteThenRead: requires that the high half of the item's cluster number adds no bit to the low one, which StoredReadsBackIff shows to be the exact condition.
- FatFiles.FirstWriteKeepsOtherFiles: speaks of a chain as it was before the write; whether the write changes the lookups themselves is what SharesClusterIff describes.
- FatNames.FullRelativeName: names that overrun the buffer are excluded.
- FatNames.FindItem: covers file items, whose names fit the 256-byte buffer; memory behind the cached directory reads as zero.
- Strings.StrLen: a terminator within 65535 bytes is required, because the 16-bit counter wraps otherwise and the loop need not end.
- Strings.Itoa: of the smallest integer nothing is said of the bytes between sign and terminator, which are whatever the memory held.
- FileTable.Descriptors.Open: what the path, the disk and the file system make of the name is a parameter.
- FileTable.Descriptors.Close: the file system's answer is a parameter.
- FileTable.Descriptors.FreeDescriptor: handles above 1024 have no slot and are excluded; its only caller has looked the handle up.
