# emCORE: files, threads and USB storage

A Dafny model of the parts of emCORE, a small kernel for iPods, that keep hard invariants, with proofs about every
input, every run and every interleaving:

- **FAT driver** (`emcore/fat.c`). `Volume` keeps the FAT behind its four-slot write-back cache, with the free-cluster
  counter and the search for free clusters. `FatFile` grows, cuts and removes the cluster chain of a file; `ChainRuns`
  follows runs of these operations over all files, and `VolumeRuns` carries them out on a volume. `FatIo` is the seek
  that starts from the remembered cluster and the transfer loop that merges sectors into runs of up to 256.
- **Byte files** (`emcore/file.c`). `FileDesc` reads and writes bytes through a one-sector cache. `FileRuns` shows that
  every run of read, write and lseek calls on a handle is a run on a plain byte array, and that other open files do not
  notice it. The stack below is part of that theorem: bytes over sectors over chains over the cached FAT over the disk.
- **Directories** (`emcore/fat.c`). Long names are written, read back and added under short names that nobody has.
  `DirFile` is a directory kept in a `FatFile` on a `Volume`, seen as a list of sectors (`DirBacking`, `DirFiles`).
  `DirListing` shows that reading a directory after an entry has been added gives the old entries and the new one.
- **Mutexes and scheduler** (`emcore/thread.c`). `Mutexes` is a state machine of lock, unlock, timeout and switch steps
  with its invariant; class `Kernel` keeps the linked lists and fields of the source and takes exactly those steps.
- **USB mass storage, READ(10)** (`apps/diskmode/ums.c`). `Pipeline` has the two prefetch buffers between storage and
  host. The transport is that of the USB Mass Storage Class Bulk-Only Transport 1.0; the residue is that of section 5.2.
- **Substring search** (`emcore/strcasestr.c`) with its jumps between loops, and **CRC-32** (`emcore/crc32.c`), half a
  byte at a time, against section 8 of RFC 1952.

Each method is proved against a specification on values (`fat`, `chain`, `contents`, `World`, `Next`, `Crc`), and the
lemmas are about those. `Folding` keeps large definitions folded where a proof does not need them.

Assumptions: storage works without errors. The volume is FAT32, with at least 65525 clusters, at most 256 sectors in a
cluster, FSInfo in the reserved area, fewer than 2^31 sectors, entry 0 of the FAT an end mark and entry 1 not zero
(`Layout.Mounted`). Buffers are not the handle's own cache.

Results that differ from what one would expect of the code:

- `fat_seek` reports a target beyond the file, except when it has no link to follow: when the remembered cluster number
  is itself beyond the chain and equals the target's, or when the file has no chain and the target is in its first
  cluster (`FatIo.FatSeek` states exactly when). The handle that has just given a file its only cluster is such a case
  (`VolumeRuns.UnreportedSeek`).
- `fat_readwrite` delivers the sectors up to the end of the chain to a read that runs past it, but reports one less than
  were asked for, however many there were; each round behind the end is counted as a cluster (`FatIo.FatReadWrite`).
  A write on such a handle cuts the file off from its chain, if it has one and a cluster is free
  (`VolumeRuns.WriteAstray`, `VolumeRuns.ReadPastThenWrite`).
- Closing an empty file frees only its first cluster, so a chain with more clusters leaks the others
  (`ChainRuns.RunLosesNothing` states exactly when a run loses clusters). A first write that fills the disk leads there,
  on a handle opened without O_TRUNC (`VolumeRuns.LeakByFullDisk`); with it, fsync frees the rest first
  (`VolumeRuns.CloseTruncated`).
- `fat_recalc_free` counts the two reserved entries too, so its count is exact just when they are in use
  (`FatTable.Volume.RecalcFree`).
- A write that finds the disk full returns -222 and keeps the handle's invariant just when the bytes to be written
  complete the cached sector and the file cannot reach that sector (`ByteFile.HeadTooFar`); any other failing write
  breaks it (`ByteFile.FileDesc.ReadWrite`). What that means: where nothing was cached, a read after such a write
  returns 0 although a whole sector lies ahead in the file (`ByteFile.FileDesc.WriteTooMuchThenRead`).
- READ(10)'s range check is wrong for requests whose end wraps around 2^32 (`UmsRead.RangeCheckIsExact`,
  `UmsRead.LastSectorAccepted`); 128 sectors in a buffer do not fit the signed byte that counts them
  (`UmsRead.CountSurvives`).
- `fat_getnext` checks the ordinal only of the slot that begins a long name; an ordinal out of range in a later one is
  copied outside the name buffer. `DirReader.OverrunsExactly` says in which directories that happens,
  `DirReader.OverrunHappens` shows one.
- The loops that take an element out of a queue of waiters or a list of mutexes read a link through the null pointer
  exactly when the element is the last of several (`LinkedLists.Unlink`). So does mutex_unlock on the first of two mutexes
  locked (`Kernel.UnlockInOrder`), and scheduler_switch when a thread times out that is by then the last of several
  waiters (`Kernel.Kernel.SwitchThread`, `Kernel.SecondTimesOut`).
- The processor share that scheduler_switch stores is worked out in 32 bits: it is exact if and only if 255 times the
  thread's time is below 2^32 (`Kernel.LoadIsExact`).
- A new entry that is put between the slots of a long name, in a directory that has free slots there, changes what the
  entry behind it is called (`DirListing.TornIsRenamed`); `DirListing.AddedIsListed` holds where no name is open.

## Model

| member | source | states |
|---|---|---|
| Sectors.PutWordSelects | emcore/fat.c:881-909 | Writing one FAT entry into a sector is read back from it and leaves the sector's other 127 entries alone. |
| Sectors.WordBytes | emcore/fat.c:955-955 | The bytes of an entry in its sector, the lowest first. |
| Sectors.ByteWeighs | emcore/fat.c:955-955 | A byte that changes by d at place i of an entry changes it by d times 256 to the power i, and no other entry. |
| Sectors.PutWordBytes | emcore/fat.c:906-909 | An entry is written to its four bytes, the lowest first; the other 508 bytes of the sector stay. |
| Geometry.Layout.Cluster2SecFormula | emcore/fat.c:230-250 | A cluster's first sector is (cluster - 2) * secperclus + firstdatasector, or -1 beyond the volume. |
| Geometry.Layout.MountedIsLaid | emcore/fat.c:366-375 | What mounting establishes implies that every cluster's run of sectors lies inside the data area, behind both FATs. |
| Geometry.Layout.ClusterRunsDisjoint | emcore/fat.c:230-250 | Distinct clusters have disjoint runs of sectors. |
| Geometry.Layout.FileSecsAt | emcore/fat.c:230-250 | Sector k of the i-th cluster of a chain is the file's sector i * secperclus + k. |
| Geometry.Layout.FileSecsInjective | emcore/fat.c:230-250 | No sector belongs to a file twice, and all sectors of a file are in the data area. |
| Geometry.Layout.FileSecsApart | emcore/fat.c:230-250 | Files that share no cluster share no sector. |
| FatTable.Volume.constructor | emcore/fat.c:269-299 | With nothing cached the logical FAT is the one on disk. |
| FatTable.Volume.FlushFatSector | emcore/fat.c:625-670 | Writing back a slot puts its data into the first FAT, and into the second if there is one; the logical FAT and all disk sectors outside the FATs stay. |
| FatTable.Volume.FillSlot | emcore/fat.c:684-712 | Loading a sector evicts just the slot it maps to, writing it back if dirty; the slot then holds the logical sector and the logical FAT is unchanged. |
| FatTable.Volume.CacheFatSector | emcore/fat.c:672-725 | The slot returned holds the logical sector, is dirty if it was or is to be, no other slot changes, and the logical FAT is unchanged. |
| FatTable.FlushKeepsView | emcore/fat.c:625-670 | Write-back is transparent: same logical FAT, sound cache, a mirrored second FAT stays mirrored. |
| FatTable.LoadKeepsView | emcore/fat.c:672-725 | Loads and evictions are transparent, for every state of cache and disk. |
| FatTable.PutLink | emcore/fat.c:888-909 | Merging a value into an entry changes that link, no other link, and no reserved bits. |
| FatTable.Volume.ReadFatEntry | emcore/fat.c:947-957 | Returns the logical link, which is the low 28 bits of the four little-endian bytes of the entry, and changes no link. |
| FatTable.Volume.GetNextCluster | emcore/fat.c:961-984 | Returns the logical link, or 0 from 0x0ffffff8 on. |
| FatTable.Volume.UpdateFatEntry | emcore/fat.c:875-913 | Exactly one link changes, to the value's low 28 bits, lowest byte first; the top four bits of its last byte and all other bytes of the FAT stay; an exact free counter stays exact; both panics are excluded by the precondition its callers are proved to meet. |
| FatTable.CountFollows | emcore/fat.c:894-909 | The freecount > 0 guard never hides a decrement of an exact counter, and the counter never wraps. |
| FatTable.FreeSetOfUpdate | emcore/fat.c:894-909 | How one update changes the number of free clusters. |
| FatTable.ScanFatSector | emcore/fat.c:800-820 | The inner loop finds the first free cluster of one FAT sector from any offset on and around, and 0 just when it has none. |
| FatTable.RoundRobinReaches | emcore/fat.c:795-799 | The scan that begins anywhere and wraps around reaches every sector of the FAT. |
| FatTable.Volume.FindFreeCluster | emcore/fat.c:795-824 | Sound and complete from any start: the first free cluster of the volume in the order of the search, or 0 just when there is none; the hint moves to what was found. |
| FatTable.FindsItself | emcore/fat.c:795-824 | A search that starts at a free cluster finds that one. |
| FatTable.Volume.UpdateFsinfo | emcore/fat.c:986-1025 | Bytes 488 to 491 of the FSInfo sector get the counter and bytes 492 to 495 the hint, lowest byte first; the others stay, and so does the logical FAT. |
| FatTable.Volume.FlushFat | emcore/fat.c:1027-1060 | After an unsuppressed flush the first FAT on disk is the logical FAT, a mirrored second FAT repeats it, FSInfo carries counter and hint, and all other sectors stay. |
| FatTable.Volume.RecalcFree | emcore/fat.c:553-571 | Counts the zero entries up to the last cluster; the counter is exact if and only if entries 0 and 1 are in use; FSInfo carries it; no sector outside the FATs and FSInfo changes. |
| FatTable.ZeroBelowIsFreeSet | emcore/fat.c:553-571 | The recount equals the number of free clusters if and only if the two reserved entries are in use. |
| Chains.ChainIsAcyclic | emcore/fat.c:961-984 | A chain that ends never visits a cluster twice. |
| Chains.ChainIsUnique | emcore/fat.c:961-984 | The table decides the chain of a first cluster. |
| Chains.AppendMakesChain | emcore/fat.c:2111-2117 | Linking a free cluster behind a chain makes a chain one longer and touches no other used entry. |
| Chains.CutMakesChain | emcore/fat.c:1790-1809 | Cutting a chain leaves its beginning a chain, frees the rest and touches no other entry. |
| Chains.FamilyKept | emcore/fat.c:2083-2134 | An operation that keeps to its own chain and free entries keeps all files disjoint chains. |
| FatFiles.FatFile.LinkCluster | emcore/fat.c:2111-2117 | The cluster is appended to this chain in the table, or becomes the first of the file behind cluster 0; the counter stays exact; no FAT loop is made. |
| FatFiles.FatFile.AllocateCluster | emcore/fat.c:2100-2127 | Takes exactly one free cluster, or reports none just when none is free; behind cluster 0 it replaces whatever chain the file had. |
| FatFiles.FatFile.NextWriteCluster | emcore/fat.c:2083-2134 | Returns the cluster behind the given one, appending a free one at the end of the chain; 0 just when the disk is full. |
| FatFiles.FatFile.FreeBehind | emcore/fat.c:1801-1804 | The loop frees exactly the clusters behind that of the last access. |
| FatFiles.FatFile.Truncate | emcore/fat.c:1790-1809 | The chain ends behind the last accessed cluster and the clusters cut off are free; without such a cluster nothing changes. |
| FatFiles.FatFile.RemoveClusters | emcore/fat.c:1956-1960 | Ends on every table whose links stay in range, even a cyclic one, and frees exactly the clusters a walk meets. |
| FatFiles.FatFile.Remove | emcore/fat.c:1946-1976 | On a well-formed chain frees exactly the chain, raises the free counter by its length and flushes the FAT; no sector outside the FATs and FSInfo changes. |
| FatFiles.FatFile.CloseWrite | emcore/fat.c:1811-1833 | An empty file gives up its first cluster and only that; any other file keeps its chain; the FAT is flushed, and no sector outside the FATs and FSInfo changes. |
| FatFiles.WalkIsChain | emcore/fat.c:1956-1960 | On a well-formed chain the clusters the removal walk meets are the chain. |
| FatFiles.RemovalCounts | emcore/fat.c:1956-1960 | Freeing a chain makes as many clusters free as the chain is long. |
| FatFiles.AppendCounts | emcore/fat.c:2111-2117 | An allocation makes one cluster fewer free. |
| FatIo.OpenFile | emcore/fat.c:1672-1704 | A fresh handle is ready to access the first sector of its file. |
| ChainRuns.StepKeepsFamily | emcore/fat.c:2083-2134 | Allocation, truncation, removal and close keep all files of a volume acyclic, terminated, disjoint chains. |
| ChainRuns.StepCounts | emcore/fat.c:1811-1840 | Free clusters plus clusters of files are conserved by each operation, but for those a close leaks. |
| ChainRuns.CutCounts | emcore/fat.c:1790-1809 | Truncation frees exactly the clusters it cuts off. |
| ChainRuns.RunKeeps | emcore/fat.c:1790-1862 | Both hold over every run of operations. |
| ChainRuns.NothingLostIsConserved | emcore/fat.c:553-571 | No cluster is lost if and only if free clusters and those of files add up to all clusters. |
| ChainRuns.RunLosesNothing | emcore/fat.c:1811-1840 | A run loses clusters if and only if it closes an empty file with more than one cluster. |
| VolumeRuns.Grow | emcore/fat.c:2083-2134 | One free cluster joins the chain of a file, or none just when none is free. |
| VolumeRuns.CutDown | emcore/fat.c:1790-1809 | Seek behind the k-th cluster, then truncate: exactly the clusters behind it are cut off and freed; nothing happens if there are fewer. |
| VolumeRuns.Carry | emcore/fat.c:1790-2134 | One operation carried out on the cached FAT of a volume is the step of `ChainRuns` for all its files. |
| VolumeRuns.CarryAll | emcore/fat.c:1790-2134 | Every run of growing, truncating, removing and closing the files of a volume keeps them disjoint chains, conserves clusters but for those leaked, and keeps an exact free counter exact. |
| VolumeRuns.LeakByFullDisk | emcore/fat.c:1811-1840 | A new file, opened without O_TRUNC, whose first write fills the disk: closing it leaves in use, and in no file, every cluster that was free but one. |
| VolumeRuns.CloseTruncated | emcore/file.c:280-296 | An empty file opened with O_TRUNC gives up all its clusters when it is closed, and only those. |
| FatIo.Transfer | emcore/fat.c:2136-2173 | One request moves 1 to 256 sectors between buffer and disk and touches nothing else; both panics for writes outside the data area are excluded. |
| FatIo.ExchangedByRun | emcore/fat.c:2254-2272 | Runs of sectors one after the other are one exchange of all their sectors. |
| FatIo.RunApart | emcore/fat.c:2254-2272 | A merged run of a file's sectors lies in the data area, apart from what has been exchanged before. |
| FatIo.PendingNext | emcore/fat.c:2251-2263 | Merging decides rightly: the next sector extends the pending run or begins a new one. |
| FatIo.NextCluster | emcore/fat.c:2204-2233 | The cursor moves to the next cluster, from the end of the chain too if the last write met it; it meets the end exactly at the end of the chain, and when writing only if no cluster is free. |
| FatIo.NextSector | emcore/fat.c:2203-2249 | The cursor moves on by exactly one sector of the file, growing it by one cluster just when it must. |
| FatIo.Schedule | emcore/fat.c:2251-2274 | After each round all sectors so far are either exchanged or in one pending run of at most 256; after the last all are exchanged. |
| FatIo.SendRun | emcore/fat.c:2254-2272 | Sending the pending run exchanges the sectors in order with the buffer. |
| FatIo.SendRest | emcore/fat.c:2251-2263 | A read that meets the end of the chain still sends its pending run. |
| FatIo.StepSector | emcore/fat.c:2203-2249 | The sector reached is the next one of the file, and what has been exchanged is kept while the FAT is changed. |
| FatIo.MoveSector | emcore/fat.c:2202-2275 | One round of the loop keeps its invariant, or ends it at the end of the chain; a read has then exchanged all sectors up to there. |
| FatIo.CountOn | emcore/fat.c:2202-2232 | The rounds of a read behind the end change no link and count one cluster each. |
| FatIo.NoMoreNext | emcore/fat.c:2204-2209 | A cluster is taken only when the sector to be reached is the first behind the chain. |
| FatIo.MoveSectors | emcore/fat.c:2202-2275 | The merged loop puts buffer sector k on the k-th next sector of the file, for all sectors asked for or up to the end. |
| FatIo.Exchange | emcore/fat.c:2202-2289 | The result, the chain, the saved cursor and the sectors exchanged, for a transfer that begins between two sectors. |
| FatIo.FatReadWrite | emcore/fat.c:2176-2289 | From every position, merged I/O equals sector-by-sector I/O on the file's next sectors; a write goes through if and only if the file can reach that far with the free clusters and takes no more clusters than needed, and after one that met the full disk the next goes on at the end of the chain; a read past the end delivers what there is and reports one less than asked for. |
| FatIo.ReachKept | emcore/fat.c:2083-2134 | How far a file can reach does not change while it grows. |
| FatIo.FollowChain | emcore/fat.c:2321-2328 | Following links leads to the cluster so many places on, or 0 beyond the chain. |
| FatIo.FindSector | emcore/fat.c:2308-2328 | The cluster with a sector of the file, found from the remembered cluster or from the first; exactly when a sector beyond the file is not reported. |
| FatIo.FatSeek | emcore/fat.c:2291-2344 | From every handle state a target in the file is reached as by a walk from the first cluster; exactly when a target beyond it is not reported; after a report the position stays; the handle can always seek again. |
| VolumeRuns.UnreportedSeek | emcore/fat.c:2291-2344 | A concrete handle whose seek beyond the file goes through, while a fresh handle on the same file reports it. |
| VolumeRuns.WriteAstray | emcore/fat.c:2083-2134 | Writing after a read past the end: the file loses its chain if and only if it has one and a cluster is free; the chain stays in use and is in no file. |
| VolumeRuns.ReadPastThenWrite | emcore/fat.c:2176-2289 | A read past the end of a file and the beginning of a write that cut it off from its chain. |
| FileContents.SpliceTwice | emcore/file.c:468-648 | Two writes in a row are one write of both. |
| FileContents.PatchIsSplice | emcore/file.c:500-503 | Patching the cached sector is writing into the file. |
| FileContents.WriteStores | emcore/file.c:533-547 | Writing whole sectors stores the new contents and keeps the others. |
| FileContents.ReadDeliversAll | emcore/file.c:533-547 | Reading whole sectors delivers that stretch of the contents and leaves the rest of the buffer alone. |
| FileContents.TwoOperations | emcore/file.c:468-648 | Operations that keep to one file are together one such operation. |
| FileContents.StoredApart | emcore/file.c:468-648 | A file whose sectors are not another's stays stored while the other is written. |
| FileContents.ByteOnDisk | emcore/fat.c:2204-2249 | Where each byte of a stored file is on the device: in which cluster, sector and byte. |
| ByteFile.FileDesc.constructor | emcore/file.c:63-191 | An open handle stands at the first byte with nothing cached. |
| ByteFile.FileDesc.FlushCache | emcore/file.c:441-466 | Puts the cached sector on disk, if and only if the file can reach that far; a failure loses nothing. |
| ByteFile.FileDesc.LeaveSector | emcore/file.c:508-517 | A dirty sector is written back and let go of; otherwise the handle keeps it. |
| ByteFile.FileDesc.EndHead | emcore/file.c:508-520 | After the head bytes cache, offset and FAT position still belong together. |
| ByteFile.FileDesc.Head | emcore/file.c:495-524 | Moves the bytes the cached sector can take or give; on a full disk at most bytes the file already had have changed. |
| ByteFile.FileDesc.Begin | emcore/file.c:495-524 | The head bytes, if a sector is cached; fails exactly under `HeadTooFar`. |
| ByteFile.FileDesc.MoveWhole | emcore/file.c:547-547 | Whole sectors go straight between buffer and file. |
| ByteFile.FileDesc.BounceSectors | emcore/file.c:534-546 | The same through the cache, for misaligned buffers. |
| ByteFile.FileDesc.WholeSectors | emcore/file.c:530-580 | Either way is the same move of bytes and leaves nothing cached. |
| ByteFile.FileDesc.TailWrite | emcore/file.c:583-621 | The last partial sector is completed from disk if the file has more, then overwritten in the cache. |
| ByteFile.FileDesc.TailRead | emcore/file.c:622-635 | The last partial sector is cached and delivered. |
| ByteFile.FileDesc.ReadLost | emcore/file.c:530-577 | A read of whole sectors on a handle that lost its place returns 0. |
| ByteFile.FileDesc.WriteTooMuchThenRead | emcore/file.c:468-648 | A write that overfills the disk, then a read that returns nothing although a sector of the file lies ahead. |
| ByteFile.FileDesc.ReadWrite | emcore/file.c:468-648 | A read delivers min(count, rest) bytes; a write goes through if and only if the file can reach its last whole sector; a failing write returns -222 and keeps the invariant if and only if `HeadTooFar` holds before the call, and then exactly which bytes have changed; otherwise what it returns and where the handle is left. |
| ByteFile.FileDesc.Read | emcore/file.c:659-662 | Returns exactly the current bytes and advances; contents unchanged; only this file's own sectors and the FATs are touched. |
| ByteFile.FileDesc.Write | emcore/file.c:650-657 | Splices the buffer into the contents at the offset, extends the size to the furthest byte and advances; error results for read-only handles, directories and a full disk, each with its condition before the call. |
| ByteFile.FileDesc.ChangeSector | emcore/file.c:711-723 | A dirty sector is written back before the FAT position moves. |
| ByteFile.FileDesc.Relocate | emcore/file.c:703-737 | Cache and FAT position follow to any offset in the file. |
| ByteFile.FileDesc.Lseek | emcore/file.c:665-742 | For every offset and whence 0, 1 and 2, counted from the start, the current position and the end: a seek that goes through lands exactly there, and one out of the file is refused with -3; any other whence gives -2; -225 exactly when the dirty sector cannot be written back; contents unchanged. |
| FileRuns.Serve | emcore/file.c:468-742 | One call does to the handle what it does to a byte array with a cursor. |
| FileRuns.ServeAll | emcore/file.c:468-742 | Every run of read, write and lseek calls that fits the volume, on a handle opened any way, gives the replies and the final state of a byte array. |
| FileRuns.LastBytes | emcore/file.c:665-742 | A seek by -k from the end and a read of k bytes deliver the last k bytes. |
| FileRuns.BytesAt | emcore/file.c:665-742 | A seek from the start lands at its offset, and a read delivers the bytes from there. |
| FileRuns.ThereAndBack | emcore/file.c:665-742 | A seek by d from the current position moves it by exactly d, so a seek by -d undoes it. |
| FileRuns.WrittenIsRead | emcore/file.c:468-742 | What is written is read back after a seek back over it; every other byte stays and the file grows to the end of the write. |
| FileRuns.ReadTail | emcore/file.c:659-742 | On a handle: the last k bytes of the file, by a seek from its end and a read. |
| FileRuns.WriteAndReadBack | emcore/file.c:650-742 | On a handle: a write, a seek back over it and a read give the data written; all other bytes stay. |
| FileRuns.DirtyIsInside | emcore/file.c:441-466 | What is dirty lies inside the file, so it can be written back. |
| FileRuns.FileUndisturbed | emcore/file.c:468-648 | What is done to one file leaves a file with other clusters its chain and its contents. |
| FileRuns.OtherHandleUndisturbed | emcore/file.c:468-648 | Another open handle keeps contents, position and cache state. |
| LinkedLists.Unlink | emcore/thread.c:71-85 | The loop unlinks exactly the element and changes no link of another list; it steps past the end of the list if and only if the element is the last of several. |
| LinkedLists.InsertAll | emcore/thread.c:53-69 | Two link changes insert an element into one list and leave the others. |
| Mutexes.Meaning | emcore/thread.c:53-172 | Under the invariant a queue holds exactly the threads blocked on its mutex, an owned list exactly the mutexes its thread owns, and a free mutex has no waiters. |
| Mutexes.LockTakes | emcore/thread.c:93-104 | Taking a free mutex, or one's own again, keeps the invariant. |
| Mutexes.LockWaits | emcore/thread.c:105-113 | Queueing for a mutex keeps the invariant, the order by priority included. |
| Mutexes.FirstWaiter | emcore/thread.c:136-146 | The waiter served is blocked on the mutex and has the highest priority. |
| Mutexes.HandOver | emcore/thread.c:122-149 | Unlocking hands the mutex to a waiter of the highest priority, who becomes its owner. |
| Mutexes.TimeOutKeeps | emcore/thread.c:316-327 | A timeout takes a thread out of its queue and keeps the invariant. |
| Mutexes.StepKeeps | emcore/thread.c:53-172 | Every step of every thread keeps the invariant. |
| Mutexes.RunKeeps | emcore/thread.c:53-172 | The invariant holds over every interleaving of lock, unlock, timeout and switch steps, from every state that satisfies it. |
| Mutexes.InitialIsOk | emcore/thread.c:48-51 | It holds before anything is locked. |
| Mutexes.LockTellsOwner | emcore/thread.c:87-120 | mutex_lock that returns at once returns THREAD_OK exactly when the caller owns the mutex. |
| Mutexes.ResumeTellsOwner | emcore/thread.c:114-119 | So it does when the caller had to wait, whatever happened in between. |
| Mutexes.WaiterStays | emcore/thread.c:87-149 | A waiter stays queued until it owns the mutex or its timeout passes. |
| Mutexes.OwnerStays | emcore/thread.c:122-172 | A mutex leaves its owner only by the owner's last unlock. |
| Mutexes.StepNests | emcore/thread.c:93-168 | A lock by the owner adds one to the count and an unlock takes one off; only the last unlock lets go. |
| Mutexes.RunNests | emcore/thread.c:87-172 | Over every interleaving the count of a mutex is what it was, plus the locks and less the unlocks of its owner, as long as the owner has not unlocked it that often. |
| Mutexes.FirstHoldsOnce | emcore/thread.c:93-147 | Whoever comes to own a mutex, by locking it or by hand-over, holds it once. |
| Mutexes.LockNotes | emcore/thread.c:105-113 | A thread that has to wait is blocked on the mutex with its timeout and the time of the call; no other thread changes. |
| Mutexes.TimeOutNotes | emcore/thread.c:316-327 | A thread that times out is ready and blocked on nothing; no other thread changes, and no mutex. |
| Kernel.PlaceIs | emcore/thread.c:53-69 | The place found by comparing priorities is the one before the first waiter of no higher priority. |
| Kernel.Kernel.constructor | emcore/thread.c:250-262 | After scheduler_init, thread creation and mutex_init the invariant holds and the idle thread runs. |
| Kernel.Kernel.AddToQueue | emcore/thread.c:53-69 | Inserts the thread behind all waiters of higher priority, before the others. |
| Kernel.Kernel.RemoveFromQueue | emcore/thread.c:71-85 | Removes exactly that thread from that queue; exactly when the source reads past the end of the queue. |
| Kernel.Kernel.LockOrWait | emcore/thread.c:87-114 | Takes exactly the abstract lock step, and says whether the caller has to wait or owns the mutex. |
| Kernel.Kernel.LockResumed | emcore/thread.c:114-120 | The result after waiting is THREAD_OK exactly when the caller owns the mutex. |
| Kernel.Kernel.UnlockInternal | emcore/thread.c:122-149 | Takes exactly the abstract unlock step on the linked lists; exactly when the source reads past the end of the owned list. |
| Kernel.Kernel.UnlockMutex | emcore/thread.c:151-172 | Panics exactly when the caller does not own the mutex; else unlocks once and returns the remaining count; exactly when the source reads past the end of the owned list. |
| Kernel.LockAgain | emcore/thread.c:87-172 | A lock by the owner and an unlock undo each other; unlock returns the locks held before. |
| Kernel.LockOver | emcore/thread.c:87-172 | After k locks each of the first k - 1 unlocks leaves the thread the owner and returns the locks still held; the last one, and no other, frees the mutex, and all else is as before. |
| Kernel.UnlockInOrder | emcore/thread.c:122-172 | Two mutexes locked, the first of them unlocked first: the source reads past the end of the list. |
| Kernel.Kernel.ReleaseExpired | emcore/thread.c:312-333 | Makes ready exactly the threads whose timeouts have passed; finds the least time left of the others; exactly when the source reads past the end of a queue. |
| Kernel.OneFewer | emcore/thread.c:312-327 | While the threads are gone through, a queue holds those that have not timed out before; who leaves it then is the last of several just if all behind it have gone and not all in front. |
| Kernel.SecondTimesOut | emcore/thread.c:316-327 | The timeout of the second of two waiters makes the source read past the end of the queue. |
| Kernel.Kernel.Choose | emcore/thread.c:335-351 | The first ready thread whose time for its priority is least: every other candidate's time is at least the chosen one's, each divided by its priority; block only if all others are at the two largest words, idle only if no candidate is below the largest. |
| Kernel.BestIsFair | emcore/thread.c:335-351 | The least score means what it should: of times taken per priority, compared by multiplying across, nobody has a better claim than the chosen thread. |
| Kernel.Kernel.Account | emcore/thread.c:301-310 | At the end of a tick of 1048576 microseconds, processor shares and fresh times; otherwise nothing. |
| Kernel.LoadIsExact | emcore/thread.c:301-310 | The share stored is 255 * time / tick if and only if 255 * time is below 2^32, and then it fits a byte. |
| Kernel.Kernel.SwitchThread | emcore/thread.c:283-358 | A run of abstract steps after which exactly one thread is running and is the current one: the hint if it is ready, else the ready thread with the least time for its priority, or idle; frozen means idle; the wake-up is after the least remaining timeout for idle and after 10000 microseconds otherwise; exactly when the source reads past the end of a queue. |
| Kernel.TimeoutIsExact | emcore/timer.h:30-30 | With 32-bit wrapping time and timeouts below 2^31, a thread is released if and only if its timeout has passed, and the time left is exact. |
| Kernel.WaiterTimesOut | emcore/thread.c:105-119 | A thread that waits for a mutex with a timeout is released for it when it has passed, not before, and with -1 never. |
| UmsRead.CountSurvives | apps/diskmode/ums.c:803-811 | A buffer's sector count survives its signed byte if and only if it is at most 127. |
| UmsRead.RangeCheckIsExact | apps/diskmode/ums.c:531-531 | The range check is right exactly for requests whose end does not wrap around to a sector of the medium. |
| UmsRead.LastSectorAccepted | apps/diskmode/ums.c:531-531 | A concrete request beyond every medium that it accepts. |
| UmsRead.Pipeline.constructor | apps/diskmode/ums.c:693-698 | Before any command both buffers are empty; each takes 65536 bytes. |
| UmsRead.Pipeline.SendCsw | apps/diskmode/ums.c:178-201 | The residue sent is what the host asked for less what it has got, and the invariant of the pipeline holds again. |
| UmsRead.Pipeline.ReadAhead | apps/diskmode/ums.c:284-291 | Exactly when the buffer to be sent is the current one and the medium goes on, the other buffer is to be filled with what comes next. |
| UmsRead.Pipeline.SendOverlap | apps/diskmode/ums.c:292-296 | What is sent is the next stretch of the request, from the place in the buffer that holds it; the residue falls by its bytes. |
| UmsRead.Pipeline.SendFrom | apps/diskmode/ums.c:269-297 | Sends, from where the buffer holds it, all it has of the request; the buffer sent stays as it is while the other may be refilled. |
| UmsRead.Pipeline.SendAndReadNext | apps/diskmode/ums.c:269-304 | Sends the next sectors if a buffer holds them, else waits for a buffer that is to hold them. |
| UmsRead.Pipeline.HandleRead | apps/diskmode/ums.c:520-535 | Answers at once, with the right status, just when nothing is asked for or the request is beyond the medium. |
| UmsRead.Pipeline.XferComplete | apps/diskmode/ums.c:745-764 | What was being sent is received as it was; the status follows exactly when all has been sent. |
| UmsRead.Pipeline.AsyncBegin | apps/diskmode/ums.c:803-808 | The storage is read only into an empty buffer, never into one that is being sent. |
| UmsRead.Pipeline.AsyncFinish | apps/diskmode/ums.c:808-811 | The buffer counts as filled if it is still wanted for the same sectors, and as empty if not; the other buffer stays. |
| UmsRead.Pipeline.AsyncProceed | apps/diskmode/ums.c:812-818 | Sending that waited goes on as soon as its buffer is filled. |
| UmsRead.Pipeline.GetGoing | apps/diskmode/ums.c:790-818 | No deadlock: whenever sending waits, the worker's own next steps get it going. |
| UmsRead.Pipeline.ServeCommand | apps/diskmode/ums.c:745-818 | Every command is answered, rightly and once, after finitely many steps of the worker and completions of transfers, in whatever order they take their turns. |
| UmsRead.Pipeline.Run | apps/diskmode/ums.c:745-818 | Over every interleaving of commands, completions and worker steps, each READ(10) sends exactly the requested sectors once and in order, or nothing if they are not all on the medium, bytes sent plus residue are the bytes asked for, and the number of events is bounded by what has been asked for. |
| StrCaseStr.StrCaseStr | emcore/strcasestr.c:38-123 | The first position at which the needle matches ignoring ASCII case; none exactly when there is none; ends on all strings. |
| StrCaseStr.FindTwo | emcore/strcasestr.c:66-93 | The inner loop with its jumps skips no match and makes progress. |
| StrCaseStr.CompareRest | emcore/strcasestr.c:93-116 | The comparison of the rest says exactly whether the needle matches there. |
| StrCaseStr.Letters | emcore/strcasestr.c:38-56 | The 26 letters and the pairing of their two cases. |
| Crc32.TableEntry | emcore/crc32.c:27-31 | Each of the 16 entries is what four one-bit steps make of its index. |
| Crc32.NibbleIsFour | emcore/crc32.c:41-42 | A table step is four one-bit steps, on every register. |
| Crc32.ComputeCrc32 | emcore/crc32.c:33-46 | The bit-at-a-time reflected CRC-32 on every input. |
| Crc32.CheckValue | emcore/crc32.c:33-46 | The CRC of "123456789" is the check value 0xcbf43926. |
| Crc32.ByteTableForm | emcore/crc32.c:33-46 | One byte is also the step of the 256-entry form in section 8 of RFC 1952. |
| Crc32.BitsAreInjective | emcore/crc32.c:41-42 | Steps never make different registers equal. |
| Crc32.FourBytesShow | emcore/crc32.c:33-46 | Different runs of up to four bytes lead to different registers. |
| Crc32.BurstIsDetected | emcore/crc32.c:33-46 | Inputs of equal length that differ only within four consecutive bytes have different CRCs. |
| DirBacking.SlotsDecide | emcore/fat.c:1169-1171 | A directory sector is determined by its slots. |
| DirBacking.ByteInSlot | emcore/fat.c:1169-1171 | Byte x of a directory sector is byte x mod 32 of its slot x / 32. |
| DirBacking.SeekDir | emcore/fat.c:2291-2344 | A seek in a directory never fails and changes only the position. |
| DirBacking.ReadDir | emcore/fat.c:2176-2289 | Reads exactly the next sector of the directory, or 0 at its end, which sticks. |
| DirBacking.WriteDir | emcore/fat.c:2176-2289 | Overwrites exactly the next sector; at the end the directory takes one cluster, or fails exactly when none is free. |
| DirFiles.DirFile.constructor | emcore/fat.c:2346-2380 | An opened directory is the list of the sectors its chain has on disk. |
| DirFiles.DirFile.Write | emcore/fat.c:2176-2289 | The next sector is overwritten, or the list grows by one cluster of whatever was on disk; it fails exactly at the end with no cluster free. |
| DirFiles.DirFile.SectorNum | emcore/fat.c:1407-1409 | The cursor's sector number is the number of sectors passed in the current cluster. |
| DirFiles.OtherFilesKept | emcore/fat.c:1326-1449 | Whatever is done to a directory, a file with other clusters keeps its chain and contents. |
| LongNames.ChecksumOf | emcore/fat.c:1121-1123 | The checksum of the short name. |
| LongNames.NextChecksum | emcore/fat.c:1121-1123 | Each byte of a short name is added to the checksum so far, turned right by one bit; it begins at 0. |
| LongNames.ChecksumTells | emcore/fat.c:1121-1123 | Short names that differ in one byte have different checksums. |
| LongNames.LastPart | emcore/fat.c:1125-1129 | Where the last part of a name begins. |
| LongNames.FillLongSlot | emcore/fat.c:1181-1215 | A long slot has the characters, terminator, padding, ordinal, attribute and checksum that FAT prescribes. |
| LongNames.LongSlotBytes | emcore/fat.c:1181-1215 | Ordinal, attribute, checksum and zero bytes of a long slot, by their places. |
| LongNames.LongSlotChars | emcore/fat.c:1181-1209 | The thirteen characters of a long slot, its terminator and padding, by their places. |
| LongNames.FillShortSlot | emcore/fat.c:1217-1232 | The short slot, field by field. |
| LongNames.ShortSlotBytes | emcore/fat.c:92-103 | Where name, kind, times and dates of a short slot stand. |
| LongNames.TurnSector | emcore/fat.c:1137-1167 | Going to the next sector writes the full one where it belongs. |
| LongNames.PutSlot | emcore/fat.c:1137-1175 | Each slot goes to its own place, into the next sector if need be. |
| LongNames.WriteLongName | emcore/fat.c:1090-1251 | Exactly the slots of the name are filled, across sector borders too; every other slot of the directory stays. |
| DirReader.Reader.constructor | emcore/fat.c:2346-2380 | A reader begins at the first slot. |
| DirReader.Reader.NextSlot | emcore/fat.c:2401-2423 | Slots come in order across sector borders, until the last. |
| DirReader.Reader.MeetLong | emcore/fat.c:2441-2480 | What a long slot adds to the name collected so far. |
| DirReader.Reader.DecodeName | emcore/fat.c:2505-2528 | The name in the buffer, or that it is too long. |
| DirReader.ParseName | emcore/fat.c:1651-1669 | The loops of parse_direntry put the short name together. |
| DirReader.DosNameIs | emcore/fat.c:1651-1669 | That name: the bytes before the first space, a dot and an extension if there is one, lower case where the slot says so, 0xe5 for 0x05 at its head. |
| DirReader.DecodeIs | emcore/fat.c:2505-2528 | The long name ends at its first terminator, has ? for every character beyond seven bits, and is dropped exactly if it has more than 255. |
| DirReader.Kinds | emcore/fat.c:2441-2488 | Which attribute bytes make a long slot and which a volume label. |
| DirReader.BehindFree | emcore/fat.c:2424-2428 | A free slot is passed over and the entry behind it is counted from there. |
| DirReader.BehindLabel | emcore/fat.c:2484-2488 | A volume label is passed over, and counted with the entry behind it. |
| DirReader.Disowned | emcore/fat.c:2444-2470 | A long slot without a beginning, out of order, or beginning with an ordinal out of range leaves the entry behind it its short name. |
| DirReader.Reader.Judge | emcore/fat.c:2424-2550 | What a slot just passed means for the search. |
| DirReader.Reader.Pass | emcore/fat.c:2397-2550 | One round of the loop either gets on or has the result of the specification. |
| DirReader.Reader.GetNext | emcore/fat.c:2382-2557 | Returns the next entry of the specification from every position of every directory; position and cached sector stay in step. |
| DirReader.OverrunsExactly | emcore/fat.c:2441-2480 | fat_getnext leaves the name buffer if and only if it meets, with an unbroken long name open, a continuing slot whose ordinal is out of range. |
| DirReader.OverrunHappens | emcore/fat.c:2444-2479 | A concrete directory of two long slots in which it does. |
| DirReader.NeverOverruns | emcore/fat.c:2444-2479 | So a directory whose continuing slots have proper ordinals is read without leaving the name buffer. |
| DirReader.NameIsReadBack | emcore/fat.c:2382-2557 | The slots of a name are read as that name, whatever the name buffer held. |
| DirReader.WrittenIsReadBack | emcore/fat.c:2382-2557 | Every name of 1 to 255 seven-bit characters that is written is returned by fat_getnext from there. |
| DirReader.WrittenIsReadable | emcore/fat.c:2444-2479 | Writing a name keeps the directory's ordinals proper. |
| DosNames.AtoiPrinted | emcore/fat.c:1535-1543 | A printed number is read back, whatever follows but a digit. |
| DosNames.DigitWeighs | emcore/fat.c:1535-1540 | A digit counts for its decimal place. |
| DosNames.NextCounterFits | emcore/fat.c:1535-1544 | The next number and its tilde always fit into eight characters. |
| DosNames.CountsUp | emcore/fat.c:1535-1541 | The number is 1 for a name without a tilde, else one more than before, and 0 after 9999999. |
| DosNames.RandomizedCounter | emcore/fat.c:1515-1553 | The new name carries the next number behind its first tilde, and its extension stays. |
| DosNames.RandomizedKeeps | emcore/fat.c:1523-1553 | The new name is the old one up to its tilde, which stands where the proper characters end or as far in front of that as the number needs; behind the number there are only spaces, and the extension stays. |
| DosNames.MarkedOn | emcore/fat.c:1515-1553 | However often a name is made different, it stays the first one up to its tilde. |
| DosNames.NinthBecomes | emcore/fat.c:1541-1553 | "ABCDEF~9TXT" becomes "ABCDE~10TXT". |
| DosNames.RandomizeDosName | emcore/fat.c:1515-1553 | The loops compute exactly that name, with all of these properties. |
| DirEntries.ScanSector | emcore/fat.c:1353-1392 | One sector of the search: free runs counted across sectors, duplicates found, the end of the directory noticed. |
| DirEntries.Search | emcore/fat.c:1327-1393 | Reports a duplicate exactly when an entry in use has the short name; else a free run, or how many free slots end the directory. |
| DirEntries.TriedAreDistinct | emcore/fat.c:1515-1553 | Successive short names differ until ten million have been made. |
| DirEntries.FewRestarts | emcore/fat.c:1375-1386 | There are no more restarts than entries. |
| DirEntries.FindSlots | emcore/fat.c:1327-1393 | The restarts end, with a short name no entry has, which is the given one or begins as it does up to its tilde. |
| DirEntries.Extend | emcore/fat.c:1395-1428 | The directory grows by zero sectors up to a cluster's end until the free run is long enough; or stops at the size limit or with no cluster left, all old slots as before and zero slots behind them. |
| DirEntries.AddDirEntry | emcore/fat.c:1326-1449 | On success exactly the slots of the new entry, contiguous and formerly free, are added under an unused short name that is the given one or begins as it does, no other slot changes, and the directory stays zero-tailed; on failure all entries are as before and none is added below the size limit. |
| DirEntries.AddedIsReadBack | emcore/fat.c:1326-1449 | An added entry is what fat_getnext returns from its first slot on. |
| DirListing.NextAlike | emcore/fat.c:2382-2557 | What fat_getnext returns does not depend on what earlier calls have left in the name buffer, nor on slots before it. |
| DirListing.ListAll | emcore/fat.c:2382-2557 | Calling fat_getnext to the end gives the entries of the directory, one after the other. |
| DirListing.AddedIsListed | emcore/fat.c:1326-1449 | Reading the whole directory after an entry has been added where no long name is open gives the old entries, each as before, and the new one among them. |
| DirListing.AddedToTidy | emcore/fat.c:1326-1449 | In a directory whose long slots are followed by the rest of their entry no name is open at free slots, and adding entries keeps it so. |
| DirListing.AddAndList | emcore/fat.c:1326-2557 | add_dir_entry, then fat_getnext from the first slot to the end: the old entries and the new one, over the cached FAT and the disk. |
| DirListing.TornIsRenamed | emcore/fat.c:2441-2504 | A directory with free slots inside a long name, where adding an entry renames another. |

## Left out

- Storage errors, several volumes, hot swapping and FAT16.
- Mounting and its sanity checks; what they establish is `Layout.Mounted`.
- The lock counters of the cache slots and the cache mutex: the counters are never read, and the driver runs under its lock.
- Layout.Mounted: a medium byte of 0xF0 would make entry 0 no end mark; then a walk that reaches cluster 0 goes on.
- ftruncate, and fsync on a handle that truncates: they move the FAT position without restoring it. What they do to an empty file is `CloseTruncated`.
- FatReadWrite: a write on a handle whose last transfer was a read past the end is excluded but for its first step (`WriteAstray`), and so is a transfer after a seek that went through beyond the file, until the next seek.
- GetNext: where the source writes outside the name buffer the reader stops; what that write destroys is not modelled.
- ReadWrite: of a write that fails among its whole sectors it is stated that only sectors of this file have changed, not how many.
- ReadLost: the read of whole sectors into an aligned buffer only.
- FileDesc.Write: sizes and offsets are unbounded, the 32-bit limit of file offsets is not modelled.
- Errno values.
- fat_checkname and create_dos_name: the short name is an input of `AddDirEntry`. Dot entries are not modelled.
- AddDirEntry: strncmp is equality of eleven bytes, as it is for names without a zero byte; create_dos_name makes no others.
- AddDirEntry: the errors of fat_seek inside a directory, which cannot happen there, have no branch. A cluster size that does not divide 4096 sectors can leave slots of unknown contents behind the size limit.
- Time stamps: they are inputs. Volume labels are skipped as in the source, but removal by slot count is not modelled.
- Directory slots are removed, renamed and updated by functions that are not modelled; removal and close are about clusters.
- readdir and the scan of a path stop at an entry with an empty name; listed is what fat_getnext returns.
- Thread creation, suspend, resume, terminate, kill levels, changes of priority, wakeup objects other than their timeouts, and the stack canary.
- Unlink: at the end of the list the walk stops, where the source reads on through the null pointer; `pastEnd` says exactly when.
- RemoveFromQueue: the same, for the last of several waiters.
- UnlockInternal: the same, for the last of several mutexes of a thread.
- UnlockMutex: what the source goes on to do where `pastEnd` holds is not modelled; nor is what a panic does to the thread, only that it happens, before anything else has changed.
- ReleaseExpired: what the source goes on to do where `pastEnd` holds is not modelled.
- LockOrWait: the recursion count is unbounded.
- SwitchThread: where `pastEnd` holds, as for ReleaseExpired. Threads are scanned in the order of their numbers, the idle thread is number 0 and never waits for anything.
- HandleRead: requests whose end wraps around 2^32 to a sector of the medium are excluded: they are accepted, as `RangeCheckIsExact` says, and then the storage is read beyond its end, whose errors are not modelled.
- Run: passes over those requests.
- XferComplete: the host's length matches the request, and send_and_read_next finishes before the transfer it starts completes.
- The write side of mass storage, its effect on the read buffers, other SCSI commands and ATA pass-through.
- StrCaseStr: tolower and toupper are those of ASCII.
- Memory allocation and executable images, which rest on libraries, and user interface, drivers and hardware registers.
