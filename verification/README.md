# LumosOS: a verified model

LumosOS is a small 32-bit x86 kernel. This project models three of its subsystems and a
smaller fourth one in Dafny and proves what they keep over every input and every run.

**FAT16 file system** (`Bits`, `FatLayout`, `FatChain`, `FatDisk`, `FatAlloc`, `FatFile`,
`FatPlace`, `FatOps`, `FatDir`, `FatUse`, `FatRuns`). The driver is the class `Fat`: a disk of
512-byte sectors, one page of buffer and the number of the sector it caches. Every operation is a
method on it with the loops of the source. Its specification is an abstract volume `Vol`: the table, the
bytes of each cluster, the bytes of the root directory. A file's bytes are `Content`, read along the
chain of table entries from its first cluster; the chain is a ghost sequence that the proofs
carry along. `FatPlace` says where each part of the volume is on the disk, going by the boot
record's fields alone. `FatUse` follows one file: chunked reads, writes read back, a file saved,
closed and loaded again. `FatRuns` is about whole runs over any number of files, open and closed: create,
open, truncate, read, seek, write and close in any order, each with every outcome its contract
allows. The code's operations are shown to take these steps.

**Memory** (`Bitmap`, `PageTable`, `PageSteps`, `Frames`, `Uvm`, `UvmDestroy`, `UserMem`,
`UserCopy`, `CopyArgs`, `PageRights`). Physical memory is a sequence of 4096-byte pages;
directories and tables live in pages and are read and written as little-endian words, as in section 4.3 of the
Intel SDM volume 3A. A ghost `owner` says what each page is for (free, directory, table, user
page, held by the kernel). The invariant ties the words in memory, the owners and the bitmap
together, so that a frame is never in two places. `PageRights` reads the tables as the processor
does, byte by byte, and says where an address leads and what a user may do there.

**Lists, scheduler, mutexes, semaphores** (`LinkedList`, `Sched`, `SchedInv`, `SchedRuns`,
`SchedTime`, `SchedSync`, `SchedSlice`, `SchedCode`, `SchedLists`). `LinkedList` has the
intrusive list with its `pre` and `next` fields and the sweep that unlinks nodes while it walks. `Sched` is the step machine:
each section with interrupts off is a step, and a step ends when it switches to another task.
A timer tick that switches away before its sweep leaves that sweep to be finished when the
interrupted task runs again; `pending` is the set of tasks with such a broken-off tick, and
`sweeps` counts the sweeps done. `SchedCode` is the scheduler as one class with all its lists
linked: ready and sleep list on the tasks' run nodes and a wait list for each mutex and each
semaphore on their wait nodes. Its methods change fields and nodes in place, and each is shown
to take the step of the machine that stands for it. `SchedLists` shows for single lists that
what is done to the nodes is what the machine does to its sequences. `SchedInv`, `SchedTime`,
`SchedSlice` and `SchedSync` prove the invariants and the properties of runs.

**Terminal output** (`Tty`, `TtyRuns`, `TtyStop`). The ring buffer and a write by a lone writer are
classes; all interleavings of any number of writers, each of which drains at the end of its
write, are a step machine with the bytes shown, put and given as its history. `TtyStop` says for
which pending writes some interleaving stops for good.

**Open files** (`FileRef`, with the multiset lemmas of `Bags`, which the scheduler also uses). The
file table's `ref` fields and the tasks' descriptor tables.

## What the main results rest on

* Disk: transfers do not fail, sectors have 512 bytes, there are two table copies, the root
  directory fills whole sectors, a cluster has 1, 2, 4 or 8 sectors (the buffer is one page), and
  a table has at most 65280 entries. The data area may have fewer clusters than the table has
  entries. First-cluster numbers of directory entries fit 16 bits. The two table copies start
  equal where `KeepsMirror` is used to say they stay equal.
* Files are written at their end only, as `fatfs_write` itself assumes.
* The clusters a successful allocation hands out to a write exist; `FatFile.AllocatedExistIff`
  says when they do. Where every free table entry has a cluster nothing is assumed about how
  many are free.
* A run over several files starts with good files: entries in use, chains apart, handles that can
  read. The only other conditions are on the file operated on: it is written at its end, opened
  when it is not open already, closed when it is open. Names of new files must not start with an
  end or free mark.
* Page tables start zeroed and only present entries are stored in them, so an entry that is not
  present is 0; the invariant says so and every operation keeps it.
* A count of one is used for frames. `Bitmap.BitMap.AllocNbits` is exact for every count;
  `Bitmap.AllocSoundIff` and `Bitmap.AllocTakesUsedBit` show what it gives for more than one.
* Frames suffice where the page functions are called. `addr_alloc_page` reports failure as -1
  and its callers compare with 0, so exhaustion is not handled by the source.
* `memory_create_map` and `memory_copy_uvm` fall off their end or are called with the current
  space as source; both are taken as the callers use them: the first as success, the second
  as reading user addresses through the source space.
* Each system call on files is one step. Each system call of the scheduler is one step up to
  its switch.

## Where the code differs from what its comments or names promise

The model follows the code. All points but the last are proved.

* `sys_sleep` with 0, or with a time so long that the 32-bit rounding sum wraps, takes the task
  off the ready list and puts it nowhere (`SchedTime.SleepKeepsTaskIff`).
* `up2` rounds to zero when the sum wraps (`Bits.Up2Wraps`, `Bits.Up2RoundsIff`).
* `bitmap_alloc_nbits` inspects one bit too few for counts of two and more
  (`Bitmap.AllocSoundIff`, `Bitmap.AllocTakesUsedBit`).
* `fatfs_read` wraps its count when the position is past the end of the file, which
  `fatfs_seek` allows (`FatOps.ReadLengthExact`, `FatUse.SeekPastEnd`).
* A file that exactly fills its chain and was read to its end has no current cluster.
  `fatfs_write` then allocates clusters, cannot link them, answers 0 and loses them
  (`FatOps.WriteAppendsIff`, `FatUse.FullFileRefusesWrite`).
* A write that ends at the end of its chain and finds no free entry for one cluster more stores
  all its bytes and answers their number, but leaves the position where its last round began
  (`FatOps.WriteAppendsIff`).
* `cluster_alloc_free` scans the whole table and can hand out the number of an entry beyond the
  last cluster (`FatFile.AllocatedExistIff`, `FatFile.AllocatesNoCluster`).
* `memory_get_paddr` does not look at an entry's present bit. For a page that is not mapped but
  has a table it answers the offset, an address in physical page 0 (`UserCopy.PaddrHonestIff`,
  `UserCopy.NeighbourAnswered`).
* A single `tty_write` whose expansion has more than 512 bytes sleeps on a full ring with
  nobody to drain it (`Tty.Terminal.TtyWrite`, `TtyRuns.StuckMeansFull`). Several short writes
  can stop one another in the same way, exactly when the bytes they can put without any of them
  finishing are 512 or more (`TtyStop.StopsIff`).
* A truncating open frees the chain named by the directory entry, which is brought up to date by
  `fatfs_close` only. For a file created and not closed since it frees nothing
  (`FatDir.TruncatesByEntry`).
* A file created under a name that starts with an end or free mark cannot be found again
  (`FatDir.CreatedIsFound`).
* `is_fd_bad` joins its two tests with `&&` and so rejects nothing; `task_file` checks the range.

## Model

| member | source | states |
|---|---|---|
| Bits.Down2Rounds | source/kernel/include/tools/klib.h:86-88 | `down2` is the multiple of a power of two at or below its argument |
| Bits.Up2Rounds | source/kernel/include/tools/klib.h:96-98 | `up2` is the least multiple at or above, with its exact quotient, when the sum does not wrap |
| Bits.Up2Wraps | source/kernel/include/tools/klib.h:96-98 | when the sum wraps the result is 0 |
| Bits.Up2RoundsIff | source/kernel/include/tools/klib.h:96-98 | `up2` rounds up exactly when the sum fits 32 bits |
| FatLayout.WriteClusterVol | source/kernel/fs/fatfs/fatfs.c:538-560 | writing a cluster's sectors changes that cluster of the volume and no table entry, no other cluster, no directory byte |
| FatLayout.WriteEntryVol | source/kernel/fs/fatfs/fatfs.c:93-125 | storing one entry in both table copies changes that entry of the volume only |
| FatLayout.WriteEntryMirror | source/kernel/fs/fatfs/fatfs.c:113-123 | equal table copies stay equal |
| FatLayout.WriteRootVol | source/kernel/fs/fatfs/fatfs.c:283-296 | writing a root sector changes those 512 directory bytes only |
| FatPlace.ClusterFollows | source/kernel/fs/fatfs/fatfs.c:371-379 | cluster 2 begins in the sector right behind the last directory entry, and each cluster right behind the one before |
| FatPlace.RegionsTile | source/kernel/fs/fatfs/fatfs.c:371-379 | every sector from the first table to the end of the last cluster lies in exactly one of first table, second table, root directory and one cluster, and no sector behind does |
| FatPlace.EntryOnDisk | source/kernel/fs/fatfs/fatfs.c:69-88 | entry c is the little-endian word c of the first table |
| FatPlace.RootOnDisk | source/kernel/fs/fatfs/fatfs.c:317-327 | byte k of the root directory, which has 32 bytes for each entry, follows the tables |
| FatPlace.ClusterOnDisk | source/kernel/fs/fatfs/fatfs.c:478-484 | byte k of a cluster is in the sector that the boot record's fields give |
| FatPlace.ContentOnDisk | source/kernel/fs/fatfs/fatfs.c:468-515 | byte p of a file is on the disk in the cluster at position p over the cluster size of its chain |
| FatDisk.Fat.BreadSector | source/kernel/fs/fatfs/fatfs.c:12-23 | the buffer's first sector is the disk sector asked for, provided the cache agreed or another sector was cached |
| FatDisk.Fat.ClusterGetNext | source/kernel/fs/fatfs/fatfs.c:69-88 | reading through the cache gives the table entry on disk, or the end mark outside the table; disk and cache agreement are kept |
| FatDisk.Fat.ClusterSetNext | source/kernel/fs/fatfs/fatfs.c:93-125 | sets exactly one entry of the volume, in both copies, and keeps the cache in agreement; refuses numbers outside the table |
| FatChain.PathDistinct | source/kernel/fs/fatfs/fatfs.c:130-136 | a terminated chain visits no cluster twice |
| FatChain.PathUnique | source/kernel/fs/fatfs/fatfs.c:69-88 | a first cluster has at most one terminated chain |
| FatChain.ReachesPath | source/kernel/fs/fatfs/fatfs.c:130-136 | what can be reached from a chain's start is its members |
| FatAlloc.ClusterFreeChain | source/kernel/fs/fatfs/fatfs.c:130-136 | terminates on every table, cyclic ones too, and frees exactly the in-table clusters reachable from the start |
| FatAlloc.FreeingDone | source/kernel/fs/fatfs/fatfs.c:130-136 | the entries the loop has cleared are the ones the original table reaches, when it stops |
| FatAlloc.ClusterAllocFree | source/kernel/fs/fatfs/fatfs.c:138-177 | links the `cnt` lowest free clusters or, with too few, restores the table |
| FatChain.AllocatedChain | source/kernel/fs/fatfs/fatfs.c:138-177 | the allocation is a chain of `cnt` clusters that were free, lowest first, ascending, ended by 0xFFF8; all other entries are unchanged |
| FatChain.AllocatedIff | source/kernel/fs/fatfs/fatfs.c:138-177 | it succeeds exactly when enough clusters are free; otherwise the table is as it was |
| FatChain.FreeUndoesAlloc | source/kernel/fs/fatfs/fatfs.c:130-177 | freeing an allocated chain restores the table |
| FatChain.FreeUndoesLink | source/kernel/fs/fatfs/fatfs.c:154-176 | rolling back a partly built chain restores the table |
| FatChain.FreedKeepsOthers | source/kernel/fs/fatfs/fatfs.c:444-448 | truncation frees the whole chain and leaves every disjoint chain intact |
| FatChain.LinkBehind | source/kernel/fs/fatfs/fatfs.c:213-219 | hooking an allocated chain behind an element gives the joined chain, acyclic and terminated |
| FatFile.GrownKeepsOthers | source/kernel/fs/fatfs/fatfs.c:182-221 | growing a file leaves the chains of other files intact and disjoint from it |
| FatFile.FreeCountAfter | source/kernel/fs/fatfs/fatfs.c:182-221 | an expansion uses up exactly the clusters it asked for |
| FatFile.ExpandCovers | source/kernel/fs/fatfs/fatfs.c:185-202 | the number of clusters asked for makes room for all the bytes to come; `FatFile.ExpandExact` bounds it from above |
| FatFile.ExpandExact | source/kernel/fs/fatfs/fatfs.c:185-202 | the clusters asked for are exactly those by which the least number that holds the new size exceeds the least that holds the old one, and one more only when the growth just fills the last cluster |
| FatFile.NeedsTaken | source/kernel/fs/fatfs/fatfs.c:520-581 | a whole write takes one cluster for each one it enters, the one behind its end included; starting between clusters it takes what its own bytes fill, rounded up, since an empty cluster is there already |
| FatFile.MovePos | source/kernel/fs/fatfs/fatfs.c:226-244 | where the position lands after a move within a cluster or to its end |
| FatFile.ContentAppend | source/kernel/fs/fatfs/fatfs.c:536-569 | storing a chunk in the current cluster appends it to the file's bytes |
| FatFile.ContentPrefix | source/kernel/fs/fatfs/fatfs.c:182-244 | a longer chain with the same first clusters holds the same bytes |
| FatFile.WalkAgrees | source/kernel/fs/fatfs/fatfs.c:69-88 | walks of any length along a chain are the same in two tables that agree on the chain's entries |
| FatFile.StreamFrame | source/kernel/fs/fatfs/fatfs.c:468-515 | handle, chain and bytes of a file, at any position, depend on the entries and bytes of its own clusters only |
| FatFile.AppendableIff | source/kernel/fs/fatfs/fatfs.c:209-219 | at its end a file can take more exactly when it has no first cluster yet or has a current one |
| FatFile.AllocatedExistIff | source/kernel/fs/fatfs/fatfs.c:138-177 | all clusters handed out exist exactly when the last of them does, that is when enough free ones exist |
| FatFile.AllocatesNoCluster | source/kernel/fs/fatfs/fatfs.c:138-177 | for every geometry whose table has more entries than there are clusters, the table whose only free entry is the one behind the last cluster: that one is handed out |
| FatOps.ExpandFile | source/kernel/fs/fatfs/fatfs.c:182-221 | asks for exactly the clusters needed and links them behind the current one or starts the chain; without enough free entries changes nothing; without a current cluster loses them |
| FatOps.ExpandTakes | source/kernel/fs/fatfs/fatfs.c:182-221 | the free clusters fall by just the clusters the longer file needs more, and by one when it fills the last cluster; with fewer free it answers -1 and takes none |
| FatOps.LeakKeepsChains | source/kernel/fs/fatfs/fatfs.c:203-217 | clusters lost this way come off the free ones, and every chain is kept |
| FatOps.MoveFilePos | source/kernel/fs/fatfs/fatfs.c:226-244 | advances position and cluster together, adding one cluster at the end of a full chain; with no free entry for it, fails and changes nothing |
| FatOps.ReadLengthExact | source/kernel/fs/fatfs/fatfs.c:469-474 | the count is min(size, rest) exactly when the position is not past the end |
| FatOps.ReadNext | source/kernel/fs/fatfs/fatfs.c:478-512 | one round gives the next bytes of the file and moves on |
| FatOps.FatfsRead | source/kernel/fs/fatfs/fatfs.c:468-515 | returns exactly the min(n, size - pos) bytes from the position on, each the one in its sector of the disk, advances by them, keeps the disk |
| FatOps.WriteNext | source/kernel/fs/fatfs/fatfs.c:534-579 | one round appends a part of the buffer, whole cluster or chunk, and keeps chain and position in step, unless it fills the last cluster there is |
| FatOps.WriteRounds | source/kernel/fs/fatfs/fatfs.c:531-580 | the loop appends the whole buffer and takes one more cluster exactly when it ends at the end of the chain; with none left it ends with the position behind |
| FatOps.FatfsWrite | source/kernel/fs/fatfs/fatfs.c:520-581 | appends the whole buffer to the file's bytes, takes exactly the clusters it needs, changes no cluster outside the chain and no other entry; or answers 0 with everything unchanged; or answers 0 and loses what it allocated; or stores all and leaves the position behind |
| FatOps.WriteAppendsIff | source/kernel/fs/fatfs/fatfs.c:203-217 | with enough free clusters a write appends exactly when the file has no cluster yet or has a current one; else it answers 0, keeps every chain and loses the clusters asked for; the position follows exactly when one cluster is left for a write that ends at the end of the chain |
| FatOps.WriteTakes | source/kernel/fs/fatfs/fatfs.c:520-581 | with as many free clusters as a write takes, going by where it starts and ends, it stores all its bytes and takes just these; one that starts inside a cluster or an empty file ends in the last cluster of the chain |
| FatOps.WriteRefusedIff | source/kernel/fs/fatfs/fatfs.c:182-221 | a write answers 0 exactly when fewer entries are free than the longer file needs more, or than the one it takes to fill its last cluster |
| FatOps.WrittenOnDisk | source/kernel/fs/fatfs/fatfs.c:534-579 | the bytes that the answer counts are on the disk in the sectors of the new chain, behind the old ones |
| FatOps.AppendedTrans | source/kernel/fs/fatfs/fatfs.c:534-579 | consecutive appends are one append |
| FatOps.FatfsSeek | source/kernel/fs/fatfs/fatfs.c:604-641 | moves to the offset and the cluster the walk from the start reaches, and fails without change exactly when the walk leaves the chain |
| FatUse.ReadInPieces | source/kernel/fs/fatfs/fatfs.c:468-515 | any sequence of chunk sizes reads the same bytes as one long read |
| FatUse.ReadBack | source/kernel/fs/fatfs/fatfs.c:604-641 | seek to 0 and one read give all the bytes of the file |
| FatUse.WriteThenRead | source/kernel/fs/fatfs/fatfs.c:468-641 | write, seek to 0 and read give the old bytes followed by the new ones, also when the write took the last cluster |
| FatUse.SeekPastEnd | source/kernel/fs/fatfs/fatfs.c:468-641 | a seek past the end inside the first cluster succeeds, and the next read's count exceeds what is asked for |
| FatUse.FullHasNoCurrent | source/kernel/fs/fatfs/fatfs.c:226-244 | a file read to the end of an exactly full chain has no current cluster |
| FatUse.FullFileRefusesWrite | source/kernel/fs/fatfs/fatfs.c:468-581 | a write to such a file, once read to its end, answers 0, keeps the file and loses the clusters asked for |
| FatUse.WriteAll | source/kernel/fs/fatfs/fatfs.c:520-581 | a sequence of writes appends the concatenation of the buffers and touches no directory entry |
| FatUse.OpenWriteRead | source/kernel/fs/fatfs/fatfs.c:418-641 | open a new or truncated file, write any sequence of buffers, seek to 0, read: their concatenation; it fails exactly for lack of a directory slot |
| FatUse.SaveAndLoad | source/kernel/fs/fatfs/fatfs.c:418-599 | create or truncate, write any sequence of buffers, close, open again, read: their concatenation; it fails exactly for lack of a directory slot |
| FatUse.SeekWithin | source/kernel/fs/fatfs/fatfs.c:604-641 | a seek up to the end of a file stays on its chain, and the file readable, except at the end of a file that exactly fills its chain |
| FatUse.SeekMeetsReading | source/kernel/fs/fatfs/fatfs.c:604-641 | seeking to a byte of the file reaches the position and cluster that sequential reading reaches |
| FatRuns.WriteKeepsOther | source/kernel/fs/fatfs/fatfs.c:520-581 | whatever comes of a write, every other readable file, wherever it stands, keeps its handle, its bytes and its clusters to itself |
| FatRuns.TruncateKeepsOther | source/kernel/fs/fatfs/fatfs.c:444-448 | so with a truncation |
| FatRuns.WriteOwn | source/kernel/fs/fatfs/fatfs.c:520-581 | in each of its four outcomes a write appends just the bytes its answer counts, and the file can be read on |
| FatRuns.ActKeepsFiles | source/kernel/fs/fatfs/fatfs.c:418-641 | one creation, open, truncation, read, seek, write or close, whatever its outcome, keeps every file readable, its entry in step and all chains disjoint, and changes the bytes of its own file only, as it answers |
| FatRuns.ActKeepsNames | source/kernel/fs/fatfs/fatfs.c:418-599 | a file found under a name is found under it after the operation |
| FatRuns.OpenFile | source/kernel/fs/fatfs/fatfs.c:418-463 | the code's open, truncating or not, of one of the files takes a step of the run |
| FatRuns.CreateFile | source/kernel/fs/fatfs/fatfs.c:450-462 | so does its creation of a file, which fails without change exactly for lack of a slot |
| FatRuns.CloseFile | source/kernel/fs/fatfs/fatfs.c:583-599 | so does its close |
| FatRuns.ReadFile | source/kernel/fs/fatfs/fatfs.c:468-515 | so does its read, which gives the next bytes of that file's own history, as many as asked for or as there are |
| FatRuns.SeekFile | source/kernel/fs/fatfs/fatfs.c:604-641 | so does its seek within the file, up to its end, which fails without change exactly for the end of a file that fills its chain |
| FatRuns.WriteFile | source/kernel/fs/fatfs/fatfs.c:520-581 | so does its write at the end of the file, whatever comes of it |
| FatRuns.RunKeepsFiles | source/kernel/fs/fatfs/fatfs.c:418-641 | over every run of these operations on any number of files, open or closed, all files stay readable, chains stay disjoint, and each file holds exactly what was there at the start, or nothing since its last truncation, followed by the bytes its writes answered for |
| FatRuns.RunKeepsTight | source/kernel/fs/fatfs/fatfs.c:418-641 | over every run no file's chain has more than two clusters beyond those its bytes fill |
| FatRuns.RunKeepsNames | source/kernel/fs/fatfs/fatfs.c:418-599 | over every run a file stays findable under every name that finds it |
| FatRuns.FileChainsSound | source/kernel/fs/fatfs/fatfs.c:130-221 | a file's chain, in any state of such a run, has no cluster twice, none that is marked free and none that does not exist |
| FatDir.ReadDirEntry | source/kernel/fs/fatfs/fatfs.c:317-327 | the cached bytes are the entry in the root directory; out-of-range indexes give nothing |
| FatDir.WriteDirEntry | source/kernel/fs/fatfs/fatfs.c:283-296 | replaces exactly one 32-byte entry of the root directory |
| FatDir.ItemWritten | source/kernel/fs/fatfs/fatfs.c:283-296 | storing an entry into its sector is setting that entry of the volume's directory |
| FatDir.CloseItemFields | source/kernel/fs/fatfs/fatfs.c:583-599 | the size and cluster that close stores are the ones open reads; the name stays |
| FatDir.CloseItemOnly | source/kernel/fs/fatfs/fatfs.c:594-597 | no byte of an entry but those of size and first cluster changes |
| FatDir.InitItemRest | source/kernel/fs/fatfs/fatfs.c:330-347 | all other bytes of a new entry are zero, but for the tenths of its creation time |
| FatDir.ItemOnDisk | source/kernel/include/fs/fatfs/fatfs.h:35-48 | where on the disk the name, size and first cluster of directory entry i are, byte by byte |
| FatDir.FindItem | source/kernel/fs/fatfs/fatfs.c:422-437 | finds the first entry of that name before the end mark, else the slot a new file takes |
| FatDir.FatfsOpen | source/kernel/fs/fatfs/fatfs.c:418-463 | opens, truncates (freeing the whole chain), creates, or fails, with the exact volume and handle for each |
| FatDir.FatfsClose | source/kernel/fs/fatfs/fatfs.c:583-599 | stores size and first cluster in the file's entry, and nothing else |
| FatDir.ReopenAfterClose | source/kernel/fs/fatfs/fatfs.c:418-599 | close, then open, gives back size, first cluster and all the bytes |
| FatDir.TruncatesByEntry | source/kernel/fs/fatfs/fatfs.c:444-448 | a truncating open frees what the entry names, which for a created and never closed file is nothing |
| FatDir.TruncateAfterClose | source/kernel/fs/fatfs/fatfs.c:418-599 | after a close the entry names the chain the handle had, and a truncating open frees it |
| FatDir.CreatedIsFound | source/kernel/fs/fatfs/fatfs.c:450-462 | a created file is found under its name exactly when the name does not start with a mark |
| Bitmap.BitMap.GetBit | source/kernel/tools/bitmap.c:22-24 | the bit in its byte is the bit of the abstract map |
| Bitmap.BitMap.SetBit | source/kernel/tools/bitmap.c:26-34 | sets the run of bits, clipped at the end, and no other bit |
| Bitmap.SetOneAt | source/kernel/tools/bitmap.c:26-34 | masking one bit of one byte changes that bit only |
| Bitmap.BitIsShifted | source/kernel/tools/bitmap.c:22-24 | bit k of a byte is the one that a shift by k brings to the low end |
| Bitmap.ByteCountLeast | source/kernel/tools/bitmap.c:8-14 | the map gets the least number of bytes that holds its bits |
| Bitmap.BitMap.AllocNbits | source/kernel/tools/bitmap.c:40-73 | takes the first run whose inspected bits all match, or reports that there is none |
| Bitmap.AllocSoundIff | source/kernel/tools/bitmap.c:40-73 | on every map the first run the search stops at is a run of the whole count, exactly for counts up to one |
| Bitmap.AllocLastBit | source/kernel/tools/bitmap.c:55-66 | for larger counts the run is whole exactly when its last, uninspected bit matches |
| Bitmap.AllocTakesUsedBit | source/kernel/tools/bitmap.c:55-66 | a request for two bits that is handed a bit in use |
| PageTable.GetSetWord | source/kernel/core/memory.c:68-93 | a stored table word is read back and no other word changes |
| PageTable.IndexSplit | source/kernel/include/cpu/mmu.h:72-85 | directory and table index are the high and middle bits of the address |
| PageTable.JoinIndex | source/kernel/core/memory.c:309 | the address rebuilt from both indexes is that of the page |
| PageTable.MakeEntryFields | source/kernel/core/memory.c:104-120 | an entry keeps frame and permissions apart and is present |
| PageTable.PermCopied | source/kernel/include/cpu/mmu.h:105-107 | permissions taken from one entry and put in another are the same nine bits; what they mean to the processor is `PageRights.RightsOfPage` |
| PageTable.FramesDistinct | source/kernel/core/memory.c:104-120 | no two mappings, of one space or of two, share a frame |
| PageRights.WalkLeads | source/kernel/include/cpu/mmu.h:72-103 | read byte by byte as the processor does, directory and table lead from an address of a mapped page to its frame |
| PageRights.RightsOfPage | source/kernel/core/memory.c:68-93 | a user may read or write a page exactly as its page entry says: the directory entries that the code makes never take a right away |
| PageRights.CopyKeepsRights | source/kernel/core/memory.c:278-326 | in a copied space a user may read and write exactly where it may in the source |
| PageRights.HeapIsWritable | source/kernel/core/memory.c:367-402 | a user may read and write the pages a growing heap gets |
| PageSteps.LinkTable | source/kernel/core/memory.c:77-90 | hooking in a zeroed table maps nothing and keeps the invariant |
| PageSteps.LinkPage | source/kernel/core/memory.c:104-120 | filling an entry maps one page and changes no other translation |
| PageSteps.ReleasedInv | source/kernel/core/memory.c:248-273 | with one space's frames released the other spaces are still well formed |
| Frames.Memory.constructor | source/kernel/core/memory.c:11-20 | at boot the managed range is free and the rest is the kernel's |
| Frames.Memory.AddrAllocPage | source/kernel/core/memory.c:25-34 | hands out the lowest free frame, or all ones exactly when none is free |
| Frames.Memory.AddrFreePage | source/kernel/core/memory.c:43-48 | frees one frame that was in use |
| Frames.Memory.MemoryAllocOnePage | source/kernel/core/memory.c:225-228 | gives the kernel one frame that was free, or all ones when none is |
| Frames.Memory.MemoryFreeOnePage | source/kernel/core/memory.c:234-243 | gives it back, keeping everything else |
| Uvm.FindPte | source/kernel/core/memory.c:68-93 | gives table and index of an address, adding at most one zeroed table, in a frame that was free |
| Uvm.MemoryCreateMap | source/kernel/core/memory.c:104-120 | maps exactly one page; all other translations, spaces and frames in use stay |
| Uvm.MemoryCreateUvm | source/kernel/core/memory.c:153-168 | a new space has the kernel's entries and maps no user page |
| Uvm.MemoryCopyUvm | source/kernel/core/memory.c:278-326 | the copy maps the same user pages with equal permissions and bytes, in frames that were free, shares the kernel's entries, and leaves the source unchanged |
| Uvm.EntryCopied | source/kernel/core/memory.c:309-316 | a copied page has the source's permission bits and bytes |
| UvmDestroy.MemoryDestroyUvm | source/kernel/core/memory.c:248-273 | frees each page, table and the directory of one space exactly once, and nothing else |
| UvmDestroy.BitsAreUnion | source/kernel/core/memory.c:25-48 | the set bits are the disjoint union of the frames of the live spaces and the frames the kernel holds |
| UvmDestroy.ReleaseUndoesCopy | source/kernel/core/memory.c:248-326 | destroying a copy gives back the frames the copy took |
| UvmDestroy.CopyThenDestroy | source/kernel/core/memory.c:248-326 | copy and destroy restore the bitmap bit for bit and every frame in use |
| UserMem.MemoryAllocForPageDir | source/kernel/core/memory.c:193-219 | maps a run of pages, one frame each, and changes no other translation |
| UserMem.ExtendedPages | source/kernel/core/memory.c:193-219 | the mapped pages are the earlier ones plus that run, with no page mapped twice |
| UserMem.SysSbrk | source/kernel/core/memory.c:368-402 | answers the previous end, moves it by the increment, and maps exactly the pages newly touched |
| UserMem.PagesOfNewBytes | source/kernel/core/memory.c:368-402 | the pages newly touched are those with a new byte, other than the page of the last old byte |
| UserMem.SbrkRuns | source/kernel/core/memory.c:368-402 | over every sequence of calls each answer is the sum of the increments so far, exactly the pages up to the rounded-up end were added, and earlier translations stay |
| UserCopy.MemoryGetPaddr | source/kernel/core/memory.c:328-334 | frame and offset of the entry, 0 when there is no table |
| UserCopy.PaddrHonestIff | source/kernel/core/memory.c:328-334 | the answer is 0 or a translation exactly when the page has no table or is mapped, or for the first byte of a page; else it is the offset in physical page 0 |
| UserCopy.NeighbourAnswered | source/kernel/core/memory.c:328-334 | so it is for every byte but the first of an unmapped page whose table another page shares |
| UserCopy.PaddrTranslates | source/kernel/core/memory.c:328-334 | for a mapped page the answer is its translation and not 0 |
| UserCopy.SpliceStores | source/kernel/core/memory.c:336-361 | writing in a frame is storing at the virtual address and nowhere else |
| UserCopy.StoredTwice | source/kernel/core/memory.c:336-361 | two adjacent stores are one |
| UserCopy.MemoryCopyUvmData | source/kernel/core/memory.c:336-361 | page by page equals one flat store, up to the first page without a table, where it fails |
| CopyArgs.ArgAddrOrder | source/kernel/core/task.c:548-567 | strings lie behind the table and do not overlap |
| CopyArgs.CopyStrings | source/kernel/core/task.c:556-562 | copies every string and its table entry, keeping those done before |
| CopyArgs.CopyArguments | source/kernel/core/task.c:548-567 | lays out argc, argv, table, null and strings and changes nothing outside the block |
| CopyArgs.ArgsReadBack | source/kernel/core/task.c:548-567 | read through the page tables, every argv[i] points to an exact NUL-terminated copy, and the table ends in null |
| LinkedList.List.InsertFirst | source/kernel/tools/list.c:15-32 | the node comes first, the others follow in order |
| LinkedList.List.InsertLast | source/kernel/tools/list.c:34-51 | the node comes last |
| LinkedList.List.RemoveFirst | source/kernel/tools/list.c:53-78 | takes the first node off, or nothing |
| LinkedList.List.Remove | source/kernel/tools/list.c:80-105 | takes the node out at any position, the rest keep their order |
| LinkedList.SweepOne | source/kernel/core/task.c:320-328 | counts one sleeper down, moves it when it is done, and still finds the next |
| LinkedList.Sweep | source/kernel/core/task.c:319-329 | every sleeper counts down once; the expired ones, in order, join the ready list; the others keep their order |
| SchedInv.OnePlace | source/kernel/core/task.c:258-272 | a task is in exactly one of ready, sleep, a mutex queue, a semaphore queue, once |
| SchedInv.SweepCore | source/kernel/core/task.c:319-329 | a sweep loses no task and leaves the head at the head |
| SchedInv.DispatchShape | source/kernel/core/task.c:299-309 | a switch finishes at most one broken-off tick, that of the task it switches to |
| SchedInv.TickInv | source/kernel/core/task.c:311-330 | a tick keeps the invariant; what it leaves of the slice is `SchedSlice.StepLeft` |
| SchedInv.SleepInv | source/kernel/core/task.c:345-351 | so does a sleep of at least one sweep |
| SchedInv.LockInv | source/kernel/core/mutex.c:18-33 | so does a lock, blocking or not |
| SchedInv.UnlockInv | source/kernel/core/mutex.c:35-52 | so does an unlock, with or without a hand-off |
| SchedInv.WaitInv | source/kernel/ipc/sem.c:17-28 | so does a semaphore wait |
| SchedInv.NotifyInv | source/kernel/ipc/sem.c:30-41 | so does a notification, from a task or an interrupt |
| SchedInv.StepInv | source/kernel/core/task.c:258-351 | every enabled step keeps the invariant |
| SchedInv.RunPlaces | source/kernel/core/task.c:258-351 | in every run each task is in exactly one list and the current task is the head of the ready list, or idle when that is empty |
| SchedRuns.StepForm | source/kernel/core/task.c:299-351 | every step is its own effect followed by one switch, in closed form |
| SchedTime.ReadyMoves | source/kernel/core/task.c:258-330 | a step only takes the head off the ready list and only appends, and changes no waiting task's slice |
| SchedTime.WaitShrinks | source/kernel/core/task.c:311-330 | the slices ahead of a waiting task never grow and a tick takes at least one off |
| SchedTime.BoundedWait | source/kernel/core/task.c:258-330 | in every run the task at position p has run by the time of as many ticks as the slices ahead of it add up to, at most 10 * p |
| SchedSlice.StepLeft | source/kernel/core/task.c:311-318 | only a tick that hits a task changes what it has left of its turn: one less, and 10 after the last |
| SchedSlice.TurnLedger | source/kernel/core/task.c:311-318 | in every run the ticks that hit a task are 10 for each turn it ended, up to what it had left at the start and has left now |
| SchedSlice.TurnIsTen | source/kernel/core/task.c:311-318 | from one end of a task's turn to the next exactly 10 ticks hit it |
| SchedSlice.TickRotates | source/kernel/core/task.c:311-318 | a tick puts the running task behind the others exactly at the end of its turn, and it stands there with 10 ticks |
| SchedSlice.KeepsRunning | source/kernel/core/task.c:278-330 | a task that neither yields nor blocks keeps the processor for all the ticks it has left |
| SchedSlice.FullTurn | source/kernel/core/task.c:278-330 | a task put behind the others by a tick runs for 10 ticks the next time, and the tenth puts it behind again |
| SchedSlice.LosesProcessorIff | source/kernel/core/task.c:258-351 | the running task loses the processor exactly at the end of its turn or by a yield with another ready, by a sleep, by asking for another's mutex or waiting at 0, and loses it to the next in the list |
| SchedSlice.YieldGoesLast | source/kernel/core/task.c:278-289 | a yield puts the task behind all others that are ready, with what it had left |
| SchedTime.TicksAreSweeps | source/kernel/core/task.c:311-330 | sweeps done plus sweeps owed equal ticks: each tick's sweep is done exactly once, and no more are owed than tasks are ready |
| SchedTime.SleeperStep | source/kernel/core/task.c:319-329 | a step sweeps at most once, and a sleeper is counted down exactly then and wakes exactly at zero |
| SchedTime.SleepsExactly | source/kernel/core/task.c:332-351 | a task that sleeps is on the sleep list for exactly its number of sweeps and then ready |
| SchedTime.NapIsCeiling | source/kernel/core/task.c:345-351 | that number is the time over 10 ms, rounded up, unless the sum wraps; it is 0 exactly for 0 and for the wrapping times |
| SchedTime.SleepKeepsTaskIff | source/kernel/core/task.c:332-351 | a sleep keeps the task on some list exactly when the time is positive and the sum does not wrap |
| SchedSync.SemLedger | source/kernel/ipc/sem.c:17-41 | in every run initial count plus notifications equals count plus granted waits, and a queue means a count of 0 |
| SchedSync.SemOrder | source/kernel/ipc/sem.c:17-41 | waits are granted in the order of the calls |
| SchedSync.MutexDepth | source/kernel/core/mutex.c:18-52 | in every run the count is the owner's unmatched locks, counted from the calls alone; it is 0 exactly without an owner, and nobody queues on a free mutex |
| SchedSync.MutexOrder | source/kernel/core/mutex.c:18-52 | the successive owners are the tasks that asked, in that order, by direct hand-off |
| SchedCode.Scheduler.constructor | source/kernel/core/task.c:202-251 | one running task with a slice of 10 and empty linked lists satisfies the invariant |
| SchedCode.Scheduler.TaskStart | source/kernel/core/task.c:175-179 | a new task joins the ready list with a slice of 10 and keeps the invariant |
| SchedCode.Scheduler.TaskSetReady | source/kernel/core/task.c:258-265 | links the task's run node last, does nothing for the idle task |
| SchedCode.Scheduler.TaskSetBlock | source/kernel/core/task.c:267-272 | unlinks the task's run node wherever it stands on the ready list |
| SchedCode.Scheduler.TaskSetSleep | source/kernel/core/task.c:332-339 | links the run node on the sleep list with its count, does nothing for 0 |
| SchedCode.Scheduler.Enqueue | source/kernel/core/mutex.c:26-29 | the running task joins one wait list, and no other list changes |
| SchedCode.Scheduler.Dequeue | source/kernel/core/mutex.c:41-44 | the first task of one wait list leaves it, and no other list changes |
| SchedCode.Scheduler.SweepSleepList | source/kernel/core/task.c:319-329 | the loop over the linked sleep list is the sweep of the step machine, and no wait list changes |
| SchedCode.Scheduler.TaskDispatch | source/kernel/core/task.c:299-309 | the code's switch, broken-off ticks included, is that of the step machine |
| SchedCode.Scheduler.TaskTimeTick | source/kernel/core/task.c:311-330 | the code's tick is the machine's and keeps the invariant |
| SchedCode.Scheduler.SysYield | source/kernel/core/task.c:278-289 | the code's yield is the machine's and keeps the invariant |
| SchedCode.Scheduler.SysSleep | source/kernel/core/task.c:345-351 | for every time the code's sleep is the machine's, and keeps the invariant when it comes to at least one sweep |
| SchedCode.Scheduler.MutexLock | source/kernel/core/mutex.c:18-33 | the code's lock is the machine's and keeps the invariant |
| SchedCode.Scheduler.MutexUnlock | source/kernel/core/mutex.c:35-52 | the code's unlock is the machine's and keeps the invariant |
| SchedCode.Scheduler.SemWait | source/kernel/ipc/sem.c:17-28 | the code's wait is the machine's and keeps the invariant |
| SchedCode.Scheduler.SemNotify | source/kernel/ipc/sem.c:30-41 | the code's notification is the machine's and keeps the invariant |
| SchedCode.Scheduler.Take | source/kernel/core/task.c:258-351 | every enabled step of the machine is taken by the code on its linked lists, fields and queues |
| SchedLists.SweepIds | source/kernel/core/task.c:319-329 | the sweep of linked nodes and the sweep of the step machine keep and wake the same tasks |
| SchedLists.RunLists.TaskSetReady | source/kernel/core/task.c:258-265 | linking a node last is the machine's append to the ready list |
| SchedLists.RunLists.TaskSetBlock | source/kernel/core/task.c:267-272 | unlinking a node at any position is the machine's removal |
| SchedLists.RunLists.TaskSetSleep | source/kernel/core/task.c:332-339 | linking a node on the sleep list with its count is the machine's falling asleep; nothing happens for 0 |
| SchedLists.RunLists.SweepSleepList | source/kernel/core/task.c:319-329 | the loop over the linked sleep list is the machine's sweep |
| SchedLists.Enqueue | source/kernel/core/mutex.c:26-29 | a wait node linked last is the queue with the task appended |
| SchedLists.Dequeue | source/kernel/core/mutex.c:41-44 | the first wait node taken off is the first of the queue |
| Tty.RingPut | source/kernel/dev/tty.c:56-70 | storing behind the last cell of the ring appends to the queue it holds |
| Tty.CollapseExpand | source/kernel/dev/tty.c:129-145 | the CR-LF expansion loses nothing: taking each CR-LF for a newline gives the input back |
| Tty.NewlinesReturn | source/kernel/dev/tty.c:129-145 | no newline goes out without a return right before it |
| Tty.ExpandLength | source/kernel/dev/tty.c:129-145 | the expansion is longer by one byte for each newline |
| Tty.Fifo.Get | source/kernel/dev/tty.c:34-48 | takes the oldest byte; fails exactly on an empty ring |
| Tty.Fifo.Put | source/kernel/dev/tty.c:56-70 | appends a byte; fails exactly on a full ring |
| Tty.Terminal.WriteByte | source/kernel/dev/tty.c:129-145 | a byte of input puts its CR-LF expansion, or as much as fits before it sleeps |
| Tty.Terminal.ConsoleWrite | source/kernel/dev/console.c:374-404 | the drain loop shows the whole queue in order, counts it, and gives all tokens back |
| Tty.Terminal.TtyWrite | source/kernel/dev/tty.c:120-149 | alone on a drained terminal, a write shows the expansion of its input exactly when that has at most 512 bytes; else it sleeps on a full ring |
| TtyRuns.TokensConserved | source/kernel/dev/tty.c:120-149 | under every interleaving tokens free, bytes in the ring and tokens in hand are 512 together, so a put never fails |
| TtyRuns.BytesInOrder | source/kernel/dev/tty.c:120-149 | the console shows bytes in the order they were put, and each writer's own are the expansion of its input in order |
| TtyRuns.LoneWriter | source/kernel/dev/tty.c:120-149 | with one writer, shown, in hand, queued and still to put are together the expansion of the input |
| TtyRuns.QuietIsDone | source/kernel/dev/console.c:374-404 | when all writes have returned everything is shown, every writer's expansion is complete and all tokens are back |
| TtyRuns.StuckMeansFull | source/kernel/dev/tty.c:129-146 | all threads can stop only on a ring holding 512 bytes, each unfinished one asleep |
| TtyStop.StopFills | source/kernel/dev/tty.c:120-149 | when one write per thread has stopped for good, the bytes they could put without finishing are at least 512 |
| TtyStop.StopsIff | source/kernel/dev/tty.c:120-149 | some interleaving of one write per thread stops for good exactly when the lengths of the non-empty expansions, less one each, sum to 512 or more |
| TtyRuns.PutHasRoom | source/kernel/dev/tty.c:135-141 | a thread that got its token finds room |
| FileRef.OpenOk | source/kernel/fs/fs.c:212-255 | open keeps every ref equal to the slots that point to the file, on all paths; what it answers is `FileRef.OpenIff` |
| FileRef.OpenIff | source/kernel/fs/fs.c:212-255 | open answers a descriptor exactly when the file system's open succeeds and there are an entry with ref 0 and an empty slot; the first such slot then holds the first such entry, with ref 1 and one open more, and all else is unchanged; otherwise it answers -1 and nothing changes |
| FileRef.CloseOk | source/kernel/fs/fs.c:350-371 | so does close, and the ref it counts down is positive, as the source asserts |
| FileRef.CloseIff | source/kernel/fs/fs.c:350-371 | close of an open descriptor empties just its slot and takes one ref off just its file, which the file system closes when that was the last; of another it changes nothing |
| FileRef.DupOk | source/kernel/fs/fs.c:416-437 | so does dup; what it answers is `FileRef.DupIff` |
| FileRef.DupIff | source/kernel/fs/fs.c:416-437 | dup answers a descriptor exactly for an open one and with an empty slot; the first empty slot then holds the same file, which has one ref more, and all else is unchanged; otherwise it answers -1 and nothing changes |
| FileRef.ForkOk | source/kernel/core/task.c:112-122 | a fork gives the child its parent's table and keeps the counts |
| FileRef.CloseUpToOk | source/kernel/core/task.c:645-651 | exit's loop empties the task's table and no other, and keeps the counts |
| FileRef.RefsCountSlots | source/kernel/fs/fs.c:212-437 | through every sequence of calls ref is the number of slots of all tasks, and opens exceed closes of the file system by one while there are any |
| FileRef.ClosedWithLastSlot | source/kernel/fs/fs.c:361-369 | the file system's close runs exactly when the last slot goes |
| FileRef.CloseUndoesDup | source/kernel/fs/fs.c:350-437 | closing what dup returned restores all tables |
| FileRef.Files.FileAlloc | source/kernel/fs/file.c:22-37 | takes the first entry with ref 0, or reports that there is none |
| FileRef.Files.FileFree | source/kernel/fs/file.c:39-45 | counts a positive ref down, leaves 0 alone |
| FileRef.Files.TaskAllocFd | source/kernel/core/task.c:133-144 | takes the task's first empty slot, or reports that there is none |
| FileRef.Files.SysOpen | source/kernel/fs/fs.c:212-255 | the code's answer and tables after success and after each failure are those of `FileRef.OpenIff` |
| FileRef.Files.SysClose | source/kernel/fs/fs.c:350-371 | the code's tables are those of `FileRef.CloseIff`, and it answers 0 exactly for an open descriptor |
| FileRef.Files.SysDup | source/kernel/fs/fs.c:416-437 | the code's answer and tables are those of `FileRef.DupIff` |
| FileRef.Files.CopyOpenedFiles | source/kernel/core/task.c:112-122 | the child's table becomes the parent's and every ref grows by the parent's slots |
| FileRef.Files.ExitClose | source/kernel/core/task.c:645-651 | the task's table is emptied by closing each descriptor |

## Left out

- Overwriting bytes inside a file, which the source does not support, and disk errors.
- FatOps.FatfsWrite: states in which the clusters found free have table entries but do not exist, where the source writes behind the volume.
- FatOps.MoveFilePos: when it expands at the end of a chain it finds the mark 0xFFF8 there, as `fatfs_write` leaves it; elsewhere any end mark will do.
- FatOps.WriteNext: as FatOps.MoveFilePos, for a round that ends at the end of the chain.
- FatRuns.SeekFile: offsets past the end, from which the next read's count would wrap.
- FatRuns.ReadFile: for requests and files of less than 2^31 bytes.
- FatRuns.WriteFile: volumes as in FatOps.FatfsWrite, and files of less than 2^31 bytes.
- FatRuns.CreateFile: names that do not start with a mark; the others cannot be found again (`FatDir.CreatedIsFound`).
- FatOps.FatfsRead: positions past the end of the file, where the count wraps and the source reads on along the table.
- FatOps.ReadNext: data sectors in the buffer are always read again, so only table and root sectors are claimed to agree with the cache; the source's buffer may hold an outdated data sector.
- FatDir.FatfsOpen: names are given in their 8.3 form, and the entry type and the time fields are parameters or omitted; `to_sfn`, `fatfs_stat`, directory listing and mounting are not part of this model.
- `fatfs_unlink`: only its chain freeing is covered (`cluster_free_chain`); its directory update writes an end mark that hides later entries.
- Clusters that an earlier handle had pre-allocated behind its last byte may be dropped from a chain, as in the source, so freedom from leaks is not claimed.
- Two handles open on one file at the same time.
- `create_kernel_table` and `memory_init`: the kernel's half of the directory is only known to be shared; the managed range and the page directory are constructor parameters.
- Frames.Memory.AddrAllocPage: for one page, as every caller asks; so is Frames.Memory.AddrFreePage.
- Frames.Memory.MemoryFreeOnePage: for kernel addresses; the branch for user addresses is reached by no caller.
- Uvm.FindPte: for user addresses.
- Uvm.MemoryCreateMap: for one page; every caller that maps user memory asks for one, and the kernel's range mapping is not part of this model.
- UserMem.SysSbrk: negative increments and running out of frames; the pages behind the heap's end must not be mapped already.
- `sys_execve`, `load_elf_file` and the frames of `sys_fork` as a whole; the user-address branch of `memory_free_one_page`.
- UserCopy.MemoryCopyUvmData: a page that has a table but no present entry is excluded; there the source would write into physical page 0 (`UserCopy.PaddrHonestIff`).
- `sys_exit` beyond its closing loop and `sys_wait`: an assignment in a condition marks every child as a zombie, and a wake-up can be lost between two protected sections.
- Priorities of interrupts, the register state of a switch, and the `state` field of a task, which nothing in the modelled code reads.
- Scheduler counters are unbounded, so a semaphore count or lock count past 32 bits does not wrap.
- TtyRuns.Step: the console mutex is taken by any thread when it is free instead of in queue order, which allows more interleavings than the source; waking by the semaphore is in queue order.
- Terminal input: its tokens and bytes can differ, since `tty_in` ignores a full ring; `get_tty` failures, echo and control calls.
- Console cursor and escape handling, keyboard, logging, descriptor tables, port I/O, boot loader, shell and library wrappers.
- File calls that interleave inside one another: each is one step here.
