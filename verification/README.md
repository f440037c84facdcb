# xv6, verified

A Dafny model of the parts of this xv6 tree whose correctness is least obvious from reading them: the
redo log and the buffer cache under it, file blocks and directories, the user heap, page tables, pipes with
sleep and wakeup, the disk driver's queue, the shell's parser, grep's matcher and the thread scheduler.
`dafny verify dfyconfig.toml` checks everything.

How the C code became Dafny:

- A table of structures that C points into (buffers, inodes, free-list headers, page frames, processes) is a
  field of a class, and a pointer is an index or an address. Ghost fields carry what the invariants need.
- `panic()` and going to sleep are results. A `requires` says what C leaves to the caller, such as a valid index or a lock
  held. Only a few members exclude an argument on which C panics: `PageTable.Vm.KFree` (a frame that is not the kernel's),
  `MapPage`, `GrowPage` and `AllocUvm` (a page that is mapped already), `FreeVm` (no address space), and the members of
  `DirCalls` (a directory that is none, which `DirEntries` models).
- Loops that update variables are methods with loops. What several of them have to agree on is stated by functions on
  values, and the lemmas are about those functions.
- Every write to the disk is recorded in a ghost trace, so that a crash is a prefix of the trace. A second ghost sequence
  holds what each image of the trace recovers to.
- A pipe used by many processes is a machine whose steps are taken in any order.

Modules, lowest first:

| module | covers |
|---|---|
| `Outcomes` | results: a value, sleep, panic |
| `BufferCache` | the ring of buffers, coherence with the disk, least recently released replacement |
| `RedoLog` | log writes, commit, recovery, crashes at any write |
| `Transactions` | whole transactions, runs of them, boot after a crash |
| `BlockMap`, `FileSystem` | bitmap, inodes, indirect blocks, files as strings of bytes, `filewrite` |
| `CrashFiles` | the commits of `filewrite` on the redo log, across crashes |
| `DirEntries` | directories as bytes: `dirlookup` and `dirlink` through `readi` and `writei` |
| `DirTree`, `DirCalls` | link counts and the shape of the directory tree |
| `HeapList`, `UserHeap` | `malloc` and `free` |
| `PageMaps`, `PageTable` | physical pages and two-level address spaces |
| `PipeProtocol`, `PipeEnds`, `PipeMachine` | pipes, sleep, wakeup, kill, closing and freeing |
| `IdeQueue` | the interrupt-driven disk driver against the synchronous one |
| `ShellSyntax`, `ShellGrammar`, `ShellRoundTrip`, `ShellParser` | the shell's parser, its grammar, and printing |
| `Regexp` | grep's matcher |
| `PriorityRoundRobin` | user-level thread scheduling |

Places where the code does less than one would expect. Each is proved, with the exact condition:

- A file or directory created, or a link made, in a directory that was removed while still open gets a link count
  that no directory accounts for. The tree survives exactly when the parent is still linked
  (`DirCalls.EnteredKeepsTree`, `DirCalls.LinkedKeepsTree`; a concrete case is `DirCalls.LostName`).
- `allocuvm` ignores the answer of `mappages`. Memory that runs out on a page table, and not on a page, loses a frame:
  exactly if `PageTable.Starved` holds of the free count and the missing tables. If moreover that page is the last one asked
  for, `allocuvm` answers newsz with the page missing: exactly if `PageTable.LastStarved` holds (`PageTable.Vm.AllocUvm`;
  a run from an empty machine for every `kmap` is `PageTable.LosesLastFrame`). `copyuvm` checks the answer and still loses
  the frame, exactly if `PageTable.ShortOfTable` holds (`PageTable.Vm.CopyUvm`).
- `deallocuvm` steps over a missing table by a whole table's worth of pages, so from the middle of a table it can
  pass over pages of the next one. `PageTable.Skipped` says which; `PageTable.PassesOver` is a run that leaves a page mapped;
  in a space with contiguous pages there are none (`PageTable.NoneSkipped`). The kernel grows a space only from its current
  size (`proc.c:149`, `exec.c:44-55`), which keeps its pages contiguous as long as `allocuvm` answers truthfully, so it can happen
  only to a process to which `allocuvm` has before answered a size that it did not map.
- A writer that is killed while the pipe is full leaves without waking readers. A sleeping reader is lost exactly then
  (`PipeProtocol.AbandonedIsLost`; a run from a new pipe is `PipeProtocol.KilledWriterLosesWakeup`).
- A process that is killed in `piperead` or `pipewrite` after it has tested `killed`, and before it sleeps, sleeps until
  somebody wakes it (`PipeEnds.KilledTooLateSleeps`). That is the only way for a killed process to sleep there
  (`PipeEnds.KilledSleepsOnlyIfTooLate`).
- `readi` fills a hole of a file with a new block, and does not write the inode back; `writei` does so only if the file grows.
  Outside a transaction a range can be read exactly if it has no hole, and inside one disk and memory agree about the inode
  afterwards exactly if no inode slot was missing (`FileSystem.FileSys.ReadI`, `FileSystem.FileSys.WriteI`). Files
  without holes keep having none. `mkfs.c:143-148` rounds the root directory's size up, which is the one source of holes. In a
  root that `mkfs` left with exactly 32 entries, looking for a name that is not there panics outside a transaction, as `open`
  does it without O_CREATE (`DirEntries.AbsentNamePanics`), and `dirlink` leaves the new entry's block out of the inode on
  disk (`DirEntries.EntryInHole`). The exact conditions are those of `DirEntries.DirLookup` and `DirEntries.DirLink`.
- The shell parses `>>` like `>` (`ShellRoundTrip.AppendIsOnto`), and panics exactly on lines outside its grammar
  and on those with a simple command of ten words or more (`ShellGrammar.GrammarIsExact`).

## Model

| member | source | states |
|---|---|---|
| `BufferCache.RingIsOneCycle` | bio.c:39-56 | `next` and `prev` are inverse, and following `next` from the head meets every buffer once and returns after exactly as many steps as there are nodes |
| `BufferCache.MoveToFront` | bio.c:127-132 | the six assignments of `brelse` give a ring again, with the buffer behind the head and all others in their old order |
| `BufferCache.Cache.constructor` | bio.c:39-56 | the ring after `binit` is valid, and no buffer caches anything |
| `BufferCache.Cache.FindCached` | bio.c:69-80 | returns the buffer that caches the sector, or the head exactly if none does |
| `BufferCache.Cache.FindRecyclable` | bio.c:83-91 | returns the least recently released buffer that is neither busy nor dirty, or the head exactly if there is none |
| `BufferCache.Cache.BGet` | bio.c:62-93 | no sector is ever in two buffers; hit, sleep, recycling and panic each happen exactly under their condition, and what is recycled is the least recently released |
| `BufferCache.RoomForTwo` | bio.c:62-93 | with no buffer busy and two unpinned, a second sector can be had while one is held |
| `BufferCache.EnoughRoom` | bio.c:62-93 | with none busy and two buffers more than pinned sectors, two are unpinned |
| `BufferCache.OneToRecycle` | bio.c:83-91 | while fewer sectors than buffers are in use, `bget` finds a buffer to recycle and cannot panic |
| `BufferCache.Cache.IdeRw` | memide.c:37-58 | the four panics exactly; otherwise the buffer ends valid and clean, and data and disk are those of `DataAfter` and `DiskAfter`, which agree with the view |
| `BufferCache.Cache.BRead` | bio.c:97-105 | succeeds exactly if the sector exists and `bget` can answer at once, sleeps exactly on a busy buffer; the returned buffer is busy and holds the sector as the flat view has it, pinned data included, and the disk is untouched |
| `BufferCache.Cache.BWrite` | bio.c:109-115 | the sector gets the buffer's data, as one more disk image in the trace |
| `BufferCache.Cache.MarkDirty` | log.c:180 | a dirty mark keeps cache, disk and view coherent |
| `BufferCache.Cache.BRelse` | bio.c:120-138 | the buffer is unlocked and becomes the most recently released one, and the order by release is kept |
| `RedoLog.LogWriteSettles` | log.c:169-179 | one `log_write` makes its sector's log block current, absorbed or not, and disturbs no other |
| `RedoLog.SettledInstall` | log.c:70-82 | replaying a log that is current puts exactly the cached contents on the home sectors |
| `RedoLog.InstalledElsewhere` | log.c:70-82 | a sector not listed in the header is not changed by installing |
| `RedoLog.InstalledListed` | log.c:70-82 | a listed sector gets the log block of its last listing |
| `RedoLog.InstallTwice` | log.c:70-82 | installing again after any partial install gives the image of one complete install |
| `RedoLog.CommitPoint` | log.c:98-113 | writing a header with n > 0 turns what a crash recovers to from the old contents into the logged ones |
| `RedoLog.CrashInRecovery` | log.c:116-122 | an image left by a crash anywhere in recovery recovers to the same home sectors |
| `RedoLog.RepeatedCrashes` | log.c:116-122 | so does one left by any number of crashes, each in the recovery from the one before |
| `RedoLog.Log.WriteHead` | log.c:102-113 | the disk gets the header in memory, in one write; with two unpinned buffers and none busy it cannot fail |
| `RedoLog.Log.InstallTrans` | log.c:70-82 | trace and bases are extended, every image it writes is a point of recovery from the image it started with and keeps its base; completed, it is the full install and nothing listed stays pinned; with two unpinned buffers and none busy it completes |
| `RedoLog.Log.ReadHead` | log.c:86-96 | the header in memory becomes the one on disk |
| `RedoLog.Log.RecoverFromLog` | log.c:116-122 | trace and bases are extended by images that all have the old base; ends in the recovered image with an empty log; with two unpinned buffers and none busy it completes |
| `RedoLog.Log.BeginTrans` | log.c:125-133 | sleeps exactly while a transaction is open |
| `RedoLog.Log.LogWrite` | log.c:160-181 | the trace grows by exactly one image, which differs in one log block and has the base of the one before; the buffer is pinned, repeated sectors share a slot; fails exactly if the transaction is too big, none is open, or no buffer can be had, and then writes nothing |
| `RedoLog.Log.CommitTrans` | log.c:136-149 | the old trace and bases are prefixes; the first new image is the header write, and every image from it on, however far the call gets, has as base the logged contents laid over the disk; without a header write nothing is written; with two unpinned buffers and none busy it completes, and then the home sectors are what the cache shows |
| `Transactions.OverlayElsewhere` | log.c:151-158 | laying writes over an image leaves the sectors that are not written |
| `Transactions.OverlayLast` | log.c:151-158 | and gives the others the data of the last write to them |
| `Transactions.Put` | log.c:151-181 | read, change, `log_write`, release: the cache shows the new data, the log is current, and what a crash recovers to is unchanged |
| `Transactions.PutAll` | log.c:151-181 | any sequence of such writes: every image written still has the home sectors and the empty header of before, so it recovers to the state before the transaction, and the cache shows the writes laid over it |
| `Transactions.Transact` | log.c:125-181 | a transaction of any writes, completed or stopped anywhere: every image before the one whose header lists its sectors has its home sectors untouched and an empty header, and recovers to the state before; from that one on every image recovers to the last data per sector laid over; with a quiet cache of two buffers more than sectors it completes |
| `Transactions.WholeMore` | log.c:125-181 | one more transaction extends a run in which each image recovers to a whole number of transactions |
| `Transactions.RunAll` | log.c:125-181 | a run of transactions, stopped anywhere: image by image, a crash brings back a number of whole transactions that never falls |
| `Transactions.Boot` | log.c:53-66 | boot on any image that a crash left ends in the state that image recovers to, every image on the way recovers to it too, and transactions can begin |
| `Transactions.LargestTransaction` | log.c:164-165 | with LOGSIZE and NBUF as configured, the condition under which `Transact` is sure to complete is at most eight sectors |
| `Transactions.ChunkNeverPanics` | bio.c:83-92 | while the seven sectors of a `filewrite` chunk and a log block are in use, `bget` has a buffer to recycle |
| `Transactions.BootAndRun` | log.c:53-181 | from any image that a crash left, boot and then any run of transactions of at most seven sectors complete, and the disk is the recovered one with all of them laid over |
| `BlockMap.WordOfPutWord` | fs.c:370-381 | a block address stored in an indirect block is read back, and the other addresses are unchanged |
| `BlockMap.ByteOnDisk` | fs.c:343-381 | where a byte of a file lies: in the block of one of twelve direct addresses, or of a little-endian address in the indirect block |
| `BlockMap.OwnedExactlyOnce` | fs.c:53-95 | a bitmap bit is set exactly if the block is metadata or some inode slot names it, and then exactly one does |
| `BlockMap.ClaimKeepsBytes` | fs.c:357-384 | giving a zeroed free block to an empty slot changes no byte of any file |
| `BlockMap.OverwriteData` | fs.c:479-485 | writing a data block changes the bytes of its one file block only |
| `BlockMap.TruncateOwns` | fs.c:392-419 | freeing exactly one inode's blocks keeps ownership right and the bytes of all other files |
| `FileSystem.FileSys.FindFree` | fs.c:61-74 | finds the lowest clear bit of the bitmap |
| `FileSystem.FileSys.BAlloc` | fs.c:53-76 | marks and zeroes the lowest free block, and logs its bitmap sector and the block; out of blocks exactly if every bit is set |
| `FileSystem.FileSys.BMap` | fs.c:357-384 | returns the block of file block bn, allocating what is missing; no file's bytes change, every block and bit that changed has its sector in the log, at most bitmap, indirect and data sectors are logged, and it runs out of blocks only with fewer clear bits than it needs |
| `FileSystem.FileSys.WriteI` | fs.c:463-492 | the file's bytes become the old ones with the source spliced in at the offset, all other files stay as they were; the block of every byte written is in the log, and so is the sector of every block, bitmap bit and disk inode that changed; the error answer and the effect on the disk inode exactly; it runs out of blocks only if fewer are free than the range touches, counting the indirect block |
| `FileSystem.NoHolesKept` | fs.c:463-492 | a file without holes stays without holes |
| `FileSystem.FileSys.ReadI` | fs.c:435-458 | returns the bytes of the flat file, cut at its size; outside a transaction it succeeds if and only if no block in the range is missing, and then changes nothing; inside one, disk and memory agree about the inode afterwards if and only if no inode slot was missing; blocks and log sectors that it takes are bounded |
| `FileSystem.FileSys.ReadLoop` | fs.c:451-456 | the loop of `readi`: bytes, slots filled, blocks and sectors taken, and its failures |
| `FileSystem.ScanStep` | fs.c:451-456 | one more block read keeps the account of what reading has filled in |
| `FileSystem.FileSys.BFree` | fs.c:80-95 | clears the bit, logs its sector, and panics exactly on a free block |
| `FileSystem.FileSys.ITrunc` | fs.c:392-419 | clears exactly the bits of the file's blocks, never frees a free block, leaves other files alone, and logs the sector of every bit and inode that changed |
| `FileSystem.FileSys.LogWrite` | log.c:164-179 | the set of logged sectors grows by the sector; too big or outside a transaction is answered exactly |
| `FileSystem.FileSys.WriteLoop` | fs.c:479-485 | the loop of `writei`: the bytes written, the slots filled, the blocks and log sectors taken, and when the log is too small; the block of every byte written and every sector that changed is in the log |
| `FileSystem.LoggedTrans` | log.c:151-158 | if each of two steps logs every sector it changes, both together do |
| `FileSystem.SectorsApart` | fs.h:39-46 | two inodes share a sector exactly if they are in the same group of eight, two bits exactly if in the same group of 4096; inodes come before the bitmap, and blocks behind both exactly if they start behind its last sector |
| `FileSystem.FileSys.Close` | fs.c:487-490 | the size and the inode on disk change exactly if the file grew, and the file is then the old one with the bytes spliced in |
| `FileSystem.AccountStep` | fs.c:357-384 | block after block, the slots filled and the blocks and log sectors taken add up |
| `FileSystem.FileSys.WriteChunk` | file.c:139-144 | one transaction around one `writei`: the chunk is stored, and after the commit, which brings home only the sectors in the log, the home sectors are what `bread` shows; or it is refused with nothing changed; never outside a transaction |
| `FileSystem.AllFlushed` | log.c:136-149 | bringing home just the logged sectors brings home everything that changed |
| `FileSystem.FileSys.CommitTrans` | log.c:136-149 | the logged sectors go home, the others stay as they were there, and the log is empty |
| `FileSystem.StoredMore` | file.c:134-151 | consecutive chunks are one splice |
| `FileSystem.FileSys.FileWrite` | file.c:117-155 | with a bitmap of one block no chunk is too big for the log; a short write or a write outside a transaction cannot happen; success means that exactly the n bytes were spliced in at consecutive offsets; whatever the outcome, each commit of a file without holes left whole chunks stored at the home sectors, or all, in order |
| `CrashFiles.DiskShows` | fs.h:22-46 | two states of inodes, bitmap and blocks whose sectors agree outside the log are the same inodes, bitmap and blocks there |
| `CrashFiles.SectorFlushed` | log.c:136-149 | a commit changes just the sectors that its log lists |
| `CrashFiles.SomeWrites` | log.c:161-181 | for every list of sectors there are log writes that carry a state's contents of them |
| `CrashFiles.OverlayCommits` | log.c:136-181 | log writes to the listed sectors, the last to each with what the new state has there, laid over the disk of the old state, give the disk of the new one |
| `CrashFiles.RunCommits` | log.c:125-181 | any number of commits on a log, stopped anywhere: every image written recovers to the disk as one of them left it, and which one never falls |
| `CrashFiles.WriteInChunks` | file.c:117-155 | the disk at each commit of a `filewrite` has a number of whole chunks of the data stored, or all, and every other file as it was; the number never falls, and the log of each commit lists all that it changed |
| `CrashFiles.CrashLeavesChunks` | file.c:117-155 | so a crash at any write recovers to a disk on which the file has a number of whole chunks stored, or all, and a later crash to one with no fewer |
| `DirEntries.NameCmp` | fs.c:497-501 | `strncmp` over 14 characters answers 0 if and only if the names agree up to a NUL or that length |
| `DirEntries.FieldNames` | fs.c:553 | a name stored by `strncpy` is matched by the same name, cut to 14 characters, and by no other |
| `DirEntries.ReadEntry` | fs.c:515-516 | one entry read; in a block of which something has been read that changes nothing |
| `DirEntries.ScanEntry` | fs.c:514-515 | entry after entry, no more blocks and sectors are taken than for the bytes as a whole |
| `DirEntries.DirLookup` | fs.c:505-529 | the first entry in use of that name, or -1 exactly if there is none; reads no further than it must; outside a transaction it succeeds if and only if it is a directory of whole entries without a hole in what is read; which inode slots it fills |
| `DirEntries.FindVacant` | fs.c:545-551 | the first free entry or the end, with nothing changed in a directory that has been read |
| `DirEntries.AddEntry` | fs.c:545-556 | the entry goes over the first free one and no inode changes, or to the end and the inode is written back; its block and every sector that changed are in the log; it panics only if an entry is cut short, the directory is full, or blocks, log or transaction are lacking |
| `DirEntries.DirLink` | fs.c:532-559 | refuses exactly a name that is there; otherwise the directory's bytes get the entry at the first free place, all other files stay, and the entry's block and every sector that changed are in the log; disk and memory agree about the inode afterwards if and only if the directory grew or no inode slot was missing |
| `DirEntries.LinkedIsFound` | fs.c:532-559 | after `dirlink` the name is found where it was put, and every other name where it was |
| `DirEntries.RootSearch` | mkfs.c:143-148 | in a root of 32 entries the search for an absent name reads into the hole, and the first free entry is there |
| `DirEntries.AbsentNamePanics` | sysfile.c:295-297 | a run on that root: looking up an absent name outside a transaction panics |
| `DirEntries.EntryInHole` | mkfs.c:143-148 | a run on that root: after `dirlink` in a transaction the entry is in the directory, and the inode on disk is not the one in memory |
| `DirTree.UpReachesRoot` | fs.c:605-637 | following ".." from any linked directory reaches the root |
| `DirTree.OneParentEntry` | sysfile.c:235-277 | a linked directory other than the root has exactly one entry naming it outside "." and ".." |
| `DirTree.EditKeepsTree` | sysfile.c:116-277 | any rewriting of one directory slot and one inode that leaves the counts right leaves a tree |
| `DirTree.AddFile` | sysfile.c:133-149 | a new name for a file, with one more link, keeps counts and tree |
| `DirTree.AddDir` | sysfile.c:260-272 | a new directory, with one more link for its parent, keeps counts and tree |
| `DirTree.RemoveFile` | sysfile.c:211-221 | taking away a name and a link keeps counts and tree |
| `DirTree.RemoveDir` | sysfile.c:206-221 | an empty directory has exactly one link and its parent at least two; removing it keeps counts and tree |
| `DirTree.Reclaimed` | fs.c:318-336 | an inode without links is named nowhere, so freeing it keeps counts and tree |
| `DirTree.FileInOrphan` | sysfile.c:260-272 | a name for a file in a removed directory always spoils the link counts |
| `DirTree.DirInOrphan` | sysfile.c:260-272 | a directory made in a removed directory always spoils the tree |
| `DirCalls.EnteredKeepsTree` | sysfile.c:235-277 | `create` keeps the tree if and only if the parent is linked |
| `DirCalls.LinkedKeepsTree` | sysfile.c:116-160 | `link` keeps the tree if and only if the directory is linked |
| `DirCalls.LostName` | sysfile.c:235-277 | a concrete file system on which `create` in a removed directory spoils the counts |
| `DirCalls.NamedIsUsed` | sysfile.c:200-205 | an entry found by `unlink` leads to a used inode with a link, so its panic cannot happen |
| `DirCalls.NameIsFound` | fs.c:505-559 | after an entry went into the first free place, a lookup of its name finds it and a lookup of any other name what it found before |
| `DirCalls.NameIsGone` | sysfile.c:211-213 | after an entry was cleared, a lookup of its name finds nothing and a lookup of any other name what it found before |
| `DirCalls.FreshTree` | mkfs.c:102-113 | the root that `mkfs` makes is a tree with the right counts |
| `DirCalls.Inodes.constructor` | mkfs.c:102-113 | a new file system is valid |
| `DirCalls.Inodes.DirLookup` | fs.c:506-529 | returns the first used entry of that name, or none exactly if there is none |
| `DirCalls.Inodes.FindSlot` | fs.c:546-551 | returns the first free entry, or the end |
| `DirCalls.Inodes.DirLink` | fs.c:533-559 | refuses exactly an existing name, panics exactly when full, and otherwise fills the first free entry |
| `DirCalls.Inodes.IsDirEmpty` | sysfile.c:164-176 | true exactly if no entry after the first two is used |
| `DirCalls.Inodes.IAlloc` | fs.c:176-198 | takes the lowest unused inode, and panics exactly if there is none |
| `DirCalls.Inodes.Enter` | sysfile.c:254-272 | the new inode has its type, one link, and as entries none or the two dots; the parent has the name at the first free entry and one more link exactly for a directory; no other inode or entry changes; or there was no room |
| `DirCalls.Inodes.Create` | sysfile.c:235-277 | a name that is there gives its inode exactly if that and what is asked for are files, and 0 otherwise; a new name makes the inode, with type, one link and dots, and the entry, with one more link for the parent exactly for a directory, and changes nothing else; afterwards the name leads to the inode and every other name where it led; the invariant survives exactly if the parent is linked |
| `DirCalls.Inodes.Link` | sysfile.c:116-160 | refusals leave everything as it was, the temporary link undone; success adds one name and one link and changes nothing else; afterwards the name leads to the inode and every other name where it led |
| `DirCalls.Inodes.Unlink` | sysfile.c:180-232 | never panics, refuses exactly dots, missing names and directories in use, and always keeps the tree; otherwise the entry is cleared, the inode loses a link, the parent one exactly for a directory, nothing else changes, and the name leads nowhere and every other name where it led |
| `DirCalls.Inodes.Reclaim` | fs.c:318-336 | frees the inode exactly if it has no links, and keeps the tree |
| `HeapList.Disjoint` | umalloc.c:25-90 | two different blocks, live or free, do not overlap |
| `HeapList.FreeBlock` | umalloc.c:33-42 | the assignments of `free` keep the list one cycle in address order with the blocks partitioning the memory, whichever neighbours touch |
| `HeapList.FreeCoalesces` | umalloc.c:33-42 | after `free` no two free blocks touch |
| `HeapList.TakeWhole` | umalloc.c:76-77 | a block of the right size leaves the list and becomes live |
| `HeapList.TakeTail` | umalloc.c:78-82 | a larger block gives its tail and stays in its place |
| `HeapList.Conservation` | umalloc.c:24-90 | free units plus live units are the units obtained from `sbrk` |
| `UserHeap.Allocator.constructor` | umalloc.c:64-73 | the empty heap is valid |
| `UserHeap.Allocator.Search` | umalloc.c:30-32 | the search of `free` stops, at the free block after which the block belongs |
| `UserHeap.Allocator.Free` | umalloc.c:25-44 | exactly that block stops being live, other live blocks keep place and size, and the freed units lie in a free block next to `freep` |
| `UserHeap.Allocator.MoreCore` | umalloc.c:47-61 | the new memory is added to the heap, and a block of at least nunits is within two nodes of `freep` even after merging |
| `UserHeap.Allocator.Malloc` | umalloc.c:64-90 | terminates with at most one `morecore`, called only if no free block is large enough; the result is a new live block of the right size, and 0 means that `sbrk` failed |
| `PageMaps.NoSharing` | vm.c:71-90 | a frame behind a user page is behind no other page of any address space, not free, and no table |
| `PageMaps.FreeOnce` | kalloc.c:60-95 | the free list holds no frame twice |
| `PageMaps.Take` | kalloc.c:83-95 | `kalloc` keeps the partition of the frames |
| `PageMaps.Give` | kalloc.c:60-77 | `kfree` keeps the partition of the frames |
| `PageMaps.NewTable` | vm.c:46-65 | a new page table translates nothing, and the two-level tables still agree with the flat maps |
| `PageMaps.NewPage` | vm.c:71-90 | mapping a page extends the flat map of that address space by that page only |
| `PageMaps.DropPage` | vm.c:263-270 | unmapping a page takes just that page out of the flat map |
| `PageMaps.GiveUp` | vm.c:278-292 | an address space can be dismantled without touching any other |
| `PageTable.NoneSkipped` | vm.c:250-273 | with contiguous pages `deallocuvm` removes every page from newsz to oldsz |
| `PageTable.UnmappedJump` | vm.c:259-262 | the pages that one step over a missing table passes are unmapped or skipped in the sense of `Skipped` |
| `PageTable.StarvedAt` | vm.c:232-241 | running out at a page is running out on a table exactly if a table is needed there and one frame is left |
| `PageTable.LastStarvedAt` | vm.c:232-241 | and it is the last page asked for exactly if the request fails there |
| `PageTable.FreshStarved` | vm.c:319-330 | for a new space, running out on a table is a condition on the number of free frames alone |
| `PageTable.RestoredPages` | vm.c:234-238 | after a failed growth has been undone every user page has its frame and bytes |
| `PageTable.Vm.constructor` | kalloc.c:46-52 | after `freerange` every page is free |
| `PageTable.Vm.KAlloc` | kalloc.c:83-95 | fails exactly if no page is free, and otherwise hands out the page freed last |
| `PageTable.Vm.KFree` | kalloc.c:60-77 | every byte of the page becomes 1, and the page is free and the next to be handed out |
| `PageTable.Vm.Walk` | vm.c:46-65 | fails exactly if a table is missing and memory is out; no translation changes |
| `PageTable.Vm.MapPage` | vm.c:71-90 | the page is mapped, or nothing is, exactly when a table cannot be had; the kernel's half is translated as before |
| `PageTable.Vm.MapRegion` | vm.c:71-90 | maps a range of kernel pages to consecutive frames; panics only on a page already mapped |
| `PageTable.AllTables` | vm.c:129-144 | an address space with just the tables that `kmap` needs has as many as `KernelTables` counts |
| `PageTable.FreshCount` | vm.c:319-330 | n pages of an empty space ask for n frames and a table for every 1024 |
| `PageTable.KernelRegions` | vm.c:129-144 | page by page, what the table of regions asks for is mapped, and nothing else |
| `PageTable.ZeroedBytes` | vm.c:221-243 | pages of zeroes from the page above oldsz to that of newsz are zero bytes at every address between |
| `PageTable.CopiedBytes` | vm.c:319-330 | equal pages are equal bytes at every address below sz |
| `PageTable.Vm.SetupKvm` | vm.c:129-144 | succeeds exactly if there is a frame for the directory and one for each table that `kmap` needs, and takes just these; in the new space each page of a region of `kmap` maps the frame as far from the region's start, no other page of the kernel's half is mapped, and there is no user page |
| `PageTable.Vm.UnmapPage` | vm.c:263-270 | every byte of the frame becomes 1 and it is free, the entry is cleared, everything else is kept |
| `PageTable.Vm.DeallocUvm` | vm.c:250-273 | removes exactly the pages in range that are not skipped, frees their frames only and fills them with ones; the kernel's half is translated as before |
| `PageTable.Vm.GrowPage` | vm.c:233-240 | one page of growth: mapped with its contents, refused, or lost, exactly by free frames and tables |
| `PageTable.Vm.AllocUvm` | vm.c:221-243 | enough memory: all pages mapped, each of their bytes up to newsz zero, newsz answered; otherwise 0 and the old user map, except that newsz is answered with the last page missing exactly if `LastStarved`; a frame is lost exactly if `Starved`; all pages that existed keep frame and bytes, and the kernel's half is translated as before |
| `PageTable.Vm.GiveBack` | vm.c:234-238 | the undoing at the end of a failed growth restores the user map and every page |
| `PageTable.LosesLastFrame` | vm.c:221-243 | a run with one free frame beside a new space: the frame is lost and nothing is mapped, and for one page newsz is answered |
| `PageTable.PassesOver` | vm.c:250-273 | a run after which a page in the range that `deallocuvm` was to remove is still mapped |
| `PageTable.Vm.FreeVm` | vm.c:278-292 | exactly the frames that the address space held become free, filled with ones; all other frames keep owner and contents |
| `PageTable.Vm.CopyPages` | vm.c:319-335 | the loop of `copyuvm`: copies, undoes, or loses a frame, exactly by free frames and tables; panics exactly if memory lasts to the first page that is not mapped |
| `PageTable.Vm.CopyUvm` | vm.c:310-336 | succeeds exactly if there are frames for directory, tables and pages; the copy has at every address below sz the byte of the parent, in frames of its own, and the kernel's half as in `kmap`; the parent is unchanged; panics exactly if memory lasts to the first unmapped page below sz; a failed copy loses a frame exactly if `ShortOfTable` holds of the frames left after the kernel's half; what a failed `setupkvm` leaves |
| `PipeProtocol.PipeIsFifo` | pipe.c:78-120 | over every run: what was read is a prefix of what was stored, the rest is the ring slice between the counters, at most 512 bytes, also after they wrap; a reader's buffer holds the bytes it took |
| `PipeProtocol.Counters` | pipe.c:84-105 | with 32-bit counters the tests for full and empty are exact |
| `PipeProtocol.ApplyKeeps` | pipe.c:59-120 | every event of any process keeps the invariant, provided nobody is abandoned |
| `PipeProtocol.NoLostWakeup` | proc.c:367-422 | whenever the pipe's lock is free, a process asleep in `piperead` faces an empty pipe with its write end open, one asleep in `pipewrite` a full pipe with its read end open |
| `PipeProtocol.NeverBothAsleep` | pipe.c:78-120 | a reader and a writer never sleep together |
| `PipeProtocol.SparedIsSafe` | pipe.c:85-88 | a run that kills no writer in mid-call abandons nobody |
| `PipeProtocol.AbandonedIsLost` | pipe.c:84-88 | a step loses the invariant if and only if a killed writer leaves a full pipe while a reader sleeps |
| `PipeProtocol.KilledWriterLosesWakeup` | pipe.c:84-88 | a run from a new pipe after which a reader sleeps on a full pipe |
| `PipeProtocol.WakeKeeps` | proc.c:406-422 | `wakeup` under the table's lock misses no process on its way to sleep |
| `PipeProtocol.StoreFifo` | pipe.c:92 | storing a byte keeps the ring slice |
| `PipeProtocol.TakeFifo` | pipe.c:115 | the byte taken is the oldest one not yet read |
| `PipeEnds.EndsKeeps` | pipe.c:59-120 | every event of any process keeps it so that an end is open exactly until its last user is past the assignment in `pipeclose`, and that every call ends as it should |
| `PipeEnds.ClosedForGood` | pipe.c:59-68 | over every run: once a call of `pipeclose` is past its assignment its end is closed, and stays closed whatever happens; before any such call it is open |
| `PipeEnds.ReaderMeetsEnd` | pipe.c:105-120 | over every run: a reader that tests an empty pipe whose write end is closed comes away with no bytes and no failure, killed or not, whatever else happens, and so does its every later read |
| `PipeEnds.ReaderReturns` | pipe.c:105-120 | and four steps of its own take it out of the call, once the process table is unlocked |
| `PipeEnds.WriterFails` | pipe.c:84-88 | over every run: a writer that tests a full ring whose read end is closed fails at once, its every later write of a byte fails, and the ring keeps what it holds |
| `PipeEnds.HowCallsEnd` | pipe.c:78-120 | over every run: a write that does not fail has stored all its bytes, and fails only if killed or without readers; a read that does not fail has the bytes it asked for or leaves an empty pipe behind, has none only if it asked for none or the write end is closed, and fails only if killed |
| `PipeEnds.WritePutsItsBytes` | pipe.c:78-97 | over every run, with any other writers between: the bytes that a write puts into the pipe are the first of those it was given, in order, and all of them if it returns without failing |
| `PipeEnds.ReadGetsWhatItAsked` | pipe.c:101-120 | over every run: a read gets at most the bytes it asked for |
| `PipeEnds.KilledSleeperFails` | proc.c:428-447 | `kill` makes a sleeping process runnable, and if the pipe is still empty or full when it gets the lock, the call fails |
| `PipeEnds.KilledTooLateSleeps` | proc.c:367-403 | a process that is killed between its test of `killed` and `sleep` sleeps |
| `PipeEnds.KilledSleepsOnlyIfTooLate` | pipe.c:84-110 | over every run: a killed process sleeps in the pipe only if it was killed there |
| `PipeEnds.FreedUnused` | pipe.c:69-73 | over every run: when `pipeclose` finds both ends closed, nobody else is in a call on the pipe, nor ever will be, so it is freed unused and only once |
| `PipeEnds.FreedAtLast` | pipe.c:69-73 | over every run: when both ends are closed and the lock is free, some `pipeclose` has found them so and freed the pipe |
| `PipeMachine.Machine.Wakeup` | proc.c:406-413 | the scan of the process table wakes exactly the processes asleep on the channel |
| `PipeMachine.Machine.constructor` | pipe.c:30-36 | a new pipe satisfies the invariant |
| `PipeMachine.Machine.WriteOn` | pipe.c:83-94 | the assignments of `pipewrite` to counters and ring are the machine's steps |
| `PipeMachine.Machine.ReadOn` | pipe.c:105-117 | so are those of `piperead` |
| `PipeMachine.Machine.CloseOn` | pipe.c:62-68 | the end of the caller is marked closed, the other end is left as it was, and the assignments are the machine's steps |
| `PipeMachine.Machine.SharedOn` | proc.c:381-399 | so are acquire, the steps of `sleep`, the last wakeup and release |
| `PipeMachine.Machine.CopyOut` | pipe.c:112-116 | the reader's loop gives it the oldest unread bytes, n or as many as there are, and leaves the others in the pipe; it is a run of the machine |
| `PipeMachine.Machine.CopyIn` | pipe.c:83-93 | the writer's loop adds its next bytes at the end until all are in or the ring is full, and then goes to sleep, or gives up exactly if the read end is closed or it was killed; it is a run of the machine |
| `PipeMachine.Machine.Happen` | pipe.c:59-120 | any event on the fields is the machine's; the pipe stays first in, first out whatever happens, and the invariant about sleepers survives exactly if the event abandons nobody |
| `IdeQueue.DecodeTaskFile` | ide.c:78-81 | the registers carry drive and 28-bit sector number over |
| `IdeQueue.Driver.Start` | ide.c:70-88 | the controller gets the command for that buffer |
| `IdeQueue.Driver.LastInQueue` | ide.c:141-142 | the walk along `qnext` ends at the last buffer of the queue |
| `IdeQueue.Driver.Enqueue` | ide.c:140-143 | the buffer is linked behind the last one and nothing else changes |
| `IdeQueue.Driver.Submit` | ide.c:126-147 | panics exactly on a buffer that is not busy, has nothing to do, or is for a missing disk, and then changes nothing; otherwise the request goes to the end of the queue, and the active request is always the head |
| `IdeQueue.Driver.Interrupt` | ide.c:92-119 | serves the oldest request, whose buffer and sector end as the synchronous driver leaves them, and starts the next |
| `IdeQueue.Driver.IdeRw` | ide.c:126-155 | panics exactly as `Submit`; otherwise, whatever other processes change and ask while it waits, it returns after as many interrupts as there were requests before it and its own, and then buffer and disk are as if the synchronous driver had served the requests in order of arrival |
| `IdeQueue.Driver.Meanwhile` | ide.c:136-151 | any number of changes and requests by other processes keep the request's place |
| `IdeQueue.Driver.Resume` | ide.c:149-152 | when it wakes up, `iderw` returns exactly if its request has been served, with the synchronous driver's answer in that place |
| `IdeQueue.ServedInTurn` | ide.c:92-155 | over every run of interrupts, other requests and changes to other buffers: the buffer becomes valid and clean exactly when its request is served, and then holds what the synchronous driver answers in its place, and the disk is always that of the requests served |
| `IdeQueue.TracksServed` | ide.c:92-119 | an interrupt keeps that |
| `IdeQueue.SyncIsMemory` | memide.c:37-58 | the synchronous driver of this comparison is the one under the buffer cache |
| `IdeQueue.NextIs` | ide.c:103-116 | the queue behind its head is a queue again |
| `ShellGrammar.PeekIs` | sh.c:312-321 | where a line holds certain tokens with any white space around them, `peek` goes to the first and sees its first character |
| `ShellGrammar.TokenIs` | sh.c:267-309 | and `gettoken` answers its kind and its text, and goes on to the next |
| `ShellGrammar.RedsRead` | sh.c:376-398 | `parseredirs` reads all the redirections there are, in order |
| `ShellGrammar.ArgsRead` | sh.c:432-446 | the loop of `parseexec` reads the words, with the redirections between and behind them, in order, up to nine words |
| `ShellGrammar.SimpleRead` | sh.c:417-447 | words and redirections in any mixture, in front, between or behind, are read as the command of those words within those redirections, the first innermost |
| `ShellGrammar.GroupRead` | sh.c:401-414 | a parenthesised line with redirections behind it is read as that line within them |
| `ShellGrammar.PipeRead` | sh.c:363-373 | commands with bars between them are read as a pipeline, grouped to the right |
| `ShellGrammar.LineRead` | sh.c:346-360 | pipelines with ampersands and semicolons are read as the list they are |
| `ShellGrammar.ParsesText` | sh.c:329-447 | every text of the grammar, in whatever way spaced, is parsed into its tree, unless a simple command has ten words or more, and then the parser panics |
| `ShellGrammar.AcceptsOnlyText` | sh.c:329-447 | whatever the parser accepts is a text of the grammar, and the answer is its tree |
| `ShellGrammar.GrammarIsExact` | sh.c:329-447 | the parser accepts a line if and only if it is a text of the grammar with fewer than ten words in each simple command |
| `ShellRoundTrip.PrintedBack` | sh.c:329-447 | a text of the grammar, without parentheses or with, printed with spaces and parsed, gives its tree, or panic exactly if a simple command is too long |
| `ShellRoundTrip.RoundTrip` | sh.c:329-447 | the fully parenthesised text of a command tree, with any of the three redirections, parses to that tree with `>` for `>>` if and only if no command has ten words or more, and ends in panic otherwise |
| `ShellRoundTrip.AppendIsOnto` | sh.c:376-398 | a line with `>>` parses to the same tree as with `>` |
| `ShellParser.LineGood` | sh.c:346-447 | on every line, each string the parser returns is a maximal word of that line |
| `ShellParser.NextToken` | sh.c:267-309 | the loops of `gettoken` find the token of `GetToken`, which `ShellGrammar.TokenIs` characterises |
| `ShellParser.Peek` | sh.c:312-321 | skips white space and tests the next character |
| `ShellParser.Redirections` | sh.c:376-398 | terminates on every input with the redirections that `ShellGrammar.RedsRead` characterises |
| `ShellParser.Arguments` | sh.c:432-446 | terminates on every input with the words and redirections that `ShellGrammar.ArgsRead` characterises |
| `ShellParser.Execution` | sh.c:417-447 | terminates on every input with the command that `ShellGrammar.SimpleRead` and `GroupRead` characterise |
| `ShellParser.Parenthesised` | sh.c:401-414 | terminates on every input with the block that `ShellGrammar.GroupRead` characterises |
| `ShellParser.Pipeline` | sh.c:363-373 | terminates on every input with the pipeline that `ShellGrammar.PipeRead` characterises |
| `ShellParser.CommandLine` | sh.c:346-360 | terminates on every input with the list that `ShellGrammar.LineRead` characterises |
| `ShellParser.NulTerminate` | sh.c:451-494 | writes a NUL at the end of each string of the tree and nowhere else |
| `ShellParser.Command` | sh.c:329-343 | accepts the line exactly if it is a text of the grammar without long commands, with the tree of that text; afterwards each string of the tree, read as a C string, is its word of the line, and no word character has changed |
| `Regexp.Match` | grep.c:72-81 | answers 1 if and only if the text has a start, 0 under ^, from which it splits into one piece for each item of the pattern |
| `Regexp.OneReading` | grep.c:84-95 | the items of a pattern are its only reading in which a star belongs to the character before it, a dot is no literal, and a dollar is one exactly if something follows |
| `Regexp.MatchHere` | grep.c:84-95 | terminates, and answers 1 if and only if the items match from this position |
| `Regexp.MatchStar` | grep.c:98-105 | terminates, and answers 1 if and only if some run of the starred character is followed by a match of the rest |
| `Regexp.HereOrNot` | grep.c:84-105 | matching item by item is the same as having a split of the text |
| `Regexp.StarStep` | grep.c:98-105 | a starred item stops here or takes one more character |
| `PriorityRoundRobin.SlotsSorted` | uthread.c:61-71 | the live slots of a class, each once, in order |
| `PriorityRoundRobin.NextIsTurn` | uthread.c:85-95 | the slot that the walk stops at is the next live one of its class in circular order |
| `PriorityRoundRobin.Rotation` | uthread.c:73-101 | a full round is a rotation of the live slots |
| `PriorityRoundRobin.Scheduler.constructor` | uthread.c:8-12 | the static initial state: the first index is -1, the others are 0, and no slot is live |
| `PriorityRoundRobin.Scheduler.CountInPriority` | uthread.c:61-71 | the number of live slots of the class |
| `PriorityRoundRobin.Scheduler.Walk` | uthread.c:85-93 | stops within one round, from any index including -1, at the first live slot of the class behind it |
| `PriorityRoundRobin.Scheduler.GetNextPB` | uthread.c:73-101 | a live slot of the best class that has one, next in its turn; -1 exactly if all classes are empty |
| `PriorityRoundRobin.Scheduler.Picks` | uthread.c:73-101 | as many picks as the best class has live slots return each of them exactly once, from any stored index |

## Left out

- Kernel threads, mutexes and condition variables (`proc.c:500-993`): their queues and owners do not keep the guarantees one would state.
- Scheduling of processes, traps, interrupts other than the disk's, system call argument checks, `exec`, console, keyboard and UART: not modelled.
- Path walking (`namex`, `skipelem`): directory calls are given the parent inode and the last name; those of `DirCalls` work on entries, those of `DirEntries` on bytes, where names are cut to 14 characters.
- Inode cache reference counts and locks (`iget`, `ilock`): an inode that a call uses is taken to be held; `iput` is modelled as the freeing of an inode without links on its last reference.
- Spinlocks and more than one CPU, except in `PipeProtocol`, where acquire and release of both locks are steps.
- FileSystem.FileSys.FileWrite: no other writer runs between two chunks, because only one file system user is modelled at a time.
- CrashFiles.DiskShows: a sector is the list of the fields, bits or bytes in it; how they are packed into words is not covered.
- CrashFiles.RunCommits: the sectors that a chunk logs are taken to lie outside the log area; the allocator, as in the source, does not see to that.
- FileSystem.FileSys.BAlloc: the bits of the bitmap are a sequence of truth values, so the packing into bytes is not covered; as in the source, blocks of the log area are handed out if their bits are clear.
- Device inodes in `readi` and `writei`: they call into drivers that are not modelled.
- UserHeap.Allocator.Malloc: sizes do not wrap, and what `sbrk` answers is a parameter.
- PageTable.Vm.SetupKvm: an unfinished space stays behind when memory runs out, as in the source, and nothing can free it.
- PageTable.Vm.MapPage: permission bits are left out, so `clearpteu` is too; sizes stay below KERNBASE, so addresses do not wrap.
- PipeProtocol.NoLostWakeup: ends are closed only by their last user, as reference counts in `file.c` ensure; the page of a freed pipe is not handed back to the allocator.
- IdeQueue.Driver.Interrupt: the controller finishes commands without errors and interrupts only when it has.
- IdeQueue.Driver.Submit: the buffer is not in the queue already, which the B_BUSY lock that its caller holds ensures.
- ShellParser.Command: memory for the tree is a value, so allocation failure and the sharing of the command node under its redirections are not covered.
- The round-robin policy `getNextRoundRobin` and thread switching in `uthread.c`: not selected, or assembly.
