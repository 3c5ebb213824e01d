# xv6, modelled and proved in Dafny

This project models the hard core of an x86 xv6 kernel and of two of its user programs, and
proves what the code promises. `dafny verify dfyconfig.toml` checks everything.

The parts, with the modules that hold them:

* **Storage stack.** `Blocks` (512-byte blocks, little-endian words, disks and traces of atomic
  block writes), `BufferCache` (bio.c over memide.c: a doubly linked LRU ring, reference counts,
  valid and dirty flags), `Crash` (the disk writes of commit and of recovery as sequences that a
  crash may cut anywhere), `Log` (log.c as a class over the cache), `LogRuns` (whole runs of log,
  cache and disk, with readers, operations, a commit in progress and power failures),
  `LogReservation` (begin_op, log_write and end_op of any number of processes, interleaved),
  `BlockMap` and `FileSystem` (bitmap, direct and indirect block maps, inodes, readi, writei,
  itrunc, filewrite), `BlockRuns` (the steps of balloc, bmap, bfree, itrunc and iupdate of any
  number of processes, interleaved, with inodes leaving and entering the cache), `SavedRuns` (such
  runs in which every process saves an inode before it lets it go), `Dirents` (directory entries as
  bytes), `OpLog` (the blocks create and unlink log), `FileCrash` (inodes and bitmap as bytes, and what
  a cut transaction leaves of files), `Mkfs` (the initial image), `InodeCache` (iget, ilock, iput and
  ialloc, interleaved), `Directories` and `Links` (directory entries, paths, link counts, create, link
  and unlink).
* **Memory.** `Malloc` (the K&R allocator of umalloc.c), `Pages`, `Spaces` and `PageTables`
  (kalloc.c and the two-level page tables of vm.c), `Mmap` (populated mmap and munmap).
* **Blocking.** `SleepLock` (acquiresleep and releasesleep over sleep and wakeup, one instruction
  at a time), `Pipe`, `Ptable` (fork, exit, wait, kill and the scheduler's choice), `Areas` (the table
  of mapped areas under fork), `ForkSpace` (fork on the page tables and free pages of `PageTables`).
* **User programs.** `ShellGrammar` and `ShellParser` (sh.c's parser, on tokens and on
  characters), `Grep` (the matcher of grep.c).

`Common` holds what they share.

Code that updates things in place is a class or a method with a loop, proved against functions
and predicates on plain values; the theorems are lemmas about those. A kernel panic is a result
(`None`, `false`, `Panicked`, `Remap`, ...) whose exact condition the contract gives, not an
excluded input. Every method terminates; loops that the kernel repeats after sleep are modelled
one round at a time.

## What is proved, in short

* A crash between any two disk writes of a commit, followed by any number of crashes during
  recovery, leaves exactly the old or exactly the new contents, and the new ones once the header
  is written (`Crash.CrashAtomicity`); the imperative commit over the real cache performs exactly
  those writes and installs what readers saw, whatever blocks readers hold meanwhile
  (`Log.Log.Commit`).
* Log, cache and disk are one disk: in every run of any processes, with a commit that proceeds in
  steps between theirs and power failures anywhere, every read sees the latest write, and a reboot
  gives the disk as of the last commit, which is one at which no operation was open
  (`LogRuns.Run`).
* Under every interleaving the log never needs more than LOGSIZE blocks
  (`LogReservation.Reservation`), and it is empty whenever no operation is open and no commit runs, so
  that whoever waits is let in (`LogReservation.LetIn`).
* No disk block has two owners and the bitmap is exact: for every balloc, bmap, writei and itrunc
  with any number of inodes in memory, and from the image mkfs builds through every interleaving of
  their steps, in which bfree never finds a free block and no process changes a byte of another
  inode (`BlockRuns.RunSound`, `BlockRuns.NoInterference`); an inode that leaves the cache and is read
  again keeps this exactly when its copy on disk refers to the same blocks (`BlockRuns.RunReload`).
  It does in every run in which each process calls iupdate, after it has changed block numbers and
  before it unlocks the inode; then a reboot finds all as it was, too (`SavedRuns.DisciplinedSound`).
* File contents are byte sequences; every block of data, bitmap or inodes that an operation changes it
  also logs (`FileSystem.Fs.Writei`, `FileSystem.Fs.Itrunc`, `OpLog.CreateWrites`,
  `OpLog.UnlinkWrites`), a filewrite chunk at most MAXOPBLOCKS of them; so a write, a create or an
  unlink that commits exactly the blocks it logged and is cut by a power failure leaves the whole file
  system as it was or all of the change, for create from the free inode that ialloc takes on
  (`FileCrash.TransactionCrash`, `FileCrash.WriteCrash`, `FileCrash.CreateCrash`,
  `FileCrash.UnlinkCrash`). The bytes of a directory read as the entries of `Links`: what create and
  unlink write puts exactly one entry, before and after a power failure (`Dirents.EntriesPut`,
  `Dirents.EntriesClear`).
* In every interleaved run of the inode cache whose lookups are safe, whoever frees an inode holds the
  only reference to it (`InodeCache.CacheSafe`).
* Link counts are exactly the entries that name an inode, directories form a tree, a created,
  linked or unlinked path then resolves as it should, and an inode somebody refers to stays. p/q is
  what q is from where p is, and a path that begins with a slash is the same file for every process
  (`Links.JoinedPath`, `Links.AbsolutePath`).
* Every allocator page is in exactly one place; freeing an address space, or failing to copy one,
  gives back everything; mmap is undone by munmap; a fork takes its stack, its space and the pages of
  the areas, and loses at most one page, exactly known (`ForkSpace.Fork`). The child has its parent's
  areas, so that its munmap finds them (`Areas.ChildAreas`, `ForkSpace.ChildFinds`).
* The heap of malloc stays tiled by free and allocated blocks with one sorted coalesced list.
* No wakeup is lost on a sleep lock, on a pipe or between wait and exit, with forks half done.
* The shell's parser accepts exactly the lines of a grammar, each as the tree the grammar gives it,
  with the words ended in place (`ShellGrammar.ParsedExactly`, `ShellParser.Parsecmd`); printing a
  command with no parentheses that could be left out and parsing it returns it
  (`ShellParser.PrintRendered`, `ShellGrammar.LineShortest`). The matcher decides exactly a
  declarative meaning of patterns.

## Where the code falls short of what it seems to promise

Each of these is proved with the exact condition under which the code is right, and with a run or an
input for which it is not.

* commit panics for want of a buffer exactly when none can be recycled, that is when the logged
  blocks and those that readers hold fill the cache (`Log.Log.Commit`, `Log.SpareExact`); 29 logged
  blocks and one reader do (`LogRuns.FullLogOneReader`). Inside a turn of the commit, which holds a
  buffer of its own, a reader can be the one to panic (`LogRuns.ReaderInTurn`).
* log_write refuses a block that begin_op reserved exactly when the log area has no more than
  LOGSIZE blocks; mkfs.c:25 gives it LOGSIZE, header included (`LogReservation.GuardExact`). A
  full log refuses even a block it already holds (`LogReservation.FullLogRefusesRewrite`).
* itrunc keeps within the MAXOPBLOCKS blocks of its reservation for every file exactly when the data
  blocks have their bits in at most nine blocks of the free map (`FileSystem.TruncExact`).
* mkfs rounds the root directory's size up; its last block is then unmapped exactly when the
  entries fill their blocks (`Mkfs.RootMapped`). A lookup that reads such a directory to its end
  allocates the block, which a read outside a transaction may not, and the number is only in memory:
  when the inode is read again, or after a reboot, the bitmap marks a block nobody refers to
  (`Mkfs.ScanRoot`, `BlockRuns.BlockLeaked`; with thirty files, `Mkfs.LookupAfterBoot`). It enters
  names without looking for them, so that
  the tree is sound exactly when no name is given twice (`Links.ImageExact`).
* link and create keep the counts exactly when the parent directory is still linked and the
  16-bit count does not wrap (`Links.LinkExact`, `Links.CreateExact`); runs in a removed current
  directory break them (`Links.CreateInRemoved`, `Links.MkdirInRemoved`, `Links.LinkInRemoved`).
* ".." is not a reference: the parent of a removed current directory can be freed, and a path
  through it then panics (`Links.ParentGone`); walks from linked directories never do
  (`Links.NoPanic`). While the parent is being freed, such a lookup is a second reference to an inode
  under truncation: the inode cache is safe in a run exactly when every lookup found an inode that is
  linked, or allocated with no iput past its check (`InodeCache.StepInv`, `InodeCache.RunInv`,
  `InodeCache.SecondReference`).
* A killed writer returns from pipewrite without waking readers, exactly when readers sleep and more
  is left to write than the pipe holds (`Pipe.Pipe.Pipewrite`, `Pipe.StrandedReader`).
* fork gets through the mapped areas of its parent exactly when there is a free area for each, every
  page of them is present, none is mapped in the child already, and there are free pages for the
  copies and for their page tables, or for all but the table of the last page, which is then lost
  (`Ptable.Ptable.CopyAreas`, `Ptable.Ptable.Fork`, `ForkSpace.Fork`). Otherwise a child is left that never runs and for
  which its parent waits in vain (`Ptable.LeakedChild`), also where a page table takes the last page
  (`Ptable.TableTakesLast`); or, with a page that is not there, the parent exits inside fork
  (`Ptable.ExitInFork`). A child that lacks its last page runs (`Ptable.UnmappedChild`).
* A process is born killed when its slot was marked while unused. No slot ever is exactly as long as
  every kill names a process or nothing and no fork is given up in a slot already killed
  (`Ptable.Run`, `Ptable.MarkIsInherited`); kill of pid 0 and a kill during a fork that fails are the
  runs (`Ptable.BornKilled`, `Ptable.InheritedKill`).
* malloc's rounding wraps for requests within 7 bytes of 2^32, and a request that makes morecore ask
  for 2^31 bytes or more passes a negative number to sbrk. The process then dies on the header of the
  memory it did not get, exactly when its last page has no room for that header, as after exec; else
  the heap claims memory the process does not have (`Malloc.Allocator.Malloc`,
  `Malloc.SurvivesExactly`, `Malloc.HugeRequest`).
* The test for areas in the way of a new one is exact unless one of them wraps around the address
  space; one that does is tested with an end below its start (`Mmap.ApartExact`, `Mmap.WrappedApart`).
* A child of fork has its parent's areas and no others exactly when no earlier process left areas in
  its slot (`Areas.ChildAreas`).
* mmap accepts a negative length; the area it records hides a later area at the same address from
  munmap (`Mmap.Mmaps.MapUnmap`, `Mmap.StaleUnmap`). A populating mmap that runs out of memory leaves
  its area recorded as not populated, with the pages it got still mapped, and munmap of it then
  succeeds and frees none of them (`Mmap.Mmaps.Mmap`, `Mmap.FailedMmap`).
* freevm does not free pages mapped for the user at or above KERNBASE, which mmap can create
  (`PageTables.Vm.Freevm`, `Mmap.LeakAboveKernbase`).
* allocuvm, when memory runs out, unmaps its whole range: the old mappings are back exactly when the
  range had none (`PageTables.Vm.Allocuvm`).

## Model

| member | source | states |
|---|---|---|
| `BufferCache.Cache.constructor` | bio.c:39-56 | binit leaves an empty coherent cache whose ring visits every buffer once |
| `BufferCache.SpliceRing` | bio.c:132-137 | the six link assignments of brelse turn a circular doubly linked ring into the ring with that buffer moved behind the head |
| `BufferCache.FrontOrder` | bio.c:121-141 | moving the released buffer to the front keeps the list a permutation ordered by time of last release |
| `BufferCache.Cache.ToFront` | bio.c:130-138 | the splice on the stored next and prev fields keeps the ring and puts the buffer first |
| `BufferCache.Cache.Lookup` | bio.c:66-75 | the forward scan returns the buffer that holds the block, or the head exactly when none does |
| `BufferCache.Cache.Victim` | bio.c:77-90 | the backward scan returns the least recently released clean unreferenced buffer, or the head exactly when there is none |
| `BufferCache.Cache.Bget` | bio.c:62-93 | no block gets two buffers; the recycled buffer is the least recently released candidate; panic exactly when the block is absent and nothing is recyclable |
| `BufferCache.Cache.Fetch` | memide.c:39-60 | iderw fills the buffer from the disk, and panics exactly for another device or a block past the end |
| `BufferCache.Cache.Bread` | bio.c:97-106 | returns the last contents written or pinned for the block, changes no reader's view, and panics exactly in the stated cases |
| `BufferCache.Cache.Bwrite` | bio.c:110-116 | one atomic disk write, after which the buffer is clean and agrees with the disk |
| `BufferCache.Cache.Brelse` | bio.c:121-141 | drops one reference; at zero the buffer becomes the most recently released one and the order of the others stays |
| `BufferCache.ViewIs` | bio.c:62-116 | every valid buffer, dirty or clean, holds what any reader of its block sees |
| `Crash.RecoveryCut` | log.c:116-122 | recovery cut after any number of its writes keeps the disk well formed with the same durable contents, and when complete has installed them and emptied the log |
| `Crash.HeaderWritten` | log.c:102-113 | the header write makes the transaction durable: the remaining writes of commit are exactly a recovery |
| `Crash.CommitCut` | log.c:193-202 | commit cut after k writes recovers to the old contents for k up to the number of blocks and to the new contents after that |
| `Crash.RebootsKeep` | log.c:54-66 | any chain of boots, each cut during recovery, keeps the durable contents |
| `Crash.CrashAtomicity` | log.c:69-202 | cut commit anywhere, cut recovery any number of times: the recovery that completes leaves exactly the old or exactly the new home blocks and an empty log |
| `Log.Log.constructor` | log.c:54-66 | booting on a crashed disk performs the recovery writes in order, leaves the durable contents in place with an empty log, and readers and recovery see that disk |
| `Log.Log.Recover` | log.c:116-122 | in a cache nobody uses recovery never lacks a buffer, and its phases leave the durable contents with an empty log |
| `Log.Log.ReadHead` | log.c:86-96 | the in-memory list becomes the header on disk |
| `Log.Log.BeginOp` | log.c:126-141 | an operation is admitted exactly when no commit runs and its full allowance fits |
| `Log.Log.Bread` | bio.c:97-106 | at any time, during a commit too, a reader gets the logical contents of the block; None exactly when the block is not cached and nothing can be recycled |
| `Log.Log.Brelse` | bio.c:121-141 | a reader leaves at any time and everything the log relies on stays |
| `Log.PinOne` | log.c:214-233 | marking a buffer dirty pins its block and no other |
| `Log.PinView` | log.c:214-233 | pinning a buffer with new contents changes the view of its block only |
| `Log.Log.LogWrite` | log.c:214-233 | the logical disk changes at that block at once while the disk keeps the old contents; the block is listed once; panic exactly by the three guards |
| `Log.Spare` | bio.c:77-92 | with fewer busy blocks than buffers some buffer can be recycled |
| `Log.SpareExact` | bio.c:77-92 | some buffer can be recycled if and only if fewer than NBUF blocks are pinned or held |
| `Log.Log.BreadLog` | log.c:104-104 | reading a block of the log area takes exactly one recyclable buffer and fails exactly when there is none |
| `Log.Log.BreadHome` | log.c:76-76 | the second bread of a turn, with the log block held: the home block is cached, or a buffer is left for it, and every pinned block stays cached |
| `Log.Log.LogRest` | log.c:183-189 | the rest of a turn of write_log never fails: it copies the cached, not the stale, contents of the block into the log and gives its buffer back, whatever readers did since the turn began |
| `Log.Log.LogOne` | log.c:182-189 | one turn copies the cached contents of the block into the log, keeps all references and leaves a recyclable buffer; it fails exactly without one |
| `Log.Log.WriteLog` | log.c:178-190 | the log area receives the pinned contents of the listed blocks in order, all pins and references stay; it fails, with nothing written, exactly when there is a block to write and no recyclable buffer |
| `Log.Log.InstallRest` | log.c:76-81 | the rest of a turn of install_trans copies the logged block to its home, unpins that block only and gives its buffer back |
| `Log.Log.InstallOne` | log.c:74-81 | one turn copies a logged block to its home and unpins that block only, keeping all references |
| `Log.Log.InstallTrans` | log.c:70-82 | home blocks receive the logged contents, nothing stays pinned and all references stay |
| `Log.Log.HeadRest` | log.c:105-113 | the rest of write_head is one atomic write of the header block with the in-memory list |
| `Log.Log.WriteHead` | log.c:102-113 | one atomic write of the header block with the in-memory list; it fails exactly without a recyclable buffer |
| `Log.InstalledView` | log.c:193-202 | after installing, every home block on disk is what readers saw before |
| `Log.CommitDone` | log.c:193-202 | the four phases of commit compose to the committed disk with an empty log |
| `Log.RecoveryDone` | log.c:116-122 | the phases of recovery compose to the recovered disk |
| `Log.Log.Commit` | log.c:193-202 | for any blocks readers hold: fails at its first bread exactly when no buffer can be recycled, else issues exactly the writes of the crash model, keeps all references, makes the disk the logical one, and cut anywhere recovers to the old durable or the logical disk |
| `Log.Log.Phases` | log.c:193-202 | the four phases in order with their writes |
| `Log.CommitEnd` | log.c:193-202 | what the writes of a commit leave, complete or cut after any number |
| `Log.Log.TakeStep` | log.c:75-75 | a turn begins by taking a buffer for a block of the log area, and fails exactly when none can be recycled |
| `Log.Log.CommitStep` | log.c:178-202 | each half of a turn of a commit in progress, between which readers come and go, keeps what readers see and what they hold; what recovery would give changes only at the header write, to what readers see; panic exactly when a turn begins without a recyclable buffer |
| `Log.DurableIsSafe` | log.c:116-202 | at every stage of a commit recovery would give the same home blocks |
| `LogRuns.DoStep` | log.c:178-202 | what a step of the committing process does and when it panics, and that only the header write is a step of the ideal disk |
| `LogRuns.Do` | log.c:125-233 | what every action of readers, operations and the committing process does to log, cache and disk and when it panics, inside the turns of a commit too, and that it is one step of an ideal disk |
| `LogRuns.Turn` | log.c:54-66 | so is a power failure at any point and the boot after it |
| `LogRuns.Run` | log.c:54-233 | from any well-formed disk, any sequence of actions and power failures, each doing what it does, is explained by one ideal disk: reads see the latest write, only complete operations become durable, and a reboot gives the disk of the last commit |
| `LogRuns.CrashedDisk` | log.c:54-66 | the disk a power failure leaves is one that recovery can start from, with the safe contents |
| `LogRuns.FullLogOneReader` | bio.c:77-92 | a run with 29 logged blocks and one reader in which commit panics |
| `LogRuns.ReaderInTurn` | bio.c:77-92 | a run with 29 logged blocks in which a reader panics inside the first turn of the commit |
| `Log.Log.EndOp` | log.c:146-174 | the last operation out starts a commit when something is logged, and only then |
| `LogReservation.StepKeeps` | log.c:126-174 | no step panics with log.committing or outside-of-trans, and every step keeps the reservation |
| `LogReservation.Reservation` | log.c:125-233 | over every run of any number of processes, blocks logged plus unused allowances stay within LOGSIZE, no block is listed twice, and commit excludes operations |
| `LogReservation.LetIn` | log.c:126-173 | in every reachable state without an open operation the log is empty or being committed, and the end of the commit empties it; begin_op then lets anybody in |
| `LogReservation.SmallLogRefuses` | log.c:218-219 | a concrete run of three operations in which a log of at most LOGSIZE blocks refuses a reserved block |
| `LogReservation.GuardExact` | log.c:218-219 | some run has a reserved block refused if and only if the log area has at most LOGSIZE blocks |
| `LogReservation.FullLogRefusesRewrite` | log.c:214-233 | a log holding LOGSIZE blocks refuses to log again a block that is in it |
| `BlockMap.OwnedIsOwnership` | fs.c:56-95 | an owner map implies that no block is referenced twice and that the bitmap is exactly metadata plus referenced blocks |
| `BlockMap.OwnershipIsOwned` | fs.c:56-95 | conversely the owner map can be read off inode table and bitmap |
| `BlockMap.ReloadIff` | fs.c:288-312 | when one inode of the table is replaced by another copy, ownership holds after if and only if the copy refers to the same blocks, each once |
| `BlockMap.SavedIsSame` | fs.c:221-236 | which a copy with the same block numbers does |
| `FileSystem.Fs.constructor` | fs.c:56-95 | a disk on which ownership holds, mounted with no inode in memory, starts sound |
| `FileSystem.Fs.Ialloc` | fs.c:195-214 | the first inode that is free on disk, zeroed and marked by its type, with its block logged; none exactly when all are in use |
| `FileSystem.Fs.Ilock` | fs.c:288-312 | the in-memory copy of an inode nobody holds is valid |
| `FileSystem.Fs.OthersValid` | fs.c:373-435 | what a process does to its inode leaves every other inode in memory valid |
| `BlockMap.AllocSlot` | fs.c:373-400 | giving a free block to an empty direct, indirect or table slot keeps ownership and changes no other reference |
| `BlockMap.AllocBytes` | fs.c:373-400 | and changes no byte of any file outside the new block |
| `BlockMap.DataWrite` | fs.c:482-511 | writing a data block changes the bytes of its one slot and no other file |
| `BlockMap.ClearDirect` | fs.c:414-419 | a direct block is marked used when itrunc frees it, and ownership holds after |
| `BlockMap.ClearEntry` | fs.c:421-428 | so is each entry of the indirect block, those before it being freed already |
| `BlockMap.ClearTable` | fs.c:429-431 | and the indirect block itself, whose stale entries then no longer count |
| `FileSystem.Fs.Balloc` | fs.c:57-78 | the first free block of the bitmap, zeroed and marked; panic exactly when all are used |
| `FileSystem.Fs.Bfree` | fs.c:82-95 | clears the bit, and panics exactly when it is clear already |
| `FileSystem.CoversGrow` | fs.c:373-400 | the bitmap block, the new block and the indirect block that an allocation changes are all logged |
| `FileSystem.Fs.Grow` | fs.c:373-400 | a new block for an empty slot, none exactly on a full disk, keeps ownership over all inodes in memory and on disk, all other references and all bytes, and logs every block it changed |
| `FileSystem.Fs.BmapTable` | fs.c:383-388 | the indirect block, allocated exactly when missing; fails exactly without it on a full disk |
| `FileSystem.Fs.Bmap` | fs.c:373-400 | the block of a file, allocated with its indirect block if missing; nothing changes when mapped; every changed block logged, and exactly which; panic exactly past MAXFILE or when the disk lacks the one or two blocks it takes |
| `FileSystem.Fs.Iupdate` | fs.c:221-236 | the in-memory inode is written through |
| `FileSystem.Fs.WriteChunk` | fs.c:498-504 | one turn of writei puts one piece into one block, into a hole too, changes no other byte, and logs that block and exactly what allocating it changed |
| `FileSystem.FinishWrite` | fs.c:482-511 | a finished loop with the size set is the old contents with the bytes spliced in, mapped up to its size |
| `FileSystem.AccountBound` | file.c:118-156 | a write of at most three blocks logs at most 4 data, 4 bitmap, 1 indirect and 1 inode block |
| `FileSystem.Fs.WriteLoop` | fs.c:498-504 | the loop of writei splices all of src, logs every block it changed, accounts for each, and leaves other files alone |
| `FileSystem.Fs.WriteAll` | fs.c:498-510 | the loop and the new size together: every changed block of data, bitmap and inodes is logged |
| `FileSystem.Fs.Writei` | fs.c:482-511 | success splices src at off, holes or not, leaves every other file unchanged and logs every block that changed, no others than blocks of the file system; failure exactly for a gap, a wrap or the size limit, with nothing changed; at most MAXOPBLOCKS blocks for a filewrite chunk of a mapped file |
| `FileSystem.Fs.TruncDirect` | fs.c:414-419 | the direct blocks are freed once each |
| `FileSystem.Fs.DropDirect` | fs.c:414-419 | one turn frees one direct block and forgets its number |
| `FileSystem.Fs.TruncIndirect` | fs.c:421-431 | the entries of the indirect block and the block itself are freed once each |
| `FileSystem.Fs.DropEntry` | fs.c:424-428 | one turn frees one entry of the indirect block |
| `FileSystem.TruncCovers` | fs.c:408-435 | the bitmap blocks and the inode block that a truncation changes are all logged |
| `FileSystem.Fs.Itrunc` | fs.c:408-435 | freeing a free block never happens, exactly the file's blocks become free, and exactly their bitmap blocks and the inode's block are logged, which covers every change |
| `FileSystem.TruncBound` | fs.c:408-435 | it logs at most one block for each block of the free map with bits of data blocks, and one |
| `FileSystem.TruncExact` | param.h:10-10 | it logs at most MAXOPBLOCKS blocks for every file if and only if the data blocks have their bits in at most nine blocks of the free map |
| `Dirents.NameWritten` | fs.c:572-572 | strncpy of a name into an entry reads back, up to NUL or DIRSIZ, as the C string cut to that length |
| `Dirents.EntryRead` | fs.c:572-573 | an entry reads as the inode number in sixteen bits and the name cut to DIRSIZ that were written |
| `Dirents.EntriesSplice` | fs.c:560-575 | sixteen bytes spliced into a directory at an entry replace that entry, or add one at the end, and no other entry is touched |
| `Dirents.EntriesPut` | fs.c:552-578 | what dirlink writes makes the directory read as its old entries with exactly one put |
| `Dirents.EntriesClear` | sysfile.c:218-219 | what unlink writes makes exactly one entry unused |
| `Dirents.DotsRead` | sysfile.c:273-273 | the contents of a new directory read as "." and ".." and nothing else |
| `Dirents.NeedIs` | fs.c:373-400 | the blocks that create and link reckon with for a new entry are those bmap allocates for it |
| `OpLog.WriteEntry` | fs.c:571-575 | writing one directory entry splices it in, logs exactly its block, what allocating it changed and, if the directory grew, the inode, and leaves other inodes in memory valid |
| `OpLog.EntryFew` | fs.c:571-575 | which is the block, the indirect block, their bitmap blocks and the inode at most, and no bitmap block for an entry whose block is there |
| `OpLog.Iput` | fs.c:332-352 | with the last reference to an inode without links the file is emptied, its blocks are freed and exactly their bitmap blocks and the inode logged; otherwise nothing changes |
| `OpLog.WriteDots` | sysfile.c:272-273 | the contents of a new directory read as the two entries "." and ".." with the numbers of itself and its parent, in one new block; exactly that block, its bitmap block and the inode are logged; panic only on a full disk |
| `OpLog.NewNode` | sysfile.c:260-267 | the first free inode on disk becomes one of the type, with major, minor and one link, in memory and through to the table; panic exactly when none is free |
| `OpLog.CreateChild` | sysfile.c:260-275 | ialloc and the new inode's fields and, for a directory, contents that read as the dots, and the parent's count, through to the inode table; panic only without a free inode or block |
| `OpLog.CreateWrites` | sysfile.c:260-280 | create from ialloc up to the iput of the parent: the inode, the dots, the counts and in the parent, read as entries, exactly one put, the name cut to DIRSIZ with the new inode, through to the inode table if the parent is mapped; exactly which blocks are logged, every changed one among them; at most eight, or five and the bitmap of the data area when the iput frees a removed parent; panic only without a free inode or block, or past the largest directory |
| `OpLog.CreateDone` | sysfile.c:260-280 | the parts of create together log exactly the blocks of the new inode, of the entry and of the iput |
| `OpLog.UnlinkEntry` | sysfile.c:218-225 | the entry is cleared, so that the parent reads as before with one entry unused, for a directory the parent's count lowered, and the parent put, with exactly the blocks logged |
| `OpLog.UnlinkWrites` | sysfile.c:218-229 | unlink up to both iputs makes exactly one entry of the parent unused and lowers the counts, through to the inode table if the parent is mapped; exactly which blocks are logged, every changed one among them; three without a truncation, and otherwise three and the bitmap of the data area at most |
| `OpLog.DropInode` | sysfile.c:227-229 | one link less and the inode put: freed exactly with the last reference to the last link, and exactly what is logged for it |
| `FileSystem.Fs.ReadBlock` | fs.c:469-475 | one turn of readi: the piece of the block, allocated if it is a hole, which reads as zeroes |
| `FileSystem.Fs.Readi` | fs.c:453-476 | returns exactly the slice of the file clipped at its end, holes as zeroes; it changes anything if and only if a block it reads is a hole, and the inode in memory if and only if that has no number for such a block; panic only for a hole on a full disk |
| `FileSystem.SpliceTwice` | file.c:126-152 | splicing two adjacent chunks is splicing their concatenation |
| `FileSystem.Fs.FileChunk` | file.c:132-149 | one chunk, whatever other writers did to the file before it: the file as it then is with the chunk spliced in at the offset, every changed block logged, at most MAXOPBLOCKS for a mapped file |
| `FileSystem.Fs.Filewrite` | file.c:118-156 | with no other writer between them the chunks together splice the bytes written, each in a transaction of at most MAXOPBLOCKS blocks for a mapped file; failure exactly past the end or the size limit |
| `BlockRuns.ReloadSound` | fs.c:288-312 | reading an unlocked inode again keeps one owner per block if and only if the copies in memory and on disk refer to the same blocks, whatever the other processes are in the middle of |
| `BlockRuns.StepKeeps` | fs.c:57-435 | every step of lock, unlock, balloc, bzero, bmap's store, data write, iupdate and itrunc at any inode, and every such reload, keeps one owner per block, counting blocks marked and not yet stored and not those freed and not yet forgotten, and frees no free block |
| `BlockRuns.RunKeeps` | fs.c:57-435 | so does every interleaved run from a sound disk in which each inode read again had been saved as far as its blocks go |
| `BlockRuns.RunReload` | fs.c:288-312 | in every state of such a run the next reload is sound if and only if the two copies refer to the same blocks |
| `BlockRuns.RebootOwned` | fs.c:288-312 | a reboot finds one owner per block if every inode on disk refers to the blocks it has in memory |
| `BlockRuns.RunSound` | fs.c:57-435 | in every such run bfree never panics, and whenever nobody is inside bmap or itrunc no block is referenced twice and the bitmap is exact; and then a reload of any inode keeps this if and only if its copies agree on the blocks, and a reboot does if all do |
| `SavedRuns.CopiesStep` | fs.c:221-312 | what each step does to the copies of its inode in memory and on disk: iupdate and a reload make them equal, no other step writes the disk copy, and only bmap and itrunc change block numbers |
| `SavedRuns.SavedCopies` | fs.c:221-236 | in every run, once the last change of an inode's block numbers is followed by iupdate its copies have the same numbers until the next change, whatever others do; if the last change of any field is, they are equal |
| `SavedRuns.UnlockedClean` | fs.c:221-236 | if processes call iupdate after changing numbers and before unlocking, no unlocked inode has unsaved numbers |
| `SavedRuns.DisciplinedAgrees` | fs.c:288-312 | and then every inode read again agrees with its copy on the blocks |
| `SavedRuns.DisciplinedSound` | fs.c:57-435 | in every run of such processes bfree never panics, saved and unlocked inodes have the same numbers in memory and on disk, of the same blocks until the indirect block is freed, one owner per block and an exact bitmap whenever nobody is inside bmap or itrunc, and so after a reboot when all are saved |
| `SavedRuns.SingleStays` | fs.c:408-434 | in every such run an inode that has not freed its indirect block refers to no block twice, also while it is truncated |
| `SavedRuns.TableReused` | fs.c:425-431 | after that, a run in which another inode gets the freed indirect block and the first one's copies, equal as they are, refer to a block twice |
| `SavedRuns.Undisturbed` | fs.c:57-435 | over any number of steps elsewhere the copies, position and bytes of an inode not under truncation stay |
| `SavedRuns.DataStays` | fs.c:482-511 | bytes written to a block of an inode are read there until the next step at that inode |
| `SavedRuns.FieldsStay` | fs.c:221-236 | fields set and saved are in memory and on disk until the next step at that inode |
| `BlockRuns.UnsavedRun` | fs.c:373-380 | a run on any boot image: bmap gives an inode a block and it is unlocked without iupdate |
| `BlockRuns.BlockLeaked` | fs.c:288-312 | when that inode is read again the bitmap marks a block that nobody refers to |
| `BlockRuns.NoInterference` | fs.c:57-435 | in every state of every such run a step at one inode, a reload included, changes no byte of any other inode that is not being truncated |
| `FileCrash.EncodeDecode` | fs.c:221-236 | the inode iupdate stores in its block reads back, and the other seven of the block are untouched |
| `FileCrash.PutBitIs` | fs.c:65-70 | setting or clearing a bit of a byte of the free map changes that bit only |
| `FileCrash.PutBlockBit` | fs.c:65-95 | so does the store of balloc and bfree into a block of the free map |
| `FileCrash.InodeStored` | fs.c:221-236 | iupdate's store turns a block of the old file system into that of the new one |
| `FileCrash.BitStored` | fs.c:65-95 | so do the stores of balloc and bfree |
| `FileCrash.ImageHolds` | fs.c:56-95 | every block of a file system whose inodes fit their fields has contents on disk |
| `FileCrash.CanCommit` | log.c:193-202 | the blocks an operation logged, listed in any order, are a transaction the log can hold if they are few enough, and there are contents for them |
| `FileCrash.Untouched` | log.c:214-233 | a block that was not logged still holds the file system as it is after the operation |
| `FileCrash.Installed` | log.c:70-82 | installing exactly the logged blocks brings the disk, bitmap, inodes and data, to the state after the operation |
| `FileCrash.TransactionCrash` | log.c:116-202 | any operation or group of operations that logs what it changes, committed with exactly the blocks it logged, cut anywhere and recovered with any cuts: the disk holds the file system as before, if the cut was before the header write, or as after |
| `FileCrash.FileOnIs` | fs.c:288-312 | the file a boot finds in an inode on disk is the file of the model |
| `FileCrash.FilesRecovered` | fs.c:288-312 | on a disk that holds the file system a boot finds every file with its contents |
| `FileCrash.CutAnywhere` | log.c:116-202 | so that after a cut transaction every file is as before or every file is as the transaction left it |
| `FileCrash.WriteCrash` | file.c:126-152 | a write of one transaction, committed with exactly the blocks writei logged, cut anywhere and recovered, leaves the old contents or the spliced ones, and all other files as they were; a chunk of filewrite's size always fits the log |
| `FileCrash.CreatedIs` | log.c:116-202 | all or nothing, read for the inode ialloc took and the parent: the one still free and the other with its old contents, or both as create left them |
| `FileCrash.NamedIs` | fs.c:288-312 | what a boot reads in the two directories: the old entries and no new inode, or the old entries with the name put and the dots in a new directory |
| `FileCrash.UnnamedIs` | fs.c:288-312 | the same for unlink: the old entries, or those with one unused |
| `FileCrash.CreateCrash` | sysfile.c:239-282 | create as one transaction, from ialloc on, cut anywhere and recovered: the first free inode is still free and the directory unchanged, or the inode has its type, link and dots and the directory reads as before with exactly the new name put for it |
| `FileCrash.UnlinkCrash` | sysfile.c:185-231 | and of unlink: the entry, counts and the freed file together or not at all; after recovery the directory reads as before, or with exactly that entry unused |
| `Mkfs.Image.constructor` | mkfs.c:93-117 | the zeroed image with its super block owns nothing |
| `Mkfs.Image.Ialloc` | mkfs.c:224-235 | the next inode number with one link |
| `Mkfs.ImageFree` | mkfs.c:224-235 | every inode that ialloc can take on the image has no blocks |
| `Mkfs.TakeNext` | mkfs.c:272-284 | taking the next free block for an empty slot keeps blocks owned once |
| `Mkfs.Image.Place` | mkfs.c:269-286 | the direct or indirect block that holds a file offset, found or made |
| `Mkfs.Image.AppendChunk` | mkfs.c:268-294 | one turn of iappend appends one piece to the file |
| `Mkfs.Image.Iappend` | mkfs.c:256-297 | the file grows by exactly the bytes given, every other file keeps its bytes, blocks stay owned once |
| `Mkfs.Image.Balloc` | mkfs.c:238-251 | the bitmap written last makes the image satisfy block ownership; the assertion fails exactly past one bitmap block |
| `Mkfs.Image.Mount` | mkfs.c:238-251 | the finished image is a sound start for the file system and for every run of its processes, also where the root ends in an unmapped block |
| `Mkfs.Image.FixRoot` | mkfs.c:158-163 | the rounding of the root directory's size keeps ownership |
| `Mkfs.RootMapped` | mkfs.c:158-163 | the rounded root directory is mapped up to its size if and only if its entries do not fill the last block |
| `Mkfs.RootAddrs` | mkfs.c:158-163 | its inode has a number for every block of it if and only if that holds or the next block falls under an indirect block that is there |
| `Mkfs.MissingBlock` | fs.c:373-380 | a number that bmap has put into an inode in memory only is a block the copy on disk does not refer to |
| `Mkfs.ScanRoot` | fs.c:533-535 | a lookup to the end of the booted root directory logs nothing if and only if the entries do not fill the last block, and what a reload of its inode then finds is sound if and only if the inode had a number for every block; panic only for that block with fewer than two blocks free |
| `Mkfs.MakeRoot` | mkfs.c:117-150 | entries appended one by one give a directory of their total size, at two blocks for each at most; with blocks enough it never fails |
| `Mkfs.LookupAfterBoot` | mkfs.c:117-163 | a run for any directory: mkfs, boot, lookup to the end; with the dots and thirty files the inodes on disk then miss a marked block; the run completes whenever the image has room for two blocks an entry and two more below the end of one bitmap block |
| `InodeCache.Find` | fs.c:242-272 | the entry in use for the inode, else the first free one |
| `InodeCache.IgetScan` | fs.c:247-259 | the loop of iget computes it |
| `InodeCache.UnsafeLookup` | fs.c:533-543 | a lookup of an inode that is free, or that an iput is about to free, breaks the invariant |
| `InodeCache.StepInv` | fs.c:194-352 | a step of iget, idup, ilock, iunlock, iput or ialloc by any process keeps the cache invariant if and only if it is not such a lookup; a lookup may name any inode |
| `InodeCache.RunInv` | fs.c:194-352 | the invariant holds in every state of an interleaved run if and only if no lookup in it was one of those |
| `InodeCache.RunCounted` | fs.c:242-352 | in every run, whatever the lookups: at most one entry in use per inode, exact reference counts and one holder of each lock |
| `InodeCache.CacheSafe` | fs.c:194-352 | in every run with safe lookups: the process that truncates an inode holds its only reference, ilock never finds a free inode, and a locked inode has been read since it was last allocated |
| `InodeCache.SecondReference` | fs.c:332-352 | a run: while iput is about to truncate an inode without links a lookup gets a second reference to it, and ilock of that panics once the inode is freed |
| `Directories.LinkInv` | sysfile.c:140-151 | a new entry and one more link for a file keep counts, unique names, the tree and everything else |
| `Directories.DropInv` | sysfile.c:218-228 | clearing an entry and one link less for a file keep them |
| `Directories.AddDirInv` | sysfile.c:269-278 | a new directory with its dots and the parent's extra link keep them |
| `Directories.EmptyOnce` | sysfile.c:169-181 | an empty directory is named by exactly one entry, and its ".." names that entry's directory |
| `Directories.DropDirLinks` | sysfile.c:211-228 | before it is removed an empty directory has exactly one link and its parent at least two |
| `Directories.DropDirInv` | sysfile.c:213-229 | removing it, with both counts decremented, keeps the invariant and leaves it without links |
| `Directories.SwapInv` | fs.c:332-352 | allocating an inode without links, or freeing one, keeps the invariant |
| `Links.Clip` | fs.c:609-614 | the longest prefix of a name that an entry holds |
| `Links.ElemsJoin` | fs.c:596-618 | the elements of two paths with a slash between them are those of the one and then those of the other |
| `Links.ElemsOne` | fs.c:596-618 | a name without slashes is one element, cut to DIRSIZ |
| `Links.Skipelem` | fs.c:596-618 | returns the first element and the rest of the path past its slashes, or none exactly when no element is left |
| `Links.HolderResolves` | fs.c:667-670 | the parent lookup is the resolution of all but the last element, and looking up the last element there is the resolution of the path |
| `Links.AbsolutePath` | fs.c:629-632 | what follows a leading slash is looked up from the root, whatever the current directory |
| `Links.JoinedPath` | fs.c:625-657 | p/q resolves to what q resolves to from where p does, or as p when that fails |
| `Links.PathOfEntry` | fs.c:625-657 | p/e is the entry e, cut to DIRSIZ, of the directory p |
| `Links.NoPanic` | fs.c:625-657 | walking from a linked directory never locks a free inode |
| `Links.EnteredFound` | fs.c:552-578 | once the entry is written, the path resolves to its inode |
| `Links.ClearedMissing` | sysfile.c:218-220 | once the entry is cleared, the path resolves to nothing |
| `Links.LinkExact` | sysfile.c:119-165 | link keeps the counts if and only if the parent is still linked and nlink does not wrap |
| `Links.OrphanDir` | sysfile.c:242-283 | a directory created in a removed directory breaks the counts |
| `Links.CreateExact` | sysfile.c:242-283 | create keeps the counts if and only if the parent is still linked and, for a directory, its nlink does not wrap |
| `Links.FileTree.constructor` | mkfs.c:117-163 | the root directory with any files and padding satisfies the invariant if and only if no name is given twice or is a dot name |
| `Links.ImageExact` | mkfs.c:130-163 | the tree mkfs makes is sound if and only if the names are distinct and not the dots |
| `Links.FileTree.Dirlookup` | fs.c:525-548 | the first live entry with the name |
| `Links.FileTree.Dirlink` | fs.c:552-578 | refuses exactly a name that exists, else fills the first free slot or appends; panics exactly when the directory is at the largest size or the disk lacks the blocks the entry needs |
| `Links.FileTree.Isdirempty` | sysfile.c:169-181 | true exactly when no entry past the dots is live |
| `Links.FileTree.Ialloc` | fs.c:195-214 | the first free inode, zeroed; panic exactly when there is none |
| `Links.FileTree.Namex` | fs.c:625-657 | from the root for a path that begins with a slash and otherwise from the current directory, the loop computes path resolution, or the holder of the last element and its name |
| `Links.FileTree.CreateIn` | sysfile.c:260-280 | the first free inode with its dots, link counts and entry; panic exactly without a free inode, room in the directory or enough free blocks |
| `Links.FileTree.Create` | sysfile.c:242-283 | every outcome by what the path resolves to, with the exact panics; a created path resolves to the new inode; no allocated inode changes its kind; counts kept exactly when stated |
| `Links.FileTree.Link` | sysfile.c:119-165 | every outcome by what the two paths resolve to, with the exact panics; success makes the new path resolve to the old inode; failure restores the count and everything else |
| `Links.FileTree.LinkAs` | sysfile.c:140-165 | the part of link from the count on, for the inode that the old path names |
| `Links.FileTree.Unlink` | sysfile.c:185-230 | keeps the invariant always; success removes exactly that entry and its links and the path no longer resolves; failure changes nothing |
| `Links.NamedLinks` | sysfile.c:211-212 | a named inode has a link, so the panic for nlink below one is unreachable |
| `Links.FileTree.Remove` | sysfile.c:213-230 | a directory with entries is refused, else entry and links go |
| `Links.FileTree.SysUnlink` | sysfile.c:185-239 | the inode is freed if and only if that was its last link and nobody refers to it; inodes somebody refers to stay; from a linked directory the path no longer resolves |
| `Links.FreedResolve` | fs.c:332-352 | freeing an inode without links is not seen from a linked directory |
| `Links.FileTree.Idup` | fs.c:276-283 | one reference more |
| `Links.FileTree.Iput` | fs.c:332-352 | an inode is freed if and only if it has no links and this was its last reference, and the invariant stays |
| `Links.CreateInRemoved` | sysfile.c:242-283 | a run: a file created in a removed current directory breaks the counts |
| `Links.MkdirInRemoved` | sysfile.c:269-278 | a run: a directory made there breaks them too |
| `Links.LinkInRemoved` | sysfile.c:119-165 | a run: a link made there leaves a file with a link too many |
| `Links.ParentGone` | fs.c:625-657 | a run in which the path ".." of a process names a freed inode |
| `Malloc.MergeTiles` | umalloc.c:33-42 | joining two adjacent blocks keeps the arena tiled |
| `Malloc.FreeDown` | umalloc.c:33-42 | both joins of free leave one sorted circular list, no two free blocks touching, and the block inside a free one |
| `Malloc.Allocator.constructor` | umalloc.c:21-22 | the empty heap before the first call, in memory the process has |
| `Malloc.Allocator.Search` | umalloc.c:30-32 | the search terminates at the highest free block below the one freed |
| `Malloc.Allocator.Free` | umalloc.c:25-44 | keeps the heap invariant and every other allocated block; the freed one is free |
| `Malloc.Allocator.Sbrk` | sysproc.c:46-57 | the break and the memory below it after growproc with a signed argument |
| `Malloc.AskedExact` | proc.c:223-239 | below 2^31 bytes growproc grants the whole request or nothing; from there on it grants nothing and may say it did |
| `Malloc.BackedExact` | umalloc.c:47-61 | after morecore the heap lies in memory the process has if and only if fewer than 2^31 bytes were asked for |
| `Malloc.SurvivesExactly` | umalloc.c:57-58 | the process outlives morecore if and only if fewer than 2^31 bytes are asked of sbrk or its last page has room for a header past the break |
| `Malloc.Allocator.Morecore` | umalloc.c:47-61 | when sbrk reports success its range joins the arena as free space, else nothing changes; the process dies exactly when the header of the new memory is not mapped or none of its memory is left |
| `Malloc.Allocator.Carve` | umalloc.c:75-85 | the block handed out is new, has the size asked for, and other blocks stay |
| `Malloc.Allocator.Find` | umalloc.c:74-89 | a free block that fits, or morecore called once, and that exactly when nothing fits; the process dies exactly in that call |
| `Malloc.Allocator.Malloc` | umalloc.c:64-90 | the process dies exactly when morecore asks for 2^31 bytes or more and its last page has no room for a header; if it lives, the returned block is disjoint from all allocated ones and large enough in units, failure is exactly when nothing fits and sbrk fails, and the block lies in the process's memory with room for the bytes if and only if the rounding does not wrap and fewer than 2^31 bytes were asked of sbrk |
| `Malloc.RoomForBytes` | umalloc.c:69-69 | the units of a block have room for the bytes if and only if the rounding does not wrap |
| `Malloc.HugeRequest` | umalloc.c:47-61 | a run: a request of 2^31 bytes on a new heap kills the process if and only if its break is page-aligned, and else returns a block that is not in memory |
| `SleepLock.StepKeeps` | sleeplock.c:23-42 | every instruction of acquiresleep, releasesleep, sleep and wakeup by any process keeps the invariant |
| `SleepLock.RunKeeps` | proc.c:568-651 | so does every interleaved run |
| `SleepLock.NoSleeperOnFreeLock` | sleeplock.c:23-42 | a sleeper with both spinlocks free finds the lock taken, and no two processes own it |
| `Pipe.Pipe.constructor` | pipe.c:23-45 | a new pipe is empty with both ends open |
| `Pipe.CounterDiff` | pipe.c:79-121 | the 32-bit counters compare like the numbers of bytes they stand for, past their wraparound |
| `Pipe.Pipe.Store` | pipe.c:93-93 | the ring holds one more undelivered byte |
| `Pipe.Pipe.Take` | pipe.c:116-116 | the byte taken is the oldest undelivered one |
| `Pipe.Pipe.Pipewrite` | pipe.c:79-98 | bytes go in order into a ring that never overflows; done exactly when there is room for them all, else an error exactly when the read end is closed or the writer was killed; a sleeping writer implies a full pipe with its read end open; no reader sleeps beside data afterwards, except exactly when readers slept, the writer was killed and more was left than the pipe holds |
| `Pipe.Pipe.Piperead` | pipe.c:101-121 | what is delivered is the next part of what was stored, as much as there is; it sleeps exactly on an empty pipe with its write end open, and fails exactly there when killed |
| `Pipe.Pipe.Pipeclose` | pipe.c:60-75 | whoever sleeps on the other end is woken; the pipe is freed exactly when both ends are closed |
| `Pipe.Pipe.Kill` | proc.c:657-676 | a killed sleeper leaves the sleepers and the invariants stay |
| `Pipe.StrandedReader` | pipe.c:85-90 | a run that leaves a reader asleep beside a pipe with data |
| `Ptable.Ptable.constructor` | proc.c:185-218 | the table with the first process satisfies the invariant |
| `Ptable.Ptable.Wakeup1` | proc.c:607-642 | exactly the processes asleep on the channel become runnable |
| `Ptable.ExitKeeps` | proc.c:358-400 | giving the children to init and waking both possible waiters keeps: no parent sleeps in wait beside a zombie child |
| `Ptable.Ptable.Exit` | proc.c:358-400 | the state exit leaves, with that invariant |
| `Ptable.ReapKeeps` | proc.c:415-432 | freeing a zombie's slot keeps parents, pids and the invariant |
| `Ptable.Ptable.Wait` | proc.c:405-444 | reaps exactly when there is a zombie child, fails exactly when killed or childless, else sleeps |
| `Ptable.Ptable.Allocslot` | proc.c:131-156 | the first unused slot becomes an embryo with a new pid, or none is free |
| `Ptable.Ptable.Abandon` | proc.c:158-162 | an embryo without a parent can be given back; unused slots stay unmarked if and only if it has not been killed |
| `Ptable.Ptable.SetParent` | proc.c:264-264 | an embryo may have a parent that runs, and the invariant of wait and exit stays |
| `Ptable.NeedMore` | vm.c:41-57 | pages to map cost themselves and a table for each directory entry without one, and one more if the last is the first under its entry |
| `Ptable.NotEnough` | proc.c:322-323 | when kalloc fails before the last page there were not enough pages for all |
| `Ptable.Ptable.CopyPages` | proc.c:321-337 | the copy of one area page by page, with the table that mappages takes, its ignored failure, the absent source page and the page mapped already |
| `Areas.FilledMore` | proc.c:289-307 | entering an area at the first unused place is entering it after those entered before |
| `Areas.ForkedEnter` | proc.c:282-307 | one turn of fork's loop enters the next area of the parent, with the child as its process, at the first unused place |
| `Areas.ForkedNext` | proc.c:282-307 | the areas entered so far are not taken for the parent's, whose own stay as they were |
| `Areas.ChildAreas` | proc.c:282-307 | after a whole fork all areas in use stay, every other process has what it had, and the child has the parent's areas besides its own; exactly those and in order if and only if it had none |
| `Ptable.Ptable.EnterArea` | proc.c:289-307 | the first unused area becomes the parent's area with the child as its process and nothing else changes; it fails exactly when no area is unused |
| `Ptable.Ptable.NextArea` | proc.c:282-307 | one turn of fork's loop on the table of areas; it fails only when there are not enough for all |
| `Ptable.Ptable.CopyAreas` | proc.c:282-341 | all areas are copied if and only if there are free areas, every source page is present, no page is mapped already, and there are pages for the copies and their tables, or all but the last table; then exactly the pages are mapped, or all but the last, and the table of areas is the old one with all the parent's areas entered for the child; otherwise with some first ones |
| `Ptable.Ptable.Publish` | proc.c:345-349 | an embryo with a parent may run |
| `Ptable.Ptable.Fork` | proc.c:245-352 | every outcome: a runnable child with a new pid exactly under that condition, with all its pages exactly if the last table was there too; refused with all slots as before without a slot, stack or memory; an embryo child left for good when areas or pages run out; the parent gone, and the embryo init's, when a source page is absent; the table of areas gets all the parent's areas for a child that runs, some of them when the areas fail, and none otherwise |
| `Ptable.TableTakesLast` | proc.c:321-337 | a run: two mapped pages and two free ones, fork returns 0 and leaves an embryo |
| `Ptable.UnmappedChild` | proc.c:336-336 | a run: one mapped page and one free one, the child runs without the page |
| `Ptable.ExitInFork` | proc.c:326-329 | a run: two pages mapped lazily and one of them touched, the parent exits inside fork |
| `Ptable.LeakedChild` | proc.c:293-297 | a run in which a failed fork leaves an embryo and its parent sleeps in wait for it |
| `ForkSpace.Prepare` | proc.c:245-263 | the kernel stack and the copy of user memory, or every page back in its place |
| `ForkSpace.MapTaken` | proc.c:336-336 | mappages of the page copied: mapped with the parent's contents, lost without a table, or the remap panic |
| `ForkSpace.CountedOne` | vm.c:36-57 | the real page tables and free list change as the counts of pages and tables say |
| `ForkSpace.CopyOne` | proc.c:321-336 | one page of an area on real page tables, with every page accounted for |
| `ForkSpace.CopyAreas` | proc.c:282-341 | all areas are copied, with equal contents, if and only if areas, source pages, fresh targets and free pages suffice, and then they are entered for the child; at most one page belongs to nobody after, and after a complete copy exactly when the last table was missing |
| `ForkSpace.Fork` | proc.c:245-352 | fork on process table, page tables and free list: without a slot, stack or memory every page is back; else stack and space are there, the outcome follows the areas, which a child that runs has all been given, other spaces are untouched, and the one page that may be lost is told |
| `ForkSpace.ChildFinds` | proc.c:1064-1070 | after a whole fork munmap by the child finds an area at every address at which one by the parent does, the copy of that one and nothing else if the child had no areas; the parent finds what it found |
| `Ptable.Ptable.Kill` | proc.c:657-676 | marks the slot in use with the pid and wakes it; unused slots stay unmarked if and only if some slot in use has the pid or no slot has it |
| `Ptable.BornKilled` | proc.c:657-676 | a run: kill(0), then a fork whose child is born killed |
| `Ptable.InheritedKill` | proc.c:158-162 | a run: a fork killed while embryo and given up, then a fork whose child is born killed |
| `Ptable.Step` | proc.c:131-676 | no step from a table without marked unused slots gives a process that is born killed, and such a slot is left if and only if the step is a kill that hits only an unused slot or a fork given up in a killed one |
| `Ptable.Run` | proc.c:131-676 | over any interleaving from such a table no unused slot is ever marked if and only if no step was of those two kinds, and then no process is born killed |
| `Ptable.MarkIsInherited` | proc.c:137-145 | with a marked unused slot further forks do give a process born killed |
| `Ptable.Ptable.Pick` | proc.c:455-504 | the first runnable process with the least overflow and virtual run time |
| `Ptable.Ptable.Move` | proc.c:534-602 | running, yielding and sleeping on other channels keep the invariant |
| `ShellGrammar.WrapApplies` | sh.c:375-397 | redirections are applied in the order written, the first innermost |
| `ShellGrammar.PlainParses` | sh.c:416-446 | arguments with redirections at any places between them parse to the command with all the arguments and all the redirections, in order |
| `ShellGrammar.SimpleParses` | sh.c:400-446 | so does a line in parentheses followed by redirections |
| `ShellGrammar.PipeParses` | sh.c:362-372 | simple commands between bars parse to a pipeline nested to the right |
| `ShellGrammar.LineParses` | sh.c:345-359 | pipelines with ampersands, between semicolons, parse to the list of them nested to the right, each in the background as often as it has ampersands |
| `ShellGrammar.LineSyntax` | sh.c:345-446 | whatever the parser accepts is such a line, and the tree is its meaning |
| `ShellGrammar.ParsedExactly` | sh.c:328-446 | tokens parse to a tree if and only if they are the text of a line of the grammar with that tree and at most 9 arguments per command |
| `ShellGrammar.LineForm` | sh.c:345-446 | every tree has a line that means it |
| `ShellGrammar.ParsePrint` | sh.c:345-446 | that line followed by nothing or a closing parenthesis parses to the tree |
| `ShellGrammar.RoundTrip` | sh.c:328-446 | parsing the printing of any tree with at most 9 arguments per command returns the tree |
| `ShellGrammar.LineShortest` | sh.c:345-446 | no line with the same tree is shorter than the printing, so that none of its parentheses can be left out |
| `ShellParser.LexWords` | sh.c:266-308 | every word token is a maximal run of word characters |
| `ShellParser.LineParse` | sh.c:345-446 | parsing token positions and then reading their text is parsing the text of the tokens |
| `ShellParser.LexRender` | sh.c:266-308 | tokens written out with any white space, or none, between them are read back if and only if two words, or '>' and a token that starts with it, are never written together |
| `ShellParser.Parser.Peek` | sh.c:311-320 | looks at the first unread token without reading it |
| `ShellParser.Parser.Gettoken` | sh.c:266-308 | reads exactly the next token and returns its code and position, or 0 at the end |
| `ShellParser.Parser.Parseredirs` | sh.c:375-397 | reads the redirections the grammar gives and panics exactly when the grammar does |
| `ShellParser.Parser.Parseexec` | sh.c:416-446 | computes the simple command with all its arguments and redirections, or the block, that ShellGrammar.SimpleParses and ShellGrammar.LineSyntax characterise |
| `ShellParser.Parser.Parseblock` | sh.c:400-413 | computes the grammar's block; panics without an opening parenthesis |
| `ShellParser.Parser.Parsepipe` | sh.c:362-372 | computes the grammar's pipeline |
| `ShellParser.Parser.Parseline` | sh.c:345-359 | computes the grammar's line; the mutual recursion terminates |
| `ShellParser.WordsEnded` | sh.c:450-493 | after the NULs are stored every word of the tree reads as its token's text |
| `ShellParser.Nulterminate` | sh.c:450-493 | stores NULs at exactly the ends of the words of the tree |
| `ShellParser.Parsecmd` | sh.c:328-342 | accepts exactly the lines whose tokens are a line of the grammar, and returns the tree the grammar gives it, each word's C string being its text; otherwise it panics with the line unchanged |
| `ShellParser.ParseRendered` | sh.c:328-342 | a line of the grammar written with any white space that keeps its tokens apart parses to its tree |
| `ShellParser.PrintRendered` | sh.c:328-342 | so does the shortest line for a command, to that command |
| `Grep.HereStar` | grep.c:85-96 | the meaning of a starred head is some run of the character and then the rest |
| `Grep.HereOne` | grep.c:85-96 | the meaning of a plain head is one character and then the rest |
| `Grep.HereEnd` | grep.c:85-96 | a final dollar means the end of the text |
| `Grep.Match` | grep.c:73-82 | true exactly when some suffix of the text, or the whole text after a caret, matches the declarative meaning |
| `Grep.Matchhere` | grep.c:85-96 | true exactly when some beginning of the text can be cut into pieces that fit the pattern |
| `Grep.Matchstar` | grep.c:99-106 | true exactly when some run of the character is followed by a match |
| `Pages.AddTableOwned` | vm.c:45-53 | a free page becomes a page table owned by its directory entry and no mapping changes |
| `Pages.SetPteViews` | vm.c:73-73 | writing one table entry changes the mapping of one page of one address space |
| `Pages.MapOwned` | vm.c:61-80 | the entry that maps a page in hand becomes its only owner |
| `Pages.KernelOwned` | vm.c:105-136 | a kernel entry owns nothing and disturbs no ownership |
| `Pages.UnmapOwned` | vm.c:269-276 | clearing an entry returns its page, which no other entry maps, to the free list |
| `Pages.DropTableOwned` | vm.c:291-296 | freeing a table takes away exactly its mappings |
| `Spaces.OnlyViews` | vm.c:35-80 | an operation on one address space leaves the mappings of all others |
| `Spaces.SkipTable` | vm.c:267-268 | skipping to the next directory entry passes no mapping |
| `Spaces.LowGone` | vm.c:284-290 | unmapping from 0 to KERNBASE frees exactly the user pages below it |
| `Spaces.Freed` | vm.c:284-298 | what is left after freevm is exactly what did not belong to the space |
| `Spaces.Restored` | vm.c:342-344 | taking away a space made since some state gives that state back |
| `Spaces.UndoneExact` | vm.c:233-247 | unmapping a range leaves the old mappings if and only if the range had none |
| `PageTables.Vm.constructor` | kalloc.c:48-54 | freerange puts each page of the range on the free list once |
| `PageTables.Vm.Kalloc` | kalloc.c:84-96 | the head of the free list, or 0 when it is empty |
| `PageTables.Vm.Kfree` | kalloc.c:61-78 | the page goes to the head of the list and its contents are gone |
| `PageTables.Vm.Walkpgdir` | vm.c:36-55 | finds the table of a page, or makes an empty one without changing any mapping; fails exactly when there is none and none can be made |
| `PageTables.Vm.MapOne` | vm.c:69-73 | one turn maps one absent page; it takes a free page only for a missing table, fails only without one, and panics only at a page already mapped |
| `PageTables.Vm.Mappages` | vm.c:61-80 | maps absent pages to consecutive frames and nothing else, with at most one new table per directory entry; what is mapped when memory runs out; panic only at a page already mapped; for one page exactly what it takes and exactly when each happens |
| `PageTables.Vm.UnmapPage` | vm.c:269-276 | the page is freed and its entry cleared, with ownership kept |
| `PageTables.Vm.Deallocuvm` | vm.c:256-279 | exactly the pages between the sizes are unmapped and freed, across the page-directory skip |
| `PageTables.Vm.FreeTable` | vm.c:291-296 | one turn of the loop over the directory keeps ownership with that entry disregarded |
| `PageTables.Vm.Freevm` | vm.c:284-298 | directory, tables and pages of the space are free again, except pages mapped for the user from KERNBASE up |
| `Spaces.RegionStep` | vm.c:105-115 | the tables each of the four regions needs, 68 at most in all |
| `PageTables.Vm.MapKernel` | vm.c:129-134 | the four regions do not overlap and together are the kernel's map; fails only with at most 68 free pages |
| `PageTables.Vm.Setupkvm` | vm.c:119-136 | a new space with exactly the kernel's map, or everything as before, and that only with at most 69 free pages |
| `PageTables.Vm.GrowOne` | vm.c:233-247 | one turn adds one zeroed page at the cost of at most two free pages, or undoes all turns |
| `PageTables.Vm.Allocuvm` | vm.c:222-249 | zeroed pages exactly between the sizes; when memory runs out, possible only with at most two free pages for each one asked for, the whole range is unmapped, which gives the old mappings back if and only if it had none; panic only at a page already mapped |
| `PageTables.Vm.CopyPage` | vm.c:332-338 | one page copied, or the whole new space given back |
| `PageTables.Vm.Copyuvm` | vm.c:316-345 | equal contents and permissions on pages of its own, the parent untouched; without memory, possible only with at most 69 free pages and two more for each one copied, every page is where it was; panic only at an absent page |
| `PageTables.Vm.BuildAndFree` | vm.c:119-298 | a space set up, grown to any size and freed leaves every page where it was, whatever runs out on the way |
| `Mmap.Mmaps.Clear` | proc.c:896-909 | the overlap test over all live areas |
| `Mmap.ApartExact` | proc.c:896-909 | for areas that do not wrap the kernel's test holds if and only if they share no address |
| `Mmap.WrappedApart` | proc.c:896-909 | an area that wraps passes the test against any area from its start on, also one it overlaps |
| `Mmap.Mmaps.PopulateOne` | proc.c:956-967 | one page allocated, filled and mapped; fails only with at most two free pages, and then maps nothing |
| `Mmap.Mmaps.Populate` | proc.c:946-991 | the whole range gets new pages with the given contents and permissions, and had none before; out of memory a first part of it is left so |
| `Mmap.PopulatedAs` | proc.c:946-991 | the pages of a populated area are user pages, writable if and only if prot has PROT_WRITE, zero for an anonymous one and the pages of the file otherwise |
| `Mmap.Mmaps.Mmap` | proc.c:836-994 | refused exactly for bad arguments, an area in the way or no slot, and then nothing changes; an accepted call records the area in the first unused slot and, when populating, fills exactly its range; one that runs out of memory leaves the area recorded with status -1 and the first pages mapped; the remap panic only when populating a range with a page |
| `Mmap.Mmaps.UnmapAt` | proc.c:1082-1092 | one turn frees the page at an address, skips an absent one, and stops at a missing table or a kernel page |
| `Mmap.Mmaps.UnmapArea` | proc.c:1082-1092 | exactly the range, which may wrap around, is unmapped and freed; fails only at a missing table or a kernel page in it |
| `Mmap.Mmaps.Munmap` | proc.c:1056-1097 | acts on the first live area with that address and process, whatever its range, and fails exactly when stated |
| `Mmap.PicksFirst` | proc.c:1064-1070 | munmap picks the new area unless an earlier live one has its address |
| `Mmap.Mmaps.MapUnmap` | proc.c:836-1097 | after a populated mmap and munmap of the result all mappings, data pages and areas are back, if and only if no earlier area of the process has that address |
| `Mmap.OrdinaryPicks` | proc.c:896-909 | with areas of positive length that never is the case |
| `Mmap.StaleArea` | proc.c:896-909 | an area of negative length is in the way of no later one by the kernel's test, and is found by its address |
| `Mmap.StaleUnmap` | proc.c:1064-1097 | a run: mmap of a negative length, mmap of a page, munmap: the page stays mapped |
| `Mmap.FailedMmap` | proc.c:946-1077 | a run: mmap of more pages than are free fails, munmap of it succeeds, and its pages stay mapped |
| `Mmap.LeakAboveKernbase` | vm.c:284-298 | a run: a page mapped above KERNBASE and a freevm that loses it |

## Left out

- Boot, interrupts, segment and device code, and the assembly files: hardware effects without an abstract property.
- Spinlocks: acquire and release are atomic; critical sections are single steps or single methods.
- Dirents.EntriesPut: inode numbers are stored in sixteen bits and taken modulo 2^16; Links has them unbounded.
- Links.FileTree.Namex: one device, no locking; two path walks do not interleave.
- Links.FileTree.Unlink: ends before the final iput, which SysUnlink adds.
- Links.FileTree.Dirlink: the number of free disk blocks is a parameter, and the directory is taken to be mapped up to its size.
- Log.Log.Bread: bget and the read from disk are one step; a reader between the two is not modelled.
- Log.Log.EndOp: the commit of an empty log, which does nothing, is skipped.
- LogRuns.Run: the log area has at most NBUF blocks, as mkfs makes it, and only home blocks are read by processes.
- SavedRuns.DisciplinedSound: that the code keeps the discipline is FileSystem.Fs.Writei and FileSystem.Fs.Itrunc, for mapped files; Mkfs.ScanRoot shows the one image whose root does not. Between freeing an indirect block and forgetting its number only the numbers in the copies are claimed equal (SavedRuns.TableReused).
- FileCrash.WriteCrash: for a file mapped up to its size, as mkfs leaves every file but a full root directory and Writei keeps it; no other inode is changed in memory meanwhile. Transactions of several operations are FileCrash.TransactionCrash.
- OpLog.UnlinkWrites: the lookups before the writes are not part of it or of CreateWrites; in a mapped directory they log nothing (FileSystem.Fs.Readi). That a truncation alone can pass MAXOPBLOCKS, and exactly when, is FileSystem.TruncExact.
- FileSystem.Fs.Readi: device files (T_DEV) are not modelled, here and in Writei.
- FileSystem.Fs.Writei: the bound of MAXOPBLOCKS is for a file mapped up to its size; for one with a hole inside it, like mkfs's full root directory, none is claimed.
- InodeCache.CacheSafe: safety only; two concurrent iputs may both see two references, so that the last put frees is not a property of this code.
- Malloc.Allocator.Malloc: whether allocuvm finds its pages is a parameter, and nobody else moves the break; addresses do not wrap, so a block past memory that is long enough for its end to wrap onto the first list node is not told from others past memory.
- Pipe.Pipe.Pipewrite: sleep and wakeup are atomic here; their instructions are the subject of SleepLock.
- Ptable.Ptable.Pick: virtual run times are given; the floating-point arithmetic that computes them is not modelled.
- Ptable.Ptable.Fork: whether the stack and the copy of memory are found is a parameter, which ForkSpace.Fork replaces by the kernel's memory; open files are left out, and pids do not wrap around; a source page that is absent is taken to lie in no other, merely recorded area of the parent.
- ForkSpace.Fork: that memory runs out for the copy is bounded by the pages it needs at most, not exact.
- ShellParser.Parser.Parseexec: redirections of a simple command are collected and wrapped around it when its arguments are complete, where the C code fills in the node it has already wrapped.
- Mmap.Mmaps.Mmap: what reading the file gives and whether the file arguments pass their checks are parameters.
- Lazy mmap faults, the file and offset of an area, and the areas of a process that exits.
- PageTables.Vm.Mappages: sizes of zero and ranges past the top of the address space, which no caller asks for.
- copyout, loaduvm, the file table, exec, and system call arguments: would only add easy members.
- The runtime of the shell (running commands) and grep's input buffering.
