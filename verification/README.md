# A model of parts of an OS/161 kernel

The kernel in `os161/src/kern` is a small Unix-like kernel in C. This project models the parts of it
whose correctness rests on invariants rather than on any one function, and proves those invariants.

* **SFS**, the on-disk file system: `Bitmap.dfy`, `Uio.dfy` and the `Sfs*.dfy` files. The disk is a
  sequence of 512-byte blocks; a volume in memory is an object with a free map, a table of cached
  inodes and dirty flags, changed in place by methods that follow the C functions branch by branch.
  `SfsState.View` is its value: disk, marked blocks, cached inodes. Files are abstracted to their raw
  contents, a byte for every position (0 where nothing is mapped), with the size beside it; the root
  directory is abstracted to a map from names to inode numbers. The invariant `SfsFs.Valid` says who
  owns each block and that clean caches agree with the disk; `NameSpace` says that names are unique
  and that every link count is the number of entries. `SfsDir.Ordered` joins both with a cached root
  directory. It holds once an empty volume has been mounted and its root directory loaded
  (`SfsRoot.MountEmpty`), and after any sequence of operations by programs that open and close files
  (`SfsSession.Serve`), together with this: exactly the root directory and the open files are in
  memory, each with as many references as it has been opened. Both invariants survive the loss of the
  root directory's vnode (`SfsRoot.ReleaseRoot`). `SfsAbstract.Files` is the same volume as programs see
  it: names, bytes and handles, no blocks, inodes or caches. `SfsAbstract.After` says what each operation
  does to that, and `SfsSession.Serve` that any sequence of operations does just this, answers included.
  `SfsFormat.dfy` says what is on the disk byte by byte.
* **The kernel heap**: `Kheap*.dfy`. Free lists live inside the free blocks, in a memory that the
  owners of blocks write to as well. `Inv` is what holds whenever the heap's spinlock is free. A
  `KheapClaims.Claim` is what threads rely on: pages and descriptors in hand, blocks and whole pages handed
  out. Where the code drops the spinlock, the method `OtherThreads` stands for whatever other threads
  do to the heap: anything that keeps `Inv` and respects the claims of the thread at work and of
  bystanders. What is relied on is what is guaranteed: kmalloc, kfree and writes to blocks are
  proved to respect every claim that does not include what they are given, and the lemmas of
  `KheapClaims` say so of each stretch of code under the spinlock.
* **Threads and synchronisation**: `Semaphore.dfy`, `LockCv.dfy` and `Scheduler.dfy` are state
  machines whose steps are what a thread or a cpu does under one spinlock; steps interleave in any
  order, and the invariants are proved for all runs. `SemaphoreLaws.dfy` and `LockCvLaws.dfy` say what a
  caller can rely on when an operation returns, and `SchedulerOrder.dfy` in which order threads get their
  turn; `Fifo.dfy` has what these have in common. `Migration.dfy`, `ThreadList.dfy` and `Spl.dfy` are
  the imperative code: load balancing between run queues, the doubly linked thread list, and
  interrupt levels and spinlocks, where each method is a step of one cpu. While the load balancer
  holds no run queue's lock, `OtherCpus` stands for the other cpus; it guarantees to them what it
  relies on.
* **The deadlock detector**: `Hangman.dfy`. Its walk terminates, and is exact, because every operation
  before it kept the graph acyclic; a ghost rank that falls along every edge carries that.
* **Passing arguments to a new program**: `ExecArgs.dfy`, a two-pass serializer with relocation,
  against a reader that follows the pointers as the new program does.

Run `dafny verify dfyconfig.toml` to check everything.

## Where the code does less than it should

* Truncation to a length whose last block lies in the indirect area keeps one block too many: the
  comparison in `fs/sfs/sfs_bmap.c:266` is off by one. Lengths from 2^32 on are cut off to 32 bits.
  `SfsBmap.Itrunc` states what the code does, `SfsBmap.TruncationReachesTheEnd` says exactly when that is
  what was asked for, and `SfsCases.TruncationFallsShort` gives a volume where it is not.
* A block number within a file is kept in 32 bits, so offsets from 2^41 on wrap around to the
  beginning of the file. `SfsIo.WriteLandsWhereAsked` is the exact condition, and
  `SfsCases.WriteGoesAstray` a write that is lost that way.
* `uiomove` with a request beyond `uio_resid` is exact only if the residue ends at an iovec boundary
  (`Uios.Uio.Move`, and `Uios.NotAlwaysFits` for a case); the set-up rules of the kernel imply that
  (`Uios.DocumentedSetupFits`).
* `allocpageref` marks a descriptor before it knows that there is a page for it, and leaves it marked
  if there is none. After 256 such failures `freepageref` can trip over its own assertion.
  `Kheap.KernelHeap.Kfree` says exactly when, `KheapLeak.MissingMeansLeaked` why, and
  `KheapLeak.AssertionCanFail` derives a heap where it happens from the empty one.
* A request for more than 2^32 - 4096 bytes makes `kmalloc` ask for no pages at all, because rounding
  the size up overflows, and return whatever address that yields; `Kheap.KernelHeap.Kmalloc` gives every
  other request all the pages that it needs.
* `copy_args` does not check that all arguments together fit into its buffer, and `align_arg` skips the
  byte after the terminator and writes one beyond the padding. `ExecArgs.Buffers.CopyArgs` says
  exactly which arguments are laid out without leaving the buffers, and `ExecArgs.NotAlwaysFits` gives
  one that copyinstr accepts and that is not.

Two panics that look reachable are proved not to be: the recovery code of `sfs_rename` for a failing
`sfs_dir_unlink`, and the many checks in SFS for blocks that are marked free.

## Model

| member | source | states |
|---|---|---|
| Bitmaps.Bitmap.constructor | os161/src/kern/lib/bitmap.c:57-90 | a new map has every number below nbits free, and exactly the left-over bits of its last byte set |
| Bitmaps.Bitmap.Alloc | os161/src/kern/lib/bitmap.c:99-121 | hands out the least free number below nbits and marks it, nothing else; reports no space exactly when all are marked, changing nothing |
| Bitmaps.Bitmap.Mark | os161/src/kern/lib/bitmap.c:135-145 | the set of marked numbers gains exactly the index |
| Bitmaps.Bitmap.Unmark | os161/src/kern/lib/bitmap.c:148-158 | the set of marked numbers loses exactly the index |
| Bitmaps.Bitmap.IsSet | os161/src/kern/lib/bitmap.c:162-169 | true exactly for marked numbers |
| Bitmaps.FirstFree | os161/src/kern/lib/bitmap.c:99-121 | the first clear bit of the first byte that is not full is the least number not in the set, and setting that bit in its byte adds that number and no other |
| Uios.Uio.Move | os161/src/kern/lib/uio.c:42-120 | moves exactly min(n, uio_resid) bytes, in order across the iovecs, and advances resid, offset and the address list by that much, if and only if there is buffer space for them and either n is within the residue or the residue ends at an iovec boundary; always terminates |
| Uios.Uio.MoveZeros | os161/src/kern/lib/uio.c:123-146 | moves exactly min(n, uio_resid) zero bytes if and only if there is buffer space for them and either n is within the residue, or the residue is a multiple of 16, the size of the pieces, or ends at an iovec boundary |
| Uios.DocumentedSetupFits | os161/src/kern/lib/uio.c:42-120 | a residue equal to the sum of the iovec lengths always satisfies that condition, for any n |
| Uios.NotAlwaysFits | os161/src/kern/lib/uio.c:42-120 | with two buffers of ten bytes, a residue of 12 and a request for 16, both fail to be exact |
| Uios.ScatterTwice | os161/src/kern/lib/uio.c:60-117 | two transfers one after the other are one transfer of the concatenation, also where iovecs overlap |
| SfsLayout.InodeRoundTrip | os161/src/kern/include/kern/sfs.h:83-90 | an inode written to its block and read back is the same inode |
| SfsFormat.InodeBytes | os161/src/kern/include/kern/sfs.h:83-90 | in every block: size in bytes 0 to 3, type in 4 and 5, link count in 6 and 7, direct block k from byte 8 + 4k, indirect block from byte 68, most significant byte first |
| SfsFormat.InodeWritten | os161/src/kern/include/kern/sfs.h:83-90 | an inode is written to those bytes |
| SfsFormat.SlotBytes | os161/src/kern/fs/sfs/sfs_bmap.c:75-197 | the bytes on disk from which the number of the block behind block k of a file is read, directly or in the indirect block |
| SfsFormat.DirentBytes | os161/src/kern/include/kern/sfs.h:95-98 | in every 64 bytes: inode number in bytes 0 to 3, then the name, up to its first zero byte or the last byte but one |
| SfsFormat.DirentWritten | os161/src/kern/include/kern/sfs.h:95-98 | an entry is written to those bytes, with zeros behind the name |
| SfsFormat.EntryBytes | os161/src/kern/fs/sfs/sfs_dir.c:50-76 | entry s of the directory is in block s / 8 of it, from byte 64 (s % 8) on |
| SfsFormat.SuperBytes | os161/src/kern/include/kern/sfs.h:73-78 | a superblock begins with ab ad f0 01 and the number of blocks, in four bytes each |
| SfsFormat.FreemapBits | os161/src/kern/fs/sfs/sfs_fsops.c:70-105 | whether a block is marked is one bit: block 2 + k / 4096 of the disk, byte k % 4096 / 8, bit k % 8 from the least significant |
| SfsFormat.EightBlocksEmpty | os161/src/kern/include/kern/sfs.h:73-98 | a disk of eight blocks, written out byte by byte, is an empty volume |
| SfsLayout.WordsRoundTrip | os161/src/kern/fs/sfs/sfs_bmap.c:118-182 | an indirect block written from its array of block numbers and read back gives the array |
| SfsState.NoTwoOwners | os161/src/kern/fs/sfs/sfs_balloc.c:58-88 | in a consistent volume no block has two owners among superblock, free map, inodes, indirect blocks and data slots; every owned block is on the volume; and the marked blocks of the volume are exactly the owned ones |
| SfsState.FileBlocksOwned | os161/src/kern/fs/sfs/sfs_bmap.c:75-197 | every block that an inode points to, directly or through its indirect block, is recorded as its own |
| SfsSteps.OneMoreOwner | os161/src/kern/fs/sfs/sfs_balloc.c:58-79 | giving a free block to an owner that has none keeps the bookkeeping |
| SfsSteps.FewerOwners | os161/src/kern/fs/sfs/sfs_balloc.c:85-89 | taking blocks from their owners and unmarking exactly them keeps it |
| SfsSteps.CutSlots | os161/src/kern/fs/sfs/sfs_bmap.c:203-302 | unmapping any set of slots of a file and unmarking their blocks keeps the bookkeeping, every other file, and every kept block of this one |
| SfsSteps.Birth | os161/src/kern/fs/sfs/sfs_inode.c:262-286 | a fresh block as the inode of a new file keeps the bookkeeping and all other files |
| SfsSteps.Death | os161/src/kern/fs/sfs/sfs_inode.c:97-115 | so does freeing the block of an inode that maps nothing |
| SfsBalloc.Balloc | os161/src/kern/fs/sfs/sfs_balloc.c:58-79 | takes the least free block of the volume, marks it and zeroes it on disk; fails, changing nothing, exactly when all blocks are marked; never block 0, never beyond the volume |
| SfsBalloc.Bfree | os161/src/kern/fs/sfs/sfs_balloc.c:85-89 | unmarks exactly the block |
| SfsBalloc.Bused | os161/src/kern/fs/sfs/sfs_balloc.c:95-102 | tells whether a block of the volume is marked |
| SfsBmap.MappedIsMarked | os161/src/kern/fs/sfs/sfs_bmap.c:75-197 | every block that a loaded file maps is below the number of blocks and marked, so the panics about invalid and free blocks cannot fire |
| SfsBmap.Bmap | os161/src/kern/fs/sfs/sfs_bmap.c:48-198 | returns the block behind a file block, allocating it and the indirect block on demand; refuses exactly file blocks from 143 on; fails for space exactly when fewer blocks are free than that takes: none for a mapped block, else one, or two without an indirect block to record it in; keeps the contents of every file, and everything if nothing had to be allocated |
| SfsBmap.Itrunc | os161/src/kern/fs/sfs/sfs_bmap.c:203-302 | unmaps exactly the direct slots from blocklen on and the indirect slots beyond blocklen, unmarks exactly the blocks it unmapped and the indirect block if nothing is left in it, keeps all kept blocks and all other files, and sets the size in 32 bits |
| SfsBmap.TruncationReachesTheEnd | os161/src/kern/fs/sfs/sfs_bmap.c:206-302 | the file ends up len bytes long, with no block from len on and all others kept, if and only if len has 32 bits and the first block to go is a direct one or not mapped: the test at line 266 is off by one |
| SfsCases.TruncationFallsShort | os161/src/kern/fs/sfs/sfs_bmap.c:266-266 | on a consistent volume, a file of 16 blocks that is truncated to 15 keeps block 15 |
| SfsCases.SmallIsConsistent | os161/src/kern/fs/sfs/sfs_bmap.c:75-197 | that volume obeys the rules of ownership and of names |
| SfsInode.TruncateAll | os161/src/kern/fs/sfs/sfs_bmap.c:203-302 | truncating to length 0 cuts every mapped slot and drops the indirect block |
| SfsIo.PartialIo | os161/src/kern/fs/sfs/sfs_io.c:149-221 | moves a piece of one block between file and caller: on success exactly those bytes and no other file change, on failure nothing; fails for space exactly when a write needs more free blocks than there are, and otherwise takes exactly those |
| SfsIo.BlockIo | os161/src/kern/fs/sfs/sfs_io.c:227-286 | the same for a whole aligned block, with uio_offset and uio_resid restored after the device transfer |
| SfsIo.ReadRegion | os161/src/kern/fs/sfs/sfs_io.c:291-389 | a read returns exactly raw[off .. min(off + resid, size)) and changes nothing; it fails exactly when that goes beyond the largest file, having returned what is before its end |
| SfsIo.WriteRegion | os161/src/kern/fs/sfs/sfs_io.c:291-389 | a write changes raw exactly on the n bytes moved, where n is the drop in uio_resid, the whole request on success and a prefix on failure; it fails with ENOSPC exactly when the blocks it touches need more free blocks than the volume has, at the first one that cannot be had, else with EFBIG exactly when it touches blocks from 143 on; size becomes max(size, off + n) in 32 bits when n > 0; no other file changes |
| SfsSpace.NeedNext | os161/src/kern/fs/sfs/sfs_bmap.c:48-198 | what blocks a to k of a file need, and what block k needs once those are mapped, is what blocks a to k + 1 need |
| SfsSpace.SpentNext | os161/src/kern/fs/sfs/sfs_io.c:330-375 | mapping the blocks one after the other takes exactly the sum of it |
| SfsIo.Io | os161/src/kern/fs/sfs/sfs_io.c:291-389 | both of these as one operation |
| SfsIo.WriteLandsWhereAsked | os161/src/kern/fs/sfs/sfs_io.c:176-179 | a write that changes something lands at the position asked for if and only if that is below 2^41, since block numbers within a file are kept in 32 bits |
| SfsCases.WriteGoesAstray | os161/src/kern/fs/sfs/sfs_io.c:176-179 | on a consistent volume, any successful write of a byte at offset 2^41 puts it at offset 0 and not where it was to go |
| SfsIo.MetaRead | os161/src/kern/fs/sfs/sfs_io.c:405-480 | reads part of one block of a file, zeros where nothing is mapped |
| SfsIo.MetaWrite | os161/src/kern/fs/sfs/sfs_io.c:405-480 | replaces part of one block of a file, growing it if need be; fails for space exactly when fewer blocks are free than that takes, so never where a block is mapped already |
| SfsFiles.TransferredTwice | os161/src/kern/fs/sfs/sfs_io.c:330-375 | two adjacent transfers to or from a file are one transfer |
| SfsFiles.BlockWritten | os161/src/kern/fs/sfs/sfs_io.c:205-214 | splicing bytes into one block of a file is replacing those positions of its raw contents |
| SfsInode.LoadVnode | os161/src/kern/fs/sfs/sfs_inode.c:149-256 | returns the one vnode of an inode, with one more reference if it was loaded, else read from its block with the type forced if asked; no file changes; its panics cannot fire |
| SfsInode.SyncInode | os161/src/kern/fs/sfs/sfs_inode.c:46-61 | afterwards the inode is clean and its block is its encoding; no file changes |
| SfsInode.MakeObj | os161/src/kern/fs/sfs/sfs_inode.c:261-286 | a new object gets the least free block as its inode, is empty, of the given type, with no links and one reference; which error comes when; on failure no block is marked and no file changed |
| SfsInode.Reclaim | os161/src/kern/fs/sfs/sfs_inode.c:68-143 | refuses a vnode picked up again; otherwise takes it out of memory, and if it has no links frees exactly its own blocks and forgets the inode |
| SfsInode.Erase | os161/src/kern/fs/sfs/sfs_inode.c:97-143 | a file without links loses all its blocks and only those |
| SfsInode.Decref | os161/src/kern/vfs/vnode.c:69-87 | drops one of several references, or reclaims on the last |
| SfsInode.Incref | os161/src/kern/vfs/vnode.c:54-61 | one reference more, and nothing else |
| SfsInode.AllBlocksOf | os161/src/kern/fs/sfs/sfs_inode.c:97-115 | the blocks freed with a file are exactly those whose owner belongs to that file |
| SfsInode.Remove | os161/src/kern/fs/sfs/sfs_inode.c:117-133 | takes exactly this vnode out of the table, which still holds every other once |
| SfsNames.DirentRoundTrip | os161/src/kern/include/kern/sfs.h:95-98 | a directory entry written and read back is the same entry |
| SfsNames.PutNew | os161/src/kern/fs/sfs/sfs_dir.c:153-190 | filling an unused slot with a new name adds exactly that name to the map |
| SfsNames.PutNone | os161/src/kern/fs/sfs/sfs_dir.c:195-206 | clearing a used slot removes exactly its name |
| SfsNames.LinksFit | os161/src/kern/fs/sfs/sfs_vnops.c:337-338 | a directory holds at most 1144 entries, so the 16-bit link count cannot overflow |
| SfsNames.NamedHasLinks | os161/src/kern/fs/sfs/sfs_dir.c:231-235 | a name that is found leads to a file with links, so the panic about link count 0 cannot fire |
| SfsDir.NEntries | os161/src/kern/fs/sfs/sfs_dir.c:81-96 | the number of slots, at most 1144; the panic about sizes cannot fire |
| SfsDir.FindName | os161/src/kern/fs/sfs/sfs_dir.c:103-147 | finds a name exactly if the directory has it, with its inode and slot, and the last unused slot; the assertion against seeing a name twice cannot fail |
| SfsDir.DirLink | os161/src/kern/fs/sfs/sfs_dir.c:153-190 | adds the entry in the last unused slot, or at the end if there is none; which error comes when, EFBIG for a directory of 1144 used entries, ENOSPC for fewer free blocks than the slot takes; on error no file changes |
| SfsDir.DirUnlink | os161/src/kern/fs/sfs/sfs_dir.c:195-206 | clears a used entry, and cannot fail; no block changes its owner |
| SfsDir.LookOnce | os161/src/kern/fs/sfs/sfs_dir.c:212-238 | finds a name and loads its file, which has links; ENOENT exactly when there is no such name, ENOMEM exactly when the file is not in memory and there is no memory for it |
| SfsVnops.Link | os161/src/kern/fs/sfs/sfs_vnops.c:355-385 | the names gain exactly this one, for this file, whose link count rises by one; which error comes when, in terms of the state before; every failure changes no name and no file |
| SfsVnops.RemoveName | os161/src/kern/fs/sfs/sfs_vnops.c:391-422 | the names lose exactly this one, its file one link; if that was its last link and nobody has it open, the file goes and exactly its blocks become free, and otherwise none do; the vnodes in memory and their reference counts are the same afterwards |
| SfsVnops.Creat | os161/src/kern/fs/sfs/sfs_vnops.c:282-347 | opens the file of that name, or creates one, empty and with one link, under it; one reference more is held on its vnode, and no other vnode comes, goes or changes its count; which error comes when, in terms of the state before; every failure leaves names, files, inodes and vnodes as they were |
| SfsVnops.Rename | os161/src/kern/fs/sfs/sfs_vnops.c:431-512 | the file has the new name instead of the old and is otherwise unchanged, as is every other; the vnodes in memory and their reference counts are the same afterwards; which error comes when, in terms of the state before; every failure changes nothing; the recovery labels are not reached once the new entry exists |
| SfsVnops.Write | os161/src/kern/fs/sfs/sfs_vnops.c:116-129 | writing to a file keeps all names and link counts; which error comes when, as for WriteRegion |
| SfsVnops.Truncate | os161/src/kern/fs/sfs/sfs_vnops.c:249-255 | truncating a file keeps all names, link counts and other files, and its bytes up to the cut |
| SfsNames.NameSpacePut | os161/src/kern/fs/sfs/sfs_vnops.c:282-512 | one entry changed, with the link counts following it, keeps names unique and every link count equal to the number of entries |
| SfsFsops.FreemapIo | os161/src/kern/fs/sfs/sfs_fsops.c:71-106 | reads or writes the whole free map and no other block |
| SfsFsops.FreemapRoundTrip | os161/src/kern/fs/sfs/sfs_fsops.c:71-106 | a free map written to disk is the one read back |
| SfsFsops.CleanMeansOnDisk | os161/src/kern/fs/sfs/sfs_fsops.c:386-472 | when nothing is dirty, the volume computed from the disk alone is consistent and equals the one computed from disk and caches |
| SfsFsops.Sync | os161/src/kern/fs/sfs/sfs_fsops.c:112-234 | writes out everything dirty, changes no file, and leaves the disk such that a mount sees the same volume |
| SfsFsops.DoMount | os161/src/kern/fs/sfs/sfs_fsops.c:386-472 | which error comes when, for any disk: wrong sector size, no memory, wrong magic number, a panic for a device too small for superblock or free map; otherwise the mounted volume is a new one, is the one the disk says, and is consistent if the disk holds a consistent one |
| SfsRoot.GetRoot | os161/src/kern/fs/sfs/sfs_inode.c:292-320 | the one vnode of the root directory, with one more reference; which error comes when |
| SfsRoot.MountRoot | os161/src/kern/fs/sfs/sfs_inode.c:292-320 | after mounting a disk that holds a consistent volume, getting the root directory gives a new volume in the state all operations on names start from, with the names the disk has and the root directory alone in memory |
| SfsRoot.MountEmpty | os161/src/kern/include/kern/sfs.h:39-98 | an empty volume, mounted, is such a state, without names |
| SfsRoot.SyncAndMount | os161/src/kern/fs/sfs/sfs_fsops.c:112-234 | what has been synced is found again by the next mount, as a new volume in such a state: the same names for the same files |
| SfsRoot.ReleaseRoot | os161/src/kern/vfs/vnode.c:69-87 | with the last reference to the root directory its vnode leaves memory, while volume, names and files stay as they are |
| SfsSession.Perform | os161/src/kern/fs/sfs/sfs_vnops.c:97-512 | one operation on a volume with open files, seen as names, files as bytes, and handles: what it makes of them is what that operation is for, its answer is one that there can be, and which error comes is decided by the volume before |
| SfsSession.Serve | os161/src/kern/fs/sfs/sfs_vnops.c:97-512 | after any sequence of opening, creating, closing, linking, removing, renaming, reading, writing, truncating and syncing, what programs see is what those operations with their answers make of what they saw before, one after the other; the volume is consistent, names and link counts agree, and every vnode has exactly as many references as it has been opened, the root directory one more |
| SfsSession.Session | os161/src/kern/fs/sfs/sfs_vnops.c:97-512 | so it is from an empty volume on, and then no file is left that has no name and is not open |
| SfsAbstract.OutcomeSensible | os161/src/kern/fs/sfs/sfs_inode.c:97-115 | no sequence of operations leaves a file behind that has no name and is not open, or a name or a handle without a file |
| SfsAbstract.ReadAfterWrite | os161/src/kern/fs/sfs/sfs_vnops.c:97-129 | what has been written is read back, through any handle of the same file |
| SfsAbstract.ReadAll | os161/src/kern/fs/sfs/sfs_io.c:300-389 | a read of all of a file returns exactly its bytes, or those that a file can map |
| SfsAbstract.WriteGrows | os161/src/kern/fs/sfs/sfs_io.c:376-389 | a successful write replaces exactly those bytes and makes the file at least as long as where it ends |
| SfsSeen.LinkedMeansNamed | os161/src/kern/fs/sfs/sfs_inode.c:97-115 | a file has links exactly if a name leads to it, so it goes exactly when nobody wants it any more |
| SfsSession.OnlyOpenFiles | os161/src/kern/vfs/vnode.c:54-87 | so the vnodes in memory are those of the root directory and the open files: none is lost while in use, and none stays behind |
| SfsEmpty.EmptyIsConsistent | os161/src/kern/include/kern/sfs.h:39-98 | a volume with nothing but an empty root directory is consistent and has no names |
| KheapPages.Chained | os161/src/kern/vm/kmalloc.c:975-1000 | a new page, chained from its last block to its first, has a sound free list of all its blocks |
| KheapPages.Popped | os161/src/kern/vm/kmalloc.c:915-945 | taking the first free block leaves a sound list of the others |
| KheapPages.Pushed | os161/src/kern/vm/kmalloc.c:1108-1138 | putting a block in front gives a sound list with that block |
| KheapPages.AllFree | os161/src/kern/vm/kmalloc.c:1140-1141 | a list without repetitions has every block of the page exactly when it is as long as there are blocks |
| KheapState.NoOverlap | os161/src/kern/vm/kmalloc.c:874-1018 | no two blocks, free or in use, on one page or two, share a byte; nor does a block with any other page allocation |
| KheapState.Conservation | os161/src/kern/vm/kmalloc.c:874-1160 | on every managed page the free blocks and those in use add up to PAGE_SIZE / size, and nfree is the number of free ones |
| KheapState.WhichBlock | os161/src/kern/vm/kmalloc.c:1064-1088 | every block in use is a block of one managed page, not on its free list, and at least as large as was asked for |
| KheapSteps.WriteBlock | os161/src/kern/vm/kmalloc.c:45-53 | whatever is written into a block in use leaves all of the heap intact |
| KheapSteps.TakeBlock | os161/src/kern/vm/kmalloc.c:915-945 | handing out the first free block of a page keeps the heap sound; the block was not in use |
| KheapSteps.GiveBlock | os161/src/kern/vm/kmalloc.c:1108-1138 | putting a block back keeps it sound |
| KheapSteps.AddPage | os161/src/kern/vm/kmalloc.c:955-1018 | adding a chained page to both lists keeps it sound |
| KheapSteps.Drop | os161/src/kern/vm/kmalloc.c:1141-1147 | taking a wholly free page off the lists and freeing its descriptor keeps it sound |
| KheapLists.LinkedRemove | os161/src/kern/vm/kmalloc.c:822-845 | redirecting the link that led to an element takes exactly it out of the list |
| Kheap.KernelHeap.BlockType | os161/src/kern/vm/kmalloc.c:852-867 | the smallest block size that holds the request |
| Kheap.KernelHeap.SubpageKmalloc | os161/src/kern/vm/kmalloc.c:874-1018 | keeps the heap sound, and all that anyone else holds, whatever other threads do while the spinlock is dropped; the block handed out is none that anyone holds, is in use with the size asked for, and lies on a page of the smallest type that is large enough; if such a page has a free block, it cannot fail, takes no new page, and nothing else is any different; with no other thread in between it fails exactly if there is no such block and no page, or no descriptor, or no page for descriptors where one is needed; it then takes one page, and one for descriptors if that one did not exist, and when it fails it keeps none |
| Kheap.KernelHeap.AllocPageRef | os161/src/kern/vm/kmalloc.c:256-298 | takes a descriptor that was not in use and that nobody holds, on a page of descriptors that exists, or none; it does not fail if the first page of descriptors that is not full exists; with no other thread in between it gets at most that page, and when it fails none |
| Kheap.KernelHeap.AllocPageRefPage | os161/src/kern/vm/kmalloc.c:219-251 | keeps the heap sound, and all that anyone holds, whether it installs a page of descriptors, finds that another thread has meanwhile, or gets none; a page of descriptors once there stays |
| Kheap.KernelHeap.FreePageRef | os161/src/kern/vm/kmalloc.c:304-337 | frees exactly this descriptor and counts it; its assertion fails if and only if an earlier page of descriptors does not exist |
| Kheap.KernelHeap.RemoveLists | os161/src/kern/vm/kmalloc.c:822-845 | the page is on neither list any more, and all others still are, once each |
| Kheap.KernelHeap.Kmalloc | os161/src/kern/vm/kmalloc.c:1169-1206 | small requests get such a block, and take pages as SubpageKmalloc; large ones get whole pages that were in no use, exactly as many as the size needs, and nothing else, unless rounding the size up overflows, in which case they get none; large ones fail exactly when there are no pages, small ones as SubpageKmalloc; it leaves to every other thread what it holds: blocks and pages with their sizes and contents, descriptors taken, and pages of descriptors |
| Kheap.KernelHeap.Kfree | os161/src/kern/vm/kmalloc.c:1211-1223 | every pointer kmalloc returned goes back to where it came from, and everything anyone else holds stays as it was; the page is given up exactly when its last block in use is freed, and with no other thread in between nothing else goes; the one assertion that can fail does so if and only if that happens while an earlier page of descriptors does not exist |
| Kheap.KernelHeap.ClientWrite | os161/src/kern/vm/kmalloc.c:45-53 | writing into one's own block changes nothing that anyone else holds |
| KheapClaims.HandedOutApart | os161/src/kern/vm/kmalloc.c:874-1018 | two blocks in use have no byte in common as far as they were asked for, nor has one with whole pages handed out |
| KheapClaims.AddRespects | os161/src/kern/vm/kmalloc.c:955-1018 | chaining a new page writes to nothing that anyone holds |
| KheapClaims.GiveRespects | os161/src/kern/vm/kmalloc.c:1108-1138 | nor does overwriting a freed block and linking it to the free list |
| KheapLeak.MissingMeansLeaked | os161/src/kern/vm/kmalloc.c:277-288 | that page of descriptors does not exist exactly when all 256 of its descriptors have been marked in use for pages that could not be got |
| KheapLeak.AssertionCanFail | os161/src/kern/vm/kmalloc.c:314-319 | a run from the empty heap, of 256 requests that get no page of descriptors and one that does, to a heap in which freeing the block returned trips the assertion |
| KheapLeak.RunKeeps | os161/src/kern/vm/kmalloc.c:874-1018 | every heap on such a run is sound |
| Hangman.Detector.Check | os161/src/kern/thread/hangman.c:50-93 | the walk through the waits-for graph ends for any number of actors, and finds the target exactly when a walk of some length leads to it |
| Hangman.ReachesIsWalk | os161/src/kern/thread/hangman.c:50-93 | following the graph as the code does finds a walk of any length |
| Hangman.Detector.Wait | os161/src/kern/thread/hangman.c:109-129 | reports a deadlock exactly when the new edge would close a cycle; otherwise adds exactly that edge; keeps the graph acyclic |
| Hangman.Detector.Acquire | os161/src/kern/thread/hangman.c:131-157 | turns a wait into a hold and keeps the graph acyclic; which panics fire and when |
| Hangman.Detector.Release | os161/src/kern/thread/hangman.c:159-182 | removes exactly that hold |
| Hangman.Detector.NoDeadlock | os161/src/kern/thread/hangman.c:50-93 | in every reachable state the graph has no cycle |
| Hangman.KeepsRanked | os161/src/kern/thread/hangman.c:109-129 | when no path leads back, the new edge leaves the graph acyclic |
| Hangman.ClosesCycle | os161/src/kern/thread/hangman.c:50-93 | when one does, the new edge closes a cycle |
| Semaphore.StepKeeps | os161/src/kern/thread/synch.c:48-93 | every step of P and V, spinlock operation by spinlock operation, keeps: while someone sleeps, threads woken but not yet rechecked plus Vs about to wake one are at least the count; and units are conserved |
| Semaphore.RunKeeps | os161/src/kern/thread/synch.c:48-93 | so in every interleaving of any number of threads |
| Semaphore.QuietRun | os161/src/kern/thread/synch.c:48-93 | when nobody is in the middle of P or V, a sleeper means the count is 0, and initial count + completed Vs - completed Ps is the count |
| Semaphore.NotStuck | os161/src/kern/thread/thread.c:648-721 | the spinlocks of the protocol cannot deadlock |
| SemaphoreLaws.StepMoves | os161/src/kern/thread/synch.c:48-93 | all that a step can change of what any thread is doing: P has to take a unit before it returns, V to add one |
| SemaphoreLaws.OnlyTakesAndGives | os161/src/kern/thread/synch.c:48-93 | the count changes only as a P takes a unit or a V adds one |
| SemaphoreLaws.PReturnsWithUnit | os161/src/kern/thread/synch.c:48-82 | in every run, P does not return before it has taken a unit, and is then counted as returned |
| SemaphoreLaws.VReturnsWithout | os161/src/kern/thread/synch.c:84-93 | nor V before it has added one |
| SemaphoreLaws.FirstCome | os161/src/kern/thread/thread.c:381-386 | as long as a thread sleeps on the semaphore, nobody who went to sleep after it is woken: threads are woken in order, though they need not get units in that order |
| LockCv.StepKeeps | os161/src/kern/thread/synch.c:135-234 | every step of the lock and condition variable operations keeps: a free lock with sleepers has a woken thread, or a releaser about to wake one, on the way; spinlocks, channels and the holder agree with where each thread is |
| LockCv.RunKeeps | os161/src/kern/thread/synch.c:135-234 | so in every interleaving |
| LockCv.MutualExclusion | os161/src/kern/thread/synch.c:135-169 | at most one thread is between lock_acquire and lock_release |
| LockCv.FreeLockHasNoSleepers | os161/src/kern/thread/synch.c:135-169 | when nobody is in the middle of anything, nobody sleeps on a free lock |
| LockCv.NoWaiterMissed | os161/src/kern/thread/synch.c:216-224 | whenever the channel of a condition variable can be looked at, every thread that has let go of the lock in cv_wait is on it |
| LockCv.SignalTakesOne | os161/src/kern/thread/synch.c:225-229 | a signal takes the longest waiter if there is any |
| LockCv.BroadcastTakesAll | os161/src/kern/thread/synch.c:230-234 | a broadcast takes all |
| LockCv.NotStuck | os161/src/kern/thread/synch.c:135-234 | the spinlocks of the protocol cannot deadlock |
| LockCvLaws.StepMoves | os161/src/kern/thread/synch.c:135-234 | all that a step can change of what any thread is doing: acquiring leads to holding, releasing to being outside, waiting to being chosen by a signal or a broadcast, and being chosen to acquiring |
| LockCvLaws.AcquireReturnsHolding | os161/src/kern/thread/synch.c:135-153 | in every run, lock_acquire returns with the lock held by its caller |
| LockCvLaws.WaitReturnsHolding | os161/src/kern/thread/synch.c:216-224 | so does cv_wait, and not before a signal or a broadcast has taken its caller |
| LockCvLaws.ReleaseReturnsWithout | os161/src/kern/thread/synch.c:155-169 | lock_release returns without it |
| LockCvLaws.SignalReturnsHolding | os161/src/kern/thread/synch.c:225-234 | cv_signal and cv_broadcast return with the lock still held, and by then every thread that they took is acquiring the lock |
| LockCvLaws.LockFirstCome | os161/src/kern/thread/thread.c:381-386 | as long as a thread sleeps on the lock, nobody who went to sleep after it is woken |
| LockCvLaws.WaitFirstCome | os161/src/kern/thread/thread.c:381-386 | as long as a thread waits on the condition variable, nobody who came to wait after it is woken |
| Fifo.NotOvertaken | os161/src/kern/thread/thread.c:648-702 | on a list that is taken from at the front and added to at the end, nobody gets past a thread that stays on it |
| Scheduler.StepKeeps | os161/src/kern/thread/thread.c:276-450 | every step of fork, wake, yield, sleep, exit, switch, idle, interrupt, exorcise and migrate keeps the placement of threads |
| Scheduler.RunKeeps | os161/src/kern/thread/thread.c:276-450 | so in every run of any number of cpus and wakers |
| Scheduler.ExactlyOnePlace | os161/src/kern/thread/thread.c:349-425 | a thread that exists is in exactly one place: running, on one run queue, wait channel, zombie list, migrator's list or in one waker's hands, and there once |
| Scheduler.QueuedWhereItBelongs | os161/src/kern/thread/thread.c:276-300 | a thread that runs or is queued on a cpu has that cpu in t_cpu |
| Scheduler.OneStackPerCpu | os161/src/kern/thread/thread.c:542-567 | no two cpus have the same current thread, not even idle ones |
| Scheduler.ExorciseIsSafe | os161/src/kern/thread/thread.c:197-205 | exorcise destroys only zombies, never a cpu's current thread or one on any other list |
| Scheduler.NoForgottenQueue | os161/src/kern/thread/thread.c:276-300 | a cpu that idles although its run queue is not empty has an interrupt coming |
| Scheduler.SentKeeps | os161/src/kern/thread/thread.c:568-580 | moving a victim that is not the current thread to another cpu keeps the placement |
| SchedulerOrder.StepServes | os161/src/kern/thread/thread.c:276-450 | every step takes from the front of run queues, channels, zombies and hands, and adds at their end, except that thread_consider_migration takes the last thread of a run queue |
| SchedulerOrder.PlaceInList | os161/src/kern/thread/thread.c:349-450 | in every run, a thread stands one place nearer the front of its list after each turn that is given, as long as it is not itself taken for migration |
| SchedulerOrder.QueueFirstCome | os161/src/kern/thread/thread.c:395-407 | it runs on that cpu when as many turns have been given as there were threads before it |
| SchedulerOrder.ChannelFirstCome | os161/src/kern/thread/thread.c:648-702 | a sleeper is woken when as many have been woken as slept before it |
| SchedulerOrder.LeavesQueue | os161/src/kern/thread/thread.c:395-407 | a thread leaves a run queue only to run on that cpu, when it is the first, or to be migrated, when it is the last |
| SchedulerOrder.YieldWaitsItsTurn | os161/src/kern/thread/thread.c:370-380 | a thread that yields runs again after every thread that was queued before it |
| SchedulerOrder.SleeperWaitsItsTurn | os161/src/kern/thread/thread.c:381-386 | a thread that goes to sleep is woken after every thread that slept on that channel before it |
| SchedulerOrder.RunnableWaitsItsTurn | os161/src/kern/thread/thread.c:276-300 | a thread that is made runnable runs on the cpu in its t_cpu, after those queued there before it |
| SchedulerOrder.MigratedWaitsItsTurn | os161/src/kern/thread/thread.c:530-573 | a thread that is migrated runs on the cpu that it is sent to, after those queued there before it |
| SchedulerOrder.ReturnedWaitsItsTurn | os161/src/kern/thread/thread.c:583-589 | one that is left over runs on the cpu that it came from, after those queued there before it |
| SchedulerOrder.ForkedWaitsItsTurn | os161/src/kern/thread/thread.c:312-343 | a thread that is forked is put at the end of the run queue of its cpu, after those that its maker had in hand |
| SchedulerOrder.CpuOfThread | os161/src/kern/thread/thread.c:530-573 | only migration changes the cpu of a thread, from the one that it is taken from to the one that it is sent to, and never that of a current thread; a forked thread starts with that of its parent |
| SchedulerOrder.WaitsForInterrupt | os161/src/kern/thread/thread.c:395-407 | a cpu that has found its run queue empty does not look at it again before an interrupt |
| SchedulerOrder.WaitingCpuPicks | os161/src/kern/thread/thread.c:395-407 | a cpu that waits with a thread on its run queue has an interrupt coming, and when it comes picks the first thread of the queue |
| Migration.Kernel.ConsiderMigration | os161/src/kern/thread/thread.c:490-593 | threads are neither lost nor duplicated whatever the other cpus do meanwhile, and to them it does no more than they rely on: their queues only grow, at the end, and threads in their hands stay theirs; if the queues are quiet, the local queue keeps exactly its share, and the current thread if that was among those to send, no other queue is pushed above its share, and exactly the idle cpus whose queues grew are told |
| Migration.Kernel.Fill | os161/src/kern/thread/thread.c:539-576 | fills one cpu up to the share or until none are left to send; the list never runs out early; an idle cpu that gets a thread is told |
| Migration.Kernel.SendAll | os161/src/kern/thread/thread.c:532-577 | if some are left over, every other cpu has its share |
| Migration.Kernel.TakeVictims | os161/src/kern/thread/thread.c:520-528 | takes exactly the last threads of the local queue, in order, and never an empty list's end |
| Migration.AllSent | os161/src/kern/thread/thread.c:512-577 | from total <= cpus * share: none are left over |
| ThreadList.List.constructor | os161/src/kern/thread/threadlist.c:55-65 | an empty list |
| ThreadList.List.AddHead | os161/src/kern/thread/threadlist.c:145-153 | the list with the thread in front; links both ways and the count right |
| ThreadList.List.AddTail | os161/src/kern/thread/threadlist.c:155-163 | the list with the thread at the end |
| ThreadList.List.RemHead | os161/src/kern/thread/threadlist.c:165-181 | takes off the first thread, or returns null exactly on an empty list; the thread can be put on a list again |
| ThreadList.List.RemTail | os161/src/kern/thread/threadlist.c:183-199 | the same at the end |
| ThreadList.List.InsertAfter | os161/src/kern/thread/threadlist.c:201-207 | inserts right behind a thread on the list |
| ThreadList.List.InsertBefore | os161/src/kern/thread/threadlist.c:209-215 | inserts right before one |
| ThreadList.List.Remove | os161/src/kern/thread/threadlist.c:217-223 | takes exactly that thread off |
| ThreadList.List.IsEmpty | os161/src/kern/thread/threadlist.c:84-90 | tells whether the list is empty |
| ThreadList.List.ForAll | os161/src/kern/include/threadlist.h:98-101 | visits the threads in order and ends |
| ThreadList.List.ForAllRev | os161/src/kern/include/threadlist.h:103-106 | visits them backwards |
| ThreadList.InsertAfterNode | os161/src/kern/thread/threadlist.c:98-110 | relinking four pointers inserts the node at that place of the chain |
| ThreadList.InsertBeforeNode | os161/src/kern/thread/threadlist.c:112-124 | the same from the other side |
| ThreadList.RemoveNode | os161/src/kern/thread/threadlist.c:129-140 | takes the node out of the chain and leaves it unlinked |
| Spl.Machine.Splx | os161/src/kern/thread/spl.c:131-159 | sets the level and returns the old one; t_iplhigh_count stays t_curspl plus the spinlocks charged, and interrupts are on exactly when it is 0, whatever spinlocks are held |
| Spl.Machine.AcquireBegin | os161/src/kern/thread/spinlock.c:75-90 | raises the level; panics exactly when the thread holds the lock already |
| Spl.Machine.TryTake | os161/src/kern/thread/spinlock.c:94-111 | takes the lock exactly if it is free, and charges it to the thread |
| Spl.Machine.ReleaseData | os161/src/kern/thread/spinlock.c:121-134 | gives up the lock; its assertion holds for whoever holds it |
| Spl.Machine.ReleaseLower | os161/src/kern/thread/spinlock.c:135-135 | lowers the level again |
| Spl.Machine.NewThread | os161/src/kern/thread/thread.c:340-342 | a new thread, with its extra increment, counts as one that has been switched out |
| Spl.Machine.SwitchTo | os161/src/kern/thread/thread.c:401-426 | the run queue's lock goes over to the next thread, and all counts stay right |
| Spl.Machine.Startup | os161/src/kern/thread/thread.c:426-446 | a new thread ends up with interrupts on and a count of 0 |
| Spl.Machine.InterruptIn | os161/src/kern/arch/mips/locore/trap.c:137-167 | taking an interrupt keeps the counts right; its assertion about the count holds |
| Spl.Machine.InterruptOut | os161/src/kern/arch/mips/locore/trap.c:169-174 | its assertions hold exactly if the handler kept no spinlock and left the level high |
| Spl.Machine.NoInterruptsWhileHeld | os161/src/kern/thread/spl.c:49-83 | while a spinlock is held interrupts are off on the cpu that holds it |
| ExecArgs.Buffers.GetAlignedLength | os161/src/kern/syscall/fork.c:239-251 | the length of the string with its terminator, rounded up to 4 |
| ExecArgs.Buffers.AlignArg | os161/src/kern/syscall/fork.c:214-233 | the same length, leaving the string intact; writes outside the buffer exactly when the padded length is the buffer's and there is padding |
| ExecArgs.Buffers.Measure | os161/src/kern/syscall/fork.c:268-284 | the first pass: the number of arguments and exactly the length that the second pass lays out, or the error of the first that cannot be read |
| ExecArgs.Buffers.CopyArgs | os161/src/kern/syscall/fork.c:254-321 | refuses with the error of the first argument that cannot be read; otherwise lays out offsets and strings and a null word, if and only if the whole block fits into the buffer |
| ExecArgs.Buffers.AdjustKargbuf | os161/src/kern/syscall/fork.c:324-339 | turns every offset into a pointer, in the machine's byte order, and leaves strings and null word alone |
| ExecArgs.Buffers.Marshal | os161/src/kern/syscall/fork.c:254-412 | a program that reads its argv from the block at its address finds exactly the arguments given; the block's length is a multiple of 4 |
| ExecArgs.ReadBack | os161/src/kern/syscall/fork.c:324-339 | following the pointers of a finished block gives back the strings, whatever the byte order |
| ExecArgs.ScanFails | os161/src/kern/syscall/fork.c:254-284 | the arguments fail with the error of the first that is no string: one that cannot be copied, or an array that cannot be read at all |
| ExecArgs.OffsetsRise | os161/src/kern/syscall/fork.c:296-318 | strings do not overlap each other |
| ExecArgs.NotAlwaysFits | os161/src/kern/syscall/fork.c:273-279 | an argument that copyinstr accepts can be too long for the buffer |

## Left out

* Device errors and the retry loop in `fs/sfs/sfs_io.c:71-100`, and with them the paths that only a failing
  device reaches, such as the recovery labels of `sfs_rename`.
* Faults in user memory during `uiomove`, and user memory that changes while arguments are copied.
- Uios.Uio.Move: assumes that buffers do not fault, since EFAULT comes from machine-dependent code that is not part of this model.
- SfsFsops.DoMount: says nothing about consistency for block counts beyond 2^23, where the code multiplies block numbers in 32 bits. The warning about the device's size is left out.
- SfsVnops.RemoveName: the vnode of a removed file that is still open stays loaded until it is released; what happens then is Reclaim.
- SfsIo.WriteRegion: uio_offset is unbounded here, where off_t has 63 bits.
- SfsInode.Reclaim: the table lock around it is not modelled, because SFS runs its operations one at a time under the VFS lock; the check for a reference gained meanwhile is kept.
- Kheap.KernelHeap.Kmalloc: alloc_kpages is machine-dependent; asked for no pages, it is taken to return any page address.
- Kheap.KernelHeap.SubpageKmalloc: when other threads come in between, says nothing about when a request that needs a new page fails, since that depends on what they took meanwhile.
- Kheap.KernelHeap.AllocPageRef: descriptors are numbered; the packing of use bits into words and the address arithmetic that finds a descriptor's page are not modelled.
- Migration.Kernel.ConsiderMigration: thread counts are unbounded; sending the interrupt is a flag.
- Spl.Machine.TryTake: one look at the lock word; that a spinning cpu looks again is not modelled, nor is it that it succeeds eventually.
- Spl.Machine.SwitchTo: requires that the run queue's lock is the only spinlock held, which is how thread_switch is called in thread.c and synch.c.
- ExecArgs.Buffers.Marshal: leaves out loading the program and creating its address space; the stack pointer it starts from is a parameter.
* Progress under fair scheduling: the protocols are shown never to lose a wakeup and never to be stuck on
  their spinlocks, and threads to get their turns in order, not that another turn comes.
* `clocksleep` and `lbolt`, which sleep without holding the channel's lock.
* Subdirectories, `sfs_lookup` and unmounting: SFS has one flat directory, and the rest is plumbing around
  the operations modelled.
* The formatter of SFS volumes is not part of this model; `SfsEmpty` states what an empty volume is, and
  `SfsFormat.EightBlocks` is one.
* kmalloc's guard bands, labels, consistency checks and statistics, none of them in the default build.
* semfs, the process table, the other system calls, VFS name dispatch, ELF loading, `bswap.c`, `array.c` and
  device drivers, most of which would only add easy members.
