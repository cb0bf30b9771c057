# OS/161: a verified model

OS/161 is a small teaching kernel with a simple file system, a thread system with locks, condition variables
and semaphores, a virtual memory system and a C library. The project models the parts of it that carry state
across calls, and proves what those parts promise over every input, every reachable state or every run.

Each part has two layers. The first is made of values: datatypes for the state, functions for the calls, and
lemmas that say what the calls keep and what they give. The second is imperative, in the form of the C code:
classes whose fields the methods update, arrays, loops with invariants. Every method of the second layer is
proved equal to the function of the first, so the lemmas hold of it.

* **The simple file system (SFS).** `SfsLayout`, `SfsState` (what a sound volume is: the free map says exactly
  which blocks are in use, no block has two owners, counts agree with names), `SfsBmap` (block map), `SfsIo`,
  `SfsTruncate`, `SfsVnode` (inode cache and reference counts), `SfsDir`, `SfsOps` (names), `SfsMount`,
  `SfsMkfs`, `SfsRun` and `SfsRefine` (a volume as names, files and counts only) are values. `Bitmap`,
  `Uio`, `SfsXfer`, `SfsKernel`, `SfsCalls`, `SfsNames` and `SfsSync` are the kernel's own form.
* **Threads.** `Threads` is a transition system: interrupts are off from one switch to the next, so what a
  thread does between being dispatched and being switched out is one step. `ThreadInv` and `ThreadRun` prove
  what every step keeps, `ThreadTrace` what every run does, told from the calls and their returns. `Ring`,
  `ThreadKernel` and `SynchKernel` are the kernel's lists, run queue and calls.
* **Memory.** `Coremap` (physical pages), `Kheap`, `KheapLive`, `KheapRoom`, `KheapRaw`, `KheapTrace`, `KheapKernel`
  (kmalloc and kfree, down to the free lists threaded through the memory they hand out), `PageTable`, `PageTableInv`,
  `PageTableFree`, `PageTableCopy`, `PageTableRegions`, `PageTablePerms`, `PageTableRun`, `PageTableStay`,
  `PageTableSees`, `PageTableRoom`, `PageTableReached`, `PageTableNotes`, `PageTableKernel` (two-level page tables).
* **Library.** `Random`, `RandomNumbers`, `RandomKernel` (random, initstate, setstate), `Pseudorand` (the kernel's
  generator), `Printf`, `PrintfText`, `Snprintf` and `Atoi`.

Integers are unbounded; the widths of the C code are written out where they matter: 32-bit words on disk and in
page tables, 16-bit link counts, signed and unsigned wrap-around in printf and atoi, 32-bit sums of region ends
in the copy of an address space.

Where the code does something else than a reader would expect, the code is followed and the exact condition is
proved:

* the search of the coremap misses a free run that straddles the place where the last search ended
  (`GetPagesFails`, `StraddlingRunMissed`);
* truncation keeps the first block past the new length if it hangs off the indirect block (`PastEndIff`, `PastEndKept`);
* a file that is cut and then written further on has its old bytes back in between (`GapIff`, `OldByteBack`);
* a file that is open but has no name when the disk is synced leaves its blocks marked with nothing to account for
  them if the disk is mounted again from that state; unmounting is refused while a file is open, so a halt does it
  (`RemountCorrect`, `OrphanMade`, `MountAgainInv`);
* setstate on the table in use goes back to the position noted last, although its comment calls it harmless
  (`SetCurrentIff`, `SetCurrentRewinds`);
* %d with zeros on the right does not read back (`LeftZeroIff`, `OneReadsTen`, `FormatRoundTrip`);
* the copy of an address space tells wrongly which read-only pages can be loaded again: it copies a page deep inside
  a region and loses one that begins where a region ends (`OverlapsIff`, `ReadOnlyCopied`, `DeepPageCopied`,
  `NextPageLost`);
* the pages of a copied address space take the permissions of the first page copied in their four megabytes
  (`CopyPermsIff`, `SharedTableReached`);
* pt_get_paddr answers with the state bit set for a page that it has just made, and without it for one that was there
  (`PaddrIs`).

A ghost argument `live` names the inodes in existence, `boot` the pages taken before the coremap, `own` the
owner of every frame of an address space, and `rest` the part of the thread system that a list does not hold.

## Model

| member | source | states |
|---|---|---|
| SfsLayout.InodeRoundTrip | os161-1.11/kern/include/kern/sfs.h:45-52 | Packing an inode into its disk block and unpacking it gives the inode back, for every inode. |
| SfsLayout.InodeBlockRoundTrip | os161-1.11/kern/include/kern/sfs.h:45-52 | Unpacking any block as an inode and packing it again gives the same 512 bytes, the waste area included. |
| SfsLayout.EntryRoundTrip | os161-1.11/kern/include/kern/sfs.h:57-60 | A directory entry whose name leaves room for the terminator comes back from its bytes unchanged. |
| SfsLayout.InodeLayout | os161-1.11/kern/include/kern/sfs.h:45-52 | Where size, type, link count, direct blocks, indirect block and waste are in the block, byte by byte, the most significant first. |
| SfsLayout.EntryLayout | os161-1.11/kern/include/kern/sfs.h:57-60 | Where the inode number and the name are in the 64 bytes of a directory entry; the rest is zero. |
| SfsLayout.BitBlocksLeast | os161-1.11/kern/include/kern/sfs.h:18-25 | The bitmap takes as few blocks as have a bit for every block. |
| SfsBmap.BmapCorrect | os161-1.11/kern/fs/sfs/sfs_vnode.c:116-261 | The block map, direct and indirect, with and without allocation: the free map stays exact (a bit is set exactly when the block is metadata, an inode, or in exactly one slot of one inode), every byte of every file reads as before, the block returned is the slot's, and the only failures are EINVAL past the last block a file can have and ENOSPC with every bit set. |
| SfsIo.WriteCorrect | os161-1.11/kern/fs/sfs/sfs_vnode.c:418-513 | A write of any length at any offset, unaligned at either end: the bytes that were written are laid over the file, the size becomes the larger of the old size and the end position, no other file changes and the free map stays exact, whether the write succeeds or stops part way; it stops only past the largest file or with the volume full. |
| SfsIo.ReadCorrect | os161-1.11/kern/fs/sfs/sfs_vnode.c:418-513 | A read gives exactly the file's bytes from the offset to the end of the file or of the request, holes as zeros, for every offset and length. |
| SfsTruncate.TruncateCorrect | os161-1.11/kern/fs/sfs/sfs_vnode.c:1064-1157 | Truncation keeps every byte below the new length, zeroes what it drops and changes no other file. The slots cleared are exactly the direct ones from the new length on and the indirect ones past the block after it; the indirect block goes exactly if no entry is left; the bits cleared are exactly those of the slots cleared. |
| SfsTruncate.PastEndIff | os161-1.11/kern/fs/sfs/sfs_vnode.c:1064-1157 | No block past the new length is left if and only if the first one past it is a direct block or one the file did not have: the test for the indirect entries is strict and keeps one block too many. |
| SfsTruncate.PastEndKept | os161-1.11/kern/fs/sfs/sfs_vnode.c:1064-1157 | An input that leaves one: write a nonzero byte at the beginning of any block past the direct ones and cut the file to there; the file still has the block. Only a full volume refuses the write. |
| SfsTruncate.GapIff | os161-1.11/kern/fs/sfs/sfs_vnode.c:1064-1157 | Cut a file and then write further on: the gap holds what the file held from the new length up to the end of what stays backed, and zeros after; it reads as zeros if and only if that was all zeros. |
| SfsTruncate.OldByteBack | os161-1.11/kern/fs/sfs/sfs_vnode.c:1064-1157 | An input that brings an old byte back: write two bytes, cut off the second, write a third; the second is what it was. |
| SfsVnode.LoadCorrect | os161-1.11/kern/fs/sfs/sfs_vnode.c:1546-1651 | Loading an inode changes no file and no bit, gives it one more reference, and never puts one inode in the table twice. |
| SfsVnode.NewStore | os161-1.11/kern/fs/sfs/sfs_vnode.c:1546-1651 | Loading a freshly allocated, cleared block with a forced type makes it a live, empty inode and leaves the store sound. |
| SfsVnode.SyncCorrect | os161-1.11/kern/fs/sfs/sfs_vnode.c:39-51 | Writing an inode back changes no file; its block then decodes to the cached inode and no other block has changed. |
| SfsVnode.ReclaimLinked | os161-1.11/kern/fs/sfs/sfs_vnode.c:857-924 | The last reference to a linked file writes it back and drops it from the table; every file reads the same from disk. |
| SfsVnode.ReclaimGone | os161-1.11/kern/fs/sfs/sfs_vnode.c:857-924 | The last reference to an unlinked file frees exactly its blocks and its inode; every other file is unchanged. |
| SfsVnode.DecrefShared | os161-1.11/kern/fs/vfs/vnode.c:73-98 | Dropping one of several references only lowers the count. |
| SfsDir.SearchCorrect | os161-1.11/kern/fs/sfs/sfs_vnode.c:615-658 | The directory search finds the one slot that holds the name if there is one, and the last empty slot if there is one. |
| SfsDir.ReadSlotCorrect | os161-1.11/kern/fs/sfs/sfs_vnode.c:524-550 | Reading a slot gives the whole entry; the end of the file never falls inside one. |
| SfsDir.WriteSlotCorrect | os161-1.11/kern/fs/sfs/sfs_vnode.c:557-584 | Writing a slot replaces exactly that entry or fails with nothing changed; on a slot in use it cannot fail; EINVAL exactly past the last slot, ENOSPC only with every block in use. |
| SfsOps.DirLinkInv | os161-1.11/kern/fs/sfs/sfs_vnode.c:665-703 | Entering a name extends the map of names by it and moves no other entry, or fails with nothing changed: EEXIST, ENAMETOOLONG, EINVAL exactly with every slot a directory can have in use, ENOSPC only with every block in use. |
| SfsOps.DirUnlinkInv | os161-1.11/kern/fs/sfs/sfs_vnode.c:709-720 | Clearing a slot in use cannot fail and removes exactly its name. |
| SfsOps.LinkBound | os161-1.11/kern/fs/sfs/sfs_vnode.c:1244-1264 | A link count is the number of entries that name the inode, one more for the root, so it never passes the number of slots a directory can have and never wraps its 16 bits. |
| SfsOps.DecrefInv | os161-1.11/kern/fs/vfs/vnode.c:73-98 | Dropping any reference keeps the volume's invariant; a file goes away exactly when it has no name and this was its last reference. |
| SfsOps.LookupCorrect | os161-1.11/kern/fs/sfs/sfs_vnode.c:1417-1436 | Looking a name up gives the inode the map of names says, with one more reference, or ENOENT; no file changes. |
| SfsOps.CreatCorrect | os161-1.11/kern/fs/sfs/sfs_vnode.c:1184-1236 | Creating: an existing name is refused or opened; a new name gets a fresh, empty inode with one link; a failure leaves nothing behind, and which error it is follows from the volume being full, the length of the name and the directory being full, in that order. |
| SfsOps.LinkCorrect | os161-1.11/kern/fs/sfs/sfs_vnode.c:1244-1264 | A hard link adds one name for the inode and raises its count, or changes nothing, with the errors of DirLinkInv. |
| SfsOps.RemoveCorrect | os161-1.11/kern/fs/sfs/sfs_vnode.c:1270-1297 | Removing a name that is there cannot fail; it takes away that name alone, and a file still open or linked keeps its contents. |
| SfsOps.RenameCorrect | os161-1.11/kern/fs/sfs/sfs_vnode.c:1306-1379 | A rename moves one name to the same inode; no contents, link count or reference count changes; a failure changes nothing, with ENOENT or the errors of DirLinkInv. |
| SfsMount.SyncAllCorrect | os161-1.11/kern/fs/sfs/sfs_fs.c:81-145 | Sync changes no file and no bit, and leaves nothing that is in memory only. |
| SfsMount.RemountCorrect | os161-1.11/kern/fs/sfs/sfs_fs.c:209-311 | Sync and mount again: the same free map, directory and file contents. The mounted volume is sound if and only if no file was held open without a name. |
| SfsMount.MountIff | os161-1.11/kern/fs/sfs/sfs_fs.c:209-311 | A device is refused if and only if it does not begin with the magic number; what is mounted has the block count, the bits and the blocks of the disk, and nothing loaded. |
| SfsMount.OrphanMade | os161-1.11/kern/fs/sfs/sfs_vnode.c:1270-1297 | From any sound volume, making a file and removing its name while it is held leaves a file without a name, and the volume mounted from the disk synced then is not sound for any set of live inodes. |
| SfsMkfs.MadeInv | os161-1.11/sbin/mksfs/mksfs.c:116-165 | Mounting what mksfs wrote gives a sound volume with an empty directory and only the root inode live. |
| SfsMkfs.DoAllocBit | os161-1.11/sbin/mksfs/mksfs.c:76-84 | Marking a bit sets that bit and no other. |
| SfsMkfs.MarkMap | os161-1.11/sbin/mksfs/mksfs.c:87-114 | The bitmap has a bit set exactly for the metadata blocks and for those past the end of the device. |
| SfsMkfs.Mksfs | os161-1.11/sbin/mksfs/mksfs.c:116-165 | Makes a volume on any device large enough for its own metadata; refuses exactly a name too long or a device too large; writes no data block. |
| SfsRun.StepSound | os161-1.11/kern/fs/sfs/sfs_vnode.c:418-1436 | Every call on a mounted volume keeps it sound, mounting it again included. |
| SfsRun.EveryRunSound | os161-1.11/kern/fs/sfs/sfs_vnode.c:418-1436 | In every state any run of calls reaches from a new volume, through any number of unmounts and mounts, no inode is loaded twice, a bit of the free map is set exactly when its block is in use, and no block has two owners. |
| SfsRun.MountAgainInv | os161-1.11/kern/fs/sfs/sfs_fs.c:166-192 | Sync, unmount and mount: refused while a file is loaded; otherwise the same names, files and free map, and a sound volume, since then every live file has a name. |
| SfsRun.OpensExact | os161-1.11/kern/fs/vfs/vnode.c:104-141 | An open counts one more and a close one less for that vnode and no other; the close that brings the count to zero leaves the inode clean and its block the same as the cached inode. |
| SfsRun.StepSaves | os161-1.11/kern/fs/sfs/sfs_fs.c:81-145 | After fsync and after the last close nothing of that inode is in memory only; after sync nothing of the volume is; mounting again is mounting the disk that sync left. |
| SfsRefine.StepRefines | os161-1.11/kern/fs/sfs/sfs_vnode.c:418-1436 | Against a model of a volume that has only names, files, reference counts and open counts: every call gives an answer that the model may give (the inode found, the bytes read, the errors for names), and leaves the names, files and counts that the model has next. A file is gone in the model as soon as it has neither a name nor a reference. |
| SfsRefine.EveryRunRefines | os161-1.11/kern/fs/sfs/sfs_vnode.c:418-1436 | Every run of calls from a new volume is a run of that model from empty, answer for answer, and ends with the names, files, reference counts and open counts of the model. |
| SfsRefine.SyncKeepsAll | os161-1.11/kern/fs/sfs/sfs_fs.c:81-145 | If every file that is held has a name, the disk after a sync, mounted by itself, has every name and every file of the model, with nobody holding any. |
| Bitmaps.Bitmap.constructor | os161-1.11/kern/lib/bitmap.c:30-64 | A new bitmap has every bit clear and the padding past its end marked. |
| Bitmaps.Bitmap.Alloc | os161-1.11/kern/lib/bitmap.c:72-94 | Takes the first clear bit and sets it alone, or reports that all are set; the padding is never handed out. |
| Bitmaps.Bitmap.Mark | os161-1.11/kern/lib/bitmap.c:107-118 | Sets one clear bit and no other. |
| Bitmaps.Bitmap.Unmark | os161-1.11/kern/lib/bitmap.c:120-131 | Clears one set bit and no other. |
| Bitmaps.Bitmap.IsSet | os161-1.11/kern/lib/bitmap.c:134-142 | Tells the bit. |
| Uios.Uio.Move | os161-1.11/kern/userprog/uio.c:11-82 | Copies what is asked for or what is left, in the direction of the transfer, changes nothing else, and advances position, residue and vector together. |
| Uios.Uio.MoveZeros | os161-1.11/kern/userprog/uio.c:84-108 | Fills with zeros, sixteen bytes at a time, as far as was asked for or is left, and advances. |
| SfsKernel.SfsVolume.Balloc | os161-1.11/kern/fs/sfs/sfs_vnode.c:61-78 | On the volume's own bitmap and disk: the first free block, marked and cleared, as SfsBmap.Balloc says. |
| SfsKernel.SfsVolume.Bmap | os161-1.11/kern/fs/sfs/sfs_vnode.c:116-261 | The imperative block map computes SfsBmap.Bmap on the volume's state, so BmapCorrect holds of it. |
| SfsKernel.SfsVolume.PartialIo | os161-1.11/kern/fs/sfs/sfs_vnode.c:278-347 | Part of a block through a buffer, read or write: the state, the caller's memory and the position become what one step of the pure transfer says. |
| SfsKernel.SfsVolume.BlockIo | os161-1.11/kern/fs/sfs/sfs_vnode.c:353-412 | A whole block straight to or from the caller's memory, with the position switched to the disk block's and restored. |
| SfsKernel.SfsVolume.Io | os161-1.11/kern/fs/sfs/sfs_vnode.c:418-513 | The leading part, the whole blocks and the trailing part together are SfsIo.WriteIo or SfsIo.ReadIo, on success and on every failure, so WriteCorrect and ReadCorrect hold of it. |
| SfsKernel.DoMount | os161-1.11/kern/fs/sfs/sfs_fs.c:209-311 | Mounting reads the bitmap block by block and gives the volume SfsMount.Mount says, or its error. |
| SfsCalls.Bfree | os161-1.11/kern/fs/sfs/sfs_vnode.c:84-89 | Clears the block's bit and notes the map as changed. |
| SfsCalls.TruncDirect | os161-1.11/kern/fs/sfs/sfs_vnode.c:1064-1157 | The loop over the direct blocks does what SfsTruncate.TruncDirect says. |
| SfsCalls.TruncIndirect | os161-1.11/kern/fs/sfs/sfs_vnode.c:1064-1157 | The loop over the indirect block does what SfsTruncate.TruncIndirect says: the block is written back if an entry was dropped and freed if none is left. |
| SfsCalls.Truncate | os161-1.11/kern/fs/sfs/sfs_vnode.c:1064-1157 | The whole call is SfsTruncate.Truncate, so TruncateCorrect holds of it. |
| SfsCalls.LoadVnode | os161-1.11/kern/fs/sfs/sfs_vnode.c:1546-1651 | Searches the table of loaded inodes and reads the inode if it is not there, as SfsVnode.Load and LoadNew say; an inode is never loaded twice. |
| SfsCalls.SyncInode | os161-1.11/kern/fs/sfs/sfs_vnode.c:39-51 | Writes a dirty inode to its block, as SfsVnode.SyncInode says. |
| SfsCalls.Reclaim | os161-1.11/kern/fs/sfs/sfs_vnode.c:857-924 | Truncates and frees an unlinked file or writes a linked one back, then takes the vnode out of the table, as SfsVnode.Reclaim says. |
| SfsCalls.Decref | os161-1.11/kern/fs/vfs/vnode.c:73-98 | Counts down, or reclaims at the last reference. |
| SfsCalls.Incopen | os161-1.11/kern/fs/vfs/vnode.c:104-112 | The open count of the vnode goes up by one; the volume is what SfsRun.AddOpen gives. |
| SfsCalls.Decopen | os161-1.11/kern/fs/vfs/vnode.c:118-141 | The open count goes down by one, and the last close writes the inode back, as SfsRun.DropOpen says. |
| SfsNames.ReadDir | os161-1.11/kern/fs/sfs/sfs_vnode.c:524-550 | Reads the slot's entry through the transfer layer and changes nothing. |
| SfsNames.WriteDir | os161-1.11/kern/fs/sfs/sfs_vnode.c:557-584 | Writes one entry through the transfer layer, as SfsDir.WriteSlot says. |
| SfsNames.DirNentries | os161-1.11/kern/fs/sfs/sfs_vnode.c:592-606 | The number of slots the directory's size gives. |
| SfsNames.FindName | os161-1.11/kern/fs/sfs/sfs_vnode.c:615-658 | The scan of the directory gives the slot, the inode and the empty slot that SfsDir.Search says. |
| SfsNames.DirLink | os161-1.11/kern/fs/sfs/sfs_vnode.c:665-703 | Refuses a name that is there or too long, and uses an empty slot before growing the directory. |
| SfsNames.DirUnlink | os161-1.11/kern/fs/sfs/sfs_vnode.c:709-720 | Overwrites the slot with no inode and an empty name. |
| SfsNames.Lookup | os161-1.11/kern/fs/sfs/sfs_vnode.c:1417-1436 | The call is SfsOps.Lookup, so LookupCorrect holds of it. |
| SfsNames.MakeObj | os161-1.11/kern/fs/sfs/sfs_vnode.c:762-783 | Allocates a block and loads it as a new inode of the given type. |
| SfsNames.Creat | os161-1.11/kern/fs/sfs/sfs_vnode.c:1184-1236 | The call is SfsOps.Creat, so CreatCorrect holds of it. |
| SfsNames.Link | os161-1.11/kern/fs/sfs/sfs_vnode.c:1244-1264 | The call is SfsOps.Link, so LinkCorrect holds of it. |
| SfsNames.Remove | os161-1.11/kern/fs/sfs/sfs_vnode.c:1270-1297 | The call is SfsOps.Remove, so RemoveCorrect holds of it. |
| SfsNames.Rename | os161-1.11/kern/fs/sfs/sfs_vnode.c:1306-1379 | The call is SfsOps.Rename, so RenameCorrect holds of it; the branch that takes the new name out again is proved not to be reached. |
| SfsSync.WriteMap | os161-1.11/kern/fs/sfs/sfs_fs.c:40-73 | The bitmap is written block by block, each block holding its bits packed eight to a byte. |
| SfsSync.SyncInodes | os161-1.11/kern/fs/sfs/sfs_fs.c:81-145 | Writes every loaded inode back in table order. |
| SfsSync.Sync | os161-1.11/kern/fs/sfs/sfs_fs.c:81-145 | The call is SfsMount.Sync, so SyncAllCorrect holds of it. |
| Rings.Ring.Grow | os161-1.11/kern/lib/queue.c:18-51 | A larger ring with the same items in the same order. |
| Rings.Ring.AddTail | os161-1.11/kern/lib/queue.c:90-108 | The item comes after all the others; the ring grows if and only if it holds one item less than it has cells, so a full ring is told from an empty one. |
| Rings.Ring.RemHead | os161-1.11/kern/lib/queue.c:110-121 | Takes the oldest item. |
| Rings.PtrArray.Preallocate | os161-1.11/kern/lib/array.c:42-65 | Room for the number asked for, the items kept. |
| Rings.PtrArray.SetSize | os161-1.11/kern/lib/array.c:67-89 | Growing keeps the items, shrinking keeps the first ones. |
| Rings.PtrArray.Add | os161-1.11/kern/lib/array.c:99-114 | The item comes last. |
| Rings.PtrArray.Remove | os161-1.11/kern/lib/array.c:116-127 | Takes one item out and closes the gap. |
| ThreadInv.StepInv | os161-1.11/kern/thread/synch.c:63-386 | Every step of every thread (P, V, acquire, release, wait, signal, broadcast, fork, yield, exit, sleep, wakeup, dispatch) keeps the invariant of the thread system. |
| ThreadTrace.EveryRunSafe | os161-1.11/kern/thread/synch.c:63-386 | Over every run from boot: a thread is queued, once, exactly when it is asleep on itself; a free lock with waiters has a contender awake; every thread is in one place; nobody sleeps on a positive semaphore. Told from the calls and from who goes on after them: one thread at a time is in a lock; a count is what it began with, plus the calls of V, less the calls of P that have returned; numthreads is one more than the forks less the exits. |
| ThreadTrace.PExact | os161-1.11/kern/thread/synch.c:63-84 | P returns, at the call or at a dispatch, if and only if the count is positive; otherwise the thread sleeps on the semaphore, still in P. |
| ThreadTrace.SemRun | os161-1.11/kern/thread/synch.c:63-96 | From any sound state, over any run, a count changes by one up for each V and one down for each return from P, and for nothing else. |
| ThreadTrace.EntersIff | os161-1.11/kern/thread/synch.c:154-183 | A thread that tries for a lock, at the call or when it is dispatched, gets in if and only if nobody is in; otherwise it is asleep on itself. |
| ThreadTrace.LockStep | os161-1.11/kern/thread/synch.c:154-213 | Owner and queue of a lock after any step: one who is kept waiting joins at the end, a release or a wait leaves it free, and whoever drops it takes the first off the queue. |
| ThreadTrace.LockRun | os161-1.11/kern/thread/synch.c:154-213 | Over any run, told from who returns from lock_acquire and cv_wait and who leaves, no thread gets in while another is in, and the owner is the one who is in. |
| ThreadTrace.LockFifo | os161-1.11/kern/thread/synch.c:154-213 | A waiter for a lock moves up by one each time the lock is dropped, whoever comes later. |
| ThreadTrace.CvStep | os161-1.11/kern/thread/synch.c:288-386 | The queue of a condition variable after any step: a waiter joins at the end, a signal takes the first, a broadcast all, and nothing else changes it. |
| ThreadTrace.CvFifo | os161-1.11/kern/thread/synch.c:288-352 | A waiter on a condition variable moves up by one for each signal. |
| ThreadTrace.RunExact | os161-1.11/kern/thread/scheduler.c:87-118 | The run queue after any step: a dispatch takes its head, and what the call makes runnable comes last, in order. |
| ThreadTrace.WokenOrder | os161-1.11/kern/thread/thread.c:550-578 | A wakeup takes exactly those that sleep on the address, in the order in which they sleep. |
| ThreadTrace.WokenIff | os161-1.11/kern/thread/thread.c:535-578 | A sleeper is made runnable by exactly the calls that wake it, and is asleep where it was after any other. |
| ThreadTrace.SleepsUntilWoken | os161-1.11/kern/thread/thread.c:535-578 | Over any run a thread sleeps on until a call wakes it. |
| ThreadTrace.DispatchClears | os161-1.11/kern/thread/thread.c:101-116 | A thread that comes back from a switch clears away exactly those that have exited; a new one clears nothing; one that is new, has yielded or has slept goes on. |
| ThreadTrace.CallerGoes | os161-1.11/kern/thread/thread.c:468-544 | What becomes of the caller: it goes on after a release, signal, broadcast, V, wakeup or fork, waits after cv_wait and thread_sleep where those say, is runnable after a yield and a zombie after an exit. |
| ThreadRun.ReturnsHolding | os161-1.11/kern/thread/synch.c:288-318 | A thread that waits for a lock, in lock_acquire or cv_wait, only ever goes on as the lock's owner. |
| ThreadRun.DispatchedInTurn | os161-1.11/kern/thread/scheduler.c:87-118 | A thread at position k of the run queue is dispatched after exactly k other dispatches, whatever else is made runnable meanwhile, and that dispatch can then be made. |
| ThreadRun.ReleaseExact | os161-1.11/kern/thread/synch.c:185-213 | A release frees the lock and wakes the first waiter and no other. |
| ThreadRun.SignalExact | os161-1.11/kern/thread/synch.c:320-352 | A signal wakes the first waiter of the condition variable and, by dropping the lock on the way, the first waiter for the lock; the caller keeps the processor and has the lock again. |
| ThreadRun.BroadcastExact | os161-1.11/kern/thread/synch.c:354-386 | A broadcast wakes every waiter in the order they came, and the first waiter for the lock. |
| ThreadKernel.ThreadSystem.constructor | os161-1.11/kern/thread/thread.c:205-246 | One thread, current, and empty lists. |
| ThreadKernel.ThreadSystem.MakeRunnable | os161-1.11/kern/thread/scheduler.c:111-118 | The thread goes to the end of the run queue. |
| ThreadKernel.ThreadSystem.Scheduler | os161-1.11/kern/thread/scheduler.c:87-105 | The head of the run queue becomes current. |
| ThreadKernel.ThreadSystem.WakeUp | os161-1.11/kern/thread/thread.c:550-578 | The loop that removes entries from the array it goes through wakes every sleeper on the address, in order, and no other. |
| ThreadKernel.ThreadSystem.HasSleepers | os161-1.11/kern/thread/thread.c:584-599 | True exactly when some thread sleeps on the address. |
| ThreadKernel.ThreadSystem.SwitchOut | os161-1.11/kern/thread/thread.c:376-459 | The current thread goes on the list of its new state. |
| ThreadKernel.ThreadSystem.Exorcise | os161-1.11/kern/thread/thread.c:101-116 | The threads on the zombie list are disposed of and the list emptied. |
| ThreadKernel.ThreadSystem.Fork | os161-1.11/kern/thread/thread.c:267-370 | Room is made in every list, then the new thread is the last in the run queue. |
| ThreadKernel.ThreadSystem.YieldFirst | os161-1.11/kern/thread/thread.c:512-522 | The current thread goes to the end of the run queue. |
| ThreadKernel.ThreadSystem.SleepFirst | os161-1.11/kern/thread/thread.c:535-544 | The current thread goes to sleep on the address. |
| ThreadKernel.ThreadSystem.ExitFirst | os161-1.11/kern/thread/thread.c:468-507 | The current thread becomes a zombie and is no longer counted. |
| SynchKernel.SemP | os161-1.11/kern/thread/synch.c:63-84 | One turn of the loop of P on the kernel's lists is Threads.SemLoop. |
| SynchKernel.SemV | os161-1.11/kern/thread/synch.c:86-96 | V on the kernel's lists is Threads.Up. |
| SynchKernel.AcquireStep | os161-1.11/kern/thread/synch.c:154-183 | One turn of the loop of lock_acquire is Threads.LockLoop. |
| SynchKernel.LockRelease | os161-1.11/kern/thread/synch.c:185-213 | The release is Threads.Unlock. |
| SynchKernel.CvWaitStep | os161-1.11/kern/thread/synch.c:288-318 | cv_wait up to the switch is Threads.CvWait. |
| SynchKernel.CvSignalStep | os161-1.11/kern/thread/synch.c:320-352 | cv_signal is Threads.CvSignal. |
| SynchKernel.CvBroadcastStep | os161-1.11/kern/thread/synch.c:354-386 | cv_broadcast is Threads.CvBroadcast. |
| Coremaps.GetPagesOk | os161-1.11/kern/vm/coremap.c:105-195 | An allocation hands out pages that were all free, marks them as one block, changes nothing else and keeps the map in order; a failure changes nothing. It is the first such run at or after the place where the last search ended, or else the first before it, and the next search begins at its last page. |
| Coremaps.GetPagesFails | os161-1.11/kern/vm/coremap.c:68-103 | An allocation fails if and only if no free run of that length lies wholly below, or wholly at or above, the page where the last search ended. |
| Coremaps.StraddlingRunMissed | os161-1.11/kern/vm/coremap.c:68-103 | A free run that straddles that page is not found: seven calls after boot on four pages, two pages in a row are free and asking for two fails. |
| Coremaps.Decomposed | os161-1.11/kern/vm/coremap.c:105-195 | Every page is free and blank, a boot page, or in exactly one block. |
| Coremaps.FreePagesOk | os161-1.11/kern/vm/coremap.c:197-237 | Freeing blanks exactly the pages of the block that begins at the address. |
| Coremaps.FreeAgain | os161-1.11/kern/vm/coremap.c:197-237 | Freeing twice, or freeing inside a block, changes nothing. |
| Coremaps.GetThenFree | os161-1.11/kern/vm/coremap.c:197-237 | Freeing undoes an allocation, but for where the next search begins. |
| Coremaps.StepIs | os161-1.11/kern/vm/coremap.c:68-303 | Each call does what it should and nothing else: an allocation claims the next run that fits, or changes nothing if there is none; freeing blanks one block; fixing sets one state and noting one note, of a page that is not free. |
| Coremaps.EveryRunDecomposes | os161-1.11/kern/vm/coremap.c:68-303 | After any calls in any order from boot, each page is free, a boot page or in one block only, and the count in use is the number of pages that are not free. |
| Coremaps.Coremap.constructor | os161-1.11/kern/vm/coremap.c:25-61 | Pages below the first free one are fixed, the others free. |
| Coremaps.Coremap.GetFreePages | os161-1.11/kern/vm/coremap.c:68-103 | The two passes of the search, from where the last one ended and then from the start, give the run the pure search gives. |
| Coremaps.Coremap.Get | os161-1.11/kern/vm/coremap.c:105-195 | The allocation is Coremaps.GetPages. |
| Coremaps.Coremap.Free | os161-1.11/kern/vm/coremap.c:197-237 | The release is Coremaps.FreePages. |
| Coremaps.Coremap.SetPageFixed | os161-1.11/kern/vm/coremap.c:249-269 | A page in use becomes fixed or not, as asked; nothing else of it or of any page changes; a free page is left alone. |
| Coremaps.Coremap.SetPageVaddr | os161-1.11/kern/vm/coremap.c:286-303 | A page in use gets the space and the address given; nothing else of it or of any page changes; a free page is left alone. |
| Kheaps.LiveDisjoint | os161-1.11/kern/lib/kheap.c:351-460 | Blocks in use never share a byte. |
| KheapLive.SubAllocOk | os161-1.11/kern/lib/kheap.c:351-460 | A small allocation hands out a block not in use, of the smallest size that will do, and leaves every other block in use in use. |
| KheapLive.KmallocOk | os161-1.11/kern/lib/kheap.c:545-563 | kmalloc of any size gives a block that was not in use, long enough and aligned to 16 bytes, or fails with the heap unchanged. |
| KheapRoom.KmallocIff | os161-1.11/kern/lib/kheap.c:351-563 | An allocation fails if and only if, for a small one, no heap page of the smallest fitting size has a free block and there is no free page reference or no free page; for a large one, if no run of free pages long enough lies wholly below, or wholly at or above, the place where the last search ended. |
| KheapRoom.KmallocTakes | os161-1.11/kern/lib/kheap.c:351-563 | It takes no page while a page of the size has a free block, one page and one reference otherwise, and for a large one as many pages as it needs. |
| KheapLive.KfreeOk | os161-1.11/kern/lib/kheap.c:565-577 | kfree of a block in use takes exactly that block out of use. |
| KheapLive.NothingLive | os161-1.11/kern/lib/kheap.c:463-540 | When no block is in use, every page and every page reference has been given back. |
| KheapLive.EveryRunSound | os161-1.11/kern/lib/kheap.c:545-577 | Over every run of kmalloc and kfree from boot, the blocks in use are exactly those handed out and not freed since, they do not overlap, and once none is in use every page and reference has been given back. |
| KheapRaw.RefMap.Alloc | os161-1.11/kern/lib/kheap.c:111-133 | The first page reference not in use, found by words and then by bits. |
| KheapRaw.RefMap.Free | os161-1.11/kern/lib/kheap.c:136-148 | Clears one reference. |
| KheapRaw.RepPut | os161-1.11/kern/lib/kheap.c:463-540 | Writing the link word in a freed block and moving the head of the list represents the page with that block first on its free list. |
| KheapRaw.RepTake | os161-1.11/kern/lib/kheap.c:351-460 | Following the link word out of the head represents the page without that block. |
| KheapRaw.ListedRemove | os161-1.11/kern/lib/kheap.c:308-330 | Relinking both lists around a page represents the heap without the page. |
| KheapKernel.KHeap.Thread | os161-1.11/kern/lib/kheap.c:351-460 | The free list threaded through a fresh page's own memory links every block to the one before it and writes nothing outside the page. |
| KheapKernel.KHeap.BlockType | os161-1.11/kern/lib/kheap.c:333-348 | The smallest block size that will do. |
| KheapKernel.KHeap.SubKmalloc | os161-1.11/kern/lib/kheap.c:351-460 | On linked page references, packed words and free lists in memory: the allocation Kheaps.SubAlloc gives, and memory is written only in a page that was free. The answer is 0 if and only if there is no room, as KheapRoom.KmallocIff says. |
| KheapKernel.KHeap.RemoveLists | os161-1.11/kern/lib/kheap.c:308-330 | Takes a page off the list of its size and off the list of all pages, and moves no other. |
| KheapKernel.KHeap.SubKfree | os161-1.11/kern/lib/kheap.c:463-540 | The release Kheaps.Kfree gives; only the freed block's bytes are written; false exactly when the address is not in a heap page. |
| KheapKernel.KHeap.FillDeadbeef | os161-1.11/kern/lib/kheap.c:7-16 | Overwrites exactly the words given. |
| KheapKernel.KHeap.Kmalloc | os161-1.11/kern/lib/kheap.c:545-563 | The allocation Kheaps.Kmalloc gives, as an address; 0 if and only if there is no room, as KheapRoom.KmallocIff says. No block in use is written. |
| KheapKernel.KHeap.Kfree | os161-1.11/kern/lib/kheap.c:565-577 | The release Kheaps.Kfree gives, and no other block in use is written; the null pointer changes neither the heap nor memory. |
| KheapTrace.KeptUntilTouched | os161-1.11/kern/lib/kheap.c:545-577 | Over any sequence of allocations, releases and stores, a block in use stays in use with every word as it was, until it is freed or stored to. |
| KheapKernel.FreeSparesOthers | os161-1.11/kern/lib/kheap.c:463-540 | Freeing a block leaves every word of every other block in use as it was. |
| KheapKernel.MallocSparesLive | os161-1.11/kern/lib/kheap.c:351-460 | Allocating leaves every word of every block in use as it was. |
| PageTables.NoSharing | os161-1.11/kern/vm/pt.c:89-226 | Two mapped pages, of one address space or of two, never share a frame. |
| PageTables.NeverSwapped | os161-1.11/kern/vm/pt.c:72-158 | No entry an address leads to is ever in the swapped state, so the swap branches are not reached. |
| PageTableInv.GetTableOk | os161-1.11/kern/vm/pt.c:89-120 | Finding or making a second-level table changes no existing entry, no other address space and no page. |
| PageTableInv.GetPageOk | os161-1.11/kern/vm/pt.c:123-158 | Finding or making a page fills a vacant entry with a frame nobody owned, with the entry's permissions, and changes nothing else. |
| PageTableInv.GetPaddrOk | os161-1.11/kern/vm/pt.c:212-226 | A lookup gives the mapped frame; with create it maps the address; without, it answers PAGE_FREE exactly when nothing is mapped; no existing mapping changes. |
| PageTableInv.CreateOk | os161-1.11/kern/vm/pt.c:197-201 | A new page table maps nothing and shares no frame. |
| PageTableCopy.FaultMaps | os161-1.11/kern/vm/pt.c:212-226 | Mapping an address maps that page alone, in a frame that was nobody's. |
| PageTableFree.DestroyFrees | os161-1.11/kern/vm/pt.c:162-210 | Destroying a page table frees exactly the frames of its address space: pages, second-level tables and itself. |
| PageTableFree.DestroyInv | os161-1.11/kern/vm/pt.c:162-210 | Destroying one address space leaves every other as it was. |
| PageTableCopy.CopyIsolates | os161-1.11/kern/vm/pt.c:256-330 | Copying into an empty page table: each page to be copied, and so every writable one, appears at the same address with the same contents in a frame nobody owned, nothing else appears, and the parent and all other address spaces are unchanged word for word. |
| PageTableRegions.OverlapsIff | os161-1.11/kern/vm/pt.c:247-254 | The test for an overlap agrees with intersection if and only if the first interval is not strictly inside the second and the second does not end where the first begins. |
| PageTableRegions.ReadOnlyCopied | os161-1.11/kern/vm/pt.c:256-330 | A read-only page of the parent is in the copy if and only if every region it is in reaches past it on both sides and none ends where it begins; and exactly when that agrees with what was meant, a page being there if it is in no region. |
| PageTablePerms.CopyPermsIff | os161-1.11/kern/vm/pt.c:256-330 | A page copied into a new page table gets the permissions of the first page copied in the same four megabytes, because a second-level table is made with one value for all its entries; it keeps the permissions of the page it copies if and only if those two agree. |
| PageTablePerms.SharedTableLoses | os161-1.11/kern/vm/pt.c:256-330 | Of two copied pages in the same four megabytes with different permissions, at least one has the wrong permissions in the copy. |
| PageTablePerms.PaddrIs | os161-1.11/kern/vm/pt.c:123-226 | What pt_get_paddr answers to the bit: frame and permissions of a page that is there; of one that it makes, the whole entry with its state bit, the permissions being those of the entry or, in a new table, those asked for. |
| PageTableReached.SharedTableReached | os161-1.11/kern/vm/pt.c:197-330 | From any state with eight free pages, and for any two pages of one second-level table, five calls (create, two faults, one change of permissions, create) lead to an address space with different permissions on the two; copying it then succeeds and leaves one of them wrong. |
| PageTableReached.DeepPageCopied | os161-1.11/kern/vm/pt.c:247-330 | From any state with six free pages, four calls make the second of a region's three pages present and read-only; the copy then succeeds and has the page. |
| PageTableReached.NextPageLost | os161-1.11/kern/vm/pt.c:247-330 | The same with the page after the region, in no region itself: the copy succeeds without it. |
| PageTableRoom.FaultRoom | os161-1.11/kern/vm/pt.c:212-226 | A fault succeeds if and only if as many pages are free as it takes, one for the page if it is not there and one for its table if that is not, and takes that many. |
| PageTableRoom.CopyRoom | os161-1.11/kern/vm/pt.c:256-330 | Copying into a new address space succeeds if and only if as many pages are free as there are pages to copy and second-level tables for them, and takes that many. |
| PageTableNotes.EveryRunNoted | os161-1.11/kern/vm/pt.c:16-330 | In every state that a run reaches: a top-level table is fixed in memory, a page that an address leads to is not, and the coremap notes that address for it. While a page is copied, it and its copy are fixed. |
| PageTableRun.SetPermsOk | os161-1.11/kern/vm/pt.c:228-245 | Changing permissions keeps the invariant of all page tables together. |
| PageTableRun.SetPermsIs | os161-1.11/kern/vm/pt.c:228-245 | Setting permissions succeeds exactly when the page is there or may be made; the page then has exactly the permissions given and the frame it had, every other page keeps its frame and its entry, no word of another address space changes, and a failure changes nothing. |
| PageTableRun.StoreOk | os161-1.11/kern/vm/pt.c:212-226 | A store through a mapping changes one word of one page and no table. |
| PageTableRun.StepGood | os161-1.11/kern/vm/pt.c:197-330 | Every call keeps the invariant of all page tables together. |
| PageTableStay.RunStays | os161-1.11/kern/vm/pt.c:197-330 | From any good state, over any run that does not destroy the address space: a mapped page keeps its frame, and its contents unless the run stores to that page; so parent and child stay apart after a copy. |
| PageTableStay.EveryRunSound | os161-1.11/kern/vm/pt.c:197-330 | Over any run of creating, faulting, looking up, changing permissions, storing, copying and destroying: no frame is shared, no entry is swapped, a page mapped at any point stays in its frame until its address space is destroyed and keeps its contents until it is stored to, and once every address space is gone the coremap is page for page what it was. |
| PageTableSees.StepSees | os161-1.11/kern/vm/pt.c:16-330 | What each call makes of each word of each page of each address space: a store changes the word it names; a copy gives the child each page to be copied, with its contents, and nothing else; a fault brings the page that was missing; nothing else is seen to change. |
| PageTableSees.StepRoots | os161-1.11/kern/vm/pt.c:16-78 | Creating adds one address space, which sees nothing; destroying takes one away; no other call changes which there are. |
| PageTableSees.RunSees | os161-1.11/kern/vm/pt.c:197-330 | A program that can see a word reads there what it stored last, whatever calls are made for it or for any other address space, until its own is destroyed. |
| PageTableSees.ForkThenRun | os161-1.11/kern/vm/pt.c:256-330 | After a copy, over any run, parent and child each see what the parent had, changed by their own stores only. |
| PageTableKernel.Machine.GetPagetable | os161-1.11/kern/vm/pt.c:89-120 | On memory and coremap updated in place: PageTables.GetTable. |
| PageTableKernel.Machine.GetPageAt | os161-1.11/kern/vm/pt.c:123-158 | On memory and coremap updated in place: PageTables.GetPage. |
| PageTableKernel.Machine.PtGetPaddr | os161-1.11/kern/vm/pt.c:212-226 | On memory and coremap updated in place: PageTables.GetPaddr. |
| PageTableKernel.Machine.PtSetPermissions | os161-1.11/kern/vm/pt.c:228-245 | On memory and coremap updated in place: PageTables.SetPerms, so SetPermsIs holds of it. |
| PageTableKernel.Machine.PtCreate | os161-1.11/kern/vm/pt.c:16-32 | On memory and coremap updated in place: PageTables.Create, a top-level table of vacant entries. |
| PageTableKernel.Machine.PtDestroy | os161-1.11/kern/vm/pt.c:204-210 | The two nested loops are PageTables.Destroy, so DestroyFrees holds of them. |
| PageTableKernel.Machine.InRegion | os161-1.11/kern/vm/pt.c:247-254 | The loop over the regions, with 32-bit wrap-around of their ends, decides whether a page is left to be loaded again. |
| PageTableKernel.Machine.PtCopy | os161-1.11/kern/vm/pt.c:256-330 | The nested loops are PageTableCopy.Copy, so CopyIsolates holds of them. |
| Randoms.AdvanceOk | os161-1.11/lib/libc/random.c:414-442 | The two pointers never wrap on the same call and stay their distance apart round the table. |
| Randoms.StepsOk | os161-1.11/lib/libc/random.c:414-442 | After n numbers the rear pointer has moved n round the table, and the table is still valid. |
| Randoms.SeedOk | os161-1.11/lib/libc/random.c:231-247 | Seeding gives a valid table with the rear pointer back at its start. |
| Randoms.ResumesExactly | os161-1.11/lib/libc/random.c:281-394 | Switch away from a table with initstate or setstate, do anything with other tables, and switch back with setstate: the numbers that follow are exactly those that would have followed. |
| Randoms.EnteringNotes | os161-1.11/lib/libc/random.c:281-394 | initstate, and setstate to another table, leave the position noted in the table in use. |
| Randoms.SetCurrentIff | os161-1.11/lib/libc/random.c:353-394 | setstate on the table in use, k numbers after its position was noted, leaves the generator where it is if and only if the generator is the linear one or k is a multiple of the degree of the table; the numbers that follow are then the same. |
| Randoms.SetCurrentRewinds | os161-1.11/lib/libc/random.c:353-394 | From any state, initstate on a table of 32 bytes, one number, setstate on the same table: the generator has moved back, though the comment calls the call harmless. |
| RandomNumbers.NumbersAre | os161-1.11/lib/libc/random.c:414-442 | Number t is half of term t + deg of the sequence whose first deg terms are the cells from the front pointer on and in which each later term is the sum, in 32 bits, of the terms deg and sep places before it. |
| RandomNumbers.SmallNumbers | os161-1.11/lib/libc/random.c:414-442 | With the smallest table, number t is term t + 1 of the linear congruential sequence in 31 bits. |
| RandomNumbers.SeedNumbers | os161-1.11/lib/libc/random.c:231-247 | After seeding, number t is half of term t + 11 deg of the recurrence whose first terms are the closed form of the congruential sequence in 32 bits from the seed; the table before has no say. |
| RandomNumbers.SeededCalls | os161-1.11/lib/libc/random.c:231-332 | srandom does that to the table in use and initstate to the table given, which it then uses; no third table changes. |
| RandomNumbers.TypeLargest | os161-1.11/lib/libc/random.c:281-332 | initstate takes the largest type that the bytes given have room for. |
| RandomNumbers.InitRefused | os161-1.11/lib/libc/random.c:281-332 | A table of less than eight bytes is refused and the numbers go on as they would have. |
| RandomNumbers.RandomCall | os161-1.11/lib/libc/random.c:414-442 | random gives the first of the numbers to come and leaves the others to come; no other table changes. |
| RandomNumbers.SetCall | os161-1.11/lib/libc/random.c:353-394 | setstate takes up the table given at the type and position recorded in it, records those of the table left, and changes nothing else. |
| RandomKernel.Generator.Random | os161-1.11/lib/libc/random.c:414-442 | The next number, in place, is Randoms.Step. The number is the next term of the recurrence, halved. |
| RandomKernel.Generator.Srandom | os161-1.11/lib/libc/random.c:231-247 | The filling loop and the discarding loop are Randoms.Seed. |
| RandomKernel.Generator.InitState | os161-1.11/lib/libc/random.c:281-332 | Saves the old table's position, chooses the type by size, refuses fewer than 8 bytes, seeds the new table. |
| RandomKernel.Generator.SetState | os161-1.11/lib/libc/random.c:353-394 | Saves the position in the old table and takes type and position from the new one. |
| Pseudorands.NextIs | os161-1.11/kern/dev/generic/pseudorand.c:20-39 | The two-part computation that avoids overflow is multiplication by 16807 modulo 2^31 - 1; no intermediate result leaves 32 bits and no seed becomes 0. |
| Pseudorands.NextBack | os161-1.11/kern/dev/generic/pseudorand.c:20-39 | The step is a permutation of the seeds, with its inverse. |
| Pseudorands.RunIs | os161-1.11/kern/dev/generic/pseudorand.c:20-39 | The n-th seed is the first times 16807 to the n, modulo 2^31 - 1. |
| Pseudorands.Softc.Random | os161-1.11/kern/dev/generic/pseudorand.c:20-48 | Gives a number from 0 to the device's stated maximum and keeps the seed a seed. |
| Printfs.BufferSuffices | os161-1.11/lib/libc/__printf.c:54 | The number buffer is long enough for every 32-bit number in every base and, in base 8, not a byte too long. |
| PrintfText.DigitsNumeral | os161-1.11/lib/libc/__printf.c:379-456 | The digits made for a number read, positionally, as the number, with no zero in front. |
| PrintfText.OneNumeral | os161-1.11/lib/libc/__printf.c:379-456 | A number has one such numeral in a base. |
| PrintfText.ModsRead | os161-1.11/lib/libc/__printf.c:149-206 | Any modifiers in any order: '#' and '-' count wherever they stand, the digits make the width, and a zero before any other digit makes zeros the fill. |
| PrintfText.DirectivePrints | os161-1.11/lib/libc/__printf.c:462-528 | Any directive: %d, %u, %o, %x and %p print the numeral of the argument in base 10, 8 or 16 after a minus, 0x or 0; %s the text, %c the character, %% and any other character itself; padded on the side and with the fill that the modifiers say. It takes one argument or none, and the next begins afresh. |
| PrintfText.FormatPrints | os161-1.11/lib/libc/__printf.c:535-553 | Every format is plain text and directives; it prints what these say, in order, each with the arguments left for it; a directive broken off at the end prints nothing. |
| PrintfText.BareNumber | os161-1.11/lib/libc/__printf.c:213-309 | %u, %o, %x and %p without modifiers print the numeral of the argument modulo 2^32; with '#' and for %p the prefix of the base comes first. |
| Atois.Atoi | os161-1.11/lib/libc/atoi.c:20-72 | The loop with its sign and white space is Atois.Parse, wrapping at 32 bits. |
| Atois.AtoiReads | os161-1.11/lib/libc/atoi.c:20-72 | White space (tabs too), a sign or none, digits and anything after them read as the positional value of the digits, negated after a minus, wrapped to 32 bits. |
| Atois.AtoiParts | os161-1.11/lib/libc/atoi.c:20-72 | Every text has such parts. |
| Atois.RoundTrip | os161-1.11/lib/libc/atoi.c:20-72 | Printing any 32-bit integer with %d and parsing it gives it back, for every width, filled with spaces on either side or zeros on the left. |
| Atois.LeftZeroIff | os161-1.11/lib/libc/__printf.c:331-369 | With zeros on the right it comes back if and only if it is 0 or fills the field. |
| Atois.OneReadsTen | os161-1.11/lib/libc/__printf.c:331-369 | 1 in a field of two, with zeros on the right, does not come back. |
| Atois.FormatRoundTrip | os161-1.11/lib/libc/__printf.c:462-528 | The same through the format string, for every combination of flags: it comes back if and only if zeros are not on the right of a number that they would change. |
| Snprintfs.Snp.Send | os161-1.11/lib/libc/snprintf.c:45-64 | Stores as much of the text as fits and never writes past the end. |
| Snprintfs.Convert | os161-1.11/lib/libc/__printf.c:379-456 | The digits written from the end of the buffer are the number's text, and the buffer is never overrun. |
| Snprintfs.Printer.PrintStuff | os161-1.11/lib/libc/__printf.c:331-369 | Prefix, fill and text in the order the flags ask for. |
| Snprintfs.Printer.PrintNum | os161-1.11/lib/libc/__printf.c:379-456 | A number with its sign and prefix as a field. |
| Snprintfs.Printer.SendChar | os161-1.11/lib/libc/__printf.c:462-528 | One character of a format does what Printfs.Feed says. |
| Snprintfs.Vprintf | os161-1.11/lib/libc/__printf.c:535-553 | A whole format gives the text Printfs.Format says and its length. |
| Snprintfs.Vsnprintf | os161-1.11/lib/libc/snprintf.c:69-112 | The first characters that leave room for the terminator, the terminator, nothing past it, nothing at all for length 0, and the length of the whole text returned. |

## Left out

- SfsIo.WriteCorrect: offset and length together stay below 2^31, where the 32-bit signed offset of the code would overflow.
- SfsTruncate.TruncateCorrect: the new length stays below 2^31, for the same reason.
- SfsKernel.SfsVolume.Io: offset and residue together stay below 2^31, for the same reason.
- SfsRefine.EveryRunRefines: the model may refuse a new name for lack of room at any time, and a write may stop short; when the code does so is in SfsOps.CreatCorrect, SfsOps.DirLinkInv and SfsIo.WriteCorrect.
- SfsRun.EveryRunSound: a run of the file system closes a file before its last reference goes and does not rename the root, as the assertions of the code demand.
- SfsMkfs.Mksfs: the device holds at least its own superblock, root inode and bitmap; the program stops at an assertion otherwise.
- SfsKernel.DoMount: the block count in the superblock is such that the bitmap lies on the device and has fewer than 2^32 bits; on others the kernel panics when the device refuses the block.
- Uios.Uio.Move: asking for more than is left is modelled where the memory area ends with the transfer; where it goes on, the code would copy too much and its unsigned residue would wrap.
- Uios.Uio.MoveZeros: the same.
- PageTableRegions.ReadOnlyCopied: the regions are not empty and, like the page, end before the last address.
- KheapKernel.KHeap.Kfree: the address is that of a block in use; the code panics on others that it can tell.
- RandomKernel.Generator.constructor: the 31 values in the initial table are taken as they are; that they are those of seed 1 is not shown.
- PageTableCopy.CopyIsolates: says nothing of permission bits, which PageTablePerms.CopyPermsIff does, nor of the zeroing of new pages, which the code does not do.
- Device errors and retries, the limits of the block device, and the names of volumes.
- Memory running out in the file system and in the thread system, where the model always has room for a vnode, a vector or a thread.
- Faults while bytes are copied to or from user space.
- Locks around vnodes and volumes; calls on one volume are taken one at a time.
- Directories below the root, symbolic links, mmap, ioctl and stat, which the file system refuses or which read fields only.
- Creating and destroying semaphores, locks and condition variables, and the reuse of the memory of a thread that has gone.
- The machine-dependent switch, stacks and trap frames; a thread is where it goes on.
- The queues of locks and condition variables are sequences in SynchKernel; that the ring buffer of the kernel behaves as a sequence is proved in Ring.
- Swapping: the code for it is incomplete, and NeverSwapped proves that it is not reached.
- Out of memory in the page tables is the absence of a result, since the code panics; the TLB and the handling of a fault before the page table is looked up.
- Coremap statistics and vm statistics, and the consistency checks of the heap that only print.
- The long long conversions of printf, %s of a null pointer other than the text printed for it, and a count of characters or a field width past 2^31.
- The read call of the random device, which only copies numbers out.
- System calls, executable loading and the user programs other than mksfs.
