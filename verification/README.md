# FrostVistaOS: verified kernel model

This project models the parts of FrostVistaOS where ownership, sharing and long-running protocols decide
correctness, and proves what they keep. `dafny verify dfyconfig.toml` checks all of it.

Each component comes in two layers. A value layer holds the state as a datatype, every operation as a function,
an invariant, and lemmas over single steps and whole runs. A machine layer holds the same state as the kernel does
(linked free lists, page-table entries, bitmap bytes, ring slots, list links) in a class or an array whose methods
run the kernel's loops; each method is proved to compute the function of the value layer.

| files | component |
|---|---|
| `Frames`, `PageTables`, `Cow`, `TableFree`, `AddressSpaces`, `ForkSpace`, `ForkWrites`, `UserCopy`, `Machine`, `MemoryExamples` | page allocator, three-level page tables, fork by copy-on-write, `copyin` and `copyout` |
| `PteWords`, `TlbWalk`, `TlbRuns` | page-table and TLB entries as 64-bit words, the TLB refill handler, both over whole runs |
| `EasyFs`, `EasyFsSpace`, `EasyFsFiles`, `EasyFsDisk`, `EasyFsImage`, `EasyFsRuns` | block mapping, files as byte sequences, truncation, `mkfs` |
| `Tmpfs`, `TmpfsFiles`, `TmpfsSpace`, `TmpfsBytes`, `TmpfsRuns` | page trees of tmpfs files, the pages they need, their bytes, runs of requests |
| `Virtio`, `VirtioProtocol`, `VirtioDriver` | virtio block driver against a device that completes in any order |
| `Lists`, `BufferCache`, `BufferCacheRuns`, `BufferCacheSaves`, `BufferCacheLru`, `BufferCacheLists`, `CacheDriver` | doubly linked lists, the LRU buffer cache over a disk and over the virtio driver |
| `PipeRing`, `PipeProtocol`, `PipeReturns` | the pipe ring, its sleep and wakeup protocol, what its calls return |
| `Slab`, `SlabLists`, `Kmalloc`, `KmallocOps`, `KmallocRuns`, `KmallocHeap` | slab caches and `kmalloc` |
| `Pci` | BAR placement, range merging |
| `SignalMasks`, `Signals` | masks, signal frames, `rt_sigreturn` |
| `Paths`, `Vmas`, `FileRefs` | path normalization, the VMA table, file reference counts |
| `Counting`, `Blocks` | sizes of sets and of lists without duplicates; disk blocks |

How the model reads the system:

- Physical frames, blocks, descriptors, buffers and processes are indices. A frame or a disk block has two views,
  as addresses and as bytes; ownership keeps the views apart.
- A region under one lock is one step. Runs are sequences of steps by any number of processes and, for virtio, by the
  device; sleeping and waking are steps of their own in the pipe protocol.
- `held` in the memory model is the multiset of references a kernel path has in hand. Between system calls it is
  empty, and counts then equal the number of leaf entries.
- Panics are conditions proved unreachable, or outcomes a method reports.
- Machine words are written out where they matter: wrapping 16-bit ring indices, 32-bit pipe counters and file
  offsets, 64-bit lengths, masks and page-table words.

## Findings

Places where a property one would expect does not hold for all inputs. Each has its exact condition and an input that
fails.

- `bread` uses the result of `bget` without a test. `BufferCacheRuns.BgetFails` gives the states where there is no
  buffer: the block is not cached and all 32 buffers are referenced; `NoBufferRun` reaches one.
- The buffer cache keys blocks by device and number, the disk driver only by number. `BufferCacheRuns.CoherentIff`:
  all runs are coherent if and only if no block number is used under two device numbers; `StaleRun` shows a stale read.
- A buffer released changed and not written stays valid and differs from the disk. `BufferCacheSaves.EqualIff`: with
  one device number per block, the buffers of a block equal the disk in every run if and only if no client releases
  that block changed; `AllEqualIff` says it of all blocks, `UnsavedRun` reaches a difference. Truncation releases
  indirect blocks this way; there `bfree` writes the same block right afterwards, which ends the difference
  (`BufferCacheSaves.WriteEqual`).
- `kmfree` of an address handed out before is sound if and only if the address is that of a block of the page's present
  use (`KmallocRuns.FreeExact`), and changes nothing if and only if it is on the free list of a slab page
  (`KmallocRuns.NothingChanges`). `KmallocRuns.FreedTwice`: a whole-page block freed twice links its page to itself.
- `freewalk` frees tables only. `TableFree.FreeWalkExact`: counts stay exact if and only if no page is mapped;
  `MemoryExamples.FreeWalkLosesPage` is a run that loses a page.
- After a failed fork the parent keeps its bytes, but the pages before the stop stay marked copy-on-write.
  `AddressSpaces.ForkUnchanged`: its entries are unchanged if and only if none of them was writable.
  `ForkSpace.ForkExact` says when fork fails, `MemoryExamples.ForkLeavesMark` is a run that leaves a mark.
- `do_mmap` rounds lengths above 2^64 - 4096 to 0 and succeeds with an empty area (`Vmas.RoundUpExact`,
  `Vmas.EmptyMapping`).
- EasyFS reads map holes, so a read can be short on a full disk; `EasyFsDisk.Disk.ReadInode` gives the exact condition,
  `EasyFsRuns.SparseRead` such a read.
- A tmpfs read stops short at a page that was never written. `TmpfsBytes.FullRead`: a read is full if and only if every
  page of the stretch exists; `TmpfsRuns.HoleRead` is one that is not. `TmpfsBytes.SolidExact`: a write leaves no such
  gap if and only if it starts no later than in the page after the last one.
- A tmpfs write that runs out of memory keeps the pages it has written but not the size. It runs out if and only if the
  free pages do not cover the pages its blocks lack (`TmpfsBytes.Store.Write`). `TmpfsBytes.FailedExact`: in a file
  without gaps nothing of such a write is seen, whatever the buffer, if and only if it starts at or behind the end;
  `TmpfsRuns.FailedWrite` is a failed write that is seen. A write of no bytes moves the end if and only if it is past it
  (`TmpfsBytes.Store.Write`, `TmpfsRuns.EmptyWrite`).
- One malformed assigned BAR makes every PCI placement fail (`Pci.FirstFit`, `Pci.MalformedBar`).
- `rt_sigreturn` restores only frames whose saved program counter and stack pointer are not 0 (`Signals.ReturnExact`,
  `Signals.ReturnRefused`).

## Model

| member | source | states |
|---|---|---|
| `Frames.KallocKeeps` | kernel/mm/kalloc.c:151-174 | taking the head of the free list keeps the invariant (list without duplicates, counts exact, tables a tree) with the new frame in hand and no leaf mapping it |
| `Frames.KfreeKeeps` | kernel/mm/kalloc.c:103-147 | giving up one reference in hand keeps the invariant, whether the count drops or the frame goes back to the list |
| `Frames.IncKeeps` | kernel/mm/kalloc.c:30-54 | `refcnt_inc` and `refcnt_dec` keep counts exact when a reference in hand is gained or given up |
| `Frames.SetLeafKeeps` | arch/loongarch/mm/vm.c:146-187 | rewriting one leaf keeps the invariant exactly when the references in hand balance the one the leaf loses and the one it gains |
| `Cow.HeldCounted` | kernel/mm/kalloc.c:43-54 | a reference in hand means a count of at least 1, so the panic of `refcnt_dec` is not reached |
| `AddressSpaces.BootOk` | kernel/mm/kalloc.c:59-86 | the state `kalloc_init` builds satisfies the invariant, with every frame above the kernel on the list |
| `Machine.Memory.constructor` | kernel/mm/kalloc.c:59-86 | the linked free list built at boot is exactly that state |
| `Machine.Memory.Release` | kernel/mm/kalloc.c:103-147 | `kfree` on the linked list computes its specification, the size counter is the list length, the range panic is unreachable |
| `Machine.Memory.Acquire` | kernel/mm/kalloc.c:151-174 | `kalloc` on the linked list computes its specification and fails exactly when the list is empty |
| `PageTables.SlotUnique` | arch/loongarch/mm/vm.c:87-120 | tables form trees without sharing: two walks that end at one leaf entry started from the same root and page |
| `PageTables.NodeWalk` | arch/loongarch/mm/vm.c:87-120 | every leaf table is reached by exactly the walk its place in the tree says |
| `PageTables.NewTableKeeps` | arch/loongarch/mm/vm.c:103-117 | a new directory or table keeps the invariant and changes no set of leaves |
| `PageTables.DescendGrows` | arch/loongarch/mm/vm.c:93-117 | one level of an allocating walk changes no translation and fails exactly when memory is exhausted and the entry is missing |
| `PageTables.WalkGrows` | arch/loongarch/mm/vm.c:87-120 | an allocating walk changes no translation and no byte; if it fails the list is empty and the page had no leaf table |
| `PageTables.SetLeafView` | arch/loongarch/mm/vm.c:146-187 | writing the leaf entry of one page changes the translation of that page and of no other page of any address space |
| `Cow.MapPageKeeps` | arch/loongarch/mm/vm.c:146-187 | mapping one unmapped page changes exactly that translation and keeps the invariant; it fails only without memory |
| `Cow.MapPageRemap` | arch/loongarch/mm/vm.c:146-187 | the remap panic is met exactly for a page already mapped, before anything changes |
| `Cow.PageNum` | arch/loongarch/include/asm/vm.h:52-57 | the three indices decoded from a page number give the number back |
| `Cow.NumPage` | arch/loongarch/mm/vm.c:561-562 | the page number rebuilt from three indices decodes to the same indices |
| `Machine.Memory.Child` | arch/loongarch/mm/vm.c:93-117 | one level of `walk`, with and without allocation, computes its specification |
| `Machine.Memory.Walk` | arch/loongarch/mm/vm.c:87-120 | `walk` computes its specification; without allocation it changes nothing |
| `Machine.Memory.MapOne` | arch/loongarch/mm/vm.c:165-178 | one round of `mappages` computes its specification; it panics exactly when the page is mapped, and fails only when the free list is empty, with every translation and byte kept |
| `Machine.Memory.MapPages` | arch/loongarch/mm/vm.c:161-186 | exactly the pages asked for are mapped, in order, to consecutive frames; when memory runs out or a page is mapped already exactly the pages before it, with the rest of the frames still in hand |
| `Machine.Memory.Mappages` | arch/loongarch/mm/vm.c:146-187 | the refused arguments are exactly the empty, unaligned and wrapping ones, and then nothing changes; otherwise 0 is returned exactly when every page was mapped, and the panic comes exactly at a page mapped already; a range that runs past the last page goes on at page 0 |
| `Machine.Memory.MapAcross` | arch/loongarch/mm/vm.c:157-186 | across the last page: the pages before it, then the pages from 0 on, each part as `MapPages` states it |
| `Machine.Memory.Kvmunmap` | arch/loongarch/mm/vm.c:274-303 | panics exactly on unaligned or wrapping ranges; otherwise exactly the mapped pages of the range are dropped |
| `Machine.Memory.Unmap` | arch/loongarch/mm/vm.c:314-338 | dropping a page range entry by entry equals dropping its pages one after the other |
| `Cow.DropKeeps` | arch/loongarch/mm/vm.c:274-338 | exactly the pages of the range lose their mapping, every other page keeps entry and bytes, and counts stay exact |
| `Machine.Memory.Uvmalloc` | arch/loongarch/mm/vm.c:398-423 | on success exactly the pages of the range, none of them mapped before, become zero pages with the given permissions; without memory every translation and every byte is as before; it panics only at a page mapped before, with exactly the pages before it filled and one frame in hand |
| `Machine.Memory.UndoFill` | arch/loongarch/mm/vm.c:398-423 | out of memory, the pages filled so far are unmapped and every translation and byte is as before the call |
| `Cow.SharedNotWritable` | arch/loongarch/mm/vm.c:529-593 | in every state of the invariant a frame mapped by two leaves is writable in neither |
| `Cow.MarkKeeps` | arch/loongarch/mm/vm.c:563-574 | marking a leaf keeps the invariant with one reference in hand; the entry keeps frame and rights, loses the right to write, and is copy-on-write exactly if it was writable or copy-on-write before |
| `Cow.UndoKeeps` | arch/loongarch/mm/vm.c:576-580 | restoring the leaf and the count after a failed share gives back every translation and every byte |
| `Cow.ShareKeeps` | arch/loongarch/mm/vm.c:561-580 | one page of fork: shared between both address spaces without write permission, or, when memory runs out, nothing seen has changed |
| `Cow.CopyKeeps` | arch/loongarch/mm/vm.c:529-593 | by induction over all pages: both address spaces have the same entries up to the page where the copy stops, marked copy-on-write where they were writable, and no other entry changes; it fails exactly when it stops short, at a mapped page and with no frame left |
| `Cow.ReplaceKeeps` | arch/loongarch/mm/vm.c:937-951 | replacing a leaf by one on a frame in hand, or by none, frees the old reference and changes no other page |
| `Cow.CowFaultKeeps` | arch/loongarch/mm/vm.c:923-956 | the fault is resolved if and only if the page is a user copy-on-write page and a frame is free; then the page is private and writable and no byte changes, otherwise nothing does |
| `Cow.StoreKeeps` | arch/loongarch/mm/vm.c:759-776 | a store through a writable leaf changes the bytes of that page in that address space and of no other page anywhere |
| `Cow.LazyMapKeeps` | arch/loongarch/mm/vm.c:874-900 | mapping a fresh page changes exactly that page; a failure changes no translation and no byte and means at most one frame is left |
| `TableFree.FreeWalkKeeps` | arch/loongarch/mm/vm.c:434-469 | once nothing is mapped, `freewalk` returns every table of the address space once and keeps the invariant |
| `TableFree.FreeWalkExact` | arch/loongarch/mm/vm.c:434-469 | after `freewalk` counts are exact if and only if no page was mapped: mapped frames are leaked otherwise |
| `TableFree.FreeWalkEffect` | arch/loongarch/mm/vm.c:434-469 | the free list grows by exactly the tables of the root, each once, and no other address space changes |
| `AddressSpaces.ForkKeeps` | arch/loongarch/mm/vm.c:529-593 | a successful fork gives both address spaces the same bytes and the same entries at every user page: frame and rights as before, not writable, copy-on-write exactly where writing was allowed or pending; a failed one leaves the child empty and every address space its bytes, with exactly the writable pages before the stop marked in the parent and no frame left at the stop |
| `ForkWrites.ForkFields` | arch/loongarch/mm/vm.c:529-593 | after a successful fork, field by field and in both spaces: valid, frame, user, no-read and no-execute as before, neither writable nor dirty, copy-on-write exactly if writable or copy-on-write before |
| `ForkWrites.FailedForkFields` | arch/loongarch/mm/vm.c:529-593 | after a failed fork the fields of every user entry of the parent, before and behind the stop |
| `ForkWrites.WriteResolves` | arch/loongarch/mm/vm.c:923-956 | a write goes through whenever the page may be written, at once or after a fault, and a frame is free or none is needed; the page is then writable and no byte of any space has changed |
| `ForkWrites.ForkThenWrite` | arch/loongarch/mm/vm.c:923-956 | after a fork a write to a page that was writable goes through in either space with a frame free, and the other space keeps its bytes |
| `ForkWrites.StepWritable` | arch/loongarch/mm/vm.c:529-593 | no operation but one that removes the page takes or gives the right to write it |
| `ForkWrites.RunWritable` | arch/loongarch/mm/vm.c:529-593 | over every run that does not remove a page, whatever forks, faults and stores happen in any address space, the right to write it stays as it was |
| `ForkWrites.WriteAfterFork` | arch/loongarch/mm/vm.c:529-593 | a page the parent could write before a fork: after the fork and any run that does not remove it, either space can write it with a frame free, and reads there the bytes it had |
| `AddressSpaces.ForkUnchanged` | arch/loongarch/mm/vm.c:529-593 | a failed fork leaves every entry of the parent as it was if and only if no page before the stop was writable |
| `ForkSpace.WalkNeed` | arch/loongarch/mm/vm.c:87-120 | an allocating walk takes one frame per missing table and succeeds exactly when there are that many |
| `ForkSpace.CopyNeed` | arch/loongarch/mm/vm.c:529-593 | copying a stretch of pages goes through exactly when the free frames cover the tables the child still lacks for its mapped pages |
| `ForkSpace.ForkExact` | arch/loongarch/mm/vm.c:529-593 | fork succeeds if and only if the free frames cover one root and the distinct directories and leaf tables of the mapped user pages |
| `ForkSpace.StopExact` | arch/loongarch/mm/vm.c:529-593 | a failed fork stops at the first user page whose tables no longer fit |
| `ForkSpace.LazyNeed` | arch/loongarch/mm/vm.c:874-900 | a page is mapped on demand if and only if a frame is free for it and for each missing table, and takes exactly those |
| `MemoryExamples.ForkLeavesMark` | arch/loongarch/mm/vm.c:529-593 | from boot, a root and two demand-mapped pages with three frames left: fork fails and the first page has lost its write permission |
| `MemoryExamples.FreeWalkLosesPage` | arch/loongarch/mm/vm.c:434-469 | in the same run `freewalk` leaves the counts wrong |
| `AddressSpaces.StepKeeps` | arch/loongarch/mm/vm.c:529-956 | every operation (fork, store, write fault, lazy mapping, unmapping, exit) keeps the invariant and every page it is not about |
| `AddressSpaces.RunKeeps` | arch/loongarch/mm/vm.c:497-956 | exact reference counts, a duplicate-free list and no shared writable frame in every state of every run |
| `AddressSpaces.RunIsolates` | arch/loongarch/mm/vm.c:529-956 | a page that no operation of a run is about reads the same bytes after it, and keeps its entry if it is read-only |
| `AddressSpaces.ForkIsolation` | arch/loongarch/mm/vm.c:529-593 | after a fork, whatever the other side does in any run, this side keeps reading the bytes it had at the fork |
| `Machine.Memory.MarkPage` | arch/loongarch/mm/vm.c:563-574 | marking in place computes its specification; the panic of `refcnt_inc` is unreachable |
| `Machine.Memory.Unmark` | arch/loongarch/mm/vm.c:576-580 | undoing the mark in place computes its specification; the panic of `refcnt_dec` is unreachable |
| `Machine.Memory.SharePage` | arch/loongarch/mm/vm.c:561-580 | the body of the innermost loop computes the sharing of one page |
| `Machine.Memory.CopyTable` | arch/loongarch/mm/vm.c:555-581 | the innermost loop does what copying its 512 pages one after the other does |
| `Machine.Memory.CopyDir` | arch/loongarch/mm/vm.c:547-582 | the middle loop, with its skipped directories, does what copying its 262144 pages does |
| `Machine.Memory.CopyDirs` | arch/loongarch/mm/vm.c:540-583 | the outer loop does what copying all user pages in order does |
| `Machine.Memory.UvmCopy` | arch/loongarch/mm/vm.c:529-593 | the three nested loops with the cleanup equal copying page by page and, on failure, dropping every page of the child |
| `Machine.Memory.ReleaseLeaf` | arch/loongarch/mm/vm.c:512-515 | releasing one leaf is dropping its page |
| `Machine.Memory.ReleaseTable` | arch/loongarch/mm/vm.c:497-517 | the recursive release does what dropping its pages in order does and keeps every directory |
| `Machine.Memory.HandleCowFault` | arch/loongarch/mm/vm.c:923-956 | computes the specified fault resolution in place |
| `Machine.Memory.ClearLeaf` | arch/loongarch/mm/vm.c:298-301 | freeing the frame and clearing the entry is dropping the page |
| `Machine.Memory.FreeLevel` | arch/loongarch/mm/vm.c:434-461 | the recursive traversal, clearing entries as it goes, frees the tables in post-order and nothing else |
| `Machine.Memory.FreeTables` | arch/loongarch/mm/vm.c:463-469 | `freewalk` returns every table of the address space to the free list once; counts stay exact if and only if nothing was mapped |
| `Machine.Memory.MapFresh` | arch/loongarch/mm/vm.c:888-899 | a fresh frame is mapped, or given back when the table cannot grow |
| `Machine.Memory.FaultIn` | arch/loongarch/mm/vm.c:722-750 | a missing page is filled exactly if its first area has no file or that page of its file, or if outside all areas it lies in the heap, the stack or the text range; it then holds the page of the file, zeros otherwise, and the entry has the rights of the area, user read and write outside all; it fails only without a source or without memory, and then no byte changes |
| `UserCopy.SourceIs` | arch/loongarch/mm/vm.c:722-750 | which missing pages can be made, with which bytes and which rights, by the first area that meets the page, or by the ranges of heap, stack and text |
| `Machine.Memory.Prepare` | arch/loongarch/mm/vm.c:717-757 | makes the page present and private without changing a mapped byte; a failure names why the page cannot be stored to |
| `Machine.Memory.CopyOut` | arch/loongarch/mm/vm.c:701-783 | on success the user reads exactly the source bytes; nothing outside the range and no other address space changes, even on failure, and a page that appears holds its file page or zeros; failure means a bad range or a page that cannot be stored to |
| `Machine.Memory.CopyIn` | arch/loongarch/mm/vm.c:785-862 | on success every byte of the result is the one mapped there before or, on a page not mapped before, that of its file page or 0; no mapped byte anywhere changes; failure means a bad range or a page that cannot be read |
| `UserCopy.StoreWrites` | arch/loongarch/mm/vm.c:770-776 | a store at an offset is read back by the user and changes no other byte of the address space |
| `UserCopy.ReadsMore` | arch/loongarch/mm/vm.c:717-780 | chunks read one after the other read together, although later chunks change memory |
| `PteWords.FromPermIs` | arch/loongarch/include/asm/mm.h:67-80 | the word built from permissions has NR and NX exactly for what is not allowed, and D exactly with W |
| `PteWords.LeafWordIs` | arch/loongarch/mm/vm.c:173-178 | the word `mappages` stores is the leaf record of the address-space model and keeps the physical address |
| `PteWords.MarkWordIs` | arch/loongarch/mm/vm.c:566-569 | the masking in `uvmcopy` is the marking of the model and touches no other field |
| `PteWords.MarkWordBits` | arch/loongarch/mm/vm.c:566-569 | bit by bit: W goes and D with it, COW is set exactly where W or COW was, every other bit stays |
| `PteWords.ChildWordIs` | arch/loongarch/mm/vm.c:571-576 | filtering the flags and rebuilding the word gives the child the very word of the parent |
| `PteWords.PrivateWordIs` | arch/loongarch/mm/vm.c:937-951 | the masking in `handle_cow_fault` is the private record of the model |
| `PteWords.RunRefines` | arch/loongarch/mm/vm.c:566-951 | over every run of forks and write faults the words follow the records, stay copyable without loss, and the TLB allows writing exactly where the record does |
| `PteWords.RebuildDecodes` | arch/loongarch/mm/vm.c:561-562 | the address rebuilt from three indices decodes to them at every level and is page-aligned |
| `PteWords.DecodeRebuilds` | arch/loongarch/include/asm/vm.h:52-57 | every address of the lower half is rebuilt to its page from its indices, the first below 256 |
| `PteWords.TlbWordIs` | arch/loongarch/include/asm/mm.h:89-118 | the TLB word is valid exactly if the entry is, and then has its address, privilege and permissions |
| `PteWords.HalvesAre` | arch/loongarch/include/asm/vm.h:36-44 | the tests for the two halves are exactly the comparisons of addresses |
| `TlbWalk.WalkExisting` | arch/loongarch/boot/boot.c:145-165 | the loop over two levels of words in memory computes the three-level walk, nothing outside the two halves |
| `TlbWalk.LookupShown` | arch/loongarch/boot/boot.c:145-165 | where the words in memory show the tables of the address-space model, the walk finds a valid word exactly if the page is mapped, and that word shows its entry |
| `TlbWalk.StoreShown` | arch/loongarch/mm/vm.c:173-178 | a word stored into a table keeps the memory showing the model if the word shows the entry stored |
| `TlbWalk.MarkShown` | arch/loongarch/mm/vm.c:563-574 | marking a page in words and in the model agree |
| `TlbWalk.RefillHandler` | arch/loongarch/mm/tlb_refill.c:18-57 | the lower 2^38 bytes go through the table in PGDL and the upper ones through the table in PGDH, and exactly outside both nothing is written; the panic happens exactly for a kernel access with neither page mapped; otherwise the pair shows the two entries the walk finds |
| `TlbWalk.RefillGrants` | arch/loongarch/mm/tlb_refill.c:18-57 | for every address of the pair the TLB half is valid exactly where the page is mapped in the address-space model, has the address of its frame, and allows writing, reading, execution and user access exactly as its entry does |
| `TlbRuns.DescendMirrors` | arch/loongarch/mm/vm.c:93-117 | a new table, zeroed and entered in its directory, keeps the words in memory showing the tables |
| `TlbRuns.ShareMirrors` | arch/loongarch/mm/vm.c:555-581 | so does one page of `uvmcopy`, also where the child has no memory for a table and the parent's word is put back |
| `TlbRuns.CowMirrors` | arch/loongarch/mm/vm.c:924-955 | so does `handle_cow_fault` |
| `TlbRuns.StepMirrors` | arch/loongarch/mm/vm.c:87-951 | so does every operation on an address space: fork, store, both faults, unmapping, exit |
| `TlbRuns.RunMirrors` | arch/loongarch/mm/vm.c:87-951 | over every run the words in memory show the tables of the address-space model |
| `TlbRuns.RunGrants` | arch/loongarch/mm/tlb_refill.c:18-57 | from boot, whatever memory held, and after any run, a refill for any address space grants exactly what the model's lookup says |
| `EasyFs.EnsureKeeps` | kernel/fs/easyfs/alloc.c:126-226 | filling one position keeps ownership exact; it fails only on a full disk and then changes nothing |
| `EasyFs.FreeAtKeeps` | kernel/fs/easyfs/fs.c:142-208 | freeing a childless block clears its one position and nothing else |
| `EasyFs.DataPosInjective` | kernel/fs/easyfs/alloc.c:126-226 | two block numbers of any files never map to the same position, across all three levels |
| `EasyFs.DataPosHolds` | kernel/fs/easyfs/alloc.c:126-226 | where the number of every block of a file is stored: ten in the inode, 1024 in the indirect table, 1024 in each table of the double-indirect one |
| `EasyFs.BmapKeeps` | kernel/fs/easyfs/alloc.c:126-226 | mapping a block keeps ownership exact and changes no byte of any file, also when it fails part way |
| `EasyFs.TruncHas` | kernel/fs/easyfs/fs.c:142-208 | the truncation visits exactly the positions of the inode |
| `EasyFs.TruncOrdered` | kernel/fs/easyfs/fs.c:142-208 | it visits every position once, children before their parent |
| `EasyFs.TruncBlocks` | kernel/fs/easyfs/fs.c:142-208 | exactly the blocks of the tree become free, so the free count grows by the tree size |
| `EasyFs.TruncFiles` | kernel/fs/easyfs/fs.c:142-208 | the file is empty and every byte and size of every other file is kept |
| `EasyFsSpace.BmapNeed` | kernel/fs/easyfs/alloc.c:126-226 | free blocks suffice for a stretch of blocks exactly if mapping its first one succeeds and they then suffice for the rest |
| `EasyFsFiles.PutBytesPatches` | kernel/fs/easyfs/fs.c:101-119 | storing into the block of an offset changes exactly those bytes of that file |
| `EasyFsFiles.PatchedTrans` | kernel/fs/easyfs/fs.c:97-120 | consecutive chunks together patch the whole stretch |
| `EasyFsFiles.ReadBack` | kernel/fs/easyfs/fs.c:25-131 | reading what a write patched gives the written bytes |
| `EasyFsDisk.Disk.FindFree` | kernel/fs/easyfs/alloc.c:28-45 | the byte-wise bitmap scan finds the lowest free block |
| `EasyFsDisk.Disk.Balloc` | kernel/fs/easyfs/alloc.c:22-57 | marks and zeroes the lowest free block, 0 when the disk is full |
| `EasyFsDisk.Disk.Bfree` | kernel/fs/easyfs/alloc.c:71-100 | clears the bit; both panics are unreachable for a marked block |
| `EasyFsDisk.Disk.Bmap` | kernel/fs/easyfs/alloc.c:126-226 | computes the specified mapping on bitmap bytes, pointer blocks and inodes |
| `EasyFsDisk.Disk.Itrunc` | kernel/fs/easyfs/fs.c:142-208 | refuses every length but 0; otherwise the loops do exactly the specified truncation |
| `EasyFsDisk.Disk.WriteInode` | kernel/fs/easyfs/fs.c:85-131 | refused exactly when offset plus length wraps 32 bits; otherwise exactly the first r bytes are patched, the size becomes the larger end, no other file changes, and all bytes are written if and only if the free blocks cover the missing ones |
| `EasyFsDisk.Disk.ReadInode` | kernel/fs/easyfs/fs.c:25-69 | returns exactly the bytes of the file, zeros where nothing was written, up to the size, and is short if and only if the free blocks do not cover the holes; no file changes |
| `EasyFsImage.RunOwns` | kernel/fs/easyfs/alloc.c:22-226 | under every sequence of mappings and truncations each marked block is at exactly one position of one inode, every position holds a marked block, and all lie in blocks 11 to 4095 |
| `EasyFsImage.OwnedMeans` | kernel/fs/easyfs/alloc.c:126-226 | the invariant gives exactly that statement |
| `EasyFsImage.Mkfs` | mkfs/mkfs.c:153-239 | the image satisfies the invariant and every byte and size of every inode is the one asked for |
| `EasyFsImage.PlaceInodes` | mkfs/mkfs.c:153-185 | the inodes list consecutive new blocks for each file |
| `EasyFsImage.PlaceBits` | mkfs/mkfs.c:228-239 | the bitmap built is exactly the set of blocks in use |
| `EasyFsRuns.Perform` | kernel/fs/easyfs/fs.c:25-208 | one read, write or truncation replies as plain files allow and leaves the disk with exactly the plain files; a count is short exactly when the free blocks do not cover the missing ones |
| `EasyFsRuns.PerformAll` | kernel/fs/easyfs/fs.c:25-208 | over every run of requests the replies and the disk are those of files that are plain byte sequences |
| `EasyFsRuns.ImageRun` | mkfs/mkfs.c:153-239 | the same for every run that starts from an image `mkfs` builds |
| `EasyFsRuns.SparseRead` | kernel/fs/easyfs/fs.c:25-69 | a file with one byte at twenty million on a fresh image: reading the holes before it is short |
| `Tmpfs.NoSharing` | kernel/fs/tmpfs/inode.c:278-343 | two positions never hold the same page, and no page in a tree is free |
| `Tmpfs.EnsureKeeps` | kernel/fs/tmpfs/inode.c:278-343 | filling one position takes at most one page, changes no other position and fails exactly when none is free |
| `Tmpfs.BmapKeeps` | kernel/fs/tmpfs/inode.c:278-343 | with allocation the answer is 0 exactly for a block out of range or when the free pages do not cover what the path lacks; other positions are kept |
| `Tmpfs.StoreKeeps` | kernel/fs/tmpfs/inode.c:442-445 | whatever users write into data pages, no word of it is taken for an address |
| `Tmpfs.FreedExactly` | kernel/fs/tmpfs/inode.c:117-161 | when the inode is empty, exactly its pages have been given back, each once |
| `Tmpfs.TakenReturned` | kernel/fs/tmpfs/inode.c:117-161 | any calls of `tmpfs_bmap` on an empty file, then the truncation, leave the free pages as they were |
| `TmpfsBytes.PageOfHolds` | kernel/fs/tmpfs/inode.c:278-343 | where the address of every page of a file is stored: ten in the inode, 512 in the indirect page, 512 in each page of the double-indirect one |
| `TmpfsFiles.Files.Bmap` | kernel/fs/tmpfs/inode.c:278-343 | the three branches compute the specified mapping in place |
| `TmpfsFiles.Files.FreeBlocks` | kernel/fs/tmpfs/inode.c:117-161 | every page of the inode goes back to `kalloc` once, no other does, and all other files are kept |
| `TmpfsFiles.Files.MapAndTruncate` | kernel/fs/tmpfs/inode.c:117-161 | any calls of `tmpfs_bmap` on an empty file, failed ones included, then the truncation: the free pages are those there were before |
| `TmpfsSpace.BmapNeed` | kernel/fs/tmpfs/inode.c:278-343 | free pages suffice for a range of blocks exactly when mapping goes through: a page is found if the missing ones fit, and mapping one block leaves the answer for the rest unchanged |
| `TmpfsBytes.PageIs` | kernel/fs/tmpfs/inode.c:278-343 | a data page belongs to one block of one file and is not free |
| `TmpfsBytes.MapBytes` | kernel/fs/tmpfs/inode.c:278-343 | mapping a block changes no byte of any file; a new page reads as zero |
| `TmpfsBytes.StoreBytes` | kernel/fs/tmpfs/inode.c:442-445 | bytes stored in a page change that stretch of that file and nothing else |
| `TmpfsBytes.Store.Write` | kernel/fs/tmpfs/inode.c:403-451 | refused exactly for wrapping or oversized ranges; otherwise the whole buffer is written and the size grows if and only if the free pages cover what its blocks lack, and if not, whole pages as far as they cover it, with the size kept; new pages are zero elsewhere and no other byte of any file changes |
| `TmpfsBytes.StopsOnce` | kernel/fs/tmpfs/inode.c:433-446 | the state before a write decides how far it gets |
| `TmpfsBytes.Store.Truncate` | kernel/fs/tmpfs/inode.c:179-193 | only to size 0; the file loses its pages and bytes, every other file keeps its own, and exactly its pages become free |
| `TmpfsBytes.Store.Read` | kernel/fs/tmpfs/inode.c:351-396 | nothing changes; the bytes are those of the file up to its end or to the first page never made |
| `TmpfsBytes.ReadBack` | kernel/fs/tmpfs/inode.c:351-451 | a write that went through is read back |
| `TmpfsBytes.OtherFiles` | kernel/fs/tmpfs/inode.c:403-451 | a write, also a failed one, is not seen in any other file |
| `TmpfsBytes.FullRead` | kernel/fs/tmpfs/inode.c:380-392 | a read is full if and only if every page of the stretch has been made |
| `TmpfsRuns.HoleRead` | kernel/fs/tmpfs/inode.c:380-392 | one byte written at 8192 into an empty file, then a read at its start: it gives nothing |
| `TmpfsBytes.SolidExact` | kernel/fs/tmpfs/inode.c:427-449 | in a file with no page past its end, a write leaves no gap if and only if it starts no later than in the page after the last one |
| `TmpfsBytes.FailedExact` | kernel/fs/tmpfs/inode.c:433-448 | a write the free pages do not cover is unseen in a file without gaps, whatever the buffer, if and only if it starts at or behind the end |
| `TmpfsRuns.FailedWrite` | kernel/fs/tmpfs/inode.c:433-448 | with one page in all, a write of 4097 bytes fails and keeps the size, but the byte the file had is overwritten |
| `TmpfsRuns.EmptyWrite` | kernel/fs/tmpfs/inode.c:448 | no bytes written at 5 into an empty file leave it with 5 bytes |
| `TmpfsRuns.Perform` | kernel/fs/tmpfs/inode.c:179-451 | a read, write or truncation replies and acts as plain partial files allow; a write gets exactly as far as the free pages carry it |
| `TmpfsRuns.PerformAll` | kernel/fs/tmpfs/inode.c:179-451 | every run of reads, writes and truncations of any files is a run of plain partial files |
| `TmpfsRuns.RunFull` | kernel/fs/tmpfs/inode.c:351-451 | over every run whose writes start within reach, failed ones included, no read of any file stops short |
| `TmpfsRuns.FreshRun` | kernel/fs/tmpfs/inode.c:179-451 | both from an empty file system with any number of pages |
| `Virtio.AtMost21` | kernel/driver/virtio_blk.c:103-114 | at most 21 requests are outstanding |
| `Virtio.NoOverwrite` | kernel/driver/virtio_blk.c:175-180 | no unread available or used slot is the next one written, although the 16-bit indices wrap |
| `Virtio.IndexExact` | kernel/driver/virtio_blk.c:362-385 | comparing the wrapped indices tells exactly whether something is unread |
| `Virtio.NoBadUsed` | kernel/driver/virtio_blk.c:362-370 | the used entry read is the oldest completion, so the invalid-descriptor panic is unreachable |
| `VirtioProtocol.SubmitKeeps` | kernel/driver/virtio_blk.c:117-187 | publishing a request keeps the protocol invariant |
| `VirtioProtocol.SubmitFails` | kernel/driver/virtio_blk.c:103-132 | allocation fails only with 21 requests outstanding, and gives its descriptors back |
| `VirtioProtocol.DecodeIs` | kernel/driver/virtio_blk.c:134-170 | what the device decodes from the chain is the request submitted |
| `VirtioProtocol.CompleteKeeps` | kernel/driver/virtio_blk.c:117-197 | a completion in any order transfers exactly the block asked for and keeps the invariant, with status 0 for every executed request |
| `VirtioProtocol.IrqKeeps` | kernel/driver/virtio_blk.c:346-390 | handling one used entry keeps the invariant and is about a completed request |
| `VirtioProtocol.FinishMeans` | kernel/driver/virtio_blk.c:189-191 | when the done flag is seen, this very request has been carried out and a read buffer holds the block |
| `VirtioProtocol.FinishKeeps` | kernel/driver/virtio_blk.c:193-194 | freeing the chain keeps the invariant |
| `VirtioProtocol.Partition` | kernel/driver/virtio_blk.c:41-114 | every descriptor is on the free list or in exactly one in-flight chain |
| `VirtioProtocol.InitialInv` | kernel/driver/virtio_blk.c:41-49 | the initial rings satisfy the invariant |
| `VirtioProtocol.RunKeeps` | kernel/driver/virtio_blk.c:41-390 | over every interleaving of requests, device steps and interrupts the invariant holds, at most 21 requests are outstanding and the panic is unreachable |
| `VirtioDriver.Driver.constructor` | kernel/driver/virtio_blk.c:41-49 | the descriptors are linked into one free list |
| `VirtioDriver.Driver.AllocDesc` | kernel/driver/virtio_blk.c:52-61 | takes the head of the free list |
| `VirtioDriver.Driver.InsertDesc` | kernel/driver/virtio_blk.c:63-84 | clears a descriptor and pushes it |
| `VirtioDriver.Driver.FreeChain` | kernel/driver/virtio_blk.c:86-98 | pushes exactly the descriptors of the chain, in order |
| `VirtioDriver.Driver.Alloc3` | kernel/driver/virtio_blk.c:103-114 | three descriptors, or those taken are pushed back |
| `VirtioDriver.Driver.SubmitRequest` | kernel/driver/virtio_blk.c:117-187 | the first half of `virtio_disk_rw` is the submit step; it succeeds if and only if fewer than 21 requests are outstanding |
| `VirtioDriver.Driver.IrqHandler` | kernel/driver/virtio_blk.c:346-390 | all used entries are consumed; exactly their requests become done and no other request changes; neither the panic on a bad id nor the one on a status error is reached |
| `VirtioDriver.Driver.FinishRequest` | kernel/driver/virtio_blk.c:189-197 | the second half of `virtio_disk_rw` is the finish step |
| `Lists.AddTailHolds` | include/kernel/list.h:9-17 | inserting before the head appends to the list the links spell out |
| `Lists.AddFrontHolds` | kernel/fs/block_cache.c:108-113 | inserting after the head puts the node in front |
| `Lists.DelHolds` | include/kernel/list.h:22-30 | deleting a node removes it from the list and leaves other lists alone |
| `BufferCacheRuns.BgetFails` | kernel/fs/block_cache.c:49-85 | `bget` finds nothing, and `bread` then has no buffer, exactly when the block is not cached and all 32 buffers are referenced |
| `BufferCacheRuns.NoBufferRun` | kernel/fs/block_cache.c:132-146 | from the initial cache, 32 clients with 32 blocks reach a state where `bget` has no buffer for another block |
| `BufferCacheRuns.GetKeeps` | kernel/fs/block_cache.c:49-85 | a hit or a recycled buffer keeps at most one used buffer per key, although all start with the same key |
| `BufferCacheRuns.NeverRecycled` | kernel/fs/block_cache.c:49-117 | a held or awaited buffer keeps its key through every step but its own release |
| `BufferCacheLru.RecycledOldest` | kernel/fs/block_cache.c:49-117 | over every run from the initial cache: a client whose block is not cached gets, of the buffers nobody uses, the one whose last reference was dropped the longest ago |
| `BufferCacheLru.RunOrdered` | kernel/fs/block_cache.c:99-117 | in every run the list is in order of the times at which the buffers were last freed |
| `BufferCacheRuns.ReadsLast` | kernel/fs/block_cache.c:132-162 | in a coherent state a clean holder of a valid buffer sees the block of the disk, unless the block was released changed |
| `BufferCacheRuns.RunCoherent` | kernel/fs/block_cache.c:17-162 | in every run buffers stay unique, and with one device number per block every buffer agrees with the disk, except those of blocks released changed |
| `BufferCacheRuns.StaleRun` | kernel/fs/block_cache.c:132-162 | with one block used under two device numbers some run ends with a stale buffer |
| `BufferCacheRuns.CoherentIff` | kernel/fs/block_cache.c:17-162 | all runs are coherent if and only if no block is used under two device numbers |
| `BufferCacheSaves.UnsavedRun` | kernel/fs/easyfs/fs.c:157-195 | a client that changes a block and releases it without a write leaves a valid buffer that nobody holds and that differs from the disk |
| `BufferCacheSaves.RunUnsaved` | kernel/fs/block_cache.c:97-117 | over every run only blocks that clients release changed can differ from the disk |
| `BufferCacheSaves.WriteEqual` | kernel/fs/easyfs/alloc.c:95-98 | whoever writes a block ends a difference left by an earlier release |
| `BufferCacheSaves.EqualIff` | kernel/fs/block_cache.c:17-162 | with one device number per block, the buffers of a block equal the disk in every run if and only if clients never release it changed |
| `BufferCacheSaves.AllEqualIff` | kernel/fs/block_cache.c:17-162 | every buffer equals the disk in every run if and only if no block number has two device numbers and no block in use is released changed |
| `BufferCacheLists.Bcache.constructor` | kernel/fs/block_cache.c:17-36 | the initial list and buffers |
| `BufferCacheLists.Bcache.Scan` | kernel/fs/block_cache.c:57-65 | following the links finds the first matching buffer |
| `BufferCacheLists.Bcache.ScanBack` | kernel/fs/block_cache.c:69-80 | following the links backwards finds the least recently used free buffer |
| `BufferCacheLists.Bcache.Bget` | kernel/fs/block_cache.c:49-85 | computes the specified step on the linked list |
| `BufferCacheLists.Bcache.DropRef` | kernel/fs/block_cache.c:97-117 | the last release moves the buffer to the front by relinking |
| `BufferCacheLists.Bcache.Load` | kernel/fs/block_cache.c:132-146 | reads the disk exactly when the buffer is not valid |
| `BufferCacheLists.Bcache.Bwrite` | kernel/fs/block_cache.c:157-162 | the disk gets the buffer's block and nothing else changes |
| `CacheDriver.StepLinked` | kernel/driver/virtio_blk.c:117-197 | with loads and writes as requests in flight, every step of a client, the device or the interrupt handler keeps buffer memory and disk equal to the cache, and every request with the client that holds its buffer |
| `CacheDriver.ExecutedEnabled` | kernel/fs/block_cache.c:132-162 | the device completes a request only where the cache may load or write that very block |
| `CacheDriver.RunSeen` | kernel/fs/block_cache.c:132-162 | every interleaving of clients, device and interrupts is a run of the cache with loads and writes as single steps, taken at completion |
| `CacheDriver.RunSaved` | kernel/fs/block_cache.c:97-162 | with one device number per block, over every run the block of an executed request is not one released changed |
| `CacheDriver.DoneReads` | kernel/driver/virtio_blk.c:189-197 | when a request is done, the memory of its buffer is what the disk has in its block |
| `PipeRing.TestsExact` | kernel/core/pipe.c:110-188 | the tests on the wrapping 32-bit counters tell exactly whether the pipe is empty or full |
| `PipeRing.PopKeeps` | kernel/core/pipe.c:123-134 | the byte taken is the oldest one accepted and not delivered |
| `PipeRing.PushKeeps` | kernel/core/pipe.c:168-181 | a byte put overwrites none in transit |
| `PipeRing.Pipe.Drain` | kernel/core/pipe.c:122-135 | delivers the oldest bytes until the request, the data or the user copy ends it; a failed copy consumes nothing |
| `PipeRing.Pipe.Fill` | kernel/core/pipe.c:162-183 | accepts bytes until the request, the room or the user copy ends it |
| `PipeProtocol.NoLostWakeup` | kernel/core/wait.c:5-41 | with the lock free, a process asleep on the read channel means an empty pipe with a writer, on the write channel a full pipe with a reader |
| `PipeProtocol.NextKeeps` | kernel/core/pipe.c:80-188 | every step of every reader, writer and closer keeps the invariant: a process waits only where its condition fails or the lock holder will still look at it |
| `PipeProtocol.OnlyCopiesMove` | kernel/core/pipe.c:110-188 | bytes move only in the two copy steps, one at a time, and a failed copy moves none |
| `PipeProtocol.RunKeeps` | kernel/core/pipe.c:80-188 | for any number of processes and any interleaving: no lost wakeup, delivered bytes a prefix of accepted ones, at most 512 in transit |
| `PipeReturns.EveryReturn` | kernel/core/pipe.c:80-188 | over every run of any number of processes: a read returns the number of bytes it took, the last ones delivered and in one piece, 0 only if the pipe is empty and its write end closed, fewer than asked only if a copy failed or the pipe is empty, -EFAULT only if its first copy failed; a write returns the number it put in, fewer than asked only if a copy failed or the read end is closed, and with none put in -EFAULT or -EPIPE; a close has closed its end |
| `PipeReturns.StepShape` | kernel/core/pipe.c:80-188 | a step leaves every other process where it is or wakes it, and an end is closed by a closer of that end only and never opened again |
| `PipeReturns.HolderAlone` | kernel/core/pipe.c:110-188 | while a process holds the pipe lock no other moves a byte or closes an end |
| `PipeProtocol.InitialInv` | kernel/core/pipe.c:24-67 | a new pipe satisfies the invariant |
| `Slab.ObjectsApart` | kernel/mm/slab/slab.c:96-146 | objects of a page are disjoint and end before the page-tail header |
| `Slab.NewPageOk` | kernel/mm/slab/slab.c:96-146 | a new page lists every object once |
| `Slab.ClientWriteOk` | kernel/mm/slab/slab.c:200-261 | whatever a client writes into its object, the free list of the page stays intact |
| `Slab.GrowKeeps` | kernel/mm/slab/slab.c:96-146 | a new page is on the empty list and counted |
| `Slab.AllocKeeps` | kernel/mm/slab/slab.c:200-261 | the object given was not live, exactly it becomes live, and none is given exactly when every page is full; a page without live objects is used only when no page is partly used |
| `Slab.ReleaseKeeps` | kernel/mm/slab/slab.c:269-322 | exactly the object given back stops being live; a repeated free changes nothing |
| `Slab.ReapKeeps` | kernel/mm/slab/slab.c:154-192 | a page is given up exactly if one is empty, and no live object is on it |
| `Slab.RelistKeeps` | kernel/mm/slab/slab.c:200-322 | each page is on exactly the list its free count dictates |
| `SlabLists.KmemCache.constructor` | kernel/mm/slab/slab.c:39-85 | the object size is the one asked for rounded up to 8, at least 8 |
| `SlabLists.KmemCache.LinkObjects` | kernel/mm/slab/slab.c:127-137 | the loop links every object below the next |
| `SlabLists.KmemCache.GrowPage` | kernel/mm/slab/slab.c:96-146 | grows by one page unless not even one object fits |
| `SlabLists.KmemCache.AllocObj` | kernel/mm/slab/slab.c:200-261 | computes the specified allocation on inline free lists and linked page lists |
| `SlabLists.KmemCache.OnFreeList` | kernel/mm/slab/slab.c:283-290 | following the links tells exactly whether the object is free |
| `SlabLists.KmemCache.FreeObj` | kernel/mm/slab/slab.c:269-322 | computes the specified release |
| `SlabLists.KmemCache.ReapPage` | kernel/mm/slab/slab.c:154-192 | computes the specified reaping |
| `KmallocOps.Bucket` | kernel/mm/kmalloc.c:52-57 | the smallest size class that holds the request |
| `Kmalloc.BlocksApart` | kernel/mm/kmalloc.c:47-83 | any two live blocks are disjoint, aligned and clear of the page tail |
| `Kmalloc.RouteExact` | kernel/mm/kmalloc.c:85-102 | the owner word stored at the page tail routes every live pointer back to the object and allocator it came from |
| `KmallocOps.MallocKeeps` | kernel/mm/kmalloc.c:47-83 | the block was not live, is large enough and is cleared, and no other live block changes; nothing is given exactly for a request over 4048 bytes or without memory |
| `KmallocRuns.FreeKeeps` | kernel/mm/kmalloc.c:85-102 | freeing a live block ends exactly its life; the contents of all others stay |
| `KmallocRuns.NothingChanges` | kernel/mm/kmalloc.c:85-102 | a free changes nothing if and only if the address is that of a free object of a slab page |
| `KmallocRuns.RepeatedFree` | kernel/mm/slab/slab.c:269-322 | an object freed before, on a page still with its cache, can be freed again without effect |
| `KmallocRuns.FreeExact` | kernel/mm/kmalloc.c:85-102 | for any address of a page in use, the heap stays sound and every other block and page is kept if and only if the address is that of a block of the page's present use |
| `KmallocRuns.PoolFreedAgain` | kernel/mm/kalloc.c:103-147 | a free page freed again: afterwards no list of pages fits the links of the free list |
| `KmallocRuns.FreedTwice` | kernel/mm/kmalloc.c:85-102 | a whole-page block freed twice: the page is linked to itself and counted twice |
| `KmallocRuns.ReapCacheKeeps` | kernel/mm/slab/slab.c:154-192 | giving up an empty slab page disturbs no live block and clears its owner word |
| `KmallocRuns.StoreKeeps` | kernel/mm/kmalloc.c:47-83 | a write within a live block reaches no link, no owner word and no other block |
| `KmallocRuns.RunSound` | kernel/mm/kmalloc.c:47-102 | in every run of requests, frees and repeated frees, reaping, client writes and use of pages by others: live blocks are disjoint, aligned and routed to themselves, free plus live objects are all objects of a page, and the sizes kept are exact |
| `KmallocRuns.InitialOk` | kernel/mm/kmalloc.c:26-45 | memory after boot with nine empty caches satisfies the invariant |
| `KmallocHeap.KernelHeap.CacheInit` | kernel/mm/kmalloc.c:26-45 | the table is filled on the first call only, one cache per power of two from 8 to 2048 |
| `KmallocHeap.KernelHeap.Malloc` | kernel/mm/kmalloc.c:47-83 | computes the specified allocation in place, with the bucket search and the clearing loop, and keeps the heap sound |
| `KmallocHeap.KernelHeap.Mfree` | kernel/mm/kmalloc.c:85-102 | null is ignored, a pointer below the kernel's end panics; otherwise the specified free, which for a block of the page's present use keeps the heap sound and all other blocks |
| `Pci.Conflict` | kernel/driver/pci_resource.c:143-161 | 0 exactly when the range is free and every other assigned BAR is well formed; otherwise the end of a blocking BAR, or the last address |
| `Pci.RoundUpIs` | kernel/driver/pci_resource.c:223-228 | the least multiple of the alignment from the candidate on |
| `Pci.FirstFit` | kernel/driver/pci_resource.c:219-252 | the least suitable address; failure if and only if there is none or another assigned BAR is malformed |
| `Pci.MalformedBar` | kernel/driver/pci_resource.c:143-161 | one other BAR that ends at 2^64 makes the placement fail in an empty window |
| `Pci.CheckBar` | kernel/driver/pci_resource.c:202-218 | accepts exactly the BARs with a sound size and, when assigned, a sound place |
| `Pci.AssignBars` | kernel/driver/pci_resource.c:202-252 | on success every memory BAR of the device is in the window, aligned and apart from all others, each placed one has the least address suitable once those before it were placed, and only unassigned addresses changed; on failure nothing changed and one BAR is the reason |
| `Pci.SortRanges` | kernel/driver/pci_resource.c:264-274 | the exchange sort gives a sorted permutation |
| `Pci.MergeRanges` | kernel/driver/pci_resource.c:275-284 | merging in place gives the merged form of the sorted input |
| `Pci.SortAndMerge` | kernel/driver/pci_resource.c:264-284 | the ranges left are increasing and do not touch, and cover exactly what the inputs covered |
| `SignalMasks.LowestSetBit` | kernel/core/signal.c:65-91 | the halving search finds the lowest set bit |
| `SignalMasks.ClearLowest` | kernel/core/signal.c:139-140 | clearing the lowest bit by subtraction removes exactly that bit |
| `SignalMasks.WordOfIs` | kernel/core/signal.c:134-137 | the word of a set of signals has exactly their bits |
| `SignalMasks.SplitLowest` | kernel/core/signal.c:138-140 | lowest set bit and the word without it |
| `Signals.FrameAtIs` | kernel/core/signal.c:157-159 | the frame is 16-byte aligned and directly below the stack pointer |
| `Signals.DecodeEncodeAll` | arch/loongarch/include/asm/trapframe.h:7-48 | the bytes of a frame decode to the words written |
| `Signals.MaskRoundTrip` | kernel/core/signal.c:160-164 | a mask survives its word form |
| `Signals.ReturnRestores` | kernel/core/sysproc.c:429-451 | returning on an intact frame restores trapframe and mask, if the saved pc and sp are not 0 |
| `Signals.ReturnExact` | kernel/core/sysproc.c:429-451 | on an intact frame the saved state comes back if and only if its pc and sp are not 0 or the process is already in that state |
| `Signals.ReturnRefused` | kernel/core/sysproc.c:429-451 | a frame with saved program counter 0: the return is refused |
| `Signals.DeliverHolds` | kernel/core/signal.c:157-175 | after a delivery the frame holds the old trapframe and mask, and no byte outside it changed |
| `Signals.FramesApart` | kernel/core/signal.c:157-171 | frames on the stack are aligned and disjoint |
| `Signals.RunKeeps` | kernel/core/signal.c:116-179 | over every run of deliveries, returns and user code that writes no byte of a frame, the frames below stay intact |
| `Signals.DeliveryRestored` | kernel/core/sysproc.c:429-451 | a delivery, any nested run, and the matching return restore the trapframe with a0, and the mask |
| `Signals.PassRestored` | kernel/core/signal.c:116-179 | the frames of one pass, unwound in reverse order, restore the process |
| `Signals.PassUnwound` | kernel/core/sysproc.c:429-451 | returning j times leads to the registers and the mask the process had before the last j deliveries |
| `Signals.PassBelow` | kernel/core/signal.c:116-179 | a pass writes nothing from the stack pointer up and leaves the stack pointer aligned at or below it |
| `Signals.EnteredNext` | kernel/core/signal.c:142-176 | one more delivery: handler, number and restorer of the signal in pc, a0 and ra, the other registers but sp as before, and blocked exactly what the signals delivered so far and the process itself block |
| `Signals.Process.PushFrame` | kernel/core/signal.c:157-175 | pc is the handler, a0 the number, ra the restorer and sp the frame, which holds the old registers and mask; every other register and every byte outside the frame is as before |
| `Signals.Process.TakeSignal` | kernel/core/signal.c:142-176 | ignored, fatal, refused and delivered signals each have exactly the specified effect |
| `Signals.Process.DeliverWord` | kernel/core/signal.c:137-177 | the loop over the word of ready signals consumes them once each, lowest bit first, until none is left or one is fatal or refused |
| `Signals.Process.CheckSignal` | kernel/core/signal.c:116-179 | SIGKILL and SIGSTOP come first whatever is blocked; otherwise ready signals are consumed once, in order, all of them unless one is fatal or refused, and exactly the caught ones are delivered; pc, a0 and ra are then handler, number and restorer of the last one, blocked is the old mask with the mask and the bit of each and nothing more, the other registers but sp are as before; each return leads to the same about the one before, and as many returns restore registers and mask |
| `Signals.Process.Send` | kernel/core/proc.c:504-529 | signal 64 and signals out of range are never pending; signal 0 is accepted and not sent |
| `Paths.SplitPrint` | kernel/fs/fs.c:12-32 | printing a stack of names and splitting it gives the stack back |
| `Paths.NormTwice` | kernel/fs/vfs.c:55-85 | the result splits into the folded components, and normalizing again changes nothing |
| `Paths.ElemEq` | kernel/fs/vfs.c:15-26 | exact comparison with a slice |
| `Paths.Append` | kernel/fs/vfs.c:28-36 | a slash unless at the root, then the element, cut at 127 bytes |
| `Paths.PushFits` | kernel/fs/vfs.c:28-36 | a name that fits is pushed on the stack the buffer prints |
| `Paths.Pop` | kernel/fs/vfs.c:38-53 | the buffer up to its last slash, or the root; on names, without the last one, nothing at the root |
| `Paths.Normalize` | kernel/fs/vfs.c:55-85 | gives the normal form whose laws are below, never longer than the input |
| `Paths.NormDown` | kernel/fs/vfs.c:28-85 | a proper name goes behind the normal form of the path before it |
| `Paths.NormUp` | kernel/fs/vfs.c:38-85 | two dots cut the normal form at its last slash, and stay at the root |
| `Paths.NormStay` | kernel/fs/vfs.c:55-85 | a dot changes nothing |
| `Paths.NormSlash` | kernel/fs/vfs.c:55-85 | a slash at the end changes nothing |
| `Paths.NormDownUp` | kernel/fs/vfs.c:38-85 | for every path p and proper name c: p/c/.. is the same as p, and /.. is the root |
| `Paths.SkipElem` | kernel/fs/fs.c:12-32 | the next component, cut at 127 bytes, and the rest of the path |
| `Paths.Walk` | kernel/fs/fs.c:12-32 | repeated parsing gives exactly the components |
| `Paths.MakeAbsolute` | kernel/fs/vfs.c:87-112 | the normal form of the joined path, cut at 127 bytes |
| `Paths.NormJoined` | kernel/fs/vfs.c:87-112 | a relative path is read from the working directory, at the root too |
| `Vmas.ViewUpdate` | kernel/mm/mmap.c:58-73 | replacing one slot changes the view exactly where the old or the new area lies |
| `Vmas.RoundUpExact` | kernel/mm/mmap.c:245-302 | rounding covers the request if and only if the length is at most 2^64 - 4096; longer ones round to 0 |
| `Vmas.OnlyHit` | kernel/mm/mmap.c:131-146 | a range inside one area meets no other |
| `Vmas.TrimView` | kernel/mm/mmap.c:213-224 | trimming an end removes exactly its pages and keeps file offsets |
| `Vmas.Areas.FindOverlap` | kernel/mm/mmap.c:131-146 | an area that meets the range, or none does |
| `Vmas.Areas.FindRange` | kernel/mm/mmap.c:84-119 | the lowest page of the region where the range is free; nothing if and only if there is none |
| `Vmas.Areas.Mmap` | kernel/mm/mmap.c:245-302 | succeeds if and only if the arguments are accepted and a range and a slot are free; exactly the new pages appear, with their file offsets, for the user and with exactly the access asked for; otherwise nothing changes |
| `Vmas.EmptyMapping` | kernel/mm/mmap.c:245-302 | the largest length is accepted and maps nothing |
| `Vmas.Areas.Munmap` | kernel/mm/mmap.c:185-226 | succeeds if and only if the pages are a whole area or an end of one; then exactly these pages leave the table and the page table, every other page of every address space keeps entry and bytes, and reference counts stay exact; the file is closed exactly with the whole area; otherwise nothing changes |
| `FileRefs.SlotKeeps` | kernel/core/file.c:131-165 | storing into a slot moves exactly one reference between hand and slot |
| `FileRefs.DropKeeps` | kernel/core/file.c:296-333 | dropping a reference in hand keeps counts exact; the last one closes the file and gives back its pipe end or its inode |
| `FileRefs.LastNode` | kernel/core/file.c:296-333 | the last drop of a file on an inode finds a reference on it and gives exactly that one back |
| `FileRefs.LastDrop` | kernel/core/pipe.c:80-96 | the last drop of an end finds its pipe not yet freed, and frees it exactly when the other end is closed |
| `FileRefs.RunExact` | kernel/core/file.c:131-361 | over every run `ref_count` is the number of slots that refer to the file, a pipe is freed once, exactly when both ends are closed, and the references on an inode are those of its open files and those lent |
| `FileRefs.Files.CloseFile` | kernel/core/file.c:296-333 | computes the specified drop, `pipe_close` and `vfs_iput` included; its panic is unreachable |
| `FileRefs.Files.AllocFile` | kernel/core/file.c:348-361 | the lowest unused file |
| `FileRefs.Files.Open` | kernel/core/file.c:131-165 | succeeds if and only if a file and a descriptor are free; the lowest descriptor gets a file with one reference, which takes over the inode reference of the lookup; otherwise that reference is given back |
| `FileRefs.Files.DupFrom` | kernel/core/file.c:215-253 | succeeds if and only if the arguments are in range and a descriptor is free; the lowest one from `minfd` on gets the file |
| `FileRefs.Files.CloseFd` | kernel/core/sysfile.c:361-383 | succeeds exactly on an open descriptor, which is cleared |
| `FileRefs.Files.Dup3` | kernel/core/sysfile.c:926-982 | succeeds exactly on two different valid descriptors and no flags; the target is closed first |
| `FileRefs.Files.MapFile` | kernel/mm/mmap.c:245-302 | a mapping holds a reference of its own |
| `FileRefs.Files.Exit` | kernel/core/proc.c:342-392 | every slot of the process is cleared, others kept |
| `FileRefs.Files.Exec` | kernel/core/exec.c:74-89 | the mappings go, the descriptors stay |
| `FileRefs.Files.Fork` | kernel/core/proc.c:316-332 | the child gets the parent's slots, each counted |
| `FileRefs.Files.Pipe2` | kernel/core/sysfile.c:715-768 | succeeds if and only if memory, two files, two descriptors and the copy are there; otherwise no descriptor changes |

## Left out

- RISC-V paging: the LoongArch version is modelled; the other has the same structure and marks every leaf.
- Boot, traps, drivers for UART, timer and interrupt controllers, register and configuration-space accesses, the read-back of a BAR.
- More than one CPU, TLB shootdown and memory barriers; translations take effect at once.
- Machine.Memory.Mappages: the physical range consists of frames the caller has in hand; device memory is not modelled.
- Machine.Memory.Uvmalloc: the range lies within the 2^27 pages a table translates; what the kernel does after the panic is not modelled.
- Machine.Memory.Kvmunmap: unmapping without freeing is not modelled, because every caller frees; ranges lie within the 2^27 pages a table translates.
- `kvmmap_mmio_current`, and `copyout` into a page table other than the current one.
- `find_free_range` against the stack: its first bound comes from process 0, modelled as a parameter; areas may reach past the stack, and only their disjointness is stated.
- File contents behind a faulting mapping are a parameter; the file system is not called from the memory model.
- Writing inodes back to disk (`iupdate`, `ilock`), directories and the inode cache of EasyFS; the in-memory block array is the authority.
- User-space source and destination of EasyFS reads and writes; every caller passes kernel buffers. Lengths are below 2^32 and the conversion of the result to `int` is not modelled.
- The directory entries `mkfs` writes are given as bytes, its inode bitmap and superblock are not modelled, and files use direct blocks as the tool requires.
- tmpfs directories, the release of unlinked files, and the file offset, which the caller advances; ext4 and the overlay.
- The virtio device executes every request it takes and reports success; buffers in flight are distinct, which the buffer lock ensures.
- Buffer locks are modelled by their holder; the queue inside a sleep lock is not. The `dirty` flag, which nothing sets, is not modelled. In `CacheDriver` a buffer counts as valid from the completion of its read, not from the return of `bread`; its holder alone can tell the difference.
- Slab constructors, destructors, alignments other than 8, `kmem_cache_destroy`, and growth interleaved with other calls; each slab call is one step.
- KmallocHeap.KernelHeap.Malloc: each slab call is one step on the cache (its loops and links are in SlabLists), and creating a cache does not fail; page reference counts above 1 do not occur.
- PCI alignment by masks is modelled as rounding to a multiple, which agrees for the power-of-two sizes that pass the checks.
- Signals.Process.CheckSignal: the masks of a process are sets of bits, the ready signals a word, and the copy of the frame to user memory succeeds or fails as a whole; signal 64 cannot be pending, which `Send` keeps.
- Paths.MakeAbsolute: the current directory is an absolute path shorter than 128 bytes, as the kernel keeps it.
- FileRefs.Files.Exit: process states, parents and the order of wakeups in `exit` and `wait4` are not modelled.
- Machine.Memory.CopyOut: here and in Machine.Memory.CopyIn the check of a mapped frame against the end of RAM cannot fail in the model, where every frame is in RAM.
- ELF loading, `exec` beyond the release of mappings, the scheduler, system-call argument decoding, the shell and user programs.
