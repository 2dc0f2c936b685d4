# Hydrax, modelled in Dafny

A verification project for the Hydrax x86 kernel. It models the parts of the
kernel whose correctness is hardest to see from the code, and proves what they
promise for every input, every run and every reachable state.

* **Copy-on-write memory** (`Words`, `Memmap`, `Cow`, `CowInvariant`, `CowTables`,
  `CowSpaces`, `CowEager`, `CowBoot`, `Mmu`): page tables, frame reference counts
  and the frame bitmap. Fork by copy-on-write is shown to be indistinguishable
  from fork by copying every page, with exact reference counting underneath.
  Paging follows section 4.3 of the Intel SDM, volume 3A.
* **Address spaces** (`AddressSpaces`, `Kalloc`): `kalloc` and `kfree` keep a page
  bitmap and a list of buffers in agreement, through fork and execve.
* **BGET** (`BgetHeap`, `BgetRuns`, `BgetMemory`, `Bget`): the boundary-tag
  allocator, first as a sequence of blocks, then as bytes in one flat memory with
  headers, sentinels and a circular list. Both copies are covered: kernel (best
  fit, quantum 0x1008) and libs (first fit, quantum 4).
* **Concurrency** (`Semaphore`, `SemaphoreAlone`, `Waiters`, `Pipe`, `PipeThreads`): the
  semaphore with its exclusive mode and the pipe on top of it, as atomic steps of
  threads.
* **Signals and scheduling** (`Signals`, `SignalPlanes`, `SignalRuns`, `Scheduler`):
  four bit planes and a table of entries as bounded queues (sections 2.4.1 and
  2.4.2 of XSH, IEEE Std 1003.1-2001); the cyclic choice of the next task.
* **Names, images and descriptors** (`Paths`, `Vfs`, `VfsOpen`, `Initrd`,
  `InitrdBuild`, `InitrdImage`, `InitrdMount`, `Descriptors`, `DescriptorTables`):
  path printer against path resolver, image builder against the kernel's walk of
  the loaded image, and the reference counts that decide how long a pipe lives.

Routines that change state are methods of classes, or of a state machine where
threads interleave. Each is tied to a function that says what it does to the
state, and the results are proved about those functions and about runs of them.
`dafny verify dfyconfig.toml` covers the whole project.

## Properties that do not hold as one would expect

The code is modelled as it is. Where a promise fails, one lemma gives an input and
another states exactly when the promise holds.

* The pipe is a queue only if no store into a full ring falls between the reader's
  wait and its copy (`Pipe.InterruptedReader`; `Pipe.FifoExactly` and, with the
  semaphore's steps, `PipeThreads.PipeIsQueueExactly`).
* kill of signal 1 replaces a queued second entry, because its later tests compare
  with 1 where sigqueue compares with 0 (`SignalRuns.HangupIsOverwritten`;
  `SignalRuns.FirstInFirstOut`).
* initrd_read clips a request only if its end does not wrap round to a place inside
  the file (`InitrdImage.ReadCanOverrun`; `InitrdImage.ReadIsClipped`).
* A placed kalloc of no bytes records a buffer without pages; kfree of it can then
  free another buffer (`AddressSpaces.EmptyRequestFreesAnother`;
  `AddressSpaces.EmptyRequest`).
* clone_descriptor_table, dup2 and pipe keep references they took when memory runs
  out for a descriptor (`Descriptors.FailedCloneLeaks`; `Descriptors.PipeLifetime`).
* vfs_open gives a reference to the last directory when a name is missing
  (`Vfs.MissingNameIsCounted`; `Vfs.FailedOpen`), and opens the root for the empty
  path (`Vfs.EmptyPathLeaves`; `Vfs.EmptyPathOpens`).
* semaphore_signal_excl does not look whether its caller has the semaphore
  (`Semaphore.UngrantedReleaseSplits`; `Semaphore.ReleaseNeedsGrant`).
* mkinitrd has space for five nodes per file and does not look whether that is
  enough (`InitrdMount.DeepFile`; `InitrdMount.NodeCount`, `InitrdMount.OneFileCount`).

bget.c asks for a quantum that is a power of two, and the kernel's 0x1008 is not one.
What padding needs is only that its low bits are clear (`BgetHeap.PaddedFits`).

## Model

| member | source | states |
|---|---|---|
| `Words.AndBit` | kernel/memmap.c:100 | `w & (1 << j)` is non-zero exactly when bit `j` is set, for every word and bit |
| `Words.SetBit` | kernel/memmap.c:76-77 | `w \| (1 << j)` stays a 32-bit word and sets bit `j` and no other |
| `Words.ClearBit` | kernel/memmap.c:88 | `w & ~(1 << j)` clears bit `j` and no other |
| `Words.AndBitIsOne` | kernel/signal.c:42 | `(w & (1 << j)) == 1` holds exactly for the lowest bit, set: why kill behaves differently for signal 1 |
| `Memmaps.Memmap.constructor` | kernel/memmap.c:26-38 | a new map marks no page |
| `Memmaps.Memmap.Clone` | kernel/memmap.c:43-55 | the clone has its own words and marks the same set of pages |
| `Memmaps.Memmap.SetPage` | kernel/memmap.c:72-78 | the set of marked pages gains exactly this page |
| `Memmaps.Memmap.ClearPage` | kernel/memmap.c:83-89 | the set of marked pages loses exactly this page |
| `Memmaps.Memmap.TestPage` | kernel/memmap.c:94-101 | 1 exactly for a marked page |
| `Memmaps.Memmap.FindFreePage` | kernel/memmap.c:106-115 | the lowest unmarked page, 0 when every page is marked |
| `Memmaps.Memmap.FindFreePages` | kernel/memmap.c:120-151 | the word-skipping scan returns the lowest start of a run of unmarked pages, across word boundaries; with page 0 marked, 0 if and only if there is no such run |
| `Memmaps.Memmap.ScanWord` | kernel/memmap.c:130-143 | the inner loop ends with the lowest run, or with what is known after 32 more pages |
| `Memmaps.UpdateWord` | kernel/memmap.c:72-89 | changing one bit of one word changes membership of one page |
| `Memmaps.RunFound` | kernel/memmap.c:132-137 | a run that ends here, with none ending before, is the lowest run anywhere |
| `Memmaps.SkipMarked` | kernel/memmap.c:145-148 | skipping a word of ones misses no run and ends the current one |
| `CowInvariant.SlotStep` | kernel/mmu.c:111-191 | changing one entry keeps exact counting when the counts follow the entry |
| `CowInvariant.FrameFreeKeeps` | kernel/mmu.c:111-138 | freeing an entry's frame keeps counting and exclusivity and no other entry reads differently |
| `CowInvariant.AllocSlotKeeps` | kernel/mmu.c:233-255 | giving an entry a frame keeps both; the entry is a writable user page that reads what the frame held |
| `CowInvariant.ShareSlotKeeps` | kernel/mmu.c:1055-1067 | sharing an entry at fork keeps both; parent and child entry read the same page with the same rights in user mode, nobody else reads differently |
| `CowInvariant.CopySlotKeeps` | kernel/mmu.c:1068-1091 | copying an entry at fork gives the child a private page with the parent's bytes |
| `CowInvariant.BreakSharingKeeps` | kernel/mmu.c:852-868 | a write fault on a shared frame moves the entry to a private copy: same bytes, all counts exact, other holders untouched |
| `CowInvariant.ClaimKeeps` | kernel/mmu.c:844-851 | a write fault on a frame counted once restores write access and is still exclusive |
| `CowInvariant.StoreKeeps` | kernel/mmu.c:841-868 | a store through a writable entry changes what that entry reads and nothing any other entry reads |
| `CowInvariant.LoweredCountStaysPositive` | kernel/mmu.c:860 | the bare decrement of the write fault never takes a count to zero |
| `CowInvariant.SharedIsReadOnly` | kernel/mmu.c:1059-1065 | a frame with two entries is write-protected in both, in every state that satisfies the invariant |
| `CowTables.AllocSlotView` | kernel/mmu.c:233-257 | on what tables give access to, allocation changes one entry |
| `CowTables.FrameFreeView` | kernel/mmu.c:111-138 | on what tables give access to, freeing empties one entry |
| `CowTables.UserWriteKeeps` | kernel/mmu.c:841-869 | a store in user mode, with the faults it takes, completes exactly through a user entry that may be written, changes one byte of that entry's page and terminates |
| `CowTables.FaultKeeps` | kernel/mmu.c:841-868 | a write fault changes nothing that any address space can read, and leaves the page writable |
| `CowTables.CloneSlotsKeeps` | kernel/mmu.c:1050-1092 | after n rounds of the loop the first n entries of the new table read as those of the old, and nothing else changed |
| `CowTables.CloneTableKeeps` | kernel/mmu.c:1035-1094 | the cloned table reads as its source |
| `CowTables.FreeTableKeeps` | kernel/mmu.c:1171-1177 | the inner loop of teardown empties one table and changes no other |
| `CowSpaces.CloneTablesKeeps` | kernel/mmu.c:1116-1148 | the outer loop of fork shares kernel tables, clones the others, and keeps the invariant |
| `CowSpaces.ClonedDirectory` | kernel/mmu.c:1126-1147 | at every index the child has the kernel's table or a clone of the parent's, and no other |
| `CowSpaces.FreeTablesKeeps` | kernel/mmu.c:1162-1185 | teardown empties exactly the tables the directory does not share with the kernel |
| `CowEager.Step` | kernel/mmu.c:841-1187 | each operation keeps the invariant and takes the machine and the copying reference to matching states |
| `CowEager.CowRefinesCopying` | kernel/mmu.c:1035-1187 | fork by copy-on-write refines fork by copying: after every run each address space finds the pages the reference finds, with the same access in user mode, and each store completes or fails alike |
| `CowEager.AbstractRefines` | kernel/mmu.c:1035-1187 | every machine that satisfies the invariant has a copying reference that matches it |
| `CowEager.FramesAccounted` | kernel/mmu.c:111-191 | after every run, for every frame from 1 on, the count is the number of entries that hold it in tables some address space can reach, and the bitmap marks it if and only if some living address space maps it: teardown leaks no frame |
| `CowEager.HolderIsLive` | kernel/mmu.c:1171-1184 | in every state that satisfies the invariant an entry with a frame is in a table of some directory |
| `CowEager.AllGivenBack` | kernel/mmu.c:1156-1187 | once every process of a run has ended, the frames in use are exactly the ones the kernel's own tables map |
| `CowEager.ExitEmpties` | kernel/mmu.c:1162-1185 | every table of the ending process is still reachable from another directory or maps nothing |
| `CowEager.Isolation` | kernel/mmu.c:1059-1067 | no sequence of calls on behalf of other processes changes any page of an address space, shared at fork or not |
| `CowBoot.BootInv` | kernel/mmu.c:973-991 | the machine after start-up, with the user code pages read-only and the others writable, satisfies the invariant, so the theorems speak of every run from there |
| `Mmus.Mmu.constructor` | kernel/mmu.c:917-927 | counts zero, every frame free, no tables |
| `Mmus.Mmu.FreeFrame` | kernel/mmu.c:111-138 | does to counts, bitmap and entry what FrameFree says; the count is lowered first and the bitmap cleared at zero |
| `Mmus.Mmu.TakeFrame` | kernel/mmu.c:146-191 | does what AllocFrame says, and returns the address of the frame or 0 when the entry had one |
| `Mmus.Mmu.ReserveFrame` | kernel/mmu.c:168-186 | takes the lowest free frame |
| `Mmus.Mmu.AllocPage` | kernel/mmu.c:197-258 | does what MapPage says: a table is made if missing, the entry set up, a frame taken |
| `Mmus.Mmu.PageFault` | kernel/mmu.c:841-869 | handles the fault as WriteFault says, in both branches |
| `Mmus.Mmu.Unshare` | kernel/mmu.c:852-868 | detach, allocate, unprotect, bare decrement, copy: together BreakSharing |
| `Mmus.Mmu.CloneEntry` | kernel/mmu.c:1052-1091 | one round of the clone loop |
| `Mmus.Mmu.ClonePageTable` | kernel/mmu.c:1035-1094 | the loop over 1024 entries does what CloneTable says |
| `Mmus.Mmu.CloneDirectory` | kernel/mmu.c:1099-1151 | the loop over 1024 tables does what Fork says |
| `Mmus.Mmu.FreePageTable` | kernel/mmu.c:1171-1177 | the loop frees every entry that has a frame |
| `Mmus.Mmu.DestroyDirectory` | kernel/mmu.c:1156-1187 | does what Exit says; kernel tables are left alone |
| `Mmus.SearchFindsLowest` | kernel/mmu.c:169 | the bitmap search finds the frame that allocation is specified to take |
| `AddressSpaces.AllocatedAgrees` | kernel/mmu.c:412-472 | marking free pages and recording the buffer keeps bitmap and list in agreement, and buffers disjoint |
| `AddressSpaces.ReleasedAgrees` | kernel/mmu.c:514-551 | removing a buffer and clearing its pages keeps them in agreement |
| `AddressSpaces.AllocThenRelease` | kernel/mmu.c:339-552 | freeing what was just allocated restores bitmap and list exactly |
| `AddressSpaces.NoSharedAddress` | kernel/mmu.c:998-1004 | a kernel buffer and a user buffer never share an address or a page |
| `AddressSpaces.FreesOwnBuffer` | kernel/mmu.c:488-512 | although the kernel's list is searched first, kfree of a process's buffer removes that buffer and nothing else |
| `AddressSpaces.FreesExactly` | kernel/mmu.c:480-552 | kfree of a process's buffer takes exactly that buffer and its pages away; the other buffers keep their order and every other space is unchanged |
| `AddressSpaces.FreesKernelBuffer` | kernel/mmu.c:480-552 | kfree of a kernel buffer takes exactly that buffer and its pages away |
| `AddressSpaces.FreedOk` | kernel/mmu.c:480-552 | kfree keeps the agreement in the kernel and in every process |
| `AddressSpaces.ForkOk` | kernel/fork.c:256-290 | a forked process starts in agreement |
| `AddressSpaces.ReleasedAllIsBase` | kernel/scheduler.c:462-463 | execve's loop ends, with the bitmap back at the reserved pages, the list empty, and nothing else changed |
| `AddressSpaces.RunsAgree` | kernel/mmu.c:339-552 | in every run of kalloc, kfree, fork and execve all bitmaps agree with their lists |
| `AddressSpaces.BootOk` | kernel/mmu.c:998-1004 | the maps set up at start-up agree, with all kernel space reserved in the user map |
| `AddressSpaces.EmptyRequest` | kernel/mmu.c:386-552 | kfree of what a recorded request of a process gave takes the whole system back to what it was if and only if the request was for at least one byte or no buffer was at its address |
| `AddressSpaces.EmptyRequestFreesAnother` | kernel/mmu.c:488-497 | a recorded request for no bytes can share a kernel buffer's address; freeing it then frees the kernel's buffer |
| `Kalloc.AddressSpace.Fork` | kernel/fork.c:256-290 | the copied bitmap and list are equal to the parent's |
| `Kalloc.AddressSpace.AnyTaken` | kernel/mmu.c:386-397 | a placed request is refused exactly when a page that holds one of its bytes is marked |
| `Kalloc.AddressSpace.Mark` | kernel/mmu.c:412-413 | the loop marks exactly the pages that hold bytes of the request |
| `Kalloc.AddressSpace.Alloc` | kernel/mmu.c:339-475 | in pages and in bytes: kalloc takes the given place if all its bytes lie in free pages, else the lowest place where they do; fails if and only if there is none; marks exactly the pages that hold the bytes; the recorded buffer has less than a page more |
| `Kalloc.AllocInBytes` | kernel/mmu.c:398-458 | what kalloc does to pages is what AllocBytes says of bytes |
| `Kalloc.BytesApart` | kernel/mmu.c:339-552 | the bytes of two live buffers of a space never overlap |
| `Kalloc.KernelBytesApart` | kernel/mmu.c:998-1004 | nor do the bytes of a kernel buffer and a process's |
| `Kalloc.AddressSpace.Unmark` | kernel/mmu.c:516-522 | the loop clears exactly the pages of the buffer |
| `Kalloc.AddressSpace.Remove` | kernel/mmu.c:516-551 | one buffer leaves the list and its pages the bitmap |
| `Kalloc.Free` | kernel/mmu.c:480-552 | kfree does what Freed says to the two spaces it looks at |
| `Kalloc.ReleaseBuffers` | kernel/scheduler.c:462-463 | the loop terminates with the user bitmap at its baseline and the kernel's space unchanged |
| `BgetHeap.PaddedFits` | kernel/bget/bget.c:577-587 | the padded size holds the request and the header, is less than a quantum too long, and keeps to 4 or 8 bytes, although 0x1008 is no power of two |
| `BgetHeap.PaddedInLibs` | libs/bget/bget.c:565-587 | in the libs a request takes the least multiple of four that holds it and two links, and a header |
| `BgetHeap.PaddedInKernel` | kernel/bget/bget.c:577-587 | in the kernel the padded size, header apart, is the sum of the request and 0x1007 without bits 0, 1, 2 and 12 |
| `BgetHeap.UsableFits` | kernel/bget/bget.c:984-986 | a masked pool length is at most the length, less than a quantum shorter, and aligned |
| `BgetHeap.CarveInv` | kernel/bget/bget.c:629-678 | splitting a block or taking it whole keeps the tiling, the absence of free neighbours and the free list |
| `BgetHeap.FreedHalf` | kernel/bget/bget.c:865-892 | after the first half of brel only the freed block may have a free neighbour, behind it |
| `BgetHeap.ReleaseInv` | kernel/bget/bget.c:813-929 | brel keeps the whole invariant, in all four coalescing cases |
| `BgetHeap.AddPoolInv` | kernel/bget/bget.c:977-1040 | bpool keeps it for a region apart from all blocks |
| `BgetRuns.ChosenIsUnique` | kernel/bget/bget.c:596-618 | the fit policy names one block |
| `BgetRuns.GotFromChosen` | kernel/bget/bget.c:629-678 | a successful bget cuts the padded size off the upper end of the block of its policy and leaves the rest free where it was if more than a smallest buffer and a header is to spare, and else gives all of it |
| `BgetRuns.GotSize` | kernel/bget/bget.c:596-678 | the block given is at least the padded size and at most a smallest buffer and a header longer; best fit cuts it from a smallest block that is long enough |
| `BgetRuns.ReleasedAlone` | kernel/bget/bget.c:880-892 | a block freed between used ones goes to the end of the free list with its address and size |
| `BgetRuns.PoolAdds` | kernel/bget/bget.c:977-1040 | bpool adds one free block of the masked length less a header, last in the list, and no live one |
| `BgetRuns.GetThenRelease` | kernel/bget/bget.c:629-929 | brel of what bget just returned restores every block exactly, and when the block was split the list too |
| `BgetRuns.CarveSums` | kernel/bget/bget.c:645-665 | bget moves exactly the size of the given block from free to used |
| `BgetRuns.ReleaseSums` | kernel/bget/bget.c:859 | brel moves exactly the size of the block back |
| `BgetRuns.CarveLive` | kernel/bget/bget.c:629-678 | bget moves no live block and adds exactly one |
| `BgetRuns.ReleaseLive` | kernel/bget/bget.c:813-929 | brel ends the life of one block and moves no other |
| `BgetRuns.LiveApart` | kernel/bget/bget.c:629-678 | live areas do not overlap |
| `BgetRuns.LiveInPool` | kernel/bget/bget.c:577-587 | a live area lies inside its pool, before the sentinel, and its address and size are multiples of 8 in the kernel, of 4 in libs |
| `BgetRuns.StepKeeps` | kernel/bget/bget.c:562-1040 | each call keeps the invariant and the total of used, free and sentinel bytes, bpool adding the masked length |
| `BgetRuns.RunsAreSound` | kernel/bget/bget.c:562-1040 | in every run the heap is sound, used + free + sentinel bytes is the sum of the masked pool lengths, and there are 8 sentinel bytes for each pool |
| `BgetRuns.BuffersStay` | kernel/bget/bget.c:562-956 | from bget to brel a buffer stays where it is and at least as long as was asked |
| `BgetMemory.UnlinkAt` | kernel/bget/bget.c:661-662 | the two unlinking stores take one node out of the circular list in memory and write only into links |
| `BgetMemory.LinkLastAt` | kernel/bget/bget.c:886-889 | the four chaining stores put a node at the end of the list |
| `BgetMemory.SplitRepresents` | kernel/bget/bget.c:629-650 | after the header stores of a split, memory represents the split heap; only allocator bytes were written |
| `BgetMemory.TakeRepresents` | kernel/bget/bget.c:650-678 | the same for taking a whole block |
| `BgetMemory.FreedRepresents` | kernel/bget/bget.c:865-892 | the same for the first half of brel, one `prevfree` being out of step |
| `BgetMemory.AbsorbedRepresents` | kernel/bget/bget.c:899-920 | the same for joining the free block behind |
| `BgetMemory.ReleasedRepresents` | kernel/bget/bget.c:929 | the last store of brel puts that `prevfree` right |
| `BgetMemory.PoolRepresents` | kernel/bget/bget.c:1012-1039 | the same for bpool, header, links and sentinel |
| `BgetMemory.UserBytes` | kernel/bget/bget.c:489-512 | no byte of a live user area belongs to the allocator |
| `Bget.Allocator.constructor` | kernel/bget/bget.c:514-517 | a head linked to itself represents the empty heap |
| `Bget.Allocator.FindBest` | kernel/bget/bget.c:606-614 | the scan of the list finds a smallest block that fits, the first of its size |
| `Bget.Allocator.Give` | kernel/bget/bget.c:629-678 | carves the chosen block; the source's assertions on `prevfree` and links hold |
| `Bget.Allocator.Get` | kernel/bget/bget.c:562-742 | bget: fails if and only if no free block is large enough, else carves the block of the policy, best fit in the kernel, first fit in libs, as GotBlock says: the upper end, or all of it if too little would be left; writes no byte of a live buffer |
| `Bget.Allocator.Rel` | kernel/bget/bget.c:813-956 | brel of a live buffer does what Release says, every assertion holds, and it writes no byte of any other live buffer |
| `Bget.Allocator.Unuse` | kernel/bget/bget.c:846-892 | the half up to the search behind, with its assertions |
| `Bget.Allocator.Absorb` | kernel/bget/bget.c:899-929 | the half from there on |
| `Bget.Allocator.AddRegion` | kernel/bget/bget.c:977-1040 | bpool adds one free block and a sentinel |
| `Bget.Allocator.GetCleared` | kernel/bget/bget.c:748-771 | bgetz: as bget, and every byte of the buffer is zero |
| `Bget.Allocator.Resize` | kernel/bget/bget.c:778-809 | bgetr: the first bytes, up to the smaller of old usable and new requested size, are kept; on failure nothing changes; no other live buffer is written |
| `Bget.Allocator.Stats` | kernel/bget/bget.c:1046-1065 | curalloc and totfree are the sums over used and free blocks, maxfree the largest free block or -1 |
| `Bget.Allocator.Check` | kernel/bget/bget.c:1200-1240 | bpoolv ends at the sentinel and returns 1 |
| `Bget.Allocator.Poke` | kernel/bget/bget.c:648-649 | a program's own stores into a live buffer never disturb the heap |
| `Bget.BestIsChosen` | kernel/bget/bget.c:606-614 | what the best-fit scan ends with is the block of the policy |
| `Bget.FirstIsChosen` | libs/bget/bget.c:591-676 | the first block that fits in list order is the block of the first-fit policy |
| `Bget.FreeSum` | kernel/bget/bget.c:1056-1063 | adding up along the free list is adding up the free blocks |
| `Bget.GotFree` | kernel/bget/bget.c:629-678 | a new buffer is cut from bytes that belonged to no live buffer |
| `Semaphore.StepKeeps` | kernel/semaphore.c:33-289 | every load, store and exchange of every thread keeps the invariant |
| `Semaphore.Safety` | kernel/semaphore.c:33-289 | in every interleaving of any number of threads: 0 <= cnt <= max_cnt, cnt - initial = taken - given, no two threads inside, every mutex_release finds its word set, an exclusive grant means no slot taken or being taken |
| `Semaphore.GrantLasts` | kernel/semaphore.c:193-215 | from an exclusive grant until its owner's semaphore_signal_excl the owner stays and cnt stays 0 |
| `Semaphore.CountMoves` | kernel/semaphore.c:171-261 | in every reachable state cnt goes up only where a slot is taken, below max_cnt, and down only where one is given back, above 0 |
| `Semaphore.Reachable` | kernel/include/mutex.h:74-108 | every reachable state satisfies the invariant |
| `Semaphore.AnswersAreTrue` | kernel/semaphore.c:33-289 | in every interleaving, between its calls, a thread was answered yes exactly as often as it took or gave back a slot or got the grant |
| `Semaphore.ReleaseNeedsGrant` | kernel/semaphore.c:267-270 | semaphore_signal_excl of an idle thread finds the word set and leaves it clear with nobody holding it if and only if the semaphore was granted to that thread |
| `Semaphore.UngrantedReleaseSplits` | kernel/semaphore.c:267-270 | after a release by another thread two threads hold the semaphore exclusively |
| `SemaphoreAlone.AcquireAlone` | kernel/semaphore.c:33-215 | from every reachable state with both words clear an undisturbed call returns if and only if a slot is free (exclusive: none is taken) or it is a try form; the try form's answer is whether it was; a slot is taken, or the grant given, exactly then |
| `SemaphoreAlone.SignalAlone` | kernel/semaphore.c:220-289 | from every reachable state with `enter` clear an undisturbed signal gives a slot back if and only if one is taken, and returns exactly then or as a try form, which answers so |
| `SemaphoreAlone.ExclusiveSignalAlone` | kernel/semaphore.c:267-270 | the owner's semaphore_signal_excl clears the word and ends the grant |
| `Waiters.WaiterList.Attach` | kernel/include/mutex.h:115-135 | the waiter goes to the end of the chain; no other waiter changes |
| `Waiters.WaiterList.Detach` | kernel/include/mutex.h:141-164 | the waiter is found, the source's assertion holds, and the others keep their order |
| `Pipe.StepRing` | kernel/io.c:206-256 | every held byte stays in its cell of the ring of SIZE + 1 cells; with SIZE + 2 held only the oldest may be lost |
| `Pipe.PipeIsQueue` | kernel/io.c:214-253 | if the reader's wait and copy are not interrupted, what is read is a prefix of what is written and at most SIZE + 1 bytes are held, in every run |
| `Pipe.FifoExactly` | kernel/io.c:214-253 | with all steps interleaved, the pipe is a queue if and only if the writer never stores a different byte into a full ring between the reader's wait and copy |
| `Pipe.InterruptedReader` | kernel/io.c:216-217 | for a ring of any size there is a run in which the first byte written is never read |
| `PipeThreads.StepMatches` | kernel/io.c:206-256 | each load, store and exchange of reader and writer is one step of the ring or leaves it alone: a slot is taken where semaphore_waitsleep stores the count, a byte published where semaphore_signal_sleep does |
| `PipeThreads.RingRuns` | kernel/io.c:206-256 | every interleaving of the two threads with the semaphore's own steps is a run of the ring |
| `PipeThreads.PipeIsQueueExactly` | kernel/io.c:214-253 | over every such interleaving what is read is a prefix of what is written if and only if no different byte went into a full ring between the reader's wait and copy |
| `PipeThreads.ReaderAlone` | kernel/io.c:206-222 | a reader moving alone with a byte published comes back with the oldest byte it has not read |
| `PipeThreads.WriterAlone` | kernel/io.c:246-253 | a writer moving alone with room stores its byte and publishes it |
| `SignalPlanes.RaisedLevels` | kernel/signal.c:356-411 | setting the bit in the first plane without it keeps each plane a subset of the one before and counts up for this signal only |
| `SignalPlanes.LoweredLevels` | kernel/signal.c:120-127 | clearing it in the last plane that has it counts down, for this signal only |
| `SignalPlanes.AppendedQueues` | kernel/signal.c:356-411 | bit and info entry together append to one queue and leave the other 31 alone |
| `SignalPlanes.RemovedQueues` | kernel/signal.c:120-132 | lowering the level and shifting the row removes the oldest entry |
| `SignalPlanes.LowestBit` | kernel/signal.c:114-147 | the shifting loop finds the lowest set bit |
| `SignalPlanes.Task.Append` | kernel/signal.c:356-411 | bit and entry go into the first plane without the bit: one entry more at the end of one queue |
| `SignalPlanes.Task.Queue` | kernel/signal.c:341-418 | appends to the queue, or EAGAIN exactly at four, EINVAL exactly outside 1 to 32 |
| `SignalPlanes.Task.Post` | kernel/signal.c:23-85 | kill: one entry if there was none; for signal 1 with two or more the second entry is replaced; otherwise nothing |
| `SignalPlanes.Task.Take` | kernel/signal.c:118-142 | takes the oldest entry and counts a delivery, up to four |
| `SignalPlanes.Task.Handle` | kernel/signal.c:101-238 | handles the backlog in ascending signal number, oldest first, masked ones left out, up to the first disposition that ends the receiver; terminates |
| `SignalPlanes.TerminatingIs` | kernel/signal.c:156-221 | by default a signal ends its receiver if and only if it is none of those that stop, continue or are ignored and has a case of its own |
| `SignalPlanes.Task.Accept` | kernel/signal.c:560-588 | the lowest awaited signal with a delivery, whose count goes down by one while every other count, all queues and the mask stay; 0 exactly when there is none, with nothing changed |
| `SignalPlanes.Task.Hold` | kernel/signal.c:257-263 | adds one signal to the mask |
| `SignalPlanes.Task.Unhold` | kernel/signal.c:269-275 | removes one signal from the mask |
| `SignalPlanes.SigQueue` | kernel/signal.c:341-418 | over a list of tasks: ESRCH exactly when no task has the id, only the first with the id changes |
| `SignalPlanes.KillThread` | kernel/signal.c:437-459 | with id 0 every task gets the signal, otherwise the first with the id, -1 exactly when there is none |
| `Signals.TakeIsFirst` | kernel/signal.c:106-147 | taking the oldest entry of the lowest open signal is taking the first of the backlog |
| `Signals.BacklogAscends` | kernel/signal.c:106-147 | what a handler has to do goes through the signals in ascending order |
| `Signals.AdvancedQueues` | kernel/signal.c:118-142 | handling moves entries from the front of queues to the delivery counts, which saturate at four |
| `Signals.DrainedState` | kernel/signal.c:236-237 | after a full drain unmasked queues are empty, masked queues and counts unchanged |
| `SignalRuns.FirstInFirstOut` | kernel/signal.c:23-418 | in every run, for each signal, accepted = handled + queued after every event, so nothing is lost, repeated or reordered; for signal 1 if and only if no kill of it meets a queue with a different second entry |
| `SignalRuns.StepOrder` | kernel/signal.c:23-418 | any one event keeps accepted = handled + queued of a signal if and only if it is not a kill of signal 1 over a different second entry |
| `SignalRuns.WaitsFollowDeliveries` | kernel/signal.c:101-588 | in every run no more waits come back with a signal than entries of it were handled; at all times the delivery count is handled less waits if and only if no handler call overflows the count of four |
| `SignalRuns.StepBalance` | kernel/signal.c:101-588 | the same for one event |
| `SignalRuns.HangupIsOverwritten` | kernel/signal.c:42-55 | two queued entries of signal 1 and a kill: the second is lost |
| `SignalRuns.HandlerTakesFront` | kernel/signal.c:101-238 | what one handler call logs of a signal, followed by what stays, is the queue as it was |
| `SignalRuns.HandlerLeavesNothingOpen` | kernel/signal.c:236-237 | a handler call that is not cut short leaves no unmasked signal pending |
| `Scheduler.TaskList.Select` | kernel/scheduler.c:177-226 | terminates; chooses the first runnable task after the current one, round the list; idle only if none can run; wakes only the chosen one |
| `Scheduler.ChosenIsUnique` | kernel/scheduler.c:203-226 | the choice is determined, and idle if and only if no task is runnable |
| `Scheduler.PassedOver` | kernel/scheduler.c:189-226 | a runnable task that is passed over is nearer to its turn |
| `Scheduler.BoundedBypass` | kernel/scheduler.c:177-226 | a task that stays runnable is chosen within as many switches as there are tasks, whatever the others do |
| `Descriptors.PipedKeeps` | kernel/io.c:455-498 | a new pipe's two references are its two descriptors |
| `Descriptors.PipedFinds` | kernel/io.c:493-497 | the next two numbers are the reading and the writing end of the new pipe |
| `Descriptors.DuplicatedKeeps` | kernel/io.c:286-317 | dup2 onto another number keeps every count exact, also when it closes the last other descriptor of a pipe |
| `Descriptors.DuplicatedFinds` | kernel/io.c:286-317 | after dup2 the new number gives the node, mode and offset of the old, and every other number, the old one included, what it gave |
| `Descriptors.ClosedKeeps` | kernel/io.c:534-565 | close keeps every count exact and frees at zero |
| `Descriptors.ClosedFinds` | kernel/io.c:534-565 | after close the number is free and every other number gives what it gave |
| `Descriptors.ClonedKeeps` | kernel/io.c:118-169 | cloning a table adds one reference per descriptor |
| `Descriptors.ClonedFinds` | kernel/io.c:118-169 | the child finds under every number what the parent finds there |
| `Descriptors.CloneFailedKeeps` | kernel/io.c:144-157 | when memory runs out while cloning, counts stay exact if and only if no descriptor of a live pipe had been copied |
| `Descriptors.DupFailedKeeps` | kernel/io.c:303-310 | when memory runs out in dup2, counts stay exact if and only if the descriptor is of no live pipe |
| `Descriptors.PipeCutLeaks` | kernel/io.c:493-497 | a pipe that does not get both descriptors has more references than descriptors |
| `Descriptors.FailedCloneLeaks` | kernel/io.c:144-157 | a run: a pipe, then a fork that runs out of memory after one descriptor, leaves three references for two descriptors |
| `Descriptors.EmptiedExactly` | kernel/io.c:186-191 | the loop of destroy closes each descriptor of the table once, even if numbers repeat, and touches no other table |
| `Descriptors.DestroyedKeeps` | kernel/io.c:173-201 | destroying a table keeps every count exact |
| `Descriptors.DestroyedExactly` | kernel/io.c:173-201 | a table that others still use loses one user and nothing else, the last user takes its descriptors with it, and no other table changes |
| `Descriptors.PipeLifetime` | kernel/io.c:61-565 | in every run of open, pipe, dup2, close, fork and exit, up to any point, a live pipe's refs is the number of descriptors that name it and no descriptor names a freed one, if and only if memory never ran out for an operation after it took a reference to a pipe |
| `Descriptors.ApplyKeeps` | kernel/io.c:61-565 | the same for each single operation |
| `Descriptors.FreedAtLastClose` | kernel/vfs.c:357-380 | an operation frees a pipe if and only if it leaves no descriptor for it |
| `DescriptorTables.Kernel.Lookup` | kernel/io.c:44-55 | the first descriptor with the number |
| `DescriptorTables.Kernel.Release` | kernel/vfs.c:357-380 | one reference less, freed at zero |
| `DescriptorTables.Kernel.Close` | kernel/io.c:534-565 | -1 for an empty table, else does what Closed says |
| `DescriptorTables.Kernel.Create` | kernel/io.c:61-113 | the descriptor goes to the end, with the next number or the given one; -1 and no change without room |
| `DescriptorTables.Kernel.MakePipe` | kernel/io.c:455-498 | does what Piped says, the two numbers being consecutive; without room for the pipe nothing, without room for a descriptor what PipeCut says |
| `DescriptorTables.Kernel.Dup2` | kernel/io.c:286-317 | -1 exactly when the old number is not open or there is no room; does what Duplicated says, or DupFailed without room |
| `DescriptorTables.Kernel.CloneTable` | kernel/io.c:118-169 | the loop does what Cloned says, or with too little room what CloneFailed says |
| `DescriptorTables.Kernel.DestroyTable` | kernel/io.c:173-201 | the loop does what Destroyed says |
| `Paths.GetPathLevel` | kernel/vfs.c:32-72 | component `level` of the path split at slashes after one leading slash; nothing past the end or for an empty component |
| `Paths.SkipName` | kernel/vfs.c:49-50 | stops at the next slash or the end |
| `Paths.NamesOfJoined` | kernel/vfs.c:599-606 | reading back names printed with slashes gives the names |
| `Paths.EmptyComponentEnds` | kernel/vfs.c:49-62 | an empty component ends the path: what follows two slashes is not looked at |
| `Vfs.OpenThePath` | kernel/vfs.c:578-608 | opening the printed path of a node under the root finds that node, from any working directory |
| `Vfs.LookupChild` | kernel/vfs.c:441-480 | a uniquely named child is what the lookup finds |
| `Vfs.LookupIs` | kernel/vfs.c:441-480 | the first child with the name; in the root, when no child has it, the first mounted node that does; else nothing |
| `Vfs.DotsLead` | kernel/vfs.c:291-316 | `.` leads nowhere else, `..` to the parent or, from the root, above it |
| `Vfs.DownAndUp` | kernel/vfs.c:289-346 | going down to a child and up again is going nowhere |
| `Vfs.OpenThenClose` | kernel/vfs.c:348-380 | opening a node and closing it leaves every reference count as it was |
| `Vfs.WalkChain` | kernel/vfs.c:289-346 | walking the names below a node of a chain ends at the end of the chain |
| `Vfs.WalkFails` | kernel/vfs.c:289-346 | a walk ends above the root if and only if some prefix of its names leads to the root and the next is `..`; if a name is missing, some prefix leads to the directory that does not have the next |
| `Vfs.FailedOpen` | kernel/vfs.c:298-343 | an open that finds nothing leaves every reference count alone if and only if its path climbs above the root |
| `Vfs.MissingNameIsCounted` | kernel/vfs.c:335-343 | a root without files and the path /x: nothing is returned and the root has one reference more |
| `Vfs.EmptyPathOpens` | kernel/vfs.c:269-287 | a path is resolved from the directory it starts at if and only if it is not empty or the working directory is the root |
| `Vfs.EmptyPathLeaves` | kernel/vfs.c:279-287 | from a directory below the root the empty path opens the root |
| `VfsOpen.FileSystem.FindDir` | kernel/vfs.c:441-480 | own children first, then for the root what is mounted |
| `VfsOpen.FileSystem.Open` | kernel/vfs.c:260-352 | returns the node that Resolve names, with `.` and `..`; reference counts move as Counted says: the node found gains one, and so does the last directory when a name is missing |
| `VfsOpen.FileSystem.Close` | kernel/vfs.c:357-380 | one reference less |
| `VfsOpen.FileSystem.Dots` | kernel/vfs.c:291-325 | the inner loop steps over dots and stops above the root |
| `VfsOpen.FileSystem.GetPath` | kernel/vfs.c:578-608 | prints the names from the root to the node |
| `Initrd.AddedOk` | tools/src/mkinitrd/mkinitrd.c:246-257 | adding a node with new names keeps the linked tree well formed: children chained in order, parents right, names unique |
| `Initrd.FindByNames` | tools/src/mkinitrd/mkinitrd.c:239-245 | looking a name up finds a node if and only if it carries these names from the root |
| `InitrdBuild.Filename` | tools/src/mkinitrd/mkinitrd.c:265-274 | what follows the last slash |
| `InitrdBuild.Builder.Search` | tools/src/mkinitrd/mkinitrd.c:239-245 | the first sibling with the name, along the pointers |
| `InitrdBuild.Builder.Append` | tools/src/mkinitrd/mkinitrd.c:246-257 | the new node is chained behind the last sibling |
| `InitrdBuild.Builder.Levels` | tools/src/mkinitrd/mkinitrd.c:227-231 | the number of components |
| `InitrdBuild.Builder.FindParent` | tools/src/mkinitrd/mkinitrd.c:220-263 | ends at the directory of the path; nodes that existed stay, new ones are directories on the way; returns how many were made |
| `InitrdBuild.Builder.AddFile` | tools/src/mkinitrd/mkinitrd.c:312-346 | the file is in the tree under its names with its length and data offset; all earlier files stay |
| `InitrdBuild.Builder.Build` | tools/src/mkinitrd/mkinitrd.c:309-346 | the tree holds exactly the files and the directories that lead to them; the count is the number of nodes |
| `InitrdImage.Relocate` | tools/src/mkinitrd/mkinitrd.c:348-375 | the loop relocates every node as Relocated says |
| `InitrdImage.Load` | kernel/initrd.c:63-89 | the loop loads every node as Loaded says |
| `InitrdImage.LinkSurvives` | tools/src/mkinitrd/mkinitrd.c:356-373 | a pointer that goes through the image comes out as the address of the same node, wherever the image is loaded |
| `InitrdImage.NodeSurvives` | kernel/initrd.c:72-86 | so do all links and the data address of a node, in 32-bit arithmetic |
| `InitrdImage.WriteFiles` | tools/src/mkinitrd/mkinitrd.c:383-394 | the files one after the other |
| `InitrdImage.BlobAt` | tools/src/mkinitrd/mkinitrd.c:333-335 | a file's bytes are at its offset |
| `InitrdImage.Read` | kernel/initrd.c:46-58 | copies the bytes and returns the size that 32-bit arithmetic gives |
| `InitrdImage.ReadIsClipped` | kernel/initrd.c:50-53 | the size is the part of the request inside the file if and only if the end of the request does not wrap round to a place inside the file |
| `InitrdImage.ReadCanOverrun` | kernel/initrd.c:52-53 | a request whose end wraps is not clipped |
| `InitrdImage.NodeReadsBack` | kernel/initrd.c:46-58 | a node with a file's length and data address reads back as the file, clipped to its length |
| `InitrdMount.NodeIsAt` | kernel/initrd.c:63-89 | in the loaded image every node lies at its address with its links and data address turned into addresses |
| `InitrdMount.AlongKids` | kernel/vfs.c:453-460 | following the loaded sibling pointers finds what a search through the children in order finds |
| `InitrdMount.LookupFinds` | kernel/vfs.c:441-472 | looking a name up in a node of the loaded image gives the address of the child with the name, or null |
| `InitrdMount.FindDir` | kernel/vfs.c:446-460 | the search loop along the pointers terminates and gives what Lookup gives |
| `InitrdMount.Open` | kernel/vfs.c:289-346 | the walk over names without dots gives what WalkTo gives |
| `InitrdMount.WalkFinds` | kernel/vfs.c:289-346 | following the loaded pointers along any names from any node ends at the node with these names, and at null exactly when there is none |
| `InitrdMount.FileFound` | kernel/initrd.c:63-89 | following the loaded pointers along the path of file i ends at the address of its node, which is a file of its length with the address of its bytes |
| `InitrdMount.NothingElse` | kernel/initrd.c:63-89 | names lead somewhere in the loaded image if and only if they are on the way to a file, and to a file if and only if they are its names |
| `InitrdMount.RoundTrip` | kernel/initrd.c:46-89 | for every list of well-formed unrelated paths and every place the image fits: following the loaded pointers along path i reaches a node whose reads give bytes i, clipped to the file |
| `InitrdMount.MakeAndLoad` | tools/src/mkinitrd/mkinitrd.c:276-398 | building, relocating, writing and loading in a row leave nodes in memory in which the walk finds every file and nothing else |
| `InitrdMount.NodeCount` | tools/src/mkinitrd/mkinitrd.c:295 | mkinitrd makes exactly one node for each different prefix of the paths, so its space for five per file is enough if and only if there are no more than that |
| `InitrdMount.OneFileCount` | tools/src/mkinitrd/mkinitrd.c:295 | one file alone needs a node more than its path has names: it fits if and only if there are at most four |
| `InitrdMount.DeepFile` | tools/src/mkinitrd/mkinitrd.c:295 | /a/b/c/d/e is a path that mkinitrd takes and has five names |

## Left out

- Page faults on file-backed pages (mmap), kernel/mman.c and CLONE_SHARE: file input is mixed in, and CLONE_SHARE has no caller.
- Storage of page tables and directories: a cloned table starts with `refs` 0 and teardown lowers it first, so that memory does not balance; only frames held by entries are counted.
- CowEager.CowRefinesCopying: runs are those in which a frame is free when one is taken; when none is, the search answers 0 and frame 0 is handed out, which AllocFrame models and the theorem excludes.
- CowEager.Isolation: every access reads the page tables afresh. mmu_clone_table invalidates the frame's address and not the page's, so on hardware a stale translation is only gone after the switch reloads the page directory.
- Mmus.Mmu.PageFault: the page table must exist and counts are unbounded integers; the locks around counts are not modelled, the routines being taken one at a time.
- Kalloc.AddressSpace.Alloc: mapping the pages is not repeated here; requests are within the map, so address arithmetic does not wrap.
- Kalloc.Free: an address where no buffer begins, which trips an assertion in the source, changes nothing here.
- Bget.Allocator.Get: sizes that overflow a signed 32-bit size are excluded; bectl call-backs and direct buffers are not modelled, as nothing in the repository installs them.
- Bget.Allocator.Stats: totals are unbounded integers.
- Wakeup of sleeping waiters and liveness of semaphores: a signal can fall between the count test and attaching the waiter; under interleaving only safety is proved, and progress for a thread that is not disturbed. Sleeping and yielding are steps without effect.
- Semaphore.Safety: threads call semaphore_signal_excl only with the grant; Semaphore.ReleaseNeedsGrant says what the call does without it.
- Pipe.PipeIsQueue: one reader and one writer, with the reader's wait and copy in one step; Pipe.FifoExactly is the statement without that condition. SIGPIPE is not modelled.
- SignalPlanes.Task.Handle: handlers come back and send nothing; stopping and continuing (SIGSTOP, SIGCONT) do not change signal state and are not modelled.
- SignalPlanes.Task.Accept: the sleep between two scans is the caller's; sigsuspend and sigwaitinfo repeat the same scan.
- SignalPlanes.Task.Post: signal numbers above 32 are excluded; the source shifts by more than the width of a word there.
- SignalPlanes.KillThread: the same exclusion; kill by process id differs only in which task is searched for.
- Scheduler.TaskList.Select: the list does not change and holds the current task; inserting and removing tasks, wait and procfs are left out, and so is the processor switch.
- DescriptorTables.Kernel.Create: offsets, modes and permissions are carried but not interpreted.
- Descriptors.DuplicatedFinds: the new number is open at most once; dup2 onto given numbers and numbering by a counter can make numbers repeat, and then the source sets the offset of the first of them.
- DescriptorTables.Kernel.Dup2: dup2 of a number onto itself is excluded; the source closes the descriptor before it reads it.
- DescriptorTables.Kernel.Close: a number that is not open in a table with files is excluded; the source goes through a null pointer there.
- Descriptors.PipeLifetime: references of nodes that are no pipes are not counted, as a close never frees those. Nothing in the source raises a table's own count, so runs start with any count.
- VfsOpen.FileSystem.Open: directories have no driver hooks, and every node a name is looked up in is a directory.
- VfsOpen.FileSystem.Close: nodes that are freed with their last reference are pipes, in Descriptors.
- Vfs.OpenThePath: nodes of a mounted file system are left out, because their parents end at the image root; the path must be within MAX_PATH.
- InitrdMount.Open: names without dots, from the mounted root; a node made at run time under the same name comes first, and looking a name up in a file is outside the model, as there the source calls a hook that is null.
- InitrdBuild.Builder.Build: node space is not bounded here, InitrdMount.NodeCount says how much is needed; `.` and `..` as names, empty names and paths that lead through each other are excluded.
- Device drivers, console, ELF loading, the C library, shell utilities and boot code: hardware, input and output, or small helpers that would add only easy members.
