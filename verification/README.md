# Noah's own kernel structures, in Dafny

Noah runs Linux programs on macOS by being their kernel in user space. This
project models the data structures and state machines that Noah keeps for
itself, and proves what they have to guarantee.

- **Hash table** (`HashTable`, `Probing`, `HashBits`). Open addressing with
  triangular probing and a rehash that moves entries in place by kicking
  residents out. The table is tied to a mathematical map through a ghost map
  from each key to its probe step, and its flags and sizes to the packed words
  and the bit smearing that compute them.
- **Guest address space** (`TreeShape`, `TreeColour`, `RedBlackTree`, `PageMap`,
  `AddressSpace`). One set of regions, held as a red-black tree with parent
  pointers, as an address-ordered list and as the hypervisor's page map. A panic
  or failed assertion is a step that sets `halted`. Pointer fields are sequences
  indexed by node address; the mirror-image halves of the tree algorithms are
  one half with a side parameter.
- **Shared-arena allocator** (`ShmAllocator`). A circular, address-ordered free
  list with coalescing below a rising break. Addresses count header-sized units
  from the list's own header.
- **Private futexes** (`FutexQueues`, `Futex`, `FutexProtocol`,
  `FutexRefinement`). The queues as the code builds them, on the hash table, the
  protocol as a state machine in which guest stores interleave with everything,
  and the proof that the first carries out the second.
- **Signals** (`GuestMemory`, `SignalFrames`, `PendingSignals`). The frame pushed
  on the guest stack byte by byte, the return through it, nested deliveries, and
  the choice of the signal to deliver.
- **Initial stack, user copies, descriptors, paths** (`UserStack`, `UserCopy`,
  `FdTable`, `FdBits`, `PathResolution`). Bits of 64-bit words are in `Bits`.

The host enters as parameters: what `mmap` and `close` answer, what `readlink`
says, the contents of uninitialised memory, and when the other threads run.
Integers are unbounded; where a width matters (32-bit split offsets, 64-bit
instruction pointers, the int that `ffs` takes) it is written out. Preconditions
that bound inputs are of one kind: no region or arena beyond what fits, no
address beyond the user's part of the address space, no table beyond 2^31
buckets. Protections are the three read, write and execute bits, which have the
same values on both sides of the hypervisor interface.

Where the code does something else than its documentation says, the model does
what the code does, and the difference is a theorem:

- `find_region_range` is documented to return the lowest overlapping region, but
  follows left links only. `LowestMissed` is a tree where it does not, and
  `UnmapLeavesPage` a munmap on it that leaves a page of its range mapped.
  `Munmap` says what is unmapped, and that the range is unmapped completely
  if and only if the region before the one found ends at or below its start.
- `mprotect` needs the page at the end of the range to be mapped too, and
  changes the rest of a region that strictly contains the range
  (`Mprotect`, `ProtectReach`). With one page mapped it refuses to protect it
  (`EndPageRefused`), and in a region of three pages a change of the second
  changes the third (`ProtectsBeyond`).
- A shrinking `mremap` drops everything of the region beyond the new size. That is
  the part between the new and the old size if and only if the region is not
  longer than the old size (`Mremap`, `ShrinkExact`); `ShrinkLosesPage` loses one.
- `WAIT_BITSET` never compares the word, so it can sleep through a wakeup that
  has already happened (`BitsetLosesWakeup`).
- A waiter that returns without a signal leaves its entry queued
  (`AbandonDangles`).
- An SA_ONSTACK frame is clear of the first one on the alternate stack if and
  only if the stack pointer is on that stack and below the first frame
  (`LeavingClobbers`; `ClobberedFrames` has two that are not).
- `sigaltstack` compares with the host's SS_DISABLE, which is 4 on macOS, and not
  with the guest's, which is 2 (`SigaltstackIs`). A guest cannot disable its
  alternate stack (`DisableRefused`).
- `find_emptyfd` looks at the low half of each word only (`FindEmpty`,
  `HighHalfUnseen`), and so does `pop_signal` (`Pop`, `Wake`; `PopFails` fails on
  signal 40).

## Model

| member | source | states |
|---|---|---|
| Probing.PositionsDistinct | include/util/khash.h:51-52 | for a power-of-two size n, the first n positions of a probe walk are n different buckets |
| Probing.FirstReturn | include/util/khash.h:237-240 | a probe walk is back at its start for the first time at step exactly 2n - 1 |
| Probing.StepOf | include/util/khash.h:281-281 | every bucket is on the walk from any start, at some step below n |
| HashBits.DelTrueLocal | include/util/khash.h:165-171 | marking a bucket deleted changes one flag of one bucket of the packed word |
| HashBits.EmptyFalseLocal | include/util/khash.h:165-171 | marking a bucket not empty changes one flag of one bucket |
| HashBits.BothFalseLocal | include/util/khash.h:165-171 | marking a bucket live changes the two flags of one bucket |
| HashBits.FreshFlags | include/util/khash.h:253-255 | new flags mark every bucket empty and not deleted |
| HashBits.PacksDeleted | include/util/khash.h:171-171 | on the whole array of words, marking a bucket deleted is that change of the table's flag sequence |
| HashBits.PacksFilled | include/util/khash.h:169-169 | the same for marking a bucket not empty |
| HashBits.PacksLive | include/util/khash.h:170-170 | the same for marking a bucket live |
| HashBits.PacksFresh | include/util/khash.h:253-255 | new flag words stand for a table of empty buckets |
| HashBits.EnoughWords | include/util/khash.h:173-173 | the number of flag words is the least with room for all buckets of a power-of-two table |
| HashBits.KroundupLeast | include/util/khash.h:175-176 | the smearing trick gives the least power of two not below its argument, for arguments 1 to 2^31 |
| HashBits.KroundupIs | include/util/khash.h:175-176 | it is the table's rounding on every 32-bit number, with 0 for 0 and beyond 2^31 |
| HashTable.RoomRequest | include/util/khash.h:310-318 | the two resize requests of an insertion are never refused, and ask for the same or the double size |
| HashTable.UpperBoundIs | include/util/khash.h:251-251 | the load limit is 77 hundredths of the buckets, to the nearest whole number |
| HashTable.Counts | include/util/khash.h:251-251 | size <= occupied <= upper bound < number of buckets once the table is allocated |
| HashTable.WalkedFull | include/util/khash.h:327-329 | a walk that met no empty bucket for n steps means that all n buckets are occupied |
| HashTable.PlaceKick | include/util/khash.h:283-287 | kicking a resident out keeps the split of the map into unmoved, moved and in-hand entries |
| HashTable.PlaceLast | include/util/khash.h:288-291 | storing without a kick leaves nothing in hand and loses nothing |
| HashTable.RehashDone | include/util/khash.h:268-294 | when all buckets are done, every entry is on the new side |
| HashTable.Table.KickOut | include/util/khash.h:277-293 | the kick-out loop ends, each turn lowering the number of unmoved entries |
| HashTable.Table.Rebuild | include/util/khash.h:268-299 | the rehash, with growth, at the same size and with shrinking, keeps the map exactly |
| HashTable.Table.Resize | include/util/khash.h:244-306 | a resize never changes the map; it is refused exactly when the entries would fill the new size; afterwards there are no tombstones |
| HashTable.Table.Get | include/util/khash.h:230-243 | finds the bucket of a key, with its value, if and only if the map has the key |
| HashTable.Table.Put | include/util/khash.h:307-348 | the map gains the key and nothing else changes; 0 if and only if it was there; 2 if and only if it is new, no resize was due and its walk meets a tombstone before its first empty bucket; 1 otherwise; which bucket it gets; the number of buckets doubles exactly when the table is full and not half of it is tombstones |
| HashTable.Table.FindSlot | include/util/khash.h:319-335 | the key's own bucket; for a new key the last tombstone before the first empty bucket of its walk, or that empty bucket if and only if there is no such tombstone |
| HashTable.SlotKind | include/util/khash.h:331-347 | the bucket of a new key is empty if and only if its walk meets no tombstone first, and otherwise a tombstone |
| HashTable.SlotUnique | include/util/khash.h:323-334 | flags and hash determine that bucket |
| HashTable.Table.SetValue | src/ipc/futex.c:33-39 | writing a bucket's value updates the map at that key |
| HashTable.Table.Delete | include/util/khash.h:349-355 | the map loses the key of a live bucket; other arguments change nothing |
| TreeShape.RotatedLinked | include/util/tree.h:340-378 | a rotation keeps parent links, subtree intervals and in-order numbering |
| TreeShape.UnlinkedLinked | include/util/tree.h:606-617 | bypassing a node with one child keeps the links of all others |
| TreeShape.ReplacedLinked | include/util/tree.h:584-597 | a node that takes over another's place keeps all links |
| TreeColour.InsertOuter | include/util/tree.h:454-455 | the outer rotation of an insertion restores equal black heights and leaves no red-red edge |
| TreeColour.PushRedUp | include/util/tree.h:441-447 | recolouring under a red uncle moves the only possible red-red edge two levels up |
| TreeColour.RedSiblingUp | include/util/tree.h:486-490 | raising a red sibling keeps the deficit where it was |
| TreeColour.PushDeficitUp | include/util/tree.h:491-498 | recolouring a sibling with black children moves the deficit up |
| TreeColour.InnerNephewUp | include/util/tree.h:500-509 | raising an inner red nephew makes it an outer one |
| TreeColour.OuterNephewUp | include/util/tree.h:510-515 | one rotation with a red outer nephew ends the deficit |
| RedBlackTree.Tree.RotateLeft | include/util/tree.h:340-358 | the pointer writes are a left rotation |
| RedBlackTree.Tree.RotateRight | include/util/tree.h:360-378 | the pointer writes are a right rotation |
| RedBlackTree.Tree.InsertColor | include/util/tree.h:432-475 | the fix-up after an insertion ends in a red-black tree |
| RedBlackTree.Tree.RemoveColor | include/util/tree.h:477-554 | the fix-up after a removal ends in a red-black tree |
| RedBlackTree.Tree.Insert | include/util/tree.h:624-654 | order, links, black heights and colours are kept; the in-order sequence gains the one node, or an overlapping one is returned and nothing changes |
| RedBlackTree.Tree.Remove | include/util/tree.h:556-622 | the same is kept, and the in-order sequence loses exactly the one node |
| RedBlackTree.Tree.Find | include/util/tree.h:656-673 | NULL if and only if nothing overlaps; otherwise the overlapping node nearest the root, with the path to it |
| RedBlackTree.Tree.Prev | include/util/tree.h:720-741 | the in-order predecessor |
| RedBlackTree.Tree.FindLeft | src/mm/mm.c:181-192 | the search that descends left links ends on an overlapping node, or nothing overlaps |
| RedBlackTree.OneCourse | src/mm/mm.c:181-192 | such a search has one course: its result depends on tree and range only |
| RedBlackTree.LowestMissed | src/mm/mm.c:181-192 | in a red-black tree with page 3 above pages 1 and 4 and page 2 to the right of page 1, the search for pages 2 and 3 misses page 2 |
| PageMap.DenotesUnique | lib/vmm.c:255-271 | a list of regions has exactly one page map |
| PageMap.SplitDenotes | src/mm/mm.c:194-212 | splitting a region changes no translation and no protection |
| PageMap.CompleteIff | src/mm/mmap.c:37-71 | an unmapping is complete if and only if the region before the one found ends at or below the start of the range |
| AddressSpace.PageLeftBehind | src/mm/mmap.c:44-66 | with pages 2 and 3 as neighbouring regions, unmapping both from page 3 on leaves page 2 mapped |
| AddressSpace.Mm.SearchEndsOnThree | src/mm/mm.c:181-192 | in an address space with that tree, the search for pages 2 and 3 ends on page 3 |
| AddressSpace.Mm.UnmapLeavesPage | src/mm/mmap.c:37-71 | there munmap of pages 2 and 3 returns 0 and leaves page 2 mapped |
| AddressSpace.Mm.ShowPageLeft | src/mm/mmap.c:37-71 | such an address space exists |
| PageMap.ProtectReach | src/mm/mmap.c:243-272 | which pages a successful mprotect changes, and that no translation changes |
| PageMap.FirstHole | src/mm/mmap.c:251-266 | from every page on there is a first page that is not the user's or not mapped |
| PageMap.HoleOrWhole | src/mm/mmap.c:251-266 | there is a first hole up to the end of the range if and only if not all its pages are mapped |
| PageMap.EndPageCounts | src/mm/mmap.c:251-266 | with a single page mapped the first hole is the page at its end |
| AddressSpace.Mm.ProtectsBeyond | src/mm/mmap.c:243-272 | in a region of three pages, mprotect of the second returns 0 and changes the third as well |
| AddressSpace.Mm.EndPageRefused | src/mm/mmap.c:219-278 | there mprotect of the one page answers ENOMEM, having protected it |
| PageMap.ShrinkExact | src/mm/mmap.c:173-177 | a shrink from one size to another unmaps just the part between them if and only if the region is not longer than the first |
| AddressSpace.OffsetKept | src/mm/mm.c:200-200 | the int offset of a split is right if and only if it is below 2^31 |
| AddressSpace.Mm.constructor | src/mm/mm.c:133-142 | an empty address space is valid |
| AddressSpace.Mm.Split | src/mm/mm.c:194-212 | tree and list gain the tail right behind the shortened region |
| AddressSpace.Mm.Record | src/mm/mm.c:214-241 | tree and list gain the region at its place, or it halts because a region is in the way |
| AddressSpace.Mm.FindRegion | src/mm/mm.c:173-179 | the region an address is in, or NULL if and only if there is none |
| AddressSpace.Mm.FindRange | src/mm/mm.c:181-192 | NULL if and only if nothing meets the range; otherwise the region the search ends on |
| AddressSpace.Mm.Munmap | src/mm/mmap.c:37-71 | error codes; exactly the pages of the range from the found region on are unmapped, all else is kept; complete or not as in CompleteIff |
| AddressSpace.Mm.AllocRegion | src/mm/mmap.c:29-35 | hands out the mapping top and raises it by the rounded length |
| AddressSpace.KeptIs | src/mm/mmap.c:89-97 | DENYWRITE, EXECUTABLE, NORESERVE and STACK (bits 11, 12, 14, 17) make no difference, and every other flag is kept |
| AddressSpace.RefusedIs | src/mm/mmap.c:87-104 | goes on if and only if the address is on a page and all flags are among the nine known ones |
| AddressSpace.NewDataIs | src/mm/mmap.c:105-108 | an anonymous mapping is recorded without its file, any other with it |
| AddressSpace.Mm.Install | src/mm/mm.c:214-241 | recording and mapping a region adds its pages; it halts if and only if the address is 0 or a region is in the way |
| AddressSpace.Mm.Mmap | src/mm/mmap.c:84-124 | exactly the pages of the range get the new host memory and protection; a negative answer exactly when the host gives no memory, and exactly when it halts |
| AddressSpace.Mm.Mremap | src/mm/mmap.c:135-217 | error codes; shrinking unmaps everything beyond the new size, which is what lies below the old size if and only if the region ends there; growing moves the pages to the mapping top, which rises by the new length and else not at all, and halts exactly when something is mapped there |
| AddressSpace.Mm.ShrinkLosesPage | src/mm/mmap.c:173-177 | in a region of three pages, mremap of the first two to one unmaps the third |
| AddressSpace.Mm.Mprotect | src/mm/mmap.c:219-278 | 0 if and only if all pages up to and including the one at the end are mapped; which pages are protected, also when it fails |
| AddressSpace.Mm.Brk | src/mm/mm.c:282-305 | the new break; shrinking unmaps as Munmap does from the region the search ends on; growing maps private anonymous memory as Mmap does and halts exactly when memory is granted and the region before the one found reaches beyond the old break |
| AddressSpace.Mm.Destroy | src/mm/mm.c:249-261 | no region is left, and only the kernel's pages |
| AddressSpace.Mm.Exec | src/proc/exec.c:366-374 | teardown and a fresh start |
| AddressSpace.Mm.Kmap | src/mm/mm.c:28-45 | the kernel's regions follow each other above the user's addresses |
| AddressSpace.Mm.GuestToHost | src/mm/mm.c:144-155 | equals the translation of the hypervisor's page map, for every address |
| AddressSpace.Mm.RestoreEpt | lib/vmm.c:255-271 | rebuilding from an empty page map succeeds and gives the page map that was there |
| AddressSpace.Mm.Run | src/mm/mmap.c:37-278 | every run of mmap, munmap, mremap, mprotect, brk, exec and kmap keeps tree, list and page map equal, and each of its steps does to page map, regions and tops what its operation says |
| AddressSpace.Mm.ValidMeans | src/mm/mm.c:194-261 | what that is: a red-black tree whose in-order sequence is the list; regions disjoint, non-empty and on pages; the page map exactly theirs |
| ShmAllocator.InOneBlock | src/mm/malloc.c:65-135 | every unit between the arena's start and the break is in exactly one block |
| ShmAllocator.GapUnique | src/mm/malloc.c:100-103 | the gap where a block belongs is unique |
| ShmAllocator.GapExists | src/mm/malloc.c:100-103 | there is always such a gap |
| ShmAllocator.Arena.FindGap | src/mm/malloc.c:100-103 | the search of a free ends at that gap, on the last free block below the one freed, wherever it starts on the circle |
| ShmAllocator.Arena.Release | src/mm/malloc.c:93-120 | freeing a live block keeps tiling, order and coalescing, touches no other live block, and leaves freep on the last free block below it |
| ShmAllocator.Arena.MoreCore | src/mm/malloc.c:124-135 | NULL exactly when the arena cannot grow; otherwise a free block of at least the request |
| ShmAllocator.Arena.Search | src/mm/malloc.c:75-88 | once around the list finds a block if and only if one is big enough |
| ShmAllocator.Arena.Take | src/mm/malloc.c:76-86 | exact fit or tail end: the block handed out has the requested size |
| ShmAllocator.Arena.Malloc | src/mm/malloc.c:65-91 | fails exactly when no free block fits and the arena cannot grow; grows at most once; otherwise takes the tail end of the first block behind freep that fits; enough bytes; no live block is touched |
| ShmAllocator.Arena.FreePtr | src/mm/malloc.c:93-120 | NULL changes nothing; a live block is freed, the others keep every word, and freep is the last free block below it |
| ShmAllocator.Arena.Run | src/mm/malloc.c:140-155 | after every run of mallocs and frees the arena is valid, the live blocks are the pointers still held, each as large as was asked for, and no freed one is among them |
| ShmAllocator.Arena.LiveDisjoint | src/mm/malloc.c:65-91 | live blocks do not overlap |
| ShmAllocator.Arena.ValidMeans | src/mm/malloc.c:54-135 | exact tiling; one address-ordered circle with a single wrap; no two free blocks adjacent |
| FutexQueues.WakesFirst | src/ipc/futex.c:43-61 | a wake takes the first matching entries up to the count and keeps the order of all others |
| FutexQueues.WakeConserves | src/ipc/futex.c:43-61 | a wake loses and duplicates no entry |
| FutexQueues.WakeMeans | src/ipc/futex.c:43-61 | only matching entries are woken, and unless the count is used up none is left |
| FutexQueues.ShareIff | src/ipc/futex.c:52-55 | the mask test is true if and only if some bit is in both |
| Futex.MatchingMeans | src/ipc/futex.c:52-55 | which entries a wake is for: those that share a bit; an entry without a bitset for every bitset but 0; all if the wake has none |
| Futex.Futexes.Head | src/ipc/futex.c:28-41 | finding or making a list head changes no queue, and the assertion on the table's return code cannot fail |
| Futex.Futexes.Wake | src/ipc/futex.c:43-61 | the queue after a wake, the entries signalled, their number; no other queue changes; with a bitset, every entry signalled shares a bit with it and, unless the count is used up, no entry left shares one; without, none is left |
| Futex.Futexes.Enqueue | src/ipc/futex.c:89-97 | a new entry at the end of its queue; no other queue changes |
| FutexQueues.RotatedConserves | src/ipc/futex.c:224-232 | a queue requeued onto itself keeps its entries |
| FutexQueues.RotatedParts | src/ipc/futex.c:224-232 | and is turned by the limit's remainder modulo its length, for every limit |
| Futex.Futexes.Requeue | src/ipc/futex.c:212-234 | error codes; one entry woken, the next ones moved in order to the other queue and readdressed, or the queue turned if it is the same, once at most if one entry is left; returns woken plus moved |
| FutexProtocol.RunKeeps | src/ipc/futex.c:89-106 | in every state of every run a blocked waiter is in exactly one queue, once: that of its entry's address |
| FutexProtocol.NeverStuck | src/ipc/futex.c:63-106 | in every such state a held mutex can be given back, and when it is free every operation can run |
| FutexProtocol.MatchingMeans | src/ipc/futex.c:52-55 | the same of the waiters of the protocol |
| FutexProtocol.WakeBitsMeans | src/ipc/futex.c:246-256 | a waiter that a bitset wake takes shares a bit and is signalled; unless the count is used up, one that stays shares none |
| FutexProtocol.NoLostWakeup | src/ipc/futex.c:116-138 | once the word has left v and a wake covering the queue has run, no waiter expecting v is queued there, through every run without a store of v and without a requeue onto the address |
| FutexProtocol.BitsetLosesWakeup | src/ipc/futex.c:246-256 | after a covering wake WAIT returns at once if and only if the word does not match; WAIT_BITSET blocks and stays queued through every run without a further wake there |
| FutexProtocol.AbandonDangles | src/ipc/futex.c:98-105 | after an early return the entry is still in a queue, its task no longer blocked, if and only if the waiter was not signalled |
| FutexRefinement.WakeRefines | src/ipc/futex.c:43-61 | a wake of the queues is the protocol's wake, for every entry and task |
| FutexRefinement.BlockRefines | src/ipc/futex.c:89-97 | queueing an entry is the protocol's step to being blocked |
| FutexRefinement.RequeueRefines | src/ipc/futex.c:212-234 | a requeue, onto another address or the same, is the protocol's |
| FutexRefinement.Perform | src/ipc/futex.c:108-256 | every operation on table and lists is one step of the state machine |
| FutexRefinement.Run | src/ipc/futex.c:108-256 | after every run the queues, entries and signals are those of the state the protocol is in |
| FutexRefinement.RunFromStart | src/ipc/futex.c:28-41 | the same for every run from the empty table of a new process |
| FutexRefinement.NoLostWakeup | src/ipc/futex.c:116-138 | so no entry in the table's queue waits for a value that was left and woken for |
| SignalFrames.FrameHolds | src/ipc/signal.c:119-153 | a frame holds all 18 registers, the selectors and the mask |
| SignalFrames.FrameOffsets | src/ipc/signal.c:155-183 | at which offset of a frame each register and selector is |
| SignalFrames.FrameIsRead | src/ipc/signal.c:119-153 | what the words of a frame say, by offset |
| SignalFrames.NewMaskBlocks | src/ipc/signal.c:233-237 | for each of the 64 signals, whether it is blocked in the handler |
| SignalFrames.FrameTopIs | src/ipc/signal.c:185-210 | a frame goes to the top of the alternate stack exactly with SA_ONSTACK, an enabled stack and the stack pointer not on it, and else below the stack pointer |
| GuestMemory.LeBytesAt | src/ipc/signal.c:119-153 | byte i of a stored word is its digit i to the base 256 |
| SignalFrames.HandlerSees | src/ipc/signal.c:209-254 | the handler finds its return address, the signal in RDI and in the siginfo, 0 in RAX, the interrupted context in the frame and all other registers as they were; it blocks exactly its own mask and, without SA_NODEFER, its signal; memory outside the frame is unchanged |
| SignalFrames.ResumeGives | src/ipc/signal.c:455-478 | a return restores what the frame holds, RIP through -2 and +2, RAX through the return value |
| SignalFrames.Thread.SetupSigframe | src/ipc/signal.c:197-257 | succeeds exactly with a restorer and mapped memory for the frame; then all that HandlerSees says holds; otherwise memory is unchanged |
| SignalFrames.Thread.RtSigreturn | src/ipc/signal.c:455-478 | the register writes are the return function |
| SignalFrames.Thread.Syscall | src/main.c:73-79 | with the system-call exit around it, the return function as the guest sees it |
| SignalFrames.ReturnRestores | src/ipc/signal.c:155-183 | each return restores exactly what its delivery interrupted |
| SignalFrames.RunKeeps | src/ipc/signal.c:197-257 | through every run in which frames are left alone, all live frames stay intact |
| SignalFrames.Bracketed | src/ipc/signal.c:197-257 | a delivery, any run nested in it, its return: all registers and the mask as before |
| SignalFrames.NestedApart | src/ipc/signal.c:185-206 | with plain alternate-stack flags and the stack pointer kept on its stack, a nested frame does not fall on a live one |
| SignalFrames.TameRunsAllowed | src/ipc/signal.c:185-257 | so in every such run, with changes of the alternate stack while nobody uses it, no frame falls on a live one |
| SignalFrames.SigaltstackIs | src/ipc/signal.c:480-513 | EPERM, ENOMEM, EINVAL or success, each exactly when, for every present and new stack; EPERM never while the present stack is disabled |
| SignalFrames.DisableRefused | src/ipc/signal.c:506-509 | a guest that asks to disable its stack, with the Linux flag, is always refused |
| SignalFrames.LeavingClobbers | src/ipc/signal.c:185-206 | a second SA_ONSTACK frame is clear of the first on the alternate stack if and only if the stack pointer is there and not above the first frame; it is in the same place if and only if the stack pointer has left |
| SignalFrames.ClobberedFrames | src/ipc/signal.c:185-206 | two stack pointers, on and off the alternate stack, where the second frame falls on the first |
| PendingSignals.Task.Pop | src/ipc/signal.c:106-117 | the lowest deliverable signal; its assertion fails exactly when something is deliverable but nothing below 32 |
| PendingSignals.Task.PopFails | src/ipc/signal.c:106-117 | with signal 40 pending and none blocked the assertion fails |
| PendingSignals.Task.Wake | src/ipc/signal.c:259-289 | delivers the lowest deliverable signal with a handler and drops the lower ones; when it comes to the failing assertion |
| UserStack.ImageUnique | src/proc/exec.c:252-331 | a stack reads as one argument list and one environment |
| UserStack.AuxFound | src/proc/exec.c:298-307 | which value is found under which tag number |
| UserStack.FindsOne | src/proc/exec.c:298-307 | a search of the vector finds one value at most |
| UserStack.Loader.Push | src/proc/exec.c:235-250 | data goes below what is there, at a multiple of 8, and nothing above changes |
| UserStack.Loader.PushPointers | src/proc/exec.c:313-327 | the pointers are those of the strings, and the strcmp assertions hold |
| UserStack.Loader.InitUserstack | src/proc/exec.c:252-331 | the finished stack reads as the given arguments and environment, and a search of the auxiliary vector finds interpreter base, entry, program headers, page size and random bytes under their tags |
| UserCopy.UserMemory.CopyFromUser | src/base.c:29-44 | equals the bytewise read; the residue counts from the first byte that is not mapped |
| UserCopy.UserMemory.CopyToUser | src/base.c:90-105 | equals the bytewise write, with its residue |
| UserCopy.UserMemory.StrnlenUser | src/base.c:68-88 | equals the bytewise length: 0 at a fault, index + 1 at a NUL, n + 1 if there is none |
| UserCopy.UserMemory.StrncpyFromUser | src/base.c:46-64 | the string with its NUL, its first n bytes, or a fault |
| UserCopy.StringMeaning | src/base.c:66-88 | what the three kinds of length say about the bytes |
| UserCopy.WriteRead | src/base.c:29-105 | what was written completely is read back, if no two pages share host memory |
| FdTable.Table.Alloc | src/fs/fs.c:96-131 | growth by whole words opens nothing and keeps all |
| FdTable.Table.Enter | src/fs/fs.c:572-592 | the descriptor is open, in the close-on-exec set if and only if so asked, its file carries it, and every other descriptor is as before |
| FdTable.Table.GetFile | src/fs/fs.c:624-632 | a file if and only if open, carrying that descriptor |
| FdTable.Table.Close | src/fs/fs.c:1218-1234 | the descriptor leaves both sets; EBADF if it was not open |
| FdTable.Table.SetCloexec | src/fs/fs.c:427-438 | the descriptor is in the close-on-exec set if and only if so asked, all others as before; nothing changes if the host refuses; EBADF if it was not open |
| FdTable.Table.CloseCloexec | src/fs/fs.c:1254-1270 | closes exactly the close-on-exec descriptors, in spite of leaving words early |
| FdTable.Table.FindEmpty | src/fs/fs.c:594-604 | the first free descriptor in a low half; -1 if and only if all low halves are full; the same on the set of open ones |
| FdTable.HighHalfUnseen | src/fs/fs.c:594-604 | a word with a full low half looks full |
| FdTable.FileInfo.Register | src/fs/fs.c:571-592 | refuses descriptors of the kernel's part; opens all others, in the close-on-exec set if and only if so asked, with every other descriptor as before |
| FdTable.FileInfo.KernelDup | src/fs/fs.c:606-622 | the first free low-half descriptor of the kernel's part, close-on-exec if and only if so asked, all others as before; halts exactly when the low halves are full |
| FdTable.FileInfo.Disjoint | src/fs/fs.c:513-517 | user's and kernel's descriptors are disjoint, close-on-exec ones are open |
| FdTable.EffectOnUser | src/fs/fs.c:571-648 | membership of each descriptor in the user's open and close-on-exec sets after each operation |
| FdTable.EffectOnKernel | src/fs/fs.c:594-648 | the same of the kernel's sets, with the first free low-half descriptor found or all taken |
| FdTable.FileInfo.Run | src/fs/fs.c:513-648 | after every run the bitmaps of both tables are the sets that the operations make, and it has halted exactly at a kernel descriptor that the search did not find |
| FdBits.PacksSet | src/fs/fs.c:519-525 | setting a bit by shift and mask is that change of the table's bits, on all words |
| FdBits.PacksClear | src/fs/fs.c:527-533 | the same for clearing a bit |
| FdBits.PacksTest | src/fs/fs.c:535-541 | testing a bit by shift and mask reads the table's bit |
| FdBits.PacksGrown | src/fs/fs.c:96-131 | new zero words stand for closed descriptors |
| FdBits.ZeroWord | src/fs/fs.c:1261-1263 | a word is zero if and only if none of its 64 descriptors is in the set |
| FdBits.SearchIsFfs | src/fs/fs.c:597-600 | what the search finds in a word is ffs of its complement |
| PathResolution.Walk | src/fs/fs.c:1068-1101 | stops at the first link of the name, or there is none |
| PathResolution.LinkLeadsTo | src/fs/fs.c:1079-1096 | a relative link replaces the last component before it and keeps the directory and the rest; an absolute link replaces the directory too |
| PathResolution.MountIs | src/fs/fs.c:1055-1065 | an absolute name is taken from the root of the file system unless it is below one of the five directories of the host |
| PathResolution.RelativeExample | src/fs/fs.c:1028-1108 | with a link a/b to c, a/b resolves to a/c |
| PathResolution.ResolvePath | src/fs/fs.c:1028-1108 | equals rewriting at the first link until there is none; ends; the name is never empty at the assertion |
| PathResolution.NoLinksLeft | src/fs/fs.c:1028-1108 | a following resolution that succeeds gives the root or a path no component prefix of which is a link |
| PathResolution.ComponentIsNoLink | src/fs/fs.c:1068-1101 | what that means: no prefix that ends at a component is a link |
| PathResolution.LoopsIff | src/fs/fs.c:1050-1051 | gives up if and only if 21 rewritings in a row are possible |
| PathResolution.FoundIs | src/fs/fs.c:1028-1108 | otherwise gives the name that the rewriting ends with |

## Left out

- Futex.Futexes.Requeue: a negative limit onto the same address is excluded when two or more entries are left after the wake, because the loop then counts down past the least int.
- FutexRefinement.Run: waits carry the numbers of their entries, in the order in which they are queued; a run stops when the table has 2^26 buckets.
- Futex.Futexes.Head: a table that has grown to 2^31 buckets is excluded, and so it is in the operations that use it.
- HashTable.Table.Put: the return code -1 for a failed allocation is not modelled.
- AddressSpace.Mm.Mmap: ranges beyond the user's addresses and regions beyond 2^31 bytes are excluded, because a split would narrow their offsets.
- AddressSpace.Mm.Mremap: the same ranges are excluded; the copying of page contents and the host's own protections are not modelled.
- AddressSpace.Mm.Brk: the same ranges are excluded.
- AddressSpace.Mm.GuestToHost: the kernel's own region store is a list in address order, searched from its start, not a second tree.
- AddressSpace.Mm.Exec: loading the new image is not part of it; its mappings are further operations of a run.
- SignalFrames.Thread.SetupSigframe: the host's own signal mask is not modelled.
- UserStack.Loader.InitUserstack: arguments that do not fit the stack are excluded; the pushes then fail without a report.
- UserCopy.UserMemory.StrnlenUser: lengths of 2^31 and more are excluded, because the count is an int.
- PathResolution.ResolvePath: buffers are as long as needed; PATH_MAX is not modelled.
- FUTEX_WAKE_OP, priority-inheritance locking and time-outs, which are incomplete in the code, and spurious wakeups except for AbandonDangles.
- SignalFrames.TameRunsAllowed: stacks with AUTODISARM or the flag SS_ONSTACK are excluded, and so is a new stack over live frames.
- The copying of the old stack by sigaltstack, and the floating-point state of a frame.
- Allocation failure of the host's malloc and realloc, and wrap-around of 64-bit addresses.
- The exec loader, script headers and the gathering of arguments from guest memory.
- System calls that only forward to the host, flag and error tables, hypervisor set-up, logging.
