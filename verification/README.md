# Kernel model

A Dafny model of the parts of a small ARM kernel whose correctness is hard to see from the code:
its page allocator, its address-space bookkeeping, its slab allocator, its message passing, its
TCP data path, its division routines, its scheduler, IP fragmentation and block reads.  Each
component is modelled in the form the kernel has it: classes whose methods update lists, bitmaps
and counters, with the branches and constants of the code, and 32-bit wrap-around written out.

| file | what it models |
|---|---|
| `Common.dfy` | definitions that several components share |
| `Words.dfy`, `Bitmap.dfy` | machine words digit by digit; bit operations on byte memory |
| `BuddyTheory.dfy`, `Buddy.dfy`, `BuddyRuns.dfy`, `Bootmem.dfy` | the buddy page allocator, whole histories of it, and how boot fills it |
| `AreaTheory.dfy`, `BrkTheory.dfy`, `Mmap.dfy`, `MmRuns.dfy` | virtual memory areas: unmapping, brk, lookup cache, page-directory reclaim, fork and exit, and whole histories of them |
| `Lists.dfy` | the linked list primitives, on their pointers |
| `SlabLayout.dfy`, `Slab.dfy` | how slabs are laid out, and how objects are allocated and freed |
| `IpcTheory.dfy`, `Ipc.dfy` | rendezvous messages between tasks |
| `TcpRecv.dfy`, `TcpSend.dfy` | the receive list and the send window of TCP |
| `Divide.dfy` | unsigned and signed division in assembly |
| `Sched.dfy` | the choice of the next task |
| `IpFrag.dfy` | IP fragmentation and the internet checksum |
| `BlockRead.dfy` | byte reads through blocks and sectors |

The main results:

- After any history the free lists of the buddy allocator are the maximal aligned blocks of the
  set of free pages, so the history does not matter (`BuddyRuns.Serve`, `BuddyTheory.Canonical`,
  `BuddyRuns.HistoryIndependent`); and the order on the lists decides all answers to come
  (`BuddyRuns.Deterministic`).
- Over any history of mapping, unmapping, brk, forks and exit the areas are exactly those the
  operations lead to, sorted and disjoint as long as none wraps around (`MmRuns.Run`): `do_munmap`
  removes exactly its range and keeps flags, offsets and counters, `free_pgtables` clears a slot
  just when no surviving area needs it (`Mmap.Mm.DoMunmap`, `Mmap.Mm.FreePgtables`), and a forked
  child finds at every address what its parent finds (`Mmap.Mm.DupMmap`, `AreaTheory.CopiesLookup`).
- Over any interleaving of allocations and frees, objects of a slab cache are aligned, never
  overlap, and are refused only when there is none (`Slab.Cache.Run`), for every layout the cache
  creation computes (`SlabLayout.Create`); slabs in a row have all colours in turn
  (`Slab.Cache.ColoursDiffer`).
- Over any sequence of calls and buffer writes, messages are delivered in order, unaltered and at
  most once, no task waits for a sender that waits for it (`Ipc.Kernel.Run`), and senders are served
  in the order in which they came (`Ipc.InTurn`).
- Over any arrival order the TCP receiver acknowledges the longest prefix received exactly as long
  as its acknowledgements go out (`TcpRecv.Receiver.Run`), and the sender's queues tile the
  unacknowledged bytes (`TcpSend.Sender.Run`, `TcpSend.Sender.Unacknowledged`).
- A task that stays ready is picked within one round of its level, whatever the others do
  (`Sched.Schedule`).
- Division is right for all 2^64 pairs of words (`Divide.UnsignedDivide`, `Divide.SignedDivide`).
- Fragmentation followed by reassembly in any order gives back the payload (`IpFrag.RoundTrip`),
  also when the fragments of many datagrams arrive mixed (`IpFrag.Interleaved`).

Memory that may run out, sends that may fail and pages that come from elsewhere are parameters of
the operations.  The assert() checks of message passing and
the BUG() checks of the page allocator are assertions here, proved to hold or, once, with the
exact condition under which they do; those of boot memory and of cache creation, which check the
arguments, are preconditions.

Properties that hold only under a condition are stated with that condition, both ways; for those
that depend on a state, a lemma or a method gives an input at which they fail:

- `tcp_recv` looks neither at the acknowledgement nor at the sequence numbers: the application gets
  the stream when it asks for no more than arrived without a gap or nothing arrived behind the gap,
  and else it gets data from behind the gap (`TcpRecv.Receiver.Recv`, `TcpRecv.BehindTheGap`).
- `tcp_ack_handler` leaves more in use than the window if and only if the window it takes over is
  smaller than what stays in flight (`TcpSend.Sender.AckHandler`); and then
  `tcp_process_send_window`, whose subtraction wraps around, sends everything
  (`TcpSend.Sender.ProcessSendWindow`, `TcpSend.ShrunkWindow`).
- `dup_mmap` leaves total_vm right if and only if no area is marked VM_DONTCOPY
  (`Mmap.Mm.DupMmap`, `BrkTheory.DupDrifts`); the excess stays the same until exit.
- A `do_brk` that fails has changed the mapping if and only if it got as far as clearing a range in
  which something was mapped (`BrkTheory.DoBrkLoses`, `BrkTheory.DoBrkLosesHere`).
- A `do_munmap` that returns 0 leaves nothing mapped in its range if and only if the range ends
  below 2^32 or nothing was mapped there (`BrkTheory.MunmapClears`, `BrkTheory.MunmapMisses`).
- `sys_brk` moves the heap as it should, whatever is mapped, if and only if the new end is at least
  two pages and the old end at least one page below 2^32, or both round up to the same page
  (`BrkTheory.SysBrkExactly`); else it clears what is mapped (`BrkTheory.SysBrkOverMapped`), makes
  an area that ends at 0 (`BrkTheory.SysBrkWrapped`) or unmaps nothing
  (`BrkTheory.SysBrkFromWrapped`).
- The areas stay sorted and disjoint unless a `do_brk` ends at 2^32 or a `sys_brk` enters the last
  page, and succeeds (`MmRuns.BrokeExactly`, `MmRuns.Run`, `BrkTheory.SysBrkWrapped`).
- `tcp_seg_sort` acknowledges the longest prefix received if and only if every arrival could send
  the acknowledgements it called for; one that fails inside a run is never made up for
  (`TcpRecv.Reaches`, `TcpRecv.StaysBehind`, `TcpRecv.LostAcknowledgement`).
- `ip_fragment` can send a payload if and only if the mtu has room for eight bytes of it
  (`IpFrag.Fragment`), and `__inet_chksum` of an odd number of bytes is the internet checksum if and
  only if the byte behind them is zero (`IpFrag.OddChecksum`).
- What `msg_receive` asserts of a task it blocks (ipc/message.c:243-247) holds if and only if the
  task receives from one task and no interrupt is pending for it: ANY and NO_TASK are the same
  number (include/message.h:55-56), and only receives from ANY or INTERRUPT take an interrupt
  (`Ipc.Kernel.MsgReceive`, `Ipc.ReceiveAny`).

## Model

| member | source | states |
|---|---|---|
| `Bitmap.ChangeBit` | kernel/bitops.c:49-56 | toggles bit nr of a byte map and changes no other bit of memory |
| `Bitmap.TestAndChangeBit` | kernel/bitops.c:38-47 | the same, and the result is nonzero exactly when the bit was set |
| `Bitmap.TestAndSetBit` | kernel/bitops.c:58-66 | sets bit nr only, and the result tells whether it was set |
| `Bitmap.TestBit` | kernel/bitops.c:29-36 | the word-wise test reads the same bit as the byte-wise operations write |
| `Bitmap.LongBits` | kernel/bitops.c:29-36 | bit nr of the little-endian words of a map is bit nr of its bytes, for every nr |
| `BuddyTheory.AddBlock` | mm/page_alloc.c:206-246 | a block disjoint from the free pages whose buddy is not free can be added: the blocks stay aligned, in range, disjoint and merged, and exactly its pages become free |
| `BuddyTheory.RemoveBlock` | mm/page_alloc.c:66-111 | taking any block away keeps the invariant and exactly its pages stop being free |
| `BuddyTheory.Canonical` | mm/page_alloc.c:40-111 | in every reachable state a block is on the list of its order if and only if it is a maximal aligned block of free pages |
| `BuddyTheory.SamePagesSameBlocks` | mm/page_alloc.c:175-246 | the set of free pages determines the blocks of every order |
| `Buddy.InitMaps` | mm/page_alloc.c:545-556 | with the code's rounding and the bump allocation of the maps, every pair bit of every order lies inside its own map and the maps do not overlap, and they fill the memory taken one right behind the other |
| `Buddy.BitsSuffice` | mm/page_alloc.c:550-554 | a map of one bit per block of the rounded zone holds the index of every pair of the zone |
| `Buddy.MaskStep` | mm/page_alloc.c:206-245 | the two's complement mask of the merging loop: doubling it moves to the next order, minus it is the block size, and the loop condition fails exactly at the top order |
| `Buddy.BuddyByXor` | mm/page_alloc.c:233-234 | page_idx xor minus mask is the first page of the buddy |
| `Buddy.MergeByMask` | mm/page_alloc.c:241-244 | page_idx and mask is the first page of the merged block |
| `Buddy.Zone.constructor` | mm/page_alloc.c:545-556 | a zone with all pages reserved satisfies the invariant |
| `Buddy.Zone.MarkUsed` | mm/page_alloc.c:40-41 | toggles the pair bit of the block, at index >> (1 + order), and no other bit of the maps |
| `Buddy.Zone.SplitOnce` | mm/page_alloc.c:47-59 | one round of the split loop gives back the lower half and keeps every pair bit right |
| `Buddy.Zone.Expand` | mm/page_alloc.c:43-64 | splitting frees all of the block but its last block of the wanted order, which is returned, and the half split off at each order goes to the head of that list |
| `Buddy.Zone.TakeHead` | mm/page_alloc.c:81-92 | unlinking the first block of an order removes it and only it from the free blocks, and the rest of its list keeps its order |
| `Buddy.Zone.Rmqueue` | mm/page_alloc.c:66-111 | returns an aligned run of 2^order pages, all free before and none free after, everything else unchanged, free_pages down by 2^order: the end of the first block on the list of the least order that has one, all lists below it being empty; that block leaves its list, the halves split off are alone on the lists in between and no other list changes; NULL if and only if no aligned run of that many pages is free |
| `Buddy.Zone.PairBitMeaning` | mm/page_alloc.c:225-229 | below the top order the pair bit of a block that is not free is 1 exactly when its buddy is free |
| `Buddy.Zone.TryMerge` | mm/page_alloc.c:219-245 | one round of the merge loop unlinks the buddy if and only if it is free |
| `Buddy.Zone.MergeAndLink` | mm/page_alloc.c:206-246 | the loop ends with a block that can be linked; the pages freed are the pages passed in |
| `Buddy.Zone.FreePagesOk` | mm/page_alloc.c:175-246 | exactly the 2^order pages passed become free, the invariant and free_pages follow, for every block that was allocated; the block grows up to the first order at which its buddy is not listed, the buddies below leave their lists without changing the order of the others, and it goes to the head of the list of that order |
| `BuddyRuns.ServeAlloc` | mm/page_alloc.c:66-111 | what is held and what is free stay a partition of the pages, and a request is refused only if no block is large enough |
| `BuddyRuns.ServeRelease` | mm/page_alloc.c:175-246 | the same for giving back any block held |
| `BuddyRuns.Serve` | mm/page_alloc.c:66-246 | every request is answered: with an aligned block of its size that was free and not held, or with none exactly when no maximal free block is large enough; what is held is what the answers gave less what was given back, free and held pages are the pages there were, and the lists are the maximal blocks of the free ones; every step changes the lists as the request says |
| `Buddy.ServedOnce` | mm/page_alloc.c:75-106 | the lists alone decide which pages an allocation gets and which lists it leaves |
| `Buddy.GivenBackOnce` | mm/page_alloc.c:217-246 | and which lists a free leaves |
| `BuddyRuns.Deterministic` | mm/page_alloc.c:66-246 | from equal lists, whatever the bit maps and the histories before, equal requests get equal answers and leave equal lists, over any history |
| `BuddyRuns.HistoryIndependent` | mm/page_alloc.c:43-246 | two zones with any histories that leave the same pages free have the same blocks on every list and the same free_pages |
| `Bootmem.BootmemData.constructor` | mm/bootmem.c:7-29 | a fresh boot map reserves nothing |
| `Bootmem.BootmemData.Reserve` | mm/bootmem.c:7-29 | reserves every page that the byte range touches, wholly or in part, and no other |
| `Bootmem.BootmemData.FreeOne` | mm/bootmem.c:42-48 | hands one unreserved page to the zone |
| `Bootmem.BootmemData.FreeAll` | mm/bootmem.c:31-50 | the free pages of the zone are exactly the unreserved pages, their number is returned, and the lists hold exactly their maximal aligned blocks |
| `AreaTheory.CutAllLookup` | mm/mmap.c:377-478 | cutting a range from a list of areas leaves each address outside the range with the flags and page offset it had and maps none inside |
| `AreaTheory.CutAllSorted` | mm/mmap.c:377-478 | what is left is sorted, disjoint and without empty areas |
| `AreaTheory.CutCases` | mm/mmap.c:297-370 | the four fix-up cases are the cut of one area, including the area that only touches the range |
| `AreaTheory.CutPages` | mm/mmap.c:302-304 | the pages taken off the counters are the pages that go |
| `AreaTheory.GrowAdds` | mm/mmap.c:557-561 | growing a neighbour over unmapped addresses maps exactly these |
| `AreaTheory.PutAdds` | mm/mmap.c:572-584 | so does inserting a new area |
| `AreaTheory.AddsAfterCut` | mm/mmap.c:526-593 | clearing a range first and then mapping it maps exactly the range |
| `AreaTheory.CopiesCount` | proc/fork.c:140-206 | the copied areas have as many pages as the originals if and only if none is marked VM_DONTCOPY, and none is locked |
| `AreaTheory.PagesCounted` | mm/mmap.c:302-304 | the sums kept in total_vm and locked_vm are the numbers of pages at which an address is mapped, and mapped and locked |
| `AreaTheory.CopyIs` | proc/fork.c:167-168 | a copy has the bounds, the page offset and, bit by bit, all flags of its original but VM_LOCKED |
| `AreaTheory.CopiesLookup` | proc/fork.c:158-202 | at every address a child finds what its parent finds there, unlocked, and nothing where the parent's area is marked VM_DONTCOPY |
| `BrkTheory.PageAligned` | mm/mmap.c:384-385 | PAGE_ALIGN modulo 2^32 rounds up, and is 0 exactly for 0 and for lengths that wrap |
| `BrkTheory.CutChanges` | mm/mmap.c:395-399 | taking a range out changes the list if and only if some area meets the range |
| `BrkTheory.MunmapClears` | mm/mmap.c:384-399 | a do_munmap that returns 0 leaves nothing mapped in its range if and only if the range ends below 2^32 or nothing was mapped there |
| `BrkTheory.MunmapMisses` | mm/mmap.c:390-399 | with the two pages below the last one mapped, unmapping the last two pages returns 0 and unmaps nothing |
| `BrkTheory.MunmapFails` | mm/mmap.c:384-410 | do_munmap fails with EINVAL if and only if the length is 0, and with ENOMEM if and only if some area meets the range or ends where it starts and there is no spare area, or one goes on at both ends and there are too many |
| `BrkTheory.FirstMeets` | mm/mmap.c:64-71 | the first area that ends after the start of a range meets it if any does |
| `BrkTheory.ExtendedAdds` | mm/mmap.c:546-593 | whether the neighbour grows or an area is inserted, exactly the free range is mapped, with its flags, and its pages are counted |
| `BrkTheory.NeighbourIs` | mm/mmap.c:547-561 | an area grows if and only if some area ends at the address with the same flags, and the list gets one longer if and only if none does |
| `BrkTheory.WrappedBreaks` | mm/mmap.c:555-580 | an area whose end wraps around to 0 breaks the list |
| `BrkTheory.DoBrkAdds` | mm/mmap.c:501-594 | a do_brk below 2^32 that succeeds adds exactly its range, whatever was mapped there |
| `BrkTheory.DoBrkWhen` | mm/mmap.c:501-594 | a do_brk below 2^32 succeeds if and only if do_munmap does not fail, the areas left are not too many, and some area that ends at the address has the flags or a new one can be had |
| `BrkTheory.DoBrkLoses` | mm/mmap.c:526-570 | a do_brk that fails has changed the mapping if and only if something was mapped in the range, do_munmap could take it out, and then the areas are too many or none can be allocated and no neighbour grows |
| `BrkTheory.DoBrkLosesHere` | mm/mmap.c:526-570 | it does so with two pages mapped, the first asked for again, and no memory for an area |
| `BrkTheory.SysBrkMoves` | mm/mmap.c:596-645 | for ends up to two pages below 2^32 the heap moves by exactly the pages between the old and the new end, none of them mapped before, and it moves if and only if the new end is not below the code and, when it shrinks, do_munmap has room, and when it grows, the pages up to one behind the new end are free and there is room for the area |
| `BrkTheory.SysBrkOverMapped` | mm/mmap.c:628-630 | from any end whose page is lower to any end in the last page but one: the range searched for areas wraps around to 0, none is found, and a mapped page is lost |
| `BrkTheory.SysBrkWrapped` | mm/mmap.c:610-640 | from any end but 0 below the last page to any end in the last page: it is rounded up to 0 and the heap gets an area that ends at 0 |
| `BrkTheory.SysBrkFromWrapped` | mm/mmap.c:610-622 | from an end in the last page, lowering it unmaps nothing in any state |
| `BrkTheory.SysBrkExactly` | mm/mmap.c:596-645 | for every old and every new end: sys_brk moves the heap as promised in all sorted lists if and only if the new end is at least two pages and the old end at least one page below 2^32, or both ends round up to the same page |
| `BrkTheory.SysBrkSorted` | mm/mmap.c:596-645 | a call breaks the list if and only if it asks for an end in the last page, nothing that starts at 0 is in the way, and there is room for the area |
| `BrkTheory.DupSound` | proc/fork.c:140-206 | copying succeeds if and only if there are areas and pages for every area not marked VM_DONTCOPY; then the child finds at every address what its parent finds, unlocked, and has the parent's pages if and only if no area is marked; else it does up to some address, in as many areas as could be had; either way its list is sorted and unlocked |
| `BrkTheory.DupDrifts` | proc/fork.c:160-163 | with one area that is not copied, the child has no area and total_vm counts a page |
| `Mmap.Mm.constructor` | proc/fork.c:149-156 | an empty address space is valid, with no directory slot filled and no default flags |
| `Mmap.Mm.InsertVm` | mm/mmap.c:73-95 | links the area behind all areas that start no later |
| `Mmap.Mm.FindVmaPrev` | mm/mmap.c:39-62 | finds the first area that ends at or after the address |
| `Mmap.Mm.UnmapFixup` | mm/mmap.c:297-370 | each case puts back the cut of the area, takes the pages off total_vm and locked_vm, and uses the spare area exactly when a hole is made |
| `Mmap.Mm.Unlink` | mm/mmap.c:412-424 | takes exactly the areas that start before the end of the range off the list |
| `Mmap.Mm.FixupNext` | mm/mmap.c:433-469 | one round of the fix-up loop |
| `Mmap.Mm.UnmapRange` | mm/mmap.c:408-478 | the list is the cut of the old one, every area object is on the list or freed, the spare one is used once or freed, and the page directory loses exactly the slots that may go |
| `Mmap.Mm.DoMunmap` | mm/mmap.c:377-478 | removes exactly [addr, addr + PAGE_ALIGN(len)) from the mapped set when the range ends below 2^32, and nothing when it ends there, so that nothing is left in the range if and only if it ends below 2^32 or was unmapped; keeps the invariant, returns each error exactly when its condition holds and then changes nothing, and clears no page-directory slot that a surviving area touches: a slot is cleared if and only if an area met the range or ended where it starts, the call succeeds, and the slot touches the range and no area that is left |
| `Mmap.SlotRange` | mm/mmap.c:218-267 | the bounds computed by free_pgtables enclose exactly the slots that touch the range and no area |
| `Mmap.Mm.SlotBounds` | mm/mmap.c:218-254 | whatever area below the range is passed as prev, the bounds are those of the neighbours of the range |
| `Mmap.Mm.FreePgtables` | mm/mmap.c:218-267 | a slot is cleared if and only if it touches the range and no surviving area, and rounding the end of the range up does not wrap around; when it does, none is |
| `Mmap.Mm.ClearPageTables` | mm/mmap.c:204-216 | clears the slots asked for and no other |
| `Mmap.Mm.CacheAgrees` | mm/mmap.c:17-19 | a cached area that contains the address is the area the scan finds |
| `Mmap.Mm.FindVma` | mm/mmap.c:11-37 | the lookup through mmap_cache returns the area of the linear scan, and the cache stays NULL or a list member; an area found is in the cache afterwards |
| `Mmap.Mm.FindIntersection` | mm/mmap.c:64-71 | returns the first area that ends after the start if it starts before the end, and none if and only if no area meets the range |
| `Mmap.Mm.MapRange` | mm/mmap.c:546-593 | the neighbour grows, or else an area with page offset 0 is inserted; it fails if and only if there is no neighbour and no memory; the counters follow |
| `Mmap.Mm.DoBrk` | mm/mmap.c:501-594 | the list and the result exactly: ENOMEM with the list unchanged if and only if do_munmap has no room, ENOMEM with the range cut out if and only if then the areas are too many or no neighbour can grow and no area be allocated, and else addr with the range mapped; the invariant holds unless an area was made to end at 2^32; the page directory loses exactly the slots that do_munmap clears |
| `Mmap.Mm.BrkFlagBits` | mm/mmap.c:542-544 | heap memory has the read, write and execute bits, their may-bits, the lock bit and the default flags of the address space, and no other |
| `Mmap.Mm.SysBrk` | mm/mmap.c:596-645 | the list and the result for every end and every state; the heap moves as promised under the condition of SysBrkExactly; the invariant fails exactly when an area was made to end at 0; the page directory loses exactly the slots that the do_munmap in it clears |
| `Mmap.Mm.ExitMmap` | mm/mmap.c:648-681 | releases every area, also those of a failed fork, and all counters are zero |
| `Mmap.Mm.AppendCopy` | proc/fork.c:164-202 | appends an unlocked copy of an area, with its bounds, its offset and its other flags |
| `Mmap.Mm.DupMmap` | proc/fork.c:140-206 | the child has unlocked copies of all areas but the VM_DONTCOPY ones, or of the first ones up to the area or the page copy that failed, that area included; it is valid either way, and total_vm is off by exactly the pages not copied; how many there are, that it fails if and only if an area or its pages cannot be had, and what the child finds at every address |
| `MmRuns.BrokeExactly` | mm/mmap.c:377-645 | an operation leaves areas that are not sorted if and only if it is a do_brk that ends at 2^32 or a sys_brk upwards into the last page, and it succeeds |
| `MmRuns.ReplaySorted` | mm/mmap.c:377-645 | over operations that stay below those, whatever fails on the way, the areas stay sorted and disjoint |
| `MmRuns.CopyMm` | proc/fork.c:229-299 | a child with the copies of its parent's areas and with its heap, or, if the copying fails, one whose areas are released again; on success it finds at every address what the parent finds |
| `MmRuns.Run` | mm/mmap.c:11-681 | over any sequence of mapping, unmapping, brk, lookups, forks and exit, following parent or child, the areas, the end of the heap and the drift of total_vm are those the operations lead to and every operation returns what it should; the list is sorted and the invariant holds before every operation, and after the last one if and only if it did not make an area end at 0, which ends the run |
| `Lists.Node.constructor` | lib/list.c:4-8 | a head alone is a ring |
| `Lists.AddBetween` | lib/list.c:10-16 | relinking two neighbours inserts the node between them in the ring |
| `Lists.ListAdd` | lib/list.c:18-21 | inserts behind the given node |
| `Lists.ListAddTail` | lib/list.c:23-26 | inserts in front of the given node, at the end when that is the head |
| `Lists.ListDel` | lib/list.c:34-42 | removes the node and leaves it linked to itself |
| `Lists.ListEmpty` | lib/list.c:67-70 | true exactly when only the head is left |
| `Lists.AddDel` | lib/list.c:10-42 | list_add followed by list_del leaves both links of every node of the ring as they were, and the node linked to itself |
| `SlabLayout.MaskUp` | mm/slab.c:548-574 | the masking idiom rounds up to a multiple |
| `SlabLayout.MostUnique` | mm/slab.c:442-468 | there is one largest number of objects that fit |
| `SlabLayout.Estimate` | mm/slab.c:442-468 | returns the largest number of objects that fit with their management, and the bytes left over |
| `SlabLayout.ObjectSize` | mm/slab.c:544-575 | the object size is the least multiple of its alignment that holds the request, the alignment is a word, or with hardware alignment the one of 8, 16 and 32 that the halving reaches, and the slab starts off-slab from 512 bytes on |
| `SlabLayout.FindOrder` | mm/slab.c:582-613 | ends at the least order that is acceptable, or is the last, or is followed by one at which an off-slab descriptor could not have a link for every object, no lower one being so crowded; below the last order there are never more objects than links allowed; no object fits if and only if no off-slab link is allowed and the objects are no larger than a slab of the last order but one |
| `SlabLayout.FindGeneral` | mm/slab.c:493-509 | finds the smallest general cache that is large enough |
| `SlabLayout.Create` | mm/slab.c:511-668 | for every size from a word to 32 pages the layout is sound, management is off-slab exactly when it does not fit behind large objects, less than one colour step is wasted, and an off-slab descriptor fits one of the first four general caches; it fails exactly when no off-slab link is allowed yet; the order is that of the search, and a colour step is the offset asked for, rounded up to the alignment, or a cache line |
| `SlabLayout.Placement` | mm/slab.c:31-57 | under a sound layout every object, for every colour, is aligned, behind the management area, inside the slab and apart from every other |
| `SlabLayout.GeneralCache` | mm/slab.c:733-743 | a general cache of a power of two of at least 512 bytes packs without waste, so it stays off-slab and leaves the limit alone; its descriptors come from a smaller general cache; its layout is that of Create with hardware alignment and no offset |
| `SlabLayout.SizesInit` | mm/slab.c:715-752 | the thirteen general caches have sound layouts of exactly their size, each keeps off-slab descriptors in one created before it, in which they fit, and the off-slab limit ends at 116 |
| `Slab.ChainPop` | mm/slab.c:191-193 | popping keeps the chain of distinct free objects, one shorter |
| `Slab.ChainPush` | mm/slab.c:317-322 | pushing an object that is not on it keeps the chain, one longer |
| `Slab.SlabObj.constructor` | mm/slab.c:59-79 | a new slab's chain holds every object, in order |
| `Slab.SlabObj.TakeObject` | mm/slab.c:182-200 | pops the first free object, and the chain ends exactly when the slab is full |
| `Slab.SlabObj.PutObject` | mm/slab.c:317-326 | pushes the object back |
| `Slab.ListAlloc` | mm/slab.c:191-197 | after an allocation the slabs are still full, partial, empty in this order, and firstnotfull is the first that is not full |
| `Slab.ListFull` | mm/slab.c:332-346 | so they are after an object of a full slab is freed, also with one object per slab |
| `Slab.ListEmpty` | mm/slab.c:347-361 | and after the last object of a slab is freed |
| `Slab.PageOf` | mm/slab.c:278-291 | the page of an object's address is one of its slab's pages |
| `Slab.AddressAligned` | mm/slab.c:31-57 | every object of a slab of any colour is aligned |
| `Slab.Cache.constructor` | mm/slab.c:651-653 | a cache without slabs is valid |
| `Slab.Cache.AllocOne` | mm/slab.c:182-214 | hands out the first free object of the first slab that is not full, which was not live, at its address |
| `Slab.Cache.NextColour` | mm/slab.c:120-125 | each slab is moved by colour_next steps of colour_off, and colour_next is the number of attempts so far modulo the number of colours |
| `Slab.Cache.ColoursDiffer` | mm/slab.c:120-125 | two slabs start at the same place of their pages if and only if the attempts that made them are a multiple of the number of colours apart, so of as many attempts in a row no two give the same place |
| `Slab.Cache.MarkPages` | mm/slab.c:148-157 | every page of the slab names it, and no other page changes |
| `Slab.Cache.Grow` | mm/slab.c:81-180 | adds one empty slab at the end, its objects behind the colour and the management area, exactly when pages and descriptor could be had, and else changes neither slabs nor pages; colour_next moves on at every attempt, also at one that fails, and at no other time; the new slab has the colour of its attempt |
| `Slab.Cache.Alloc` | mm/slab.c:220-276 | returns NULL exactly when all slabs are full and the cache cannot grow, and else an object that was not live, aligned, on pages of the cache and behind the management area of its slab: the first free one of the first slab that is not full, or the first of a new slab |
| `Slab.Cache.MoveFromFull` | mm/slab.c:332-346 | the slab goes in front of the first that is not full, and the others keep their order |
| `Slab.Cache.MoveToEmpty` | mm/slab.c:347-361 | the slab goes last and the cursor moves on if it pointed at it; the others keep their order |
| `Slab.Cache.FreeOne` | mm/slab.c:278-362 | finds slab and object from the address, and exactly this object stops being live; it is the next to be handed out of its slab, which goes in front of the first that is not full if it was full, last if it is empty, and else stays |
| `Slab.Cache.Apart` | mm/slab.c:182-200 | two live objects never overlap |
| `Slab.Cache.Vacancy` | mm/slab.c:182-214 | there is a slab that is not full if and only if fewer objects are handed out than the slabs hold |
| `Slab.Cache.Run` | mm/slab.c:81-362 | over any interleaving of allocations, growth and valid frees every request is answered: with none exactly when all objects are handed out and no slab can be added, else with an object that is aligned, on pages of the cache and apart from all that is held; what is held, the number of slabs and their pages follow the answers; of as many attempts to grow in a row as there are colours no two place their slabs alike |
| `IpcTheory.Rendezvous` | ipc/message.c:47-69 | a message handed to a waiting receiver keeps the invariant |
| `IpcTheory.BlockSender` | ipc/message.c:70-94 | so does a sender that blocks at the end of the receiver's queue |
| `IpcTheory.Fetch` | ipc/message.c:199-227 | so does a receiver that takes the message of any waiting sender |
| `Ipc.FlagOps` | ipc/message.c:47-92 | the flag arithmetic on the values flags take |
| `Ipc.Kernel.constructor` | ipc/message.c:32-97 | tasks that have not called satisfy the invariant |
| `Ipc.Kernel.Enqueue` | ipc/message.c:71-86 | the intrusive links spell out the old queue with the sender at its end |
| `Ipc.Kernel.MsgSend` | ipc/message.c:32-97 | delivers at once exactly when the receiver waits for this sender or any, unaltered; else the sender is queued once, last, with its message pending; all assertions of the source hold |
| `Ipc.Kernel.FindInQueue` | ipc/message.c:173-185 | finds the sender asked for and its predecessor |
| `Ipc.Kernel.Dequeue` | ipc/message.c:205-225 | unlinks this sender, copies its message and lets it go |
| `Ipc.Kernel.Take` | ipc/message.c:199-227 | the sender is served, the other waiters keep their order |
| `Ipc.Kernel.MsgReceive` | ipc/message.c:99-251 | an interrupt first; else ANY takes the first in the queue and a source-specific receive takes that sender; else the task blocks, and no sender it would hear from waits; what the source asserts of the blocked task holds exactly for receives from one task with no interrupt pending |
| `Ipc.Kernel.SysSendrec` | ipc/message.c:280-315 | the kernel stamps the sender's pid; a send is recorded once and blocks exactly when the receiver does not wait for it, a receive serves the sender asked for, or the first of any, or blocks, and no delivery is taken back |
| `Ipc.InOrder` | ipc/message.c:47-86 | for every pair of tasks what is delivered is a prefix of what was sent, at most one message behind |
| `Ipc.InTurn` | ipc/message.c:71-227 | over any run those in a task's queue and those who join it are, each once, those it serves and those still in it; and if the task receives only from ANY, it serves them in the order in which they came |
| `Ipc.Kernel.Run` | ipc/message.c:32-315 | over any sequence of calls by any tasks, with tasks that are not sending writing their buffers in between, every call that may be made has its effect, for every pair of tasks what was sent is what the calls sent, as the buffer was at the call, stamped and in their order, and it is delivered in order, unaltered and at most once |
| `Ipc.ReceiveAny` | ipc/message.c:228-247 | a task that receives from ANY on an empty queue blocks, and the assertion that it then waits for some task fails |
| `Divide.DecideBit` | arch/arm/2440slib.s:43-45 | one compare, subtract and or decides one quotient bit |
| `Divide.Align` | arch/arm/2440slib.s:12-37 | the shifts never overflow and bring the divisor above half the dividend |
| `Divide.DivideNibble` | arch/arm/2440slib.s:43-54 | a group of four decides four bits, also when curbit has shifted out |
| `Divide.DivBody` | arch/arm/2440slib.s:10-60 | the quotient is n / d for all words n and d > 0 |
| `Divide.Div2Order` | arch/arm/2440slib.s:63-82 | the logarithm of a power of two |
| `Divide.ShiftDivide` | arch/arm/2440slib.s:166-169 | the power-of-two path divides |
| `Divide.UnsignedDivide` | arch/arm/2440slib.s:146-169 | floor division for all words, 0 for divisor 0 |
| `Divide.UnsignedDivMod` | arch/arm/2440slib.s:248-255 | quotient and remainder with n = q * d + r, r < d |
| `Divide.TruncRemainder` | arch/arm/2440slib.s:187-223 | truncated division is the one whose remainder is smaller than the divisor with the sign of the dividend |
| `Divide.XorSign` | arch/arm/2440slib.s:190-222 | the sign bits the code reads are those of the quotient and of the divisor |
| `Divide.SignedDivide` | arch/arm/2440slib.s:187-223 | division truncated toward zero modulo 2^32 for all words, 0 for divisor 0 |
| `Divide.SignedDivMod` | arch/arm/2440slib.s:257-264 | the remainder is exactly n - q * d, also where the quotient wraps |
| `TcpRecv.StartOrder` | net/inet/tcp.c:805-829 | sequence numbers order the segments of the stream |
| `TcpRecv.Insert` | net/inet/tcp.c:812-831 | inserting a new segment keeps the list strictly sorted and complete |
| `TcpRecv.NextExpected` | net/inet/tcp.c:891-910 | the next segment of the list continues the acknowledged prefix exactly when the next tile arrived |
| `TcpRecv.Reaches` | net/inet/tcp.c:787-911 | over any arrivals, the end of the stream is acknowledged if and only if all of it arrived and every arrival could send the acknowledgements it called for; as long as they could, ack_seq is the first segment missing, and after the first that could not, it is the start of a segment that is there |
| `TcpRecv.StaysBehind` | net/inet/tcp.c:823-911 | once the segment at ack_seq is there, no arrival moves ack_seq: a retransmission of it is dropped as a duplicate and later segments do not match |
| `TcpRecv.ManySuffice` | net/inet/tcp.c:891-911 | when every arrival can send as many acknowledgements as there are segments, they suffice |
| `TcpRecv.LostAcknowledgement` | net/inet/tcp.c:823-911 | of two segments the second arrives first, and the first with no acknowledgement sent: ack_seq stays at the second whatever arrives later |
| `TcpRecv.RunReceived` | net/inet/tcp.c:1293-1320 | the run of consecutive segments at the front of the list, acknowledged or not, ends at the first one missing, and what follows it lies behind a gap |
| `TcpRecv.Receiver.constructor` | net/inet/tcp.c:787-810 | an empty receive list is valid |
| `TcpRecv.Receiver.FindPlace` | net/inet/tcp.c:812-830 | finds the place from the tail, or the duplicate |
| `TcpRecv.Receiver.Acknowledge` | net/inet/tcp.c:889-911 | advances to the first gap, or to where an acknowledgement could not be sent |
| `TcpRecv.Receiver.SegSort` | net/inet/tcp.c:787-911 | for any arriving segment, new, early, late or duplicate, the list stays sorted and complete, and ack_seq moves only if the segment is the one awaited, to the first segment missing or past one segment more than the acknowledgements that could be sent, whichever is less |
| `TcpRecv.Receiver.CopyOut` | net/inet/tcp.c:1293-1320 | takes bytes from the front of the list, in order, none twice |
| `TcpRecv.Receiver.Recv` | net/inet/tcp.c:1259-1324 | when the application asks for no more than arrived without a gap, or nothing arrived behind the gap, what it has got stays a prefix of the stream, as long as asked for and as there is; else it gets the rest of that run followed by data of a segment behind the gap; the state stays valid if and only if nothing is read that was not acknowledged |
| `TcpRecv.Receiver.Run` | net/inet/tcp.c:787-1324 | over any arrival order with duplicates and with acknowledgements that fail, with reads that stop at the acknowledgement in between, ack_seq after every event is known exactly; it is the end of the longest prefix received if and only if enough acknowledgements could be sent, the end of the stream if and only if in addition all arrived, and never moves again otherwise; every read gets as much as it asked for of what is acknowledged, and the bytes read are a prefix of the stream |
| `TcpRecv.BehindTheGap` | net/inet/tcp.c:1295-1324 | of a stream of two bytes the second arrives first, and the application reads it as the first |
| `TcpSend.BytesPermuted` | net/inet/tcp.c:190-196 | the bytes of the queues do not depend on their order |
| `TcpSend.LeftSuffix` | net/inet/tcp.c:455-470 | a cumulative acknowledgement leaves a suffix of the segments |
| `TcpSend.CutAt` | net/inet/tcp.c:170-188 | segment i carries the bytes from i times mss on, a full segment or what is left, with their sequence numbers |
| `TcpSend.CutCount` | net/inet/tcp.c:170-188 | there are as few segments as can be |
| `TcpSend.Greedy` | net/inet/tcp.c:190-196 | a segment becomes ready if and only if it fits beside those that became ready before it, and else waits |
| `TcpSend.FittingMost` | net/inet/tcp.c:246-255 | the segments admitted are the longest prefix of the waiting ones that fits the window |
| `TcpSend.Sender.constructor` | net/inet/tcp.c:163-200 | a sender that sent nothing is valid |
| `TcpSend.Sender.AddSegment` | net/inet/tcp.c:181-196 | the segment continues the tiling and is ready exactly when it fits the window |
| `TcpSend.Sender.DoSegment` | net/inet/tcp.c:163-200 | all of the buffer becomes segments of the maximum size, or exactly the part before the allocation that failed; each is ready if it fits what is left of the window and waits otherwise, in order |
| `TcpSend.Sender.AdmitFirst` | net/inet/tcp.c:246-255 | admits a segment if and only if it fits the window or more than the window is in use already, when the unsigned subtraction wraps around |
| `TcpSend.Sender.ProcessSendWindow` | net/inet/tcp.c:233-270 | moves to ready exactly the segments that fit the window, all of them when more than the window is in use, and to wait_ack exactly those sent before a send fails; the window is respected afterwards if and only if it was before |
| `TcpSend.Sender.Sweep` | net/inet/tcp.c:457-469 | removes exactly the acknowledged segments, their bytes, and takes over the window only if there were any |
| `TcpSend.Sender.AckHandler` | net/inet/tcp.c:455-470 | the tiling goes on from the last acknowledged segment; used_size <= tot_size afterwards if and only if nothing was acknowledged and it held before, or the new window holds what stays in flight, which boundary acknowledgements and a right edge that never moves back ensure |
| `TcpSend.Sender.Total` | net/inet/tcp.c:185-196 | used_size plus the waiting bytes are the bytes from the last acknowledged segment to send_seq |
| `TcpSend.Sender.Unacknowledged` | net/inet/tcp.c:163-270 | the three queues hold, each once, consecutive segments carrying exactly the submitted bytes not acknowledged, up to send_seq |
| `TcpSend.Sender.TakeAck` | net/inet/tcp.c:455-470 | an acknowledgement of whole segments that does not move the right edge of the window back keeps used_size <= tot_size |
| `TcpSend.Sender.Run` | net/inet/tcp.c:163-470 | over any sequence of submissions, window processing and acknowledgements the queues go through the states the events lead to, what was submitted is what was taken of each submission, the acknowledgements taken are exactly the honest ones, and used_size <= tot_size as long as they acknowledged whole segments and never moved the right edge back |
| `TcpSend.ShrunkWindow` | net/inet/tcp.c:246-470 | a peer that shrinks its window to none with a byte in flight: from then on whatever is submitted is sent |
| `Sched.ListAdd` | proc/pcb.c:38-46 | linking a task in behind the head keeps the ring |
| `Sched.Level.constructor` | proc/proc.c:838-844 | a head alone is a ring |
| `Sched.Level.Add` | proc/pcb.c:38-46 | the cursor stays on the task it was on |
| `Sched.PickUnique` | proc/proc.c:296-309 | there is one next task |
| `Sched.Level.NextReady` | proc/proc.c:296-309 | the scan ends with the first ready task after the cursor in ring order, skipping the head, or with none when no task is ready |
| `Sched.GetNextReady` | proc/proc.c:287-317 | a ready task of the best priority that has one, and only the cursor of that priority moves; none exactly when the kernel would panic |
| `Sched.Fair` | proc/proc.c:287-310 | over any run of picks, whatever else becomes ready or not, a task that stays ready is among the first picks of its level, as many as the ring has tasks |
| `Sched.Schedule` | proc/proc.c:287-317 | picks made by GetNextReady with arbitrary changes of the tasks' states between them: every pick is the next ready task of the best level, and a task that stays ready is itself returned within as many picks of its level as the ring has tasks |
| `IpFrag.FoldMod` | net/inet/inet.c:103-105 | the carry folding keeps the sum modulo 2^16 - 1 and gives zero only for zero |
| `IpFrag.Checksum` | net/inet/inet.c:89-106 | the complement of the folded sum of the words, the last of which takes in the byte behind the data when the size is odd |
| `IpFrag.OddChecksum` | net/inet/inet.c:101-102 | for odd sizes that is the checksum of RFC 1071 if and only if the byte behind the data is zero |
| `IpFrag.ChecksumIsZero` | net/inet/inet.c:89-106 | filling in the checksum makes the buffer recompute to 0, whatever its other words |
| `IpFrag.HeaderReads` | net/inet/ip.c:263-279 | a receiver reads from the header the version, length, identification, offset, more-fragments flag, time to live, protocol and addresses that were meant, and its sum in network byte order is 0 |
| `IpFrag.HeaderChecks` | net/inet/ip.c:278-279 | every header recomputes to 0 |
| `IpFrag.NetSumIs` | net/inet/inet.c:95-105 | the sum of the words high byte first, as a receiver adds them up, is 256 times their sum low byte first, as the code does, modulo 2^16 - 1, and zero if and only if that is |
| `IpFrag.FramesGood` | net/inet/ip.c:242-288 | every fragment fits the mtu, carries the bytes it says, all but the last as many eights as fit, says truly whether more follow, and has the header of its datagram |
| `IpFrag.FramesInOrder` | net/inet/ip.c:242-288 | fragment i starts where the one before it ends, and only the last says that no more follow |
| `IpFrag.FramesCover` | net/inet/ip.c:242-288 | every byte of the payload is in a fragment |
| `IpFrag.NextFrame` | net/inet/ip.c:251-281 | one round of the loop builds the next fragment |
| `IpFrag.Fragment` | net/inet/ip.c:225-292 | sends exactly the fragments in order, or those before the buffer or the send that fails, and says which; with an mtu that leaves no room for eight bytes it sends empty fragments until something fails, so a payload gets through if and only if there is room and nothing fails; every fragment has the addresses, protocol and identification of its datagram |
| `IpFrag.RoundTrip` | net/inet/ip.c:225-292 | for every arrival order with duplicates, reassembly yields nothing or the payload, and the payload once every fragment arrived |
| `IpFrag.Interleaved` | net/inet/ip.c:225-292 | when fragments of any number of datagrams that differ in addresses, protocol or identification arrive mixed, in any order and with duplicates, reassembly by these fields yields for each nothing or its payload, and its payload once all its fragments arrived |
| `BlockRead.Request` | fs/ramdisk.c:16-50 | transfers the sectors asked for as far as the device reaches, and returns how many bytes that is |
| `BlockRead.Sectors` | driver/block_dev.c:117-123 | enough sectors for any offset in the first, and at most one more than needed |
| `BlockRead.ReadBlocks` | driver/block_dev.c:83-149 | for every sector size the bytes are exactly [512 * pos, 512 * (pos + count)) of the device; what it returns is at least what was asked for if the device has it |
| `BlockRead.File.Read` | fs/ofs.c:21-78 | returns exactly min(len, size - f_pos) bytes of the file from f_pos and moves f_pos past them; on an error f_pos stays |
| `BlockRead.File.ReadAll` | fs/ramfs.c:73-128 | successive reads of any lengths concatenate to the file |

## Left out

- Page tables below the page directory, zap_page_range, make_pages_present and what copy_page_range copies: areas and directory slots are modelled, page table entries are not.
- `Mmap.Mm.ExitMmap`: does not model the final sweep of the page directory, which is passed a count of -1 when TASK_SIZE is 0.
- `Mmap.Mm.DoMunmap`: the address is page-aligned and the range does not go beyond 2^32; the code's check of its arguments is commented out (mm/mmap.c:381-382), and what it does to other ranges is not modelled.
- `MmRuns.Run`: ranges beyond those of do_munmap are not part of a run, nor is what the operations do to a list in which an area ends at 0; one address space is followed at a time.
- `BuddyRuns.Serve`: answers a request of an order from MAX_ORDER on with none, where rmqueue reads past free_area.
- `Buddy.Zone.FreePagesOk`: the block freed is one that is allocated; a double free is caught by no check of the code.
- Zone lists, watermarks and retries of __alloc_pages, page flags and reference counts, and a second zone.
- `SlabLayout.Create`: the off-slab limit allows a link for every object that fits one page; otherwise the code lowers the order below 0, which is not modelled.
- Slab reaping, constructors, debug checks and per-CPU caches, which the build leaves out or which only call out.
- The lists of the buddy, slab, area and TCP code are sequences; `Lists.dfy` proves the pointer primitives against sequences, and the chain operations of lib/list.c are not modelled.
- Buffers of different tasks that overlap: tasks share one address space, and a message buffer is taken to be its task's own.
- Scheduling inside block and unblock: a blocked task makes no further call until it is let go, and the assertions behind block() are taken to hold where the task blocks.
- `Ipc.Kernel.MsgReceive`: a receive from INTERRUPT with none pending looks up a task that does not exist, and is not modelled.
- TCP handshake, options, timers, retransmission and closing, waiting for data with its count recv_data_len and its nonblocking flag, and sequence numbers that wrap.
- The modulo routines of the assembly file, which are not exported.
- `IpFrag.Fragment`: an mtu below 34, with which the headers do not fit the buffer allocated.
- Reassembly as the kernel does it: the receiver is that of RFC 791.
- `BlockRead.File.Read`: a position past the end of the file, from which the code computes a negative length.
- File writes, socket, file system and device registration glue, drivers, locks and interrupt masking; every operation is atomic.
