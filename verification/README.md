# COMEX2 in Dafny

COMEX2 is a cluster swap device: a node lends pages of its memory to other nodes, which swap out to
them over RDMA. This project models the parts that decide who owns a page, where its data is, and how
swap entries are counted, and proves what those parts promise.

| file | what it holds |
|---|---|
| `Common.dfy` | names that several files share |
| `Bits.dfy` | shifts, masks and xor as arithmetic on natural numbers |
| `Blocks.dfy` | aligned blocks, buddies, and the canonical set of free blocks of a set of free pages |
| `Ancestors.dfy` | the blocks a freed block may be merged up to |
| `BlockIndex.dfy` | the xor and mask arithmetic that finds buddy and parent |
| `FreeLists.dfy` | the intrusive circular lists, on arrays of next and prev links |
| `Buddy.dfy` | the buddy allocator on its heap: links, marks, per-page counters, `nr_free` |
| `PageFree.dfy` | the handling of PAGE_FREE messages by aligned power-of-two blocks |
| `Lender.dfy` | start-up of the pool and answers to page requests |
| `GroupQueue.dfy` | a borrower's queue of page groups for one lender |
| `FreeBatch.dfy` | a borrower's 16-run batch of released pages for one lender |
| `Protocol.dfy` | N nodes and the messages in flight: single ownership and round trip |
| `Ring.dfy` | the write-out ring and its flushes |
| `ReadPath.dfy` | the prefetch table, and the read path over ring, prefetch and remote memory |
| `Turns.dfy` | what further stores can do to a ring: exact conditions for fetches and releases |
| `Borrower.dfy` | storing and reading one page on one node, put together from the above |
| `Cluster.dfy` | protocol, rings, prefetch tables and remote memories of all nodes together |
| `SwapDigits.dfy` | swap counts as mixed-radix numbers |
| `SwapPages.dfy` | the carry and borrow loops over the continuation pages |
| `SwapFile.dfy` | duplicate, free, continuation and slot allocation on one swap device |

`dafny verify dfyconfig.toml` checks the whole project.

## How the parts fit together

*Allocator.* `BuddyAllocator.Valid` says that every order's list is a well-formed circle of `nr_free`
pages, that a page is marked -128 with `private` = k exactly when it is on the list of order k, and that
the listed blocks are `Canon` of the pages with counter 0. `Canon` is defined by maximality, and
`ReducedIsCanon` with `CanonIsReduced` show that it is the one and only set of aligned, disjoint blocks
without two free buddies that covers those pages. Allocation and release are proved to keep all of it,
and to leave each list, in order, as the code does: `Expanded` and `MergedLists`.

*Protocol.* A world is the nodes and a list of messages from which any one may be delivered next. Its
steps use the very functions and predicates the methods are proved against (`TakeResult`, `Arrive`, `Pop`,
`ReleasePage`, `Greedy`). `Places` counts in how many places a page of a lender
is; it is 1 for the pages of the pool and 0 for all others, in every world of every run.
`TriesGrant` and `RunRefusals` say what a request is answered.

*Data.* `Store` in `ReadPath.dfy` holds the rings, the prefetch table, the remote memories and, as
specification, the last data written to each held page. `StorePage` in `Borrower.dfy` is proved to do
what a run of `Store` steps does. `Drains` in `Turns.dfy` is what can follow any store: slots are reserved
and filled, and the ring is flushed when it is full and after every 32nd slot, as the code does; the exact
conditions for fetches and releases quantify over all such runs.
`Cluster.dfy` joins everything: its theorem `EveryoneReadsTheirWrites` speaks of any number of nodes that
lend, borrow, write and read at the same time.

*Counts.* The value of a swap entry is d0 + 63 * (d1 + 128 * (d2 + ...)). The loops over the pages are
proved against recursive increment and decrement on the column of bytes, and those against the value.

## What the code relies on

These are hypotheses of the theorems, stated as preconditions where they are needed.

- `total_pages` is a multiple of 1024; the buddy lookup has no bounds check.
- `writeOut_buff` divides 1024, and `readIn_buff` is a multiple of 16; so is `writeOut_buff*nodes`, or else
  all read-in buffers lie in one 4 MB region. The RDMA guards of `do_write` and `do_read` then never refuse
  a call (`Ring.Valid`, `PrefetchTable.Valid`, `FlushNeverRefused`, `FetchRefusedIff`); `RefusedFetch` is a
  configuration that breaks the last.
- Each held page is released exactly once. `FreePage` says what a double release does: no list
  changes, but the counter of the first page that is already free stays at -1, and the held pages in
  front of it end with counter 0 on no list.
- Messages arrive in any order, but arrive; an RDMA write inside a flush is finished when the flush
  returns. Steps are atomic at the granularity of the locks: each try of a page request and each free of a
  PAGE_FREE message is a step of its own, since the buddy lock is dropped between them.
- A swap entry with a continued count has a normal-form number behind it; this is an invariant here
  (`CountsOK`), where the code has `BUG_ON`s.
- The constants of the swap map are those of Linux 3.10; the header that defines them is not part of
  this model.

## Where the code does less than it seems to

- A flush treats two slots as contiguous when their page numbers are, modulo 1024
  (`Kernel Modification/comex_remote.h:480-482`). `FaithfulIff` gives, for a ring of a given size, the exact
  condition under which no page is ever written to the number of another: two grants in succession that are
  not contiguous may look so only where the ring wraps. Whole 1024-page grants meet it for every ring
  (`WholeGroupsAreSafe`, `NoJoinSeamsFine`), smaller grants need not (`SmallGrantsMisplace`).
- A fetch of a 16-page line does not look at other pages of the line that wait in the ring.
  `FetchHarmlessIff` gives the exact condition, `UnsettledFetch` the failing runs of every ring, and
  `StalePrefetch` the smallest one.
- `read_swap_cache_async` gives a page back at once (`Kernel Modification/swap_state.c:478`), also when
  it still waits in the ring. `ReleaseHarmlessIff` gives the exact condition, `LostForeignWrite` the
  failing runs.
- A lender that ever lent never has all its pages back. `COMEX_free_to_remote` sends a batch only when
  the next released page fits into none of its 16 runs, and that page then starts the next batch
  (`Kernel Modification/comex_remote.h:416-419`). `NeverAllBack` proves the failure for every run,
  `LoanExample` is the shortest one, and `RoundTripIff` gives the exact condition; `RoundTrip` shows that
  the pages in the batches are all that is missing.
- The wrap-around pass of `scan_swap_map` begins behind `lowest_bit`
  (`Kernel Modification/swapfile.c:394-395`). `ScanMeans` says exactly when a free entry is not found;
  `OverlookedExample` is such a state, and `OverlookedRun` reaches it on a device.
- The comment above `add_swap_count_continuation` (`Kernel Modification/swapfile.c:2345-2349`) speaks of
  SWAP_MAP_MAX * SWAP_CONT_MAX; the code's digits are 0..62 and 0..127, so the radices are 63 and 128.
- With `refill` below 5 the lender tries that one order only, and replies -1 after it
  (`Kernel Modification/comex_remote.h:431`).

## Model

| member | source | states |
|---|---|---|
| `FreeLists.ListTable.constructor` | Kernel Modification/comex_buddy.h:30-34 | All list heads and page nodes point at themselves, which is the table of empty lists |
| `FreeLists.ListTable.Empty` | Kernel Modification/comex_buddy.h:36-39 | The head-points-at-itself test answers exactly whether the list is empty |
| `FreeLists.ListTable.First` | Kernel Modification/comex_buddy.h:139 | The node behind the head is the first page of the list |
| `FreeLists.ListTable.Insert` | Kernel Modification/comex_buddy.h:41-47 | Four pointer writes put a page between two neighbours of one list; every list stays a well-formed circle and only that one changes |
| `FreeLists.ListTable.Add` | Kernel Modification/comex_buddy.h:49-52 | The page becomes the first of its list, all others unchanged |
| `FreeLists.ListTable.AddTail` | Kernel Modification/comex_buddy.h:54-57 | The page becomes the last of its list, all others unchanged |
| `FreeLists.ListTable.Delete` | Kernel Modification/comex_buddy.h:59-70 | The page leaves its list from any position, points at itself and is on no list afterwards |
| `FreeLists.InsertLinked` | Kernel Modification/comex_buddy.h:41-47 | The four writes of an insertion splice a node into a circle between any two neighbours |
| `FreeLists.DeleteLinked` | Kernel Modification/comex_buddy.h:59-70 | The four writes of a deletion cut an inner node out of a circle |
| `FreeLists.Relinked` | Kernel Modification/comex_buddy.h:30-70 | Writes confined to one list and to unlisted pages keep the circles of every other order intact |
| `Blocks.Halves` | Kernel Modification/comex_buddy.h:174-187 | Buddies are the two disjoint halves of one parent, and buddy-of is its own inverse |
| `BlockIndex.BuddyIndex` | Kernel Modification/comex_buddy.h:173-176 | The xor arithmetic on the low bits of a page number yields exactly the buddy of an aligned block |
| `BlockIndex.ParentIndex` | Kernel Modification/comex_buddy.h:186-187 | The and-not arithmetic on the low bits yields exactly the parent |
| `BlockIndex.ParentLow` | Kernel Modification/comex_buddy.h:186-188 | The result of the and-not is again the low bits of the parent, so the loop may go on with it |
| `Blocks.BuddyInsidePool` | Kernel Modification/comex_buddy.h:175-176 | In a pool of whole 1024-page groups the unchecked buddy lookup never leaves the page array |
| `Blocks.InsertCanon` | Kernel Modification/comex_buddy.h:191-193 | Freeing a run whose buddy is not wholly free adds just that run to the maximal free runs |
| `Blocks.RemoveCanon` | Kernel Modification/comex_buddy.h:139-142 | Taking one maximal free run leaves the maximal runs of the remaining pages |
| `Blocks.MergeCanon` | Kernel Modification/comex_buddy.h:174-193 | Merging upward with free buddies gives exactly the maximal free runs of the enlarged set of pages |
| `Blocks.NotBuddyNotFree` | Kernel Modification/comex_buddy.h:178-179 | A buddy without the list mark of the same order is not wholly free, so stopping there is right |
| `Blocks.ReducedIsCanon` | Kernel Modification/comex_buddy.h:92-196 | Uniqueness: aligned disjoint blocks with no two free buddies below order 10 are determined by the pages they cover, whatever the history |
| `Blocks.CanonIsReduced` | Kernel Modification/comex_buddy.h:92-196 | Existence: every set of pages is covered exactly by such a set of blocks |
| `Blocks.RunExists` | Kernel Modification/comex_buddy.h:132-137 | Some aligned run of 2^k pages is free exactly when some free block has order k or more |
| `BuddySystem.BuddyAllocator.constructor` | Kernel Modification/comex_lib.h:112-126 | The freshly filled page array is a valid allocator in which every page is held |
| `BuddySystem.BuddyAllocator.Unlink` | Kernel Modification/comex_buddy.h:140-142 | List deletion, mark removal and nr_free-- take exactly one block out of the represented set |
| `BuddySystem.BuddyAllocator.Link` | Kernel Modification/comex_buddy.h:99-101 | List insertion, mark and nr_free++ add exactly one block to the represented set |
| `BuddySystem.BuddyAllocator.Expand` | Kernel Modification/comex_buddy.h:92-103 | Splitting adds exactly the upper halves of every order between low and high, each at the front of the list of its order |
| `BuddySystem.BuddyAllocator.ExpandTurn` | Kernel Modification/comex_buddy.h:95-102 | One turn halves the block and puts the upper half on the lists, on top of the turns before it |
| `BuddySystem.BuddyAllocator.GiveHalf` | Kernel Modification/comex_buddy.h:98-101 | The upper half goes to the front of the list of its order; every other list is unchanged |
| `BuddySystem.ExpandedAt` | Kernel Modification/comex_buddy.h:92-103 | List by list: each order from low to below high has its upper half in front, all others are unchanged |
| `BuddySystem.BuddyAllocator.CheckCtr` | Kernel Modification/comex_buddy.h:105-122 | Succeeds exactly when every counter of the block was 0 (allocation) or 1 (free); on failure names the first bad page and says which counters were moved already |
| `BuddySystem.BuddyAllocator.RmqueueSmallest` | Kernel Modification/comex_buddy.h:124-156 | Complete allocation: -1 exactly when no aligned run of that order is free; otherwise an aligned free run, the head of the first non-empty list, which becomes held while nothing else changes; that list has lost its head and the upper halves are in front of the lists below it; the heap invariant is kept |
| `BuddySystem.BuddyAllocator.Detach` | Kernel Modification/comex_buddy.h:139-152 | The counter check after a split cannot fail, and exactly the 2^order pages become held |
| `BuddySystem.BuddyAllocator.TakePages` | Kernel Modification/comex_buddy.h:146 | The counter check of an allocation on free pages succeeds and makes exactly them held |
| `BuddySystem.BuddyAllocator.FindBuddy` | Kernel Modification/comex_buddy.h:84-90 | The mark and order of one page tell exactly whether the buddy heads a free block of the order; the lookup stays inside the pool |
| `BuddySystem.PageIndex` | Kernel Modification/comex_buddy.h:173 | The mask keeps the low 11 bits of the page number |
| `BuddySystem.BuddyAllocator.SomeBlock` | Kernel Modification/comex_buddy.h:135-140 | The first entry of a non-empty list heads a free block of that order |
| `BuddySystem.BuddyAllocator.NoBlock` | Kernel Modification/comex_buddy.h:132-137 | When all lists from the order up are empty, no aligned run of the order is free |
| `BuddySystem.BuddyAllocator.FreePage` | Kernel Modification/comex_buddy.h:158-196 | A held block becomes free with the heap invariant and the canonical form kept, and each list is afterwards as MergedListsMeans says; a block that contains a free page changes no list, leaves the first such page with counter -1 and the held pages in front of it with counter 0 on no list, and every other counter as it was |
| `BuddySystem.BuddyAllocator.MergeUp` | Kernel Modification/comex_buddy.h:173-193 | The merge loop on lists, marks and index arithmetic computes the merge of the represented blocks, and leaves each list as MergedListsMeans says |
| `BuddySystem.MergedListsMeans` | Kernel Modification/comex_buddy.h:173-193 | Where a freed block goes: merging stops at the first order whose buddy is not free, or at 10; the merged block is the last of the list of that order, each list on the way has lost just the buddy, every other list is unchanged |
| `BuddySystem.RemovedAt` | Kernel Modification/comex_buddy.h:181-182 | A list without one of its pages is the list in front of it and the list behind it |
| `BuddySystem.BuddyAllocator.Absorb` | Kernel Modification/comex_buddy.h:181-184 | The buddy leaves its list, all other lists are unchanged, and neither half is marked any more |
| `BuddySystem.BuddyPage` | Kernel Modification/comex_buddy.h:175-176 | Index arithmetic finds the buddy |
| `BuddySystem.CombinedPage` | Kernel Modification/comex_buddy.h:186-188 | Index arithmetic finds the parent, and the index stays the low 11 bits of the page number |
| `BuddySystem.SplitCanon` | Kernel Modification/comex_buddy.h:92-103 | A block split down to an order leaves the maximal runs of the pages that stay free |
| `BuddySystem.TakeFacts` | Kernel Modification/comex_buddy.h:139-146 | Removing a block and giving its upper halves back is the canonical form after the allocation |
| `BuddySystem.HeldHeadsNothing` | Kernel Modification/comex_buddy.h:158-196 | A held page heads no free block, so it may be marked and linked |
| `PageFree.GreedyIsLargest` | krpingTrimmed/COMEX_module_lib.h:182-186 | The inner loop ends at the largest order that fits the rest of the run and the alignment of its start |
| `PageFree.TileTiles` | krpingTrimmed/COMEX_module_lib.h:178-192 | The blocks cut from a run are aligned, at most 1024 pages long, and follow one another from its first page to its last |
| `PageFree.TileIsShort` | krpingTrimmed/COMEX_module_lib.h:178-192 | A run of n pages from any start costs at most 20 + n/1024 calls of COMEX_free_page |
| `PageFree.FallingOrders` | krpingTrimmed/COMEX_module_lib.h:178-192 | A run shorter than its alignment is cut by strictly falling orders |
| `PageFree.NextOrder` | krpingTrimmed/COMEX_module_lib.h:182-189 | After each block the cut goes on at a higher alignment, or with another 1024-page group, or ends in a short tail |
| `PageFree.RisingOrders` | krpingTrimmed/COMEX_module_lib.h:178-192 | A run is cut by rising orders, whole 1024-page groups and falling orders, in that sequence |
| `PageFree.MergeAllCanon` | Kernel Modification/comex_buddy.h:158-196 | Freeing any list of held blocks in any order gives the canonical form of the pages that are free then |
| `PageFree.CutDoesNotMatter` | krpingTrimmed/COMEX_module_lib.h:165-194 | Every cut of a held run into aligned blocks frees it to the same set of blocks |
| `PageFree.GreedyFreesLikePages` | krpingTrimmed/COMEX_module_lib.h:168-192 | For one run, the greedy decomposition and the page-at-a-time loop it replaced leave the same free blocks per order |
| `PageFree.MessageFreesLikePages` | krpingTrimmed/COMEX_module_lib.h:165-194 | The same for a whole message of runs and any starting allocator state |
| `PageFree.LargestOrder` | krpingTrimmed/COMEX_module_lib.h:182-186 | The mask and modulo loop terminates and finds the greedy order |
| `PageFree.FreeFront` | krpingTrimmed/COMEX_module_lib.h:181-189 | One turn frees exactly the first block of the decomposition |
| `PageFree.FreeTurn` | krpingTrimmed/COMEX_module_lib.h:181-190 | What one turn frees and what it leaves of the run are together what the run was |
| `PageFree.FreeSlot` | krpingTrimmed/COMEX_module_lib.h:180-191 | The loop over one slot terminates and frees exactly the pages of its run |
| `PageFree.HandlePageFree` | krpingTrimmed/COMEX_module_lib.h:165-194 | A message whose runs are held makes exactly their pages free and keeps the heap invariant |
| `PageFree.SlotsMean` | krpingTrimmed/COMEX_module_lib.h:168-180 | The pages of a message are those its slots name by first page and count, whatever slots are empty |
| `Lender.NoGrant` | Kernel Modification/comex_remote.h:423-437 | A reply of -1 means that no order the lender tries has a free run, and only then |
| `Lender.PagesRequest` | Kernel Modification/comex_remote.h:423-437 | Grants an aligned free run of the largest available order from refill down to 5 (refill alone when it is below 5) and takes exactly it, or answers -1 with no run of any of these orders free and no change |
| `Lender.GrantAligned` | krpingTrimmed/COMEX_module_lib.h:71-73 | A granted page number is a multiple of the group size, so the wrong-address warning cannot appear |
| `Lender.TakeForLocalUse` | Kernel Modification/comex_lib.h:153-163 | Succeeds exactly when a page is free, and takes exactly that page; a page number outside the pool never comes back |
| `Lender.WholePool` | Kernel Modification/comex_lib.h:128-130 | A wholly free pool of whole groups has its order-10 blocks as its only blocks |
| `Lender.FullPoolCounts` | Kernel Modification/comex_lib.h:128-131 | After all pages were freed nr_free is total_pages/1024 at order 10 and 0 at every other order |
| `Lender.FreeAll` | Kernel Modification/comex_lib.h:128-130 | Freeing the pages one by one makes the whole pool free, with the 1024-page groups in rising order on the list of order 10 |
| `Lender.FreeNext` | Kernel Modification/comex_lib.h:128-130 | Page by page: the list of order 10 holds the complete groups in order, and a group joins at its end with its last page |
| `Lender.GroupComplete` | Kernel Modification/comex_buddy.h:174-189 | With all earlier pages free, a page merges up to order 10 exactly when it is the last of its group |
| `Lender.Drain` | Kernel Modification/comex_lib.h:132-134 | The drain loop ends after exactly as many allocations as pages were free, with every list empty |
| `Lender.FreeBacked` | Kernel Modification/comex_lib.h:136-142 | The last loop leaves free exactly the pages that have an address |
| `Lender.InitEnv` | Kernel Modification/comex_lib.h:112-142 | Start-up drains exactly total_pages pages and ends with the backed pages free in canonical form |
| `GroupQueue.ArriveAppends` | Kernel Modification/comex_remote.h:340-346 | An arriving group appends its 2^size pages, in order, to the pages waiting |
| `GroupQueue.PopTakesFirst` | Kernel Modification/comex_remote.h:362-373 | Taking a page removes the first waiting page and leaves no empty group behind |
| `GroupQueue.EmptyFlatten` | Kernel Modification/comex_remote.h:362-366 | The list of groups is empty exactly when no page waits |
| `GroupQueue.FreeGroup.constructor` | Kernel Modification/comex_lib.h:23-31 | An empty queue |
| `GroupQueue.FreeGroup.PageReceive` | Kernel Modification/comex_remote.h:330-354 | total_page stays the number of waiting pages; the pages of all arrived groups, in order, are those handed out followed by those waiting; the back-off is set as the reply demands |
| `GroupQueue.FreeGroup.GetPage` | Kernel Modification/comex_remote.h:357-378 | With total_page > 0 the list is not empty, and the page handed out is the next one in arrival order |
| `FreeBatch.ReleaseConserves` | Kernel Modification/comex_remote.h:388-421 | A release adds its page once to batch and message together, loses nothing, and keeps at most 16 runs of 1..16383 pages |
| `FreeBatch.BatchConserves` | Kernel Modification/comex_remote.h:380-421 | Over every sequence of releases, sent messages and pending batch hold each page as often as it was released |
| `FreeBatch.DistinctReleases` | Kernel Modification/comex_remote.h:380-421 | When no page is released twice, messages and batch hold exactly the released pages, each once |
| `FreeBatch.CountsHeld` | krpingTrimmed/COMEX_module_lib.h:165-194 | Runs in which no page occurs twice and none is free meet what the PAGE_FREE handler needs |
| `FreeBatch.SlotDecides` | Kernel Modification/comex_remote.h:392-409 | The first slot whose run ends before or starts after the page decides where the page goes |
| `FreeBatch.ReleaseInto` | Kernel Modification/comex_remote.h:392-409 | The first run with room that ends right before the page, or starts right behind it, grows by the page on that side |
| `FreeBatch.ReleaseNew` | Kernel Modification/comex_remote.h:411-419 | When no run takes the page it starts a new one, and with 16 runs there already they are sent and the page starts the next batch |
| `FreeBatch.MessageRuns` | Kernel Modification/comex_remote.h:416 | The copied arrays of a full batch stand for the runs of the batch |
| `FreeBatch.FreeStruct.constructor` | Kernel Modification/comex_lib.h:71-77 | The clean batch holds no run |
| `FreeBatch.FreeStruct.Clean` | Kernel Modification/comex_remote.h:380-386 | The batch holds no run any more |
| `FreeBatch.FreeStruct.SetSlot` | Kernel Modification/comex_remote.h:396-419 | Writing a used slot or the first unused one keeps the used slots a prefix of the 16 |
| `FreeBatch.FreeStruct.FreeToRemote` | Kernel Modification/comex_remote.h:388-421 | The slot loop on the two arrays does what the batch law says, and a message is sent, with the old batch as its contents, exactly when the page fits nowhere |
| `Protocol.RequestKeeps` | Kernel Modification/comex_remote.h:99-104 | A request moves no page |
| `Protocol.TryKeeps` | Kernel Modification/comex_remote.h:428-436 | One try of a request, under one hold of the buddy lock, keeps each page of each pool in exactly one place |
| `Protocol.TryLeaves` | Kernel Modification/comex_remote.h:428-436 | One try takes an aligned free block of its order when there is one; without one it goes on to the next lower order, and only an order of 5 or below answers -1 |
| `Protocol.RunRefusals` | Kernel Modification/comex_remote.h:431-435 | From start-up on, every reply of -1 in any world of any run is for an order of 5 or below: no lender gives up early |
| `Protocol.TriesGrant` | Kernel Modification/comex_remote.h:423-437 | Tries of one request with no other step in between end in the grant of the largest available order from refill down to 5, for the pages free before the first try, or in -1 with no such run free; until then all higher orders had none and nothing changed |
| `Protocol.ReceiveKeeps` | Kernel Modification/comex_remote.h:330-354 | A reply moves its pages from the message to the borrower's queue |
| `Protocol.TakeKeeps` | Kernel Modification/comex_remote.h:357-378 | Taking a page moves it from the queue to the pages in use |
| `Protocol.ReleaseKeeps` | Kernel Modification/comex_remote.h:388-421 | A release moves a page from in use to the batch, and a full batch into a message |
| `Protocol.FlightHeld` | krpingTrimmed/COMEX_module_lib.h:165-194 | The runs still to be freed of a PAGE_FREE message are pairwise disjoint, held and in the lender's pool, at every moment |
| `Protocol.FrontHeld` | krpingTrimmed/COMEX_module_lib.h:180-189 | So the block freed next is held, whatever was allocated or freed since the last one: its counter check does not fail |
| `Protocol.FlightHandled` | krpingTrimmed/COMEX_module_lib.h:165-194 | A PAGE_FREE message in flight meets every precondition of the handler: held runs, and slots inside the pool |
| `Protocol.ReclaimKeeps` | krpingTrimmed/COMEX_module_lib.h:180-191 | Each COMEX_free_page of the handler, with other steps in between, moves its block from the message to the free lists |
| `Protocol.ReclaimLeaves` | krpingTrimmed/COMEX_module_lib.h:180-191 | One free takes the largest aligned block that fits off the front of the first run, makes its pages free, and leaves the rest of the message |
| `Protocol.TakeLocalKeeps` | Kernel Modification/comex_lib.h:153-175 | A local allocation moves one page from free to local use |
| `Protocol.ReleaseLocalKeeps` | Kernel Modification/memory.c:1189-1193 | A local release moves one page back |
| `Protocol.StepKeeps` | krpingTrimmed/COMEX_module_lib.h:147-196 | Every step of every node, each under one hold of its lock, keeps each page of each pool in exactly one place |
| `Protocol.RunKeeps` | krpingTrimmed/COMEX_module_lib.h:147-196 | Single ownership in every world of every run, any number of nodes, any message order |
| `Protocol.FreshOwned` | Kernel Modification/comex_lib.h:112-142 | The world before the first loan satisfies single ownership |
| `Protocol.NeverLentTwice` | Kernel Modification/comex_remote.h:330-437 | A page in use by a borrower is with no other borrower, in no message, in no queue or batch, neither free nor in local use at the lender |
| `Protocol.IdleFree` | Kernel Modification/comex_remote.h:388-437 | When no page of a lender is queued, in use or on a message, its free pages are its pool without its local pages and without those that wait in the borrowers' batches; the waiting runs are disjoint and held |
| `Protocol.RoundTripIff` | Kernel Modification/comex_remote.h:388-437 | Exact condition: at such a moment of any run the lender has, order by order, the blocks of the unlent pool if and only if every batch for it is empty |
| `Protocol.RoundTrip` | krpingTrimmed/COMEX_module_lib.h:165-194 | From such a moment, freeing the waiting runs as PAGE_FREE messages are handled gives the blocks of the unlent pool, whatever splits, merges and reorderings happened |
| `Protocol.IdleTwice` | Kernel Modification/comex_remote.h:388-437 | Two such moments with the same local pages have the same blocks if and only if the same pages wait in the batches |
| `Protocol.StepKeepsOut` | Kernel Modification/comex_remote.h:416-419 | No step of any node brings the last page of a lender home: a release that sends a batch starts the next one |
| `Protocol.OutForever` | Kernel Modification/comex_remote.h:416-419 | Once a page of a lender was granted, something of it is out in every later world of the run |
| `Protocol.NeverAllBack` | Kernel Modification/comex_remote.h:388-421 | So the round trip as such fails: after the first grant the lender has the blocks of the unlent pool at no later moment with nothing queued, in use or on a message |
| `Protocol.LoanExample` | Kernel Modification/comex_remote.h:388-437 | The shortest run with these premises: one page, asked for, granted, taken and given back, stays in the batch |
| `WriteOutRing.BatchJoins` | Kernel Modification/comex_remote.h:472-488 | What a batch is: filled slots that join pairwise modulo 1024, ended by the wrap, by a slot not filled, or by a pair that does not join |
| `WriteOutRing.BatchMeans` | Kernel Modification/comex_remote.h:472-488 | Which slots a flush takes, slot by slot: filled ones whose page numbers modulo 1024 rise by one, as many as there are up to the wrap; none only when the ring is empty or its oldest slot is being filled |
| `WriteOutRing.FlushedPages` | Kernel Modification/comex_remote.h:495-502 | Page by page, remote memory after a flush: the pages of the batch have the data of its slots, every other page is as it was |
| `WriteOutRing.WriteRunAt` | krpingTrimmed/COMEX_module_lib.h:76-81 | A write of n pages changes exactly n consecutive remote pages, each to its own data |
| `WriteOutRing.Ring.constructor` | Kernel Modification/comex_lib.h:46-61 | A ring whose slots are all free |
| `WriteOutRing.Ring.TailFree` | Kernel Modification/comex_remote.h:114-115 | The tail slot is free exactly when the ring is not full, and a full ring has tail equal to head |
| `WriteOutRing.Ring.TailReady` | Kernel Modification/comex_remote.h:110 | The tail slot is filled exactly when the ring is full and its oldest page is filled |
| `WriteOutRing.Ring.Reserve` | Kernel Modification/comex_remote.h:123-127 | The page joins the end of the window; the slots in use stay the cyclic interval from head to tail |
| `WriteOutRing.Ring.Fill` | Kernel Modification/comex_remote.h:131-137 | The reserved slot, and no other, becomes ready with the page and its data |
| `WriteOutRing.Ring.FreeBuff` | Kernel Modification/comex_remote.h:440-450 | Exactly the slots of the batch become free |
| `WriteOutRing.Ring.MarkBatch` | Kernel Modification/comex_remote.h:466-489 | The marking loop stays inside the ring, terminates, and marks exactly the batch |
| `WriteOutRing.Ring.Flush` | Kernel Modification/comex_remote.h:466-504 | Exactly the batch leaves the window from its front and is written to remote memory; pages written are always a prefix of pages reserved, each once and in order; a full ring whose tail is ready gets a free tail slot |
| `WriteOutRing.Ring.SendBatch` | Kernel Modification/comex_remote.h:495-502 | Remote memory becomes what the batch says, base page and data taken from the head slots |
| `WriteOutRing.Ring.Retire` | krpingTrimmed/COMEX_module_lib.h:79-80 | Freeing the slots and advancing the head leave the window without the batch |
| `WriteOutRing.Ring.Advance` | Kernel Modification/comex_remote.h:500-501 | The head moves past the batch, modulo the ring size |
| `WriteOutRing.Ring.ReadFromBuffer` | Kernel Modification/comex_remote.h:154-175 | Hits exactly when the page is ready in the ring, and then returns data of such a slot |
| `WriteOutRing.BatchOffsets` | Kernel Modification/comex_remote.h:480-482 | Along a batch page numbers rise by one modulo 1024 and never wrap |
| `WriteOutRing.BatchInRegion` | Kernel Modification/comex_remote.h:480-482 | The remote side of a batch stays inside one 1024-page region |
| `WriteOutRing.RingInRegion` | krpingTrimmed/COMEX_module_lib.h:203-206 | With a ring size that divides 1024, each ring stays inside one 1024-page region of the local buffers |
| `WriteOutRing.DoWrite` | krpingTrimmed/krping.c:348-365 | Refused exactly when either side would cross a region border, and then nothing changes; otherwise each page of the range gets its own data and every other page is as it was |
| `WriteOutRing.RefusedIff` | krpingTrimmed/krping.c:356-357 | The guard refuses exactly the transfers one of whose sides crosses the border of a 1024-page region |
| `WriteOutRing.RemoteBehind` | krpingTrimmed/COMEX_module_lib.h:203-214 | Remote page 0 lies behind all write-out and read-in buffers, at the first group border past them |
| `WriteOutRing.Ring.BatchFits` | krpingTrimmed/krping.c:356-357 | A batch of a ring whose buffers lie inside one region is not refused, so its slots are freed after the write |
| `WriteOutRing.Ring.WriteBatch` | Kernel Modification/comex_remote.h:495-502 | The write of a batch is carried out and is the one its entries say |
| `WriteOutRing.FlushNeverRefused` | krpingTrimmed/krping.c:356-357 | For every ring contents and node, and every ring size that divides 1024, the misalignment guard of do_write lets the flush pass |
| `WriteOutRing.SlotIsMod` | Kernel Modification/comex_remote.h:123-125 | Page number m of the stream of reserved pages is put into slot m % size |
| `WriteOutRing.RealWindow` | Kernel Modification/comex_remote.h:472-488 | A flush takes slots up to the last one only, so a false join at the wrap does no harm |
| `WriteOutRing.CarriedJoins` | Kernel Modification/comex_remote.h:472-488 | False joins of the stream that do not fall on the wrap are those of the window |
| `WriteOutRing.SeamsJoin` | Kernel Modification/comex_remote.h:480-482 | Pages that look contiguous inside the ring are contiguous exactly when no grant makes a false join with the one before it, but where its first page goes to slot 0 |
| `WriteOutRing.StreamFaithfulIff` | Kernel Modification/comex_remote.h:466-504 | Exact condition over any stream of pages and any ring size |
| `WriteOutRing.FaithfulIff` | Kernel Modification/comex_remote.h:466-504 | Exact condition for one ring of a given size: over every stretch of granted pages it may hold, with the head where the code has it, a flush writes each page to its own number if and only if no grant makes a false join with the one before it but at the wrap |
| `WriteOutRing.WholeGroupsAreSafe` | Kernel Modification/comex_remote.h:423-437 | Grants of whole 1024-page groups make no false join |
| `WriteOutRing.NoJoinSeamsFine` | Kernel Modification/comex_remote.h:480-482 | Without false joins the condition holds for every ring size |
| `WriteOutRing.SmallGrantsMisplace` | Kernel Modification/comex_remote.h:138-139 | Counterexample with 32-page grants and a ring of 64 slots: the store of the 33rd page flushes all 33 slots as one batch, and the data of page 1056 goes to page 32 |
| `ReadPath.LineIndex` | Kernel Modification/comex_remote.h:275-300 | Every page of a fetched line lands at its own index pageNO % readIn, inside the table |
| `ReadPath.VoidedHits` | Kernel Modification/comex_remote.h:453-464 | Voiding removes exactly one (node, page) from the table |
| `ReadPath.FetchedHits` | Kernel Modification/comex_remote.h:272-305 | After a fetch the 16 pages of the line hit with the data of remote memory; any other page hits exactly when it hit before and its entry is not one of the line, and then that entry is unchanged |
| `ReadPath.OwnIndex` | Kernel Modification/comex_remote.h:275-277 | The page asked for sits at its own index of the fetched line |
| `ReadPath.FetchRefusedIff` | krpingTrimmed/krping.c:402-405 | Exact condition: no fetch of any page is refused by the guard of do_read if and only if the read-in buffers start at a multiple of 16 pages or all lie in one region |
| `ReadPath.FetchNeverRefused` | krpingTrimmed/krping.c:402-405 | So none is when writeOut*nodes is a multiple of 16 |
| `ReadPath.RefusedFetch` | krpingTrimmed/krping.c:402-405 | A configuration that breaks the condition: 8 slots, 3 nodes, 1008 read-in buffers, index 992 |
| `ReadPath.DoRead` | krpingTrimmed/krping.c:398-405 | The read happens exactly when the guard lets it pass, and then returns the consecutive pages |
| `ReadPath.PrefetchTable.ReadLine` | Kernel Modification/comex_remote.h:283-294 | The 16 entries are invalidated and hold the line of remote memory; nothing else changes |
| `ReadPath.PrefetchTable.constructor` | Kernel Modification/comex_lib.h:63-69 | An empty table, none of whose lines crosses a region border: no page hits |
| `ReadPath.PrefetchTable.VoidPreFetch` | Kernel Modification/comex_remote.h:453-464 | The table becomes the voided one |
| `ReadPath.PrefetchTable.ReadFromPreFetch` | Kernel Modification/comex_remote.h:177-197 | Hits exactly when the entry at pageNO % readIn is valid for that node and page |
| `ReadPath.PrefetchTable.ReadFromRemote` | Kernel Modification/comex_remote.h:272-305 | The RDMA read is not refused, the table becomes the one with the whole line, and the page returned is that of remote memory |
| `ReadPath.ReadsLatest` | Kernel Modification/swap_state.c:461-472 | In a coherent store the lookup order ring, prefetch, remote returns the last data written |
| `ReadPath.ReserveKeeps` | Kernel Modification/comex_remote.h:122-128 | Taking a page and voiding its prefetch entry keeps coherence |
| `ReadPath.FillKeeps` | Kernel Modification/comex_remote.h:130-137 | Filling a slot keeps coherence and makes its data the latest |
| `ReadPath.FlushKeeps` | Kernel Modification/comex_remote.h:466-504 | A flush that writes each page to its own number keeps coherence |
| `RingTurns.FetchHarmlessIff` | Kernel Modification/comex_remote.h:272-305 | Exact condition for a fetch the read path makes: after it, whatever is stored next without a false join, with flushes where the code has them, all reads of held pages return the latest data if and only if no page of the line was being filled or waited in the ring with data remote memory lacked |
| `RingTurns.UnsettledFetch` | Kernel Modification/comex_remote.h:272-305 | For every ring, every fetch that breaks the condition is followed by stores after which a held page is read with old data |
| `ReadPath.FetchKeeps` | Kernel Modification/comex_remote.h:272-305 | A fetch of a line with no page in the ring keeps coherence |
| `RingTurns.UnsettledExample` | Kernel Modification/comex_remote.h:272-305 | A concrete state in which this happens: page 0 was stored and flushed, page 1 waits in the ring, page 0 is read; giving page 1 back breaks the condition below |
| `RingTurns.ReleaseHarmlessIff` | Kernel Modification/swap_state.c:478 | Exact condition for giving a page back: whatever the borrower stores afterwards without a false join, what the next holder wrote stays in remote memory if and only if the page is not in the ring |
| `RingTurns.DrainTo` | Kernel Modification/comex_remote.h:97-146 | Every entry of every ring gets out by further stores, with the flush of a full ring and after every 32nd slot only, and is then written to its page |
| `RingTurns.DrainsCoherent` | Kernel Modification/comex_remote.h:97-146 | Stores without false joins keep coherence |
| `RingTurns.DrainsElsewhere` | Kernel Modification/comex_remote.h:97-146 | Stores without false joins leave pages alone that are not in the ring and not taken again |
| `ReadPath.ForeignKeeps` | Kernel Modification/comex_remote.h:466-504 | Writes of other borrowers to pages they hold keep coherence |
| `ReadPath.InitialCoherent` | Kernel Modification/comex_lib.h:53-69 | The store of a borrower that holds nothing yet is coherent |
| `ReadPath.RunCoherent` | Kernel Modification/comex_remote.h:89-305 | Coherence in every state of every run of safe steps |
| `ReadPath.RunReadsLatest` | Kernel Modification/swap_state.c:461-472 | In every run of safe steps every read of a held page returns the last data written to it |
| `RingTurns.StalePrefetch` | Kernel Modification/comex_remote.h:272-305 | The smallest case: p waits in the ring, a neighbour of p is fetched, and after the flush p is read with old data |
| `RingTurns.LostForeignWrite` | Kernel Modification/swap_state.c:478 | For every ring that holds the page at any place, further stores overwrite what its next holder wrote |
| `Borrower.AskForPages` | Kernel Modification/comex_remote.h:99-108 | A request goes out exactly when the queue is at the threshold and the back-off has run out; the back-off is then 10000, else one less |
| `Borrower.MakeRoom` | Kernel Modification/comex_remote.h:110-112 | After the flush of a full ring the tail slot is free, unless the oldest page is still being filled |
| `Borrower.PutPage` | Kernel Modification/comex_remote.h:117-137 | The next granted page goes to the end of the ring with the data, and leaves the prefetch table |
| `Borrower.PutAndFlush` | Kernel Modification/comex_remote.h:117-139 | The same, and a flush after it exactly when the slot filled is a nonzero multiple of 32; otherwise the window only grows and remote memory is unchanged |
| `Borrower.StorePage` | Kernel Modification/comex_remote.h:97-146 | Succeeds exactly when a page is granted and the ring has or gets room. A ring with room takes the page at its end and writes nothing, unless the slot is a nonzero multiple of 32: then the batch from the head is written and gone. A full ring is flushed first, and what was stored is then as StoreWhenFull says; without success only the flush that makes room has happened |
| `Borrower.StoreWithRoom` | Kernel Modification/comex_remote.h:117-141 | A store into a ring with room flushes at nonzero multiples of 32 only, and then the whole batch from the head |
| `Borrower.StoreWhenFull` | Kernel Modification/comex_remote.h:110-141 | A store into a full ring first writes the batch from the head out, and then goes on in the ring that is left |
| `Borrower.FillMeans` | Kernel Modification/comex_remote.h:131-141 | What filling a slot does to window and remote memory, with the flush after every nonzero multiple of 32 |
| `Borrower.ReadPage` | Kernel Modification/swap_state.c:468-472 | Returns the data of a ready slot, else of the prefetch entry, else of remote memory, and fetches a line only in the last case |
| `Borrower.ReadPageReads` | Kernel Modification/swap_state.c:468-472 | What ReadPage returns is a read of the read-path model, so coherence makes it the latest data |
| `Borrower.GrantedFlush` | Kernel Modification/comex_remote.h:466-504 | A ring that carries pages of grants that meet the condition is flushed page for page to the right numbers |
| `Borrower.RingCarries` | Kernel Modification/comex_remote.h:117-127 | The ring carries granted pages in arrival order, and its head is where the stream says |
| `Borrower.GrantsMakeFaithful` | Kernel Modification/comex_remote.h:97-146 | So when the grants that arrived meet the condition for the size of the ring, its flush writes each page to its own number |
| `Borrower.GrantedStore` | Kernel Modification/comex_remote.h:97-146 | Both flushes of a store are faithful when the ring and the stored page come from such grants |
| `Borrower.GrantedStoreThenRead` | Kernel Modification/swap_state.c:461-472 | On such grants a store keeps coherence and a later read returns what was stored |
| `Borrower.StoreRefines` | Kernel Modification/comex_remote.h:97-146 | What StorePage does is a run of model steps that makes the data the latest of its page and touches no other node |
| `Borrower.StoreKeeps` | Kernel Modification/comex_remote.h:97-146 | A store whose two flushes are faithful keeps coherence |
| `Borrower.StoreThenRead` | Kernel Modification/swap_state.c:461-472 | A read after a store returns what was stored, wherever the page is by then |
| `Borrower.StoreIsTurns` | Kernel Modification/comex_remote.h:97-146 | Stores without a false join are the turns that the exact conditions for fetches and releases speak of |
| `Cluster.StartSound` | Kernel Modification/comex_lib.h:15-77 | The system at start-up, with nothing lent or written, satisfies the invariant |
| `Cluster.TakenIsNew` | Kernel Modification/comex_remote.h:117-123 | The page a borrower takes next is neither in use by it, nor in its ring, nor one it wrote to, so its slot may be reserved |
| `Cluster.FlushWritesOwn` | Kernel Modification/comex_remote.h:466-504 | One writer per page: a flush without false joins changes only remote pages its borrower holds, and nobody else has them queued, in use, pending, on a message, free or local |
| `Cluster.FlushSparesOthers` | Kernel Modification/comex_remote.h:466-504 | So the flush of one borrower leaves what every other borrower reads as it was |
| `Cluster.MoveSound` | Kernel Modification/comex_remote.h:97-305 | Every step of protocol, rings, prefetch tables and remote memories keeps: single ownership, the pages a borrower wrote to or has in its rings in use by it, and coherence for every borrower |
| `Cluster.RunSound` | Kernel Modification/comex_remote.h:97-305 | The same in every state of every careful run, for any number of nodes |
| `Cluster.EveryoneReadsTheirWrites` | Kernel Modification/swap_state.c:461-478 | From start-up on, in every run of any number of nodes without false joins in flushes, fetches of unsettled lines and releases of pages in the ring, every borrower reads from each page it wrote to what it last wrote |
| `Cluster.ReadServed` | Kernel Modification/swap_state.c:461-478 | A read is never stuck: a page written to is in the ring, in the table, or a fetch is possible after which it hits |
| `Cluster.WriteServed` | Kernel Modification/comex_remote.h:117-137 | Nor is a write: the next granted page can be taken and filled, and is then the latest data of its page |
| `SwapDigits.FlagBit` | Kernel Modification/swapfile.c:2257 | The continuation flag is bit 7 of the byte |
| `SwapDigits.DigitBits` | Kernel Modification/swapfile.c:2257 | The digit is the byte with the flag masked off |
| `SwapDigits.CacheFlag` | Kernel Modification/swapfile.c:577 | The cache flag is bit 6 of the byte |
| `SwapDigits.CountBits` | Kernel Modification/swapfile.c:71-74 | The count is the byte with the cache flag masked off |
| `SwapDigits.NormalPositive` | Kernel Modification/swapfile.c:2513-2519 | A number in normal form is positive, so a borrow always finds a nonzero digit |
| `SwapDigits.TailIgnored` | Kernel Modification/swapfile.c:2495 | Bytes behind the last digit, such as those of a page that was never zeroed, do not matter |
| `SwapDigits.IncrementAddsOne` | Kernel Modification/swapfile.c:2479-2506 | A carry of any length adds exactly one and keeps the normal form |
| `SwapDigits.DecrementTakesOne` | Kernel Modification/swapfile.c:2508-2533 | A borrow of any length subtracts exactly one, and says exactly whether anything is left |
| `SwapDigits.WalkStops` | Kernel Modification/swapfile.c:2483-2488 | The walk over full or zero digits never runs off the list of pages |
| `SwapDigits.IncrementByPosition` | Kernel Modification/swapfile.c:2479-2506 | The carry in terms of the position where the walk stops |
| `SwapDigits.DecrementByPosition` | Kernel Modification/swapfile.c:2508-2533 | The borrow in terms of the position where the walk stops |
| `SwapDigits.CountUp` | Kernel Modification/swapfile.c:2257-2264 | All three cases of duplicate raise the whole count d0 + 63*(d1 + 128*(...)) by one and keep its normal form |
| `SwapDigits.CountDown` | Kernel Modification/swapfile.c:589-597 | Both cases of free lower the whole count by one and keep its normal form; the count is 0 only for the byte 0 |
| `SwapDigits.PageMakesRoom` | Kernel Modification/swapfile.c:2441 | One more page, whatever its bytes, makes a failing carry succeed |
| `SwapDigits.NoRoomIff` | Kernel Modification/swapfile.c:2483-2491 | A carry finds no room exactly when every digit on every continuation page is full |
| `SwapPages.FindStop` | Kernel Modification/swapfile.c:2483-2518 | The pointer walk ends at the first digit that differs, inside the list |
| `SwapPages.PutCarry` | Kernel Modification/swapfile.c:2495-2505 | Writing back towards the head produces the carried number and touches no other offset |
| `SwapPages.CarryIn` | Kernel Modification/swapfile.c:2479-2506 | Adds one to the column, or reports that a page is missing and changes no byte |
| `SwapPages.CarryAt` | Kernel Modification/swapfile.c:2489-2506 | The same from the digit where the walk stopped |
| `SwapPages.PutBorrow` | Kernel Modification/swapfile.c:2519-2531 | Writing back towards the head produces the borrowed number and touches no other offset |
| `SwapPages.BorrowBack` | Kernel Modification/swapfile.c:2524-2531 | The digits in front of the one borrowed from become full, with the flags of the number that is left |
| `SwapPages.BorrowOut` | Kernel Modification/swapfile.c:2508-2533 | Subtracts one from the column and reports whether it still holds more |
| `SwapPages.StartColumn` | Kernel Modification/swapfile.c:2476-2497 | Starts the column at 1, whatever the first page held, and touches no other offset |
| `SwapFile.SwapInfo.constructor` | Kernel Modification/swapfile.c:1940-2009 | A device as swapon leaves it satisfies both invariants: all good entries free, bounds and counters right |
| `SwapFile.SwapInfo.CountContinued` | Kernel Modification/swapfile.c:2459-2534 | The three uses of the carry and borrow loops; every other offset, also those sharing the pages, is untouched |
| `SwapFile.SwapInfo.CountMapping` | Kernel Modification/swapfile.c:2255-2264 | Counts one more, or fails with the exact error and changes no digit |
| `SwapFile.SwapInfo.Duplicate` | Kernel Modification/swapfile.c:2236-2268 | The cache reference is granted exactly when the entry is in use without it, EEXIST exactly when it has it, ENOENT exactly for byte 0, EINVAL exactly for digits above 62 of a mapping, ENOMEM exactly when the carry needs a page; on success the count rises by exactly 1, or the cache or shmem mark is set; nothing changes on failure; other entries untouched |
| `SwapFile.SwapInfo.NewCount` | Kernel Modification/swapfile.c:2236-2266 | The same answers, and the two parts of the byte to be written, before it is written |
| `SwapFile.SwapInfo.StuckIff` | Kernel Modification/swapfile.c:2255-2264 | The carry of an entry needs a page exactly when the specification of the count says so |
| `SwapFile.NeedsPageIff` | Kernel Modification/swapfile.c:2255-2264 | A page is needed exactly when the low digit is 62 and there is no page behind it, or all digits on all its pages are full |
| `SwapFile.SwapInfo.OthersSameMeans` | Kernel Modification/swapfile.c:2267 | Entry by entry: byte, continuation bytes and count of every other offset are as they were |
| `SwapFile.SwapInfo.DuplicateEntry` | Kernel Modification/swapfile.c:2216-2278 | The same for entries of any type: types 8 and 9 succeed and change nothing, types without a device and offsets past its end are invalid and change nothing |
| `SwapFile.SwapInfo.ScanPages` | Kernel Modification/swapfile.c:2419-2441 | The scan reaches the end of the page list exactly when the carry needs a page |
| `SwapFile.SwapInfo.AddContinuation` | Kernel Modification/swapfile.c:2358-2449 | No count changes; -ENOMEM exactly when no page was got and the low digit is full; with a page the next carry has room; one page is attached, to the list of that map page alone, exactly when one is needed and got |
| `SwapFile.SwapInfo.Attach` | Kernel Modification/swapfile.c:2441 | A page with arbitrary bytes joins the end of one list, the other lists are as they were, and no count changes |
| `SwapFile.SwapInfo.DuplicateTurn` | Kernel Modification/swapfile.c:2300-2301 | A turn either finishes, or found the carry without a page and provided one with every count unchanged |
| `SwapFile.SwapInfo.SwapDuplicate` | Kernel Modification/swapfile.c:2296-2303 | Retry progress: terminates for every entry; -ENOMEM exactly when the carry needed a page and none was got, and then no byte or count changed; otherwise an entry in use is counted exactly once more; unused, bad and foreign entries are left as they are |
| `SwapFile.SwapInfo.DropMapping` | Kernel Modification/swapfile.c:583-597 | Counts one less through borrows of any length; shmem entries drop to 0, bad ones stay |
| `SwapFile.SwapInfo.EntryFree` | Kernel Modification/swapfile.c:569-624 | The count falls by exactly 1; a slot with no reference left becomes free with bounds and inuse_pages right; other entries untouched |
| `SwapFile.SwapInfo.DropReference` | Kernel Modification/swapfile.c:576-603 | The same for the count alone: exactly the byte of the offset and its own continuation bytes change |
| `SwapFile.SwapInfo.Settle` | Kernel Modification/swapfile.c:605-621 | The bounds widen to the freed offset and inuse_pages falls exactly when the slot became free |
| `SwapFile.TakeKeepsFacts` | Kernel Modification/swapfile.c:310-320 | Taking a slot keeps every free offset between the bounds and inuse_pages the number of used good entries |
| `SwapFile.FreeKeepsFacts` | Kernel Modification/swapfile.c:605-613 | Freeing a slot keeps the same facts |
| `SwapFile.ChangeKeepsFacts` | Kernel Modification/swapfile.c:602-603 | Changing the count of a slot in use keeps the same facts |
| `SwapFile.UsedBelowGood` | Kernel Modification/swapfile.c:315-318 | All good entries are used exactly when no entry is free, which is when the bounds are closed |
| `SwapFile.ClosedBounds` | Kernel Modification/swapfile.c:290-291 | highest_bit is 0 exactly when no entry is free |
| `SwapFile.RunsInBounds` | Kernel Modification/swapfile.c:242-270 | Every run of 256 free entries lies between the bounds searched |
| `SwapFile.ScanFailed` | Kernel Modification/swapfile.c:378-408 | When both passes fail, the only free entry is lowest_bit, below the start of the scan |
| `SwapFile.OverlookedExample` | Kernel Modification/swapfile.c:394-395 | Counterexample to completeness, with the slot steps from a new device of four entries that lead to it: entry 1 is free and the scan from 3 answers 0 |
| `SwapFile.OverlookedRun` | Kernel Modification/swapfile.c:187-408 | The same run on a device, by scans and releases: at its end entry 1 is free, both invariants hold, and the scan answers 0 |
| `SwapFile.BoundsMeet` | Kernel Modification/swapfile.c:290-293 | With highest_bit nonzero the bounds are in order and inside the map |
| `SwapFile.SwapInfo.TakeSlot` | Kernel Modification/swapfile.c:310-320 | A free offset becomes used and both invariants are kept |
| `SwapFile.SwapInfo.TakeBounds` | Kernel Modification/swapfile.c:310-318 | How the bounds and the counter move |
| `SwapFile.SwapInfo.FindCluster` | Kernel Modification/swapfile.c:242-258 | Finds the first run of 256 free entries within the range, and misses none |
| `SwapFile.SwapInfo.StartScan` | Kernel Modification/swapfile.c:207-285 | Without a cluster search, and when none is found, the scan starts at cluster_next, on a rotating disk after a vain search at lowest_bit; a search takes the first run of 256 free entries, on solid-state devices seen from cluster_next and then from lowest_bit; exactly how cluster_next and cluster_nr move |
| `SwapFile.SwapInfo.NextFree` | Kernel Modification/swapfile.c:380-408 | Finds the first free entry of the range searched, and misses none |
| `SwapFile.SwapInfo.PickSlot` | Kernel Modification/swapfile.c:287-414 | Which free entry is picked: the start, the first one up to highest_bit, or the first one behind lowest_bit; 0 exactly when the device is not writable, highest_bit is 0, or the only free entry is lowest_bit below the start of the scan |
| `SwapFile.SwapInfo.ChooseSlot` | Kernel Modification/swapfile.c:207-408 | The search alone: the entry found is the one ScanMeans says, 0 when the device is not writable, and exactly how cluster_nr moves |
| `SwapFile.SwapInfo.ScanSwapMap` | Kernel Modification/swapfile.c:187-414 | Which free entry is taken, and that it alone changes: without a cluster search a free entry at cluster_next is the answer, and in every case it is the one ScanMeans says; 0 when the device is not writable; bounds and counters move exactly; both invariants kept |
| `SwapFile.ScanMeans` | Kernel Modification/swapfile.c:207-408 | The answer of a scan entry by entry: a search takes the first run of 256 free entries, on solid-state devices seen from cluster_next and then in front of it, on rotating disks from lowest_bit; else the first free entry seen from the start up to highest_bit, then behind lowest_bit; 0 exactly when no entry is free or the only free one is lowest_bit below the start |
| `SwapFile.SwapInfo.TakeFound` | Kernel Modification/swapfile.c:310-325 | The entry found, if any, becomes used, cluster_next moves behind it, and nothing else changes but bounds and counters |

## Left out

- RDMA verbs, connection set-up, completion handlers, `/proc` and debugfs commands, checksums, `printk`
  and workqueue mechanics: I/O around the modelled logic.
- The loop of `COMEX_move_to_Remote` over destinations, `COMEX_hash` and the `trylock`: the model stores
  on one given node.
- `ID_to_CB`: a node and the connection to it are the same number here.
- Allocation failure inside handlers (`kzalloc`, `vmalloc`).
- The second test of `do_write` and `do_read`, on the number of remote buffers of a connection.
- Races inside one flush, and prefetch reads without the lock: steps are atomic.
- The supply of pages to store: a run that goes on storing takes further pages as if they were granted.
- Agreement of local and remote addresses of the same page number: local access uses the base as it
  is, remote access a base rounded up to 4 MB. Remote memory is a map from page numbers here.
- The back-off between requests is modelled (`AskForPages`, `PageReceive`), but the protocol allows a
  request at any time.
- C integer widths: `short` ring positions and run counts and the `char` group size are unbounded here;
  run counts are proved to stay at or below 16383.
- `COMEX_flush_one` and `COMEX_read_from_remote_one`, which nothing in the modelled path calls.
- The `nodeID` of a ring slot: each ring belongs to one node.
- PageFree.HandlePageFree: works on its own copy of the arrays of the message, as the work item does;
  the freed copy is not written back. It is sequential; `FrontHeld` covers other steps between its frees.
- Lender.PagesRequest: sequential; with other steps between its tries the protocol only promises that each
  try takes a free block of its order or finds none.
- FreeLists.ListTable.Delete: list nodes are named by index, pages first and the eleven heads behind
  them, where the code has pointers.
- SwapFile.SwapInfo.ScanSwapMap: sequential, so what other tasks do while the scan has dropped the lock
  is not captured; discarding clusters and reclaiming cache-only entries are left out.
- SwapFile.SwapInfo.Duplicate: asks of the shmem usage that no mapping of the entry was counted yet, the
  state of an entry just allocated; otherwise the byte addition would wrap around.
- SwapFile.SwapInfo.DuplicateEntry: models one device; migration and other non-swap entries are left out.
- SwapFile.SwapInfo.EntryFree: asks that the reference dropped exists, as its callers do.
- SwapFile.SwapInfo.AddContinuation: the list of continuation pages is a sequence of distinct arrays;
  only their bytes are changed in place. Whether a page could be allocated is a parameter.
- SwapFile.SwapInfo.constructor: stands for the state swapon leaves, with `cluster_next` at 1; the random
  start on solid-state devices, and swapon and swapoff themselves, are left out.
- Lifetime of swap-cache pages and page-table entries: who may fault or zap an entry.
