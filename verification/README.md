# Verified models of mdepx

This project models the hardest parts of mdepx, a small real-time operating
system written in C, in Dafny 4.11 and proves what they are meant to keep. One
command checks everything: `dafny verify dfyconfig.toml`.

* **The lock-free ring** (`include/sys/buf_ring.h`): every load, store and
  compare-and-set of any number of threads is one step of a transition system
  (`BufRing`). Every reachable state keeps the order of the four counters; the
  values that leave are a prefix of the values published; each call, also a
  failed one, takes effect at one instant inside the call. `BufRing32` shows
  which accesses survive the wrapping 32-bit counters of the source, and which
  do not; `BufRing32Runs` builds the unbounded run behind every run of the
  32-bit ring and reads both results back in words. On a ring at rest every call
  ends, with the reply that the ring calls for (`BufRingAlone`).
* **The allocator** (`kernel/malloc/mdx_freelist.c`): a class over headers in
  memory, one chain through 32 buckets and payload bytes. Blocks tile their
  regions, no two free blocks touch, the chain holds exactly the free blocks in
  ascending order, so that the search is global best fit; `realloc` keeps the
  common prefix and everyone else's bytes. Each call frees exactly the bytes of
  the pointer given up and takes exactly those of the pointer handed out, as many
  as were asked for (`FreeListAccount`); after every sequence of calls the
  pointers in use are those returned and not given up.
* **Red-black and splay trees** (`include/sys/tree.h`): classes over nodes in
  memory with the pointer writes of the macros, proved against trees with a
  marked place. Insertion and removal keep the search order, the black height
  and the colour rule, and change the order by exactly one element; a splay
  keeps the order and brings the key, or a neighbour of it, to the root.
* **Callouts** (`kernel/callout`): the delta queue refines a list of absolute
  deadlines; no callout fires early in any run, over any number of wraps of the
  counter, exactly when the request fits a 32-bit word; in punctual runs the
  interrupt is never armed later than the earliest deadline and each callback
  fires exactly what is due.
* **List and FIFO** (`include/sys/list.h`, `kernel/sched/mdx_fifo.c`): rings of
  linked objects proved against sequences, and the semaphore-guarded FIFO as
  interleaved steps down to each pointer write, which only its lock keeps apart;
  every reply is traced to what its call did (`FifoCalls`).
* **Virtio receive queue** (`dev/virtio`): driver and device as interleaved
  accesses to the shared rings, with a device that batches; every buffer is in
  exactly one place, no entry is overwritten before the device has taken it, and
  each packet returned is the next one from the device (`VirtioCalls`).

What stands for what: node and block addresses are natural numbers with 0 for
NULL; pointers have 8 bytes, so that an allocator header has 24; memory is a map
from addresses to records; time, counter readings and the
moves of other threads or of the device are parameters or steps. Integers are
unbounded except where the source's width matters: there the wrap is written
out (32-bit ring counters and callout ticks, 16-bit virtqueue indices, the
64-bit product of `mdx_cputime.c`, the `size_t` sum in `malloc`).

Where the code does less than one may expect, the model follows the code:

* A comparison of the ring takes the wrong branch exactly when the counter has
  moved on by a positive multiple of 2^32 since the snapshot
  (`BufRing32.CompareExact`). A dequeue then claims a slot of an empty ring
  (`BufRing32.DequeueClaims`), an enqueue one of a full ring
  (`BufRing32.EnqueueClaims`). `BufRing32Stale` has a run from the allocated ring
  for each: one in which a buffer more is returned than was enqueued, and one
  after which a ring with one usable slot holds two elements and counts none.
  Calls that end within 3 * 2^30 steps of all threads never meet this
  (`BufRing32Runs.PromptIsFresh`).
* `malloc` and `realloc` add the header in `size_t`. The block
  computed for a request holds it exactly when that sum does not wrap
  (`FreeList.RequestFits`). The seven largest sizes are served as requests of 8
  bytes (`FreeList.ServedAs`), so that `malloc` hands out a block of at most 56
  (`FreeList.Zone.Malloc`); those just below leave no room for a header
  (`FreeList.CarveKeepsBlocks`).
* A callout can fire early when the requested ticks and the ticks elapsed since
  the counter was saved do not fit 32 bits together
  (`CalloutRuns.EarlyIffOverflow`, `CalloutRuns.OverflowExample`).
* `get_elapsed` counts a period of `maxcnt` ticks. For a counter that starts
  over after `maxcnt + 1` it is one tick short per wrap: within a period it is
  exact if and only if the period is `maxcnt` or no wrap falls between the save
  and the reading (`CalloutClock.SeenIsTrueTime`, `CalloutExact.OneTickLate`).
* On a counter that starts over at `maxcnt`, `get_elapsed` sees no time pass over
  a whole period, which is the longest that `mi_tmr_start` arms. The callback
  that it arms fires the first callout if and only if that was due in less than
  `maxcnt` ticks (`CalloutStuck.OnTimeFires`); otherwise nothing changes, and with
  every callback on time the callout never fires (`CalloutStuck.NeverFires`).
* `SLOF_alloc_mem_aligned` does not pass on a failed `malloc`
  (`VirtioInit.FailureHidden`).

## Model

| member | source | states |
|---|---|---|
| `BufRingSafety.StepKeepsInv` | include/sys/buf_ring.h:75-304 | every access of every operation by any thread, under any interleaving, keeps the ring invariant: counters in order, each published and unclaimed ticket still in its slot, no ticket owned twice |
| `BufRingSafety.RunInv` | include/sys/buf_ring.h:75-304 | the invariant holds in every state of every run, including the path where a stale full test falls through into the compare-and-set |
| `BufRingSafety.CountersInOrder` | include/sys/buf_ring.h:96-135 | in every reachable state cons_tail <= cons_head <= prod_tail <= prod_head <= cons_tail + size - 1 |
| `BufRingSafety.HistoriesMatch` | include/sys/buf_ring.h:75-186 | what was published and what was returned are exactly the buffers of the completed enqueues and dequeues, in ticket order |
| `BufRingSafety.FirstInFirstOut` | include/sys/buf_ring.h:75-186 | in every interleaving what dequeues return is a prefix of what enqueues published: nothing lost, doubled, overwritten early or read before it is written |
| `BufRingLinear.StepApplies` | include/sys/buf_ring.h:75-304 | each step changes the abstract queue by its effect alone: nothing, a push at the back, a pop at the front, or a replacement of the front |
| `BufRingLinear.NoBufsExplained` | include/sys/buf_ring.h:107-117 | when enqueue returns ENOBUFS there was an instant inside the call with all size - 1 slots claimed |
| `BufRingLinear.EmptyExplained` | include/sys/buf_ring.h:159-166 | when a dequeue or peek returns NULL there was an instant inside the call with nothing published and unclaimed |
| `BufRingLinear.ReplyExplained` | include/sys/buf_ring.h:75-304 | linearizability: every reply of every call is explained by exactly one effect at one instant between invocation and return, or by an instant at which the ring was full or empty |
| `BufRingSingle.OthersKeepFront` | include/sys/buf_ring.h:287-304 | with one consumer, no step of a producer changes the front element |
| `BufRingSingle.PeekedIsTaken` | include/sys/buf_ring.h:193-304 | after a peek returned b, an advance removes exactly b and a dequeue removes and returns exactly b, whatever producers do meanwhile |
| `BufRingSingle.DequeueIsPeekAdvance` | include/sys/buf_ring.h:193-304 | with no producer in between, from every state of every run in which the consumer is between calls, dequeue_sc leaves the memory that peek and advance leave, and returns what the peek returned |
| `BufRingAlone.AtRest` | include/sys/buf_ring.h:120-182 | in every state of every run with no call under way, heads and tails have met: each claimed ticket belongs to some thread |
| `BufRingAlone.EnqueueAlone` | include/sys/buf_ring.h:96-137 | on a ring at rest an uninterrupted enqueue ends: with ENOBUFS and no change if and only if the ring is full, else with the buffer at the end of the queue |
| `BufRingAlone.DequeueAlone` | include/sys/buf_ring.h:153-185 | on a ring at rest an uninterrupted dequeue_mc ends: with NULL and no change if and only if the ring is empty, else with the front, which it takes off |
| `BufRingAlone.PutbackAlone` | include/sys/buf_ring.h:271-280 | an uninterrupted put-back replaces the front of the queue |
| `BufRing32.MaskIsSlot` | include/sys/buf_ring.h:121-126 | masking with 2^k - 1 is the remainder by 2^k, for every word |
| `BufRing32.MaskedSlot` | include/sys/buf_ring.h:46-54 | masking a wrapped counter selects the slot of the unbounded ticket, for every power-of-two size |
| `BufRing32.AccessSimulates` | include/sys/buf_ring.h:75-304 | each access on 32-bit counters, with its signed full test, equality tests and masks, is the access on unbounded tickets seen modulo 2^32, while no compared counter is a positive multiple of 2^32 ahead of its snapshot |
| `BufRing32.QueriesAgree` | include/sys/buf_ring.h:335-357 | full, empty and count on wrapped counters give the unbounded answers |
| `BufRing32.CompareExact` | include/sys/buf_ring.h:112-167 | each of the five accesses that compare a snapshot takes the branch that the tickets call for if and only if the counter has not wrapped onto the snapshot |
| `BufRing32.DequeueClaims` | include/sys/buf_ring.h:167 | the compare-and-set of a dequeue claims only an element that is there, if and only if the ring is not empty with its head wrapped onto the snapshot |
| `BufRing32.EnqueueClaims` | include/sys/buf_ring.h:120 | the compare-and-set of an enqueue claims only a slot that is free, if and only if the ring is not full with its head wrapped onto the snapshot |
| `BufRing32Runs.WrappedRunRefines` | include/sys/buf_ring.h:75-304 | every run of the 32-bit ring whose comparisons meet no counter wrapped onto its snapshot has a run of the unbounded ring behind it, state by state, that is constructed |
| `BufRing32Runs.FirstInFirstOut32` | include/sys/buf_ring.h:75-186 | in every such run of the 32-bit ring what dequeues return is a prefix of what enqueues published, and fewer elements are in the ring than it has slots |
| `BufRing32Runs.StepApplies32` | include/sys/buf_ring.h:75-304 | each step of such a run changes the queue that the words describe by its effect alone |
| `BufRing32Runs.ReplyExplained32` | include/sys/buf_ring.h:75-304 | in every such run each reply is explained by one effect at one instant of its call; after ENOBUFS there was an instant with buf_ring_full, after NULL one with buf_ring_empty, both on the words |
| `BufRing32Runs.PromptIsFresh` | include/sys/buf_ring.h:96-167 | runs in which every access comes within 3 * 2^30 steps of all threads after its call began are such runs |
| `BufRing32Alone.EnqueueAlone32` | include/sys/buf_ring.h:96-137 | the same of an enqueue on words: ENOBUFS if and only if buf_ring_full holds |
| `BufRing32Alone.DequeueAlone32` | include/sys/buf_ring.h:153-185 | the same of a dequeue_mc on words: NULL if and only if buf_ring_empty holds |
| `BufRing32Stale.StaleDequeue` | include/sys/buf_ring.h:159-185 | a run from the allocated ring, with a dequeue held up before its compare-and-set, in which 2^32 + 1 buffers are enqueued and 2^32 + 2 returned |
| `BufRing32Stale.StaleEnqueue` | include/sys/buf_ring.h:107-137 | a run from the allocated ring, with an enqueue held up before its compare-and-set, after which a ring with one usable slot holds two elements and buf_ring_count is 0 |
| `FreeList.Size2i` | kernel/malloc/mdx_freelist.c:37-52 | the bucket whose size range holds the given size |
| `FreeList.Zone.constructor` | kernel/malloc/mdx_freelist.c:96-106 | the 32 heads are threaded into one sorted chain, and the zone is a valid empty heap |
| `FreeList.Zone.AddNode` | kernel/malloc/mdx_freelist.c:54-72 | the node joins the chain at the place that keeps it sorted by size within and across buckets |
| `FreeList.Zone.AddRegion` | kernel/malloc/mdx_freelist.c:74-94 | a region becomes one free block between two sentinels, of all its bytes but the two headers; everything else stays, with its bytes |
| `FreeList.Zone.FindFit` | kernel/malloc/mdx_freelist.c:157-161 | the search from the bucket of the request finds a smallest node of the whole chain that is large enough, or none is |
| `FreeList.Zone.Malloc` | kernel/malloc/mdx_freelist.c:140-195 | global best fit: the smallest sufficient free block is carved, NULL for a non-zero size if and only if no free block suffices; all live payload bytes stay; a size whose sum with the header wraps is served as 8 bytes, by a block of at most 56; else the block is as long as asked for and at most a header longer, and exactly its bytes stop being free |
| `FreeList.RequestFits` | kernel/malloc/mdx_freelist.c:152-155 | for every size_t the size computed for a request, header added and rounded up, covers it if and only if the sum stays below 2^64 |
| `FreeList.ServedAs` | kernel/malloc/mdx_freelist.c:152-155 | unless the computed size leaves no room for a header, a request is served as itself if and only if the sum does not wrap, and else, from 2^64 - 7 on, as one of 8 bytes |
| `FreeList.CarveKeepsBlocks` | kernel/malloc/mdx_freelist.c:169-185 | carving a free block keeps the tiling if and only if the part carved is longer than a header or the whole block is taken |
| `FreeList.Zone.Free` | kernel/malloc/mdx_freelist.c:197-248 | the pointer is no longer in use, exactly the bytes of its block become free, the free total grows by its size, all other pointers keep their blocks and bytes; merged with its free neighbours, so that no two free blocks touch |
| `FreeList.Zone.Realloc` | kernel/malloc/mdx_freelist.c:265-360 | the block returned is as long as asked for, exactly the bytes of the old block are given up and exactly those of the new one taken; the pointer stays if and only if the block and a free successor suffice, and NULL comes if and only if no other free block does either; the first min(old, new) payload bytes survive, with 8 for a new size whose sum wraps, and all other live payloads are unchanged; on failure the old block stays live and intact |
| `FreeList.Zone.Resize` | kernel/malloc/mdx_freelist.c:290-348 | resizes in place exactly when the block, or it and a free successor, are long enough; the blocks that result: shrink, shrink into a free neighbour, grow by split, grow by absorbing all |
| `FreeList.Zone.MoveBlock` | kernel/malloc/mdx_freelist.c:349-355 | allocate, copy and free: the payload arrives whole in a block long enough and the old one becomes free, or no block fits and nothing changed |
| `FreeList.Zone.Count` | kernel/malloc/mdx_freelist.c:124-138 | the sum along the chain is the total size of all free blocks |
| `FreeListChain.InsertOk` | kernel/malloc/mdx_freelist.c:54-72 | inserting between two neighbours of suitable size keeps the chain linked both ways, free of repetition and sorted |
| `FreeListChain.UnlinkOk` | kernel/malloc/mdx_freelist.c:164-167 | unlinking keeps the chain linked both ways and sorted |
| `FreeListBlocks.SpliceOk` | kernel/malloc/mdx_freelist.c:165-248 | replacing a row of blocks by parts that fit keeps the exact tiling between sentinels and the absence of adjacent free blocks |
| `FreeListBlocks.SpliceTags` | kernel/malloc/mdx_freelist.c:165-248 | and each block's prev-size tag equals its predecessor's size |
| `FreeListCount.CountIsFreeTotal` | kernel/malloc/mdx_freelist.c:124-138 | chain order and block order give the same sum of free sizes |
| `FreeListAccount.MallocExchanges` | kernel/malloc/mdx_freelist.c:157-191 | a block handed out has the length asked for, with at most a header's length more; exactly its bytes stop being free |
| `FreeListAccount.FreedAccount` | kernel/malloc/mdx_freelist.c:214-247 | a block released: its bytes and no others become free, whether or not neighbours are merged |
| `FreeListAccount.ReallocRegrows` | kernel/malloc/mdx_freelist.c:290-355 | a block resized or moved: how long it is then, which bytes are free, when it stays and when there is none |
| `FreeListRuns.StepExchanges` | kernel/malloc/mdx_freelist.c:140-360 | the same of every call of a run |
| `FreeListRuns.LiveExactly` | kernel/malloc/mdx_freelist.c:140-360 | after every sequence of calls from an unused heap the pointers in use are exactly those returned and not given up since |
| `FreeListRuns.FreeExactlyRest` | kernel/malloc/mdx_freelist.c:140-360 | and what is free and what they hold is exactly what was free at first, each byte once |
| `FreeListRuns.StepConserves` | kernel/malloc/mdx_freelist.c:140-360 | each malloc, free or realloc keeps free plus allocated bytes and the alignment of all blocks |
| `FreeListRuns.RunConserves` | kernel/malloc/mdx_freelist.c:124-360 | over every sequence of calls the free count plus the allocated non-sentinel bytes is constant |
| `FreeListRuns.ReplyAligned` | kernel/malloc/mdx_freelist.c:74-94 | over every sequence of calls from aligned regions each returned pointer is 16-byte aligned and the payload of a block in use, although the last block of a region may have any size |
| `FreeListRuns.RegionAligned` | kernel/malloc/mdx_freelist.c:74-94 | a region with a 16-byte aligned base starts out aligned, whatever its size |
| `FreeListRuns.LivePayloadsApart` | kernel/malloc/mdx_freelist.c:140-360 | after every sequence of calls the blocks of two pointers in use, and so their payloads, are disjoint |
| `RbTree.Head.RotateLeft` | include/sys/tree.h:342-360 | the pointer writes turn the marked subtree left in place and keep the whole order, every key and every other link |
| `RbTree.Head.RotateRight` | include/sys/tree.h:362-380 | the same to the right |
| `RbHeap.AtPlug` | include/sys/tree.h:342-380 | memory holds a tree with any of its places marked exactly when it holds the whole tree |
| `RbTree.Head.InsertColor` | include/sys/tree.h:439-482 | from a tree whose only fault is a red node below a red one, the climbing loop ends in a red-black tree with the same order |
| `RbTree.Head.Insert` | include/sys/tree.h:631-661 | returns NULL if and only if no node has the key; then the order is the old one with exactly the new node at its sorted place, else nothing changes and the node with the key is returned; search order, colour rule and black height are kept |
| `RbTree.Head.RemoveColor` | include/sys/tree.h:484-561 | from a tree that is one black node short at one place, the climbing loop ends in a red-black tree with the same order |
| `RbBalance.SiblingIsNode` | include/sys/tree.h:491-495 | the sibling that the loop dereferences is never NULL |
| `RbTree.Head.Remove` | include/sys/tree.h:563-629 | the order loses exactly the element of the node, for no, one or two children; colour rule and black height are kept, no key changes |
| `RbTree.Head.RemoveTwo` | include/sys/tree.h:572-609 | splicing out the successor and copying the fields leaves a tree whose order lacks exactly the removed node |
| `RbTree.Head.Find` | include/sys/tree.h:663-680 | returns the node with the key, and NULL if and only if there is none |
| `RbTree.Head.NFind` | include/sys/tree.h:682-702 | returns the first node in order whose key is not below the given one |
| `RbTree.Head.Next` | include/sys/tree.h:704-725 | returns the node that follows in order, NULL after the last |
| `RbTree.Head.Prev` | include/sys/tree.h:727-748 | returns the node that precedes in order, NULL before the first |
| `RbTree.Head.MinMax` | include/sys/tree.h:750-764 | returns the first or the last node in order |
| `RbTree.Head.Reinsert` | include/sys/tree.h:766-782 | with one key out of place, the tree is valid again: the node is back at its place, or a node with the same key is returned and it stays out |
| `RbBalance.HeightBound` | include/sys/tree.h:439-629 | in a red-black tree of n nodes no way down is longer than 2 log2(n + 1) |
| `RbShape.PlugRedBlack` | include/sys/tree.h:439-561 | a subtree and what lies above it make a red-black tree if and only if black counts and colours agree where they meet |
| `Splay.Head.RotateRight` | include/sys/tree.h:88-92 | the right rotation of the middle tree, with the two side trees untouched |
| `Splay.Head.LinkToRight` | include/sys/tree.h:100-104 | the root and its right subtree move to the open end of the right tree |
| `Splay.Head.Assemble` | include/sys/tree.h:112-117 | closes the side trees under the root; the order is left tree, middle, right tree |
| `Splay.Head.Splay` | include/sys/tree.h:209-242 | ends, keeps the order and all keys, writes no node outside the tree, and leaves a root with only smaller keys left and only larger keys right of the searched key |
| `Splay.Head.Find` | include/sys/tree.h:128-137 | returns the node with the key if and only if there is one |
| `Splay.Head.Insert` | include/sys/tree.h:164-186 | the order gains exactly the new node, which becomes the root; a node with the same key is returned instead |
| `Splay.Head.Remove` | include/sys/tree.h:188-207 | the order loses exactly the element with the key, if there is one |
| `SplayShape.RootedHasKey` | include/sys/tree.h:209-242 | after a splay the root has the key exactly when any node has |
| `CalloutSpec.InsertedDues` | kernel/callout/mdx_callout.c:209-254 | inserting into the delta queue is inserting into the list of absolute deadlines: no other deadline changes |
| `CalloutSpec.PlacedInMeans` | kernel/callout/mdx_callout.c:226-236 | the place is behind all that are due no later and before all that are due later |
| `CalloutSpec.DroppedDues` | kernel/callout/mdx_callout.c:331-350 | cancelling removes one deadline and changes no other |
| `CalloutSpec.WalkDues` | kernel/callout/mdx_callout.c:392-407 | the walk of the callback fires exactly the callouts that are due and keeps the exact time of the rest |
| `CalloutClock.BaseIs` | kernel/callout/mdx_callout.c:117-145 | what get_elapsed loses of the true time: whole periods, and one tick per wrap of a counter that runs to maxcnt inclusive |
| `CalloutClock.BaseGrows` | kernel/callout/mdx_callout.c:117-145 | lost time stays lost, so measured time never runs ahead of true time |
| `CalloutClock.SeenIsTrueTime` | kernel/callout/mdx_callout.c:131-139 | within one period get_elapsed is the true time if and only if the counter starts over at maxcnt or has not started over since the save; else it is one tick short |
| `Callout.Timer.Set` | kernel/callout/mdx_callout.c:256-283 | refused if and only if active; fired on the spot for zero ticks; else queued by the step that the run theorems are about, its fired mark as it was; no other callout changes more than its ticks; active exactly the queued callouts |
| `Callout.Timer.Enqueue` | kernel/callout/mdx_callout.c:226-239 | the walk that counts down the callout's ticks puts it where the deadline list has it |
| `Callout.Timer.Cancel` | kernel/callout/mdx_callout.c:331-350 | refused if and only if not active; else unlinked with its delta handed to the next, its fired mark as it was |
| `Callout.Timer.Ticks` | kernel/callout/mdx_callout.c:152-194 | max(0, deadline minus measured now), 0 when not active |
| `Callout.Timer.Callback` | kernel/callout/mdx_callout.c:368-421 | the fired callouts are a prefix of the queue, in order; each is marked fired and inactive with no ticks left, no other changes more than its ticks; the rest, the saved count, the state and the timer are those of the callback step |
| `CalloutRuns.StepKeepsInv` | kernel/callout/mdx_callout.c:209-421 | set, cancel and callback keep every queued callout at a time no earlier than it may fire |
| `CalloutRuns.NeverEarly` | kernel/callout/mdx_callout.c:117-407 | over any run and any number of counter wraps, when a callout fires at least the requested ticks have truly passed since the last accepted request for it |
| `CalloutRuns.NeverEarlyUsec` | kernel/callout/mdx_callout.c:318-329 | when the last accepted request came from microseconds, at least floor(freq * usec / 10^6) - 1 ticks have passed since it |
| `CalloutRuns.EarlyIffOverflow` | kernel/callout/mdx_callout.c:222-225 | a request can never fire early, whenever callbacks come, if and only if ticks plus elapsed fit 32 bits |
| `CalloutRuns.OverflowExample` | kernel/callout/mdx_callout.c:222-225 | a concrete run in which a request overflows and its callout fires 2^31 ticks early |
| `CalloutRuns.AlarmInRange` | kernel/callout/mdx_callout.c:95-103 | the timer is never asked for more than maxcnt ticks |
| `CalloutExact.RunExact` | kernel/callout/mdx_callout.c:209-421 | in runs with requests below maxcnt and nothing later than a period, or than the next wrap of a counter that runs to maxcnt inclusive, after the save, queue deadlines equal requested deadlines; cancelling changes none |
| `CalloutExact.ArmedForEarliest` | kernel/callout/mdx_callout.c:241-253 | in such runs the interrupt is never armed later than any pending deadline, and at the earliest one while nothing has been cancelled; then it also runs exactly while callouts wait |
| `CalloutExact.FiresExactly` | kernel/callout/mdx_callout.c:387-417 | in such runs each callback fires exactly what is due, in deadline order, and keeps exact remainders; when none is left the timer is ready and off |
| `CalloutExact.OneTickLate` | kernel/callout/mdx_callout.c:138-139 | a concrete run of a 16-bit counter in which a callout does not fire when its ticks have passed, and one tick is left |
| `CalloutStuck.OnTimeFires` | kernel/callout/mdx_callout.c:95-139 | for a counter that starts over at maxcnt, the callback that mi_tmr_start arms fires the first callout if and only if that was due in less than maxcnt ticks |
| `CalloutStuck.NoProgress` | kernel/callout/mdx_callout.c:368-421 | otherwise it fires nothing, leaves the queue and the saved count, and arms maxcnt ticks later again |
| `CalloutStuck.NeverFires` | kernel/callout/mdx_callout.c:95-421 | for every number of callbacks, each exactly when it was asked for, a run in which a request of maxcnt ticks or more has not fired |
| `Cputime.CloseToExact` | kernel/callout/mdx_cputime.c:33-52 | the fixed-point result is floor(freq * usec / 10^6) or one less, and fits 32 bits |
| `Cputime.NoOverflow` | kernel/callout/mdx_cputime.c:45-48 | the guard admits exactly the products that do not exceed maxval |
| `Cputime.PanicsOnlyBeyond` | kernel/callout/mdx_cputime.c:46-47 | it panics only when the exact result is beyond 32 bits |
| `List.Insert` | include/sys/list.h:59-71 | the entry stands before the given node, all links both ways hold again |
| `List.Append` | include/sys/list.h:73-85 | the ring stands for the sequence with the entry at the end |
| `List.Prepend` | include/sys/list.h:45-57 | the ring stands for the sequence with the entry in front |
| `List.Remove` | include/sys/list.h:87-98 | the ring stands for the sequence without the entry, which is linked to itself |
| `List.Empty` | include/sys/list.h:100-105 | true if and only if the sequence is empty |
| `FifoLinks.TieBack` | include/sys/list.h:80-83 | after the third write of an append the ring holds the entry backwards and not yet forwards |
| `FifoLinks.TieFront` | include/sys/list.h:84 | the fourth write closes the ring over the list with the entry at the end |
| `FifoLinks.UntieFront` | include/sys/list.h:94 | after the first write of the removal of the first entry the ring skips it forwards and not yet backwards |
| `FifoLinks.UntieBack` | include/sys/list.h:95 | the second write closes the ring over the rest |
| `Fifo.StepKeepsInv` | kernel/sched/mdx_fifo.c:43-95 | every pointer write, lock and semaphore step of every interleaving keeps: the links are a ring of what is put and not taken, or exactly as far from it as the one lock holder has got; list length = semaphore count + getters past the semaphore + putters not yet posted |
| `Fifo.RingWhenUnlocked` | kernel/sched/mdx_fifo.c:43-95 | in every interleaving, whenever the lock is free the links form a ring of exactly the entries put and not taken, in the order they were put |
| `Fifo.FirstInFirstOut` | kernel/sched/mdx_fifo.c:43-95 | in every interleaving the entries that gets find through the links and take are a prefix of those put |
| `Fifo.GetReturnsNext` | kernel/sched/mdx_fifo.c:58-95 | the entry read from the head's link and removed as the n-th is the n-th entry put |
| `Fifo.GetsReturnElements` | kernel/sched/mdx_fifo.c:58-95 | no get ever removes or returns the head of the list; what it returns is linked to itself |
| `FifoCalls.ReplyExplained` | kernel/sched/mdx_fifo.c:43-95 | in every interleaving a put that returns has appended its own entry and posted; a get that returns an entry has removed that very entry, the oldest one put and not taken, and left it linked to itself; NULL comes from an instant with the count at zero |
| `FifoCalls.NullExactly` | kernel/sched/mdx_fifo.c:82-83 | the test of mdx_fifo_get returns NULL if and only if the count is zero |
| `FifoCalls.CallsEnd` | kernel/sched/mdx_fifo.c:43-95 | a call makes at most eight steps of its own, whatever the others do |
| `Fifo.MutualExclusion` | kernel/sched/mdx_fifo.c:43-95 | at most one thread works on the links, and only under the lock |
| `Fifo.QuietCount` | kernel/sched/mdx_fifo.c:43-95 | with no call under way the semaphore counts the entries of the ring |
| `VirtioNet.StepKeepsInv` | dev/virtio/virtio-net.c:369-436 | every access of driver and device, in any interleaving, keeps the buffers conserved and the entries under way in their slots |
| `VirtioNet.OnePlace` | dev/virtio/virtio-net.c:369-436 | in every state each even head is in exactly one place: available, held by the device, used and unread, or in the driver's hand; no other number is anywhere |
| `VirtioNet.IndexDistance` | dev/virtio/virtio-net.c:204-223 | between calls avail.idx - last_rx_idx is half the queue size modulo 2^16, also across the wrap |
| `VirtioNet.NoOverwrite` | dev/virtio/virtio-net.c:427-430 | making a buffer available overwrites no entry that the device has yet to take |
| `VirtioNet.ReadsNext` | dev/virtio/virtio-net.c:378-389 | the entry read through the 16-bit index is the next one returned, and id + 1 - 1 is its head again |
| `VirtioNet.PacketFits` | dev/virtio/virtio-net.c:385-397 | the length copied is the packet's, cut to the caller's buffer, and never exceeds the receive buffer |
| `VirtioCalls.ReplyExplained` | dev/virtio/virtio-net.c:369-436 | a call that returns a packet read the next entry that the device returned, reports its length cut to the caller's buffer and made that buffer available again; one that returns nothing had read all there was |
| `VirtioCalls.NothingExactly` | dev/virtio/virtio-net.c:378-383 | the test of the used index finds nothing if and only if everything returned has been read, also across the wrap |
| `VirtioCalls.CallsEnd` | dev/virtio/virtio-net.c:369-436 | a call makes at most four accesses, whatever the device does |
| `VirtioInit.Prepare` | dev/virtio/virtio-net.c:204-218 | the loop builds a two-descriptor chain per buffer and fills the available ring with the heads 0, 2, 4, ... |
| `VirtioInit.BuffersApart` | dev/virtio/virtio-net.c:184-214 | receive buffers do not overlap and lie in the memory allocated for them |
| `VirtioInit.PreparedIsInit` | dev/virtio/virtio-net.c:204-223 | the prepared queue satisfies the invariant that all runs keep |
| `VirtioInit.VringLayout` | dev/virtio/virtio.c:280-286 | the available ring follows the descriptors, the used ring starts with the next page and ends within the last page of virtio_vring_size |
| `VirtioInit.VringAligned` | dev/virtio/virtio.c:556-598 | they are aligned by 16, 2 and 4 as section 2.4 of VIRTIO 1.0 asks |
| `VirtioInit.AlignedFits` | dev/virtio/helpers.c:35-50 | the aligned block and the back reference below it lie in the memory asked of malloc |
| `VirtioInit.FailureHidden` | dev/virtio/helpers.c:44-49 | a NULL from malloc gives a result that is not NULL |

## Left out

- Weak memory ordering: steps are sequentially consistent; barriers, `critical_enter` and cache handling are not modelled.
- Liveness of spin loops, waiting and interrupts: only safety is stated.
- FreeList.Zone.Realloc: the copy path frees into the zone it allocates from; the source frees into the default zone, so several zones in use at once are not modelled. Sizes as for Malloc; for a live block also those whose sum wraps only when the copy path adds the header a second time, after which the source copies into a block that is too short, are not modelled.
- FreeList.Zone.Malloc: sizes from 2^64 - 39 to 2^64 - 8, for which the wrapped sum is 0 or 16 and the source writes a header into the one before it or takes a bucket's head for a node, are not modelled. Managed memory is below 2^31, where the 31-bit tags end.
- FreeList.Zone.Free: the pointer is one that malloc returned and that is live; the source's assertions on other pointers are not modelled.
- Builds with 4-byte pointers or CHERI capabilities, whose header sizes differ.
- calloc and mdx_fl_dump: they would only add easy members.
- RB_AUGMENT hooks and iteration macros: empty by default, or loops over the members modelled.
- SPLAY_NEXT and SPLAY_MINMAX: they repeat the splay loop without a key and would only add easy members.
- Callout.Timer.Callback: functions of fired callouts are taken not to set or cancel callouts during the walk, so the state of a set inside the exception handler is not reached.
- Per-CPU callout queues and their locks: one queue is modelled, its operations as atomic events at one reading of the counter.
- CalloutExact.RunExact: a callback that comes a period after the save, or after a wrap of a counter that runs to `maxcnt` inclusive, may find callouts late, or never due (CalloutStuck.NeverFires); only NeverEarly is claimed then.
- Fifo.StepKeepsInv: an entry that is put is in the list neither yet nor through another put under way, as `list_append` needs.
- Timed waits of the semaphore and the scheduler behind `mdx_sem_wait`: the FIFO uses a counting semaphore.
- Virtio transmit, block device, feature negotiation, register access and DMA address translation.
- VirtioNet.PacketFits: the device is taken to return only buffers it holds, with a length between the header and the buffer's size.
- Copying of packet bytes, and the 32-bit multiplication in the buffer addresses.
