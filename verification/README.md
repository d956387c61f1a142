# A verified model of librma2

librma2 is the user-space library of the EXTOLL RMA2 network interface. A process posts
descriptors to memory-mapped requester pages, registers memory so that the device can
reach it, and reads notifications from a ring in main memory. This project models the
stateful layers of the library, and the Scala connection class on top of them, and proves
what they promise over all inputs and all runs.

1. **Replay buffer** (`ReplayProtocol.dfy`, `ReplayBuffer.dfy`). Posting, replaying and
   draining are a go-back-N protocol with 8-bit counters. The first file is the protocol
   as a transition system of library and device, with unbounded history values beside the
   wrapping fields. The second is the library's code in imperative form: a class with the
   endpoint's fields and a 1024-word packet buffer. Every step of the code, and every step
   the device takes between two of its memory accesses, is appended to a run of the
   transition system, so the theorems about runs hold of the code.
2. **Pool allocator** (`PoolLists.dfy`). The intrusive circular lists as a heap shape:
   two rings of nodes that represent disjoint sequences, and 32-bit counters.
3. **Registration cache** (`Regions.dfy`, `CacheModel.dfy`, `CacheInvariant.dfy`,
   `CacheRuns.dfy`, `RegionCache.dfy`). What each call does is a function on values; the
   invariant and the theorems over runs are proved of these functions; the last file is
   the imperative cache over a slot array and a region pool, and proves that each call
   changes the heap as the function says and is one event of a run.
4. **Notification ring** (`NotificationRing.dfy`, `NotificationQueue.dfy`, `Ports.dfy`).
   A ring whose emptiness is decided by content, and a read pointer that is published to
   the device in 32-bit wrap-around arithmetic; the imperative queue; and the probing and
   blocking calls, which also serve the replay buffer.
5. **Scala layer** (`Demultiplexer.dfy`, `PacketSplit.dfy`, `BulkWrite.dfy`). The
   demultiplexing of the ring into one queue per notification type, and the bulk write of
   an integer array, from the split into puts down to the descriptors in the replay buffer.

`MachineWords.dfy` holds the word size and a lemma on remainders that several layers use.

## Assumptions

- The device is not part of the repository. Of the replay side it is assumed: packets are
  taken in order; a packet is either committed, or the retry flag goes up; while the flag
  is up every packet is refused and counted; the two activity bits differ only while a
  packet is under way; the fields of the state word are read together. Of the notification
  side: a notification appears in one piece and with a nonzero second word, and the device
  never runs more than a ring's size ahead of the published read pointer.
- Termination rests on fields such as `trips`, `stall` and `pending`, which say how often
  the device will still do something. They are finite but arbitrary, and no branch of the
  library's code reads them.
- The kernel grants every registration; the logical address it assigns is a parameter.
- One endpoint, one caller at a time.

## What the proofs found

- The fullness test that the POST bit switches on is necessary and sufficient
  (`UncheckedPost`): without it a post keeps the invariant exactly if the ring is not
  full, and a full ring is reachable (`FullIsReachable`). `PostDescriptor` says what the
  code leaves behind in the other case.
- The replay loop writes back a copy of the state word that may be stale. The committed
  count in it is nevertheless right (`WaitExitIsQuiescent`).
- A child region keeps its offset in 32 bits, so a cached handle translates like a plain
  registration exactly if the range starts less than 4 GB behind the region
  (`HandleTranslates`, with a concrete miss in `FarChildMistranslates`). A page count is
  kept in 32 bits too, so the pages cover the range exactly if it reaches into fewer than
  2^32 of them.
- The test that decides whether to publish the read pointer computes `rp_bak - rp`, not
  `rp - rp_bak`. For queues of whole pages it therefore fires at every free, and nothing
  is batched (`PagesPublishAtOnce`). For all sizes, with c = (2^32 - 1) mod size: the lag is
  always zero exactly if c > 32 (`PublishedAtOnce`). The ring can run dry, empty and
  without room for the device, exactly if c <= 32 and the last multiple of c + 2 below the
  size is at most 32 (`StarvesExactly`); that is so for all sizes up to 33, for some more below
  67, and for none above (`WhoStarves`).
  The lag that `RMA2_RP_LAZYNESS` names is kept exactly if the size is at most 32, or the
  ring does not run dry and c is not 32 (`LagWithinLazyness`).
- The free of a notification checks the read pointer but not the slot; freeing when nothing
  is unread hides the next notification (`FreeOfNothing`).
- The header (`include/rma2.h:1309-1315`) describes an extension queue behind the
  notification queue. The code has none; the model follows the code.
- `writeBlocking` covers the array exactly if and only if it is empty, or a packet holds an
  integer and the byte offset of the last packet fits a signed 32-bit integer (`Splits`).
  An offset that does not fit is taken modulo 2^32 on the source side and with its sign on
  the target side. `LongArray` is such an array; it is also registered with 480 bytes
  instead of 4 GB, since the registration gets the right size exactly below 2^29 elements
  (`RegisteredSize`). A put above 8 MB loses bytes in the descriptor's count field
  (`Delivered`). With a packet size of minus four or less the call returns normally and
  sends nothing.
- The bound on unacknowledged puts holds exactly if the number of postponed notifications is
  not the smallest integer, whose predecessor wraps, or there is at most one packet
  (`OpenPuts`).
- The items of a pool lie in its block exactly if the product of their number and size fits
  32 bits (`PoolFits`).

## Model

| member | source | states |
|---|---|---|
| `ReplayProtocol.Low8Apart` | src/librma2.c:429-431 | counts fewer than 256 apart are told apart by their low eight bits, and their masked difference is the true one |
| `ReplayProtocol.DeviceStepKeepsInv` | src/librma2.c:449-493 | the assumed device steps, commit, refuse, trip and flicker, keep the invariant of library and device |
| `ReplayProtocol.IssueKeepsInv` | src/librma2.c:700-704 | handing a packet to the device before it is recorded keeps the invariant |
| `ReplayProtocol.RecordKeepsInv` | src/librma2.c:707-716 | writing the ring slot and moving the write pointer modulo 256 keeps every slot of the window |
| `ReplayProtocol.LookKeepsInv` | src/librma2.c:450-457 | a read of the state word brings the committed count up to date and keeps the invariant |
| `ReplayProtocol.Distance` | src/librma2.c:476 | inside the window the 8-bit difference of write pointer and committed count is the number of unacknowledged packets |
| `ReplayProtocol.WaitExitIsQuiescent` | src/librma2.c:464-481 | when the wait loop exits nothing is in flight, the refused packets are exactly the uncommitted suffix of what was posted, and the stale state word is idle with the right committed count |
| `ReplayProtocol.WaitProgress` | src/librma2.c:468-481 | while the wait goes on a packet is under way or the refused count that was read lags behind |
| `ReplayProtocol.ClearKeepsInv` | src/librma2.c:485-493 | storing the stale state word with flag and count masked out keeps the invariant |
| `ReplayProtocol.ClearedWord` | src/librma2.c:485-491 | the stored word keeps committed count and activity bits and has flag and refused count at zero |
| `ReplayProtocol.ReplayIndex` | src/librma2.c:496-501 | the 8-bit replay index meets the write pointer exactly when nothing is left to resend, and its slot holds the next packet to resend |
| `ReplayProtocol.ResendKeepsInv` | src/librma2.c:501-518 | resending one slot keeps the device's stream a prefix of what was posted |
| `ReplayProtocol.NextKeepsInv` | src/librma2.c:434-523 | every step of library or device keeps the invariant |
| `ReplayProtocol.RunKeepsInv` | src/librma2.c:434-541 | the invariant holds in every state of every run |
| `ReplayProtocol.CommittedIsPrefix` | src/librma2.c:434-523 | in every state of every run the committed packets are a prefix of the posted ones, cached committed count <= committed <= posted <= cached + 255, and each slot of that window holds its packet and page |
| `ReplayProtocol.CommitsAreFinal` | src/librma2.c:434-523 | along a run the committed and the posted sequence only grow at their ends |
| `ReplayProtocol.CountersBalance` | src/librma2.c:454-457 | outside a resend committed + refused + in flight = posted, also as seen through the 8-bit fields, which the FIXME asks for |
| `ReplayProtocol.DrainTests` | src/librma2.c:529-540 | the two 8-bit loop tests of the drain hold exactly if 255 packets, or none, are unacknowledged |
| `ReplayProtocol.NothingOpen` | src/librma2.c:461 | with nothing in flight and no retry to act on, everything posted is committed |
| `ReplayProtocol.UncheckedPost` | src/librma2.c:694-698 | a post without the fullness test keeps the invariant if and only if the ring is not full; otherwise 256 open packets look like none |
| `ReplayProtocol.FullIsReachable` | src/librma2.c:694-698 | a run of 255 posts against a silent device fills the ring |
| `ReplayBuffer.Endpoint.Look` | src/librma2.c:450-457 | one read of the state word latches flag and both counts together, and is a step of the run |
| `ReplayBuffer.Endpoint.AwaitIdle` | src/librma2.c:464-474 | the idle loop ends, and the copy it leaves has equal activity bits |
| `ReplayBuffer.Endpoint.AwaitCount` | src/librma2.c:476-481 | the count loop ends, with the difference equal to the refused count |
| `ReplayBuffer.Endpoint.ClearRetry` | src/librma2.c:485-493 | the state word is cleared even if the device overlooks some of the stores |
| `ReplayBuffer.ThreeStores` | src/librma2.c:700-703 | three such stores are found by the device as one whole packet, word by word |
| `ReplayBuffer.Endpoint.StoreSlot` | src/librma2.c:508-514 | a resend makes three stores, to words 0, 1 and 2 of the page kept in the slot, each of the word of the slot with that number |
| `ReplayBuffer.Endpoint.ResendAll` | src/librma2.c:495-519 | the loop puts exactly the uncommitted suffix on the wire, in order, and counts each packet |
| `ReplayBuffer.Endpoint.Replay` | src/librma2.c:461-520 | the resent packets are exactly those the device had refused at a quiescent point of the run, at least one, and `retried_packet_count` grows by their number |
| `ReplayBuffer.Endpoint.ReplayBuffer` | src/librma2.c:434-523 | one call keeps posted and ring, resends exactly a refused suffix, or nothing and then the state word asks for none, and makes lexicographic progress unless all is acknowledged |
| `ReplayBuffer.Endpoint.Drain` | src/librma2.c:525-541 | with send set it makes room and does nothing if there is room; without, it returns only when committed equals posted; it goes round no longer than it has to, and terminates if the device trips finitely often |
| `ReplayBuffer.Endpoint.StoreDescriptor` | src/librma2.c:700-703 | a post makes three stores, to words 0, 1 and 2 of the requester page, each of the descriptor word with that number |
| `ReplayBuffer.Endpoint.PostDescriptor` | src/librma2.c:683-720 | appends exactly this descriptor with its page to what is posted, puts it on the wire last, and every other packet sent meanwhile is a counted resend; the invariant holds after it unless the POST bit is off and the ring is full, and then the slot, the pointers and the device are as stated and the state is unreachable |
| `ReplayBuffer.Endpoint.Close` | src/librma2.c:351-358 | closing returns only when everything posted is committed, in every replay mode |
| `ReplayBuffer.Endpoint.Disconnect` | src/librma2.c:401-409 | disconnecting does so if and only if the CLOSE bit is set |
| `ReplayBuffer.Endpoint.SetReplayMode` | src/librma2.c:548-551 | any mode can be set at any time; the invariant does not depend on it |
| `ReplayProtocol.Overrun` | src/librma2.c:694-698 | a post into a full ring leaves a library state that no run can reach, whatever the device does meanwhile |
| `PoolLists.RingUnique` | include/extoll2_list.h:63-66 | the links of a head determine the sequence that the ring represents |
| `PoolLists.PushBack` | include/extoll2_list.h:105-108 | the four pointer writes append one node to a circular ring |
| `PoolLists.PopFront` | include/extoll2_list.h:172-181 | the four pointer writes take the front off a ring; on an empty ring they yield its head |
| `PoolLists.Delete` | include/extoll2_list.h:117-121 | unlinking removes exactly the one element, whose links are poisoned |
| `PoolLists.PoolList.Construct` | src/extoll2_list.c:40-61 | a valid pool of the initial size, all of it free |
| `PoolLists.PoolList.AllocPool` | src/extoll2_list.c:104-131 | a fresh slice, disjoint from everything allocated before, joins the back of the free list; the forward chain of pools still ends at its head |
| `PoolLists.PoolFits` | src/extoll2_list.c:110-127 | the items of a pool all lie in its block if and only if the product of their number and size is below 2^32 |
| `PoolLists.ItemsApart` | src/extoll2_list.c:122-127 | and then no two of them share a byte |
| `PoolLists.PoolList.NewItem` | include/extoll2_list.h:161-185 | hands out the front of the free list, after extending it if it is empty, and never an item that is out already; with an increment of zero the caller gets the list head |
| `PoolLists.PoolList.FreeItem` | include/extoll2_list.h:187-197 | puts an item at the back of the free list and keeps the counters right |
| `PoolLists.PoolList.Append` | include/extoll2_list.h:98-110 | appends an item that is out to the item list |
| `PoolLists.PoolList.Remove` | include/extoll2_list.h:112-122 | removes exactly one element from the item list, whatever its position |
| `PoolLists.PoolList.IsEmpty` | include/extoll2_list.h:124-129 | the counter test is the pointer test for every list that fits 32 bits |
| `PoolLists.PoolList.PointerTest` | include/extoll2_list.h:166 | the pointer test holds exactly for an empty free list |
| `PoolLists.PoolList.First` | include/extoll2_list.h:131-134 | the first element, or the head of an empty list |
| `PoolLists.PoolList.Last` | include/extoll2_list.h:136-139 | the last element, or the head of an empty list |
| `PoolLists.PoolList.GetNext` | include/extoll2_list.h:141-145 | the successor in the sequence, or the head |
| `PoolLists.PoolList.Destruct` | src/extoll2_list.c:64-99 | empties both rings and finds no pool to unlink |
| `PoolLists.UnlinkAll` | src/extoll2_list.c:69-75 | the loop that follows an unlinked node's own successor empties the ring |
| `Regions.OverlapMeaning` | src/librma2.c:1327-1342 | the overlap test never misses a common byte of two half-open ranges, and holds beyond that exactly for touching or empty ones |
| `Regions.RegisteredCovers` | src/librma2.c:1157-1182 | a plain registration translates every offset to itself; it contains the range if and only if size plus page offset is at most (2^32 - 1) pages, and then ends less than a page behind it |
| `CacheModel.RouteOf` | src/librma2rc.c:128-210 | hit before empty slot before unused region before uncached, and each time the first such slot; a replacement only if no slot is empty, uncached only if every slot is in use |
| `CacheInvariant.HitDirectKeeps` | src/librma2rc.c:138-165 | a direct hit keeps the invariant: counts, kernel pins, promises, staleness |
| `CacheInvariant.HitChildKeeps` | src/librma2rc.c:144-161 | a child hit keeps it; the child's parent is a cached region that is no child |
| `CacheInvariant.InstallKeeps` | src/librma2rc.c:176-187 | a new cached registration keeps it |
| `CacheInvariant.EvictKeeps` | src/librma2rc.c:195-198 | the eviction of an unused region keeps it |
| `CacheInvariant.UncachedKeeps` | src/librma2rc.c:208-210 | an uncached registration keeps it |
| `CacheInvariant.RegisterKeeps` | src/librma2rc.c:116-212 | a register call on any route keeps the whole invariant |
| `CacheInvariant.UnregisterKeeps` | src/librma2rc.c:217-248 | giving back any outstanding handle keeps the whole invariant |
| `CacheInvariant.CachedCount` | src/librma2rc.c:239-240 | a cached region's count is never below zero, so the assertion after the decrement holds |
| `CacheInvariant.ChildAndParent` | src/librma2rc.c:225-231 | a child's parent is cached, is another item, and the child has no children |
| `CacheInvariant.FreeMeaning` | src/librma2rc.c:72-108 | the free handler empties exactly the slots whose region overlaps and is unused, and its second counter moves exactly if an overlapping region is in use |
| `CacheInvariant.FreeCounts` | src/librma2rc.c:72-108 | the two counters of the handler grow by the number of slots it empties and of overlapping slots it leaves |
| `CacheInvariant.FreeLeavesRegions` | src/librma2rc.c:72-108 | the handler changes no remaining region, pin or handle |
| `CacheInvariant.FreeKeeps` | src/librma2rc.c:57-111 | a free keeps the whole invariant |
| `CacheRuns.RunKeepsInv` | src/librma2rc.c:57-248 | the invariant holds after every run of register, unregister and free |
| `CacheRuns.RunExtends` | src/librma2rc.c:57-248 | a further call of the library makes a run one event longer, so what holds of runs holds of sequences of calls |
| `CacheRuns.HandleTranslates` | src/librma2.c:1295-1348 | over any run, on every path: the handle's pages are pinned, and contain the range if and only if it has fewer than 2^32 pages; its virtual and logical addresses are those of a plain registration at every offset if and only if the range starts less than 4 GB behind the region |
| `CacheRuns.FarChildMistranslates` | src/librma2rc.c:153-155 | at any page and NLA, two calls after which a child translates to addresses 4 GB off |
| `CacheRuns.RegisterTranslates` | src/librma2rc.c:116-212 | every single call returns one handle, which translates the range that was asked for, in the same sense |
| `CacheRuns.MissIsTight` | src/librma2rc.c:167-210 | what a call that misses returns is pinned, and is the smallest range of whole pages that contains what was asked for |
| `CacheRuns.HitCounts` | src/librma2rc.c:138-165 | a hit counts as one hit, and as one use of a child exactly if the handle is a child |
| `CacheRuns.MissCounts` | src/librma2rc.c:167-211 | a miss counts as one miss, and as fill, replacement or uncached by what the slots offer |
| `CacheRuns.HandleSurvives` | src/librma2rc.c:57-248 | over any number of calls, evictions and frees included, the fields of an outstanding handle, the registration behind it and the ranges it answers for stay |
| `CacheRuns.SurvivesCall` | src/librma2rc.c:57-248 | the same for one call, and for all but the last return of the handle |
| `CacheRuns.RefcountsAreExact` | src/librma2rc.c:138-165 | over any run a cached region's count is its direct handles plus its children, parents are cached and no children, and items in use are cached + children + uncached |
| `CacheRuns.BooksBalance` | src/librma2rc.c:128-211 | over any run calls = hits + misses, misses = fill + replace + uncached, occupied slots = fill - free |
| `CacheRuns.NoStaleRegion` | src/librma2rc.c:57-111 | while the counter of regions left in place is zero, no region still cached shares a byte with memory freed after its registration |
| `RegionCache.RegionCache.FindHit` | src/librma2rc.c:128-137 | the first loop finds the first slot that contains the range |
| `RegionCache.RegionCache.FindSpare` | src/librma2rc.c:192-195 | the third loop finds the first region without users |
| `RegionCache.RegionCache.RegisterPlain` | src/librma2.c:1141-1193 | a plain registration takes an item that is not in use, fills it in and pins its pages, none of them beyond the range |
| `RegionCache.RegionCache.UnregisterPlain` | src/librma2.c:1240-1258 | the kernel lets go and the item returns to the pool |
| `RegionCache.RegionCache.CopyItem` | src/librma2rc.c:153 | copying a whole item, its list links included, changes nothing the pool relies on; the copy has the links of the original |
| `RegionCache.RegionCache.HitShared` | src/librma2rc.c:138-165 | a direct hit changes the heap as the model says |
| `RegionCache.RegionCache.HitWithin` | src/librma2rc.c:144-165 | a child hit changes the heap as the model says |
| `RegionCache.RegionCache.ReplaceSlot` | src/librma2rc.c:195-204 | eviction and registration through the same slot; the item may be the one just returned |
| `RegionCache.RegionCache.Register` | src/librma2rc.c:116-212 | the imperative call returns the model's handle, leaves the model's state, keeps `Valid`, and is one event of a run; it counts one hit or one miss, and what a miss returns reaches no page beyond the range |
| `RegionCache.RegionCache.Unregister` | src/librma2rc.c:217-248 | so does giving a handle back, whose registration exists; no count falls below zero |
| `RegionCache.RegionCache.FreeHandler` | src/librma2rc.c:57-111 | so does the free handler's loop over the slots |
| `RegionCache.RegionCache.ItemsConserved` | src/librma2rc.c:116-248 | items handed out by the region pool = occupied slots + live children + live uncached regions |
| `NotificationRing.DeliverKeeps` | src/librma2.c:798 | a delivery by the assumed device keeps the ring invariant |
| `NotificationRing.ConsumeKeeps` | src/librma2.c:1121-1137 | a free keeps the ring invariant and consumes the oldest unread notification |
| `NotificationRing.ExactlyOnce` | src/librma2.c:796-843 | what was freed, followed by the nonzero slots from the read pointer on, is what was produced; the slot at the read pointer is nonzero exactly if something is unread |
| `NotificationRing.RunIsFifo` | src/librma2.c:796-843 | the same after every run, for every ring size |
| `NotificationRing.PublishesWhen` | include/sys_rma2.h:60 | exactly when the test on the wrapped difference fires, k frees after the last publication |
| `NotificationRing.PublishedAtOnce` | include/sys_rma2.h:60 | the lag is zero in every state of every run if and only if (2^32 - 1) mod size > 32 |
| `NotificationRing.PagesPublishAtOnce` | include/sys_rma2.h:60 | it is zero for every queue of whole 4 KB pages |
| `NotificationRing.LagWithinLazyness` | include/sys_rma2.h:44 | for every size: the lag never exceeds 32 if and only if the size is at most 32, or the ring does not starve and (2^32 - 1) mod size is not 32; it never exceeds 33 unless the ring starves |
| `NotificationRing.OverrunAt67` | include/sys_rma2.h:44 | 67 entries are such an exception |
| `NotificationRing.StarvesExactly` | include/sys_rma2.h:58-60 | for every size: some run ends empty and without room for the device if and only if `Starves` holds of the size |
| `NotificationRing.EmptyHasRoom` | include/sys_rma2.h:58-60 | in every run of any other ring the device may write whenever nothing is unread |
| `NotificationRing.DryMeans` | include/sys_rma2.h:58-60 | empty and without room is exactly the state in which neither side can go on |
| `NotificationRing.RunStalls` | include/sys_rma2.h:60 | no run of a starving ring delivers more than its last publication and one ring beyond it |
| `NotificationRing.WhoStarves` | include/sys_rma2.h:60 | up to 33 entries every ring starves, from 67 on none does, and 34, 35, 37, 39 and 45 do |
| `NotificationRing.FreeOfNothing` | src/librma2.c:1121-1137 | a free with nothing unread moves the read pointer past the slot that the device may write next |
| `NotificationQueue.NotiQueue.Test` | src/librma2.c:798 | the read of the second word is nonzero exactly if something is unread, the slot then holds the oldest unread notification, and the read is counted |
| `NotificationQueue.NotiQueue.Free` | src/librma2.c:1121-1137 | aborts exactly if the notification is not at the read pointer, else has the whole effect of the model's free, also when nothing is unread; the queue stays valid if something was |
| `Ports.Port.NotiProbe` | src/librma2.c:796-814 | looks once and finds exactly what is unread; an empty probe with the NOTI bit leaves everything posted committed, any other leaves the flow control alone |
| `Ports.Port.WaitTurn` | src/librma2.c:826-838 | every second stretch of 4096 reads drains if the NOTI bit asks for it; the other stretches leave the flow control alone |
| `Ports.Port.NotiGetBlock` | src/librma2.c:816-843 | returns with the oldest unread notification whenever one is there or still to come; with the NOTI bit a wait of more than 4096 reads leaves everything posted committed, and a shorter one, or one without the bit, leaves the run of the protocol as it was |
| `Demultiplexer.TypeField` | src/librma2.c:1054-1057 | the type is decided by bits 48 to 50 alone: 1, 2 and 4 are the three types, and the other values none |
| `Demultiplexer.PollKeeps` | scala-lib/src/main/scala/com/extoll/rma2/Rma.scala:166 | returning from the own queue keeps each type's stream in order |
| `Demultiplexer.ReturnKeeps` | scala-lib/src/main/scala/com/extoll/rma2/Rma.scala:213-215 | so does returning straight off the ring, because the own queue is empty then |
| `Demultiplexer.OfferKeeps` | scala-lib/src/main/scala/com/extoll/rma2/Rma.scala:218-222 | so does keeping a notification of another type |
| `Demultiplexer.LossKeeps` | scala-lib/src/main/scala/com/extoll/rma2/Rma.scala:224-226 | a full queue loses a notification of that type only |
| `Demultiplexer.StreamOf` | scala-lib/src/main/scala/com/extoll/rma2/Rma.scala:162-242 | per type, returned + queued + unread in the ring is the type-filtered stream of the device, in order |
| `Demultiplexer.OldestIsReturned` | scala-lib/src/main/scala/com/extoll/rma2/Rma.scala:174-239 | the oldest unread notification of the awaited type is what a wait returns: it does not time out, and any other answer is about an older one, of an unknown type or for a full queue |
| `Demultiplexer.NextIsReturned` | scala-lib/src/main/scala/com/extoll/rma2/Rma.scala:188-215 | if it is the next in the ring, the wait returns it |
| `Demultiplexer.Rma.PerTypeFifo` | scala-lib/src/main/scala/com/extoll/rma2/Rma.scala:162-242 | the same of the connection object in every valid state, after any interleaving of waits |
| `Demultiplexer.Rma.Take` | scala-lib/src/main/scala/com/extoll/rma2/Rma.scala:188-229 | a notification of the awaited type is the answer; of another type it joins the back of that queue, or is lost if 2^31 - 1 are in it; of an unknown type it stays in the ring |
| `Demultiplexer.Rma.WaitForNotification` | scala-lib/src/main/scala/com/extoll/rma2/Rma.scala:162-242 | returns what an earlier call kept, or the oldest of the type in the ring, after filing all before it by type in order; times out only when the ring is empty, every notification of the type ever delivered had been returned and the patience is used up; fails otherwise only for an unknown type, which stays in the ring, or for a full queue of another type, whose last notification is lost; serves the flow control exactly if the ring was found empty |
| `PacketSplit.PutExact` | scala-lib/src/main/scala/com/extoll/rma2/Rma.scala:629-659 | for every length: the arguments of every put in exact arithmetic, with the offset cut to 32 bits and the wrap in the test for the last one |
| `PacketSplit.Splits` | scala-lib/src/main/scala/com/extoll/rma2/Rma.scala:605-659 | for every length and packet size: the puts are non-empty, contiguous and cover the array exactly if and only if it is empty, or a packet holds at least one integer and the last byte offset fits 32 bits; with smaller packets the first put is empty, or there is none |
| `PacketSplit.LongArray` | scala-lib/src/main/scala/com/extoll/rma2/Rma.scala:658 | 2^30 + 120 integers at the default packet size are not covered, and registered as 480 bytes |
| `PacketSplit.PacketsFit` | scala-lib/src/main/scala/com/extoll/rma2/Rma.scala:629-645 | for every length no put is larger than the first, which is the packet size in whole integers or the whole array |
| `PacketSplit.RegisteredSize` | scala-lib/src/main/scala/com/extoll/rma2/Rma.scala:614 | the size given to the registration is that of the array if and only if it has fewer than 2^29 elements, and then every offset fits |
| `PacketSplit.OpenPuts` | scala-lib/src/main/scala/com/extoll/rma2/Rma.scala:678-697 | at most max(1, postpone) puts are ever unacknowledged if and only if postpone is not the smallest integer or there is at most one packet; in the end waits equal puts in any case |
| `PacketSplit.WrappedPostpone` | scala-lib/src/main/scala/com/extoll/rma2/Rma.scala:678 | with the smallest integer the bound holds if and only if there is at most one packet |
| `PacketSplit.ScriptOrder` | scala-lib/src/main/scala/com/extoll/rma2/Rma.scala:678-697 | as many puts as waits, one for each packet; a wait comes exactly when max(1, postpone) puts are open or all are posted, or 2^31 for the smallest integer |
| `BulkWrite.HeaderKept` | src/librma2.c:741-751 | the descriptor keeps the lower 40 bits of the header and the page, and bit 63 is zero |
| `BulkWrite.CountDecodes` | src/librma2.c:741-751 | the descriptor's count field gives the size back if and only if it is at most 8 MB |
| `BulkWrite.OffsetWraps` | scala-lib/src/main/scala/com/extoll/rma2/Rma.scala:664-670 | a put with a negative offset carries no byte to its place |
| `BulkWrite.TooLong` | scala-lib/src/main/scala/com/extoll/rma2/Rma.scala:658-670 | if the last offset does not fit, the first byte of the last put is not delivered |
| `BulkWrite.EveryByteOnce` | scala-lib/src/main/scala/com/extoll/rma2/Rma.scala:622-673 | each byte is carried to its place by exactly one of the posted packets |
| `BulkWrite.Delivered` | scala-lib/src/main/scala/com/extoll/rma2/Rma.scala:622-673 | for every length all bytes are if and only if no put exceeds 8 MB and the last byte offset fits 32 bits |
| `BulkWrite.WindowKept` | scala-lib/src/main/scala/com/extoll/rma2/Rma.scala:678-697 | the bound on unacknowledged puts holds however a write ends, under the exact condition of `OpenPuts` |
| `BulkWrite.WriteCompletes` | scala-lib/src/main/scala/com/extoll/rma2/Rma.scala:598-697 | a write that returns normally has received as many requester notifications as it posted puts, and its packets deliver the array if and only if each count and the last offset fit |
| `BulkWrite.RmaConnection.SendOne` | scala-lib/src/main/scala/com/extoll/rma2/Rma.scala:664-681 | one turn posts one packet and, if it is to wait, then waits once; it fails only in that wait, and what explains the outcome of the wait holds |
| `BulkWrite.RmaConnection.AwaitRest` | scala-lib/src/main/scala/com/extoll/rma2/Rma.scala:691-697 | waits exactly as often as notifications are missing, one notification for each, or fails in one of these waits with what explains its outcome |
| `BulkWrite.RmaConnection.WriteBlocking` | scala-lib/src/main/scala/com/extoll/rma2/Rma.scala:598-697 | posts a prefix of the array's puts, all of them on a normal return; each wait is begun when as many packets have been posted as the script says; it fails only at a wait of the script, with what explains the outcome of that wait (a time-out: the ring is empty and every requester notification had been returned), and aborts only at an empty put |

## Left out

- Opening a port, ioctl, mmap, store fences, interposition by dlsym, library constructor and destructor, printing.
- `pool_list` and `extoll2_free_pool`: no pool is ever linked into the forward chain, so nothing is claimed of it beyond that, and pools are never freed.
- PoolLists.PoolList.AllocPool: does not model failing allocation, which the code does not test for, and takes new items as new nodes; that they are distinct bytes of one block is `PoolFits` and `ItemsApart`, and that two blocks are distinct is the allocator's.
- The masks under `MICEXTOLL`, whose retry field does not line up with its shift.
- The read of the allocator header for a free of unknown length: the length is an argument.
- Failing kernel calls, several endpoints behind one cache, closing a port while regions are cached, calls without the cache compiled in.
- Addresses and logical addresses are unbounded, except where a statement bounds them.
- Ports.Port.NotiGetBlock: asks that a notification is there or still to come; on a queue to which nothing will ever be delivered the source spins forever.
- Notification matching, the decoders except that of the type, duplication and dumping of notifications.
- Resizing the notification queue during traffic.
- Descriptor fields other than the count and the two addresses: they are one parameter of the bulk write.
- The clock of the 200 ms limit: each wait is given how often it may find the ring empty.
- BulkWrite.RmaConnection.WriteBlocking: is given the registered source address; the registration before and the release after it are not modelled. It asks for the POST bit, which is set by default, or for room in the ring for all its puts; without both a put may overrun the ring, as `PostDescriptor` states, and nothing is claimed of the rest of the call.
- Floating point: the quotient that gives the number of packets is taken in the reals, and the packet length is not rounded to single precision, which packet sizes of 64 MB and more could meet.
- The other read, write and allocation methods of the Scala class, its device classes, and concurrent use of one connection.
- The kernel list copies in `include/list.h` and `include/rma2_list.h`, tests and examples.
