# Xen guest front-end drivers: a verified model

The repository holds the front-end drivers of a Xen guest and a monitor daemon. The drivers keep their
state in index-linked lists, shared rings and small lock-free protocols. This project models those
parts in Dafny, one module a component, and proves what the drivers rest on: which list an entry is on,
which ring slots are filled, that nothing is lost or handed out twice, and that no `BUG_ON` is reached.

`dafny verify dfyconfig.toml` checks everything.

Code that updates fields and arrays is a class or a method with loops; each method is proved against a
specification, and the specification has theorems of its own. Code that runs in several threads, or
against the hypervisor or a backend, is a state machine with one step for each access to shared memory
(or for each critical section under a lock); its theorems are about every reachable state or every run.
What allocators, the hypervisor, a backend or signals do is a parameter, often a function of the round, so
that a contract can say exactly when an operation fails and what it has done by then.

## The modules

- **GrantTable** - the free list inside `gnttab_list`, the private chains cut from it, growing, splicing
  back, and the callbacks that wait for free entries. Every entry is always reserved, on the free chain,
  on exactly one private chain, or claimed.
- **GrantRevocation** - `gnttab_end_foreign_access`, the deferred list and its timer, while the remote
  domain changes the flags of the entries between any two steps. Any number of threads.
- **EventScan**, **EventDelivery**, **EventBinding** - the two-level event scan as the original loops; the
  same scan with the hypervisor setting bits at any time; the two maps between irqs and ports.
- **XenstoreRing** - the byte ring to xenstore with indices that wrap at 32 bits: the chunk arithmetic,
  all interleavings of producer and consumer, and `xb_write` and `xb_read`.
- **NetfrontRx**, **NetfrontTx** - the window of posted receive buffers through responses, extra info,
  bad responses, refill and reconnect; cutting a packet into slots, and the id list and grants behind it.
- **ScsiGrantPool** - the list of grants, those kept mapped first, from which requests take one grant for
  each segment and each indirect page.
- **BlkShadow** - the id list inside the shadow array, answers of any kind, and saving and reissuing
  requests over suspend and resume.
- **Shutdown** - `shutting_down` with its xchg and cmpxchg steps, any number of requesters.
- **WatchDelivery** - watch events against registering and unregistering a watch, any number of threads.
- **Balloon** - the list of ballooned pages, its counters, and the worker that moves to the target.
- **U64Division**, **StringConcat** - division on 32-bit halves; `strncat_s` and `strcat_s` on one memory
  where the buffers may overlap.
- **Arithmetic**, **Common**, **EventPort** - lemmas about products and quotients, and what several modules
  share.

## Where the code does not do what one would expect

Each of these is kept as the code has it, with the exact condition and a concrete case.

- `get_free_entries(0)` takes one entry off the free list without counting it: the count stays right if
  and only if the number wanted is not 0 (`GrantTable.ListsGet`, `GrantTable.ZeroCountBreaks`). On an empty
  list it follows a link outside the table (`GrantTable.Table.GetFreeEntries`).
- The handler of the deferred list takes an entry that does not exist if and only if nothing is deferred as
  it takes the lock, that is if its timer fired on an empty list and no entry was added before it had the
  lock (`GrantRevocation.BogusIffEmptyAtLock`, `GrantRevocation.BogusIffNoneSinceFire`). That can happen: an
  entry added while the handler has dropped the lock arms the timer, and the handler then ends that entry
  itself (`GrantRevocation.TimerCanFireOnEmptyList`).
- `bind_caller_port_to_irqhandler` keeps the two maps inverse if and only if the port is not 0 and not
  bound already (`EventBinding.BindKeepsInverse`, `EventBinding.BindBreaksInverse`).
- `network_open` starts the transmit queue whether there is room or not. The ids run out under a packet if
  and only if it needs more slots than there are free ids, which `netfront_tx_slot_available` excludes and
  `network_open` does not (`NetfrontTx.Transmitter.StartXmit`, `NetfrontTx.Transmitter.Open`,
  `NetfrontTx.RunsOutAfterReopening`).
- `netfront` counts one slot too few for a packet whose linear part is empty and starts on a page boundary,
  and is exact otherwise (`NetfrontTx.CountIsExact`, `NetfrontTx.EmptyLinearMiscounted`). The reserve in
  `netfront_tx_slot_available` covers it.
- The test before an early push of receive requests compares the wrapping indices with `>` and misses
  requests exactly if the index wrapped since the last push (`NetfrontRx.EarlyPushTest`,
  `NetfrontRx.EarlyPushMissed`).
- On a full receive ring a bad buffer goes back into the ring entry whose flags `xennet_get_responses` is
  about to read, if all slots of the packet before it went back as well. The slots taken are the backend's
  packet if and only if no flag read so differs from the backend's (`NetfrontRx.TakesWholePacket`); the next
  packet can be dropped (`NetfrontRx.MisreadDropsPacket`). Buffers and grants are not affected.
- The BUG_ON on `pull_to` in `xennet_fill_frags` fires if and only if an accepted packet has 18 data slots and
  its first response has status 0 (`NetfrontRx.Receiver.FillFrags`, `NetfrontRx.EmptyHeadAccepted`).
- `scsifront` compares the page count of the data length with the number of grants it reserves; a
  scatterlist of short entries that straddle pages has more segments than grants, and than places in the
  arrays that `scsifront_setup_indirect` allocates for the request (`ScsiGrantPool.PageTestTooWeak`).
- A request is mapped if and only if its segments have their places, indirect pages are left, and no entry
  of a write that is copied leaves its page (`ScsiGrantPool.Frontend.Fits`, `MapData`). Without persistent
  grants an indirect page is lost each time the backend still has its grant mapped
  (`ScsiGrantPool.PagesAfterDone`, `ScsiGrantPool.KeptPageStops`); with them, entries that leave their page
  stop the machine (`ScsiGrantPool.CrossingWriteStops`).
- Without persistent grants `scsifront` grants the first page of a scatterlist entry for each of its
  segments, which is right if and only if no entry used reaches a second page (`ScsiGrantPool.GrantedPages`,
  `ScsiGrantPool.SecondPageNotGranted`).
- Nor is a segment granted its own page where a grant kept from an indirect page heads the list
  (`ScsiGrantPool.OwnPagesGranted`, `ScsiGrantPool.KeptGrantMisused`).
- `fill_grant_buffer` out of memory empties the list without counting and stops at its BUG_ON if and only
  if there was something on the list before (`ScsiGrantPool.Frontend.FillGrantBuffer`,
  `ScsiGrantPool.FillingStops`).
- A resume of `blkfront` that finds the device not connected, because an earlier one failed or the backend
  is not back yet, drops exactly the requests in flight (`BlkShadow.Device.Resume`,
  `BlkShadow.Device.ResumeAgain`, `BlkShadow.SecondResumeLoses`).
- `blkif_completion` ends the grants of a response before its id is looked at: of the requests completed and
  no others, once each, if and only if no id in range is repeated or not in use
  (`BlkShadow.EndedOnceIffHonest`).
- A watch whose registration fails can be called back after the error was returned. It is quiet if and only
  if every event that came in since has been taken and its callback is over, or was cancelled
  (`WatchDelivery.FailedRegistrationMayFire`, `WatchDelivery.FailedRegistrationQuiet`).
- With auto-translation, pages from `alloc_empty_pages_and_pagevec` that come from the allocator are not
  marked reserved, and their return ends at the BUG_ON of `balloon_append` (`Balloon.Balloon.FreeEmptyPages`,
  `Balloon.LentPageStops`).
- `strncat_s` reports an overlap for disjoint buffers when the appended characters end right at the
  destination (`StringConcat.DisjointConcatenation`, `StringConcat.TouchingReported`).
- The description above `strcat_s` promises `EOVERLAP_AND_RESET` for overlapping buffers. It is given if and
  only if one pointer runs into the other buffer (`StringConcat.OverlapReportedIff`), which leaves out a
  source that starts at the destination or its terminator, one from below that does not get there before the
  buffer is full, and one behind the string too short to be reached (`StringConcat.StrcatOverlapPromise`,
  `StringConcat.OverlapUnreported`, `StringConcat.SelfAppendFillsBuffer`).

## What is taken for granted

- Memory is sequentially consistent.
- The hypervisor, the allocators and the other domain answer with any value in the range the driver checks.
- Where a theorem needs a backend that keeps to its protocol, it says so: responses are not ahead of the
  requests published, and an id is answered once (`Honest`). A grant whose request is answered is no longer
  in use by the network backend.
- Macros of headers that are not in the repository: `RING_FULL` holds when the ring has as many unanswered
  requests as slots; ring sizes are powers of two; `VSCSI_INDIRECT_PAGES(n)` is the ceiling of `n` by the
  number of segments in an indirect page, which is a parameter.
- A grant frame has 512 entries, a page 4096 bytes, a machine word 64 bits; the xenstore ring has 1024
  bytes, and a page holds 1024 entries of the grant list. Grant references of `netfront` are below 0x8000, as its `(signed short)ref >= 0` check needs.
- A request and a response of the receive ring share an entry, with the grant of the one over the flags of
  the other, low half first, as on x86.
- The kernel does not run a timer's handler beside itself, so the deferred list has one handler at a time.
- Page frame 0 is never given out, and an index that leaves its array stops the machine.
- Ring indices of the network driver are counters whose low 32 bits the driver holds; `NetfrontRx.LowWords`
  shows that its differences and slot numbers are the same.

## Model

| member | source | states |
|---|---|---|
| GrantTable.Table.GetFreeEntries | uvp-xenpv/uvp-classic_xen_driver-3.12.xto3.16.x/xen-platform-pci/gnttab.c:77-101 | the free chain, grown first if it is too short, is cut: its first entries become one private chain in the same order and the rest stays free; an error, which changes nothing, comes exactly from a chain that is too short where the missing entries do not fit under the frame limit, the mapping fails, or the list pages for them are not to be had; the count is right afterwards exactly if the count asked for was not 0, and a count of 0 on an empty chain follows a link outside the table |
| GrantTable.ListsGet | uvp-xenpv/uvp-classic_xen_driver-3.12.xto3.16.x/xen-platform-pci/gnttab.c:89-96 | cutting n entries off the free chain leaves a partition of the table into chains, and a count that agrees with the free chain if and only if more than 0 entries were wanted |
| GrantTable.ZeroCountBreaks | uvp-xenpv/uvp-classic_xen_driver-3.12.xto3.16.x/xen-platform-pci/gnttab.c:89-96 | concrete case: a request for 0 entries on the first table takes entry 8 off the free chain and leaves the count at 504 |
| GrantTable.ChainCut | uvp-xenpv/uvp-classic_xen_driver-3.12.xto3.16.x/xen-platform-pci/gnttab.c:91-96 | a chain cut behind its n-th entry gives two END-terminated, duplicate-free chains, each holding exactly the entries of its own place |
| GrantTable.PartitionGet | uvp-xenpv/uvp-classic_xen_driver-3.12.xto3.16.x/xen-platform-pci/gnttab.c:89-96 | after a get every entry is still reserved, free, on exactly one private chain, or claimed |
| GrantTable.Table.Claim | uvp-xenpv/uvp-classic_xen_driver-3.12.xto3.16.x/xen-platform-pci/gnttab.c:434-441 | claims the first entry of a private chain and nothing else, or reports -ENOSPC exactly for an empty chain; the partition is kept |
| GrantTable.PartitionClaim | uvp-xenpv/uvp-classic_xen_driver-3.12.xto3.16.x/xen-platform-pci/gnttab.c:434-441 | taking the head off a private chain leaves all other chains as they were |
| GrantTable.Table.Release | uvp-xenpv/uvp-classic_xen_driver-3.12.xto3.16.x/xen-platform-pci/gnttab.c:444-449 | a claimed entry goes to the front of a private chain; the partition is kept |
| GrantTable.PartitionRelease | uvp-xenpv/uvp-classic_xen_driver-3.12.xto3.16.x/xen-platform-pci/gnttab.c:444-449 | a claimed entry pushed on a private chain touches no other chain |
| GrantTable.Table.PutFreeEntry | uvp-xenpv/uvp-classic_xen_driver-3.12.xto3.16.x/xen-platform-pci/gnttab.c:132-141 | a claimed entry goes to the front of the free chain, the count goes up by one, and exactly the callbacks that no longer have to wait are run |
| GrantTable.Table.FreeGrantReferences | uvp-xenpv/uvp-classic_xen_driver-3.12.xto3.16.x/xen-platform-pci/gnttab.c:394-412 | a whole private chain, whatever its length, goes in front of the free chain in its own order, and the callbacks that can be are run; an empty chain changes nothing |
| GrantTable.Table.LastOf | uvp-xenpv/uvp-classic_xen_driver-3.12.xto3.16.x/xen-platform-pci/gnttab.c:402-406 | the walk along a private chain ends at its last entry and has counted its length |
| GrantTable.ChainSplice | uvp-xenpv/uvp-classic_xen_driver-3.12.xto3.16.x/xen-platform-pci/gnttab.c:402-409 | linking the last entry of one chain to the head of another gives one chain with the entries of both |
| GrantTable.PartitionSplice | uvp-xenpv/uvp-classic_xen_driver-3.12.xto3.16.x/xen-platform-pci/gnttab.c:402-409 | splicing a private chain back keeps the partition of the table |
| GrantTable.Table.GrowList | uvp-xenpv/uvp-classic_xen_driver-3.12.xto3.16.x/xen-platform-pci/gnttab.c:488-517 | fails exactly if the list needs more pages for the new entries than can be had, and then changes nothing; otherwise the entries of the new frames, in ascending order, are in front of the free chain, and the callbacks whose count is reached are run |
| GrantTable.PartitionGrow | uvp-xenpv/uvp-classic_xen_driver-3.12.xto3.16.x/xen-platform-pci/gnttab.c:504-510 | the entries of new frames join the free chain and no other chain notices |
| GrantTable.Table.Expand | uvp-xenpv/uvp-classic_xen_driver-3.12.xto3.16.x/xen-platform-pci/gnttab.c:911-926 | -ENOSPC exactly if the required entries do not fit under the frame limit, -ENOMEM exactly if the list needs more pages than can be had, and each error changes nothing; else the frames added are the fewest that hold the required entries |
| GrantTable.Table.constructor | uvp-xenpv/uvp-classic_xen_driver-3.12.xto3.16.x/xen-platform-pci/gnttab.c:964-976 | after initialisation the free chain is exactly entries 8 to 511, and nothing is private or waiting |
| GrantTable.PartitionInitial | uvp-xenpv/uvp-classic_xen_driver-3.12.xto3.16.x/xen-platform-pci/gnttab.c:971-976 | the links written at initialisation make one chain of all entries that are not reserved |
| GrantTable.ChainsDisjoint | uvp-xenpv/uvp-classic_xen_driver-3.12.xto3.16.x/xen-platform-pci/gnttab.c:77-101 | the free chain and the private chains share no entry, and every entry that is not reserved or claimed is on one of them |
| GrantTable.Table.DoFreeCallbacks | uvp-xenpv/uvp-classic_xen_driver-3.12.xto3.16.x/xen-platform-pci/gnttab.c:105-124 | runs, in the order of the list, exactly the callbacks whose count is reached, and keeps the others in reverse order |
| GrantTable.CallbacksSplit | uvp-xenpv/uvp-classic_xen_driver-3.12.xto3.16.x/xen-platform-pci/gnttab.c:105-124 | every callback of the list is either run or kept, once |
| GrantTable.KeptIffWaiting | uvp-xenpv/uvp-classic_xen_driver-3.12.xto3.16.x/xen-platform-pci/gnttab.c:105-124 | a callback is kept if and only if its count is more than the free count |
| GrantTable.KeptDistinct | uvp-xenpv/uvp-classic_xen_driver-3.12.xto3.16.x/xen-platform-pci/gnttab.c:105-124 | no callback is kept or run twice |
| GrantTable.Table.NoWakeUpLost | uvp-xenpv/uvp-classic_xen_driver-3.12.xto3.16.x/xen-platform-pci/gnttab.c:105-141 | between any two operations every callback on the list asks for more entries than are free |
| GrantTable.Table.RequestFreeCallback | uvp-xenpv/uvp-classic_xen_driver-3.12.xto3.16.x/xen-platform-pci/gnttab.c:452-468 | a callback already queued is left alone; any other is put on the list once and run at once if its count is already there: no wake-up is lost |
| GrantTable.Table.CancelFreeCallback | uvp-xenpv/uvp-classic_xen_driver-3.12.xto3.16.x/xen-platform-pci/gnttab.c:471-485 | the callback, and only it, leaves the list, and its queued mark with it |
| GrantTable.LoggedAfter | uvp-xenpv/uvp-classic_xen_driver-3.12.xto3.16.x/xen-platform-pci/gnttab.c:105-124 | every queueing of a callback is matched by one run, one cancellation, or one place on the list |
| GrantRevocation.FreeGrantsAreClear | uvp-xenpv/uvp-classic_xen_driver-3.12.xto3.16.x/xen-platform-pci/gnttab.c:187-199 | in every interleaving with the remote domain a grant on the free list permits nothing and has no user |
| GrantRevocation.ClearedThenPutThenFreed | uvp-xenpv/uvp-classic_xen_driver-3.12.xto3.16.x/xen-platform-pci/gnttab.c:187-325 | for each ending of a grant: the free list at most once and only after the clearing cmpxchg, the page at most once and only after the free list |
| GrantRevocation.ClearedOnlyWhenUnused | uvp-xenpv/uvp-classic_xen_driver-3.12.xto3.16.x/xen-platform-pci/gnttab.c:187-199 | the clearing happens in one atomic step that finds neither reading nor writing and leaves the flags zero |
| GrantRevocation.InvariantKept | uvp-xenpv/uvp-classic_xen_driver-3.12.xto3.16.x/xen-platform-pci/gnttab.c:187-300 | every step of any caller, of the timer handler and of the remote domain keeps the books on who holds which ending |
| GrantRevocation.ListKept | uvp-xenpv/uvp-classic_xen_driver-3.12.xto3.16.x/xen-platform-pci/gnttab.c:220-290 | the deferred list holds busy endings only, each once |
| GrantRevocation.FinishedStays | uvp-xenpv/uvp-classic_xen_driver-3.12.xto3.16.x/xen-platform-pci/gnttab.c:220-290 | an ending that is finished, or leaked for want of memory, is never taken up again |
| GrantRevocation.FinishedGivesBack | uvp-xenpv/uvp-classic_xen_driver-3.12.xto3.16.x/xen-platform-pci/gnttab.c:220-300 | an ending that is finished has put its grant on the free list, and freed its page exactly if it was given one, whoever did it |
| GrantRevocation.DeferredIsTimed | uvp-xenpv/uvp-classic_xen_driver-3.12.xto3.16.x/xen-platform-pci/gnttab.c:260-290 | in every run, while an ending is deferred and the handler is not at work, the timer is armed |
| GrantRevocation.BusyOnlyIfUsed | uvp-xenpv/uvp-classic_xen_driver-3.12.xto3.16.x/xen-platform-pci/gnttab.c:187-199 | a caller, or the handler, gives an ending up as busy only if the remote domain was using the grant at some moment since the caller began, or since the handler took the entry |
| GrantRevocation.LookedAtOnce | uvp-xenpv/uvp-classic_xen_driver-3.12.xto3.16.x/xen-platform-pci/gnttab.c:222-260 | in one run of the handler no entry is looked at twice, however many are deferred meanwhile, and no more than ten are |
| GrantRevocation.AllLookedAt | uvp-xenpv/uvp-classic_xen_driver-3.12.xto3.16.x/xen-platform-pci/gnttab.c:222-260 | a run that ends has looked at ten entries, or at every entry that was on the list when it took the lock |
| GrantRevocation.NeverStuck | uvp-xenpv/uvp-classic_xen_driver-3.12.xto3.16.x/xen-platform-pci/gnttab.c:187-290 | while an ending is under way or deferred, a caller, the timer or the handler can take its next step |
| GrantRevocation.BogusIffEmptyAtLock | uvp-xenpv/uvp-classic_xen_driver-3.12.xto3.16.x/xen-platform-pci/gnttab.c:220-234 | the timer handler takes an entry that is not there if and only if nothing is deferred as it takes the lock |
| GrantRevocation.BogusOnlyFirstRound | uvp-xenpv/uvp-classic_xen_driver-3.12.xto3.16.x/xen-platform-pci/gnttab.c:226-258 | only the first round of a handler run can take such an entry |
| GrantRevocation.BogusIffNoneSinceFire | uvp-xenpv/uvp-classic_xen_driver-3.12.xto3.16.x/xen-platform-pci/gnttab.c:220-290 | seen from the firing of the timer: if and only if the list was empty then and nobody deferred an entry before the handler had the lock |
| GrantRevocation.TimerCanFireOnEmptyList | uvp-xenpv/uvp-classic_xen_driver-3.12.xto3.16.x/xen-platform-pci/gnttab.c:220-290 | concrete run: an entry deferred while the handler has released the lock arms the timer again, the handler ends both entries, and the timer then fires on an empty list |
| GrantRevocation.FiredEmptyYetReal | uvp-xenpv/uvp-classic_xen_driver-3.12.xto3.16.x/xen-platform-pci/gnttab.c:220-290 | concrete run: the timer fires on an empty list, an entry is deferred before the handler has the lock, and the handler takes that one |
| EventScan.Dispatcher.Interrupt | uvp-xenpv/uvp-classic_xen_driver-3.12.xto3.16.x/xen-platform-pci/evtchn.c:235-327 | from any saved position the two-level scan ends; it clears exactly the active ports of the selected words and runs the handler of each bound one exactly once, in the order that goes on behind the saved position, and saves the last position |
| EventScan.Dispatcher.ScanSelected | uvp-xenpv/uvp-classic_xen_driver-3.12.xto3.16.x/xen-platform-pci/evtchn.c:264-323 | the outer loop leaves no selected word, and has served all that was due in the order of the words and bits behind the start position, going round once |
| EventScan.GoesOnBehind | uvp-xenpv/uvp-classic_xen_driver-3.12.xto3.16.x/xen-platform-pci/evtchn.c:258-284 | where the first selected word behind the saved one has a port to serve behind the saved bit, the first such port is served first of all |
| EventScan.Dispatcher.VisitWord | uvp-xenpv/uvp-classic_xen_driver-3.12.xto3.16.x/xen-platform-pci/evtchn.c:276-322 | a visit to a word serves the active ports from the start position on, and drops the word once none is left |
| EventScan.Dispatcher.ScanWord | uvp-xenpv/uvp-classic_xen_driver-3.12.xto3.16.x/xen-platform-pci/evtchn.c:281-318 | the inner loop serves exactly the active ports of the word at or behind its start position |
| EventScan.Dispatcher.Serve | uvp-xenpv/uvp-classic_xen_driver-3.12.xto3.16.x/xen-platform-pci/evtchn.c:287-317 | one active port: its pending bit is cleared and its handler runs exactly if it has one |
| EventScan.Dispatcher.ActiveWord | uvp-xenpv/uvp-classic_xen_driver-3.12.xto3.16.x/xen-platform-pci/evtchn.c:229-233 | bit by bit what is pending and not masked |
| EventDelivery.NoEventLost | uvp-xenpv/uvp-classic_xen_driver-3.12.xto3.16.x/xen-platform-pci/evtchn.c:226-327 | with the hypervisor setting pending, selector and upcall bits in between: once it has set the first two, the word of an unmasked pending port is in the selector or in the scan's own copy, and an idle guest has its upcall flag set |
| EventDelivery.HandledExactlyOnce | uvp-xenpv/uvp-classic_xen_driver-3.12.xto3.16.x/xen-platform-pci/evtchn.c:235-327 | with ports bound and unbound at any time: every event raised is pending, just in service, handled, or cleared for want of a handler, and only one of these, once |
| EventDelivery.IgnoredOnlyUnbound | uvp-xenpv/uvp-classic_xen_driver-3.12.xto3.16.x/xen-platform-pci/evtchn.c:289-303 | no event of a port that stays bound is cleared without its handler, and none of a port never bound runs one |
| EventDelivery.NoneIgnoredWhileBound | uvp-xenpv/uvp-classic_xen_driver-3.12.xto3.16.x/xen-platform-pci/evtchn.c:289-303 | from the binding of a port until its unbinding no event of it is cleared without its handler |
| EventDelivery.MaskedUntouched | uvp-xenpv/uvp-classic_xen_driver-3.12.xto3.16.x/xen-platform-pci/evtchn.c:229-233 | no event of a masked port is taken |
| EventDelivery.NeverStuck | uvp-xenpv/uvp-classic_xen_driver-3.12.xto3.16.x/xen-platform-pci/evtchn.c:226-327 | while an unmasked event is visible the guest can take its next step, serving a port as long as the word it visits has one, or the hypervisor is about to raise the interrupt |
| EventDelivery.InvariantKept | uvp-xenpv/uvp-classic_xen_driver-3.12.xto3.16.x/xen-platform-pci/evtchn.c:235-327 | each step of hypervisor and guest keeps what the two results rest on |
| EventBinding.BindKeepsInverse | uvp-xenpv/uvp-classic_xen_driver-3.12.xto3.16.x/xen-platform-pci/evtchn.c:128-140 | binding a port to a free irq keeps evtchn_to_irq and irq_evtchn inverse if and only if the port is not 0 and not bound |
| EventBinding.BindBreaksInverse | uvp-xenpv/uvp-classic_xen_driver-3.12.xto3.16.x/xen-platform-pci/evtchn.c:156-183 | concrete cases: port 0, and a port already bound |
| EventBinding.UnbindKeepsInverse | uvp-xenpv/uvp-classic_xen_driver-3.12.xto3.16.x/xen-platform-pci/evtchn.c:193-202 | unbinding keeps the two maps inverse |
| EventBinding.Binding.AllocIrq | uvp-xenpv/uvp-classic_xen_driver-3.12.xto3.16.x/xen-platform-pci/evtchn.c:62-86 | hands out the lowest free irq from 1 on, or an error exactly if all are taken |
| EventBinding.Binding.BindCallerPort | uvp-xenpv/uvp-classic_xen_driver-3.12.xto3.16.x/xen-platform-pci/evtchn.c:156-183 | the maps gain exactly the new pair, and are inverse again exactly for a real, unbound port; an error changes nothing |
| EventBinding.Binding.BindListeningPort | uvp-xenpv/uvp-classic_xen_driver-3.12.xto3.16.x/xen-platform-pci/evtchn.c:115-153 | fails exactly if the hypervisor refuses or all irqs are taken, and then changes nothing; else the maps gain exactly the pair of its port and the lowest free irq, and stay inverse |
| EventBinding.Binding.Unbind | uvp-xenpv/uvp-classic_xen_driver-3.12.xto3.16.x/xen-platform-pci/evtchn.c:186-213 | frees the irq and its port; an irq left without a port by a resume touches no port bound since |
| EventBinding.Binding.Resume | uvp-xenpv/uvp-classic_xen_driver-3.12.xto3.16.x/xen-platform-pci/evtchn.c:329-340 | masks and unbinds every port while the irq numbers stay taken |
| XenstoreRing.ReceivedIsPrefix | uvp-xenpv/uvp-classic_xen_driver-3.12.xto3.16.x/xen-platform-pci/xenbus_comms.c:127-239 | in every interleaving of byte-wise copies on both sides the bytes received are a prefix of the bytes sent, at most 1024 behind, and equal indices mean that all was received |
| XenstoreRing.InvariantKept | uvp-xenpv/uvp-classic_xen_driver-3.12.xto3.16.x/xen-platform-pci/xenbus_comms.c:127-239 | each of the six steps keeps the stream, the indices and both half-finished copies consistent |
| XenstoreRing.CheckAlwaysPasses | uvp-xenpv/uvp-classic_xen_driver-3.12.xto3.16.x/xen-platform-pci/xenbus_comms.c:95-98 | with both sides keeping to the protocol the index check never fails, although the indices wrap at 32 bits |
| XenstoreRing.WaitYieldsChunk | uvp-xenpv/uvp-classic_xen_driver-3.12.xto3.16.x/xen-platform-pci/xenbus_comms.c:145-148 | after room or data was seen in the wait a chunk is not empty, whatever the other side has done in between: with an honest peer the retry branch is not taken |
| XenstoreRing.SeenStays | uvp-xenpv/uvp-classic_xen_driver-3.12.xto3.16.x/xen-platform-pci/xenbus_comms.c:135-148 | room that the producer has seen stays until it publishes, and data that the consumer has seen until it releases |
| XenstoreRing.ProducerFinishes | uvp-xenpv/uvp-classic_xen_driver-3.12.xto3.16.x/xen-platform-pci/xenbus_comms.c:144-166 | a producer inside a chunk can always take its next step, and is done after as many as it has bytes left, and one |
| XenstoreRing.ConsumerFinishes | uvp-xenpv/uvp-classic_xen_driver-3.12.xto3.16.x/xen-platform-pci/xenbus_comms.c:209-231 | and so is a consumer |
| XenstoreRing.OutputChunk | uvp-xenpv/uvp-classic_xen_driver-3.12.xto3.16.x/xen-platform-pci/xenbus_comms.c:100-108 | the output chunk is contiguous, holds free space only, and all of it up to the end of the buffer |
| XenstoreRing.InputChunk | uvp-xenpv/uvp-classic_xen_driver-3.12.xto3.16.x/xen-platform-pci/xenbus_comms.c:110-118 | the input chunk is contiguous, holds unread bytes only, and all of them up to the end of the buffer |
| XenstoreRing.ChunksInside | uvp-xenpv/uvp-classic_xen_driver-3.12.xto3.16.x/xen-platform-pci/xenbus_comms.c:100-118 | for any two indices that pass the check both chunks lie inside the buffer |
| XenstoreRing.Ring.Write | uvp-xenpv/uvp-classic_xen_driver-3.12.xto3.16.x/xen-platform-pci/xenbus_comms.c:127-174 | appends all the data, or is interrupted exactly where a signal ends a wait, with a proper prefix appended that has grown after every wait before; it resets both indices and fails only if they do not pass the check, which an honest peer never causes; a peer that moves its index after the wait only sends it back to waiting |
| XenstoreRing.Ring.Read | uvp-xenpv/uvp-classic_xen_driver-3.12.xto3.16.x/xen-platform-pci/xenbus_comms.c:193-239 | returns the next bytes of the stream, more after every wait: all that were asked for exactly if it reports success, and interrupted exactly where a signal ends a wait |
| XenstoreRing.Ring.StoreAndPublish | uvp-xenpv/uvp-classic_xen_driver-3.12.xto3.16.x/xen-platform-pci/xenbus_comms.c:155-166 | storing a chunk and advancing the producer index appends the chunk to the stream |
| XenstoreRing.Ring.Fetch | uvp-xenpv/uvp-classic_xen_driver-3.12.xto3.16.x/xen-platform-pci/xenbus_comms.c:220-231 | copying a chunk and advancing the consumer index hands out the next bytes of the stream |
| NetfrontRx.Receiver.GetResponses | uvp-xenpv/uvp-classic_xen_driver-3.12.xto3.16.x/xen-vnif/netfront.c:1307-1431 | takes one packet, as its responses are read: the window of posted buffers loses its slots, gains its extra-info and bad buffers again behind, the good ones are delivered in order and their grants released; it fails exactly if the backend's responses are bad, cut off or too many, and the consumer index then stands behind the slots taken |
| NetfrontRx.Receiver.TakeFrags | uvp-xenpv/uvp-classic_xen_driver-3.12.xto3.16.x/xen-vnif/netfront.c:1325-1418 | the loop over the data slots delivers each good buffer and puts each bad one back, never meeting an empty slot or an invalid grant; a put-back on a full ring overwrites the flags still to be read |
| NetfrontRx.TakesWholePacket | uvp-xenpv/uvp-classic_xen_driver-3.12.xto3.16.x/xen-vnif/netfront.c:1251-1413 | the slots taken are those of the backend's packet if and only if no data slot, with all before it put back on a full ring and responses behind it, has a grant whose bit 2 is not the slot's more_data |
| NetfrontRx.BitTwo | uvp-xenpv/uvp-classic_xen_driver-3.12.xto3.16.x/xen-vnif/netfront.c:1251-1262 | the flag read off an overwritten entry is bit 2 of the grant that was put there |
| NetfrontRx.MisreadDropsPacket | uvp-xenpv/uvp-classic_xen_driver-3.12.xto3.16.x/xen-vnif/netfront.c:1251-1413 | concrete case: a packet of two bad slots takes the next packet's slot with it, and drops that |
| NetfrontRx.FailsAlike | uvp-xenpv/uvp-classic_xen_driver-3.12.xto3.16.x/xen-vnif/netfront.c:1330-1428 | a packet fails or not as the backend's responses say, whatever is overwritten |
| NetfrontRx.Receiver.GetExtras | uvp-xenpv/uvp-classic_xen_driver-3.12.xto3.16.x/xen-vnif/netfront.c:1264-1305 | moves exactly the extra-info slots to the producer end in their order, and fails exactly if they are cut off or one has an invalid type |
| NetfrontRx.Receiver.MoveSlot | uvp-xenpv/uvp-classic_xen_driver-3.12.xto3.16.x/xen-vnif/netfront.c:1251-1262 | puts a buffer behind the last posted one; the slot is always empty (the BUG_ON) |
| NetfrontRx.Receiver.GetSlot | uvp-xenpv/uvp-classic_xen_driver-3.12.xto3.16.x/xen-vnif/netfront.c:207-223 | the next unread slot always holds a buffer and a valid grant, and is empty afterwards |
| NetfrontRx.TakeFirst | uvp-xenpv/uvp-classic_xen_driver-3.12.xto3.16.x/xen-vnif/netfront.c:207-223 | taking the first slot of the window leaves exactly the slots behind it posted |
| NetfrontRx.PutLast | uvp-xenpv/uvp-classic_xen_driver-3.12.xto3.16.x/xen-vnif/netfront.c:1251-1262 | posting behind a window of fewer than 256 slots finds the slot empty and extends the window by it |
| NetfrontRx.PacketConserves | uvp-xenpv/uvp-classic_xen_driver-3.12.xto3.16.x/xen-vnif/netfront.c:1307-1431 | a packet neither loses nor duplicates a buffer or a grant |
| NetfrontRx.Split | uvp-xenpv/uvp-classic_xen_driver-3.12.xto3.16.x/xen-vnif/netfront.c:1330-1405 | the delivered and the returned buffers are together the buffers taken |
| NetfrontRx.AllDelivered | uvp-xenpv/uvp-classic_xen_driver-3.12.xto3.16.x/xen-vnif/netfront.c:1330-1339 | everything is delivered exactly if no response is bad |
| NetfrontRx.Receiver.TakePackets | uvp-xenpv/uvp-classic_xen_driver-3.12.xto3.16.x/xen-vnif/netfront.c:1541-1597 | takes the packets in the order of the ring up to the producer index or until the budget is used up; in rxq are exactly those that do not fail and whose GSO info is accepted, the buffers of all others are dropped, and every buffer is posted, in rxq or dropped; it stops the machine if and only if one of them is an accepted packet of 18 data slots whose first has status 0 |
| NetfrontRx.Receiver.TakePacket | uvp-xenpv/uvp-classic_xen_driver-3.12.xto3.16.x/xen-vnif/netfront.c:1541-1582 | one packet: it goes to rxq if and only if it does not fail and its GSO info is accepted, and all its slots are consumed either way |
| NetfrontRx.Receiver.Poll | uvp-xenpv/uvp-classic_xen_driver-3.12.xto3.16.x/xen-vnif/netfront.c:1512-1655 | passes up exactly the packets taken that do not fail, have no GSO info or an acceptable one, and whose checksum can be set up, in the order of the ring, and counts them; the window goes on behind them, the fill target is lowered for few responses, and the ring refilled; every buffer is posted, queued for refill, passed up or dropped, and the driver's invariant holds again, unless that BUG_ON stops it |
| NetfrontRx.Receiver.FillFrags | uvp-xenpv/uvp-classic_xen_driver-3.12.xto3.16.x/xen-vnif/netfront.c:1433-1462 | for an accepted packet the BUG_ON on pull_to fires if and only if it has 18 buffers and the first has no bytes; the one on nr_frags never does |
| NetfrontRx.EmptyHeadAccepted | uvp-xenpv/uvp-classic_xen_driver-3.12.xto3.16.x/xen-vnif/netfront.c:1319-1428 | concrete case: such a packet is accepted |
| NetfrontRx.Receiver.AllocRxBuffers | uvp-xenpv/uvp-classic_xen_driver-3.12.xto3.16.x/xen-vnif/netfront.c:829-989 | the batch grows up to the target or as far as memory goes; it is posted, whole and in order, unless it is smaller than half the target and no allocation failed, and the target is doubled up to the maximum where few requests are unanswered; the timer is set exactly where an allocation failed; outstanding plus queued buffers stay at 256 or less, and what is posted is published unless the index wrapped |
| NetfrontRx.Receiver.Refill | uvp-xenpv/uvp-classic_xen_driver-3.12.xto3.16.x/xen-vnif/netfront.c:896-984 | posts the whole batch in order; every slot is empty and the grant chain never runs out (both BUG_ONs) |
| NetfrontRx.Receiver.Rebuild | uvp-xenpv/uvp-classic_xen_driver-3.12.xto3.16.x/xen-vnif/netfront.c:2008-2034 | after a reconnect slots 0 to n-1 hold exactly the buffers posted before, in the order of their old slots |
| NetfrontRx.Receiver.Compact | uvp-xenpv/uvp-classic_xen_driver-3.12.xto3.16.x/xen-vnif/netfront.c:2008-2032 | the compaction loop moves each occupied slot down in order and empties the rest |
| NetfrontRx.OccupiedIsRotation | uvp-xenpv/uvp-classic_xen_driver-3.12.xto3.16.x/xen-vnif/netfront.c:2008-2032 | reading a wrapped window slot by slot gives the window rotated |
| NetfrontRx.RotationConserves | uvp-xenpv/uvp-classic_xen_driver-3.12.xto3.16.x/xen-vnif/netfront.c:2008-2034 | rotating the window keeps its buffers and grants |
| NetfrontRx.Receiver.StoreRxbufMin | uvp-xenpv/uvp-classic_xen_driver-3.12.xto3.16.x/xen-vnif/netfront.c:2084-2116 | the new minimum is the value clamped to 8 to 256, and minimum, target and maximum stay ordered |
| NetfrontRx.Receiver.StoreRxbufMax | uvp-xenpv/uvp-classic_xen_driver-3.12.xto3.16.x/xen-vnif/netfront.c:2126-2158 | the new maximum is the value clamped to 8 to 256, and minimum, target and maximum stay ordered |
| NetfrontRx.Receiver.constructor | uvp-xenpv/uvp-classic_xen_driver-3.12.xto3.16.x/xen-vnif/netfront.c:2312-2357 | nothing is posted and all 256 grants are on the private chain |
| NetfrontRx.LowWords | uvp-xenpv/uvp-classic_xen_driver-3.12.xto3.16.x/xen-vnif/netfront.c:202-205 | differences and slot numbers of the 32-bit indices are those of unbounded counters |
| NetfrontRx.EarlyPushTest | uvp-xenpv/uvp-classic_xen_driver-3.12.xto3.16.x/xen-vnif/netfront.c:885-889 | the test before an early push sees unpublished requests if and only if there are some and the 32-bit index did not wrap since the last push |
| NetfrontRx.EarlyPushMissed | uvp-xenpv/uvp-classic_xen_driver-3.12.xto3.16.x/xen-vnif/netfront.c:885-889 | concrete case: two requests posted around the wrap |
| NetfrontTx.Transmitter.StartXmit | uvp-xenpv/uvp-classic_xen_driver-3.12.xto3.16.x/xen-vnif/netfront.c:1093-1216 | a packet is dropped exactly if it is too long, needs more than 18 counted slots or the device refuses it; otherwise the ids run out if and only if it needs more slots than there are free ids, never where netfront_tx_slot_available holds; else the ring ends with its pieces in order, the first slot carrying the total length, more_data on all but the last, and overruns unanswered slots if and only if the pieces and extra slots are more than it has room for |
| NetfrontTx.Transmitter.MakeFrags | uvp-xenpv/uvp-classic_xen_driver-3.12.xto3.16.x/xen-vnif/netfront.c:991-1071 | posts exactly the pieces of the linear part and of the fragments, unless there are more of them than ids |
| NetfrontTx.Transmitter.MakeLinear | uvp-xenpv/uvp-classic_xen_driver-3.12.xto3.16.x/xen-vnif/netfront.c:1005-1027 | cuts the linear part at page boundaries, closing one slot and posting the next |
| NetfrontTx.Transmitter.MakeFragment | uvp-xenpv/uvp-classic_xen_driver-3.12.xto3.16.x/xen-vnif/netfront.c:1041-1067 | posts one fragment page by page |
| NetfrontTx.PacketPartition | uvp-xenpv/uvp-classic_xen_driver-3.12.xto3.16.x/xen-vnif/netfront.c:991-1071 | the pieces cover the bytes of the packet, each once and in order, and none crosses a page |
| NetfrontTx.CountIsExact | uvp-xenpv/uvp-classic_xen_driver-3.12.xto3.16.x/xen-vnif/netfront.c:1125-1126 | as many slots are posted as were counted if and only if the linear part is not empty or does not start on a page boundary; never more than one above |
| NetfrontTx.EmptyLinearMiscounted | uvp-xenpv/uvp-classic_xen_driver-3.12.xto3.16.x/xen-vnif/netfront.c:1125-1126 | concrete case: one slot counted, two posted |
| NetfrontTx.PiecesCount | uvp-xenpv/uvp-classic_xen_driver-3.12.xto3.16.x/xen-vnif/netfront.c:1004-1070 | a buffer of n bytes takes as many pieces as pages it touches |
| NetfrontTx.Transmitter.CountFrags | uvp-xenpv/uvp-classic_xen_driver-3.12.xto3.16.x/xen-vnif/netfront.c:1077-1091 | the count made before sending is the number of pieces of the fragments |
| NetfrontTx.Transmitter.Post | uvp-xenpv/uvp-classic_xen_driver-3.12.xto3.16.x/xen-vnif/netfront.c:1011-1023 | takes the first free id and the first grant and writes the next slot; fails exactly at the end of the id list |
| NetfrontTx.Transmitter.EnoughRoom | uvp-xenpv/uvp-classic_xen_driver-3.12.xto3.16.x/xen-vnif/netfront.c:713-717 | where netfront_tx_slot_available holds, every packet that passes the slot test fits the free ids and the ring, its extra slot included |
| NetfrontTx.ChainGet | uvp-xenpv/uvp-classic_xen_driver-3.12.xto3.16.x/xen-vnif/netfront.c:195-200 | taking an id off the list inside tx_skbs leaves the rest of the list and marks the id used |
| NetfrontTx.ChainAdd | uvp-xenpv/uvp-classic_xen_driver-3.12.xto3.16.x/xen-vnif/netfront.c:189-193 | a used id goes to the front of the list |
| NetfrontTx.Transmitter.TxBufGc | uvp-xenpv/uvp-classic_xen_driver-3.12.xto3.16.x/xen-vnif/netfront.c:765-817 | frees exactly the ids answered, NULL answers free none, and the queue is woken exactly if it was stopped, there is room and the device runs |
| NetfrontTx.Transmitter.StopWhenFull | uvp-xenpv/uvp-classic_xen_driver-3.12.xto3.16.x/xen-vnif/netfront.c:1211-1212 | after a packet the queue runs only where netfront_tx_slot_available holds |
| NetfrontTx.Transmitter.Open | uvp-xenpv/uvp-classic_xen_driver-3.12.xto3.16.x/xen-vnif/netfront.c:740-763 | the queue runs after opening whether there is room or not; what holds between calls holds again if and only if there is room |
| NetfrontTx.Transmitter.Close | uvp-xenpv/uvp-classic_xen_driver-3.12.xto3.16.x/xen-vnif/netfront.c:1830-1836 | the queue is stopped, ids and grants stay as they are |
| NetfrontTx.ReopenedFull | uvp-xenpv/uvp-classic_xen_driver-3.12.xto3.16.x/xen-vnif/netfront.c:740-763 | concrete run: packets are sent until the queue stops, and closing and opening leaves it running without room |
| NetfrontTx.RunsOutAfterReopening | uvp-xenpv/uvp-classic_xen_driver-3.12.xto3.16.x/xen-vnif/netfront.c:740-763 | concrete run: the next packet then runs out of ids |
| NetfrontTx.Transmitter.ReleaseAll | uvp-xenpv/uvp-classic_xen_driver-3.12.xto3.16.x/xen-vnif/netfront.c:1693-1710 | after a reconnect every id is free and every grant is back |
| NetfrontTx.Transmitter.constructor | uvp-xenpv/uvp-classic_xen_driver-3.12.xto3.16.x/xen-vnif/netfront.c:2333-2346 | all 256 ids are on the list and all grants on the private chain |
| ScsiGrantPool.Frontend.MapData | uvp-xenpv/uvp-classic_xen_driver-3.12.xto3.16.x/xen-scsi/scsifront.c:442-603 | how a request ends: without memory exactly if the valid grants do not cover max_grefs and no reserve can be had; too big exactly if offset and data length need more than max_grefs pages; stopped exactly if Fits does not hold, that is if its segments have no places in the arrays of the request, indirect pages are missing without persistent grants, or an entry of a write to be copied leaves its page; else it holds the first grants of the list, in order, and the pool is in order |
| ScsiGrantPool.Frontend.MapReserved | uvp-xenpv/uvp-classic_xen_driver-3.12.xto3.16.x/xen-scsi/scsifront.c:462-600 | with the reserve made up to max_grefs the mapping succeeds if and only if Fits holds, so neither get_grant's BUG_ONs nor an empty list can stop it |
| ScsiGrantPool.Frontend.FitsWhenNoneKept | uvp-xenpv/uvp-classic_xen_driver-3.12.xto3.16.x/xen-scsi/scsifront.c:508-550 | as long as no indirect grant was found still mapped, only more segments than advertised, or a write to be copied from an entry that leaves its page, can stop the machine |
| ScsiGrantPool.CrossingWriteStops | uvp-xenpv/uvp-classic_xen_driver-3.12.xto3.16.x/xen-scsi/scsifront.c:548-552 | concrete run: a persistent write of two bytes across a page boundary |
| ScsiGrantPool.KeptPageStops | uvp-xenpv/uvp-classic_xen_driver-3.12.xto3.16.x/xen-scsi/scsifront.c:517-521 | concrete run: the backend keeps the one indirect page, and the same request stops the machine the next time |
| ScsiGrantPool.PagesAfterDone | uvp-xenpv/uvp-classic_xen_driver-3.12.xto3.16.x/xen-scsi/scsifront.c:232-253 | every indirect page is on the list, in a request, or was kept by the backend |
| ScsiGrantPool.Frontend.MapSegments | uvp-xenpv/uvp-classic_xen_driver-3.12.xto3.16.x/xen-scsi/scsifront.c:499-592 | the loops over the scatterlist visit exactly the segments, and fail exactly if prefix and reserve are too short, the arrays too small, the indirect pages too few, or an entry to be copied leaves its page |
| ScsiGrantPool.Frontend.MapSegment | uvp-xenpv/uvp-classic_xen_driver-3.12.xto3.16.x/xen-scsi/scsifront.c:508-590 | one segment, and an indirect page where one begins: each takes the next grant of the list, the latter also a page |
| ScsiGrantPool.Frontend.GetGrant | uvp-xenpv/uvp-classic_xen_driver-3.12.xto3.16.x/xen-scsi/scsifront.c:71-105 | the head of the list is used if valid, else gets a grant from the reserve; it stops exactly if list prefix and reserve are used up |
| ScsiGrantPool.TakeNext | uvp-xenpv/uvp-classic_xen_driver-3.12.xto3.16.x/xen-scsi/scsifront.c:71-105 | taking the head keeps the list a valid prefix followed by an invalid suffix, and the count its length |
| ScsiGrantPool.CalculateSegs | uvp-xenpv/uvp-classic_xen_driver-3.12.xto3.16.x/xen-scsi/scsifront.c:412-440 | the count made up front is the number of segments mapped |
| ScsiGrantPool.SegmentsCover | uvp-xenpv/uvp-classic_xen_driver-3.12.xto3.16.x/xen-scsi/scsifront.c:412-440 | the segments add up to the data length, or to the scatterlist if that is shorter |
| ScsiGrantPool.CutCovers | uvp-xenpv/uvp-classic_xen_driver-3.12.xto3.16.x/xen-scsi/scsifront.c:419-435 | an entry takes as many segments as pages it touches, none crossing a page |
| ScsiGrantPool.GrantedPages | uvp-xenpv/uvp-classic_xen_driver-3.12.xto3.16.x/xen-scsi/scsifront.c:540-540 | without persistent grants each segment is granted its own page if and only if no entry reaches into a second page |
| ScsiGrantPool.OwnPagesGranted | uvp-xenpv/uvp-classic_xen_driver-3.12.xto3.16.x/xen-scsi/scsifront.c:71-105 | without persistent grants each segment is granted its page if and only if no valid grant at the head of the list, kept from an indirect page, goes to a segment of another page |
| ScsiGrantPool.KeptGrantMisused | uvp-xenpv/uvp-classic_xen_driver-3.12.xto3.16.x/xen-scsi/scsifront.c:71-105 | concrete run: the grant of a kept indirect page goes to a data segment |
| ScsiGrantPool.SecondPageNotGranted | uvp-xenpv/uvp-classic_xen_driver-3.12.xto3.16.x/xen-scsi/scsifront.c:540-540 | concrete case: two bytes across a page boundary |
| ScsiGrantPool.PageTestTooWeak | uvp-xenpv/uvp-classic_xen_driver-3.12.xto3.16.x/xen-scsi/scsifront.c:493-498 | concrete case: 28 bytes in 14 entries pass the page test as 2 pages and have more segments than the 26 grants and places there are |
| ScsiGrantPool.IndirectPagesNext | uvp-xenpv/uvp-classic_xen_driver-3.12.xto3.16.x/xen-scsi/scsifront.c:509-516 | an indirect page is taken exactly as often as the ceiling of the segment count asks for |
| ScsiGrantPool.Frontend.GnttabDone | uvp-xenpv/uvp-classic_xen_driver-3.12.xto3.16.x/xen-scsi/scsifront.c:154-256 | a BUG stops it exactly for a read to be copied from an entry that leaves its page, or a data grant still mapped without persistent grants; else the list is, from the front, the grants still mapped, the last one first, the list as it was, and the other grants in order, ended; the indirect pages but those still mapped return |
| ScsiGrantPool.GiveBack | uvp-xenpv/uvp-classic_xen_driver-3.12.xto3.16.x/xen-scsi/scsifront.c:203-227 | either way of returning an entry keeps the valid prefix and its count |
| ScsiGrantPool.PoolAfterMap | uvp-xenpv/uvp-classic_xen_driver-3.12.xto3.16.x/xen-scsi/scsifront.c:442-603 | list and requests together always hold as many entries as the ring can need |
| ScsiGrantPool.RoomForOne | uvp-xenpv/uvp-classic_xen_driver-3.12.xto3.16.x/xen-scsi/xenbus.c:667-667 | while a request slot is idle the list holds enough entries for a request of full size |
| ScsiGrantPool.Frontend.Drain | uvp-xenpv/uvp-classic_xen_driver-3.12.xto3.16.x/xen-scsi/xenbus.c:117-147 | emptying both lists counts every valid grant off: the count ends at 0, and there are indirect pages only without persistent grants (both BUG_ONs) |
| ScsiGrantPool.CountIsPrefix | uvp-xenpv/uvp-classic_xen_driver-3.12.xto3.16.x/xen-scsi/xenbus.c:118-132 | the count is the number of valid grants on the list |
| ScsiGrantPool.Frontend.FillGrantBuffer | uvp-xenpv/uvp-classic_xen_driver-3.12.xto3.16.x/xen-scsi/xenbus.c:51-92 | adds exactly num invalid entries in front if memory allows; else it empties the list, and the BUG_ON fires if and only if the list was not empty before |
| ScsiGrantPool.FillingStops | uvp-xenpv/uvp-classic_xen_driver-3.12.xto3.16.x/xen-scsi/xenbus.c:51-92 | concrete run: memory runs out in a second filling |
| ScsiGrantPool.Frontend.SetupIndirect | uvp-xenpv/uvp-classic_xen_driver-3.12.xto3.16.x/xen-scsi/xenbus.c:643-720 | sets the segment limit and makes a pool, and indirect pages, for a full ring, exactly if memory allows |
| BlkShadow.Device.Issue | uvp-xenpv/uvp-classic_xen_driver-3.12.xto3.16.x/xen-vbd/blkfront.c:791-799 | a free id is taken, marked in use and put on the ring with its request; the list inside the shadow array stays free of cycles and apart from the ids in use |
| BlkShadow.Device.AddId | uvp-xenpv/uvp-classic_xen_driver-3.12.xto3.16.x/xen-vbd/blkfront.c:801-812 | an id is freed if and only if it is in use; otherwise nothing changes, and the error tells a wrong entry from one without a request |
| BlkShadow.TestsFindUsed | uvp-xenpv/uvp-classic_xen_driver-3.12.xto3.16.x/xen-vbd/blkfront.c:804-807 | the two tests before freeing an id hold exactly for the ids in use |
| BlkShadow.LinksGet | uvp-xenpv/uvp-classic_xen_driver-3.12.xto3.16.x/xen-vbd/blkfront.c:791-799 | taking the head keeps the free list and the ids in use apart and complete |
| BlkShadow.LinksAdd | uvp-xenpv/uvp-classic_xen_driver-3.12.xto3.16.x/xen-vbd/blkfront.c:801-812 | giving an id back keeps them apart and complete |
| BlkShadow.FreeIdLeft | uvp-xenpv/uvp-classic_xen_driver-3.12.xto3.16.x/xen-vbd/blkfront.c:794-795 | the BUG_ON cannot fire if and only if fewer ids are in use than the ring has slots |
| BlkShadow.Device.TakeResponses | uvp-xenpv/uvp-classic_xen_driver-3.12.xto3.16.x/xen-vbd/blkfront.c:1348-1377 | for any stream of ids, repeated and out of range ones included, exactly the ids in use at their first appearance are freed and their requests completed, in that order; grants are ended for every id in range |
| BlkShadow.EffectiveOnce | uvp-xenpv/uvp-classic_xen_driver-3.12.xto3.16.x/xen-vbd/blkfront.c:1348-1377 | no id takes effect twice, and none that is not in use |
| BlkShadow.HonestTakesEffect | uvp-xenpv/uvp-classic_xen_driver-3.12.xto3.16.x/xen-vbd/blkfront.c:1348-1377 | every answer takes effect if and only if the backend answers each id in use once |
| BlkShadow.EndedOnceIffHonest | uvp-xenpv/uvp-classic_xen_driver-3.12.xto3.16.x/xen-vbd/blkfront.c:1355-1374 | blkif_completion ends the grants of exactly the requests completed, once each, if and only if no id in range is repeated or not in use |
| BlkShadow.Device.Interrupt | uvp-xenpv/uvp-classic_xen_driver-3.12.xto3.16.x/xen-vbd/blkfront.c:1329-1458 | with a backend that answers each id in use once: the requests completed are those answered, in the order of the answers, every request is in flight, saved, queued or completed and only one of these, and the ring is filled again as far as it goes |
| BlkShadow.Device.Kick | uvp-xenpv/uvp-classic_xen_driver-3.12.xto3.16.x/xen-vbd/blkfront.c:864-955 | saved requests are reissued first in, first out, each under an id that was free, and a new request is started only when none is saved any more; it ends with the ring full, or with nothing saved and the queue empty, stopped, or short of grants |
| BlkShadow.Device.Reissue | uvp-xenpv/uvp-classic_xen_driver-3.12.xto3.16.x/xen-vbd/blkfront.c:864-945 | reissues saved requests in order until none is left or the ring is full |
| BlkShadow.Device.DoRequests | uvp-xenpv/uvp-classic_xen_driver-3.12.xto3.16.x/xen-vbd/blkfront.c:1273-1326 | starts requests of the queue in order until it is empty, or stops the queue |
| BlkShadow.Device.ShadowInit | uvp-xenpv/uvp-classic_xen_driver-3.12.xto3.16.x/xen-vbd/blkfront.c:206-214 | links the first entries in ascending order, the last to the end mark |
| BlkShadow.Device.SaveShadow | uvp-xenpv/uvp-classic_xen_driver-3.12.xto3.16.x/xen-vbd/blkfront.c:1569-1606 | saves exactly the requests in flight, in the order of their ids |
| BlkShadow.Device.ResetShadow | uvp-xenpv/uvp-classic_xen_driver-3.12.xto3.16.x/xen-vbd/blkfront.c:1618-1628 | empties the shadow and makes every id of the new ring free |
| BlkShadow.Device.Recover | uvp-xenpv/uvp-classic_xen_driver-3.12.xto3.16.x/xen-vbd/blkfront.c:1562-1640 | the requests in flight join those still saved, and the first of all these, then of the queue, are on the new ring under fresh ids, as many as the ring takes; out of memory nothing changes |
| BlkShadow.RoundConserves | uvp-xenpv/uvp-classic_xen_driver-3.12.xto3.16.x/xen-vbd/blkfront.c:1562-1640 | what was in flight, saved or queued is in flight, saved or queued again |
| BlkShadow.Device.Run | uvp-xenpv/uvp-classic_xen_driver-3.12.xto3.16.x/xen-vbd/blkfront.c:864-1640 | over any number of rounds of new requests, answers and resumes with changing ring sizes no request is lost or duplicated, and those of the block layer are started in the order in which they came |
| BlkShadow.Device.Happen | uvp-xenpv/uvp-classic_xen_driver-3.12.xto3.16.x/xen-vbd/blkfront.c:864-1640 | one such round |
| BlkShadow.Device.Attach | uvp-xenpv/uvp-classic_xen_driver-3.12.xto3.16.x/xen-vbd/blkfront.c:331-335 | linking the list anew makes every id free if and only if the list head is 0 and no entry is in use |
| BlkShadow.Device.TalkToBackend | uvp-xenpv/uvp-classic_xen_driver-3.12.xto3.16.x/xen-vbd/blkfront.c:217-355 | success, and each way it fails: without a ring nothing changes; a failure up to the end of the transaction leaves the device disconnected, want of memory in blkif_recover leaves it suspended on the new ring, and the requests stay where they were; on success none is lost if and only if the device was suspended or had nothing in flight |
| BlkShadow.Device.Resume | uvp-xenpv/uvp-classic_xen_driver-3.12.xto3.16.x/xen-vbd/blkfront.c:187-203 | no request is lost over a resume that succeeds if and only if the device was connected or had nothing in flight; those that are not lost are on the new ring as far as it goes; one that fails, or comes before the backend is ready, leaves all requests where they were and the device no longer connected |
| BlkShadow.Device.ResumeAgain | uvp-xenpv/uvp-classic_xen_driver-3.12.xto3.16.x/xen-vbd/blkfront.c:187-355 | after a resume that failed or came too early, the next one loses exactly what was in flight |
| BlkShadow.SecondResumeLoses | uvp-xenpv/uvp-classic_xen_driver-3.12.xto3.16.x/xen-vbd/blkfront.c:187-203 | concrete run: one request in flight, two resumes, no request left |
| Shutdown.NeverBug | uvp-xenpv/uvp-classic_xen_driver-3.12.xto3.16.x/xen-platform-pci/reboot.c:72-145 | no BUG or BUG_ON is reached in any run, with any number of requesters |
| Shutdown.ExactlyOneResponsible | uvp-xenpv/uvp-classic_xen_driver-3.12.xto3.16.x/xen-platform-pci/reboot.c:38-163 | while shutting_down is not INVALID exactly one requester, work item, handler or thread is responsible for it, and while it is INVALID none is |
| Shutdown.HandedExactlyOnce | uvp-xenpv/uvp-classic_xen_driver-3.12.xto3.16.x/xen-platform-pci/reboot.c:79-163 | the requests accepted have been taken up in order, each by one suspend round or shutdown run, except possibly the one still in the variable |
| Shutdown.NeverDropped | uvp-xenpv/uvp-classic_xen_driver-3.12.xto3.16.x/xen-platform-pci/reboot.c:122-143 | a request is accepted while no other is under way, refused while another one is, or still being tried; it does not get lost |
| Shutdown.SecondTrySucceeds | uvp-xenpv/uvp-classic_xen_driver-3.12.xto3.16.x/xen-platform-pci/reboot.c:130-138 | a try that fails although no other request is under way, as one that meets SHUTDOWN_RESUMING, succeeds the next time unless the variable has changed |
| Shutdown.ResponsibleCanStep | uvp-xenpv/uvp-classic_xen_driver-3.12.xto3.16.x/xen-platform-pci/reboot.c:38-163 | as long as shutting_down is not INVALID the actor responsible for it can take its next step |
| Shutdown.OneOwnerKept | uvp-xenpv/uvp-classic_xen_driver-3.12.xto3.16.x/xen-platform-pci/reboot.c:38-163 | each xchg, cmpxchg and hand-over passes the responsibility on to one actor or ends it |
| Shutdown.HoldsKept | uvp-xenpv/uvp-classic_xen_driver-3.12.xto3.16.x/xen-platform-pci/reboot.c:38-163 | what the variable can hold is known from who is responsible |
| Shutdown.AccountedKept | uvp-xenpv/uvp-classic_xen_driver-3.12.xto3.16.x/xen-platform-pci/reboot.c:38-163 | accepted and taken-up requests stay in step |
| WatchDelivery.QuietAfterReturn | uvp-xenpv/uvp-classic_xen_driver-3.12.xto3.16.x/xen-platform-pci/xenbus_xs.c:763-806 | after unregister_xenbus_watch has returned in a thread other than xenwatch, and until the watch is registered again, no callback of it runs and no event of it is queued, in any interleaving |
| WatchDelivery.UnregisteringUntilReturn | uvp-xenpv/uvp-classic_xen_driver-3.12.xto3.16.x/xen-platform-pci/xenbus_xs.c:776-805 | from the unlinking to the return the unregistration advances as intended whatever other threads do |
| WatchDelivery.PurgeMakesQuiet | uvp-xenpv/uvp-classic_xen_driver-3.12.xto3.16.x/xen-platform-pci/xenbus_xs.c:790-802 | the mutex keeps the xenwatch thread out, so the purge leaves nothing of the watch queued or running |
| WatchDelivery.Unregisters | uvp-xenpv/uvp-classic_xen_driver-3.12.xto3.16.x/xen-platform-pci/xenbus_xs.c:763-806 | a registered watch can be unregistered from any state with the mutex free; undisturbed, exactly the watch and its queued events are gone afterwards |
| WatchDelivery.UnregistersInside | uvp-xenpv/uvp-classic_xen_driver-3.12.xto3.16.x/xen-platform-pci/xenbus_xs.c:788-806 | and so can one by a callback that runs under the mutex |
| WatchDelivery.InnerReturnQuiet | uvp-xenpv/uvp-classic_xen_driver-3.12.xto3.16.x/xen-platform-pci/xenbus_xs.c:788-806 | called from a callback: nothing of the watch is queued, and only the caller's own callback can still be running |
| WatchDelivery.DeliveredInOrder | uvp-xenpv/uvp-classic_xen_driver-3.12.xto3.16.x/xen-platform-pci/xenbus_xs.c:869-929 | the events of a watch that is not unregistered are taken off the queue once each, in the order they came |
| WatchDelivery.ArrivalsQueued | uvp-xenpv/uvp-classic_xen_driver-3.12.xto3.16.x/xen-platform-pci/xenbus_xs.c:988-1009 | from its registration until it is unlinked, or the registration fails, every event of a watch that arrives is queued, once and in the order of arrival |
| WatchDelivery.NeverStuck | uvp-xenpv/uvp-classic_xen_driver-3.12.xto3.16.x/xen-platform-pci/xenbus_xs.c:763-929 | while events are queued or calls under way somebody can take the next step: nobody is deadlocked over xenwatch_mutex |
| WatchDelivery.InvariantKept | uvp-xenpv/uvp-classic_xen_driver-3.12.xto3.16.x/xen-platform-pci/xenbus_xs.c:869-929 | xenwatch_mutex has one holder, and only XBWF_new_thread watches are called back without it |
| WatchDelivery.FailedRegistrationMayFire | uvp-xenpv/uvp-classic_xen_driver-3.12.xto3.16.x/xen-platform-pci/xenbus_xs.c:734-760 | concrete run: an event that comes in before xs_watch fails is called back after the error was returned |
| WatchDelivery.FailedRegistrationQuiet | uvp-xenpv/uvp-classic_xen_driver-3.12.xto3.16.x/xen-platform-pci/xenbus_xs.c:734-760 | at the error return the watch is quiet if and only if every event of it that came in since has been taken and its callback is over, or was cancelled by an unregistration still under way |
| WatchDelivery.QuietIffAllOver | uvp-xenpv/uvp-classic_xen_driver-3.12.xto3.16.x/xen-platform-pci/xenbus_xs.c:869-929 | a watch off the list is quiet exactly if all its events were called back to the end or cancelled |
| WatchDelivery.AccountedAlways | uvp-xenpv/uvp-classic_xen_driver-3.12.xto3.16.x/xen-platform-pci/xenbus_xs.c:763-929 | in every run each event queued is queued, being called back, over, or cancelled, and only one of these |
| Balloon.Balloon.Process | uvp-xenpv/uvp-classic_xen_driver-3.12.xto3.16.x/xen-balloon/balloon.c:412-451 | with a fixed target and no other user the worker ends with the guest at the smaller of its target and all its pages, if and only if no round of 512 pages on the way finds fewer pages than it asks for; otherwise the first such round is the last, and what it found is moved; no page is lost |
| Balloon.Balloon.IncreaseReservation | uvp-xenpv/uvp-classic_xen_driver-3.12.xto3.16.x/xen-balloon/balloon.c:263-335 | takes as many pages from the front of the list as the hypervisor populates, up to a batch, never from an empty list (the BUG_ON), and succeeds exactly for the whole batch; the total is kept |
| Balloon.Balloon.DecreaseReservation | uvp-xenpv/uvp-classic_xen_driver-3.12.xto3.16.x/xen-balloon/balloon.c:337-403 | exactly the pages the allocator gives, up to a batch, join the list; it asks to sleep exactly if the allocator runs dry; the total is kept |
| Balloon.Balloon.Append | uvp-xenpv/uvp-classic_xen_driver-3.12.xto3.16.x/xen-balloon/balloon.c:122-147 | keeps the list lowmem first, reserved, and both counters equal to what is on it; the BUG_ON fires exactly for a page given without accounting that is not reserved |
| Balloon.Balloon.Retrieve | uvp-xenpv/uvp-classic_xen_driver-3.12.xto3.16.x/xen-balloon/balloon.c:150-173 | takes the first page, a lowmem page as long as there is one; it is always reserved (the BUG_ON) |
| Balloon.Balloon.CurrentTarget | uvp-xenpv/uvp-classic_xen_driver-3.12.xto3.16.x/xen-balloon/balloon.c:207-213 | the target, unless the guest does not own that many pages |
| Balloon.Balloon.AllocEmptyPages | uvp-xenpv/uvp-classic_xen_driver-3.12.xto3.16.x/xen-balloon/balloon.c:684-767 | lends the lowmem pages at the front of the list, then the pages the allocator gives, exactly as many as asked for if the two have them; else all are on the list again, those of the allocator too, unless the guest is auto-translated and there were any, where the BUG_ON of balloon_append stops it; the total including lent pages is kept |
| Balloon.Balloon.GiveBack | uvp-xenpv/uvp-classic_xen_driver-3.12.xto3.16.x/xen-balloon/balloon.c:782-785 | exactly the returned pages join the list, and the counters follow, if they are accounted or reserved |
| Balloon.Balloon.TakeBack | uvp-xenpv/uvp-classic_xen_driver-3.12.xto3.16.x/xen-balloon/balloon.c:782-785 | the same with the test of the page count before each page |
| Balloon.Balloon.FreeEmptyPages | uvp-xenpv/uvp-classic_xen_driver-3.12.xto3.16.x/xen-balloon/balloon.c:773-793 | a BUG_ON fires exactly for a page somebody else refers to, or a lent page that is not reserved; else the pages are on the list, pages of the guest count as given up, lent pages as no longer lent, and the total is kept |
| Balloon.Balloon.LentIsReserved | uvp-xenpv/uvp-classic_xen_driver-3.12.xto3.16.x/xen-balloon/balloon.c:663-681 | without auto-translation every lent page is reserved and finds its way back |
| Balloon.LentPageStops | uvp-xenpv/uvp-classic_xen_driver-3.12.xto3.16.x/xen-balloon/balloon.c:710-755 | concrete run: with auto-translation a page from the allocator cannot be returned |
| Balloon.BoundaryAtCount | uvp-xenpv/uvp-classic_xen_driver-3.12.xto3.16.x/xen-balloon/balloon.c:133-146 | the lowmem pages are exactly the first balloon_low pages of the list |
| U64Division.Div64 | uvp-monitor/securec/src/securecutil.c:268-475 | quotient and remainder are those of repeated subtraction for all 64-bit dividends and divisors, on every path; the call is refused exactly for a null quotient or a zero divisor |
| U64Division.Div32 | uvp-monitor/securec/src/securecutil.c:477-524 | the same for a 32-bit divisor; the upper remainder word is always 0, so the late error return is never taken |
| U64Division.DivisionIdentity | uvp-monitor/securec/src/securecutil.c:268-475 | repeated subtraction satisfies quotient * divisor + remainder = dividend with remainder below divisor |
| U64Division.DivisionUnique | uvp-monitor/securec/src/securecutil.c:268-475 | no other pair does |
| U64Division.DivideByWide | uvp-monitor/securec/src/securecutil.c:360-398 | the loop for a divisor of more than 32 bits |
| U64Division.DivideByNarrow | uvp-monitor/securec/src/securecutil.c:399-460 | the two loops for a divisor of at most 32 bits |
| U64Division.NarrowUpper | uvp-monitor/securec/src/securecutil.c:405-426 | the loop that settles the upper quotient word |
| U64Division.LeadingZeros | uvp-monitor/securec/src/securecutil.c:338-358 | the shift that brings the top bit of a word up |
| U64Division.SettleBit | uvp-monitor/securec/src/securecutil.c:379-393 | one round of shift and subtract settles one bit of the quotient |
| U64Division.Compare64 | uvp-monitor/securec/src/securecutil.c:247-266 | the comparison macro orders pairs of words as 64-bit numbers |
| U64Division.Sub64 | uvp-monitor/securec/src/securecutil.c:233-245 | the subtraction macro, with both words wrapping, gives the 64-bit difference |
| StringConcat.DisjointConcatenation | uvp-monitor/securec/src/strncat_s.c:48-155 | for disjoint buffers the call succeeds if and only if the result fits and the appended characters do not end right at the destination; then the memory is the exact concatenation, otherwise the code says which of the two failed |
| StringConcat.TouchingReported | uvp-monitor/securec/src/strncat_s.c:48-155 | concrete case: two buffers without a common byte, reported as overlapping |
| StringConcat.OverlapReportedIff | uvp-monitor/securec/src/strncat_s.c:48-155 | for every layout with a terminated destination: an overlap is reported if and only if the source pointer gets to the destination, or the search or the copying gets from the destination to the source, within the count and the room left |
| StringConcat.AppendedIsConcatenation | uvp-monitor/securec/src/strncat_s.c:48-155 | read as strings, the destination holds its old characters followed by the appended ones |
| StringConcat.StrncatWritesOnlyDestination | uvp-monitor/securec/src/strncat_s.c:48-155 | for every layout and argument only the destMax bytes at the destination can change |
| StringConcat.ResetEmptiesDestination | uvp-monitor/securec/src/strncat_s.c:60-155 | after any error that reports a reset the destination is the empty string |
| StringConcat.StrcatIsStrncat | uvp-monitor/securec/src/strcat_s.c:45-140 | strcat_s is strncat_s with a count of at least destMax, in code and in memory, for every layout |
| StringConcat.SelfAppendFillsBuffer | uvp-monitor/securec/src/strcat_s.c:45-140 | a non-empty string appended to itself is answered ERANGE_AND_RESET |
| StringConcat.StrcatOverlapPromise | uvp-monitor/securec/src/strcat_s.c:20-140 | strcat_s reports only real overlaps, and meets its description for an overlap if and only if the source does not start at the destination or its terminator, a source from below gets there before the buffer is full, and one behind the string is long enough to be reached |
| StringConcat.OverlapUnreported | uvp-monitor/securec/src/strcat_s.c:20-140 | concrete case: a one-letter source inside the destination buffer is appended without a report |
| StringConcat.StrncatS | uvp-monitor/securec/src/strncat_s.c:48-155 | the pointer loops on memory compute the function the lemmas are about |
| StringConcat.StrcatS | uvp-monitor/securec/src/strcat_s.c:45-140 | likewise for strcat_s |

## Left out

Members whose contract is narrower than the code or says less:

- GrantTable.Table.GrowList: the mapping of new frames is a result handed in; the way the error path frees list pages is not modelled.
- GrantTable.Table.FreeGrantReferences: what a callback does is not modelled; it runs under the lock and cannot call the allocator.
- GrantRevocation.ClearedThenPutThenFreed: safety only; nothing is said about when a remote domain stops using an entry, so an ending may stay deferred for ever.
- EventDelivery.HandledExactlyOnce: the two steps of an unbinding, the map entry and the mask, are not told apart, and masks do not change.
- EventScan.Dispatcher.Interrupt: nothing arrives during the scan; arrivals are in `EventDelivery`, which has no claim about how long a scan takes while events keep arriving.
- EventBinding.Binding.Unbind: the wait for a running handler, and the hypervisor's close operation, are left out.
- EventBinding.Binding.BindListeningPort: the hypervisor's port is one that is not bound to an irq, or the operation fails.
- XenstoreRing.Ring.Write: what is said about the stream holds while the peer keeps to the protocol; a peer that moves its index freely ends in the check of the indices, another wait, or other bytes. It may do so any finite number of times.
- XenstoreRing.Ring.Read: the same; where a signal ends a wait is an input.
- NetfrontRx.Receiver.GetResponses: the contents of the responses are arbitrary, but a response is not ahead of the requests published, and the backend does not change it while it is read; which negative error code is returned is not modelled.
- NetfrontRx.Receiver.Poll: what is left where the BUG_ON of `xennet_fill_frags` stops it; whether the GSO info of a packet is accepted, and its checksum can be set up, are inputs; the packets built from the buffers and the statistics are left out, and each packet is passed up or dropped as a whole.
- NetfrontRx.Receiver.AllocRxBuffers: that unpublished requests are always published is not claimed, as the test for it fails when the index wraps (see `EarlyPushTest`).
- NetfrontTx.Transmitter.StartXmit: the queue is not stopped, as the network stack has it; nothing is said about the state after the ids have run out.
- NetfrontTx.Transmitter.TxBufGc: the backend answers each id once, and the grant of an answered request is no longer in use; the source stops with a message on the latter.
- ScsiGrantPool.Frontend.MapData: an entry of the scatterlist starts within its page. A segment without a place in grants_used or in the ring request is taken to stop the machine; the source writes behind the array.
- ScsiGrantPool.Frontend.GetGrant: taking the reference off the private grant chain is taking the head of a sequence; the chain itself is in GrantTable.
- ScsiGrantPool.Frontend.GnttabDone: the bytes copied back are not modelled, only the test; feature_persistent does not change between two connections.
- BlkShadow.Device.Interrupt: for a backend that answers each id in use once; `TakeResponses` has every other stream of ids.
- BlkShadow.Device.TalkToBackend: the steps from the ring to the end of the transaction are one outcome; that probe and backend_changed free the whole device when it fails is not modelled.
- Balloon.Balloon.Process: the target is fixed and nobody else uses the balloon while the worker runs.
- Balloon.Balloon.IncreaseReservation: the BUG_ONs on the answers of the hypervisor about a page's mapping are left out.
- StringConcat.DisjointConcatenation: for a destination that is terminated within destMax bytes, as are the theorems about overlaps; the other cases are in the functions `Strncat` and `Strcat` and in the two theorems about every layout and argument.
- WatchDelivery.QuietAfterReturn: for threads other than xenwatch; for a callback that unregisters there is `InnerReturnQuiet`.

Parts of the repository that are not part of this model:

- Memory barriers and weak memory.
- Hypercalls, page tables, DMA and PCI set-up, other than as arbitrary answers.
- Waiting: that a wait ends, or that a thread is scheduled, is never claimed.
- gnttab.c: page transfer, `warn_delay`, ending several accesses at once, mapping of frames, suspend of the table.
- evtchn.c: the real irq lines, per-processor data beyond the last position, and delivery to more than one processor.
- xenbus_xs.c: transactions, request and reply, `xs_watch` messages, suspend and resume of the watches.
- reboot.c: setting up the suspend event channel, parsing of the sysrq key, the user-mode helper, and what suspending does.
- netfront.c: page-flipping mode, `release_rx_bufs`, acceleration hooks, NAPI bookkeeping, the contents of fragments, the ids inside receive requests, the receive side of `network_open`.
- blkfront.c: requests that are split or use indirect segments, the grants of a request, errors for unsupported operations; how many requests find grants is an input.
- scsifront.c: the list of request ids (a reset keeps its id until its waiter wakes), the bytes copied through persistent pages, clearing of the shadow on resume.
- balloon.c: `alloc_empty_pages_and_pagevec` beside a running `balloon_process`, the watch on the target, the sysfs files.
- securecutil.c: everything but the two divisions.
- The formatted input and output wrappers, and the monitor daemon: input and output, or thin layers over code that is not in the repository.
- The trees for other kernel versions: the same drivers or older ones.
