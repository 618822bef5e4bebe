# Verification of the PCIe DMA driver and the host memory manager

A Dafny model of three stateful parts of the repository, with proofs of what each of them
keeps in every run. The project stands alone: `dafny verify dfyconfig.toml` checks it.

**Transmit engine** (`TxModel`, `TxSteps`, `TxQueue`, `TxTheorems`, `TxScenarios`). Memory-mapped
queues in both directions and streaming host-to-card queues. A request is a scatter-gather list;
the engine turns it into ring descriptors, stops when the ring is full and resumes later, takes
the device's consumer index as credit, and retires requests from the pending list. `DescQueue`
has the fields of the driver's queue and one method for each locked region and each loop. The
class also remembers the whole run (every descriptor issued, where requests end among them, every
callback), so that one invariant ties the ring, the two lists, the credit counter and the byte
offsets to absolute positions; the theorems are consequences of it.

**Receive path** (`ColourRing`, `BufferCount`, `RxModel`, `RxSteps`, `RxPackets`, `RxRequest`,
`RxQueue`, `RxExact`, `RxRuns`, `RxDrift`, `PagePool`, `IntrAggregation`, `Threshold`,
`AdaptiveCounter`). A colour-bit completion ring feeds a ring of buffers; a resumable reader
drains them into scatter-gather requests; drained buffers are recycled or replaced from a page
pool. `RecvQueue` and `ReadReq` are updated in place like the driver's structures, and `Land` is
the device writing a packet to memory between two calls. Every operation keeps the account: what
was handed out to readers, what is unread and what is not accepted yet are in number the bytes
that the device wrote. While the account is exact (`Exact`) they are those very bytes, in order;
every operation that hands buffers back says exactly when it stays so. `RxRuns` is the same path
as values, with one theorem over all careful runs, and `RxDrift` shows that every careless step
can be continued to a wrong delivery.

**Host memory, card memory and address translation** (`FirstFitModel`, `FirstFitTheorems`,
`FirstFit`, `Slab`, `HostMemory`, `Tlb`, `TlbTheorems`, `PageSplit`). Four intrusive slab lists,
the first-fit coalescing list with its side table, their combination behind `hpalloc`/`hpfree`,
the table of translations in each card as its hardware keeps it, and the page split of user
buffers.

`Bits`, `Ring` and `ScatterGather` hold the word operations, circular index helpers and lists
that these share.

Assumptions about the device are preconditions. For the transmit engine: the written-back index
moves forward inside the window last posted. For the receive path: packets use posted buffers
only, completion entries are written before the status index, and the ring is never overrun.
Huge pages are aligned to their size, and the region and the windows fit 64 bits.
Callers of the transmit engine give entries that sum to `count` and are positive, or one empty
entry for no bytes.

What the proofs found to be different from what one might expect, with the exact condition:

- After a failed doorbell write a polling queue stays marked as running, and from then on neither
  submissions nor service calls issue or complete anything
  (`TxQueue.DescQueue.Process`, `TxQueue.DescQueue.ServiceUpdate`).
- A streaming request whose endpoint address is a positive multiple of 2^32 gets packets of
  length zero: it fills the ring with empty descriptors again and again and is never finished,
  nor is any request behind it (`TxTheorems.StalledForever`, `TxQueue.DescQueue.IssueLoop`). The
  endpoint address of a character-device write is its file position.
- Streaming packet marks of an earlier packet survive in slot 0 when a pass wraps in bypass mode
  (`TxTheorems.StreamMarks`, `TxScenarios.StaleMarks`).
- A buffer that a read leaves half empty keeps its moved offset when it is recycled, so later
  packets in it are read from the wrong place (`RxExact.ReadsBackIff`, `RxRuns.RecycleKeeps`,
  `RxDrift.CarelessMisdelivers`, `RxRuns.ReadStaysHomeIff`, `RxRuns.NeverHomeAgain`).
- Counting drained buffers back against the page in use hands out a buffer that is still
  attached (`PagePool.Pool.Refill`, `PagePool.ThreeOnAPage`); one buffer to a page is always safe.
- `get_fl_nr` is right if and only if the buffer size is a power of two, or the length is not,
  or it is below the buffer size (`BufferCount.GetFlNr`).
- `qdma_queue_packet_read` returns `count` plus the bytes read (`RxQueue.RecvQueue.PacketRead`).
- `rcv_pkt` changes the length of a buffer even when it then refuses the packet
  (`RxQueue.RecvQueue.RcvPkt`).
- `data_intr_aggregate` flips the colour of the first list entry whichever ring wraps, so all
  vectors keep working if and only if no ring but the first wraps
  (`IntrAggregation.RightIffOnlyFirstWraps`).
- The threshold sort is right if and only if no threshold repeats, apart from the largest
  occurring twice (`Threshold.SortsIff`). Thresholds are below 256.
- The comment on the adaptive counter speaks of half the completion ring; the code uses the
  descriptor ring size, and so does the model (`AdaptiveCounter.Counter.Incr`).
- Releasing a block walks off the list when no node is left behind it. Histories that never take
  the last node exactly are safe; taking a whole region is not
  (`FirstFitTheorems.SparingHistoryIsSafe`, `FirstFitTheorems.TakingTailTraps`,
  `HostMemory.LargeRegionCannotBeFreed`).
- The table of a card has 16384 slots, 32 gigabytes' worth. `init_tlb` writes 16 gigabytes and one
  more for each peer without a bound: every address is translated right if and only if there are
  at most 16 peers, and every peer can be reached if and only if there are at most 32, given that
  no huge page lies in a BAR and no two BARs are the same
  (`TlbTheorems.AllRightIff`, `TlbTheorems.AllPeersIff`, `TlbTheorems.FirstGigabyteLost`).
- A first-fit request for zero bytes reserves nothing (`FirstFitTheorems.ZeroSizeAliases`).

## Model

| member | source | states |
|---|---|---|
| ScatterGather.FindOffset | rPCIeBench/qdma_driver/libqdma/qdma_descq.c:72-108 | resumption point of a request: the entry and the byte in it at which `offset` bytes lie behind; an error exactly when no byte is left (positive entries) |
| ScatterGather.HostAtSegment | rPCIeBench/qdma_driver/libqdma/qdma_descq.c:72-108 | byte `o` of entry `i` is byte `Prefix(i) + o` of the request, so positions in the list and positions in the request agree |
| TxQueue.DescQueue.constructor | rPCIeBench/qdma_driver/libqdma/libqdma_export.c:1556-1563 | a queue that exists but is not started satisfies the invariant |
| TxQueue.DescQueue.CheckStart | rPCIeBench/qdma_driver/libqdma/libqdma_export.c:1734-1780 | -EINVAL if and only if the queue is not enabled or its engine mode is refused; success if and only if, besides, the keyhole aperture is absent or a power of two; else -ERANGE |
| TxQueue.DescQueue.Start | rPCIeBench/qdma_driver/libqdma/libqdma_export.c:1734-1835 | a successful start gives an empty ring with all slots but one available; a start that a check refuses changes nothing; one whose set-up fails stays enabled and reports the error |
| TxQueue.DescQueue.ConfigComplete | rPCIeBench/qdma_driver/libqdma/qdma_descq.c:1311-1323 | indices, credit and counters at the start of a run |
| TxQueue.DescQueue.SubmitRequest | rPCIeBench/qdma_driver/libqdma/libqdma_export.c:2416-2465 | accepted exactly when the direction fits and the queue is online, and then processed: on a queue that is not stopping and not being processed already, the work list with the request at its end goes through the same run of the engine as in `ProcRequest`, doorbell and its outcome included; otherwise the request only waits (on a stopping queue after a completion pass). A refused request changes nothing. The invariant holds again at the release of the lock, and log, ends, callbacks and positions only move on |
| TxQueue.DescQueue.Enqueue | rPCIeBench/qdma_driver/libqdma/qdma_descq.h:556-568 | the request goes to the tail of the work list and the counter keeps the length of that list |
| TxQueue.DescQueue.StopBegin | rPCIeBench/qdma_driver/libqdma/libqdma_export.c:1954-1968 | only an online queue is stopped; nothing else changes |
| TxQueue.DescQueue.StopFinish | rPCIeBench/qdma_driver/libqdma/libqdma_export.c:1974-1998 | every request still queued is called back once with -ENXIO, pending ones first, in submission order over the whole run; both lists end up empty |
| TxQueue.DescQueue.ReadWriteback | rPCIeBench/qdma_driver/libqdma/qdma_descq.c:806-817 | the driver reads where the device has got to inside the posted window; the invariant is kept |
| TxQueue.DescQueue.DeviceConsumes | rPCIeBench/qdma_driver/libqdma/qdma_descq.c:806-817 | the device's step: it consumes descriptors of the posted window only, and every invariant of the queue is kept |
| TxQueue.DescQueue.TakeCredits | rPCIeBench/qdma_driver/libqdma/qdma_descq.c:819-829 | index, room and credit advance together; what is in flight still sits in the ring between the two indices |
| TxQueue.DescQueue.HandOutCredits | rPCIeBench/qdma_driver/libqdma/qdma_descq.c:837-862 | credits retire pending requests from the front; afterwards leftover credit implies an empty pending list, and a callback leaves `pend_list_empty` set exactly when nothing is in flight |
| TxQueue.DescQueue.ReqDone | rPCIeBench/qdma_driver/libqdma/qdma_descq.c:1495-1540 | the head of the pending list is called back with its whole count; `pend_list_empty` is set exactly when nothing is in flight |
| TxQueue.DescQueue.CmplStatus | rPCIeBench/qdma_driver/libqdma/qdma_descq.c:792-870 | a completion pass keeps the invariant, never loses room, takes over exactly the device's progress, leaves credit only when nothing is pending, and rings the doorbell once if and only if there was progress |
| TxQueue.DescQueue.TakeProgress | rPCIeBench/qdma_driver/libqdma/qdma_descq.c:819-870 | credits, retirement and one doorbell write together, whatever that write returns |
| TxQueue.DescQueue.WriteDoorbell | rPCIeBench/qdma_driver/libqdma/qdma_descq.c:169-177 | one write of the staged index; if it succeeds the device window ends there, if it fails nothing changes |
| TxQueue.DescQueue.NextChunk | rPCIeBench/qdma_driver/libqdma/qdma_descq.c:301-324 | endpoint address `ep_addr + pos`, or `ep_addr + pos mod aperture` with a keyhole, and as many bytes as are left of the entry and, with a keyhole, of the window (else 2^28 - 1) |
| TxQueue.DescQueue.IssueSegment | rPCIeBench/qdma_driver/libqdma/qdma_descq.c:300-345 | descriptors of one entry move exactly the next bytes of the request, each as long as entry and window allow; slots beyond are untouched |
| TxQueue.DescQueue.IssueEntries | rPCIeBench/qdma_driver/libqdma/qdma_descq.c:284-348 | a pass covers the request from its offset on without gap or overlap, until the request or the room ends; each descriptor as long as entry and window allow |
| TxQueue.DescQueue.MarkEnds | rPCIeBench/qdma_driver/libqdma/qdma_descq.c:361-364 | end-of-packet on the last and start-of-packet on the first descriptor of a pass, the rest unchanged |
| TxQueue.DescQueue.UpdateRequest | rPCIeBench/qdma_driver/libqdma/qdma_descq.c:110-127 | `desc_nr` and `offset` advance by what was issued; the request moves to the pending list exactly when nothing is left of it; the invariant is kept |
| TxQueue.DescQueue.IssuePassMm | rPCIeBench/qdma_driver/libqdma/qdma_descq.c:222-377 | one pass appends framed descriptors to the run, keeps everything in flight intact, moves exactly the next bytes of the head, and finishes it unless the ring is full; each descriptor starts behind the one before, at its byte's host and endpoint address, and has the length min(rest of the entry, rest of the keyhole window or 2^28 - 1) |
| TxQueue.DescQueue.StreamSegment | rPCIeBench/qdma_driver/libqdma/qdma_descq.c:581-627 | the same for one entry of a streaming request; each descriptor, written for the entry that the request, the offset and the room determine, is all payload with the zero-header flag and has the length min(rest of the entry, 4096, and the endpoint address mod 2^32 unless that address is zero); a byte moves if and only if one is left and that size is not zero |
| TxQueue.DescQueue.StreamEntries | rPCIeBench/qdma_driver/libqdma/qdma_descq.c:568-635 | the same for a streaming pass |
| TxQueue.DescQueue.PutH2cDesc | rPCIeBench/qdma_driver/libqdma/qdma_descq.c:614-622 | stepping to the next slot clears its packet marks, wrapping to slot 0 does not |
| TxQueue.DescQueue.IssuePassH2c | rPCIeBench/qdma_driver/libqdma/qdma_descq.c:515-649 | a streaming pass: the next bytes of the head, the exact packet lengths (as above), and the exact packet marks, as a function of request, offset, room, producer index and the descriptor with which the lap began; it finishes the head or fills the ring, and moves a byte unless the head can never move |
| TxQueue.DescQueue.Poll | rPCIeBench/qdma_driver/libqdma/qdma_descq.c:131-140 | a polling queue takes over exactly the device's progress, with one doorbell write if there was any, and is marked as running; for any other queue nothing happens |
| TxQueue.DescQueue.IssueRound | rPCIeBench/qdma_driver/libqdma/qdma_descq.c:249-256 | with room: one pass and no look at the writeback; without: one look first, and a round that issues nothing leaves a full ring and, if the queue polls, no progress of the device untaken |
| TxQueue.DescQueue.IssueLoop | rPCIeBench/qdma_driver/libqdma/qdma_descq.c:222-377 | the issue loop ends, whatever the endpoint addresses are, with an empty work list or with a full ring whose consumed descriptors have all been taken over if the queue polls; given room, descriptors are issued, and the bytes and requests still to be issued become fewer if and only if the head is not a streaming request at a positive multiple of 2^32 |
| TxQueue.DescQueue.PostDescriptors | rPCIeBench/qdma_driver/libqdma/qdma_descq.c:379-389 | the producer index is staged; after a successful doorbell write the device window ends at the last descriptor issued, after a failed one it stays |
| TxQueue.DescQueue.Process | rPCIeBench/qdma_driver/libqdma/qdma_descq.c:222-400 | a run of the engine: a polling queue takes over at least what the device had consumed before, any other queue nothing; it ends with nothing waiting or a ring that is full in spite of that; given room in that sense it issues, and less is left to do if and only if the head can move; what is issued is staged, and posted unless the doorbell write fails; then, and only then, a polling queue stays marked as running |
| TxQueue.DescQueue.ProcRequest | rPCIeBench/qdma_driver/libqdma/qdma_descq.c:184-400 | the whole locked region: a stopping queue only takes over the device's progress; one that is not online or is marked as running is left unchanged; any other goes through the run of `Process`. The invariant is kept, callbacks and log only grow |
| TxQueue.DescQueue.ServiceUpdate | rPCIeBench/qdma_driver/libqdma/qdma_descq.c:1418-1456 | the service call of interrupts and threads: a queue that does not poll takes over all of the device's progress and, if requests wait, runs the engine; a polling queue runs it unless marked as running. Unless it was marked or is stopping, at least what the device had consumed is taken over, and nothing waits or the ring is full in spite of that |
| TxSteps.IssueKeeps | rPCIeBench/qdma_driver/libqdma/qdma_descq.c:184-400 | issuing a pass keeps indices in step with absolute positions, the ledger, and byte-exactness |
| TxSteps.AbsorbKeeps | rPCIeBench/qdma_driver/libqdma/qdma_descq.c:819-829 | taking over the writeback keeps everything but the ledger, which then owes the new credits |
| TxSteps.RetireKeeps | rPCIeBench/qdma_driver/libqdma/qdma_descq.c:839-862 | retiring a paid request keeps the order of callbacks and the ledger |
| TxSteps.IssueShrinksBacklog | rPCIeBench/qdma_driver/libqdma/qdma_descq.c:222-377 | a pass retires the head or issues a byte of it if and only if the head can move; if it cannot, nothing but its descriptor count changes |
| TxModel.StopOrder | rPCIeBench/qdma_driver/libqdma/libqdma_export.c:1978-1997 | aborting the pending list and then the work list continues the order of submission |
| TxTheorems.LogIsExact | rPCIeBench/qdma_driver/libqdma/qdma_descq.c:184-400 | over a whole run, with any interleaving of calls and completions: the descriptors ever issued move exactly the bytes of the finished requests in order and then the head up to its offset, each host byte `k` paired with its endpoint address |
| TxTheorems.CreditLedger | rPCIeBench/qdma_driver/libqdma/qdma_descq.c:119-126 | descriptors in flight = sum of `desc_nr` over the pending list + `desc_nr` of the partly issued head − credit |
| TxTheorems.DoneIffConsumed | rPCIeBench/qdma_driver/libqdma/qdma_descq.c:839-860 | a request is called back if and only if the device has consumed its last descriptor, as far as the driver has seen |
| TxTheorems.DrainedMeansDone | rPCIeBench/qdma_driver/libqdma/qdma_descq.c:839-860 | with nothing in flight nothing is pending |
| TxTheorems.CallbacksInOrder | rPCIeBench/qdma_driver/libqdma/qdma_descq.c:1495-1540 | callback number `i` is for request number `i`, with `bytes_done == count`, and its descriptors moved exactly its bytes |
| TxTheorems.KeyholeWindow | rPCIeBench/qdma_driver/libqdma/qdma_descq.c:245-324 | with a keyhole, byte `k` of any descriptor ever issued, those of the partly issued head included, is a known byte `p` of its request and meets the endpoint at `ep_addr + p mod aperture` |
| TxTheorems.StreamMarks | rPCIeBench/qdma_driver/libqdma/qdma_descq.c:597-622 | in every reachable state the start- and end-of-packet marks of the next pass are right if and only if the pass does not wrap onto a descriptor of this lap's beginning whose marks do not suit the entry now written to slot 0; without bypass mode no streaming descriptor is ever marked |
| TxScenarios.StaleMarks | rPCIeBench/qdma_driver/libqdma/qdma_descq.c:597-622 | a run of a bypass queue with a well-behaved device in which the middle one of three entries is sent as the start and the end of a packet |
| TxModel.LapGoesOn | rPCIeBench/qdma_driver/libqdma/qdma_descq.c:614-622 | slot 0 holds the descriptor with which the lap began, through every pass |
| TxTheorems.StalledForever | rPCIeBench/qdma_driver/libqdma/qdma_descq.c:525-527 | a streaming request at a positive multiple of 2^32, once at the head, stays there without a byte issued through every later step of every run |
| TxTheorems.StalledNeverDone | rPCIeBench/qdma_driver/libqdma/qdma_descq.c:525-527 | such a request and every request behind it are never issued whole and never called back |
| TxTheorems.StallsAtFourGigabytes | rPCIeBench/qdma_driver/src/cdev.c:375-395 | any bytes at file position 2^32 make such a request |
| Ring.RingIdxInverse | rPCIeBench/qdma_driver/libqdma/qdma_descq.h:214-231 | the three circular helpers are mutually inverse within one lap |
| Bits.NextPowof2IsLeast | rPCIeBench/qdma_driver/libqdma/qdma_descq.h:543-552 | `get_next_powof2` is the least power of two at or above a positive argument |
| Bits.AndPredecessor | rPCIeBench/qdma_driver/libqdma/libqdma_export.c:1769-1771 | `x & (x - 1)` is zero exactly for powers of two |
| Bits.AndMask | rPCIeBench/qdma_driver/libqdma/qdma_st_c2h.c:709 | masking with a power of two less one is the remainder |
| RxModel.ReceiveKeeps | rPCIeBench/qdma_driver/libqdma/qdma_st_c2h.c:735-794 | a packet appends to the unread bytes and the ledger `avail + lag + unread == rngsz - 1` stays balanced |
| RxModel.GatherFrame | rPCIeBench/qdma_driver/libqdma/qdma_st_c2h.c:478-616 | what readers get depends on the contents of the unread buffers only |
| RxSteps.DrainKeeps | rPCIeBench/qdma_driver/libqdma/qdma_st_c2h.c:505-616 | a read takes bytes off the front; `pkt_dlen` stays the sum of the buffer lengths from `pidx_pend` to `pidx` |
| RxSteps.RefillKeeps | rPCIeBench/qdma_driver/libqdma/qdma_st_c2h.c:419-463 | handing back drained buffers leaves the unread bytes alone and the ledger balanced |
| RxSteps.RefillThenTrim | rPCIeBench/qdma_driver/libqdma/qdma_st_c2h.c:585-594 | recycling before or after cutting the partly read buffer gives the same ring |
| RxPackets.NeedSplits | rPCIeBench/qdma_driver/libqdma/qdma_st_c2h.c:696-733 | the number of buffers of a packet is the ceiling, the last one holding the rest |
| RxPackets.CountIsNeed | rPCIeBench/qdma_driver/libqdma/qdma_st_c2h.c:696-733 | where `get_fl_nr` is right, count and last length are exactly these |
| RxPackets.MarkedIffUnread | rPCIeBench/qdma_driver/libqdma/qdma_st_c2h.c:437-463 | between calls `avail + ring_idx_delta(pidx, pidx_pend)` is `rngsz - 1`, and a slot is marked valid exactly when it lies from `pidx_pend` up to `pidx` |
| RxPackets.FreeSlots | rPCIeBench/qdma_driver/libqdma/qdma_st_c2h.c:769-775 | the buffers that the device may use are not marked, so the WARN_ON finds nothing |
| RxPackets.AcceptKeeps | rPCIeBench/qdma_driver/libqdma/qdma_st_c2h.c:735-794 | a packet in posted buffers fits, and exactly its bytes go behind the unread ones |
| RxRequest.ReadReq.constructor | rPCIeBench/qdma_driver/libqdma/libqdma_export.c:2423-2426 | a fresh request has received nothing |
| RxRequest.ReadReq.Copy | rPCIeBench/qdma_driver/libqdma/qdma_st_c2h.c:516-520 | `memcpy`: the stretch is overwritten, all else stays |
| RxRequest.ReadReq.Fill | rPCIeBench/qdma_driver/libqdma/qdma_st_c2h.c:511-575 | one buffer spread over the destination segments: consecutive bytes at consecutive places, until the buffer is empty or the destination full |
| RxQueue.RecvQueue.constructor | rPCIeBench/qdma_driver/libqdma/qdma_descq.c:1311-1323 | a started queue owes nobody a byte, all buffers but one are the device's, and every byte so far is accounted for exactly |
| RxQueue.RecvQueue.MarkValid | rPCIeBench/qdma_driver/libqdma/qdma_st_c2h.c:772-776 | the buffers of the packet are marked; a warning if and only if one was marked already |
| RxQueue.RecvQueue.RcvPkt | rPCIeBench/qdma_driver/libqdma/qdma_st_c2h.c:735-794 | either -EBUSY, after cutting the last buffer all the same, or the packet is booked in as many buffers as `get_fl_nr` counts, right or not |
| RxPackets.BookedIff | rPCIeBench/qdma_driver/libqdma/qdma_st_c2h.c:735-794 | the buffers booked hold as many bytes as `pkt_dlen` grows by if and only if the count of `get_fl_nr` is right |
| RxQueue.RecvQueue.Accept | rPCIeBench/qdma_driver/libqdma/qdma_st_c2h.c:759-791 | for posted buffers -EBUSY is unreachable and the WARN_ON never fires; the packet written first goes behind the unread bytes |
| RxQueue.RecvQueue.Land | rPCIeBench/qdma_driver/libqdma/qdma_st_c2h.c:302-345 | the device's step: a packet written into posted buffers keeps the invariant; if all bytes were accounted for exactly they still are, and no unread byte changes |
| RxQueue.RecvQueue.Refill | rPCIeBench/qdma_driver/libqdma/qdma_st_c2h.c:419-463 | the drained slots, and no others, get their length back and lose their mark; `avail` grows by their number |
| RxQueue.RecvQueue.CopyBuffers | rPCIeBench/qdma_driver/libqdma/qdma_st_c2h.c:505-583 | the nested copying loops: the bytes copied are a prefix of the unread ones, and they stop only at the end of either side |
| RxQueue.RecvQueue.Settle | rPCIeBench/qdma_driver/libqdma/qdma_st_c2h.c:585-605 | index, partly read buffer, recycling and doorbell after a read: the ring is the value-level read of it, recycled or not, buffer addresses included; the doorbell gets the index before `pidx_pend` if and only if a buffer was emptied and the caller asked for it |
| RxQueue.RecvQueue.Drop | rPCIeBench/qdma_driver/libqdma/qdma_st_c2h.c:585-605 | a read keeps the run intact; recycling with it does so if and only if the buffers it hands back are at their posted address |
| RxQueue.RecvQueue.Read | rPCIeBench/qdma_driver/libqdma/qdma_st_c2h.c:478-616 | copies exactly min(room, `pkt_dlen`) bytes, the front of the unread stream, to the next places of the request; -EINVAL exactly for an exhausted request |
| RxQueue.RecvQueue.HandOver | rPCIeBench/qdma_driver/libqdma/qdma_st_c2h.c:505-605 | the copying and bookkeeping of a read that has something to do |
| RxQueue.SplitReads | rPCIeBench/qdma_driver/libqdma/qdma_st_c2h.c:478-616 | reading in any number of calls, with any arrivals in between, fills the destination and leaves the unread bytes as one call after all arrivals would |
| RxQueue.RecvQueue.PacketsProcDflt | rPCIeBench/qdma_driver/libqdma/qdma_st_c2h.c:618-648 | waiting requests are completed in queue order; completed data, partial data and unread data together do not change; somebody still waits only if everything is read |
| RxQueue.RecvQueue.ServeHead | rPCIeBench/qdma_driver/libqdma/qdma_st_c2h.c:622-645 | one round: the head is finished, or all is read |
| RxQueue.RecvQueue.TakeCompletions | rPCIeBench/qdma_driver/libqdma/qdma_st_c2h.c:1071-1107 | the loop takes exactly `budget` fresh entries, in order, and never breaks early |
| RxQueue.RecvQueue.TakeOne | rPCIeBench/qdma_driver/libqdma/qdma_st_c2h.c:1071-1107 | one entry: its packet is accepted, never refused, and the entry is stepped over |
| RxQueue.RecvQueue.RecycleDrained | rPCIeBench/qdma_driver/libqdma/qdma_st_c2h.c:1145-1170 | recycling what was drained keeps the unread bytes and never takes room from the device; it keeps the run intact if and only if every drained buffer is at its posted address |
| RxQueue.RecvQueue.Deliver | rPCIeBench/qdma_driver/libqdma/qdma_st_c2h.c:1121-1171 | serving and recycling together, and the doorbell |
| RxQueue.RecvQueue.ProcessCompletion | rPCIeBench/qdma_driver/libqdma/qdma_st_c2h.c:1010-1174 | each completion once and in order; what is accounted for grows by the packets taken; requests first come, first served; if a buffer was drained, and the caller asks for it and the queue is not stopping, the device is given all buffers but one up to `pidx_pend`, else its window stays. If all bytes were exactly those sent, so are the ones taken now, and they stay so if and only if no buffer is handed back that is away from its posted address |
| RxQueue.RecvQueue.SubmitRead | rPCIeBench/qdma_driver/libqdma/libqdma_export.c:304-385 | a read request is finished at once if and only if enough is unread, else it waits behind the others; the buffers it emptied are posted again; the account does not change, and stays exact if and only if the buffer resumed in was at home or is not handed back |
| RxQueue.RecvQueue.PacketRead | rPCIeBench/qdma_driver/libqdma/qdma_st_c2h.c:1277-1285 | what is read is right, and the buffers emptied are posted again, but the value returned is `count` plus the bytes read: it is the bytes read only for an empty request |
| RxQueue.RecvQueue.ExactMeans | rPCIeBench/qdma_driver/libqdma/qdma_st_c2h.c:478-616 | what the exact account means: bytes sent = completed reads in order + partial read + unread + in flight, and completed reads are a prefix of it |
| RxExact.ReadsBack | rPCIeBench/qdma_driver/libqdma/qdma_st_c2h.c:505-520 | a packet written at the posted addresses and read there comes back unchanged |
| RxExact.ReadsBackIff | rPCIeBench/qdma_driver/libqdma/qdma_st_c2h.c:592-594 | every packet of a length is read back as written if and only if the driver's address of each of its buffers is the posted one |
| RxRuns.LandKeeps | rPCIeBench/qdma_driver/libqdma/qdma_st_c2h.c:735-794 | device writes into posted buffers disturb neither unread bytes nor packets in flight |
| RxRuns.AcceptKeeps | rPCIeBench/qdma_driver/libqdma/qdma_st_c2h.c:735-794 | accepting the next packet moves its bytes from flight to unread |
| RxRuns.ReadKeeps | rPCIeBench/qdma_driver/libqdma/qdma_st_c2h.c:505-616 | reading hands out the front of the stream |
| RxRuns.RecycleKeeps | rPCIeBench/qdma_driver/libqdma/qdma_st_c2h.c:445-446 | recycling keeps the run in good order if and only if no recycled buffer was left half empty by a read: the length is restored, the offset is not |
| RxRuns.RunsDeliver | rPCIeBench/qdma_driver/libqdma/qdma_st_c2h.c:478-616 | over every run without such recycling, any interleaving: bytes handed out are a prefix of the bytes sent, the rest is unread or in flight |
| RxDrift.CarelessMisdelivers | rPCIeBench/qdma_driver/libqdma/qdma_st_c2h.c:445-446 | the other half: a run that recycles a half-emptied buffer can be continued to a state where the bytes handed out are not a prefix of the bytes sent |
| RxDrift.EveryQueueCanMisdeliver | rPCIeBench/qdma_driver/libqdma/qdma_st_c2h.c:592-594 | every started queue with buffers of two bytes or more has such a run |
| RxRuns.StartsGood | rPCIeBench/qdma_driver/libqdma/qdma_st_c2h.c:302-345 | a started queue is in that order |
| RxRuns.NeverHomeAgain | rPCIeBench/qdma_driver/libqdma/qdma_st_c2h.c:592-594 | a buffer whose offset has moved never gets it back, in any run |
| RxRuns.ReadStaysHomeIff | rPCIeBench/qdma_driver/libqdma/qdma_st_c2h.c:592-594 | a read leaves all buffers at their posted address if and only if it ends between two buffers |
| PagePool.NumPagesRoomy | rPCIeBench/qdma_driver/libqdma/qdma_st_c2h.c:263-272 | the pool is a power of two of pages and large enough wherever in a page the live buffers begin |
| PagePool.NumPagesAre | rPCIeBench/qdma_driver/libqdma/qdma_st_c2h.c:263-272 | in numbers: the least power of two of pages that holds the ring's buffers, twice that if it is below the ring size |
| PagePool.Pool.constructor | rPCIeBench/qdma_driver/libqdma/qdma_st_c2h.c:233-345 | all slots get different buffers |
| PagePool.Pool.FillOne | rPCIeBench/qdma_driver/libqdma/qdma_st_c2h.c:62-124 | the next buffer of the page at `alloc_idx`, or -ENOMEM with nothing changed |
| PagePool.Pool.CountBack | rPCIeBench/qdma_driver/libqdma/qdma_st_c2h.c:362-383 | drained buffers are counted back against the oldest pages, whole pages first |
| PagePool.Pool.Renew | rPCIeBench/qdma_driver/libqdma/qdma_st_c2h.c:388-413 | exactly the pages counted back whole are replaced, up to the page in use |
| PagePool.Pool.FillAll | rPCIeBench/qdma_driver/libqdma/qdma_st_c2h.c:437-464 | all slots are refilled: no fill reports memory full |
| PagePool.Pool.Refill | rPCIeBench/qdma_driver/libqdma/qdma_st_c2h.c:419-475 | the refilled slots get the next fills of the page in use, less the buffers counted back against it; no two slots share a buffer if and only if the buffers already cut from that page and those counted back together are at most the ring size |
| PagePool.Pool.AtRest | rPCIeBench/qdma_driver/libqdma/qdma_st_c2h.c:119-121 | buffers are pairwise different and `recycle_idx <= alloc_idx <= recycle_idx + num_pages` |
| PagePool.Pool.OneBufferPages | rPCIeBench/qdma_driver/libqdma/qdma_st_c2h.c:245-250 | the condition always holds with one buffer to a page |
| PagePool.ThreeOnAPage | rPCIeBench/qdma_driver/libqdma/qdma_st_c2h.c:362-383 | a ring of three on pages of four, one buffer drained: the refill attaches a buffer that is still attached |
| ColourRing.ColourTest | rPCIeBench/qdma_driver/libqdma/qdma_st_c2h.c:662-666 | the colour test holds if and only if an entry is unread, and then shows the oldest |
| ColourRing.ConsumeKeeps | rPCIeBench/qdma_driver/libqdma/qdma_st_c2h.c:650-660 | stepping on, with the flip on a wrap, keeps this |
| ColourRing.ProduceKeeps | rPCIeBench/qdma_driver/libqdma/qdma_st_c2h.c:650-666 | so does a device that is at most one lap ahead |
| ColourRing.StartsConsistent | rPCIeBench/qdma_driver/libqdma/qdma_descq.c:1311-1323 | a zeroed ring with colour one expected starts out right |
| ColourRing.RunsReadInOrder | rPCIeBench/qdma_driver/libqdma/qdma_st_c2h.c:1071-1107 | over every run each entry is read once, in order, never stale |
| IntrAggregation.CoalList.Aggregate | rPCIeBench/qdma_driver/libqdma/qdma_intr.c:187-249 | the first ring, and any other that does not wrap, is served completely, once and in order; any other ring stops at its wrap, with the colour of the first list entry flipped; one whose unread entries end exactly there is excluded, because the loop then never ends |
| IntrAggregation.CoalList.Advance | rPCIeBench/qdma_driver/libqdma/qdma_intr.c:239-248 | for every vector: the index steps on, and on a wrap it is the colour of the first list entry that flips |
| IntrAggregation.RightIffOnlyFirstWraps | rPCIeBench/qdma_driver/libqdma/qdma_intr.c:187-249 | over every run of arrivals and services, all vectors tell read from unread throughout if and only if no ring but the first wraps |
| IntrAggregation.ServeRightIff | rPCIeBench/qdma_driver/libqdma/qdma_intr.c:239-248 | the same for one service |
| IntrAggregation.WrapHurtsFirst | rPCIeBench/qdma_driver/libqdma/qdma_intr.c:242-243 | a wrap of another ring turns the colour test of the first ring round |
| IntrAggregation.WrapHurtsItself | rPCIeBench/qdma_driver/libqdma/qdma_intr.c:242-243 | and leaves that ring with either every slot looking new or its oldest unread entry looking old |
| IntrAggregation.LoopsForever | rPCIeBench/qdma_driver/libqdma/qdma_intr.c:187-249 | a ring other than the first whose unread entries end exactly at its wrap: after any number of turns the colour test succeeds, so the loop never ends |
| BufferCount.GetFlNr | rPCIeBench/qdma_driver/libqdma/qdma_st_c2h.c:696-733 | the exact count and last length for every packet; they are ceiling and remainder for a positive length exactly when the buffer size is a power of two, or the length is not, or it is below the buffer size; else whole buffers are counted that the packet does not fit. One buffer for an empty packet |
| BufferCount.CountRightIff | rPCIeBench/qdma_driver/libqdma/qdma_st_c2h.c:696-733 | where the count splits the packet, and what it is where it does not |
| BufferCount.CountDown | rPCIeBench/qdma_driver/libqdma/qdma_st_c2h.c:716-726 | the subtracting loop |
| BufferCount.PowerBranch | rPCIeBench/qdma_driver/libqdma/qdma_st_c2h.c:704-709 | the power-of-two branch and the exact condition under which it is right |
| BufferCount.SplitUnique | rPCIeBench/qdma_driver/libqdma/qdma_st_c2h.c:696-733 | count and last length are determined by the length |
| Threshold.SortCntrTh | rPCIeBench/qdma_driver/libqdma/qdma_regs.c:191-225 | what the goto-driven loop picks, round by round |
| Threshold.Select | rPCIeBench/qdma_driver/libqdma/qdma_regs.c:199-215 | one round picks the least value not below the last pick |
| Threshold.SortsIff | rPCIeBench/qdma_driver/libqdma/qdma_regs.c:191-225 | the picks are an ascending permutation of the indices if and only if no threshold repeats, apart from the largest occurring twice |
| AdaptiveCounter.Counter.constructor | rPCIeBench/qdma_driver/libqdma/qdma_descq.c:1335-1371 | the counter starts at its place in the sorted order, the average at its threshold, the marks half way to the neighbours |
| AdaptiveCounter.Counter.AdjustAvgs | rPCIeBench/qdma_driver/libqdma/qdma_st_c2h.c:836-877 | the average starts over at the threshold in force, between the low and the high mark, which stand at the neighbouring thresholds or half way to them |
| AdaptiveCounter.Counter.Incr | rPCIeBench/qdma_driver/libqdma/qdma_st_c2h.c:879-906 | one place up exactly when the next threshold is nearer and below half the ring |
| AdaptiveCounter.Counter.Decr | rPCIeBench/qdma_driver/libqdma/qdma_st_c2h.c:908-946 | one place down exactly when the previous threshold is nearer and not below the budget (or tuned for latency) |
| AdaptiveCounter.Counter.Adjust | rPCIeBench/qdma_driver/libqdma/qdma_st_c2h.c:948-973 | one place up if and only if the new average, (average + pending) / 2, has reached the high mark and the next threshold suits it better and is below half the ring; one place down if and only if it is at or below the low mark, or between the marks for the sixteenth time in a row, and the previous threshold suits it better and is not below the budget; the average and the marks start over with a step and only then |
| AdaptiveCounter.Bracket | rPCIeBench/qdma_driver/libqdma/qdma_st_c2h.c:836-877 | neighbours in the order bracket the current threshold |
| FirstFit.FreeList.constructor | rPCIeBench/lib_qdma/QDMAController.cpp:326-337 | one node behind the sentinel |
| FirstFit.FreeList.Alloc | rPCIeBench/lib_qdma/QDMAController.cpp:199-225 | the linked list does what the list of blocks specifies: first fit, exact fits unlinked, larger blocks cut |
| FirstFit.FreeList.Free | rPCIeBench/lib_qdma/QDMAController.cpp:226-291 | the linked list does what the list of blocks specifies, for an address with a node behind it |
| FirstFit.FreeList.PutBack | rPCIeBench/lib_qdma/QDMAController.cpp:236-289 | the four ways of linking a released range in |
| FirstFit.FreeList.Merge | rPCIeBench/lib_qdma/QDMAController.cpp:259-266 | range, node before and node behind become one node |
| FirstFit.FreeList.Unlink | rPCIeBench/lib_qdma/QDMAController.cpp:206-213 | the node leaves the list, the others stay in order |
| FirstFitModel.AllocTiles | rPCIeBench/lib_qdma/QDMAController.cpp:199-225 | an allocation hands out free bytes only, records what it took, and free nodes and live allocations still tile the region, if and only if it is for some bytes or is refused; a failed one changes nothing |
| FirstFitModel.AllocCoalesces | rPCIeBench/lib_qdma/QDMAController.cpp:214-221 | whole-megabyte requests keep the list free of touching and empty nodes |
| FirstFitModel.FreeTiles | rPCIeBench/lib_qdma/QDMAController.cpp:226-291 | a release keeps the tiling: every byte of the region has exactly one owner |
| FirstFitModel.FreeCoalesces | rPCIeBench/lib_qdma/QDMAController.cpp:236-289 | a release leaves no two free nodes touching |
| FirstFitTheorems.FreshTiles | rPCIeBench/lib_qdma/QDMAController.cpp:326-337 | the initial list tiles the region |
| FirstFitTheorems.OneOwner | rPCIeBench/lib_qdma/QDMAController.cpp:199-291 | no byte is free and allocated, none is allocated twice |
| FirstFitTheorems.FailsIffNoRoom | rPCIeBench/lib_qdma/QDMAController.cpp:202-224 | an allocation fails if and only if no run of free bytes is large enough |
| FirstFitTheorems.AllocTakesLowest | rPCIeBench/lib_qdma/QDMAController.cpp:202-224 | one that succeeds takes the lowest address at which that many free bytes begin |
| FirstFitTheorems.EmptyMeansFresh | rPCIeBench/lib_qdma/QDMAController.cpp:226-291 | when nothing is allocated any more, in whatever order it was released, the list is the initial node again |
| FirstFitTheorems.FreeSafeIffTail | rPCIeBench/lib_qdma/QDMAController.cpp:232-235 | in a coalesced list every live allocation can be released if and only if the list still reaches the end of the region: otherwise the walk runs off the list |
| FirstFitTheorems.FreeSafeIffLast | rPCIeBench/lib_qdma/QDMAController.cpp:232-235 | in any list, if and only if some node stands at or behind the last live allocation |
| FirstFitTheorems.SparingHistoryIsSafe | rPCIeBench/lib_qdma/QDMAController.cpp:199-291 | over every history in which no request takes the last node exactly, no release walks off the list and every live address can be released |
| FirstFitTheorems.TakingTailTraps | rPCIeBench/lib_qdma/QDMAController.cpp:206-213 | a whole-megabyte request that does take the last node leaves a live address that cannot be released |
| FirstFitTheorems.AllocKeepsTail | rPCIeBench/lib_qdma/QDMAController.cpp:206-213 | an allocation loses the tail node exactly when it takes all of it |
| FirstFitTheorems.FreeKeepsTail | rPCIeBench/lib_qdma/QDMAController.cpp:236-289 | a release never loses it |
| FirstFitTheorems.WholeRegionCannotBeFreed | rPCIeBench/lib_qdma/QDMAController.cpp:232-235 | any region taken whole by one request cannot be given back |
| FirstFitTheorems.WholeCardCannotBeFreed | rPCIeBench/lib_qdma/QDMAController.cpp:338-366 | the card memory in particular |
| FirstFitTheorems.ZeroSizeAliases | rPCIeBench/lib_qdma/QDMAController.cpp:214-221 | in every state, a request for zero bytes and the next request that fits the first node get the same address |
| FirstFitTheorems.HistoryTiles | rPCIeBench/lib_qdma/QDMAController.cpp:199-291 | all of this over every history of requests and releases |
| FirstFitTheorems.HbmFailureIsNoAddress | rPCIeBench/lib_qdma/QDMAController.cpp:338-366 | card memory: the failure answer 4294967295 lies inside the address range but is never handed out |
| Slab.SlabList.constructor | rPCIeBench/lib_qdma/QDMAController.cpp:26-45 | all blocks free, in address order |
| Slab.SlabList.Alloc | rPCIeBench/lib_qdma/QDMAController.cpp:122-132 | the intrusive circular list is a queue: the oldest free block is handed out |
| Slab.SlabList.Free | rPCIeBench/lib_qdma/QDMAController.cpp:133-140 | the block recovered from the address goes to the tail, also when the list was empty |
| HostMemory.MemFL.constructor | rPCIeBench/lib_qdma/QDMAController.cpp:16-120 | four slab lists and one large node, one behind the other in the region |
| HostMemory.Layout | rPCIeBench/lib_qdma/QDMAController.cpp:16-120 | 1024 blocks of 4, 16, 64 and 256 KB, one class behind the other, then the first-fit part up to 4 MB short of 16 GB |
| HostMemory.MemFL.HpAlloc | rPCIeBench/lib_qdma/QDMAController.cpp:293-308 | the structure does what the allocation step specifies: the least slab class that fits serves while it has a block, then the first block of the first-fit list that is large enough; null if and only if neither has one |
| HostMemory.AllocFrom | rPCIeBench/lib_qdma/QDMAController.cpp:293-308 | an allocation fails if and only if no first-fit block is large enough and the least slab class that fits has no block left or there is none; otherwise which of the two serves, with which block, and in whose part of the region the address lies |
| HostMemory.MemFL.HpFree | rPCIeBench/lib_qdma/QDMAController.cpp:309-324 | the structure does what the release step specifies; an address outside the region changes nothing |
| HostMemory.AllocExclusive | rPCIeBench/lib_qdma/QDMAController.cpp:293-308 | a new address with at least the bytes asked for, disjoint from every live one, everything else as it was; the invariant is lost if and only if the first-fit list serves a request for zero bytes |
| HostMemory.FreeExact | rPCIeBench/lib_qdma/QDMAController.cpp:309-324 | a live address goes back to the class that produced it, whatever size was asked for and whichever list served it; exactly that allocation ends |
| HostMemory.Exclusive | rPCIeBench/lib_qdma/QDMAController.cpp:293-324 | two live allocations are inside the region and disjoint |
| HostMemory.Inside | rPCIeBench/lib_qdma/QDMAController.cpp:293-324 | a live allocation lies inside the region |
| HostMemory.HistoryExclusive | rPCIeBench/lib_qdma/QDMAController.cpp:293-324 | after every history of calls from `init_freelist` on, the live addresses are those handed out and not released; each has at least the bytes asked for, inside the region, and no two overlap |
| HostMemory.SparingRunIsSafe | rPCIeBench/lib_qdma/QDMAController.cpp:293-324 | over every history of calls from `init_freelist` on that spares the last first-fit node no release walks off a list, and at its end every live address can be released |
| HostMemory.LargeRegionCannotBeFreed | rPCIeBench/lib_qdma/QDMAController.cpp:199-235 | the first-fit region of a device, taken whole by one request, cannot be released |
| Tlb.Card.WriteEntry | rPCIeBench/lib_qdma/QDMAController.cpp:733-739 | the register writes load exactly one entry into the next slot of the card; a base entry sets the first page and starts over at slot 0 |
| Tlb.Card.Load | rPCIeBench_project/CommSub/src/TLB.scala:44-58 | the card latches an entry: slot, first page and 15-bit counter as the hardware has them, and each slot holds the last entry written to it |
| Tlb.LatchKeeps | rPCIeBench_project/CommSub/src/TLB.scala:44-58 | of any number of writes, each of the 16384 slots keeps the last one that came round to it |
| Tlb.Card.MapHost | rPCIeBench/lib_qdma/QDMAController.cpp:713-917 | the eight loops map the 16 GB region page by page |
| Tlb.Card.MapPeer | rPCIeBench/lib_qdma/QDMAController.cpp:942-954 | 512 pages of one peer window, in the next 512 slots, whichever entries those held |
| Tlb.Translator.MapPeers | rPCIeBench/lib_qdma/QDMAController.cpp:924-957 | one window per peer, behind the region and behind each other; the offset recorded for each peer is that of its window. What the driver writes is complete for any number of peers |
| Tlb.Translator.InitTlb | rPCIeBench/lib_qdma/QDMAController.cpp:713-957 | the entries written map the region and a window for every other card, the card is loaded with them, and the offset noted for each peer leads to its window; other cards' offsets stay |
| TlbTheorems.LookIs | rPCIeBench_project/CommSub/src/TLB.scala:37-43 | the card, exactly: gigabyte `g` of the range is answered if and only if `g` is below (16 + peers) mod 64, and then with the pages of the last gigabyte written to the same slots |
| TlbTheorems.MappedRange | rPCIeBench_project/CommSub/src/TLB.scala:39-43 | the card answers exactly the addresses from the base up to its write counter |
| TlbTheorems.RightIff | rPCIeBench_project/CommSub/src/TLB.scala:29-66 | an address of gigabyte `g` is translated to its huge page or BAR if and only if there are at most 16 + `g` peers and fewer than 48 (huge pages outside the BARs, BARs different) |
| TlbTheorems.AllRightIff | rPCIeBench_project/CommSub/src/TLB.scala:29-66 | every address of the range is translated right if and only if there are at most 16 peers |
| TlbTheorems.PeerToPeer | rPCIeBench/lib_qdma/QDMAController.cpp:924-965 | translating peer `j`'s bridge address plus any offset below 1 GB and looking it up yields that peer's BAR plus the offset if and only if there are at most 32 + `j` peers and fewer than 48 |
| TlbTheorems.AllPeersIff | rPCIeBench/lib_qdma/QDMAController.cpp:924-965 | every peer can be reached if and only if there are at most 32 |
| TlbTheorems.SeventeenPeers | rPCIeBench_project/CommSub/src/TLB.scala:29-58 | with 17 peers the first gigabyte of the huge pages leads to the BAR of the last peer |
| TlbTheorems.ThirtyThreePeers | rPCIeBench/lib_qdma/QDMAController.cpp:924-965 | with 33 peers what is meant for the first peer reaches the last one |
| TlbTheorems.FortyEightPeers | rPCIeBench_project/CommSub/src/TLB.scala:36-43 | with 48 peers the counter is back at zero and nothing is answered |
| TlbTheorems.FirstGigabyteLost | rPCIeBench/lib_qdma/QDMAController.cpp:924-957 | `init_tlb` on the first of eighteen cards: a run in which the first gigabyte is lost |
| PageSplit.MapUserBuf | rPCIeBench/qdma_driver/src/cdev.c:257-332 | the entries stay inside a page each, follow each other and sum to the length |
| PageSplit.SplitIsWellFormed | rPCIeBench/qdma_driver/src/cdev.c:257-332 | such a list is what the transmit engine demands of a request, and byte `k` of the request is byte `k` of the user buffer |

## Left out

- TxQueue.DescQueue.ProcRequest: the streaming path that packs several requests into one doorbell write (`descq_proc_st_h2c_request_qep`, `pidx_acc`) and bypass descriptor fill are not modelled.
- TxQueue.DescQueue.SubmitRequest: requests are kept as values in the two lists, so the control blocks' update in place and their reuse by callers are not modelled; `sg` and `sg_offset` in the control block, which nothing reads, are dropped. Blocking submission and `qdma_batch_request_submit` are left out.
- TxQueue.DescQueue.Start: a start begins a new run, whose record of descriptors and callbacks is empty; completing the configuration, allocating resources and programming the hardware are one outcome, given as a parameter.
- TxQueue.DescQueue.ServiceUpdate: for an online queue; between its two regions the source releases the lock.
- TxModel.ResumeEp: endpoint addresses are unbounded; in the source they wrap at 2^64, so a request that runs past it, or a keyhole within one aperture of it, behaves differently.
- TxQueue.DescQueue.WriteDoorbell: whether each register write succeeds is given by a function of its number, which is arbitrary (`bells`); the error return of a forced write in a completion pass, which the source only logs, is dropped.
- RxQueue.RecvQueue.Read: doorbell writes succeed; the source returns before updating `pkt_dlen` when one fails. `no_memcpy`, cache flushes and ping-pong latency counters are left out. The pages of a destination are one array cut at the entry lengths, so entries do not overlap.
- RxQueue.RecvQueue.ProcessCompletion: entries that only carry user data, entries with the error bit, upper-layer packet handlers, `sop`/`eop` flags, `pkt_cnt`, the completion index written back to the device and the interrupt re-arming are left out; the adaptive counter is modelled beside it. The device writes to memory between calls, not during one.
- RxQueue.RecvQueue.SubmitRead: only requests with a callback; the stop of a receive queue is the same code as that of a transmit queue and is modelled there.
- PagePool.Pool.Refill: page offsets are counted in buffers, which they are multiples of; allocation and mapping failures and the 32-bit wrap of `alloc_idx` and `recycle_idx` (the number of pages divides 2^32) are not modelled.
- RxPackets.AcceptKeeps: the count is taken where `get_fl_nr` is right; where it is not, `pkt_dlen` and the buffers disagree.
- IntrAggregation.CoalList.Aggregate: the batch that ends exactly where a ring other than the first wraps is excluded by a precondition, because the loop does not end then (`IntrAggregation.LoopsForever`); one unread batch per call; the lookup of the queue by its hardware id and the scheduling of its work are the list of ids served; the index written back to the device afterwards is left out.
- FirstFitTheorems.HistoryTiles: histories are of requests for some bytes, because a request for none breaks the tiling (`FirstFitModel.AllocTiles`).
- FirstFitTheorems.FreeSafeIffTail: for coalesced lists; `FirstFitTheorems.FreeSafeIffLast` is for all.
- FirstFit.FreeList.Free: a walk off the end of the list is excluded by a precondition, whose exact meaning is `FirstFitTheorems.FreeSafeIffLast`.
- HostMemory.MemFL.HpFree: only live addresses are released; pointers are numbers, and the region is the contiguous mapping that `init_tlb` checks for.
- Slab.SlabList.Alloc: the four copies of the slab code are one class with four instances; nodes are named by their index in the node array.
- Tlb.Card.Load: lookups that fall together with a write, whose port the hardware lends to the write, and the pipeline and queues around the table.
- Tlb.Translator.MapPeers: all devices are initialised before the first table is written; the BAR addresses read from the system are parameters.
- PageSplit.MapUserBuf: pinning and releasing the user's pages.
- AdaptiveCounter.Counter.Adjust: a manual change of the completion control between calls.
- Netlink, debugfs, register dumps, context programming, PCI and interrupt set-up, mailbox and reset handshake, automatic choice of a queue index, memory barriers, DMA mapping failures and timeouts.
