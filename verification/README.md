# Verified model of ReFlex

ReFlex serves remote flash over TCP: a user-level TCP stack (lwIP on IX), an event library (ixev), a
request server, and a scheduler that rations the flash device in tokens.  This project models the
parts where correctness is hard to see and proves what they guarantee.

| component | files |
|---|---|
| TCP receive path | `SequenceNumbers`, `Segments`, `Reassembly`, `ReassemblyProofs`, `QueueContents`, `WindowReads`, `ReceivePcb` |
| TCP send path | `SendQueues`, `SendQueueProofs`, `SendProgress`, `SendPcb` |
| one connection end to end | `EndToEnd`, `Completion`, `FlowControl` |
| token scheduler | `SwQueue`, `TokenScheduler`, `TokenProofs`, `CoreScheduler`, `SchedulerThreads`, `SchedulerRuns` |
| admission control | `Admission`, `AdmissionProofs`, `EnforcedRates`, `FlowRegistry` |
| ixev send stream | `IxevSend`, `IxevProofs`, `IxevRuns`, `IxevPrompt`, `IxevCtx` |
| checksums | `OnesComplement`, `Checksums` |
| packet buffers | `PbufChains`, `Pbufs` |
| request framing | `Framing`, `FramingSound`, `PagedBuffers`, `ReflexReceive`, `ReflexSend` |
| timer wheel | `TimerWheel`, `TimerRuns` |
| shared | `Wrappers`, `ModArith` |

Where the code changes state step by step there are two layers.  A class or a method with loops has
the shape of the C function, works in place and compares sequence numbers with the 32-bit macros; its
postcondition ties it to a function on values.  The theorems are about those functions.

## Main results

- Receiving.  Segments of one stream may arrive in any order, with loss, duplication and overlap:
  what is handed up is always the stream up to `rcv_nxt`, and the end is reported once.  The
  announced right edge never moves left, whatever the peer sends; when the windows stay in range is
  known exactly, over whole runs.  So is what the out-of-order queue holds.
- Sending.  `unacked` and `unsent` tile the sequence space.  Each operation has its exact condition
  for keeping that; three of them can break it (below).  Nothing is sent past the window of the peer,
  and it is known exactly when a write is refused.
- End to end.  Both halves over an arbitrary network: the receiver has a prefix of what was written,
  and every byte it lacks, and the end, is still queued at the sender and can still arrive.  The steps
  that keep this are known exactly, one by one and over whole runs.  A sender inside the offered
  window never makes the receive window wrap.
- Scheduling.  Any number of threads in any interleaving of their atomic steps: tokens granted are
  tokens spent, held, in the bucket or discarded, so issued cost is bounded by the grants.  The bucket
  is reset exactly when every thread has completed a round.  No thread serves below its demand while
  it leaves tokens in the bucket.
- Admission.  Reservations plus shares never exceed the token rate over any run of registrations and
  removals on any device, if and only if what remains fits at each LC departure.  Likewise there is
  an exact condition for every LC tenant to be scheduled at the rate it was promised.  What is not
  reserved is always shared out.
- ixev.  The kernel gets the application's bytes in order, and no memory is released while a byte of it
  is pending or unacknowledged.  Release is prompt under an exact guard on where callbacks are
  registered.
- Checksums.  Three algorithms, any alignment and any fragmentation give one result.
- Framing.  The cut of the byte stream is invisible in both directions, and of any bytes at all exactly
  the proper requests at their front reach the device.
- Timers.  Over any run no timer is lost, and none is kept more than 31 microseconds past its time;
  one taken before its time is taken a whole turn before its tick.

## Where the code departs from what one would expect

- `tcp_write` grows the last unsent segment even if it is an older one requeued by a fast retransmit;
  data written later then takes the place of data already sent (`WriteKeepsIff`,
  `CarelessWriteLoses`, `CarelessWriteCorrupts`).
- `tcp_send_fin` likewise puts the FIN on the last unsent segment even if it is an older one; the
  receiver then sees the end before the rest of the stream (`CloseKeepsIff`, `CarelessCloseTruncates`,
  `CarelessCloseEndsEarly`).
- `tcp_rexmit_rto` puts `unacked` in front of `unsent` without sorting (`RtoKeepsInvIff`,
  `RequeuedBreaksTiling`).
- `tcp_send_fin` sets the FIN on a queued data segment without counting it in `snd_lbb`
  (`SendFinKeepsInvIff`).
- The first out-of-order segment is queued without a cut at the window, so a peer that overruns the
  right edge makes `rcv_wnd` wrap (`InputWrapsIff`, `OverrunWraps`).  A FIN one past the edge
  leaves `rcv_wnd` right but can leave `rcv_ann_wnd` wrapped (`InputWindowIff`, `FinWrapsAnnounced`).
- `TCP_WND` is defined as `1 << 15` without parentheses, so `TCP_WND / 2` is 128 and
  `TCP_WND / 4` is 8; the model has these values.
- `readjust_lc_tenant_token_limits` is called only when the boost changes, so a tenant admitted
  without such a change keeps the rate its slot held before (`AdmitEnforcedIff`, `LatecomerStarves`,
  `LatecomerFromBoot`).
- `recalculate_weights_remove` lowers the count of LC tenants before it rewrites their rates, while the
  leaver is still in the bitmap; the loop counts it and misses the last LC tenant
  (`UnregisterEnforcedIff`, `DepartureMissesThird`).
- With different limits for read-only use, a removal can leave more reserved than the new rate
  (`UnregisterBalancedIff`, `FlagUnbalances`).
- The comment on `ixev_add_sent_cb` asks for it after a zero-copy send.  Called while
  a copying send can still grow the current buffer it is safe but can fire late (`CallbackPromptIff`,
  `CallbackCanBeLate`, `LateCallback`).
- While a higher wheel is being emptied the clock can be ahead of the tick, and a timer can be put in
  the bucket about to be visited (`FirstVisitIff`, `CascadeFiresEarly`).
- `timer_init_cpu` starts the ticks at any remainder of 16, while the buckets are multiples of 16; a
  timer just short of a turn ahead can then be run at once (`PlacedIff`, `UnalignedFiresEarly`,
  `UnalignedTakesEarly`).
- `__timer_add` accepts delays up to the maximum although `timer_insert` adds 16 first; for the last 16
  microseconds the index is not a wheel (`IndexIsWheel`).

## Conventions

Sequence numbers, times and token counts are unbounded integers.  The comparison macros are modelled
in 32-bit arithmetic, and the methods carry the hypothesis that everything compared lies in one
half-range window (`Near`, `Comparable`).
Fixed-width arithmetic is written out where it matters: `rcv_wnd`, the checksum accumulators, pbuf
total lengths, the ixev window, the admission shares and the interpolation.  Floating point is exact:
the 0.9 giveaway and the interpolation are floors, and time increments are arbitrary non-negative
inputs.  Allocation results, kernel answers, network behaviour and the application's callbacks are
inputs.  Fields named as history (`accepted`, `issued`, `granted`, `delivered`, `owner`, ...) record
what happened and are read by no operation.

## Model

| member | source | states |
|---|---|---|
| `SequenceNumbers.MacrosAgreeWithOrder` | inc/lwip/tcp_impl.h:116-124 | inside a half-range window all five comparison macros agree with the order of unbounded sequence numbers |
| `SequenceNumbers.SeqLtAgreesIff` | inc/lwip/tcp_impl.h:116-124 | the less-than macro agrees with integer order exactly for differences in the first half of their turn of 2^32, counted forwards from 0 or backwards from -1 |
| `SequenceNumbers.HalfRangeIsTight` | inc/lwip/tcp_impl.h:116-124 | at distance 2^31 the macro inverts the order, so the window cannot be widened |
| `ReassemblyProofs.OrderedPairwise` | net/tcp_in.c:1390-1436 | the queue invariant on indices: strictly increasing, disjoint, above rcv_nxt, FIN only last |
| `ReassemblyProofs.MergeOrdered` | net/tcp_in.c:936-966 | deleting covered segments and trimming keeps the queue invariant |
| `ReassemblyProofs.EnqueueOrdered` | net/tcp_in.c:1524-1642 | every insert, replace and trim branch keeps the queue invariant |
| `ReassemblyProofs.EnqueuePieces` | net/tcp_in.c:1524-1642 | what is queued stays true to the peer stream, byte by byte |
| `ReassemblyProofs.EnqueueCovers` | net/tcp_in.c:1524-1642 | every in-window byte of a segment that is queued is on the queue afterwards |
| `QueueContents.EnqueueExactly` | net/tcp_in.c:1524-1642 | exactly what is queued inside the window afterwards: the bytes of the segment, and all queued before but the tail of a segment in which the new one starts |
| `QueueContents.MergeExactly` | net/tcp_in.c:936-966 | placing a segment in front of others keeps every byte of both and adds none |
| `QueueContents.InSequenceExactly` | net/tcp_in.c:1360-1506 | an in-sequence segment takes off the queue exactly what is now delivered |
| `QueueContents.InputKeepsBytes` | net/tcp_in.c:1265-1642 | whatever arrives, a byte the receiver has inside the window it keeps, but for such a tail; and a segment in turn or queued is taken in whole |
| `QueueContents.FitWindowCuts` | net/tcp_in.c:1366-1385 | the cut to the window keeps exactly the bytes before the edge, and the FIN if it fits |
| `QueueContents.InTurnStopsAtEdge` | net/tcp_in.c:1366-1385 | a segment in turn moves rcv_nxt to its end or to the right edge, whichever is first |
| `ReassemblyProofs.DrainDelivers` | net/tcp_in.c:1469-1506 | draining hands up exactly the stream from the old to the new rcv_nxt |
| `ReassemblyProofs.InSequenceDelivers` | net/tcp_in.c:1360-1506 | an in-sequence segment, trimmed against window and queue, continues the stream exactly |
| `ReassemblyProofs.InputDelivers` | net/tcp_in.c:1265-1506 | for any segment of the stream, at any position, what is handed up continues the stream exactly |
| `ReassemblyProofs.InputProgress` | net/tcp_in.c:1297-1506 | a segment that reaches rcv_nxt moves rcv_nxt to its end or to the right edge |
| `ReassemblyProofs.InputOrdered` | net/tcp_in.c:1265-1642 | the queue invariant survives any segment at all |
| `ReassemblyProofs.InputWindow` | net/tcp_in.c:1439-1481 | a segment within the right edge keeps the window sound and moves no edge left |
| `ReassemblyProofs.StepDelivers` | net/tcp_in.c:1265-1506 | one arrival, consumption or announcement keeps in-order exactly-once delivery |
| `ReassemblyProofs.Delivery` | net/tcp_in.c:1265-1506 | over any run with loss, duplication, reordering and overlap, the data handed up is the stream up to rcv_nxt and EOF is reported once; section 3.9 of RFC 793 |
| `ReassemblyProofs.StepWindow` | net/tcp.c:673-733 | one event keeps the window sound and the announced edge from moving left |
| `ReassemblyProofs.WindowNeverShrinks` | net/tcp.c:673-698 | over any run, with any segments at all from the peer, the announced right edge never moves left |
| `ReassemblyProofs.WindowWithinEdge` | net/tcp.c:673-698 | with a peer that stays within the right edge, rcv_wnd and rcv_ann_wnd stay in range and the announced edge behind the real one |
| `ReassemblyProofs.FreshConnection` | net/tcp.c:673-733 | both run theorems from the initial state of a connection |
| `ReassemblyProofs.DrainWrapsIff` | net/tcp_in.c:1471-1481 | draining wraps the 32-bit rcv_wnd exactly when the queued chain passes the right edge |
| `ReassemblyProofs.InputWrapsIff` | net/tcp_in.c:1265-1506 | for any segment at all: rcv_wnd is left wrapped if and only if the segment is in turn and it, trimmed, with the queued chain behind it ends past the right edge, a FIN not counted |
| `ReassemblyProofs.InputWindowIff` | net/tcp_in.c:1265-1506 | for any segment at all, the exact condition under which both windows stay in range: the chain ends within the edge, or only a FIN is past it and the edge is too close to the announced one to be announced |
| `ReassemblyProofs.WindowRunIff` | net/tcp_in.c:1265-1506 | over any run with any segments: the windows are in range after every event if and only if every arrival met that condition |
| `ReassemblyProofs.FinWrapsAnnounced` | net/tcp_in.c:478-496 | two calls after which rcv_wnd is right but rcv_ann_wnd wrapped, through a FIN one past the edge |
| `ReassemblyProofs.OverrunWraps` | net/tcp_in.c:1524-1540 | a concrete overrun after which rcv_wnd wraps |
| `WindowReads.InputCounts` | net/tcp_in.c:1265-1506 | for any segment the window shrinks by exactly the bytes handed up |
| `WindowReads.WindowTracksIff` | net/tcp.c:705-733 | over any run: rcv_wnd is TCP_WND less the unread bytes after every event if and only if no read finds it wrapped by more than it gives back |
| `WindowReads.SoundWindowTracks` | net/tcp.c:705-733 | so while the window stays in range it always is |
| `WindowReads.ReadingIsAnnounced` | net/tcp.c:673-698 | after a read and a header the announced edge is less than the threshold behind the real one |
| `WindowReads.ArrivalIsAnnounced` | net/tcp.c:673-698 | the same after an arrival in turn, but for a FIN |
| `WindowReads.OutOfTurnIsAnswered` | net/tcp_in.c:1508-1660 | a segment that is not the next one is answered at once and moves nothing |
| `ReceivePcb.OosInsertSegment` | net/tcp_in.c:936-966 | the loop with 32-bit comparisons computes the specified queue |
| `ReceivePcb.TrimEnd` | net/tcp_in.c:1586-1596 | cuts the previous segment where the new one starts |
| `ReceivePcb.FitWindow` | net/tcp_in.c:1362-1386 | cuts a segment at the right edge and drops a FIN outside |
| `ReceivePcb.QueueSegment` | net/tcp_in.c:1524-1642 | the search loop over the queue computes the specified queue in all branches |
| `ReceivePcb.TrimToQueue` | net/tcp_in.c:1390-1436 | the in-sequence clean-up loop computes the specified segment and rest |
| `ReceivePcb.TcpPcb.UpdateRcvAnnWnd` | net/tcp.c:673-697 | new announced window and the returned inflation |
| `ReceivePcb.TcpPcb.Recved` | net/tcp.c:705-733 | consumption: the new pcb, with the clamp at TCP_WND, and exactly when an update is announced at once |
| `ReceivePcb.TcpPcb.Announce` | net/tcp_out.c:1150-1170 | sending a header moves the announced edge to rcv_nxt plus the announced window |
| `ReceivePcb.TcpPcb.DrainQueue` | net/tcp_in.c:1469-1506 | the drain loop: new pcb, data and FIN as specified |
| `ReceivePcb.TcpPcb.InSequence` | net/tcp_in.c:1360-1510 | the whole in-sequence branch as specified |
| `ReceivePcb.TcpPcb.Receive` | net/tcp_in.c:1297-1660 | the data part of tcp_receive as specified |
| `ReceivePcb.TcpPcb.Input` | net/tcp_in.c:478-496 | tcp_input around tcp_receive: the position of a FIN goes back to the window unless data was refused |
| `ReceivePcb.TcpPcb.TakeRefused` | net/tcp.c:1183-1240 | once refused data is taken the pcb is that of a call in which nothing was refused |
| `SendQueueProofs.SplitTiles` | net/tcp_out.c:576-672 | phase 3: contiguous segments, none empty or above the MSS, within the queue limit |
| `SendQueueProofs.ZeroMssFails` | net/tcp_out.c:576-672 | with a local MSS of 0 the loop ends at the queue limit and the write fails |
| `SendQueueProofs.KeptRespectsMss` | net/tcp_out.c:519-574 | the grown last segment still respects the MSS |
| `SendQueueProofs.WriteTransaction` | net/tcp_out.c:412-768 | a successful write appends exactly the argument, respects MSS and queue limit and touches nothing else |
| `SendQueueProofs.WriteKeepsInvIff` | net/tcp_out.c:412-768 | a write keeps the queue invariant if and only if it does not grow a segment that later data follows |
| `SendQueueProofs.OutputInv` | net/tcp_out.c:1048-1121 | tcp_output keeps the invariant: sorted, tiling, exact pbuf and buffer counts |
| `SendQueueProofs.RexmitInv` | net/tcp_out.c:1388-1424 | fast retransmit keeps the invariant |
| `SendQueueProofs.AckInv` | net/tcp_in.c:1095-1227 | any acknowledgment keeps the invariant |
| `SendQueueProofs.RtoKeepsInvIff` | net/tcp_out.c:1348-1380 | the timeout keeps the invariant if and only if no unsent segment is older than an unacked one |
| `SendQueueProofs.SendFinKeepsInvIff` | net/tcp_out.c:185-205 | closing keeps the invariant if and only if the FIN gets a segment of its own |
| `SendQueueProofs.StepKeepsInvIff` | net/tcp_out.c:185-205 | for every operation, the exact condition under which the invariant survives |
| `SendQueueProofs.QueuesAlwaysTile` | net/tcp_out.c:735-737 | from any state in the invariant: it holds after every step of a run if and only if every step is harmless or refused; the condition is checked before each step |
| `SendQueueProofs.FreshQueuesTile` | net/tcp_out.c:735-737 | the same from a new connection: unacked and unsent merged tile the sequence space up to snd_lbb with all counters exact |
| `SendProgress.OutputSends` | net/tcp_out.c:1048-1121 | tcp_output sends the first segments of the queue, each inside the window of the peer; it stops only at an empty queue, a segment past the window or one held back; snd_nxt passes all that was sent |
| `SendProgress.NeverPastWindow` | net/tcp_out.c:1048-1121 | no byte is sent past lastack plus the window, and exactly when nothing is sent |
| `SendProgress.AckFrees` | net/tcp_in.c:1095-1227 | an acknowledgment of new data frees exactly the segments it covers, on either queue, and gives back that much buffer |
| `SendProgress.DuplicateAck` | net/tcp_out.c:1388-1424 | the third duplicate requeues the oldest unacknowledged segment and nothing else; other duplicates change nothing |
| `SendProgress.WriteSucceedsIff` | net/tcp_out.c:412-768 | exactly when tcp_write is refused, in terms of buffer, queue length, segment size and allocations |
| `SendProgress.NewSegmentsSmall` | net/tcp_out.c:429-430 | new segments are no longer than the MSS and half of the largest window offered |
| `SendProgress.CloseSucceedsIff` | net/tcp_out.c:185-205 | exactly when a close goes through, and that the FIN is then queued last |
| `SendPcb.LinkSorted` | net/tcp_out.c:1395-1412 | the sorted insertion loop |
| `SendPcb.FreeAcked` | net/tcp_in.c:1145-1180 | the freeing loop: what stays, and the number of pbufs freed |
| `SendPcb.CreateSegments` | net/tcp_out.c:576-672 | the segmentation loop, ending with success or failure as specified |
| `SendPcb.TcpPcb.GrowLast` | net/tcp_out.c:519-574 | phase 2: how much fits on the last segment and the queue with it |
| `SendPcb.TcpPcb.Write` | net/tcp_out.c:412-768 | tcp_write: the specified pcb on success, the old one on any failure |
| `SendPcb.TcpPcb.OutputSegment` | net/tcp_out.c:1060-1121 | one segment goes out and to its place on unacked |
| `SendPcb.TcpPcb.Output` | net/tcp_out.c:979-1135 | the output loop: new pcb and the segments sent |
| `SendPcb.TcpPcb.Rexmit` | net/tcp_out.c:1388-1424 | the first unacked segment is requeued in order |
| `SendPcb.TcpPcb.RexmitRto` | net/tcp_out.c:1348-1380 | all unacked segments go in front of unsent |
| `SendPcb.TcpPcb.TakeAck` | net/tcp_in.c:1113-1180 | new data acknowledged: buffer space back and segments freed |
| `SendPcb.TcpPcb.Ack` | net/tcp_in.c:1095-1227 | ACK processing on both queues |
| `SendPcb.TcpPcb.EnqueueFin` | net/tcp_out.c:780-885 | a FIN segment is queued or nothing changes |
| `SendPcb.TcpPcb.SendFin` | net/tcp_out.c:185-205 | the last unsent segment takes the FIN, else a new one |
| `EndToEnd.WriteKeepsIff` | net/tcp_out.c:412-768 | a write keeps the connection invariant if and only if it adds nothing to the last unsent segment, that segment is the newest, or it is refused |
| `EndToEnd.CloseKeepsIff` | net/tcp_out.c:185-205 | a close that takes effect keeps it if and only if the last unsent segment is the newest |
| `EndToEnd.CarelessWriteLoses` | net/tcp_out.c:519-574 | otherwise the last byte written into the old segment belongs at a position that is not delivered and that no queued segment holds |
| `EndToEnd.StepKeepsIff` | net/tcp_in.c:1265-1506 | one step of both ends and the network keeps the connection invariant if and only if it is careful |
| `EndToEnd.RunIntactIff` | net/tcp_out.c:412-768 | over whole runs: the invariant holds after every step if and only if every step was careful |
| `EndToEnd.ReliableByteStream` | net/tcp_out.c:412-768 | over any run of both ends over a network that loses, duplicates and reorders: delivered bytes are a prefix of those written, EOF once and last, every undelivered byte and an undelivered FIN still queued |
| `EndToEnd.RequeuedIsReached` | net/tcp_out.c:1388-1424 | two writes and a third duplicate ACK lead to the state of the next lemma |
| `EndToEnd.CarelessWriteCorrupts` | net/tcp_out.c:519-574 | there, one more write puts its byte in the place of an earlier one in the stream |
| `EndToEnd.CarelessCloseTruncates` | net/tcp_out.c:185-205 | there, a close ends the stream early: the receiver gets the first part and the end, and never the rest |
| `Completion.Completes` | net/tcp_out.c:1348-1380 | from every intact state some careful continuation hands over everything written and, after a close, the end |
| `Completion.NeverStuck` | net/tcp_out.c:412-768 | the same after any careful run from a new connection |
| `FlowControl.NeverOverrun` | net/tcp_out.c:1048-1121 | over any run of both ends in which transmissions respect a window the receiver can offer: rcv_wnd never wraps and no byte on the wire or the queue is past the right edge |
| `Completion.CarelessCloseEndsEarly` | net/tcp_out.c:185-205 | from every close that marks an older segment which the receiver stands in, or can still reach in order, some continuation reports the end where that segment ends |
| `Completion.TiledApart` | net/tcp_out.c:735-737 | while the queues tile the sequence space no segment overlaps another, as the lemma before asks |
| `Completion.BridgedSurvives` | net/tcp_in.c:1524-1642 | a queue that already bridges the marked segment: it is not taken in, and the receiver passes it |
| `EndToEnd.RequeuedBreaksTiling` | net/tcp_out.c:1348-1380 | there the queues tile, and neither a timeout nor a close leaves them so |
| `SwQueue.WindowAppend` | nvme/nvme_sw_queue.c:50-60 | a push extends the modular window of the ring by the new request |
| `SwQueue.NvmeSwQueue.constructor` | nvme/nvme_sw_queue.c:40-48 | an empty queue without demand or savings |
| `SwQueue.NvmeSwQueue.PushBack` | nvme/nvme_sw_queue.c:50-60 | FIFO append with exact demand; refused exactly when full |
| `SwQueue.NvmeSwQueue.PopFront` | nvme/nvme_sw_queue.c:62-72 | FIFO removal with exact demand |
| `SwQueue.NvmeSwQueue.PeakHeadCost` | nvme/nvme_sw_queue.c:82-87 | the head cost, or -1 |
| `SwQueue.NvmeSwQueue.SaveTokens` | nvme/nvme_sw_queue.c:89-104 | savings up to the demand and the number kept |
| `SwQueue.NvmeSwQueue.TakeSavedTokens` | nvme/nvme_sw_queue.c:106-110 | all savings are taken |
| `TokenProofs.IssueLcInv` | nvme/nvmedev.c:1347-1352 | LC issuing keeps worth and order; debt stays below the limit plus one request |
| `TokenProofs.DonateFacts` | nvme/nvmedev.c:1368-1374 | of a credit above the threshold a tenth is kept and nine tenths are given away, both rounded down; at most one token is lost |
| `TokenProofs.CreditedInv` | nvme/nvmedev.c:1331-1352 | an increment adds exactly its tokens to a tenant |
| `TokenProofs.DemandNeverWraps` | nvme/nvmedev.c:1376-1377 | savings never exceed what is queued, so the unsigned demand does not wrap and is zero only for an empty queue |
| `TokenProofs.Subround1Facts` | nvme/nvmedev.c:1307-1385 | subround 1 conserves tokens and keeps every tenant invariant; demand is zero exactly when no BE request waits |
| `TokenProofs.IssueBeFacts` | nvme/nvmedev.c:1445-1450 | BE issuing pays exactly the cost of what it issues |
| `TokenProofs.ServeBeFacts` | nvme/nvmedev.c:1439-1453 | serving a BE tenant conserves tokens and leaves it empty without savings or with savings below its head cost |
| `TokenProofs.ServeAllFacts` | nvme/nvmedev.c:1432-1488 | a whole pass over the BE tenants conserves tokens |
| `TokenProofs.OrderIsPermutation` | nvme/nvmedev.c:1432-1488 | for every start value the two loops meet each index exactly once |
| `TokenProofs.RoundRobinFair` | nvme/nvmedev.c:1432-1488 | each BE tenant is served exactly once per round, in its turn from the start index and with the pool as the tenants before it left it; LC tenants not at all |
| `TokenProofs.NextStartIsBe` | nvme/nvmedev.c:1486-1507 | from any start the search ends within one turn, at a BE tenant |
| `TokenProofs.NextStartIsFirst` | nvme/nvmedev.c:1486-1507 | it is the first BE tenant strictly after the start, counted cyclically |
| `TokenProofs.ServeBeDrains` | nvme/nvmedev.c:1432-1484 | a BE tenant is left with requests only if the pool is used up; with enough for all it queued nothing stays and the rest goes on |
| `TokenProofs.EnoughDrains` | nvme/nvmedev.c:1432-1488 | a pass whose pool covers the demand of all leaves no BE tenant with a request |
| `CoreScheduler.CoreTenants.IssueLc` | nvme/nvmedev.c:1331-1352 | the LC loop on one tenant |
| `CoreScheduler.CoreTenants.Subround1` | nvme/nvmedev.c:1307-1385 | the loop of subround 1 computes the specified tenants, leftover and demand |
| `CoreScheduler.CoreTenants.ServeBe` | nvme/nvmedev.c:1439-1453 | the BE loop on one tenant |
| `CoreScheduler.CoreTenants.ServeRange` | nvme/nvmedev.c:1432-1455 | one of the two list loops |
| `CoreScheduler.CoreTenants.ServeAll` | nvme/nvmedev.c:1432-1484 | both loops, in round-robin order |
| `CoreScheduler.CoreTenants.AdvanceStart` | nvme/nvmedev.c:1486-1507 | the unbounded search terminates, at the specified BE tenant |
| `SchedulerThreads.StepKeeps` | nvme/nvmedev.c:1390-1566 | every atomic step of every thread keeps the token ledger, the bucket ledger and the round counters |
| `SchedulerRuns.IssuedWithinGrants` | nvme/nvmedev.c:1332-1374 | over any interleaving from boot: the ledger balances, and cost issued is at most tokens granted plus (limit + max cost - 1) per LC tenant |
| `SchedulerRuns.TenantWindow` | nvme/nvmedev.c:1332-1374 | the same for one LC tenant over any window of steps |
| `SchedulerRuns.IssuedInOrder` | nvme/nvmedev.c:1347-1352 | over any run each tenant's issued requests are an ever longer prefix of those accepted |
| `SchedulerRuns.AcceptedIsPushed` | nvme/nvme_sw_queue.c:50-60 | over any run a tenant has accepted exactly the requests pushed for it, in order |
| `SchedulerRuns.AcquireIsExact` | nvme/nvmedev.c:1238-1258 | a successful compare-and-swap takes min(demand, level) and removes exactly that; a failed one changes nothing |
| `SchedulerRuns.ServesItsDemand` | nvme/nvmedev.c:1405-1424 | a thread starts to serve with all its BE tenants demand or leaves the bucket empty, and takes no more than they lack |
| `SchedulerRuns.EnoughIsDrained` | nvme/nvmedev.c:1432-1488 | with its demand met a thread leaves no BE tenant with a request |
| `SchedulerRuns.StartMoves` | nvme/nvmedev.c:1486-1507 | a pass moves the start to the next BE tenant, and no other step does |
| `SchedulerRuns.EarlyReturnMeansIdle` | nvme/nvmedev.c:1411-1414 | subround 2 returns early exactly when there is leftover and no BE request on the thread |
| `SchedulerRuns.ResetExactly` | nvme/nvmedev.c:1526-1541 | the bucket is emptied exactly when every thread has completed a round since the last reset |
| `SchedulerRuns.RoundsBetweenResets` | nvme/nvmedev.c:1526-1541 | over any run with k + 1 resets every thread completes at least k rounds |
| `AdmissionProofs.InterpolateFacts` | nvme/nvmedev.c:611-620 | the 64-bit interpolation is the exact floor and lies between its end points |
| `AdmissionProofs.TokenLimitMono` | nvme/nvmedev.c:596-641 | a laxer latency never lowers the limit of a rising table |
| `AdmissionProofs.TokenLimitAtPoint` | nvme/nvmedev.c:596-641 | at a latency in the table the limit is the one written there |
| `AdmissionProofs.MonotoneIff` | nvme/nvmedev.c:596-641 | the limit is monotone in latency if and only if the table rises |
| `AdmissionProofs.ShareBalanced` | nvme/nvmedev.c:736-756 | shares and boosts fit the rate if and only if the reservations do |
| `AdmissionProofs.ShareSharesOut` | nvme/nvmedev.c:736-756 | what is not reserved is shared out up to the remainder of the division, among BE tenants or else as LC boosts |
| `AdmissionProofs.NothingIdle` | nvme/nvmedev.c:694-820 | the same after every event of any run from boot on any device, while what remains fits at each LC departure |
| `AdmissionProofs.FlagRun` | nvme/nvmedev.c:694-820 | over any run the read-only flag is never set while a tenant that may write is present |
| `AdmissionProofs.AddBalanced` | nvme/nvmedev.c:694-760 | for any device: an admission never unbalances the accounts nor raises the rate; admitted exactly when the reservation fits |
| `AdmissionProofs.RegistrationsBalanced` | nvme/nvmedev.c:694-760 | the same over any sequence of registrations, accepted or refused |
| `AdmissionProofs.RegisterAccounted` | nvme/nvmedev.c:824-894 | for any device, a registration in a free slot keeps the sums those of the tenants present |
| `AdmissionProofs.UnregisterAccounted` | nvme/nvmedev.c:762-820 | and so does a removal |
| `AdmissionProofs.BalancedRunIff` | nvme/nvmedev.c:694-820 | for any device, over any joins and leaves: the accounts are balanced after every one if and only if at each LC departure what remains fits the limit at the strictest remaining latency |
| `AdmissionProofs.RegisterInv` | nvme/nvmedev.c:824-894 | on a simple device a registration also keeps the rate within the limit of every tenant present |
| `AdmissionProofs.UnregisterInv` | nvme/nvmedev.c:762-820 | a removal keeps the accounts for rising tables that ignore the read-only flag; if the leaver is LC, with no refused tenant in a slot |
| `AdmissionProofs.UnregisterBalancedIff` | nvme/nvmedev.c:762-820 | for any device: removing an LC tenant leaves the accounts balanced if and only if the remaining reservations fit the limit at the strictest remaining latency |
| `AdmissionProofs.NeverOversubscribed` | nvme/nvmedev.c:694-820 | on a simple device that condition always holds: over any joins and leaves from boot, reservations plus BE shares or LC boosts never exceed the token rate |
| `AdmissionProofs.FlagUnbalances` | nvme/nvmedev.c:768-790 | a table whose limits depend on the flag, and a removal that leaves more reserved than the rate |
| `EnforcedRates.ReadjustExactly` | nvme/nvmedev.c:677-692 | which tenants the loop with its early exit rewrites, for any count: the first so many LC tenants in the bitmap, or all if the count is not positive |
| `EnforcedRates.ReadjustReachesAll` | nvme/nvmedev.c:677-692 | with a count that covers the LC tenants in the bitmap, as on an arrival, none is missed |
| `EnforcedRates.ReadjustMissesLast` | nvme/nvmedev.c:677-692 | with a count one short, as on a departure, the last LC tenant is missed and no other |
| `EnforcedRates.UnregisterEnforcedIff` | nvme/nvmedev.c:762-820 | for any device: after a removal the rates are enforced if and only if the leaver is BE, the boost is unchanged, or no LC tenant sits in a later slot |
| `EnforcedRates.DepartureMissesThird` | nvme/nvmedev.c:786-816 | from boot, three LC joins and the first leaves: the third is scheduled below its reservation plus boost |
| `EnforcedRates.EnforcedRunIff` | nvme/nvmedev.c:694-820 | for any device, over any joins and leaves without refusals: every LC tenant is scheduled at reservation plus boost after every event if and only if each event meets its condition |
| `EnforcedRates.ShareEnforcesIff` | nvme/nvmedev.c:735-756 | on an arrival the new shares are enforced on all LC tenants if and only if the boost changes or all rates were right |
| `EnforcedRates.AdmitEnforcedIff` | nvme/nvmedev.c:694-760 | the exact condition, on the registry before the call, under which a new LC tenant is scheduled at its reservation plus boost |
| `EnforcedRates.LatecomerStarves` | nvme/nvmedev.c:750-755 | with a BE tenant present, an LC tenant in a new slot is admitted and scheduled at rate zero |
| `EnforcedRates.LatecomerFromBoot` | nvme/nvmedev.c:750-755 | the state is reached: from boot, one BE join and one LC join |
| `FlowRegistry.FindTokenLimit` | nvme/nvmedev.c:596-641 | the search loop, for any table, without a division by zero |
| `FlowRegistry.LookupRate` | nvme/nvmedev.c:643-658 | the limit by device kind |
| `FlowRegistry.Readjusted` | nvme/nvmedev.c:677-692 | the loop over all slots with its early exit |
| `FlowRegistry.FlowGroups.ShareOut` | nvme/nvmedev.c:736-756 | new shares and, on a changed boost, new limits |
| `FlowRegistry.FlowGroups.AddWeights` | nvme/nvmedev.c:694-760 | recalculate_weights_add: new state and verdict |
| `FlowRegistry.FlowGroups.Register` | nvme/nvmedev.c:824-894 | filling the slot and adding; a refused tenant keeps its slot |
| `FlowRegistry.FlowGroups.ScanOthers` | nvme/nvmedev.c:770-785 | the strictest remaining latency and whether all others only read |
| `FlowRegistry.FlowGroups.Unregister` | nvme/nvmedev.c:762-820 | recalculate_weights_remove and freeing the slot |
| `IxevProofs.WindowExact` | libix/ixev.c:414-419 | the unsigned window subtraction does not wrap |
| `IxevProofs.HotPathInv` | libix/ixev.c:444-456 | appending to the current buffer keeps stream, window and release safety |
| `IxevProofs.ColdPathInv` | libix/ixev.c:457-480 | so does filling new buffers, until data, array or pool run out |
| `IxevProofs.SendInv` | libix/ixev.c:432-489 | a copying send takes a prefix of the data, says how long, and keeps the invariant |
| `IxevProofs.SendZcInv` | libix/ixev.c:503-523 | a zero-copy send takes a prefix and keeps the invariant; a refused one changes nothing |
| `IxevProofs.AddSentCbInv` | libix/ixev.c:532-535 | registering a callback keeps the invariant |
| `IxevProofs.HandleRetInv` | libix/ixev.c:677-697 | a partial accept hands the kernel exactly the next bytes of the stream |
| `IxevProofs.FireFacts` | libix/ixev.c:197-200 | callbacks fire from the head of the list while due |
| `IxevProofs.TcpSentInv` | libix/ixev.c:191-204 | an acknowledgment releases only regions all of whose bytes are acknowledged |
| `IxevProofs.PendingNotReleased` | libix/ixev.c:444-456 | no pending entry points into a released region |
| `IxevRuns.SendStream` | libix/ixev.c:402-535 | over any run: kernel bytes then pending bytes are the bytes accepted, in order; the window holds; no released region has a pending or unacknowledged byte |
| `IxevRuns.SendAmount` | libix/ixev.c:432-489 | a copying send takes all the window lets through as far as buffer, array and pool reach; every result code exactly |
| `IxevRuns.SendZcAmount` | libix/ixev.c:503-523 | a zero-copy send takes exactly what the window lets through; every result code exactly |
| `IxevRuns.ErrorKills` | libix/ixev.c:677-697 | an error from the kernel makes the context dead and changes nothing else |
| `IxevRuns.DeadForever` | libix/ixev.c:432-523 | from then on nothing is accepted and every send fails, over any run |
| `IxevRuns.OnlyErrorsKill` | libix/ixev.c:677-697 | and nothing but an error kills it |
| `IxevPrompt.AckedPrompt` | libix/ixev.c:191-204 | an acknowledgment fires every callback that is due |
| `IxevPrompt.CallbackPromptIff` | libix/ixev.c:532-535 | registering a callback keeps promptness if and only if no copying send can still grow the current buffer |
| `IxevPrompt.NothingHeldBack` | libix/ixev.c:402-535 | with that guard nothing due is held back over any run, and when all is acknowledged every buffer has been released |
| `IxevPrompt.CallbackCanBeLate` | libix/ixev.c:402-535 | from every state that violates the guard some continuation leaves a due callback unfired |
| `IxevPrompt.LateCallback` | libix/ixev.c:532-535 | a run from a fresh context: registered after a copying send, a callback is overtaken by a growing buffer |
| `IxevCtx.Ctx.constructor` | libix/ixev.c:626-641 | a fresh context |
| `IxevCtx.Ctx.WindowLen` | libix/ixev.c:414-419 | the window computation |
| `IxevCtx.Ctx.BufStore` | libix/buf.h:112-126 | stores what fits and says how much |
| `IxevCtx.Ctx.AddSentCb` | libix/ixev.c:532-535 | the callback joins the list at the current position |
| `IxevCtx.Ctx.ShiftSends` | libix/ixev.c:667-675 | the in-place shift of the array |
| `IxevCtx.Ctx.Consume` | libix/ixev.c:685-694 | the loop over accepted entries |
| `IxevCtx.Ctx.HandleSendvRet` | libix/ixev.c:677-697 | the array after ret bytes, or a dead context |
| `IxevCtx.Ctx.TcpSent` | libix/ixev.c:191-204 | the firing loop |
| `IxevCtx.Ctx.SendZc` | libix/ixev.c:503-523 | new context and result code |
| `IxevCtx.Ctx.StoreHot` | libix/ixev.c:444-456 | the hot path in place |
| `IxevCtx.Ctx.StoreCold` | libix/ixev.c:457-480 | the loop over new buffers in place |
| `IxevCtx.Ctx.Send` | libix/ixev.c:432-489 | new context and result code |
| `OnesComplement.FoldFacts` | inc/lwip/inet_chksum.h:74-77 | folding keeps the one's-complement value and the sizes that bound the number of folds |
| `OnesComplement.SwapFacts` | inc/lwip/inet_chksum.h:64-72 | swapping bytes multiplies the one's-complement value by 256 |
| `OnesComplement.SwapBe` | lwip/inet_chksum.c:159-168 | the swapped network-order sum is the memory-order sum |
| `OnesComplement.OddStart` | lwip/inet_chksum.c:193-197 | words read from an odd address are those of the other byte order |
| `OnesComplement.LeAppend` | lwip/inet_chksum.c:594-600 | the sum of two pieces, by the parity of the first |
| `Checksums.ChksumV1` | lwip/inet_chksum.c:135-168 | version 1 returns the one's-complement sum of any buffer up to 64K - 1 bytes |
| `Checksums.ChksumV2` | lwip/inet_chksum.c:187-225 | version 2 returns the same for up to 0x20000 bytes at any address |
| `Checksums.SumLongs` | lwip/inet_chksum.c:263-276 | the unrolled loop with end-around carry keeps the sum |
| `Checksums.ChksumV3` | lwip/inet_chksum.c:241-305 | version 3 returns the same for any length at any address |
| `Checksums.StandsStep` | lwip/inet_chksum.c:592-600 | what the chain accumulator stands for after one more piece, odd or even |
| `Checksums.ChksumPbuf` | lwip/inet_chksum.c:586-606 | the chain checksum is the complement of the flat sum for every fragmentation |
| `Checksums.ChksumInternet` | inc/arch/chksum.h:130-161 | the portable branch returns the complement of the flat sum |
| `Checksums.RecheckIsZero` | inc/arch/chksum.h:130-161 | storing the checksum in its zeroed, aligned field makes a recheck return 0 |
| `Checksums.MisalignedRecheckIff` | inc/arch/chksum.h:130-161 | at an odd position the recheck gives zero if and only if the two bytes of the canonical sum are equal |
| `PbufChains.FrontFits` | lwip/pbuf.c:924-931 | the front taken in by the 16-bit sum is shorter than 64K |
| `PbufChains.SplitFacts` | lwip/pbuf.c:917-950 | the front has an exact total length, both parts are consistent, no byte is lost or moved |
| `PbufChains.CatUndoesSplit` | lwip/pbuf.c:704-725 | joining the parts restores the chain, but for a FIN flag copied to the rest |
| `PbufChains.CatConsistent` | lwip/pbuf.c:704-725 | joining consistent chains gives a consistent chain |
| `PbufChains.DeliverAll` | net/tcp_in.c:429-477 | every byte is handed up or kept, in order, in chains with exact total lengths |
| `PbufChains.DeliverEverything` | net/tcp_in.c:429-477 | if nothing is refused everything is handed up |
| `PbufChains.DeliverLoop` | net/tcp_in.c:429-477 | the delivery loop, with a connection closed for reading, refusal and abort, terminates with the specified outcome |
| `Pbufs.FindFront` | lwip/pbuf.c:920-932 | the walk while the 16-bit sum grows |
| `Pbufs.AddToTotals` | lwip/pbuf.c:710-719 | total lengths changed along the linked chain |
| `Pbufs.Split64k` | lwip/pbuf.c:917-950 | the linked chain is cut in place into the two specified chains |
| `Pbufs.Cat` | lwip/pbuf.c:704-725 | the linked chains become the specified one |
| `Framing.DecodeEncode` | inc/reflex.h:63-72 | the packed header round-trips |
| `Framing.FeedJoined` | apps/reflex_server.c:474-662 | feeding chunk by chunk is feeding the joined bytes |
| `Framing.FeedHead` | apps/reflex_server.c:485-501 | header bytes accumulate until the header is complete |
| `Framing.FeedBody` | apps/reflex_server.c:566-592 | payload bytes accumulate until the payload is complete |
| `Framing.ReceivesOne` | apps/reflex_server.c:474-662 | the wire form of an acceptable request yields that request |
| `Framing.ReceivesAll` | apps/reflex_server.c:474-662 | and so does any list of them |
| `Framing.ChunkingIsInvisible` | apps/reflex_server.c:474-662 | however the stream of any list of requests is cut, exactly these requests come out |
| `FramingSound.EncodeDecode` | apps/reflex_server.c:474-540 | every header is the encoding of what it decodes to |
| `FramingSound.ExactlyTheProper` | apps/reflex_server.c:474-662 | for any bytes at all: the requests handed over are proper, are on the wire from the first byte on, and no further proper request follows them there |
| `PagedBuffers.FlatAt` | apps/reflex_server.c:566-592 | byte k lies in page k / 4096 at offset k % 4096 |
| `PagedBuffers.StoreFlat` | apps/reflex_server.c:571-578 | a copy into one page is a copy into the flat data |
| `ReflexReceive.PayloadInPages` | apps/reflex_server.c:566-592 | byte k of a write is at buf[k / 4096][k % 4096] |
| `ReflexReceive.PpConn.ReadHeader` | apps/reflex_server.c:485-501 | one read of header bytes |
| `ReflexReceive.PpConn.AcceptHeader` | apps/reflex_server.c:503-558 | registration, rejection, or pages for the request |
| `ReflexReceive.PpConn.ReadPiece` | apps/reflex_server.c:567-591 | one read into the current page |
| `ReflexReceive.PpConn.ReadPayload` | apps/reflex_server.c:566-594 | the payload loop |
| `ReflexReceive.PpConn.FinishReq` | apps/reflex_server.c:560-661 | payload, address check and hand-over to the device |
| `ReflexReceive.PpConn.ReceiveReq` | apps/reflex_server.c:474-662 | receive_req leaves the connection where a byte-by-byte reading of the bytes leaves it |
| `ReflexSend.PieceOfMessage` | apps/reflex_server.c:257-282 | the bytes taken from the current page are the next bytes of the reply |
| `ReflexSend.PpConn.Append` | apps/reflex_server.c:348-372 | a finished request joins the end of the list |
| `ReflexSend.PpConn.SendHeader` | apps/reflex_server.c:215-253 | the header loop, resumable after any short or refused send |
| `ReflexSend.PpConn.SendPayload` | apps/reflex_server.c:257-283 | the payload loop, resumable |
| `ReflexSend.PpConn.SendReq` | apps/reflex_server.c:210-313 | send_req: on success the reply is out whole, else it can be resumed |
| `ReflexSend.PpConn.SendPendingReqs` | apps/reflex_server.c:315-346 | replies leave whole and in list order; the output is always the messages done plus a prefix of the next |
| `ReflexSend.OutputIsPrefix` | apps/reflex_server.c:315-346 | that output is a prefix of all messages in list order |
| `TimerWheel.IndexIsWheel` | core/timer.c:136-166 | the leading-zero index is a wheel exactly for delays of 16 microseconds up to the maximum, and its range holds the delay |
| `TimerWheel.ReachesAligned` | core/timer.c:282-302 | a tick, at any remainder, reaches wheel w exactly when its multiple of 16 is one of the grain |
| `TimerWheel.VisitsAreTurns` | core/timer.c:307-322 | visits of one bucket are whole turns apart |
| `TimerWheel.FirstVisitIff` | core/timer.c:282-322 | a bucket is first visited at the tick for its time if and only if that is ahead by less than a turn |
| `TimerWheel.PlacedIff` | core/timer.c:136-166 | outside timer_run, for any start-up clock: the bucket is next visited at the tick for the time, if and only if that is less than a turn ahead; otherwise at the very next tick |
| `TimerWheel.PlacedOnTime` | core/timer.c:136-166 | with the clock at most the multiple of 16 before the next tick it always is; in wheel 0 the tick is 1 to 16 microseconds after the expiry, plus the remainder of the ticks |
| `TimerWheel.UnalignedFiresEarly` | core/timer.c:463-468 | at another remainder a timer four milliseconds ahead can be run at the next tick |
| `TimerWheel.CascadeFiresEarly` | core/timer.c:253-276 | a timer in the bucket of wheel 2 that a tick empties, with the clock past the tick, can move to the bucket the tick runs next, four milliseconds early |
| `TimerRuns.NoTimerLost` | core/timer.c:307-322 | over all ticks of a timer_run every timer stays on a wheel or is taken off, each as often as it was there |
| `TimerRuns.TickSits` | core/timer.c:282-322 | one tick, cascade included, leaves every timer in the bucket of its time, for a tick still to come |
| `TimerRuns.RunSits` | core/timer.c:307-322 | the same for a whole timer_run, however far the clock has moved |
| `TimerRuns.NeverLate` | core/timer.c:136-322 | over any run of insertions and timer_run from timer_init_cpu: each timer added is stored or taken exactly once, and one still stored expired less than 32 microseconds before the next tick |
| `TimerRuns.ReinsertExactly` | core/timer.c:253-276 | emptying a bucket takes exactly the expired timers and puts exactly the others back |
| `TimerRuns.TickTakesDue` | core/timer.c:282-322 | a tick takes a timer that has not expired only from the bucket of wheel 0 it runs, a turn or more before its own tick |
| `TimerRuns.NeverEarlyBut` | core/timer.c:136-322 | over any run every timer taken had expired or was taken a turn or more before its tick, the case of the two lemmas on early timers |
| `TimerRuns.UnalignedTakesEarly` | core/timer.c:136-322 | a run from start-up at a clock that is no multiple of 16: a timer four milliseconds ahead is taken at the next tick |
| `TimerRuns.TimerWheelCpu.constructor` | core/timer.c:463-468 | timer_init_cpu: empty wheels at the clock |
| `TimerRuns.TimerWheelCpu.Insert` | core/timer.c:136-166 | timer_insert puts the timer in one bucket, and when that is next visited, for any start-up clock |
| `TimerRuns.TimerWheelCpu.ReinsertBucket` | core/timer.c:253-276 | the loop that empties a bucket: expired timers are taken, the others placed anew |
| `TimerRuns.TimerWheelCpu.CollapseAt` | core/timer.c:282-302 | the cascade over the higher wheels with its early exit |
| `TimerRuns.TimerWheelCpu.RunTimers` | core/timer.c:307-322 | timer_run moves timer_pos past the clock, with the wheels and the timers taken as specified |
| `TimerRuns.TimerWheelCpu.BucketsAt` | core/timer.c:282-322 | the buckets one tick touches, through the collapse loop and its early exit |

## Left out

- TCP timers, keepalive, persist, SYN handling, the open and close state machine, congestion-window growth and round-trip estimation: only the events that touch the queues and the window are modelled.
- The copying branch and the over-allocation of `tcp_write`, the PSH flag and TCP options: the system call always takes the no-copy path, and the rest does not touch the queues.
- Pbufs of a TCP segment: trimming a segment drops bytes from a sequence, not from a chain.
- EndToEnd.ReliableByteStream: takes as hypothesis that no write grows, and no close marks, a last unsent segment that is not the newest (`Careful`).  Without it the statement is false, see `CarelessWriteCorrupts` and `CarelessCloseTruncates`; `RunIntactIff` says that these are exactly the runs whose every state keeps the invariant.
- Completion.CarelessCloseEndsEarly: asks that the receiver stands in the marked segment, or has nothing out of order and the segment overlaps no other; without that the receiver may already hold a bridge over it, see `BridgedSurvives`.  The segment must fit the receive window.
- Tenant queues inside `CoreScheduler` are values; that the ring buffer behaves like them is proved separately in `SwQueue`.
- Retries of the compare-and-swap loop are steps of the thread machine; that a thread eventually succeeds is not claimed, because other threads can always win.
- The bit vector update is one atomic step, as its comment intends; the code updates it without synchronisation.
- SchedulerRuns.TenantWindow: is about LC tenants; BE tenants of a thread share one pool, so their bound is the one for the whole node.
- The tenant set is fixed in the scheduling theorems; re-registration of a live flow and a full slot table are not modelled.
- AdmissionProofs.NeverOversubscribed: assumes a sorted, rising table that ignores the read-only flag, new tenants in free slots, and no refused tenant holding a slot when an LC tenant leaves; `BalancedRunIff` gives the exact condition for runs on any device.
- AdmissionProofs.RegisterInv: is for a free slot; registration over a live flow is not modelled.
- EnforcedRates.EnforcedRunIff: is for runs in which nobody is refused; a refused tenant keeps its slot, where the loop counts it.
- ReceivePcb.TcpPcb.Input: knows whether data was refused in this call; the run theorems take all data as accepted, and the retries of a refused chain are in `PbufChains.DeliverAll`.
- Request cost and scaled rate computation: inputs here, one-line formulas in the code.
- `ixev_recv`, `ixev_recv_zc` and the receive ring of ixev: they hand out the next bytes, which the framing model takes as given.
- Memory reuse after a release: every buffer has a new name, so a stale pointer cannot alias a later buffer in the model.
- PbufChains.DeliverLoop: works on values; the relinking it does through split and cat is proved on linked buffers in `Pbufs`.
- `pbuf_realloc`, `pbuf_header` and reference counts.
- ReflexReceive.PpConn.AcceptHeader: rejects every request of more than 256 pages; in the code one of 2049 to 2055 sectors of 512 bytes passes the assertion, which rounds down, and gets one page more than the table has room for, an effect outside this model.
- ReflexSend.PpConn.SendReq: the callback that frees the pages of a read, and the pools, are not modelled.
- Timer handlers, which may add timers while a tick runs, deletion, and flow groups: a timer without one is taken off wheel 0 and its handler not called.
- The x86 assembly branch of `chksum_internet`.
- Device setup, configuration parsing, flow-group migration, ARP, ICMP, UDP, IPv6 and the load generator.
