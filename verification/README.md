# Proofs about the ivshmem transport and the ASRC driver

This project models two independent parts of the repository in Dafny and proves what they
are for.

**The ivshmem transport** carries packets between two guests through a shared memory region
that each side writes one half of.

- *Ring layer.* One direction is a split virtqueue: a descriptor table with a free list
  threaded through `next`, a byte ring for the frames, free-running u16 indices and an event
  index that suppresses doorbells. `Vring` describes each critical section as a function,
  `PipeQueue` holds the queues as objects over shared arrays proved equal to those functions,
  `Pipe` lets any number of senders and cleaners and one receiver take these steps in any
  order. `PipeSteps` shows that every step keeps one invariant and `PipeRuns` draws the
  conclusions: the pipe is a FIFO of byte strings, a wake-up is lost only before RUN,
  descriptors and bytes are never owned twice, the cleaner's checks never fire. `PipePoll` ties
  whole calls of write and poll back to that protocol, `PipeDrain` brings any state to rest, `PipeWakeups`
  treats doorbells that come before RUN, and `PipeGuard` and `PipeOverwrite` treat the guard
  that the code uses.
- *Layout and bring-up.* `Layout` covers the division of the memory, `Handshake` the
  four-state machine of two peers, with restarts and with the read of the remote state apart
  from the transition it leads to. `Bringup` leads from a memory size to the first state of
  the ring protocol.
- *Endpoints.* `Packet` builds frames by prepending, `Endpoint` routes and cuts them,
  `EndpointRuns` interleaves partial copies with partial reads, and `EndToEnd` joins this to
  the pipe.
- *Services.* `StopAndWait`, `Binary` and `RxBuffer` model the chunked transfer and its receive
  buffer, `Rpc` the call with its bounded retry.

**The sample-rate converter (ASRC).** `AsrcDma` models the cyclic descriptor ring that
streams a linear buffer, `AsrcRatio` the fixed-point ratio and its greatest common divisor.

Locks are step boundaries, memory is sequentially consistent, `notify_peer` sets a pending
flag, and the peer follows the same code. Ring lengths are powers of two up to 4096, as
`ivshm_calc_qsize` chooses them. Frames are not empty: every frame carries a 16-byte header.

## Where the code falls short

- A peer that reaches RUN first may send at once; `ivshm_write` does not look at the other
  side's state. Its doorbell, handled while the other side is still in READY, is counted as a
  change of state and not as data, and no later send rings again: the frames wait for the
  1000 ms time-out (`PipeWakeups.DoorbellBeforeRunIsLost`, `PipeDrain.SendsDoNotHelp`).
  `PipeRuns.NoLostWakeup` says exactly when waiting means that everything is delivered, and
  `PipeWakeups.WaitingSenderLosesNothing` that a sender which waits for the peer's RUN loses
  nothing.
- `ivshm_write` sends even when `ivshm_tx_ok` fails. The guard also runs outside the lock: for
  a single sender its answer stays good (`PipeGuard.EarlyGuardHolds`), for two it does not
  (`PipeOverwrite.TwoSendersRace`).
- `ivshm_tx_ok` accepts an exact fill, after which head equals tail as if the ring were empty.
  `PipeGuard.AmbiguousIffExactFill` and `PipeGuard.SendIsSafeIff` say exactly when and with
  what effect, `PipeGuard.RunsIffNeverFills` that this is all that separates the guarded runs
  from the well-behaved ones. For every accepted memory size whose data area holds a cache
  line, three frames that each fill the ring lead to a wrong delivery
  (`PipeOverwrite.GuardedFifoByMemory`, `PipeOverwrite.ExactFillBreaksFifo`).
- A restart against a peer that waits in READY deadlocks both sides, and so does one against
  a peer in INIT that has already read a state other than RESET
  (`Handshake.RestartAgainstInitDeadlocks`).
- Creating an endpoint compares the full id with stored 16-bit ids, so ids above 0xFFFF can
  duplicate one (`Endpoint.CreateKeepsUniqueIff`).
- Chunk 256 of a binary transfer carries number 0; the receiver compares with the `int` 256,
  acknowledges and drops it, and everything after it (`Binary.Delivery`).
- An EOT whose acknowledgement comes late is sent again and finds the receiver in RESET: its
  assertion fails, or, with packet number 1, the chunk is appended twice
  (`Binary.RepeatedEot`).
- The sixth reply of an RPC call is judged the wrong way round, because the unsigned retry
  counter has wrapped for a foreign reply and is 0 for a current one
  (`Rpc.SixthReplyInverted`); `Rpc.ForeignSuccessIff` says exactly when a call takes another
  call's answer.
- A packet that is a bare header trips the reader's assertion when nothing is buffered behind
  it (`EndpointRuns.HaltsIff`).
- The offset of an ASRC output period is a u32 product, which jumps after 4 GiB of output
  unless the ring size divides 2^32 (`AsrcDma.TxOffsetFaithfulIff`).
- `vring_avail_event` is written with 32 bits although the standard and `vring_size` count 16
  (VIRTIO 1.1, section 2.6.2); `Layout.EventFits` shows that the rounding leaves room.
- The comment of `hdr.len` says payload length; the code uses the length of the whole frame.

## Model

| member | source | states |
|---|---|---|
| PipeRuns.PipeIsFifo | dev/ivshmem/ivshmem-pipe.c:590-632 | in every interleaving of senders, cleaners and the receiver, the frames handed to the endpoint layer are a prefix of the frames sent: same bytes, same order, none twice |
| PipeRuns.NoLostWakeup | dev/ivshmem/ivshmem-pipe.c:634-670 | a receiver that waits with no doorbell pending, no semaphore post and no sender about to ring has delivered everything that was sent if and only if it has not missed a doorbell before RUN |
| PipeWakeups.MissedIffMissesAt | dev/ivshmem/ivshmem-pipe.c:640-641 | a run has missed a doorbell exactly when one of its events handles the doorbell of an undelivered frame before RUN and the receiver has not looked at the ring since |
| PipeWakeups.WaitingSenderLosesNothing | dev/ivshmem/ivshmem-pipe.c:640-641 | when every send finds the receiver in RUN, at rest everything is delivered |
| PipeWakeups.DoorbellBeforeRunIsLost | dev/ivshmem/ivshmem-pipe.c:640-641 | for every configuration and first frame, a run whose doorbell comes in READY ends in RUN, waiting with nothing pending and nothing delivered |
| PipeDrain.SendsDoNotHelp | dev/ivshmem/ivshmem-pipe.c:571-588 | after a missed doorbell nothing is delivered, whatever is sent, until the time-out or a change of the peer's state |
| PipeDrain.DoorbellsSufficeIff | dev/ivshmem/ivshmem-pipe.c:735-841 | from a reachable state in RUN everything can be delivered without a time-out and without a change of state if and only if the receiver is not stranded by a missed doorbell |
| PipeRuns.TakeNeverRejects | dev/ivshmem/ivshmem-pipe.c:377-399 | no descriptor check of the receiver ever fails; it goes idle exactly when everything was delivered |
| PipeRuns.DescriptorsConserved | dev/ivshmem/ivshmem-pipe.c:520-547 | num_free hops from free_head, the frames in flight and the cleaners' pending chains meet every descriptor exactly once; num_free never exceeds num |
| PipeRuns.FlightSpansDisjoint | dev/ivshmem/ivshmem-pipe.c:454-465 | frames in flight occupy pairwise disjoint aligned spans inside the data area, and head equals tail exactly when nothing is in flight |
| PipeRuns.CleanReachesUsed | dev/ivshmem/ivshmem-pipe.c:491-531 | no "bad tx descriptor" break fires in a reachable state: a clean always ends at the used index, and at rest brings tail to head |
| PipeRuns.CountersFaithful | dev/ivshmem/ivshmem-pipe.c:382-398 | over any number of wraps at 65536 the entries not taken and not cleaned, read off the u16 counters, never exceed the ring, and those not taken, delivered and held account for every frame sent |
| PipeSteps.StepKeeps | dev/ivshmem/ivshmem-pipe.c:467-632 | every step keeps the invariant of descriptors, data area, counters, receiver and wake-ups, and a send appends its frame to the history |
| PipeSteps.SendKeeps | dev/ivshmem/ivshmem-pipe.c:600-624 | placing and publishing a frame keeps the invariant: no slot, descriptor or span in use is touched |
| PipeSteps.AnnounceKeeps | dev/ivshmem/ivshmem-pipe.c:571-588 | the doorbell decision never skips a receiver that waits for the frame just published |
| PipeWakeups.RingsIff | dev/ivshmem/ivshmem-pipe.c:571-582 | for any number of added frames the sender rings exactly when the event index names one of them |
| PipeWakeups.AnnounceRingsIff | dev/ivshmem/ivshmem-pipe.c:571-588 | at every reachable state the doorbell rings exactly when the event index is that of the frame just published |
| PipeWakeups.TakenNeverRings | dev/ivshmem/ivshmem-pipe.c:571-588 | a frame that the receiver has taken and armed past never rings |
| PipeWakeups.InterruptCounts | dev/ivshmem/ivshmem-pipe.c:639-655 | an interrupt in RUN without a change of state counts data and posts exactly when some frame has not been taken, and leaves nothing behind otherwise |
| PipeWakeups.InterruptBeforeRun | dev/ivshmem/ivshmem-pipe.c:237-248 | before RUN every interrupt is a change of state and no data |
| PipeWakeups.PassTakes | dev/ivshmem/ivshmem-pipe.c:807-834 | a pass of the thread takes at most one of each count and polls for data, or for a time-out that finds RUN |
| PipeSteps.SweepKeeps | dev/ivshmem/ivshmem-pipe.c:482-536 | the cleaning loop reclaims exactly the frames given back, building its chain backwards, and keeps the invariant |
| PipeSteps.SpliceKeeps | dev/ivshmem/ivshmem-pipe.c:538-547 | splicing a pending chain, at any later time and in any order, keeps the free list linked and every descriptor owned once |
| PipeSteps.TakesOldest | dev/ivshmem/ivshmem-pipe.c:377-399 | the next available entry is the oldest frame not yet taken, and its descriptor passes ivshm_desc_data |
| PipeSteps.FinishKeeps | dev/ivshmem/ivshmem-pipe.c:407-419 | returning a descriptor publishes it at the used slot of its frame and keeps the invariant |
| PipeGuard.RunsIffNeverFills | dev/ivshmem/ivshmem-pipe.c:565-569 | the runs with the strict room condition are exactly the runs under ivshm_tx_ok in which no send is an exact fill |
| PipeGuard.AmbiguousIffExactFill | dev/ivshmem/ivshmem-pipe.c:550-569 | a send that ivshm_tx_ok accepts leaves head at tail, which reads as empty, if and only if it is an exact fill |
| PipeGuard.SendIsSafeIff | dev/ivshmem/ivshmem-pipe.c:550-569 | at every reachable state with two free descriptors, after an accepted send some further accepted frame lands on a frame in flight if and only if the first is an exact fill |
| PipeGuard.EarlyGuardHolds | dev/ivshmem/ivshmem-pipe.c:995-999 | a single sender may read the guard before it takes the lock: what could be sent can still be sent after any steps of others that send nothing |
| PipeGuard.FitsAfterReclaim | dev/ivshmem/ivshmem-pipe.c:512-521 | reclaiming the oldest frame takes no room away from a frame that fits |
| PipeOverwrite.TwoSendersRace | dev/ivshmem/ivshmem-pipe.c:995-1000 | two senders whose guards both pass at one state: the second no longer fits after the first, sends, and its frame is delivered in place of the first |
| PipeOverwrite.ExactFillBreaksFifo | dev/ivshmem/ivshmem-pipe.c:565-569 | in every configuration with three descriptors, any three frames of equal length that each fill the ring have a run under ivshm_tx_ok in which the third is delivered in place of the second |
| PipeOverwrite.GuardedFifoIff | dev/ivshmem/ivshmem-pipe.c:565-569 | under ivshm_tx_ok alone the pipe is a FIFO if and only if the ring is too small for any frame |
| PipeOverwrite.GuardedFifoByMemory | dev/ivshmem/ivshmem-pipe.c:316-343 | the same for every size of shared memory that is accepted |
| PipeDrain.Drains | dev/ivshmem/ivshmem-pipe.c:735-769 | from every reachable state a continuation without sends delivers everything, empties the batches, brings head to tail and frees every descriptor |
| Bringup.DirectionValid | dev/ivshmem/ivshmem-pipe.c:275-343 | every accepted memory size gives a valid configuration of at least 32 descriptors, the same for both peers |
| Bringup.StartQueues | dev/ivshmem/ivshmem-pipe.c:290-314 | freshly built queues over a zeroed half are a first state of the protocol |
| Bringup.StartDirection | dev/ivshmem/ivshmem-pipe.c:290-343 | every accepted memory size leads to a first state for either direction |
| Bringup.OnePage | dev/ivshmem/ivshmem-pipe.c:316-343 | 4 KiB of shared memory give 32 descriptors and 128 bytes of data in each half |
| PipePoll.PollIsRun | dev/ivshmem/ivshmem-pipe.c:739-761 | an uninterrupted pass of the receive loop is a run of the protocol that ends idle with every published frame delivered |
| PipePoll.WriteIsRun | dev/ivshmem/ivshmem-pipe.c:985-1002 | an uninterrupted ivshm_write whose frame fits is a run of the protocol that sends exactly that frame, or nothing when no descriptor is free |
| ByteRing.LaidArc | dev/ivshmem/ivshmem-pipe.c:454-465 | frames placed by advancing lie on the arc from the first position to head, which meets it only when there are none |
| ByteRing.SpansDisjoint | dev/ivshmem/ivshmem-pipe.c:454-465 | frames laid out from tail to head are in the data area, pairwise disjoint, and head meets tail exactly when there are none |
| ByteRing.PlaceIffFits | dev/ivshmem/ivshmem-pipe.c:610-611 | placing a frame keeps the layout if and only if it stops short of the tail |
| ByteRing.TxOkFitsIff | dev/ivshmem/ivshmem-pipe.c:550-569 | a frame accepted by ivshm_tx_ok stops short of the tail if and only if it is not an exact fill; strictly more space always suffices |
| ByteRing.TxOkIff | dev/ivshmem/ivshmem-pipe.c:565-569 | the guard passes exactly when a descriptor is free and the frame stops short of the tail or fills the space up to it |
| ByteRing.FrameSizeLeast | dev/ivshmem/ivshmem-pipe.c:109 | a frame takes the least number of whole cache lines that holds it |
| ByteRing.ExactFillOverwrites | dev/ivshmem/ivshmem-pipe.c:550-569 | an exact fill brings head to tail; a further frame that ivshm_tx_ok accepts then overlaps a frame in flight if and only if the oldest starts at the tail or the new one does not fit between tail and end |
| ByteRing.ExactFillWitness | dev/ivshmem/ivshmem-pipe.c:550-569 | a concrete exact fill followed by an accepted frame on top of the oldest one |
| ByteRing.AcceptedApart | dev/ivshmem/ivshmem-pipe.c:550-569 | while the layout is in order no accepted frame touches a frame in flight, exact fill or not |
| ByteRing.OldestHit | dev/ivshmem/ivshmem-pipe.c:550-569 | after an exact fill a frame of the oldest one's length is accepted and lands exactly on it |
| ByteRing.TailReplaysHead | dev/ivshmem/ivshmem-pipe.c:512-519 | advancing from tail by the oldest frame's length yields exactly the offset that frame was given, wrap included |
| Vring.NeedEventCyclic | dev/ivshmem/include/virtio_ring.h:160-168 | for all u16 triples: true exactly when the event index lies in the cyclic half-open interval [old, new) |
| Vring.NeedEventCounters | dev/ivshmem/include/virtio_ring.h:160-168 | over unbounded counters less than 65536 apart: notify exactly when the awaited entry is among the new ones |
| Vring.DescData | dev/ivshmem/ivshmem-pipe.c:345-375 | a descriptor is accepted only with its whole span inside the data area |
| Vring.DescDataIff | dev/ivshmem/ivshmem-pipe.c:354-374 | a descriptor is accepted exactly when it has no flags and names a span that begins and ends in the data area |
| Vring.SweepGoesOnIff | dev/ivshmem/ivshmem-pipe.c:497-520 | the cleaning loop goes on exactly when the used entry names one descriptor, used once, whose data lie where the tail expects them |
| Vring.RxDescConsumes | dev/ivshmem/ivshmem-pipe.c:382-398 | a new available entry is consumed whether or not it names a descriptor |
| Vring.Slot | dev/ivshmem/ivshmem-pipe.c:389 | `idx & (num - 1)` is `idx % num` for a ring length that is a power of two |
| PipeQueue.SharedRing.constructor | dev/ivshmem/ivshmem-pipe.c:303 | a zeroed half |
| PipeQueue.TxQueue.constructor | dev/ivshmem/ivshmem-pipe.c:307-313 | a fresh sender whose free list runs through all descriptors in order |
| PipeQueue.TxQueue.AdvanceHead | dev/ivshmem/ivshmem-pipe.c:454-465 | head moves past the frame, rounded to the start when the frame does not fit before the end |
| PipeQueue.TxQueue.Frame | dev/ivshmem/ivshmem-pipe.c:590-624 | the queue, the shared ring and the data area become exactly the specified critical section's result |
| PipeQueue.TxQueue.Notify | dev/ivshmem/ivshmem-pipe.c:571-588 | rings exactly when the awaited entry is new; num_added restarts at 0 |
| PipeQueue.TxQueue.Reclaim | dev/ivshmem/ivshmem-pipe.c:491-531 | one iteration of the cleaning loop with its three break conditions |
| PipeQueue.TxQueue.Clean | dev/ivshmem/ivshmem-pipe.c:482-536 | the loop under the clean lock ends where the specified sweep ends, leaving its chain to the caller |
| PipeQueue.TxQueue.Splice | dev/ivshmem/ivshmem-pipe.c:538-547 | the chain goes in front of the free list |
| PipeQueue.TxQueue.Write | dev/ivshmem/ivshmem-pipe.c:985-1002 | clean, splice, place, decide on the doorbell; refused only without a free descriptor |
| PipeQueue.RxQueue.NextDesc | dev/ivshmem/ivshmem-pipe.c:377-399 | takes the next available id, or none when there is none or it is out of range |
| PipeQueue.RxQueue.Finish | dev/ivshmem/ivshmem-pipe.c:407-419 | writes the used entry and publishes the index |
| PipeQueue.RxQueue.Poll | dev/ivshmem/ivshmem-pipe.c:735-769 | the loop hands on exactly the frames of the specified uninterrupted poll and leaves its state |
| PipeQueue.PollArms | dev/ivshmem/ivshmem-pipe.c:407-419 | a round that hands on a frame gives its descriptor back with length 1 and waits for the next entry; any other leaves shared memory alone |
| PipeQueue.CopyTo | dev/ivshmem/ivshmem-pipe.c:614 | the frame's bytes are in the data area and nothing else changed |
| Words.MaskIsMod | dev/ivshmem/ivshmem-pipe.c:620 | masking with num - 1 is the remainder by num for every power of two |
| Words.SlotOf | dev/ivshmem/ivshmem-pipe.c:620-624 | the masked u16 finds the slot of the unbounded counter, across wraps |
| Words.SlotsDiffer | dev/ivshmem/ivshmem-pipe.c:497 | counters less than num apart occupy different slots |
| Words.AlignIsMask | dev/ivshmem/include/virtio_ring.h:145-146 | the mask form of ALIGN is the least multiple that is not smaller |
| EndToEnd.ReaderGetsWhatWasSent | dev/ivshmem/ivshmem-endpoint.c:134-223 | pipe and endpoints together: a reader gets a prefix of the packets the other side sent to its id |
| EndToEnd.AtRestAllArrived | dev/ivshmem/ivshmem-pipe.c:735-769 | once both layers are at rest and no doorbell was missed before RUN the reader has got every packet sent to its id |
| Layout.CalcQsize | dev/ivshmem/ivshmem-pipe.c:316-343 | the longest ring of 64 to 4096 entries that takes less than a sixteenth of the memory; else 32 entries in the room of 64; refused when that exceeds half |
| Layout.RingsTakeLittle | dev/ivshmem/ivshmem-pipe.c:322-335 | rings of 64 entries and more take less than a sixteenth of the memory, so the data area of a half exceeds seven sixteenths |
| Layout.LongerTakesMore | dev/ivshmem/ivshmem-pipe.c:322-327 | every longer ring up to 4096 entries would take a sixteenth or more, to within 16 bytes |
| Layout.RefusedIff | dev/ivshmem/ivshmem-pipe.c:329-330 | memory is refused exactly when half of it is below the 1920 bytes of a 64-entry ring |
| Layout.OneMegabyte | dev/ivshmem/ivshmem-pipe.c:322-338 | 1 MiB gives 2048 entries, 53504 bytes of rings and 470784 bytes of data in each half |
| Layout.PartsDisjoint | dev/ivshmem/ivshmem-pipe.c:275-343 | for every accepted size the descriptor table, available ring with used_event, used ring with the 32-bit avail_event and data area follow each other without overlap and fill the half |
| Layout.EventFits | dev/ivshmem/include/virtio_ring.h:137 | the 32-bit event index behind the used ring stays before the data area although only 16 bits are counted for it |
| Layout.ViewsMirrored | dev/ivshmem/ivshmem-pipe.c:290-308 | after the exchange of used rings each peer's transmit view is the other's receive view, and each side writes only its own half |
| Layout.Info.InitQueues | dev/ivshmem/ivshmem-pipe.c:290-308 | the own half is zeroed, the other left alone, both queues set up with exchanged used rings |
| Handshake.Info.PipeFsm | dev/ivshmem/ivshmem-pipe.c:693-733 | one pass of the four-state machine on the remote state it read |
| Handshake.MovesExactly | dev/ivshmem/ivshmem-pipe.c:699-729 | exactly eight pairs of own and remote state make a side move, always to the next state in the cycle |
| Handshake.NeverZeroesUnderRun | dev/ivshmem/ivshmem-pipe.c:705-711 | over any number of epochs, with the remote read apart from the action, no side zeroes its half while the peer runs |
| Handshake.RunOnFreshHalves | dev/ivshmem/ivshmem-pipe.c:712-729 | a running side facing a peer that is not in reset works on halves both zeroed since the last reset |
| Handshake.StepKeeps | dev/ivshmem/ivshmem-pipe.c:693-733 | every read, transition and restart keeps the handshake invariant |
| Handshake.DangerIffImpolite | dev/ivshmem/ivshmem-pipe.c:693-733 | exactly the restarts against a peer waiting in READY, or in INIT on its way there, lead into danger |
| Handshake.DangerDeadlocks | dev/ivshmem/ivshmem-pipe.c:693-733 | danger is real: deadlocked at once, or after the endangered side acts on what it has read |
| Handshake.ImpoliteCanDeadlock | dev/ivshmem/ivshmem-pipe.c:693-733 | after any other restart than the allowed ones a deadlock is reachable without a further restart |
| Handshake.DeadlockStays | dev/ivshmem/ivshmem-pipe.c:698-719 | a deadlocked pair never moves again without a restart |
| Handshake.HelpfulHelps | dev/ivshmem/ivshmem-pipe.c:693-733 | every other reachable pair has an enabled step that decreases the distance to both running |
| Handshake.ReachesRunIffNotDeadlocked | dev/ivshmem/ivshmem-pipe.c:693-733 | from any reachable pair both sides can reach RUN without a restart if and only if it is not deadlocked |
| Handshake.PoliteNeverDeadlocks | dev/ivshmem/ivshmem-pipe.c:693-733 | restarts of the allowed kind never lead to a deadlock |
| Handshake.RestartAgainstInitDeadlocks | dev/ivshmem/ivshmem-pipe.c:705-711 | a restart that spares READY peers but hits one in INIT with a pending read deadlocks |
| Packet.EpBuf.Add | dev/ivshmem/include/ivshmem-endpoint.h:116-126 | prepends a part; refused once eight parts are there |
| Packet.EpBuf.Size | dev/ivshmem/include/ivshmem-endpoint.h:111-114 | the length of what is gathered |
| Packet.EpBuf.Frame | dev/ivshmem/ivshmem-endpoint.c:279-300 | header in front of the gathered parts, its length field equal to the frame's length; with eight parts the frame goes out without header |
| Packet.HeaderParses | dev/ivshmem/include/ivshmem-pipe.h:128-150 | a framed packet is well formed and gives back its id, payload and payload length |
| Packet.HeaderBytes | dev/ivshmem/ivshmem-endpoint.c:284-287 | the sixteen bytes of a header: "pktx", id, length, "PADX" in memory order |
| Packet.Le32Bytes | dev/ivshmem/include/ivshmem-pipe.h:128-132 | a header word is stored least significant byte first |
| Packet.WellFormedIff | dev/ivshmem/ivshmem-endpoint.c:152-153 | a frame passes the pusher's assertions exactly when it begins with "pktx" and states its own length |
| Packet.PayloadLengthOf | dev/ivshmem/include/ivshmem-pipe.h:144-150 | a length below the header's own size stands for no payload |
| Packet.AddsReverse | dev/ivshmem/include/ivshmem-endpoint.h:116-126 | up to eight additions gather as the reverse-order concatenation |
| Packet.SevenPartsFramed | dev/ivshmem/ivshmem-endpoint.c:279-300 | up to seven parts arrive as their reverse-order concatenation behind a header with the right id and length |
| Endpoint.Registry.GetEndpoint | dev/ivshmem/ivshmem-endpoint.c:112-132 | the first endpoint in list order with that 16-bit id |
| Endpoint.Registry.Create | dev/ivshmem/ivshmem-endpoint.c:487-508 | refused when the id is found in the list; otherwise a word is appended that holds the low 16 bits of the id and the scheduling bits above |
| Endpoint.CreateKeepsUniqueIff | dev/ivshmem/ivshmem-endpoint.c:487-508 | the check keeps ids unique if and only if the id fits 16 bits or its low half is new |
| Endpoint.CreateDuplicates | dev/ivshmem/ivshmem-endpoint.c:487-508 | a concrete pair of endpoints with the same 16-bit id |
| Endpoint.Endpoint.Push | dev/ivshmem/ivshmem-endpoint.c:169-217 | the whole frame and one semaphore count, or the part that fits and a failed assertion |
| Endpoint.Endpoint.PktRead | dev/ivshmem/ivshmem-endpoint.c:302-360 | one packet off the front of the ring and one semaphore count, with every failing case |
| Endpoint.HeaderOkIff | dev/ivshmem/ivshmem-endpoint.c:335-341 | the reader goes on exactly when more than a header is there, it begins with "pktx" and states a length below the reader's buffer |
| EndpointRuns.ReadersGetTheirPackets | dev/ivshmem/ivshmem-endpoint.c:134-223 | across any interleaving of partial copies and partial reads of any frames, failed assertions included, each reader gets a prefix of the well-formed frames addressed to its id, whole and in order; the semaphore counts the complete packets buffered |
| EndpointRuns.HaltsIff | dev/ivshmem/ivshmem-endpoint.c:152-341 | an assertion fails exactly on a frame that is not well formed, on a copy into an endpoint's full ring, and on a read whose packet is too long for that endpoint or is a bare header with nothing behind it |
| EndpointRuns.ReadersNeverHalt | dev/ivshmem/ivshmem-endpoint.c:335-341 | an endpoint whose packets have a payload and fit its reader's buffer never fails an assertion of the reader, whatever goes to the others |
| EndpointRuns.PushIsRun | dev/ivshmem/ivshmem-endpoint.c:134-223 | an uninterrupted push into a ring with room is a run that appends the frame and posts the semaphore |
| EndpointRuns.ReadIsRun | dev/ivshmem/ivshmem-endpoint.c:302-360 | an uninterrupted read of a buffered packet is a run that takes it off the ring and hands it on |
| EndpointRuns.ReaderNeverStarves | dev/ivshmem/ivshmem-endpoint.c:343-347 | a reader that began a packet finds the rest of it in the ring |
| EndpointRuns.StepSound | dev/ivshmem/ivshmem-endpoint.c:134-360 | every partial copy and read of any endpoint keeps the framing invariant of all endpoints |
| Binary.Write | dev/ivshmem/services/binary/ivshmem-binary.c:231-294 | the transfer goes by the acknowledgements alone: each packet carries the chunk behind those acknowledged before it, the offset counts the chunks acknowledged, and the loop stops at the first acknowledged last chunk or tenth failure in a row, after at most 10 transmissions a chunk |
| Binary.TranscriptAt | dev/ivshmem/services/binary/ivshmem-binary.c:248-289 | with i - 1 acknowledgements before it a packet carries chunk i; the transfer is over after the last wait and not before |
| Binary.TranscriptUnique | dev/ivshmem/services/binary/ivshmem-binary.c:248-289 | the acknowledgements determine the packets and the offset |
| Binary.TranscriptMeans | dev/ivshmem/services/binary/ivshmem-binary.c:248-289 | packets are chunks in order with repeats, at most ten for each; the offset is the length, or counts the chunks before ten failed waits in a row |
| StopAndWait.Next | dev/ivshmem/services/binary/ivshmem-binary.c:273-288 | one more wait ends a transfer exactly when it acknowledges the last item or is the tenth failure in a row |
| StopAndWait.TransferBound | dev/ivshmem/services/binary/ivshmem-binary.c:285-287 | no item is sent more than ten times |
| StopAndWait.TransferUnique | dev/ivshmem/services/binary/ivshmem-binary.c:248-289 | two transfers under the same acknowledgements are the same |
| Binary.Handler.RxConsume | dev/ivshmem/services/binary/ivshmem-binary.c:158-229 | one packet: appended when it is next, dropped when it is not, acknowledged either way |
| Binary.ConsumePanicsIff | dev/ivshmem/services/binary/ivshmem-binary.c:164-178 | a packet fails an assertion exactly when its numbers are not complements or a new reception does not start with 1; nothing is appended then |
| Binary.RepeatedEot | dev/ivshmem/services/binary/ivshmem-binary.c:170-216 | an EOT sent again after the receiver took it fails the assertion, or, when it carries number 1, is appended a second time |
| Binary.ReceivedExactly | dev/ivshmem/services/binary/ivshmem-binary.c:158-229 | after any packets a sender can emit the receiver holds the chunks up to the one last sent, cut off at chunk 255 |
| Binary.Delivery | dev/ivshmem/services/binary/ivshmem-binary.c:158-294 | up to the first EOT the receiver holds a prefix of the source and no assertion fails; at the EOT it holds all of it if and only if there are at most 255 chunks |
| Binary.ChunksBound | dev/ivshmem/services/binary/include/ivshmem-binary.h:49 | at most 255 chunks means at most 255 * CHUNK_SIZE bytes |
| Binary.ChunksExact | dev/ivshmem/services/binary/ivshmem-binary.c:248-289 | the number of chunks is the length divided by CHUNK_SIZE, rounded up |
| RxBuffer.Buffer.WriteCbuf | dev/ivshmem/services/binary/ivshmem-binary.c:142-156 | overwriting: the newest `cap` bytes of unread contents and chunk; otherwise: what fits |
| RxBuffer.BufferIsStreamEnd | dev/ivshmem/services/binary/ivshmem-binary.c:142-156 | over any run of writes and reads the buffer is the unread end of the stream |
| RxBuffer.ReadsAreSlices | dev/ivshmem/services/binary/ivshmem-binary.c:464-479 | every read returns the next slice of the stream and the reader never goes back |
| RxBuffer.WritesOnlyDropOnOverflow | dev/ivshmem/services/binary/ivshmem-binary.c:142-156 | a write drops unread bytes exactly when contents and chunk exceed the capacity, and then leaves the buffer full |
| Rpc.Service.Call | dev/ivshmem/services/rpc/ivshmem-rpc.c:78-186 | argument checks, the new transaction id, and the retry loop equal to its recursive description |
| Rpc.Await | dev/ivshmem/services/rpc/ivshmem-rpc.c:133-163 | at most six waits for any stream of replies |
| Rpc.SuccessMeans | dev/ivshmem/services/rpc/ivshmem-rpc.c:133-181 | success returns the last reply's payload, with the requested id and at most *out_len bytes, and with the current transaction id exactly when at most five waits were needed |
| Rpc.DecidedBy | dev/ivshmem/services/rpc/ivshmem-rpc.c:137-164 | exactly one wait decides a call: the sixth, or the first that brings no foreign reply |
| Rpc.Verdict | dev/ivshmem/services/rpc/ivshmem-rpc.c:137-181 | what the deciding wait makes of the call, for each status, with an empty payload unless it succeeds |
| Rpc.TimesOutIff | dev/ivshmem/services/rpc/ivshmem-rpc.c:137-140 | a call times out if and only if one of the first six waits expires and only foreign replies come before it |
| Rpc.TooLongIff | dev/ivshmem/services/rpc/ivshmem-rpc.c:149-152 | a call is refused for its length if and only if one of the first six replies is too long and only foreign replies come before it |
| Rpc.NotReadyIff | dev/ivshmem/services/rpc/ivshmem-rpc.c:166-172 | a call reports a wrong reply if and only if the reply it examines has another id |
| Rpc.InternalIff | dev/ivshmem/services/rpc/ivshmem-rpc.c:161-164 | a call ends with an internal error if and only if five foreign replies are followed by a current one that fits |
| Rpc.SizesOf | dev/ivshmem/services/rpc/include/ivshmem-rpc.h:30-39 | the sizes packed into an id come out again |
| Rpc.MatchReturned | dev/ivshmem/services/rpc/ivshmem-rpc.c:154-181 | a current reply among the first five is the one returned |
| Rpc.SixthReplyInverted | dev/ivshmem/services/rpc/ivshmem-rpc.c:154-164 | the sixth reply is refused when it is current and taken when it is foreign |
| Rpc.ForeignSuccessIff | dev/ivshmem/services/rpc/ivshmem-rpc.c:133-181 | a call succeeds with another call's reply if and only if the first six replies all are of other calls and fit, and the sixth has the requested id |
| Rpc.OwnSuccessIff | dev/ivshmem/services/rpc/ivshmem-rpc.c:133-181 | a call succeeds with its own reply if and only if one of the first five is current, fits, has the requested id and has only other calls' fitting replies before it |
| Rpc.LateReplyAccepted | dev/ivshmem/services/rpc/ivshmem-rpc.c:154-164 | six late replies to six earlier DAC calls make the seventh take the answer to the sixth |
| AsrcDma.RxDma.Start | platform/imx8/drivers/asrc/asrc.c:484-533 | period and number of descriptors clamped to the request size and to the input |
| AsrcDma.RxDma.Completed | platform/imx8/drivers/asrc/asrc.c:226-279 | bytes left, release, pause and signal of one completion, or the failed assertion |
| AsrcDma.RxDma.MoveOn | platform/imx8/drivers/asrc/asrc.c:281-291 | the descriptor of period u of a buffer becomes that of period u + N |
| AsrcDma.ClampedExactly | platform/imx8/drivers/asrc/asrc.c:492-508 | the period is the smaller of the old one and 2048; the descriptors are all that were there when they lie inside the input, and otherwise exactly as many as do |
| AsrcDma.ClampedFits | platform/imx8/drivers/asrc/asrc.c:492-513 | from 4096 bytes on there is at least one descriptor and all of them lie inside the input |
| AsrcDma.CompleteKeeps | platform/imx8/drivers/asrc/asrc.c:226-291 | each completion keeps the invariant that slot u mod N carries the offset of period u exactly while that period is inside the input |
| AsrcDma.StreamsOnce | platform/imx8/drivers/asrc/asrc.c:226-291 | for every input and period the engine completes floor(S/P) descriptors, each offset kP once and none past S; the assertion never fails; one signal, with S mod P bytes left |
| AsrcDma.TxOffsetFaithfulIff | platform/imx8/drivers/asrc/asrc.c:314-329 | output periods follow each other around the ring for ever if and only if the ring size divides 2^32 |
| AsrcRatio.SampleRateGcd | platform/imx8/drivers/asrc/asrc_hw.c:225-237 | the loop ends with the greatest common divisor |
| AsrcRatio.GcdIsGreatest | platform/imx8/drivers/asrc/asrc_hw.c:225-237 | Euclid's recursion divides both rates and is the greatest number that does |
| AsrcRatio.SetRatio | platform/imx8/drivers/asrc/asrc_hw.c:314-346 | the register pair holds floor(in * 2^f / out) of the unreduced rates, computed on 64 bits without overflow |
| AsrcRatio.RatioFits44Iff | platform/imx8/drivers/asrc/asrc_hw.c:327-340 | the ratio fits its 44-bit format if and only if in < 32, 64 or 128 times out, which at 7 integer bits all legal rates satisfy |
| AsrcRatio.FormatsAgree | platform/imx8/drivers/asrc/asrc_hw.c:845-864 | the fractional bits reported and those written agree for every tap count |
| AsrcRatio.OutSampleSizeIff | platform/imx8/drivers/asrc/asrc_hw.c:1005-1012 | the size of the least number of output samples covering the input, if and only if it fits 32 bits |

## Left out

- PipeRuns.PipeIsFifo: assumes that a send waits for a free descriptor and for room that stops short of the tail, evaluated atomically with the send; `ivshm_write` itself only arms an interrupt (see PipeGuard and PipeOverwrite). The same holds for the other members of PipeRuns.
- EndpointRuns.HaltsIff: a failed DEBUG_ASSERT stops the guest; builds in which it does nothing are not modelled.
- Binary.Delivery: speaks of the packets up to the first EOT of one transfer; what one repeated EOT does is in Binary.RepeatedEot; after that or an abandoned transfer the receiver is not resynchronised. The receive buffer is unbounded here; `RxBuffer` bounds it.
- Handshake.HelpfulHelps: a pass of the state machine can happen at any time; the counter of state changes that schedules passes is not modelled, so this is a possible step and not a promised one.
- Rpc.Service.Call: a wait is an arbitrary reply or a time-out; the overwriting of the service buffer by replies that arrive while one is being read is part of that arbitrariness.
- Endpoint.Endpoint.PktRead: the waits on the semaphore and on a short ring are results instead of blocking; in `EndpointRuns` they are steps that are not enabled yet.
- PipeQueue.RxQueue.Poll: the interplay with a sender during the loop is in `Pipe`, not in this method.
- The runs of `Pipe` cover one epoch, from initialised queues until the receiver's side leaves RUN; `Handshake` covers the change of epochs. Which pass of the thread reaches RUN is left open there, as it depends on the peer's state.
- The packet counter of the binary handler is a C `char`, taken as unsigned as on ARM.
- u32 wrap-around of the aligned frame size, which the room condition excludes, and of `period_size * n_periods`, which the driver's configuration keeps small.
- `ivshm_pipe_init` ignores a refusal of `ivshm_calc_qsize`; nothing is claimed of the layout then.
- The used-ring notification (WITH_IVSHMEM_NOTIFY_RX) and the arming of the transmit interrupt: nothing waits for either.
- A hostile or faulty peer, weaker memory orders, cache maintenance.
- Register and PCI access, interrupt registration, threads and their priorities, console commands.
- `lib/cbuf`, io vectors, semaphores, events and the SDMA driver are represented by a bounded byte sequence, a gathered byte sequence, counters, and one zero-copy callback for each released descriptor.
- The Linux branches, IVSHMEM_MONITOR and the permissive mode.
- RPC callbacks and the reply side, the command layer of the binary service, the serial and console services.
- Slot allocation, prefilter and format configuration of the ASRC, its interrupt handling and the output worker thread.
