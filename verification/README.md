# Verified models of the profiler's and its memcached's stateful components

The repository holds a low-overhead profiler: a kernel module that samples performance counters on
every CPU, scripts that turn the samples and thread traces into intervals, and a patched memcached
that is one of the profiled programs. The Dafny modules here model the components that carry state
from step to step, in the form the sources have (classes whose methods update fields, loops over
arrays and lists), and prove what those steps keep.

| module | models |
|---|---|
| `Transmit`, `ResponseQueue` | memcached's queue of responses, the iovecs it gathers from them, and the settling of partial writes, chunked items included |
| `UdpTransmit` | the same responses cut into UDP datagrams |
| `ResponsePool` | the allocator of response objects: bundles, refcounts, the doubly linked list of bundles with room |
| `ItemChunks` | append and prepend between chunk chains |
| `ConnInput` | the read buffer: compaction, growth, reads into flat and chunked items, swallowing |
| `DriveMachine` | the connection state machine and its budget of commands |
| `RingBuffer` | the per-CPU ring, as code and as an interleaving of loads and stores |
| `LogFile` | the record layout under its flags, the one log of all CPUs, and the parser that reads it back |
| `PollingBarrier` | the ready/start/done barrier between the coordinator and the polled CPUs |
| `PerformanceRecords` | the records as the merge unpacks them, and what it makes of the logger's file |
| `PerformanceMerge` | the k-way merge of the per-core logs with its running total |
| `BandwidthWindow` | the bisected window on the resulting timeline, the split of the work |
| `InvocationSamples` | the cores an invocation ran on, and their samples |
| `MutexAnalysis` | integrity checks, hold times and merged lock intervals of a thread |
| `Scheduling` | scheduling intervals from context switches, and the time a thread was not scheduled |
| `RmidTable` | monitoring ids per core: table, map and register field |
| `DiscoveryTable` | the two passes over the uncore discovery table |
| `FlameDepth` | stack depths of a flame graph's intervals |
| `ByteStrings`, `Division`, `Options`, `SetFacts`, `MapSums`, `StableSort` | shared vocabulary |

`dafny verify dfyconfig.toml` checks everything.

## Where the code does less than expected

The code is modelled as it is. Where a property one would expect fails, the exact condition under
which it holds is proved, and mostly an input on which it fails is given too.

- The total that a UDP response announces is the number of its datagrams exactly when it is not
  empty and takes at most 65535 of them: an empty one costs one datagram and announces none, and a
  larger total is cut to 65535 (`AnnouncementHonest`). The delivered ones are numbered 0, 1, 2, ...
  exactly when there are at most 65536 of them and the sends refused before each make up whole
  rounds of the 16-bit numbers (`NumberingGapless`); within 65535 attempts that is when no send was
  refused before the last delivered one (`FewAttemptsGapless`).
- The polling barrier can be passed early exactly when the poller polls itself without being among
  the selected CPUs (`BarrierHoldsExactly`, `EarlySampleExists`).
- The merge reads the logger's file with a record size of its own. It ends with an error exactly
  when the size of the file is no multiple of 56 (`ReadRecords`), and otherwise, unless it is empty,
  finds more records than were written (`LoggerFileMisread`).
- A total bandwidth is written by the first CPU with an entry at its time. It has that CPU and those
  before it as of that time, and the later ones as of before it; so it is the bandwidth at that time
  exactly when what the later ones change at that time adds up to nothing (`WrittenIsSplit`), as it
  does when they have no record there (`NothingLate`). `TieIsStale` is a pair of records where it is
  not.
- The samples of an invocation are collected once each exactly when no core with such a sample has
  two scheduling intervals of the thread that touch the invocation (`EachOnceExactly`); otherwise
  they are collected, and weighted, as often as there are such intervals
  (`CollectedAsOftenAsListed`, `ListedPerStint`, `BackOnTheCore`).
- "Total time holding at least one lock" prints the sum over the mutexes, which is that time exactly
  when two locks are never held together for any time (`LabelHoldsExactly`).
- Scheduling intervals of two threads share time on a core exactly when time passes at some point at
  which the switches so far leave more than one thread under way there (`ParseSched`,
  `OneAtATimeExactly`). Switch-outs that name the thread last switched in rule that out
  (`CoresAreSerial`), and `UnnamedSwitchOut` is a trace in which it happens.
- The id allocation bounds how many cores get an id, not how high the ids go (`IdsInRangeExactly`,
  `ContiguousInRangeExactly`); and setting the id of a core without an entry follows a null pointer
  (`SetRmidForCore` reports it).
- Depths in a flame graph: two intervals of which one starts while the other runs are on the same
  level exactly when as many intervals have gone from below the first as were stacked on it since
  (`LevelDifference`, `LevelsApartExactly`). In nested intervals with distinct starts nothing goes
  from below (`OverlappingDepths`); `SharedLevels` has a list that is not nested, and one with equal
  starts, in which two overlapping intervals share a level.
- The read buffer: a live socket gives zero bytes, which is taken for the end of the stream, exactly
  when the buffer was full on entry and may not grow (`TryReadNetwork`). The call runs out of
  memory, and loses the unread bytes, exactly when the buffer may grow and the reads fill it up to a
  doubling, one of the first four, that is not granted (`RefusedExactly`); bytes enough that are
  there at once lead to it (`BurstIsRefused`), as does a buffer that is full already
  (`FullAndRefused`). The error goes into the current response, but `drive_machine` reads only with
  none, and so follows a null pointer on the text protocol, exactly then (`DriveFromRead`).
- A copy into a chunk chain fails exactly when a request for a chunk that it makes is refused, and
  it fails with every byte copied exactly when that request came of a last byte that filled a chunk
  (`CopyFailsExactly`, `RefusedAfterLastByte`). A read into such a chain fails exactly when a
  request that it makes is refused, in the binary protocol also with every byte stored, for want of
  room for a line end (`ReadRefusedExactly`, `RefusedForLineEnd`). The branch of the chunk reader
  for a chunk that already has a successor is never taken (`ReadIntoChunkedItem`).

## Model

| member | source | states |
|---|---|---|
| `Transmit.AdvanceAllDrops` | apps/memcached-1.6.19/memcached.c:2649-2669 | writing k bytes into a response's iovecs leaves what they denote without its first k bytes |
| `Transmit.AdvanceRespDrops` | apps/memcached-1.6.19/memcached.c:2649-2669 | the same for a whole response: tosend stays the sum of the lengths, and a chunked item whose base does not move resumes at total minus length |
| `Transmit.SettleDropsExactly` | apps/memcached-1.6.19/memcached.c:2631-2679 | settling k bytes drops exactly the first k bytes of the pending stream, retires what is done, and empties the queue exactly when everything was written |
| `Transmit.SettleFinishesEmpty` | apps/memcached-1.6.19/memcached.c:2631-2679 | a settlement of zero bytes still makes progress when the front of the queue owes nothing |
| `Transmit.EventConservation` | apps/memcached-1.6.19/memcached.c:2690-2743 | one queueing or one partial write conserves: bytes sent and bytes pending are the bytes that were pending and those added |
| `Transmit.WireConservation` | apps/memcached-1.6.19/memcached.c:2690-2743 | over any run of queueing and partial writes, the wire followed by what is pending is the non-skipped responses in order |
| `Transmit.WireComplete` | apps/memcached-1.6.19/memcached.c:2690-2743 | when nothing is queued any more, the peer has every non-skipped response whole and nothing else |
| `ResponseQueue.Resp.AddIov` | apps/memcached-1.6.19/memcached.c:1022-1029 | one more piece at the end of the response's payload; tosend keeps up |
| `ResponseQueue.Resp.AddChunkedIov` | apps/memcached-1.6.19/memcached.c:1034-1038 | the first len bytes of a chunked item are appended to the payload |
| `ResponseQueue.Resp.OutString` | apps/memcached-1.6.19/memcached.c:1244-1283 | whatever the response held is dropped; it owes the text and CRLF, or nothing when replies are off, or the error line when the text does not fit the write buffer |
| `ResponseQueue.Resp.Advance` | apps/memcached-1.6.19/memcached.c:2649-2669 | the in-place loop over iovecs is the advance of the response by k bytes |
| `ResponseQueue.GatherChunks` | apps/memcached-1.6.19/memcached.c:2582-2604 | the chunk loop emits a prefix of the wanted part of the item, all of it if there is room, never an empty piece |
| `ResponseQueue.GatherChunked` | apps/memcached-1.6.19/memcached.c:2571-2612 | a chunked iovec is resumed at chunked_total minus its length, whatever the chunk boundaries |
| `ResponseQueue.GatherResp` | apps/memcached-1.6.19/memcached.c:2571-2616 | one response contributes a prefix of its payload, and the whole when slots suffice |
| `ResponseQueue.Conn.RespStart` | apps/memcached-1.6.19/memcached.c:1154-1184 | an empty response becomes the new end of the chain and, for UDP, keeps the request's id; it fails, changing nothing, exactly when there is no response object |
| `ResponseQueue.Conn.RespFinish` | apps/memcached-1.6.19/memcached.c:1211-1237 | the head leaves the chain, the rest stays |
| `ResponseQueue.Conn.TransmitPre` | apps/memcached-1.6.19/memcached.c:2562-2625 | the gathered iovecs denote a prefix of the pending stream within the slots, all of it if they suffice; none is used when every response is skipped |
| `ResponseQueue.Conn.TransmitPost` | apps/memcached-1.6.19/memcached.c:2631-2679 | the walk over the chain is the settlement of that many bytes |
| `ResponseQueue.Conn.BuildMessage` | apps/memcached-1.6.19/memcached.c:2690-2705 | the message offered is a prefix of the pending stream, and empty only if the first response owes nothing |
| `ResponseQueue.Conn.SettleWrite` | apps/memcached-1.6.19/memcached.c:2708-2724 | what the socket takes goes to the wire and off the queue |
| `ResponseQueue.Conn.Transmit` | apps/memcached-1.6.19/memcached.c:2690-2743 | one call: the peer gets exactly what the socket took of a front of the pending stream, which is all of it if the slots suffice, and that and no more is gone from the queue; complete exactly when the queue is empty, progress after every successful write, nothing changed by a refused one |
| `ResponseQueue.WholeQueueSent` | apps/memcached-1.6.19/memcached.c:2708-2724 | a socket that takes all pending bytes of a queue that fits: the peer has all of them, nothing is left, and the call says complete |
| `UdpTransmit.HeaderRoundTrip` | apps/memcached-1.6.19/memcached.c:2745-2772 | the frame header read back gives request id, number and total |
| `UdpTransmit.WireLayout` | apps/memcached-1.6.19/memcached.c:2745-2772 | a datagram byte by byte: id, number and total, high byte first, two zero bytes, the data |
| `UdpTransmit.NeededIsCeiling` | apps/memcached-1.6.19/memcached.c:2745-2772 | datagrams needed are the rounded-up quotient, and one for an empty response |
| `UdpTransmit.AnnouncementHonest` | apps/memcached-1.6.19/memcached.c:2745-2772 | the announced total is the number of datagrams exactly for a nonempty response of at most 65535 of them; it is 0 for an empty one and 65535 for a larger one |
| `UdpTransmit.DeliveredPayload` | apps/memcached-1.6.19/memcached.c:2787-2882 | whatever sends are refused, delivered datagrams are slices of at most the payload size and concatenate to a prefix of the response, to all of it once enough succeed |
| `UdpTransmit.DeliveredNumbers` | apps/memcached-1.6.19/memcached.c:2787-2882 | a datagram is numbered by its attempt |
| `UdpTransmit.UdpResponseWhole` | apps/memcached-1.6.19/memcached.c:2787-2882 | with every datagram accepted: exactly the needed datagrams, numbered from zero, whose payloads are the response |
| `UdpTransmit.NumberingGapless` | apps/memcached-1.6.19/memcached.c:2787-2882 | the delivered datagrams are numbered 0, 1, 2, ... exactly when there are at most 65536 of them and the sends refused before each make up whole rounds of the numbers |
| `UdpTransmit.FewAttemptsGapless` | apps/memcached-1.6.19/memcached.c:2787-2882 | within 65535 attempts that is exactly when no send was refused before the last delivered one |
| `UdpTransmit.BuildUdpHeader` | apps/memcached-1.6.19/memcached.c:2745-2772 | the total is fixed on first use, the number advances modulo 65536, the bytes are the header of both |
| `UdpTransmit.Clip` | apps/memcached-1.6.19/memcached.c:2827-2842 | the clipped iovecs denote the first bytes of what was gathered, up to the datagram's limit |
| `UdpTransmit.BuildDatagram` | apps/memcached-1.6.19/memcached.c:2808-2842 | the packet is the header and at most the payload size of the head response, as many bytes as fit unless it has a chunked item, and some unless nothing is left |
| `UdpTransmit.SendHead` | apps/memcached-1.6.19/memcached.c:2787-2882 | a datagram accepted whole moves the response on by exactly its payload; a refused one only uses its number |
| `UdpTransmit.RetireSkipped` | apps/memcached-1.6.19/memcached.c:2799-2807 | no response means complete; a skipped one is retired without a datagram |
| `UdpTransmit.GatherBehind` | apps/memcached-1.6.19/memcached.c:2816-2825 | behind the header lies a prefix of the head response, all of it if it is not chunked |
| `UdpTransmit.Attempt` | apps/memcached-1.6.19/memcached.c:2787-2882 | one attempt delivers exactly the datagram due and its bytes are gone, or it is refused and only uses its number; with a chunked item or without |
| `UdpTransmit.SendResponse` | apps/memcached-1.6.19/memcached.c:2787-2882 | driven to its end, the connection sends one datagram for each accepted attempt until all is sent, numbered by attempt, together a front of the response in order; without a chunked item exactly those the specification of delivery lists |
| `UdpTransmit.EnoughAttempts` | apps/memcached-1.6.19/memcached.c:2787-2882 | whatever the slices, all of the response is sent after as many accepted attempts as it has bytes, and one if it is empty |
| `ResponsePool.Thread.FindFree` | apps/memcached-1.6.19/memcached.c:1051-1059 | the search from the likeliest slot, around the bundle, finds a free one |
| `ResponsePool.Thread.RespAllocate` | apps/memcached-1.6.19/memcached.c:1045-1104 | the slot is new; a bundle is fetched only when none has room; the call fails exactly when there is neither room nor buffer |
| `ResponsePool.Thread.AllocateFromHead` | apps/memcached-1.6.19/memcached.c:1050-1077 | the head gives a slot and leaves the list when that was its last |
| `ResponsePool.Thread.AllocateNewBundle` | apps/memcached-1.6.19/memcached.c:1079-1101 | a fetched buffer becomes the open bundle |
| `ResponsePool.Thread.RespFree` | apps/memcached-1.6.19/memcached.c:1106-1152 | the slot is free, every list and count invariant holds, and the bundle is given back exactly when it is empty and not the only linked one |
| `ResponsePool.Thread.Unlink` | apps/memcached-1.6.19/memcached.c:1120-1127 | unlinking from any place keeps the list doubly linked and well formed |
| `ResponsePool.Thread.PushFront` | apps/memcached-1.6.19/memcached.c:1141-1145 | a bundle that has room again rejoins at the head |
| `ResponsePool.Thread.LinkedByPointers` | apps/memcached-1.6.19/memcached.c:1112-1138 | what the code tests, head or neighbour pointers, is membership in the list |
| `ResponsePool.LiveBundlesBounded` | apps/memcached-1.6.19/memcached.c:1045-1152 | live bundles are at most responses handed out plus one, and accounted bytes are the buffer size times the live bundles |
| `ResponsePool.HeadHasRoom` | apps/memcached-1.6.19/memcached.c:1045-1077 | no bundle is open exactly when all are full, and an open head always has a free slot |
| `ItemChunks.DoItemAllocChunk` | apps/memcached-1.6.19/memcached.c:1496-1503 | allocation as the copy loops see it: nothing, or a fresh empty chunk linked behind |
| `ItemChunks.FindRoom` | apps/memcached-1.6.19/memcached.c:1468-1476 | the walk ends at the only chunk that may have room |
| `ItemChunks.CopyFromChunks` | apps/memcached-1.6.19/memcached.c:1478-1511 | across any chunk boundaries of both chains exactly the wanted bytes are appended and every chunk stays within its size; chunks are asked for exactly when there are bytes to copy and the room is used up, and the first refusal ends the copy |
| `ItemChunks.CopyFromFlat` | apps/memcached-1.6.19/memcached.c:1512-1533 | the same from a flat source |
| `ItemChunks.CopyPart` | apps/memcached-1.6.19/memcached.c:1478-1533 | one turn of either loop: the bytes go behind what the last chunk holds, and a chunk that they fill asks for the next |
| `ItemChunks.CopyFailsExactly` | apps/memcached-1.6.19/memcached.c:1496-1526 | a copy fails exactly when a request that is made is refused; and with every byte copied exactly when at that request the room is just what was to be copied |
| `ItemChunks.RefusedAfterLastByte` | apps/memcached-1.6.19/memcached.c:1496-1526 | a chunk with room for just the bytes to copy, and no chunk to be had: every byte is copied, and the copy fails |
| `ItemChunks.StoreItemCopyChunks` | apps/memcached-1.6.19/memcached.c:1467-1535 | either way: the first len bytes of the source's value go behind the destination's, or those there was room for up to the refused request |
| `ItemChunks.CopyBothChunked` | apps/memcached-1.6.19/memcached.c:1539-1543 | first value without its line end, then the second whole |
| `ItemChunks.CopyBothFlat` | apps/memcached-1.6.19/memcached.c:1544-1547 | the same in one buffer, by overwriting the line end |
| `ItemChunks.StoreItemCopyData` | apps/memcached-1.6.19/memcached.c:1537-1561 | append gives old without CRLF then the addition, prepend the addition without CRLF then old, for flat and chunked items |
| `ItemChunks.BothGranted` | apps/memcached-1.6.19/memcached.c:1537-1561 | appending or prepending to a chunked item succeeds exactly when every chunk that either copy asks for is granted |
| `ConnInput.Socket.Read` | apps/memcached-1.6.19/memcached.c:2474-2475 | the read callback: some front of what arrived; zero means the end or that nothing was asked for |
| `ConnInput.Conn.Take` | apps/memcached-1.6.19/memcached.c:3200-3206 | bytes that leave the buffer are its first ones and the rest stays |
| `ConnInput.Conn.Compact` | apps/memcached-1.6.19/memcached.c:2444-2448 | compaction changes no unread byte |
| `ConnInput.Conn.Double` | apps/memcached-1.6.19/memcached.c:2452-2472 | doubling changes no unread byte |
| `ConnInput.Conn.TryReadNetwork` | apps/memcached-1.6.19/memcached.c:2438-2501 | new bytes, and only they, are behind the old ones; which reads are made, what they give and which doublings are asked for follow from what arrives, the room and size of the buffer and the doublings granted; what waits is dropped, and memory reported or a null pointer followed, exactly when the buffer may grow and a doubling that the reads lead to is refused; the read fails exactly when the socket does or gives zero bytes, and a live socket gives zero bytes exactly when the buffer was full on entry and may not grow |
| `ConnInput.Conn.FillBuffer` | apps/memcached-1.6.19/memcached.c:2450-2501 | the loop: doubling k of at most four is asked for exactly when the buffer may grow, those before were granted and every read so far filled it; then one more read is made unless it was refused |
| `ConnInput.RefusedExactly` | apps/memcached-1.6.19/memcached.c:2450-2472 | a doubling was refused exactly when, for some k below four, the first k are granted, the next is not, and all reads up to then fill the buffer |
| `ConnInput.BurstIsRefused` | apps/memcached-1.6.19/memcached.c:2450-2487 | enough bytes that are there at once fill the buffer up to doubling k, which is refused if it is not granted |
| `ConnInput.NreadFlat` | apps/memcached-1.6.19/memcached.c:3198-3224 | one pass: what is stored is what left the stream, leftovers first; it stops short exactly when all that was to be had without waiting is taken, and as the next read then ends |
| `ConnInput.NreadInPlace` | apps/memcached-1.6.19/memcached.c:3198-3224 | the same pass for an item that lies in the read buffer at the unread bytes: leftovers stay where they are and what the socket gives goes behind them |
| `ConnInput.TakenIsNext` | apps/memcached-1.6.19/memcached.c:3198-3224 | bytes that left a stream of which nothing else was lost are the next ones of the window and what arrived behind it |
| `ConnInput.ReadFlatItem` | apps/memcached-1.6.19/memcached.c:3183-3235 | when it completes, exactly rlbytes bytes were taken and stored; short of that, all that was to be had; in every case they are the next ones of the stream |
| `ConnInput.ReadIntoChunkedItem` | apps/memcached-1.6.19/memcached.c:2889-2966 | the chunk chain grows by exactly the bytes taken from the stream, whatever the boundaries; it pauses or ends only when all that was to be had is taken, as the next read then does; a chunk is asked for exactly when the last one is full with bytes still wanted, or took the last byte without room for the binary protocol's line end; and memory ran out exactly when a request was refused |
| `ConnInput.ReadRefusedExactly` | apps/memcached-1.6.19/memcached.c:2901-2963 | memory runs out exactly when some request that is made, by the room on entry, what was granted and how many bytes were had, is refused |
| `ConnInput.RefusedForLineEnd` | apps/memcached-1.6.19/memcached.c:2956-2964 | an item that fits, and no chunk for the binary protocol's line end: every byte is stored, and memory ran out |
| `ConnInput.IntoChunk` | apps/memcached-1.6.19/memcached.c:2909-2942 | one turn: from the buffer if anything waits there, else from the socket, what fits goes into the chunk and no more leaves the stream; nothing only if there was nothing to be had |
| `ConnInput.RoomForLineEnd` | apps/memcached-1.6.19/memcached.c:2956-2964 | the binary protocol's extra chunk has room for the line end and changes no stored byte |
| `ConnInput.Swallow` | apps/memcached-1.6.19/memcached.c:3272-3316 | exactly sbytes bytes of the stream are thrown away, or all that was to be had if that is less, and the next ones stay |
| `DriveMachine.Conn.UpdateEvent` | apps/memcached-1.6.19/memcached.c:2503-2515 | success means the wanted event is registered |
| `DriveMachine.Conn.Transmit` | apps/memcached-1.6.19/memcached.c:2690-2743 | complete exactly with nothing queued; otherwise progress, a registered write event, or closing |
| `DriveMachine.SendIsTransmit` | apps/memcached-1.6.19/memcached.c:2708-2724 | the machine's counts of responses and bytes after a send are those of the real queue after that send |
| `DriveMachine.Conn.ReportNoMemory` | apps/memcached-1.6.19/memcached.c:1297-1310 | the error goes into the current response; without one, on the text protocol, a null pointer is followed |
| `DriveMachine.Conn.PassRead` | apps/memcached-1.6.19/memcached.c:3106-3134 | nothing is queued when the network is read, so a buffer that cannot be grown always ends that way on the text protocol; otherwise data is parsed, none means waiting, and it closes exactly when there is no buffer or the read fails |
| `DriveMachine.Conn.PassParseCmd` | apps/memcached-1.6.19/memcached.c:3136-3148 | a whole command has its handler's effect and nothing else; with an incomplete one, output is flushed before waiting |
| `DriveMachine.Conn.PassNread` | apps/memcached-1.6.19/memcached.c:3183-3270 | a pass stops only waiting for input with body bytes outstanding, or shrinks them, or moves on; a finished body goes to its handler, leftovers that suffice are all that is taken, and it closes exactly when bytes are missing and the socket, or the wait for it, fails |
| `DriveMachine.Conn.FetchFlat` | apps/memcached-1.6.19/memcached.c:3198-3224 | leftovers first; the socket is asked only when they are used up |
| `DriveMachine.Conn.FetchChunked` | apps/memcached-1.6.19/memcached.c:2889-2966 | a success has read the whole body; a pause leaves some of it and no leftovers |
| `DriveMachine.Conn.PassSwallow` | apps/memcached-1.6.19/memcached.c:3272-3316 | a pass stops only waiting for input with bytes left to throw away, or shrinks them, or moves on; it closes exactly when the socket, or the wait for it, fails |
| `DriveMachine.Conn.PassWrite` | apps/memcached-1.6.19/memcached.c:3318-3365 | output is finished, shrinks, waits for a write event, or hands over to queued I/O; finished output leads to the next command unless closing was asked for, and it closes otherwise exactly when the send, or the wait for it, fails |
| `DriveMachine.Conn.PassNewCmd` | apps/memcached-1.6.19/memcached.c:3150-3181 | the only state that starts a command pays for it, and within the budget input is parsed before output is flushed before waiting; past the budget only output remains and then the call stops |
| `DriveMachine.Conn.Pass` | apps/memcached-1.6.19/memcached.c:2988-3393 | one pass in any other state stops where a connection may be parked, or comes nearer to the budgeted state; it follows a null pointer exactly when it reads on the text protocol and the buffer cannot be grown |
| `DriveMachine.DriveMachine` | apps/memcached-1.6.19/memcached.c:2968-3396 | the call returns, enters the parsing state at most reqs_per_event + 1 times and without the extra one unless it began with a read, and leaves no response waiting behind a read and the right event registered. While nothing fails and nobody asks to close, the connection stays open; while the socket takes output, none is left in a flush; input that has come is parsed, and a wait for more leaves none unless a command is incomplete; a client with enough pipelined commands gets exactly its budget. It follows a null pointer exactly when it began with a read on the text protocol that ran out of memory |
| `DriveMachine.ReadNetwork` | apps/memcached-1.6.19/memcached.c:3106-3134 | what the machine is told of a network read is what happens to the real buffer: no memory exactly when a doubling that the reads lead to is refused, and the count of unread bytes |
| `DriveMachine.DriveFromRead` | apps/memcached-1.6.19/memcached.c:3106-3134 | a call that begins with a read of the real buffer follows a null pointer exactly on the text protocol when the buffer may grow and the reads fill it up to a doubling that is not granted |
| `RingBuffer.HrperfRingBuffer.constructor` | src/buffer.c:83-97 | an empty ring of n slots |
| `RingBuffer.HrperfRingBuffer.IsFull` | src/buffer.c:79-81 | full means n - 1 entries |
| `RingBuffer.HrperfRingBuffer.Enqueue` | src/buffer.c:99-109 | the entry is appended unless n - 1 are held, then it is dropped |
| `RingBuffer.HrperfRingBuffer.LogAndClear` | src/log.c:22-60 | in one piece or two, the file grows by exactly the contents in order, and the ring is empty |
| `RingBuffer.StepInv` | src/buffer.c:99-109 | every load and store of either side keeps: log, copies under way and window make up the accepted entries |
| `RingBuffer.RunInv` | src/log.c:22-60 | so does every interleaving |
| `RingBuffer.FifoLog` | src/log.c:22-60 | from the empty ring: what is logged, then what is still to be logged of the ring, is exactly what was accepted, in order |
| `RingBuffer.NoOverwrite` | src/buffer.c:99-109 | no step changes a slot between head and tail |
| `RingBuffer.DropsOnlyWhenFull` | src/buffer.c:99-105 | an entry is dropped exactly when the ring holds n - 1 by the head that was loaded |
| `RingBuffer.DrainLogsAll` | src/log.c:22-60 | a drain begun at any reachable state, if left alone, ends with all accepted entries in the log and the ring empty |
| `RingBuffer.EnqueueAccepts` | src/buffer.c:99-109 | an enqueue begun at any reachable state, if left alone, accepts its entry unless the ring holds n - 1 |
| `LogFile.ColumnFields` | parsing/parse_hrp.py:16-32 | the parser's columns are the fields of the record for every flag combination |
| `LogFile.PackedLayout` | src/buffer.h:12-36 | where the packed record has each field, by flags: byte offsets, width, low byte first, the CPU's number in two's complement, and the record's length |
| `LogFile.ParsedColumns` | parsing/parse_hrp.py:16-37 | which column of a parsed row has which field of its record, by flags |
| `LogFile.LittleEndianRoundTrip` | parsing/parse_hrp.py:34-37 | an unsigned field read back is the field written |
| `LogFile.Int32RoundTrip` | parsing/parse_hrp.py:17 | the signed CPU number read back is the one written |
| `LogFile.FieldsRoundTrip` | src/buffer.h:12-31 | all fields of a record, in order |
| `LogFile.LogRoundTrip` | parsing/parse_hrp.py:10-41 | for every flag combination the parsed rows are the written records; a partial one at the end is ignored |
| `LogFile.SystemRunInv` | src/hrperf.c:365-382 | however the drains of different CPUs interleave, the file's records of a CPU are what its own drains copied |
| `LogFile.PerCpuLog` | src/hrperf.c:365-382 | those records are its accepted entries in order, up to the ones still in its ring |
| `LogFile.ParsedPerCpu` | parsing/parse_hrp.py:10-41 | end to end: the parsed rows of a drained CPU are its accepted entries, field by field |
| `PollingBarrier.CountMatches` | src/hrperf.c:644-654 | the computed number of polling CPUs is right exactly when a poller that polls itself is selected; otherwise it is one short |
| `PollingBarrier.CoordinatorInv` | src/hrperf.c:277-334 | every step of the coordinator keeps the barrier's invariant |
| `PollingBarrier.CpuInv` | src/hrperf.c:179-250 | so does every step of a polled CPU |
| `PollingBarrier.StepInv` | src/hrperf.c:179-334 | and so every step |
| `PollingBarrier.RunInv` | src/hrperf.c:179-334 | over all runs, with the counters equal to the CPUs that came that far |
| `PollingBarrier.NoEarlySample` | src/hrperf.c:179-250 | no CPU reads a counter before all polled CPUs are ready, and the timestamp it records is that of the round under way |
| `PollingBarrier.SampledOncePerRound` | src/hrperf.c:179-334 | every finished round was sampled exactly once by every polled CPU and nobody else, with that round's timestamp |
| `PollingBarrier.RoundCanEnd` | src/hrperf.c:179-334 | no run gets stuck: whatever has happened, the round under way can still end |
| `PollingBarrier.EarlySampleExists` | src/hrperf.c:277-334 | a poller that polls itself without being selected can sample early: a run that does |
| `PollingBarrier.BarrierHoldsExactly` | src/hrperf.c:644-654 | the barrier holds exactly in the other configurations |
| `PerformanceRecords.ReadRecords` | parsing/ldb_analysis/compute_per_core_performance.py:7-24 | every 56 bytes of the file are a record, in order, and reading ends with an error exactly when the file ends inside one |
| `PerformanceRecords.PackRoundTrip` | parsing/ldb_analysis/compute_per_core_performance.py:7-24 | a record in the script's format unpacks to itself, whatever the padding |
| `PerformanceRecords.UnpackLayout` | parsing/ldb_analysis/compute_per_core_performance.py:7-24 | where the script reads each number of a record, at which width and sign, low byte first |
| `PerformanceRecords.LogSize` | src/buffer.h:12-36 | the logger's file is as long as its records at the packed size of its flags |
| `PerformanceRecords.LoggerFileMisread` | parsing/ldb_analysis/compute_per_core_performance.py:7-24 | a logger's file that is read without an error gives more records than were written |
| `PerformanceMerge.SplitByCpu` | parsing/ldb_analysis/compute_per_core_performance.py:16-36 | each CPU's list is its records in log order |
| `PerformanceMerge.SortAll` | parsing/ldb_analysis/compute_per_core_performance.py:49-51 | each list is sorted by time, stably |
| `PerformanceMerge.HeapPop` | parsing/ldb_analysis/compute_per_core_performance.py:67-69 | the heap's contract: a least entry, by time and CPU |
| `PerformanceMerge.PopKeepsFeeding` | parsing/ldb_analysis/compute_per_core_performance.py:67-74 | a pop and the push behind it lose nothing, keep time order, and leave at most one heap entry per CPU, so records are never compared |
| `PerformanceMerge.Account` | parsing/ldb_analysis/compute_per_core_performance.py:76-161 | one record worked into the dictionaries: they say what each core's popped records alone amount to, and the total is the sum over the cores |
| `PerformanceMerge.Merge` | parsing/ldb_analysis/compute_per_core_performance.py:47-161 | all records are popped in time order, the running total after every pop is the sum of the cores' bandwidths, and the file is the timeline of the popped records |
| `PerformanceMerge.ParseLog` | parsing/ldb_analysis/compute_per_core_performance.py:5-161 | both passes over the unpacked records: the entries of each core are those of its sorted records |
| `PerformanceMerge.EachRecordOnce` | parsing/ldb_analysis/compute_per_core_performance.py:16-74 | the popped records are the log's records, each once |
| `PerformanceMerge.OnePopOrder` | parsing/ldb_analysis/compute_per_core_performance.py:67-74 | the pop order, by time and CPU, is determined by the per-core lists |
| `PerformanceMerge.TimelineGapless` | parsing/ldb_analysis/compute_per_core_performance.py:135-151 | written intervals have positive length and each starts where the one before ended |
| `PerformanceMerge.EveryTimeWritten` | parsing/ldb_analysis/compute_per_core_performance.py:135-151 | every time at which a record counted, after the first such time, ends a written interval |
| `PerformanceMerge.WrittenAt` | parsing/ldb_analysis/compute_per_core_performance.py:135-151 | each was written by the first record that counted at its end, with the total over the records popped by then |
| `PerformanceMerge.CoreIsSplit` | parsing/ldb_analysis/compute_per_core_performance.py:67-151 | when a total is written, a CPU up to the writer counts with all its records up to then, a later one with those before it |
| `PerformanceMerge.TotalIsSplit` | parsing/ldb_analysis/compute_per_core_performance.py:129-151 | and so the total written is the sum of these bandwidths over the per-core lists |
| `PerformanceMerge.WrittenIsSplit` | parsing/ldb_analysis/compute_per_core_performance.py:129-151 | in terms of the per-core lists alone: the writer is the first CPU with an entry at the end of the interval, and the written bandwidth is the one at that time exactly when the changes of the later CPUs at that time add up to zero |
| `PerformanceMerge.NothingLate` | parsing/ldb_analysis/compute_per_core_performance.py:129-151 | which holds when no later CPU has a record at that time |
| `PerformanceMerge.TieIsStale` | parsing/ldb_analysis/compute_per_core_performance.py:129-151 | two cores with equal timestamps: the written total lacks the second one's change |
| `PerformanceMerge.CountsRecovered` | parsing/ldb_analysis/compute_per_core_performance.py:93-127 | between its first and last record a core's entries account for all the time and every counted line, none twice |
| `PerformanceMerge.CountersRecovered` | parsing/ldb_analysis/compute_per_core_performance.py:97-127 | the same counter by counter: over all entries, the stall, instruction, miss and prefetch rates and the usage amount to what their own counters grew by |
| `PerformanceMerge.EntriesFollow` | parsing/ldb_analysis/compute_per_core_performance.py:93-127 | entries have positive length and follow each other without gaps |
| `PerformanceMerge.FollowInOrder` | parsing/ldb_analysis/compute_invocation_metrics.py:83-88 | so they are in the order the early exit of the later search relies on |
| `BandwidthWindow.GaplessIsOrdered` | parsing/ldb_analysis/compute_invocation_metrics.py:166-169 | a gapless timeline has sorted start and end times |
| `BandwidthWindow.BisectLeft` | parsing/ldb_analysis/compute_invocation_metrics.py:120-121 | the partition point of the end times |
| `BandwidthWindow.BisectRight` | parsing/ldb_analysis/compute_invocation_metrics.py:122 | the partition point of the start times |
| `BandwidthWindow.WindowIsEnough` | parsing/ldb_analysis/compute_invocation_metrics.py:120-134 | outside the bisected window no interval shares time with the invocation |
| `BandwidthWindow.AverageBandwidth` | parsing/ldb_analysis/compute_invocation_metrics.py:113-145 | the loop over the window gives the sums of a scan over everything, and the average they make, zero without overlap |
| `BandwidthWindow.WeightIsIntersection` | parsing/ldb_analysis/compute_invocation_metrics.py:117-139 | the total weight is the length of the invocation's part of the timeline |
| `BandwidthWindow.WeightedBounds` | parsing/ldb_analysis/compute_invocation_metrics.py:136-139 | bounds on the overlapping bandwidths bound the weighted sum |
| `BandwidthWindow.AverageIsBetween` | parsing/ldb_analysis/compute_invocation_metrics.py:141-145 | the average lies between the least and the greatest overlapping bandwidth |
| `BandwidthWindow.CutAnywhere` | parsing/ldb_analysis/compute_invocation_metrics.py:130-139 | cutting an invocation in two loses nothing and counts nothing twice |
| `BandwidthWindow.OneInterval` | parsing/ldb_analysis/compute_invocation_metrics.py:130-145 | an invocation over one interval gets that interval's bandwidth |
| `BandwidthWindow.SplitWork` | parsing/ldb_analysis/compute_invocation_metrics.py:171-183 | the chunks are the work in order, and differ in size by at most one |
| `InvocationSamples.CollectCore` | parsing/ldb_analysis/compute_invocation_metrics.py:85-102 | leaving a core's list at the first late sample misses none |
| `InvocationSamples.CollectSamples` | parsing/ldb_analysis/compute_invocation_metrics.py:66-102 | the collected samples are those inside the invocation on each core that a scheduling interval of the thread puts there, with their sums |
| `InvocationSamples.ListedExactly` | parsing/ldb_analysis/compute_invocation_metrics.py:73-78 | a core is listed exactly when the thread was on it at some moment of the invocation |
| `InvocationSamples.InsideExactly` | parsing/ldb_analysis/compute_invocation_metrics.py:86-90 | a sample is taken exactly when it was recorded in the invocation, both ends included |
| `InvocationSamples.ListedTwice` | parsing/ldb_analysis/compute_invocation_metrics.py:73-78 | a core is listed twice exactly when two scheduling intervals on it touch the invocation |
| `InvocationSamples.ListedPerStint` | parsing/ldb_analysis/compute_invocation_metrics.py:73-78 | a core is listed once for every scheduling interval on it that touches the invocation |
| `InvocationSamples.CollectedAsOftenAsListed` | parsing/ldb_analysis/compute_invocation_metrics.py:84-102 | a core's samples are collected as often as the core is listed |
| `InvocationSamples.EachOnceExactly` | parsing/ldb_analysis/compute_invocation_metrics.py:73-102 | each sample inside the invocation is collected once exactly when no core with such a sample has two scheduling intervals that touch it |
| `InvocationSamples.BackOnTheCore` | parsing/ldb_analysis/compute_invocation_metrics.py:73-102 | a thread that comes back to a core during the invocation: its sample is collected twice |
| `MutexAnalysis.ChecksAreExact` | parsing/analyze_thread.py:119-148 | an event passes the checks exactly when every mutex's waits, locks and unlocks still alternate |
| `MutexAnalysis.OpenMeansOdd` | parsing/analyze_thread.py:119-151 | a mutex is in a dictionary exactly when its next turn is the closing one |
| `MutexAnalysis.GoodPrefix` | parsing/analyze_thread.py:114-155 | alternation is prefix-closed, so stopping at the first error is right |
| `MutexAnalysis.AcceptedWhenEmpty` | parsing/analyze_thread.py:157-165 | nothing left open means both dictionaries are empty |
| `MutexAnalysis.SpansArePairs` | parsing/analyze_thread.py:125-151 | the i-th hold of a mutex runs from its i-th lock to its i-th unlock, and likewise its waits |
| `MutexAnalysis.MergedIsSettled` | parsing/analyze_thread.py:139-155 | a merged interval is under way exactly while a lock is held; merged intervals are in order and disjoint |
| `MutexAnalysis.MergedIsUnion` | parsing/analyze_thread.py:139-155 | for accepted traces in time order the merged intervals cover exactly what the holds of all mutexes cover |
| `MutexAnalysis.TotalsSoFar` | parsing/analyze_thread.py:139-169 | at every event the summed hold time is the merged time and the excess of locks held together |
| `MutexAnalysis.ReportedIsMergedPlusExcess` | parsing/analyze_thread.py:168-169 | so the reported total is at least the merged one |
| `MutexAnalysis.LabelHoldsExactly` | parsing/analyze_thread.py:184-185 | and it is the time holding at least one lock exactly when two are never held for any time |
| `MutexAnalysis.WaitsAddUp` | parsing/analyze_thread.py:128-130 | the list of waits and the lists per mutex add up to the same time |
| `MutexAnalysis.LockAnalysis.Handle` | parsing/analyze_thread.py:114-155 | one event; lock_count stays the number of mutexes held and every field what the trace amounts to; a refused one is named by its fault |
| `MutexAnalysis.LockAnalysis.StartHold` | parsing/analyze_thread.py:139-143 | the first lock opens a merged interval |
| `MutexAnalysis.LockAnalysis.EndHold` | parsing/analyze_thread.py:149-155 | the last unlock closes it |
| `MutexAnalysis.Analyze` | parsing/analyze_thread.py:103-169 | the trace is accepted exactly when, per mutex, waits and locks, locks and unlocks alternate and close; the report is what it amounts to, or names what was left open |
| `Scheduling.ThreadsAreSerial` | parsing/parse_sched.py:105-131 | in a trace in time order a thread's intervals are in order and disjoint, with at most one under way, begun after all the others |
| `Scheduling.CoresAreSerial` | parsing/parse_sched.py:105-131 | if every switch-out names the thread last switched in, the intervals of all threads on a core are in order and disjoint |
| `Scheduling.UnnamedSwitchOut` | parsing/parse_sched.py:105-131 | a trace with an unnamed switch-out in which two threads share time on one core |
| `Scheduling.OneAtATimeExactly` | parsing/parse_sched.py:105-131 | in a trace in time order no two intervals, completed or under way, share time on a core exactly when each core had at most one thread under way whenever time passed |
| `Scheduling.OneAtATimeIsNoneShared` | parsing/parse_sched.py:133-139 | with nothing left under way that is said of the completed intervals |
| `Scheduling.SchedParser.SwitchOut` | parsing/parse_sched.py:105-114 | the thread's interval under way is completed, and nothing else changes |
| `Scheduling.SchedParser.SwitchIn` | parsing/parse_sched.py:116-131 | an interval begins unless one is under way, which is warned about |
| `Scheduling.SchedParser.Handle` | parsing/parse_sched.py:99-131 | one line: known threads and their intervals are what the trace means |
| `Scheduling.SchedParser.Finish` | parsing/parse_sched.py:133-139 | intervals still under way end at the last timestamp, and the invariants survive |
| `Scheduling.ParseSched` | parsing/parse_sched.py:41-139 | the threads listed are exactly those that some switch names as the executable's, each with the intervals that lines begin and end, in order; the lists are chains; intervals of all threads share no time on a core exactly when each core had at most one thread under way whenever time passed; and they are in order on each core if every switch-out names the thread last switched in |
| `Scheduling.PidsExactly` | parsing/parse_sched.py:98-103 | a thread is taken for the executable's exactly when some switch has it under that name, going out or coming in |
| `Scheduling.TraceMeans` | parsing/parse_sched.py:105-131 | a thread is in exactly when a line switched it in, when it was known, and none has switched it out since; its interval under way began then; its completed ones run from such lines to the next that switches it out |
| `Scheduling.SpansOfTrace` | parsing/parse_sched.py:133-139 | with the one under way ended at the last timestamp, a thread's list is every interval that a line begins, in order, each to the next line that switches it out |
| `Scheduling.NowExactly` | parsing/parse_sched.py:41-53 | the last timestamp is that of the last line that can be read, a switch or not |
| `Scheduling.OfIsChain` | parsing/parse_sched.py:155-158 | what is serial per thread is a chain in that thread's list |
| `Scheduling.SpanIsTotalAndPauses` | parsing/analyze_thread.py:59-94 | the span of a chain is its scheduled time and its pauses |
| `Scheduling.AnalyzeScheduling` | parsing/analyze_thread.py:59-95 | time per core, migrations, and the rest of the lifetime as not scheduled |
| `Scheduling.ChangesAre` | parsing/analyze_thread.py:59-94 | migrations are the places at which the core differs from the one before |
| `Scheduling.NotScheduledIsPauses` | parsing/analyze_thread.py:93-95 | that rest is the sum of the pauses: never negative, zero exactly when there are none |
| `RmidTable.FieldOfSet` | include/mbm/rmid.h:24-33 | the low ten bits become the id's, all other bits stay |
| `RmidTable.BitsOfSet` | include/mbm/rmid.h:24-33 | bit by bit what masking and or-ing make of the register: ten bits from the id, the others as they were |
| `RmidTable.LookupIs` | include/mbm/counter.h:117-131 | with the table indexed by the map, a lookup finds a managed core's entry and nothing for any other |
| `RmidTable.RmidManager.GetRmidInfo` | include/mbm/counter.h:117-131 | an entry is found exactly for the managed cores; it is the core's own, in use, and holds its id |
| `RmidTable.RmidManager.GetForCore` | src/mbm/rmid.c:106-124 | the linear scan gives for every core the id the map lookup gives, no entry meaning id 0 |
| `RmidTable.RmidManager.AllocateAllCores` | src/mbm/rmid.c:39-79 | the first online CPUs get an id of their own, different in their registers; table, map and registers agree again, every other CPU is at id 0 and no other bit changed |
| `RmidTable.FieldsDiffer` | src/mbm/rmid.c:53-72 | no two managed cores have the same id in their registers |
| `RmidTable.RmidManager.DeallocateAll` | src/mbm/rmid.c:84-101 | nobody is managed and every online CPU is back at id 0 |
| `RmidTable.RmidManager.ClearAssoc` | src/mbm/rmid.c:19-34 | every online CPU's field is 0, all other bits stay |
| `RmidTable.RmidManager.SetRmidForCore` | include/mbm/rmid.h:40-45 | on a managed core table and register take the id and no other core's changes; on any other, online or not, there is no entry to follow, and a register is written only of an online one |
| `RmidTable.RmidManager.constructor` | src/mbm/rmid.c:129-147 | the cleared manager satisfies the invariant: nobody is managed and every online CPU is at id 0 |
| `RmidTable.RmidManager.Init` | src/mbm/rmid.c:129-155 | a cleared manager with its ids allocated, unless there is no memory for the table |
| `RmidTable.IdsInRangeExactly` | src/mbm/rmid.c:53-72 | allocated ids stay within the highest one exactly when the last core served has a smaller number |
| `RmidTable.ContiguousInRangeExactly` | src/mbm/rmid.c:53-72 | with contiguous CPU numbers: exactly when there are at most that many CPUs; else the last id is one too high |
| `DiscoveryTable.CountUnits` | src/uncore_pmu_discovery.c:35-55 | the first pass counts the valid units of each type |
| `DiscoveryTable.Allocate` | src/uncore_pmu_discovery.c:57-68 | counted types get room of that size, the others are left alone |
| `DiscoveryTable.FillLists` | src/uncore_pmu_discovery.c:70-94 | whatever the second pass reads, no list outgrows its room and each holds the first units of its type |
| `DiscoveryTable.PutIn` | src/uncore_pmu_discovery.c:86-92 | one unit goes to the list of its type if there is room; the others stay |
| `DiscoveryTable.ProcessSocket` | src/uncore_pmu_discovery.c:11-97 | the three steps together, failing exactly when the global entry is unreadable or a counted type gets no memory |
| `DiscoveryTable.SameTableIsComplete` | src/uncore_pmu_discovery.c:33-94 | where both passes read the same, a list is all valid units of its type in table order, as many as counted |
| `DiscoveryTable.FullExactly` | src/uncore_pmu_discovery.c:86-92 | where they differ, a list is full, or complete, exactly by comparing the two counts |
| `DiscoveryTable.UnitsAreSubsequence` | src/uncore_pmu_discovery.c:70-94 | those units are the table's entries at exactly the valid positions, rising |
| `FlameDepth.CutBefore` | parsing/draw_invocation.py:93-101 | everything before the first interval of the analysed function is dropped |
| `FlameDepth.AssignDepths` | parsing/draw_invocation.py:87-114 | a depth is the number of earlier intervals still running, and the maximum is attained |
| `FlameDepth.FlipDepths` | parsing/draw_invocation.py:167-169 | depths are turned upside down in place |
| `FlameDepth.DrawIntervals` | parsing/draw_invocation.py:87-169 | the drawn intervals are the sorted ones from the analysed function on, with levels between 0 and the maximum |
| `FlameDepth.DepthCountsEnclosing` | parsing/draw_invocation.py:103-114 | for nested intervals the depth is the number of intervals that enclose it |
| `FlameDepth.LevelDifference` | parsing/draw_invocation.py:103-114 | whatever the intervals, the depths of one and of a later one that starts while it runs differ by what was stacked on the first, less what has gone from below it |
| `FlameDepth.LevelsApartExactly` | parsing/draw_invocation.py:103-114 | such intervals are never on the same level exactly when these two never balance |
| `FlameDepth.OverlappingDepths` | parsing/draw_invocation.py:103-114 | in nested intervals one that runs when a later one starts is strictly above it |
| `FlameDepth.ParentIsOneUp` | parsing/draw_invocation.py:103-114 | levels have no gaps: some enclosing interval is exactly one level up |
| `FlameDepth.SharedLevels` | parsing/draw_invocation.py:103-114 | three intervals, of which two overlap and share a level: once without nesting, once nested with equal starts |
| `StableSort.SortIsStable` | parsing/draw_invocation.py:88 | the sort keeps the order of equal keys |
| `StableSort.SortSorts` | parsing/ldb_analysis/compute_per_core_performance.py:51 | and its result is in order |

## Left out

- The definitions memcached shares through its headers and other files (memcached.h, items.c, slabs,
  cache, LRU, the text and binary parsers, extstore, proxy, TLS, libevent) are not part of this
  model. Their constants are parameters: slots per bundle (at least 2), iovecs per response (fewer
  than IOV_MAX - 1), payload of a datagram, size of a read buffer.
- Chunk allocation, reads, writes, registration of events, command handlers and reallocation are
  arbitrary steps with a contract: a handler neither reads nor parses again, one that asks for a body
  has started its response, complete_nread does not ask for another body, and a successful read or
  write makes progress.
- `DriveMachine.DriveMachine`: counts queued responses and bytes where `ResponseQueue` and
  `ConnInput` have the bytes themselves; the listening and closed states, UDP connections and
  counters of statistics are left out.
- `ConnInput.ReadIntoChunkedItem`: conn->ritem and conn->rlbytes are passed in and returned.
- `ConnInput.NreadFlat`, `ConnInput.ReadFlatItem`: the item has memory of its own; one that lies in the
  read buffer is read by `ConnInput.NreadInPlace`.
- `ConnInput.Conn.TryReadNetwork`: bytes lost to a failed reallocation count as consumed; the text of
  the error is in `ResponseQueue`, and the error of the binary protocol is not part of this model.
- `ResponseQueue.Conn.RespFinish`: finishes the head of the chain, as the callers modelled here do;
  releasing its item is left out, and giving its slot back is in `ResponsePool.Thread.RespFree`.
- `ItemChunks.CopyFromChunks`: a source chain is only read and stands as the sequence of its chunks'
  contents, so a destination that shares chunks with its source is not covered.
- `ResponseQueue.Conn.TransmitPre`: the item behind a chunked iovec is its sequence of chunk
  contents; releasing items and the read buffer with a finished response is left out.
- `UdpTransmit.BuildDatagram`: needs room for the frame header, one more iovec than a TCP response; how
  full the datagrams of a chunked item are depends on its chunks and is left open.
- `ResponsePool.Thread.RespAllocate`: the buffer of a bundle comes from a cache that has one or not;
  the slot's own fields are in `ResponseQueue`.
- The kernel side is sequentially consistent: acquire and release order, timeouts of the barrier,
  failed or short kernel writes, and the sleeping and pausing of the threads are left out.
- Counter registers, time stamps, MMIO and inter-processor calls to CPUs that go offline are left
  out; a call on an online CPU runs at once. Locks are taken for granted.
- mbm_poll_all_cores and the reading of the monitoring counters would only add easy members.
- Timestamps are integers and rates are reals: rounding of floats, the 32-bit float in the written
  timeline, and 64-bit overflow of counters are left out.
- `PerformanceMerge.HeapPop`, `BandwidthWindow.BisectLeft`: the library's heap is a list from which a
  least entry is taken; bisection is written out.
- `PerformanceMerge.ParseLog`: takes records; `PerformanceRecords` has how they are read from a file.
- The rates of a sample other than bandwidth are summed like it and are not repeated.
- `BandwidthWindow.SplitWork`: for any number of processes; that results arrive in another order than
  they were sent is left out.
- `MutexAnalysis.Analyze`: takes the rows of the query in their order; an error ends the analysis and
  is returned instead of ending the process.
- `Scheduling.ParseSched`: takes lines already split into fields; unreadable lines and other events
  stay as such, because the last readable timestamp closes open intervals.
- `Scheduling.AnalyzeScheduling`: the query orders a thread's intervals by start only, so intervals
  of length zero may come in another order than they were recorded; times per core and the rest not
  scheduled do not depend on it, the number of migrations may.
- `RmidTable.RmidManager.SetRmidForCore`: the set of online CPUs is fixed.
- `DiscoveryTable.ProcessSocket`: what each pass reads at an entry's address is a parameter; a list
  left over from an earlier call is replaced but, as in the source, not freed.
- `FlameDepth.DrawIntervals`: positions, widths and the picture itself are left out, as are mutex and
  join events.
- Database queries, data frames, plots, network clients, the BPF programs and the benchmark
  workloads are left out: library calls, presentation, or easy members.
