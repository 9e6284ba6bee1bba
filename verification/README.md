# Verified models of libmaru, uimg and libdvbfi

This project models four pieces of the repository in Dafny and proves what they are for:

* the audio fifo of libmaru (`fifo.c`), a ring buffer with lock/unlock regions on both sides, trigger
  thresholds, notification counters and a kill flag;
* the isochronous stream engine on top of it (`libmaru.c`): the fixed-point rate accumulator, the
  zero-copy transfers, the transfer pool and the back-pressure on the event loop;
* the image packer `uimg.c`: its table-driven CRC-32, and packing and unpacking of images;
* the frame hand-over between two threads in `libdvbfi.c`, and the cutting of frames into UDP or RTP
  packets (`rtp.h`).

Run `dafny verify dfyconfig.toml`.

## How it is built

Code that changes state in place is modelled by classes and array methods. Their meaning is given by
value-level step systems, and each method is proved to take exactly the steps that its body stands for.
Whatever holds over whole runs is then proved about the step systems.

| part | files |
|---|---|
| ring arithmetic, bit operations | `ring.dfy`, `bits.dfy` |
| fifo: meaning, layout of regions, notifications, interference | `fifo_model.dfy`, `fifo_layout.dfy`, `fifo_wakeup.dfy`, `fifo_rely.dfy` |
| fifo: the class on a byte array, and the two-thread system | `fifo.dfy`, `fifo_threads.dfy` |
| stream: rate, pool, steps, runs, stalls, the class | `rate.dfy`, `pool_model.dfy`, `stream_model.dfy`, `stream_steps.dfy`, `stream_runs.dfy`, `stream_stall.dfy`, `stream.dfy` |
| CRC: bitwise, table-driven | `crc.dfy`, `crc_table.dfy` |
| images: words in memory, meaning, the methods | `words.dfy`, `uimg_model.dfy`, `uimg.dfy` |
| RTP packets, segments | `rtp.dfy`, `segments.dfy` |
| hand-over: steps, runs, interference, the class | `dvb_model.dfy`, `dvb_runs.dfy`, `dvb_rely.dfy`, `dvb.dfy` |

A fifo is described by four positions in an endless byte stream, `rb <= re <= wb <= we < rb + size`. The
indices of the implementation are these positions wrapped to the ring; the class keeps both and proves
them in step. In concurrent code the other thread is a method that may change the shared state as its rely
condition allows, with a body that does nothing, or no more than a wait asks for; that every run of the other
thread's operations meets the rely condition is proved by induction (`FifoRely`, `DvbRely`,
`StreamSteps.WriterRunsKeep`). Unlocked copies are interleaved byte by byte. How waits end and how often a
mutex is tried for are inputs.

## Assumptions

* Memory is sequentially consistent; a mutex section of the fifo is one atomic step.
* A fifo has one writing and one reading thread, a DVB context one callback thread; kill and the trigger
  setters may come from either side.
* USB completions on an endpoint arrive in submission order.
* `size_t` and `unsigned` have 32 bits, and the host is little-endian.
* Lock sizes do not exceed the reported space (`fifo.h:219`), an unlock is given a region that was handed
  out by a lock, an ack follows a notification, and a DVB frame fits into the buffer of 65535 bytes.
* Allocation succeeds, except where the text says otherwise, and an eventfd is a counter that does not
  overflow.
* One `read` or `write` call moves all the bytes it is asked for, as far as the data reaches. Linux moves
  at most 0x7ffff000 bytes in one call, so that `uimg.c:200` and `uimg.c:322` give up on partitions from
  there up to 2 GiB, which the model packs and unpacks.
* Microseconds since 1970, times nine, fit into 64 bits.
* Channels and bits of a stream are bytes, as the format check in front of setup compares them with the
  bytes of a descriptor (`libmaru.c:379-382`).

## What the proofs found

The code is modelled as it is. Where a natural expectation fails, the project gives a counterexample for
a whole family of inputs and the exact condition under which the expectation holds.

* The overlap test of the trigger setters adds in 32 bits. Of all pairs of trigger values that it accepts,
  in either order and for any buffer size, exactly those whose sum wraps around can deadlock the fifo
  (`FifoWakeup.AcceptedPairDeadlocks`), and every fifo of more than two bytes accepts such a pair
  (`FifoWakeup.WrappingPairAccepted`). Stream setup gives both triggers one value, which rules the wrap
  out (`StreamSteps.TriggerTwice`).
* In runs that only raise triggers, without wrap-around, a fifo of one byte can deadlock and a larger one
  cannot (`FifoWakeup.DeadlockOnlyWhenTiny`). Lowering a trigger on either side can lose a wake-up, whatever
  the values (`FifoWakeup.LoweringLosesWakeup`, `FifoWakeup.LoweringLosesWriter`).
* Stream setup grants streams that can halt for good: the writer has too little room to be notified, and
  nothing that the stream thread and the hardware do ever changes that. Of all granted streams exactly
  those can whose packets are all empty, or whose largest packet does not fit into the buffer beside a
  fragment (`StreamStall.StallExact`, `StreamStall.GrantedHalts`); in all others thread and hardware alone
  get a waiting writer notified, wherever they stand (`StreamStall.WriterGetsRoom`). Packets are empty for
  every multiple of 65536 Hz, where the shift in the rate setup leaves nothing, and for samples of less
  than a byte (`StreamStall.EmptyStreams`). A request of each kind: 65536 Hz, two channels, 16 bits, default
  sizes (`StreamStall.EmptyInput`), and 48000 Hz, eight channels, 32 bits, a buffer of 2048 bytes and
  fragments of 1000 (`StreamStall.BigInput`).
* `next_pow2` is usable exactly up to 2^31 and yields 0 beyond (`Bits.RoundUpUsable`).
* The shift in the rate setup loses bits exactly for sample rates of 65536 and more
  (`Rates.SpeedExact`); the accumulator itself is exact for any speed so obtained.
* With empty regions outstanding, an unlock accepts exactly the regions that only empty ones precede
  (`FifoLayout.UnlockOrderExact`); without them, exactly the oldest.
* `fifo.h:163-165` says that blocking calls on a killed fifo return errors even if there is data, and
  `fifo.h:338-340` that the count of a blocking read is then short. The code notices a kill only behind a
  transfer. A call ended by a kill is short exactly if its last transfer found less than was still wanted,
  and on a fifo dead from the start that transfer is the first, does take place, and finds at least what
  was at hand at the call (`Fifos.Fifo.BlockingWrite`, `Fifos.Fifo.BlockingRead`). A fifo can be dead with
  any number of bytes at hand and all others writable (`FifoWakeup.KilledWithBytes`), and every call for no
  more than these whose wait does not fail returns in full.
* `extract` keeps sizes in a signed `int`, so that images with a partition of 2 GiB or more cannot be
  unpacked; all others can (`UimgModel.RoundTripExact`). The size field of the header is right exactly
  for images below 4 GiB (`UimgModel.SizeFieldExact`).
* A CRC-32 detects every burst of up to four bytes, and four is the limit: of any five consecutive bytes
  some change goes unnoticed (`Crc.FiveBytesCollide`).
* If waiting on the condition variable fails, the send thread ends and the flag stays up. A frame that was
  accepted then stays unsent for good, one at most, if and only if the flag was up or a frame had passed
  its test when the wait failed (`DvbRuns.FailedWaitExact`); it can be any frame
  (`DvbRuns.FailedWaitLosesFrame`).
* The send loops end with a non-empty frame exactly for a positive segment size, and with an empty one
  exactly for one that is not negative (`Segments.LoopEnds`); the environment may set any. In a loop that
  does not end the flag stays up (`Dvb.WrapCtx.SendPass`).

## Model

| member | source | states |
|---|---|---|
| Bits.RoundsUp | packages/x86/libmaru/fifo.c:118-137 | Over all 32-bit sizes, the shift steps yield the least power of two not below the size, modulo the word |
| Bits.RoundUpUsable | packages/x86/libmaru/fifo.c:118-137 | The rounded size is at least the request if and only if the request is at most 2^31, and then less than twice as large; beyond, it is 0 |
| Bits.SmearDoubles | packages/x86/libmaru/fifo.c:123-131 | A shift step doubles the number of leading ones, whatever the number |
| Ring.MaskWraps | packages/x86/libmaru/fifo.c:195-206 | Masking with a power of two minus one wraps an index that overshoots by less than a turn |
| Ring.SlotIsModulo | packages/x86/libmaru/fifo.c:42-47 | The ring cell of a stream position is the position modulo the ring size |
| FifoLayout.RegionCovers | packages/x86/libmaru/fifo.c:296-322 | A locked region, split or not, covers exactly the cells of its stretch of the stream; the second pointer is set exactly for a non-empty second piece |
| FifoLayout.FourWaySplit | packages/x86/libmaru/fifo.c:194-206 | Locked-read, readable, locked-write and writable cells are pairwise disjoint and leave out exactly one cell |
| FifoLayout.FourWayCount | packages/x86/libmaru/fifo.c:194-206 | They are as many as the outstanding sizes and the reported avail values, which sum to the buffer size minus one |
| FifoLayout.ReadRegionsTile | packages/x86/libmaru/fifo.c:296-322 | The outstanding read regions follow one another without gap from read begin to read end |
| FifoLayout.WriteRegionsTile | packages/x86/libmaru/fifo.c:232-258 | The outstanding write regions follow one another without gap from write begin to write end |
| FifoLayout.OutstandingApart | packages/x86/libmaru/fifo.c:232-355 | No two outstanding regions share a cell, on one side or across sides, for any number of them |
| FifoLayout.UnlockOrderExact | packages/x86/libmaru/fifo.c:265-279 | The order check accepts exactly the regions that only empty regions precede; with none empty, exactly the oldest |
| FifoLayout.ReadUnlockExact | packages/x86/libmaru/fifo.c:324-355 | The same for read regions, and a rejected unlock changes nothing |
| FifoLayout.WriteUnlockExact | packages/x86/libmaru/fifo.c:260-294 | The same for write regions |
| FifoLayout.LockMovesEnd | packages/x86/libmaru/fifo.c:246-254 | The index arithmetic of a lock, in 32 bits, puts the end at the cell behind the region |
| FifoLayout.UnlockMovesBegin | packages/x86/libmaru/fifo.c:272-284 | The index arithmetic of an unlock puts the begin at the cell behind the region, and a split region passes its second check |
| FifoModel.ApplyKeeps | packages/x86/libmaru/fifo.c:194-581 | Every critical section, and every byte stored into a locked write region, keeps the order of the four positions, the sizes of the regions and the committed bytes |
| FifoModel.RunKeeps | packages/x86/libmaru/fifo.c:194-581 | Every state of every run from a new fifo has this layout, whatever is done to it |
| FifoLayout.ReachableLayout | packages/x86/libmaru/fifo.c:194-355 | In every state that a new fifo can reach, the four parts are as large as sizes and avail values say and sum to the buffer size minus one, and no two outstanding regions share a cell |
| FifoModel.StoreElsewhere | packages/x86/libmaru/fifo.c:357-379 | A byte stored into a locked write region changes no other position within a turn of the reader |
| FifoModel.CommitStored | packages/x86/libmaru/fifo.c:260-294 | Committing a region appends to the stream exactly what its cells hold |
| FifoWakeup.NoLostWakeup | packages/x86/libmaru/fifo.c:287-289 | All along any run that only raises triggers, a side with at least its trigger of bytes at hand has a positive counter, and from two bytes on the triggers sum to at most the buffer size |
| FifoWakeup.RunNeverDeadlocks | packages/x86/libmaru/fifo.c:541-581 | Such a run on two or more bytes never ends with nothing locked and neither side notified |
| FifoWakeup.AckTellsTruth | packages/x86/libmaru/fifo.c:487-529 | All along such a run, an ack leaves a positive counter exactly if the side has its trigger of bytes at hand or the fifo is dead |
| FifoWakeup.UnlockNotifies | packages/x86/libmaru/fifo.c:260-355 | A successful unlock raises the counter of the other side exactly if that side then has its trigger of bytes at hand |
| FifoWakeup.DeadlockOnlyWhenTiny | packages/x86/libmaru/fifo.c:541-581 | Some run that only raises triggers, without wrap-around, deadlocks if and only if the buffer has one byte |
| FifoWakeup.TriggerTestExact | packages/x86/libmaru/fifo.c:546-551 | A passed overlap test means that the triggers fit if and only if their sum does not wrap around 32 bits |
| FifoWakeup.WrappedTriggersDeadlock | packages/x86/libmaru/fifo.c:541-581 | Every accepted pair of triggers whose sum wraps around, set in either order, has a run that ends with nothing locked and nobody notified |
| FifoWakeup.AcceptedPairDeadlocks | packages/x86/libmaru/fifo.c:541-581 | For every buffer size and every accepted pair of triggers, in either order: some run with these triggers deadlocks if and only if their sum wraps around 32 bits |
| FifoWakeup.WrappingPairAccepted | packages/x86/libmaru/fifo.c:541-581 | Every fifo of more than two bytes accepts a pair whose sum wraps around, in either order |
| FifoWakeup.AcceptedTriggersCanDeadlock | packages/x86/libmaru/fifo.c:541-581 | So every such fifo has a run of successful trigger calls that ends in a deadlock |
| FifoWakeup.LoweringLosesWakeup | packages/x86/libmaru/fifo.c:562-581 | For every pair of values, lowering the read trigger can leave enough bytes at hand without a notification |
| FifoWakeup.LoweringLosesWriter | packages/x86/libmaru/fifo.c:541-560 | For every pair of values, lowering the write trigger can leave enough room without a notification |
| FifoWakeup.KilledWithBytes | packages/x86/libmaru/fifo.h:157-166 | A run kills a fifo with any number of bytes at hand and all others writable |
| FifoWakeup.KillIsPermanent | packages/x86/libmaru/fifo.c:487-539 | After a kill both counters stay positive in every later state of any run, and acks clear nothing |
| FifoRely.ReaderRunRely | packages/x86/libmaru/fifo.c:296-355 | Whatever the reading side does and for however long, it stores nothing, leaves write regions and committed bytes alone, and raises the writer's counter only for room or a kill |
| FifoRely.WriterRunRely | packages/x86/libmaru/fifo.c:232-294 | Whatever the writing side does, it only appends, and raises the reader's counter only for data or a kill |
| FifoThreads.StreamConserved | packages/x86/libmaru/fifo.c:214-403 | In every interleaving of one writer and one reader, byte by byte, what reads returned followed by the committed bytes in the ring is what writes wrote |
| FifoThreads.AvailStaysSafe | packages/x86/libmaru/fifo.c:357-403 | The space or data seen in the first critical section is still there in the later ones |
| FifoThreads.ThreadsNeverStuck | packages/x86/libmaru/fifo.c:357-403 | In every reachable state each thread can take its next step |
| FifoThreads.WriteGoesThrough | packages/x86/libmaru/fifo.c:357-379 | In any reachable state an idle writer alone gets a write through, and has then written as much of the data as there was room for |
| FifoThreads.ReadGoesThrough | packages/x86/libmaru/fifo.c:381-403 | The same for an idle reader, which gets as much as was asked for and at hand |
| FifoThreads.RunKeeps | packages/x86/libmaru/fifo.c:357-403 | What has been copied so far on either side agrees with the stream in every reachable state |
| Fifos.Fifo.Create | packages/x86/libmaru/fifo.c:139-180 | Null exactly for size zero; up to 2^31 an empty fifo whose size is the power of two between the request and twice the request; beyond, a ring without any cell |
| Fifos.Fifo.ReadAvail | packages/x86/libmaru/fifo.c:194-221 | The masked index difference is the number of committed bytes not locked yet |
| Fifos.Fifo.WriteAvail | packages/x86/libmaru/fifo.c:201-230 | The masked index difference is the room not locked yet, one cell always staying free |
| Fifos.Fifo.BufferedSize | packages/x86/libmaru/fifo.c:208-212 | The distance from the oldest byte of the reader to the newest of the writer |
| Fifos.Fifo.WriteLock | packages/x86/libmaru/fifo.c:232-258 | Hands out exactly the next stretch of the stream as a region and moves the end behind it |
| Fifos.Fifo.WriteUnlock | packages/x86/libmaru/fifo.c:260-294 | Succeeds exactly for the oldest region, then commits its bytes and notifies the reader if its trigger is reached; otherwise nothing changes |
| Fifos.Fifo.ReadLock | packages/x86/libmaru/fifo.c:296-322 | Hands out exactly the next committed bytes as a region |
| Fifos.Fifo.ReadUnlock | packages/x86/libmaru/fifo.c:324-355 | Succeeds exactly for the oldest region, then gives its room back and notifies the writer if its trigger is reached; otherwise nothing changes |
| Fifos.Fifo.ReadNotifyAck | packages/x86/libmaru/fifo.c:487-518 | Clears the counter exactly if the fifo lives and too little is readable; reports a dead fifo; afterwards a positive counter promises data or a kill |
| Fifos.Fifo.WriteNotifyAck | packages/x86/libmaru/fifo.c:498-529 | The same for the writer |
| Fifos.Fifo.KillNotification | packages/x86/libmaru/fifo.c:531-539 | Marks the fifo dead and raises both counters, and changes nothing else |
| Fifos.Fifo.SetWriteTrigger | packages/x86/libmaru/fifo.c:541-560 | Accepts exactly by the 32-bit overlap test, treating zero as one |
| Fifos.Fifo.SetReadTrigger | packages/x86/libmaru/fifo.c:562-581 | Accepts exactly by the 32-bit overlap test, treating zero as one |
| Fifos.Fifo.CopyRegionIn | packages/x86/libmaru/fifo.c:368-372 | The two copies put the data into the locked region, whatever the reader does meanwhile |
| Fifos.Fifo.CopyRegionOut | packages/x86/libmaru/fifo.c:392-396 | The two copies yield the locked bytes of the stream, whatever the writer does meanwhile |
| Fifos.Fifo.Write | packages/x86/libmaru/fifo.c:357-379 | Against any reader: commits exactly the prefix for which there was room when it looked, at least as much as there was room at the call, and leaves a reader with its trigger of bytes at hand notified |
| Fifos.Fifo.Read | packages/x86/libmaru/fifo.c:381-403 | Against any writer: yields exactly the prefix that was at hand when it looked, at least as much as at the call, also on a killed fifo, and leaves a writer with its trigger of room notified |
| Fifos.Fifo.BlockingWrite | packages/x86/libmaru/fifo.c:405-444 | Against any reader and for any outcomes of the waits: commits exactly the reported prefix, and terminates. It moves everything if no wait fails and nobody kills the fifo. It gives up only at the first wait that fails, or behind a transfer on a fifo that is dead, and then is short exactly if that transfer found less room than wanted. Each transfer is for all the bytes left, the first finds at least the room of the call, and each later one moves something, unless the fifo died before it. On a fifo dead from the start there is exactly one transfer |
| Fifos.Fifo.WriteAndAck | packages/x86/libmaru/fifo.c:425-435 | A transfer and its ack against any reader: moves exactly what it finds, reports a dead fifo, and else clears the counter exactly below the trigger |
| Fifos.Fifo.ReadAndAck | packages/x86/libmaru/fifo.c:467-477 | The same for reading, with the bytes behind those already in the caller's buffer |
| Fifos.Fifo.BlockingRead | packages/x86/libmaru/fifo.c:446-485 | Against any writer and for any outcomes of the waits: the same for reading, with the bytes in order in the caller's buffer |
| Rates.TotalExact | packages/x86/libmaru/libmaru.c:891-914 | From any point on, n packets carry to the byte the frames that have become due |
| Rates.StreamTotal | packages/x86/libmaru/libmaru.c:891-914 | From setup on, n packets carry mult * floor((S mod 2^16 + n * S) / 2^16) bytes |
| Rates.PacketSizes | packages/x86/libmaru/libmaru.c:891-914 | Every packet carries the whole frames of the speed, or one more |
| Rates.ChunkInStep | packages/x86/libmaru/libmaru.c:891-914 | One packet carries what has become due since the one before, and no 32-bit step overflows |
| Rates.SpeedExact | packages/x86/libmaru/libmaru.c:1274-1282 | The stored speed is the sample rate per millisecond in 16.16 if and only if the rate is below 65536 |
| Rates.SpeedWraps | packages/x86/libmaru/libmaru.c:1276-1279 | Any rate is taken as its low 16 bits |
| Rates.RatesFit | packages/x86/libmaru/libmaru.c:1274-1282 | No rate overflows the accumulator, for frames of up to 62 MB |
| Rates.DriftBound | packages/x86/libmaru/libmaru.c:891-914 | Against the sample rate, the frames sent lag by less than one frame and n / 2^16, and lead by less than one |
| PoolModel.ObtainBounded | packages/x86/libmaru/libmaru.c:807-823 | Creating only when no vacant transfer is large enough keeps at most k transfers of each capacity if fewer than k are in use |
| PoolModel.PoolSize | packages/x86/libmaru/libmaru.c:809-812 | A pool with at most k transfers of each capacity below the buffer size has at most k times the buffer size |
| StreamSteps.StepKeeps | packages/x86/libmaru/libmaru.c:699-842 | Every step of the stream thread, of the hardware and of the writing side keeps pool, back-pressure, data and rate invariants |
| StreamSteps.PayloadIsLog | packages/x86/libmaru/libmaru.c:776-800 | What the hardware reads for a filled transfer is its stretch of the stream, for a contiguous and for a copied region |
| StreamSteps.WriterRunsKeep | packages/x86/libmaru/libmaru.c:776-842 | Whatever the writing side does meanwhile, the invariants stand |
| StreamSteps.TriggerTwice | packages/x86/libmaru/libmaru.c:1255-1268 | Both trigger calls of stream setup succeed if and only if twice the trigger is below the buffer size, without any wrap-around |
| StreamRuns.BackPressure | packages/x86/libmaru/libmaru.c:699-717 | In every reachable state the count is the number of active transfers, at most four, and the descriptor is enabled if and only if it is below four |
| StreamRuns.PoolStaysSmall | packages/x86/libmaru/libmaru.c:640-697 | At most four transfers of any capacity ever exist, and at most four times the buffer size in all |
| StreamRuns.AllocationStops | packages/x86/libmaru/libmaru.c:807-823 | No run, however long, allocates more often than that |
| StreamRuns.EndToEnd | packages/x86/libmaru/libmaru.c:916-948 | The bytes of all transfers in submission order are a prefix of the bytes written, as many as the rate makes due for the packets sent |
| StreamRuns.PayloadInFlight | packages/x86/libmaru/libmaru.c:776-842 | The packet lengths of a transfer in flight sum to its region, and its memory holds its stretch of the bytes written |
| StreamRuns.PayloadStands | packages/x86/libmaru/libmaru.c:776-842 | From submission to completion the memory of a transfer does not change, whatever the writer does |
| StreamRuns.StepLeavesFlight | packages/x86/libmaru/libmaru.c:699-717 | No step but its own completion touches a transfer in flight |
| StreamRuns.CompletionUnlocks | packages/x86/libmaru/libmaru.c:708-717 | In-order completions always unlock: the region of the oldest transfer is the oldest outstanding one |
| StreamRuns.ThreadNeverStuck | packages/x86/libmaru/libmaru.c:916-958 | The stream thread can always go on, and with nothing in flight it listens for data |
| StreamStall.StallExact | packages/x86/libmaru/libmaru.c:891-958 | For every setup that the trigger calls accept: some reached state is a halt, in which the writer waits and no run of thread and hardware changes that, if and only if all packets are empty or the largest does not fit into the buffer beside a fragment |
| StreamStall.WriterGetsRoom | packages/x86/libmaru/libmaru.c:699-958 | If packets are not all empty and the largest fits beside a fragment: from every reached state in which the writer waits, thread and hardware alone reach one in which it has its trigger of room and is notified |
| StreamStall.GrantedSound | packages/x86/libmaru/libmaru.c:1230-1285 | Every request that setup grants is such a setup, with the rounded size, the stored rate, the packet limit and the fragment as both triggers |
| StreamStall.GrantedHalts | packages/x86/libmaru/libmaru.c:1230-1285 | The exact condition for a halt, for every request that setup grants |
| StreamStall.EmptyStreams | packages/x86/libmaru/libmaru.c:1274-1282 | All packets are empty for every multiple of 65536 Hz, and for samples of less than a byte |
| StreamStall.EmptyInput | packages/x86/libmaru/libmaru.c:1230-1285 | A granted request with empty packets |
| StreamStall.BigInput | packages/x86/libmaru/libmaru.c:1230-1285 | A granted request with a packet too large to fit beside a fragment |
| StreamStall.OwnKeeps | packages/x86/libmaru/libmaru.c:699-958 | Whatever thread and hardware do, they leave the writer's side alone, only make room, and notify a writer that gets enough of it |
| StreamStall.StallSpins | packages/x86/libmaru/libmaru.c:916-958 | In a halt before too large a packet the only step of thread and hardware is a wake-up that plans nothing, and the ack behind it leads back to where it began |
| StreamStall.IdleLeavesRoom | packages/x86/libmaru/libmaru.c:916-936 | A woken thread that plans no packet, with nothing locked, leaves the writer its trigger of room if the largest packet fits beside a fragment |
| StreamStall.BiggestOccurs | packages/x86/libmaru/libmaru.c:891-914 | Every stream has a packet of the largest size |
| Streams.SetupSizes | packages/x86/libmaru/libmaru.c:1234-1241 | A request of zero is 32 KiB of buffer and the largest fragment that fits into it four times; any other is taken as it is |
| Streams.SetupBytes | packages/x86/libmaru/libmaru.c:1243-1244 | Samples and milliseconds have as many whole bytes as fit into their bits, the latter modulo 2^32 |
| Streams.PacketLimitExact | packages/x86/libmaru/libmaru.c:1246-1248 | The packet limit is the least number of milliseconds that take more than a fragment, but at most 32 |
| Streams.Stream.InitStream | packages/x86/libmaru/libmaru.c:1230-1285 | Traps exactly if there is no byte per millisecond; else fails exactly if twice the fragment size does not fit below the rounded buffer size, which is 0 beyond 2^31; else leaves an empty live fifo with both triggers at the fragment size, no transfers, the packet limit of that fragment, and the rate at its start |
| Streams.Stream.StreamChunkSize | packages/x86/libmaru/libmaru.c:891-902 | The bytes of the next packet, in 32-bit arithmetic |
| Streams.Stream.StreamChunkSizeFinalize | packages/x86/libmaru/libmaru.c:904-914 | Moves the accumulator on by one packet |
| Streams.Stream.PlanPackets | packages/x86/libmaru/libmaru.c:918-936 | The planning loop takes as many due packets as allowed and covered, and no fewer |
| Streams.Stream.FindVacantTransfer | packages/x86/libmaru/libmaru.c:640-652 | The first free transfer that is large enough, or none |
| Streams.Stream.AppendTransfer | packages/x86/libmaru/libmaru.c:654-671 | Adds to the end; room grows to twice plus one exactly if full |
| Streams.Stream.CreateTransfer | packages/x86/libmaru/libmaru.c:676-697 | A fresh transfer with exactly the required room, sharing no memory |
| Streams.Stream.ObtainTransfer | packages/x86/libmaru/libmaru.c:807-823 | A vacant transfer if there is one, else a new one |
| Streams.Stream.FillTransfer | packages/x86/libmaru/libmaru.c:776-800 | Copies a split region byte by byte while the writer runs; a contiguous one is left in the ring |
| Streams.Stream.PrepareTransfer | packages/x86/libmaru/libmaru.c:807-832 | Takes a transfer into use for exactly the locked region and its packets |
| Streams.Stream.SubmitTransfer | packages/x86/libmaru/libmaru.c:834-841 | Counts the transfer and stops listening exactly at four |
| Streams.Stream.EnqueueTransfer | packages/x86/libmaru/libmaru.c:802-842 | One more transfer at the end of the queue, in use, with exactly the planned packets and the locked stretch of the stream |
| Streams.Stream.PlanTransfer | packages/x86/libmaru/libmaru.c:916-936 | From a notification to a plan of the largest allowed number of due packets that the readable bytes cover, and the rate moved on by them |
| Streams.Stream.HandleStream | packages/x86/libmaru/libmaru.c:916-958 | On a notification, with the writer running: of the bytes seen to be readable, at least those of the call, the largest allowed number of due packets goes out, in one transfer of exactly these packets from the next unread byte on, or none if not even one is covered; the notification is cleared below the trigger, and the thread is back to waiting exactly if the fifo lives |
| Streams.Stream.TransferStreamCb | packages/x86/libmaru/libmaru.c:699-717 | The completion of the oldest transfer frees it, listens again, and unlocks with success |
| Crc.RunConcat | src/uimg/uimg.c:114-129 | A message fed in pieces through a kept register gives the register of the whole |
| Crc.EightSplits | src/uimg/uimg.c:62-63 | Eight bit steps depend on the low byte only through one term and merely move the rest |
| Crc.RunInjective | src/uimg/uimg.c:62-63 | The same bytes keep different registers different |
| Crc.BurstDetected | src/uimg/uimg.c:114-129 | Two messages that differ within four consecutive bytes have different CRCs, wherever the bytes lie |
| Crc.WindowDetected | src/uimg/uimg.c:114-129 | The same for messages given as a whole |
| Crc.FiveBytesCollide | src/uimg/uimg.c:114-129 | In any message some change of any five consecutive bytes leaves the CRC as it is |
| Crc.CheckValue | src/uimg/uimg.c:114-129 | The nine ASCII digits from 1 to 9 have the published check value CBF43926 |
| CrcTable.TableRight | src/uimg/uimg.c:65-110 | All 256 entries of the table are what eight bit steps make of their index |
| CrcTable.UpdateIsByteStep | src/uimg/uimg.c:62-63 | A table lookup does the work of eight bit steps, for every register and byte |
| CrcTable.TableRunIsBitwise | src/uimg/uimg.c:114-129 | For every message and register the table loop computes the bitwise CRC |
| CrcTable.ComputeCrc32 | src/uimg/uimg.c:114-129 | Continues from a given register and leaves the new one there, or starts afresh; returns the complement |
| Words.SwapStoresBig | src/uimg/uimg.h:28-28 | A word converted by BE_TO_HOST and stored on a little-endian host lies in big-endian order |
| Words.StoreBig | src/uimg/uimg.c:228-245 | Storing a word and converting it in place leaves its big-endian bytes |
| Words.FromBigBig | src/uimg/uimg.h:28-28 | BE_TO_HOST of big-endian bytes gives the word back |
| UimgModel.PartsAreFirstUsable | src/uimg/uimg.c:163-226 | The packed partitions are the usable files in ascending device order: all of them, or the first twenty |
| UimgModel.UsableExact | src/uimg/uimg.c:187-188 | A file is packed by its size modulo 2^32, unless that is zero or 2^32 - 1, and as many of its first bytes |
| UimgModel.HeaderChecksumVerifies | src/uimg/uimg.c:247-249 | Zeroing the checksum field of a written header and recomputing gives the stored value |
| UimgModel.DataChecksumVerifies | src/uimg/uimg.c:206-236 | The stored data checksum is the CRC of everything behind the header, also of nothing |
| UimgModel.SizeFieldExact | src/uimg/uimg.c:225-235 | The size field is the image length modulo 2^32, so right if and only if the image is below 4 GiB |
| UimgModel.ConstantBytes | src/uimg/uimg.c:228-249 | Byte for byte: magic and name as texts, the two words of unknown meaning, version 3, and the number of partitions |
| UimgModel.EntriesVerify | src/uimg/uimg.c:206-209 | Of every packed partition the header holds the CRC, the size and the device number |
| UimgModel.DataDamageShows | src/uimg/uimg.c:206-211 | Damage to the data within four consecutive bytes contradicts the stored checksum |
| UimgModel.RoundTripExact | src/uimg/uimg.c:228-341 | Unpacking a packed image yields exactly its partitions if and only if each is below 2 GiB |
| UimgModel.UnpackTail | src/uimg/uimg.c:279-341 | From any slot on, unpacking yields the remaining partitions, or fails if one of them is too large |
| UimgModel.UnpackExact | src/uimg/uimg.c:263-342 | Any bytes at all: the partitions lie end to end behind the header, each with size and device of its slot; it ends well at the last slot or the first empty one, and else stops at a size that is negative or goes beyond the image |
| UimgModel.FilesRoundTrip | src/uimg/uimg.c:131-341 | For any files: unpacking the packed image gets to the end with exactly the first twenty usable ones if and only if each of those is below 2 GiB |
| UimgModel.DirectoryRoundTrip | src/uimg/uimg.c:131-341 | At most twenty non-empty files below 2 GiB come back from packing and unpacking, each under its device number |
| Uimg.AddEntry | src/uimg/uimg.c:206-209 | Enters checksum, size and device of the next partition and nothing else |
| Uimg.FillHeader | src/uimg/uimg.c:228-249 | The stores of the fixed fields and the checksum turn the tables into the complete header |
| Uimg.Generate | src/uimg/uimg.c:131-261 | The image of the first twenty usable files: header, then contents in device order |
| Uimg.Extract | src/uimg/uimg.c:263-342 | For every byte string: the partitions and the outcome that the header implies |
| Rtp.BuildExtended | packages/x86/libdvbfi/rtp.h:74-194 | A packet given sources, an extension and a marker by the setters keeps version and type, is read back as such, and has its payload behind both |
| Rtp.SetSeqnum | packages/x86/libdvbfi/rtp.h:120-124 | Writes the sequence number, high byte first, and nothing else |
| Rtp.SetTimestamp | packages/x86/libdvbfi/rtp.h:131-137 | Writes the timestamp, highest byte first, and nothing else |
| Rtp.SetSsrc | packages/x86/libdvbfi/rtp.h:144-150 | Writes the synchronization source and nothing else |
| Rtp.PacketFields | packages/x86/libdvbfi/rtp.h:64-194 | Every field of a sent packet is read back as it went in, and lies where section 5.1 of RFC 3550 puts it: version 2 without extension or sources, no marker, type 33, and the payload is the data |
| Rtp.PayloadBehindExtension | packages/x86/libdvbfi/rtp.h:160-194 | With contributing sources and an extension, the payload begins behind both |
| Segments.LoopEnds | packages/x86/libdvbfi/libdvbfi.c:692-705 | The send loops end with a non-empty frame if and only if the segment size is positive, and with an empty one if and only if it is not negative |
| Segments.CutJoins | packages/x86/libdvbfi/libdvbfi.c:687-706 | The segments of a frame join to the frame |
| Segments.CutSizes | packages/x86/libdvbfi/libdvbfi.c:687-706 | All segments but the last are full, none is larger, and the last is empty only for an empty frame |
| Segments.TicksAdvance | packages/x86/libdvbfi/libdvbfi.c:734-735 | Consecutive times are one or two ticks apart, before and after the cut to 32 bits |
| Segments.TicksRate | packages/x86/libdvbfi/libdvbfi.c:734-734 | The clock makes 90000 ticks a second, and its reading is the whole number of ticks that have passed |
| Segments.FrameSent | packages/x86/libdvbfi/libdvbfi.c:709-747 | A frame sent as RTP: payloads join to the frame, none exceeds the segment size, sequence numbers are consecutive modulo 2^16, timestamps are those of a 90 kHz clock every 12 microseconds modulo 2^32, and strictly increase before the cut |
| Segments.WireGrows | packages/x86/libdvbfi/libdvbfi.c:709-747 | A further frame, with the counter where the packets before left it, continues the run |
| Segments.DatasJoined | packages/x86/libdvbfi/libdvbfi.c:709-747 | The bytes of a run are those of its frames, joined |
| Segments.RunSent | packages/x86/libdvbfi/libdvbfi.c:709-747 | Over a whole run of frames sequence numbers count up without a gap, also when the counter wraps, and the receiver gets the frames in order |
| Segments.RunStamped | packages/x86/libdvbfi/libdvbfi.c:709-747 | Over a whole run, packet k of a frame carries segment k of it, stamped by a 90 kHz clock 12k microseconds behind the time of the frame |
| DvbModel.ProducerKeeps | packages/x86/libdvbfi/libdvbfi.c:866-884 | Every step of the callback thread keeps who may use the buffer and what is announced, sent and pending |
| DvbModel.SenderKeeps | packages/x86/libdvbfi/libdvbfi.c:845-922 | Every step of the send thread does, including spurious wake-ups, failed waits and the flag lowered without the mutex |
| DvbRuns.BufferStands | packages/x86/libdvbfi/libdvbfi.c:866-884 | In every interleaving, nobody changes buffer or length while the sender uses them |
| DvbRuns.SentAsAccepted | packages/x86/libdvbfi/libdvbfi.c:892-922 | Every accepted frame is sent once, unmodified and in order; at most one is outstanding, or unsent for good after a failed wait |
| DvbRuns.NoLostWakeup | packages/x86/libdvbfi/libdvbfi.c:851-881 | If the flag is up while the sender sleeps, the next step of the producer is the signal that wakes it |
| DvbRuns.PendingAdvances | packages/x86/libdvbfi/libdvbfi.c:845-922 | Some thread can always go on with an announced frame, and every effective step brings it nearer to being sent |
| DvbRuns.PendingIsSent | packages/x86/libdvbfi/libdvbfi.c:845-922 | An announced frame is sent within a bounded number of effective steps |
| DvbRuns.LostForGood | packages/x86/libdvbfi/libdvbfi.c:853-858 | After a failed wait nothing is sent any more and every frame offered is dropped |
| DvbRuns.WaitFailsLoses | packages/x86/libdvbfi/libdvbfi.c:853-858 | When a wait fails, nothing is lost exactly if the flag is down and no frame has passed its test |
| DvbRuns.LossExact | packages/x86/libdvbfi/libdvbfi.c:845-922 | In the end every accepted frame has been sent exactly if every frame let in had been sent when the sender was lost |
| DvbRuns.FailedWaitExact | packages/x86/libdvbfi/libdvbfi.c:845-922 | After a failed wait a frame stays unsent for good, and then just one, if and only if the flag was up or a frame had passed its test before |
| DvbRuns.FailedWaitLosesFrame | packages/x86/libdvbfi/libdvbfi.c:853-884 | Any frame can be accepted and never sent, by a run in which the wait fails |
| DvbRely.SenderRunRely | packages/x86/libdvbfi/libdvbfi.c:892-922 | Whatever the sender does, the producer finds buffer and length as it left them |
| DvbRely.ProducerRunRely | packages/x86/libdvbfi/libdvbfi.c:866-884 | Whatever the producer does, the sender finds the buffer unchanged while it uses it, and the flag up |
| Dvb.WrapCtx.WrTrigger | packages/x86/libdvbfi/libdvbfi.c:866-884 | Against any sender: drops the frame and touches nothing exactly if its test finds the flag up, which with a flag down at the call happens only if the sender has given up; else announces exactly this frame |
| Dvb.WrapCtx.WrWait | packages/x86/libdvbfi/libdvbfi.c:845-864 | Against any producer: returns with the flag up and ready to send, or with an error only if a wait failed, and then for good; without a return all waits went well with the flag still down, or the producer kept the mutex; a flag up at the call is always found |
| Dvb.WrapCtx.ReadSegment | packages/x86/libdvbfi/libdvbfi.c:695-704 | The bytes sent are those of the buffer at the time of the call, whatever the producer does |
| Dvb.WrapCtx.UdpSend | packages/x86/libdvbfi/libdvbfi.c:687-706 | For any segment size: ends exactly if the loop does, and then has sent the segments of the frame in the buffer |
| Dvb.WrapCtx.RtpSend | packages/x86/libdvbfi/libdvbfi.c:709-747 | For any segment size: ends exactly if the loop does, and then has sent them as numbered and stamped packets and moved the counter on by their number |
| Dvb.WrapCtx.SendPass | packages/x86/libdvbfi/libdvbfi.c:896-919 | One round sends exactly the one announced frame, the configured way, and gives the buffer back, unless the loop does not end; then the flag stays up. For the original client alone nothing goes on the wire |
| Dvb.WrapCtx.SendThread | packages/x86/libdvbfi/libdvbfi.c:892-922 | Over any rounds, each with its own way of forwarding, against any producer: on the wire is exactly what the sent frames put there, in order, and they are the first of the accepted ones; with RTP alone numbered without a gap and joined by a receiver to exactly their bytes, with plain datagrams alone joining to them. A round stays unfinished only if a wait fails, none of its waits finds the flag up, the producer keeps the mutex, or the send loop does not end |
| Dvb.RtpOutput | packages/x86/libdvbfi/libdvbfi.c:892-922 | With RTP alone, rounds put on the wire the run of packets of all frames, with one counter |
| Dvb.PlainOutput | packages/x86/libdvbfi/libdvbfi.c:892-922 | With plain datagrams alone, what rounds put on the wire joins to the frames, and the packet counter stands |
| Dvb.ClientOutput | packages/x86/libdvbfi/libdvbfi.c:901-903 | With the original client alone, rounds put nothing on the wire and the packet counter stands |

## Left out

- Fifos.Fifo.constructor: of a fifo of more than 2^31 bytes only the empty ring that `next_pow2` makes of it is stated; what calls on it do is not modelled.
- Fifos.Fifo.ReaderRuns: stands for the other thread by its rely condition, not by its code; the runs behind it are those of `FifoRely.ReaderRunRely`. The same goes for `WriterRuns` and both polls, and for `SenderRuns` and `ProducerRuns` of `Dvb.WrapCtx`.
- Fifos.Fifo.PollWritable: the outcome of each wait is an input, and a wait that does not fail is taken to end with a notification; the error codes of `poll` are one outcome, a failed wait.
- Fifos.Fifo.Create: failures of allocation, `eventfd` and mutex creation are not modelled.
- Streams.Stream.HandleStream: ends at the failed ack on a killed fifo; the teardown that follows there, `free_transfers_stream` and the reply on `sync_fd`, is not modelled.
- Streams.Stream.EnqueueTransfer: a failing allocation or submission, after which the program exits, is not modelled.
- Streams.Stream.TransferStreamCb: covers completions outside stream close; the user callback and the messages about short packets are not modelled.
- Streams.Stream.PrepareTransfer: the pointers from a transfer back to its stream and context are not modelled, and the region is stored before the copies instead of behind them, which no other step observes.
- Streams.Stream.InitStream: format checks, device requests, the feedback endpoint and the timer are not modelled; for a ring without cells the refusal of the triggers is stated as the outcome, as no call on such a ring is modelled.
- StreamStall.StallExact: covers streams as setup leaves them, without feedback, and a writer that waits for its notifications.
- Uimg.Generate: file names, and the choice between a name with and without content suffix, are one map from device numbers to contents; each header word is converted right after its store.
- Uimg.Extract: output names and the messages are not modelled; a size with the sign bit set fails, as no memory of that size can be had.
- Dvb.WrapCtx.WrWait: observes a given number of waits and attempts to take the mutex, because a wait need not end; `returned` tells whether it did.
- Dvb.WrapCtx.WrTrigger: a frame of more than 65535 bytes, which the code copies past its buffer, is not modelled.
- Dvb.WrapCtx.UdpSend: what a loop that does not end puts on the wire is not modelled; nor for `RtpSend`.
- Dvb.WrapCtx.SendPass: errors of `sendto` and `writev` are ignored as in the code, and the original client is assumed to only read the buffer.
- Stream close and teardown, where the descriptor is enabled again regardless of the count.
- Feedback transfers, which share the list but not the count; a change of speed is a fresh start of the accumulator.
- The calls of libusb, epoll, eventfd and pthread themselves: a counter, an enabled flag, an atomic step, and completions as steps of the environment.
- USB enumeration, control requests, volume and the latency estimator of `libmaru.c`.
- `rtp_send2`, which is not called, the wrapped `di_*` calls, the environment parsing and the sockets of `libdvbfi.c`.
- The switch tools, counters and audio daemons of the repository: register access, text scraping and plumbing around other libraries.
