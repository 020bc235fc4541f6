# Verified models of the driver cores

A Dafny 4.11 project about the parts of this repository whose correctness rests on an argument
rather than on a register map: the ESP-IDF application-trace transport and its ring buffer, the
C++ static-initialisation guards, the I2C master engine, the CAN transmit path, OTA slot selection
and OTA writing, the console tokenizer, the `idf.py` action scheduler, Bluetooth memory release,
LEDC fades, and the NMEA speed path with its acceleration timers. `dafny verify dfyconfig.toml`
checks all of it.

Each component is one or two modules:

| file | component |
|---|---|
| `RingBuffer.dfy` | contiguous-allocation ring buffer with a movable wrap point |
| `TraceSpec.dfy`, `TraceMoves.dfy` | two-block trace transport: the protocol on whole user blocks, and the elementary moves its events are made of |
| `TraceRequests.dfy`, `TraceSlots.dfy`, `TraceDownlink.dfy` | when requests are granted and flushes succeed, the slots the transport needs, messages from the host |
| `TraceBuffer.dfy`, `TraceFraming.dfy` | the byte-level code that refines the protocol, and the block headers |
| `CxxGuards.dfy`, `CxxProgress.dfy` | One-time Construction API (section 3.3.3 of the Itanium C++ ABI) under every interleaving, and why it ends |
| `I2cMaster.dfy`, `I2cCmdLink.dfy` | interrupt-driven replay of a command list; building the list |
| `CanTx.dfy` | counter, flag and queue shared by transmitting tasks and the interrupt handler |
| `OtaSelect.dfy` | boot-slot selection under power loss |
| `Crc32.dfy`, `CrcRemainder.dfy`, `CrcCheck.dfy` | the CRC of its records, as a polynomial remainder and for number 1 |
| `LittleEndian.dfy` | bytes, their bits and little-endian words |
| `OtaWrite.dfy` | 16-byte re-blocking of an OTA image |
| `SplitArgv.dfy`, `SplitGrammar.dfy` | in-place command line tokenizer; what it makes of any line |
| `Scheduler.dfy` | dependency-ordered action scheduler |
| `BtMem.dfy` | release of tagged memory regions to the heap |
| `LedcFade.dfy` | fade programming in at most 1023 steps at a time |
| `Nmea.dfy`, `NmeaErrors.dfy`, `Triggers.dfy` | fixed-point scan, rescale, speed conversion; fields that are no numbers; timers for 40/60/80/100 km/h |
| `Options.dfy`, `Arithmetic.dfy`, `Sequences.dfy` | shared helpers |

The shape is the same throughout. Code that changes state step by step is a class (or a method on
an array) whose methods are written like the source and proved equal to a function on values; the
theorems about whole runs are lemmas about those functions. Unsigned wrap-around, field widths and
undefined signed overflow are written out where the source meets them. Hosts, hardware, interrupts,
other tasks and power loss are explicit environment steps or parameters.

Where the code does not have a property that its documentation or name suggests, the model keeps the
code and states the exact condition:

- the ring buffer appends contiguously if and only if `wr + size` does not wrap in 32 bits (or the
  free space lies between the indices), and removes correctly if and only if `rd + size` does not;
- the assertion on a free slot for a chunk size fails in some run if and only if the size of the pending
  ring exceeds the least size of one more chunk than there are slots. With the arrays the source
  allocates for `m` bytes of pending data, `m` above one block of 16384 bytes, this is so for every
  `m` from 2 * 16384 + 6 on but the three from 3 * 16384;
- selecting the factory partition erases two sectors one after the other; it is not atomic if and only
  if the newer record is in the first sector and the older one in the second selects another slot; a
  concrete flash content is given;
- the search for the next OTA sequence number succeeds if and only if a 32-bit number that selects the
  slot and is not below the present maximum exists; otherwise, with a power of two of slots, it never
  ends (four slots, maximum 0xFFFFFFFE, first slot wanted);
- a stop or recovery of the CAN driver keeps the counts right if and only if no task is between its
  queue send and its recount; a run that stops the driver at that moment is given;
- the C++ guards share one semaphore, so a token meant for one waiter can be used up by a task that
  waits for another guard: three tasks, one of them needing a second guard inside an initialiser,
  can end with a task blocked on a guard that is ready and owned by nobody. Busy tasks are stuck if
  and only if the mutex is free, no token is left and all of them are blocked on the semaphore, and
  then some pending guard belongs to a task that is itself blocked;
- the bus trace of an I2C list is the one its commands denote if and only if every READ directly
  after a START needs more than one segment or ends the list; otherwise the STARTs loaded before
  that READ are repeated in the next segment (START, a one-byte READ and STOP put two STARTs on the
  bus), and the repeated trace is what is proved for every list;
- an I2C transfer is reported as complete if and only if its list is empty or has a READ or WRITE: the
  handler ignores the interrupt of a STOP while nothing else has been loaded, so START and STOP alone
  appear on the bus and the task times out;
- a fade given by time reaches its target unless it has from 2 to `d` timer cycles, `d` being the
  distance, and `d / cycles` is a multiple of 1024, because the scale is cut to ten bits; on a
  13-bit timer at 1 kHz a fade from 0 to 4096 in 4 ms stays at 0 for ever;
- the time given for a fade is called a maximum. With more timer cycles than duty steps the fade keeps
  to it; with fewer it may take up to twice as long, and keeps to it if and only if the distance from
  the adjusted start is no more than `cycles` whole steps (7 steps in 4 cycles take 7);
- frames are handed to the CAN hardware only while the driver is started, not recovering and not
  listen-only, but bus-off alone does not stop it: if and only if the interrupt of the frame in the
  buffer is still to come and more frames are counted, that interrupt hands over the next one;
- the scale of a scanned number overflows if and only if ten fraction digits fit 32 bits, as those of
  0.0000000000 do, and the conversion wraps if and only if the speed exceeds 2319.096 knots;
- a sign behind the decimal point of a scanned number is accepted and taken as one in front of it;
- the comment on `minmea_rescale` says it rounds toward zero; the code rounds to the nearest value,
  halves away from zero. With quotient `q` of the scales it rounds toward zero if and only if
  `|value| mod q + q / 2 < q` and the rounding addition fits 32 bits; 15 at scale 10 becomes 2 at
  scale 1;
- releasing the Bluetooth modes one after the other, in either order, never gives up the controller's
  own bss and data.

## Model

| member | source | states |
|---|---|---|
| `RingBuffer.ProduceRefinesFifo` | esp-idf/components/app_trace/app_trace_util.c:96-136 | a successful produce returns contiguous storage that misses every live byte and, whatever is written there, appends it to the queue; this holds exactly when the index sum does not wrap or is not used |
| `RingBuffer.ProduceFindsPlace` | esp-idf/components/app_trace/app_trace_util.c:96-136 | without 32-bit wrap a produce succeeds if and only if there is a place in the storage, behind the newest element or, wrapping early, at the start, that holds no live element and does not reach the oldest one |
| `RingBuffer.ConsumeRefinesFifo` | esp-idf/components/app_trace/app_trace_util.c:138-162 | consume succeeds exactly up to the readable size, returns the oldest bytes and leaves the rest, across the shrunken wrap point; exactly when `rd + size` does not wrap |
| `RingBuffer.EmptyIffIndicesMeet` | esp-idf/components/app_trace/app_trace_util.c:164-175 | the queue is empty exactly when the indices meet, and the readable size is zero only then |
| `RingBuffer.TwoPiecesDrain` | esp-idf/components/app_trace/app_trace_util.c:138-175 | taking everything readable in one piece leaves a ring whose whole contents is readable, so two consumes drain any ring |
| `RingBuffer.WriteSizeIsAvailable` | esp-idf/components/app_trace/app_trace_util.c:177-191 | on an unshrunk ring the reported free size is the longest piece that has a place behind the newest element, and every request up to it is granted there without shrinking the ring |
| `RingBuffer.NoRoomMeansFull` | esp-idf/components/app_trace/app_trace_util.c:177-191 | a reported free size of zero means the ring holds all it can |
| `RingBuffer.Ring.constructor` | esp-idf/components/app_trace/include/esp_app_trace_util.h:117-123 | a fresh ring is an empty queue over its storage |
| `RingBuffer.Ring.ProduceBytes` | esp-idf/components/app_trace/app_trace_util.c:96-136 | the field updates of produce do what the layout function says |
| `RingBuffer.Ring.ConsumeBytes` | esp-idf/components/app_trace/app_trace_util.c:138-162 | the field updates of consume do what the layout function says |
| `RingBuffer.Ring.Append` | esp-idf/components/app_trace/app_trace_util.c:96-136 | produce followed by filling the chunk appends exactly those elements to the queue if there is a place, and else changes nothing |
| `RingBuffer.Ring.Take` | esp-idf/components/app_trace/app_trace_util.c:138-162 | consume hands out exactly the front of the queue |
| `RingBuffer.DownBufferWrite` | esp-idf/components/app_trace/app_trace.c:631-657 | exactly the first min(n, size - 1 - used) host bytes are queued in order, in pieces; the null-pointer assertion cannot fail and the ring never shrinks |
| `TraceSpec.DrainTakesAll` | esp-idf/components/app_trace/app_trace.c:530-555 | the copy loop moves exactly the requested number of pending bytes however they wrap |
| `TraceSpec.NextChunkLeads` | esp-idf/components/app_trace/app_trace.c:455-469 | the chunk-size queue always names the length of a whole number of user blocks at the front of the pending ring |
| `TraceSpec.SwitchedStream` | esp-idf/components/app_trace/app_trace.c:473-569 | a switch moves data between the parts of the transport and loses, adds or reorders nothing |
| `TraceSpec.SwitchedInv` | esp-idf/components/app_trace/app_trace.c:473-569 | a switch keeps chunk sizes summing to the pending bytes and every chunk within one trace block |
| `TraceSpec.Switch` | esp-idf/components/app_trace/app_trace.c:473-569 | a switch is refused exactly while the exposed block is unacknowledged; otherwise the current block is exposed, one chunk is moved, and the flush measure drops |
| `TraceSpec.WaitSwitch` | esp-idf/components/app_trace/app_trace.c:571-582 | polling preserves the stream whatever the host does meanwhile; on timeout nothing was switched |
| `TraceSpec.WaitFailsIffHostNeverAcks` | esp-idf/components/app_trace/app_trace.c:571-582 | the wait fails exactly when the block is unacknowledged and the host never acknowledges |
| `TraceSpec.AddPending` | esp-idf/components/app_trace/app_trace.c:435-453 | an allocated pending block extends the stream; the slot assertion fails exactly when a new chunk is needed and all slots are taken |
| `TraceSpec.WaitForBuf` | esp-idf/components/app_trace/app_trace.c:667-704 | after a wait the block goes behind everything pending, never before it |
| `TraceSpec.GetBuffer` | esp-idf/components/app_trace/app_trace.c:706-794 | a granted block is appended to the stream on every path; a refusal leaves the stream alone |
| `TraceSpec.Flush` | esp-idf/components/app_trace/app_trace.c:813-832 | flush terminates, preserves the stream, and on success with minimum 0 leaves both the current block and the pending ring empty |
| `TraceSpec.FlushSucceedsWithAcks` | esp-idf/components/app_trace/app_trace.c:813-832 | as many acknowledgements as there are chunks and non-empty blocks suffice for a flush |
| `TraceSpec.StepKeeps` | esp-idf/components/app_trace/app_trace.c:473-832 | every event keeps the invariant and adds to the stream exactly what it granted |
| `TraceSpec.Run` | esp-idf/components/app_trace/app_trace.c:473-832 | over every run that does not stop at the slot assertion the stream grows by exactly the granted blocks, in order |
| `TraceSpec.RunFromInit` | esp-idf/components/app_trace/app_trace.c:473-832 | read, then exposed, then current, then pending blocks equal all granted blocks in allocation order |
| `TraceSpec.GrantedWhenCaughtUp` | esp-idf/components/app_trace/app_trace.c:706-794 | a request is never refused while nothing is pending and the host has caught up |
| `TraceMoves.WaitMoves` | esp-idf/components/app_trace/app_trace.c:571-582 | a wait is made of acknowledgements and at most one switch, and uses up the host's acknowledgements one by one |
| `TraceMoves.StepMoves` | esp-idf/components/app_trace/app_trace.c:473-832 | every event is a sequence of switches, acknowledgements and single blocks put into place |
| `TraceRequests.RefusedIff` | esp-idf/components/app_trace/app_trace.c:667-794 | a request is refused exactly when there is no room and the host never acknowledges, or none after the switch either; with room it does not wait |
| `TraceRequests.RequestShows` | esp-idf/components/app_trace/app_trace.c:706-725 | with data pending and the host caught up, a request shows the host the current block at once |
| `TraceRequests.FlushIs` | esp-idf/components/app_trace/app_trace.c:813-832 | a flush below its minimum does nothing; another one succeeds exactly if the host acknowledges once for every switch, and leaves nothing |
| `TraceDownlink.MoveKeepsDelivered` | esp-idf/components/app_trace/app_trace.c:506-522 | a switch puts the parked message into the down buffer as far as it fits, and no move loses or invents one |
| `TraceDownlink.StepSends` | esp-idf/components/app_trace/app_trace.c:473-832 | the messages of an event are the first of the host's acknowledgements during it, and the acknowledgement of a non-empty block parks exactly its message |
| `TraceDownlink.MessagesArrive` | esp-idf/components/app_trace/app_trace.c:506-657 | over every run all messages have arrived in order, the last one perhaps still parked, while together they fit; else a prefix of each, and none is cut while there is room |
| `TraceDownlink.MessagesInMemory` | esp-idf/components/app_trace/app_trace.c:506-657 | the same for the ring of the down buffer in memory |
| `TraceSlots.PairedDemand` | esp-idf/components/app_trace/app_trace.c:435-453 | chunks closed one after the other exceed a block in pairs, which bounds their number by the pending bytes |
| `TraceSlots.StepPacked` | esp-idf/components/app_trace/app_trace.c:435-832 | every event keeps that, and none fails the slot assertion when the slots hold all chunks that fit |
| `TraceSlots.FailingRunFails` | esp-idf/components/app_trace/app_trace.c:435-453 | with fewer slots a run from the initial state, the host silent and the block sizes alternating, fails the assertion |
| `TraceSlots.SlotAssertIff` | esp-idf/components/app_trace/app_trace.c:435-832 | some run fails the slot assertion if and only if the size of the pending ring exceeds the least size of one more chunk than there are slots |
| `TraceSlots.SourceSlotsIff` | esp-idf/components/app_trace/app_trace.c:299-312 | the same for the arrays of the source: exactly the configured sizes for which the assertion can fail |
| `TraceSlots.EnoughSlots` | esp-idf/components/app_trace/app_trace.c:309 | two slots for every block of pending data and two more always suffice |
| `TraceBuffer.SwitchImageIsImage` | esp-idf/components/app_trace/app_trace.c:473-569 | the byte-level switch of memory, markers and rings denotes the block-level switch |
| `TraceBuffer.PendInNewChunkImage` | esp-idf/components/app_trace/app_trace.c:435-453 | closing a chunk in the size ring denotes closing it in the block-level state |
| `TraceBuffer.CopyPending` | esp-idf/components/app_trace/app_trace.c:530-555 | the loop copies the oldest pending bytes to the block start, in up to two pieces, and sets the marker to their number |
| `TraceBuffer.Trax.BlockSwitch` | esp-idf/components/app_trace/app_trace.c:473-569 | the in-place switch does what the protocol says; markers, control register, both blocks and all rings agree with it; an unacknowledged block is not written |
| `TraceBuffer.Trax.BlockSwitchWait` | esp-idf/components/app_trace/app_trace.c:571-582 | the polling loop does what the protocol says, for any moves of the host |
| `TraceBuffer.Trax.ChunkUpdate` | esp-idf/components/app_trace/app_trace.c:435-453 | chunk accounting in the size ring, with the assertion reported |
| `TraceBuffer.Trax.Write` | esp-idf/components/app_trace/app_trace.c:706-811 | allocating, filling and putting a user block in memory refines the protocol step |
| `TraceBuffer.Trax.FlushBlocks` | esp-idf/components/app_trace/app_trace.c:813-832 | the flush loop terminates and refines the protocol flush |
| `TraceBuffer.Trax.HostReads` | esp-idf/components/app_trace/app_trace.c:488-500 | the bytes the host reads are exactly the exposed blocks, and its acknowledgement releases them |
| `TraceBuffer.Trax.Happens` | esp-idf/components/app_trace/app_trace.c:473-832 | any one event in memory is the step of the protocol, failing the slot assertion exactly when the protocol does |
| `TraceBuffer.Trax.RunEvents` | esp-idf/components/app_trace/app_trace.c:473-832 | a whole run in memory ends in the state of the protocol run and grants the same blocks |
| `TraceFraming.BlockParses` | esp-idf/components/app_trace/app_trace.c:659-664 | the header gives core and length back; an allocated but unfinished block shows a written size of 0 |
| `TraceFraming.HeaderBytes` | esp-idf/components/app_trace/app_trace.c:659-664 | the four header bytes, low byte first, with the core in the top bit |
| `TraceFraming.StreamParses` | esp-idf/components/app_trace/app_trace.c:659-664 | the bytes of any sequence of put blocks decode to the users' data (round trip) |
| `TraceFraming.HostDecodesPrefix` | esp-idf/components/app_trace/app_trace.c:473-832 | over any run the host decodes a prefix of the granted user data from what it has read |
| `TraceFraming.HostDecodesMemory` | esp-idf/components/app_trace/app_trace.c:473-832 | after any run of a fresh transport the bytes the host has copied out of the two memory blocks decode to a prefix of the granted user data |
| `CxxGuards.StepKeepsInv` | esp-idf/components/cxx/cxx_guards.cpp:74-212 | every step of every task keeps mutual exclusion, the exact waiting count and the token bound, and passes the assertions of the source |
| `CxxGuards.ReadySetOnce` | esp-idf/components/cxx/cxx_guards.cpp:175-193 | a ready guard never becomes unready, and release always finds it not ready |
| `CxxGuards.StepKeepsCounts` | esp-idf/components/cxx/cxx_guards.cpp:74-118 | the waiting count equals the number of waiting tasks, and with no guard pending tokens given or due cover all blocked tasks |
| `CxxGuards.StepKeepsTokens` | esp-idf/components/cxx/cxx_guards.cpp:74-118 | the semaphore stays within its limit, and every give below it adds one token |
| `CxxGuards.StepKeepsOwners` | esp-idf/components/cxx/cxx_guards.cpp:120-212 | a guard is pending exactly while one task, and only one, has won it and not ended it |
| `CxxGuards.OneTimeConstruction` | esp-idf/components/cxx/cxx_guards.cpp:74-212 | over every interleaving at most one task initialises a guard, a ready guard is never initialised again, a task told 0 finds it ready, and while no guard is pending and no signal is due there is a token for every blocked task |
| `CxxGuards.MovesIff` | esp-idf/components/cxx/cxx_guards.cpp:74-212 | some busy task can move if and only if the mutex is taken, a token is left or some busy task is not blocked on the semaphore |
| `CxxGuards.StuckOwnerWaits` | esp-idf/components/cxx/cxx_guards.cpp:74-212 | when no busy task can move, the initialiser of some pending guard is itself blocked on the semaphore |
| `CxxGuards.NoDeadlock` | esp-idf/components/cxx/cxx_guards.cpp:74-212 | hence some busy task can always move while no task waits for a guard in the middle of initialising another one |
| `CxxGuards.StealingRunStrands` | esp-idf/components/cxx/cxx_guards.cpp:74-118 | for any three tasks and two guards, a run of 33 steps in which a waiter for one guard uses up both tokens given for the other |
| `CxxGuards.StrandedOnReadyGuard` | esp-idf/components/cxx/cxx_guards.cpp:82-101 | after that run a task is blocked on a guard that is ready and owned by nobody, and no busy task can move |
| `CxxProgress.StepLowersLoad` | esp-idf/components/cxx/cxx_guards.cpp:74-212 | every step but a new acquisition lowers a measure of tokens, positions and guards to be ended |
| `CxxProgress.StepsBounded` | esp-idf/components/cxx/cxx_guards.cpp:74-212 | without new acquisitions the tasks take at most that many steps, woken waiters included, under any scheduler |
| `CxxProgress.AllThrough` | esp-idf/components/cxx/cxx_guards.cpp:74-212 | if no initialiser needs another guard, tasks that cannot go on without acquiring are all out of the runtime with nothing to end |
| `CxxProgress.WindsDown` | esp-idf/components/cxx/cxx_guards.cpp:74-212 | and from every such state there is a run that gets them there |
| `CxxGuards.SleeperCanWake` | esp-idf/components/cxx/cxx_guards.cpp:82-101 | with no guard pending and no releaser mid-signal a blocked task can go on at once |
| `CxxGuards.Runtime.Advance` | esp-idf/components/cxx/cxx_guards.cpp:74-212 | the updates of the shared mutex, semaphore, count and guard bytes are the steps of the interleaving model |
| `I2cMaster.AfterWriteDenotes` | esp-idf/components/driver/i2c.c:1169-1196 | cutting a WRITE at the FIFO limit changes neither trace nor memory writes |
| `I2cMaster.AfterReadTrace` | esp-idf/components/driver/i2c.c:1138-1206 | cutting a READ at the FIFO limit keeps its trace; the next segment starts at register 0 if something is left of it, else behind the STARTs loaded before |
| `I2cMaster.AfterReadMemory` | esp-idf/components/driver/i2c.c:1197-1206 | cutting a READ changes no memory write |
| `I2cMaster.WriteSegment` | esp-idf/components/driver/i2c.c:1169-1196 | a loaded WRITE segment runs without fault, empties the FIFO and denotes the front of the list; the rest is smaller |
| `I2cMaster.ReadSegment` | esp-idf/components/driver/i2c.c:1197-1206 | a loaded READ segment receives at most a FIFO and denotes the front of the list |
| `I2cMaster.StopSegment` | esp-idf/components/driver/i2c.c:1207-1222 | a final STOP segment, after fewer than 15 STARTs, stays within the command registers, denotes the rest of the list and ends by STOP |
| `I2cMaster.Master.StoreReceived` | esp-idf/components/driver/i2c.c:1138-1149 | the received bytes are stored at consecutive addresses in order and the link advances |
| `I2cMaster.Master.CmdBegin` | esp-idf/components/driver/i2c.c:1113-1222 | each call stores what was received and arms the next segment of the remaining list, within FIFO and register limits |
| `I2cMaster.Master.HandleInterrupt` | esp-idf/components/driver/i2c.c:432-460 | END goes on with the list; STOP does so only when a READ or WRITE was loaded, and otherwise nothing is reported |
| `I2cMaster.Master.Transfer` | esp-idf/components/driver/i2c.c:402-1343 | for any list that can be loaded memory receives exactly its bytes in order and the bus sees its trace with leftover STARTs repeated, with exactly one interrupt for every FIFO of data and a STOP; completion is reported exactly when the list is empty or has a READ or WRITE, else the task times out |
| `I2cMaster.ReplayedCounts` | esp-idf/components/driver/i2c.c:1138-1222 | the trace on the bus is longer than the one the list denotes by exactly the repeated STARTs, and the same if there are none |
| `I2cMaster.ReplayedIsFlatIff` | esp-idf/components/driver/i2c.c:1138-1222 | the bus sees the trace the list denotes if and only if every READ directly after a START needs more than one segment or ends the list |
| `I2cCmdLink.WriteLinksDenote` | esp-idf/components/driver/i2c.c:1010-1035 | however a write is cut into links of 255 bytes, exactly its data appears on the bus |
| `I2cCmdLink.ReadLinksDenote` | esp-idf/components/driver/i2c.c:1051-1073 | however a read is cut, exactly its bytes are acknowledged and stored in order |
| `I2cCmdLink.PlainRead` | esp-idf/components/driver/i2c.c:1091-1111 | a read with ACK or NACK answers every byte with it and stores all of them |
| `I2cCmdLink.LastNackRead` | esp-idf/components/driver/i2c.c:1091-1111 | "last NACK" acknowledges all bytes but the last |
| `I2cCmdLink.WriteThenReadReplaysFlat` | esp-idf/components/driver/i2c.c:984-1111 | START, any write, any read and STOP build a list that can be loaded and whose bus trace is the one it denotes |
| `I2cCmdLink.CmdLink.MasterWrite` | esp-idf/components/driver/i2c.c:1010-1035 | appends the links of the write to the list |
| `I2cCmdLink.CmdLink.MasterWriteByte` | esp-idf/components/driver/i2c.c:1037-1049 | appends a one-byte write whose byte is kept in the command |
| `I2cCmdLink.CmdLink.MasterRead` | esp-idf/components/driver/i2c.c:1091-1111 | appends the links of the read, or rejects a bad acknowledgement type or length and appends nothing |
| `I2cCmdLink.WriteThenRead` | esp-idf/components/driver/i2c.c:984-1343 | START, a write, a read with ACK, a last byte with NACK and STOP, built by the public calls and run by the engine, put exactly that on the bus and the bytes into memory |
| `I2cCmdLink.LeftoverStartsReplay` | esp-idf/components/driver/i2c.c:1138-1216 | after any number of STARTs and a READ of one segment the bus sees those STARTs again in front of whatever follows |
| `I2cCmdLink.ReadOneByte` | esp-idf/components/driver/i2c.c:984-1216 | START, a one-byte read and STOP, built by the public calls and run by the engine, put START, the byte, START and STOP on the bus |
| `I2cCmdLink.StartStop` | esp-idf/components/driver/i2c.c:432-1343 | START and STOP, built by the public calls and run by the engine, reach the bus, but the task times out |
| `CanTx.NoAssertFails` | esp-idf/components/driver/can.c:443-467 | in every reachable state no queue-receive assertion and no count assertion can fail |
| `CanTx.StepKeepsInv` | esp-idf/components/driver/can.c:357-869 | every calm step keeps queue length = count - occupied + tasks between send and recount |
| `CanTx.StepConserves` | esp-idf/components/driver/can.c:443-869 | every frame is accounted for exactly once through every step, resets included |
| `CanTx.TransmitPath` | esp-idf/components/driver/can.c:443-869 | from installation over every calm run: exact counts, no failing assertion next, conservation of frames, and nothing left queued when idle |
| `CanTx.UndisturbedRun` | esp-idf/components/driver/can.c:814-869 | without bus-off, stop or recovery no frame is rejected, removed or dropped |
| `CanTx.HandedOnlyWhenRunning` | esp-idf/components/driver/can.c:443-869 | a step hands a frame to the hardware only if the driver is started, not recovering and not listen-only; in bus-off exactly if it is the transmit interrupt with more frames counted |
| `CanTx.TransmitAnswers` | esp-idf/components/driver/can.c:814-837 | a halted or listen-only driver changes nothing; one with nothing to send hands the frame over at once; another one lets the task try the queue |
| `CanTx.HaltedRun` | esp-idf/components/driver/can.c:357-869 | until the next start a stopped or bus-off driver accepts nothing, and a stopped one hands nothing over |
| `CanTx.SilentUnlessStarted` | esp-idf/components/driver/can.c:357-869 | from installation nothing is sent or accepted before the first start, by a listen-only driver, or from a stop to the next start |
| `CanTx.ControlIff` | esp-idf/components/driver/can.c:760-947 | stop is accepted exactly when running, start exactly when stopped, recovery exactly in bus-off and not recovering |
| `CanTx.StopNeedsEmptyWindow` | esp-idf/components/driver/can.c:789-812 | a stop keeps the count exact if and only if no task is between send and recount; otherwise that task's next section fails its assertion |
| `CanTx.RecoveryNeedsEmptyWindow` | esp-idf/components/driver/can.c:926-947 | the same exact condition for starting recovery |
| `CanTx.RecoveryRestores` | esp-idf/components/driver/can.c:357-392 | recovery from bus-off ends in a stopped driver with nothing queued or counted, which can be started again |
| `CanTx.WindowIsHit` | esp-idf/components/driver/can.c:443-947 | runs from installation after which a stop, or the start of recovery, hits a task between send and recount, whose next section fails its assertion |
| `CanTx.CanObject.TransmitFirst` | esp-idf/components/driver/can.c:821-837 | first critical section of a transmission |
| `CanTx.CanObject.TransmitSecond` | esp-idf/components/driver/can.c:845-862 | second critical section, after the queue send |
| `CanTx.CanObject.HandleTxInterrupt` | esp-idf/components/driver/can.c:443-467 | the transmit interrupt counts down and starts the next queued frame |
| `CanTx.CanObject.StopDriver` | esp-idf/components/driver/can.c:789-812 | stop resets the transmit state, or is refused |
| `CanTx.CanObject.HandleErrWarn` | esp-idf/components/driver/can.c:357-392 | bus-off entry and completion of recovery |
| `Crc32.CrcOfErased` | esp-idf/components/app_update/esp_ota_ops.c:249-257 | zero is the only sequence number whose CRC reads as erased flash |
| `CrcRemainder.RegisterIsRemainder` | esp-idf/components/app_update/esp_ota_ops.c:249-252 | the CRC register is the remainder of the message times x^32 under the IEEE 802.3 polynomial |
| `CrcCheck.CrcOfOne` | esp-idf/components/app_update/esp_ota_ops.c:249-252 | the record of number 1 has the CRC 0x4743989A |
| `OtaSelect.EncodeOffers` | esp-idf/components/app_update/esp_ota_ops.c:249-275 | a record written with a number reads back as valid with that number, unless the number is the erased pattern |
| `OtaSelect.TornOffers` | esp-idf/components/app_update/esp_ota_ops.c:254-275 | a record cut off at any byte is invalid or already complete in content |
| `OtaSelect.NextSeqSelects` | esp-idf/components/app_update/esp_ota_ops.c:329-351 | the chosen number selects the requested slot, is not below the current maximum, and is the least such |
| `OtaSelect.NumberExistsIff` | esp-idf/components/app_update/esp_ota_ops.c:329-351 | a 32-bit number that selects the slot and is not below the maximum exists if and only if the chosen number fits 32 bits |
| `OtaSelect.SearchEndsIff` | esp-idf/components/app_update/esp_ota_ops.c:329-351 | for slot counts that divide 2^32 the wrapping search loop meets its exit condition at all if and only if the chosen number fits 32 bits |
| `OtaSelect.SearchWithoutEnd` | esp-idf/components/app_update/esp_ota_ops.c:329-351 | an instance: with four slots and maximum 0xFFFFFFFE the search for the first slot never ends |
| `OtaSelect.SwitchIsAtomic` | esp-idf/components/app_update/esp_ota_ops.c:254-361 | at every byte of erase and rewrite the old or the requested slot boots; on completion the requested one does, exactly unless the number hit the erased pattern; numbers stay at least 1 |
| `OtaSelect.RewriteKeepsRest` | esp-idf/components/app_update/esp_ota_ops.c:254-351 | the record in charge is not touched, and of the other one only number and CRC change |
| `OtaSelect.RunBoots` | esp-idf/components/app_update/esp_ota_ops.c:254-491 | over any run of completed and interrupted requests the booted slot is that of the last completed request or of a later one cut inside its CRC |
| `OtaSelect.FactoryIsAtomicIff` | esp-idf/components/app_update/esp_ota_ops.c:385-394 | the exact condition under which a power loss between the two erases boots neither the old choice nor the default |
| `OtaSelect.FactoryCutBootsOlder` | esp-idf/components/app_update/esp_ota_ops.c:385-394 | a flash content for which that happens |
| `OtaSelect.BootIsChoice` | esp-idf/components/app_update/esp_ota_ops.c:436-491 | the boot decision depends only on what the two sectors validly offer |
| `OtaSelect.SelectedWraps` | esp-idf/components/app_update/esp_ota_ops.c:436-491 | the slot of a number is its predecessor in 32 bits, modulo the number of slots |
| `OtaSelect.OtaData.FindSeq` | esp-idf/components/app_update/esp_ota_ops.c:329-351 | the search loop returns the least number that selects the slot |
| `OtaSelect.OtaData.RewriteOtaSeq` | esp-idf/components/app_update/esp_ota_ops.c:259-275 | erase and write leave the new record, passing only through its prefixes |
| `OtaSelect.OtaData.SetBoot` | esp-idf/components/app_update/esp_ota_ops.c:287-361 | the flash ends as planned and passes only through the contents that the atomicity theorem covers; an unknown slot changes nothing |
| `OtaSelect.OtaData.SetFactory` | esp-idf/components/app_update/esp_ota_ops.c:385-394 | both sectors are erased, the first one first |
| `OtaWrite.SplittingIsIrrelevant` | esp-idf/components/app_update/esp_ota_ops.c:132-247 | success and the reported error depend only on the image, not on how it is cut into calls |
| `OtaWrite.OutcomeIff` | esp-idf/components/app_update/esp_ota_ops.c:132-247 | an upload succeeds exactly if the image has the magic byte, a whole block under encryption, fits the partition and passes verification; and which error stands for what |
| `OtaWrite.Update.FillBlock` | esp-idf/components/app_update/esp_ota_ops.c:157-175 | topping up the held-back block loses no byte and writes it exactly when full |
| `OtaWrite.Update.WriteBlocks` | esp-idf/components/app_update/esp_ota_ops.c:177-189 | whole blocks reach the flash, the rest is held back, the written size stays a multiple of 16 |
| `OtaWrite.Update.Write` | esp-idf/components/app_update/esp_ota_ops.c:132-196 | flash up to the written size followed by the held-back bytes is everything passed in; errors exactly as the magic byte and the partition size demand |
| `OtaWrite.Update.End` | esp-idf/components/app_update/esp_ota_ops.c:198-247 | after a successful end the flash starts with the image |
| `OtaWrite.Update.Perform` | esp-idf/components/app_update/esp_ota_ops.c:132-247 | any cutting of an image gives the same outcome, success under exactly those conditions, and the same image bytes in flash |
| `SplitArgv.EscapedReads` | esp-idf/components/console/split_argv.c:74-102 | an escaped argument reads back unescaped, inside or outside quotes |
| `SplitArgv.ItemSplits` | esp-idf/components/console/split_argv.c:57-103 | one written argument splits off the line and leaves the rest |
| `SplitArgv.QuotedArgsSplitBack` | esp-idf/components/console/esp_console.h:123-146 | any argument list quoted and escaped by the documented rules splits back to itself |
| `SplitGrammar.LineSplits` | esp-idf/components/console/split_argv.c:57-115 | any row of bare and quoted words, with escapes of any character, adjacent quotes and an end of line in the middle, splits into the values of its words |
| `SplitGrammar.AnyLineSplits` | esp-idf/components/console/split_argv.c:57-115 | and every line there is is such a row |
| `SplitArgv.TokensAdvance` | esp-idf/components/console/split_argv.c:57-103 | one character of the state machine advances the tokens of the line |
| `SplitArgv.ReadingAdvances` | esp-idf/components/console/split_argv.c:43-109 | overwriting the line behind the read position keeps the finished arguments and the unread text |
| `SplitArgv.SplitInPlace` | esp-idf/components/console/split_argv.c:34-120 | the pointers lead to the first argv_size - 1 tokens of the original line as C strings, NULL follows, and nothing after the line is touched |
| `Scheduler.AcyclicIsRanked` | esp-idf/tools/idf.py:380-403 | a table without cycles can be ranked, which is all the scheduler needs to terminate |
| `Scheduler.RankedIsAcyclic` | esp-idf/tools/idf.py:380-403 | and only a table without cycles can |
| `Scheduler.CallKeeps` | esp-idf/tools/idf.py:505-512 | calling an action with its prerequisites complete keeps the calls unique and in order |
| `Scheduler.MarkKeeps` | esp-idf/tools/idf.py:505-512 | marking an alias or a repeated action keeps them so |
| `Scheduler.Tool.ExecuteAction` | esp-idf/tools/idf.py:494-512 | the recursion terminates, completes the action and keeps every call after its hard dependencies and requested order-only dependencies |
| `Scheduler.Tool.Run` | esp-idf/tools/idf.py:514-517 | each function is called at most once and in order, the requests are served from left to right, every one is served, and nothing outside the requests and their dependencies is called |
| `Scheduler.IndependentInOrder` | esp-idf/tools/idf.py:494-517 | a request to which nothing requested before it leads runs after all of them |
| `Scheduler.RunRequests` | esp-idf/tools/idf.py:493-517 | from a table without cycles and any requests: unique calls in dependency and request order, every request served, nothing called outside any set of needed actions |
| `BtMem.ReleaseRegions` | esp-idf/components/bt/bt.c:939-974 | the merged intervals given by one call cover, with multiplicity, exactly the regions that call frees |
| `BtMem.CallsGiveRetired` | esp-idf/components/bt/bt.c:925-974 | over any sequence of calls the given intervals cover exactly the regions whose last mode was released |
| `BtMem.CallsClear` | esp-idf/components/bt/bt.c:939-949 | every region loses exactly the union of the accepted modes |
| `BtMem.CallsClearRequested` | esp-idf/components/bt/bt.c:925-949 | when the first region is shared by all modes, every region loses exactly the modes asked for while the controller is idle, so a refused call had nothing to release |
| `BtMem.DisjointHits` | esp-idf/components/bt/bt.c:316-328 | for disjoint regions a byte is retired at most once, and exactly when its region is |
| `BtMem.EachByteOnce` | esp-idf/components/bt/bt.c:925-974 | no table byte is given twice, and once both modes are released every byte in use has been given exactly once |
| `BtMem.OneWholeRelease` | esp-idf/components/bt/bt.c:976-989 | bss and data are given at most once |
| `BtMem.SeparateReleasesKeepData` | esp-idf/components/bt/bt.c:976-989 | releasing the modes separately, in either order, empties the table and never gives bss and data |
| `BtMem.Controller.MemRelease` | esp-idf/components/bt/bt.c:925-991 | accepted exactly when idle and the mode is still held; the heap gains exactly the freed regions and, for both modes at once, bss and data |
| `BtMem.Controller.Calls` | esp-idf/components/bt/bt.c:925-991 | over any sequence of calls the heap gains, byte by byte, the given intervals of the table and the two sections once per accepted release of both modes |
| `LedcFade.IsrApproaches` | esp-idf/components/driver/ledc.c:475-535 | no step of any program of the interrupt handler passes the target |
| `LedcFade.SetFadeApproaches` | esp-idf/components/driver/ledc.c:587-624 | nor does any step of the first program |
| `LedcFade.IsrsReachTarget` | esp-idf/components/driver/ledc.c:475-535 | the distance strictly decreases at every interrupt and is zero after exactly the computed number of programs |
| `LedcFade.FadeReachesTarget` | esp-idf/components/driver/ledc.c:475-624 | a fade with scale 1 to 1023 ends at the target after exactly max(1, ceil(q/1023) + (r > 0)) interrupts, q and r being distance / scale and its remainder, and not earlier |
| `LedcFade.DurationIs` | esp-idf/components/driver/ledc.c:475-624 | the timer cycles of a whole fade: the cycle count for every whole step and one for the final jump |
| `LedcFade.FadeEndsIff` | esp-idf/components/driver/ledc.c:475-624 | with any scale the fade ends if and only if there are no steps, the masked scale is not zero or one step covers the distance |
| `LedcFade.TimedFadeEndsIff` | esp-idf/components/driver/ledc.c:626-654 | a fade given by time ends unless it has 2 to `d` cycles and `d / cycles` is a multiple of 1024, `d` being the distance |
| `LedcFade.TimedFadeNeverEnds` | esp-idf/components/driver/ledc.c:626-654 | an instance on a 13-bit timer: 4096 steps in 4 cycles leave the duty at 0 after any number of interrupts |
| `LedcFade.TimedFadeLength` | esp-idf/components/driver/ledc.c:626-654 | with more cycles than steps a fade stays within its time and close to it, up to 1023 cycles a step; with fewer it takes at least one cycle less and at most twice the time, and keeps to it exactly if the distance is no more than that many steps |
| `LedcFade.TotalCyclesAre` | esp-idf/components/driver/ledc.c:626-640 | without overflow the cycles of a time are time times frequency, rounded down |
| `LedcFade.TimeExceeded` | esp-idf/components/driver/ledc.c:626-654 | an instance of a fade that takes longer than its time |
| `LedcFade.Channel.SetFadeWithStep` | esp-idf/components/driver/ledc.c:587-624 | programs the record and the registers as the value-level function says |
| `LedcFade.Channel.SetFadeWithTime` | esp-idf/components/driver/ledc.c:626-654 | computes scale and cycle count from the time, in 32-bit arithmetic, and programs them |
| `LedcFade.Channel.FadeIsr` | esp-idf/components/driver/ledc.c:475-535 | programs the next steps or signals completion |
| `LedcFade.Channel.Fade` | esp-idf/components/driver/ledc.c:475-624 | driver and hardware together end at the target with the exact interrupt count and the exact number of timer cycles |
| `LedcFade.Channel.FadeWithTime` | esp-idf/components/driver/ledc.c:475-654 | the same for a fade with a time: it ends at the target and lasts as long as stated |
| `Nmea.ScanField` | libs/minmea/minmea.c:161-218 | the scan loop, missing fields included, returns what the recursive scan says |
| `Nmea.FittingIsLongest` | libs/minmea/minmea.c:172-185 | digits are taken exactly as long as the value fits 32 bits |
| `Nmea.FieldChars` | libs/minmea/minmea.c:90-92 | a field is made of the printing characters but comma and asterisk |
| `Nmea.NumberScans` | libs/minmea/minmea.c:161-218 | for any number: refused iff the integer part exceeds 32 bits, overflow iff ten fraction digits fit, else the longest fitting prefix with its scale |
| `Nmea.ShortNumberScansExactly` | libs/minmea/minmea.c:161-218 | at most nine fraction digits and 32 bits of magnitude are read exactly |
| `Nmea.FixedScansBack` | libs/minmea/minmea.c:161-218 | a printed fixed-point number scans back to its value and scale (round trip) |
| `Nmea.OverflowNeedsZero` | libs/minmea/minmea.c:187-188 | the scale can only overflow behind a zero integer part |
| `Nmea.TenZerosOverflow` | libs/minmea/minmea.c:187-188 | an instance of a text whose scale overflows |
| `Nmea.NoDigitsScan` | libs/minmea/minmea.c:203-209 | a lone sign or point is an error, an empty field the unknown value |
| `NmeaErrors.GarbageIsRefused` | libs/minmea/minmea.c:161-218 | behind a number that fits, or the beginning of one, any character that cannot continue it makes the field an error |
| `NmeaErrors.SignBehindPoint` | libs/minmea/minmea.c:165-171 | a sign behind the point scans like one in front of it |
| `Nmea.RescaleRoundsToNearest` | libs/minmea/minmea.h:207-217 | a coarser scale rounds to the nearest value, or the rounding addition overflows |
| `Nmea.RescaleTruncatesIff` | libs/minmea/minmea.h:207-217 | the documented rounding toward zero holds if and only if the rest is below half a unit and the rounding addition fits 32 bits |
| `Nmea.RescaleOverflowsIff` | libs/minmea/minmea.h:207-217 | overflow is marked exactly when the rounding sum, or the product for a finer scale, leaves 32 bits |
| `Nmea.RescaleEnds` | libs/minmea/minmea.h:207-217 | the unknown value counts as zero, and at its own scale a value stays as it is |
| `Nmea.RescaleRoundsAway` | libs/minmea/minmea.h:207-217 | instances: 1.5 becomes 2 and -1.5 becomes -2 |
| `Nmea.RescaleBack` | libs/minmea/minmea.h:207-217 | refining and coarsening again is the identity |
| `Nmea.SpeedWrapsIff` | src/hw/hw_gps.c:205-209 | the 32-bit conversion keeps its meaning exactly up to 2319.096 knots |
| `Nmea.SpeedIsAccurate` | src/hw/hw_gps.c:205-209 | below 2319 knots the result is within two units of 1852 times the knots, at every scale |
| `Nmea.SpeedFromText` | src/hw/hw_gps.c:201-209 | the same from the text of the field |
| `Triggers.StepMatches` | src/hw/hw_gps.c:57-103 | one sample keeps the timer in step with the history since the last clear |
| `Triggers.StrayStatus` | src/hw/hw_gps.c:57-103 | a status outside the three is reset |
| `Triggers.TimerShowsHistory` | src/hw/hw_gps.c:57-103 | over every sample sequence the value is 0 or the time from the first moving sample of the latest departure to the first later sample at or above the limit, tick wrap-around included |
| `Triggers.WrapsAway` | src/hw/hw_gps.c:92 | wrapping tick counters do not disturb the difference |
| `Triggers.LowerLimitFirst` | src/hw/hw_gps.c:105-124 | reaching a higher limit implies having reached the lower ones no later |
| `Triggers.LowerTimersShow` | src/hw/hw_gps.c:105-124 | a timer that shows a time implies that every lower one shows one, and none larger |
| `Triggers.TrigLimit.TrigOneLimit` | src/hw/hw_gps.c:57-103 | the record is updated as the step function says, for any status value |
| `Triggers.SpeedTimers.CheckAndApply` | src/hw/hw_gps.c:105-124 | the four records and the published values after one sample |

## Left out

- Trace transport: post-mortem overwrite mode and a disconnected host, SystemView's one-byte headers, per-core control registers, the lock, and `esp_apptrace_trax_down_buffer_get` beyond the forced switch it can cause.
- TraceSpec.GetBuffer: get, fill and put of one user block are one step, so bytes written by a preempted user after exposure (a limitation the source documents) are not described; requests above the maximum length, which are refused, are outside the block type.
- Trace transport: only the configuration in which the pending data may exceed one trace block, with its ring of chunk sizes, is modelled.
- TraceBuffer.Trax.HostReads: the host parks a message only while it acknowledges a non-empty block; the source looks at the host-data bit alone.
- TraceSpec.WaitSwitch: a timeout is the end of a finite list of host moves; tick arithmetic is not modelled.
- TraceBuffer.Trax.ChunkUpdate: the ring of chunk sizes counts in elements, not in two-byte units.
- C++ guards: calls before the scheduler starts and creation of the mutex and semaphore are not modelled; preemption is a choice of the next task, step by step.
- I2cMaster.Master.Transfer: lists with anything after STOP, a final START, a command index that reaches 15 (leftover STARTs included) or an empty transfer, which the list-building calls never append, are outside `Loadable`.
- I2C: acknowledgement errors, bus time-outs, late interrupts after a transfer, bus reset and slave mode are left out; the task's time-out is that no interrupt will come any more.
- CanTx.UndisturbedRun: order between the direct path and the queued path, and which frame bus-off removes, are not stated; frames are counted as a multiset.
- CAN: reception, alerts, error-passive and bus-error handling, driver installation.
- OtaSelect.SwitchIsAtomic: a write is torn at byte boundaries, an erase is complete or has not begun, and the next sequence number fits 32 bits.
- OtaSelect.OtaData.FindSeq: runs in which the chosen number exceeds 32 bits, where `SearchEndsIff` says that the loop does not end, are excluded; for slot counts that do not divide 2^32 the number the wrapped loop may then find is not described, beyond not selecting the slot (`NumberExistsIff`).
- OtaSelect.OtaData.SetBoot: such numbers are excluded here too; image verification, missing partitions and failing flash calls, which return before anything is written, are left out.
- OtaWrite.Update.Write: after a failed flash write only the flash contents are promised, not a retry; handles, erasing and flash encryption itself are left out, the flash being seen through decryption.
- OtaWrite.Update.End: the padding after the last partial block depends on the calls and is not described; image verification is a parameter.
- SplitArgv.SplitInPlace: an argv of length 0, for which the source computes with a wrapped size, is excluded.
- Scheduler: actions are opaque calls; argument parsing, extensions and failing actions are left out.
- BtMem.Controller.MemRelease: the heap accepts every interval; intervals too small for a heap, which the source silently drops, count as given.
- LedcFade.Channel.Fade: the hardware carries out all programmed steps before its interrupt, and the duty does not change between the two reads of a fade given by time; scales that do not fit the register are covered by `FadeEndsIff` and `TimedFadeEndsIff`.
- LedcFade.TimedFadeLength: how long a fade lasts whose scale is cut to ten bits is not stated.
- Nmea.SpeedIsAccurate: negative speeds, which the unsigned conversion turns into large numbers, are excluded.
- Triggers.TrigLimit.TrigOneLimit: both reads of the tick counter in one call are one reading.
- Not modelled: the other format letters of `minmea_scan`, checksums, sentence parsing, UART input and the display, which are straight-line code over one field or one byte, and register set-up, which has no state of its own.
