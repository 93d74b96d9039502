# SiNUCA3 in Dafny

SiNUCA3 simulates processors cycle by cycle. This project models four parts of it as the
program writes them -- classes over arrays, rings and chains, with the loops and branches
of the source -- and proves what each part is for.

* **Messages.** `CircularBuffer.dfy` is the growing ring queue, `Linkable.dfy` the
  connection made of four of them and the component that owns connections, which all
  components below are built on. A connection is a pair of one-cycle mailboxes, so the
  order in which components are clocked cannot matter (`CycleConfluence.dfy`). On top of
  it stand the delay queue (`DelayQueue.dfy`, `ExactDelay.dfy`) and the loop of engine
  and fetcher (`Packets.dfy`, `Engine.dfy`, `Fetcher.dfy`, `FetchLoop.dfy`,
  `FetchRoom.dfy`, `FetchRun.dfy`), and that of the engine and a core that asks for one
  instruction at a time (`SingleFetch.dfy`).
* **Traces.** `TraceFiles.dfy`, `DynamicTrace.dfy`, `MemoryTrace.dfy` and
  `StaticTrace.dfy` are the writers and readers of the three files of a recorded
  program, `InstructionDict.dfy` the dictionary made of the third. `TraceReader.dfy`
  replays the threads and `ReplayFidelity.dfy` says what they are given.
  `ThreadEvents.dfy` follows the events of a run, `ThreadScheduling.dfy` and
  `BarrierRounds.dfy` say what critical regions and barriers keep, and when not.
  `ReplayEnd.dfy` is about how a replay ends, `Turns.dfy`, `ReplayProgress.dfy` and
  `EvenTurns.dfy` about when it does; `EndOfTrace.dfy` follows a program of one thread from
  its files to the messages of the engine.
* **Cache.** `Addresses.dfy` splits addresses, `CacheSets.dfy` and `CacheMemory.dfy` are
  the cache with its LRU policy, `ReuseDistance.dfy` characterises its hits and
  `CacheAgreement.dfy` its values, `WrappedCounters.dfy` what happens when an age counter
  wraps; `Itlb.dfy`, `ItlbService.dfy`, `ItlbAnswers.dfy` and `ItlbReuse.dfy` are the
  instruction TLB that drives it.
* **Small structures.** `Ras.dfy` is the return address stack, `HashMap.dfy` the chained
  hash table with its iterator.

Methods carry the loops and the state of the program and are proved against functions on
values; the theorems are about runs of those functions, and methods that make such a run
with the classes themselves (`Perform`, `RunTogether`, `OneCycle`, `ReplayCalls`,
`RunAccesses`, `AskOneByOne`, `Drive`) show that the classes go through it. Files are
sequences of records behind their headers.

## What does not hold

Where a natural claim fails for the code as it is, the failure is stated with a concrete
input or run, and the claim with its exact condition.

* `CacheMemory::Write` does not look for the line it writes, so a second write leaves the
  first copy where `Read` finds it (`SecondWriteIsNotRead`, `WriteKeepsUnique`).
* When a line of a full set was idle for 2^32 accesses its age counter has wrapped, and the
  line used last is evicted (`WrappedCounterEvictsTheNewest`). The counters are the ages
  modulo 2^32 in every run (`CacheCounts`), hits and misses are right exactly when every
  eviction finds the line idle the longest first among those with the largest counter
  (`RightIffEvictsLongest`), and that is so as long as no line is idle that long
  (`HitIffRecentlyUsed`).
* The outermost `CriticalEnd` wakes threads that wait at a barrier (`EarlyWake`); barriers
  hold exactly in the runs where that does not happen (`BarriersHoldIffQuiet`).
* A barrier inside a critical region either puts everybody to sleep for ever
  (`EverybodyAsleep`, exactly when: `StopsIffWaitsInside`) or, when it is the last to be
  reached, lets others run beside the owner of the region (`BothAwake`, exactly when:
  `ExclusionHoldsIff`).
* The engine answers a request with instructions of fewer bytes than asked, where its
  documentation says up to as many: one that is as large as `fetchSize` is never sent
  (`DeliveredIffEverythingFits`). After a `Nop` it sends an instruction twice
  (`SentOnceIffNoNop`), and since the reader answers the call that finds the end of a
  trace with a `Nop`, the engine sends the last instruction of a program of one thread
  twice before it stops (`LastInstructionIsSentTwice`).
* A TLB with a miss penalty of 0 never answers a miss (`FirstMissIsLost`); received is
  answered, in service or waiting exactly in the runs in which that does not happen
  (`AnsweredInOrderIffNothingIsLost`).
* A block whose size is announced after more instructions than that is never written, and
  a size of 0 is refused (`WrittenIffInRange`), although the documentation leaves the
  order of calls open.
* A packet has 16 slots for loads and 16 for stores, and nothing checks that a recorded
  instruction makes do with them: a group comes back exactly when it does
  (`GroupComesBack`), and else the program writes past the slots (`PastSlotsIffTooMany`).
* Execution ends for all threads when thread 0 has read past its file, whatever the others
  have left (`ThreadOneIsCutOff`); a thread is replayed whole exactly when it had nothing
  left at that call (`EndDecides`). Without thread events and called in turn, all threads
  are cut off at the length of the program of thread 0 (`AllAreCutOffEvenly`).
* A replay need not end. Thread 0 may wait for ever at a barrier that another thread does
  not have (`WaitsForNobody`), and a thread whose file ends inside a critical region leaves
  all others asleep (`EndsInsideARegion`). Called in turn, the execution ends exactly when
  thread 0 has no more barriers than any other thread and no other thread ends inside a
  region (`EndsIff`), in all runs in which barriers hold.
* A connection without a bound always takes a request, but `IsConnectionAvailable` says
  that it is not available whenever its ring is full at its current size
  (`BusyWithRoomLeft`); on a bounded one the answer is right (`AvailableIffRoom`).
* The documentation of the return address stack says that it sends responses to `sendTo`
  instead of on the connection of the query. The code does both, and so does the model.

## Model

| member | source | states |
|---|---|---|
| CircularBuffers.CircularBuffer.Allocate | src/utils/circular_buffer.cpp:30-51 | a ring of the given size is the empty queue; size 0 means without bound |
| CircularBuffers.CircularBuffer.Grow | src/utils/circular_buffer.cpp:66-86 | doubling a full ring keeps contents and order, also when they wrap around its end |
| CircularBuffers.CircularBuffer.Enqueue | src/utils/circular_buffer.cpp:60-106 | a FIFO append; refused exactly when the ring is bounded and full, never when it is not bounded |
| CircularBuffers.CircularBuffer.Dequeue | src/utils/circular_buffer.cpp:108-133 | gives and removes the oldest element; nothing from an empty ring, which stays as it is |
| CircularBuffers.CircularBuffer.Flush | src/utils/circular_buffer.cpp:135-138 | the queue is empty, wherever its start and end stood |
| Linkables.Connection.CreateBuffers | src/engine/linkable.cpp:25-40 | four rings are a pair of empty mailboxes of the given capacity |
| Linkables.Connection.SwapBuffers | src/engine/linkable.cpp:57-70 | swapping and flushing the rings turns what was sent into what can be read, in both directions, and discards what was left unread |
| Linkables.Connection.IsRequestBufferAvailable | src/engine/linkable.cpp:53-55 | whether the ring that the source of the connection sends into has a free slot at its current size |
| Linkables.Connection.InsertIntoRequestBuffer | src/engine/linkable.cpp:72-74 | a request goes behind those sent in this cycle, or is dropped and reported when the ring is full |
| Linkables.Connection.InsertIntoResponseBuffer | src/engine/linkable.cpp:76-78 | the same for a response |
| Linkables.Connection.RemoveFromARequestBuffer | src/engine/linkable.cpp:80-82 | takes the oldest request of the previous cycle |
| Linkables.Connection.RemoveFromAResponseBuffer | src/engine/linkable.cpp:84-86 | takes the oldest response of the previous cycle |
| Linkables.Linkable.ConnectUnsafe | src/engine/linkable.cpp:121-129 | creates a connection with four rings of its own, apart from all others, and gives its number |
| Linkables.Linkable.SendRequest | src/engine/linkable.cpp:131-134 | works on the rings of its own connection; what every other connection holds is unchanged |
| Linkables.Linkable.GetRequest | src/engine/linkable.cpp:136-139 | the same on the receiving side |
| Linkables.Linkable.SendResponse | src/engine/linkable.cpp:141-144 | the same for the other direction |
| Linkables.Linkable.GetResponse | src/engine/linkable.cpp:146-149 | the same on the receiving side |
| Linkables.Linkable.IsConnectionAvailable | src/engine/linkable.cpp:117-119 | asks the sending side of its own connection |
| Linkables.Linkable.PosClock | src/engine/linkable.cpp:112-115 | the rings of every connection are swapped once |
| Linkables.OneCycleMailbox | src/engine/linkable.cpp:57-86 | in whatever order the two ends use a channel in a cycle, the next cycle can read exactly what was sent in this one, in order and up to the capacity; what is received is a prefix of what was sent in the cycle before, and the rest is gone |
| CycleConfluence.Perform | src/engine/linkable.cpp:117-149 | a component that performs an operation -- send, get, either way, or asks whether there is room -- goes through exactly the step and the result of the theorems below |
| CycleConfluence.EndCycle | src/engine/linkable.cpp:112-115 | and PosClock is the swap between their cycles |
| CycleConfluence.ReceivedOnce | src/engine/linkable.cpp:136-139 | getting requests again and again in one cycle gives each of those sent in the cycle before once, in order, and then nothing |
| CycleConfluence.AnsweredOnce | src/engine/linkable.cpp:146-149 | the same for responses |
| CycleConfluence.SentIsReadable | src/engine/linkable.cpp:131-149 | what is sent on a new connection is what the other end can read there in the next cycle; an operation on a connection that does not exist changes nothing |
| CycleConfluence.StaysSized | src/utils/circular_buffer.cpp:66-86 | through any operation and swap the rings are at least as large as what they hold, and those with a bound exactly as large as the bound |
| CycleConfluence.AvailableIffRoom | src/engine/linkable.cpp:117-119 | on a bounded connection the answer is exactly whether a request can be sent; on an unbounded one a request can always be sent, and the answer is no exactly when the ring is full at its current size |
| CycleConfluence.BusyWithRoomLeft | src/engine/linkable.cpp:117-119 | a concrete run: after 8 requests an unbounded connection is said not to be available, and the ninth is taken |
| CycleConfluence.RingsDouble | src/utils/circular_buffer.cpp:66-86 | an unbounded ring has 8, 16 and then 32 slots as it is filled |
| CycleConfluence.EndsCommute | src/engine/linkable.cpp:72-86 | an operation of the requester and one of the responder give the same results and leave the same messages and ring sizes in either order |
| CycleConfluence.OperationsCommute | src/engine/linkable.cpp:131-149 | so do the operations of any two components, on all connections |
| CycleConfluence.StepsCommute | src/engine/linkable.cpp:131-149 | and the steps of components that decide by what they received |
| CycleConfluence.InterleavingIsIrrelevant | src/engine/engine.cpp:247-258 | all interleavings of the operations of one cycle with the same operations per component reach the same state |
| CycleConfluence.OneCycleInAnyOrder | src/engine/engine.cpp:247-258 | clocking the components in another order, each until its Clock is done, comes to an end in the same cases and leaves the same state |
| CycleConfluence.ClockOrderIsIrrelevant | src/engine/engine.cpp:247-258 | over a whole simulation, a different order in every cycle goes through the same states, or is stuck in an endless Clock in the same cycle |
| CycleConfluence.OneSimulation | src/engine/engine.cpp:247-258 | the clock orders determine the states of a simulation |
| DelayQueues.DelayQueue.Configure | src/std_components/misc/delay_queue.hpp:137-159 | connects to the receiver with the throughput as capacity and, if there is a delay, sizes the ring as delay * throughput + throughput - 1 |
| DelayQueues.SizeInCycles | src/std_components/misc/delay_queue.hpp:69-72 | ring and first slot together hold delay + 1 cycles of throughput |
| DelayQueues.DelayQueue.Enqueue | src/std_components/misc/delay_queue.hpp:106-119 | first slot and ring together are one queue; a message is refused exactly when the ring is full, else it is stamped with clock + delay |
| DelayQueues.DelayQueue.Dequeue | src/std_components/misc/delay_queue.hpp:121-135 | gives the oldest message exactly when its time has come |
| DelayQueues.DelayQueue.ForwardDue | src/std_components/misc/delay_queue.hpp:166-170 | sends on all that is due, in order; what the receiver has no room for is gone |
| DelayQueues.DelayQueue.AcceptConnection | src/std_components/misc/delay_queue.hpp:172-180 | takes messages from one connection until it is drained or one is refused |
| DelayQueues.DelayQueue.AcceptWaiting | src/std_components/misc/delay_queue.hpp:171-180 | the connections in order; a refusal ends the cycle, leaving later connections unread |
| DelayQueues.DelayQueue.Clock | src/std_components/misc/delay_queue.hpp:161-181 | one clock of the queue and its connections as a function of their state |
| ExactDelay.SimulationIsExact | src/std_components/misc/delay_queue.hpp:161-181 | after any run the queue holds exactly what was accepted in the last `delay` cycles and every cycle sent exactly what had been accepted `delay` cycles before |
| ExactDelay.DelayIsExact | src/std_components/misc/delay_queue.hpp:24-33 | what is accepted in cycle c is sent in cycle c + delay and in no other, in order, whole exactly when it does not exceed the throughput |
| ExactDelay.QueueIsSorted | src/std_components/misc/delay_queue.hpp:50-64 | between clocks every removal time lies in (clock, clock + delay] and the queue is sorted by it |
| ExactDelay.BacklogDue | src/std_components/misc/delay_queue.hpp:121-135 | what is due at a clock is what one earlier cycle accepted, no more and no less |
| ExactDelay.NothingIsRefused | src/std_components/misc/delay_queue.hpp:33-35 | with at most `throughput` arrivals per cycle every arrival is accepted |
| ExactDelay.TakesInOrder | src/std_components/misc/delay_queue.hpp:172-180 | from whatever state: what an accepting cycle leaves unread on the connections is what waited there, in connection order, without the first so many -- as many as there is room for, and the one refused |
| ExactDelay.NothingIsLost | src/std_components/misc/delay_queue.hpp:69-72 | with the computed ring size: nothing refused, at most delay * throughput held, and everything delivered |
| ExactDelay.NoDelayPassesOn | src/std_components/misc/delay_queue.hpp:172-180 | with delay 0 each cycle passes on what arrives in it, as far as the throughput allows; with throughput 0 everything |
| ExactDelay.OneCycle | src/std_components/misc/delay_queue.hpp:161-181 | the component, clocked on connections in any state, with its receiver swapped, goes through exactly one cycle of these simulations |
| Engines.Engine.SetupSimulation | src/engine/engine.cpp:218-233 | fails exactly when some core has no first instruction; else every core has it buffered |
| Engines.Engine.SendBufferedAndFetch | src/engine/engine.cpp:137-162 | sends the buffered instruction with the address of its successor, refills the buffer, and stops at the end or an error; other cores are untouched |
| Engines.Engine.Fetch | src/engine/engine.cpp:164-178 | one instruction for a request of 0 bytes, else as long as the weight stays below the request |
| Engines.Engine.Clock | src/engine/engine.cpp:180-189 | every core is served once and independently; the end and error flags are set exactly if a call gave them, and the count of instructions goes up by one for every call that gave neither |
| SingleFetch.ZeroGivesOne | src/engine/engine.cpp:165-168 | a request of 0 bytes is answered with exactly the buffered instruction, linked to its successor, which is buffered then |
| SingleFetch.OtherAnswers | src/engine/engine.cpp:143-159 | when the reader answers Nop, End or Error instead: one packet, linked to what is buffered then, and no more |
| SingleFetch.NothingGivesNothing | src/engine/engine.cpp:180-189 | no message, a response or a negative request is answered with nothing |
| SingleFetch.OneInstructionPerCycle | src/std_components/cores/simple_core.cpp:45-52 | a core that asks for 0 bytes in every cycle receives one packet per call of the reader, one a cycle from the third on; while the reader answers Ok that is the trace, each instruction once and in order |
| SingleFetch.AskOneByOne | src/std_components/cores/simple_core.cpp:45-52 | and it does so from the real engine over a real connection |
| Fetchers.Fetcher.Configure | src/std_components/fetch/fetcher.cpp:52-56 | connects to both sides with room for fetchSize messages |
| Fetchers.Fetcher.ClockSendBuffered | src/std_components/fetch/fetcher.cpp:67-84 | sends the entries not yet sent until the memory refuses one |
| Fetchers.Fetcher.ClockUnbuffer | src/std_components/fetch/fetcher.cpp:139-151 | drops the sent entries at the front and keeps the others in order |
| Fetchers.Fetcher.ClockRequestFetch | src/std_components/fetch/fetcher.cpp:153-163 | asks for the bytes that are free |
| Fetchers.Fetcher.ClockFetch | src/std_components/fetch/fetcher.cpp:165-177 | takes in all that arrived, given a slot more than that |
| Fetchers.Fetcher.Clock | src/std_components/fetch/fetcher.cpp:179-212 | a whole clock, without a predictor |
| FetchLoop.TheLoopIsSafe | src/std_components/fetch/fetcher.cpp:165-177 | for ever: the buffer has a free slot left also after all that is on its way arrived, every request is for 1 to fetchSize bytes, nothing was dropped, and the memory received the trace so far, each instruction once and in order |
| FetchRuns.OneCycle | src/engine/engine.cpp:247-258 | engine, fetcher, the swap and the memory: the two components on one connection go through exactly one cycle of the loop |
| FetchRuns.RunTogether | src/std_components/fetch/fetcher.cpp:179-212 | any number of cycles of the real engine and fetcher: the state of the loop, and the memory receives the trace so far |
| FetchRuns.Simulate | src/engine/engine.cpp:218-258 | the same from scratch: the fetcher connects itself, the engine buffers the first instruction -- fails exactly when there is none -- and both run |
| FetchRoom.NothingIsDropped | src/std_components/fetch/fetcher.cpp:165-177 | for ever and under any reader, also one that answers Nop, ends or fails: buffer and connection have a free slot left, every request is for 1 to fetchSize bytes, and delivered, buffered or on its way is exactly one packet for every call of the reader, in order |
| FetchRoom.SendsWithinTheRequest | src/engine/engine.cpp:164-178 | what is sent in answer to a request takes fewer bytes than it asks for, and it stops only at an end, at an error or before the first packet that does not fit; a Nop does not stop it |
| FetchRoom.KeepsWhatDoesNotFit | src/std_components/fetch/fetcher.cpp:67-84 | a memory with less room is sent as much as it has room for, in order; the rest stays in front of what arrives, and its bytes are not asked for |
| FetchLoop.EngineSendsARun | src/engine/engine.cpp:164-178 | a request is answered by the longest run that is smaller than it |
| FetchLoop.CycleMoves | src/engine/engine.cpp:247-258 | a cycle of engine, fetcher and swap moves every instruction one place on, in order |
| FetchLoop.Advances | src/std_components/fetch/fetcher.cpp:206-211 | an instruction smaller than fetchSize is sent within fetchInterval + 3 cycles |
| FetchLoop.NeverPasses | src/engine/engine.cpp:172-177 | one that is not smaller is never sent, nor any behind it |
| FetchLoop.DeliveredIffEverythingFits | src/engine/engine.cpp:172-177 | an instruction reaches the memory exactly when it and all before it are smaller than fetchSize |
| FetchLoop.SentOnceIffNoNop | src/engine/engine.cpp:137-161 | instructions are sent once each exactly while the reader answers Ok; after a Nop the last one is sent again |
| TraceFiles.RecordWriter.AddRecord | x86_trace_generator/utils/memory_trace_writer.cpp:78-83 | what was added is in the file or still buffered, in order; a full buffer is flushed |
| TraceFiles.RecordWriter.CheckRecordArray | x86_trace_generator/utils/memory_trace_writer.cpp:67-76 | flushing a full buffer loses nothing |
| TraceFiles.RecordWriter.Close | x86_trace_generator/utils/memory_trace_writer.hpp:47-54 | closing leaves exactly what was added in the file |
| TraceFiles.RecordChunk.LoadRecordArray | src/tracer/sinuca/utils/memory_trace_reader.cpp:120-130 | loads the next records of the file and fails exactly at its end |
| DynamicTraces.DynamicTraceWriter.AddThreadEvent | x86_trace_generator/utils/dynamic_trace_writer.cpp:88-93 | adds the event |
| DynamicTraces.DynamicTraceWriter.AddBasicBlockId | x86_trace_generator/utils/dynamic_trace_writer.cpp:95-100 | adds the identifier |
| DynamicTraces.DynamicTraceReader.ReadDynamicRecord | src/tracer/sinuca/utils/dynamic_trace_reader.cpp:55-73 | stands on the next record, wherever the chunks begin; fails exactly at the end, and for ever after |
| DynamicTraces.DynamicTraceReader.Record | src/tracer/sinuca/utils/dynamic_trace_reader.hpp:67-78 | gives the record that was read last |
| DynamicTraces.Store | x86_trace_generator/utils/dynamic_trace_writer.cpp:52-86 | any number of records, full chunks or not, ends up in the file |
| DynamicTraces.Replay | src/tracer/sinuca/utils/dynamic_trace_reader.cpp:55-86 | reading gives every record once and in order, and the first failing read is the one behind the last record and marks the end |
| MemoryTraces.MemoryTraceWriter.AddNumberOfMemOperations | x86_trace_generator/utils/memory_trace_writer.cpp:85-90 | adds a header, with the count as a signed 32-bit number |
| MemoryTraces.MemoryTraceWriter.AddMemOp | x86_trace_generator/utils/memory_trace_writer.cpp:92-99 | adds a load or store, with the size cut to 16 bits |
| MemoryTraces.MemoryTraceReader.ReadMemoryOperations | src/tracer/sinuca/utils/memory_trace_reader.cpp:53-118 | reads a group, reloading the chunk where it ends; every way to fail leaves the reader where the program leaves it, and a load or store with no slot left in the packet is told apart |
| MemoryTraces.OperationsComeBack | src/tracer/sinuca/utils/memory_trace_reader.cpp:80-115 | reading as many operations as were written gives them back with their sizes cut if the 16 slots of each kind suffice, and goes past the slots if not |
| MemoryTraces.TruncationIsExact | src/tracer/sinuca/file_handler.hpp:131-142 | the cut sizes are the recorded ones exactly when all are below 2^16 |
| MemoryTraces.GroupComesBack | src/tracer/sinuca/utils/memory_trace_reader.cpp:53-118 | a group comes back -- loads and stores each in their order, the reader just behind -- exactly when its sizes are below 2^16 and the 16 slots of each kind suffice |
| MemoryTraces.PastSlotsIffTooMany | src/engine/default_packets.hpp:89-96 | reading a group goes past the slots of the packet exactly when, of the accesses its header counts (all of them below 2^31), there are too many loads or too many stores |
| MemoryTraces.CutShort | src/tracer/sinuca/utils/memory_trace_reader.cpp:80-115 | a header that counts more accesses than follow it makes the group fail, with the accesses that are there |
| MemoryTraces.NoHeaderFails | src/tracer/sinuca/utils/memory_trace_reader.cpp:53-79 | a group that does not begin with a header fails, and the end of the file is noted exactly when there is no record at all |
| MemoryTraces.LargeCountsReadNothing | src/tracer/sinuca/utils/memory_trace_reader.cpp:81-87 | a count of 2^31 to 2^32 is read as one that is not positive: the group has no accesses, and the reader stands at its records |
| MemoryTraces.SixteenOfAKind | src/engine/default_packets.hpp:89-96 | an empty packet has room for 16 loads and 16 stores |
| MemoryTraces.Int32Wraps | x86_trace_generator/utils/memory_trace_writer.cpp:85-90 | the count in the header is the only number of 32 bits with a sign that agrees with it modulo 2^32 |
| MemoryTraces.TraceComesBack | src/tracer/sinuca/utils/memory_trace_reader.cpp:53-118 | a whole trace comes back group by group and then ends cleanly |
| MemoryTraces.Store | x86_trace_generator/utils/memory_trace_writer.cpp:67-99 | the writer produces the encoding of the groups |
| MemoryTraces.Replay | src/tracer/sinuca/utils/memory_trace_reader.cpp:53-130 | the reader, called until it fails, decodes the file |
| StaticTraces.StaticTraceWriter.constructor | x86_trace_generator/utils/static_trace_writer.hpp:68-74 | starts with no block and an empty file |
| StaticTraces.StaticTraceWriter.ReallocBasicBlock | x86_trace_generator/utils/static_trace_writer.cpp:69-75 | doubling the array keeps the block |
| StaticTraces.StaticTraceWriter.FlushBasicBlock | x86_trace_generator/utils/static_trace_writer.cpp:51-67 | writes the size record and the instructions of the block |
| StaticTraces.StaticTraceWriter.AddBasicBlockSize | x86_trace_generator/utils/static_trace_writer.cpp:77-118 | announces the size, unless one is announced or it is 0; a complete block is flushed |
| StaticTraces.StaticTraceWriter.AddInstruction | x86_trace_generator/utils/static_trace_writer.cpp:77-132 | adds an instruction behind those of the block; a complete block is flushed |
| StaticTraces.SizeMayComeAnywhere | x86_trace_generator/utils/static_trace_writer.hpp:30-34 | the size may be announced before, among or after the instructions: the same file, and ready for the next block |
| StaticTraces.WrittenIffInRange | x86_trace_generator/utils/static_trace_writer.cpp:77-118 | whatever is announced, a block is written exactly when the call is accepted and the size is neither below the instructions added before nor above all that are added; it is the first so many, and the others begin the next block |
| StaticTraces.SecondSizeIsRefused | x86_trace_generator/utils/static_trace_writer.cpp:98-118 | a size is refused when it is 0 or when another is in force, and then nothing changes |
| StaticTraces.StaticTraceReader.ReadStaticRecordFromFile | src/tracer/sinuca/utils/static_trace_reader.cpp:68-77 | gives the next record, fails at the end of the file |
| StaticTraces.StaticTraceReader.TranslateRawInstructionToSinucaInst | src/tracer/sinuca/utils/static_trace_reader.cpp:79-126 | the instruction agrees with the record field by field; its prefetch hint is off and its branch type is that of the first that applies of call, system call, return, system return, jump |
| StaticTraces.TranslationDescribes | src/tracer/sinuca/utils/static_trace_reader.cpp:79-126 | each field of a translation is the field of the same name, and each branch type is given exactly for its own combination of flags |
| InstructionDicts.InstructionDict.ReadInstructions | src/tracer/sinuca/trace_reader.cpp:128-141 | fills the part of the pool that belongs to a block, and no other |
| InstructionDicts.InstructionDict.GenerateInstructionDict | src/tracer/sinuca/trace_reader.cpp:84-145 | fills sizes, offsets and pool with the dictionary of the file, or fails where a record is missing or of the wrong kind |
| InstructionDicts.DictionaryIsExact | src/tracer/sinuca/trace_reader.cpp:123-141 | entry i of block b agrees with its i-th instruction in mnemonic, size, address, flags, registers and branch type; offsets are the sums of the sizes before and the blocks tile the pool |
| InstructionDicts.BlockComesBack | src/tracer/sinuca/trace_reader.cpp:113-142 | a block is read back exactly when it has fewer than 2^16 instructions |
| InstructionDicts.ProgramComesBack | src/tracer/sinuca/trace_reader.cpp:112-144 | loading succeeds exactly when the header announces no more blocks than there are, with the dictionary of those announced |
| InstructionDicts.LoadsIffThere | src/tracer/sinuca/trace_reader.cpp:112-144 | for any file: loading succeeds exactly when so many blocks stand there, each a size record with that many instructions behind it |
| InstructionDicts.FitsIffAnnounced | src/tracer/sinuca/trace_reader.cpp:104-108 | the pool is large enough exactly when the header announces no fewer instructions than there are |
| InstructionDicts.RecordAndLoad | x86_trace_generator/utils/static_trace_writer.cpp:77-132 | a program recorded with the sizes announced anywhere and loaded again fills the tables with its dictionary |
| TraceReaders.SinucaTraceReader.OpenTrace | src/tracer/sinuca/trace_reader.cpp:29-82 | every thread stands at the start of its files and is awake |
| TraceReaders.SinucaTraceReader.HandleEvent | src/tracer/sinuca/trace_reader.cpp:239-293 | what each event changes of the counters and of the sleeping threads |
| TraceReaders.SinucaTraceReader.FetchBasicBlock | src/tracer/sinuca/trace_reader.cpp:223-320 | the loop over events up to the next block, with every way to stop |
| TraceReaders.SinucaTraceReader.FetchMemoryData | src/tracer/sinuca/trace_reader.cpp:207-221 | reads the next group of the thread into the 16 slots of each kind, or goes past them |
| TraceReaders.SinucaTraceReader.Fetch | src/tracer/sinuca/trace_reader.cpp:161-205 | one call as a function of the state of the reader |
| TraceReaders.FetchingMoves | src/tracer/sinuca/trace_reader.cpp:223-320 | looking for a block changes where the thread stands and nothing of the others; it passes over events only and ends on the identifier |
| ThreadEvents.EventOutcome | src/tracer/sinuca/trace_reader.cpp:239-293 | an abrupt end is the only event that sets the flag of that name, an end of region without a region the only one that fails, and the search goes on behind a start, an end or the last at a barrier only |
| ThreadEvents.PlainReadOutcome | src/tracer/sinuca/trace_reader.cpp:223-236 | a read that meets no event finds the block, or fails at the end of the file, which it marks, or at an unknown record |
| ThreadEvents.ResultOfCall | src/tracer/sinuca/trace_reader.cpp:161-182 | the end, a Nop without effect for a thread that sleeps or is read, and a Nop or an error for a search that finds nothing |
| ReplayFidelity.StepOfThread | src/tracer/sinuca/trace_reader.cpp:161-205 | a call hands out the next instruction of its thread with the next group of accesses, or delivers nothing |
| ReplayFidelity.NextGroup | src/tracer/sinuca/trace_reader.cpp:207-221 | reading gives the next recorded group and fails exactly when there is none left |
| ReplayFidelity.MissingAccessesFail | src/tracer/sinuca/trace_reader.cpp:207-221 | an instruction whose accesses were not recorded gives an error with the instruction in it, and the thread stays at it |
| ReplayFidelity.FailedReadMovesOn | src/tracer/sinuca/trace_reader.cpp:184-194 | when its accesses cannot be read the thread stays at the instruction, and its file is read behind the header exactly if there is one |
| ReplayFidelity.OutOfBounds | src/tracer/sinuca/trace_reader.cpp:184-205 | a call reads or writes out of bounds exactly when its block or instruction is not in the tables or its accesses go past the slots |
| ReplayFidelity.RunIsFaithful | src/tracer/sinuca/trace_reader.cpp:161-205 | the same for any sequence of calls, from any state |
| ReplayFidelity.ReplayIsFaithful | src/tracer/sinuca/trace_reader.cpp:161-320 | for all interleavings of the calls and all events in the traces, the packets of a thread are a prefix of its recorded blocks in order -- all of them when its file is read -- and the k-th memory instruction carries the k-th group (groups within the slots) |
| ReplayFidelity.ReplayCalls | src/tracer/sinuca/trace_reader.cpp:161-205 | the reader, called again and again, goes through the run of the theorems and gives what they say |
| ReplayFidelity.OpenAndReplay | src/tracer/sinuca/trace_reader.cpp:29-205 | the reader opens recorded traces and is called in any order: what a thread is given is a prefix of its recorded program with its accesses attached in order, the whole of it when its file was read |
| EndOfTrace.SearchFindsTheNext | src/tracer/sinuca/trace_reader.cpp:223-320 | with one thread, looking for a block finds the next one and fails exactly when none is left |
| EndOfTrace.ReplayIsComplete | src/tracer/sinuca/trace_reader.cpp:161-205 | a program of one thread is replayed whole: every instruction in order, then one Nop, then the end for ever |
| EndOfTrace.LastInstructionIsSentTwice | src/engine/engine.cpp:137-178 | from the trace files to the messages: the engine sends the recorded program in order, and then its last instruction once more |
| ReplayEnd.AbruptEndEnds | src/tracer/sinuca/trace_reader.cpp:247-251 | from any state, a call that finds an abrupt end gives nothing and ends the execution |
| ReplayEnd.EndedIff | src/tracer/sinuca/trace_reader.cpp:147-170 | in every run the execution has ended exactly when thread 0 has read past its file or a thread has read an abrupt end, and exactly then a call gives End |
| ReplayEnd.EndDecides | src/tracer/sinuca/trace_reader.cpp:147-170 | once a call ends the execution -- it takes thread 0 past its file or any thread to an abrupt end -- no thread is given anything more, and a thread was given its whole program exactly when at that call it was in no block and had none left to read |
| ReplayEnd.ThreadOneIsCutOff | src/tracer/sinuca/trace_reader.cpp:147-159 | two threads of one block each: after two calls for thread 0, thread 1 is never given its block |
| EvenTurns.AllAreCutOffEvenly | src/tracer/sinuca/trace_reader.cpp:147-205 | without thread events, called in turn: the execution ends in the round behind the last instruction of thread 0, and every thread has been given that many of its instructions, or all that it has |
| ReplayProgress.EndsIff | src/tracer/sinuca/trace_reader.cpp:147-303 | called in turn, as long as no region ends while a thread waits at a barrier, the execution ends exactly when thread 0 has no more barriers than any other thread and no other thread ends inside a region (regions nested and without barriers inside, no abrupt ends, accesses recorded) |
| ReplayProgress.ReplayEnds | src/tracer/sinuca/trace_reader.cpp:147-303 | with the regions of the other threads closed it ends exactly when thread 0 has no more barriers than any other thread |
| ReplayProgress.EndsIffFewestBarriers | src/tracer/sinuca/trace_reader.cpp:274-287 | without critical regions that is the condition for every program |
| ReplayProgress.EndsWithoutBarriers | src/tracer/sinuca/trace_reader.cpp:252-273 | without barriers, nested and closed regions never keep it from ending |
| ReplayProgress.EndsOnlyWithFewestBarriers | src/tracer/sinuca/trace_reader.cpp:274-287 | whatever the order of the calls: thread 0 is read past its file only if no other thread has fewer barriers |
| ReplayProgress.WaitsForNobody | src/tracer/sinuca/trace_reader.cpp:274-287 | a concrete program: thread 0 waits at a barrier that thread 1 does not have, and no calls end the execution |
| ReplayProgress.EndsInsideARegion | src/tracer/sinuca/trace_reader.cpp:252-258 | a concrete program: thread 1 ends inside a region, stays the only one awake, and thread 0 is never given its block |
| ReplayProgress.SomeoneMoves | src/tracer/sinuca/trace_reader.cpp:161-170 | until the execution has ended thread 0 can be moved on, or a thread that it waits for |
| ThreadScheduling.EventKeepsExclusion | src/tracer/sinuca/trace_reader.cpp:252-273 | an event keeps at most one thread in a critical region |
| ThreadScheduling.ExclusionHoldsIff | src/tracer/sinuca/trace_reader.cpp:252-287 | through a run of nested regions no thread may run, or is in a region, beside one that is in a region, exactly when no barrier is completed while criticalCont is positive |
| ThreadScheduling.StopsIffWaitsInside | src/tracer/sinuca/trace_reader.cpp:274-287 | as long as exclusion holds, a run puts everybody to sleep for ever exactly when a barrier is reached while criticalCont is positive and it is not the last to be reached |
| ThreadScheduling.CompletionBreaksExclusion | src/tracer/sinuca/trace_reader.cpp:274-282 | completing a barrier inside a region makes another thread runnable beside its owner |
| ThreadScheduling.MutualExclusion | src/tracer/sinuca/trace_reader.cpp:252-273 | for nested regions without barriers inside, after any run: the counter is positive exactly when a thread is in a region; it is the depth of that thread, which alone is in one and alone is awake, and a call for another gives nothing |
| BarrierRounds.WaitsAtBarrier | src/tracer/sinuca/trace_reader.cpp:274-287 | a thread that is not the last at the barrier waits |
| BarrierRounds.LastAtBarrier | src/tracer/sinuca/trace_reader.cpp:274-282 | the last one wakes all, and all have passed equally many barriers |
| BarrierRounds.DisturbanceIsUnsafe | src/tracer/sinuca/trace_reader.cpp:261-268 | ending the last region while a thread waits makes one runnable that is ahead of another |
| BarrierRounds.BarriersHoldIffQuiet | src/tracer/sinuca/trace_reader.cpp:234-303 | through a run no runnable thread is ever ahead of another, exactly when no region ends with criticalCont going to 0 while barrierCont is not 0 |
| BarrierRounds.BarrierSafety | src/tracer/sinuca/trace_reader.cpp:274-287 | without critical events, an instruction behind a k-th barrier is handed out only when every thread has come to its k-th barrier |
| BarrierRounds.SomebodyCanAdvance | src/tracer/sinuca/trace_reader.cpp:234-303 | in a quiet run with nested and closed regions: as long as a thread with the fewest barriers has records left, a thread that is awake has |
| BarrierRounds.AwakeThreadsAdvance | src/tracer/sinuca/trace_reader.cpp:161-205 | and a call for such a thread moves it on, unless the execution has ended |
| BarrierRounds.EverybodyAsleep | src/tracer/sinuca/trace_reader.cpp:274-287 | a concrete run: a barrier inside a region that is not the last to be reached, and no thread is given anything ever again |
| BarrierRounds.BothAwake | src/tracer/sinuca/trace_reader.cpp:274-282 | a concrete run: the last barrier is reached inside a region, and another thread is awake beside it |
| ThreadScheduling.AsleepForEver | src/tracer/sinuca/trace_reader.cpp:161-170 | with all threads asleep, or the execution ended, no call changes anything or gives a packet |
| BarrierRounds.EarlyWake | src/tracer/sinuca/trace_reader.cpp:261-268 | two threads: one waits at its barrier and is woken when the other leaves a region before reaching its own |
| Addresses.SixtyFourBits | src/utils/cache/cacheMemory.hpp:345-352 | addresses are the numbers of 64 bits |
| Addresses.SplitRecombines | src/utils/cache/cacheMemory.hpp:345-352 | tag, index and offset recombine to the 64-bit address |
| Addresses.SameTagAndIndex | src/utils/cache/cacheMemory.hpp:442-455 | tag and index agree exactly when the addresses agree above the offset bits |
| Addresses.IndexInRange | src/utils/cache/cacheMemory.hpp:447-450 | the index names an existing set |
| Addresses.LineOfFields | src/utils/cache/cacheMemory.hpp:447-455 | a tag and an index belong to exactly one line |
| CacheSets.CountersWrap | src/utils/cache/replacement_policies/lru.cpp:48-53 | the counters have 32 bits |
| CacheMemories.LRU.Acess | src/utils/cache/replacement_policies/lru.cpp:48-53 | the counters of the set count up in 32 bits, that of the way accessed is 0 |
| CacheMemories.LRU.SelectVictim | src/utils/cache/replacement_policies/lru.cpp:55-66 | the first way with the largest counter |
| CacheMemories.CacheMemory.Alocate | src/utils/cache/cacheMemory.hpp:329-383 | a cache without valid lines |
| CacheMemories.CacheMemory.GetEntry | src/utils/cache/cacheMemory.hpp:457-471 | the first valid line of the set with the tag |
| CacheMemories.CacheMemory.FindEmptyEntry | src/utils/cache/cacheMemory.hpp:473-486 | the first line of the set that is not valid |
| CacheMemories.CacheMemory.Read | src/utils/cache/cacheMemory.hpp:400-419 | gives the value of that line and touches it; nothing on a miss, which changes no line |
| CacheMemories.CacheMemory.Write | src/utils/cache/cacheMemory.hpp:421-440 | fills an empty way or replaces the victim, touches it, and changes no other set |
| ReuseDistance.HitIffRecentlyUsed | src/utils/cache/cacheMemory.hpp:400-440 | after any run of reads with a write on each miss, however long, an address hits exactly when its line was accessed and fewer than numWays distinct other lines of its set were accessed since -- unless a line still to be held was idle for 2^32 accesses to the set |
| ReuseDistance.ReadOrWrite | src/utils/cache/cacheMemory.hpp:400-440 | a read, and on a miss a write, of the cache is one access of the theorems |
| ReuseDistance.RunAccesses | src/utils/cache/cacheMemory.hpp:400-440 | a new cache after a run of them, in which no line still recent was idle for 2^32 accesses to its set, hits an address exactly when its line is recent |
| ReuseDistance.RightIffEvictsLongest | src/utils/cache/replacement_policies/lru.cpp:48-66 | hits and misses are right after every access of a run exactly when each eviction finds the line idle the longest also first among those with the largest age modulo 2^32 |
| ReuseDistance.CacheCounts | src/utils/cache/replacement_policies/lru.cpp:48-53 | in every run each counter is the age of its line modulo 2^32, and no set holds a line twice |
| ReuseDistance.AgedIffNoneIdle | src/utils/cache/replacement_policies/lru.cpp:48-53 | the counters are the ages exactly when no line still to be held was idle for 2^32 accesses |
| ReuseDistance.MissIsRight | src/utils/cache/replacement_policies/lru.cpp:55-66 | a miss leaves the lines it should exactly when there is a free way or the victim was idle the longest |
| ReuseDistance.ShortRunsAreSteady | src/utils/cache/replacement_policies/lru.cpp:48-53 | no line is idle that long within 2^32 accesses to its set |
| ReuseDistance.CacheTracks | src/utils/cache/replacement_policies/lru.cpp:48-66 | under that condition the resident lines are those accessed recently |
| ReuseDistance.VictimIsOldest | src/utils/cache/replacement_policies/lru.cpp:55-66 | every other resident line was accessed since the line idle the longest was |
| ReuseDistance.EvictionKeepsRecent | src/utils/cache/cacheMemory.hpp:427-431 | evicting that line makes it stale and no other |
| WrappedCounters.WrappedCounterEvictsTheNewest | src/utils/cache/replacement_policies/lru.cpp:48-53 | a concrete run: after a line was idle for 2^32 accesses the line used last is evicted |
| CacheAgreement.WriteKeepsUnique | src/utils/cache/cacheMemory.hpp:421-440 | a write keeps the set free of duplicates exactly when the line was not resident or its own way is chosen |
| CacheAgreement.ReadFindsTheWrite | src/utils/cache/cacheMemory.hpp:457-471 | a write is read back exactly when no earlier way holds the tag |
| CacheAgreement.SecondWriteIsNotRead | src/utils/cache/cacheMemory.hpp:421-440 | a concrete run from an empty set: a line written twice keeps its old value for Read |
| CacheAgreement.HitReturnsTheLatestWrite | src/utils/cache/cacheMemory.hpp:400-440 | under write-on-miss and any policy: no set holds a line twice and a hit gives the value written last to the line |
| Itlbs.iTLB.TakeIn | src/std_components/memory/itlb.cpp:73-83 | at most one request of each connection per clock, in connection order, remembered with its connection |
| Itlbs.iTLB.ServeOne | src/std_components/memory/itlb.cpp:85-124 | waits out a penalty, or serves the oldest request: a hit is answered, a miss is written and starts the penalty |
| Itlbs.iTLB.Clock | src/std_components/memory/itlb.cpp:70-125 | one clock as a function of queue, penalty, cache and connections |
| ItlbService.PenaltyInRange | src/std_components/memory/itlb.cpp:85-100 | the penalty is -1 or left of a miss; it goes down by one a clock, nothing else is served meanwhile, and the last clock of it answers the request |
| ItlbService.ClockConserves | src/std_components/memory/itlb.cpp:85-124 | a clock loses no request, exactly when the penalty is at least 1 or it starts no miss |
| ItlbService.AnsweredInOrderIffNothingIsLost | src/std_components/memory/itlb.cpp:70-125 | received = answered + in service + waiting, as sequences, exactly as long as nothing is lost; lost is one request for every clock that takes up a miss with a penalty of 0 |
| ItlbService.EveryRequestIsAnsweredInOrder | src/std_components/memory/itlb.cpp:70-125 | so with a penalty of at least 1 it holds in every state |
| ItlbService.FirstMissIsLost | src/std_components/memory/itlb.cpp:112-122 | a concrete run: a new TLB with a penalty of 0 never answers its first request |
| ItlbService.ServiceTimeIsExact | src/std_components/memory/itlb.cpp:85-124 | N waiting requests with M misses are all answered after N + M * missPenalty clocks and not before |
| ItlbService.CostInClosedForm | src/std_components/memory/itlb.cpp:112-122 | the work of a queue is a clock per request and the penalty per miss |
| ItlbAnswers.AnswersGoHome | src/std_components/memory/itlb.cpp:70-125 | over any run with swaps and any use by the requesters: each connection is delivered exactly the addresses of the answered requests that came in on it, in order, and these with those in service or waiting are what its requester asked for before |
| ItlbAnswers.TakenFromEach | src/std_components/memory/itlb.cpp:73-83 | a clock takes from every connection its first request, if there is one, remembers it as that connection's and leaves the others |
| ItlbAnswers.TakenIsAsked | src/std_components/memory/itlb.cpp:73-83 | over any run: what was taken in from a connection is the first request put on it in every cycle but the last, whatever order and number of operations |
| ItlbAnswers.OneCycle | src/std_components/memory/itlb.cpp:70-125 | requesters, TLB and swap, each by its own calls, go through exactly one cycle of these runs |
| ItlbAnswers.AnswerGoesHome | src/std_components/memory/itlb.cpp:93-94 | an answer can be read in the next cycle on the connection of its request and on no other |
| ItlbReuse.MissesAreStale | src/std_components/memory/itlb.cpp:112-122 | the misses of a queue are exactly the requests whose line was not used recently, unless a line was idle for 2^32 requests |
| ItlbReuse.FewRequestsAreSteady | src/std_components/memory/itlb.cpp:112-122 | no line is idle that long within 2^32 requests |
| ItlbReuse.CostOfAddresses | src/std_components/memory/itlb.cpp:85-124 | the time to answer a queue, from the addresses asked for alone |
| ReturnAddressStack.Ras.RequestQuery | src/std_components/predictors/ras.cpp:41-55 | the newest entry is the prediction and becomes the oldest; it is sent back on the connection of the query, and forwarded if there is somebody to forward to |
| ReturnAddressStack.Ras.RequestUpdate | src/std_components/predictors/ras.cpp:57-62 | the address is the newest entry, the oldest is lost |
| ReturnAddressStack.Ras.Clock | src/std_components/predictors/ras.cpp:64-85 | one request of each connection in order, each served by a query, an update or nothing |
| ReturnAddressStack.OnlyOneIsServed | src/std_components/predictors/ras.cpp:64-85 | a clock that finds a single request is the service of that one |
| ReturnAddressStack.EveryConnectionIsServed | src/std_components/predictors/ras.cpp:64-85 | a clock applies the pushes and pops of the first requests of all connections to the stack, in order, and forwards all its answers |
| ReturnAddressStack.AnsweredOnItsOwn | src/std_components/predictors/ras.cpp:41-55 | each query is answered on its own connection with the top of the stack as the connections before left it |
| ReturnAddressStack.AgreesOnLiveEntries | src/std_components/predictors/ras.cpp:41-62 | over any pushes and pops the array is an unbounded stack as far as its live entries go |
| ReturnAddressStack.CallsLoseTheOldest | src/std_components/predictors/ras.cpp:41-62 | calls and returns change as many of the oldest entries as they nest deep and no others |
| ReturnAddressStack.ExactIffShallow | src/std_components/predictors/ras.cpp:41-62 | from any state a return is predicted exactly when its body nests less deep than the stack is large (its address not used inside) |
| ReturnAddressStack.WrongOnesAreTheDeep | src/std_components/predictors/ras.cpp:41-62 | over any run of calls, return by return: a mispredicted one is that of a call that nests too deep, and with addresses that differ all of those are mispredicted |
| ReturnAddressStack.MispredictionsAreTheTooDeep | src/std_components/predictors/ras.cpp:41-62 | so there are at most as many mispredictions as calls that nest too deep, and exactly as many if their addresses differ |
| ReturnAddressStack.ShallowCallsArePredicted | src/std_components/predictors/ras.cpp:41-62 | calls that nest no deeper than the stack is large are all predicted |
| ReturnAddressStack.Drive | src/std_components/predictors/ras.cpp:64-85 | the same over a connection, with update messages for calls, query messages for returns and the answers one cycle later |
| HashMaps.Hash | src/utils/map.cpp:29-41 | the hash in 32-bit arithmetic is the exact polynomial modulo 4096; 0 for the empty key |
| HashMaps.HashOfThree | src/utils/map.cpp:29-41 | three bytes a, b, c hash to a + 71 b + 71^2 c modulo 4096 |
| HashMaps.Map.LinkBehind | src/utils/map.hpp:86-91 | a node goes to the end of its chain; other chains stay |
| HashMaps.Map.Insert | src/utils/map.hpp:82-94 | the pair is inserted behind all others of its bucket |
| HashMaps.Map.Get | src/utils/map.hpp:96-107 | the value inserted first for the key, or nothing |
| HashMaps.Map.ResetIterator | src/utils/map.hpp:109-112 | starts from the first bucket |
| HashMaps.Map.Next | src/utils/map.hpp:114-139 | gives the next of the pairs left; behind the last one nothing, and starts again |
| HashMaps.FirstInBucket | src/utils/map.hpp:96-107 | looking only at the bucket finds what looking at all insertions finds |
| HashMaps.FirstIsFirst | src/utils/map.hpp:96-107 | what is found is the value of a pair with the key before which there is no other |
| HashMaps.BucketsInOrder | src/utils/map.hpp:114-139 | the iterator gives the pairs bucket by bucket, in order |
| HashMaps.Enumerate | src/utils/map.hpp:109-139 | from a reset iterator every inserted pair is given exactly once, duplicates included, and then nothing |

## Left out

- TraceReaders.SinucaTraceReader: the files of a thread are values; the readers of `DynamicTrace.dfy` and `MemoryTrace.dfy` are proved to behave like them. The counters that the program keeps in function statics are fields.
- MemoryTraces.MemoryTraceReader.ReadMemoryOperations: the accesses of a packet are sequences of at most 16; where the program writes past its 16 slots the reader here stops and says so, and what is overwritten then is not modelled.
- StaticTraces.StaticTraceReader.TranslateRawInstructionToSinucaInst: the registers of an instruction are the occupied part of its two register arrays, and a mnemonic is a string without a bound.
- InstructionDicts.InstructionDict.GenerateInstructionDict: requires the pool to be as large as the header must promise (`FitsIffAnnounced`); writing past it is not modelled.
- Fetchers.Fetcher.Clock: without a predictor, whose answers are matched from index 0 and whose absence counts as a misprediction; the penalty that only a predictor starts is not modelled.
- Fetchers.Fetcher.ClockFetch: requires a free slot for the attempt that finds nothing; `TheLoopIsSafe` shows that there always is one. Writing past the buffer is not modelled.
- ReplayProgress.EndsIff: runs in which a region ends while a thread waits at a barrier are left out, because the wakened threads run ahead of the barrier; so are programs with barriers inside regions, for which `ExclusionHoldsIff` and `StopsIffWaitsInside` say what happens, and recordings that lack accesses, for which the reader fails.
- Engines.Engine: what the trace reader gives is a function from the number of the call, so a core sees its own sequence of results; cycles and heartbeat output are not modelled.
- DelayQueues.DelayQueue.Clock: the cycle counter has no bound, as the documentation of the component asks for.
- DelayQueues.DelayQueue.Configure: throughput 0 is excluded when there is a delay; the program then asks for a ring of -1 elements.
- ReuseDistance.HitIffRecentlyUsed: runs of reads with a write on each miss, as the TLB does, in which no recent line is idle for 2^32 accesses to its set (`RightIffEvictsLongest` has the exact condition for all runs); the random and the round-robin policy are covered by `HitReturnsTheLatestWrite` only, for any choice of a way.
- CacheMemories.CacheMemory.Alocate: takes the numbers of bits; computing them from sizes with a floating-point logarithm is not modelled.
- ReturnAddressStack.Ras.Clock: the counts of queries and updates, which the program does not initialise, are not modelled, nor is the warning for other messages.
- HashMaps.Map.Get: gives the value, not a pointer through which it could be changed; keys are byte strings and memory is not taken from an arena. `StringMap` repeats the same code.
- The fetched-instruction count of a thread, which the program does not initialise, and the counts in the file headers other than as parameters of the loader.
- A failed dequeue clears the caller's memory in the program; here it gives nothing.
- Files, memory mapping, headers as bytes, printing, statistics, and running out of memory.
- Configuration files and the components not named above: boom fetch, branch target buffer, gshare, interleaved predictors, debug and simple components, and the Pin tool.
