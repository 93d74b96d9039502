// The trace of the memory accesses of one thread: its writer
// (x86_trace_generator/utils/memory_trace_writer.cpp) and its reader
// (src/tracer/sinuca/utils/memory_trace_reader.cpp).
module MemoryTraces {
  import opened TraceFiles
  import opened Packets

  datatype MemoryOperation = MemoryOperation(address: nat, size: nat, isLoad: bool)

  // The record holds the count of a group as a signed 32-bit number ...
  function Int32(n: nat): int {
    var low := n % 0x1_0000_0000;
    if low < 0x8000_0000 then low else low - 0x1_0000_0000
  }

  // Counts below 2^31 are kept; the first one above is negative.
  lemma Int32Wraps(n: nat)
    ensures -0x8000_0000 <= Int32(n) < 0x8000_0000 && (n - Int32(n)) % 0x1_0000_0000 == 0
    ensures n < 0x8000_0000 ==> Int32(n) == n
    ensures n == 0x8000_0000 ==> Int32(n) == -0x8000_0000
  {
    var words := n / 0x1_0000_0000;
    assert n == words * 0x1_0000_0000 + n % 0x1_0000_0000;
  }

  // ... and the size of an access as an unsigned 16-bit number.
  function Uint16(n: nat): nat {
    n % 0x1_0000
  }

  function RecordOf(operation: MemoryOperation): MemoryRecord {
    if operation.isLoad then MemoryLoad(operation.address, Uint16(operation.size))
    else MemoryStore(operation.address, Uint16(operation.size))
  }

  function EncodeOperations(operations: seq<MemoryOperation>): (records: seq<MemoryRecord>)
    ensures |records| == |operations|
  {
    if operations == [] then [] else [RecordOf(operations[0])] + EncodeOperations(operations[1..])
  }

  // The calling discipline of the trace generator: the count, then that many operations.
  function EncodeGroup(group: seq<MemoryOperation>): seq<MemoryRecord> {
    [MemoryHeader(Int32(|group|))] + EncodeOperations(group)
  }

  function EncodeAll(groups: seq<seq<MemoryOperation>>): seq<MemoryRecord> {
    if groups == [] then [] else EncodeGroup(groups[0]) + EncodeAll(groups[1..])
  }

  class MemoryTraceWriter {
    const records: RecordWriter<MemoryRecord>

    ghost predicate Valid()
      reads this, records, records.recordArray
    {
      records.Valid()
    }

    constructor OpenFile()
      ensures Valid() && fresh(records) && fresh(records.recordArray)
      ensures records.Written() == []
    {
      records := new RecordWriter<MemoryRecord>.OpenFile();
    }

    method AddNumberOfMemOperations(numMemOps: nat)
      requires Valid()
      modifies records, records.recordArray
      ensures Valid()
      ensures records.Written() == old(records.Written()) + [MemoryHeader(Int32(numMemOps))]
    {
      records.AddRecord(MemoryHeader(Int32(numMemOps)));
    }

    method AddMemOp(address: nat, size: nat, isLoadOp: bool)
      requires Valid()
      modifies records, records.recordArray
      ensures Valid()
      ensures records.Written() == old(records.Written()) + [RecordOf(MemoryOperation(address, size, isLoadOp))]
    {
      records.AddRecord(if isLoadOp then MemoryLoad(address, Uint16(size)) else MemoryStore(address, Uint16(size)));
    }
  }

  // ------ What a reader does, on values

  // A reader that has consumed the first `position` records of its file.
  datatype MemorySource = MemorySource(file: seq<MemoryRecord>, position: nat, reachedEnd: bool) {
    ghost predicate Valid() {
      position <= |file|
    }
  }

  // Reading ends well, fails, or goes past the slots of the packet.
  datatype Outcome = Done | Failed | PastSlots

  // The outcome of reading one group: where the reader now stands, the packet with the
  // accesses added, and how it ended.
  datatype MemoryRead = MemoryRead(source: MemorySource, packet: InstructionPacket, outcome: Outcome)

  function AddLoad(packet: InstructionPacket, access: MemoryAccess): InstructionPacket {
    packet.(loads := packet.loads + [access])
  }

  function AddStore(packet: InstructionPacket, access: MemoryAccess): InstructionPacket {
    packet.(stores := packet.stores + [access])
  }

  function TakeOperations(source: MemorySource, count: int, packet: InstructionPacket): MemoryRead
    requires source.Valid()
    decreases |source.file| - source.position
  {
    if count <= 0 then MemoryRead(source, packet, Done)
    else if source.position == |source.file| then MemoryRead(source.(reachedEnd := true), packet, Failed)
    else
      var next := source.(position := source.position + 1);
      match source.file[source.position]
      case MemoryLoad(address, size) =>
        if |packet.loads| >= MAX_MEM_OPERATIONS then MemoryRead(source, packet, PastSlots)
        else TakeOperations(next, count - 1, AddLoad(packet, MemoryAccess(address, size)))
      case MemoryStore(address, size) =>
        if |packet.stores| >= MAX_MEM_OPERATIONS then MemoryRead(source, packet, PastSlots)
        else TakeOperations(next, count - 1, AddStore(packet, MemoryAccess(address, size)))
      case _ => MemoryRead(source, packet, Failed)
  }

  function ReadGroup(source: MemorySource, packet: InstructionPacket): MemoryRead
    requires source.Valid()
  {
    if source.reachedEnd then MemoryRead(source, packet, Failed)
    else if source.position == |source.file| then MemoryRead(source.(reachedEnd := true), packet, Failed)
    else match source.file[source.position]
      case MemoryHeader(count) => TakeOperations(source.(position := source.position + 1), count, packet)
      case _ => MemoryRead(source, packet, Failed)
  }

  class MemoryTraceReader {
    const chunk: RecordChunk<MemoryRecord>
    var recordArrayIndex: nat
    var reachedEnd: bool

    ghost predicate Valid()
      reads this, chunk, chunk.recordArray
    {
      chunk.Valid() && recordArrayIndex <= chunk.numberOfRecordsRead
    }

    ghost function Source(): MemorySource
      requires Valid()
      reads this, chunk, chunk.recordArray
    {
      MemorySource(chunk.file, chunk.filePosition - chunk.numberOfRecordsRead + recordArrayIndex, reachedEnd)
    }

    constructor OpenFile(file: seq<MemoryRecord>)
      ensures Valid() && fresh(chunk) && fresh(chunk.recordArray)
      ensures Source() == MemorySource(file, 0, false)
    {
      chunk := new RecordChunk<MemoryRecord>.OpenFile(file);
      recordArrayIndex := 0;
      reachedEnd := false;
    }

    // Makes sure that the reader stands on a record; fails at the end of the file.
    method StandOnRecord() returns (failed: bool)
      requires Valid() && !reachedEnd
      modifies this, chunk, chunk.recordArray
      ensures Valid() && Source() == old(Source()).(reachedEnd := failed)
      ensures failed <==> Source().position == |chunk.file|
      ensures !failed ==> recordArrayIndex < chunk.numberOfRecordsRead
    {
      failed := false;
      if recordArrayIndex == chunk.numberOfRecordsRead {
        failed := chunk.LoadRecordArray();
        recordArrayIndex := 0;
        reachedEnd := failed;
      }
    }

    // One turn of the loop over the operations of a group.
    method ReadOperation(inst: InstructionPacket, ghost count: int)
      returns (packet: InstructionPacket, outcome: Outcome)
      requires Valid() && !reachedEnd && count > 0
      modifies this, chunk, chunk.recordArray
      ensures Valid()
      ensures !outcome.Done? ==> MemoryRead(Source(), packet, outcome) == TakeOperations(old(Source()), count, inst)
      ensures outcome.Done? ==> !reachedEnd
      ensures outcome.Done? ==>
        TakeOperations(Source(), count - 1, packet) == TakeOperations(old(Source()), count, inst)
    {
      packet := inst;
      var failed := StandOnRecord();
      if failed {
        return packet, Failed;
      }
      match chunk.recordArray[recordArrayIndex] {
        case MemoryLoad(address, size) =>
          if |packet.loads| >= MAX_MEM_OPERATIONS {
            return packet, PastSlots;
          }
          packet := AddLoad(packet, MemoryAccess(address, size));
        case MemoryStore(address, size) =>
          if |packet.stores| >= MAX_MEM_OPERATIONS {
            return packet, PastSlots;
          }
          packet := AddStore(packet, MemoryAccess(address, size));
        case _ => return packet, Failed;
      }
      recordArrayIndex := recordArrayIndex + 1;
      outcome := Done;
    }

    // Where the program would write past the slots of the packet, the model stops.
    method ReadMemoryOperations(inst: InstructionPacket) returns (packet: InstructionPacket, outcome: Outcome)
      requires Valid()
      modifies this, chunk, chunk.recordArray
      ensures Valid()
      ensures MemoryRead(Source(), packet, outcome) == ReadGroup(old(Source()), inst)
    {
      packet := inst;
      if reachedEnd {
        return packet, Failed;
      }
      var failed := StandOnRecord();
      if failed || !chunk.recordArray[recordArrayIndex].MemoryHeader? {
        return packet, Failed;
      }
      var totalMemOps := chunk.recordArray[recordArrayIndex].numberOfMemoryOps;
      recordArrayIndex := recordArrayIndex + 1;
      ghost var first := Source();
      var i := 0;
      outcome := Done;
      while i < totalMemOps
        invariant Valid() && !reachedEnd && outcome.Done?
        invariant TakeOperations(Source(), totalMemOps - i, packet) == TakeOperations(first, totalMemOps, inst)
      {
        packet, outcome := ReadOperation(packet, totalMemOps - i);
        if !outcome.Done? {
          return;
        }
        i := i + 1;
      }
    }
  }

  // ------ One group

  function Loads(operations: seq<MemoryOperation>): seq<MemoryAccess> {
    if operations == [] then []
    else if operations[0].isLoad then
      [MemoryAccess(operations[0].address, operations[0].size)] + Loads(operations[1..])
    else Loads(operations[1..])
  }

  function Stores(operations: seq<MemoryOperation>): seq<MemoryAccess> {
    if operations == [] then []
    else if operations[0].isLoad then Stores(operations[1..])
    else [MemoryAccess(operations[0].address, operations[0].size)] + Stores(operations[1..])
  }

  // The packet with the accesses of a group behind its own.
  function WithAccesses(packet: InstructionPacket, operations: seq<MemoryOperation>): InstructionPacket {
    packet.(loads := packet.loads + Loads(operations), stores := packet.stores + Stores(operations))
  }

  ghost predicate SizesFit(operations: seq<MemoryOperation>) {
    forall k :: 0 <= k < |operations| ==> operations[k].size < 0x1_0000
  }

  function Truncated(operations: seq<MemoryOperation>): (r: seq<MemoryOperation>)
    ensures |r| == |operations|
  {
    if operations == [] then []
    else [operations[0].(size := Uint16(operations[0].size))] + Truncated(operations[1..])
  }

  ghost predicate Holds(source: MemorySource, operations: seq<MemoryOperation>) {
    && source.position + |operations| <= |source.file|
    && forall k :: 0 <= k < |operations| ==> source.file[source.position + k] == RecordOf(operations[k])
  }

  function WithAccess(packet: InstructionPacket, operation: MemoryOperation): InstructionPacket {
    var access := MemoryAccess(operation.address, operation.size);
    if operation.isLoad then AddLoad(packet, access) else AddStore(packet, access)
  }

  // The packet has a slot left for every access of a group.
  ghost predicate HasRoom(packet: InstructionPacket, operations: seq<MemoryOperation>) {
    && |packet.loads| + |Loads(operations)| <= MAX_MEM_OPERATIONS
    && |packet.stores| + |Stores(operations)| <= MAX_MEM_OPERATIONS
  }

  // An empty packet takes 16 loads and 16 stores.
  lemma SixteenOfAKind(packet: InstructionPacket, operations: seq<MemoryOperation>)
    requires packet.loads == packet.stores == []
    ensures HasRoom(packet, operations) <==> |Loads(operations)| <= 16 && |Stores(operations)| <= 16
  {
  }

  lemma {:induction false} LoadsAndStores(operations: seq<MemoryOperation>)
    ensures |Loads(operations)| + |Stores(operations)| == |operations|
  {
    if operations != [] {
      LoadsAndStores(operations[1..]);
    }
  }

  ghost predicate HasSlot(packet: InstructionPacket, operation: MemoryOperation) {
    if operation.isLoad then |packet.loads| < MAX_MEM_OPERATIONS else |packet.stores| < MAX_MEM_OPERATIONS
  }

  // Room for a group is a slot for its first access and then room for the others.
  lemma RoomOneByOne(packet: InstructionPacket, operations: seq<MemoryOperation>, access: MemoryOperation)
    requires operations != [] && access.isLoad == operations[0].isLoad
    ensures HasRoom(packet, operations)
      <==> HasSlot(packet, access) && HasRoom(WithAccess(packet, access), operations[1..])
  {
  }

  lemma OneTurn(source: MemorySource, operations: seq<MemoryOperation>, packet: InstructionPacket)
    requires Holds(source, operations) && operations != []
    ensures TakeOperations(source, |operations|, packet)
      == if HasSlot(packet, operations[0]) then
           TakeOperations(source.(position := source.position + 1), |operations| - 1,
             WithAccess(packet, Truncated(operations)[0]))
         else MemoryRead(source, packet, PastSlots)
  {
    assert source.file[source.position + 0] == RecordOf(operations[0]);
  }

  lemma OthersHeld(source: MemorySource, operations: seq<MemoryOperation>)
    requires Holds(source, operations) && operations != []
    ensures Holds(source.(position := source.position + 1), operations[1..])
  {
    forall k | 0 <= k < |operations| - 1
      ensures source.file[source.position + 1 + k] == RecordOf(operations[1..][k])
    {
      assert source.file[source.position + (1 + k)] == RecordOf(operations[1 + k]);
    }
  }

  // Reading as many operations as were written gives them back with truncated sizes,
  // given room for them; without, it goes past the slots.
  lemma {:induction false} OperationsComeBack(source: MemorySource, operations: seq<MemoryOperation>,
      packet: InstructionPacket)
    requires Holds(source, operations)
    requires |packet.loads| <= MAX_MEM_OPERATIONS && |packet.stores| <= MAX_MEM_OPERATIONS
    ensures HasRoom(packet, operations) ==>
      TakeOperations(source, |operations|, packet)
        == MemoryRead(source.(position := source.position + |operations|),
          WithAccesses(packet, Truncated(operations)), Done)
    ensures !HasRoom(packet, operations) ==> TakeOperations(source, |operations|, packet).outcome == PastSlots
    decreases |operations|
  {
    if operations == [] {
      assert WithAccesses(packet, []) == packet;
    } else {
      var first, tail := Truncated(operations)[0], operations[1..];
      assert Truncated(operations)[1..] == Truncated(tail);
      OneTurn(source, operations, packet);
      OthersHeld(source, operations);
      RoomOneByOne(packet, operations, first);
      if HasSlot(packet, first) {
        OperationsComeBack(source.(position := source.position + 1), tail, WithAccess(packet, first));
        OneByOne(packet, Truncated(operations));
      }
    }
  }

  lemma OneByOne(packet: InstructionPacket, operations: seq<MemoryOperation>)
    requires operations != []
    ensures WithAccesses(WithAccess(packet, operations[0]), operations[1..]) == WithAccesses(packet, operations)
  {
    if operations[0].isLoad {
      assert packet.loads + Loads(operations)
        == packet.loads + [MemoryAccess(operations[0].address, operations[0].size)] + Loads(operations[1..]);
    } else {
      assert packet.stores + Stores(operations)
        == packet.stores + [MemoryAccess(operations[0].address, operations[0].size)] + Stores(operations[1..]);
    }
  }

  // No more is consumed than was asked for.
  lemma {:induction false} ReadingIsBounded(source: MemorySource, count: int, packet: InstructionPacket)
    requires source.Valid()
    ensures var next := TakeOperations(source, count, packet).source;
      next.file == source.file
      && source.position <= next.position <= |next.file|
      && next.position <= source.position + if count > 0 then count else 0
    decreases |source.file| - source.position
  {
    if count > 0 && source.position < |source.file| {
      var next := source.(position := source.position + 1);
      match source.file[source.position]
      case MemoryLoad(address, size) =>
        ReadingIsBounded(next, count - 1, AddLoad(packet, MemoryAccess(address, size)));
      case MemoryStore(address, size) =>
        ReadingIsBounded(next, count - 1, AddStore(packet, MemoryAccess(address, size)));
      case _ =>
    }
  }

  lemma {:induction false} TruncationIsExact(operations: seq<MemoryOperation>)
    ensures SizesFit(operations)
      <==> Loads(Truncated(operations)) == Loads(operations) && Stores(Truncated(operations)) == Stores(operations)
    decreases |operations|
  {
    if operations != [] {
      TruncationIsExact(operations[1..]);
      var first, cut := operations[0], Truncated(operations)[0];
      assert Truncated(operations)[1..] == Truncated(operations[1..]);
      assert SizesFit(operations) <==> first.size < 0x1_0000 && SizesFit(operations[1..]);
      if first.isLoad {
        assert Loads(operations)[0].size == first.size && Loads(operations)[1..] == Loads(operations[1..]);
        assert Loads(Truncated(operations))[0].size == cut.size
          && Loads(Truncated(operations))[1..] == Loads(Truncated(operations[1..]));
      } else {
        assert Stores(operations)[0].size == first.size && Stores(operations)[1..] == Stores(operations[1..]);
        assert Stores(Truncated(operations))[0].size == cut.size
          && Stores(Truncated(operations))[1..] == Stores(Truncated(operations[1..]));
      }
    }
  }

  // A group is read back as it was written -- its loads and its stores, each in their
  // order, and the reader just behind it -- exactly when the records hold its sizes and
  // the packet has a slot for each of its accesses.
  lemma GroupComesBack(before: seq<MemoryRecord>, group: seq<MemoryOperation>, rest: seq<MemoryRecord>,
      packet: InstructionPacket)
    requires |packet.loads| <= MAX_MEM_OPERATIONS && |packet.stores| <= MAX_MEM_OPERATIONS
    ensures var source := MemorySource(before + EncodeGroup(group) + rest, |before|, false);
      ReadGroup(source, packet)
        == MemoryRead(source.(position := |before| + 1 + |group|), WithAccesses(packet, group), Done)
      <==> SizesFit(group) && HasRoom(packet, group)
  {
    var source := MemorySource(before + EncodeGroup(group) + rest, |before| + 1, false);
    GroupHeld(before, group, rest);
    LoadsAndStores(group);
    if |group| < 0x8000_0000 {
      OperationsComeBack(source, group, packet);
      SameAccesses(packet, group);
    } else {
      ReadingIsBounded(source, Int32(|group|), packet);
    }
  }

  lemma SameAccesses(packet: InstructionPacket, group: seq<MemoryOperation>)
    ensures WithAccesses(packet, Truncated(group)) == WithAccesses(packet, group) <==> SizesFit(group)
  {
    TruncationIsExact(group);
    SameTail(packet.loads, Loads(Truncated(group)), Loads(group));
    SameTail(packet.stores, Stores(Truncated(group)), Stores(group));
  }

  lemma GroupHeld(before: seq<MemoryRecord>, group: seq<MemoryOperation>, rest: seq<MemoryRecord>)
    ensures var file := before + EncodeGroup(group) + rest;
      file[|before|] == MemoryHeader(Int32(|group|)) && Holds(MemorySource(file, |before| + 1, false), group)
  {
    EncodedOperations(group);
  }

  // The header says how many accesses are read: of a group of less than 2^31 all of them.
  // Reading goes past the slots exactly when those are too many of a kind.
  lemma PastSlotsIffTooMany(before: seq<MemoryRecord>, group: seq<MemoryOperation>, rest: seq<MemoryRecord>,
      packet: InstructionPacket)
    requires |packet.loads| <= MAX_MEM_OPERATIONS && |packet.stores| <= MAX_MEM_OPERATIONS
    ensures var count := Int32(|group|);
      && (|group| < 0x8000_0000 ==> count == |group|) && count <= |group|
      && (ReadGroup(MemorySource(before + EncodeGroup(group) + rest, |before|, false), packet).outcome == PastSlots
        <==> count > 0 && !HasRoom(packet, group[..count]))
  {
    var source, count := MemorySource(before + EncodeGroup(group) + rest, |before| + 1, false), Int32(|group|);
    GroupHeld(before, group, rest);
    if count > 0 {
      assert Holds(source, group[..count]);
      OperationsComeBack(source, group[..count], packet);
    }
  }

  // Reading more operations than there are reads those there are.
  lemma {:induction false} ReadThoseThereAre(source: MemorySource, operations: seq<MemoryOperation>,
      packet: InstructionPacket, extra: nat)
    requires Holds(source, operations) && HasRoom(packet, operations)
    ensures TakeOperations(source, |operations| + extra, packet)
      == TakeOperations(source.(position := source.position + |operations|), extra,
        WithAccesses(packet, Truncated(operations)))
    decreases |operations|
  {
    if operations == [] {
      assert WithAccesses(packet, []) == packet;
    } else {
      var first, tail := Truncated(operations)[0], operations[1..];
      assert Truncated(operations)[1..] == Truncated(tail);
      FirstOfMore(source, operations, packet, extra);
      OthersHeld(source, operations);
      RoomOneByOne(packet, operations, first);
      ReadThoseThereAre(source.(position := source.position + 1), tail, WithAccess(packet, first), extra);
      OneByOne(packet, Truncated(operations));
    }
  }

  lemma FirstOfMore(source: MemorySource, operations: seq<MemoryOperation>, packet: InstructionPacket, extra: nat)
    requires Holds(source, operations) && operations != [] && HasSlot(packet, operations[0])
    ensures TakeOperations(source, |operations| + extra, packet)
      == TakeOperations(source.(position := source.position + 1), |operations| - 1 + extra,
        WithAccess(packet, Truncated(operations)[0]))
  {
    assert source.file[source.position + 0] == RecordOf(operations[0]);
  }

  // A group that is cut short fails with the accesses it has: at the end of the file, which
  // is noted, or on a record that is no access, which is not consumed as one.
  lemma CutShort(source: MemorySource, operations: seq<MemoryOperation>, packet: InstructionPacket, extra: nat)
    requires Holds(source, operations) && HasRoom(packet, operations) && extra > 0 && !source.reachedEnd
    requires var end := source.position + |operations|;
      end == |source.file| || !(source.file[end].MemoryLoad? || source.file[end].MemoryStore?)
    ensures var read := TakeOperations(source, |operations| + extra, packet);
      && read.outcome == Failed && read.packet == WithAccesses(packet, Truncated(operations))
      && (read.source.reachedEnd <==> source.position + |operations| == |source.file|)
      && read.source.position == source.position + |operations|
  {
    ReadThoseThereAre(source, operations, packet, extra);
  }

  predicate AtHeader(source: MemorySource) {
    !source.reachedEnd && source.position < |source.file| && source.file[source.position].MemoryHeader?
  }

  // Without a header there is no group.
  lemma NoHeaderFails(source: MemorySource, packet: InstructionPacket)
    requires source.Valid() && !AtHeader(source)
    ensures var read := ReadGroup(source, packet);
      && read.outcome == Failed && read.packet == packet && read.source.position == source.position
      && (read.source.reachedEnd <==> source.reachedEnd || source.position == |source.file|)
  {
  }

  // A count of 2^31 or more is read as a negative one: the group has no accesses then, and
  // its records come where the next header should be.
  lemma LargeCountsReadNothing(source: MemorySource, group: seq<MemoryOperation>, packet: InstructionPacket)
    requires AtHeader(source) && source.file[source.position] == MemoryHeader(Int32(|group|))
    requires 0x8000_0000 <= |group| <= 0x1_0000_0000
    ensures ReadGroup(source, packet) == MemoryRead(source.(position := source.position + 1), packet, Done)
  {
  }

  lemma {:induction false} EncodedOperations(operations: seq<MemoryOperation>)
    ensures forall k :: 0 <= k < |operations| ==> EncodeOperations(operations)[k] == RecordOf(operations[k])
  {
    if operations != [] {
      EncodedOperations(operations[1..]);
    }
  }

  lemma SameTail<T>(s: seq<T>, a: seq<T>, b: seq<T>)
    ensures s + a == s + b <==> a == b
  {
    assert a == (s + a)[|s|..];
    assert b == (s + b)[|s|..];
  }

  // ------ The whole trace

  lemma ReadingMovesOn(source: MemorySource, packet: InstructionPacket)
    requires source.Valid()
    ensures var read := ReadGroup(source, packet);
      read.source.file == source.file
      && read.source.Valid()
      && source.position <= read.source.position
      && (source.position < read.source.position <==> AtHeader(source))
      && (read.outcome.Done? ==> source.position < read.source.position)
  {
    if source.position < |source.file| && source.file[source.position].MemoryHeader? {
      ReadingIsBounded(source.(position := source.position + 1),
        source.file[source.position].numberOfMemoryOps, packet);
    }
  }

  // Reading groups into blank packets until a read fails.
  function DecodeAll(source: MemorySource): (seq<InstructionPacket>, MemorySource)
    requires source.Valid()
    decreases |source.file| - source.position
  {
    ReadingMovesOn(source, BLANK_PACKET);
    var read := ReadGroup(source, BLANK_PACKET);
    if !read.outcome.Done? then ([], read.source)
    else
      var (packets, last) := DecodeAll(read.source);
      ([read.packet] + packets, last)
  }

  function PacketsOf(groups: seq<seq<MemoryOperation>>): seq<InstructionPacket> {
    if groups == [] then [] else [WithAccesses(BLANK_PACKET, groups[0])] + PacketsOf(groups[1..])
  }

  // What was written is what is read, and then the end is clean: the read after the last
  // group fails because the file has ended.
  lemma {:induction false} TraceComesBack(before: seq<MemoryRecord>, groups: seq<seq<MemoryOperation>>)
    requires forall k :: 0 <= k < |groups| ==> SizesFit(groups[k]) && HasRoom(BLANK_PACKET, groups[k])
    ensures var file := before + EncodeAll(groups);
      DecodeAll(MemorySource(file, |before|, false)) == (PacketsOf(groups), MemorySource(file, |file|, true))
    decreases |groups|
  {
    var file := before + EncodeAll(groups);
    if groups != [] {
      var rest := EncodeAll(groups[1..]);
      assert before + EncodeGroup(groups[0]) + rest == file;
      var next := MemorySource(file, |before| + 1 + |groups[0]|, false);
      assert ReadGroup(MemorySource(file, |before|, false), BLANK_PACKET)
        == MemoryRead(next, WithAccesses(BLANK_PACKET, groups[0]), Done) by {
        GroupComesBack(before, groups[0], rest, BLANK_PACKET);
      }
      TraceComesBack(before + EncodeGroup(groups[0]), groups[1..]);
    }
  }

  method StoreGroup(writer: MemoryTraceWriter, group: seq<MemoryOperation>)
    requires writer.Valid()
    modifies writer.records, writer.records.recordArray
    ensures writer.Valid()
    ensures writer.records.Written() == old(writer.records.Written()) + EncodeGroup(group)
  {
    ghost var all := writer.records.Written() + EncodeGroup(group);
    writer.AddNumberOfMemOperations(|group|);
    assert group[0..] == group;
    for i := 0 to |group|
      invariant writer.Valid()
      invariant writer.records.Written() + EncodeOperations(group[i..]) == all
    {
      assert group[i..][0] == group[i] && group[i..][1..] == group[i + 1..];
      writer.AddMemOp(group[i].address, group[i].size, group[i].isLoad);
    }
  }

  method Store(groups: seq<seq<MemoryOperation>>) returns (file: seq<MemoryRecord>)
    ensures file == EncodeAll(groups)
  {
    var writer := new MemoryTraceWriter.OpenFile();
    assert groups[0..] == groups;
    for i := 0 to |groups|
      invariant writer.Valid() && fresh(writer.records) && fresh(writer.records.recordArray)
      invariant writer.records.Written() + EncodeAll(groups[i..]) == EncodeAll(groups)
    {
      assert groups[i..][0] == groups[i] && groups[i..][1..] == groups[i + 1..];
      StoreGroup(writer, groups[i]);
    }
    writer.records.Close();
    file := writer.records.file;
  }

  method Replay(file: seq<MemoryRecord>) returns (packets: seq<InstructionPacket>, atEnd: bool)
    ensures packets == DecodeAll(MemorySource(file, 0, false)).0
    ensures atEnd == DecodeAll(MemorySource(file, 0, false)).1.reachedEnd
  {
    var reader := new MemoryTraceReader.OpenFile(file);
    packets := [];
    ghost var all := DecodeAll(reader.Source());
    ReadingMovesOn(reader.Source(), BLANK_PACKET);
    var packet, outcome := reader.ReadMemoryOperations(BLANK_PACKET);
    while outcome.Done?
      invariant reader.Valid() && fresh(reader) && fresh(reader.chunk) && fresh(reader.chunk.recordArray)
      invariant reader.chunk.file == file
      invariant !outcome.Done? ==> all == (packets, reader.Source())
      invariant outcome.Done? ==> all.1 == DecodeAll(reader.Source()).1
      invariant outcome.Done? ==> all.0 == packets + [packet] + DecodeAll(reader.Source()).0
      decreases |file| - reader.Source().position, outcome.Done?
    {
      ReadingMovesOn(reader.Source(), BLANK_PACKET);
      packets := packets + [packet];
      assert packets + [] == packets;
      packet, outcome := reader.ReadMemoryOperations(BLANK_PACKET);
    }
    atEnd := reader.reachedEnd;
  }
}
