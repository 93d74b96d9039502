// The reader of recorded programs (src/tracer/sinuca/trace_reader.cpp): it expands the
// block identifiers of each thread into instructions, attaches their memory accesses,
// and decides which threads may run.
module TraceReaders {
  import opened Packets
  import opened TraceFiles
  import opened DynamicTraces
  import opened MemoryTraces
  import opened StaticTraces

  datatype ThreadData = ThreadData(
    dynFile: DynamicSource,
    memFile: MemorySource,
    currentBasicBlock: nat,
    currentInst: nat,
    isInsideBasicBlock: bool)
  {
    ghost predicate Valid() {
      && dynFile.Valid() && memFile.Valid()
      && (dynFile.reachedEnd ==> !isInsideBasicBlock)
    }
  }

  // ------ What the reader does, on values

  datatype State = State(
    threads: seq<ThreadData>,
    awake: set<nat>,
    criticalCont: int,
    barrierCont: int,
    fetchFailed: bool,
    reachedAbruptEnd: bool)
  {
    ghost predicate Valid(dict: Dictionary) {
      && dict.Valid() && |threads| > 0
      && forall i :: 0 <= i < |threads| ==> threads[i].Valid()
    }

    function With(tid: nat, thread: ThreadData): State
      requires tid < |threads|
    {
      this.(threads := threads[tid := thread])
    }
  }

  function AllThreads(count: nat): set<nat> {
    if count == 0 then {} else AllThreads(count - 1) + {count - 1}
  }

  function HasEnded(s: State): bool
    requires |s.threads| > 0
  {
    s.reachedAbruptEnd || s.threads[0].dynFile.reachedEnd
  }

  // Reads the next record of a thread; fails at the end of its file.
  function ReadRecord(s: State, tid: nat): (State, bool)
    requires tid < |s.threads| && s.threads[tid].dynFile.position <= |s.threads[tid].dynFile.file|
  {
    var (source, failed) := s.threads[tid].dynFile.Read();
    (s.With(tid, s.threads[tid].(dynFile := source)), failed)
  }

  // What an event of thread `tid` changes, and whether that thread goes on to its next
  // record.
  function OnEvent(s: State, tid: nat, event: ThreadEventType): (State, bool) {
    match event
    case AbruptEnd => (s.(reachedAbruptEnd := true), false)
    case CriticalStart => (s.(criticalCont := s.criticalCont + 1, awake := s.awake * {tid}), true)
    case CriticalEnd =>
      var left := s.criticalCont - 1;
      (s.(criticalCont := left,
          awake := if left == 0 then AllThreads(|s.threads|) else s.awake,
          fetchFailed := s.fetchFailed || left < 0), true)
    case BarrierSync =>
      if s.barrierCont + 1 == |s.threads| then (s.(barrierCont := 0, awake := AllThreads(|s.threads|)), true)
      else (s.(barrierCont := s.barrierCont + 1, awake := s.awake - {tid}), false)
    case UnknownEvent(_) => (s, false)
  }

  function Unread(s: State, tid: nat): int
    requires tid < |s.threads|
  {
    |s.threads[tid].dynFile.file| - s.threads[tid].dynFile.position
  }

  // Reads up to the next block identifier that thread `tid` may start on.
  function FetchBlock(s: State, tid: nat): (State, bool)
    requires tid < |s.threads| && s.threads[tid].dynFile.position <= |s.threads[tid].dynFile.file|
    decreases Unread(s, tid), 1
  {
    var (next, failed) := ReadRecord(s, tid);
    if failed then (next, true) else OnRecord(next, tid)
  }

  function OnRecord(s: State, tid: nat): (State, bool)
    requires tid < |s.threads| && 0 < s.threads[tid].dynFile.position <= |s.threads[tid].dynFile.file|
    decreases Unread(s, tid), 2
  {
    var thread := s.threads[tid];
    match thread.dynFile.file[thread.dynFile.position - 1]
    case ThreadEvent(event) =>
      var (next, goesOn) := OnEvent(s, tid, event);
      if goesOn then FetchBlock(next, tid) else (next, true)
    case BasicBlockIdentifier(id) => (s.With(tid, thread.(currentBasicBlock := id)), false)
    case UnknownDynamic(_) => (s.(fetchFailed := true), true)
  }

  function TouchesMemory(info: StaticInstructionInfo): bool {
    info.instReadsMemory || info.instWritesMemory
  }

  // The dictionary has an instruction where the thread stands.
  predicate InTables(dict: Dictionary, thread: ThreadData)
    requires dict.Valid()
  {
    && thread.currentBasicBlock < |dict.sizes|
    && dict.offsets[thread.currentBasicBlock] + thread.currentInst < |dict.pool|
  }

  function Current(dict: Dictionary, thread: ThreadData): StaticInstructionInfo
    requires dict.Valid() && InTables(dict, thread)
  {
    dict.pool[dict.offsets[thread.currentBasicBlock] + thread.currentInst]
  }

  // The instruction a thread stands on, with its memory accesses.
  function FetchInstruction(s: State, dict: Dictionary, ret: InstructionPacket, tid: nat): (State, Fetched)
    requires tid < |s.threads| && dict.Valid() && s.threads[tid].Valid()
  {
    var thread := s.threads[tid];
    if !InTables(dict, thread) then (s, Overrun)
    else
      var info := Current(dict, thread);
      var packet := ret.(staticInfo := info, loads := [], stores := []);
      var read := if TouchesMemory(info) then ReadGroup(thread.memFile, packet)
        else MemoryRead(thread.memFile, packet, Done);
      var consumed := thread.(memFile := read.source);
      match read.outcome
      case Failed => (s.With(tid, consumed), Error(read.packet))
      case PastSlots => (s.With(tid, consumed), Overrun)
      case Done =>
        var inst := thread.currentInst + 1;
        (s.With(tid, consumed.(
            currentInst := inst,
            isInsideBasicBlock := inst < dict.sizes[thread.currentBasicBlock])), Ok(read.packet))
  }

  // Goes into the next block, unless the thread is inside one.
  function EnterBlock(s: State, tid: nat): (State, bool)
    requires tid < |s.threads| && s.threads[tid].dynFile.position <= |s.threads[tid].dynFile.file|
  {
    if s.threads[tid].isInsideBasicBlock then (s, false)
    else
      var (next, failed) := FetchBlock(s.With(tid, s.threads[tid].(currentInst := 0)), tid);
      if failed then (next, true) else (InsideBlock(next, tid), false)
  }

  function InsideBlock(s: State, tid: nat): State {
    if tid < |s.threads| then s.With(tid, s.threads[tid].(isInsideBasicBlock := true)) else s
  }

  // While a thread looks for a block, only where it stands in its file changes; it passes
  // over events and ends on the identifier of the block.
  ghost predicate Moved(was: ThreadData, now: ThreadData, failed: bool) {
    && now == was.(dynFile := now.dynFile, currentBasicBlock := now.currentBasicBlock)
    && now.dynFile.file == was.dynFile.file
    && was.dynFile.position <= now.dynFile.position
    && now.dynFile.Valid()
    && (!failed ==> was.dynFile.position < now.dynFile.position && !now.dynFile.reachedEnd)
    && (!failed ==> now.dynFile.file[now.dynFile.position - 1] == BasicBlockIdentifier(now.currentBasicBlock))
    && NoBlocks(now.dynFile.file, was.dynFile.position, now.dynFile.position - if failed then 0 else 1)
  }

  ghost predicate NoBlocks(file: seq<DynamicRecord>, start: nat, end: int) {
    forall k :: start <= k < end && k < |file| ==> !file[k].BasicBlockIdentifier?
  }

  lemma {:induction false} FetchingMoves(s: State, tid: nat)
    requires tid < |s.threads| && s.threads[tid].dynFile.Valid()
    ensures var (next, failed) := FetchBlock(s, tid);
      |next.threads| == |s.threads|
      && Moved(s.threads[tid], next.threads[tid], failed)
      && next.threads == s.threads[tid := next.threads[tid]]
    decreases Unread(s, tid)
  {
    var (next, failed) := ReadRecord(s, tid);
    var thread := next.threads[tid];
    assert next.threads == s.threads[tid := thread];
    if !failed {
      match thread.dynFile.file[thread.dynFile.position - 1]
      case ThreadEvent(event) =>
        var (after, goesOn) := OnEvent(next, tid, event);
        assert after.threads == next.threads && Moved(s.threads[tid], thread, true);
        if goesOn {
          FetchingMoves(after, tid);
        }
      case _ =>
    }
  }

  lemma EnteringIsValid(s: State, dict: Dictionary, tid: nat)
    requires tid < |s.threads| && s.Valid(dict)
    ensures var (next, failed) := EnterBlock(s, tid);
      next.Valid(dict) && |next.threads| == |s.threads| && (!failed ==> next.threads[tid].isInsideBasicBlock)
  {
    if !s.threads[tid].isInsideBasicBlock {
      FetchingMoves(s.With(tid, s.threads[tid].(currentInst := 0)), tid);
    }
  }

  function Step(s: State, dict: Dictionary, ret: InstructionPacket, tid: nat): (State, Fetched)
    requires tid < |s.threads| && s.Valid(dict)
  {
    if HasEnded(s) then (s, End)
    else if s.threads[tid].dynFile.reachedEnd || tid !in s.awake then (s, Nop)
    else
      var (next, failed) := EnterBlock(s, tid);
      if failed then (next, if next.fetchFailed then Error(ret) else Nop)
      else
        EnteringIsValid(s, dict, tid);
        FetchInstruction(next, dict, ret, tid)
  }

  // ------ The reader itself

  class SinucaTraceReader {
    const dict: Dictionary
    const totalThreads: nat
    var threadData: seq<ThreadData>
    const isThreadAwake: array<bool>
    var criticalCont: int
    var barrierCont: int
    var fetchFailed: bool
    var reachedAbruptEnd: bool
    ghost var awake: set<nat>

    ghost predicate Valid()
      reads this, isThreadAwake
    {
      && |threadData| == totalThreads == isThreadAwake.Length
      && Model().Valid(dict)
      && (forall i :: i in awake ==> i < totalThreads)
      && (forall i :: 0 <= i < totalThreads ==> (isThreadAwake[i] <==> i in awake))
    }

    ghost function Model(): State
      reads this
    {
      State(threadData, awake, criticalCont, barrierCont, fetchFailed, reachedAbruptEnd)
    }

    // The static counters of FetchBasicBlock start at zero, all threads awake.
    constructor OpenTrace(dict: Dictionary, dynFiles: seq<seq<DynamicRecord>>, memFiles: seq<seq<MemoryRecord>>)
      requires dict.Valid() && |dynFiles| == |memFiles| > 0
      ensures Valid() && fresh(isThreadAwake)
      ensures this.dict == dict && Model() == Opened(dynFiles, memFiles)
    {
      this.dict := dict;
      totalThreads := |dynFiles|;
      threadData := OpenedThreads(dynFiles, memFiles);
      isThreadAwake := new bool[|dynFiles|](_ => true);
      criticalCont, barrierCont, fetchFailed, reachedAbruptEnd := 0, 0, false, false;
      awake := AllThreads(|dynFiles|);
      OpenedIsValid(dict, dynFiles, memFiles);
      AllThreadsAre(|dynFiles|);
    }

    method HasExecutionEnded() returns (ended: bool)
      requires Valid()
      ensures ended == HasEnded(Model())
    {
      if reachedAbruptEnd {
        return true;
      }
      return threadData[0].dynFile.reachedEnd;
    }

    method SetAwake(tid: nat, flag: bool)
      requires Valid() && tid < totalThreads
      modifies this`awake, isThreadAwake
      ensures Valid() && awake == if flag then old(awake) + {tid} else old(awake) - {tid}
    {
      isThreadAwake[tid] := flag;
      awake := if flag then awake + {tid} else awake - {tid};
    }

    // The loop that wakes up all threads.
    method WakeAll()
      requires Valid()
      modifies this`awake, isThreadAwake
      ensures Valid() && awake == AllThreads(totalThreads)
    {
      AllThreadsAre(totalThreads);
      for i := 0 to totalThreads
        invariant Valid() && awake == old(awake) + AllThreads(i)
      {
        SetAwake(i, true);
      }
    }

    // The loop that puts all threads but one to sleep.
    method SleepOthers(tid: nat)
      requires Valid()
      modifies this`awake, isThreadAwake
      ensures Valid() && awake == old(awake) * {tid}
    {
      AllThreadsAre(totalThreads);
      for i := 0 to totalThreads
        invariant Valid() && awake == old(awake) - (AllThreads(i) - {tid})
      {
        if i != tid {
          SetAwake(i, false);
        }
      }
    }

    method ReadDynamicRecord(tid: nat) returns (failed: bool)
      requires Valid() && tid < totalThreads && !threadData[tid].isInsideBasicBlock
      modifies this`threadData
      ensures Valid() && (Model(), failed) == ReadRecord(old(Model()), tid)
      ensures !threadData[tid].isInsideBasicBlock && (!failed ==> 0 < threadData[tid].dynFile.position)
    {
      var read := threadData[tid].dynFile.Read();
      threadData := threadData[tid := threadData[tid].(dynFile := read.0)];
      failed := read.1;
    }

    // The branches on the type of an event. A failed read has always reached the end of
    // the file, so only an event or a record of an unexpected kind sets fetchFailed.
    method HandleEvent(tid: nat, evType: ThreadEventType) returns (goesOn: bool)
      requires Valid() && tid < totalThreads
      modifies this, isThreadAwake
      ensures Valid() && (Model(), goesOn) == OnEvent(old(Model()), tid, evType)
    {
      match evType
      case AbruptEnd =>
        reachedAbruptEnd := true;
        return false;
      case CriticalStart =>
        criticalCont := criticalCont + 1;
        SleepOthers(tid);
        return true;
      case CriticalEnd =>
        criticalCont := criticalCont - 1;
        if criticalCont == 0 {
          WakeAll();
        } else if criticalCont < 0 {
          fetchFailed := true;
        }
        return true;
      case BarrierSync =>
        barrierCont := barrierCont + 1;
        if barrierCont == totalThreads {
          WakeAll();
          barrierCont := 0;
          return true;
        }
        SetAwake(tid, false);
        return false;
      case UnknownEvent(_) =>
        return false;
    }

    method FetchBasicBlock(tid: nat) returns (failed: bool)
      requires Valid() && tid < totalThreads && !threadData[tid].isInsideBasicBlock
      modifies this, isThreadAwake
      ensures Valid() && (Model(), failed) == FetchBlock(old(Model()), tid)
    {
      failed := ReadDynamicRecord(tid);
      if failed {
        return;
      }
      var record := threadData[tid].dynFile.file[threadData[tid].dynFile.position - 1];
      while record.ThreadEvent?
        invariant Valid() && !threadData[tid].isInsideBasicBlock && 0 < threadData[tid].dynFile.position
        invariant record == threadData[tid].dynFile.file[threadData[tid].dynFile.position - 1]
        invariant OnRecord(Model(), tid) == FetchBlock(old(Model()), tid)
        decreases Unread(Model(), tid)
      {
        var goesOn := HandleEvent(tid, record.event);
        if !goesOn {
          return true;
        }
        failed := ReadDynamicRecord(tid);
        if failed {
          return;
        }
        record := threadData[tid].dynFile.file[threadData[tid].dynFile.position - 1];
      }
      if !record.BasicBlockIdentifier? {
        fetchFailed := true;
        return true;
      }
      threadData := threadData[tid := threadData[tid].(currentBasicBlock := record.id)];
      return false;
    }

    method FetchMemoryData(ret: InstructionPacket, tid: nat) returns (packet: InstructionPacket, outcome: Outcome)
      requires Valid() && tid < totalThreads
      modifies this`threadData
      ensures Valid()
      ensures var read := ReadGroup(old(threadData[tid].memFile), ret);
        packet == read.packet && outcome == read.outcome
        && threadData == old(threadData)[tid := old(threadData[tid]).(memFile := read.source)]
    {
      ReadingMovesOn(threadData[tid].memFile, ret);
      if threadData[tid].memFile.reachedEnd {
        assert threadData == threadData[tid := threadData[tid]];
        return ret, Failed;
      }
      var read := ReadGroup(threadData[tid].memFile, ret);
      threadData := threadData[tid := threadData[tid].(memFile := read.source)];
      return read.packet, read.outcome;
    }

    // The instruction the thread stands on. Where the program would leave the bounds of
    // its tables or of the packet, the model stops.
    method FetchCurrent(ret: InstructionPacket, tid: nat) returns (result: Fetched)
      requires Valid() && tid < totalThreads && threadData[tid].isInsideBasicBlock
      modifies this`threadData
      ensures Valid() && (Model(), result) == FetchInstruction(old(Model()), dict, ret, tid)
    {
      if !InTables(dict, threadData[tid]) {
        return Overrun;
      }
      var packet := ret.(loads := [], stores := []);
      packet := packet.(staticInfo := Current(dict, threadData[tid]));
      if packet.staticInfo.instReadsMemory || packet.staticInfo.instWritesMemory {
        var outcome;
        packet, outcome := FetchMemoryData(packet, tid);
        match outcome {
          case Failed => return Error(packet);
          case PastSlots => return Overrun;
          case Done =>
        }
      }
      var thread := threadData[tid].(currentInst := threadData[tid].currentInst + 1);
      if thread.currentInst >= dict.sizes[thread.currentBasicBlock] {
        thread := thread.(isInsideBasicBlock := false);
      }
      threadData := threadData[tid := thread];
      assert threadData == old(threadData)[tid := thread];
      return Ok(packet);
    }

    method Fetch(ret: InstructionPacket, tid: nat) returns (result: Fetched)
      requires Valid() && tid < totalThreads
      modifies this, isThreadAwake
      ensures Valid() && (Model(), result) == Step(old(Model()), dict, ret, tid)
    {
      var ended := HasExecutionEnded();
      if ended {
        return End;
      }
      if threadData[tid].dynFile.reachedEnd || !isThreadAwake[tid] {
        return Nop;
      }
      if !threadData[tid].isInsideBasicBlock {
        threadData := threadData[tid := threadData[tid].(currentInst := 0)];
        var failed := FetchBasicBlock(tid);
        if failed {
          return if fetchFailed then Error(ret) else Nop;
        }
        threadData := threadData[tid := threadData[tid].(isInsideBasicBlock := true)];
      }
      EnteringIsValid(old(Model()), dict, tid);
      result := FetchCurrent(ret, tid);
    }
  }

  lemma {:induction false} AllThreadsAre(count: nat)
    ensures forall i: nat :: i in AllThreads(count) <==> i < count
    ensures |AllThreads(count)| == count
  {
    if count > 0 {
      AllThreadsAre(count - 1);
    }
  }

  function OpenedThread(dynFile: seq<DynamicRecord>, memFile: seq<MemoryRecord>): ThreadData {
    ThreadData(DynamicSource(dynFile, 0, false), MemorySource(memFile, 0, false), 0, 0, false)
  }

  function OpenedThreads(dynFiles: seq<seq<DynamicRecord>>, memFiles: seq<seq<MemoryRecord>>)
      : (threads: seq<ThreadData>)
    requires |dynFiles| == |memFiles|
    ensures |threads| == |dynFiles|
  {
    if dynFiles == [] then []
    else
      var last := |dynFiles| - 1;
      OpenedThreads(dynFiles[..last], memFiles[..last]) + [OpenedThread(dynFiles[last], memFiles[last])]
  }

  lemma {:induction false} OpenedAt(dynFiles: seq<seq<DynamicRecord>>, memFiles: seq<seq<MemoryRecord>>, i: nat)
    requires |dynFiles| == |memFiles| && i < |dynFiles|
    ensures OpenedThreads(dynFiles, memFiles)[i] == OpenedThread(dynFiles[i], memFiles[i])
    decreases |dynFiles|
  {
    var last := |dynFiles| - 1;
    if i < last {
      OpenedAt(dynFiles[..last], memFiles[..last], i);
    }
  }

  function Opened(dynFiles: seq<seq<DynamicRecord>>, memFiles: seq<seq<MemoryRecord>>): State
    requires |dynFiles| == |memFiles|
  {
    State(OpenedThreads(dynFiles, memFiles), AllThreads(|dynFiles|), 0, 0, false, false)
  }

  lemma OpenedIsValid(dict: Dictionary, dynFiles: seq<seq<DynamicRecord>>, memFiles: seq<seq<MemoryRecord>>)
    requires dict.Valid() && |dynFiles| == |memFiles| > 0
    ensures Opened(dynFiles, memFiles).Valid(dict)
  {
    forall i | 0 <= i < |dynFiles|
      ensures Opened(dynFiles, memFiles).threads[i].Valid()
    {
      OpenedAt(dynFiles, memFiles, i);
    }
  }
}
