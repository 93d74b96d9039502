// How the replay of a program of several threads ends: for all threads at once, by one
// call. Which of them have been given their whole program then.
module ReplayEnd {
  import opened Packets
  import opened TraceFiles
  import opened DynamicTraces
  import opened MemoryTraces
  import opened StaticTraces
  import opened TraceReaders
  import opened ReplayFidelity
  import opened ThreadEvents
  import opened ThreadScheduling
  import opened EndOfTrace

  // The files of a recorded program.
  ghost predicate Recorded(dict: Dictionary, dynFiles: seq<seq<DynamicRecord>>, memFiles: seq<seq<MemoryRecord>>,
      groups: seq<seq<seq<MemoryOperation>>>)
  {
    && dict.Valid() && |dynFiles| == |memFiles| == |groups| > 0
    && (forall i :: 0 <= i < |dynFiles| ==> KnownBlocks(dict, dynFiles[i]))
    && (forall i :: 0 <= i < |groups| ==> GroupsFit(groups[i]) && memFiles[i] == EncodeAll(groups[i]))
  }

  // The state after some calls of the reader of these files.
  ghost function Reached(dict: Dictionary, dynFiles: seq<seq<DynamicRecord>>, memFiles: seq<seq<MemoryRecord>>,
      calls: seq<Call>): (s: State)
    requires dict.Valid() && |dynFiles| == |memFiles| > 0 && CallsOk(calls, |dynFiles|)
    ensures s.Valid(dict) && |s.threads| == |dynFiles|
  {
    OpenedIsValid(dict, dynFiles, memFiles);
    RunKeepsFiles(Opened(dynFiles, memFiles), dict, calls);
    Run(Opened(dynFiles, memFiles), dict, calls)
  }

  lemma {:induction false} RunsJoin(s: State, dict: Dictionary, a: seq<Call>, b: seq<Call>)
    requires s.Valid(dict) && CallsOk(a, |s.threads|) && CallsOk(b, |s.threads|)
    ensures CallsOk(a + b, |s.threads|)
    ensures Run(s, dict, a).Valid(dict) && |Run(s, dict, a).threads| == |s.threads|
    ensures Run(s, dict, a + b) == Run(Run(s, dict, a), dict, b)
    decreases |a|
  {
    if a == [] {
      assert a + b == b;
    } else {
      FirstCall(s, dict, a, 0);
      RunsJoin(Step(s, dict, a[0].ret, a[0].tid).0, dict, a[1..], b);
      assert (a + b)[1..] == a[1..] + b;
      FirstCall(s, dict, a + b, 0);
    }
  }

  lemma OneCallRuns(s: State, dict: Dictionary, call: Call)
    requires s.Valid(dict) && call.tid < |s.threads|
    ensures CallsOk([call], |s.threads|)
    ensures Run(s, dict, [call]) == Step(s, dict, call.ret, call.tid).0
  {
    FirstCall(s, dict, [call], 0);
  }

  // ------ What ends the execution

  // An abrupt end stands among these records.
  ghost predicate EndsAbruptly(file: seq<DynamicRecord>, start: nat, end: nat) {
    exists k :: start <= k < end && k < |file| && file[k] == ABRUPT_END
  }

  lemma {:induction false} SearchMeetsAbruptEnds(s: State, tid: nat)
    requires Readable(s) && tid < |s.threads|
    ensures var next := FetchBlock(s, tid).0;
      |next.threads| == |s.threads|
      && var was, now := s.threads[tid].dynFile, next.threads[tid].dynFile;
        next.reachedAbruptEnd <==> s.reachedAbruptEnd || EndsAbruptly(was.file, was.position, now.position)
    decreases Unread(s, tid)
  {
    FetchingMoves(s, tid);
    if AtEvent(s, tid) {
      EventMoves(s, tid);
      EventOutcome(s, tid);
      SearchGoesOn(s, tid);
      var (after, goesOn) := AfterEvent(s, tid);
      if goesOn {
        FetchingMoves(after, tid);
        SearchMeetsAbruptEnds(after, tid);
      }
    }
  }

  // A call that comes to an abrupt end ends the execution and gives no packet.
  lemma AbruptEndEnds(s: State, dict: Dictionary, ret: InstructionPacket, tid: nat)
    requires s.Valid(dict) && tid < |s.threads| && Searches(s, tid)
    requires AtEvent(s, tid) && Record(s, tid) == ABRUPT_END
    ensures var (next, result) := Step(s, dict, ret, tid);
      |next.threads| == |s.threads| && HasEnded(next) && !result.Ok?
  {
    var reset := Reset(s, tid);
    EventOutcome(reset, tid);
    SearchGoesOn(reset, tid);
  }

  // Some thread has consumed an abrupt end.
  ghost predicate AbruptEndConsumed(s: State) {
    exists i :: 0 <= i < |s.threads| && EndsAbruptly(s.threads[i].dynFile.file, 0, s.threads[i].dynFile.position)
  }

  lemma MoreConsumed(file: seq<DynamicRecord>, a: nat, b: nat)
    requires a <= b
    ensures EndsAbruptly(file, 0, b) <==> EndsAbruptly(file, 0, a) || EndsAbruptly(file, a, b)
  {
  }

  lemma StepMeetsAbruptEnds(s: State, dict: Dictionary, ret: InstructionPacket, tid: nat)
    requires s.Valid(dict) && tid < |s.threads| && (s.reachedAbruptEnd <==> AbruptEndConsumed(s))
    ensures var next := Step(s, dict, ret, tid).0; next.reachedAbruptEnd <==> AbruptEndConsumed(next)
  {
    var next := Step(s, dict, ret, tid).0;
    StepSchedules(s, dict, ret, tid);
    StepFlag(s, dict, ret, tid);
    if Searches(s, tid) {
      var found := FetchBlock(Reset(s, tid), tid).0;
      FetchingMoves(Reset(s, tid), tid);
      SearchMeetsAbruptEnds(Reset(s, tid), tid);
      MoreConsumed(s.threads[tid].dynFile.file, s.threads[tid].dynFile.position, found.threads[tid].dynFile.position);
      ConsumedByOne(s, found, tid);
      SameConsumed(found, next);
    } else {
      SameConsumed(s, next);
    }
  }

  lemma StepFlag(s: State, dict: Dictionary, ret: InstructionPacket, tid: nat)
    requires s.Valid(dict) && tid < |s.threads|
    ensures Step(s, dict, ret, tid).0.reachedAbruptEnd
      == if Searches(s, tid) then FetchBlock(Reset(s, tid), tid).0.reachedAbruptEnd else s.reachedAbruptEnd
  {
    EnteringIsValid(s, dict, tid);
  }

  lemma SameConsumed(s: State, t: State)
    requires SameSchedule(t, s) || SameSchedule(s, t)
    ensures AbruptEndConsumed(s) <==> AbruptEndConsumed(t)
  {
  }

  lemma ConsumedByOne(s: State, t: State, tid: nat)
    requires |s.threads| == |t.threads| && tid < |s.threads|
    requires forall i :: 0 <= i < |s.threads| && i != tid ==> t.threads[i].dynFile == s.threads[i].dynFile
    ensures AbruptEndConsumed(t) <==>
      || EndsAbruptly(t.threads[tid].dynFile.file, 0, t.threads[tid].dynFile.position)
      || exists i :: 0 <= i < |s.threads| && i != tid
          && EndsAbruptly(s.threads[i].dynFile.file, 0, s.threads[i].dynFile.position)
  {
  }

  lemma {:induction false} RunMeetsAbruptEnds(s: State, dict: Dictionary, calls: seq<Call>)
    requires s.Valid(dict) && CallsOk(calls, |s.threads|) && (s.reachedAbruptEnd <==> AbruptEndConsumed(s))
    ensures var last := Run(s, dict, calls); last.reachedAbruptEnd <==> AbruptEndConsumed(last)
    decreases |calls|
  {
    if calls != [] {
      FirstCall(s, dict, calls, 0);
      StepMeetsAbruptEnds(s, dict, calls[0].ret, calls[0].tid);
      RunMeetsAbruptEnds(Step(s, dict, calls[0].ret, calls[0].tid).0, dict, calls[1..]);
    }
  }

  // After any calls: the execution has ended exactly when thread 0 has read past its file
  // or some thread has consumed an abrupt end, and then every call gives the end.
  lemma EndedIff(dict: Dictionary, dynFiles: seq<seq<DynamicRecord>>, memFiles: seq<seq<MemoryRecord>>,
      calls: seq<Call>, ret: InstructionPacket, tid: nat)
    requires dict.Valid() && |dynFiles| == |memFiles| > 0 && CallsOk(calls, |dynFiles|) && tid < |dynFiles|
    ensures var s := Reached(dict, dynFiles, memFiles, calls);
      && (HasEnded(s) <==> s.threads[0].dynFile.reachedEnd || AbruptEndConsumed(s))
      && (HasEnded(s) ==> Step(s, dict, ret, tid) == (s, End))
      && (Step(s, dict, ret, tid).1 == End ==> HasEnded(s))
  {
    OpenedIsValid(dict, dynFiles, memFiles);
    forall i | 0 <= i < |dynFiles|
      ensures Opened(dynFiles, memFiles).threads[i] == OpenedThread(dynFiles[i], memFiles[i])
    {
      OpenedAt(dynFiles, memFiles, i);
    }
    RunMeetsAbruptEnds(Opened(dynFiles, memFiles), dict, calls);
  }

  // ------ The end

  // A search that finds a block finds no abrupt end.
  lemma {:induction false} FoundIsNotAbrupt(s: State, tid: nat)
    requires Readable(s) && tid < |s.threads| && !FetchBlock(s, tid).1
    ensures FetchBlock(s, tid).0.reachedAbruptEnd == s.reachedAbruptEnd
    decreases Unread(s, tid)
  {
    if AtEvent(s, tid) {
      SearchGoesOn(s, tid);
      FoundIsNotAbrupt(AfterEvent(s, tid).0, tid);
    }
  }

  // The call that ends the execution is a search that finds no block.
  lemma EndingCall(s: State, dict: Dictionary, ret: InstructionPacket, tid: nat)
    requires s.Valid(dict) && tid < |s.threads| && !HasEnded(s)
    requires |Step(s, dict, ret, tid).0.threads| == |s.threads| && HasEnded(Step(s, dict, ret, tid).0)
    ensures var was, now := s.threads[tid], Step(s, dict, ret, tid).0.threads[tid];
      && !was.isInsideBasicBlock && !now.isInsideBasicBlock
      && was.dynFile.position <= now.dynFile.position
      && NoBlocks(was.dynFile.file, was.dynFile.position, now.dynFile.position)
  {
    EnteringIsValid(s, dict, tid);
    FetchingMoves(Reset(s, tid), tid);
    if Searches(s, tid) && !FetchBlock(Reset(s, tid), tid).1 {
      FoundIsNotAbrupt(Reset(s, tid), tid);
    }
  }

  // What a thread has been given is its whole program exactly when it is in no block and
  // none is left; the call that ends the execution does not change this.
  lemma EndOfThread(s: State, dict: Dictionary, call: Call, j: nat, groups: seq<seq<seq<MemoryOperation>>>)
    requires AllFaithful(s, dict, groups) && j < |s.threads| && call.tid < |s.threads| && !HasEnded(s)
    requires |Step(s, dict, call.ret, call.tid).0.threads| == |s.threads|
    requires HasEnded(Step(s, dict, call.ret, call.tid).0)
    ensures var (next, source) := (Step(s, dict, call.ret, call.tid).0, s.threads[j].dynFile);
      InBlock(dict, next.threads[j])
      && (Delivered(dict, next.threads[j]) == Blocks(dict, Ids(source.file))
        <==> !s.threads[j].isInsideBasicBlock && NoBlocks(source.file, source.position, |source.file|))
  {
    var next := Step(s, dict, call.ret, call.tid).0;
    StepIsFaithful(s, dict, call.ret, call.tid, groups);
    EndingCall(s, dict, call.ret, call.tid);
    DeliveredIsPrefix(dict, next.threads[j]);
    EverythingDelivered(dict, next.threads[j]);
  }

  lemma OpenedIsFaithfulToAll(dict: Dictionary, dynFiles: seq<seq<DynamicRecord>>, memFiles: seq<seq<MemoryRecord>>,
      groups: seq<seq<seq<MemoryOperation>>>)
    requires Recorded(dict, dynFiles, memFiles, groups)
    ensures AllFaithful(Opened(dynFiles, memFiles), dict, groups)
  {
    OpenedIsValid(dict, dynFiles, memFiles);
    forall i | 0 <= i < |groups|
      ensures Faithful(dict, Opened(dynFiles, memFiles).threads[i], groups[i])
    {
      OpenedAt(dynFiles, memFiles, i);
      OpenedIsFaithful(dict, dynFiles[i], groups[i]);
    }
  }

  // How a replay ends. When a call ends the execution -- it takes thread 0 past its file, or
  // any thread to an abrupt end -- nothing is given to any thread by whatever calls follow;
  // and a thread has been given its whole program exactly when, at that call, it was in no
  // block and had none left to read.
  lemma EndDecides(dict: Dictionary, dynFiles: seq<seq<DynamicRecord>>, memFiles: seq<seq<MemoryRecord>>,
      groups: seq<seq<seq<MemoryOperation>>>, calls: seq<Call>, call: Call, later: seq<Call>, j: nat)
    requires Recorded(dict, dynFiles, memFiles, groups) && j < |dynFiles|
    requires CallsOk(calls, |dynFiles|) && call.tid < |dynFiles| && CallsOk(later, |dynFiles|)
    requires !HasEnded(Reached(dict, dynFiles, memFiles, calls))
    requires HasEnded(Reached(dict, dynFiles, memFiles, calls + [call]))
    ensures CallsOk(calls + [call] + later, |dynFiles|) && Opened(dynFiles, memFiles).Valid(dict)
    ensures var at := Reached(dict, dynFiles, memFiles, calls).threads[j];
      var last := Reached(dict, dynFiles, memFiles, calls + [call] + later).threads[j];
      InBlock(dict, last) && Touching(Delivered(dict, last)) <= |groups[j]|
      && Fetches(Opened(dynFiles, memFiles), dict, calls + [call] + later, j)
        == Attached(Delivered(dict, last), groups[j])
      && (Delivered(dict, last) == Blocks(dict, Ids(dynFiles[j]))
        <==> !at.isInsideBasicBlock && NoBlocks(dynFiles[j], at.dynFile.position, |dynFiles[j]|))
  {
    var first, s := Opened(dynFiles, memFiles), Reached(dict, dynFiles, memFiles, calls);
    OpenedIsFaithfulToAll(dict, dynFiles, memFiles, groups);
    RunIsFaithful(first, dict, calls, j, groups);
    OneCallRuns(s, dict, call);
    RunsJoin(first, dict, calls, [call]);
    RunsJoin(first, dict, calls + [call], later);
    AsleepForEver(Step(s, dict, call.ret, call.tid).0, dict, later, j);
    EndOfThread(s, dict, call, j, groups);
    ReplayIsFaithful(dict, dynFiles, memFiles, groups, calls + [call] + later, j);
    FilesStay(dict, dynFiles, memFiles, calls, j);
  }

  lemma FilesStay(dict: Dictionary, dynFiles: seq<seq<DynamicRecord>>, memFiles: seq<seq<MemoryRecord>>,
      calls: seq<Call>, j: nat)
    requires dict.Valid() && |dynFiles| == |memFiles| && j < |dynFiles| && CallsOk(calls, |dynFiles|)
    ensures Reached(dict, dynFiles, memFiles, calls).threads[j].dynFile.file == dynFiles[j]
  {
    OpenedIsValid(dict, dynFiles, memFiles);
    RunKeepsFiles(Opened(dynFiles, memFiles), dict, calls);
    OpenedAt(dynFiles, memFiles, j);
  }

  // ------ A program that is cut off

  const ONE_BLOCK := Dictionary([1], [0], [BLANK_INFO])
  const TWO_THREADS := [[BasicBlockIdentifier(0)], [BasicBlockIdentifier(0)]]
  const THREAD_ZERO := [Call(0, BLANK_PACKET), Call(0, BLANK_PACKET)]

  // The first call gives the instruction of thread 0 and leaves it at the end of its file.
  lemma FirstCallGives()
    ensures var first := Opened(TWO_THREADS, [[], []]);
      first.Valid(ONE_BLOCK) && |first.threads| == 2
      && var second := Step(first, ONE_BLOCK, BLANK_PACKET, 0).0;
        second.Valid(ONE_BLOCK) && |second.threads| == 2 && second.awake == {0, 1} && !HasEnded(second)
        && !second.threads[0].isInsideBasicBlock
        && second.threads[0].dynFile == DynamicSource(TWO_THREADS[0], 1, false)
  {
    var first := Opened(TWO_THREADS, [[], []]);
    OpenedIsValid(ONE_BLOCK, TWO_THREADS, [[], []]);
    OpenedAt(TWO_THREADS, [[], []], 0);
    AllThreadsAre(2);
    StepIsValid(first, ONE_BLOCK, BLANK_PACKET, 0);
    var read := ReadRecord(Reset(first, 0), 0).0;
    assert read.threads[0].dynFile == DynamicSource(TWO_THREADS[0], 1, false);
    assert FetchBlock(Reset(first, 0), 0) == OnRecord(read, 0);
    assert OnRecord(read, 0) == (read.With(0, read.threads[0].(currentBasicBlock := 0)), false);
    var entered := EnterBlock(first, 0).0;
    assert entered.threads[0].isInsideBasicBlock && entered.threads[0].currentInst == 0;
    assert InTables(ONE_BLOCK, entered.threads[0]) && !TouchesMemory(Current(ONE_BLOCK, entered.threads[0]));
  }

  // The second call finds the end.
  lemma SecondCallEnds()
    ensures var first := Opened(TWO_THREADS, [[], []]);
      first.Valid(ONE_BLOCK) && |first.threads| == 2
      && var second := Step(first, ONE_BLOCK, BLANK_PACKET, 0).0;
        second.Valid(ONE_BLOCK) && |second.threads| == 2
        && var third := Step(second, ONE_BLOCK, BLANK_PACKET, 0).0;
          third.Valid(ONE_BLOCK) && |third.threads| == 2 && third.awake == {0, 1} && HasEnded(third)
  {
    FirstCallGives();
    var second := Step(Opened(TWO_THREADS, [[], []]), ONE_BLOCK, BLANK_PACKET, 0).0;
    StepIsValid(second, ONE_BLOCK, BLANK_PACKET, 0);
    var reset := Reset(second, 0);
    assert FetchBlock(reset, 0) == (ReadRecord(reset, 0).0, true);
  }

  // Two threads of one block with one instruction each. Two calls for thread 0 give its
  // instruction and find its end; whatever is called then, thread 1 is given nothing,
  // although it is awake and its block is recorded.
  lemma ThreadOneIsCutOff(later: seq<Call>)
    requires CallsOk(later, 2)
    ensures CallsOk(THREAD_ZERO + later, 2) && Opened(TWO_THREADS, [[], []]).Valid(ONE_BLOCK)
    ensures Fetches(Opened(TWO_THREADS, [[], []]), ONE_BLOCK, THREAD_ZERO + later, 1) == []
    ensures 1 in Reached(ONE_BLOCK, TWO_THREADS, [[], []], THREAD_ZERO + later).awake
    ensures Blocks(ONE_BLOCK, Ids(TWO_THREADS[1])) == [BLANK_INFO]
  {
    var first, all := Opened(TWO_THREADS, [[], []]), THREAD_ZERO + later;
    FirstCallGives();
    SecondCallEnds();
    var second := Step(first, ONE_BLOCK, BLANK_PACKET, 0).0;
    FirstCall(first, ONE_BLOCK, all, 1);
    FirstCall(second, ONE_BLOCK, all[1..], 1);
    assert all[1..][1..] == later;
    AsleepForEver(Step(second, ONE_BLOCK, BLANK_PACKET, 0).0, ONE_BLOCK, later, 1);
    assert Ids(TWO_THREADS[1]) == [0] by {
      assert TWO_THREADS[1][..0] == [];
    }
    assert BlockOf(ONE_BLOCK, 0) == [BLANK_INFO];
  }
}
