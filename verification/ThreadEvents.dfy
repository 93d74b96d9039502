// The events on the way of a thread to its next block, and what can be said of all of
// them in a run (src/tracer/sinuca/trace_reader.cpp:223-320).
module ThreadEvents {
  import opened Packets
  import opened TraceFiles
  import opened StaticTraces
  import opened TraceReaders
  import opened ReplayFidelity

  const BARRIER := ThreadEvent(BarrierSync)
  const START := ThreadEvent(CriticalStart)
  const END := ThreadEvent(CriticalEnd)
  const ABRUPT_END := ThreadEvent(AbruptEnd)

  // ------ What a thread has passed

  // The barriers among the first `count` records.
  function Barriers(file: seq<DynamicRecord>, count: nat): nat
    requires count <= |file|
  {
    if count == 0 then 0 else Barriers(file, count - 1) + if file[count - 1] == BARRIER then 1 else 0
  }

  // How deep in critical regions a thread is behind its first `count` records.
  function Depth(file: seq<DynamicRecord>, count: nat): int
    requires count <= |file|
  {
    if count == 0 then 0 else Depth(file, count - 1) + Deeper(file[count - 1])
  }

  function Deeper(record: DynamicRecord): int {
    if record == START then 1 else if record == END then -1 else 0
  }

  function Passed(t: ThreadData): nat
    requires t.dynFile.Valid()
  {
    Barriers(t.dynFile.file, t.dynFile.position)
  }

  function DepthOf(t: ThreadData): int
    requires t.dynFile.Valid()
  {
    Depth(t.dynFile.file, t.dynFile.position)
  }

  // ------ One event

  ghost predicate Readable(s: State) {
    && |s.threads| > 0
    && forall i :: 0 <= i < |s.threads| ==> s.threads[i].dynFile.Valid()
  }

  ghost predicate CanRead(s: State, tid: nat)
    requires Readable(s)
  {
    tid < |s.threads| && Unread(s, tid) > 0 && !s.threads[tid].dynFile.reachedEnd
  }

  function Record(s: State, tid: nat): DynamicRecord
    requires Readable(s) && CanRead(s, tid)
  {
    s.threads[tid].dynFile.file[s.threads[tid].dynFile.position]
  }

  // The next record of the thread is an event.
  ghost predicate AtEvent(s: State, tid: nat) {
    Readable(s) && CanRead(s, tid) && Record(s, tid).ThreadEvent?
  }

  // ... and the thread is awake.
  ghost predicate ReadsEvent(s: State, tid: nat) {
    AtEvent(s, tid) && tid in s.awake
  }

  // The state behind the event, and whether the thread goes on.
  ghost function AfterEvent(s: State, tid: nat): (State, bool)
    requires AtEvent(s, tid)
  {
    OnEvent(ReadRecord(s, tid).0, tid, Record(s, tid).event)
  }

  // An event moves its own thread one record on.
  lemma EventMoves(s: State, tid: nat)
    requires AtEvent(s, tid)
    ensures var after := AfterEvent(s, tid).0;
      Readable(after) && |after.threads| == |s.threads|
      && after.threads == s.threads[tid := after.threads[tid]]
      && after.threads[tid].dynFile.file == s.threads[tid].dynFile.file
      && after.threads[tid].dynFile.position == s.threads[tid].dynFile.position + 1
      && Unread(after, tid) < Unread(s, tid)
      && Passed(after.threads[tid]) == Passed(s.threads[tid]) + (if Record(s, tid) == BARRIER then 1 else 0)
      && DepthOf(after.threads[tid]) == DepthOf(s.threads[tid]) + Deeper(Record(s, tid))
  {
    var after := AfterEvent(s, tid).0;
    var file, position := s.threads[tid].dynFile.file, s.threads[tid].dynFile.position;
    assert Passed(after.threads[tid]) == Barriers(file, position + 1);
    assert DepthOf(after.threads[tid]) == Depth(file, position + 1);
  }

  // Whether the execution ends or an error is noted, and whether the thread reads on: not
  // behind an abrupt end, at a barrier where it has to wait, or behind an unknown event.
  lemma EventOutcome(s: State, tid: nat)
    requires AtEvent(s, tid)
    ensures var was, (after, goesOn) := Record(s, tid), AfterEvent(s, tid);
      && (after.reachedAbruptEnd <==> s.reachedAbruptEnd || was == ABRUPT_END)
      && (after.fetchFailed <==> s.fetchFailed || (was == END && s.criticalCont <= 0))
      && (goesOn <==> was == START || was == END || (was == BARRIER && s.barrierCont + 1 == |s.threads|))
  {
  }

  // What an event does to the counters and to who may run.
  lemma EventEffect(s: State, tid: nat)
    requires AtEvent(s, tid)
    ensures var was, after := Record(s, tid), AfterEvent(s, tid).0;
      var all := AllThreads(|s.threads|);
      && after.criticalCont == s.criticalCont + Deeper(was)
      && after.barrierCont == (if was != BARRIER then s.barrierCont
        else if s.barrierCont + 1 == |s.threads| then 0 else s.barrierCont + 1)
      && after.awake == (if was == START then s.awake * {tid}
        else if was == END && s.criticalCont == 1 then all
        else if was == BARRIER then (if s.barrierCont + 1 == |s.threads| then all else s.awake - {tid})
        else s.awake)
  {
  }

  lemma AwakeGoesOn(s: State, tid: nat)
    requires ReadsEvent(s, tid)
    ensures var (after, goesOn) := AfterEvent(s, tid); goesOn ==> tid in after.awake
  {
    AllThreadsAre(|s.threads|);
  }

  lemma SearchGoesOn(s: State, tid: nat)
    requires AtEvent(s, tid)
    ensures var (after, goesOn) := AfterEvent(s, tid);
      Readable(after) && |after.threads| == |s.threads| && Unread(after, tid) < Unread(s, tid)
      && FetchBlock(s, tid) == if goesOn then FetchBlock(after, tid) else (after, true)
  {
  }

  lemma SearchAdvances(s: State, tid: nat)
    requires Readable(s) && CanRead(s, tid)
    ensures var next := FetchBlock(s, tid).0; |next.threads| == |s.threads| && Unread(next, tid) < Unread(s, tid)
  {
    if Record(s, tid).ThreadEvent? {
      SearchGoesOn(s, tid);
      FetchingMoves(AfterEvent(s, tid).0, tid);
    }
  }

  // A read that finds no event moves the thread past nothing that counts.
  lemma PlainRead(s: State, tid: nat)
    requires Readable(s) && tid < |s.threads| && !AtEvent(s, tid)
    ensures var next := FetchBlock(s, tid).0;
      Readable(next) && |next.threads| == |s.threads|
      && next.threads == s.threads[tid := next.threads[tid]]
      && next.threads[tid].dynFile.file == s.threads[tid].dynFile.file
      && Passed(next.threads[tid]) == Passed(s.threads[tid]) && DepthOf(next.threads[tid]) == DepthOf(s.threads[tid])
      && next.awake == s.awake && next.criticalCont == s.criticalCont && next.barrierCont == s.barrierCont
  {
    var file, position := s.threads[tid].dynFile.file, s.threads[tid].dynFile.position;
    var next := FetchBlock(s, tid).0;
    FetchingMoves(s, tid);
    if CanRead(s, tid) {
      assert Barriers(file, position + 1) == Barriers(file, position);
      assert Depth(file, position + 1) == Depth(file, position);
      assert next.threads[tid].dynFile.position == position + 1;
    }
  }

  // Where a search ends that finds no event: at the end of the file, on a block, or on a
  // record that it does not know, which is noted as a failure.
  lemma PlainReadOutcome(s: State, tid: nat)
    requires Readable(s) && tid < |s.threads| && !AtEvent(s, tid) && !s.threads[tid].dynFile.reachedEnd
    ensures var (next, failed) := FetchBlock(s, tid);
      |next.threads| == |s.threads|
      && next.reachedAbruptEnd == s.reachedAbruptEnd
      && (failed <==> Unread(s, tid) == 0 || !Record(s, tid).BasicBlockIdentifier?)
      && (!failed ==> Record(s, tid) == BasicBlockIdentifier(next.threads[tid].currentBasicBlock))
      && (next.threads[tid].dynFile.reachedEnd <==> Unread(s, tid) == 0)
      && (next.fetchFailed <==> s.fetchFailed || (Unread(s, tid) > 0 && Record(s, tid).UnknownDynamic?))
  {
  }

  // ------ One call

  function Reset(s: State, tid: nat): State
    requires tid < |s.threads|
  {
    s.With(tid, s.threads[tid].(currentInst := 0))
  }

  // The call makes the thread look for a block.
  predicate Searches(s: State, tid: nat)
    requires tid < |s.threads|
  {
    && !HasEnded(s) && !s.threads[tid].dynFile.reachedEnd
    && tid in s.awake && !s.threads[tid].isInsideBasicBlock
  }

  // Two states in which all threads stand at the same record and may run or not alike.
  ghost predicate SameSchedule(s: State, t: State) {
    && |s.threads| == |t.threads|
    && s.awake == t.awake && s.criticalCont == t.criticalCont && s.barrierCont == t.barrierCont
    && forall i :: 0 <= i < |s.threads| ==> s.threads[i].dynFile == t.threads[i].dynFile
  }

  // Only the search for a block touches the schedule.
  lemma StepSchedules(s: State, dict: Dictionary, ret: InstructionPacket, tid: nat)
    requires s.Valid(dict) && tid < |s.threads|
    ensures SameSchedule(Step(s, dict, ret, tid).0,
      if Searches(s, tid) then FetchBlock(Reset(s, tid), tid).0 else s)
    ensures Step(s, dict, ret, tid).1.Ok? ==> tid in s.awake
    ensures Step(s, dict, ret, tid).1.Ok? && Searches(s, tid) ==> !FetchBlock(Reset(s, tid), tid).1
  {
    EnteringIsValid(s, dict, tid);
    FetchingMoves(Reset(s, tid), tid);
  }

  // What a call gives that hands out nothing: the end when the execution has ended, a Nop
  // when the thread has ended or sleeps, and a Nop or an error when no block is found.
  lemma ResultOfCall(s: State, dict: Dictionary, ret: InstructionPacket, tid: nat)
    requires s.Valid(dict) && tid < |s.threads|
    ensures var (next, result) := Step(s, dict, ret, tid);
      && (HasEnded(s) ==> (next, result) == (s, End))
      && (!HasEnded(s) && (s.threads[tid].dynFile.reachedEnd || tid !in s.awake) ==> (next, result) == (s, Nop))
      && (Searches(s, tid) && FetchBlock(Reset(s, tid), tid).1 ==>
        result == if next.fetchFailed then Error(ret) else Nop)
  {
  }

  lemma StepKeepsFiles(s: State, dict: Dictionary, ret: InstructionPacket, tid: nat)
    requires s.Valid(dict) && tid < |s.threads|
    ensures var next := Step(s, dict, ret, tid).0;
      |next.threads| == |s.threads|
      && forall i :: 0 <= i < |s.threads| ==> next.threads[i].dynFile.file == s.threads[i].dynFile.file
  {
    StepSchedules(s, dict, ret, tid);
    FetchingMoves(Reset(s, tid), tid);
  }

  lemma {:induction false} RunKeepsFiles(s: State, dict: Dictionary, calls: seq<Call>)
    requires s.Valid(dict) && CallsOk(calls, |s.threads|)
    ensures var last := Run(s, dict, calls);
      last.Valid(dict) && |last.threads| == |s.threads|
      && forall i :: 0 <= i < |s.threads| ==> last.threads[i].dynFile.file == s.threads[i].dynFile.file
    decreases |calls|
  {
    if calls != [] {
      FirstCall(s, dict, calls, 0);
      StepKeepsFiles(s, dict, calls[0].ret, calls[0].tid);
      RunKeepsFiles(Step(s, dict, calls[0].ret, calls[0].tid).0, dict, calls[1..]);
    }
  }

  // ------ All events of a run

  // A judgement of an event, by the state before it and its thread.
  type Judgement = (State, nat) -> bool

  ghost predicate InSearch(judge: Judgement, s: State, tid: nat)
    requires Readable(s) && tid < |s.threads|
    decreases Unread(s, tid)
  {
    AtEvent(s, tid) ==>
      var (after, goesOn) := AfterEvent(s, tid);
      judge(s, tid) && (goesOn ==> InSearch(judge, after, tid))
  }

  ghost predicate InStep(judge: Judgement, s: State, tid: nat)
    requires Readable(s) && tid < |s.threads|
  {
    Searches(s, tid) ==> InSearch(judge, Reset(s, tid), tid)
  }

  // Every event on the way of the calls is judged well.
  ghost predicate InRun(judge: Judgement, s: State, dict: Dictionary, calls: seq<Call>)
    requires s.Valid(dict) && CallsOk(calls, |s.threads|)
    decreases |calls|
  {
    if calls == [] then true
    else
      StepIsValid(s, dict, calls[0].ret, calls[0].tid);
      InStep(judge, s, calls[0].tid) && InRun(judge, Step(s, dict, calls[0].ret, calls[0].tid).0, dict, calls[1..])
  }

  // What holds of the states between events, whatever the threads do besides.
  ghost predicate OfSchedule(inv: State -> bool) {
    && (forall s :: inv(s) ==> Readable(s))
    && (forall s, t :: inv(s) && SameSchedule(s, t) ==> inv(t))
    && (forall s, tid: nat :: inv(s) && tid < |s.threads| && !AtEvent(s, tid) ==> inv(FetchBlock(s, tid).0))
  }

  // In a state as described, the judgements agree on the next event; where they are good,
  // the state behind it is as described again.
  ghost predicate Agree(one: Judgement, other: Judgement, inv: State -> bool) {
    forall s, tid: nat :: inv(s) && ReadsEvent(s, tid) ==>
      (one(s, tid) <==> other(s, tid)) && (other(s, tid) ==> inv(AfterEvent(s, tid).0))
  }

  lemma SearchOpens(judge: Judgement, s: State, tid: nat)
    requires AtEvent(s, tid)
    ensures var (after, goesOn) := AfterEvent(s, tid);
      Readable(after) && |after.threads| == |s.threads|
      && (InSearch(judge, s, tid) <==> judge(s, tid) && (goesOn ==> InSearch(judge, after, tid)))
  {
    EventMoves(s, tid);
  }

  lemma {:induction false} SearchAgrees(one: Judgement, other: Judgement, inv: State -> bool, s: State, tid: nat)
    requires OfSchedule(inv) && Agree(one, other, inv) && inv(s)
    requires Readable(s) && tid < |s.threads| && tid in s.awake
    ensures InSearch(one, s, tid) <==> InSearch(other, s, tid)
    ensures InSearch(other, s, tid) ==> inv(FetchBlock(s, tid).0)
    ensures InSearch(other, s, tid) && !FetchBlock(s, tid).1 ==> tid in FetchBlock(s, tid).0.awake
    decreases Unread(s, tid)
  {
    if AtEvent(s, tid) {
      SearchOpens(one, s, tid);
      SearchOpens(other, s, tid);
      SearchGoesOn(s, tid);
      AwakeGoesOn(s, tid);
      var (after, goesOn) := AfterEvent(s, tid);
      if other(s, tid) && goesOn {
        SearchAgrees(one, other, inv, after, tid);
      }
    } else {
      PlainRead(s, tid);
    }
  }

  lemma ResetKeeps(s: State, tid: nat)
    requires tid < |s.threads|
    ensures SameSchedule(s, Reset(s, tid))
  {
  }

  lemma StepAgrees(one: Judgement, other: Judgement, inv: State -> bool, s: State, dict: Dictionary,
      ret: InstructionPacket, tid: nat)
    requires OfSchedule(inv) && Agree(one, other, inv) && inv(s) && s.Valid(dict) && tid < |s.threads|
    ensures InStep(one, s, tid) <==> InStep(other, s, tid)
    ensures InStep(other, s, tid) ==> inv(Step(s, dict, ret, tid).0)
    ensures InStep(other, s, tid) && Step(s, dict, ret, tid).1.Ok? ==> tid in Step(s, dict, ret, tid).0.awake
  {
    StepSchedules(s, dict, ret, tid);
    var next := Step(s, dict, ret, tid).0;
    if Searches(s, tid) {
      ResetKeeps(s, tid);
      SearchAgrees(one, other, inv, Reset(s, tid), tid);
      assert SameSchedule(FetchBlock(Reset(s, tid), tid).0, next);
    } else {
      assert SameSchedule(s, next);
    }
  }

  lemma RunOpens(judge: Judgement, s: State, dict: Dictionary, calls: seq<Call>)
    requires s.Valid(dict) && CallsOk(calls, |s.threads|) && calls != []
    ensures var next := Step(s, dict, calls[0].ret, calls[0].tid).0;
      next.Valid(dict) && |next.threads| == |s.threads|
      && (InRun(judge, s, dict, calls) <==> InStep(judge, s, calls[0].tid) && InRun(judge, next, dict, calls[1..]))
  {
    StepIsValid(s, dict, calls[0].ret, calls[0].tid);
  }

  // Judgements that agree on single events agree on runs.
  lemma {:induction false} RunAgrees(one: Judgement, other: Judgement, inv: State -> bool, s: State,
      dict: Dictionary, calls: seq<Call>)
    requires OfSchedule(inv) && Agree(one, other, inv) && inv(s) && s.Valid(dict) && CallsOk(calls, |s.threads|)
    ensures InRun(one, s, dict, calls) <==> InRun(other, s, dict, calls)
    ensures InRun(other, s, dict, calls) ==> inv(Run(s, dict, calls))
    decreases |calls|
  {
    if calls != [] {
      RunOpens(one, s, dict, calls);
      RunOpens(other, s, dict, calls);
      FirstCall(s, dict, calls, 0);
      StepAgrees(one, other, inv, s, dict, calls[0].ret, calls[0].tid);
      if InStep(other, s, calls[0].tid) {
        RunAgrees(one, other, inv, Step(s, dict, calls[0].ret, calls[0].tid).0, dict, calls[1..]);
      }
    }
  }

  lemma {:induction false} SearchOfBoth(both: Judgement, one: Judgement, other: Judgement, s: State, tid: nat)
    requires forall t, i: nat :: both(t, i) <==> one(t, i) && other(t, i)
    requires Readable(s) && tid < |s.threads|
    ensures InSearch(both, s, tid) <==> InSearch(one, s, tid) && InSearch(other, s, tid)
    decreases Unread(s, tid)
  {
    if AtEvent(s, tid) {
      SearchOpens(both, s, tid);
      SearchOpens(one, s, tid);
      SearchOpens(other, s, tid);
      EventMoves(s, tid);
      var (after, goesOn) := AfterEvent(s, tid);
      if goesOn {
        SearchOfBoth(both, one, other, after, tid);
      }
    }
  }

  lemma {:induction false} RunOfBoth(both: Judgement, one: Judgement, other: Judgement, s: State,
      dict: Dictionary, calls: seq<Call>)
    requires forall t, i: nat :: both(t, i) <==> one(t, i) && other(t, i)
    requires s.Valid(dict) && CallsOk(calls, |s.threads|)
    ensures InRun(both, s, dict, calls) <==> InRun(one, s, dict, calls) && InRun(other, s, dict, calls)
    decreases |calls|
  {
    if calls != [] {
      RunOpens(both, s, dict, calls);
      RunOpens(one, s, dict, calls);
      RunOpens(other, s, dict, calls);
      SearchOfBoth(both, one, other, Reset(s, calls[0].tid), calls[0].tid);
      RunOfBoth(both, one, other, Step(s, dict, calls[0].ret, calls[0].tid).0, dict, calls[1..]);
    }
  }

  // A judgement that holds of every event of a thread's file.
  lemma {:induction false} SearchOfFile(judge: Judgement, s: State, tid: nat, file: seq<DynamicRecord>)
    requires forall t, i: nat :: AtEvent(t, i) && t.threads[i].dynFile.file == file ==> judge(t, i)
    requires Readable(s) && tid < |s.threads| && s.threads[tid].dynFile.file == file
    ensures InSearch(judge, s, tid)
    decreases Unread(s, tid)
  {
    if AtEvent(s, tid) {
      SearchOpens(judge, s, tid);
      EventMoves(s, tid);
      var (after, goesOn) := AfterEvent(s, tid);
      if goesOn {
        SearchOfFile(judge, after, tid, file);
      }
    }
  }
}
