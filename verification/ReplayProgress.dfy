// When the replay of a program of several threads comes to its end: calling the threads
// in turn reads thread 0 past its file exactly when it has no more barriers than any
// other thread and no other thread ends inside a critical region.
module ReplayProgress {
  import opened Packets
  import opened TraceFiles
  import opened MemoryTraces
  import opened StaticTraces
  import opened TraceReaders
  import opened ReplayFidelity
  import opened ThreadEvents
  import opened ThreadScheduling
  import opened BarrierRounds
  import opened EndOfTrace
  import opened ReplayEnd
  import opened Turns

  // ------ The work that is left

  // What is left to do for a thread: records to read, instructions to give, and finding
  // the end of its file.
  function Left(dict: Dictionary, t: ThreadData): (left: nat)
    requires dict.Valid() && InBlock(dict, t)
  {
    DeliveredIsPrefix(dict, t);
    |t.dynFile.file| - t.dynFile.position
      + |Whole(dict, t.dynFile.file)| - |Delivered(dict, t)|
      + if t.dynFile.reachedEnd then 0 else 1
  }

  ghost predicate AllInBlock(dict: Dictionary, threads: seq<ThreadData>) {
    dict.Valid() && forall i :: 0 <= i < |threads| ==> InBlock(dict, threads[i])
  }

  ghost function Lefts(dict: Dictionary, threads: seq<ThreadData>): seq<nat>
    requires AllInBlock(dict, threads)
  {
    seq(|threads|, i requires 0 <= i < |threads| => Left(dict, threads[i]))
  }

  function Sum(numbers: seq<nat>): nat {
    if numbers == [] then 0 else Sum(numbers[..|numbers| - 1]) + numbers[|numbers| - 1]
  }

  lemma {:induction false} SmallerSum(numbers: seq<nat>, i: nat, smaller: nat)
    requires i < |numbers| && smaller < numbers[i]
    ensures Sum(numbers[i := smaller]) < Sum(numbers)
    decreases |numbers|
  {
    var last, after := |numbers| - 1, numbers[i := smaller];
    if i < last {
      SmallerSum(numbers[..last], i, smaller);
      assert after[..last] == numbers[..last][i := smaller];
    } else {
      assert after[..last] == numbers[..last];
    }
  }

  lemma OneThreadLess(dict: Dictionary, threads: seq<ThreadData>, tid: nat, after: seq<ThreadData>)
    requires AllInBlock(dict, threads) && AllInBlock(dict, after)
    requires tid < |threads| == |after| && after == threads[tid := after[tid]]
    requires Left(dict, after[tid]) < Left(dict, threads[tid])
    ensures Sum(Lefts(dict, after)) < Sum(Lefts(dict, threads))
  {
    assert Lefts(dict, after) == Lefts(dict, threads)[tid := Left(dict, after[tid])];
    SmallerSum(Lefts(dict, threads), tid, Left(dict, after[tid]));
  }

  // There are accesses recorded for all memory instructions.
  ghost predicate Equipped(s: State, dict: Dictionary, groups: seq<seq<seq<MemoryOperation>>>)
    requires dict.Valid()
  {
    |groups| == |s.threads|
    && forall i :: 0 <= i < |s.threads| ==> Touching(Whole(dict, s.threads[i].dynFile.file)) <= |groups[i]|
  }

  // Inside a block a call gives the next instruction.
  lemma InsideCallGives(s: State, dict: Dictionary, ret: InstructionPacket, tid: nat, groups: seq<seq<MemoryOperation>>)
    requires s.Valid(dict) && tid < |s.threads| && GroupsFit(groups) && Faithful(dict, s.threads[tid], groups)
    requires s.threads[tid].isInsideBasicBlock
    requires Touching(Whole(dict, s.threads[tid].dynFile.file)) <= |groups|
    ensures FetchInstruction(s, dict, ret, tid).1.Ok?
  {
    var t := s.threads[tid];
    var was, info := Delivered(dict, t), Current(dict, t);
    NextIsOfTheWhole(dict, t);
    TouchingGrows(was + [info], Whole(dict, t.dynFile.file));
    TouchingOneMore(was, info);
    if TouchesMemory(info) {
      NextGroup(t.memFile, groups, Touching(was), ret.(staticInfo := info, loads := [], stores := []));
    }
  }

  // A call changes nothing, or leaves less to do for its thread.
  lemma CallLeavesLess(s: State, dict: Dictionary, ret: InstructionPacket, tid: nat, groups: seq<seq<MemoryOperation>>)
    requires s.Valid(dict) && tid < |s.threads| && GroupsFit(groups) && Faithful(dict, s.threads[tid], groups)
    requires Touching(Whole(dict, s.threads[tid].dynFile.file)) <= |groups|
    ensures var next := Step(s, dict, ret, tid).0;
      |next.threads| == |s.threads| && InBlock(dict, next.threads[tid])
    ensures var next := Step(s, dict, ret, tid).0;
      if HasEnded(s) || s.threads[tid].dynFile.reachedEnd || tid !in s.awake then next == s
      else Left(dict, next.threads[tid]) < Left(dict, s.threads[tid])
  {
    StepOfThread(s, dict, ret, tid, groups);
    StepSchedules(s, dict, ret, tid);
    var next := Step(s, dict, ret, tid).0;
    DeliveredIsPrefix(dict, s.threads[tid]);
    DeliveredIsPrefix(dict, next.threads[tid]);
    if HasEnded(s) || s.threads[tid].dynFile.reachedEnd || tid !in s.awake {
    } else if s.threads[tid].isInsideBasicBlock {
      InsideCallGives(s, dict, ret, tid, groups);
    } else if Unread(s, tid) > 0 {
      SearchAdvances(Reset(s, tid), tid);
      FetchingMoves(Reset(s, tid), tid);
    }
  }

  ghost function LeftIn(s: State, dict: Dictionary, groups: seq<seq<seq<MemoryOperation>>>): nat
    requires AllFaithful(s, dict, groups)
  {
    Sum(Lefts(dict, s.threads))
  }

  lemma CallLeavesLessInSum(s: State, dict: Dictionary, ret: InstructionPacket, tid: nat,
      groups: seq<seq<seq<MemoryOperation>>>)
    requires AllFaithful(s, dict, groups) && Equipped(s, dict, groups) && tid < |s.threads|
    ensures var next := Step(s, dict, ret, tid).0;
      AllFaithful(next, dict, groups)
      && if HasEnded(s) || s.threads[tid].dynFile.reachedEnd || tid !in s.awake then next == s
         else LeftIn(next, dict, groups) < LeftIn(s, dict, groups)
  {
    var next := Step(s, dict, ret, tid).0;
    assert AllFaithful(next, dict, groups) && next.threads == s.threads[tid := next.threads[tid]] by {
      StepIsFaithful(s, dict, ret, tid, groups);
    }
    CallLeavesLess(s, dict, ret, tid, groups[tid]);
    if !(HasEnded(s) || s.threads[tid].dynFile.reachedEnd || tid !in s.awake) {
      OneThreadLess(dict, s.threads, tid, next.threads);
    }
  }

  // ------ Somebody can be moved on

  // Thread `tid` can be moved on.
  predicate CanMove(s: State, tid: nat) {
    tid < |s.threads| && !HasEnded(s) && !s.threads[tid].dynFile.reachedEnd && tid in s.awake
  }

  // No thread but thread 0 has ended inside a critical region.
  ghost predicate NoneEndedInside(s: State) {
    Readable(s)
    && forall i :: 0 < i < |s.threads| && s.threads[i].dynFile.reachedEnd ==> DepthOf(s.threads[i]) == 0
  }

  ghost predicate GoesOn(s: State) {
    InSomeRound()(s) && FewestBarriers(Files(s), 0) && NoneEndedInside(s)
  }

  // As long as the execution has not ended: thread 0 can be moved on, or one that it
  // waits for.
  lemma SomeoneMoves(s: State) returns (tid: nat)
    requires GoesOn(s) && !HasEnded(s)
    ensures CanMove(s, tid)
  {
    var owner: nat, round: nat, waiting: set<nat> :| InRound(s, owner, round, waiting);
    tid := BehindTheOthers(s, owner, round, waiting, 0);
  }

  // ------ Calls in turn

  // The calls of one round, as far as thread `count`.
  function RoundOfCalls(count: nat): seq<Call> {
    seq(count, i requires 0 <= i < count => Call(i, BLANK_PACKET))
  }

  function InTurn(threads: nat, rounds: nat): (calls: seq<Call>)
    ensures CallsOk(calls, threads)
  {
    if rounds == 0 then [] else InTurn(threads, rounds - 1) + RoundOfCalls(threads)
  }

  ghost function AfterRounds(dict: Dictionary, dynFiles: seq<seq<DynamicRecord>>, memFiles: seq<seq<MemoryRecord>>,
      rounds: nat): (s: State)
    requires dict.Valid() && |dynFiles| == |memFiles| > 0
    ensures s.Valid(dict) && |s.threads| == |dynFiles|
  {
    Reached(dict, dynFiles, memFiles, InTurn(|dynFiles|, rounds))
  }

  // The calls of the threads as the steps of parties that take turns.
  ghost function Serving(dict: Dictionary): (State, nat) -> State {
    (s: State, tid: nat) => if s.Valid(dict) && tid < |s.threads| then Step(s, dict, BLANK_PACKET, tid).0 else s
  }

  lemma {:induction false} RoundRuns(s: State, dict: Dictionary, count: nat)
    requires s.Valid(dict) && count <= |s.threads|
    ensures CallsOk(RoundOfCalls(count), |s.threads|)
    ensures Round(Serving(dict), s, count) == Run(s, dict, RoundOfCalls(count))
    decreases count
  {
    if count > 0 {
      var before, call := RoundOfCalls(count - 1), Call(count - 1, BLANK_PACKET);
      RoundRuns(s, dict, count - 1);
      assert RoundOfCalls(count) == before + [call];
      RunsJoin(s, dict, before, [call]);
      OneCallRuns(Run(s, dict, before), dict, call);
    }
  }

  lemma OneMoreRound(s: State, dict: Dictionary, rounds: nat)
    requires s.Valid(dict)
    ensures var before := Run(s, dict, InTurn(|s.threads|, rounds));
      before.Valid(dict) && |before.threads| == |s.threads| && CallsOk(RoundOfCalls(|s.threads|), |s.threads|)
      && Run(s, dict, InTurn(|s.threads|, rounds + 1)) == Run(before, dict, RoundOfCalls(|s.threads|))
  {
    RunsJoin(s, dict, InTurn(|s.threads|, rounds), RoundOfCalls(|s.threads|));
  }

  lemma {:induction false} RoundsRun(s: State, dict: Dictionary, rounds: nat)
    requires s.Valid(dict)
    ensures Rounds(Serving(dict), s, |s.threads|, rounds) == Run(s, dict, InTurn(|s.threads|, rounds))
    decreases rounds
  {
    if rounds > 0 {
      RoundsRun(s, dict, rounds - 1);
      OneMoreRound(s, dict, rounds - 1);
      LastRound(Serving(dict), s, |s.threads|, rounds - 1);
      RoundRuns(Run(s, dict, InTurn(|s.threads|, rounds - 1)), dict, |s.threads|);
    }
  }

  // ------ Coming to the end

  // No critical region ends while a thread waits at a barrier.
  ghost predicate QuietTurns(dict: Dictionary, dynFiles: seq<seq<DynamicRecord>>, memFiles: seq<seq<MemoryRecord>>)
    requires dict.Valid() && |dynFiles| == |memFiles| > 0
  {
    && Opened(dynFiles, memFiles).Valid(dict)
    && forall rounds: nat ::
      InRun(NotDisturbs(), Opened(dynFiles, memFiles), dict, InTurn(|dynFiles|, rounds))
  }

  ghost predicate EnoughAccesses(dict: Dictionary, dynFiles: seq<seq<DynamicRecord>>,
      groups: seq<seq<seq<MemoryOperation>>>)
    requires dict.Valid() && |groups| == |dynFiles|
  {
    forall i :: 0 <= i < |dynFiles| ==> Touching(Whole(dict, dynFiles[i])) <= |groups[i]|
  }

  lemma FilesOfRun(dict: Dictionary, dynFiles: seq<seq<DynamicRecord>>, memFiles: seq<seq<MemoryRecord>>,
      calls: seq<Call>)
    requires dict.Valid() && |dynFiles| == |memFiles| > 0 && CallsOk(calls, |dynFiles|)
    ensures Files(Reached(dict, dynFiles, memFiles, calls)) == dynFiles
  {
    forall j | 0 <= j < |dynFiles|
      ensures Reached(dict, dynFiles, memFiles, calls).threads[j].dynFile.file == dynFiles[j]
    {
      FilesStay(dict, dynFiles, memFiles, calls, j);
    }
  }

  // Between the rounds of quiet turns the barriers hold.
  lemma RoundsHold(dict: Dictionary, dynFiles: seq<seq<DynamicRecord>>, memFiles: seq<seq<MemoryRecord>>, rounds: nat)
    requires dict.Valid() && |dynFiles| == |memFiles| > 0 && QuietTurns(dict, dynFiles, memFiles)
    requires forall i :: 0 <= i < |dynFiles| ==> Nested(dynFiles[i])
    ensures InSomeRound()(AfterRounds(dict, dynFiles, memFiles, rounds))
  {
    QuietRunKeepsRound(dynFiles, memFiles, dict, InTurn(|dynFiles|, rounds));
  }

  ghost predicate IsPrepared(s: State, dict: Dictionary, groups: seq<seq<seq<MemoryOperation>>>) {
    AllFaithful(s, dict, groups) && Equipped(s, dict, groups)
  }

  ghost function Prepared(dict: Dictionary, groups: seq<seq<seq<MemoryOperation>>>): State -> bool {
    (s: State) => IsPrepared(s, dict, groups)
  }

  ghost function LeftFor(dict: Dictionary, groups: seq<seq<seq<MemoryOperation>>>): State -> nat {
    (s: State) => if AllFaithful(s, dict, groups) then LeftIn(s, dict, groups) else 0
  }

  ghost function Going(dict: Dictionary, groups: seq<seq<seq<MemoryOperation>>>): State -> bool {
    (s: State) => IsPrepared(s, dict, groups) && GoesOn(s)
  }

  ghost function Ended(): State -> bool {
    (s: State) => |s.threads| > 0 && HasEnded(s)
  }

  lemma StepPrepares(s: State, dict: Dictionary, tid: nat, groups: seq<seq<seq<MemoryOperation>>>)
    requires IsPrepared(s, dict, groups) && tid < |s.threads|
    ensures var next := Step(s, dict, BLANK_PACKET, tid).0;
      IsPrepared(next, dict, groups)
      && (next == s || LeftIn(next, dict, groups) < LeftIn(s, dict, groups))
      && (CanMove(s, tid) ==> next != s)
  {
    CallLeavesLessInSum(s, dict, BLANK_PACKET, tid, groups);
    StepKeepsFiles(s, dict, BLANK_PACKET, tid);
  }

  lemma ServingDescends(dict: Dictionary, groups: seq<seq<seq<MemoryOperation>>>)
    ensures Descends(Serving(dict), Prepared(dict, groups), LeftFor(dict, groups), |groups|)
  {
    var step, inv, measure := Serving(dict), Prepared(dict, groups), LeftFor(dict, groups);
    forall s: State, tid: nat | inv(s) && tid < |groups|
      ensures inv(step(s, tid)) && (step(s, tid) == s || measure(step(s, tid)) < measure(s))
    {
      StepPrepares(s, dict, tid, groups);
    }
  }

  lemma ServingMoves(dict: Dictionary, groups: seq<seq<seq<MemoryOperation>>>)
    ensures Moves(Serving(dict), Going(dict, groups), Ended(), |groups|)
  {
    var step, goesOn, ended := Serving(dict), Going(dict, groups), Ended();
    forall s: State | goesOn(s) && !ended(s)
      ensures exists tid: nat :: tid < |groups| && step(s, tid) != s
    {
      var tid := SomeoneMoves(s);
      StepPrepares(s, dict, tid, groups);
      assert step(s, tid) == Step(s, dict, BLANK_PACKET, tid).0;
    }
  }

  lemma OpenedIsPrepared(dict: Dictionary, dynFiles: seq<seq<DynamicRecord>>, memFiles: seq<seq<MemoryRecord>>,
      groups: seq<seq<seq<MemoryOperation>>>)
    requires Recorded(dict, dynFiles, memFiles, groups) && EnoughAccesses(dict, dynFiles, groups)
    ensures IsPrepared(Opened(dynFiles, memFiles), dict, groups)
  {
    OpenedIsFaithfulToAll(dict, dynFiles, memFiles, groups);
    forall i | 0 <= i < |dynFiles|
      ensures Opened(dynFiles, memFiles).threads[i] == OpenedThread(dynFiles[i], memFiles[i])
    {
      OpenedAt(dynFiles, memFiles, i);
    }
  }

  lemma TurnsArePrepared(dict: Dictionary, dynFiles: seq<seq<DynamicRecord>>, memFiles: seq<seq<MemoryRecord>>,
      groups: seq<seq<seq<MemoryOperation>>>, rounds: nat)
    requires Recorded(dict, dynFiles, memFiles, groups) && EnoughAccesses(dict, dynFiles, groups)
    ensures IsPrepared(AfterRounds(dict, dynFiles, memFiles, rounds), dict, groups)
  {
    OpenedIsPrepared(dict, dynFiles, memFiles, groups);
    RunIsFaithful(Opened(dynFiles, memFiles), dict, InTurn(|dynFiles|, rounds), 0, groups);
    FilesOfRun(dict, dynFiles, memFiles, InTurn(|dynFiles|, rounds));
    var s := AfterRounds(dict, dynFiles, memFiles, rounds);
    forall i | 0 <= i < |dynFiles|
      ensures s.threads[i].dynFile.file == dynFiles[i]
    {
      assert Files(s)[i] == dynFiles[i];
    }
  }

  // Quiet turns come to the end, as long as thread 0 has the fewest barriers and no other
  // thread ends inside a region.
  lemma TurnsEnd(dict: Dictionary, dynFiles: seq<seq<DynamicRecord>>, memFiles: seq<seq<MemoryRecord>>,
      groups: seq<seq<seq<MemoryOperation>>>) returns (rounds: nat)
    requires Recorded(dict, dynFiles, memFiles, groups) && EnoughAccesses(dict, dynFiles, groups)
    requires QuietTurns(dict, dynFiles, memFiles)
    requires forall i :: 0 <= i < |dynFiles| ==> Nested(dynFiles[i])
    requires FewestBarriers(dynFiles, 0)
    requires forall n: nat :: NoneEndedInside(AfterRounds(dict, dynFiles, memFiles, n))
    ensures HasEnded(AfterRounds(dict, dynFiles, memFiles, rounds))
  {
    var step, first := Serving(dict), Opened(dynFiles, memFiles);
    forall n: nat
      ensures Going(dict, groups)(Rounds(step, first, |groups|, n))
    {
      RoundsRun(first, dict, n);
      RoundsHold(dict, dynFiles, memFiles, n);
      TurnsArePrepared(dict, dynFiles, memFiles, groups, n);
      FilesOfRun(dict, dynFiles, memFiles, InTurn(|dynFiles|, n));
      assert NoneEndedInside(AfterRounds(dict, dynFiles, memFiles, n));
    }
    OpenedIsPrepared(dict, dynFiles, memFiles, groups);
    ServingDescends(dict, groups);
    ServingMoves(dict, groups);
    rounds := RoundsEnd(step, Prepared(dict, groups), LeftFor(dict, groups), Going(dict, groups), Ended(), |groups|,
                        first);
    RoundsRun(first, dict, rounds);
  }

  // ------ Not coming to the end

  ghost predicate NoAbruptEnds(file: seq<DynamicRecord>) {
    forall k :: 0 <= k < |file| ==> file[k] != ThreadEvent(AbruptEnd)
  }

  lemma {:induction false} SearchIsNotAbrupt(s: State, tid: nat)
    requires Readable(s) && tid < |s.threads| && NoAbruptEnds(s.threads[tid].dynFile.file)
    ensures FetchBlock(s, tid).0.reachedAbruptEnd == s.reachedAbruptEnd
    decreases Unread(s, tid)
  {
    if AtEvent(s, tid) {
      SearchGoesOn(s, tid);
      EventMoves(s, tid);
      var (after, goesOn) := AfterEvent(s, tid);
      if goesOn {
        SearchIsNotAbrupt(after, tid);
      }
    }
  }

  // A thread that finds the end of its file is awake.
  lemma {:induction false} SearchEndsAwakeToo(s: State, tid: nat)
    requires Readable(s) && tid < |s.threads| && tid in s.awake && !s.threads[tid].dynFile.reachedEnd
    ensures var next := FetchBlock(s, tid).0;
      tid < |next.threads| && (next.threads[tid].dynFile.reachedEnd ==> tid in next.awake)
    decreases Unread(s, tid)
  {
    if AtEvent(s, tid) {
      SearchGoesOn(s, tid);
      EventMoves(s, tid);
      AwakeGoesOn(s, tid);
      var (after, goesOn) := AfterEvent(s, tid);
      assert !after.threads[tid].dynFile.reachedEnd;
      if goesOn {
        SearchEndsAwakeToo(after, tid);
      }
    } else {
      PlainRead(s, tid);
    }
  }

  // Execution ends only when thread 0 finds the end of its file, and then it is awake.
  ghost predicate EndsAwake(s: State) {
    && |s.threads| > 0 && !s.reachedAbruptEnd
    && (forall i :: 0 <= i < |s.threads| ==> NoAbruptEnds(s.threads[i].dynFile.file))
    && (s.threads[0].dynFile.reachedEnd ==> 0 in s.awake)
  }

  lemma StepIsNotAbrupt(s: State, dict: Dictionary, ret: InstructionPacket, tid: nat)
    requires s.Valid(dict) && tid < |s.threads| && NoAbruptEnds(s.threads[tid].dynFile.file)
    ensures Step(s, dict, ret, tid).0.reachedAbruptEnd == s.reachedAbruptEnd
  {
    EnteringIsValid(s, dict, tid);
    SearchIsNotAbrupt(Reset(s, tid), tid);
  }

  lemma StepEndsAwake(s: State, dict: Dictionary, ret: InstructionPacket, tid: nat)
    requires s.Valid(dict) && tid < |s.threads| && EndsAwake(s)
    ensures EndsAwake(Step(s, dict, ret, tid).0)
  {
    StepIsNotAbrupt(s, dict, ret, tid);
    StepKeepsFiles(s, dict, ret, tid);
    StepSchedules(s, dict, ret, tid);
    if Searches(s, tid) {
      FetchingMoves(Reset(s, tid), tid);
      SearchEndsAwakeToo(Reset(s, tid), tid);
    }
  }

  lemma {:induction false} RunEndsAwakeToo(s: State, dict: Dictionary, calls: seq<Call>)
    requires s.Valid(dict) && CallsOk(calls, |s.threads|) && EndsAwake(s)
    ensures EndsAwake(Run(s, dict, calls))
    decreases |calls|
  {
    if calls != [] {
      FirstCall(s, dict, calls, 0);
      StepEndsAwake(s, dict, calls[0].ret, calls[0].tid);
      RunEndsAwakeToo(Step(s, dict, calls[0].ret, calls[0].tid).0, dict, calls[1..]);
    }
  }

  lemma ReachedEndsAwake(dict: Dictionary, dynFiles: seq<seq<DynamicRecord>>, memFiles: seq<seq<MemoryRecord>>,
      calls: seq<Call>)
    requires dict.Valid() && |dynFiles| == |memFiles| > 0 && CallsOk(calls, |dynFiles|)
    requires forall i :: 0 <= i < |dynFiles| ==> NoAbruptEnds(dynFiles[i])
    ensures EndsAwake(Reached(dict, dynFiles, memFiles, calls))
  {
    OpenedIsValid(dict, dynFiles, memFiles);
    forall i | 0 <= i < |dynFiles|
      ensures Opened(dynFiles, memFiles).threads[i] == OpenedThread(dynFiles[i], memFiles[i])
    {
      OpenedAt(dynFiles, memFiles, i);
    }
    RunEndsAwakeToo(Opened(dynFiles, memFiles), dict, calls);
  }

  // Whatever the order of the calls: in a quiet run thread 0 is read past its file only if
  // no other thread has fewer barriers.
  lemma EndsOnlyWithFewestBarriers(dict: Dictionary, dynFiles: seq<seq<DynamicRecord>>,
      memFiles: seq<seq<MemoryRecord>>, calls: seq<Call>)
    requires dict.Valid() && |dynFiles| == |memFiles| > 0 && CallsOk(calls, |dynFiles|)
    requires forall i :: 0 <= i < |dynFiles| ==> Nested(dynFiles[i]) && NoAbruptEnds(dynFiles[i])
    requires Opened(dynFiles, memFiles).Valid(dict)
    requires InRun(NotDisturbs(), Opened(dynFiles, memFiles), dict, calls)
    requires HasEnded(Reached(dict, dynFiles, memFiles, calls))
    ensures FewestBarriers(dynFiles, 0)
  {
    var s := Reached(dict, dynFiles, memFiles, calls);
    ReachedEndsAwake(dict, dynFiles, memFiles, calls);
    QuietRunKeepsRound(dynFiles, memFiles, dict, calls);
    FilesOfRun(dict, dynFiles, memFiles, calls);
    var owner: nat, round: nat, waiting: set<nat> :| InRound(s, owner, round, waiting);
    RoundsAreSafe(s, owner, round, waiting);
    forall i | 0 <= i < |dynFiles|
      ensures Barriers(dynFiles[0], |dynFiles[0]|) <= Barriers(dynFiles[i], |dynFiles[i]|)
    {
      assert Files(s)[0] == dynFiles[0] && Files(s)[i] == dynFiles[i];
      assert Passed(s.threads[0]) <= Passed(s.threads[i]);
      BarriersGrow(dynFiles[i], s.threads[i].dynFile.position, |dynFiles[i]|);
    }
  }

  // A state in which no thread can be moved on stays as it is.
  lemma {:induction false} NobodyMoves(s: State, dict: Dictionary, calls: seq<Call>, tid: nat)
    requires s.Valid(dict) && CallsOk(calls, |s.threads|)
    requires forall i: nat :: !CanMove(s, i)
    ensures Run(s, dict, calls) == s && Fetches(s, dict, calls, tid) == []
    decreases |calls|
  {
    if calls != [] {
      assert !CanMove(s, calls[0].tid);
      FirstCall(s, dict, calls, tid);
      NobodyMoves(s, dict, calls[1..], tid);
    }
  }

  // A thread that has ended inside a region keeps all others from being moved on.
  lemma EndedInsideIsStuck(s: State)
    requires InSomeRound()(s) && EndsAwake(s) && !NoneEndedInside(s)
    ensures !HasEnded(s) && forall tid: nat :: !CanMove(s, tid)
  {
    var owner: nat, round: nat, waiting: set<nat> :| InRound(s, owner, round, waiting);
    var i :| 0 < i < |s.threads| && s.threads[i].dynFile.reachedEnd && DepthOf(s.threads[i]) != 0;
    assert i == owner && s.awake == {owner};
  }

  lemma {:induction false} TurnsJoin(threads: nat, a: nat, b: nat)
    ensures InTurn(threads, a + b) == InTurn(threads, a) + InTurn(threads, b)
    decreases b
  {
    if b > 0 {
      TurnsJoin(threads, a, b - 1);
    }
  }

  // A state that nobody moves on is that of all later rounds.
  lemma RoundsStay(dict: Dictionary, dynFiles: seq<seq<DynamicRecord>>, memFiles: seq<seq<MemoryRecord>>,
      a: nat, b: nat)
    requires dict.Valid() && |dynFiles| == |memFiles| > 0 && a <= b
    requires forall tid: nat :: !CanMove(AfterRounds(dict, dynFiles, memFiles, a), tid)
    ensures AfterRounds(dict, dynFiles, memFiles, b) == AfterRounds(dict, dynFiles, memFiles, a)
  {
    OpenedIsValid(dict, dynFiles, memFiles);
    TurnsJoin(|dynFiles|, a, b - a);
    RunsJoin(Opened(dynFiles, memFiles), dict, InTurn(|dynFiles|, a), InTurn(|dynFiles|, b - a));
    NobodyMoves(AfterRounds(dict, dynFiles, memFiles, a), dict, InTurn(|dynFiles|, b - a), 0);
  }

  // Exactly when quiet turns come to the end: thread 0 has no more barriers than any other
  // thread, and no other thread ends inside a critical region.
  lemma EndsIff(dict: Dictionary, dynFiles: seq<seq<DynamicRecord>>, memFiles: seq<seq<MemoryRecord>>,
      groups: seq<seq<seq<MemoryOperation>>>)
    requires Recorded(dict, dynFiles, memFiles, groups) && EnoughAccesses(dict, dynFiles, groups)
    requires QuietTurns(dict, dynFiles, memFiles)
    requires forall i :: 0 <= i < |dynFiles| ==> Nested(dynFiles[i]) && NoAbruptEnds(dynFiles[i])
    ensures (exists rounds: nat :: HasEnded(AfterRounds(dict, dynFiles, memFiles, rounds)))
      <==>
        && FewestBarriers(dynFiles, 0)
        && forall rounds: nat :: NoneEndedInside(AfterRounds(dict, dynFiles, memFiles, rounds))
  {
    if last: nat :| HasEnded(AfterRounds(dict, dynFiles, memFiles, last)) {
      EndsOnlyWithFewestBarriers(dict, dynFiles, memFiles, InTurn(|dynFiles|, last));
      forall rounds: nat
        ensures NoneEndedInside(AfterRounds(dict, dynFiles, memFiles, rounds))
      {
        RoundsHold(dict, dynFiles, memFiles, rounds);
        ReachedEndsAwake(dict, dynFiles, memFiles, InTurn(|dynFiles|, rounds));
        if !NoneEndedInside(AfterRounds(dict, dynFiles, memFiles, rounds)) {
          EndedInsideIsStuck(AfterRounds(dict, dynFiles, memFiles, rounds));
          RoundsStay(dict, dynFiles, memFiles, if last <= rounds then last else rounds,
                     if last <= rounds then rounds else last);
        }
      }
    }
    if FewestBarriers(dynFiles, 0)
      && forall n: nat :: NoneEndedInside(AfterRounds(dict, dynFiles, memFiles, n))
    {
      var rounds := TurnsEnd(dict, dynFiles, memFiles, groups);
    }
  }

  // With all regions closed, the barriers alone decide.
  lemma ReplayEnds(dict: Dictionary, dynFiles: seq<seq<DynamicRecord>>, memFiles: seq<seq<MemoryRecord>>,
      groups: seq<seq<seq<MemoryOperation>>>)
    requires Recorded(dict, dynFiles, memFiles, groups) && EnoughAccesses(dict, dynFiles, groups)
    requires QuietTurns(dict, dynFiles, memFiles)
    requires forall i :: 0 <= i < |dynFiles| ==> Nested(dynFiles[i]) && NoAbruptEnds(dynFiles[i])
    requires forall i :: 0 < i < |dynFiles| ==> Closed(dynFiles[i])
    ensures (exists rounds: nat :: HasEnded(AfterRounds(dict, dynFiles, memFiles, rounds)))
      <==> FewestBarriers(dynFiles, 0)
  {
    forall rounds: nat
      ensures NoneEndedInside(AfterRounds(dict, dynFiles, memFiles, rounds))
    {
      var s := AfterRounds(dict, dynFiles, memFiles, rounds);
      FilesOfRun(dict, dynFiles, memFiles, InTurn(|dynFiles|, rounds));
      forall i | 0 < i < |s.threads| && s.threads[i].dynFile.reachedEnd
        ensures DepthOf(s.threads[i]) == 0
      {
        assert Files(s)[i] == dynFiles[i];
      }
    }
    EndsIff(dict, dynFiles, memFiles, groups);
  }

  // ------ Programs whose turns are quiet

  lemma OpenedHasNoRegions(dynFiles: seq<seq<DynamicRecord>>, memFiles: seq<seq<MemoryRecord>>)
    requires |dynFiles| == |memFiles| > 0
    requires forall i :: 0 <= i < |dynFiles| ==> NoRegions(dynFiles[i])
    ensures AllWithoutRegions(Opened(dynFiles, memFiles))
  {
    OpenedIsPlain(dynFiles, memFiles);
  }

  // Without critical regions: the turns come to the end exactly when thread 0 has no more
  // barriers than any other thread.
  lemma EndsIffFewestBarriers(dict: Dictionary, dynFiles: seq<seq<DynamicRecord>>,
      memFiles: seq<seq<MemoryRecord>>, groups: seq<seq<seq<MemoryOperation>>>)
    requires Recorded(dict, dynFiles, memFiles, groups) && EnoughAccesses(dict, dynFiles, groups)
    requires forall i :: 0 <= i < |dynFiles| ==> NoRegions(dynFiles[i]) && NoAbruptEnds(dynFiles[i])
    ensures (exists rounds: nat :: HasEnded(AfterRounds(dict, dynFiles, memFiles, rounds)))
      <==> FewestBarriers(dynFiles, 0)
  {
    OpenedIsValid(dict, dynFiles, memFiles);
    OpenedHasNoRegions(dynFiles, memFiles);
    forall rounds: nat
      ensures InRun(NotDisturbs(), Opened(dynFiles, memFiles), dict, InTurn(|dynFiles|, rounds))
    {
      RunIsQuiet(Opened(dynFiles, memFiles), dict, InTurn(|dynFiles|, rounds));
    }
    forall i | 0 <= i < |dynFiles|
      ensures Nested(dynFiles[i]) && Closed(dynFiles[i])
    {
      NoRegionsNest(dynFiles[i]);
      NoDepth(dynFiles[i], |dynFiles[i]|);
    }
    ReplayEnds(dict, dynFiles, memFiles, groups);
  }

  ghost predicate NoBarriers(file: seq<DynamicRecord>) {
    forall k :: 0 <= k < |file| ==> file[k] != BARRIER
  }

  lemma {:induction false} NoBarriersCounted(file: seq<DynamicRecord>, count: nat)
    requires NoBarriers(file) && count <= |file|
    ensures Barriers(file, count) == 0
  {
    if count > 0 {
      NoBarriersCounted(file, count - 1);
    }
  }

  ghost predicate AllWithoutBarriers(s: State) {
    forall i :: 0 <= i < |s.threads| ==> NoBarriers(s.threads[i].dynFile.file)
  }

  ghost function RoundWithoutBarriers(): State -> bool {
    (s: State) => InSomeRound()(s) && AllWithoutBarriers(s)
  }

  lemma NobodyWaits(s: State, tid: nat)
    requires InSomeRound()(s) && AllWithoutBarriers(s) && ReadsEvent(s, tid)
    ensures !Disturbs(s, tid)
  {
    var owner: nat, round: nat, waiting: set<nat> :| InRound(s, owner, round, waiting);
    AllThreadsAre(|s.threads|);
    forall i | i in waiting
      ensures false
    {
      var source := s.threads[i].dynFile;
      NoBarriersCounted(source.file, source.position);
    }
    assert waiting == {};
  }

  lemma NobodyWaitsEver()
    ensures OfSchedule(RoundWithoutBarriers())
    ensures Agree(NotDisturbs(), Anything(), RoundWithoutBarriers())
  {
    var inv := RoundWithoutBarriers();
    RoundsAreOfSchedule();
    RoundsAgree();
    forall s, tid: nat | inv(s) && tid < |s.threads| && !AtEvent(s, tid)
      ensures inv(FetchBlock(s, tid).0)
    {
      PlainRead(s, tid);
    }
    forall s, tid: nat | inv(s) && ReadsEvent(s, tid)
      ensures NotDisturbs()(s, tid) && inv(AfterEvent(s, tid).0)
    {
      NobodyWaits(s, tid);
      EventMoves(s, tid);
    }
  }

  // Critical regions alone, all of them closed, never keep the turns from coming to the end.
  lemma EndsWithoutBarriers(dict: Dictionary, dynFiles: seq<seq<DynamicRecord>>,
      memFiles: seq<seq<MemoryRecord>>, groups: seq<seq<seq<MemoryOperation>>>)
    requires Recorded(dict, dynFiles, memFiles, groups) && EnoughAccesses(dict, dynFiles, groups)
    requires forall i :: 0 <= i < |dynFiles| ==> NoBarriers(dynFiles[i]) && RegionsNest(dynFiles[i])
    requires forall i :: 0 <= i < |dynFiles| ==> Closed(dynFiles[i]) && NoAbruptEnds(dynFiles[i])
    ensures exists rounds: nat :: HasEnded(AfterRounds(dict, dynFiles, memFiles, rounds))
  {
    var first := Opened(dynFiles, memFiles);
    OpenedIsValid(dict, dynFiles, memFiles);
    OpenedIsInRound(dynFiles, memFiles);
    forall i | 0 <= i < |dynFiles|
      ensures first.threads[i] == OpenedThread(dynFiles[i], memFiles[i])
      ensures Barriers(dynFiles[i], |dynFiles[i]|) == 0
    {
      OpenedAt(dynFiles, memFiles, i);
      NoBarriersCounted(dynFiles[i], |dynFiles[i]|);
    }
    NobodyWaitsEver();
    assert InSomeRound()(first) && AllWithoutBarriers(first);
    forall rounds: nat
      ensures InRun(NotDisturbs(), first, dict, InTurn(|dynFiles|, rounds))
    {
      var calls := InTurn(|dynFiles|, rounds);
      AnythingHolds(first, dict, calls);
      RunAgrees(NotDisturbs(), Anything(), RoundWithoutBarriers(), first, dict, calls);
    }
    ReplayEnds(dict, dynFiles, memFiles, groups);
  }

  // ------ Programs that never come to their end

  const UNEVEN := [[BARRIER, BasicBlockIdentifier(0)], [BasicBlockIdentifier(0)]]

  // Thread 0 waits at a barrier that thread 1 does not have. Whatever is called, in
  // whatever order, the execution never ends.
  lemma WaitsForNobody(dict: Dictionary, ret: InstructionPacket, calls: seq<Call>)
    requires dict.Valid() && CallsOk(calls, 2)
    ensures !HasEnded(Reached(dict, UNEVEN, [[], []], calls))
    ensures CallsOk([Call(0, ret)], 2)
    ensures var s := Reached(dict, UNEVEN, [[], []], [Call(0, ret)]); s.awake == {1} && s.barrierCont == 1
  {
    var first := Opened(UNEVEN, [[], []]);
    OpenedIsValid(dict, UNEVEN, [[], []]);
    OpenedAt(UNEVEN, [[], []], 0);
    AllThreadsAre(2);
    SearchGoesOn(Reset(first, 0), 0);
    StepSchedules(first, dict, ret, 0);
    OneCallRuns(first, dict, Call(0, ret));
    forall i | 0 <= i < 2
      ensures Nested(UNEVEN[i]) && NoAbruptEnds(UNEVEN[i])
    {
      NoRegionsNest(UNEVEN[i]);
    }
    assert !FewestBarriers(UNEVEN, 0) by {
      assert Barriers(UNEVEN[0], 0) == 0 && Barriers(UNEVEN[0], 1) == 1 && Barriers(UNEVEN[0], 2) == 1;
      assert Barriers(UNEVEN[1], 0) == 0 && Barriers(UNEVEN[1], 1) == 0;
    }
    OpenedHasNoRegions(UNEVEN, [[], []]);
    RunIsQuiet(first, dict, calls);
    if HasEnded(Reached(dict, UNEVEN, [[], []], calls)) {
      EndsOnlyWithFewestBarriers(dict, UNEVEN, [[], []], calls);
    }
  }

  const ENDS_INSIDE := [[BasicBlockIdentifier(0)], [START]]

  // Thread 1 ends inside a region: it stays the only one awake, and thread 0 is never given
  // its block.
  lemma EndsInsideARegion(dict: Dictionary, ret: InstructionPacket, later: seq<Call>, tid: nat)
    requires dict.Valid() && CallsOk(later, 2)
    ensures CallsOk([Call(1, ret)] + later, 2) && Opened(ENDS_INSIDE, [[], []]).Valid(dict)
    ensures var s := Reached(dict, ENDS_INSIDE, [[], []], [Call(1, ret)] + later);
      !HasEnded(s) && s.awake == {1} && s.threads[1].dynFile.reachedEnd
    ensures Fetches(Opened(ENDS_INSIDE, [[], []]), dict, [Call(1, ret)] + later, tid) == []
  {
    var first, calls := Opened(ENDS_INSIDE, [[], []]), [Call(1, ret)] + later;
    OpenedIsValid(dict, ENDS_INSIDE, [[], []]);
    OpenedAt(ENDS_INSIDE, [[], []], 0);
    OpenedAt(ENDS_INSIDE, [[], []], 1);
    AllThreadsAre(2);
    var searching := Reset(first, 1);
    SearchGoesOn(searching, 1);
    var inside := AfterEvent(searching, 1).0;
    assert inside.awake == {1};
    StepSchedules(first, dict, ret, 1);
    FirstCall(first, dict, calls, tid);
    assert calls[1..] == later;
    NobodyMoves(Step(first, dict, ret, 1).0, dict, later, tid);
  }
}
