// Barriers: no thread passes one before all have come to it, and no thread waits there
// for ever -- as long as critical regions do not interfere.
module BarrierRounds {
  import opened Packets
  import opened TraceFiles
  import opened StaticTraces
  import opened TraceReaders
  import opened ReplayFidelity
  import opened ThreadEvents
  import opened ThreadScheduling

  // No thread that may run has passed more barriers than any other thread.
  ghost predicate BarrierSafe(s: State) {
    Readable(s)
    && forall a: nat, j: nat :: a in s.awake && a < |s.threads| && j < |s.threads| ==>
      Passed(s.threads[a]) <= Passed(s.threads[j])
  }

  // All threads have passed `round` barriers, those that wait one more.
  ghost predicate Arrived(s: State, round: nat, waiting: set<nat>)
    requires Readable(s)
  {
    forall i :: 0 <= i < |s.threads| ==> Passed(s.threads[i]) == if i in waiting then round + 1 else round
  }

  // A thread runs if it neither waits at a barrier nor is kept out of a critical region.
  ghost predicate InRound(s: State, owner: nat, round: nat, waiting: set<nat>) {
    && Exclusive(s, owner)
    && Arrived(s, round, waiting)
    && waiting <= AllThreads(|s.threads|)
    && s.barrierCont == |waiting| < |s.threads|
    && if s.criticalCont == 0 then s.awake == AllThreads(|s.threads|) - waiting else owner !in waiting
  }

  lemma FullSet(part: set<nat>, whole: set<nat>)
    requires part <= whole && |part| == |whole|
    ensures part == whole
  {
    assert part + (whole - part) == whole;
    assert |whole| == |part| + |whole - part|;
  }

  lemma RoundsAreSafe(s: State, owner: nat, round: nat, waiting: set<nat>)
    requires InRound(s, owner, round, waiting)
    ensures BarrierSafe(s)
  {
    AllThreadsAre(|s.threads|);
  }

  // The last critical region ends while a thread waits at a barrier.
  ghost predicate Disturbs(s: State, tid: nat)
    requires AtEvent(s, tid)
  {
    Record(s, tid) == END && s.criticalCont == 1 && s.barrierCont != 0
  }

  lemma ArrivedAfter(s: State, tid: nat, round: nat, waiting: set<nat>)
    requires AtEvent(s, tid) && Arrived(s, round, waiting) && tid !in waiting
    ensures Readable(AfterEvent(s, tid).0)
    ensures Arrived(AfterEvent(s, tid).0, round, if Record(s, tid) == BARRIER then waiting + {tid} else waiting)
  {
    EventMoves(s, tid);
  }

  // A thread that reads is not one of those that wait, and comes to a barrier only
  // outside of critical regions.
  lemma ReaderRuns(s: State, tid: nat, owner: nat, round: nat, waiting: set<nat>)
    requires InRound(s, owner, round, waiting) && ReadsEvent(s, tid)
    ensures tid !in waiting
    ensures Record(s, tid) == BARRIER ==> s.criticalCont == 0
    ensures Record(s, tid) == END ==> s.criticalCont > 0
    ensures s.criticalCont > 0 ==> tid == owner
  {
    var file, position := s.threads[tid].dynFile.file, s.threads[tid].dynFile.position;
    assert Nested(file);
    assert Depth(file, position + 1) >= 0;
  }

  lemma NextRound(s: State, round: nat)
    requires Readable(s) && Arrived(s, round, AllThreads(|s.threads|))
    ensures Arrived(s, round + 1, {})
  {
    AllThreadsAre(|s.threads|);
  }

  // A thread comes to a barrier and waits there.
  lemma WaitsAtBarrier(s: State, tid: nat, owner: nat, round: nat, waiting: set<nat>)
    requires InRound(s, owner, round, waiting) && ReadsEvent(s, tid)
    requires Record(s, tid) == BARRIER && s.barrierCont + 1 != |s.threads|
    ensures InRound(AfterEvent(s, tid).0, tid, round, waiting + {tid})
  {
    ReaderRuns(s, tid, owner, round, waiting);
    EventKeepsExclusion(s, tid, owner);
    EventMoves(s, tid);
    ArrivedAfter(s, tid, round, waiting);
    EventEffect(s, tid);
    AllThreadsAre(|s.threads|);
  }

  // The last thread comes to a barrier: the next round begins.
  lemma LastAtBarrier(s: State, tid: nat, owner: nat, round: nat, waiting: set<nat>)
    requires InRound(s, owner, round, waiting) && ReadsEvent(s, tid)
    requires Record(s, tid) == BARRIER && s.barrierCont + 1 == |s.threads|
    ensures InRound(AfterEvent(s, tid).0, tid, round + 1, {})
  {
    ReaderRuns(s, tid, owner, round, waiting);
    EventKeepsExclusion(s, tid, owner);
    EventMoves(s, tid);
    ArrivedAfter(s, tid, round, waiting);
    EventEffect(s, tid);
    AllThreadsAre(|s.threads|);
    FullSet(waiting + {tid}, AllThreads(|s.threads|));
    NextRound(AfterEvent(s, tid).0, round);
  }

  lemma OtherEventsKeepRounds(s: State, tid: nat, owner: nat, round: nat, waiting: set<nat>)
    requires InRound(s, owner, round, waiting) && ReadsEvent(s, tid)
    requires Record(s, tid) != BARRIER && !Disturbs(s, tid)
    ensures InRound(AfterEvent(s, tid).0, OwnerAfter(s, tid, owner), round, waiting)
  {
    ReaderRuns(s, tid, owner, round, waiting);
    EventKeepsExclusion(s, tid, owner);
    EventMoves(s, tid);
    ArrivedAfter(s, tid, round, waiting);
    EventEffect(s, tid);
    if Record(s, tid) == END && s.criticalCont == 1 {
      assert waiting == {};
    }
  }

  // Waking everybody at the end of a region wakes those who wait at a barrier.
  lemma DisturbanceIsUnsafe(s: State, tid: nat, owner: nat, round: nat, waiting: set<nat>)
    requires InRound(s, owner, round, waiting) && ReadsEvent(s, tid) && Disturbs(s, tid)
    ensures !BarrierSafe(AfterEvent(s, tid).0)
  {
    var after := AfterEvent(s, tid).0;
    AllThreadsAre(|s.threads|);
    ReaderRuns(s, tid, owner, round, waiting);
    EventMoves(s, tid);
    EventEffect(s, tid);
    ArrivedAfter(s, tid, round, waiting);
    var early :| early in waiting;
    assert early in after.awake && Passed(after.threads[early]) > Passed(after.threads[tid]);
  }

  ghost function InSomeRound(): State -> bool {
    (s: State) => exists owner: nat, round: nat, waiting: set<nat> :: InRound(s, owner, round, waiting)
  }

  ghost function ThenSafe(): Judgement {
    (s: State, tid: nat) => AtEvent(s, tid) ==> BarrierSafe(AfterEvent(s, tid).0)
  }

  ghost function NotDisturbs(): Judgement {
    (s: State, tid: nat) => AtEvent(s, tid) ==> !Disturbs(s, tid)
  }

  lemma SameScheduleKeepsRound(s: State, t: State, owner: nat, round: nat, waiting: set<nat>)
    requires InRound(s, owner, round, waiting) && SameSchedule(s, t)
    ensures InRound(t, owner, round, waiting)
  {
  }

  lemma PlainReadKeepsRound(s: State, tid: nat, owner: nat, round: nat, waiting: set<nat>)
    requires InRound(s, owner, round, waiting) && tid < |s.threads| && !AtEvent(s, tid)
    ensures InRound(FetchBlock(s, tid).0, owner, round, waiting)
  {
    PlainReadKeepsOwner(s, tid, owner);
    PlainRead(s, tid);
  }

  lemma RoundsAreOfSchedule()
    ensures OfSchedule(InSomeRound())
  {
    var inv := InSomeRound();
    forall s, t | inv(s) && SameSchedule(s, t)
      ensures inv(t)
    {
      var owner: nat, round: nat, waiting: set<nat> :| InRound(s, owner, round, waiting);
      SameScheduleKeepsRound(s, t, owner, round, waiting);
    }
    forall s, tid: nat | inv(s) && tid < |s.threads| && !AtEvent(s, tid)
      ensures inv(FetchBlock(s, tid).0)
    {
      var owner: nat, round: nat, waiting: set<nat> :| InRound(s, owner, round, waiting);
      PlainReadKeepsRound(s, tid, owner, round, waiting);
    }
  }

  lemma EventIsSafeIffQuiet(s: State, tid: nat, owner: nat, round: nat, waiting: set<nat>)
    requires InRound(s, owner, round, waiting) && ReadsEvent(s, tid)
    ensures BarrierSafe(AfterEvent(s, tid).0) <==> !Disturbs(s, tid)
    ensures !Disturbs(s, tid) ==> InSomeRound()(AfterEvent(s, tid).0)
  {
    var after := AfterEvent(s, tid).0;
    if Disturbs(s, tid) {
      DisturbanceIsUnsafe(s, tid, owner, round, waiting);
    } else if Record(s, tid) != BARRIER {
      OtherEventsKeepRounds(s, tid, owner, round, waiting);
      RoundsAreSafe(after, OwnerAfter(s, tid, owner), round, waiting);
    } else if s.barrierCont + 1 == |s.threads| {
      LastAtBarrier(s, tid, owner, round, waiting);
      RoundsAreSafe(after, tid, round + 1, {});
    } else {
      WaitsAtBarrier(s, tid, owner, round, waiting);
      RoundsAreSafe(after, tid, round, waiting + {tid});
    }
  }

  lemma RoundsAgree()
    ensures Agree(ThenSafe(), NotDisturbs(), InSomeRound())
  {
    var one, other, inv := ThenSafe(), NotDisturbs(), InSomeRound();
    forall s, tid: nat | inv(s) && ReadsEvent(s, tid)
      ensures (one(s, tid) <==> other(s, tid)) && (other(s, tid) ==> inv(AfterEvent(s, tid).0))
    {
      var owner: nat, round: nat, waiting: set<nat> :| InRound(s, owner, round, waiting);
      EventIsSafeIffQuiet(s, tid, owner, round, waiting);
    }
  }

  lemma OpenedIsInRound(dynFiles: seq<seq<DynamicRecord>>, memFiles: seq<seq<MemoryRecord>>)
    requires |dynFiles| == |memFiles| > 0
    requires forall i :: 0 <= i < |dynFiles| ==> Nested(dynFiles[i])
    ensures InRound(Opened(dynFiles, memFiles), 0, 0, {})
  {
    OpenedIsExclusive(dynFiles, memFiles);
    forall i | 0 <= i < |dynFiles|
      ensures OpenedThreads(dynFiles, memFiles)[i] == OpenedThread(dynFiles[i], memFiles[i])
    {
      OpenedAt(dynFiles, memFiles, i);
    }
    AllThreadsAre(|dynFiles|);
  }

  // Barriers hold through a run -- behind every event, no thread that may run is ahead of
  // another -- exactly when no critical region ends while a thread waits at a barrier.
  lemma BarriersHoldIffQuiet(dict: Dictionary, dynFiles: seq<seq<DynamicRecord>>,
      memFiles: seq<seq<MemoryRecord>>, calls: seq<Call>)
    requires dict.Valid() && |dynFiles| == |memFiles| > 0 && CallsOk(calls, |dynFiles|)
    requires forall i :: 0 <= i < |dynFiles| ==> Nested(dynFiles[i])
    ensures Opened(dynFiles, memFiles).Valid(dict)
    ensures InRun(ThenSafe(), Opened(dynFiles, memFiles), dict, calls)
      <==> InRun(NotDisturbs(), Opened(dynFiles, memFiles), dict, calls)
  {
    OpenedIsValid(dict, dynFiles, memFiles);
    OpenedIsInRound(dynFiles, memFiles);
    RoundsAreOfSchedule();
    RoundsAgree();
    RunAgrees(ThenSafe(), NotDisturbs(), InSomeRound(), Opened(dynFiles, memFiles), dict, calls);
  }

  // ------ Traces without critical events

  ghost predicate NoRegions(file: seq<DynamicRecord>) {
    forall k :: 0 <= k < |file| ==> file[k] != START && file[k] != END
  }

  lemma {:induction false} NoDepth(file: seq<DynamicRecord>, count: nat)
    requires NoRegions(file) && count <= |file|
    ensures Depth(file, count) == 0
  {
    if count > 0 {
      NoDepth(file, count - 1);
    }
  }

  lemma NoRegionsNest(file: seq<DynamicRecord>)
    requires NoRegions(file)
    ensures Nested(file)
  {
    forall k | 0 <= k <= |file|
      ensures Depth(file, k) == 0
    {
      NoDepth(file, k);
    }
  }

  ghost predicate AllWithoutRegions(s: State) {
    forall i :: 0 <= i < |s.threads| ==> NoRegions(s.threads[i].dynFile.file)
  }

  lemma StepIsQuiet(s: State, tid: nat)
    requires Readable(s) && tid < |s.threads| && AllWithoutRegions(s)
    ensures InStep(NotDisturbs(), s, tid)
  {
    SearchOfFile(NotDisturbs(), Reset(s, tid), tid, s.threads[tid].dynFile.file);
  }

  // A round of the barriers, in a program without critical regions.
  ghost predicate PlainRound(s: State) {
    AllWithoutRegions(s) && InSomeRound()(s)
  }

  lemma StepKeepsRound(s: State, dict: Dictionary, ret: InstructionPacket, tid: nat)
    requires s.Valid(dict) && tid < |s.threads| && PlainRound(s)
    ensures PlainRound(Step(s, dict, ret, tid).0)
    ensures Step(s, dict, ret, tid).1.Ok? ==> tid in Step(s, dict, ret, tid).0.awake
  {
    RoundsAreOfSchedule();
    RoundsAgree();
    StepIsQuiet(s, tid);
    StepAgrees(ThenSafe(), NotDisturbs(), InSomeRound(), s, dict, ret, tid);
    StepKeepsFiles(s, dict, ret, tid);
  }

  lemma {:induction false} RunKeepsRound(s: State, dict: Dictionary, calls: seq<Call>)
    requires s.Valid(dict) && CallsOk(calls, |s.threads|) && PlainRound(s)
    ensures PlainRound(Run(s, dict, calls))
    decreases |calls|
  {
    if calls != [] {
      FirstCall(s, dict, calls, 0);
      StepKeepsRound(s, dict, calls[0].ret, calls[0].tid);
      RunKeepsRound(Step(s, dict, calls[0].ret, calls[0].tid).0, dict, calls[1..]);
    }
  }

  lemma OpenedIsPlain(dynFiles: seq<seq<DynamicRecord>>, memFiles: seq<seq<MemoryRecord>>)
    requires |dynFiles| == |memFiles| > 0
    requires forall i :: 0 <= i < |dynFiles| ==> NoRegions(dynFiles[i])
    ensures PlainRound(Opened(dynFiles, memFiles))
  {
    forall i | 0 <= i < |dynFiles|
      ensures OpenedThreads(dynFiles, memFiles)[i] == OpenedThread(dynFiles[i], memFiles[i])
      ensures Nested(dynFiles[i])
    {
      OpenedAt(dynFiles, memFiles, i);
      NoRegionsNest(dynFiles[i]);
    }
    OpenedIsInRound(dynFiles, memFiles);
  }

  // Barrier safety: a thread is served an instruction recorded behind its k-th barrier
  // only when every thread has come to its k-th barrier.
  lemma BarrierSafety(dict: Dictionary, dynFiles: seq<seq<DynamicRecord>>, memFiles: seq<seq<MemoryRecord>>,
      calls: seq<Call>, tid: nat, ret: InstructionPacket)
    requires dict.Valid() && |dynFiles| == |memFiles| && tid < |dynFiles| && CallsOk(calls, |dynFiles|)
    requires forall i :: 0 <= i < |dynFiles| ==> NoRegions(dynFiles[i])
    ensures Opened(dynFiles, memFiles).Valid(dict)
    ensures var last := Run(Opened(dynFiles, memFiles), dict, calls);
      last.Valid(dict) && |last.threads| == |dynFiles|
      && var (next, result) := Step(last, dict, ret, tid);
        |next.threads| == |dynFiles| && Readable(next)
        && (result.Ok? ==>
          forall j :: 0 <= j < |dynFiles| ==> Passed(next.threads[tid]) <= Passed(next.threads[j]))
  {
    OpenedIsValid(dict, dynFiles, memFiles);
    OpenedIsPlain(dynFiles, memFiles);
    RunKeepsFiles(Opened(dynFiles, memFiles), dict, calls);
    RunKeepsRound(Opened(dynFiles, memFiles), dict, calls);
    var last := Run(Opened(dynFiles, memFiles), dict, calls);
    StepKeepsRound(last, dict, ret, tid);
    StepKeepsFiles(last, dict, ret, tid);
    var next := Step(last, dict, ret, tid).0;
    var owner: nat, round: nat, waiting: set<nat> :| InRound(next, owner, round, waiting);
    RoundsAreSafe(next, owner, round, waiting);
  }

  lemma {:induction false} BarriersGrow(file: seq<DynamicRecord>, a: nat, b: nat)
    requires a <= b <= |file|
    ensures Barriers(file, a) <= Barriers(file, b)
    decreases b
  {
    if a < b {
      BarriersGrow(file, a, b - 1);
    }
  }

  lemma Outsider(part: set<nat>, whole: set<nat>) returns (x: nat)
    requires |part| < |whole|
    ensures x in whole && x !in part
  {
    assert part * whole + (whole - part) == whole;
    assert part * whole <= part && |part * whole| <= |part| by {
      assert part * whole + (part - whole) == part;
    }
    x :| x in whole - part;
  }

  // Thread `late` has no more barriers than any other thread.
  ghost predicate FewestBarriers(files: seq<seq<DynamicRecord>>, late: nat)
    requires late < |files|
  {
    forall i :: 0 <= i < |files| ==> Barriers(files[late], |files[late]|) <= Barriers(files[i], |files[i]|)
  }

  ghost function Files(s: State): (files: seq<seq<DynamicRecord>>)
    ensures |files| == |s.threads|
  {
    seq(|s.threads|, i requires 0 <= i < |s.threads| => s.threads[i].dynFile.file)
  }

  // A thread with the fewest barriers is awake, or one that it waits for is: the owner of
  // a region, or one that has its next barrier ahead.
  lemma BehindTheOthers(s: State, owner: nat, round: nat, waiting: set<nat>, late: nat) returns (tid: nat)
    requires InRound(s, owner, round, waiting) && late < |s.threads| && FewestBarriers(Files(s), late)
    ensures tid < |s.threads| && tid in s.awake
    ensures tid == late || Unread(s, tid) > 0 || DepthOf(s.threads[tid]) > 0
  {
    AllThreadsAre(|s.threads|);
    if s.criticalCont > 0 {
      tid := owner;
    } else if late in waiting {
      tid := Outsider(waiting, AllThreads(|s.threads|));
      var source := s.threads[late].dynFile;
      BarriersGrow(source.file, source.position, |source.file|);
      assert Files(s)[late] == source.file && Files(s)[tid] == s.threads[tid].dynFile.file;
      assert Passed(s.threads[late]) == round + 1 && Passed(s.threads[tid]) == round;
    } else {
      tid := late;
    }
  }

  // All critical regions of the file end.
  ghost predicate Closed(file: seq<DynamicRecord>) {
    Depth(file, |file|) == 0
  }

  // Progress: as long as a thread with the fewest barriers has records left, a thread that
  // is awake has.
  lemma SomebodyCanAdvance(dict: Dictionary, dynFiles: seq<seq<DynamicRecord>>, memFiles: seq<seq<MemoryRecord>>,
      calls: seq<Call>, late: nat) returns (tid: nat)
    requires dict.Valid() && |dynFiles| == |memFiles| && late < |dynFiles| && CallsOk(calls, |dynFiles|)
    requires forall i :: 0 <= i < |dynFiles| ==> Nested(dynFiles[i]) && Closed(dynFiles[i])
    requires FewestBarriers(dynFiles, late)
    requires Opened(dynFiles, memFiles).Valid(dict)
    requires InRun(NotDisturbs(), Opened(dynFiles, memFiles), dict, calls)
    ensures var last := Run(Opened(dynFiles, memFiles), dict, calls);
      tid < |last.threads| == |dynFiles|
      && (Unread(last, late) > 0 ==> tid in last.awake && Unread(last, tid) > 0)
  {
    var first := Opened(dynFiles, memFiles);
    QuietRunKeepsRound(dynFiles, memFiles, dict, calls);
    RunKeepsFiles(first, dict, calls);
    forall i | 0 <= i < |dynFiles|
      ensures first.threads[i].dynFile.file == dynFiles[i]
    {
      OpenedAt(dynFiles, memFiles, i);
    }
    var last := Run(first, dict, calls);
    var owner: nat, round: nat, waiting: set<nat> :| InRound(last, owner, round, waiting);
    assert Files(last) == dynFiles;
    tid := BehindTheOthers(last, owner, round, waiting, late);
    assert Closed(last.threads[tid].dynFile.file);
  }

  lemma QuietRunKeepsRound(dynFiles: seq<seq<DynamicRecord>>, memFiles: seq<seq<MemoryRecord>>, dict: Dictionary,
      calls: seq<Call>)
    requires |dynFiles| == |memFiles| > 0 && CallsOk(calls, |dynFiles|)
    requires forall i :: 0 <= i < |dynFiles| ==> Nested(dynFiles[i])
    requires Opened(dynFiles, memFiles).Valid(dict)
    requires InRun(NotDisturbs(), Opened(dynFiles, memFiles), dict, calls)
    ensures InSomeRound()(Run(Opened(dynFiles, memFiles), dict, calls))
  {
    OpenedIsInRound(dynFiles, memFiles);
    RoundsAreOfSchedule();
    RoundsAgree();
    RunAgrees(ThenSafe(), NotDisturbs(), InSomeRound(), Opened(dynFiles, memFiles), dict, calls);
  }

  // Without critical regions every run is quiet.
  lemma {:induction false} RunIsQuiet(s: State, dict: Dictionary, calls: seq<Call>)
    requires s.Valid(dict) && CallsOk(calls, |s.threads|) && AllWithoutRegions(s)
    ensures InRun(NotDisturbs(), s, dict, calls)
    decreases |calls|
  {
    if calls != [] {
      var call := calls[0];
      RunOpens(NotDisturbs(), s, dict, calls);
      StepIsQuiet(s, call.tid);
      StepKeepsFiles(s, dict, call.ret, call.tid);
      RunIsQuiet(Step(s, dict, call.ret, call.tid).0, dict, calls[1..]);
    }
  }

  // ... and a call for it moves it on, unless the execution has ended.
  lemma AwakeThreadsAdvance(s: State, dict: Dictionary, ret: InstructionPacket, tid: nat)
    requires s.Valid(dict) && tid < |s.threads| && tid in s.awake && Unread(s, tid) > 0
    ensures var (next, result) := Step(s, dict, ret, tid);
      |next.threads| == |s.threads|
      && (HasEnded(s) ==> (next, result) == (s, End))
      && (!HasEnded(s) && s.threads[tid].isInsideBasicBlock ==> result.Ok? || result.Error? || result.Overrun?)
      && (!HasEnded(s) && !s.threads[tid].isInsideBasicBlock ==> Unread(next, tid) < Unread(s, tid))
  {
    StepSchedules(s, dict, ret, tid);
    if Searches(s, tid) {
      SearchAdvances(Reset(s, tid), tid);
    }
  }

  // ------ Where barriers and regions do not agree

  const EARLY_WAKE := [[START, END, BasicBlockIdentifier(0), BARRIER], [BARRIER, BasicBlockIdentifier(0)]]

  // A run that is not quiet: thread 1 waits at its barrier, thread 0 enters and leaves a
  // region before its own, and thread 1 is awake again.
  lemma EarlyWake()
    ensures var first := Opened(EARLY_WAKE, [[], []]);
      |first.threads| == 2 && first.threads[1].dynFile.Valid()
      && var waiting := FetchBlock(first, 1).0;
        waiting.awake == {0} && Readable(waiting) && |waiting.threads| == 2
        && !InSearch(NotDisturbs(), waiting, 0)
        && FetchBlock(waiting, 0).0.awake == {0, 1}
  {
    var first := Opened(EARLY_WAKE, [[], []]);
    OpenedAt(EARLY_WAKE, [[], []], 0);
    OpenedAt(EARLY_WAKE, [[], []], 1);
    AllThreadsAre(2);
    SearchGoesOn(first, 1);
    var waiting := FetchBlock(first, 1).0;
    assert waiting.awake == {0};
    SearchGoesOn(waiting, 0);
    SearchOpens(NotDisturbs(), waiting, 0);
    var inside := AfterEvent(waiting, 0).0;
    SearchGoesOn(inside, 0);
    SearchOpens(NotDisturbs(), inside, 0);
    assert Disturbs(inside, 0);
    assert AfterEvent(inside, 0).0.awake == {0, 1};
  }

  const WAITS_INSIDE := [[START, BARRIER, BasicBlockIdentifier(0), END], [BARRIER, BasicBlockIdentifier(0)]]

  // Thread 0 comes to its barrier inside a region: nobody is awake any more, and whatever
  // is called then, no thread is given anything.
  lemma EverybodyAsleep(dict: Dictionary, ret: InstructionPacket, later: seq<Call>, tid: nat)
    requires dict.Valid() && CallsOk(later, 2)
    ensures var first := Opened(WAITS_INSIDE, [[], []]);
      first.Valid(dict) && CallsOk([Call(0, ret)] + later, |first.threads|)
      && Run(first, dict, [Call(0, ret)] + later).awake == {}
      && Fetches(first, dict, [Call(0, ret)] + later, tid) == []
  {
    var first, calls := Opened(WAITS_INSIDE, [[], []]), [Call(0, ret)] + later;
    OpenedIsValid(dict, WAITS_INSIDE, [[], []]);
    OpenedAt(WAITS_INSIDE, [[], []], 0);
    AllThreadsAre(2);
    var searching := Reset(first, 0);
    SearchGoesOn(searching, 0);
    var inside := AfterEvent(searching, 0).0;
    assert inside.awake == {0} && Record(inside, 0) == BARRIER;
    SearchGoesOn(inside, 0);
    StepSchedules(first, dict, ret, 0);
    FirstCall(first, dict, calls, tid);
    assert calls[1..] == later;
    AsleepForEver(Step(first, dict, ret, 0).0, dict, later, tid);
  }

  const COMPLETES_INSIDE := [[BARRIER, BasicBlockIdentifier(0)], [START, BARRIER, BasicBlockIdentifier(0), END]]

  // Thread 1 is the last to come to its barrier, and does so inside a region: thread 0 is
  // awake beside it.
  lemma BothAwake()
    ensures var first := Opened(COMPLETES_INSIDE, [[], []]);
      |first.threads| == 2 && first.threads[0].dynFile.Valid()
      && var waiting := FetchBlock(first, 0).0;
        |waiting.threads| == 2 && waiting.threads[1].dynFile.Valid()
        && var both := FetchBlock(waiting, 1).0;
          both.awake == {0, 1} && both.criticalCont == 1
          && |both.threads| == 2 && both.threads[1].dynFile.Valid() && DepthOf(both.threads[1]) == 1
  {
    var first := Opened(COMPLETES_INSIDE, [[], []]);
    OpenedAt(COMPLETES_INSIDE, [[], []], 0);
    OpenedAt(COMPLETES_INSIDE, [[], []], 1);
    AllThreadsAre(2);
    SearchGoesOn(first, 0);
    var waiting := FetchBlock(first, 0).0;
    assert waiting.awake == {1} && waiting.barrierCont == 1;
    SearchGoesOn(waiting, 1);
    EventMoves(waiting, 1);
    var inside := AfterEvent(waiting, 1).0;
    assert inside.awake == {1} && inside.criticalCont == 1 && Record(inside, 1) == BARRIER;
    SearchGoesOn(inside, 1);
    EventMoves(inside, 1);
    var behind := AfterEvent(inside, 1).0;
    assert behind.awake == {0, 1};
    PlainRead(behind, 1);
  }
}
