// Which threads may run: barriers and critical regions of a replayed program
// (SinucaTraceReader::FetchBasicBlock, src/tracer/sinuca/trace_reader.cpp:223-320).
module ThreadScheduling {
  import opened Packets
  import opened TraceFiles
  import opened StaticTraces
  import opened TraceReaders
  import opened ReplayFidelity
  import opened ThreadEvents

  // Critical regions do not end before they start.
  ghost predicate RegionsNest(file: seq<DynamicRecord>) {
    forall k :: 0 <= k <= |file| ==> Depth(file, k) >= 0
  }

  ghost predicate AllNest(s: State) {
    forall i :: 0 <= i < |s.threads| ==> RegionsNest(s.threads[i].dynFile.file)
  }

  // ... and hold no barrier.
  ghost predicate Nested(file: seq<DynamicRecord>) {
    RegionsNest(file) && forall k :: 0 <= k < |file| && file[k] == BARRIER ==> Depth(file, k) == 0
  }

  ghost predicate AllNested(s: State) {
    forall i :: 0 <= i < |s.threads| ==> Nested(s.threads[i].dynFile.file)
  }

  // ------ Mutual exclusion

  // While a thread is in a critical region, no other is in one and no other may run.
  ghost predicate Excludes(s: State) {
    Readable(s)
    && forall i: nat, j: nat :: i < |s.threads| && j < |s.threads| && i != j && DepthOf(s.threads[i]) > 0 ==>
      DepthOf(s.threads[j]) == 0 && j !in s.awake
  }

  // Thread `owner` is in a critical region, as deep as the counter says, or nobody is.
  ghost predicate Owned(s: State, owner: nat) {
    && Readable(s) && AllNest(s) && s.criticalCont >= 0
    && (s.criticalCont > 0 ==>
      owner < |s.threads| && s.awake <= {owner} && DepthOf(s.threads[owner]) == s.criticalCont)
    && (forall i :: 0 <= i < |s.threads| && (s.criticalCont == 0 || i != owner) ==> DepthOf(s.threads[i]) == 0)
  }

  lemma OwnedExcludes(s: State, owner: nat)
    requires Owned(s, owner)
    ensures Excludes(s)
  {
  }

  // The thread owns the region it is in, or starts.
  function OwnerAfter(s: State, tid: nat, owner: nat): nat {
    if s.criticalCont == 0 then tid else owner
  }

  // The last thread to come to a barrier does so inside a region.
  ghost predicate CompletesInside(s: State, tid: nat)
    requires AtEvent(s, tid)
  {
    Record(s, tid) == BARRIER && s.criticalCont > 0 && s.barrierCont + 1 == |s.threads| > 1
  }

  // A thread comes to a barrier inside a region and has to wait there.
  ghost predicate WaitsInside(s: State, tid: nat)
    requires AtEvent(s, tid)
  {
    Record(s, tid) == BARRIER && s.criticalCont > 0 && s.barrierCont + 1 != |s.threads|
  }

  lemma EventKeepsOwner(s: State, tid: nat, owner: nat)
    requires Owned(s, owner) && ReadsEvent(s, tid) && !CompletesInside(s, tid)
    ensures Owned(AfterEvent(s, tid).0, OwnerAfter(s, tid, owner))
  {
    var after := AfterEvent(s, tid).0;
    EventMoves(s, tid);
    EventEffect(s, tid);
    AllThreadsAre(|s.threads|);
    assert s.criticalCont > 0 ==> tid == owner;
    assert RegionsNest(s.threads[tid].dynFile.file);
    assert DepthOf(after.threads[tid]) >= 0;
  }

  // Waking everybody at a barrier inside a region lets others run beside its owner.
  lemma CompletionBreaksExclusion(s: State, tid: nat, owner: nat)
    requires Owned(s, owner) && ReadsEvent(s, tid) && CompletesInside(s, tid)
    ensures !Excludes(AfterEvent(s, tid).0)
  {
    var after := AfterEvent(s, tid).0;
    EventMoves(s, tid);
    EventEffect(s, tid);
    AllThreadsAre(|s.threads|);
    var other := if tid == 0 then 1 else 0;
    assert tid == owner && DepthOf(after.threads[tid]) > 0 && other in after.awake;
  }

  ghost function SomebodyOwns(): State -> bool {
    (s: State) => exists owner: nat :: Owned(s, owner)
  }

  ghost function ThenExcludes(): Judgement {
    (s: State, tid: nat) => AtEvent(s, tid) ==> Excludes(AfterEvent(s, tid).0)
  }

  ghost function NotCompletesInside(): Judgement {
    (s: State, tid: nat) => AtEvent(s, tid) ==> !CompletesInside(s, tid)
  }

  lemma OwnedIsOfSchedule(s: State, t: State, owner: nat)
    requires Owned(s, owner) && SameSchedule(s, t)
    ensures Owned(t, owner)
  {
  }

  lemma PlainReadKeepsOwner(s: State, tid: nat, owner: nat)
    requires Owned(s, owner) && tid < |s.threads| && !AtEvent(s, tid)
    ensures Owned(FetchBlock(s, tid).0, owner)
  {
    PlainRead(s, tid);
  }

  lemma OwningIsOfSchedule()
    ensures OfSchedule(SomebodyOwns())
  {
    var inv := SomebodyOwns();
    forall s, t | inv(s) && SameSchedule(s, t)
      ensures inv(t)
    {
      var owner: nat :| Owned(s, owner);
      OwnedIsOfSchedule(s, t, owner);
    }
    forall s, tid: nat | inv(s) && tid < |s.threads| && !AtEvent(s, tid)
      ensures inv(FetchBlock(s, tid).0)
    {
      var owner: nat :| Owned(s, owner);
      PlainReadKeepsOwner(s, tid, owner);
    }
  }

  lemma ExclusionAgrees()
    ensures Agree(ThenExcludes(), NotCompletesInside(), SomebodyOwns())
  {
    var one, other, inv := ThenExcludes(), NotCompletesInside(), SomebodyOwns();
    forall s, tid: nat | inv(s) && ReadsEvent(s, tid)
      ensures (one(s, tid) <==> other(s, tid)) && (other(s, tid) ==> inv(AfterEvent(s, tid).0))
    {
      var owner: nat :| Owned(s, owner);
      if CompletesInside(s, tid) {
        CompletionBreaksExclusion(s, tid, owner);
      } else {
        EventKeepsOwner(s, tid, owner);
        OwnedExcludes(AfterEvent(s, tid).0, OwnerAfter(s, tid, owner));
      }
    }
  }

  lemma OpenedIsOwned(dynFiles: seq<seq<DynamicRecord>>, memFiles: seq<seq<MemoryRecord>>)
    requires |dynFiles| == |memFiles| > 0
    requires forall i :: 0 <= i < |dynFiles| ==> RegionsNest(dynFiles[i])
    ensures Owned(Opened(dynFiles, memFiles), 0)
  {
    forall i | 0 <= i < |dynFiles|
      ensures OpenedThreads(dynFiles, memFiles)[i] == OpenedThread(dynFiles[i], memFiles[i])
    {
      OpenedAt(dynFiles, memFiles, i);
    }
  }

  // Exclusion holds through a run -- behind every event, no thread may run, or is in a
  // region, beside one that is in a region -- exactly when no barrier is completed inside
  // a region.
  lemma ExclusionHoldsIff(dict: Dictionary, dynFiles: seq<seq<DynamicRecord>>, memFiles: seq<seq<MemoryRecord>>,
      calls: seq<Call>)
    requires dict.Valid() && |dynFiles| == |memFiles| > 0 && CallsOk(calls, |dynFiles|)
    requires forall i :: 0 <= i < |dynFiles| ==> RegionsNest(dynFiles[i])
    ensures Opened(dynFiles, memFiles).Valid(dict)
    ensures InRun(ThenExcludes(), Opened(dynFiles, memFiles), dict, calls)
      <==> InRun(NotCompletesInside(), Opened(dynFiles, memFiles), dict, calls)
  {
    OpenedIsValid(dict, dynFiles, memFiles);
    OpenedIsOwned(dynFiles, memFiles);
    OwningIsOfSchedule();
    ExclusionAgrees();
    RunAgrees(ThenExcludes(), NotCompletesInside(), SomebodyOwns(), Opened(dynFiles, memFiles), dict, calls);
  }

  // ------ Everybody asleep

  // As long as no thread waits at a barrier inside a region: outside of regions only those
  // that wait at a barrier sleep, and inside its owner is awake.
  ghost predicate Lively(s: State, owner: nat) {
    && Owned(s, owner) && 0 <= s.barrierCont < |s.threads|
    && s.awake <= AllThreads(|s.threads|)
    && (s.criticalCont == 0 ==> |AllThreads(|s.threads|) - s.awake| <= s.barrierCont)
    && (s.criticalCont > 0 ==> s.awake == {owner})
  }

  lemma LivelyIsAwake(s: State, owner: nat)
    requires Lively(s, owner)
    ensures s.awake != {}
  {
    AllThreadsAre(|s.threads|);
    assert AllThreads(|s.threads|) - {} == AllThreads(|s.threads|);
  }

  lemma OneMoreAsleep(all: set<nat>, awake: set<nat>, tid: nat)
    requires tid in all
    ensures |all - (awake - {tid})| <= |all - awake| + 1
  {
    assert all - (awake - {tid}) == (all - awake) + {tid};
  }

  lemma EventKeepsLively(s: State, tid: nat, owner: nat)
    requires Lively(s, owner) && ReadsEvent(s, tid) && !CompletesInside(s, tid) && !WaitsInside(s, tid)
    ensures Lively(AfterEvent(s, tid).0, OwnerAfter(s, tid, owner))
  {
    EventKeepsOwner(s, tid, owner);
    EventMoves(s, tid);
    EventEffect(s, tid);
    var all := AllThreads(|s.threads|);
    AllThreadsAre(|s.threads|);
    OneMoreAsleep(all, s.awake, tid);
    assert all - all == {};
    assert s.criticalCont > 0 ==> tid == owner;
    assert Record(s, tid) == END ==> s.criticalCont > 0 by {
      assert RegionsNest(s.threads[tid].dynFile.file);
      assert DepthOf(AfterEvent(s, tid).0.threads[tid]) >= 0;
    }
    if Record(s, tid) == BARRIER && s.criticalCont > 0 {
      assert |s.threads| == 1 && all == {0} by {
        assert AllThreads(1) == AllThreads(0) + {0};
      }
    }
  }

  lemma WaitingInsideEmpties(s: State, tid: nat, owner: nat)
    requires Lively(s, owner) && ReadsEvent(s, tid) && WaitsInside(s, tid)
    ensures AfterEvent(s, tid).0.awake == {}
  {
    EventEffect(s, tid);
  }

  ghost function SomebodyIsLively(): State -> bool {
    (s: State) => exists owner: nat :: Lively(s, owner)
  }

  // Behind the event some thread is awake; no barrier is completed inside a region.
  ghost function ThenAwake(): Judgement {
    (s: State, tid: nat) => AtEvent(s, tid) ==> !CompletesInside(s, tid) && AfterEvent(s, tid).0.awake != {}
  }

  // No thread comes to a barrier inside a region.
  ghost function NoBarrierInside(): Judgement {
    (s: State, tid: nat) => AtEvent(s, tid) ==> !CompletesInside(s, tid) && !WaitsInside(s, tid)
  }

  lemma LivelyIsOfSchedule()
    ensures OfSchedule(SomebodyIsLively())
  {
    var inv := SomebodyIsLively();
    forall s, t | inv(s) && SameSchedule(s, t)
      ensures inv(t)
    {
      var owner: nat :| Lively(s, owner);
      OwnedIsOfSchedule(s, t, owner);
      assert Lively(t, owner);
    }
    forall s, tid: nat | inv(s) && tid < |s.threads| && !AtEvent(s, tid)
      ensures inv(FetchBlock(s, tid).0)
    {
      var owner: nat :| Lively(s, owner);
      PlainReadKeepsOwner(s, tid, owner);
      PlainRead(s, tid);
      assert Lively(FetchBlock(s, tid).0, owner);
    }
  }

  lemma SleepAgrees()
    ensures Agree(ThenAwake(), NoBarrierInside(), SomebodyIsLively())
  {
    var one, other, inv := ThenAwake(), NoBarrierInside(), SomebodyIsLively();
    forall s, tid: nat | inv(s) && ReadsEvent(s, tid)
      ensures (one(s, tid) <==> other(s, tid)) && (other(s, tid) ==> inv(AfterEvent(s, tid).0))
    {
      var owner: nat :| Lively(s, owner);
      if CompletesInside(s, tid) {
      } else if WaitsInside(s, tid) {
        WaitingInsideEmpties(s, tid, owner);
      } else {
        EventKeepsLively(s, tid, owner);
        LivelyIsAwake(AfterEvent(s, tid).0, OwnerAfter(s, tid, owner));
      }
    }
  }

  ghost function SomeoneAwake(): Judgement {
    (s: State, tid: nat) => AtEvent(s, tid) ==> AfterEvent(s, tid).0.awake != {}
  }

  ghost function NotWaitsInside(): Judgement {
    (s: State, tid: nat) => AtEvent(s, tid) ==> !WaitsInside(s, tid)
  }

  // With nobody awake behind an event, the search is over.
  lemma {:induction false} SearchEndsAwake(s: State, tid: nat)
    requires Readable(s) && tid < |s.threads| && tid in s.awake
    ensures InSearch(SomeoneAwake(), s, tid) <==> FetchBlock(s, tid).0.awake != {}
    decreases Unread(s, tid)
  {
    if AtEvent(s, tid) {
      SearchOpens(SomeoneAwake(), s, tid);
      SearchGoesOn(s, tid);
      AwakeGoesOn(s, tid);
      var (after, goesOn) := AfterEvent(s, tid);
      if goesOn {
        SearchEndsAwake(after, tid);
      }
    } else {
      PlainRead(s, tid);
    }
  }

  lemma {:induction false} RunEndsAwake(s: State, dict: Dictionary, calls: seq<Call>)
    requires s.Valid(dict) && CallsOk(calls, |s.threads|) && s.awake != {}
    ensures InRun(SomeoneAwake(), s, dict, calls) <==> Run(s, dict, calls).awake != {}
    decreases |calls|
  {
    if calls != [] {
      var call := calls[0];
      var next := Step(s, dict, call.ret, call.tid).0;
      RunOpens(SomeoneAwake(), s, dict, calls);
      FirstCall(s, dict, calls, 0);
      StepSchedules(s, dict, call.ret, call.tid);
      if Searches(s, call.tid) {
        SearchEndsAwake(Reset(s, call.tid), call.tid);
      }
      if next.awake != {} {
        RunEndsAwake(next, dict, calls[1..]);
      } else {
        AsleepForEver(next, dict, calls[1..], 0);
      }
    }
  }

  // With all threads asleep, or the execution ended, no call changes anything or gives a
  // packet ever again.
  lemma {:induction false} AsleepForEver(s: State, dict: Dictionary, calls: seq<Call>, tid: nat)
    requires s.Valid(dict) && CallsOk(calls, |s.threads|) && (s.awake == {} || HasEnded(s))
    ensures Run(s, dict, calls) == s && Fetches(s, dict, calls, tid) == []
    decreases |calls|
  {
    if calls != [] {
      FirstCall(s, dict, calls, tid);
      AsleepForEver(s, dict, calls[1..], tid);
    }
  }

  lemma OpenedIsLively(dynFiles: seq<seq<DynamicRecord>>, memFiles: seq<seq<MemoryRecord>>)
    requires |dynFiles| == |memFiles| > 0
    requires forall i :: 0 <= i < |dynFiles| ==> RegionsNest(dynFiles[i])
    ensures Lively(Opened(dynFiles, memFiles), 0)
  {
    OpenedIsOwned(dynFiles, memFiles);
    var all := AllThreads(|dynFiles|);
    assert all - all == {};
  }

  // As long as exclusion holds: a run puts everybody to sleep, for ever, exactly when a
  // thread comes to a barrier inside a region and is not the last to come to it.
  lemma StopsIffWaitsInside(dict: Dictionary, dynFiles: seq<seq<DynamicRecord>>, memFiles: seq<seq<MemoryRecord>>,
      calls: seq<Call>)
    requires dict.Valid() && |dynFiles| == |memFiles| > 0 && CallsOk(calls, |dynFiles|)
    requires forall i :: 0 <= i < |dynFiles| ==> RegionsNest(dynFiles[i])
    requires Opened(dynFiles, memFiles).Valid(dict)
    requires InRun(NotCompletesInside(), Opened(dynFiles, memFiles), dict, calls)
    ensures Run(Opened(dynFiles, memFiles), dict, calls).awake == {}
      <==> !InRun(NotWaitsInside(), Opened(dynFiles, memFiles), dict, calls)
  {
    var first := Opened(dynFiles, memFiles);
    OpenedIsLively(dynFiles, memFiles);
    LivelyIsAwake(first, 0);
    LivelyIsOfSchedule();
    SleepAgrees();
    RunAgrees(ThenAwake(), NoBarrierInside(), SomebodyIsLively(), first, dict, calls);
    RunOfBoth(ThenAwake(), NotCompletesInside(), SomeoneAwake(), first, dict, calls);
    RunOfBoth(NoBarrierInside(), NotCompletesInside(), NotWaitsInside(), first, dict, calls);
    RunEndsAwake(first, dict, calls);
  }

  // ------ Regions without barriers

  // While a thread is in a region it alone is awake.
  ghost predicate Exclusive(s: State, owner: nat) {
    Owned(s, owner) && AllNested(s) && (s.criticalCont > 0 ==> s.awake == {owner})
  }

  lemma EventKeepsExclusion(s: State, tid: nat, owner: nat)
    requires Exclusive(s, owner) && ReadsEvent(s, tid)
    ensures Exclusive(AfterEvent(s, tid).0, OwnerAfter(s, tid, owner))
  {
    var file, position := s.threads[tid].dynFile.file, s.threads[tid].dynFile.position;
    assert Record(s, tid) == BARRIER ==> s.criticalCont == 0 by {
      assert Nested(file) && (file[position] == BARRIER ==> Depth(file, position) == 0);
    }
    EventKeepsOwner(s, tid, owner);
    EventMoves(s, tid);
    EventEffect(s, tid);
    assert s.criticalCont > 0 ==> tid == owner;
  }

  ghost function SomebodyIsExclusive(): State -> bool {
    (s: State) => exists owner: nat :: Exclusive(s, owner)
  }

  ghost function Anything(): Judgement {
    (s: State, tid: nat) => true
  }

  lemma ExclusiveIsOfSchedule()
    ensures OfSchedule(SomebodyIsExclusive())
  {
    var inv := SomebodyIsExclusive();
    forall s, t | inv(s) && SameSchedule(s, t)
      ensures inv(t)
    {
      var owner: nat :| Exclusive(s, owner);
      assert Exclusive(t, owner);
    }
    forall s, tid: nat | inv(s) && tid < |s.threads| && !AtEvent(s, tid)
      ensures inv(FetchBlock(s, tid).0)
    {
      var owner: nat :| Exclusive(s, owner);
      PlainReadKeepsOwner(s, tid, owner);
      PlainRead(s, tid);
      assert Exclusive(FetchBlock(s, tid).0, owner);
    }
  }

  lemma ExclusiveAgrees()
    ensures Agree(Anything(), Anything(), SomebodyIsExclusive())
  {
    var inv := SomebodyIsExclusive();
    forall s, tid: nat | inv(s) && ReadsEvent(s, tid)
      ensures inv(AfterEvent(s, tid).0)
    {
      var owner: nat :| Exclusive(s, owner);
      EventKeepsExclusion(s, tid, owner);
    }
  }

  lemma {:induction false} AnythingHolds(s: State, dict: Dictionary, calls: seq<Call>)
    requires s.Valid(dict) && CallsOk(calls, |s.threads|)
    ensures InRun(Anything(), s, dict, calls)
    decreases |calls|
  {
    if calls != [] {
      RunOpens(Anything(), s, dict, calls);
      var tid := calls[0].tid;
      SearchOfFile(Anything(), Reset(s, tid), tid, Reset(s, tid).threads[tid].dynFile.file);
      AnythingHolds(Step(s, dict, calls[0].ret, tid).0, dict, calls[1..]);
    }
  }

  // Mutual exclusion. After any run: a thread is in a critical region exactly when the
  // counter is positive; then the counter is its depth, no other is in one, it alone is
  // awake, and a call for another gives nothing.
  lemma MutualExclusion(dict: Dictionary, dynFiles: seq<seq<DynamicRecord>>, memFiles: seq<seq<MemoryRecord>>,
      calls: seq<Call>, ret: InstructionPacket) returns (owner: nat)
    requires dict.Valid() && |dynFiles| == |memFiles| > 0 && CallsOk(calls, |dynFiles|)
    requires forall i :: 0 <= i < |dynFiles| ==> Nested(dynFiles[i])
    ensures Opened(dynFiles, memFiles).Valid(dict)
    ensures var last := Run(Opened(dynFiles, memFiles), dict, calls);
      last.Valid(dict) && |last.threads| == |dynFiles| && last.criticalCont >= 0
      && (last.criticalCont == 0 ==> forall i :: 0 <= i < |dynFiles| ==> DepthOf(last.threads[i]) == 0)
      && (last.criticalCont > 0 ==>
        && owner < |dynFiles| && last.awake == {owner} && DepthOf(last.threads[owner]) == last.criticalCont
        && (forall i :: 0 <= i < |dynFiles| && i != owner ==>
          DepthOf(last.threads[i]) == 0
          && Step(last, dict, ret, i) == (last, if HasEnded(last) then End else Nop)))
  {
    var first := Opened(dynFiles, memFiles);
    OpenedIsValid(dict, dynFiles, memFiles);
    OpenedIsOwned(dynFiles, memFiles);
    RunKeepsFiles(first, dict, calls);
    OpenedIsExclusive(dynFiles, memFiles);
    ExclusiveIsOfSchedule();
    ExclusiveAgrees();
    AnythingHolds(first, dict, calls);
    RunAgrees(Anything(), Anything(), SomebodyIsExclusive(), first, dict, calls);
    owner :| Exclusive(Run(first, dict, calls), owner);
  }

  lemma OpenedIsExclusive(dynFiles: seq<seq<DynamicRecord>>, memFiles: seq<seq<MemoryRecord>>)
    requires |dynFiles| == |memFiles| > 0
    requires forall i :: 0 <= i < |dynFiles| ==> Nested(dynFiles[i])
    ensures Exclusive(Opened(dynFiles, memFiles), 0)
  {
    OpenedIsOwned(dynFiles, memFiles);
    forall i | 0 <= i < |dynFiles|
      ensures OpenedThreads(dynFiles, memFiles)[i] == OpenedThread(dynFiles[i], memFiles[i])
    {
      OpenedAt(dynFiles, memFiles, i);
    }
  }
}
