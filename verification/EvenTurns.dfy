// Programs without thread events: called in turn, the threads advance evenly, and all of
// them are cut off at the length of the program of thread 0.
module EvenTurns {
  import opened Packets
  import opened TraceFiles
  import opened MemoryTraces
  import opened StaticTraces
  import opened TraceReaders
  import opened ReplayFidelity
  import opened ThreadEvents
  import opened EndOfTrace
  import opened ReplayEnd
  import opened ReplayProgress
  import opened ThreadScheduling
  import opened Turns

  ghost predicate EventFree(file: seq<DynamicRecord>) {
    forall k :: 0 <= k < |file| ==> file[k].BasicBlockIdentifier?
  }

  function Least(a: nat, b: nat): nat {
    if a <= b then a else b
  }

  // How many instructions the program of a thread has.
  function Length(dict: Dictionary, t: ThreadData): nat
    requires dict.Valid()
  {
    |Whole(dict, t.dynFile.file)|
  }

  // The thread has been given as many instructions as there were calls for it, as far as
  // its program goes.
  ghost predicate Even(dict: Dictionary, t: ThreadData, file: seq<DynamicRecord>, calls: nat) {
    && dict.Valid() && InBlock(dict, t) && t.dynFile.file == file && EventFree(file)
    && |Delivered(dict, t)| == Least(|Whole(dict, file)|, calls)
  }

  // So it is for all threads; in the round under way the first `count` have had their call.
  ghost predicate Evenly(s: State, dict: Dictionary, groups: seq<seq<seq<MemoryOperation>>>,
      files: seq<seq<DynamicRecord>>, rounds: nat, count: nat)
  {
    && IsPrepared(s, dict, groups) && !HasEnded(s) && |files| == |s.threads|
    && s.awake == AllThreads(|s.threads|)
    && forall j :: 0 <= j < |files| ==> Even(dict, s.threads[j], files[j], if j < count then rounds + 1 else rounds)
  }

  // Without events the search ends on the next record.
  lemma NextRecordIsABlock(s: State, tid: nat)
    requires tid < |s.threads| && s.threads[tid].dynFile.Valid() && !s.threads[tid].dynFile.reachedEnd
    requires EventFree(s.threads[tid].dynFile.file)
    ensures var (next, failed) := FetchBlock(s, tid);
      && |next.threads| == |s.threads| && next == s.(threads := next.threads)
      && (failed <==> Unread(s, tid) == 0)
      && (failed <==> next.threads[tid].dynFile.reachedEnd)
  {
    var source := s.threads[tid].dynFile;
    if Unread(s, tid) > 0 {
      assert source.file[source.position].BasicBlockIdentifier?;
    }
  }

  lemma NoBlocksLeft(file: seq<DynamicRecord>, position: nat)
    requires EventFree(file) && position <= |file|
    ensures NoBlocks(file, position, |file|) <==> position == |file|
  {
    if position < |file| {
      assert file[position].BasicBlockIdentifier?;
    }
  }

  lemma EnteringFindsTheNext(s: State, dict: Dictionary, tid: nat)
    requires s.Valid(dict) && tid < |s.threads| && InBlock(dict, s.threads[tid])
    requires EventFree(s.threads[tid].dynFile.file) && !s.threads[tid].dynFile.reachedEnd
    ensures var (next, failed) := EnterBlock(s, tid);
      && |next.threads| == |s.threads| && next == s.(threads := next.threads)
      && (failed <==> |Delivered(dict, s.threads[tid])| == Length(dict, s.threads[tid]))
      && (failed <==> next.threads[tid].dynFile.reachedEnd)
  {
    var t := s.threads[tid];
    EverythingDelivered(dict, t);
    NoBlocksLeft(t.dynFile.file, t.dynFile.position);
    if !t.isInsideBasicBlock {
      NextRecordIsABlock(Reset(s, tid), tid);
    }
  }

  lemma GivesInside(s: State, dict: Dictionary, tid: nat, groups: seq<seq<MemoryOperation>>)
    requires s.Valid(dict) && tid < |s.threads| && GroupsFit(groups) && Faithful(dict, s.threads[tid], groups)
    requires s.threads[tid].isInsideBasicBlock
    requires Touching(Whole(dict, s.threads[tid].dynFile.file)) <= |groups|
    ensures var (next, result) := FetchInstruction(s, dict, BLANK_PACKET, tid);
      && result.Ok?
      && |next.threads| == |s.threads| && next == s.(threads := next.threads)
      && next.threads[tid].dynFile == s.threads[tid].dynFile
  {
    InsideCallGives(s, dict, BLANK_PACKET, tid, groups);
    InstructionIsDelivered(s, dict, BLANK_PACKET, tid);
  }

  lemma StepOpens(s: State, dict: Dictionary, tid: nat)
    requires s.Valid(dict) && tid < |s.threads| && !HasEnded(s) && tid in s.awake
    requires !s.threads[tid].dynFile.reachedEnd
    ensures var (entered, failed) := EnterBlock(s, tid);
      && entered.Valid(dict) && |entered.threads| == |s.threads|
      && (failed ==> Step(s, dict, BLANK_PACKET, tid).0 == entered && !Step(s, dict, BLANK_PACKET, tid).1.Ok?)
      && (!failed ==> Step(s, dict, BLANK_PACKET, tid) == FetchInstruction(entered, dict, BLANK_PACKET, tid))
  {
    EnteringIsValid(s, dict, tid);
  }

  // A call gives an instruction as long as there is one left, and then finds the end.
  lemma CallGivesOrEnds(s: State, dict: Dictionary, tid: nat, groups: seq<seq<seq<MemoryOperation>>>)
    requires IsPrepared(s, dict, groups) && tid < |s.threads| && !HasEnded(s) && tid in s.awake
    requires EventFree(s.threads[tid].dynFile.file) && !s.threads[tid].dynFile.reachedEnd
    ensures var (next, result) := Step(s, dict, BLANK_PACKET, tid);
      && |next.threads| == |s.threads| && next == s.(threads := next.threads)
      && (result.Ok? <==> |Delivered(dict, s.threads[tid])| != Length(dict, s.threads[tid]))
      && (result.Ok? <==> !next.threads[tid].dynFile.reachedEnd)
  {
    EnteringFindsTheNext(s, dict, tid);
    EnteringDeliversNothing(s, dict, tid);
    StepOpens(s, dict, tid);
    var (entered, failed) := EnterBlock(s, tid);
    if !failed {
      GivesInside(entered, dict, tid, groups[tid]);
    }
  }

  lemma CallCounts(s: State, dict: Dictionary, tid: nat, groups: seq<seq<seq<MemoryOperation>>>,
      file: seq<DynamicRecord>, calls: nat)
    requires IsPrepared(s, dict, groups) && tid < |s.threads| && !HasEnded(s) && tid in s.awake
    requires Even(dict, s.threads[tid], file, calls)
    ensures var next := Step(s, dict, BLANK_PACKET, tid).0;
      && IsPrepared(next, dict, groups) && |next.threads| == |s.threads|
      && next == s.(threads := s.threads[tid := next.threads[tid]])
      && Even(dict, next.threads[tid], file, calls + 1)
      && (next.threads[tid].dynFile.reachedEnd <==> |Whole(dict, file)| <= calls)
  {
    StepIsFaithful(s, dict, BLANK_PACKET, tid, groups);
    StepPrepares(s, dict, tid, groups);
    DeliveredIsPrefix(dict, s.threads[tid]);
    if !s.threads[tid].dynFile.reachedEnd {
      CallGivesOrEnds(s, dict, tid, groups);
    }
  }

  // ------ Round after round

  lemma CallKeepsEven(s: State, dict: Dictionary, groups: seq<seq<seq<MemoryOperation>>>,
      files: seq<seq<DynamicRecord>>, rounds: nat, count: nat)
    requires Evenly(s, dict, groups, files, rounds, count) && count < |files|
    requires rounds < |Whole(dict, files[0])|
    ensures Evenly(Step(s, dict, BLANK_PACKET, count).0, dict, groups, files, rounds, count + 1)
  {
    AllThreadsAre(|s.threads|);
    CallCounts(s, dict, count, groups, files[count], rounds);
  }

  lemma NextRoundIsEven(s: State, dict: Dictionary, groups: seq<seq<seq<MemoryOperation>>>,
      files: seq<seq<DynamicRecord>>, rounds: nat)
    requires Evenly(s, dict, groups, files, rounds, |files|)
    ensures Evenly(s, dict, groups, files, rounds + 1, 0)
  {
  }

  lemma OpenedIsEven(dict: Dictionary, dynFiles: seq<seq<DynamicRecord>>,
      memFiles: seq<seq<MemoryRecord>>, groups: seq<seq<seq<MemoryOperation>>>)
    requires Recorded(dict, dynFiles, memFiles, groups) && EnoughAccesses(dict, dynFiles, groups)
    requires forall i :: 0 <= i < |dynFiles| ==> EventFree(dynFiles[i])
    ensures Evenly(Opened(dynFiles, memFiles), dict, groups, dynFiles, 0, 0)
  {
    OpenedIsPrepared(dict, dynFiles, memFiles, groups);
    forall j | 0 <= j < |dynFiles|
      ensures Opened(dynFiles, memFiles).threads[j] == OpenedThread(dynFiles[j], memFiles[j])
    {
      OpenedAt(dynFiles, memFiles, j);
    }
  }

  ghost function EvenAt(dict: Dictionary, groups: seq<seq<seq<MemoryOperation>>>, files: seq<seq<DynamicRecord>>)
    : Progress<State>
  {
    (s: State, rounds: nat, count: nat) => Evenly(s, dict, groups, files, rounds, count)
  }

  lemma EvennessAdvances(dict: Dictionary, groups: seq<seq<seq<MemoryOperation>>>, files: seq<seq<DynamicRecord>>)
    requires dict.Valid() && |files| > 0
    ensures Advances(Serving(dict), EvenAt(dict, groups, files), |files|, |Whole(dict, files[0])|)
  {
    var step, at := Serving(dict), EvenAt(dict, groups, files);
    forall s: State, r: nat, p: nat | at(s, r, p) && r < |Whole(dict, files[0])| && p < |files|
      ensures at(step(s, p), r, p + 1)
    {
      CallKeepsEven(s, dict, groups, files, r, p);
    }
    forall s: State, r: nat | at(s, r, |files|)
      ensures at(s, r + 1, 0)
    {
      NextRoundIsEven(s, dict, groups, files, r);
    }
  }

  lemma RoundsKeepEven(s: State, dict: Dictionary, groups: seq<seq<seq<MemoryOperation>>>,
      files: seq<seq<DynamicRecord>>, rounds: nat)
    requires Evenly(s, dict, groups, files, 0, 0) && |files| > 0 && rounds <= |Whole(dict, files[0])|
    ensures Evenly(Run(s, dict, InTurn(|files|, rounds)), dict, groups, files, rounds, 0)
  {
    EvennessAdvances(dict, groups, files);
    RoundsAdvance(Serving(dict), EvenAt(dict, groups, files), |files|, |Whole(dict, files[0])|, s, rounds);
    RoundsRun(s, dict, rounds);
  }

  // In the round behind the last instruction of thread 0 the execution ends.
  lemma LastRoundEnds(s: State, dict: Dictionary, groups: seq<seq<seq<MemoryOperation>>>,
      files: seq<seq<DynamicRecord>>, length: nat, j: nat)
    requires dict.Valid() && |files| > 0 && length == |Whole(dict, files[0])|
    requires Evenly(s, dict, groups, files, length, 0) && j < |files|
    ensures CallsOk(RoundOfCalls(|s.threads|), |s.threads|)
    ensures var last := Run(s, dict, RoundOfCalls(|s.threads|));
      && |last.threads| == |s.threads| && HasEnded(last)
      && Even(dict, last.threads[j], files[j], length)
  {
    AllThreadsAre(|s.threads|);
    CallCounts(s, dict, 0, groups, files[0], length);
    var calls, next := RoundOfCalls(|s.threads|), Step(s, dict, BLANK_PACKET, 0).0;
    FirstCall(s, dict, calls, 0);
    AsleepForEver(next, dict, calls[1..], 0);
    assert Even(dict, s.threads[j], files[j], length);
    assert Even(dict, next.threads[0], files[0], length + 1);
  }

  lemma TurnsEndEvenly(s: State, dict: Dictionary, groups: seq<seq<seq<MemoryOperation>>>,
      files: seq<seq<DynamicRecord>>, j: nat)
    requires Evenly(s, dict, groups, files, 0, 0) && j < |files|
    ensures var length := |Whole(dict, files[0])|;
      var before := Run(s, dict, InTurn(|files|, length));
      var last := Run(s, dict, InTurn(|files|, length + 1));
      && |before.threads| == |last.threads| == |files|
      && !HasEnded(before) && HasEnded(last)
      && Even(dict, last.threads[j], files[j], length)
  {
    var length := |Whole(dict, files[0])|;
    RoundsKeepEven(s, dict, groups, files, length);
    LastRoundEnds(Run(s, dict, InTurn(|files|, length)), dict, groups, files, length, j);
    OneMoreRound(s, dict, length);
  }

  lemma OpenedTurnsEndEvenly(dict: Dictionary, dynFiles: seq<seq<DynamicRecord>>,
      memFiles: seq<seq<MemoryRecord>>, groups: seq<seq<seq<MemoryOperation>>>, j: nat)
    requires Recorded(dict, dynFiles, memFiles, groups) && EnoughAccesses(dict, dynFiles, groups) && j < |dynFiles|
    requires forall i :: 0 <= i < |dynFiles| ==> EventFree(dynFiles[i])
    ensures var length := |Whole(dict, dynFiles[0])|;
      && !HasEnded(AfterRounds(dict, dynFiles, memFiles, length))
      && HasEnded(AfterRounds(dict, dynFiles, memFiles, length + 1))
      && Even(dict, AfterRounds(dict, dynFiles, memFiles, length + 1).threads[j], dynFiles[j], length)
  {
    OpenedIsEven(dict, dynFiles, memFiles, groups);
    TurnsEndEvenly(Opened(dynFiles, memFiles), dict, groups, dynFiles, j);
  }

  lemma PrefixOfLength<T>(given: seq<T>, whole: seq<T>, length: nat)
    requires given <= whole && |given| == Least(|whole|, length)
    ensures given == whole[..Least(|whole|, length)]
  {
  }

  // Without thread events and called in turn, all threads are cut off at the length of the
  // program of thread 0: the execution ends in the round behind its last instruction, and
  // every thread has been given that many of its instructions, or all that it has.
  lemma AllAreCutOffEvenly(dict: Dictionary, dynFiles: seq<seq<DynamicRecord>>, memFiles: seq<seq<MemoryRecord>>,
      groups: seq<seq<seq<MemoryOperation>>>, j: nat)
    requires Recorded(dict, dynFiles, memFiles, groups) && EnoughAccesses(dict, dynFiles, groups) && j < |dynFiles|
    requires forall i :: 0 <= i < |dynFiles| ==> EventFree(dynFiles[i])
    ensures Opened(dynFiles, memFiles).Valid(dict)
    ensures var length, whole := |Whole(dict, dynFiles[0])|, Blocks(dict, Ids(dynFiles[j]));
      var given := whole[..Least(|whole|, length)];
      && HasEnded(AfterRounds(dict, dynFiles, memFiles, length + 1))
      && !HasEnded(AfterRounds(dict, dynFiles, memFiles, length))
      && Touching(given) <= |groups[j]|
      && Fetches(Opened(dynFiles, memFiles), dict, InTurn(|dynFiles|, length + 1), j) == Attached(given, groups[j])
  {
    var length := |Whole(dict, dynFiles[0])|;
    var last := AfterRounds(dict, dynFiles, memFiles, length + 1);
    assert HasEnded(last) && Even(dict, last.threads[j], dynFiles[j], length)
      && !HasEnded(AfterRounds(dict, dynFiles, memFiles, length)) by {
      OpenedTurnsEndEvenly(dict, dynFiles, memFiles, groups, j);
    }
    WholeIsTheBlocks(dict, dynFiles[j]);
    ReplayIsFaithful(dict, dynFiles, memFiles, groups, InTurn(|dynFiles|, length + 1), j);
    PrefixOfLength(Delivered(dict, last.threads[j]), Blocks(dict, Ids(dynFiles[j])), length);
  }
}
