// A program of one thread, from its trace files to what the engine sends: the reader
// gives the whole program, then a Nop, then the end -- and because of that Nop the engine
// sends the last instruction twice.
module EndOfTrace {
  import opened Packets
  import opened TraceFiles
  import opened MemoryTraces
  import opened StaticTraces
  import opened TraceReaders
  import opened ReplayFidelity
  import opened ThreadEvents
  import Engines
  import FetchLoop

  // Blocks, barriers and critical regions that do not end before they start.
  ghost predicate Plain(file: seq<DynamicRecord>) {
    && (forall k :: 0 <= k < |file| ==> file[k].BasicBlockIdentifier? || file[k] in {BARRIER, START, END})
    && (forall k :: 0 <= k <= |file| ==> Depth(file, k) >= 0)
  }

  // The only thread is never put to sleep.
  ghost predicate Alone(s: State) {
    && |s.threads| == 1 && s.awake == {0} && s.threads[0].dynFile.Valid() && Plain(s.threads[0].dynFile.file)
    && s.barrierCont == 0 && s.criticalCont == DepthOf(s.threads[0])
    && !s.fetchFailed && !s.reachedAbruptEnd
  }

  lemma EventKeepsAlone(s: State)
    requires Alone(s) && AtEvent(s, 0)
    ensures var (after, goesOn) := AfterEvent(s, 0); goesOn && Alone(after)
  {
    var source := s.threads[0].dynFile;
    AllThreadsAre(1);
    assert AllThreads(1) == {0};
    assert source.file[source.position] in {BARRIER, START, END};
    assert DepthOf(AfterEvent(s, 0).0.threads[0]) == Depth(source.file, source.position + 1) >= 0;
  }

  // The search fails exactly when no block is left, and then the file has ended.
  lemma {:induction false} SearchFindsTheNext(s: State)
    requires Alone(s) && Readable(s) && !s.threads[0].dynFile.reachedEnd
    ensures var (next, failed) := FetchBlock(s, 0);
      && Alone(next)
      && (failed <==> NoBlocks(s.threads[0].dynFile.file, s.threads[0].dynFile.position, |s.threads[0].dynFile.file|))
      && (failed <==> next.threads[0].dynFile.reachedEnd)
    decreases Unread(s, 0)
  {
    var source := s.threads[0].dynFile;
    if CanRead(s, 0) {
      if Record(s, 0).ThreadEvent? {
        EventKeepsAlone(s);
        SearchGoesOn(s, 0);
        SearchFindsTheNext(AfterEvent(s, 0).0);
      } else {
        assert source.file[source.position].BasicBlockIdentifier?;
        assert DepthOf(FetchBlock(s, 0).0.threads[0]) == Depth(source.file, source.position + 1);
      }
    }
  }

  // ------ The whole program

  function Whole(dict: Dictionary, file: seq<DynamicRecord>): seq<StaticInstructionInfo>
    requires dict.Valid()
  {
    Expand(dict, file, |file|)
  }

  lemma WholeIsTheBlocks(dict: Dictionary, file: seq<DynamicRecord>)
    requires dict.Valid()
    ensures Whole(dict, file) == Blocks(dict, Ids(file))
  {
    ExpandIsBlocks(dict, file, |file|);
    assert file[..|file|] == file;
  }

  lemma {:induction false} BlockDelivers(dict: Dictionary, file: seq<DynamicRecord>, start: nat, k: nat)
    requires dict.Valid() && KnownBlocks(dict, file) && start <= k < |file| && file[k].BasicBlockIdentifier?
    ensures |Expand(dict, file, start)| < |Expand(dict, file, |file|)|
  {
    ExpandGrows(dict, file, start, k);
    assert Expand(dict, file, k + 1) == Expand(dict, file, k) + BlockOf(dict, file[k].id);
    ExpandGrows(dict, file, k + 1, |file|);
  }

  lemma InsideIsNotAll(dict: Dictionary, t: ThreadData)
    requires dict.Valid() && InBlock(dict, t) && t.isInsideBasicBlock
    ensures |Delivered(dict, t)| < |Expand(dict, t.dynFile.file, |t.dynFile.file|)|
  {
    ExpandGrows(dict, t.dynFile.file, t.dynFile.position, |t.dynFile.file|);
  }

  lemma OutsideIsAllIffNoneLeft(dict: Dictionary, file: seq<DynamicRecord>, position: nat)
    requires dict.Valid() && KnownBlocks(dict, file) && position <= |file|
    ensures |Expand(dict, file, position)| == |Expand(dict, file, |file|)| <==> NoBlocks(file, position, |file|)
  {
    if NoBlocks(file, position, |file|) {
      ExpandSkipsEvents(dict, file, position, |file|);
    } else {
      var k :| position <= k < |file| && file[k].BasicBlockIdentifier?;
      BlockDelivers(dict, file, position, k);
    }
  }

  // A thread has been given everything exactly when it is in no block and none is left.
  lemma EverythingDelivered(dict: Dictionary, t: ThreadData)
    requires dict.Valid() && InBlock(dict, t)
    ensures var file := t.dynFile.file;
      |Delivered(dict, t)| == |Whole(dict, file)|
      <==> !t.isInsideBasicBlock && NoBlocks(file, t.dynFile.position, |file|)
  {
    if t.isInsideBasicBlock {
      InsideIsNotAll(dict, t);
    } else {
      OutsideIsAllIffNoneLeft(dict, t.dynFile.file, t.dynFile.position);
    }
  }

  lemma OneMoreOf<T>(before: seq<T>, block: seq<T>, i: nat, whole: seq<T>)
    requires i < |block| && before + block <= whole
    ensures before + block[..i] + [block[i]] <= whole
  {
    assert (before + block)[..|before| + i + 1] == before + block[..i] + [block[i]];
  }

  lemma BlockIsOfTheWhole(dict: Dictionary, file: seq<DynamicRecord>, k: nat)
    requires dict.Valid() && k < |file| && file[k].BasicBlockIdentifier?
    ensures Expand(dict, file, k) + BlockOf(dict, file[k].id) <= Whole(dict, file)
  {
    ExpandGrows(dict, file, k + 1, |file|);
    assert Expand(dict, file, k + 1) == Expand(dict, file, k) + BlockOf(dict, file[k].id);
  }

  lemma NextIsOfTheWhole(dict: Dictionary, t: ThreadData)
    requires dict.Valid() && InBlock(dict, t) && t.isInsideBasicBlock
    ensures Delivered(dict, t) + [Current(dict, t)] <= Whole(dict, t.dynFile.file)
  {
    var file, k := t.dynFile.file, t.dynFile.position - 1;
    var before, block := Expand(dict, file, k), BlockOf(dict, t.currentBasicBlock);
    BlockIsOfTheWhole(dict, file, k);
    OneMoreOf(before, block, t.currentInst, Whole(dict, file));
    assert Current(dict, t) == block[t.currentInst];
  }

  lemma {:induction false} TouchingGrows(part: seq<StaticInstructionInfo>, whole: seq<StaticInstructionInfo>)
    requires part <= whole
    ensures Touching(part) <= Touching(whole)
    decreases |whole|
  {
    if part != whole {
      TouchingGrows(part, whole[..|whole| - 1]);
    }
  }

  // ------ One call

  // A thread alone, with accesses recorded for all its memory instructions.
  ghost predicate Replays(s: State, dict: Dictionary, groups: seq<seq<MemoryOperation>>) {
    && s.Valid(dict) && Alone(s) && GroupsFit(groups)
    && Faithful(dict, s.threads[0], groups)
    && Touching(Whole(dict, s.threads[0].dynFile.file)) <= |groups|
  }

  // Inside a block a call gives the instruction that is next.
  lemma CallInsideBlock(s: State, dict: Dictionary, groups: seq<seq<MemoryOperation>>)
    requires Replays(s, dict, groups) && s.threads[0].isInsideBasicBlock
    ensures var (next, result) := FetchInstruction(s, dict, BLANK_PACKET, 0);
      var was := Delivered(dict, s.threads[0]);
      var whole := Whole(dict, s.threads[0].dynFile.file);
      && |next.threads| == 1 && Replays(next, dict, groups)
      && next.threads[0].dynFile == s.threads[0].dynFile
      && |was| < |whole| && was == whole[..|was|] && Touching(whole[..|was|]) <= Touching(whole)
      && (TouchesMemory(whole[|was|]) ==> Touching(was) < |groups|)
      && result == Ok(Packet(whole[|was|], groups, Touching(was)))
      && |Delivered(dict, next.threads[0])| == |was| + 1
  {
    var t := s.threads[0];
    var was, whole := Delivered(dict, t), Whole(dict, t.dynFile.file);
    var info := Current(dict, t);
    NextIsOfTheWhole(dict, t);
    assert whole[|was|] == (was + [info])[|was|];
    TouchingGrows(was + [info], whole);
    TouchingGrows(was, whole);
    TouchingOneMore(was, info);
    InstructionIsDelivered(s, dict, BLANK_PACKET, 0);
    InstructionIsFaithful(s, dict, BLANK_PACKET, 0, groups);
    StepKeepsTheRest(s, dict);
    if TouchesMemory(info) {
      NextGroup(t.memFile, groups, Touching(was), BLANK_PACKET.(staticInfo := info));
    }
  }

  lemma StepKeepsTheRest(s: State, dict: Dictionary)
    requires s.Valid(dict) && Alone(s) && s.threads[0].isInsideBasicBlock
    ensures var next := FetchInstruction(s, dict, BLANK_PACKET, 0).0;
      next.Valid(dict) && Alone(next)
  {
    var t := s.threads[0];
    if InTables(dict, t) {
      ReadingMovesOn(t.memFile, BLANK_PACKET.(staticInfo := Current(dict, t)));
    }
  }

  // The k-th packet of the program.
  function PacketAt(whole: seq<StaticInstructionInfo>, groups: seq<seq<MemoryOperation>>, k: nat): InstructionPacket
    requires k < |whole| && Touching(whole) <= |groups|
  {
    TouchingGrows(whole[..k + 1], whole);
    TouchingOneMore(whole[..k], whole[k]);
    assert whole[..k + 1] == whole[..k] + [whole[k]];
    Packet(whole[k], groups, Touching(whole[..k]))
  }

  // A call that gives an instruction while there are any, and the one that then finds
  // the end of the file.
  ghost predicate NextOrNop(s: State, dict: Dictionary, groups: seq<seq<MemoryOperation>>, next: State, result: Fetched)
    requires Replays(s, dict, groups) && Replays(next, dict, groups)
  {
    var was := |Delivered(dict, s.threads[0])|;
    var whole := Whole(dict, s.threads[0].dynFile.file);
    if was >= |whole| then result == Nop && next.threads[0].dynFile.reachedEnd
    else
      && result == Ok(PacketAt(whole, groups, was))
      && !next.threads[0].dynFile.reachedEnd
      && |Delivered(dict, next.threads[0])| == was + 1
  }

  lemma OneCall(s: State, dict: Dictionary, groups: seq<seq<MemoryOperation>>)
    requires Replays(s, dict, groups) && !s.threads[0].dynFile.reachedEnd
    ensures var (next, result) := Step(s, dict, BLANK_PACKET, 0);
      Replays(next, dict, groups)
      && next.threads[0].dynFile.file == s.threads[0].dynFile.file
      && NextOrNop(s, dict, groups, next, result)
  {
    var t := s.threads[0];
    DeliveredIsPrefix(dict, t);
    EverythingDelivered(dict, t);
    EnteringIsValid(s, dict, 0);
    EnteringDeliversNothing(s, dict, 0);
    if !t.isInsideBasicBlock {
      SearchFindsTheNext(Reset(s, 0));
    }
    var (entered, failed) := EnterBlock(s, 0);
    assert Replays(entered, dict, groups);
    if !failed {
      CallInsideBlock(entered, dict, groups);
    }
  }

  // ------ All calls

  ghost function After(s: State, dict: Dictionary, calls: nat): (after: State)
    requires s.Valid(dict)
    ensures after.Valid(dict)
  {
    if calls == 0 then s
    else
      var before := After(s, dict, calls - 1);
      StepIsValid(before, dict, BLANK_PACKET, 0);
      Step(before, dict, BLANK_PACKET, 0).0
  }

  // What the k-th call gives.
  ghost function Given(s: State, dict: Dictionary, k: nat): Fetched
    requires s.Valid(dict)
  {
    Step(After(s, dict, k), dict, BLANK_PACKET, 0).1
  }

  // A replay that has given the first k instructions and has not found the end.
  ghost predicate Gave(
    s: State, dict: Dictionary, groups: seq<seq<MemoryOperation>>, file: seq<DynamicRecord>, k: nat)
  {
    && Replays(s, dict, groups) && !s.threads[0].dynFile.reachedEnd
    && s.threads[0].dynFile.file == file && |Delivered(dict, s.threads[0])| == k
  }

  lemma OneMoreGiven(s: State, dict: Dictionary, groups: seq<seq<MemoryOperation>>, file: seq<DynamicRecord>, k: nat)
    requires dict.Valid() && Gave(s, dict, groups, file, k) && k < |Whole(dict, file)|
    ensures Gave(Step(s, dict, BLANK_PACKET, 0).0, dict, groups, file, k + 1)
  {
    OneCall(s, dict, groups);
  }

  // As long as there are instructions, the k-th call gives the k-th.
  lemma {:induction false} CallsGiveTheProgram(s: State, dict: Dictionary, groups: seq<seq<MemoryOperation>>,
      file: seq<DynamicRecord>, k: nat)
    requires dict.Valid() && Gave(s, dict, groups, file, 0) && k <= |Whole(dict, file)|
    ensures Gave(After(s, dict, k), dict, groups, file, k)
    decreases k
  {
    if k > 0 {
      CallsGiveTheProgram(s, dict, groups, file, k - 1);
      OneMoreGiven(After(s, dict, k - 1), dict, groups, file, k - 1);
    }
  }

  lemma EndedGivesEnd(s: State, dict: Dictionary)
    requires s.Valid(dict) && HasEnded(s)
    ensures Step(s, dict, BLANK_PACKET, 0) == (s, End)
  {
  }

  lemma {:induction false} EndForEver(s: State, dict: Dictionary, ended: nat, calls: nat)
    requires s.Valid(dict) && ended <= calls && HasEnded(After(s, dict, ended))
    ensures After(s, dict, calls) == After(s, dict, ended)
    decreases calls
  {
    if ended < calls {
      EndForEver(s, dict, ended, calls - 1);
      EndedGivesEnd(After(s, dict, calls - 1), dict);
    }
  }

  // A reader at the start of its files.
  ghost predicate Fresh(s: State, dict: Dictionary, groups: seq<seq<MemoryOperation>>) {
    Replays(s, dict, groups) && !s.threads[0].dynFile.reachedEnd && Delivered(dict, s.threads[0]) == []
  }

  lemma GivesInstructions(s: State, dict: Dictionary, groups: seq<seq<MemoryOperation>>, k: nat)
    requires Fresh(s, dict, groups) && k < |Whole(dict, s.threads[0].dynFile.file)|
    ensures Given(s, dict, k) == Ok(PacketAt(Whole(dict, s.threads[0].dynFile.file), groups, k))
  {
    CallsGiveTheProgram(s, dict, groups, s.threads[0].dynFile.file, k);
    OneCall(After(s, dict, k), dict, groups);
  }

  lemma ThenGivesNop(s: State, dict: Dictionary, groups: seq<seq<MemoryOperation>>, last: nat)
    requires Fresh(s, dict, groups) && last == |Whole(dict, s.threads[0].dynFile.file)|
    ensures Given(s, dict, last) == Nop && HasEnded(After(s, dict, last + 1))
  {
    CallsGiveTheProgram(s, dict, groups, s.threads[0].dynFile.file, last);
    OneCall(After(s, dict, last), dict, groups);
  }

  lemma ThenEnds(s: State, dict: Dictionary, groups: seq<seq<MemoryOperation>>, k: nat)
    requires Fresh(s, dict, groups) && k > |Whole(dict, s.threads[0].dynFile.file)|
    ensures Given(s, dict, k) == End
  {
    var last := |Whole(dict, s.threads[0].dynFile.file)|;
    ThenGivesNop(s, dict, groups, last);
    EndForEver(s, dict, last + 1, k);
    EndedGivesEnd(After(s, dict, k), dict);
  }

  // A replay is complete: every instruction of the program in its order, then one Nop,
  // then the end for ever.
  lemma ReplayIsComplete(s: State, dict: Dictionary, groups: seq<seq<MemoryOperation>>, k: nat)
    requires Fresh(s, dict, groups)
    ensures var whole := Whole(dict, s.threads[0].dynFile.file);
      Given(s, dict, k) == if k < |whole| then Ok(PacketAt(whole, groups, k)) else if k == |whole| then Nop else End
  {
    var last := |Whole(dict, s.threads[0].dynFile.file)|;
    if k < last {
      GivesInstructions(s, dict, groups, k);
    } else if k == last {
      ThenGivesNop(s, dict, groups, k);
    } else {
      ThenEnds(s, dict, groups, k);
    }
  }

  lemma OpenedIsAlone(file: seq<DynamicRecord>, memory: seq<MemoryRecord>)
    requires Plain(file)
    ensures Alone(Opened([file], [memory]))
    ensures Opened([file], [memory]).threads == [OpenedThread(file, memory)]
  {
    OpenedAt([file], [memory], 0);
    assert AllThreads(1) == AllThreads(0) + {0} == {0};
  }

  lemma OpenedIsFaithful(dict: Dictionary, file: seq<DynamicRecord>, groups: seq<seq<MemoryOperation>>)
    requires dict.Valid() && KnownBlocks(dict, file)
    ensures var t := OpenedThread(file, EncodeAll(groups));
      Faithful(dict, t, groups) && Delivered(dict, t) == []
  {
    assert groups[..0] == [];
  }

  // What OpenTrace makes of the files of one thread.
  lemma OpenedIsFresh(dict: Dictionary, file: seq<DynamicRecord>, groups: seq<seq<MemoryOperation>>)
    requires dict.Valid() && KnownBlocks(dict, file) && Plain(file) && GroupsFit(groups)
    requires Touching(Whole(dict, file)) <= |groups|
    ensures Fresh(Opened([file], [EncodeAll(groups)]), dict, groups)
    ensures Opened([file], [EncodeAll(groups)]).threads[0].dynFile.file == file
  {
    OpenedIsAlone(file, EncodeAll(groups));
    OpenedIsFaithful(dict, file, groups);
  }

  // ------ The engine

  function PacketsFrom(whole: seq<StaticInstructionInfo>, groups: seq<seq<MemoryOperation>>, k: nat)
      : (packets: seq<InstructionPacket>)
    requires k <= |whole| && Touching(whole) <= |groups|
    ensures |packets| == |whole| - k
    decreases |whole| - k
  {
    if k == |whole| then [] else [PacketAt(whole, groups, k)] + PacketsFrom(whole, groups, k + 1)
  }

  lemma {:induction false} EngineSendsTheRest(reader: Engines.Reader, whole: seq<StaticInstructionInfo>,
      groups: seq<seq<MemoryOperation>>, k: nat)
    requires k < |whole| && Touching(whole) <= |groups|
    requires forall i :: 0 <= i < |whole| ==> reader(i) == Ok(PacketAt(whole, groups, i))
    requires reader(|whole|) == Nop
    ensures FetchLoop.SentBuffers(reader, Engines.Core(PacketAt(whole, groups, k), k + 1), |whole| - k + 1)
      == PacketsFrom(whole, groups, k) + [PacketAt(whole, groups, |whole| - 1)]
    decreases |whole| - k
  {
    var core := Engines.Core(PacketAt(whole, groups, k), k + 1);
    var next := Engines.Advance(reader, core);
    assert FetchLoop.SentBuffers(reader, core, |whole| - k + 1)
      == [core.buffer] + FetchLoop.SentBuffers(reader, next, |whole| - k);
    if k + 1 < |whole| {
      EngineSendsTheRest(reader, whole, groups, k + 1);
    } else {
      assert PacketsFrom(whole, groups, k + 1) == [];
      assert FetchLoop.SentBuffers(reader, next, 1)
        == [next.buffer] + FetchLoop.SentBuffers(reader, Engines.Advance(reader, next), 0);
    }
  }

  // From the trace files to the messages of the engine. Up to the call that ends the
  // simulation the engine sends the recorded program, every instruction with its
  // accesses and in order -- and then its last instruction once more.
  lemma LastInstructionIsSentTwice(dict: Dictionary, file: seq<DynamicRecord>, groups: seq<seq<MemoryOperation>>,
      reader: Engines.Reader)
    requires dict.Valid() && KnownBlocks(dict, file) && Plain(file) && GroupsFit(groups)
    requires Touching(Whole(dict, file)) <= |groups| && Whole(dict, file) != []
    requires Opened([file], [EncodeAll(groups)]).Valid(dict)
    requires forall k: nat :: reader(k) == Given(Opened([file], [EncodeAll(groups)]), dict, k)
    ensures var whole := Whole(dict, file);
      && whole == Blocks(dict, Ids(file))
      && reader(0).Ok? && reader(|whole| + 1) == End
      && FetchLoop.SentBuffers(reader, Engines.Core(reader(0).packet, 1), |whole| + 1)
        == PacketsFrom(whole, groups, 0) + [PacketAt(whole, groups, |whole| - 1)]
  {
    var first, whole := Opened([file], [EncodeAll(groups)]), Whole(dict, file);
    WholeIsTheBlocks(dict, file);
    OpenedIsFresh(dict, file, groups);
    forall k: nat
      ensures reader(k) == if k < |whole| then Ok(PacketAt(whole, groups, k)) else if k == |whole| then Nop else End
    {
      ReplayIsComplete(first, dict, groups, k);
    }
    EngineSendsTheRest(reader, whole, groups, 0);
  }
}
