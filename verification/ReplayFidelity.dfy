// What a recorded program gives when it is fetched again: for every interleaving of the
// calls, each thread gets the instructions of its recorded blocks in their order, and
// each memory instruction the next accesses of its thread. Thread events decide when a
// thread is served, never what it is given.
module ReplayFidelity {
  import opened Sequences
  import opened Packets
  import opened TraceFiles
  import opened MemoryTraces
  import opened StaticTraces
  import opened TraceReaders

  // ------ What was recorded

  function Ids(file: seq<DynamicRecord>): seq<nat> {
    if file == [] then []
    else
      var last := |file| - 1;
      Ids(file[..last]) + if file[last].BasicBlockIdentifier? then [file[last].id] else []
  }

  function BlockOf(dict: Dictionary, id: nat): seq<StaticInstructionInfo>
    requires dict.Valid()
  {
    if id < |dict.sizes| then dict.pool[dict.offsets[id]..dict.offsets[id] + dict.sizes[id]] else []
  }

  function Blocks(dict: Dictionary, ids: seq<nat>): seq<StaticInstructionInfo>
    requires dict.Valid()
  {
    if ids == [] then [] else Blocks(dict, ids[..|ids| - 1]) + BlockOf(dict, ids[|ids| - 1])
  }

  // The instructions of the blocks named by the first `count` records.
  function Expand(dict: Dictionary, file: seq<DynamicRecord>, count: nat): seq<StaticInstructionInfo>
    requires dict.Valid() && count <= |file|
  {
    if count == 0 then []
    else Expand(dict, file, count - 1) + match file[count - 1] {
      case BasicBlockIdentifier(id) => BlockOf(dict, id)
      case _ => []
    }
  }

  lemma {:induction false} ExpandIsBlocks(dict: Dictionary, file: seq<DynamicRecord>, count: nat)
    requires dict.Valid() && count <= |file|
    ensures Expand(dict, file, count) == Blocks(dict, Ids(file[..count]))
  {
    if count > 0 {
      ExpandIsBlocks(dict, file, count - 1);
      var ids := Ids(file[..count - 1]);
      assert file[..count][..count - 1] == file[..count - 1];
      if file[count - 1].BasicBlockIdentifier? {
        assert (ids + [file[count - 1].id])[..|ids|] == ids;
      } else {
        assert ids + [] == ids;
      }
    }
  }

  // How many of the instructions read or write memory.
  function Touching(infos: seq<StaticInstructionInfo>): nat {
    if infos == [] then 0
    else
      var last := infos[|infos| - 1];
      Touching(infos[..|infos| - 1]) + if last.instReadsMemory || last.instWritesMemory then 1 else 0
  }

  // The packets of a thread: the k-th instruction that touches memory has the k-th group
  // of accesses.
  function Attached(infos: seq<StaticInstructionInfo>, groups: seq<seq<MemoryOperation>>): seq<InstructionPacket>
    requires Touching(infos) <= |groups|
  {
    if infos == [] then []
    else
      var last := |infos| - 1;
      Attached(infos[..last], groups) + [Packet(infos[last], groups, Touching(infos[..last]))]
  }

  function Packet(info: StaticInstructionInfo, groups: seq<seq<MemoryOperation>>, next: nat): InstructionPacket
    requires TouchesMemory(info) ==> next < |groups|
  {
    var packet := BLANK_PACKET.(staticInfo := info);
    if TouchesMemory(info) then WithAccesses(packet, groups[next]) else packet
  }

  // ------ What a thread has been given

  // The trace names only recorded blocks, and none of them is empty.
  ghost predicate KnownBlocks(dict: Dictionary, file: seq<DynamicRecord>) {
    forall k :: 0 <= k < |file| && file[k].BasicBlockIdentifier? ==>
      file[k].id < |dict.sizes| && dict.sizes[file[k].id] > 0
  }

  ghost predicate InBlock(dict: Dictionary, t: ThreadData) {
    && t.Valid() && KnownBlocks(dict, t.dynFile.file)
    && (t.isInsideBasicBlock ==> t.dynFile.position > 0)
    && (t.isInsideBasicBlock ==>
      t.dynFile.file[t.dynFile.position - 1] == BasicBlockIdentifier(t.currentBasicBlock))
    && (t.isInsideBasicBlock ==>
      t.currentBasicBlock < |dict.sizes| && t.currentInst < dict.sizes[t.currentBasicBlock])
  }

  function Delivered(dict: Dictionary, t: ThreadData): seq<StaticInstructionInfo>
    requires dict.Valid() && InBlock(dict, t)
  {
    if t.isInsideBasicBlock then
      Expand(dict, t.dynFile.file, t.dynFile.position - 1) + BlockOf(dict, t.currentBasicBlock)[..t.currentInst]
    else Expand(dict, t.dynFile.file, t.dynFile.position)
  }

  // Events deliver nothing.
  lemma {:induction false} ExpandSkipsEvents(dict: Dictionary, file: seq<DynamicRecord>, start: nat, end: nat)
    requires dict.Valid() && start <= end <= |file| && NoBlocks(file, start, end)
    ensures Expand(dict, file, end) == Expand(dict, file, start)
    decreases end
  {
    if start < end {
      ExpandSkipsEvents(dict, file, start, end - 1);
    }
  }

  lemma EnteringDeliversNothing(s: State, dict: Dictionary, tid: nat)
    requires s.Valid(dict) && tid < |s.threads| && InBlock(dict, s.threads[tid])
    ensures var (next, failed) := EnterBlock(s, tid);
      |next.threads| == |s.threads|
      && next.threads == s.threads[tid := next.threads[tid]]
      && InBlock(dict, next.threads[tid])
      && next.Valid(dict)
      && next.threads[tid].memFile == s.threads[tid].memFile
      && next.threads[tid].dynFile.file == s.threads[tid].dynFile.file
      && Delivered(dict, next.threads[tid]) == Delivered(dict, s.threads[tid])
      && (!failed ==> next.threads[tid].isInsideBasicBlock)
  {
    if !s.threads[tid].isInsideBasicBlock {
      var reset := s.With(tid, s.threads[tid].(currentInst := 0));
      FetchingMoves(reset, tid);
      var (next, failed) := FetchBlock(reset, tid);
      var was, now := s.threads[tid].dynFile, next.threads[tid].dynFile;
      ExpandSkipsEvents(dict, was.file, was.position, now.position - if failed then 0 else 1);
      assert EnterBlock(s, tid).0.threads == s.threads[tid := EnterBlock(s, tid).0.threads[tid]];
    }
  }

  lemma InstructionIsDelivered(s: State, dict: Dictionary, ret: InstructionPacket, tid: nat)
    requires s.Valid(dict) && tid < |s.threads| && InBlock(dict, s.threads[tid]) && s.threads[tid].isInsideBasicBlock
    ensures var (next, result) := FetchInstruction(s, dict, ret, tid);
      var was, now := s.threads[tid], next.threads[tid];
      next.threads == s.threads[tid := now]
      && InBlock(dict, now) && now.dynFile == was.dynFile
      && Delivered(dict, now) == Delivered(dict, was)
        + if result.Ok? then [Current(dict, was)] else []
  {
    var was := s.threads[tid];
    var info := Current(dict, was);
    ReadingMovesOn(was.memFile, ret.(staticInfo := info, loads := [], stores := []));
    var block := BlockOf(dict, was.currentBasicBlock);
    assert block[..was.currentInst] + [info] == block[..was.currentInst + 1];
    assert block[..|block|] == block;
    var before := Expand(dict, was.dynFile.file, was.dynFile.position - 1);
    assert before + block[..was.currentInst] + [info] == before + (block[..was.currentInst] + [info]);
  }

  // ------ The accesses

  ghost predicate GroupsFit(groups: seq<seq<MemoryOperation>>) {
    forall m :: 0 <= m < |groups| ==> SizesFit(groups[m]) && HasRoom(BLANK_PACKET, groups[m])
  }

  // The reader of the accesses has consumed `count` groups.
  ghost predicate MemoryAt(source: MemorySource, groups: seq<seq<MemoryOperation>>, count: nat) {
    && count <= |groups|
    && source.file == EncodeAll(groups)
    && source.position == |EncodeAll(groups[..count])| <= |source.file|
    && (source.reachedEnd ==> count == |groups|)
  }

  lemma {:induction false} GroupsBefore(groups: seq<seq<MemoryOperation>>, count: nat)
    requires count <= |groups|
    ensures EncodeAll(groups) == EncodeAll(groups[..count]) + EncodeAll(groups[count..])
    decreases count
  {
    if count == 0 {
      assert groups[0..] == groups;
    } else {
      GroupsBefore(groups[1..], count - 1);
      assert groups[..count][1..] == groups[1..][..count - 1];
      assert groups[1..][count - 1..] == groups[count..];
      Associate(EncodeGroup(groups[0]), EncodeAll(groups[1..][..count - 1]), EncodeAll(groups[count..]));
    }
  }

  lemma {:induction false} GroupAppended(groups: seq<seq<MemoryOperation>>, group: seq<MemoryOperation>)
    ensures EncodeAll(groups + [group]) == EncodeAll(groups) + EncodeGroup(group)
    decreases |groups|
  {
    if groups == [] {
      assert EncodeAll([group]) == EncodeGroup(group) + EncodeAll([]);
      assert EncodeAll([]) + EncodeGroup(group) == EncodeGroup(group) == EncodeGroup(group) + EncodeAll([]);
    } else {
      assert (groups + [group])[1..] == groups[1..] + [group];
      GroupAppended(groups[1..], group);
      Associate(EncodeGroup(groups[0]), EncodeAll(groups[1..]), EncodeGroup(group));
    }
  }

  lemma GroupBehind(groups: seq<seq<MemoryOperation>>, count: nat)
    requires count < |groups|
    ensures EncodeAll(groups[..count + 1]) == EncodeAll(groups[..count]) + EncodeGroup(groups[count])
  {
    GroupAppended(groups[..count], groups[count]);
    assert groups[..count] + [groups[count]] == groups[..count + 1];
  }

  lemma OneMoreGroup(groups: seq<seq<MemoryOperation>>, count: nat, before: seq<MemoryRecord>, rest: seq<MemoryRecord>)
    requires count < |groups| && before == EncodeAll(groups[..count]) && rest == EncodeAll(groups[count + 1..])
    ensures EncodeAll(groups) == before + EncodeGroup(groups[count]) + rest
    ensures |EncodeAll(groups[..count + 1])| == |before| + 1 + |groups[count]|
  {
    GroupsBefore(groups, count + 1);
    GroupBehind(groups, count);
  }

  // Reading into an empty packet gives the next group and fails exactly when there is
  // none left.
  lemma NextGroup(source: MemorySource, groups: seq<seq<MemoryOperation>>, count: nat, packet: InstructionPacket)
    requires GroupsFit(groups) && MemoryAt(source, groups, count) && packet.loads == packet.stores == []
    ensures var read := ReadGroup(source, packet);
      read.outcome == (if count == |groups| then Failed else Done)
      && (read.outcome.Failed? ==> MemoryAt(read.source, groups, count))
      && (read.outcome.Done? ==> MemoryAt(read.source, groups, count + 1))
      && (read.outcome.Done? ==> read.packet == WithAccesses(packet, groups[count]))
  {
    if count == |groups| {
      assert groups[..count] == groups;
    } else {
      var before, rest := EncodeAll(groups[..count]), EncodeAll(groups[count + 1..]);
      OneMoreGroup(groups, count, before, rest);
      GroupComesBack(before, groups[count], rest, packet);
    }
  }

  // ------ One call

  ghost predicate Faithful(dict: Dictionary, t: ThreadData, groups: seq<seq<MemoryOperation>>)
    requires dict.Valid()
  {
    InBlock(dict, t) && MemoryAt(t.memFile, groups, Touching(Delivered(dict, t)))
  }

  // The engine fills nextInstruction; the reader leaves it alone.
  function View(packet: InstructionPacket): InstructionPacket {
    packet.(nextInstruction := 0)
  }

  lemma TouchingOneMore(infos: seq<StaticInstructionInfo>, info: StaticInstructionInfo)
    ensures Touching(infos + [info]) == Touching(infos) + if TouchesMemory(info) then 1 else 0
  {
    assert (infos + [info])[..|infos|] == infos;
  }

  // The accesses of an instruction are read from the group that is next.
  lemma AccessesAreNext(source: MemorySource, groups: seq<seq<MemoryOperation>>, was: seq<StaticInstructionInfo>,
      info: StaticInstructionInfo, packet: InstructionPacket)
    requires GroupsFit(groups) && MemoryAt(source, groups, Touching(was)) && TouchesMemory(info)
    requires packet.staticInfo == info && packet.loads == packet.stores == []
    ensures var read := ReadGroup(source, packet);
      !read.outcome.PastSlots?
      && MemoryAt(read.source, groups, Touching(if read.outcome.Done? then was + [info] else was))
      && (read.outcome.Done? ==>
        Touching(was) < |groups| && View(read.packet) == Packet(info, groups, Touching(was)))
  {
    NextGroup(source, groups, Touching(was), packet);
    TouchingOneMore(was, info);
  }

  lemma InstructionIsFaithful(s: State, dict: Dictionary, ret: InstructionPacket, tid: nat,
      groups: seq<seq<MemoryOperation>>)
    requires s.Valid(dict) && tid < |s.threads| && GroupsFit(groups)
    requires Faithful(dict, s.threads[tid], groups) && s.threads[tid].isInsideBasicBlock
    ensures var (next, result) := FetchInstruction(s, dict, ret, tid);
      Faithful(dict, next.threads[tid], groups)
      && HandsOut(result, groups, Delivered(dict, s.threads[tid]), Delivered(dict, next.threads[tid]))
  {
    var thread := s.threads[tid];
    var was := Delivered(dict, thread);
    var info := Current(dict, thread);
    InstructionIsDelivered(s, dict, ret, tid);
    if TouchesMemory(info) {
      AccessesAreNext(thread.memFile, groups, was, info, ret.(staticInfo := info, loads := [], stores := []));
    } else {
      TouchingOneMore(was, info);
    }
  }

  ghost predicate AllFaithful(s: State, dict: Dictionary, groups: seq<seq<seq<MemoryOperation>>>) {
    && s.Valid(dict) && |groups| == |s.threads|
    && forall i :: 0 <= i < |groups| ==> GroupsFit(groups[i]) && Faithful(dict, s.threads[i], groups[i])
  }

  // What a call hands out, with `was` delivered before it and `now` behind it. It never
  // leaves the bounds of a table or of the packet.
  ghost predicate HandsOut(result: Fetched, groups: seq<seq<MemoryOperation>>,
      was: seq<StaticInstructionInfo>, now: seq<StaticInstructionInfo>)
  {
    if result.Ok? then
      && (TouchesMemory(result.packet.staticInfo) ==> Touching(was) < |groups|)
      && View(result.packet) == Packet(result.packet.staticInfo, groups, Touching(was))
      && now == was + [result.packet.staticInfo]
    else now == was && !result.Overrun?
  }

  // What one call hands out, and what it leaves of its thread.
  lemma StepOfThread(s: State, dict: Dictionary, ret: InstructionPacket, tid: nat, groups: seq<seq<MemoryOperation>>)
    requires s.Valid(dict) && tid < |s.threads| && GroupsFit(groups) && Faithful(dict, s.threads[tid], groups)
    ensures var (next, result) := Step(s, dict, ret, tid);
      |next.threads| == |s.threads|
      && next.threads == s.threads[tid := next.threads[tid]]
      && Faithful(dict, next.threads[tid], groups)
      && next.threads[tid].dynFile.file == s.threads[tid].dynFile.file
      && HandsOut(result, groups, Delivered(dict, s.threads[tid]), Delivered(dict, next.threads[tid]))
  {
    var (next, result) := Step(s, dict, ret, tid);
    if HasEnded(s) || s.threads[tid].dynFile.reachedEnd || tid !in s.awake {
      assert s.threads == s.threads[tid := s.threads[tid]];
    } else {
      EnteringDeliversNothing(s, dict, tid);
      var (entered, failed) := EnterBlock(s, tid);
      if !failed {
        assert (next, result) == FetchInstruction(entered, dict, ret, tid);
        ServedInBlock(entered, dict, ret, tid, groups);
        UpdateTwice(s.threads, tid, entered.threads[tid], next.threads[tid]);
      }
    }
  }

  lemma UpdateTwice<T>(s: seq<T>, i: nat, first: T, second: T)
    requires i < |s|
    ensures s[i := first][i := second] == s[i := second]
  {
  }

  lemma ServedInBlock(s: State, dict: Dictionary, ret: InstructionPacket, tid: nat, groups: seq<seq<MemoryOperation>>)
    requires s.Valid(dict) && tid < |s.threads| && GroupsFit(groups) && Faithful(dict, s.threads[tid], groups)
    requires s.threads[tid].isInsideBasicBlock
    ensures var (next, result) := FetchInstruction(s, dict, ret, tid);
      |next.threads| == |s.threads|
      && next.threads == s.threads[tid := next.threads[tid]]
      && Faithful(dict, next.threads[tid], groups)
      && next.threads[tid].dynFile.file == s.threads[tid].dynFile.file
      && HandsOut(result, groups, Delivered(dict, s.threads[tid]), Delivered(dict, next.threads[tid]))
  {
    InstructionIsDelivered(s, dict, ret, tid);
    InstructionIsFaithful(s, dict, ret, tid, groups);
  }

  lemma StepIsFaithful(s: State, dict: Dictionary, ret: InstructionPacket, tid: nat,
      groups: seq<seq<seq<MemoryOperation>>>)
    requires AllFaithful(s, dict, groups) && tid < |s.threads|
    ensures var (next, result) := Step(s, dict, ret, tid);
      AllFaithful(next, dict, groups)
      && next.threads == s.threads[tid := next.threads[tid]]
      && next.threads[tid].dynFile.file == s.threads[tid].dynFile.file
      && HandsOut(result, groups[tid], Delivered(dict, s.threads[tid]), Delivered(dict, next.threads[tid]))
  {
    StepOfThread(s, dict, ret, tid, groups[tid]);
    StepIsValid(s, dict, ret, tid);
  }

  // A memory instruction for which no accesses are left: the call fails, and so does every
  // other call for the thread, which stays where it is.
  lemma MissingAccessesFail(s: State, dict: Dictionary, ret: InstructionPacket, tid: nat,
      groups: seq<seq<MemoryOperation>>)
    requires s.Valid(dict) && tid < |s.threads| && GroupsFit(groups) && Faithful(dict, s.threads[tid], groups)
    requires !HasEnded(s) && tid in s.awake && s.threads[tid].isInsideBasicBlock
    requires Touching(Delivered(dict, s.threads[tid])) == |groups|
    requires InTables(dict, s.threads[tid]) && TouchesMemory(Current(dict, s.threads[tid]))
    ensures var (next, result) := Step(s, dict, ret, tid);
      && result == Error(ret.(staticInfo := Current(dict, s.threads[tid]), loads := [], stores := []))
      && |next.threads| == |s.threads|
      && next.threads[tid] == s.threads[tid].(memFile := s.threads[tid].memFile.(reachedEnd := true))
      && Faithful(dict, next.threads[tid], groups)
  {
    var info := Current(dict, s.threads[tid]);
    NextGroup(s.threads[tid].memFile, groups, |groups|, ret.(staticInfo := info, loads := [], stores := []));
    StepOfThread(s, dict, ret, tid, groups);
    NothingIsRead(s.threads[tid].memFile, groups, ret.(staticInfo := info, loads := [], stores := []));
  }

  lemma NothingIsRead(source: MemorySource, groups: seq<seq<MemoryOperation>>, packet: InstructionPacket)
    requires MemoryAt(source, groups, |groups|)
    ensures ReadGroup(source, packet) == MemoryRead(source.(reachedEnd := true), packet, Failed)
  {
    assert groups[..|groups|] == groups;
  }

  // When the accesses of an instruction cannot be read, the thread stays at it; its file is
  // read behind the header, if there is one.
  lemma FailedReadMovesOn(s: State, dict: Dictionary, ret: InstructionPacket, tid: nat)
    requires s.Valid(dict) && tid < |s.threads| && !HasEnded(s) && tid in s.awake
    requires s.threads[tid].isInsideBasicBlock && InTables(dict, s.threads[tid])
    requires !Step(s, dict, ret, tid).1.Ok? && !s.threads[tid].dynFile.reachedEnd
    ensures var t, after := s.threads[tid], Step(s, dict, ret, tid).0.threads;
      && |after| == |s.threads| && after == s.threads[tid := t.(memFile := after[tid].memFile)]
      && (t.memFile.position < after[tid].memFile.position <==> AtHeader(t.memFile))
  {
    var t := s.threads[tid];
    ReadingMovesOn(t.memFile, ret.(staticInfo := Current(dict, t), loads := [], stores := []));
  }

  // A thread in a block that the tables do not have, or whose accesses do not fit in the
  // packet, leads out of the bounds of the program.
  lemma OutOfBounds(s: State, dict: Dictionary, ret: InstructionPacket, tid: nat)
    requires s.Valid(dict) && tid < |s.threads| && !HasEnded(s) && tid in s.awake
    requires s.threads[tid].isInsideBasicBlock && !s.threads[tid].dynFile.reachedEnd
    ensures Step(s, dict, ret, tid).1 == Overrun <==>
      var t := s.threads[tid];
      !InTables(dict, t)
      || (TouchesMemory(Current(dict, t))
        && ReadGroup(t.memFile, ret.(staticInfo := Current(dict, t), loads := [], stores := [])).outcome == PastSlots)
  {
  }

  // ------ Every run

  datatype Call = Call(tid: nat, ret: InstructionPacket)

  ghost predicate CallsOk(calls: seq<Call>, count: nat) {
    forall k :: 0 <= k < |calls| ==> calls[k].tid < count
  }

  lemma StepIsValid(s: State, dict: Dictionary, ret: InstructionPacket, tid: nat)
    requires s.Valid(dict) && tid < |s.threads|
    ensures var next := Step(s, dict, ret, tid).0; next.Valid(dict) && |next.threads| == |s.threads|
  {
    EnteringIsValid(s, dict, tid);
    var (entered, failed) := EnterBlock(s, tid);
    if !failed && InTables(dict, entered.threads[tid]) {
      var thread := entered.threads[tid];
      ReadingMovesOn(thread.memFile, ret.(staticInfo := Current(dict, thread), loads := [], stores := []));
    }
  }

  function Run(s: State, dict: Dictionary, calls: seq<Call>): State
    requires s.Valid(dict) && CallsOk(calls, |s.threads|)
    decreases |calls|
  {
    if calls == [] then s
    else
      StepIsValid(s, dict, calls[0].ret, calls[0].tid);
      Run(Step(s, dict, calls[0].ret, calls[0].tid).0, dict, calls[1..])
  }

  // What a call hands out for thread `tid`, ...
  function GivenBy(result: Fetched, call: Call, tid: nat): seq<InstructionPacket> {
    if call.tid == tid && result.Ok? then [View(result.packet)] else []
  }

  // ... and the packets of all calls.
  function Fetches(s: State, dict: Dictionary, calls: seq<Call>, tid: nat): seq<InstructionPacket>
    requires s.Valid(dict) && CallsOk(calls, |s.threads|)
    decreases |calls|
  {
    if calls == [] then []
    else
      StepIsValid(s, dict, calls[0].ret, calls[0].tid);
      var (next, result) := Step(s, dict, calls[0].ret, calls[0].tid);
      GivenBy(result, calls[0], tid)
        + Fetches(next, dict, calls[1..], tid)
  }

  lemma AttachedOneMore(infos: seq<StaticInstructionInfo>, info: StaticInstructionInfo,
      groups: seq<seq<MemoryOperation>>)
    requires Touching(infos) <= |groups|
    requires TouchesMemory(info) ==> Touching(infos) < |groups|
    ensures Touching(infos + [info]) <= |groups|
    ensures Attached(infos + [info], groups) == Attached(infos, groups) + [Packet(info, groups, Touching(infos))]
  {
    TouchingOneMore(infos, info);
    assert (infos + [info])[..|infos|] == infos;
  }

  lemma FirstCall(s: State, dict: Dictionary, calls: seq<Call>, tid: nat)
    requires s.Valid(dict) && CallsOk(calls, |s.threads|) && calls != []
    ensures var (next, result) := Step(s, dict, calls[0].ret, calls[0].tid);
      next.Valid(dict) && |next.threads| == |s.threads|
      && Run(s, dict, calls) == Run(next, dict, calls[1..])
      && Fetches(s, dict, calls, tid)
        == GivenBy(result, calls[0], tid)
          + Fetches(next, dict, calls[1..], tid)
  {
    StepIsValid(s, dict, calls[0].ret, calls[0].tid);
  }

  // The packets of a thread so far, and the one a call may add.
  lemma CallAttaches(result: Fetched, groups: seq<seq<MemoryOperation>>, was: seq<StaticInstructionInfo>,
      now: seq<StaticInstructionInfo>, later: seq<InstructionPacket>)
    requires Touching(was) <= |groups| && HandsOut(result, groups, was, now)
    ensures Touching(now) <= |groups|
    ensures Attached(was, groups) + ((if result.Ok? then [View(result.packet)] else []) + later)
      == Attached(now, groups) + later
  {
    if result.Ok? {
      AttachedOneMore(was, result.packet.staticInfo, groups);
      Associate(Attached(was, groups), [View(result.packet)], later);
    } else {
      assert [] + later == later;
    }
  }

  lemma {:induction false} RunIsFaithful(s: State, dict: Dictionary, calls: seq<Call>, tid: nat,
      groups: seq<seq<seq<MemoryOperation>>>)
    requires AllFaithful(s, dict, groups) && CallsOk(calls, |s.threads|) && tid < |s.threads|
    ensures var last := Run(s, dict, calls);
      AllFaithful(last, dict, groups)
      && last.threads[tid].dynFile.file == s.threads[tid].dynFile.file
      && Attached(Delivered(dict, s.threads[tid]), groups[tid]) + Fetches(s, dict, calls, tid)
        == Attached(Delivered(dict, last.threads[tid]), groups[tid])
    decreases |calls|
  {
    var was := Delivered(dict, s.threads[tid]);
    if calls == [] {
      assert Attached(was, groups[tid]) + [] == Attached(was, groups[tid]);
    } else {
      var call, others := calls[0], calls[1..];
      var (next, result) := Step(s, dict, call.ret, call.tid);
      StepIsFaithful(s, dict, call.ret, call.tid, groups);
      FirstCall(s, dict, calls, tid);
      RunIsFaithful(next, dict, others, tid, groups);
      var later := Fetches(next, dict, others, tid);
      if call.tid == tid {
        CallAttaches(result, groups[tid], was, Delivered(dict, next.threads[tid]), later);
      } else {
        assert [] + later == later;
      }
    }
  }

  lemma {:induction false} ExpandGrows(dict: Dictionary, file: seq<DynamicRecord>, a: nat, b: nat)
    requires dict.Valid() && a <= b <= |file|
    ensures Expand(dict, file, a) <= Expand(dict, file, b)
    decreases b
  {
    if a < b {
      ExpandGrows(dict, file, a, b - 1);
    }
  }

  lemma DeliveredIsPrefix(dict: Dictionary, t: ThreadData)
    requires dict.Valid() && InBlock(dict, t)
    ensures var whole := Blocks(dict, Ids(t.dynFile.file));
      whole == Expand(dict, t.dynFile.file, |t.dynFile.file|)
      && Delivered(dict, t) <= whole
      && (t.dynFile.reachedEnd ==> Delivered(dict, t) == whole)
  {
    var file, position := t.dynFile.file, t.dynFile.position;
    ExpandIsBlocks(dict, file, |file|);
    assert file[..|file|] == file;
    ExpandGrows(dict, file, position, |file|);
    if t.isInsideBasicBlock {
      assert Delivered(dict, t) <= Expand(dict, file, position);
    }
  }

  // Replay fidelity. Whatever the interleaving of the calls, and whatever thread events
  // the traces hold, the packets a thread gets are its recorded blocks one behind the
  // other, as far as it came, with the recorded accesses attached in order.
  lemma ReplayIsFaithful(dict: Dictionary, dynFiles: seq<seq<DynamicRecord>>,
      memFiles: seq<seq<MemoryRecord>>, groups: seq<seq<seq<MemoryOperation>>>, calls: seq<Call>, tid: nat)
    requires dict.Valid() && |dynFiles| == |memFiles| == |groups| && tid < |dynFiles|
    requires forall i :: 0 <= i < |dynFiles| ==> KnownBlocks(dict, dynFiles[i])
    requires forall i :: 0 <= i < |groups| ==> GroupsFit(groups[i]) && memFiles[i] == EncodeAll(groups[i])
    requires CallsOk(calls, |dynFiles|)
    ensures Opened(dynFiles, memFiles).Valid(dict)
    ensures var last := Run(Opened(dynFiles, memFiles), dict, calls);
      tid < |last.threads| && InBlock(dict, last.threads[tid])
      && var given := Delivered(dict, last.threads[tid]);
        Touching(given) <= |groups[tid]|
        && Fetches(Opened(dynFiles, memFiles), dict, calls, tid) == Attached(given, groups[tid])
        && given <= Blocks(dict, Ids(dynFiles[tid]))
        && (last.threads[tid].dynFile.reachedEnd ==> given == Blocks(dict, Ids(dynFiles[tid])))
  {
    OpenedIsValid(dict, dynFiles, memFiles);
    var first := Opened(dynFiles, memFiles);
    forall i | 0 <= i < |groups|
      ensures Faithful(dict, first.threads[i], groups[i])
      ensures first.threads[i].dynFile.file == dynFiles[i] && Delivered(dict, first.threads[i]) == []
    {
      OpenedAt(dynFiles, memFiles, i);
    }
    RunIsFaithful(first, dict, calls, tid, groups);
    DeliveredIsPrefix(dict, Run(first, dict, calls).threads[tid]);
    assert [] + Fetches(first, dict, calls, tid) == Fetches(first, dict, calls, tid);
  }

  // ------ The reader itself

  method OneCall(reader: SinucaTraceReader, call: Call, tid: nat) returns (given: seq<InstructionPacket>)
    requires reader.Valid() && call.tid < reader.totalThreads
    modifies reader, reader.isThreadAwake
    ensures reader.Valid() && reader.Model() == Step(old(reader.Model()), reader.dict, call.ret, call.tid).0
    ensures given == GivenBy(Step(old(reader.Model()), reader.dict, call.ret, call.tid).1, call, tid)
  {
    var result := reader.Fetch(call.ret, call.tid);
    given := GivenBy(result, call, tid);
  }

  method ReplayCalls(reader: SinucaTraceReader, calls: seq<Call>, tid: nat) returns (given: seq<InstructionPacket>)
    requires reader.Valid() && CallsOk(calls, reader.totalThreads)
    modifies reader, reader.isThreadAwake
    ensures reader.Valid() && reader.Model() == Run(old(reader.Model()), reader.dict, calls)
    ensures given == Fetches(old(reader.Model()), reader.dict, calls, tid)
  {
    given := [];
    ghost var start, dict := reader.Model(), reader.dict;
    for n := 0 to |calls|
      invariant reader.Valid() && CallsOk(calls[n..], reader.totalThreads)
      invariant Run(reader.Model(), dict, calls[n..]) == Run(start, dict, calls)
      invariant given + Fetches(reader.Model(), dict, calls[n..], tid) == Fetches(start, dict, calls, tid)
    {
      FirstCall(reader.Model(), dict, calls[n..], tid);
      assert calls[n..][0] == calls[n] && calls[n..][1..] == calls[n + 1..];
      var more := OneCall(reader, calls[n], tid);
      JoinsOn(given, more, Fetches(reader.Model(), dict, calls[n + 1..], tid));
      given := given + more;
    }
  }

  lemma JoinsOn<T>(given: seq<T>, more: seq<T>, rest: seq<T>)
    ensures given + more + rest == given + (more + rest)
  {
  }

  // So a reader that opens the recorded traces gives each thread its recorded program.
  method OpenAndReplay(dict: Dictionary, dynFiles: seq<seq<DynamicRecord>>, memFiles: seq<seq<MemoryRecord>>,
      ghost groups: seq<seq<seq<MemoryOperation>>>, calls: seq<Call>, tid: nat)
      returns (given: seq<InstructionPacket>, wasRead: bool)
    requires dict.Valid() && |dynFiles| == |memFiles| == |groups| && tid < |dynFiles|
    requires forall i :: 0 <= i < |dynFiles| ==> KnownBlocks(dict, dynFiles[i])
    requires forall i :: 0 <= i < |groups| ==> GroupsFit(groups[i]) && memFiles[i] == EncodeAll(groups[i])
    requires CallsOk(calls, |dynFiles|)
    ensures exists infos ::
      && infos <= Blocks(dict, Ids(dynFiles[tid])) && (wasRead ==> infos == Blocks(dict, Ids(dynFiles[tid])))
      && Touching(infos) <= |groups[tid]| && given == Attached(infos, groups[tid])
  {
    var reader := new SinucaTraceReader.OpenTrace(dict, dynFiles, memFiles);
    given := ReplayCalls(reader, calls, tid);
    ReplayIsFaithful(dict, dynFiles, memFiles, groups, calls, tid);
    wasRead := reader.threadData[tid].dynFile.reachedEnd;
    ghost var infos := Delivered(dict, reader.Model().threads[tid]);
    assert infos <= Blocks(dict, Ids(dynFiles[tid]));
  }
}
