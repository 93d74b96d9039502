// The trace of the basic blocks of a program: its writer
// (x86_trace_generator/utils/static_trace_writer.cpp), its reader
// (src/tracer/sinuca/utils/static_trace_reader.cpp) and the dictionary of instructions
// made from it (src/tracer/sinuca/trace_reader.cpp).
module StaticTraces {
  import opened Wrappers
  import opened Packets
  import opened MemoryTraces

  // What the trace generator knows of an instruction. The registers are the occupied
  // part of the two register arrays.
  datatype Instruction = Instruction(
    instructionAddress: nat,
    instructionSize: nat,
    readRegs: seq<nat>,
    writtenRegs: seq<nat>,
    instHasFallthrough: bool,
    isBranchInstruction: bool,
    isSyscallInstruction: bool,
    isCallInstruction: bool,
    isRetInstruction: bool,
    isSysretInstruction: bool,
    isPrefetchHintInst: bool,
    isPredicatedInst: bool,
    isIndirectCtrlFlowInst: bool,
    instCausesCacheLineFlush: bool,
    instPerformsAtomicUpdate: bool,
    instReadsMemory: bool,
    instWritesMemory: bool,
    instructionMnemonic: string)

  datatype StaticRecord =
    | BasicBlockSize(basicBlockSize: nat)
    | InstructionRecord(instruction: Instruction)
    | UnknownStatic(recordType: nat)

  function RecordsOf(instructions: seq<Instruction>): (records: seq<StaticRecord>)
    ensures |records| == |instructions|
  {
    if instructions == [] then [] else [InstructionRecord(instructions[0])] + RecordsOf(instructions[1..])
  }

  // The size record holds the low 16 bits of the size.
  function EncodeBlock(block: seq<Instruction>): seq<StaticRecord> {
    [BasicBlockSize(Uint16(|block|))] + RecordsOf(block)
  }

  function EncodeBlocks(blocks: seq<seq<Instruction>>): seq<StaticRecord> {
    if blocks == [] then [] else EncodeBlock(blocks[0]) + EncodeBlocks(blocks[1..])
  }

  // ------ Writing

  // What is in the file, the size announced for the current block (-1: none yet) and the
  // instructions added to it.
  datatype Writing = Writing(file: seq<StaticRecord>, size: int, instructions: seq<Instruction>) {
    function FlushWhenComplete(): Writing {
      if size == |instructions| then Writing(file + EncodeBlock(instructions), -1, []) else this
    }

    function WithSize(basicBlockSize: nat): (Writing, bool) {
      if size != -1 || basicBlockSize == 0 then (this, true)
      else (this.(size := Int32(basicBlockSize)).FlushWhenComplete(), false)
    }

    function WithInstruction(instruction: Instruction): Writing {
      this.(instructions := instructions + [instruction]).FlushWhenComplete()
    }

    function WithInstructions(more: seq<Instruction>): Writing
      decreases |more|
    {
      if more == [] then this else WithInstruction(more[0]).WithInstructions(more[1..])
    }
  }

  class StaticTraceWriter {
    var file: seq<StaticRecord>
    var basicBlock: array<StaticRecord>
    var basicBlockOccupation: nat
    var currentBasicBlockSize: int
    ghost var instructions: seq<Instruction>

    // The instructions of the block stand behind the slot of its size.
    ghost predicate Stored()
      reads this, basicBlock
    {
      && basicBlockOccupation == |instructions| + 1
      && basicBlockOccupation <= basicBlock.Length
      && (currentBasicBlockSize >= 0 ==> basicBlock[0] == BasicBlockSize(Uint16(currentBasicBlockSize)))
      && forall k :: 1 <= k <= |instructions| ==> basicBlock[k] == InstructionRecord(instructions[k - 1])
    }

    ghost predicate Valid()
      reads this, basicBlock
    {
      Stored() && basicBlock.Length >= 2 && currentBasicBlockSize != |instructions|
    }

    ghost function Model(): Writing
      reads this
    {
      Writing(file, currentBasicBlockSize, instructions)
    }

    constructor ()
      ensures Valid() && fresh(basicBlock)
      ensures Model() == Writing([], -1, [])
    {
      file := [];
      basicBlock := new StaticRecord[128];
      basicBlockOccupation := 1;
      currentBasicBlockSize := -1;
      instructions := [];
    }

    method ReallocBasicBlock()
      requires Stored() && basicBlock.Length >= 1
      modifies this`basicBlock
      ensures fresh(basicBlock) && basicBlock.Length == 2 * old(basicBlock.Length)
      ensures Stored()
    {
      var larger := new StaticRecord[2 * basicBlock.Length];
      forall k | 0 <= k < basicBlock.Length {
        larger[k] := basicBlock[k];
      }
      basicBlock := larger;
    }

    method FlushBasicBlock()
      requires Stored() && currentBasicBlockSize == |instructions|
      modifies this`file
      ensures file == old(file) + EncodeBlock(instructions)
    {
      RecordsAt(instructions);
      ghost var block := EncodeBlock(instructions);
      assert basicBlock[..basicBlockOccupation] == block by {
        forall k | 0 <= k < |block|
          ensures basicBlock[k] == block[k]
        {
          if k > 0 {
            assert block[k] == RecordsOf(instructions)[k - 1];
          }
        }
      }
      file := file + basicBlock[..basicBlockOccupation];
    }

    method ResetBasicBlock()
      modifies this
      ensures basicBlockOccupation == 1 && currentBasicBlockSize == -1 && instructions == []
      ensures file == old(file) && basicBlock == old(basicBlock)
    {
      basicBlockOccupation := 1;
      currentBasicBlockSize := -1;
      instructions := [];
    }

    // The end of AddStaticRecord, which flushes the block if it is complete.
    method CheckBasicBlock()
      requires Stored() && basicBlock.Length >= 2
      modifies this
      ensures Valid() && basicBlock == old(basicBlock)
      ensures Model() == old(Model()).FlushWhenComplete()
    {
      if currentBasicBlockSize == basicBlockOccupation - 1 {
        FlushBasicBlock();
        ResetBasicBlock();
      }
    }

    method AddBasicBlockSize(basicBlockSize: nat) returns (failed: bool)
      requires Valid()
      modifies this, basicBlock
      ensures Valid() && (basicBlock == old(basicBlock) || fresh(basicBlock))
      ensures (Model(), failed) == old(Model()).WithSize(basicBlockSize)
    {
      if currentBasicBlockSize != -1 || basicBlockSize == 0 {
        return true;
      }
      if basicBlockOccupation >= basicBlock.Length {
        ReallocBasicBlock();
      }
      currentBasicBlockSize := Int32(basicBlockSize);
      basicBlock[0] := BasicBlockSize(Uint16(basicBlockSize));
      LowBits(basicBlockSize);
      CheckBasicBlock();
      return false;
    }

    method AddInstruction(instruction: Instruction)
      requires Valid()
      modifies this, basicBlock
      ensures Valid() && (basicBlock == old(basicBlock) || fresh(basicBlock))
      ensures Model() == old(Model()).WithInstruction(instruction)
    {
      if basicBlockOccupation >= basicBlock.Length {
        ReallocBasicBlock();
      }
      basicBlock[basicBlockOccupation] := InstructionRecord(instruction);
      basicBlockOccupation := basicBlockOccupation + 1;
      instructions := instructions + [instruction];
      CheckBasicBlock();
    }
  }

  lemma LowBits(n: nat)
    ensures Int32(n) >= 0 ==> Uint16(Int32(n)) == Uint16(n)
  {
    assert n % 0x1_0000_0000 % 0x1_0000 == n % 0x1_0000 by {
      var high := n / 0x1_0000_0000;
      assert n == high * 0x1_0000 * 0x1_0000 + n % 0x1_0000_0000;
    }
  }

  lemma {:induction false} RecordsAt(instructions: seq<Instruction>)
    ensures forall k :: 0 <= k < |instructions| ==> RecordsOf(instructions)[k] == InstructionRecord(instructions[k])
  {
    if instructions != [] {
      RecordsAt(instructions[1..]);
    }
  }

  // As long as the block stays incomplete, instructions pile up.
  lemma {:induction false} PilesUp(w: Writing, more: seq<Instruction>)
    requires w.size < |w.instructions| || w.size > |w.instructions| + |more|
    ensures w.WithInstructions(more) == w.(instructions := w.instructions + more)
    decreases |more|
  {
    if more == [] {
      assert w.instructions + more == w.instructions;
    } else {
      var next := w.(instructions := w.instructions + [more[0]]);
      PilesUp(next, more[1..]);
      assert w.instructions + more == next.instructions + more[1..];
    }
  }

  lemma {:induction false} Appended(w: Writing, a: seq<Instruction>, b: seq<Instruction>)
    ensures w.WithInstructions(a + b) == w.WithInstructions(a).WithInstructions(b)
    decreases |a|
  {
    if a == [] {
      assert a + b == b;
    } else {
      assert (a + b)[1..] == a[1..] + b;
      Appended(w.WithInstruction(a[0]), a[1..], b);
    }
  }

  lemma {:induction false} StartsEmpty(file: seq<StaticRecord>, before: seq<Instruction>)
    ensures Writing(file, -1, []).WithInstructions(before) == Writing(file, -1, before)
  {
    PilesUp(Writing(file, -1, []), before);
    assert [] + before == before;
  }

  // With the size known, the last instruction completes the block.
  lemma Completes(file: seq<StaticRecord>, before: seq<Instruction>, after: seq<Instruction>, whole: seq<Instruction>)
    requires whole == before + after
    ensures Writing(file, |whole|, before).FlushWhenComplete().WithInstructions(after)
      == Writing(file + EncodeBlock(whole), -1, [])
  {
    if after == [] {
      assert before == whole;
    } else {
      var sized := Writing(file, |whole|, before);
      var last := |after| - 1;
      PilesUp(sized, after[..last]);
      assert after == after[..last] + [after[last]];
      Appended(sized, after[..last], [after[last]]);
      assert before + after[..last] + [after[last]] == whole;
    }
  }

  // The size may be announced anywhere among the instructions of a block: the block is
  // written when both are complete, and the writer is ready for the next one.
  lemma SizeMayComeAnywhere(file: seq<StaticRecord>, before: seq<Instruction>, after: seq<Instruction>,
      whole: seq<Instruction>)
    requires whole == before + after && 0 < |whole| < 0x8000_0000
    ensures var (sized, failed) := Writing(file, -1, []).WithInstructions(before).WithSize(|whole|);
      !failed && sized.WithInstructions(after) == Writing(file + EncodeBlock(whole), -1, [])
  {
    StartsEmpty(file, before);
    assert Int32(|whole|) == |whole|;
    Completes(file, before, after, whole);
  }

  // While a block is under way a second size is refused, and so is a size of 0; neither
  // changes anything.
  lemma SecondSizeIsRefused(w: Writing, first: nat, second: nat)
    requires w.size == -1
    ensures var (open, failed) := w.WithSize(first);
      && (failed <==> first == 0) && (failed ==> open == w)
      && (!failed && open.size != -1 ==> open.WithSize(second) == (open, true))
      && w.WithSize(0) == (w, true)
  {
  }

  // The size that is in force after a call that is accepted.
  lemma InForce(w: Writing, size: int, after: seq<Instruction>)
    ensures var last := w.(size := size).FlushWhenComplete().WithInstructions(after);
      var all := w.instructions + after;
      if |w.instructions| <= size <= |all| then last == Writing(w.file + EncodeBlock(all[..size]), -1, all[size..])
      else last == Writing(w.file, size, all)
  {
    var all := w.instructions + after;
    if |w.instructions| <= size <= |all| {
      var rest := size - |w.instructions|;
      assert all[..size] == w.instructions + after[..rest] && all[size..] == [] + after[rest..];
      Completes(w.file, w.instructions, after[..rest], all[..size]);
      assert after == after[..rest] + after[rest..];
      Appended(w.(size := size).FlushWhenComplete(), after[..rest], after[rest..]);
      PilesUp(Writing(w.file + EncodeBlock(all[..size]), -1, []), after[rest..]);
    } else {
      PilesUp(w.(size := size), after);
    }
  }

  // Whatever size is announced, with whatever instructions added before and behind: a
  // block reaches the file exactly when the call is accepted and the size is neither less
  // than the number of instructions before it nor more than that of all. It is the block
  // of the first so many, and the others begin the next one. A size that comes too
  // late, or is 0, does not write a block.
  lemma WrittenIffInRange(w: Writing, basicBlockSize: nat, after: seq<Instruction>)
    requires w.size == -1
    ensures var (announced, failed) := w.WithSize(basicBlockSize);
      var size, all, last := Int32(basicBlockSize), w.instructions + after, announced.WithInstructions(after);
      && (failed <==> basicBlockSize == 0)
      && (last.file != w.file <==> !failed && |w.instructions| <= size <= |all|)
      && (last.file != w.file ==> last == Writing(w.file + EncodeBlock(all[..size]), -1, all[size..]))
      && (last.file == w.file ==> last.instructions == all)
  {
    if basicBlockSize == 0 {
      PilesUp(w, after);
    } else {
      InForce(w, Int32(basicBlockSize), after);
    }
  }

  // ------ Reading

  function BranchOf(raw: Instruction): Branch {
    if raw.isCallInstruction then BranchCall
    else if raw.isSyscallInstruction then BranchSyscall
    else if raw.isRetInstruction then BranchRet
    else if raw.isSysretInstruction then BranchSysret
    else if raw.isBranchInstruction && raw.instHasFallthrough then BranchCond
    else if raw.isBranchInstruction then BranchUncond
    else BranchNone
  }

  // The translation of an instruction into a blank entry of the pool. The prefetch hint
  // is not copied.
  function Translate(raw: Instruction): StaticInstructionInfo {
    BLANK_INFO.(
      instMnemonic := raw.instructionMnemonic,
      instSize := raw.instructionSize,
      instAddress := raw.instructionAddress,
      instPerformsAtomicUpdate := raw.instPerformsAtomicUpdate,
      instCausesCacheLineFlush := raw.instCausesCacheLineFlush,
      isPredicatedInst := raw.isPredicatedInst,
      instReadsMemory := raw.instReadsMemory,
      instWritesMemory := raw.instWritesMemory,
      isIndirectControlFlowInst := raw.isIndirectCtrlFlowInst,
      readRegs := raw.readRegs,
      writtenRegs := raw.writtenRegs,
      branchType := BranchOf(raw))
  }

  // The entry has all that was recorded of the instruction but its prefetch hint.
  ghost predicate Describes(info: StaticInstructionInfo, raw: Instruction) {
    && info.instMnemonic == raw.instructionMnemonic
    && info.instAddress == raw.instructionAddress && info.instSize == raw.instructionSize
    && info.readRegs == raw.readRegs && info.writtenRegs == raw.writtenRegs
    && info.isPredicatedInst == raw.isPredicatedInst
    && info.isIndirectControlFlowInst == raw.isIndirectCtrlFlowInst
    && info.instCausesCacheLineFlush == raw.instCausesCacheLineFlush
    && info.instPerformsAtomicUpdate == raw.instPerformsAtomicUpdate
    && info.instReadsMemory == raw.instReadsMemory && info.instWritesMemory == raw.instWritesMemory
    && !info.isPrefetchHintInst
    && RanksAs(info.branchType, raw)
  }

  // Calls come before system calls, these before returns, these before system returns, and
  // these before other branches, which are conditional when execution can fall through.
  ghost predicate RanksAs(branch: Branch, raw: Instruction) {
    var special := raw.isCallInstruction || raw.isSyscallInstruction || raw.isRetInstruction || raw.isSysretInstruction;
    && (branch == BranchCall <==> raw.isCallInstruction)
    && (branch == BranchSyscall <==> raw.isSyscallInstruction && !raw.isCallInstruction)
    && (branch == BranchRet <==>
      raw.isRetInstruction && !raw.isCallInstruction && !raw.isSyscallInstruction)
    && (branch == BranchSysret <==>
      raw.isSysretInstruction && !raw.isCallInstruction && !raw.isSyscallInstruction && !raw.isRetInstruction)
    && (branch == BranchCond <==> raw.isBranchInstruction && raw.instHasFallthrough && !special)
    && (branch == BranchUncond <==> raw.isBranchInstruction && !raw.instHasFallthrough && !special)
    && (branch == BranchNone <==> !raw.isBranchInstruction && !special)
  }

  lemma TranslationDescribes(raw: Instruction)
    ensures Describes(Translate(raw), raw)
  {
  }

  class StaticTraceReader {
    const file: seq<StaticRecord>
    var mmapOffset: nat
    var record: Option<StaticRecord>

    constructor OpenFile(file: seq<StaticRecord>)
      ensures this.file == file && mmapOffset == 0
    {
      this.file := file;
      mmapOffset := 0;
      record := None;
    }

    method ReadData() returns (data: Option<StaticRecord>)
      modifies this`mmapOffset
      ensures data == if old(mmapOffset) < |file| then Some(file[old(mmapOffset)]) else None
      ensures mmapOffset == old(mmapOffset) + if data.Some? then 1 else 0
    {
      if mmapOffset >= |file| {
        return None;
      }
      data := Some(file[mmapOffset]);
      mmapOffset := mmapOffset + 1;
    }

    method ReadStaticRecordFromFile() returns (failed: bool)
      modifies this
      ensures failed <==> old(mmapOffset) >= |file|
      ensures failed ==> mmapOffset == old(mmapOffset) && record == old(record)
      ensures !failed ==> mmapOffset == old(mmapOffset) + 1 && record == Some(file[old(mmapOffset)])
    {
      var data := ReadData();
      if data.None? {
        return true;
      }
      record := data;
      return false;
    }

    method TranslateRawInstructionToSinucaInst() returns (instInfo: StaticInstructionInfo)
      requires record.Some? && record.value.InstructionRecord?
      modifies this`record
      ensures instInfo == Translate(old(record).value.instruction)
      ensures Describes(instInfo, old(record).value.instruction)
    {
      var rawInst := record.value.instruction;
      instInfo := BLANK_INFO;
      instInfo := instInfo.(instMnemonic := rawInst.instructionMnemonic);
      instInfo := instInfo.(instSize := rawInst.instructionSize, instAddress := rawInst.instructionAddress);
      instInfo := instInfo.(
        instPerformsAtomicUpdate := rawInst.instPerformsAtomicUpdate,
        instCausesCacheLineFlush := rawInst.instCausesCacheLineFlush,
        isPredicatedInst := rawInst.isPredicatedInst,
        instReadsMemory := rawInst.instReadsMemory,
        instWritesMemory := rawInst.instWritesMemory,
        isIndirectControlFlowInst := rawInst.isIndirectCtrlFlowInst);
      instInfo := instInfo.(readRegs := rawInst.readRegs, writtenRegs := rawInst.writtenRegs);
      var branch := RankBranch(rawInst);
      instInfo := instInfo.(branchType := branch);
      record := None;
    }

    method RankBranch(rawInst: Instruction) returns (branch: Branch)
      ensures branch == BranchOf(rawInst) && RanksAs(branch, rawInst)
    {
      branch := BranchNone;
      if rawInst.isCallInstruction {
        branch := BranchCall;
      } else if rawInst.isSyscallInstruction {
        branch := BranchSyscall;
      } else if rawInst.isRetInstruction {
        branch := BranchRet;
      } else if rawInst.isSysretInstruction {
        branch := BranchSysret;
      } else if rawInst.isBranchInstruction {
        if rawInst.instHasFallthrough {
          branch := BranchCond;
        } else {
          branch := BranchUncond;
        }
      }
    }
  }

  // ------ The dictionary

  // The sizes of the blocks, where each starts in the pool, and the used part of the pool.
  datatype Dictionary = Dictionary(sizes: seq<nat>, offsets: seq<nat>, pool: seq<StaticInstructionInfo>) {
    ghost predicate Valid() {
      && |sizes| == |offsets|
      && forall b :: 0 <= b < |sizes| ==> offsets[b] + sizes[b] <= |pool|
    }

    // instructionDict[block][inst]
    function At(block: nat, inst: nat): StaticInstructionInfo
      requires Valid() && block < |sizes| && inst < sizes[block]
    {
      pool[offsets[block] + inst]
    }
  }

  // Translates `count` instructions into the pool.
  function TakeInstructions(file: seq<StaticRecord>, position: nat, count: nat, pool: seq<StaticInstructionInfo>)
      : Option<seq<StaticInstructionInfo>>
    decreases count
  {
    if count == 0 then Some(pool)
    else if position >= |file| || !file[position].InstructionRecord? then None
    else TakeInstructions(file, position + 1, count - 1, pool + [Translate(file[position].instruction)])
  }

  function TakeBlocks(file: seq<StaticRecord>, position: nat, count: nat, dict: Dictionary): Option<Dictionary>
    decreases count
  {
    if count == 0 then Some(dict)
    else if position >= |file| || !file[position].BasicBlockSize? then None
    else
      var size := file[position].basicBlockSize;
      match TakeInstructions(file, position + 1, size, dict.pool)
      case None => None
      case Some(pool) =>
        TakeBlocks(file, position + 1 + size, count - 1,
          Dictionary(dict.sizes + [size], dict.offsets + [|dict.pool|], pool))
  }

  // The pool has room for what the first `count` blocks announce.
  ghost predicate Fits(file: seq<StaticRecord>, position: nat, count: nat, room: nat)
    decreases count
  {
    if count == 0 || position >= |file| || !file[position].BasicBlockSize? then true
    else
      var size := file[position].basicBlockSize;
      size <= room && Fits(file, position + 1 + size, count - 1, room - size)
  }
}
