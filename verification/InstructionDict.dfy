// SinucaTraceReader::GenerateInstructionDict (src/tracer/sinuca/trace_reader.cpp:84-145):
// the dictionary of the instructions of all basic blocks, and what it is for.
module InstructionDicts {
  import opened Sequences
  import opened Wrappers
  import opened Packets
  import opened MemoryTraces
  import opened StaticTraces

  class InstructionDict {
    const basicBlockSizeArr: array<nat>
    const instructionDict: array<nat>
    const instructionPool: array<StaticInstructionInfo>

    ghost predicate PoolHolds(pool: seq<StaticInstructionInfo>)
      reads instructionPool
    {
      && |pool| <= instructionPool.Length
      && forall k :: 0 <= k < |pool| ==> instructionPool[k] == pool[k]
    }

    // The tables begin with the entries of the dictionary.
    ghost predicate Holds(dict: Dictionary)
      reads basicBlockSizeArr, instructionDict, instructionPool
    {
      && |dict.sizes| == |dict.offsets| <= basicBlockSizeArr.Length == instructionDict.Length
      && basicBlockSizeArr != instructionDict
      && (forall b :: 0 <= b < |dict.sizes| ==> basicBlockSizeArr[b] == dict.sizes[b])
      && (forall b :: 0 <= b < |dict.offsets| ==> instructionDict[b] == dict.offsets[b])
      && PoolHolds(dict.pool)
    }

    constructor (totalBasicBlocks: nat, totalStaticInst: nat)
      ensures basicBlockSizeArr.Length == totalBasicBlocks && instructionPool.Length == totalStaticInst
      ensures fresh(basicBlockSizeArr) && fresh(instructionDict) && fresh(instructionPool)
      ensures Holds(Dictionary([], [], []))
    {
      basicBlockSizeArr := new nat[totalBasicBlocks];
      instructionDict := new nat[totalBasicBlocks];
      instructionPool := new StaticInstructionInfo[totalStaticInst](_ => BLANK_INFO);
    }

    // The instructions of one block, behind what the pool holds.
    method ReadInstructions(staticTrace: StaticTraceReader, poolOffset: nat, bblSize: nat,
        ghost pool: seq<StaticInstructionInfo>)
      returns (failed: bool)
      requires PoolHolds(pool) && poolOffset == |pool| && poolOffset + bblSize <= instructionPool.Length
      modifies staticTrace, instructionPool
      ensures var taken := TakeInstructions(staticTrace.file, old(staticTrace.mmapOffset), bblSize, pool);
        failed == taken.None? && (!failed ==> PoolHolds(taken.value) && |taken.value| == poolOffset + bblSize)
      ensures !failed ==> staticTrace.mmapOffset == old(staticTrace.mmapOffset) + bblSize
    {
      ghost var start, now := staticTrace.mmapOffset, pool;
      var instCounter := 0;
      while instCounter < bblSize
        invariant instCounter <= bblSize && staticTrace.mmapOffset == start + instCounter
        invariant PoolHolds(now) && |now| == poolOffset + instCounter
        invariant TakeInstructions(staticTrace.file, start + instCounter, bblSize - instCounter, now)
          == TakeInstructions(staticTrace.file, start, bblSize, pool)
      {
        failed := staticTrace.ReadStaticRecordFromFile();
        if failed || !staticTrace.record.value.InstructionRecord? {
          return true;
        }
        instructionPool[poolOffset + instCounter] := staticTrace.TranslateRawInstructionToSinucaInst();
        now := now + [instructionPool[poolOffset + instCounter]];
        instCounter := instCounter + 1;
      }
      return false;
    }

    // One block: its size, its place in the pool, its instructions.
    method ReadBlock(staticTrace: StaticTraceReader, bblCounter: nat, poolOffset: nat, ghost dict: Dictionary)
      returns (failed: bool, bblSize: nat, ghost next: Dictionary)
      requires Holds(dict) && bblCounter == |dict.sizes| < basicBlockSizeArr.Length && poolOffset == |dict.pool|
      requires Fits(staticTrace.file, staticTrace.mmapOffset, 1, instructionPool.Length - poolOffset)
      modifies staticTrace, basicBlockSizeArr, instructionDict, instructionPool
      ensures var taken := TakeBlocks(staticTrace.file, old(staticTrace.mmapOffset), 1, dict);
        failed == taken.None? && (!failed ==> taken.value == next)
      ensures !failed ==> Holds(next) && |next.sizes| == bblCounter + 1 && |next.pool| == poolOffset + bblSize
      ensures !failed ==> staticTrace.mmapOffset == old(staticTrace.mmapOffset) + 1 + bblSize
      ensures !failed ==> old(staticTrace.mmapOffset) < |staticTrace.file|
      ensures !failed ==> staticTrace.file[old(staticTrace.mmapOffset)] == BasicBlockSize(bblSize)
    {
      bblSize, next := 0, dict;
      failed := staticTrace.ReadStaticRecordFromFile();
      if failed || !staticTrace.record.value.BasicBlockSize? {
        return true, 0, dict;
      }
      bblSize := staticTrace.record.value.basicBlockSize;
      basicBlockSizeArr[bblCounter] := bblSize;
      instructionDict[bblCounter] := poolOffset;
      ghost var taken := TakeInstructions(staticTrace.file, staticTrace.mmapOffset, bblSize, dict.pool);
      failed := ReadInstructions(staticTrace, poolOffset, bblSize, dict.pool);
      if !failed {
        next := Dictionary(dict.sizes + [bblSize], dict.offsets + [poolOffset], taken.value);
      }
    }

    method GenerateInstructionDict(staticTrace: StaticTraceReader) returns (failed: bool)
      requires Holds(Dictionary([], [], []))
      requires Fits(staticTrace.file, staticTrace.mmapOffset, basicBlockSizeArr.Length, instructionPool.Length)
      modifies staticTrace, basicBlockSizeArr, instructionDict, instructionPool
      ensures var dict := TakeBlocks(staticTrace.file, old(staticTrace.mmapOffset), basicBlockSizeArr.Length,
          Dictionary([], [], []));
        failed == dict.None? && (!failed ==> Holds(dict.value))
    {
      ghost var start := staticTrace.mmapOffset;
      ghost var dict, total := Dictionary([], [], []), basicBlockSizeArr.Length;
      var poolOffset, bblCounter := 0, 0;
      while bblCounter < basicBlockSizeArr.Length
        invariant bblCounter <= total && Holds(dict)
        invariant bblCounter == |dict.sizes| && poolOffset == |dict.pool|
        invariant Fits(staticTrace.file, staticTrace.mmapOffset, total - bblCounter,
                       instructionPool.Length - poolOffset)
        invariant TakeBlocks(staticTrace.file, staticTrace.mmapOffset, total - bblCounter, dict)
          == TakeBlocks(staticTrace.file, start, total, Dictionary([], [], []))
      {
        OneBlockFits(staticTrace.file, staticTrace.mmapOffset, total - bblCounter, instructionPool.Length - poolOffset);
        OneBlockThenTheOthers(staticTrace.file, staticTrace.mmapOffset, total - bblCounter, dict);
        var bblSize;
        failed, bblSize, dict := ReadBlock(staticTrace, bblCounter, poolOffset, dict);
        if failed {
          return;
        }
        poolOffset := poolOffset + bblSize;
        bblCounter := bblCounter + 1;
      }
      return false;
    }
  }

  lemma OneBlockFits(file: seq<StaticRecord>, position: nat, count: nat, room: nat)
    requires count > 0 && Fits(file, position, count, room)
    ensures Fits(file, position, 1, room)
  {
  }

  lemma OneBlockThenTheOthers(file: seq<StaticRecord>, position: nat, count: nat, dict: Dictionary)
    requires count > 0
    ensures var first := TakeBlocks(file, position, 1, dict);
      TakeBlocks(file, position, count, dict)
        == if first.None? then None
           else TakeBlocks(file, position + 1 + file[position].basicBlockSize, count - 1, first.value)
  {
    if position < |file| && file[position].BasicBlockSize? {
      var size := file[position].basicBlockSize;
      match TakeInstructions(file, position + 1, size, dict.pool)
      case None =>
      case Some(pool) =>
        var next := Dictionary(dict.sizes + [size], dict.offsets + [|dict.pool|], pool);
        assert TakeBlocks(file, position + 1 + size, 0, next) == Some(next);
    }
  }

  // ------ What the dictionary of a recorded program is

  function TranslateAll(block: seq<Instruction>): (infos: seq<StaticInstructionInfo>)
    ensures |infos| == |block|
  {
    if block == [] then [] else [Translate(block[0])] + TranslateAll(block[1..])
  }

  lemma {:induction false} TranslationAt(block: seq<Instruction>, i: nat)
    requires i < |block|
    ensures TranslateAll(block)[i] == Translate(block[i]) && Describes(TranslateAll(block)[i], block[i])
  {
    TranslationDescribes(block[i]);
    if i > 0 {
      TranslationAt(block[1..], i - 1);
    }
  }

  function Total(blocks: seq<seq<Instruction>>): nat {
    if blocks == [] then 0 else Total(blocks[..|blocks| - 1]) + |blocks[|blocks| - 1]|
  }

  // The dictionary that holds the blocks one behind the other.
  function DictionaryOf(blocks: seq<seq<Instruction>>): Dictionary {
    if blocks == [] then Dictionary([], [], [])
    else WithBlock(DictionaryOf(blocks[..|blocks| - 1]), blocks[|blocks| - 1])
  }

  function WithBlock(dict: Dictionary, block: seq<Instruction>): Dictionary {
    Dictionary(dict.sizes + [|block|], dict.offsets + [|dict.pool|], dict.pool + TranslateAll(block))
  }

  lemma {:induction false} DictionaryShape(blocks: seq<seq<Instruction>>)
    ensures DictionaryOf(blocks).Valid()
    ensures |DictionaryOf(blocks).sizes| == |blocks| && |DictionaryOf(blocks).pool| == Total(blocks)
    decreases |blocks|
  {
    if blocks != [] {
      DictionaryShape(blocks[..|blocks| - 1]);
    }
  }

  // Entry i of block b describes the i-th instruction of that block, and the
  // blocks tile the pool: each starts where those before it end.
  lemma {:induction false} DictionaryIsExact(blocks: seq<seq<Instruction>>, b: nat, i: nat)
    requires b < |blocks| && i < |blocks[b]|
    ensures var dict := DictionaryOf(blocks);
      dict.Valid() && |dict.sizes| == |blocks| && |dict.pool| == Total(blocks)
      && dict.sizes[b] == |blocks[b]|
      && dict.offsets[b] == Total(blocks[..b])
      && dict.At(b, i) == Translate(blocks[b][i]) && Describes(dict.At(b, i), blocks[b][i])
    decreases |blocks|
  {
    var last := |blocks| - 1;
    DictionaryShape(blocks);
    DictionaryShape(blocks[..last]);
    if b < last {
      DictionaryIsExact(blocks[..last], b, i);
      assert blocks[..last][..b] == blocks[..b];
    } else {
      TranslationAt(blocks[last], i);
    }
  }

  // ------ Files that do not load

  ghost predicate InstructionsAt(file: seq<StaticRecord>, position: nat, count: nat) {
    count == 0
    || (position + count <= |file| && forall k :: position <= k < position + count ==> file[k].InstructionRecord?)
  }

  // The instructions of a block are taken exactly when there are as many instruction records
  // as announced.
  lemma {:induction false} TakenIffThere(file: seq<StaticRecord>, position: nat, count: nat,
      pool: seq<StaticInstructionInfo>)
    ensures TakeInstructions(file, position, count, pool).Some? <==> InstructionsAt(file, position, count)
    decreases count
  {
    if count > 0 && position < |file| && file[position].InstructionRecord? {
      TakenIffThere(file, position + 1, count - 1, pool + [Translate(file[position].instruction)]);
    }
  }

  // So many blocks stand from a position on: a size record each, with as many instruction
  // records behind it.
  ghost predicate BlocksAt(file: seq<StaticRecord>, position: nat, count: nat)
    decreases count
  {
    count == 0
    || (position < |file| && file[position].BasicBlockSize?
      && InstructionsAt(file, position + 1, file[position].basicBlockSize)
      && BlocksAt(file, position + 1 + file[position].basicBlockSize, count - 1))
  }

  // Loading fails exactly when a record is missing or of the wrong kind.
  lemma {:induction false} LoadsIffThere(file: seq<StaticRecord>, position: nat, count: nat, dict: Dictionary)
    ensures TakeBlocks(file, position, count, dict).Some? <==> BlocksAt(file, position, count)
    decreases count
  {
    if count > 0 && position < |file| && file[position].BasicBlockSize? {
      var size := file[position].basicBlockSize;
      TakenIffThere(file, position + 1, size, dict.pool);
      match TakeInstructions(file, position + 1, size, dict.pool)
      case None =>
      case Some(pool) =>
        LoadsIffThere(file, position + 1 + size, count - 1,
          Dictionary(dict.sizes + [size], dict.offsets + [|dict.pool|], pool));
    }
  }

  // ------ The round trip

  lemma {:induction false} InstructionsComeBack(file: seq<StaticRecord>, position: nat, block: seq<Instruction>,
      pool: seq<StaticInstructionInfo>)
    requires position + |block| <= |file|
    requires forall k :: 0 <= k < |block| ==> file[position + k] == InstructionRecord(block[k])
    ensures TakeInstructions(file, position, |block|, pool) == Some(pool + TranslateAll(block))
    decreases |block|
  {
    if block == [] {
      assert pool + [] == pool;
    } else {
      assert file[position + 0] == InstructionRecord(block[0]);
      forall k | 0 <= k < |block| - 1
        ensures file[position + 1 + k] == InstructionRecord(block[1..][k])
      {
        assert file[position + (1 + k)] == InstructionRecord(block[1 + k]);
      }
      InstructionsComeBack(file, position + 1, block[1..], pool + [Translate(block[0])]);
      assert pool + TranslateAll(block) == pool + [Translate(block[0])] + TranslateAll(block[1..]);
    }
  }

  ghost predicate SizesFit(blocks: seq<seq<Instruction>>) {
    forall b :: 0 <= b < |blocks| ==> |blocks[b]| < 0x1_0000
  }

  // One block is read back as it was written exactly when its size fits the 16 bits of
  // the size record.
  lemma BlockComesBack(before: seq<StaticRecord>, block: seq<Instruction>, rest: seq<StaticRecord>, dict: Dictionary)
    ensures TakeBlocks(before + EncodeBlock(block) + rest, |before|, 1, dict) == Some(WithBlock(dict, block))
      <==> |block| < 0x1_0000
  {
    var file := before + EncodeBlock(block) + rest;
    assert file[|before|] == BasicBlockSize(Uint16(|block|));
    if |block| < 0x1_0000 {
      RecordsAt(block);
      forall k | 0 <= k < |block|
        ensures file[|before| + 1 + k] == InstructionRecord(block[k])
      {
        assert file[|before| + 1 + k] == EncodeBlock(block)[1 + k] == RecordsOf(block)[k];
      }
      InstructionsComeBack(file, |before| + 1, block, dict.pool);
    } else {
      match TakeInstructions(file, |before| + 1, Uint16(|block|), dict.pool)
      case None =>
      case Some(pool) =>
        assert (dict.sizes + [Uint16(|block|)])[|dict.sizes|] != |block|;
    }
  }

  lemma {:induction false} EncodingAppends(blocks: seq<seq<Instruction>>, block: seq<Instruction>)
    ensures EncodeBlocks(blocks + [block]) == EncodeBlocks(blocks) + EncodeBlock(block)
    decreases |blocks|
  {
    if blocks == [] {
      assert EncodeBlocks([]) == [];
      assert EncodeBlocks([block]) == EncodeBlock(block) + [];
    } else {
      assert (blocks + [block])[1..] == blocks[1..] + [block];
      EncodingAppends(blocks[1..], block);
    }
  }

  // One block consumed, the others ahead.
  lemma BlockConsumed(before: seq<StaticRecord>, block: seq<Instruction>, rest: seq<StaticRecord>,
      count: nat, dict: Dictionary)
    requires |block| < 0x1_0000 && count > 0
    ensures var file := before + EncodeBlock(block) + rest;
      TakeBlocks(file, |before|, count, dict)
        == TakeBlocks(file, |before + EncodeBlock(block)|, count - 1, WithBlock(dict, block))
  {
    var file := before + EncodeBlock(block) + rest;
    assert file[|before|] == BasicBlockSize(|block|);
    BlockComesBack(before, block, rest, dict);
    OneBlockThenTheOthers(file, |before|, count, dict);
  }

  lemma SplitBehind(before: seq<StaticRecord>, blocks: seq<seq<Instruction>>)
    requires blocks != []
    ensures before + EncodeBlocks(blocks) == before + EncodeBlock(blocks[0]) + EncodeBlocks(blocks[1..])
  {
    Associate(before, EncodeBlock(blocks[0]), EncodeBlocks(blocks[1..]));
  }

  function WithBlocks(dict: Dictionary, blocks: seq<seq<Instruction>>): Dictionary
    decreases |blocks|
  {
    if blocks == [] then dict else WithBlocks(WithBlock(dict, blocks[0]), blocks[1..])
  }

  lemma {:induction false} OneAfterTheOther(done: seq<seq<Instruction>>, left: seq<seq<Instruction>>)
    ensures WithBlocks(DictionaryOf(done), left) == DictionaryOf(done + left)
    decreases |left|
  {
    if left == [] {
      assert done + left == done;
    } else {
      assert (done + [left[0]])[..|done|] == done;
      OneAfterTheOther(done + [left[0]], left[1..]);
      assert done + [left[0]] + left[1..] == done + left;
    }
  }

  // Asking for more blocks than there are fails.
  lemma {:induction false} BlocksComeBack(before: seq<StaticRecord>, left: seq<seq<Instruction>>,
      count: nat, dict: Dictionary)
    requires SizesFit(left)
    ensures TakeBlocks(before + EncodeBlocks(left), |before|, count, dict)
      == if count <= |left| then Some(WithBlocks(dict, left[..count])) else None
    decreases count
  {
    if count > 0 && left != [] {
      var read, rest := before + EncodeBlock(left[0]), left[1..];
      FirstBlockConsumed(before, left, count, dict);
      BlocksComeBack(read, rest, count - 1, WithBlock(dict, left[0]));
      if count <= |left| {
        assert left[..count][1..] == rest[..count - 1];
      }
    } else if count > 0 {
      assert before + EncodeBlocks(left) == before;
    }
  }

  lemma FirstBlockConsumed(before: seq<StaticRecord>, left: seq<seq<Instruction>>, count: nat, dict: Dictionary)
    requires left != [] && |left[0]| < 0x1_0000 && count > 0
    ensures TakeBlocks(before + EncodeBlocks(left), |before|, count, dict)
      == TakeBlocks(before + EncodeBlock(left[0]) + EncodeBlocks(left[1..]), |before + EncodeBlock(left[0])|,
                    count - 1, WithBlock(dict, left[0]))
  {
    SplitBehind(before, left);
    BlockConsumed(before, left[0], EncodeBlocks(left[1..]), count, dict);
  }

  // The file of a program gives its dictionary exactly when the header announces no more
  // blocks than there are; with all of them announced, it is that of the whole program.
  lemma ProgramComesBack(blocks: seq<seq<Instruction>>, count: nat)
    requires SizesFit(blocks)
    ensures TakeBlocks(EncodeBlocks(blocks), 0, count, Dictionary([], [], []))
      == if count <= |blocks| then Some(DictionaryOf(blocks[..count])) else None
  {
    assert [] + EncodeBlocks(blocks) == EncodeBlocks(blocks);
    BlocksComeBack([], blocks, count, Dictionary([], [], []));
    if count <= |blocks| {
      OneAfterTheOther([], blocks[..count]);
      assert [] + blocks[..count] == blocks[..count];
    }
  }

  lemma FitsConsumed(before: seq<StaticRecord>, block: seq<Instruction>, rest: seq<StaticRecord>,
      count: nat, room: nat)
    requires |block| < 0x1_0000 && count > 0
    ensures var file := before + EncodeBlock(block) + rest;
      Fits(file, |before|, count, room)
      <==> |block| <= room && Fits(file, |before + EncodeBlock(block)|, count - 1, room - |block|)
  {
    var file := before + EncodeBlock(block) + rest;
    assert file[|before|] == BasicBlockSize(|block|);
  }

  // ... and the pool is large enough exactly when the header announces no fewer
  // instructions than there are.
  lemma {:induction false} FitsIffAnnounced(before: seq<StaticRecord>, blocks: seq<seq<Instruction>>, room: nat)
    requires SizesFit(blocks)
    ensures Fits(before + EncodeBlocks(blocks), |before|, |blocks|, room) <==> Total(blocks) <= room
    decreases |blocks|
  {
    if blocks != [] {
      var block, others := blocks[0], blocks[1..];
      SplitBehind(before, blocks);
      FitsConsumed(before, block, EncodeBlocks(others), |blocks|, room);
      TotalFromTheFront(blocks);
      if |block| <= room {
        FitsIffAnnounced(before + EncodeBlock(block), others, room - |block|);
      }
    }
  }

  lemma {:induction false} TotalFromTheFront(blocks: seq<seq<Instruction>>)
    requires blocks != []
    ensures Total(blocks) == |blocks[0]| + Total(blocks[1..])
    decreases |blocks|
  {
    var last := |blocks| - 1;
    if last > 0 {
      TotalFromTheFront(blocks[..last]);
      assert blocks[..last][1..] == blocks[1..][..last - 1];
    } else {
      assert blocks[..0] == [];
    }
  }

  // Records a block, with its size announced behind the first `cut` instructions.
  method RecordBlock(writer: StaticTraceWriter, block: seq<Instruction>, cut: nat)
    requires writer.Valid() && cut <= |block| && 0 < |block| < 0x1_0000
    requires writer.currentBasicBlockSize == -1 && writer.instructions == []
    modifies writer, writer.basicBlock
    ensures writer.Valid() && (writer.basicBlock == old(writer.basicBlock) || fresh(writer.basicBlock))
    ensures writer.Model() == Writing(old(writer.file) + EncodeBlock(block), -1, [])
  {
    ghost var start := writer.Model();
    AddInstructions(writer, block[..cut]);
    StartsEmpty(start.file, block[..cut]);
    SizeMayComeAnywhere(start.file, block[..cut], block[cut..], block);
    var refused := writer.AddBasicBlockSize(|block|);
    AddInstructions(writer, block[cut..]);
  }

  method AddInstructions(writer: StaticTraceWriter, more: seq<Instruction>)
    requires writer.Valid()
    modifies writer, writer.basicBlock
    ensures writer.Valid() && (writer.basicBlock == old(writer.basicBlock) || fresh(writer.basicBlock))
    ensures writer.Model() == old(writer.Model()).WithInstructions(more)
  {
    assert more[0..] == more;
    for i := 0 to |more|
      invariant writer.Valid() && (writer.basicBlock == old(writer.basicBlock) || fresh(writer.basicBlock))
      invariant writer.Model().WithInstructions(more[i..]) == old(writer.Model()).WithInstructions(more)
    {
      assert more[i..][0] == more[i] && more[i..][1..] == more[i + 1..];
      writer.AddInstruction(more[i]);
    }
  }

  // A program recorded and loaded again, wherever the sizes were announced.
  method RecordAndLoad(blocks: seq<seq<Instruction>>, cuts: seq<nat>) returns (tables: InstructionDict, failed: bool)
    requires |cuts| == |blocks|
    requires forall b :: 0 <= b < |blocks| ==> 0 < |blocks[b]| < 0x1_0000 && cuts[b] <= |blocks[b]|
    ensures !failed && tables.Holds(DictionaryOf(blocks))
    ensures tables.instructionPool.Length == Total(blocks)
  {
    var writer := new StaticTraceWriter();
    var instCount := 0;
    for b := 0 to |blocks|
      invariant writer.Valid() && fresh(writer) && fresh(writer.basicBlock)
      invariant writer.Model() == Writing(EncodeBlocks(blocks[..b]), -1, [])
      invariant instCount == Total(blocks[..b])
    {
      assert blocks[..b + 1] == blocks[..b] + [blocks[b]];
      assert blocks[..b + 1][..b] == blocks[..b];
      EncodingAppends(blocks[..b], blocks[b]);
      RecordBlock(writer, blocks[b], cuts[b]);
      instCount := instCount + |blocks[b]|;
    }
    assert blocks[..|blocks|] == blocks;
    tables := new InstructionDict(|blocks|, instCount);
    var reader := new StaticTraceReader.OpenFile(writer.file);
    ProgramComesBack(blocks, |blocks|);
    FitsIffAnnounced([], blocks, instCount);
    assert [] + EncodeBlocks(blocks) == EncodeBlocks(blocks);
    failed := tables.GenerateInstructionDict(reader);
  }
}
