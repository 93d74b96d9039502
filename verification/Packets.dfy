// The messages of the simulator (src/engine/default_packets.hpp). What a packet points
// to is part of its value.
module Packets {
  datatype Branch =
    | BranchNone | BranchSyscall | BranchCall | BranchSysret | BranchRet | BranchUncond | BranchCond

  datatype StaticInstructionInfo = StaticInstructionInfo(
    instMnemonic: string,
    instAddress: nat,
    instSize: nat,
    branchType: Branch,
    readRegs: seq<nat>,
    writtenRegs: seq<nat>,
    isPrefetchHintInst: bool,
    isPredicatedInst: bool,
    isIndirectControlFlowInst: bool,
    instCausesCacheLineFlush: bool,
    instPerformsAtomicUpdate: bool,
    instReadsMemory: bool,
    instWritesMemory: bool)

  // What the constructor of StaticInstructionInfo leaves in it.
  const BLANK_INFO := StaticInstructionInfo(
    "N/A", 0, 0, BranchNone, [], [], false, false, false, false, false, false, false)

  // The slots for accesses of either kind in a packet.
  const MAX_MEM_OPERATIONS: nat := 16

  datatype MemoryAccess = MemoryAccess(address: nat, size: nat)

  datatype InstructionPacket = InstructionPacket(
    staticInfo: StaticInstructionInfo,
    loads: seq<MemoryAccess>,
    stores: seq<MemoryAccess>,
    nextInstruction: nat)
  {
    function Size(): nat {
      staticInfo.instSize
    }
  }

  const BLANK_PACKET := InstructionPacket(BLANK_INFO, [], [], 0)

  // Exchanged between the engine and the components that fetch from it.
  datatype FetchPacket = Request(bytes: int) | Response(instruction: InstructionPacket)

  // What one call of TraceReader::Fetch does: its result, and what it leaves in the
  // packet it was given. End and Nop leave that alone; an error may have begun to fill it.
  // Overrun is no result of the program: it has left the bounds of an array.
  datatype Fetched =
    | Ok(packet: InstructionPacket) | End | Nop | Error(partial: InstructionPacket) | Overrun
}
