// The first stage of the pipeline, without a predictor: it asks the engine for bytes,
// buffers what arrives and passes it to the instruction memory
// (src/std_components/fetch/fetcher.cpp).
module Fetchers {
  import opened Linkables
  import opened Packets

  datatype FetchBufferEntry = FetchBufferEntry(instruction: InstructionPacket, sentToMemory: bool)

  // ------ The steps of a clock on values

  function Bytes(entries: seq<FetchBufferEntry>): nat {
    if entries == [] then 0 else Bytes(entries[..|entries| - 1]) + entries[|entries| - 1].instruction.Size()
  }

  // How many entries at the front were sent already.
  function SentPrefix(entries: seq<FetchBufferEntry>, i: nat): (n: nat)
    requires i <= |entries|
    ensures i <= n <= |entries|
    decreases |entries| - i
  {
    if i < |entries| && entries[i].sentToMemory then SentPrefix(entries, i + 1) else i
  }

  // Sending entry after entry until the connection is full.
  function SendFrom(entries: seq<FetchBufferEntry>, memory: Link<InstructionPacket>, i: nat)
    : (result: (seq<FetchBufferEntry>, Link<InstructionPacket>))
    requires i <= |entries|
    ensures |result.0| == |entries|
    decreases |entries| - i
  {
    if i == |entries| || memory.request.IsFull() then (entries, memory)
    else SendFrom(entries[i := entries[i].(sentToMemory := true)],
                  memory.SendRequest(entries[i].instruction), i + 1)
  }

  function Fresh(message: FetchPacket): FetchBufferEntry {
    FetchBufferEntry(if message.Response? then message.instruction else BLANK_PACKET, false)
  }

  function Arrived(messages: seq<FetchPacket>): (entries: seq<FetchBufferEntry>)
    ensures |entries| == |messages|
  {
    if messages == [] then [] else [Fresh(messages[0])] + Arrived(messages[1..])
  }

  // ------ The component

  class Fetcher {
    const fetch: Linkable<FetchPacket>
    const instructionMemory: Linkable<InstructionPacket>
    const fetchID: nat
    const instructionMemoryID: nat
    const fetchSize: nat
    const fetchInterval: nat
    const fetchBuffer: array<FetchBufferEntry>
    var fetchBufferUsage: nat
    var fetchClock: nat
    var fetchedInstructions: nat

    ghost predicate Valid()
      reads this, fetch, fetch.Repr, instructionMemory, instructionMemory.Repr, fetchBuffer
    {
      && fetch.Valid() && instructionMemory.Valid()
      && fetchID < |fetch.Links| && instructionMemoryID < |instructionMemory.Links|
      && fetch.Repr !! instructionMemory.Repr !! {this, fetchBuffer}
      && 1 <= fetchSize && 1 <= fetchInterval
      && fetchBuffer.Length == fetchSize
      && fetchBufferUsage <= fetchSize
    }

    ghost function Buffered(): (entries: seq<FetchBufferEntry>)
      requires fetchBufferUsage <= fetchBuffer.Length
      reads this, fetchBuffer
      ensures |entries| == fetchBufferUsage
    {
      fetchBuffer[..fetchBufferUsage]
    }

    constructor Configure(
      fetch: Linkable<FetchPacket>, instructionMemory: Linkable<InstructionPacket>, fetchSize: nat, fetchInterval: nat)
      requires 1 <= fetchSize && 1 <= fetchInterval
      requires fetch.Valid() && instructionMemory.Valid() && fetch.Repr !! instructionMemory.Repr
      modifies fetch, instructionMemory
      ensures Valid() && fresh(fetchBuffer)
      ensures fresh(fetch.Repr - old(fetch.Repr)) && fresh(instructionMemory.Repr - old(instructionMemory.Repr))
      ensures this.fetch == fetch && this.instructionMemory == instructionMemory
      ensures this.fetchSize == fetchSize && this.fetchInterval == fetchInterval
      ensures Buffered() == [] && fetchClock == 0 && fetchedInstructions == 0
      ensures fetchID == |old(fetch.Links)| && instructionMemoryID == |old(instructionMemory.Links)|
      ensures fetch.Links == old(fetch.Links) + [NewLink(fetchSize)]
      ensures instructionMemory.Links == old(instructionMemory.Links) + [NewLink(fetchSize)]
    {
      this.fetch := fetch;
      this.instructionMemory := instructionMemory;
      this.fetchSize := fetchSize;
      this.fetchInterval := fetchInterval;
      fetchBuffer := new FetchBufferEntry[fetchSize](i => FetchBufferEntry(BLANK_PACKET, false));
      fetchBufferUsage, fetchClock, fetchedInstructions := 0, 0, 0;
      var id := fetch.ConnectUnsafe(fetchSize);
      fetchID := id;
      id := instructionMemory.ConnectUnsafe(fetchSize);
      instructionMemoryID := id;
    }

    method ClockSendBuffered()
      requires Valid()
      modifies instructionMemory.Repr, fetchBuffer
      ensures Valid() && fresh(instructionMemory.Repr - old(instructionMemory.Repr))
      ensures (Buffered(), instructionMemory.Links[instructionMemoryID])
        == SendFrom(old(Buffered()), old(instructionMemory.Links)[instructionMemoryID],
                    SentPrefix(old(Buffered()), 0))
      ensures instructionMemory.Links == old(instructionMemory.Links)[
        instructionMemoryID := instructionMemory.Links[instructionMemoryID]]
    {
      ghost var start := SentPrefix(Buffered(), 0);
      var i := 0;
      while i < fetchBufferUsage && fetchBuffer[i].sentToMemory
        invariant i <= fetchBufferUsage
        invariant SentPrefix(Buffered(), i) == start
      {
        i := i + 1;
      }
      var failed := false;
      while i < fetchBufferUsage && !failed
        invariant Valid() && i <= fetchBufferUsage && fresh(instructionMemory.Repr - old(instructionMemory.Repr))
        invariant |instructionMemory.Links| == |old(instructionMemory.Links)|
        invariant failed ==> instructionMemory.Links[instructionMemoryID].request.IsFull()
        invariant SendFrom(Buffered(), instructionMemory.Links[instructionMemoryID], i)
          == SendFrom(old(Buffered()), old(instructionMemory.Links)[instructionMemoryID], start)
        invariant instructionMemory.Links == old(instructionMemory.Links)[
          instructionMemoryID := instructionMemory.Links[instructionMemoryID]]
        decreases fetchBufferUsage - i, !failed
      {
        failed := instructionMemory.SendRequest(instructionMemoryID, fetchBuffer[i].instruction);
        if !failed {
          ghost var marked := Buffered()[i := Buffered()[i].(sentToMemory := true)];
          fetchBuffer[i] := fetchBuffer[i].(sentToMemory := true);
          assert Buffered() == marked;
          i := i + 1;
        }
      }
    }

    // Removes the entries at the front that are done with.
    method ClockUnbuffer()
      requires Valid()
      modifies this`fetchBufferUsage, fetchBuffer
      ensures Valid()
      ensures Buffered() == old(Buffered())[SentPrefix(old(Buffered()), 0)..]
    {
      ghost var before := Buffered();
      var i := 0;
      while i < fetchBufferUsage && fetchBuffer[i].sentToMemory
        invariant i <= fetchBufferUsage
        invariant SentPrefix(before, i) == SentPrefix(before, 0)
      {
        i := i + 1;
      }
      fetchBufferUsage := fetchBufferUsage - i;
      if fetchBufferUsage > 0 {
        forall k | 0 <= k < fetchBufferUsage {
          fetchBuffer[k] := fetchBuffer[k + i];
        }
      }
      assert forall k :: 0 <= k < fetchBufferUsage ==> fetchBuffer[k] == before[k + i];
    }

    method ClockRequestFetch()
      requires Valid()
      modifies fetch.Repr
      ensures Valid() && fresh(fetch.Repr - old(fetch.Repr))
      ensures fetch.Links == old(fetch.Links)[fetchID :=
        old(fetch.Links)[fetchID].SendRequest(Request(fetchSize - Bytes(Buffered())))]
    {
      var fetchBufferByteUsage := 0;
      for i := 0 to fetchBufferUsage
        invariant fetchBufferByteUsage == Bytes(Buffered()[..i])
      {
        fetchBufferByteUsage := fetchBufferByteUsage + fetchBuffer[i].instruction.Size();
        assert Buffered()[..i + 1][..i] == Buffered()[..i];
      }
      assert Buffered()[..fetchBufferUsage] == Buffered();
      var failed := fetch.SendRequest(fetchID, Request(fetchSize - fetchBufferByteUsage));
    }

    // One attempt to receive, into the slot behind the buffered entries. A failed one
    // clears the slot.
    method ReceiveOne() returns (received: bool)
      requires Valid() && fetchBufferUsage < fetchSize
      modifies this`fetchBufferUsage, this`fetchedInstructions, fetch.Repr, fetchBuffer
      ensures Valid() && fresh(fetch.Repr - old(fetch.Repr))
      ensures var link := old(fetch.Links)[fetchID];
        && fetch.Links == old(fetch.Links)[fetchID := link.GetResponse()]
        && received == (link.response.readable != [])
        && Buffered() == old(Buffered()) + (if received then [Fresh(link.response.readable[0])] else [])
      ensures fetchedInstructions == old(fetchedInstructions) + (if received then 1 else 0)
    {
      var message := fetch.GetResponse(fetchID);
      received := message.Some?;
      if received {
        fetchBuffer[fetchBufferUsage] := Fresh(message.value);
        fetchBufferUsage := fetchBufferUsage + 1;
        fetchedInstructions := fetchedInstructions + 1;
      } else {
        fetchBuffer[fetchBufferUsage] := fetchBuffer[fetchBufferUsage].(instruction := BLANK_PACKET);
      }
    }

    // Receives until there is nothing left. The attempt that finds nothing needs a slot
    // to write into as well.
    method ClockFetch()
      requires Valid()
      requires fetchBufferUsage + |fetch.Links[fetchID].response.readable| < fetchSize
      modifies this`fetchBufferUsage, this`fetchedInstructions, fetch.Repr, fetchBuffer
      ensures Valid() && fresh(fetch.Repr - old(fetch.Repr))
      ensures Buffered() == old(Buffered()) + Arrived(old(fetch.Links)[fetchID].response.readable)
      ensures fetch.Links == old(fetch.Links)[fetchID := Emptied(old(fetch.Links)[fetchID])]
      ensures fetchedInstructions == old(fetchedInstructions) + |old(fetch.Links)[fetchID].response.readable|
    {
      var received := ReceiveOne();
      while received
        invariant Valid() && |fetch.Links| == |old(fetch.Links)| && fresh(fetch.Repr - old(fetch.Repr))
        invariant fetchBufferUsage + |fetch.Links[fetchID].response.readable| < fetchSize
        invariant !received ==> fetch.Links[fetchID].response.readable == []
        invariant Buffered() + Arrived(fetch.Links[fetchID].response.readable)
          == old(Buffered()) + Arrived(old(fetch.Links)[fetchID].response.readable)
        invariant Emptied(fetch.Links[fetchID]) == Emptied(old(fetch.Links)[fetchID])
        invariant fetch.Links == old(fetch.Links)[fetchID := fetch.Links[fetchID]]
        invariant fetchedInstructions + |fetch.Links[fetchID].response.readable|
          == old(fetchedInstructions) + |old(fetch.Links)[fetchID].response.readable|
        decreases |fetch.Links[fetchID].response.readable|, received
      {
        received := ReceiveOne();
      }
    }

    // Without a predictor there is never a penalty to pay.
    method Clock()
      requires Valid()
      requires var sent := SendFrom(Buffered(), instructionMemory.Links[instructionMemoryID],
                                    SentPrefix(Buffered(), 0)).0;
        |sent[SentPrefix(sent, 0)..]| + |fetch.Links[fetchID].response.readable| < fetchSize
      modifies this, fetch.Repr, instructionMemory.Repr, fetchBuffer
      ensures Valid() && fresh(fetch.Repr - old(fetch.Repr))
      ensures fresh(instructionMemory.Repr - old(instructionMemory.Repr))
      ensures var (fetched, link, memory, clock) := Clocked(fetchSize, fetchInterval,
          old(Buffered()), old(fetch.Links)[fetchID],
          old(instructionMemory.Links)[instructionMemoryID], old(fetchClock));
        && Buffered() == fetched && fetchClock == clock
        && fetch.Links == old(fetch.Links)[fetchID := link]
        && instructionMemory.Links == old(instructionMemory.Links)[instructionMemoryID := memory]
      ensures fetchedInstructions == old(fetchedInstructions) + |old(fetch.Links)[fetchID].response.readable|
    {
      ClockSendBuffered();
      ClockUnbuffer();
      ClockFetch();
      RequestWhenDue();
    }

    method RequestWhenDue()
      requires Valid()
      modifies this`fetchClock, fetch.Repr
      ensures Valid() && fresh(fetch.Repr - old(fetch.Repr))
      ensures fetchClock == if old(fetchClock) % fetchInterval == 0 then 1 else old(fetchClock) + 1
      ensures fetch.Links == old(fetch.Links)[fetchID :=
        var link := old(fetch.Links)[fetchID];
        if old(fetchClock) % fetchInterval == 0 then link.SendRequest(Request(fetchSize - Bytes(Buffered()))) else link]
    {
      if fetchClock % fetchInterval == 0 {
        fetchClock := 0;
        ClockRequestFetch();
      }
      fetchClock := fetchClock + 1;
    }
  }

  function Emptied(link: Link<FetchPacket>): Link<FetchPacket> {
    link.(response := link.response.(readable := []))
  }

  // A whole clock: what is buffered, the connection to the engine, the connection to
  // the memory and the clock counter afterwards.
  function Clocked(
    fetchSize: nat, fetchInterval: nat, buffered: seq<FetchBufferEntry>, link: Link<FetchPacket>,
    memory: Link<InstructionPacket>, fetchClock: nat)
    : (seq<FetchBufferEntry>, Link<FetchPacket>, Link<InstructionPacket>, nat)
    requires 1 <= fetchInterval
  {
    var (marked, sentTo) := SendFrom(buffered, memory, SentPrefix(buffered, 0));
    var fetched := marked[SentPrefix(marked, 0)..] + Arrived(link.response.readable);
    if fetchClock % fetchInterval == 0 then
      (fetched, Emptied(link).SendRequest(Request(fetchSize - Bytes(fetched))), sentTo, 1)
    else (fetched, Emptied(link), sentTo, fetchClock + 1)
  }
}
