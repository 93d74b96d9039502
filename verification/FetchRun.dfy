// The loop of engine and fetcher as the two components run it, over a connection that
// both of them hold.
module FetchRuns {
  import opened Wrappers
  import opened Linkables
  import opened Packets
  import opened Engines
  import opened Fetchers
  import opened FetchLoop
  import opened FetchRoom

  // An engine with one core, and a fetcher connected to it and to a memory, each alone on
  // its connection.
  ghost predicate Joined(engine: Engine, fetcher: Fetcher)
    reads engine, engine.port, engine.port.Repr, engine.fetchBuffers, engine.calls
    reads fetcher, fetcher.fetch, fetcher.fetch.Repr, fetcher.fetchBuffer
    reads fetcher.instructionMemory, fetcher.instructionMemory.Repr
  {
    && engine.Valid() && fetcher.Valid() && fetcher.fetch == engine.port
    && {fetcher, fetcher.fetchBuffer} !! {engine, engine.fetchBuffers, engine.calls}
    && fetcher.instructionMemory.Repr !! {engine, engine.fetchBuffers, engine.calls}
    && |engine.readers| == 1 && fetcher.fetchID == 0
    && |fetcher.instructionMemory.Links| == 1 && fetcher.instructionMemoryID == 0
  }

  // Between two cycles nothing is left on the connection to the memory.
  ghost predicate Together(engine: Engine, fetcher: Fetcher)
    reads engine, engine.port, engine.port.Repr, engine.fetchBuffers, engine.calls
    reads fetcher, fetcher.fetch, fetcher.fetch.Repr, fetcher.fetchBuffer
    reads fetcher.instructionMemory, fetcher.instructionMemory.Repr
  {
    Joined(engine, fetcher) && fetcher.instructionMemory.Links == [NewLink(fetcher.fetchSize)]
  }

  ghost function Now(engine: Engine, fetcher: Fetcher, delivered: seq<InstructionPacket>): Loop
    requires Together(engine, fetcher)
    reads engine, engine.port, engine.port.Repr, engine.fetchBuffers, engine.calls
    reads fetcher, fetcher.fetch, fetcher.fetch.Repr, fetcher.fetchBuffer
    reads fetcher.instructionMemory, fetcher.instructionMemory.Repr
  {
    Loop(engine.CoreAt(0), engine.port.Links[0], fetcher.Buffered(), fetcher.fetchClock, delivered)
  }

  // ------ Room for what arrives

  lemma {:induction false} SendingKeepsArrived(reader: Reader, served: Served, weight: int, bytes: int)
    requires AllSized(reader) && served.core.buffer.Size() >= 1
    ensures SendUpTo(reader, served, weight, bytes).link.response.readable == served.link.response.readable
    decreases bytes - weight
  {
    if weight < bytes && !Stops(reader(served.core.calls)) {
      var next := SendOne(reader, served);
      SendingKeepsArrived(reader, next, weight + next.core.buffer.Size(), bytes);
    }
  }

  lemma EngineKeepsArrived(reader: Reader, served: Served)
    requires AllSized(reader) && served.core.buffer.Size() >= 1
    ensures ServeClock(reader, served).link.response.readable == served.link.response.readable
  {
    match served.link.request.Head() {
      case Some(Request(bytes)) =>
        var taken := Served(served.core, served.link.GetRequest());
        if bytes != 0 {
          SendingKeepsArrived(reader, taken, served.core.buffer.Size(), bytes);
        }
      case _ =>
    }
  }

  lemma {:induction false} SendingKeepsTheRest(
    entries: seq<FetchBufferEntry>, memory: Link<InstructionPacket>, i: nat)
    requires i <= |entries|
    ensures var sentTo := SendFrom(entries, memory, i).1;
      sentTo == memory.(request := memory.request.(sending := sentTo.request.sending))
    decreases |entries| - i
  {
    if i < |entries| && !memory.request.IsFull() {
      SendingKeepsTheRest(entries[i := entries[i].(sentToMemory := true)],
                          memory.SendRequest(entries[i].instruction), i + 1);
    }
  }

  // What is in the buffer goes to the memory, and what arrives leaves a slot.
  ghost predicate HasRoom(fetchSize: nat, loop: Loop) {
    var sent := SendFrom(loop.buffered, NewLink(fetchSize), SentPrefix(loop.buffered, 0)).0;
    |sent[SentPrefix(sent, 0)..]| + |loop.link.response.readable| < fetchSize
  }

  function Iterate<T>(step: T -> T, value: T, times: nat): T
    decreases times
  {
    if times == 0 then value else Iterate(step, step(value), times - 1)
  }

  lemma {:induction false} OneMoreStep<T>(step: T -> T, value: T, times: nat)
    ensures Iterate(step, value, times + 1) == step(Iterate(step, value, times))
    decreases times
  {
    if times > 0 {
      OneMoreStep(step, step(value), times - 1);
    }
  }

  function CycleOf(reader: Reader, fetchSize: nat, fetchInterval: nat): Loop -> Loop
    requires AllSized(reader) && 1 <= fetchInterval
  {
    (loop: Loop) => if loop.core.buffer.Size() >= 1 then Cycle(reader, fetchSize, fetchInterval, loop) else loop
  }

  lemma {:induction false} AfterIterates(reader: Reader, fetchSize: nat, fetchInterval: nat, loop: Loop, cycles: nat)
    requires AllSized(reader) && loop.core.buffer.Size() >= 1 && 1 <= fetchInterval
    ensures After(reader, fetchSize, fetchInterval, loop, cycles)
      == Iterate(CycleOf(reader, fetchSize, fetchInterval), loop, cycles)
    decreases cycles
  {
    if cycles > 0 {
      AfterIterates(reader, fetchSize, fetchInterval, Cycle(reader, fetchSize, fetchInterval, loop), cycles - 1);
    }
  }

  lemma OneMoreCycle(reader: Reader, fetchSize: nat, fetchInterval: nat, loop: Loop, cycles: nat)
    requires AllSized(reader) && loop.core.buffer.Size() >= 1 && 1 <= fetchInterval
    ensures After(reader, fetchSize, fetchInterval, loop, cycles + 1)
      == Cycle(reader, fetchSize, fetchInterval, After(reader, fetchSize, fetchInterval, loop, cycles))
  {
    AfterIterates(reader, fetchSize, fetchInterval, loop, cycles);
    AfterIterates(reader, fetchSize, fetchInterval, loop, cycles + 1);
    OneMoreStep(CycleOf(reader, fetchSize, fetchInterval), loop, cycles);
  }

  lemma RoomForEver(reader: Reader, fetchSize: nat, fetchInterval: nat, cycles: nat)
    requires AllSized(reader) && Instruction(reader, 0).Size() >= 1 && 1 <= fetchSize && 1 <= fetchInterval
    ensures HasRoom(fetchSize, After(reader, fetchSize, fetchInterval, Start(reader, fetchSize), cycles))
  {
    var first, start := Start(reader, fetchSize), Core(Instruction(reader, 0), 1);
    StartIsRoomy(reader, fetchSize);
    var calls, request, held, coming :=
      LoopIsRoomy(reader, start, fetchSize, fetchInterval, first, 0, None, [], [], cycles);
    NoMoreThanBytes(held);
    NoMoreThanBytes(coming);
    AllIsPassedOn(held, fetchSize);
  }

  // ------ The components themselves

  method ClockBoth(engine: Engine, fetcher: Fetcher)
    requires Together(engine, fetcher) && HasRoom(fetcher.fetchSize, Now(engine, fetcher, []))
    modifies engine, engine.port.Repr, engine.fetchBuffers, engine.calls
    modifies fetcher, fetcher.fetchBuffer, fetcher.instructionMemory.Repr
    ensures Joined(engine, fetcher)
    ensures fresh(engine.port.Repr - old(engine.port.Repr))
    ensures fresh(fetcher.instructionMemory.Repr - old(fetcher.instructionMemory.Repr))
    ensures var served := ServeClock(engine.readers[0], old(engine.At(0)));
      && engine.CoreAt(0) == served.core
      && (fetcher.Buffered(), engine.port.Links[0], fetcher.instructionMemory.Links[0], fetcher.fetchClock)
        == Clocked(fetcher.fetchSize, fetcher.fetchInterval, old(fetcher.Buffered()), served.link,
                   NewLink(fetcher.fetchSize), old(fetcher.fetchClock))
  {
    EngineKeepsArrived(engine.readers[0], engine.At(0));
    engine.Clock();
    fetcher.Clock();
  }

  // Every component is clocked, the connections are swapped, and the memory takes what
  // was sent to it.
  method OneCycle(engine: Engine, fetcher: Fetcher, before: seq<InstructionPacket>)
    returns (delivered: seq<InstructionPacket>)
    requires Together(engine, fetcher) && HasRoom(fetcher.fetchSize, Now(engine, fetcher, before))
    modifies engine, engine.port.Repr, engine.fetchBuffers, engine.calls
    modifies fetcher, fetcher.fetchBuffer, fetcher.instructionMemory.Repr
    ensures Together(engine, fetcher)
    ensures fresh(engine.port.Repr - old(engine.port.Repr))
    ensures fresh(fetcher.instructionMemory.Repr - old(fetcher.instructionMemory.Repr))
    ensures Now(engine, fetcher, delivered)
      == Cycle(engine.readers[0], fetcher.fetchSize, fetcher.fetchInterval, old(Now(engine, fetcher, before)))
  {
    SendingKeepsTheRest(fetcher.Buffered(), NewLink(fetcher.fetchSize), SentPrefix(fetcher.Buffered(), 0));
    ClockBoth(engine, fetcher);
    delivered := Deliver(engine, fetcher, before);
  }

  method Deliver(engine: Engine, fetcher: Fetcher, before: seq<InstructionPacket>)
    returns (delivered: seq<InstructionPacket>)
    requires Joined(engine, fetcher)
    requires var link := fetcher.instructionMemory.Links[0];
      link == NewLink(fetcher.fetchSize).(request := Channel(fetcher.fetchSize, link.request.sending, []))
    modifies engine.port.Repr, fetcher.instructionMemory.Repr
    ensures Together(engine, fetcher) && engine.port.Repr == old(engine.port.Repr)
    ensures fresh(fetcher.instructionMemory.Repr - old(fetcher.instructionMemory.Repr))
    ensures engine.CoreAt(0) == old(engine.CoreAt(0)) && engine.port.Links[0] == old(engine.port.Links)[0].Swap()
    ensures fetcher.Buffered() == old(fetcher.Buffered()) && fetcher.fetchClock == old(fetcher.fetchClock)
    ensures delivered == before + old(fetcher.instructionMemory.Links)[0].request.sending
  {
    engine.port.PosClock();
    fetcher.instructionMemory.PosClock();
    var taken := TakeAll(fetcher.instructionMemory);
    delivered := before + taken;
  }

  // So the memory really gets what the loop delivers.
  method RunTogether(engine: Engine, fetcher: Fetcher, cycles: nat) returns (delivered: seq<InstructionPacket>)
    requires Together(engine, fetcher) && Instruction(engine.readers[0], 0).Size() >= 1
    requires Now(engine, fetcher, []) == Start(engine.readers[0], fetcher.fetchSize)
    modifies engine, engine.port.Repr, engine.fetchBuffers, engine.calls
    modifies fetcher, fetcher.fetchBuffer, fetcher.instructionMemory.Repr
    ensures Together(engine, fetcher)
    ensures var reader := engine.readers[0];
      Now(engine, fetcher, delivered)
        == After(reader, fetcher.fetchSize, fetcher.fetchInterval, Start(reader, fetcher.fetchSize), cycles)
    ensures Steady(engine.readers[0]) ==> delivered == Part(engine.readers[0], 0, |delivered|)
  {
    delivered := [];
    ghost var reader, fetchSize, fetchInterval := engine.readers[0], fetcher.fetchSize, fetcher.fetchInterval;
    for n := 0 to cycles
      invariant Together(engine, fetcher)
      invariant fresh(engine.port.Repr - old(engine.port.Repr))
      invariant fresh(fetcher.instructionMemory.Repr - old(fetcher.instructionMemory.Repr))
      invariant Now(engine, fetcher, delivered)
        == After(reader, fetchSize, fetchInterval, Start(reader, fetchSize), n)
    {
      RoomForEver(reader, fetchSize, fetchInterval, n);
      OneMoreCycle(reader, fetchSize, fetchInterval, Start(reader, fetchSize), n);
      delivered := OneCycle(engine, fetcher, delivered);
    }
    if Steady(reader) {
      TheLoopIsSafe(reader, fetchSize, fetchInterval, cycles);
    }
  }

  // An engine with one core buffers the first instruction.
  method Begin(port: Linkable<FetchPacket>, reader: Reader) returns (engine: Engine, failed: bool)
    requires port.Valid() && |port.Links| == 1 && AllSized(reader)
    ensures failed <==> !reader(0).Ok?
    ensures fresh(engine) && fresh(engine.fetchBuffers) && fresh(engine.calls)
    ensures engine.port == port && engine.readers == [reader]
    ensures !failed ==> engine.Valid() && engine.CoreAt(0) == Core(Instruction(reader, 0), 1)
  {
    engine := new Engine(port, [reader]);
    assert engine.readers[0] == reader;
    failed := engine.SetupSimulation();
  }

  // The fetcher connects itself and the engine buffers the first instruction.
  method Build(reader: Reader, fetchSize: nat, fetchInterval: nat)
    returns (engine: Engine, fetcher: Fetcher, failed: bool)
    requires AllSized(reader) && 1 <= fetchSize && 1 <= fetchInterval
    ensures failed <==> !reader(0).Ok?
    ensures !failed ==> Together(engine, fetcher) && engine.readers == [reader] && reader(0).packet.Size() >= 1
    ensures !failed ==> fetcher.fetchSize == fetchSize && fetcher.fetchInterval == fetchInterval
    ensures !failed ==> Now(engine, fetcher, []) == Start(reader, fetchSize)
    ensures fresh(engine) && fresh(engine.port.Repr) && fresh(engine.fetchBuffers) && fresh(engine.calls)
    ensures fresh(fetcher) && fresh(fetcher.fetchBuffer) && fresh(fetcher.instructionMemory.Repr)
  {
    var port := new Linkable<FetchPacket>();
    var memory := new Linkable<InstructionPacket>();
    fetcher := new Fetcher.Configure(port, memory, fetchSize, fetchInterval);
    engine, failed := Begin(port, reader);
    assert Sized(reader(0));
  }

  method Simulate(reader: Reader, fetchSize: nat, fetchInterval: nat, cycles: nat)
    returns (delivered: seq<InstructionPacket>, failed: bool)
    requires AllSized(reader) && 1 <= fetchSize && 1 <= fetchInterval
    ensures failed <==> !reader(0).Ok?
    ensures !failed ==> reader(0).packet.Size() >= 1
    ensures !failed ==>
      delivered == After(reader, fetchSize, fetchInterval, Start(reader, fetchSize), cycles).delivered
    ensures Steady(reader) ==> delivered == Part(reader, 0, |delivered|)
  {
    var engine, fetcher;
    engine, fetcher, failed := Build(reader, fetchSize, fetchInterval);
    delivered := [];
    if !failed {
      delivered := RunTogether(engine, fetcher, cycles);
    }
  }
}
