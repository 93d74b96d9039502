// What the engine answers to a single request, and the loop of the engine and a component
// that asks for one instruction at a time (src/std_components/cores/simple_core.cpp:45-52).
module SingleFetch {
  import opened Wrappers
  import opened Linkables
  import opened Packets
  import opened Engines
  import opened FetchLoop
  import opened FetchRoom

  // ------ One request

  // A request for 0 bytes is answered with the buffered instruction, whatever its size, and
  // with the address of its successor; the successor is buffered.
  lemma ZeroGivesOne(reader: Reader, core: Core, link: Link<FetchPacket>, next: InstructionPacket)
    requires AllSized(reader) && core.buffer.Size() >= 1
    requires link.request.readable != [] && link.request.readable[0] == Request(0)
    requires link.response.sending == [] && reader(core.calls) == Ok(next)
    ensures var after := ServeClock(reader, Served(core, link));
      && after.core == Core(next, core.calls + 1)
      && after.link.response.sending == [Response(core.buffer.(nextInstruction := next.staticInfo.instAddress))]
      && after.link.request.readable == link.request.readable[1..]
  {
    assert [] + [Response(core.buffer.(nextInstruction := next.staticInfo.instAddress))]
      == [Response(core.buffer.(nextInstruction := next.staticInfo.instAddress))];
  }

  // When the reader has nothing for the core, the buffered instruction is sent as its own
  // successor and stays; when it fails, what it has left of the packet takes its place.
  // Either way nothing more is sent, however many bytes are asked for, unless the answer
  // was a Nop.
  lemma OtherAnswers(reader: Reader, core: Core, link: Link<FetchPacket>, bytes: int)
    requires AllSized(reader) && core.buffer.Size() >= 1 && !reader(core.calls).Ok?
    requires link.request.readable != [] && link.request.readable[0] == Request(bytes)
    requires bytes == 0 || (core.buffer.Size() < bytes && !reader(core.calls).Nop?)
    requires link.response.sending == []
    ensures var after := ServeClock(reader, Served(core, link));
      var left := if reader(core.calls).Error? then reader(core.calls).partial else core.buffer;
      && after.core == Core(left, core.calls + 1)
      && after.link.response.sending == [Response(core.buffer.(nextInstruction := left.staticInfo.instAddress))]
  {
    var left := if reader(core.calls).Error? then reader(core.calls).partial else core.buffer;
    assert Sized(reader(core.calls));
    assert [] + [Response(core.buffer.(nextInstruction := left.staticInfo.instAddress))]
      == [Response(core.buffer.(nextInstruction := left.staticInfo.instAddress))];
  }

  // A request for less than nothing is answered with nothing, and so is what is no request.
  lemma NothingGivesNothing(reader: Reader, core: Core, link: Link<FetchPacket>)
    requires AllSized(reader) && core.buffer.Size() >= 1
    requires link.request.readable == [] || link.request.readable[0].Response? || link.request.readable[0].bytes < 0
    ensures ServeClock(reader, Served(core, link)) == Served(core, link.GetRequest())
  {
  }

  // ------ One instruction at a time

  datatype Single = Single(core: Core, link: Link<FetchPacket>, received: seq<InstructionPacket>)

  function Arriving(link: Link<FetchPacket>): seq<InstructionPacket> {
    match link.response.Head() case None => [] case Some(message) => [InstructionOf(message)]
  }

  // The component asks for 0 bytes and takes what has arrived; then the engine is clocked,
  // and the buffers are swapped.
  function Cycle(reader: Reader, single: Single): (after: Single)
    requires AllSized(reader) && single.core.buffer.Size() >= 1
    ensures after.core.buffer.Size() >= 1
  {
    var asked := single.link.SendRequest(Request(0));
    var served := ServeClock(reader, Served(single.core, asked.GetResponse()));
    Single(served.core, served.link.Swap(), single.received + Arriving(asked))
  }

  function After(reader: Reader, single: Single, cycles: nat): (after: Single)
    requires AllSized(reader) && single.core.buffer.Size() >= 1
    ensures after.core.buffer.Size() >= 1
    decreases cycles
  {
    if cycles == 0 then single else Cycle(reader, After(reader, single, cycles - 1))
  }

  function Earlier(cycles: nat, n: nat): nat {
    if cycles < n then 0 else cycles - n
  }

  // After so many cycles: a request is waiting for the engine, and one answer, behind the
  // second cycle, for the component.
  function Expected(reader: Reader, core: Core, capacity: nat, cycles: nat): Single {
    var sent := Earlier(cycles, 1);
    Single(
      CoreAfter(reader, core, sent),
      Link(Channel(capacity, [], if cycles == 0 then [] else [Request(0)]),
           Channel(capacity, [],
                   if sent == 0 then [] else Replies(SentFrom(reader, CoreAfter(reader, core, sent - 1), 1)))),
      SentFrom(reader, core, Earlier(cycles, 2)))
  }

  lemma CycleIsExpected(reader: Reader, core: Core, capacity: nat, cycles: nat)
    requires AllSized(reader) && Expected(reader, core, capacity, cycles).core.buffer.Size() >= 1
    ensures Cycle(reader, Expected(reader, core, capacity, cycles)) == Expected(reader, core, capacity, cycles + 1)
  {
    var sent := Earlier(cycles, 1);
    SendingJoins(reader, core, sent, 1);
    NothingBefore([Request(0)]);
    if cycles > 0 {
      OneReply(reader, CoreAfter(reader, core, sent));
      NothingBefore(Replies(SentFrom(reader, CoreAfter(reader, core, sent), 1)));
    }
    if sent > 0 {
      OneReply(reader, CoreAfter(reader, core, sent - 1));
      SendingJoins(reader, core, sent - 1, 1);
    }
  }

  lemma OneReply(reader: Reader, core: Core)
    ensures SentFrom(reader, core, 1) == [Sent(reader, core)]
    ensures Replies([Sent(reader, core)]) == [Response(Sent(reader, core))]
    ensures CoreAfter(reader, core, 1) == Advance(reader, core)
  {
    assert SentFrom(reader, Advance(reader, core), 0) == [];
    assert CoreAfter(reader, Advance(reader, core), 0) == Advance(reader, core);
  }

  lemma NextIsExpected(reader: Reader, single: Single, core: Core, capacity: nat, cycles: nat)
    requires AllSized(reader) && single.core.buffer.Size() >= 1
    requires single == Expected(reader, core, capacity, cycles)
    ensures Cycle(reader, single) == Expected(reader, core, capacity, cycles + 1)
  {
    CycleIsExpected(reader, core, capacity, cycles);
  }

  lemma StartIsExpected(reader: Reader, core: Core, capacity: nat)
    ensures Expected(reader, core, capacity, 0) == Single(core, NewLink(capacity), [])
  {
  }

  lemma {:induction false} LoopIsExpected(reader: Reader, core: Core, capacity: nat, cycles: nat)
    requires AllSized(reader) && core.buffer.Size() >= 1
    ensures After(reader, Single(core, NewLink(capacity), []), cycles) == Expected(reader, core, capacity, cycles)
    decreases cycles
  {
    var start := Single(core, NewLink(capacity), []);
    if cycles == 0 {
      StartIsExpected(reader, core, capacity);
    } else {
      var before := After(reader, start, cycles - 1);
      assert before == Expected(reader, core, capacity, cycles - 1) by {
        LoopIsExpected(reader, core, capacity, cycles - 1);
      }
      NextIsExpected(reader, before, core, capacity, cycles - 1);
    }
  }

  // What is sent, under a reader that always gives an instruction, is the trace.
  lemma {:induction false} SentIsTheTrace(reader: Reader, n: nat)
    requires Steady(reader)
    ensures var core := Core(Instruction(reader, 0), 1);
      && CoreAfter(reader, core, n) == Core(Instruction(reader, n), n + 1)
      && SentFrom(reader, core, n) == Part(reader, 0, n)
  {
    if n > 0 {
      var core := Core(Instruction(reader, 0), 1);
      SentIsTheTrace(reader, n - 1);
      SendingJoins(reader, core, n - 1, 1);
      OneReply(reader, CoreAfter(reader, core, n - 1));
      assert reader(n).Ok?;
    }
  }

  // Asking for 0 bytes in every cycle, under any reader: from the third cycle on the
  // component receives one packet per cycle, those of the calls of the reader in their
  // order; if the reader always gives an instruction, that is the trace, each instruction
  // once, with the address of its successor.
  lemma OneInstructionPerCycle(reader: Reader, capacity: nat, cycles: nat)
    requires AllSized(reader) && Instruction(reader, 0).Size() >= 1 && cycles >= 2
    ensures var core := Core(Instruction(reader, 0), 1);
      var received := After(reader, Single(core, NewLink(capacity), []), cycles).received;
      && received == SentFrom(reader, core, cycles - 2)
      && (Steady(reader) ==> received == Part(reader, 0, cycles - 2))
  {
    LoopIsExpected(reader, Core(Instruction(reader, 0), 1), capacity, cycles);
    if Steady(reader) {
      SentIsTheTrace(reader, cycles - 2);
    }
  }

  // The engine itself, with one core and such a component.
  method AskOneByOne(engine: Engine, capacity: nat, cycles: nat) returns (received: seq<InstructionPacket>)
    requires engine.Valid() && |engine.readers| == 1 && engine.port.Links == [NewLink(capacity)]
    requires engine.CoreAt(0) == Core(Instruction(engine.readers[0], 0), 1)
    modifies engine, engine.port.Repr, engine.fetchBuffers, engine.calls
    ensures engine.Valid() && engine.CoreAt(0).buffer.Size() >= 1
    ensures cycles >= 2 ==> received == SentFrom(engine.readers[0], old(engine.CoreAt(0)), cycles - 2)
    ensures cycles >= 2 && Steady(engine.readers[0]) ==> received == Part(engine.readers[0], 0, cycles - 2)
  {
    received := [];
    ghost var reader, start := engine.readers[0], Single(engine.CoreAt(0), NewLink(capacity), []);
    for n := 0 to cycles
      invariant engine.Valid() && fresh(engine.port.Repr - old(engine.port.Repr))
      invariant Single(engine.CoreAt(0), engine.port.Links[0], received) == After(reader, start, n)
    {
      received := OneCycle(engine, received);
    }
    if cycles >= 2 {
      OneInstructionPerCycle(reader, capacity, cycles);
    }
  }

  method OneCycle(engine: Engine, before: seq<InstructionPacket>) returns (received: seq<InstructionPacket>)
    requires engine.Valid() && |engine.readers| == 1
    modifies engine, engine.port.Repr, engine.fetchBuffers, engine.calls
    ensures engine.Valid() && fresh(engine.port.Repr - old(engine.port.Repr))
    ensures Single(engine.CoreAt(0), engine.port.Links[0], received)
      == Cycle(engine.readers[0], old(Single(engine.CoreAt(0), engine.port.Links[0], before)))
  {
    received := before;
    var failed := engine.port.SendRequest(0, Request(0));
    var message := engine.port.GetResponse(0);
    if message.Some? {
      received := received + [InstructionOf(message.value)];
    }
    engine.Clock();
    engine.port.PosClock();
  }
}
