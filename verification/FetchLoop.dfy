// The engine and the fetcher running against each other: a pipelined loop of requests
// and responses over a double-buffered connection.
module FetchLoop {
  import opened Wrappers
  import opened Linkables
  import opened Packets
  import opened Engines
  import opened Fetchers

  // A reader that never fails to deliver, and whose instructions take space.
  ghost predicate Steady(reader: Reader) {
    forall k :: reader(k).Ok? && reader(k).packet.Size() >= 1
  }

  // The k-th instruction of the trace.
  function Instruction(reader: Reader, k: nat): InstructionPacket {
    var fetched := reader(k);
    if fetched.Ok? then fetched.packet else BLANK_PACKET
  }

  // The same as it is sent: with the address of the one after it.
  function Linked(reader: Reader, k: nat): InstructionPacket {
    Instruction(reader, k).(nextInstruction := Instruction(reader, k + 1).staticInfo.instAddress)
  }

  // Instructions `from`, ..., `end` - 1 of the trace: as such, as messages to the
  // fetcher, and as entries of the fetch buffer.
  function Part(reader: Reader, from: nat, end: nat): (part: seq<InstructionPacket>)
    requires from <= end
    ensures |part| == end - from
    decreases end
  {
    if from == end then [] else Part(reader, from, end - 1) + [Linked(reader, end - 1)]
  }

  function Messages(reader: Reader, from: nat, end: nat): (part: seq<FetchPacket>)
    requires from <= end
    ensures |part| == end - from
    decreases end
  {
    if from == end then [] else Messages(reader, from, end - 1) + [Response(Linked(reader, end - 1))]
  }

  function Entries(reader: Reader, from: nat, end: nat): (part: seq<FetchBufferEntry>)
    requires from <= end
    ensures |part| == end - from
    decreases end
  {
    if from == end then []
    else Entries(reader, from, end - 1) + [FetchBufferEntry(Linked(reader, end - 1), false)]
  }

  function Size(reader: Reader, from: nat, end: nat): nat
    requires from <= end
    decreases end
  {
    if from == end then 0 else Size(reader, from, end - 1) + Instruction(reader, end - 1).Size()
  }

  // ------ One cycle

  // The state between two cycles: the core in the engine, the connection between engine
  // and fetcher, the fetcher, and all that was passed to the instruction memory.
  datatype Loop = Loop(
    core: Core,
    link: Link<FetchPacket>,
    buffered: seq<FetchBufferEntry>,
    fetchClock: nat,
    delivered: seq<InstructionPacket>)

  // Engine, fetcher, and the swap of the buffers. The connection to the memory was
  // swapped at the end of the cycle before, so its sending side starts out empty.
  function Cycle(reader: Reader, fetchSize: nat, fetchInterval: nat, loop: Loop): (after: Loop)
    requires AllSized(reader) && loop.core.buffer.Size() >= 1 && 1 <= fetchInterval
    ensures after.core.buffer.Size() >= 1
  {
    var served := ServeClock(reader, Served(loop.core, loop.link));
    Swapped(loop.delivered, served.core,
            Clocked(fetchSize, fetchInterval, loop.buffered, served.link, NewLink(fetchSize), loop.fetchClock))
  }

  type Fetcherwards = (seq<FetchBufferEntry>, Link<FetchPacket>, Link<InstructionPacket>, nat)

  function Swapped(delivered: seq<InstructionPacket>, core: Core, fetched: Fetcherwards): Loop {
    Loop(core, fetched.1.Swap(), fetched.0, fetched.3, delivered + fetched.2.request.sending)
  }

  function Start(reader: Reader, fetchSize: nat): Loop {
    Loop(Core(Instruction(reader, 0), 1), NewLink(fetchSize), [], 0, [])
  }

  function After(reader: Reader, fetchSize: nat, fetchInterval: nat, loop: Loop, cycles: nat): (after: Loop)
    requires AllSized(reader) && loop.core.buffer.Size() >= 1 && 1 <= fetchInterval
    ensures after.core.buffer.Size() >= 1
    decreases cycles
  {
    if cycles == 0 then loop
    else After(reader, fetchSize, fetchInterval, Cycle(reader, fetchSize, fetchInterval, loop), cycles - 1)
  }

  // ------ Where the instructions are

  // Every instruction of the trace is in exactly one place: the first `passed` of them
  // in the memory, up to `held` in the fetch buffer, up to `next` on their way to it,
  // and `next` itself in the engine.
  datatype Stage = Stage(passed: nat, held: nat, next: nat, request: Option<int>, fetchClock: nat)

  ghost predicate Within(reader: Reader, fetchSize: nat, fetchInterval: nat, stage: Stage) {
    && stage.passed <= stage.held <= stage.next
    && Size(reader, stage.passed, stage.held) < fetchSize
    && Size(reader, stage.held, stage.next) < fetchSize
    && (stage.request.Some? ==> 1 <= stage.request.value <= fetchSize)
    && stage.fetchClock <= fetchInterval
  }

  function Requests(request: Option<int>): seq<FetchPacket> {
    match request case None => [] case Some(bytes) => [Request(bytes)]
  }

  function State(reader: Reader, fetchSize: nat, stage: Stage): Loop
    requires stage.passed <= stage.held <= stage.next
  {
    Loop(
      Core(Instruction(reader, stage.next), stage.next + 1),
      Link(Channel(fetchSize, [], Requests(stage.request)),
           Channel(fetchSize, [], Messages(reader, stage.held, stage.next))),
      Entries(reader, stage.passed, stage.held),
      stage.fetchClock,
      Part(reader, 0, stage.passed))
  }

  // The fetcher asks for more; its clock counter stays between 0 and fetchInterval.
  predicate IsDue(fetchInterval: nat, stage: Stage) {
    stage.fetchClock == 0 || stage.fetchClock == fetchInterval
  }

  // One cycle in which the engine sends the instructions from `next` up to `last`.
  function Moved(reader: Reader, fetchSize: nat, fetchInterval: nat, stage: Stage, last: nat): Stage
    requires stage.held <= stage.next
  {
    if IsDue(fetchInterval, stage)
      then Stage(stage.held, stage.next, last, Some(fetchSize - Size(reader, stage.held, stage.next)), 1)
      else Stage(stage.held, stage.next, last, None, stage.fetchClock + 1)
  }

  // ------ Parts of the trace

  lemma {:induction false} PartsJoin(reader: Reader, a: nat, b: nat, c: nat)
    requires a <= b <= c
    ensures Part(reader, a, b) + Part(reader, b, c) == Part(reader, a, c)
    decreases c
  {
    if b < c {
      PartsJoin(reader, a, b, c - 1);
    }
  }

  lemma {:induction false} SizesJoin(reader: Reader, a: nat, b: nat, c: nat)
    requires a <= b <= c
    ensures Size(reader, a, b) + Size(reader, b, c) == Size(reader, a, c)
    decreases c
  {
    if b < c {
      SizesJoin(reader, a, b, c - 1);
    }
  }

  lemma {:induction false} SizeCounts(reader: Reader, a: nat, b: nat)
    requires Steady(reader) && a <= b
    ensures b - a <= Size(reader, a, b)
    decreases b
  {
    if a < b {
      SizeCounts(reader, a, b - 1);
      assert reader(b - 1).Ok?;
    }
  }

  // The first instruction from `k` on that does not fit behind those from `first` on.
  ghost function Reach(reader: Reader, first: nat, k: nat, bytes: int): (last: nat)
    requires Steady(reader) && first <= k
    ensures k <= last
    decreases bytes - Size(reader, first, k + 1)
  {
    if Size(reader, first, k + 1) >= bytes then k else
    assert reader(k + 1).Ok?;
    Reach(reader, first, k + 1, bytes)
  }

  // Where the engine gets to in a cycle.
  ghost function LastSent(reader: Reader, stage: Stage): (last: nat)
    requires Steady(reader)
    ensures stage.next <= last
  {
    match stage.request
    case None => stage.next
    case Some(bytes) => Reach(reader, stage.next, stage.next, bytes)
  }

  lemma {:induction false} ReachIsMaximal(reader: Reader, first: nat, k: nat, bytes: int)
    requires Steady(reader) && first <= k
    requires first == k || Size(reader, first, k) < bytes
    ensures var last := Reach(reader, first, k, bytes);
      && (first == last || Size(reader, first, last) < bytes)
      && Size(reader, first, last + 1) >= bytes
    decreases bytes - Size(reader, first, k + 1)
  {
    if Size(reader, first, k + 1) < bytes {
      assert reader(k + 1).Ok?;
      ReachIsMaximal(reader, first, k + 1, bytes);
    }
  }

  lemma LastSentBounds(reader: Reader, fetchSize: nat, stage: Stage)
    requires Steady(reader) && 1 <= fetchSize
    requires stage.request.Some? ==> 1 <= stage.request.value <= fetchSize
    ensures Size(reader, stage.next, LastSent(reader, stage)) < fetchSize
    ensures LastSent(reader, stage) == stage.next
      <==> (stage.request.None? || Instruction(reader, stage.next).Size() >= stage.request.value)
  {
    if stage.request.Some? {
      ReachIsMaximal(reader, stage.next, stage.next, stage.request.value);
      assert Size(reader, stage.next, stage.next + 1) == Instruction(reader, stage.next).Size();
      var last := LastSent(reader, stage);
      if last > stage.next {
        SizesJoin(reader, stage.next, stage.next + 1, last);
      }
    }
  }

  lemma {:induction false} MessagesArrive(reader: Reader, a: nat, b: nat)
    requires a <= b
    ensures Arrived(Messages(reader, a, b)) == Entries(reader, a, b)
    decreases b
  {
    if a < b {
      MessagesArrive(reader, a, b - 1);
      ArrivedSnoc(Messages(reader, a, b - 1), Response(Linked(reader, b - 1)));
    }
  }

  lemma {:induction false} ArrivedSnoc(messages: seq<FetchPacket>, last: FetchPacket)
    ensures Arrived(messages + [last]) == Arrived(messages) + [Fresh(last)]
  {
    if messages == [] {
      assert messages + [last] == [last];
    } else {
      ArrivedSnoc(messages[1..], last);
      assert (messages + [last])[1..] == messages[1..] + [last];
    }
  }

  lemma {:induction false} BytesOfEntries(reader: Reader, a: nat, b: nat)
    requires a <= b
    ensures Bytes(Entries(reader, a, b)) == Size(reader, a, b)
    decreases b
  {
    if a < b {
      BytesOfEntries(reader, a, b - 1);
      assert Entries(reader, a, b)[..b - a - 1] == Entries(reader, a, b - 1);
    }
  }

  // ------ The engine's half

  // The served core that holds instruction `k`.
  function Holding(reader: Reader, link: Link<FetchPacket>, k: nat): Served {
    Served(Core(Instruction(reader, k), k + 1), link)
  }

  lemma EngineSendsOne(reader: Reader, link: Link<FetchPacket>, k: nat, weight: int, bytes: int)
    requires Steady(reader) && AllSized(reader) && weight < bytes
    ensures Instruction(reader, k).Size() >= 1 && Instruction(reader, k + 1).Size() >= 1
    ensures SendUpTo(reader, Holding(reader, link, k), weight, bytes)
      == SendUpTo(reader, Holding(reader, link.SendResponse(Response(Linked(reader, k))), k + 1),
                  weight + Instruction(reader, k + 1).Size(), bytes)
  {
    assert reader(k).Ok? && reader(k + 1).Ok?;
  }

  // Sending one more instruction, with room for it.
  lemma OneMoreSent(reader: Reader, link: Link<FetchPacket>, first: nat, next: nat)
    requires Steady(reader) && first <= next
    requires link.response.sending == Messages(reader, first, next)
    requires |Messages(reader, first, next)| < link.response.capacity
    ensures link.SendResponse(Response(Linked(reader, next)))
      == link.(response := link.response.(sending := Messages(reader, first, next + 1)))
  {
  }

  // A request for `bytes` is answered with the longest run of instructions, beginning
  // with the buffered one, that is smaller than that; none of them is dropped.
  lemma {:induction false} EngineSendsARun(
    reader: Reader, link: Link<FetchPacket>, first: nat, next: nat, bytes: int)
    requires Steady(reader) && AllSized(reader) && Instruction(reader, next).Size() >= 1
    requires first <= next && bytes <= link.response.capacity
    requires link.response.sending == Messages(reader, first, next)
    ensures var last := Reach(reader, first, next, bytes);
      SendUpTo(reader, Holding(reader, link, next), Size(reader, first, next + 1), bytes)
        == Holding(reader, link.(response := link.response.(sending := Messages(reader, first, last))), last)
    decreases bytes - Size(reader, first, next + 1)
  {
    if Size(reader, first, next + 1) < bytes {
      SizeCounts(reader, first, next + 1);
      EngineSendsOne(reader, link, next, Size(reader, first, next + 1), bytes);
      OneMoreSent(reader, link, first, next);
      var sent := link.(response := link.response.(sending := Messages(reader, first, next + 1)));
      assert Size(reader, first, next + 2) == Size(reader, first, next + 1) + Instruction(reader, next + 1).Size();
      EngineSendsARun(reader, sent, first, next + 1, bytes);
    }
  }

  lemma EngineHalf(reader: Reader, fetchSize: nat, stage: Stage, response: Channel<FetchPacket>)
    requires Steady(reader) && AllSized(reader) && Instruction(reader, stage.next).Size() >= 1
    requires 1 <= fetchSize && (stage.request.Some? ==> 1 <= stage.request.value <= fetchSize)
    requires response.capacity == fetchSize && response.sending == []
    ensures var last := LastSent(reader, stage);
      ServeClock(reader, Holding(reader, Link(Channel(fetchSize, [], Requests(stage.request)), response), stage.next))
        == Holding(reader, Link(Channel(fetchSize, [], []),
                                response.(sending := Messages(reader, stage.next, last))), last)
  {
    assert Messages(reader, stage.next, stage.next) == [];
    if stage.request.Some? {
      assert Requests(stage.request)[1..] == [];
      assert Size(reader, stage.next, stage.next + 1) == Instruction(reader, stage.next).Size();
      EngineSendsARun(reader, Link(Channel(fetchSize, [], []), response), stage.next, stage.next, stage.request.value);
    }
  }

  // ------ The fetcher's half

  lemma {:induction false} FetcherSendsAll(
    entries: seq<FetchBufferEntry>, packets: seq<InstructionPacket>, memory: Link<InstructionPacket>, i: nat)
    returns (marked: seq<FetchBufferEntry>)
    requires i <= |packets| == |entries| && |packets| <= memory.request.capacity
    requires forall k :: 0 <= k < |packets| ==> entries[k] == FetchBufferEntry(packets[k], k < i)
    requires memory.request.sending == packets[..i]
    ensures SendFrom(entries, memory, i) == (marked, memory.(request := memory.request.(sending := packets)))
    ensures |marked| == |packets| && forall k :: 0 <= k < |marked| ==> marked[k].sentToMemory
    decreases |packets| - i
  {
    if i == |packets| {
      assert packets[..i] == packets;
      marked := entries;
    } else {
      assert packets[..i + 1] == packets[..i] + [packets[i]];
      marked := FetcherSendsAll(entries[i := entries[i].(sentToMemory := true)], packets,
                                memory.SendRequest(packets[i]), i + 1);
    }
  }

  lemma {:induction false} EntriesAt(reader: Reader, a: nat, b: nat)
    requires a <= b
    ensures forall k :: 0 <= k < b - a ==>
      Entries(reader, a, b)[k] == FetchBufferEntry(Part(reader, a, b)[k], false)
    decreases b
  {
    if a < b {
      EntriesAt(reader, a, b - 1);
    }
  }

  lemma {:induction false} AllSent(entries: seq<FetchBufferEntry>, i: nat)
    requires i <= |entries|
    requires forall k :: 0 <= k < |entries| ==> entries[k].sentToMemory
    ensures SentPrefix(entries, i) == |entries|
    decreases |entries| - i
  {
    if i < |entries| {
      AllSent(entries, i + 1);
    }
  }

  // Everything that was buffered goes to the memory in one clock.
  lemma FetcherForwards(reader: Reader, a: nat, b: nat, fetchSize: nat)
    requires a <= b && b - a < fetchSize
    ensures var buffered := Entries(reader, a, b);
      var (marked, memory) := SendFrom(buffered, NewLink(fetchSize), SentPrefix(buffered, 0));
      marked[SentPrefix(marked, 0)..] == [] && memory.request.sending == Part(reader, a, b)
  {
    var buffered, packets := Entries(reader, a, b), Part(reader, a, b);
    EntriesAt(reader, a, b);
    assert SentPrefix(buffered, 0) == 0;
    assert packets[..0] == [];
    var marked := FetcherSendsAll(buffered, packets, NewLink(fetchSize), 0);
    AllSent(marked, 0);
  }

  lemma NothingBefore<T>(s: seq<T>)
    ensures [] + s == s
  {
  }

  // What a clock of the fetcher comes to, from a stage.
  function Fetched(
    reader: Reader, fetchSize: nat, fetchInterval: nat, stage: Stage, link: Link<FetchPacket>,
    memory: Link<InstructionPacket>): Fetcherwards
    requires stage.held <= stage.next
  {
    var request := Moved(reader, fetchSize, fetchInterval, stage, stage.next).request;
    var after := Link(Channel(fetchSize, Requests(request), []), Channel(fetchSize, link.response.sending, []));
    (Entries(reader, stage.held, stage.next), after, memory,
     if IsDue(fetchInterval, stage) then 1 else stage.fetchClock + 1)
  }

  lemma FetcherHalf(reader: Reader, fetchSize: nat, fetchInterval: nat, stage: Stage, link: Link<FetchPacket>)
    returns (memory: Link<InstructionPacket>)
    requires stage.passed <= stage.held <= stage.next && 1 <= fetchInterval
    requires stage.held - stage.passed < fetchSize && stage.fetchClock <= fetchInterval
    requires 1 <= fetchSize && link.request == Channel(fetchSize, [], []) && link.response.capacity == fetchSize
    requires link.response.readable == Messages(reader, stage.held, stage.next)
    ensures memory.request.sending == Part(reader, stage.passed, stage.held)
    ensures Clocked(fetchSize, fetchInterval, Entries(reader, stage.passed, stage.held), link, NewLink(fetchSize),
                    stage.fetchClock)
      == Fetched(reader, fetchSize, fetchInterval, stage, link, memory)
  {
    var buffered := Entries(reader, stage.passed, stage.held);
    FetcherForwards(reader, stage.passed, stage.held, fetchSize);
    memory := SendFrom(buffered, NewLink(fetchSize), SentPrefix(buffered, 0)).1;
    MessagesArrive(reader, stage.held, stage.next);
    BytesOfEntries(reader, stage.held, stage.next);
    NothingBefore(Entries(reader, stage.held, stage.next));
    ClockStaysSmall(stage.fetchClock, fetchInterval);
    SendIntoEmpty(link, fetchSize - Size(reader, stage.held, stage.next));
  }

  lemma SendIntoEmpty(link: Link<FetchPacket>, bytes: int)
    requires link.request.sending == [] && link.request.capacity != 0
    ensures Emptied(link).SendRequest(Request(bytes))
      == Link(link.request.(sending := Requests(Some(bytes))), link.response.(readable := []))
  {
    NothingBefore([Request(bytes)]);
  }

  // ------ Both together

  lemma ClockStaysSmall(fetchClock: nat, fetchInterval: nat)
    requires 1 <= fetchInterval && fetchClock <= fetchInterval
    ensures fetchClock % fetchInterval == 0 <==> fetchClock == 0 || fetchClock == fetchInterval
  {
    if 0 < fetchClock < fetchInterval {
      assert fetchClock % fetchInterval == fetchClock;
    }
  }

  lemma SteadyIsSized(reader: Reader, k: nat)
    requires Steady(reader)
    ensures AllSized(reader) && Instruction(reader, k).Size() >= 1
  {
    assert reader(k).Ok?;
  }

  lemma SwappedMoves(
    reader: Reader, fetchSize: nat, fetchInterval: nat, stage: Stage, last: nat, link: Link<FetchPacket>)
    requires stage.passed <= stage.held <= stage.next <= last && 1 <= fetchInterval && 1 <= fetchSize
    requires stage.held - stage.passed < fetchSize && stage.fetchClock <= fetchInterval
    requires link == Link(Channel(fetchSize, [], []),
      Channel(fetchSize, Messages(reader, stage.next, last), Messages(reader, stage.held, stage.next)))
    ensures Swapped(Part(reader, 0, stage.passed), Core(Instruction(reader, last), last + 1),
        Clocked(fetchSize, fetchInterval, Entries(reader, stage.passed, stage.held), link, NewLink(fetchSize),
                stage.fetchClock))
      == State(reader, fetchSize, Moved(reader, fetchSize, fetchInterval, stage, last))
  {
    var memory := FetcherHalf(reader, fetchSize, fetchInterval, stage, link);
    PartsJoin(reader, 0, stage.passed, stage.held);
  }

  ghost function NextStage(reader: Reader, fetchSize: nat, fetchInterval: nat, stage: Stage): Stage
    requires Steady(reader) && stage.held <= stage.next
  {
    Moved(reader, fetchSize, fetchInterval, stage, LastSent(reader, stage))
  }

  lemma NextStageIsWithin(reader: Reader, fetchSize: nat, fetchInterval: nat, stage: Stage)
    requires Steady(reader) && Within(reader, fetchSize, fetchInterval, stage)
    requires 1 <= fetchInterval && 1 <= fetchSize
    ensures Within(reader, fetchSize, fetchInterval, NextStage(reader, fetchSize, fetchInterval, stage))
  {
    LastSentBounds(reader, fetchSize, stage);
  }

  // One cycle moves everything on by one place, in order.
  lemma CycleMoves(reader: Reader, fetchSize: nat, fetchInterval: nat, stage: Stage)
    requires Steady(reader) && Within(reader, fetchSize, fetchInterval, stage)
    requires 1 <= fetchInterval && 1 <= fetchSize
    ensures AllSized(reader) && Instruction(reader, stage.next).Size() >= 1
    ensures Cycle(reader, fetchSize, fetchInterval, State(reader, fetchSize, stage))
      == State(reader, fetchSize, NextStage(reader, fetchSize, fetchInterval, stage))
  {
    SteadyIsSized(reader, stage.next);
    var last, loop := LastSent(reader, stage), State(reader, fetchSize, stage);
    var response := Channel(fetchSize, [], Messages(reader, stage.held, stage.next));
    var link := Link(Channel(fetchSize, [], []), response.(sending := Messages(reader, stage.next, last)));
    assert ServeClock(reader, Served(loop.core, loop.link)) == Holding(reader, link, last) by {
      EngineHalf(reader, fetchSize, stage, response);
    }
    assert stage.held - stage.passed < fetchSize by {
      SizeCounts(reader, stage.passed, stage.held);
    }
    SwappedMoves(reader, fetchSize, fetchInterval, stage, last, link);
  }

  ghost function StageAfter(reader: Reader, fetchSize: nat, fetchInterval: nat, stage: Stage, cycles: nat)
    : (after: Stage)
    requires Steady(reader) && 1 <= fetchInterval && 1 <= fetchSize
    requires Within(reader, fetchSize, fetchInterval, stage)
    ensures Within(reader, fetchSize, fetchInterval, after)
    decreases cycles
  {
    if cycles == 0 then stage else
    NextStageIsWithin(reader, fetchSize, fetchInterval, stage);
    StageAfter(reader, fetchSize, fetchInterval, NextStage(reader, fetchSize, fetchInterval, stage), cycles - 1)
  }

  lemma {:induction false} LoopFollowsStages(
    reader: Reader, fetchSize: nat, fetchInterval: nat, stage: Stage, cycles: nat)
    requires Steady(reader) && Within(reader, fetchSize, fetchInterval, stage)
    requires 1 <= fetchInterval && 1 <= fetchSize
    ensures AllSized(reader) && Instruction(reader, stage.next).Size() >= 1
    ensures After(reader, fetchSize, fetchInterval, State(reader, fetchSize, stage), cycles)
      == State(reader, fetchSize, StageAfter(reader, fetchSize, fetchInterval, stage, cycles))
    decreases cycles
  {
    SteadyIsSized(reader, stage.next);
    if cycles != 0 {
      var next := NextStage(reader, fetchSize, fetchInterval, stage);
      assert Within(reader, fetchSize, fetchInterval, next) by {
        NextStageIsWithin(reader, fetchSize, fetchInterval, stage);
      }
      CycleMoves(reader, fetchSize, fetchInterval, stage);
      LoopFollowsStages(reader, fetchSize, fetchInterval, next, cycles - 1);
    }
  }

  // ------ The main results

  const START := Stage(0, 0, 0, None, 0)

  lemma StartIsWithin(reader: Reader, fetchSize: nat, fetchInterval: nat)
    requires 1 <= fetchSize
    ensures Within(reader, fetchSize, fetchInterval, START)
    ensures Start(reader, fetchSize) == State(reader, fetchSize, START)
  {
  }

  // The closed loop is safe for ever: the fetch buffer always has a free slot left, also
  // after all that is on its way has arrived; every request is for at least one byte and
  // at most fetchSize; nothing was dropped; and what the memory received is the trace so
  // far, in order and each instruction once, with the address of its successor.
  lemma TheLoopIsSafe(reader: Reader, fetchSize: nat, fetchInterval: nat, cycles: nat)
    requires Steady(reader) && 1 <= fetchInterval && 1 <= fetchSize
    ensures AllSized(reader) && Instruction(reader, 0).Size() >= 1
    ensures var loop := After(reader, fetchSize, fetchInterval, Start(reader, fetchSize), cycles);
      var passed := |loop.delivered|;
      var held := passed + |loop.buffered|;
      var next := held + |loop.link.response.readable|;
      && |loop.buffered| < fetchSize && |loop.link.response.readable| < fetchSize
      && (forall m :: m in loop.link.request.readable ==> m.Request? && 1 <= m.bytes <= fetchSize)
      && loop.delivered == Part(reader, 0, passed)
      && loop.buffered == Entries(reader, passed, held)
      && loop.link.response.readable == Messages(reader, held, next)
      && loop.core == Core(Instruction(reader, next), next + 1)
  {
    StartIsWithin(reader, fetchSize, fetchInterval);
    LoopFollowsStages(reader, fetchSize, fetchInterval, START, cycles);
    var stage := StageAfter(reader, fetchSize, fetchInterval, START, cycles);
    SizeCounts(reader, stage.passed, stage.held);
    SizeCounts(reader, stage.held, stage.next);
  }

  // ------ Progress

  lemma {:induction false} StagesCompose(
    reader: Reader, fetchSize: nat, fetchInterval: nat, stage: Stage, a: nat, b: nat)
    requires Steady(reader) && Within(reader, fetchSize, fetchInterval, stage)
    requires 1 <= fetchInterval && 1 <= fetchSize
    ensures StageAfter(reader, fetchSize, fetchInterval, StageAfter(reader, fetchSize, fetchInterval, stage, a), b)
      == StageAfter(reader, fetchSize, fetchInterval, stage, a + b)
    decreases a
  {
    if a != 0 {
      NextStageIsWithin(reader, fetchSize, fetchInterval, stage);
      StagesCompose(reader, fetchSize, fetchInterval, NextStage(reader, fetchSize, fetchInterval, stage), a - 1, b);
    }
  }

  // With nothing on its way the next request is for the whole fetchSize, and that is
  // enough for an instruction smaller than it.
  lemma {:induction false} AdvancesWhenIdle(reader: Reader, fetchSize: nat, fetchInterval: nat, stage: Stage)
    returns (cycles: nat)
    requires Steady(reader) && Within(reader, fetchSize, fetchInterval, stage)
    requires 1 <= fetchInterval && 1 <= fetchSize
    requires stage.held == stage.next && Instruction(reader, stage.next).Size() < fetchSize
    ensures stage.next < StageAfter(reader, fetchSize, fetchInterval, stage, cycles).next
    ensures cycles <= fetchInterval - stage.fetchClock + 2
    decreases fetchInterval - stage.fetchClock
  {
    var next := NextStage(reader, fetchSize, fetchInterval, stage);
    NextStageIsWithin(reader, fetchSize, fetchInterval, stage);
    if next.next > stage.next {
      cycles := 1;
      assert StageAfter(reader, fetchSize, fetchInterval, next, 0) == next;
    } else if IsDue(fetchInterval, stage) {
      assert Size(reader, stage.held, stage.next) == 0;
      LastSentBounds(reader, fetchSize, next);
      NextStageIsWithin(reader, fetchSize, fetchInterval, next);
      var second := NextStage(reader, fetchSize, fetchInterval, next);
      assert StageAfter(reader, fetchSize, fetchInterval, second, 0) == second;
      assert StageAfter(reader, fetchSize, fetchInterval, next, 1) == second;
      cycles := 2;
    } else {
      cycles := AdvancesWhenIdle(reader, fetchSize, fetchInterval, next);
      cycles := cycles + 1;
    }
  }

  // The engine sends an instruction smaller than fetchSize within fetchInterval + 3 cycles.
  lemma Advances(reader: Reader, fetchSize: nat, fetchInterval: nat, stage: Stage)
    returns (cycles: nat)
    requires Steady(reader) && Within(reader, fetchSize, fetchInterval, stage)
    requires 1 <= fetchInterval && 1 <= fetchSize && Instruction(reader, stage.next).Size() < fetchSize
    ensures stage.next < StageAfter(reader, fetchSize, fetchInterval, stage, cycles).next
    ensures cycles <= fetchInterval + 3
  {
    var next := NextStage(reader, fetchSize, fetchInterval, stage);
    NextStageIsWithin(reader, fetchSize, fetchInterval, stage);
    if next.next > stage.next {
      cycles := 1;
      assert StageAfter(reader, fetchSize, fetchInterval, next, 0) == next;
    } else {
      cycles := AdvancesWhenIdle(reader, fetchSize, fetchInterval, next);
      cycles := cycles + 1;
    }
  }

  ghost predicate AllFit(reader: Reader, fetchSize: nat, j: nat) {
    forall i :: 0 <= i <= j ==> Instruction(reader, i).Size() < fetchSize
  }

  lemma {:induction false} ReachesPast(reader: Reader, fetchSize: nat, fetchInterval: nat, stage: Stage, j: nat)
    returns (cycles: nat)
    requires Steady(reader) && Within(reader, fetchSize, fetchInterval, stage)
    requires 1 <= fetchInterval && 1 <= fetchSize && AllFit(reader, fetchSize, j)
    ensures j < StageAfter(reader, fetchSize, fetchInterval, stage, cycles).next
    decreases j - stage.next
  {
    if j < stage.next {
      cycles := 0;
    } else {
      var first := Advances(reader, fetchSize, fetchInterval, stage);
      var middle := StageAfter(reader, fetchSize, fetchInterval, stage, first);
      var second := ReachesPast(reader, fetchSize, fetchInterval, middle, j);
      cycles := first + second;
      StagesCompose(reader, fetchSize, fetchInterval, stage, first, second);
    }
  }

  // Two cycles later all that was on its way has reached the memory.
  lemma ArrivesInTwo(reader: Reader, fetchSize: nat, fetchInterval: nat, stage: Stage)
    requires Steady(reader) && Within(reader, fetchSize, fetchInterval, stage)
    requires 1 <= fetchInterval && 1 <= fetchSize
    ensures StageAfter(reader, fetchSize, fetchInterval, stage, 2).passed == stage.next
  {
    var next := NextStage(reader, fetchSize, fetchInterval, stage);
    NextStageIsWithin(reader, fetchSize, fetchInterval, stage);
    NextStageIsWithin(reader, fetchSize, fetchInterval, next);
    var second := NextStage(reader, fetchSize, fetchInterval, next);
    assert StageAfter(reader, fetchSize, fetchInterval, second, 0) == second;
    assert StageAfter(reader, fetchSize, fetchInterval, next, 1) == second;
  }

  // An instruction that is not smaller than fetchSize is never sent, nor any after it.
  lemma StopsBefore(reader: Reader, fetchSize: nat, stage: Stage, i: nat)
    requires Steady(reader) && 1 <= fetchSize
    requires stage.request.Some? ==> 1 <= stage.request.value <= fetchSize
    requires stage.next <= i && Instruction(reader, i).Size() >= fetchSize
    ensures LastSent(reader, stage) <= i
  {
    LastSentBounds(reader, fetchSize, stage);
    var last := LastSent(reader, stage);
    if last > i {
      SizesJoin(reader, stage.next, i + 1, last);
    }
  }

  lemma {:induction false} NeverPasses(
    reader: Reader, fetchSize: nat, fetchInterval: nat, stage: Stage, i: nat, cycles: nat)
    requires Steady(reader) && Within(reader, fetchSize, fetchInterval, stage)
    requires 1 <= fetchInterval && 1 <= fetchSize
    requires stage.next <= i && Instruction(reader, i).Size() >= fetchSize
    ensures StageAfter(reader, fetchSize, fetchInterval, stage, cycles).next <= i
    decreases cycles
  {
    if cycles != 0 {
      NextStageIsWithin(reader, fetchSize, fetchInterval, stage);
      StopsBefore(reader, fetchSize, stage, i);
      NeverPasses(reader, fetchSize, fetchInterval, NextStage(reader, fetchSize, fetchInterval, stage), i, cycles - 1);
    }
  }

  ghost predicate EventuallyDelivered(reader: Reader, fetchSize: nat, fetchInterval: nat, j: nat)
    requires AllSized(reader) && Instruction(reader, 0).Size() >= 1 && 1 <= fetchInterval
  {
    exists cycles ::
      |After(reader, fetchSize, fetchInterval, Start(reader, fetchSize), cycles).delivered| > j
  }

  lemma DeliveredWhenItFits(reader: Reader, fetchSize: nat, fetchInterval: nat, j: nat) returns (cycles: nat)
    requires Steady(reader) && 1 <= fetchInterval && 1 <= fetchSize && AllFit(reader, fetchSize, j)
    ensures AllSized(reader) && Instruction(reader, 0).Size() >= 1
    ensures |After(reader, fetchSize, fetchInterval, Start(reader, fetchSize), cycles).delivered| > j
  {
    StartIsWithin(reader, fetchSize, fetchInterval);
    cycles := ReachesPast(reader, fetchSize, fetchInterval, START, j);
    ArrivesInTwo(reader, fetchSize, fetchInterval, StageAfter(reader, fetchSize, fetchInterval, START, cycles));
    StagesCompose(reader, fetchSize, fetchInterval, START, cycles, 2);
    cycles := cycles + 2;
    LoopFollowsStages(reader, fetchSize, fetchInterval, START, cycles);
  }

  lemma NotDeliveredOtherwise(reader: Reader, fetchSize: nat, fetchInterval: nat, i: nat, cycles: nat)
    requires Steady(reader) && 1 <= fetchInterval && 1 <= fetchSize
    requires Instruction(reader, i).Size() >= fetchSize
    ensures AllSized(reader) && Instruction(reader, 0).Size() >= 1
    ensures |After(reader, fetchSize, fetchInterval, Start(reader, fetchSize), cycles).delivered| <= i
  {
    StartIsWithin(reader, fetchSize, fetchInterval);
    NeverPasses(reader, fetchSize, fetchInterval, START, i, cycles);
    LoopFollowsStages(reader, fetchSize, fetchInterval, START, cycles);
  }

  // When the loop makes progress: an instruction reaches the memory exactly when it and
  // all before it are strictly smaller than fetchSize.
  lemma DeliveredIffEverythingFits(reader: Reader, fetchSize: nat, fetchInterval: nat, j: nat)
    requires Steady(reader) && 1 <= fetchInterval && 1 <= fetchSize
    ensures AllSized(reader) && Instruction(reader, 0).Size() >= 1
    ensures EventuallyDelivered(reader, fetchSize, fetchInterval, j) <==> AllFit(reader, fetchSize, j)
  {
    SteadyIsSized(reader, 0);
    if AllFit(reader, fetchSize, j) {
      var cycles := DeliveredWhenItFits(reader, fetchSize, fetchInterval, j);
    } else {
      var i :| 0 <= i <= j && Instruction(reader, i).Size() >= fetchSize;
      forall cycles: nat
        ensures |After(reader, fetchSize, fetchInterval, Start(reader, fetchSize), cycles).delivered| <= j
      {
        NotDeliveredOtherwise(reader, fetchSize, fetchInterval, i, cycles);
      }
    }
  }

  // ------ A reader that has nothing to give

  // What n sends in a row carry, when the reader neither ends nor fails.
  function SentBuffers(reader: Reader, core: Core, n: nat): (sent: seq<InstructionPacket>)
    ensures |sent| == n
    decreases n
  {
    if n == 0 then [] else [core.buffer] + SentBuffers(reader, Advance(reader, core), n - 1)
  }

  function Delivered(reader: Reader, from: nat, n: nat): (packets: seq<InstructionPacket>)
    ensures |packets| <= n
    decreases n
  {
    if n == 0 then [] else
    (if reader(from).Ok? then [reader(from).packet] else []) + Delivered(reader, from + 1, n - 1)
  }

  // After a Nop the engine keeps the instruction it has sent and sends it again: the
  // instructions are sent once each exactly while the reader answers Ok.
  lemma {:induction false} SentOnceIffNoNop(reader: Reader, core: Core, n: nat)
    requires forall k :: core.calls <= k < core.calls + n ==> reader(k).Ok? || reader(k).Nop?
    ensures SentBuffers(reader, core, n + 1) == [core.buffer] + Delivered(reader, core.calls, n)
      <==> forall k :: core.calls <= k < core.calls + n ==> reader(k).Ok?
    decreases n
  {
    if n != 0 {
      var next := Advance(reader, core);
      SentOnceIffNoNop(reader, next, n - 1);
      assert SentBuffers(reader, core, n + 1) == [core.buffer] + SentBuffers(reader, next, n);
      if reader(core.calls).Ok? {
        assert SentBuffers(reader, core, n + 1)[1..] == SentBuffers(reader, next, n);
        assert ([core.buffer] + Delivered(reader, core.calls, n))[1..] == Delivered(reader, core.calls, n);
        assert Delivered(reader, core.calls, n) == [next.buffer] + Delivered(reader, next.calls, n - 1);
      }
    }
  }
}
