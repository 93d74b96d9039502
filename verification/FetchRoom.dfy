// The loop of engine and fetcher under any reader, also one that answers Nop, ends or
// fails: nothing that is sent is ever dropped.
module FetchRoom {
  import opened Wrappers
  import opened Linkables
  import opened Packets
  import opened Engines
  import opened Fetchers
  import opened FetchLoop

  // ------ What the engine sends

  function CoreAfter(reader: Reader, core: Core, n: nat): Core
    decreases n
  {
    if n == 0 then core else CoreAfter(reader, Advance(reader, core), n - 1)
  }

  // The packets of the first n calls of the reader: one for every call.
  function SentFrom(reader: Reader, core: Core, n: nat): (sent: seq<InstructionPacket>)
    ensures |sent| == n
    decreases n
  {
    if n == 0 then [] else [Sent(reader, core)] + SentFrom(reader, Advance(reader, core), n - 1)
  }

  lemma {:induction false} SendingJoins(reader: Reader, core: Core, a: nat, b: nat)
    ensures CoreAfter(reader, core, a + b) == CoreAfter(reader, CoreAfter(reader, core, a), b)
    ensures SentFrom(reader, core, a + b) == SentFrom(reader, core, a) + SentFrom(reader, CoreAfter(reader, core, a), b)
    decreases a
  {
    if a == 0 {
      NothingBefore(SentFrom(reader, core, b));
    } else {
      SendingJoins(reader, Advance(reader, core), a - 1, b);
    }
  }

  // ------ Packets on their way

  function Replies(packets: seq<InstructionPacket>): (messages: seq<FetchPacket>) {
    seq(|packets|, i requires 0 <= i < |packets| => Response(packets[i]))
  }

  function Unsent(packets: seq<InstructionPacket>): (entries: seq<FetchBufferEntry>) {
    seq(|packets|, i requires 0 <= i < |packets| => FetchBufferEntry(packets[i], false))
  }

  function SizeOf(packets: seq<InstructionPacket>): nat {
    if packets == [] then 0 else SizeOf(packets[..|packets| - 1]) + packets[|packets| - 1].Size()
  }

  ghost predicate TakeSpace(packets: seq<InstructionPacket>) {
    forall k :: 0 <= k < |packets| ==> packets[k].Size() >= 1
  }

  lemma {:induction false} NoMoreThanBytes(packets: seq<InstructionPacket>)
    requires TakeSpace(packets)
    ensures |packets| <= SizeOf(packets)
  {
    if packets != [] {
      NoMoreThanBytes(packets[..|packets| - 1]);
    }
  }

  lemma {:induction false} BytesOfUnsent(packets: seq<InstructionPacket>)
    ensures Bytes(Unsent(packets)) == SizeOf(packets)
  {
    if packets != [] {
      BytesOfUnsent(packets[..|packets| - 1]);
      assert Unsent(packets)[..|packets| - 1] == Unsent(packets[..|packets| - 1]);
    }
  }

  lemma {:induction false} RepliesArrive(packets: seq<InstructionPacket>)
    ensures Arrived(Replies(packets)) == Unsent(packets)
  {
    if packets != [] {
      RepliesArrive(packets[1..]);
      assert Replies(packets)[1..] == Replies(packets[1..]);
      assert Unsent(packets) == [FetchBufferEntry(packets[0], false)] + Unsent(packets[1..]);
    }
  }

  // ------ The engine's half

  function Holding(link: Link<FetchPacket>, sent: seq<InstructionPacket>): Link<FetchPacket> {
    link.(response := link.response.(sending := Replies(sent)))
  }

  lemma OneIsSent(reader: Reader, core: Core, link: Link<FetchPacket>, before: seq<InstructionPacket>)
    requires link.response.capacity == 0 || |before| < link.response.capacity
    ensures SendOne(reader, Served(core, Holding(link, before)))
      == Served(Advance(reader, core), Holding(link, before + [Sent(reader, core)]))
  {
    assert Replies(before + [Sent(reader, core)]) == Replies(before) + [Response(Sent(reader, core))];
  }

  lemma OneThenMore(reader: Reader, core: Core, before: seq<InstructionPacket>, more: nat)
    ensures before + [Sent(reader, core)] + SentFrom(reader, Advance(reader, core), more)
      == before + SentFrom(reader, core, more + 1)
  {
  }

  // The bytes of the packets of the first n calls.
  function SizeFrom(reader: Reader, core: Core, n: nat): nat
    decreases n
  {
    if n == 0 then 0 else core.buffer.Size() + SizeFrom(reader, Advance(reader, core), n - 1)
  }

  lemma {:induction false} SentTakesSpace(reader: Reader, core: Core, n: nat)
    requires AllSized(reader) && core.buffer.Size() >= 1
    ensures TakeSpace(SentFrom(reader, core, n)) && CoreAfter(reader, core, n).buffer.Size() >= 1
    decreases n
  {
    if n > 0 {
      assert Sized(reader(core.calls));
      SentTakesSpace(reader, Advance(reader, core), n - 1);
    }
  }

  lemma {:induction false} SizeOfSent(reader: Reader, core: Core, n: nat)
    ensures SizeOf(SentFrom(reader, core, n)) == SizeFrom(reader, core, n)
    decreases n
  {
    if n > 0 {
      var next := Advance(reader, core);
      SizeOfSent(reader, next, n - 1);
      SizeOfOneBefore(Sent(reader, core), SentFrom(reader, next, n - 1));
    }
  }

  lemma {:induction false} SizeOfOneBefore(packet: InstructionPacket, packets: seq<InstructionPacket>)
    ensures SizeOf([packet] + packets) == packet.Size() + SizeOf(packets)
    decreases |packets|
  {
    if packets == [] {
      assert [packet] + packets == [packet] && SizeOf([packet]) == SizeOf([]) + packet.Size();
    } else {
      var last := |packets| - 1;
      SizeOfOneBefore(packet, packets[..last]);
      assert ([packet] + packets)[..last + 1] == [packet] + packets[..last];
    }
  }

  lemma OneIsSentAtLeast(reader: Reader, core: Core, link: Link<FetchPacket>, before: seq<InstructionPacket>,
      weight: int, bytes: int)
    requires AllSized(reader) && core.buffer.Size() >= 1
    requires |before| < link.response.capacity && weight < bytes
    ensures var next, sent := Advance(reader, core), before + [Sent(reader, core)];
      && next.buffer.Size() >= 1
      && SendUpTo(reader, Served(core, Holding(link, before)), weight, bytes)
        == if Stops(reader(core.calls)) then Served(next, Holding(link, sent))
           else SendUpTo(reader, Served(next, Holding(link, sent)), weight + next.buffer.Size(), bytes)
  {
    OneIsSent(reader, core, link, before);
    assert Sized(reader(core.calls));
  }

  // Sending goes on, over any Nop, until the next packet would not fit in the request or the
  // reader has come to the end or failed.
  ghost predicate GoesOnToTheEnd(reader: Reader, core: Core, used: nat, bytes: int, more: nat) {
    && (forall k :: core.calls <= k < core.calls + more - 1 ==> reader(k).Ok? || reader(k).Nop?)
    && (used + SizeFrom(reader, core, more) + CoreAfter(reader, core, more).buffer.Size() >= bytes
      || (more >= 1 && (reader(core.calls + more - 1).End? || reader(core.calls + more - 1).Error?)))
  }

  lemma OneMoreGoesOn(reader: Reader, core: Core, used: nat, bytes: int, more: nat)
    requires reader(core.calls).Ok? || reader(core.calls).Nop?
    requires GoesOnToTheEnd(reader, Advance(reader, core), used + core.buffer.Size(), bytes, more)
    ensures GoesOnToTheEnd(reader, core, used, bytes, more + 1)
  {
  }

  // The packets that are sent in answer to a request take fewer bytes than it asks for, so
  // that there is room for all of them: `used` bytes were sent before.
  lemma {:induction false} SendsWithinTheRequest(reader: Reader, core: Core, link: Link<FetchPacket>,
      before: seq<InstructionPacket>, used: nat, bytes: int) returns (more: nat)
    requires AllSized(reader) && core.buffer.Size() >= 1
    requires |before| <= used < bytes <= link.response.capacity
    ensures used + SizeFrom(reader, core, more) < bytes
    ensures GoesOnToTheEnd(reader, core, used, bytes, more)
    ensures SendUpTo(reader, Served(core, Holding(link, before)), used + core.buffer.Size(), bytes)
      == Served(CoreAfter(reader, core, more), Holding(link, before + SentFrom(reader, core, more)))
    decreases bytes - used
  {
    var weight := used + core.buffer.Size();
    more := 0;
    if weight >= bytes {
      assert before + [] == before;
    } else {
      var next, sent := Advance(reader, core), before + [Sent(reader, core)];
      OneIsSentAtLeast(reader, core, link, before, weight, bytes);
      if Stops(reader(core.calls)) {
        assert sent + [] == sent;
      } else {
        more := SendsWithinTheRequest(reader, next, link, sent, weight, bytes);
        OneMoreGoesOn(reader, core, used, bytes, more);
      }
      OneThenMore(reader, core, before, more);
      more := more + 1;
    }
  }

  // One clock of the engine.
  lemma EngineSends(reader: Reader, core: Core, fetchSize: nat, request: Option<int>, coming: seq<InstructionPacket>)
      returns (more: nat)
    requires AllSized(reader) && core.buffer.Size() >= 1 && 1 <= fetchSize
    requires request.Some? ==> 1 <= request.value <= fetchSize
    ensures var sent := SentFrom(reader, core, more);
      && TakeSpace(sent) && SizeOf(sent) < fetchSize && CoreAfter(reader, core, more).buffer.Size() >= 1
      && ServeClock(reader, Served(core,
          Link(Channel(fetchSize, [], Requests(request)), Channel(fetchSize, [], Replies(coming)))))
        == Served(CoreAfter(reader, core, more),
          Link(Channel(fetchSize, [], []), Channel(fetchSize, Replies(sent), Replies(coming))))
  {
    var link := Link(Channel(fetchSize, [], []), Channel(fetchSize, [], Replies(coming)));
    RequestIsTaken(reader, core, fetchSize, request, coming);
    more := 0;
    if request.Some? {
      more := SendsWithinTheRequest(reader, core, link, [], 0, request.value);
      NothingBefore(SentFrom(reader, core, more));
    }
    SizeOfSent(reader, core, more);
    assert TakeSpace(SentFrom(reader, core, more)) && CoreAfter(reader, core, more).buffer.Size() >= 1 by {
      SentTakesSpace(reader, core, more);
    }
  }

  lemma RequestIsTaken(reader: Reader, core: Core, fetchSize: nat, request: Option<int>, coming: seq<InstructionPacket>)
    requires AllSized(reader) && core.buffer.Size() >= 1 && (request.Some? ==> 1 <= request.value)
    ensures var link := Link(Channel(fetchSize, [], []), Channel(fetchSize, [], Replies(coming)));
      Holding(link, []) == link
      && ServeClock(reader, Served(core, link.(request := Channel(fetchSize, [], Requests(request)))))
        == match request
          case None => Served(core, link)
          case Some(bytes) => SendUpTo(reader, Served(core, link), core.buffer.Size(), bytes)
  {
    assert request.Some? ==> Requests(request)[1..] == [];
  }

  // ------ The fetcher's half

  lemma AllIsPassedOn(held: seq<InstructionPacket>, fetchSize: nat)
    requires |held| < fetchSize
    ensures var (marked, memory) := SendFrom(Unsent(held), NewLink(fetchSize), SentPrefix(Unsent(held), 0));
      marked[SentPrefix(marked, 0)..] == [] && memory.request.sending == held
  {
    assert SentPrefix(Unsent(held), 0) == 0;
    assert held[..0] == [];
    var marked := FetcherSendsAll(Unsent(held), held, NewLink(fetchSize), 0);
    AllSent(marked, 0);
  }

  function Asking(fetchSize: nat, fetchInterval: nat, coming: seq<InstructionPacket>, fetchClock: nat): Option<int>
    requires 1 <= fetchInterval
  {
    if fetchClock % fetchInterval == 0 then Some(fetchSize - SizeOf(coming)) else None
  }

  // One clock of the fetcher.
  lemma FetcherPassesOn(fetchSize: nat, fetchInterval: nat, held: seq<InstructionPacket>,
      coming: seq<InstructionPacket>, sent: seq<InstructionPacket>, fetchClock: nat)
      returns (memory: Link<InstructionPacket>)
    requires 1 <= fetchSize && 1 <= fetchInterval && |held| < fetchSize
    ensures memory.request.sending == held
    ensures Clocked(fetchSize, fetchInterval, Unsent(held),
        Link(Channel(fetchSize, [], []), Channel(fetchSize, Replies(sent), Replies(coming))), NewLink(fetchSize),
        fetchClock)
      == (Unsent(coming),
          Link(Channel(fetchSize, Requests(Asking(fetchSize, fetchInterval, coming, fetchClock)), []),
               Channel(fetchSize, Replies(sent), [])),
          memory, if fetchClock % fetchInterval == 0 then 1 else fetchClock + 1)
  {
    var link := Link(Channel(fetchSize, [], []), Channel(fetchSize, Replies(sent), Replies(coming)));
    AllIsPassedOn(held, fetchSize);
    memory := SendFrom(Unsent(held), NewLink(fetchSize), SentPrefix(Unsent(held), 0)).1;
    RepliesArrive(coming);
    BytesOfUnsent(coming);
    NothingBefore(Unsent(coming));
    SendIntoEmpty(link, fetchSize - SizeOf(coming));
  }

  // ------ A memory with less room

  // The entries of these packets, the first `sent` of which are sent already.
  function PartlySent(packets: seq<InstructionPacket>, sent: nat): (entries: seq<FetchBufferEntry>) {
    seq(|packets|, i requires 0 <= i < |packets| => FetchBufferEntry(packets[i], i < sent))
  }

  function RoomIn(memory: Link<InstructionPacket>, wanted: nat): nat {
    var channel := memory.request;
    if channel.capacity == 0 || channel.capacity - |channel.sending| >= wanted then wanted
    else if channel.capacity <= |channel.sending| then 0
    else channel.capacity - |channel.sending|
  }

  lemma {:induction false} PrefixIsSent(packets: seq<InstructionPacket>, sent: nat, i: nat)
    requires i <= sent <= |packets|
    ensures SentPrefix(PartlySent(packets, sent), i) == sent
    decreases sent - i
  {
    if i < sent {
      PrefixIsSent(packets, sent, i + 1);
    }
  }

  lemma {:induction false} SendsWhatFits(packets: seq<InstructionPacket>, memory: Link<InstructionPacket>, sent: nat)
    requires sent <= |packets| && (memory.request.capacity == 0 || |memory.request.sending| <= memory.request.capacity)
    ensures var more := RoomIn(memory, |packets| - sent);
      SendFrom(PartlySent(packets, sent), memory, sent)
        == (PartlySent(packets, sent + more),
            memory.(request := memory.request.(sending := memory.request.sending + packets[sent..sent + more])))
    decreases |packets| - sent
  {
    var entries := PartlySent(packets, sent);
    if sent == |packets| || memory.request.IsFull() {
      assert memory.request.sending + packets[sent..sent] == memory.request.sending;
    } else {
      var next := memory.SendRequest(packets[sent]);
      assert entries[sent := entries[sent].(sentToMemory := true)] == PartlySent(packets, sent + 1);
      SendsWhatFits(packets, next, sent + 1);
      var more := RoomIn(next, |packets| - sent - 1);
      assert [packets[sent]] + packets[sent + 1..sent + 1 + more] == packets[sent..sent + 1 + more];
      assert memory.request.sending + packets[sent..sent + 1 + more]
        == next.request.sending + packets[sent + 1..sent + 1 + more];
    }
  }

  // One clock of the fetcher with a memory that takes only some: of the buffered packets as
  // many are passed on, in order, as there is room for; the others stay buffered, not sent,
  // before those that arrive.
  lemma KeepsWhatDoesNotFit(fetchSize: nat, fetchInterval: nat, held: seq<InstructionPacket>,
      coming: seq<InstructionPacket>, link: Link<FetchPacket>, memory: Link<InstructionPacket>, fetchClock: nat)
    requires 1 <= fetchInterval && link.response.readable == Replies(coming)
    requires memory.request.capacity == 0 || |memory.request.sending| <= memory.request.capacity
    ensures var (fetched, after, passedTo, clock) :=
        Clocked(fetchSize, fetchInterval, Unsent(held), link, memory, fetchClock);
      var more := RoomIn(memory, |held|);
      && fetched == Unsent(held[more..] + coming)
      && passedTo.request.sending == memory.request.sending + held[..more]
      && after.response.readable == []
      && (fetchClock % fetchInterval != 0 ==> after.request == link.request)
      && (fetchClock % fetchInterval == 0 ==>
        after.request == link.request.Put(Request(fetchSize - SizeOf(held[more..] + coming))))
  {
    var more := RoomIn(memory, |held|);
    assert Unsent(held) == PartlySent(held, 0);
    PrefixIsSent(held, 0, 0);
    SendsWhatFits(held, memory, 0);
    PrefixIsSent(held, more, 0);
    assert PartlySent(held, more)[more..] == Unsent(held[more..]);
    RepliesArrive(coming);
    assert Unsent(held[more..]) + Unsent(coming) == Unsent(held[more..] + coming);
    BytesOfUnsent(held[more..] + coming);
    assert held[0..0 + more] == held[..more];
  }

  // ------ Both together

  // Between two cycles: what is in the fetch buffer and what is on its way to it.
  ghost predicate Roomy(reader: Reader, start: Core, fetchSize: nat, loop: Loop, calls: nat, request: Option<int>,
      held: seq<InstructionPacket>, coming: seq<InstructionPacket>)
  {
    && loop.core == CoreAfter(reader, start, calls) && loop.core.buffer.Size() >= 1
    && loop.link == Link(Channel(fetchSize, [], Requests(request)), Channel(fetchSize, [], Replies(coming)))
    && (request.Some? ==> 1 <= request.value <= fetchSize)
    && loop.buffered == Unsent(held)
    && TakeSpace(held) && SizeOf(held) < fetchSize && TakeSpace(coming) && SizeOf(coming) < fetchSize
    && loop.delivered + (held + coming) == SentFrom(reader, start, calls)
  }

  lemma Shift<T>(delivered: seq<T>, held: seq<T>, coming: seq<T>, sent: seq<T>)
    ensures delivered + held + (coming + sent) == delivered + (held + coming) + sent
  {
  }

  lemma CycleIsRoomy(reader: Reader, start: Core, fetchSize: nat, fetchInterval: nat, loop: Loop, calls: nat,
      request: Option<int>, held: seq<InstructionPacket>, coming: seq<InstructionPacket>)
      returns (more: nat, next: Option<int>)
    requires AllSized(reader) && 1 <= fetchSize && 1 <= fetchInterval
    requires Roomy(reader, start, fetchSize, loop, calls, request, held, coming)
    ensures Roomy(reader, start, fetchSize, Cycle(reader, fetchSize, fetchInterval, loop), calls + more, next,
      coming, SentFrom(reader, loop.core, more))
  {
    more := EngineSends(reader, loop.core, fetchSize, request, coming);
    var sent := SentFrom(reader, loop.core, more);
    NoMoreThanBytes(held);
    var memory := FetcherPassesOn(fetchSize, fetchInterval, held, coming, sent, loop.fetchClock);
    next := Asking(fetchSize, fetchInterval, coming, loop.fetchClock);
    SendingJoins(reader, start, calls, more);
    Shift(loop.delivered, held, coming, sent);
  }

  lemma {:induction false} LoopIsRoomy(reader: Reader, start: Core, fetchSize: nat, fetchInterval: nat, loop: Loop,
      calls: nat, request: Option<int>, held: seq<InstructionPacket>, coming: seq<InstructionPacket>, cycles: nat)
      returns (total: nat, last: Option<int>, buffered: seq<InstructionPacket>, onTheWay: seq<InstructionPacket>)
    requires AllSized(reader) && 1 <= fetchSize && 1 <= fetchInterval
    requires Roomy(reader, start, fetchSize, loop, calls, request, held, coming)
    ensures Roomy(reader, start, fetchSize, After(reader, fetchSize, fetchInterval, loop, cycles), total, last,
      buffered, onTheWay)
    decreases cycles
  {
    if cycles == 0 {
      total, last, buffered, onTheWay := calls, request, held, coming;
    } else {
      var more, next := CycleIsRoomy(reader, start, fetchSize, fetchInterval, loop, calls, request, held, coming);
      total, last, buffered, onTheWay := LoopIsRoomy(reader, start, fetchSize, fetchInterval,
        Cycle(reader, fetchSize, fetchInterval, loop), calls + more, next, coming, SentFrom(reader, loop.core, more),
        cycles - 1);
    }
  }

  function InstructionOf(message: FetchPacket): InstructionPacket {
    if message.Response? then message.instruction else BLANK_PACKET
  }

  // All packets on the way to the memory, oldest first.
  function OnTheWay(loop: Loop): seq<InstructionPacket> {
    loop.delivered
      + (seq(|loop.buffered|, i requires 0 <= i < |loop.buffered| => loop.buffered[i].instruction)
        + seq(|loop.link.response.readable|, i requires 0 <= i < |loop.link.response.readable| =>
          InstructionOf(loop.link.response.readable[i])))
  }

  lemma StartIsRoomy(reader: Reader, fetchSize: nat)
    requires Instruction(reader, 0).Size() >= 1 && 1 <= fetchSize
    ensures Roomy(reader, Core(Instruction(reader, 0), 1), fetchSize, Start(reader, fetchSize), 0, None, [], [])
  {
  }

  lemma RoomyHasRoom(reader: Reader, start: Core, fetchSize: nat, loop: Loop, calls: nat, request: Option<int>,
      held: seq<InstructionPacket>, coming: seq<InstructionPacket>)
    requires Roomy(reader, start, fetchSize, loop, calls, request, held, coming)
    ensures |loop.buffered| < fetchSize && |loop.link.response.readable| < fetchSize
    ensures forall m :: m in loop.link.request.readable ==> m.Request? && 1 <= m.bytes <= fetchSize
    ensures OnTheWay(loop) == SentFrom(reader, start, |OnTheWay(loop)|)
    ensures loop.core == CoreAfter(reader, start, |OnTheWay(loop)|)
  {
    NoMoreThanBytes(held);
    NoMoreThanBytes(coming);
    assert OnTheWay(loop) == loop.delivered + (held + coming) by {
      assert seq(|held|, i requires 0 <= i < |held| => loop.buffered[i].instruction) == held;
      assert seq(|coming|, i requires 0 <= i < |coming| => InstructionOf(loop.link.response.readable[i])) == coming;
    }
  }

  // For ever, and whatever the reader answers: the fetch buffer and the connection have a
  // slot left, every request is for at least one byte and at most fetchSize, and nothing is
  // dropped: delivered, buffered or on its way is exactly one packet for every call of the
  // reader, in the order of the calls.
  lemma NothingIsDropped(reader: Reader, fetchSize: nat, fetchInterval: nat, cycles: nat)
    requires AllSized(reader) && Instruction(reader, 0).Size() >= 1 && 1 <= fetchSize && 1 <= fetchInterval
    ensures var loop, start := After(reader, fetchSize, fetchInterval, Start(reader, fetchSize), cycles),
        Core(Instruction(reader, 0), 1);
      && |loop.buffered| < fetchSize && |loop.link.response.readable| < fetchSize
      && (forall m :: m in loop.link.request.readable ==> m.Request? && 1 <= m.bytes <= fetchSize)
      && OnTheWay(loop) == SentFrom(reader, start, |OnTheWay(loop)|)
      && loop.core == CoreAfter(reader, start, |OnTheWay(loop)|)
  {
    var first, start := Start(reader, fetchSize), Core(Instruction(reader, 0), 1);
    StartIsRoomy(reader, fetchSize);
    var calls, request, held, coming :=
      LoopIsRoomy(reader, start, fetchSize, fetchInterval, first, 0, None, [], [], cycles);
    RoomyHasRoom(reader, start, fetchSize, After(reader, fetchSize, fetchInterval, first, cycles), calls, request,
                 held, coming);
  }
}
