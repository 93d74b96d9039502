// What a DelayQueue does over a whole simulation: every message it accepts leaves
// exactly `delay` cycles later, in order, and none is lost while no cycle brings more
// than `throughput` of them.
module ExactDelay {
  import opened Wrappers
  import opened Linkables
  import opened DelayQueues

  // A simulation of n cycles. `inboxes[c]` are the connections as they stand when the
  // component is clocked in cycle c; the connection to the receiver is swapped between
  // cycles, so each clock finds it empty on the sending side.
  datatype Trace<M> = Trace(
    queue: seq<Input<M>>,
    accepted: seq<seq<M>>,  // what there was room for, cycle by cycle
    sent: seq<seq<M>>)      // what the receiver finds in the cycle after

  function FirstFew<M>(messages: seq<M>, n: int): seq<M> {
    if n <= 0 then [] else if n <= |messages| then messages[..n] else messages
  }

  function Next<M>(delay: nat, throughput: nat, capacity: nat, before: Trace<M>, inbox: seq<Link<M>>): (trace: Trace<M>)
    ensures |trace.accepted| == |before.accepted| + 1
    ensures |trace.sent| == |before.sent| + 1
  {
    var clock := |before.accepted| + 1;
    var held := Held(before.queue, NewLink(throughput));
    var after := OneClock(held, inbox, clock, delay, capacity).0;
    var accepted := FirstFew(Waiting(inbox), capacity - |Undelivered(before.queue, clock)|);
    Trace(after.queue, before.accepted + [accepted], before.sent + [after.out.request.sending])
  }

  function Simulate<M>(delay: nat, throughput: nat, capacity: nat, inboxes: seq<seq<Link<M>>>): (trace: Trace<M>)
    ensures |trace.accepted| == |trace.sent| == |inboxes|
    decreases |inboxes|
  {
    if inboxes == [] then Trace([], [], []) else
    var n := |inboxes| - 1;
    Next(delay, throughput, capacity, Simulate(delay, throughput, capacity, inboxes[..n]), inboxes[n])
  }

  // ------ One clock in closed form

  lemma {:induction false} ForwardAllForwardsTheDue<M>(queue: seq<Input<M>>, clock: nat, link: Link<M>)
    ensures ForwardAll(queue, clock, link).0 == Undelivered(queue, clock)
    ensures ForwardAll(queue, clock, link).1
      == link.(request := PutAll(link.request, Delivered(queue, clock)))
    decreases |queue|
  {
    if IsDue(queue, clock) {
      ForwardAllForwardsTheDue(queue[1..], clock, link.SendRequest(queue[0].elem));
      DeliverOne(queue[0], queue[1..], clock);
      assert queue == [queue[0]] + queue[1..];
      assert Delivered(queue, clock)[1..] == Delivered(queue[1..], clock);
    }
  }

  lemma {:induction false} PutAllKeepsTheFirst<M>(channel: Channel<M>, messages: seq<M>)
    requires channel.capacity == 0 || |channel.sending| <= channel.capacity
    ensures PutAll(channel, messages)
      == channel.(sending := FirstOf(channel.sending + messages, channel.capacity))
    decreases |messages|
  {
    if messages == [] {
      assert channel.sending + messages == channel.sending;
    } else {
      PutAllKeepsTheFirst(channel.Put(messages[0]), messages[1..]);
      FirstOfPut(channel, messages[0], messages[1..]);
      assert messages == [messages[0]] + messages[1..];
    }
  }

  // The part of Waiting that AcceptAll still has before it at connection `i`.
  function WaitingFrom<M>(links: seq<Link<M>>, i: nat): seq<M> {
    if i <= |links| then Waiting(links[i..]) else []
  }

  lemma WaitingStep<M>(links: seq<Link<M>>, i: nat)
    requires i < |links|
    ensures WaitingFrom(links, i) == links[i].request.readable + WaitingFrom(links, i + 1)
    ensures links[i].request.readable != [] ==>
      WaitingFrom(links, i)
        == [links[i].request.readable[0]] + WaitingFrom(links[i := links[i].GetRequest()], i)
  {
    var rest := links[i := links[i].GetRequest()];
    assert links[i..][0] == links[i] && links[i..][1..] == links[i + 1..];
    assert rest[i..][0] == rest[i] && rest[i..][1..] == links[i + 1..];
  }

  // Queueing messages one by one until the queue is full.
  function Fill<M>(queue: seq<Input<M>>, messages: seq<M>, removeAt: nat, capacity: nat): seq<Input<M>>
    decreases |messages|
  {
    if messages == [] || |queue| == capacity then queue
    else Fill(queue + [Input(messages[0], removeAt)], messages[1..], removeAt, capacity)
  }

  lemma {:induction false} FillAppends<M>(queue: seq<Input<M>>, messages: seq<M>, removeAt: nat, capacity: nat)
    requires |queue| <= capacity
    ensures Fill(queue, messages, removeAt, capacity)
      == queue + Stamped(FirstFew(messages, capacity - |queue|), removeAt)
    decreases |messages|
  {
    if messages != [] && |queue| < capacity {
      FillAppends(queue + [Input(messages[0], removeAt)], messages[1..], removeAt, capacity);
      assert FirstFew(messages, capacity - |queue|)
        == [messages[0]] + FirstFew(messages[1..], capacity - |queue| - 1);
    }
  }

  lemma {:induction false} AcceptAllFills<M>(
    held: Held<M>, links: seq<Link<M>>, i: nat, clock: nat, delay: nat, capacity: nat)
    requires 1 <= delay && i <= |links|
    ensures AcceptAll(held, links, i, clock, delay, capacity).0
      == Held(Fill(held.queue, WaitingFrom(links, i), clock + delay, capacity), held.out)
    decreases |links| - i, if i < |links| then |links[i].request.readable| else 0
  {
    if i < |links| {
      WaitingStep(links, i);
      if links[i].request.readable == [] {
        AcceptAllFills(held, links, i + 1, clock, delay, capacity);
        assert WaitingFrom(links, i) == WaitingFrom(links, i + 1);
      } else if |held.queue| != capacity {
        var next := held.(queue := held.queue + [Input(links[i].request.readable[0], clock + delay)]);
        var rest := links[i := links[i].GetRequest()];
        AcceptAllFills(next, rest, i, clock, delay, capacity);
        assert WaitingFrom(links, i)[1..] == WaitingFrom(rest, i);
      }
    }
  }

  lemma {:induction false} AcceptAllPassesOn<M>(held: Held<M>, links: seq<Link<M>>, i: nat, clock: nat, capacity: nat)
    requires i <= |links|
    requires held.out.request.capacity == 0 || |held.out.request.sending| <= held.out.request.capacity
    ensures AcceptAll(held, links, i, clock, 0, capacity).0
      == Held(held.queue, held.out.(request := PutAll(held.out.request, WaitingFrom(links, i))))
    decreases |links| - i, if i < |links| then |links[i].request.readable| else 0
  {
    if i < |links| {
      WaitingStep(links, i);
      if links[i].request.readable == [] {
        AcceptAllPassesOn(held, links, i + 1, clock, capacity);
        assert WaitingFrom(links, i) == WaitingFrom(links, i + 1);
      } else if !held.out.request.IsFull() {
        var message := links[i].request.readable[0];
        AcceptAllPassesOn(
          held.(out := held.out.SendRequest(message)), links[i := links[i].GetRequest()], i, clock, capacity);
        assert WaitingFrom(links, i)[1..] == WaitingFrom(links[i := links[i].GetRequest()], i);
      } else {
        PutAllKeepsTheFirst(held.out.request, WaitingFrom(links, i));
        var sending := held.out.request.sending;
        assert (sending + WaitingFrom(links, i))[..|sending|] == sending;
      }
    }
  }

  // ------ What is taken off the connections

  // How many more messages can be held or passed on.
  function RoomFor<M>(held: Held<M>, delay: nat, capacity: nat): Option<nat> {
    var out := held.out.request;
    if delay >= 1 then Some(if |held.queue| <= capacity then capacity - |held.queue| else 0)
    else if out.capacity == 0 then None
    else Some(if |out.sending| <= out.capacity then out.capacity - |out.sending| else 0)
  }

  // Of so many waiting messages those for which there is room are taken off their
  // connections, and one more: it is refused and lost.
  function TakenOff(room: Option<nat>, waiting: nat): nat {
    if room.None? || waiting <= room.value then waiting else room.value + 1
  }

  ghost predicate SameButRequests<M>(one: Link<M>, other: Link<M>) {
    one == other.(request := other.request.(readable := one.request.readable))
  }

  lemma OfferTakesRoom<M>(held: Held<M>, message: M, clock: nat, delay: nat, capacity: nat)
    requires delay >= 1 ==> |held.queue| <= capacity
    requires held.out.request.capacity == 0 || |held.out.request.sending| <= held.out.request.capacity
    ensures match Offer(held, message, clock, delay, capacity)
      case None => RoomFor(held, delay, capacity) == Some(0)
      case Some(next) =>
        && (delay >= 1 ==> |next.queue| <= capacity)
        && (next.out.request.capacity == 0 || |next.out.request.sending| <= next.out.request.capacity)
        && match RoomFor(held, delay, capacity)
           case None => RoomFor(next, delay, capacity) == None
           case Some(room) => room >= 1 && RoomFor(next, delay, capacity) == Some(room - 1)
  {
  }

  lemma {:induction false} OthersAsTheyWere<M>(
    held: Held<M>, links: seq<Link<M>>, i: nat, clock: nat, delay: nat, capacity: nat)
    ensures var rest := AcceptAll(held, links, i, clock, delay, capacity).1;
      && |rest| == |links| && (forall j :: 0 <= j < |links| && j < i ==> rest[j] == links[j])
      && (forall j :: 0 <= j < |links| ==> SameButRequests(rest[j], links[j]))
    decreases |links| - i, if i < |links| then |links[i].request.readable| else 0
  {
    if i < |links| {
      if links[i].request.readable == [] {
        OthersAsTheyWere(held, links, i + 1, clock, delay, capacity);
      } else {
        match Offer(held, links[i].request.readable[0], clock, delay, capacity)
        case None =>
        case Some(next) =>
          OthersAsTheyWere(next, links[i := links[i].GetRequest()], i, clock, delay, capacity);
      }
    }
  }

  // Messages are taken off in the order of the connections; those behind a refused one stay
  // unread.
  lemma {:induction false} TakesInOrder<M>(
    held: Held<M>, links: seq<Link<M>>, i: nat, clock: nat, delay: nat, capacity: nat)
    requires i <= |links| && (delay >= 1 ==> |held.queue| <= capacity)
    requires held.out.request.capacity == 0 || |held.out.request.sending| <= held.out.request.capacity
    ensures var rest := AcceptAll(held, links, i, clock, delay, capacity).1;
      var waiting := WaitingFrom(links, i);
      WaitingFrom(rest, i) == waiting[TakenOff(RoomFor(held, delay, capacity), |waiting|)..]
    decreases |links| - i, if i < |links| then |links[i].request.readable| else 0
  {
    if i < |links| {
      WaitingStep(links, i);
      OthersAsTheyWere(held, links, i, clock, delay, capacity);
      if links[i].request.readable == [] {
        TakesInOrder(held, links, i + 1, clock, delay, capacity);
        OthersAsTheyWere(held, links, i + 1, clock, delay, capacity);
        NoneHere(links, i);
        NoneHere(AcceptAll(held, links, i + 1, clock, delay, capacity).1, i);
      } else {
        var message, after := links[i].request.readable[0], links[i := links[i].GetRequest()];
        assert WaitingFrom(links, i)[1..] == WaitingFrom(after, i);
        OfferTakesRoom(held, message, clock, delay, capacity);
        match Offer(held, message, clock, delay, capacity)
        case None =>
        case Some(next) =>
          TakesInOrder(next, after, i, clock, delay, capacity);
          OneBefore(message, WaitingFrom(after, i), TakenOff(RoomFor(next, delay, capacity), |WaitingFrom(after, i)|));
      }
    }
  }

  lemma NoneHere<M>(links: seq<Link<M>>, i: nat)
    requires i < |links| && links[i].request.readable == []
    ensures WaitingFrom(links, i) == WaitingFrom(links, i + 1)
  {
    WaitingStep(links, i);
  }

  lemma OneBefore<T>(first: T, rest: seq<T>, n: nat)
    requires n <= |rest|
    ensures ([first] + rest)[n + 1..] == rest[n..]
  {
  }

  // ------ The backlog

  // The messages accepted from cycle `from` on, each with its cycle of removal.
  function Backlog<M>(accepted: seq<seq<M>>, from: nat, delay: nat): seq<Input<M>>
    decreases |accepted| - from
  {
    if from >= |accepted| then []
    else Stamped(accepted[from], from + 1 + delay) + Backlog(accepted, from + 1, delay)
  }

  lemma {:induction false} BacklogSnoc<M>(accepted: seq<seq<M>>, last: seq<M>, from: nat, delay: nat)
    requires from <= |accepted|
    ensures Backlog(accepted + [last], from, delay)
      == Backlog(accepted, from, delay) + Stamped(last, |accepted| + 1 + delay)
    decreases |accepted| - from
  {
    if from < |accepted| {
      BacklogSnoc(accepted, last, from + 1, delay);
    } else {
      assert Backlog(accepted + [last], from + 1, delay) == [];
    }
  }

  // Sorted by cycle of removal, and nothing is due before its time.
  lemma {:induction false} BacklogOrdered<M>(accepted: seq<seq<M>>, from: nat, delay: nat)
    ensures forall i :: 0 <= i < |Backlog(accepted, from, delay)| ==>
      from + 1 + delay <= Backlog(accepted, from, delay)[i].removeAt <= |accepted| + delay
    ensures forall i, j :: 0 <= i < j < |Backlog(accepted, from, delay)| ==>
      Backlog(accepted, from, delay)[i].removeAt <= Backlog(accepted, from, delay)[j].removeAt
    decreases |accepted| - from
  {
    if from < |accepted| {
      BacklogOrdered(accepted, from + 1, delay);
    }
  }

  lemma NothingDue<M>(queue: seq<Input<M>>, clock: nat)
    requires !IsDue(queue, clock)
    ensures Delivered(queue, clock) == [] && Undelivered(queue, clock) == queue
  {
  }

  lemma {:induction false} NotYetDue<M>(accepted: seq<seq<M>>, from: nat, delay: nat, clock: nat)
    requires clock <= from + delay
    ensures !IsDue(Backlog(accepted, from, delay), clock)
    decreases |accepted| - from
  {
    if from < |accepted| {
      NotYetDue(accepted, from + 1, delay, clock);
    }
  }

  lemma {:induction false} DueExactly<M>(due: seq<M>, removeAt: nat, rest: seq<Input<M>>)
    requires !IsDue(rest, removeAt)
    ensures Delivered(Stamped(due, removeAt) + rest, removeAt) == due
    ensures Undelivered(Stamped(due, removeAt) + rest, removeAt) == rest
  {
    var queue := Stamped(due, removeAt) + rest;
    if due == [] {
      assert queue == rest;
      NothingDue(rest, removeAt);
    } else {
      DueExactly(due[1..], removeAt, rest);
      assert queue == [Input(due[0], removeAt)] + (Stamped(due[1..], removeAt) + rest);
      DeliverOne(Input(due[0], removeAt), Stamped(due[1..], removeAt) + rest, removeAt);
    }
  }

  function Oldest(cycles: nat, delay: nat): nat {
    if cycles < delay then 0 else cycles - delay
  }

  // What is due at clock n + 1 is exactly what was accepted `delay` clocks earlier.
  lemma BacklogDue<M>(accepted: seq<seq<M>>, delay: nat)
    requires 1 <= delay
    ensures var n := |accepted|; var queue := Backlog(accepted, Oldest(n, delay), delay);
      && Delivered(queue, n + 1) == (if n < delay then [] else accepted[n - delay])
      && Undelivered(queue, n + 1) == Backlog(accepted, Oldest(n + 1, delay), delay)
  {
    var n := |accepted|;
    if n < delay {
      NotYetDue(accepted, 0, delay, n + 1);
      NothingDue(Backlog(accepted, 0, delay), n + 1);
    } else {
      BacklogFront(accepted, delay, n - delay);
    }
  }

  lemma BacklogFront<M>(accepted: seq<seq<M>>, delay: nat, c: nat)
    requires c < |accepted|
    ensures Delivered(Backlog(accepted, c, delay), c + 1 + delay) == accepted[c]
    ensures Undelivered(Backlog(accepted, c, delay), c + 1 + delay) == Backlog(accepted, c + 1, delay)
  {
    NotYetDue(accepted, c + 1, delay, c + 1 + delay);
    DueExactly(accepted[c], c + 1 + delay, Backlog(accepted, c + 1, delay));
  }

  // ------ The main results

  // The state after any simulation, cycle by cycle.
  ghost predicate Exact<M>(delay: nat, throughput: nat, trace: Trace<M>) {
    && |trace.accepted| == |trace.sent|
    && trace.queue == Backlog(trace.accepted, Oldest(|trace.accepted|, delay), delay)
    && forall c :: 0 <= c < |trace.sent| ==>
      trace.sent[c] == Expected(trace, c, delay, throughput)
  }

  // What must leave in cycle `c`: what was accepted `delay` cycles before, up to what
  // the receiver takes in one cycle.
  ghost function Expected<M>(trace: Trace<M>, c: nat, delay: nat, throughput: nat): seq<M>
    requires c < |trace.accepted|
  {
    if c < delay then [] else FirstOf(trace.accepted[c - delay], throughput)
  }

  // One clock in closed form: what is due leaves, as much as the receiver takes, and
  // what arrives joins, as much as there is room for.
  lemma OneClockInClosedForm<M>(
    queue: seq<Input<M>>, out: Link<M>, inbox: seq<Link<M>>, clock: nat, delay: nat, capacity: nat)
    requires 1 <= delay && |queue| <= capacity && out.request.sending == []
    ensures var pending := Undelivered(queue, clock);
      OneClock(Held(queue, out), inbox, clock, delay, capacity).0 == Held(
        pending + Stamped(FirstFew(Waiting(inbox), capacity - |pending|), clock + delay),
        out.(request := out.request.(sending := FirstOf(Delivered(queue, clock), out.request.capacity))))
  {
    var pending := Undelivered(queue, clock);
    ForwardAllForwardsTheDue(queue, clock, out);
    PutAllKeepsTheFirst(out.request, Delivered(queue, clock));
    assert [] + Delivered(queue, clock) == Delivered(queue, clock);
    assert inbox[0..] == inbox;
    AcceptAllFills(Held(pending, ForwardAll(queue, clock, out).1), inbox, 0, clock, delay, capacity);
    FillAppends(pending, Waiting(inbox), clock + delay, capacity);
  }

  lemma NextInClosedForm<M>(delay: nat, throughput: nat, capacity: nat, before: Trace<M>, inbox: seq<Link<M>>)
    returns (accepted: seq<M>)
    requires 1 <= delay && 1 <= throughput
    requires |before.queue| <= capacity
    ensures var clock := |before.accepted| + 1;
      var pending := Undelivered(before.queue, clock);
      && accepted == FirstFew(Waiting(inbox), capacity - |pending|)
      && Next(delay, throughput, capacity, before, inbox) == Trace(
        pending + Stamped(accepted, clock + delay),
        before.accepted + [accepted],
        before.sent + [FirstOf(Delivered(before.queue, clock), throughput)])
  {
    var clock, out := |before.accepted| + 1, NewLink(throughput);
    var pending := Undelivered(before.queue, clock);
    accepted := FirstFew(Waiting(inbox), capacity - |pending|);
    var held := Held(pending + Stamped(accepted, clock + delay),
      out.(request := out.request.(sending := FirstOf(Delivered(before.queue, clock), out.request.capacity))));
    assert OneClock(Held(before.queue, out), inbox, clock, delay, capacity).0 == held by {
      OneClockInClosedForm(before.queue, out, inbox, clock, delay, capacity);
    }
  }

  lemma ExactExtends<M>(delay: nat, throughput: nat, before: Trace<M>, accepted: seq<M>)
    requires 1 <= delay && Exact(delay, throughput, before)
    ensures var clock := |before.accepted| + 1;
      Exact(delay, throughput, Trace(
        Undelivered(before.queue, clock) + Stamped(accepted, clock + delay),
        before.accepted + [accepted],
        before.sent + [FirstOf(Delivered(before.queue, clock), throughput)]))
  {
    var clock := |before.accepted| + 1;
    BacklogDue(before.accepted, delay);
    BacklogSnoc(before.accepted, accepted, Oldest(clock, delay), delay);
  }

  lemma ExactStep<M>(delay: nat, throughput: nat, capacity: nat, before: Trace<M>, inbox: seq<Link<M>>)
    requires 1 <= delay && 1 <= throughput
    requires Exact(delay, throughput, before) && |before.queue| <= capacity
    ensures Exact(delay, throughput, Next(delay, throughput, capacity, before, inbox))
    ensures |Next(delay, throughput, capacity, before, inbox).queue| <= capacity
  {
    var accepted := NextInClosedForm(delay, throughput, capacity, before, inbox);
    ExactExtends(delay, throughput, before, accepted);
  }

  lemma {:induction false} SimulationIsExact<M>(delay: nat, throughput: nat, capacity: nat, inboxes: seq<seq<Link<M>>>)
    requires 1 <= delay && 1 <= throughput
    ensures Exact(delay, throughput, Simulate(delay, throughput, capacity, inboxes))
    ensures |Simulate(delay, throughput, capacity, inboxes).queue| <= capacity
    decreases |inboxes|
  {
    if inboxes != [] {
      var n := |inboxes| - 1;
      SimulationIsExact(delay, throughput, capacity, inboxes[..n]);
      ExactStep(delay, throughput, capacity, Simulate(delay, throughput, capacity, inboxes[..n]), inboxes[n]);
    }
  }

  // The promised delay. Whatever arrives, whatever the capacity: what was accepted in
  // cycle c is what is forwarded in cycle c + delay, in the same order, and it reaches
  // the receiver whole exactly when it does not exceed the throughput.
  lemma DelayIsExact<M>(delay: nat, throughput: nat, capacity: nat, inboxes: seq<seq<Link<M>>>, c: nat)
    requires 1 <= delay && 1 <= throughput && c < |inboxes|
    ensures var trace := Simulate(delay, throughput, capacity, inboxes);
      && (c < delay ==> trace.sent[c] == [])
      && (c + delay < |inboxes| ==> trace.sent[c + delay] == FirstOf(trace.accepted[c], throughput))
      && (c + delay < |inboxes| ==>
        (trace.sent[c + delay] == trace.accepted[c] <==> |trace.accepted[c]| <= throughput))
  {
    SimulationIsExact(delay, throughput, capacity, inboxes);
  }

  // Between clocks the queue holds exactly the messages accepted in the last `delay`
  // cycles, sorted by a cycle of removal in (clock, clock + delay].
  lemma QueueIsSorted<M>(delay: nat, throughput: nat, capacity: nat, inboxes: seq<seq<Link<M>>>)
    requires 1 <= delay && 1 <= throughput
    ensures var queue := Simulate(delay, throughput, capacity, inboxes).queue; var clock := |inboxes|;
      && (forall i :: 0 <= i < |queue| ==> clock < queue[i].removeAt <= clock + delay)
      && (forall i, j :: 0 <= i < j < |queue| ==> queue[i].removeAt <= queue[j].removeAt)
  {
    SimulationIsExact(delay, throughput, capacity, inboxes);
    var trace := Simulate(delay, throughput, capacity, inboxes);
    BacklogOrdered(trace.accepted, Oldest(|inboxes|, delay), delay);
  }

  // delay * throughput, kept out of the solver's nonlinear arithmetic.
  function Times(a: nat, b: nat): nat {
    if a == 0 then 0 else b + Times(a - 1, b)
  }

  lemma {:induction false} TimesIsProduct(a: nat, b: nat)
    ensures Times(a, b) == a * b
  {
    if a != 0 {
      TimesIsProduct(a - 1, b);
      assert a * b == b + (a - 1) * b;
    }
  }

  lemma {:induction false} TimesMonotone(a: nat, b: nat, c: nat)
    requires a <= b
    ensures Times(a, c) <= Times(b, c)
  {
    if a != 0 {
      TimesMonotone(a - 1, b - 1, c);
    }
  }

  lemma {:induction false} BacklogBound<M>(accepted: seq<seq<M>>, from: nat, delay: nat, throughput: nat)
    requires from <= |accepted|
    requires forall c :: from <= c < |accepted| ==> |accepted[c]| <= throughput
    ensures |Backlog(accepted, from, delay)| <= Times(|accepted| - from, throughput)
    decreases |accepted| - from
  {
    if from < |accepted| {
      BacklogBound(accepted, from + 1, delay, throughput);
    }
  }

  lemma AcceptsAll<M>(delay: nat, throughput: nat, capacity: nat, before: Trace<M>, inbox: seq<Link<M>>)
    requires 1 <= delay && 1 <= throughput
    requires |before.queue| <= capacity - throughput && |Waiting(inbox)| <= throughput
    ensures Next(delay, throughput, capacity, before, inbox).accepted == before.accepted + [Waiting(inbox)]
  {
    var accepted := NextInClosedForm(delay, throughput, capacity, before, inbox);
    assert accepted == Waiting(inbox);
  }

  ghost predicate Modest<M>(throughput: nat, inboxes: seq<seq<Link<M>>>) {
    forall c :: 0 <= c < |inboxes| ==> |Waiting(inboxes[c])| <= throughput
  }

  ghost predicate AllAccepted<M>(accepted: seq<seq<M>>, inboxes: seq<seq<Link<M>>>) {
    && |accepted| == |inboxes|
    && forall c :: 0 <= c < |inboxes| ==> accepted[c] == Waiting(inboxes[c])
  }

  lemma ModestQueue<M>(delay: nat, throughput: nat, capacity: nat, inboxes: seq<seq<Link<M>>>)
    requires 1 <= delay && 1 <= throughput && Modest(throughput, inboxes)
    requires AllAccepted(Simulate(delay, throughput, capacity, inboxes).accepted, inboxes)
    ensures |Simulate(delay, throughput, capacity, inboxes).queue| <= Times(delay, throughput)
  {
    SimulationIsExact(delay, throughput, capacity, inboxes);
    var accepted := Simulate(delay, throughput, capacity, inboxes).accepted;
    var oldest := Oldest(|accepted|, delay);
    BacklogBound(accepted, oldest, delay, throughput);
    TimesMonotone(|accepted| - oldest, delay, throughput);
  }

  lemma {:induction false} NothingIsRefused<M>(
    delay: nat, throughput: nat, capacity: nat, inboxes: seq<seq<Link<M>>>)
    requires 1 <= delay && 1 <= throughput && Times(delay, throughput) + throughput <= capacity
    requires Modest(throughput, inboxes)
    ensures AllAccepted(Simulate(delay, throughput, capacity, inboxes).accepted, inboxes)
    decreases |inboxes|
  {
    if inboxes != [] {
      var n := |inboxes| - 1;
      NothingIsRefused(delay, throughput, capacity, inboxes[..n]);
      ModestQueue(delay, throughput, capacity, inboxes[..n]);
      AcceptsAll(delay, throughput, capacity, Simulate(delay, throughput, capacity, inboxes[..n]), inboxes[n]);
    }
  }

  // The buffer size computed by SetDelayBufferSize is enough: while no cycle brings
  // more than `throughput` messages, none is refused, at most delay * throughput are
  // ever held, and every one of them reaches the receiver `delay` cycles later.
  lemma NothingIsLost<M>(delay: nat, throughput: nat, capacity: nat, inboxes: seq<seq<Link<M>>>, c: nat)
    requires 1 <= delay && 1 <= throughput && capacity == DelayBufferSize(delay, throughput) + 1
    requires Modest(throughput, inboxes)
    ensures AllAccepted(Simulate(delay, throughput, capacity, inboxes).accepted, inboxes)
    ensures |Simulate(delay, throughput, capacity, inboxes).queue| <= delay * throughput
    ensures c + delay < |inboxes| ==>
      Simulate(delay, throughput, capacity, inboxes).sent[c + delay] == Waiting(inboxes[c])
  {
    TimesIsProduct(delay, throughput);
    NothingIsRefused(delay, throughput, capacity, inboxes);
    ModestQueue(delay, throughput, capacity, inboxes);
    if c + delay < |inboxes| {
      DelayIsExact(delay, throughput, capacity, inboxes, c);
    }
  }

  lemma NextWithoutDelay<M>(throughput: nat, capacity: nat, before: Trace<M>, inbox: seq<Link<M>>)
    requires before.queue == []
    ensures var after := Next(0, throughput, capacity, before, inbox);
      after.queue == [] && after.sent == before.sent + [FirstOf(Waiting(inbox), throughput)]
  {
    var link := NewLink<M>(throughput);
    AcceptAllPassesOn(Held([], link), inbox, 0, |before.accepted| + 1, capacity);
    PutAllKeepsTheFirst(link.request, Waiting(inbox));
    assert inbox[0..] == inbox;
    assert [] + Waiting(inbox) == Waiting(inbox);
  }

  // A queue without delay passes on, in the cycle in which it arrives, as much as the
  // throughput allows; with throughput 0 that is everything.
  lemma {:induction false} NoDelayPassesOn<M>(throughput: nat, capacity: nat, inboxes: seq<seq<Link<M>>>)
    ensures Simulate(0, throughput, capacity, inboxes).queue == []
    ensures forall c :: 0 <= c < |inboxes| ==>
      Simulate(0, throughput, capacity, inboxes).sent[c] == FirstOf(Waiting(inboxes[c]), throughput)
    decreases |inboxes|
  {
    if inboxes != [] {
      var n := |inboxes| - 1;
      NoDelayPassesOn(throughput, capacity, inboxes[..n]);
      NextWithoutDelay(throughput, capacity, Simulate(0, throughput, capacity, inboxes[..n]), inboxes[n]);
    }
  }

  // ------ The component itself

  lemma {:induction false} AcceptingOnlySends<M>(
    held: Held<M>, links: seq<Link<M>>, i: nat, clock: nat, delay: nat, capacity: nat)
    ensures var out := AcceptAll(held, links, i, clock, delay, capacity).0.out;
      out == held.out.(request := held.out.request.(sending := out.request.sending))
    decreases |links| - i, if i < |links| then |links[i].request.readable| else 0
  {
    if i < |links| {
      if links[i].request.readable == [] {
        AcceptingOnlySends(held, links, i + 1, clock, delay, capacity);
      } else {
        var rest := links[i := links[i].GetRequest()];
        match Offer(held, links[i].request.readable[0], clock, delay, capacity)
        case None =>
        case Some(next) => AcceptingOnlySends(next, rest, i, clock, delay, capacity);
      }
    }
  }

  lemma ClockOnlySends<M>(queue: seq<Input<M>>, throughput: nat, links: seq<Link<M>>, clock: nat, delay: nat,
      capacity: nat)
    ensures var out := OneClock(Held(queue, NewLink(throughput)), links, clock, delay, capacity).0.out;
      out == Link(Channel(throughput, out.request.sending, []), Channel(throughput, [], []))
  {
    var held := Held(queue, NewLink(throughput));
    if delay >= 1 {
      ForwardAllForwardsTheDue(queue, clock, held.out);
      PutAllKeepsTheFirst(held.out.request, Delivered(queue, clock));
      var (left, out) := ForwardAll(queue, clock, held.out);
      AcceptingOnlySends(Held(left, out), links, 0, clock, delay, capacity);
      assert OneClock(held, links, clock, delay, capacity)
        == AcceptAll(Held(left, out), links, 0, clock, delay, capacity);
    } else {
      AcceptingOnlySends(held, links, 0, clock, delay, capacity);
    }
  }

  // A cycle of the component: it is clocked, its receiver is swapped and takes what came.
  method OneCycle<M(0)>(component: DelayQueue<M>, ghost before: Trace<M>)
    returns (received: seq<M>, ghost after: Trace<M>)
    requires component.Valid() && before.queue == component.Queue()
    requires |before.accepted| == component.cyclesClock && |component.sendTo.Links| == 1
    requires component.sendTo.Links[0] == NewLink(component.throughput)
    modifies component, component.delayBuffer.Repr, component.port.Repr, component.sendTo.Repr
    ensures component.Valid() && after.queue == component.Queue()
    ensures |after.accepted| == component.cyclesClock && component.sendTo.Links == old(component.sendTo.Links)
    ensures after == Next(component.delay, component.throughput, component.delayBufferSize + 1, before,
                          old(component.port.Links))
    ensures received == after.sent[|before.sent|]
  {
    ClockOnlySends(before.queue, component.throughput, component.port.Links, component.cyclesClock + 1,
                   component.delay, component.delayBufferSize + 1);
    component.Clock();
    component.sendTo.PosClock();
    received := TakeAll(component.sendTo);
    after := Next(component.delay, component.throughput, component.delayBufferSize + 1, before,
                  old(component.port.Links));
  }
}
