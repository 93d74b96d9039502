// Why the order in which the engine clocks the components cannot matter
// (src/engine/engine.cpp:247-258): between two buffer swaps, operations of two
// different components touch different ends of every connection and commute.
module CycleConfluence {
  import opened Wrappers
  import opened Linkables

  datatype Operation<M> =
    | Idle
    | SendRequest(id: nat, message: M)
    | GetRequest(id: nat)
    | SendResponse(id: nat, message: M)
    | GetResponse(id: nat)
    | IsAvailable(id: nat)

  datatype Outcome<M> = Nothing | Status(failed: bool) | Received(message: Option<M>)

  // A connection: what it holds, and how large its rings for requests are.
  datatype Wire<M> = Wire(link: Link<M>, sizes: Sizes) {
    function Swap(): Wire<M> {
      Wire(link.Swap(), sizes.Swap())
    }
  }

  function NewWire<M>(bufferSize: nat): Wire<M> {
    Wire(NewLink(bufferSize), NewSizes(bufferSize))
  }

  // What an operation does to its connection, ...
  function Effect<M>(link: Link<M>, operation: Operation<M>): Link<M> {
    match operation
    case Idle => link
    case SendRequest(_, message) => link.SendRequest(message)
    case GetRequest(_) => link.GetRequest()
    case SendResponse(_, message) => link.SendResponse(message)
    case GetResponse(_) => link.GetResponse()
    case IsAvailable(_) => link
  }

  // ... and what it reports back.
  function Report<M>(wire: Wire<M>, operation: Operation<M>): Outcome<M> {
    var link := wire.link;
    match operation
    case Idle => Nothing
    case SendRequest(_, _) => Status(link.request.IsFull())
    case GetRequest(_) => Received(link.request.Head())
    case SendResponse(_, _) => Status(link.response.IsFull())
    case GetResponse(_) => Received(link.response.Head())
    case IsAvailable(_) => Status(|link.request.sending| != wire.sizes.sending)
  }

  function ApplyToWire<M>(wire: Wire<M>, operation: Operation<M>): (Wire<M>, Outcome<M>) {
    var sizes := if operation.SendRequest? then Grown(wire.link.request, wire.sizes) else wire.sizes;
    (Wire(Effect(wire.link, operation), sizes), Report(wire, operation))
  }

  // The same among the connections of the whole system. An operation on a connection
  // that does not exist does nothing.
  function Apply<M>(links: seq<Wire<M>>, operation: Operation<M>): (seq<Wire<M>>, Outcome<M>) {
    if operation.Idle? || operation.id >= |links| then (links, Nothing) else
    var (wire, outcome) := ApplyToWire(links[operation.id], operation);
    (links[operation.id := wire], outcome)
  }

  function SwapWires<M>(links: seq<Wire<M>>): seq<Wire<M>> {
    seq(|links|, i requires 0 <= i < |links| => links[i].Swap())
  }

  // ------ The operations are those of the components

  function Paired<M>(links: seq<Link<M>>, sizes: seq<Sizes>): seq<Wire<M>>
    requires |links| == |sizes|
  {
    seq(|links|, i requires 0 <= i < |links| => Wire(links[i], sizes[i]))
  }

  ghost function Wires<M(0)>(component: Linkable<M>): (wires: seq<Wire<M>>)
    requires component.Valid()
    reads component, component.Repr
    ensures |wires| == |component.Links|
  {
    Paired(component.Links, component.RingSizes)
  }

  // An operation is a call of the component that owns the connections.
  method Perform<M(0)>(component: Linkable<M>, operation: Operation<M>) returns (outcome: Outcome<M>)
    requires component.Valid()
    modifies component.Repr
    ensures component.Valid() && fresh(component.Repr - old(component.Repr))
    ensures (Wires(component), outcome) == Apply(old(Wires(component)), operation)
  {
    outcome := Nothing;
    if operation.Idle? || operation.id >= component.NumberOfConnections() {
      return;
    }
    match operation {
      case SendRequest(id, message) =>
        var failed := component.SendRequest(id, message);
        outcome := Status(failed);
      case GetRequest(id) =>
        var message := component.GetRequest(id);
        outcome := Received(message);
      case SendResponse(id, message) =>
        var failed := component.SendResponse(id, message);
        outcome := Status(failed);
      case GetResponse(id) =>
        var message := component.GetResponse(id);
        outcome := Received(message);
      case IsAvailable(id) =>
        var available := component.IsConnectionAvailable(id);
        outcome := Status(available);
    }
    assert Wires(component) == Apply(old(Wires(component)), operation).0;
  }

  // The end of a cycle is a call as well.
  method EndCycle<M(0)>(component: Linkable<M>)
    requires component.Valid()
    modifies component.Repr
    ensures component.Valid() && Wires(component) == SwapWires(old(Wires(component)))
  {
    component.PosClock();
  }

  // ------ Receiving

  // The outcomes of so many requests to receive, one after the other.
  function Receive<M>(links: seq<Wire<M>>, operation: Operation<M>, count: nat): (seq<Wire<M>>, seq<Outcome<M>>) {
    if count == 0 then (links, [])
    else
      var (before, outcomes) := Receive(links, operation, count - 1);
      var (after, outcome) := Apply(before, operation);
      (after, outcomes + [outcome])
  }

  // Each message is received once and in order, and then there is nothing.
  lemma {:induction false} ReceivedOnce<M>(links: seq<Wire<M>>, id: nat, count: nat)
    requires id < |links|
    ensures var waiting, (after, outcomes) := links[id].link.request.readable, Receive(links, GetRequest(id), count);
      && |after| == |links| && |outcomes| == count
      && after[id].link.request.readable == (if count <= |waiting| then waiting[count..] else [])
      && forall k :: 0 <= k < count ==> outcomes[k] == Received(if k < |waiting| then Some(waiting[k]) else None)
  {
    if count > 0 {
      ReceivedOnce(links, id, count - 1);
    }
  }

  lemma {:induction false} AnsweredOnce<M>(links: seq<Wire<M>>, id: nat, count: nat)
    requires id < |links|
    ensures var waiting, (after, outcomes) := links[id].link.response.readable, Receive(links, GetResponse(id), count);
      && |after| == |links| && |outcomes| == count
      && after[id].link.response.readable == (if count <= |waiting| then waiting[count..] else [])
      && forall k :: 0 <= k < count ==> outcomes[k] == Received(if k < |waiting| then Some(waiting[k]) else None)
  {
    if count > 0 {
      AnsweredOnce(links, id, count - 1);
    }
  }

  // What is sent on a connection by either end is what can be read behind the swap.
  lemma SentIsReadable<M>(links: seq<Wire<M>>, id: nat, message: M)
    requires id < |links| && links[id].link == NewLink(links[id].link.request.capacity)
    ensures SwapWires(Apply(links, SendRequest(id, message)).0)[id].link.request.readable == [message]
    ensures SwapWires(Apply(links, SendResponse(id, message)).0)[id].link.response.readable == [message]
    ensures Apply(links, SendRequest(id, message)).1 == Apply(links, SendResponse(id, message)).1 == Status(false)
    ensures Apply(links, Idle) == Apply(links, GetRequest(|links|)) == (links, Nothing)
  {
    assert [] + [message] == [message];
  }

  // ------ What is said to be available

  // A ring with a bound never changes its size.
  predicate Sized<M>(wire: Wire<M>) {
    var capacity, sending := wire.link.request.capacity, wire.link.request.sending;
    && |sending| <= wire.sizes.sending && |wire.link.request.readable| <= wire.sizes.readable
    && (capacity != 0 ==> wire.sizes == Sizes(capacity, capacity))
    && 1 <= wire.sizes.sending && 1 <= wire.sizes.readable
  }

  lemma NewWireIsSized<M>(bufferSize: nat)
    ensures Sized(NewWire<M>(bufferSize))
  {
  }

  lemma StaysSized<M>(wire: Wire<M>, operation: Operation<M>)
    requires Sized(wire)
    ensures Sized(ApplyToWire(wire, operation).0) && Sized(wire.Swap())
  {
  }

  // On a connection with a bound a request is said to be possible exactly when it is. On
  // one without, every request is possible, and is said not to be exactly when the ring is
  // full as large as it is.
  lemma AvailableIffRoom<M>(wire: Wire<M>, id: nat, message: M)
    requires Sized(wire)
    ensures var available := Report(wire, IsAvailable(id)) == Status(true);
      var possible := Report(wire, SendRequest(id, message)) == Status(false);
      if wire.link.request.capacity != 0 then available <==> possible
      else possible && (!available <==> |wire.link.request.sending| == wire.sizes.sending)
  {
  }

  // The requests of one cycle.
  function Sent<M>(wire: Wire<M>, message: M, count: nat): Wire<M> {
    if count == 0 then wire else ApplyToWire(Sent(wire, message, count - 1), SendRequest(0, message)).0
  }

  // A new connection without a bound, behind eight requests: a ninth is said not to be
  // possible, and is.
  lemma BusyWithRoomLeft<M>(message: M)
    ensures var wire := Sent(NewWire(0), message, 8);
      && Report(wire, IsAvailable(0)) == Status(false)
      && Report(wire, SendRequest(0, message)) == Status(false)
  {
    RingsDouble(message, 8);
  }

  // The ninth request doubles the ring, the seventeenth doubles it again.
  lemma {:induction false} RingsDouble<M>(message: M, count: nat)
    requires count <= 17
    ensures var wire := Sent(NewWire(0), message, count);
      && wire.sizes.sending == (if count <= 8 then 8 else if count <= 16 then 16 else 32)
      && wire.link.request.capacity == 0 && |wire.link.request.sending| == count
  {
    if count > 0 {
      RingsDouble(message, count - 1);
    }
  }

  // A component as the sequence of operations it issues: the next one depends on its
  // local state, and its local state on everything it was told so far.
  datatype Behaviour<!S, !M> = Behaviour(next: S -> Operation<M>, resume: (S, Outcome<M>) -> S)

  // Who sends requests on a connection, and who answers them.
  datatype Ends = Ends(requester: nat, responder: nat)

  datatype System<!S, !M> = System(behaviours: seq<Behaviour<S, M>>, locals: seq<S>, links: seq<Wire<M>>) {
    ghost predicate Valid() {
      |behaviours| == |locals|
    }
  }

  predicate OfRequester<M>(operation: Operation<M>) {
    operation.SendRequest? || operation.GetResponse? || operation.IsAvailable?
  }

  ghost predicate Permitted<M>(wiring: seq<Ends>, component: nat, operation: Operation<M>) {
    operation.Idle? || operation.id >= |wiring| ||
    component ==
      if OfRequester(operation) then wiring[operation.id].requester else wiring[operation.id].responder
  }

  // Every component keeps to its own ends of the connections.
  ghost predicate Wired<S(!new), M>(system: System<S, M>, wiring: seq<Ends>) {
    && system.Valid() && |wiring| == |system.links|
    && forall c, s: S :: 0 <= c < |system.behaviours| ==> Permitted(wiring, c, system.behaviours[c].next(s))
  }

  // Component `c` performs its next operation; a component that does not exist does nothing.
  function Step<S, M>(system: System<S, M>, c: nat): (after: System<S, M>)
    requires system.Valid()
    ensures after.Valid() && after.behaviours == system.behaviours
    ensures |after.links| == |system.links|
  {
    if c >= |system.locals| then system else
    var behaviour := system.behaviours[c];
    var (links, outcome) := Apply(system.links, behaviour.next(system.locals[c]));
    System(system.behaviours, system.locals[c := behaviour.resume(system.locals[c], outcome)], links)
  }

  // The two ends of one connection do not observe each other within a cycle.
  lemma EndsCommute<M>(wire: Wire<M>, first: Operation<M>, second: Operation<M>)
    requires !first.Idle? && !second.Idle? && OfRequester(first) && !OfRequester(second)
    ensures ApplyToWire(ApplyToWire(wire, first).0, second).0 == ApplyToWire(ApplyToWire(wire, second).0, first).0
    ensures ApplyToWire(ApplyToWire(wire, first).0, second).1 == ApplyToWire(wire, second).1
    ensures ApplyToWire(ApplyToWire(wire, second).0, first).1 == ApplyToWire(wire, first).1
  {
  }

  lemma OperationsCommute<M>(
    links: seq<Wire<M>>, wiring: seq<Ends>, c: nat, d: nat, first: Operation<M>, second: Operation<M>)
    requires c != d && |wiring| == |links|
    requires Permitted(wiring, c, first) && Permitted(wiring, d, second)
    ensures Apply(Apply(links, first).0, second).0 == Apply(Apply(links, second).0, first).0
    ensures Apply(Apply(links, first).0, second).1 == Apply(links, second).1
    ensures Apply(Apply(links, second).0, first).1 == Apply(links, first).1
  {
    if !first.Idle? && !second.Idle? && first.id < |links| && second.id < |links| {
      if first.id != second.id {
        ApartCommute(links, first, second);
      } else if OfRequester(first) {
        EndsCommute(links[first.id], first, second);
      } else {
        EndsCommute(links[first.id], second, first);
      }
    }
  }

  lemma ApartCommute<M>(links: seq<Wire<M>>, first: Operation<M>, second: Operation<M>)
    requires !first.Idle? && !second.Idle?
    requires first.id < |links| && second.id < |links| && first.id != second.id
    ensures Apply(Apply(links, first).0, second).0 == Apply(Apply(links, second).0, first).0
    ensures Apply(Apply(links, first).0, second).1 == Apply(links, second).1
    ensures Apply(Apply(links, second).0, first).1 == Apply(links, first).1
  {
  }

  lemma StepsCommute<S(!new), M>(system: System<S, M>, wiring: seq<Ends>, c: nat, d: nat)
    requires Wired(system, wiring)
    requires c != d
    ensures Step(Step(system, c), d) == Step(Step(system, d), c)
  {
    if c < |system.locals| && d < |system.locals| {
      var first := system.behaviours[c].next(system.locals[c]);
      var second := system.behaviours[d].next(system.locals[d]);
      OperationsCommute(system.links, wiring, c, d, first, second);
    }
  }

  // Runs the components one operation at a time in the given order.
  function Run<S, M>(system: System<S, M>, schedule: seq<nat>): (after: System<S, M>)
    requires system.Valid()
    ensures after.Valid() && after.behaviours == system.behaviours
    ensures |after.links| == |system.links|
    decreases |schedule|
  {
    if schedule == [] then system else Run(Step(system, schedule[0]), schedule[1..])
  }

  lemma RunCons<S, M>(system: System<S, M>, c: nat, schedule: seq<nat>)
    requires system.Valid()
    ensures Run(system, [c] + schedule) == Run(Step(system, c), schedule)
  {
    assert ([c] + schedule)[1..] == schedule;
  }

  // An operation can be brought forward past the operations of other components.
  lemma {:induction false} BringForward<S(!new), M>(
    system: System<S, M>, wiring: seq<Ends>, before: seq<nat>, c: nat, after: seq<nat>)
    requires Wired(system, wiring)
    requires c !in before
    ensures Run(system, before + [c] + after) == Run(system, [c] + before + after)
    decreases |before|
  {
    if before == [] {
      assert before + [c] + after == [c] + before + after;
    } else {
      var b, rest := before[0], before[1..];
      assert (before + [c] + after)[0] == b && (before + [c] + after)[1..] == rest + [c] + after;
      BringForward(Step(system, b), wiring, rest, c, after);
      assert ([c] + rest + after)[1..] == rest + after;
      StepsCommute(system, wiring, b, c);
      assert ([c] + before + after)[1..] == before + after;
      assert (before + after)[1..] == rest + after;
    }
  }

  // Any two interleavings in which every component performs equally many operations
  // end in the same state: same messages in flight, same local states, and hence the
  // same results reported to every component.
  lemma {:induction false} InterleavingIsIrrelevant<S(!new), M>(
    system: System<S, M>, wiring: seq<Ends>, one: seq<nat>, other: seq<nat>)
    requires Wired(system, wiring)
    requires multiset(one) == multiset(other)
    ensures Run(system, one) == Run(system, other)
    decreases |one|
  {
    if one == [] {
      assert |multiset(other)| == 0;
    } else {
      var c := one[0];
      assert c in multiset(one);
      var before, after := SplitAtFirst(other, c);
      assert one == [c] + one[1..];
      SameRest(one, c, one[1..], before + after);
      BringForward(system, wiring, before, c, after);
      RunCons(system, c, before + after);
      assert [c] + before + after == [c] + (before + after);
      InterleavingIsIrrelevant(Step(system, c), wiring, one[1..], before + after);
    }
  }

  lemma SameRest(all: seq<nat>, c: nat, rest: seq<nat>, others: seq<nat>)
    requires all == [c] + rest && multiset(all) == multiset([c]) + multiset(others)
    ensures multiset(rest) == multiset(others)
  {
    assert multiset(rest) == multiset(all) - multiset([c]) == multiset(others);
  }

  lemma {:induction false} SplitAtFirst(s: seq<nat>, c: nat) returns (before: seq<nat>, after: seq<nat>)
    requires c in s
    ensures s == before + [c] + after && c !in before
    ensures multiset(s) == multiset([c]) + multiset(before + after)
  {
    if s[0] == c {
      before, after := [], s[1..];
    } else {
      before, after := SplitAtFirst(s[1..], c);
      assert s == [s[0]] + s[1..];
      assert [s[0]] + before + after == [s[0]] + (before + after);
      before := [s[0]] + before;
    }
  }

  // ------ Clocks run to completion

  function Repeated(c: nat, k: nat): (schedule: seq<nat>)
    ensures |schedule| == k && forall i :: 0 <= i < k ==> schedule[i] == c
  {
    seq(k, _ => c)
  }

  function Steps<S, M>(system: System<S, M>, c: nat, k: nat): (after: System<S, M>)
    requires system.Valid()
    ensures after.Valid() && after.behaviours == system.behaviours
    ensures |after.links| == |system.links|
  {
    Run(system, Repeated(c, k))
  }

  predicate IsThrough<S, M>(system: System<S, M>, c: nat)
    requires system.Valid()
  {
    c >= |system.locals| || system.behaviours[c].next(system.locals[c]).Idle?
  }

  // The Clock of a component is what it does up to and including its next Idle step.
  predicate Lasts<S, M>(system: System<S, M>, c: nat, k: nat)
    requires system.Valid()
  {
    IsThrough(Steps(system, c, k), c) && forall j :: 0 <= j < k ==> !IsThrough(Steps(system, c, j), c)
  }

  function Finish<S, M>(system: System<S, M>, c: nat, k: nat): (after: System<S, M>)
    requires system.Valid()
    ensures after.Valid() && after.behaviours == system.behaviours
    ensures |after.links| == |system.links|
  {
    Steps(system, c, k + 1)
  }

  // Clocking the components in this order, each to its end, gives `after`.
  ghost predicate Clocks<S(!new), M(!new)>(system: System<S, M>, order: seq<nat>, after: System<S, M>)
    requires system.Valid()
    decreases |order|
  {
    if order == [] then after == system
    else exists k :: Lasts(system, order[0], k) && Clocks(Finish(system, order[0], k), order[1..], after)
  }

  lemma {:induction false} OthersKeepLocals<S, M>(system: System<S, M>, schedule: seq<nat>, c: nat)
    requires system.Valid() && c < |system.locals| && c !in schedule
    ensures |Run(system, schedule).locals| == |system.locals|
    ensures Run(system, schedule).locals[c] == system.locals[c]
    decreases |schedule|
  {
    if schedule != [] {
      OthersKeepLocals(Step(system, schedule[0]), schedule[1..], c);
    }
  }

  lemma {:induction false} SameComponents<S, M>(system: System<S, M>, schedule: seq<nat>)
    requires system.Valid()
    ensures |Run(system, schedule).locals| == |system.locals|
    decreases |schedule|
  {
    if schedule != [] {
      SameComponents(Step(system, schedule[0]), schedule[1..]);
    }
  }

  lemma {:induction false} RunConcat<S, M>(system: System<S, M>, first: seq<nat>, second: seq<nat>)
    requires system.Valid()
    ensures Run(system, first + second) == Run(Run(system, first), second)
    decreases |first|
  {
    if first == [] {
      assert first + second == second;
    } else {
      assert (first + second)[1..] == first[1..] + second;
      RunConcat(Step(system, first[0]), first[1..], second);
    }
  }

  // The steps of two components commute in any number.
  lemma StepsOfBothCommute<S(!new), M>(system: System<S, M>, wiring: seq<Ends>, c: nat, k: nat, d: nat, m: nat)
    requires Wired(system, wiring)
    ensures Steps(Steps(system, c, k), d, m) == Steps(Steps(system, d, m), c, k)
  {
    RunConcat(system, Repeated(c, k), Repeated(d, m));
    RunConcat(system, Repeated(d, m), Repeated(c, k));
    InterleavingIsIrrelevant(system, wiring, Repeated(c, k) + Repeated(d, m), Repeated(d, m) + Repeated(c, k));
  }

  // How long the Clock of a component takes does not depend on what others did before.
  lemma ThroughAtTheSameStep<S(!new), M>(system: System<S, M>, wiring: seq<Ends>, c: nat, k: nat, d: nat, j: nat)
    requires Wired(system, wiring) && c != d
    ensures IsThrough(Steps(Steps(system, c, k), d, j), d) <==> IsThrough(Steps(system, d, j), d)
  {
    StepsOfBothCommute(system, wiring, c, k, d, j);
    SameComponents(system, Repeated(d, j));
    SameComponents(Steps(system, d, j), Repeated(c, k));
    if d < |system.locals| {
      OthersKeepLocals(Steps(system, d, j), Repeated(c, k), d);
    }
  }

  lemma LastsTheSame<S(!new), M>(system: System<S, M>, wiring: seq<Ends>, c: nat, k: nat, d: nat, m: nat)
    requires Wired(system, wiring) && c != d
    ensures Lasts(Steps(system, c, k), d, m) <==> Lasts(system, d, m)
  {
    forall j: nat
      ensures IsThrough(Steps(Steps(system, c, k), d, j), d) <==> IsThrough(Steps(system, d, j), d)
    {
      ThroughAtTheSameStep(system, wiring, c, k, d, j);
    }
  }

  lemma LastsOnce<S, M>(system: System<S, M>, c: nat, k: nat, m: nat)
    requires system.Valid() && Lasts(system, c, k) && Lasts(system, c, m)
    ensures k == m
  {
  }

  lemma ClocksCons<S(!new), M(!new)>(system: System<S, M>, c: nat, k: nat, order: seq<nat>, after: System<S, M>)
    requires system.Valid() && Lasts(system, c, k) && Clocks(Finish(system, c, k), order, after)
    ensures Clocks(system, [c] + order, after)
  {
    var whole := [c] + order;
    assert whole[0] == c && whole[1..] == order;
    assert Lasts(system, whole[0], k) && Clocks(Finish(system, whole[0], k), whole[1..], after);
  }

  lemma ClocksUncons<S(!new), M(!new)>(system: System<S, M>, c: nat, order: seq<nat>, after: System<S, M>)
    returns (k: nat)
    requires system.Valid() && Clocks(system, [c] + order, after)
    ensures Lasts(system, c, k) && Clocks(Finish(system, c, k), order, after)
  {
    assert ([c] + order)[1..] == order;
    k :| Lasts(system, c, k) && Clocks(Finish(system, c, k), order, after);
  }

  // Two components clocked one after the other may change places.
  lemma NeighboursSwap<S(!new), M(!new)>(
    system: System<S, M>, wiring: seq<Ends>, c: nat, d: nat, rest: seq<nat>, after: System<S, M>)
    requires Wired(system, wiring) && Clocks(system, [c] + ([d] + rest), after)
    ensures Clocks(system, [d] + ([c] + rest), after)
  {
    if c != d {
      var k := ClocksUncons(system, c, [d] + rest, after);
      var m := ClocksUncons(Finish(system, c, k), d, rest, after);
      LastsTheSame(system, wiring, c, k + 1, d, m);
      LastsTheSame(system, wiring, d, m + 1, c, k);
      StepsOfBothCommute(system, wiring, c, k + 1, d, m + 1);
      ClocksCons(Finish(system, d, m), c, k, rest, after);
      ClocksCons(system, d, m, [c] + rest, after);
    }
  }

  lemma {:induction false} ClockToFront<S(!new), M(!new)>(
    system: System<S, M>, wiring: seq<Ends>, before: seq<nat>, c: nat, rest: seq<nat>, after: System<S, M>)
    requires Wired(system, wiring) && Clocks(system, before + ([c] + rest), after)
    ensures Clocks(system, [c] + (before + rest), after)
    decreases |before|
  {
    if before == [] {
      assert before + ([c] + rest) == [c] + rest && before + rest == rest;
    } else {
      var b, between := before[0], before[1..];
      assert before + ([c] + rest) == [b] + (between + ([c] + rest));
      assert before + rest == [b] + (between + rest);
      var k := ClocksUncons(system, b, between + ([c] + rest), after);
      ClockToFront(Finish(system, b, k), wiring, between, c, rest, after);
      ClocksCons(system, b, k, [c] + (between + rest), after);
      NeighboursSwap(system, wiring, b, c, between + rest, after);
    }
  }

  lemma ClockedFirst<S(!new), M(!new)>(
    system: System<S, M>, wiring: seq<Ends>, before: seq<nat>, c: nat, rest: seq<nat>, after: System<S, M>)
    returns (k: nat)
    requires Wired(system, wiring) && Clocks(system, before + [c] + rest, after)
    ensures Lasts(system, c, k) && Clocks(Finish(system, c, k), before + rest, after)
  {
    assert before + [c] + rest == before + ([c] + rest);
    ClockToFront(system, wiring, before, c, rest, after);
    k := ClocksUncons(system, c, before + rest, after);
  }

  // The order in which the components are clocked in a cycle changes neither whether all
  // of them come to an end nor the state they leave.
  lemma {:induction false} OneCycleInAnyOrder<S(!new), M(!new)>(
    system: System<S, M>, wiring: seq<Ends>, one: seq<nat>, other: seq<nat>, after: System<S, M>)
    requires Wired(system, wiring) && multiset(one) == multiset(other) && Clocks(system, one, after)
    ensures Clocks(system, other, after)
    decreases |one|
  {
    assert |multiset(one)| == |one| && |multiset(other)| == |other|;
    if other != [] {
      var c, rest := other[0], other[1..];
      assert other == [c] + rest && c in multiset(other);
      var before, behind := SplitAtFirst(one, c);
      var k := ClockedFirst(system, wiring, before, c, behind, after);
      SameRest(other, c, rest, before + behind);
      OneCycleInAnyOrder(Finish(system, c, k), wiring, before + behind, rest, after);
      ClocksCons(system, c, k, rest, after);
    }
  }

  // ------ Whole simulations

  // The end of a cycle: the buffers of every connection are swapped.
  function PosClocked<S, M>(system: System<S, M>): (after: System<S, M>)
    requires system.Valid()
    ensures after.Valid() && after.behaviours == system.behaviours
    ensures |after.links| == |system.links|
  {
    system.(links := SwapWires(system.links))
  }

  lemma {:induction false} ClocksKeepWiring<S(!new), M(!new)>(
    system: System<S, M>, wiring: seq<Ends>, order: seq<nat>, after: System<S, M>)
    requires Wired(system, wiring) && Clocks(system, order, after)
    ensures Wired(after, wiring)
    decreases |order|
  {
    if order != [] {
      assert order == [order[0]] + order[1..];
      var k := ClocksUncons(system, order[0], order[1..], after);
      ClocksKeepWiring(Finish(system, order[0], k), wiring, order[1..], after);
    }
  }

  lemma {:induction false} OneOutcome<S(!new), M(!new)>(
    system: System<S, M>, order: seq<nat>, one: System<S, M>, other: System<S, M>)
    requires system.Valid() && Clocks(system, order, one) && Clocks(system, order, other)
    ensures one == other
    decreases |order|
  {
    if order != [] {
      assert order == [order[0]] + order[1..];
      var k := ClocksUncons(system, order[0], order[1..], one);
      var m := ClocksUncons(system, order[0], order[1..], other);
      LastsOnce(system, order[0], k, m);
      OneOutcome(Finish(system, order[0], k), order[1..], one, other);
    }
  }

  // A simulation clocks the components once in every cycle, here in a given order for
  // each, and gives the states at the ends of the cycles.
  ghost predicate Simulates<S(!new), M(!new)>(
    system: System<S, M>, orders: seq<seq<nat>>, states: seq<System<S, M>>)
    requires system.Valid()
    decreases |orders|
  {
    if orders == [] then states == []
    else
      && states != [] && states[0].Valid()
      && Clocks(system, orders[0], states[0])
      && Simulates(PosClocked(states[0]), orders[1..], states[1..])
  }

  // The clock order may differ in every cycle: the simulation goes through the same
  // states, and gets stuck in a Clock without end in the same cycle or not at all.
  lemma {:induction false} ClockOrderIsIrrelevant<S(!new), M(!new)>(
    system: System<S, M>, wiring: seq<Ends>, one: seq<seq<nat>>, other: seq<seq<nat>>, states: seq<System<S, M>>)
    requires Wired(system, wiring) && |one| == |other|
    requires forall t :: 0 <= t < |one| ==> multiset(one[t]) == multiset(other[t])
    ensures Simulates(system, one, states) <==> Simulates(system, other, states)
    decreases |one|
  {
    if one != [] && states != [] && states[0].Valid() {
      if Clocks(system, one[0], states[0]) {
        OneCycleInAnyOrder(system, wiring, one[0], other[0], states[0]);
      }
      if Clocks(system, other[0], states[0]) {
        OneCycleInAnyOrder(system, wiring, other[0], one[0], states[0]);
        ClocksKeepWiring(system, wiring, other[0], states[0]);
        ClockOrderIsIrrelevant(PosClocked(states[0]), wiring, one[1..], other[1..], states[1..]);
      }
    }
  }

  lemma {:induction false} OneSimulation<S(!new), M(!new)>(
    system: System<S, M>, orders: seq<seq<nat>>, one: seq<System<S, M>>, other: seq<System<S, M>>)
    requires system.Valid() && Simulates(system, orders, one) && Simulates(system, orders, other)
    ensures one == other
    decreases |orders|
  {
    if orders != [] {
      OneOutcome(system, orders[0], one[0], other[0]);
      OneSimulation(PosClocked(one[0]), orders[1..], one[1..], other[1..]);
      assert one == [one[0]] + one[1..] && other == [other[0]] + other[1..];
    }
  }
}
