// The return address stack (src/std_components/predictors/ras.cpp): an array whose end
// wraps around, used as a stack by calls and returns.
module ReturnAddressStack {
  import opened Wrappers
  import opened Linkables
  import opened Packets

  datatype PredictorPacket =
    | RequestQuery(instruction: InstructionPacket)
    | RequestTargetUpdate(instruction: InstructionPacket, target: nat)
    | RequestDirectionUpdate(instruction: InstructionPacket, taken: bool)
    | ResponseTakeToAddress(instruction: InstructionPacket, target: nat)
    | OtherResponse(instruction: InstructionPacket)

  // What the array holds, from its end backwards. A push drops the last entry; a pop
  // turns the first into the last.
  function Pushed(stack: seq<nat>, target: nat): (r: seq<nat>)
    requires stack != []
    ensures |r| == |stack|
  {
    [target] + stack[..|stack| - 1]
  }

  function Popped(stack: seq<nat>): (r: seq<nat>)
    requires stack != []
    ensures |r| == |stack|
  {
    stack[1..] + [stack[0]]
  }

  // ------ One clock on values

  // The stack, the connections to it, and the connection on which responses are forwarded.
  datatype Stage = Stage(
    stack: seq<nat>,
    links: seq<Link<PredictorPacket>>,
    forward: Option<Link<PredictorPacket>>)

  // One connection is served: at most one request is taken from it, and a query is
  // answered both on it and, if there is one, on the forwarding connection.
  function ServeConnection(stage: Stage, i: nat): (after: Stage)
    requires stage.stack != [] && i < |stage.links|
    ensures |after.stack| == |stage.stack| && |after.links| == |stage.links|
  {
    var link := stage.links[i].GetRequest();
    var taken := stage.(links := stage.links[i := link]);
    match stage.links[i].request.Head()
    case Some(RequestQuery(instruction)) =>
      var response := ResponseTakeToAddress(instruction, stage.stack[0]);
      Stage(Popped(stage.stack), stage.links[i := link.SendResponse(response)], Forwarded(stage.forward, response))
    case Some(RequestTargetUpdate(_, target)) => taken.(stack := Pushed(stage.stack, target))
    case _ => taken
  }

  function Forwarded(forward: Option<Link<PredictorPacket>>, response: PredictorPacket): Option<Link<PredictorPacket>> {
    match forward case None => None case Some(link) => Some(link.SendRequest(response))
  }

  function ServeFrom(stage: Stage, i: nat): (after: Stage)
    requires stage.stack != []
    ensures |after.stack| == |stage.stack| && |after.links| == |stage.links|
    decreases |stage.links| - i
  {
    if i >= |stage.links| then stage else ServeFrom(ServeConnection(stage, i), i + 1)
  }

  // ------ What a clock comes to

  // The requests a clock takes from the connections, in their order.
  function Heads(links: seq<Link<PredictorPacket>>, i: nat): seq<PredictorPacket>
    decreases |links| - i
  {
    if i >= |links| then []
    else
      (match links[i].request.Head() case None => [] case Some(packet) => [packet]) + Heads(links, i + 1)
  }

  // The calls and returns among them.
  function Operations(packets: seq<PredictorPacket>): seq<Operation> {
    if packets == [] then []
    else
      (match packets[0]
       case RequestQuery(_) => [Pop]
       case RequestTargetUpdate(_, target) => [Push(target)]
       case _ => []) + Operations(packets[1..])
  }

  // The answers: for each query what is on top of the stack then.
  function Answers(stack: seq<nat>, packets: seq<PredictorPacket>): seq<PredictorPacket>
    requires stack != []
    decreases |packets|
  {
    if packets == [] then []
    else match packets[0]
      case RequestQuery(instruction) =>
        [ResponseTakeToAddress(instruction, stack[0])] + Answers(Popped(stack), packets[1..])
      case RequestTargetUpdate(_, target) => Answers(Pushed(stack, target), packets[1..])
      case _ => Answers(stack, packets[1..])
  }

  // What is forwarded, on a connection without a bound: every answer, in order.
  predicate Forwards(before: Option<Link<PredictorPacket>>, after: Option<Link<PredictorPacket>>,
      answers: seq<PredictorPacket>)
  {
    match before
    case None => after == None
    case Some(link) => after == Some(link.(request := link.request.(sending := link.request.sending + answers)))
  }

  lemma NoneForwarded(forward: Option<Link<PredictorPacket>>)
    ensures Forwards(forward, forward, [])
  {
    if forward.Some? {
      assert forward.value.request.sending + [] == forward.value.request.sending;
    }
  }

  lemma OneForwarded(forward: Option<Link<PredictorPacket>>, response: PredictorPacket,
      after: Option<Link<PredictorPacket>>, answers: seq<PredictorPacket>)
    requires forward.Some? ==> forward.value.request.capacity == 0
    requires Forwards(Forwarded(forward, response), after, answers)
    ensures Forwards(forward, after, [response] + answers)
  {
    if forward.Some? {
      var sending := forward.value.request.sending;
      assert sending + [response] + answers == sending + ([response] + answers);
    }
  }

  function StackAfter(stack: seq<nat>, packet: PredictorPacket): (after: seq<nat>)
    requires stack != []
    ensures |after| == |stack|
  {
    match packet
    case RequestQuery(_) => Popped(stack)
    case RequestTargetUpdate(_, target) => Pushed(stack, target)
    case _ => stack
  }

  lemma FirstServed(stack: seq<nat>, packet: PredictorPacket, rest: seq<PredictorPacket>)
    requires stack != []
    ensures var after := StackAfter(stack, packet);
      && Run(stack, Operations([packet] + rest)) == Run(after, Operations(rest))
      && Answers(stack, [packet] + rest)
        == (if packet.RequestQuery? then [ResponseTakeToAddress(packet.instruction, stack[0])] else [])
          + Answers(after, rest)
  {
    var operations := Operations(rest);
    assert ([packet] + rest)[1..] == rest;
    assert [] + operations == operations && [] + Answers(stack, rest) == Answers(stack, rest);
    assert ([Pop] + operations)[1..] == operations;
    if packet.RequestTargetUpdate? {
      assert ([Push(packet.target)] + operations)[1..] == operations;
      assert [] + Answers(Pushed(stack, packet.target), rest) == Answers(Pushed(stack, packet.target), rest);
    }
  }

  // A clock with any requests waiting: one of each connection is served, in the order of the
  // connections, as calls and returns of one stack; and every answer is forwarded.
  lemma {:induction false} EveryConnectionIsServed(stage: Stage, i: nat)
    requires stage.stack != [] && (stage.forward.Some? ==> stage.forward.value.request.capacity == 0)
    ensures var heads, after := Heads(stage.links, i), ServeFrom(stage, i);
      && after.stack == Run(stage.stack, Operations(heads))
      && Forwards(stage.forward, after.forward, Answers(stage.stack, heads))
    decreases |stage.links| - i
  {
    if i < |stage.links| {
      var next, rest := ServeConnection(stage, i), Heads(stage.links, i + 1);
      EveryConnectionIsServed(next, i + 1);
      OthersWait(stage, i, i + 1);
      match stage.links[i].request.Head()
      case None =>
        assert [] + rest == rest;
      case Some(packet) =>
        FirstServed(stage.stack, packet, rest);
        if packet.RequestQuery? {
          var response := ResponseTakeToAddress(packet.instruction, stage.stack[0]);
          OneForwarded(stage.forward, response, ServeFrom(next, i + 1).forward, Answers(next.stack, rest));
        }
    } else {
      NoneForwarded(stage.forward);
    }
  }

  lemma StackOfTheRest(stage: Stage, i: nat, id: nat)
    requires stage.stack != [] && i < id <= |stage.links|
    ensures var next := ServeConnection(stage, i);
      Run(stage.stack, Operations(Heads(stage.links[..id], i)))
        == Run(next.stack, Operations(Heads(next.links[..id], i + 1)))
  {
    var before := stage.links[..id];
    var rest := Heads(before, i + 1);
    OthersWait(stage.(links := before), i, i + 1);
    assert ServeConnection(stage, i).links[..id] == ServeConnection(stage.(links := before), i).links;
    match stage.links[i].request.Head()
    case None =>
      assert [] + rest == rest;
    case Some(packet) =>
      FirstServed(stage.stack, packet, rest);
  }

  // Each answer goes to the connection of its query, and predicts from the stack as the
  // connections before left it.
  lemma {:induction false} AnsweredOnItsOwn(stage: Stage, i: nat, id: nat)
    requires stage.stack != [] && i <= id < |stage.links|
    ensures var top := Run(stage.stack, Operations(Heads(stage.links[..id], i)))[0];
      var link := stage.links[id].GetRequest();
      ServeFrom(stage, i).links[id] ==
        match stage.links[id].request.Head()
        case Some(RequestQuery(instruction)) => link.SendResponse(ResponseTakeToAddress(instruction, top))
        case _ => link
    decreases id - i
  {
    var next := ServeConnection(stage, i);
    if i < id {
      AnsweredOnItsOwn(next, i + 1, id);
      StackOfTheRest(stage, i, id);
    } else {
      assert Heads(stage.links[..id], i) == [];
      ServedStay(next, i + 1, id);
    }
  }

  lemma {:induction false} ServedStay(stage: Stage, i: nat, id: nat)
    requires stage.stack != [] && id < i && id < |stage.links|
    ensures ServeFrom(stage, i).links[id] == stage.links[id]
    decreases |stage.links| - i
  {
    if i < |stage.links| {
      ServedStay(ServeConnection(stage, i), i + 1, id);
    }
  }

  lemma {:induction false} OthersWait(stage: Stage, i: nat, j: nat)
    requires stage.stack != [] && i < |stage.links| && i < j
    ensures Heads(ServeConnection(stage, i).links, j) == Heads(stage.links, j)
    decreases |stage.links| - j
  {
    if j < |stage.links| {
      OthersWait(stage, i, j + 1);
    }
  }

  // ------ The component

  class Ras {
    const port: Linkable<PredictorPacket>
    const sendTo: Linkable?<PredictorPacket>
    const forwardToID: nat
    const buffer: array<nat>
    const size: int
    var end: int
    ghost var stack: seq<nat>

    // The slot of the k-th entry from the end.
    function Slot(k: int): int
      reads this
    {
      if k <= end then end - k else end - k + size
    }

    // The connections of the components it is linked to.
    ghost function Ports(): set<object>
      reads this, port, sendTo
    {
      port.Repr + if sendTo == null then {} else sendTo.Repr
    }

    ghost predicate Valid()
      reads this, buffer, port, sendTo, Ports()
    {
      && size == buffer.Length && 0 <= end < size
      && |stack| == size
      && (forall k :: 0 <= k < size ==> stack[k] == buffer[Slot(k)])
      && port.Valid() && {this, buffer} !! Ports()
      && (sendTo != null ==> sendTo.Valid() && forwardToID < |sendTo.Links| && port.Repr !! sendTo.Repr)
    }

    ghost function View(): Stage
      requires sendTo != null ==> forwardToID < |sendTo.Links|
      reads this, port, sendTo
    {
      Stage(stack, port.Links, if sendTo == null then None else Some(sendTo.Links[forwardToID]))
    }

    constructor Configure(size: int, sendTo: Linkable?<PredictorPacket>)
      requires size > 0 && (sendTo != null ==> sendTo.Valid())
      modifies sendTo
      ensures Valid() && fresh(buffer) && fresh(port.Repr) && this.size == size && this.sendTo == sendTo
      ensures port.Links == [] && stack == seq(size, _ => 0)
      ensures sendTo != null ==>
        && fresh(sendTo.Repr - old(sendTo.Repr)) && forwardToID == |old(sendTo.Links)|
        && sendTo.Links == old(sendTo.Links) + [NewLink(0)]
    {
      this.size := size;
      this.sendTo := sendTo;
      port := new Linkable<PredictorPacket>();
      buffer := new nat[size](_ => 0);
      end := 0;
      stack := seq(size, _ => 0);
      var id := 0;
      if sendTo != null {
        id := sendTo.ConnectUnsafe(0);
      }
      forwardToID := id;
    }

    method Pop() returns (prediction: nat)
      requires Valid()
      modifies this
      ensures Valid() && prediction == old(stack)[0] && stack == Popped(old(stack))
    {
      prediction := buffer[end];
      end := end - 1;
      if end < 0 {
        end := size - 1;
      }
      stack := Popped(stack);
    }

    method RequestQuery(instruction: InstructionPacket, connectionID: nat)
      requires Valid() && connectionID < |port.Links|
      modifies this, Ports()
      ensures Valid() && fresh(Ports() - old(Ports()))
      ensures var response := ResponseTakeToAddress(instruction, old(stack)[0]);
        View() == Stage(Popped(old(stack)),
          old(port.Links)[connectionID := old(port.Links)[connectionID].SendResponse(response)],
          Forwarded(old(View()).forward, response))
    {
      var prediction := Pop();
      var response := ResponseTakeToAddress(instruction, prediction);
      var dropped := port.SendResponse(connectionID, response);
      if sendTo != null {
        dropped := sendTo.SendRequest(forwardToID, response);
      }
    }

    method RequestUpdate(targetAddress: nat)
      requires Valid()
      modifies this, buffer
      ensures Valid() && stack == Pushed(old(stack), targetAddress)
    {
      end := end + 1;
      if end >= size {
        end := 0;
      }
      buffer[end] := targetAddress;
      stack := Pushed(stack, targetAddress);
    }

    method ServeOne(i: nat)
      requires Valid() && i < |port.Links|
      modifies this, buffer, Ports()
      ensures Valid() && fresh(Ports() - old(Ports()))
      ensures View() == ServeConnection(old(View()), i)
    {
      var packet := port.GetRequest(i);
      match packet {
        case Some(RequestQuery(instruction)) => RequestQuery(instruction, i);
        case Some(RequestTargetUpdate(_, target)) => RequestUpdate(target);
        case _ =>
      }
    }

    method Clock()
      requires Valid()
      modifies this, buffer, Ports()
      ensures Valid() && fresh(Ports() - old(Ports()))
      ensures View() == ServeFrom(old(View()), 0)
    {
      for i := 0 to port.NumberOfConnections()
        invariant Valid() && fresh(Ports() - old(Ports()))
        invariant |port.Links| == |old(port.Links)|
        invariant ServeFrom(View(), i) == ServeFrom(old(View()), 0)
      {
        ServeOne(i);
      }
    }
  }

  // ------ Against a stack without bound

  datatype Operation = Push(target: nat) | Pop

  function Run(stack: seq<nat>, operations: seq<Operation>): (r: seq<nat>)
    requires stack != []
    ensures |r| == |stack|
    decreases |operations|
  {
    if operations == [] then stack
    else match operations[0]
      case Push(target) => Run(Pushed(stack, target), operations[1..])
      case Pop => Run(Popped(stack), operations[1..])
  }

  // A stack without bound; a pop of the empty one does nothing.
  function Ideal(ideal: seq<nat>, operations: seq<Operation>): seq<nat>
    decreases |operations|
  {
    if operations == [] then ideal
    else match operations[0]
      case Push(target) => Ideal([target] + ideal, operations[1..])
      case Pop => Ideal(if ideal == [] then [] else ideal[1..], operations[1..])
  }

  // The entries that no overflow has taken.
  function Live(live: nat, size: nat, operations: seq<Operation>): nat
    decreases |operations|
  {
    if operations == [] then live
    else match operations[0]
      case Push(_) => Live(if live < size then live + 1 else size, size, operations[1..])
      case Pop => Live(if live == 0 then 0 else live - 1, size, operations[1..])
  }

  // Whatever is pushed and popped, the array is the unbounded stack as far as its live
  // entries go.
  lemma {:induction false} AgreesOnLiveEntries(stack: seq<nat>, ideal: seq<nat>, live: nat, operations: seq<Operation>)
    requires stack != [] && live <= |stack| && live <= |ideal| && stack[..live] == ideal[..live]
    ensures var now := Live(live, |stack|, operations);
      now <= |stack| && now <= |Ideal(ideal, operations)|
      && Run(stack, operations)[..now] == Ideal(ideal, operations)[..now]
    decreases |operations|
  {
    if operations != [] {
      match operations[0]
      case Push(target) =>
        var more := if live < |stack| then live + 1 else |stack|;
        assert Pushed(stack, target)[..more] == ([target] + ideal)[..more] by {
          assert forall k :: 0 <= k < live ==> stack[k] == stack[..live][k] == ideal[..live][k] == ideal[k];
        }
        AgreesOnLiveEntries(Pushed(stack, target), [target] + ideal, more, operations[1..]);
      case Pop =>
        var less := if live == 0 then 0 else live - 1;
        var rest := if ideal == [] then [] else ideal[1..];
        assert Popped(stack)[..less] == rest[..less] by {
          assert forall k :: 0 <= k < live ==> stack[k] == stack[..live][k] == ideal[..live][k] == ideal[k];
        }
        AgreesOnLiveEntries(Popped(stack), rest, less, operations[1..]);
    }
  }

  // ------ Calls and returns

  datatype Calls = Done | Call(ret: nat, body: Calls, next: Calls)

  function Max(a: nat, b: nat): nat {
    if a < b then b else a
  }

  // How deep the calls nest.
  function Depth(calls: Calls): nat {
    match calls
    case Done => 0
    case Call(_, body, next) => Max(1 + Depth(body), Depth(next))
  }

  function Addresses(calls: Calls): set<nat> {
    match calls
    case Done => {}
    case Call(ret, body, next) => {ret} + Addresses(body) + Addresses(next)
  }

  function AfterCalls(stack: seq<nat>, calls: Calls): (r: seq<nat>)
    requires stack != []
    ensures |r| == |stack|
    decreases calls
  {
    match calls
    case Done => stack
    case Call(ret, body, next) => AfterCalls(Popped(AfterCalls(Pushed(stack, ret), body)), next)
  }

  // What is predicted when the call returns.
  function Predicted(stack: seq<nat>, ret: nat, body: Calls): nat
    requires stack != []
  {
    AfterCalls(Pushed(stack, ret), body)[0]
  }

  function Mispredictions(stack: seq<nat>, calls: Calls): nat
    requires stack != []
    decreases calls
  {
    match calls
    case Done => 0
    case Call(ret, body, next) =>
      var inside := AfterCalls(Pushed(stack, ret), body);
      Mispredictions(Pushed(stack, ret), body)
        + (if Predicted(stack, ret, body) == ret then 0 else 1)
        + Mispredictions(Popped(inside), next)
  }

  // Calls touch as many of the oldest entries as they nest deep, and no others; in those
  // they leave addresses of their own.
  lemma {:induction false} CallsLoseTheOldest(stack: seq<nat>, calls: Calls, k: nat)
    requires k < |stack|
    ensures k < |stack| - Depth(calls) ==> AfterCalls(stack, calls)[k] == stack[k]
    ensures k >= |stack| - Depth(calls) ==> AfterCalls(stack, calls)[k] in Addresses(calls)
    decreases calls
  {
    match calls
    case Done =>
    case Call(ret, body, next) =>
      var pushed := Pushed(stack, ret);
      var inside := AfterCalls(pushed, body);
      var source := if k + 1 < |stack| then k + 1 else 0;
      assert Popped(inside)[k] == inside[source];
      CallsLoseTheOldest(pushed, body, source);
      CallsLoseTheOldest(Popped(inside), next, k);
  }

  // From any state: a return is predicted exactly if its body nests less deep than the
  // stack is large; with its address not used inside of it, exactly then.
  lemma ExactIffShallow(stack: seq<nat>, ret: nat, body: Calls)
    requires stack != []
    ensures Depth(body) < |stack| ==> Predicted(stack, ret, body) == ret
    ensures ret !in Addresses(body) ==> (Predicted(stack, ret, body) == ret <==> Depth(body) < |stack|)
  {
    CallsLoseTheOldest(Pushed(stack, ret), body, 0);
  }

  // The calls whose body nests too deep for the stack.
  function TooDeep(calls: Calls, size: nat): nat {
    match calls
    case Done => 0
    case Call(_, body, next) =>
      TooDeep(body, size) + (if Depth(body) < size then 0 else 1) + TooDeep(next, size)
  }

  ghost predicate Distinct(calls: Calls) {
    match calls
    case Done => true
    case Call(ret, body, next) => ret !in Addresses(body) && Distinct(body) && Distinct(next)
  }

  // For the returns in their order: which are mispredicted, ...
  function Wrong(stack: seq<nat>, calls: Calls): seq<bool>
    requires stack != []
    decreases calls
  {
    match calls
    case Done => []
    case Call(ret, body, next) =>
      Wrong(Pushed(stack, ret), body)
        + [Predicted(stack, ret, body) != ret]
        + Wrong(Popped(AfterCalls(Pushed(stack, ret), body)), next)
  }

  // ... and which belong to calls that nest too deep.
  function Deep(calls: Calls, size: nat): seq<bool> {
    match calls
    case Done => []
    case Call(_, body, next) => Deep(body, size) + [Depth(body) >= size] + Deep(next, size)
  }

  function Count(flags: seq<bool>): nat {
    if flags == [] then 0 else Count(flags[..|flags| - 1]) + if flags[|flags| - 1] then 1 else 0
  }

  lemma {:induction false} CountJoins(a: seq<bool>, b: seq<bool>)
    ensures Count(a + b) == Count(a) + Count(b)
    decreases |b|
  {
    if b == [] {
      assert a + b == a;
    } else {
      assert (a + b)[..|a + b| - 1] == a + b[..|b| - 1];
      CountJoins(a, b[..|b| - 1]);
    }
  }

  lemma CountOfThree(a: seq<bool>, flag: bool, b: seq<bool>)
    ensures Count(a + [flag] + b) == Count(a) + (if flag then 1 else 0) + Count(b)
  {
    CountJoins(a + [flag], b);
    CountJoins(a, [flag]);
    assert Count([flag]) == if flag then 1 else 0;
  }

  lemma {:induction false} WrongOnesAreMispredictions(stack: seq<nat>, calls: Calls)
    requires stack != []
    ensures Count(Wrong(stack, calls)) == Mispredictions(stack, calls)
    decreases calls
  {
    match calls
    case Done =>
    case Call(ret, body, next) =>
      var pushed := Pushed(stack, ret);
      var popped := Popped(AfterCalls(pushed, body));
      WrongOnesAreMispredictions(pushed, body);
      WrongOnesAreMispredictions(popped, next);
      CountOfThree(Wrong(pushed, body), Predicted(stack, ret, body) != ret, Wrong(popped, next));
  }

  lemma {:induction false} DeepOnesAreTooDeep(calls: Calls, size: nat)
    ensures Count(Deep(calls, size)) == TooDeep(calls, size)
    decreases calls
  {
    match calls
    case Done =>
    case Call(_, body, next) =>
      DeepOnesAreTooDeep(body, size);
      DeepOnesAreTooDeep(next, size);
      CountOfThree(Deep(body, size), Depth(body) >= size, Deep(next, size));
  }

  ghost predicate Implies(a: seq<bool>, b: seq<bool>) {
    |a| == |b| && forall k :: 0 <= k < |a| && a[k] ==> b[k]
  }

  lemma {:induction false} FewerCount(a: seq<bool>, b: seq<bool>)
    requires Implies(a, b)
    ensures Count(a) <= Count(b)
  {
    if a != [] {
      FewerCount(a[..|a| - 1], b[..|b| - 1]);
    }
  }

  // Every run of calls and returns, from any state: a return that is mispredicted is that of
  // a call that nests too deep, and if the addresses differ all of those are mispredicted.
  lemma {:induction false} WrongOnesAreTheDeep(stack: seq<nat>, calls: Calls)
    requires stack != []
    ensures Implies(Wrong(stack, calls), Deep(calls, |stack|))
    ensures Distinct(calls) ==> Wrong(stack, calls) == Deep(calls, |stack|)
    decreases calls
  {
    match calls
    case Done =>
    case Call(ret, body, next) =>
      ExactIffShallow(stack, ret, body);
      WrongOnesAreTheDeep(Pushed(stack, ret), body);
      WrongOnesAreTheDeep(Popped(AfterCalls(Pushed(stack, ret), body)), next);
  }

  lemma MispredictionsAreTheTooDeep(stack: seq<nat>, calls: Calls)
    requires stack != []
    ensures Mispredictions(stack, calls) <= TooDeep(calls, |stack|)
    ensures Distinct(calls) ==> Mispredictions(stack, calls) == TooDeep(calls, |stack|)
  {
    WrongOnesAreTheDeep(stack, calls);
    WrongOnesAreMispredictions(stack, calls);
    DeepOnesAreTooDeep(calls, |stack|);
    FewerCount(Wrong(stack, calls), Deep(calls, |stack|));
  }

  lemma {:induction false} NoneIsTooDeep(calls: Calls, size: nat)
    ensures TooDeep(calls, size) == 0 <==> Depth(calls) <= size
    decreases calls
  {
    match calls
    case Done =>
    case Call(_, body, next) =>
      NoneIsTooDeep(body, size);
      NoneIsTooDeep(next, size);
  }

  // Calls that nest no deeper than the stack is large are all predicted.
  lemma ShallowCallsArePredicted(stack: seq<nat>, calls: Calls)
    requires stack != [] && Depth(calls) <= |stack|
    ensures Mispredictions(stack, calls) == 0
  {
    MispredictionsAreTheTooDeep(stack, calls);
    NoneIsTooDeep(calls, |stack|);
  }

  // ------ Calls over a connection

  // Nothing is on its way on any connection.
  ghost predicate Quiet(links: seq<Link<PredictorPacket>>) {
    forall i :: 0 <= i < |links| ==> IsQuiet(links[i])
  }

  predicate IsQuiet(link: Link<PredictorPacket>) {
    link == NewLink(link.request.capacity)
  }

  // A clock that finds one request.
  lemma {:induction false} OnlyOneIsServed(stage: Stage, id: nat, i: nat)
    requires stage.stack != [] && i <= id < |stage.links|
    requires forall j :: 0 <= j < |stage.links| && j != id ==> stage.links[j].request.readable == []
    ensures ServeFrom(stage, i) == ServeConnection(stage, id)
    decreases |stage.links| - i
  {
    var after := ServeConnection(stage, i);
    if i < id {
      assert after.links == stage.links;
      OnlyOneIsServed(stage, id, i + 1);
    } else {
      NothingIsServed(after, i + 1);
    }
  }

  lemma {:induction false} NothingIsServed(stage: Stage, i: nat)
    requires stage.stack != []
    requires forall j :: i <= j < |stage.links| ==> stage.links[j].request.readable == []
    ensures ServeFrom(stage, i) == stage
    decreases |stage.links| - i
  {
    if i < |stage.links| {
      assert ServeConnection(stage, i).links == stage.links;
      NothingIsServed(stage, i + 1);
    }
  }

  // Sends a request in one cycle and lets the stack serve it in the next.
  method Ask(ras: Ras, id: nat, request: PredictorPacket)
    requires ras.Valid() && id < |ras.port.Links| && Quiet(ras.port.Links)
    modifies ras, ras.buffer, ras.Ports()
    ensures ras.Valid() && fresh(ras.Ports() - old(ras.Ports()))
    ensures |ras.port.Links| == |old(ras.port.Links)|
    ensures forall i :: 0 <= i < |ras.port.Links| && i != id ==> IsQuiet(ras.port.Links[i])
    ensures var link := old(ras.port.Links)[id];
      match request
      case RequestQuery(instruction) =>
        && ras.stack == Popped(old(ras.stack))
        && ras.port.Links[id] == link.SendResponse(ResponseTakeToAddress(instruction, old(ras.stack)[0]))
      case RequestTargetUpdate(_, target) => ras.stack == Pushed(old(ras.stack), target) && ras.port.Links[id] == link
      case _ => ras.stack == old(ras.stack) && ras.port.Links[id] == link
  {
    var dropped := ras.port.SendRequest(id, request);
    ras.port.PosClock();
    OnlyOneIsServed(ras.View(), id, 0);
    ras.Clock();
  }

  // A query and, one cycle later, its answer.
  method Query(ras: Ras, id: nat, instruction: InstructionPacket) returns (prediction: nat)
    requires ras.Valid() && id < |ras.port.Links| && Quiet(ras.port.Links)
    modifies ras, ras.buffer, ras.Ports()
    ensures ras.Valid() && fresh(ras.Ports() - old(ras.Ports()))
    ensures |ras.port.Links| == |old(ras.port.Links)| && Quiet(ras.port.Links)
    ensures prediction == old(ras.stack)[0] && ras.stack == Popped(old(ras.stack))
  {
    Ask(ras, id, RequestQuery(instruction));
    ras.port.PosClock();
    var response := ras.port.GetResponse(id);
    prediction := response.value.target;
  }

  // Any run of calls, each of which updates before its body and queries behind it, over
  // one connection and with any number of others: as many answers are wrong as calls are
  // mispredicted.
  method Drive(ras: Ras, id: nat, instruction: InstructionPacket, calls: Calls) returns (wrong: nat)
    requires ras.Valid() && id < |ras.port.Links| && Quiet(ras.port.Links)
    modifies ras, ras.buffer, ras.Ports()
    ensures ras.Valid() && fresh(ras.Ports() - old(ras.Ports()))
    ensures |ras.port.Links| == |old(ras.port.Links)| && Quiet(ras.port.Links)
    ensures ras.stack == AfterCalls(old(ras.stack), calls)
    ensures wrong == Mispredictions(old(ras.stack), calls)
    decreases calls
  {
    match calls
    case Done =>
      wrong := 0;
    case Call(ret, body, next) =>
      Ask(ras, id, RequestTargetUpdate(instruction, ret));
      wrong := Drive(ras, id, instruction, body);
      var prediction := Query(ras, id, instruction);
      if prediction != ret {
        wrong := wrong + 1;
      }
      var later := Drive(ras, id, instruction, next);
      wrong := wrong + later;
  }
}
