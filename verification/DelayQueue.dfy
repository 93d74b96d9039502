// The queue that holds every message back for a fixed number of cycles
// (src/std_components/misc/delay_queue.hpp).
module DelayQueues {
  import opened Wrappers
  import opened CircularBuffers
  import opened Linkables

  datatype Input<M> = Input(elem: M, removeAt: nat)

  function Stamped<M>(messages: seq<M>, removeAt: nat): seq<Input<M>> {
    seq(|messages|, i requires 0 <= i < |messages| => Input(messages[i], removeAt))
  }

  function Elements<M>(inputs: seq<Input<M>>): seq<M> {
    seq(|inputs|, i requires 0 <= i < |inputs| => inputs[i].elem)
  }

  predicate IsDue<M>(queue: seq<Input<M>>, clock: nat) {
    queue != [] && queue[0].removeAt <= clock
  }

  // How many inputs at the front of the queue are due at `clock`.
  function DueCount<M>(queue: seq<Input<M>>, clock: nat): (n: nat)
    ensures n <= |queue|
  {
    if !IsDue(queue, clock) then 0 else 1 + DueCount(queue[1..], clock)
  }

  // SetDelayBufferSize: the slots of the ring, which come on top of queueFirst.
  function DelayBufferSize(delay: nat, throughput: nat): int {
    delay * throughput + throughput - 1
  }

  // First slot and ring together hold what `delay` + 1 cycles can bring.
  lemma SizeInCycles(delay: nat, throughput: nat)
    ensures DelayBufferSize(delay, throughput) + 1 == (delay + 1) * throughput
  {
  }

  lemma SizeIsPositive(delay: nat, throughput: nat)
    requires 1 <= delay ==> 1 <= throughput
    ensures 1 <= delay ==> 1 <= DelayBufferSize(delay, throughput)
  {
    if 1 <= delay {
      assert delay * throughput >= throughput;
    }
  }

  // The messages waiting on the connections, in the order in which Clock visits them.
  function Waiting<M>(links: seq<Link<M>>): seq<M> {
    if links == [] then [] else links[0].request.readable + Waiting(links[1..])
  }

  // `channel` after trying to send all the messages, one after the other.
  function PutAll<M>(channel: Channel<M>, messages: seq<M>): Channel<M>
    decreases |messages|
  {
    if messages == [] then channel else PutAll(channel.Put(messages[0]), messages[1..])
  }

  class DelayQueue<M(0)> {
    var queueFirst: Input<M>
    const delayBuffer: CircularBuffer<Input<M>>
    const port: Linkable<M>    // the connections to this component
    const sendTo: Linkable<M>  // the component that receives the delayed messages
    const sendToId: nat
    var cyclesClock: nat
    var occupation: nat
    const delayBufferSize: nat
    const throughput: nat
    const delay: nat

    ghost predicate Valid()
      reads this, delayBuffer, delayBuffer.Repr, port, port.Repr, sendTo, sendTo.Repr
    {
      && delayBuffer.Valid() && port.Valid() && sendTo.Valid()
      && {this} !! delayBuffer.Repr !! port.Repr !! sendTo.Repr
      && sendToId < |sendTo.Links|
      && (1 <= delay ==> 1 <= throughput && 1 <= delayBufferSize)
      && delayBuffer.maxBufferSize == delayBufferSize
      && |delayBuffer.Contents| == (if occupation == 0 then 0 else occupation - 1)
      && (delay == 0 ==> occupation == 0)
      && occupation <= delayBufferSize + 1
    }

    ghost function Queue(): (queue: seq<Input<M>>)
      requires Valid()
      reads this, delayBuffer, delayBuffer.Repr, port, port.Repr, sendTo, sendTo.Repr
      ensures |queue| == occupation
    {
      if occupation == 0 then [] else [queueFirst] + delayBuffer.Contents
    }

    constructor Configure(delay: nat, throughput: nat, sendTo: Linkable<M>)
      requires sendTo.Valid()
      requires 1 <= delay ==> 1 <= throughput
      modifies sendTo
      ensures Valid() && fresh(delayBuffer.Repr) && fresh(port.Repr) && fresh(sendTo.Repr - old(sendTo.Repr))
      ensures Queue() == [] && cyclesClock == 0 && port.Links == []
      ensures this.delay == delay && this.throughput == throughput && this.sendTo == sendTo
      ensures delayBufferSize == if 1 <= delay then DelayBufferSize(delay, throughput) else 0
      ensures sendToId == |old(sendTo.Links)|
      ensures sendTo.Links == old(sendTo.Links) + [NewLink(throughput)]
    {
      this.delay := delay;
      this.throughput := throughput;
      this.sendTo := sendTo;
      cyclesClock, occupation := 0, 0;
      var zero: Input<M> := *;
      queueFirst := zero;
      // With a delay of zero the program leaves the ring unallocated and never uses it.
      SizeIsPositive(delay, throughput);
      var size := if delay >= 1 then delay * throughput + throughput - 1 else 0;
      delayBufferSize := size;
      var ring := new CircularBuffer<Input<M>>.Allocate(size);
      delayBuffer := ring;
      port := new Linkable<M>();
      var id := sendTo.ConnectUnsafe(throughput);
      sendToId := id;
    }

    predicate IsEmpty()
      reads this
    {
      occupation == 0
    }

    predicate UseDelayBuffer() {
      delay >= 1
    }

    // Stamps the message with its cycle of removal and queues it, unless the ring is full.
    method Enqueue(elem: M) returns (failed: bool)
      requires Valid() && UseDelayBuffer()
      modifies this, delayBuffer.Repr
      ensures Valid() && fresh(delayBuffer.Repr - old(delayBuffer.Repr))
      ensures cyclesClock == old(cyclesClock)
      ensures failed <==> |old(Queue())| == delayBufferSize + 1
      ensures Queue() == if failed then old(Queue()) else old(Queue()) + [Input(elem, cyclesClock + delay)]
    {
      if delayBuffer.IsFull() {
        return true;
      }
      assert IsEmpty() ==> Queue() == [];
      var input := Input(elem, cyclesClock + delay);
      if IsEmpty() {
        queueFirst := input;
      } else {
        var rejected := delayBuffer.Enqueue(input);
      }
      occupation := occupation + 1;
      failed := false;
    }

    // The first slot takes the next message of the ring.
    method RemoveFirst()
      requires Valid() && !IsEmpty()
      modifies this, delayBuffer.Repr
      ensures Valid() && delayBuffer.Repr == old(delayBuffer.Repr)
      ensures cyclesClock == old(cyclesClock)
      ensures Queue() == old(Queue())[1..]
    {
      ghost var others := delayBuffer.Contents;
      assert Queue()[1..] == others;
      if occupation > 1 {
        var oldest := delayBuffer.Dequeue();
        queueFirst := oldest.value;
        assert others == [queueFirst] + delayBuffer.Contents;
      }
      occupation := occupation - 1;
    }

    // Removes the oldest message if it is due.
    method Dequeue() returns (elem: Option<Input<M>>)
      requires Valid()
      modifies this, delayBuffer.Repr
      ensures Valid() && delayBuffer.Repr == old(delayBuffer.Repr)
      ensures cyclesClock == old(cyclesClock)
      ensures var queue := old(Queue());
        if IsDue(queue, cyclesClock) then elem == Some(queue[0]) && Queue() == queue[1..]
        else elem == None && Queue() == queue
    {
      if IsEmpty() {
        return None;
      }
      if queueFirst.removeAt > cyclesClock {
        return None;
      }
      elem := Some(queueFirst);
      RemoveFirst();
    }

    // Forwards the oldest message if it is due.
    method ForwardOne() returns (sent: bool)
      requires Valid() && UseDelayBuffer()
      modifies this, delayBuffer.Repr, sendTo.Repr
      ensures Valid() && delayBuffer.Repr == old(delayBuffer.Repr)
      ensures fresh(sendTo.Repr - old(sendTo.Repr))
      ensures cyclesClock == old(cyclesClock)
      ensures sent <==> IsDue(old(Queue()), cyclesClock)
      ensures Queue() == if sent then old(Queue())[1..] else old(Queue())
      ensures |sendTo.Links| == |old(sendTo.Links)|
      ensures sendTo.Links == if !sent then old(sendTo.Links) else
        old(sendTo.Links)[sendToId := old(sendTo.Links)[sendToId].SendRequest(old(Queue())[0].elem)]
    {
      var input := Dequeue();
      sent := input.Some?;
      if sent {
        var rejected := sendTo.SendRequest(sendToId, input.value.elem);
      }
    }

    // Forwards every message that is due; the receiver drops what it has no room for.
    method ForwardDue()
      requires Valid() && UseDelayBuffer()
      modifies this, delayBuffer.Repr, sendTo.Repr
      ensures Valid() && delayBuffer.Repr == old(delayBuffer.Repr)
      ensures fresh(sendTo.Repr - old(sendTo.Repr))
      ensures cyclesClock == old(cyclesClock)
      ensures (Queue(), sendTo.Links[sendToId])
        == ForwardAll(old(Queue()), cyclesClock, old(sendTo.Links)[sendToId])
      ensures sendTo.Links == old(sendTo.Links)[sendToId := sendTo.Links[sendToId]]
    {
      var sent := ForwardOne();
      while sent
        invariant Valid() && delayBuffer.Repr == old(delayBuffer.Repr)
        invariant fresh(sendTo.Repr - old(sendTo.Repr))
        invariant cyclesClock == old(cyclesClock)
        invariant !sent ==> !IsDue(Queue(), cyclesClock)
        invariant ForwardAll(Queue(), cyclesClock, sendTo.Links[sendToId])
          == ForwardAll(old(Queue()), cyclesClock, old(sendTo.Links)[sendToId])
        invariant sendTo.Links == old(sendTo.Links)[sendToId := sendTo.Links[sendToId]]
        decreases occupation, sent
      {
        sent := ForwardOne();
      }
    }

    ghost function Hold(): Held<M>
      requires Valid()
      reads this, delayBuffer, delayBuffer.Repr, port, port.Repr, sendTo, sendTo.Repr
    {
      Held(Queue(), sendTo.Links[sendToId])
    }

    // Queues the message, or passes it on at once when there is no delay.
    method TryToHold(message: M) returns (failed: bool)
      requires Valid()
      modifies this, delayBuffer.Repr, sendTo.Repr
      ensures Valid() && fresh(delayBuffer.Repr - old(delayBuffer.Repr))
      ensures fresh(sendTo.Repr - old(sendTo.Repr))
      ensures cyclesClock == old(cyclesClock)
      ensures var offered := Offer(old(Hold()), message, cyclesClock, delay, delayBufferSize + 1);
        if failed then offered == None && Hold() == old(Hold()) else offered == Some(Hold())
      ensures sendTo.Links == old(sendTo.Links)[sendToId := sendTo.Links[sendToId]]
    {
      if UseDelayBuffer() {
        failed := Enqueue(message);
        assert sendTo.Links == old(sendTo.Links);
      } else {
        failed := sendTo.SendRequest(sendToId, message);
        assert Queue() == old(Queue());
      }
    }

    // Receives one message from connection `i`, if there is one.
    method AcceptOne(i: nat) returns (received: bool, failed: bool)
      requires Valid() && i < |port.Links|
      modifies this, delayBuffer.Repr, port.Repr, sendTo.Repr
      ensures Valid() && fresh(delayBuffer.Repr - old(delayBuffer.Repr))
      ensures fresh(sendTo.Repr - old(sendTo.Repr)) && fresh(port.Repr - old(port.Repr))
      ensures cyclesClock == old(cyclesClock)
      ensures port.Links == old(port.Links)[i := old(port.Links)[i].GetRequest()]
      ensures received <==> old(port.Links)[i].request.readable != []
      ensures !received ==> !failed && Hold() == old(Hold()) && port.Links == old(port.Links)
      ensures received ==>
        var message := old(port.Links)[i].request.readable[0];
        var offered := Offer(old(Hold()), message, cyclesClock, delay, delayBufferSize + 1);
        if failed then offered == None && Hold() == old(Hold()) else offered == Some(Hold())
      ensures |sendTo.Links| == |old(sendTo.Links)|
      ensures sendTo.Links == old(sendTo.Links)[sendToId := sendTo.Links[sendToId]]
    {
      assert port.Links[i].request.readable == [] ==>
          port.Links[i := port.Links[i].GetRequest()] == port.Links;
      var message := port.GetRequest(i);
      received, failed := message.Some?, false;
      if received {
        failed := TryToHold(message.value);
      }
    }

    // What is left to happen in this clock once connection `i` is reached.
    ghost function Remaining(failed: bool, i: nat): (Held<M>, seq<Link<M>>)
      requires Valid()
      reads this, delayBuffer, delayBuffer.Repr, port, port.Repr, sendTo, sendTo.Repr
    {
      if failed then (Hold(), port.Links)
      else AcceptAll(Hold(), port.Links, i, cyclesClock, delay, delayBufferSize + 1)
    }

    method AcceptConnection(i: nat) returns (failed: bool)
      requires Valid() && i < |port.Links|
      modifies this, delayBuffer.Repr, port.Repr, sendTo.Repr
      ensures Valid() && fresh(delayBuffer.Repr - old(delayBuffer.Repr))
      ensures fresh(sendTo.Repr - old(sendTo.Repr)) && fresh(port.Repr - old(port.Repr))
      ensures cyclesClock == old(cyclesClock) && |port.Links| == |old(port.Links)|
      ensures Remaining(failed, i + 1) == old(Remaining(false, i))
      ensures sendTo.Links == old(sendTo.Links)[sendToId := sendTo.Links[sendToId]]
    {
      var received: bool;
      received, failed := AcceptOne(i);
      while received && !failed
        invariant Valid() && fresh(delayBuffer.Repr - old(delayBuffer.Repr))
        invariant fresh(sendTo.Repr - old(sendTo.Repr)) && fresh(port.Repr - old(port.Repr))
        invariant cyclesClock == old(cyclesClock) && |port.Links| == |old(port.Links)|
        invariant Remaining(failed, i) == old(Remaining(false, i))
        invariant !received ==> !failed && port.Links[i].request.readable == []
        invariant |sendTo.Links| == |old(sendTo.Links)|
        invariant sendTo.Links == old(sendTo.Links)[sendToId := sendTo.Links[sendToId]]
        decreases |port.Links[i].request.readable|, received
      {
        received, failed := AcceptOne(i);
      }
    }

    // Takes in what waits on the connections, one connection after the other; the first
    // message that is refused is lost and ends the cycle of this component.
    method AcceptWaiting()
      requires Valid()
      modifies this, delayBuffer.Repr, port.Repr, sendTo.Repr
      ensures Valid() && fresh(delayBuffer.Repr - old(delayBuffer.Repr)) && cyclesClock == old(cyclesClock)
      ensures fresh(sendTo.Repr - old(sendTo.Repr)) && fresh(port.Repr - old(port.Repr))
      ensures (Hold(), port.Links) == old(Remaining(false, 0))
      ensures sendTo.Links == old(sendTo.Links)[sendToId := sendTo.Links[sendToId]]
    {
      var failed := false;
      for i := 0 to port.NumberOfConnections()
        invariant Valid() && fresh(delayBuffer.Repr - old(delayBuffer.Repr))
        invariant fresh(sendTo.Repr - old(sendTo.Repr)) && fresh(port.Repr - old(port.Repr))
        invariant cyclesClock == old(cyclesClock) && |port.Links| == |old(port.Links)|
        invariant !failed && Remaining(false, i) == old(Remaining(false, 0))
        invariant |sendTo.Links| == |old(sendTo.Links)|
        invariant sendTo.Links == old(sendTo.Links)[sendToId := sendTo.Links[sendToId]]
      {
        failed := AcceptConnection(i);
        if failed {
          return;
        }
      }
    }

    method Clock()
      requires Valid()
      modifies this, delayBuffer.Repr, port.Repr, sendTo.Repr
      ensures Valid() && fresh(delayBuffer.Repr - old(delayBuffer.Repr)) && cyclesClock == old(cyclesClock) + 1
      ensures fresh(sendTo.Repr - old(sendTo.Repr)) && fresh(port.Repr - old(port.Repr))
      ensures (Hold(), port.Links)
        == OneClock(old(Hold()), old(port.Links), cyclesClock, delay, delayBufferSize + 1)
      ensures sendTo.Links == old(sendTo.Links)[sendToId := sendTo.Links[sendToId]]
    {
      cyclesClock := cyclesClock + 1;
      if UseDelayBuffer() {
        ForwardDue();
      }
      AcceptWaiting();
    }
  }

  // What a message can still end up in during a clock: the queue, or the connection to
  // the receiver.
  datatype Held<M> = Held(queue: seq<Input<M>>, out: Link<M>)

  // One message offered at `clock`; None when it is refused.
  function Offer<M>(held: Held<M>, message: M, clock: nat, delay: nat, capacity: nat): Option<Held<M>> {
    if delay >= 1 then
      (if |held.queue| == capacity then None
       else Some(held.(queue := held.queue + [Input(message, clock + delay)])))
    else
      (if held.out.request.IsFull() then None else Some(held.(out := held.out.SendRequest(message))))
  }

  // Offering what waits on connections `i`, `i + 1`, ... until a message is refused.
  function AcceptAll<M>(held: Held<M>, links: seq<Link<M>>, i: nat, clock: nat, delay: nat, capacity: nat)
    : (Held<M>, seq<Link<M>>)
    decreases |links| - i, if i < |links| then |links[i].request.readable| else 0
  {
    if i >= |links| then (held, links) else
    if links[i].request.readable == [] then AcceptAll(held, links, i + 1, clock, delay, capacity) else
    var rest := links[i := links[i].GetRequest()];
    match Offer(held, links[i].request.readable[0], clock, delay, capacity)
    case None => (held, rest)
    case Some(next) => AcceptAll(next, rest, i, clock, delay, capacity)
  }

  function OneClock<M>(held: Held<M>, links: seq<Link<M>>, clock: nat, delay: nat, capacity: nat)
    : (Held<M>, seq<Link<M>>)
  {
    var (queue, out) := if delay >= 1 then ForwardAll(held.queue, clock, held.out) else (held.queue, held.out);
    AcceptAll(Held(queue, out), links, 0, clock, delay, capacity)
  }

  // Forwarding one due message after the other.
  function ForwardAll<M>(queue: seq<Input<M>>, clock: nat, link: Link<M>): (seq<Input<M>>, Link<M>)
    decreases |queue|
  {
    if !IsDue(queue, clock) then (queue, link)
    else ForwardAll(queue[1..], clock, link.SendRequest(queue[0].elem))
  }

  // The messages of the queue that are forwarded at `clock`, and what is left.
  function Delivered<M>(queue: seq<Input<M>>, clock: nat): seq<M> {
    Elements(queue[..DueCount(queue, clock)])
  }

  function Undelivered<M>(queue: seq<Input<M>>, clock: nat): seq<Input<M>> {
    queue[DueCount(queue, clock)..]
  }

  lemma DeliverOne<M>(first: Input<M>, rest: seq<Input<M>>, clock: nat)
    requires first.removeAt <= clock
    ensures Delivered([first] + rest, clock) == [first.elem] + Delivered(rest, clock)
    ensures Undelivered([first] + rest, clock) == Undelivered(rest, clock)
  {
    assert ([first] + rest)[1..] == rest;
  }

}
