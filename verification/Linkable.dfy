// Message passing between components (src/engine/linkable.cpp): every connection
// has a request and a response direction, each double buffered and swapped by the
// engine once per cycle.
module Linkables {
  import opened Wrappers
  import opened CircularBuffers

  const SOURCE_ID: nat := 0
  const DEST_ID: nat := 1

  // One direction of a connection, as its two ends see it during a cycle: what has
  // been sent in this cycle and what was sent in the previous one and not yet read.
  datatype Channel<M> = Channel(capacity: nat, sending: seq<M>, readable: seq<M>) {
    predicate IsFull() {
      capacity != 0 && |sending| == capacity
    }

    function Put(message: M): Channel<M> {
      if IsFull() then this else this.(sending := sending + [message])
    }

    function Head(): Option<M> {
      if readable == [] then None else Some(readable[0])
    }

    function Take(): Channel<M> {
      if readable == [] then this else this.(readable := readable[1..])
    }

    // The end of a cycle: what was sent becomes readable, what was not read is lost.
    function Swap(): Channel<M> {
      Channel(capacity, [], sending)
    }
  }

  datatype Link<M> = Link(request: Channel<M>, response: Channel<M>) {
    function SendRequest(message: M): Link<M> {
      this.(request := request.Put(message))
    }

    function GetRequest(): Link<M> {
      this.(request := request.Take())
    }

    function SendResponse(message: M): Link<M> {
      this.(response := response.Put(message))
    }

    function GetResponse(): Link<M> {
      this.(response := response.Take())
    }

    function Swap(): Link<M> {
      Link(request.Swap(), response.Swap())
    }
  }

  function NewLink<M>(bufferSize: nat): Link<M> {
    Link(Channel(bufferSize, [], []), Channel(bufferSize, [], []))
  }

  function SwapAll<M>(links: seq<Link<M>>): seq<Link<M>> {
    seq(|links|, i requires 0 <= i < |links| => links[i].Swap())
  }

  datatype End<M> = Send(message: M) | Receive

  // What the two ends of a channel do to it during one cycle, in any order.
  function Use<M>(channel: Channel<M>, uses: seq<End<M>>): Channel<M>
    decreases |uses|
  {
    if uses == [] then channel else
    match uses[0]
    case Send(message) => Use(channel.Put(message), uses[1..])
    case Receive => Use(channel.Take(), uses[1..])
  }

  function Sends<M>(uses: seq<End<M>>): seq<M> {
    if uses == [] then [] else (if uses[0].Send? then [uses[0].message] else []) + Sends(uses[1..])
  }

  function Receptions<M>(channel: Channel<M>, uses: seq<End<M>>): seq<M>
    decreases |uses|
  {
    if uses == [] then [] else
    match uses[0]
    case Send(message) => Receptions(channel.Put(message), uses[1..])
    case Receive =>
      (if channel.readable == [] then [] else [channel.readable[0]]) + Receptions(channel.Take(), uses[1..])
  }

  function FirstOf<M>(messages: seq<M>, capacity: nat): seq<M> {
    if capacity != 0 && |messages| > capacity then messages[..capacity] else messages
  }

  lemma {:induction false} UseInOrder<M>(channel: Channel<M>, uses: seq<End<M>>)
    requires channel.capacity == 0 || |channel.sending| <= channel.capacity
    ensures Use(channel, uses).capacity == channel.capacity
    ensures Use(channel, uses).sending == FirstOf(channel.sending + Sends(uses), channel.capacity)
    ensures Receptions(channel, uses) + Use(channel, uses).readable == channel.readable
    decreases |uses|
  {
    if uses == [] {
      assert channel.sending + [] == channel.sending;
    } else if uses[0].Send? {
      var message, rest := uses[0].message, Sends(uses[1..]);
      UseInOrder(channel.Put(message), uses[1..]);
      FirstOfPut(channel, message, rest);
    } else {
      UseInOrder(channel.Take(), uses[1..]);
      assert [] + Sends(uses[1..]) == Sends(uses[1..]);
      HeadThenRest(channel, Receptions(channel.Take(), uses[1..]), Use(channel, uses).readable);
    }
  }

  lemma HeadThenRest<M>(channel: Channel<M>, received: seq<M>, left: seq<M>)
    requires received + left == channel.Take().readable
    ensures (if channel.readable == [] then [] else [channel.readable[0]]) + received + left == channel.readable
  {
    if channel.readable != [] {
      assert [channel.readable[0]] + received + left == [channel.readable[0]] + (received + left);
    }
  }

  lemma FirstOfPut<M>(channel: Channel<M>, message: M, rest: seq<M>)
    requires channel.capacity == 0 || |channel.sending| <= channel.capacity
    ensures FirstOf(channel.sending + ([message] + rest), channel.capacity)
         == FirstOf(channel.Put(message).sending + rest, channel.capacity)
  {
    assert channel.sending + ([message] + rest) == (channel.sending + [message]) + rest;
    if channel.IsFull() {
      assert (channel.sending + rest)[..channel.capacity] == channel.sending;
    }
  }

  // A channel is a one-cycle mailbox: in whatever order its two ends are used in a
  // cycle, what becomes readable in the next one is exactly what was sent in this one,
  // in order and up to the capacity, and what is received in this cycle is a prefix of
  // what was sent in the previous one; the rest of that is gone.
  lemma OneCycleMailbox<M>(previous: Channel<M>, uses: seq<End<M>>)
    ensures var next := Use(previous.Swap(), uses).Swap();
      && next == Channel(previous.capacity, [], FirstOf(Sends(uses), previous.capacity))
      && Receptions(previous.Swap(), uses) <= previous.sending
  {
    UseInOrder(previous.Swap(), uses);
    assert [] + Sends(uses) == Sends(uses);
  }

  // The sizes of the two rings for requests: of the one that is sent into and of the other.
  datatype Sizes = Sizes(sending: nat, readable: nat) {
    function Swap(): Sizes {
      Sizes(readable, sending)
    }
  }

  function NewSizes(bufferSize: nat): Sizes {
    var size := if bufferSize == 0 then DEFAULT_BUFFER_SIZE else bufferSize;
    Sizes(size, size)
  }

  // Sending a request into a ring without bound that is full doubles it.
  function Grown<M>(request: Channel<M>, sizes: Sizes): Sizes {
    sizes.(sending := SizeFor(request.capacity, sizes.sending, |request.sending|))
  }

  class Connection<M(0)> {
    const bufferSize: nat
    var requestBuffers: seq<CircularBuffer<M>>
    var responseBuffers: seq<CircularBuffer<M>>
    ghost var Repr: set<object>

    ghost predicate Valid()
      reads this, Repr
      ensures Valid() ==> this in Repr
    {
      && this in Repr
      && |requestBuffers| == |responseBuffers| == 2
      && Owns(requestBuffers[0]) && Owns(requestBuffers[1])
      && Owns(responseBuffers[0]) && Owns(responseBuffers[1])
      && requestBuffers[0].Repr !! requestBuffers[1].Repr !! responseBuffers[0].Repr !! responseBuffers[1].Repr
    }

    ghost predicate Owns(ring: CircularBuffer<M>)
      reads this, Repr
    {
      ring in Repr && ring.Repr <= Repr && this !in ring.Repr && ring.Valid() && ring.maxBufferSize == bufferSize
    }

    ghost function Model(): Link<M>
      requires Valid()
      reads this, Repr
    {
      Link(Channel(bufferSize, requestBuffers[SOURCE_ID].Contents, requestBuffers[DEST_ID].Contents),
           Channel(bufferSize, responseBuffers[DEST_ID].Contents, responseBuffers[SOURCE_ID].Contents))
    }

    ghost function RingSizes(): Sizes
      requires Valid()
      reads this, Repr
    {
      Sizes(requestBuffers[SOURCE_ID].bufferSize, requestBuffers[DEST_ID].bufferSize)
    }

    constructor CreateBuffers(bufferSize: nat)
      ensures Valid() && fresh(Repr)
      ensures Model() == NewLink(bufferSize) && RingSizes() == NewSizes(bufferSize)
    {
      this.bufferSize := bufferSize;
      var first := new CircularBuffer<M>.Allocate(bufferSize);
      var second := new CircularBuffer<M>.Allocate(bufferSize);
      requestBuffers := [first, second];
      var third := new CircularBuffer<M>.Allocate(bufferSize);
      var fourth := new CircularBuffer<M>.Allocate(bufferSize);
      responseBuffers := [third, fourth];
      Repr := {this} + (first.Repr + second.Repr) + (third.Repr + fourth.Repr);
      new;
      assert Owns(first) && Owns(second) && Owns(third) && Owns(fourth);
    }

    method SwapBuffers()
      requires Valid()
      modifies Repr
      ensures Valid() && Repr == old(Repr)
      ensures Model() == old(Model()).Swap() && RingSizes() == old(RingSizes()).Swap()
    {
      requestBuffers := [requestBuffers[1], requestBuffers[0]];
      responseBuffers := [responseBuffers[1], responseBuffers[0]];
      requestBuffers[SOURCE_ID].Flush();
      responseBuffers[DEST_ID].Flush();
    }

    // A ring is not available when it is full as it is, also if it would grow.
    method IsRequestBufferAvailable() returns (available: bool)
      requires Valid()
      ensures available <==> |Model().request.sending| != RingSizes().sending
    {
      available := !requestBuffers[SOURCE_ID].IsFull();
    }

    // 1 in the program, true here, when the ring is full and the message is dropped.
    method InsertIntoRequestBuffer(message: M) returns (failed: bool)
      requires Valid()
      modifies Repr
      ensures Valid() && fresh(Repr - old(Repr))
      ensures failed == old(Model()).request.IsFull()
      ensures Model() == old(Model()).SendRequest(message)
      ensures RingSizes() == Grown(old(Model()).request, old(RingSizes()))
    {
      failed := requestBuffers[SOURCE_ID].Enqueue(message);
      Repr := Repr + requestBuffers[SOURCE_ID].Repr;
    }

    method RemoveFromARequestBuffer() returns (message: Option<M>)
      requires Valid()
      modifies Repr
      ensures Valid() && Repr == old(Repr)
      ensures message == old(Model()).request.Head()
      ensures Model() == old(Model()).GetRequest() && RingSizes() == old(RingSizes())
    {
      message := requestBuffers[DEST_ID].Dequeue();
    }

    method InsertIntoResponseBuffer(message: M) returns (failed: bool)
      requires Valid()
      modifies Repr
      ensures Valid() && fresh(Repr - old(Repr))
      ensures failed == old(Model()).response.IsFull()
      ensures Model() == old(Model()).SendResponse(message) && RingSizes() == old(RingSizes())
    {
      failed := responseBuffers[DEST_ID].Enqueue(message);
      Repr := Repr + responseBuffers[DEST_ID].Repr;
    }

    method RemoveFromAResponseBuffer() returns (message: Option<M>)
      requires Valid()
      modifies Repr
      ensures Valid() && Repr == old(Repr)
      ensures message == old(Model()).response.Head()
      ensures Model() == old(Model()).GetResponse() && RingSizes() == old(RingSizes())
    {
      message := responseBuffers[SOURCE_ID].Dequeue();
    }
  }

  // The base of every component: the connections other components opened to it.
  class Linkable<M(0)> {
    var connections: seq<Connection<M>>
    ghost var Links: seq<Link<M>>   // what the connections hold
    ghost var RingSizes: seq<Sizes>  // how large their rings for requests are
    ghost var Repr: set<object>

    ghost predicate Valid()
      reads this, Repr
      ensures Valid() ==> this in Repr && |Links| == |RingSizes| == |connections|
    {
      && this in Repr && |Links| == |RingSizes| == |connections|
      && (forall i {:trigger connections[i]} :: 0 <= i < |connections| ==>
        Holds(connections[i], Links[i], RingSizes[i]))
      && (forall i, j :: 0 <= i < j < |connections| ==> connections[i].Repr !! connections[j].Repr)
    }

    ghost predicate Holds(connection: Connection<M>, link: Link<M>, sizes: Sizes)
      reads this, Repr
    {
      && connection in Repr && connection.Repr <= Repr && this !in connection.Repr
      && connection.Valid() && connection.Model() == link && connection.RingSizes() == sizes
    }

    constructor ()
      ensures Valid() && fresh(Repr)
      ensures Links == [] && RingSizes == []
    {
      connections, Links, RingSizes := [], [], [];
      Repr := {this};
    }

    function NumberOfConnections(): (n: nat)
      requires Valid()
      reads this, Repr
      ensures n == |Links|
    {
      |connections|
    }

    method Add(connection: Connection<M>, ghost link: Link<M>, ghost sizes: Sizes)
      requires Valid() && connection.Valid() && connection.Model() == link && connection.RingSizes() == sizes
      requires connection.Repr !! Repr
      modifies this
      ensures Valid() && Repr == old(Repr) + connection.Repr
      ensures Links == old(Links) + [link] && RingSizes == old(RingSizes) + [sizes]
    {
      connections := connections + [connection];
      Links := Links + [link];
      RingSizes := RingSizes + [sizes];
      Repr := Repr + connection.Repr;
      assert Holds(connection, link, sizes);
      forall i | 0 <= i < |old(connections)|
        ensures Holds(connections[i], Links[i], RingSizes[i])
      {
        assert old(Holds(connections[i], Links[i], RingSizes[i]));
      }
    }

    method ConnectUnsafe(bufferSize: nat) returns (index: nat)
      requires Valid()
      modifies this
      ensures Valid() && fresh(Repr - old(Repr))
      ensures index == |old(Links)|
      ensures Links == old(Links) + [NewLink(bufferSize)]
      ensures RingSizes == old(RingSizes) + [NewSizes(bufferSize)]
    {
      index := |connections|;
      var connection := new Connection<M>.CreateBuffers(bufferSize);
      Add(connection, NewLink(bufferSize), NewSizes(bufferSize));
    }

    // Brings the record of what the connections hold up to date after one of them was
    // worked on.
    ghost method Changed(id: nat, link: Link<M>, sizes: Sizes)
      requires this in Repr && |Links| == |RingSizes| == |connections| && id < |connections|
      requires forall i :: 0 <= i < |connections| && i != id ==>
        Holds(connections[i], Links[i], RingSizes[i])
      requires connections[id].Valid() && connections[id].Model() == link && this !in connections[id].Repr
      requires connections[id].RingSizes() == sizes
      requires forall i :: 0 <= i < |connections| && i != id ==> connections[i].Repr !! connections[id].Repr
      requires forall i, j :: 0 <= i < j < |connections| && i != id && j != id ==>
        connections[i].Repr !! connections[j].Repr
      modifies this`Repr, this`Links, this`RingSizes
      ensures Valid() && Repr == old(Repr) + connections[id].Repr
      ensures Links == old(Links)[id := link] && RingSizes == old(RingSizes)[id := sizes]
    {
      Repr := Repr + connections[id].Repr;
      Links := Links[id := link];
      RingSizes := RingSizes[id := sizes];
    }

    method IsConnectionAvailable(id: nat) returns (available: bool)
      requires Valid() && id < |Links|
      ensures available <==> |Links[id].request.sending| != RingSizes[id].sending
    {
      assert Holds(connections[id], Links[id], RingSizes[id]);
      available := connections[id].IsRequestBufferAvailable();
    }

    method SendRequest(id: nat, message: M) returns (failed: bool)
      requires Valid() && id < |Links|
      modifies Repr
      ensures Valid() && fresh(Repr - old(Repr))
      ensures failed == old(Links)[id].request.IsFull()
      ensures Links == old(Links)[id := old(Links)[id].SendRequest(message)]
      ensures RingSizes == old(RingSizes)[id := Grown(old(Links)[id].request, old(RingSizes)[id])]
    {
      assert Holds(connections[id], Links[id], RingSizes[id]);
      failed := connections[id].InsertIntoRequestBuffer(message);
      Changed(id, Links[id].SendRequest(message), Grown(Links[id].request, RingSizes[id]));
    }

    method GetRequest(id: nat) returns (message: Option<M>)
      requires Valid() && id < |Links|
      modifies Repr
      ensures Valid() && Repr == old(Repr)
      ensures message == old(Links)[id].request.Head()
      ensures Links == old(Links)[id := old(Links)[id].GetRequest()] && RingSizes == old(RingSizes)
    {
      assert Holds(connections[id], Links[id], RingSizes[id]);
      message := connections[id].RemoveFromARequestBuffer();
      Changed(id, Links[id].GetRequest(), RingSizes[id]);
    }

    method SendResponse(id: nat, message: M) returns (failed: bool)
      requires Valid() && id < |Links|
      modifies Repr
      ensures Valid() && fresh(Repr - old(Repr))
      ensures failed == old(Links)[id].response.IsFull()
      ensures Links == old(Links)[id := old(Links)[id].SendResponse(message)] && RingSizes == old(RingSizes)
    {
      assert Holds(connections[id], Links[id], RingSizes[id]);
      failed := connections[id].InsertIntoResponseBuffer(message);
      Changed(id, Links[id].SendResponse(message), RingSizes[id]);
    }

    method GetResponse(id: nat) returns (message: Option<M>)
      requires Valid() && id < |Links|
      modifies Repr
      ensures Valid() && Repr == old(Repr)
      ensures message == old(Links)[id].response.Head()
      ensures Links == old(Links)[id := old(Links)[id].GetResponse()] && RingSizes == old(RingSizes)
    {
      assert Holds(connections[id], Links[id], RingSizes[id]);
      message := connections[id].RemoveFromAResponseBuffer();
      Changed(id, Links[id].GetResponse(), RingSizes[id]);
    }

    method PosClock()
      requires Valid()
      modifies Repr
      ensures Valid() && Repr == old(Repr)
      ensures Links == SwapAll(old(Links))
      ensures |RingSizes| == |Links| && forall k :: 0 <= k < |Links| ==> RingSizes[k] == old(RingSizes)[k].Swap()
    {
      for i := 0 to |connections|
        invariant Valid() && Repr == old(Repr) && |Links| == |old(Links)|
        invariant forall k :: 0 <= k < i ==> Links[k] == old(Links)[k].Swap()
        invariant forall k :: i <= k < |Links| ==> Links[k] == old(Links)[k]
        invariant forall k :: 0 <= k < i ==> RingSizes[k] == old(RingSizes)[k].Swap()
        invariant forall k :: i <= k < |Links| ==> RingSizes[k] == old(RingSizes)[k]
      {
        SwapOne(i);
      }
    }

    method SwapOne(i: nat)
      requires Valid() && i < |Links|
      modifies Repr
      ensures Valid() && Repr == old(Repr)
      ensures Links == old(Links)[i := old(Links)[i].Swap()]
      ensures RingSizes == old(RingSizes)[i := old(RingSizes)[i].Swap()]
    {
      assert Holds(connections[i], Links[i], RingSizes[i]);
      connections[i].SwapBuffers();
      Changed(i, Links[i].Swap(), RingSizes[i].Swap());
    }
  }

  // Receives all requests that can be read on the only connection.
  method TakeAll<M(0)>(receiver: Linkable<M>) returns (taken: seq<M>)
    requires receiver.Valid() && |receiver.Links| == 1
    modifies receiver.Repr
    ensures receiver.Valid() && fresh(receiver.Repr - old(receiver.Repr))
    ensures taken == old(receiver.Links)[0].request.readable
    ensures var link := old(receiver.Links)[0];
      receiver.Links == [link.(request := link.request.(readable := []))]
  {
    taken := [];
    var more := true;
    while more
      invariant receiver.Valid() && fresh(receiver.Repr - old(receiver.Repr)) && |receiver.Links| == 1
      invariant taken + receiver.Links[0].request.readable == old(receiver.Links)[0].request.readable
      invariant var link := old(receiver.Links)[0];
        receiver.Links == [link.(request := link.request.(readable := receiver.Links[0].request.readable))]
      invariant !more ==> receiver.Links[0].request.readable == []
      decreases |receiver.Links[0].request.readable|, more
    {
      var message := receiver.GetRequest(0);
      if message.Some? {
        taken := taken + [message.value];
      } else {
        more := false;
      }
    }
  }
}
