// Where the answers of the instruction TLB end up, over whole runs on its connections.
module ItlbAnswers {
  import opened Wrappers
  import opened Addresses
  import opened Linkables
  import opened Itlbs
  import opened ItlbService
  import CycleConfluence

  type Operation = CycleConfluence.Operation<Address>

  // The TLB, its connections, and the history of the run: the requests taken in by each
  // clock, the requests answered, and what became readable on each connection.
  datatype World = World(
    tlb: Tlb,
    links: seq<Link<Address>>,
    arrivals: seq<seq<TLBRequest>>,
    answered: seq<TLBRequest>,
    delivered: seq<seq<Address>>)

  predicate OfRequesters(uses: seq<Operation>) {
    forall k :: 0 <= k < |uses| ==> CycleConfluence.OfRequester(uses[k])
  }

  function UseOne(links: seq<Link<Address>>, operation: Operation): (after: seq<Link<Address>>)
    ensures |after| == |links|
  {
    if operation.Idle? || operation.id >= |links| then links
    else links[operation.id := CycleConfluence.Effect(links[operation.id], operation)]
  }

  // What the requesters do in a cycle, in any order and on any connection.
  function UseAll(links: seq<Link<Address>>, uses: seq<Operation>): (after: seq<Link<Address>>)
    ensures |after| == |links|
  {
    if uses == [] then links else
    var n := |uses| - 1;
    UseOne(UseAll(links, uses[..n]), uses[n])
  }

  // One cycle: the requesters, the clock of the TLB, and the swap.
  function Cycle(split: Split, missPenalty: nat, world: World, uses: seq<Operation>): (after: World)
    requires split.Valid() && |world.delivered| == |world.links|
    ensures |after.links| == |world.links| && |after.delivered| == |world.delivered|
  {
    var used := UseAll(world.links, uses);
    var (pending, links) := TakeFrom(world.tlb.pending, used, 0);
    var (tlb, answered) := Serve(split, missPenalty, world.tlb.(pending := pending));
    var swapped := SwapAll(Answer(links, answered));
    World(tlb, swapped, world.arrivals + [TakeFrom([], used, 0).0], world.answered + Listed(answered),
          seq(|swapped|, i requires 0 <= i < |swapped| => world.delivered[i] + swapped[i].response.readable))
  }

  function Opened(sizes: seq<nat>): (links: seq<Link<Address>>)
    ensures |links| == |sizes|
  {
    seq(|sizes|, i requires 0 <= i < |sizes| => NewLink(sizes[i]))
  }

  // A run of cycles on connections of the given sizes.
  function Run(split: Split, missPenalty: nat, start: Tlb, sizes: seq<nat>, cycles: seq<seq<Operation>>): (world: World)
    requires split.Valid()
    ensures |world.links| == |world.delivered| == |sizes|
  {
    if cycles == [] then World(start, Opened(sizes), [], [], seq(|sizes|, _ => []))
    else
      var n := |cycles| - 1;
      Cycle(split, missPenalty, Run(split, missPenalty, start, sizes, cycles[..n]), cycles[n])
  }

  // The addresses of the requests that came in on connection `id`.
  function AddressesOf(requests: seq<TLBRequest>, id: nat): seq<Address> {
    if requests == [] then []
    else
      var n := |requests| - 1;
      AddressesOf(requests[..n], id) + (if requests[n].id == id then [requests[n].addr] else [])
  }

  lemma {:induction false} AddressesConcat(first: seq<TLBRequest>, second: seq<TLBRequest>, id: nat)
    ensures AddressesOf(first + second, id) == AddressesOf(first, id) + AddressesOf(second, id)
    decreases |second|
  {
    if second == [] {
      assert first + second == first;
    } else {
      var n := |second| - 1;
      assert (first + second)[..|first| + n] == first + second[..n];
      AddressesConcat(first, second[..n], id);
    }
  }

  // ------ What a cycle does to the answers

  predicate FromConnections(tlb: Tlb, n: nat) {
    && (tlb.currentPenalty > 0 ==> tlb.curRequest.id < n)
    && forall k :: 0 <= k < |tlb.pending| ==> tlb.pending[k].id < n
  }

  predicate NothingSent(links: seq<Link<Address>>) {
    forall i :: 0 <= i < |links| ==> links[i].response.sending == []
  }

  lemma {:induction false} UsesKeepAnswers(links: seq<Link<Address>>, uses: seq<Operation>)
    requires NothingSent(links) && OfRequesters(uses)
    ensures NothingSent(UseAll(links, uses))
  {
    if uses != [] {
      UsesKeepAnswers(links, uses[..|uses| - 1]);
    }
  }

  lemma {:induction false} TakingKeepsAnswers(pending: seq<TLBRequest>, links: seq<Link<Address>>, id: nat)
    requires NothingSent(links) && forall k :: 0 <= k < |pending| ==> pending[k].id < |links|
    ensures NothingSent(TakeFrom(pending, links, id).1)
    ensures forall k :: 0 <= k < |TakeFrom(pending, links, id).0| ==> TakeFrom(pending, links, id).0[k].id < |links|
    decreases |links| - id
  {
    if id < |links| {
      TakingKeepsAnswers(pending + First(links[id], id), links[id := links[id].GetRequest()], id + 1);
    }
  }

  // An answer finds room on the connection its request came from, and on no other, and
  // can be read there in the next cycle.
  lemma AnswerGoesHome(links: seq<Link<Address>>, answered: Option<TLBRequest>, i: nat)
    requires NothingSent(links) && i < |links|
    ensures SwapAll(Answer(links, answered))[i].response.readable == AddressesOf(Listed(answered), i)
    ensures SwapAll(Answer(links, answered))[i].response.sending == []
  {
    if answered.Some? {
      assert Listed(answered)[..0] == [];
      assert AddressesOf(Listed(answered), i) == if answered.value.id == i then [answered.value.addr] else [];
      assert [] + [answered.value.addr] == [answered.value.addr];
    }
  }

  lemma ServeKeepsIds(split: Split, missPenalty: nat, tlb: Tlb, n: nat)
    requires split.Valid() && FromConnections(tlb, n)
    ensures FromConnections(Serve(split, missPenalty, tlb).0, n)
  {
  }

  ghost predicate Delivers(world: World) {
    && |world.delivered| == |world.links|
    && FromConnections(world.tlb, |world.links|) && NothingSent(world.links)
    && forall i :: 0 <= i < |world.links| ==> world.delivered[i] == AddressesOf(world.answered, i)
  }

  lemma CycleDelivers(split: Split, missPenalty: nat, world: World, uses: seq<Operation>)
    requires split.Valid() && Delivers(world) && OfRequesters(uses)
    ensures Delivers(Cycle(split, missPenalty, world, uses))
  {
    var used := UseAll(world.links, uses);
    UsesKeepAnswers(world.links, uses);
    TakingKeepsAnswers(world.tlb.pending, used, 0);
    var (pending, links) := TakeFrom(world.tlb.pending, used, 0);
    var tlb := world.tlb.(pending := pending);
    ServeKeepsIds(split, missPenalty, tlb, |links|);
    var answered := Serve(split, missPenalty, tlb).1;
    var after := Cycle(split, missPenalty, world, uses);
    forall i | 0 <= i < |after.links|
      ensures after.links[i].response.sending == []
      ensures after.delivered[i] == AddressesOf(after.answered, i)
    {
      AnswerGoesHome(links, answered, i);
      AddressesConcat(world.answered, Listed(answered), i);
    }
  }

  // ------ What is taken in

  function FirstOf(addresses: seq<Address>): seq<Address> {
    if addresses == [] then [] else [addresses[0]]
  }

  lemma OneTaken(pending: seq<TLBRequest>, link: Link<Address>, from: nat, id: nat)
    ensures AddressesOf(pending + First(link, from), id)
      == AddressesOf(pending, id) + (if from == id then FirstOf(link.request.readable) else [])
  {
    var first := First(link, from);
    AddressesConcat(pending, first, id);
    if first != [] {
      assert first[..0] == [];
      assert AddressesOf(first, id) == if from == id then FirstOf(link.request.readable) else [];
    }
  }

  // A clock takes in the first request that is waiting on each connection, remembers it as
  // one of that connection, and removes it from there and nowhere else.
  lemma {:induction false} TakenFromEach(pending: seq<TLBRequest>, links: seq<Link<Address>>, from: nat, id: nat)
    requires id < |links|
    ensures var (taken, after) := TakeFrom(pending, links, from);
      && AddressesOf(taken, id)
        == AddressesOf(pending, id) + (if from <= id then FirstOf(links[id].request.readable) else [])
      && after[id] == if from <= id then links[id].GetRequest() else links[id]
    decreases |links| - from
  {
    if from < |links| {
      var more, rest := pending + First(links[from], from), links[from := links[from].GetRequest()];
      OneTaken(pending, links[from], from, id);
      TakenFromEach(more, rest, from + 1, id);
      assert TakeFrom(pending, links, from) == TakeFrom(more, rest, from + 1);
      NothingBehind(AddressesOf(pending, id));
      NothingBehind(AddressesOf(more, id));
    } else {
      NothingBehind(AddressesOf(pending, id));
    }
  }

  lemma NothingBehind<T>(s: seq<T>)
    ensures s + [] == s
  {
  }

  // The first request that the requester of a connection sends in a cycle.
  function FirstSent(uses: seq<Operation>, id: nat): seq<Address> {
    if uses == [] then []
    else
      var n := |uses| - 1;
      var before := FirstSent(uses[..n], id);
      if before == [] && uses[n].SendRequest? && uses[n].id == id then [uses[n].message] else before
  }

  lemma {:induction false} UsesSend(links: seq<Link<Address>>, uses: seq<Operation>, id: nat)
    requires OfRequesters(uses) && id < |links| && links[id].request.sending == []
    ensures var after := UseAll(links, uses)[id];
      && FirstOf(after.request.sending) == FirstSent(uses, id)
      && after.request.readable == links[id].request.readable
  {
    if uses != [] {
      UsesSend(links, uses[..|uses| - 1], id);
    }
  }

  // The first requests of the cycles on a connection, one behind the other.
  function Asked(cycles: seq<seq<Operation>>, id: nat): seq<Address> {
    if cycles == [] then []
    else Asked(cycles[..|cycles| - 1], id) + FirstSent(cycles[|cycles| - 1], id)
  }

  // At the start of a cycle: what was sent in the cycle before is waiting.
  ghost predicate Awaits(world: World, cycles: seq<seq<Operation>>, id: nat) {
    && id < |world.links| && world.links[id].request.sending == []
    && FirstOf(world.links[id].request.readable)
      == if cycles == [] then [] else FirstSent(cycles[|cycles| - 1], id)
  }

  lemma AnsweringKeepsRequests(links: seq<Link<Address>>, answered: Option<TLBRequest>, id: nat)
    requires id < |links|
    ensures Answer(links, answered)[id].request == links[id].request
  {
  }

  lemma CycleAwaits(split: Split, missPenalty: nat, world: World, cycles: seq<seq<Operation>>, id: nat)
    requires split.Valid() && |world.delivered| == |world.links| && cycles != []
    requires OfRequesters(cycles[|cycles| - 1]) && Awaits(world, cycles[..|cycles| - 1], id)
    ensures Awaits(Cycle(split, missPenalty, world, cycles[|cycles| - 1]), cycles, id)
  {
    var uses := cycles[|cycles| - 1];
    var used := UseAll(world.links, uses);
    var (pending, links) := TakeFrom(world.tlb.pending, used, 0);
    UsesSend(world.links, uses, id);
    TakenFromEach(world.tlb.pending, used, 0, id);
    AnsweringKeepsRequests(links, Serve(split, missPenalty, world.tlb.(pending := pending)).1, id);
  }

  lemma CycleTakes(split: Split, missPenalty: nat, world: World, uses: seq<Operation>, id: nat)
    requires split.Valid() && |world.delivered| == |world.links| && OfRequesters(uses)
    requires id < |world.links| && world.links[id].request.sending == []
    ensures AddressesOf(Taken(Cycle(split, missPenalty, world, uses).arrivals), id)
      == AddressesOf(Taken(world.arrivals), id) + FirstOf(world.links[id].request.readable)
  {
    var used := UseAll(world.links, uses);
    var arrived := TakeFrom([], used, 0).0;
    UsesSend(world.links, uses, id);
    TakenFromEach([], used, 0, id);
    assert (world.arrivals + [arrived])[..|world.arrivals|] == world.arrivals;
    assert [] + FirstOf(used[id].request.readable) == FirstOf(used[id].request.readable);
    AddressesConcat(Taken(world.arrivals), arrived, id);
  }

  // Taken in on a connection is, cycle by cycle, the first request sent on it in the cycle
  // before.
  lemma {:induction false} TakenIsAsked(
    split: Split, missPenalty: nat, start: Tlb, sizes: seq<nat>, cycles: seq<seq<Operation>>, id: nat)
    requires split.Valid() && id < |sizes|
    requires forall k :: 0 <= k < |cycles| ==> OfRequesters(cycles[k])
    ensures var world := Run(split, missPenalty, start, sizes, cycles);
      && Awaits(world, cycles, id)
      && AddressesOf(Taken(world.arrivals), id) == if cycles == [] then [] else Asked(cycles[..|cycles| - 1], id)
  {
    if cycles != [] {
      var n := |cycles| - 1;
      var before := cycles[..n];
      TakenIsAsked(split, missPenalty, start, sizes, before, id);
      CycleAwaits(split, missPenalty, Run(split, missPenalty, start, sizes, before), cycles, id);
      CycleTakes(split, missPenalty, Run(split, missPenalty, start, sizes, before), cycles[n], id);
    }
  }

  // ------ Whole runs

  lemma {:induction false} RunDelivers(
    split: Split, missPenalty: nat, start: Tlb, sizes: seq<nat>, cycles: seq<seq<Operation>>)
    requires split.Valid() && FromConnections(start, |sizes|)
    requires forall k :: 0 <= k < |cycles| ==> OfRequesters(cycles[k])
    ensures Delivers(Run(split, missPenalty, start, sizes, cycles))
  {
    if cycles != [] {
      var n := |cycles| - 1;
      RunDelivers(split, missPenalty, start, sizes, cycles[..n]);
      CycleDelivers(split, missPenalty, Run(split, missPenalty, start, sizes, cycles[..n]), cycles[n]);
    }
  }

  lemma {:induction false} RunSimulates(
    split: Split, missPenalty: nat, start: Tlb, sizes: seq<nat>, cycles: seq<seq<Operation>>)
    requires split.Valid()
    ensures var world := Run(split, missPenalty, start, sizes, cycles);
      var service := Simulate(split, missPenalty, start, world.arrivals);
      world.tlb == service.tlb && world.answered == service.answered
  {
    if cycles != [] {
      var n := |cycles| - 1;
      RunSimulates(split, missPenalty, start, sizes, cycles[..n]);
      var before := Run(split, missPenalty, start, sizes, cycles[..n]);
      var used := UseAll(before.links, cycles[n]);
      ArrivalsAppend(before.tlb.pending, used, 0);
      assert (before.arrivals + [TakeFrom([], used, 0).0])[..|before.arrivals|] == before.arrivals;
    }
  }

  function Taken(arrivals: seq<seq<TLBRequest>>): seq<TLBRequest> {
    if arrivals == [] then [] else Taken(arrivals[..|arrivals| - 1]) + arrivals[|arrivals| - 1]
  }

  lemma {:induction false} ReceivedIsTaken(split: Split, missPenalty: nat, start: Tlb, arrivals: seq<seq<TLBRequest>>)
    requires split.Valid()
    ensures Simulate(split, missPenalty, start, arrivals).received == InService(start) + start.pending + Taken(arrivals)
  {
    if arrivals != [] {
      ReceivedIsTaken(split, missPenalty, start, arrivals[..|arrivals| - 1]);
    }
  }

  // Whatever the requesters do: what a connection has been delivered are the addresses of
  // the first requests sent on it in each of the earlier cycles, in order, as far as they
  // have been answered; the rest of them is in service or waiting.
  lemma AnswersGoHome(
    split: Split, missPenalty: nat, start: Tlb, sizes: seq<nat>, cycles: seq<seq<Operation>>, id: nat)
    requires split.Valid() && missPenalty >= 1 && id < |sizes| && cycles != []
    requires start.currentPenalty <= 0 && start.pending == []
    requires forall k :: 0 <= k < |cycles| ==> OfRequesters(cycles[k])
    ensures var world := Run(split, missPenalty, start, sizes, cycles);
      && world.delivered[id] == AddressesOf(world.answered, id)
      && Asked(cycles[..|cycles| - 1], id)
        == world.delivered[id] + AddressesOf(InService(world.tlb) + world.tlb.pending, id)
  {
    RunDelivers(split, missPenalty, start, sizes, cycles);
    RunSimulates(split, missPenalty, start, sizes, cycles);
    TakenIsAsked(split, missPenalty, start, sizes, cycles, id);
    var world := Run(split, missPenalty, start, sizes, cycles);
    EveryRequestIsAnsweredInOrder(split, missPenalty, start, world.arrivals);
    ReceivedIsTaken(split, missPenalty, start, world.arrivals);
    assert [] + Taken(world.arrivals) == Taken(world.arrivals);
    AddressesConcat(world.answered, InService(world.tlb) + world.tlb.pending, id);
  }

  // ------ The TLB itself

  function LinksOf(wires: seq<CycleConfluence.Wire<Address>>): seq<Link<Address>> {
    seq(|wires|, i requires 0 <= i < |wires| => wires[i].link)
  }

  lemma ApplyIsUse(wires: seq<CycleConfluence.Wire<Address>>, operation: Operation)
    ensures LinksOf(CycleConfluence.Apply(wires, operation).0) == UseOne(LinksOf(wires), operation)
  {
    if !operation.Idle? && operation.id < |wires| {
      assert CycleConfluence.Apply(wires, operation).0
        == wires[operation.id := CycleConfluence.ApplyToWire(wires[operation.id], operation).0];
    }
  }

  method UsePort(port: Linkable<Address>, operation: Operation)
    requires port.Valid()
    modifies port.Repr
    ensures port.Valid() && fresh(port.Repr - old(port.Repr))
    ensures port.Links == UseOne(old(port.Links), operation)
  {
    ApplyIsUse(CycleConfluence.Wires(port), operation);
    assert LinksOf(CycleConfluence.Wires(port)) == port.Links;
    var outcome := CycleConfluence.Perform(port, operation);
    assert LinksOf(CycleConfluence.Wires(port)) == port.Links;
  }

  method UsePortAll(port: Linkable<Address>, uses: seq<Operation>)
    requires port.Valid()
    modifies port.Repr
    ensures port.Valid() && fresh(port.Repr - old(port.Repr))
    ensures port.Links == UseAll(old(port.Links), uses)
  {
    for n := 0 to |uses|
      invariant port.Valid() && fresh(port.Repr - old(port.Repr))
      invariant port.Links == UseAll(old(port.Links), uses[..n])
    {
      assert uses[..n + 1][..n] == uses[..n];
      UsePort(port, uses[n]);
    }
    assert uses[..|uses|] == uses;
  }

  // A cycle as the requesters, the TLB and the engine run it.
  method OneCycle(tlb: iTLB, uses: seq<Operation>, ghost world: World) returns (ghost after: World)
    requires tlb.Valid() && |world.delivered| == |world.links|
    requires world.tlb == tlb.Model() && world.links == tlb.port.Links
    modifies tlb, tlb.port.Repr, tlb.pendingRequests.Repr, tlb.cache.Repr()
    ensures tlb.Valid() && fresh(tlb.port.Repr - old(tlb.port.Repr))
    ensures fresh(tlb.pendingRequests.Repr - old(tlb.pendingRequests.Repr))
    ensures after == Cycle(tlb.cache.split, tlb.missPenalty, world, uses)
    ensures after.tlb == tlb.Model() && after.links == tlb.port.Links
  {
    UsePortAll(tlb.port, uses);
    tlb.Clock();
    tlb.port.PosClock();
    after := Cycle(tlb.cache.split, tlb.missPenalty, world, uses);
  }
}
