// The instruction TLB: a queue of requests served one at a time by a cache, with a
// penalty for every miss (src/std_components/memory/itlb.cpp).
module Itlbs {
  import opened Wrappers
  import opened Addresses
  import opened CircularBuffers
  import opened Linkables
  import opened CacheSets
  import opened CacheMemories

  const NO_PENALTY := -1

  datatype TLBRequest = TLBRequest(id: nat, addr: Address)

  // ------ One clock on values

  datatype Tlb = Tlb(
    pending: seq<TLBRequest>,
    currentPenalty: int,
    curRequest: TLBRequest,
    sets: seq<seq<Way<Address>>>)

  // At most one request of every connection is taken in per clock, in connection order.
  function TakeFrom(pending: seq<TLBRequest>, links: seq<Link<Address>>, id: nat)
    : (result: (seq<TLBRequest>, seq<Link<Address>>))
    ensures |result.1| == |links|
    decreases |links| - id
  {
    if id >= |links| then (pending, links)
    else TakeFrom(pending + First(links[id], id), links[id := links[id].GetRequest()], id + 1)
  }

  function First(link: Link<Address>, id: nat): seq<TLBRequest> {
    if link.request.readable == [] then [] else [TLBRequest(id, link.request.readable[0])]
  }

  predicate IsHit(split: Split, sets: seq<seq<Way<Address>>>, addr: Address)
    requires split.Valid()
  {
    split.GetIndex(addr) < |sets| && ReadSet(sets[split.GetIndex(addr)], split.GetTag(addr)).1.Some?
  }

  // The cache after a request was looked up and, on a miss, written.
  function LookedUp(split: Split, sets: seq<seq<Way<Address>>>, addr: Address): (after: seq<seq<Way<Address>>>)
    requires split.Valid()
    ensures |after| == |sets|
  {
    var index, tag := split.GetIndex(addr), split.GetTag(addr);
    if index >= |sets| || sets[index] == [] then sets
    else if IsHit(split, sets, addr) then sets[index := ReadSet(sets[index], tag).0]
    else sets[index := WriteSet(sets[index], tag, addr)]
  }

  // The state after serving for one clock, and the request answered in it.
  function Serve(split: Split, missPenalty: nat, tlb: Tlb): (Tlb, Option<TLBRequest>)
    requires split.Valid()
  {
    if tlb.currentPenalty > 0 then
      if tlb.currentPenalty == 1
        then (tlb.(currentPenalty := NO_PENALTY), Some(tlb.curRequest))
        else (tlb.(currentPenalty := tlb.currentPenalty - 1), None)
    else if tlb.pending == [] then (tlb, None)
    else
      var request := tlb.pending[0];
      var sets := LookedUp(split, tlb.sets, request.addr);
      if IsHit(split, tlb.sets, request.addr)
        then (Tlb(tlb.pending[1..], tlb.currentPenalty, request, sets), Some(request))
        else (Tlb(tlb.pending[1..], missPenalty, request, sets), None)
  }

  function Answer(links: seq<Link<Address>>, answered: Option<TLBRequest>): (after: seq<Link<Address>>)
    ensures |after| == |links|
  {
    if answered.Some? && answered.value.id < |links| then
      links[answered.value.id := links[answered.value.id].SendResponse(answered.value.addr)]
    else links
  }

  function Clocked(split: Split, missPenalty: nat, tlb: Tlb, taken: seq<TLBRequest>): (Tlb, Option<TLBRequest>)
    requires split.Valid()
  {
    Serve(split, missPenalty, tlb.(pending := tlb.pending + taken))
  }

  // ------ The component

  class iTLB {
    const port: Linkable<Address>
    const pendingRequests: CircularBuffer<TLBRequest>
    const cache: CacheMemory<Address>
    const missPenalty: nat
    var numberOfRequests: nat
    var currentPenalty: int
    var curRequest: TLBRequest

    ghost predicate Valid()
      reads this, port, port.Repr, pendingRequests, pendingRequests.Repr, cache, cache.Repr()
    {
      && port.Valid() && pendingRequests.Valid() && pendingRequests.maxBufferSize == 0
      && cache.Valid()
      && {this} !! port.Repr !! pendingRequests.Repr !! cache.Repr()
      && (currentPenalty > 0 ==> curRequest.id < |port.Links|)
      && forall k :: 0 <= k < |pendingRequests.Contents| ==> pendingRequests.Contents[k].id < |port.Links|
    }

    ghost function Model(): Tlb
      reads this, pendingRequests, cache
    {
      Tlb(pendingRequests.Contents, currentPenalty, curRequest, cache.Sets)
    }

    constructor Configure(split: Split, numWays: nat, missPenalty: nat)
      requires split.Valid() && 1 <= numWays
      ensures Valid() && fresh(port.Repr) && fresh(pendingRequests.Repr) && fresh(cache.Repr())
      ensures this.missPenalty == missPenalty && cache.split == split && cache.numWays == numWays
      ensures forall s, w :: 0 <= s < cache.numSets && 0 <= w < numWays ==> cache.Sets[s][w] == Way(false, 0, 0, 0)
      ensures Model().pending == [] && currentPenalty == NO_PENALTY && port.Links == [] && numberOfRequests == 0
    {
      port := new Linkable<Address>();
      pendingRequests := new CircularBuffer<TLBRequest>.Allocate(0);
      cache := new CacheMemory<Address>.Alocate(split, numWays, 0);
      this.missPenalty := missPenalty;
      numberOfRequests := 0;
      currentPenalty := NO_PENALTY;
      curRequest := TLBRequest(0, 0);
    }

    method Remember(request: TLBRequest)
      requires Valid() && request.id < |port.Links|
      modifies this`numberOfRequests, pendingRequests.Repr
      ensures Valid() && fresh(pendingRequests.Repr - old(pendingRequests.Repr))
      ensures Model() == old(Model()).(pending := old(Model()).pending + [request])
      ensures numberOfRequests == old(numberOfRequests) + 1
    {
      numberOfRequests := numberOfRequests + 1;
      var rejected := pendingRequests.Enqueue(request);
    }

    method TakeOne(id: nat)
      requires Valid() && id < |port.Links|
      modifies this`numberOfRequests, port.Repr, pendingRequests.Repr
      ensures Valid() && fresh(pendingRequests.Repr - old(pendingRequests.Repr))
      ensures fresh(port.Repr - old(port.Repr))
      ensures port.Links == old(port.Links)[id := old(port.Links)[id].GetRequest()]
      ensures Model() == old(Model()).(pending := old(Model()).pending + First(old(port.Links)[id], id))
      ensures numberOfRequests == old(numberOfRequests) + |First(old(port.Links)[id], id)|
    {
      var request := port.GetRequest(id);
      if request.Some? {
        Remember(TLBRequest(id, request.value));
      }
    }

    method TakeIn()
      requires Valid()
      modifies this`numberOfRequests, port.Repr, pendingRequests.Repr
      ensures Valid() && fresh(pendingRequests.Repr - old(pendingRequests.Repr))
      ensures fresh(port.Repr - old(port.Repr))
      ensures var taken := TakeFrom(old(Model()).pending, old(port.Links), 0);
        && port.Links == taken.1
        && Model() == old(Model()).(pending := taken.0)
        && numberOfRequests == old(numberOfRequests) + |taken.0| - |old(Model()).pending|
    {
      for id := 0 to port.NumberOfConnections()
        invariant Valid() && fresh(pendingRequests.Repr - old(pendingRequests.Repr))
        invariant fresh(port.Repr - old(port.Repr))
        invariant |port.Links| == |old(port.Links)|
        invariant TakeFrom(Model().pending, port.Links, id)
          == TakeFrom(old(Model()).pending, old(port.Links), 0)
        invariant Model() == old(Model()).(pending := Model().pending)
        invariant numberOfRequests == old(numberOfRequests) + |Model().pending| - |old(Model()).pending|
      {
        TakeOne(id);
      }
    }

    // Looks an address up and, on a miss, writes it.
    method LookUp(addr: Address) returns (hit: bool)
      requires Valid()
      modifies cache.Repr()
      ensures Valid()
      ensures hit == IsHit(cache.split, old(cache.Sets), addr)
      ensures cache.Sets == LookedUp(cache.split, old(cache.Sets), addr)
    {
      var index := cache.GetIndex(addr);
      var found := cache.Read(addr);
      hit := found.Some?;
      if !hit {
        assert cache.Sets == old(cache.Sets);
        cache.Write(addr, addr);
      }
    }

    // Answers the request in `curRequest`.
    method Reply()
      requires Valid() && curRequest.id < |port.Links|
      modifies port.Repr
      ensures Valid() && fresh(port.Repr - old(port.Repr))
      ensures port.Links == Answer(old(port.Links), Some(curRequest))
    {
      var dropped := port.SendResponse(curRequest.id, curRequest.addr);
    }

    // One clock of waiting for a missed request; the last one answers it.
    method PayPenalty()
      requires Valid() && currentPenalty > 0
      modifies this, port.Repr
      ensures Valid() && fresh(port.Repr - old(port.Repr)) && numberOfRequests == old(numberOfRequests)
      ensures var served := Serve(cache.split, missPenalty, old(Model()));
        Model() == served.0 && port.Links == Answer(old(port.Links), served.1)
    {
      currentPenalty := currentPenalty - 1;
      if currentPenalty == 0 {
        currentPenalty := NO_PENALTY;
        Reply();
      }
    }

    method TakeUp() returns (taken: bool)
      requires Valid() && currentPenalty <= 0
      modifies this`curRequest, pendingRequests.Repr
      ensures Valid() && fresh(pendingRequests.Repr - old(pendingRequests.Repr))
      ensures taken <==> old(pendingRequests.Contents) != []
      ensures taken ==>
        && curRequest == old(pendingRequests.Contents)[0] && curRequest.id < |port.Links|
        && pendingRequests.Contents == old(pendingRequests.Contents)[1..]
      ensures !taken ==> Model() == old(Model())
    {
      var request := pendingRequests.Dequeue();
      taken := request.Some?;
      if taken {
        assert forall k :: 0 <= k < |pendingRequests.Contents| ==>
          pendingRequests.Contents[k] == old(pendingRequests.Contents)[k + 1];
        curRequest := request.value;
      }
    }

    method ServeOne()
      requires Valid()
      modifies this, port.Repr, pendingRequests.Repr, cache.Repr()
      ensures Valid() && fresh(pendingRequests.Repr - old(pendingRequests.Repr))
      ensures fresh(port.Repr - old(port.Repr))
      ensures var served := Serve(cache.split, missPenalty, old(Model()));
        Model() == served.0 && port.Links == Answer(old(port.Links), served.1)
      ensures numberOfRequests == old(numberOfRequests)
    {
      if currentPenalty > 0 {
        PayPenalty();
      } else {
        ServeNext();
      }
    }

    method ServeNext()
      requires Valid() && currentPenalty <= 0
      modifies this, port.Repr, pendingRequests.Repr, cache.Repr()
      ensures Valid() && fresh(pendingRequests.Repr - old(pendingRequests.Repr))
      ensures fresh(port.Repr - old(port.Repr))
      ensures var served := Serve(cache.split, missPenalty, old(Model()));
        Model() == served.0 && port.Links == Answer(old(port.Links), served.1)
      ensures numberOfRequests == old(numberOfRequests)
    {
      var taken := TakeUp();
      if taken {
        ServeCurrent();
      }
    }

    method ServeCurrent()
      requires Valid() && currentPenalty <= 0 && curRequest.id < |port.Links|
      modifies this`currentPenalty, port.Repr, cache.Repr()
      ensures Valid() && fresh(port.Repr - old(port.Repr))
      ensures pendingRequests.Contents == old(pendingRequests.Contents)
      ensures cache.Sets == LookedUp(cache.split, old(cache.Sets), curRequest.addr)
      ensures if IsHit(cache.split, old(cache.Sets), curRequest.addr)
        then port.Links == Answer(old(port.Links), Some(curRequest)) && currentPenalty == old(currentPenalty)
        else port.Links == old(port.Links) && currentPenalty == missPenalty
    {
      var hit := LookUp(curRequest.addr);
      if hit {
        Reply();
      } else {
        currentPenalty := missPenalty;
      }
    }

    method Clock()
      requires Valid()
      modifies this, port.Repr, pendingRequests.Repr, cache.Repr()
      ensures Valid() && fresh(pendingRequests.Repr - old(pendingRequests.Repr))
      ensures fresh(port.Repr - old(port.Repr))
      ensures var taken := TakeFrom(old(Model()).pending, old(port.Links), 0);
        var served := Serve(cache.split, missPenalty, old(Model()).(pending := taken.0));
        && Model() == served.0
        && port.Links == Answer(taken.1, served.1)
        && numberOfRequests == old(numberOfRequests) + |taken.0| - |old(Model()).pending|
    {
      TakeIn();
      ServeOne();
    }
  }
}
