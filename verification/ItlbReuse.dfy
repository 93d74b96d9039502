// What the instruction TLB costs: its misses are exactly the requests whose line was not
// used recently enough, so the time it takes can be told from the addresses alone.
module ItlbReuse {
  import opened Addresses
  import opened CacheSets
  import opened Itlbs
  import opened ItlbService
  import opened ReuseDistance

  // On a miss the TLB writes the address itself.
  function AccessesOf(requests: seq<TLBRequest>): (accesses: seq<Access<Address>>)
    ensures |accesses| == |requests|
  {
    if requests == [] then []
    else
      var last := |requests| - 1;
      AccessesOf(requests[..last]) + [Access(requests[last].addr, requests[last].addr)]
  }

  // The cache of a TLB that has served these requests.
  function Served(split: Split, numWays: nat, requests: seq<TLBRequest>): seq<seq<Way<Address>>>
    requires split.Valid()
  {
    CacheAfter(split, numWays, 0, AccessesOf(requests))
  }

  predicate RecentlyUsed(split: Split, numWays: nat, requests: seq<TLBRequest>, addr: Address)
    requires split.Valid()
  {
    RecentlyAccessed(split, numWays, AccessesOf(requests), addr)
  }

  // The waiting requests whose line was not used recently when they are served.
  function StaleRequests(split: Split, numWays: nat, served: seq<TLBRequest>, pending: seq<TLBRequest>): nat
    requires split.Valid()
    decreases |pending|
  {
    if pending == [] then 0
    else
      (if RecentlyUsed(split, numWays, served, pending[0].addr) then 0 else 1)
        + StaleRequests(split, numWays, served + [pending[0]], pending[1..])
  }

  // No line that is still recent is idle for 2^32 requests to its set.
  ghost predicate SteadyUse(split: Split, numWays: nat, requests: seq<TLBRequest>)
    requires split.Valid()
  {
    forall index: nat :: Steady(TagsIn(split, AccessesOf(requests), index), numWays)
  }

  lemma FewRequestsAreSteady(split: Split, numWays: nat, requests: seq<TLBRequest>)
    requires split.Valid() && |requests| <= WORD
    ensures SteadyUse(split, numWays, requests)
  {
    forall index: nat
      ensures Steady(TagsIn(split, AccessesOf(requests), index), numWays)
    {
      ShortRunsAreSteady(TagsIn(split, AccessesOf(requests), index), numWays);
    }
  }

  lemma OneLess(split: Split, requests: seq<TLBRequest>, request: TLBRequest, index: nat)
    requires split.Valid()
    ensures AccessesOf(requests + [request]) == AccessesOf(requests) + [Access(request.addr, request.addr)]
    ensures TagsIn(split, AccessesOf(requests + [request]), index)
      == TagsIn(split, AccessesOf(requests), index)
        + (if split.GetIndex(request.addr) == index then [split.GetTag(request.addr)] else [])
  {
    var accesses, access := AccessesOf(requests), Access(request.addr, request.addr);
    assert (requests + [request])[..|requests|] == requests;
    assert (accesses + [access])[..|accesses|] == accesses;
  }

  lemma {:induction false} SteadySoFar(
    split: Split, numWays: nat, served: seq<TLBRequest>, pending: seq<TLBRequest>)
    requires split.Valid() && SteadyUse(split, numWays, served + pending)
    ensures SteadyUse(split, numWays, served)
    decreases |pending|
  {
    if pending == [] {
      assert served + pending == served;
    } else {
      var init, last := pending[..|pending| - 1], pending[|pending| - 1];
      assert served + pending == (served + init) + [last];
      forall index: nat
        ensures Steady(TagsIn(split, AccessesOf(served + init), index), numWays)
      {
        OneLess(split, served + init, last, index);
        var tags := TagsIn(split, AccessesOf(served + init), index);
        var more := TagsIn(split, AccessesOf(served + pending), index);
        assert Steady(more, numWays);
        assert more != tags ==> more[..|more| - 1] == tags;
      }
      SteadySoFar(split, numWays, served, init);
    }
  }

  lemma HitIffUsed(split: Split, numWays: nat, served: seq<TLBRequest>, addr: Address)
    requires split.Valid() && numWays >= 1 && SteadyUse(split, numWays, served)
    ensures IsHit(split, Served(split, numWays, served), addr) <==> RecentlyUsed(split, numWays, served, addr)
  {
    IndexInRange(split, addr);
    HitIffRecentlyUsed(split, numWays, 0, AccessesOf(served), addr);
  }

  lemma OneMoreServed(split: Split, numWays: nat, served: seq<TLBRequest>, request: TLBRequest)
    requires split.Valid() && numWays >= 1
    ensures LookedUp(split, Served(split, numWays, served), request.addr)
      == Served(split, numWays, served + [request])
  {
    var accesses, access := AccessesOf(served), Access(request.addr, request.addr);
    OneLess(split, served, request, 0);
    assert (accesses + [access])[..|accesses|] == accesses;
    IndexInRange(split, request.addr);
    CacheCounts(split, numWays, 0, accesses, split.GetIndex(request.addr));
  }

  lemma {:induction false} MissesAreStale(split: Split, numWays: nat, served: seq<TLBRequest>, pending: seq<TLBRequest>)
    requires split.Valid() && numWays >= 1 && SteadyUse(split, numWays, served + pending)
    ensures Misses(split, Served(split, numWays, served), pending)
      == StaleRequests(split, numWays, served, pending)
    decreases |pending|
  {
    if pending != [] {
      SteadySoFar(split, numWays, served, pending);
      HitIffUsed(split, numWays, served, pending[0].addr);
      OneMoreServed(split, numWays, served, pending[0]);
      assert served + pending == (served + [pending[0]]) + pending[1..];
      MissesAreStale(split, numWays, served + [pending[0]], pending[1..]);
    }
  }

  // The time to answer a queue, from nothing but the addresses asked for so far: a clock
  // for each request and the penalty for each whose line was not used recently.
  lemma CostOfAddresses(split: Split, numWays: nat, missPenalty: nat, served: seq<TLBRequest>, pending: seq<TLBRequest>)
    requires split.Valid() && numWays >= 1 && SteadyUse(split, numWays, served + pending)
    ensures Cost(split, missPenalty, Served(split, numWays, served), pending)
      == |pending| + StaleRequests(split, numWays, served, pending) * missPenalty
  {
    CostInClosedForm(split, missPenalty, Served(split, numWays, served), pending);
    MissesAreStale(split, numWays, served, pending);
  }
}
