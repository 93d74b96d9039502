// What the instruction TLB does over whole runs: every request is answered once, in
// order of arrival, and exactly on time.
module ItlbService {
  import opened Wrappers
  import opened Addresses
  import opened Linkables
  import opened CacheSets
  import opened Itlbs
  import opened ReuseDistance

  // ------ Conservation

  // The request that waits for its penalty to be paid.
  function InService(tlb: Tlb): seq<TLBRequest> {
    if tlb.currentPenalty > 0 then [tlb.curRequest] else []
  }

  function Listed(answered: Option<TLBRequest>): seq<TLBRequest> {
    match answered case None => [] case Some(request) => [request]
  }

  // A clock that takes up a request which misses.
  predicate StartsMiss(split: Split, tlb: Tlb)
    requires split.Valid()
  {
    tlb.currentPenalty <= 0 && tlb.pending != [] && !IsHit(split, tlb.sets, tlb.pending[0].addr)
  }

  // Between two clocks there is either no penalty, or one that is left of a miss; while it
  // is paid nothing else is served.
  lemma PenaltyInRange(split: Split, missPenalty: nat, tlb: Tlb)
    requires split.Valid() && missPenalty >= 1
    requires tlb.currentPenalty == -1 || 1 <= tlb.currentPenalty <= missPenalty
    ensures var (after, answered) := Serve(split, missPenalty, tlb);
      && (after.currentPenalty == -1 || 1 <= after.currentPenalty <= missPenalty)
      && (tlb.currentPenalty >= 1 ==> after == tlb.(currentPenalty := after.currentPenalty))
      && (tlb.currentPenalty >= 2 ==> after.currentPenalty == tlb.currentPenalty - 1 && answered == None)
      && (tlb.currentPenalty == 1 ==> answered == Some(tlb.curRequest) && after.currentPenalty == -1)
  {
  }

  // A clock answers, keeps in service or keeps waiting every request there is, unless it
  // takes up a miss and the penalty is zero: that request is never answered.
  lemma ClockConserves(split: Split, missPenalty: nat, tlb: Tlb)
    requires split.Valid()
    ensures var (after, answered) := Serve(split, missPenalty, tlb);
      (Listed(answered) + InService(after) + after.pending == InService(tlb) + tlb.pending)
        <==> (missPenalty >= 1 || !StartsMiss(split, tlb))
  {
    var (after, answered) := Serve(split, missPenalty, tlb);
    if tlb.currentPenalty <= 0 && tlb.pending != [] {
      assert tlb.pending == [tlb.pending[0]] + tlb.pending[1..];
      if missPenalty == 0 && StartsMiss(split, tlb) {
        assert |Listed(answered) + InService(after) + after.pending| < |InService(tlb) + tlb.pending|;
      }
    }
  }

  datatype Service = Service(tlb: Tlb, received: seq<TLBRequest>, answered: seq<TLBRequest>)

  // One clock after the other, with the requests taken in by each.
  function Simulate(split: Split, missPenalty: nat, start: Tlb, arrivals: seq<seq<TLBRequest>>): Service
    requires split.Valid()
  {
    if arrivals == [] then Service(start, InService(start) + start.pending, []) else
    var n := |arrivals| - 1;
    var before := Simulate(split, missPenalty, start, arrivals[..n]);
    var (tlb, answered) := Clocked(split, missPenalty, before.tlb, arrivals[n]);
    Service(tlb, before.received + arrivals[n], before.answered + Listed(answered))
  }

  // The requests lost: with a penalty of zero, one for each clock that takes up a miss.
  function Lost(split: Split, missPenalty: nat, start: Tlb, arrivals: seq<seq<TLBRequest>>): nat
    requires split.Valid()
  {
    if arrivals == [] || missPenalty >= 1 then 0 else
    var n := |arrivals| - 1;
    var before := Simulate(split, missPenalty, start, arrivals[..n]).tlb;
    Lost(split, missPenalty, start, arrivals[..n])
      + if StartsMiss(split, before.(pending := before.pending + arrivals[n])) then 1 else 0
  }

  // received = answered + in service + waiting, as sequences, exactly as long as nothing is
  // lost: then nothing is answered twice, and the order of arrival is that of the answers.
  lemma {:induction false} AnsweredInOrderIffNothingIsLost(
    split: Split, missPenalty: nat, start: Tlb, arrivals: seq<seq<TLBRequest>>)
    requires split.Valid()
    ensures var service := Simulate(split, missPenalty, start, arrivals);
      && |service.received| == |service.answered| + |InService(service.tlb)| + |service.tlb.pending|
        + Lost(split, missPenalty, start, arrivals)
      && (service.received == service.answered + (InService(service.tlb) + service.tlb.pending)
        <==> Lost(split, missPenalty, start, arrivals) == 0)
  {
    if arrivals != [] {
      var n := |arrivals| - 1;
      AnsweredInOrderIffNothingIsLost(split, missPenalty, start, arrivals[..n]);
      var before := Simulate(split, missPenalty, start, arrivals[..n]);
      var tlb := before.tlb.(pending := before.tlb.pending + arrivals[n]);
      ClockConserves(split, missPenalty, tlb);
      ClockCounts(split, missPenalty, tlb);
      if Lost(split, missPenalty, start, arrivals) == 0 {
        var (after, answered) := Serve(split, missPenalty, tlb);
        Regroup(before.received, before.answered, InService(tlb), before.tlb.pending, arrivals[n],
                Listed(answered), InService(after), after.pending);
      }
    }
  }

  lemma ClockCounts(split: Split, missPenalty: nat, tlb: Tlb)
    requires split.Valid()
    ensures var (after, answered) := Serve(split, missPenalty, tlb);
      |Listed(answered)| + |InService(after)| + |after.pending|
        + (if missPenalty == 0 && StartsMiss(split, tlb) then 1 else 0)
        == |InService(tlb)| + |tlb.pending|
  {
  }

  lemma EveryRequestIsAnsweredInOrder(
    split: Split, missPenalty: nat, start: Tlb, arrivals: seq<seq<TLBRequest>>)
    requires split.Valid() && missPenalty >= 1
    ensures var service := Simulate(split, missPenalty, start, arrivals);
      service.received == service.answered + (InService(service.tlb) + service.tlb.pending)
  {
    AnsweredInOrderIffNothingIsLost(split, missPenalty, start, arrivals);
  }

  // A TLB that has answered nothing yet, with nothing in its cache.
  function NewTlb(split: Split, numWays: nat): Tlb {
    Tlb([], NO_PENALTY, TLBRequest(0, 0), EmptyCache(split, numWays, 0))
  }

  lemma EmptyCacheMisses(split: Split, numWays: nat, addr: Address)
    requires split.Valid()
    ensures !IsHit(split, EmptyCache(split, numWays, 0), addr)
  {
    var sets: seq<seq<Way<Address>>> := EmptyCache(split, numWays, 0);
    IndexInRange(split, addr);
    FindFromMeaning(sets[split.GetIndex(addr)], split.GetTag(addr), 0);
  }

  // A new TLB with a penalty of zero never answers its first request.
  lemma {:induction false} FirstMissIsLost(split: Split, numWays: nat, request: TLBRequest, clocks: nat)
    requires split.Valid()
    ensures var service := Simulate(split, 0, NewTlb(split, numWays), [[request]] + Quiet(clocks));
      service.received == [request] && service.answered == [] && Idle(service.tlb)
  {
    var start, arrivals := NewTlb(split, numWays), [[request]] + Quiet(clocks);
    if clocks == 0 {
      EmptyCacheMisses(split, numWays, request.addr);
      assert arrivals[..0] == [] && start.pending + [request] == [request];
      assert Simulate(split, 0, start, []) == Service(start, [], []);
    } else {
      FirstMissIsLost(split, numWays, request, clocks - 1);
      assert arrivals[..clocks] == [[request]] + Quiet(clocks - 1) && arrivals[clocks] == [];
    }
  }

  lemma Regroup<T>(received: seq<T>, answered: seq<T>, service: seq<T>, pending: seq<T>, arrived: seq<T>,
                   listed: seq<T>, nextService: seq<T>, nextPending: seq<T>)
    requires received == answered + (service + pending)
    requires listed + nextService + nextPending == service + (pending + arrived)
    ensures received + arrived == (answered + listed) + (nextService + nextPending)
  {
    assert received + arrived == answered + (service + (pending + arrived));
  }

  // ------ Time

  // The clocks needed to answer the waiting requests, one after the other.
  function Cost(split: Split, missPenalty: nat, sets: seq<seq<Way<Address>>>, pending: seq<TLBRequest>): nat
    requires split.Valid()
    decreases |pending|
  {
    if pending == [] then 0 else
    1 + (if IsHit(split, sets, pending[0].addr) then 0 else missPenalty)
      + Cost(split, missPenalty, LookedUp(split, sets, pending[0].addr), pending[1..])
  }

  function Misses(split: Split, sets: seq<seq<Way<Address>>>, pending: seq<TLBRequest>): nat
    requires split.Valid()
    decreases |pending|
  {
    if pending == [] then 0 else
    (if IsHit(split, sets, pending[0].addr) then 0 else 1)
      + Misses(split, LookedUp(split, sets, pending[0].addr), pending[1..])
  }

  lemma OneMore(m: nat, p: nat)
    ensures (1 + m) * p == p + m * p && (0 + m) * p == m * p
  {
  }

  lemma {:induction false} CostInClosedForm(
    split: Split, missPenalty: nat, sets: seq<seq<Way<Address>>>, pending: seq<TLBRequest>)
    requires split.Valid()
    ensures Cost(split, missPenalty, sets, pending) == |pending| + Misses(split, sets, pending) * missPenalty
    decreases |pending|
  {
    if pending != [] {
      var sets' := LookedUp(split, sets, pending[0].addr);
      CostInClosedForm(split, missPenalty, sets', pending[1..]);
      OneMore(Misses(split, sets', pending[1..]), missPenalty);
    }
  }

  function Remaining(split: Split, missPenalty: nat, tlb: Tlb): nat
    requires split.Valid()
  {
    (if tlb.currentPenalty > 0 then tlb.currentPenalty else 0) + Cost(split, missPenalty, tlb.sets, tlb.pending)
  }

  predicate Idle(tlb: Tlb) {
    tlb.currentPenalty <= 0 && tlb.pending == []
  }

  // Every clock does exactly one clock's worth of the work.
  lemma ClockWorks(split: Split, missPenalty: nat, tlb: Tlb)
    requires split.Valid()
    ensures Idle(tlb) <==> Remaining(split, missPenalty, tlb) == 0
    ensures Idle(tlb) ==> Serve(split, missPenalty, tlb).0 == tlb
    ensures !Idle(tlb) ==>
      Remaining(split, missPenalty, Serve(split, missPenalty, tlb).0) == Remaining(split, missPenalty, tlb) - 1
  {
  }

  lemma OneClockLess(split: Split, missPenalty: nat, tlb: Tlb, after: Tlb)
    requires split.Valid() && after == Serve(split, missPenalty, tlb).0
    ensures var left := Remaining(split, missPenalty, tlb) - 1;
      Remaining(split, missPenalty, after) == if left > 0 then left else 0
  {
    ClockWorks(split, missPenalty, tlb);
  }

  function Quiet(clocks: nat): (arrivals: seq<seq<TLBRequest>>)
    ensures |arrivals| == clocks
  {
    if clocks == 0 then [] else Quiet(clocks - 1) + [[]]
  }

  lemma {:induction false} RemainingAfter(split: Split, missPenalty: nat, start: Tlb, clocks: nat)
    requires split.Valid()
    ensures var left := Remaining(split, missPenalty, start) - clocks;
      Remaining(split, missPenalty, Simulate(split, missPenalty, start, Quiet(clocks)).tlb)
        == if left > 0 then left else 0
  {
    if clocks != 0 {
      var before := Simulate(split, missPenalty, start, Quiet(clocks - 1)).tlb;
      assert Simulate(split, missPenalty, start, Quiet(clocks)).tlb == Serve(split, missPenalty, before).0 by {
        QuietClock(split, missPenalty, start, clocks);
      }
      RemainingAfter(split, missPenalty, start, clocks - 1);
      OneClockLess(split, missPenalty, before, Serve(split, missPenalty, before).0);
    }
  }

  lemma QuietClock(split: Split, missPenalty: nat, start: Tlb, clocks: nat)
    requires split.Valid() && clocks >= 1
    ensures Simulate(split, missPenalty, start, Quiet(clocks)).tlb
      == Serve(split, missPenalty, Simulate(split, missPenalty, start, Quiet(clocks - 1)).tlb).0
  {
    assert Quiet(clocks)[..clocks - 1] == Quiet(clocks - 1) && Quiet(clocks)[clocks - 1] == [];
    var before := Simulate(split, missPenalty, start, Quiet(clocks - 1)).tlb;
    assert before.pending + [] == before.pending;
    assert before.(pending := before.pending + []) == before;
  }

  // N waiting requests of which M miss are all answered after N + M * missPenalty clocks
  // without arrivals, and not one clock earlier.
  lemma ServiceTimeIsExact(split: Split, missPenalty: nat, start: Tlb, clocks: nat)
    requires split.Valid() && missPenalty >= 1 && start.currentPenalty <= 0
    ensures var service := Simulate(split, missPenalty, start, Quiet(clocks));
      (service.answered == start.pending)
        <==> clocks >= |start.pending| + Misses(split, start.sets, start.pending) * missPenalty
  {
    CostInClosedForm(split, missPenalty, start.sets, start.pending);
    RemainingAfter(split, missPenalty, start, clocks);
    var service := Simulate(split, missPenalty, start, Quiet(clocks));
    ClockWorks(split, missPenalty, service.tlb);
    EveryRequestIsAnsweredInOrder(split, missPenalty, start, Quiet(clocks));
    QuietReceivesNothing(split, missPenalty, start, clocks);
    assert InService(start) + start.pending == start.pending;
    var rest := InService(service.tlb) + service.tlb.pending;
    assert rest == [] <==> Idle(service.tlb);
    if rest == [] {
      assert service.answered + rest == service.answered;
    } else {
      assert |service.answered + rest| > |service.answered|;
    }
  }

  lemma {:induction false} QuietReceivesNothing(split: Split, missPenalty: nat, start: Tlb, clocks: nat)
    requires split.Valid()
    ensures Simulate(split, missPenalty, start, Quiet(clocks)).received == InService(start) + start.pending
  {
    if clocks != 0 {
      QuietReceivesNothing(split, missPenalty, start, clocks - 1);
      assert Quiet(clocks)[..clocks - 1] == Quiet(clocks - 1);
      var received := InService(start) + start.pending;
      assert received + [] == received;
    }
  }

  // ------ Connections

  // What a clock takes in does not depend on what was already waiting: the first
  // request of every connection, in connection order.
  lemma {:induction false} ArrivalsAppend(pending: seq<TLBRequest>, links: seq<Link<Address>>, id: nat)
    ensures TakeFrom(pending, links, id).0 == pending + TakeFrom([], links, id).0
    ensures TakeFrom(pending, links, id).1 == TakeFrom([], links, id).1
    decreases |links| - id
  {
    if id < |links| {
      var first := First(links[id], id);
      var rest := links[id := links[id].GetRequest()];
      ArrivalsAppend(pending + first, rest, id + 1);
      ArrivalsAppend([] + first, rest, id + 1);
      assert [] + first == first;
    }
  }
}
