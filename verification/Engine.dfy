// The engine's side of fetching: it buffers one instruction per core and answers
// requests for bytes (src/engine/engine.cpp).
module Engines {
  import opened Linkables
  import opened Packets

  // The trace reader, as what its k-th call for a core gives.
  type Reader = nat -> Fetched

  // ------ One core on values

  datatype Core = Core(buffer: InstructionPacket, calls: nat)

  // No instruction is empty, and the reader stays within its arrays.
  predicate Sized(fetched: Fetched) {
    match fetched
    case Ok(packet) => packet.Size() >= 1
    case Error(partial) => partial.Size() >= 1
    case Overrun => false
    case _ => true
  }

  ghost predicate AllSized(reader: Reader) {
    forall k :: Sized(reader(k))
  }

  // What the buffer holds after a call.
  function Refill(buffer: InstructionPacket, fetched: Fetched): InstructionPacket {
    match fetched
    case Ok(packet) => packet
    case Error(partial) => partial
    case _ => buffer
  }

  function Stops(fetched: Fetched): bool {
    fetched.End? || fetched.Error?
  }

  // SendBufferedAndFetch: the core afterwards, and the packet that was sent.
  function Advance(reader: Reader, core: Core): Core {
    Core(Refill(core.buffer, reader(core.calls)), core.calls + 1)
  }

  function Sent(reader: Reader, core: Core): InstructionPacket {
    core.buffer.(nextInstruction := Refill(core.buffer, reader(core.calls)).staticInfo.instAddress)
  }

  // How many calls, from the `from`-th up to the `to`-th, the engine goes on after.
  function GoesOn(reader: Reader, from: nat, to: nat): nat {
    if to <= from then 0 else GoesOn(reader, from, to - 1) + if Stops(reader(to - 1)) then 0 else 1
  }

  // The same for all cores below `n`.
  function GoOn(readers: seq<Reader>, from: seq<nat>, to: seq<nat>, n: nat): nat
    requires n <= |readers| == |from| == |to|
  {
    if n == 0 then 0 else GoOn(readers, from, to, n - 1) + GoesOn(readers[n - 1], from[n - 1], to[n - 1])
  }

  lemma {:induction false} GoOnAgrees(readers: seq<Reader>, from: seq<nat>, to: seq<nat>, other: seq<nat>, n: nat)
    requires n <= |readers| == |from| == |to| == |other|
    requires forall i :: 0 <= i < n ==> to[i] == other[i]
    ensures GoOn(readers, from, to, n) == GoOn(readers, from, other, n)
  {
    if n > 0 {
      GoOnAgrees(readers, from, to, other, n - 1);
    }
  }

  lemma OneCoreMore(readers: seq<Reader>, from: seq<nat>, to: seq<nat>, other: seq<nat>, n: nat)
    requires n < |readers| == |from| == |to| == |other|
    requires forall i :: 0 <= i < n ==> to[i] == other[i]
    ensures GoOn(readers, from, other, n + 1)
      == GoOn(readers, from, to, n) + GoesOn(readers[n], from[n], other[n])
  {
    GoOnAgrees(readers, from, to, other, n);
  }

  datatype Served = Served(core: Core, link: Link<FetchPacket>)

  function SendOne(reader: Reader, served: Served): Served {
    Served(Advance(reader, served.core), served.link.SendResponse(Response(Sent(reader, served.core))))
  }

  // The weight loop of Engine::Fetch.
  function SendUpTo(reader: Reader, served: Served, weight: int, bytes: int): (after: Served)
    requires AllSized(reader) && served.core.buffer.Size() >= 1
    ensures after.core.buffer.Size() >= 1
    decreases bytes - weight
  {
    if weight >= bytes then served else
    var next := SendOne(reader, served);
    if Stops(reader(served.core.calls)) then next
    else SendUpTo(reader, next, weight + next.core.buffer.Size(), bytes)
  }

  function Serve(reader: Reader, served: Served, bytes: int): (after: Served)
    requires AllSized(reader) && served.core.buffer.Size() >= 1
    ensures after.core.buffer.Size() >= 1
  {
    if bytes == 0 then SendOne(reader, served) else SendUpTo(reader, served, served.core.buffer.Size(), bytes)
  }

  // Engine::Clock for one connection: at most one request is answered per clock. The
  // message of a well-behaved component is a request.
  function ServeClock(reader: Reader, served: Served): (after: Served)
    requires AllSized(reader) && served.core.buffer.Size() >= 1
    ensures after.core.buffer.Size() >= 1
  {
    match served.link.request.Head()
    case Some(Request(bytes)) => Serve(reader, Served(served.core, served.link.GetRequest()), bytes)
    case _ => Served(served.core, served.link.GetRequest())
  }

  // ------ The engine

  class Engine {
    const port: Linkable<FetchPacket>
    const readers: seq<Reader>
    const fetchBuffers: array<InstructionPacket>
    const calls: array<nat>
    var fetchedInstructions: nat
    var end: bool
    var error: bool

    ghost predicate Built()
      reads this, port, port.Repr, fetchBuffers, calls
    {
      && port.Valid() && {this, fetchBuffers, calls} !! port.Repr
      && |port.Links| == |readers| == fetchBuffers.Length == calls.Length
      && (fetchBuffers as object) != calls
      && forall i :: 0 <= i < |readers| ==> AllSized(readers[i])
    }

    ghost predicate Valid()
      reads this, port, port.Repr, fetchBuffers, calls
    {
      Built() && forall i :: 0 <= i < |readers| ==> fetchBuffers[i].Size() >= 1
    }

    ghost function CoreAt(i: nat): Core
      requires i < fetchBuffers.Length && i < calls.Length
      reads this, fetchBuffers, calls
    {
      Core(fetchBuffers[i], calls[i])
    }

    ghost function At(i: nat): Served
      requires i < fetchBuffers.Length && i < calls.Length && i < |port.Links|
      reads this, port, port.Repr, fetchBuffers, calls
    {
      Served(CoreAt(i), port.Links[i])
    }

    constructor (port: Linkable<FetchPacket>, readers: seq<Reader>)
      requires port.Valid() && |port.Links| == |readers|
      requires forall i :: 0 <= i < |readers| ==> AllSized(readers[i])
      ensures Built() && this.port == port && this.readers == readers
      ensures fresh(fetchBuffers) && fresh(calls)
      ensures forall i :: 0 <= i < |readers| ==> calls[i] == 0
      ensures fetchedInstructions == 0 && !end && !error
    {
      this.port := port;
      this.readers := readers;
      fetchBuffers := new InstructionPacket[|readers|](i => BLANK_PACKET);
      calls := new nat[|readers|](i => 0);
      fetchedInstructions := 0;
      end, error := false, false;
    }

    // Buffers the first instruction of every core; fails when one of them has none.
    method SetupSimulation() returns (failed: bool)
      requires Built() && forall i :: 0 <= i < |readers| ==> calls[i] == 0
      modifies this`fetchedInstructions, fetchBuffers, calls
      ensures failed <==> exists i :: 0 <= i < |readers| && !readers[i](0).Ok?
      ensures !failed ==> Valid() && fetchedInstructions == old(fetchedInstructions) + |readers|
      ensures !failed ==> forall i :: 0 <= i < |readers| ==> CoreAt(i) == Core(readers[i](0).packet, 1)
    {
      for n := 0 to |readers|
        invariant Built() && fetchedInstructions == old(fetchedInstructions) + n
        invariant forall i :: n <= i < |readers| ==> calls[i] == 0
        invariant forall i :: 0 <= i < n ==>
          readers[i](0).Ok? && CoreAt(i) == Core(readers[i](0).packet, 1) && fetchBuffers[i].Size() >= 1
      {
        var fetched := readers[n](calls[n]);
        calls[n] := calls[n] + 1;
        assert Sized(fetched);
        if !fetched.Ok? {
          return true;
        }
        fetchBuffers[n] := fetched.packet;
        fetchedInstructions := fetchedInstructions + 1;
      }
      return false;
    }

    // Some call for core `i` from the `from`-th up to the `to`-th ended the trace.
    ghost predicate EndedIn(i: nat, from: nat, to: nat)
      requires i < |readers|
    {
      exists k :: from <= k < to && readers[i](k).End?
    }

    ghost predicate FailedIn(i: nat, from: nat, to: nat)
      requires i < |readers|
    {
      exists k :: from <= k < to && readers[i](k).Error?
    }

    lemma OneMoreCall(i: nat, from: nat, call: nat)
      requires i < |readers| && from <= call
      ensures EndedIn(i, from, call + 1) <==> EndedIn(i, from, call) || readers[i](call).End?
      ensures FailedIn(i, from, call + 1) <==> FailedIn(i, from, call) || readers[i](call).Error?
      ensures GoesOn(readers[i], from, call + 1)
        == GoesOn(readers[i], from, call) + if Stops(readers[i](call)) then 0 else 1
    {
    }

    // Buffers what the next call of the reader gives.
    method CallReader(id: nat) returns (r: Fetched)
      requires Valid() && id < |readers|
      modifies fetchBuffers, calls
      ensures Valid()
      ensures r == readers[id](old(calls[id]))
      ensures CoreAt(id) == Advance(readers[id], old(CoreAt(id)))
      ensures forall i :: 0 <= i < |readers| && i != id ==>
        fetchBuffers[i] == old(fetchBuffers[i]) && calls[i] == old(calls[i])
    {
      r := readers[id](calls[id]);
      calls[id] := calls[id] + 1;
      assert Sized(r);
      match r {
        case Ok(packet) => fetchBuffers[id] := packet;
        case Error(partial) => fetchBuffers[id] := partial;
        case _ =>
      }
    }

    // Sends the buffered instruction and buffers the next one. The response is dropped
    // when the connection is full.
    method SendBufferedAndFetch(id: nat) returns (stop: bool)
      requires Valid() && id < |readers|
      modifies this, port.Repr, fetchBuffers, calls
      ensures Valid() && fresh(port.Repr - old(port.Repr))
      ensures stop == Stops(readers[id](old(calls[id])))
      ensures At(id) == SendOne(readers[id], old(At(id)))
      ensures calls[id] == old(calls[id]) + 1
      ensures end <==> old(end) || readers[id](old(calls[id])).End?
      ensures error <==> old(error) || readers[id](old(calls[id])).Error?
      ensures forall i :: 0 <= i < |readers| && i != id ==>
        fetchBuffers[i] == old(fetchBuffers[i]) && calls[i] == old(calls[i])
          && port.Links[i] == old(port.Links)[i]
      ensures fetchedInstructions == old(fetchedInstructions) + (if stop then 0 else 1)
    {
      var toSend := fetchBuffers[id];
      var r := CallReader(id);
      toSend := toSend.(nextInstruction := fetchBuffers[id].staticInfo.instAddress);
      var dropped := port.SendResponse(id, Response(toSend));
      if r.End? {
        end := true;
        return true;
      } else if r.Error? {
        error := true;
        return true;
      }
      fetchedInstructions := fetchedInstructions + 1;
      return false;
    }

    // The flags and the count, once core `id` has come from its `from`-th call to where it is.
    ghost predicate Counts(id: nat, from: nat, wasEnd: bool, wasError: bool, fetched: nat)
      requires id < |readers| == calls.Length
      reads this, calls
    {
      && from <= calls[id]
      && (end <==> wasEnd || EndedIn(id, from, calls[id]))
      && (error <==> wasError || FailedIn(id, from, calls[id]))
      && fetchedInstructions == fetched + GoesOn(readers[id], from, calls[id])
    }

    method SendAndCount(id: nat, ghost from: nat, ghost wasEnd: bool, ghost wasError: bool, ghost fetched: nat)
      returns (stop: bool)
      requires Valid() && id < |readers| && Counts(id, from, wasEnd, wasError, fetched)
      modifies this, port.Repr, fetchBuffers, calls
      ensures Valid() && fresh(port.Repr - old(port.Repr)) && Counts(id, from, wasEnd, wasError, fetched)
      ensures stop == Stops(readers[id](old(calls[id]))) && At(id) == SendOne(readers[id], old(At(id)))
      ensures forall i :: 0 <= i < |readers| && i != id ==>
        fetchBuffers[i] == old(fetchBuffers[i]) && calls[i] == old(calls[i])
          && port.Links[i] == old(port.Links)[i]
    {
      OneMoreCall(id, from, calls[id]);
      stop := SendBufferedAndFetch(id);
    }

    method Fetch(id: nat, bytes: int)
      requires Valid() && id < |readers|
      modifies this, port.Repr, fetchBuffers, calls
      ensures Valid() && fresh(port.Repr - old(port.Repr))
      ensures At(id) == Serve(readers[id], old(At(id)), bytes)
      ensures old(calls[id]) <= calls[id]
      ensures end <==> old(end) || EndedIn(id, old(calls[id]), calls[id])
      ensures error <==> old(error) || FailedIn(id, old(calls[id]), calls[id])
      ensures fetchedInstructions == old(fetchedInstructions) + GoesOn(readers[id], old(calls[id]), calls[id])
      ensures forall i :: 0 <= i < |readers| && i != id ==>
        fetchBuffers[i] == old(fetchBuffers[i]) && calls[i] == old(calls[i])
          && port.Links[i] == old(port.Links)[i]
    {
      ghost var from, wasEnd, wasError, fetched := calls[id], end, error, fetchedInstructions;
      if bytes == 0 {
        var stop := SendAndCount(id, from, wasEnd, wasError, fetched);
        return;
      }
      var weight := fetchBuffers[id].Size();
      while weight < bytes
        invariant Valid() && fresh(port.Repr - old(port.Repr))
        invariant SendUpTo(readers[id], At(id), weight, bytes) == Serve(readers[id], old(At(id)), bytes)
        invariant Counts(id, from, wasEnd, wasError, fetched)
        invariant forall i :: 0 <= i < |readers| && i != id ==>
          fetchBuffers[i] == old(fetchBuffers[i]) && calls[i] == old(calls[i])
            && port.Links[i] == old(port.Links)[i]
      {
        var stop := SendAndCount(id, from, wasEnd, wasError, fetched);
        if stop {
          return;
        }
        weight := weight + fetchBuffers[id].Size();
      }
    }

    // Every core is served once, independently of the others.
    method Clock()
      requires Valid()
      modifies this, port.Repr, fetchBuffers, calls
      ensures Valid() && fresh(port.Repr - old(port.Repr))
      ensures forall i :: 0 <= i < |readers| ==> At(i) == ServeClock(readers[i], old(At(i)))
      ensures forall i :: 0 <= i < |readers| ==> old(calls[i]) <= calls[i]
      ensures end <==> old(end) || exists i :: 0 <= i < |readers| && EndedIn(i, old(calls[i]), calls[i])
      ensures error <==> old(error) || exists i :: 0 <= i < |readers| && FailedIn(i, old(calls[i]), calls[i])
      ensures fetchedInstructions == old(fetchedInstructions) + GoOn(readers, old(calls[..]), calls[..], |readers|)
    {
      for n := 0 to |readers|
        invariant Valid() && fresh(port.Repr - old(port.Repr))
        invariant forall i :: n <= i < |readers| ==> At(i) == old(At(i))
        invariant forall i :: 0 <= i < n ==> At(i) == ServeClock(readers[i], old(At(i)))
        invariant forall i :: 0 <= i < |readers| ==> old(calls[i]) <= calls[i]
        invariant end <==> old(end) || exists i :: 0 <= i < n && EndedIn(i, old(calls[i]), calls[i])
        invariant error <==> old(error) || exists i :: 0 <= i < n && FailedIn(i, old(calls[i]), calls[i])
        invariant fetchedInstructions == old(fetchedInstructions) + GoOn(readers, old(calls[..]), calls[..], n)
      {
        ghost var before := calls[..];
        ServeCore(n);
        OneCoreMore(readers, old(calls[..]), before, calls[..], n);
      }
    }

    method ServeCore(id: nat)
      requires Valid() && id < |readers|
      modifies this, port.Repr, fetchBuffers, calls
      ensures Valid() && fresh(port.Repr - old(port.Repr))
      ensures At(id) == ServeClock(readers[id], old(At(id)))
      ensures forall i :: 0 <= i < |readers| && i != id ==> At(i) == old(At(i))
      ensures old(calls[id]) <= calls[id]
      ensures forall i :: 0 <= i < |readers| && i != id ==> calls[i] == old(calls[i])
      ensures end <==> old(end) || EndedIn(id, old(calls[id]), calls[id])
      ensures error <==> old(error) || FailedIn(id, old(calls[id]), calls[id])
      ensures fetchedInstructions == old(fetchedInstructions) + GoesOn(readers[id], old(calls[id]), calls[id])
    {
      var packet := port.GetRequest(id);
      if packet.Some? && packet.value.Request? {
        Fetch(id, packet.value.bytes);
      }
    }
  }
}
